/** One model call through its middleware: answer from the cache, or reserve the estimated
    cost, send the request, settle the reservation and keep the reply. */
module ModelClient {
  import opened Wrappers
  import B = Budgets
  import C = CacheSpec
  import M = Middleware
  import opened Caching

  datatype PostError = BudgetExceeded | Upstream(reason: string)

  /** What the outside world contributes to one call: the reply, the files as they are, and
      the clock as read by reserve, commit and put. */
  datatype Outside = Outside(
    reply: Result<string, string>, files: C.Files,
    reserveDay: int, reserveStamp: int, commitDay: int, commitStamp: int, now: int)

  /** The account after one call that was not answered from the cache. */
  function Charged(a: B.Account, cost: real, o: Outside): B.Account {
    var reserved := B.AfterReserve(a, cost, o.reserveDay, o.reserveStamp);
    if B.Fits(a, cost, o.reserveDay) && cost > 0.0 then
      B.AfterCommit(reserved, if o.reply.Ok? then cost else 0.0, o.commitDay, o.commitStamp)
    else reserved
  }

  /** What a call that had to be sent returns. */
  function Outcome(a: B.Account, tokens: nat, cost: real, o: Outside): Result<string, PostError> {
    if tokens > 0 && !B.Fits(a, cost, o.reserveDay) then Err(BudgetExceeded)
    else if o.reply.Err? then Err(Upstream(o.reply.error))
    else Ok(o.reply.value)
  }

  function Answered(c: C.Cached, key: C.Key, files: C.Files): Option<C.Entry> {
    if key == C.Key("") then None else C.Answer(c, key, files)
  }

  function Looked(capacity: nat, c: C.Cached, key: C.Key, files: C.Files): C.Cached {
    if key == C.Key("") then c else C.AfterGet(capacity, c, key, files)
  }

  /** What a call leaves in the cache for later ones. */
  function Kept(key: C.Key, payload: string, o: Outside): C.Entry {
    C.Stamped(C.Entry(key, payload, C.ZERO_TIME, "", C.ZERO_TIME), key, o.files, o.now)
  }

  class HttpClient {
    const cache: Cache
    const budget: B.Budget

    constructor (cache: Cache, budget: B.Budget)
      ensures this.cache == cache && this.budget == budget
    {
      this.cache, this.budget := cache, budget;
    }

    /** The empty key stands for a call without a cache, zero tokens for one without a budget. */
    method PostWithMiddleware(key: C.Key, tokens: nat, cost: real, o: Outside)
      returns (r: Result<string, PostError>)
      requires cache.Valid()
      modifies cache, cache.Repr(), budget
      ensures cache.Valid() && fresh(cache.Repr() - old(cache.Repr()))
      ensures
        var account, was := old(budget.State()), old(cache.State());
        var found := Answered(was, key, o.files);
        var looked := Looked(cache.capacity, was, key, o.files);
        if found.Some? then r == Ok(found.value.payload) && budget.State() == account && cache.State() == looked
        else
          && r == Outcome(account, tokens, cost, o)
          && budget.State() == (if tokens == 0 then account else Charged(account, cost, o))
          && cache.State() ==
               if key != C.Key("") && r.Ok? then C.AfterPut(cache.capacity, looked, Kept(key, r.value, o)) else looked
    {
      var found := Lookup(key, o.files);
      if found.Some? {
        return Ok(found.value.payload);
      }
      r := SendAndKeep(key, tokens, cost, o);
    }

    method SendAndKeep(key: C.Key, tokens: nat, cost: real, o: Outside) returns (r: Result<string, PostError>)
      requires cache.Valid()
      modifies cache, cache.Repr(), budget
      ensures cache.Valid() && fresh(cache.Repr() - old(cache.Repr()))
      ensures r == Outcome(old(budget.State()), tokens, cost, o)
      ensures budget.State() == if tokens == 0 then old(budget.State()) else Charged(old(budget.State()), cost, o)
      ensures cache.State() ==
        if key != C.Key("") && r.Ok? then C.AfterPut(cache.capacity, old(cache.State()), Kept(key, r.value, o))
        else old(cache.State())
    {
      r := Send(tokens, cost, o);
      assert cache.Valid() && cache.State() == old(cache.State()) && cache.Repr() == old(cache.Repr());
      if r.Ok? && key != C.Key("") {
        Keep(key, r.value, o);
      }
    }

    method Keep(key: C.Key, payload: string, o: Outside)
      requires cache.Valid()
      modifies cache, cache.Repr()
      ensures cache.Valid() && fresh(cache.Repr() - old(cache.Repr()))
      ensures cache.State() == C.AfterPut(cache.capacity, old(cache.State()), Kept(key, payload, o))
    {
      cache.Put(key, C.Entry(key, payload, C.ZERO_TIME, "", C.ZERO_TIME), o.files, o.now);
    }

    method Lookup(key: C.Key, files: C.Files) returns (found: Option<C.Entry>)
      requires cache.Valid()
      modifies cache, cache.Repr()
      ensures cache.Valid() && fresh(cache.Repr() - old(cache.Repr()))
      ensures found == Answered(old(cache.State()), key, files)
      ensures cache.State() == Looked(cache.capacity, old(cache.State()), key, files)
    {
      if key == C.Key("") {
        return None;
      }
      found := cache.Get(key, files);
    }

    /** Reserve, send, settle. */
    method Send(tokens: nat, cost: real, o: Outside) returns (r: Result<string, PostError>)
      modifies budget
      ensures r == Outcome(old(budget.State()), tokens, cost, o)
      ensures budget.State() == if tokens == 0 then old(budget.State()) else Charged(old(budget.State()), cost, o)
    {
      var estimate := 0.0;
      if tokens > 0 {
        estimate := cost;
        var ok := budget.CheckAndReserve(estimate, o.reserveDay, o.reserveStamp);
        if !ok {
          return Err(BudgetExceeded);
        }
      }
      if o.reply.Err? {
        if estimate > 0.0 {
          budget.Commit(0.0, o.commitDay, o.commitStamp);
        }
        return Err(Upstream(o.reply.error));
      }
      if estimate > 0.0 {
        budget.Commit(estimate, o.commitDay, o.commitStamp);
      }
      return Ok(o.reply.value);
    }
  }

  /** A charge is the two steps a call takes among others: begin, then finish. */
  lemma ChargeIsBeginThenFinish(s: M.System, call: nat, cost: real, o: Outside)
    requires cost >= 0.0 && call !in s.current && call !in s.stale
    ensures
      var begun := M.Next(s, M.Begin(call, cost, o.reserveDay, o.reserveStamp));
      M.Next(begun, M.Finish(call, o.reply.Ok?, o.commitDay, o.commitStamp)).account == Charged(s.account, cost, o)
  {
  }

  /** Within one day a success moves the cost to what is spent; a failure leaves it reserved
      for the rest of the day, and a refusal or a failure spends nothing. */
  lemma ChargeOfOneDay(a: B.Account, cost: real, o: Outside)
    requires cost >= 0.0 && a.money.reserved >= 0.0 && a.day == o.reserveDay == o.commitDay
    ensures var m, m' := a.money, Charged(a, cost, o).money;
      m' == if !B.Fits(a, cost, a.day) then m
            else if o.reply.Ok? && cost > 0.0 then B.Money(m.spent + cost, m.reserved)
            else B.Money(m.spent, m.reserved + cost)
  {
  }

  /** A call with a key is served exactly when the disk holds an entry for it that has no
      source file or one with the recorded time; without a key the cache is not asked. */
  lemma ServedByFiles(capacity: nat, c: C.Cached, key: C.Key, files: C.Files)
    requires C.Coherent(capacity, c)
    ensures Answered(c, key, files) ==
      if key != C.Key("") && key in c.disk && (c.disk[key].sourcePath == "" ||
           (c.disk[key].sourcePath in files && files[c.disk[key].sourcePath] == c.disk[key].sourceMtime))
      then Some(c.disk[key]) else None
    ensures var looked := Looked(capacity, c, key, files);
      if key == C.Key("") then looked == c
      else looked.hits == c.hits + (if Answered(c, key, files).Some? then 1 else 0) &&
           looked.misses == c.misses + (if Answered(c, key, files).Some? then 0 else 1)
  {
    C.GetByFiles(capacity, c, key, files);
    C.GetRefinesDisk(capacity, c, key, files);
  }

  /** A call that was not served, by the figures of the account on its day. Over the limit it
      is refused whatever the reply would be, and nothing is booked. Otherwise the reply is
      handed on; the cost is reserved first, and then committed after a success, or zero after
      a failure. Without tokens the account does not matter. */
  lemma CallByFigures(a: B.Account, tokens: nat, cost: real, o: Outside)
    requires cost >= 0.0
    ensures
      var sameDay := a.day == o.reserveDay;
      var spent, held := if sameDay then a.money.spent else 0.0, if sameDay then a.money.reserved else 0.0;
      var r, charged := Outcome(a, tokens, cost, o), Charged(a, cost, o);
      && (tokens > 0 && spent + held + cost > a.limit ==>
            r == Err(BudgetExceeded) && charged.ledger == a.ledger && charged.money == B.Money(spent, held))
      && (tokens == 0 || spent + held + cost <= a.limit ==>
            r == if o.reply.Ok? then Ok(o.reply.value) else Err(Upstream(o.reply.error)))
      && (spent + held + cost <= a.limit && cost > 0.0 ==>
            charged.ledger == a.ledger +
              [B.Record(o.reserveStamp, B.Reserved, cost),
               B.Record(o.commitStamp, B.Committed, if o.reply.Ok? then cost else 0.0)])
      && (spent + held + cost <= a.limit && cost == 0.0 ==>
            charged.ledger == a.ledger + [B.Record(o.reserveStamp, B.Reserved, 0.0)])
      && charged.limit == a.limit
  {
  }

  /** What a successful call kept answers the next call with its key, whatever the files are
      then, in memory and for a later process on the same disk. */
  lemma KeptReplyAnswers(capacity: nat, c: C.Cached, key: C.Key, payload: string, o: Outside, later: C.Files)
    requires C.Coherent(capacity, c) && capacity >= 1
    ensures var c' := C.AfterPut(capacity, c, Kept(key, payload, o));
      && C.Coherent(capacity, c')
      && C.Answer(c', key, later) == Some(Kept(key, payload, o))
      && C.Answer(C.Cached([], c'.disk, 0, 0), key, later) == Some(Kept(key, payload, o))
      && Kept(key, payload, o).payload == payload
  {
    var put := C.Put(key, C.Entry(key, payload, C.ZERO_TIME, "", C.ZERO_TIME), o.files, o.now);
    C.StepStaysCoherent(capacity, c, put);
    C.GetRefinesDisk(capacity, C.Apply(capacity, c, put), key, later);
  }
}
