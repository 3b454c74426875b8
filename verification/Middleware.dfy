/** Many model calls sharing one daily budget. A call reserves its estimate, is in flight
    while the request runs, and then commits the estimate or, after a failure, zero. The
    budget's mutex makes each reserve and commit one step; steps of different calls
    interleave freely and days change under them. */
module Middleware {
  import opened Budgets
  import opened Sums

  /** `current` holds the calls that reserved since the last day reset, `stale` those that
      reserved before it, each with its estimate; `carried` is the total estimate of all
      calls that were in flight when that reset happened. */
  datatype System = System(account: Account, current: map<nat, real>, stale: map<nat, real>, carried: real)

  datatype CallStep =
    | Begin(call: nat, estimate: real, today: int, stamp: int)
    | Finish(call: nat, succeeded: bool, today: int, stamp: int)
    | Ask(today: int)

  ghost predicate Enabled(s: System, step: CallStep) {
    match step
    case Begin(call, estimate, _, _) => call !in s.current && call !in s.stale && estimate >= 0.0
    case Finish(call, _, _, _) => call in s.current || call in s.stale
    case Ask(_) => true
  }

  /** The first step of a day resets the budget; whoever is in flight then becomes stale. */
  ghost function NewDay(s: System, today: int): System {
    if today == s.account.day then s
    else
      var inFlight := s.stale + s.current;
      System(Rolled(s.account, today), map[], inFlight, Total(inFlight))
  }

  /** A step that cannot happen leaves everything as it is. */
  ghost function Next(s: System, step: CallStep): System {
    if !Enabled(s, step) then s
    else
    match step
    case Begin(call, estimate, today, stamp) =>
      var d := NewDay(s, today);
      var booked := d.(account := AfterReserve(s.account, estimate, today, stamp));
      if Fits(s.account, estimate, today) && estimate > 0.0 then booked.(current := d.current[call := estimate])
      else booked
    case Finish(call, succeeded, today, stamp) =>
      var d := NewDay(s, today);
      var estimate := if call in d.current then d.current[call] else d.stale[call];
      var usd := if succeeded then estimate else 0.0;
      d.(account := AfterCommit(s.account, usd, today, stamp),
         current := d.current - {call}, stale := d.stale - {call})
    case Ask(today) => NewDay(s, today)
  }

  /** Each step is one call of the budget: a reservation, a commit of the estimate reserved or of
      zero, or a question about today. */
  lemma StepsAreBudgetCalls(s: System, step: CallStep)
    requires Enabled(s, step)
    ensures match step
      case Begin(_, estimate, today, stamp) => Next(s, step).account == AfterReserve(s.account, estimate, today, stamp)
      case Finish(call, ok, today, stamp) =>
        var reserved := if call in s.current then s.current[call] else s.stale[call];
        call !in s.stale || call !in s.current ==>
          Next(s, step).account == AfterCommit(s.account, if ok then reserved else 0.0, today, stamp)
      case Ask(today) => Next(s, step).account == Rolled(s.account, today)
  {
  }

  ghost function After(start: System, steps: seq<CallStep>): System {
    if steps == [] then start else Next(After(start, steps[..|steps| - 1]), steps[|steps| - 1])
  }

  /** A process that has just started, possibly over a ledger with spending of today. */
  ghost predicate Started(s: System) {
    && s.current == map[] && s.stale == map[] && s.carried == 0.0
    && s.account.money.reserved >= 0.0 && s.account.money.spent >= 0.0
  }

  /** Reservations made today are covered, except for what stale commits ate of them; spending
      stays within what is allowed, the limit or whatever was spent at the start. */
  ghost predicate Covered(s: System, allowed: real) {
    && Positive(s.current) && Positive(s.stale) && s.current.Keys !! s.stale.Keys
    && allowed >= 0.0 && s.account.limit <= allowed && s.account.money.reserved >= 0.0
    && Total(s.current) <= s.account.money.reserved + s.carried - Total(s.stale)
    && s.account.money.spent + Total(s.current) <= allowed + s.carried - Total(s.stale)
  }

  lemma NewDayKeepsCovered(s: System, allowed: real, today: int)
    requires Covered(s, allowed)
    ensures Covered(NewDay(s, today), allowed)
    ensures NewDay(s, today).account == Rolled(s.account, today)
  {
    var d := NewDay(s, today);
    PositiveTotal(d.current);
    PositiveTotal(d.stale);
  }

  lemma BeginKeepsCovered(s: System, allowed: real, call: nat, estimate: real, today: int, stamp: int)
    requires Covered(s, allowed) && Enabled(s, Begin(call, estimate, today, stamp))
    ensures Covered(Next(s, Begin(call, estimate, today, stamp)), allowed)
  {
    NewDayKeepsCovered(s, allowed, today);
    PutIn(NewDay(s, today).current, call, estimate);
  }

  lemma FinishKeepsCovered(s: System, allowed: real, call: nat, succeeded: bool, today: int, stamp: int)
    requires Covered(s, allowed) && Enabled(s, Finish(call, succeeded, today, stamp))
    ensures Covered(Next(s, Finish(call, succeeded, today, stamp)), allowed)
  {
    NewDayKeepsCovered(s, allowed, today);
    var d := NewDay(s, today);
    if call in d.current {
      TakeOut(d.current, call);
      assert d.stale - {call} == d.stale;
    } else {
      TakeOut(d.stale, call);
      assert d.current - {call} == d.current;
    }
  }

  lemma StepKeepsCovered(s: System, allowed: real, step: CallStep)
    requires Covered(s, allowed)
    ensures Covered(Next(s, step), allowed)
  {
    if Enabled(s, step) {
      match step
      case Begin(call, estimate, today, stamp) => BeginKeepsCovered(s, allowed, call, estimate, today, stamp);
      case Finish(call, succeeded, today, stamp) => FinishKeepsCovered(s, allowed, call, succeeded, today, stamp);
      case Ask(today) => NewDayKeepsCovered(s, allowed, today);
    }
  }

  lemma {:induction false} EveryRunIsCovered(start: System, allowed: real, steps: seq<CallStep>)
    requires Covered(start, allowed)
    ensures Covered(After(start, steps), allowed) && After(start, steps).account.limit == start.account.limit
  {
    if steps != [] {
      var front := steps[..|steps| - 1];
      EveryRunIsCovered(start, allowed, front);
      StepKeepsCovered(After(start, front), allowed, steps[|steps| - 1]);
    }
  }

  function Max(a: real, b: real): real {
    if a < b then b else a
  }

  /** The day has changed at some step of the run. */
  ghost predicate HasReset(start: System, steps: seq<CallStep>) {
    steps != [] && (After(start, steps).account.day != start.account.day || HasReset(start, steps[..|steps| - 1]))
  }

  /** What may be spent before a reset is the limit or what had been spent already; after it,
      only the limit. */
  ghost function Allowed(start: System, steps: seq<CallStep>): real {
    if HasReset(start, steps) then Max(start.account.limit, 0.0)
    else Max(start.account.limit, start.account.money.spent)
  }

  /** A day change forgets what had been spent. */
  lemma ResetLowersAllowance(s: System, allowed: real, limit: real, step: CallStep)
    requires Covered(s, allowed) && s.account.limit <= limit && limit >= 0.0
    requires Next(s, step).account.day != s.account.day
    ensures Covered(Next(s, step), limit)
  {
    var d := NewDay(s, step.today);
    PositiveTotal(map[]);
    assert Covered(d, limit);
    assert Enabled(s, step) && Enabled(d, step) && Next(s, step) == Next(d, step);
    StepKeepsCovered(d, limit, step);
  }

  lemma {:induction false} RunStaysAllowed(start: System, steps: seq<CallStep>)
    requires Started(start)
    ensures Covered(After(start, steps), Allowed(start, steps))
    ensures After(start, steps).account.limit == start.account.limit
    ensures !HasReset(start, steps) ==> After(start, steps).account.day == start.account.day
  {
    if steps == [] {
      PositiveTotal(map[]);
    } else {
      var front, last := steps[..|steps| - 1], steps[|steps| - 1];
      RunStaysAllowed(start, front);
      StepKeepsCovered(After(start, front), Allowed(start, front), last);
      if HasReset(start, steps) && !HasReset(start, front) {
        ResetLowersAllowance(After(start, front), Allowed(start, front), Max(start.account.limit, 0.0), last);
      }
    }
  }

  /** In every interleaving the day's spending stays within the limit plus the estimates of
      the calls that were in flight at the last day reset; with none it stays within the
      limit. Those still unfinished do not count against it yet. A process that starts with
      more than the limit already spent today adds nothing to it on that day. */
  lemma SpendingIsBounded(start: System, steps: seq<CallStep>)
    requires Started(start)
    ensures var s, allowed := After(start, steps), Allowed(start, steps);
      && s.account.money.spent <= allowed + s.carried - Total(s.stale)
      && s.account.money.spent <= allowed + s.carried
      && (s.carried == 0.0 ==> s.account.money.spent <= allowed)
  {
    RunStaysAllowed(start, steps);
    PositiveTotal(After(start, steps).current);
    PositiveTotal(After(start, steps).stale);
  }

  /** Some point of the run lies on another day: that is when the day has changed. */
  lemma {:induction false} ResetByPrefix(start: System, steps: seq<CallStep>, p: nat)
    requires p <= |steps| && After(start, steps[..p]).account.day != start.account.day
    ensures HasReset(start, steps)
    decreases |steps|
  {
    if p == |steps| {
      assert steps[..p] == steps;
    } else {
      assert steps[..|steps| - 1][..p] == steps[..p];
      ResetByPrefix(start, steps[..|steps| - 1], p);
    }
  }

  // ---------- when the limit can be passed ----------

  /** The day has just been reset with these calls in flight. */
  ghost predicate JustReset(s: System) {
    && s.account.money == NOTHING && s.account.limit >= 0.0
    && s.current == map[] && Positive(s.stale) && s.carried == Total(s.stale)
  }

  /** Every reset on a run leads there. */
  lemma ResetsAreJustReset(start: System, steps: seq<CallStep>, today: int)
    requires Started(start) && start.account.limit >= 0.0 && today != After(start, steps).account.day
    ensures JustReset(NewDay(After(start, steps), today))
  {
    PositiveTotal(map[]);
    EveryRunIsCovered(start, Max(start.account.limit, start.account.money.spent), steps);
  }

  predicate OnDay(steps: seq<CallStep>, day: int) {
    forall i :: 0 <= i < |steps| ==> steps[i].today == day
  }

  lemma {:induction false} CarriedIsFixedToday(s: System, steps: seq<CallStep>)
    requires OnDay(steps, s.account.day)
    ensures After(s, steps).carried == s.carried && After(s, steps).account.day == s.account.day
  {
    if steps != [] {
      CarriedIsFixedToday(s, steps[..|steps| - 1]);
    }
  }

  lemma {:induction false} AfterConcat(s: System, a: seq<CallStep>, b: seq<CallStep>)
    ensures After(s, a + b) == After(After(s, a), b)
  {
    if b == [] {
      assert a + b == a;
    } else {
      AfterConcat(s, a, b[..|b| - 1]);
      assert (a + b)[..|a + b| - 1] == a + b[..|b| - 1];
    }
  }

  /** All calls carried over finish successfully today. */
  lemma {:induction false} FinishStale(s: System) returns (steps: seq<CallStep>)
    requires s.current == map[] && Positive(s.stale)
    ensures OnDay(steps, s.account.day)
    ensures After(s, steps).account.money.spent == s.account.money.spent + Total(s.stale)
    decreases |s.stale|
  {
    if s.stale == map[] {
      return [];
    }
    var k :| k in s.stale;
    var day := s.account.day;
    var first := Finish(k, true, day, day);
    var next := Next(s, first);
    assert next.stale == s.stale - {k} && next.current == map[];
    TakeOut(s.stale, k);
    assert After(s, [first]) == next by { assert [first][..0] == []; }
    var rest := FinishStale(next);
    AfterConcat(s, [first], rest);
    return [first] + rest;
  }

  lemma {:induction false} FreshCall(m: map<nat, real>) returns (call: nat)
    ensures forall k :: k in m ==> k < call
    decreases |m|
  {
    if m == map[] {
      return 0;
    }
    var k :| k in m;
    var c := FreshCall(m - {k});
    call := if k < c then c else k + 1;
    assert forall j :: j in m ==> j == k || j in m - {k};
  }

  /** One new call reserves and spends the whole limit beside the calls carried over. */
  lemma SpendTheLimit(s: System) returns (steps: seq<CallStep>)
    requires JustReset(s) && s.account.limit > 0.0
    ensures OnDay(steps, s.account.day)
    ensures var a := After(s, steps);
      && a.account.money.spent == s.account.limit && a.account.day == s.account.day
      && a.current == map[] && a.stale == s.stale
  {
    var call := FreshCall(s.stale);
    var day, limit := s.account.day, s.account.limit;
    steps := [Begin(call, limit, day, day), Finish(call, true, day, day)];
    var begun := Next(s, steps[0]);
    assert begun.current == map[call := limit] && begun.account.money == Money(0.0, limit);
    var done := Next(begun, steps[1]);
    assert done.current == map[] && done.stale == s.stale;
    assert steps[..1] == [steps[0]] && steps[..1][..0] == [];
    assert After(s, steps[..1]) == begun;
  }

  /** The bound is tight: after every reset some run of the same day spends the limit and all
      the estimates carried over on top. */
  lemma BoundIsReached(s: System) returns (steps: seq<CallStep>)
    requires JustReset(s)
    ensures OnDay(steps, s.account.day)
    ensures After(s, steps).account.money.spent == s.account.limit + s.carried
  {
    var first := [];
    if s.account.limit > 0.0 {
      first := SpendTheLimit(s);
    }
    var rest := FinishStale(After(s, first));
    AfterConcat(s, first, rest);
    steps := first + rest;
  }

  ghost predicate CanOvershoot(s: System) {
    exists steps :: OnDay(steps, s.account.day) && After(s, steps).account.money.spent > s.account.limit
  }

  /** The limit can be passed on a day exactly when some call was in flight at its reset. */
  lemma OvershootsExactly(s: System)
    requires JustReset(s)
    ensures CanOvershoot(s) <==> s.carried > 0.0
  {
    PositiveTotal(s.stale);
    PositiveTotal(s.current);
    if s.carried > 0.0 {
      var steps := BoundIsReached(s);
    } else {
      forall steps | OnDay(steps, s.account.day)
        ensures After(s, steps).account.money.spent <= s.account.limit
      {
        EveryRunIsCovered(s, s.account.limit, steps);
        CarriedIsFixedToday(s, steps);
        PositiveTotal(After(s, steps).current);
        PositiveTotal(After(s, steps).stale);
      }
    }
  }
}
