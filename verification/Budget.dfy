/** The daily budget: reserve and commit against a limit, a lazy day reset, and a ledger
    that is replayed when the process starts. Amounts are real numbers, days are numbered. */
module Budgets {

  datatype RecordKind = Reserved | Committed

  datatype Record = Record(day: int, kind: RecordKind, usd: real)

  datatype Money = Money(spent: real, reserved: real)

  datatype Account = Account(limit: real, money: Money, day: int, ledger: seq<Record>)

  const NOTHING := Money(0.0, 0.0)

  // ---------- operations ----------

  /** The reset a new day brings, made by the first operation of that day. */
  function Rolled(a: Account, today: int): Account {
    if today != a.day then a.(money := NOTHING, day := today) else a
  }

  function Booked(m: Money, kind: RecordKind, usd: real): Money {
    match kind
    case Reserved => m.(reserved := m.reserved + usd)
    case Committed => Money(m.spent + usd, if m.reserved >= usd then m.reserved - usd else 0.0)
  }

  predicate Fits(a: Account, usd: real, today: int) {
    var m := Rolled(a, today).money;
    m.spent + m.reserved + usd <= a.limit
  }

  /** Book on `today` and write the ledger line with its own clock reading. */
  function Book(a: Account, kind: RecordKind, usd: real, today: int, stamp: int): Account {
    var r := Rolled(a, today);
    r.(money := Booked(r.money, kind, usd), ledger := a.ledger + [Record(stamp, kind, usd)])
  }

  function AfterReserve(a: Account, usd: real, today: int, stamp: int): Account {
    if Fits(a, usd, today) then Book(a, Reserved, usd, today, stamp) else Rolled(a, today)
  }

  function AfterCommit(a: Account, usd: real, today: int, stamp: int): Account {
    Book(a, Committed, usd, today, stamp)
  }

  /** What the ledger says about one day. */
  function Replay(ledger: seq<Record>, today: int): Money {
    if ledger == [] then NOTHING
    else
      var m, r := Replay(ledger[..|ledger| - 1], today), ledger[|ledger| - 1];
      if r.day != today then m else Booked(m, r.kind, r.usd)
  }

  class Budget {
    const dailyLimit: real
    var spent: real
    var reserved: real
    var lastReset: int
    var ledger: seq<Record>

    ghost function State(): Account
      reads this
    {
      Account(dailyLimit, Money(spent, reserved), lastReset, ledger)
    }

    /** A process starting over an existing ledger; the clock is read once for the day and
        once more by the replay. */
    constructor (dailyLimit: real, ledger: seq<Record>, today: int, replayDay: int)
      ensures State() == Account(dailyLimit, Replay(ledger, replayDay), today, ledger)
    {
      this.dailyLimit, this.ledger, spent, reserved, lastReset := dailyLimit, ledger, 0.0, 0.0, today;
      new;
      ReplayLedger(replayDay);
    }

    method ReplayLedger(today: int)
      requires spent == 0.0 && reserved == 0.0
      modifies this`spent, this`reserved
      ensures Money(spent, reserved) == Replay(ledger, today)
    {
      for i := 0 to |ledger|
        invariant Money(spent, reserved) == Replay(ledger[..i], today)
      {
        assert ledger[..i + 1][..i] == ledger[..i];
        var r := ledger[i];
        if r.day == today {
          match r.kind {
            case Reserved =>
              reserved := reserved + r.usd;
            case Committed =>
              if reserved >= r.usd {
                reserved := reserved - r.usd;
              } else {
                reserved := 0.0;
              }
              spent := spent + r.usd;
          }
        }
      }
      assert ledger[..|ledger|] == ledger;
    }

    method CheckDailyReset(today: int)
      modifies this
      ensures State() == Rolled(old(State()), today)
      ensures spent == (if today == old(lastReset) then old(spent) else 0.0)
      ensures reserved == (if today == old(lastReset) then old(reserved) else 0.0)
      ensures lastReset == today && ledger == old(ledger)
    {
      if today != lastReset {
        spent, reserved, lastReset := 0.0, 0.0, today;
      }
    }

    method CheckAndReserve(usd: real, today: int, stamp: int) returns (ok: bool)
      modifies this
      ensures ok <==> Fits(old(State()), usd, today)
      ensures State() == Apply(old(State()), DoReserve(usd, today, stamp))
      ensures
        var before, held := if today == old(lastReset) then old(spent) else 0.0,
                            if today == old(lastReset) then old(reserved) else 0.0;
        && (ok <==> before + held + usd <= dailyLimit)
        && lastReset == today && spent == before
        && reserved == (if ok then held + usd else held)
        && ledger == if ok then old(ledger) + [Record(stamp, Reserved, usd)] else old(ledger)
    {
      CheckDailyReset(today);
      if spent + reserved + usd > dailyLimit {
        return false;
      }
      reserved := reserved + usd;
      ledger := ledger + [Record(stamp, Reserved, usd)];
      return true;
    }

    method Commit(usd: real, today: int, stamp: int)
      modifies this
      ensures State() == Apply(old(State()), DoCommit(usd, today, stamp))
      ensures
        var before, held := if today == old(lastReset) then old(spent) else 0.0,
                            if today == old(lastReset) then old(reserved) else 0.0;
        && lastReset == today && spent == before + usd
        && reserved == (if held >= usd then held - usd else 0.0)
        && ledger == old(ledger) + [Record(stamp, Committed, usd)]
    {
      CheckDailyReset(today);
      if reserved >= usd {
        reserved := reserved - usd;
      } else {
        reserved := 0.0;
      }
      spent := spent + usd;
      ledger := ledger + [Record(stamp, Committed, usd)];
    }

    method SpentToday(today: int) returns (usd: real)
      modifies this
      ensures State() == Apply(old(State()), DoQuery(today)) && usd == State().money.spent
      ensures usd == if today == old(lastReset) then old(spent) else 0.0
    {
      CheckDailyReset(today);
      return spent;
    }
  }

  /** A commit never frees budget: what is spent and reserved together stays the same while
      the reservations cover it, and grows otherwise. Committing 0 after a failed call
      therefore leaves its reservation in place. */
  lemma CommitNeverReleases(a: Account, usd: real, today: int, stamp: int)
    requires usd >= 0.0 && a.day == today
    ensures var m, m' := a.money, AfterCommit(a, usd, today, stamp).money;
      && m'.spent + m'.reserved >= m.spent + m.reserved
      && (m'.spent + m'.reserved == m.spent + m.reserved <==> m.reserved >= usd)
      && (usd == 0.0 && m.reserved >= 0.0 ==> m' == m)
  {
  }

  // ---------- replay equals live ----------

  datatype BudgetOp =
    | DoReserve(usd: real, today: int, stamp: int)
    | DoCommit(usd: real, today: int, stamp: int)
    | DoQuery(today: int)

  function Apply(a: Account, op: BudgetOp): Account {
    match op
    case DoReserve(usd, today, stamp) => AfterReserve(a, usd, today, stamp)
    case DoCommit(usd, today, stamp) => AfterCommit(a, usd, today, stamp)
    case DoQuery(today) => Rolled(a, today)
  }

  function LastReading(op: BudgetOp): int {
    match op
    case DoReserve(_, _, stamp) => stamp
    case DoCommit(_, _, stamp) => stamp
    case DoQuery(today) => today
  }

  function Run(start: Account, ops: seq<BudgetOp>): Account {
    if ops == [] then start else Apply(Run(start, ops[..|ops| - 1]), ops[|ops| - 1])
  }

  function Clock(start: Account, ops: seq<BudgetOp>): int {
    if ops == [] then start.day else LastReading(ops[|ops| - 1])
  }

  /** Amounts are not negative and no clock reading precedes an earlier one. */
  predicate Sensible(clock: int, op: BudgetOp) {
    match op
    case DoReserve(usd, today, stamp) => usd >= 0.0 && clock <= today <= stamp
    case DoCommit(usd, today, stamp) => usd >= 0.0 && clock <= today <= stamp
    case DoQuery(today) => clock <= today
  }

  predicate SensibleRun(start: Account, ops: seq<BudgetOp>) {
    ops == [] ||
    (SensibleRun(start, ops[..|ops| - 1]) && Sensible(Clock(start, ops[..|ops| - 1]), ops[|ops| - 1]))
  }

  /** Midnight does not fall between an operation's day check and its ledger line, unless
      nothing is written or the amount is zero. */
  predicate Undivided(a: Account, op: BudgetOp) {
    match op
    case DoReserve(usd, today, stamp) => Fits(a, usd, today) && usd != 0.0 ==> today == stamp
    case DoCommit(usd, today, stamp) => usd != 0.0 ==> today == stamp
    case DoQuery(_) => true
  }

  /** A process started now, or on any later day, would have the live figures. */
  ghost predicate InSync(a: Account, clock: int) {
    forall now :: now >= clock ==> Replay(a.ledger, now) == Rolled(a, now).money
  }

  ghost predicate Consistent(a: Account, clock: int) {
    a.day <= clock && a.money.reserved >= 0.0 && InSync(a, clock)
  }

  lemma BookingStaysInSync(a: Account, clock: int, kind: RecordKind, usd: real, today: int, stamp: int)
    requires Consistent(a, clock) && usd >= 0.0 && clock <= today <= stamp
    ensures var a' := Book(a, kind, usd, today, stamp);
      && a'.day <= stamp && a'.money.reserved >= 0.0
      && (InSync(a', stamp) <==> usd != 0.0 ==> today == stamp)
  {
    var a' := Book(a, kind, usd, today, stamp);
    assert a'.ledger[..|a'.ledger| - 1] == a.ledger;
    forall now | now >= stamp && (now > stamp || today == stamp || usd == 0.0)
      ensures Replay(a'.ledger, now) == Rolled(a', now).money
    {
      assert Replay(a.ledger, now) == Rolled(a, now).money;
    }
    if today < stamp && usd != 0.0 {
      assert Replay(a.ledger, stamp) == Rolled(a, stamp).money == NOTHING;
      assert Replay(a'.ledger, stamp) != Rolled(a', stamp).money;
    }
  }

  lemma StepStaysInSync(a: Account, clock: int, op: BudgetOp)
    requires Consistent(a, clock) && Sensible(clock, op)
    ensures Consistent(Apply(a, op), LastReading(op)) <==> Undivided(a, op)
  {
    match op
    case DoReserve(usd, today, stamp) => BookingStaysInSync(a, clock, Reserved, usd, today, stamp);
    case DoCommit(usd, today, stamp) => BookingStaysInSync(a, clock, Committed, usd, today, stamp);
    case DoQuery(today) =>
  }

  ghost predicate AlwaysConsistent(start: Account, ops: seq<BudgetOp>) {
    && Consistent(Run(start, ops), Clock(start, ops))
    && (ops == [] || AlwaysConsistent(start, ops[..|ops| - 1]))
  }

  predicate AllUndivided(start: Account, ops: seq<BudgetOp>) {
    ops == [] ||
    (AllUndivided(start, ops[..|ops| - 1]) && Undivided(Run(start, ops[..|ops| - 1]), ops[|ops| - 1]))
  }

  /** Exact condition for the ledger: with readings that never go back, replaying it gives
      the live spent and reserved at every point, across day changes and the clamp in
      Commit, if and only if no operation that wrote a nonzero amount was cut by midnight. */
  lemma {:induction false} LedgerReplaysExactly(start: Account, ops: seq<BudgetOp>)
    requires Consistent(start, start.day) && SensibleRun(start, ops)
    ensures AlwaysConsistent(start, ops) <==> AllUndivided(start, ops)
  {
    if ops != [] {
      var front := ops[..|ops| - 1];
      LedgerReplaysExactly(start, front);
      if AlwaysConsistent(start, front) {
        StepStaysInSync(Run(start, front), Clock(start, front), ops[|ops| - 1]);
      }
    }
  }

  lemma {:induction false} NothingLater(ledger: seq<Record>, day: int, now: int)
    requires day < now && forall i :: 0 <= i < |ledger| ==> ledger[i].day <= day
    ensures Replay(ledger, now) == NOTHING
  {
    if ledger != [] {
      NothingLater(ledger[..|ledger| - 1], day, now);
    }
  }

  lemma {:induction false} NeverNegative(ledger: seq<Record>, day: int)
    requires forall i :: 0 <= i < |ledger| ==> ledger[i].usd >= 0.0
    ensures Replay(ledger, day).reserved >= 0.0 && Replay(ledger, day).spent >= 0.0
  {
    if ledger != [] {
      NeverNegative(ledger[..|ledger| - 1], day);
    }
  }

  /** A process that starts over a ledger without later days is in sync with it exactly when
      midnight does not fall between its two readings of the day, or the new day is empty. */
  lemma StartIsConsistent(limit: real, ledger: seq<Record>, today: int, replayDay: int)
    requires today <= replayDay
    requires forall i :: 0 <= i < |ledger| ==> ledger[i].day <= replayDay && ledger[i].usd >= 0.0
    ensures Consistent(Account(limit, Replay(ledger, replayDay), today, ledger), replayDay) <==>
      today == replayDay || Replay(ledger, replayDay) == NOTHING
  {
    var a := Account(limit, Replay(ledger, replayDay), today, ledger);
    NeverNegative(ledger, replayDay);
    forall now | now > replayDay ensures Replay(ledger, now) == NOTHING {
      NothingLater(ledger, replayDay, now);
    }
    if InSync(a, replayDay) {
      assert Replay(a.ledger, replayDay) == Rolled(a, replayDay).money;
    }
  }
}
