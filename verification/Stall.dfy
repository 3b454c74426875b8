/** The stall detector: fires once when nothing has happened for longer than the threshold,
    and is armed again by the next progress. Times are nanoseconds. */
module Stalls {
  import opened Transport

  const DEFAULT_THRESHOLD: int := 60_000_000_000

  datatype Watch = Watch(threshold: int, lastProgress: int, stalled: bool)

  predicate Overdue(w: Watch, now: int) {
    now - w.lastProgress > w.threshold
  }

  datatype StallOp = Progress(now: int) | Tick(now: int)

  /** A tick fires when progress is overdue and the stall has not been announced yet. */
  predicate Fires(w: Watch, op: StallOp) {
    op.Tick? && Overdue(w, op.now) && !w.stalled
  }

  function Next(w: Watch, op: StallOp): Watch {
    match op
    case Progress(now) => w.(lastProgress := now, stalled := false)
    case Tick(now) => if Overdue(w, now) then w.(stalled := true) else w
  }

  function LatestTime(envs: seq<Envelope>): int {
    if envs == [] then 0
    else
      var m, ts := LatestTime(envs[..|envs| - 1]), envs[|envs| - 1].ts;
      if ts > m then ts else m
  }

  /** The latest time of the journal, or 0 without any later one. */
  lemma {:induction false} LatestIsMaximum(envs: seq<Envelope>)
    ensures LatestTime(envs) >= 0
    ensures forall i :: 0 <= i < |envs| ==> envs[i].ts <= LatestTime(envs)
    ensures LatestTime(envs) > 0 ==> exists i :: 0 <= i < |envs| && envs[i].ts == LatestTime(envs)
  {
    if envs != [] {
      LatestIsMaximum(envs[..|envs| - 1]);
    }
  }

  class StalledDetector {
    const threshold: int
    var lastProgress: int
    var stalled: bool

    ghost function State(): Watch
      reads this
    {
      Watch(threshold, lastProgress, stalled)
    }

    constructor (threshold: int, now: int)
      ensures State() == Watch(if threshold <= 0 then 60_000_000_000 else threshold, now, false)
    {
      this.threshold := if threshold <= 0 then DEFAULT_THRESHOLD else threshold;
      lastProgress, stalled := now, false;
    }

    method RecordProgress(now: int)
      modifies this
      ensures State() == Next(old(State()), Progress(now))
      ensures lastProgress == now && !stalled
    {
      lastProgress := now;
      stalled := false;
    }

    /** Whether an event is to be journaled and broadcast. */
    method Check(now: int) returns (fire: bool)
      modifies this
      ensures State() == Next(old(State()), Tick(now))
      ensures fire <==> Fires(old(State()), Tick(now))
      ensures fire <==> now - old(lastProgress) > threshold && !old(stalled)
      ensures stalled <==> old(stalled) || now - old(lastProgress) > threshold
      ensures lastProgress == old(lastProgress)
    {
      var age := now - lastProgress;
      if age <= threshold {
        return false;
      }
      var already := stalled;
      if !already {
        stalled := true;
      }
      return !already;
    }

    /** Takes the latest journal time as the last progress, if there is one. */
    method ArmFromJournal(envs: seq<Envelope>)
      modifies this
      ensures State() == if LatestTime(envs) > 0 then old(State()).(lastProgress := LatestTime(envs)) else old(State())
      ensures stalled == old(stalled)
      ensures (forall i :: 0 <= i < |envs| ==> envs[i].ts <= 0) ==> lastProgress == old(lastProgress)
      ensures (exists i :: 0 <= i < |envs| && envs[i].ts > 0) ==>
        && (forall i :: 0 <= i < |envs| ==> envs[i].ts <= lastProgress)
        && exists i :: 0 <= i < |envs| && envs[i].ts == lastProgress
    {
      LatestIsMaximum(envs);
      var latest := 0;
      for i := 0 to |envs|
        invariant latest == LatestTime(envs[..i])
        invariant State() == old(State())
      {
        assert envs[..i + 1][..i] == envs[..i];
        if envs[i].ts > latest {
          latest := envs[i].ts;
        }
      }
      assert envs[..|envs|] == envs;
      if latest > 0 {
        lastProgress := latest;
      }
    }
  }

  function Run(start: Watch, ops: seq<StallOp>): Watch {
    if ops == [] then start else Next(Run(start, ops[..|ops| - 1]), ops[|ops| - 1])
  }

  /** Is there an event at position i of the run? */
  predicate EventAt(start: Watch, ops: seq<StallOp>, i: nat)
    requires i < |ops|
  {
    Fires(Run(start, ops[..i]), ops[i])
  }

  predicate ClockForward(start: Watch, ops: seq<StallOp>) {
    && (forall i :: 0 <= i < |ops| ==> start.lastProgress <= ops[i].now)
    && forall i, j :: 0 <= i < j < |ops| ==> ops[i].now <= ops[j].now
  }

  /** What the detector remembers is the time of the latest progress. */
  lemma {:induction false} RemembersLatestProgress(start: Watch, ops: seq<StallOp>, n: nat, k: nat)
    requires ClockForward(start, ops) && k < n <= |ops| && ops[k].Progress?
    ensures Run(start, ops[..n]).lastProgress >= ops[k].now
    ensures Run(start, ops[..n]).threshold == start.threshold
    decreases n
  {
    assert ops[..n][..n - 1] == ops[..n - 1];
    if k < n - 1 {
      RemembersLatestProgress(start, ops, n - 1, k);
    } else {
      ThresholdIsFixed(start, ops[..n]);
    }
  }

  lemma {:induction false} ThresholdIsFixed(start: Watch, ops: seq<StallOp>)
    ensures Run(start, ops).threshold == start.threshold
  {
    if ops != [] {
      ThresholdIsFixed(start, ops[..|ops| - 1]);
    }
  }

  /** Without progress since an event, the stall stays announced. */
  lemma {:induction false} StaysAnnounced(start: Watch, ops: seq<StallOp>, i: nat, n: nat)
    requires i < n <= |ops| && EventAt(start, ops, i)
    requires forall k :: i < k < n ==> ops[k].Tick?
    ensures Run(start, ops[..n]).stalled
    decreases n
  {
    assert ops[..n][..n - 1] == ops[..n - 1];
    if i < n - 1 {
      StaysAnnounced(start, ops, i, n - 1);
    }
  }

  /** Every event comes more than the threshold after any earlier progress and after the
      start; between two events there is progress, and they are more than the threshold
      apart. */
  lemma EventsAreSpaced(start: Watch, ops: seq<StallOp>, j: nat)
    requires ClockForward(start, ops) && j < |ops| && EventAt(start, ops, j)
    ensures forall k :: 0 <= k < j && ops[k].Progress? ==> ops[j].now - ops[k].now > start.threshold
    ensures forall i :: 0 <= i < j && EventAt(start, ops, i) ==>
        (exists k :: i < k < j && ops[k].Progress?) && ops[j].now - ops[i].now > start.threshold
  {
    ThresholdIsFixed(start, ops[..j]);
    forall k | 0 <= k < j && ops[k].Progress? ensures ops[j].now - ops[k].now > start.threshold {
      RemembersLatestProgress(start, ops, j, k);
    }
    forall i | 0 <= i < j && EventAt(start, ops, i)
      ensures (exists k :: i < k < j && ops[k].Progress?) && ops[j].now - ops[i].now > start.threshold
    {
      if forall k :: i < k < j ==> ops[k].Tick? {
        StaysAnnounced(start, ops, i, j);
      }
      var k :| i < k < j && ops[k].Progress?;
      RemembersLatestProgress(start, ops, j, k);
    }
  }

  /** An event also needs more than the threshold since the detector was started. */
  lemma {:induction false} NoEarlyEvent(start: Watch, ops: seq<StallOp>, j: nat)
    requires ClockForward(start, ops) && j < |ops| && EventAt(start, ops, j)
    ensures ops[j].now - start.lastProgress > start.threshold
  {
    ThresholdIsFixed(start, ops[..j]);
    ProgressNeverGoesBack(start, ops, j);
  }

  lemma {:induction false} ProgressNeverGoesBack(start: Watch, ops: seq<StallOp>, n: nat)
    requires ClockForward(start, ops) && n <= |ops|
    ensures Run(start, ops[..n]).lastProgress >= start.lastProgress
    decreases n
  {
    if n > 0 {
      assert ops[..n][..n - 1] == ops[..n - 1];
      ProgressNeverGoesBack(start, ops, n - 1);
    }
  }

  /** Positions k to n - 1 are ticks, and before them comes a progress or an unstalled start. */
  predicate QuietFrom(start: Watch, ops: seq<StallOp>, k: nat, n: nat) {
    && k <= n <= |ops|
    && (if k == 0 then !start.stalled else ops[k - 1].Progress?)
    && forall i :: k <= i < n ==> ops[i].Tick?
  }

  function Baseline(start: Watch, ops: seq<StallOp>, k: nat): int
    requires k <= |ops|
  {
    if k == 0 then start.lastProgress else ops[k - 1].now
  }

  lemma {:induction false} QuietState(start: Watch, ops: seq<StallOp>, k: nat, n: nat)
    requires QuietFrom(start, ops, k, n)
    ensures var w := Run(start, ops[..n]);
      && w.threshold == start.threshold && w.lastProgress == Baseline(start, ops, k)
      && (w.stalled <==> exists i :: k <= i < n && ops[i].now - Baseline(start, ops, k) > start.threshold)
    decreases n
  {
    ThresholdIsFixed(start, ops[..n]);
    if n > 0 {
      assert ops[..n][..n - 1] == ops[..n - 1];
      if n > k {
        QuietState(start, ops, k, n - 1);
      }
    }
  }

  /** Exactly the first overdue tick after a progress fires. After a restart the progress is
      the journal's latest time, so time already lost before the crash counts. */
  lemma FirstOverdueTickFires(start: Watch, ops: seq<StallOp>, k: nat, j: nat)
    requires j < |ops| && k <= j && QuietFrom(start, ops, k, j + 1)
    ensures var base := Baseline(start, ops, k);
      EventAt(start, ops, j) <==>
        ops[j].now - base > start.threshold && forall i :: k <= i < j ==> ops[i].now - base <= start.threshold
  {
    QuietState(start, ops, k, j);
  }
}
