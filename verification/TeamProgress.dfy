/** Progress at the level of the team, where a caller can also write a status directly: no
    wakeup is lost and nothing deadlocks exactly as long as nobody blocks a task that waits
    for nothing. */
module TeamProgress {
  import opened Graph
  import opened SchedulerSpec
  import opened Scheduling
  import opened Transport
  import opened Journaling
  import opened TeamSpec
  import opened Interleaving

  ghost predicate SoundTeam(st: TeamState) {
    Sound(Scheduled(st))
  }

  // ---------- one operation ----------

  lemma CreateStaysSound(st: TeamState, id: Id, deps: seq<Id>, owner: string, at: int)
    requires SoundTeam(st)
    ensures SoundTeam(AfterCreate(st, id, deps, owner, at))
  {
    AddKeepsSound(Scheduled(st), id, deps);
    CreatedIsScheduled(st, id, deps, owner, at);
  }

  lemma CreatedIsScheduled(st: TeamState, id: Id, deps: seq<Id>, owner: string, at: int)
    ensures Scheduled(AfterCreate(st, id, deps, owner, at)) == AfterAdd(Scheduled(st), id, deps)
  {
  }

  /** A direct write other than a completion can only lose the wakeup of its own task. */
  lemma WriteStaysSoundExactly(s: Tasks, x: Id, status: Status)
    requires Sound(s) && status != Completed
    ensures Sound(WithStatus(s, x, status)) <==> !(x in s && status == Blocked && DepsDone(s, x))
  {
    var s' := WithStatus(s, x, status);
    assert DepsOf(s') == DepsOf(s);
    forall k | k in s && k != x ensures k !in Ready(s') {
      assert k !in Ready(s);
      assert s[k].status == Blocked ==> exists d :: d in s[k].deps && !HasStatus(s, d, Completed);
      assert forall d :: !HasStatus(s, d, Completed) ==> !HasStatus(s', d, Completed);
    }
    if x in s {
      NoSelfDependency(DepsOf(s), x);
      SameCompletedSameWait(s, s', x);
      assert x in Ready(s') <==> status == Blocked && DepsDone(s, x);
    }
  }

  lemma WrittenIsScheduled(st: TeamState, x: Id, status: Status)
    requires x in st.tasks
    ensures Scheduled(Written(st, x, status)) == WithStatus(Scheduled(st), x, status)
  {
  }

  lemma RestartedIsScheduled(st: TeamState)
    ensures Scheduled(Restarted(st)) == StartReady(Scheduled(st))
  {
  }

  /** An update keeps the registry sound exactly when it does not block a scheduled task whose
      dependencies are all completed. */
  lemma UpdateStaysSoundExactly(st: TeamState, x: Id, status: Status)
    requires SoundTeam(st) && x in st.tasks
    ensures SoundTeam(AfterUpdate(st, x, status)) <==>
      !(status == Blocked && x in st.registered && DoneIn(st, st.tasks[x].deps))
  {
    UpdateIsWrite(st, x, status);
    WrittenIsScheduled(st, x, status);
    if status == Completed {
      CompletionStaysSound(st, x);
    } else {
      WriteStaysSoundExactly(Scheduled(st), x, status);
      ScheduledDone(st, x);
    }
  }

  lemma CompletionStaysSound(st: TeamState, x: Id)
    requires SoundTeam(st) && x in st.tasks
    ensures SoundTeam(Restarted(Written(st, x, Completed)))
  {
    var w := Written(st, x, Completed);
    WrittenIsScheduled(st, x, Completed);
    RestartedIsScheduled(w);
    StartReadyKeeps(Scheduled(w));
    assert DepsOf(Scheduled(w)) == DepsOf(Scheduled(st));
  }

  lemma ScheduledDone(st: TeamState, x: Id)
    requires x in st.tasks
    ensures x in Scheduled(st) <==> x in st.registered
    ensures x in Scheduled(st) ==> (DepsDone(Scheduled(st), x) <==> DoneIn(st, st.tasks[x].deps))
  {
  }

  // ---------- runs ----------

  predicate Careful(st: TeamState, op: TeamOp) {
    match op
    case Update(id, text, _) =>
      !(id in st.tasks && id in st.registered && StatusOf(text) == Blocked && DoneIn(st, st.tasks[id].deps))
    case _ => true
  }

  ghost predicate AllCareful(codec: Codec, start: Live, ops: seq<TeamOp>) {
    ops == [] ||
    (AllCareful(codec, start, ops[..|ops| - 1]) &&
     Careful(RunTeam(codec, start, ops[..|ops| - 1]).st, ops[|ops| - 1]))
  }

  ghost predicate AlwaysSound(codec: Codec, start: Live, ops: seq<TeamOp>) {
    SoundTeam(RunTeam(codec, start, ops).st) && (ops == [] || AlwaysSound(codec, start, ops[..|ops| - 1]))
  }

  lemma {:induction false} SoundAt(codec: Codec, start: Live, ops: seq<TeamOp>, p: nat)
    requires AlwaysSound(codec, start, ops) && p <= |ops|
    ensures SoundTeam(RunTeam(codec, start, ops[..p]).st)
    decreases |ops|
  {
    if p == |ops| {
      assert ops[..p] == ops;
    } else {
      assert ops[..|ops| - 1][..p] == ops[..p];
      SoundAt(codec, start, ops[..|ops| - 1], p);
    }
  }

  lemma EmptyIsSound(workers: int)
    ensures SoundTeam(EMPTY_TEAM.(workers := workers))
  {
    OrderedMeansAcyclic(DepsOf(Scheduled(EMPTY_TEAM.(workers := workers))), []);
  }

  /** What is replayed from a surviving prefix is a state the team was in before. */
  lemma ReopenedIsSound(codec: Codec, name: string, workers: int, ts: int, ops: seq<TeamOp>, cut: nat)
    requires AllReplayable(codec, NewTeam(name, workers, ts), ops)
    requires AlwaysSound(codec, NewTeam(name, workers, ts), ops)
    ensures SoundTeam(Reopened(codec, RunTeam(codec, NewTeam(name, workers, ts), ops), cut).st)
  {
    var start := NewTeam(name, workers, ts);
    var log := RunTeam(codec, start, ops).log;
    var kept := log[..Survivors(codec, log, cut)];
    if kept == [] {
      EmptyIsSound(0);
    } else {
      EveryPrefixWasLog(codec, start, ops, |kept|);
      var p :| 0 <= p <= |ops| && RunTeam(codec, start, ops[..p]).log == kept;
      StartInStep(name, workers, ts);
      ReplayEqualsLiveExactly(codec, start, ops);
      InStepAt(codec, start, ops, p);
      SoundAt(codec, start, ops, p);
    }
  }

  lemma StepStaysSoundExactly(codec: Codec, l: Live, op: TeamOp)
    requires SoundTeam(l.st) && !op.Reopen?
    ensures SoundTeam(Step(codec, l, op).st) <==> Careful(l.st, op)
  {
    match op
    case Create(id, deps, owner, createdAt, _) => CreateStaysSound(l.st, id, deps, owner, createdAt);
    case Update(id, text, _) =>
      if id in l.st.tasks {
        UpdateStaysSoundExactly(l.st, id, StatusOf(text));
      }
    case _ =>
  }

  /** Over every replayable run, crashes included: the graph stays acyclic and no wakeup is
      lost at any point if and only if nobody blocks a task that waits for nothing. */
  lemma {:induction false} TeamSoundExactly(codec: Codec, name: string, workers: int, ts: int, ops: seq<TeamOp>)
    requires AllReplayable(codec, NewTeam(name, workers, ts), ops)
    ensures AlwaysSound(codec, NewTeam(name, workers, ts), ops) <==> AllCareful(codec, NewTeam(name, workers, ts), ops)
  {
    if ops == [] {
      EmptyIsSound(workers);
    } else {
      var start, front := NewTeam(name, workers, ts), ops[..|ops| - 1];
      TeamSoundExactly(codec, name, workers, ts, front);
      if AlwaysSound(codec, start, front) {
        match ops[|ops| - 1]
        case Reopen(cut) => ReopenedIsSound(codec, name, workers, ts, front, cut);
        case _ => StepStaysSoundExactly(codec, RunTeam(codec, start, front), ops[|ops| - 1]);
      }
    }
  }

  /** Then nothing deadlocks: when no task can run, every blocked one is held up by one that
      stopped or was never added. */
  lemma TeamNeverDeadlocks(codec: Codec, name: string, workers: int, ts: int, ops: seq<TeamOp>)
    requires AllReplayable(codec, NewTeam(name, workers, ts), ops)
    requires AllCareful(codec, NewTeam(name, workers, ts), ops)
    requires forall id :: !Runnable(Scheduled(RunTeam(codec, NewTeam(name, workers, ts), ops).st), id)
    ensures var s := Scheduled(RunTeam(codec, NewTeam(name, workers, ts), ops).st);
      forall b :: HasStatus(s, b, Blocked) ==> HeldUp(s, b)
  {
    TeamSoundExactly(codec, name, workers, ts, ops);
    NoDeadlock(Scheduled(RunTeam(codec, NewTeam(name, workers, ts), ops).st));
  }
}
