/** Where replay and the live team part: creations that overlap with updates, and rejected
    re-creations, followed to the task statuses a caller can see. */
module Interleaving {
  import opened Graph
  import opened SchedulerSpec
  import opened Scheduling
  import opened Transport
  import opened TeamSpec

  // ---------- a creation beside an update ----------

  predicate DoneIn(st: TeamState, deps: seq<Id>) {
    forall d :: d in deps ==> d in st.tasks && d in st.registered && st.tasks[d].status == Completed
  }

  function WithTask(st: TeamState, id: Id, rec: TaskRec): TeamState {
    st.(tasks := st.tasks[id := rec], registered := st.registered + {id})
  }

  function Initial(done: bool): Status {
    if done then Pending else Blocked
  }

  lemma CreatedState(st: TeamState, id: Id, deps: seq<Id>, owner: string, at: int)
    requires id !in st.tasks && Accepted(st, id, deps)
    ensures id !in deps
    ensures AfterCreate(st, id, deps, owner, at) ==
      WithTask(st, id, TaskRec(Initial(DoneIn(st, deps)), deps, owner, at))
  {
    var added := Scheduled(st)[id := Node(Blocked, deps)];
    NoSelfDependency(DepsOf(added), id);
    assert DepsDone(added, id) <==> DoneIn(st, deps);
  }

  lemma UpdateKeepsGraph(st: TeamState, x: Id, status: Status)
    ensures var st' := AfterUpdate(st, x, status);
      && st'.tasks.Keys == st.tasks.Keys && st'.registered == st.registered && st'.workers == st.workers
      && DepsOf(Scheduled(st')) == DepsOf(Scheduled(st))
  {
    if x in st.tasks {
      UpdateIsWrite(st, x, status);
      WriteKeepsGraph(st, x, status);
      RestartKeepsGraph(Written(st, x, status));
    }
  }

  lemma WriteKeepsGraph(st: TeamState, x: Id, status: Status)
    requires x in st.tasks
    ensures DepsOf(Scheduled(Written(st, x, status))) == DepsOf(Scheduled(st))
  {
  }

  lemma RestartKeepsGraph(st: TeamState)
    ensures Restarted(st).tasks.Keys == st.tasks.Keys
    ensures DepsOf(Scheduled(Restarted(st))) == DepsOf(Scheduled(st))
  {
  }

  lemma SameGraphSameVerdict(st: TeamState, st': TeamState, id: Id, deps: seq<Id>)
    requires DepsOf(Scheduled(st)) == DepsOf(Scheduled(st'))
    ensures Accepted(st, id, deps) <==> Accepted(st', id, deps)
  {
    var s, s' := Scheduled(st), Scheduled(st');
    assert DepsOf(s'[id := Node(Blocked, deps)]) == DepsOf(s')[id := deps];
    assert DepsOf(s[id := Node(Blocked, deps)]) == DepsOf(s)[id := deps];
  }

  /** A task that is not completed makes no other task ready. */
  lemma ReadyBeside(s: Tasks, id: Id, status: Status, deps: seq<Id>)
    requires id !in s && id !in deps && status != Completed
    ensures forall k :: k != id ==> (k in Ready(s[id := Node(status, deps)]) <==> k in Ready(s))
    ensures id in Ready(s[id := Node(status, deps)]) <==>
      status == Blocked && forall d :: d in deps ==> HasStatus(s, d, Completed)
  {
    var s' := s[id := Node(status, deps)];
    forall k | k in s ensures DepsDone(s', k) == DepsDone(s, k) {
      assert forall d :: HasStatus(s', d, Completed) <==> HasStatus(s, d, Completed);
      SameCompletedSameWait(s, s', k);
    }
    assert forall d :: d in deps ==> (HasStatus(s', d, Completed) <==> HasStatus(s, d, Completed));
  }

  function Written(st: TeamState, x: Id, status: Status): TeamState
    requires x in st.tasks
  {
    st.(tasks := st.tasks[x := st.tasks[x].(status := status)])
  }

  function Restarted(st: TeamState): TeamState {
    st.(tasks := Overlay(st.tasks, StartReady(Scheduled(st))))
  }

  /** What an update amounts to: a write, and for a completion the start of what is ready. */
  lemma UpdateIsWrite(st: TeamState, x: Id, status: Status)
    requires x in st.tasks
    ensures AfterUpdate(st, x, status) ==
      if status == Completed then Restarted(Written(st, x, status)) else Written(st, x, status)
  {
    var w := Written(st, x, status);
    var s := Scheduled(w);
    if status == Completed {
      assert WithStatus(s, x, Completed) == s;
    } else if status == Failed {
      assert WithStatus(s, x, Failed) == s;
      assert Overlay(w.tasks, s) == w.tasks;
    }
  }

  lemma StartingCompletesNothing(st: TeamState, deps: seq<Id>)
    ensures DoneIn(Restarted(st), deps) <==> DoneIn(st, deps)
    ensures DoneIn(st, deps) <==> forall d :: d in deps ==> HasStatus(Scheduled(st), d, Completed)
  {
    forall d | d in st.tasks ensures Restarted(st).tasks[d].status == Completed <==> st.tasks[d].status == Completed {
    }
  }

  /** Where an update leaves a task that was created before it. */
  function Settled(status: Status, update: Status, done: bool): Status {
    if update == Completed && status == Blocked && done then Running else status
  }

  lemma UpdateBeside(st: TeamState, x: Id, update: Status, id: Id, rec: TaskRec)
    requires id !in st.tasks && x in st.tasks && id !in rec.deps && rec.status != Completed
    ensures
      var after := AfterUpdate(st, x, update);
      AfterUpdate(WithTask(st, id, rec), x, update) ==
        WithTask(after, id, rec.(status := Settled(rec.status, update, DoneIn(after, rec.deps))))
  {
    UpdateIsWrite(st, x, update);
    UpdateIsWrite(WithTask(st, id, rec), x, update);
    WriteBeside(st, x, update, id, rec);
    if update == Completed {
      StartingBeside(Written(st, x, update), id, rec);
    }
  }

  lemma WriteBeside(st: TeamState, x: Id, update: Status, id: Id, rec: TaskRec)
    requires id !in st.tasks && x in st.tasks
    ensures Written(WithTask(st, id, rec), x, update) == WithTask(Written(st, x, update), id, rec)
  {
  }

  lemma StartingBeside(st: TeamState, id: Id, rec: TaskRec)
    requires id !in st.tasks && id !in rec.deps && rec.status != Completed
    ensures Restarted(WithTask(st, id, rec)) ==
      WithTask(Restarted(st), id, rec.(status := Settled(rec.status, Completed, DoneIn(Restarted(st), rec.deps))))
  {
    var w := WithTask(st, id, rec);
    NewTaskSettles(st, id, rec);
    forall k | k in st.tasks ensures k in Restarted(w).tasks && Restarted(w).tasks[k] == Restarted(st).tasks[k] {
      OthersAreSettled(st, id, rec, k);
    }
    assert Restarted(w).tasks == Restarted(st).tasks[id := Restarted(w).tasks[id]];
  }

  lemma NewTaskSettles(st: TeamState, id: Id, rec: TaskRec)
    requires id !in st.tasks && id !in rec.deps && rec.status != Completed
    ensures var w := WithTask(st, id, rec);
      && id in Restarted(w).tasks
      && Restarted(w).tasks[id] == rec.(status := Settled(rec.status, Completed, DoneIn(Restarted(st), rec.deps)))
  {
    var s, w := Scheduled(st), WithTask(st, id, rec);
    assert Scheduled(w) == s[id := Node(rec.status, rec.deps)];
    ReadyBeside(s, id, rec.status, rec.deps);
    StartingCompletesNothing(st, rec.deps);
  }

  lemma OthersAreSettled(st: TeamState, id: Id, rec: TaskRec, k: Id)
    requires id !in st.tasks && id !in rec.deps && rec.status != Completed && k in st.tasks
    ensures var w := WithTask(st, id, rec);
      k in Restarted(w).tasks && Restarted(w).tasks[k] == Restarted(st).tasks[k]
  {
    var s, w := Scheduled(st), WithTask(st, id, rec);
    assert Scheduled(w) == s[id := Node(rec.status, rec.deps)];
    ReadyBeside(s, id, rec.status, rec.deps);
  }

  /** A creation and an update of another task can change places exactly when the update does
      not change whether the new task's dependencies are all completed. */
  lemma CreateCommutesExactly(st: TeamState, id: Id, deps: seq<Id>, owner: string, at: int, x: Id, update: Status)
    requires id !in st.tasks && x in st.tasks && Accepted(st, id, deps)
    ensures
      AfterUpdate(AfterCreate(st, id, deps, owner, at), x, update) ==
        AfterCreate(AfterUpdate(st, x, update), id, deps, owner, at) <==>
      (DoneIn(st, deps) <==> DoneIn(AfterUpdate(st, x, update), deps))
  {
    var after := AfterUpdate(st, x, update);
    var rec := TaskRec(Initial(DoneIn(st, deps)), deps, owner, at);
    UpdateKeepsGraph(st, x, update);
    SameGraphSameVerdict(st, after, id, deps);
    CreatedState(st, id, deps, owner, at);
    CreatedState(after, id, deps, owner, at);
    UpdateBeside(st, x, update, id, rec);
    assert WithTask(after, id, rec.(status := Settled(rec.status, update, DoneIn(after, deps)))).tasks[id].status ==
      Settled(rec.status, update, DoneIn(after, deps));
  }

  /** A creation whose scheduler step comes before an update and whose line comes after it. */
  ghost function Interleaved(
    l: Live, id: Id, deps: seq<Id>, owner: string, at: int, x: Id, text: string, ts: int): Live
  {
    var st := AfterUpdate(AfterCreate(l.st, id, deps, owner, at), x, StatusOf(text));
    var updated := Logged(l.(st := st), l.name, l.name, TaskUpdate, NewStatus(x, text), ts);
    Logged(updated, l.name, l.name, TaskCreate, NewTask(id, deps, owner, at), ts)
  }

  /** Replaying the journal of such a pair gives the live team exactly when the text is known
      and the update does not change whether the new task's dependencies are completed. */
  lemma InterleavedReplaysExactly(
    l: Live, id: Id, deps: seq<Id>, owner: string, at: int, x: Id, text: string, ts: int)
    requires InStep(l) && id !in l.st.tasks && x in l.st.tasks && Accepted(l.st, id, deps)
    ensures InStep(Interleaved(l, id, deps, owner, at, x, text, ts)) <==>
      && !StatusOf(text).Unknown?
      && (DoneIn(l.st, deps) <==> DoneIn(AfterUpdate(l.st, x, StatusOf(text)), deps))
  {
    var l' := Interleaved(l, id, deps, owner, at, x, text, ts);
    ReplayOfInterleaved(l, id, deps, owner, at, x, text, ts);
    if StatusOf(text).Unknown? {
      UpdateIsWrite(l.st, x, Pending);
      UpdateIsWrite(AfterCreate(l.st, id, deps, owner, at), x, StatusOf(text));
      CreatedState(l.st, id, deps, owner, at);
      assert l'.st.tasks[x].status == StatusOf(text);
      assert AfterUpdate(l.st, x, Pending).tasks[x].status == Pending;
    } else {
      CreateCommutesExactly(l.st, id, deps, owner, at, x, StatusOf(text));
    }
  }

  lemma ReplayOfInterleaved(
    l: Live, id: Id, deps: seq<Id>, owner: string, at: int, x: Id, text: string, ts: int)
    requires InStep(l) && id !in l.st.tasks && x in l.st.tasks && Accepted(l.st, id, deps)
    ensures Replay(Interleaved(l, id, deps, owner, at, x, text, ts).log) ==
      AfterCreate(AfterUpdate(l.st, x, StatusFromJournal(text)), id, deps, owner, at)
  {
    var log := Interleaved(l, id, deps, owner, at, x, text, ts).log;
    var n := |l.log|;
    assert log[..n + 1][..n] == l.log && log[..|log| - 1] == log[..n + 1];
    var updated := AfterUpdate(l.st, x, StatusFromJournal(text));
    assert Replay(log[..n + 1]) == updated;
    UpdateKeepsGraph(l.st, x, StatusFromJournal(text));
    SameGraphSameVerdict(l.st, updated, id, deps);
    CreateReplays(updated, id, deps, owner, at);
  }

  // ---------- runs in which a caller sees the difference ----------

  lemma RunOneMore(codec: Codec, start: Live, ops: seq<TeamOp>, op: TeamOp)
    ensures RunTeam(codec, start, ops + [op]) == Step(codec, RunTeam(codec, start, ops), op)
  {
    assert (ops + [op])[..|ops|] == ops;
  }

  function OneTask(workers: int, a: Id, ts: int): TeamState {
    TeamState(workers, map[a := TaskRec(Pending, [], "", ts)], {a})
  }

  lemma FirstTask(codec: Codec, name: string, workers: int, ts: int, a: Id)
    ensures var l := RunTeam(codec, NewTeam(name, workers, ts), [Create(a, [], "", ts, ts)]);
      InStep(l) && l.st == OneTask(workers, a, ts)
  {
    var start := NewTeam(name, workers, ts);
    StartInStep(name, workers, ts);
    var g := DepsOf(Scheduled(start.st)[a := Node(Blocked, [])]);
    OrderedMeansAcyclic(g, [a]);
    StepStaysInStep(codec, start, Create(a, [], "", ts, ts));
    CreatedState(start.st, a, [], "", ts);
    RunOneMore(codec, start, [], Create(a, [], "", ts, ts));
    assert [] + [Create(a, [], "", ts, ts)] == [Create(a, [], "", ts, ts)];
  }

  lemma DependentIsAccepted(workers: int, ts: int, a: Id, b: Id)
    requires a != b
    ensures Accepted(OneTask(workers, a, ts), b, [a])
  {
    var g := DepsOf(Scheduled(OneTask(workers, a, ts))[b := Node(Blocked, [a])]);
    assert g == map[a := [], b := [a]];
    assert forall x, d :: Edge(g, x, d) ==> x == b && d == a;
    assert [a, b][..1] == [a];
    OrderedMeansAcyclic(g, [a, b]);
  }

  /** If a dependency completes between a creation's scheduler step and its journal line, the
      new task runs in the live team and is pending after replay. */
  lemma InterleavedRunDiverges(codec: Codec, name: string, workers: int, ts: int, a: Id, b: Id)
    requires a != b
    ensures
      var l := RunTeam(codec, NewTeam(name, workers, ts), [Create(a, [], "", ts, ts)]);
      var l' := Interleaved(l, b, [a], "", ts, a, "completed", ts);
      var replayed := Replay(l'.log);
      && b in l'.st.tasks && l'.st.tasks[b].status == Running
      && b in replayed.tasks && replayed.tasks[b].status == Pending
  {
    var l := RunTeam(codec, NewTeam(name, workers, ts), [Create(a, [], "", ts, ts)]);
    FirstTask(codec, name, workers, ts, a);
    DependentIsAccepted(workers, ts, a, b);
    CompletionMakesDone(l.st, a);
    OvertakenReplay(l, b, [a], "", ts, a, ts);
  }

  lemma CompletedText()
    ensures StatusOf("completed") == Completed && StatusFromJournal("completed") == Completed
  {
  }

  lemma OvertakenReplay(l: Live, id: Id, deps: seq<Id>, owner: string, at: int, x: Id, ts: int)
    requires InStep(l) && id !in l.st.tasks && x in l.st.tasks && Accepted(l.st, id, deps)
    requires !DoneIn(l.st, deps) && DoneIn(AfterUpdate(l.st, x, Completed), deps)
    ensures
      var l' := Interleaved(l, id, deps, owner, at, x, "completed", ts);
      var replayed := Replay(l'.log);
      && id in l'.st.tasks && l'.st.tasks[id].status == Running
      && id in replayed.tasks && replayed.tasks[id].status == Pending
  {
    CompletedText();
    ReplayOfInterleaved(l, id, deps, owner, at, x, "completed", ts);
    Overtaken(l.st, id, deps, owner, at, x);
  }

  lemma CompletionMakesDone(st: TeamState, x: Id)
    requires x in st.tasks && x in st.registered && st.tasks[x].status != Completed
    ensures !DoneIn(st, [x]) && DoneIn(AfterUpdate(st, x, Completed), [x])
  {
    UpdateIsWrite(st, x, Completed);
    StartingCompletesNothing(Written(st, x, Completed), [x]);
  }

  /** A completion that overtakes a creation and completes its dependencies. */
  lemma Overtaken(st: TeamState, id: Id, deps: seq<Id>, owner: string, at: int, x: Id)
    requires id !in st.tasks && x in st.tasks && Accepted(st, id, deps)
    requires !DoneIn(st, deps) && DoneIn(AfterUpdate(st, x, Completed), deps)
    ensures var live := AfterUpdate(AfterCreate(st, id, deps, owner, at), x, Completed);
      id in live.tasks && live.tasks[id].status == Running
    ensures var replayed := AfterCreate(AfterUpdate(st, x, Completed), id, deps, owner, at);
      id in replayed.tasks && replayed.tasks[id].status == Pending
  {
    UpdateKeepsGraph(st, x, Completed);
    SameGraphSameVerdict(st, AfterUpdate(st, x, Completed), id, deps);
    CreatedState(st, id, deps, owner, at);
    CreatedState(AfterUpdate(st, x, Completed), id, deps, owner, at);
    UpdateBeside(st, x, Completed, id, TaskRec(Blocked, deps, owner, at));
  }

  function TwoTasks(workers: int, a: Id, b: Id, ts: int): TeamState {
    WithTask(OneTask(workers, a, ts), b, TaskRec(Blocked, [a], "", ts))
  }

  lemma SecondTask(codec: Codec, name: string, workers: int, ts: int, a: Id, b: Id)
    requires a != b
    ensures
      var ops := [Create(a, [], "", ts, ts), Create(b, [a], "", ts, ts)];
      var l := RunTeam(codec, NewTeam(name, workers, ts), ops);
      InStep(l) && l.st == TwoTasks(workers, a, b, ts)
  {
    var first, second := Create(a, [], "", ts, ts), Create(b, [a], "", ts, ts);
    var start := NewTeam(name, workers, ts);
    FirstTask(codec, name, workers, ts, a);
    RunOneMore(codec, start, [first], second);
    assert [first] + [second] == [first, second];
    DependentIsAccepted(workers, ts, a, b);
    StepStaysInStep(codec, RunTeam(codec, start, [first]), second);
    CreatedState(OneTask(workers, a, ts), b, [a], "", ts);
    assert !DoneIn(OneTask(workers, a, ts), [a]);
  }

  lemma SelfDependencyIsRejected(st: TeamState, id: Id)
    ensures !Accepted(st, id, [id])
  {
    var g := DepsOf(Scheduled(st)[id := Node(Blocked, [id])]);
    assert Edge(g, id, id);
    assert Cycle(g, [id, id]);
  }

  /** A waiting task re-created with a dependency on itself is rejected and vanishes from the
      live scheduler without a journal line: completing what it waited for leaves it blocked,
      while replay starts it. */
  lemma RejectedReAddDiverges(codec: Codec, name: string, workers: int, ts: int, a: Id, b: Id)
    requires a != b
    ensures
      var ops := [Create(a, [], "", ts, ts), Create(b, [a], "", ts, ts)] +
                 [Create(b, [b], "", ts, ts)] + [Update(a, "completed", ts)];
      var l := RunTeam(codec, NewTeam(name, workers, ts), ops);
      var replayed := Replay(l.log);
      && b in l.st.tasks && l.st.tasks[b].status == Blocked
      && b in replayed.tasks && replayed.tasks[b].status == Running
  {
    var start := NewTeam(name, workers, ts);
    var two := [Create(a, [], "", ts, ts), Create(b, [a], "", ts, ts)];
    var again, done := Create(b, [b], "", ts, ts), Update(a, "completed", ts);
    SecondTask(codec, name, workers, ts, a, b);
    RunOneMore(codec, start, two, again);
    RunOneMore(codec, start, two + [again], done);
    ReAddThenComplete(codec, RunTeam(codec, start, two), workers, ts, a, b);
  }

  lemma ReAddThenComplete(codec: Codec, l: Live, workers: int, ts: int, a: Id, b: Id)
    requires a != b && InStep(l) && l.st == TwoTasks(workers, a, b, ts)
    ensures
      var l' := Step(codec, Step(codec, l, Create(b, [b], "", ts, ts)), Update(a, "completed", ts));
      var replayed := Replay(l'.log);
      && b in l'.st.tasks && l'.st.tasks[b].status == Blocked
      && b in replayed.tasks && replayed.tasks[b].status == Running
  {
    RejectedStep(codec, l, b, ts);
    var rejected := Step(codec, l, Create(b, [b], "", ts, ts));
    assert rejected.st == TwoTasks(workers, a, b, ts).(registered := {a});
    CompletionStep(codec, rejected, a, ts);
    LeftBehind(workers, a, b, ts);
    StartedByCompletion(workers, a, b, ts);
  }

  lemma CompletionStep(codec: Codec, l: Live, a: Id, ts: int)
    requires a in l.st.tasks
    ensures var l' := Step(codec, l, Update(a, "completed", ts));
      && l'.st == AfterUpdate(l.st, a, Completed)
      && Replay(l'.log) == AfterUpdate(Replay(l.log), a, Completed)
  {
    CompletedText();
    var live := l.(st := AfterUpdate(l.st, a, Completed));
    LoggedReplays(live, l.name, l.name, TaskUpdate, NewStatus(a, "completed"), ts);
  }

  lemma RejectedStep(codec: Codec, l: Live, id: Id, ts: int)
    ensures Step(codec, l, Create(id, [id], "", ts, ts)) == l.(st := l.st.(registered := l.st.registered - {id}))
  {
    SelfDependencyIsRejected(l.st, id);
    RejectedExactlyWhenGone(l.st, id, [id]);
  }

  lemma LeftBehind(workers: int, a: Id, b: Id, ts: int)
    requires a != b
    ensures var st := AfterUpdate(TwoTasks(workers, a, b, ts).(registered := {a}), a, Completed);
      b in st.tasks && st.tasks[b].status == Blocked
  {
    var st := TwoTasks(workers, a, b, ts).(registered := {a});
    UpdateIsWrite(st, a, Completed);
    assert b !in Scheduled(Written(st, a, Completed));
  }

  lemma StartedByCompletion(workers: int, a: Id, b: Id, ts: int)
    requires a != b
    ensures var st := AfterUpdate(TwoTasks(workers, a, b, ts), a, Completed);
      b in st.tasks && st.tasks[b].status == Running
  {
    var st := TwoTasks(workers, a, b, ts);
    UpdateIsWrite(st, a, Completed);
    assert b in Ready(Scheduled(Written(st, a, Completed)));
  }
}
