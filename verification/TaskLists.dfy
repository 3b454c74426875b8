/** What a caller sees of recovery: the task list. An operation after which replay and the
    live team differ is noticed in the list, at once or after two more operations. */
module TaskLists {
  import opened Graph
  import opened SchedulerSpec
  import opened Transport
  import opened TeamSpec
  import opened Interleaving

  /** The live task list is the one a reopened team would show. */
  ghost predicate ListRecovers(l: Live) {
    Replay(l.log).tasks == l.st.tasks
  }

  /** However a caller goes on, avoiding what is known to break replay, the lists agree. */
  ghost predicate ListsAgreeFrom(codec: Codec, l: Live) {
    forall ops :: AllReplayable(codec, l, ops) ==> ListRecovers(RunTeam(codec, l, ops))
  }

  // ---------- replayed states ----------

  /** Scheduled tasks are listed, and their dependencies form no cycle. */
  ghost predicate WellFormed(st: TeamState) {
    st.registered <= st.tasks.Keys && !Cyclic(DepsOf(Scheduled(st)))
  }

  lemma {:induction false} ReplayIsWellFormed(envs: seq<Envelope>)
    ensures WellFormed(Replay(envs))
  {
    if envs == [] {
      OrderedMeansAcyclic(DepsOf(Scheduled(EMPTY_TEAM)), []);
    } else {
      ReplayIsWellFormed(envs[..|envs| - 1]);
      ReplayOneKeepsWellFormed(Replay(envs[..|envs| - 1]), envs[|envs| - 1]);
    }
  }

  lemma ReplayOneKeepsWellFormed(st: TeamState, env: Envelope)
    requires WellFormed(st)
    ensures WellFormed(ReplayOne(st, env))
  {
    if env.kind.TaskCreate? && env.payload.NewTask? {
      ReplayCreateKeepsWellFormed(st, env.payload);
    } else if env.kind.TaskUpdate? && env.payload.NewStatus? {
      UpdateKeepsGraph(st, env.payload.task, StatusFromJournal(env.payload.text));
    } else {
      assert Scheduled(ReplayOne(st, env)) == Scheduled(st);
    }
  }

  lemma ReplayCreateKeepsWellFormed(st: TeamState, p: Payload)
    requires WellFormed(st) && p.NewTask?
    ensures WellFormed(ReplayCreate(st, p))
  {
    AddKeepsAcyclic(Scheduled(st), p.id, p.dependsOn);
    assert Scheduled(ReplayCreate(st, p)) == AfterAdd(Scheduled(st), p.id, p.dependsOn);
  }

  // ---------- a task that nobody knows yet ----------

  predicate Unknown(st: TeamState, c: Id) {
    c !in st.tasks && forall x :: x in st.tasks ==> c !in st.tasks[x].deps
  }

  lemma {:induction false} LongerName(ids: set<Id>) returns (n: nat)
    ensures forall id :: id in ids ==> |id.name| < n
  {
    if ids == {} {
      return 0;
    }
    var id :| id in ids;
    var m := LongerName(ids - {id});
    n := if |id.name| < m then m else |id.name| + 1;
    assert forall x :: x in ids ==> x == id || x in ids - {id};
  }

  lemma SomeUnknown(st: TeamState) returns (c: Id)
    ensures Unknown(st, c)
  {
    var ids := st.tasks.Keys + set x, d | x in st.tasks && d in st.tasks[x].deps :: d;
    var n := LongerName(ids);
    c := Id(seq(n, _ => 'x'));
    assert c !in ids;
    forall x | x in st.tasks ensures c !in st.tasks[x].deps {
      assert forall d :: d in st.tasks[x].deps ==> d in ids;
    }
  }

  /** Nothing waits for an unknown task, so it cannot close a cycle. */
  lemma UnknownIsAccepted(st: TeamState, c: Id, b: Id)
    requires !Cyclic(DepsOf(Scheduled(st))) && Unknown(st, c) && b != c
    ensures Accepted(st, c, [b])
  {
    var g, h := DepsOf(Scheduled(st)), DepsOf(Scheduled(st)[c := Node(Blocked, [b])]);
    assert forall x, d :: Edge(h, x, d) && x != c ==> Edge(g, x, d);
    forall p | Cycle(h, p) ensures false {
      CycleAvoids(g, h, c, p);
    }
  }

  lemma CycleAvoids(g: Deps, h: Deps, c: Id, p: seq<Id>)
    requires Cycle(h, p) && forall x :: !Edge(h, x, c)
    requires forall x, d :: Edge(h, x, d) && x != c ==> Edge(g, x, d)
    ensures Cycle(g, p)
  {
    forall i | 0 <= i < |p| - 1 ensures Edge(g, p[i], p[i + 1]) {
      assert Edge(h, p[i], p[i + 1]);
      if i > 0 {
        assert Edge(h, p[i - 1], p[i]);
      } else {
        assert Edge(h, p[|p| - 2], p[|p| - 1]);
      }
    }
  }

  // ---------- telling the two apart ----------

  /** Completing a task and creating one that waits for it shows whether the scheduler held
      the completed one. */
  lemma DependentShowsRegistration(st: TeamState, b: Id, c: Id, owner: string, at: int)
    requires b in st.tasks && b != c && !Cyclic(DepsOf(Scheduled(st))) && Unknown(st, c)
    ensures var st' := AfterCreate(AfterUpdate(st, b, Completed), c, [b], owner, at);
      c in st'.tasks && st'.tasks[c].status == (if b in st.registered then Pending else Blocked)
    ensures Accepted(AfterUpdate(st, b, Completed), c, [b])
  {
    var done := AfterUpdate(st, b, Completed);
    UpdateKeepsGraph(st, b, Completed);
    UnknownIsAccepted(st, c, b);
    SameGraphSameVerdict(st, done, c, [b]);
    CreatedState(done, c, [b], owner, at);
    CompletedShows(st, b);
  }

  lemma CompletedShows(st: TeamState, b: Id)
    requires b in st.tasks
    ensures DoneIn(AfterUpdate(st, b, Completed), [b]) <==> b in st.registered
  {
    UpdateIsWrite(st, b, Completed);
    StartingCompletesNothing(Written(st, b, Completed), [b]);
  }

  lemma CreationStep(codec: Codec, l: Live, id: Id, deps: seq<Id>, owner: string, at: int, ts: int)
    requires Accepted(l.st, id, deps) && Accepted(Replay(l.log), id, deps)
    ensures var l' := Step(codec, l, Create(id, deps, owner, at, ts));
      && l'.st == AfterCreate(l.st, id, deps, owner, at)
      && Replay(l'.log) == AfterCreate(Replay(l.log), id, deps, owner, at)
  {
    CreateReplays(Replay(l.log), id, deps, owner, at);
    var st := AfterCreate(l.st, id, deps, owner, at);
    LoggedReplays(l.(st := st), l.name, l.name, TaskCreate, NewTask(id, deps, owner, at), ts);
  }

  /** When the two differ in whether b is scheduled, two more operations show it. */
  lemma RegistrationShows(codec: Codec, l: Live, b: Id)
    requires WellFormed(l.st) && WellFormed(Replay(l.log)) && l.st.tasks == Replay(l.log).tasks
    requires b in l.st.tasks && b !in l.st.registered && b in Replay(l.log).registered
    ensures !ListsAgreeFrom(codec, l)
  {
    var c := SomeUnknown(l.st);
    var complete, create := Update(b, "completed", 0), Create(c, [b], "", 0, 0);
    CompletionStep(codec, l, b, 0);
    PairIsReplayable(l.st, b, c);
    TwoReplayable(codec, l, complete, create);
    ListsDiffer(codec, l, b, c);
    assert !ListRecovers(RunTeam(codec, l, [complete] + [create]));
  }

  lemma PairIsReplayable(st: TeamState, b: Id, c: Id)
    requires st.registered <= st.tasks.Keys && c !in st.tasks
    ensures Replayable(st, Update(b, "completed", 0))
    ensures Replayable(AfterUpdate(st, b, Completed), Create(c, [b], "", 0, 0))
  {
    CompletedText();
    UpdateKeepsGraph(st, b, Completed);
  }

  lemma TwoReplayable(codec: Codec, l: Live, one: TeamOp, two: TeamOp)
    requires Replayable(l.st, one) && Replayable(Step(codec, l, one).st, two)
    ensures AllReplayable(codec, l, [one] + [two])
    ensures RunTeam(codec, l, [one] + [two]) == Step(codec, Step(codec, l, one), two)
  {
    RunOneMore(codec, l, [], one);
    RunOneMore(codec, l, [one], two);
    assert [] + [one] == [one] && ([one] + [two])[..1] == [one] && [one][..0] == [];
    assert AllReplayable(codec, l, [one]);
  }

  lemma ListsDiffer(codec: Codec, l: Live, b: Id, c: Id)
    requires WellFormed(l.st) && WellFormed(Replay(l.log)) && l.st.tasks == Replay(l.log).tasks
    requires b in l.st.tasks && b !in l.st.registered && b in Replay(l.log).registered && Unknown(l.st, c)
    ensures !ListRecovers(Step(codec, Step(codec, l, Update(b, "completed", 0)), Create(c, [b], "", 0, 0)))
  {
    CompletionStep(codec, l, b, 0);
    DependentShowsRegistration(l.st, b, c, "", 0);
    DependentShowsRegistration(Replay(l.log), b, c, "", 0);
    CreationStep(codec, Step(codec, l, Update(b, "completed", 0)), c, [b], "", 0, 0);
  }

  lemma RejectionShows(codec: Codec, l: Live, id: Id, deps: seq<Id>, owner: string, at: int, ts: int)
    requires InStep(l) && id in l.st.registered && !Accepted(l.st, id, deps)
    ensures !ListsAgreeFrom(codec, Step(codec, l, Create(id, deps, owner, at, ts)))
  {
    var l' := Step(codec, l, Create(id, deps, owner, at, ts));
    ReplayIsWellFormed(l.log);
    RejectedExactlyWhenGone(l.st, id, deps);
    assert l'.st == l.st.(registered := l.st.registered - {id}) && l'.log == l.log;
    assert Scheduled(l'.st) == Scheduled(l.st) - {id};
    FewerEdgesStayAcyclic(DepsOf(Scheduled(l.st)), DepsOf(Scheduled(l'.st)));
    RegistrationShows(codec, l', id);
  }

  lemma UnknownTextShows(codec: Codec, l: Live, id: Id, text: string, ts: int)
    requires InStep(l) && id in l.st.tasks && StatusOf(text).Unknown?
    ensures !ListsAgreeFrom(codec, Step(codec, l, Update(id, text, ts)))
  {
    var l' := Step(codec, l, Update(id, text, ts));
    UnknownTextDiverges(codec, l, id, text, ts);
    assert AllReplayable(codec, l', []) && RunTeam(codec, l', []) == l';
  }

  /** The exact condition for the task list: from a state in step with its journal, an operation
      keeps the lists equal however the caller goes on if and only if it is replayable. */
  lemma TaskListRecoversExactly(codec: Codec, l: Live, op: TeamOp)
    requires InStep(l)
    ensures ListsAgreeFrom(codec, Step(codec, l, op)) <==> Replayable(l.st, op)
  {
    var l' := Step(codec, l, op);
    if Replayable(l.st, op) {
      StepStaysInStep(codec, l, op);
      forall ops | AllReplayable(codec, l', ops) ensures ListRecovers(RunTeam(codec, l', ops)) {
        ReplayEqualsLiveExactly(codec, l', ops);
      }
    } else {
      match op
      case Create(id, deps, owner, at, ts) => RejectionShows(codec, l, id, deps, owner, at, ts);
      case Update(id, text, ts) => UnknownTextShows(codec, l, id, text, ts);
    }
  }
}
