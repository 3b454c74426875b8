/** A team's task registry, its journal, and replay: what the live operations do, what
    replaying the journal does, and when the two agree. */
module TeamSpec {
  import opened Wrappers
  import opened Graph
  import opened SchedulerSpec
  import opened Transport
  import opened Journaling

  // ---------- status text ----------

  function StatusOf(text: string): Status {
    if text == "pending" then Pending
    else if text == "blocked" then Blocked
    else if text == "running" then Running
    else if text == "completed" then Completed
    else if text == "failed" then Failed
    else Unknown(text)
  }

  /** Replay turns any text it does not know into pending. */
  function StatusFromJournal(text: string): Status {
    var status := StatusOf(text);
    if status.Unknown? then Pending else status
  }

  // ---------- registry ----------

  datatype TaskRec = TaskRec(status: Status, deps: seq<Id>, owner: string, createdAt: int)

  /** `tasks` is the team's registry; `registered` are the ids the scheduler also holds. */
  datatype TeamState = TeamState(workers: int, tasks: map<Id, TaskRec>, registered: set<Id>)

  const EMPTY_TEAM := TeamState(0, map[], {})

  /** The scheduler's view: the two share their task objects. */
  function Scheduled(st: TeamState): Tasks {
    map id | id in st.tasks && id in st.registered :: Node(st.tasks[id].status, st.tasks[id].deps)
  }

  function Overlay(tasks: map<Id, TaskRec>, s: Tasks): map<Id, TaskRec> {
    map id | id in tasks :: if id in s then tasks[id].(status := s[id].status) else tasks[id]
  }

  ghost predicate Accepted(st: TeamState, id: Id, deps: seq<Id>) {
    !Cyclic(DepsOf(Scheduled(st)[id := Node(Blocked, deps)]))
  }

  ghost function AfterCreate(st: TeamState, id: Id, deps: seq<Id>, owner: string, createdAt: int): TeamState {
    var s := AfterAdd(Scheduled(st), id, deps);
    if id in s then
      st.(tasks := st.tasks[id := TaskRec(s[id].status, deps, owner, createdAt)], registered := st.registered + {id})
    else
      st.(registered := st.registered - {id})
  }

  function AfterUpdate(st: TeamState, id: Id, status: Status): TeamState {
    if id !in st.tasks then st
    else
      var written := st.(tasks := st.tasks[id := st.tasks[id].(status := status)]);
      match status
      case Completed => written.(tasks := Overlay(written.tasks, AfterComplete(Scheduled(written), id)))
      case Failed => written.(tasks := Overlay(written.tasks, AfterFail(Scheduled(written), id)))
      case _ => written
  }

  // ---------- replay ----------

  ghost function ReplayOne(st: TeamState, env: Envelope): TeamState {
    match env.kind
    case TeamCreate =>
      if env.payload.TeamInfo? then st.(workers := env.payload.workers) else st
    case TaskCreate =>
      if env.payload.NewTask? then ReplayCreate(st, env.payload) else st
    case TaskUpdate =>
      if env.payload.NewStatus? then
        AfterUpdate(st, env.payload.task, StatusFromJournal(env.payload.text))
      else st
    case _ => st
  }

  /** Replay keeps the task even when the scheduler rejects it. */
  ghost function ReplayCreate(st: TeamState, p: Payload): TeamState
    requires p.NewTask?
  {
    var s := AfterAdd(Scheduled(st), p.id, p.dependsOn);
    var status := if p.id in s then s[p.id].status else Pending;
    TeamState(st.workers,
              st.tasks[p.id := TaskRec(status, p.dependsOn, p.owner, p.createdAt)],
              if p.id in s then st.registered + {p.id} else st.registered - {p.id})
  }

  ghost function Replay(envs: seq<Envelope>): TeamState {
    if envs == [] then EMPTY_TEAM else ReplayOne(Replay(envs[..|envs| - 1]), envs[|envs| - 1])
  }

  function MaxSeq(envs: seq<Envelope>): nat {
    if envs == [] then 0
    else
      var m := MaxSeq(envs[..|envs| - 1]);
      if envs[|envs| - 1].seqNo > m then envs[|envs| - 1].seqNo else m
  }

  // ---------- live operation, one at a time ----------

  datatype TeamOp =
    | Create(id: Id, deps: seq<Id>, owner: string, createdAt: int, ts: int)
    | Update(id: Id, text: string, ts: int)
    | Send(to: string, payload: Payload, ts: int)
    | Down(worker: string, payload: Payload, ts: int)
    | Stall(payload: Payload, ts: int)
    | Reopen(cut: nat)

  /** A team in memory, together with the envelopes its journal holds. */
  datatype Live = Live(name: string, st: TeamState, next: nat, log: seq<Envelope>)

  function NewTeam(name: string, workers: int, ts: int): Live {
    Live(name, EMPTY_TEAM.(workers := workers), 1,
         [Envelope(ENVELOPE_VERSION, 0, name, name, TeamCreate, TeamInfo(workers), ts)])
  }

  function Logged(l: Live, from: string, to: string, kind: Kind, payload: Payload, ts: int): Live {
    l.(next := l.next + 1, log := l.log + [Envelope(ENVELOPE_VERSION, l.next, from, to, kind, payload, ts)])
  }

  /** The process dies with `cut` bytes of its journal on disk, and the team is opened again. */
  ghost function Reopened(codec: Codec, l: Live, cut: nat): Live {
    var log := l.log[..Survivors(codec, l.log, cut)];
    Live(l.name, Replay(log), MaxSeq(log) + 1, log)
  }

  ghost function Step(codec: Codec, l: Live, op: TeamOp): Live {
    match op
    case Create(id, deps, owner, createdAt, ts) =>
      var st := AfterCreate(l.st, id, deps, owner, createdAt);
      if Accepted(l.st, id, deps) then
        Logged(l.(st := st), l.name, l.name, TaskCreate, NewTask(id, deps, owner, createdAt), ts)
      else l.(st := st)
    case Update(id, text, ts) =>
      if id in l.st.tasks then
        Logged(l.(st := AfterUpdate(l.st, id, StatusOf(text))), l.name, l.name, TaskUpdate, NewStatus(id, text), ts)
      else l
    case Send(to, payload, ts) => Logged(l, l.name, to, Message, payload, ts)
    case Down(worker, payload, ts) => Logged(l, worker, l.name, AgentDown, payload, ts)
    case Stall(payload, ts) => Logged(l, l.name, l.name, Stalled, payload, ts)
    case Reopen(cut) => Reopened(codec, l, cut)
  }

  ghost function RunTeam(codec: Codec, start: Live, ops: seq<TeamOp>): Live {
    if ops == [] then start else Step(codec, RunTeam(codec, start, ops[..|ops| - 1]), ops[|ops| - 1])
  }

  // ---------- replay equals live ----------

  /** What a caller has to avoid: rejected re-creation of a task the scheduler holds, and
      writing a status text outside the five known ones. */
  ghost predicate Replayable(st: TeamState, op: TeamOp) {
    match op
    case Create(id, deps, _, _, _) => id in st.registered ==> Accepted(st, id, deps)
    case Update(id, text, _) => id in st.tasks ==> !StatusOf(text).Unknown?
    case _ => true
  }

  ghost predicate InStep(l: Live) {
    Replay(l.log) == l.st
  }

  lemma RejectedExactlyWhenGone(st: TeamState, id: Id, deps: seq<Id>)
    ensures id in AfterAdd(Scheduled(st), id, deps) <==> Accepted(st, id, deps)
  {
  }

  /** One operation keeps replay in step with the live state exactly when it is replayable. */
  lemma StepStaysInStep(codec: Codec, l: Live, op: TeamOp)
    requires InStep(l)
    ensures InStep(Step(codec, l, op)) <==> Replayable(l.st, op)
  {
    match op {
      case Create(id, deps, owner, createdAt, ts) => CreateStaysInStep(codec, l, id, deps, owner, createdAt, ts);
      case Update(id, text, ts) => UpdateStaysInStep(codec, l, id, text, ts);
      case Send(to, payload, ts) => LoggedStaysInStep(l, l.name, to, Message, payload, ts);
      case Down(worker, payload, ts) => LoggedStaysInStep(l, worker, l.name, AgentDown, payload, ts);
      case Stall(payload, ts) => LoggedStaysInStep(l, l.name, l.name, Stalled, payload, ts);
      case Reopen(_) =>
    }
  }

  /** An appended envelope is replayed after all the others. */
  lemma LoggedReplays(l: Live, from: string, to: string, kind: Kind, payload: Payload, ts: int)
    ensures var env := Envelope(ENVELOPE_VERSION, l.next, from, to, kind, payload, ts);
      Replay(Logged(l, from, to, kind, payload, ts).log) == ReplayOne(Replay(l.log), env)
  {
    var log := Logged(l, from, to, kind, payload, ts).log;
    assert log[..|log| - 1] == l.log;
  }

  lemma LoggedStaysInStep(l: Live, from: string, to: string, kind: Kind, payload: Payload, ts: int)
    requires InStep(l) && (kind.Message? || kind.AgentDown? || kind.Stalled?)
    ensures InStep(Logged(l, from, to, kind, payload, ts))
  {
    LoggedReplays(l, from, to, kind, payload, ts);
  }

  lemma CreateStaysInStep(codec: Codec, l: Live, id: Id, deps: seq<Id>, owner: string, createdAt: int, ts: int)
    requires InStep(l)
    ensures var op := Create(id, deps, owner, createdAt, ts);
      InStep(Step(codec, l, op)) <==> Replayable(l.st, op)
  {
    CreateReplays(l.st, id, deps, owner, createdAt);
    var st := AfterCreate(l.st, id, deps, owner, createdAt);
    LoggedReplays(l.(st := st), l.name, l.name, TaskCreate, NewTask(id, deps, owner, createdAt), ts);
  }

  lemma UpdateStaysInStep(codec: Codec, l: Live, id: Id, text: string, ts: int)
    requires InStep(l)
    ensures InStep(Step(codec, l, Update(id, text, ts))) <==> Replayable(l.st, Update(id, text, ts))
  {
    if id in l.st.tasks {
      UpdateReplays(l.st, id, text);
      var st := AfterUpdate(l.st, id, StatusOf(text));
      LoggedReplays(l.(st := st), l.name, l.name, TaskUpdate, NewStatus(id, text), ts);
    }
  }

  /** Replaying an accepted creation does what it did live; a rejected one has no line and
      is harmless exactly when the scheduler did not hold the id. */
  lemma CreateReplays(st: TeamState, id: Id, deps: seq<Id>, owner: string, createdAt: int)
    ensures Accepted(st, id, deps) ==>
      ReplayCreate(st, NewTask(id, deps, owner, createdAt)) == AfterCreate(st, id, deps, owner, createdAt)
    ensures !Accepted(st, id, deps) ==> (AfterCreate(st, id, deps, owner, createdAt) == st <==> id !in st.registered)
  {
    RejectedExactlyWhenGone(st, id, deps);
  }

  lemma UpdateReplays(st: TeamState, id: Id, text: string)
    requires id in st.tasks
    ensures AfterUpdate(st, id, StatusFromJournal(text)) == AfterUpdate(st, id, StatusOf(text)) <==>
      !StatusOf(text).Unknown?
  {
    if StatusOf(text).Unknown? {
      assert AfterUpdate(st, id, Pending).tasks[id].status == Pending;
      assert AfterUpdate(st, id, StatusOf(text)).tasks[id].status == StatusOf(text);
    }
  }

  /** Replay agrees with the live team at every point of a run. */
  ghost predicate AlwaysInStep(codec: Codec, start: Live, ops: seq<TeamOp>) {
    InStep(RunTeam(codec, start, ops)) && (ops == [] || AlwaysInStep(codec, start, ops[..|ops| - 1]))
  }

  /** Every operation of a run is replayable where it is made. */
  ghost predicate AllReplayable(codec: Codec, start: Live, ops: seq<TeamOp>) {
    ops == [] ||
    (AllReplayable(codec, start, ops[..|ops| - 1]) &&
     Replayable(RunTeam(codec, start, ops[..|ops| - 1]).st, ops[|ops| - 1]))
  }

  /** The exact condition for recovery. */
  lemma {:induction false} ReplayEqualsLiveExactly(codec: Codec, start: Live, ops: seq<TeamOp>)
    requires InStep(start)
    ensures AlwaysInStep(codec, start, ops) <==> AllReplayable(codec, start, ops)
  {
    if ops != [] {
      var front := ops[..|ops| - 1];
      ReplayEqualsLiveExactly(codec, start, front);
      if AlwaysInStep(codec, start, front) {
        StepStaysInStep(codec, RunTeam(codec, start, front), ops[|ops| - 1]);
      }
    }
  }

  lemma {:induction false} InStepAt(codec: Codec, start: Live, ops: seq<TeamOp>, p: nat)
    requires AlwaysInStep(codec, start, ops) && p <= |ops|
    ensures InStep(RunTeam(codec, start, ops[..p]))
    decreases |ops|
  {
    if p == |ops| {
      assert ops[..p] == ops;
    } else {
      var front := ops[..|ops| - 1];
      assert front[..p] == ops[..p];
      InStepAt(codec, start, front, p);
    }
  }

  lemma StartInStep(name: string, workers: int, ts: int)
    ensures InStep(NewTeam(name, workers, ts))
  {
    var log := NewTeam(name, workers, ts).log;
    assert log[..0] == [];
  }

  /** A status text outside the five known ones is kept live and becomes pending on replay. */
  lemma UnknownTextDiverges(codec: Codec, l: Live, id: Id, text: string, ts: int)
    requires InStep(l) && id in l.st.tasks && StatusOf(text).Unknown?
    ensures var l' := Step(codec, l, Update(id, text, ts));
      l'.st.tasks[id].status == Unknown(text) && Replay(l'.log).tasks[id].status == Pending
  {
    var l' := Step(codec, l, Update(id, text, ts));
    assert l'.log[..|l'.log| - 1] == l.log;
  }

  // ---------- sequence numbers of one-at-a-time runs ----------

  ghost predicate SeqOrdered(l: Live) {
    && Current(l.log)
    && (forall i, j :: 0 <= i < j < |l.log| ==> l.log[i].seqNo < l.log[j].seqNo)
    && forall i :: 0 <= i < |l.log| ==> l.log[i].seqNo < l.next
  }

  lemma {:induction false} MaxSeqBounds(envs: seq<Envelope>)
    ensures forall i :: 0 <= i < |envs| ==> envs[i].seqNo <= MaxSeq(envs)
    ensures MaxSeq(envs) == 0 || exists i :: 0 <= i < |envs| && envs[i].seqNo == MaxSeq(envs)
  {
    if envs != [] {
      MaxSeqBounds(envs[..|envs| - 1]);
    }
  }

  /** However often the team crashes and is reopened, the journal's sequence numbers are
      strictly increasing and the next one exceeds them all. */
  lemma {:induction false} SeqsStrictlyIncrease(codec: Codec, start: Live, ops: seq<TeamOp>)
    requires SeqOrdered(start)
    ensures SeqOrdered(RunTeam(codec, start, ops))
  {
    if ops != [] {
      var front := ops[..|ops| - 1];
      SeqsStrictlyIncrease(codec, start, front);
      var l := RunTeam(codec, start, front);
      match ops[|ops| - 1] {
        case Reopen(cut) => MaxSeqBounds(l.log[..Survivors(codec, l.log, cut)]);
        case _ =>
      }
    }
  }

  // ---------- crash-prefix recovery ----------

  /** The journal had exactly this content at some point of the run. */
  ghost predicate WasLog(codec: Codec, start: Live, ops: seq<TeamOp>, log: seq<Envelope>) {
    exists p :: 0 <= p <= |ops| && RunTeam(codec, start, ops[..p]).log == log
  }

  lemma WasLogLater(codec: Codec, start: Live, ops: seq<TeamOp>, log: seq<Envelope>)
    requires ops != [] && WasLog(codec, start, ops[..|ops| - 1], log)
    ensures WasLog(codec, start, ops, log)
  {
    var front := ops[..|ops| - 1];
    var p :| 0 <= p <= |front| && RunTeam(codec, start, front[..p]).log == log;
    assert front[..p] == ops[..p];
  }

  /** Every nonempty prefix of the journal is what it was at some earlier point, also across
      crashes that shortened it. */
  lemma {:induction false} EveryPrefixWasLog(codec: Codec, start: Live, ops: seq<TeamOp>, j: nat)
    requires |start.log| == 1
    requires 1 <= j <= |RunTeam(codec, start, ops).log|
    ensures WasLog(codec, start, ops, RunTeam(codec, start, ops).log[..j])
    decreases |ops|
  {
    var log := RunTeam(codec, start, ops).log;
    if j == |log| {
      assert ops[..|ops|] == ops && log[..j] == log;
    } else {
      var front := ops[..|ops| - 1];
      var before := RunTeam(codec, start, front).log;
      assert log[..j] == before[..j];
      EveryPrefixWasLog(codec, start, front, j);
      WasLogLater(codec, start, ops, log[..j]);
    }
  }

  /** A crash left the first `cut` bytes of the team's journal. */
  predicate CrashBytes(codec: Codec, l: Live, cut: nat, data: seq<Byte>) {
    && codec.FaithfulTo(l.log) && Current(l.log)
    && cut <= |codec.EncodeAll(l.log)| && data == codec.EncodeAll(l.log)[..cut]
  }

  /** Opening the bytes a crash left behind is the reopening step of the model. */
  lemma ReopenedFromBytes(codec: Codec, l: Live, cut: nat)
    requires codec.FaithfulTo(l.log) && Current(l.log) && cut <= |codec.EncodeAll(l.log)|
    ensures
      var data, l' := Recovered(codec.EncodeAll(l.log)[..cut]), Step(codec, l, Reopen(cut));
      && data == codec.EncodeAll(l'.log)
      && codec.ReadAll(data) == Ok(l'.log)
      && l'.st == Replay(l'.log) && l'.next == MaxSeq(l'.log) + 1
  {
    RecoverAnyCut(codec, l.log, cut);
    ReadBack(codec, l.log[..Survivors(codec, l.log, cut)]);
  }

  /** Cut the journal of any replayable run at any byte: torn-tail recovery and reading give
      the envelopes whose lines are complete, and replaying them gives exactly the tasks,
      dependencies, statuses and scheduler state the live team had when its journal held
      those envelopes, statuses set only by unblocking included. */
  lemma CrashPrefixRecovery(codec: Codec, name: string, workers: int, ts: int, ops: seq<TeamOp>, cut: nat)
    requires codec.FaithfulTo(RunTeam(codec, NewTeam(name, workers, ts), ops).log)
    requires AllReplayable(codec, NewTeam(name, workers, ts), ops)
    requires cut <= |codec.EncodeAll(RunTeam(codec, NewTeam(name, workers, ts), ops).log)|
    ensures
      var start := NewTeam(name, workers, ts);
      var log := RunTeam(codec, start, ops).log;
      var kept := log[..Survivors(codec, log, cut)];
      && codec.ReadAll(Recovered(codec.EncodeAll(log)[..cut])) == Ok(kept)
      && (forall p :: 0 <= p <= |ops| && RunTeam(codec, start, ops[..p]).log == kept ==>
            Replay(kept) == RunTeam(codec, start, ops[..p]).st)
      && (if kept == [] then Replay(kept) == EMPTY_TEAM else WasLog(codec, start, ops, kept))
  {
    var start := NewTeam(name, workers, ts);
    var log := RunTeam(codec, start, ops).log;
    var kept := log[..Survivors(codec, log, cut)];
    SeqsStrictlyIncrease(codec, start, ops);
    RecoverAnyCut(codec, log, cut);
    ReadBack(codec, kept);
    StartInStep(name, workers, ts);
    ReplayEqualsLiveExactly(codec, start, ops);
    forall p | 0 <= p <= |ops| && RunTeam(codec, start, ops[..p]).log == kept
      ensures Replay(kept) == RunTeam(codec, start, ops[..p]).st
    {
      InStepAt(codec, start, ops, p);
    }
    if kept != [] {
      EveryPrefixWasLog(codec, start, ops, |kept|);
    }
  }
}
