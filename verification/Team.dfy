/** The team object: task creation and update, messages, worker panics, and opening a team
    from the bytes of its journal. The registry and the scheduler share task objects. Every
    method is tied to its function in TeamSpec. */
module Teams {
  import opened Wrappers
  import opened Graph
  import opened SchedulerSpec
  import opened Scheduling
  import opened Transport
  import opened Journaling
  import opened TeamSpec
  import opened Effects

  const MAILBOX_CAP: nat := 256

  datatype Mail = Mail(seqNo: nat, from: string, to: string, kind: string, payload: Payload, ts: int)

  datatype SendError = MailboxFull

  type Mailboxes = map<string, seq<Mail>>

  /** Some listed task belongs to the worker. */
  ghost predicate Owns(st: TeamState, worker: string) {
    worker != "" && exists k :: k in st.tasks && st.tasks[k].owner == worker
  }

  lemma CreateOutcome(st: TeamState, id: Id, deps: seq<Id>, owner: string, createdAt: int, ok: bool, status: Status)
    requires ok <==> Accepted(st, id, deps)
    requires ok ==> status == AfterAdd(Scheduled(st), id, deps)[id].status
    ensures AfterCreate(st, id, deps, owner, createdAt) ==
      TeamState(st.workers, if ok then st.tasks[id := TaskRec(status, deps, owner, createdAt)] else st.tasks,
                if ok then st.registered + {id} else st.registered - {id})
  {
  }

  lemma ReplayOutcome(st: TeamState, p: Payload, ok: bool, status: Status)
    requires p.NewTask?
    requires ok <==> Accepted(st, p.id, p.dependsOn)
    requires status == if ok then AfterAdd(Scheduled(st), p.id, p.dependsOn)[p.id].status else Pending
    ensures ReplayCreate(st, p) ==
      TeamState(st.workers, st.tasks[p.id := TaskRec(status, p.dependsOn, p.owner, p.createdAt)],
                if ok then st.registered + {p.id} else st.registered - {p.id})
  {
  }

  lemma FailedText()
    ensures StatusOf("failed") == Failed
  {
  }

  class Team {
    const id: string
    var workers: int
    var seqNo: nat
    const journal: Journal
    var tasks: map<Id, Task>
    var mailboxes: Mailboxes
    const scheduler: Scheduler
    ghost var view: TeamState  // the registry as values

    ghost predicate Valid()
      reads this, scheduler, tasks.Values
    {
      && scheduler.Valid()
      && scheduler.tasks.Keys <= tasks.Keys
      && (forall k :: k in scheduler.tasks ==> scheduler.tasks[k] == tasks[k])
      && view.workers == workers
      && view.registered == scheduler.tasks.Keys
      && view.tasks.Keys == tasks.Keys
      && forall k :: k in tasks ==> tasks[k].id == k && Shows(view.tasks[k], tasks[k])
    }

    static ghost predicate Shows(r: TaskRec, t: Task)
      reads t
    {
      r == TaskRec(t.status, t.dependsOn, t.owner, t.createdAt)
    }

    /** The object stands where the one-at-a-time model does, its journal file included. */
    ghost predicate Represents(l: Live)
      reads this, journal
    {
      && l.name == id && l.st == view && l.next == seqNo
      && journal.data == journal.codec.EncodeAll(l.log)
    }

    constructor (id: string, codec: Codec, data: seq<Byte>)
      ensures Valid() && fresh(journal) && fresh(scheduler)
      ensures this.id == id && seqNo == 0 && mailboxes == map[] && tasks == map[]
      ensures view == EMPTY_TEAM
      ensures journal.codec == codec && journal.data == Recovered(data)
    {
      this.id, workers, seqNo, tasks, mailboxes := id, 0, 0, map[], map[];
      journal := new Journal(codec, data);
      scheduler := new Scheduler();
      view := EMPTY_TEAM;
    }

    /** Takes the next sequence number and appends one envelope. */
    method Log(from: string, to: string, kind: Kind, payload: Payload, ts: int)
      requires Valid()
      modifies this`seqNo, journal
      ensures Valid()
      ensures seqNo == old(seqNo) + 1
      ensures journal.data == old(journal.data) +
          journal.codec.Line(Envelope(ENVELOPE_VERSION, old(seqNo), from, to, kind, payload, ts))
      ensures forall l :: old(Represents(l)) ==> Represents(Logged(l, from, to, kind, payload, ts))
    {
      var env := Envelope(ENVELOPE_VERSION, seqNo, from, to, kind, payload, ts);
      seqNo := seqNo + 1;
      journal.Append(env);
    }

    /** A new team announces itself with sequence number 0. */
    static method CreateTeam(id: string, workers: int, codec: Codec, data: seq<Byte>, ts: int) returns (t: Team)
      ensures fresh(t) && t.Valid() && t.id == id && t.mailboxes == map[]
      ensures t.view == EMPTY_TEAM.(workers := workers) && t.seqNo == 1
      ensures t.journal.data == Recovered(data) + codec.Line(
          Envelope(ENVELOPE_VERSION, 0, id, id, Kind.TeamCreate, TeamInfo(workers), ts))
      ensures Recovered(data) == [] ==> t.Represents(NewTeam(id, workers, ts))
    {
      t := new Team(id, codec, data);
      t.workers := workers;
      t.view := t.view.(workers := workers);
      t.Log(id, id, Kind.TeamCreate, TeamInfo(workers), ts);
    }

    method TaskCreate(task: Id, deps: seq<Id>, owner: string, createdAt: int, ts: int) returns (ok: bool)
      requires Valid()
      modifies this, journal, scheduler
      ensures Valid()
      ensures ok <==> Accepted(old(view), task, deps)
      ensures view == AfterCreate(old(view), task, deps, owner, createdAt)
      ensures mailboxes ==
        if ok && owner != "" && owner !in old(mailboxes) then old(mailboxes)[owner := []] else old(mailboxes)
      ensures seqNo == old(seqNo) + if ok then 1 else 0
      ensures journal.data == old(journal.data) + if ok then journal.codec.Line(
          Envelope(ENVELOPE_VERSION, old(seqNo), id, id, Kind.TaskCreate,
                   NewTask(task, deps, owner, createdAt), ts)) else []
      ensures forall l :: old(Represents(l)) ==>
        Represents(Step(journal.codec, l, Create(task, deps, owner, createdAt, ts)))
    {
      ok := Admit(task, deps, owner, createdAt);
      if !ok {
        return;
      }
      Log(id, id, Kind.TaskCreate, NewTask(task, deps, owner, createdAt), ts);
    }

    method Admit(task: Id, deps: seq<Id>, owner: string, createdAt: int) returns (ok: bool)
      requires Valid()
      modifies this`tasks, this`view, this`mailboxes, scheduler
      ensures Valid()
      ensures ok <==> Accepted(old(view), task, deps)
      ensures view == AfterCreate(old(view), task, deps, owner, createdAt)
      ensures mailboxes ==
        if ok && owner != "" && owner !in old(mailboxes) then old(mailboxes)[owner := []] else old(mailboxes)
      ensures forall l :: old(Represents(l)) ==> Represents(l.(st := AfterCreate(l.st, task, deps, owner, createdAt)))
    {
      ok := EnterNew(task, deps, owner, createdAt);
      if ok && owner != "" {
        EnsureMailbox(owner);
      }
    }

    method EnterNew(task: Id, deps: seq<Id>, owner: string, createdAt: int) returns (ok: bool)
      requires Valid()
      modifies this`tasks, this`view, scheduler
      ensures Valid()
      ensures ok <==> Accepted(old(view), task, deps)
      ensures view == AfterCreate(old(view), task, deps, owner, createdAt)
    {
      var t := new Task(task, deps, owner, createdAt, Unknown(""));
      ghost var before := view;
      ok := Enter(t, false);
      CreateOutcome(before, task, deps, owner, createdAt, ok, t.status);
    }

    method EnsureMailbox(worker: string)
      requires Valid()
      modifies this`mailboxes
      ensures Valid()
      ensures mailboxes == if worker in old(mailboxes) then old(mailboxes) else old(mailboxes)[worker := []]
    {
      if worker !in mailboxes {
        mailboxes := mailboxes[worker := []];
      }
    }

    /** Hands a task to the scheduler and, if accepted or replayed, to the registry. */
    method Enter(t: Task, replayed: bool) returns (ok: bool)
      requires Valid()
      requires t !in tasks.Values
      modifies this`tasks, this`view, scheduler, t
      ensures Valid()
      ensures tasks == if ok || replayed then old(tasks)[t.id := t] else old(tasks)
      ensures ok <==> Accepted(old(view), t.id, t.dependsOn)
      ensures ok ==> t.status == AfterAdd(Scheduled(old(view)), t.id, t.dependsOn)[t.id].status
      ensures !ok ==> t.status == old(t.status)
      ensures view == TeamState(
        workers,
        if ok || replayed then old(view).tasks[t.id := TaskRec(t.status, t.dependsOn, t.owner, t.createdAt)]
        else old(view).tasks,
        if ok then old(view).registered + {t.id} else old(view).registered - {t.id})
    {
      SharedState();
      ok := Offer(t);
      Enlist(t, ok || replayed);
    }

    /** The scheduler has decided about a task that the registry may not list yet. */
    ghost predicate Offered(t: Task)
      reads this, scheduler, tasks.Values
    {
      && scheduler.Valid()
      && scheduler.tasks.Keys <= tasks.Keys + {t.id}
      && (forall k :: k in scheduler.tasks ==> scheduler.tasks[k] == if k == t.id then t else tasks[k])
      && view.workers == workers
      && view.tasks.Keys == tasks.Keys
      && forall k :: k in tasks ==> tasks[k].id == k && Shows(view.tasks[k], tasks[k])
    }

    method Enlist(t: Task, keep: bool)
      requires Offered(t) && (t.id in scheduler.tasks ==> keep)
      modifies this`tasks, this`view
      ensures Valid()
      ensures tasks == if keep then old(tasks)[t.id := t] else old(tasks)
      ensures view == TeamState(
        workers,
        if keep then old(view).tasks[t.id := TaskRec(t.status, t.dependsOn, t.owner, t.createdAt)]
        else old(view).tasks,
        scheduler.tasks.Keys)
    {
      if keep {
        tasks := tasks[t.id := t];
      }
      view := TeamState(
        workers,
        if keep then view.tasks[t.id := TaskRec(t.status, t.dependsOn, t.owner, t.createdAt)] else view.tasks,
        scheduler.tasks.Keys);
    }

    method Offer(t: Task) returns (ok: bool)
      requires scheduler.Valid()
      modifies scheduler, t
      ensures scheduler.Valid()
      ensures ok <==> !Cyclic(DepsOf(old(scheduler.State())[t.id := Node(Blocked, t.dependsOn)]))
      ensures ok ==> t.status == AfterAdd(old(scheduler.State()), t.id, t.dependsOn)[t.id].status
      ensures !ok ==> t.status == old(t.status)
      ensures scheduler.tasks == if ok then old(scheduler.tasks)[t.id := t] else old(scheduler.tasks) - {t.id}
      ensures scheduler.tasks.Keys ==
        if ok then old(scheduler.tasks.Keys) + {t.id} else old(scheduler.tasks.Keys) - {t.id}
    {
      ok := scheduler.AddTask(t);
      assert ok ==> scheduler.State()[t.id].status == t.status;
    }

    /** Returns false for a task that is not in the registry. */
    method TaskUpdate(task: Id, text: string, ts: int) returns (found: bool)
      requires Valid()
      modifies this`seqNo, this`view, journal, tasks.Values
      ensures Valid() && tasks == old(tasks)
      ensures found <==> task in tasks
      ensures found && text == "pending" ==> tasks[task].status == Pending
      ensures found && text == "blocked" ==> tasks[task].status == Blocked
      ensures found && text == "running" ==> tasks[task].status == Running
      ensures found && text == "completed" ==> tasks[task].status == Completed
      ensures found && text == "failed" ==> tasks[task].status == Failed
      ensures found && text !in {"pending", "blocked", "running", "completed", "failed"} ==>
        tasks[task].status == Unknown(text)
      ensures view == AfterUpdate(old(view), task, StatusOf(text))
      ensures seqNo == old(seqNo) + if found then 1 else 0
      ensures journal.data == old(journal.data) + if found then journal.codec.Line(
          Envelope(ENVELOPE_VERSION, old(seqNo), id, id, Kind.TaskUpdate, NewStatus(task, text), ts)) else []
      ensures forall l :: old(Represents(l)) ==>
        Represents(Step(journal.codec, l, Update(task, text, ts)))
    {
      if task !in tasks {
        return false;
      }
      Log(id, id, Kind.TaskUpdate, NewStatus(task, text), ts);
      UpdateByText(view, task, text);
      SetStatus(task, StatusOf(text));
      assert Shows(view.tasks[task], tasks[task]);
      return true;
    }

    /** Writes a status and lets the scheduler evaluate the tasks downstream. */
    method SetStatus(task: Id, status: Status)
      requires Valid() && task in tasks
      modifies this`view, tasks.Values
      ensures Valid() && tasks == old(tasks)
      ensures view == AfterUpdate(old(view), task, status)
    {
      WriteStatus(task, status);
      match status {
        case Completed => Complete(task);
        case Failed => Fail(task);
        case _ =>
      }
    }

    method Complete(task: Id)
      requires Valid()
      modifies this`view, scheduler.tasks.Values
      ensures Valid() && tasks == old(tasks)
      ensures view == old(view).(tasks := Overlay(old(view).tasks, AfterComplete(Scheduled(old(view)), task)))
    {
      SharedState();
      UnregisteredApart();
      ghost var after := AfterComplete(scheduler.State(), task);
      var _ := scheduler.MarkComplete(task);
      Resync(after);
    }

    method Fail(task: Id)
      requires Valid()
      modifies this`view, scheduler.tasks.Values
      ensures Valid() && tasks == old(tasks)
      ensures view == old(view).(tasks := Overlay(old(view).tasks, AfterFail(Scheduled(old(view)), task)))
    {
      SharedState();
      UnregisteredApart();
      ghost var after := AfterFail(scheduler.State(), task);
      scheduler.MarkFailed(task);
      Resync(after);
    }

    /** Takes over the statuses the scheduler rewrote. */
    ghost method Resync(s: Tasks)
      requires scheduler.Valid() && scheduler.State() == s && scheduler.tasks.Keys <= tasks.Keys
      requires forall k :: k in scheduler.tasks ==> scheduler.tasks[k] == tasks[k]
      requires view.workers == workers && view.registered == scheduler.tasks.Keys
      requires view.tasks.Keys == tasks.Keys
      requires forall k :: k in tasks ==> tasks[k].id == k
      requires forall k :: k in tasks ==>
        Shows(if k in scheduler.tasks then view.tasks[k].(status := tasks[k].status) else view.tasks[k], tasks[k])
      modifies this`view
      ensures Valid()
      ensures view == old(view).(tasks := Overlay(old(view).tasks, s))
    {
      view := view.(tasks := Overlay(view.tasks, s));
    }

    /** An unregistered task's object is not one of the scheduler's. */
    lemma UnregisteredApart()
      requires Valid()
      ensures forall k :: k in tasks && k !in scheduler.tasks ==> tasks[k] !in scheduler.tasks.Values
    {
    }

    method WriteStatus(task: Id, status: Status)
      requires Valid() && task in tasks
      modifies this`view, tasks[task]
      ensures Valid() && tasks == old(tasks)
      ensures view == old(view).(tasks := old(view).tasks[task := old(view).tasks[task].(status := status)])
    {
      tasks[task].status := status;
      view := view.(tasks := view.tasks[task := view.tasks[task].(status := status)]);
    }

    // ---------- messages ----------

    /** Checks for room, journals, then pushes: a full mailbox leaves the journal alone. */
    method SendMessage(to: string, kind: string, payload: Payload, ts: int) returns (r: Option<SendError>)
      requires Valid()
      modifies this`seqNo, this`mailboxes, journal
      ensures Valid()
      ensures var queue := if to in old(mailboxes) then old(mailboxes)[to] else [];
        if |queue| >= 256 then
          && r == Some(MailboxFull) && mailboxes == old(mailboxes)
          && seqNo == old(seqNo) && journal.data == old(journal.data)
        else
          && r == None && seqNo == old(seqNo) + 1
          && mailboxes == old(mailboxes)[to := queue + [Mail(old(seqNo), id, to, kind, payload, ts)]]
          && journal.data == old(journal.data) + journal.codec.Line(
               Envelope(ENVELOPE_VERSION, old(seqNo), id, to, Kind.Message, payload, ts))
      ensures r == None ==> forall l :: old(Represents(l)) ==> Represents(Step(journal.codec, l, Send(to, payload, ts)))
      ensures r != None ==> forall l :: old(Represents(l)) ==> Represents(l)
    {
      EnsureMailbox(to);
      if |mailboxes[to]| >= MAILBOX_CAP {
        return Some(MailboxFull);
      }
      var mail := Mail(seqNo, id, to, kind, payload, ts);
      Log(id, to, Kind.Message, payload, ts);
      if |mailboxes[to]| < MAILBOX_CAP {
        mailboxes := mailboxes[to := mailboxes[to] + [mail]];
        return None;
      } else {
        return Some(MailboxFull);
      }
    }

    method PushToAll(targets: set<string>, mail: Mail)
      requires Valid() && targets <= mailboxes.Keys
      modifies this`mailboxes
      ensures Valid()
      ensures mailboxes.Keys == old(mailboxes).Keys
      ensures forall w :: w in mailboxes ==>
        mailboxes[w] ==
          if w in targets && |old(mailboxes)[w]| < 256 then old(mailboxes)[w] + [mail] else old(mailboxes)[w]
    {
      var rest := targets;
      while rest != {}
        invariant rest <= targets
        invariant mailboxes.Keys == old(mailboxes).Keys
        invariant forall w :: w in mailboxes ==>
          mailboxes[w] ==
            if w in targets && w !in rest && |old(mailboxes)[w]| < 256 then old(mailboxes)[w] + [mail]
            else old(mailboxes)[w]
        decreases rest
      {
        var worker :| worker in rest;
        rest := rest - {worker};
        if |mailboxes[worker]| < MAILBOX_CAP {
          mailboxes := mailboxes[worker := mailboxes[worker] + [mail]];
        }
      }
    }

    /** A worker panicked: its task fails, the journal records it, the others are told. */
    method RecoverPanic(worker: string, task: Id, payload: Payload, ts: int, ts': int)
      requires Valid()
      modifies this`seqNo, this`view, this`mailboxes, journal, tasks.Values
      ensures Valid() && tasks == old(tasks)
      ensures view == AfterUpdate(old(view), task, Failed)
      ensures seqNo == old(seqNo) + if task in tasks then 2 else 1
      ensures mailboxes.Keys == old(mailboxes).Keys
      ensures forall w :: w in mailboxes ==>
        mailboxes[w] ==
          if w != worker && |old(mailboxes)[w]| < 256 then
            old(mailboxes)[w] + [Mail(seqNo - 1, worker, "", "agent-down", payload, ts')]
          else old(mailboxes)[w]
      ensures journal.data == old(journal.data) +
          (if task in tasks then journal.codec.Line(
             Envelope(ENVELOPE_VERSION, old(seqNo), id, id, Kind.TaskUpdate, NewStatus(task, "failed"), ts)) else []) +
          journal.codec.Line(Envelope(ENVELOPE_VERSION, seqNo - 1, worker, id, Kind.AgentDown, payload, ts'))
      ensures forall l :: old(Represents(l)) ==>
        Represents(Step(journal.codec, Step(journal.codec, l, Update(task, "failed", ts)), Down(worker, payload, ts')))
    {
      FailTask(task, ts);
      AnnounceDown(worker, payload, ts');
    }

    method FailTask(task: Id, ts: int)
      requires Valid()
      modifies this`seqNo, this`view, journal, tasks.Values
      ensures Valid() && tasks == old(tasks)
      ensures view == AfterUpdate(old(view), task, Failed)
      ensures seqNo == old(seqNo) + if task in tasks then 1 else 0
      ensures journal.data == old(journal.data) + if task in tasks then journal.codec.Line(
          Envelope(ENVELOPE_VERSION, old(seqNo), id, id, Kind.TaskUpdate, NewStatus(task, "failed"), ts)) else []
      ensures forall l :: old(Represents(l)) ==> Represents(Step(journal.codec, l, Update(task, "failed", ts)))
    {
      FailedText();
      var _ := TaskUpdate(task, "failed", ts);
    }

    method AnnounceDown(worker: string, payload: Payload, ts: int)
      requires Valid()
      modifies this`seqNo, this`mailboxes, journal
      ensures Valid()
      ensures mailboxes.Keys == old(mailboxes).Keys
      ensures forall w :: w in mailboxes ==>
        mailboxes[w] ==
          if w != worker && |old(mailboxes)[w]| < 256 then
            old(mailboxes)[w] + [Mail(old(seqNo), worker, "", "agent-down", payload, ts)]
          else old(mailboxes)[w]
      ensures seqNo == old(seqNo) + 1
      ensures journal.data == old(journal.data) + journal.codec.Line(
          Envelope(ENVELOPE_VERSION, old(seqNo), worker, id, Kind.AgentDown, payload, ts))
      ensures forall l :: old(Represents(l)) ==> Represents(Step(journal.codec, l, Down(worker, payload, ts)))
    {
      var seqNo0 := seqNo;
      Log(worker, id, Kind.AgentDown, payload, ts);
      PushToAll(mailboxes.Keys - {worker}, Mail(seqNo0, worker, "", "agent-down", payload, ts));
    }

    /** The stall detector's event: journaled, then offered to every mailbox. */
    method AnnounceStall(payload: Payload, now: int)
      requires Valid()
      modifies this`seqNo, this`mailboxes, journal
      ensures Valid()
      ensures mailboxes.Keys == old(mailboxes).Keys
      ensures forall w :: w in mailboxes ==>
        mailboxes[w] ==
          if |old(mailboxes)[w]| < 256 then
            old(mailboxes)[w] + [Mail(old(seqNo), id, "", "team-event:stalled", payload, now)]
          else old(mailboxes)[w]
      ensures seqNo == old(seqNo) + 1
      ensures journal.data == old(journal.data) + journal.codec.Line(
          Envelope(ENVELOPE_VERSION, old(seqNo), id, id, Kind.Stalled, payload, now))
      ensures forall l :: old(Represents(l)) ==> Represents(Step(journal.codec, l, Stall(payload, now)))
    {
      var seqNo0 := seqNo;
      Log(id, id, Kind.Stalled, payload, now);
      PushToAll(mailboxes.Keys, Mail(seqNo0, id, "", "team-event:stalled", payload, now));
    }

    // ---------- opening ----------

    /** Re-attaches to the journal left behind by a crash. Bytes cut from the journal of a
        live team give the reopened team of the model. */
    static method Open(id: string, codec: Codec, data: seq<Byte>) returns (r: Result<Team, DecodeError>)
      ensures match codec.ReadAll(Recovered(data))
        case Err(e) => r == Err(e)
        case Ok(envs) => r.Ok? && fresh(r.value) && r.value.Reopened(id, codec, Recovered(data), envs)
      ensures forall l, cut :: CrashBytes(codec, l, cut, data) && l.name == id ==>
        r.Ok? && r.value.Represents(Step(codec, l, Reopen(cut)))
    {
      r := OpenBytes(id, codec, data);
      forall l, cut | CrashBytes(codec, l, cut, data) && l.name == id
        ensures r.Ok? && r.value.Represents(Step(codec, l, Reopen(cut)))
      {
        ReopenedFromBytes(codec, l, cut);
      }
    }

    ghost predicate Reopened(id: string, codec: Codec, data: seq<Byte>, envs: seq<Envelope>)
      reads this, journal, scheduler, tasks.Values
    {
      && Valid()
      && this.id == id && journal.codec == codec && journal.data == data
      && view == Replay(envs)
      && seqNo == MaxSeq(envs) + 1
      && (forall k :: k in view.tasks && view.tasks[k].owner != "" ==> view.tasks[k].owner in mailboxes)
      && (forall w :: w in mailboxes ==> mailboxes[w] == [] && Owns(view, w))
    }

    static method OpenBytes(id: string, codec: Codec, data: seq<Byte>) returns (r: Result<Team, DecodeError>)
      ensures match codec.ReadAll(Recovered(data))
        case Err(e) => r == Err(e)
        case Ok(envs) => r.Ok? && fresh(r.value) && r.value.Reopened(id, codec, Recovered(data), envs)
    {
      var t := new Team(id, codec, data);
      var read := t.journal.Read();
      if read.Err? {
        return Err(read.error);
      }
      var maxSeq := t.ReplayAll(read.value);
      t.seqNo := maxSeq + 1;
      t.AddOwnerMailboxes();
      OwnersAre(t.view);
      return Ok(t);
    }

    /** The replay loop, which also finds the highest sequence number. */
    method ReplayAll(envs: seq<Envelope>) returns (maxSeq: nat)
      requires Valid() && view == EMPTY_TEAM
      modifies this`tasks, this`workers, this`view, scheduler, tasks.Values
      ensures Valid() && view == Replay(envs) && maxSeq == MaxSeq(envs)
    {
      maxSeq := 0;
      for i := 0 to |envs|
        invariant Valid() && fresh(tasks.Values - old(tasks.Values))
        invariant view == Replay(envs[..i]) && maxSeq == MaxSeq(envs[..i])
      {
        assert envs[..i + 1][..i] == envs[..i];
        if envs[i].seqNo > maxSeq {
          maxSeq := envs[i].seqNo;
        }
        ReplayEnvelope(envs[i]);
      }
      assert envs[..|envs|] == envs;
    }

    method ReplayEnvelope(env: Envelope)
      requires Valid()
      modifies this`tasks, this`workers, this`view, scheduler, tasks.Values
      ensures Valid() && fresh(tasks.Values - old(tasks.Values))
      ensures view == ReplayOne(old(view), env)
    {
      match env.kind {
        case TeamCreate =>
          if env.payload.TeamInfo? {
            workers := env.payload.workers;
            view := view.(workers := workers);
          }
        case TaskCreate =>
          if env.payload.NewTask? {
            ReplayTask(env.payload);
          }
        case TaskUpdate =>
          if env.payload.NewStatus? && env.payload.task in tasks {
            SetStatus(env.payload.task, StatusFromJournal(env.payload.text));
          }
        case _ =>
      }
    }

    method ReplayTask(p: Payload)
      requires Valid() && p.NewTask?
      modifies this`tasks, this`view, scheduler
      ensures Valid() && fresh(tasks.Values - old(tasks.Values))
      ensures view == ReplayCreate(old(view), p)
    {
      var t := new Task(p.id, p.dependsOn, p.owner, p.createdAt, Pending);
      ghost var before := view;
      var ok := Enter(t, true);
      ReplayOutcome(before, p, ok, t.status);
    }

    /** Mailboxes start empty, one per owner of these tasks. */
    static function OwnersOf(st: TeamState, ids: set<Id>): Mailboxes {
      map k | k in ids && k in st.tasks && st.tasks[k].owner != "" :: st.tasks[k].owner := []
    }

    static function Owners(st: TeamState): Mailboxes {
      OwnersOf(st, st.tasks.Keys)
    }

    static lemma OwnersAre(st: TeamState)
      ensures forall k :: k in st.tasks && st.tasks[k].owner != "" ==> st.tasks[k].owner in Owners(st)
      ensures forall w :: w in Owners(st) ==> Owners(st)[w] == [] && Owns(st, w)
    {
    }

    static lemma OneMoreOwner(st: TeamState, ids: set<Id>, k: Id)
      requires k in st.tasks
      ensures OwnersOf(st, ids + {k}) ==
        if st.tasks[k].owner != "" then OwnersOf(st, ids)[st.tasks[k].owner := []] else OwnersOf(st, ids)
    {
    }

    method AddOwnerMailboxes()
      requires Valid() && mailboxes == map[]
      modifies this`mailboxes
      ensures Valid() && mailboxes == Owners(view)
    {
      var rest := tasks.Keys;
      ghost var done: set<Id> := {};
      while rest != {}
        invariant rest <= tasks.Keys && done + rest == tasks.Keys
        invariant Valid() && mailboxes == OwnersOf(view, done)
        decreases rest
      {
        var k :| k in rest;
        AddOwnerMailbox(k, done);
        done := done + {k};
        rest := rest - {k};
      }
    }

    method AddOwnerMailbox(k: Id, ghost done: set<Id>)
      requires Valid() && k in tasks && mailboxes == OwnersOf(view, done)
      modifies this`mailboxes
      ensures Valid() && mailboxes == OwnersOf(view, done + {k})
    {
      OneMoreOwner(view, done, k);
      var owner := tasks[k].owner;
      if owner != "" && owner !in mailboxes {
        mailboxes := mailboxes[owner := []];
      }
    }

    /** The scheduler sees the registered part of the registry. */
    lemma SharedState()
      requires Valid()
      ensures scheduler.State() == Scheduled(view)
    {
      forall k | k in scheduler.tasks ensures Shows(view.tasks[k], tasks[k]) {
      }
    }
  }
}
