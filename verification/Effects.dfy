/** What scheduler and team operations do to the tasks, said in status texts, statuses and
    dependencies alone. */
module Effects {
  import opened Graph
  import opened SchedulerSpec
  import opened Scheduling
  import opened Transport
  import opened TeamSpec
  import opened Interleaving
  import opened TeamProgress

  // ---------- the scheduler ----------

  /** An accepted task is pending if all its dependencies are completed and blocked otherwise; a
      rejected id is gone; nothing else changes. */
  lemma AddByDependencies(s: Tasks, id: Id, deps: seq<Id>)
    ensures var s' := AfterAdd(s, id, deps);
      if Cyclic(DepsOf(s)[id := deps]) then s' == s - {id}
      else if forall d :: d in deps ==> d in s && s[d].status == Completed then s' == s[id := Node(Pending, deps)]
      else s' == s[id := Node(Blocked, deps)]
  {
    var added := s[id := Node(Blocked, deps)];
    assert DepsOf(added) == DepsOf(s)[id := deps];
    if !Cyclic(DepsOf(added)) {
      NoSelfDependency(DepsOf(added), id);
      assert forall d :: d in deps ==> (HasStatus(added, d, Completed) <==> HasStatus(s, d, Completed));
    }
  }

  /** A failure changes the status of the failed task and nothing else. */
  lemma FailByName(s: Tasks, id: Id)
    ensures var s' := AfterFail(s, id);
      && s'.Keys == s.Keys
      && (id in s ==> s'[id] == Node(Failed, s[id].deps))
      && forall y :: y in s && y != id ==> s'[y] == s[y]
  {
  }

  /** A completion completes its task and changes no dependencies. */
  lemma CompleteByName(s: Tasks, id: Id)
    ensures var s' := AfterComplete(s, id);
      && s'.Keys == s.Keys
      && (id in s ==> s'[id] == Node(Completed, s[id].deps))
      && forall y :: y in s ==> s'[y].deps == s[y].deps
  {
  }

  // ---------- creations ----------

  lemma ScheduledAre(st: TeamState, id: Id)
    ensures id in Scheduled(st) <==> id in st.tasks && id in st.registered
    ensures id in Scheduled(st) ==> Scheduled(st)[id] == Node(st.tasks[id].status, st.tasks[id].deps)
    ensures id in Scheduled(st) <==> id in DepsOf(Scheduled(st))
    ensures id in Scheduled(st) ==> DepsOf(Scheduled(st))[id] == st.tasks[id].deps
  {
  }

  /** A creation lists the task as pending or blocked by its dependencies, whatever the id stood
      for before; a rejected one changes no listed task and takes the id from the scheduler. */
  lemma CreateByDependencies(st: TeamState, id: Id, deps: seq<Id>, owner: string, at: int)
    ensures var st' := AfterCreate(st, id, deps, owner, at);
      if Cyclic(DepsOf(Scheduled(st))[id := deps]) then
        st' == TeamState(st.workers, st.tasks, st.registered - {id})
      else if forall d :: d in deps ==> d in st.tasks && d in st.registered && st.tasks[d].status == Completed then
        st' == TeamState(st.workers, st.tasks[id := TaskRec(Pending, deps, owner, at)], st.registered + {id})
      else
        st' == TeamState(st.workers, st.tasks[id := TaskRec(Blocked, deps, owner, at)], st.registered + {id})
  {
    AddByDependencies(Scheduled(st), id, deps);
    assert (forall d :: d in deps ==> d in Scheduled(st) && Scheduled(st)[d].status == Completed) <==>
      (forall d :: d in deps ==> d in st.tasks && d in st.registered && st.tasks[d].status == Completed);
  }

  /** Replaying a creation lists the task in any case: as pending when the scheduler rejects it,
      and then not scheduled. */
  lemma ReplayedCreateByDependencies(st: TeamState, p: Payload)
    requires p.NewTask?
    ensures var st' := ReplayCreate(st, p);
      if Cyclic(DepsOf(Scheduled(st))[p.id := p.dependsOn]) then
        st' == TeamState(st.workers, st.tasks[p.id := TaskRec(Pending, p.dependsOn, p.owner, p.createdAt)],
                         st.registered - {p.id})
      else st' == AfterCreate(st, p.id, p.dependsOn, p.owner, p.createdAt)
  {
    AddByDependencies(Scheduled(st), p.id, p.dependsOn);
  }

  // ---------- updates ----------

  lemma TextsMean(text: string)
    ensures text == "pending" ==> StatusOf(text) == Pending
    ensures text == "blocked" ==> StatusOf(text) == Blocked
    ensures text == "running" ==> StatusOf(text) == Running
    ensures text == "completed" ==> StatusOf(text) == Completed
    ensures text == "failed" ==> StatusOf(text) == Failed
    ensures text !in {"pending", "blocked", "running", "completed", "failed"} ==> StatusOf(text) == Unknown(text)
  {
  }

  lemma UpdateGives(st: TeamState, id: Id, status: Status)
    requires id in st.tasks
    ensures var st' := AfterUpdate(st, id, status);
      && st'.tasks.Keys == st.tasks.Keys && st'.registered == st.registered && st'.workers == st.workers
      && st'.tasks[id] == st.tasks[id].(status := status)
  {
    UpdateIsWrite(st, id, status);
  }

  /** The status a listed task has after an update with each text, live and after replay. */
  lemma UpdateByText(st: TeamState, id: Id, text: string)
    requires id in st.tasks
    ensures var live := AfterUpdate(st, id, StatusOf(text)).tasks;
      && id in live
      && (text == "pending" ==> live[id].status == Pending)
      && (text == "blocked" ==> live[id].status == Blocked)
      && (text == "running" ==> live[id].status == Running)
      && (text == "completed" ==> live[id].status == Completed)
      && (text == "failed" ==> live[id].status == Failed)
      && (text !in {"pending", "blocked", "running", "completed", "failed"} ==> live[id].status == Unknown(text))
  {
    TextsMean(text);
    UpdateGives(st, id, StatusOf(text));
  }

  lemma ReplayByText(st: TeamState, env: Envelope)
    requires env.kind.TaskUpdate? && env.payload.NewStatus? && env.payload.task in st.tasks
    ensures var replayed, id, text := ReplayOne(st, env).tasks, env.payload.task, env.payload.text;
      && id in replayed
      && (text == "pending" ==> replayed[id].status == Pending)
      && (text == "blocked" ==> replayed[id].status == Blocked)
      && (text == "running" ==> replayed[id].status == Running)
      && (text == "completed" ==> replayed[id].status == Completed)
      && (text == "failed" ==> replayed[id].status == Failed)
      && (text !in {"pending", "blocked", "running", "completed", "failed"} ==> replayed[id].status == Pending)
  {
    TextsMean(env.payload.text);
    UpdateGives(st, env.payload.task, StatusFromJournal(env.payload.text));
  }

  /** What an update does to another task: the text "completed" starts exactly the blocked,
      scheduled ones whose dependencies are then all completed; no other text does anything. */
  lemma UpdateOfOthers(st: TeamState, id: Id, text: string, y: Id)
    requires id in st.tasks && y in st.tasks && y != id
    ensures var rec := AfterUpdate(st, id, StatusOf(text)).tasks[y];
      if text == "completed" && y in st.registered && st.tasks[y].status == Blocked &&
         (forall d :: d in st.tasks[y].deps ==>
            d in st.tasks && d in st.registered && (d == id || st.tasks[d].status == Completed))
      then rec == st.tasks[y].(status := Running)
      else rec == st.tasks[y]
  {
    TextsMean(text);
    UpdateIsWrite(st, id, StatusOf(text));
    var w := Written(st, id, Completed);
    assert y in Scheduled(w) ==> (DepsDone(Scheduled(w), y) <==>
      forall d :: d in st.tasks[y].deps ==>
        d in st.tasks && d in st.registered && (d == id || st.tasks[d].status == Completed));
  }

  /** A direct write loses a wakeup exactly with the text "blocked" on a scheduled task that
      waits for nothing. */
  lemma SoundByText(st: TeamState, x: Id, text: string)
    requires SoundTeam(st) && x in st.tasks
    ensures SoundTeam(AfterUpdate(st, x, StatusOf(text))) <==>
      !(text == "blocked" && x in st.registered &&
        forall d :: d in st.tasks[x].deps ==> d in st.tasks && d in st.registered && st.tasks[d].status == Completed)
  {
    TextsMean(text);
    UpdateStaysSoundExactly(st, x, StatusOf(text));
  }
}
