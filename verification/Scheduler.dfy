/** The scheduler as it runs: shared task objects whose status it rewrites in place, and
    Kahn's algorithm over an in-degree table and a work queue. Every method is tied to its
    function in SchedulerSpec. */
module Scheduling {
  import opened Graph
  import opened Sequences
  import opened SchedulerSpec

  class Task {
    const id: Id
    const dependsOn: seq<Id>
    const owner: string
    const createdAt: int
    var status: Status

    constructor (id: Id, dependsOn: seq<Id>, owner: string, createdAt: int, status: Status)
      ensures this.id == id && this.dependsOn == dependsOn && this.owner == owner
      ensures this.createdAt == createdAt && this.status == status
    {
      this.id, this.dependsOn, this.owner := id, dependsOn, owner;
      this.createdAt, this.status := createdAt, status;
    }
  }

  // ---------- counting the edges Kahn's algorithm has not consumed ----------

  /** How many entries of a dependency list are not in `done`, duplicates counted. */
  function Open(ds: seq<Id>, done: set<Id>): nat {
    if ds == [] then 0
    else Open(ds[..|ds| - 1], done) + if ds[|ds| - 1] in done then 0 else 1
  }

  function Occurrences(ds: seq<Id>, x: Id): nat {
    if ds == [] then 0
    else Occurrences(ds[..|ds| - 1], x) + if ds[|ds| - 1] == x then 1 else 0
  }

  lemma {:induction false} ConsumeOne(ds: seq<Id>, done: set<Id>, x: Id)
    requires x !in done
    ensures Open(ds, done + {x}) == Open(ds, done) - Occurrences(ds, x)
  {
    if ds != [] {
      ConsumeOne(ds[..|ds| - 1], done, x);
    }
  }

  lemma {:induction false} NothingOpen(ds: seq<Id>, done: set<Id>)
    ensures Open(ds, done) == 0 <==> forall d :: d in ds ==> d in done
    ensures Open(ds, {}) == |ds|
  {
    if ds != [] {
      NothingOpen(ds[..|ds| - 1], done);
      assert ds == ds[..|ds| - 1] + [ds[|ds| - 1]];
    }
  }

  /** Entries equal to x seen so far never exceed the open entries. */
  lemma {:induction false} PrefixBound(ds: seq<Id>, j: nat, x: Id, done: set<Id>)
    requires j <= |ds| && x !in done
    ensures Occurrences(ds[..j], x) <= Open(ds, done)
    ensures Occurrences(ds[..j], x) <= Occurrences(ds, x)
    ensures j < |ds| ==> Occurrences(ds[..j + 1], x) == Occurrences(ds[..j], x) + if ds[j] == x then 1 else 0
    decreases |ds|
  {
    if j < |ds| {
      assert ds[..j + 1][..j] == ds[..j];
      PrefixBound(ds[..|ds| - 1], j, x, done);
      assert ds[..|ds| - 1][..j] == ds[..j];
    } else {
      assert ds[..j] == ds;
      OccurrencesBound(ds, x, done);
    }
  }

  lemma {:induction false} OccurrencesBound(ds: seq<Id>, x: Id, done: set<Id>)
    requires x !in done
    ensures Occurrences(ds, x) <= Open(ds, done)
  {
    if ds != [] {
      OccurrencesBound(ds[..|ds| - 1], x, done);
    }
  }

  /** The in-degree table once `done` has been consumed. */
  ghost predicate Table(g: Deps, inDegree: map<Id, int>, done: set<Id>) {
    && inDegree.Keys == Nodes(g)
    && forall id :: id in inDegree ==> inDegree[id] == if id in g then Open(g[id], done) else 0
  }

  /** The queue and the consumed ids are, each once, the ids whose in-degree is zero. */
  ghost predicate QueueOfZeros(inDegree: map<Id, int>, reached: seq<Id>) {
    && Distinct(reached)
    && forall id :: id in reached <==> id in inDegree && inDegree[id] == 0
  }

  class Scheduler {
    var tasks: map<Id, Task>
    var deps: map<Id, seq<Id>>

    ghost predicate Valid()
      reads this
    {
      && deps.Keys == tasks.Keys
      && forall id :: id in tasks ==> tasks[id].id == id && deps[id] == tasks[id].dependsOn
    }

    ghost function State(): Tasks
      requires Valid()
      reads this, tasks.Values
    {
      map id | id in tasks :: Node(tasks[id].status, deps[id])
    }

    constructor ()
      ensures Valid() && tasks == map[] && State() == map[]
    {
      tasks, deps := map[], map[];
    }

    method AddTask(t: Task) returns (ok: bool)
      requires Valid()
      modifies this, t
      ensures Valid()
      ensures ok <==> !Cyclic(DepsOf(old(State())[t.id := Node(Blocked, t.dependsOn)]))
      ensures State() == Apply(old(State()), Add(t.id, t.dependsOn))
      ensures tasks == if ok then old(tasks)[t.id := t] else old(tasks) - {t.id}
      ensures !ok ==> t.status == old(t.status)
    {
      ghost var before := State();
      AddThenDrop(tasks, t.id, t);
      var cyclic := RegisterAndCheck(t);
      if cyclic {
        Reject(t, before);
      } else {
        Accept(t, before);
      }
      return !cyclic;
    }

    method RegisterAndCheck(t: Task) returns (cyclic: bool)
      requires Valid()
      modifies this
      ensures Valid() && tasks == old(tasks)[t.id := t]
      ensures State() == old(State())[t.id := Node(t.status, t.dependsOn)]
      ensures cyclic <==> Cyclic(DepsOf(State()))
    {
      Register(t);
      cyclic := DetectCycle();
    }

    /** Rolls a registration back. */
    method Reject(t: Task, ghost before: Tasks)
      requires Valid() && t.id in tasks && tasks[t.id] == t && Cyclic(DepsOf(State()))
      requires State() == before[t.id := Node(t.status, t.dependsOn)]
      modifies this
      ensures Valid() && tasks == old(tasks) - {t.id}
      ensures Cyclic(DepsOf(before[t.id := Node(Blocked, t.dependsOn)]))
      ensures State() == AfterAdd(before, t.id, t.dependsOn)
    {
      AddOutcome(before, State(), t.id, t.dependsOn);
      Unregister(t.id);
    }

    /** Gives a registered task its first status. */
    method Accept(t: Task, ghost before: Tasks)
      requires Valid() && t.id in tasks && tasks[t.id] == t && !Cyclic(DepsOf(State()))
      requires State() == before[t.id := Node(t.status, t.dependsOn)]
      modifies t`status
      ensures Valid() && !Cyclic(DepsOf(before[t.id := Node(Blocked, t.dependsOn)]))
      ensures State() == AfterAdd(before, t.id, t.dependsOn)
    {
      AddOutcome(before, State(), t.id, t.dependsOn);
      SetInitialStatus(t);
    }

    method SetInitialStatus(t: Task)
      requires Valid() && t.id in tasks && tasks[t.id] == t
      modifies t`status
      ensures Valid()
      ensures State() == old(State())[t.id :=
        Node(if DepsDone(old(State()), t.id) then Pending else Blocked, t.dependsOn)]
    {
      var ready := AllDepsComplete(t.id);
      SetStatus(t, if ready then Pending else Blocked);
    }

    method Register(t: Task)
      requires Valid()
      modifies this
      ensures Valid()
      ensures tasks == old(tasks)[t.id := t] && deps == old(deps)[t.id := t.dependsOn]
      ensures State() == old(State())[t.id := Node(t.status, t.dependsOn)]
      ensures DepsOf(State()) == deps
    {
      tasks := tasks[t.id := t];
      deps := deps[t.id := t.dependsOn];
    }

    method Unregister(id: Id)
      requires Valid()
      modifies this
      ensures Valid()
      ensures tasks == old(tasks) - {id} && deps == old(deps) - {id}
      ensures State() == old(State()) - {id}
    {
      tasks := tasks - {id};
      deps := deps - {id};
    }

    /** Rewriting a registered task's status changes that one entry. */
    method SetStatus(t: Task, status: Status)
      requires Valid() && t.id in tasks && tasks[t.id] == t
      modifies t`status
      ensures t.status == status && Valid()
      ensures State() == old(State())[t.id := Node(status, t.dependsOn)]
    {
      ghost var before := State();
      t.status := status;
      forall id | id in tasks
        ensures State()[id] == before[t.id := Node(status, t.dependsOn)][id]
      {
      }
      assert State().Keys == before[t.id := Node(status, t.dependsOn)].Keys;
    }

    method MarkComplete(taskID: Id) returns (unblocked: seq<Id>)
      requires Valid()
      modifies tasks.Values
      ensures Valid() && tasks == old(tasks) && deps == old(deps)
      ensures State() == Apply(old(State()), Op.Complete(taskID))
      ensures Distinct(unblocked)
      ensures forall id :: id in unblocked <==> id in Woken(old(State()), taskID)
    {
      ghost var done := WithStatus(State(), taskID, Completed);
      if taskID in tasks {
        SetStatus(tasks[taskID], Completed);
      }
      ghost var ready := Ready(done);
      unblocked := [];
      var rest := tasks.Keys;
      StartNone(done, ready, rest);
      while rest != {}
        invariant rest <= tasks.Keys
        invariant Valid() && tasks == old(tasks) && deps == old(deps)
        invariant State() == Started(done, ready - rest)
        invariant Distinct(unblocked)
        invariant forall id :: id in unblocked <==> id in ready - rest
        decreases rest
      {
        var id :| id in rest;
        StartOne(done, rest, id);
        var woken := Wake(id);
        rest := rest - {id};
        if woken {
          unblocked := unblocked + [id];
        }
      }
      assert ready - rest == ready;
    }

    /** The body of MarkComplete's scan, for one task. */
    method Wake(id: Id) returns (woken: bool)
      requires Valid() && id in tasks
      modifies tasks[id]
      ensures Valid()
      ensures woken <==> id in Ready(old(State()))
      ensures State() == if woken then WithStatus(old(State()), id, Running) else old(State())
    {
      var task := tasks[id];
      if task.status != Blocked {
        return false;
      }
      woken := AllDepsComplete(id);
      if woken {
        SetStatus(task, Running);
      }
    }

    method MarkFailed(taskID: Id)
      requires Valid()
      modifies tasks.Values
      ensures Valid() && tasks == old(tasks) && deps == old(deps)
      ensures State() == Apply(old(State()), Op.Fail(taskID))
    {
      if taskID in tasks {
        SetStatus(tasks[taskID], Failed);
      }
    }

    method AllDepsComplete(taskID: Id) returns (all: bool)
      requires Valid() && taskID in tasks
      ensures all == DepsDone(State(), taskID)
    {
      var ds := deps[taskID];
      for i := 0 to |ds|
        invariant forall k :: 0 <= k < i ==> HasStatus(State(), ds[k], Completed)
      {
        if ds[i] !in tasks || tasks[ds[i]].status != Completed {
          assert ds[i] in State()[taskID].deps;
          return false;
        }
      }
      return true;
    }

    /** Kahn's algorithm: true exactly when the dependencies form a cycle. */
    method DetectCycle() returns (cyclic: bool)
      requires deps.Keys == tasks.Keys
      ensures cyclic <==> Cyclic(deps)
    {
      var inDegree := InDegrees();
      var queue := ZeroDegree(inDegree);
      var visited := 0;
      ghost var popped: seq<Id> := [];
      KahnStart(deps, inDegree, queue);
      while queue != []
        invariant KahnState(deps, inDegree, popped, queue)
        invariant visited == |popped|
        decreases |Nodes(deps)| - |popped|
      {
        visited := visited + 1;
        inDegree, queue, popped := Visit(inDegree, queue, popped);
      }
      KahnVerdict(deps, inDegree, popped);
      return visited < |inDegree|;
    }

    /** The body of the loop: takes the front of the queue. */
    method Visit(inDegree0: map<Id, int>, queue0: seq<Id>, ghost popped0: seq<Id>)
      returns (inDegree: map<Id, int>, queue: seq<Id>, ghost popped: seq<Id>)
      requires deps.Keys == tasks.Keys && KahnState(deps, inDegree0, popped0, queue0) && queue0 != []
      ensures KahnState(deps, inDegree, popped, queue)
      ensures popped == popped0 + [queue0[0]] && |popped| <= |Nodes(deps)|
    {
      var cur := queue0[0];
      PopFront(deps, inDegree0, popped0, queue0);
      popped := popped0 + [cur];
      inDegree, queue := Relax(cur, inDegree0, queue0[1..], popped, Elements(popped0));
    }

    method InDegrees() returns (inDegree: map<Id, int>)
      requires deps.Keys == tasks.Keys
      ensures Table(deps, inDegree, {})
    {
      inDegree := map id | id in tasks :: 0;
      var rest := tasks.Keys;
      while rest != {}
        invariant rest <= tasks.Keys <= inDegree.Keys <= Nodes(deps)
        invariant forall x, d :: x in tasks && x !in rest && d in deps[x] ==> d in inDegree
        invariant forall x :: x in inDegree ==>
          inDegree[x] == if x in tasks && x !in rest then |deps[x]| else 0
        decreases rest
      {
        var id :| id in rest;
        rest := rest - {id};
        inDegree := CountDependencies(id, inDegree);
      }
      forall id | id in deps ensures Open(deps[id], {}) == |deps[id]| {
        NothingOpen(deps[id], {});
      }
    }

    /** Counts one task's dependencies, each mention once, and lists the ones not seen yet. */
    method CountDependencies(id: Id, inDegree0: map<Id, int>) returns (inDegree: map<Id, int>)
      requires id in deps && id in inDegree0 && inDegree0[id] == 0 && inDegree0.Keys <= Nodes(deps)
      ensures inDegree0.Keys <= inDegree.Keys <= Nodes(deps)
      ensures forall d :: d in deps[id] ==> d in inDegree
      ensures inDegree[id] == |deps[id]|
      ensures forall x :: x in inDegree && x != id ==> inDegree[x] == if x in inDegree0 then inDegree0[x] else 0
    {
      inDegree := inDegree0;
      var ds := deps[id];
      for i := 0 to |ds|
        invariant inDegree0.Keys <= inDegree.Keys <= Nodes(deps)
        invariant forall k :: 0 <= k < i ==> ds[k] in inDegree
        invariant inDegree[id] == i
        invariant forall x :: x in inDegree && x != id ==>
          inDegree[x] == if x in inDegree0 then inDegree0[x] else 0
      {
        assert Edge(deps, id, ds[i]);
        if ds[i] !in inDegree {
          inDegree := inDegree[ds[i] := 0];
        }
        inDegree := inDegree[id := inDegree[id] + 1];
      }
    }

    method ZeroDegree(inDegree: map<Id, int>) returns (queue: seq<Id>)
      ensures QueueOfZeros(inDegree, queue)
    {
      queue := [];
      var rest := inDegree.Keys;
      while rest != {}
        invariant rest <= inDegree.Keys
        invariant Distinct(queue)
        invariant forall id :: id in queue <==> id in inDegree && id !in rest && inDegree[id] == 0
        decreases rest
      {
        var id :| id in rest;
        rest := rest - {id};
        if inDegree[id] == 0 {
          queue := queue + [id];
        }
      }
    }

    /** Consume `cur`: lower the in-degree of its dependents, once per mention. */
    method Relax(cur: Id, inDegree0: map<Id, int>, queue0: seq<Id>, ghost popped: seq<Id>, ghost done: set<Id>)
      returns (inDegree: map<Id, int>, queue: seq<Id>)
      requires deps.Keys == tasks.Keys
      requires cur !in done && Table(deps, inDegree0, done)
      requires QueueOfZeros(inDegree0, popped + queue0)
      ensures Table(deps, inDegree, done + {cur})
      ensures QueueOfZeros(inDegree, popped + queue)
    {
      inDegree, queue := inDegree0, queue0;
      var rest := tasks.Keys;
      while rest != {}
        invariant rest <= tasks.Keys
        invariant inDegree.Keys == Nodes(deps)
        invariant forall x :: x in inDegree && x !in deps ==> inDegree[x] == 0
        invariant forall x :: x in rest ==> inDegree[x] == Open(deps[x], done)
        invariant forall x :: x in deps && x !in rest ==> inDegree[x] == Open(deps[x], done + {cur})
        invariant QueueOfZeros(inDegree, popped + queue)
        decreases rest
      {
        var id :| id in rest;
        rest := rest - {id};
        inDegree, queue := RelaxTask(id, cur, inDegree, queue, popped, done);
      }
    }

    method RelaxTask(
      id: Id, cur: Id, inDegree0: map<Id, int>, queue0: seq<Id>, ghost popped: seq<Id>, ghost done: set<Id>)
      returns (inDegree: map<Id, int>, queue: seq<Id>)
      requires id in deps && id in inDegree0 && inDegree0[id] == Open(deps[id], done)
      requires cur !in done
      requires QueueOfZeros(inDegree0, popped + queue0)
      ensures inDegree == inDegree0[id := Open(deps[id], done + {cur})]
      ensures QueueOfZeros(inDegree, popped + queue)
    {
      inDegree, queue := inDegree0, queue0;
      var ds := deps[id];
      for j := 0 to |ds|
        invariant inDegree == inDegree0[id := Open(ds, done) - Occurrences(ds[..j], cur)]
        invariant QueueOfZeros(inDegree, popped + queue)
      {
        PrefixBound(ds, j, cur, done);
        PrefixBound(ds, j + 1, cur, done);
        if ds[j] == cur {
          LowerOne(inDegree, popped + queue, id);
          inDegree := inDegree[id := inDegree[id] - 1];
          if inDegree[id] == 0 {
            assert popped + (queue + [id]) == (popped + queue) + [id];
            queue := queue + [id];
          }
        }
      }
      assert ds[..|ds|] == ds;
      ConsumeOne(ds, done, cur);
    }
  }

  lemma AddThenDrop<K, V>(m: map<K, V>, k: K, v: V)
    ensures m[k := v] - {k} == m - {k}
  {
  }

  lemma NoSelfDependency(g: Deps, id: Id)
    requires id in g && !Cyclic(g)
    ensures id !in g[id]
  {
    if id in g[id] {
      assert Edge(g, id, id);
      assert Cycle(g, [id, id]);
    }
  }

  /** Only which dependencies are completed decides whether a task still waits. */
  lemma SameCompletedSameWait(s: Tasks, t: Tasks, id: Id)
    requires id in s && id in t && s[id].deps == t[id].deps
    requires forall d :: d in s[id].deps ==> (HasStatus(s, d, Completed) <==> HasStatus(t, d, Completed))
    ensures DepsDone(s, id) == DepsDone(t, id)
  {
    assert forall d :: HasStatus(s, d, Completed) <==> d in s && s[d].status == Completed;
    assert forall d :: HasStatus(t, d, Completed) <==> d in t && t[d].status == Completed;
  }

  /** Whatever status the task object carried before, rejecting or settling it gives the
      specified outcome. */
  lemma AddOutcome(before: Tasks, mid: Tasks, id: Id, deps: seq<Id>)
    requires id in mid && mid[id].deps == deps && mid == before[id := mid[id]]
    ensures Cyclic(DepsOf(mid)) <==> Cyclic(DepsOf(before[id := Node(Blocked, deps)]))
    ensures Cyclic(DepsOf(mid)) ==> mid - {id} == AfterAdd(before, id, deps)
    ensures !Cyclic(DepsOf(mid)) ==>
      mid[id := Node(if DepsDone(mid, id) then Pending else Blocked, deps)] == AfterAdd(before, id, deps)
  {
    var added := before[id := Node(Blocked, deps)];
    assert DepsOf(mid) == DepsOf(added);
    if !Cyclic(DepsOf(mid)) {
      NoSelfDependency(DepsOf(mid), id);
      SameCompletedSameWait(mid, added, id);
    }
  }

  lemma StartNone(s: Tasks, ready: set<Id>, rest: set<Id>)
    requires ready <= rest
    ensures ready - rest == {} && Started(s, ready - rest) == s
  {
  }

  /** The scan may visit the tasks in any order: those already started neither make nor
      unmake another task ready. */
  lemma StartOne(s: Tasks, rest: set<Id>, id: Id)
    requires id in rest && rest <= s.Keys
    ensures
      var ready, now, later := Ready(s), Started(s, Ready(s) - rest), rest - {id};
      && (id in Ready(now) <==> id in ready)
      && (id in ready ==>
            ready - later == ready - rest + {id} && Started(s, ready - later) == WithStatus(now, id, Running))
      && (id !in ready ==> ready - later == ready - rest)
  {
    var ready, now, later := Ready(s), Started(s, Ready(s) - rest), rest - {id};
    SameCompletedSameWait(s, now, id);
    assert now[id] == s[id];
    if id in ready {
      assert ready - later == ready - rest + {id};
      assert Started(s, ready - later) == WithStatus(now, id, Running);
    } else {
      assert ready - later == ready - rest;
    }
  }

  // ---------- why Kahn's loop is right ----------

  function Elements(s: seq<Id>): set<Id> {
    set x | x in s
  }

  ghost predicate KahnState(g: Deps, inDegree: map<Id, int>, popped: seq<Id>, queue: seq<Id>) {
    && Table(g, inDegree, Elements(popped))
    && QueueOfZeros(inDegree, popped + queue)
    && Topological(g, popped)
  }

  lemma KahnStart(g: Deps, inDegree: map<Id, int>, queue: seq<Id>)
    requires Table(g, inDegree, {}) && QueueOfZeros(inDegree, queue)
    ensures KahnState(g, inDegree, [], queue)
  {
    assert [] + queue == queue && Elements([]) == {};
  }

  /** Lowering a positive in-degree calls for an enqueue exactly when it reaches zero. */
  lemma LowerOne(inDegree: map<Id, int>, reached: seq<Id>, id: Id)
    requires QueueOfZeros(inDegree, reached) && id in inDegree && inDegree[id] > 0
    ensures inDegree[id] > 1 ==> QueueOfZeros(inDegree[id := inDegree[id] - 1], reached)
    ensures inDegree[id] == 1 ==> QueueOfZeros(inDegree[id := 0], reached + [id])
  {
    assert id !in reached;
  }

  /** The id at the front of the queue may go next in the order. */
  lemma PopFront(g: Deps, inDegree: map<Id, int>, popped: seq<Id>, queue: seq<Id>)
    requires KahnState(g, inDegree, popped, queue) && queue != []
    ensures queue[0] !in popped
    ensures Elements(popped + [queue[0]]) == Elements(popped) + {queue[0]}
    ensures (popped + [queue[0]]) + queue[1..] == popped + queue
    ensures Topological(g, popped + [queue[0]])
    ensures |popped| + 1 <= |Nodes(g)|
  {
    var cur := queue[0];
    var order := popped + [cur];
    assert order + queue[1..] == popped + queue;
    PrefixDistinct(order, queue[1..]);
    assert cur in popped + queue;
    if cur in g {
      NothingOpen(g[cur], Elements(popped));
    }
    NextInOrder(g, popped, cur);
    assert forall x :: x in order ==> x in popped + queue;
    DistinctIsSmall(order, Nodes(g));
  }

  lemma PrefixDistinct<T>(a: seq<T>, b: seq<T>)
    requires Distinct(a + b)
    ensures Distinct(a)
    ensures a != [] ==> a[|a| - 1] !in a[..|a| - 1]
  {
    assert forall i :: 0 <= i < |a| ==> (a + b)[i] == a[i];
  }

  lemma NextInOrder(g: Deps, order: seq<Id>, next: Id)
    requires Topological(g, order) && next !in order
    requires next in g ==> forall d :: d in g[next] ==> d in order
    ensures Topological(g, order + [next])
  {
    var longer := order + [next];
    forall i, d | 0 <= i < |longer| && Edge(g, longer[i], d) ensures d in longer[..i] {
      if i < |order| {
        assert longer[..i] == order[..i];
      } else {
        assert longer[..i] == order;
      }
    }
  }

  /** When the queue runs dry, all ids were visited exactly when there is no cycle: the ids
      left over wait for each other. */
  lemma KahnVerdict(g: Deps, inDegree: map<Id, int>, popped: seq<Id>)
    requires KahnState(g, inDegree, popped, [])
    ensures |popped| < |inDegree| <==> Cyclic(g)
  {
    assert popped + [] == popped;
    var done, all := Elements(popped), inDegree.Keys;
    DistinctCovers(popped, done);
    SubsetSize(done, all);
    assert |inDegree| == |all|;
    var left := all - done;
    if left == {} {
      assert forall x :: x in all && x !in done ==> x in left;
      OrderedMeansAcyclic(g, popped);
    } else {
      assert done != all;
      forall x | x in left ensures WaitsInside(g, left, x) {
        assert x !in popped;
        NothingOpen(g[x], done);
        var d :| d in g[x] && d !in done;
        assert Edge(g, x, d) && d in Nodes(g);
      }
      StuckMeansCyclic(g, left);
    }
  }
}
