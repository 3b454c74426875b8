/** What the scheduler's operations do to the registered tasks, as functions on values,
    and what every run of them keeps. */
module SchedulerSpec {
  import opened Graph
  import opened Sequences

  /** The five statuses the system knows, and any other text a caller may write. */
  datatype Status = Pending | Blocked | Running | Completed | Failed | Unknown(text: string)

  datatype Node = Node(status: Status, deps: seq<Id>)

  type Tasks = map<Id, Node>

  function DepsOf(s: Tasks): Deps {
    map id | id in s :: s[id].deps
  }

  predicate DepsDone(s: Tasks, id: Id)
    requires id in s
  {
    forall d :: d in s[id].deps ==> d in s && s[d].status == Completed
  }

  predicate HasStatus(s: Tasks, id: Id, status: Status) {
    id in s && s[id].status == status
  }

  predicate Runnable(s: Tasks, id: Id) {
    HasStatus(s, id, Pending) || HasStatus(s, id, Running)
  }

  // ---------- the three operations ----------

  /** Registering replaces whatever the id stood for; a cycle makes the id disappear. */
  ghost function AfterAdd(s: Tasks, id: Id, deps: seq<Id>): Tasks {
    var added := s[id := Node(Blocked, deps)];
    if Cyclic(DepsOf(added)) then s - {id}
    else if DepsDone(added, id) then s[id := Node(Pending, deps)]
    else added
  }

  function WithStatus(s: Tasks, id: Id, status: Status): Tasks {
    if id in s then s[id := s[id].(status := status)] else s
  }

  /** Blocked tasks with nothing left to wait for. */
  function Ready(s: Tasks): set<Id> {
    set id | id in s && s[id].status == Blocked && DepsDone(s, id)
  }

  function Started(s: Tasks, ids: set<Id>): Tasks {
    map id | id in s :: if id in ids then s[id].(status := Running) else s[id]
  }

  function StartReady(s: Tasks): Tasks {
    Started(s, Ready(s))
  }

  function AfterComplete(s: Tasks, id: Id): Tasks {
    StartReady(WithStatus(s, id, Completed))
  }

  function Woken(s: Tasks, id: Id): set<Id> {
    Ready(WithStatus(s, id, Completed))
  }

  function AfterFail(s: Tasks, id: Id): Tasks {
    WithStatus(s, id, Failed)
  }

  // ---------- runs ----------

  datatype Op = Add(id: Id, deps: seq<Id>) | Complete(id: Id) | Fail(id: Id)

  ghost function Apply(s: Tasks, op: Op): Tasks {
    match op
    case Add(id, deps) => AfterAdd(s, id, deps)
    case Complete(id) => AfterComplete(s, id)
    case Fail(id) => AfterFail(s, id)
  }

  ghost function Run(ops: seq<Op>): Tasks {
    if ops == [] then map[] else Apply(Run(ops[..|ops| - 1]), ops[|ops| - 1])
  }

  // ---------- what every run keeps ----------

  ghost predicate NoLostWakeup(s: Tasks) {
    Ready(s) == {}
  }

  ghost predicate Sound(s: Tasks) {
    !Cyclic(DepsOf(s)) && NoLostWakeup(s)
  }

  ghost predicate Invariant(s: Tasks) {
    Sound(s) && forall id :: id in s ==> !s[id].status.Unknown?
  }

  /** Rejected or accepted, an addition leaves an acyclic graph behind. */
  lemma AddKeepsAcyclic(s: Tasks, id: Id, deps: seq<Id>)
    requires !Cyclic(DepsOf(s))
    ensures !Cyclic(DepsOf(AfterAdd(s, id, deps)))
  {
    var added := s[id := Node(Blocked, deps)];
    if Cyclic(DepsOf(added)) {
      FewerEdgesStayAcyclic(DepsOf(s), DepsOf(s - {id}));
    } else {
      assert DepsOf(AfterAdd(s, id, deps)) == DepsOf(added);
    }
  }

  lemma AddKeepsSound(s: Tasks, id: Id, deps: seq<Id>)
    requires Sound(s)
    ensures Sound(AfterAdd(s, id, deps))
  {
    AddKeepsAcyclic(s, id, deps);
    var added := s[id := Node(Blocked, deps)];
    var s' := AfterAdd(s, id, deps);
    forall x | x in s' && s'[x].status == Blocked ensures !DepsDone(s', x) {
      if x != id {
        assert x !in Ready(s);
        var d :| d in s[x].deps && !(d in s && s[d].status == Completed);
        assert d in s'[x].deps;
      } else {
        assert !DepsDone(added, id);
        var d :| d in deps && !(d in added && added[d].status == Completed);
      }
    }
  }

  lemma AddKeepsInvariant(s: Tasks, id: Id, deps: seq<Id>)
    requires Invariant(s)
    ensures Invariant(AfterAdd(s, id, deps))
  {
    AddKeepsSound(s, id, deps);
  }

  /** A task that starts by completion of another was waiting for nothing any more, and
      starting it completes nobody's wait. */
  lemma StartReadyKeeps(s: Tasks)
    ensures DepsOf(StartReady(s)) == DepsOf(s)
    ensures NoLostWakeup(StartReady(s))
  {
    var s' := StartReady(s);
    forall x | x in s' && s'[x].status == Blocked ensures !DepsDone(s', x) {
      assert x !in Ready(s);
      var d :| d in s[x].deps && !(d in s && s[d].status == Completed);
    }
  }

  lemma StepKeepsInvariant(s: Tasks, op: Op)
    requires Invariant(s)
    ensures Invariant(Apply(s, op))
  {
    match op
    case Add(id, deps) => AddKeepsInvariant(s, id, deps);
    case Complete(id) =>
      StartReadyKeeps(WithStatus(s, id, Completed));
      assert DepsOf(WithStatus(s, id, Completed)) == DepsOf(s);
    case Fail(id) =>
      var s' := AfterFail(s, id);
      assert DepsOf(s') == DepsOf(s);
      forall x | x in s' && s'[x].status == Blocked ensures !DepsDone(s', x) {
        assert x !in Ready(s);
        var d :| d in s[x].deps && !(d in s && s[d].status == Completed);
      }
  }

  lemma {:induction false} EveryRunKeepsInvariant(ops: seq<Op>)
    ensures Invariant(Run(ops))
  {
    if ops == [] {
      OrderedMeansAcyclic(DepsOf(Run(ops)), []);
    } else {
      EveryRunKeepsInvariant(ops[..|ops| - 1]);
      StepKeepsInvariant(Run(ops[..|ops| - 1]), ops[|ops| - 1]);
    }
  }

  // ---------- completion wakes exactly the right tasks ----------

  /** The dependencies that still hold a task back. */
  function WaitingFor(s: Tasks, y: Id): set<Id> {
    if y in s then set d | d in s[y].deps && !HasStatus(s, d, Completed) else {}
  }

  predicate WaitsOnlyFor(s: Tasks, y: Id, x: Id) {
    x in s && y != x && HasStatus(s, y, Blocked) && WaitingFor(s, y) == {x}
  }

  /** With no wakeup lost before, completing x starts exactly the blocked tasks that waited
      for x and for nothing else, and touches no other task; it changes nothing when x was
      completed already or is not registered. */
  lemma WakesExactlyDirectDependents(s: Tasks, x: Id)
    requires NoLostWakeup(s)
    ensures forall y :: y in Woken(s, x) <==> WaitsOnlyFor(s, y, x)
    ensures !(x in s && s[x].status != Completed) ==> AfterComplete(s, x) == s
    ensures forall y :: y in s && y != x ==>
        AfterComplete(s, x)[y] == if WaitsOnlyFor(s, y, x) then s[y].(status := Running) else s[y]
  {
    var done := WithStatus(s, x, Completed);
    if !(x in s && s[x].status != Completed) {
      assert done == s;
      assert forall y :: x in s ==> x !in WaitingFor(s, y);
      return;
    }
    forall y ensures y in Woken(s, x) <==> WaitsOnlyFor(s, y, x) {
      if y in Woken(s, x) {
        assert y !in Ready(s);
        assert WaitingFor(s, y) <= {x};
        var d :| d in s[y].deps && !HasStatus(s, d, Completed);
        assert d in WaitingFor(s, y);
      }
      if WaitsOnlyFor(s, y, x) {
        forall d | d in done[y].deps ensures HasStatus(done, d, Completed) {
          if !HasStatus(s, d, Completed) {
            assert d in WaitingFor(s, y);
          }
        }
      }
    }
  }

  // ---------- no deadlock ----------

  /** A chain of dependencies through blocked tasks to the one that holds them all up. */
  ghost predicate BlockedChain(s: Tasks, p: seq<Id>) {
    && Walk(DepsOf(s), p)
    && |p| >= 2
    && (forall i :: 0 <= i < |p| - 1 ==> HasStatus(s, p[i], Blocked))
    && Stopped(s, p[|p| - 1])
  }

  /** Not registered, failed, or in a status the scheduler does not know. */
  predicate Stopped(s: Tasks, x: Id) {
    x !in s || s[x].status.Failed? || s[x].status.Unknown?
  }

  ghost predicate HeldUp(s: Tasks, b: Id) {
    exists p :: BlockedChain(s, p) && p[0] == b
  }

  /** The chain ends in a failed task or in an id that was never added. */
  ghost predicate HeldUpByFailure(s: Tasks, b: Id) {
    exists p :: BlockedChain(s, p) && p[0] == b && (p[|p| - 1] !in s || s[p[|p| - 1]].status.Failed?)
  }

  lemma HeldUpWithoutUnknown(s: Tasks, b: Id)
    requires Invariant(s) && HeldUp(s, b)
    ensures HeldUpByFailure(s, b)
  {
    var p :| BlockedChain(s, p) && p[0] == b;
    assert p[|p| - 1] !in s || s[p[|p| - 1]].status.Failed?;
  }

  lemma ChainGrows(s: Tasks, b: Id, d: Id)
    requires HasStatus(s, b, Blocked) && d in s[b].deps
    requires Stopped(s, d) || HeldUp(s, d)
    ensures HeldUp(s, b)
  {
    assert Edge(DepsOf(s), b, d);
    if HeldUp(s, d) {
      var q :| BlockedChain(s, q) && q[0] == d;
      var p := [b] + q;
      forall i | 0 <= i < |p| - 1
        ensures Edge(DepsOf(s), p[i], p[i + 1]) && HasStatus(s, p[i], Blocked)
      {
        if i > 0 {
          assert Edge(DepsOf(s), q[i - 1], q[i]) && HasStatus(s, q[i - 1], Blocked);
        }
      }
      assert BlockedChain(s, p);
    } else {
      assert BlockedChain(s, [b, d]);
    }
  }

  /** When nothing can run, every blocked task is held up by a task that stopped or is not
      registered: blocked tasks never just wait for each other. */
  lemma NoDeadlock(s: Tasks)
    requires Sound(s)
    requires forall id :: !Runnable(s, id)
    ensures forall b :: HasStatus(s, b, Blocked) ==> HeldUp(s, b)
    ensures Invariant(s) ==> forall b :: HasStatus(s, b, Blocked) ==> HeldUpByFailure(s, b)
  {
    var stuck := set b | b in s && s[b].status == Blocked && !HeldUp(s, b);
    if stuck != {} {
      forall b | b in stuck ensures WaitsInside(DepsOf(s), stuck, b) {
        assert b !in Ready(s);
        var d :| d in s[b].deps && !(d in s && s[d].status == Completed);
        if Stopped(s, d) || HeldUp(s, d) {
          ChainGrows(s, b, d);
          assert false;
        }
        assert !Runnable(s, d);
        assert Edge(DepsOf(s), b, d) && d in stuck;
      }
      StuckMeansCyclic(DepsOf(s), stuck);
    }
    forall b | HasStatus(s, b, Blocked) ensures HeldUp(s, b) {
      assert b !in stuck;
    }
    if Invariant(s) {
      forall b | HasStatus(s, b, Blocked) ensures HeldUpByFailure(s, b) {
        HeldUpWithoutUnknown(s, b);
      }
    }
  }

  lemma NoRunDeadlocks(ops: seq<Op>)
    requires forall id :: !Runnable(Run(ops), id)
    ensures forall b :: HasStatus(Run(ops), b, Blocked) ==> HeldUpByFailure(Run(ops), b)
  {
    EveryRunKeepsInvariant(ops);
    NoDeadlock(Run(ops));
  }

  /** Every dependency is registered and nothing failed. */
  ghost predicate ClosedAndUnfailed(s: Tasks) {
    forall id :: id in s ==> s[id].status != Failed && forall d :: d in s[id].deps ==> d in s
  }

  lemma ChainEndsOutside(s: Tasks, b: Id)
    requires HeldUpByFailure(s, b)
    ensures !ClosedAndUnfailed(s)
  {
    var p :| BlockedChain(s, p) && p[0] == b && (p[|p| - 1] !in s || s[p[|p| - 1]].status.Failed?);
    assert Edge(DepsOf(s), p[|p| - 2], p[|p| - 1]);
  }

  lemma ClosedGraphMoves(s: Tasks)
    requires Invariant(s) && ClosedAndUnfailed(s)
    ensures (exists id :: Runnable(s, id)) || forall id :: id in s ==> s[id].status == Completed
  {
    if forall id :: !Runnable(s, id) {
      NoDeadlock(s);
      forall b | b in s ensures s[b].status == Completed {
        assert !Runnable(s, b);
        if s[b].status == Blocked {
          assert HeldUpByFailure(s, b);
          ChainEndsOutside(s, b);
        }
      }
    }
  }

  // ---------- completions follow the dependencies ----------

  /** Ids are fresh, only tasks that can run complete, and a completed task does not fail. */
  ghost predicate Orderly(s: Tasks, op: Op) {
    match op
    case Add(id, _) => id !in s
    case Complete(id) => Runnable(s, id)
    case Fail(id) => !HasStatus(s, id, Completed)
  }

  ghost predicate OrderlyRun(ops: seq<Op>) {
    ops == [] ||
    (OrderlyRun(ops[..|ops| - 1]) && Orderly(Run(ops[..|ops| - 1]), ops[|ops| - 1]))
  }

  function Completions(ops: seq<Op>): seq<Id> {
    if ops == [] then []
    else
      Completions(ops[..|ops| - 1]) +
      match ops[|ops| - 1] case Complete(id) => [id] case _ => []
  }

  /** A task that has left the waiting states has every dependency completed. */
  ghost predicate DepsFirst(s: Tasks) {
    forall id :: id in s && (Runnable(s, id) || s[id].status == Completed) ==> DepsDone(s, id)
  }

  /** The state of an orderly run, seen against the order `c` in which tasks completed. */
  ghost predicate CompletedInOrder(s: Tasks, c: seq<Id>) {
    && DepsFirst(s)
    && Topological(DepsOf(s), c)
    && forall id :: id in c <==> HasStatus(s, id, Completed)
  }

  lemma AddKeepsOrder(s: Tasks, id: Id, deps: seq<Id>, c: seq<Id>)
    requires CompletedInOrder(s, c) && id !in s
    ensures CompletedInOrder(AfterAdd(s, id, deps), c)
  {
    var added := s[id := Node(Blocked, deps)];
    var s' := AfterAdd(s, id, deps);
    if Cyclic(DepsOf(added)) {
      assert s' == s;
    } else {
      forall x | x in s' && (Runnable(s', x) || s'[x].status == Completed) ensures DepsDone(s', x) {
        if x != id {
          assert DepsDone(s, x);
        } else {
          assert DepsDone(added, id);
        }
      }
      forall i, d | 0 <= i < |c| && Edge(DepsOf(s'), c[i], d) ensures d in c[..i] {
        assert c[i] in c;
        assert Edge(DepsOf(s), c[i], d);
      }
      forall x ensures x in c <==> HasStatus(s', x, Completed) {}
    }
  }

  lemma CompleteKeepsOrder(s: Tasks, id: Id, c: seq<Id>)
    requires CompletedInOrder(s, c) && Runnable(s, id)
    ensures CompletedInOrder(AfterComplete(s, id), c + [id])
  {
    var done := WithStatus(s, id, Completed);
    var s' := AfterComplete(s, id);
    StartReadyKeeps(done);
    assert DepsOf(s') == DepsOf(s);
    forall x | x in s' && (Runnable(s', x) || s'[x].status == Completed) ensures DepsDone(s', x) {
      if x !in Ready(done) {
        assert Runnable(s, x) || s[x].status == Completed;
        assert DepsDone(s, x);
      }
    }
    assert id !in c;
    assert DepsDone(s, id);
    var c' := c + [id];
    forall i, d | 0 <= i < |c'| && Edge(DepsOf(s'), c'[i], d) ensures d in c'[..i] {
      if i < |c| {
        assert c'[..i] == c[..i];
      } else {
        assert c'[..i] == c;
        assert HasStatus(s, d, Completed);
      }
    }
    forall x ensures x in c' <==> HasStatus(s', x, Completed) {
      assert x in c' <==> x in c || x == id;
    }
  }

  lemma FailKeepsOrder(s: Tasks, id: Id, c: seq<Id>)
    requires CompletedInOrder(s, c) && !HasStatus(s, id, Completed)
    ensures CompletedInOrder(AfterFail(s, id), c)
  {
    var s' := AfterFail(s, id);
    assert DepsOf(s') == DepsOf(s);
    forall x | x in s' && (Runnable(s', x) || s'[x].status == Completed) ensures DepsDone(s', x) {
      assert DepsDone(s, x);
    }
    forall x ensures x in c <==> HasStatus(s', x, Completed) {
      assert HasStatus(s', x, Completed) <==> HasStatus(s, x, Completed);
    }
  }

  /** Topological execution: the completed tasks are exactly the ids completed so far, each
      once, every one of them after all of its dependencies. */
  lemma {:induction false} CompletionOrderIsTopological(ops: seq<Op>)
    requires OrderlyRun(ops)
    ensures CompletedInOrder(Run(ops), Completions(ops))
  {
    if ops != [] {
      var before := ops[..|ops| - 1];
      CompletionOrderIsTopological(before);
      match ops[|ops| - 1] {
        case Add(id, deps) => AddKeepsOrder(Run(before), id, deps, Completions(before));
        case Complete(id) => CompleteKeepsOrder(Run(before), id, Completions(before));
        case Fail(id) => FailKeepsOrder(Run(before), id, Completions(before));
      }
      assert Completions(before) + [] == Completions(before);
    }
  }

  lemma {:induction false} DistinctCovers<T>(p: seq<T>, s: set<T>)
    requires Distinct(p) && forall x :: x in p <==> x in s
    ensures |p| == |s|
  {
    if p == [] {
      assert s == {};
    } else {
      var last := p[|p| - 1];
      forall x ensures x in p[..|p| - 1] <==> x in s - {last} {
        assert x in p <==> x in p[..|p| - 1] || x == last;
      }
      DistinctCovers(p[..|p| - 1], s - {last});
    }
  }

  /** A closed graph of n tasks without failures is finished after n completions and not
      before: until then some task can run. */
  lemma FinishesAfterExactlyN(ops: seq<Op>)
    requires OrderlyRun(ops) && ClosedAndUnfailed(Run(ops))
    ensures |Completions(ops)| <= |Run(ops)|
    ensures |Completions(ops)| == |Run(ops)| <==> forall id :: id in Run(ops) ==> Run(ops)[id].status == Completed
    ensures |Completions(ops)| < |Run(ops)| <==> exists id :: Runnable(Run(ops), id)
  {
    var s, c := Run(ops), Completions(ops);
    EveryRunKeepsInvariant(ops);
    CompletionOrderIsTopological(ops);
    ClosedGraphMoves(s);
    var completed := set id | id in s && s[id].status == Completed;
    DistinctCovers(c, completed);
    assert completed <= s.Keys;
    SubsetSize(completed, s.Keys);
    assert |s| == |s.Keys|;
    if |c| == |s| {
      assert completed == s.Keys;
    }
    if exists id :: Runnable(s, id) {
      var id :| Runnable(s, id);
      assert id in s.Keys && id !in completed;
    }
  }

  lemma {:induction false} SubsetSize<T>(a: set<T>, b: set<T>)
    requires a <= b
    ensures |a| <= |b|
    ensures |a| == |b| <==> a == b
  {
    if a != {} {
      var x :| x in a;
      SubsetSize(a - {x}, b - {x});
    }
  }
}
