/** Dependency graphs: which task ids a registered task waits for.

    A graph lists the dependencies of every registered id; a dependency need not be
    registered itself (a forward reference). This module is the reference that the
    scheduler's Kahn loop is measured against: a graph is cyclic when some walk along
    dependencies comes back to where it started. */
module Graph {
  import opened Sequences

  /** A task id. */
  datatype Id = Id(name: string)

  type Deps = map<Id, seq<Id>>

  function Nodes(g: Deps): set<Id> {
    g.Keys + set x, d | x in g && d in g[x] :: d
  }

  predicate Edge(g: Deps, x: Id, d: Id) {
    x in g && d in g[x]
  }

  ghost predicate Walk(g: Deps, p: seq<Id>) {
    p != [] && forall i :: 0 <= i < |p| - 1 ==> Edge(g, p[i], p[i + 1])
  }

  ghost predicate Cycle(g: Deps, p: seq<Id>) {
    Walk(g, p) && |p| >= 2 && p[0] == p[|p| - 1]
  }

  ghost predicate Cyclic(g: Deps) {
    exists p :: Cycle(g, p)
  }

  /** Every listed id comes after all of its dependencies. */
  ghost predicate Topological(g: Deps, order: seq<Id>) {
    && Distinct(order)
    && forall i, d :: 0 <= i < |order| && Edge(g, order[i], d) ==> d in order[..i]
  }

  /** Following dependencies from a listed id only reaches earlier ids. */
  lemma {:induction false} WalkDescends(g: Deps, order: seq<Id>, p: seq<Id>, i: nat)
    requires Topological(g, order) && Walk(g, p) && |p| >= 2
    requires i < |order| && order[i] == p[0]
    ensures p[|p| - 1] in order[..i]
    decreases |p|
  {
    assert Edge(g, p[0], p[1]);
    var j :| 0 <= j < i && order[j] == p[1];
    if |p| > 2 {
      var q := p[1..];
      forall k | 0 <= k < |q| - 1 ensures Edge(g, q[k], q[k + 1]) {
        assert Edge(g, p[k + 1], p[k + 2]);
      }
      WalkDescends(g, order, q, j);
      assert order[..j] <= order[..i];
    }
  }

  /** A topological order of all the ids rules out every cycle. */
  lemma OrderedMeansAcyclic(g: Deps, order: seq<Id>)
    requires Topological(g, order)
    requires forall x :: x in Nodes(g) ==> x in order
    ensures !Cyclic(g)
  {
    forall p | Cycle(g, p) ensures false {
      assert Edge(g, p[0], p[1]);
      assert p[0] in Nodes(g);
      var i :| 0 <= i < |order| && order[i] == p[0];
      WalkDescends(g, order, p, i);
    }
  }

  ghost predicate WaitsInside(g: Deps, s: set<Id>, x: Id) {
    exists d :: d in s && Edge(g, x, d)
  }

  /** A nonempty set of ids, each waiting for an id of the set. */
  ghost predicate Stuck(g: Deps, s: set<Id>) {
    s != {} && forall x {:trigger WaitsInside(g, s, x)} :: x in s ==> WaitsInside(g, s, x)
  }

  lemma {:induction false} WalkInside(g: Deps, s: set<Id>, n: nat) returns (p: seq<Id>)
    requires Stuck(g, s)
    ensures Walk(g, p) && |p| == n + 1 && forall x :: x in p ==> x in s
  {
    if n == 0 {
      var x :| x in s;
      p := [x];
    } else {
      var q := WalkInside(g, s, n - 1);
      var last := q[|q| - 1];
      assert last in q && WaitsInside(g, s, last);
      var d :| d in s && Edge(g, last, d);
      p := q + [d];
      forall i | 0 <= i < |p| - 1 ensures Edge(g, p[i], p[i + 1]) {
        if i < |q| - 1 {
          assert Edge(g, q[i], q[i + 1]);
        }
      }
    }
  }

  lemma {:induction false} DistinctIsSmall<T>(p: seq<T>, s: set<T>)
    requires Distinct(p) && forall x :: x in p ==> x in s
    ensures |p| <= |s|
  {
    if p != [] {
      var last := p[|p| - 1];
      DistinctIsSmall(p[..|p| - 1], s - {last});
    }
  }

  /** If no id of a set can go first, the dependencies inside the set form a cycle. */
  lemma StuckMeansCyclic(g: Deps, s: set<Id>)
    requires Stuck(g, s)
    ensures Cyclic(g)
  {
    var p := WalkInside(g, s, |s|);
    if Distinct(p) {
      DistinctIsSmall(p, s);
      assert false;
    }
    var i, j :| 0 <= i < j < |p| && p[i] == p[j];
    var c := p[i..j + 1];
    forall k | 0 <= k < |c| - 1 ensures Edge(g, c[k], c[k + 1]) {
      assert Edge(g, p[i + k], p[i + k + 1]);
    }
    assert Cycle(g, c);
  }

  /** Dropping ids from a graph cannot create a cycle. */
  lemma FewerEdgesStayAcyclic(g: Deps, h: Deps)
    requires forall x, d :: Edge(h, x, d) ==> Edge(g, x, d)
    requires !Cyclic(g)
    ensures !Cyclic(h)
  {
    forall p | Cycle(h, p) ensures false {
      forall i | 0 <= i < |p| - 1 ensures Edge(g, p[i], p[i + 1]) {
        assert Edge(h, p[i], p[i + 1]);
      }
      assert Cycle(g, p);
    }
  }
}
