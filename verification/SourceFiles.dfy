/** Hits and misses with source files. A stale entry disappears at different times at
    different capacities: from disk when it had been evicted, otherwise from memory first. As
    long as no entry found stale becomes fresh again, nobody can tell. */
module SourceFiles {
  import opened Wrappers
  import opened CacheSpec
  import opened Sequences

  // ---------- the reference: what was stored, without any removal but Clear ----------

  function Stored(ops: seq<CacheOp>): map<Key, Entry> {
    if ops == [] then map[]
    else
      var before := Stored(ops[..|ops| - 1]);
      match ops[|ops| - 1]
      case Put(key, e, files, now) => before[key := Stamped(e, key, files, now)]
      case Clear => map[]
      case _ => before
  }

  /** Lookups whose key was stored since the last Clear by an entry that is fresh now. */
  function FreshLookups(ops: seq<CacheOp>): nat {
    if ops == [] then 0
    else
      var last := ops[|ops| - 1];
      FreshLookups(ops[..|ops| - 1]) +
      if last.Get? && DiskAnswer(Stored(ops[..|ops| - 1]), last.key, last.files).Some? then 1 else 0
  }

  // ---------- entries found stale ----------

  predicate Stores(op: CacheOp, e: Entry) {
    op.Put? && Stamped(op.entry, op.key, op.files, op.now) == e
  }

  /** The operation looks at the entry's source file and finds another time. */
  predicate FindsStale(op: CacheOp, e: Entry) {
    match op
    case Get(key, files) => key == e.key && !Fresh(e, files)
    case Invalidate(path, files) => path == e.sourcePath && !Fresh(e, files)
    case _ => false
  }

  /** The entry was stored at position i and found stale at a later position j. */
  predicate Doomed(ops: seq<CacheOp>, e: Entry, i: nat, j: nat) {
    i < j < |ops| && Stores(ops[i], e) && FindsStale(ops[j], e)
  }

  /** No later lookup finds such an entry fresh, and nobody invalidates the empty path. */
  ghost predicate NeverRevives(ops: seq<CacheOp>) {
    && (forall i :: 0 <= i < |ops| && ops[i].Invalidate? ==> ops[i].path != "")
    && forall e: Entry, i: nat, j: nat, k: nat ::
         Doomed(ops, e, i, j) && j < k < |ops| && ops[k].Get? && ops[k].key == e.key ==> !Fresh(e, ops[k].files)
  }

  lemma NeverRevivesBefore(ops: seq<CacheOp>)
    requires ops != [] && NeverRevives(ops)
    ensures NeverRevives(ops[..|ops| - 1])
  {
    var front := ops[..|ops| - 1];
    forall e: Entry, i: nat, j: nat, k: nat |
      Doomed(front, e, i, j) && j < k < |front| && front[k].Get? && front[k].key == e.key
      ensures !Fresh(e, front[k].files)
    {
      assert Doomed(ops, e, i, j);
    }
  }

  ghost predicate WasStored(ops: seq<CacheOp>, e: Entry) {
    exists i: nat :: i < |ops| && Stores(ops[i], e)
  }

  ghost predicate WasDoomed(ops: seq<CacheOp>, e: Entry) {
    exists i: nat, j: nat :: Doomed(ops, e, i, j)
  }

  /** A disk holds stored entries only, and every one it misses has been found stale. */
  ghost predicate Matches(ops: seq<CacheOp>, disk: map<Key, Entry>) {
    && (forall k :: k in disk ==> k in Stored(ops) && Stored(ops)[k] == disk[k])
    && (forall k :: k in Stored(ops) ==> Stored(ops)[k].key == k && WasStored(ops, Stored(ops)[k]))
    && forall k :: k in Stored(ops) && k !in disk ==> WasDoomed(ops, Stored(ops)[k])
  }

  lemma WasStoredLater(ops: seq<CacheOp>, e: Entry)
    requires ops != [] && WasStored(ops[..|ops| - 1], e)
    ensures WasStored(ops, e)
    ensures FindsStale(ops[|ops| - 1], e) ==> WasDoomed(ops, e)
  {
    var i: nat :| i < |ops| - 1 && Stores(ops[..|ops| - 1][i], e);
    assert Stores(ops[i], e);
    assert FindsStale(ops[|ops| - 1], e) ==> Doomed(ops, e, i, |ops| - 1);
  }

  lemma WasDoomedLater(ops: seq<CacheOp>, e: Entry)
    requires ops != [] && WasDoomed(ops[..|ops| - 1], e)
    ensures WasDoomed(ops, e)
  {
    var i: nat, j: nat :| Doomed(ops[..|ops| - 1], e, i, j);
    assert Doomed(ops, e, i, j);
  }

  /** An operation that stores nothing may only take entries it finds stale off the disk. */
  lemma RemovalKeepsMatch(ops: seq<CacheOp>, before: map<Key, Entry>, after: map<Key, Entry>)
    requires ops != [] && Matches(ops[..|ops| - 1], before) && Stored(ops) == Stored(ops[..|ops| - 1])
    requires forall k :: k in after ==> k in before && after[k] == before[k]
    requires forall k :: k in before && k !in after ==> FindsStale(ops[|ops| - 1], before[k])
    ensures Matches(ops, after)
  {
    var front := ops[..|ops| - 1];
    forall k | k in Stored(ops) ensures WasStored(ops, Stored(ops)[k]) {
      WasStoredLater(ops, Stored(ops)[k]);
    }
    forall k | k in Stored(ops) && k !in after ensures WasDoomed(ops, Stored(ops)[k]) {
      WasStoredLater(ops, Stored(ops)[k]);
      if k !in before {
        WasDoomedLater(ops, Stored(ops)[k]);
      }
    }
  }

  lemma PutKeepsMatch(ops: seq<CacheOp>, before: map<Key, Entry>, e: Entry)
    requires ops != [] && Matches(ops[..|ops| - 1], before) && Stores(ops[|ops| - 1], e)
    ensures Matches(ops, before[e.key := e])
  {
    assert Stored(ops) == Stored(ops[..|ops| - 1])[e.key := e];
    forall k | k in Stored(ops) ensures Stored(ops)[k].key == k && WasStored(ops, Stored(ops)[k]) {
      if k == e.key {
        assert Stores(ops[|ops| - 1], e);
      } else {
        WasStoredLater(ops, Stored(ops)[k]);
      }
    }
    forall k | k in Stored(ops) && k !in before[e.key := e] ensures WasDoomed(ops, Stored(ops)[k]) {
      WasDoomedLater(ops, Stored(ops)[k]);
    }
  }

  lemma StepKeepsMatch(capacity: nat, c: Cached, ops: seq<CacheOp>)
    requires ops != [] && Coherent(capacity, c) && Matches(ops[..|ops| - 1], c.disk)
    requires ops[|ops| - 1].Invalidate? ==> ops[|ops| - 1].path != ""
    ensures Matches(ops, Apply(capacity, c, ops[|ops| - 1]).disk)
  {
    match ops[|ops| - 1]
    case Get(key, files) => RemovalKeepsMatch(ops, c.disk, AfterGet(capacity, c, key, files).disk);
    case Put(key, e, files, now) => PutKeepsMatch(ops, c.disk, Stamped(e, key, files, now));
    case Invalidate(path, files) =>
      InvalidateRemovesStale(c, path, files);
      RemovalKeepsMatch(ops, c.disk, AfterInvalidate(c, path, files).disk);
    case Clear =>
  }

  lemma InvalidateRemovesStale(c: Cached, path: string, files: Files)
    requires (forall e :: e in c.mem ==> e.key in c.disk && c.disk[e.key] == e) && path != ""
    ensures var disk := AfterInvalidate(c, path, files).disk;
      && (forall k :: k in disk ==> k in c.disk && disk[k] == c.disk[k])
      && forall k :: k in c.disk && k !in disk ==> FindsStale(Invalidate(path, files), c.disk[k])
  {
    forall k | k in Outdated(c.mem, path, files) ensures k in c.disk && FindsStale(Invalidate(path, files), c.disk[k]) {
      var e :| e in c.mem && e.sourcePath == path && Mtime(files, path) != Some(e.sourceMtime) && e.key == k;
    }
  }

  /** A lookup is answered as from everything ever stored: what is missing on disk was found
      stale and stays stale. */
  lemma AnswerFromStored(ops: seq<CacheOp>, disk: map<Key, Entry>)
    requires ops != [] && NeverRevives(ops) && ops[|ops| - 1].Get?
    requires Matches(ops[..|ops| - 1], disk)
    ensures var last := ops[|ops| - 1];
      DiskAnswer(disk, last.key, last.files) == DiskAnswer(Stored(ops[..|ops| - 1]), last.key, last.files)
  {
    var front, last := ops[..|ops| - 1], ops[|ops| - 1];
    if last.key in Stored(front) && last.key !in disk {
      var e := Stored(front)[last.key];
      var i: nat, j: nat :| Doomed(front, e, i, j);
      assert Doomed(ops, e, i, j);
    }
  }

  /** With source files too, hits and misses do not depend on the capacity: they are the
      lookups whose key was stored since the last Clear by an entry that is fresh now. */
  lemma {:induction false} HitsAreFreshLookups(capacity: nat, ops: seq<CacheOp>)
    requires capacity >= 1 && NeverRevives(ops)
    ensures var c := Run(capacity, EMPTY, ops);
      && Coherent(capacity, c) && Matches(ops, c.disk)
      && c.hits == FreshLookups(ops) && c.hits + c.misses == Lookups(ops)
  {
    if ops != [] {
      var front, last := ops[..|ops| - 1], ops[|ops| - 1];
      NeverRevivesBefore(ops);
      HitsAreFreshLookups(capacity, front);
      var c := Run(capacity, EMPTY, front);
      StepStaysCoherent(capacity, c, last);
      StepKeepsMatch(capacity, c, ops);
      if last.Get? {
        GetRefinesDisk(capacity, c, last.key, last.files);
        AnswerFromStored(ops, c.disk);
      }
    }
  }

  // ---------- a file time that comes back ----------

  /** A lookup that finds an entry stale and one that finds it fresh again: the second hits
      exactly when the entry had not been evicted before the first. */
  lemma RevivalTellsMemory(capacity: nat, c: Cached, key: Key, first: Files, second: Files)
    requires Coherent(capacity, c) && key in c.disk
    requires !Fresh(c.disk[key], first) && Fresh(c.disk[key], second)
    ensures
      var once := AfterGet(capacity, c, key, first);
      AfterGet(capacity, once, key, second).hits == c.hits + if key in KeySet(c.mem) then 1 else 0
  {
    var once := AfterGet(capacity, c, key, first);
    WithoutKeys(c.mem, {key});
    if key in KeySet(c.mem) {
      assert Find(c.mem, key) == c.disk[key];
      assert key !in KeySet(once.mem) && once.disk == c.disk;
    } else {
      assert once.mem == c.mem && key !in once.disk;
    }
  }

  // ---------- the exact condition on a history of file times ----------

  /** What a store records of a path: its time, or none. */
  function Recorded(files: Files, path: string): int {
    match Mtime(files, path) case Some(t) => t case None => ZERO_TIME
  }

  /** Some path had the time recorded at i, has another one at j, and has it again at k. */
  ghost predicate ReturnsAt(h: seq<Files>, path: string, i: nat, j: nat, k: nat) {
    && i <= j <= k < |h|
    && Mtime(h[j], path) != Some(Recorded(h[i], path)) && Mtime(h[k], path) == Some(Recorded(h[i], path))
  }

  ghost predicate Returns(h: seq<Files>) {
    exists path, i: nat, j: nat, k: nat :: ReturnsAt(h, path, i, j, k)
  }

  /** The operation finds the files as given; Clear does not look at any. */
  predicate Sees(op: CacheOp, files: Files) {
    op.Clear? || op.files == files
  }

  /** The operations see the history in time order, leave it to the store to record file
      times, and do not invalidate the empty path. */
  ghost predicate Along(h: seq<Files>, ops: seq<CacheOp>, at: seq<nat>) {
    && |at| == |ops|
    && (forall i :: 0 <= i < |at| ==> at[i] < |h| && Sees(ops[i], h[at[i]]))
    && (forall i, j :: 0 <= i <= j < |at| ==> at[i] <= at[j])
    && (forall i :: 0 <= i < |ops| && ops[i].Put? ==> ops[i].entry.sourceMtime == ZERO_TIME)
    && forall i :: 0 <= i < |ops| && ops[i].Invalidate? ==> ops[i].path != ""
  }

  ghost predicate SameCounts(ops: seq<CacheOp>, small: nat, large: nat) {
    var a, b := Run(small, EMPTY, ops), Run(large, EMPTY, ops);
    a.hits == b.hits && a.misses == b.misses
  }

  /** Along this history hits and misses never tell one capacity from another. */
  ghost predicate CapacityFree(h: seq<Files>) {
    forall ops, at, small, large :: Along(h, ops, at) && small >= 1 && large >= 1 ==> SameCounts(ops, small, large)
  }

  lemma NoReturnNoRevival(h: seq<Files>, ops: seq<CacheOp>, at: seq<nat>)
    requires Along(h, ops, at) && !Returns(h)
    ensures NeverRevives(ops)
  {
    forall e: Entry, i: nat, j: nat, k: nat |
      Doomed(ops, e, i, j) && j < k < |ops| && ops[k].Get? && ops[k].key == e.key
      ensures !Fresh(e, ops[k].files)
    {
      assert Sees(ops[i], h[at[i]]) && Sees(ops[j], h[at[j]]) && Sees(ops[k], h[at[k]]);
      assert e.sourceMtime == Recorded(h[at[i]], e.sourcePath);
      assert !ReturnsAt(h, e.sourcePath, at[i], at[j], at[k]);
    }
  }

  /** Store, store another, find the first stale, and look it up again when its time is back. */
  function ReturningTrace(h: seq<Files>, path: string, i: nat, j: nat, k: nat, a: Key, b: Key): seq<CacheOp>
    requires i <= j <= k < |h|
  {
    [Put(a, Entry(a, "", 1, path, ZERO_TIME), h[i], 1), Put(b, Entry(b, "", 1, "", ZERO_TIME), h[i], 1),
     Get(a, h[j]), Get(a, h[k])]
  }

  /** So a file time that returns makes hits differ between capacities 1 and 2. */
  lemma ReturningTimeDependsOnCapacity(h: seq<Files>, path: string, i: nat, j: nat, k: nat, a: Key, b: Key)
    requires ReturnsAt(h, path, i, j, k) && a != b
    ensures var ops := ReturningTrace(h, path, i, j, k, a, b);
      && Along(h, ops, [i, i, j, k])
      && Run(1, EMPTY, ops).hits == 0 && Run(2, EMPTY, ops).hits == 1
  {
    TraceIsAlong(h, path, i, j, k, a, b);
    TraceHits(1, h, path, i, j, k, a, b);
    TraceHits(2, h, path, i, j, k, a, b);
  }

  lemma TraceIsAlong(h: seq<Files>, path: string, i: nat, j: nat, k: nat, a: Key, b: Key)
    requires i <= j <= k < |h|
    ensures Along(h, ReturningTrace(h, path, i, j, k, a, b), [i, i, j, k])
  {
    var ops, at := ReturningTrace(h, path, i, j, k, a, b), [i, i, j, k];
    assert Sees(ops[0], h[at[0]]) && Sees(ops[1], h[at[1]]) && Sees(ops[2], h[at[2]]) && Sees(ops[3], h[at[3]]);
  }

  lemma TraceHits(capacity: nat, h: seq<Files>, path: string, i: nat, j: nat, k: nat, a: Key, b: Key)
    requires ReturnsAt(h, path, i, j, k) && a != b && 1 <= capacity <= 2
    ensures Run(capacity, EMPTY, ReturningTrace(h, path, i, j, k, a, b)).hits == capacity - 1
  {
    var ops := ReturningTrace(h, path, i, j, k, a, b);
    var e, f := Stamped(ops[0].entry, a, h[i], 1), ops[1].entry;
    FourSteps(capacity, EMPTY, ops);
    TwoPuts(capacity, h[i], ops[0].entry, f);
    var mem := if capacity == 1 then [f] else [f, e];
    TwoKeys(mem, e, f);
    RevivalTellsMemory(capacity, Cached(mem, map[a := e, b := f], 0, 0), a, h[j], h[k]);
  }

  lemma TwoKeys(mem: seq<Entry>, e: Entry, f: Entry)
    requires (mem == [f] || mem == [f, e]) && e.key != f.key
    ensures DistinctKeys(mem) && (e.key in KeySet(mem) <==> |mem| == 2)
    ensures forall x :: x in mem ==> x == e || x == f
  {
    if |mem| == 2 {
      assert mem[1] == e && e in mem;
    }
  }

  lemma TwoPuts(capacity: nat, files: Files, e: Entry, f: Entry)
    requires e.key != f.key && e.createdAt != ZERO_TIME && f.createdAt != ZERO_TIME && f.sourcePath == ""
    requires 1 <= capacity <= 2
    ensures var s := Stamped(e, e.key, files, 1);
      Apply(capacity, Apply(capacity, EMPTY, Put(e.key, e, files, 1)), Put(f.key, f, files, 1)) ==
      Cached(if capacity == 1 then [f] else [f, s], map[e.key := s, f.key := f], 0, 0)
  {
    var s := Stamped(e, e.key, files, 1);
    assert KeySet([s]) == {e.key} by { assert s in [s]; }
    assert Bounded([s] + [], capacity) == [s];
    assert [f] + [s] == [f, s] && [f, s][..1] == [f];
  }

  /** Hits and misses are independent of the capacity along a history exactly when no recorded
      file time returns after the file had another one. */
  lemma CapacityFreeExactly(h: seq<Files>)
    ensures CapacityFree(h) <==> !Returns(h)
  {
    if Returns(h) {
      var path, i: nat, j: nat, k: nat :| ReturnsAt(h, path, i, j, k);
      ReturningTimeDependsOnCapacity(h, path, i, j, k, Key("a"), Key("b"));
      assert !SameCounts(ReturningTrace(h, path, i, j, k, Key("a"), Key("b")), 1, 2);
    } else {
      forall ops, at, small, large | Along(h, ops, at) && small >= 1 && large >= 1
        ensures SameCounts(ops, small, large)
      {
        NoReturnNoRevival(h, ops, at);
        HitsAreFreshLookups(small, ops);
        HitsAreFreshLookups(large, ops);
      }
    }
  }

  lemma FourSteps(capacity: nat, start: Cached, ops: seq<CacheOp>)
    requires |ops| == 4
    ensures Run(capacity, start, ops) ==
      Apply(capacity, Apply(capacity, Apply(capacity, Apply(capacity, start, ops[0]), ops[1]), ops[2]), ops[3])
  {
    assert ops[..3][..2] == ops[..2] && ops[..2][..1] == ops[..1] && ops[..1][..0] == [];
    assert Run(capacity, start, ops[..1]) == Apply(capacity, start, ops[0]);
    assert Run(capacity, start, ops[..2]) == Apply(capacity, Run(capacity, start, ops[..1]), ops[1]);
    assert Run(capacity, start, ops[..3]) == Apply(capacity, Run(capacity, start, ops[..2]), ops[2]);
  }
}
