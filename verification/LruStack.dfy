/** The LRU stack property: without source files, the list in memory is exactly the most
    recently used keys, cut at the capacity, so hits and misses do not depend on it. */
module LruStack {
  import opened CacheSpec
  import opened Sequences

  /** No entry has a source file, and no call invalidates the empty path. */
  predicate SourceFree(op: CacheOp) {
    match op
    case Put(_, e, _, _) => e.sourcePath == ""
    case Invalidate(path, _) => path != ""
    case _ => true
  }

  predicate AllSourceFree(ops: seq<CacheOp>) {
    forall i :: 0 <= i < |ops| ==> SourceFree(ops[i])
  }

  // ---------- the reference: uses and how recent they are ----------

  /** How one call extends the keys stored or found, in order, since the last Clear. */
  function UsesAfter(uses: seq<Key>, op: CacheOp): seq<Key> {
    match op
    case Get(key, _) => if key in uses then uses + [key] else uses
    case Put(key, _, _, _) => uses + [key]
    case Invalidate(_, _) => uses
    case Clear => []
  }

  function UsesFrom(uses: seq<Key>, ops: seq<CacheOp>): seq<Key> {
    if ops == [] then uses else UsesAfter(UsesFrom(uses, ops[..|ops| - 1]), ops[|ops| - 1])
  }

  function Uses(ops: seq<CacheOp>): seq<Key> {
    UsesFrom([], ops)
  }

  /** Is this a lookup of a key stored since the last Clear? */
  predicate Finds(uses: seq<Key>, op: CacheOp) {
    op.Get? && op.key in uses
  }

  function FoundFrom(uses: seq<Key>, ops: seq<CacheOp>): nat {
    if ops == [] then 0
    else
      FoundFrom(uses, ops[..|ops| - 1]) +
      if Finds(UsesFrom(uses, ops[..|ops| - 1]), ops[|ops| - 1]) then 1 else 0
  }

  function Found(ops: seq<CacheOp>): nat {
    FoundFrom([], ops)
  }

  function Minus(keys: seq<Key>, k: Key): seq<Key> {
    if keys == [] then []
    else if keys[|keys| - 1] == k then Minus(keys[..|keys| - 1], k)
    else Minus(keys[..|keys| - 1], k) + [keys[|keys| - 1]]
  }

  /** The distinct keys used, most recent use first. */
  function MostRecent(uses: seq<Key>): seq<Key> {
    if uses == [] then []
    else [uses[|uses| - 1]] + Minus(MostRecent(uses[..|uses| - 1]), uses[|uses| - 1])
  }

  function LastUse(uses: seq<Key>, k: Key): (i: nat)
    requires k in uses
    ensures i < |uses| && uses[i] == k && k !in uses[i + 1..]
  {
    if uses[|uses| - 1] == k then |uses| - 1
    else
      assert uses == uses[..|uses| - 1] + [uses[|uses| - 1]];
      var i := LastUse(uses[..|uses| - 1], k);
      assert uses[i + 1..] == uses[..|uses| - 1][i + 1..] + [uses[|uses| - 1]];
      i
  }

  lemma {:induction false} MinusMembers(keys: seq<Key>, k: Key)
    ensures forall x :: x in Minus(keys, k) <==> x in keys && x != k
    ensures Distinct(keys) ==> Distinct(Minus(keys, k))
  {
    if keys != [] {
      var front, last := keys[..|keys| - 1], keys[|keys| - 1];
      MinusMembers(front, k);
      assert forall x :: x in keys <==> x in front || x == last;
      if Distinct(keys) {
        assert last !in front;
        assert last !in Minus(front, k);
      }
    }
  }

  lemma {:induction false} MinusAt(keys: seq<Key>, i: nat)
    requires Distinct(keys) && i < |keys|
    ensures Minus(keys, keys[i]) == keys[..i] + keys[i + 1..]
    decreases |keys|
  {
    var n := |keys| - 1;
    var front := keys[..n];
    if i == n {
      MinusAbsent(front, keys[n]);
      assert keys[i + 1..] == [];
    } else {
      MinusAt(front, i);
      assert keys[..i] == front[..i];
      assert keys[i + 1..] == front[i + 1..] + [keys[n]];
    }
  }

  lemma {:induction false} MinusAbsent(keys: seq<Key>, k: Key)
    requires k !in keys
    ensures Minus(keys, k) == keys
  {
    if keys != [] {
      MinusAbsent(keys[..|keys| - 1], k);
      assert keys == keys[..|keys| - 1] + [keys[|keys| - 1]];
    }
  }

  lemma PrependDistinct(k: Key, keys: seq<Key>)
    requires k !in keys && Distinct(keys)
    ensures Distinct([k] + keys)
    ensures forall x :: x in [k] + keys <==> x == k || x in keys
  {
  }

  lemma {:induction false} MostRecentMembers(uses: seq<Key>)
    ensures Distinct(MostRecent(uses))
    ensures forall k :: k in MostRecent(uses) <==> k in uses
  {
    if uses != [] {
      var front, last := uses[..|uses| - 1], uses[|uses| - 1];
      MostRecentMembers(front);
      MinusMembers(MostRecent(front), last);
      assert forall k :: k in uses <==> k in front || k == last;
      PrependDistinct(last, Minus(MostRecent(front), last));
    }
  }

  lemma LastUseOfOlder(uses: seq<Key>, k: Key)
    requires uses != [] && k in uses[..|uses| - 1] && k != uses[|uses| - 1]
    ensures k in uses && LastUse(uses, k) == LastUse(uses[..|uses| - 1], k)
  {
  }

  /** MostRecent orders keys by their last use. */
  lemma {:induction false} MostRecentByLastUse(uses: seq<Key>, i: nat, j: nat)
    requires i < j < |MostRecent(uses)|
    ensures MostRecent(uses)[i] in uses && MostRecent(uses)[j] in uses
    ensures LastUse(uses, MostRecent(uses)[i]) > LastUse(uses, MostRecent(uses)[j])
    decreases |uses|
  {
    if i == 0 {
      NewestFirst(uses);
      OlderEntry(uses, j);
    } else {
      var a, b := OlderPair(uses, i, j);
      MostRecentByLastUse(uses[..|uses| - 1], a, b);
    }
  }

  lemma NewestFirst(uses: seq<Key>)
    requires uses != []
    ensures MostRecent(uses)[0] in uses && LastUse(uses, MostRecent(uses)[0]) == |uses| - 1
  {
  }

  /** Two older keys stand in the same order as before the last use. */
  lemma OlderPair(uses: seq<Key>, i: nat, j: nat) returns (a: nat, b: nat)
    requires 0 < i < j < |MostRecent(uses)|
    ensures var x, y, front := MostRecent(uses)[i], MostRecent(uses)[j], uses[..|uses| - 1];
      && a < b < |MostRecent(front)| && MostRecent(front)[a] == x && MostRecent(front)[b] == y
      && x in front && x in uses && LastUse(uses, x) == LastUse(front, x)
      && y in front && y in uses && LastUse(uses, y) == LastUse(front, y)
  {
    OlderEntry(uses, i);
    OlderEntry(uses, j);
    a, b := MinusIndex(MostRecent(uses[..|uses| - 1]), uses[|uses| - 1], i - 1, j - 1);
  }

  /** Past the first position stands a key whose last use came earlier. */
  lemma OlderEntry(uses: seq<Key>, j: nat)
    requires 0 < j < |MostRecent(uses)|
    ensures var k, front := MostRecent(uses)[j], uses[..|uses| - 1];
      && k == Minus(MostRecent(front), uses[|uses| - 1])[j - 1]
      && k in front && k in uses && LastUse(uses, k) == LastUse(front, k) < |uses| - 1
  {
    var front, last := uses[..|uses| - 1], uses[|uses| - 1];
    var rest := Minus(MostRecent(front), last);
    MinusMembers(MostRecent(front), last);
    MostRecentMembers(front);
    assert rest[j - 1] in rest;
    LastUseOfOlder(uses, rest[j - 1]);
  }

  /** Minus keeps the order of what is left. */
  lemma {:induction false} MinusIndex(keys: seq<Key>, k: Key, i: nat, j: nat) returns (a: nat, b: nat)
    requires i < j < |Minus(keys, k)|
    ensures a < b < |keys| && keys[a] == Minus(keys, k)[i] && keys[b] == Minus(keys, k)[j]
  {
    var front, last := keys[..|keys| - 1], keys[|keys| - 1];
    if last != k && j == |Minus(keys, k)| - 1 {
      b := |keys| - 1;
      assert Minus(keys, k)[i] in Minus(front, k);
      MinusMembers(front, k);
      a :| 0 <= a < |front| && front[a] == Minus(keys, k)[i];
    } else {
      a, b := MinusIndex(front, k, i, j);
    }
  }

  // ---------- cutting the list at the capacity ----------

  /** Using a key does the same to the cut list as to the whole list. */
  lemma CutCommutes(keys: seq<Key>, k: Key, capacity: nat)
    requires Distinct(keys) && capacity >= 1
    ensures k in Bounded(keys, capacity) ==>
      Bounded([k] + Minus(keys, k), capacity) == [k] + Minus(Bounded(keys, capacity), k)
    ensures k !in Bounded(keys, capacity) ==>
      Bounded([k] + Minus(keys, k), capacity) == Bounded([k] + Bounded(keys, capacity), capacity)
  {
    if k in Bounded(keys, capacity) {
      var i :| 0 <= i < |Bounded(keys, capacity)| && Bounded(keys, capacity)[i] == k;
      CutMoves(keys, i, capacity);
    } else if k in keys {
      var i :| 0 <= i < |keys| && keys[i] == k;
      assert forall x :: 0 <= x < |Bounded(keys, capacity)| ==> keys[x] in Bounded(keys, capacity);
      MinusAt(keys, i);
      assert Bounded([k] + Minus(keys, k), capacity) == [k] + keys[..capacity - 1];
    } else {
      MinusAbsent(keys, k);
    }
  }

  lemma CutMoves(keys: seq<Key>, i: nat, capacity: nat)
    requires Distinct(keys) && i < |Bounded(keys, capacity)|
    ensures Bounded([keys[i]] + Minus(keys, keys[i]), capacity) == [keys[i]] + Minus(Bounded(keys, capacity), keys[i])
  {
    MinusAt(keys, i);
    MinusAt(Bounded(keys, capacity), i);
    CutShifts(keys, i, capacity);
  }

  lemma CutShifts(keys: seq<Key>, i: nat, capacity: nat)
    requires i < |Bounded(keys, capacity)|
    ensures Bounded([keys[i]] + (keys[..i] + keys[i + 1..]), capacity) ==
      [keys[i]] + (Bounded(keys, capacity)[..i] + Bounded(keys, capacity)[i + 1..])
  {
    var left := Bounded([keys[i]] + (keys[..i] + keys[i + 1..]), capacity);
    var right := [keys[i]] + (Bounded(keys, capacity)[..i] + Bounded(keys, capacity)[i + 1..]);
    assert |left| == |right|;
    assert forall j :: 0 <= j < |left| ==> left[j] == right[j];
  }

  // ---------- the theorem ----------

  function KeysOf(mem: seq<Entry>): seq<Key> {
    seq(|mem|, i requires 0 <= i < |mem| => mem[i].key)
  }

  lemma KeysOfMembers(mem: seq<Entry>)
    ensures forall k :: k in KeysOf(mem) <==> k in KeySet(mem)
    ensures DistinctKeys(mem) ==> Distinct(KeysOf(mem))
  {
    forall k | k in KeySet(mem) ensures k in KeysOf(mem) {
      var i :| 0 <= i < |mem| && mem[i].key == k;
      assert KeysOf(mem)[i] == k;
    }
  }

  lemma {:induction false} KeysOfWithout(mem: seq<Entry>, k: Key)
    ensures KeysOf(Without(mem, {k})) == Minus(KeysOf(mem), k)
  {
    if mem != [] {
      KeysOfWithout(mem[..|mem| - 1], k);
      assert KeysOf(mem)[..|mem| - 1] == KeysOf(mem[..|mem| - 1]);
    }
  }

  /** The cache at one capacity, seen against the uses and lookups so far. */
  ghost predicate Mirrors(capacity: nat, c: Cached, uses: seq<Key>, found: nat, lookups: nat) {
    && Coherent(capacity, c)
    && (forall k :: k in c.disk <==> k in uses)
    && (forall k :: k in c.disk ==> c.disk[k].sourcePath == "")
    && KeysOf(c.mem) == Bounded(MostRecent(uses), capacity)
    && c.hits == found
    && c.hits + c.misses == lookups
  }

  lemma MoveKeepsMirror(capacity: nat, mem: seq<Entry>, e: Entry, uses: seq<Key>)
    requires capacity >= 1 && e.key in KeySet(mem)
    requires KeysOf(mem) == Bounded(MostRecent(uses), capacity)
    ensures KeysOf([e] + Without(mem, {e.key})) == Bounded(MostRecent(uses + [e.key]), capacity)
  {
    assert (uses + [e.key])[..|uses|] == uses;
    MostRecentMembers(uses);
    KeysOfMembers(mem);
    CutCommutes(MostRecent(uses), e.key, capacity);
    KeysOfWithout(mem, e.key);
    KeysOfPrepended(e, Without(mem, {e.key}), capacity);
  }

  lemma InsertKeepsMirror(capacity: nat, mem: seq<Entry>, e: Entry, uses: seq<Key>)
    requires capacity >= 1 && e.key !in KeySet(mem)
    requires KeysOf(mem) == Bounded(MostRecent(uses), capacity)
    ensures KeysOf(Bounded([e] + mem, capacity)) == Bounded(MostRecent(uses + [e.key]), capacity)
  {
    assert (uses + [e.key])[..|uses|] == uses;
    MostRecentMembers(uses);
    KeysOfMembers(mem);
    CutCommutes(MostRecent(uses), e.key, capacity);
    KeysOfPrepended(e, mem, capacity);
  }

  lemma KeysOfPrepended(e: Entry, mem: seq<Entry>, capacity: nat)
    ensures KeysOf([e] + mem) == [e.key] + KeysOf(mem)
    ensures KeysOf(Bounded([e] + mem, capacity)) == Bounded([e.key] + KeysOf(mem), capacity)
  {
    assert KeysOf([e] + mem) == [e.key] + KeysOf(mem);
  }

  lemma FoundKeepsMirror(capacity: nat, c: Cached, uses: seq<Key>, found: nat, lookups: nat, key: Key, files: Files)
    requires capacity >= 1 && Mirrors(capacity, c, uses, found, lookups) && key in uses
    ensures Mirrors(capacity, AfterGet(capacity, c, key, files), uses + [key], found + 1, lookups + 1)
  {
    StepStaysCoherent(capacity, c, Get(key, files));
    var e := c.disk[key];
    if key in KeySet(c.mem) {
      assert Find(c.mem, key) in c.mem && Find(c.mem, key) == e;
      MoveKeepsMirror(capacity, c.mem, e, uses);
    } else {
      InsertKeepsMirror(capacity, c.mem, e, uses);
    }
    assert forall k :: k in uses + [key] <==> k in uses || k == key;
    assert AfterGet(capacity, c, key, files).disk == c.disk;
  }

  lemma MissKeepsMirror(capacity: nat, c: Cached, uses: seq<Key>, found: nat, lookups: nat, key: Key, files: Files)
    requires Mirrors(capacity, c, uses, found, lookups) && key !in uses
    ensures Mirrors(capacity, AfterGet(capacity, c, key, files), uses, found, lookups + 1)
  {
    assert forall e :: e in c.mem ==> e.key in c.disk;
    assert AfterGet(capacity, c, key, files) == Missed(c);
  }

  lemma PutKeepsMirror(capacity: nat, c: Cached, uses: seq<Key>, found: nat, lookups: nat, e: Entry)
    requires capacity >= 1 && Mirrors(capacity, c, uses, found, lookups) && e.sourcePath == ""
    requires Coherent(capacity, AfterPut(capacity, c, e))
    ensures Mirrors(capacity, AfterPut(capacity, c, e), uses + [e.key], found, lookups)
  {
    if e.key in KeySet(c.mem) {
      MoveKeepsMirror(capacity, c.mem, e, uses);
    } else {
      InsertKeepsMirror(capacity, c.mem, e, uses);
    }
    assert forall k :: k in uses + [e.key] <==> k in uses || k == e.key;
  }

  lemma InvalidateKeepsAll(c: Cached, path: string, files: Files)
    requires path != "" && forall e :: e in c.mem ==> e.sourcePath == ""
    ensures AfterInvalidate(c, path, files) == c
  {
    assert Outdated(c.mem, path, files) == {};
    WithoutNone(c.mem, {});
    assert c.disk - {} == c.disk;
  }

  lemma StepKeepsMirror(capacity: nat, c: Cached, uses: seq<Key>, found: nat, lookups: nat, op: CacheOp)
    requires capacity >= 1 && SourceFree(op) && Mirrors(capacity, c, uses, found, lookups)
    ensures Mirrors(capacity, Apply(capacity, c, op), UsesAfter(uses, op),
                    found + (if Finds(uses, op) then 1 else 0), lookups + if op.Get? then 1 else 0)
  {
    match op {
      case Get(key, files) =>
        if key in uses {
          FoundKeepsMirror(capacity, c, uses, found, lookups, key, files);
        } else {
          MissKeepsMirror(capacity, c, uses, found, lookups, key, files);
        }
      case Put(key, e, files, now) =>
        StepStaysCoherent(capacity, c, op);
        PutKeepsMirror(capacity, c, uses, found, lookups, Stamped(e, key, files, now));
      case Invalidate(path, files) =>
        InvalidateKeepsAll(c, path, files);
      case Clear =>
        ClearKeepsMirror(capacity, c, uses, found, lookups);
    }
  }

  lemma ClearKeepsMirror(capacity: nat, c: Cached, uses: seq<Key>, found: nat, lookups: nat)
    requires Mirrors(capacity, c, uses, found, lookups)
    ensures Mirrors(capacity, AfterClear(c), [], found, lookups)
  {
  }

  lemma {:induction false} RunKeepsMirror(
    capacity: nat, c: Cached, uses: seq<Key>, found: nat, lookups: nat, ops: seq<CacheOp>)
    requires capacity >= 1 && AllSourceFree(ops) && Mirrors(capacity, c, uses, found, lookups)
    ensures Mirrors(capacity, Run(capacity, c, ops), UsesFrom(uses, ops),
                    found + FoundFrom(uses, ops), lookups + Lookups(ops))
  {
    if ops != [] {
      var front := ops[..|ops| - 1];
      RunKeepsMirror(capacity, c, uses, found, lookups, front);
      StepKeepsMirror(capacity, Run(capacity, c, front), UsesFrom(uses, front),
                      found + FoundFrom(uses, front), lookups + Lookups(front), ops[|ops| - 1]);
    }
  }

  /** From an empty cache without source files, the list at any capacity is the most recently
      used distinct keys cut there, and hits and misses do not depend on the capacity. */
  lemma StackProperty(capacity: nat, ops: seq<CacheOp>)
    requires capacity >= 1 && AllSourceFree(ops)
    ensures Mirrors(capacity, Run(capacity, EMPTY, ops), Uses(ops), Found(ops), Lookups(ops))
  {
    RunKeepsMirror(capacity, EMPTY, [], 0, 0, ops);
  }

  /** A larger cache holds what a smaller one holds, in the same order, followed by older
      keys, and both have the same hits and misses. */
  lemma LargerCacheExtends(small: nat, large: nat, ops: seq<CacheOp>)
    requires 1 <= small <= large && AllSourceFree(ops)
    ensures
      var a, b := Run(small, EMPTY, ops), Run(large, EMPTY, ops);
      && KeysOf(a.mem) <= KeysOf(b.mem)
      && a.hits == b.hits && a.misses == b.misses
  {
    StackProperty(small, ops);
    StackProperty(large, ops);
  }

  // ---------- the empty path ----------

  /** Entries without a source file match the empty path, and the ones still in memory lose
      their files. */
  lemma EmptyPathDropsMemory(c: Cached, files: Files)
    requires forall x :: x in c.mem ==> x.sourcePath == ""
    ensures AfterInvalidate(c, "", files) == c.(mem := [], disk := c.disk - KeySet(c.mem))
  {
    assert Outdated(c.mem, "", files) == KeySet(c.mem);
    WithoutAll(c.mem, KeySet(c.mem));
  }

  lemma {:induction false} WithoutAll(mem: seq<Entry>, keys: set<Key>)
    requires KeySet(mem) <= keys
    ensures Without(mem, keys) == []
  {
    if mem != [] {
      assert mem[|mem| - 1].key in KeySet(mem);
      WithoutAll(mem[..|mem| - 1], keys);
    }
  }

  /** A run without source files followed by an invalidation of the empty path. */
  function Emptied(capacity: nat, ops: seq<CacheOp>, files: Files): Cached {
    Run(capacity, EMPTY, ops + [Invalidate("", files)])
  }

  /** What is left is on disk alone: the keys that had been evicted. */
  lemma EmptiedKeepsEvicted(capacity: nat, ops: seq<CacheOp>, files: Files)
    requires capacity >= 1 && AllSourceFree(ops)
    ensures var c := Emptied(capacity, ops, files);
      && c.mem == [] && c.hits == Found(ops) && c.hits + c.misses == Lookups(ops)
      && (forall k :: k in c.disk <==> k in Uses(ops) && k !in Bounded(MostRecent(Uses(ops)), capacity))
      && forall k :: k in c.disk ==> c.disk[k].key == k && c.disk[k].sourcePath == ""
  {
    var c := Run(capacity, EMPTY, ops);
    assert (ops + [Invalidate("", files)])[..|ops|] == ops;
    StackProperty(capacity, ops);
    KeysOfMembers(c.mem);
    forall x | x in c.mem ensures x.sourcePath == "" {
      assert x.key in c.disk && c.disk[x.key] == x;
    }
    EmptyPathDropsMemory(c, files);
  }

  ghost predicate HitsAgree(small: nat, a: Cached, large: nat, b: Cached) {
    forall more :: AllSourceFree(more) ==> Run(small, a, more).hits == Run(large, b, more).hits
  }

  /** After an invalidation of the empty path two capacities keep agreeing on hits exactly
      when the smaller one had evicted nothing. */
  lemma EmptyPathExactly(small: nat, large: nat, ops: seq<CacheOp>, files: Files)
    requires 1 <= small < large && AllSourceFree(ops)
    ensures HitsAgree(small, Emptied(small, ops, files), large, Emptied(large, ops, files)) <==>
      |MostRecent(Uses(ops))| <= small
  {
    var a, b := Emptied(small, ops, files), Emptied(large, ops, files);
    EmptiedKeepsEvicted(small, ops, files);
    EmptiedKeepsEvicted(large, ops, files);
    MostRecentMembers(Uses(ops));
    if |MostRecent(Uses(ops))| <= small {
      forall more | AllSourceFree(more) ensures Run(small, a, more).hits == Run(large, b, more).hits {
        RunKeepsMirror(small, a, [], Found(ops), Lookups(ops), more);
        RunKeepsMirror(large, b, [], Found(ops), Lookups(ops), more);
      }
    } else {
      EvictedKeyTells(small, large, ops, files);
    }
  }

  /** The first key the smaller cache evicted is found there and lost in the larger one. */
  lemma EvictedKeyTells(small: nat, large: nat, ops: seq<CacheOp>, files: Files)
    requires 1 <= small < large && AllSourceFree(ops) && |MostRecent(Uses(ops))| > small
    ensures !HitsAgree(small, Emptied(small, ops, files), large, Emptied(large, ops, files))
  {
    var a, b := Emptied(small, ops, files), Emptied(large, ops, files);
    EmptiedKeepsEvicted(small, ops, files);
    EmptiedKeepsEvicted(large, ops, files);
    var order := MostRecent(Uses(ops));
    MostRecentMembers(Uses(ops));
    var k := order[small];
    assert k in Uses(ops) && k !in Bounded(order, small);
    assert Bounded(order, large)[small] == k;
    var more := [Get(k, files)];
    assert more[..0] == [];
    assert Run(small, a, more) == AfterGet(small, a, k, files) && Run(large, b, more) == AfterGet(large, b, k, files);
    assert Run(small, a, more).hits == a.hits + 1 && Run(large, b, more).hits == b.hits;
  }
}
