/** The two-level token cache on values: a list of entries in memory, most recently used
    first and at most `capacity` long, over a disk store with one file per key. */
module CacheSpec {
  import opened Sequences
  import opened Wrappers

  datatype Key = Key(text: string)

  const ZERO_TIME := 0

  datatype Entry = Entry(key: Key, payload: string, createdAt: int, sourcePath: string, sourceMtime: int)

  /** Modification times of the files that can be examined. */
  type Files = map<string, int>

  function Mtime(files: Files, path: string): Option<int> {
    if path != "" && path in files then Some(files[path]) else None
  }

  /** An entry without a source file never goes stale. */
  predicate Fresh(e: Entry, files: Files) {
    e.sourcePath == "" || Mtime(files, e.sourcePath) == Some(e.sourceMtime)
  }

  datatype Cached = Cached(mem: seq<Entry>, disk: map<Key, Entry>, hits: nat, misses: nat)

  const EMPTY := Cached([], map[], 0, 0)

  // ---------- the list in memory ----------

  function KeySet(mem: seq<Entry>): set<Key> {
    set e | e in mem :: e.key
  }

  predicate DistinctKeys(mem: seq<Entry>) {
    forall i, j :: 0 <= i < j < |mem| ==> mem[i].key != mem[j].key
  }

  function Without(mem: seq<Entry>, keys: set<Key>): seq<Entry> {
    if mem == [] then []
    else if mem[|mem| - 1].key in keys then Without(mem[..|mem| - 1], keys)
    else Without(mem[..|mem| - 1], keys) + [mem[|mem| - 1]]
  }

  function Find(mem: seq<Entry>, key: Key): (e: Entry)
    requires key in KeySet(mem)
    ensures e in mem && e.key == key
  {
    if mem[|mem| - 1].key == key then mem[|mem| - 1]
    else
      assert forall e :: e in mem ==> e in mem[..|mem| - 1] || e == mem[|mem| - 1];
      Find(mem[..|mem| - 1], key)
  }

  // ---------- operations ----------

  function Hit(c: Cached, mem: seq<Entry>): Cached {
    c.(mem := mem, hits := c.hits + 1)
  }

  function Missed(c: Cached): Cached {
    c.(misses := c.misses + 1)
  }

  function AfterGet(capacity: nat, c: Cached, key: Key, files: Files): Cached {
    if key in KeySet(c.mem) then
      var e := Find(c.mem, key);
      if Fresh(e, files) then Hit(c, [e] + Without(c.mem, {key}))
      else Missed(c.(mem := Without(c.mem, {key})))
    else if key !in c.disk then Missed(c)
    else if !Fresh(c.disk[key], files) then Missed(c.(disk := c.disk - {key}))
    else Hit(c, Bounded([c.disk[key]] + c.mem, capacity))
  }

  function Answer(c: Cached, key: Key, files: Files): Option<Entry> {
    if key in KeySet(c.mem) then
      if Fresh(Find(c.mem, key), files) then Some(Find(c.mem, key)) else None
    else if key in c.disk && Fresh(c.disk[key], files) then Some(c.disk[key])
    else None
  }

  /** What Put stores: its own key, a creation time, and the source file's time as it is now. */
  function Stamped(e: Entry, key: Key, files: Files, now: int): Entry {
    var created := if e.createdAt == ZERO_TIME then now else e.createdAt;
    var mtime :=
      if e.sourcePath != "" && e.sourceMtime == ZERO_TIME then
        match Mtime(files, e.sourcePath) case Some(t) => t case None => ZERO_TIME
      else e.sourceMtime;
    e.(key := key, createdAt := created, sourceMtime := mtime)
  }

  function AfterPut(capacity: nat, c: Cached, e: Entry): Cached {
    c.(mem := if e.key in KeySet(c.mem) then [e] + Without(c.mem, {e.key}) else Bounded([e] + c.mem, capacity),
       disk := c.disk[e.key := e])
  }

  /** Entries in memory made from `path` whose recorded time is not the file's time. */
  function Outdated(mem: seq<Entry>, path: string, files: Files): set<Key> {
    set e | e in mem && e.sourcePath == path && Mtime(files, path) != Some(e.sourceMtime) :: e.key
  }

  function AfterInvalidate(c: Cached, path: string, files: Files): Cached {
    var gone := Outdated(c.mem, path, files);
    c.(mem := Without(c.mem, gone), disk := c.disk - gone)
  }

  function AfterClear(c: Cached): Cached {
    c.(mem := [], disk := map[])
  }

  // ---------- list lemmas ----------

  lemma {:induction false} WithoutNone(mem: seq<Entry>, keys: set<Key>)
    requires KeySet(mem) !! keys
    ensures Without(mem, keys) == mem
  {
    if mem != [] {
      WithoutNone(mem[..|mem| - 1], keys);
      assert mem[|mem| - 1] in mem && mem[|mem| - 1].key in KeySet(mem);
      assert mem == mem[..|mem| - 1] + [mem[|mem| - 1]];
    }
  }

  lemma {:induction false} WithoutMembers(mem: seq<Entry>, keys: set<Key>)
    ensures forall e :: e in Without(mem, keys) <==> e in mem && e.key !in keys
    ensures |Without(mem, keys)| <= |mem|
  {
    if mem != [] {
      var front, last := mem[..|mem| - 1], mem[|mem| - 1];
      WithoutMembers(front, keys);
      assert forall e :: e in mem <==> e in front || e == last;
    }
  }

  lemma WithoutKeys(mem: seq<Entry>, keys: set<Key>)
    ensures KeySet(Without(mem, keys)) == KeySet(mem) - keys
  {
    WithoutMembers(mem, keys);
  }

  lemma {:induction false} WithoutDistinct(mem: seq<Entry>, keys: set<Key>)
    requires DistinctKeys(mem)
    ensures DistinctKeys(Without(mem, keys))
  {
    if mem != [] {
      var front, last := mem[..|mem| - 1], mem[|mem| - 1];
      WithoutDistinct(front, keys);
      WithoutMembers(front, keys);
      assert forall i :: 0 <= i < |front| ==> front[i].key != last.key;
      assert forall e :: e in Without(front, keys) ==> e in front;
    }
  }

  lemma {:induction false} WithoutTwice(mem: seq<Entry>, a: set<Key>, b: set<Key>)
    ensures Without(Without(mem, a), b) == Without(mem, a + b)
  {
    if mem != [] {
      var front, last := mem[..|mem| - 1], mem[|mem| - 1];
      WithoutTwice(front, a, b);
      if last.key !in a {
        assert Without(mem, a)[..|Without(mem, a)| - 1] == Without(front, a);
      }
    }
  }

  /** Removing one key takes out one position. */
  lemma {:induction false} WithoutOne(mem: seq<Entry>, i: nat)
    requires DistinctKeys(mem) && i < |mem|
    ensures Without(mem, {mem[i].key}) == mem[..i] + mem[i + 1..]
    decreases |mem|
  {
    var n := |mem| - 1;
    var front := mem[..n];
    if i == n {
      assert forall e :: e in front ==> e.key != mem[n].key;
      WithoutNone(front, {mem[n].key});
      assert mem[i + 1..] == [];
    } else {
      WithoutOne(front, i);
      assert mem[..i] == front[..i];
      assert mem[i + 1..] == front[i + 1..] + [mem[n]];
    }
  }

  lemma FindAt(mem: seq<Entry>, i: nat)
    requires DistinctKeys(mem) && i < |mem|
    ensures mem[i].key in KeySet(mem) && Find(mem, mem[i].key) == mem[i]
  {
    assert mem[i] in mem;
  }

  // ---------- refinement of the disk store ----------

  /** Memory only repeats what the disk holds, each key once, within the capacity. */
  ghost predicate Coherent(capacity: nat, c: Cached) {
    && |c.mem| <= capacity
    && DistinctKeys(c.mem)
    && (forall e :: e in c.mem ==> e.key in c.disk && c.disk[e.key] == e)
    && forall k :: k in c.disk ==> c.disk[k].key == k
  }

  /** An mtime-filtered lookup in the disk store alone. */
  function DiskAnswer(disk: map<Key, Entry>, key: Key, files: Files): Option<Entry> {
    if key in disk && Fresh(disk[key], files) then Some(disk[key]) else None
  }

  /** Whatever has been evicted, Get answers what the disk store alone would answer. */
  lemma GetRefinesDisk(capacity: nat, c: Cached, key: Key, files: Files)
    requires Coherent(capacity, c)
    ensures Answer(c, key, files) == DiskAnswer(c.disk, key, files)
    ensures AfterGet(capacity, c, key, files).hits - c.hits == (if Answer(c, key, files).Some? then 1 else 0)
    ensures AfterGet(capacity, c, key, files).misses - c.misses == (if Answer(c, key, files).Some? then 0 else 1)
  {
  }

  /** A lookup by the files themselves: an entry on disk answers if it has no source file, or
      if that file exists with the recorded time. */
  lemma GetByFiles(capacity: nat, c: Cached, key: Key, files: Files)
    requires Coherent(capacity, c)
    ensures
      var answer := Answer(c, key, files);
      if key in c.disk && (c.disk[key].sourcePath == "" ||
           (c.disk[key].sourcePath in files && files[c.disk[key].sourcePath] == c.disk[key].sourceMtime))
      then answer == Some(c.disk[key])
      else answer == None
  {
    GetRefinesDisk(capacity, c, key, files);
  }

  /** What a lookup leaves: a hit is in memory in front of the others; a stale entry goes from
      memory if it was there and from disk otherwise; the other keys keep their entries. */
  lemma GetLeaves(capacity: nat, c: Cached, key: Key, files: Files)
    requires Coherent(capacity, c) && capacity >= 1
    ensures
      var c' := AfterGet(capacity, c, key, files);
      if Answer(c, key, files).Some? then
        && c'.disk == c.disk && c'.mem != [] && c'.mem[0] == c.disk[key]
        && (forall e :: e in c'.mem ==> e == c.disk[key] || e in c.mem)
      else
        && key !in KeySet(c'.mem)
        && (forall e :: e in c'.mem <==> e in c.mem && e.key != key)
        && c'.disk == if key in KeySet(c.mem) then c.disk else c.disk - {key}
  {
    GetRefinesDisk(capacity, c, key, files);
    WithoutMembers(c.mem, {key});
    WithoutKeys(c.mem, {key});
    if key in KeySet(c.mem) {
      assert Find(c.mem, key) == c.disk[key];
    } else {
      assert forall e :: e in c.mem ==> e.key != key;
      if key in c.disk {
        InsertKeepsList(c.mem, c.disk[key], capacity);
      }
    }
  }

  /** A stored entry answers later lookups with its payload as long as its source file is
      unchanged: always without one, and otherwise while the file exists with the time recorded,
      which is the one it had at the store unless the caller gave another. */
  lemma PutThenGet(capacity: nat, c: Cached, key: Key, e: Entry, files: Files, now: int, later: Files)
    requires Coherent(capacity, c) && capacity >= 1
    ensures
      var answer, path := Answer(AfterPut(capacity, c, Stamped(e, key, files, now)), key, later), e.sourcePath;
      && (answer.Some? ==>
            && answer.value.payload == e.payload && answer.value.key == key && answer.value.sourcePath == path
            && answer.value.createdAt == if e.createdAt == 0 then now else e.createdAt)
      && (path == "" ==> answer.Some?)
      && (path != "" && path !in later ==> answer == None)
      && (path != "" && e.sourceMtime != 0 ==> (answer.Some? <==> path in later && later[path] == e.sourceMtime))
      && (path != "" && e.sourceMtime == 0 && path in files ==>
            (answer.Some? <==> path in later && later[path] == files[path]))
      && (path != "" && e.sourceMtime == 0 && path !in files ==> (answer.Some? <==> path in later && later[path] == 0))
  {
    StepStaysCoherent(capacity, c, Put(key, e, files, now));
    GetByFiles(capacity, AfterPut(capacity, c, Stamped(e, key, files, now)), key, later);
  }

  /** A store leaves the entries of all other keys on disk as they were. */
  lemma PutKeepsOthers(capacity: nat, c: Cached, key: Key, e: Entry, files: Files, now: int, other: Key)
    requires other != key
    ensures var c' := AfterPut(capacity, c, Stamped(e, key, files, now));
      && (other in c'.disk <==> other in c.disk)
      && (other in c.disk ==> c'.disk[other] == c.disk[other])
      && c'.hits == c.hits && c'.misses == c.misses
  {
  }

  /** Is the entry made from this path, and the file gone or of another time? The empty path is
      no file. */
  predicate OutOfDate(e: Entry, path: string, files: Files) {
    e.sourcePath == path && (path == "" || path !in files || files[path] != e.sourceMtime)
  }

  /** An invalidation by the files themselves: it drops the entries in memory that are out of
      date, in memory and on disk, and nothing else. */
  lemma InvalidateByFiles(capacity: nat, c: Cached, path: string, files: Files)
    requires Coherent(capacity, c)
    ensures
      var c' := AfterInvalidate(c, path, files);
      && (forall e :: e in c'.mem <==>
            e in c.mem && !(e.sourcePath == path && (path == "" || path !in files || files[path] != e.sourceMtime)))
      && (forall k :: k in c'.disk ==> k in c.disk && c'.disk[k] == c.disk[k])
      && (forall k :: k in c.disk && k !in c'.disk ==> c.disk[k] in c.mem && c.disk[k] !in c'.mem)
      && (forall e :: e in c.mem && e !in c'.mem ==> e.key !in c'.disk)
      && c'.hits == c.hits && c'.misses == c.misses
  {
    var gone := Outdated(c.mem, path, files);
    WithoutMembers(c.mem, gone);
    forall e | e in c.mem ensures e.key in gone <==> OutOfDate(e, path, files) {
      if e.key in gone {
        var x :| x in c.mem && x.sourcePath == path && Mtime(files, path) != Some(x.sourceMtime) && x.key == e.key;
        assert x == c.disk[e.key] == e;
      }
    }
  }

  /** Counts what an invalidation drops: each key once. */
  lemma DroppedCount(mem: seq<Entry>, path: string, files: Files)
    requires DistinctKeys(mem)
    ensures |Outdated(mem, path, files)| == |mem| - |Without(mem, Outdated(mem, path, files))|
  {
    CountWithout(mem, Outdated(mem, path, files));
    assert Outdated(mem, path, files) <= KeySet(mem);
    assert Outdated(mem, path, files) * KeySet(mem) == Outdated(mem, path, files);
  }

  lemma LastKeyIsNew(mem: seq<Entry>)
    requires DistinctKeys(mem) && mem != []
    ensures mem[|mem| - 1].key !in KeySet(mem[..|mem| - 1])
    ensures KeySet(mem) == KeySet(mem[..|mem| - 1]) + {mem[|mem| - 1].key}
  {
    assert mem == mem[..|mem| - 1] + [mem[|mem| - 1]];
  }

  lemma MeetsOneMore(keys: set<Key>, some: set<Key>, key: Key)
    requires key !in some
    ensures |keys * (some + {key})| == |keys * some| + if key in keys then 1 else 0
  {
    if key in keys {
      assert keys * (some + {key}) == keys * some + {key};
    } else {
      assert keys * (some + {key}) == keys * some;
    }
  }

  lemma {:induction false} CountWithout(mem: seq<Entry>, keys: set<Key>)
    requires DistinctKeys(mem)
    ensures |mem| == |Without(mem, keys)| + |keys * KeySet(mem)|
  {
    if mem != [] {
      var front, last := mem[..|mem| - 1], mem[|mem| - 1];
      CountWithout(front, keys);
      LastKeyIsNew(mem);
      MeetsOneMore(keys, KeySet(front), last.key);
    }
  }

  datatype CacheOp =
    | Get(key: Key, files: Files)
    | Put(key: Key, entry: Entry, files: Files, now: int)
    | Invalidate(path: string, files: Files)
    | Clear

  function Apply(capacity: nat, c: Cached, op: CacheOp): Cached {
    match op
    case Get(key, files) => AfterGet(capacity, c, key, files)
    case Put(key, e, files, now) => AfterPut(capacity, c, Stamped(e, key, files, now))
    case Invalidate(path, files) => AfterInvalidate(c, path, files)
    case Clear => AfterClear(c)
  }

  function Run(capacity: nat, start: Cached, ops: seq<CacheOp>): Cached {
    if ops == [] then start else Apply(capacity, Run(capacity, start, ops[..|ops| - 1]), ops[|ops| - 1])
  }

  function Lookups(ops: seq<CacheOp>): nat {
    if ops == [] then 0 else Lookups(ops[..|ops| - 1]) + if ops[|ops| - 1].Get? then 1 else 0
  }

  lemma MoveKeepsList(mem: seq<Entry>, e: Entry)
    requires DistinctKeys(mem) && e.key in KeySet(mem)
    ensures DistinctKeys([e] + Without(mem, {e.key})) && |[e] + Without(mem, {e.key})| <= |mem|
    ensures forall x :: x in [e] + Without(mem, {e.key}) ==> x == e || (x in mem && x.key != e.key)
  {
    var i :| 0 <= i < |mem| && mem[i].key == e.key;
    WithoutOne(mem, i);
    WithoutMembers(mem, {e.key});
    WithoutDistinct(mem, {e.key});
    PrependDistinctKey(e, Without(mem, {e.key}));
  }

  lemma PrependDistinctKey(e: Entry, rest: seq<Entry>)
    requires DistinctKeys(rest) && forall x :: x in rest ==> x.key != e.key
    ensures DistinctKeys([e] + rest)
    ensures forall x :: x in [e] + rest <==> x == e || x in rest
  {
  }

  lemma InsertKeepsList(mem: seq<Entry>, e: Entry, capacity: nat)
    requires DistinctKeys(mem) && e.key !in KeySet(mem) && capacity >= 1
    ensures var l := Bounded([e] + mem, capacity);
      && DistinctKeys(l) && |l| <= capacity
      && forall x :: x in l ==> x == e || (x in mem && x.key != e.key)
  {
    var all := [e] + mem;
    assert forall x :: x in mem ==> x.key in KeySet(mem);
    assert forall x :: x in Bounded(all, capacity) ==> x in all;
    assert DistinctKeys(all);
  }

  lemma StepStaysCoherent(capacity: nat, c: Cached, op: CacheOp)
    requires Coherent(capacity, c) && capacity >= 1
    ensures Coherent(capacity, Apply(capacity, c, op))
  {
    match op
    case Get(key, files) =>
      if key in KeySet(c.mem) {
        MoveKeepsList(c.mem, Find(c.mem, key));
        WithoutMembers(c.mem, {key});
        WithoutDistinct(c.mem, {key});
      } else if key in c.disk {
        InsertKeepsList(c.mem, c.disk[key], capacity);
        assert forall e :: e in c.mem ==> e.key in KeySet(c.mem);
      }
    case Put(key, e0, files, now) =>
      if key in KeySet(c.mem) {
        MoveKeepsList(c.mem, Stamped(e0, key, files, now));
      } else {
        InsertKeepsList(c.mem, Stamped(e0, key, files, now), capacity);
      }
    case Invalidate(path, files) =>
      WithoutMembers(c.mem, Outdated(c.mem, path, files));
      WithoutDistinct(c.mem, Outdated(c.mem, path, files));
    case Clear =>
  }

  /** Over every run and for every capacity: memory repeats the disk, and every lookup along
      the way is answered as from disk. */
  lemma {:induction false} EveryRunRefinesDisk(capacity: nat, start: Cached, ops: seq<CacheOp>, key: Key, files: Files)
    requires Coherent(capacity, start) && capacity >= 1
    ensures Coherent(capacity, Run(capacity, start, ops))
    ensures Answer(Run(capacity, start, ops), key, files) == DiskAnswer(Run(capacity, start, ops).disk, key, files)
  {
    if ops != [] {
      EveryRunRefinesDisk(capacity, start, ops[..|ops| - 1], key, files);
      StepStaysCoherent(capacity, Run(capacity, start, ops[..|ops| - 1]), ops[|ops| - 1]);
    }
    GetRefinesDisk(capacity, Run(capacity, start, ops), key, files);
  }
}
