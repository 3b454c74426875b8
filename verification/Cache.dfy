/** The cache as it runs: a doubly linked list between two sentinels, a map from keys to
    list nodes, and the disk files. Every method is tied to its function in CacheSpec. */
module Caching {
  import opened Wrappers
  import opened CacheSpec
  import opened Sequences

  class Node {
    var key: Key
    var entry: Entry
    var prev: Node?
    var next: Node?

    constructor (key: Key, entry: Entry)
      ensures this.key == key && this.entry == entry
    {
      this.key, this.entry, prev, next := key, entry, null, null;
    }
  }

  /** A proper doubly linked chain of distinct nodes. */
  ghost predicate Linked(chain: seq<Node>)
    reads chain
  {
    && (forall i, j :: 0 <= i < j < |chain| ==> chain[i] != chain[j])
    && (forall i {:trigger chain[i].next} :: 0 <= i < |chain| - 1 ==> chain[i].next == chain[i + 1])
    && (forall i {:trigger chain[i].prev} :: 1 <= i < |chain| ==> chain[i].prev == chain[i - 1])
  }

  /** The nodes hold these entries under their keys. */
  ghost predicate Holding(nodes: seq<Node>, mem: seq<Entry>)
    reads nodes
  {
    && |nodes| == |mem|
    && forall i {:trigger mem[i]} {:trigger nodes[i]} :: 0 <= i < |mem| ==>
         nodes[i].entry == mem[i] && nodes[i].key == mem[i].key
  }

  /** The map finds exactly the nodes, each by its own key. */
  ghost predicate Indexed(lru: map<Key, Node>, nodes: seq<Node>, mem: seq<Entry>) {
    && |nodes| == |mem|
    && DistinctKeys(mem)
    && lru.Keys == KeySet(mem)
    && forall i {:trigger mem[i]} {:trigger nodes[i]} :: 0 <= i < |mem| ==>
         mem[i].key in lru && lru[mem[i].key] == nodes[i]
  }

  function Dropped<T>(s: seq<T>, i: nat): (r: seq<T>)
    requires i < |s|
    ensures |r| == |s| - 1
    ensures forall j :: 0 <= j < |r| ==> r[j] == s[if j < i then j else j + 1]
  {
    s[..i] + s[i + 1..]
  }

  class Cache {
    const capacity: nat
    const head: Node
    const tail: Node
    var lru: map<Key, Node>
    var disk: map<Key, Entry>
    var hits: nat
    var misses: nat
    ghost var nodes: seq<Node>  // between the sentinels, most recently used first
    ghost var mem: seq<Entry>   // the entries they hold

    ghost function Chain(): seq<Node>
      reads this
    {
      [head] + nodes + [tail]
    }

    ghost function Repr(): set<Node>
      reads this
    {
      {head, tail} + set n | n in nodes
    }

    ghost predicate Listed()
      reads this, Repr()
    {
      Linked(Chain()) && Holding(nodes, mem) && Indexed(lru, nodes, mem)
    }

    ghost predicate Valid()
      reads this, Repr()
    {
      Listed() && capacity >= 1 && Coherent(capacity, State())
    }

    ghost function State(): Cached
      reads this
    {
      Cached(mem, disk, hits, misses)
    }

    /** An empty memory over the files left on disk. */
    constructor (capacity: int, disk: map<Key, Entry>)
      requires forall k :: k in disk ==> disk[k].key == k
      ensures Valid() && fresh(Repr()) && this.capacity == (if capacity <= 0 then 512 else capacity)
      ensures State() == Cached([], disk, 0, 0)
    {
      this.capacity := if capacity <= 0 then 512 else capacity;
      lru, this.disk, hits, misses := map[], disk, 0, 0;
      var blank := Entry(Key(""), "", ZERO_TIME, "", ZERO_TIME);
      head := new Node(Key(""), blank);
      tail := new Node(Key(""), blank);
      nodes, mem := [], [];
      new;
      head.next := tail;
      tail.prev := head;
    }

    // ---------- pointers ----------

    /** Takes a node out of the chain; its own pointers are left as they are. */
    method RemoveNode(node: Node, ghost i: nat)
      requires Linked(Chain()) && i < |nodes| && nodes[i] == node
      modifies this`nodes, Repr()`prev, Repr()`next
      ensures nodes == Dropped(old(nodes), i) && Linked(Chain())
    {
      ghost var chain := Chain();
      assert chain[i + 1] == node;
      node.prev.next := node.next;
      node.next.prev := node.prev;
      nodes := Dropped(nodes, i);
      ghost var rest := Dropped(chain, i + 1);
      assert Chain() == rest;
      forall k | 0 <= k < |rest| - 1 ensures rest[k].next == rest[k + 1] && rest[k + 1].prev == rest[k] {
        ghost var j := if k <= i then k else k + 1;
        assert rest[k] == chain[j] && chain[j].next == if k == i then chain[i + 2] else chain[j + 1];
      }
    }

    /** Puts a node that is not in the chain right after the head. */
    method LinkFront(node: Node)
      requires Linked(Chain()) && node !in Chain()
      modifies this`nodes, Repr()`prev, Repr()`next, node`prev, node`next
      ensures nodes == [node] + old(nodes) && Linked(Chain())
    {
      ghost var chain := Chain();
      assert chain[0] == head;
      node.next := head.next;
      node.prev := head;
      head.next.prev := node;
      head.next := node;
      nodes := [node] + nodes;
      assert Chain() == [head, node] + chain[1..];
    }

    // ---------- nodes with their keys ----------

    lemma IndexOf(key: Key) returns (i: nat)
      requires Listed() && key in lru
      ensures i < |mem| && mem[i].key == key && nodes[i] == lru[key]
      ensures Find(mem, key) == mem[i] && Without(mem, {key}) == Dropped(mem, i)
    {
      i :| 0 <= i < |mem| && mem[i].key == key;
      FindAt(mem, i);
      WithoutOne(mem, i);
    }

    /** Unlinks the i-th node and deletes its key. */
    method Drop(node: Node, ghost i: nat)
      requires Listed() && i < |mem| && nodes[i] == node
      modifies this`nodes, this`lru, this`mem, Repr()`prev, Repr()`next
      ensures Listed() && mem == Dropped(old(mem), i)
      ensures nodes == Dropped(old(nodes), i)
      ensures lru == old(lru) - {old(mem[i]).key}
    {
      Deindex(node, i);
      Unlink(node, i);
    }

    method Unlink(node: Node, ghost i: nat)
      requires Linked(Chain()) && i < |nodes| && nodes[i] == node
      requires Holding(Dropped(nodes, i), mem) && Indexed(lru, Dropped(nodes, i), mem)
      modifies this`nodes, Repr()`prev, Repr()`next
      ensures Listed() && nodes == Dropped(old(nodes), i)
    {
      ghost var left := Dropped(nodes, i);
      RemoveNode(node, i);
      assert Holding(left, mem);
    }

    method Deindex(node: Node, ghost i: nat)
      requires Listed() && i < |mem| && nodes[i] == node
      modifies this`lru, this`mem
      ensures mem == Dropped(old(mem), i) && lru == old(lru) - {old(mem[i]).key}
      ensures Linked(Chain()) && Holding(Dropped(nodes, i), mem) && Indexed(lru, Dropped(nodes, i), mem)
    {
      IndexedDropped(lru, nodes, mem, i);
      HoldingDropped(nodes, mem, i);
      lru := lru - {node.key};
      mem := Dropped(mem, i);
    }

    method InsertFront(key: Key, e: Entry)
      requires Listed() && key !in lru && e.key == key
      modifies this`nodes, this`lru, this`mem, Repr()`prev, Repr()`next
      ensures Listed() && mem == [e] + old(mem)
      ensures nodes == [nodes[0]] + old(nodes) && fresh(nodes[0])
    {
      var node := new Node(key, e);
      Attach(node);
    }

    method Attach(node: Node)
      requires Listed() && node !in Chain()
      requires node.key !in lru && node.entry.key == node.key
      modifies this`nodes, this`lru, this`mem, Repr()`prev, Repr()`next, node`prev, node`next
      ensures Listed()
      ensures mem == [old(node.entry)] + old(mem) && nodes == [node] + old(nodes)
      ensures lru == old(lru)[old(node.key) := node]
    {
      Index(node);
      Link(node);
    }

    method Index(node: Node)
      requires Listed() && node !in Chain()
      requires node.key !in lru && node.entry.key == node.key
      modifies this`lru, this`mem
      ensures mem == [node.entry] + old(mem) && lru == old(lru)[node.key := node]
      ensures Linked(Chain()) && Holding([node] + nodes, mem) && Indexed(lru, [node] + nodes, mem)
    {
      IndexedPushed(lru, nodes, mem, node, node.entry);
      lru := lru[node.key := node];
      mem := [node.entry] + mem;
    }

    method Link(node: Node)
      requires Linked(Chain()) && node !in Chain()
      requires Holding([node] + nodes, mem) && Indexed(lru, [node] + nodes, mem)
      modifies this`nodes, Repr()`prev, Repr()`next, node`prev, node`next
      ensures Listed() && nodes == [node] + old(nodes)
    {
      ghost var all := [node] + nodes;
      LinkFront(node);
      assert Holding(all, mem);
    }

    method MoveToFront(node: Node, ghost i: nat)
      requires Listed() && i < |mem| && nodes[i] == node
      modifies this`nodes, this`mem, Repr()`prev, Repr()`next
      ensures Listed() && mem == [old(mem)[i]] + Dropped(old(mem), i)
      ensures nodes == [node] + Dropped(old(nodes), i)
    {
      IndexedMoved(lru, nodes, mem, i);
      HoldingMoved(nodes, mem, i);
      Relink(node, i);
      mem := [mem[i]] + Dropped(mem, i);
    }

    method Relink(node: Node, ghost i: nat)
      requires Linked(Chain()) && i < |nodes| && nodes[i] == node
      modifies this`nodes, Repr()`prev, Repr()`next
      ensures Linked(Chain()) && nodes == [node] + Dropped(old(nodes), i)
    {
      FirstInChain(i);
      if head.next == node {
        return;
      }
      RemoveNode(node, i);
      LinkFront(node);
    }

    lemma FirstInChain(i: nat)
      requires Linked(Chain()) && i < |nodes|
      ensures head.next == nodes[i] <==> i == 0
      ensures i == 0 ==> nodes == [nodes[i]] + Dropped(nodes, i)
      ensures nodes[i] !in [head] + Dropped(nodes, i) + [tail]
    {
      var chain := Chain();
      assert chain[0] == head && chain[i + 1] == nodes[i] && chain[|nodes| + 1] == tail;
      assert chain[0].next == chain[1];
      forall j | 0 <= j < |Dropped(nodes, i)| ensures Dropped(nodes, i)[j] != nodes[i] {
        assert chain[(if j < i then j else j + 1) + 1] == Dropped(nodes, i)[j];
      }
    }

    /** Drops least recently used entries until the rest fits. */
    method EvictIfNeeded()
      requires Listed()
      modifies this`nodes, this`lru, this`mem, Repr()`prev, Repr()`next
      ensures Listed() && mem == Bounded(old(mem), capacity)
      ensures mem <= old(mem) && (mem == old(mem) || |mem| == capacity) && |mem| <= capacity
      ensures Repr() <= old(Repr())
    {
      ghost var before := mem;
      MapSize();
      while |lru| > capacity
        invariant Listed() && |lru| == |mem|
        invariant Repr() <= old(Repr())
        invariant mem <= before && (|mem| >= capacity || mem == before)
        decreases |mem|
      {
        var evicted := EvictLast();
        if !evicted {
          break;
        }
      }
      PrefixIsBounded(mem, before, capacity);
    }

    method EvictLast() returns (evicted: bool)
      requires Listed()
      modifies this`nodes, this`lru, this`mem, Repr()`prev, Repr()`next
      ensures Listed() && Repr() <= old(Repr()) && |lru| == |mem|
      ensures evicted <==> old(mem) != []
      ensures |mem| == |old(mem)| - (if evicted then 1 else 0) && mem <= old(mem)
    {
      LastInChain();
      var victim := tail.prev;
      if victim == head {
        MapSize();
        return false;
      }
      DropLast(victim);
      return true;
    }

    method DropLast(victim: Node)
      requires Listed() && mem != [] && victim == nodes[|nodes| - 1]
      modifies this`nodes, this`lru, this`mem, Repr()`prev, Repr()`next
      ensures Listed() && Repr() <= old(Repr()) && |lru| == |mem|
      ensures mem == old(mem)[..|old(mem)| - 1]
    {
      Drop(victim, |nodes| - 1);
      MapSize();
    }

    lemma NodesApart()
      requires Linked(Chain())
      ensures forall i, j :: 0 <= i < j < |nodes| ==> nodes[i] != nodes[j]
    {
      assert forall i :: 0 <= i < |nodes| ==> Chain()[i + 1] == nodes[i];
    }

    lemma LastInChain()
      requires Listed()
      ensures if mem == [] then tail.prev == head else tail.prev == nodes[|nodes| - 1] != head
    {
      var n := |nodes|;
      assert Chain()[n + 1] == tail && Chain()[0] == head;
      assert n > 0 ==> Chain()[n] == nodes[n - 1];
    }

    lemma MapSize()
      requires Listed()
      ensures |lru| == |mem|
    {
      KeyCount(mem);
      assert |lru| == |lru.Keys|;
    }

    // ---------- entries by key ----------

    lemma EntryOf(key: Key)
      requires Listed() && key in lru
      ensures key in KeySet(mem) && lru[key].entry == Find(mem, key)
    {
      var i := IndexOf(key);
    }

    method Forget(key: Key)
      requires Listed() && key in lru
      modifies this`nodes, this`lru, this`mem, Repr()`prev, Repr()`next
      ensures Listed() && Repr() <= old(Repr())
      ensures mem == Without(old(mem), {key})
    {
      ghost var i := IndexOf(key);
      Drop(lru[key], i);
    }

    method Touch(key: Key)
      requires Listed() && key in lru
      modifies this`nodes, this`mem, Repr()`prev, Repr()`next
      ensures Listed() && Repr() <= old(Repr())
      ensures mem == [Find(old(mem), key)] + Without(old(mem), {key})
    {
      ghost var i := IndexOf(key);
      MoveToFront(lru[key], i);
    }

    /** Gives a key already in memory another entry. */
    method Rewrite(e: Entry)
      requires Listed() && e.key in lru
      modifies this`mem, lru[e.key]
      ensures Listed()
      ensures Find(mem, e.key) == e && Without(mem, {e.key}) == Without(old(mem), {e.key})
    {
      var node := lru[e.key];
      ghost var i := IndexOf(e.key);
      IndexedUpdated(lru, nodes, mem, i, e);
      UpdatedList(mem, i, e);
      NodesApart();
      WriteEntry(node, i, e);
      mem := mem[i := e];
    }

    method WriteEntry(node: Node, ghost i: nat, e: Entry)
      requires Linked(Chain()) && Holding(nodes, mem) && i < |nodes| && nodes[i] == node && e.key == mem[i].key
      requires forall j, k :: 0 <= j < k < |nodes| ==> nodes[j] != nodes[k]
      modifies node`entry
      ensures Linked(Chain()) && Holding(nodes, mem[i := e])
    {
      node.entry := e;
    }

    method Replace(e: Entry)
      requires Listed() && e.key in lru
      modifies this`nodes, this`mem, Repr()
      ensures Listed() && Repr() <= old(Repr())
      ensures mem == [e] + Without(old(mem), {e.key})
    {
      Rewrite(e);
      Touch(e.key);
    }

    method Insert(e: Entry)
      requires Listed() && e.key !in lru
      modifies this`nodes, this`lru, this`mem, Repr()`prev, Repr()`next
      ensures Listed() && fresh(Repr() - old(Repr()))
      ensures mem == Bounded([e] + old(mem), capacity)
    {
      InsertFront(e.key, e);
      EvictIfNeeded();
    }

    // ---------- the cache's operations ----------

    /** Memory first, then disk; a stale entry is dropped from where it was found. */
    method Get(key: Key, files: Files) returns (r: Option<Entry>)
      requires Valid()
      modifies this, Repr()
      ensures Valid() && fresh(Repr() - old(Repr()))
      ensures r == Answer(old(State()), key, files)
      ensures State() == Apply(capacity, old(State()), CacheOp.Get(key, files))
    {
      StepStaysCoherent(capacity, State(), CacheOp.Get(key, files));
      if key in lru {
        r := GetFromMemory(key, files);
      } else {
        r := GetFromDisk(key, files);
      }
    }

    method GetFromMemory(key: Key, files: Files) returns (r: Option<Entry>)
      requires Listed() && key in lru
      modifies this`nodes, this`lru, this`mem, this`hits, this`misses, Repr()`prev, Repr()`next
      ensures Listed() && Repr() <= old(Repr())
      ensures r == Answer(old(State()), key, files)
      ensures State() == AfterGet(capacity, old(State()), key, files)
    {
      EntryOf(key);
      var node := lru[key];
      var e := node.entry;
      if !Fresh(e, files) {
        DropStale(key);
        return None;
      }
      Use(key);
      return Some(e);
    }

    method DropStale(key: Key)
      requires Listed() && key in lru
      modifies this`nodes, this`lru, this`mem, this`misses, Repr()`prev, Repr()`next
      ensures Listed() && Repr() <= old(Repr())
      ensures State() == Missed(old(State()).(mem := Without(old(mem), {key})))
    {
      Forget(key);
      CountMiss();
    }

    method Use(key: Key)
      requires Listed() && key in lru
      modifies this`nodes, this`mem, this`hits, Repr()`prev, Repr()`next
      ensures Listed() && Repr() <= old(Repr())
      ensures State() == Hit(old(State()), [Find(old(mem), key)] + Without(old(mem), {key}))
    {
      Touch(key);
      CountHit();
    }

    method GetFromDisk(key: Key, files: Files) returns (r: Option<Entry>)
      requires Listed() && key !in lru
      requires key in disk ==> disk[key].key == key
      modifies this, Repr()
      ensures Listed() && fresh(Repr() - old(Repr()))
      ensures r == Answer(old(State()), key, files)
      ensures State() == AfterGet(capacity, old(State()), key, files)
    {
      if key !in disk {
        CountMiss();
        return None;
      }
      var e := disk[key];
      if !Fresh(e, files) {
        RemoveFile(key);
        CountMiss();
        return None;
      }
      Promote(e);
      return Some(e);
    }

    method Promote(e: Entry)
      requires Listed() && e.key !in lru
      modifies this`nodes, this`lru, this`mem, this`hits, Repr()`prev, Repr()`next
      ensures Listed() && fresh(Repr() - old(Repr()))
      ensures State() == Hit(old(State()), Bounded([e] + old(mem), capacity))
    {
      Insert(e);
      CountHit();
    }

    method CountHit()
      requires Listed()
      modifies this`hits
      ensures Listed() && hits == old(hits) + 1
    {
      hits := hits + 1;
    }

    method CountMiss()
      requires Listed()
      modifies this`misses
      ensures Listed() && misses == old(misses) + 1
    {
      misses := misses + 1;
    }

    method RemoveFile(key: Key)
      requires Listed()
      modifies this`disk
      ensures Listed() && disk == old(disk) - {key}
    {
      disk := disk - {key};
    }

    method SaveToDisk(e: Entry)
      requires Listed()
      modifies this`disk
      ensures Listed() && disk == old(disk)[e.key := e]
    {
      disk := disk[e.key := e];
    }

    method Put(key: Key, entry: Entry, files: Files, now: int)
      requires Valid()
      modifies this, Repr()
      ensures Valid() && fresh(Repr() - old(Repr()))
      ensures State() == Apply(capacity, old(State()), CacheOp.Put(key, entry, files, now))
    {
      StepStaysCoherent(capacity, State(), CacheOp.Put(key, entry, files, now));
      PutBoth(Stamped(entry, key, files, now));
    }

    method PutBoth(e: Entry)
      requires Listed()
      modifies this`nodes, this`lru, this`mem, this`disk, Repr()
      ensures Listed() && fresh(Repr() - old(Repr()))
      ensures State() == AfterPut(capacity, old(State()), e)
    {
      ghost var after := AfterPut(capacity, State(), e);
      PutInMemory(e);
      assert mem == after.mem;
      SaveToDisk(e);
      assert State() == after;
    }

    method PutInMemory(e: Entry)
      requires Listed()
      modifies this`nodes, this`lru, this`mem, Repr()
      ensures Listed() && fresh(Repr() - old(Repr()))
      ensures mem ==
        if e.key in KeySet(old(mem)) then [e] + Without(old(mem), {e.key}) else Bounded([e] + old(mem), capacity)
    {
      if e.key in lru {
        Replace(e);
      } else {
        Insert(e);
      }
    }

    /** Drops every entry in memory made from `path` that is out of date, and its file. */
    method InvalidateByMtime(path: string, files: Files) returns (dropped: nat)
      requires Valid()
      modifies this, Repr()
      ensures Valid() && Repr() <= old(Repr())
      ensures dropped == |old(mem)| - |mem|
      ensures State() == Apply(capacity, old(State()), Invalidate(path, files))
    {
      DroppedCount(mem, path, files);
      StepStaysCoherent(capacity, State(), Invalidate(path, files));
      dropped := Scan(path, files);
    }

    method Scan(path: string, files: Files) returns (dropped: nat)
      requires Listed()
      modifies this`nodes, this`lru, this`mem, this`disk, Repr()`prev, Repr()`next
      ensures Listed() && Repr() <= old(Repr())
      ensures dropped == |Outdated(old(mem), path, files)|
      ensures mem == Without(old(mem), Outdated(old(mem), path, files))
      ensures disk == old(disk) - Outdated(old(mem), path, files)
    {
      ghost var all, files0, gone := mem, disk, Outdated(mem, path, files);
      dropped := 0;
      var rest := lru.Keys;
      assert gone - rest == {} && disk - {} == disk;
      WithoutNone(mem, {});
      while rest != {}
        invariant Listed() && Repr() <= old(Repr())
        invariant rest <= KeySet(all)
        invariant dropped == |gone - rest|
        invariant mem == Without(all, gone - rest)
        invariant disk == files0 - (gone - rest)
        decreases rest
      {
        var key :| key in rest;
        var stale := DropIfOutdated(key, path, files, all, rest);
        CountOne(gone, rest, key);
        RemoveOne(files0, gone, rest, key);
        rest := rest - {key};
        if stale {
          dropped := dropped + 1;
        }
      }
      assert gone - rest == gone;
    }

    /** The body of the scan, for one key. */
    method DropIfOutdated(key: Key, path: string, files: Files, ghost all: seq<Entry>, ghost rest: set<Key>)
      returns (stale: bool)
      requires DistinctKeys(all) && key in rest && rest <= KeySet(all)
      requires Listed() && mem == Without(all, Outdated(all, path, files) - rest)
      modifies this`nodes, this`lru, this`mem, this`disk, Repr()`prev, Repr()`next
      ensures Listed() && Repr() <= old(Repr())
      ensures stale <==> key in Outdated(all, path, files)
      ensures mem == Without(all, Outdated(all, path, files) - (rest - {key}))
      ensures disk == if stale then old(disk) - {key} else old(disk)
    {
      ghost var gone := Outdated(all, path, files);
      StillThere(all, gone - rest, key);
      EntryOf(key);
      var node := lru[key];
      var e := node.entry;
      OutdatedByEntry(all, e, path, files);
      if e.sourcePath != path || Mtime(files, path) == Some(e.sourceMtime) {
        assert gone - (rest - {key}) == gone - rest;
        return false;
      }
      assert gone - (rest - {key}) == (gone - rest) + {key};
      WithoutTwice(all, gone - rest, {key});
      Forget(key);
      RemoveFile(key);
      return true;
    }

    method Unlist()
      requires Listed()
      modifies this`nodes, this`lru, this`mem, head, tail
      ensures Listed() && mem == [] && Repr() <= old(Repr())
    {
      assert Chain()[0] == head && Chain()[|nodes| + 1] == tail;
      lru := map[];
      head.next := tail;
      tail.prev := head;
      nodes, mem := [], [];
    }

    /** Forgets everything in memory and on disk; the counters stay. */
    method Clear()
      requires Valid()
      modifies this, Repr()
      ensures Valid() && Repr() <= old(Repr())
      ensures State() == Apply(capacity, old(State()), CacheOp.Clear)
    {
      StepStaysCoherent(capacity, State(), CacheOp.Clear);
      Unlist();
      ClearDisk();
    }

    method ClearDisk()
      requires Listed()
      modifies this`disk
      ensures Listed() && disk == map[]
    {
      var names := disk.Keys;
      while names != {}
        invariant names == disk.Keys
        modifies this`disk
        decreases names
      {
        var name :| name in names;
        disk := disk - {name};
        names := names - {name};
      }
      assert disk == map[];
    }

    /** Loads entries left on disk by an earlier process until the memory is full. */
    method WarmFromDisk()
      requires Valid() && mem == []
      modifies this`nodes, this`lru, this`mem, Repr()`prev, Repr()`next
      ensures Valid() && fresh(Repr() - old(Repr()))
      ensures |mem| == capacity || disk.Keys - {Key("")} <= KeySet(mem)
    {
      var names := disk.Keys;
      while names != {}
        invariant Valid() && fresh(Repr() - old(Repr()))
        invariant names <= disk.Keys
        invariant disk.Keys - names - {Key("")} <= KeySet(mem)
        decreases names
      {
        var name :| name in names;
        var full := WarmOne(name);
        if full {
          break;
        }
        names := names - {name};
      }
    }

    method Full() returns (full: bool)
      requires Listed()
      ensures full <==> |mem| >= capacity
    {
      MapSize();
      return |lru| >= capacity;
    }

    /** The body of the loop: loads one file unless the memory is full. */
    method WarmOne(name: Key) returns (full: bool)
      requires Valid() && name in disk
      modifies this`nodes, this`lru, this`mem, Repr()`prev, Repr()`next
      ensures Valid() && fresh(Repr() - old(Repr()))
      ensures full ==> |mem| == capacity
      ensures !full && name == Key("") ==> mem == old(mem)
      ensures !full && name != Key("") ==> KeySet(mem) == KeySet(old(mem)) + {name}
    {
      full := Full();
      if full {
        return;
      }
      if disk[name].key != Key("") {
        Load(disk[name]);
      }
    }

    /** A new process over the files left on disk, warmed from them. */
    static method NewCache(capacity: int, disk: map<Key, Entry>) returns (c: Cache)
      requires forall k :: k in disk ==> disk[k].key == k
      ensures fresh(c) && fresh(c.Repr()) && c.Valid()
      ensures c.disk == disk && c.hits == 0 && c.misses == 0
      ensures c.capacity == if capacity <= 0 then 512 else capacity
      ensures |c.mem| == c.capacity || disk.Keys - {Key("")} <= KeySet(c.mem)
    {
      c := new Cache(capacity, disk);
      c.WarmFromDisk();
    }

    method Load(e: Entry)
      requires Valid() && |mem| < capacity && e.key in disk && disk[e.key] == e
      modifies this`nodes, this`lru, this`mem, Repr()`prev, Repr()`next
      ensures Valid() && fresh(Repr() - old(Repr()))
      ensures KeySet(mem) == KeySet(old(mem)) + {e.key}
    {
      if e.key !in lru {
        InsertKeepsList(mem, e, capacity);
        InsertFront(e.key, e);
      }
    }
  }

  lemma IndexedUpdated(lru: map<Key, Node>, nodes: seq<Node>, mem: seq<Entry>, i: nat, e: Entry)
    requires Indexed(lru, nodes, mem) && i < |mem| && mem[i].key == e.key
    ensures Indexed(lru, nodes, mem[i := e])
    ensures Dropped(mem[i := e], i) == Dropped(mem, i)
  {
    var updated := mem[i := e];
    forall k ensures k in KeySet(updated) <==> k in KeySet(mem) {
      if k in KeySet(mem) {
        var j :| 0 <= j < |mem| && mem[j].key == k;
        assert updated[j] in updated && updated[j].key == k;
      }
      if k in KeySet(updated) {
        var j :| 0 <= j < |updated| && updated[j].key == k;
        assert mem[j] in mem && mem[j].key == k;
      }
    }
    assert KeySet(updated) == KeySet(mem);
  }

  lemma CountOne(gone: set<Key>, rest: set<Key>, key: Key)
    requires key in rest
    ensures |gone - (rest - {key})| == |gone - rest| + if key in gone then 1 else 0
    ensures key in gone ==> gone - (rest - {key}) == (gone - rest) + {key}
    ensures key !in gone ==> gone - (rest - {key}) == gone - rest
  {
    if key in gone {
      assert gone - (rest - {key}) == (gone - rest) + {key};
    } else {
      assert gone - (rest - {key}) == gone - rest;
    }
  }

  lemma RemoveOne(disk: map<Key, Entry>, gone: set<Key>, rest: set<Key>, key: Key)
    requires key in rest
    ensures disk - (gone - (rest - {key})) == disk - (gone - rest) - if key in gone then {key} else {}
  {
    CountOne(gone, rest, key);
  }

  lemma StillThere(all: seq<Entry>, removed: set<Key>, key: Key)
    requires key in KeySet(all) && key !in removed
    ensures key in KeySet(Without(all, removed))
    ensures forall e :: e in Without(all, removed) ==> e in all
  {
    WithoutKeys(all, removed);
    WithoutMembers(all, removed);
  }

  lemma UpdatedList(mem: seq<Entry>, i: nat, e: Entry)
    requires DistinctKeys(mem) && i < |mem| && mem[i].key == e.key
    ensures var updated := mem[i := e];
      && DistinctKeys(updated) && e.key in KeySet(updated)
      && Find(updated, e.key) == e && Without(updated, {e.key}) == Without(mem, {e.key})
  {
    var updated := mem[i := e];
    assert updated[..i] + updated[i + 1..] == mem[..i] + mem[i + 1..];
    WithoutOne(mem, i);
    WithoutOne(updated, i);
    FindAt(updated, i);
  }

  lemma OutdatedByEntry(mem: seq<Entry>, e: Entry, path: string, files: Files)
    requires DistinctKeys(mem) && e in mem
    ensures e.key in Outdated(mem, path, files) <==>
      e.sourcePath == path && Mtime(files, path) != Some(e.sourceMtime)
  {
    if e.key in Outdated(mem, path, files) {
      var x :| x in mem && x.sourcePath == path && Mtime(files, path) != Some(x.sourceMtime) && x.key == e.key;
      assert x == e;
    }
  }

  lemma PrefixIsBounded(kept: seq<Entry>, mem: seq<Entry>, capacity: nat)
    requires kept <= mem && |kept| <= capacity && (|kept| >= capacity || kept == mem)
    ensures kept == Bounded(mem, capacity)
  {
  }

  lemma HoldingDropped(nodes: seq<Node>, mem: seq<Entry>, i: nat)
    requires Holding(nodes, mem) && i < |mem|
    ensures Holding(Dropped(nodes, i), Dropped(mem, i)) && nodes[i].key == mem[i].key
  {
  }

  lemma HoldingMoved(nodes: seq<Node>, mem: seq<Entry>, i: nat)
    requires Holding(nodes, mem) && i < |mem|
    ensures Holding([nodes[i]] + Dropped(nodes, i), [mem[i]] + Dropped(mem, i))
  {
  }

  /** Moving an entry to the front changes no key's node. */
  lemma IndexedMoved(lru: map<Key, Node>, nodes: seq<Node>, mem: seq<Entry>, i: nat)
    requires Indexed(lru, nodes, mem) && i < |mem|
    ensures Indexed(lru, [nodes[i]] + Dropped(nodes, i), [mem[i]] + Dropped(mem, i))
  {
    var e := mem[i];
    IndexedDropped(lru, nodes, mem, i);
    IndexedPushed(lru - {e.key}, Dropped(nodes, i), Dropped(mem, i), nodes[i], e);
    assert (lru - {e.key})[e.key := nodes[i]] == lru;
  }

  lemma IndexedDropped(lru: map<Key, Node>, nodes: seq<Node>, mem: seq<Entry>, i: nat)
    requires Indexed(lru, nodes, mem) && i < |mem|
    ensures Indexed(lru - {mem[i].key}, Dropped(nodes, i), Dropped(mem, i))
  {
    WithoutOne(mem, i);
    WithoutKeys(mem, {mem[i].key});
  }

  lemma IndexedPushed(lru: map<Key, Node>, nodes: seq<Node>, mem: seq<Entry>, node: Node, e: Entry)
    requires Indexed(lru, nodes, mem) && e.key !in lru
    ensures Indexed(lru[e.key := node], [node] + nodes, [e] + mem)
  {
    assert forall x :: x in mem ==> x.key in KeySet(mem);
    assert KeySet([e] + mem) == KeySet(mem) + {e.key};
  }

  lemma {:induction false} KeyCount(mem: seq<Entry>)
    requires DistinctKeys(mem)
    ensures |KeySet(mem)| == |mem|
  {
    if mem != [] {
      var front, last := mem[..|mem| - 1], mem[|mem| - 1];
      KeyCount(front);
      assert mem == front + [last];
      assert KeySet(mem) == KeySet(front) + {last.key};
    }
  }
}
