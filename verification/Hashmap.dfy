/** The hash map's operations on memory (src/hashmap.c). */
module Hashmap {
  import opened Collections
  import opened ErrorCodes
  import opened LinkedLists
  import opened HashmapModel

  /** Where all entries live. */
  class Memory {
    var key: map<Addr, Key>
    var value: map<Addr, Value>
    var bucketNext: map<Addr, Addr>
    var bucketPrev: map<Addr, Addr>
    var iterateNext: map<Addr, Addr>
    var iteratePrev: map<Addr, Addr>

    constructor ()
      ensures View() == Mem(map[], map[], map[], map[], map[], map[])
    {
      key, value := map[], map[];
      bucketNext, bucketPrev, iterateNext, iteratePrev := map[], map[], map[], map[];
    }

    ghost function View(): Mem
      reads this
    {
      Mem(key, value, bucketNext, bucketPrev, iterateNext, iteratePrev)
    }
  }

  class Map {
    const mem: Memory
    const hasher: Hasher
    var buckets: seq<Addr>
    var head: Addr
    var tail: Addr
    var n: nat

    ghost var order: seq<Addr>
    ghost var chains: seq<seq<Addr>>

    ghost function Shape(): Table
      reads this
    {
      Table(buckets, head, tail, n)
    }

    ghost predicate Valid()
      reads this, mem
    {
      MapOk(hasher, mem.View(), Shape(), order, chains)
    }

    /** Its lists are linked, whichever buckets the entries are in. */
    ghost predicate Shaped()
      reads this, mem
    {
      ListsOk(hasher, mem.View(), Shape(), order, chains)
    }

    ghost function Pairs(): Contents
      reads this, mem
    {
      ContentsOf(mem.View(), order)
    }

    constructor (mem: Memory, hasher: Hasher)
      requires Agree(hasher)
      ensures this.mem == mem && this.hasher == hasher
      ensures Valid() && Pairs() == [] && order == []
    {
      this.mem, this.hasher := mem, hasher;
      buckets := seq(NBUCKETS, _ => 0);
      head, tail, n := 0, 0, 0;
      order := [];
      chains := seq(NBUCKETS, _ => []);
    }

    // ---------- entries ----------

    method JoinBucket(e: Addr, b: nat)
      requires b < |buckets|
      modifies `buckets, mem`bucketNext, mem`bucketPrev
      ensures mem.bucketNext == old(mem.bucketNext)[e := old(buckets)[b]]
      ensures mem.bucketPrev == PushedFrontPrev(old(mem.bucketPrev), old(buckets)[b], e)
      ensures buckets == old(buckets)[b := e]
    {
      mem.bucketNext := mem.bucketNext[e := buckets[b]];
      mem.bucketPrev := mem.bucketPrev[e := 0];
      if buckets[b] != 0 {
        mem.bucketPrev := mem.bucketPrev[buckets[b] := e];
      }
      buckets := buckets[b := e];
    }

    method JoinOrder(e: Addr)
      modifies `head, `tail, `n, mem`iterateNext, mem`iteratePrev
      ensures mem.iterateNext == PushedBackNext(old(mem.iterateNext), old(tail), e)
      ensures mem.iteratePrev == old(mem.iteratePrev)[e := old(tail)]
      ensures head == (if old(tail) == 0 then e else old(head)) && tail == e && n == old(n) + 1
    {
      mem.iteratePrev := mem.iteratePrev[e := tail];
      mem.iterateNext := mem.iterateNext[e := 0];
      if tail != 0 {
        mem.iterateNext := mem.iterateNext[tail := e];
      } else {
        head := e;
      }
      tail := e;
      n := n + 1;
    }

    method LinkRaw(e: Addr, b: nat)
      requires b < |buckets| && |chains| == |buckets|
      modifies this, mem`bucketNext, mem`bucketPrev, mem`iterateNext, mem`iteratePrev
      ensures mem.View() == LinkedMem(old(mem.View()), old(Shape()), e, b)
      ensures Shape() == LinkedTable(old(Shape()), e, b)
      ensures order == old(order) + [e] && chains == old(chains)[b := [e] + old(chains)[b]]
    {
      JoinBucket(e, b);
      JoinOrder(e);
      order, chains := order + [e], chains[b := [e] + chains[b]];
    }

    /** Links an entry, into any bucket. */
    method LinkAnywhere(e: Addr, b: nat)
      requires Valid() && e > 0 && e !in order && e in mem.key && e in mem.value && b < NBUCKETS
      modifies this, mem`bucketNext, mem`bucketPrev, mem`iterateNext, mem`iteratePrev
      ensures Shaped()
      ensures Valid() <==> b == Bucket(hasher, mem.key[e]) && !Has(hasher, old(Pairs()), mem.key[e])
      ensures order == old(order) + [e] && chains == old(chains)[b := [e] + old(chains)[b]]
      ensures Pairs() == old(Pairs()) + [(mem.key[e], mem.value[e])]
      ensures SameOutside(old(mem.View()), mem.View(), Elements(old(order)) + {e})
    {
      LinkKeepsLists(hasher, mem.View(), Shape(), order, chains, e, b);
      LinkKeepsMapExactlyWhen(hasher, mem.View(), Shape(), order, chains, e, b);
      LinkRaw(e, b);
    }

    method LinkEntry(e: Addr, b: nat)
      requires Valid() && e > 0 && e !in order && e in mem.key && e in mem.value
      requires !Has(hasher, Pairs(), mem.key[e]) && b == Bucket(hasher, mem.key[e])
      modifies this, mem`bucketNext, mem`bucketPrev, mem`iterateNext, mem`iteratePrev
      ensures Valid()
      ensures order == old(order) + [e]
      ensures Pairs() == old(Pairs()) + [(mem.key[e], mem.value[e])]
      ensures SameOutside(old(mem.View()), mem.View(), Elements(old(order)) + {e})
    {
      LinkAnywhere(e, b);
    }

    method LeaveOrder(e: Addr)
      requires e in mem.iterateNext && e in mem.iteratePrev && mem.iterateNext[e] != e
      modifies `head, `tail, mem`iterateNext, mem`iteratePrev
      ensures mem.iterateNext == UnlinkedNext(old(mem.iterateNext), old(mem.iteratePrev), e)
      ensures mem.iteratePrev == UnlinkedPrev(old(mem.iterateNext), old(mem.iteratePrev), e)
      ensures head == if old(mem.iteratePrev)[e] == 0 then old(mem.iterateNext)[e] else old(head)
      ensures tail == if old(mem.iterateNext)[e] == 0 then old(mem.iteratePrev)[e] else old(tail)
    {
      if mem.iterateNext[e] != 0 {
        mem.iteratePrev := mem.iteratePrev[mem.iterateNext[e] := mem.iteratePrev[e]];
      } else {
        tail := mem.iteratePrev[e];
      }
      if mem.iteratePrev[e] != 0 {
        mem.iterateNext := mem.iterateNext[mem.iteratePrev[e] := mem.iterateNext[e]];
      } else {
        head := mem.iterateNext[e];
      }
    }

    method LeaveBucket(e: Addr, b: nat)
      requires e in mem.bucketNext && e in mem.bucketPrev && mem.bucketNext[e] != e && b < |buckets|
      modifies `buckets, mem`bucketNext, mem`bucketPrev
      ensures mem.bucketNext == UnlinkedNext(old(mem.bucketNext), old(mem.bucketPrev), e)
      ensures mem.bucketPrev == UnlinkedPrev(old(mem.bucketNext), old(mem.bucketPrev), e)
      ensures buckets == if old(mem.bucketPrev)[e] == 0 then old(buckets)[b := old(mem.bucketNext)[e]] else old(buckets)
    {
      if mem.bucketNext[e] != 0 {
        mem.bucketPrev := mem.bucketPrev[mem.bucketNext[e] := mem.bucketPrev[e]];
      }
      if mem.bucketPrev[e] != 0 {
        mem.bucketNext := mem.bucketNext[mem.bucketPrev[e] := mem.bucketNext[e]];
      } else {
        buckets := buckets[b := mem.bucketNext[e]];
      }
    }

    method UnlinkEntry(e: Addr, b: nat, ghost p: nat)
      requires Valid() && p < |order| && order[p] == e && b == Bucket(hasher, KeyOf(mem.View(), e))
      modifies this, mem`bucketNext, mem`bucketPrev, mem`iterateNext, mem`iteratePrev
      ensures Valid()
      ensures order == Dropped(old(order), p)
      ensures Pairs() == Dropped(old(Pairs()), p)
      ensures SameOutside(old(mem.View()), mem.View(), Elements(old(order)))
    {
      ghost var m, t := mem.View(), Shape();
      ghost var q := PlaceInChain(hasher, m, t, order, chains, p);
      UnlinkKeepsMap(hasher, m, t, order, chains, p, q);
      LeaveOrder(e);
      LeaveBucket(e, b);
      n := n - 1;
      order, chains := Dropped(order, p), chains[b := Dropped(chains[b], q)];
      assert mem.View() == UnlinkedMem(m, e) && Shape() == UnlinkedTable(m, t, e, b);
    }

    // ---------- operations ----------

    /** Looks for a key in one bucket. */
    method ScanBucket(b: nat, k: Key) returns (e: Addr)
      requires Shaped() && b < NBUCKETS
      ensures e != 0 ==> e in chains[b] && hasher.same(KeyOf(mem.View(), e), k)
      ensures e == 0 ==> forall j :: 0 <= j < |chains[b]| ==> !hasher.same(KeyOf(mem.View(), chains[b][j]), k)
    {
      ghost var m, chain, i := mem.View(), chains[b], 0;
      e := buckets[b];
      while e != 0
        invariant 0 <= i <= |chain| && e == if i < |chain| then chain[i] else 0
        invariant forall j :: 0 <= j < i ==> !hasher.same(KeyOf(m, chain[j]), k)
        decreases |chain| - i
      {
        assert chain[i] in chain && chain[i] in order;
        if hasher.same(mem.key[e], k) {
          return;
        }
        LinkedAt(m.bucketNext, m.bucketPrev, chain, i);
        e := mem.bucketNext[e];
        i := i + 1;
        if i < |chain| {
          LinkedAt(m.bucketNext, m.bucketPrev, chain, i);
        }
      }
      if i < |chain| {
        LinkedAt(m.bucketNext, m.bucketPrev, chain, i);
      }
    }

    method HashScan(b: nat, k: Key) returns (e: Addr)
      requires Valid() && b == Bucket(hasher, k)
      ensures Has(hasher, Pairs(), k) ==> Find(hasher, Pairs(), k) < |order| && e == order[Find(hasher, Pairs(), k)] > 0
      ensures !Has(hasher, Pairs(), k) ==> e == 0
    {
      ghost var m := mem.View();
      e := ScanBucket(b, k);
      if e != 0 {
        ScanFinds(hasher, m, Shape(), order, chains, k, e);
        LinkedMembers(m.bucketNext, m.bucketPrev, chains[b], e);
      } else {
        ScanMisses(hasher, m, Shape(), order, chains, k);
      }
    }

    /** The value stored under a key, or 0. */
    method Get(k: Key) returns (v: Value)
      requires Valid()
      ensures Has(hasher, Pairs(), k) ==>
                Find(hasher, Pairs(), k) < |Pairs()| && v == Pairs()[Find(hasher, Pairs(), k)].1
      ensures !Has(hasher, Pairs(), k) ==> v == 0
    {
      var e := HashScan(Bucket(hasher, k), k);
      if e == 0 {
        return 0;
      }
      assert e in order;
      return mem.value[e];
    }

    /** Fills a free entry with a pair and links it at the end. */
    method Append(e: Addr, b: nat, k: Key, v: Value)
      requires Valid() && e > 0 && e !in order && !Has(hasher, Pairs(), k) && b == Bucket(hasher, k)
      modifies this, mem
      ensures Valid()
      ensures order == old(order) + [e]
      ensures Pairs() == old(Pairs()) + [(k, v)]
      ensures SameOutside(old(mem.View()), mem.View(), Elements(old(order)) + {e})
    {
      ghost var m := mem.View();
      WriteFree(hasher, m, Shape(), order, chains, e, k, v);
      mem.key := mem.key[e := k];
      mem.value := mem.value[e := v];
      ghost var m1 := mem.View();
      LinkEntry(e, b);
      SameOutsideWidens(m, m1, {e}, Elements(old(order)) + {e});
      SameOutsideJoins(m, m1, mem.View(), Elements(old(order)) + {e});
    }

    /** Adds a pair at the end, unless the key is there already. `tile` is the entry that the
        allocator would hand out, or 0 if memory is short. */
    method Put(k: Key, v: Value, tile: Addr) returns (r: int)
      requires Valid() && tile !in order
      modifies this, mem
      ensures Valid()
      ensures Has(hasher, old(Pairs()), k) ==>
                && Pairs() == old(Pairs()) && order == old(order)
                && Find(hasher, old(Pairs()), k) < |old(Pairs())|
                && r == if old(Pairs())[Find(hasher, old(Pairs()), k)].1 == v then 0 else EEXIST
      ensures !Has(hasher, old(Pairs()), k) && tile == 0 ==>
                r == ENOMEM && Pairs() == old(Pairs()) && order == old(order)
      ensures !Has(hasher, old(Pairs()), k) && tile > 0 ==>
                r == 1 && Pairs() == old(Pairs()) + [(k, v)] && order == old(order) + [tile]
      ensures SameOutside(old(mem.View()), mem.View(), Elements(old(order)) + {tile})
    {
      var b := Bucket(hasher, k);
      var e := HashScan(b, k);
      if e != 0 {
        assert e in order;
        return if mem.value[e] == v then 0 else EEXIST;
      }
      if tile == 0 {
        return ENOMEM;
      }
      Append(tile, b, k, v);
      return 1;
    }

    /** Overwrites the pair of an equal key where it is, or adds the pair at the end. */
    method Replace(k: Key, v: Value, tile: Addr) returns (r: int)
      requires Valid() && tile !in order
      modifies this, mem
      ensures Valid()
      ensures Has(hasher, old(Pairs()), k) ==>
                && Find(hasher, old(Pairs()), k) < |old(Pairs())|
                && r == 0 && Pairs() == old(Pairs())[Find(hasher, old(Pairs()), k) := (k, v)] && order == old(order)
      ensures !Has(hasher, old(Pairs()), k) && tile == 0 ==>
                r == ENOMEM && Pairs() == old(Pairs()) && order == old(order)
      ensures !Has(hasher, old(Pairs()), k) && tile > 0 ==>
                r == 1 && Pairs() == old(Pairs()) + [(k, v)] && order == old(order) + [tile]
      ensures SameOutside(old(mem.View()), mem.View(), Elements(old(order)) + {tile})
    {
      var e := HashScan(Bucket(hasher, k), k);
      if e != 0 {
        Overwrite(e, k, v, Find(hasher, Pairs(), k));
        SameOutsideWidens(old(mem.View()), mem.View(), Elements(old(order)), Elements(old(order)) + {tile});
        return 0;
      }
      r := Put(k, v, tile);
    }

    method Overwrite(e: Addr, k: Key, v: Value, ghost p: nat)
      requires Valid() && p < |order| && order[p] == e && p == Find(hasher, Pairs(), k)
      modifies mem`key, mem`value
      ensures Valid()
      ensures Pairs() == old(Pairs())[p := (k, v)]
      ensures SameOutside(old(mem.View()), mem.View(), Elements(order))
    {
      FindIsFirst(hasher, Pairs(), k);
      WriteInPlace(hasher, mem.View(), Shape(), order, chains, p, k, v);
      mem.key := mem.key[e := k];
      mem.value := mem.value[e := v];
    }

    method RemoveEntry(e: Addr, ghost p: nat)
      requires Valid() && p < |order| && order[p] == e
      modifies this, mem
      ensures Valid()
      ensures order == Dropped(old(order), p)
      ensures Pairs() == Dropped(old(Pairs()), p)
      ensures SameOutside(old(mem.View()), mem.View(), Elements(old(order)))
    {
      assert e in order;
      UnlinkEntry(e, Bucket(hasher, mem.key[e]), p);
    }

    /** Takes the pair of an equal key out, and returns its value, or 0. */
    method Remove(k: Key) returns (v: Value)
      requires Valid()
      modifies this, mem
      ensures Valid()
      ensures Pairs() == Erase(hasher, old(Pairs()), k)
      ensures !Has(hasher, old(Pairs()), k) ==> v == 0 && order == old(order)
      ensures Has(hasher, old(Pairs()), k) ==>
                && Find(hasher, old(Pairs()), k) < |old(Pairs())|
                && v == old(Pairs())[Find(hasher, old(Pairs()), k)].1
                && order == Dropped(old(order), Find(hasher, old(Pairs()), k))
      ensures SameOutside(old(mem.View()), mem.View(), Elements(old(order)))
    {
      var e := HashScan(Bucket(hasher, k), k);
      if e == 0 {
        return 0;
      }
      assert e in order;
      v := mem.value[e];
      RemoveEntry(e, Find(hasher, Pairs(), k));
    }

    method RemoveValue(k: Key, v: Value) returns (r: Value)
      requires Valid()
      modifies this, mem
      ensures Valid()
      ensures var c, p := old(Pairs()), Find(hasher, old(Pairs()), k);
              if Has(hasher, c, k) && p < |c| && c[p].1 == v
              then r == v && Pairs() == Dropped(c, p)
              else r == 0 && Pairs() == c
      ensures SameOutside(old(mem.View()), mem.View(), Elements(old(order)))
    {
      var e := HashScan(Bucket(hasher, k), k);
      if e == 0 {
        return 0;
      }
      assert e in order;
      if mem.value[e] != v {
        return 0;
      }
      RemoveEntry(e, Find(hasher, Pairs(), k));
      return v;
    }

    /** Takes an entry out and puts it back at the end with another pair. */
    method Refill(e: Addr, k: Key, v: Value, ghost p: nat)
      requires Valid() && p < |order| && order[p] == e && !Has(hasher, Dropped(Pairs(), p), k)
      modifies this, mem
      ensures Valid()
      ensures Pairs() == Dropped(old(Pairs()), p) + [(k, v)]
      ensures Elements(order) == Elements(old(order))
      ensures SameOutside(old(mem.View()), mem.View(), Elements(old(order)))
    {
      ghost var members := Elements(order);
      LinkedAt(mem.iterateNext, mem.iteratePrev, order, p);
      DroppedDistinct(order, p);
      assert e in order;
      RemoveEntry(e, p);
      ghost var m1 := mem.View();
      Append(e, Bucket(hasher, k), k, v);
      assert Elements(Dropped(old(order), p)) + {e} <= members;
      SameOutsideWidens(m1, mem.View(), Elements(Dropped(old(order), p)) + {e}, members);
      SameOutsideJoins(old(mem.View()), m1, mem.View(), members);
    }

    method RemoveAndPut(oldKey: Key, newKey: Key, v: Value) returns (r: int)
      requires Valid()
      modifies this, mem
      ensures Valid()
      ensures var c := old(Pairs());
              if !Has(hasher, c, oldKey) then r == ENOENT && Pairs() == c
              else if Has(hasher, c, newKey) then r == EEXIST && Pairs() == c
              else r == 0 && Pairs() == Erase(hasher, c, oldKey) + [(newKey, v)]
      ensures Elements(order) == Elements(old(order))
      ensures SameOutside(old(mem.View()), mem.View(), Elements(old(order)))
    {
      var e := HashScan(Bucket(hasher, oldKey), oldKey);
      if e == 0 {
        return ENOENT;
      }
      var f := HashScan(Bucket(hasher, newKey), newKey);
      if f != 0 {
        return EEXIST;
      }
      ghost var p := Find(hasher, Pairs(), oldKey);
      if Has(hasher, Dropped(Pairs(), p), newKey) {
        WithoutHas(hasher, Pairs(), p, newKey);
      }
      Refill(e, newKey, v, p);
      return 0;
    }

    method RemoveAndReplace(oldKey: Key, newKey: Key, v: Value) returns (r: int)
      requires Valid()
      modifies this, mem
      ensures Valid()
      ensures var c := old(Pairs());
              if !Has(hasher, c, oldKey) then r == ENOENT && Pairs() == c
              else r == 0 && Pairs() == Erase(hasher, Erase(hasher, c, newKey), oldKey) + [(newKey, v)]
      ensures var c, e := old(Pairs()), EntryUnder(hasher, old(Pairs()), old(order), newKey);
              if Has(hasher, c, oldKey) && e != 0 && e != EntryUnder(hasher, c, old(order), oldKey)
              then e in old(order) && Elements(order) == Elements(old(order)) - {e}
              else Elements(order) == Elements(old(order))
      ensures SameOutside(old(mem.View()), mem.View(), Elements(old(order)))
    {
      var e := HashScan(Bucket(hasher, oldKey), oldKey);
      if e == 0 {
        return ENOENT;
      }
      ghost var c := Pairs();
      ghost var p := Find(hasher, c, oldKey);
      var f := HashScan(Bucket(hasher, newKey), newKey);
      if f != 0 && e != f {
        EraseOther(hasher, c, oldKey, newKey);
        p := DropOther(e, f, p, Find(hasher, c, newKey));
        ghost var m1, members := mem.View(), Elements(old(order));
        Refill(e, newKey, v, p);
        SameOutsideWidens(m1, mem.View(), Elements(Dropped(old(order), Find(hasher, c, newKey))), members);
        SameOutsideJoins(old(mem.View()), m1, mem.View(), members);
        return 0;
      }
      if f != 0 {
        DistinctAt(order, Find(hasher, c, newKey), p);
      }
      EraseSelf(hasher, c, oldKey, newKey);
      Refill(e, newKey, v, p);
      return 0;
    }

    /** Removes entry `f`, and tells where entry `e` is then. */
    method DropOther(e: Addr, f: Addr, ghost p: nat, ghost j: nat) returns (ghost p': nat)
      requires Valid() && p < |order| && order[p] == e && j < |order| && order[j] == f && e != f
      modifies this, mem
      ensures Valid()
      ensures order == Dropped(old(order), j) && Pairs() == Dropped(old(Pairs()), j)
      ensures p' == (if p < j then p else p - 1) && p' < |order| && order[p'] == e
      ensures Elements(order) == Elements(old(order)) - {f}
      ensures SameOutside(old(mem.View()), mem.View(), Elements(old(order)))
    {
      DroppedDistinct(order, j);
      RemoveEntry(f, j);
      p' := if p < j then p else p - 1;
    }

    /** Takes the first pair out, and returns its value, or 0. */
    method StealFirst() returns (v: Value)
      requires Valid()
      modifies this, mem
      ensures Valid()
      ensures old(Pairs()) == [] ==> v == 0 && Pairs() == []
      ensures old(Pairs()) != [] ==> v == old(Pairs())[0].1 && Pairs() == old(Pairs())[1..]
      ensures |old(order)| > 0 ==> |order| == |old(order)| - 1
      ensures Elements(order) <= Elements(old(order))
      ensures SameOutside(old(mem.View()), mem.View(), Elements(old(order)))
    {
      if head == 0 {
        if order != [] {
          LinkedAt(mem.iterateNext, mem.iteratePrev, order, 0);
        }
        return 0;
      }
      assert head in order;
      DroppedDistinct(order, 0);
      v := mem.value[head];
      RemoveEntry(head, 0);
    }

    method Clear()
      requires Valid()
      modifies this, mem
      ensures Valid()
      ensures Pairs() == [] && order == []
      ensures SameOutside(old(mem.View()), mem.View(), Elements(old(order)))
    {
      while head != 0
        invariant Valid()
        invariant Elements(order) <= Elements(old(order))
        invariant SameOutside(old(mem.View()), mem.View(), Elements(old(order)))
        decreases |order|
      {
        ghost var m1, members := mem.View(), Elements(order);
        var _ := StealFirst();
        SameOutsideWidens(m1, mem.View(), members, Elements(old(order)));
        SameOutsideJoins(old(mem.View()), m1, mem.View(), Elements(old(order)));
      }
      if order != [] {
        LinkedAt(mem.iterateNext, mem.iteratePrev, order, 0);
      }
    }

    // ---------- two maps ----------

    /** Two maps in the same memory that share no entry. */
    ghost predicate Beside(other: Map)
      reads this, other
    {
      other != this && other.mem == mem && Elements(order) !! Elements(other.order)
    }

    /** The entries of both maps. */
    ghost function Both(other: Map): set<Addr>
      reads this, other
    {
      Elements(order) + Elements(other.order)
    }

    /** Moves an entry of the other map to the end of this one, and into the bucket `to`. */
    method MoveEntry(other: Map, e: Addr, from: nat, to: nat, ghost p: nat)
      requires Valid() && other.Valid() && Beside(other) && p < |other.order| && other.order[p] == e
      requires e in mem.key && from == Bucket(other.hasher, mem.key[e]) && to < NBUCKETS
      modifies this, other, mem
      ensures Shaped() && other.Valid() && Beside(other)
      ensures Valid() <==> to == Bucket(hasher, old(mem.key[e])) && !Has(hasher, old(Pairs()), old(mem.key[e]))
      ensures order == old(order) + [e] && other.order == Dropped(old(other.order), p)
      ensures chains == old(chains)[to := [e] + old(chains)[to]]
      ensures Pairs() == old(Pairs()) + [old(other.Pairs())[p]]
      ensures other.Pairs() == Dropped(old(other.Pairs()), p)
      ensures Both(other) == old(Both(other)) && SameOutside(old(mem.View()), mem.View(), old(Both(other)))
    {
      ghost var m, members := mem.View(), Both(other);
      DroppedDistinct(other.order, p);
      assert e in other.order && e in Elements(other.order) && e !in Elements(order);
      LinkedAt(mem.iterateNext, mem.iteratePrev, other.order, p);
      other.UnlinkEntry(e, from, p);
      FrameBeside(hasher, m, Shape(), order, chains, mem.View(), Elements(old(other.order)));
      ghost var m1 := mem.View();
      LinkAnywhere(e, to);
      FrameBeside(other.hasher, m1, other.Shape(), other.order, other.chains, mem.View(), Elements(old(order)) + {e});
      SameOutsideWidens(m, m1, Elements(old(other.order)), members);
      SameOutsideWidens(m1, mem.View(), Elements(old(order)) + {e}, members);
      SameOutsideJoins(m, m1, mem.View(), members);
    }

    /** Moves the pair under a key from the other map to the end of this one. The entry is linked into
        the bucket of `k`; this map is consistent afterwards exactly if that is right for its own key. */
    method MoveOne(other: Map, k: Key) returns (r: int)
      requires Valid() && other.Valid() && Beside(other)
      modifies this, other, mem
      ensures Shaped() && other.Valid() && Beside(other)
      ensures Valid() <==> MovesRight(hasher, old(Pairs()), other.hasher, old(other.Pairs()), k)
      ensures Both(other) == old(Both(other)) && SameOutside(old(mem.View()), mem.View(), old(Both(other)))
      ensures var c, d, p := old(Pairs()), old(other.Pairs()), Find(other.hasher, old(other.Pairs()), k);
              if Has(hasher, c, k) then r == EEXIST && Pairs() == c && other.Pairs() == d
              else if !Has(other.hasher, d, k) then r == ENOENT && Pairs() == c && other.Pairs() == d
              else
                && r == 0 && p < |d| && Pairs() == c + [d[p]] && other.Pairs() == Dropped(d, p)
                && order == old(order) + [old(other.order)[p]]
                && chains == old(chains)[Bucket(hasher, k) := [old(other.order)[p]] + old(chains)[Bucket(hasher, k)]]
    {
      var f := HashScan(Bucket(hasher, k), k);
      if f != 0 {
        return EEXIST;
      }
      var e := other.HashScan(Bucket(other.hasher, k), k);
      if e == 0 {
        return ENOENT;
      }
      ghost var p := Find(other.hasher, other.Pairs(), k);
      assert e in other.order && other.Pairs()[p].0 == mem.key[e];
      FindIsFirst(other.hasher, other.Pairs(), k);
      BucketOfFound(other.hasher, other.Pairs(), k);
      MoveEntry(other, e, Bucket(other.hasher, k), Bucket(hasher, k), p);
      return 0;
    }

    /** Moves every pair of the other map whose key is not here yet, in order; the rest stay. */
    method Move(other: Map)
      requires Valid() && other.Valid() && Beside(other)
      modifies this, other, mem
      ensures Valid() && other.Valid() && Beside(other)
      ensures Pairs() == PutAll(hasher, old(Pairs()), old(other.Pairs()))
      ensures other.Pairs() == LeftBehind(hasher, old(Pairs()), old(other.Pairs()))
      ensures Both(other) == old(Both(other)) && SameOutside(old(mem.View()), mem.View(), old(Both(other)))
    {
      ghost var c, d, all := Pairs(), other.Pairs(), other.order;
      ghost var m, members := mem.View(), Both(other);
      ghost var j, left: seq<Addr> := 0, [];
      var e := other.head;
      WholePrefix(d, []);
      WholePrefix(all, []);
      while e != 0
        invariant Valid() && other.Valid() && Beside(other)
        invariant 0 <= j <= |all| == |d|
        invariant other.order == left + all[j..] && e == First(all[j..])
        invariant Pairs() == PutAll(hasher, c, d[..j])
        invariant other.Pairs() == LeftBehind(hasher, c, d[..j]) + d[j..] && |left| == |LeftBehind(hasher, c, d[..j])|
        invariant Both(other) == members && SameOutside(m, mem.View(), members)
        decreases |all| - j
      {
        ghost var m1 := mem.View();
        e, left := MoveNext(other, e, c, d, all, j, left);
        SameOutsideJoins(m, m1, mem.View(), members);
        j := j + 1;
      }
      if j < |all| {
        LinkedAt(mem.iterateNext, mem.iteratePrev, other.order, |left|);
      }
      WholePrefix(d, LeftBehind(hasher, c, d));
    }

    method MoveNext(other: Map, e: Addr, ghost c: Contents, ghost d: Contents, ghost all: seq<Addr>, ghost j: nat,
                    ghost left: seq<Addr>)
      returns (next: Addr, ghost left': seq<Addr>)
      requires Valid() && other.Valid() && Beside(other)
      requires j < |all| == |d| && other.order == left + all[j..] && e == all[j]
      requires Pairs() == PutAll(hasher, c, d[..j])
      requires other.Pairs() == LeftBehind(hasher, c, d[..j]) + d[j..] && |left| == |LeftBehind(hasher, c, d[..j])|
      modifies this, other, mem
      ensures Valid() && other.Valid() && Beside(other)
      ensures other.order == left' + all[j + 1..] && next == First(all[j + 1..])
      ensures Pairs() == PutAll(hasher, c, d[..j + 1])
      ensures other.Pairs() == LeftBehind(hasher, c, d[..j + 1]) + d[j + 1..]
      ensures |left'| == |LeftBehind(hasher, c, d[..j + 1])|
      ensures Both(other) == old(Both(other)) && SameOutside(old(mem.View()), mem.View(), old(Both(other)))
    {
      ghost var p := |left|;
      StepOver(left, all, j);
      StepOver(LeftBehind(hasher, c, d[..j]), d, j);
      assert e in other.order;
      LinkedAt(mem.iterateNext, mem.iteratePrev, other.order, p);
      PutAllStep(hasher, c, d, j);
      next := mem.iterateNext[e];
      assert next == First(all[j + 1..]);
      var f := HashScan(Bucket(hasher, mem.key[e]), mem.key[e]);
      if f != 0 {
        left' := left + [e];
      } else {
        left' := left;
        MoveEntry(other, e, Bucket(other.hasher, mem.key[e]), Bucket(hasher, mem.key[e]), p);
      }
    }

    /** Adds copies of the other map's pairs whose key is not here yet. `tiles` are the entries the
        allocator hands out, one per pair; 0 stands for a failed allocation. */
    method Merge(other: Map, tiles: seq<Addr>) returns (r: int, ghost seen: nat)
      requires Valid() && other.Valid() && Beside(other)
      requires |tiles| == |other.order| && DistinctTiles(tiles)
      requires forall i :: 0 <= i < |tiles| ==> tiles[i] !in order && tiles[i] !in other.order
      modifies this, mem
      ensures Valid() && other.Valid() && Beside(other) && other.Pairs() == old(other.Pairs())
      ensures r == 0 || r == ENOMEM
      ensures r == 0 ==> Pairs() == PutAll(hasher, old(Pairs()), other.Pairs())
      ensures r == ENOMEM ==> seen < |tiles| == |other.Pairs()| && tiles[seen] == 0
                              && Pairs() == PutAll(hasher, old(Pairs()), other.Pairs()[..seen])
      ensures (forall i :: 0 <= i < |tiles| ==> tiles[i] > 0) ==> r == 0
    {
      ghost var c, d, all := Pairs(), other.Pairs(), other.order;
      ghost var j := 0;
      var e, i := other.head, 0;
      assert d[..0] == [];
      while e != 0
        invariant Valid() && other.Valid() && Beside(other) && other.Pairs() == d && other.order == all
        invariant 0 <= j <= |all| == |d| && i == j && e == if j < |all| then all[j] else 0
        invariant Pairs() == PutAll(hasher, c, d[..j])
        invariant FromTiles(order, old(order), tiles, j)
        decreases |all| - j
      {
        NoNullMember(mem.iterateNext, mem.iteratePrev, order);
        TileIsFree(order, old(order), tiles, j);
        FromTilesGrows(order, old(order), tiles, j);
        var next, ok := MergeNext(other, e, tiles[i], c, d, j);
        if !ok {
          return ENOMEM, j;
        }
        e, i, j := next, i + 1, j + 1;
      }
      if j < |all| {
        LinkedAt(mem.iterateNext, mem.iteratePrev, other.order, j);
      }
      assert d[..|d|] == d;
      return 0, j;
    }

    method MergeNext(other: Map, e: Addr, tile: Addr, ghost c: Contents, ghost d: Contents, ghost j: nat)
      returns (next: Addr, ok: bool)
      requires Valid() && other.Valid() && Beside(other) && other.Pairs() == d && j < |d| == |other.order|
                && e == other.order[j]
      requires Pairs() == PutAll(hasher, c, d[..j]) && tile !in order && tile !in other.order
      modifies this, mem
      ensures Valid() && other.Valid() && Beside(other) && other.Pairs() == d && other.order == old(other.order)
      ensures ok ==> Pairs() == PutAll(hasher, c, d[..j + 1]) && next == After(other.order, j)
      ensures !ok ==> Pairs() == old(Pairs()) && tile == 0
      ensures order == old(order) || order == old(order) + [tile]
    {
      ghost var m := mem.View();
      assert e in other.order && other.Pairs()[j] == d[j];
      PutAllStep(hasher, c, d, j);
      var r := Put(mem.key[e], mem.value[e], tile);
      FrameBeside(other.hasher, m, other.Shape(), other.order, other.chains, mem.View(), Elements(old(order)) + {tile});
      ok := r >= 0 || r == EEXIST;
      LinkedAt(mem.iterateNext, mem.iteratePrev, other.order, j);
      next := mem.iterateNext[e];
    }

    /** A copy has the same pairs in the same order; None if memory is short. */
    method Copy(tiles: seq<Addr>) returns (copy: Map, ok: bool)
      requires Valid()
      requires |tiles| == |order| && DistinctTiles(tiles) && forall i :: 0 <= i < |tiles| ==> tiles[i] !in order
      modifies mem
      ensures Valid() && Pairs() == old(Pairs())
      ensures fresh(copy) && copy.mem == mem && copy.Valid()
      ensures ok ==> copy.Pairs() == Pairs()
      ensures !ok ==> copy.Pairs() == []
      ensures (forall i :: 0 <= i < |tiles| ==> tiles[i] > 0) ==> ok
    {
      copy := new Map(mem, hasher);
      var r, _ := copy.Merge(this, tiles);
      ok := r == 0;
      if ok {
        PutAllCopies(hasher, Pairs());
      } else {
        ghost var m := mem.View();
        ghost var gone := Elements(copy.order);
        copy.Clear();
        FrameBeside(hasher, m, Shape(), order, chains, mem.View(), gone);
      }
    }

    // ---------- iterating ----------

    /** The value at the iterator, which moves on; 0 at the end. */
    method Iterate(i: Iterator) returns (i': Iterator, k: Key, v: Value, ghost p: nat)
      requires Valid()
      requires i.Entry? ==> i.at in order
      ensures Pairs() == old(Pairs())
      ensures p <= |order|
      ensures i.AtStart? ==> p == 0
      ensures i.AtEnd? ==> p == |order|
      ensures i.Entry? ==> p < |order| && order[p] == i.at
      ensures p == |order| ==> v == 0 && i' == AtEnd
      ensures p < |order| ==> (k, v) == Pairs()[p] && i' == IteratorAt(order, p + 1)
    {
      if i.AtEnd? || (i.AtStart? && head == 0) {
        if order != [] {
          LinkedAt(mem.iterateNext, mem.iteratePrev, order, 0);
        }
        return AtEnd, 0, 0, |order|;
      }
      var e := if i.AtStart? then head else i.at;
      p := PositionOf(order, e);
      LinkedAt(mem.iterateNext, mem.iteratePrev, order, p);
      if p + 1 < |order| {
        LinkedAt(mem.iterateNext, mem.iteratePrev, order, p + 1);
      }
      if i.AtStart? {
        DistinctAt(order, p, 0);
      }
      i' := if mem.iterateNext[e] != 0 then Entry(mem.iterateNext[e]) else AtEnd;
      k, v := mem.key[e], mem.value[e];
    }

    /** A HASHMAP_FOREACH that has visited the first `j` of the pairs `c`, at the entries `all`, and
        removed those that `keep` rejects; the others are at `kept`. */
    ghost predicate Visited(c: Contents, all: seq<Addr>, keep: (Key, Value) -> bool, j: nat, kept: seq<Addr>)
      reads this, mem
    {
      && Valid()
      && j <= |all| == |c|
      && order == kept + all[j..]
      && Pairs() == Kept(c[..j], keep) + c[j..]
      && |kept| == |Kept(c[..j], keep)|
    }

    /** A HASHMAP_FOREACH whose body removes the pairs that `keep` rejects, each when it is visited. The
        loop ends at the first NULL value; the pairs from there on stay as they are. */
    method ForeachRemoving(keep: (Key, Value) -> bool) returns (visited: Contents)
      requires Valid()
      modifies this, mem
      ensures Valid()
      ensures visited == old(Pairs())[..FirstNull(old(Pairs()))]
      ensures Pairs() == Kept(visited, keep) + old(Pairs())[FirstNull(old(Pairs()))..]
    {
      ghost var c, all := Pairs(), order;
      ghost var j, kept: seq<Addr> := 0, [];
      visited := [];
      WholePrefix(c, []);
      WholePrefix(all, []);
      var i, k, v := NextVisit(AtStart, keep, c, all, 0, []);
      while v != 0
        invariant 0 <= j && Visited(c, all, keep, j, kept) && visited == c[..j]
        invariant j == |c| ==> v == 0
        invariant j < |c| ==> (k, v) == c[j] && i == IteratorAt(all, j + 1)
        invariant j <= FirstNull(c)
        decreases |all| - j
      {
        PrefixGrows(c, j);
        visited := visited + [(k, v)];
        kept := Visit(k, v, keep, c, all, j, kept);
        j := j + 1;
        i, k, v := NextVisit(i, keep, c, all, j, kept);
      }
      FirstNullIs(c, j);
    }

    method NextVisit(i: Iterator, keep: (Key, Value) -> bool, ghost c: Contents, ghost all: seq<Addr>,
                     ghost j: nat, ghost kept: seq<Addr>)
      returns (i': Iterator, k: Key, v: Value)
      requires Visited(c, all, keep, j, kept) && (i == IteratorAt(all, j) || (j == 0 && i == AtStart && kept == []))
      ensures Visited(c, all, keep, j, kept)
      ensures j == |c| ==> v == 0
      ensures j < |c| ==> (k, v) == c[j] && i' == IteratorAt(all, j + 1)
    {
      ghost var p;
      if j < |all| {
        StepOver(kept, all, j);
        StepOver(Kept(c[..j], keep), c, j);
        assert all[j] in order;
      }
      i', k, v, p := Iterate(i);
      if j < |all| {
        DistinctAt(order, p, |kept|);
        assert p + 1 < |order| ==> order[p + 1] == all[j + 1];
      } else {
        assert all[j..] == [];
      }
    }

    /** The loop body: removes the entry just returned, or leaves it. */
    method Visit(k: Key, v: Value, keep: (Key, Value) -> bool, ghost c: Contents, ghost all: seq<Addr>,
                 ghost j: nat, ghost kept: seq<Addr>)
      returns (ghost kept': seq<Addr>)
      requires Visited(c, all, keep, j, kept) && j < |c| && (k, v) == c[j]
      modifies this, mem
      ensures Visited(c, all, keep, j + 1, kept')
    {
      KeptStep(c, keep, j);
      StepOver(kept, all, j);
      StepOver(Kept(c[..j], keep), c, j);
      if keep(k, v) {
        kept' := kept + [all[j]];
      } else {
        kept' := kept;
        FindIs(hasher, Pairs(), k, |kept|);
        var _ := Remove(k);
      }
    }
  }

  /** Keys are equal if they are the same. */
  function Exact(): Hasher {
    Hasher(a => a, (a, b) => a == b)
  }

  /** Keys are equal if both are even, or both odd. */
  function Parity(): Hasher {
    Hasher(a => a % 2, (a, b) => a % 2 == b % 2)
  }

  lemma ParityMovesWrong()
    ensures Agree(Exact()) && Agree(Parity()) && Bucket(Exact(), 4) == 4
    ensures Has(Parity(), [(2, 9)], 4) && Find(Parity(), [(2, 9)], 4) == 0
    ensures !MovesRight(Exact(), [], Parity(), [(2, 9)], 4)
  {
    HasWitness(Parity(), [(2, 9)], 4, 0);
    FindIsFirst(Parity(), [(2, 9)], 4);
    FindNone(Exact(), [], 4);
  }

  method ExactBesideParity() returns (m: Map, from: Map)
    ensures fresh(m) && fresh(from) && fresh(m.mem) && m.Valid() && from.Valid() && m.Beside(from)
    ensures m.hasher == Exact() && m.order == [] && m.Pairs() == []
    ensures from.hasher == Parity() && from.order == [1] && from.Pairs() == [(2, 9)]
  {
    ParityMovesWrong();
    var mem := new Memory();
    m := new Map(mem, Exact());
    from := new Map(mem, Parity());
    ghost var view := mem.View();
    var _ := from.Put(2, 9, 1);
    FrameBeside(Exact(), view, m.Shape(), m.order, m.chains, mem.View(), Elements([]) + {1});
  }

  lemma NoEntriesNoChains(h: Hasher, m: Mem, t: Table, chains: seq<seq<Addr>>, b: nat)
    requires MapOk(h, m, t, [], chains) && b < NBUCKETS
    ensures chains[b] == []
  {
    if chains[b] != [] {
      SomeElement(chains[b]);
    }
  }

  lemma SomeElement(s: seq<Addr>)
    requires s != []
    ensures exists a :: a in s
  {
    assert s[0] in s;
  }

  method MoveFour() returns (m: Map, r: int)
    ensures r == 0 && m.hasher == Exact() && m.Pairs() == [] + [(2, 9)] && m.order == [] + [1]
    ensures m.Shaped() && !m.Valid() && m.chains[2] == [] && m.chains[4] == [1] + []
  {
    var from;
    m, from := ExactBesideParity();
    ParityMovesWrong();
    FindNone(Exact(), [], 4);
    NoEntriesNoChains(Exact(), m.mem.View(), m.Shape(), m.chains, 2);
    NoEntriesNoChains(Exact(), m.mem.View(), m.Shape(), m.chains, 4);
    ghost var chains := m.chains;
    r := m.MoveOne(from, 4);
    assert m.chains == chains[4 := [1] + chains[4]];
  }

  /** The pair (2, 9) is found under 4 in a map that tells even from odd keys, and moved to one that
      tells all keys apart: there it is found neither under 2, its key, nor under 4. */
  method MovedEntryIsLost() returns (m: Map, r: int, found2: Addr, found4: Addr)
    ensures r == 0 && m.hasher == Exact() && m.Pairs() == [(2, 9)] && !m.Valid()
    ensures found2 == 0 && found4 == 0
  {
    m, r := MoveFour();
    assert m.Pairs() == [(2, 9)] && m.order == [1] && m.chains[4] == [1];
    assert m.Pairs()[0] == (KeyOf(m.mem.View(), 1), ValueOf(m.mem.View(), 1));
    found2 := m.ScanBucket(2, 2);
    found4 := m.ScanBucket(4, 4);
  }

  /** The entry in which a key is found, or 0. */
  ghost function EntryUnder(h: Hasher, c: Contents, order: seq<Addr>, k: Key): Addr {
    if Has(h, c, k) && Find(h, c, k) < |order| then order[Find(h, c, k)] else 0
  }

  /** Before the first entry, at an entry, or past the last one. */
  datatype Iterator = AtStart | Entry(at: Addr) | AtEnd

  function IteratorAt(order: seq<Addr>, p: nat): Iterator {
    if p < |order| then Entry(order[p]) else AtEnd
  }

  ghost function PositionOf(order: seq<Addr>, e: Addr): (p: nat)
    requires e in order
    ensures p < |order| && order[p] == e
  {
    var p :| 0 <= p < |order| && order[p] == e;
    p
  }

  ghost predicate DistinctTiles(tiles: seq<Addr>) {
    forall i, j :: 0 <= i < j < |tiles| && tiles[i] > 0 ==> tiles[i] != tiles[j]
  }

  lemma NoNullMember(next: map<Addr, Addr>, prev: map<Addr, Addr>, s: seq<Addr>)
    requires Linked(next, prev, s)
    ensures 0 !in s
  {
    if 0 in s {
      LinkedMembers(next, prev, s, 0);
    }
  }

  /** These are entries that were there before, and some of the first `j` tiles. */
  ghost predicate FromTiles(order: seq<Addr>, order0: seq<Addr>, tiles: seq<Addr>, j: nat) {
    j <= |tiles| && forall a {:trigger a in order} :: a in order ==> a in order0 || a in tiles[..j]
  }

  lemma FromTilesGrows(order: seq<Addr>, order0: seq<Addr>, tiles: seq<Addr>, j: nat)
    requires FromTiles(order, order0, tiles, j) && j < |tiles|
    ensures FromTiles(order, order0, tiles, j + 1) && FromTiles(order + [tiles[j]], order0, tiles, j + 1)
  {
    assert tiles[..j + 1] == tiles[..j] + [tiles[j]];
  }

  lemma TileIsFree(order: seq<Addr>, order0: seq<Addr>, tiles: seq<Addr>, j: nat)
    requires j < |tiles| && DistinctTiles(tiles) && tiles[j] !in order0 && 0 !in order
    requires FromTiles(order, order0, tiles, j)
    ensures tiles[j] !in order
  {
  }

  /** If the old key's entry is the only one that could stand under the new key, taking it out
      leaves none. */
  lemma EraseSelf(h: Hasher, c: Contents, ko: Key, kn: Key)
    requires Agree(h) && KeysApart(h, c) && Has(h, c, ko)
    requires Has(h, c, kn) ==> Find(h, c, kn) == Find(h, c, ko)
    ensures Find(h, c, ko) < |c| && !Has(h, Dropped(c, Find(h, c, ko)), kn)
    ensures Erase(h, Erase(h, c, kn), ko) == Dropped(c, Find(h, c, ko))
  {
    var p := Find(h, c, ko);
    EraseErases(h, c, ko);
    EraseErases(h, c, kn);
    if Has(h, Dropped(c, p), kn) {
      WithoutHas(h, c, p, kn);
    }
  }

  /** A map that owns none of the touched entries is not affected. */
  lemma FrameBeside(h: Hasher, m: Mem, t: Table, order: seq<Addr>, chains: seq<seq<Addr>>, m': Mem, touched: set<Addr>)
    requires MapOk(h, m, t, order, chains) && SameOutside(m, m', touched) && Elements(order) !! touched
    ensures MapOk(h, m', t, order, chains)
    ensures ContentsOf(m', order) == ContentsOf(m, order)
  {
    forall a | a in order ensures SameEntry(m, m', a) {
      assert a in Elements(order);
    }
    MapFrame(h, m, t, order, chains, m');
  }

  lemma SameOutsideWidens(m: Mem, m': Mem, s: set<Addr>, s': set<Addr>)
    requires SameOutside(m, m', s) && s <= s'
    ensures SameOutside(m, m', s')
  {
  }

  /** Where an entry of a map is in its bucket; and no entry is its own successor. */
  lemma PlaceInChain(h: Hasher, m: Mem, t: Table, order: seq<Addr>, chains: seq<seq<Addr>>, p: nat) returns (q: nat)
    requires MapOk(h, m, t, order, chains) && p < |order|
    ensures var e, b := order[p], Bucket(h, KeyOf(m, order[p]));
            && q < |chains[b]| && chains[b][q] == e
            && HasLinks(m, e) && m.iterateNext[e] != e && m.bucketNext[e] != e && t.n > 0
  {
    var e, b := order[p], Bucket(h, KeyOf(m, order[p]));
    assert e in order && e in chains[b];
    q :| 0 <= q < |chains[b]| && chains[b][q] == e;
    LinkedAt(m.iterateNext, m.iteratePrev, order, p);
    LinkedAt(m.bucketNext, m.bucketPrev, chains[b], q);
    assert At(p) && At(p + 1) && At(q) && At(q + 1);
  }
}
