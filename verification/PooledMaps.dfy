/** All hash maps together with the pool their entries come from (src/hashmap.c). */
module PooledMaps {
  import opened Collections
  import opened ErrorCodes
  import opened LinkedLists
  import opened HashmapModel
  import opened Hashmap
  import opened TilePool

  /** A map's own fields, its entries in order, and those of each bucket. */
  datatype Frame = Frame(table: Table, order: seq<Addr>, chains: seq<seq<Addr>>)

  type Frames = map<Map, Frame>

  ghost predicate FrameOk(h: Hasher, view: Mem, f: Frame) {
    MapOk(h, view, f.table, f.order, f.chains)
  }

  /** Marks the maps that a proof looks at. */
  ghost predicate This(m: Map) {
    true
  }

  /** Every map is consistent. */
  ghost predicate AllOk(view: Mem, frames: Frames) {
    forall m {:trigger This(m)} :: This(m) && m in frames ==> FrameOk(m.hasher, view, frames[m])
  }

  /** The live tiles are exactly the entries of the maps, and no tile is an entry of two of them. */
  ghost predicate Partition(live: set<Addr>, frames: Frames) {
    && (forall m {:trigger This(m)} :: This(m) && m in frames ==> Elements(frames[m].order) <= live)
    && (forall m, n {:trigger This(m), This(n)} :: This(m) && This(n) && m in frames && n in frames && m != n ==>
          Elements(frames[m].order) !! Elements(frames[n].order))
    && forall t {:trigger At(t)} :: At(t) && t in live ==> exists m: Map :: m in frames && t in frames[m].order
  }

  /** The maps that are not in `ms` hold the same pairs as before. */
  ghost predicate Unaffected(view: Mem, frames: Frames, view': Mem, frames': Frames, ms: set<Map>) {
    && frames'.Keys == frames.Keys
    && forall o {:trigger This(o)} :: This(o) && o in frames && o in frames' && o !in ms ==>
         ContentsOf(view', frames'[o].order) == ContentsOf(view, frames[o].order)
  }

  /** All maps that were there are still there, with the same pairs. */
  ghost predicate AllKept(view: Mem, frames: Frames, view': Mem, frames': Frames) {
    forall o {:trigger This(o)} :: This(o) && o in frames ==>
      o in frames' && ContentsOf(view', frames'[o].order) == ContentsOf(view, frames[o].order)
  }

  /** A new map joined, and then others were not affected. */
  lemma KeptBesideNew(v: Mem, f: Frames, v1: Mem, f1: Frames, v2: Mem, f2: Frames, m: Map)
    requires AllKept(v, f, v1, f1) && m !in f && Unaffected(v1, f1, v2, f2, {m})
    ensures AllKept(v, f, v2, f2)
  {
  }

  lemma UnaffectedJoins(v: Mem, f: Frames, v1: Mem, f1: Frames, v2: Mem, f2: Frames, ms: set<Map>)
    requires Unaffected(v, f, v1, f1, ms) && Unaffected(v1, f1, v2, f2, ms)
    ensures Unaffected(v, f, v2, f2, ms)
  {
  }

  /** Maps that own none of the touched entries are not affected. */
  lemma OthersKept(view: Mem, view': Mem, frames: Frames, m: Map, f: Frame, touched: set<Addr>)
    requires AllOk(view, frames) && m in frames && SameOutside(view, view', touched)
    requires forall o {:trigger This(o)} :: This(o) && o in frames && o != m ==> Elements(frames[o].order) !! touched
    requires FrameOk(m.hasher, view', f)
    ensures AllOk(view', frames[m := f]) && Unaffected(view, frames, view', frames[m := f], {m})
  {
    forall o | o in frames && o != m
      ensures FrameOk(o.hasher, view', frames[o])
      ensures ContentsOf(view', frames[o].order) == ContentsOf(view, frames[o].order)
    {
      assert This(o);
      FrameBeside(o.hasher, view, frames[o].table, frames[o].order, frames[o].chains, view', touched);
    }
  }

  lemma ThirdKept(view: Mem, view': Mem, frames: Frames, m: Map, f: Frame, n: Map, g: Frame, touched: set<Addr>)
    requires AllOk(view, frames) && m in frames && n in frames && m != n && SameOutside(view, view', touched)
    requires forall o {:trigger This(o)} :: This(o) && o in frames && o != m && o != n ==>
               Elements(frames[o].order) !! touched
    requires FrameOk(m.hasher, view', f) && FrameOk(n.hasher, view', g)
    ensures AllOk(view', frames[m := f][n := g])
    ensures Unaffected(view, frames, view', frames[m := f][n := g], {m, n})
  {
    forall o | o in frames && o != m && o != n
      ensures FrameOk(o.hasher, view', frames[o])
      ensures ContentsOf(view', frames[o].order) == ContentsOf(view, frames[o].order)
    {
      assert This(o);
      FrameBeside(o.hasher, view, frames[o].table, frames[o].order, frames[o].chains, view', touched);
    }
  }

  /** The entries of one map change, and the live tiles with them. */
  lemma PartitionBecomes(live: set<Addr>, frames: Frames, m: Map, f: Frame, live': set<Addr>)
    requires Partition(live, frames) && m in frames
    requires Elements(f.order) !! live - Elements(frames[m].order)
    requires live' == live - Elements(frames[m].order) + Elements(f.order)
    ensures Partition(live', frames[m := f])
  {
    assert This(m);
    var frames' := frames[m := f];
    forall u | u in live' ensures exists n: Map :: n in frames' && u in frames'[n].order {
      if u in f.order {
        assert u in frames'[m].order;
      } else {
        assert At(u);
        var n: Map :| n in frames && u in frames[n].order;
        assert u in frames'[n].order;
      }
    }
  }

  lemma PutSettles(live: set<Addr>, frames: Frames, m: Map, f: Frame, t: Addr)
    requires Partition(live, frames) && m in frames && t !in live
    requires f.order == if t != 0 then frames[m].order + [t] else frames[m].order
    ensures Partition(if t != 0 then live + {t} else live, frames[m := f])
  {
    NobodyElse(live, frames, m, t);
    assert t != 0 ==> Elements(f.order) == Elements(frames[m].order) + {t};
    PartitionBecomes(live, frames, m, f, if t != 0 then live + {t} else live);
  }

  lemma DropSettles(live: set<Addr>, frames: Frames, m: Map, f: Frame, p: nat)
    requires Partition(live, frames) && m in frames
    requires p < |frames[m].order| && DistinctMarked(frames[m].order) && f.order == Dropped(frames[m].order, p)
    ensures frames[m].order[p] in live
    ensures Partition(live - {frames[m].order[p]}, frames[m := f])
  {
    assert This(m);
    var t := frames[m].order[p];
    DroppedDistinct(frames[m].order, p);
    assert t in Elements(frames[m].order) && Elements(f.order) == Elements(frames[m].order) - {t};
    PartitionBecomes(live, frames, m, f, live - {t});
  }

  /** Some entries of one map are given up, and the others kept. */
  lemma KeepSettles(live: set<Addr>, frames: Frames, m: Map, f: Frame, gone: set<Addr>)
    requires Partition(live, frames) && m in frames && gone <= Elements(frames[m].order)
    requires Elements(f.order) == Elements(frames[m].order) - gone
    ensures gone <= live && Partition(live - gone, frames[m := f])
  {
    assert This(m);
    PartitionBecomes(live, frames, m, f, live - gone);
  }

  /** Two maps exchange entries. */
  lemma PartitionExchanged(live: set<Addr>, frames: Frames, m: Map, f: Frame, n: Map, g: Frame)
    requires Partition(live, frames) && m in frames && n in frames && m != n
    requires Elements(f.order) !! Elements(g.order)
    requires Elements(f.order) + Elements(g.order) == Elements(frames[m].order) + Elements(frames[n].order)
    ensures Partition(live, frames[m := f][n := g])
  {
    assert This(m) && This(n);
    var frames', both := frames[m := f][n := g], Elements(f.order) + Elements(g.order);
    forall u | u in live ensures exists o: Map :: o in frames' && u in frames'[o].order {
      assert At(u);
      var o: Map :| o in frames && u in frames[o].order;
      if o == m || o == n {
        assert u in both;
        assert u in frames'[m].order || u in frames'[n].order;
      } else {
        assert u in frames'[o].order;
      }
    }
  }

  /** A map without entries joins. */
  lemma FrameJoins(view: Mem, live: set<Addr>, frames: Frames, m: Map, f: Frame)
    requires AllOk(view, frames) && Partition(live, frames) && m !in frames
    requires f.order == [] && FrameOk(m.hasher, view, f)
    ensures AllOk(view, frames[m := f]) && Partition(live, frames[m := f])
  {
    var frames' := frames[m := f];
    forall t | t in live ensures exists n: Map :: n in frames' && t in frames'[n].order {
      assert At(t);
      var n: Map :| n in frames && t in frames[n].order;
      assert t in frames'[n].order;
    }
  }

  lemma NobodyElse(live: set<Addr>, frames: Frames, m: Map, t: Addr)
    requires Partition(live, frames) && m in frames && t !in live
    ensures Elements(frames[m].order) <= live
    ensures forall o {:trigger This(o)} :: This(o) && o in frames && o != m ==>
              Elements(frames[o].order) !! Elements(frames[m].order) + {t}
  {
    assert This(m);
  }

  lemma NoThird(live: set<Addr>, frames: Frames, m: Map, n: Map)
    requires Partition(live, frames) && m in frames && n in frames && m != n
    ensures Elements(frames[m].order) !! Elements(frames[n].order)
    ensures forall o {:trigger This(o)} :: This(o) && o in frames && o != m && o != n ==>
              Elements(frames[o].order) !! Elements(frames[m].order) + Elements(frames[n].order)
  {
    assert This(m) && This(n);
  }

  /** A pair was put into a map that held `c`: 0 or -EEXIST if the key is there, by the value stored under
      it; else it is at the end, or memory was short. */
  ghost predicate PutDone(h: Hasher, c: Contents, k: Key, v: Value, r: int, c': Contents) {
    if Has(h, c, k) then
      Find(h, c, k) < |c| && r == (if c[Find(h, c, k)].1 == v then 0 else EEXIST) && c' == c
    else
      (r == 1 && c' == c + [(k, v)]) || (r == ENOMEM && c' == c)
  }

  /** A pair was replaced: where it is if the key is there, else as above. */
  ghost predicate ReplaceDone(h: Hasher, c: Contents, k: Key, v: Value, r: int, c': Contents) {
    if Has(h, c, k) then
      Find(h, c, k) < |c| && r == 0 && c' == c[Find(h, c, k) := (k, v)]
    else
      (r == 1 && c' == c + [(k, v)]) || (r == ENOMEM && c' == c)
  }

  /** The last of the blocks asked for since then was refused. */
  ghost predicate OutOfMemory(mallocs: seq<nat>, before: nat) {
    |mallocs| > before && mallocs[|mallocs| - 1] == 0
  }

  /** Putting all the pairs of a map into an empty one gives the same pairs. */
  lemma CopiesAre(h: Hasher, view: Mem, frames: Frames, m: Map)
    requires AllOk(view, frames) && m in frames && h == m.hasher
    ensures var d := ContentsOf(view, frames[m].order); PutAll(h, [], d) == d
  {
    assert This(m) && FrameOk(m.hasher, view, frames[m]);
    var d := ContentsOf(view, frames[m].order);
    PutAllCopies(h, d);
  }

  class Heap {
    const pool: Allocator
    const mem: Memory
    var mallocs: seq<nat>      // what malloc() returned when many pairs were copied
    ghost var frames: Frames   // all maps

    /** The maps are as recorded. */
    ghost predicate Recorded()
      reads this, frames.Keys
    {
      forall m {:trigger This(m)} :: This(m) && m in frames ==>
        m.mem == mem && frames[m] == Frame(m.Shape(), m.order, m.chains)
    }

    /** The maps that are not in `ms` are. */
    ghost predicate OthersRecorded(ms: set<Map>)
      reads this, frames.Keys
    {
      forall o {:trigger This(o)} :: This(o) && o in frames && o !in ms ==>
        o.mem == mem && frames[o] == Frame(o.Shape(), o.order, o.chains)
    }

    ghost method Refresh(m: Map)
      requires m in frames && m.mem == mem && OthersRecorded({m})
      modifies `frames
      ensures Recorded() && frames == old(frames)[m := Frame(m.Shape(), m.order, m.chains)]
    {
      frames := frames[m := Frame(m.Shape(), m.order, m.chains)];
    }

    ghost method RefreshBoth(m: Map, n: Map)
      requires m in frames && n in frames && m.mem == mem && n.mem == mem && OthersRecorded({m, n})
      modifies `frames
      ensures Recorded()
      ensures frames == old(frames)[m := Frame(m.Shape(), m.order, m.chains)][n := Frame(n.Shape(), n.order, n.chains)]
    {
      frames := frames[m := Frame(m.Shape(), m.order, m.chains)][n := Frame(n.Shape(), n.order, n.chains)];
    }

    ghost predicate Valid()
      reads this, pool, mem, frames.Keys
    {
      pool.Valid() && Recorded() && AllOk(mem.View(), frames) && Partition(pool.live, frames)
    }

    ghost function PairsOf(m: Map): Contents
      requires m in frames
      reads this, mem
    {
      ContentsOf(mem.View(), frames[m].order)
    }

    constructor (layout: Layout)
      requires Sensible(layout)
      ensures Valid() && frames == map[] && fresh(pool) && fresh(mem)
    {
      pool := new Allocator(layout);
      mem := new Memory();
      mallocs := [];
      frames := map[];
    }

    /** A map of its own. */
    method NewMap(hasher: Hasher) returns (m: Map)
      requires Valid() && Agree(hasher)
      modifies this
      ensures Valid() && fresh(m) && frames.Keys == old(frames.Keys) + {m} && PairsOf(m) == [] && m.hasher == hasher
      ensures AllKept(old(mem.View()), old(frames), mem.View(), frames) && mallocs == old(mallocs)
      ensures mem.View() == old(mem.View()) && forall o :: o in old(frames) ==> frames[o] == old(frames[o])
    {
      m := new Map(mem, hasher);
      FrameJoins(mem.View(), pool.live, frames, m, Frame(m.Shape(), m.order, m.chains));
      frames := frames[m := Frame(m.Shape(), m.order, m.chains)];
    }

    /** A tile for the pair under `k`, if the key is new and there is memory. */
    method TileFor(m: Map, k: Key, block: nat) returns (t: Addr)
      requires Valid() && m in frames && pool.MayAdd(block)
      modifies pool
      ensures pool.Valid() && t !in old(pool.live) && Recorded()
      ensures pool.live == if t == 0 then old(pool.live) else old(pool.live) + {t}
      ensures Has(m.hasher, old(PairsOf(m)), k) ==> t == 0
      ensures t == 0 ==> Has(m.hasher, old(PairsOf(m)), k) || block == 0
    {
      assert This(m) && FrameOk(m.hasher, mem.View(), frames[m]);
      var f := m.HashScan(Bucket(m.hasher, k), k);
      pool.NullIsNotLive();
      t := 0;
      if f == 0 {
        t := pool.Allocate(block);
      }
    }

    /** Puts a pair, in a tile that is allocated only if the key is new. Everything else stays as it is. */
    method Put(m: Map, k: Key, v: Value, block: nat) returns (r: int)
      requires Valid() && m in frames && pool.MayAdd(block)
      modifies this, pool, m, mem
      ensures Valid() && Unaffected(old(mem.View()), old(frames), mem.View(), frames, {m})
      ensures PutDone(m.hasher, old(PairsOf(m)), k, v, r, PairsOf(m))
      ensures Has(m.hasher, old(PairsOf(m)), k) ==> pool.live == old(pool.live)
      ensures r == ENOMEM ==> block == 0
      ensures mallocs == old(mallocs)
    {
      ghost var live := pool.live;
      var t := TileFor(m, k, block);
      r := PutIn(m, k, v, t, false, live);
    }

    /** Overwrites the pair of an equal key where it is, or puts the pair. */
    method Replace(m: Map, k: Key, v: Value, block: nat) returns (r: int)
      requires Valid() && m in frames && pool.MayAdd(block)
      modifies this, pool, m, mem
      ensures Valid() && Unaffected(old(mem.View()), old(frames), mem.View(), frames, {m})
      ensures ReplaceDone(m.hasher, old(PairsOf(m)), k, v, r, PairsOf(m))
      ensures Has(m.hasher, old(PairsOf(m)), k) ==> pool.live == old(pool.live)
      ensures r == ENOMEM ==> block == 0
    {
      ghost var live := pool.live;
      var t := TileFor(m, k, block);
      r := PutIn(m, k, v, t, true, live);
    }

    /** Puts a pair, in this tile if the key is new; `live` were the live tiles before it was allocated. */
    method PutIn(m: Map, k: Key, v: Value, t: Addr, replace: bool, ghost live: set<Addr>) returns (r: int)
      requires pool.Valid() && Recorded() && AllOk(mem.View(), frames) && Partition(live, frames) && m in frames
      requires t !in live && pool.live == if t == 0 then live else live + {t}
      requires Has(m.hasher, PairsOf(m), k) ==> t == 0
      modifies this, m, mem
      ensures Valid() && Unaffected(old(mem.View()), old(frames), mem.View(), frames, {m})
      ensures !replace ==> PutDone(m.hasher, old(PairsOf(m)), k, v, r, PairsOf(m))
      ensures replace ==> ReplaceDone(m.hasher, old(PairsOf(m)), k, v, r, PairsOf(m))
      ensures r == ENOMEM <==> t == 0 && !Has(m.hasher, old(PairsOf(m)), k)
      ensures mallocs == old(mallocs)
    {
      r := RawPut(m, k, v, t, replace, live);
      PutSettles(live, frames, m, Frame(m.Shape(), m.order, m.chains), t);
      Refresh(m);
    }

    method RawPut(m: Map, k: Key, v: Value, t: Addr, replace: bool, ghost live: set<Addr>) returns (r: int)
      requires Recorded() && AllOk(mem.View(), frames) && Partition(live, frames) && m in frames && t !in live
      requires Has(m.hasher, PairsOf(m), k) ==> t == 0
      modifies m, mem
      ensures OthersRecorded({m}) && m.mem == mem
      ensures var frames' := frames[m := Frame(m.Shape(), m.order, m.chains)];
              AllOk(mem.View(), frames') && Unaffected(old(mem.View()), frames, mem.View(), frames', {m})
      ensures m.order == if t != 0 then frames[m].order + [t] else frames[m].order
      ensures !replace ==> PutDone(m.hasher, old(PairsOf(m)), k, v, r, ContentsOf(mem.View(), m.order))
      ensures replace ==> ReplaceDone(m.hasher, old(PairsOf(m)), k, v, r, ContentsOf(mem.View(), m.order))
      ensures r == ENOMEM <==> t == 0 && !Has(m.hasher, old(PairsOf(m)), k)
    {
      ghost var view, touched := mem.View(), Elements(m.order) + {t};
      assert This(m) && FrameOk(m.hasher, view, frames[m]);
      NobodyElse(live, frames, m, t);
      NoNullMember(mem.iterateNext, mem.iteratePrev, m.order);
      if replace {
        r := m.Replace(k, v, t);
      } else {
        r := m.Put(k, v, t);
      }
      OthersKept(view, mem.View(), frames, m, Frame(m.Shape(), m.order, m.chains), touched);
    }

    // ---------- removing ----------

    /** Takes a pair out and frees its tile. Everything else stays as it is. */
    method Remove(m: Map, k: Key) returns (v: Value)
      requires Valid() && m in frames
      modifies this, pool, m, mem
      ensures Valid() && Unaffected(old(mem.View()), old(frames), mem.View(), frames, {m})
      ensures PairsOf(m) == Erase(m.hasher, old(PairsOf(m)), k)
      ensures !Has(m.hasher, old(PairsOf(m)), k) ==> v == 0 && pool.live == old(pool.live)
    {
      assert This(m) && FrameOk(m.hasher, mem.View(), frames[m]);
      v := 0;
      var e := m.HashScan(Bucket(m.hasher, k), k);
      if e != 0 {
        v := Drop(m, e, Find(m.hasher, PairsOf(m), k));
      }
    }

    method Drop(m: Map, e: Addr, ghost p: nat) returns (v: Value)
      requires Valid() && m in frames && p < |frames[m].order| && frames[m].order[p] == e
      modifies this, pool, m, mem
      ensures Valid() && Unaffected(old(mem.View()), old(frames), mem.View(), frames, {m})
      ensures PairsOf(m) == Dropped(old(PairsOf(m)), p) && v == old(PairsOf(m))[p].1
      ensures pool.live == old(pool.live) - {e} && |frames[m].order| == old(|frames[m].order|) - 1
      ensures mallocs == old(mallocs)
    {
      v := RawDrop(m, e, p);
      DropSettles(pool.live, frames, m, Frame(m.Shape(), m.order, m.chains), p);
      Refresh(m);
      FreeTile(e);
    }

    method FreeTile(e: Addr)
      requires pool.Valid() && Recorded() && e in pool.live
      modifies pool
      ensures pool.Valid() && Recorded() && pool.live == old(pool.live) - {e}
    {
      pool.Deallocate(e);
    }

    method RawDrop(m: Map, e: Addr, ghost p: nat) returns (v: Value)
      requires Valid() && m in frames && p < |frames[m].order| && frames[m].order[p] == e
      modifies m, mem
      ensures OthersRecorded({m}) && m.mem == mem && DistinctMarked(frames[m].order)
      ensures var frames' := frames[m := Frame(m.Shape(), m.order, m.chains)];
              AllOk(mem.View(), frames') && Unaffected(old(mem.View()), frames, mem.View(), frames', {m})
      ensures m.order == Dropped(frames[m].order, p)
      ensures ContentsOf(mem.View(), m.order) == Dropped(old(PairsOf(m)), p) && v == old(PairsOf(m))[p].1
    {
      ghost var view, touched := mem.View(), Elements(m.order);
      assert This(m) && FrameOk(m.hasher, view, frames[m]) && e in m.order;
      v := mem.value[e];
      m.RemoveEntry(e, p);
      OthersKept(view, mem.View(), frames, m, Frame(m.Shape(), m.order, m.chains), touched);
    }

    /** Takes the first pair out, and returns its value, or 0. */
    method StealFirst(m: Map) returns (v: Value)
      requires Valid() && m in frames
      modifies this, pool, m, mem
      ensures Valid() && Unaffected(old(mem.View()), old(frames), mem.View(), frames, {m})
      ensures old(PairsOf(m)) == [] ==> v == 0 && PairsOf(m) == []
      ensures old(PairsOf(m)) != [] ==> v == old(PairsOf(m))[0].1 && PairsOf(m) == old(PairsOf(m))[1..]
    {
      assert This(m) && FrameOk(m.hasher, mem.View(), frames[m]);
      v := 0;
      if m.order != [] {
        LinkedAt(mem.iterateNext, mem.iteratePrev, m.order, 0);
      }
      if m.head != 0 {
        v := Drop(m, m.head, 0);
      }
    }

    /** Frees the tiles of all pairs. */
    method Clear(m: Map)
      requires Valid() && m in frames
      modifies this, pool, m, mem
      ensures Valid() && Unaffected(old(mem.View()), old(frames), mem.View(), frames, {m})
      ensures PairsOf(m) == [] && mallocs == old(mallocs)
    {
      assert This(m) && Recorded();
      while m.head != 0
        invariant mallocs == old(mallocs)
        invariant Valid() && Unaffected(old(mem.View()), old(frames), mem.View(), frames, {m})
        decreases |frames[m].order|
      {
        assert This(m) && FrameOk(m.hasher, mem.View(), frames[m]);
        ghost var view1, frames1 := mem.View(), frames;
        var _ := Drop(m, m.head, 0);
        UnaffectedJoins(old(mem.View()), old(frames), view1, frames1, mem.View(), frames, {m});
      }
      assert This(m) && FrameOk(m.hasher, mem.View(), frames[m]);
      if m.order != [] {
        LinkedAt(mem.iterateNext, mem.iteratePrev, m.order, 0);
      }
    }

    /** Takes a pair out only if it has this value. */
    method RemoveValue(m: Map, k: Key, v: Value) returns (r: Value)
      requires Valid() && m in frames
      modifies this, pool, m, mem
      ensures Valid() && Unaffected(old(mem.View()), old(frames), mem.View(), frames, {m})
      ensures var c, p := old(PairsOf(m)), Find(m.hasher, old(PairsOf(m)), k);
              if Has(m.hasher, c, k) && p < |c| && c[p].1 == v
              then r == v && PairsOf(m) == Dropped(c, p)
              else r == 0 && PairsOf(m) == c && pool.live == old(pool.live)
    {
      assert This(m) && FrameOk(m.hasher, mem.View(), frames[m]);
      var e := m.HashScan(Bucket(m.hasher, k), k);
      if e == 0 {
        return 0;
      }
      assert e in m.order;
      if mem.value[e] != v {
        return 0;
      }
      r := Drop(m, e, Find(m.hasher, PairsOf(m), k));
    }

    // ---------- filling an entry anew ----------

    /** The entry of the old key takes the new pair; no tile is allocated or freed. */
    method RemoveAndPut(m: Map, oldKey: Key, newKey: Key, v: Value) returns (r: int)
      requires Valid() && m in frames
      modifies this, m, mem
      ensures Valid() && Unaffected(old(mem.View()), old(frames), mem.View(), frames, {m})
      ensures var c := old(PairsOf(m));
              if !Has(m.hasher, c, oldKey) then r == ENOENT && PairsOf(m) == c
              else if Has(m.hasher, c, newKey) then r == EEXIST && PairsOf(m) == c
              else r == 0 && PairsOf(m) == Erase(m.hasher, c, oldKey) + [(newKey, v)]
    {
      r := RawRemoveAndPut(m, oldKey, newKey, v);
      KeepSettles(pool.live, frames, m, Frame(m.Shape(), m.order, m.chains), {});
      assert pool.live - {} == pool.live;
      Refresh(m);
    }

    method RawRemoveAndPut(m: Map, oldKey: Key, newKey: Key, v: Value) returns (r: int)
      requires Valid() && m in frames
      modifies m, mem
      ensures OthersRecorded({m}) && m.mem == mem && Elements(m.order) == Elements(frames[m].order)
      ensures var frames' := frames[m := Frame(m.Shape(), m.order, m.chains)];
              AllOk(mem.View(), frames') && Unaffected(old(mem.View()), frames, mem.View(), frames', {m})
      ensures var c, c' := old(PairsOf(m)), ContentsOf(mem.View(), m.order);
              if !Has(m.hasher, c, oldKey) then r == ENOENT && c' == c
              else if Has(m.hasher, c, newKey) then r == EEXIST && c' == c
              else r == 0 && c' == Erase(m.hasher, c, oldKey) + [(newKey, v)]
    {
      ghost var view, touched := mem.View(), Elements(m.order);
      assert This(m) && FrameOk(m.hasher, view, frames[m]);
      r := m.RemoveAndPut(oldKey, newKey, v);
      OthersKept(view, mem.View(), frames, m, Frame(m.Shape(), m.order, m.chains), touched);
    }

    /** The same, and if the new key had another entry, that entry's tile is freed. */
    method RemoveAndReplace(m: Map, oldKey: Key, newKey: Key, v: Value) returns (r: int)
      requires Valid() && m in frames
      modifies this, pool, m, mem
      ensures Valid() && Unaffected(old(mem.View()), old(frames), mem.View(), frames, {m})
      ensures var c := old(PairsOf(m));
              if !Has(m.hasher, c, oldKey) then r == ENOENT && PairsOf(m) == c
              else r == 0 && PairsOf(m) == Erase(m.hasher, Erase(m.hasher, c, newKey), oldKey) + [(newKey, v)]
    {
      var gone;
      r, gone := RawRemoveAndReplace(m, oldKey, newKey, v);
      KeepSettles(pool.live, frames, m, Frame(m.Shape(), m.order, m.chains), if gone == 0 then {} else {gone});
      Refresh(m);
      if gone != 0 {
        FreeTile(gone);
      } else {
        assert pool.live - {} == pool.live;
      }
    }

    method RawRemoveAndReplace(m: Map, oldKey: Key, newKey: Key, v: Value) returns (r: int, gone: Addr)
      requires Valid() && m in frames
      modifies m, mem
      ensures OthersRecorded({m}) && m.mem == mem
      ensures gone != 0 ==> gone in Elements(frames[m].order)
      ensures Elements(m.order) == Elements(frames[m].order) - if gone == 0 then {} else {gone}
      ensures var frames' := frames[m := Frame(m.Shape(), m.order, m.chains)];
              AllOk(mem.View(), frames') && Unaffected(old(mem.View()), frames, mem.View(), frames', {m})
      ensures var c, c' := old(PairsOf(m)), ContentsOf(mem.View(), m.order);
              if !Has(m.hasher, c, oldKey) then r == ENOENT && c' == c
              else r == 0 && c' == Erase(m.hasher, Erase(m.hasher, c, newKey), oldKey) + [(newKey, v)]
    {
      ghost var view, touched := mem.View(), Elements(m.order);
      assert This(m) && FrameOk(m.hasher, view, frames[m]);
      var e := m.HashScan(Bucket(m.hasher, oldKey), oldKey);
      var f := m.HashScan(Bucket(m.hasher, newKey), newKey);
      gone := if e != 0 && f != e then f else 0;
      r := m.RemoveAndReplace(oldKey, newKey, v);
      OthersKept(view, mem.View(), frames, m, Frame(m.Shape(), m.order, m.chains), touched);
    }

    // ---------- two maps ----------

    /** Moves the entries of the other map whose keys are not here yet; no tile is allocated or freed. */
    method Move(m: Map, other: Map)
      requires Valid() && m in frames && other in frames && m != other
      modifies this, m, other, mem
      ensures Valid() && Unaffected(old(mem.View()), old(frames), mem.View(), frames, {m, other})
      ensures PairsOf(m) == PutAll(m.hasher, old(PairsOf(m)), old(PairsOf(other)))
      ensures PairsOf(other) == LeftBehind(m.hasher, old(PairsOf(m)), old(PairsOf(other)))
    {
      RawMove(m, other);
      PartitionExchanged(pool.live, frames, m, Frame(m.Shape(), m.order, m.chains),
                         other, Frame(other.Shape(), other.order, other.chains));
      RefreshBoth(m, other);
    }

    method RawMove(m: Map, other: Map)
      requires Valid() && m in frames && other in frames && m != other
      modifies m, other, mem
      ensures OthersRecorded({m, other}) && m.mem == mem && other.mem == mem
      ensures Elements(m.order) !! Elements(other.order)
      ensures Elements(m.order) + Elements(other.order) == Elements(frames[m].order) + Elements(frames[other].order)
      ensures var frames' := frames[m := Frame(m.Shape(), m.order, m.chains)]
                                   [other := Frame(other.Shape(), other.order, other.chains)];
              AllOk(mem.View(), frames') && Unaffected(old(mem.View()), frames, mem.View(), frames', {m, other})
      ensures ContentsOf(mem.View(), m.order) == PutAll(m.hasher, old(PairsOf(m)), old(PairsOf(other)))
      ensures ContentsOf(mem.View(), other.order) == LeftBehind(m.hasher, old(PairsOf(m)), old(PairsOf(other)))
    {
      ghost var view, touched := mem.View(), m.Both(other);
      assert This(m) && This(other);
      assert FrameOk(m.hasher, view, frames[m]) && FrameOk(other.hasher, view, frames[other]);
      NoThird(pool.live, frames, m, other);
      m.Move(other);
      ThirdKept(view, mem.View(), frames, m, Frame(m.Shape(), m.order, m.chains),
                other, Frame(other.Shape(), other.order, other.chains), touched);
    }

    /** Moves one entry, which is to land in the bucket of its own key. */
    method MoveOne(m: Map, other: Map, k: Key) returns (r: int)
      requires Valid() && m in frames && other in frames && m != other
      requires MovesRight(m.hasher, PairsOf(m), other.hasher, PairsOf(other), k)
      modifies this, m, other, mem
      ensures Valid() && Unaffected(old(mem.View()), old(frames), mem.View(), frames, {m, other})
      ensures var c, d, p := old(PairsOf(m)), old(PairsOf(other)), Find(other.hasher, old(PairsOf(other)), k);
              if Has(m.hasher, c, k) then r == EEXIST && PairsOf(m) == c && PairsOf(other) == d
              else if !Has(other.hasher, d, k) then r == ENOENT && PairsOf(m) == c && PairsOf(other) == d
              else r == 0 && p < |d| && PairsOf(m) == c + [d[p]] && PairsOf(other) == Dropped(d, p)
    {
      r := RawMoveOne(m, other, k);
      PartitionExchanged(pool.live, frames, m, Frame(m.Shape(), m.order, m.chains),
                         other, Frame(other.Shape(), other.order, other.chains));
      RefreshBoth(m, other);
    }

    method RawMoveOne(m: Map, other: Map, k: Key) returns (r: int)
      requires Valid() && m in frames && other in frames && m != other
      requires MovesRight(m.hasher, PairsOf(m), other.hasher, PairsOf(other), k)
      modifies m, other, mem
      ensures OthersRecorded({m, other}) && m.mem == mem && other.mem == mem
      ensures Elements(m.order) !! Elements(other.order)
      ensures Elements(m.order) + Elements(other.order) == Elements(frames[m].order) + Elements(frames[other].order)
      ensures var frames' := frames[m := Frame(m.Shape(), m.order, m.chains)]
                                   [other := Frame(other.Shape(), other.order, other.chains)];
              AllOk(mem.View(), frames') && Unaffected(old(mem.View()), frames, mem.View(), frames', {m, other})
      ensures var c, d, p := old(PairsOf(m)), old(PairsOf(other)), Find(other.hasher, old(PairsOf(other)), k);
              var c', d' := ContentsOf(mem.View(), m.order), ContentsOf(mem.View(), other.order);
              if Has(m.hasher, c, k) then r == EEXIST && c' == c && d' == d
              else if !Has(other.hasher, d, k) then r == ENOENT && c' == c && d' == d
              else r == 0 && p < |d| && c' == c + [d[p]] && d' == Dropped(d, p)
    {
      ghost var view, touched := mem.View(), m.Both(other);
      assert This(m) && This(other);
      assert FrameOk(m.hasher, view, frames[m]) && FrameOk(other.hasher, view, frames[other]);
      NoThird(pool.live, frames, m, other);
      r := m.MoveOne(other, k);
      ThirdKept(view, mem.View(), frames, m, Frame(m.Shape(), m.order, m.chains),
                other, Frame(other.Shape(), other.order, other.chains), touched);
    }

    /** What malloc() returns: 0, or a block that overlaps none of the others. */
    method Malloc() returns (block: nat)
      requires Valid()
      modifies `mallocs
      ensures Valid() && pool.MayAdd(block) && mallocs == old(mallocs) + [block]
    {
      block := *;
      if !pool.MayAdd(block) {
        block := 0;
      }
      mallocs := mallocs + [block];
    }

    /** Puts copies of the other map's pairs whose keys are not here yet, until memory is short. */
    method Merge(m: Map, other: Map) returns (r: int, ghost seen: nat)
      requires Valid() && m in frames && other in frames && m != other
      modifies this, pool, m, mem
      ensures Valid() && Unaffected(old(mem.View()), old(frames), mem.View(), frames, {m})
      ensures seen <= |old(PairsOf(other))| && (r == 0 ==> seen == |old(PairsOf(other))|)
      ensures r == 0 || r == ENOMEM
      ensures PairsOf(m) == PutAll(m.hasher, old(PairsOf(m)), old(PairsOf(other))[..seen])
      ensures r == 0 ==> PairsOf(m) == PutAll(m.hasher, old(PairsOf(m)), old(PairsOf(other)))
      ensures r == ENOMEM ==> seen < |old(PairsOf(other))| && OutOfMemory(mallocs, |old(mallocs)|)
    {
      ghost var c, d, view, frames0 := PairsOf(m), PairsOf(other), mem.View(), frames;
      assert This(other) && FrameOk(other.hasher, view, frames[other]);
      var e := other.head;
      seen := 0;
      if d != [] {
        LinkedAt(mem.iterateNext, mem.iteratePrev, other.order, 0);
      }
      assert d[..0] == [];
      while e != 0
        invariant Valid() && Unaffected(view, frames0, mem.View(), frames, {m})
        invariant seen <= |d| && PairsOf(m) == PutAll(m.hasher, c, d[..seen])
        invariant other.order == old(other.order) && |other.order| == |d|
        invariant e == if seen < |d| then other.order[seen] else 0
        invariant seen < |d| ==> other.order[seen] > 0
        invariant |mallocs| >= |old(mallocs)|
        decreases |d| - seen
      {
        var ok;
        e, ok := MergeNext(m, other, e, c, d, seen, view, frames0);
        if !ok {
          return ENOMEM, seen;
        }
        seen := seen + 1;
      }
      assert d[..|d|] == d;
      r := 0;
    }

    /** The entry after `e`, or 0. */
    method NextEntry(m: Map, e: Addr, ghost j: nat) returns (next: Addr)
      requires Valid() && m in frames && j < |m.order| && e == m.order[j]
      ensures next == (if j + 1 < |m.order| then m.order[j + 1] else 0)
      ensures j + 1 < |m.order| ==> m.order[j + 1] > 0
    {
      assert This(m) && FrameOk(m.hasher, mem.View(), frames[m]);
      LinkedAt(mem.iterateNext, mem.iteratePrev, m.order, j);
      if j + 1 < |m.order| {
        LinkedAt(mem.iterateNext, mem.iteratePrev, m.order, j + 1);
      }
      next := mem.iterateNext[e];
    }

    /** The pair of an entry. */
    method PairAt(m: Map, e: Addr, ghost j: nat) returns (k: Key, v: Value)
      requires Valid() && m in frames && j < |m.order| && e == m.order[j]
      ensures |PairsOf(m)| == |m.order| && (k, v) == PairsOf(m)[j]
    {
      assert This(m) && FrameOk(m.hasher, mem.View(), frames[m]) && e in m.order;
      k, v := mem.key[e], mem.value[e];
    }

    /** Puts the next of the pairs `d`. */
    method PutCopy(m: Map, k: Key, v: Value, ghost c: Contents, ghost d: Contents, ghost j: nat) returns (ok: bool)
      requires Valid() && m in frames && j < |d| && (k, v) == d[j] && PairsOf(m) == PutAll(m.hasher, c, d[..j])
      modifies this, pool, m, mem
      ensures Valid() && Unaffected(old(mem.View()), old(frames), mem.View(), frames, {m})
      ensures PairsOf(m) == PutAll(m.hasher, c, if ok then d[..j + 1] else d[..j])
      ensures |mallocs| > |old(mallocs)| && (!ok ==> OutOfMemory(mallocs, |old(mallocs)|))
    {
      PutAllStep(m.hasher, c, d, j);
      var block := Malloc();
      var r := Put(m, k, v, block);
      ok := r >= 0 || r == EEXIST;
    }

    method MergeNext(m: Map, other: Map, e: Addr, ghost c: Contents, ghost d: Contents, ghost j: nat,
                     ghost view: Mem, ghost frames0: Frames)
      returns (next: Addr, ok: bool)
      requires Valid() && m in frames && other in frames && m != other
      requires Unaffected(view, frames0, mem.View(), frames, {m}) && other in frames0
      requires d == ContentsOf(view, frames0[other].order) && j < |d| == |other.order| && e == other.order[j]
      requires PairsOf(m) == PutAll(m.hasher, c, d[..j])
      modifies this, pool, m, mem
      ensures Valid() && Unaffected(view, frames0, mem.View(), frames, {m})
      ensures PairsOf(m) == PutAll(m.hasher, c, if ok then d[..j + 1] else d[..j])
      ensures ok ==> next == (if j + 1 < |d| then other.order[j + 1] else 0)
      ensures ok && j + 1 < |d| ==> other.order[j + 1] > 0
      ensures |mallocs| > |old(mallocs)| && (!ok ==> OutOfMemory(mallocs, |old(mallocs)|))
    {
      assert This(other);
      var k, v := PairAt(other, e, j);
      ghost var view1, frames1 := mem.View(), frames;
      ok := PutCopy(m, k, v, c, d, j);
      UnaffectedJoins(view, frames0, view1, frames1, mem.View(), frames, {m});
      next := NextEntry(other, e, j);
    }

    /** A new map with the same pairs in the same order; it is empty if memory was short. */
    method Copy(m: Map) returns (copy: Map, ok: bool)
      requires Valid() && m in frames
      modifies this, pool, mem
      ensures Valid() && fresh(copy) && frames.Keys == old(frames.Keys) + {copy} && copy.hasher == m.hasher
      ensures AllKept(old(mem.View()), old(frames), mem.View(), frames)
      ensures PairsOf(copy) == if ok then old(PairsOf(m)) else []
      ensures !ok ==> OutOfMemory(mallocs, |old(mallocs)|)
    {
      assert This(m) && FrameOk(m.hasher, mem.View(), frames[m]);
      copy := NewMap(m.hasher);
      ghost var view1, frames1 := mem.View(), frames;
      ok := Fill(copy, m);
      KeptBesideNew(old(mem.View()), old(frames), view1, frames1, mem.View(), frames, copy);
    }

    /** Copies all pairs to a map that has none, or leaves it empty. */
    method Fill(m: Map, other: Map) returns (ok: bool)
      requires Valid() && m in frames && other in frames && m != other && PairsOf(m) == [] && m.hasher == other.hasher
      modifies this, pool, m, mem
      ensures Valid() && Unaffected(old(mem.View()), old(frames), mem.View(), frames, {m})
      ensures PairsOf(m) == if ok then old(PairsOf(other)) else []
      ensures !ok ==> OutOfMemory(mallocs, |old(mallocs)|)
    {
      CopiesAre(other.hasher, mem.View(), frames, other);
      var r;
      ghost var seen;
      r, seen := Merge(m, other);
      ok := r == 0;
      if !ok {
        Discard(m, old(mem.View()), old(frames));
      }
    }

    /** Clears a map that was the only one affected since then. */
    method Discard(m: Map, ghost view0: Mem, ghost frames0: Frames)
      requires Valid() && m in frames && Unaffected(view0, frames0, mem.View(), frames, {m})
      modifies this, pool, m, mem
      ensures Valid() && Unaffected(view0, frames0, mem.View(), frames, {m})
      ensures PairsOf(m) == [] && mallocs == old(mallocs)
    {
      ghost var view1, frames1 := mem.View(), frames;
      Clear(m);
      UnaffectedJoins(view0, frames0, view1, frames1, mem.View(), frames, {m});
    }

    /** Entries of two maps, and two entries of one map, do not overlap in memory. */
    lemma EntriesApart(m: Map, i: nat, n: Map, j: nat)
      requires Valid() && m in frames && n in frames && i < |frames[m].order| && j < |frames[n].order|
      requires m != n || i != j
      ensures Apart(frames[m].order[i], pool.layout.tileSize, frames[n].order[j], pool.layout.tileSize)
    {
      var a, b := frames[m].order[i], frames[n].order[j];
      assert This(m) && This(n) && FrameOk(m.hasher, mem.View(), frames[m]) && At(i) && At(j);
      assert a in Elements(frames[m].order) && b in Elements(frames[n].order);
      pool.LiveTilesApart(a, b);
    }
  }
}
