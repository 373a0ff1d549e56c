/** The tile allocator under the hash maps: tiles are carved from ever larger blocks, and freed
    tiles are threaded on a list through their own first word (src/hashmap.c). */
module TilePool {
  import opened Collections

  /** A block of memory with its header: where it starts, how large it is, how many tiles fit, and
      how many of them have been carved. */
  datatype Pool = Pool(base: nat, size: nat, nTiles: nat, nUsed: nat)

  datatype Layout = Layout(tileSize: nat, header: nat, page: nat)

  ghost predicate Sensible(l: Layout) {
    l.tileSize > 0 && l.page > 0
  }

  function AlignTo(n: nat, a: nat): (r: nat)
    requires a > 0
    ensures n <= r < n + a && r % a == 0
  {
    var q := (n + a - 1) / a;
    assert q * a % a == 0 by {
      MultipleOf(q, a);
    }
    q * a
  }

  lemma MultipleOf(q: nat, a: nat)
    requires a > 0
    ensures q * a % a == 0
  {
    var d, r := q * a / a, q * a % a;
    assert q * a == d * a + r;
    if d < q {
      ProductGrows(d + 1, q, a);
    } else if q < d {
      ProductGrows(q + 1, d, a);
    }
  }

  function Max(a: nat, b: nat): nat {
    if a > b then a else b
  }

  /** How much memory is asked for when the newest pool is used up: twice as many tiles as last
      time, but at least 512, rounded up to whole pages. */
  function BlockSize(l: Layout, pools: seq<Pool>): nat
    requires Sensible(l)
  {
    AlignTo(l.header + Max(512, if pools == [] then 0 else pools[0].nTiles * 2) * l.tileSize, l.page)
  }

  /** How many tiles fit in a block. */
  function Fits(l: Layout, size: nat): nat
    requires Sensible(l) && l.header <= size
  {
    (size - l.header) / l.tileSize
  }

  lemma BlockFits(l: Layout, pools: seq<Pool>)
    requires Sensible(l)
    ensures l.header <= BlockSize(l, pools)
    ensures var n := Fits(l, BlockSize(l, pools));
            && n >= 512
            && (pools != [] ==> n >= pools[0].nTiles * 2)
            && l.header + n * l.tileSize <= BlockSize(l, pools) < l.header + (n + 1) * l.tileSize
    ensures BlockSize(l, pools) % l.page == 0
    ensures var want := if pools == [] || pools[0].nTiles < 256 then 512 else pools[0].nTiles * 2;
            BlockSize(l, pools) < l.header + want * l.tileSize + l.page
  {
    var want := Max(512, if pools == [] then 0 else pools[0].nTiles * 2);
    var size := BlockSize(l, pools);
    assert want * l.tileSize <= size - l.header;
    DivideKeepsMultiple(want, l.tileSize, size - l.header);
    var n := Fits(l, size);
    assert (n + 1) * l.tileSize == n * l.tileSize + l.tileSize;
    assert size - l.header == n * l.tileSize + (size - l.header) % l.tileSize;
  }

  lemma DivideKeepsMultiple(q: nat, t: nat, n: nat)
    requires t > 0 && q * t <= n
    ensures q <= n / t && n / t * t <= n
  {
    assert n == n / t * t + n % t;
    if n / t < q {
      assert (n / t + 1) * t == n / t * t + t;
      ProductGrows(n / t + 1, q, t);
    }
  }

  lemma ProductGrows(a: nat, b: nat, t: nat)
    requires a <= b
    ensures a * t <= b * t
  {
    assert b * t == a * t + (b - a) * t;
  }

  // ---------- tiles ----------

  function Tile(l: Layout, p: Pool, i: nat): nat {
    p.base + l.header + i * l.tileSize
  }

  ghost predicate PoolOk(l: Layout, p: Pool) {
    p.base > 0 && p.nUsed <= p.nTiles && l.header + p.nTiles * l.tileSize <= p.size
  }

  predicate Apart(a: nat, m: nat, b: nat, n: nat) {
    a + m <= b || b + n <= a
  }

  ghost predicate PoolsOk(l: Layout, pools: seq<Pool>) {
    && (forall k {:trigger PoolOk(l, pools[k])} :: 0 <= k < |pools| ==> PoolOk(l, pools[k]))
    && (forall k :: 1 <= k < |pools| ==> pools[k].nUsed == pools[k].nTiles)
    && (forall j, k {:trigger Apart(pools[j].base, pools[j].size, pools[k].base, pools[k].size)} ::
          0 <= j < k < |pools| ==> Apart(pools[j].base, pools[j].size, pools[k].base, pools[k].size))
  }

  ghost predicate IsTile(l: Layout, pools: seq<Pool>, t: nat) {
    exists k, i: nat :: 0 <= k < |pools| && i < pools[k].nUsed && t == Tile(l, pools[k], i)
  }

  function Used(pools: seq<Pool>): nat {
    if pools == [] then 0 else pools[0].nUsed + Used(pools[1..])
  }

  /** A tile lies within its block, behind the header. */
  lemma TileInBlock(l: Layout, p: Pool, i: nat)
    requires PoolOk(l, p) && i < p.nTiles
    ensures p.base + l.header <= Tile(l, p, i)
    ensures Tile(l, p, i) + l.tileSize <= p.base + p.size
  {
    ProductGrows(i + 1, p.nTiles, l.tileSize);
    assert (i + 1) * l.tileSize == i * l.tileSize + l.tileSize;
  }

  lemma TilesOfPoolApart(l: Layout, p: Pool, i: nat, j: nat)
    requires i < j
    ensures Tile(l, p, i) + l.tileSize <= Tile(l, p, j)
  {
    ProductGrows(i + 1, j, l.tileSize);
    assert (i + 1) * l.tileSize == i * l.tileSize + l.tileSize;
  }

  /** Carved tiles do not overlap. */
  lemma TilesApart(l: Layout, pools: seq<Pool>, t: nat, u: nat)
    requires Sensible(l) && PoolsOk(l, pools) && IsTile(l, pools, t) && IsTile(l, pools, u) && t != u
    ensures Apart(t, l.tileSize, u, l.tileSize)
  {
    var k, i: nat :| 0 <= k < |pools| && i < pools[k].nUsed && t == Tile(l, pools[k], i);
    var m, j: nat :| 0 <= m < |pools| && j < pools[m].nUsed && u == Tile(l, pools[m], j);
    if k == m {
      if i < j {
        TilesOfPoolApart(l, pools[k], i, j);
      } else {
        TilesOfPoolApart(l, pools[k], j, i);
      }
    } else {
      TileInBlock(l, pools[k], i);
      TileInBlock(l, pools[m], j);
      assert if k < m then Apart(pools[k].base, pools[k].size, pools[m].base, pools[m].size)
                      else Apart(pools[m].base, pools[m].size, pools[k].base, pools[k].size);
    }
  }

  /** The free tiles, in the order in which they are handed out: each holds the address of the next. */
  ghost predicate Threaded(first: nat, word: map<nat, nat>, free: seq<nat>) {
    && DistinctMarked(free)
    && first == (if free == [] then 0 else free[0])
    && (forall i :: 0 <= i < |free| ==> free[i] > 0 && free[i] in word)
    && (forall i {:trigger After(free, i)} :: 0 <= i < |free| ==> word[free[i]] == After(free, i))
  }

  lemma ThreadedTail(first: nat, word: map<nat, nat>, free: seq<nat>)
    requires Threaded(first, word, free) && first != 0
    ensures free != [] && first in word && Threaded(word[first], word, free[1..])
    ensures first !in free[1..] && Elements(free) == Elements(free[1..]) + {first}
  {
    var rest := free[1..];
    assert free == [first] + rest;
    forall i, j | 0 <= i < j < |rest| ensures rest[i] != rest[j] {
      assert At(i + 1) && At(j + 1);
    }
    forall i | 0 <= i < |rest| ensures rest[i] != first {
      assert At(0) && At(i + 1);
    }
    assert After(free, 0) == if rest == [] then 0 else rest[0];
    forall i: nat | i < |rest| ensures word[rest[i]] == After(rest, i) {
      assert After(free, i + 1) == After(rest, i);
    }
  }

  lemma ThreadedPush(first: nat, word: map<nat, nat>, free: seq<nat>, t: nat)
    requires Threaded(first, word, free) && t > 0 && t !in free
    ensures Threaded(t, word[t := first], [t] + free)
    ensures Elements([t] + free) == Elements(free) + {t}
  {
    var longer, word' := [t] + free, word[t := first];
    assert forall i :: 0 <= i < |free| ==> free[i] in free;
    forall i, j | 0 <= i < j < |longer| ensures longer[i] != longer[j] {
      assert At(i - 1) && At(j - 1) && longer[j] == free[j - 1];
    }
    forall i: nat | i < |longer| ensures word'[longer[i]] == After(longer, i) {
      if i > 0 {
        assert After(free, i - 1) == After(longer, i);
      }
    }
  }

  /** `carved` are the tiles carved so far, and their number is the most that were ever live. */
  ghost predicate CarvedOk(l: Layout, pools: seq<Pool>, carved: set<nat>, highWater: nat) {
    && Sensible(l)
    && PoolsOk(l, pools)
    && (forall t {:trigger IsTile(l, pools, t)} :: t in carved <==> IsTile(l, pools, t))
    && |carved| == Used(pools) == highWater
  }

  /** Carved tiles are either free or live. */
  ghost predicate FreeOk(first: nat, word: map<nat, nat>, free: seq<nat>, carved: set<nat>, live: set<nat>) {
    Threaded(first, word, free) && Elements(free) !! live && carved == Elements(free) + live
  }

  lemma ReuseKeepsFree(first: nat, word: map<nat, nat>, free: seq<nat>, carved: set<nat>, live: set<nat>)
    requires FreeOk(first, word, free, carved, live) && first != 0
    ensures first in word && free != [] && FreeOk(word[first], word, free[1..], carved, live + {first})
    ensures first !in live && |live + {first}| <= |carved|
  {
    ThreadedTail(first, word, free);
    assert first in Elements(free);
    SmallerSet(live + {first}, carved);
  }

  lemma CarveKeepsFree(first: nat, word: map<nat, nat>, free: seq<nat>, carved: set<nat>, live: set<nat>, t: nat)
    requires FreeOk(first, word, free, carved, live) && first == 0 && t !in carved
    ensures free == [] && live == carved && FreeOk(first, word, free, carved + {t}, live + {t})
  {
    assert free == [];
    assert Elements(free) == {};
  }

  lemma FreeKeepsFree(first: nat, word: map<nat, nat>, free: seq<nat>, carved: set<nat>, live: set<nat>, t: nat)
    requires FreeOk(first, word, free, carved, live) && t in live && t > 0
    ensures FreeOk(t, word[t := first], [t] + free, carved, live - {t})
  {
    assert t !in Elements(free);
    ThreadedPush(first, word, free, t);
  }

  class Allocator {
    const layout: Layout
    var pools: seq<Pool>      // newest first
    var firstTile: nat        // the first free tile, or 0
    var word: map<nat, nat>   // the first word of every tile

    ghost var free: seq<nat>
    ghost var carved: set<nat>
    ghost var live: set<nat>  // handed out and not freed since
    ghost var highWater: nat  // the most tiles that were ever live at once

    ghost predicate Valid()
      reads this
    {
      CarvedOk(layout, pools, carved, highWater) && FreeOk(firstTile, word, free, carved, live)
    }

    constructor (layout: Layout)
      requires Sensible(layout)
      ensures Valid() && live == {} && this.layout == layout && pools == [] && highWater == 0
    {
      this.layout := layout;
      pools, firstTile, word := [], 0, map[];
      free, carved, live, highWater := [], {}, {}, 0;
    }

    /** The block that malloc() returns overlaps none of the others. */
    predicate MayAdd(block: nat)
      requires Sensible(layout)
      reads this
    {
      block > 0 ==> forall k :: 0 <= k < |pools| ==>
                      Apart(block, BlockSize(layout, pools), pools[k].base, pools[k].size)
    }

    /** Hands out a tile, or 0 if memory is short. `block` is what malloc() returns if a new block
        is needed: 0, or the address of a block that overlaps none of the others. */
    method Allocate(block: nat) returns (t: nat)
      requires Valid() && MayAdd(block)
      modifies this
      ensures Valid()
      ensures t > 0 ==> t !in old(live) && live == old(live) + {t}
      ensures old(firstTile) != 0 ==> t == old(firstTile)
      ensures t == 0 ==> live == old(live) && block == 0 && old(free) == []
                         && (old(pools) == [] || old(pools)[0].nUsed == old(pools)[0].nTiles)
      ensures highWater == Max(old(highWater), |live|)
    {
      if firstTile != 0 {
        t := Reuse();
      } else {
        assert free == [];
        if pools == [] || pools[0].nUsed >= pools[0].nTiles {
          assert pools == [] || PoolOk(layout, pools[0]);
          if block == 0 {
            return 0;
          }
          AddPool(block);
        }
        t := Carve();
      }
    }

    method Reuse() returns (t: nat)
      requires Valid() && firstTile != 0
      modifies `firstTile, `free, `live
      ensures Valid()
      ensures t == old(firstTile) > 0 && t !in old(live) && live == old(live) + {t}
      ensures |live| <= highWater
    {
      t := firstTile;
      ReuseKeepsFree(firstTile, word, free, carved, live);
      firstTile := word[firstTile];
      free, live := free[1..], live + {t};
    }

    method AddPool(block: nat)
      requires Valid() && block > 0 && (pools == [] || pools[0].nUsed >= pools[0].nTiles)
      requires forall k :: 0 <= k < |pools| ==> Apart(block, BlockSize(layout, pools), pools[k].base, pools[k].size)
      modifies `pools
      ensures Valid() && pools != [] && pools[0].nUsed < pools[0].nTiles
      ensures pools[1..] == old(pools)
    {
      BlockFits(layout, pools);
      var size := BlockSize(layout, pools);
      ghost var before := pools;
      assert pools == [] || PoolOk(layout, pools[0]);
      pools := [Pool(block, size, Fits(layout, size), 0)] + pools;
      NewPoolKeepsTiles(layout, before, pools[0]);
      NewPoolKeepsPools(layout, before, pools[0]);
    }

    method Carve() returns (t: nat)
      requires Valid() && pools != [] && pools[0].nUsed < pools[0].nTiles && firstTile == 0
      modifies `pools, `carved, `live, `highWater
      ensures Valid()
      ensures t > 0 && t !in old(live) && live == old(live) + {t}
      ensures highWater == old(highWater) + 1 == |live|
    {
      ghost var before := pools;
      var p := pools[0];
      t := Tile(layout, p, p.nUsed);
      pools := pools[0 := p.(nUsed := p.nUsed + 1)];
      CarveAddsTile(layout, before);
      assert IsTile(layout, before, t) <==> t in carved;
      CarveKeepsFree(firstTile, word, free, carved, live, t);
      carved, live, highWater := carved + {t}, live + {t}, highWater + 1;
    }

    /** Takes a tile back. */
    method Deallocate(t: nat)
      requires Valid() && t in live
      modifies `firstTile, `word, `free, `live
      ensures Valid()
      ensures live == old(live) - {t}
      ensures firstTile == t
    {
      assert IsTile(layout, pools, t);
      TilePositive(layout, pools, t);
      FreeKeepsFree(firstTile, word, free, carved, live, t);
      word := word[t := firstTile];
      firstTile := t;
      free, live := [t] + free, live - {t};
    }

    /** The owner of a live tile may write to it as it likes. */
    method Write(t: nat, w: nat)
      requires Valid() && t in live
      modifies `word
      ensures Valid() && live == old(live) && word == old(word)[t := w]
    {
      assert forall i :: 0 <= i < |free| ==> free[i] in Elements(free);
      word := word[t := w];
    }

    lemma NullIsNotLive()
      requires Valid()
      ensures 0 !in live
    {
      if 0 in live {
        assert IsTile(layout, pools, 0);
        TilePositive(layout, pools, 0);
      }
    }

    /** Live tiles do not overlap, and lie within the blocks they were carved from. */
    lemma LiveTilesApart(t: nat, u: nat)
      requires Valid() && t in live && u in live
      ensures t != u ==> Apart(t, layout.tileSize, u, layout.tileSize)
      ensures exists k :: 0 <= k < |pools| && pools[k].base + layout.header <= t
                          && t + layout.tileSize <= pools[k].base + pools[k].size
    {
      assert IsTile(layout, pools, t) && IsTile(layout, pools, u);
      if t != u {
        TilesApart(layout, pools, t, u);
      }
      var k, i: nat :| 0 <= k < |pools| && i < pools[k].nUsed && t == Tile(layout, pools[k], i);
      TileInBlock(layout, pools[k], i);
    }
  }

  lemma TilePositive(l: Layout, pools: seq<Pool>, t: nat)
    requires PoolsOk(l, pools) && IsTile(l, pools, t)
    ensures t > 0
  {
    var k, i: nat :| 0 <= k < |pools| && i < pools[k].nUsed && t == Tile(l, pools[k], i);
    TileInBlock(l, pools[k], i);
  }

  /** A new pool, of which nothing is used yet, has no tiles to add. */
  lemma NewPoolKeepsTiles(l: Layout, pools: seq<Pool>, p: Pool)
    requires p.nUsed == 0
    ensures forall t :: IsTile(l, [p] + pools, t) <==> IsTile(l, pools, t)
    ensures Used([p] + pools) == Used(pools)
  {
    var pools' := [p] + pools;
    assert pools'[1..] == pools;
    forall t | IsTile(l, pools, t) ensures IsTile(l, pools', t) {
      var k, i: nat :| 0 <= k < |pools| && i < pools[k].nUsed && t == Tile(l, pools[k], i);
      assert pools'[k + 1] == pools[k];
    }
    forall t | IsTile(l, pools', t) ensures IsTile(l, pools, t) {
      var k, i: nat :| 0 <= k < |pools'| && i < pools'[k].nUsed && t == Tile(l, pools'[k], i);
      assert pools'[k] == pools[k - 1];
    }
  }

  lemma NewPoolKeepsPools(l: Layout, pools: seq<Pool>, p: Pool)
    requires PoolsOk(l, pools) && PoolOk(l, p)
    requires pools == [] || pools[0].nUsed == pools[0].nTiles
    requires forall k :: 0 <= k < |pools| ==> Apart(p.base, p.size, pools[k].base, pools[k].size)
    ensures PoolsOk(l, [p] + pools)
  {
    var pools' := [p] + pools;
    forall k | 0 <= k < |pools'| ensures PoolOk(l, pools'[k]) {
      assert k == 0 || (pools'[k] == pools[k - 1] && PoolOk(l, pools[k - 1]));
    }
    forall j, k | 0 <= j < k < |pools'| ensures Apart(pools'[j].base, pools'[j].size, pools'[k].base, pools'[k].size) {
      assert pools'[k] == pools[k - 1];
      if j > 0 {
        assert pools'[j] == pools[j - 1];
        assert Apart(pools[j - 1].base, pools[j - 1].size, pools[k - 1].base, pools[k - 1].size);
      }
    }
  }

  lemma CarveKeepsPools(l: Layout, pools: seq<Pool>)
    requires PoolsOk(l, pools) && pools != [] && pools[0].nUsed < pools[0].nTiles
    ensures PoolsOk(l, pools[0 := pools[0].(nUsed := pools[0].nUsed + 1)])
  {
    var pools' := pools[0 := pools[0].(nUsed := pools[0].nUsed + 1)];
    forall k | 0 <= k < |pools'| ensures PoolOk(l, pools'[k]) {
      assert PoolOk(l, pools[k]);
    }
    forall j, k | 0 <= j < k < |pools'| ensures Apart(pools'[j].base, pools'[j].size, pools'[k].base, pools'[k].size) {
      assert Apart(pools[j].base, pools[j].size, pools[k].base, pools[k].size);
    }
  }

  /** Carving adds exactly one tile, which was none before. */
  lemma CarveAddsTile(l: Layout, pools: seq<Pool>)
    requires Sensible(l) && PoolsOk(l, pools) && pools != [] && pools[0].nUsed < pools[0].nTiles
    ensures var p := pools[0]; var t := Tile(l, p, p.nUsed);
            var pools' := pools[0 := p.(nUsed := p.nUsed + 1)];
            && PoolsOk(l, pools')
            && t > 0
            && !IsTile(l, pools, t)
            && (forall u :: IsTile(l, pools', u) <==> IsTile(l, pools, u) || u == t)
            && Used(pools') == Used(pools) + 1
  {
    var p := pools[0];
    var t, pools' := Tile(l, p, p.nUsed), pools[0 := p.(nUsed := p.nUsed + 1)];
    CarveKeepsPools(l, pools);
    assert PoolOk(l, p);
    assert pools'[1..] == pools[1..];
    assert IsTile(l, pools', t) && t > 0 by {
      assert t == Tile(l, pools'[0], p.nUsed);
      TilePositive(l, pools', t);
    }
    forall u | IsTile(l, pools, u) ensures IsTile(l, pools', u) && u != t {
      var k, i: nat :| 0 <= k < |pools| && i < pools[k].nUsed && u == Tile(l, pools[k], i);
      assert u == Tile(l, pools'[k], i);
      if k == 0 {
        TilesOfPoolApart(l, p, i, p.nUsed);
      } else {
        TileInBlock(l, pools[k], i);
        TileInBlock(l, p, p.nUsed);
        assert Apart(pools[0].base, pools[0].size, pools[k].base, pools[k].size);
      }
    }
    forall u | IsTile(l, pools', u) && u != t ensures IsTile(l, pools, u) {
      var k, i: nat :| 0 <= k < |pools'| && i < pools'[k].nUsed && u == Tile(l, pools'[k], i);
      assert u == Tile(l, pools[k], i);
    }
  }
}
