/** What a hash map is, as a sequence of pairs and as linked entries in memory (src/hashmap.c). */
module HashmapModel {
  import opened Collections
  import opened LinkedLists

  const NBUCKETS: nat := 127

  type Key = nat
  type Value = nat

  /** The hash and compare functions of a map. `same` is a comparison that yields 0. */
  datatype Hasher = Hasher(hash: Key -> nat, same: (Key, Key) -> bool)

  ghost predicate Agree(h: Hasher) {
    && (forall a :: h.same(a, a))
    && (forall a, b :: h.same(a, b) ==> h.same(b, a) && h.hash(a) == h.hash(b))
    && (forall a, b, c :: h.same(a, b) && h.same(b, c) ==> h.same(a, c))
  }

  function Bucket(h: Hasher, k: Key): nat {
    h.hash(k) % NBUCKETS
  }

  // ---------- a map as a sequence of pairs ----------

  type Contents = seq<(Key, Value)>

  /** No two keys compare equal. */
  ghost predicate KeysApart(h: Hasher, c: Contents) {
    forall i, j {:trigger At(i), At(j)} :: At(i) && At(j) && 0 <= i < j < |c| ==> !h.same(c[i].0, c[j].0)
  }

  /** The position of the pair whose key compares equal to `k`, or the length if there is none. */
  ghost function Find(h: Hasher, c: Contents, k: Key): nat {
    if c == [] then 0 else if h.same(c[0].0, k) then 0 else 1 + Find(h, c[1..], k)
  }

  ghost predicate Has(h: Hasher, c: Contents, k: Key) {
    Find(h, c, k) < |c|
  }

  lemma {:induction false} FindIsFirst(h: Hasher, c: Contents, k: Key)
    ensures Find(h, c, k) <= |c|
    ensures Has(h, c, k) ==> h.same(c[Find(h, c, k)].0, k)
    ensures forall i :: 0 <= i < Find(h, c, k) && i < |c| ==> !h.same(c[i].0, k)
  {
    if c != [] && !h.same(c[0].0, k) {
      FindIsFirst(h, c[1..], k);
      forall i | 0 <= i < Find(h, c, k) && i < |c| ensures !h.same(c[i].0, k) {
        assert i > 0 ==> c[i] == c[1..][i - 1];
      }
    }
  }

  /** With keys that do not compare equal, there is only one position to find. */
  lemma FindIs(h: Hasher, c: Contents, k: Key, p: nat)
    requires Agree(h) && KeysApart(h, c) && p < |c| && h.same(c[p].0, k)
    ensures Find(h, c, k) == p
  {
    FindIsFirst(h, c, k);
    var q := Find(h, c, k);
    if q < p {
      assert At(q) && At(p);
    }
  }

  lemma FindNone(h: Hasher, c: Contents, k: Key)
    requires forall i :: 0 <= i < |c| ==> !h.same(c[i].0, k)
    ensures !Has(h, c, k) && Find(h, c, k) == |c|
  {
    FindIsFirst(h, c, k);
  }

  lemma WithoutApart(h: Hasher, c: Contents, p: nat)
    requires KeysApart(h, c) && p < |c|
    ensures KeysApart(h, Dropped(c, p))
  {
    forall i, j | 0 <= i < j < |c| - 1 ensures !h.same(Dropped(c, p)[i].0, Dropped(c, p)[j].0) {
      assert At(i) && At(i + 1) && At(j) && At(j + 1);
    }
  }

  lemma AppendApart(h: Hasher, c: Contents, k: Key, v: Value)
    requires Agree(h) && KeysApart(h, c) && !Has(h, c, k)
    ensures KeysApart(h, c + [(k, v)])
  {
    FindIsFirst(h, c, k);
    forall i, j | 0 <= i < j < |c| + 1 ensures !h.same((c + [(k, v)])[i].0, (c + [(k, v)])[j].0) {
      assert At(i) && At(j);
    }
  }

  /** The pairs without the one whose key compares equal to `k`. */
  ghost function Erase(h: Hasher, c: Contents, k: Key): Contents {
    FindIsFirst(h, c, k);
    if Has(h, c, k) then Dropped(c, Find(h, c, k)) else c
  }

  lemma HasWitness(h: Hasher, c: Contents, k: Key, i: nat)
    requires i < |c| && h.same(c[i].0, k)
    ensures Has(h, c, k)
  {
    FindIsFirst(h, c, k);
  }

  /** Removing pairs adds no keys. */
  lemma WithoutHas(h: Hasher, c: Contents, p: nat, k: Key)
    requires p < |c| && Has(h, Dropped(c, p), k)
    ensures Has(h, c, k)
  {
    FindIsFirst(h, Dropped(c, p), k);
    var i := Find(h, Dropped(c, p), k);
    HasWitness(h, c, k, if i < p then i else i + 1);
  }

  lemma EraseErases(h: Hasher, c: Contents, k: Key)
    requires Agree(h) && KeysApart(h, c)
    ensures !Has(h, Erase(h, c, k), k)
    ensures KeysApart(h, Erase(h, c, k))
  {
    FindIsFirst(h, c, k);
    if Has(h, c, k) {
      var p := Find(h, c, k);
      WithoutApart(h, c, p);
      var d := Dropped(c, p);
      if Has(h, d, k) {
        FindIsFirst(h, d, k);
        var i := Find(h, d, k);
        FindIs(h, c, k, if i < p then i else i + 1);
      }
    }
  }

  /** Inserting all the pairs of `d`, one after the other, where the key is not there yet. */
  ghost function PutAll(h: Hasher, c: Contents, d: Contents): Contents
    decreases |d|
  {
    if d == [] then c
    else
      var front, last := d[..|d| - 1], d[|d| - 1];
      var c' := PutAll(h, c, front);
      if Has(h, c', last.0) then c' else c' + [last]
  }

  /** The pairs of `d` that such an insertion leaves out. */
  ghost function LeftBehind(h: Hasher, c: Contents, d: Contents): Contents
    decreases |d|
  {
    if d == [] then []
    else
      var front, last := d[..|d| - 1], d[|d| - 1];
      if Has(h, PutAll(h, c, front), last.0) then LeftBehind(h, c, front) + [last] else LeftBehind(h, c, front)
  }

  /** Nothing is lost and nothing doubled: the keys afterwards are those of both, and the first
      pairs are those that were there before. */
  lemma {:induction false} PutAllKeys(h: Hasher, c: Contents, d: Contents)
    requires Agree(h) && KeysApart(h, c)
    ensures c <= PutAll(h, c, d) && KeysApart(h, PutAll(h, c, d))
    ensures |PutAll(h, c, d)| + |LeftBehind(h, c, d)| == |c| + |d|
    ensures forall k :: Has(h, PutAll(h, c, d), k) <==> Has(h, c, k) || Has(h, d, k)
    decreases |d|
  {
    if d != [] {
      var front, last := d[..|d| - 1], d[|d| - 1];
      var c' := PutAll(h, c, front);
      PutAllKeys(h, c, front);
      if !Has(h, c', last.0) {
        AppendApart(h, c', last.0, last.1);
      }
      forall k ensures Has(h, PutAll(h, c, d), k) <==> Has(h, c, k) || Has(h, d, k) {
        AppendHas(h, front, last, k);
        AppendHas(h, c', last, k);
        assert front + [last] == d;
        if Has(h, c', last.0) && h.same(last.0, k) {
          FindIsFirst(h, c', last.0);
          HasWitness(h, c', k, Find(h, c', last.0));
        }
      }
    }
  }

  lemma AppendHas(h: Hasher, c: Contents, x: (Key, Value), k: Key)
    ensures Has(h, c + [x], k) <==> Has(h, c, k) || h.same(x.0, k)
  {
    var d := c + [x];
    FindIsFirst(h, c, k);
    FindIsFirst(h, d, k);
    if Has(h, c, k) {
      HasWitness(h, d, k, Find(h, c, k));
    }
    if h.same(x.0, k) {
      HasWitness(h, d, k, |c|);
    }
    if Has(h, d, k) && Find(h, d, k) < |c| {
      HasWitness(h, c, k, Find(h, d, k));
    }
  }

  /** Inserting everything into an empty map gives a copy. */
  lemma {:induction false} PutAllCopies(h: Hasher, d: Contents)
    requires Agree(h) && KeysApart(h, d)
    ensures PutAll(h, [], d) == d
    decreases |d|
  {
    if d != [] {
      var front, last := d[..|d| - 1], d[|d| - 1];
      assert forall i, j {:trigger At(i), At(j)} :: At(i) && At(j) && 0 <= i < j < |front| ==>
          !h.same(front[i].0, front[j].0);
      PutAllCopies(h, front);
      forall i | 0 <= i < |front| ensures !h.same(front[i].0, last.0) {
        assert At(i) && At(|d| - 1);
      }
      FindNone(h, front, last.0);
      assert front + [last] == d;
    }
  }

  // ---------- a map in memory ----------

  /** The fields of all hash map entries, by address. */
  datatype Mem = Mem(
    key: map<Addr, Key>,
    value: map<Addr, Value>,
    bucketNext: map<Addr, Addr>,
    bucketPrev: map<Addr, Addr>,
    iterateNext: map<Addr, Addr>,
    iteratePrev: map<Addr, Addr>)

  function KeyOf(m: Mem, a: Addr): Key {
    if a in m.key then m.key[a] else 0
  }

  function ValueOf(m: Mem, a: Addr): Value {
    if a in m.value then m.value[a] else 0
  }

  function ContentsOf(m: Mem, order: seq<Addr>): Contents {
    seq(|order|, i requires 0 <= i < |order| => (KeyOf(m, order[i]), ValueOf(m, order[i])))
  }

  /** The map itself: bucket heads, ends of the iteration list, number of entries. */
  datatype Table = Table(buckets: seq<Addr>, head: Addr, tail: Addr, n: nat)

  ghost predicate OrderOk(m: Mem, t: Table, order: seq<Addr>) {
    && Linked(m.iterateNext, m.iteratePrev, order)
    && t.head == First(order) && t.tail == Last(order) && t.n == |order|
  }

  ghost predicate BucketsOk(m: Mem, t: Table, chains: seq<seq<Addr>>) {
    && |t.buckets| == |chains| == NBUCKETS
    && forall b {:trigger chains[b]} :: 0 <= b < NBUCKETS ==>
         Linked(m.bucketNext, m.bucketPrev, chains[b]) && t.buckets[b] == First(chains[b])
  }

  /** Each entry is in the bucket its key hashes to, and in no other. */
  ghost predicate ChainsOk(h: Hasher, m: Mem, order: seq<Addr>, chains: seq<seq<Addr>>) {
    && |chains| == NBUCKETS
    && (forall a :: a in order ==> a in m.key && a in m.value)
    && forall b, a {:trigger a in chains[b]} :: 0 <= b < NBUCKETS ==>
         (a in chains[b] <==> a in order && Bucket(h, KeyOf(m, a)) == b)
  }

  ghost predicate MapOk(h: Hasher, m: Mem, t: Table, order: seq<Addr>, chains: seq<seq<Addr>>) {
    && Agree(h)
    && OrderOk(m, t, order)
    && BucketsOk(m, t, chains)
    && ChainsOk(h, m, order, chains)
    && KeysApart(h, ContentsOf(m, order))
  }

  /** Nothing about the entry at `a` differs. */
  ghost predicate SameEntry(m: Mem, m': Mem, a: Addr) {
    && (a in m.key <==> a in m'.key) && KeyOf(m, a) == KeyOf(m', a)
    && (a in m.value <==> a in m'.value) && ValueOf(m, a) == ValueOf(m', a)
    && (a in m.bucketNext ==> a in m'.bucketNext && m.bucketNext[a] == m'.bucketNext[a])
    && (a in m.bucketPrev ==> a in m'.bucketPrev && m.bucketPrev[a] == m'.bucketPrev[a])
    && (a in m.iterateNext ==> a in m'.iterateNext && m.iterateNext[a] == m'.iterateNext[a])
    && (a in m.iteratePrev ==> a in m'.iteratePrev && m.iteratePrev[a] == m'.iteratePrev[a])
  }

  /** Only entries in `touched` differ. */
  ghost predicate SameOutside(m: Mem, m': Mem, touched: set<Addr>) {
    forall a {:trigger SameEntry(m, m', a)} :: a !in touched ==> SameEntry(m, m', a)
  }

  lemma SameOutsideJoins(m: Mem, m1: Mem, m2: Mem, touched: set<Addr>)
    requires SameOutside(m, m1, touched) && SameOutside(m1, m2, touched)
    ensures SameOutside(m, m2, touched)
  {
    forall a | a !in touched ensures SameEntry(m, m2, a) {
      assert SameEntry(m, m1, a) && SameEntry(m1, m2, a);
    }
  }

  lemma SameContents(m: Mem, m': Mem, order: seq<Addr>)
    requires forall a :: a in order ==> SameEntry(m, m', a)
    ensures ContentsOf(m', order) == ContentsOf(m, order)
  {
    assert forall i :: 0 <= i < |order| ==> order[i] in order;
  }

  /** A map is not affected by what happens to the entries of others. */
  lemma MapFrame(h: Hasher, m: Mem, t: Table, order: seq<Addr>, chains: seq<seq<Addr>>, m': Mem)
    requires MapOk(h, m, t, order, chains)
    requires forall a :: a in order ==> SameEntry(m, m', a)
    ensures MapOk(h, m', t, order, chains)
    ensures ContentsOf(m', order) == ContentsOf(m, order)
  {
    SameContents(m, m', order);
    LinkedFrame(m.iterateNext, m.iteratePrev, order, m'.iterateNext, m'.iteratePrev);
    forall b | 0 <= b < NBUCKETS ensures Linked(m'.bucketNext, m'.bucketPrev, chains[b]) {
      forall a | a in chains[b] ensures SameEntry(m, m', a) {
      }
      LinkedFrame(m.bucketNext, m.bucketPrev, chains[b], m'.bucketNext, m'.bucketPrev);
    }
    assert ChainsOk(h, m', order, chains) by {
      forall b, a | 0 <= b < NBUCKETS ensures a in chains[b] <==> a in order && Bucket(h, KeyOf(m', a)) == b {
        assert a in order ==> SameEntry(m, m', a);
      }
      forall a | a in order ensures a in m'.key && a in m'.value {
        assert SameEntry(m, m', a);
      }
    }
  }

  // ---------- linking an entry ----------

  function BucketLinked(m: Mem, head: Addr, e: Addr): Mem {
    m.(bucketNext := m.bucketNext[e := head], bucketPrev := PushedFrontPrev(m.bucketPrev, head, e))
  }

  function OrderLinked(m: Mem, tail: Addr, e: Addr): Mem {
    m.(iterateNext := PushedBackNext(m.iterateNext, tail, e), iteratePrev := m.iteratePrev[e := tail])
  }

  /** Memory and map after link_entry(). */
  function LinkedMem(m: Mem, t: Table, e: Addr, b: nat): Mem
    requires b < |t.buckets|
  {
    OrderLinked(BucketLinked(m, t.buckets[b], e), t.tail, e)
  }

  function LinkedTable(t: Table, e: Addr, b: nat): Table
    requires b < |t.buckets|
  {
    Table(t.buckets[b := e], if t.tail == 0 then e else t.head, e, t.n + 1)
  }

  lemma LinkKeepsOrder(m: Mem, t: Table, order: seq<Addr>, e: Addr)
    requires OrderOk(m, t, order) && e > 0 && e !in order
    ensures OrderOk(OrderLinked(m, t.tail, e),
                    t.(head := if t.tail == 0 then e else t.head, tail := e, n := t.n + 1), order + [e])
  {
    PushBack(m.iterateNext, m.iteratePrev, order, e);
    if order != [] {
      LinkedAt(m.iterateNext, m.iteratePrev, order, |order| - 1);
    }
  }

  lemma LinkKeepsBuckets(m: Mem, t: Table, chains: seq<seq<Addr>>, e: Addr, b: nat)
    requires BucketsOk(m, t, chains) && e > 0 && b < NBUCKETS
    requires forall c :: 0 <= c < NBUCKETS ==> e !in chains[c]
    requires forall c, a :: 0 <= c < NBUCKETS && c != b && a in chains[b] ==> a !in chains[c]
    ensures BucketsOk(BucketLinked(m, t.buckets[b], e), t.(buckets := t.buckets[b := e]), chains[b := [e] + chains[b]])
  {
    var m' := BucketLinked(m, t.buckets[b], e);
    PushFront(m.bucketNext, m.bucketPrev, chains[b], e);
    assert chains[b] != [] ==> First(chains[b]) in chains[b];
    forall c | 0 <= c < NBUCKETS && c != b ensures Linked(m'.bucketNext, m'.bucketPrev, chains[c]) {
      LinkedFrame(m.bucketNext, m.bucketPrev, chains[c], m'.bucketNext, m'.bucketPrev);
    }
  }

  lemma LinkKeepsChains(h: Hasher, m: Mem, order: seq<Addr>, chains: seq<seq<Addr>>, e: Addr)
    requires ChainsOk(h, m, order, chains) && e !in order && e in m.key && e in m.value
    ensures var b := Bucket(h, KeyOf(m, e)); ChainsOk(h, m, order + [e], chains[b := [e] + chains[b]])
  {
    var b := Bucket(h, KeyOf(m, e));
    var chains' := chains[b := [e] + chains[b]];
    forall c, a | 0 <= c < NBUCKETS ensures a in chains'[c] <==> a in order + [e] && Bucket(h, KeyOf(m, a)) == c {
      assert a in chains[c] <==> a in order && Bucket(h, KeyOf(m, a)) == c;
    }
  }

  lemma LinkTouches(m: Mem, t: Table, order: seq<Addr>, chains: seq<seq<Addr>>, e: Addr, b: nat)
    requires OrderOk(m, t, order) && BucketsOk(m, t, chains) && b < NBUCKETS
    requires forall a :: a in chains[b] ==> a in order
    ensures SameOutside(m, LinkedMem(m, t, e, b), Elements(order) + {e})
  {
    assert t.buckets[b] == First(chains[b]);
    assert order != [] ==> Last(order) in order;
    assert chains[b] != [] ==> First(chains[b]) in chains[b];
  }

  /** The lists of a map are linked and its entries filled, whichever buckets they are in. */
  ghost predicate ListsOk(h: Hasher, m: Mem, t: Table, order: seq<Addr>, chains: seq<seq<Addr>>) {
    && Agree(h)
    && OrderOk(m, t, order)
    && BucketsOk(m, t, chains)
    && |chains| == NBUCKETS
    && (forall a :: a in order ==> a in m.key && a in m.value)
    && forall b, a {:trigger a in chains[b]} :: 0 <= b < NBUCKETS && a in chains[b] ==> a in order
  }

  /** Linking a new entry, into any bucket, appends its pair and keeps the lists linked. */
  lemma LinkKeepsLists(h: Hasher, m: Mem, t: Table, order: seq<Addr>, chains: seq<seq<Addr>>, e: Addr, b: nat)
    requires MapOk(h, m, t, order, chains) && e > 0 && e !in order && e in m.key && e in m.value && b < NBUCKETS
    ensures ListsOk(h, LinkedMem(m, t, e, b), LinkedTable(t, e, b), order + [e], chains[b := [e] + chains[b]])
    ensures ContentsOf(LinkedMem(m, t, e, b), order + [e]) == ContentsOf(m, order) + [(KeyOf(m, e), ValueOf(m, e))]
    ensures SameOutside(m, LinkedMem(m, t, e, b), Elements(order) + {e})
  {
    var m1 := BucketLinked(m, t.buckets[b], e);
    var t1 := t.(buckets := t.buckets[b := e]);
    assert forall c :: 0 <= c < NBUCKETS ==> (e in chains[c] ==> e in order);
    LinkKeepsBuckets(m, t, chains, e, b);
    LinkKeepsOrder(m1, t1, order, e);
    LinkTouches(m, t, order, chains, e, b);
  }

  /** Linking a new entry into the bucket of its key keeps the map consistent. */
  lemma LinkKeepsMap(h: Hasher, m: Mem, t: Table, order: seq<Addr>, chains: seq<seq<Addr>>, e: Addr)
    requires MapOk(h, m, t, order, chains)
    requires e > 0 && e !in order && e in m.key && e in m.value && !Has(h, ContentsOf(m, order), KeyOf(m, e))
    ensures var b := Bucket(h, KeyOf(m, e));
            && MapOk(h, LinkedMem(m, t, e, b), LinkedTable(t, e, b), order + [e], chains[b := [e] + chains[b]])
            && ContentsOf(LinkedMem(m, t, e, b), order + [e]) == ContentsOf(m, order) + [(KeyOf(m, e), ValueOf(m, e))]
            && SameOutside(m, LinkedMem(m, t, e, b), Elements(order) + {e})
  {
    LinkKeepsLists(h, m, t, order, chains, e, Bucket(h, KeyOf(m, e)));
    LinkKeepsChains(h, m, order, chains, e);
    AppendApart(h, ContentsOf(m, order), KeyOf(m, e), ValueOf(m, e));
  }

  /** Linking an entry into bucket `b` keeps the map consistent exactly if that is the bucket of its
      key, and the key is new. */
  lemma LinkKeepsMapExactlyWhen(h: Hasher, m: Mem, t: Table, order: seq<Addr>, chains: seq<seq<Addr>>, e: Addr, b: nat)
    requires MapOk(h, m, t, order, chains) && e > 0 && e !in order && e in m.key && e in m.value && b < NBUCKETS
    ensures MapOk(h, LinkedMem(m, t, e, b), LinkedTable(t, e, b), order + [e], chains[b := [e] + chains[b]]) <==>
            b == Bucket(h, KeyOf(m, e)) && !Has(h, ContentsOf(m, order), KeyOf(m, e))
  {
    var m', c := LinkedMem(m, t, e, b), ContentsOf(m, order);
    assert e in chains[b := [e] + chains[b]][b] && KeyOf(m', e) == KeyOf(m, e);
    if Has(h, c, KeyOf(m, e)) {
      FindIsFirst(h, c, KeyOf(m, e));
      var p, c' := Find(h, c, KeyOf(m, e)), ContentsOf(m', order + [e]);
      assert c'[p].0 == c[p].0 && c'[|order|].0 == KeyOf(m, e) && At(p) && At(|order|);
      assert !KeysApart(h, c');
    }
    if b == Bucket(h, KeyOf(m, e)) && !Has(h, c, KeyOf(m, e)) {
      LinkKeepsMap(h, m, t, order, chains, e);
    }
  }

  /** The entry in which a key `k` is found in the other map `d` keeps the map `c` consistent, when it is
      linked into the bucket of `k`, exactly if it moves right. */
  lemma MoveKeepsMapExactlyWhen(h: Hasher, m: Mem, t: Table, order: seq<Addr>, chains: seq<seq<Addr>>, e: Addr,
                                h': Hasher, d: Contents, k: Key)
    requires MapOk(h, m, t, order, chains) && e > 0 && e !in order && e in m.key && e in m.value
    requires !Has(h, ContentsOf(m, order), k) && Has(h', d, k) && Find(h', d, k) < |d|
    requires KeyOf(m, e) == d[Find(h', d, k)].0
    ensures var b := Bucket(h, k);
            MapOk(h, LinkedMem(m, t, e, b), LinkedTable(t, e, b), order + [e], chains[b := [e] + chains[b]])
            <==> MovesRight(h, ContentsOf(m, order), h', d, k)
  {
    LinkKeepsMapExactlyWhen(h, m, t, order, chains, e, Bucket(h, k));
  }

  /** An entry in a bucket that is not its key's is not found under any key. */
  lemma MisplacedIsNeverFound(h: Hasher, key: Key, b: nat, k: Key)
    requires Agree(h) && b != Bucket(h, key) && Bucket(h, k) == b
    ensures !h.same(key, k)
  {
  }

  lemma SameKeyHas(h: Hasher, c: Contents, k: Key, k': Key)
    requires Agree(h) && h.same(k, k') && !Has(h, c, k')
    ensures !Has(h, c, k)
  {
    FindIsFirst(h, c, k);
    if Has(h, c, k) {
      HasWitness(h, c, k', Find(h, c, k));
    }
  }

  /** If `k` is in the other map `d` and not in the map `c`, the entry found in `d` belongs into the
      bucket of `k`, and its key is not in `c` either. */
  ghost predicate MovesRight(h: Hasher, c: Contents, h': Hasher, d: Contents, k: Key) {
    !Has(h, c, k) && Has(h', d, k) && Find(h', d, k) < |d| ==>
      var k' := d[Find(h', d, k)].0; Bucket(h, k') == Bucket(h, k) && !Has(h, c, k')
  }

  /** So it is whenever keys that the other map takes for equal are equal to this one. */
  lemma CoarserMovesRight(h: Hasher, c: Contents, h': Hasher, d: Contents, k: Key)
    requires Agree(h) && forall a, b :: h'.same(a, b) ==> h.same(a, b)
    ensures MovesRight(h, c, h', d, k)
  {
    FindIsFirst(h', d, k);
    if !Has(h, c, k) && Has(h', d, k) {
      var k' := d[Find(h', d, k)].0;
      assert h.same(k', k);
      SameKeyHas(h, c, k', k);
    }
  }

  /** A key that is found is in the bucket that is searched. */
  lemma BucketOfFound(h: Hasher, d: Contents, k: Key)
    requires Agree(h) && Has(h, d, k) && Find(h, d, k) < |d|
    ensures Bucket(h, d[Find(h, d, k)].0) == Bucket(h, k)
  {
    FindIsFirst(h, d, k);
  }

  // ---------- unlinking an entry ----------

  function OrderUnlinked(m: Mem, e: Addr): Mem
    requires e in m.iterateNext && e in m.iteratePrev
  {
    m.(iterateNext := UnlinkedNext(m.iterateNext, m.iteratePrev, e),
       iteratePrev := UnlinkedPrev(m.iterateNext, m.iteratePrev, e))
  }

  function BucketUnlinked(m: Mem, e: Addr): Mem
    requires e in m.bucketNext && e in m.bucketPrev
  {
    m.(bucketNext := UnlinkedNext(m.bucketNext, m.bucketPrev, e),
       bucketPrev := UnlinkedPrev(m.bucketNext, m.bucketPrev, e))
  }

  ghost predicate HasLinks(m: Mem, e: Addr) {
    e in m.iterateNext && e in m.iteratePrev && e in m.bucketNext && e in m.bucketPrev
  }

  /** Memory and map after unlink_entry(). */
  ghost function UnlinkedMem(m: Mem, e: Addr): Mem
    requires HasLinks(m, e)
  {
    BucketUnlinked(OrderUnlinked(m, e), e)
  }

  ghost function UnlinkedTable(m: Mem, t: Table, e: Addr, b: nat): Table
    requires HasLinks(m, e) && b < |t.buckets| && t.n > 0
  {
    Table(if m.bucketPrev[e] == 0 then t.buckets[b := m.bucketNext[e]] else t.buckets,
          if m.iteratePrev[e] == 0 then m.iterateNext[e] else t.head,
          if m.iterateNext[e] == 0 then m.iteratePrev[e] else t.tail,
          t.n - 1)
  }

  lemma UnlinkKeepsOrder(m: Mem, t: Table, order: seq<Addr>, p: nat)
    requires OrderOk(m, t, order) && p < |order|
    ensures var e := order[p];
            && e in m.iterateNext && e in m.iteratePrev
            && OrderOk(OrderUnlinked(m, e),
                       t.(head := if m.iteratePrev[e] == 0 then m.iterateNext[e] else t.head,
                          tail := if m.iterateNext[e] == 0 then m.iteratePrev[e] else t.tail,
                          n := t.n - 1),
                       Dropped(order, p))
  {
    Unlink(m.iterateNext, m.iteratePrev, order, p);
    if p > 0 {
      LinkedAt(m.iterateNext, m.iteratePrev, order, p - 1);
    }
    if p + 1 < |order| {
      LinkedAt(m.iterateNext, m.iteratePrev, order, p + 1);
    }
  }

  lemma UnlinkKeepsBuckets(m: Mem, t: Table, chains: seq<seq<Addr>>, b: nat, q: nat)
    requires BucketsOk(m, t, chains) && b < NBUCKETS && q < |chains[b]|
    requires forall c, a :: 0 <= c < NBUCKETS && c != b && a in chains[b] ==> a !in chains[c]
    ensures var e := chains[b][q];
            && e in m.bucketNext && e in m.bucketPrev
            && BucketsOk(BucketUnlinked(m, e),
                         t.(buckets := if m.bucketPrev[e] == 0 then t.buckets[b := m.bucketNext[e]] else t.buckets),
                         chains[b := Dropped(chains[b], q)])
  {
    var chain, e := chains[b], chains[b][q];
    Unlink(m.bucketNext, m.bucketPrev, chain, q);
    var m' := BucketUnlinked(m, e);
    if q > 0 {
      LinkedAt(m.bucketNext, m.bucketPrev, chain, q - 1);
      assert chain[q - 1] in chain;
    }
    if q + 1 < |chain| {
      LinkedAt(m.bucketNext, m.bucketPrev, chain, q + 1);
      assert chain[q + 1] in chain;
    }
    forall c | 0 <= c < NBUCKETS && c != b ensures Linked(m'.bucketNext, m'.bucketPrev, chains[c]) {
      LinkedFrame(m.bucketNext, m.bucketPrev, chains[c], m'.bucketNext, m'.bucketPrev);
    }
  }

  lemma UnlinkKeepsChains(h: Hasher, m: Mem, order: seq<Addr>, chains: seq<seq<Addr>>, p: nat, b: nat, q: nat)
    requires ChainsOk(h, m, order, chains) && DistinctMarked(order) && p < |order| && b < NBUCKETS
    requires DistinctMarked(chains[b]) && q < |chains[b]| && chains[b][q] == order[p]
    ensures ChainsOk(h, m, Dropped(order, p), chains[b := Dropped(chains[b], q)])
  {
    DroppedDistinct(order, p);
    DroppedDistinct(chains[b], q);
    var chains' := chains[b := Dropped(chains[b], q)];
    forall c, a | 0 <= c < NBUCKETS
      ensures a in chains'[c] <==> a in Dropped(order, p) && Bucket(h, KeyOf(m, a)) == c
    {
      assert a in chains[c] <==> a in order && Bucket(h, KeyOf(m, a)) == c;
      assert order[p] in chains[b];
    }
  }

  lemma UnlinkTouches(m: Mem, order: seq<Addr>, chain: seq<Addr>, p: nat, q: nat)
    requires Linked(m.iterateNext, m.iteratePrev, order) && Linked(m.bucketNext, m.bucketPrev, chain)
    requires p < |order| && q < |chain| && order[p] == chain[q]
    requires forall a :: a in chain ==> a in order
    ensures HasLinks(m, order[p]) && SameOutside(m, UnlinkedMem(m, order[p]), Elements(order))
  {
    LinkedAt(m.iterateNext, m.iteratePrev, order, p);
    LinkedAt(m.bucketNext, m.bucketPrev, chain, q);
    assert p > 0 ==> order[p - 1] in order;
    assert p + 1 < |order| ==> order[p + 1] in order;
    assert q > 0 ==> chain[q - 1] in chain;
    assert q + 1 < |chain| ==> chain[q + 1] in chain;
  }

  /** Unlinking an entry removes its pair and keeps the order of the others. */
  lemma UnlinkKeepsMap(h: Hasher, m: Mem, t: Table, order: seq<Addr>, chains: seq<seq<Addr>>, p: nat, q: nat)
    requires MapOk(h, m, t, order, chains) && p < |order|
    requires var b := Bucket(h, KeyOf(m, order[p])); q < |chains[b]| && chains[b][q] == order[p]
    ensures HasLinks(m, order[p])
    ensures var e, b := order[p], Bucket(h, KeyOf(m, order[p]));
            && MapOk(h, UnlinkedMem(m, e), UnlinkedTable(m, t, e, b), Dropped(order, p),
                     chains[b := Dropped(chains[b], q)])
            && ContentsOf(UnlinkedMem(m, e), Dropped(order, p)) == Dropped(ContentsOf(m, order), p)
            && SameOutside(m, UnlinkedMem(m, e), Elements(order))
  {
    var e, b := order[p], Bucket(h, KeyOf(m, order[p]));
    UnlinkTouches(m, order, chains[b], p, q);
    UnlinkKeepsOrder(m, t, order, p);
    var m1 := OrderUnlinked(m, e);
    assert BucketsOk(m1, t, chains);
    assert forall c, a :: 0 <= c < NBUCKETS && c != b && a in chains[b] ==> a !in chains[c];
    UnlinkKeepsBuckets(m1, t, chains, b, q);
    UnlinkKeepsChains(h, m, order, chains, p, b, q);
    WithoutApart(h, ContentsOf(m, order), p);
    assert ContentsOf(UnlinkedMem(m, e), Dropped(order, p)) == Dropped(ContentsOf(m, order), p);
  }

  // ---------- finding and overwriting ----------

  /** Every entry whose key compares equal to `k` is in the bucket `k` hashes to; so what a scan of
      that bucket finds decides what the map has. */
  lemma ScanFinds(h: Hasher, m: Mem, t: Table, order: seq<Addr>, chains: seq<seq<Addr>>, k: Key, e: Addr)
    requires MapOk(h, m, t, order, chains)
    requires e in chains[Bucket(h, k)] && h.same(KeyOf(m, e), k)
    ensures Has(h, ContentsOf(m, order), k)
    ensures Find(h, ContentsOf(m, order), k) < |order| && order[Find(h, ContentsOf(m, order), k)] == e
  {
    var p :| 0 <= p < |order| && order[p] == e;
    FindIs(h, ContentsOf(m, order), k, p);
  }

  lemma ScanMisses(h: Hasher, m: Mem, t: Table, order: seq<Addr>, chains: seq<seq<Addr>>, k: Key)
    requires MapOk(h, m, t, order, chains)
    requires forall i :: 0 <= i < |chains[Bucket(h, k)]| ==> !h.same(KeyOf(m, chains[Bucket(h, k)][i]), k)
    ensures !Has(h, ContentsOf(m, order), k)
  {
    var c, b := ContentsOf(m, order), Bucket(h, k);
    forall i | 0 <= i < |c| ensures !h.same(c[i].0, k) {
      assert order[i] in order;
      assert order[i] in chains[b] <==> Bucket(h, KeyOf(m, order[i])) == b;
    }
    FindNone(h, c, k);
  }

  function Written(m: Mem, e: Addr, k: Key, v: Value): Mem {
    m.(key := m.key[e := k], value := m.value[e := v])
  }

  /** Writing to an entry that is in no map. */
  lemma WriteFree(h: Hasher, m: Mem, t: Table, order: seq<Addr>, chains: seq<seq<Addr>>, e: Addr, k: Key, v: Value)
    requires MapOk(h, m, t, order, chains) && e !in order
    ensures MapOk(h, Written(m, e, k, v), t, order, chains)
    ensures ContentsOf(Written(m, e, k, v), order) == ContentsOf(m, order)
    ensures SameOutside(m, Written(m, e, k, v), {e})
  {
    MapFrame(h, m, t, order, chains, Written(m, e, k, v));
  }

  /** Overwriting an entry by a pair whose key compares equal keeps its place. */
  lemma WriteInPlace(h: Hasher, m: Mem, t: Table, order: seq<Addr>, chains: seq<seq<Addr>>, p: nat, k: Key, v: Value)
    requires MapOk(h, m, t, order, chains) && p < |order| && h.same(KeyOf(m, order[p]), k)
    ensures MapOk(h, Written(m, order[p], k, v), t, order, chains)
    ensures ContentsOf(Written(m, order[p], k, v), order) == ContentsOf(m, order)[p := (k, v)]
    ensures SameOutside(m, Written(m, order[p], k, v), Elements(order))
  {
    var e, m', c := order[p], Written(m, order[p], k, v), ContentsOf(m, order);
    assert ContentsOf(m', order) == c[p := (k, v)] by {
      forall i | 0 <= i < |order| ensures ContentsOf(m', order)[i] == c[p := (k, v)][i] {
        assert At(i) && At(p);
      }
    }
    assert ChainsOk(h, m', order, chains) by {
      forall b, a | 0 <= b < NBUCKETS ensures a in chains[b] <==> a in order && Bucket(h, KeyOf(m', a)) == b {
        assert a in chains[b] <==> a in order && Bucket(h, KeyOf(m, a)) == b;
      }
    }
    ReplaceApart(h, c, p, k, v);
  }

  lemma ReplaceApart(h: Hasher, c: Contents, p: nat, k: Key, v: Value)
    requires Agree(h) && KeysApart(h, c) && p < |c| && h.same(c[p].0, k)
    ensures KeysApart(h, c[p := (k, v)])
  {
    var d := c[p := (k, v)];
    forall i, j | 0 <= i < j < |d| ensures !h.same(d[i].0, d[j].0) {
      assert At(i) && At(j);
    }
  }

  /** Erasing the pair under the new key first, and then that under the old one, leaves the entry of
      the old key where it can be found. */
  lemma EraseOther(h: Hasher, c: Contents, ko: Key, kn: Key)
    requires Agree(h) && KeysApart(h, c) && Has(h, c, ko) && Has(h, c, kn) && Find(h, c, ko) != Find(h, c, kn)
    ensures var p, j := Find(h, c, ko), Find(h, c, kn);
            var p' := if p < j then p else p - 1;
            && p < |c| && j < |c| && 0 <= p' < |c| - 1
            && Has(h, Dropped(c, j), ko) && Find(h, Dropped(c, j), ko) == p'
            && !Has(h, Dropped(Dropped(c, j), p'), kn)
  {
    FindIsFirst(h, c, ko);
    FindIsFirst(h, c, kn);
    var p, j := Find(h, c, ko), Find(h, c, kn);
    var d := Dropped(c, j);
    var p' := if p < j then p else p - 1;
    WithoutApart(h, c, j);
    assert d[p'] == c[p];
    FindIs(h, d, ko, p');
    EraseErases(h, c, kn);
    if Has(h, Dropped(d, p'), kn) {
      WithoutHas(h, d, p', kn);
    }
  }

  /** One more pair is looked at by an insertion of many. */
  lemma PutAllStep(h: Hasher, c: Contents, d: Contents, j: nat)
    requires j < |d|
    ensures var c' := PutAll(h, c, d[..j]);
            && PutAll(h, c, d[..j + 1]) == (if Has(h, c', d[j].0) then c' else c' + [d[j]])
            && LeftBehind(h, c, d[..j + 1])
               == (if Has(h, c', d[j].0) then LeftBehind(h, c, d[..j]) + [d[j]] else LeftBehind(h, c, d[..j]))
  {
    assert d[..j + 1][..j] == d[..j];
  }

  // ---------- iterating ----------

  /** The position of the first pair whose value is NULL, or the length if there is none. */
  function FirstNull(c: Contents): (n: nat)
    ensures n <= |c| && (n < |c| ==> c[n].1 == 0)
  {
    if c == [] || c[0].1 == 0 then 0 else 1 + FirstNull(c[1..])
  }

  lemma {:induction false} FirstNullIs(c: Contents, n: nat)
    requires n <= |c| && n <= FirstNull(c) && (n < |c| ==> c[n].1 == 0)
    ensures FirstNull(c) == n
  {
    if n > 0 {
      FirstNullIs(c[1..], n - 1);
    }
  }

  /** The pairs that a loop body keeps. */
  function Kept(c: Contents, keep: (Key, Value) -> bool): Contents {
    if c == [] then []
    else
      var last := c[|c| - 1];
      Kept(c[..|c| - 1], keep) + if keep(last.0, last.1) then [last] else []
  }

  /** What is kept is what the body accepts, and all of it. */
  lemma {:induction false} KeptIs(c: Contents, keep: (Key, Value) -> bool, x: (Key, Value))
    ensures x in Kept(c, keep) <==> x in c && keep(x.0, x.1)
  {
    if c != [] {
      var n := |c| - 1;
      KeptIs(c[..n], keep, x);
      assert c == c[..n] + [c[n]];
    }
  }

  lemma KeptStep(c: Contents, keep: (Key, Value) -> bool, j: nat)
    requires j < |c|
    ensures Kept(c[..j + 1], keep) == Kept(c[..j], keep) + if keep(c[j].0, c[j].1) then [c[j]] else []
  {
    assert c[..j + 1][..j] == c[..j];
  }

  lemma PrefixGrows<T>(s: seq<T>, j: nat)
    requires j < |s|
    ensures s[..j + 1] == s[..j] + [s[j]]
  {
  }

  lemma WholePrefix<T>(s: seq<T>, a: seq<T>)
    ensures s[..|s|] == s && s[|s|..] == [] && a + s[|s|..] == a
    ensures s[..0] == [] && s[0..] == s && [] + s[0..] == s
  {
  }

  lemma StepOver<T>(a: seq<T>, b: seq<T>, j: nat)
    requires j < |b|
    ensures a + b[j..] == a + [b[j]] + b[j + 1..]
    ensures (a + b[j..])[..|a|] + (a + b[j..])[|a| + 1..] == a + b[j + 1..]
    ensures (a + b[j..])[|a|] == b[j]
  {
  }
}
