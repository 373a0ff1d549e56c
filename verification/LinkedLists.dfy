/** Doubly linked lists threaded through memory, as the hash maps, the run queue and the device
    chains use them (src/list.h, src/hashmap.c). Links are kept per field: `next[a]` is the next
    pointer of the object at address `a`, and 0 is NULL. */
module LinkedLists {
  import opened Collections

  type Addr = nat

  function Before(s: seq<Addr>, i: int): Addr {
    if 0 <= i - 1 < |s| then s[i - 1] else 0
  }

  function First(s: seq<Addr>): Addr {
    if s == [] then 0 else s[0]
  }

  function Last(s: seq<Addr>): Addr {
    if s == [] then 0 else s[|s| - 1]
  }

  /** The objects at the addresses `s`, in this order, are linked both ways, and end in NULL. */
  ghost predicate Linked(next: map<Addr, Addr>, prev: map<Addr, Addr>, s: seq<Addr>) {
    && DistinctMarked(s)
    && forall i {:trigger At(i)} :: At(i) && 0 <= i < |s| ==>
         && s[i] > 0 && s[i] in next && s[i] in prev
         && next[s[i]] == After(s, i)
         && prev[s[i]] == Before(s, i)
  }

  lemma LinkedAt(next: map<Addr, Addr>, prev: map<Addr, Addr>, s: seq<Addr>, i: nat)
    requires Linked(next, prev, s) && i < |s|
    ensures s[i] > 0 && s[i] in next && s[i] in prev
    ensures next[s[i]] == After(s, i) && prev[s[i]] == Before(s, i)
  {
    assert At(i);
  }

  lemma DistinctAt(s: seq<Addr>, i: nat, j: nat)
    requires DistinctMarked(s) && i < |s| && j < |s| && s[i] == s[j]
    ensures i == j
  {
    assert At(i) && At(j);
  }

  lemma LinkedMembers(next: map<Addr, Addr>, prev: map<Addr, Addr>, s: seq<Addr>, a: Addr)
    requires Linked(next, prev, s) && a in s
    ensures a > 0 && a in next && a in prev
  {
    var i :| 0 <= i < |s| && s[i] == a;
    LinkedAt(next, prev, s, i);
  }

  /** A list is not affected by what happens to other objects. */
  lemma LinkedFrame(next: map<Addr, Addr>, prev: map<Addr, Addr>, s: seq<Addr>, next': map<Addr, Addr>,
                    prev': map<Addr, Addr>)
    requires Linked(next, prev, s)
    requires forall a :: a in s && a in next ==> a in next' && next'[a] == next[a]
    requires forall a :: a in s && a in prev ==> a in prev' && prev'[a] == prev[a]
    ensures Linked(next', prev', s)
  {
    forall i | 0 <= i < |s|
      ensures s[i] > 0 && s[i] in next' && s[i] in prev' && next'[s[i]] == After(s, i) && prev'[s[i]] == Before(s, i)
    {
      LinkedAt(next, prev, s, i);
      assert s[i] in s;
    }
  }

  // ---------- inserting ----------

  /** LIST_PREPEND, and the bucket half of link_entry(). */
  function PushedFrontPrev(prev: map<Addr, Addr>, head: Addr, e: Addr): map<Addr, Addr> {
    if head == 0 then prev[e := 0] else prev[e := 0][head := e]
  }

  lemma PushFront(next: map<Addr, Addr>, prev: map<Addr, Addr>, s: seq<Addr>, e: Addr)
    requires Linked(next, prev, s) && e > 0 && e !in s
    ensures Linked(next[e := First(s)], PushedFrontPrev(prev, First(s), e), [e] + s)
  {
    var next', prev', s' := next[e := First(s)], PushedFrontPrev(prev, First(s), e), [e] + s;
    forall i, j | 0 <= i < j < |s'| ensures s'[i] != s'[j] {
      assert s'[j] == s[j - 1] && s[j - 1] in s && At(i - 1) && At(j - 1);
    }
    if s != [] {
      LinkedAt(next, prev, s, 0);
    }
    forall i | 0 <= i < |s'|
      ensures s'[i] > 0 && s'[i] in next' && s'[i] in prev' && next'[s'[i]] == After(s', i)
                && prev'[s'[i]] == Before(s', i)
    {
      if i > 0 {
        LinkedAt(next, prev, s, i - 1);
        assert s'[i] == s[i - 1] && s[i - 1] in s;
        assert At(0) && At(i - 1);
      }
    }
  }

  /** The iteration half of link_entry(). */
  function PushedBackNext(next: map<Addr, Addr>, tail: Addr, e: Addr): map<Addr, Addr> {
    if tail == 0 then next[e := 0] else next[e := 0][tail := e]
  }

  lemma PushBack(next: map<Addr, Addr>, prev: map<Addr, Addr>, s: seq<Addr>, e: Addr)
    requires Linked(next, prev, s) && e > 0 && e !in s
    ensures Linked(PushedBackNext(next, Last(s), e), prev[e := Last(s)], s + [e])
  {
    var next', prev', s' := PushedBackNext(next, Last(s), e), prev[e := Last(s)], s + [e];
    forall i, j | 0 <= i < j < |s'| ensures s'[i] != s'[j] {
      assert s[i] in s && At(i) && At(j);
    }
    if s != [] {
      LinkedAt(next, prev, s, |s| - 1);
    }
    forall i | 0 <= i < |s'|
      ensures s'[i] > 0 && s'[i] in next' && s'[i] in prev' && next'[s'[i]] == After(s', i)
                && prev'[s'[i]] == Before(s', i)
    {
      if i < |s| {
        LinkedAt(next, prev, s, i);
        assert s[i] in s;
        assert At(|s| - 1) && At(i);
      }
    }
  }

  // ---------- removing ----------

  function UnlinkedPrev(next: map<Addr, Addr>, prev: map<Addr, Addr>, e: Addr): map<Addr, Addr>
    requires e in next && e in prev
  {
    if next[e] == 0 then prev else prev[next[e] := prev[e]]
  }

  function UnlinkedNext(next: map<Addr, Addr>, prev: map<Addr, Addr>, e: Addr): map<Addr, Addr>
    requires e in next && e in prev
  {
    if prev[e] == 0 then next else next[prev[e] := next[e]]
  }

  lemma DroppedAt(s: seq<Addr>, k: nat, i: nat)
    requires DistinctMarked(s) && k < |s| && i < |s| - 1
    ensures Dropped(s, k)[i] == (if i < k then s[i] else s[i + 1])
    ensures Dropped(s, k)[i] != s[k]
  {
    assert At(i) && At(k) && At(i + 1);
  }

  lemma DroppedDistinct(s: seq<Addr>, k: nat)
    requires DistinctMarked(s) && k < |s|
    ensures DistinctMarked(Dropped(s, k))
    ensures forall a :: a in Dropped(s, k) <==> a in s && a != s[k]
  {
    var t := Dropped(s, k);
    forall i, j | 0 <= i < j < |t| ensures t[i] != t[j] {
      assert At(i) && At(i + 1) && At(j) && At(j + 1);
    }
    forall a | a in t ensures a in s && a != s[k] {
      var i :| 0 <= i < |t| && t[i] == a;
      DroppedAt(s, k, i);
    }
    forall a | a in s && a != s[k] ensures a in t {
      var i :| 0 <= i < |s| && s[i] == a;
      assert t[if i < k then i else i - 1] == a;
    }
  }

  /** LIST_REMOVE, and both halves of unlink_entry(): the neighbours of the object are linked to
      each other. */
  lemma Unlink(next: map<Addr, Addr>, prev: map<Addr, Addr>, s: seq<Addr>, k: nat)
    requires Linked(next, prev, s) && k < |s|
    ensures s[k] in next && s[k] in prev && next[s[k]] == After(s, k) && prev[s[k]] == Before(s, k)
    ensures Linked(UnlinkedNext(next, prev, s[k]), UnlinkedPrev(next, prev, s[k]), Dropped(s, k))
    ensures First(Dropped(s, k)) == if k == 0 then After(s, k) else First(s)
    ensures Last(Dropped(s, k)) == if k + 1 == |s| then Before(s, k) else Last(s)
  {
    LinkedAt(next, prev, s, k);
    if k > 0 {
      LinkedAt(next, prev, s, k - 1);
    }
    if k + 1 < |s| {
      LinkedAt(next, prev, s, k + 1);
    }
    DroppedDistinct(s, k);
    var t := Dropped(s, k);
    forall i | 0 <= i < |t| ensures UnlinkedOk(next, prev, s, k, i) {
      UnlinkAt(next, prev, s, k, i);
    }
    assert forall i {:trigger At(i)} :: At(i) && 0 <= i < |t| ==> UnlinkedOk(next, prev, s, k, i);
  }

  ghost predicate UnlinkedOk(next: map<Addr, Addr>, prev: map<Addr, Addr>, s: seq<Addr>, k: nat, i: nat)
    requires k < |s| && s[k] in next && s[k] in prev && i < |s| - 1
  {
    var next', prev', t := UnlinkedNext(next, prev, s[k]), UnlinkedPrev(next, prev, s[k]), Dropped(s, k);
    t[i] > 0 && t[i] in next' && t[i] in prev' && next'[t[i]] == After(t, i) && prev'[t[i]] == Before(t, i)
  }

  lemma UnlinkAt(next: map<Addr, Addr>, prev: map<Addr, Addr>, s: seq<Addr>, k: nat, i: nat)
    requires Linked(next, prev, s) && k < |s| && i < |s| - 1
    ensures s[k] in next && s[k] in prev && UnlinkedOk(next, prev, s, k, i)
  {
    var j := if i < k then i else i + 1;
    LinkedAt(next, prev, s, k);
    LinkedAt(next, prev, s, j);
    assert At(j) && At(k - 1) && At(k + 1) && At(k);
  }
}
