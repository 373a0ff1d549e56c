/** Devices that share a sysfs path, chained to each other and indexed by that path (src/device.c). */
module Devices {
  import opened Collections
  import opened ErrorCodes
  import opened LinkedLists
  import opened Paths

  type Dev = Addr

  /** An entry of the index: whose string serves as the key, and the head of the chain. */
  datatype Slot = Slot(keyOwner: Dev, first: Dev)

  /** The chain of a path starts at the indexed device, and the key belongs to that device. */
  ghost predicate ChainOk(next: map<Dev, Dev>, prev: map<Dev, Dev>, slot: Slot, chain: seq<Dev>) {
    chain != [] && Linked(next, prev, chain) && slot.first == chain[0] && slot.keyOwner == chain[0]
  }

  ghost predicate IndexOk(next: map<Dev, Dev>, prev: map<Dev, Dev>, index: map<string, Slot>,
                          chains: map<string, seq<Dev>>) {
    && index.Keys == chains.Keys
    && forall p {:trigger chains[p]} :: p in chains && p in index ==> ChainOk(next, prev, index[p], chains[p])
  }

  /** Each device with a sysfs path is in the chain of that path, and in no other. */
  ghost predicate Member(sysfs: map<Dev, string>, chains: map<string, seq<Dev>>, d: Dev, p: string) {
    p in chains && d in chains[p] <==> d in sysfs && sysfs[d] == p
  }

  ghost predicate MembersOk(sysfs: map<Dev, string>, chains: map<string, seq<Dev>>) {
    forall d, p {:trigger Member(sysfs, chains, d, p)} :: Member(sysfs, chains, d, p)
  }

  /** Chains of other paths are not affected by changes to the devices in `touched`. */
  lemma OthersKept(next: map<Dev, Dev>, prev: map<Dev, Dev>, sysfs: map<Dev, string>, chains: map<string, seq<Dev>>,
                   path: string, next': map<Dev, Dev>, prev': map<Dev, Dev>, touched: set<Dev>, p: string, slot: Slot)
    requires MembersOk(sysfs, chains) && p in chains && p != path && ChainOk(next, prev, slot, chains[p])
    requires forall d :: d in touched ==> d !in sysfs || sysfs[d] == path
    requires forall d :: d !in touched && d in next ==> d in next' && next'[d] == next[d]
    requires forall d :: d !in touched && d in prev ==> d in prev' && prev'[d] == prev[d]
    ensures ChainOk(next', prev', slot, chains[p])
  {
    forall d | d in chains[p] ensures d !in touched {
      assert Member(sysfs, chains, d, p) && Member(sysfs, chains, d, path);
    }
    LinkedFrame(next, prev, chains[p], next', prev');
  }

  // ---------- a device appears ----------

  function ChainOf(chains: map<string, seq<Dev>>, p: string): seq<Dev> {
    if p in chains then chains[p] else []
  }

  lemma PrependKeeps(next: map<Dev, Dev>, prev: map<Dev, Dev>, sysfs: map<Dev, string>, index: map<string, Slot>,
                     chains: map<string, seq<Dev>>, d: Dev, path: string)
    requires IndexOk(next, prev, index, chains) && MembersOk(sysfs, chains) && d > 0 && d !in sysfs
    ensures var s := ChainOf(chains, path);
            && First(s) == (if path in index then index[path].first else 0)
            && IndexOk(next[d := First(s)], PushedFrontPrev(prev, First(s), d), index[path := Slot(d, d)],
                       chains[path := [d] + s])
            && MembersOk(sysfs[d := path], chains[path := [d] + s])
  {
    var s := ChainOf(chains, path);
    var next', prev' := next[d := First(s)], PushedFrontPrev(prev, First(s), d);
    var index', chains', sysfs' := index[path := Slot(d, d)], chains[path := [d] + s], sysfs[d := path];
    assert d !in s by {
      assert Member(sysfs, chains, d, path);
    }
    if s == [] {
      assert Linked(next, prev, s);
    }
    PushFront(next, prev, s, d);
    var touched := {d} + if s == [] then {} else {s[0]};
    forall e | e in touched ensures e !in sysfs || sysfs[e] == path {
      if e != d {
        assert Member(sysfs, chains, e, path);
      }
    }
    forall p | p in chains' ensures ChainOk(next', prev', index'[p], chains'[p]) {
      if p != path {
        OthersKept(next, prev, sysfs, chains, path, next', prev', touched, p, index[p]);
      }
    }
    forall e, p ensures Member(sysfs', chains', e, p) {
      assert Member(sysfs, chains, e, p);
    }
  }

  // ---------- a device goes ----------

  ghost function ChainsWithout(chains: map<string, seq<Dev>>, path: string, k: nat): map<string, seq<Dev>>
    requires path in chains && k < |chains[path]|
  {
    if |chains[path]| == 1 then chains - {path} else chains[path := Dropped(chains[path], k)]
  }

  function IndexWithout(index: map<string, Slot>, path: string, first: Dev): map<string, Slot> {
    if first == 0 then index - {path} else index[path := Slot(first, first)]
  }

  /** The links after LIST_REMOVE, which also clears those of the device itself. */
  function RemovedNext(next: map<Dev, Dev>, prev: map<Dev, Dev>, d: Dev): map<Dev, Dev>
    requires d in next && d in prev
  {
    UnlinkedNext(next, prev, d)[d := 0]
  }

  function RemovedPrev(next: map<Dev, Dev>, prev: map<Dev, Dev>, d: Dev): map<Dev, Dev>
    requires d in next && d in prev
  {
    UnlinkedPrev(next, prev, d)[d := 0]
  }

  lemma RemoveFromChain(next: map<Dev, Dev>, prev: map<Dev, Dev>, s: seq<Dev>, k: nat)
    requires Linked(next, prev, s) && k < |s|
    ensures s[k] in next && s[k] in prev && next[s[k]] == After(s, k) && prev[s[k]] == Before(s, k)
    ensures Linked(RemovedNext(next, prev, s[k]), RemovedPrev(next, prev, s[k]), Dropped(s, k))
    ensures First(Dropped(s, k)) == if k == 0 then After(s, k) else First(s)
    ensures forall d :: d in Dropped(s, k) <==> d in s && d != s[k]
    ensures forall d :: d in next && d !in s ==>
                          d in RemovedNext(next, prev, s[k]) && RemovedNext(next, prev, s[k])[d] == next[d]
    ensures forall d :: d in prev && d !in s ==>
                          d in RemovedPrev(next, prev, s[k]) && RemovedPrev(next, prev, s[k])[d] == prev[d]
  {
    Unlink(next, prev, s, k);
    DroppedDistinct(s, k);
    var d := s[k];
    LinkedFrame(UnlinkedNext(next, prev, d), UnlinkedPrev(next, prev, d), Dropped(s, k),
                RemovedNext(next, prev, d), RemovedPrev(next, prev, d));
    assert k > 0 ==> s[k - 1] in s;
    assert k + 1 < |s| ==> s[k + 1] in s;
    assert s[k] in s;
    if k > 0 {
      LinkedAt(next, prev, s, k - 1);
    }
    if k + 1 < |s| {
      LinkedAt(next, prev, s, k + 1);
    }
  }

  lemma RemoveKeepsIndex(next: map<Dev, Dev>, prev: map<Dev, Dev>, sysfs: map<Dev, string>, index: map<string, Slot>,
                         chains: map<string, seq<Dev>>, path: string, k: nat)
    requires IndexOk(next, prev, index, chains) && MembersOk(sysfs, chains) && path in chains && k < |chains[path]|
    ensures var s, d := chains[path], chains[path][k];
            var first := First(Dropped(s, k));
            && d in next && d in prev
            && IndexOk(RemovedNext(next, prev, d), RemovedPrev(next, prev, d), IndexWithout(index, path, first),
                       ChainsWithout(chains, path, k))
  {
    var s, d := chains[path], chains[path][k];
    RemoveFromChain(next, prev, s, k);
    var first := First(Dropped(s, k));
    if |s| > 1 {
      LinkedAt(next, prev, s, if k == 0 then 1 else 0);
    }
    var next', prev' := RemovedNext(next, prev, d), RemovedPrev(next, prev, d);
    var index', chains' := IndexWithout(index, path, first), ChainsWithout(chains, path, k);
    var touched := set e | e in s;
    forall e | e in touched ensures e !in sysfs || sysfs[e] == path {
      assert Member(sysfs, chains, e, path);
    }
    forall p | p in chains' ensures ChainOk(next', prev', index'[p], chains'[p]) {
      if p != path {
        OthersKept(next, prev, sysfs, chains, path, next', prev', touched, p, index[p]);
      }
    }
  }

  lemma RemoveKeepsMembers(next: map<Dev, Dev>, prev: map<Dev, Dev>, sysfs: map<Dev, string>,
                           chains: map<string, seq<Dev>>, path: string, k: nat)
    requires MembersOk(sysfs, chains) && path in chains && k < |chains[path]| && Linked(next, prev, chains[path])
    ensures MembersOk(sysfs - {chains[path][k]}, ChainsWithout(chains, path, k))
  {
    var s, d := chains[path], chains[path][k];
    DroppedDistinct(s, k);
    forall e, p ensures Member(sysfs - {d}, ChainsWithout(chains, path, k), e, p) {
      assert Member(sysfs, chains, e, p) && Member(sysfs, chains, d, path);
      assert |s| == 1 ==> s == [d];
    }
  }

  /** Which unit the one at position `k` of its chain follows: none, if it is named after the sysfs
      path; else the next that is, or else the closest one before; else the head of the chain. */
  ghost function Leader(s: seq<Dev>, k: nat, isSys: Dev -> bool): Dev
    requires k < |s|
  {
    if isSys(s[k]) then 0
    else
      var n := NextSys(s, k + 1, isSys);
      if n < |s| then s[n]
      else
        var m := PrevSys(s, k, isSys);
        if m > 0 then s[m - 1] else if k > 0 then s[0] else 0
  }

  /** The first position from `k` on that is named after the sysfs path, or the length. */
  ghost function NextSys(s: seq<Dev>, k: nat, isSys: Dev -> bool): (n: nat)
    requires k <= |s|
    ensures k <= n <= |s|
    ensures n < |s| ==> isSys(s[n])
    ensures forall i :: k <= i < n ==> !isSys(s[i])
    decreases |s| - k
  {
    if k == |s| || isSys(s[k]) then k else NextSys(s, k + 1, isSys)
  }

  /** One more than the last position before `k` that is, or 0. */
  ghost function PrevSys(s: seq<Dev>, k: nat, isSys: Dev -> bool): (m: nat)
    requires k <= |s|
    ensures m <= k
    ensures m > 0 ==> isSys(s[m - 1])
    ensures forall i :: m <= i < k ==> !isSys(s[i])
  {
    if k == 0 then 0 else if isSys(s[k - 1]) then k else PrevSys(s, k - 1, isSys)
  }

  /** Following is flat: whoever is followed follows nobody. */
  lemma FollowingIsFlat(s: seq<Dev>, k: nat, j: nat, isSys: Dev -> bool)
    requires k < |s| && j < |s| && DistinctMarked(s) && Leader(s, k, isSys) == s[j] > 0
    ensures Leader(s, j, isSys) == 0
  {
    if !isSys(s[j]) {
      assert NextSys(s, k + 1, isSys) == |s| && PrevSys(s, k, isSys) == 0;
      DistinctAt(s, 0, j);
      var n := NextSys(s, 1, isSys);
      assert forall i :: 0 <= i < |s| && i != k ==> !isSys(s[i]);
    }
  }

  lemma LeaderInChain(s: seq<Dev>, k: nat, isSys: Dev -> bool) returns (j: nat)
    requires k < |s| && DistinctMarked(s) && Leader(s, k, isSys) != 0
    ensures j < |s| && j != k && s[j] == Leader(s, k, isSys) != s[k]
  {
    var n, m := NextSys(s, k + 1, isSys), PrevSys(s, k, isSys);
    j := if n < |s| then n else if m > 0 then m - 1 else 0;
    if s[j] == s[k] {
      DistinctAt(s, j, k);
    }
  }

  lemma DistinctAtPlace(s: seq<Dev>, j: nat, d: Dev)
    requires DistinctMarked(s) && j < |s| && s[j] == d
    ensures d in s && PlaceOf(s, d) == j
  {
    DistinctAt(s, j, PlaceOf(s, d));
  }

  /** And with at most one unit named after the sysfs path, all the others follow the same one. */
  lemma OneLeader(s: seq<Dev>, j: nat, k: nat, isSys: Dev -> bool)
    requires j < |s| && k < |s|
    requires forall a, b :: 0 <= a < b < |s| ==> !(isSys(s[a]) && isSys(s[b]))
    requires Leader(s, j, isSys) != 0 && Leader(s, k, isSys) != 0
    ensures Leader(s, j, isSys) == Leader(s, k, isSys)
  {
    if l :| 0 <= l < |s| && isSys(s[l]) {
      LeaderIs(s, j, l, isSys);
      LeaderIs(s, k, l, isSys);
    }
  }

  lemma LeaderIs(s: seq<Dev>, k: nat, l: nat, isSys: Dev -> bool)
    requires k < |s| && l < |s| && k != l && isSys(s[l]) && !isSys(s[k])
    requires forall a, b :: 0 <= a < b < |s| ==> !(isSys(s[a]) && isSys(s[b]))
    ensures Leader(s, k, isSys) == s[l]
  {
    var n, m := NextSys(s, k + 1, isSys), PrevSys(s, k, isSys);
  }

  class Manager {
    var sysfs: map<Dev, string>
    var next: map<Dev, Dev>
    var prev: map<Dev, Dev>
    var index: map<string, Slot>
    ghost var chains: map<string, seq<Dev>>

    ghost predicate Valid()
      reads this
    {
      IndexOk(next, prev, index, chains) && MembersOk(sysfs, chains)
    }

    constructor ()
      ensures Valid() && sysfs == map[] && chains == map[]
    {
      sysfs, next, prev, index, chains := map[], map[], map[], map[], map[];
    }

    /** A device is seen at a sysfs path. */
    method SetSysfs(d: Dev, path: string) returns (r: int)
      requires Valid() && d > 0
      modifies this
      ensures Valid()
      ensures r == if d in old(sysfs) && KillSlashes(old(sysfs)[d]) != KillSlashes(path) then EEXIST else 0
      ensures d in old(sysfs) ==> sysfs == old(sysfs) && chains == old(chains)
      ensures d !in old(sysfs) ==>
                sysfs == old(sysfs)[d := path] && chains == old(chains)[path := [d] + ChainOf(old(chains), path)]
    {
      if d in sysfs {
        var same := PathEqual(sysfs[d], path);
        if !same {
          return EEXIST;
        }
      }
      r := 0;
      if d !in sysfs {
        PrependKeeps(next, prev, sysfs, index, chains, d, path);
        sysfs := sysfs[d := path];
        var first := if path in index then index[path].first else 0;
        next := next[d := first];
        prev := PushedFrontPrev(prev, first, d);
        index := index[path := Slot(d, d)];
        chains := chains[path := [d] + ChainOf(chains, path)];
      }
    }

    /** Removes a device from the chain headed by `first`, and tells the new head. */
    method ListRemove(first: Dev, d: Dev) returns (first': Dev)
      requires d in next && d in prev && next[d] != d && prev[d] != d
      modifies `next, `prev
      ensures next == RemovedNext(old(next), old(prev), d) && prev == RemovedPrev(old(next), old(prev), d)
      ensures first' == if old(prev)[d] == 0 then old(next)[d] else first
    {
      first' := first;
      if next[d] != 0 {
        prev := prev[next[d] := prev[d]];
      }
      if prev[d] != 0 {
        next := next[prev[d] := next[d]];
      } else {
        first' := next[d];
      }
      next := next[d := 0];
      prev := prev[d := 0];
    }

    /** Takes a device out of the chain of its path, and the path out of the index if it was the last. */
    method Detach(d: Dev)
      requires Valid() && d in sysfs
      modifies this
      ensures Valid() && sysfs == old(sysfs) - {d}
      ensures var path := old(sysfs)[d];
              && path in old(chains) && d in old(chains)[path]
              && chains == ChainsWithout(old(chains), path, PlaceOf(old(chains)[path], d))
    {
      var path := sysfs[d];
      assert Member(sysfs, chains, d, path);
      ghost var s := chains[path];
      ghost var k := PlaceOf(s, d);
      RemoveKeepsIndex(next, prev, sysfs, index, chains, path, k);
      RemoveKeepsMembers(next, prev, sysfs, chains, path, k);
      RemoveFromChain(next, prev, s, k);
      HeadPositive(next, prev, s, k);
      var first := ListRemove(index[path].first, d);
      index := IndexWithout(index, path, first);
      sysfs := sysfs - {d};
      chains := ChainsWithout(chains, path, k);
    }

    /** A device loses its sysfs path. Its string is freed; so the index must not hold on to it. */
    method UnsetSysfs(d: Dev)
      requires Valid()
      modifies this
      ensures Valid() && d !in sysfs
      ensures sysfs == old(sysfs) - {d}
      ensures forall p :: p in old(chains) && (d !in old(sysfs) || p != old(sysfs)[d]) ==>
                p in chains && chains[p] == old(chains)[p]
      ensures forall p :: p in chains ==> p in old(chains)
      ensures forall p :: p in index ==> index[p].keyOwner in sysfs && sysfs[index[p].keyOwner] == p
    {
      if d in sysfs {
        Detach(d);
      }
      KeysOwned(next, prev, sysfs, index, chains);
    }

    /** All devices of a sysfs path go away. */
    method ProcessRemoved(path: string)
      requires Valid()
      modifies this
      ensures Valid() && path !in chains
      ensures forall d :: d in sysfs <==> d in old(sysfs) && old(sysfs)[d] != path
      ensures forall d :: d in sysfs ==> sysfs[d] == old(sysfs)[d]
      ensures forall p :: p in old(chains) && p != path ==> p in chains && chains[p] == old(chains)[p]
    {
      while path in index
        invariant Valid()
        invariant forall d :: d in sysfs ==> d in old(sysfs) && sysfs[d] == old(sysfs)[d]
        invariant forall d :: d in old(sysfs) && old(sysfs)[d] != path ==> d in sysfs
        invariant forall p :: p in old(chains) && p != path ==> p in chains && chains[p] == old(chains)[p]
        decreases |sysfs|
      {
        var d := index[path].first;
        assert d == chains[path][0] && Member(sysfs, chains, d, path);
        UnsetSysfs(d);
      }
      forall d | d in sysfs ensures sysfs[d] != path {
        assert Member(sysfs, chains, d, path);
      }
    }

    /** The unit that a device follows, or 0. It is a device of the same path that follows nobody. */
    method Following(d: Dev, isSys: Dev -> bool) returns (f: Dev)
      requires Valid() && d in sysfs
      ensures sysfs[d] in chains && d in chains[sysfs[d]]
      ensures f == Leader(chains[sysfs[d]], PlaceOf(chains[sysfs[d]], d), isSys)
      ensures f != 0 ==> f != d && f in sysfs && sysfs[f] == sysfs[d] && f in chains[sysfs[d]]
      ensures f != 0 ==> Leader(chains[sysfs[d]], PlaceOf(chains[sysfs[d]], f), isSys) == 0
    {
      f := FindLeader(d, isSys);
      if f != 0 {
        LeaderFollowsNobody(d, f, isSys);
      }
    }

    lemma LeaderFollowsNobody(d: Dev, f: Dev, isSys: Dev -> bool)
      requires Valid() && d in sysfs && sysfs[d] in chains && d in chains[sysfs[d]]
      requires f == Leader(chains[sysfs[d]], PlaceOf(chains[sysfs[d]], d), isSys) != 0
      ensures f != d && f in sysfs && sysfs[f] == sysfs[d] && f in chains[sysfs[d]]
      ensures Leader(chains[sysfs[d]], PlaceOf(chains[sysfs[d]], f), isSys) == 0
    {
      var s := chains[sysfs[d]];
      var j := LeaderInChain(s, PlaceOf(s, d), isSys);
      assert Member(sysfs, chains, f, sysfs[d]);
      DistinctAtPlace(s, j, f);
      FollowingIsFlat(s, PlaceOf(s, d), j, isSys);
    }

    method FindLeader(d: Dev, isSys: Dev -> bool) returns (f: Dev)
      requires Valid() && d in sysfs
      ensures sysfs[d] in chains && d in chains[sysfs[d]]
      ensures f == Leader(chains[sysfs[d]], PlaceOf(chains[sysfs[d]], d), isSys)
    {
      assert Member(sysfs, chains, d, sysfs[d]);
      ghost var s := chains[sysfs[d]];
      ghost var k := PlaceOf(s, d);
      ghost var i := k + 1;
      if isSys(d) {
        return 0;
      }
      LinkedAt(next, prev, s, k);
      var other := next[d];
      while other != 0
        invariant k < i <= |s| && other == (if i < |s| then s[i] else 0)
        invariant NextSys(s, k + 1, isSys) == NextSys(s, i, isSys)
        decreases |s| - i
      {
        if isSys(other) {
          return other;
        }
        LinkedAt(next, prev, s, i);
        other := next[other];
        i := i + 1;
      }
      if i < |s| {
        LinkedAt(next, prev, s, i);
      }
      f := FollowingBefore(d, isSys, s, k);
    }

    method FollowingBefore(d: Dev, isSys: Dev -> bool, ghost s: seq<Dev>, ghost k: nat) returns (first: Dev)
      requires Linked(next, prev, s) && k < |s| && s[k] == d
      ensures var m := PrevSys(s, k, isSys); first == if m > 0 then s[m - 1] else if k > 0 then s[0] else 0
    {
      first := 0;
      ghost var i := k;
      LinkedAt(next, prev, s, k);
      var other := prev[d];
      while other != 0
        invariant 0 <= i <= k && other == (if i > 0 then s[i - 1] else 0)
        invariant PrevSys(s, k, isSys) == PrevSys(s, i, isSys)
        invariant first == if i < k then s[i] else 0
        decreases i
      {
        if isSys(other) {
          return other;
        }
        LinkedAt(next, prev, s, i - 1);
        first := other;
        other := prev[other];
        i := i - 1;
      }
      if i > 0 {
        LinkedAt(next, prev, s, i - 1);
      }
    }
  }

  ghost function PlaceOf(s: seq<Dev>, d: Dev): (k: nat)
    requires d in s
    ensures k < |s| && s[k] == d
  {
    var k :| 0 <= k < |s| && s[k] == d;
    k
  }

  lemma HeadPositive(next: map<Dev, Dev>, prev: map<Dev, Dev>, s: seq<Dev>, k: nat)
    requires Linked(next, prev, s) && k < |s|
    ensures k > 0 ==> s[k - 1] > 0
    ensures First(Dropped(s, k)) == 0 <==> |s| == 1
    ensures After(s, k) != s[k] && Before(s, k) != s[k]
  {
    LinkedAt(next, prev, s, k);
    var before: int := k - 1;
    assert At(k) && At(before) && At(k + 1);
    if |s| > 1 {
      LinkedAt(next, prev, s, if k == 0 then 1 else 0);
    }
    if k > 0 {
      LinkedAt(next, prev, s, k - 1);
    }
  }

  /** Every key of the index is a string that is still owned by a device with that path. */
  lemma KeysOwned(next: map<Dev, Dev>, prev: map<Dev, Dev>, sysfs: map<Dev, string>, index: map<string, Slot>,
                  chains: map<string, seq<Dev>>)
    requires IndexOk(next, prev, index, chains) && MembersOk(sysfs, chains)
    ensures forall p :: p in index ==> index[p].keyOwner in sysfs && sysfs[index[p].keyOwner] == p
  {
    forall p | p in index ensures index[p].keyOwner in sysfs && sysfs[index[p].keyOwner] == p {
      assert chains[p][0] in chains[p] && Member(sysfs, chains, chains[p][0], p);
    }
  }
}
