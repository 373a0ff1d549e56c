/** Renumbering the descriptors passed to a child to 3, 4, 5, ... (src/execute.c). */
module ShiftFds {
  import opened Collections

  /** An open file description. */
  type File = nat

  /** A process's table of open descriptors, of which there can be `limit`. */
  class Process {
    const limit: nat
    var open: map<nat, File>

    constructor (limit: nat)
      ensures this.limit == limit && open == map[]
    {
      this.limit := limit;
      open := map[];
    }

    /** fcntl(F_DUPFD): the lowest free descriptor from `min` up becomes a copy of `fd`. */
    method DupFd(fd: nat, min: nat) returns (nfd: int)
      requires fd in open
      modifies `open
      ensures nfd >= 0 ==>
                && min <= nfd < limit && nfd !in old(open)
                && (forall k :: min <= k < nfd ==> k in old(open))
                && open == old(open)[nfd := old(open)[fd]]
      ensures nfd < 0 ==> open == old(open) && forall k :: min <= k < limit ==> k in open
    {
      var k := min;
      while k < limit && k in open
        invariant min <= k && forall m :: min <= m < k ==> m in open
      {
        k := k + 1;
      }
      if k < limit {
        open := open[k := open[fd]];
        return k;
      }
      return -1;
    }

    method Close(fd: nat)
      requires fd in open
      modifies `open
      ensures open == old(open) - {fd}
    {
      open := open - {fd};
    }
  }

  /** Every entry is open, and names the file that the same entry of `s0` named under `open0`; the
      descriptors that are not entries are the same. */
  ghost predicate SameFiles(open0: map<nat, File>, s0: seq<nat>, open: map<nat, File>, s: seq<nat>) {
    && |s| == |s0|
    && Distinct(s)
    && (forall i :: 0 <= i < |s| ==> s[i] in open && s0[i] in open0 && open[s[i]] == open0[s0[i]])
    && (forall k {:trigger At(k)} :: At(k) ==> (k in open && k !in s <==> k in open0 && k !in s0))
    && (forall k {:trigger At(k)} :: At(k) && k in open && k !in s && k in open0 ==> open[k] == open0[k])
  }

  lemma MovedElements(s: seq<nat>, i: nat, nfd: nat)
    requires Distinct(s) && i < |s| && nfd !in s
    ensures forall k :: k in s[i := nfd] <==> k == nfd || (k in s && k != s[i])
  {
    var s' := s[i := nfd];
    forall k | k in s && k != s[i] ensures k in s' {
      var j :| 0 <= j < |s| && s[j] == k;
      assert s'[j] == k;
    }
    assert s'[i] == nfd;
  }

  /** Moving one entry to a free descriptor keeps every name. */
  lemma MoveKeepsFiles(open0: map<nat, File>, s0: seq<nat>, open: map<nat, File>, s: seq<nat>, i: nat, nfd: nat)
    requires SameFiles(open0, s0, open, s) && i < |s| && nfd !in open
    ensures SameFiles(open0, s0, open[nfd := open[s[i]]] - {s[i]}, s[i := nfd])
  {
    var open', s' := open[nfd := open[s[i]]] - {s[i]}, s[i := nfd];
    assert nfd !in s;
    MovedElements(s, i, nfd);
    forall k: nat ensures k in open' && k !in s' <==> k in open && k !in s {
      if k == s[i] {
        assert k in s;
      }
    }
  }

  lemma {:induction false} RangeSize(lo: nat, hi: nat, us: set<nat>)
    requires lo <= hi && forall k :: lo <= k < hi ==> k in us
    ensures hi - lo <= |us|
    decreases hi
  {
    if lo < hi {
      RangeSize(lo, hi - 1, us - {hi - 1});
    }
  }

  /** All descriptors from 3 up are entries. */
  ghost predicate AllListed(open: map<nat, File>, s: seq<nat>) {
    forall k {:trigger At(k)} :: At(k) && k in open && k >= 3 ==> k in s
  }

  /** With room for 2n+3 descriptors, one is free from slot i+3 up. */
  lemma SlotIsFree(open: map<nat, File>, s: seq<nat>, i: nat, limit: nat)
    requires i < |s| && limit >= 2 * |s| + 3 && AllListed(open, s)
    ensures exists k :: i + 3 <= k < limit && k !in open
  {
    if forall k :: i + 3 <= k < limit ==> k in open {
      forall k | i + 3 <= k < limit ensures k in Elements(s) {
        assert At(k);
      }
      RangeSize(i + 3, limit, Elements(s));
      FewElements(s);
    }
  }

  ghost predicate InPlace(s: seq<nat>, n: int) {
    forall m :: 0 <= m < n && m < |s| ==> s[m] == m + 3
  }

  /** Some entry from `i` on holds descriptor `fd`. */
  ghost predicate HeldFrom(s: seq<nat>, i: int, fd: nat) {
    exists k :: 0 <= i <= k < |s| && s[k] == fd
  }

  /** A pass that has come to entry `i`. `first` is the first entry that did not get its slot in
      this pass, or -1: the entries before it are in place, and its slot is free or held by an
      entry still to come. */
  ghost predicate PassOk(open: map<nat, File>, s: seq<nat>, i: int, first: int) {
    && first < i <= |s|
    && 0 <= i
    && InPlace(s, if first < 0 then i else first)
    && (first >= 0 ==> s[first] != first + 3 && (first + 3 in open ==> HeldFrom(s, i, first + 3)))
  }

  /** An entry that has its slot already is passed over. */
  lemma PassSkips(open: map<nat, File>, s: seq<nat>, i: nat, first: int)
    requires PassOk(open, s, i, first) && i < |s| && s[i] == i + 3
    ensures PassOk(open, s, i + 1, first)
  {
  }

  /** The descriptors after entry `i` was moved to the free descriptor `nfd`. */
  function Moved(open: map<nat, File>, s: seq<nat>, i: nat, nfd: nat): map<nat, File>
    requires i < |s| && s[i] in open
  {
    open[nfd := open[s[i]]] - {s[i]}
  }

  /** The occupant of the slot `fd` of an earlier entry leaves it when its turn comes, and nobody
      enters it again. */
  lemma SlotIsVacated(open: map<nat, File>, s: seq<nat>, i: nat, nfd: nat, fd: nat)
    requires i < |s| && s[i] in open && nfd !in open && fd < i + 3 <= nfd
    requires fd in open ==> HeldFrom(s, i, fd)
    ensures fd in Moved(open, s, i, nfd) ==> HeldFrom(s[i := nfd], i + 1, fd)
  {
    if fd in Moved(open, s, i, nfd) {
      var k :| i <= k < |s| && s[k] == fd;
      assert s[i := nfd][k] == fd;
    }
  }

  /** A slot that is taken is held by an entry still to come. */
  lemma SlotIsHeld(open: map<nat, File>, s: seq<nat>, i: nat, nfd: nat)
    requires i < |s| && s[i] in open && s[i] != i + 3 && InPlace(s, i) && AllListed(open, s)
    requires i + 3 in open
    ensures HeldFrom(s[i := nfd], i + 1, i + 3)
  {
    assert At(i + 3);
    var k :| 0 <= k < |s| && s[k] == i + 3;
    assert s[i := nfd][k] == i + 3;
  }

  /** An entry is moved to `nfd`, the lowest free descriptor from its slot up. */
  lemma PassMoves(open: map<nat, File>, s: seq<nat>, i: nat, first: int, nfd: nat)
    requires PassOk(open, s, i, first) && AllListed(open, s) && i < |s| && s[i] in open && s[i] != i + 3
    requires nfd !in open && i + 3 <= nfd && forall k :: i + 3 <= k < nfd ==> k in open
    ensures PassOk(Moved(open, s, i, nfd), s[i := nfd], i + 1, if nfd != i + 3 && first < 0 then i else first)
  {
    if first >= 0 {
      SlotIsVacated(open, s, i, nfd, first + 3);
    } else if nfd != i + 3 {
      SlotIsHeld(open, s, i, nfd);
    }
  }

  ghost predicate Listed(open0: map<nat, File>, s0: seq<nat>, open: map<nat, File>, s: seq<nat>) {
    SameFiles(open0, s0, open, s) && AllListed(open, s)
  }

  lemma MoveKeepsListed(open0: map<nat, File>, s0: seq<nat>, open: map<nat, File>, s: seq<nat>, i: nat, nfd: nat)
    requires Listed(open0, s0, open, s) && i < |s| && nfd !in open
    ensures Listed(open0, s0, Moved(open, s, i, nfd), s[i := nfd])
  {
    MoveKeepsFiles(open0, s0, open, s, i, nfd);
    assert nfd !in s;
    MovedElements(s, i, nfd);
  }

  /** Moves entry `i` to the lowest free descriptor from its slot up. */
  method MoveEntry(p: Process, fds: array<nat>, i: nat) returns (nfd: int)
    requires i < fds.Length && fds[i] in p.open
    modifies p, fds
    ensures nfd < 0 ==> p.open == old(p.open) && fds[..] == old(fds[..]) && forall k :: i + 3 <= k < p.limit ==>
              k in p.open
    ensures nfd >= 0 ==>
              && i + 3 <= nfd && nfd !in old(p.open) && (forall k :: i + 3 <= k < nfd ==> k in old(p.open))
              && p.open == Moved(old(p.open), old(fds[..]), i, nfd)
              && fds[..] == old(fds[..])[i := nfd]
  {
    nfd := p.DupFd(fds[i], i + 3);
    if nfd >= 0 {
      p.Close(fds[i]);
      fds[i] := nfd;
    }
  }

  /** One entry of a pass. */
  method PassEntry(p: Process, fds: array<nat>, i: nat, first: int, ghost open0: map<nat, File>, ghost s0: seq<nat>)
    returns (ok: bool, first': int)
    requires i < fds.Length && Listed(open0, s0, p.open, fds[..]) && PassOk(p.open, fds[..], i, first)
    modifies p, fds
    ensures Listed(open0, s0, p.open, fds[..])
    ensures ok ==> PassOk(p.open, fds[..], i + 1, first')
    ensures p.limit >= 2 * fds.Length + 3 ==> ok
    ensures ok ==> first' == first || (first < 0 && first' == i)
    ensures ok && i + 3 !in old(p.open) ==> first' == first
  {
    ghost var open, s := p.open, fds[..];
    ok, first' := true, first;
    if fds[i] == i + 3 {
      PassSkips(open, s, i, first);
      return;
    }
    var nfd := MoveEntry(p, fds, i);
    if nfd < 0 {
      if p.limit >= 2 * fds.Length + 3 {
        SlotIsFree(open, s, i, p.limit);
      }
      ok := false;
      return;
    }
    MoveKeepsListed(open0, s0, open, s, i, nfd);
    PassMoves(open, s, i, first, nfd);
    if nfd != i + 3 && first < 0 {
      first' := i;
    }
  }

  /** One pass over the entries from `start` on. `restartFrom` is the first that did not get its
      slot; its slot is free when the pass is over. */
  method Pass(p: Process, fds: array<nat>, start: nat, ghost open0: map<nat, File>, ghost s0: seq<nat>)
    returns (ok: bool, restartFrom: int)
    requires start < fds.Length && Listed(open0, s0, p.open, fds[..]) && InPlace(fds[..], start)
    modifies p, fds
    ensures Listed(open0, s0, p.open, fds[..])
    ensures p.limit >= 2 * fds.Length + 3 ==> ok
    ensures ok && restartFrom < 0 ==> InPlace(fds[..], fds.Length)
    ensures ok && restartFrom >= 0 ==>
              start <= restartFrom < fds.Length && InPlace(fds[..], restartFrom) && restartFrom + 3 !in p.open
    ensures ok && start + 3 !in old(p.open) ==> restartFrom != start
  {
    restartFrom := -1;
    ghost var free := start + 3 !in p.open;
    for i := start to fds.Length
      invariant restartFrom < 0 || start <= restartFrom
      invariant Listed(open0, s0, p.open, fds[..])
      invariant PassOk(p.open, fds[..], i, restartFrom)
      invariant free ==> restartFrom != start
      invariant free && i == start ==> start + 3 !in p.open
    {
      ghost var freeHere := i + 3 !in p.open;
      ok, restartFrom := PassEntry(p, fds, i, restartFrom, open0, s0);
      assert ok && freeHere ==> restartFrom != i;
      if !ok {
        return;
      }
    }
    ok := true;
  }

  /** Shifts the entries to 3, 4, 5, ... Passes are repeated from the first entry whose slot was
      taken; that slot is free in the next pass, so that each pass gets further than the last. */
  method Shift(p: Process, fds: array<nat>) returns (ok: bool, ghost passes: nat)
    requires Distinct(fds[..]) && forall i :: 0 <= i < fds.Length ==> fds[i] in p.open
    requires AllListed(p.open, fds[..])
    modifies p, fds
    ensures SameFiles(old(p.open), old(fds[..]), p.open, fds[..])
    ensures AllListed(p.open, fds[..])
    ensures ok ==> forall i :: 0 <= i < fds.Length ==> fds[i] == i + 3
    ensures p.limit >= 2 * fds.Length + 3 ==> ok
    ensures passes <= fds.Length + 1
  {
    passes := 0;
    if fds.Length == 0 {
      return true, 0;
    }
    ghost var open0, s0 := p.open, fds[..];
    var start, restartFrom := 0, -1;
    while true
      invariant 0 <= start < fds.Length
      invariant passes <= start + if passes == 0 then 0 else 1
      invariant Listed(open0, s0, p.open, fds[..]) && InPlace(fds[..], start)
      invariant passes > 0 ==> start + 3 !in p.open
      decreases fds.Length - start, if passes == 0 then 1 else 0
    {
      ok, restartFrom := Pass(p, fds, start, open0, s0);
      passes := passes + 1;
      if !ok {
        return;
      }
      if restartFrom < 0 {
        break;
      }
      start := restartFrom;
    }
    assert forall i :: 0 <= i < fds.Length ==> fds[i] == fds[..][i];
  }
}
