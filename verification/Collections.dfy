/** Notions about collections that several modules share. */
module Collections {

  datatype Option<+T> = None | Some(value: T)

  /** Marks the positions that a proof looks at. Quantified statements that mention it are used only
      at positions that are marked. */
  ghost predicate At(i: int) {
    true
  }

  ghost predicate Distinct<T>(s: seq<T>) {
    forall i, j :: 0 <= i < j < |s| ==> s[i] != s[j]
  }

  /** The same, to be used at marked positions only. */
  ghost predicate DistinctMarked<T>(s: seq<T>) {
    forall i, j {:trigger At(i), At(j)} :: At(i) && At(j) && 0 <= i < j < |s| ==> s[i] != s[j]
  }

  function Elements<T>(s: seq<T>): set<T> {
    set x | x in s
  }

  lemma {:induction false} FewElements<T>(s: seq<T>)
    ensures |Elements(s)| <= |s|
  {
    if s != [] {
      var n := |s| - 1;
      FewElements(s[..n]);
      assert s == s[..n] + [s[n]];
      assert Elements(s) == Elements(s[..n]) + {s[n]};
    }
  }

  /** A sequence that holds all of a set, and is no longer than that, holds nothing else. */
  lemma NothingElse<T>(s: seq<T>, us: set<T>)
    requires |s| == |us| && us <= Elements(s)
    ensures Elements(s) == us
  {
    FewElements(s);
    SmallerSet(us, Elements(s));
  }

  /** The sequence without its element at `k`. */
  function Dropped<T>(s: seq<T>, k: nat): seq<T>
    requires k < |s|
  {
    s[..k] + s[k + 1..]
  }

  /** What follows the element at `i`; 0 at the end. */
  function After(s: seq<nat>, i: int): nat {
    if 0 <= i + 1 < |s| then s[i + 1] else 0
  }

  lemma SmallerSet<T>(a: set<T>, b: set<T>)
    requires a <= b
    ensures |a| <= |b|
    ensures a != b ==> |a| < |b|
  {
    assert b == a + (b - a);
    assert |b| == |a| + |b - a|;
  }
}
