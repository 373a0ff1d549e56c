/** Path names (src/util.c). */
module Paths {

  predicate Absolute(p: string) {
    p != "" && p[0] == '/'
  }

  function CollapseSlashes(p: string, slash: bool): string
    decreases |p|
  {
    if p == "" then ""
    else if p[0] == '/' then CollapseSlashes(p[1..], true)
    else (if slash then "/" else "") + [p[0]] + CollapseSlashes(p[1..], false)
  }

  /** Removes redundant and trailing slashes. */
  function KillSlashes(p: string): string {
    var q := CollapseSlashes(p, false);
    if q == "" && '/' in p then "/" else q
  }

  /** What follows the last slash. */
  function FileName(p: string): string
    decreases |p|
  {
    if '/' !in p then p else FileName(p[1..])
  }

  /** The file name is the end of the path, from the last slash on, or all of it if there is none. */
  lemma {:induction false} FileNameIs(p: string)
    ensures '/' !in FileName(p) && |FileName(p)| <= |p| && p[|p| - |FileName(p)|..] == FileName(p)
    ensures |FileName(p)| < |p| ==> p[|p| - |FileName(p)| - 1] == '/'
    decreases |p|
  {
    if '/' in p {
      FileNameIs(p[1..]);
    }
  }

  // ---------- comparing paths ----------

  /** The path behind its leading slashes. */
  function Skipped(p: string): (q: string)
    ensures !Absolute(q) && |q| <= |p| && (Absolute(p) ==> |q| < |p|)
    decreases |p|
  {
    if Absolute(p) then Skipped(p[1..]) else p
  }

  /** The length of the first component of a path. */
  function Word(p: string): (n: nat)
    ensures n <= |p| && (p != "" && !Absolute(p) ==> n > 0)
    ensures n < |p| ==> p[n] == '/'
    decreases |p|
  {
    if p == "" || p[0] == '/' then 0 else 1 + Word(p[1..])
  }

  lemma {:induction false} CollapseSkips(p: string, slash: bool)
    requires Absolute(p) || slash
    ensures CollapseSlashes(p, slash) ==
            if Skipped(p) == "" then "" else "/" + CollapseSlashes(Skipped(p), false)
    decreases |p|
  {
    if Absolute(p) {
      CollapseSkips(p[1..], true);
    }
  }

  lemma {:induction false} CollapseWord(p: string)
    requires !Absolute(p)
    ensures CollapseSlashes(p, false) == p[..Word(p)] + CollapseSlashes(p[Word(p)..], false)
    ensures '/' !in p[..Word(p)]
    decreases |p|
  {
    if p != "" {
      var rest := p[1..];
      if !Absolute(rest) {
        CollapseWord(rest);
        assert p[..Word(p)] == [p[0]] + rest[..Word(rest)];
        assert p[Word(p)..] == rest[Word(rest)..];
      } else {
        assert p[..1] == [p[0]];
      }
    }
  }

  /** The normal form tells absolute paths from others. */
  lemma KillSlashesStart(p: string)
    ensures Absolute(KillSlashes(p)) <==> Absolute(p)
  {
    if Absolute(p) {
      CollapseSkips(p, false);
    }
  }

  lemma FirstSlash(u: string, x: string, v: string, y: string)
    requires '/' !in u && '/' !in v && (x == "" || Absolute(x)) && (y == "" || Absolute(y))
    ensures u + x == v + y <==> u == v && x == y
  {
    if |u| < |v| {
      ShorterWord(u, x, v, y);
    } else if |v| < |u| {
      ShorterWord(v, y, u, x);
    } else {
      assert u == (u + x)[..|u|] && v == (v + y)[..|u|];
      assert x == (u + x)[|u|..] && y == (v + y)[|u|..];
    }
  }

  lemma ShorterWord(u: string, x: string, v: string, y: string)
    requires |u| < |v| && '/' !in v && (x == "" || Absolute(x))
    ensures u + x != v + y
  {
    assert v[|u|] in v && (v + y)[|u|] == v[|u|];
    if x != "" {
      assert (u + x)[|u|] == '/';
    }
  }

  /** One component of each path is compared. */
  lemma ComponentsCompared(p: string, q: string)
    requires p != "" && q != "" && !Absolute(p) && !Absolute(q)
    ensures CollapseSlashes(p, false) == CollapseSlashes(q, false) <==>
            p[..Word(p)] == q[..Word(q)] &&
            CollapseSlashes(p[Word(p)..], false) == CollapseSlashes(q[Word(q)..], false)
  {
    CollapseWord(p);
    CollapseWord(q);
    RestIsCut(p[Word(p)..]);
    RestIsCut(q[Word(q)..]);
    FirstSlash(p[..Word(p)], CollapseSlashes(p[Word(p)..], false), q[..Word(q)], CollapseSlashes(q[Word(q)..], false));
  }

  lemma RestIsCut(p: string)
    requires p == "" || Absolute(p)
    ensures CollapseSlashes(p, false) == "" || Absolute(CollapseSlashes(p, false))
  {
    if Absolute(p) {
      CollapseSkips(p, false);
    }
  }

  lemma SlashesSkipped(p: string, q: string)
    requires (Absolute(p) <==> Absolute(q)) || p == "" || q == ""
    ensures CollapseSlashes(p, false) == CollapseSlashes(q, false) <==>
            CollapseSlashes(Skipped(p), false) == CollapseSlashes(Skipped(q), false)
  {
    NothingIsLeft(Skipped(p));
    NothingIsLeft(Skipped(q));
    var c, d := CollapseSlashes(Skipped(p), false), CollapseSlashes(Skipped(q), false);
    assert ("/" + c)[1..] == c && ("/" + d)[1..] == d;
    if Absolute(p) {
      CollapseSkips(p, false);
    }
    if Absolute(q) {
      CollapseSkips(q, false);
    }
  }

  lemma NothingIsLeft(p: string)
    requires !Absolute(p)
    ensures CollapseSlashes(p, false) == "" <==> p == ""
  {
  }

  /** Compares component by component, and by this tells whether the paths have the same normal form. */
  method PathEqual(a: string, b: string) returns (r: bool)
    ensures r <==> KillSlashes(a) == KillSlashes(b)
  {
    KillSlashesStart(a);
    KillSlashesStart(b);
    if Absolute(a) != Absolute(b) {
      return false;
    }
    var p, q := a, b;
    NormalFormsCompared(a, b);
    while true
      invariant (Absolute(p) <==> Absolute(q)) || p == "" || q == ""
      invariant CollapseSlashes(p, false) == CollapseSlashes(q, false) <==> KillSlashes(a) == KillSlashes(b)
      decreases |p|
    {
      SlashesSkipped(p, q);
      p, q := Skipped(p), Skipped(q);
      NothingIsLeft(p);
      NothingIsLeft(q);
      if p == "" && q == "" {
        return true;
      }
      if p == "" || q == "" {
        return false;
      }
      var j, k := Word(p), Word(q);
      ComponentsCompared(p, q);
      if j != k || p[..j] != q[..k] {
        return false;
      }
      p, q := p[j..], q[k..];
    }
  }

  lemma NormalFormsCompared(a: string, b: string)
    requires Absolute(a) <==> Absolute(b)
    ensures CollapseSlashes(a, false) == CollapseSlashes(b, false) <==> KillSlashes(a) == KillSlashes(b)
  {
    if Absolute(a) {
      CollapseSkips(a, false);
      CollapseSkips(b, false);
      assert a[0] in a && b[0] in b;
      NothingIsLeft(Skipped(a));
      NothingIsLeft(Skipped(b));
      OneSlash(CollapseSlashes(Skipped(a), false));
      OneSlash(CollapseSlashes(Skipped(b), false));
    } else {
      NothingIsLeft(a);
      NothingIsLeft(b);
    }
  }

  lemma OneSlash(p: string)
    ensures "/" + p == "/" <==> p == ""
  {
    assert |"/" + p| == 1 + |p|;
  }
}
