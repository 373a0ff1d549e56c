/** Removing the symlinks to marked units, again and again, until no more follow (src/install.c). */
module Symlinks {
  import opened Paths

  /** What reading a symlink yields: the canonical path it points to, or that it is gone, or an error. */
  datatype Target = To(dest: string) | Vanished | Unreadable

  datatype Access = Opens | Missing | Denied

  /** A directory entry. `removable` tells whether unlink() succeeds. */
  datatype Entry =
    | Symlink(name: string, target: Target, removable: bool)
    | Dir(name: string, access: Access, entries: seq<Entry>)
    | Other(name: string)

  /** A symlink by its full path. */
  datatype Link = Link(path: string, target: Target, removable: bool)

  function Join(dir: string, name: string): string {
    dir + "/" + name
  }

  /** All symlinks below a directory, as far as it can be read. */
  function LinksOf(es: seq<Entry>, path: string): set<Link>
    decreases es
  {
    if es == [] then {} else EntryLinks(es[0], path) + LinksOf(es[1..], path)
  }

  function EntryLinks(e: Entry, path: string): set<Link>
    decreases e
  {
    match e
    case Symlink(name, target, removable) => {Link(KillSlashes(Join(path, name)), target, removable)}
    case Dir(name, access, entries) => if access.Opens? then LinksOf(entries, Join(path, name)) else {}
    case Other(_) => {}
  }

  /** Following these positions leads, through directories that can be opened, to the symlink. */
  ghost predicate LeadsTo(es: seq<Entry>, path: string, trail: seq<nat>, l: Link)
    decreases |trail|
  {
    && trail != [] && trail[0] < |es|
    && match es[trail[0]]
       case Symlink(name, target, removable) =>
         |trail| == 1 && l == Link(KillSlashes(path + "/" + name), target, removable)
       case Dir(name, access, entries) => access.Opens? && LeadsTo(entries, path + "/" + name, trail[1..], l)
       case Other(_) => false
  }

  /** The links below a directory are exactly those that some trail leads to: to each there is one... */
  lemma {:induction false} TrailOf(es: seq<Entry>, path: string, l: Link) returns (trail: seq<nat>)
    requires l in LinksOf(es, path)
    ensures LeadsTo(es, path, trail, l)
    decreases es
  {
    if l in EntryLinks(es[0], path) {
      match es[0]
      case Symlink(name, target, removable) =>
        trail := [0];
      case Dir(name, access, entries) =>
        var rest := TrailOf(entries, Join(path, name), l);
        trail := [0] + rest;
        assert trail[1..] == rest;
    } else {
      var rest := TrailOf(es[1..], path, l);
      trail := [rest[0] + 1] + rest[1..];
      assert trail[1..] == rest[1..] && es[trail[0]] == es[1..][rest[0]];
    }
  }

  /** ... and what a trail leads to is a link. */
  lemma {:induction false} TrailIsLink(es: seq<Entry>, path: string, trail: seq<nat>, l: Link)
    requires LeadsTo(es, path, trail, l)
    ensures l in LinksOf(es, path)
    decreases |trail|
  {
    LinksOfTake(es, path, trail[0]);
    match es[trail[0]]
    case Symlink(name, target, removable) =>
    case Dir(name, access, entries) =>
      TrailIsLink(entries, Join(path, name), trail[1..], l);
    case Other(_) =>
  }

  /** The link points to a marked path, or to a file with a marked name. */
  predicate Found(marks: set<string>, l: Link) {
    l.target.To? && (l.target.dest in marks || FileName(l.target.dest) in marks)
  }

  // ---------- the least fixpoint ----------

  /** Every removable link to something marked, initially or by being in `f`, is in `f`. */
  ghost predicate Closed(links: set<Link>, marks: set<string>, f: set<string>) {
    forall l {:trigger Found(marks + f, l)} :: l in links && l.removable && Found(marks + f, l) ==> l.path in f
  }

  ghost predicate Forced(links: set<Link>, marks: set<string>, gone: set<string>) {
    forall f: set<string> {:trigger Closed(links, marks, f)} :: Closed(links, marks, f) ==> gone <= f
  }

  /** The paths of the links that have to go. */
  ghost predicate LeastFixpoint(links: set<Link>, marks: set<string>, gone: set<string>) {
    Closed(links, marks, gone) && Forced(links, marks, gone)
  }

  lemma LeastFixpointUnique(links: set<Link>, marks: set<string>, a: set<string>, b: set<string>)
    requires LeastFixpoint(links, marks, a) && LeastFixpoint(links, marks, b)
    ensures a == b
  {
  }

  /** A removal never lags behind what is forced. */
  lemma RemovalIsForced(links: set<Link>, marks: set<string>, gone: set<string>, l: Link)
    requires Forced(links, marks, gone) && l in links && l.removable && Found(marks + gone, l)
    ensures Forced(links, marks, gone + {l.path})
  {
    forall f: set<string> | Closed(links, marks, f) ensures gone + {l.path} <= f {
      assert Found(marks + f, l);
    }
  }

  /** What a scan has done: the links it removed had to go, and their paths are marked. */
  ghost predicate Progress(links0: set<Link>, marks0: set<string>, marks: set<string>, gone: set<string>) {
    marks == marks0 + gone && Forced(links0, marks0, gone)
  }

  function PathsOf(links: set<Link>): set<string> {
    set l | l in links :: l.path
  }

  lemma LinksOfAppend(a: seq<Entry>, b: seq<Entry>, path: string)
    ensures LinksOf(a + b, path) == LinksOf(a, path) + LinksOf(b, path)
  {
    if a == [] {
      assert a + b == b;
    } else {
      assert (a + b)[1..] == a[1..] + b;
      LinksOfAppend(a[1..], b, path);
    }
  }

  class Remover {
    var marks: set<string>
    var deleted: bool
    var changes: seq<string>

    ghost const links0: set<Link>
    ghost const marks0: set<string>
    ghost var gone: set<string>   // paths of the links removed so far

    constructor (marks: set<string>, ghost links: set<Link>)
      ensures this.marks == marks0 == marks && links0 == links && gone == {} && changes == [] && Valid()
    {
      this.marks, deleted, changes := marks, false, [];
      links0, marks0, gone := links, marks, {};
    }

    ghost predicate Valid()
      reads this
    {
      && Progress(links0, marks0, marks, gone)
      && gone <= PathsOf(links0)
      && forall p :: p in changes <==> p in gone
    }

    /** Looks at one symlink, and removes it if it points to something marked. */
    method ScanLink(l: Link) returns (removed: bool, q: int)
      requires Valid() && l in links0
      modifies this
      ensures Valid()
      ensures removed <==> Found(old(marks), l) && l.removable
      ensures gone == (if removed then old(gone) + {l.path} else old(gone))
      ensures deleted <==> old(deleted) || marks != old(marks)
      ensures q <= 0
      ensures q < 0 <==> l.target.Unreadable? || (Found(old(marks), l) && !l.removable)
    {
      removed, q := false, 0;
      match l.target
      case Vanished =>
      case Unreadable => q := -1;
      case To(dest) =>
        if dest in marks || FileName(dest) in marks {
          if !l.removable {
            q := -1;
          } else {
            RemovalIsForced(links0, marks0, gone, l);
            removed := true;
            changes := changes + [l.path];
            gone := gone + {l.path};
            if l.path !in marks {
              marks := marks + {l.path};
              deleted := true;
            }
            assert marks == marks0 + gone;
          }
        }
    }

    /** Looks at one directory entry; what is left of it, if anything, is kept. */
    method ScanEntry(e: Entry, path: string) returns (kept: seq<Entry>, q: int)
      requires Valid() && EntryLinks(e, path) <= links0
      modifies this
      ensures Valid() && old(gone) <= gone
      ensures LinksOf(kept, path) <= EntryLinks(e, path)
      ensures forall l :: l in EntryLinks(e, path) && l !in LinksOf(kept, path) ==> l.path in gone
      ensures deleted <==> old(deleted) || marks != old(marks)
      ensures Settled(old(marks), marks, LinksOf(kept, path), q)
      ensures e.Dir? && e.access.Denied? ==> q < 0
      ensures e.Other? || (e.Dir? && e.access.Missing?) ==> q == 0
      decreases e
    {
      match e
      case Symlink(name, target, removable) =>
        var removed;
        removed, q := ScanLink(Link(KillSlashes(Join(path, name)), target, removable));
        kept := if removed then [] else [e];
        assert LinksOf([e], path) == EntryLinks(e, path);
      case Dir(name, access, entries) =>
        match access {
          case Opens =>
            var rest;
            rest, q := ScanDir(entries, Join(path, name));
            kept := [Dir(name, access, rest)];
            assert LinksOf(kept, path) == LinksOf(rest, Join(path, name));
          case Missing =>
            kept, q := [e], 0;
            assert LinksOf([e], path) == {};
          case Denied =>
            kept, q := [e], -1;
            assert LinksOf([e], path) == {};
        }
      case Other(_) =>
        kept, q := [e], 0;
        assert LinksOf([e], path) == {};
    }

    /** Scans a directory, in the order in which its entries are read. */
    method ScanDir(es: seq<Entry>, path: string) returns (kept: seq<Entry>, r: int)
      requires Valid() && LinksOf(es, path) <= links0
      modifies this
      ensures Valid() && old(gone) <= gone
      ensures LinksOf(kept, path) <= LinksOf(es, path)
      ensures forall l :: l in LinksOf(es, path) && l !in LinksOf(kept, path) ==> l.path in gone
      ensures deleted <==> old(deleted) || marks != old(marks)
      ensures Settled(old(marks), marks, LinksOf(kept, path), r)
      ensures (exists n :: 0 <= n < |es| && es[n].Dir? && es[n].access.Denied?) ==> r < 0
      decreases es
    {
      kept, r := [], 0;
      for n := 0 to |es|
        invariant Valid() && old(gone) <= gone
        invariant LinksOf(kept, path) <= LinksOf(es[..n], path)
        invariant forall l :: l in LinksOf(es[..n], path) && l !in LinksOf(kept, path) ==> l.path in gone
        invariant deleted <==> old(deleted) || marks != old(marks)
        invariant Settled(old(marks), marks, LinksOf(kept, path), r)
        invariant (exists k :: 0 <= k < n && es[k].Dir? && es[k].access.Denied?) ==> r < 0
      {
        ghost var marks1 := marks;
        LinksOfTake(es, path, n);
        var k, q := ScanEntry(es[n], path);
        LinksOfAppend(kept, k, path);
        SettledJoins(old(marks), marks1, LinksOf(kept, path), r, marks, LinksOf(k, path), q);
        kept := kept + k;
        if r == 0 {
          r := q;
        }
      }
      assert es[..|es|] == es;
    }

    /** Removes the symlinks to what is marked, and to what is removed. `openError` is the error of
        opening the directory, and `dupError(n)` that of duplicating its descriptor for pass `n`, or 0. */
    method RemoveMarked(tree: seq<Entry>, configPath: string, openError: int, dupError: nat -> int)
      returns (rest: seq<Entry>, r: int, n: nat)
      requires Valid() && gone == {} && links0 == LinksOf(tree, configPath)
      modifies this
      ensures Valid() && Left(LinksOf(rest, configPath))
      ensures marks0 != {} && openError < 0 ==> r == openError && gone == {}
      ensures marks0 != {} && openError >= 0 && dupError(n) < 0 ==> r == dupError(n)
      ensures marks0 == {} || (openError >= 0 && dupError(n) >= 0) ==>
                LeastFixpoint(links0, marks0, gone) && Clean(LinksOf(rest, configPath), r)
      ensures forall k :: 0 <= k < n ==> dupError(k) >= 0
    {
      assert marks == marks0;
      rest, r, n := tree, 0, 0;
      if marks == {} {
        NothingMarked(links0, marks0);
      } else if openError < 0 {
        r := openError;
      } else {
        rest, r, n := ScanRepeatedly(tree, configPath, dupError);
      }
    }

    /** These are the links that are left. */
    ghost predicate Left(links: set<Link>)
      reads this
    {
      links <= links0 && forall l :: l in links0 && l !in links ==> l.path in gone
    }

    /** None of these links could be removed; without an error, none points to anything marked. */
    ghost predicate Clean(links: set<Link>, r: int)
      reads this
    {
      forall l :: l in links && Found(marks, l) ==> !l.removable && r < 0
    }

    /** One pass over the whole tree; if it marks nothing new, nothing more has to go. */
    method OnePass(tree: seq<Entry>, configPath: string) returns (rest: seq<Entry>, q: int)
      requires Valid() && Left(LinksOf(tree, configPath))
      modifies this
      ensures Valid() && Left(LinksOf(rest, configPath)) && q <= 0 && old(gone) <= gone
      ensures deleted ==> old(gone) != gone
      ensures !deleted ==> LeastFixpoint(links0, marks0, gone) && Clean(LinksOf(rest, configPath), q)
    {
      rest := Relist(tree, configPath);
      deleted := false;
      rest, q := ScanDir(rest, configPath);
      if !deleted {
        FixpointReached(links0, marks0, marks, gone, LinksOf(rest, configPath));
      }
    }

    /** Repeats the scan until a pass marks nothing new. Between passes the directories may be listed
        in another order, and empty ones may have gone. */
    method ScanRepeatedly(tree: seq<Entry>, configPath: string, dupError: nat -> int)
      returns (rest: seq<Entry>, r: int, n: nat)
      requires Valid() && Left(LinksOf(tree, configPath))
      modifies this
      ensures Valid() && Left(LinksOf(rest, configPath))
      ensures dupError(n) < 0 ==> r == dupError(n)
      ensures dupError(n) >= 0 ==> LeastFixpoint(links0, marks0, gone) && Clean(LinksOf(rest, configPath), r)
      ensures forall k :: 0 <= k < n ==> dupError(k) >= 0
    {
      rest, r, n := tree, 0, 0;
      while true
        invariant Valid() && Left(LinksOf(rest, configPath)) && r <= 0
        invariant forall k :: 0 <= k < n ==> dupError(k) >= 0
        decreases |PathsOf(links0) - gone|
      {
        if dupError(n) < 0 {
          return rest, dupError(n), n;
        }
        ghost var gone1 := gone;
        var q;
        rest, q := OnePass(rest, configPath);
        if r == 0 {
          r := q;
        }
        if !deleted {
          return;
        }
        FewerLeft(PathsOf(links0), gone1, gone);
        n := n + 1;
      }
    }

    /** The same symlinks, listed in any order. */
    method Relist(es: seq<Entry>, path: string) returns (es': seq<Entry>)
      ensures LinksOf(es', path) == LinksOf(es, path)
    {
      es' := *;
      if LinksOf(es', path) != LinksOf(es, path) {
        es' := es;
      }
    }
  }

  /** If nothing new was marked, none of these links could be removed; without an error, none of
      them points to anything marked. */
  ghost predicate Settled(before: set<string>, after: set<string>, links: set<Link>, r: int) {
    && before <= after
    && r <= 0
    && (before == after ==> forall l :: l in links && Found(after, l) ==> !l.removable && r < 0)
  }

  lemma SettledJoins(a: set<string>, b: set<string>, links: set<Link>, r: int, c: set<string>, more: set<Link>, q: int)
    requires Settled(a, b, links, r) && Settled(b, c, more, q)
    ensures Settled(a, c, links + more, if r == 0 then q else r)
  {
  }

  lemma LinksOfTake(es: seq<Entry>, path: string, n: nat)
    requires n < |es|
    ensures LinksOf(es[..n + 1], path) == LinksOf(es[..n], path) + EntryLinks(es[n], path)
    ensures EntryLinks(es[n], path) <= LinksOf(es, path)
  {
    assert es[..n + 1] == es[..n] + [es[n]];
    LinksOfAppend(es[..n], [es[n]], path);
    assert LinksOf([es[n]], path) == EntryLinks(es[n], path);
    assert es == es[..n + 1] + es[n + 1..];
    LinksOfAppend(es[..n + 1], es[n + 1..], path);
  }

  lemma NothingMarked(links: set<Link>, marks: set<string>)
    requires marks == {}
    ensures LeastFixpoint(links, marks, {})
  {
  }

  lemma FewerLeft(paths: set<string>, before: set<string>, after: set<string>)
    requires before <= after <= paths
    ensures |paths - after| <= |paths - before|
    ensures before != after ==> |paths - after| < |paths - before|
  {
    assert paths - before == (paths - after) + (after - before);
  }

  lemma FixpointReached(links: set<Link>, marks0: set<string>, marks: set<string>, gone: set<string>, rest: set<Link>)
    requires Progress(links, marks0, marks, gone)
    requires forall l :: l in links && l !in rest ==> l.path in gone
    requires forall l :: l in rest && l.removable ==> !Found(marks, l)
    ensures LeastFixpoint(links, marks0, gone)
  {
  }
}
