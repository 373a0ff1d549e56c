/** Which unit files an install operation covers: the requested ones and, through Also=, all that
    follow from them (src/install.c). */
module InstallContext {

  import opened Collections
  import opened ErrorCodes
  import opened Paths

  type Name = string

  /** A unit to be installed, by name, and by path if it was requested by path. */
  datatype Info = Info(name: Name, path: Option<string>)

  /** What loading a unit file yields: how many Alias= and WantedBy= entries, and the Also= names. */
  datatype UnitFile = UnitFile(nSymlinks: nat, also: seq<Name>)

  /** The unit files there are, and which names are valid. A unit that is not there fails to load
      with `missing`, a negative error. */
  datatype Disk = Disk(files: map<Info, UnitFile>, valid: Name -> bool, missing: int)

  function InfoOf(request: string): Info {
    if Absolute(request) then Info(FileName(request), Some(request)) else Info(request, None)
  }

  /** An absolute path asks for the unit at its end, to be looked for there; anything else is a name. */
  lemma InfoOfIs(request: string)
    ensures var i := InfoOf(request);
            if request != "" && request[0] == '/' then
              && i.path == Some(request)
              && '/' !in i.name && |i.name| < |request|
              && request[|request| - |i.name|..] == i.name && request[|request| - |i.name| - 1] == '/'
            else
              i == Info(request, None)
  {
    FileNameIs(request);
    if Absolute(request) {
      assert request[0] in request;
    }
  }

  function Names(infos: seq<Info>): set<Name> {
    set i | 0 <= i < |infos| :: infos[i].name
  }

  ghost predicate DistinctNames(infos: seq<Info>) {
    forall i, j :: 0 <= i < j < |infos| ==> infos[i].name != infos[j].name
  }

  /** The first of the requests with this name decides where the unit is looked for; a unit that
      only Also= names is looked for by name. */
  function Resolve(requests: seq<Info>, n: Name): Info {
    if requests == [] then Info(n, None)
    else if requests[0].name == n then requests[0]
    else Resolve(requests[1..], n)
  }

  /** The name loads, and everything it names in Also= is a valid name. */
  ghost predicate Loads(d: Disk, i: Info) {
    i in d.files && forall k :: 0 <= k < |d.files[i].also| ==> d.valid(d.files[i].also[k])
  }

  ghost predicate AlsoClosed(d: Disk, requests: seq<Info>, ns: set<Name>) {
    forall n, m {:trigger m in d.files[Resolve(requests, n)].also, n in ns} ::
      n in ns && Resolve(requests, n) in d.files && m in d.files[Resolve(requests, n)].also ==> m in ns
  }

  /** `ns` is in every set that contains the requested names and is closed under Also=. */
  ghost predicate Forced(d: Disk, requests: seq<Info>, ns: set<Name>) {
    forall c: set<Name> {:trigger AlsoClosed(d, requests, c)} ::
      Names(requests) <= c && AlsoClosed(d, requests, c) ==> ns <= c
  }

  /** The least set that contains the requested names and is closed under Also=. */
  ghost predicate AlsoClosure(d: Disk, requests: seq<Info>, ns: set<Name>) {
    Names(requests) <= ns && AlsoClosed(d, requests, ns) && Forced(d, requests, ns)
  }

  /** The number of symlinks all these units ask for. */
  function Total(d: Disk, infos: seq<Info>): nat {
    if infos == [] then 0
    else
      var last := infos[|infos| - 1];
      Total(d, infos[..|infos| - 1]) + if last in d.files then d.files[last].nSymlinks else 0
  }

  lemma NamesPush(infos: seq<Info>, i: Info)
    ensures Names(infos + [i]) == Names(infos) + {i.name}
  {
    var more := infos + [i];
    forall n | n in Names(infos) + {i.name} ensures n in Names(more) {
      if n in Names(infos) {
        var k :| 0 <= k < |infos| && infos[k].name == n;
        assert more[k].name == n;
      } else {
        assert more[|infos|].name == n;
      }
    }
  }

  lemma NamesPop(infos: seq<Info>)
    requires infos != [] && DistinctNames(infos)
    ensures Names(infos[1..]) == Names(infos) - {infos[0].name}
    ensures infos[0].name in Names(infos)
  {
    forall n | n in Names(infos) - {infos[0].name} ensures n in Names(infos[1..]) {
      var k :| 0 <= k < |infos| && infos[k].name == n;
      assert infos[1..][k - 1].name == n;
    }
  }

  lemma TotalPush(d: Disk, infos: seq<Info>, i: Info)
    ensures Total(d, infos + [i]) == Total(d, infos) + if i in d.files then d.files[i].nSymlinks else 0
  {
    assert (infos + [i])[..|infos|] == infos;
  }

  /** What two lists of units ask for together. */
  lemma {:induction false} TotalJoins(d: Disk, a: seq<Info>, b: seq<Info>)
    ensures Total(d, a + b) == Total(d, a) + Total(d, b)
  {
    if b == [] {
      assert a + b == a;
    } else {
      var n := |b| - 1;
      TotalJoins(d, a, b[..n]);
      assert (a + b)[..|a| + n] == a + b[..n];
    }
  }

  lemma TotalOfOne(d: Disk, i: Info)
    requires i in d.files
    ensures Total(d, [i]) == d.files[i].nSymlinks
  {
    assert [i][..0] == [];
  }

  /** The first error of applying these units, or 0. */
  ghost function FirstFailure(applied: Info -> int, infos: seq<Info>): int {
    if infos == [] then 0
    else
      var n := |infos| - 1;
      var e := FirstFailure(applied, infos[..n]);
      if e < 0 then e else if applied(infos[n]) < 0 then applied(infos[n]) else 0
  }

  lemma {:induction false} FirstFailureIs(applied: Info -> int, infos: seq<Info>)
    ensures FirstFailure(applied, infos) <= 0
    ensures FirstFailure(applied, infos) == 0 <==> forall i :: 0 <= i < |infos| ==> applied(infos[i]) >= 0
    ensures FirstFailure(applied, infos) < 0 ==>
              exists k :: 0 <= k < |infos| && applied(infos[k]) == FirstFailure(applied, infos)
                          && forall i :: 0 <= i < k ==> applied(infos[i]) >= 0
  {
    if infos != [] {
      var n := |infos| - 1;
      FirstFailureIs(applied, infos[..n]);
    }
  }

  /** The first error, or else how many symlinks are asked for. */
  ghost function Outcome(d: Disk, applied: Info -> int, infos: seq<Info>): int {
    if FirstFailure(applied, infos) < 0 then FirstFailure(applied, infos) else Total(d, infos)
  }

  lemma OutcomePush(d: Disk, applied: Info -> int, infos: seq<Info>, i: Info)
    requires i in d.files
    ensures var r := Outcome(d, applied, infos);
            Outcome(d, applied, infos + [i]) ==
            if r < 0 then r else if applied(i) < 0 then applied(i) else r + d.files[i].nSymlinks
  {
    assert (infos + [i])[..|infos|] == infos;
    TotalPush(d, infos, i);
  }

  /** Why a unit does not load: it is not there, or it names something invalid. */
  function LoadError(d: Disk, i: Info): int {
    if i in d.files then EINVAL else d.missing
  }

  lemma {:induction false} ResolveHasName(requests: seq<Info>, n: Name)
    ensures Resolve(requests, n).name == n
  {
    if requests != [] {
      ResolveHasName(requests[1..], n);
    }
  }

  /** A request whose name was not requested before resolves to itself, and does not change how
      other names resolve. */
  lemma {:induction false} ResolvePush(requests: seq<Info>, i: Info, n: Name)
    ensures Resolve(requests + [i], n) ==
            if n !in Names(requests) && n == i.name then i else Resolve(requests, n)
  {
    if requests == [] {
      assert [i][1..] == [];
    } else {
      assert (requests + [i])[1..] == requests[1..] + [i];
      ResolvePush(requests[1..], i, n);
      assert requests == [requests[0]] + requests[1..];
      if n in Names(requests[1..]) {
        var k :| 0 <= k < |requests[1..]| && requests[1..][k].name == n;
        assert requests[k + 1].name == n;
      }
    }
  }

  lemma {:induction false} ResolveAbsent(requests: seq<Info>, n: Name)
    requires n !in Names(requests)
    ensures Resolve(requests, n) == Info(n, None)
  {
    if requests != [] {
      assert requests[0].name in Names(requests);
      assert Names(requests[1..]) <= Names(requests) by {
        forall m | m in Names(requests[1..]) ensures m in Names(requests) {
          var k :| 0 <= k < |requests[1..]| && requests[1..][k].name == m;
          assert requests[k + 1].name == m;
        }
      }
      ResolveAbsent(requests[1..], n);
    }
  }

  lemma {:induction false} ResolveListed(requests: seq<Info>, k: nat)
    requires DistinctNames(requests) && k < |requests|
    ensures Resolve(requests, requests[k].name) == requests[k]
  {
    if k > 0 {
      assert requests[1..][k - 1] == requests[k];
      ResolveListed(requests[1..], k - 1);
    }
  }

  // ---------- the worklist ----------

  /** Each unit is to be looked for where it resolves to. */
  ghost predicate Resolved(requests: seq<Info>, infos: seq<Info>) {
    DistinctNames(infos) && forall i :: 0 <= i < |infos| ==> infos[i] == Resolve(requests, infos[i].name)
  }

  /** What the units in `have` name in Also= is listed, too. */
  ghost predicate Followed(d: Disk, have: seq<Info>, listed: set<Name>) {
    forall i :: 0 <= i < |have| ==>
      Loads(d, have[i]) && forall k :: 0 <= k < |d.files[have[i]].also| ==> d.files[have[i]].also[k] in listed
  }

  ghost predicate Listed(d: Disk, requests: seq<Info>, will: seq<Info>, have: seq<Info>) {
    && Resolved(requests, will)
    && Resolved(requests, have)
    && Names(will) !! Names(have)
    && Names(requests) <= Names(will) + Names(have)
    && Forced(d, requests, Names(will) + Names(have))
  }

  lemma StartListed(d: Disk, requests: seq<Info>)
    requires DistinctNames(requests)
    ensures Listed(d, requests, requests, [])
  {
    forall i | 0 <= i < |requests| ensures requests[i] == Resolve(requests, requests[i].name) {
      ResolveListed(requests, i);
    }
    assert Names([]) == {};
  }

  lemma TakeKeepsListed(d: Disk, requests: seq<Info>, will: seq<Info>, have: seq<Info>)
    requires Listed(d, requests, will, have) && will != []
    ensures Listed(d, requests, will[1..], have + [will[0]])
    ensures Names(will[1..]) + Names(have + [will[0]]) == Names(will) + Names(have)
    ensures will[0].name !in Names(have)
  {
    NamesPop(will);
    NamesPush(have, will[0]);
    DistinctPush(have, will[0]);
  }

  lemma DistinctPush(infos: seq<Info>, i: Info)
    requires DistinctNames(infos) && i.name !in Names(infos)
    ensures DistinctNames(infos + [i])
  {
    forall k | 0 <= k < |infos| ensures infos[k].name != i.name {
      assert infos[k].name in Names(infos);
    }
  }

  lemma AddKeepsListed(d: Disk, requests: seq<Info>, will: seq<Info>, have: seq<Info>, from: Name, n: Name)
    requires Listed(d, requests, will, have) && n !in Names(will) && n !in Names(have)
    requires from in Names(will) + Names(have) && Resolve(requests, from) in d.files
    requires n in d.files[Resolve(requests, from)].also
    ensures Listed(d, requests, will + [Info(n, None)], have)
    ensures Names(will + [Info(n, None)]) == Names(will) + {n}
  {
    NamesPush(will, Info(n, None));
    DistinctPush(will, Info(n, None));
    ResolveAbsent(requests, n);
  }

  /** When nothing is left to do, the closure has been computed. */
  lemma DoneIsClosure(d: Disk, requests: seq<Info>, have: seq<Info>)
    requires Listed(d, requests, [], have) && Followed(d, have, Names([]) + Names(have))
    ensures AlsoClosure(d, requests, Names(have))
  {
    assert Names([]) == {} && Names([]) + Names(have) == Names(have);
    forall n, m | n in Names(have) && Resolve(requests, n) in d.files && m in d.files[Resolve(requests, n)].also
      ensures m in Names(have)
    {
      var i :| 0 <= i < |have| && have[i].name == n;
      var k :| 0 <= k < |d.files[have[i]].also| && d.files[have[i]].also[k] == m;
    }
  }

  lemma FollowedMore(d: Disk, have: seq<Info>, i: Info, a: set<Name>, b: set<Name>)
    requires Followed(d, have, a) && a <= b && Loads(d, i)
    requires forall k :: 0 <= k < |d.files[i].also| ==> d.files[i].also[k] in b
    ensures Followed(d, have + [i], b)
  {
  }

  class Context {
    const disk: Disk
    var willInstall: seq<Info>
    var haveInstalled: seq<Info>
    ghost var requests: seq<Info>

    constructor (disk: Disk)
      ensures this.disk == disk && willInstall == [] && haveInstalled == [] && requests == []
    {
      this.disk := disk;
      willInstall, haveInstalled, requests := [], [], [];
    }

    predicate Known(n: Name)
      reads this
    {
      (exists i :: 0 <= i < |haveInstalled| && haveInstalled[i].name == n)
      || exists i :: 0 <= i < |willInstall| && willInstall[i].name == n
    }

    /** A unit is asked for, by name or by absolute path. */
    method AddRequest(request: string) returns (r: int)
      requires haveInstalled == [] && willInstall == requests && DistinctNames(requests)
      modifies this
      ensures haveInstalled == [] && willInstall == requests && DistinctNames(requests)
      ensures r == if disk.valid(InfoOf(request).name) then 0 else EINVAL
      ensures r < 0 ==> requests == old(requests)
      ensures r == 0 ==> requests == (if InfoOf(request).name in Names(old(requests)) then old(requests)
                                      else old(requests) + [InfoOf(request)])
    {
      var i := InfoOf(request);
      if !disk.valid(i.name) {
        return EINVAL;
      }
      r := 0;
      if !Known(i.name) {
        DistinctPush(requests, i);
        willInstall := willInstall + [i];
        requests := requests + [i];
      }
    }

    /** Lists the names given in Also= by the unit `from`, up to the first that is not valid. */
    method AddAlso(names: seq<Name>, ghost from: Name) returns (r: int)
      requires Listed(disk, requests, willInstall, haveInstalled)
      requires from in Names(willInstall) + Names(haveInstalled) && Resolve(requests, from) in disk.files
      requires names == disk.files[Resolve(requests, from)].also
      modifies `willInstall
      ensures Listed(disk, requests, willInstall, haveInstalled)
      ensures Names(old(willInstall)) <= Names(willInstall)
      ensures r == 0 || r == EINVAL
      ensures r == 0 <==> forall k :: 0 <= k < |names| ==> disk.valid(names[k])
      ensures r == 0 ==> forall k :: 0 <= k < |names| ==> names[k] in Names(willInstall) + Names(haveInstalled)
    {
      for n := 0 to |names|
        invariant Listed(disk, requests, willInstall, haveInstalled)
        invariant Names(old(willInstall)) <= Names(willInstall)
        invariant forall k :: 0 <= k < n ==> disk.valid(names[k])
        invariant forall k :: 0 <= k < n ==> names[k] in Names(willInstall) + Names(haveInstalled)
      {
        if !disk.valid(names[n]) {
          return EINVAL;
        }
        if !Known(names[n]) {
          AddKeepsListed(disk, requests, willInstall, haveInstalled, from, names[n]);
          willInstall := willInstall + [Info(names[n], None)];
        }
      }
      return 0;
    }

    /** Takes the first unit off the list, and loads its file. */
    method LoadNext() returns (q: int, i: Info)
      requires Listed(disk, requests, willInstall, haveInstalled) && willInstall != [] && disk.missing < 0
      requires Followed(disk, haveInstalled, Names(willInstall) + Names(haveInstalled))
      modifies `willInstall, `haveInstalled
      ensures Listed(disk, requests, willInstall, haveInstalled)
      ensures i == old(willInstall)[0] && i.name !in Names(old(haveInstalled))
                && haveInstalled == old(haveInstalled) + [i]
      ensures q < 0 <==> !Loads(disk, i)
      ensures q < 0 ==> q == if i in disk.files then EINVAL else disk.missing
      ensures q >= 0 ==>
                q == disk.files[i].nSymlinks && Followed(disk, haveInstalled, Names(willInstall) + Names(haveInstalled))
      ensures Names(old(haveInstalled)) < Names(haveInstalled)
    {
      i := willInstall[0];
      ghost var have := haveInstalled;
      TakeKeepsListed(disk, requests, willInstall, haveInstalled);
      NamesPush(haveInstalled, i);
      willInstall, haveInstalled := willInstall[1..], haveInstalled + [i];
      ghost var listed := Names(willInstall) + Names(haveInstalled);
      if i !in disk.files {
        return disk.missing, i;
      }
      q := AddAlso(disk.files[i].also, i.name);
      if q < 0 {
        return;
      }
      q := disk.files[i].nSymlinks;
      FollowedMore(disk, have, i, listed, Names(willInstall) + Names(haveInstalled));
    }

    /** Installs everything that is asked for, and everything that follows from it. `applied` tells
        how creating the symlinks of a unit goes; errors there do not stop the operation, a unit
        that does not load does. */
    method Apply(applied: Info -> int) returns (r: int, ghost complete: bool)
      requires haveInstalled == [] && willInstall == requests && DistinctNames(requests) && disk.missing < 0
      modifies `willInstall, `haveInstalled
      ensures DistinctNames(haveInstalled)
      ensures complete ==> willInstall == [] && AlsoClosure(disk, requests, Names(haveInstalled))
      ensures complete ==> forall i :: 0 <= i < |haveInstalled| ==> Loads(disk, haveInstalled[i])
      ensures !complete ==> r < 0 && Stuck(disk, requests, haveInstalled)
      ensures complete && (forall i :: 0 <= i < |haveInstalled| ==> applied(haveInstalled[i]) >= 0) ==>
                r == Total(disk, haveInstalled)
      ensures r >= 0 ==> complete && forall i :: 0 <= i < |haveInstalled| ==> applied(haveInstalled[i]) >= 0
      ensures complete && r < 0 ==> r == FirstFailure(applied, haveInstalled)
      ensures !complete ==>
                && haveInstalled != []
                && var n := |haveInstalled| - 1;
                   var e := FirstFailure(applied, haveInstalled[..n]);
                   r == if e < 0 then e else LoadError(disk, haveInstalled[n])
    {
      r := 0;
      StartListed(disk, requests);
      while willInstall != []
        invariant Listed(disk, requests, willInstall, haveInstalled)
        invariant Followed(disk, haveInstalled, Names(willInstall) + Names(haveInstalled))
        invariant r == Outcome(disk, applied, haveInstalled)
        decreases disk.files.Keys - Elements(haveInstalled)
      {
        var ok;
        r, ok := ApplyNext(applied, r);
        if !ok {
          return r, false;
        }
      }
      DoneIsClosure(disk, requests, haveInstalled);
      FirstFailureIs(applied, haveInstalled);
      complete := true;
    }

    /** Takes one unit off the list, and installs it. */
    method ApplyNext(applied: Info -> int, r: int) returns (r': int, ok: bool)
      requires Listed(disk, requests, willInstall, haveInstalled) && willInstall != [] && disk.missing < 0
      requires Followed(disk, haveInstalled, Names(willInstall) + Names(haveInstalled))
      requires r == Outcome(disk, applied, haveInstalled)
      modifies `willInstall, `haveInstalled
      ensures Listed(disk, requests, willInstall, haveInstalled)
      ensures haveInstalled == old(haveInstalled) + [old(willInstall)[0]]
      ensures ok ==> r' == Outcome(disk, applied, haveInstalled)
      ensures ok ==> Followed(disk, haveInstalled, Names(willInstall) + Names(haveInstalled))
      ensures ok ==> disk.files.Keys - Elements(haveInstalled) < disk.files.Keys - Elements(old(haveInstalled))
      ensures !ok ==> r' < 0 && Stuck(disk, requests, haveInstalled)
      ensures !ok ==> r' == var e := FirstFailure(applied, old(haveInstalled));
                            if e < 0 then e else LoadError(disk, old(willInstall)[0])
    {
      ghost var have := haveInstalled;
      var q, i := LoadNext();
      r' := r;
      ElementsPush(have, i);
      if q < 0 {
        StuckHere(disk, requests, willInstall, have, i);
        return if r >= 0 then q else r, false;
      }
      if r' >= 0 {
        r' := r' + q;
      }
      q := applied(i);
      if r' >= 0 && q < 0 {
        r' := q;
      }
      OutcomePush(disk, applied, have, i);
      ok := true;
    }

    /** Marks everything that is asked for, and everything that follows from it, for removal. */
    method MarkForRemoval(marks: set<string>) returns (r: int, marks': set<string>)
      requires haveInstalled == [] && willInstall == requests && DistinctNames(requests) && disk.missing < 0
      modifies `willInstall, `haveInstalled
      ensures DistinctNames(haveInstalled)
      ensures r >= 0 ==> willInstall == [] && AlsoClosure(disk, requests, Names(haveInstalled))
      ensures r >= 0 ==> r == Total(disk, haveInstalled) && marks' == marks + Names(haveInstalled)
      ensures r < 0 ==>
                && Stuck(disk, requests, haveInstalled) && haveInstalled != []
                && r == LoadError(disk, haveInstalled[|haveInstalled| - 1])
                && marks' == marks + Names(haveInstalled[..|haveInstalled| - 1])
    {
      r, marks' := 0, marks;
      StartListed(disk, requests);
      assert Names(haveInstalled) == {};
      while willInstall != []
        invariant Listed(disk, requests, willInstall, haveInstalled)
        invariant Followed(disk, haveInstalled, Names(willInstall) + Names(haveInstalled))
        invariant r >= 0 && r == Total(disk, haveInstalled)
        invariant marks' == marks + Names(haveInstalled)
        decreases disk.files.Keys - Elements(haveInstalled)
      {
        ghost var have := haveInstalled;
        var q, i := LoadNext();
        TotalPush(disk, have, i);
        ElementsPush(have, i);
        NamesPush(have, i);
        assert haveInstalled[..|have|] == have;
        if q < 0 {
          StuckHere(disk, requests, willInstall, have, i);
          return q, marks';
        }
        r := r + q;
        marks' := marks' + {i.name};
      }
      DoneIsClosure(disk, requests, haveInstalled);
    }
  }

  lemma ElementsPush(infos: seq<Info>, i: Info)
    ensures Elements(infos + [i]) == Elements(infos) + {i}
    ensures i.name !in Names(infos) ==> i !in infos
  {
    if i in infos {
      var k :| 0 <= k < |infos| && infos[k] == i;
      assert infos[k].name in Names(infos);
    }
  }

  /** The last unit that was taken up does not load, although it follows from the requests. */
  ghost predicate Stuck(d: Disk, requests: seq<Info>, have: seq<Info>) {
    && have != []
    && !Loads(d, Resolve(requests, have[|have| - 1].name))
    && Forced(d, requests, {have[|have| - 1].name})
  }

  lemma StuckHere(d: Disk, requests: seq<Info>, will: seq<Info>, have: seq<Info>, i: Info)
    requires Listed(d, requests, will, have + [i]) && !Loads(d, i)
    ensures Stuck(d, requests, have + [i])
  {
    NamesPush(have, i);
    assert (have + [i])[|have|] == i;
  }

  /** So the operation gets stuck only if some unit of the closure does not load. */
  lemma StuckMeansUnloadable(d: Disk, requests: seq<Info>, have: seq<Info>, ns: set<Name>)
    requires Stuck(d, requests, have) && AlsoClosure(d, requests, ns)
    ensures exists n :: n in ns && !Loads(d, Resolve(requests, n))
  {
    var n := have[|have| - 1].name;
    assert n in {n};
    assert n in ns;
  }
}
