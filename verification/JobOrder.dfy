/** Units, their ordering dependencies, and which jobs may run (src/job.c, src/unit.c). */
module JobOrder {
  import opened Collections
  import opened JobTypes

  type Unit = nat
  type JobId = nat

  /** The dependency sets of all units, in iteration order; a missing entry is an unallocated set. */
  datatype Deps = Deps(
    after: map<Unit, seq<Unit>>,
    before: map<Unit, seq<Unit>>,
    requiredBy: map<Unit, seq<Unit>>,
    boundBy: map<Unit, seq<Unit>>,
    requiredByOverridable: map<Unit, seq<Unit>>,
    conflictedBy: map<Unit, seq<Unit>>)

  function Of(deps: map<Unit, seq<Unit>>, u: Unit): seq<Unit> {
    if u in deps then deps[u] else []
  }

  /** Every Before dependency is stored with its After inverse, and conversely. */
  ghost predicate Inverse(d: Deps) {
    forall a, b :: b in Of(d.before, a) <==> a in Of(d.after, b)
  }

  ghost predicate Adjacent(d: Deps, u: Unit, v: Unit) {
    v in Of(d.after, u) || v in Of(d.before, u)
  }

  datatype Job = Job(
    id: JobId,
    unit: Unit,
    kind: JobType,
    state: JobState,
    override: bool,
    ignoreOrder: bool,
    inRunQueue: bool)

  /** Nothing the job on `u` has to wait for carries a job. */
  ghost predicate Runnable(d: Deps, jobs: map<Unit, Job>, u: Unit)
    requires u in jobs
  {
    || jobs[u].ignoreOrder
    || ((Positive(jobs[u].kind) ==> forall a :: a in Of(d.after, u) ==> a !in jobs)
        && forall b :: b in Of(d.before, u) && b in jobs ==> !Negative(jobs[b].kind))
  }

  // ---------- acyclic orders ----------

  /** A closed walk along Before edges through the units of `us`. */
  ghost predicate Cycle(d: Deps, us: set<Unit>, p: seq<Unit>) {
    && |p| > 0
    && (forall i :: 0 <= i < |p| ==> p[i] in us)
    && (forall i {:trigger p[i]} :: 0 <= i < |p| - 1 ==> p[i + 1] in Of(d.before, p[i]))
    && p[0] in Of(d.before, p[|p| - 1])
  }

  ghost predicate Acyclic(d: Deps, us: set<Unit>) {
    forall p: seq<Unit> :: !Cycle(d, us, p)
  }

  lemma AcyclicSubset(d: Deps, us: set<Unit>, vs: set<Unit>)
    requires Acyclic(d, us) && vs <= us
    ensures Acyclic(d, vs)
  {
    forall p: seq<Unit> ensures !Cycle(d, vs, p) {
      assert Cycle(d, vs, p) ==> Cycle(d, us, p);
    }
  }

  ghost predicate Last(d: Deps, us: set<Unit>, u: Unit) {
    u in us && forall b :: b in us ==> b !in Of(d.before, u)
  }

  ghost predicate First(d: Deps, us: set<Unit>, u: Unit) {
    u in us && forall a :: a in us ==> a !in Of(d.after, u)
  }

  lemma {:induction false} DistinctFits(p: seq<Unit>, us: set<Unit>)
    requires Distinct(p) && forall i :: 0 <= i < |p| ==> p[i] in us
    ensures |p| <= |us|
  {
    if |p| > 0 {
      var n := |p| - 1;
      DistinctFits(p[..n], us - {p[n]});
    }
  }

  /** A walk along Before edges that never meets itself. */
  ghost predicate Walk(d: Deps, us: set<Unit>, p: seq<Unit>) {
    && |p| > 0
    && Distinct(p)
    && (forall i :: 0 <= i < |p| ==> p[i] in us)
    && (forall i, j :: 0 <= i < |p| && j == i + 1 && j < |p| ==> p[j] in Of(d.before, p[i]))
  }

  lemma WalkGrows(d: Deps, us: set<Unit>, p: seq<Unit>, q: seq<Unit>)
    requires Walk(d, us, p) && Walk(d, us, q) && q[0] in Of(d.before, p[|p| - 1])
    requires forall u :: u in p ==> u !in q
    ensures Walk(d, us, p + q)
    ensures |p + q| <= |us|
  {
    var w := p + q;
    forall i, j | 0 <= i < j < |w| ensures w[i] != w[j] {
      assert i < |p| ==> p[i] in p;
      assert j >= |p| ==> q[j - |p|] in q;
    }
    DistinctFits(w, us);
  }

  lemma WalkClosedIsCycle(d: Deps, us: set<Unit>, p: seq<Unit>, from: nat, to: nat)
    requires Walk(d, us, p) && from <= to < |p| && p[from] in Of(d.before, p[to])
    ensures Cycle(d, us, p[from..to + 1])
  {
  }

  /** A nonempty acyclic set of units has one that is before no other: otherwise a walk along
      Before edges could be prolonged for ever without meeting itself. */
  lemma {:induction false} LastExists(d: Deps, us: set<Unit>, walk: seq<Unit>) returns (u: Unit)
    requires Acyclic(d, us) && Walk(d, us, walk)
    ensures Last(d, us, u)
    decreases |us| - |walk|
  {
    var n := |walk| - 1;
    u := walk[n];
    if !Last(d, us, u) {
      var b :| b in us && b in Of(d.before, u);
      if k :| 0 <= k <= n && walk[k] == b {
        WalkClosedIsCycle(d, us, walk, k, n);
      }
      WalkGrows(d, us, walk, [b]);
      u := LastExists(d, us, walk + [b]);
    }
  }

  /** The mirror image: a walk prolonged backwards. */
  lemma {:induction false} FirstExists(d: Deps, us: set<Unit>, walk: seq<Unit>) returns (u: Unit)
    requires Inverse(d) && Acyclic(d, us) && Walk(d, us, walk)
    ensures First(d, us, u)
    decreases |us| - |walk|
  {
    u := walk[0];
    if !First(d, us, u) {
      var a :| a in us && a in Of(d.after, u);
      if k :| 0 <= k < |walk| && walk[k] == a {
        WalkClosedIsCycle(d, us, walk, 0, k);
      }
      WalkGrows(d, us, [a], walk);
      u := FirstExists(d, us, [a] + walk);
    }
  }

  /** Deadlock freedom: whatever jobs are installed, over an order of any size that has no cycle
      among the units that carry them, at least one job may run. */
  lemma SomeJobIsRunnable(d: Deps, jobs: map<Unit, Job>) returns (u: Unit)
    requires Inverse(d) && Acyclic(d, jobs.Keys) && jobs != map[]
    ensures u in jobs && Runnable(d, jobs, u)
  {
    var negative := set v | v in jobs && Negative(jobs[v].kind);
    if n :| n in negative {
      AcyclicSubset(d, jobs.Keys, negative);
      u := LastExists(d, negative, [n]);
    } else {
      var v :| v in jobs.Keys;
      u := FirstExists(d, jobs.Keys, [v]);
      assert forall b :: b in jobs ==> b !in negative;
    }
  }

  /** The acyclicity condition is needed: start jobs on units that are all ordered after one
      another in a ring block each other for good. */
  lemma RingOfStartsIsStuck(d: Deps, jobs: map<Unit, Job>, ring: seq<Unit>)
    requires Inverse(d) && Cycle(d, jobs.Keys, ring)
    requires forall u :: u in jobs <==> u in ring
    requires forall u :: u in jobs ==> jobs[u].kind.Start? && !jobs[u].ignoreOrder
    ensures forall u :: u in jobs ==> !Runnable(d, jobs, u)
  {
    forall u | u in jobs ensures !Runnable(d, jobs, u) {
      var k :| 0 <= k < |ring| && ring[k] == u;
      var a := if k == 0 then ring[|ring| - 1] else ring[k - 1];
      assert u in Of(d.before, a);
      assert a in jobs;
    }
  }
}
