/** How the cascade of failures is put together from the cascades of single jobs (src/job.c). */
module JobCascade {
  import opened Collections
  import opened JobTypes
  import opened JobOrder
  import opened JobSteps

  /** The units in `others` with a job that fails along; jobs marked override are exempt from
      overridable dependencies. */
  ghost function Hit(jobs: map<Unit, Job>, others: seq<Unit>, overridable: bool): set<Unit> {
    set y | y in jobs && y in others && StartLike(jobs[y].kind) && !(overridable && jobs[y].override)
  }

  lemma EmptyCascade(d: Deps, jobs: map<Unit, Job>)
    ensures Cascade(d, jobs, {}, {})
    ensures Pruned(d, jobs, {}, {}, jobs)
  {
  }

  lemma PrunedTwice(d: Deps, js: map<Unit, Job>, g1: set<Unit>, w1: set<Unit>, js1: map<Unit, Job>,
                    g2: set<Unit>, w2: set<Unit>, js2: map<Unit, Job>)
    requires Pruned(d, js, g1, w1, js1) && Pruned(d, js1, g2, w2, js2)
    ensures Pruned(d, js, g1 + g2, w1 + w2, js2)
  {
    forall v | v in js2
      ensures js2[v] == js[v].(inRunQueue := js[v].inRunQueue || Touched(d, w1 + w2, v))
    {
      assert Touched(d, w1 + w2, v) <==> Touched(d, w1, v) || Touched(d, w2, v);
    }
  }

  /** What fails along with what is the same before and after some jobs are removed. */
  lemma PrunedFailsWith(d: Deps, js: map<Unit, Job>, g: set<Unit>, w: set<Unit>, js1: map<Unit, Job>)
    requires Pruned(d, js, g, w, js1)
    ensures forall x, kind, y :: FailsWith(d, js1, x, kind, y) <==> FailsWith(d, js, x, kind, y) && y !in g
  {
  }

  lemma CascadeJoins(d: Deps, js: map<Unit, Job>, s1: set<Unit>, g1: set<Unit>, js1: map<Unit, Job>,
                     s2: set<Unit>, g2: set<Unit>)
    requires Cascade(d, js, s1, g1) && Pruned(d, js, g1, g1, js1) && Cascade(d, js1, s2, g2)
    ensures Cascade(d, js, s1 + s2, g1 + g2)
  {
    PrunedFailsWith(d, js, g1, g1, js1);
    forall x, y | x in g1 + g2 && x in js && FailsWith(d, js, x, js[x].kind, y) ensures y in g1 + g2 {
      if x !in g1 && y !in g1 {
        assert FailsWith(d, js1, x, js1[x].kind, y);
      }
    }
    forall vs: set<Unit> | s1 + s2 <= vs && FailClosed(d, js, vs) ensures g1 + g2 <= vs {
      assert s1 <= vs && s2 <= vs;
      forall x, y | x in vs && x in js1 && FailsWith(d, js1, x, js1[x].kind, y) ensures y in vs {
        assert FailsWith(d, js, x, js[x].kind, y);
      }
      assert FailClosed(d, js1, vs);
    }
  }

  /** A seed that an earlier cascade has already taken adds nothing. */
  lemma CascadeAbsorbs(d: Deps, js: map<Unit, Job>, seeds: set<Unit>, us: set<Unit>, y: Unit)
    requires Cascade(d, js, seeds, us) && y in us
    ensures Cascade(d, js, seeds + {y}, us)
  {
  }

  /** Removing the job on `u` and then cascading from everything it brings down directly is the
      cascade that starts at `u`. */
  lemma CascadeStarts(d: Deps, js: map<Unit, Job>, u: Unit, js1: map<Unit, Job>, seeds: set<Unit>, us: set<Unit>)
    requires u in js && Pruned(d, js, {u}, {}, js1) && Cascade(d, js1, seeds, us)
    requires us <= js1.Keys
    requires forall y :: y in seeds <==> FailsWith(d, js1, u, js[u].kind, y)
    ensures Cascade(d, js, {u}, us + {u})
  {
    PrunedFailsWith(d, js, {u}, {}, js1);
    forall x, y | x in us + {u} && x in js && FailsWith(d, js, x, js[x].kind, y) ensures y in us + {u} {
      if y != u && x == u {
        assert y in seeds;
      } else if y != u {
        assert FailsWith(d, js1, x, js1[x].kind, y);
      }
    }
    forall vs: set<Unit> | u in vs && FailClosed(d, js, vs) ensures us + {u} <= vs {
      forall y | y in seeds ensures y in vs {
        assert FailsWith(d, js, u, js[u].kind, y);
      }
      forall x, y | x in vs && x in js1 && FailsWith(d, js1, x, js1[x].kind, y) ensures y in vs {
        assert FailsWith(d, js, x, js[x].kind, y);
      }
      assert seeds <= vs && FailClosed(d, js1, vs);
    }
  }

  function Gone(s: Sched, s': Sched): set<Unit> {
    s.jobs.Keys - s'.jobs.Keys
  }

  /** Exactly the jobs that follow from the failure of `seeds` went away. */
  ghost predicate JobsDown(d: Deps, s: Sched, seeds: set<Unit>, s': Sched) {
    && Cascade(d, s.jobs, seeds, Gone(s, s'))
    && Pruned(d, s.jobs, Gone(s, s'), Gone(s, s'), s'.jobs)
    && s'.deferred == s.deferred - Gone(s, s')
    && s'.rewritten == s.rewritten - Gone(s, s')
  }

  lemma JobsDownRefl(d: Deps, s: Sched)
    ensures JobsDown(d, s, {}, s)
  {
    EmptyCascade(d, s.jobs);
    assert Gone(s, s) == {};
  }

  lemma GoneJoins(s: Sched, s1: Sched, s2: Sched)
    requires s1.jobs.Keys <= s.jobs.Keys && s2.jobs.Keys <= s1.jobs.Keys
    ensures Gone(s, s2) == Gone(s, s1) + Gone(s1, s2) && Gone(s, s1) !! Gone(s1, s2)
  {
  }

  lemma JobsDownJoins(d: Deps, s: Sched, a: set<Unit>, s1: Sched, b: set<Unit>, s2: Sched)
    requires JobsDown(d, s, a, s1) && JobsDown(d, s1, b, s2)
    ensures JobsDown(d, s, a + b, s2)
  {
    var g1, g2 := Gone(s, s1), Gone(s1, s2);
    GoneJoins(s, s1, s2);
    assert Pruned(d, s.jobs, g1 + g2, g1 + g2, s2.jobs) by {
      PrunedTwice(d, s.jobs, g1, g1, s1.jobs, g2, g2, s2.jobs);
    }
    assert Cascade(d, s.jobs, a + b, g1 + g2) by {
      CascadeJoins(d, s.jobs, a, g1, s1.jobs, b, g2);
    }
  }

  lemma FinishedIsJobsDown(d: Deps, s: Sched, y: Unit, result: JobResult, s': Sched)
    requires y in s.jobs && !result.Done? && Finished(d, s, y, result, s')
    ensures JobsDown(d, s, {y}, s')
  {
  }

  lemma JobsDownAlready(d: Deps, s: Sched, seeds: set<Unit>, s': Sched, y: Unit)
    requires JobsDown(d, s, seeds, s') && y in s.jobs && y !in s'.jobs
    ensures JobsDown(d, s, seeds + {y}, s')
  {
    CascadeAbsorbs(d, s.jobs, seeds, Gone(s, s'), y);
  }

  /** The job on `u` is removed, what it brings down goes away, then its neighbours are queued:
      that is finishing it. */
  lemma FinishedInThreeSteps(d: Deps, s: Sched, u: Unit, result: JobResult, s1: Sched, seeds: set<Unit>, s2: Sched,
                             s3: Sched)
    requires u in s.jobs && !Converts(s.jobs[u], result)
    requires Pruned(d, s.jobs, {u}, {}, s1.jobs)
    requires s1.deferred == s.deferred - {u} && s1.rewritten == s.rewritten - {u}
    requires JobsDown(d, s1, seeds, s2)
    requires forall y :: y in seeds <==> !result.Done? && FailsWith(d, s1.jobs, u, s.jobs[u].kind, y)
    requires Pruned(d, s2.jobs, {}, {u}, s3.jobs) && s3.deferred == s2.deferred && s3.rewritten == s2.rewritten
    ensures Finished(d, s, u, result, s3)
    ensures Gone(s, s3) == Gone(s1, s2) + {u} && u !in Gone(s1, s2)
  {
    var g := Gone(s1, s2);
    assert Pruned(d, s.jobs, g + {u}, g + {u}, s3.jobs) by {
      PrunedTwice(d, s.jobs, {u}, {}, s1.jobs, g, g, s2.jobs);
      PrunedTwice(d, s.jobs, {u} + g, {} + g, s2.jobs, {}, {u}, s3.jobs);
      assert {u} + g + {} == g + {u} && {} + g + {u} == g + {u};
    }
    assert Gone(s, s3) == g + {u};
    assert if result.Done? then g + {u} == {u} else Cascade(d, s.jobs, {u}, g + {u}) by {
      if result.Done? {
        assert FailClosed(d, s1.jobs, {});
        assert g <= {};
      } else {
        CascadeStarts(d, s.jobs, u, s1.jobs, seeds, g);
      }
    }
  }

  // ---------- what is sent out ----------

  /** The signal sent when a job is removed. */
  datatype Removal = Removal(id: JobId, unit: Unit, kind: JobType, result: JobResult)

  function RemovalOf(j: Job, result: JobResult): Removal {
    Removal(j.id, j.unit, j.kind, result)
  }

  /** The removal signals sent so far, and the units whose OnFailure= was triggered. */
  datatype Output = Output(removals: seq<Removal>, triggered: seq<Unit>)

  /** Each job on `gone` has its signal with result JOB_DEPENDENCY in `sent`, and its unit is in
      `us`; as the lengths agree, each is there once and nothing else is. */
  ghost predicate Announced(jobs: map<Unit, Job>, gone: set<Unit>, sent: seq<Removal>, us: seq<Unit>) {
    && |sent| == |us| == |gone|
    && forall v {:trigger RemovalOf(jobs[v], Dependency)} :: v in gone && v in jobs ==>
         v in us && RemovalOf(jobs[v], Dependency) in sent
  }

  /** Between `o` and `o'`, exactly the removals of `gone` were announced. */
  ghost predicate AnnouncedSince(jobs: map<Unit, Job>, gone: set<Unit>, o: Output, o': Output) {
    && o.removals <= o'.removals
    && o.triggered <= o'.triggered
    && Announced(jobs, gone, o'.removals[|o.removals|..], o'.triggered[|o.triggered|..])
  }

  predicate TriggersOnFailure(result: JobResult) {
    result.Timeout? || result.Dependency?
  }

  function OwnTrigger(u: Unit, result: JobResult): seq<Unit> {
    if TriggersOnFailure(result) then [u] else []
  }

  /** What finishing a job announces: its own removal first, then those of the jobs it brings
      down; its own OnFailure= trigger, if any, after theirs. */
  ghost predicate FinishAnnounced(jobs: map<Unit, Job>, u: Unit, result: JobResult, gone: set<Unit>, o: Output,
                                  o': Output)
    requires u in jobs
  {
    if Converts(jobs[u], result) then o' == o
    else
      exists middle: Output ::
        && AnnouncedSince(jobs, gone - {u}, Output(o.removals + [RemovalOf(jobs[u], result)], o.triggered), middle)
        && o' == Output(middle.removals, middle.triggered + OwnTrigger(u, result))
  }

  /** What that means: the first new signal is the one for the job on `u`; OnFailure= is triggered for
      exactly the units of the jobs that were brought down, and for `u` itself, as the last one, exactly
      if the job timed out or failed for a dependency. */
  lemma FinishOutput(jobs: map<Unit, Job>, u: Unit, result: JobResult, gone: set<Unit>, o: Output, o': Output)
    requires u in jobs && u in gone && gone <= jobs.Keys && !Converts(jobs[u], result)
    requires FinishAnnounced(jobs, u, result, gone, o, o')
    ensures |o'.removals| == |o.removals| + |gone|
    ensures o'.removals[|o.removals|] == Removal(jobs[u].id, jobs[u].unit, jobs[u].kind, result)
    ensures o.triggered <= o'.triggered
    ensures forall v :: v in o'.triggered[|o.triggered|..] <==>
                          v in gone && (v == u ==> result.Timeout? || result.Dependency?)
    ensures result.Timeout? || result.Dependency? ==>
              |o'.triggered| == |o.triggered| + |gone| && o'.triggered[|o'.triggered| - 1] == u
    ensures !(result.Timeout? || result.Dependency?) ==> |o'.triggered| == |o.triggered| + |gone| - 1
  {
    var first := Output(o.removals + [RemovalOf(jobs[u], result)], o.triggered);
    var middle: Output :|
      AnnouncedSince(jobs, gone - {u}, first, middle)
      && o' == Output(middle.removals, middle.triggered + OwnTrigger(u, result));
    var us := middle.triggered[|o.triggered|..];
    assert gone - {u} <= Elements(us) by {
      forall v | v in gone - {u} ensures v in us {
        assert RemovalOf(jobs[v], Dependency) in middle.removals[|first.removals|..];
      }
    }
    assert |gone| == |gone - {u}| + 1;
    NothingElse(us, gone - {u});
    assert o'.triggered[|o.triggered|..] == us + OwnTrigger(u, result);
    assert forall v :: v in us <==> v in Elements(us);
  }

  lemma AnnouncedJoins(js: map<Unit, Job>, g1: set<Unit>, o: Output, o1: Output, js1: map<Unit, Job>,
                       g2: set<Unit>, o2: Output)
    requires AnnouncedSince(js, g1, o, o1) && AnnouncedSince(js1, g2, o1, o2) && g1 !! g2 && g2 <= js1.Keys
    requires forall v :: v in js1 ==> v in js && js1[v] == js[v].(inRunQueue := js1[v].inRunQueue)
    ensures AnnouncedSince(js, g1 + g2, o, o2)
  {
    var sent, us := o2.removals[|o.removals|..], o2.triggered[|o.triggered|..];
    var sent1, us1 := o1.removals[|o.removals|..], o1.triggered[|o.triggered|..];
    var sent2, us2 := o2.removals[|o1.removals|..], o2.triggered[|o1.triggered|..];
    assert sent == sent1 + sent2 && us == us1 + us2;
    forall v | v in g1 + g2 && v in js ensures v in us && RemovalOf(js[v], Dependency) in sent {
      var r := RemovalOf(js[v], Dependency);
      if v in g2 {
        assert RemovalOf(js1[v], Dependency) == r;
        assert v in us2 && r in sent2;
      } else {
        assert v in us1 && r in sent1;
      }
    }
  }

  lemma FinishIsAnnounced(jobs: map<Unit, Job>, y: Unit, gone: set<Unit>, o: Output, o': Output)
    requires y in jobs && y in gone && jobs[y].unit == y
    requires FinishAnnounced(jobs, y, Dependency, gone, o, o')
    ensures AnnouncedSince(jobs, gone, o, o')
  {
    var own := RemovalOf(jobs[y], Dependency);
    var middle: Output :|
      && AnnouncedSince(jobs, gone - {y}, Output(o.removals + [own], o.triggered), middle)
      && o' == Output(middle.removals, middle.triggered + [y]);
    assert gone == (gone - {y}) + {y};
    var sent, us := o'.removals[|o.removals|..], o'.triggered[|o.triggered|..];
    var sent1, us1 := middle.removals[|o.removals| + 1..], middle.triggered[|o.triggered|..];
    assert sent == [own] + sent1 && us == us1 + [y];
    forall v | v in gone && v in jobs ensures v in us && RemovalOf(jobs[v], Dependency) in sent {
      if v == y {
        assert own in [own] && y in [y];
      } else {
        assert RemovalOf(jobs[v], Dependency) in sent1 && v in us1;
      }
    }
  }

  /** Since state `s0` and output `o0`, exactly what the failure of `seeds` brings down went away,
      and was announced. */
  ghost predicate Down(d: Deps, s0: Sched, o0: Output, seeds: set<Unit>, s: Sched, o: Output) {
    JobsDown(d, s0, seeds, s) && AnnouncedSince(s0.jobs, Gone(s0, s), o0, o)
  }

  /** The jobs, and what was sent out, when the job on `u` has just been freed. */
  function FreedJobs(s: Sched, u: Unit): Sched {
    Sched(s.jobs - {u}, s.deferred - {u}, s.rewritten - {u})
  }

  function FreedOutput(s: Sched, o: Output, u: Unit, result: JobResult): Output
    requires u in s.jobs
  {
    Output(o.removals + [RemovalOf(s.jobs[u], result)], o.triggered)
  }

  /** Finishing the job on `u`, seen from inside and outside. */
  ghost predicate FinishedAndAnnounced(d: Deps, s: Sched, o: Output, u: Unit, result: JobResult, s': Sched,
                                       o': Output) {
    && u in s.jobs
    && Finished(d, s, u, result, s')
    && FinishAnnounced(s.jobs, u, result, Gone(s, s'), o, o')
  }

  lemma DownRefl(d: Deps, s: Sched, o: Output)
    ensures Down(d, s, o, {}, s, o)
  {
    JobsDownRefl(d, s);
    assert Gone(s, s) == {};
  }

  lemma HitOne(jobs: map<Unit, Job>, y: Unit, overridable: bool)
    ensures Hit(jobs, [y], overridable)
         == if y in jobs && StartLike(jobs[y].kind) && !(overridable && jobs[y].override) then {y} else {}
  {
  }

  lemma JobsDownOneMore(d: Deps, s0: Sched, seeds: set<Unit>, s1: Sched, y: Unit, overridable: bool, s2: Sched)
    requires JobsDown(d, s0, seeds, s1)
    requires if y in Hit(s1.jobs, [y], overridable) then Finished(d, s1, y, Dependency, s2) else s2 == s1
    ensures JobsDown(d, s0, seeds + Hit(s0.jobs, [y], overridable), s2)
  {
    HitOne(s0.jobs, y, overridable);
    HitOne(s1.jobs, y, overridable);
    if y in Hit(s1.jobs, [y], overridable) {
      FinishedIsJobsDown(d, s1, y, Dependency, s2);
      JobsDownJoins(d, s0, seeds, s1, {y}, s2);
    } else if y in Hit(s0.jobs, [y], overridable) {
      JobsDownAlready(d, s0, seeds, s1, y);
    } else {
      assert seeds + {} == seeds;
    }
  }

  lemma AnnouncedOneMore(js: map<Unit, Job>, g1: set<Unit>, o: Output, o1: Output, js1: map<Unit, Job>, y: Unit,
                         g2: set<Unit>, o2: Output)
    requires AnnouncedSince(js, g1, o, o1) && g1 !! g2 && g2 <= js1.Keys
    requires forall v :: v in js1 ==> v in js && js1[v] == js[v].(inRunQueue := js1[v].inRunQueue)
    requires y in js1 && y in g2 && js1[y].unit == y && FinishAnnounced(js1, y, Dependency, g2, o1, o2)
    ensures AnnouncedSince(js, g1 + g2, o, o2)
  {
    FinishIsAnnounced(js1, y, g2, o1, o2);
    AnnouncedJoins(js, g1, o, o1, js1, g2, o2);
  }

  lemma AnnouncedHit(d: Deps, s0: Sched, o0: Output, s1: Sched, o1: Output, y: Unit, s2: Sched, o2: Output)
    requires AnnouncedSince(s0.jobs, Gone(s0, s1), o0, o1)
    requires Pruned(d, s0.jobs, Gone(s0, s1), Gone(s0, s1), s1.jobs)
    requires Pruned(d, s1.jobs, Gone(s1, s2), Gone(s1, s2), s2.jobs)
    requires y in s1.jobs && y in Gone(s1, s2) && s1.jobs[y].unit == y
    requires FinishAnnounced(s1.jobs, y, Dependency, Gone(s1, s2), o1, o2)
    ensures AnnouncedSince(s0.jobs, Gone(s0, s2), o0, o2)
  {
    GoneJoins(s0, s1, s2);
    AnnouncedOneMore(s0.jobs, Gone(s0, s1), o0, o1, s1.jobs, y, Gone(s1, s2), o2);
  }

  /** Looking at one more unit of a dependency set: if it still has a job that fails along, that
      job is finished. */
  lemma DownHit(d: Deps, s0: Sched, o0: Output, seeds: set<Unit>, s1: Sched, o1: Output,
                y: Unit, overridable: bool, s2: Sched, o2: Output)
    requires Down(d, s0, o0, seeds, s1, o1)
    requires y in Hit(s1.jobs, [y], overridable) && s1.jobs[y].unit == y
    requires FinishedAndAnnounced(d, s1, o1, y, Dependency, s2, o2)
    ensures Down(d, s0, o0, seeds + Hit(s0.jobs, [y], overridable), s2, o2)
  {
    JobsDownOneMore(d, s0, seeds, s1, y, overridable, s2);
    AnnouncedHit(d, s0, o0, s1, o1, y, s2, o2);
  }

  /** If it does not, nothing happens. */
  lemma DownMissed(d: Deps, s0: Sched, o0: Output, seeds: set<Unit>, s1: Sched, o1: Output, y: Unit, overridable: bool)
    requires Down(d, s0, o0, seeds, s1, o1)
    requires y !in Hit(s1.jobs, [y], overridable)
    ensures Down(d, s0, o0, seeds + Hit(s0.jobs, [y], overridable), s1, o1)
  {
    JobsDownOneMore(d, s0, seeds, s1, y, overridable, s1);
  }

  lemma HitPrefix(jobs: map<Unit, Job>, others: seq<Unit>, overridable: bool, n: nat, seeds: set<Unit>)
    requires n < |others|
    ensures seeds + Hit(jobs, others[..n], overridable) + Hit(jobs, [others[n]], overridable)
         == seeds + Hit(jobs, others[..n + 1], overridable)
  {
  }

  /** All that a job on `u` brings down directly when it ends with `result`. */
  ghost function Dependents(d: Deps, jobs: map<Unit, Job>, u: Unit, kind: JobType, result: JobResult): set<Unit> {
    if result.Done? then {}
    else if StartLike(kind) then
      Hit(jobs, Of(d.requiredBy, u), false) + Hit(jobs, Of(d.boundBy, u), false)
      + Hit(jobs, Of(d.requiredByOverridable, u), true)
    else if kind.Stop? then Hit(jobs, Of(d.conflictedBy, u), false)
    else {}
  }

  lemma DependentsFail(d: Deps, jobs: map<Unit, Job>, u: Unit, kind: JobType, result: JobResult)
    ensures forall y :: y in Dependents(d, jobs, u, kind, result) <==> !result.Done? && FailsWith(d, jobs, u, kind, y)
  {
  }

  lemma AnnouncedInThreeSteps(js: map<Unit, Job>, u: Unit, result: JobResult, js1: map<Unit, Job>, g: set<Unit>,
                              o: Output, o1: Output, o2: Output, o3: Output)
    requires u in js && !Converts(js[u], result) && u !in g && js1 == js - {u}
    requires o1 == Output(o.removals + [RemovalOf(js[u], result)], o.triggered)
    requires AnnouncedSince(js1, g, o1, o2) && g <= js1.Keys
    requires o3 == Output(o2.removals, o2.triggered + OwnTrigger(u, result))
    ensures FinishAnnounced(js, u, result, g + {u}, o, o3)
  {
    assert (g + {u}) - {u} == g;
    forall v | v in g && v in js
      ensures v in o2.triggered[|o1.triggered|..] && RemovalOf(js[v], Dependency) in o2.removals[|o1.removals|..]
    {
      assert RemovalOf(js1[v], Dependency) == RemovalOf(js[v], Dependency);
    }
    assert AnnouncedSince(js, g, o1, o2);
  }

  lemma FreedIsPruned(d: Deps, js: map<Unit, Job>, u: Unit)
    ensures Pruned(d, js, {u}, {}, js - {u})
  {
  }

  lemma FinishedWhole(d: Deps, s: Sched, o: Output, u: Unit, result: JobResult, s2: Sched, o2: Output, s3: Sched,
                      o3: Output)
    requires u in s.jobs && !Converts(s.jobs[u], result)
    requires Down(d, FreedJobs(s, u), FreedOutput(s, o, u, result),
                  Dependents(d, s.jobs - {u}, u, s.jobs[u].kind, result), s2, o2)
    requires Pruned(d, s2.jobs, {}, {u}, s3.jobs) && s3.deferred == s2.deferred && s3.rewritten == s2.rewritten
    requires o3 == Output(o2.removals, o2.triggered + OwnTrigger(u, result))
    ensures FinishedAndAnnounced(d, s, o, u, result, s3, o3)
  {
    var s1, o1 := FreedJobs(s, u), FreedOutput(s, o, u, result);
    assert Finished(d, s, u, result, s3) && Gone(s, s3) == Gone(s1, s2) + {u} by {
      FreedIsPruned(d, s.jobs, u);
      DependentsFail(d, s1.jobs, u, s.jobs[u].kind, result);
      FinishedInThreeSteps(d, s, u, result, s1, Dependents(d, s1.jobs, u, s.jobs[u].kind, result), s2, s3);
    }
    assert FinishAnnounced(s.jobs, u, result, Gone(s1, s2) + {u}, o, o3) by {
      AnnouncedInThreeSteps(s.jobs, u, result, s1.jobs, Gone(s1, s2), o, o1, o2, o3);
    }
  }

  lemma ConvertedIsFinished(d: Deps, s: Sched, u: Unit, s': Sched)
    requires u in s.jobs && RestartLike(s.jobs[u].kind)
    requires Pruned(d, s.jobs[u := Converted(s.jobs[u])], {}, {u}, s'.jobs)
    requires s'.deferred == s.deferred - {u} && s'.rewritten == s.rewritten - {u}
    ensures Finished(d, s, u, Done, s')
    ensures s'.jobs.Keys == s.jobs.Keys
  {
  }

  /** The signals and triggers since `o`, when the job on `u` finished. */
  ghost predicate SaidSince(s: Sched, o: Output, u: Unit, result: JobResult, s': Sched, o': Output)
    requires u in s.jobs
  {
    && (result.Done? ==> o'.triggered == o.triggered)
    && (result.Timeout? || result.Dependency? ==> o'.triggered != [] && o'.triggered[|o'.triggered| - 1] == u)
    && o.triggered <= o'.triggered
    && (forall v :: v in o'.triggered[|o.triggered|..] <==>
                      v in s.jobs && v !in s'.jobs && (v == u ==> result.Timeout? || result.Dependency?))
    && (if result.Done? && RestartLike(s.jobs[u].kind) then o'.removals == o.removals
        else |o'.removals| > |o.removals| &&
             o'.removals[|o.removals|] == Removal(s.jobs[u].id, s.jobs[u].unit, s.jobs[u].kind, result))
  }

  lemma FinishedSays(d: Deps, s: Sched, o: Output, u: Unit, result: JobResult, s': Sched, o': Output)
    requires FinishedAndAnnounced(d, s, o, u, result, s', o')
    ensures SaidSince(s, o, u, result, s', o')
  {
    if Converts(s.jobs[u], result) {
      assert o'.triggered[|o.triggered|..] == [];
    } else {
      FinishOutput(s.jobs, u, result, Gone(s, s'), o, o');
      if result.Done? {
        assert Gone(s, s') == {u};
      }
    }
  }

  /** What finishing a job does to others and to itself, by their types. */
  ghost predicate DirectEffects(d: Deps, jobs: map<Unit, Job>, u: Unit, result: JobResult, jobs': map<Unit, Job>)
    requires u in jobs
  {
    var kind := jobs[u].kind;
    if result.Done? && (kind.Restart? || kind.TryRestart?) then
      && jobs'.Keys == jobs.Keys
      && jobs'[u] == jobs[u].(kind := Start, state := Waiting, inRunQueue := true)
    else
      && u !in jobs'
      && (forall v :: v in jobs && v !in jobs' && v != u ==>
            !result.Done? && (jobs[v].kind.Start? || jobs[v].kind.VerifyActive? || jobs[v].kind.ReloadOrStart?))
      && (forall v :: v in jobs && !result.Done? && (kind.Start? || kind.VerifyActive? || kind.ReloadOrStart?)
                      && (jobs[v].kind.Start? || jobs[v].kind.VerifyActive? || jobs[v].kind.ReloadOrStart?)
                      && (v in Of(d.requiredBy, u) || v in Of(d.boundBy, u)
                          || (v in Of(d.requiredByOverridable, u) && !jobs[v].override)) ==>
            v !in jobs')
      && (forall v :: v in jobs && !result.Done? && kind.Stop? && v in Of(d.conflictedBy, u)
                      && (jobs[v].kind.Start? || jobs[v].kind.VerifyActive? || jobs[v].kind.ReloadOrStart?) ==>
            v !in jobs')
  }

  lemma FinishedDirectly(d: Deps, s: Sched, u: Unit, result: JobResult, s': Sched)
    requires u in s.jobs && Finished(d, s, u, result, s')
    ensures DirectEffects(d, s.jobs, u, result, s'.jobs)
  {
    if !Converts(s.jobs[u], result) && !result.Done? {
      var gone := Gone(s, s');
      forall v | v in s.jobs && FailsWith(d, s.jobs, u, s.jobs[u].kind, v) ensures v in gone {
        assert u in gone;
      }
      var kept := gone - (set v | v in gone && v != u && !StartLike(s.jobs[v].kind));
      assert u in gone && {u} <= kept;
      forall x, y | x in kept && x in s.jobs && FailsWith(d, s.jobs, x, s.jobs[x].kind, y) ensures y in kept {
        assert y in gone;
      }
      assert FailClosed(d, s.jobs, kept);
    }
  }
}
