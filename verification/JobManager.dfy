/** The manager's job table and run queue, changed in place (src/job.c, src/manager.c). Every
    method records the steps it takes, so that an execution of the manager is a run of JobSteps. */
module JobManager {
  import opened Collections
  import opened JobTypes
  import opened JobOrder
  import opened JobSteps
  import opened JobRuns
  import opened JobCascade
  import opened JobHistory

  function Without(q: seq<Unit>, u: Unit): (r: seq<Unit>)
    ensures forall v :: v in r <==> v in q && v != u
    ensures Distinct(q) ==> Distinct(r)
    ensures |r| <= |q| && (u in q ==> |r| < |q|)
  {
    if q == [] then []
    else
      assert forall v :: v in q <==> v == q[0] || v in q[1..];
      var rest := Without(q[1..], u);
      assert Distinct(q) ==> q[0] !in rest;
      if q[0] == u then rest else [q[0]] + rest
  }

  /** The others stay in their order. */
  lemma {:induction false} WithoutIs(q: seq<Unit>, k: nat)
    requires Distinct(q) && k < |q|
    ensures Without(q, q[k]) == Dropped(q, k)
  {
    if k == 0 {
      WithoutAbsent(q[1..], q[0]);
    } else {
      WithoutIs(q[1..], k - 1);
      assert Dropped(q, k) == [q[0]] + Dropped(q[1..], k - 1);
    }
  }

  lemma {:induction false} WithoutAbsent(q: seq<Unit>, u: Unit)
    requires u !in q
    ensures Without(q, u) == q
  {
    if q != [] {
      WithoutAbsent(q[1..], u);
    }
  }

  /** The jobs carried by the units and the manager's index of them by id agree. */
  ghost predicate Indexed(jobs: map<Unit, Job>, index: map<JobId, Unit>) {
    && (forall u {:trigger jobs[u].id} :: u in jobs ==>
            jobs[u].unit == u && jobs[u].id in index && index[jobs[u].id] == u)
    && (forall i {:trigger index[i]} :: i in index ==> index[i] in jobs && jobs[index[i]].id == i)
  }

  /** The run queue holds exactly the jobs that are marked as being on it, each once. */
  ghost predicate Queued(jobs: map<Unit, Job>, queue: seq<Unit>) {
    Distinct(queue) && forall u {:trigger u in queue} :: u in queue <==> u in jobs && jobs[u].inRunQueue
  }

  lemma IndexedPatch(jobs: map<Unit, Job>, index: map<JobId, Unit>, u: Unit, j: Job)
    requires Indexed(jobs, index) && u in jobs && j.unit == u && j.id == jobs[u].id
    ensures Indexed(jobs[u := j], index)
  {
    var jobs' := jobs[u := j];
    forall v | v in jobs' ensures jobs'[v].unit == v && jobs'[v].id in index && index[jobs'[v].id] == v {
      assert jobs'[v].id == jobs[v].id;
    }
  }

  lemma IndexedDrop(jobs: map<Unit, Job>, index: map<JobId, Unit>, u: Unit)
    requires Indexed(jobs, index) && u in jobs
    ensures Indexed(jobs - {u}, index - {jobs[u].id})
  {
    var jobs', index' := jobs - {u}, index - {jobs[u].id};
    forall v | v in jobs' ensures jobs'[v].unit == v && jobs'[v].id in index' && index'[jobs'[v].id] == v {
      assert jobs'[v].id == jobs[v].id;
    }
    forall i | i in index' ensures index'[i] in jobs' && jobs'[index'[i]].id == i {
      assert index[i] in jobs && jobs[index[i]].id == i;
    }
  }

  lemma IndexedAdd(jobs: map<Unit, Job>, index: map<JobId, Unit>, u: Unit, j: Job)
    requires Indexed(jobs, index) && u !in jobs && j.unit == u && j.id !in index
    ensures Indexed(jobs[u := j], index[j.id := u])
  {
    var jobs', index' := jobs[u := j], index[j.id := u];
    forall v | v in jobs' ensures jobs'[v].unit == v && jobs'[v].id in index' && index'[jobs'[v].id] == v {
      assert v != u ==> jobs[v].id in index;
    }
    forall i | i in index' ensures index'[i] in jobs' && jobs'[index'[i]].id == i {
      assert i in index ==> index[i] in jobs;
    }
  }

  /** The run queue after the jobs of the given units were put on it, each at the head, unless it is on
      the queue already. */
  function Fronted(carrying: set<Unit>, q: seq<Unit>, others: seq<Unit>): seq<Unit> {
    if others == [] then q
    else
      var n := |others| - 1;
      var r, u := Fronted(carrying, q, others[..n]), others[n];
      if u in carrying && u !in r then [u] + r else r
  }

  lemma PrefixMembers(others: seq<Unit>, n: nat)
    requires n < |others|
    ensures forall v :: v in others[..n + 1] <==> v in others[..n] || v == others[n]
  {
    assert others[..n + 1] == others[..n] + [others[n]];
  }

  lemma FrontedStep(carrying: set<Unit>, q: seq<Unit>, others: seq<Unit>, n: nat)
    requires n < |others|
    ensures var r := Fronted(carrying, q, others[..n]);
            Fronted(carrying, q, others[..n + 1]) ==
            if others[n] in carrying && others[n] !in r then [others[n]] + r else r
  {
    assert others[..n + 1][..n] == others[..n];
  }

  /** `r` is the queue `q` behind the jobs `added`: those of the given units that were not on it. */
  ghost predicate Behind(q: seq<Unit>, added: seq<Unit>, r: seq<Unit>, carrying: set<Unit>, others: seq<Unit>) {
    && r == added + q
    && Distinct(added)
    && forall v :: v in added <==> v in others && v in carrying && v !in q
  }

  lemma BehindGrows(q: seq<Unit>, added: seq<Unit>, r: seq<Unit>, carrying: set<Unit>, others: seq<Unit>, u: Unit)
    requires Behind(q, added, r, carrying, others)
    ensures u in r <==> u in added || u in q
    ensures u !in r && u in carrying ==> Behind(q, [u] + added, [u] + r, carrying, others + [u])
    ensures !(u !in r && u in carrying) ==> Behind(q, added, r, carrying, others + [u])
  {
    assert forall v :: v in others + [u] <==> v in others || v == u;
    assert forall v :: v in [u] + added <==> v == u || v in added;
    assert [u] + r == [u] + added + q;
  }

  /** The queue keeps its order behind the jobs that were put on it, each of which is there once. */
  lemma {:induction false} FrontedIs(carrying: set<Unit>, q: seq<Unit>, others: seq<Unit>) returns (added: seq<Unit>)
    ensures Behind(q, added, Fronted(carrying, q, others), carrying, others)
  {
    if others == [] {
      added := [];
    } else {
      var n := |others| - 1;
      added := FrontedIs(carrying, q, others[..n]);
      var r, u := Fronted(carrying, q, others[..n]), others[n];
      BehindGrows(q, added, r, carrying, others[..n], u);
      assert others[..n] + [u] == others;
      added := if u in carrying && u !in r then [u] + added else added;
    }
  }

  ghost predicate Linked(jobs: map<Unit, Job>, index: map<JobId, Unit>, queue: seq<Unit>) {
    Indexed(jobs, index) && Queued(jobs, queue)
  }

  lemma InstalledKeepsFresh(s: Sched, u: Unit, j: Job)
    requires Fresh(s) && j.unit == u && j.state.Waiting? && j.inRunQueue
    ensures Fresh(Installed(s, u, j))
  {
  }

  lemma RunnableIgnoresQueue(d: Deps, jobs: map<Unit, Job>, u: Unit)
    requires u in jobs
    ensures Runnable(d, jobs[u := jobs[u].(inRunQueue := false)], u) <==> Runnable(d, jobs, u)
  {
    RunnableIsLocal(d, jobs, jobs[u := jobs[u].(inRunQueue := false)], u);
  }

  /** Fewer finishes to go; or as many, but fewer jobs wait; or the same jobs wait, but the job on
      `u` has left the run queue. */
  ghost predicate Nearer(jobs: map<Unit, Job>, queue: seq<Unit>, u: Unit, jobs': map<Unit, Job>, queue': seq<Unit>) {
    || Weight(jobs') < Weight(jobs)
    || (Weight(jobs') == Weight(jobs) && WaitingUnits(jobs') < WaitingUnits(jobs))
    || (Weight(jobs') == Weight(jobs) && WaitingUnits(jobs') == WaitingUnits(jobs) && queue' == Without(queue, u))
  }

  lemma EmptyIndex(jobs: map<Unit, Job>, index: map<JobId, Unit>, queue: seq<Unit>)
    requires Linked(jobs, index, queue) && jobs == map[]
    ensures index == map[]
  {
    assert forall i :: i in index ==> index[i] in jobs;
  }

  class Manager {
    const deps: Deps
    var jobs: map<Unit, Job>        // each unit's job
    var index: map<JobId, Unit>     // the manager's table of jobs by id
    var runQueue: seq<Unit>
    var nFailed: nat
    var removals: seq<Removal>      // removal signals sent
    var triggered: seq<Unit>        // units whose OnFailure= was triggered

    ghost var deferred: set<Unit>
    ghost var rewritten: set<Unit>
    ghost var log: Log

    constructor (deps: Deps)
      ensures this.deps == deps
      ensures Valid() && log.steps == [] && Fresh(log.states[0])
      ensures jobs == map[] && index == map[] && runQueue == []
    {
      this.deps := deps;
      jobs, index, runQueue := map[], map[], [];
      nFailed, removals, triggered := 0, [], [];
      deferred, rewritten := {}, {};
      log := Log([Sched(map[], {}, {})], [], [[]]);
    }

    // ---------- queue and table ----------

    method AddToRunQueue(u: Unit)
      requires Linked(jobs, index, runQueue) && u in jobs
      modifies `jobs, `runQueue
      ensures Linked(jobs, index, runQueue)
      ensures jobs == old(jobs)[u := old(jobs[u]).(inRunQueue := true)]
      ensures runQueue == if old(jobs[u]).inRunQueue then old(runQueue) else [u] + old(runQueue)
    {
      if jobs[u].inRunQueue {
        return;
      }
      assert u !in runQueue;
      IndexedPatch(jobs, index, u, jobs[u].(inRunQueue := true));
      runQueue := [u] + runQueue;
      jobs := jobs[u := jobs[u].(inRunQueue := true)];
    }

    method LeaveRunQueue(u: Unit)
      requires Linked(jobs, index, runQueue) && u in jobs
      modifies `jobs, `runQueue
      ensures Linked(jobs, index, runQueue)
      ensures jobs == old(jobs)[u := old(jobs[u]).(inRunQueue := false)]
      ensures runQueue == Without(old(runQueue), u)
    {
      IndexedPatch(jobs, index, u, jobs[u].(inRunQueue := false));
      runQueue := Without(runQueue, u);
      jobs := jobs[u := jobs[u].(inRunQueue := false)];
    }

    method Free(u: Unit, result: JobResult)
      requires Linked(jobs, index, runQueue) && u in jobs
      modifies `jobs, `index, `runQueue, `removals, `deferred, `rewritten
      ensures Linked(jobs, index, runQueue)
      ensures jobs == old(jobs) - {u} && index == old(index) - {old(jobs[u]).id}
      ensures runQueue == Without(old(runQueue), u)
      ensures removals == old(removals) + [RemovalOf(old(jobs[u]), result)]
      ensures deferred == old(deferred) - {u} && rewritten == old(rewritten) - {u}
    {
      IndexedDrop(jobs, index, u);
      removals := removals + [RemovalOf(jobs[u], result)];
      index := index - {jobs[u].id};
      jobs := jobs - {u};
      runQueue := Without(runQueue, u);
      deferred, rewritten := deferred - {u}, rewritten - {u};
    }

    method WakeOne(v: Unit)
      requires Linked(jobs, index, runQueue)
      modifies `jobs, `runQueue
      ensures Linked(jobs, index, runQueue)
      ensures jobs == if v in old(jobs) then old(jobs)[v := old(jobs)[v].(inRunQueue := true)] else old(jobs)
      ensures runQueue == if v in old(jobs) && v !in old(runQueue) then [v] + old(runQueue) else old(runQueue)
    {
      if v in jobs {
        AddToRunQueue(v);
      }
    }

    /** Queues the jobs of all the given units. */
    method Wake(others: seq<Unit>)
      requires Linked(jobs, index, runQueue)
      modifies `jobs, `runQueue
      ensures Linked(jobs, index, runQueue)
      ensures jobs.Keys == old(jobs.Keys)
      ensures forall v :: v in jobs ==> jobs[v] == old(jobs)[v].(inRunQueue := old(jobs)[v].inRunQueue || v in others)
      ensures runQueue == Fronted(jobs.Keys, old(runQueue), others)
    {
      ghost var carrying := jobs.Keys;
      for n := 0 to |others|
        invariant Linked(jobs, index, runQueue)
        invariant jobs.Keys == carrying
        invariant forall v :: v in jobs ==>
                    jobs[v] == old(jobs)[v].(inRunQueue := old(jobs)[v].inRunQueue || v in others[..n])
        invariant runQueue == Fronted(carrying, old(runQueue), others[..n])
      {
        FrontedStep(carrying, old(runQueue), others, n);
        PrefixMembers(others, n);
        WakeOne(others[n]);
      }
      assert others[..|others|] == others;
    }

    method WakeNeighbours(u: Unit)
      requires Linked(jobs, index, runQueue)
      modifies `jobs, `runQueue
      ensures Linked(jobs, index, runQueue)
      ensures Pruned(deps, old(jobs), {}, {u}, jobs)
      ensures |jobs| == old(|jobs|)
      ensures runQueue == Fronted(jobs.Keys, Fronted(jobs.Keys, old(runQueue), Of(deps.after, u)), Of(deps.before, u))
    {
      Wake(Of(deps.after, u));
      Wake(Of(deps.before, u));
      assert forall v :: Touched(deps, {u}, v) <==> Adjacent(deps, u, v) by {
        forall v ensures Touched(deps, {u}, v) <==> Adjacent(deps, u, v) {
          assert u in {u};
        }
      }
    }

    // ---------- finishing ----------

    /** Fails the job on `y` if it has one that fails along, with all that follows from it. */
    method FailOne(y: Unit, overridable: bool, ghost s0: Sched, ghost o0: Output, ghost seeds: set<Unit>)
      requires Linked(jobs, index, runQueue)
      requires Down(deps, s0, o0, seeds, Sched(jobs, deferred, rewritten), Output(removals, triggered))
      modifies `jobs, `index, `runQueue, `nFailed, `removals, `triggered, `deferred, `rewritten
      ensures Linked(jobs, index, runQueue)
      ensures Down(deps, s0, o0, seeds + Hit(s0.jobs, [y], overridable), Sched(jobs, deferred, rewritten),
                   Output(removals, triggered))
      ensures |jobs| <= old(|jobs|)
      ensures nFailed == old(nFailed)
      decreases |jobs|, 3
    {
      ghost var s1, o1 := Sched(jobs, deferred, rewritten), Output(removals, triggered);
      HitOne(jobs, y, overridable);
      if y in jobs && StartLike(jobs[y].kind) && !(overridable && jobs[y].override) {
        FinishAndInvalidate(y, Dependency);
        DownHit(deps, s0, o0, seeds, s1, o1, y, overridable, Sched(jobs, deferred, rewritten),
                Output(removals, triggered));
      } else {
        DownMissed(deps, s0, o0, seeds, s1, o1, y, overridable);
      }
    }

    method FailAll(others: seq<Unit>, overridable: bool, ghost s0: Sched, ghost o0: Output, ghost seeds: set<Unit>)
      requires Linked(jobs, index, runQueue)
      requires Down(deps, s0, o0, seeds, Sched(jobs, deferred, rewritten), Output(removals, triggered))
      modifies `jobs, `index, `runQueue, `nFailed, `removals, `triggered, `deferred, `rewritten
      ensures Linked(jobs, index, runQueue)
      ensures Down(deps, s0, o0, seeds + Hit(s0.jobs, others, overridable), Sched(jobs, deferred, rewritten),
                   Output(removals, triggered))
      ensures |jobs| <= old(|jobs|)
      ensures nFailed == old(nFailed)
      decreases |jobs|, 4
    {
      assert seeds + Hit(s0.jobs, others[..0], overridable) == seeds;
      for n := 0 to |others|
        invariant Linked(jobs, index, runQueue)
        invariant Down(deps, s0, o0, seeds + Hit(s0.jobs, others[..n], overridable),
                       Sched(jobs, deferred, rewritten), Output(removals, triggered))
        invariant |jobs| <= old(|jobs|)
        invariant nFailed == old(nFailed)
      {
        HitPrefix(s0.jobs, others, overridable, n, seeds);
        FailOne(others[n], overridable, s0, o0, seeds + Hit(s0.jobs, others[..n], overridable));
      }
      assert others[..|others|] == others;
    }

    method FailDependentsOfStart(u: Unit, ghost s0: Sched, ghost o0: Output)
      requires Linked(jobs, index, runQueue)
      requires s0 == Sched(jobs, deferred, rewritten) && o0 == Output(removals, triggered)
      modifies `jobs, `index, `runQueue, `nFailed, `removals, `triggered, `deferred, `rewritten
      ensures Linked(jobs, index, runQueue)
      ensures Down(deps, s0, o0, Dependents(deps, s0.jobs, u, Start, Failed), Sched(jobs, deferred, rewritten),
                   Output(removals, triggered))
      ensures |jobs| <= old(|jobs|)
      ensures nFailed == old(nFailed)
      decreases |jobs|, 5
    {
      ghost var hit := Hit(s0.jobs, Of(deps.requiredBy, u), false);
      assert {} + hit == hit;
      assert hit + Hit(s0.jobs, Of(deps.boundBy, u), false) + Hit(s0.jobs, Of(deps.requiredByOverridable, u), true)
          == Dependents(deps, s0.jobs, u, Start, Failed);
      DownRefl(deps, s0, o0);
      FailAll(Of(deps.requiredBy, u), false, s0, o0, {});
      FailAll(Of(deps.boundBy, u), false, s0, o0, hit);
      FailAll(Of(deps.requiredByOverridable, u), true, s0, o0, hit + Hit(s0.jobs, Of(deps.boundBy, u), false));
    }

    /** Fails the jobs that depend on a job of type `kind` on `u` that just ended with `result`. */
    method FailDependents(u: Unit, kind: JobType, result: JobResult, ghost s0: Sched, ghost o0: Output)
      requires Linked(jobs, index, runQueue)
      requires s0 == Sched(jobs, deferred, rewritten) && o0 == Output(removals, triggered)
      modifies `jobs, `index, `runQueue, `nFailed, `removals, `triggered, `deferred, `rewritten
      ensures Linked(jobs, index, runQueue)
      ensures Down(deps, s0, o0, Dependents(deps, s0.jobs, u, kind, result), Sched(jobs, deferred, rewritten),
                   Output(removals, triggered))
      ensures |jobs| <= old(|jobs|)
      ensures nFailed == old(nFailed)
      decreases |jobs|, 6
    {
      DownRefl(deps, s0, o0);
      if result.Done? {
      } else if StartLike(kind) {
        FailDependentsOfStart(u, s0, o0);
      } else if kind.Stop? {
        ghost var hit := Hit(s0.jobs, Of(deps.conflictedBy, u), false);
        assert {} + hit == hit;
        FailAll(Of(deps.conflictedBy, u), false, s0, o0, {});
      }
    }

    /** A restart that is done goes on as a waiting start. */
    method ConvertToStart(u: Unit)
      requires Linked(jobs, index, runQueue) && u in jobs && RestartLike(jobs[u].kind)
      modifies `jobs, `runQueue, `deferred, `rewritten
      ensures Linked(jobs, index, runQueue)
      ensures jobs.Keys == old(jobs.Keys)
      ensures Finished(deps, old(Sched(jobs, deferred, rewritten)), u, Done, Sched(jobs, deferred, rewritten))
    {
      ghost var s := Sched(jobs, deferred, rewritten);
      IndexedPatch(jobs, index, u, jobs[u].(state := Waiting, kind := Start));
      jobs := jobs[u := jobs[u].(state := Waiting, kind := Start)];
      AddToRunQueue(u);
      deferred, rewritten := deferred - {u}, rewritten - {u};
      assert jobs == s.jobs[u := Converted(s.jobs[u])];
      WakeNeighbours(u);
      ConvertedIsFinished(deps, s, u, Sched(jobs, deferred, rewritten));
    }

    /** Frees the job on `u` and fails what depends on it. */
    method FreeAndFail(u: Unit, result: JobResult, ghost s: Sched, ghost o: Output)
      requires Linked(jobs, index, runQueue) && u in jobs
      requires s == Sched(jobs, deferred, rewritten) && o == Output(removals, triggered)
      modifies `jobs, `index, `runQueue, `nFailed, `removals, `triggered, `deferred, `rewritten
      ensures Linked(jobs, index, runQueue)
      ensures Down(deps, FreedJobs(s, u), FreedOutput(s, o, u, result),
                   Dependents(deps, s.jobs - {u}, u, s.jobs[u].kind, result),
                   Sched(jobs, deferred, rewritten), Output(removals, triggered))
      ensures |jobs| <= old(|jobs|)
      ensures nFailed == old(nFailed)
      decreases |jobs|, 0
    {
      var kind := jobs[u].kind;
      Free(u, result);
      assert jobs.Keys == s.jobs.Keys - {u};
      FailDependents(u, kind, result, FreedJobs(s, u), FreedOutput(s, o, u, result));
    }

    /** Triggers OnFailure= if need be, and wakes the neighbours of a unit whose job is gone. */
    method TriggerAndWake(u: Unit, result: JobResult)
      requires Linked(jobs, index, runQueue)
      modifies `jobs, `runQueue, `triggered
      ensures Linked(jobs, index, runQueue)
      ensures Pruned(deps, old(jobs), {}, {u}, jobs)
      ensures |jobs| == old(|jobs|)
      ensures triggered == old(triggered) + OwnTrigger(u, result)
    {
      if TriggersOnFailure(result) {
        triggered := triggered + [u];
      }
      WakeNeighbours(u);
    }

    method Conclude(u: Unit, result: JobResult, ghost s: Sched, ghost o: Output)
      requires Linked(jobs, index, runQueue) && u in s.jobs && !Converts(s.jobs[u], result)
      requires Down(deps, FreedJobs(s, u), FreedOutput(s, o, u, result),
                    Dependents(deps, s.jobs - {u}, u, s.jobs[u].kind, result),
                    Sched(jobs, deferred, rewritten), Output(removals, triggered))
      modifies `jobs, `runQueue, `triggered
      ensures Linked(jobs, index, runQueue)
      ensures FinishedAndAnnounced(deps, s, o, u, result, Sched(jobs, deferred, rewritten), Output(removals, triggered))
      ensures |jobs| == old(|jobs|)
    {
      ghost var s2, o2 := Sched(jobs, deferred, rewritten), Output(removals, triggered);
      TriggerAndWake(u, result);
      FinishedWhole(deps, s, o, u, result, s2, o2, Sched(jobs, deferred, rewritten), Output(removals, triggered));
    }

    /** Finishes a job, with all that follows from it. */
    method FinishAndInvalidate(u: Unit, result: JobResult)
      requires Linked(jobs, index, runQueue) && u in jobs
      modifies `jobs, `index, `runQueue, `nFailed, `removals, `triggered, `deferred, `rewritten
      ensures Linked(jobs, index, runQueue)
      ensures FinishedAndAnnounced(deps, old(Sched(jobs, deferred, rewritten)), old(Output(removals, triggered)),
                                   u, result,
                                   Sched(jobs, deferred, rewritten), Output(removals, triggered))
      ensures |jobs| <= old(|jobs|)
      ensures nFailed == old(nFailed) + if result.Failed? then 1 else 0
      ensures DirectEffects(deps, old(jobs), u, result, jobs)
      ensures result.Done? ==> triggered == old(triggered)
      ensures result.Timeout? || result.Dependency? ==> triggered != [] && triggered[|triggered| - 1] == u
      ensures old(triggered) <= triggered
      ensures forall v :: v in triggered[|old(triggered)|..] <==>
                            v in old(jobs) && v !in jobs && (v == u ==> result.Timeout? || result.Dependency?)
      ensures if result.Done? && (old(jobs[u]).kind.Restart? || old(jobs[u]).kind.TryRestart?) then
                removals == old(removals)
              else
                |removals| > |old(removals)| &&
                removals[|old(removals)|] == Removal(old(jobs[u]).id, u, old(jobs[u]).kind, result)
      decreases |jobs|, 2
    {
      ghost var s, o := Sched(jobs, deferred, rewritten), Output(removals, triggered);
      assert s.jobs[u].unit == u;
      FinishJob(u, result, s, o);
      FinishedSays(deps, s, o, u, result, Sched(jobs, deferred, rewritten), Output(removals, triggered));
      FinishedDirectly(deps, s, u, result, Sched(jobs, deferred, rewritten));
    }

    method FinishJob(u: Unit, result: JobResult, ghost s: Sched, ghost o: Output)
      requires Linked(jobs, index, runQueue) && u in jobs
      requires s == Sched(jobs, deferred, rewritten) && o == Output(removals, triggered)
      modifies `jobs, `index, `runQueue, `nFailed, `removals, `triggered, `deferred, `rewritten
      ensures Linked(jobs, index, runQueue)
      ensures FinishedAndAnnounced(deps, s, o, u, result, Sched(jobs, deferred, rewritten), Output(removals, triggered))
      ensures |jobs| <= old(|jobs|)
      ensures nFailed == old(nFailed) + if result.Failed? then 1 else 0
      decreases |jobs|, 1
    {
      if result.Done? && RestartLike(jobs[u].kind) {
        ConvertToStart(u);
      } else {
        if result.Failed? {
          nFailed := nFailed + 1;
        }
        FreeAndFail(u, result, s, o);
        Conclude(u, result, s, o);
      }
    }

    // ---------- recorded operations ----------

    /** The manager is consistent, and its history is a run that ends in the present state. */
    ghost predicate Valid()
      reads this
    {
      Linked(jobs, index, runQueue) && Logged(deps, log, Sched(jobs, deferred, rewritten), runQueue)
    }

    ghost method Record(s: Sched, q: seq<Unit>, step: Step)
      requires Logged(deps, log, s, q) && Next(deps, s, step, Sched(jobs, deferred, rewritten))
      modifies `log
      ensures Logged(deps, log, Sched(jobs, deferred, rewritten), runQueue)
      ensures log == Grown(old(log), step, Sched(jobs, deferred, rewritten), runQueue) && Continues(old(log), log)
      ensures log.states[|log.steps| - 1] == s
    {
      LogGrows(deps, log, s, q, step, Sched(jobs, deferred, rewritten), runQueue);
      log := Grown(log, step, Sched(jobs, deferred, rewritten), runQueue);
    }

    /** Installs a job. One that the unit carries already is replaced. The history starts anew. */
    method Install(id: JobId, u: Unit, kind: JobType, override: bool, ignoreOrder: bool)
      requires Valid() && id !in index
      modifies this
      ensures Valid() && log.steps == []
      ensures old(log.steps == [] && Fresh(log.states[0])) ==> Fresh(log.states[0])
      ensures var s := Installed(old(Sched(jobs, deferred, rewritten)), u,
                                 Job(id, u, kind, Waiting, override, ignoreOrder, true));
              jobs == s.jobs && deferred == s.deferred && rewritten == s.rewritten
      ensures runQueue == [u] + Without(old(runQueue), u)
      ensures removals == old(removals) + if u in old(jobs) then [RemovalOf(old(jobs)[u], Done)] else []
    {
      ghost var s, fresh0 := Sched(jobs, deferred, rewritten), log.steps == [] && Fresh(log.states[0]);
      var j := Job(id, u, kind, Waiting, override, ignoreOrder, true);
      MakeRoom(u);
      Enter(j);
      assert jobs == s.jobs[u := j];
      LogStarts(deps, Installed(s, u, j), runQueue);
      if fresh0 {
        InstalledKeepsFresh(s, u, j);
      }
      log := Log([Installed(s, u, j)], [], [runQueue]);
    }

    /** Frees the job that the unit carries, if any. */
    method MakeRoom(u: Unit)
      requires Linked(jobs, index, runQueue)
      modifies `jobs, `index, `runQueue, `removals, `deferred, `rewritten
      ensures Linked(jobs, index, runQueue)
      ensures jobs == old(jobs) - {u} && index.Keys <= old(index).Keys && runQueue == Without(old(runQueue), u)
      ensures removals == old(removals) + if u in old(jobs) then [RemovalOf(old(jobs)[u], Done)] else []
      ensures deferred == old(deferred) - {u} && rewritten == old(rewritten) - {u}
    {
      if u in jobs {
        Free(u, Done);
      } else {
        WithoutAbsent(runQueue, u);
        assert jobs - {u} == jobs;
        deferred, rewritten := deferred - {u}, rewritten - {u};
      }
    }

    /** Enters a job into table, index and run queue. */
    method Enter(j: Job)
      requires Linked(jobs, index, runQueue) && j.unit !in jobs && j.id !in index && j.inRunQueue
      modifies `jobs, `index, `runQueue
      ensures Linked(jobs, index, runQueue)
      ensures jobs == old(jobs)[j.unit := j] && index == old(index)[j.id := j.unit]
      ensures runQueue == [j.unit] + old(runQueue)
    {
      assert j.unit !in runQueue;
      IndexedAdd(jobs, index, j.unit, j);
      jobs := jobs[j.unit := j];
      index := index[j.id := j.unit];
      runQueue := [j.unit] + runQueue;
    }

    /** Finishes a job for a reason outside the engine: its unit changed state. */
    method Finish(u: Unit, result: JobResult)
      requires Valid() && u in jobs
      modifies this
      ensures Valid()
      ensures FinishedAndAnnounced(deps, old(Sched(jobs, deferred, rewritten)), old(Output(removals, triggered)),
                                   u, result,
                                   Sched(jobs, deferred, rewritten), Output(removals, triggered))
      ensures log == Grown(old(log), Step.Finish(u, result), Sched(jobs, deferred, rewritten), runQueue)
      ensures Continues(old(log), log)
      ensures nFailed == old(nFailed) + if result.Failed? then 1 else 0
    {
      ghost var s, q := Sched(jobs, deferred, rewritten), runQueue;
      FinishAndInvalidate(u, result);
      Record(s, q, Step.Finish(u, result));
    }

    /** The same, with what it means for the progress of the batch. */
    method Complete(u: Unit, result: JobResult)
      requires Valid() && u in jobs
      modifies this
      ensures Valid() && Continues(old(log), log)
      ensures log.steps == old(log.steps) + [Step.Finish(u, result)]
      ensures Weight(jobs) < Weight(old(jobs))
    {
      ghost var s := Sched(jobs, deferred, rewritten);
      Finish(u, result);
      FinishedLowersWeight(deps, s, u, result, Sched(jobs, deferred, rewritten));
    }

    method TimerEvent(u: Unit)
      requires Valid() && u in jobs
      modifies this
      ensures Valid() && Continues(old(log), log)
      ensures log.steps == old(log.steps) + [Step.Finish(u, Timeout)]
      ensures u !in jobs
    {
      Finish(u, Timeout);
    }

    /** What a state change of a unit does to its job, if it has one. */
    method Deliver(e: Event)
      requires Valid()
      modifies this
      ensures Valid() && Continues(old(log), log)
      ensures log.steps == old(log.steps) + EventSteps(old(jobs), e)
      ensures e.unit in old(jobs) && old(jobs)[e.unit].state.Waiting? ==>
                |log.steps| > |old(log.steps)| && log.steps[|old(log.steps)|] == Requeue(e.unit)
      ensures e.unit in old(jobs) ==>
                var j := old(jobs)[e.unit];
                match NotifyResult(j.kind, j.state, e.now, e.reloadOk)
                case Some(result) =>
                  |log.steps| > |old(log.steps)| && log.steps[|log.steps| - 1] == Step.Finish(e.unit, result)
                case None => jobs.Keys == old(jobs.Keys)
    {
      var u := e.unit;
      if u !in jobs {
        assert log.steps + [] == log.steps;
        return;
      }
      ghost var log0 := log;
      if jobs[u].state.Waiting? {
        Retry(u);
      }
      ghost var log1 := log;
      match NotifyResult(jobs[u].kind, jobs[u].state, e.now, e.reloadOk)
      case Some(result) =>
        Complete(u, result);
        ContinuesJoins(log0, log1, log);
      case None =>
    }

    /** Puts a waiting job on the run queue, since its unit has changed. */
    method Retry(u: Unit)
      requires Valid() && u in jobs
      modifies this
      ensures Valid() && Continues(old(log), log) && log.steps == old(log.steps) + [Requeue(u)]
      ensures jobs == old(jobs)[u := old(jobs[u]).(inRunQueue := true)]
    {
      ghost var s, q := Sched(jobs, deferred, rewritten), runQueue;
      AddToRunQueue(u);
      Record(s, q, Requeue(u));
    }

    method IsRunnable(u: Unit) returns (b: bool)
      requires u in jobs
      ensures b <==> Runnable(deps, jobs, u)
      ensures var kind := jobs[u].kind;
              b <==>
              || jobs[u].ignoreOrder
              || (&& (kind.Start? || kind.VerifyActive? || kind.Reload? || kind.ReloadOrStart? ==>
                        forall a :: a in Of(deps.after, u) ==> a !in jobs)
                  && forall a :: a in Of(deps.before, u) && a in jobs ==>
                       !jobs[a].kind.Stop? && !jobs[a].kind.Restart? && !jobs[a].kind.TryRestart?)
    {
      if jobs[u].ignoreOrder {
        return true;
      }
      if Positive(jobs[u].kind) {
        var after := Of(deps.after, u);
        for n := 0 to |after|
          invariant forall k :: 0 <= k < n ==> after[k] !in jobs
        {
          if after[n] in jobs {
            return false;
          }
        }
      }
      var before := Of(deps.before, u);
      for n := 0 to |before|
        invariant forall k :: 0 <= k < n && before[k] in jobs ==> !Negative(jobs[before[k]].kind)
      {
        if before[n] in jobs && Negative(jobs[before[n]].kind) {
          return false;
        }
      }
      return true;
    }

    method MayStart(u: Unit) returns (b: bool)
      requires u in jobs
      ensures b <==> jobs[u].state.Waiting? && Runnable(deps, jobs, u)
    {
      b := jobs[u].state.Waiting?;
      if b {
        b := IsRunnable(u);
      }
    }

    method MarkRunning(u: Unit, active: ActiveState)
      requires Linked(jobs, index, runQueue) && u in jobs
      modifies `jobs, `rewritten
      ensures Linked(jobs, index, runQueue)
      ensures jobs == old(jobs)[u := old(jobs[u]).(state := Running, kind := Rewrite(old(jobs[u]).kind, active))]
      ensures rewritten == if RewritesToStart(old(jobs[u]).kind, active) then old(rewritten) + {u} else old(rewritten)
    {
      var kind := Rewrite(jobs[u].kind, active);
      IndexedPatch(jobs, index, u, jobs[u].(state := Running, kind := kind));
      rewritten := if RewritesToStart(jobs[u].kind, active) then rewritten + {u} else rewritten;
      jobs := jobs[u := jobs[u].(state := Running, kind := kind)];
    }

    /** Takes a job off the run queue and, if it waits and may run, marks it running and gives it
        the type that the state of its unit calls for. */
    method StartIfRunnable(u: Unit, active: ActiveState) returns (started: bool)
      requires Linked(jobs, index, runQueue) && u in jobs
      modifies `jobs, `runQueue, `deferred, `rewritten
      ensures Linked(jobs, index, runQueue)
      ensures started <==> old(jobs[u]).state.Waiting? && Runnable(deps, old(jobs), u)
      ensures Sched(jobs, deferred, rewritten) == Begun(deps, old(Sched(jobs, deferred, rewritten)), u, active)
      ensures runQueue == Without(old(runQueue), u)
    {
      ghost var s := Sched(jobs, deferred, rewritten);
      LeaveRunQueue(u);
      deferred := deferred - {u};
      started := MayStart(u);
      RunnableIgnoresQueue(deps, s.jobs, u);
      if started {
        MarkRunning(u, active);
        assert jobs == s.jobs[u := s.jobs[u].(inRunQueue := false, state := Running,
                                              kind := Rewrite(s.jobs[u].kind, active))];
      }
    }

    method BeginRun(u: Unit, active: ActiveState) returns (started: bool)
      requires Valid() && u in jobs
      modifies this
      ensures Valid() && u in jobs && Continues(old(log), log)
      ensures started <==> old(jobs[u]).state.Waiting? && Runnable(deps, old(jobs), u)
      ensures !started ==> jobs[u].state == old(jobs[u]).state
      ensures started ==> jobs[u].kind == Rewrite(old(jobs[u]).kind, active)
      ensures log.steps == old(log.steps) + [Begin(u, active)]
      ensures runQueue == Without(old(runQueue), u)
      ensures jobs[u].id == old(jobs[u]).id
    {
      ghost var s, q := Sched(jobs, deferred, rewritten), runQueue;
      started := StartIfRunnable(u, active);
      Record(s, q, Begin(u, active));
    }

    /** Judges a run by the result of the unit operation, if the job is still there. What is returned
        is that result, unless it finished the job. */
    method SettleJob(u: Unit, id: JobId, code: Code) returns (r: Code)
      requires Linked(jobs, index, runQueue)
      modifies `jobs, `index, `runQueue, `nFailed, `removals, `triggered, `deferred, `rewritten
      ensures Linked(jobs, index, runQueue)
      ensures r == Returned(old(jobs), u, id, code)
      ensures r == if old(u in jobs && jobs[u].id == id) && !code.EAgain? then Ok else code
      ensures code.EAgain? ==> runQueue == old(runQueue)
      ensures old(u in jobs && jobs[u].id == id) && !code.Ok? && !code.EAgain? ==>
                Finished(deps, old(Sched(jobs, deferred, rewritten)), u,
                         if code.EAlready? then Done else if code.ENoExec? then Skipped else Failed,
                         Sched(jobs, deferred, rewritten))
      ensures Next(deps, old(Sched(jobs, deferred, rewritten)), End(u, id, code), Sched(jobs, deferred, rewritten))
    {
      r := code;
      if id in index && index[id] == u {
        assert jobs[index[id]].id == id;
        if code.EAgain? {
          IndexedPatch(jobs, index, u, jobs[u].(state := Waiting));
          jobs := jobs[u := jobs[u].(state := Waiting)];
          deferred := deferred + {u};
        } else if !code.Ok? {
          FinishAndInvalidate(u, ResultOf(code));
          r := Ok;
        }
      } else {
        assert u in jobs ==> jobs[u].id in index && index[jobs[u].id] == u;
      }
    }

    /** The same, as one recorded step. */
    method EndRun(u: Unit, id: JobId, code: Code) returns (r: Code)
      requires Valid()
      modifies this
      ensures Valid() && Continues(old(log), log)
      ensures log.steps == old(log.steps) + [End(u, id, code)]
      ensures r == Returned(log.states[|log.steps| - 1].jobs, u, id, code)
      ensures code.EAgain? ==> runQueue == old(runQueue)
    {
      ghost var s, q := Sched(jobs, deferred, rewritten), runQueue;
      r := SettleJob(u, id, code);
      Record(s, q, End(u, id, code));
    }

    method DeliverAll(events: seq<Event>)
      requires Valid()
      modifies this
      ensures Valid() && Continues(old(log), log)
      ensures Notified(log, |old(log.steps)|, |log.steps|, events, 0, |events|)
      ensures events == [] ==> jobs == old(jobs) && runQueue == old(runQueue)
    {
      for n := 0 to |events|
        invariant n == 0 ==> jobs == old(jobs) && runQueue == old(runQueue)
        invariant Valid() && Continues(old(log), log)
        invariant Notified(log, |old(log.steps)|, |log.steps|, events, 0, n)
      {
        ghost var log1 := log;
        Deliver(events[n]);
        ContinuesJoins(old(log), log1, log);
        DeliveredMore(log1, log, |old(log.steps)|, events, n);
      }
    }

    /** Lets the unit operation of a job that was just started proceed, with all the notifications
        it causes, and judges the result. */
    method Operate(u: Unit, id: JobId, kind: JobType, op: Operation) returns (r: Code)
      requires Valid()
      modifies this
      ensures Valid() && Continues(old(log), log) && |log.steps| > |old(log.steps)|
      ensures Notified(log, |old(log.steps)|, |log.steps| - 1, op.events, 0, |op.events|)
      ensures var code := Settle(kind, op.active, op.raw);
              && log.steps[|log.steps| - 1] == End(u, id, code)
              && r == Returned(log.states[|log.steps| - 1].jobs, u, id, code)
      ensures Settle(kind, op.active, op.raw).EAgain? && op.events == [] ==> runQueue == old(runQueue)
    {
      ghost var log0 := log;
      DeliverAll(op.events);
      ghost var log1 := log;
      r := EndRun(u, id, Settle(kind, op.active, op.raw));
      ContinuesJoins(log0, log1, log);
      NotifiedGrows(log1, log, |log0.steps|, |log1.steps|, op.events, 0, |op.events|);
    }

    /** Runs a job, if it may run. */
    method RunJob(u: Unit, op: Operation) returns (r: Code, call: Call, ghost started: bool)
      requires Valid() && u in jobs
      modifies this
      ensures Valid() && Continues(old(log), log)
      ensures Stretch(deps, log, |old(log.steps)|, |log.steps|, u, op)
      ensures started <==> old(jobs[u]).state.Waiting? && Runnable(deps, old(jobs), u)
      ensures call == if started then CallOf(old(jobs[u]).kind, op.active) else NoCall
      ensures !started ==> r == if old(jobs[u]).state.Waiting? then EAgain else Ok
      ensures started ==>
                r == Returned(log.states[|log.steps| - 1].jobs, u, old(jobs[u]).id,
                              Settle(old(jobs[u]).kind, op.active, op.raw))
      ensures !started || (Settle(old(jobs[u]).kind, op.active, op.raw).EAgain? && op.events == []) ==>
                runQueue == Without(old(runQueue), u)
      ensures |log.states| > |old(log.steps)| + 1
      ensures started ==> KindAt(log, |old(log.steps)| + 1, u) == Some(Rewrite(old(jobs[u]).kind, op.active))
    {
      var id, kind := jobs[u].id, jobs[u].kind;
      ghost var log0, s, q := log, Sched(jobs, deferred, rewritten), runQueue;
      var may := BeginRun(u, op.active);
      started, call := may, if may then CallOf(kind, op.active) else NoCall;
      if !may {
        StretchOfNothing(deps, log0, log, s, q, u, op);
        r := if jobs[u].state.Waiting? then EAgain else Ok;
        return;
      }
      ghost var log1 := log;
      assert KindAt(log1, |log1.steps|, u) == Some(jobs[u].kind);
      r := Operate(u, id, kind, op);
      StretchOfRun(deps, log0, log1, log, s, q, u, op);
      ContinuesAt(log1, log, |log1.steps|);
    }

    /** The same. This brings the batch closer to its end, unless the unit asks for a retry and notifies
        others at the same time. */
    method RunAndInvalidate(u: Unit, op: Operation) returns (r: Code, call: Call, ghost started: bool)
      requires Valid() && u in jobs
      modifies this
      ensures Valid() && Continues(old(log), log)
      ensures Stretch(deps, log, |old(log.steps)|, |log.steps|, u, op)
      ensures started <==> old(jobs[u]).state.Waiting? && Runnable(deps, old(jobs), u)
      ensures call == if started then CallOf(old(jobs[u]).kind, op.active) else NoCall
      ensures !started ==> r == if old(jobs[u]).state.Waiting? then EAgain else Ok
      ensures started ==>
                r == Returned(log.states[|log.steps| - 1].jobs, u, old(jobs[u]).id,
                              Settle(old(jobs[u]).kind, op.active, op.raw))
      ensures started ==>
                ActsOn(old(jobs[u]).kind, op.active, call, KindAt(log, |old(log.steps)| + 1, u),
                       log.steps[|log.steps| - 1])
      ensures var retry := Settle(old(jobs[u]).kind, op.active, op.raw).EAgain?;
              && (!retry && NoRetries(old(log.steps)) ==> NoRetries(log.steps))
              && (!retry || op.events == [] ==> Nearer(old(jobs), old(runQueue), u, jobs, runQueue))
    {
      ghost var a := |log.steps|;
      r, call, started := RunJob(u, op);
      ContinuesAt(old(log), log, a);
      RunFollowsUnitState(old(jobs[u]).kind, op.active, op.raw);
      StretchMeasure(deps, log, a, |log.steps|, u, op);
      if !Settle(old(jobs[u]).kind, op.active, op.raw).EAgain? && NoRetries(old(log.steps)) {
        StretchNoRetries(deps, old(log), log, u, op);
      }
    }

    /** Runs jobs until the run queue is empty, whatever the units do. If `retries`, they may also ask
        for a retry, as long as they do not notify others in the same breath. */
    method DispatchRunQueue(retries: bool) returns (n: nat, ghost cuts: seq<nat>, ghost ops: seq<Operation>)
      requires Valid()
      modifies this
      ensures Valid() && Continues(old(log), log) && runQueue == []
      ensures Dispatched(deps, log, cuts, ops) && |ops| == n
      ensures cuts[0] == |old(log.steps)| && cuts[n] == |log.steps|
      ensures !retries && NoRetries(old(log.steps)) ==> NoRetries(log.steps)
      ensures Weight(jobs) <= Weight(old(jobs))
    {
      n, cuts, ops := 0, [|log.steps|], [];
      while |runQueue| > 0
        invariant Valid() && Continues(old(log), log)
        invariant Dispatched(deps, log, cuts, ops) && |ops| == n
        invariant cuts[0] == |old(log.steps)| && cuts[n] == |log.steps|
        invariant !retries && NoRetries(old(log.steps)) ==> NoRetries(log.steps)
        invariant Weight(jobs) <= Weight(old(jobs))
        decreases Weight(jobs), WaitingUnits(jobs), |runQueue|
      {
        ghost var log1 := log;
        cuts, ops := DispatchOne(retries, cuts, ops);
        ContinuesJoins(old(log), log1, log);
        n := n + 1;
      }
    }

    /** Runs the first job of the run queue. */
    method DispatchOne(retries: bool, ghost cuts: seq<nat>, ghost ops: seq<Operation>)
      returns (ghost cuts': seq<nat>, ghost ops': seq<Operation>)
      requires Valid() && runQueue != [] && Dispatched(deps, log, cuts, ops) && cuts[|ops|] == |log.steps|
      modifies this
      ensures Valid() && Continues(old(log), log) && Dispatched(deps, log, cuts', ops')
      ensures |ops'| == |ops| + 1 && cuts'[0] == cuts[0] && cuts'[|ops'|] == |log.steps|
      ensures !retries && NoRetries(old(log.steps)) ==> NoRetries(log.steps)
      ensures Nearer(old(jobs), old(runQueue), old(runQueue)[0], jobs, runQueue)
    {
      ghost var u, log0 := runQueue[0], log;
      ghost var op := RunHead(retries);
      ContinuesAt(log0, log, |log0.steps|);
      DispatchedMore(deps, log0, log, cuts, ops, u, op);
      cuts', ops' := cuts + [|log.steps|], ops + [op];
    }

    method RunHead(retries: bool) returns (ghost op: Operation)
      requires Valid() && runQueue != []
      modifies this
      ensures Valid() && Continues(old(log), log)
      ensures Stretch(deps, log, |old(log.steps)|, |log.steps|, old(runQueue)[0], op)
      ensures !retries && NoRetries(old(log.steps)) ==> NoRetries(log.steps)
      ensures Nearer(old(jobs), old(runQueue), old(runQueue)[0], jobs, runQueue)
    {
      var u := runQueue[0];
      assert u in runQueue;
      var world: Operation := *;
      if Settle(jobs[u].kind, world.active, world.raw).EAgain? {
        world := if retries then world.(events := []) else world.(active := Active, raw := Ok);
      }
      op := world;
      var _, _, _ := RunAndInvalidate(u, world);
    }

    /** Once the run queue is empty, some job that is left is running; it finishes somehow. */
    method FinishSome()
      requires Valid() && Fresh(log.states[0]) && NoRetries(log.steps) && runQueue == [] && jobs != map[]
      requires Inverse(deps) && Acyclic(deps, log.states[0].jobs.Keys)
      modifies this
      ensures Valid() && Continues(old(log), log) && NoRetries(log.steps)
      ensures |log.steps| == |old(log.steps)| + 1 && FinishesRunning(log, |old(log.steps)|)
      ensures Weight(jobs) < Weight(old(jobs))
    {
      BatchDrains(deps, log.states, log.steps, |log.steps|);
      assert forall u :: u in jobs && jobs[u].inRunQueue ==> u in runQueue;
      var u :| u in jobs && jobs[u].state.Running?;
      var result: JobResult := *;
      Complete(u, result);
      ContinuesAt(old(log), log, |old(log.steps)|);
    }

    /** The whole life of a batch: the run queue is dispatched, then some running job finishes in
        whatever way, and so on. The batch always comes to its end, after at most as many finishes
        as it has jobs and restart jobs. */
    method RunBatch() returns (ghost rounds: seq<Round>)
      requires Valid() && log.steps == [] && Fresh(log.states[0])
      requires Inverse(deps) && Acyclic(deps, jobs.Keys)
      modifies this
      ensures Valid() && jobs == map[] && index == map[]
      ensures log.states[0] == old(log.states[0]) && NoRetries(log.steps)
      ensures BatchRun(deps, log, rounds)
      ensures Completions(log.states, log.steps, |log.steps|) <= |old(jobs).Keys| + |RestartUnits(old(jobs))|
    {
      rounds := [Round([0], [])];
      while jobs != map[]
        invariant Valid() && Continues(old(log), log) && NoRetries(log.steps)
        invariant BatchRun(deps, log, rounds) && (jobs != map[] ==> rounds[|rounds| - 1].ops == [])
        decreases Weight(jobs)
      {
        ContinuesAt(old(log), log, 0);
        ghost var log1 := log;
        rounds := OneRound(rounds);
        ContinuesJoins(old(log), log1, log);
      }
      ContinuesAt(old(log), log, 0);
      EmptyIndex(jobs, index, runQueue);
      FewCompletions(deps, log.states, log.steps, |log.steps|);
    }

    method OneRound(ghost rounds: seq<Round>) returns (ghost rounds': seq<Round>)
      requires Valid() && Fresh(log.states[0]) && NoRetries(log.steps) && jobs != map[]
      requires Inverse(deps) && Acyclic(deps, log.states[0].jobs.Keys)
      requires BatchRun(deps, log, rounds) && rounds[|rounds| - 1].ops == []
      modifies this
      ensures Valid() && Continues(old(log), log) && NoRetries(log.steps)
      ensures BatchRun(deps, log, rounds') && (jobs != map[] ==> rounds'[|rounds'| - 1].ops == [])
      ensures Weight(jobs) < Weight(old(jobs))
    {
      var n;
      ghost var cuts, ops;
      n, cuts, ops := DispatchRunQueue(false);
      ghost var log1 := log;
      BatchDispatches(deps, old(log), log, rounds, Round(cuts, ops));
      rounds' := rounds[|rounds| - 1 := Round(cuts, ops)];
      if jobs != map[] {
        ContinuesAt(old(log), log, 0);
        FinishSome();
        ContinuesJoins(old(log), log1, log);
        BatchFinishes(deps, log1, log, rounds');
        rounds' := rounds' + [Round([|log.steps|], [])];
      }
    }
  }
}
