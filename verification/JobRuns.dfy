/** What holds over whole runs of the job engine (src/job.c). */
module JobRuns {
  import opened Collections
  import opened JobTypes
  import opened JobOrder
  import opened JobSteps

  lemma {:induction false} RunKeepsInv(d: Deps, ss: seq<Sched>, steps: seq<Step>, n: nat)
    requires Inverse(d) && Run(d, ss, steps) && Fresh(ss[0]) && n < |ss|
    ensures Inv(d, ss[n])
  {
    if n == 0 {
      FreshInv(d, ss[0]);
    } else {
      RunKeepsInv(d, ss, steps, n - 1);
      StepOf(d, ss, steps, n - 1);
      NextKeepsInv(d, ss[n - 1], steps[n - 1], ss[n]);
    }
  }

  /** No lost wake-ups: in every state of every run of a fresh batch, a waiting job that may run is
      queued, or deferred, or is before a unit whose job was rewritten in place and is unfinished. */
  lemma NoWakeupIsLost(d: Deps, ss: seq<Sched>, steps: seq<Step>, n: nat, u: Unit)
    requires Inverse(d) && Run(d, ss, steps) && Fresh(ss[0]) && n < |ss|
    requires u in ss[n].jobs && ss[n].jobs[u].state.Waiting? && Runnable(d, ss[n].jobs, u)
    ensures || ss[n].jobs[u].inRunQueue
            || u in ss[n].deferred
            || exists v :: v in Of(d.before, u) && v in ss[n].rewritten
  {
    RunKeepsInv(d, ss, steps, n);
    assert Excused(d, ss[n], u);
  }

  /** Ordering exclusion: two jobs on ordered units run at the same time only if the job on the
      later unit was a restart that was turned into a start in place. */
  lemma OrderedJobsExclude(d: Deps, ss: seq<Sched>, steps: seq<Step>, n: nat, a: Unit, b: Unit)
    requires Inverse(d) && Run(d, ss, steps) && Fresh(ss[0]) && n < |ss|
    requires b in Of(d.before, a) && a in ss[n].jobs && b in ss[n].jobs
    ensures RunsInOrder(ss[n], a) && RunsInOrder(ss[n], b) ==> b in ss[n].rewritten
    ensures RunsInOrder(ss[n], b) && b !in ss[n].rewritten ==> Negative(ss[n].jobs[b].kind)
    ensures RunsInOrder(ss[n], a) ==> Positive(ss[n].jobs[b].kind)
  {
    RunKeepsInv(d, ss, steps, n);
  }

  ghost predicate NoRewrites(ss: seq<Sched>, steps: seq<Step>) {
    forall i :: 0 <= i < |steps| && i < |ss| && steps[i].Begin? && steps[i].u in ss[i].jobs ==>
                  !RewritesToStart(ss[i].jobs[steps[i].u].kind, steps[i].active)
  }

  lemma {:induction false} NoRewritesNoneRewritten(d: Deps, ss: seq<Sched>, steps: seq<Step>, n: nat)
    requires Run(d, ss, steps) && Fresh(ss[0]) && NoRewrites(ss, steps) && n < |ss|
    ensures ss[n].rewritten == {}
  {
    if n > 0 {
      NoRewritesNoneRewritten(d, ss, steps, n - 1);
      StepOf(d, ss, steps, n - 1);
    }
  }

  /** In a run without in-place rewrites, ordered jobs never run at the same time, a unit that runs
      while something before it still has a job is being taken down, and nothing ordered after a
      running unit is. */
  lemma NoRewritesNoOverlap(d: Deps, ss: seq<Sched>, steps: seq<Step>, n: nat, a: Unit, b: Unit)
    requires Inverse(d) && Run(d, ss, steps) && Fresh(ss[0]) && NoRewrites(ss, steps) && n < |ss|
    requires b in Of(d.before, a) && a in ss[n].jobs && b in ss[n].jobs
    ensures !(RunsInOrder(ss[n], a) && RunsInOrder(ss[n], b))
    ensures RunsInOrder(ss[n], b) ==> Negative(ss[n].jobs[b].kind)
    ensures RunsInOrder(ss[n], a) ==> Positive(ss[n].jobs[b].kind)
  {
    OrderedJobsExclude(d, ss, steps, n, a, b);
    NoRewritesNoneRewritten(d, ss, steps, n);
  }

  // ---------- when a rewrite does harm ----------

  /** The exclusion rule without the exemption for rewritten jobs. */
  ghost predicate StrictlyOrdered(d: Deps, s: Sched) {
    forall a, b :: b in Of(d.before, a) && a in s.jobs && b in s.jobs ==>
                     && (RunsInOrder(s, b) ==> Negative(s.jobs[b].kind))
                     && (RunsInOrder(s, a) ==> Positive(s.jobs[b].kind))
  }

  /** Starting a job breaks the strict rule exactly when it is a restart that is rewritten in place
      while some unit ordered before it still carries a job. */
  lemma BegunOverlapsExactlyWhen(d: Deps, s: Sched, u: Unit, active: ActiveState)
    requires Inverse(d) && StrictlyOrdered(d, s)
    requires u in s.jobs && s.jobs[u].state.Waiting? && !s.jobs[u].ignoreOrder && Runnable(d, s.jobs, u)
    ensures StrictlyOrdered(d, Begun(d, s, u, active)) <==>
            !(RewritesToStart(s.jobs[u].kind, active) && exists a :: a in Of(d.after, u) && a in s.jobs)
  {
    var s' := Begun(d, s, u, active);
    if RewritesToStart(s.jobs[u].kind, active) {
      if a :| a in Of(d.after, u) && a in s.jobs {
        assert u in Of(d.before, a);
        assert RunsInOrder(s', u) && a in s'.jobs;
        assert !StrictlyOrdered(d, s');
      }
    }
  }

  /** The wake-up rule without the exemption for rewritten neighbours. */
  ghost predicate StrictlyWoken(d: Deps, s: Sched) {
    forall u :: u in s.jobs && s.jobs[u].state.Waiting? && Runnable(d, s.jobs, u) ==>
                  s.jobs[u].inRunQueue || u in s.deferred
  }

  /** The job on `v` waits off the queue, and the job on `u` is all it waits for. */
  ghost predicate SleepsOnlyOn(d: Deps, s: Sched, v: Unit, u: Unit) {
    && v in s.jobs && v != u && s.jobs[v].state.Waiting? && !s.jobs[v].inRunQueue && v !in s.deferred
    && u in Of(d.before, v)
    && (Positive(s.jobs[v].kind) ==> forall a :: a in Of(d.after, v) ==> a !in s.jobs)
    && forall b :: b in Of(d.before, v) && b in s.jobs && b != u ==> !Negative(s.jobs[b].kind)
  }

  /** Starting a job loses a wake-up exactly when it is a restart that is rewritten in place while a
      unit ordered before it sleeps on this job alone. */
  lemma BegunLosesWakeupExactlyWhen(d: Deps, s: Sched, u: Unit, active: ActiveState)
    requires StrictlyWoken(d, s)
    requires u in s.jobs && s.jobs[u].state.Waiting? && Runnable(d, s.jobs, u)
    ensures StrictlyWoken(d, Begun(d, s, u, active)) <==>
            !(RewritesToStart(s.jobs[u].kind, active) && exists v :: SleepsOnlyOn(d, s, v, u))
  {
    var s' := Begun(d, s, u, active);
    forall v | v in s'.jobs && s'.jobs[v].state.Waiting? && Runnable(d, s'.jobs, v)
      ensures s'.jobs[v].inRunQueue || v in s'.deferred
              || (RewritesToStart(s.jobs[u].kind, active) && SleepsOnlyOn(d, s, v, u))
    {
      if !(u in Of(d.before, v) && RewritesToStart(s.jobs[u].kind, active)) {
        RunnableIsLocal(d, s.jobs, s'.jobs, v);
      } else if !Runnable(d, s.jobs, v) {
        assert !s.jobs[v].ignoreOrder;
        assert s'.jobs.Keys == s.jobs.Keys;
        assert forall b :: b in s.jobs && b != u ==> s'.jobs[b] == s.jobs[b];
      }
    }
    if RewritesToStart(s.jobs[u].kind, active) {
      if v :| SleepsOnlyOn(d, s, v, u) {
        assert s'.jobs.Keys == s.jobs.Keys;
        assert s'.jobs[v] == s.jobs[v];
        assert Runnable(d, s'.jobs, v);
        assert !StrictlyWoken(d, s');
      }
    }
  }

  /** The step starts a job that is subject to the order, and rewrites it in place while a unit before
      it carries a job. */
  ghost predicate OverlappingRewrite(d: Deps, s: Sched, step: Step) {
    && step.Begin? && step.u in s.jobs
    && s.jobs[step.u].state.Waiting? && !s.jobs[step.u].ignoreOrder && Runnable(d, s.jobs, step.u)
    && RewritesToStart(s.jobs[step.u].kind, step.active)
    && exists a :: a in Of(d.after, step.u) && a in s.jobs
  }

  /** The step starts a job and rewrites it in place while another sleeps on it alone. */
  ghost predicate StrandingRewrite(d: Deps, s: Sched, step: Step) {
    && step.Begin? && step.u in s.jobs
    && s.jobs[step.u].state.Waiting? && Runnable(d, s.jobs, step.u)
    && RewritesToStart(s.jobs[step.u].kind, step.active)
    && exists v :: SleepsOnlyOn(d, s, v, step.u)
  }

  lemma NextOverlapsExactlyWhen(d: Deps, s: Sched, step: Step, s': Sched)
    requires Inverse(d) && StrictlyOrdered(d, s) && Next(d, s, step, s')
    ensures StrictlyOrdered(d, s') <==> !OverlappingRewrite(d, s, step)
  {
    match step
    case Begin(u, active) =>
      if s.jobs[u].state.Waiting? && !s.jobs[u].ignoreOrder && Runnable(d, s.jobs, u) {
        BegunOverlapsExactlyWhen(d, s, u, active);
      } else {
        UnorderedBeginKeepsOrder(d, s, u, active);
      }
    case End(u, id, code) =>
      if StillThere(s, u, id) && Settles(code) {
        FinishedKeepsStrictOrder(d, s, u, ResultOf(code), s');
      }
    case Finish(u, result) =>
      FinishedKeepsStrictOrder(d, s, u, result, s');
    case Requeue(u) =>
  }

  /** No job comes to run, and none that brings a unit up turns into another. */
  lemma StrictOrderInherited(d: Deps, s: Sched, s': Sched)
    requires StrictlyOrdered(d, s)
    requires forall v :: v in s'.jobs ==> v in s.jobs && (Positive(s.jobs[v].kind) ==> Positive(s'.jobs[v].kind))
    requires forall v :: RunsInOrder(s', v) ==> RunsInOrder(s, v) && s'.jobs[v].kind == s.jobs[v].kind
    ensures StrictlyOrdered(d, s')
  {
    forall a, b | b in Of(d.before, a) && a in s'.jobs && b in s'.jobs
      ensures RunsInOrder(s', b) ==> Negative(s'.jobs[b].kind)
      ensures RunsInOrder(s', a) ==> Positive(s'.jobs[b].kind)
    {
      assert a in s.jobs && b in s.jobs;
    }
  }

  lemma UnorderedBeginKeepsOrder(d: Deps, s: Sched, u: Unit, active: ActiveState)
    requires StrictlyOrdered(d, s) && u in s.jobs
    requires !(s.jobs[u].state.Waiting? && !s.jobs[u].ignoreOrder && Runnable(d, s.jobs, u))
    ensures StrictlyOrdered(d, Begun(d, s, u, active))
  {
    var s' := Begun(d, s, u, active);
    assert forall v :: v in s'.jobs && v != u ==> v in s.jobs && s'.jobs[v] == s.jobs[v];
    StrictOrderInherited(d, s, s');
  }

  lemma FinishedKeepsStrictOrder(d: Deps, s: Sched, u: Unit, result: JobResult, s': Sched)
    requires u in s.jobs && StrictlyOrdered(d, s) && Finished(d, s, u, result, s')
    ensures StrictlyOrdered(d, s')
  {
    forall v | v in s'.jobs
      ensures v in s.jobs && (Positive(s.jobs[v].kind) ==> Positive(s'.jobs[v].kind))
      ensures s'.jobs[v].state.Running? ==> s'.jobs[v] == s.jobs[v].(inRunQueue := s'.jobs[v].inRunQueue)
    {
    }
    StrictOrderInherited(d, s, s');
  }

  lemma NextStrandsExactlyWhen(d: Deps, s: Sched, step: Step, s': Sched)
    requires Inverse(d) && StrictlyWoken(d, s) && Next(d, s, step, s')
    ensures StrictlyWoken(d, s') <==> !StrandingRewrite(d, s, step)
  {
    match step
    case Begin(u, active) =>
      if s.jobs[u].state.Waiting? && Runnable(d, s.jobs, u) {
        BegunLosesWakeupExactlyWhen(d, s, u, active);
      } else {
        QueueingKeepsWoken(d, s, s', u);
      }
    case End(u, id, code) =>
      if StillThere(s, u, id) && code.EAgain? {
        QueueingKeepsWoken(d, s, s', u);
      } else if StillThere(s, u, id) && !code.Ok? {
        FinishedKeepsWoken(d, s, u, ResultOf(code), s');
      }
    case Finish(u, result) =>
      FinishedKeepsWoken(d, s, u, result, s');
    case Requeue(u) =>
      QueueingKeepsWoken(d, s, s', u);
  }

  /** Only state and queueing of the job on `u` change, and it is queued, deferred or not runnable. */
  lemma QueueingKeepsWoken(d: Deps, s: Sched, s': Sched, u: Unit)
    requires StrictlyWoken(d, s) && u in s.jobs && s'.jobs.Keys == s.jobs.Keys
    requires forall v :: v in s.jobs && v != u ==> s'.jobs[v] == s.jobs[v] && (v in s.deferred ==> v in s'.deferred)
    requires s'.jobs[u] == s.jobs[u].(state := s'.jobs[u].state, inRunQueue := s'.jobs[u].inRunQueue)
    requires s'.jobs[u].state.Waiting? && Runnable(d, s.jobs, u) ==> s'.jobs[u].inRunQueue || u in s'.deferred
    ensures StrictlyWoken(d, s')
  {
    forall v | v in s'.jobs && s'.jobs[v].state.Waiting? && Runnable(d, s'.jobs, v)
      ensures s'.jobs[v].inRunQueue || v in s'.deferred
    {
      RunnableIsLocal(d, s.jobs, s'.jobs, v);
    }
  }

  lemma FinishedKeepsWoken(d: Deps, s: Sched, u: Unit, result: JobResult, s': Sched)
    requires Inverse(d) && u in s.jobs && StrictlyWoken(d, s) && Finished(d, s, u, result, s')
    ensures StrictlyWoken(d, s')
  {
    var gone := if Converts(s.jobs[u], result) then {u} else s.jobs.Keys - s'.jobs.Keys;
    forall v | v in s'.jobs && s'.jobs[v].state.Waiting? && Runnable(d, s'.jobs, v)
      ensures s'.jobs[v].inRunQueue || v in s'.deferred
    {
      if !Touched(d, gone, v) && v !in gone {
        forall w | Adjacent(d, v, w) ensures w !in gone {
          AdjacentSymmetric(d, v, w);
        }
        assert forall w :: w in Of(d.before, v) ==> Adjacent(d, v, w);
        RunnableIsLocal(d, s.jobs, s'.jobs, v);
      }
    }
  }

  /** Over whole runs: no two jobs on ordered units ever get in each other's way, up to state `n`, exactly
      if no job was rewritten in place while a unit before it carried a job. */
  lemma {:induction false} RunOverlapsExactlyWhen(d: Deps, ss: seq<Sched>, steps: seq<Step>, n: nat)
    requires Inverse(d) && Run(d, ss, steps) && Fresh(ss[0]) && n < |ss|
    ensures (forall i :: 0 <= i <= n ==> StrictlyOrdered(d, ss[i])) <==>
            forall i :: 0 <= i < n ==> !OverlappingRewrite(d, ss[i], steps[i])
  {
    if n > 0 {
      RunOverlapsExactlyWhen(d, ss, steps, n - 1);
      StepOf(d, ss, steps, n - 1);
      if StrictlyOrdered(d, ss[n - 1]) {
        NextOverlapsExactlyWhen(d, ss[n - 1], steps[n - 1], ss[n]);
      }
    }
  }

  /** And no wake-up is lost at all, up to state `n`, exactly if no job was rewritten in place while
      another slept on it alone. */
  lemma {:induction false} RunStrandsExactlyWhen(d: Deps, ss: seq<Sched>, steps: seq<Step>, n: nat)
    requires Inverse(d) && Run(d, ss, steps) && Fresh(ss[0]) && n < |ss|
    ensures (forall i :: 0 <= i <= n ==> StrictlyWoken(d, ss[i])) <==>
            forall i :: 0 <= i < n ==> !StrandingRewrite(d, ss[i], steps[i])
  {
    if n > 0 {
      RunStrandsExactlyWhen(d, ss, steps, n - 1);
      StepOf(d, ss, steps, n - 1);
      if StrictlyWoken(d, ss[n - 1]) {
        NextStrandsExactlyWhen(d, ss[n - 1], steps[n - 1], ss[n]);
      }
    }
  }

  // ---------- when ordered jobs run together ----------

  /** No two jobs on ordered units run at the same time. */
  ghost predicate NeverTogether(d: Deps, s: Sched) {
    forall a, b :: b in Of(d.before, a) && a != b ==> !(RunsInOrder(s, a) && RunsInOrder(s, b))
  }

  /** The step starts a job while a unit ordered after it runs a job that was rewritten in place. */
  ghost predicate StartsBesideRewritten(d: Deps, s: Sched, step: Step) {
    && step.Begin? && step.u in s.jobs
    && s.jobs[step.u].state.Waiting? && !s.jobs[step.u].ignoreOrder && Runnable(d, s.jobs, step.u)
    && exists b :: b in Of(d.before, step.u) && b in s.rewritten && RunsInOrder(s, b)
  }

  /** Ordered jobs come to run together exactly by such a step. */
  lemma NextTogetherExactlyWhen(d: Deps, s: Sched, step: Step, s': Sched)
    requires Inverse(d) && Inv(d, s) && NeverTogether(d, s) && Next(d, s, step, s')
    ensures NeverTogether(d, s') <==> !StartsBesideRewritten(d, s, step)
  {
    match step
    case Begin(u, active) =>
      BegunTogetherExactlyWhen(d, s, u, active);
    case End(u, id, code) =>
      OnlyFewerRun(d, s, s');
    case Finish(u, result) =>
      OnlyFewerRun(d, s, s');
    case Requeue(u) =>
      OnlyFewerRun(d, s, s');
  }

  lemma OnlyFewerRun(d: Deps, s: Sched, s': Sched)
    requires NeverTogether(d, s) && forall v :: RunsInOrder(s', v) ==> RunsInOrder(s, v)
    ensures NeverTogether(d, s')
  {
  }

  lemma BegunTogetherExactlyWhen(d: Deps, s: Sched, u: Unit, active: ActiveState)
    requires Inverse(d) && Inv(d, s) && NeverTogether(d, s) && u in s.jobs
    ensures NeverTogether(d, Begun(d, s, u, active)) <==> !StartsBesideRewritten(d, s, Begin(u, active))
  {
    var s' := Begun(d, s, u, active);
    assert forall v :: v != u ==> (RunsInOrder(s', v) <==> RunsInOrder(s, v));
    if StartsBesideRewritten(d, s, Begin(u, active)) {
      var b :| b in Of(d.before, u) && b in s.rewritten && RunsInOrder(s, b);
      assert RunsInOrder(s', u) && RunsInOrder(s', b);
    } else if !RunsInOrder(s', u) || RunsInOrder(s, u) {
      OnlyFewerRun(d, s, s');
    } else {
      assert forall b :: b in Of(d.before, u) && RunsInOrder(s, b) ==> b in s.rewritten;
      assert forall a :: u in Of(d.before, a) && RunsInOrder(s, a) ==> Positive(s.jobs[u].kind) && a in Of(d.after, u);
    }
  }

  /** Over whole runs: no two jobs on ordered units ever run at the same time, up to state `n`, exactly if
      no job was started while a unit ordered after it ran a job that was rewritten in place. */
  lemma {:induction false} RunTogetherExactlyWhen(d: Deps, ss: seq<Sched>, steps: seq<Step>, n: nat)
    requires Inverse(d) && Run(d, ss, steps) && Fresh(ss[0]) && n < |ss|
    ensures (forall i :: 0 <= i <= n ==> NeverTogether(d, ss[i])) <==>
            forall i :: 0 <= i < n ==> !StartsBesideRewritten(d, ss[i], steps[i])
  {
    if n > 0 {
      RunTogetherExactlyWhen(d, ss, steps, n - 1);
      RunKeepsInv(d, ss, steps, n - 1);
      StepOf(d, ss, steps, n - 1);
      if NeverTogether(d, ss[n - 1]) {
        NextTogetherExactlyWhen(d, ss[n - 1], steps[n - 1], ss[n]);
      }
    }
  }

  // ---------- when installing a job does harm ----------

  /** The job on `v` waits off the queue, and at most the job on `u` excuses that. */
  ghost predicate Sleeps(d: Deps, s: Sched, v: Unit, u: Unit) {
    && v in s.jobs && v != u && s.jobs[v].state.Waiting? && !s.jobs[v].inRunQueue && v !in s.deferred
    && !exists w :: w != u && w in Of(d.before, v) && w in s.rewritten
  }

  /** Replacing the job on `u` by `j` leaves the job on `v` asleep for no reason: it was all that `v`
      waited for, or the rewritten job that excused a job which ignores the order. */
  ghost predicate Strands(d: Deps, s: Sched, u: Unit, j: Job, v: Unit) {
    && u in s.jobs
    && Sleeps(d, s, v, u)
    && if s.jobs[v].ignoreOrder then u in Of(d.before, v) && u in s.rewritten
       else !Negative(j.kind) && SleepsOnlyOn(d, s, v, u)
  }

  /** Installing a job loses a wake-up exactly when it replaces one in this way; so never on a unit that
      has none. */
  lemma InstalledLosesWakeupExactlyWhen(d: Deps, s: Sched, u: Unit, j: Job)
    requires Tidy(s) && NoLostWakeup(d, s) && j.inRunQueue
    ensures NoLostWakeup(d, Installed(s, u, j)) <==> !exists v :: Strands(d, s, u, j, v)
  {
    var s' := Installed(s, u, j);
    assert forall w :: w != u && w in s.jobs ==> w in s'.jobs && s'.jobs[w] == s.jobs[w];
    forall v | v in s'.jobs && s'.jobs[v].state.Waiting? && Runnable(d, s'.jobs, v) && !Excused(d, s', v)
      ensures Strands(d, s, u, j, v)
    {
      assert v != u && v in s.jobs && Sleeps(d, s, v, u);
      if Runnable(d, s.jobs, v) {
        assert Excused(d, s, v);
      }
    }
    if v :| Strands(d, s, u, j, v) {
      assert s'.jobs[v] == s.jobs[v] && Runnable(d, s'.jobs, v) && !Excused(d, s', v);
    }
  }

  /** The same for the rule without exemption, which only a job that takes its unit down can hold up. */
  lemma InstalledStrandsExactlyWhen(d: Deps, s: Sched, u: Unit, j: Job)
    requires StrictlyWoken(d, s) && j.inRunQueue
    ensures StrictlyWoken(d, Installed(s, u, j)) <==>
            !(u in s.jobs && Negative(s.jobs[u].kind) && !Negative(j.kind) && exists v :: SleepsOnlyOn(d, s, v, u))
  {
    var s' := Installed(s, u, j);
    assert forall w :: w != u && w in s.jobs ==> w in s'.jobs && s'.jobs[w] == s.jobs[w];
    forall v | v in s'.jobs && s'.jobs[v].state.Waiting? && Runnable(d, s'.jobs, v)
      ensures || s'.jobs[v].inRunQueue || v in s'.deferred
              || (u in s.jobs && Negative(s.jobs[u].kind) && !Negative(j.kind) && SleepsOnlyOn(d, s, v, u))
    {
      if v != u && !Runnable(d, s.jobs, v) {
        assert u in Of(d.before, v) && u in s.jobs && Negative(s.jobs[u].kind);
      }
    }
    if u in s.jobs && Negative(s.jobs[u].kind) && !Negative(j.kind) {
      if v :| SleepsOnlyOn(d, s, v, u) {
        assert s'.jobs[v] == s.jobs[v] && Runnable(d, s'.jobs, v);
      }
    }
  }

  /** A stop of unit 2 that a start of unit 1 waits for is replaced by a start: now the start of 1 may run
      and is off the queue, and the start of 2, once tried, waits for it. Nothing is queued any more. */
  lemma ReplacedStopStrands() returns (d: Deps, ss: seq<Sched>, j: Job, ts: seq<Sched>)
    ensures Inverse(d) && Run(d, ss, [Begin(1, Inactive)]) && Fresh(ss[0])
    ensures j.kind.Start? && j.inRunQueue && 2 in ss[1].jobs && ss[1].jobs[2].kind.Stop?
    ensures Run(d, ts, [Begin(2, Inactive)]) && ts[0] == Installed(ss[1], 2, j)
    ensures 1 in ts[1].jobs && Runnable(d, ts[1].jobs, 1) && ts[1].deferred == {}
    ensures forall u :: u in ts[1].jobs ==> ts[1].jobs[u].state.Waiting? && !ts[1].jobs[u].inRunQueue
  {
    d := Deps(map[2 := [1]], map[1 := [2]], map[], map[], map[], map[]);
    var one, two := Job(10, 1, Start, Waiting, false, false, true), Job(11, 2, Stop, Waiting, false, false, true);
    j := Job(12, 2, Start, Waiting, false, false, true);
    var s0 := Sched(map[1 := one, 2 := two], {}, {});
    var s1 := Begun(d, s0, 1, Inactive);
    assert 2 in Of(d.before, 1) && Negative(s0.jobs[2].kind) && !Runnable(d, s0.jobs, 1);
    ss := [s0, s1];
    var t0 := Installed(s1, 2, j);
    var t1 := Begun(d, t0, 2, Inactive);
    assert 1 in Of(d.after, 2) && 1 in t0.jobs && !Runnable(d, t0.jobs, 2);
    ts := [t0, t1];
  }

  /** The rewrites do occur: here unit 1 is before unit 2, the batch starts 1 and restarts 2, and 2
      is found inactive. Both jobs end up running; and had the job on 1 been tried first, it would
      be left waiting off the queue although nothing keeps it from running. */
  lemma RewriteOverlapsAndStrands() returns (d: Deps, ss: seq<Sched>, steps: seq<Step>, ts: seq<Sched>,
                                             tsteps: seq<Step>)
    ensures Inverse(d)
    ensures Run(d, ss, steps) && Fresh(ss[0]) && |ss| == 3 && 2 in Of(d.before, 1)
    ensures RunsInOrder(ss[2], 1) && RunsInOrder(ss[2], 2)
    ensures Run(d, ts, tsteps) && ts[0] == ss[0] && |ts| == 3 && 1 in ts[2].jobs
    ensures ts[2].jobs[1].state.Waiting? && Runnable(d, ts[2].jobs, 1)
    ensures !ts[2].jobs[1].inRunQueue && 1 !in ts[2].deferred
  {
    d := Deps(map[2 := [1]], map[1 := [2]], map[], map[], map[], map[]);
    var one := Job(10, 1, Start, Waiting, false, false, true);
    var two := Job(11, 2, Restart, Waiting, false, false, true);
    var s0 := Sched(map[1 := one, 2 := two], {}, {});
    var s1 := Begun(d, s0, 2, Inactive);
    var s2 := Begun(d, s1, 1, Inactive);
    ss, steps := [s0, s1, s2], [Begin(2, Inactive), Begin(1, Inactive)];
    var t1 := Begun(d, s0, 1, Inactive);
    var t2 := Begun(d, t1, 2, Inactive);
    ts, tsteps := [s0, t1, t2], [Begin(1, Inactive), Begin(2, Inactive)];
    assert 2 in Of(d.before, 1) && Negative(s0.jobs[2].kind) && !Runnable(d, s0.jobs, 1);
  }

  // ---------- the batch drains ----------

  function RestartUnits(jobs: map<Unit, Job>): set<Unit> {
    set u | u in jobs && RestartLike(jobs[u].kind)
  }

  /** Restarts finish twice, all other jobs once. */
  function Weight(jobs: map<Unit, Job>): nat {
    |jobs.Keys| + |RestartUnits(jobs)|
  }

  lemma FinishedLowersWeight(d: Deps, s: Sched, u: Unit, result: JobResult, s': Sched)
    requires u in s.jobs && Finished(d, s, u, result, s')
    ensures Weight(s'.jobs) < Weight(s.jobs)
  {
    SmallerSet(s'.jobs.Keys, s.jobs.Keys);
    SmallerSet(RestartUnits(s'.jobs), RestartUnits(s.jobs));
    if Converts(s.jobs[u], result) {
      assert u in RestartUnits(s.jobs) && u !in RestartUnits(s'.jobs);
    } else {
      assert u in s.jobs.Keys - s'.jobs.Keys;
    }
  }

  lemma BegunKeepsWeight(d: Deps, s: Sched, u: Unit, active: ActiveState)
    requires u in s.jobs
    ensures Weight(Begun(d, s, u, active).jobs) <= Weight(s.jobs)
  {
    var s' := Begun(d, s, u, active);
    assert s'.jobs.Keys == s.jobs.Keys;
    SmallerSet(RestartUnits(s'.jobs), RestartUnits(s.jobs));
  }

  lemma DeferredKeepsWeight(s: Sched, u: Unit)
    requires u in s.jobs
    ensures Weight(Deferred(s, u).jobs) == Weight(s.jobs)
    ensures Weight(Requeued(s, u).jobs) == Weight(s.jobs)
  {
    assert Deferred(s, u).jobs.Keys == s.jobs.Keys && Requeued(s, u).jobs.Keys == s.jobs.Keys;
    assert RestartUnits(Deferred(s, u).jobs) == RestartUnits(s.jobs);
    assert RestartUnits(Requeued(s, u).jobs) == RestartUnits(s.jobs);
  }

  /** The step is a call that finishes a job. */
  predicate Completes(s: Sched, step: Step) {
    || step.Finish?
    || (step.End? && StillThere(s, step.u, step.id) && Settles(step.code))
  }

  lemma NextLowersWeight(d: Deps, s: Sched, step: Step, s': Sched)
    requires Next(d, s, step, s')
    ensures Weight(s'.jobs) <= Weight(s.jobs)
    ensures Completes(s, step) ==> Weight(s'.jobs) < Weight(s.jobs)
    ensures !Completes(s, step) ==> s'.jobs.Keys == s.jobs.Keys
  {
    match step
    case Begin(u, active) => BegunKeepsWeight(d, s, u, active);
    case End(u, id, code) =>
      if StillThere(s, u, id) {
        if code.EAgain? {
          DeferredKeepsWeight(s, u);
        } else if !code.Ok? {
          FinishedLowersWeight(d, s, u, ResultOf(code), s');
        }
      }
    case Finish(u, result) => FinishedLowersWeight(d, s, u, result, s');
    case Requeue(u) => DeferredKeepsWeight(s, u);
  }

  function Completions(ss: seq<Sched>, steps: seq<Step>, n: nat): nat
    requires n <= |steps| && n <= |ss|
  {
    if n == 0 then 0
    else Completions(ss, steps, n - 1) + if Completes(ss[n - 1], steps[n - 1]) then 1 else 0
  }

  /** It is the number of steps that finish a job. */
  lemma {:induction false} CompletionsAre(ss: seq<Sched>, steps: seq<Step>, n: nat)
    requires n <= |steps| && n <= |ss|
    ensures Completions(ss, steps, n) == |set i | 0 <= i < n && Completes(ss[i], steps[i])|
  {
    if n > 0 {
      CompletionsAre(ss, steps, n - 1);
      var before := set i | 0 <= i < n - 1 && Completes(ss[i], steps[i]);
      assert (set i | 0 <= i < n && Completes(ss[i], steps[i])) ==
             if Completes(ss[n - 1], steps[n - 1]) then before + {n - 1} else before;
    }
  }

  /** However a run proceeds, at most (jobs + restart-type jobs) calls finish a job in it. */
  lemma {:induction false} FewCompletions(d: Deps, ss: seq<Sched>, steps: seq<Step>, n: nat)
    requires Run(d, ss, steps) && n <= |steps|
    ensures Completions(ss, steps, n) + Weight(ss[n].jobs) <= |ss[0].jobs.Keys| + |RestartUnits(ss[0].jobs)|
  {
    if n > 0 {
      FewCompletions(d, ss, steps, n - 1);
      StepOf(d, ss, steps, n - 1);
      NextLowersWeight(d, ss[n - 1], steps[n - 1], ss[n]);
    }
  }

  ghost predicate NoRetries(steps: seq<Step>) {
    forall i {:trigger At(i)} :: At(i) && 0 <= i < |steps| && steps[i].End? ==> !steps[i].code.EAgain?
  }

  /** No job is deferred, and rewritten jobs are under way. */
  ghost predicate Steady(s: Sched) {
    s.deferred == {} && forall u :: u in s.rewritten && u in s.jobs ==> s.jobs[u].state.Running?
  }

  lemma NextKeepsSteady(d: Deps, s: Sched, step: Step, s': Sched)
    requires Steady(s) && Tidy(s) && Next(d, s, step, s')
    requires step.End? ==> !step.code.EAgain?
    ensures Steady(s')
  {
  }

  lemma {:induction false} NoRetriesSteady(d: Deps, ss: seq<Sched>, steps: seq<Step>, n: nat)
    requires Inverse(d) && Run(d, ss, steps) && Fresh(ss[0]) && NoRetries(steps) && n < |ss|
    ensures Steady(ss[n])
  {
    if n > 0 {
      NoRetriesSteady(d, ss, steps, n - 1);
      RunKeepsInv(d, ss, steps, n - 1);
      assert At(n - 1);
      StepOf(d, ss, steps, n - 1);
      NextKeepsSteady(d, ss[n - 1], steps[n - 1], ss[n]);
    }
  }

  lemma NextKeepsIdentity(d: Deps, s: Sched, step: Step, s': Sched, u: Unit)
    requires Next(d, s, step, s') && u in s'.jobs
    ensures u in s.jobs && s'.jobs[u].id == s.jobs[u].id && Becomes(s.jobs[u].kind, s'.jobs[u].kind)
  {
  }

  /** Over any stretch of a run a job that is left is the job that was there, and its type changed
      only from one that restarts to one that starts, or from reload-or-start to either. */
  lemma {:induction false} JobsKeepIdentity(d: Deps, ss: seq<Sched>, steps: seq<Step>, m: nat, n: nat, u: Unit)
    requires Run(d, ss, steps) && m <= n < |ss| && u in ss[n].jobs
    ensures u in ss[m].jobs && ss[n].jobs[u].id == ss[m].jobs[u].id
    ensures Becomes(ss[m].jobs[u].kind, ss[n].jobs[u].kind)
    ensures ss[n].jobs[u].kind.Stop? <==> ss[m].jobs[u].kind.Stop?
    ensures ss[m].jobs[u].kind.Start? || ss[m].jobs[u].kind.VerifyActive? || ss[m].jobs[u].kind.Reload? ==>
              ss[n].jobs[u].kind == ss[m].jobs[u].kind
    ensures ss[m].jobs[u].kind.ReloadOrStart? ==>
              ss[n].jobs[u].kind.ReloadOrStart? || ss[n].jobs[u].kind.Reload? || ss[n].jobs[u].kind.Start?
    ensures ss[m].jobs[u].kind.Restart? ==> ss[n].jobs[u].kind.Restart? || ss[n].jobs[u].kind.Start?
  {
    if m < n {
      StepOf(d, ss, steps, n - 1);
      NextKeepsIdentity(d, ss[n - 1], steps[n - 1], ss[n], u);
      JobsKeepIdentity(d, ss, steps, m, n - 1, u);
    }
  }

  /** A state in which nothing is queued, deferred or running has no jobs left. */
  lemma IdleIsEmpty(d: Deps, s: Sched)
    requires Inverse(d) && Acyclic(d, s.jobs.Keys) && Inv(d, s) && Steady(s)
    requires forall u :: u in s.jobs ==> !s.jobs[u].inRunQueue && !s.jobs[u].state.Running?
    ensures s.jobs == map[]
  {
    if s.jobs != map[] {
      var u := SomeJobIsRunnable(d, s.jobs);
    }
  }

  /** The batch drains: a run in which no unit asks for a retry never gets stuck. As long as a job
      is left, one is on the run queue or one is running. */
  lemma BatchDrains(d: Deps, ss: seq<Sched>, steps: seq<Step>, n: nat)
    requires Inverse(d) && Run(d, ss, steps) && Fresh(ss[0]) && NoRetries(steps) && n < |ss|
    requires Acyclic(d, ss[0].jobs.Keys)
    ensures ss[n].jobs == map[] ||
            exists u :: u in ss[n].jobs && (ss[n].jobs[u].inRunQueue || ss[n].jobs[u].state.Running?)
  {
    RunKeepsInv(d, ss, steps, n);
    NoRetriesSteady(d, ss, steps, n);
    forall u | u in ss[n].jobs ensures u in ss[0].jobs {
      JobsKeepIdentity(d, ss, steps, 0, n, u);
    }
    AcyclicSubset(d, ss[0].jobs.Keys, ss[n].jobs.Keys);
    if forall u :: u in ss[n].jobs ==> !ss[n].jobs[u].inRunQueue && !ss[n].jobs[u].state.Running? {
      IdleIsEmpty(d, ss[n]);
    }
  }

  /** Retries included: a run in which no rewrite strands a job never gets stuck. As long as a job is
      left, one is on the run queue, one is running, or one waits for its unit to ask for a retry. */
  lemma BatchNeverSticks(d: Deps, ss: seq<Sched>, steps: seq<Step>, n: nat)
    requires Inverse(d) && Run(d, ss, steps) && Fresh(ss[0]) && n < |ss|
    requires Acyclic(d, ss[0].jobs.Keys)
    requires forall i :: 0 <= i < n ==> !StrandingRewrite(d, ss[i], steps[i])
    ensures ss[n].jobs == map[] ||
            exists u :: u in ss[n].jobs &&
                        (ss[n].jobs[u].inRunQueue || ss[n].jobs[u].state.Running? || u in ss[n].deferred)
  {
    RunStrandsExactlyWhen(d, ss, steps, n);
    forall u | u in ss[n].jobs ensures u in ss[0].jobs {
      JobsKeepIdentity(d, ss, steps, 0, n, u);
    }
    AcyclicSubset(d, ss[0].jobs.Keys, ss[n].jobs.Keys);
    if ss[n].jobs != map[] {
      var u := SomeJobIsRunnable(d, ss[n].jobs);
      assert StrictlyWoken(d, ss[n]);
    }
  }

  /** Starts of units 1 and 2, which are not ordered. */
  ghost function TwoStarts(state1: JobState, queued1: bool, state2: JobState, queued2: bool,
                           deferred: set<Unit>): Sched {
    Sched(map[1 := Job(10, 1, Start, state1, false, false, queued1),
              2 := Job(11, 2, Start, state2, false, false, queued2)],
          deferred, {})
  }

  ghost function NoDeps(): Deps {
    Deps(map[], map[], map[], map[], map[], map[])
  }

  /** Unit 1 is run, notifies unit 2, and asks for a retry. */
  lemma RetryOfOne(deferred: set<Unit>)
    ensures Run(NoDeps(),
                [TwoStarts(Waiting, true, Waiting, false, deferred),
                 TwoStarts(Running, false, Waiting, false, deferred - {1}),
                 TwoStarts(Running, false, Waiting, true, deferred - {1}),
                 TwoStarts(Waiting, false, Waiting, true, deferred + {1})],
                [Begin(1, Activating), Requeue(2), End(1, 10, EAgain)])
  {
    assert Runnable(NoDeps(), TwoStarts(Waiting, true, Waiting, false, deferred).jobs, 1);
    assert deferred - {1} + {1} == deferred + {1};
  }

  /** Unit 2 is run, notifies unit 1, and asks for a retry. */
  lemma RetryOfTwo(deferred: set<Unit>)
    ensures Run(NoDeps(),
                [TwoStarts(Waiting, false, Waiting, true, deferred),
                 TwoStarts(Waiting, false, Running, false, deferred - {2}),
                 TwoStarts(Waiting, true, Running, false, deferred - {2}),
                 TwoStarts(Waiting, true, Waiting, false, deferred + {2})],
                [Begin(2, Activating), Requeue(1), End(2, 11, EAgain)])
  {
    assert Runnable(NoDeps(), TwoStarts(Waiting, false, Waiting, true, deferred).jobs, 2);
    assert deferred - {2} + {2} == deferred + {2};
  }

  /** Unit 1 is run for the first time, and asks for a retry. */
  lemma FirstRetry()
    ensures Fresh(TwoStarts(Waiting, true, Waiting, true, {}))
    ensures Run(NoDeps(),
                [TwoStarts(Waiting, true, Waiting, true, {}), TwoStarts(Running, false, Waiting, true, {}),
                 TwoStarts(Waiting, false, Waiting, true, {1})],
                [Begin(1, Activating), End(1, 10, EAgain)])
  {
    assert Runnable(NoDeps(), TwoStarts(Waiting, true, Waiting, true, {}).jobs, 1);
  }

  /** One run continues another. */
  lemma RunsJoin(d: Deps, ss: seq<Sched>, steps: seq<Step>, ts: seq<Sched>, tsteps: seq<Step>)
    requires Run(d, ss, steps) && Run(d, ts, tsteps) && ss[|steps|] == ts[0]
    ensures Run(d, ss + ts[1..], steps + tsteps) && (ss + ts[1..])[|steps| + |tsteps|] == ts[|tsteps|]
  {
    var us, usteps := ss + ts[1..], steps + tsteps;
    forall i | At(i) && 0 <= i < |usteps| ensures Next(d, us[i], usteps[i], us[i + 1]) {
      if i < |steps| {
        StepOf(d, ss, steps, i);
      } else {
        StepOf(d, ts, tsteps, i - |steps|);
      }
    }
  }

  /** Two units that ask for a retry and notify each other keep the run queue busy for ever: there are
      runs of a fresh batch of any number of rounds, each of which starts with a job on the queue, runs
      both jobs and leaves everything as it was. */
  lemma {:induction false} RetriesGoOnForEver(rounds: nat) returns (ss: seq<Sched>, steps: seq<Step>)
    ensures Run(NoDeps(), ss, steps) && Fresh(ss[0]) && |steps| == 5 + 6 * rounds
    ensures ss[|steps|] == TwoStarts(Waiting, true, Waiting, false, {1, 2})
  {
    if rounds == 0 {
      FirstRetry();
      RetryOfTwo({1});
      ss := [TwoStarts(Waiting, true, Waiting, true, {}), TwoStarts(Running, false, Waiting, true, {}),
        TwoStarts(Waiting, false, Waiting, true, {1})];
      steps := [Begin(1, Activating), End(1, 10, EAgain)];
      ss, steps := Continued(ss, steps, 2, {1});
      assert {1} + {2} == {1, 2};
    } else {
      ss, steps := RetriesGoOnForEver(rounds - 1);
      ss, steps := Continued(ss, steps, 1, {1, 2});
      assert {1, 2} + {1} == {1, 2};
      ss, steps := Continued(ss, steps, 2, {1, 2});
      assert {1, 2} + {2} == {1, 2};
    }
  }

  /** A run goes on with a retry of unit `u`. */
  lemma Continued(ss: seq<Sched>, steps: seq<Step>, u: Unit, deferred: set<Unit>)
    returns (ss': seq<Sched>, steps': seq<Step>)
    requires Run(NoDeps(), ss, steps) && (u == 1 || u == 2)
    requires ss[|steps|] == TwoStarts(Waiting, u == 1, Waiting, u == 2, deferred)
    ensures Run(NoDeps(), ss', steps') && ss <= ss' && steps' == steps + RetrySteps(u) && |steps'| == |steps| + 3
    ensures ss'[|steps'|] == TwoStarts(Waiting, u == 2, Waiting, u == 1, deferred + {u})
  {
    steps' := steps + RetrySteps(u);
    var ts;
    if u == 1 {
      RetryOfOne(deferred);
      ts := [TwoStarts(Waiting, true, Waiting, false, deferred),
             TwoStarts(Running, false, Waiting, false, deferred - {1}),
             TwoStarts(Running, false, Waiting, true, deferred - {1}),
             TwoStarts(Waiting, false, Waiting, true, deferred + {1})];
    } else {
      RetryOfTwo(deferred);
      ts := [TwoStarts(Waiting, false, Waiting, true, deferred),
             TwoStarts(Waiting, false, Running, false, deferred - {2}),
             TwoStarts(Waiting, true, Running, false, deferred - {2}),
             TwoStarts(Waiting, true, Waiting, false, deferred + {2})];
    }
    RunsJoin(NoDeps(), ss, steps, ts, RetrySteps(u));
    ss' := ss + ts[1..];
  }

  /** The unit is run, the other one is notified, and a retry asked for. */
  function RetrySteps(u: Unit): seq<Step> {
    if u == 1 then [Begin(1, Activating), Requeue(2), End(1, 10, EAgain)]
    else [Begin(2, Activating), Requeue(1), End(2, 11, EAgain)]
  }

  // ---------- the failure cascade ----------

  /** Each unit on the path brings down the next. */
  ghost predicate FailPath(d: Deps, jobs: map<Unit, Job>, p: seq<Unit>) {
    && |p| > 0
    && (forall i :: 0 <= i < |p| ==> p[i] in jobs)
    && forall i, j :: 0 <= i < |p| && j == i + 1 && j < |p| ==> FailsWith(d, jobs, p[i], jobs[p[i]].kind, p[j])
  }

  ghost predicate BringsDown(d: Deps, jobs: map<Unit, Job>, u: Unit, v: Unit) {
    exists p :: FailPath(d, jobs, p) && p[0] == u && p[|p| - 1] == v
  }

  lemma {:induction false} PathStaysInside(d: Deps, jobs: map<Unit, Job>, p: seq<Unit>, us: set<Unit>, k: nat)
    requires FailPath(d, jobs, p) && p[0] in us && FailClosed(d, jobs, us) && k < |p|
    ensures p[k] in us
  {
    if k > 0 {
      PathStaysInside(d, jobs, p, us, k - 1);
      assert FailsWith(d, jobs, p[k - 1], jobs[p[k - 1]].kind, p[k]);
    }
  }

  lemma PathExtends(d: Deps, jobs: map<Unit, Job>, u: Unit, x: Unit, y: Unit)
    requires BringsDown(d, jobs, u, x) && x in jobs && FailsWith(d, jobs, x, jobs[x].kind, y)
    ensures BringsDown(d, jobs, u, y)
  {
    var p :| FailPath(d, jobs, p) && p[0] == u && p[|p| - 1] == x;
    assert FailPath(d, jobs, p + [y]);
  }

  /** A cascade takes exactly the units that a chain of failures leads to, on cyclic requirement
      graphs as on others. */
  lemma CascadeIsReachability(d: Deps, jobs: map<Unit, Job>, u: Unit, us: set<Unit>)
    requires u in jobs && us <= jobs.Keys
    ensures Cascade(d, jobs, {u}, us) <==> forall v :: v in us <==> BringsDown(d, jobs, u, v)
  {
    var reached := set v | v in jobs && BringsDown(d, jobs, u, v);
    assert FailPath(d, jobs, [u]);
    forall x, y | x in reached && FailsWith(d, jobs, x, jobs[x].kind, y) ensures y in reached {
      PathExtends(d, jobs, u, x, y);
    }
    assert u in reached && FailClosed(d, jobs, reached);
    forall v, vs: set<Unit> | u in vs && FailClosed(d, jobs, vs) && BringsDown(d, jobs, u, v) ensures v in vs {
      var p :| FailPath(d, jobs, p) && p[0] == u && p[|p| - 1] == v;
      PathStaysInside(d, jobs, p, vs, |p| - 1);
    }
    assert forall v :: BringsDown(d, jobs, u, v) ==> v in reached;
    assert Cascade(d, jobs, {u}, reached);
    if Cascade(d, jobs, {u}, us) {
      assert us == reached;
    }
    if forall v :: v in us <==> BringsDown(d, jobs, u, v) {
      assert us == reached;
    }
  }
}
