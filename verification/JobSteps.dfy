/** The job engine as a transition system: what starting, settling, finishing and re-queueing a job
    do to the installed jobs, and what holds in every state of every run (src/job.c). */
module JobSteps {
  import opened Collections
  import opened JobTypes
  import opened JobOrder

  /** The installed jobs by unit. `deferred` holds the units whose job was put back to waiting
      because its unit asked to be retried later; `rewritten` those whose job was a restart turned
      into a start in place when it was run, and has not finished since. */
  datatype Sched = Sched(jobs: map<Unit, Job>, deferred: set<Unit>, rewritten: set<Unit>)

  /** What a unit operation can return, as far as the job engine tells results apart. */
  datatype Code = Ok | EBadR | EAlready | ENoExec | EAgain | EOther

  // ---------- running a job ----------

  /** The type a job takes on when it is run while its unit is in state `active`. */
  function Rewrite(kind: JobType, active: ActiveState): JobType {
    match kind
    case ReloadOrStart => if active.Active? then Reload else Start
    case Restart =>
      if active.Inactive? || active.FailedState? || active.Activating? then Start else Restart
    case TryRestart =>
      if active.Inactive? || active.FailedState? || active.Deactivating? then TryRestart
      else if active.Activating? then Start
      else Restart
    case _ => kind
  }

  /** The result a run is judged by, given what the unit operation returned. Units that cannot be
      started or stopped are waited for, except in the stop phase of a restart. */
  function Settle(kind: JobType, active: ActiveState, raw: Code): Code {
    match kind
    case Start => if raw.EBadR? then Ok else raw
    case Stop => if raw.EBadR? then Ok else raw
    case VerifyActive =>
      if active.Active? || active.Reloading? then EAlready
      else if active.Activating? then EAgain
      else ENoExec
    case ReloadOrStart => if !active.Active? && raw.EBadR? then Ok else raw
    case TryRestart =>
      if active.Inactive? || active.FailedState? || active.Deactivating? then ENoExec else raw
    case _ => raw
  }

  /** The unit operation a run calls. */
  datatype Call = StartUnit | StopUnit | ReloadUnit | NoCall

  function CallOf(kind: JobType, active: ActiveState): Call {
    match kind
    case Start => StartUnit
    case Stop => StopUnit
    case Reload => ReloadUnit
    case VerifyActive => NoCall
    case ReloadOrStart => if active.Active? then ReloadUnit else StartUnit
    case Restart =>
      if active.Inactive? || active.FailedState? || active.Activating? then StartUnit else StopUnit
    case TryRestart =>
      if active.Inactive? || active.FailedState? || active.Deactivating? then NoCall
      else if active.Activating? then StartUnit
      else StopUnit
  }

  /** The type a job has while it runs names the operation that was called for it: starts start,
      reloads reload, and what is still a stop or restart stops. Only checks, and a try-restart of a
      unit that is down, call nothing, and these settle at once. */
  lemma RunningTypeNamesTheCall(kind: JobType, active: ActiveState, raw: Code)
    ensures CallOf(kind, active).StartUnit? <==> Rewrite(kind, active).Start?
    ensures CallOf(kind, active).ReloadUnit? <==> Rewrite(kind, active).Reload?
    ensures CallOf(kind, active).StopUnit? <==> Rewrite(kind, active).Stop? || Rewrite(kind, active).Restart?
    ensures CallOf(kind, active).NoCall? <==> Rewrite(kind, active).VerifyActive? || Rewrite(kind, active).TryRestart?
    ensures CallOf(kind, active).NoCall? ==> Settle(kind, active, raw) != Ok
    ensures Settle(kind, active, raw) == raw || CallOf(kind, active).NoCall? || (raw.EBadR? && !RestartLike(kind))
  {
  }

  /** What is called, the type the job has then, and how the result is judged, by the state of the unit. */
  lemma RunFollowsUnitState(kind: JobType, active: ActiveState, raw: Code)
    ensures kind.Restart? ==>
              && (CallOf(kind, active).StopUnit? && Rewrite(kind, active).Restart? <==>
                    active.Active? || active.Reloading? || active.Deactivating?)
              && (CallOf(kind, active).StartUnit? && Rewrite(kind, active).Start? <==>
                    active.Inactive? || active.FailedState? || active.Activating?)
    ensures kind.TryRestart? ==>
              && (CallOf(kind, active).StopUnit? && Rewrite(kind, active).Restart? <==>
                    active.Active? || active.Reloading?)
              && (CallOf(kind, active).StartUnit? && Rewrite(kind, active).Start? <==> active.Activating?)
              && (CallOf(kind, active).NoCall? && Rewrite(kind, active).TryRestart?
                  && Settle(kind, active, raw).ENoExec?
                  <== active.Inactive? || active.FailedState? || active.Deactivating?)
    ensures kind.ReloadOrStart? ==>
              && (CallOf(kind, active).ReloadUnit? && Rewrite(kind, active).Reload? <==> active.Active?)
              && (CallOf(kind, active).StartUnit? && Rewrite(kind, active).Start? <==> !active.Active?)
    ensures kind.VerifyActive? ==>
              && CallOf(kind, active).NoCall? && Rewrite(kind, active).VerifyActive?
              && (Settle(kind, active, raw).EAlready? <==> active.Active? || active.Reloading?)
              && (Settle(kind, active, raw).EAgain? <==> active.Activating?)
              && (Settle(kind, active, raw).ENoExec? <==>
                    active.Inactive? || active.FailedState? || active.Deactivating?)
    ensures kind.Start? ==> CallOf(kind, active).StartUnit? && Rewrite(kind, active).Start?
    ensures kind.Stop? ==> CallOf(kind, active).StopUnit? && Rewrite(kind, active).Stop?
    ensures kind.Reload? ==> CallOf(kind, active).ReloadUnit? && Rewrite(kind, active).Reload?
    ensures !CallOf(kind, active).NoCall? ==>
              Settle(kind, active, raw) ==
              if raw.EBadR? && (kind.Start? || kind.Stop? || (kind.ReloadOrStart? && !active.Active?)) then Ok else raw
  {
  }

  /** How the type of one job may change over its life. A stop stays a stop; nothing that brings a
      unit up ever takes one down. */
  predicate Becomes(a: JobType, b: JobType) {
    || a == b
    || (a.ReloadOrStart? && (b.Reload? || b.Start?))
    || (a.Restart? && b.Start?)
    || (a.TryRestart? && (b.Restart? || b.Start?))
  }

  predicate RewritesToStart(kind: JobType, active: ActiveState) {
    RestartLike(kind) && Rewrite(kind, active).Start?
  }

  /** Taking the job on `u` off the run queue and starting it if it may run. */
  ghost function Begun(d: Deps, s: Sched, u: Unit, active: ActiveState): Sched
    requires u in s.jobs
  {
    var j := s.jobs[u].(inRunQueue := false);
    if j.state.Waiting? && Runnable(d, s.jobs, u) then
      Sched(s.jobs[u := j.(state := Running, kind := Rewrite(j.kind, active))],
            s.deferred - {u},
            if RewritesToStart(j.kind, active) then s.rewritten + {u} else s.rewritten)
    else
      Sched(s.jobs[u := j], s.deferred - {u}, s.rewritten)
  }

  ghost function Deferred(s: Sched, u: Unit): Sched
    requires u in s.jobs
  {
    s.(jobs := s.jobs[u := s.jobs[u].(state := Waiting)], deferred := s.deferred + {u})
  }

  ghost function Requeued(s: Sched, u: Unit): Sched
    requires u in s.jobs
  {
    s.(jobs := s.jobs[u := s.jobs[u].(inRunQueue := true)])
  }

  /** A job is installed on `u`, and one that was there is freed, without waking anybody. */
  ghost function Installed(s: Sched, u: Unit, j: Job): Sched {
    Sched(s.jobs[u := j], s.deferred - {u}, s.rewritten - {u})
  }

  // ---------- finishing a job ----------

  /** Failure of a job of type `kind` on `x` fails the job on `y`. */
  ghost predicate FailsWith(d: Deps, jobs: map<Unit, Job>, x: Unit, kind: JobType, y: Unit) {
    && y in jobs
    && StartLike(jobs[y].kind)
    && if StartLike(kind) then
         || y in Of(d.requiredBy, x)
         || y in Of(d.boundBy, x)
         || (y in Of(d.requiredByOverridable, x) && !jobs[y].override)
       else
         kind.Stop? && y in Of(d.conflictedBy, x)
  }

  ghost predicate FailClosed(d: Deps, jobs: map<Unit, Job>, us: set<Unit>) {
    forall x, y {:trigger FailsWith(d, jobs, x, jobs[x].kind, y)} ::
      x in us && x in jobs && FailsWith(d, jobs, x, jobs[x].kind, y) ==> y in us
  }

  /** `us` is the least set of units that contains `seeds` and is closed under failing. */
  ghost predicate Cascade(d: Deps, jobs: map<Unit, Job>, seeds: set<Unit>, us: set<Unit>) {
    && seeds <= us
    && FailClosed(d, jobs, us)
    && forall vs: set<Unit> {:trigger FailClosed(d, jobs, vs)} :: seeds <= vs && FailClosed(d, jobs, vs) ==> us <= vs
  }

  ghost predicate Touched(d: Deps, woken: set<Unit>, v: Unit) {
    exists w :: w in woken && Adjacent(d, w, v)
  }

  /** The jobs on `gone` are removed, those ordered against a unit in `woken` are put on the run
      queue, and nothing else changes. */
  ghost predicate Pruned(d: Deps, jobs: map<Unit, Job>, gone: set<Unit>, woken: set<Unit>, jobs': map<Unit, Job>) {
    && jobs'.Keys == jobs.Keys - gone
    && forall v {:trigger jobs'[v]} :: v in jobs' ==>
         jobs'[v] == jobs[v].(inRunQueue := jobs[v].inRunQueue || Touched(d, woken, v))
  }

  predicate Converts(j: Job, result: JobResult) {
    result.Done? && RestartLike(j.kind)
  }

  function Converted(j: Job): Job {
    j.(state := Waiting, kind := Start, inRunQueue := true)
  }

  /** The job on `u` finishes with `result`: a restart that is done becomes a waiting start;
      any other job goes away, together with the jobs its failure brings down. */
  ghost predicate Finished(d: Deps, s: Sched, u: Unit, result: JobResult, s': Sched)
    requires u in s.jobs
  {
    if Converts(s.jobs[u], result) then
      && Pruned(d, s.jobs[u := Converted(s.jobs[u])], {}, {u}, s'.jobs)
      && s'.deferred == s.deferred - {u}
      && s'.rewritten == s.rewritten - {u}
    else
      var gone := s.jobs.Keys - s'.jobs.Keys;
      && (if result.Done? then gone == {u} else Cascade(d, s.jobs, {u}, gone))
      && Pruned(d, s.jobs, gone, gone, s'.jobs)
      && s'.deferred == s.deferred - gone
      && s'.rewritten == s.rewritten - gone
  }

  // ---------- the transition system ----------

  datatype Step =
    | Begin(u: Unit, active: ActiveState)
    | End(u: Unit, id: JobId, code: Code)
    | Finish(u: Unit, result: JobResult)
    | Requeue(u: Unit)

  /** The job the run of which is being settled may have gone away in the meantime. */
  predicate StillThere(s: Sched, u: Unit, id: JobId) {
    u in s.jobs && s.jobs[u].id == id
  }

  predicate Settles(code: Code) {
    code.EAlready? || code.ENoExec? || code.EBadR? || code.EOther?
  }

  function ResultOf(code: Code): JobResult {
    match code
    case EAlready => Done
    case ENoExec => Skipped
    case _ => Failed
  }

  lemma ResultOfCode(code: Code)
    ensures code.EAlready? ==> ResultOf(code) == Done
    ensures code.ENoExec? ==> ResultOf(code) == Skipped
    ensures code.EBadR? || code.EOther? ==> ResultOf(code) == Failed
    ensures Settles(code) <==> code != Ok && code != EAgain
  {
  }

  ghost predicate Next(d: Deps, s: Sched, step: Step, s': Sched) {
    match step
    case Begin(u, active) => u in s.jobs && s' == Begun(d, s, u, active)
    case End(u, id, code) =>
      if !StillThere(s, u, id) || code.Ok? then s' == s
      else if code.EAgain? then s' == Deferred(s, u)
      else Finished(d, s, u, ResultOf(code), s')
    case Finish(u, result) => u in s.jobs && Finished(d, s, u, result, s')
    case Requeue(u) => u in s.jobs && s' == Requeued(s, u)
  }

  /** A run: `ss[i + 1]` follows from `ss[i]` by `steps[i]`. No job is installed during a run. */
  ghost predicate Run(d: Deps, ss: seq<Sched>, steps: seq<Step>) {
    && |ss| == |steps| + 1
    && forall i {:trigger At(i)} :: At(i) && 0 <= i < |steps| ==> Next(d, ss[i], steps[i], ss[i + 1])
  }

  lemma StepOf(d: Deps, ss: seq<Sched>, steps: seq<Step>, i: nat)
    requires Run(d, ss, steps) && i < |steps|
    ensures Next(d, ss[i], steps[i], ss[i + 1])
  {
    assert At(i);
  }

  /** A batch as it has just been installed: every job waits, and is on the run queue. */
  ghost predicate Fresh(s: Sched) {
    && s.deferred == {}
    && s.rewritten == {}
    && forall u :: u in s.jobs ==> s.jobs[u].unit == u && s.jobs[u].state.Waiting? && s.jobs[u].inRunQueue
  }

  // ---------- invariants ----------

  ghost predicate Tidy(s: Sched) {
    && s.deferred <= s.jobs.Keys
    && s.rewritten <= s.jobs.Keys
    && (forall u :: u in s.rewritten ==> s.jobs[u].kind.Start?)
    && (forall u :: u in s.jobs ==> s.jobs[u].unit == u)
  }

  ghost predicate Excused(d: Deps, s: Sched, u: Unit)
    requires u in s.jobs
  {
    || s.jobs[u].inRunQueue
    || u in s.deferred
    || exists v :: v in Of(d.before, u) && v in s.rewritten
  }

  /** A waiting job that may run is on the run queue, unless its unit asked for a retry, or it only
      may run because the job on a unit ordered after it was rewritten in place. */
  ghost predicate NoLostWakeup(d: Deps, s: Sched) {
    forall u :: u in s.jobs && s.jobs[u].state.Waiting? && Runnable(d, s.jobs, u) ==> Excused(d, s, u)
  }

  predicate RunsInOrder(s: Sched, u: Unit) {
    u in s.jobs && s.jobs[u].state.Running? && !s.jobs[u].ignoreOrder
  }

  /** For `a` before `b`, both with a job: if `b` runs its job is taking it down, or was
      rewritten; if `a` runs, the job on `b` is bringing it up. */
  ghost predicate Ordered(d: Deps, s: Sched) {
    forall a, b :: b in Of(d.before, a) && a in s.jobs && b in s.jobs ==>
                     && (RunsInOrder(s, b) ==> Negative(s.jobs[b].kind) || b in s.rewritten)
                     && (RunsInOrder(s, a) ==> Positive(s.jobs[b].kind))
  }

  ghost predicate Inv(d: Deps, s: Sched) {
    Tidy(s) && NoLostWakeup(d, s) && Ordered(d, s)
  }

  lemma FreshInv(d: Deps, s: Sched)
    requires Fresh(s)
    ensures Inv(d, s)
  {
  }

  /** Whether a job may run depends only on its own type and on the jobs it is ordered against. */
  lemma RunnableIsLocal(d: Deps, jobs: map<Unit, Job>, jobs': map<Unit, Job>, u: Unit)
    requires u in jobs && u in jobs'
    requires jobs[u].kind == jobs'[u].kind && jobs[u].ignoreOrder == jobs'[u].ignoreOrder
    requires forall v :: Adjacent(d, u, v) ==> (v in jobs <==> v in jobs')
    requires forall v :: v in Of(d.before, u) && v in jobs && v in jobs' ==>
                           (Negative(jobs[v].kind) <==> Negative(jobs'[v].kind))
    ensures Runnable(d, jobs, u) <==> Runnable(d, jobs', u)
  {
    assert forall v :: v in Of(d.after, u) ==> Adjacent(d, u, v);
    assert forall v :: v in Of(d.before, u) ==> Adjacent(d, u, v);
  }

  lemma AdjacentSymmetric(d: Deps, u: Unit, v: Unit)
    requires Inverse(d)
    ensures Adjacent(d, u, v) <==> Adjacent(d, v, u)
  {
  }

  lemma BegunKeepsNoLostWakeup(d: Deps, s: Sched, u: Unit, active: ActiveState)
    requires u in s.jobs && NoLostWakeup(d, s)
    ensures NoLostWakeup(d, Begun(d, s, u, active))
  {
    var s' := Begun(d, s, u, active);
    forall v | v in s'.jobs && s'.jobs[v].state.Waiting? && Runnable(d, s'.jobs, v)
      ensures Excused(d, s', v)
    {
      if u in Of(d.before, v) && u in s'.rewritten {
      } else {
        RunnableIsLocal(d, s.jobs, s'.jobs, v);
        assert Excused(d, s, v);
      }
    }
  }

  lemma DeferredKeepsNoLostWakeup(d: Deps, s: Sched, u: Unit)
    requires u in s.jobs && NoLostWakeup(d, s)
    ensures NoLostWakeup(d, Deferred(s, u))
    ensures NoLostWakeup(d, Requeued(s, u))
  {
    forall v | v in s.jobs && v != u && s.jobs[v].state.Waiting?
      ensures Runnable(d, Deferred(s, u).jobs, v) ==> Excused(d, Deferred(s, u), v)
      ensures Runnable(d, Requeued(s, u).jobs, v) ==> Excused(d, Requeued(s, u), v)
    {
      RunnableIsLocal(d, s.jobs, Deferred(s, u).jobs, v);
      RunnableIsLocal(d, s.jobs, Requeued(s, u).jobs, v);
      assert Runnable(d, s.jobs, v) ==> Excused(d, s, v);
    }
  }

  lemma FinishedKeepsNoLostWakeup(d: Deps, s: Sched, u: Unit, result: JobResult, s': Sched)
    requires Inverse(d) && u in s.jobs && NoLostWakeup(d, s) && Finished(d, s, u, result, s')
    ensures NoLostWakeup(d, s')
  {
    var gone := if Converts(s.jobs[u], result) then {u} else s.jobs.Keys - s'.jobs.Keys;
    forall v | v in s'.jobs && s'.jobs[v].state.Waiting? && Runnable(d, s'.jobs, v)
      ensures Excused(d, s', v)
    {
      if !Touched(d, gone, v) && v !in gone {
        forall w | Adjacent(d, v, w) ensures w !in gone {
          AdjacentSymmetric(d, v, w);
        }
        assert forall w :: w in Of(d.before, v) ==> Adjacent(d, v, w);
        RunnableIsLocal(d, s.jobs, s'.jobs, v);
        assert Excused(d, s, v);
      }
    }
  }

  lemma FinishedKeepsOrdered(d: Deps, s: Sched, u: Unit, result: JobResult, s': Sched)
    requires u in s.jobs && Ordered(d, s) && Finished(d, s, u, result, s')
    ensures Ordered(d, s')
  {
  }

  lemma BegunKeepsOrdered(d: Deps, s: Sched, u: Unit, active: ActiveState)
    requires Inverse(d) && u in s.jobs && Ordered(d, s)
    ensures Ordered(d, Begun(d, s, u, active))
  {
  }

  lemma DeferredKeepsOrdered(d: Deps, s: Sched, u: Unit)
    requires u in s.jobs && Ordered(d, s)
    ensures Ordered(d, Deferred(s, u))
  {
  }

  lemma RequeuedKeepsOrdered(d: Deps, s: Sched, u: Unit)
    requires u in s.jobs && Ordered(d, s)
    ensures Ordered(d, Requeued(s, u))
  {
  }

  lemma FinishedKeepsTidy(d: Deps, s: Sched, u: Unit, result: JobResult, s': Sched)
    requires u in s.jobs && Tidy(s) && Finished(d, s, u, result, s')
    ensures Tidy(s')
  {
  }

  lemma FinishedKeepsInv(d: Deps, s: Sched, u: Unit, result: JobResult, s': Sched)
    requires Inverse(d) && u in s.jobs && Inv(d, s) && Finished(d, s, u, result, s')
    ensures Inv(d, s')
  {
    FinishedKeepsTidy(d, s, u, result, s');
    FinishedKeepsNoLostWakeup(d, s, u, result, s');
    FinishedKeepsOrdered(d, s, u, result, s');
  }

  lemma BegunKeepsInv(d: Deps, s: Sched, u: Unit, active: ActiveState)
    requires Inverse(d) && u in s.jobs && Inv(d, s)
    ensures Inv(d, Begun(d, s, u, active))
  {
    BegunKeepsNoLostWakeup(d, s, u, active);
    BegunKeepsOrdered(d, s, u, active);
  }

  lemma DeferredKeepsInv(d: Deps, s: Sched, u: Unit)
    requires u in s.jobs && Inv(d, s)
    ensures Inv(d, Deferred(s, u))
    ensures Inv(d, Requeued(s, u))
  {
    DeferredKeepsNoLostWakeup(d, s, u);
    DeferredKeepsOrdered(d, s, u);
    RequeuedKeepsOrdered(d, s, u);
  }

  lemma NextKeepsInv(d: Deps, s: Sched, step: Step, s': Sched)
    requires Inverse(d) && Inv(d, s) && Next(d, s, step, s')
    ensures Inv(d, s')
  {
    match step
    case Begin(u, active) =>
      BegunKeepsInv(d, s, u, active);
    case End(u, id, code) =>
      if StillThere(s, u, id) && code.EAgain? {
        DeferredKeepsInv(d, s, u);
      } else if StillThere(s, u, id) && !code.Ok? {
        FinishedKeepsInv(d, s, u, ResultOf(code), s');
      }
    case Finish(u, result) =>
      FinishedKeepsInv(d, s, u, result, s');
    case Requeue(u) =>
      DeferredKeepsInv(d, s, u);
  }
}
