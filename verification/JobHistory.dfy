/** What the manager does to its jobs over time: notifications, runs and whole batches, as stretches of
    a recorded history (src/job.c, src/unit.c, src/manager.c). */
module JobHistory {
  import opened Collections
  import opened JobTypes
  import opened JobOrder
  import opened JobSteps
  import opened JobRuns

  // ---------- notifications ----------

  /** A unit reports its new state, and whether reloading went well. */
  datatype Event = Event(unit: Unit, now: ActiveState, reloadOk: bool)

  predicate IsDown(s: ActiveState) {
    s.Inactive? || s.FailedState?
  }

  function DownResult(now: ActiveState): JobResult {
    if now.FailedState? then Failed else Done
  }

  /** How the new state of its unit finishes a job, if it does. */
  function NotifyResult(kind: JobType, state: JobState, now: ActiveState, reloadOk: bool): Option<JobResult> {
    if kind.Start? || kind.VerifyActive? then
      if now.Active? || now.Reloading? then Some(Done)
      else if state.Running? && IsDown(now) then Some(DownResult(now))
      else None
    else if kind.Reload? || kind.ReloadOrStart? then
      if state.Running? && now.Active? then Some(if reloadOk then Done else Failed)
      else if state.Running? && IsDown(now) then Some(DownResult(now))
      else None
    else if IsDown(now) then Some(Done)
    else if state.Running? && !now.Deactivating? then Some(Failed)
    else None
  }

  /** A running job is finished as soon as its unit settles, up or down; a waiting one is never failed,
      and only a state that it was to bring about finishes it. */
  lemma SettledUnitFinishesJob(kind: JobType, now: ActiveState, reloadOk: bool)
    ensures now.Active? || now.Inactive? || now.FailedState? ==> NotifyResult(kind, Running, now, reloadOk).Some?
    ensures NotifyResult(kind, Waiting, now, reloadOk) in {None, Some(Done)}
    ensures NotifyResult(kind, Waiting, now, reloadOk).Some? <==>
              if kind.Start? || kind.VerifyActive? then now.Active? || now.Reloading?
              else Negative(kind) && (now.Inactive? || now.FailedState?)
  {
  }

  /** With which result: what brings a unit up fails if the unit fails, and is done if it goes inactive
      without failing; what takes a unit down is done if the unit is down, however it got there. */
  lemma RunningJobIsJudged(kind: JobType, now: ActiveState, reloadOk: bool)
    ensures var r := NotifyResult(kind, Running, now, reloadOk);
            && (Positive(kind) && now.FailedState? ==> r == Some(Failed))
            && (Positive(kind) && now.Inactive? ==> r == Some(Done))
            && (kind.Start? || kind.VerifyActive? ==>
                  && (r == Some(Done) <==> now.Active? || now.Reloading? || now.Inactive?)
                  && (r == Some(Failed) <==> now.FailedState?)
                  && (r == None <==> now.Activating? || now.Deactivating?))
            && (kind.Reload? || kind.ReloadOrStart? ==>
                  && (now.Active? ==> r == Some(if reloadOk then Done else Failed))
                  && (r == None <==> now.Activating? || now.Reloading? || now.Deactivating?))
            && (Negative(kind) ==>
                  && (r == Some(Done) <==> now.Inactive? || now.FailedState?)
                  && (r == Some(Failed) <==> now.Active? || now.Reloading? || now.Activating?)
                  && (r == None <==> now.Deactivating?))
  {
  }

  /** The steps that a notification makes. */
  function NotifySteps(j: Job, e: Event): seq<Step> {
    (if j.state.Waiting? then [Requeue(e.unit)] else [])
    + match NotifyResult(j.kind, j.state, e.now, e.reloadOk)
      case Some(result) => [Step.Finish(e.unit, result)]
      case None => []
  }

  function EventSteps(jobs: map<Unit, Job>, e: Event): seq<Step> {
    if e.unit in jobs then NotifySteps(jobs[e.unit], e) else []
  }

  // ---------- the log ----------

  /** The states there were, the steps between them, and the run queue in each state. */
  datatype Log = Log(states: seq<Sched>, steps: seq<Step>, queues: seq<seq<Unit>>)

  ghost predicate LogOk(d: Deps, log: Log) {
    Run(d, log.states, log.steps) && |log.queues| == |log.states|
  }

  /** The log is that of a run which ends in state `s`, with run queue `q`. */
  ghost predicate Logged(d: Deps, log: Log, s: Sched, q: seq<Unit>) {
    LogOk(d, log) && log.states[|log.steps|] == s && log.queues[|log.steps|] == q
  }

  function Grown(log: Log, step: Step, s: Sched, q: seq<Unit>): Log {
    Log(log.states + [s], log.steps + [step], log.queues + [q])
  }

  /** The second log begins with the first. */
  ghost predicate Continues(log: Log, log': Log) {
    && |log.states| <= |log'.states| && |log.steps| <= |log'.steps| && |log.queues| <= |log'.queues|
    && forall i {:trigger At(i)} :: At(i) && 0 <= i ==>
         && (i < |log.states| ==> log'.states[i] == log.states[i])
         && (i < |log.steps| ==> log'.steps[i] == log.steps[i])
         && (i < |log.queues| ==> log'.queues[i] == log.queues[i])
  }

  lemma ContinuesAt(log: Log, log': Log, i: nat)
    requires Continues(log, log')
    ensures i < |log.states| ==> log'.states[i] == log.states[i]
    ensures i < |log.steps| ==> log'.steps[i] == log.steps[i]
    ensures i < |log.queues| ==> log'.queues[i] == log.queues[i]
  {
    assert At(i);
  }

  lemma ContinuesJoins(a: Log, b: Log, c: Log)
    requires Continues(a, b) && Continues(b, c)
    ensures Continues(a, c)
  {
  }

  lemma LogStarts(d: Deps, s: Sched, q: seq<Unit>)
    ensures Logged(d, Log([s], [], [q]), s, q)
  {
  }

  lemma LogGrows(d: Deps, log: Log, s: Sched, q: seq<Unit>, step: Step, s': Sched, q': seq<Unit>)
    requires Logged(d, log, s, q) && Next(d, s, step, s')
    ensures Logged(d, Grown(log, step, s', q'), s', q') && Continues(log, Grown(log, step, s', q'))
  {
    var ss', steps' := log.states + [s'], log.steps + [step];
    forall i | At(i) && 0 <= i < |steps'| ensures Next(d, ss'[i], steps'[i], ss'[i + 1]) {
      if i < |log.steps| {
        StepOf(d, log.states, log.steps, i);
      }
    }
  }

  // ---------- stretches of the log ----------

  /** These steps, of which there are two at most, were taken from `a` on. */
  ghost predicate StepsAt(log: Log, a: nat, steps: seq<Step>) {
    && |steps| <= 2 && a + |steps| <= |log.steps|
    && (|steps| > 0 ==> log.steps[a] == steps[0])
    && (|steps| > 1 ==> log.steps[a + 1] == steps[1])
  }

  /** Between `a` and `b` the notifications from `k` to `n` were delivered, and nothing else happened. */
  ghost predicate Notified(log: Log, a: nat, b: nat, events: seq<Event>, k: nat, n: nat)
    decreases n - k
  {
    && a <= b <= |log.steps| && b < |log.states| && k <= n <= |events|
    && if k == n then a == b
       else
         var steps := EventSteps(log.states[a].jobs, events[k]);
         StepsAt(log, a, steps) && Notified(log, a + |steps|, b, events, k + 1, n)
  }

  /** What one run of a job meets: the state its unit is in, what the unit operation returns, and
      the notifications that arrive while it is under way. */
  datatype Operation = Operation(active: ActiveState, raw: Code, events: seq<Event>)

  ghost predicate Starts(d: Deps, s: Sched, u: Unit)
    requires u in s.jobs
  {
    s.jobs[u].state.Waiting? && Runnable(d, s.jobs, u)
  }

  /** Between `a` and `b` the job on `u` was run: it was taken off the queue and, if it could start, the
      notifications arrived, and the result of the unit operation was judged. */
  ghost predicate Stretch(d: Deps, log: Log, a: nat, b: nat, u: Unit, op: Operation) {
    && a < b <= |log.steps| && b < |log.states|
    && u in log.states[a].jobs
    && log.steps[a] == Begin(u, op.active)
    && var j := log.states[a].jobs[u];
       if Starts(d, log.states[a], u) then
         && a + 1 < b
         && Notified(log, a + 1, b - 1, op.events, 0, |op.events|)
         && log.steps[b - 1] == End(u, j.id, Settle(j.kind, op.active, op.raw))
       else
         b == a + 1
  }

  /** The type of the job on `u` in state `i`. */
  function KindAt(log: Log, i: nat, u: Unit): Option<JobType> {
    if i < |log.states| && u in log.states[i].jobs then Some(log.states[i].jobs[u].kind) else None
  }

  /** What a job that is started does, by the state of its unit: the operation that is called, the type it
      has while it runs, and for a check, which calls nothing, how the run ends. */
  ghost predicate ActsOn(kind: JobType, active: ActiveState, call: Call, running: Option<JobType>, last: Step) {
    && (kind.Start? ==> call == StartUnit && running == Some(Start))
    && (kind.Stop? ==> call == StopUnit && running == Some(Stop))
    && (kind.Reload? ==> call == ReloadUnit && running == Some(Reload))
    && (kind.ReloadOrStart? && active.Active? ==> call == ReloadUnit && running == Some(Reload))
    && (kind.ReloadOrStart? && !active.Active? ==> call == StartUnit && running == Some(Start))
    && (kind.Restart? && (active.Active? || active.Reloading? || active.Deactivating?) ==>
          call == StopUnit && running == Some(Restart))
    && (kind.Restart? && (active.Inactive? || active.FailedState? || active.Activating?) ==>
          call == StartUnit && running == Some(Start))
    && (kind.TryRestart? && (active.Active? || active.Reloading?) ==> call == StopUnit && running == Some(Restart))
    && (kind.TryRestart? && active.Activating? ==> call == StartUnit && running == Some(Start))
    && (kind.TryRestart? && (active.Inactive? || active.FailedState? || active.Deactivating?) ==>
          call == NoCall && running == Some(TryRestart) && last.End? && last.code == ENoExec)
    && (kind.VerifyActive? ==>
          && call == NoCall && running == Some(VerifyActive) && last.End?
          && last.code == if active.Active? || active.Reloading? then EAlready
                          else if active.Activating? then EAgain else ENoExec)
  }

  /** From the first to the last of these cuts, jobs were run, each the first of the run queue. */
  ghost predicate Dispatched(d: Deps, log: Log, cuts: seq<nat>, ops: seq<Operation>) {
    && |cuts| == |ops| + 1
    && forall i {:trigger At(i)} :: At(i) && 0 <= i < |ops| ==>
         && cuts[i] < |log.queues| && log.queues[cuts[i]] != []
         && Stretch(d, log, cuts[i], cuts[i + 1], log.queues[cuts[i]][0], ops[i])
  }

  lemma {:induction false} NotifiedGrows(log: Log, log': Log, a: nat, b: nat, events: seq<Event>, k: nat, n: nat)
    requires Notified(log, a, b, events, k, n) && Continues(log, log')
    ensures Notified(log', a, b, events, k, n)
    decreases n - k
  {
    if k < n {
      ContinuesAt(log, log', a);
      ContinuesAt(log, log', a + 1);
      NotifiedGrows(log, log', a + |EventSteps(log.states[a].jobs, events[k])|, b, events, k + 1, n);
    }
  }

  lemma {:induction false} NotifiedSnoc(log: Log, a: nat, b: nat, c: nat, events: seq<Event>, k: nat, n: nat)
    requires Notified(log, a, b, events, k, n) && n < |events| && c < |log.states|
    requires var steps := EventSteps(log.states[b].jobs, events[n]); StepsAt(log, b, steps) && c == b + |steps|
    ensures Notified(log, a, c, events, k, n + 1)
    decreases n - k
  {
    if k < n {
      NotifiedSnoc(log, a + |EventSteps(log.states[a].jobs, events[k])|, b, c, events, k + 1, n);
    } else {
      assert Notified(log, c, c, events, n + 1, n + 1);
    }
  }

  /** One more notification was delivered. */
  lemma DeliveredMore(log: Log, log': Log, a: nat, events: seq<Event>, n: nat)
    requires n < |events| && Notified(log, a, |log.steps|, events, 0, n) && Continues(log, log')
    requires |log'.states| == |log'.steps| + 1
    requires StepsAt(log', |log.steps|, EventSteps(log.states[|log.steps|].jobs, events[n]))
    requires |log'.steps| == |log.steps| + |EventSteps(log.states[|log.steps|].jobs, events[n])|
    ensures Notified(log', a, |log'.steps|, events, 0, n + 1)
  {
    NotifiedGrows(log, log', a, |log.steps|, events, 0, n);
    ContinuesAt(log, log', |log.steps|);
    NotifiedSnoc(log', a, |log.steps|, |log'.steps|, events, 0, n);
  }

  /** What a run returns: finishing a job returns 0. */
  function Returned(jobs: map<Unit, Job>, u: Unit, id: JobId, code: Code): Code {
    if u in jobs && jobs[u].id == id && Settles(code) then Ok else code
  }

  /** A job that could not start was taken off the queue. */
  lemma StretchOfNothing(d: Deps, log: Log, log1: Log, s: Sched, q: seq<Unit>, u: Unit, op: Operation)
    requires Logged(d, log, s, q) && LogOk(d, log1) && Continues(log, log1) && u in s.jobs && !Starts(d, s, u)
    requires log1.steps == log.steps + [Begin(u, op.active)]
    ensures Stretch(d, log1, |log.steps|, |log1.steps|, u, op)
  {
    ContinuesAt(log, log1, |log.steps|);
  }

  /** A job was started, and then the unit operation took its course. */
  lemma StretchOfRun(d: Deps, log: Log, log1: Log, log2: Log, s: Sched, q: seq<Unit>, u: Unit, op: Operation)
    requires Logged(d, log, s, q) && LogOk(d, log1) && LogOk(d, log2) && u in s.jobs && Starts(d, s, u)
    requires Continues(log, log1) && log1.steps == log.steps + [Begin(u, op.active)]
    requires Continues(log1, log2) && |log2.steps| > |log1.steps|
    requires Notified(log2, |log1.steps|, |log2.steps| - 1, op.events, 0, |op.events|)
    requires log2.steps[|log2.steps| - 1] == End(u, s.jobs[u].id, Settle(s.jobs[u].kind, op.active, op.raw))
    ensures Stretch(d, log2, |log.steps|, |log2.steps|, u, op) && Continues(log, log2)
  {
    ContinuesAt(log, log1, |log.steps|);
    ContinuesAt(log1, log2, |log.steps|);
    ContinuesJoins(log, log1, log2);
  }

  lemma StretchGrows(d: Deps, log: Log, log': Log, a: nat, b: nat, u: Unit, op: Operation)
    requires Stretch(d, log, a, b, u, op) && Continues(log, log')
    ensures Stretch(d, log', a, b, u, op)
  {
    ContinuesAt(log, log', a);
    ContinuesAt(log, log', b - 1);
    if Starts(d, log.states[a], u) {
      NotifiedGrows(log, log', a + 1, b - 1, op.events, 0, |op.events|);
    }
  }

  lemma DispatchedGrows(d: Deps, log: Log, log': Log, cuts: seq<nat>, ops: seq<Operation>)
    requires Dispatched(d, log, cuts, ops) && Continues(log, log')
    ensures Dispatched(d, log', cuts, ops)
  {
    forall i | At(i) && 0 <= i < |ops|
      ensures cuts[i] < |log'.queues| && log'.queues[cuts[i]] != []
      ensures Stretch(d, log', cuts[i], cuts[i + 1], log'.queues[cuts[i]][0], ops[i])
    {
      ContinuesAt(log, log', cuts[i]);
      StretchGrows(d, log, log', cuts[i], cuts[i + 1], log.queues[cuts[i]][0], ops[i]);
    }
  }

  /** One more job was run. */
  lemma DispatchedMore(d: Deps, log: Log, log': Log, cuts: seq<nat>, ops: seq<Operation>, u: Unit, op: Operation)
    requires Dispatched(d, log, cuts, ops) && Continues(log, log')
    requires var a := cuts[|ops|];
             a < |log'.queues| && log'.queues[a] != [] && log'.queues[a][0] == u
             && Stretch(d, log', a, |log'.steps|, u, op)
    ensures Dispatched(d, log', cuts + [|log'.steps|], ops + [op])
  {
    DispatchedGrows(d, log, log', cuts, ops);
    var cuts', ops' := cuts + [|log'.steps|], ops + [op];
    forall i | At(i) && 0 <= i < |ops'|
      ensures cuts'[i] < |log'.queues| && log'.queues[cuts'[i]] != []
      ensures Stretch(d, log', cuts'[i], cuts'[i + 1], log'.queues[cuts'[i]][0], ops'[i])
    {
    }
  }

  // ---------- progress ----------

  function WaitingUnits(jobs: map<Unit, Job>): set<Unit> {
    set u | u in jobs && jobs[u].state.Waiting?
  }

  lemma EndKeepsMeasure(d: Deps, s: Sched, u: Unit, id: JobId, code: Code, s': Sched)
    requires !code.EAgain? && Next(d, s, End(u, id, code), s')
    ensures Weight(s'.jobs) < Weight(s.jobs) || s' == s
  {
    NextLowersWeight(d, s, End(u, id, code), s');
  }

  lemma DeferredKeepsMeasure(s: Sched, u: Unit)
    requires u in s.jobs
    ensures Weight(Deferred(s, u).jobs) == Weight(s.jobs)
    ensures WaitingUnits(Deferred(s, u).jobs) == WaitingUnits(s.jobs) + {u}
  {
    DeferredKeepsWeight(s, u);
  }

  lemma RequeuedKeepsMeasure(s: Sched, u: Unit)
    requires u in s.jobs
    ensures Weight(Requeued(s, u).jobs) == Weight(s.jobs)
    ensures WaitingUnits(Requeued(s, u).jobs) == WaitingUnits(s.jobs)
  {
    DeferredKeepsWeight(s, u);
  }

  lemma BegunKeepsMeasure(d: Deps, s: Sched, u: Unit, active: ActiveState)
    requires u in s.jobs
    ensures Weight(Begun(d, s, u, active).jobs) <= Weight(s.jobs)
    ensures if s.jobs[u].state.Waiting? && Runnable(d, s.jobs, u)
            then WaitingUnits(Begun(d, s, u, active).jobs) == WaitingUnits(s.jobs) - {u} && u in WaitingUnits(s.jobs)
            else WaitingUnits(Begun(d, s, u, active).jobs) == WaitingUnits(s.jobs)
  {
    BegunKeepsWeight(d, s, u, active);
  }

  /** Fewer finishes to go; or as many, and the same jobs wait. */
  ghost predicate NoFurther(s: Sched, s': Sched) {
    || Weight(s'.jobs) < Weight(s.jobs)
    || (Weight(s'.jobs) == Weight(s.jobs) && WaitingUnits(s'.jobs) == WaitingUnits(s.jobs))
  }

  lemma NotifyMeasure(d: Deps, s: Sched, step: Step, s': Sched)
    requires Next(d, s, step, s') && (step.Requeue? || step.Finish?)
    ensures NoFurther(s, s')
  {
    if step.Requeue? {
      RequeuedKeepsMeasure(s, step.u);
    } else {
      FinishedLowersWeight(d, s, step.u, step.result, s');
    }
  }

  lemma NoFurtherJoins(s: Sched, s1: Sched, s2: Sched)
    requires NoFurther(s, s1) && NoFurther(s1, s2)
    ensures NoFurther(s, s2)
  {
  }

  /** A notification, if it does anything, re-queues a job or finishes one. */
  lemma NotificationSteps(log: Log, a: nat, e: Event, i: nat)
    requires a < |log.states| && StepsAt(log, a, EventSteps(log.states[a].jobs, e))
    requires a <= i < a + |EventSteps(log.states[a].jobs, e)|
    ensures log.steps[i].Requeue? || log.steps[i].Finish?
  {
  }

  lemma StepMeasure(d: Deps, log: Log, a: nat, e: Event, i: nat)
    requires LogOk(d, log) && a < |log.states| && StepsAt(log, a, EventSteps(log.states[a].jobs, e))
    requires a <= i < a + |EventSteps(log.states[a].jobs, e)|
    ensures NoFurther(log.states[i], log.states[i + 1])
  {
    NotificationSteps(log, a, e, i);
    StepOf(d, log.states, log.steps, i);
    NotifyMeasure(d, log.states[i], log.steps[i], log.states[i + 1]);
  }

  lemma NotificationMeasure(d: Deps, log: Log, a: nat, e: Event)
    requires LogOk(d, log) && a < |log.states| && StepsAt(log, a, EventSteps(log.states[a].jobs, e))
    ensures NoFurther(log.states[a], log.states[a + |EventSteps(log.states[a].jobs, e)|])
  {
    var n := |EventSteps(log.states[a].jobs, e)|;
    if n > 0 {
      StepMeasure(d, log, a, e, a);
    }
    if n > 1 {
      StepMeasure(d, log, a, e, a + 1);
      NoFurtherJoins(log.states[a], log.states[a + 1], log.states[a + 2]);
    }
  }

  ghost predicate NoEnds(log: Log, a: nat, b: nat) {
    forall i {:trigger At(i)} :: At(i) && a <= i < b && i < |log.steps| ==> !log.steps[i].End?
  }

  /** Notifications lead no further from the end. */
  lemma {:induction false} NotifiedMeasure(d: Deps, log: Log, a: nat, b: nat, events: seq<Event>, k: nat, n: nat)
    requires LogOk(d, log) && Notified(log, a, b, events, k, n)
    ensures NoFurther(log.states[a], log.states[b])
    decreases n - k
  {
    if k < n {
      var c := a + |EventSteps(log.states[a].jobs, events[k])|;
      NotificationMeasure(d, log, a, events[k]);
      NotifiedMeasure(d, log, c, b, events, k + 1, n);
      NoFurtherJoins(log.states[a], log.states[c], log.states[b]);
    }
  }

  lemma {:induction false} NotifiedNoEnds(log: Log, a: nat, b: nat, events: seq<Event>, k: nat, n: nat)
    requires Notified(log, a, b, events, k, n)
    ensures NoEnds(log, a, b)
    decreases n - k
  {
    if k < n {
      var c := a + |EventSteps(log.states[a].jobs, events[k])|;
      NotifiedNoEnds(log, c, b, events, k + 1, n);
      forall i | At(i) && a <= i < b ensures !log.steps[i].End? {
        if i < c {
          NotificationSteps(log, a, events[k], i);
        }
      }
    }
  }

  /** What a run of the job on `u` achieves: fewer finishes to go, or as many but fewer jobs wait; or the
      same jobs wait, and then it was not started, or asked for a retry without any notifications. */
  ghost predicate Achieved(s: Sched, s': Sched, started: bool, retried: bool) {
    || Weight(s'.jobs) < Weight(s.jobs)
    || (Weight(s'.jobs) == Weight(s.jobs) && WaitingUnits(s'.jobs) < WaitingUnits(s.jobs))
    || (Weight(s'.jobs) == Weight(s.jobs) && WaitingUnits(s'.jobs) == WaitingUnits(s.jobs) && (!started || retried))
  }

  lemma StretchMeasure(d: Deps, log: Log, a: nat, b: nat, u: Unit, op: Operation)
    requires LogOk(d, log) && Stretch(d, log, a, b, u, op)
    ensures var j := log.states[a].jobs[u];
            var retry := Settle(j.kind, op.active, op.raw).EAgain?;
            !retry || op.events == [] ==>
              Achieved(log.states[a], log.states[b], Starts(d, log.states[a], u), retry)
  {
    var s := log.states[a];
    StepOf(d, log.states, log.steps, a);
    BegunKeepsMeasure(d, s, u, op.active);
    if Starts(d, s, u) {
      var code := Settle(s.jobs[u].kind, op.active, op.raw);
      NotifiedMeasure(d, log, a + 1, b - 1, op.events, 0, |op.events|);
      StepOf(d, log.states, log.steps, b - 1);
      if !code.EAgain? {
        EndKeepsMeasure(d, log.states[b - 1], u, s.jobs[u].id, code, log.states[b]);
      } else if op.events == [] {
        DeferredKeepsMeasure(log.states[b - 1], u);
      }
    }
  }

  lemma StretchNoRetries(d: Deps, log: Log, log': Log, u: Unit, op: Operation)
    requires LogOk(d, log') && Continues(log, log') && Stretch(d, log', |log.steps|, |log'.steps|, u, op)
    requires NoRetries(log.steps)
    requires !Settle(log'.states[|log.steps|].jobs[u].kind, op.active, op.raw).EAgain?
    ensures NoRetries(log'.steps)
  {
    var a, b := |log.steps|, |log'.steps|;
    if Starts(d, log'.states[a], u) {
      NotifiedNoEnds(log', a + 1, b - 1, op.events, 0, |op.events|);
    }
    forall i | At(i) && 0 <= i < b && log'.steps[i].End? ensures !log'.steps[i].code.EAgain? {
      if i < a {
        ContinuesAt(log, log', i);
      }
    }
  }

  // ---------- whole batches ----------

  /** One dispatch of the run queue: where its runs begin and end, and what they met. */
  datatype Round = Round(cuts: seq<nat>, ops: seq<Operation>)

  function FirstOf(r: Round): nat {
    if r.cuts == [] then 0 else r.cuts[0]
  }

  function LastOf(r: Round): nat {
    if r.cuts == [] then 0 else r.cuts[|r.cuts| - 1]
  }

  /** The step at `i` finishes a running job, for a reason outside the engine, while nothing is queued. */
  ghost predicate FinishesRunning(log: Log, i: nat) {
    && i < |log.steps| && i < |log.states| && i < |log.queues|
    && log.queues[i] == []
    && log.steps[i].Finish?
    && log.steps[i].u in log.states[i].jobs
    && log.states[i].jobs[log.steps[i].u].state.Running?
  }

  /** Round `i` is followed by the finish of a running job and another round, if it is not the last. */
  ghost predicate RoundOk(d: Deps, log: Log, rounds: seq<Round>, i: nat) {
    && i < |rounds|
    && Dispatched(d, log, rounds[i].cuts, rounds[i].ops)
    && (i + 1 < |rounds| ==>
          FinishesRunning(log, LastOf(rounds[i])) && FirstOf(rounds[i + 1]) == LastOf(rounds[i]) + 1)
  }

  /** The whole log consists of these rounds, with a finish of a running job between each two. */
  ghost predicate BatchRun(d: Deps, log: Log, rounds: seq<Round>) {
    && |rounds| > 0
    && FirstOf(rounds[0]) == 0
    && LastOf(rounds[|rounds| - 1]) == |log.steps|
    && forall i: nat {:trigger At(i)} :: At(i) && i < |rounds| ==> RoundOk(d, log, rounds, i)
  }

  lemma RoundGrows(d: Deps, log: Log, log': Log, rounds: seq<Round>, rounds': seq<Round>, i: nat)
    requires RoundOk(d, log, rounds, i) && Continues(log, log') && i + 1 < |rounds| && i + 1 < |rounds'|
    requires rounds'[i] == rounds[i] && FirstOf(rounds'[i + 1]) == FirstOf(rounds[i + 1])
    ensures RoundOk(d, log', rounds', i)
  {
    ContinuesAt(log, log', LastOf(rounds[i]));
    DispatchedGrows(d, log, log', rounds[i].cuts, rounds[i].ops);
  }

  /** The last round, in which nothing has been run yet, takes place. */
  lemma BatchDispatches(d: Deps, log: Log, log': Log, rounds: seq<Round>, r: Round)
    requires BatchRun(d, log, rounds) && rounds[|rounds| - 1].ops == [] && Continues(log, log')
    requires Dispatched(d, log', r.cuts, r.ops) && FirstOf(r) == |log.steps| && LastOf(r) == |log'.steps|
    ensures BatchRun(d, log', rounds[|rounds| - 1 := r])
  {
    var n := |rounds| - 1;
    var rounds' := rounds[n := r];
    assert At(n) && FirstOf(rounds[n]) == |log.steps|;
    forall i: nat | At(i) && i < |rounds'| ensures RoundOk(d, log', rounds', i) {
      if i < n {
        RoundGrows(d, log, log', rounds, rounds', i);
      }
    }
  }

  /** After the last round, a running job finishes. */
  lemma BatchFinishes(d: Deps, log: Log, log': Log, rounds: seq<Round>)
    requires BatchRun(d, log, rounds) && Continues(log, log') && |log'.steps| == |log.steps| + 1
    requires FinishesRunning(log', |log.steps|)
    ensures BatchRun(d, log', rounds + [Round([|log'.steps|], [])])
  {
    var n := |rounds| - 1;
    var rounds' := rounds + [Round([|log'.steps|], [])];
    forall i: nat | At(i) && i < |rounds'| ensures RoundOk(d, log', rounds', i) {
      if i <= n {
        DispatchedGrows(d, log, log', rounds[i].cuts, rounds[i].ops);
      }
      if i < n {
        RoundGrows(d, log, log', rounds, rounds', i);
      }
    }
  }

  // ---------- why jobs are finished ----------

  /** The new state of its unit, reported by `e`, is what finishes the job at step `i`. */
  ghost predicate Explains(log: Log, i: nat, e: Event) {
    && i < |log.steps| && i < |log.states|
    && log.steps[i].Finish? && e.unit == log.steps[i].u && e.unit in log.states[i].jobs
    && var j := log.states[i].jobs[e.unit];
       NotifyResult(j.kind, j.state, e.now, e.reloadOk) == Some(log.steps[i].result)
  }

  lemma {:induction false} NotifiedFinish(d: Deps, log: Log, a: nat, b: nat, events: seq<Event>, k: nat, n: nat, i: nat)
    requires LogOk(d, log) && Notified(log, a, b, events, k, n) && a <= i < b && log.steps[i].Finish?
    ensures exists e :: e in events && Explains(log, i, e)
    decreases n - k
  {
    var steps := EventSteps(log.states[a].jobs, events[k]);
    if i < a + |steps| {
      NotifyFinish(d, log, a, events[k], i);
    } else {
      NotifiedFinish(d, log, a + |steps|, b, events, k + 1, n, i);
    }
  }

  lemma NotifyFinish(d: Deps, log: Log, a: nat, e: Event, i: nat)
    requires LogOk(d, log) && a < |log.states| && StepsAt(log, a, EventSteps(log.states[a].jobs, e))
    requires a <= i < a + |EventSteps(log.states[a].jobs, e)| && log.steps[i].Finish?
    ensures Explains(log, i, e)
  {
    if i > a {
      StepOf(d, log.states, log.steps, a);
    }
  }

  lemma {:induction false} DispatchedFinish(d: Deps, log: Log, cuts: seq<nat>, ops: seq<Operation>, k: nat, i: nat)
    requires LogOk(d, log) && Dispatched(d, log, cuts, ops) && k <= |ops|
    requires cuts[0] <= i < cuts[k] && i < |log.steps| && log.steps[i].Finish?
    ensures exists n, e :: 0 <= n < |ops| && e in ops[n].events && Explains(log, i, e)
  {
    assert k > 0;
    assert At(k - 1);
    if i < cuts[k - 1] {
      DispatchedFinish(d, log, cuts, ops, k - 1, i);
    } else {
      var a, b := cuts[k - 1], cuts[k];
      NotifiedFinish(d, log, a + 1, b - 1, ops[k - 1].events, 0, |ops[k - 1].events|, i);
    }
  }

  lemma ExplainedIsBegunOrDone(log: Log, i: nat)
    requires exists e :: Explains(log, i, e)
    ensures i < |log.steps| && i < |log.states| && log.steps[i].Finish? && log.steps[i].u in log.states[i].jobs
    ensures log.states[i].jobs[log.steps[i].u].state.Running? || log.steps[i].result == Done
  {
    var e :| Explains(log, i, e);
    SettledUnitFinishesJob(log.states[i].jobs[log.steps[i].u].kind, e.now, e.reloadOk);
  }

  /** In the life of a batch a job is finished only because its unit has reported a new state while some
      job was being run, or from outside while the job is running. So whatever job is finished, other than
      by what it depends on, was begun, or its unit has got where the job was to take it. */
  lemma {:induction false} FinishIsExplained(d: Deps, log: Log, rounds: seq<Round>, k: nat, i: nat)
    requires LogOk(d, log) && BatchRun(d, log, rounds) && k < |rounds| && i < |log.steps| && log.steps[i].Finish?
    requires i < LastOf(rounds[k])
    ensures || FinishesRunning(log, i)
            || exists e :: Explains(log, i, e)
    ensures log.steps[i].u in log.states[i].jobs
    ensures log.states[i].jobs[log.steps[i].u].state.Running? || log.steps[i].result == Done
  {
    assert At(k) && RoundOk(d, log, rounds, k);
    if FirstOf(rounds[k]) <= i {
      DispatchedFinish(d, log, rounds[k].cuts, rounds[k].ops, |rounds[k].ops|, i);
      ExplainedIsBegunOrDone(log, i);
    } else {
      assert k > 0;
      assert At(k - 1) && RoundOk(d, log, rounds, k - 1);
      if i < LastOf(rounds[k - 1]) {
        FinishIsExplained(d, log, rounds, k - 1, i);
      }
    }
  }
}
