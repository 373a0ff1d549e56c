/** Job types and the rules for merging two jobs on one unit (src/job.h, src/job.c). */
module JobTypes {

  import opened Collections

  datatype JobType = Start | VerifyActive | Stop | Reload | ReloadOrStart | Restart | TryRestart

  datatype JobState = Waiting | Running

  datatype JobResult = Done | Canceled | Timeout | Failed | Dependency | Skipped

  datatype ActiveState = Active | Reloading | Inactive | FailedState | Activating | Deactivating

  /** A job whose unit comes up, or may come up, when it is done. */
  predicate Positive(t: JobType) {
    t.Start? || t.VerifyActive? || t.Reload? || t.ReloadOrStart?
  }

  /** A job that first takes its unit down. */
  predicate Negative(t: JobType) {
    t.Stop? || t.Restart? || t.TryRestart?
  }

  predicate RestartLike(t: JobType) {
    t.Restart? || t.TryRestart?
  }

  /** The job types that fail when something they require fails. */
  predicate StartLike(t: JobType) {
    t.Start? || t.VerifyActive? || t.ReloadOrStart?
  }

  predicate TypesMatch(a: JobType, b: JobType, c: JobType, d: JobType) {
    (a == c && b == d) || (a == d && b == c)
  }

  /** The type that does the work of both `a` and `b`; None is -EEXIST. */
  function Merge(a: JobType, b: JobType): Option<JobType> {
    if a == b then Some(a)
    else if TypesMatch(a, b, Start, VerifyActive) then Some(Start)
    else if TypesMatch(a, b, Start, Reload) || TypesMatch(a, b, Start, ReloadOrStart)
            || TypesMatch(a, b, VerifyActive, ReloadOrStart) || TypesMatch(a, b, Reload, ReloadOrStart) then
      Some(ReloadOrStart)
    else if TypesMatch(a, b, Start, Restart) || TypesMatch(a, b, Start, TryRestart)
            || TypesMatch(a, b, VerifyActive, Restart) || TypesMatch(a, b, Reload, Restart)
            || TypesMatch(a, b, ReloadOrStart, Restart) || TypesMatch(a, b, ReloadOrStart, TryRestart)
            || TypesMatch(a, b, Restart, TryRestart) then
      Some(Restart)
    else if TypesMatch(a, b, VerifyActive, Reload) then Some(Reload)
    else if TypesMatch(a, b, VerifyActive, TryRestart) || TypesMatch(a, b, Reload, TryRestart) then
      Some(TryRestart)
    else None
  }

  /** Whether operation `a` includes everything operation `b` does. */
  predicate Superset(a: JobType, b: JobType) {
    || a == b
    || match a
       case Start => b.VerifyActive?
       case Reload => b.VerifyActive?
       case ReloadOrStart => b.Reload? || b.Start? || b.VerifyActive?
       case Restart => b.Start? || b.VerifyActive? || b.Reload? || b.ReloadOrStart? || b.TryRestart?
       case TryRestart => b.VerifyActive? || b.Reload?
       case _ => false
  }

  predicate Conflicting(a: JobType, b: JobType) {
    a.Stop? != b.Stop?
  }

  /** Merging a whole list, left to right, as is done for all the jobs of a transaction on one unit. */
  function MergeAll(ts: seq<JobType>): Option<JobType>
    requires |ts| > 0
  {
    if |ts| == 1 then Some(ts[0])
    else
      match MergeAll(ts[..|ts| - 1])
      case None => None
      case Some(t) => Merge(t, ts[|ts| - 1])
  }

  ghost predicate UpperBound(t: JobType, ts: seq<JobType>) {
    forall k :: 0 <= k < |ts| ==> Superset(t, ts[k])
  }

  ghost predicate LeastUpperBound(t: JobType, ts: seq<JobType>) {
    && UpperBound(t, ts)
    && forall u :: UpperBound(u, ts) ==> Superset(u, t)
  }

  ghost predicate NoConflicts(ts: seq<JobType>) {
    forall i, j :: 0 <= i < |ts| && 0 <= j < |ts| ==> !Conflicting(ts[i], ts[j])
  }

  /** Two types have an upper bound exactly when they do not conflict, and merging finds the least one. */
  lemma MergeIsJoin(a: JobType, b: JobType)
    ensures Merge(a, b).Some? <==> !Conflicting(a, b)
    ensures Merge(a, b).Some? <==> exists u :: Superset(u, a) && Superset(u, b)
    ensures Merge(a, b).Some? ==>
              && Superset(Merge(a, b).value, a)
              && Superset(Merge(a, b).value, b)
              && forall u :: Superset(u, a) && Superset(u, b) ==> Superset(u, Merge(a, b).value)
  {
    if Merge(a, b).Some? {
      assert Superset(Merge(a, b).value, a) && Superset(Merge(a, b).value, b);
    }
  }

  /** A list of any length merges exactly when it does not mix stop jobs with others, and the
      merged type is the least type that covers every member. */
  lemma {:induction false} MergeAllIsJoin(ts: seq<JobType>)
    requires |ts| > 0
    ensures MergeAll(ts).Some? <==> NoConflicts(ts)
    ensures MergeAll(ts).Some? ==> LeastUpperBound(MergeAll(ts).value, ts)
  {
    var n := |ts| - 1;
    if n == 0 {
      assert ts == [ts[0]];
    } else {
      var front := ts[..n];
      MergeAllIsJoin(front);
      assert forall k :: 0 <= k < n ==> front[k] == ts[k];
      if MergeAll(front).Some? {
        var t := MergeAll(front).value;
        MergeIsJoin(t, ts[n]);
        assert Superset(t, front[0]);
        assert forall k :: 0 <= k < n ==> ts[k].Stop? == front[0].Stop?;
        if MergeAll(ts).Some? {
          forall u | UpperBound(u, ts) ensures Superset(u, MergeAll(ts).value) {
            assert UpperBound(u, front);
            assert Superset(u, ts[n]);
          }
        } else {
          assert Conflicting(ts[0], ts[n]);
        }
      } else {
        var i, j :| 0 <= i < n && 0 <= j < n && Conflicting(front[i], front[j]);
        assert Conflicting(ts[i], ts[j]);
      }
    }
  }

  /** The order in which jobs are merged does not matter. */
  lemma MergeAllIgnoresOrder(ts: seq<JobType>, us: seq<JobType>)
    requires |ts| > 0 && multiset(ts) == multiset(us)
    ensures |us| > 0 && MergeAll(ts) == MergeAll(us)
  {
    assert |multiset(ts)| == |ts| && |multiset(us)| == |us|;
    assert forall t :: t in ts <==> t in us by {
      forall t ensures t in ts <==> t in us {
        assert t in ts <==> t in multiset(ts);
        assert t in us <==> t in multiset(us);
      }
    }
    MergeAllIsJoin(ts);
    MergeAllIsJoin(us);
    SameMembersSameBounds(ts, us);
  }

  lemma SameMembersSameBounds(ts: seq<JobType>, us: seq<JobType>)
    requires forall t :: t in ts <==> t in us
    ensures NoConflicts(ts) <==> NoConflicts(us)
    ensures forall t :: UpperBound(t, ts) <==> UpperBound(t, us)
  {
    SameMembersBoundedAbove(ts, us);
    SameMembersBoundedAbove(us, ts);
  }

  lemma SameMembersBoundedAbove(ts: seq<JobType>, us: seq<JobType>)
    requires forall t :: t in us ==> t in ts
    ensures NoConflicts(ts) ==> NoConflicts(us)
    ensures forall t :: UpperBound(t, ts) ==> UpperBound(t, us)
  {
    assert forall k :: 0 <= k < |us| ==> us[k] in ts;
  }
}
