/** Killing all processes of a control group, including those that fork meanwhile (src/cgroup-util.c). */
module KillLoop {
  import opened Collections
  import opened ErrorCodes

  const PID_MAX: nat := 4194304

  type Pid = p: nat | 1 <= p <= PID_MAX witness 1

  type Errno = e: int | e > 0 witness 1

  /** What kill() does. */
  datatype Outcome = Delivered | NoSuchProcess | Refused(errno: Errno)

  type Answers = Pid -> Outcome

  /** What one reading of the task list yields: an error from opening it, or some processes and
      then possibly an error. Errors are negative. */
  datatype Reading = Reading(openError: int, pids: seq<Pid>, readError: int)

  /** A control group: what each reading of its task list yields, its subgroups, and what goes wrong
      when they are listed or the group is removed. */
  datatype Group = Group(
    readings: nat -> Reading,
    listError: int,
    subgroups: seq<Group>,
    readError: int,
    rmdirError: int)

  // ---------- the result code ----------

  /** The first of two errors; 0 is none. */
  function Then(e: int, f: int): int {
    if e < 0 then e else f
  }

  function Fault(r: int): int {
    if r < 0 then r else 0
  }

  /** The first error among the answers to the signals `sent`, or 0. */
  ghost function Refusal(a: Answers, sent: seq<Pid>): (e: int)
    ensures e <= 0
  {
    if sent == [] then 0
    else
      var n := |sent| - 1;
      Then(Refusal(a, sent[..n]), if a(sent[n]).Refused? then 0 - a(sent[n]).errno else 0)
  }

  ghost predicate AnyHit(a: Answers, sent: seq<Pid>) {
    exists p :: p in sent && a(p).Delivered?
  }

  /** The error, or else whether any signal was delivered. */
  ghost function Verdict(e: int, hit: bool): int {
    if e < 0 then e else if hit then 1 else 0
  }

  ghost function Result(a: Answers, sent: seq<Pid>): int {
    Verdict(Refusal(a, sent), AnyHit(a, sent))
  }

  lemma {:induction false} RefusalsJoin(a: Answers, s: seq<Pid>, t: seq<Pid>)
    ensures Refusal(a, s + t) == Then(Refusal(a, s), Refusal(a, t))
    ensures AnyHit(a, s + t) <==> AnyHit(a, s) || AnyHit(a, t)
  {
    assert forall p :: p in s + t <==> p in s || p in t;
    if t == [] {
      assert s + t == s;
    } else {
      var n := |t| - 1;
      assert (s + t)[..|s| + n] == s + t[..n];
      RefusalsJoin(a, s, t[..n]);
    }
  }

  lemma ResultPush(a: Answers, sent: seq<Pid>, p: Pid)
    ensures Result(a, sent + [p]) ==
            match a(p)
            case Delivered => if Result(a, sent) == 0 then 1 else Result(a, sent)
            case NoSuchProcess => Result(a, sent)
            case Refused(errno) => if Result(a, sent) >= 0 then 0 - errno else Result(a, sent)
  {
    assert (sent + [p])[..|sent|] == sent;
    assert forall q :: q in sent + [p] <==> q in sent || q == p;
  }

  // ---------- SIGCONT ----------

  /** The first process to be hit, unless an error came before it. */
  ghost function FirstHit(a: Answers, sent: seq<Pid>): seq<Pid> {
    if sent == [] || a(sent[0]).Refused? then []
    else if a(sent[0]).Delivered? then [sent[0]]
    else FirstHit(a, sent[1..])
  }

  lemma {:induction false} FirstHitPush(a: Answers, sent: seq<Pid>, p: Pid)
    ensures FirstHit(a, sent + [p]) ==
            FirstHit(a, sent) + if Result(a, sent) == 0 && a(p).Delivered? then [p] else []
  {
    if sent != [] {
      assert (sent + [p])[1..] == sent[1..] + [p] && sent == [sent[0]] + sent[1..];
      RefusalsJoin(a, [sent[0]], sent[1..]);
      ResultPush(a, [], sent[0]);
      assert [] + [sent[0]] == [sent[0]];
      FirstHitPush(a, sent[1..], p);
    }
  }

  /** Everybody who is hit also gets SIGCONT exactly if nobody who is hit was preceded by a signal
      that was delivered or refused: so at most one is hit, and no error comes before. */
  lemma {:induction false} AllContinuedExactlyWhen(a: Answers, sent: seq<Pid>)
    requires Distinct(sent)
    ensures (forall p :: p in sent && a(p).Delivered? ==> p in FirstHit(a, sent)) <==>
            forall i, j :: 0 <= i < j < |sent| && a(sent[j]).Delivered? ==> a(sent[i]).NoSuchProcess?
  {
    if sent != [] {
      var rest := sent[1..];
      assert forall p :: p in sent <==> p == sent[0] || p in rest;
      assert forall j :: 0 < j < |sent| ==> sent[j] == rest[j - 1];
      AllContinuedExactlyWhen(a, rest);
      if a(sent[0]).NoSuchProcess? {
        assert FirstHit(a, sent) == FirstHit(a, rest);
      } else {
        assert forall p :: p in rest ==> p !in FirstHit(a, sent);
      }
    }
  }

  // ---------- one group ----------

  predicate Opens(r: Reading) {
    r.openError >= 0
  }

  predicate Complete(r: Reading) {
    Opens(r) && r.readError >= 0
  }

  /** What the last reading contributes to the result. A group that is gone is no error. */
  function Trouble(r: Reading): int {
    if !Opens(r) then (if r.openError == ENOENT then 0 else r.openError)
    else if r.readError < 0 then r.readError
    else 0
  }

  /** Everybody on the list was to be left alone or was signalled. */
  ghost predicate Reached(pids: seq<Pid>, left: set<Pid>, sent: seq<Pid>) {
    forall p :: p in pids ==> p in left || p in sent
  }

  /** The process is on one of the first `n` lists. */
  ghost predicate OnLists(g: Group, n: nat, p: Pid) {
    exists k :: 0 <= k < n && Opens(g.readings(k)) && p in g.readings(k).pids
  }

  /** The first `n` readings were complete, and everybody on them was reached. */
  ghost predicate Worked(g: Group, n: nat, left: set<Pid>, sent: seq<Pid>) {
    forall k :: 0 <= k < n ==> Complete(g.readings(k)) && Reached(g.readings(k).pids, left, sent)
  }

  /** Nobody was signalled who was not on one of the first `n` lists, or was to be left alone. */
  ghost predicate OnlyListed(g: Group, n: nat, left: set<Pid>, sent: seq<Pid>) {
    forall p :: p in sent ==> p !in left && OnLists(g, n, p)
  }

  /** Readings 0 to `last` took place and signals went to `sent`, while those in `left` were to be
      left alone. Everybody on a list was reached, and nobody else; and if the last list could be
      read to its end, it held nobody who was not on an earlier one. */
  ghost predicate Swept(g: Group, last: nat, left: set<Pid>, sent: seq<Pid>) {
    var final := g.readings(last);
    && Worked(g, last, left, sent)
    && OnlyListed(g, last + 1, left, sent)
    && (Opens(final) ==> Reached(final.pids, left, sent))
    && (Complete(final) ==> forall p :: p in final.pids ==> p in left || OnLists(g, last, p))
  }

  lemma WorkedMore(g: Group, n: nat, left: set<Pid>, sent: seq<Pid>, more: seq<Pid>)
    requires Worked(g, n, left, sent)
    ensures Worked(g, n, left, sent + more)
    ensures Complete(g.readings(n)) && Reached(g.readings(n).pids, left, sent + more) ==>
              Worked(g, n + 1, left, sent + more)
  {
    assert forall p :: p in sent ==> p in sent + more;
  }

  /** One more list was worked on. */
  lemma OnlyListedMore(g: Group, n: nat, left: set<Pid>, sent: seq<Pid>, more: seq<Pid>)
    requires OnlyListed(g, n, left, sent) && Opens(g.readings(n))
    requires forall p :: p in more ==> p in g.readings(n).pids && p !in left
    ensures OnlyListed(g, n + 1, left, sent + more)
  {
    forall p | p in sent + more ensures p !in left && OnLists(g, n + 1, p) {
      if p in sent {
        assert OnLists(g, n, p);
      }
    }
  }

  // ---------- a group and its subgroups ----------

  /** What was done to a group: its last reading, the signals sent to its own processes, and the same
      for its subgroups. */
  datatype Trace = Trace(last: nat, sent: seq<Pid>, subs: seq<Trace>)

  ghost function AllSent(t: Trace): seq<Pid> {
    t.sent + AllSentOf(t.subs)
  }

  ghost function AllSentOf(ts: seq<Trace>): seq<Pid> {
    if ts == [] then [] else AllSentOf(ts[..|ts| - 1]) + AllSent(ts[|ts| - 1])
  }

  /** SIGCONT goes to the first process hit in each group. */
  ghost function AllConts(a: Answers, t: Trace): seq<Pid> {
    FirstHit(a, t.sent) + AllContsOf(a, t.subs)
  }

  ghost function AllContsOf(a: Answers, ts: seq<Trace>): seq<Pid> {
    if ts == [] then [] else AllContsOf(a, ts[..|ts| - 1]) + AllConts(a, ts[|ts| - 1])
  }

  /** A group that is gone, or still in use, is no error. */
  function RmdirFault(g: Group, rem: bool): (e: int)
    ensures e < 0 <==> rem && g.rmdirError < 0 && g.rmdirError != ENOENT && g.rmdirError != EBUSY
    ensures e == 0 || e == g.rmdirError
  {
    if rem && g.rmdirError != ENOENT && g.rmdirError != EBUSY then Fault(g.rmdirError) else 0
  }

  /** The first error that was met with the group or its subgroups, or 0. Subgroups that cannot be
      listed are not looked at. */
  ghost function Error(a: Answers, g: Group, t: Trace, rem: bool): (e: int)
    ensures e <= 0
    decreases t
  {
    var own := Then(Refusal(a, t.sent), Trouble(g.readings(t.last)));
    if g.listError < 0 then
      Then(own, if g.listError == ENOENT then 0 else g.listError)
    else
      Then(Then(Then(own, ErrorOf(a, g.subgroups, t.subs, rem)), Fault(g.readError)), RmdirFault(g, rem))
  }

  ghost function ErrorOf(a: Answers, gs: seq<Group>, ts: seq<Trace>, rem: bool): (e: int)
    ensures e <= 0
    decreases ts
  {
    if ts == [] || |gs| != |ts| then 0
    else
      var n := |ts| - 1;
      Then(ErrorOf(a, gs[..n], ts[..n], rem), Error(a, gs[n], ts[n], rem))
  }

  /** Every group was swept, one after the other; nobody who was reached before is signalled again. */
  ghost predicate Traced(g: Group, t: Trace, left: set<Pid>)
    decreases t
  {
    && Swept(g, t.last, left, t.sent)
    && (if g.listError < 0 then t.subs == [] else AllTraced(g.subgroups, t.subs, left + Elements(t.sent)))
  }

  ghost predicate AllTraced(gs: seq<Group>, ts: seq<Trace>, left: set<Pid>)
    decreases ts
  {
    && |gs| == |ts|
    && (ts == [] ||
        var n := |ts| - 1;
        && AllTraced(gs[..n], ts[..n], left)
        && Traced(gs[n], ts[n], left + Elements(AllSentOf(ts[..n]))))
  }

  /** One more subgroup was dealt with. */
  lemma TraceSnoc(a: Answers, gs: seq<Group>, n: nat, ts: seq<Trace>, t: Trace, left: set<Pid>, rem: bool)
    requires n < |gs| && AllTraced(gs[..n], ts, left) && Traced(gs[n], t, left + Elements(AllSentOf(ts)))
    ensures AllTraced(gs[..n + 1], ts + [t], left)
    ensures AllSentOf(ts + [t]) == AllSentOf(ts) + AllSent(t)
    ensures AllContsOf(a, ts + [t]) == AllContsOf(a, ts) + AllConts(a, t)
    ensures ErrorOf(a, gs[..n + 1], ts + [t], rem) == Then(ErrorOf(a, gs[..n], ts, rem), Error(a, gs[n], t, rem))
  {
    var us := ts + [t];
    assert us[..n] == ts && us[n] == t && gs[..n + 1][..n] == gs[..n];
  }

  /** At its last reading the group was gone, or its list could be read to the end and everybody on
      it was reached; and so for all subgroups, unless these were gone when they were to be listed. */
  ghost predicate Covered(g: Group, t: Trace, done: set<Pid>)
    decreases t
  {
    && (g.readings(t.last).openError == ENOENT
        || (Complete(g.readings(t.last)) && Reached(g.readings(t.last).pids, done, [])))
    && (g.listError == ENOENT || AllCovered(g.subgroups, t.subs, done))
  }

  ghost predicate AllCovered(gs: seq<Group>, ts: seq<Trace>, done: set<Pid>)
    decreases ts
  {
    |gs| == |ts| && forall k :: 0 <= k < |ts| ==> Covered(gs[k], ts[k], done)
  }

  /** If no error was met, nobody escaped. */
  lemma {:induction false} NoErrorCovers(a: Answers, g: Group, t: Trace, left: set<Pid>, done: set<Pid>, rem: bool)
    requires Traced(g, t, left) && Error(a, g, t, rem) == 0 && left + Elements(AllSent(t)) <= done
    ensures Covered(g, t, done)
    decreases t, 0
  {
    assert forall p :: p in t.sent ==> p in AllSent(t);
    if g.listError >= 0 {
      assert forall p :: p in AllSentOf(t.subs) ==> p in AllSent(t);
      NoErrorsCover(a, g.subgroups, t.subs, left + Elements(t.sent), done, rem);
    }
  }

  lemma {:induction false} NoErrorsCover(a: Answers, gs: seq<Group>, ts: seq<Trace>, left: set<Pid>,
                                         done: set<Pid>, rem: bool)
    requires AllTraced(gs, ts, left) && ErrorOf(a, gs, ts, rem) == 0 && left + Elements(AllSentOf(ts)) <= done
    ensures AllCovered(gs, ts, done)
    decreases ts, 1
  {
    if ts != [] {
      var n := |ts| - 1;
      assert forall p :: p in AllSentOf(ts[..n]) || p in AllSent(ts[n]) ==> p in AllSentOf(ts);
      NoErrorsCover(a, gs[..n], ts[..n], left, done, rem);
      NoErrorCovers(a, gs[n], ts[n], left + Elements(AllSentOf(ts[..n])), done, rem);
      assert forall k :: 0 <= k < n ==> Covered(gs[..n][k], ts[..n][k], done);
    }
  }

  class Killer {
    const self: Pid
    const ignoreSelf: bool
    const sigcont: bool
    const answers: Answers  // no process is signalled twice, so an answer may depend on the process only
    var done: set<Pid>      // the processes that need not be signalled any more
    var kills: seq<Pid>     // the signals sent
    var conts: seq<Pid>     // the SIGCONTs sent

    constructor (self: Pid, ignoreSelf: bool, sigcont: bool, answers: Answers, done: set<Pid>)
      ensures this.self == self && this.ignoreSelf == ignoreSelf && this.sigcont == sigcont
      ensures this.answers == answers
      ensures this.done == done && kills == [] && conts == [] && Valid(done)
    {
      this.self, this.ignoreSelf, this.sigcont, this.answers := self, ignoreSelf, sigcont, answers;
      this.done, kills, conts := done, [], [];
    }

    /** Starting with the set `done0`, no process was signalled twice, none of `done0` was, and the
        set tells which were. */
    ghost predicate Valid(done0: set<Pid>)
      reads this
    {
      && Distinct(kills)
      && (forall p :: p in done <==> p in done0 || p in kills)
      && (forall p :: p in kills ==> p !in done0)
    }

    function Spared(): set<Pid> {
      if ignoreSelf then {self} else {}
    }

    /** The processes that are not to be signalled. */
    ghost function Left(): set<Pid>
      reads this
    {
      done + Spared()
    }

    /** Since those in `left` were to be left alone, `sent` have been added to them. */
    ghost predicate Growth(left: set<Pid>, sent: seq<Pid>)
      reads this
    {
      forall p :: p in Left() <==> p in left || p in sent
    }

    /** Since the signals `kills0` and `conts0`, those to `sent` were sent, and SIGCONT to the first
        of these that was hit; `ret` is what came of it. */
    ghost predicate Sent(kills0: seq<Pid>, conts0: seq<Pid>, sent: seq<Pid>, ret: int)
      reads this
    {
      && kills == kills0 + sent
      && conts == conts0 + (if sigcont then FirstHit(answers, sent) else [])
      && ret == Result(answers, sent)
    }

    method Signal(pid: Pid, ret: int, ghost done0: set<Pid>, ghost kills0: seq<Pid>, ghost conts0: seq<Pid>,
                  ghost sent: seq<Pid>)
      returns (ret': int)
      requires Valid(done0) && pid !in done && Sent(kills0, conts0, sent, ret)
      modifies this
      ensures Valid(done0) && Sent(kills0, conts0, sent + [pid], ret')
      ensures done == old(done) + {pid}
    {
      ResultPush(answers, sent, pid);
      FirstHitPush(answers, sent, pid);
      SentJoins(kills0, sent, [pid]);
      SentJoins(conts0, FirstHit(answers, sent), [pid]);
      ret' := ret;
      match answers(pid) {
        case Delivered =>
          if ret == 0 {
            if sigcont {
              conts := conts + [pid];
            }
            ret' := 1;
          }
        case NoSuchProcess =>
        case Refused(errno) =>
          if ret >= 0 {
            ret' := 0 - errno;
          }
      }
      Note(pid, done0);
    }

    method Note(pid: Pid, ghost done0: set<Pid>)
      requires Valid(done0) && pid !in done
      modifies `kills, `done
      ensures Valid(done0) && kills == old(kills) + [pid] && done == old(done) + {pid}
    {
      kills := kills + [pid];
      done := done + {pid};
    }

    /** Signals every process on the list that has not been signalled yet. */
    method SignalAll(pids: seq<Pid>, ret: int, ghost done0: set<Pid>, ghost kills0: seq<Pid>,
                     ghost conts0: seq<Pid>, ghost sent: seq<Pid>)
      returns (ret': int, quiet: bool, ghost more: seq<Pid>)
      requires Valid(done0) && Sent(kills0, conts0, sent, ret)
      modifies this
      ensures Valid(done0) && Sent(kills0, conts0, sent + more, ret')
      ensures Reached(pids, old(Left()), more)
      ensures forall p :: p in more ==> p in pids && p !in old(Left())
      ensures quiet <==> more == []
    {
      ret', quiet, more := ret, true, [];
      assert sent + [] == sent;
      for n := 0 to |pids|
        invariant Valid(done0) && Sent(kills0, conts0, sent + more, ret')
        invariant done == old(done) + Elements(more)
        invariant forall k :: 0 <= k < n ==> pids[k] in old(Left()) || pids[k] in more
        invariant forall p :: p in more ==> p in pids && p !in old(Left())
        invariant quiet <==> more == []
      {
        if pids[n] == self && ignoreSelf {
          continue;
        }
        if pids[n] in done {
          continue;
        }
        ret' := Signal(pids[n], ret', done0, kills0, conts0, sent + more);
        assert sent + more + [pids[n]] == sent + (more + [pids[n]]);
        more := more + [pids[n]];
        quiet := false;
      }
    }

    /** One reading of the task list; `left` were to be left alone when the group was taken up. */
    method Round(g: Group, n: nat, ret: int, ghost done0: set<Pid>, ghost kills0: seq<Pid>, ghost conts0: seq<Pid>,
                 ghost left: set<Pid>, ghost sent: seq<Pid>)
      returns (ret': int, stop: bool, ghost sent': seq<Pid>)
      requires Valid(done0) && Sent(kills0, conts0, sent, ret) && Growth(left, sent)
      requires Worked(g, n, left, sent) && OnlyListed(g, n, left, sent)
      modifies this
      ensures Valid(done0) && Growth(left, sent') && old(done) <= done
      ensures Sent(kills0, conts0, sent', Result(answers, sent'))
      ensures ret' == Verdict(Then(Refusal(answers, sent'), Trouble(g.readings(n))), AnyHit(answers, sent'))
      ensures if stop then Swept(g, n, left, sent')
              else Trouble(g.readings(n)) == 0 && old(done) < done
                   && Worked(g, n + 1, left, sent') && OnlyListed(g, n + 1, left, sent')
    {
      var reading := g.readings(n);
      if reading.openError < 0 {
        assert OnlyListed(g, n + 1, left, sent);
        ret' := if ret >= 0 && reading.openError != ENOENT then reading.openError else ret;
        return ret', true, sent;
      }
      var quiet;
      ghost var more;
      ret', quiet, more := SignalAll(reading.pids, ret, done0, kills0, conts0, sent);
      assert more != [] ==> more[0] in done && more[0] !in old(done);
      ListWorked(g, n, left, sent, more);
      if reading.readError < 0 {
        return if ret' >= 0 then reading.readError else ret', true, sent + more;
      }
      return ret', quiet, sent + more;
    }

    /** Reads the task list and signals, until a reading brings nothing new or fails. Whatever the list
        holds each time, this comes to an end, after the reading `last`. */
    method Kill(g: Group, ghost done0: set<Pid>) returns (ret: int, last: nat, ghost sent: seq<Pid>)
      requires Valid(done0)
      modifies this
      ensures Valid(done0) && Growth(old(Left()), sent)
      ensures Sent(old(kills), old(conts), sent, Result(answers, sent))
      ensures Swept(g, last, old(Left()), sent)
      ensures ret == Verdict(Then(Refusal(answers, sent), Trouble(g.readings(last))), AnyHit(answers, sent))
    {
      ret, sent, last := 0, [], 0;
      var stop := false;
      ghost var left := Left();
      assert Sent(kills, conts, [], 0);
      while true
        invariant Valid(done0) && Growth(left, sent)
        invariant Sent(old(kills), old(conts), sent, ret)
        invariant Worked(g, last, left, sent) && OnlyListed(g, last, left, sent)
        decreases |Everybody() - done|
      {
        ghost var before := done;
        ret, stop, sent := Round(g, last, ret, done0, old(kills), old(conts), left, sent);
        if stop {
          return;
        }
        FewerLeft(before, done);
        last := last + 1;
      }
    }

    /** The signals `sent` and the SIGCONTs `cont` were sent since then. */
    ghost predicate Since(left1: set<Pid>, kills1: seq<Pid>, conts1: seq<Pid>, sent: seq<Pid>, cont: seq<Pid>)
      reads this
    {
      && Growth(left1, sent)
      && kills == kills1 + sent
      && conts == conts1 + (if sigcont then cont else [])
    }

    /** The same for a group and all its subgroups, with one set of processes for all of them, and
        removing the groups afterwards if asked to. */
    method KillRecursive(g: Group, rem: bool, ghost done0: set<Pid>) returns (ret: int, ghost t: Trace)
      requires Valid(done0)
      modifies this
      ensures Valid(done0) && Since(old(Left()), old(kills), old(conts), AllSent(t), AllConts(answers, t))
      ensures Traced(g, t, old(Left()))
      ensures ret == Verdict(Error(answers, g, t, rem), AnyHit(answers, AllSent(t)))
      ensures ret >= 0 ==> Covered(g, t, Left())
      decreases g, 1
    {
      ret, t := KillTree(g, rem, done0);
      if ret >= 0 {
        NoErrorCovers(answers, g, t, old(Left()), Left(), rem);
      }
    }

    method KillTree(g: Group, rem: bool, ghost done0: set<Pid>) returns (ret: int, ghost t: Trace)
      requires Valid(done0)
      modifies this
      ensures Valid(done0) && Since(old(Left()), old(kills), old(conts), AllSent(t), AllConts(answers, t))
      ensures Traced(g, t, old(Left()))
      ensures ret == Verdict(Error(answers, g, t, rem), AnyHit(answers, AllSent(t)))
      decreases g, 0
    {
      var last;
      ghost var sent;
      ret, last, sent := Kill(g, done0);
      if g.listError < 0 {
        t := Trace(last, sent, []);
        assert AllSentOf([]) == [] && AllContsOf(answers, []) == [];
        if ret >= 0 && g.listError != ENOENT {
          ret := g.listError;
        }
        return;
      }
      ghost var ts;
      ghost var e, left := Then(Refusal(answers, sent), Trouble(g.readings(last))), Left();
      ret, ts := KillSubgroups(g.subgroups, rem, ret, done0, e, AnyHit(answers, sent));
      t := Trace(last, sent, ts);
      SentJoins(old(kills), sent, AllSentOf(ts));
      SentJoins(old(conts), FirstHit(answers, sent), AllContsOf(answers, ts));
      RefusalsJoin(answers, sent, AllSentOf(ts));
      assert left == old(Left()) + Elements(sent);
      ret := KillEnd(g, rem, ret);
    }

    /** What listing the subgroups to the end, and removing the group, add to the result. */
    method KillEnd(g: Group, rem: bool, ret: int) returns (ret': int)
      ensures ret' == if ret < 0 || Then(Fault(g.readError), RmdirFault(g, rem)) == 0 then ret
                      else Then(Fault(g.readError), RmdirFault(g, rem))
    {
      ret' := ret;
      if g.readError < 0 && ret' >= 0 {
        ret' := g.readError;
      }
      if rem && g.rmdirError < 0 {
        if ret' >= 0 && g.rmdirError != ENOENT && g.rmdirError != EBUSY {
          ret' := g.rmdirError;
        }
      }
    }

    /** All subgroups, after a call whose first error so far is `e` and which has hit somebody if `h`. */
    method KillSubgroups(gs: seq<Group>, rem: bool, ret: int, ghost done0: set<Pid>, ghost e: int, ghost h: bool)
      returns (ret': int, ghost ts: seq<Trace>)
      requires Valid(done0) && ret == Verdict(e, h)
      modifies this
      ensures Valid(done0) && Since(old(Left()), old(kills), old(conts), AllSentOf(ts), AllContsOf(answers, ts))
      ensures AllTraced(gs, ts, old(Left()))
      ensures ret' == Verdict(Then(e, ErrorOf(answers, gs, ts, rem)), h || AnyHit(answers, AllSentOf(ts)))
      decreases gs, 0
    {
      ret', ts := ret, [];
      for n := 0 to |gs|
        invariant Valid(done0) && Since(old(Left()), old(kills), old(conts), AllSentOf(ts), AllContsOf(answers, ts))
        invariant AllTraced(gs[..n], ts, old(Left()))
        invariant ret' == Verdict(Then(e, ErrorOf(answers, gs[..n], ts, rem)), h || AnyHit(answers, AllSentOf(ts)))
      {
        assert Left() == old(Left()) + Elements(AllSentOf(ts));
        ghost var t;
        ret', t := KillNext(gs[n], rem, ret', done0, old(Left()), old(kills), old(conts), ts);
        TraceSnoc(answers, gs, n, ts, t, old(Left()), rem);
        RefusalsJoin(answers, AllSentOf(ts), AllSent(t));
        ts := ts + [t];
      }
      assert gs[..|gs|] == gs;
    }

    method KillNext(g: Group, rem: bool, ret: int, ghost done0: set<Pid>,
                    ghost left1: set<Pid>, ghost kills1: seq<Pid>, ghost conts1: seq<Pid>, ghost ts: seq<Trace>)
      returns (ret': int, ghost t: Trace)
      requires Valid(done0) && Since(left1, kills1, conts1, AllSentOf(ts), AllContsOf(answers, ts))
      modifies this
      ensures Valid(done0)
      ensures Since(left1, kills1, conts1, AllSentOf(ts) + AllSent(t), AllContsOf(answers, ts) + AllConts(answers, t))
      ensures Traced(g, t, old(Left()))
      ensures var r := Verdict(Error(answers, g, t, rem), AnyHit(answers, AllSent(t)));
              ret' == if r != 0 && ret >= 0 then r else ret
      decreases g, 2
    {
      ret' := ret;
      var r;
      r, t := KillRecursive(g, rem, done0);
      SentJoins(kills1, AllSentOf(ts), AllSent(t));
      SentJoins(conts1, AllContsOf(answers, ts), AllConts(answers, t));
      if r != 0 && ret' >= 0 {
        ret' := r;
      }
    }
  }

  /** Two processes, both of which are hit: only one of them gets SIGCONT. */
  method OneOfTwoContinued() returns (k: Killer)
    ensures k.sigcont && k.answers(1).Delivered? && k.answers(2).Delivered?
    ensures 1 in k.kills && 2 in k.kills && |k.conts| == 1
  {
    k := new Killer(3, true, true, _ => Delivered, {});
    var g := Group(_ => Reading(0, [1, 2], 0), 0, [], 0, 0);
    var ret, last;
    ghost var sent;
    ret, last, sent := k.Kill(g, {});
    assert [] + sent == sent && Reached([1, 2], k.Spared(), sent);
    assert 1 in [1, 2] && 2 in [1, 2];
  }

  lemma SentJoins(before: seq<Pid>, a: seq<Pid>, b: seq<Pid>)
    ensures before + (a + b) == before + a + b
    ensures Elements(a + b) == Elements(a) + Elements(b)
  {
  }

  /** The list of reading `n` was worked on, and the signals `more` were sent. */
  lemma ListWorked(g: Group, n: nat, left: set<Pid>, sent: seq<Pid>, more: seq<Pid>)
    requires Worked(g, n, left, sent) && OnlyListed(g, n, left, sent) && Opens(g.readings(n))
    requires forall p :: p in more ==> p in g.readings(n).pids && p !in left
    requires Reached(g.readings(n).pids, left, sent + more)
    ensures Complete(g.readings(n)) ==> Worked(g, n + 1, left, sent + more)
    ensures OnlyListed(g, n + 1, left, sent + more)
    ensures !Complete(g.readings(n)) || more == [] ==> Swept(g, n, left, sent + more)
  {
    WorkedMore(g, n, left, sent, more);
    OnlyListedMore(g, n, left, sent, more);
    if more == [] {
      assert sent + more == sent;
    }
  }

  ghost predicate Somebody(p: nat) {
    true
  }

  ghost function Everybody(): set<nat> {
    set p: nat | 1 <= p <= PID_MAX && Somebody(p)
  }

  lemma FewerLeft(before: set<Pid>, after: set<Pid>)
    requires before < after
    ensures |Everybody() - after| < |Everybody() - before|
  {
    var p :| p in after && p !in before;
    assert Somebody(p) && p in Everybody();
    assert Everybody() - before == (Everybody() - after) + (Everybody() * (after - before));
    assert p in Everybody() * (after - before);
  }
}
