/** The automount unit: every mount request that is read from the kernel is answered (src/automount.c). */
module Automount {
  import opened ErrorCodes

  datatype State = Dead | Waiting | Running | Failed

  /** A request token; autofs does not hand out 0. */
  type Token = t: nat | t > 0 witness 1

  datatype Answer = Answer(token: Token, status: int)

  /** What arrives on the pipe: a bad poll event or a short read, a request, or some other packet. */
  datatype Event = Broken | Request(token: Token) | Unknown

  /** What the system makes of a request: whether the unit is about to stop, whether the mount point
      can be looked at, and is still the one that was set up, whether a job can be queued for it, and
      whether the ioctl descriptor opens. */
  datatype World = World(pendingInactive: bool, statWorks: bool, sameDevice: bool, jobWorks: bool, ioctlOpens: bool)

  predicate Up(s: State) {
    s.Waiting? || s.Running?
  }

  /** How often a request was answered. */
  ghost function Count(answers: seq<Answer>, t: Token): nat {
    if answers == [] then 0
    else Count(answers[..|answers| - 1], t) + if answers[|answers| - 1].token == t then 1 else 0
  }

  lemma CountPush(answers: seq<Answer>, a: Answer, t: Token)
    ensures Count(answers + [a], t) == Count(answers, t) + if a.token == t then 1 else 0
  {
    assert (answers + [a])[..|answers|] == answers;
  }

  // ---------- what becomes of a request ----------

  /** What matters to the requests: one is read; an attempt is made to answer those that are pending,
      for which the ioctl descriptor opens or not; the unit is started anew and forgets them. */
  datatype Act = Ask(token: Token) | Send(works: bool) | Forget

  datatype Fate = Pending | Answered | Lost

  function After(f: Fate, act: Act): Fate {
    if f.Pending? && act == Send(true) then Answered
    else if f.Pending? && act.Forget? then Lost
    else f
  }

  /** What has become of the request that was read at `i`. */
  ghost function FateOf(acts: seq<Act>, i: nat): Fate
    requires i < |acts|
  {
    var n := |acts| - 1;
    if i == n then Pending else After(FateOf(acts[..n], i), acts[n])
  }

  lemma FatePush(acts: seq<Act>, act: Act, i: nat)
    requires i < |acts|
    ensures FateOf(acts + [act], i) == After(FateOf(acts, i), act)
    ensures FateOf(acts + [act], |acts|) == Pending
  {
    assert (acts + [act])[..|acts|] == acts;
  }

  /** The attempt at `j` is the first thing after `i` that ends the wait: nothing before it does. */
  ghost predicate Ends(acts: seq<Act>, i: nat, j: nat) {
    && i < j < |acts|
    && (acts[j] == Send(true) || acts[j].Forget?)
    && forall k :: i < k < j ==> !acts[k].Forget? && acts[k] != Send(true)
  }

  /** A request is answered exactly if the descriptor opens at some attempt before the unit is started
      anew; and lost exactly if the unit is started anew before that. */
  lemma {:induction false} FateIs(acts: seq<Act>, i: nat)
    requires i < |acts|
    ensures FateOf(acts, i).Answered? <==> exists j: nat :: Ends(acts, i, j) && acts[j] == Send(true)
    ensures FateOf(acts, i).Lost? <==> exists j: nat :: Ends(acts, i, j) && acts[j].Forget?
    decreases |acts|
  {
    var n := |acts| - 1;
    if i < n {
      var before := acts[..n];
      FateIs(before, i);
      forall j | 0 <= j < n ensures Ends(before, i, j) <==> Ends(acts, i, j) {
        assert forall k :: 0 <= k < n ==> before[k] == acts[k];
      }
      if FateOf(before, i).Pending? {
        forall k | i < k < n ensures !acts[k].Forget? && acts[k] != Send(true) {
          NothingEndedYet(before, i, k);
        }
        assert (acts[n] == Send(true) || acts[n].Forget?) ==> Ends(acts, i, n);
      } else {
        var j :| Ends(before, i, j);
        assert Ends(acts, i, j);
        forall m | Ends(acts, i, m) ensures m == j {
        }
      }
    }
  }

  /** If nothing has ended the wait, nothing that could has happened. */
  lemma {:induction false} NothingEndedYet(acts: seq<Act>, i: nat, k: nat)
    requires i < k < |acts| && forall j :: !Ends(acts, i, j)
    ensures !acts[k].Forget? && acts[k] != Send(true)
  {
    if acts[k].Forget? || acts[k] == Send(true) {
      forall m | i < m < k ensures !acts[m].Forget? && acts[m] != Send(true) {
        NothingEndedYet(acts, i, m);
      }
      assert Ends(acts, i, k);
    }
  }

  /** How many of the requests with this token read before `n` met this fate. */
  ghost function NumberTo(acts: seq<Act>, t: Token, f: Fate, n: nat): nat
    requires n <= |acts|
  {
    if n == 0 then 0
    else NumberTo(acts, t, f, n - 1) + if acts[n - 1] == Ask(t) && FateOf(acts, n - 1) == f then 1 else 0
  }

  ghost function Number(acts: seq<Act>, t: Token, f: Fate): nat {
    NumberTo(acts, t, f, |acts|)
  }

  lemma {:induction false} NumberToPush(acts: seq<Act>, act: Act, t: Token, n: nat)
    requires n <= |acts|
    ensures var next := acts + [act];
            && NumberTo(next, t, Pending, n) ==
               (if act == Send(true) || act.Forget? then 0 else NumberTo(acts, t, Pending, n))
            && NumberTo(next, t, Answered, n) == NumberTo(acts, t, Answered, n)
               + (if act == Send(true) then NumberTo(acts, t, Pending, n) else 0)
  {
    if n > 0 {
      NumberToPush(acts, act, t, n - 1);
      FatePush(acts, act, n - 1);
    }
  }

  lemma NumberPush(acts: seq<Act>, act: Act, t: Token)
    ensures var next := acts + [act];
            && Number(next, t, Pending) == (if act == Send(true) || act.Forget? then 0 else Number(acts, t, Pending))
               + (if act == Ask(t) then 1 else 0)
            && Number(next, t, Answered) == Number(acts, t, Answered)
               + (if act == Send(true) then Number(acts, t, Pending) else 0)
  {
    NumberToPush(acts, act, t, |acts|);
    if acts != [] {
      FatePush(acts, act, 0);
    }
  }

  lemma {:induction false} NumberPositive(acts: seq<Act>, t: Token, f: Fate, n: nat)
    requires n <= |acts|
    ensures NumberTo(acts, t, f, n) > 0 <==> exists i :: 0 <= i < n && acts[i] == Ask(t) && FateOf(acts, i) == f
  {
    if n > 0 {
      NumberPositive(acts, t, f, n - 1);
    }
  }

  ghost predicate NoneLost(acts: seq<Act>) {
    forall i :: 0 <= i < |acts| && acts[i].Ask? ==> !FateOf(acts, i).Lost?
  }

  /** The last attempt to answer failed, and nothing has happened since. */
  ghost predicate LeftPending(acts: seq<Act>) {
    acts != [] && acts[|acts| - 1] == Send(false)
  }

  /** The unit was never started anew right after an attempt to answer failed. */
  ghost predicate NeverTooSoon(acts: seq<Act>) {
    forall j, k :: 0 <= j < |acts| && k == j + 1 && k < |acts| && acts[j] == Send(false) ==> !acts[k].Forget?
  }

  // ---------- the account of all requests ----------

  /** Of the requests with each token one is pending if the token is, and none otherwise; as many were
      answered as there are answers; and some were lost exactly if the unit was started too soon. */
  ghost predicate Accounted(acts: seq<Act>, tokens: set<Token>, answers: seq<Answer>) {
    && (forall t: Token {:trigger Count(answers, t)} ::
          Number(acts, t, Pending) == (if t in tokens then 1 else 0) && Number(acts, t, Answered) == Count(answers, t))
    && (NoneLost(acts) <==> NeverTooSoon(acts))
    && (LeftPending(acts) ==> tokens != {})
  }

  lemma NothingToAccount()
    ensures Accounted([], {}, [])
  {
    forall t: Token ensures Number([], t, Pending) == 0 && Number([], t, Answered) == 0 && Count([], t) == 0 {
    }
  }

  lemma TokensArePending(acts: seq<Act>, tokens: set<Token>, answers: seq<Answer>)
    requires Accounted(acts, tokens, answers)
    ensures tokens == {} <==> forall i :: 0 <= i < |acts| && acts[i].Ask? ==> !FateOf(acts, i).Pending?
  {
    if t :| t in tokens {
      assert Count(answers, t) >= 0;
      NumberPositive(acts, t, Pending, |acts|);
    }
    forall i | 0 <= i < |acts| && acts[i].Ask? && FateOf(acts, i).Pending? ensures acts[i].token in tokens {
      assert Count(answers, acts[i].token) >= 0;
      NumberPositive(acts, acts[i].token, Pending, |acts|);
    }
  }

  /** What does not forget requests loses none. */
  lemma LossPush(acts: seq<Act>, act: Act)
    requires !act.Forget?
    ensures NoneLost(acts + [act]) <==> NoneLost(acts)
    ensures NeverTooSoon(acts + [act]) <==> NeverTooSoon(acts)
  {
    var next := acts + [act];
    forall i | 0 <= i < |acts| ensures next[i] == acts[i] && (FateOf(next, i).Lost? <==> FateOf(acts, i).Lost?) {
      FatePush(acts, act, i);
    }
    if acts != [] {
      FatePush(acts, act, 0);
    }
  }

  /** Forgetting requests loses those that are pending. */
  lemma LossForget(acts: seq<Act>)
    ensures NoneLost(acts + [Forget]) <==>
            NoneLost(acts) && forall i :: 0 <= i < |acts| && acts[i].Ask? ==> !FateOf(acts, i).Pending?
    ensures NeverTooSoon(acts + [Forget]) <==> NeverTooSoon(acts) && !LeftPending(acts)
  {
    var next := acts + [Forget];
    forall i | 0 <= i < |acts|
      ensures next[i] == acts[i] && (FateOf(next, i).Lost? <==> !FateOf(acts, i).Answered?)
    {
      FatePush(acts, Forget, i);
    }
  }

  lemma AskKeepsAccount(acts: seq<Act>, tokens: set<Token>, answers: seq<Answer>, t: Token)
    requires Accounted(acts, tokens, answers) && t !in tokens
    ensures Accounted(acts + [Ask(t)], tokens + {t}, answers)
  {
    LossPush(acts, Ask(t));
    forall u: Token
      ensures Number(acts + [Ask(t)], u, Pending) == (if u in tokens + {t} then 1 else 0)
      ensures Number(acts + [Ask(t)], u, Answered) == Count(answers, u)
    {
      assert Count(answers, u) >= 0;
      NumberPush(acts, Ask(t), u);
    }
  }

  lemma FailureKeepsAccount(acts: seq<Act>, tokens: set<Token>, answers: seq<Answer>)
    requires Accounted(acts, tokens, answers) && tokens != {}
    ensures Accounted(acts + [Send(false)], tokens, answers)
  {
    LossPush(acts, Send(false));
    forall u: Token
      ensures Number(acts + [Send(false)], u, Pending) == (if u in tokens then 1 else 0)
      ensures Number(acts + [Send(false)], u, Answered) == Count(answers, u)
    {
      assert Count(answers, u) >= 0;
      NumberPush(acts, Send(false), u);
    }
  }

  /** `answers'` answers each pending request once. */
  lemma SuccessKeepsAccount(acts: seq<Act>, tokens: set<Token>, answers: seq<Answer>, answers': seq<Answer>)
    requires Accounted(acts, tokens, answers)
    requires forall t: Token :: Count(answers', t) == Count(answers, t) + if t in tokens then 1 else 0
    ensures Accounted(acts + [Send(true)], {}, answers')
  {
    LossPush(acts, Send(true));
    forall u: Token
      ensures Number(acts + [Send(true)], u, Pending) == 0
      ensures Number(acts + [Send(true)], u, Answered) == Count(answers', u)
    {
      assert Count(answers, u) == Number(acts, u, Answered);
      NumberPush(acts, Send(true), u);
    }
  }

  lemma ForgetKeepsAccount(acts: seq<Act>, tokens: set<Token>, answers: seq<Answer>)
    requires Accounted(acts, tokens, answers) && (tokens != {} ==> LeftPending(acts))
    ensures Accounted(acts + [Forget], {}, answers)
  {
    TokensArePending(acts, tokens, answers);
    LossForget(acts);
    forall u: Token
      ensures Number(acts + [Forget], u, Pending) == 0
      ensures Number(acts + [Forget], u, Answered) == Count(answers, u)
    {
      assert Count(answers, u) >= 0;
      NumberPush(acts, Forget, u);
    }
  }

  /** The attempt that is made when these requests are pending: none, if there are none. */
  function Attempt(tokens: set<Token>, ioctlOpens: bool): seq<Act> {
    if tokens == {} then [] else [Send(ioctlOpens)]
  }

  class Unit {
    var state: State
    var failure: bool
    var pipeOpen: bool
    var tokens: set<Token>
    var answers: seq<Answer>   // what was sent to the kernel

    ghost var acts: seq<Act>   // what has happened to requests

    constructor ()
      ensures Valid() && state.Dead? && acts == [] && answers == [] && tokens == {}
    {
      state, failure, pipeOpen, tokens, answers := Dead, false, false, {}, [];
      acts := [];
      new;
      NothingToAccount();
      assert !Up(state);
    }

    /** While the unit is down, requests are pending only if the last attempt to answer them failed. */
    ghost predicate Valid()
      reads this
    {
      && Accounted(acts, tokens, answers)
      && (pipeOpen <==> Up(state))
      && (failure <==> state.Failed?)
      && (!Up(state) && tokens != {} ==> LeftPending(acts))
    }

    /** All pending requests were answered with `status`, or none if the descriptor did not open. */
    twostate predicate Sent(status: int, ioctlOpens: bool)
      reads this
    {
      && tokens == (if ioctlOpens then {} else old(tokens))
      && acts == old(acts) + Attempt(old(tokens), ioctlOpens)
      && old(answers) <= answers
      && (old(tokens) == {} || !ioctlOpens ==> answers == old(answers))
      && forall i :: |old(answers)| <= i < |answers| ==> answers[i].status == status
    }

    twostate predicate Untouched()
      reads this
    {
      tokens == old(tokens) && acts == old(acts) && answers == old(answers)
    }

    /** Answers all pending requests, if the ioctl descriptor opens. */
    method SendReady(status: int, ioctlOpens: bool)
      requires Accounted(acts, tokens, answers)
      modifies `tokens, `answers, `acts
      ensures Accounted(acts, tokens, answers) && Sent(status, ioctlOpens)
    {
      assert acts + [] == acts;
      if tokens == {} {
        return;
      }
      if !ioctlOpens {
        FailureKeepsAccount(acts, tokens, answers);
        acts := acts + [Send(false)];
        return;
      }
      while tokens != {}
        invariant acts == old(acts) && old(answers) <= answers && tokens <= old(tokens)
        invariant forall i :: |old(answers)| <= i < |answers| ==> answers[i].status == status
        invariant forall t: Token :: Count(answers, t) == Count(old(answers),
                                                                t) + if t in old(tokens) - tokens then 1 else 0
        decreases tokens
      {
        var t :| t in tokens;
        forall u: Token ensures Count(answers + [Answer(t, status)], u) == Count(answers, u) + if u == t then 1 else 0 {
          CountPush(answers, Answer(t, status), u);
        }
        tokens := tokens - {t};
        answers := answers + [Answer(t, status)];
      }
      SuccessKeepsAccount(acts, old(tokens), old(answers), answers);
      acts := acts + [Send(true)];
    }

    /** Tears the mount point down. */
    method UnmountAutofs(ioctlOpens: bool)
      requires Accounted(acts, tokens, answers)
      modifies `pipeOpen, `tokens, `answers, `acts
      ensures Accounted(acts, tokens, answers) && !pipeOpen
      ensures if old(pipeOpen) then Sent(EHOSTDOWN, ioctlOpens) else Untouched()
    {
      if !pipeOpen {
        return;
      }
      SendReady(EHOSTDOWN, ioctlOpens);
      pipeOpen := false;
    }

    method SetState(s: State, ioctlOpens: bool)
      requires Accounted(acts, tokens, answers)
      modifies `state, `pipeOpen, `tokens, `answers, `acts
      ensures Accounted(acts, tokens, answers) && state == s
      ensures pipeOpen <==> Up(s) && old(pipeOpen)
      ensures if !Up(s) && old(pipeOpen) then Sent(EHOSTDOWN, ioctlOpens) else Untouched()
    {
      state := s;
      if !Up(s) {
        UnmountAutofs(ioctlOpens);
      }
    }

    /** Goes down, for good or ill. Nothing stays pending, unless the ioctl descriptor fails to open. */
    method EnterDead(success: bool, ioctlOpens: bool)
      requires Accounted(acts, tokens, answers) && (!pipeOpen && tokens != {} ==> LeftPending(acts))
      modifies `state, `failure, `pipeOpen, `tokens, `answers, `acts
      ensures Valid()
      ensures state == if old(failure) || !success then Failed else Dead
      ensures if old(pipeOpen) then Sent(EHOSTDOWN, ioctlOpens) else Untouched()
    {
      if !success {
        failure := true;
      }
      SetState(if failure then Failed else Dead, ioctlOpens);
    }

    /** Sets the mount point up, if all the system calls work. Pending requests are forgotten. */
    method EnterWaiting(setupWorks: bool)
      requires Accounted(acts, tokens, answers) && !pipeOpen && !failure && (tokens != {} ==> LeftPending(acts))
      modifies `state, `failure, `pipeOpen, `tokens, `answers, `acts
      ensures Valid() && tokens == {} && answers == old(answers) && acts == old(acts) + [Forget]
      ensures state == if setupWorks then Waiting else Failed
    {
      ForgetKeepsAccount(acts, tokens, answers);
      tokens := {};
      acts := acts + [Forget];
      if !setupWorks {
        EnterDead(false, false);
        return;
      }
      pipeOpen := true;
      SetState(Waiting, false);
    }

    method Start(isMountPoint: bool, mountLoaded: bool, setupWorks: bool) returns (r: int)
      requires Valid() && !Up(state)
      modifies `state, `failure, `pipeOpen, `tokens, `answers, `acts
      ensures Valid() && answers == old(answers)
      ensures r == if isMountPoint then EEXIST else if !mountLoaded then ENOENT else 0
      ensures r < 0 ==> state == old(state) && Untouched()
      ensures r == 0 ==>
                state == (if setupWorks then Waiting else Failed) && tokens == {} && acts == old(acts) + [Forget]
      ensures NoneLost(acts) <==> NoneLost(old(acts)) && (r < 0 || old(tokens) == {})
    {
      if isMountPoint {
        return EEXIST;
      }
      if !mountLoaded {
        return ENOENT;
      }
      TokensArePending(acts, tokens, answers);
      LossForget(acts);
      failure := false;
      EnterWaiting(setupWorks);
      return 0;
    }

    method Stop(ioctlOpens: bool)
      requires Valid() && Up(state)
      modifies `state, `failure, `pipeOpen, `tokens, `answers, `acts
      ensures Valid() && state.Dead? && Sent(EHOSTDOWN, ioctlOpens)
    {
      EnterDead(true, ioctlOpens);
    }

    predicate Accepts(w: World) {
      !w.pendingInactive && w.statWorks && (!w.sameDevice || w.jobWorks)
    }

    /** A mount is wanted: queue a job for it, or refuse. */
    method EnterRunning(w: World)
      requires Valid() && Up(state)
      modifies `state, `failure, `pipeOpen, `tokens, `answers, `acts
      ensures Valid()
      ensures state == if w.pendingInactive then old(state) else if Accepts(w) then Running else Failed
      ensures if Accepts(w) then Untouched() else Sent(EHOSTDOWN, w.ioctlOpens)
    {
      if w.pendingInactive {
        SendReady(EHOSTDOWN, w.ioctlOpens);
        return;
      }
      if !w.statWorks || (w.sameDevice && !w.jobWorks) {
        EnterDead(false, w.ioctlOpens);
        return;
      }
      SetState(Running, w.ioctlOpens);
    }

    /** Something arrives on the pipe. A request whose token is not pending already is accounted for;
        one that repeats a pending token would be taken for the same request. */
    method FdEvent(event: Event, w: World)
      requires Valid() && pipeOpen && (event.Request? ==> event.token !in tokens)
      modifies `state, `failure, `pipeOpen, `tokens, `answers, `acts
      ensures Valid()
      ensures event.Broken? ==> state.Failed? && Sent(EHOSTDOWN, w.ioctlOpens)
      ensures event.Unknown? ==> state == old(state) && Untouched()
      ensures event.Request? ==>
                && state == (if w.pendingInactive then old(state) else if Accepts(w) then Running else Failed)
                && acts == old(acts) + [Ask(event.token)] + (if Accepts(w) then [] else [Send(w.ioctlOpens)])
                && tokens == (if !Accepts(w) && w.ioctlOpens then {} else old(tokens) + {event.token})
                && old(answers) <= answers && (Accepts(w) ==> answers == old(answers))
                && forall i :: |old(answers)| <= i < |answers| ==> answers[i].status == EHOSTDOWN
    {
      match event
      case Broken =>
        EnterDead(false, w.ioctlOpens);
      case Unknown =>
      case Request(token) =>
        AskKeepsAccount(acts, tokens, answers, token);
        tokens := tokens + {token};
        acts := acts + [Ask(token)];
        EnterRunning(w);
    }

    /** The mount unit reports how mounting went. */
    method MountDone(status: int, ioctlOpens: bool)
      requires Valid() && status <= 0
      modifies `tokens, `answers, `acts
      ensures Valid() && Sent(status, ioctlOpens)
    {
      SendReady(status, ioctlOpens);
    }

    method ResetFailed()
      requires Valid()
      modifies `state, `failure, `pipeOpen, `tokens, `answers, `acts
      ensures Valid() && Untouched()
      ensures state == if old(state).Failed? then Dead else old(state)
    {
      if state.Failed? {
        SetState(Dead, false);
      }
      failure := false;
    }

    /** After any history: each answer with a token is that of one request, each request that was not
        answered is pending or lost, and requests were lost exactly if the unit was started, at some
        time, right after an attempt to answer them failed. */
    lemma RequestsAreAnswered(t: Token)
      requires Valid()
      ensures Count(answers, t) == Number(acts, t, Answered)
      ensures Number(acts, t, Pending) == if t in tokens then 1 else 0
      ensures NoneLost(acts) <==> NeverTooSoon(acts)
    {
      assert Count(answers, t) >= 0;
    }

    /** When the unit is down, every request that ever came was answered exactly if the last attempt to
        answer did not fail, nor any that a start followed. */
    lemma AllAnsweredExactlyWhen()
      requires Valid() && !Up(state)
      ensures (forall i :: 0 <= i < |acts| && acts[i].Ask? ==> FateOf(acts, i).Answered?) <==>
              !LeftPending(acts) && NeverTooSoon(acts)
    {
      TokensArePending(acts, tokens, answers);
    }
  }

  /** The condition is needed: with the ioctl descriptor failing to open, a stop leaves a request
      pending, and the next start forgets it. */
  method RequestIsLost() returns (u: Unit)
    ensures u.Valid() && u.tokens == {} && u.answers == []
    ensures u.acts == [Forget, Ask(7), Send(false), Forget] && FateOf(u.acts, 1) == Lost
  {
    u := new Unit();
    var r := u.Start(false, true, true);
    u.FdEvent(Request(7), World(false, true, true, true, true));
    u.Stop(false);
    r := u.Start(false, true, true);
    assert u.acts == [Forget, Ask(7), Send(false), Forget];
    assert Ends(u.acts, 1, 3);
    FateIs(u.acts, 1);
  }

  /** A failure alone loses nothing: if the descriptor opens later, before the next start, the request
      is answered after all. */
  method RequestIsAnsweredLater() returns (u: Unit)
    ensures u.Valid() && u.state.Dead? && u.tokens == {} && Count(u.answers, 7) == 1
    ensures u.acts == [Forget, Ask(7), Send(false), Send(true)] && FateOf(u.acts, 1) == Answered
  {
    u := new Unit();
    var r := u.Start(false, true, true);
    u.FdEvent(Request(7), World(false, true, true, true, true));
    u.MountDone(0, false);
    u.Stop(true);
    assert u.acts == [Forget, Ask(7), Send(false), Send(true)];
    OneAnswer();
    u.RequestsAreAnswered(7);
  }

  lemma OneAnswer()
    ensures var acts := [Forget, Ask(7), Send(false), Send(true)];
            FateOf(acts, 1) == Answered && Number(acts, 7, Answered) == 1
  {
    var acts := [Forget, Ask(7), Send(false), Send(true)];
    assert Ends(acts, 1, 3);
    FateIs(acts, 1);
    assert NumberTo(acts, 7, Answered, 1) == 0 && NumberTo(acts, 7, Answered, 2) == 1;
    assert NumberTo(acts, 7, Answered, 3) == 1;
  }
}
