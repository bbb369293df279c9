/**
 * The reset loop of `TxPool` as a protocol: chain head events, one background reset at a time,
 * forced resets asked for by `Sync`, and termination. One action per select case, plus the steps
 * of the background goroutine.
 */
module ResetLoop {
  import opened Common

  type Header = nat   // header identity: the loop compares pointers
  type Waiter = nat   // the reply channel of one `Sync` call

  datatype Reset = Reset(from: Header, to: Header)

  /** Where the loop stands: about to decide whether to start a reset, in the select, or gone. */
  datatype Pc = Deciding | Waiting | Stopped

  datatype Event =
    | Delivered(head: Header)
    | Started(reset: Reset)
    | Finished(reset: Reset)
    | Requested(who: Waiter)
    | Answered(who: Waiter, ok: bool)

  /** The background goroutine: still resetting the subpools, or ready to report. */
  datatype Runner = Runner(reset: Reset, done: bool)

  /**
   * `log` records what happened. `requestedAt` and `startedAt` are the positions in it of the
   * pending waiter's request and of the running reset's start; no guard or step reads the three.
   */
  datatype State = State(
    pc: Pc,
    oldHead: Header,
    newHead: Header,
    busy: bool,
    runners: seq<Runner>,
    resetForced: bool,
    resetWaiter: Option<Waiter>,
    log: seq<Event>,
    requestedAt: nat,
    startedAt: nat)

  function Init(head: Header): (s: State) {
    State(Deciding, head, head, false, [], false, None, [], 0, 0)
  }

  datatype Action =
    | Decide                       // the part of the loop before the select
    | HeadEvent(head: Header)      // case event := <-newHeadCh
    | ResetDone(i: nat)            // case head := <-resetDone
    | Quit                         // case errc = <-p.quit
    | SyncRequest(who: Waiter)     // case syncc := <-p.sync
    | RunnerWorks(i: nat)          // the goroutine's subpool resets return
    | RunnerExits(i: nat)          // the goroutine sees the closed term channel

  predicate Enabled(s: State, a: Action) {
    match a
    case Decide => s.pc.Deciding?
    case HeadEvent(_) => s.pc.Waiting?
    case ResetDone(i) => s.pc.Waiting? && i < |s.runners| && s.runners[i].done && s.busy
    case Quit => s.pc.Waiting?
    case SyncRequest(w) => s.pc.Waiting? && forall k :: 0 <= k < |s.log| ==> !Mentions(s.log[k], w)
    case RunnerWorks(i) => i < |s.runners| && !s.runners[i].done
    case RunnerExits(i) => s.pc.Stopped? && i < |s.runners| && s.runners[i].done
  }

  predicate Mentions(e: Event, w: Waiter) {
    (e.Requested? || e.Answered?) && e.who == w
  }

  function Without(rs: seq<Runner>, i: nat): (r: seq<Runner>)
    requires i < |rs|
  {
    rs[..i] + rs[i + 1..]
  }

  function Step(s: State, a: Action): (s': State)
    requires Enabled(s, a)
  {
    match a
    case Decide =>
      if (s.newHead != s.oldHead || s.resetForced) && !s.busy then
        var r := Reset(s.oldHead, s.newHead);
        s.(pc := Waiting, busy := true, runners := s.runners + [Runner(r, false)], resetForced := false,
           log := s.log + [Started(r)], startedAt := |s.log|)
      else s.(pc := Waiting)
    case HeadEvent(h) => s.(pc := Deciding, newHead := h, log := s.log + [Delivered(h)])
    case ResetDone(i) =>
      var r := s.runners[i].reset;
      var s1 := s.(pc := Deciding, oldHead := r.to, busy := false, runners := Without(s.runners, i),
                   log := s.log + [Finished(r)]);
      if s.resetWaiter.Some? && !s.resetForced then
        s1.(resetWaiter := None, log := s1.log + [Answered(s.resetWaiter.value, true)])
      else s1
    case Quit =>
      var s1 := s.(pc := Stopped);
      if s.resetWaiter.Some? then
        s1.(resetWaiter := None, log := s.log + [Answered(s.resetWaiter.value, false)])
      else s1
    case SyncRequest(w) =>
      s.(pc := Deciding, resetForced := true, resetWaiter := Some(w),
         log := s.log + [Requested(w)], requestedAt := |s.log|)
    case RunnerWorks(i) => s.(runners := s.runners[i := s.runners[i].(done := true)])
    case RunnerExits(i) => s.(runners := Without(s.runners, i))
  }

  /** The state after a sequence of actions, if each is enabled in its turn. */
  ghost function Run(s: State, acts: seq<Action>): (r: Option<State>) {
    if acts == [] then Some(s)
    else
      var before := Run(s, acts[..|acts| - 1]);
      if before.Some? && Enabled(before.value, acts[|acts| - 1]) then Some(Step(before.value, acts[|acts| - 1]))
      else None
  }

  // ---------------------------------------------------------------- one reset at a time, and contiguous

  ghost function Starts(log: seq<Event>): (rs: seq<Reset>) {
    if log == [] then []
    else
      var e := log[|log| - 1];
      if e.Started? then Starts(log[..|log| - 1]) + [e.reset] else Starts(log[..|log| - 1])
  }

  ghost function Finishes(log: seq<Event>): (rs: seq<Reset>) {
    if log == [] then []
    else
      var e := log[|log| - 1];
      if e.Finished? then Finishes(log[..|log| - 1]) + [e.reset] else Finishes(log[..|log| - 1])
  }

  ghost function LatestHead(head: Header, log: seq<Event>): (h: Header) {
    if log == [] then head
    else
      var e := log[|log| - 1];
      if e.Delivered? then e.head else LatestHead(head, log[..|log| - 1])
  }

  /** Each reset starts from where the previous one ended. */
  ghost predicate Contiguous(head: Header, rs: seq<Reset>) {
    forall k :: 0 <= k < |rs| ==> rs[k].from == Target(head, rs[..k])
  }

  ghost function Target(head: Header, rs: seq<Reset>): (h: Header) {
    if rs == [] then head else rs[|rs| - 1].to
  }

  lemma {:induction false} LogGrows(head: Header, log: seq<Event>, e: Event)
    ensures Starts(log + [e]) == if e.Started? then Starts(log) + [e.reset] else Starts(log)
    ensures Finishes(log + [e]) == if e.Finished? then Finishes(log) + [e.reset] else Finishes(log)
    ensures LatestHead(head, log + [e]) == if e.Delivered? then e.head else LatestHead(head, log)
  {
    assert (log + [e])[..|log|] == log;
  }

  /** While the loop runs, the busy token, the runner and the log agree on what is in flight. */
  ghost predicate InFlight(head: Header, s: State) {
    && |s.runners| <= 1
    && s.newHead == LatestHead(head, s.log)
    && Contiguous(head, Starts(s.log))
    && (!s.pc.Stopped? ==>
         && s.busy == (|s.runners| == 1)
         && Starts(s.log) == (if s.busy then Finishes(s.log) + [s.runners[0].reset] else Finishes(s.log))
         && s.oldHead == Target(head, Finishes(s.log)))
    && (s.pc.Stopped? ==> Finishes(s.log) <= Starts(s.log) && |Starts(s.log)| <= |Finishes(s.log)| + 1)
  }

  lemma InFlightKept(head: Header, s: State, a: Action)
    requires InFlight(head, s) && Enabled(s, a)
    ensures InFlight(head, Step(s, a))
  {
    match a
    case Decide => DecideKeepsInFlight(head, s);
    case HeadEvent(h) => LogGrows(head, s.log, Delivered(h));
    case ResetDone(i) => ResetDoneKeepsInFlight(head, s, i);
    case Quit => if s.resetWaiter.Some? { LogGrows(head, s.log, Answered(s.resetWaiter.value, false)); }
    case SyncRequest(w) => LogGrows(head, s.log, Requested(w));
    case RunnerWorks(_) =>
    case RunnerExits(_) =>
  }

  lemma DecideKeepsInFlight(head: Header, s: State)
    requires InFlight(head, s) && Enabled(s, Decide)
    ensures InFlight(head, Step(s, Decide))
  {
    var r := Reset(s.oldHead, s.newHead);
    LogGrows(head, s.log, Started(r));
    var rs := Starts(s.log);
    if !s.busy {
      assert Finishes(s.log) == rs;
    }
  }

  lemma {:induction false} ResetDoneKeepsInFlight(head: Header, s: State, i: nat)
    requires InFlight(head, s) && Enabled(s, ResetDone(i))
    ensures InFlight(head, Step(s, ResetDone(i)))
  {
    hide Starts, Finishes, LatestHead, Contiguous;
    var r := s.runners[0].reset;
    var log1 := s.log + [Finished(r)];
    LogGrows(head, s.log, Finished(r));
    assert i == 0 && Without(s.runners, i) == [];
    assert Finishes(log1) == Starts(log1) && Target(head, Finishes(log1)) == r.to;
    if s.resetWaiter.Some? && !s.resetForced {
      LogGrows(head, log1, Answered(s.resetWaiter.value, true));
    }
  }

  /** A waiting idle loop has nothing to do; a pending request is marked or already being served. */
  ghost predicate NothingForgotten(s: State) {
    && (s.resetForced && !s.pc.Stopped? ==> s.resetWaiter.Some?)
    && (s.resetWaiter.Some? ==> !s.pc.Stopped? && (s.resetForced || s.busy))
    && (s.pc.Waiting? && !s.busy ==> s.oldHead == s.newHead && !s.resetForced)
  }

  lemma NothingForgottenKept(s: State, a: Action)
    requires NothingForgotten(s) && Enabled(s, a)
    ensures NothingForgotten(Step(s, a))
  {
  }

  // ---------------------------------------------------------------- waiters

  /** The answer at `m` follows its request at `i`, with no other request between. */
  ghost predicate AnswersRequest(log: seq<Event>, i: nat, m: nat)
    requires m < |log| && log[m].Answered?
  {
    i < m && log[i] == Requested(log[m].who) && forall x :: i < x < m ==> !log[x].Requested?
  }

  /** A reset that started at `k` finished just before `m`, with no other start or finish between. */
  ghost predicate ServedBy(log: seq<Event>, k: nat, m: nat)
    requires m < |log|
  {
    && k + 1 < m && log[k].Started? && log[m - 1] == Finished(log[k].reset)
    && forall x :: k < x < m - 1 ==> !log[x].Started? && !log[x].Finished?
  }

  /** A waiter told nil: a reset started after its request and finished before the answer. */
  ghost predicate AnswerJustified(log: seq<Event>, m: nat)
    requires m < |log| && log[m].Answered?
  {
    exists i :: AnswersRequest(log, i, m) && (log[m].ok ==> exists k :: i < k && ServedBy(log, k, m))
  }

  ghost predicate AllAnswersJustified(log: seq<Event>) {
    forall m :: 0 <= m < |log| && log[m].Answered? ==> AnswerJustified(log, m)
  }

  ghost predicate IsAnswered(log: seq<Event>, w: Waiter) {
    exists m :: 0 <= m < |log| && log[m].Answered? && log[m].who == w
  }

  ghost predicate AnsweredOnce(log: seq<Event>) {
    forall m, m' :: 0 <= m < m' < |log| && log[m].Answered? && log[m'].Answered? ==> log[m].who != log[m'].who
  }

  ghost predicate RequestedOnce(log: seq<Event>) {
    forall i, i' :: 0 <= i < i' < |log| && log[i].Requested? && log[i'].Requested? ==> log[i].who != log[i'].who
  }

  ghost predicate RequestedAfter(log: seq<Event>, i: int) {
    exists j :: i < j < |log| && 0 <= j && log[j].Requested?
  }

  /** Every request is answered, or is the one pending, or was followed by another request. */
  ghost predicate RequestsAccounted(log: seq<Event>, pending: Option<Waiter>) {
    forall i :: 0 <= i < |log| && log[i].Requested? ==>
      IsAnswered(log, log[i].who) || pending == Some(log[i].who) || RequestedAfter(log, i)
  }

  ghost predicate PendingWaiter(s: State) {
    s.resetWaiter.Some? ==>
      && s.requestedAt < |s.log| && s.log[s.requestedAt] == Requested(s.resetWaiter.value)
      && (forall x :: s.requestedAt < x < |s.log| ==> !s.log[x].Requested?)
      && (forall m :: 0 <= m < |s.log| && s.log[m].Answered? ==> s.log[m].who != s.resetWaiter.value)
  }

  ghost predicate RunningReset(s: State) {
    s.busy && !s.pc.Stopped? ==>
      && |s.runners| == 1
      && s.startedAt < |s.log| && s.log[s.startedAt] == Started(s.runners[0].reset)
      && (forall x :: s.startedAt < x < |s.log| ==> !s.log[x].Started? && !s.log[x].Finished?)
      && (s.resetWaiter.Some? && !s.resetForced ==> s.requestedAt < s.startedAt)
  }

  ghost predicate Waiters(s: State) {
    && PendingWaiter(s) && RunningReset(s)
    && AllAnswersJustified(s.log) && AnsweredOnce(s.log) && RequestedOnce(s.log)
    && RequestsAccounted(s.log, s.resetWaiter)
  }

  lemma JustifiedExtends(log: seq<Event>, e: Event)
    requires AllAnswersJustified(log)
    requires e.Answered? ==> AnswerJustified(log + [e], |log|)
    ensures AllAnswersJustified(log + [e])
  {
    forall m | 0 <= m < |log| && log[m].Answered? ensures AnswerJustified(log + [e], m) {
      assert AnswerJustified(log, m);
      var i: nat :| AnswersRequest(log, i, m) && (log[m].ok ==> exists k :: i < k && ServedBy(log, k, m));
      assert AnswersRequest(log + [e], i, m);
      if log[m].ok {
        var k: nat :| i < k && ServedBy(log, k, m);
        assert ServedBy(log + [e], k, m);
      }
    }
  }

  lemma AccountedExtends(log: seq<Event>, e: Event, pending: Option<Waiter>, pending': Option<Waiter>)
    requires RequestsAccounted(log, pending)
    requires pending' == pending || e.Requested? || (e.Answered? && pending == Some(e.who))
    requires e.Requested? ==> pending' == Some(e.who)
    ensures RequestsAccounted(log + [e], pending')
  {
    var log' := log + [e];
    assert log'[|log|] == e;
    forall i | 0 <= i < |log| && log[i].Requested?
      ensures IsAnswered(log', log[i].who) || pending' == Some(log[i].who) || RequestedAfter(log', i)
    {
      if IsAnswered(log, log[i].who) {
        var m :| 0 <= m < |log| && log[m].Answered? && log[m].who == log[i].who;
        assert log'[m] == log[m];
      } else if RequestedAfter(log, i) {
        var j :| i < j < |log| && log[j].Requested?;
        assert log'[j] == log[j];
      }
    }
  }

  /** An event that is neither a request nor an answer. */
  lemma QuietEvent(log: seq<Event>, e: Event, pending: Option<Waiter>)
    requires AllAnswersJustified(log) && AnsweredOnce(log) && RequestedOnce(log) && RequestsAccounted(log, pending)
    requires !e.Answered? && !e.Requested?
    ensures AllAnswersJustified(log + [e]) && AnsweredOnce(log + [e]) && RequestedOnce(log + [e])
    ensures RequestsAccounted(log + [e], pending)
  {
    JustifiedExtends(log, e);
    AccountedExtends(log, e, pending, pending);
  }

  /** The pending waiter is answered. */
  lemma AnswerEvent(log: seq<Event>, w: Waiter, ok: bool)
    requires AllAnswersJustified(log) && AnsweredOnce(log) && RequestedOnce(log) && RequestsAccounted(log, Some(w))
    requires forall m :: 0 <= m < |log| && log[m].Answered? ==> log[m].who != w
    requires AnswerJustified(log + [Answered(w, ok)], |log|)
    ensures var log' := log + [Answered(w, ok)];
            AllAnswersJustified(log') && AnsweredOnce(log') && RequestedOnce(log') && RequestsAccounted(log', None)
  {
    JustifiedExtends(log, Answered(w, ok));
    AccountedExtends(log, Answered(w, ok), Some(w), None);
  }

  lemma ResetDoneKeepsWaiters(s: State, i: nat)
    requires Waiters(s) && NothingForgotten(s) && Enabled(s, ResetDone(i)) && |s.runners| == 1
    ensures Waiters(Step(s, ResetDone(i)))
  {
    var r := s.runners[i].reset;
    var log1 := s.log + [Finished(r)];
    QuietEvent(s.log, Finished(r), s.resetWaiter);
    if s.resetWaiter.Some? && !s.resetForced {
      var w := s.resetWaiter.value;
      var log2 := log1 + [Answered(w, true)];
      assert AnswersRequest(log2, s.requestedAt, |log1|);
      assert ServedBy(log2, s.startedAt, |log1|);
      AnswerEvent(log1, w, true);
    }
  }

  lemma QuitKeepsWaiters(s: State)
    requires Waiters(s) && Enabled(s, Quit)
    ensures Waiters(Step(s, Quit))
  {
    if s.resetWaiter.Some? {
      assert AnswersRequest(s.log + [Answered(s.resetWaiter.value, false)], s.requestedAt, |s.log|);
      AnswerEvent(s.log, s.resetWaiter.value, false);
    }
  }

  lemma SyncKeepsWaiters(s: State, w: Waiter)
    requires Waiters(s) && Enabled(s, SyncRequest(w))
    ensures Waiters(Step(s, SyncRequest(w)))
  {
    JustifiedExtends(s.log, Requested(w));
    AccountedExtends(s.log, Requested(w), s.resetWaiter, Some(w));
    assert forall k :: 0 <= k < |s.log| ==> !Mentions(s.log[k], w);
  }

  lemma WaitersKept(s: State, a: Action)
    requires Waiters(s) && NothingForgotten(s) && Enabled(s, a)
    requires |s.runners| <= 1 && (!s.pc.Stopped? ==> s.busy == (|s.runners| == 1))
    ensures Waiters(Step(s, a))
  {
    match a
    case Decide => QuietEvent(s.log, Started(Reset(s.oldHead, s.newHead)), s.resetWaiter);
    case HeadEvent(h) => QuietEvent(s.log, Delivered(h), s.resetWaiter);
    case ResetDone(i) => ResetDoneKeepsWaiters(s, i);
    case Quit => QuitKeepsWaiters(s);
    case SyncRequest(w) => SyncKeepsWaiters(s, w);
    case RunnerWorks(_) =>
    case RunnerExits(_) =>
  }

  // ---------------------------------------------------------------- every reachable state

  lemma {:induction false} EveryRunKeeps(head: Header, acts: seq<Action>)
    requires Run(Init(head), acts).Some?
    ensures var s := Run(Init(head), acts).value; InFlight(head, s) && NothingForgotten(s) && Waiters(s)
    decreases |acts|
  {
    if acts != [] {
      var before := acts[..|acts| - 1];
      EveryRunKeeps(head, before);
      var s, a := Run(Init(head), before).value, acts[|acts| - 1];
      InFlightKept(head, s, a);
      NothingForgottenKept(s, a);
      WaitersKept(s, a);
    }
  }

  /** At most one reset runs, each starts where the last one ended, and an idle waiting loop is up to date. */
  lemma {:induction false} ResetsAreSerialAndContiguous(head: Header, acts: seq<Action>)
    requires Run(Init(head), acts).Some?
    ensures var s := Run(Init(head), acts).value;
            && |s.runners| <= 1
            && Contiguous(head, Starts(s.log))
            && Finishes(s.log) <= Starts(s.log) && |Starts(s.log)| <= |Finishes(s.log)| + 1
            && (s.pc.Waiting? && !s.busy ==>
                 LatestHead(head, s.log) == Target(head, Finishes(s.log)) && !s.resetForced && s.resetWaiter.None?)
  {
    EveryRunKeeps(head, acts);
  }

  /** A `Sync` that returned nil saw a whole reset that began after it asked; nobody is answered twice. */
  lemma {:induction false} SyncIsHonest(head: Header, acts: seq<Action>)
    requires Run(Init(head), acts).Some?
    ensures var log := Run(Init(head), acts).value.log; AllAnswersJustified(log) && AnsweredOnce(log)
  {
    EveryRunKeeps(head, acts);
  }

  /** The first of two overlapping `Sync` calls is never answered: exactly when a request is lost. */
  lemma {:induction false} RequestLostIff(head: Header, acts: seq<Action>, i: nat)
    requires Run(Init(head), acts).Some? && Run(Init(head), acts).value.pc.Stopped?
    requires i < |Run(Init(head), acts).value.log| && Run(Init(head), acts).value.log[i].Requested?
    ensures var log := Run(Init(head), acts).value.log;
            !IsAnswered(log, log[i].who) <==>
            exists j :: i < j < |log| && log[j].Requested? && !IsAnswered(log[..j], log[i].who)
  {
    EveryRunKeeps(head, acts);
    LostIff(Run(Init(head), acts).value.log, i);
  }

  /** A run in which that happens: the pool stops with the first of two requests unanswered. */
  lemma OverlappingSyncIsLost(head: Header, first: Waiter, second: Waiter)
    requires first != second
    ensures var r := Run(Init(head), [Decide, SyncRequest(first), Decide, SyncRequest(second), Decide, Quit]);
            && r.Some? && r.value.pc.Stopped? && Requested(first) in r.value.log
            && !IsAnswered(r.value.log, first) && IsAnswered(r.value.log, second)
  {
    var s1 := Step(Init(head), Decide);
    var s2 := Step(s1, SyncRequest(first));
    var s3 := Step(s2, Decide);
    assert s3.log == [Requested(first), Started(Reset(head, head))] && s3.pc.Waiting?;
    var s4 := Step(s3, SyncRequest(second));
    var s5 := Step(s4, Decide);
    assert s5.log == s3.log + [Requested(second)] && s5.pc.Waiting? && s5.resetWaiter == Some(second);
    var s6 := Step(s5, Quit);
    var acts := [Decide, SyncRequest(first), Decide, SyncRequest(second), Decide, Quit];
    RunsThrough(head, acts, [Init(head), s1, s2, s3, s4, s5, s6], 6);
    assert acts[..6] == acts;
    assert s6.log == s5.log + [Answered(second, false)] && s6.log[0] == Requested(first) && s6.log[3] == Answered(second, false);
  }

  /** A run is a list of states, each a step from the one before. */
  lemma {:induction false} RunsThrough(head: Header, acts: seq<Action>, states: seq<State>, n: nat)
    requires |states| == |acts| + 1 && states[0] == Init(head) && n <= |acts|
    requires forall i :: 0 <= i < |acts| ==> Enabled(states[i], acts[i]) && states[i + 1] == Step(states[i], acts[i])
    ensures Run(Init(head), acts[..n]) == Some(states[n])
  {
    if n > 0 {
      RunsThrough(head, acts, states, n - 1);
      assert acts[..n][..n - 1] == acts[..n - 1];
    }
  }

  lemma LostIff(log: seq<Event>, i: nat)
    requires AllAnswersJustified(log) && RequestedOnce(log) && RequestsAccounted(log, None)
    requires i < |log| && log[i].Requested?
    ensures !IsAnswered(log, log[i].who) <==>
            exists j :: i < j < |log| && log[j].Requested? && !IsAnswered(log[..j], log[i].who)
  {
    var w := log[i].who;
    if !IsAnswered(log, w) {
      assert RequestedAfter(log, i);
      var j :| i < j < |log| && log[j].Requested?;
      assert !IsAnswered(log[..j], w) by {
        assert forall m :: 0 <= m < j ==> log[..j][m] == log[m];
      }
    } else {
      var m :| 0 <= m < |log| && log[m].Answered? && log[m].who == w;
      assert AnswerJustified(log, m);
      var i': nat :| AnswersRequest(log, i', m);
      forall j | i < j < |log| && log[j].Requested? ensures IsAnswered(log[..j], w) {
        assert m < j && log[..j][m] == log[m];
      }
    }
  }

  // ---------------------------------------------------------------- progress without outside events

  /** The steps the pool takes by itself. */
  predicate Internal(a: Action) {
    a.Decide? || a.ResetDone? || a.RunnerWorks?
  }

  /** How many resets must still finish before the pool is up to date. */
  ghost function Debt(s: State): (n: nat)
    requires s.busy ==> |s.runners| == 1
  {
    if s.busy then 1 + (if s.runners[0].reset.to != s.newHead || s.resetForced then 1 else 0)
    else if s.oldHead != s.newHead || s.resetForced then 1 else 0
  }

  ghost function StepsLeft(s: State): (n: nat)
    requires s.busy ==> |s.runners| == 1
  {
    3 * Debt(s) + if !s.busy then (if s.pc.Deciding? then 2 else 0)
                  else (if s.pc.Deciding? then 1 else 0) + (if s.runners[0].done then 0 else 1)
  }

  /**
   * Left alone, a running pool can always take an internal step until it is settled - up to date,
   * nobody waiting - and every internal step brings that nearer; at most eight are needed.
   */
  lemma {:induction false} SettlesByItself(head: Header, acts: seq<Action>)
    requires Run(Init(head), acts).Some? && !Run(Init(head), acts).value.pc.Stopped?
    ensures var s := Run(Init(head), acts).value;
            && (s.busy ==> |s.runners| == 1)
            && StepsLeft(s) <= 8
            && (StepsLeft(s) == 0 ==> s.resetWaiter.None? && s.oldHead == LatestHead(head, s.log))
            && (StepsLeft(s) > 0 ==> exists a :: Internal(a) && Enabled(s, a))
            && forall a :: Internal(a) && Enabled(s, a) ==>
                 (Step(s, a).busy ==> |Step(s, a).runners| == 1) && StepsLeft(Step(s, a)) < StepsLeft(s)
  {
    EveryRunKeeps(head, acts);
    var s := Run(Init(head), acts).value;
    assert !s.busy ==> s.runners == [];
    if StepsLeft(s) > 0 {
      if s.pc.Deciding? {
        assert Enabled(s, Decide);
      } else if s.runners[0].done {
        assert Enabled(s, ResetDone(0));
      } else {
        assert Enabled(s, RunnerWorks(0));
      }
    }
    forall a | Internal(a) && Enabled(s, a)
      ensures (Step(s, a).busy ==> |Step(s, a).runners| == 1) && StepsLeft(Step(s, a)) < StepsLeft(s)
    {
    }
  }

  /** A running pool that has nothing left to do. */
  ghost predicate IsSettled(head: Header, s: State) {
    s.resetWaiter.None? && !s.resetForced && s.oldHead == LatestHead(head, s.log)
  }

  ghost predicate AllInternal(acts: seq<Action>) {
    forall i :: 0 <= i < |acts| ==> Internal(acts[i])
  }

  /** The state in which a run of internal steps leaves the pool, with how much of the measure it used. */
  ghost predicate Counted(s: State, n: nat, s': State) {
    && !s'.pc.Stopped? && (s.busy ==> |s.runners| == 1) && (s'.busy ==> |s'.runners| == 1)
    && StepsLeft(s') + n <= StepsLeft(s)
  }

  lemma {:induction false} InternalRunCounts(head: Header, acts: seq<Action>, more: seq<Action>)
    ensures Run(Init(head), acts + more).Some? ==> Run(Init(head), acts).Some?
    ensures AllInternal(more) && Run(Init(head), acts + more).Some? && !Run(Init(head), acts).value.pc.Stopped? ==>
              Counted(Run(Init(head), acts).value, |more|, Run(Init(head), acts + more).value)
    decreases |more|
  {
    if more == [] {
      assert acts + more == acts;
      if Run(Init(head), acts).Some? { EveryRunKeeps(head, acts); }
    } else {
      var n := |more| - 1;
      assert (acts + more)[..|acts + more| - 1] == acts + more[..n] && (acts + more)[|acts + more| - 1] == more[n];
      InternalRunCounts(head, acts, more[..n]);
      var before := Run(Init(head), acts + more[..n]);
      if before.Some? {
        EveryRunKeeps(head, acts + more[..n]);
        if Enabled(before.value, more[n]) && Internal(more[n]) && !before.value.pc.Stopped? {
        }
      }
    }
  }

  /**
   * From any reachable state of a running pool, whatever internal steps are taken: there are at most eight of them,
   * and when no further one is possible the pool is up to date and nobody waits.
   */
  lemma {:induction false} InternalRunsSettle(head: Header, acts: seq<Action>, more: seq<Action>)
    ensures Run(Init(head), acts + more).Some? ==> Run(Init(head), acts).Some?
    ensures AllInternal(more) && Run(Init(head), acts + more).Some? && !Run(Init(head), acts).value.pc.Stopped? ==>
              var s := Run(Init(head), acts + more).value;
              |more| <= 8 && ((forall a :: Internal(a) ==> !Enabled(s, a)) ==> IsSettled(head, s))
  {
    hide Run;
    InternalRunCounts(head, acts, more);
    if AllInternal(more) && Run(Init(head), acts + more).Some? && !Run(Init(head), acts).value.pc.Stopped? {
      SettlesByItself(head, acts);
      SettlesByItself(head, acts + more);
      EveryRunKeeps(head, acts + more);
    }
  }

  // ---------------------------------------------------------------- the loop always listens

  /** What may come from outside: a head, the end, and a request from somebody new. */
  predicate FromOutside(s: State, a: Action) {
    match a
    case HeadEvent(_) => true
    case Quit => true
    case SyncRequest(w) => forall k :: 0 <= k < |s.log| ==> !Mentions(s.log[k], w)
    case _ => false
  }

  /** Until it stops, the loop takes whatever comes from outside at once or after one decision, reset running or not. */
  lemma {:induction false} AlwaysListens(head: Header, acts: seq<Action>, a: Action)
    requires Run(Init(head), acts).Some? && !Run(Init(head), acts).value.pc.Stopped?
    ensures var s := Run(Init(head), acts).value;
            var more := if s.pc.Deciding? then acts + [Decide] else acts;
            && Run(Init(head), more).Some?
            && (FromOutside(Run(Init(head), more).value, a) ==> Run(Init(head), more + [a]).Some?)
  {
    var s := Run(Init(head), acts).value;
    var more := if s.pc.Deciding? then acts + [Decide] else acts;
    assert (acts + [Decide])[..|acts|] == acts;
    assert (more + [a])[..|more|] == more;
    assert Run(Init(head), more).value.pc.Waiting?;
  }
}
