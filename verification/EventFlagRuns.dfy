/** Any number of threads using one event flag, interleaved at every release of its mutex. */
module EventFlagRuns {
  import opened Bits
  import opened EventFlag

  type ThreadId = nat

  /** Where a thread is inside the flag's code. Threads outside it are not recorded. */
  datatype Thread =
    | Blocked(call: nat, req: Request)   // asleep in Wait
    | Setting(pattern: nat)              // retrying in Set, Clear, Cancel or the destructor
    | Clearing(pattern: nat)
    | Canceling(pattern: nat)
    | Draining                           // in the second loop of Cancel
    | Deleting
    | DrainingDelete                     // in the second loop of the destructor

  /** One return from Wait; `slept` tells whether the call had been asleep. */
  datatype Returned = Returned(call: nat, req: Request, result: Result, slept: bool)

  datatype System = System(
    flag: Flag,
    threads: map<ThreadId, Thread>,
    nextCall: nat,
    log: seq<Returned>,       // returns from Wait, oldest first
    raised: seq<nat>,         // patterns put into the flag by its creation, Set and Cancel
    cancels: seq<nat>,        // the counts reported by Cancel calls
    destroyed: bool)

  /** One region under the mutex, by one thread. `elapsed` is what the timer shows after a wake-up. */
  datatype Step =
    | CallWait(t: ThreadId, req: Request)
    | Wake(t: ThreadId, elapsed: nat)
    | CallSet(t: ThreadId, pattern: nat)
    | CallClear(t: ThreadId, pattern: nat)
    | CallCancel(t: ThreadId, pattern: nat)
    | CallDelete(t: ThreadId)
    | Retry(t: ThreadId)

  ghost predicate Enabled(s: System, a: Step) {
    && !s.destroyed
    && match a
       case Wake(t, _) => t in s.threads && s.threads[t].Blocked? && s.flag.waiting > 0
       case Retry(t) => t in s.threads && !s.threads[t].Blocked?
       case CallWait(t, _) => t !in s.threads
       case CallDelete(t) => t !in s.threads
       case _ => a.t !in s.threads && s.flag.status != StatusDeleted
  }

  /** The thread leaves the flag's code. */
  function Leave(s: System, t: ThreadId): System {
    s.(threads := s.threads - {t})
  }

  /** The thread goes on, or on to its next loop. */
  function Stay(s: System, t: ThreadId, th: Thread): System {
    s.(threads := s.threads[t := th])
  }

  function AfterWait(s: System, t: ThreadId, call: nat, q: Request, slept: bool, fr: (Flag, Reply)): System {
    match fr.1
    case Sleep => s.(flag := fr.0, threads := s.threads[t := Blocked(call, q)])
    case Return(r, _, _) => Leave(s, t).(flag := fr.0, log := s.log + [Returned(call, q, r, slept)])
  }

  /** One pass through the body of a thread that is setting, clearing, canceling or deleting. */
  function Turn(s: System, t: ThreadId, th: Thread): System
    requires !th.Blocked?
  {
    match th
    case Setting(p) =>
      var (f, r) := SetTurn(s.flag, p);
      if r.Busy? then Stay(s, t, th) else Leave(s, t).(flag := f, raised := s.raised + [p])
    case Clearing(p) =>
      var (f, r) := ClearTurn(s.flag, p);
      if r.Busy? then Stay(s, t, th) else Leave(s, t).(flag := f)
    case Canceling(p) =>
      var (f, r) := CancelTurn(s.flag, p);
      if r.Marked? then
        Stay(s, t, Draining).(flag := f, raised := s.raised + [p], cancels := s.cancels + [r.count])
      else Stay(s, t, th)
    case Draining =>
      var (f, r) := CancelDrain(s.flag);
      if r.Busy? then Stay(s, t, th) else Leave(s, t).(flag := f)
    case Deleting =>
      var (f, r) := DeleteTurn(s.flag);
      if r.Busy? then Stay(s, t, th) else Stay(s, t, DrainingDelete).(flag := f)
    case DrainingDelete =>
      var (f, r) := DeleteDrain(s.flag);
      if r.Busy? then Stay(s, t, th) else Leave(s, t).(flag := f, destroyed := true)
  }

  function Next(s: System, a: Step): System
    requires Enabled(s, a)
  {
    match a
    case CallWait(t, q) => AfterWait(s.(nextCall := s.nextCall + 1), t, s.nextCall, q, false, WaitEntry(s.flag, q))
    case Wake(t, elapsed) =>
      var th := s.threads[t];
      AfterWait(s, t, th.call, th.req, true, WaitWake(s.flag, th.req, elapsed))
    case CallSet(t, p) => Turn(s, t, Setting(p))
    case CallClear(t, p) => Turn(s, t, Clearing(p))
    case CallCancel(t, p) => Turn(s, t, Canceling(p))
    case CallDelete(t) => Turn(s, t, Deleting)
    case Retry(t) => Turn(s, t, s.threads[t])
  }

  function Init(single: bool, pattern: nat): System {
    System(Flag(StatusSet, pattern, 0, single), map[], 0, [], [pattern], [], false)
  }

  /** `states` is a run under the steps `acts`. */
  ghost predicate Run(states: seq<System>, acts: seq<Step>) {
    && |states| == |acts| + 1
    && forall i :: 0 <= i < |acts| ==> Enabled(states[i], acts[i]) && states[i + 1] == Next(states[i], acts[i])
  }

  // ----- what every reachable state keeps -----

  function BlockedIn(threads: map<ThreadId, Thread>): set<ThreadId> {
    set t | t in threads && threads[t].Blocked?
  }

  /** How many returns of clearing waits took bit `b`: AND patterns that contain it, or the OR pattern
      that is just `b`. */
  ghost predicate Takes(r: Returned, b: nat) {
    && r.result == Ok && r.req.clear != ClearNone
    && ((r.req.mode == WaitAnd && BitOf(r.req.bits, b)) || (r.req.mode == WaitOr && r.req.bits == Pow2(b)))
  }

  ghost function Taken(log: seq<Returned>, b: nat): nat {
    if log == [] then 0 else Taken(log[..|log| - 1], b) + Digit(Takes(log[|log| - 1], b))
  }

  ghost function Raises(raised: seq<nat>, b: nat): nat {
    if raised == [] then 0 else Raises(raised[..|raised| - 1], b) + Digit(BitOf(raised[|raised| - 1], b))
  }

  ghost predicate CallsFresh(s: System) {
    && (forall t :: t in s.threads && s.threads[t].Blocked? ==> s.threads[t].call < s.nextCall)
    && (forall i :: 0 <= i < |s.log| ==> s.log[i].call < s.nextCall)
    && (forall i, j :: 0 <= i < j < |s.log| ==> s.log[i].call != s.log[j].call)
    && (forall t, i :: t in s.threads && s.threads[t].Blocked? && 0 <= i < |s.log| ==>
        s.log[i].call != s.threads[t].call)
    && (forall t, u :: t in s.threads && u in s.threads && t != u && s.threads[t].Blocked? && s.threads[u].Blocked? ==>
          s.threads[t].call != s.threads[u].call)
  }

  ghost predicate Drainer(s: System, t: ThreadId) {
    t in s.threads && s.threads[t].Draining?
  }

  ghost predicate DrainingInv(s: System) {
    && (s.flag.status == StatusCanceled <==> exists t :: Drainer(s, t))
    && (forall t, u :: Drainer(s, t) && Drainer(s, u) ==> t == u)
    && (forall t :: t in s.threads && s.threads[t].DrainingDelete? ==> s.flag.status == StatusDeleted)
  }

  /** The counter is the number of sleepers, at most one on a single-thread flag. */
  ghost predicate WaitingInv(s: System) {
    && s.flag.waiting == |BlockedIn(s.threads)|
    && (s.flag.single ==> s.flag.waiting <= 1)
  }

  ghost predicate Inv(s: System) {
    WaitingInv(s) && DrainingInv(s) && CallsFresh(s)
  }

  /** Bit conservation, for one bit. */
  ghost predicate BitKept(s: System, b: nat) {
    Taken(s.log, b) + Digit(BitOf(s.flag.bits, b)) <= Raises(s.raised, b)
  }

  // ----- the waiting count -----

  lemma BlockedUpdate(threads: map<ThreadId, Thread>, t: ThreadId, th: Thread)
    ensures BlockedIn(threads[t := th]) == if th.Blocked? then BlockedIn(threads) + {t} else BlockedIn(threads) - {t}
  {}

  lemma BlockedRemove(threads: map<ThreadId, Thread>, t: ThreadId)
    ensures BlockedIn(threads - {t}) == BlockedIn(threads) - {t}
  {}

  lemma {:induction false} WaitingEntry(s: System, t: ThreadId, q: Request)
    requires WaitingInv(s) && Enabled(s, CallWait(t, q))
    ensures WaitingInv(Next(s, CallWait(t, q)))
  {
    hide Satisfied, Cleared, TimeLeft;
    BlockedUpdate(s.threads, t, Blocked(s.nextCall, q));
    BlockedRemove(s.threads, t);
    assert t !in BlockedIn(s.threads);
  }

  lemma {:induction false} WaitingWake(s: System, t: ThreadId, elapsed: nat)
    requires WaitingInv(s) && Enabled(s, Wake(t, elapsed))
    ensures WaitingInv(Next(s, Wake(t, elapsed)))
  {
    hide Satisfied, Cleared, TimeLeft;
    var th := s.threads[t];
    assert Blocked(th.call, th.req) == th;
    BlockedUpdate(s.threads, t, th);
    BlockedRemove(s.threads, t);
    assert t in BlockedIn(s.threads);
    assert BlockedIn(s.threads) + {t} == BlockedIn(s.threads);
  }

  lemma {:induction false} WaitingTurn(s: System, t: ThreadId, th: Thread)
    requires WaitingInv(s) && !th.Blocked? && (t in s.threads ==> !s.threads[t].Blocked?)
    ensures WaitingInv(Turn(s, t, th))
  {
    hide Turn, BlockedIn;
    TurnFlag(s, t, th);
    TurnThreads(s, t, th);
  }

  /** A pass through such a loop never changes who waits. */
  lemma {:induction false} TurnFlag(s: System, t: ThreadId, th: Thread)
    requires !th.Blocked?
    ensures Turn(s, t, th).flag.waiting == s.flag.waiting && Turn(s, t, th).flag.single == s.flag.single
  {
    hide Or, And;
  }

  lemma {:induction false} TurnThreads(s: System, t: ThreadId, th: Thread)
    requires !th.Blocked? && (t in s.threads ==> !s.threads[t].Blocked?)
    ensures BlockedIn(Turn(s, t, th).threads) == BlockedIn(s.threads)
  {
    hide Or, And;
    BlockedUpdate(s.threads, t, th);
    BlockedUpdate(s.threads, t, Draining);
    BlockedUpdate(s.threads, t, DrainingDelete);
    BlockedRemove(s.threads, t);
    assert t !in BlockedIn(s.threads);
  }

  // ----- who is draining -----

  lemma {:induction false} DrainingWait(s: System, t: ThreadId, call: nat, q: Request, slept: bool, fr: (Flag, Reply))
    requires DrainingInv(s) && fr.0.status == s.flag.status
    requires t in s.threads ==> s.threads[t].Blocked?
    ensures DrainingInv(AfterWait(s, t, call, q, slept, fr))
  {
    var s' := AfterWait(s, t, call, q, slept, fr);
    forall u ensures Drainer(s', u) <==> Drainer(s, u) {}
  }

  lemma {:induction false} DrainingTurn(s: System, t: ThreadId, th: Thread)
    requires DrainingInv(s) && !th.Blocked?
    requires if t in s.threads then s.threads[t] == th else !th.Draining? && !th.DrainingDelete?
    ensures DrainingInv(Turn(s, t, th))
  {
    var s' := Turn(s, t, th);
    forall u | u != t ensures Drainer(s', u) <==> Drainer(s, u) {}
    if th.Draining? {
      assert Drainer(s, t) && (s.flag.waiting > 0 ==> Drainer(s', t));
    } else {
      assert !Drainer(s, t);
      if th.Canceling? && s.flag.status == StatusSet {
        assert Drainer(s', t);
      }
    }
  }

  // ----- call numbers -----

  lemma {:induction false} FreshWait(s: System, t: ThreadId, call: nat, q: Request, slept: bool, fr: (Flag, Reply))
    requires CallsFresh(s) && call < s.nextCall
    requires forall i :: 0 <= i < |s.log| ==> s.log[i].call != call
    requires forall u :: u in s.threads && u != t && s.threads[u].Blocked? ==> s.threads[u].call != call
    ensures CallsFresh(AfterWait(s, t, call, q, slept, fr))
  {}

  lemma {:induction false} FreshTurn(s: System, t: ThreadId, th: Thread)
    requires CallsFresh(s) && !th.Blocked?
    ensures CallsFresh(Turn(s, t, th))
  {
    hide Or, And;
    var s' := Turn(s, t, th);
    assert s'.log == s.log && s'.nextCall == s.nextCall;
    assert forall u :: u in s'.threads && s'.threads[u].Blocked? ==> u in s.threads && s.threads[u] == s'.threads[u];
  }

  lemma {:induction false} FreshStart(s: System)
    requires CallsFresh(s)
    ensures CallsFresh(s.(nextCall := s.nextCall + 1))
  {}

  // ----- the invariant -----

  lemma {:induction false} InvInit(single: bool, pattern: nat)
    ensures Inv(Init(single, pattern))
  {
    assert BlockedIn(map[]) == {};
  }

  lemma {:induction false} InvStep(s: System, a: Step)
    requires Inv(s) && Enabled(s, a)
    ensures Inv(Next(s, a))
  {
    hide Satisfied, Cleared, TimeLeft, WaitingInv, DrainingInv, CallsFresh, Turn, AfterWait;
    match a
    case CallWait(t, q) =>
      WaitingEntry(s, t, q);
      StartFresh(s, t, q);
    case Wake(t, elapsed) =>
      WaitingWake(s, t, elapsed);
      WakeFresh(s, t, elapsed);
    case CallSet(t, p) => TurnInv(s, t, Setting(p));
    case CallClear(t, p) => TurnInv(s, t, Clearing(p));
    case CallCancel(t, p) => TurnInv(s, t, Canceling(p));
    case CallDelete(t) => TurnInv(s, t, Deleting);
    case Retry(t) => TurnInv(s, t, s.threads[t]);
  }

  lemma {:induction false} StartFresh(s: System, t: ThreadId, q: Request)
    requires Inv(s) && Enabled(s, CallWait(t, q))
    ensures DrainingInv(Next(s, CallWait(t, q))) && CallsFresh(Next(s, CallWait(t, q)))
  {
    hide Satisfied, Cleared, TimeLeft, AfterWait;
    FreshStart(s);
    var s0, fr := s.(nextCall := s.nextCall + 1), WaitEntry(s.flag, q);
    FreshWait(s0, t, s.nextCall, q, false, fr);
    forall u ensures Drainer(s0, u) <==> Drainer(s, u) {}
    DrainingWait(s0, t, s.nextCall, q, false, fr);
  }

  lemma {:induction false} WakeFresh(s: System, t: ThreadId, elapsed: nat)
    requires Inv(s) && Enabled(s, Wake(t, elapsed))
    ensures DrainingInv(Next(s, Wake(t, elapsed))) && CallsFresh(Next(s, Wake(t, elapsed)))
  {
    hide Satisfied, Cleared, TimeLeft, AfterWait;
    var th, fr := s.threads[t], WaitWake(s.flag, s.threads[t].req, elapsed);
    FreshWait(s, t, th.call, th.req, true, fr);
    DrainingWait(s, t, th.call, th.req, true, fr);
  }

  lemma {:induction false} TurnInv(s: System, t: ThreadId, th: Thread)
    requires Inv(s) && !th.Blocked?
    requires if t in s.threads then s.threads[t] == th else !th.Draining? && !th.DrainingDelete?
    ensures Inv(Turn(s, t, th))
  {
    hide WaitingInv, DrainingInv, CallsFresh, Turn;
    WaitingTurn(s, t, th);
    DrainingTurn(s, t, th);
    FreshTurn(s, t, th);
  }

  /** The counter equals the number of sleepers, and a single-thread flag has at most one, in every
      reachable state. */
  lemma {:induction false} InvRun(states: seq<System>, acts: seq<Step>, single: bool, pattern: nat, i: nat)
    requires Run(states, acts) && states[0] == Init(single, pattern) && i < |states|
    ensures Inv(states[i])
  {
    hide Inv, Next, Enabled;
    if i == 0 {
      InvInit(single, pattern);
    } else {
      InvRun(states, acts, single, pattern, i - 1);
      InvStep(states[i - 1], acts[i - 1]);
    }
  }

  // ----- Cancel -----

  /** A call that returned `r` out of its sleep, and has no other return. */
  ghost predicate LeftWith(s: System, call: nat, r: Result) {
    && (exists i :: 0 <= i < |s.log| && s.log[i].call == call && s.log[i].result == r && s.log[i].slept)
    && (forall i :: 0 <= i < |s.log| && s.log[i].call == call ==> s.log[i].result == r)
  }

  ghost predicate LeftCanceled(s: System, call: nat) {
    LeftWith(s, call, Canceled)
  }

  ghost predicate BlockedCall(s: System, call: nat) {
    exists t :: t in s.threads && s.threads[t].Blocked? && s.threads[t].call == call
  }

  /** A step either leaves the log alone or appends one return. */
  lemma {:induction false} LogGrows(s: System, a: Step)
    requires Enabled(s, a)
    ensures Next(s, a).log == s.log || (|Next(s, a).log| == |s.log| + 1 && Next(s, a).log[..|s.log|] == s.log)
  {
    hide LoopTest, WaitEntry, WaitWake;
  }

  lemma {:induction false} LeftStaysLeft(s: System, a: Step, call: nat, r: Result)
    requires Inv(s) && Enabled(s, a) && LeftWith(s, call, r)
    ensures LeftWith(Next(s, a), call, r)
  {
    InvStep(s, a);
    LogGrows(s, a);
    hide Next, Enabled, WaitingInv, DrainingInv;
    var s' := Next(s, a);
    var i :| 0 <= i < |s.log| && s.log[i].call == call && s.log[i].result == r && s.log[i].slept;
    assert forall j :: 0 <= j < |s.log| ==> s'.log[j] == s.log[j];
  }

  /** What a sleeper that wakes up is told. */
  function Verdict(status: Status): Result {
    match status
    case StatusCanceled => Canceled
    case StatusDeleted => Deleted
    case StatusSet => Ok
  }

  lemma {:induction false} SleeperWhileMarked(s: System, a: Step, t: ThreadId)
    requires Inv(s) && Enabled(s, a) && s.flag.status != StatusSet
    requires t in s.threads && s.threads[t].Blocked?
    ensures
      || (t in Next(s, a).threads && Next(s, a).threads[t] == s.threads[t])
      || LeftWith(Next(s, a), s.threads[t].call, Verdict(s.flag.status))
  {
    hide LoopTest, WaitingInv, DrainingInv;
    if a.Wake? && a.t == t {
      var s', n := Next(s, a), |s.log|;
      assert s'.log[n].call == s.threads[t].call && s'.log[n].result == Verdict(s.flag.status) && s'.log[n].slept;
      assert forall j :: 0 <= j < n ==> s'.log[j] == s.log[j];
    }
  }

  lemma {:induction false} CancelEnds(s: System, a: Step)
    requires Inv(s) && Enabled(s, a) && s.flag.status == StatusCanceled
    requires Next(s, a).flag.status != StatusCanceled
    ensures BlockedIn(Next(s, a).threads) == {}
  {
    hide CallsFresh, Satisfied, Cleared, TimeLeft;
    InvStep(s, a);
    assert a.Retry? && s.threads[a.t].Draining? && s.flag.waiting == 0;
    assert Next(s, a).flag.waiting == |BlockedIn(Next(s, a).threads)|;
  }

  /** While a Cancel is in progress, a sleeper stays asleep or leaves with Canceled, and the Cancel
      returns only when nobody sleeps. */
  lemma {:induction false} StepWhileCanceled(s: System, a: Step, call: nat)
    requires Inv(s) && Enabled(s, a) && s.flag.status == StatusCanceled
    requires BlockedCall(s, call) || LeftCanceled(s, call)
    ensures BlockedCall(Next(s, a), call) || LeftCanceled(Next(s, a), call)
    ensures Next(s, a).flag.status != StatusCanceled ==> !BlockedCall(Next(s, a), call)
  {
    hide Inv, Next, Enabled, LeftWith;
    var s' := Next(s, a);
    if LeftCanceled(s, call) {
      LeftStaysLeft(s, a, call, Canceled);
    } else {
      var t :| t in s.threads && s.threads[t].Blocked? && s.threads[t].call == call;
      SleeperWhileMarked(s, a, t);
    }
    if s'.flag.status != StatusCanceled {
      CancelEnds(s, a);
      assert forall t :: t in s'.threads && s'.threads[t].Blocked? ==> t in BlockedIn(s'.threads);
    }
  }

  /** Cancel reaches everybody: in any stretch of a run that starts with the effect of a Cancel and ends
      with its return, every call asleep at any point of the stretch leaves with Canceled and nothing else. */
  lemma {:induction false} CancelReachesAll(states: seq<System>, acts: seq<Step>, call: nat, i: nat)
    requires Run(states, acts) && Inv(states[0])
    requires forall j :: 0 <= j < |acts| ==> states[j].flag.status == StatusCanceled
    requires states[|acts|].flag.status != StatusCanceled
    requires i < |acts| && BlockedCall(states[i], call)
    ensures LeftCanceled(states[|acts|], call)
  {
    hide Inv, Next, Enabled, BlockedCall, LeftCanceled;
    var n := i;
    InvFrom(states, acts, i);
    while n < |acts|
      invariant i <= n <= |acts| && Inv(states[n])
      invariant BlockedCall(states[n], call) || LeftCanceled(states[n], call)
      invariant n > i && states[n].flag.status != StatusCanceled ==> !BlockedCall(states[n], call)
    {
      StepWhileCanceled(states[n], acts[n], call);
      InvStep(states[n], acts[n]);
      n := n + 1;
    }
  }

  lemma {:induction false} InvFrom(states: seq<System>, acts: seq<Step>, i: nat)
    requires Run(states, acts) && Inv(states[0]) && i < |states|
    ensures Inv(states[i])
  {
    hide Inv, Next, Enabled;
    if i > 0 {
      InvFrom(states, acts, i - 1);
      InvStep(states[i - 1], acts[i - 1]);
    }
  }

  /** The number a Cancel reports is the number of threads asleep when it takes effect. */
  lemma {:induction false} CancelCounts(s: System, a: Step)
    requires Inv(s) && Enabled(s, a) && s.flag.status == StatusSet && Next(s, a).flag.status == StatusCanceled
    ensures Next(s, a).cancels == s.cancels + [|BlockedIn(s.threads)|]
    ensures BlockedIn(Next(s, a).threads) == BlockedIn(s.threads)
  {
    hide Satisfied, Cleared, TimeLeft;
    BlockedUpdate(s.threads, a.t, Draining);
    assert a.t in s.threads ==> a.t !in BlockedIn(s.threads);
  }

  /** While the destructor waits, a sleeper stays asleep or leaves with Deleted, and the flag is destroyed only
      when nobody sleeps. */
  lemma {:induction false} StepWhileDeleted(s: System, a: Step, call: nat)
    requires Inv(s) && Enabled(s, a) && s.flag.status == StatusDeleted
    requires BlockedCall(s, call) || LeftWith(s, call, Deleted)
    ensures Next(s, a).flag.status == StatusDeleted
    ensures BlockedCall(Next(s, a), call) || LeftWith(Next(s, a), call, Deleted)
    ensures Next(s, a).destroyed ==> !BlockedCall(Next(s, a), call)
  {
    hide Inv, Next, Enabled, LeftWith;
    var s' := Next(s, a);
    DeletedStays(s, a);
    if LeftWith(s, call, Deleted) {
      LeftStaysLeft(s, a, call, Deleted);
    } else {
      var t :| t in s.threads && s.threads[t].Blocked? && s.threads[t].call == call;
      SleeperWhileMarked(s, a, t);
    }
    if s'.destroyed {
      assert forall t :: t in s'.threads && s'.threads[t].Blocked? ==> t in BlockedIn(s'.threads);
    }
  }

  lemma {:induction false} DeletedStays(s: System, a: Step)
    requires Inv(s) && Enabled(s, a) && s.flag.status == StatusDeleted
    ensures Next(s, a).flag.status == StatusDeleted
    ensures Next(s, a).destroyed ==> BlockedIn(Next(s, a).threads) == {}
  {
    hide Satisfied, Cleared, TimeLeft, CallsFresh;
    if a.Retry? {
      assert s.threads[a.t].Draining? ==> Drainer(s, a.t);
      BlockedRemove(s.threads, a.t);
    }
  }

  /** The destructor reaches everybody: once it has taken effect, every call asleep at any point before the flag is
      destroyed leaves with Deleted and nothing else. */
  lemma {:induction false} DeleteReachesAll(states: seq<System>, acts: seq<Step>, call: nat, i: nat)
    requires Run(states, acts) && Inv(states[0]) && states[0].flag.status == StatusDeleted
    requires states[|acts|].destroyed && i < |acts| && BlockedCall(states[i], call)
    ensures LeftWith(states[|acts|], call, Deleted)
  {
    hide Inv, Next, Enabled, BlockedCall, LeftWith;
    var n := i;
    InvFrom(states, acts, i);
    DeletedFrom(states, acts, i);
    while n < |acts|
      invariant i <= n <= |acts| && Inv(states[n]) && states[n].flag.status == StatusDeleted
      invariant BlockedCall(states[n], call) || LeftWith(states[n], call, Deleted)
      invariant n > i && states[n].destroyed ==> !BlockedCall(states[n], call)
    {
      StepWhileDeleted(states[n], acts[n], call);
      InvStep(states[n], acts[n]);
      n := n + 1;
    }
  }

  lemma {:induction false} DeletedFrom(states: seq<System>, acts: seq<Step>, i: nat)
    requires Run(states, acts) && Inv(states[0]) && states[0].flag.status == StatusDeleted && i < |states|
    ensures states[i].flag.status == StatusDeleted
  {
    hide Inv, Next, Enabled;
    if i > 0 {
      DeletedFrom(states, acts, i - 1);
      InvFrom(states, acts, i - 1);
      DeletedStays(states[i - 1], acts[i - 1]);
    }
  }

  // ----- bit conservation -----

  /** A clearing wait that takes bit `b` found it set and leaves it clear. */
  lemma {:induction false} TakingClears(bits: nat, q: Request, b: nat)
    requires Satisfied(bits, q) && Takes(Returned(0, q, Ok, false), b)
    ensures BitOf(bits, b) && !BitOf(Cleared(bits, q), b)
  {
    hide And, Not;
    AndBit(bits, q.bits, b);
    AndBit(bits, Not(q.bits, 64), b);
    NotBit(q.bits, 64, b);
    BitOfZero(b);
    Pow2Bit(b, b);
    if q.mode == WaitOr && !BitOf(bits, b) {
      forall k: nat ensures BitOf(And(bits, q.bits), k) == BitOf(0, k) {
        AndBit(bits, q.bits, k);
        BitOfZero(k);
        Pow2Bit(b, k);
      }
      SameBits(And(bits, q.bits), 0);
    }
  }

  lemma {:induction false} ClearingOnlyClears(bits: nat, q: Request, b: nat)
    requires BitOf(Cleared(bits, q), b)
    ensures BitOf(bits, b)
  {
    hide And, Not;
    AndBit(bits, Not(q.bits, 64), b);
    BitOfZero(b);
  }

  lemma {:induction false} TakenSnoc(log: seq<Returned>, r: Returned, b: nat)
    ensures Taken(log + [r], b) == Taken(log, b) + Digit(Takes(r, b))
  {
    assert (log + [r])[..|log + [r]| - 1] == log;
  }

  lemma {:induction false} RaisesSnoc(raised: seq<nat>, p: nat, b: nat)
    ensures Raises(raised + [p], b) == Raises(raised, b) + Digit(BitOf(p, b))
  {
    assert (raised + [p])[..|raised + [p]| - 1] == raised;
  }

  lemma {:induction false} BitAfterTest(f: Flag, q: Request, elapsed: nat, b: nat)
    ensures var fr := LoopTest(f, q, elapsed);
            && (BitOf(fr.0.bits, b) ==> BitOf(f.bits, b))
            && (fr.1.Return? && Takes(Returned(0, q, fr.1.result, false), b) ==>
                  BitOf(f.bits, b) && !BitOf(fr.0.bits, b))
  {
    hide Cleared, Satisfied, BitOf, TimeLeft;
    if Satisfied(f.bits, q) {
      if BitOf(Cleared(f.bits, q), b) {
        ClearingOnlyClears(f.bits, q, b);
      }
      if Takes(Returned(0, q, Ok, false), b) {
        TakingClears(f.bits, q, b);
      }
    }
  }

  lemma {:induction false} BitAfterWait(s: System, t: ThreadId, call: nat, q: Request, slept: bool,
      fr: (Flag, Reply), b: nat)
    requires BitKept(s, b)
    requires BitOf(fr.0.bits, b) ==> BitOf(s.flag.bits, b)
    requires fr.1.Return? && Takes(Returned(0, q, fr.1.result, false), b) ==>
      BitOf(s.flag.bits, b) && !BitOf(fr.0.bits, b)
    ensures BitKept(AfterWait(s, t, call, q, slept, fr), b)
  {
    hide BitOf, Pow2;
    if fr.1.Return? {
      TakenSnoc(s.log, Returned(call, q, fr.1.result, slept), b);
    }
  }

  lemma {:induction false} BitAfterTurn(s: System, t: ThreadId, th: Thread, b: nat)
    requires BitKept(s, b) && !th.Blocked?
    ensures BitKept(Turn(s, t, th), b)
  {
    hide BitOf, And, Or, Taken, Raises;
    match th
    case Setting(p) => RaisesSnoc(s.raised, p, b); OrBit(s.flag.bits, p, b);
    case Clearing(p) => AndBit(s.flag.bits, p, b);
    case Canceling(p) => RaisesSnoc(s.raised, p, b);
    case _ =>
  }

  lemma {:induction false} BitStep(s: System, a: Step, b: nat)
    requires BitKept(s, b) && Enabled(s, a)
    ensures BitKept(Next(s, a), b)
  {
    hide BitOf, LoopTest, Turn, AfterWait, Taken, Raises, Takes;
    match a
    case CallWait(t, q) =>
      BitAfterTest(s.flag, q, 0, b);
      var s0 := s.(nextCall := s.nextCall + 1);
      NotTaken(q, AlreadyWaiting, b);
      BitAfterWait(s0, t, s.nextCall, q, false, WaitEntry(s.flag, q), b);
    case Wake(t, elapsed) =>
      var th := s.threads[t];
      BitAfterTest(s.flag.(waiting := s.flag.waiting - 1), th.req, elapsed, b);
      NotTaken(th.req, Canceled, b);
      NotTaken(th.req, Deleted, b);
      BitAfterWait(s, t, th.call, th.req, true, WaitWake(s.flag, th.req, elapsed), b);
    case CallSet(t, p) => BitAfterTurn(s, t, Setting(p), b);
    case CallClear(t, p) => BitAfterTurn(s, t, Clearing(p), b);
    case CallCancel(t, p) => BitAfterTurn(s, t, Canceling(p), b);
    case CallDelete(t) => BitAfterTurn(s, t, Deleting, b);
    case Retry(t) => BitAfterTurn(s, t, s.threads[t], b);
  }

  lemma NotTaken(q: Request, r: Result, b: nat)
    requires r != Ok
    ensures !Takes(Returned(0, q, r, false), b)
  {}

  /** Each raise of a bit is taken at most once: in every run and for every bit, the clearing waits that
      took it are no more than the patterns that brought it. */
  lemma {:induction false} BitsTakenOncePerRaise(states: seq<System>, acts: seq<Step>, single: bool, pattern: nat,
      i: nat, b: nat)
    requires Run(states, acts) && states[0] == Init(single, pattern) && i < |states|
    ensures BitKept(states[i], b)
    ensures Taken(states[i].log, b) <= Raises(states[i].raised, b)
  {
    hide Next, Enabled, BitOf;
    if i == 0 {
      RaisesSnoc([], pattern, b);
      assert [] + [pattern] == [pattern];
    } else {
      BitsTakenOncePerRaise(states, acts, single, pattern, i - 1, b);
      BitStep(states[i - 1], acts[i - 1], b);
    }
  }
}
