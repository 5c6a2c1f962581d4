/** Which bits an event flag holds, told by its history: a bit is set exactly if it was brought and nothing has
    taken it away since. And what a wait answers, told by the bits it finds. */
module EventFlagHistory {
  import opened Bits
  import opened EventFlag
  import opened EventFlagRuns

  // ----- what a step does to the bits -----

  /** The thread that takes this step is in Set (Clear, Cancel) with this pattern. */
  ghost predicate Doing(s: System, a: Step, th: Thread) {
    match a
    case CallSet(_, p) => th == Setting(p)
    case CallClear(_, p) => th == Clearing(p)
    case CallCancel(_, p) => th == Canceling(p)
    case Retry(t) => t in s.threads && s.threads[t] == th
    case _ => false
  }

  /** The step takes effect with this pattern: such calls wait until no Cancel or destructor is under way. */
  ghost predicate Effective(s: System, a: Step, th: Thread) {
    s.flag.status == StatusSet && Doing(s, a, th)
  }

  /** A Set, or a Cancel, with bit `b` in its pattern. */
  ghost predicate Brings(s: System, a: Step, b: nat) {
    exists p: nat :: BitOf(p, b) && (Effective(s, a, Setting(p)) || Effective(s, a, Canceling(p)))
  }

  /** The step is a return of Ok to a wait that clears bit `b`. */
  ghost predicate TakenByWait(s: System, a: Step, b: nat)
    requires Enabled(s, a)
  {
    var log := Next(s, a).log;
    |log| > |s.log| && log[|s.log|].result == Ok && Clears(log[|s.log|].req, b)
  }

  /** A clearing return, or a Clear, or a Cancel, without bit `b` in its pattern. */
  ghost predicate Removes(s: System, a: Step, b: nat)
    requires Enabled(s, a)
  {
    || TakenByWait(s, a, b)
    || exists p: nat :: !BitOf(p, b) && (Effective(s, a, Clearing(p)) || Effective(s, a, Canceling(p)))
  }

  lemma {:induction false} TurnBits(s: System, t: ThreadId, th: Thread, b: nat)
    requires !th.Blocked?
    ensures BitOf(Turn(s, t, th).flag.bits, b) <==>
      if s.flag.status != StatusSet then BitOf(s.flag.bits, b)
      else
        match th
        case Setting(p) => BitOf(s.flag.bits, b) || BitOf(p, b)
        case Clearing(p) => BitOf(s.flag.bits, b) && BitOf(p, b)
        case Canceling(p) => BitOf(p, b)
        case _ => BitOf(s.flag.bits, b)
    ensures Turn(s, t, th).log == s.log
  {
    hide BitOf, And, Or;
    match th
    case Setting(p) => OrBit(s.flag.bits, p, b);
    case Clearing(p) => AndBit(s.flag.bits, p, b);
    case _ =>
  }

  lemma {:induction false} WaitBits(s: System, t: ThreadId, call: nat, q: Request, slept: bool, f: Flag, elapsed: nat,
      b: nat)
    requires f.bits == s.flag.bits
    ensures var s' := AfterWait(s, t, call, q, slept, LoopTest(f, q, elapsed));
      BitOf(s'.flag.bits, b) <==>
        BitOf(s.flag.bits, b) && !(|s'.log| > |s.log| && s'.log[|s.log|].result == Ok && Clears(q, b))
    ensures var s' := AfterWait(s, t, call, q, slept, LoopTest(f, q, elapsed));
      |s'.log| > |s.log| ==> s'.log[|s.log|].req == q
  {
    hide BitOf, Clears, Met, TimeLeft, LoopTest;
    TestAnswers(f, q, elapsed);
  }

  /** One step: a bit is set afterwards exactly if the step brings it, or it was set and the step does not take it. */
  lemma {:induction false} StepBits(s: System, a: Step, b: nat)
    requires Enabled(s, a)
    ensures BitOf(Next(s, a).flag.bits, b) <==> Brings(s, a, b) || (BitOf(s.flag.bits, b) && !Removes(s, a, b))
    ensures !(Brings(s, a, b) && Removes(s, a, b))
  {
    match a
    case CallWait(t, q) => EntryBits(s, t, q, b);
    case Wake(t, elapsed) => WakeBits(s, t, elapsed, b);
    case CallSet(t, p) => TurnStep(s, a, Setting(p), b);
    case CallClear(t, p) => TurnStep(s, a, Clearing(p), b);
    case CallCancel(t, p) => TurnStep(s, a, Canceling(p), b);
    case CallDelete(t) => TurnStep(s, a, Deleting, b);
    case Retry(t) => TurnStep(s, a, s.threads[t], b);
  }

  lemma {:induction false} EntryBits(s: System, t: ThreadId, q: Request, b: nat)
    requires Enabled(s, CallWait(t, q))
    ensures var a := CallWait(t, q);
      && !Brings(s, a, b) && (BitOf(Next(s, a).flag.bits, b) <==> BitOf(s.flag.bits, b) && !Removes(s, a, b))
  {
    hide BitOf, Clears, LoopTest;
    WaitBits(s.(nextCall := s.nextCall + 1), t, s.nextCall, q, false, s.flag, 0, b);
  }

  lemma {:induction false} WakeBits(s: System, t: ThreadId, elapsed: nat, b: nat)
    requires Enabled(s, Wake(t, elapsed))
    ensures var a := Wake(t, elapsed);
      && !Brings(s, a, b) && (BitOf(Next(s, a).flag.bits, b) <==> BitOf(s.flag.bits, b) && !Removes(s, a, b))
  {
    hide BitOf, Clears, LoopTest;
    var th := s.threads[t];
    WaitBits(s, t, th.call, th.req, true, s.flag.(waiting := s.flag.waiting - 1), elapsed, b);
  }

  lemma {:induction false} TurnStep(s: System, a: Step, th: Thread, b: nat)
    requires Enabled(s, a) && !a.CallWait? && !a.Wake? && !th.Blocked?
    requires Next(s, a) == Turn(s, a.t, th) && forall u :: Doing(s, a, u) ==> u == th
    requires th.Setting? || th.Clearing? || th.Canceling? ==> Doing(s, a, th)
    ensures BitOf(Next(s, a).flag.bits, b) <==> Brings(s, a, b) || (BitOf(s.flag.bits, b) && !Removes(s, a, b))
    ensures !(Brings(s, a, b) && Removes(s, a, b))
  {
    hide BitOf, Turn, Next, Doing;
    TurnBits(s, a.t, th, b);
  }

  // ----- whole runs -----

  /** Just before state `i` of the run bit `b` was brought: by the flag's creation or by a step. */
  ghost predicate BroughtAt(states: seq<System>, acts: seq<Step>, pattern: nat, b: nat, i: nat)
    requires Run(states, acts) && i < |states|
  {
    if i == 0 then BitOf(pattern, b) else Brings(states[i - 1], acts[i - 1], b)
  }

  ghost predicate KeptFrom(states: seq<System>, acts: seq<Step>, b: nat, i: nat, n: nat)
    requires Run(states, acts) && n < |states|
  {
    forall j :: i <= j < n ==> !Removes(states[j], acts[j], b)
  }

  /** A bit is set exactly if it was brought at some time and nothing has removed it since. */
  lemma {:induction false} BitHistory(states: seq<System>, acts: seq<Step>, single: bool, pattern: nat, n: nat, b: nat)
    requires Run(states, acts) && states[0] == Init(single, pattern) && n < |states|
    ensures BitOf(states[n].flag.bits, b) <==>
      exists i: nat :: i <= n && BroughtAt(states, acts, pattern, b, i) && KeptFrom(states, acts, b, i, n)
  {
    hide Next, Enabled, BitOf, Brings, Removes;
    if n == 0 {
      assert BitOf(pattern, b) ==> BroughtAt(states, acts, pattern, b, 0) && KeptFrom(states, acts, b, 0, 0);
    } else {
      var m := n - 1;
      BitHistory(states, acts, single, pattern, m, b);
      StepBits(states[m], acts[m], b);
      if BitOf(states[n].flag.bits, b) {
        if Brings(states[m], acts[m], b) {
          assert BroughtAt(states, acts, pattern, b, n) && KeptFrom(states, acts, b, n, n);
        } else {
          var i: nat :| i <= m && BroughtAt(states, acts, pattern, b, i) && KeptFrom(states, acts, b, i, m);
          assert KeptFrom(states, acts, b, i, n);
        }
      } else {
        forall i: nat | i <= n && BroughtAt(states, acts, pattern, b, i) ensures !KeptFrom(states, acts, b, i, n) {
          if i <= m && KeptFrom(states, acts, b, i, m) {
            assert Removes(states[m], acts[m], b);
          }
        }
      }
    }
  }

  // ----- what a wait answers -----

  /** The step ends the call with this result. */
  ghost predicate Ends(s: System, s': System, t: ThreadId, call: nat, q: Request, r: Result, slept: bool) {
    s'.log == s.log + [Returned(call, q, r, slept)] && t !in s'.threads
  }

  ghost predicate Sleeps(s: System, s': System, t: ThreadId, call: nat, q: Request) {
    s'.log == s.log && t in s'.threads && s'.threads[t] == Blocked(call, q)
  }

  /** A wait whose bits are there when it comes returns Ok at once, whatever the time limit; without them it times
      out at once if it was given no time, and sleeps otherwise. */
  lemma {:induction false} EntryAnswers(s: System, t: ThreadId, q: Request)
    requires Enabled(s, CallWait(t, q))
    ensures var s', call := Next(s, CallWait(t, q)), s.nextCall;
      if s.flag.single && s.flag.waiting > 0 then Ends(s, s', t, call, q, AlreadyWaiting, false)
      else if Met(s.flag.bits, q) then Ends(s, s', t, call, q, Ok, false)
      else if q.timeout == Micros(0) then Ends(s, s', t, call, q, TimedOut, false)
      else Sleeps(s, s', t, call, q)
  {
    hide Met, Clears, LoopTest, BitOf;
    TestAnswers(s.flag, q, 0);
  }

  /** After a wake-up: a Cancel or the destructor is noticed first, then the bits, then the time. */
  lemma {:induction false} WakeAnswers(s: System, t: ThreadId, elapsed: nat)
    requires Enabled(s, Wake(t, elapsed))
    ensures var s', call, q := Next(s, Wake(t, elapsed)), s.threads[t].call, s.threads[t].req;
      if s.flag.status == StatusCanceled then Ends(s, s', t, call, q, Canceled, true)
      else if s.flag.status == StatusDeleted then Ends(s, s', t, call, q, Deleted, true)
      else if Met(s.flag.bits, q) then Ends(s, s', t, call, q, Ok, true)
      else if q.timeout.Micros? && elapsed >= q.timeout.micros then Ends(s, s', t, call, q, TimedOut, true)
      else Sleeps(s, s', t, call, q)
  {
    hide Met, Clears, LoopTest, BitOf;
    TestAnswers(s.flag.(waiting := s.flag.waiting - 1), s.threads[t].req, elapsed);
  }

  /** A thread in Set, Clear or Cancel goes on trying until its call takes effect, and no longer. */
  lemma {:induction false} TriesUntilEffect(s: System, a: Step, th: Thread)
    requires Enabled(s, a) && Doing(s, a, th) && (th.Setting? || th.Clearing? || th.Canceling?)
    ensures (a.t in Next(s, a).threads && Next(s, a).threads[a.t] == th) <==> !Effective(s, a, th)
    ensures Effective(s, a, th) ==> (a.t in Next(s, a).threads <==> th.Canceling?)
    ensures !Effective(s, a, th) ==> Next(s, a).flag == s.flag
  {
    hide Or, And;
  }
}
