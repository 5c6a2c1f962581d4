/** The kernel event flag (`KernelEventFlagPrivate`): the effect of every region that runs under its
    mutex, as a function of the flag's fields, and the class whose methods are those regions. */
module EventFlag {
  import opened Bits

  datatype Status = StatusSet | StatusCanceled | StatusDeleted

  datatype WaitMode = WaitAnd | WaitOr

  datatype ClearMode = ClearNone | ClearAll | ClearBits

  datatype Result = Ok | AlreadyWaiting | TimedOut | Canceled | Deleted

  datatype Timeout = Infinite | Micros(micros: nat)

  /** The arguments of one call of Wait. */
  datatype Request = Request(bits: nat, mode: WaitMode, clear: ClearMode, timeout: Timeout)

  /** A region of Wait ends by returning to the caller or by going to sleep on the condition variable. */
  datatype Reply = Return(result: Result, pattern: nat, left: Timeout) | Sleep

  /** The fields of the flag. */
  datatype Flag = Flag(status: Status, bits: nat, waiting: nat, single: bool)

  predicate Satisfied(bits: nat, q: Request) {
    match q.mode
    case WaitAnd => And(bits, q.bits) == q.bits
    case WaitOr => And(bits, q.bits) != 0
  }

  function Cleared(bits: nat, q: Request): nat {
    match q.clear
    case ClearAll => 0
    case ClearBits => And(bits, Not(q.bits, 64))
    case ClearNone => bits
  }

  function TimeLeft(t: Timeout, elapsed: nat): Timeout {
    match t
    case Infinite => Infinite
    case Micros(m) => Micros(if elapsed >= m then 0 else m - elapsed)
  }

  /** One evaluation of the loop condition of Wait, up to the next sleep or return. */
  function LoopTest(f: Flag, q: Request, elapsed: nat): (Flag, Reply) {
    if Satisfied(f.bits, q) then
      (f.(bits := Cleared(f.bits, q)), Return(Ok, f.bits, TimeLeft(q.timeout, elapsed)))
    else if q.timeout.Micros? && elapsed >= q.timeout.micros then
      (f, Return(TimedOut, f.bits, TimeLeft(q.timeout, elapsed)))
    else
      (f.(waiting := f.waiting + 1), Sleep)
  }

  function WaitEntry(f: Flag, q: Request): (Flag, Reply) {
    if f.single && f.waiting > 0 then (f, Return(AlreadyWaiting, 0, q.timeout))
    else LoopTest(f, q, 0)
  }

  function WaitWake(f: Flag, q: Request, elapsed: nat): (Flag, Reply)
    requires f.waiting > 0
  {
    var g := f.(waiting := f.waiting - 1);
    match f.status
    case StatusCanceled => (g, Return(Canceled, g.bits, TimeLeft(q.timeout, elapsed)))
    case StatusDeleted => (g, Return(Deleted, g.bits, TimeLeft(q.timeout, elapsed)))
    case StatusSet => LoopTest(g, q, elapsed)
  }

  // ----- one pass through the loops of Set, Clear, Cancel and the destructor -----

  /** What such a pass reports: the flag is busy and the caller has to try again, or the pass took effect;
      the first half of Cancel reports the number of waiters it saw. */
  datatype Attempt = Busy | Effect | Marked(count: nat)

  function SetTurn(f: Flag, pattern: nat): (Flag, Attempt) {
    if f.status == StatusSet then (f.(bits := Or(f.bits, pattern)), Effect) else (f, Busy)
  }

  function ClearTurn(f: Flag, pattern: nat): (Flag, Attempt) {
    if f.status == StatusSet then (f.(bits := And(f.bits, pattern)), Effect) else (f, Busy)
  }

  function CancelTurn(f: Flag, pattern: nat): (Flag, Attempt) {
    if f.status == StatusSet then (f.(status := StatusCanceled, bits := pattern), Marked(f.waiting)) else (f, Busy)
  }

  /** The second half of Cancel. */
  function CancelDrain(f: Flag): (Flag, Attempt) {
    if f.waiting == 0 then (f.(status := StatusSet), Effect) else (f, Busy)
  }

  function DeleteTurn(f: Flag): (Flag, Attempt) {
    if f.status == StatusSet then (f.(status := StatusDeleted), Effect) else (f, Busy)
  }

  /** The second half of the destructor. */
  function DeleteDrain(f: Flag): (Flag, Attempt) {
    (f, if f.waiting == 0 then Effect else Busy)
  }

  // ----- the same in single bits -----

  /** An AND wait needs all of its bits, an OR wait one of them. */
  ghost predicate Met(bits: nat, q: Request) {
    match q.mode
    case WaitAnd => forall k: nat :: BitOf(q.bits, k) ==> BitOf(bits, k)
    case WaitOr => exists k: nat :: BitOf(q.bits, k) && BitOf(bits, k)
  }

  /** The bits that go when the wait succeeds. Patterns have 64 bits. */
  predicate Clears(q: Request, k: nat) {
    match q.clear
    case ClearAll => true
    case ClearBits => k >= 64 || BitOf(q.bits, k)
    case ClearNone => false
  }

  lemma {:induction false} SatisfiedIsMet(bits: nat, q: Request)
    ensures Satisfied(bits, q) <==> Met(bits, q)
  {
    hide And, BitOf;
    var common := And(bits, q.bits);
    forall k: nat ensures BitOf(common, k) == (BitOf(bits, k) && BitOf(q.bits, k)) { AndBit(bits, q.bits, k); }
    if q.mode == WaitAnd {
      if Met(bits, q) { SameBits(common, q.bits); }
    } else if common == 0 {
      forall k: nat ensures !BitOf(common, k) { BitOfZero(k); }
    } else if !Met(bits, q) {
      forall k: nat ensures BitOf(common, k) == BitOf(0, k) { BitOfZero(k); }
      SameBits(common, 0);
    }
  }

  lemma {:induction false} ClearedBits(bits: nat, q: Request, k: nat)
    ensures BitOf(Cleared(bits, q), k) <==> BitOf(bits, k) && !Clears(q, k)
  {
    hide And, Not, BitOf;
    AndBit(bits, Not(q.bits, 64), k);
    NotBit(q.bits, 64, k);
    BitOfZero(k);
  }

  /** Time spent and time left make up the time given, unless that is used up. */
  lemma TimeAddsUp(t: Timeout, elapsed: nat)
    ensures TimeLeft(t, elapsed).Infinite? <==> t.Infinite?
    ensures t.Micros? ==>
      var left := TimeLeft(t, elapsed).micros;
      if elapsed < t.micros then elapsed + left == t.micros else left == 0
  {}

  /** The answers of the wait loop: Ok exactly when the condition holds, with the bits before the clearing; otherwise
      the time has run out, or the caller sleeps as one more waiter. */
  ghost predicate Answered(f: Flag, q: Request, elapsed: nat, g: Flag, r: Reply) {
    if Met(f.bits, q) then
      && r == Return(Ok, f.bits, TimeLeft(q.timeout, elapsed)) && g == f.(bits := g.bits)
      && forall k: nat :: BitOf(g.bits, k) <==> BitOf(f.bits, k) && !Clears(q, k)
    else if q.timeout.Micros? && elapsed >= q.timeout.micros then r == Return(TimedOut, f.bits, Micros(0)) && g == f
    else r == Sleep && g == f.(waiting := f.waiting + 1)
  }

  lemma {:induction false} TestAnswers(f: Flag, q: Request, elapsed: nat)
    ensures var (g, r) := LoopTest(f, q, elapsed); Answered(f, q, elapsed, g, r)
  {
    hide And, BitOf, Met, Satisfied, Cleared, Clears;
    SatisfiedIsMet(f.bits, q);
    forall k: nat ensures BitOf(Cleared(f.bits, q), k) <==> BitOf(f.bits, k) && !Clears(q, k) {
      ClearedBits(f.bits, q, k);
    }
    TimeAddsUp(q.timeout, elapsed);
  }

  class KernelEventFlag {
    var status: Status
    var waitingThreads: nat
    const singleThread: bool
    var bits: nat

    ghost function State(): Flag
      reads this
    {
      Flag(status, bits, waitingThreads, singleThread)
    }

    constructor (single: bool, initPattern: nat)
      ensures State() == Flag(StatusSet, initPattern, 0, single)
    {
      status, waitingThreads, singleThread, bits := StatusSet, 0, single, initPattern;
    }

    /** The top of the wait loop: return, or register as a waiter and sleep. */
    method TestOrSleep(q: Request, elapsed: nat) returns (r: Reply)
      modifies this
      ensures (State(), r) == LoopTest(old(State()), q, elapsed)
    {
      if !(q.mode == WaitAnd && And(bits, q.bits) == q.bits) && !(q.mode == WaitOr && And(bits, q.bits) != 0) {
        if q.timeout.Micros? && elapsed >= q.timeout.micros {
          return Return(TimedOut, bits, TimeLeft(q.timeout, elapsed));
        }
        waitingThreads := waitingThreads + 1;
        return Sleep;
      }
      r := Return(Ok, bits, TimeLeft(q.timeout, elapsed));
      match q.clear {
        case ClearAll => bits := 0;
        case ClearBits => bits := And(bits, Not(q.bits, 64));
        case ClearNone =>
      }
    }

    /** Wait, from the lock to the first sleep. */
    method Wait(q: Request) returns (r: Reply)
      modifies this
      ensures (State(), r) == WaitEntry(old(State()), q)
      ensures singleThread && old(waitingThreads) > 0 ==>
        r == Return(AlreadyWaiting, 0, q.timeout) && State() == old(State())
      ensures !singleThread || old(waitingThreads) == 0 ==> Answered(old(State()), q, 0, State(), r)
    {
      TestAnswers(State(), q, 0);
      if singleThread && waitingThreads > 0 {
        return Return(AlreadyWaiting, 0, q.timeout);
      }
      r := TestOrSleep(q, 0);
    }

    /** Wait, from a wake-up of the condition variable (signalled, timed out or spurious) to the next sleep. */
    method Resume(q: Request, elapsed: nat) returns (r: Reply)
      requires waitingThreads > 0
      modifies this
      ensures (State(), r) == WaitWake(old(State()), q, elapsed)
      ensures old(status) == StatusSet ==>
        Answered(old(State()).(waiting := old(waitingThreads) - 1), q, elapsed, State(), r)
      ensures old(status) != StatusSet ==>
        && State() == old(State()).(waiting := old(waitingThreads) - 1)
        && r == Return(if status == StatusDeleted then Deleted else Canceled, bits, TimeLeft(q.timeout, elapsed))
    {
      TestAnswers(State().(waiting := waitingThreads - 1), q, elapsed);
      waitingThreads := waitingThreads - 1;
      match status {
        case StatusCanceled => r := Return(Canceled, bits, TimeLeft(q.timeout, elapsed));
        case StatusDeleted => r := Return(Deleted, bits, TimeLeft(q.timeout, elapsed));
        case StatusSet => r := TestOrSleep(q, elapsed);
      }
    }

    /** Poll is Wait with a zero timeout: it never sleeps. */
    method Poll(pattern: nat, mode: WaitMode, clear: ClearMode) returns (r: Reply)
      modifies this
      ensures r.Return? && waitingThreads == old(waitingThreads)
      ensures (State(), r) == WaitEntry(old(State()), Request(pattern, mode, clear, Micros(0)))
    {
      r := Wait(Request(pattern, mode, clear, Micros(0)));
    }

    /** One turn of Set: it takes effect unless the flag is busy, in which case the caller retries. */
    method TrySet(pattern: nat) returns (r: Attempt)
      modifies this
      ensures (State(), r) == SetTurn(old(State()), pattern)
      ensures r == (if old(status) == StatusSet then Effect else Busy) && State() == old(State()).(bits := bits)
      ensures forall k: nat :: BitOf(bits, k) <==> BitOf(old(bits), k) || (r == Effect && BitOf(pattern, k))
    {
      hide BitOf, Or;
      forall k: nat ensures BitOf(Or(bits, pattern), k) <==> BitOf(bits, k) || BitOf(pattern, k) {
        OrBit(bits, pattern, k);
      }
      if status != StatusSet {
        return Busy;
      }
      bits := Or(bits, pattern);
      r := Effect;
    }

    method TryClear(pattern: nat) returns (r: Attempt)
      modifies this
      ensures (State(), r) == ClearTurn(old(State()), pattern)
      ensures r == (if old(status) == StatusSet then Effect else Busy) && State() == old(State()).(bits := bits)
      ensures forall k: nat :: BitOf(bits, k) <==> BitOf(old(bits), k) && (r == Effect ==> BitOf(pattern, k))
    {
      hide BitOf, And;
      forall k: nat ensures BitOf(And(bits, pattern), k) <==> BitOf(bits, k) && BitOf(pattern, k) {
        AndBit(bits, pattern, k);
      }
      if status != StatusSet {
        return Busy;
      }
      bits := And(bits, pattern);
      r := Effect;
    }

    /** The first half of Cancel: mark the flag and report the number of waiters. */
    method TryCancel(pattern: nat) returns (r: Attempt)
      modifies this
      ensures (State(), r) == CancelTurn(old(State()), pattern)
    {
      if status != StatusSet {
        return Busy;
      }
      r := Marked(waitingThreads);
      status := StatusCanceled;
      bits := pattern;
    }

    /** The second half of Cancel: it returns once nobody waits any more. */
    method FinishCancel() returns (r: Attempt)
      modifies this
      ensures (State(), r) == CancelDrain(old(State()))
    {
      if waitingThreads > 0 {
        return Busy;
      }
      status := StatusSet;
      r := Effect;
    }

    /** The destructor: mark the flag deleted unless it is busy. */
    method TryDelete() returns (r: Attempt)
      modifies this
      ensures (State(), r) == DeleteTurn(old(State()))
    {
      if status != StatusSet {
        return Busy;
      }
      status := StatusDeleted;
      r := Effect;
    }

    /** The second half of the destructor. */
    method FinishDelete() returns (r: Attempt)
      ensures (State(), r) == DeleteDrain(State())
    {
      r := if waitingThreads > 0 then Busy else Effect;
    }
  }
}
