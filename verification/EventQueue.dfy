/** The kernel event queue (`KernelEqueuePrivate`): what each region under its mutex does to the list of
    registered events, as functions, and the class whose methods update the list in place. */
module EventQueue {
  import opened Bits

  const EVFILT_READ: int := -1
  const EVFILT_WRITE: int := -2
  const EVFILT_USER: int := -11
  const EVFILT_HRTIMER: int := -15

  /** EV_ONESHOT is 0x10 and EV_CLEAR is 0x20. */
  const ONESHOT_BIT: nat := 4
  const CLEAR_BIT: nat := 5

  datatype KEvent = KEvent(ident: nat, filter: int, flags: nat, fflags: nat, data: int, udata: int)
  {
    function Key(): (nat, int) {
      (ident, filter)
    }

    predicate OneShot() {
      BitOf(flags, ONESHOT_BIT)
    }

    predicate Clears() {
      BitOf(flags, CLEAR_BIT)
    }
  }

  type Key = (nat, int)

  /** The function pointers of a filter. */
  datatype TriggerFunc = NoTrigger | UserTrigger | AmprTrigger | FdTrigger

  datatype ResetFunc = NoReset | UserReset | FdReset

  /** A registered event (`KernelEqueueEvent`). */
  datatype QEvent = QEvent(
    triggered: bool,
    deadline: nat,
    event: KEvent,
    trigger: TriggerFunc,
    reset: ResetFunc,
    pending: seq<KEvent>)
  {
    function Key(): Key {
      event.Key()
    }
  }

  // ----- trigger and reset functions -----

  function Triggered(e: QEvent, data: int): QEvent {
    match e.trigger
    case NoTrigger => e.(triggered := true)
    case UserTrigger => e.(triggered := true, event := e.event.(data := data, udata := data))
    case FdTrigger => e.(triggered := true, event := e.event.(data := data))
    case AmprTrigger =>
      var v := e.event.(data := data);
      if e.triggered then e.(pending := e.pending + [v]) else e.(event := v, triggered := true)
  }

  function ClearedEvent(e: QEvent): QEvent {
    e.(triggered := false, event := e.event.(fflags := 0, data := 0))
  }

  /** What happens to an event after it was copied out: its reset function, or EV_CLEAR without one. */
  function AfterDelivery(e: QEvent): QEvent {
    match e.reset
    case FdReset => e.(triggered := false)
    case _ => if e.event.Clears() then ClearedEvent(e) else e
  }

  // ----- collection -----

  /** Queued data takes the event's place. */
  function Refill(e: QEvent): QEvent {
    if e.pending == [] then e
    else e.(event := e.pending[0], pending := e.pending[1..], triggered := true)
  }

  /** Everything one event delivers into `room` free slots: the event afterwards, what was copied out, and
      whether the event is to be erased. */
  function Drain(e: QEvent, room: nat): (r: (QEvent, seq<KEvent>, bool))
    ensures |r.1| <= room
    ensures !e.triggered ==> r == (e, [], false)
    decreases room
  {
    if room == 0 || !e.triggered then (e, [], false)
    else if e.event.OneShot() then (e, [e.event], true)
    else
      var f := Refill(AfterDelivery(e));
      if AfterDelivery(e).pending == [] && f.triggered then (f, [e.event], false)
      else
        var rest := Drain(f, room - 1);
        (rest.0, [e.event] + rest.1, rest.2)
  }

  function Collect(events: seq<QEvent>, room: nat): (r: (seq<QEvent>, seq<KEvent>))
    ensures |r.1| <= room
  {
    if events == [] || room == 0 then (events, [])
    else
      var d := Drain(events[0], room);
      var rest := Collect(events[1..], room - |d.1|);
      ((if d.2 then [] else [d.0]) + rest.0, d.1 + rest.1)
  }

  function ExpireOne(e: QEvent, now: nat): QEvent {
    if !e.triggered && e.deadline != 0 && e.deadline <= now then e.(triggered := true) else e
  }

  function Expire(events: seq<QEvent>, now: nat): (r: seq<QEvent>)
    ensures |r| == |events| && forall i :: 0 <= i < |r| ==> r[i] == ExpireOne(events[i], now)
  {
    if events == [] then [] else [ExpireOne(events[0], now)] + Expire(events[1..], now)
  }

  // ----- lookup and registration -----

  predicate HasKey(events: seq<QEvent>, k: Key) {
    exists i :: 0 <= i < |events| && events[i].Key() == k
  }

  /** The position of the first event with a key, or the length of the list. */
  function Find(events: seq<QEvent>, k: Key): (i: nat)
    ensures i <= |events| && (i < |events| ==> events[i].Key() == k)
    ensures forall j :: 0 <= j < i ==> events[j].Key() != k
    ensures i < |events| <==> HasKey(events, k)
  {
    if events == [] || events[0].Key() == k then 0 else 1 + Find(events[1..], k)
  }

  /** Registering a known key only takes over the deadline and the user data. */
  function Reregister(e: QEvent, n: QEvent): QEvent {
    e.(deadline := n.deadline, event := e.event.(udata := n.event.udata),
       pending := SetUdata(e.pending, n.event.udata))
  }

  function SetUdata(pending: seq<KEvent>, udata: int): (r: seq<KEvent>)
    ensures |r| == |pending| && forall i :: 0 <= i < |r| ==> r[i] == pending[i].(udata := udata)
  {
    seq(|pending|, i requires 0 <= i < |pending| => pending[i].(udata := udata))
  }

  function Add(events: seq<QEvent>, n: QEvent): seq<QEvent> {
    var i := Find(events, n.Key());
    if i < |events| then events[i := Reregister(events[i], n)] else events + [n]
  }

  function Trigger(events: seq<QEvent>, k: Key, data: int): seq<QEvent> {
    var i := Find(events, k);
    if i < |events| then events[i := Triggered(events[i], data)] else events
  }

  function Delete(events: seq<QEvent>, k: Key): seq<QEvent> {
    var i := Find(events, k);
    if i < |events| then events[..i] + events[i + 1..] else events
  }

  // ----- the class -----

  datatype Status = OK | EBADF | ENOENT

  class KernelEqueue {
    var events: seq<QEvent>
    var closed: bool

    constructor ()
      ensures events == [] && !closed
    {
      events, closed := [], false;
    }

    method FindEvent(k: Key) returns (i: nat)
      ensures i == Find(events, k)
    {
      i := 0;
      while i < |events| && events[i].Key() != k
        invariant i <= |events| && Find(events, k) == i + Find(events[i..], k)
      {
        assert events[i..][1..] == events[i + 1..];
        i := i + 1;
      }
    }

    method AddEvent(n: QEvent) returns (r: Status)
      modifies this
      ensures closed == old(closed) && r == if closed then EBADF else OK
      ensures events == if closed then old(events) else Add(old(events), n)
    {
      if closed {
        return EBADF;
      }
      var i := FindEvent(n.Key());
      if i < |events| {
        events := events[i := Reregister(events[i], n)];
      } else {
        events := events + [n];
      }
      r := OK;
    }

    method TriggerEvent(k: Key, data: int) returns (r: Status)
      modifies this
      ensures closed == old(closed)
      ensures r == if closed then EBADF else if HasKey(old(events), k) then OK else ENOENT
      ensures events == if closed then old(events) else Trigger(old(events), k, data)
    {
      if closed {
        return EBADF;
      }
      var i := FindEvent(k);
      if i == |events| {
        return ENOENT;
      }
      events := events[i := Triggered(events[i], data)];
      r := OK;
    }

    method DeleteEvent(k: Key) returns (r: Status)
      modifies this
      ensures closed == old(closed)
      ensures r == if closed then EBADF else if HasKey(old(events), k) then OK else ENOENT
      ensures events == if closed then old(events) else Delete(old(events), k)
    {
      hide Find;
      if closed {
        return EBADF;
      }
      var i := FindEvent(k);
      if i == |events| {
        return ENOENT;
      }
      events := events[..i] + events[i + 1..];
      r := OK;
    }

    method Close()
      modifies this
      ensures closed && (events == if old(closed) then old(events) else [])
    {
      if closed {
        return;
      }
      closed := true;
      events := [];
    }

    method TriggerExpiredTimers(now: nat)
      modifies this`events
      ensures events == Expire(old(events), now)
    {
      for i := 0 to |events|
        invariant |events| == |old(events)|
        invariant forall j :: 0 <= j < i ==> events[j] == ExpireOne(old(events)[j], now)
        invariant forall j :: i <= j < |events| ==> events[j] == old(events)[j]
      {
        if !events[i].triggered && events[i].deadline != 0 && events[i].deadline <= now {
          events := events[i := events[i].(triggered := true)];
        }
      }
    }

    /** The inner loop of the collection, on one event. */
    method DrainEvent(i: nat, ev: array<KEvent>, start: nat, num: nat) returns (ret: nat, erase: bool)
      requires i < |events| && start < num <= ev.Length
      modifies this`events, ev
      ensures var d := Drain(old(events)[i], num - start);
        && events == old(events)[i := d.0]
        && ret == start + |d.1| && erase == d.2
        && ev[..ret] == old(ev[..start]) + d.1
    {
      hide Refill, AfterDelivery, BitOf, Drain;
      ret, erase := start, false;
      ghost var e0, out := events[i], [];
      assert [] + Drain(e0, num - start).1 == Drain(e0, num - start).1;
      while events[i].triggered
        invariant i < |events| && events == old(events)[i := events[i]]
        invariant start <= ret < num && ev[..ret] == old(ev[..start]) + out && ret == start + |out|
        invariant !erase && Drain(e0, num - start) == Prepend(out, Drain(events[i], num - ret))
        decreases num - ret
      {
        ghost var e, before := events[i], ev[..ret];
        ev[ret] := events[i].event;
        ret := ret + 1;
        assert ev[..ret] == before + [e.event];
        DrainTurn(e, num - ret + 1);
        PrependTwice(out, [e.event], Drain(Refill(AfterDelivery(e)), num - ret));
        out := out + [e.event];
        if events[i].event.OneShot() {
          erase := true;
          break;
        }
        events := events[i := AfterDelivery(events[i])];
        if events[i].pending != [] {
          events := events[i := Refill(events[i])];
        } else if events[i].triggered {
          RefillEmpty(events[i]);
          break;
        }
        RefillEmpty(events[i]);
        if ret >= num {
          DrainNothing(events[i], 0);
          break;
        }
      }
      if !events[i].triggered {
        DrainNothing(events[i], num - ret);
      }
      assert out + [] == out;
    }

    /** One turn of the outer loop: drain the event under the iterator, erase it or move on. */
    method VisitEvent(it: nat, ev: array<KEvent>, start: nat, num: nat, ghost all: seq<QEvent>)
      returns (it': nat, ret: nat)
      requires it < |events| && start < num <= ev.Length
      requires Collect(all, num) == Glue(events[..it], ev[..start], Collect(events[it..], num - start))
      modifies this`events, ev
      ensures it' <= |events| && |events| - it' < old(|events|) - it && ret <= num
      ensures Collect(all, num) == Glue(events[..it'], ev[..ret], Collect(events[it'..], num - ret))
    {
      hide Drain, Collect, Glue;
      ghost var before, got, room := events, ev[..start], num - start;
      ghost var d := Drain(before[it], room);
      ghost var kept := if d.2 then [] else [d.0];
      CollectStep(before, it, room);
      GlueTwice(before[..it], got, kept, d.1, Collect(before[it + 1..], room - |d.1|));
      var erase;
      ret, erase := DrainEvent(it, ev, start, num);
      if erase {
        it' := it;
        events := events[..it] + events[it + 1..];
      } else {
        it' := it + 1;
      }
      assert ev[..ret] == got + d.1;
      assert events[it'..] == before[it + 1..];
      assert events[..it'] == before[..it] + kept;
    }

    /** `GetTriggeredEvents`: the events copied out, at most `num`, are those of the specification. */
    method GetTriggeredEvents(ev: array<KEvent>, num: nat, now: nat) returns (r: Status, ret: nat)
      requires 1 <= num <= ev.Length
      modifies this, ev
      ensures closed == old(closed) && r == if closed then EBADF else OK
      ensures if closed then events == old(events) && ret == 0
        else var c := Collect(Expire(old(events), now), num);
          events == c.0 && ret == |c.1| && ev[..ret] == c.1
    {
      ret := 0;
      if closed {
        return EBADF, 0;
      }
      TriggerExpiredTimers(now);
      hide Drain, Expire, Collect;
      ghost var all := events;
      var it: nat := 0;
      assert all[0..] == all && all[..0] == [] && ev[..0] == [];
      CollectGlue(all, num);
      while it < |events| && ret < num
        invariant !closed && it <= |events| && ret <= num
        invariant Collect(all, num) == Glue(events[..it], ev[..ret], Collect(events[it..], num - ret))
        decreases |events| - it
      {
        it, ret := VisitEvent(it, ev, ret, num, all);
      }
      CollectNothing(events[it..], num - ret);
      assert events[..it] + events[it..] == events && ev[..ret] + [] == ev[..ret];
      r := OK;
    }
  }

  /** A collection that comes after the events `head` have been visited and `out` copied. */
  function Glue(head: seq<QEvent>, out: seq<KEvent>, c: (seq<QEvent>, seq<KEvent>)): (seq<QEvent>, seq<KEvent>) {
    (head + c.0, out + c.1)
  }

  lemma GlueTwice(h: seq<QEvent>, o: seq<KEvent>, h': seq<QEvent>, o': seq<KEvent>, c: (seq<QEvent>, seq<KEvent>))
    ensures Glue(h, o, Glue(h', o', c)) == Glue(h + h', o + o', c)
  {
    assert h + (h' + c.0) == (h + h') + c.0;
    assert o + (o' + c.1) == (o + o') + c.1;
  }

  lemma CollectGlue(events: seq<QEvent>, room: nat)
    ensures Collect(events, room) == Glue([], [], Collect(events, room))
  {
    assert [] + Collect(events, room).0 == Collect(events, room).0;
    assert [] + Collect(events, room).1 == Collect(events, room).1;
  }

  lemma CollectNothing(events: seq<QEvent>, room: nat)
    requires events == [] || room == 0
    ensures Collect(events, room) == (events, [])
  {}

  /** A drain that comes after `out` has been copied. */
  function Prepend(out: seq<KEvent>, d: (QEvent, seq<KEvent>, bool)): (QEvent, seq<KEvent>, bool) {
    (d.0, out + d.1, d.2)
  }

  lemma PrependTwice(a: seq<KEvent>, b: seq<KEvent>, d: (QEvent, seq<KEvent>, bool))
    ensures Prepend(a, Prepend(b, d)) == Prepend(a + b, d)
  {
    assert a + (b + d.1) == (a + b) + d.1;
  }

  lemma DrainNothing(e: QEvent, room: nat)
    requires room == 0 || !e.triggered
    ensures Drain(e, room) == (e, [], false)
  {}

  lemma DrainTurn(e: QEvent, room: nat)
    requires room > 0 && e.triggered
    ensures e.event.OneShot() ==> Drain(e, room) == (e, [e.event], true)
    ensures var f := Refill(AfterDelivery(e));
      !e.event.OneShot() ==>
        Drain(e, room) == if AfterDelivery(e).pending == [] && f.triggered then (f, [e.event], false)
                          else Prepend([e.event], Drain(f, room - 1))
  {}

  lemma RefillEmpty(e: QEvent)
    ensures e.pending == [] ==> Refill(e) == e
  {}

  lemma CollectStep(events: seq<QEvent>, it: nat, room: nat)
    requires it < |events| && room > 0
    ensures var d := Drain(events[it], room);
            var c := Collect(events[it + 1..], room - |d.1|);
            Collect(events[it..], room) == Glue(if d.2 then [] else [d.0], d.1, c)
  {
    assert events[it..][1..] == events[it + 1..];
  }
}
