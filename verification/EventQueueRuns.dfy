/** Histories of one event queue under the calls of the kernel API: registration, triggering, deletion and
    collection in any order, with a clock that never goes back. */
module EventQueueRuns {
  import opened Bits
  import opened EventQueue

  // ----- what the API registers -----

  function UserEvent(id: nat, edge: bool): QEvent {
    QEvent(false, 0, KEvent(id, EVFILT_USER, if edge then 0x21 else 0x01, 0, 0, 0), UserTrigger, UserReset, [])
  }

  function AmprEvent(id: nat, udata: int): QEvent {
    QEvent(false, 0, KEvent(id, EVFILT_USER, 0x21, 0, 0, udata), AmprTrigger, UserReset, [])
  }

  function FdEvent(fd: nat, filter: int, size: int, udata: int): QEvent {
    QEvent(false, 0, KEvent(fd, filter, 0x01, 0, size, udata), FdTrigger, FdReset, [])
  }

  function TimerEvent(id: nat, deadline: nat, udata: int): QEvent {
    QEvent(false, deadline, KEvent(id, EVFILT_HRTIMER, 0x11, 0, 0, udata), NoTrigger, NoReset, [])
  }

  datatype Call =
    | AddUser(id: nat, edge: bool)
    | AddAmpr(id: nat, udata: int)
    | AddFd(fd: nat, filter: int, size: int, udata: int)
    | AddTimer(id: nat, deadline: nat, udata: int)
    | TriggerKey(key: Key, data: int)
    | DeleteKey(key: Key)
    | CollectUpTo(num: nat, now: nat)

  /** Deadlines registered for a timer since it last entered the queue, and totals over the whole run. */
  datatype TimerHist = TimerHist(live: seq<nat>, total: nat, fired: nat)

  datatype System = System(
    events: seq<QEvent>,
    clock: nat,
    sent: map<Key, seq<int>>,    // data triggered for a key since it was last registered anew
    got: map<Key, seq<int>>,     // data delivered for it since then
    latest: map<Key, int>,       // data of the last trigger, as long as that is to be delivered
    level: set<Key>,             // user events that stay triggered when they are delivered
    timers: map<Key, TimerHist>)

  function Data(out: seq<KEvent>): seq<int> {
    if out == [] then [] else [out[0].data] + Data(out[1..])
  }

  /** The delivered data that belongs to one key. */
  function DataFor(out: seq<KEvent>, k: Key): seq<int> {
    if out == [] then [] else (if out[0].Key() == k then [out[0].data] else []) + DataFor(out[1..], k)
  }

  function Old<V>(m: map<Key, seq<V>>, k: Key): seq<V> {
    if k in m then m[k] else []
  }

  ghost predicate Allowed(s: System, c: Call) {
    match c
    case AddFd(_, filter, _, _) => filter == EVFILT_READ || filter == EVFILT_WRITE
    case TriggerKey(k, _) => k.1 != EVFILT_HRTIMER
    case CollectUpTo(num, now) => num >= 1 && now >= s.clock
    case _ => true
  }

  function Registration(c: Call): QEvent
    requires c.AddUser? || c.AddAmpr? || c.AddFd? || c.AddTimer?
  {
    match c
    case AddUser(id, edge) => UserEvent(id, edge)
    case AddAmpr(id, udata) => AmprEvent(id, udata)
    case AddFd(fd, filter, size, udata) => FdEvent(fd, filter, size, udata)
    case AddTimer(id, deadline, udata) => TimerEvent(id, deadline, udata)
  }

  predicate LevelTriggered(c: Call) {
    match c
    case AddUser(_, edge) => !edge
    case _ => false
  }

  /** AddFd is the registration half; the trigger that follows it in the source is a TriggerKey. */
  function Register(s: System, n: QEvent, level: bool): System {
    var k := n.Key();
    var h := if k in s.timers then s.timers[k] else TimerHist([], 0, 0);
    var known := HasKey(s.events, k);
    var timers := if n.trigger != NoTrigger then s.timers
      else s.timers[k := TimerHist((if known then h.live else []) + [n.deadline], h.total + 1, h.fired)];
    if known then s.(events := Add(s.events, n), timers := timers)
    else
      s.(events := Add(s.events, n), timers := timers, sent := s.sent[k := []], got := s.got[k := []],
         latest := s.latest - {k}, level := if level then s.level + {k} else s.level - {k})
  }

  function Deliver(s: System, out: seq<KEvent>): System {
    s.(got := map k | k in s.got :: s.got[k] + DataFor(out, k),
       latest := map k | k in s.latest && (DataFor(out, k) == [] || k in s.level) :: s.latest[k],
       timers := map k | k in s.timers :: s.timers[k].(fired := s.timers[k].fired + |DataFor(out, k)|))
  }

  function Step(s: System, c: Call): System {
    match c
    case TriggerKey(k, data) =>
      var i := Find(s.events, k);
      var ampr := i < |s.events| && s.events[i].trigger == AmprTrigger;
      s.(events := Trigger(s.events, k, data), sent := if ampr then s.sent[k := Old(s.sent, k) + [data]] else s.sent,
         latest := if i < |s.events| then s.latest[k := data] else s.latest)
    case DeleteKey(k) => s.(events := Delete(s.events, k))
    case CollectUpTo(num, now) =>
      var r := Collect(Expire(s.events, now), num);
      Deliver(s.(clock := now, events := r.0), r.1)
    case _ => Register(s, Registration(c), LevelTriggered(c))
  }

  function Empty(): System {
    System([], 0, map[], map[], map[], {}, map[])
  }

  ghost predicate Run(states: seq<System>, calls: seq<Call>) {
    && |states| == |calls| + 1 && states[0] == Empty()
    && forall i :: 0 <= i < |calls| ==> Allowed(states[i], calls[i]) && states[i + 1] == Step(states[i], calls[i])
  }

  // ----- the invariant -----

  ghost predicate UniqueKeys(events: seq<QEvent>) {
    forall i, j :: 0 <= i < j < |events| ==> events[i].Key() != events[j].Key()
  }

  /** The function pointers, flags and queued data that the four kinds of event come with. */
  ghost predicate Shape(e: QEvent) {
    match e.trigger
    case UserTrigger =>
      e.event.filter == EVFILT_USER && e.reset == UserReset && e.deadline == 0 && !e.event.OneShot() && e.pending == []
    case AmprTrigger =>
      && e.event.filter == EVFILT_USER && e.reset == UserReset && e.deadline == 0
      && !e.event.OneShot() && e.event.Clears()
      && (e.pending != [] ==> e.triggered)
      && forall i :: 0 <= i < |e.pending| ==> e.pending[i].Key() == e.Key() && e.pending[i].flags == e.event.flags
    case FdTrigger =>
      && (e.event.filter == EVFILT_READ || e.event.filter == EVFILT_WRITE)
      && e.reset == FdReset && e.deadline == 0 && !e.event.OneShot() && e.pending == []
    case NoTrigger =>
      e.event.filter == EVFILT_HRTIMER && e.reset == NoReset && e.event.OneShot() && e.pending == []
  }

  /** The data waiting in an event: the current one if triggered, then the queue. */
  ghost function Held(e: QEvent): seq<int> {
    (if e.triggered then [e.event.data] else []) + Data(e.pending)
  }

  ghost predicate Passed(live: seq<nat>, now: nat) {
    exists i :: 0 <= i < |live| && 0 < live[i] <= now
  }

  ghost predicate Latest(live: seq<nat>, deadline: nat) {
    live != [] && live[|live| - 1] == deadline
  }

  /** What is known of one registered event in a history. */
  ghost predicate EventOk(s: System, e: QEvent) {
    && Shape(e)
    && (e.trigger == AmprTrigger ==>
          e.Key() in s.sent && e.Key() in s.got && s.sent[e.Key()] == s.got[e.Key()] + Held(e))
    && (e.trigger == UserTrigger || e.trigger == FdTrigger ==>
          && (e.triggered <==> e.Key() in s.latest)
          && (e.triggered ==> e.event.data == s.latest[e.Key()])
          && (e.Key() in s.level <==> e.trigger == UserTrigger && !e.event.Clears()))
    && (e.trigger == NoTrigger ==>
          e.Key() in s.timers && Latest(s.timers[e.Key()].live, e.deadline)
          && (e.triggered ==> Passed(s.timers[e.Key()].live, s.clock)))
  }

  /** The histories tell the same of a key, and no time was lost. */
  ghost predicate AgreeAt(s: System, s': System, k: Key) {
    && (k in s.sent <==> k in s'.sent) && (k in s.sent ==> s.sent[k] == s'.sent[k])
    && (k in s.got <==> k in s'.got) && (k in s.got ==> s.got[k] == s'.got[k])
    && (k in s.latest <==> k in s'.latest) && (k in s.latest ==> s.latest[k] == s'.latest[k])
    && (k in s.timers <==> k in s'.timers) && (k in s.timers ==> s.timers[k].live == s'.timers[k].live)
    && (k in s.level <==> k in s'.level) && s.clock <= s'.clock
  }

  lemma {:induction false} OkElsewhere(s: System, s': System, e: QEvent)
    requires EventOk(s, e) && AgreeAt(s, s', e.Key())
    ensures EventOk(s', e)
  {
    hide Shape, Held, BitOf;
  }

  ghost predicate TimersOk(s: System) {
    forall k :: k in s.timers ==> s.timers[k].fired + Digit(HasKey(s.events, k)) <= s.timers[k].total
  }

  ghost predicate Inv(s: System) {
    && UniqueKeys(s.events)
    && (forall i :: 0 <= i < |s.events| ==> EventOk(s, s.events[i]))
    && TimersOk(s)
    && (forall k :: k in s.timers ==> k.1 == EVFILT_HRTIMER)
  }

  // ----- data of concatenations -----

  lemma {:induction false} DataConcat(a: seq<KEvent>, b: seq<KEvent>)
    ensures Data(a + b) == Data(a) + Data(b)
  {
    if a == [] {
      assert a + b == b;
    } else {
      assert (a + b)[1..] == a[1..] + b;
      DataConcat(a[1..], b);
    }
  }

  lemma {:induction false} DataForConcat(a: seq<KEvent>, b: seq<KEvent>, k: Key)
    ensures DataFor(a + b, k) == DataFor(a, k) + DataFor(b, k)
  {
    if a == [] {
      assert a + b == b;
    } else {
      assert (a + b)[1..] == a[1..] + b;
      DataForConcat(a[1..], b, k);
    }
  }

  /** All of one key, or none of it. */
  lemma {:induction false} DataForOne(out: seq<KEvent>, k: Key, l: Key)
    requires forall i :: 0 <= i < |out| ==> out[i].Key() == k
    ensures DataFor(out, l) == if l == k then Data(out) else []
  {
    if out != [] {
      DataForOne(out[1..], k, l);
    }
  }

  lemma {:induction false} DataSetUdata(pending: seq<KEvent>, udata: int)
    ensures Data(SetUdata(pending, udata)) == Data(pending)
  {
    if pending != [] {
      assert SetUdata(pending, udata)[1..] == SetUdata(pending[1..], udata);
      DataSetUdata(pending[1..], udata);
    }
  }

  // ----- one event -----

  lemma FlagBits()
    ensures BitOf(0x21, 5) && !BitOf(0x01, 5) && !BitOf(0x21, 4) && !BitOf(0x01, 4) && BitOf(0x11, 4)
  {}

  lemma {:induction false} RegistrationShape(c: Call)
    requires c.AddUser? || c.AddAmpr? || c.AddFd? || c.AddTimer?
    requires c.AddFd? ==> c.filter == EVFILT_READ || c.filter == EVFILT_WRITE
    ensures Shape(Registration(c)) && !Registration(c).triggered && Registration(c).pending == []
    ensures LevelTriggered(c) <==> Registration(c).trigger == UserTrigger && !Registration(c).event.Clears()
  {
    FlagBits();
  }

  /** An AMPR event hands out its data in order and keeps the rest. */
  lemma {:induction false} DrainAmpr(e: QEvent, room: nat)
    requires Shape(e) && e.trigger == AmprTrigger
    ensures var d := Drain(e, room);
      && !d.2 && Shape(d.0) && d.0.trigger == AmprTrigger && d.0.Key() == e.Key()
      && Held(e) == Data(d.1) + Held(d.0)
      && forall i :: 0 <= i < |d.1| ==> d.1[i].Key() == e.Key()
    decreases room
  {
    hide BitOf;
    if room > 0 && e.triggered {
      var f := Refill(AfterDelivery(e));
      assert AfterDelivery(e) == ClearedEvent(e);
      if e.pending != [] {
        assert f.event == e.pending[0] && f.pending == e.pending[1..];
        assert Held(e) == [e.event.data] + Data(e.pending) == [e.event.data] + Held(f);
      } else {
        assert Held(e) == [e.event.data] && Held(f) == [];
      }
      DrainAmpr(f, room - 1);
      var rest := Drain(f, room - 1);
      assert Drain(e, room) == (rest.0, [e.event] + rest.1, rest.2);
      DataConcat([e.event], rest.1);
      assert Data([e.event]) == [e.event.data];
      assert [e.event.data] + (Data(rest.1) + Held(rest.0)) == Data([e.event] + rest.1) + Held(rest.0);
    }
  }

  /** Any other event delivers itself at most once; a timer is then erased, the others stay. */
  lemma {:induction false} DrainSingle(e: QEvent, room: nat)
    requires Shape(e) && e.trigger != AmprTrigger
    ensures var d := Drain(e, room);
      && d.1 == (if e.triggered && room > 0 then [e.event] else [])
      && d.2 == (e.trigger == NoTrigger && d.1 != [])
      && (!d.2 ==> Shape(d.0) && d.0.Key() == e.Key() && d.0.trigger == e.trigger && d.0.deadline == e.deadline)
      && (e.trigger == NoTrigger && !d.2 ==> d.0 == e) && (d.1 == [] ==> d.0 == e)
      && (!d.2 ==> d.0.event.flags == e.event.flags && (d.0.triggered ==> d.0 == e))
      && (d.1 != [] && !d.2 ==> (d.0.triggered <==> e.trigger == UserTrigger && !e.event.Clears()))
  {
    hide BitOf;
    if room > 0 && e.triggered && !e.event.OneShot() {
      var f := Refill(AfterDelivery(e));
      assert f == AfterDelivery(e);
      assert [e.event] + Drain(f, room - 1).1 == [e.event] || f.triggered;
    }
  }

  lemma {:induction false} DrainKey(e: QEvent, room: nat, k: Key)
    requires Shape(e)
    ensures var d := Drain(e, room);
      DataFor(d.1, k) == if k == e.Key() then Data(d.1) else []
  {
    hide Shape, Drain;
    if e.trigger == AmprTrigger {
      DrainAmpr(e, room);
    } else {
      DrainSingle(e, room);
    }
    DataForOne(Drain(e, room).1, e.Key(), k);
  }

  // ----- the whole list -----

  ghost predicate AllShape(events: seq<QEvent>) {
    forall i :: 0 <= i < |events| ==> Shape(events[i])
  }

  lemma TailShape(events: seq<QEvent>)
    requires AllShape(events) && events != []
    ensures Shape(events[0]) && AllShape(events[1..])
    ensures UniqueKeys(events) ==> UniqueKeys(events[1..]) && !HasKey(events[1..], events[0].Key())
  {
    hide Shape;
    assert forall i :: 0 <= i < |events[1..]| ==> events[1..][i] == events[i + 1];
  }

  lemma HeadKey(events: seq<QEvent>, k: Key)
    requires events != []
    ensures HasKey(events, k) <==> events[0].Key() == k || HasKey(events[1..], k)
  {
    assert events == [events[0]] + events[1..];
    HasKeyConcat([events[0]], events[1..], k);
    assert [events[0]][0] == events[0];
  }

  lemma NoKey(events: seq<QEvent>, k: Key)
    requires forall i :: 0 <= i < |events| ==> events[i].Key() != k
    ensures !HasKey(events, k)
  {}

  /** What the first event adds to a collection. */
  lemma CollectHead(events: seq<QEvent>, room: nat, k: Key)
    requires AllShape(events) && events != [] && room > 0
    ensures var d := Drain(events[0], room);
      var rest := Collect(events[1..], room - |d.1|);
      && Collect(events, room) == ((if d.2 then [] else [d.0]) + rest.0, d.1 + rest.1)
      && (k != events[0].Key() ==> DataFor(Collect(events, room).1, k) == DataFor(rest.1, k))
      && (k == events[0].Key() && DataFor(rest.1, k) == [] ==> DataFor(Collect(events, room).1, k) == Data(d.1))
      && (!d.2 ==> Shape(d.0) && d.0.Key() == events[0].Key())
  {
    hide Shape, Drain;
    var d := Drain(events[0], room);
    TailShape(events);
    DrainKey(events[0], room, k);
    DrainKeeps(events[0], room);
    DataForConcat(d.1, Collect(events[1..], room - |d.1|).1, k);
  }

  /** A key that is not registered is not delivered and does not appear. */
  lemma {:induction false} CollectOther(events: seq<QEvent>, room: nat, k: Key)
    requires AllShape(events) && !HasKey(events, k)
    ensures DataFor(Collect(events, room).1, k) == [] && !HasKey(Collect(events, room).0, k)
  {
    hide Shape, Drain, Collect, DataFor, HasKey;
    if events != [] && room > 0 {
      var d := Drain(events[0], room);
      TailShape(events);
      HeadKey(events, k);
      CollectOther(events[1..], room - |d.1|, k);
      CollectHead(events, room, k);
      var kept := if d.2 then [] else [d.0];
      HasKeyConcat(kept, Collect(events[1..], room - |d.1|).0, k);
      NoKey(kept, k);
    } else {
      CollectNothing(events, room);
      NoData(k);
    }
  }

  lemma {:induction false} DrainKeeps(e: QEvent, room: nat)
    requires Shape(e)
    ensures var d := Drain(e, room);
      !d.2 ==> Shape(d.0) && d.0.Key() == e.Key()
  {
    hide Shape, Drain;
    if e.trigger == AmprTrigger {
      DrainAmpr(e, room);
    } else {
      DrainSingle(e, room);
    }
  }

  /** Every event left after a collection comes from one with its key, which delivered what was
      delivered for that key. */
  lemma {:induction false} CollectOrigin(events: seq<QEvent>, room: nat, j: nat) returns (i: nat, m: nat)
    requires AllShape(events) && UniqueKeys(events)
    requires j < |Collect(events, room).0|
    ensures i < |events| && m <= room
    ensures var d := Drain(events[i], m);
      && !d.2 && Collect(events, room).0[j] == d.0
      && d.0.Key() == events[i].Key()
      && DataFor(Collect(events, room).1, events[i].Key()) == Data(d.1)
  {
    hide Shape, Drain;
    if events == [] || room == 0 {
      i, m := j, 0;
      DrainNothing(events[j], 0);
    } else {
      hide Collect, DataFor, HasKey, UniqueKeys;
      var d := Drain(events[0], room);
      var left := room - |d.1|;
      var n := if d.2 then 0 else 1;
      TailShape(events);
      CollectHead(events, room, events[0].Key());
      if j < n {
        i, m := 0, room;
        CollectOther(events[1..], left, events[0].Key());
      } else {
        i, m := CollectOrigin(events[1..], left, j - n);
        KeysApart(events, i);
        i := i + 1;
        CollectHead(events, room, events[i].Key());
      }
    }
  }

  lemma KeysApart(events: seq<QEvent>, i: nat)
    requires UniqueKeys(events) && i < |events| - 1
    ensures events[1..][i] == events[i + 1] && events[i + 1].Key() != events[0].Key()
  {}

  lemma {:induction false} CollectUnique(events: seq<QEvent>, room: nat)
    requires AllShape(events) && UniqueKeys(events)
    ensures UniqueKeys(Collect(events, room).0)
  {
    hide Shape, Drain;
    if events != [] && room > 0 {
      var d := Drain(events[0], room);
      assert forall i :: 0 <= i < |events[1..]| ==> events[1..][i] == events[i + 1];
      CollectUnique(events[1..], room - |d.1|);
      CollectOther(events[1..], room - |d.1|, events[0].Key());
      DrainKeeps(events[0], room);
    }
  }

  lemma HasKeyConcat(a: seq<QEvent>, b: seq<QEvent>, k: Key)
    ensures HasKey(a + b, k) <==> HasKey(a, k) || HasKey(b, k)
  {
    if HasKey(a, k) {
      var i :| 0 <= i < |a| && a[i].Key() == k;
      assert (a + b)[i].Key() == k;
    }
    if HasKey(b, k) {
      var i :| 0 <= i < |b| && b[i].Key() == k;
      assert (a + b)[|a| + i].Key() == k;
    }
  }

  lemma {:induction false} DrainTimer(e: QEvent, room: nat, k: Key)
    requires Shape(e) && k.1 == EVFILT_HRTIMER
    ensures var d := Drain(e, room);
      |DataFor(d.1, k)| + Digit(HasKey(if d.2 then [] else [d.0], k)) == Digit(HasKey([e], k))
  {
    hide Drain;
    DrainKey(e, room, k);
    assert HasKey([e], k) <==> [e][0].Key() == k;
    if e.trigger == AmprTrigger {
      DrainAmpr(e, room);
      assert [Drain(e, room).0][0].Key() == e.Key();
    } else {
      DrainSingle(e, room);
      assert !Drain(e, room).2 ==> [Drain(e, room).0][0].Key() == e.Key();
    }
  }

  /** A timer that is delivered leaves the queue, and no other does. */
  lemma {:induction false} CollectTimer(events: seq<QEvent>, room: nat, k: Key)
    requires AllShape(events) && UniqueKeys(events) && k.1 == EVFILT_HRTIMER
    ensures var r := Collect(events, room);
      |DataFor(r.1, k)| + Digit(HasKey(r.0, k)) == Digit(HasKey(events, k))
  {
    hide Shape, Drain, DataFor, HasKey;
    if events != [] && room > 0 {
      var e, d := events[0], Drain(events[0], room);
      var rest := Collect(events[1..], room - |d.1|);
      var kept := if d.2 then [] else [d.0];
      TailShape(events);
      CollectTimer(events[1..], room - |d.1|, k);
      DrainTimer(e, room, k);
      DataForConcat(d.1, rest.1, k);
      HasKeyConcat(kept, rest.0, k);
      assert events == [e] + events[1..];
      HasKeyConcat([e], events[1..], k);
      NotTwice(events, k);
    } else {
      CollectNothing(events, room);
      NoData(k);
    }
  }

  lemma NoData(k: Key)
    ensures DataFor([], k) == []
  {}

  lemma NotTwice(events: seq<QEvent>, k: Key)
    requires UniqueKeys(events) && events != []
    ensures !(HasKey([events[0]], k) && HasKey(events[1..], k))
  {
    assert forall i :: 0 <= i < |events[1..]| ==> events[1..][i] == events[i + 1];
  }

  lemma {:induction false} DataLength(out: seq<KEvent>)
    ensures |Data(out)| == |out|
  {
    if out != [] {
      DataLength(out[1..]);
    }
  }

  lemma {:induction false} DrainCount(e: QEvent, room: nat)
    requires Shape(e)
    ensures |Data(Drain(e, room).1)| <= if e.triggered then 1 + |e.pending| else 0
  {
    hide Shape, Drain;
    if e.trigger == AmprTrigger {
      DrainAmpr(e, room);
      DataLength(e.pending);
    } else {
      DrainSingle(e, room);
    }
  }

  /** In one collection a triggered event appears at most once, and once more for each value in its queue; an
      event that is not triggered does not appear. */
  lemma {:induction false} CollectOnce(events: seq<QEvent>, room: nat, i: nat)
    requires AllShape(events) && UniqueKeys(events) && i < |events|
    ensures |DataFor(Collect(events, room).1, events[i].Key())| <=
      if events[i].triggered then 1 + |events[i].pending| else 0
  {
    hide Shape, AllShape, Drain, Collect, Data, DataFor, HasKey, UniqueKeys;
    if room > 0 {
      var d, k := Drain(events[0], room), events[i].Key();
      TailShape(events);
      CollectHead(events, room, k);
      if i == 0 {
        DrainCount(events[0], room);
        CollectOther(events[1..], room - |d.1|, k);
      } else {
        KeysApart(events, i - 1);
        CollectOnce(events[1..], room - |d.1|, i - 1);
      }
    } else {
      CollectNothing(events, room);
      NoData(events[i].Key());
    }
  }

  // ----- every call keeps the invariant -----

  /** Replacing an event by one with the same key changes no key. */
  lemma {:induction false} UpdateKeys(events: seq<QEvent>, i: nat, e: QEvent, k: Key)
    requires i < |events| && e.Key() == events[i].Key()
    ensures HasKey(events[i := e], k) <==> HasKey(events, k)
    ensures UniqueKeys(events) ==> UniqueKeys(events[i := e])
  {
    var es := events[i := e];
    assert forall j :: 0 <= j < |events| ==> es[j].Key() == events[j].Key();
    if HasKey(events, k) {
      var j :| 0 <= j < |events| && events[j].Key() == k;
      assert es[j].Key() == k;
    }
  }

  lemma {:induction false} ReregisterOk(e: QEvent, n: QEvent)
    requires Shape(e) && Shape(n) && e.Key() == n.Key()
    ensures Shape(Reregister(e, n)) && Held(Reregister(e, n)) == Held(e)
    ensures Reregister(e, n).Key() == e.Key() && Reregister(e, n).trigger == e.trigger
    ensures e.trigger == NoTrigger <==> n.trigger == NoTrigger
  {
    hide BitOf;
    DataSetUdata(e.pending, n.event.udata);
  }

  lemma {:induction false} KnownOk(s: System, n: QEvent, level: bool, e: QEvent)
    requires Shape(n) && HasKey(s.events, n.Key()) && EventOk(s, e) && e.Key() == n.Key()
    ensures EventOk(Register(s, n, level), Reregister(e, n))
  {
    hide Shape, Reregister, Held, BitOf, HasKey, Add;
    ReregisterOk(e, n);
    ReregisterFields(e, n);
    if e.trigger == NoTrigger {
      PassedMore(s.timers[n.Key()].live, n.deadline, s.clock);
    }
  }

  lemma {:induction false} RegisterKnown(s: System, n: QEvent, level: bool)
    requires Inv(s) && Shape(n) && HasKey(s.events, n.Key())
    ensures Inv(Register(s, n, level))
  {
    hide Shape, EventOk, Reregister, HasKey;
    var k, i := n.Key(), Find(s.events, n.Key());
    var s', e' := Register(s, n, level), Reregister(s.events[i], n);
    assert Shape(s.events[i]) by { OkShape(s, s.events[i]); }
    ReregisterOk(s.events[i], n);
    UpdateKeys(s.events, i, e', k);
    forall l ensures HasKey(s'.events, l) <==> HasKey(s.events, l) {
      UpdateKeys(s.events, i, e', l);
    }
    KnownOk(s, n, level, s.events[i]);
    ShapeFilter(n);
    forall j | 0 <= j < |s'.events| ensures EventOk(s', s'.events[j]) {
      if j != i {
        assert s.events[j].Key() != k;
        OkElsewhere(s, s', s.events[j]);
      }
    }
  }

  lemma OkShape(s: System, e: QEvent)
    requires EventOk(s, e)
    ensures Shape(e)
  {}

  lemma ReregisterFields(e: QEvent, n: QEvent)
    ensures Reregister(e, n).deadline == n.deadline && Reregister(e, n).triggered == e.triggered
    ensures Reregister(e, n).event == e.event.(udata := n.event.udata)
  {}

  lemma ShapeFilter(e: QEvent)
    requires Shape(e)
    ensures e.trigger == NoTrigger <==> e.event.filter == EVFILT_HRTIMER
  {}

  lemma PassedMore(live: seq<nat>, d: nat, now: nat)
    ensures Passed(live, now) ==> Passed(live + [d], now)
    ensures Latest(live + [d], d)
  {
    if Passed(live, now) {
      var i :| 0 <= i < |live| && 0 < live[i] <= now;
      assert (live + [d])[i] == live[i];
    }
  }

  lemma {:induction false} NewOk(s: System, n: QEvent, level: bool)
    requires Shape(n) && !HasKey(s.events, n.Key()) && !n.triggered && n.pending == []
    requires level <==> n.trigger == UserTrigger && !n.event.Clears()
    ensures EventOk(Register(s, n, level), n)
  {
    hide Shape, BitOf, HasKey, Add;
    PassedMore([], n.deadline, s.clock);
    assert Held(n) == [];
  }

  lemma {:induction false} RegisterNew(s: System, n: QEvent, level: bool)
    requires Inv(s) && Shape(n) && !HasKey(s.events, n.Key()) && !n.triggered && n.pending == []
    requires level <==> n.trigger == UserTrigger && !n.event.Clears()
    ensures Inv(Register(s, n, level))
  {
    hide Shape, BitOf, EventOk;
    var k, s' := n.Key(), Register(s, n, level);
    assert s'.events == s.events + [n];
    forall l ensures HasKey(s'.events, l) <==> HasKey(s.events, l) || l == k {
      HasKeyConcat(s.events, [n], l);
      assert [n][0].Key() == k;
    }
    ShapeFilter(n);
    NewOk(s, n, level);
    forall j | 0 <= j < |s'.events| ensures EventOk(s', s'.events[j]) {
      if j < |s.events| {
        assert s.events[j].Key() != k;
        OkElsewhere(s, s', s.events[j]);
      }
    }
    assert TimersOk(s');
  }

  lemma {:induction false} TriggeredOk(e: QEvent, data: int)
    requires Shape(e) && e.trigger != NoTrigger
    ensures Shape(Triggered(e, data)) && Triggered(e, data).Key() == e.Key()
    ensures Triggered(e, data).trigger == e.trigger && Triggered(e, data).triggered
    ensures Triggered(e, data).event.flags == e.event.flags
    ensures e.trigger != AmprTrigger ==> Triggered(e, data).event.data == data
    ensures e.trigger == AmprTrigger ==> Held(Triggered(e, data)) == Held(e) + [data]
  {
    hide BitOf;
    var v := e.event.(data := data);
    DataConcat(e.pending, [v]);
    assert Data([v]) == [data];
    assert e.triggered ==> [e.event.data] + (Data(e.pending) + [data]) == [e.event.data] + Data(e.pending) + [data];
  }

  lemma {:induction false} TriggeredFits(s: System, k: Key, data: int)
    requires k.1 != EVFILT_HRTIMER && HasKey(s.events, k) && EventOk(s, s.events[Find(s.events, k)])
    ensures EventOk(Step(s, TriggerKey(k, data)), Triggered(s.events[Find(s.events, k)], data))
    ensures Triggered(s.events[Find(s.events, k)], data).Key() == k
  {
    hide Shape, Held, Triggered, BitOf, HasKey;
    var e := s.events[Find(s.events, k)];
    ShapeFilter(e);
    TriggeredOk(e, data);
    if e.trigger == AmprTrigger {
      assert s.got[k] + Held(e) + [data] == s.got[k] + (Held(e) + [data]);
    }
  }

  lemma {:induction false} TriggerOk(s: System, k: Key, data: int)
    requires Inv(s) && k.1 != EVFILT_HRTIMER
    ensures Inv(Step(s, TriggerKey(k, data)))
  {
    hide EventOk, Triggered;
    var s', i := Step(s, TriggerKey(k, data)), Find(s.events, k);
    if i < |s.events| {
      TriggeredFits(s, k, data);
      forall l ensures HasKey(s'.events, l) <==> HasKey(s.events, l) {
        UpdateKeys(s.events, i, Triggered(s.events[i], data), l);
      }
      UpdateKeys(s.events, i, Triggered(s.events[i], data), k);
      forall j | 0 <= j < |s'.events| ensures EventOk(s', s'.events[j]) {
        if j != i {
          assert s.events[j].Key() != k;
          OkElsewhere(s, s', s.events[j]);
        }
      }
    }
  }

  lemma {:induction false} DeleteOk(s: System, k: Key)
    requires Inv(s)
    ensures Inv(Step(s, DeleteKey(k)))
  {
    hide EventOk;
    var s', i := Step(s, DeleteKey(k)), Find(s.events, k);
    if i < |s.events| {
      assert forall j :: 0 <= j < |s'.events| ==> s'.events[j] == s.events[if j < i then j else j + 1];
      forall l | HasKey(s'.events, l) ensures HasKey(s.events, l) {
        var j :| 0 <= j < |s'.events| && s'.events[j].Key() == l;
        assert s.events[if j < i then j else j + 1].Key() == l;
      }
      forall j | 0 <= j < |s'.events| ensures EventOk(s', s'.events[j]) {
        OkElsewhere(s, s', s.events[if j < i then j else j + 1]);
      }
    }
  }

  lemma ExpireKey(e: QEvent, now: nat)
    ensures ExpireOne(e, now).Key() == e.Key()
  {}

  lemma SameKeys(a: seq<QEvent>, b: seq<QEvent>, k: Key)
    requires |a| == |b| && forall i :: 0 <= i < |a| ==> a[i].Key() == b[i].Key()
    ensures HasKey(a, k) <==> HasKey(b, k)
  {
    if HasKey(a, k) {
      var i :| 0 <= i < |a| && a[i].Key() == k;
      assert b[i].Key() == k;
    }
  }

  lemma {:induction false} ExpiredOk(s: System, e: QEvent)
    requires EventOk(s, e)
    ensures EventOk(s, ExpireOne(e, s.clock))
  {
    hide BitOf;
    if e.deadline != 0 && !e.triggered && e.deadline <= s.clock {
      var live := s.timers[e.Key()].live;
      assert live[|live| - 1] == e.deadline;
    }
  }

  /** Expiry keeps the invariant at the new time: a timer is triggered only by a deadline that passed. */
  lemma {:induction false} ExpireOk(s: System, now: nat)
    requires Inv(s) && now >= s.clock
    ensures Inv(s.(events := Expire(s.events, now), clock := now))
  {
    hide EventOk, ExpireOne, HasKey;
    var es := Expire(s.events, now);
    forall i | 0 <= i < |es| ensures es[i].Key() == s.events[i].Key() { ExpireKey(s.events[i], now); }
    forall k ensures HasKey(es, k) <==> HasKey(s.events, k) { SameKeys(es, s.events, k); }
    var s' := s.(events := es, clock := now);
    forall i | 0 <= i < |es| ensures EventOk(s', es[i]) {
      OkElsewhere(s, s', s.events[i]);
      ExpiredOk(s', s.events[i]);
    }
  }

  lemma {:induction false} CollectOk(s: System, num: nat)
    requires Inv(s)
    ensures Inv(Deliver(s.(events := Collect(s.events, num).0), Collect(s.events, num).1))
  {
    hide Collect, Drain, HasKey, EventOk, Shape;
    var r := Collect(s.events, num);
    var s' := Deliver(s.(events := r.0), r.1);
    forall i | 0 <= i < |s.events| ensures Shape(s.events[i]) { OkShape(s, s.events[i]); }
    CollectUnique(s.events, num);
    forall k | k in s'.timers ensures s'.timers[k].fired + Digit(HasKey(s'.events, k)) <= s'.timers[k].total {
      CollectTimer(s.events, num, k);
    }
    forall j | 0 <= j < |s'.events| ensures EventOk(s', s'.events[j]) {
      var i, m := CollectOrigin(s.events, num, j);
      DrainedOk(s, s', s.events[i], m, r.1);
    }
  }

  /** What stays of an event that has handed out data. */
  lemma {:induction false} DrainedOk(s: System, s': System, e: QEvent, room: nat, out: seq<KEvent>)
    requires EventOk(s, e) && s' == Deliver(s.(events := s'.events), out)
    requires var d := Drain(e, room); !d.2 && DataFor(out, e.Key()) == Data(d.1)
    ensures EventOk(s', Drain(e, room).0)
  {
    hide Shape, Held, Drain, BitOf, Data;
    var d, k := Drain(e, room), e.Key();
    if e.trigger == AmprTrigger {
      DrainAmpr(e, room);
      assert s.got[k] + (Data(d.1) + Held(d.0)) == s.got[k] + Data(d.1) + Held(d.0);
    } else {
      DrainSingle(e, room);
      assert d.1 == [] <==> Data(d.1) == [] by { DataLength(d.1); }
    }
  }

  lemma {:induction false} InvStep(s: System, c: Call)
    requires Inv(s) && Allowed(s, c)
    ensures Inv(Step(s, c))
  {
    hide Inv, Register, Collect, Expire;
    match c
    case TriggerKey(k, data) => TriggerOk(s, k, data);
    case DeleteKey(k) => DeleteOk(s, k);
    case CollectUpTo(num, now) =>
      ExpireOk(s, now);
      CollectOk(s.(events := Expire(s.events, now), clock := now), num);
    case _ =>
      var n := Registration(c);
      RegistrationShape(c);
      if HasKey(s.events, n.Key()) {
        RegisterKnown(s, n, LevelTriggered(c));
      } else {
        RegisterNew(s, n, LevelTriggered(c));
      }
  }

  lemma {:induction false} InvRun(states: seq<System>, calls: seq<Call>, i: nat)
    requires Run(states, calls) && i < |states|
    ensures Inv(states[i])
  {
    hide Step, Allowed;
    if i > 0 {
      InvRun(states, calls, i - 1);
      hide Inv;
      InvStep(states[i - 1], calls[i - 1]);
    }
  }

  // ----- the theorems -----

  /** AMPR data is conserved in order: what was triggered since the event was registered is what was
      delivered, then the current value, then the queue. */
  lemma {:induction false} AmprConserved(states: seq<System>, calls: seq<Call>, i: nat, j: nat)
    requires Run(states, calls) && i < |states| && j < |states[i].events|
    requires states[i].events[j].trigger == AmprTrigger
    ensures var s, e := states[i], states[i].events[j];
      && e.Key() in s.sent && e.Key() in s.got
      && s.sent[e.Key()] == s.got[e.Key()] + (if e.triggered then [e.event.data] else []) + Data(e.pending)
      && (e.pending != [] ==> e.triggered)
  {
    hide Step, Allowed;
    InvRun(states, calls, i);
    var s, e := states[i], states[i].events[j];
    assert EventOk(s, e);
    assert s.got[e.Key()] + Held(e) == s.got[e.Key()] + (if e.triggered then [e.event.data] else []) + Data(e.pending);
  }

  /** No key is registered twice. */
  lemma {:induction false} KeysStayUnique(states: seq<System>, calls: seq<Call>, i: nat)
    requires Run(states, calls) && i < |states|
    ensures UniqueKeys(states[i].events)
  {
    hide Step, Allowed;
    InvRun(states, calls, i);
  }

  /** One collection of a reachable queue: at most `num` events, and each registered event at most once, or once
      more for each value it has queued. */
  lemma {:induction false} CollectionBounds(states: seq<System>, calls: seq<Call>, i: nat, j: nat, num: nat, now: nat)
    requires Run(states, calls) && i < |states| && now >= states[i].clock && j < |states[i].events|
    ensures var out := Collect(Expire(states[i].events, now), num).1;
      && |out| <= num
      && |DataFor(out, states[i].events[j].Key())| <= 1 + |states[i].events[j].pending|
      && (states[i].events[j].trigger != AmprTrigger ==> |DataFor(out, states[i].events[j].Key())| <= 1)
  {
    hide Step, Allowed, Collect, DataFor;
    InvRun(states, calls, i);
    ExpireOk(states[i], now);
    var es := Expire(states[i].events, now);
    assert es[j] == ExpireOne(states[i].events[j], now);
    assert EventOk(states[i], states[i].events[j]);
    CollectOnce(es, num, j);
  }

  /** An HR timer is delivered only after a deadline registered for it has passed, leaves the queue with
      its delivery, and is delivered no more often than it was registered. */
  lemma {:induction false} TimerDelivery(states: seq<System>, calls: seq<Call>, i: nat, num: nat, now: nat, k: Key)
    requires Run(states, calls) && i < |states| && now >= states[i].clock && k.1 == EVFILT_HRTIMER
    requires DataFor(Collect(Expire(states[i].events, now), num).1, k) != []
    ensures k in states[i].timers && Passed(states[i].timers[k].live, now)
    ensures !HasKey(Collect(Expire(states[i].events, now), num).0, k)
    ensures states[i].timers[k].fired + 1 <= states[i].timers[k].total
  {
    hide Step, Allowed, Collect, Shape, Expire;
    InvRun(states, calls, i);
    var s := states[i].(events := Expire(states[i].events, now), clock := now);
    ExpireOk(states[i], now);
    assert AllShape(s.events);
    CollectTimer(s.events, num, k);
    if !HasKey(s.events, k) {
      CollectOther(s.events, num, k);
    }
    var j := Find(s.events, k);
    assert EventOk(s, s.events[j]);
    ShapeFilter(s.events[j]);
    CollectOnce(s.events, num, j);
  }
}
