/** What a collection hands out: everything that is due, in the order of registration, up to the number asked for;
    and, in terms of the history, what is due. */
module EventQueueDelivery {
  import opened Bits
  import opened EventQueue
  import opened EventQueueRuns

  /** What an event has to hand out at time `now`: itself, then what has queued behind it, once it is triggered or
      its deadline has come. */
  function Due(e: QEvent, now: nat): seq<KEvent> {
    if e.triggered || 0 < e.deadline <= now then [e.event] + e.pending else []
  }

  function Backlog(events: seq<QEvent>, now: nat): seq<KEvent> {
    if events == [] then [] else Due(events[0], now) + Backlog(events[1..], now)
  }

  function FirstOf(s: seq<KEvent>, n: nat): seq<KEvent> {
    if |s| <= n then s else s[..n]
  }

  // ----- a collection is the beginning of the backlog -----

  lemma {:induction false} DrainIsDue(e: QEvent, room: nat)
    requires Shape(e)
    ensures Drain(e, room).1 == FirstOf(Due(e, 0), room)
    decreases room
  {
    hide BitOf;
    if e.trigger != AmprTrigger {
      DrainSingle(e, room);
      NoDeadlineYet(e);
    } else if room > 0 && e.triggered {
      var f := Refill(AfterDelivery(e));
      assert AfterDelivery(e) == ClearedEvent(e);
      NextDue(e, f);
      DrainAmpr(f, 0);
      DrainIsDue(f, room - 1);
      assert Drain(e, room).1 == [e.event] + Drain(f, room - 1).1;
    }
  }

  lemma NoDeadlineYet(e: QEvent)
    requires Shape(e) && e.trigger != AmprTrigger
    ensures Due(e, 0) == if e.triggered then [e.event] else []
  {}

  lemma NextDue(e: QEvent, f: QEvent)
    requires Shape(e) && e.trigger == AmprTrigger && e.triggered && f == Refill(ClearedEvent(e))
    ensures Due(e, 0) == [e.event] + Due(f, 0) && Shape(f)
  {
    hide BitOf;
    if e.pending != [] {
      assert e.pending == [e.pending[0]] + e.pending[1..];
    }
  }

  lemma FirstOfTwo(a: seq<KEvent>, b: seq<KEvent>, n: nat)
    ensures |FirstOf(a, n)| <= n
    ensures FirstOf(a + b, n) == FirstOf(a, n) + FirstOf(b, n - |FirstOf(a, n)|)
  {}

  lemma {:induction false} CollectIsBacklog(events: seq<QEvent>, room: nat)
    requires AllShape(events)
    ensures Collect(events, room).1 == FirstOf(Backlog(events, 0), room)
  {
    hide Shape, Drain, Due;
    if events != [] && room > 0 {
      var d := Drain(events[0], room);
      TailShape(events);
      DrainIsDue(events[0], room);
      CollectIsBacklog(events[1..], room - |d.1|);
      FirstOfTwo(Due(events[0], 0), Backlog(events[1..], 0), room);
    }
  }

  lemma {:induction false} ExpireIsDue(events: seq<QEvent>, now: nat)
    ensures Backlog(Expire(events, now), 0) == Backlog(events, now)
  {
    if events != [] {
      ExpireIsDue(events[1..], now);
      assert Expire(events, now)[1..] == Expire(events[1..], now);
    }
  }

  lemma ShapesExpired(s: System, now: nat)
    requires Inv(s)
    ensures AllShape(s.events) && AllShape(Expire(s.events, now))
  {
    hide BitOf;
    forall i | 0 <= i < |s.events| ensures Shape(s.events[i]) && Shape(ExpireOne(s.events[i], now)) {
      OkShape(s, s.events[i]);
    }
  }

  /** Every collection of a reachable queue: exactly the first `num` of everything that is due. */
  lemma {:induction false} CollectionExact(states: seq<System>, calls: seq<Call>, i: nat, num: nat, now: nat)
    requires Run(states, calls) && i < |states|
    ensures Collect(Expire(states[i].events, now), num).1 == FirstOf(Backlog(states[i].events, now), num)
  {
    hide Inv, AllShape, Backlog, Collect, Expire, Step, Allowed;
    InvRun(states, calls, i);
    ShapesExpired(states[i], now);
    CollectIsBacklog(Expire(states[i].events, now), num);
    ExpireIsDue(states[i].events, now);
  }

  // ----- what is due, told by the history -----

  lemma {:induction false} DueKeys(e: QEvent, now: nat, k: Key)
    requires Shape(e)
    ensures DataFor(Due(e, now), k) == if k == e.Key() then Data(Due(e, now)) else []
  {
    hide BitOf;
    DataForOne(Due(e, now), e.Key(), k);
  }

  lemma {:induction false} BacklogOther(events: seq<QEvent>, now: nat, k: Key)
    requires AllShape(events) && !HasKey(events, k)
    ensures DataFor(Backlog(events, now), k) == []
  {
    hide Shape, Due, DataFor, HasKey;
    NoData(k);
    if events != [] {
      TailShape(events);
      HeadKey(events, k);
      DueKeys(events[0], now, k);
      BacklogOther(events[1..], now, k);
      DataForConcat(Due(events[0], now), Backlog(events[1..], now), k);
    }
  }

  /** The part of the backlog that belongs to one event. */
  lemma {:induction false} BacklogFor(events: seq<QEvent>, now: nat, j: nat)
    requires AllShape(events) && UniqueKeys(events) && j < |events|
    ensures DataFor(Backlog(events, now), events[j].Key()) == Data(Due(events[j], now))
  {
    hide Shape, AllShape, Due, Data, DataFor, HasKey, UniqueKeys;
    var k := events[j].Key();
    TailShape(events);
    assert Shape(events[0]) && AllShape(events[1..]);
    DueKeys(events[0], now, k);
    DataForConcat(Due(events[0], now), Backlog(events[1..], now), k);
    if j == 0 {
      BacklogOther(events[1..], now, k);
      assert Data(Due(events[0], now)) + [] == Data(Due(events[0], now));
    } else {
      KeysApart(events, j - 1);
      BacklogFor(events[1..], now, j - 1);
      assert [] + Data(Due(events[j], now)) == Data(Due(events[j], now));
    }
  }

  /** The deadline has come, or an earlier one had come by a collection that had no room for the timer. */
  predicate TimerDue(e: QEvent, now: nat) {
    e.triggered || 0 < e.deadline <= now
  }

  /** What an event of a history has to hand out: a user or file event the data of its last trigger, if it was
      triggered and that was not handed out since; an AMPR event all data triggered and not handed out, in order; a
      timer one event once the deadline registered last has come. */
  ghost predicate Owed(s: System, e: QEvent, now: nat, data: seq<int>) {
    var k := e.Key();
    match e.trigger
    case AmprTrigger => k in s.got && k in s.sent && s.got[k] + data == s.sent[k]
    case NoTrigger =>
      && k in s.timers && s.timers[k].live != []
      && |data| == if e.triggered || 0 < s.timers[k].live[|s.timers[k].live| - 1] <= now then 1 else 0
    case _ => data == if k in s.latest then [s.latest[k]] else []
  }

  lemma {:induction false} DueIsOwed(s: System, e: QEvent, now: nat)
    requires EventOk(s, e)
    ensures Owed(s, e, now, Data(Due(e, now)))
  {
    hide BitOf;
    OkShape(s, e);
    match e.trigger
    case AmprTrigger => assert Held(e) == Data(Due(e, now));
    case NoTrigger =>
      var live := s.timers[e.Key()].live;
      assert live[|live| - 1] == e.deadline;
      assert e.pending == [] && Data([e.event]) == [e.event.data];
    case _ => assert e.pending == [] && Data([e.event]) == [e.event.data];
  }

  /** A collection of a reachable queue that returns fewer events than asked for has handed out all that every
      event owed; timers that were due are gone, and nothing else is. */
  lemma {:induction false} CollectionComplete(states: seq<System>, calls: seq<Call>, i: nat, j: nat, num: nat, now: nat)
    requires Run(states, calls) && i < |states| && now >= states[i].clock && j < |states[i].events|
    requires |Collect(Expire(states[i].events, now), num).1| < num
    ensures var s, e, r := states[i], states[i].events[j], Collect(Expire(states[i].events, now), num);
      && Owed(s, e, now, DataFor(r.1, e.Key()))
      && (HasKey(r.0, e.Key()) <==> !(e.trigger == NoTrigger && TimerDue(e, now)))
  {
    hide Inv, AllShape, Backlog, Collect, Expire, Step, Allowed, Owed, Due, DataFor, Data, UniqueKeys, HasKey, Shape,
      ExpireOne;
    InvRun(states, calls, i);
    var s := states[i];
    var e, k := s.events[j], s.events[j].Key();
    CollectionExact(states, calls, i, num, now);
    ShapesExpired(s, now);
    InvKeys(s, j);
    BacklogFor(s.events, now, j);
    DueIsOwed(s, e, now);
    KeysExpired(s, now, j);
    if k.1 == EVFILT_HRTIMER {
      CollectTimer(Expire(s.events, now), num, k);
      TimerData(s, e, now);
    } else {
      CollectStays(Expire(s.events, now), num, k);
      OkShape(s, e);
      ShapeFilter(e);
    }
  }

  lemma InvKeys(s: System, j: nat)
    requires Inv(s) && j < |s.events|
    ensures UniqueKeys(s.events) && EventOk(s, s.events[j])
  {}

  lemma {:induction false} KeysExpired(s: System, now: nat, j: nat)
    requires UniqueKeys(s.events) && j < |s.events|
    ensures UniqueKeys(Expire(s.events, now)) && HasKey(Expire(s.events, now), s.events[j].Key())
  {
    hide ExpireOne;
    var es := Expire(s.events, now);
    forall i | 0 <= i < |es| ensures es[i].Key() == s.events[i].Key() { ExpireKey(s.events[i], now); }
  }

  lemma {:induction false} TimerData(s: System, e: QEvent, now: nat)
    requires EventOk(s, e) && e.Key().1 == EVFILT_HRTIMER
    ensures e.trigger == NoTrigger && |Data(Due(e, now))| == if TimerDue(e, now) then 1 else 0
  {
    hide BitOf;
    OkShape(s, e);
    ShapeFilter(e);
    DataLength(Due(e, now));
  }

  /** Nothing but timers leaves the queue. */
  lemma {:induction false} CollectStays(events: seq<QEvent>, room: nat, k: Key)
    requires AllShape(events) && k.1 != EVFILT_HRTIMER
    ensures HasKey(Collect(events, room).0, k) <==> HasKey(events, k)
  {
    hide Shape, Drain, HasKey;
    if events != [] && room > 0 {
      var d := Drain(events[0], room);
      var kept := if d.2 then [] else [d.0];
      TailShape(events);
      HeadKey(events, k);
      CollectStays(events[1..], room - |d.1|, k);
      HasKeyConcat(kept, Collect(events[1..], room - |d.1|).0, k);
      StaysIn(events[0], room, k);
    }
  }

  lemma {:induction false} StaysIn(e: QEvent, room: nat, k: Key)
    requires Shape(e) && k.1 != EVFILT_HRTIMER
    ensures var d := Drain(e, room); HasKey(if d.2 then [] else [d.0], k) <==> e.Key() == k
  {
    hide Drain;
    if e.trigger == AmprTrigger {
      DrainAmpr(e, room);
    } else {
      DrainSingle(e, room);
    }
    assert !Drain(e, room).2 ==> [Drain(e, room).0][0].Key() == e.Key();
  }

  // ----- the other calls -----

  /** What a trigger adds: a user or file event owes one event with the new data (and user events carry it as their
      user data too), an AMPR event one more. */
  lemma {:induction false} TriggerAdds(e: QEvent, data: int)
    requires Shape(e) && e.trigger != NoTrigger
    ensures Due(Triggered(e, data), 0) ==
      match e.trigger
      case AmprTrigger => Due(e, 0) + [e.event.(data := data)]
      case UserTrigger => [e.event.(data := data, udata := data)]
      case _ => [e.event.(data := data)]
  {
    hide BitOf;
  }

  function WithUdata(out: seq<KEvent>, udata: int): seq<KEvent> {
    if out == [] then [] else [out[0].(udata := udata)] + WithUdata(out[1..], udata)
  }

  lemma {:induction false} SetUdataIs(pending: seq<KEvent>, udata: int)
    ensures WithUdata(pending, udata) == SetUdata(pending, udata)
  {
    if pending != [] {
      SetUdataIs(pending[1..], udata);
      assert SetUdata(pending, udata)[1..] == SetUdata(pending[1..], udata);
    }
  }

  /** Registering a known event again changes the user data of all it owes, and its deadline. */
  lemma {:induction false} ReregisterOwes(e: QEvent, n: QEvent)
    requires Shape(e)
    ensures Due(Reregister(e, n), 0) == WithUdata(Due(e, 0), n.event.udata)
    ensures Reregister(e, n).deadline == n.deadline
  {
    hide BitOf;
    SetUdataIs(e.pending, n.event.udata);
    assert e.triggered ==> Due(e, 0)[1..] == e.pending;
  }

  /** Which keys the other calls leave registered. */
  lemma {:induction false} KeysAfter(events: seq<QEvent>, n: QEvent, k: Key, data: int, l: Key)
    ensures HasKey(Add(events, n), l) <==> HasKey(events, l) || l == n.Key()
    ensures HasKey(Trigger(events, k, data), l) <==> HasKey(events, l)
    ensures UniqueKeys(events) ==> (HasKey(Delete(events, k), l) <==> HasKey(events, l) && l != k)
  {
    hide HasKey, UniqueKeys;
    var i := Find(events, n.Key());
    if i < |events| {
      UpdateKeys(events, i, Reregister(events[i], n), l);
    } else {
      HasKeyConcat(events, [n], l);
      OneKey(n, l);
    }
    var m := Find(events, k);
    if m < |events| {
      UpdateKeys(events, m, Triggered(events[m], data), l);
      KeysAround(events, m, l);
    }
  }

  lemma OneKey(e: QEvent, l: Key)
    ensures HasKey([e], l) <==> e.Key() == l
  {
    assert [e][0].Key() == l || e.Key() != l;
  }

  lemma {:induction false} KeysAround(events: seq<QEvent>, m: nat, l: Key)
    requires m < |events|
    ensures HasKey(events, l) <==> HasKey(events[..m] + events[m + 1..], l) || l == events[m].Key()
    ensures UniqueKeys(events) ==> !HasKey(events[..m] + events[m + 1..], events[m].Key())
  {
    var rest := events[..m] + events[m + 1..];
    if HasKey(events, l) && l != events[m].Key() {
      var j :| 0 <= j < |events| && events[j].Key() == l;
      assert rest[if j < m then j else j - 1].Key() == l;
    }
  }
}
