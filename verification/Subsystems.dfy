/** Dependency-ordered start-up and shutdown (`subsystems.cpp`). */
module Subsystems {

  type Name = string

  // ----- the order of start-up, on values -----

  /** A registered subsystem. */
  datatype Entry = Entry(name: Name, deps: seq<Name>)

  /** All dependencies of `e` are among `started`. */
  predicate Ready(e: Entry, started: set<Name>) {
    forall d :: d in e.deps ==> d in started
  }

  /** Nothing that is not started could be. */
  predicate NoneReady(reg: seq<Entry>, started: set<Name>) {
    forall e :: e in reg && e.name !in started ==> !Ready(e, started)
  }

  /** Every subsystem comes after its dependencies. */
  predicate InOrder(order: seq<Entry>) {
    forall k :: 0 <= k < |order| ==> Ready(order[k], Names(order[..k]))
  }

  function Names(order: seq<Entry>): set<Name> {
    set e | e in order :: e.name
  }

  predicate Registered(reg: seq<Entry>, name: Name) {
    exists f :: f in reg && f.name == name
  }

  /** Dependencies are registered and form no cycle: `rank` falls along them. */
  predicate ClosedAcyclic(reg: seq<Entry>, rank: map<Name, nat>) {
    forall e, d :: e in reg && d in e.deps ==>
      Registered(reg, d) && e.name in rank && d in rank && rank[d] < rank[e.name]
  }

  /** In every set with nothing left to start, hence in the least one: a missing or circular dependency keeps a
      subsystem out of it. */
  ghost predicate Reachable(reg: seq<Entry>, name: Name) {
    forall names :: NoneReady(reg, names) ==> name in names
  }

  ghost function Find(reg: seq<Entry>, name: Name): (f: Entry)
    requires Registered(reg, name)
    ensures f in reg && f.name == name
  {
    var f :| f in reg && f.name == name;
    f
  }

  /** When nothing more can be started, an acyclic system without missing dependencies is fully started. */
  lemma {:induction false} FullyStarted(reg: seq<Entry>, started: set<Name>, rank: map<Name, nat>, e: Entry)
    requires NoneReady(reg, started) && ClosedAcyclic(reg, rank) && e in reg
    ensures e.name in started
    decreases if e.name in rank then rank[e.name] else 0
  {
    hide Registered;
    if e.name !in started {
      var d :| d in e.deps && d !in started;
      var f := Find(reg, d);
      FullyStarted(reg, started, rank, f);
    }
  }

  /** So in such a system everything is reachable. */
  lemma AcyclicIsReachable(reg: seq<Entry>, rank: map<Name, nat>, e: Entry)
    requires ClosedAcyclic(reg, rank) && e in reg
    ensures Reachable(reg, e.name)
  {
    hide NoneReady, ClosedAcyclic;
    forall names | NoneReady(reg, names) ensures e.name in names {
      FullyStarted(reg, names, rank, e);
    }
  }

  /** What was started had to be: any set that contains what was started before and whatever its members
      make ready contains all of `order`. With NoneReady, start-up reaches exactly the least such set. */
  lemma {:induction false} OnlyStartable(order: seq<Entry>, before: nat, reg: seq<Entry>, closed: set<Name>, k: nat)
    requires InOrder(order) && before <= |order| && (forall e :: e in order ==> e in reg)
    requires forall i :: 0 <= i < before ==> order[i].name in closed
    requires NoneReady(reg, closed)
    requires k < |order|
    ensures order[k].name in closed
  {
    if k >= before {
      forall d | d in order[k].deps ensures d in closed {
        var e :| e in order[..k] && e.name == d;
        var i :| 0 <= i < k && order[i] == e;
        OnlyStartable(order, before, reg, closed, i);
      }
      assert Ready(order[k], closed);
    }
  }

  // ----- the calls made to the subsystems -----

  datatype Event = Init(name: Name) | Destroy(name: Name)

  /** The subsystems up after the calls in `log`, oldest first, if the log destroys them in exact reverse order
      of their start; a call to Init that failed is not in the log. */
  datatype Up = Up(names: seq<Name>) | OutOfOrder

  function Replay(log: seq<Event>): Up {
    if log == [] then Up([])
    else
      var u := Replay(log[..|log| - 1]);
      if u.OutOfOrder? then u
      else
        match log[|log| - 1]
        case Init(n) => Up(u.names + [n])
        case Destroy(n) =>
          if u.names != [] && u.names[|u.names| - 1] == n then Up(u.names[..|u.names| - 1]) else OutOfOrder
  }

  lemma ReplayInit(log: seq<Event>, n: Name)
    requires Replay(log).Up?
    ensures Replay(log + [Init(n)]) == Up(Replay(log).names + [n])
  {
    assert (log + [Init(n)])[..|log|] == log;
  }

  lemma ReplayDestroy(log: seq<Event>, n: Name)
    requires Replay(log).Up? && Replay(log).names != [] && Replay(log).names[|Replay(log).names| - 1] == n
    ensures Replay(log + [Destroy(n)]) == Up(Replay(log).names[..|Replay(log).names| - 1])
  {
    assert (log + [Destroy(n)])[..|log|] == log;
  }

  /** The calls that take down subsystems started in the order `names`. */
  function TakeDown(names: seq<Name>): seq<Event> {
    if names == [] then [] else [Destroy(names[|names| - 1])] + TakeDown(names[..|names| - 1])
  }

  // ----- the list -----

  class Node {
    const name: Name
    const next: Node?
    const deps: seq<Name>
    var prevInit: Node?
    var initialized: bool
    /** Set by a failing Init and never reset. */
    var failed: bool

    /** How many nodes were registered before this one, and how many were up when it was started. */
    ghost const pos: nat
    ghost var level: nat

    constructor (n: Name, nx: Node?, d: seq<Name>, ghost p: nat)
      ensures name == n && next == nx && deps == d && prevInit == null && !initialized && !failed && pos == p
    {
      name, next, deps, prevInit, initialized, failed, pos := n, nx, d, null, false, false, p;
    }
  }

  ghost function EntryOf(n: Node): Entry {
    Entry(n.name, n.deps)
  }

  ghost function Entries(ns: seq<Node>): (r: seq<Entry>)
    ensures |r| == |ns| && forall i :: 0 <= i < |ns| ==> r[i] == EntryOf(ns[i])
  {
    if ns == [] then [] else Entries(ns[..|ns| - 1]) + [EntryOf(ns[|ns| - 1])]
  }

  class SubsystemsList {
    var list: Node?
    var lastInit: Node?
    var failName: Name
    /** The outcome of the calls of Init: does the call with this number fail? */
    const initFails: (Name, nat) -> bool
    var calls: nat

    /** Registered nodes and nodes that are up, oldest first, and the calls made to them. */
    ghost var repr: set<Node>
    ghost var nodes: seq<Node>
    ghost var stack: seq<Node>
    ghost var log: seq<Event>

    ghost predicate Linked()
      reads this`list, this`nodes, this`repr
    {
      && list == (if nodes == [] then null else nodes[|nodes| - 1])
      && (forall i :: 0 <= i < |nodes| ==> nodes[i] in repr && nodes[i].pos == i)
      && (forall i {:trigger nodes[i].next} :: 0 <= i < |nodes| ==>
            nodes[i].next == if i == 0 then null else nodes[i - 1])
      && (forall n :: n in repr ==> n.pos < |nodes| && nodes[n.pos] == n)
    }

    ghost predicate DistinctNames()
      reads this`nodes
    {
      forall i, j :: 0 <= i < j < |nodes| ==> nodes[i].name != nodes[j].name
    }

    ghost predicate Up(n: Node)
      reads this`stack, n`level
    {
      n.level < |stack| && stack[n.level] == n
    }

    /** The nodes that are up are chained from the last one started to the first. */
    ghost predicate Chained()
      reads this`lastInit, this`stack, stack`prevInit
    {
      && lastInit == (if stack == [] then null else stack[|stack| - 1])
      && (forall k {:trigger stack[k].prevInit} :: 0 <= k < |stack| ==>
            stack[k].prevInit == if k == 0 then null else stack[k - 1])
    }

    ghost predicate Levels()
      reads this`repr, this`stack, stack`level
    {
      forall k :: 0 <= k < |stack| ==> stack[k] in repr && stack[k].level == k
    }

    /** The nodes below level `i` are up, and no others. */
    ghost predicate UpBelow(i: nat)
      reads this`repr, this`stack, repr`initialized, repr`level
    {
      forall n :: n in repr ==> (n.initialized <==> Up(n) && n.level < i)
    }

    ghost predicate Stacked()
      reads this`repr, this`stack, repr`initialized, repr`level, stack`level
    {
      Levels() && UpBelow(|stack|)
    }

    /** What is up came up after its dependencies, and the calls so far leave exactly this up. */
    ghost predicate Ordered()
      reads this`stack, this`log
    {
      && InOrder(Entries(stack))
      && Replay(log).Up? && Replay(log).names == StackNames(stack)
    }

    ghost predicate Valid()
      reads this, repr, stack
    {
      Linked() && DistinctNames() && Chained() && Stacked() && Ordered()
    }

    /** The names of the subsystems that are up. */
    ghost function Started(): set<Name>
      reads this`stack
    {
      Names(Entries(stack))
    }

    constructor (outcome: (Name, nat) -> bool)
      ensures Valid() && nodes == [] && stack == [] && log == [] && repr == {} && calls == 0 && initFails == outcome
    {
      list, lastInit, initFails, calls, failName := null, null, outcome, 0, "";
      nodes, stack, log, repr := [], [], [], {};
    }

    /** strcmp over the list. */
    method FindByName(name: Name) returns (n: Node?)
      requires Linked()
      ensures n != null ==> n in repr && n.name == name
      ensures n == null ==> forall i :: 0 <= i < |nodes| ==> nodes[i].name != name
    {
      n := list;
      ghost var i := |nodes|;
      while n != null
        invariant 0 <= i <= |nodes| && n == (if i == 0 then null else nodes[i - 1])
        invariant forall j :: i <= j < |nodes| ==> nodes[j].name != name
        decreases i
      {
        if n.name == name {
          return n;
        }
        n := n.next;
        i := i - 1;
      }
    }

    /** The list of dependency names, built by pushing in front. */
    static method DepsList(deps: seq<Name>) returns (d: seq<Name>)
      ensures forall x :: x in d <==> x in deps
    {
      d := [];
      var i := 0;
      while i < |deps|
        invariant i <= |deps| && forall x :: x in d <==> x in deps[..i]
      {
        d := [deps[i]] + d;
        i := i + 1;
      }
      assert deps[..|deps|] == deps;
    }

    /** Registers a subsystem; the program exits if the name is taken. */
    method Add(name: Name, deps: seq<Name>)
      requires Valid() && forall i :: 0 <= i < |nodes| ==> nodes[i].name != name
      modifies this`list, this`nodes, this`repr
      ensures Valid() && |nodes| == |old(nodes)| + 1 && nodes[..|old(nodes)|] == old(nodes)
      ensures var n := nodes[|old(nodes)|];
        fresh(n) && n.name == name && !n.initialized && !n.failed && forall d :: d in n.deps <==> d in deps
      ensures repr == old(repr) + {nodes[|old(nodes)|]}
    {
      hide Entries, InOrder, Replay, StackNames, SubsystemsList.Chained, SubsystemsList.Ordered;
      var d := DepsList(deps);
      var node := new Node(name, list, d, |nodes|);
      list := node;
      nodes := nodes + [node];
      repr := repr + {node};
      assert Linked() by { hide SubsystemsList.DistinctNames, SubsystemsList.Levels, SubsystemsList.UpBelow; }
      assert DistinctNames() by { hide SubsystemsList.Linked, SubsystemsList.Levels, SubsystemsList.UpBelow; }
      assert Levels() by { hide SubsystemsList.Linked, SubsystemsList.DistinctNames, SubsystemsList.UpBelow; }
      forall m | m in repr ensures m.initialized <==> Up(m) && m.level < |stack| {
        hide SubsystemsList.Linked, SubsystemsList.DistinctNames;
        assert m != node ==> (m.initialized <==> old(Up(m) && m.level < |stack|));
      }
      hide SubsystemsList.Linked, SubsystemsList.DistinctNames, SubsystemsList.Stacked;
    }

    lemma StartedIff(d: Name)
      ensures d in Started() <==> exists k :: 0 <= k < |stack| && stack[k].name == d
    {
      var es := Entries(stack);
      if d in Started() {
        var e :| e in es && e.name == d;
        var k :| 0 <= k < |es| && es[k] == e;
        assert stack[k].name == d;
      }
      if k :| 0 <= k < |stack| && stack[k].name == d {
        assert es[k] in es && es[k].name == d;
      }
    }

    /** A registered name is started exactly if its node is. */
    lemma NodeStarted(n: Node)
      requires Linked() && DistinctNames() && Stacked() && n in repr
      ensures n.name in Started() <==> n.initialized
    {
      hide SubsystemsList.Started;
      forall k | 0 <= k < |stack| && stack[k].name == n.name ensures stack[k] == n {
        assert nodes[stack[k].pos].name == nodes[n.pos].name;
      }
      assert n.initialized ==> stack[n.level].name == n.name;
      StartedIff(n.name);
    }

    lemma NoNode(d: Name)
      requires Linked() && Stacked() && forall i :: 0 <= i < |nodes| ==> nodes[i].name != d
      ensures d !in Started()
    {
      hide SubsystemsList.Started;
      forall k | 0 <= k < |stack| ensures stack[k].name != d {
        assert nodes[stack[k].pos] == stack[k];
      }
      StartedIff(d);
    }

    /** Are all dependencies of `n` started? */
    method DepsStarted(n: Node) returns (yes: bool)
      requires Linked() && DistinctNames() && Stacked()
      ensures yes == Ready(EntryOf(n), Started())
    {
      hide SubsystemsList.Started;
      var d := 0;
      while d < |n.deps|
        invariant d <= |n.deps| && forall e :: 0 <= e < d ==> n.deps[e] in Started()
      {
        var s := FindByName(n.deps[d]);
        if s == null {
          NoNode(n.deps[d]);
          return false;
        }
        NodeStarted(s);
        if !s.initialized {
          return false;
        }
        d := d + 1;
      }
      return true;
    }

    /** No node registered after `n` could be started when the nodes in `up` are up. */
    ghost predicate Newest(n: Node, up: seq<Node>)
      reads this`nodes
    {
      forall j :: n.pos < j < |nodes| && nodes[j] !in up ==> !Ready(EntryOf(nodes[j]), Names(Entries(up)))
    }

    /** The newest node that is not started and has all its dependencies started. */
    method FindNextToInitialize() returns (n: Node?)
      requires Valid()
      ensures n != null ==> n in repr && !n.initialized && Ready(EntryOf(n), Started()) && Newest(n, stack)
      ensures n == null ==> NoneReady(Entries(nodes), Started())
    {
      hide Ready, Names, Entries, InOrder, Replay, StackNames, SubsystemsList.Chained, SubsystemsList.Ordered;
      n := list;
      ghost var i := |nodes|;
      while n != null
        invariant 0 <= i <= |nodes| && n == (if i == 0 then null else nodes[i - 1])
        invariant forall j :: i <= j < |nodes| && !nodes[j].initialized ==> !Ready(EntryOf(nodes[j]), Started())
        decreases i
      {
        if !n.initialized {
          var yes := DepsStarted(n);
          if yes {
            return n;
          }
        }
        n := n.next;
        i := i - 1;
      }
      NothingReady();
    }

    /** After a search in vain. */
    lemma NothingReady()
      requires Linked() && DistinctNames() && Stacked()
      requires forall j :: 0 <= j < |nodes| && !nodes[j].initialized ==> !Ready(EntryOf(nodes[j]), Started())
      ensures NoneReady(Entries(nodes), Started())
    {
      hide SubsystemsList.Started, Ready;
      var es := Entries(nodes);
      forall e | e in es && e.name !in Started() ensures !Ready(e, Started()) {
        var j :| 0 <= j < |es| && es[j] == e;
        NodeStarted(nodes[j]);
      }
    }

    /** `n` has been started on top of what is up. */
    method Push(n: Node)
      requires Valid() && n in repr && !n.initialized && Ready(EntryOf(n), Started())
      modifies this`lastInit, this`stack, this`log, n`initialized, n`prevInit, n`level
      ensures Valid() && n.initialized && stack == old(stack) + [n] && log == old(log) + [Init(n.name)]
    {
      hide InOrder, Ready, Replay, Entries, StackNames, SubsystemsList.Linked, SubsystemsList.DistinctNames;
      NotOnStack(n);
      n.initialized := true;
      var last := lastInit;
      lastInit := n;
      n.prevInit := last;
      Pushed(stack, n);
      ReplayInit(log, n.name);
      n.level := |stack|;
      log := log + [Init(n.name)];
      stack := stack + [n];
      assert Chained() by { hide SubsystemsList.Levels, SubsystemsList.UpBelow, SubsystemsList.Ordered; }
      assert Levels() by { hide SubsystemsList.Chained, SubsystemsList.UpBelow, SubsystemsList.Ordered; }
      forall m | m in repr ensures m.initialized <==> Up(m) && m.level < |stack| {
        hide SubsystemsList.Chained, SubsystemsList.Levels, SubsystemsList.Ordered;
        assert m != n ==> (m.initialized <==> old(Up(m) && m.level < |stack|));
      }
      assert Ordered() by { hide SubsystemsList.Chained, SubsystemsList.Levels, SubsystemsList.UpBelow; }
      hide SubsystemsList.Chained, SubsystemsList.Stacked, SubsystemsList.Ordered;
    }

    lemma NotOnStack(n: Node)
      requires Stacked() && n in repr && !n.initialized
      ensures forall k :: 0 <= k < |stack| ==> stack[k] != n
    {}

    /** Calls Init of `n`, which succeeds unless it fails now or has failed once before. */
    method Start(n: Node) returns (ok: bool)
      requires Valid() && n in repr && !n.initialized && Ready(EntryOf(n), Started())
      modifies this`lastInit, this`calls, this`failName, this`stack, this`log,
        n`initialized, n`prevInit, n`level, n`failed
      ensures Valid() && calls == old(calls) + 1
      ensures ok <==> !old(n.failed) && !initFails(n.name, calls)
      ensures n.failed == !ok && n.initialized == ok
      ensures Failed() == (if ok then old(Failed()) else old(Failed()) + {n})
      ensures Waiting() == (if ok then old(Waiting()) - {n} else old(Waiting()))
      ensures ok ==> stack == old(stack) + [n] && log == old(log) + [Init(n.name)] && failName == old(failName)
      ensures !ok ==> failName == n.name && stack == old(stack) && log == old(log)
      ensures !ok ==> Ready(EntryOf(n), Started())
    {
      hide InOrder, Replay, Entries, StackNames, Ready, SubsystemsList.Started, SubsystemsList.Linked,
        SubsystemsList.DistinctNames, SubsystemsList.Chained, SubsystemsList.Stacked, SubsystemsList.Ordered;
      calls := calls + 1;
      if initFails(n.name, calls) {
        n.failed := true;
      }
      if n.failed {
        failName := n.name;
        return false;
      }
      Push(n);
      return true;
    }

    /** The node that stopped a start: ready, and its Init failed now or its flag was set before. */
    ghost predicate Culprit(n: Node, failedBefore: set<Node>)
      reads this`repr, this`stack, this`calls, this`failName, repr`initialized
    {
      && n in repr && !n.initialized && Ready(EntryOf(n), Started()) && n.name == failName
      && (n in failedBefore || initFails(n.name, calls))
    }

    /** The nodes from level `before` on had never failed, the calls of their Init did not fail, and each was
        the newest that could be started. */
    ghost predicate Succeeded(before: nat, was: nat, failedBefore: set<Node>)
      requires before <= |stack|
      reads this`stack, this`nodes
    {
      forall k {:trigger stack[k]} :: before <= k < |stack| ==>
        && stack[k] !in failedBefore && !initFails(stack[k].name, was + 1 + (k - before))
        && Newest(stack[k], stack[..k])
    }

    /** From call number `was` on no Init fails. */
    ghost predicate NoMoreFailures(was: nat)
      reads this`repr
    {
      forall n, c {:trigger initFails(n.name, c)} :: n in repr && c > was ==> !initFails(n.name, c)
    }

    /** What the result of a start means, given the state it leaves: `up` were up before it. */
    lemma Outcome(ok: bool, up: seq<Node>, was: nat, failedBefore: set<Node>)
      requires Valid() && |up| <= |stack| && stack[..|up|] == up && calls == was + |stack| - |up| + if ok then 0 else 1
      requires Succeeded(|up|, was, failedBefore)
      requires if ok then NoneReady(Entries(nodes), Started()) else exists n :: Culprit(n, failedBefore)
      ensures ok <==> forall n :: n in repr && Reachable(Entries(nodes), n.name) ==> n.initialized
      ensures NoMoreFailures(was) ==>
        (ok <==> forall n :: n in repr && Reachable(Entries(nodes), n.name) && n in failedBefore ==> n in up)
    {
      hide InOrder, Replay, Entries, StackNames, NoneReady, Reachable, Ready, SubsystemsList.Started,
        SubsystemsList.Linked, SubsystemsList.DistinctNames, SubsystemsList.Chained, SubsystemsList.Ordered,
        SubsystemsList.Newest;
      if ok {
        forall n | n in repr && Reachable(Entries(nodes), n.name)
          ensures n.initialized && (n in failedBefore ==> n in up)
        {
          ReachableIsUp(n);
          assert stack[n.level] == n;
          assert n.level < |up| ==> up[n.level] == n;
        }
      } else {
        var n :| Culprit(n, failedBefore);
        ReadyIsReachable(n);
        assert n !in up by { NotOnStack(n); }
      }
    }

    lemma ReachableIsUp(n: Node)
      requires Valid() && n in repr && NoneReady(Entries(nodes), Started()) && Reachable(Entries(nodes), n.name)
      ensures n.initialized
    {
      hide Ready, SubsystemsList.Started, SubsystemsList.Ordered, SubsystemsList.Chained;
      NodeStarted(n);
    }

    /** A node that can be started, and nothing else, extends what is reachable. */
    lemma ReadyIsReachable(n: Node)
      requires Valid() && n in repr && Ready(EntryOf(n), Started())
      ensures Reachable(Entries(nodes), n.name)
    {
      hide InOrder, SubsystemsList.Ordered, SubsystemsList.Chained, SubsystemsList.DistinctNames;
      forall names | NoneReady(Entries(nodes), names) ensures n.name in names {
        forall d | d in n.deps ensures d in names {
          StartedIff(d);
          var k :| 0 <= k < |stack| && stack[k].name == d;
          StackInitialized(k);
          OnlyWhatIsReachable(names, stack[k]);
        }
        assert Entries(nodes)[n.pos] == EntryOf(n);
      }
    }

    lemma StackInitialized(k: nat)
      requires Stacked() && k < |stack|
      ensures stack[k] in repr && stack[k].initialized
    {}

    ghost function Failed(): set<Node>
      reads this`repr, repr`failed
    {
      set n | n in repr && n.failed
    }

    ghost function Waiting(): set<Node>
      reads this`repr, repr`initialized
    {
      set n | n in repr && !n.initialized
    }

    /** What has happened since a start with `up` on the stack, and this log, call number and flags. */
    ghost predicate Since(up: seq<Node>, calledBefore: seq<Event>, was: nat, failedBefore: set<Node>)
      reads this`repr, this`nodes, this`stack, this`log, this`calls, repr`failed
    {
      && |up| <= |stack| && stack[..|up|] == up
      && log == calledBefore + StartUp(StackNames(stack[|up|..]))
      && calls == was + |stack| - |up| && Failed() == failedBefore
      && Succeeded(|up|, was, failedBefore)
    }

    lemma SinceNow()
      ensures Since(stack, log, calls, Failed())
    {
      StartsNothing(stack);
    }

    /** One turn of the loop of InitAll. */
    method StartNext(n: Node, ghost up: seq<Node>, ghost calledBefore: seq<Event>, ghost was: nat,
                     ghost failedBefore: set<Node>) returns (ok: bool)
      requires Valid() && n in repr && !n.initialized && Ready(EntryOf(n), Started()) && Newest(n, stack)
      requires Since(up, calledBefore, was, failedBefore)
      modifies this`lastInit, this`calls, this`failName, this`stack, this`log,
        n`initialized, n`prevInit, n`level, n`failed
      ensures Valid()
      ensures ok ==> Since(up, calledBefore, was, failedBefore) && Waiting() < old(Waiting())
      ensures !ok ==> |up| <= |stack| && stack[..|up|] == up && Succeeded(|up|, was, failedBefore)
      ensures !ok ==> log == calledBefore + StartUp(StackNames(stack[|up|..])) && calls == was + |stack| - |up| + 1
      ensures !ok ==> Culprit(n, failedBefore) && Failed() == failedBefore + {n}
    {
      hide InOrder, Replay, Entries, StackNames, StartUp, Ready, SubsystemsList.Started, SubsystemsList.Valid,
        SubsystemsList.Newest;
      StartsOne(stack, n, |up|);
      ok := Start(n);
    }

    /** Starts everything that can be started, until nothing is left or an Init fails. */
    method InitAll() returns (ok: bool)
      requires Valid()
      modifies this`lastInit, this`calls, this`failName, this`stack, this`log,
        repr`initialized, repr`prevInit, repr`failed, repr`level
      ensures Valid() && |old(stack)| <= |stack| && stack[..|old(stack)|] == old(stack)
      ensures log == old(log) + StartUp(StackNames(stack[|old(stack)|..]))
      ensures calls == old(calls) + |stack| - |old(stack)| + if ok then 0 else 1
      ensures Succeeded(|old(stack)|, old(calls), old(Failed()))
      ensures ok ==> NoneReady(Entries(nodes), Started()) && Failed() == old(Failed())
      ensures !ok ==> exists n :: Culprit(n, old(Failed())) && Failed() == old(Failed()) + {n}
      ensures ok <==> forall n :: n in repr && Reachable(Entries(nodes), n.name) ==> n.initialized
      ensures NoMoreFailures(old(calls)) ==>
        (ok <==> forall n :: n in repr && Reachable(Entries(nodes), n.name) && n in old(Failed()) ==> n in old(stack))
    {
      hide InOrder, Replay, Entries, StackNames, StartUp, Reachable, NoneReady, SubsystemsList.NoMoreFailures,
        Ready, SubsystemsList.Started, SubsystemsList.Valid,
        SubsystemsList.Succeeded, SubsystemsList.Culprit, SubsystemsList.Failed, SubsystemsList.Waiting;
      SinceNow();
      var n := FindNextToInitialize();
      while n != null
        invariant Valid() && Since(old(stack), old(log), old(calls), old(Failed()))
        invariant n != null ==> n in repr && !n.initialized && Ready(EntryOf(n), Started()) && Newest(n, stack)
        invariant n == null ==> NoneReady(Entries(nodes), Started())
        decreases Waiting()
      {
        var fine := StartNext(n, old(stack), old(log), old(calls), old(Failed()));
        if !fine {
          Outcome(false, old(stack), old(calls), old(Failed()));
          return false;
        }
        n := FindNextToInitialize();
      }
      Outcome(true, old(stack), old(calls), old(Failed()));
      ok := true;
    }

    lemma Below(i: nat)
      requires Chained() && Levels() && i <= |stack|
      ensures i > 0 ==>
        stack[i - 1] in repr && stack[i - 1].level == i - 1
        && stack[i - 1].prevInit == if i == 1 then null else stack[i - 2]
      ensures i == |stack| ==> lastInit == if i == 0 then null else stack[i - 1]
    {}

    method Take(n: Node, ghost i: nat)
      requires n in repr && 0 < i <= |stack| && n == stack[i - 1] && n.level == i - 1 && UpBelow(i)
      modifies this`log, n`initialized
      ensures log == old(log) + [Destroy(n.name)] && UpBelow(i - 1)
    {
      log := log + [Destroy(n.name)];
      n.initialized := false;
    }

    /** When nothing is ready any more, an acyclic list without missing dependencies is all up. */
    lemma AllInitialized(rank: map<Name, nat>)
      requires Valid() && NoneReady(Entries(nodes), Started()) && ClosedAcyclic(Entries(nodes), rank)
      ensures forall n :: n in repr ==> n.initialized
    {
      hide NoneReady, ClosedAcyclic, SubsystemsList.Started, SubsystemsList.Ordered;
      forall n | n in repr ensures n.initialized {
        assert Entries(nodes)[n.pos] == EntryOf(n);
        FullyStarted(Entries(nodes), Started(), rank, EntryOf(n));
        NodeStarted(n);
      }
    }

    /** Whatever is up had to be: it lies in every set of names that contains what its members make ready. */
    lemma OnlyWhatIsReachable(closed: set<Name>, n: Node)
      requires Valid() && n in repr && n.initialized
      requires NoneReady(Entries(nodes), closed)
      ensures n.name in closed
    {
      hide InOrder, Ready;
      forall e | e in Entries(stack) ensures e in Entries(nodes) {
        var k :| 0 <= k < |stack| && Entries(stack)[k] == e;
        assert Entries(nodes)[stack[k].pos] == e;
      }
      OnlyStartable(Entries(stack), 0, Entries(nodes), closed, n.level);
    }

    /** Destroys everything that is up, in exact reverse order of its start. */
    method DestroyAll()
      requires Valid()
      modifies this`lastInit, this`stack, this`log, repr`initialized
      ensures Valid() && stack == [] && log == old(log) + TakeDown(StackNames(old(stack)))
      ensures forall n :: n in repr ==> !n.initialized
    {
      hide InOrder, Replay, Entries, StackNames, TakeDown, SubsystemsList.Linked, SubsystemsList.DistinctNames,
        SubsystemsList.Chained, SubsystemsList.Levels, SubsystemsList.UpBelow;
      var n := lastInit;
      ghost var names, i: nat := StackNames(stack), |stack|;
      ReplayTakeDown(log, names);
      assert names[..i] == names;
      Below(i);
      while n != null
        invariant stack == old(stack) && i <= |stack| && n == (if i == 0 then null else stack[i - 1])
        invariant Chained() && Levels() && UpBelow(i)
        invariant log + TakeDown(names[..i]) == old(log) + TakeDown(names)
        decreases i
      {
        TakeDownLast(names, i);
        Below(i);
        ghost var was := log;
        Take(n, i);
        assert log + TakeDown(names[..i - 1]) == was + TakeDown(names[..i]);
        n := n.prevInit;
        i := i - 1;
      }
      TakeDownNothing(log, names);
      lastInit := null;
      NoneUp();
      stack := [];
      NoOrder();
      Emptied();
    }

    lemma FirstCall(was: nat, failedBefore: set<Node>)
      requires Succeeded(0, was, failedBefore) && stack != []
      ensures !initFails(stack[0].name, was + 1)
    {}

    lemma SomeUp()
      requires Stacked() && stack != []
      ensures exists n :: n in repr && n.initialized
    {
      assert stack[0].initialized;
    }

    lemma NothingUp(n: Node)
      requires Stacked() && repr == {n} && !n.initialized
      ensures stack == []
    {
      hide SubsystemsList.Stacked;
      if stack != [] {
        SomeUp();
      }
    }

    lemma NoneUp()
      requires UpBelow(0)
      ensures forall n :: n in repr ==> !n.initialized
    {}

    lemma Emptied()
      requires stack == [] && lastInit == null && forall n :: n in repr ==> !n.initialized
      ensures Chained() && Stacked()
    {}
  }

  lemma TakeDownLast(names: seq<Name>, i: nat)
    requires 0 < i <= |names|
    ensures TakeDown(names[..i]) == [Destroy(names[i - 1])] + TakeDown(names[..i - 1])
  {
    assert names[..i][..i - 1] == names[..i - 1];
  }

  lemma TakeDownNothing(log: seq<Event>, names: seq<Name>)
    ensures log + TakeDown(names[..0]) == log
  {}

  lemma {:induction false} Pushed(s: seq<Node>, n: Node)
    requires InOrder(Entries(s)) && Ready(EntryOf(n), Names(Entries(s)))
    ensures InOrder(Entries(s + [n])) && StackNames(s + [n]) == StackNames(s) + [n.name]
  {
    hide Ready;
    var t := s + [n];
    assert t[..|s|] == s;
    assert Entries(t) == Entries(s) + [EntryOf(n)];
    forall k | 0 <= k < |t| ensures Ready(Entries(t)[k], Names(Entries(t)[..k])) {
      assert Entries(t)[..k] == Entries(s)[..k];
    }
  }

  lemma StartsNothing(s: seq<Node>)
    ensures s[..|s|] == s && StartUp(StackNames(s[|s|..])) == []
  {}

  lemma {:induction false} StartsOne(s: seq<Node>, n: Node, before: nat)
    requires before <= |s|
    ensures forall k :: 0 <= k <= |s| ==> (s + [n])[..k] == s[..k]
    ensures StartUp(StackNames((s + [n])[before..])) == StartUp(StackNames(s[before..])) + [Init(n.name)]
  {
    var u := s[before..];
    assert (s + [n])[before..] == u + [n];
    assert StackNames(u + [n]) == StackNames(u) + [n.name];
    assert (StackNames(u) + [n.name])[..|u|] == StackNames(u);
  }

  lemma NoOrder()
    ensures InOrder([])
  {}

  /** The calls that bring subsystems up. */
  function StartUp(names: seq<Name>): seq<Event> {
    if names == [] then [] else StartUp(names[..|names| - 1]) + [Init(names[|names| - 1])]
  }

  lemma {:induction false} ReplayTakeDown(log: seq<Event>, names: seq<Name>)
    requires Replay(log) == Up(names)
    ensures Replay(log + TakeDown(names)) == Up([])
    decreases |names|
  {
    hide Replay;
    if names == [] {
      assert log + TakeDown(names) == log;
    } else {
      var n := names[|names| - 1];
      ReplayDestroy(log, n);
      ReplayTakeDown(log + [Destroy(n)], names[..|names| - 1]);
      assert log + TakeDown(names) == log + [Destroy(n)] + TakeDown(names[..|names| - 1]);
    }
  }

  ghost function StackNames(s: seq<Node>): (r: seq<Name>)
    ensures |r| == |s| && forall i :: 0 <= i < |s| ==> r[i] == s[i].name
  {
    if s == [] then [] else StackNames(s[..|s| - 1]) + [s[|s| - 1].name]
  }

  lemma FreeIsReachable(reg: seq<Entry>, e: Entry)
    requires e in reg && forall d :: d !in e.deps
    ensures Reachable(reg, e.name)
  {}

  /** A subsystem whose first Init fails and whose later ones would not: starting again fails all the same. */
  method RetryFails() returns (first: bool, second: bool, calls: nat)
    ensures !first && !second && calls == 2
  {
    hide InOrder, Ready, Replay, NoneReady, StartUp, Entries, StackNames, SubsystemsList.Started,
      SubsystemsList.Linked, SubsystemsList.DistinctNames, SubsystemsList.Chained, SubsystemsList.Ordered,
      SubsystemsList.Newest;
    var l := new SubsystemsList((n, call) => call == 1);
    l.Add("audio", []);
    ghost var audio := l.nodes[0];
    assert l.nodes == [audio] && l.repr == {audio};
    FreeIsReachable(Entries(l.nodes), EntryOf(audio));
    first := l.InitAll();
    if first { l.FirstCall(0, {}); }
    l.NothingUp(audio);
    assert audio in l.Failed();
    second := l.InitAll();
    l.NothingUp(audio);
    calls := l.calls;
  }
}
