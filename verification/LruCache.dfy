/** The intrusive linked list of `LeastRecentlyUsedCache`: items in a deque, `next` and `prev` pointers
    rewritten in place, and a queue of ids to be used again. */
module LruCache {
  import opened LruList

  class Item<T(0)> {
    var value: T
    var tick: int
    var next: Item?<T>
    var prev: Item?<T>

    constructor ()
      ensures next == null && prev == null
    {
      tick, next, prev := 0, null, null;
    }
  }

  /** `nodes` is a doubly linked list: distinct items whose links lead to their neighbours. */
  ghost predicate Chained<T(0)>(nodes: seq<Item<T>>)
    reads nodes`next, nodes`prev
  {
    && (forall i, j :: 0 <= i < j < |nodes| ==> nodes[i] != nodes[j])
    && (forall i {:trigger nodes[i].prev} :: 1 <= i < |nodes| ==> nodes[i].prev == nodes[i - 1])
    && (forall i {:trigger nodes[i].next} :: 0 <= i < |nodes| - 1 ==> nodes[i].next == nodes[i + 1])
    && (|nodes| > 0 ==> nodes[0].prev == null && nodes[|nodes| - 1].next == null)
  }

  /** Distinct items; live and free ids are without repetition and partition all slots. */
  ghost predicate Partition<T(0)>(items: seq<Item<T>>, free: seq<nat>, chain: seq<nat>, nodes: seq<Item<T>>) {
    && (forall i, j :: 0 <= i < j < |items| ==> items[i] != items[j])
    && NoDup(chain) && NoDup(free)
    && |nodes| == |chain|
    && (forall p :: 0 <= p < |chain| ==> chain[p] < |items| && nodes[p] == items[chain[p]])
    && (forall p :: 0 <= p < |free| ==> free[p] < |items|)
    && (forall id: nat :: id < |items| ==> (id in chain <==> id !in free))
  }

  lemma PartitionFree<T(0)>(items: seq<Item<T>>, free: seq<nat>, chain: seq<nat>, nodes: seq<Item<T>>, k: nat)
    requires Partition(items, free, chain, nodes) && k < |chain|
    ensures Partition(items, free + [chain[k]], RemoveAt(chain, k), RemoveAt(nodes, k))
    ensures chain[k] !in RemoveAt(chain, k)
  {
    var c := RemoveAt(chain, k);
    assert chain[k] in chain;
    forall id: nat | id in chain && id != chain[k] ensures id in c {
      var p :| 0 <= p < |chain| && chain[p] == id;
      assert c[if p < k then p else p - 1] == id;
    }
    assert (free + [chain[k]])[|free|] == chain[k];
  }

  lemma PartitionMove<T(0)>(items: seq<Item<T>>, free: seq<nat>, chain: seq<nat>, nodes: seq<Item<T>>, k: nat)
    requires Partition(items, free, chain, nodes) && k < |chain|
    ensures Partition(items, free, RemoveAt(chain, k) + [chain[k]], RemoveAt(nodes, k) + [nodes[k]])
  {
    var c := RemoveAt(chain, k);
    forall id: nat | id in chain ensures id in c + [chain[k]] {
      var p :| 0 <= p < |chain| && chain[p] == id;
      if p == k {
        assert (c + [chain[k]])[|c|] == id;
      } else {
        assert (c + [chain[k]])[if p < k then p else p - 1] == id;
      }
    }
  }

  lemma PartitionReuse<T(0)>(items: seq<Item<T>>, free: seq<nat>, chain: seq<nat>, nodes: seq<Item<T>>)
    requires Partition(items, free, chain, nodes) && free != []
    ensures Partition(items, free[1..], chain + [free[0]], nodes + [items[free[0]]])
  {
    assert free[0] in free;
    assert (chain + [free[0]])[|chain|] == free[0];
    forall id: nat | id in free && id != free[0] ensures id in free[1..] {
      var p :| 0 <= p < |free| && free[p] == id;
      assert free[1..][p - 1] == id;
    }
  }

  lemma PartitionGrow<T(0)>(items: seq<Item<T>>, chain: seq<nat>, nodes: seq<Item<T>>, item: Item<T>)
    requires Partition(items, [], chain, nodes) && item !in items
    ensures Partition(items + [item], [], chain + [|items|], nodes + [item])
  {}

  /** Live slots hold the linked items, free slots do not. */
  lemma PartitionFacts<T(0)>(items: seq<Item<T>>, free: seq<nat>, chain: seq<nat>, nodes: seq<Item<T>>)
    requires Partition(items, free, chain, nodes)
    ensures |nodes| == |chain|
    ensures forall p :: 0 <= p < |chain| ==> chain[p] < |items| && nodes[p] == items[chain[p]]
    ensures forall p :: 0 <= p < |free| ==> free[p] < |items| && items[free[p]] !in nodes
  {
    forall p, q | 0 <= p < |free| && 0 <= q < |nodes| ensures items[free[p]] != nodes[q] {
      assert free[p] in free && chain[q] in chain;
    }
  }

  class Cache<T(0)> {
    var items: seq<Item<T>>
    var free: seq<nat>
    var first: Item?<T>
    var last: Item?<T>
    /** The live items from `first` to `last`, and their ids. */
    ghost var nodes: seq<Item<T>>
    ghost var chain: seq<nat>
    /** Every item ever made. */
    ghost var repr: set<Item<T>>

    ghost predicate Linked()
      reads this`first, this`last, this`nodes, nodes`next, nodes`prev
    {
      && Chained(nodes)
      && first == (if nodes == [] then null else nodes[0])
      && last == (if nodes == [] then null else nodes[|nodes| - 1])
    }

    ghost predicate Slots()
      reads this`items, this`free, this`chain, this`nodes, this`repr
    {
      && Partition(items, free, chain, nodes)
      && (forall id :: 0 <= id < |items| ==> items[id] in repr)
    }

    /** An item that is not in the list has no links. */
    ghost predicate RestUnlinked()
      reads this`nodes, this`repr, repr`next, repr`prev
    {
      forall o :: o in repr && o !in nodes ==> o.next == null && o.prev == null
    }

    ghost predicate Valid()
      reads this, repr`next, repr`prev, nodes`next, nodes`prev
    {
      Slots() && Linked() && RestUnlinked()
    }

    /** What the cache holds, oldest first. */
    ghost function Entries(): (l: seq<Entry<T>>)
      requires Slots()
      reads this`items, this`free, this`chain, this`nodes, this`repr, repr`value, repr`tick
      ensures |l| == |chain|
      ensures forall p :: 0 <= p < |l| ==> l[p] == Entry(chain[p], items[chain[p]].value, items[chain[p]].tick)
    {
      EntriesFrom(0)
    }

    ghost function EntriesFrom(p: nat): (l: seq<Entry<T>>)
      requires Slots() && p <= |chain|
      reads this`items, this`free, this`chain, this`nodes, this`repr, repr`value, repr`tick
      ensures |l| == |chain| - p
      ensures forall j :: 0 <= j < |l| ==>
        l[j] == Entry(chain[p + j], items[chain[p + j]].value, items[chain[p + j]].tick)
      decreases |chain| - p
    {
      if p == |chain| then []
      else [Entry(chain[p], items[chain[p]].value, items[chain[p]].tick)] + EntriesFrom(p + 1)
    }

    constructor ()
      ensures Valid() && Entries() == [] && items == [] && free == []
    {
      items, free, first, last, nodes, chain, repr := [], [], null, null, [], [], {};
    }

    /** Link an item behind the last one. An item attached to an empty list must come unlinked. */
    method Attach(item: Item<T>)
      requires Linked() && item !in nodes
      requires nodes == [] ==> item.next == null && item.prev == null
      requires item in repr && forall p :: 0 <= p < |nodes| ==> nodes[p] in repr
      modifies this`first, this`last, this`nodes, repr`next, repr`prev
      ensures nodes == old(nodes) + [item] && Linked()
      ensures forall o :: o in repr && o !in nodes ==> o.next == old(o.next) && o.prev == old(o.prev)
    {
      if first == null {
        first := item;
      }
      if last == null {
        last := item;
        nodes := nodes + [item];
        return;
      }
      item.prev := last;
      last.next := item;
      item.next := null;
      last := item;
      nodes := nodes + [item];
    }

    /** Unlink the item at position `k`; its own links stay as they are. */
    method Detach(item: Item<T>, ghost k: nat)
      requires Linked() && k < |nodes| && nodes[k] == item
      requires forall p :: 0 <= p < |nodes| ==> nodes[p] in repr
      modifies this`first, this`last, this`nodes, repr`next, repr`prev
      ensures nodes == RemoveAt(old(nodes), k) && Linked() && item !in nodes
      ensures forall o :: o in repr && o !in old(nodes) ==> o.next == old(o.next) && o.prev == old(o.prev)
    {
      assert item.prev == if k > 0 then nodes[k - 1] else null;
      assert item.next == if k + 1 < |nodes| then nodes[k + 1] else null;
      if item.prev != null {
        item.prev.next := item.next;
      }
      if item.next != null {
        item.next.prev := item.prev;
      }
      if first == item {
        first := item.next;
      }
      if last == item {
        last := item.prev;
      }
      nodes := RemoveAt(nodes, k);
    }

    /** A slot for a new item: the id freed longest ago, or a new one. */
    method Build() returns (id: nat)
      requires Valid()
      modifies this`items, this`free, this`repr
      ensures id == (if old(free) == [] then |old(items)| else old(free)[0])
      ensures free == (if old(free) == [] then [] else old(free)[1..])
      ensures if old(free) == []
              then |items| == |old(items)| + 1 && items[..|old(items)|] == old(items) && fresh(items[id])
              else items == old(items)
      ensures id < |items| && items[id].next == null && items[id].prev == null && items[id] !in nodes
      ensures Partition(items, free, chain + [id], nodes + [items[id]]) && id !in chain
      ensures |nodes| == |chain|
      ensures forall p :: 0 <= p < |chain| ==> chain[p] < |items| && nodes[p] == items[chain[p]] && nodes[p] in repr
      ensures forall i :: 0 <= i < |items| ==> items[i] in repr
      ensures old(repr) <= repr && fresh(repr - old(repr)) && Linked() && RestUnlinked()
    {
      hide Partition, Chained;
      PartitionFacts(items, free, chain, nodes);
      NotBoth(items, free, chain, nodes);
      if free == [] {
        id := |items|;
        var item := new Item<T>();
        PartitionGrow(items, chain, nodes, item);
        items, repr := items + [item], repr + {item};
      } else {
        PartitionReuse(items, free, chain, nodes);
        id := free[0];
        free := free[1..];
      }
    }

    /** A new item at the recent end. */
    method Insert(value: T, tick: int) returns (id: nat)
      requires Valid()
      modifies this, repr`value, repr`tick, repr`next, repr`prev
      ensures Valid() && id !in old(chain) && chain == old(chain) + [id]
      ensures |items| >= |old(items)| && items[..|old(items)|] == old(items)
      ensures old(repr) <= repr && fresh(repr - old(repr))
      ensures Entries() == LruList.Insert(old(Entries()), id, value, tick)
      ensures id == if old(free) == [] then |old(items)| else old(free)[0]
      ensures free == if old(free) == [] then [] else old(free)[1..]
    {
      hide Chained, Partition, Linked, RestUnlinked, EntriesFrom;
      ghost var before := Entries();
      PartitionFacts(items, free, chain, nodes);
      assert forall p :: 0 <= p < |chain| ==> before[p] == Entry(chain[p], nodes[p].value, nodes[p].tick);
      id := Build();
      Fill(id, value, tick, before);
    }

    /** Store into a slot that no live id uses, and attach it. */
    method Fill(id: nat, value: T, tick: int, ghost before: seq<Entry<T>>)
      requires id < |items| && items[id] !in nodes && Partition(items, free, chain + [id], nodes + [items[id]])
      requires (forall i :: 0 <= i < |items| ==> items[i] in repr) && Linked() && RestUnlinked()
      requires |before| == |chain| == |nodes|
      requires forall p :: 0 <= p < |chain| ==>
        && chain[p] < |items| && nodes[p] == items[chain[p]] && nodes[p] in repr
        && before[p] == Entry(chain[p], nodes[p].value, nodes[p].tick)
      modifies this`first, this`last, this`nodes, this`chain, repr`value, repr`tick, repr`next, repr`prev
      ensures Valid() && chain == old(chain) + [id] && Entries() == before + [Entry(id, value, tick)]
    {
      hide Chained, Partition, Linked, RestUnlinked, EntriesFrom;
      items[id].value := value;
      items[id].tick := tick;
      Append(items[id]);
      chain := chain + [id];
      assert Entries() == before + [Entry(id, value, tick)];
    }

    /** Attach an unlinked item. */
    method Append(item: Item<T>)
      requires Linked() && RestUnlinked() && item in repr && item !in nodes
      requires forall p :: 0 <= p < |nodes| ==> nodes[p] in repr
      modifies this`first, this`last, this`nodes, repr`next, repr`prev
      ensures nodes == old(nodes) + [item] && Linked() && RestUnlinked()
    {
      hide Chained;
      Attach(item);
    }

    /** Move an item to the recent end. */
    method Relink(item: Item<T>, ghost k: nat)
      requires Linked() && RestUnlinked() && k < |nodes| - 1 && nodes[k] == item
      requires forall p :: 0 <= p < |nodes| ==> nodes[p] in repr
      modifies this`first, this`last, this`nodes, repr`next, repr`prev
      ensures nodes == RemoveAt(old(nodes), k) + [item] && Linked() && RestUnlinked()
    {
      hide Chained;
      Detach(item, k);
      Attach(item);
      OthersStay(old(nodes), k);
    }

    /** Detach and attach the item with this id, which is not the last. */
    method MoveToEnd(id: nat, ghost k: nat)
      requires Valid() && k < |chain| - 1 && chain[k] == id && id < |items|
      modifies this`first, this`last, this`nodes, this`chain, repr`next, repr`prev
      ensures Valid() && chain == RemoveAt(old(chain), k) + [id]
      ensures Entries() == RemoveAt(old(Entries()), k) + [old(Entries())[k]]
    {
      hide Chained, Partition, Linked, RestUnlinked, EntriesFrom;
      ghost var before := Entries();
      PartitionFacts(items, free, chain, nodes);
      PartitionMove(items, free, chain, nodes, k);
      Relink(items[id], k);
      chain := RemoveAt(chain, k) + [id];
      assert Entries() == RemoveAt(before, k) + [before[k]];
    }

    /** A newer tick moves a live item to the recent end. */
    method Touch(id: nat, tick: int)
      requires Valid() && id in chain
      modifies this`first, this`last, this`nodes, this`chain, repr`tick, repr`next, repr`prev
      ensures Valid() && |chain| == |old(chain)|
      ensures Entries() == LruList.Touch(old(Entries()), IndexOf(old(chain), id), tick)
    {
      hide Chained, Partition, RestUnlinked, RemoveAt, EntriesFrom;
      ghost var k := IndexOf(chain, id);
      PartitionFacts(items, free, chain, nodes);
      var item := items[id];
      if item.tick >= tick {
        return;
      }
      LiveDistinct(items, free, chain, nodes, k);
      ghost var before := Entries();
      item.tick := tick;
      ghost var now := before[k].(tick := tick);
      assert Entries() == before[k := now];
      if item != last {
        assert nodes[|nodes| - 1] == last;
        MovedEntries(before, now, k);
        MoveToEnd(id, k);
      } else {
        assert items[chain[|chain| - 1]] == item;
        AtEnd(before, now);
      }
    }

    /** Take an item out of the list and clear its links. */
    method Unlink(item: Item<T>, ghost k: nat)
      requires Linked() && RestUnlinked() && k < |nodes| && nodes[k] == item
      requires forall p :: 0 <= p < |nodes| ==> nodes[p] in repr
      modifies this`first, this`last, this`nodes, repr`next, repr`prev
      ensures nodes == RemoveAt(old(nodes), k) && Linked() && RestUnlinked()
    {
      hide Chained, RemoveAt;
      Detach(item, k);
      item.next := null;
      item.prev := null;
      OthersStay(old(nodes), k);
    }

    /** The slot of a live item goes to the end of the queue of free ids. */
    method Free(id: nat)
      requires Valid() && id in chain
      modifies this`first, this`last, this`nodes, this`chain, this`free, repr`next, repr`prev
      ensures Valid() && free == old(free) + [id]
      ensures chain == RemoveAt(old(chain), IndexOf(old(chain), id))
      ensures |nodes| == |chain| && nodes == RemoveAt(old(nodes), IndexOf(old(chain), id))
      ensures Entries() == LruList.Free(old(Entries()), IndexOf(old(chain), id))
    {
      hide Chained, Partition, Linked, RestUnlinked, EntriesFrom;
      ghost var before, k := Entries(), IndexOf(chain, id);
      PartitionFacts(items, free, chain, nodes);
      PartitionFree(items, free, chain, nodes, k);
      Unlink(items[id], k);
      chain := RemoveAt(chain, k);
      free := free + [id];
      ghost var now := Entries();
      forall p | 0 <= p < |now| ensures now[p] == before[if p < k then p else p + 1] {
        assert chain[p] == old(chain)[if p < k then p else p + 1];
      }
      RemovedAt(now, before, k);
    }

    /** One turn of the walk: the callback may free the item it was handed. The walk goes on with the
        item that followed it. */
    method Visit(item: Item<T>, ghost m: nat, frees: T -> bool, idOf: T -> nat) returns (next: Item?<T>)
      requires Valid() && m < |nodes| && nodes[m] == item
      requires frees(item.value) ==> idOf(item.value) == chain[m]
      modifies this`first, this`last, this`nodes, this`chain, this`free, repr`next, repr`prev
      ensures Valid()
      ensures Entries() == if frees(item.value) then RemoveAt(old(Entries()), m) else old(Entries())
      ensures var m' := if frees(item.value) then m else m + 1;
        next == if m' < |nodes| then nodes[m'] else null
    {
      hide Partition, RestUnlinked, EntriesFrom;
      PartitionFacts(items, free, chain, nodes);
      next := item.next;
      assert next == if m + 1 < |nodes| then nodes[m + 1] else null;
      if frees(item.value) {
        IndexOfChain(items, free, chain, nodes, m);
        Free(idOf(item.value));
      }
    }

    /** The walk over the entries `all` stands before the n-th, which `item` holds. */
    ghost predicate Walking(all: seq<Entry<T>>, n: nat, frees: T -> bool, item: Item?<T>)
      requires Slots()
      reads this`items, this`free, this`chain, this`nodes, this`repr, repr`value, repr`tick
    {
      && n <= |all| && |nodes| == |Entries()| && Entries() == MidWalk(all, n, frees)
      && item == if n < |all| then nodes[Cursor(all, n, frees)] else null
    }

    /** One turn of `ForEachItemBelow`. */
    method VisitNext(item: Item<T>, ghost all: seq<Entry<T>>, ghost n: nat, frees: T -> bool, idOf: T -> nat)
      returns (next: Item?<T>)
      requires Valid() && n < |all| && Walking(all, n, frees, item)
      requires frees(all[n].value) ==> idOf(all[n].value) == all[n].id
      modifies this`first, this`last, this`nodes, this`chain, this`free, repr`next, repr`prev
      ensures Valid() && Walking(all, n + 1, frees, next)
      ensures old(item.value) == all[n].value && old(item.tick) == all[n].tick
    {
      hide Slots, RestUnlinked, EntriesFrom, Chained, MidWalk, Cursor;
      ghost var m := Cursor(all, n, frees);
      ItemAt(m);
      WalkStep(all, n, frees);
      next := Visit(item, m, frees, idOf);
      SameLength();
    }

    /** `ForEachItemBelow` with a callback that returns nothing: it is handed the items of the walk in
        order, and the items it does not free stay as they are. */
    method ForEachItemBelow(tick: int, frees: T -> bool, idOf: T -> nat) returns (visited: seq<T>)
      requires Valid()
      requires forall p :: 0 <= p < |Entries()| ==>
        frees(Entries()[p].value) ==> idOf(Entries()[p].value) == Entries()[p].id
      modifies this`first, this`last, this`nodes, this`chain, this`free, repr`next, repr`prev
      ensures Valid() && visited == Values(WalkBelow(old(Entries()), tick))
      ensures Entries() == MidWalk(old(Entries()), |visited|, frees)
    {
      hide Linked, RestUnlinked, Slots, EntriesFrom, MidWalk, Cursor, Values, WalkBelow, Walking;
      ghost var all, n := Entries(), 0;
      visited := [];
      var item := first;
      WalkStart(all, frees);
      WalkBegins(frees);
      AtItem(all, n, frees, item);
      while item != null && item.tick <= tick
        invariant Valid() && Walking(all, n, frees, item) && n <= |all|
        invariant
          if n < |all| then item != null && item.tick == all[n].tick && item.value == all[n].value else item == null
        invariant visited == Values(all[..n]) && |visited| == n
        invariant forall i :: 0 <= i < n ==> all[i].tick <= tick
        decreases |all| - n
      {
        WalkStep(all, n, frees);
        visited := visited + [item.value];
        item := VisitNext(item, all, n, frees, idOf);
        n := n + 1;
        AtItem(all, n, frees, item);
      }
      AtItem(all, n, frees, item);
      WalkStops(all, tick, n);
    }

    lemma WalkBegins(frees: T -> bool)
      requires Valid()
      ensures Slots() && Walking(Entries(), 0, frees, first)
    {
      hide Slots, EntriesFrom, MidWalk, Cursor;
      WalkStart(Entries(), frees);
      SameLength();
    }

    lemma AtItem(all: seq<Entry<T>>, n: nat, frees: T -> bool, item: Item?<T>)
      requires Valid() && Walking(all, n, frees, item)
      ensures Slots() && n <= |all| && |nodes| == |Entries()| && Entries() == MidWalk(all, n, frees)
      ensures
        if n < |all| then item != null && item.tick == all[n].tick && item.value == all[n].value else item == null
    {
      hide Slots, EntriesFrom, MidWalk, Cursor;
      if n < |all| {
        ItemAt(Cursor(all, n, frees));
      }
    }

    lemma SameLength()
      requires Slots()
      ensures |nodes| == |Entries()|
    {}

    lemma ItemAt(m: nat)
      requires Slots() && m < |Entries()|
      ensures |nodes| == |Entries()| == |chain|
      ensures nodes[m].value == Entries()[m].value && nodes[m].tick == Entries()[m].tick && chain[m] == Entries()[m].id
    {}
  }

  lemma IndexOfChain<T(0)>(items: seq<Item<T>>, free: seq<nat>, chain: seq<nat>, nodes: seq<Item<T>>, m: nat)
    requires Partition(items, free, chain, nodes) && m < |chain|
    ensures chain[m] in chain && IndexOf(chain, chain[m]) == m
  {
    hide IndexOf;
    var i := IndexOf(chain, chain[m]);
  }

  /** Whoever was in the list and is not the one removed is still in it. */
  lemma OthersStay<U>(s: seq<U>, k: nat)
    requires k < |s|
    ensures forall x :: x in s && x != s[k] ==> x in RemoveAt(s, k)
  {
    forall x | x in s && x != s[k] ensures x in RemoveAt(s, k) {
      var p :| 0 <= p < |s| && s[p] == x;
      assert RemoveAt(s, k)[if p < k then p else p - 1] == x;
    }
  }

  lemma NotBoth<T(0)>(items: seq<Item<T>>, free: seq<nat>, chain: seq<nat>, nodes: seq<Item<T>>)
    requires Partition(items, free, chain, nodes)
    ensures forall p :: 0 <= p < |free| ==> free[p] !in chain
    ensures |items| !in chain
  {
    forall p | 0 <= p < |free| ensures free[p] !in chain {
      assert free[p] in free;
    }
  }

  lemma MovedEntries<U>(s: seq<U>, x: U, k: nat)
    requires k < |s|
    ensures RemoveAt(s[k := x], k) == RemoveAt(s, k)
  {}

  lemma AtEnd<U>(s: seq<U>, x: U)
    requires s != []
    ensures s[|s| - 1 := x] == RemoveAt(s, |s| - 1) + [x]
  {}

  /** No other position of the chain holds the same item. */
  lemma LiveDistinct<T(0)>(items: seq<Item<T>>, free: seq<nat>, chain: seq<nat>, nodes: seq<Item<T>>, k: nat)
    requires Partition(items, free, chain, nodes) && k < |chain|
    ensures forall p :: 0 <= p < |chain| && p != k ==> items[chain[p]] != items[chain[k]]
  {}
}
