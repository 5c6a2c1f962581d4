/** The least-recently-used order as a plain sequence: what the linked list of `lruCache.h` stands for,
    and the facts about its order. */
module LruList {

  /** One live item: its id, the value it holds and the tick of its last use. */
  datatype Entry<T> = Entry(id: nat, value: T, tick: int)

  ghost predicate NoDup(s: seq<nat>) {
    forall i, j :: 0 <= i < j < |s| ==> s[i] != s[j]
  }

  function IndexOf(s: seq<nat>, id: nat): (i: nat)
    ensures i <= |s| && (i < |s| ==> s[i] == id)
    ensures id in s ==> i < |s|
  {
    if s == [] || s[0] == id then 0 else 1 + IndexOf(s[1..], id)
  }

  function RemoveAt<T>(s: seq<T>, i: nat): (r: seq<T>)
    requires i < |s|
    ensures |r| == |s| - 1
    ensures forall j :: 0 <= j < |r| ==> r[j] == if j < i then s[j] else s[j + 1]
  {
    s[..i] + s[i + 1..]
  }

  lemma RemovedAt<T>(r: seq<T>, s: seq<T>, i: nat)
    requires i < |s| && |r| == |s| - 1 && forall j :: 0 <= j < |r| ==> r[j] == s[if j < i then j else j + 1]
    ensures r == RemoveAt(s, i)
  {}

  // ----- the operations on the sequence -----

  function Insert<T>(l: seq<Entry<T>>, id: nat, value: T, tick: int): seq<Entry<T>> {
    l + [Entry(id, value, tick)]
  }

  /** A newer tick moves the entry at position `i` to the end; an older one does nothing. */
  function Touch<T>(l: seq<Entry<T>>, i: nat, tick: int): seq<Entry<T>>
    requires i < |l|
  {
    if l[i].tick >= tick then l else RemoveAt(l, i) + [l[i].(tick := tick)]
  }

  /** A tick that is not newer changes nothing; a newer one puts the entry last, and the others keep their order. */
  lemma TouchMoves<T>(l: seq<Entry<T>>, i: nat, tick: int)
    requires i < |l|
    ensures var r := Touch(l, i, tick);
      && |r| == |l|
      && (tick <= l[i].tick ==> r == l)
      && (tick > l[i].tick ==>
            && r[|l| - 1] == Entry(l[i].id, l[i].value, tick)
            && forall j :: 0 <= j < |l| - 1 ==> r[j] == if j < i then l[j] else l[j + 1])
  {}

  function Free<T>(l: seq<Entry<T>>, i: nat): seq<Entry<T>>
    requires i < |l|
  {
    RemoveAt(l, i)
  }

  /** The entries a bounded walk from the front hands out: it stops at the first one past the bound. */
  function WalkBelow<T>(l: seq<Entry<T>>, bound: int): (r: seq<Entry<T>>)
    ensures |r| <= |l| && r == l[..|r|]
  {
    if l == [] || l[0].tick > bound then [] else [l[0]] + WalkBelow(l[1..], bound)
  }

  /** What stays of visited entries when the callback frees some of them. */
  function Kept<T>(l: seq<Entry<T>>, frees: T -> bool): seq<Entry<T>> {
    if l == [] then []
    else Kept(l[..|l| - 1], frees) + if frees(l[|l| - 1].value) then [] else [l[|l| - 1]]
  }

  function Values<T>(l: seq<Entry<T>>): (r: seq<T>)
    ensures |r| == |l| && forall i :: 0 <= i < |r| ==> r[i] == l[i].value
  {
    seq(|l|, i requires 0 <= i < |l| => l[i].value)
  }

  lemma {:induction false} WalkStops<T>(l: seq<Entry<T>>, bound: int, n: nat)
    requires n <= |l| && forall i :: 0 <= i < n ==> l[i].tick <= bound
    requires n == |l| || l[n].tick > bound
    ensures WalkBelow(l, bound) == l[..n]
  {
    if n > 0 {
      assert forall i :: 0 <= i < |l[1..]| ==> l[1..][i] == l[i + 1];
      WalkStops(l[1..], bound, n - 1);
      assert l[..n] == [l[0]] + l[1..][..n - 1];
    }
  }

  /** The list in the middle of a walk: `n` entries visited, the others untouched. */
  function MidWalk<T>(l: seq<Entry<T>>, n: nat, frees: T -> bool): seq<Entry<T>>
    requires n <= |l|
  {
    Kept(l[..n], frees) + l[n..]
  }

  /** The position that the walk has reached in that list. */
  function Cursor<T>(l: seq<Entry<T>>, n: nat, frees: T -> bool): (m: nat)
    requires n <= |l|
    ensures m <= |MidWalk(l, n, frees)|
    ensures n < |l| <==> m < |MidWalk(l, n, frees)|
    ensures n < |l| ==> MidWalk(l, n, frees)[m] == l[n]
  {
    |Kept(l[..n], frees)|
  }

  lemma WalkStart<T>(l: seq<Entry<T>>, frees: T -> bool)
    ensures MidWalk(l, 0, frees) == l && Cursor(l, 0, frees) == 0 && Values(l[..0]) == []
  {}

  lemma WalkStep<T>(l: seq<Entry<T>>, n: nat, frees: T -> bool)
    requires n < |l|
    ensures var m, mid := Cursor(l, n, frees), MidWalk(l, n, frees);
      && MidWalk(l, n + 1, frees) == (if frees(l[n].value) then RemoveAt(mid, m) else mid)
      && Cursor(l, n + 1, frees) == (if frees(l[n].value) then m else m + 1)
      && Values(l[..n + 1]) == Values(l[..n]) + [l[n].value]
  {
    assert l[..n + 1][..n] == l[..n];
  }

  // ----- order -----

  ghost predicate Sorted<T>(l: seq<Entry<T>>) {
    forall i, j :: 0 <= i < j < |l| ==> l[i].tick <= l[j].tick
  }

  ghost predicate Below<T>(l: seq<Entry<T>>, now: int) {
    forall i :: 0 <= i < |l| ==> l[i].tick <= now
  }

  datatype Op<T> = OpInsert(id: nat, value: T, tick: int) | OpTouch(pos: nat, tick: int) | OpFree(pos: nat)

  ghost predicate Applicable<T>(l: seq<Entry<T>>, op: Op<T>, now: int) {
    match op
    case OpInsert(id, _, tick) => tick >= now && forall p :: 0 <= p < |l| ==> l[p].id != id
    case OpTouch(pos, tick) => pos < |l| && tick >= now
    case OpFree(pos) => pos < |l|
  }

  function Apply<T>(l: seq<Entry<T>>, op: Op<T>): seq<Entry<T>> {
    match op
    case OpInsert(id, value, tick) => Insert(l, id, value, tick)
    case OpTouch(pos, tick) => if pos < |l| then Touch(l, pos, tick) else l
    case OpFree(pos) => if pos < |l| then Free(l, pos) else l
  }

  function TickAfter<T>(op: Op<T>, now: int): int {
    match op
    case OpInsert(_, _, tick) => tick
    case OpTouch(_, tick) => tick
    case OpFree(_) => now
  }

  lemma SortedRemove<T>(l: seq<Entry<T>>, i: nat, now: int)
    requires Sorted(l) && Below(l, now) && i < |l|
    ensures Sorted(RemoveAt(l, i)) && Below(RemoveAt(l, i), now)
  {}

  lemma SortedAppend<T>(l: seq<Entry<T>>, e: Entry<T>, now: int)
    requires Sorted(l) && Below(l, now) && now <= e.tick
    ensures Sorted(l + [e]) && Below(l + [e], e.tick)
  {}

  lemma {:induction false} SortedStep<T>(l: seq<Entry<T>>, op: Op<T>, now: int)
    requires Sorted(l) && Below(l, now) && Applicable(l, op, now)
    ensures Sorted(Apply(l, op)) && Below(Apply(l, op), TickAfter(op, now))
  {
    hide RemoveAt, Sorted;
    match op
    case OpInsert(id, value, tick) => SortedAppend(l, Entry(id, value, tick), now);
    case OpFree(pos) => SortedRemove(l, pos, now);
    case OpTouch(pos, tick) =>
      SortedRemove(l, pos, now);
      SortedAppend(RemoveAt(l, pos), l[pos].(tick := tick), now);
  }

  /** A history whose ticks never decrease. */
  ghost predicate History<T>(ls: seq<seq<Entry<T>>>, ops: seq<Op<T>>, nows: seq<int>) {
    && |ls| == |nows| == |ops| + 1 && ls[0] == []
    && forall i :: 0 <= i < |ops| ==>
         && Applicable(ls[i], ops[i], nows[i]) && ls[i + 1] == Apply(ls[i], ops[i])
         && nows[i + 1] == TickAfter(ops[i], nows[i])
  }

  /** With ticks that never decrease the list is always in tick order. */
  lemma {:induction false} HistorySorted<T>(ls: seq<seq<Entry<T>>>, ops: seq<Op<T>>, nows: seq<int>, i: nat)
    requires History(ls, ops, nows) && i < |ls|
    ensures Sorted(ls[i]) && Below(ls[i], nows[i])
  {
    if i > 0 {
      HistorySorted(ls, ops, nows, i - 1);
      SortedStep(ls[i - 1], ops[i - 1], nows[i - 1]);
    }
  }

  /** On a sorted list the bounded walk hands out every entry up to the bound, and only those. */
  lemma {:induction false} WalkIsAllBelow<T>(l: seq<Entry<T>>, bound: int, i: nat)
    requires Sorted(l) && i < |l|
    ensures i < |WalkBelow(l, bound)| <==> l[i].tick <= bound
  {
    if l[0].tick <= bound {
      assert forall j :: 0 <= j < |l[1..]| ==> l[1..][j] == l[j + 1];
      if i > 0 {
        WalkIsAllBelow(l[1..], bound, i - 1);
      }
    }
  }

  // ----- what is in the list -----

  ghost predicate UniqueIds<T>(l: seq<Entry<T>>) {
    forall i, j :: 0 <= i < j < |l| ==> l[i].id != l[j].id
  }

  ghost predicate Listed<T>(l: seq<Entry<T>>, id: nat) {
    exists p :: 0 <= p < |l| && l[p].id == id
  }

  /** The same items in no order: each id with its value and the tick of its last use. */
  ghost predicate Holds<T>(l: seq<Entry<T>>, book: map<nat, Entry<T>>) {
    && (forall p :: 0 <= p < |l| ==> l[p].id in book && book[l[p].id] == l[p])
    && (forall id :: id in book ==> Listed(l, id))
  }

  /** A use of an item that is not inserted records the time, a free forgets the item. */
  function Noted<T>(book: map<nat, Entry<T>>, l: seq<Entry<T>>, op: Op<T>): map<nat, Entry<T>> {
    match op
    case OpInsert(id, value, tick) => book[id := Entry(id, value, tick)]
    case OpTouch(pos, tick) =>
      if pos < |l| && l[pos].id in book then book[l[pos].id := book[l[pos].id].(tick := tick)] else book
    case OpFree(pos) => if pos < |l| then book - {l[pos].id} else book
  }

  function Book<T>(ls: seq<seq<Entry<T>>>, ops: seq<Op<T>>, i: nat): map<nat, Entry<T>>
    requires i <= |ops| && |ls| == |ops| + 1
  {
    if i == 0 then map[] else Noted(Book(ls, ops, i - 1), ls[i - 1], ops[i - 1])
  }

  lemma ListedAppended<T>(l: seq<Entry<T>>, e: Entry<T>, id: nat)
    ensures Listed(l + [e], id) <==> Listed(l, id) || id == e.id
  {
    if Listed(l, id) {
      var p :| 0 <= p < |l| && l[p].id == id;
      assert (l + [e])[p].id == id;
    }
    assert (l + [e])[|l|] == e;
  }

  lemma ListedRemoved<T>(l: seq<Entry<T>>, i: nat, id: nat)
    requires i < |l| && Listed(l, id) && id != l[i].id
    ensures Listed(RemoveAt(l, i), id)
  {
    var p :| 0 <= p < |l| && l[p].id == id;
    assert RemoveAt(l, i)[if p < i then p else p - 1].id == id;
  }

  lemma {:induction false} HoldsAppended<T>(l: seq<Entry<T>>, book: map<nat, Entry<T>>, e: Entry<T>)
    requires Holds(l, book) && UniqueIds(l) && e.id !in book
    ensures Holds(l + [e], book[e.id := e]) && UniqueIds(l + [e])
  {
    hide Listed;
    forall id | id in book[e.id := e] ensures Listed(l + [e], id) { ListedAppended(l, e, id); }
  }

  lemma {:induction false} UniqueRemoved<T>(l: seq<Entry<T>>, i: nat)
    requires UniqueIds(l) && i < |l|
    ensures UniqueIds(RemoveAt(l, i))
    ensures forall p :: 0 <= p < |l| - 1 ==> RemoveAt(l, i)[p].id != l[i].id
  {}

  lemma {:induction false} HoldsRemoved<T>(l: seq<Entry<T>>, book: map<nat, Entry<T>>, i: nat)
    requires Holds(l, book) && UniqueIds(l) && i < |l|
    ensures Holds(RemoveAt(l, i), book - {l[i].id}) && UniqueIds(RemoveAt(l, i))
  {
    hide Listed, UniqueIds;
    UniqueRemoved(l, i);
    forall id | id in book - {l[i].id} ensures Listed(RemoveAt(l, i), id) { ListedRemoved(l, i, id); }
  }

  lemma NotListed<T>(l: seq<Entry<T>>, id: nat)
    ensures Listed(l, id) <==> !(forall p :: 0 <= p < |l| ==> l[p].id != id)
  {}

  lemma {:induction false} HoldsStep<T>(l: seq<Entry<T>>, book: map<nat, Entry<T>>, op: Op<T>, now: int)
    requires Holds(l, book) && UniqueIds(l) && Below(l, now) && Applicable(l, op, now)
    ensures Holds(Apply(l, op), Noted(book, l, op)) && UniqueIds(Apply(l, op))
  {
    hide RemoveAt, UniqueIds, Listed;
    match op
    case OpInsert(id, value, tick) =>
      NotListed(l, id);
      HoldsAppended(l, book, Entry(id, value, tick));
    case OpFree(pos) => HoldsRemoved(l, book, pos);
    case OpTouch(pos, tick) =>
      var e := l[pos];
      if e.tick >= tick {
        assert e.tick == tick && book[e.id := book[e.id].(tick := tick)] == book;
      } else {
        HoldsRemoved(l, book, pos);
        HoldsAppended(RemoveAt(l, pos), book - {e.id}, e.(tick := tick));
        assert (book - {e.id})[e.id := e.(tick := tick)] == book[e.id := e.(tick := tick)];
      }
  }

  /** After any history with ticks that never decrease, the list holds exactly the items inserted and not freed since,
      each with its value and the tick of its last use. */
  lemma {:induction false} HistoryHolds<T>(ls: seq<seq<Entry<T>>>, ops: seq<Op<T>>, nows: seq<int>, i: nat)
    requires History(ls, ops, nows) && i < |ls|
    ensures Holds(ls[i], Book(ls, ops, i)) && UniqueIds(ls[i])
  {
    if i > 0 {
      HistoryHolds(ls, ops, nows, i - 1);
      HistorySorted(ls, ops, nows, i - 1);
      HoldsStep(ls[i - 1], Book(ls, ops, i - 1), ops[i - 1], nows[i - 1]);
    }
  }

  /** Of the visited entries those remain whose values the callback does not free, in their order. */
  lemma {:induction false} KeptAre<T>(l: seq<Entry<T>>, frees: T -> bool, e: Entry<T>)
    ensures e in Kept(l, frees) <==> e in l && !frees(e.value)
    ensures Sorted(l) ==> Sorted(Kept(l, frees))
  {
    if l != [] {
      var m := |l| - 1;
      KeptAre(l[..m], frees, e);
      assert l == l[..m] + [l[m]];
      var kept := Kept(l[..m], frees);
      forall i | 0 <= i < |kept| && Sorted(l) ensures kept[i].tick <= l[m].tick && Sorted(kept) {
        assert kept[i] in kept;
        KeptAre(l[..m], frees, kept[i]);
      }
    }
  }
}
