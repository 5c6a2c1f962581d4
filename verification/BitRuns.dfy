/** Runs of set bits, found by looking at one bit after another. */
module BitRuns {

  /** The first set bit at or after `i`, or the length if there is none. */
  function FirstSet(b: seq<bool>, i: nat): (r: nat)
    requires i <= |b|
    ensures i <= r <= |b| && (r < |b| ==> b[r]) && forall k :: i <= k < r ==> !b[k]
    decreases |b| - i
  {
    if i == |b| || b[i] then i else FirstSet(b, i + 1)
  }

  /** The first clear bit at or after `i`, or the length. */
  function FirstClear(b: seq<bool>, i: nat): (r: nat)
    requires i <= |b|
    ensures i <= r <= |b| && (r < |b| ==> !b[r]) && forall k :: i <= k < r ==> b[k]
    decreases |b| - i
  {
    if i == |b| || !b[i] then i else FirstClear(b, i + 1)
  }

  /** The end of the last set bit before `e`, or 0. */
  function LastSet(b: seq<bool>, e: nat): (r: nat)
    requires e <= |b|
    ensures r <= e && (r > 0 ==> b[r - 1]) && forall k :: r <= k < e ==> !b[k]
  {
    if e == 0 || b[e - 1] then e else LastSet(b, e - 1)
  }

  /** The start of the set bits that end at `e`. */
  function LastClear(b: seq<bool>, e: nat): (r: nat)
    requires e <= |b|
    ensures r <= e && (r > 0 ==> !b[r - 1]) && forall k :: r <= k < e ==> b[k]
  {
    if e == 0 || !b[e - 1] then e else LastClear(b, e - 1)
  }

  /** The first run of set bits from `i` on; both ends are the length if there is none. */
  function RunFrom(b: seq<bool>, i: nat): (nat, nat) {
    if i >= |b| then (|b|, |b|)
    else
      var f := FirstSet(b, i);
      (f, FirstClear(b, f))
  }

  /** The last run of set bits before `e`, cut off at `e`; both ends are 0 if there is none. */
  function RunBefore(b: seq<bool>, e: nat): (nat, nat) {
    var l := LastSet(b, if e > |b| then |b| else e);
    (LastClear(b, l), l)
  }

  lemma RunFromIs(b: seq<bool>, i: nat, f: nat, l: nat)
    requires i <= f < l <= |b|
    requires forall k :: i <= k < f ==> !b[k]
    requires forall k :: f <= k < l ==> b[k]
    requires l < |b| ==> !b[l]
    ensures RunFrom(b, i) == (f, l)
  {
    assert b[f];
  }

  lemma NoRunFrom(b: seq<bool>, i: nat)
    requires forall k :: i <= k < |b| ==> !b[k]
    ensures RunFrom(b, i) == (|b|, |b|)
  {}

  lemma RunBeforeIs(b: seq<bool>, e: nat, f: nat, l: nat)
    requires f < l <= |b| && l <= e
    requires forall k :: l <= k < e && k < |b| ==> !b[k]
    requires forall k :: f <= k < l ==> b[k]
    requires f > 0 ==> !b[f - 1]
    ensures RunBefore(b, e) == (f, l)
  {
    assert b[l - 1];
  }

  lemma NoRunBefore(b: seq<bool>, e: nat)
    requires forall k :: 0 <= k < e && k < |b| ==> !b[k]
    ensures RunBefore(b, e) == (0, 0)
  {}

  // ----- all runs -----

  /** The runs from `i` on, one after the other. */
  function RunsFrom(b: seq<bool>, i: nat): seq<(nat, nat)>
    decreases |b| - i
  {
    var r := RunFrom(b, i);
    if r.0 == |b| then [] else [r] + RunsFrom(b, r.1)
  }

  /** A run that cannot be made longer. */
  predicate Maximal(b: seq<bool>, r: (nat, nat)) {
    && r.0 < r.1 <= |b|
    && (forall k :: r.0 <= k < r.1 ==> b[k])
    && (r.0 == 0 || !b[r.0 - 1])
    && (r.1 == |b| || !b[r.1])
  }

  predicate Within(r: (nat, nat), k: nat) {
    r.0 <= k < r.1
  }

  predicate Covered(rs: seq<(nat, nat)>, k: nat) {
    exists n :: 0 <= n < |rs| && Within(rs[n], k)
  }

  /** A place that no run crosses. */
  predicate Between(b: seq<bool>, i: nat) {
    i <= |b| && (i == 0 || i == |b| || !b[i] || !b[i - 1])
  }

  lemma FirstIsMaximal(b: seq<bool>, i: nat)
    requires Between(b, i)
    ensures var r := RunFrom(b, i);
      r.0 < |b| ==> Maximal(b, r) && i <= r.0 && Between(b, r.1) && (r.1 < |b| ==> !b[r.1])
  {
    var r := RunFrom(b, i);
    if r.0 < |b| {
      assert b[r.0];
    }
  }

  /** From a place that no run crosses, the runs are maximal and increase without touching each other. */
  lemma {:induction false} RunsApart(b: seq<bool>, i: nat)
    requires Between(b, i)
    ensures var rs := RunsFrom(b, i);
      && (forall n :: 0 <= n < |rs| ==> Maximal(b, rs[n]))
      && (rs != [] ==> rs[0] == RunFrom(b, i) && i <= rs[0].0 && (i < |b| && !b[i] ==> i < rs[0].0))
      && (forall n :: 0 <= n < |rs| - 1 ==> rs[n].1 < rs[n + 1].0)
    decreases |b| - i
  {
    hide Maximal;
    var r := RunFrom(b, i);
    if r.0 < |b| {
      FirstIsMaximal(b, i);
      RunsApart(b, r.1);
      RunsFromStep(b, i);
    }
  }

  lemma RunsFromStep(b: seq<bool>, i: nat)
    requires RunFrom(b, i).0 < |b|
    ensures RunsFrom(b, i) == [RunFrom(b, i)] + RunsFrom(b, RunFrom(b, i).1)
  {}

  lemma CoveredSplit(r: (nat, nat), rest: seq<(nat, nat)>, k: nat)
    ensures Covered([r] + rest, k) <==> Within(r, k) || Covered(rest, k)
  {
    var rs := [r] + rest;
    if Within(r, k) {
      assert Within(rs[0], k);
    }
    if Covered(rest, k) {
      var n :| 0 <= n < |rest| && Within(rest[n], k);
      assert Within(rs[n + 1], k);
    }
  }

  /** Together the runs are exactly the set bits from `i` on. */
  lemma {:induction false} RunsCover(b: seq<bool>, i: nat, k: nat)
    requires i <= |b|
    ensures Covered(RunsFrom(b, i), k) <==> i <= k < |b| && b[k]
    decreases |b| - i
  {
    hide Covered;
    var r := RunFrom(b, i);
    if r.0 < |b| {
      RunsCover(b, r.1, k);
      CoveredSplit(r, RunsFrom(b, r.1), k);
    } else {
      NothingCovered(k);
    }
  }

  lemma NothingCovered(k: nat)
    ensures !Covered([], k)
  {}
}
