/** Canonical Huffman codes of RFC 1951 section 3.2.2, as a specification: which code every symbol
    has, when a list of lengths admits one, and why at most one symbol matches any bit string. */
module HuffmanCode {
  import opened Bits

  const MAX_LEN: nat := 15
  const ZNSYMS: nat := 288

  /** What every caller of the table builder passes: at most 288 lengths, none above 15. */
  ghost predicate Lengths(lens: seq<nat>) {
    |lens| <= ZNSYMS && forall i :: 0 <= i < |lens| ==> lens[i] <= MAX_LEN
  }

  /** How many of the first `n` symbols have length `l`. */
  ghost function Count(lens: seq<nat>, n: nat, l: nat): nat
    requires n <= |lens|
  {
    if n == 0 then 0 else Count(lens, n - 1, l) + Digit(lens[n - 1] == l)
  }

  /** bl_count[l] */
  ghost function LenCount(lens: seq<nat>, l: nat): nat {
    if l == 0 then 0 else Count(lens, |lens|, l)
  }

  /** RFC 1951 section 3.2.2 step 2: the first code of length `l`. */
  ghost function FirstCode(lens: seq<nat>, l: nat): nat {
    if l == 0 then 0 else 2 * (FirstCode(lens, l - 1) + LenCount(lens, l - 1))
  }

  /** One past the last code of length `l`. */
  ghost function EndCode(lens: seq<nat>, l: nat): nat {
    FirstCode(lens, l) + LenCount(lens, l)
  }

  /** Step 3: symbols of one length get consecutive codes, in symbol order. */
  ghost function Code(lens: seq<nat>, sym: nat): nat
    requires sym < |lens|
  {
    FirstCode(lens, lens[sym]) + Count(lens, sym, lens[sym])
  }

  /** How many symbols have a code shorter than `l`. */
  ghost function FirstSym(lens: seq<nat>, l: nat): nat {
    if l == 0 then 0 else FirstSym(lens, l - 1) + LenCount(lens, l - 1)
  }

  /** The rank of a symbol in the order by length, then by symbol. */
  ghost function Rank(lens: seq<nat>, sym: nat): nat
    requires sym < |lens|
  {
    FirstSym(lens, lens[sym]) + Count(lens, sym, lens[sym])
  }

  /** The Kraft sum of the first `n` lengths in units of 2^-15. */
  ghost function KraftSum(lens: seq<nat>, n: nat): nat
    requires n <= |lens|
  {
    if n == 0 then 0
    else KraftSum(lens, n - 1) + if 0 < lens[n - 1] <= MAX_LEN then Pow2(MAX_LEN - lens[n - 1]) else 0
  }

  /** The Kraft inequality. */
  ghost predicate KraftOk(lens: seq<nat>) {
    KraftSum(lens, |lens|) <= Pow2(MAX_LEN)
  }

  /** The first `lens[sym]` bits of the window `w`, least significant first, spell the code of `sym`. */
  ghost predicate Spells(lens: seq<nat>, sym: nat, w: nat) {
    sym < |lens| && 0 < lens[sym] && Msb(w, lens[sym]) == Code(lens, sym)
  }

  // ----- the Kraft sum and the running code -----

  /** `EndCode` over the first `n` symbols only. */
  ghost function PartialEnd(lens: seq<nat>, n: nat, l: nat): nat
    requires n <= |lens|
  {
    if l == 0 then 0 else 2 * PartialEnd(lens, n, l - 1) + Count(lens, n, l)
  }

  lemma {:induction false} PartialEndStep(lens: seq<nat>, n: nat, l: nat)
    requires 0 < n <= |lens|
    ensures PartialEnd(lens, n, l)
         == PartialEnd(lens, n - 1, l) + if 0 < lens[n - 1] <= l then Pow2(l - lens[n - 1]) else 0
  {
    if l > 0 {
      PartialEndStep(lens, n, l - 1);
    }
  }

  lemma {:induction false} PartialEndIsKraft(lens: seq<nat>, n: nat)
    requires n <= |lens|
    ensures PartialEnd(lens, n, MAX_LEN) == KraftSum(lens, n)
  {
    if n > 0 {
      PartialEndIsKraft(lens, n - 1);
      PartialEndStep(lens, n, MAX_LEN);
    } else {
      PartialEndZero(lens, MAX_LEN);
    }
  }

  lemma PartialEndZero(lens: seq<nat>, l: nat)
    ensures PartialEnd(lens, 0, l) == 0
  {}

  lemma {:induction false} PartialEndIsEndCode(lens: seq<nat>, l: nat)
    ensures PartialEnd(lens, |lens|, l) == EndCode(lens, l)
  {
    if l > 0 {
      PartialEndIsEndCode(lens, l - 1);
    }
  }

  /** The code just past the last one of length 15 is the Kraft sum. */
  lemma {:induction false} EndCodeIsKraft(lens: seq<nat>)
    ensures EndCode(lens, MAX_LEN) == KraftSum(lens, |lens|)
  {
    PartialEndIsEndCode(lens, MAX_LEN);
    PartialEndIsKraft(lens, |lens|);
  }

  lemma {:induction false} OverflowPersists(lens: seq<nat>, l: nat, m: nat)
    requires l <= m && EndCode(lens, l) > Pow2(l)
    ensures EndCode(lens, m) > Pow2(m)
    decreases m - l
  {
    if l < m {
      OverflowPersists(lens, l + 1, m);
    }
  }

  /** The codes of length `l` fit in `l` bits. */
  ghost predicate CodesFit(lens: seq<nat>, l: nat) {
    EndCode(lens, l) <= Pow2(l)
  }

  /** The Kraft inequality holds exactly when the codes of each length fit in that length. */
  lemma {:induction false} KraftIffCodesFit(lens: seq<nat>)
    ensures KraftOk(lens) <==> forall l: nat :: l <= MAX_LEN ==> CodesFit(lens, l)
  {
    EndCodeIsKraft(lens);
    forall l: nat | l <= MAX_LEN && !CodesFit(lens, l)
      ensures !KraftOk(lens)
    {
      OverflowPersists(lens, l, MAX_LEN);
    }
    assert CodesFit(lens, MAX_LEN) <==> KraftOk(lens);
  }

  // ----- codes of one length -----

  lemma {:induction false} CountMono(lens: seq<nat>, n: nat, m: nat, l: nat)
    requires n <= m <= |lens|
    ensures Count(lens, n, l) <= Count(lens, m, l)
    ensures n < m && lens[n] == l ==> Count(lens, n, l) < Count(lens, m, l)
  {
    if n < m {
      CountMono(lens, n, m - 1, l);
    }
  }

  lemma {:induction false} CodeBelowEnd(lens: seq<nat>, sym: nat)
    requires sym < |lens| && 0 < lens[sym]
    ensures FirstCode(lens, lens[sym]) <= Code(lens, sym) < EndCode(lens, lens[sym])
  {
    CountMono(lens, sym, |lens|, lens[sym]);
  }

  lemma {:induction false} CodeFits(lens: seq<nat>, sym: nat)
    requires Lengths(lens) && KraftOk(lens)
    requires sym < |lens| && 0 < lens[sym]
    ensures Code(lens, sym) < Pow2(lens[sym])
  {
    KraftIffCodesFit(lens);
    assert CodesFit(lens, lens[sym]);
    CodeBelowEnd(lens, sym);
  }

  /** Every count below the total is the rank of a symbol within its length. */
  lemma {:induction false} SymbolWithCount(lens: seq<nat>, n: nat, l: nat, r: nat) returns (sym: nat)
    requires n <= |lens| && r < Count(lens, n, l)
    ensures sym < n && lens[sym] == l && Count(lens, sym, l) == r
  {
    if r == Count(lens, n - 1, l) {
      sym := n - 1;
    } else {
      sym := SymbolWithCount(lens, n - 1, l, r);
    }
  }

  // ----- ranks -----

  ghost function PartialFirstSym(lens: seq<nat>, n: nat, l: nat): nat
    requires n <= |lens|
  {
    if l <= 1 then 0 else PartialFirstSym(lens, n, l - 1) + Count(lens, n, l - 1)
  }

  lemma {:induction false} PartialFirstSymStep(lens: seq<nat>, n: nat, l: nat)
    requires 0 < n <= |lens|
    ensures PartialFirstSym(lens, n, l) == PartialFirstSym(lens, n - 1, l) + Digit(0 < lens[n - 1] < l)
  {
    if l > 1 {
      PartialFirstSymStep(lens, n, l - 1);
    }
  }

  lemma {:induction false} PartialFirstSymBound(lens: seq<nat>, n: nat, l: nat)
    requires n <= |lens|
    ensures PartialFirstSym(lens, n, l) <= n
  {
    if n > 0 {
      PartialFirstSymStep(lens, n, l);
      PartialFirstSymBound(lens, n - 1, l);
    } else if l > 1 {
      PartialFirstSymBound(lens, 0, l - 1);
    }
  }

  lemma {:induction false} PartialFirstSymIsFirstSym(lens: seq<nat>, l: nat)
    ensures PartialFirstSym(lens, |lens|, l) == FirstSym(lens, l)
  {
    if l > 1 {
      PartialFirstSymIsFirstSym(lens, l - 1);
    } else if l == 1 {
      assert FirstSym(lens, 1) == FirstSym(lens, 0) + LenCount(lens, 0) == 0;
    }
  }

  lemma {:induction false} FirstSymMono(lens: seq<nat>, l: nat, m: nat)
    requires l < m
    ensures FirstSym(lens, l) + LenCount(lens, l) <= FirstSym(lens, m)
  {
    if l < m - 1 {
      FirstSymMono(lens, l, m - 1);
    }
  }

  lemma {:induction false} RankBound(lens: seq<nat>, sym: nat)
    requires sym < |lens| && 0 < lens[sym]
    ensures Rank(lens, sym) < |lens|
  {
    var l := lens[sym];
    CountMono(lens, sym, |lens|, l);
    assert FirstSym(lens, l + 1) == FirstSym(lens, l) + LenCount(lens, l);
    PartialFirstSymIsFirstSym(lens, l + 1);
    PartialFirstSymBound(lens, |lens|, l + 1);
  }

  /** Ranks number the coded symbols without repetition. */
  lemma {:induction false} RankInjective(lens: seq<nat>, s: nat, t: nat)
    requires s < t < |lens| && 0 < lens[s] && 0 < lens[t]
    ensures Rank(lens, s) != Rank(lens, t)
  {
    CountMono(lens, s, |lens|, lens[s]);
    CountMono(lens, t, |lens|, lens[t]);
    if lens[s] < lens[t] {
      FirstSymMono(lens, lens[s], lens[t]);
    } else if lens[t] < lens[s] {
      FirstSymMono(lens, lens[t], lens[s]);
    } else {
      CountMono(lens, s, t, lens[s]);
    }
  }

  // ----- prefix freedom -----

  /** A bit string that starts with a code of length `l` is below every longer code. */
  lemma {:induction false} ShorterIsBelow(lens: seq<nat>, w: nat, l: nat, m: nat)
    requires l < m && Msb(w, l) < EndCode(lens, l)
    ensures Msb(w, m) < FirstCode(lens, m)
  {
    if l < m - 1 {
      ShorterIsBelow(lens, w, l, m - 1);
    }
  }

  /** No code is a prefix of another: at most one symbol spells its code at the start of a window. */
  lemma {:induction false} SpellsUnique(lens: seq<nat>, s: nat, t: nat, w: nat)
    requires Spells(lens, s, w) && Spells(lens, t, w)
    ensures s == t
  {
    CodeBelowEnd(lens, s);
    CodeBelowEnd(lens, t);
    if lens[s] < lens[t] {
      ShorterIsBelow(lens, w, lens[s], lens[t]);
    } else if lens[t] < lens[s] {
      ShorterIsBelow(lens, w, lens[t], lens[s]);
    } else if s < t {
      CountMono(lens, s, t, lens[s]);
    } else if t < s {
      CountMono(lens, t, s, lens[s]);
    }
  }

  /** Distinct codes never agree on the length of the shorter: `c` of length `l` is no prefix of `d`. */
  lemma {:induction false} PrefixFree(lens: seq<nat>, s: nat, t: nat)
    requires Lengths(lens) && KraftOk(lens)
    requires s < |lens| && t < |lens| && s != t && 0 < lens[s] <= lens[t]
    ensures Shr(Code(lens, t), lens[t] - lens[s]) != Code(lens, s)
  {
    if Shr(Code(lens, t), lens[t] - lens[s]) == Code(lens, s) {
      var l := lens[t];
      CodeFits(lens, t);
      var w := Msb(Code(lens, t), l);
      MsbMsb(Code(lens, t), l);
      LowId(Code(lens, t), l);
      MsbShr(w, l, l - lens[s]);
      SpellsUnique(lens, s, t, w);
    }
  }

  // ----- which window has no code -----

  /** A window whose first `l` bits lie between the codes of shorter lengths and `EndCode` spells one. */
  lemma {:induction false} SymbolAt(lens: seq<nat>, w: nat, l: nat) returns (sym: nat)
    requires 0 < l && FirstCode(lens, l) <= Msb(w, l) < EndCode(lens, l)
    ensures Spells(lens, sym, w) && lens[sym] == l
    ensures Count(lens, sym, l) == Msb(w, l) - FirstCode(lens, l)
  {
    sym := SymbolWithCount(lens, |lens|, l, Msb(w, l) - FirstCode(lens, l));
  }

  /** No code up to length `l` is spelt exactly when the first `l` bits lie at or past `EndCode`. */
  lemma {:induction false} NothingUpTo(lens: seq<nat>, w: nat, l: nat)
    ensures (forall sym: nat :: Spells(lens, sym, w) ==> lens[sym] > l) <==> Msb(w, l) >= EndCode(lens, l)
  {
    if l > 0 {
      NothingUpTo(lens, w, l - 1);
      if Msb(w, l) >= EndCode(lens, l) {
        forall sym: nat | Spells(lens, sym, w) ensures lens[sym] > l {
          CodeBelowEnd(lens, sym);
        }
      } else if Msb(w, l) >= FirstCode(lens, l) {
        var sym := SymbolAt(lens, w, l);
      } else {
        assert Msb(w, l - 1) < EndCode(lens, l - 1);
      }
    } else {
      assert EndCode(lens, 0) == 0;
    }
  }
}
