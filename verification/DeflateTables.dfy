/** The tables of RFC 1951 by their rules: which lengths and distances the symbols stand for (section 3.2.5), the
    order of the code length code lengths (section 3.2.7), and the fixed codes (section 3.2.6). */
module DeflateTables {
  import opened Arithmetic
  import opened Bits
  import opened BitStream
  import opened HuffmanCode
  import opened Deflate

  // ----- lengths -----

  /** Extra bits: none for the first eight symbols and the last, then one more for every four symbols. */
  lemma LengthExtraRule(s: LengthSymbol)
    ensures s < 265 ==> LengthExtra(s) == 0
    ensures 265 <= s < 285 ==> LengthExtra(s) == (s - 261) / 4
    ensures s >= 285 ==> LengthExtra(s) == 0
  {}

  /** The lengths of a symbol begin where those of the one before end; the last symbol is 258 alone. */
  lemma LengthBaseRule(s: LengthSymbol)
    ensures LengthBase(257) == 3 && LengthBase(285) == 258
    ensures s < 284 ==> LengthBase(s + 1) == LengthBase(s) + Pow2(LengthExtra(s))
    ensures LengthBase(284) + Pow2(LengthExtra(284)) == 259
  {
    assert Pow2(0) == 1 && Pow2(1) == 2 && Pow2(2) == 4 && Pow2(3) == 8 && Pow2(4) == 16 && Pow2(5) == 32;
  }

  // ----- distances -----

  lemma DistExtraRule(s: DistanceSymbol)
    ensures s < 4 ==> DistExtra(s) == 0
    ensures 4 <= s < 30 ==> DistExtra(s) == s / 2 - 1
    ensures s >= 30 ==> DistExtra(s) == 0
  {}

  lemma DistBaseRule(s: DistanceSymbol)
    ensures DistBase(0) == 1
    ensures s < 29 ==> DistBase(s + 1) == DistBase(s) + Pow2(DistExtra(s))
    ensures DistBase(29) + Pow2(DistExtra(29)) == 32769
  {
    SmallPowersOfTwo();
  }

  lemma SmallPowersOfTwo()
    ensures Pow2(0) == 1 && Pow2(1) == 2 && Pow2(2) == 4 && Pow2(3) == 8 && Pow2(4) == 16 && Pow2(5) == 32
    ensures Pow2(6) == 64 && Pow2(7) == 128 && Pow2(8) == 256 && Pow2(9) == 512 && Pow2(10) == 1024
    ensures Pow2(11) == 2048 && Pow2(12) == 4096 && Pow2(13) == 8192
  {
    assert Pow2(5) == 32;
    assert Pow2(9) == 16 * Pow2(5);
    assert Pow2(13) == 16 * Pow2(9);
  }

  // ----- every length and every distance, once -----

  /** The first symbols whose lengths reach `n`, and the extra bits. */
  lemma {:induction false} EveryLength(n: nat, s: LengthSymbol) returns (t: LengthSymbol, x: nat)
    requires LengthBase(s) <= n <= 257 && s <= 284
    ensures s <= t <= 284 && x < Pow2(LengthExtra(t)) && LengthBase(t) + x == n
    decreases 284 - s
  {
    hide LengthBase, LengthExtra;
    LengthBaseRule(s);
    if n < LengthBase(s) + Pow2(LengthExtra(s)) {
      t, x := s, n - LengthBase(s);
    } else {
      t, x := EveryLength(n, s + 1);
    }
  }

  lemma {:induction false} EveryDistance(n: nat, s: DistanceSymbol) returns (t: DistanceSymbol, x: nat)
    requires DistBase(s) <= n <= 32768 && s <= LAST_DISTANCE_SYMBOL
    ensures s <= t <= LAST_DISTANCE_SYMBOL && x < Pow2(DistExtra(t)) && DistBase(t) + x == n
    decreases LAST_DISTANCE_SYMBOL - s
  {
    hide DistBase, DistExtra;
    DistBaseRule(s);
    if n < DistBase(s) + Pow2(DistExtra(s)) {
      t, x := s, n - DistBase(s);
    } else {
      t, x := EveryDistance(n, s + 1);
    }
  }

  lemma {:induction false} LengthsApart(s: LengthSymbol, t: LengthSymbol)
    requires s < t <= 284
    ensures LengthBase(s) + Pow2(LengthExtra(s)) <= LengthBase(t)
    decreases t - s
  {
    hide LengthBase, LengthExtra;
    LengthBaseRule(s);
    if s + 1 < t {
      LengthsApart(s + 1, t);
    }
  }

  lemma {:induction false} DistancesApart(s: DistanceSymbol, t: DistanceSymbol)
    requires s < t <= LAST_DISTANCE_SYMBOL
    ensures DistBase(s) + Pow2(DistExtra(s)) <= DistBase(t)
    decreases t - s
  {
    hide DistBase, DistExtra;
    DistBaseRule(s);
    if s + 1 < t {
      DistancesApart(s + 1, t);
    }
  }

  // ----- the order of the code length code lengths -----

  /** The three repeat symbols and 0, then outwards from 8: 8, 7, 9, 6, and so on. */
  lemma OrderRule(i: ClIndex)
    ensures i < 3 ==> CodeLengthOrder(i) == 16 + i
    ensures CodeLengthOrder(3) == 0
    ensures i >= 4 ==> CodeLengthOrder(i) == if i % 2 == 0 then 8 + (i - 4) / 2 else 7 - (i - 5) / 2
  {}

  /** How often the three repeat symbols repeat: 3 to 6, 3 to 10, and 11 to 138 times. */
  lemma OpCounts(input: seq<Byte>, p: nat, cl: seq<nat>, op: LenOp)
    requires OpAt(input, p, cl, op)
    ensures op.Repeat? ==> 3 <= op.n <= 6
    ensures op.Zeros? ==> 3 <= op.n <= 10
    ensures op.ManyZeros? ==> 11 <= op.n <= 138
  {
    hide Lsb, SymAt;
    SmallPowersOfTwo();
  }

  // ----- canonical codes -----

  /** A shorter code comes first: all bit strings that start with it are below the longer code. */
  lemma {:induction false} ShorterFirst(lens: seq<nat>, l: nat, m: nat)
    requires l < m
    ensures EndCode(lens, l) * Pow2(m - l) <= FirstCode(lens, m)
  {
    if l + 1 < m {
      ShorterFirst(lens, l, m - 1);
      assert EndCode(lens, l) * Pow2(m - l) == 2 * (EndCode(lens, l) * Pow2(m - 1 - l));
    } else {
      assert Pow2(1) == 2 && FirstCode(lens, m) == 2 * EndCode(lens, l);
    }
  }

  /** Codes increase with length, and among codes of one length with the symbol. */
  lemma {:induction false} CanonicalOrder(lens: seq<nat>, s: nat, t: nat)
    requires s < |lens| && t < |lens| && 0 < lens[s] <= lens[t]
    ensures lens[s] == lens[t] && s < t ==> Code(lens, s) < Code(lens, t)
    ensures lens[s] < lens[t] ==> (Code(lens, s) + 1) * Pow2(lens[t] - lens[s]) <= Code(lens, t)
  {
    hide FirstCode, Count, LenCount;
    CodeBelowEnd(lens, s);
    CodeBelowEnd(lens, t);
    if lens[s] < lens[t] {
      ShorterFirst(lens, lens[s], lens[t]);
      MulMono(Pow2(lens[t] - lens[s]), Code(lens, s) + 1, EndCode(lens, lens[s]));
    } else if s < t {
      CountMono(lens, s, t, lens[s]);
    }
  }

  // ----- the fixed codes -----

  lemma {:induction false} FixedCount(n: nat, l: nat)
    requires n <= 288
    ensures Count(FixedLit(), n, l) ==
      if l == 7 then Between(n, 256, 280)
      else if l == 8 then Between(n, 0, 144) + Between(n, 280, 288)
      else if l == 9 then Between(n, 144, 256) else 0
  {
    if n > 0 {
      FixedCount(n - 1, l);
    }
  }

  /** How many numbers below `n` lie from `a` up to `b`. */
  function Between(n: nat, a: nat, b: nat): nat
    requires a <= b
  {
    if n <= a then 0 else if n <= b then n - a else b - a
  }

  lemma {:induction false} FixedFirst(l: nat)
    requires l <= 9
    ensures FirstCode(FixedLit(), l) == if l <= 7 then 0 else if l == 8 then 0x30 else 0x190
  {
    hide FixedLit, Count;
    if l > 0 {
      FixedFirst(l - 1);
      FixedCount(288, l - 1);
    }
  }

  /** The table of section 3.2.6. */
  lemma {:induction false} FixedCodes(sym: nat)
    requires sym < 288
    ensures sym < 144 ==> FixedLit()[sym] == 8 && Code(FixedLit(), sym) == 0x30 + sym
    ensures 144 <= sym < 256 ==> FixedLit()[sym] == 9 && Code(FixedLit(), sym) == 0x190 + (sym - 144)
    ensures 256 <= sym < 280 ==> FixedLit()[sym] == 7 && Code(FixedLit(), sym) == sym - 256
    ensures 280 <= sym ==> FixedLit()[sym] == 8 && Code(FixedLit(), sym) == 0xC0 + (sym - 280)
  {
    hide Count, FirstCode;
    var l := FixedLit()[sym];
    FixedFirst(l);
    FixedCount(sym, l);
  }

  lemma {:induction false} FixedDistCount(n: nat, l: nat)
    requires n <= 32
    ensures Count(FixedDist(), n, l) == if l == 5 then n else 0
  {
    if n > 0 {
      FixedDistCount(n - 1, l);
    }
  }

  lemma {:induction false} FixedDistFirst(l: nat)
    requires l <= 5
    ensures FirstCode(FixedDist(), l) == 0
  {
    hide FixedDist, Count;
    if l > 0 {
      FixedDistFirst(l - 1);
      FixedDistCount(32, l - 1);
    }
  }

  /** Fixed distance codes are the symbols in five bits. */
  lemma {:induction false} FixedDistances(sym: nat)
    requires sym < 32
    ensures FixedDist()[sym] == 5 && Code(FixedDist(), sym) == sym
  {
    hide Count, FirstCode;
    FixedDistFirst(5);
    FixedDistCount(sym, 5);
  }
}
