/** The word-packed bit array of `bitArray.h` and its run iterator. */
module BitArrays {
  import opened Bits
  import opened BitRuns

  /** `~uint64_t {0}` */
  function Full(): nat { Not(0, 64) }

  predicate IsWord(x: nat) { x < Pow2(64) }

  // ----- the bit-counting functions of <bit>, on 64-bit words -----

  function CountrZero(x: nat): nat
    requires x != 0
  {
    if x % 2 == 1 then 0 else 1 + CountrZero(x / 2)
  }

  function CountrOne(x: nat): nat {
    if x % 2 == 0 then 0 else 1 + CountrOne(x / 2)
  }

  /** Leading zeros and ones below bit `w`. */
  function LeadingZeros(x: nat, w: nat): nat {
    if w == 0 || BitOf(x, w - 1) then 0 else 1 + LeadingZeros(x, w - 1)
  }

  function LeadingOnes(x: nat, w: nat): nat {
    if w == 0 || !BitOf(x, w - 1) then 0 else 1 + LeadingOnes(x, w - 1)
  }

  function CountlZero(x: nat): nat { LeadingZeros(x, 64) }
  function CountlOne(x: nat): nat { LeadingOnes(x, 64) }

  lemma {:induction false} CountrZeroBits(x: nat)
    requires x != 0
    ensures BitOf(x, CountrZero(x)) && forall k: nat :: k < CountrZero(x) ==> !BitOf(x, k)
  {
    if x % 2 == 0 {
      CountrZeroBits(x / 2);
      forall k: nat | k < CountrZero(x) ensures !BitOf(x, k) {
        if k > 0 {
          assert !BitOf(x / 2, k - 1);
        }
      }
    }
  }

  lemma {:induction false} CountrOneBits(x: nat)
    ensures !BitOf(x, CountrOne(x)) && forall k: nat :: k < CountrOne(x) ==> BitOf(x, k)
  {
    if x % 2 == 1 {
      CountrOneBits(x / 2);
      forall k: nat | k < CountrOne(x) ensures BitOf(x, k) {
        if k > 0 {
          assert BitOf(x / 2, k - 1);
        }
      }
    }
  }

  lemma {:induction false} LeadingZerosBits(x: nat, w: nat)
    ensures var z := LeadingZeros(x, w);
      z <= w && (z < w ==> BitOf(x, w - 1 - z)) && forall k: nat :: w - z <= k < w ==> !BitOf(x, k)
  {
    if w > 0 && !BitOf(x, w - 1) {
      LeadingZerosBits(x, w - 1);
    }
  }

  lemma {:induction false} LeadingOnesBits(x: nat, w: nat)
    ensures var z := LeadingOnes(x, w);
      z <= w && (z < w ==> !BitOf(x, w - 1 - z)) && forall k: nat :: w - z <= k < w ==> BitOf(x, k)
  {
    if w > 0 && BitOf(x, w - 1) {
      LeadingOnesBits(x, w - 1);
    }
  }

  // ----- words -----

  lemma WordHigh(x: nat)
    requires IsWord(x)
    ensures forall k: nat :: k >= 64 ==> !BitOf(x, k)
  {
    hide Pow2;
    forall k: nat | k >= 64 ensures !BitOf(x, k) {
      HighBitsZero(x, 64, k);
    }
  }

  lemma FullBits()
    ensures IsWord(Full()) && forall k: nat :: BitOf(Full(), k) <==> k < 64
  {
    hide Not, BitOf, Pow2;
    forall k: nat ensures BitOf(Full(), k) <==> k < 64 {
      NotBit(0, 64, k);
      BitOfZero(k);
    }
    BitsBound(Full(), 64);
  }

  lemma ZeroBits()
    ensures forall k: nat :: !BitOf(0, k)
  {
    forall k: nat ensures !BitOf(0, k) {
      BitOfZero(k);
    }
  }

  /** Only the word of all ones begins, or ends, with 64 ones. */
  lemma OnesOfWord(x: nat)
    requires IsWord(x)
    ensures CountrOne(x) <= 64 && CountlOne(x) <= 64
    ensures x == Full() <==> CountrOne(x) == 64
    ensures x == Full() <==> CountlOne(x) == 64
  {
    hide BitOf, Full, Pow2, CountrOne, LeadingOnes;
    FullBits();
    WordHigh(x);
    CountrOneBits(x);
    LeadingOnesBits(x, 64);
    assert !BitOf(x, 64);
    if CountrOne(x) >= 64 || CountlOne(x) >= 64 {
      SameLowBits(x, Full(), 64);
    }
  }

  /** `~uint64_t {0} << k` */
  function OnesFrom(k: nat): nat
    requires k < 64
  {
    Low(Shl(Full(), k), 64)
  }

  /** The mask of the bits up to `k`, as the source writes it. */
  function OnesTo(k: nat): nat
    requires k < 64
  {
    if k == 63 then Full() else (ShlIsMul(1, k + 1); Shl(1, k + 1) - 1)
  }

  lemma OnesFromBits(m: nat)
    requires m < 64
    ensures IsWord(OnesFrom(m)) && forall k: nat :: BitOf(OnesFrom(m), k) <==> m <= k < 64
  {
    hide BitOf, Full, Pow2, Shl, Low;
    FullBits();
    forall k: nat ensures BitOf(OnesFrom(m), k) <==> m <= k < 64 {
      LowBit(Shl(Full(), m), 64, k);
      ShlBit(Full(), m, k);
    }
    BitsBound(OnesFrom(m), 64);
  }

  lemma {:induction false} BelowPow2Bits(m: nat, k: nat)
    ensures BitOf(Pow2(m) - 1, k) <==> k < m
  {
    if m == 0 {
      BitOfZero(k);
    } else if k > 0 {
      assert (Pow2(m) - 1) / 2 == Pow2(m - 1) - 1;
      BelowPow2Bits(m - 1, k - 1);
    }
  }

  lemma OnesToBits(m: nat)
    requires m < 64
    ensures IsWord(OnesTo(m)) && forall k: nat :: BitOf(OnesTo(m), k) <==> k <= m
  {
    hide BitOf, Full, Pow2, Shl;
    FullBits();
    ShlIsMul(1, m + 1);
    forall k: nat ensures BitOf(OnesTo(m), k) <==> k <= m {
      BelowPow2Bits(m + 1, k);
    }
    BitsBound(OnesTo(m), 64);
  }

  lemma AndWord(a: nat, b: nat)
    requires IsWord(a) || IsWord(b)
    ensures IsWord(And(a, b)) && forall k: nat :: BitOf(And(a, b), k) <==> BitOf(a, k) && BitOf(b, k)
  {
    hide BitOf, And, Pow2;
    forall k: nat ensures BitOf(And(a, b), k) <==> BitOf(a, k) && BitOf(b, k) {
      AndBit(a, b, k);
    }
    if IsWord(a) {
      WordHigh(a);
    } else {
      WordHigh(b);
    }
    BitsBound(And(a, b), 64);
  }

  lemma OrWord(a: nat, b: nat)
    requires IsWord(a) && IsWord(b)
    ensures IsWord(Or(a, b)) && forall k: nat :: BitOf(Or(a, b), k) <==> BitOf(a, k) || BitOf(b, k)
  {
    hide BitOf, Or, Pow2;
    forall k: nat ensures BitOf(Or(a, b), k) <==> BitOf(a, k) || BitOf(b, k) {
      OrBit(a, b, k);
    }
    WordHigh(a);
    WordHigh(b);
    BitsBound(Or(a, b), 64);
  }

  lemma NotWord(a: nat)
    ensures IsWord(Not(a, 64)) && forall k: nat :: BitOf(Not(a, 64), k) <==> k < 64 && !BitOf(a, k)
  {
    hide BitOf, Not, Pow2;
    forall k: nat ensures BitOf(Not(a, 64), k) <==> k < 64 && !BitOf(a, k) {
      NotBit(a, 64, k);
    }
    BitsBound(Not(a, 64), 64);
  }

  /** `(uint64_t {1} << k) - 1` */
  function OnesBelow(k: nat): nat
    requires k < 64
  {
    ShlIsMul(1, k);
    Shl(1, k) - 1
  }

  lemma OnesBelowBits(m: nat)
    requires m < 64
    ensures IsWord(OnesBelow(m)) && forall k: nat :: BitOf(OnesBelow(m), k) <==> k < m
  {
    hide BitOf, Pow2, Shl;
    ShlIsMul(1, m);
    forall k: nat ensures BitOf(OnesBelow(m), k) <==> k < m {
      BelowPow2Bits(m, k);
    }
    BitsBound(OnesBelow(m), 64);
  }

  // ----- the bits of a sequence of words -----

  function BitsOf(words: seq<nat>): (b: seq<bool>)
    ensures |b| == 64 * |words|
  {
    seq(64 * |words|, i requires 0 <= i < 64 * |words| => BitOf(words[i / 64], i % 64))
  }

  lemma BitAt(words: seq<nat>, w: nat, k: nat)
    requires w < |words| && k < 64
    ensures BitsOf(words)[64 * w + k] == BitOf(words[w], k)
  {
    assert (64 * w + k) / 64 == w && (64 * w + k) % 64 == k;
  }

  /** Every bit lies in a word. */
  lemma BitIndex(words: seq<nat>, i: nat)
    requires i < 64 * |words|
    ensures i / 64 < |words| && i == 64 * (i / 64) + i % 64 && BitsOf(words)[i] == BitOf(words[i / 64], i % 64)
  {}

  // ----- ranges, word by word -----

  predicate InRange(start: nat, end: nat, n: nat, i: nat) {
    start <= i < end <= n
  }

  /** In word `w`, `y` has the bits of `z` inside the range and those of `x` outside. */
  ghost predicate Spliced(x: nat, z: nat, y: nat, w: nat, start: nat, end: nat) {
    IsWord(y) && forall k: nat :: k < 64 ==>
      (BitOf(y, k) <==> if start <= 64 * w + k < end then BitOf(z, k) else BitOf(x, k))
  }

  ghost predicate AllSpliced(x: seq<nat>, z: seq<nat>, y: seq<nat>, start: nat, end: nat) {
    |x| == |y| == |z| && forall w :: 0 <= w < |x| ==> Spliced(x[w], z[w], y[w], w, start, end)
  }

  /** Word by word is bit by bit. */
  lemma SplicedBits(x: seq<nat>, z: seq<nat>, y: seq<nat>, start: nat, end: nat)
    requires AllSpliced(x, z, y, start, end) && end <= 64 * |x|
    ensures forall i :: 0 <= i < 64 * |x| ==>
      BitsOf(y)[i] == if InRange(start, end, 64 * |x|, i) then BitsOf(z)[i] else BitsOf(x)[i]
  {
    hide BitOf, IsWord;
    forall i | 0 <= i < 64 * |x|
      ensures BitsOf(y)[i] == if InRange(start, end, 64 * |x|, i) then BitsOf(z)[i] else BitsOf(x)[i]
    {
      BitIndex(x, i);
      BitIndex(y, i);
      BitIndex(z, i);
      assert Spliced(x[i / 64], z[i / 64], y[i / 64], i / 64, start, end);
    }
  }

  /** The first and last words of a range, and the masks of the source. */
  datatype Span = Span(firstWord: nat, lastWord: nat, startBit: nat, endBit: nat)

  function SpanOf(start: nat, end: nat): Span
    requires start < end
  {
    Span(start / 64, (end - 1) / 64, start % 64, (end - 1) % 64)
  }

  lemma SpanBits(start: nat, end: nat, w: nat, k: nat)
    requires start < end && k < 64
    ensures var s := SpanOf(start, end);
      && s.startBit < 64 && s.endBit < 64 && s.firstWord <= s.lastWord
      && (start <= 64 * w + k < end <==>
          && s.firstWord <= w <= s.lastWord
          && (w == s.firstWord ==> s.startBit <= k)
          && (w == s.lastWord ==> k <= s.endBit))
  {}

  /** A word outside the range keeps its bits. */
  lemma Outside(x: nat, z: nat, w: nat, start: nat, end: nat)
    requires IsWord(x) && start < end && (w < start / 64 || w > (end - 1) / 64)
    ensures Spliced(x, z, x, w, start, end)
  {
    hide BitOf, IsWord;
    forall k: nat | k < 64 ensures BitOf(x, k) <==> if start <= 64 * w + k < end then BitOf(z, k) else BitOf(x, k) {
      SpanBits(start, end, w, k);
    }
  }

  /** A word in the middle of the range takes all its bits. */
  lemma Inside(x: nat, z: nat, w: nat, start: nat, end: nat)
    requires IsWord(z) && start < end && start / 64 < w < (end - 1) / 64
    ensures Spliced(x, z, z, w, start, end)
  {
    hide BitOf, IsWord;
    forall k: nat | k < 64 ensures BitOf(z, k) <==> if start <= 64 * w + k < end then BitOf(z, k) else BitOf(x, k) {
      SpanBits(start, end, w, k);
    }
  }

  // Setting: or with the masks of the range.

  lemma SetEnds(x: nat, start: nat, end: nat)
    requires IsWord(x) && start < end
    ensures var s := SpanOf(start, end);
      && (s.firstWord == s.lastWord ==>
          Spliced(x, Full(), Or(x, And(OnesFrom(s.startBit), OnesTo(s.endBit))), s.firstWord, start, end))
      && (s.firstWord < s.lastWord ==>
          && Spliced(x, Full(), Or(x, OnesFrom(s.startBit)), s.firstWord, start, end)
          && Spliced(x, Full(), Or(x, OnesTo(s.endBit)), s.lastWord, start, end))
  {
    hide BitOf, IsWord, Full, OnesFrom, OnesTo, And, Or;
    var s := SpanOf(start, end);
    var f, t := OnesFrom(s.startBit), OnesTo(s.endBit);
    FullBits();
    OnesFromBits(s.startBit);
    OnesToBits(s.endBit);
    AndWord(f, t);
    OrWord(x, And(f, t));
    OrWord(x, f);
    OrWord(x, t);
  }

  // Clearing: and with the complements of the masks, as the source writes them.

  function ClearTo(k: nat): nat
    requires k < 64
  {
    if k == 63 then 0 else Not(OnesBelow(k + 1), 64)
  }

  lemma ClearToBits(m: nat)
    requires m < 64
    ensures IsWord(ClearTo(m)) && forall k: nat :: k < 64 ==> (BitOf(ClearTo(m), k) <==> m < k)
  {
    hide BitOf, OnesBelow, Not, Pow2;
    ZeroBits();
    if m < 63 {
      OnesBelowBits(m + 1);
      NotWord(OnesBelow(m + 1));
    }
  }

  lemma ClearEnds(x: nat, start: nat, end: nat)
    requires IsWord(x) && start < end
    ensures var s := SpanOf(start, end);
      && (s.firstWord == s.lastWord ==>
          Spliced(x, 0, And(x, Or(OnesBelow(s.startBit), ClearTo(s.endBit))), s.firstWord, start, end))
      && (s.firstWord < s.lastWord ==>
          && Spliced(x, 0, And(x, OnesBelow(s.startBit)), s.firstWord, start, end)
          && Spliced(x, 0, And(x, ClearTo(s.endBit)), s.lastWord, start, end))
  {
    hide BitOf, IsWord, OnesBelow, ClearTo, And, Or;
    var s := SpanOf(start, end);
    var f, t := OnesBelow(s.startBit), ClearTo(s.endBit);
    ZeroBits();
    OnesBelowBits(s.startBit);
    ClearToBits(s.endBit);
    OrWord(f, t);
    AndWord(x, Or(f, t));
    AndWord(x, f);
    AndWord(x, t);
  }

  // Copying: and with the masks, into a zero word.

  lemma CopyEnds(z: nat, start: nat, end: nat)
    requires IsWord(z) && start < end
    ensures var s := SpanOf(start, end);
      && (s.firstWord == s.lastWord ==>
          Spliced(0, z, And(And(z, OnesFrom(s.startBit)), OnesTo(s.endBit)), s.firstWord, start, end))
      && (s.firstWord < s.lastWord ==>
          && Spliced(0, z, And(z, OnesFrom(s.startBit)), s.firstWord, start, end)
          && Spliced(0, z, And(z, OnesTo(s.endBit)), s.lastWord, start, end))
  {
    hide BitOf, IsWord, OnesFrom, OnesTo, And;
    var s := SpanOf(start, end);
    var f, t := OnesFrom(s.startBit), OnesTo(s.endBit);
    ZeroBits();
    OnesFromBits(s.startBit);
    OnesToBits(s.endBit);
    AndWord(z, f);
    AndWord(And(z, f), t);
    AndWord(z, t);
  }

  // ----- searching, word by word -----

  /** Bits `lo` to `hi` of an array of words are all `v`. */
  predicate Uniform(words: seq<nat>, lo: nat, hi: nat, v: bool) {
    hi <= 64 * |words| && forall i :: lo <= i < hi ==> BitsOf(words)[i] == v
  }

  /** The bits `from` to `to` of word `w` extend what is known of the bits before it. */
  lemma ExtendUp(words: seq<nat>, lo: nat, w: nat, from: nat, to: nat, v: bool)
    requires w < |words| && to <= 64 && Uniform(words, lo, 64 * w + from, v)
    requires forall k: nat :: from <= k < to ==> BitOf(words[w], k) == v
    ensures from <= to ==> Uniform(words, lo, 64 * w + to, v)
  {
    hide BitOf;
    forall i | 64 * w + from <= i < 64 * w + to ensures BitsOf(words)[i] == v {
      BitAt(words, w, i - 64 * w);
    }
  }

  lemma ExtendDown(words: seq<nat>, hi: nat, w: nat, from: nat, to: nat, v: bool)
    requires w < |words| && to <= 64 && Uniform(words, 64 * w + to, hi, v)
    requires forall k: nat :: from <= k < to ==> BitOf(words[w], k) == v
    ensures from <= to ==> Uniform(words, 64 * w + from, hi, v)
  {
    hide BitOf;
    forall i | 64 * w + from <= i < 64 * w + to ensures BitsOf(words)[i] == v {
      BitAt(words, w, i - 64 * w);
    }
  }

  class BitArray {
    const n: nat
    const data: array<nat>

    ghost predicate Valid()
      reads data
    {
      data.Length > 0 && n == 64 * data.Length && forall w :: 0 <= w < data.Length ==> IsWord(data[w])
    }

    /** The bits of the array. */
    ghost function View(): (b: seq<bool>)
      requires Valid()
      reads data
      ensures |b| == n
    {
      BitsOf(data[..])
    }

    constructor (size: nat)
      requires size != 0 && size % 64 == 0
      ensures Valid() && n == size && fresh(data) && forall i :: 0 <= i < n ==> !View()[i]
    {
      hide BitOf, Pow2;
      n := size;
      data := new nat[size / 64](_ => 0);
      new;
      ZeroBits();
      ZeroWord();
      forall i | 0 <= i < n ensures !View()[i] {
        BitIndex(data[..], i);
      }
    }

    /** The bits of `other` in the range, zeros elsewhere; nothing for an empty or invalid range. */
    constructor SubRange(other: BitArray, start: nat, end: nat)
      requires other.Valid()
      ensures Valid() && n == other.n && fresh(data)
      ensures forall i :: 0 <= i < n ==> View()[i] == (InRange(start, end, n, i) && other.View()[i])
    {
      hide BitOf, Pow2, Spliced, OnesFrom, OnesTo, And;
      n := other.n;
      data := new nat[other.data.Length](_ => 0);
      new;
      ZeroBits();
      ZeroWord();
      ghost var zeros := data[..];
      forall i | 0 <= i < n ensures !BitsOf(zeros)[i] {
        BitIndex(zeros, i);
      }
      if start >= end || end > n {
        return;
      }
      var s := SpanOf(start, end);
      CopyEnds(other.data[s.firstWord], start, end);
      CopyEnds(other.data[s.lastWord], start, end);
      forall w: nat | w < s.firstWord || w > s.lastWord
        ensures Spliced(0, if w < data.Length then other.data[w] else 0, 0, w, start, end)
      {
        Outside(0, if w < data.Length then other.data[w] else 0, w, start, end);
      }
      if s.firstWord == s.lastWord {
        data[s.firstWord] := And(And(other.data[s.firstWord], OnesFrom(s.startBit)), OnesTo(s.endBit));
      } else {
        data[s.firstWord] := And(other.data[s.firstWord], OnesFrom(s.startBit));
        var word := s.firstWord + 1;
        while word < s.lastWord
          invariant s.firstWord < word <= s.lastWord
          invariant forall w :: 0 <= w < word ==> Spliced(0, other.data[w], data[w], w, start, end)
          invariant forall w :: word <= w < data.Length ==> data[w] == 0
        {
          Inside(0, other.data[word], word, start, end);
          data[word] := other.data[word];
          word := word + 1;
        }
        data[s.lastWord] := And(other.data[s.lastWord], OnesTo(s.endBit));
      }
      SplicedViews(zeros, other.data[..], data[..], start, end);
    }

    method SetRange(start: nat, end: nat)
      requires Valid()
      modifies data
      ensures Valid()
      ensures forall i :: 0 <= i < n ==> View()[i] == (InRange(start, end, n, i) || old(View())[i])
    {
      hide BitOf, Pow2, Spliced, OnesFrom, OnesTo, And, Or, Full;
      if start >= end || end > n {
        return;
      }
      ghost var was := data[..];
      ghost var full := seq(data.Length, _ => Full());
      FullView(full);
      var s := SpanOf(start, end);
      SetEnds(was[s.firstWord], start, end);
      SetEnds(was[s.lastWord], start, end);
      forall w: nat | w < data.Length && (w < s.firstWord || w > s.lastWord)
        ensures Spliced(was[w], Full(), was[w], w, start, end)
      {
        Outside(was[w], Full(), w, start, end);
      }
      if s.firstWord == s.lastWord {
        data[s.firstWord] := Or(data[s.firstWord], And(OnesFrom(s.startBit), OnesTo(s.endBit)));
      } else {
        data[s.firstWord] := Or(data[s.firstWord], OnesFrom(s.startBit));
        var word := s.firstWord + 1;
        while word < s.lastWord
          invariant s.firstWord < word <= s.lastWord
          invariant forall w :: 0 <= w < word ==> Spliced(was[w], Full(), data[w], w, start, end)
          invariant forall w :: word <= w < data.Length ==> data[w] == was[w]
        {
          FullBits();
          Inside(was[word], Full(), word, start, end);
          data[word] := Full();
          word := word + 1;
        }
        data[s.lastWord] := Or(data[s.lastWord], OnesTo(s.endBit));
      }
      SplicedViews(was, full, data[..], start, end);
    }

    method UnsetRange(start: nat, end: nat)
      requires Valid()
      modifies data
      ensures Valid()
      ensures forall i :: 0 <= i < n ==> View()[i] == (!InRange(start, end, n, i) && old(View())[i])
    {
      hide BitOf, Pow2, Spliced, OnesBelow, ClearTo, And, Or;
      if start >= end || end > n {
        return;
      }
      ghost var was := data[..];
      ghost var zeros := seq(data.Length, _ => 0);
      ZeroView(zeros);
      var s := SpanOf(start, end);
      ClearEnds(was[s.firstWord], start, end);
      ClearEnds(was[s.lastWord], start, end);
      forall w: nat | w < data.Length && (w < s.firstWord || w > s.lastWord)
        ensures Spliced(was[w], 0, was[w], w, start, end)
      {
        Outside(was[w], 0, w, start, end);
      }
      if s.firstWord == s.lastWord {
        data[s.firstWord] := And(data[s.firstWord], Or(OnesBelow(s.startBit), ClearTo(s.endBit)));
      } else {
        data[s.firstWord] := And(data[s.firstWord], OnesBelow(s.startBit));
        var word := s.firstWord + 1;
        while word < s.lastWord
          invariant s.firstWord < word <= s.lastWord
          invariant forall w :: 0 <= w < word ==> Spliced(was[w], 0, data[w], w, start, end)
          invariant forall w :: word <= w < data.Length ==> data[w] == was[w]
        {
          ZeroWord();
          Inside(was[word], 0, word, start, end);
          data[word] := 0;
          word := word + 1;
        }
        data[s.lastWord] := And(data[s.lastWord], ClearTo(s.endBit));
      }
      SplicedViews(was, zeros, data[..], start, end);
    }

    /** The first run of set bits from `start` on, as a scan bit by bit would find it. */
    method FirstRangeFrom(start: nat) returns (r: (nat, nat))
      requires Valid()
      ensures r == RunFrom(View(), start)
    {
      hide BitOf, IsWord, Full, OnesFrom, And, Shr, CountrZero, CountrOne, LeadingOnes, BitsOf, RunFrom;
      if start >= n {
        NoBits(View(), start);
        return (n, n);
      }
      ghost var words := data[..];
      var wordIndex := start / 64;
      var word := And(data[wordIndex], OnesFrom(start % 64));
      OnesFromBits(start % 64);
      AndWord(data[wordIndex], OnesFrom(start % 64));
      ZeroBits();
      // Bits of `word` are those of the array from `start` on.
      ghost var low: nat := start % 64;
      while word == 0
        invariant wordIndex < data.Length && low < 64
        invariant forall k: nat :: k < 64 ==> (BitOf(word, k) <==> low <= k && BitOf(words[wordIndex], k))
        invariant IsWord(word) && start <= 64 * wordIndex + low && Uniform(words, start, 64 * wordIndex + low, false)
        decreases data.Length - wordIndex
      {
        ExtendUp(words, start, wordIndex, low, 64, false);
        wordIndex := wordIndex + 1;
        if wordIndex == data.Length {
          NoRunFrom(View(), start);
          return (n, n);
        }
        word := data[wordIndex];
        low := 0;
      }
      CountrZeroBits(word);
      WordHigh(word);
      var firstBit := CountrZero(word);
      var first := wordIndex * 64 + firstBit;
      ExtendUp(words, start, wordIndex, low, firstBit, false);
      var rest := Shr(data[wordIndex], firstBit);
      var firstOnes := CountrOne(rest);
      RunInWord(data[wordIndex], firstBit);
      assert Uniform(words, first, first, true);
      ExtendUp(words, first, wordIndex, firstBit, firstBit + firstOnes, true);
      if firstBit + firstOnes < 64 {
        BitAt(words, wordIndex, firstBit + firstOnes);
        RunFromIs(View(), start, first, first + firstOnes);
        return (first, first + firstOnes);
      }
      wordIndex := wordIndex + 1;
      while wordIndex < data.Length
        invariant wordIndex <= data.Length && Uniform(words, first, 64 * wordIndex, true)
      {
        word := data[wordIndex];
        OnesOfWord(word);
        CountrOneBits(word);
        ExtendUp(words, first, wordIndex, 0, CountrOne(word), true);
        if word != Full() {
          BitAt(words, wordIndex, CountrOne(word));
          RunFromIs(View(), start, first, wordIndex * 64 + CountrOne(word));
          return (first, wordIndex * 64 + CountrOne(word));
        }
        wordIndex := wordIndex + 1;
      }
      RunFromIs(View(), start, first, n);
      return (first, n);
    }

    /** Follows a run down through whole words. */
    method RunDown(fromWord: nat, ghost last: nat) returns (first: nat)
      requires Valid() && fromWord < data.Length && Uniform(data[..], 64 * fromWord, last, true) && 64 * fromWord < last
      ensures first <= 64 * fromWord && Uniform(data[..], first, last, true) && (first > 0 ==> !View()[first - 1])
    {
      hide BitOf, IsWord, Full, LeadingOnes, CountrOne, BitsOf;
      ghost var words := data[..];
      var wordIndex: nat := fromWord;
      while wordIndex != 0
        invariant wordIndex <= fromWord && Uniform(words, 64 * wordIndex, last, true)
      {
        wordIndex := wordIndex - 1;
        var word := data[wordIndex];
        OnesOfWord(word);
        LeadingOnesBits(word, 64);
        ExtendDown(words, last, wordIndex, 64 - CountlOne(word), 64, true);
        if word != Full() {
          BitAt(words, wordIndex, 63 - CountlOne(word));
          return (wordIndex + 1) * 64 - CountlOne(word);
        }
      }
      return 0;
    }

    /** The last run of set bits before `end`. */
    method LastRangeFrom(e: nat) returns (r: (nat, nat))
      requires Valid()
      ensures r == RunBefore(View(), e)
    {
      hide BitOf, IsWord, Full, OnesTo, And, Shl, Low, CountrOne, LeadingOnes, LeadingZeros, BitsOf, RunBefore;
      if e == 0 {
        NoRunBefore(View(), 0);
        return (0, 0);
      }
      var end := if e > n then n else e;
      ClipRun(View(), e);
      ghost var words := data[..];
      var wordIndex := (end - 1) / 64;
      var endBit := (end - 1) % 64;
      var word := And(data[wordIndex], OnesTo(endBit));
      OnesToBits(endBit);
      AndWord(data[wordIndex], OnesTo(endBit));
      ZeroBits();
      // Bits of `word` are those of the array before `end`.
      ghost var high := endBit + 1;
      while word == 0
        invariant wordIndex < data.Length && 0 < high <= 64
        invariant forall k: nat :: k < 64 ==> (BitOf(word, k) <==> k < high && BitOf(words[wordIndex], k))
        invariant IsWord(word) && 64 * wordIndex + high <= end && Uniform(words, 64 * wordIndex + high, end, false)
        decreases wordIndex
      {
        ExtendDown(words, end, wordIndex, 0, high, false);
        if wordIndex == 0 {
          NoRunBefore(View(), end);
          return (0, 0);
        }
        wordIndex := wordIndex - 1;
        word := data[wordIndex];
        high := 64;
      }
      LeadingZerosBits(word, 64);
      NonZero(word);
      var emptyBits := CountlZero(word);
      var ones := CountlOne(Low(Shl(word, emptyBits), 64));
      var last := (wordIndex + 1) * 64 - emptyBits;
      ghost var top := 64 - emptyBits;
      assert BitOf(word, top - 1);
      ExtendDown(words, end, wordIndex, top, high, false);
      RunAtTop(word, emptyBits);
      assert Uniform(words, 64 * wordIndex + top, last, true);
      ExtendDown(words, last, wordIndex, top - ones, top, true);
      if emptyBits + ones < 64 {
        BitAt(words, wordIndex, top - ones - 1);
        RunBeforeIs(View(), end, last - ones, last);
        return (last - ones, last);
      }
      var first := RunDown(wordIndex, last);
      RunBeforeIs(View(), end, first, last);
      return (first, last);
    }
  }

  lemma NoBits(b: seq<bool>, start: nat)
    requires start >= |b|
    ensures RunFrom(b, start) == (|b|, |b|)
  {}

  /** Bits past the end change nothing. */
  lemma ClipRun(b: seq<bool>, e: nat)
    ensures e > |b| ==> RunBefore(b, e) == RunBefore(b, |b|)
  {}

  lemma NonZero(x: nat)
    requires IsWord(x) && x != 0
    ensures exists k: nat :: k < 64 && BitOf(x, k)
  {
    hide BitOf, Pow2;
    CountrZeroBits(x);
    WordHigh(x);
    assert BitOf(x, CountrZero(x));
  }

  /** The ones counted in a word shifted right. */
  lemma RunInWord(x: nat, from: nat)
    requires IsWord(x) && from < 64
    ensures var ones := CountrOne(Shr(x, from));
      && from + ones <= 64
      && (forall k: nat :: from <= k < from + ones ==> BitOf(x, k))
      && !BitOf(x, from + ones)
  {
    hide BitOf, Pow2, Shr, CountrOne;
    var ones := CountrOne(Shr(x, from));
    CountrOneBits(Shr(x, from));
    WordHigh(x);
    ShrBit(x, from, ones);
    forall k: nat | from <= k < from + ones ensures BitOf(x, k) {
      ShrBit(x, from, k - from);
    }
    ShrBit(x, from, 64 - from);
    assert !BitOf(x, 64);
  }

  /** The ones counted in a word shifted left, from its highest set bit down. */
  lemma RunAtTop(x: nat, empty: nat)
    requires IsWord(x) && empty < 64
    ensures var ones, top := CountlOne(Low(Shl(x, empty), 64)), 64 - empty;
      && ones <= top
      && (forall k: nat :: top - ones <= k < top ==> BitOf(x, k))
      && (ones < top ==> !BitOf(x, top - ones - 1))
  {
    hide BitOf, Pow2, Shl, Low, LeadingOnes;
    var y, top := Low(Shl(x, empty), 64), 64 - empty;
    var ones := CountlOne(y);
    LeadingOnesBits(y, 64);
    forall k: nat | k < 64 ensures BitOf(y, k) <==> k >= empty && BitOf(x, k - empty) {
      LowBit(Shl(x, empty), 64, k);
      ShlBit(x, empty, k);
    }
    assert empty > 0 ==> !BitOf(y, empty - 1);
    forall k: nat | top - ones <= k < top ensures BitOf(x, k) {
      assert BitOf(y, k + empty);
    }
    if ones < top {
      assert !BitOf(y, 63 - ones);
    }
  }

  lemma ZeroWord()
    ensures IsWord(0)
  {}

  lemma FullView(words: seq<nat>)
    requires forall w :: 0 <= w < |words| ==> words[w] == Full()
    ensures forall i :: 0 <= i < 64 * |words| ==> BitsOf(words)[i]
  {
    hide BitOf, Full;
    FullBits();
    forall i | 0 <= i < 64 * |words| ensures BitsOf(words)[i] {
      BitIndex(words, i);
    }
  }

  lemma ZeroView(words: seq<nat>)
    requires forall w :: 0 <= w < |words| ==> words[w] == 0
    ensures forall i :: 0 <= i < 64 * |words| ==> !BitsOf(words)[i]
  {
    hide BitOf;
    ZeroBits();
    forall i | 0 <= i < 64 * |words| ensures !BitsOf(words)[i] {
      BitIndex(words, i);
    }
  }

  lemma SplicedViews(x: seq<nat>, z: seq<nat>, y: seq<nat>, start: nat, end: nat)
    requires AllSpliced(x, z, y, start, end) && end <= 64 * |x|
    ensures forall i :: 0 <= i < 64 * |x| ==>
      BitsOf(y)[i] == if InRange(start, end, 64 * |x|, i) then BitsOf(z)[i] else BitsOf(x)[i]
    ensures forall w :: 0 <= w < |y| ==> IsWord(y[w])
  {
    hide BitOf, IsWord;
    SplicedBits(x, z, y, start, end);
    forall w | 0 <= w < |y| ensures IsWord(y[w]) {
      assert Spliced(x[w], z[w], y[w], w, start, end);
    }
  }

  /** The iterator over the runs of an array. */
  class Iterator {
    const bits: BitArray
    var range: (nat, nat)

    constructor (b: BitArray, start: nat)
      requires b.Valid()
      ensures bits == b && range == RunFrom(b.View(), start)
    {
      bits := b;
      range := (0, 0);
      new;
      range := b.FirstRangeFrom(start);
    }

    method Next()
      requires bits.Valid()
      modifies this`range
      ensures range == RunFrom(bits.View(), old(range).1)
    {
      range := bits.FirstRangeFrom(range.1);
    }
  }

  /** The loop `for (range : bits)`: from begin to end, it visits every run of set bits once. */
  method ForEachRange(bits: BitArray) returns (runs: seq<(nat, nat)>)
    requires bits.Valid()
    ensures runs == RunsFrom(bits.View(), 0)
    ensures forall k :: 0 <= k < |runs| ==> Maximal(bits.View(), runs[k])
    ensures forall k :: 0 <= k < |runs| - 1 ==> runs[k].1 < runs[k + 1].0
    ensures forall i: nat :: Covered(runs, i) <==> i < bits.n && bits.View()[i]
  {
    hide BitsOf, RunFrom, RunsFrom, Maximal, Covered, IsWord;
    ghost var b := bits.View();
    var it := new Iterator(bits, 0);
    var end := new Iterator(bits, bits.n);
    NoBits(b, bits.n);
    AllRuns(b);
    runs := [];
    ghost var at := 0;
    while it.range != end.range
      invariant end.range == (bits.n, bits.n) && it.range == RunFrom(b, at) && at <= bits.n
      invariant RunsFrom(b, 0) == runs + RunsFrom(b, at)
      decreases bits.n - at
    {
      RunShape(b, at);
      assert runs + ([it.range] + RunsFrom(b, it.range.1)) == (runs + [it.range]) + RunsFrom(b, it.range.1);
      runs := runs + [it.range];
      at := it.range.1;
      it.Next();
    }
    RunShape(b, at);
  }

  /** All runs of an array: maximal, increasing without touching each other, and exactly the set bits. */
  lemma {:induction false} AllRuns(b: seq<bool>)
    ensures var rs := RunsFrom(b, 0);
      && (forall k :: 0 <= k < |rs| ==> Maximal(b, rs[k]))
      && (forall k :: 0 <= k < |rs| - 1 ==> rs[k].1 < rs[k + 1].0)
      && (forall i: nat :: Covered(rs, i) <==> i < |b| && b[i])
  {
    hide Maximal, Covered, RunsFrom;
    var rs := RunsFrom(b, 0);
    RunsApart(b, 0);
    forall i: nat ensures Covered(rs, i) <==> i < |b| && b[i] {
      RunsCover(b, 0, i);
    }
  }

  lemma RunShape(b: seq<bool>, i: nat)
    requires i <= |b|
    ensures var r := RunFrom(b, i);
      (r.0 < |b| ==> i <= r.0 < r.1 <= |b|) && (r.0 >= |b| ==> r == (|b|, |b|))
    ensures RunsFrom(b, i) == if RunFrom(b, i).0 == |b| then [] else [RunFrom(b, i)] + RunsFrom(b, RunFrom(b, i).1)
  {}
}
