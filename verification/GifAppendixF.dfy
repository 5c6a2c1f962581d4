/** GIF89a Appendix F without the limits of the source: a table that stops growing at 4096 strings, however
    long the clear code is deferred, and no clear code demanded at the start. The decoder of the source agrees
    with it on streams that do not start with a data code, until the counter of codes given out, which the source
    never stops, runs out. */
module GifAppendixF {
  import opened Bits
  import opened BitStream
  import opened GifLzw

  /** The decoder between two codes: the strings entered, the string of the code before (empty right after a
      clear code), and the width of the next code. */
  datatype Dict = Dict(table: seq<seq<Byte>>, prev: seq<Byte>, width: nat)

  function Fresh(size: nat): Dict {
    Dict(Roots(size), [], size + 1)
  }

  const FULL: nat := 4096

  datatype Reading = Output(out: seq<Byte>, after: Dict) | Stop | Wrong(error: GifError)

  /** One code. */
  function Read(size: nat, d: Dict, code: nat): (r: Reading)
    ensures r.Output? && d.width > 0 ==> r.after.width > 0
  {
    if code == Pow2(size) then Output([], Fresh(size))
    else if code == Pow2(size) + 1 then Stop
    else if code > |d.table| then Wrong(IllegalCode)
    else if code == |d.table| && (d.prev == [] || |d.table| >= FULL) then Wrong(IllegalCode)
    else
      var w := if code < |d.table| then d.table[code] else d.prev + [d.prev[0]];
      var table := if d.prev != [] && |d.table| < FULL then d.table + [d.prev + [First(w)]] else d.table;
      Output(w, Dict(table, w, Wider(|table|, d.width)))
  }

  /** The pixels of the codes from bit `p` on. */
  function Strings(size: nat, bytes: seq<Byte>, p: nat, d: Dict): Decoded
    requires d.width > 0
    decreases 8 * |bytes| - p
  {
    if p + d.width > 8 * |bytes| then Decoded([], Complete)
    else
      match Read(size, d, Lsb(bytes, p, d.width))
      case Stop => Decoded([], Complete)
      case Wrong(e) => Decoded([], Rejected(e))
      case Output(w, t) =>
        var r := Strings(size, bytes, p + d.width, t);
        Decoded(w + r.pixels, r.verdict)
  }

  /** The largest number of data codes in a row without a clear code, when `n` have just been read. */
  function Deferred(size: nat, bytes: seq<Byte>, p: nat, d: Dict, n: nat): (m: nat)
    requires d.width > 0
    ensures m >= n
    decreases 8 * |bytes| - p
  {
    if p + d.width > 8 * |bytes| then n
    else
      var code := Lsb(bytes, p, d.width);
      match Read(size, d, code)
      case Stop => n
      case Wrong(e) => n
      case Output(w, t) =>
        if code == Pow2(size) then
          var m := Deferred(size, bytes, p + d.width, t, 0);
          if m > n then m else n
        else Deferred(size, bytes, p + d.width, t, n + 1)
  }

  /** How many data codes without a clear code the source puts up with. */
  function Patience(size: nat): int {
    MAX_CODES - 1 - Pow2(size)
  }

  // ----- the decoder of the source against it -----

  /** The same decoder after `n` data codes without a clear code, seen with and without the counter. */
  predicate Same(size: nat, s: Lzw, d: Dict, n: nat) {
    && Sound(size, s) && s.table == d.table && s.prev == d.prev && s.width == d.width && s.cleared
    && s.next == Pow2(size) + 2 + (if n == 0 then 0 else n - 1)
    && (n == 0 <==> s.prev == [])
  }

  /** The width rule of the source is that of Appendix F exactly for the code sizes that Appendix F allows. */
  lemma {:induction false} WidthRule(size: nat)
    ensures size >= 1 <==> forall next, width :: WidthAfter(size, next, width) == Wider(next, width)
  {
    if size == 0 {
      SizePow(2);
      assert WidthAfter(0, 4, 1) != Wider(4, 1);
    }
  }

  lemma {:induction false} SameWidth(size: nat, next: nat, width: nat)
    requires size >= 1
    ensures WidthAfter(size, next, width) == Wider(if next < FULL then next else FULL, width)
  {
    WidthRule(size);
    if width < 12 && next >= FULL {
      SizePow(width);
    }
  }

  /** One code: only the counter makes a difference. */
  lemma {:induction false} SameStep(size: nat, s: Lzw, d: Dict, n: nat, code: nat)
    requires 1 <= size < 12 && Same(size, s, d, n) && code < Pow2(s.width)
    ensures match Read(size, d, code)
      case Stop => Interpret(size, s, code) == Finish
      case Wrong(e) => e == IllegalCode && Interpret(size, s, code) == Reject(e)
      case Output(w, t) =>
        if code != Pow2(size) && n == Patience(size) then Interpret(size, s, code) == Reject(TooManyCodes)
        else
          var r := Interpret(size, s, code);
          && (code != Pow2(size) ==> n < Patience(size))
          && r.Emit? && r.out == w && Same(size, r.after, t, if code == Pow2(size) then 0 else n + 1)
  {
    hide Pow2, WidthAfter, Wider, WidthShape, Roots;
    SizePow(size);
    StartSound(size, true);
    CodeBound(size, s, code);
    InterpretSound(size, s, code);
    SameWidth(size, s.next + if s.prev == [] then 0 else 1, s.width);
  }

  /** A full table knows every code. */
  lemma {:induction false} CodeBound(size: nat, s: Lzw, code: nat)
    requires 1 <= size < 12 && Sound(size, s) && code < Pow2(s.width)
    ensures code < FULL && (s.next >= FULL ==> code < |s.table|)
    ensures s.next < FULL ==> |s.table| == s.next
    ensures code <= s.next && s.prev != [] && code >= |s.table| ==> code == |s.table| == s.next
    ensures s.width > 0
  {
    SizePow(s.width);
  }

  /** Appendix F itself rejects no stream for its length or for its first code. */
  lemma {:induction false} OnlyIllegal(size: nat, bytes: seq<Byte>, p: nat, d: Dict)
    requires d.width > 0
    ensures Strings(size, bytes, p, d).verdict in {Complete, Rejected(IllegalCode)}
    decreases 8 * |bytes| - p
  {
    hide Pow2, Roots, Lsb;
    if p + d.width <= 8 * |bytes| {
      var r := Read(size, d, Lsb(bytes, p, d.width));
      assert r.Wrong? ==> r.error == IllegalCode;
      hide Read;
      if r.Output? {
        OnlyIllegal(size, bytes, p + d.width, r.after);
      }
    }
  }

  /** The source decodes what Appendix F says until it has read too many data codes without a clear code. */
  lemma {:induction false} SameDecoding(size: nat, bytes: seq<Byte>, p: nat, s: Lzw, d: Dict, n: nat)
    requires 1 <= size < 12 && Same(size, s, d, n) && s.width > 0 && n <= Patience(size)
    ensures var r, f := Decode(size, bytes, p, s), Strings(size, bytes, p, d);
      && f.verdict in {Complete, Rejected(IllegalCode)} && r.pixels <= f.pixels
      && (r.verdict == Rejected(TooManyCodes) <==> Deferred(size, bytes, p, d, n) > Patience(size))
      && (r.verdict != Rejected(TooManyCodes) ==> r == f)
    decreases 8 * |bytes| - p
  {
    hide Same, Read, Interpret, Lsb;
    assert s.width == d.width by { Widths(size, s, d, n); }
    OnlyIllegal(size, bytes, p, d);
    if p + s.width <= 8 * |bytes| {
      var code := Lsb(bytes, p, s.width);
      SameStep(size, s, d, n, code);
      match Read(size, d, code)
      case Stop =>
      case Wrong(e) =>
      case Output(w, t) =>
        if code == Pow2(size) || n < Patience(size) {
          var next := Interpret(size, s, code).after;
          SameDecoding(size, bytes, p + s.width, next, t, if code == Pow2(size) then 0 else n + 1);
        }
    }
  }

  lemma Widths(size: nat, s: Lzw, d: Dict, n: nat)
    requires Same(size, s, d, n)
    ensures s.width == d.width
  {}

  /** The first code stands for data: it is neither the clear code nor the end code. (It may be the first one not
      yet entered; the source answers the same.) */
  predicate StartsWithData(size: nat, bytes: seq<Byte>) {
    && size + 1 <= 8 * |bytes|
    && Lsb(bytes, 0, size + 1) !in {Pow2(size), Pow2(size) + 1} && Lsb(bytes, 0, size + 1) <= Pow2(size) + 2
  }

  /** A whole code stream. */
  lemma {:induction false} DecodesAppendixF(size: nat, bytes: seq<Byte>)
    requires 1 <= size < 12
    ensures var r, f := Decode(size, bytes, 0, Start(size, false)), Strings(size, bytes, 0, Fresh(size));
      && f.verdict in {Complete, Rejected(IllegalCode)} && r.pixels <= f.pixels
      && (r.verdict == Rejected(NoClearCode) <==> StartsWithData(size, bytes))
      && (r.verdict == Rejected(TooManyCodes) <==>
            !StartsWithData(size, bytes) && Deferred(size, bytes, 0, Fresh(size), 0) > Patience(size))
      && (r.verdict != Rejected(NoClearCode) && r.verdict != Rejected(TooManyCodes) ==> r == f)
  {
    hide Lsb, Roots, Deferred;
    StartSound(size, true);
    SizePow(size);
    OnlyIllegal(size, bytes, 0, Fresh(size));
    if size + 1 > 8 * |bytes| {
      NothingDeferred(size, bytes, 0, Fresh(size), 0);
    } else {
      var code := Lsb(bytes, 0, size + 1);
      if code == Pow2(size) {
        SameDecoding(size, bytes, size + 1, Start(size, true), Fresh(size), 0);
        ClearedFirst(size, bytes, 0, Fresh(size));
      } else if code == Pow2(size) + 1 || code > Pow2(size) + 2 {
        NothingDeferred(size, bytes, 0, Fresh(size), 0);
      }
    }
  }

  lemma NothingDeferred(size: nat, bytes: seq<Byte>, p: nat, d: Dict, n: nat)
    requires d.width > 0 && (p + d.width <= 8 * |bytes| ==> !Read(size, d, Lsb(bytes, p, d.width)).Output?)
    ensures Deferred(size, bytes, p, d, n) == n
  {
    hide Lsb, Read;
  }

  lemma ClearedFirst(size: nat, bytes: seq<Byte>, p: nat, d: Dict)
    requires d.width > 0 && p + d.width <= 8 * |bytes| && Lsb(bytes, p, d.width) == Pow2(size)
    ensures Deferred(size, bytes, p, d, 0) == Deferred(size, bytes, p + d.width, Fresh(size), 0)
  {
    hide Lsb;
  }

  lemma {:induction false} SevenFirst()
    ensures Lsb([7, 0], 0, 9) == 7
  {
    hide Shl, Pow2;
    LsbByte([7, 0], 0);
    LsbSplit([7, 0], 0, 8, 1);
    assert !StreamBit([7, 0], 8) && Lsb([7, 0], 9, 0) == 0;
    ShlIsMul(0, 8);
  }

  /** A data code at the start of a stream of code size 8: Appendix F reads it, the source does not. */
  lemma {:induction false} DataFirst()
    ensures Decode(8, [7, 0], 0, Start(8, false)) == Decoded([], Rejected(NoClearCode))
    ensures Strings(8, [7, 0], 0, Fresh(8)) == Decoded([7], Complete)
  {
    hide Lsb, Pow2;
    SizePow(8);
    SizePow(9);
    SevenFirst();
    var d := Read(8, Fresh(8), 7).after;
    assert d.width == 9;
    assert Strings(8, [7, 0], 9, d) == Decoded([], Complete);
  }

  // ----- a stream that Appendix F decodes and the source rejects -----

  /** A clear code of 9 bits, then `zeros` bytes full of code 0. */
  function LongRun(zeros: nat): seq<Byte> {
    [0, 1] + seq(zeros, i requires 0 <= i => 0)
  }

  lemma {:induction false} LsbZeros(bytes: seq<Byte>, p: nat, n: nat)
    requires forall k: nat :: k >= p ==> !StreamBit(bytes, k)
    ensures Lsb(bytes, p, n) == 0
    decreases n
  {
    if n > 0 {
      LsbZeros(bytes, p + 1, n - 1);
    }
  }

  lemma ZeroBit(k: nat)
    ensures !BitOf(0, k)
  {
    BitOfZero(k);
  }

  lemma {:induction false} LongRunBits(zeros: nat)
    ensures Lsb(LongRun(zeros), 0, 9) == 256
    ensures forall k: nat :: k >= 9 ==> !StreamBit(LongRun(zeros), k)
  {
    hide StreamBit, Pow2, Shl, LongRun;
    var bytes := LongRun(zeros);
    forall k: nat | k >= 8 ensures StreamBit(bytes, k) == (k == 8) {
      LongRunBit(zeros, k);
    }
    LsbByte(bytes, 0);
    LongRunStarts(zeros);
    LsbSplit(bytes, 0, 8, 1);
    ShlIsMul(1, 8);
    SizePow(8);
    assert Lsb(bytes, 9, 0) == 0 && Lsb(bytes, 8, 1) == 1;
  }

  lemma LongRunStarts(zeros: nat)
    ensures ByteAt(LongRun(zeros), 0) == 0
  {}

  lemma LongRunBit(zeros: nat, k: nat)
    requires k >= 8
    ensures StreamBit(LongRun(zeros), k) == (k == 8)
  {
    hide BitOf;
    var b := ByteAt(LongRun(zeros), k / 8);
    assert b == if k < 16 then 1 else 0;
    HighBit(k % 8);
    ZeroBit(k % 8);
  }

  lemma HighBit(k: nat)
    ensures BitOf(1, k) == (k == 0)
  {
    if k > 0 { BitOfZero(k - 1); }
  }

  lemma ZeroRead(d: Dict)
    requires 0 < d.width <= 12 && |d.table| > 0
    ensures var r := Read(8, d, 0);
      r.Output? && 0 < r.after.width <= 12 && |r.after.table| > 0
  {
    SizePow(8);
  }

  /** Appendix F reads code after code where only zeros are left. */
  lemma {:induction false} ZerosAreRead(bytes: seq<Byte>, p: nat, d: Dict, n: nat, more: nat)
    requires 0 < d.width <= 12 && |d.table| > 0 && p + 12 * more <= 8 * |bytes|
    requires forall k: nat :: k >= p ==> !StreamBit(bytes, k)
    ensures Deferred(8, bytes, p, d, n) >= n + more
    decreases more
  {
    if more > 0 {
      hide Read;
      SizePow(8);
      LsbZeros(bytes, p, d.width);
      ZeroRead(d);
      var r := Read(8, d, 0);
      ZerosAreRead(bytes, p + d.width, r.after, n + 1, more - 1);
    }
  }

  lemma {:induction false} LongRunRejected(zeros: nat)
    requires zeros >= 11904
    ensures var bytes := LongRun(zeros);
      && Decode(8, bytes, 0, Start(8, false)).verdict == Rejected(TooManyCodes)
      && Strings(8, bytes, 0, Fresh(8)).verdict == Complete
  {
    var bytes := LongRun(zeros);
    LongRunBits(zeros);
    SizePow(8);
    ZerosAreRead(bytes, 9, Fresh(8), 0, 7936);
    DecodesAppendixF(8, bytes);
    ZerosComplete(bytes, 9, Fresh(8));
  }

  lemma {:induction false} ZerosComplete(bytes: seq<Byte>, p: nat, d: Dict)
    requires 0 < d.width <= 12 && |d.table| > 0
    requires forall k: nat :: k >= p ==> !StreamBit(bytes, k)
    ensures Strings(8, bytes, p, d).verdict == Complete
    decreases 8 * |bytes| - p
  {
    hide Read, Lsb, StreamBit, Strings;
    LsbZeros(bytes, p, d.width);
    ZeroRead(d);
    OneString(bytes, p, d);
    if p + d.width <= 8 * |bytes| {
      ZerosComplete(bytes, p + d.width, Read(8, d, 0).after);
    }
  }

  lemma OneString(bytes: seq<Byte>, p: nat, d: Dict)
    requires d.width > 0 && Lsb(bytes, p, d.width) == 0 && Read(8, d, 0).Output?
    ensures Strings(8, bytes, p, d).verdict ==
      if p + d.width > 8 * |bytes| then Complete else Strings(8, bytes, p + d.width, Read(8, d, 0).after).verdict
  {
    hide Read, Lsb;
  }

  // ----- code size 0 -----

  lemma ControlBits()
    ensures forall k: nat :: k < 8 ==> (StreamBit([17], k) <==> k == 0 || k == 4)
    ensures forall k: nat :: k < 8 ==> Lsb([17], k, 1) == if k == 0 || k == 4 then 1 else 0
    ensures Lsb([17], 3, 2) == 2
  {
    assert forall k: nat :: k < 8 ==> ByteAt([17], k / 8) == 17;
    assert BitOf(17, 0) && !BitOf(17, 1) && !BitOf(17, 2) && !BitOf(17, 3) && BitOf(17, 4);
    assert !BitOf(17, 5) && !BitOf(17, 6) && !BitOf(17, 7);
  }

  lemma {:induction false} SizeZeroSource()
    ensures Decode(0, [17], 0, Start(0, false)) == Decoded([0, 0], Complete)
  {
    hide Lsb, StreamBit, Pow2;
    ControlBits();
    SizePow(0);
    SizePow(1);
    SizePow(2);
    var s0 := Start(0, true);
    var s1 := Interpret(0, s0, 0).after;
    var s2 := Interpret(0, s1, 0).after;
    assert s2.width == 2;
    assert Decode(0, [17], 3, s2) == Decoded([], Complete);
    assert Decode(0, [17], 2, s1) == Decoded([0], Complete);
    assert Decode(0, [17], 1, s0) == Decoded([0, 0], Complete);
  }

  lemma {:induction false} SizeZeroStandard()
    ensures |Strings(0, [17], 0, Fresh(0)).pixels| >= 3
  {
    hide Lsb, StreamBit, Pow2;
    ControlBits();
    SizePow(0);
    SizePow(1);
    var d0 := Fresh(0);
    var d1 := Read(0, d0, 0).after;
    var d2 := Read(0, d1, 0).after;
    assert d2.width == 1;
    assert |Strings(0, [17], 3, d2).pixels| >= 1;
    assert |Strings(0, [17], 2, d1).pixels| >= 2;
    assert |Strings(0, [17], 1, d0).pixels| >= 3;
  }

  /** A stream of code size 0 that the source ends after two pixels where Appendix F, read for this size, goes on:
      the source widens the code after the second. */
  lemma {:induction false} SizeZeroDiffers()
    ensures Decode(0, [17], 0, Start(0, false)) == Decoded([0, 0], Complete)
    ensures |Strings(0, [17], 0, Fresh(0)).pixels| >= 3
  {
    hide Decode, Strings;
    SizeZeroSource();
    SizeZeroStandard();
  }
}
