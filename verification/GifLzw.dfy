/** The LZW code stream of GIF (GIF89a, Appendix F) over a table of strings, and the sub-blocks that
    carry it. */
module GifLzw {
  import opened Arithmetic
  import opened Bits
  import opened BitStream

  // ----- sub-blocks -----

  /** `n` bytes from position `p`, zeros past the end. */
  function Slice(data: seq<Byte>, p: nat, n: nat): (r: seq<Byte>)
    ensures |r| == n && forall i :: 0 <= i < n ==> r[i] == ByteAt(data, p + i)
  {
    seq<Byte>(n, i requires 0 <= i < n => ByteAt(data, p + i))
  }

  /** The bytes carried by the sub-blocks from position `p` up to the block terminator. */
  function SubBlocks(data: seq<Byte>, p: nat): seq<Byte>
    decreases |data| - p
  {
    if ByteAt(data, p) == 0 then []
    else Slice(data, p + 1, data[p]) + SubBlocks(data, p + 1 + data[p])
  }

  /** The position after the block terminator. */
  function BlocksEnd(data: seq<Byte>, p: nat): nat
    decreases |data| - p
  {
    if p >= |data| then p
    else if data[p] == 0 then p + 1
    else BlocksEnd(data, p + 1 + data[p])
  }

  /** What is left of the code stream when `len` bytes of the current sub-block are unread. */
  function Unread(data: seq<Byte>, p: nat, len: nat): seq<Byte> {
    Slice(data, p, len) + SubBlocks(data, p + len)
  }

  lemma UnreadStep(data: seq<Byte>, p: nat, len: nat)
    requires len > 0
    ensures Unread(data, p, len) == [ByteAt(data, p)] + Unread(data, p + 1, len - 1)
  {
    assert Slice(data, p, len) == [ByteAt(data, p)] + Slice(data, p + 1, len - 1);
  }

  /** Between two sub-blocks. */
  lemma UnreadEnd(data: seq<Byte>, p: nat)
    ensures Unread(data, p, 0) == if ByteAt(data, p) == 0 then [] else Unread(data, p + 1, data[p])
  {
    assert Slice(data, p, 0) == [];
  }

  /** Past the end only zeros are left, so the position no longer matters. */
  lemma {:induction false} UnreadPastEnd(data: seq<Byte>, p: nat, q: nat, len: nat)
    requires p >= |data| && q >= |data|
    ensures Unread(data, p, len) == Unread(data, q, len)
  {
    assert Slice(data, p, len) == Slice(data, q, len);
  }

  // ----- the string table -----

  const MAX_CODES: nat := 8192

  datatype GifError = NoClearCode | TooManyCodes | IllegalCode

  /** The decoder between two codes: the strings that codes stand for (the clear and end codes stand for
      nothing), the number of codes given out, the string of the code before (empty right after a clear
      code), the width of the next code, and whether a clear code has been seen. */
  datatype Lzw = Lzw(table: seq<seq<Byte>>, next: nat, prev: seq<Byte>, width: nat, cleared: bool)

  function Roots(size: nat): seq<seq<Byte>> {
    seq(Pow2(size), c requires 0 <= c => [c % 256]) + [[], []]
  }

  function Start(size: nat, cleared: bool): Lzw {
    Lzw(Roots(size), Pow2(size) + 2, [], size + 1, cleared)
  }

  /** Entries past this one have no code that could refer to them. */
  function TableCap(size: nat): nat {
    if size < 12 then 4096 else MAX_CODES
  }

  /** Appendix F: one bit more as soon as the strings use up all codes of this width, to at most 12 bits. */
  function Wider(entries: nat, width: nat): nat {
    if width < 12 && entries == Pow2(width) then width + 1 else width
  }

  /** Code sizes from 1 up follow Appendix F; size 0, which it does not allow, runs one bit behind. */
  function Lag(size: nat): nat {
    if size == 0 then 1 else 0
  }

  /** The width after a code in the source. */
  function WidthAfter(size: nat, next: nat, width: nat): nat {
    if width + Lag(size) < 12 && next == Pow2(width + Lag(size)) then width + 1 else width
  }

  function First(s: seq<Byte>): Byte {
    if s == [] then 0 else s[0]
  }

  datatype Reply = Emit(out: seq<Byte>, after: Lzw) | Finish | Reject(error: GifError)

  /** Appendix F, one code: a known code stands for its string, the code about to be entered for the
      previous string and its own first pixel; either way the previous string plus the first pixel of
      this one is entered, as long as there is room. */
  function Interpret(size: nat, s: Lzw, code: nat): (r: Reply)
    ensures r.Emit? && s.width > 0 ==> r.after.width > 0
  {
    if code == Pow2(size) then Emit([], Start(size, true))
    else if code == Pow2(size) + 1 then Finish
    else if code > s.next then Reject(IllegalCode)
    else if !s.cleared then Reject(NoClearCode)
    else if s.prev == [] then
      if code >= |s.table| then Reject(IllegalCode)
      else
        var w := s.table[code];
        Emit(w, s.(prev := w, width := WidthAfter(size, s.next, s.width)))
    else if s.next == MAX_CODES then Reject(TooManyCodes)
    else
      var w := if code < |s.table| then s.table[code] else s.prev + [s.prev[0]];
      var table := if s.next < TableCap(size) then s.table + [s.prev + [First(w)]] else s.table;
      Emit(w, Lzw(table, s.next + 1, w, WidthAfter(size, s.next + 1, s.width), true))
  }

  lemma ControlCodes(size: nat, s: Lzw)
    ensures Interpret(size, s, Pow2(size)) == Emit([], Start(size, true))
    ensures Interpret(size, s, Pow2(size) + 1) == Finish
  {}

  datatype Verdict = Complete | Rejected(error: GifError)
  datatype Decoded = Decoded(pixels: seq<Byte>, verdict: Verdict)

  /** Decodes the codes packed into `bytes` from bit `p` on, until an end code or until no whole code is
      left. */
  function Decode(size: nat, bytes: seq<Byte>, p: nat, s: Lzw): Decoded
    requires s.width > 0
    decreases 8 * |bytes| - p
  {
    if p + s.width > 8 * |bytes| then Decoded([], Complete)
    else
      match Interpret(size, s, Lsb(bytes, p, s.width))
      case Finish => Decoded([], Complete)
      case Reject(e) => Decoded([], Rejected(e))
      case Emit(w, t) =>
        var r := Decode(size, bytes, p + s.width, t);
        Decoded(w + r.pixels, r.verdict)
  }

  /** `w` decoded so far, the rest from here, makes `whole`. */
  predicate Continues(whole: Decoded, w: seq<Byte>, rest: Decoded) {
    whole == Decoded(w + rest.pixels, rest.verdict)
  }

  lemma DecodeEnds(size: nat, bytes: seq<Byte>, p: nat, s: Lzw)
    requires s.width > 0 && p + s.width > 8 * |bytes|
    ensures Decode(size, bytes, p, s) == Decoded([], Complete)
  {}

  lemma DecodeStep(size: nat, bytes: seq<Byte>, p: nat, s: Lzw, whole: Decoded, w: seq<Byte>)
    requires s.width > 0 && p + s.width <= 8 * |bytes| && Continues(whole, w, Decode(size, bytes, p, s))
    ensures match Interpret(size, s, Lsb(bytes, p, s.width))
      case Finish => whole == Decoded(w, Complete)
      case Reject(e) => whole == Decoded(w, Rejected(e))
      case Emit(o, t) => Continues(whole, w + o, Decode(size, bytes, p + s.width, t))
  {
    hide Interpret;
    match Interpret(size, s, Lsb(bytes, p, s.width))
    case Finish =>
    case Reject(e) =>
    case Emit(o, t) =>
      var r := Decode(size, bytes, p + s.width, t);
      assert w + (o + r.pixels) == w + o + r.pixels;
  }

  // ----- what every state reached from the start satisfies -----

  predicate TableShape(size: nat, s: Lzw) {
    && Pow2(size) + 2 <= s.next <= MAX_CODES
    && |s.table| == (if s.next < TableCap(size) then s.next else TableCap(size))
    && (forall c :: 0 <= c < |s.table| ==> (s.table[c] == [] <==> c == Pow2(size) || c == Pow2(size) + 1))
    && (forall c: nat :: c < Pow2(size) && c < |s.table| ==> s.table[c] == [c % 256])
    && (s.prev == [] ==> s.next == Pow2(size) + 2)
  }

  predicate WidthShape(size: nat, s: Lzw) {
    var n := s.width + Lag(size);
    && size + 1 <= s.width
    && (if size == 12 then n == 13 else n <= 12)
    && Pow2(n - 1) <= s.next
    && (n < 12 ==> s.next < Pow2(n) || (s.next == Pow2(n) && s.prev == []))
    && (s.prev == [] ==> s.width == size + 1)
  }

  predicate Sound(size: nat, s: Lzw) {
    TableShape(size, s) && WidthShape(size, s)
  }

  lemma WidthPositive(size: nat, s: Lzw)
    requires Sound(size, s)
    ensures s.width > size
  {}

  lemma SizePow(size: nat)
    requires size <= 13
    ensures Pow2(size) == [1, 2, 4, 8, 16, 32, 64, 128, 256, 512, 1024, 2048, 4096, 8192][size]
  {
    assert Pow2(4) == 16 && Pow2(8) == 16 * Pow2(4);
    assert Pow2(12) == 16 * Pow2(8);
    if size >= 8 {
      assert Pow2(size) == if size < 12 then [1, 2, 4, 8][size - 8] * Pow2(8) else [1, 2][size - 12] * Pow2(12);
    }
  }

  lemma {:induction false} StartSound(size: nat, cleared: bool)
    requires size <= 12
    ensures Sound(size, Start(size, cleared))
  {
    SizePow(size);
    SizePow(size + 1);
    var s := Start(size, cleared);
    assert |s.table| == Pow2(size) + 2;
  }

  /** After a data code the previous string is not empty, so the state of the clear code is left. */
  lemma {:induction false} InterpretSound(size: nat, s: Lzw, code: nat)
    requires size <= 12 && Sound(size, s) && code < Pow2(s.width)
    ensures var r := Interpret(size, s, code); r.Emit? ==> Sound(size, r.after)
  {
    hide Pow2, WidthAfter;
    StartSound(size, true);
    var r := Interpret(size, s, code);
    if r.Emit? && code != Pow2(size) {
      CodeKnown(size, s, code);
      WidthSound(size, s, s.next + if s.prev == [] then 0 else 1, r.after.prev);
    }
  }

  /** Once a clear code was seen, a code below it is one pixel, the low byte of its number, whatever was entered
      since; only the counter can reject it. */
  lemma {:induction false} PixelCodes(size: nat, s: Lzw, code: nat)
    requires size <= 12 && Sound(size, s) && s.cleared && code < Pow2(size)
    ensures var r := Interpret(size, s, code);
      if s.prev != [] && s.next == MAX_CODES then r == Reject(TooManyCodes)
      else r.Emit? && r.out == [code % 256] && (size <= 8 ==> r.out == [code])
  {
    SizePow(size);
    if size <= 8 {
      assert code < 256;
    }
  }

  /** A code of the current width that the decoder does not reject is in the table or about to be. */
  lemma {:induction false} CodeKnown(size: nat, s: Lzw, code: nat)
    requires size <= 12 && Sound(size, s) && code < Pow2(s.width) && code <= s.next
    ensures code < |s.table| || (code == |s.table| == s.next)
  {
    SizePow(s.width);
  }

  lemma {:induction false} WidthSound(size: nat, s: Lzw, next: nat, prev: seq<Byte>)
    requires size <= 12 && Sound(size, s) && next == s.next + (if s.prev == [] then 0 else 1) && prev != []
    ensures WidthShape(size, s.(next := next, width := WidthAfter(size, next, s.width), prev := prev))
  {
    SizePow(size);
    var n := s.width + Lag(size);
    if n < 13 {
      SizePow(n);
      SizePow(n - 1);
      SizePow(n + 1);
    }
  }

  /** The source tests whether the low bits of the next code are all zero; in every reachable state of a code
      size that Appendix F allows, that is its rule. */
  lemma {:induction false} GrowthRule(size: nat, s: Lzw, next: nat)
    requires size <= 12 && Sound(size, s) && next == s.next + if s.prev == [] then 0 else 1
    ensures (next % Pow2(s.width) == 0 && next <= 0xFFF) <==> WidthAfter(size, next, s.width) == s.width + 1
    ensures !(next % Pow2(s.width) == 0 && next <= 0xFFF) <==> WidthAfter(size, next, s.width) == s.width
    ensures size >= 1 ==>
      Wider(next, s.width) == if next % Pow2(s.width) == 0 && next <= 0xFFF then s.width + 1 else s.width
  {
    SizePow(size);
    var n := s.width + Lag(size);
    SizePow(n);
    SizePow(n - 1);
    SizePow(s.width);
    if next < 4096 {
      SmallMultiple(next, Pow2(s.width));
    }
  }

  lemma {:induction false} LowIsMod(a: nat, k: nat)
    ensures Low(a, k) == a % Pow2(k)
  {
    LowShr(a, k);
    DivModUnique(a, Pow2(k), Shr(a, k), Low(a, k));
  }

  lemma {:induction false} LowShr(a: nat, k: nat)
    ensures a == Shr(a, k) * Pow2(k) + Low(a, k)
  {
    if k > 0 {
      LowShr(a / 2, k - 1);
      assert Shr(a, k) * Pow2(k) == 2 * (Shr(a / 2, k - 1) * Pow2(k - 1));
    }
  }

  lemma SmallMultiple(a: nat, m: nat)
    requires m > 0
    ensures a < m ==> a % m == a
    ensures m <= a < 2 * m ==> a % m == a - m
    ensures a == 2 * m ==> a % m == 0
  {
    if a == 2 * m {
      DivModUnique(a, m, 2, 0);
    } else if m <= a < 2 * m {
      DivModUnique(a, m, 1, a - m);
    }
  }
}
