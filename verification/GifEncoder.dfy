/** GIF89a Appendix F from the side of an encoder: which codes may be written for a list of pixels, how wide they
    are, and how they are packed into bytes and sub-blocks. Decoding gives the pixels back. */
module GifEncoder {
  import opened Bits
  import opened BitStream
  import opened GifLzw
  import opened GifAppendixF
  import GifRaster

  // ----- what an encoder may write -----

  /** One string for each pixel value; the clear and end codes stand for nothing. */
  function Initial(size: nat): (t: seq<seq<Byte>>)
    requires size <= 8
    ensures |t| == Pow2(size) + 2 && forall c: nat :: c < Pow2(size) ==> t[c] == [c]
    ensures t[Pow2(size)] == t[Pow2(size) + 1] == []
  {
    SizePow(size);
    seq(Pow2(size), c requires 0 <= c < Pow2(size) => [c]) + [[], []]
  }

  /** After the string `w` has been written the encoder enters it with the next pixel, while there is room. */
  function Entered(table: seq<seq<Byte>>, w: seq<Byte>, rest: seq<Byte>): seq<seq<Byte>> {
    if rest == [] || |table| >= 4096 then table else table + [w + [rest[0]]]
  }

  /** `codes` spell `pixels`: each data code stands for a string of the table that the pixels left begin with (any
      such string, not only the longest), a clear code may come anywhere, and the end code comes last. */
  predicate Encodes(size: nat, table: seq<seq<Byte>>, pixels: seq<Byte>, codes: seq<nat>)
    requires size <= 8
    decreases |codes|
  {
    codes != [] &&
    if codes[0] == Pow2(size) + 1 then |codes| == 1 && pixels == []
    else if codes[0] == Pow2(size) then Encodes(size, Initial(size), pixels, codes[1..])
    else
      && codes[0] < |table| && table[codes[0]] != [] && table[codes[0]] <= pixels
      && var w := table[codes[0]];
         var rest := pixels[|w|..];
         Encodes(size, Entered(table, w, rest), rest, codes[1..])
  }

  /** The longest run of data codes without a clear code, when `n` have just been written. */
  function LongestRun(size: nat, codes: seq<nat>, n: nat): nat
    decreases |codes|
  {
    if codes == [] || codes[0] == Pow2(size) + 1 then n
    else if codes[0] == Pow2(size) then
      var m := LongestRun(size, codes[1..], 0);
      if m > n then m else n
    else LongestRun(size, codes[1..], n + 1)
  }

  /** How many bits it takes to write a number. */
  function BitsFor(n: nat): nat {
    if n == 0 then 0 else 1 + BitsFor(n / 2)
  }

  /** Wide enough for as many codes as the table held when the last one was written, and one more; at most 12. */
  function NextWidth(entries: nat): nat {
    if BitsFor(entries) < 12 then BitsFor(entries) else 12
  }

  function EntriesAfter(size: nat, entries: nat, code: nat): nat {
    if code == Pow2(size) then Pow2(size) + 2 else if entries < 4096 then entries + 1 else entries
  }

  function WidthFor(size: nat, entries: nat, code: nat): nat {
    if code == Pow2(size) then size + 1 else NextWidth(entries)
  }

  /** The bytes carry `codes` from bit `p` on, the first of them in `width` bits, with a table of `entries`. */
  predicate Carries(bytes: seq<Byte>, p: nat, size: nat, entries: nat, width: nat, codes: seq<nat>)
    decreases |codes|
  {
    codes == [] ||
    (&& p + width <= 8 * |bytes| && Lsb(bytes, p, width) == codes[0]
     && Carries(bytes, p + width, size, EntriesAfter(size, entries, codes[0]), WidthFor(size, entries, codes[0]),
                codes[1..]))
  }

  // ----- the decoder gets the pixels back -----

  /** The encoder is one entry ahead: the one whose last pixel the decoder does not know yet. */
  predicate Ahead(size: nat, d: Dict, table: seq<seq<Byte>>, entries: nat, pixels: seq<Byte>)
    requires size <= 8
  {
    && |d.table| <= FULL && |d.table| >= Pow2(size) + 2 && d.table[..Pow2(size) + 2] == Initial(size)
    && (if d.prev == [] then table == d.table == Initial(size) && entries == |table|
        else
          && entries == (if |d.table| < FULL then |d.table| + 1 else FULL)
          && table == Entered(d.table, d.prev, pixels))
  }

  lemma {:induction false} InitialIsRoots(size: nat)
    requires size <= 8
    ensures Initial(size) == Roots(size)
  {
    SizePow(size);
  }

  lemma {:induction false} BitsForPow2(n: nat, w: nat)
    ensures BitsFor(n) <= w <==> n < Pow2(w)
    decreases w
  {
    if n > 0 && w > 0 {
      BitsForPow2(n / 2, w - 1);
    }
  }

  /** The width rule of a decoder, which looks for the first code that does not fit. */
  lemma {:induction false} SameWidths(entries: nat, width: nat)
    requires 0 < width <= 12 && Pow2(width - 1) <= entries <= Pow2(width)
    ensures Wider(entries, width) == NextWidth(entries)
    ensures var w := NextWidth(entries);
      width <= w <= 12 && Pow2(w - 1) <= entries && (entries < Pow2(w) || entries == Pow2(12))
  {
    BitsForPow2(entries, width);
    BitsForPow2(entries, width - 1);
    BitsForPow2(entries, width + 1);
  }

  /** The width of the next code fits what the decoder has entered. */
  predicate Fits(size: nat, d: Dict) {
    && 0 < d.width <= 12
    && if d.prev == [] then d.width == size + 1
       else Pow2(d.width - 1) <= |d.table| && (|d.table| < Pow2(d.width) || |d.table| == FULL == Pow2(d.width))
  }

  lemma {:induction false} FreshIsAhead(size: nat, pixels: seq<Byte>)
    requires size <= 8
    ensures Ahead(size, Fresh(size), Initial(size), Pow2(size) + 2, pixels) && Fits(size, Fresh(size))
  {
    SizePow(size);
    InitialIsRoots(size);
    assert Initial(size)[..Pow2(size) + 2] == Initial(size);
  }

  /** One data code. */
  lemma {:induction false} DataRead(size: nat, d: Dict, table: seq<seq<Byte>>, entries: nat, pixels: seq<Byte>,
      code: nat)
    requires size <= 8 && Ahead(size, d, table, entries, pixels)
    requires code < |table| && table[code] != [] && table[code] <= pixels
    ensures var r, w := Read(size, d, code), table[code];
      && r.Output? && r.out == w && r.after.prev == w
      && Ahead(size, r.after, Entered(table, w, pixels[|w|..]), EntriesAfter(size, entries, code), pixels[|w|..])
      && r.after.width == Wider(entries, d.width)
      && |r.after.table| == entries
  {
    hide Pow2, Wider, Initial;
    var w := table[code];
    assert code != Pow2(size) && code != Pow2(size) + 1 by {
      ControlIsEmpty(size, d, table, entries, pixels);
    }
    assert w[0] == pixels[0];
    if d.prev != [] && code == |d.table| {
      assert w == d.prev + [pixels[0]] && w[0] == d.prev[0];
    }
    var r := Read(size, d, code);
    assert r.after.table[..Pow2(size) + 2] == d.table[..Pow2(size) + 2];
  }

  lemma ControlIsEmpty(size: nat, d: Dict, table: seq<seq<Byte>>, entries: nat, pixels: seq<Byte>)
    requires size <= 8 && Ahead(size, d, table, entries, pixels)
    ensures |table| >= Pow2(size) + 2 && table[Pow2(size)] == table[Pow2(size) + 1] == []
  {
    assert d.table[..Pow2(size) + 2][Pow2(size)] == d.table[Pow2(size)];
    assert d.table[..Pow2(size) + 2][Pow2(size) + 1] == d.table[Pow2(size) + 1];
  }

  lemma {:induction false} DataWidth(size: nat, d: Dict, table: seq<seq<Byte>>, entries: nat, pixels: seq<Byte>)
    requires 1 <= size <= 8 && Ahead(size, d, table, entries, pixels) && Fits(size, d)
    ensures 0 < d.width <= 12 && entries <= FULL && Pow2(d.width - 1) <= entries <= Pow2(d.width)
  {
    SizePow(size);
    SizePow(size + 1);
    SizePow(d.width);
  }

  /** Whatever an encoder may write is decoded to the pixels it was written for. */
  lemma {:induction false} RoundTrip(size: nat, bytes: seq<Byte>, p: nat, d: Dict, table: seq<seq<Byte>>, entries: nat,
      pixels: seq<Byte>, codes: seq<nat>, n: nat)
    requires 1 <= size <= 8 && Ahead(size, d, table, entries, pixels) && Fits(size, d)
    requires Encodes(size, table, pixels, codes) && Carries(bytes, p, size, entries, d.width, codes)
    ensures Strings(size, bytes, p, d) == Decoded(pixels, Complete)
    ensures Deferred(size, bytes, p, d, n) == LongestRun(size, codes, n)
    decreases |codes|
  {
    hide Lsb, Pow2, Initial, Ahead, Fits, Read, Wider, NextWidth, Entered;
    var code := codes[0];
    assert code == Lsb(bytes, p, d.width);
    if code == Pow2(size) + 1 {
      EndRead(size, d);
    } else if code == Pow2(size) {
      ClearRead(size, d);
      FreshIsAhead(size, pixels);
      RoundTrip(size, bytes, p + d.width, Fresh(size), Initial(size), Pow2(size) + 2, pixels, codes[1..], 0);
    } else {
      var w := table[code];
      var rest := pixels[|w|..];
      DataRead(size, d, table, entries, pixels, code);
      var next := Read(size, d, code).after;
      DataWidth(size, d, table, entries, pixels);
      SameWidths(entries, d.width);
      AfterFits(size, next, entries);
      RoundTrip(size, bytes, p + d.width, next, Entered(table, w, rest), EntriesAfter(size, entries, code), rest,
                codes[1..], n + 1);
      assert w + rest == pixels;
    }
  }

  lemma EndRead(size: nat, d: Dict)
    ensures Read(size, d, Pow2(size) + 1) == Stop
  {}

  lemma ClearRead(size: nat, d: Dict)
    ensures Read(size, d, Pow2(size)) == Output([], Fresh(size))
  {}

  lemma {:induction false} AfterFits(size: nat, d: Dict, entries: nat)
    requires d.prev != [] && |d.table| == entries && d.width == NextWidth(entries) <= 12 && entries <= FULL
    requires 0 < d.width && Pow2(d.width - 1) <= entries && (entries < Pow2(d.width) || entries == Pow2(12))
    ensures Fits(size, d)
  {
    SizePow(12);
    SizePow(d.width);
  }

  // ----- packing -----

  /** `n` bits of a number, least significant first. */
  function ToBits(v: nat, n: nat): (r: seq<bool>)
    ensures |r| == n
  {
    if n == 0 then [] else [v % 2 == 1] + ToBits(v / 2, n - 1)
  }

  /** The codes one after the other. */
  function Packed(size: nat, entries: nat, width: nat, codes: seq<nat>): seq<bool>
    decreases |codes|
  {
    if codes == [] then []
    else
      var rest := Packed(size, EntriesAfter(size, entries, codes[0]), WidthFor(size, entries, codes[0]), codes[1..]);
      ToBits(codes[0], width) + rest
  }

  /** `n` bits from place `i` as a number, zeros past the end. */
  function FromBits(bits: seq<bool>, i: nat, n: nat): (r: nat)
    ensures r < Pow2(n)
    decreases n
  {
    if n == 0 then 0 else Digit(i < |bits| && bits[i]) + 2 * FromBits(bits, i + 1, n - 1)
  }

  /** Eight bits to the byte, first bit lowest, zeros at the end. */
  function ToBytes(bits: seq<bool>): (r: seq<Byte>)
    ensures |r| == (|bits| + 7) / 8
  {
    SizePow(8);
    seq((|bits| + 7) / 8, i requires 0 <= i => FromBits(bits, 8 * i, 8))
  }

  lemma {:induction false} FromBitsBit(bits: seq<bool>, i: nat, n: nat, k: nat)
    requires k < n
    ensures BitOf(FromBits(bits, i, n), k) == (i + k < |bits| && bits[i + k])
    decreases n
  {
    if k > 0 {
      FromBitsBit(bits, i + 1, n - 1, k - 1);
    }
  }

  lemma {:induction false} PackedBit(bits: seq<bool>, k: nat)
    requires k < |bits|
    ensures StreamBit(ToBytes(bits), k) == bits[k]
  {
    FromBitsBit(bits, k / 8 * 8, 8, k % 8);
  }

  lemma {:induction false} PackedNumber(bits: seq<bool>, p: nat, v: nat, n: nat)
    requires p + n <= |bits| && bits[p..p + n] == ToBits(v, n) && v < Pow2(n)
    ensures Lsb(ToBytes(bits), p, n) == v
    decreases n
  {
    hide ToBytes, StreamBit;
    if n > 0 {
      PackedBit(bits, p);
      assert bits[p] == bits[p..p + n][0];
      assert bits[p + 1..p + n] == bits[p..p + n][1..] == ToBits(v / 2, n - 1);
      PackedNumber(bits, p + 1, v / 2, n - 1);
    }
  }

  /** All codes fit the widths they are written in. */
  predicate CodesFit(size: nat, entries: nat, width: nat, codes: seq<nat>)
    decreases |codes|
  {
    codes == [] ||
    (&& codes[0] < Pow2(width)
     && CodesFit(size, EntriesAfter(size, entries, codes[0]), WidthFor(size, entries, codes[0]), codes[1..]))
  }

  lemma {:induction false} PackedCarries(bits: seq<bool>, p: nat, size: nat, entries: nat, width: nat, codes: seq<nat>)
    requires p <= |bits| && bits[p..] == Packed(size, entries, width, codes) && CodesFit(size, entries, width, codes)
    ensures Carries(ToBytes(bits), p, size, entries, width, codes)
    decreases |codes|
  {
    hide ToBytes, EntriesAfter, WidthFor, Lsb, Pow2;
    if codes != [] {
      var e, w := EntriesAfter(size, entries, codes[0]), WidthFor(size, entries, codes[0]);
      var rest := Packed(size, e, w, codes[1..]);
      assert bits[p..] == ToBits(codes[0], width) + rest;
      assert bits[p..p + width] == bits[p..][..width] == ToBits(codes[0], width);
      assert bits[p + width..] == bits[p..][width..] == rest;
      PackedNumber(bits, p, codes[0], width);
      PackedCarries(bits, p + width, size, e, w, codes[1..]);
    }
  }

  lemma {:induction false} EncodedFit(size: nat, d: Dict, table: seq<seq<Byte>>, entries: nat, pixels: seq<Byte>,
      codes: seq<nat>)
    requires 1 <= size <= 8 && Ahead(size, d, table, entries, pixels) && Fits(size, d)
    requires Encodes(size, table, pixels, codes)
    ensures CodesFit(size, entries, d.width, codes)
    decreases |codes|
  {
    hide Pow2, Initial, Ahead, Fits, Read, Wider, NextWidth, Entered;
    var code := codes[0];
    CodeFitsWidth(size, d, table, entries, pixels);
    if code == Pow2(size) {
      FreshIsAhead(size, pixels);
      EncodedFit(size, Fresh(size), Initial(size), Pow2(size) + 2, pixels, codes[1..]);
    } else if code != Pow2(size) + 1 {
      var w := table[code];
      var rest := pixels[|w|..];
      DataRead(size, d, table, entries, pixels, code);
      var next := Read(size, d, code).after;
      DataWidth(size, d, table, entries, pixels);
      SameWidths(entries, d.width);
      AfterFits(size, next, entries);
      EncodedFit(size, next, Entered(table, w, rest), EntriesAfter(size, entries, code), rest, codes[1..]);
    }
  }

  lemma {:induction false} CodeFitsWidth(size: nat, d: Dict, table: seq<seq<Byte>>, entries: nat, pixels: seq<Byte>)
    requires 1 <= size <= 8 && Ahead(size, d, table, entries, pixels) && Fits(size, d)
    ensures |table| <= Pow2(d.width) && Pow2(size) + 1 < Pow2(d.width)
  {
    hide Initial;
    DataWidth(size, d, table, entries, pixels);
    SizePow(size);
    SizePow(d.width);
  }

  // ----- sub-blocks -----

  /** At most 255 bytes to a sub-block, and a terminator. */
  function Blocks(bytes: seq<Byte>): seq<Byte> {
    if bytes == [] then [0]
    else
      var n := if |bytes| < 255 then |bytes| else 255;
      [n] + bytes[..n] + Blocks(bytes[n..])
  }

  /** What was put into sub-blocks is what they carry, and they end where they end. */
  lemma {:induction false} BlocksCarry(data: seq<Byte>, p: nat, bytes: seq<Byte>)
    requires p <= |data| && Blocks(bytes) <= data[p..]
    ensures SubBlocks(data, p) == bytes && BlocksEnd(data, p) == p + |Blocks(bytes)|
    decreases |bytes|
  {
    var blocks, rest := Blocks(bytes), data[p..];
    assert data[p] == rest[0] == blocks[0];
    if bytes != [] {
      var n := if |bytes| < 255 then |bytes| else 255;
      assert data[p + 1..p + 1 + n] == rest[1..1 + n] == blocks[1..1 + n] == bytes[..n];
      assert Slice(data, p + 1, n) == data[p + 1..p + 1 + n];
      assert data[p + 1 + n..] == rest[1 + n..] && blocks[1 + n..] == Blocks(bytes[n..]);
      assert blocks[1 + n..] <= rest[1 + n..];
      BlocksCarry(data, p + 1 + n, bytes[n..]);
    }
  }

  // ----- a whole frame -----

  /** The frame data of an encoder: the code size, then the codes behind a clear code. */
  function Frame(size: nat, codes: seq<nat>): seq<Byte>
    requires size <= 8
  {
    [size] + Blocks(ToBytes(Packed(size, Pow2(size) + 2, size + 1, [Pow2(size)] + codes)))
  }

  /** What the bytes of the codes are decoded to. */
  lemma {:induction false} CodesRoundTrip(size: nat, pixels: seq<Byte>, codes: seq<nat>)
    requires 1 <= size <= 8 && Encodes(size, Initial(size), pixels, codes)
    ensures var all := [Pow2(size)] + codes;
      var bytes := ToBytes(Packed(size, Pow2(size) + 2, size + 1, all));
      && Strings(size, bytes, 0, Fresh(size)) == Decoded(pixels, Complete)
      && Deferred(size, bytes, 0, Fresh(size), 0) == LongestRun(size, codes, 0) && !StartsWithData(size, bytes)
  {
    hide Initial, Strings, Deferred, Packed, Lsb, Pow2, ToBytes, CodesFit;
    var all := [Pow2(size)] + codes;
    assert all[1..] == codes;
    var bits := Packed(size, Pow2(size) + 2, size + 1, all);
    FreshIsAhead(size, pixels);
    EncodedFit(size, Fresh(size), Initial(size), Pow2(size) + 2, pixels, all);
    assert bits[0..] == bits;
    PackedCarries(bits, 0, size, Pow2(size) + 2, size + 1, all);
    RoundTrip(size, ToBytes(bits), 0, Fresh(size), Initial(size), Pow2(size) + 2, pixels, all, 0);
  }

  /** Frame data written by any encoder, wherever in a file it stands, is decoded to the pixels it was written for
      and read to its end: by Appendix F always, by the source unless a run without a clear code is too long. */
  lemma {:induction false} FrameRoundTrip(data: seq<Byte>, p: nat, size: nat, pixels: seq<Byte>, codes: seq<nat>)
    requires 1 <= size <= 8 && Encodes(size, Initial(size), pixels, codes)
    requires p <= |data| && Frame(size, codes) <= data[p..]
    ensures GifRaster.StandardFrame(data, p) == Decoded(pixels, Complete)
    ensures GifRaster.FrameData(data, p) == Decoded(pixels, Complete) <==>
      LongestRun(size, codes, 0) <= Patience(size)
    ensures GifRaster.FrameData(data, p).verdict == Rejected(TooManyCodes) <==>
      LongestRun(size, codes, 0) > Patience(size)
    ensures ByteAt(data, p) == size
    ensures BlocksEnd(data, GifRaster.AfterByte(data, p)) == p + |Frame(size, codes)|
  {
    hide Initial, Strings, Deferred, Packed, Pow2, ToBytes, Decode, Blocks, SubBlocks, BlocksEnd, StartsWithData;
    var bytes := ToBytes(Packed(size, Pow2(size) + 2, size + 1, [Pow2(size)] + codes));
    var frame := Frame(size, codes);
    assert data[p] == data[p..][0] == frame[0];
    assert data[p + 1..] == data[p..][1..] && frame[1..] == Blocks(bytes);
    BlocksCarry(data, p + 1, bytes);
    CodesRoundTrip(size, pixels, codes);
    GifRaster.FrameFollowsAppendixF(data, p);
  }

  /** A pixel at a time: the plainest encoder. */
  lemma {:induction false} PlainEncodes(size: nat, table: seq<seq<Byte>>, pixels: seq<Byte>)
    requires size <= 8 && |table| >= Pow2(size) + 2 && table[..Pow2(size) + 2] == Initial(size)
    requires forall i :: 0 <= i < |pixels| ==> pixels[i] < Pow2(size)
    ensures Encodes(size, table, pixels, pixels + [Pow2(size) + 1])
    decreases |pixels|
  {
    hide Pow2;
    var codes := pixels + [Pow2(size) + 1];
    if pixels != [] {
      var c, rest := pixels[0], pixels[1..];
      assert table[c] == table[..Pow2(size) + 2][c] == [c];
      assert codes[1..] == rest + [Pow2(size) + 1];
      var t := Entered(table, [c], rest);
      assert t[..Pow2(size) + 2] == table[..Pow2(size) + 2];
      PlainEncodes(size, t, rest);
    }
  }

  lemma {:induction false} PlainRun(size: nat, pixels: seq<Byte>, n: nat)
    requires forall i :: 0 <= i < |pixels| ==> pixels[i] < Pow2(size)
    ensures LongestRun(size, pixels + [Pow2(size) + 1], n) == n + |pixels|
    decreases |pixels|
  {
    hide Pow2;
    var codes := pixels + [Pow2(size) + 1];
    if pixels != [] {
      assert codes[1..] == pixels[1..] + [Pow2(size) + 1];
      PlainRun(size, pixels[1..], n + 1);
    }
  }

  /** A clear code before every pixel: no run is longer than one. */
  function Careful(size: nat, pixels: seq<Byte>): seq<nat> {
    if pixels == [] then [Pow2(size) + 1] else [Pow2(size), pixels[0]] + Careful(size, pixels[1..])
  }

  lemma {:induction false} CarefulEncodes(size: nat, table: seq<seq<Byte>>, pixels: seq<Byte>, n: nat)
    requires size <= 8 && forall i :: 0 <= i < |pixels| ==> pixels[i] < Pow2(size)
    ensures Encodes(size, table, pixels, Careful(size, pixels))
    ensures n <= 1 ==> LongestRun(size, Careful(size, pixels), n) <= 1
    decreases |pixels|
  {
    hide Pow2, Initial;
    if pixels != [] {
      var c, rest := pixels[0], pixels[1..];
      var codes, t := Careful(size, pixels), Entered(Initial(size), [c], rest);
      assert codes[1..][1..] == Careful(size, rest) && codes[1..][0] == c;
      CarefulEncodes(size, t, rest, 1);
      assert Encodes(size, Initial(size), pixels, codes[1..]);
    }
  }

  /** A pixel at a time, behind one clear code: the source gives the pixels back up to the length it puts up with. */
  lemma {:induction false} PlainFrame(size: nat, pixels: seq<Byte>)
    requires 1 <= size <= 8 && forall i :: 0 <= i < |pixels| ==> pixels[i] < Pow2(size)
    ensures var plain := pixels + [Pow2(size) + 1];
      GifRaster.FrameData(Frame(size, plain), 0) == Decoded(pixels, Complete) <==> |pixels| <= Patience(size)
  {
    hide Initial, Frame, Pow2, GifRaster.FrameData, Encodes, LongestRun;
    var plain := pixels + [Pow2(size) + 1];
    assert Encodes(size, Initial(size), pixels, plain) by {
      InitialWhole(size);
      PlainEncodes(size, Initial(size), pixels);
    }
    PlainRun(size, pixels, 0);
    WholeFrame(size, plain);
    FrameRoundTrip(Frame(size, plain), 0, size, pixels, plain);
  }

  /** Every list of pixels has frame data that the source decodes to it. */
  lemma {:induction false} EveryPixelList(size: nat, pixels: seq<Byte>)
    requires 1 <= size <= 8 && forall i :: 0 <= i < |pixels| ==> pixels[i] < Pow2(size)
    ensures GifRaster.FrameData(Frame(size, Careful(size, pixels)), 0) == Decoded(pixels, Complete)
  {
    hide Initial, Frame, Careful, GifRaster.FrameData, Encodes, LongestRun;
    SizePow(size);
    var careful := Careful(size, pixels);
    CarefulEncodes(size, Initial(size), pixels, 0);
    WholeFrame(size, careful);
    FrameRoundTrip(Frame(size, careful), 0, size, pixels, careful);
  }

  lemma InitialWhole(size: nat)
    requires size <= 8
    ensures |Initial(size)| >= Pow2(size) + 2 && Initial(size)[..Pow2(size) + 2] == Initial(size)
  {}

  lemma WholeFrame(size: nat, codes: seq<nat>)
    requires size <= 8
    ensures Frame(size, codes) <= Frame(size, codes)[0..]
  {
    hide Frame;
  }
}
