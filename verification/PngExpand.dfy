/** Decoded PNG rows as output pixels (stb_image, `stbi__create_png_image_raw`): samples of 8 and 16 bits as
    they are, samples of 1, 2 and 4 bits unpacked in the buffer that holds them. */
module PngExpand {
  import opened Arithmetic
  import opened Bits
  import opened BitStream
  import opened PngFilter
  import opened PngDefilter

  /** Components of the file and of the output (the same, or one more for alpha), bits per sample, and whether
      packed samples are scaled to the full range. */
  datatype Format = Format(imgN: nat, outN: nat, depth: nat, gray: bool) {
    predicate Valid() {
      && 1 <= imgN <= 4 && imgN <= outN <= imgN + 1 && (Packed() || depth == 8 || depth == 16)
      && (Packed() && outN != imgN ==> imgN == 1 || imgN == 3)
    }

    predicate Packed() { depth == 1 || depth == 2 || depth == 4 }

    function Bytes(): nat { if depth == 16 then 2 else 1 }

    function OutputBytes(): nat { outN * Bytes() }

    /** The distance of filter predictions. */
    function FilterBytes(): nat { if Packed() then 1 else imgN * Bytes() }

    /** Bytes of a row of `x` pixels in the file, without its filter type. */
    function RowBytes(x: nat): nat { (Times(x, imgN) * depth + 7) / 8 }

    /** Bytes of a row in the output. */
    function Stride(x: nat): nat { Times(x, OutputBytes()) }

    function Scale(): nat {
      if !gray then 1 else if depth == 1 then 0xFF else if depth == 2 then 0x55 else 0x11
    }

    /** Samples in a byte. */
    function PerByte(): nat { if depth == 1 then 8 else if depth == 2 then 4 else 2 }

    /** Sample `t` of a byte, the leftmost in the highest bits (PNG Second Edition, section 7.2). */
    function Field(b: nat, t: nat): nat
      requires Packed() && t < PerByte()
    {
      Low(Shr(b, 8 - depth - depth * t), depth)
    }

    /** Sample `k` of a packed row, scaled. */
    function Sample(row: seq<Byte>, k: nat): Byte
      requires Packed()
    {
      FieldBound(ByteAt(row, k / PerByte()), k % PerByte());
      Scale() * Field(ByteAt(row, k / PerByte()), k % PerByte())
    }

    lemma FieldBound(b: nat, t: nat)
      requires Packed() && t < PerByte()
      ensures Scale() * Field(b, t) < 256
    {
      assert Field(b, t) < Pow2(depth);
      assert Pow2(1) == 2 && Pow2(2) == 4 && Pow2(4) == 16;
    }

    /** Byte `c` of output pixel `i`: a sample, or full alpha if there is room for it. */
    function PixelByte(row: seq<Byte>, i: nat, c: nat): Byte {
      if Packed() then (if c < imgN then Sample(row, Times(i, imgN) + c) else 255)
      else if c < FilterBytes() then ByteAt(row, Times(i, FilterBytes()) + c)
      else 255
    }

    function Pixel(row: seq<Byte>, i: nat): (r: seq<Byte>)
      ensures |r| == OutputBytes() && forall c :: 0 <= c < |r| ==> r[c] == PixelByte(row, i, c)
    {
      seq<Byte>(OutputBytes(), c requires 0 <= c => PixelByte(row, i, c))
    }

    /** How the row loop sees a row: packed rows are bytes without structure, stored at the end of their place. */
    function RowLayout(x: nat): Layout
      requires Valid() && (Packed() ==> RowBytes(x) <= Stride(x))
    {
      if Packed() then Layout(1, 1, 1, RowBytes(x), Stride(x) - RowBytes(x)) else Layout(imgN, outN, Bytes(), x, 0)
    }

    lemma RowSizes(x: nat)
      requires Valid() && x > 0 && (Packed() ==> RowBytes(x) <= x)
      ensures Packed() ==> RowBytes(x) <= Stride(x) && Times(x, imgN) <= Stride(x) && OutputBytes() == outN
      ensures var l := RowLayout(x);
        l.Valid() && l.RowBytes() == RowBytes(x) && l.Stride() == Stride(x) && l.FilterBytes() == FilterBytes()
    {
      if Packed() {
        TimesOuter(x, imgN, outN);
        TimesOuter(x, 1, outN);
        TimesOuter(x, 1, imgN);
        TimesIs(x, 1);
        TimesIs(RowBytes(x), 1);
        assert RowBytes(x) > 0;
      } else {
        PlainSizes(x);
      }
    }

    lemma PlainSizes(x: nat)
      requires Valid() && !Packed()
      ensures RowBytes(x) == Times(x, imgN * Bytes())
    {
      TimesIs(x, imgN);
      TimesIs(x, imgN * Bytes());
      if depth == 8 {
        assert RowBytes(x) == (8 * (x * imgN) + 7) / 8;
      } else {
        assert x * (imgN * 2) == 2 * (x * imgN);
        assert RowBytes(x) == (16 * (x * imgN) + 7) / 8;
      }
    }
  }

  lemma TimesOuter(x: nat, m: nat, n: nat)
    requires m <= n
    ensures Times(x, m) <= Times(x, n)
  {}

  /** Pixel `i` of row `j` stands in its place. */
  ghost predicate Shown(out: array<Byte>, f: Format, x: nat, row: seq<Byte>, j: nat, i: nat)
    requires f.Valid()
    reads out
  {
    var o, ob := Times(j, f.Stride(x)) + Times(i, f.OutputBytes()), f.OutputBytes();
    o + ob <= out.Length && out[o..o + ob] == f.Pixel(row, i)
  }

  // ----- unpacking -----

  /** The bytes that hold `k` samples. */
  function BytesFor(k: nat, per: nat): nat
    requires per > 0
  {
    (k + per - 1) / per
  }

  /** The bytes still to be read are never overtaken: with `k` samples to go, the writing position is behind the
      reading position by at least what the next byte adds. */
  lemma Slack(k: nat, per: nat)
    requires k > 0 && (per == 2 || per == 4 || per == 8)
    ensures k >= per ==> per - 1 <= k - BytesFor(k, per) && BytesFor(k - per, per) == BytesFor(k, per) - 1
    ensures k < per ==> BytesFor(k, per) == 1
    ensures BytesFor(k, per) > 0 && BytesFor(0, per) == 0
  {}

  lemma PackedBytes(f: Format, n: nat)
    requires f.Packed()
    ensures f.PerByte() > 0 && (n * f.depth + 7) / 8 == BytesFor(n, f.PerByte())
  {}

  lemma SampleIs(f: Format, row: seq<Byte>, g: nat, t: nat)
    requires f.Packed() && t < f.PerByte() && g < |row|
    ensures f.Sample(row, Times(g, f.PerByte()) + t) == f.Scale() * f.Field(row[g], t)
  {
    TimesIs(g, f.PerByte());
    DivModUnique(Times(g, f.PerByte()) + t, f.PerByte(), g, t);
  }

  /** The samples of byte `g` of a row; the last of them may replace the byte. */
  method ExpandByte(out: array<Byte>, cur: nat, inp: nat, count: nat, f: Format, ghost row: seq<Byte>, ghost g: nat)
    requires f.Packed() && 0 < count <= f.PerByte() && cur + count - 1 <= inp < out.Length
    requires g < |row| && out[inp] == row[g]
    modifies out
    ensures forall p :: cur <= p < cur + count ==> out[p] == f.Sample(row, Times(g, f.PerByte()) + (p - cur))
    ensures forall p :: 0 <= p < out.Length && (p < cur || p >= cur + count) ==> out[p] == old(out[p])
  {
    hide Low, Shr, Times, Format.Field, Format.Sample, Format.Scale;
    var t := 0;
    while t < count
      invariant t <= count && (t < count ==> out[inp] == row[g])
      invariant forall p :: cur <= p < cur + t ==> out[p] == f.Sample(row, Times(g, f.PerByte()) + (p - cur))
      invariant forall p :: 0 <= p < out.Length && (p < cur || p >= cur + t) ==> out[p] == old(out[p])
    {
      f.FieldBound(out[inp], t);
      SampleIs(f, row, g, t);
      out[cur + t] := f.Scale() * f.Field(out[inp], t);
      t := t + 1;
    }
  }

  /** A packed row at the end of its place becomes samples at its start, in the same buffer. */
  method ExpandRow(out: array<Byte>, base: nat, stride: nat, n: nat, width: nat, f: Format, ghost row: seq<Byte>)
    requires f.Packed() && n > 0 && width == (n * f.depth + 7) / 8 == |row| && width <= stride && n <= stride
    requires base + stride <= out.Length
    requires forall p :: base + stride - width <= p < base + stride ==> out[p] == row[p - (base + stride - width)]
    modifies out
    ensures forall p :: base <= p < base + n ==> out[p] == f.Sample(row, p - base)
    ensures forall p :: 0 <= p < out.Length && (p < base || p >= base + stride) ==> out[p] == old(out[p])
  {
    hide Low, Shr, Times, BytesFor, Format.Field, Format.Sample, Format.Scale, Format.PerByte;
    var per := f.PerByte();
    Groups(f);
    PackedBytes(f, n);
    var k: nat, cur: nat, inp: nat := n, base, base + stride - width;
    ghost var g := 0;
    TimesSucc(0, per);
    while k > 0
      invariant k <= n && cur == base + (n - k) && inp == base + stride - width + g
      invariant k > 0 ==> n - k == Times(g, per)
      invariant width - g == BytesFor(k, per)
      invariant forall p :: base <= p < cur ==> out[p] == f.Sample(row, p - base)
      invariant forall p :: inp <= p < base + stride ==> out[p] == row[p - (base + stride - width)]
      invariant forall p :: 0 <= p < out.Length && (p < base || p >= base + stride) ==> out[p] == old(out[p])
    {
      Slack(k, per);
      var count := if k >= per then per else k;
      ExpandByte(out, cur, inp, count, f, row, g);
      TimesSucc(g, per);
      k, cur, inp, g := k - count, cur + count, inp + 1, g + 1;
    }
  }

  lemma Groups(f: Format)
    requires f.Packed()
    ensures f.PerByte() == 2 || f.PerByte() == 4 || f.PerByte() == 8
  {}

  // ----- alpha for packed rows -----

  /** Gray samples at the start of the row get an alpha byte each, from the last to the first. */
  method AlphaGray(out: array<Byte>, base: nat, x: nat, ghost samples: seq<Byte>)
    requires |samples| == x && base + 2 * x <= out.Length
    requires forall p :: base <= p < base + x ==> out[p] == samples[p - base]
    modifies out
    ensures forall i: nat :: i < x ==> GrayAt(out, base, samples, i)
    ensures forall p :: 0 <= p < out.Length && (p < base || p >= base + 2 * x) ==> out[p] == old(out[p])
  {
    var q := x;
    while q > 0
      invariant q <= x
      invariant forall p :: base <= p < base + q ==> out[p] == samples[p - base]
      invariant forall i: nat :: q <= i < x ==> GrayAt(out, base, samples, i)
      invariant forall p :: 0 <= p < out.Length && (p < base || p >= base + 2 * x) ==> out[p] == old(out[p])
    {
      q := q - 1;
      ghost var s := out[base + q];
      label Before:
      out[base + q * 2 + 1] := 255;
      out[base + q * 2] := out[base + q];
      assert s == samples[q] && GrayAt(out, base, samples, q);
      forall i: nat | q < i < x ensures GrayAt(out, base, samples, i) {
        assert old@Before(GrayAt(out, base, samples, i));
      }
    }
  }

  ghost predicate GrayAt(out: array<Byte>, base: nat, samples: seq<Byte>, i: nat)
    reads out
  {
    && base + 2 * i + 1 < out.Length && i < |samples|
    && out[base + 2 * i] == samples[i] && out[base + 2 * i + 1] == 255
  }

  /** The same for three samples a pixel. */
  method AlphaRgb(out: array<Byte>, base: nat, x: nat, ghost samples: seq<Byte>)
    requires |samples| == 3 * x && base + 4 * x <= out.Length
    requires forall p :: base <= p < base + 3 * x ==> out[p] == samples[p - base]
    modifies out
    ensures forall i: nat :: i < x ==> RgbAt(out, base, samples, i)
    ensures forall p :: 0 <= p < out.Length && (p < base || p >= base + 4 * x) ==> out[p] == old(out[p])
  {
    var q := x;
    while q > 0
      invariant q <= x
      invariant forall p :: base <= p < base + 3 * q ==> out[p] == samples[p - base]
      invariant forall i: nat :: q <= i < x ==> RgbAt(out, base, samples, i)
      invariant forall p :: 0 <= p < out.Length && (p < base || p >= base + 4 * x) ==> out[p] == old(out[p])
    {
      q := q - 1;
      ghost var r, g, b := out[base + q * 3], out[base + q * 3 + 1], out[base + q * 3 + 2];
      label Before:
      out[base + q * 4 + 3] := 255;
      out[base + q * 4 + 2] := out[base + q * 3 + 2];
      out[base + q * 4 + 1] := out[base + q * 3 + 1];
      out[base + q * 4] := out[base + q * 3];
      assert r == samples[3 * q] && g == samples[3 * q + 1] && b == samples[3 * q + 2];
      assert RgbAt(out, base, samples, q);
      forall i: nat | q < i < x ensures RgbAt(out, base, samples, i) {
        assert old@Before(RgbAt(out, base, samples, i));
      }
    }
  }

  ghost predicate RgbAt(out: array<Byte>, base: nat, samples: seq<Byte>, i: nat)
    reads out
  {
    && base + 4 * i + 3 < out.Length && 3 * i + 2 < |samples|
    && out[base + 4 * i] == samples[3 * i] && out[base + 4 * i + 1] == samples[3 * i + 1]
    && out[base + 4 * i + 2] == samples[3 * i + 2] && out[base + 4 * i + 3] == 255
  }

  function Samples(f: Format, row: seq<Byte>, n: nat): (r: seq<Byte>)
    requires f.Packed()
    ensures |r| == n && forall k :: 0 <= k < n ==> r[k] == f.Sample(row, k)
  {
    seq<Byte>(n, k requires 0 <= k => f.Sample(row, k))
  }

  /** All pixels of a row stand at `base`. */
  ghost predicate RowShown(out: array<Byte>, f: Format, x: nat, row: seq<Byte>, base: nat)
    reads out
  {
    forall i: nat {:trigger f.Pixel(row, i)} :: i < x ==>
      var o := base + Times(i, f.OutputBytes());
      o + f.OutputBytes() <= out.Length && out[o..o + f.OutputBytes()] == f.Pixel(row, i)
  }

  /** The bytes of a packed row stand before `end`. */
  ghost predicate PackedAt(out: array<Byte>, end: nat, row: seq<Byte>)
    reads out
  {
    |row| <= end <= out.Length && forall p :: end - |row| <= p < end ==> out[p] == row[p - (end - |row|)]
  }

  /** Unpacks a row and adds alpha if the output has it. */
  method UnpackRow(out: array<Byte>, base: nat, f: Format, x: nat, ghost row: seq<Byte>)
    requires f.Valid() && f.Packed() && x > 0 && |row| == f.RowBytes(x) <= x
    requires base + f.Stride(x) <= out.Length
    requires PackedAt(out, base + f.Stride(x), row)
    modifies out
    ensures RowShown(out, f, x, row, base)
    ensures forall p :: 0 <= p < out.Length && (p < base || p >= base + f.Stride(x)) ==> out[p] == old(out[p])
  {
    hide Times, Samples, RowShown, ByteAt, Low, Shr, Format.Sample, Format.Scale, Format.Pixel, Format.Field,
      Format.PixelByte, Format.RowLayout;
    f.RowSizes(x);
    var n := Times(x, f.imgN);
    TimesOuter(x, 1, f.imgN);
    TimesIs(x, 1);
    ExpandRow(out, base, f.Stride(x), n, f.RowBytes(x), f, row);
    ghost var samples := Samples(f, row, n);
    if f.imgN == f.outN {
      PlainRow(out, base, f, x, row);
    } else if f.imgN == 1 {
      TimesIs(x, 2);
      AlphaGray(out, base, x, samples);
      GrayRow(out, base, f, x, row, samples);
    } else {
      TimesIs(x, 3);
      TimesIs(x, 4);
      AlphaRgb(out, base, x, samples);
      RgbRow(out, base, f, x, row, samples);
    }
  }

  lemma PlainRow(out: array<Byte>, base: nat, f: Format, x: nat, row: seq<Byte>)
    requires f.Valid() && f.Packed() && f.imgN == f.outN && base + Times(x, f.imgN) <= out.Length
    requires forall p :: base <= p < base + Times(x, f.imgN) ==> out[p] == f.Sample(row, p - base)
    ensures RowShown(out, f, x, row, base)
  {
    hide Times, Format.Sample;
    forall i: nat | i < x
      ensures var o := base + Times(i, f.OutputBytes());
        o + f.OutputBytes() <= out.Length && out[o..o + f.OutputBytes()] == f.Pixel(row, i)
    {
      TimesMono(i, x, f.imgN);
    }
  }

  lemma GrayRow(out: array<Byte>, base: nat, f: Format, x: nat, row: seq<Byte>, samples: seq<Byte>)
    requires f.Valid() && f.Packed() && f.imgN == 1 && f.outN == 2 && base + 2 * x <= out.Length
    requires samples == Samples(f, row, x)
    requires forall i: nat :: i < x ==> GrayAt(out, base, samples, i)
    ensures RowShown(out, f, x, row, base)
  {
    hide Format.Sample;
    forall i: nat | i < x
      ensures var o := base + Times(i, f.OutputBytes());
        o + f.OutputBytes() <= out.Length && out[o..o + f.OutputBytes()] == f.Pixel(row, i)
    {
      TimesIs(i, 1);
      TimesIs(i, 2);
      assert GrayAt(out, base, samples, i) && samples[i] == f.Sample(row, i);
    }
  }

  lemma RgbRow(out: array<Byte>, base: nat, f: Format, x: nat, row: seq<Byte>, samples: seq<Byte>)
    requires f.Valid() && f.Packed() && f.imgN == 3 && f.outN == 4
    requires samples == Samples(f, row, 3 * x)
    requires forall i: nat :: i < x ==> RgbAt(out, base, samples, i)
    ensures RowShown(out, f, x, row, base)
  {
    hide Format.Sample;
    forall i: nat | i < x
      ensures var o := base + Times(i, f.OutputBytes());
        o + f.OutputBytes() <= out.Length && out[o..o + f.OutputBytes()] == f.Pixel(row, i)
    {
      TimesIs(i, 3);
      TimesIs(i, 4);
      assert RgbAt(out, base, samples, i);
      assert samples[3 * i] == f.Sample(row, 3 * i) && samples[3 * i + 1] == f.Sample(row, 3 * i + 1);
      assert samples[3 * i + 2] == f.Sample(row, 3 * i + 2);
    }
  }

  // ----- the image -----

  /** All rows show their pixels. */
  ghost predicate ImageShown(out: array<Byte>, f: Format, x: nat, img: seq<seq<Byte>>, n: nat)
    requires n <= |img|
    reads out
  {
    forall j: nat :: j < n ==> RowShown(out, f, x, img[j], Times(j, f.Stride(x)))
  }

  lemma {:induction false} PackedRows(out: array<Byte>, f: Format, x: nat, img: seq<seq<Byte>>)
    requires f.Valid() && f.Packed() && x > 0 && f.RowBytes(x) <= x && f.RowBytes(x) <= f.Stride(x)
    requires Image(out, f.RowLayout(x), img) && out.Length == Times(|img|, f.Stride(x))
    ensures forall j: nat :: j < |img| ==>
      |img[j]| == f.RowBytes(x) && PackedAt(out, Times(j, f.Stride(x)) + f.Stride(x), img[j])
  {
    hide Times, Format.RowBytes, Format.Stride, Layout.Offset, Layout.RowBytes, Layout.Stride;
    f.RowSizes(x);
    var l := f.RowLayout(x);
    forall j: nat | j < |img|
      ensures |img[j]| == f.RowBytes(x) && PackedAt(out, Times(j, f.Stride(x)) + f.Stride(x), img[j])
    {
      var end := Times(j, f.Stride(x)) + f.Stride(x);
      TimesMono(j, |img|, f.Stride(x));
      assert Stored(out, RowStart(l, j), l, img[j]);
      forall p | end - |img[j]| <= p < end ensures out[p] == img[j][p - (end - |img[j]|)] {
        l.OffsetPlain(p - (end - |img[j]|));
      }
    }
  }

  lemma {:induction false} PlainRows(out: array<Byte>, f: Format, x: nat, img: seq<seq<Byte>>)
    requires f.Valid() && !f.Packed() && x > 0
    requires Image(out, f.RowLayout(x), img) && out.Length == Times(|img|, f.Stride(x))
    ensures ImageShown(out, f, x, img, |img|)
  {
    hide Times, Format.RowBytes, Format.Stride, Stored, AlphaDone, Layout.Offset, Layout.RowBytes, Layout.Stride,
        Layout.Width;
    f.RowSizes(x);
    var l := f.RowLayout(x);
    l.Sizes();
    forall j: nat | j < |img| ensures RowShown(out, f, x, img[j], Times(j, f.Stride(x))) {
      var base := Times(j, f.Stride(x));
      TimesMono(j, |img|, f.Stride(x));
      forall i: nat | i < x
        ensures var o := base + Times(i, f.OutputBytes());
          o + f.OutputBytes() <= out.Length && out[o..o + f.OutputBytes()] == f.Pixel(img[j], i)
      {
        PixelInPlace(out, base, l, img[j], i);
        SamePixel(f, x, img[j], i);
      }
    }
  }

  lemma SamePixel(f: Format, x: nat, row: seq<Byte>, i: nat)
    requires f.Valid() && !f.Packed() && x > 0 && Times(i, f.FilterBytes()) + f.FilterBytes() <= |row|
    ensures f.RowLayout(x).Valid() && f.RowLayout(x).FilterBytes() == f.FilterBytes()
    ensures PixelBytes(f.RowLayout(x), row, i) == f.Pixel(row, i)
  {
    hide Times;
    f.RowLayout(x).Sizes();
  }

  /** stbi__create_png_image_raw, from position `at` of the inflated data. In the source the test of the width of a
      packed row stands inside the row loop. */
  method CreatePngImageRaw(raw: seq<Byte>, at: nat, f: Format, x: nat, y: nat)
    returns (ok: bool, out: array<Byte>, ghost img: seq<seq<Byte>>, ghost types: seq<Byte>)
    requires f.Valid() && x > 0 && y > 0
    ensures fresh(out) && out.Length == Times(y, f.Stride(x))
    ensures ok <==> TypesOk(raw, at, y, f.RowBytes(x)) && (f.Packed() ==> f.RowBytes(x) <= x)
    ensures ok ==> Encoded(raw, at, f.FilterBytes(), f.RowBytes(x), y, img, types) && ImageShown(out, f, x, img, y)
  {
    hide Times, Encode, TypesOk, Image, RowShown, PackedAt, Format.RowBytes, Format.Stride, Format.FilterBytes,
        Layout.RowBytes, Layout.Stride, Layout.FilterBytes;
    if f.Packed() && f.RowBytes(x) > x {
      out := new Byte[Times(y, f.Stride(x))];
      return false, out, [], [];
    }
    f.RowSizes(x);
    ok, out, img, types := DefilterRows(raw, at, f.RowLayout(x), y);
    if !ok {
      return;
    }
    if f.Packed() {
      PackedRows(out, f, x, img);
      UnpackRows(out, f, x, y, img);
    } else {
      PlainRows(out, f, x, img);
    }
  }

  /** The separate pass over packed rows. */
  method UnpackRows(out: array<Byte>, f: Format, x: nat, y: nat, ghost img: seq<seq<Byte>>)
    requires f.Valid() && f.Packed() && x > 0 && f.RowBytes(x) <= x && |img| == y && out.Length == Times(y, f.Stride(x))
    requires forall j: nat :: j < y ==>
      |img[j]| == f.RowBytes(x) && PackedAt(out, Times(j, f.Stride(x)) + f.Stride(x), img[j])
    modifies out
    ensures ImageShown(out, f, x, img, y)
  {
    hide Times, Format.RowBytes, Format.Stride, Format.Pixel;
    f.RowSizes(x);
    var s := f.Stride(x);
    var j := 0;
    while j < y
      invariant j <= y && ImageShown(out, f, x, img, j)
      invariant forall i: nat :: j <= i < y ==> PackedAt(out, Times(i, s) + s, img[i])
    {
      TimesMono(j, y, s);
      label Before:
      UnpackRow(out, Times(j, s), f, x, img[j]);
      forall i: nat | i < j ensures RowShown(out, f, x, img[i], Times(i, s)) {
        assert old@Before(RowShown(out, f, x, img[i], Times(i, s)));
        TimesMono(i, j, s);
        RowInside(f, x);
      }
      forall i: nat | j < i < y ensures PackedAt(out, Times(i, s) + s, img[i]) {
        assert old@Before(PackedAt(out, Times(i, s) + s, img[i]));
        TimesMono(j, i, s);
      }
      j := j + 1;
    }
  }

  lemma RowInside(f: Format, x: nat)
    ensures forall i: nat {:trigger Times(i, f.OutputBytes())} :: i < x ==>
      Times(i, f.OutputBytes()) + f.OutputBytes() <= f.Stride(x)
  {
    hide Times;
    forall i: nat | i < x ensures Times(i, f.OutputBytes()) + f.OutputBytes() <= f.Stride(x) {
      TimesMono(i, x, f.OutputBytes());
    }
  }
}
