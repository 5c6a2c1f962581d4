/** Packing samples of 1, 2 and 4 bits into bytes (PNG Second Edition, section 7.2), the inverse of unpacking them. */
module PngPacking {
  import opened Arithmetic
  import opened Bits
  import opened BitStream
  import opened PngExpand

  /** Digits to the base 2^depth, the first one most significant. */
  function PackByte(depth: nat, samples: seq<nat>): nat {
    if samples == [] then 0
    else
      var m := |samples| - 1;
      Pow2(depth) * PackByte(depth, samples[..m]) + samples[m]
  }

  /** A sample of a row, 0 past its end. */
  function SampleOr0(depth: nat, samples: seq<nat>, k: nat): (r: nat)
    requires forall i :: 0 <= i < |samples| ==> samples[i] < Pow2(depth)
    ensures r < Pow2(depth)
  {
    if k < |samples| then samples[k] else 0
  }

  /** The samples of byte `g` of a row. */
  function ByteSamples(f: Format, samples: seq<nat>, g: nat): (r: seq<nat>)
    requires f.Packed() && forall k :: 0 <= k < |samples| ==> samples[k] < Pow2(f.depth)
    ensures |r| == f.PerByte()
    ensures forall t :: 0 <= t < |r| ==> r[t] == SampleOr0(f.depth, samples, Times(g, f.PerByte()) + t)
    ensures forall t :: 0 <= t < |r| ==> r[t] < Pow2(f.depth)
  {
    seq<nat>(f.PerByte(), t requires 0 <= t => SampleOr0(f.depth, samples, Times(g, f.PerByte()) + t))
  }

  /** A row of packed samples. */
  function PackRow(f: Format, samples: seq<nat>): (r: seq<Byte>)
    requires f.Packed() && forall k :: 0 <= k < |samples| ==> samples[k] < Pow2(f.depth)
    ensures |r| == BytesFor(|samples|, f.PerByte())
  {
    seq<Byte>(BytesFor(|samples|, f.PerByte()), g requires 0 <= g => PackGroup(f, samples, g))
  }

  function PackGroup(f: Format, samples: seq<nat>, g: nat): Byte
    requires f.Packed() && forall k :: 0 <= k < |samples| ==> samples[k] < Pow2(f.depth)
  {
    PackBound(f.depth, ByteSamples(f, samples, g));
    TimesIs(f.PerByte(), f.depth);
    assert Pow2(4) == 16 && Pow2(8) == 16 * Pow2(4);
    PackByte(f.depth, ByteSamples(f, samples, g))
  }

  lemma {:induction false} PackBound(depth: nat, samples: seq<nat>)
    requires forall t :: 0 <= t < |samples| ==> samples[t] < Pow2(depth)
    ensures PackByte(depth, samples) < Pow2(Times(|samples|, depth))
  {
    hide Times;
    TimesSucc(0, depth);
    if samples != [] {
      var m := |samples| - 1;
      TimesSucc(m, depth);
      PackBound(depth, samples[..m]);
      OneMore(PackByte(depth, samples[..m]), samples[m], Times(m, depth), depth);
    }
  }

  lemma OneMore(v: nat, x: nat, n: nat, depth: nat)
    requires v < Pow2(n) && x < Pow2(depth)
    ensures Pow2(depth) * v + x < Pow2(n + depth)
  {
    hide Pow2;
    Pow2Add(n, depth);
    MulStep(v, Pow2(n), Pow2(depth));
  }

  /** A number with one more digit below it. */
  lemma {:induction false} LastDigit(v: nat, x: nat, depth: nat)
    requires x < Pow2(depth)
    ensures Shr(Pow2(depth) * v + x, depth) == v && Low(Pow2(depth) * v + x, depth) == x
  {
    if depth > 0 {
      var a := Pow2(depth) * v + x;
      assert Pow2(depth) * v == 2 * (Pow2(depth - 1) * v);
      assert a / 2 == Pow2(depth - 1) * v + x / 2 && a % 2 == x % 2;
      LastDigit(v, x / 2, depth - 1);
    }
  }

  /** Digit `j` from the end. */
  lemma {:induction false} DigitAt(depth: nat, samples: seq<nat>, j: nat)
    requires j < |samples| && forall i :: 0 <= i < |samples| ==> samples[i] < Pow2(depth)
    ensures Low(Shr(PackByte(depth, samples), Times(j, depth)), depth) == samples[|samples| - 1 - j]
  {
    hide Low, Shr, Times, Pow2;
    var m := |samples| - 1;
    var v := PackByte(depth, samples[..m]);
    LastDigit(v, samples[m], depth);
    TimesSucc(0, depth);
    if j == 0 {
      NoShift(PackByte(depth, samples));
    } else {
      ShrShr(PackByte(depth, samples), depth, Times(j - 1, depth));
      TimesSucc(j - 1, depth);
      DigitAt(depth, samples[..m], j - 1);
    }
  }

  lemma NoShift(a: nat)
    ensures Shr(a, 0) == a
  {}

  /** The places of a byte hold its digits. */
  lemma {:induction false} FieldOfByte(f: Format, samples: seq<nat>, t: nat)
    requires f.Packed() && |samples| == f.PerByte() && t < |samples|
    requires forall i :: 0 <= i < |samples| ==> samples[i] < Pow2(f.depth)
    ensures f.Field(PackByte(f.depth, samples), t) == samples[t]
  {
    hide Low, Shr, PackByte;
    DigitAt(f.depth, samples, f.PerByte() - 1 - t);
    TimesIs(f.PerByte() - 1 - t, f.depth);
    assert f.depth * (f.PerByte() - 1 - t) == 8 - f.depth - f.depth * t;
  }

  /** A byte is made of the samples found in it. */
  lemma {:induction false} ByteOfFields(f: Format, b: Byte)
    requires f.Packed()
    ensures b == PackByte(f.depth, seq(f.PerByte(), t requires 0 <= t < f.PerByte() => f.Field(b, t)))
  {
    var s := seq(f.PerByte(), t requires 0 <= t < f.PerByte() => f.Field(b, t));
    DigitsOf(f, b, s, f.PerByte());
    assert s[..f.PerByte()] == s;
    NoShift(b);
  }

  lemma {:induction false} DigitsOf(f: Format, b: Byte, s: seq<nat>, n: nat)
    requires f.Packed() && |s| == f.PerByte() && n <= |s| && forall t :: 0 <= t < |s| ==> s[t] == f.Field(b, t)
    ensures PackByte(f.depth, s[..n]) == Shr(b, f.depth * (f.PerByte() - n))
  {
    hide Low, Shr;
    assert f.depth * f.PerByte() == 8;
    if n == 0 {
      AllShifted(b);
    } else {
      var m := n - 1;
      var rest := f.depth * (f.PerByte() - n);
      DigitsOf(f, b, s, m);
      assert s[..n][..m] == s[..m];
      assert f.depth * (f.PerByte() - m) == rest + f.depth;
      ShrShr(b, rest, f.depth);
      Split(Shr(b, rest), f.depth);
      assert rest == 8 - f.depth - f.depth * m;
    }
  }

  lemma AllShifted(b: Byte)
    ensures Shr(b, 8) == 0
  {
    assert Pow2(4) == 16 && Pow2(8) == 16 * Pow2(4);
    ShrBound(b, 8, 0);
  }

  lemma {:induction false} Split(a: nat, k: nat)
    ensures a == Pow2(k) * Shr(a, k) + Low(a, k)
  {
    if k > 0 {
      Split(a / 2, k - 1);
      assert Pow2(k) * Shr(a, k) == 2 * (Pow2(k - 1) * Shr(a / 2, k - 1));
    }
  }

  /** Gray samples are stretched so that the largest becomes 255; indices into a palette are left as they are. */
  lemma FullScale(f: Format)
    requires f.Packed()
    ensures if f.gray then f.Scale() * (Pow2(f.depth) - 1) == 255 else f.Scale() == 1
  {
    assert Pow2(1) == 2 && Pow2(2) == 4 && Pow2(4) == 16;
  }

  /** Unpacking what was packed gives the samples back, scaled. */
  lemma {:induction false} SampleRoundTrip(f: Format, samples: seq<nat>, k: nat)
    requires f.Packed() && k < |samples| && forall i :: 0 <= i < |samples| ==> samples[i] < Pow2(f.depth)
    ensures |PackRow(f, samples)| == (|samples| * f.depth + 7) / 8
    ensures f.Sample(PackRow(f, samples), k) == f.Scale() * samples[k]
  {
    hide PackByte, Format.Field, Low, Shr, Times, Pow2;
    var per := f.PerByte();
    var g, t := k / per, k % per;
    PackedBytes(f, |samples|);
    TimesIs(g, per);
    assert g < BytesFor(|samples|, per) by { Groups(f); }
    var row := PackRow(f, samples);
    assert ByteAt(row, g) == row[g] == PackByte(f.depth, ByteSamples(f, samples, g));
    FieldOfByte(f, ByteSamples(f, samples, g), t);
    assert Times(g, per) + t == k;
  }

  /** The pixel of a packed row: its samples, then full alpha if the output has it. */
  lemma {:induction false} PixelRoundTrip(f: Format, samples: seq<nat>, i: nat)
    requires f.Valid() && f.Packed() && Times(i, f.imgN) + f.imgN <= |samples|
    requires forall k :: 0 <= k < |samples| ==> samples[k] < Pow2(f.depth)
    ensures var p := f.Pixel(PackRow(f, samples), i);
      && |p| == f.outN
      && (forall c: nat :: c < f.imgN ==> p[c] == f.Scale() * samples[Times(i, f.imgN) + c])
      && (f.outN > f.imgN ==> p[f.imgN] == 255)
  {
    hide PackRow, Format.Scale, Format.Sample, Times, Pow2;
    var p := f.Pixel(PackRow(f, samples), i);
    forall c: nat | c < f.imgN ensures p[c] == f.Scale() * samples[Times(i, f.imgN) + c] {
      SampleRoundTrip(f, samples, Times(i, f.imgN) + c);
    }
  }

  /** A row takes as few bytes as hold its bits; filters look back by a pixel, rounded up to a byte; output rows follow
      each other without gaps. */
  lemma {:induction false} RowSize(f: Format, x: nat)
    requires f.Valid()
    ensures 8 * f.RowBytes(x) >= Times(x, f.imgN) * f.depth > 8 * (f.RowBytes(x) - 1)
    ensures f.Packed() ==> f.FilterBytes() == 1
    ensures !f.Packed() ==> 8 * f.FilterBytes() == f.imgN * f.depth
    ensures f.Stride(x) == Times(x, f.outN * if f.depth == 16 then 2 else 1)
  {}
}
