/** Undoing the row filters of PNG in stb_image, at sample depths 8 and 16: in place, with the rows above in
    the same buffer, and with room for an alpha channel between the pixels when one is asked for. */
module PngDefilter {
  import opened Arithmetic
  import opened BitStream
  import opened PngFilter

  // The filters of the source: the five of PNG, and two for the first row, where there is no row above.
  const F_NONE: nat := 0
  const F_SUB: nat := 1
  const F_UP: nat := 2
  const F_AVG: nat := 3
  const F_PAETH: nat := 4
  const F_AVG_FIRST: nat := 5
  const F_PAETH_FIRST: nat := 6

  function FirstRowFilter(t: nat): nat {
    if t == 1 then F_SUB
    else if t == 3 then F_AVG_FIRST
    else if t == 4 then F_PAETH_FIRST
    else F_NONE
  }

  function Chosen(t: nat, first: bool): nat {
    if first then FirstRowFilter(t) else t
  }

  /** Components of the file and of the output (the same, or one more for alpha), bytes per component, pixels per
      row, and bytes left free before each row. */
  datatype Layout = Layout(imgN: nat, outN: nat, bytes: nat, x: nat, pad: nat) {
    predicate Valid() {
      1 <= imgN <= 4 && imgN <= outN <= imgN + 1 && 1 <= bytes <= 2 && x > 0
    }

    function FilterBytes(): nat { imgN * bytes }

    function OutputBytes(): nat { outN * bytes }

    /** Bytes of a row in the output, and from the start of one row to the next. */
    function Width(): nat { Times(x, OutputBytes()) }

    function Stride(): nat { Width() + pad }

    /** Bytes of a row without its filter type. */
    function RowBytes(): nat { Times(x, FilterBytes()) }

    /** Where in an output row byte `u` of the row goes. */
    function Offset(u: nat): nat
      requires Valid()
    {
      Times(u / FilterBytes(), OutputBytes()) + u % FilterBytes()
    }

    /** Where in an output row the alpha bytes of pixel `i` begin. */
    function Alpha(i: nat): nat {
      Times(i, OutputBytes()) + FilterBytes()
    }

    lemma Sizes()
      requires Valid()
      ensures 0 < FilterBytes() <= OutputBytes() <= 10 && OutputBytes() <= FilterBytes() + bytes
      ensures imgN == outN <==> FilterBytes() == OutputBytes()
      ensures outN == imgN + 1 ==> OutputBytes() == FilterBytes() + bytes
      ensures Stride() == Width() + pad
    {
      assert outN * bytes == imgN * bytes + if outN == imgN then 0 else bytes;
    }

    lemma OffsetAt(i: nat, k: nat)
      requires Valid() && k < FilterBytes()
      ensures Offset(Times(i, FilterBytes()) + k) == Times(i, OutputBytes()) + k
    {
      Sizes();
      TimesIs(i, FilterBytes());
      DivModUnique(Times(i, FilterBytes()) + k, FilterBytes(), i, k);
    }

    lemma OffsetStep(u: nat)
      requires Valid() && u >= FilterBytes()
      ensures Offset(u) == Offset(u - FilterBytes()) + OutputBytes()
    {
      Sizes();
      var fb := FilterBytes();
      var q, r := u / fb, u % fb;
      assert u == q * fb + r;
      Distribute(q, 1, fb);
      DivModUnique(u - fb, fb, q - 1, r);
      TimesSucc(q - 1, OutputBytes());
    }

    lemma OffsetOrder(u: nat, v: nat)
      requires Valid() && u < v
      ensures Offset(u) < Offset(v)
    {
      Sizes();
      var fb := FilterBytes();
      assert u == u / fb * fb + u % fb && v == v / fb * fb + v % fb;
      TimesMono(v / fb, u / fb, fb);
      TimesMono(u / fb, v / fb, OutputBytes());
    }

    lemma OffsetBound(u: nat)
      requires Valid() && u < RowBytes()
      ensures Offset(u) < Width()
    {
      Sizes();
      OffsetAt(x, 0);
      assert Offset(RowBytes()) == Width();
      OffsetOrder(u, RowBytes());
    }

    lemma OffsetPlain(u: nat)
      requires Valid() && imgN == outN
      ensures Offset(u) == u
    {
      Sizes();
      TimesIs(u / FilterBytes(), OutputBytes());
    }

    /** Alpha bytes lie between the pixels. */
    lemma AlphaApart(u: nat, i: nat, c: nat)
      requires Valid() && FilterBytes() + c < OutputBytes()
      ensures Offset(u) != Alpha(i) + c
    {
      hide Times;
      Sizes();
      TimesMono(u / FilterBytes(), i, OutputBytes());
      TimesMono(i, u / FilterBytes(), OutputBytes());
    }

    lemma AlphaOrder(i: nat, j: nat)
      requires Valid() && i < j
      ensures Alpha(i) + OutputBytes() <= Alpha(j)
    {
      TimesMono(i, j, OutputBytes());
    }
  }

  /** The bytes of `row` so far are in place. */
  ghost predicate Stored(out: array<Byte>, cur: nat, l: Layout, row: seq<Byte>)
    requires l.Valid()
    reads out
  {
    forall u :: 0 <= u < |row| ==> cur + l.Offset(u) < out.Length && out[cur + l.Offset(u)] == row[u]
  }

  /** Filtering `row` gives the bytes of the file from `pos` on. */
  ghost predicate FilteredTo(raw: seq<Byte>, pos: nat, l: Layout, t: nat, prior: seq<Byte>, row: seq<Byte>)
    requires l.Valid()
  {
    && l.FilterBytes() > 0 && pos + |row| <= |raw| && |row| <= |prior|
    && forall u :: 0 <= u < |row| ==> raw[pos + u] == FilterByte(t, l.FilterBytes(), prior, row, u)
  }

  /** The first `m` pixels have their (first) alpha byte. */
  ghost predicate Opaque(out: array<Byte>, cur: nat, l: Layout, m: nat)
    reads out
  {
    forall i: nat :: i < m ==> cur + l.Alpha(i) < out.Length && out[cur + l.Alpha(i)] == 255
  }

  lemma FilteredSnoc(raw: seq<Byte>, pos: nat, l: Layout, t: nat, prior: seq<Byte>, row: seq<Byte>, v: Byte)
    requires l.Valid() && FilteredTo(raw, pos, l, t, prior, row)
    requires |row| < |prior| && pos + |row| < |raw|
    requires var u, fb := |row|, l.FilterBytes();
      v == (raw[pos + u] + Predict(t, Left(row, u, fb), prior[u], Left(prior, u, fb))) % 256
    ensures FilteredTo(raw, pos, l, t, prior, row + [v])
  {
    hide Predict;
    var next, fb := row + [v], l.FilterBytes();
    forall u | 0 <= u < |next| ensures raw[pos + u] == FilterByte(t, fb, prior, next, u) {
      assert Left(next, u, fb) == Left(row, u, fb);
      if u < |row| {
        assert FilterByte(t, fb, prior, next, u) == FilterByte(t, fb, prior, row, u);
      }
    }
  }

  // ----- one byte -----

  /** The cases of the first switch: a byte of the first pixel of a row. */
  method FirstPixelByte(out: array<Byte>, filter: nat, x: Byte, priorK: int, ghost t: nat, ghost first: bool,
      ghost up: Byte)
    returns (v: Byte)
    requires t <= 4 && filter == Chosen(t, first)
    requires if first then up == 0 else 0 <= priorK < out.Length && out[priorK] == up
    ensures v == (x + Predict(t, 0, up, 0)) % 256
  {
    if filter == F_UP {
      v := (x + out[priorK]) % 256;
    } else if filter == F_AVG {
      v := (x + out[priorK] / 2) % 256;
    } else if filter == F_PAETH {
      v := (x + Paeth(0, out[priorK], 0)) % 256;
    } else {
      v := x;
    }
  }

  /** Without a row above, the Paeth predictor is the pixel to the left. */
  lemma PaethFirst(a: Byte)
    ensures Paeth(a, 0, 0) == a
  {}

  /** The cases of the second switch: a byte with a pixel to its left. */
  method PixelByte(out: array<Byte>, filter: nat, x: Byte, left: nat, priorK: int, priorLeft: int,
                   ghost t: nat, ghost first: bool, ghost up: Byte, ghost upLeft: Byte)
    returns (v: Byte)
    requires t <= 4 && filter == Chosen(t, first) && left < out.Length
    requires if first then up == upLeft == 0
      else 0 <= priorK < out.Length && 0 <= priorLeft < out.Length && out[priorK] == up && out[priorLeft] == upLeft
    ensures v == (x + Predict(t, out[left], up, upLeft)) % 256
  {
    hide Paeth;
    PaethFirst(out[left]);
    if filter == F_NONE {
      v := x;
    } else if filter == F_SUB {
      v := (x + out[left]) % 256;
    } else if filter == F_UP {
      v := (x + out[priorK]) % 256;
    } else if filter == F_AVG {
      var sum: nat := out[priorK];
      sum := sum + out[left];
      v := (x + sum / 2) % 256;
    } else if filter == F_PAETH {
      v := (x + Paeth(out[left], out[priorK], out[priorLeft])) % 256;
    } else if filter == F_AVG_FIRST {
      v := (x + out[left] / 2) % 256;
    } else {
      v := (x + Paeth(out[left], 0, 0)) % 256;
    }
  }

  /** The row being rebuilt, the row above it and the bytes of the file they come from. */
  ghost predicate Rebuilding(out: array<Byte>, cur: nat, l: Layout, raw: seq<Byte>, pos: nat, t: nat, first: bool,
                             prior: seq<Byte>, row: seq<Byte>)
    reads out
  {
    && l.Valid() && t <= 4 && cur + l.Width() <= out.Length && pos + l.RowBytes() <= |raw|
    && |prior| == l.RowBytes() && |row| <= l.RowBytes()
    && (if first then prior == Zeros(l.RowBytes()) else cur >= l.Stride() && Stored(out, cur - l.Stride(), l, prior))
    && Stored(out, cur, l, row) && FilteredTo(raw, pos, l, t, prior, row)
  }

  /** Writes the next byte of the row. */
  method PutByte(out: array<Byte>, q: nat, v: Byte, ghost cur: nat, ghost l: Layout, ghost raw: seq<Byte>,
      ghost pos: nat, ghost t: nat, ghost first: bool, ghost prior: seq<Byte>, ghost row: seq<Byte>)
    requires Rebuilding(out, cur, l, raw, pos, t, first, prior, row) && |row| < l.RowBytes()
    requires q == cur + l.Offset(|row|) && q < out.Length
    requires var u, fb := |row|, l.FilterBytes();
      v == (raw[pos + u] + Predict(t, Left(row, u, fb), prior[u], Left(prior, u, fb))) % 256
    modifies out
    ensures Rebuilding(out, cur, l, raw, pos, t, first, prior, row + [v])
    ensures forall p :: 0 <= p < out.Length && p != q ==> out[p] == old(out[p])
  {
    hide Times, Predict, Layout.Offset, Layout.FilterBytes, Layout.OutputBytes, Layout.Width, Layout.Stride,
      Layout.RowBytes;
    l.Sizes();
    out[q] := v;
    FilteredSnoc(raw, pos, l, t, prior, row, v);
    forall u: nat | u < |row| ensures l.Offset(u) < l.Offset(|row|) {
      l.OffsetOrder(u, |row|);
    }
    forall u: nat | u < |prior| ensures l.Offset(u) < l.Width() {
      l.OffsetBound(u);
    }
  }

  // ----- one row -----

  /** The first pixel of a row. */
  method FirstPixel(out: array<Byte>, raw: seq<Byte>, pos: nat, filter: nat, cur: nat, l: Layout,
                    ghost t: nat, ghost first: bool, ghost prior: seq<Byte>)
    returns (ghost row: seq<Byte>)
    requires Rebuilding(out, cur, l, raw, pos, t, first, prior, []) && filter == Chosen(t, first)
    modifies out
    ensures Rebuilding(out, cur, l, raw, pos, t, first, prior, row) && |row| == l.FilterBytes()
    ensures forall p :: 0 <= p < out.Length && (p < cur || p >= cur + l.Width()) ==> out[p] == old(out[p])
  {
    hide Times, Predict, Layout.Offset, Layout.FilterBytes, Layout.OutputBytes, Layout.Width, Layout.Stride,
      Layout.RowBytes, Stored, FilteredTo;
    row := [];
    l.Sizes();
    RowHasPixel(l);
    var k := 0;
    while k < l.FilterBytes()
      invariant |row| == k <= l.FilterBytes() && Rebuilding(out, cur, l, raw, pos, t, first, prior, row)
      invariant forall p :: 0 <= p < out.Length && (p < cur || p >= cur + l.Width()) ==> out[p] == old(out[p])
    {
      FirstOffset(l, k);
      l.OffsetBound(k);
      if !first {
        StoredAt(out, cur - l.Stride(), l, prior, k);
      }
      var v := FirstPixelByte(out, filter, raw[pos + k], cur + k - l.Stride(), t, first, prior[k]);
      PutByte(out, cur + k, v, cur, l, raw, pos, t, first, prior, row);
      row := row + [v];
      k := k + 1;
    }
  }

  lemma RowHasPixel(l: Layout)
    requires l.Valid()
    ensures l.FilterBytes() <= l.RowBytes() && l.OutputBytes() <= l.Width()
    ensures l.RowBytes() == l.FilterBytes() + Times(l.x - 1, l.FilterBytes())
  {
    TimesSucc(l.x - 1, l.FilterBytes());
    TimesMono(1, l.x, l.OutputBytes());
    TimesSucc(0, l.OutputBytes());
  }

  lemma FirstOffset(l: Layout, k: nat)
    requires l.Valid() && k < l.FilterBytes()
    ensures l.Offset(k) == k
  {
    TimesSucc(0, l.FilterBytes());
    TimesSucc(0, l.OutputBytes());
    l.OffsetAt(0, k);
  }

  lemma StoredAt(out: array<Byte>, cur: nat, l: Layout, row: seq<Byte>, u: nat)
    requires l.Valid() && Stored(out, cur, l, row) && u < |row|
    ensures cur + l.Offset(u) < out.Length && out[cur + l.Offset(u)] == row[u]
  {}

  /** One byte of the loops of the second switch, `q` being where it goes. */
  method StepByte(out: array<Byte>, raw: seq<Byte>, rawK: nat, filter: nat, q: nat, dist: nat, l: Layout,
      ghost cur: nat, ghost pos: nat, ghost t: nat, ghost first: bool, ghost prior: seq<Byte>, ghost row: seq<Byte>)
    returns (ghost v: Byte)
    requires Rebuilding(out, cur, l, raw, pos, t, first, prior, row) && filter == Chosen(t, first)
    requires l.FilterBytes() <= |row| < l.RowBytes()
    requires q == cur + l.Offset(|row|) && rawK == pos + |row| && dist == l.OutputBytes()
    modifies out
    ensures q < out.Length && Rebuilding(out, cur, l, raw, pos, t, first, prior, row + [v])
    ensures forall p :: 0 <= p < out.Length && p != q ==> out[p] == old(out[p])
  {
    hide Times, Predict, Layout.Offset, Layout.FilterBytes, Layout.OutputBytes, Layout.Width, Layout.Stride,
      Layout.RowBytes, Stored, FilteredTo;
    ghost var u, fb := |row|, l.FilterBytes();
    l.Sizes();
    l.OffsetStep(u);
    l.OffsetBound(u);
    StoredAt(out, cur, l, row, u - fb);
    if !first {
      StoredAt(out, cur - l.Stride(), l, prior, u);
      StoredAt(out, cur - l.Stride(), l, prior, u - fb);
    }
    var b := PixelByte(out, filter, raw[rawK], q - dist, q - l.Stride(), q - l.Stride() - dist,
                       t, first, prior[u], prior[u - fb]);
    PutByte(out, q, b, cur, l, raw, pos, t, first, prior, row);
    v := b;
  }

  /** The rest of a row without room for alpha: one run of bytes. */
  method PlainPixels(out: array<Byte>, raw: seq<Byte>, pos: nat, filter: nat, cur: nat, l: Layout,
                     ghost t: nat, ghost first: bool, ghost prior: seq<Byte>, ghost start: seq<Byte>)
    returns (ghost row: seq<Byte>)
    requires Rebuilding(out, cur, l, raw, pos, t, first, prior, start) && filter == Chosen(t, first)
    requires |start| == l.FilterBytes() && l.imgN == l.outN
    modifies out
    ensures Rebuilding(out, cur, l, raw, pos, t, first, prior, row) && |row| == l.RowBytes()
    ensures forall p :: 0 <= p < out.Length && (p < cur || p >= cur + l.Width()) ==> out[p] == old(out[p])
  {
    hide Times, Predict, Layout.Offset, Layout.FilterBytes, Layout.OutputBytes, Layout.Width, Layout.Stride,
      Layout.RowBytes, Stored, FilteredTo;
    row := start;
    l.Sizes();
    RowHasPixel(l);
    var fb := l.FilterBytes();
    var nk := Times(l.x - 1, fb);
    var k := 0;
    while k < nk
      invariant k <= nk && |row| == fb + k && Rebuilding(out, cur, l, raw, pos, t, first, prior, row)
      invariant forall p :: 0 <= p < out.Length && (p < cur || p >= cur + l.Width()) ==> out[p] == old(out[p])
    {
      l.OffsetPlain(fb + k);
      l.OffsetBound(fb + k);
      ghost var v := StepByte(out, raw, pos + fb + k, filter, cur + fb + k, fb, l, cur, pos, t, first, prior, row);
      row := row + [v];
      k := k + 1;
    }
  }

  /** The samples of pixel `m` of a row with room for alpha. */
  method AlphaPixel(out: array<Byte>, raw: seq<Byte>, rawM: nat, filter: nat, curM: nat, l: Layout, ghost m: nat,
                    ghost cur: nat, ghost pos: nat, ghost t: nat, ghost first: bool, ghost prior: seq<Byte>,
                    ghost start: seq<Byte>)
    returns (ghost row: seq<Byte>)
    requires Rebuilding(out, cur, l, raw, pos, t, first, prior, start) && filter == Chosen(t, first)
    requires 1 <= m < l.x && |start| == Times(m, l.FilterBytes()) && l.outN == l.imgN + 1 && Opaque(out, cur, l, m)
    requires curM == cur + Times(m, l.OutputBytes()) && rawM == pos + Times(m, l.FilterBytes())
    modifies out
    ensures Rebuilding(out, cur, l, raw, pos, t, first, prior, row) && |row| == Times(m + 1, l.FilterBytes())
    ensures Opaque(out, cur, l, m)
    ensures forall p :: 0 <= p < out.Length && (p < cur || p >= cur + l.Width()) ==> out[p] == old(out[p])
  {
    hide Times, Predict, Layout.Offset, Layout.Alpha, Layout.FilterBytes, Layout.OutputBytes, Layout.Width,
        Layout.Stride, Layout.RowBytes, Stored, FilteredTo;
    row := start;
    l.Sizes();
    PixelRoom(l, m);
    var k := 0;
    while k < l.FilterBytes()
      invariant k <= l.FilterBytes() && |row| == Times(m, l.FilterBytes()) + k
      invariant Rebuilding(out, cur, l, raw, pos, t, first, prior, row) && Opaque(out, cur, l, m)
      invariant forall p :: 0 <= p < out.Length && (p < cur || p >= cur + l.Width()) ==> out[p] == old(out[p])
    {
      l.OffsetAt(m, k);
      l.OffsetBound(|row|);
      forall i: nat | i < m ensures l.Alpha(i) != l.Offset(|row|) {
        l.AlphaApart(|row|, i, 0);
      }
      ghost var v := StepByte(out, raw, rawM + k, filter, curM + k, l.OutputBytes(), l, cur, pos, t, first, prior, row);
      row := row + [v];
      k := k + 1;
    }
  }

  lemma PixelRoom(l: Layout, m: nat)
    requires l.Valid() && m < l.x
    ensures Times(m + 1, l.FilterBytes()) == Times(m, l.FilterBytes()) + l.FilterBytes() <= l.RowBytes()
    ensures Times(m + 1, l.OutputBytes()) == Times(m, l.OutputBytes()) + l.OutputBytes() <= l.Width()
    ensures l.Alpha(m) == Times(m, l.OutputBytes()) + l.FilterBytes()
    ensures 1 <= m ==> l.FilterBytes() <= Times(m, l.FilterBytes())
  {
    TimesSucc(m, l.FilterBytes());
    TimesSucc(m, l.OutputBytes());
    TimesMono(m, l.x, l.FilterBytes());
    TimesMono(m, l.x, l.OutputBytes());
    TimesMono(1, m, l.FilterBytes());
  }

  /** Alpha bytes are no bytes of the row or of the row above it. */
  method SetAlpha(out: array<Byte>, cur: nat, l: Layout, m: nat, c: nat, q: nat, ghost raw: seq<Byte>, ghost pos: nat,
                  ghost t: nat, ghost first: bool, ghost prior: seq<Byte>, ghost row: seq<Byte>)
    requires Rebuilding(out, cur, l, raw, pos, t, first, prior, row) && m < l.x
    requires l.FilterBytes() + c < l.OutputBytes() && q == cur + l.Alpha(m) + c
    modifies out
    ensures q < cur + l.Width() <= out.Length && out[q] == 255
    ensures forall p :: 0 <= p < out.Length && p != q ==> out[p] == old(out[p])
    ensures Rebuilding(out, cur, l, raw, pos, t, first, prior, row)
  {
    hide Times, Predict, FilteredTo, Layout.Offset, Layout.Alpha, Layout.FilterBytes, Layout.OutputBytes,
        Layout.Width, Layout.Stride, Layout.RowBytes;
    l.Sizes();
    PixelRoom(l, m);
    out[q] := 255;
    forall u: nat | u < |row| ensures l.Offset(u) != l.Alpha(m) + c {
      l.AlphaApart(u, m, c);
    }
    forall u: nat | u < |prior| ensures l.Offset(u) < l.Width() {
      l.OffsetBound(u);
    }
  }

  /** The rest of a row with room for alpha: pixel by pixel. */
  method AlphaPixels(out: array<Byte>, raw: seq<Byte>, pos: nat, filter: nat, cur: nat, l: Layout,
                     ghost t: nat, ghost first: bool, ghost prior: seq<Byte>, ghost start: seq<Byte>)
    returns (ghost row: seq<Byte>)
    requires Rebuilding(out, cur, l, raw, pos, t, first, prior, start) && filter == Chosen(t, first)
    requires |start| == l.FilterBytes() && l.outN == l.imgN + 1 && Opaque(out, cur, l, 1)
    modifies out
    ensures Rebuilding(out, cur, l, raw, pos, t, first, prior, row) && |row| == l.RowBytes()
    ensures Opaque(out, cur, l, l.x)
    ensures forall p :: 0 <= p < out.Length && (p < cur || p >= cur + l.Width()) ==> out[p] == old(out[p])
  {
    hide Times, Rebuilding, Layout.Offset, Layout.Alpha, Layout.FilterBytes, Layout.OutputBytes, Layout.Width,
        Layout.Stride, Layout.RowBytes;
    row := start;
    Rebuildable(out, cur, l, raw, pos, t, first, prior, row);
    l.Sizes();
    var fb, ob := l.FilterBytes(), l.OutputBytes();
    TimesSucc(0, fb);
    TimesSucc(0, ob);
    var curM, rawM := cur + ob, pos + fb;
    var i := l.x - 1;
    while i >= 1
      invariant 0 <= i < l.x && |row| == Times(l.x - i, fb)
      invariant curM == cur + Times(l.x - i, ob) && rawM == pos + Times(l.x - i, fb)
      invariant Rebuilding(out, cur, l, raw, pos, t, first, prior, row) && Opaque(out, cur, l, l.x - i)
      invariant forall p :: 0 <= p < out.Length && (p < cur || p >= cur + l.Width()) ==> out[p] == old(out[p])
    {
      ghost var m := l.x - i;
      PixelRoom(l, m);
      row := AlphaPixel(out, raw, rawM, filter, curM, l, m, cur, pos, t, first, prior, row);
      forall n: nat | n < m ensures l.Alpha(n) != l.Alpha(m) {
        l.AlphaOrder(n, m);
      }
      SetAlpha(out, cur, l, l.x - i, 0, curM + fb, raw, pos, t, first, prior, row);
      i, rawM, curM := i - 1, rawM + fb, curM + ob;
    }
    WholeRow(l);
  }

  lemma WholeRow(l: Layout)
    ensures l.RowBytes() == Times(l.x, l.FilterBytes()) && l.Width() == Times(l.x, l.OutputBytes())
  {}

  lemma Rebuildable(out: array<Byte>, cur: nat, l: Layout, raw: seq<Byte>, pos: nat, t: nat, first: bool,
                    prior: seq<Byte>, row: seq<Byte>)
    requires Rebuilding(out, cur, l, raw, pos, t, first, prior, row)
    ensures l.Valid() && cur + l.Width() <= out.Length
  {}

  /** Every alpha byte of the row is 255. */
  ghost predicate AlphaDone(out: array<Byte>, cur: nat, l: Layout)
    reads out
  {
    l.outN == l.imgN + 1 ==>
      forall i: nat :: i < l.x ==>
        && cur + l.Alpha(i) < out.Length && out[cur + l.Alpha(i)] == 255
        && (l.bytes == 2 ==> cur + l.Alpha(i) + 1 < out.Length && out[cur + l.Alpha(i) + 1] == 255)
  }

  /** The low alpha bytes at depth 16. */
  method LowAlpha(out: array<Byte>, cur: nat, l: Layout, ghost raw: seq<Byte>, ghost pos: nat,
                  ghost t: nat, ghost first: bool, ghost prior: seq<Byte>, ghost row: seq<Byte>)
    requires Rebuilding(out, cur, l, raw, pos, t, first, prior, row)
    requires l.outN == l.imgN + 1 && l.bytes == 2 && Opaque(out, cur, l, l.x)
    modifies out
    ensures Rebuilding(out, cur, l, raw, pos, t, first, prior, row) && AlphaDone(out, cur, l)
    ensures forall p :: 0 <= p < out.Length && (p < cur || p >= cur + l.Width()) ==> out[p] == old(out[p])
  {
    hide Times, Rebuilding, Layout.Offset, Layout.Alpha, Layout.FilterBytes, Layout.OutputBytes, Layout.Width,
        Layout.Stride, Layout.RowBytes;
    Rebuildable(out, cur, l, raw, pos, t, first, prior, row);
    l.Sizes();
    var fb, ob := l.FilterBytes(), l.OutputBytes();
    TimesSucc(0, ob);
    var i, curI := 0, cur;
    while i < l.x
      invariant i <= l.x && curI == cur + Times(i, ob)
      invariant Rebuilding(out, cur, l, raw, pos, t, first, prior, row) && Opaque(out, cur, l, l.x)
      invariant forall n: nat :: n < i ==> cur + l.Alpha(n) + 1 < out.Length && out[cur + l.Alpha(n) + 1] == 255
      invariant forall p :: 0 <= p < out.Length && (p < cur || p >= cur + l.Width()) ==> out[p] == old(out[p])
    {
      PixelRoom(l, i);
      forall n: nat | n < l.x && n != i
        ensures l.Alpha(n) != l.Alpha(i) + 1 && l.Alpha(n) != l.Alpha(i)
      {
        if n < i {
          l.AlphaOrder(n, i);
        } else {
          l.AlphaOrder(i, n);
        }
      }
      SetAlpha(out, cur, l, i, 1, curI + fb + 1, raw, pos, t, first, prior, row);
      i, curI := i + 1, curI + ob;
    }
  }

  /** One row. */
  method DefilterRow(out: array<Byte>, raw: seq<Byte>, pos: nat, t: nat, cur: nat, l: Layout, first: bool,
                     ghost prior: seq<Byte>)
    returns (ghost row: seq<Byte>)
    requires Rebuilding(out, cur, l, raw, pos, t, first, prior, [])
    modifies out
    ensures Rebuilding(out, cur, l, raw, pos, t, first, prior, row) && |row| == l.RowBytes() && AlphaDone(out, cur, l)
    ensures forall p :: 0 <= p < out.Length && (p < cur || p >= cur + l.Width()) ==> out[p] == old(out[p])
  {
    hide Times, Rebuilding, Layout.Offset, Layout.Alpha, Layout.FilterBytes, Layout.OutputBytes, Layout.Width,
        Layout.Stride, Layout.RowBytes;
    Rebuildable(out, cur, l, raw, pos, t, first, prior, []);
    l.Sizes();
    var filter := Chosen(t, first);
    row := FirstPixel(out, raw, pos, filter, cur, l, t, first, prior);
    if l.imgN == l.outN {
      row := PlainPixels(out, raw, pos, filter, cur, l, t, first, prior, row);
    } else {
      PixelRoom(l, 0);
      TimesSucc(0, l.OutputBytes());
      SetAlpha(out, cur, l, 0, 0, cur + l.FilterBytes(), raw, pos, t, first, prior, row);
      if l.bytes == 2 {
        SetAlpha(out, cur, l, 0, 1, cur + l.FilterBytes() + 1, raw, pos, t, first, prior, row);
      }
      row := AlphaPixels(out, raw, pos, filter, cur, l, t, first, prior, row);
      if l.bytes == 2 {
        LowAlpha(out, cur, l, raw, pos, t, first, prior, row);
      }
    }
  }

  // ----- the image -----

  /** Where the filter type of row `j` is. */
  function TypePos(at: nat, j: nat, n: nat): nat {
    at + Times(j, n + 1)
  }

  /** The filter types of the file are those of the standard. */
  ghost predicate TypesOk(raw: seq<Byte>, at: nat, y: nat, n: nat) {
    && TypePos(at, y, n) <= |raw|
    && forall j: nat :: j < y ==> TypePos(at, j, n) < |raw| && raw[TypePos(at, j, n)] <= 4
  }

  /** From `at` on, the file holds the rows `img` of `n` bytes, filtered by `types`. */
  ghost predicate Encoded(raw: seq<Byte>, at: nat, bpp: nat, n: nat, y: nat, img: seq<seq<Byte>>, types: seq<Byte>) {
    && bpp > 0 && |img| == |types| == y && Rows(img, n)
    && (forall j :: 0 <= j < y ==> types[j] <= 4)
    && TypePos(at, y, n) <= |raw| && raw[at..TypePos(at, y, n)] == Encode(img, types, bpp, n)
  }

  /** A file made from any rows with any filter types is accepted, and reads as those rows only. */
  lemma {:induction false} DefilterInverts(raw: seq<Byte>, at: nat, bpp: nat, n: nat, y: nat, img: seq<seq<Byte>>,
                                           types: seq<Byte>)
    requires Encoded(raw, at, bpp, n, y, img, types)
    ensures TypesOk(raw, at, y, n)
    ensures forall img', types' :: Encoded(raw, at, bpp, n, y, img', types') ==> img' == img && types' == types
  {
    hide Times;
    forall j: nat | j < y ensures TypePos(at, j, n) < |raw| && raw[TypePos(at, j, n)] <= 4 {
      EncodeType(img, types, bpp, n, j);
      TimesMono(j, y, n + 1);
    }
    forall img', types' | Encoded(raw, at, bpp, n, y, img', types') ensures img' == img && types' == types {
      EncodeInjective(img, types, img', types', bpp, n);
    }
  }

  /** Where row `j` begins in the output. */
  function RowStart(l: Layout, j: nat): nat { Times(j, l.Stride()) + l.pad }

  /** Rows `img` of a file, filtered, and the same rows with alpha in the buffer. */
  ghost predicate Image(out: array<Byte>, l: Layout, img: seq<seq<Byte>>)
    requires l.Valid()
    reads out
  {
    && Rows(img, l.RowBytes())
    && forall j: nat :: j < |img| ==>
      Stored(out, RowStart(l, j), l, img[j]) && AlphaDone(out, RowStart(l, j), l)
  }

  lemma RowSpan(l: Layout)
    requires l.Valid()
    ensures forall u: nat :: u < l.RowBytes() ==> l.Offset(u) < l.Width()
    ensures l.outN == l.imgN + 1 ==> forall i: nat :: i < l.x ==> l.Alpha(i) + l.bytes <= l.Width()
  {
    hide Times, Layout.Offset, Layout.Alpha, Layout.FilterBytes, Layout.OutputBytes, Layout.Width, Layout.Stride,
        Layout.RowBytes;
    forall u: nat | u < l.RowBytes() ensures l.Offset(u) < l.Width() {
      l.OffsetBound(u);
    }
    if l.outN == l.imgN + 1 {
      forall i: nat | i < l.x ensures l.Alpha(i) + l.bytes <= l.Width() {
        l.Sizes();
        PixelRoom(l, i);
      }
    }
  }

  lemma RowBegins(out: array<Byte>, cur: nat, l: Layout, raw: seq<Byte>, pos: nat, t: nat, j: nat,
                  img: seq<seq<Byte>>)
    requires l.Valid() && t <= 4 && j == |img| && Image(out, l, img) && cur == RowStart(l, j)
    requires cur + l.Width() <= out.Length && pos + l.RowBytes() <= |raw|
    ensures Rebuilding(out, cur, l, raw, pos, t, j == 0, Above(img, j, l.RowBytes()), [])
  {
    hide Times, Layout.Offset, Layout.FilterBytes, Layout.OutputBytes, Layout.Width, Layout.Stride, Layout.RowBytes;
    l.Sizes();
    if j > 0 {
      TimesSucc(j - 1, l.Stride());
    }
  }

  lemma RowDone(out: array<Byte>, cur: nat, l: Layout, raw: seq<Byte>, pos: nat, t: nat, first: bool,
                prior: seq<Byte>, row: seq<Byte>)
    requires Rebuilding(out, cur, l, raw, pos, t, first, prior, row) && |row| == l.RowBytes()
    ensures Stored(out, cur, l, row) && l.FilterBytes() > 0
    ensures pos + |row| <= |raw| && |row| <= |prior|
      && raw[pos..pos + |row|] == FilterRow(t, l.FilterBytes(), prior, row)
  {
    hide Times, FilterByte, Layout.Offset, Layout.FilterBytes, Layout.OutputBytes, Layout.Width, Layout.Stride,
        Layout.RowBytes;
  }

  lemma RowEncoded(raw: seq<Byte>, at: nat, pos: nat, img: seq<seq<Byte>>, types: seq<Byte>, row: seq<Byte>, t: Byte,
                   bpp: nat, n: nat)
    requires bpp > 0 && |types| == |img| && Rows(img, n) && |row| == n && at <= pos && pos + 1 + n <= |raw|
    requires raw[at..pos] == Encode(img, types, bpp, n) && raw[pos] == t
    requires raw[pos + 1..pos + 1 + n] == FilterRow(t, bpp, Above(img, |img|, n), row)
    ensures raw[at..pos + 1 + n] == Encode(img + [row], types + [t], bpp, n)
  {
    hide Encode, FilterRow;
    EncodeSnoc(img, types, bpp, n, row, t);
    assert raw[at..pos + 1 + n] == raw[at..pos] + [t] + raw[pos + 1..pos + 1 + n];
  }

  lemma NoRows(out: array<Byte>, l: Layout)
    requires l.Valid()
    ensures Image(out, l, [])
  {}

  lemma ImageRows(out: array<Byte>, l: Layout, img: seq<seq<Byte>>)
    requires l.Valid() && Image(out, l, img)
    ensures Rows(img, l.RowBytes())
  {}

  lemma EncodeNone(bpp: nat, n: nat)
    requires bpp > 0
    ensures Rows([], n) && Encode([], [], bpp, n) == []
  {}

  /** Row `j`, below the rows done. */
  method NextRow(out: array<Byte>, raw: seq<Byte>, pos: nat, t: nat, cur: nat, l: Layout, j: nat,
      ghost img: seq<seq<Byte>>)
    returns (ghost row: seq<Byte>)
    requires l.Valid() && t <= 4 && j == |img| && Image(out, l, img) && cur == RowStart(l, j)
    requires cur + l.Width() <= out.Length && pos + l.RowBytes() <= |raw|
    modifies out
    ensures |row| == l.RowBytes() && Image(out, l, img + [row]) && l.FilterBytes() > 0
    ensures raw[pos..pos + |row|] == FilterRow(t, l.FilterBytes(), Above(img, j, l.RowBytes()), row)
  {
    hide Times, Rebuilding, FilterRow, Layout.Offset, Layout.Alpha, Layout.FilterBytes, Layout.OutputBytes,
        Layout.Width, Layout.Stride, Layout.RowBytes;
    l.Sizes();
    RowSpan(l);
    RowBegins(out, cur, l, raw, pos, t, j, img);
    row := DefilterRow(out, raw, pos, t, cur, l, j == 0, Above(img, j, l.RowBytes()));
    RowDone(out, cur, l, raw, pos, t, j == 0, Above(img, j, l.RowBytes()), row);
    forall i: nat | i < j
      ensures Stored(out, RowStart(l, i), l, img[i]) && AlphaDone(out, RowStart(l, i), l)
    {
      TimesMono(i + 1, j, l.Stride());
      TimesSucc(i, l.Stride());
      assert old(Stored(out, RowStart(l, i), l, img[i]) && AlphaDone(out, RowStart(l, i), l));
    }
  }

  /** The row loop of stbi__create_png_image_raw, from position `at` of the inflated data. */
  method DefilterRows(raw: seq<Byte>, at: nat, l: Layout, y: nat)
    returns (ok: bool, out: array<Byte>, ghost img: seq<seq<Byte>>, ghost types: seq<Byte>)
    requires l.Valid()
    ensures fresh(out) && out.Length == Times(y, l.Stride())
    ensures ok <==> TypesOk(raw, at, y, l.RowBytes())
    ensures ok ==> Encoded(raw, at, l.FilterBytes(), l.RowBytes(), y, img, types) && Image(out, l, img)
  {
    hide Times, Encode, FilterRow, Image, Layout.Offset, Layout.Alpha, Layout.FilterBytes,
      Layout.OutputBytes, Layout.Width, Layout.Stride, Layout.RowBytes;
    ghost var n := l.RowBytes();
    l.Sizes();
    out := new Byte[Times(y, l.Stride())];
    img, types := [], [];
    if |raw| < at + Times(y, l.RowBytes() + 1) {
      return false, out, img, types;
    }
    var j, pos, cur := 0, at, l.pad;
    TimesSucc(0, n + 1);
    TimesSucc(0, l.Stride());
    EncodeNone(l.FilterBytes(), n);
    NoRows(out, l);
    while j < y
      invariant j <= y && |img| == |types| == j && Rows(img, n) && Image(out, l, img)
      invariant pos == TypePos(at, j, n) && cur == RowStart(l, j) && pos <= |raw|
      invariant raw[at..pos] == Encode(img, types, l.FilterBytes(), n)
      invariant forall i: nat :: i < j ==> TypePos(at, i, n) < |raw| && raw[TypePos(at, i, n)] == types[i] <= 4
    {
      TimesMono(j, y, n + 1);
      TimesMono(j, y, l.Stride());
      TimesSucc(j, n + 1);
      TimesSucc(j, l.Stride());
      var filter := raw[pos];
      if filter > 4 {
        return false, out, img, types;
      }
      ghost var row := NextRow(out, raw, pos + 1, filter, cur, l, j, img);
      ImageRows(out, l, img + [row]);
      RowEncoded(raw, at, pos, img, types, row, filter, l.FilterBytes(), n);
      img, types := img + [row], types + [filter];
      j, pos, cur := j + 1, pos + 1 + l.RowBytes(), cur + l.Stride();
    }
    ok := true;
  }

  /** The bytes of output pixel `i` of a row: its samples, and full alpha if there is room for it. */
  function PixelBytes(l: Layout, row: seq<Byte>, i: nat): (r: seq<Byte>)
    requires l.Valid() && Times(i, l.FilterBytes()) + l.FilterBytes() <= |row|
    ensures |r| == l.OutputBytes()
  {
    l.Sizes();
    row[Times(i, l.FilterBytes())..Times(i, l.FilterBytes()) + l.FilterBytes()] +
    (if l.outN == l.imgN then [] else if l.bytes == 1 then [255] else [255, 255])
  }

  lemma {:induction false} PixelInPlace(out: array<Byte>, cur: nat, l: Layout, row: seq<Byte>, i: nat)
    requires l.Valid() && |row| == l.RowBytes() && i < l.x && Stored(out, cur, l, row) && AlphaDone(out, cur, l)
    requires cur + l.Width() <= out.Length
    ensures var o, ob, fb := cur + Times(i, l.OutputBytes()), l.OutputBytes(), l.FilterBytes();
      && Times(i, fb) + fb <= |row| && o + ob <= out.Length
      && out[o..o + ob] == PixelBytes(l, row, i)
  {
    hide Times, Layout.Offset, Layout.FilterBytes, Layout.OutputBytes, Layout.Width, Layout.Stride, Layout.RowBytes,
        Layout.Alpha;
    l.Sizes();
    PixelRoom(l, i);
    var o, ob, fb := cur + Times(i, l.OutputBytes()), l.OutputBytes(), l.FilterBytes();
    var px := PixelBytes(l, row, i);
    forall k | 0 <= k < ob ensures out[o + k] == px[k] {
      if k < fb {
        l.OffsetAt(i, k);
        assert out[cur + l.Offset(Times(i, fb) + k)] == row[Times(i, fb) + k];
      } else {
        assert out[cur + l.Alpha(i)] == 255;
      }
    }
  }
}
