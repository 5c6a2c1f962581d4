/** Adam7 de-interlacing in stb_image (PNG Second Edition, section 8.2): seven reduced images, each decoded on
    its own and scattered into the final one. */
module Adam7 {
  import opened Arithmetic
  import opened BitStream
  import Interlace
  import opened PngFilter
  import opened PngDefilter
  import opened PngExpand

  function XOrig(p: nat): nat { if p == 1 then 4 else if p == 3 then 2 else if p == 5 then 1 else 0 }
  function YOrig(p: nat): nat { if p == 2 then 4 else if p == 4 then 2 else if p == 6 then 1 else 0 }
  function XSpc(p: nat): (s: nat)
    ensures s > 0
  {
    if p < 2 then 8 else if p < 4 then 4 else if p < 6 then 2 else 1
  }
  function YSpc(p: nat): (s: nat)
    ensures s > 0
  {
    if p < 3 then 8 else if p < 5 then 4 else 2
  }

  /** The size of a pass in one direction, in 32-bit unsigned arithmetic. */
  function PassSize(n: nat, orig: nat, spc: nat): nat
    requires spc > 0
  {
    (n - orig + spc - 1) % 0x1_0000_0000 / spc
  }

  /** The formula counts the coordinates orig, orig + spc, … below `n` exactly when its sum does not wrap. */
  lemma {:induction false} PassSizeIsCount(n: nat, orig: nat, spc: nat)
    requires 0 < spc && orig < spc <= 8 && n < 0x1_0000_0000
    ensures (forall i: nat :: i < PassSize(n, orig, spc) <==> orig + Times(i, spc) < n)
      <==> n + (spc - 1 - orig) < 0x1_0000_0000
  {
    var s := n + (spc - 1 - orig);
    if s < 0x1_0000_0000 {
      var q := s / spc;
      assert s == q * spc + s % spc;
      forall i: nat ensures i < PassSize(n, orig, spc) <==> orig + Times(i, spc) < n {
        TimesIs(i, spc);
        MulStep(i, q, spc);
        MulStep(q, i + 1, spc);
        Sum(i, 1, spc);
      }
    } else {
      WrappedSize(n, orig, spc);
      TimesSucc(0, spc);
      TimesSucc(1, spc);
      assert orig + Times(1, spc) < n;
    }
  }

  lemma WrappedSize(n: nat, orig: nat, spc: nat)
    requires 0 < spc && orig < spc <= 8 && n < 0x1_0000_0000 <= n + (spc - 1 - orig)
    ensures PassSize(n, orig, spc) == 0
  {
    var s := n + (spc - 1 - orig) - 0x1_0000_0000;
    assert s < spc;
  }

  /** The pass that a pixel belongs to. */
  function PassOf(x: nat, y: nat): (p: nat)
    ensures p < 7
  {
    if y % 2 == 1 then 6
    else if x % 2 == 1 then 5
    else if y % 4 == 2 then 4
    else if x % 4 == 2 then 3
    else if y % 8 == 4 then 2
    else if x % 8 == 4 then 1
    else 0
  }

  /** The pattern of section 8.2, row by row, passes counted from 1. */
  const PATTERN: seq<seq<nat>> := [
    [1, 6, 4, 6, 2, 6, 4, 6],
    [7, 7, 7, 7, 7, 7, 7, 7],
    [5, 6, 5, 6, 5, 6, 5, 6],
    [7, 7, 7, 7, 7, 7, 7, 7],
    [3, 6, 4, 6, 3, 6, 4, 6],
    [7, 7, 7, 7, 7, 7, 7, 7],
    [5, 6, 5, 6, 5, 6, 5, 6],
    [7, 7, 7, 7, 7, 7, 7, 7]]

  /** The pattern is laid over the image from its upper left corner. */
  lemma {:induction false} PassPattern(x: nat, y: nat)
    ensures 0 <= x % 8 < 8 && 0 <= y % 8 < 8 && PassOf(x, y) + 1 == PATTERN[y % 8][x % 8]
  {
    Mod8(x);
    Mod8(y);
  }

  /** Column and row of a pixel within its pass. */
  function Col(x: nat, y: nat): nat { x / XSpc(PassOf(x, y)) }
  function Row(x: nat, y: nat): nat { y / YSpc(PassOf(x, y)) }

  function OutX(p: nat, i: nat): nat { Times(i, XSpc(p)) + XOrig(p) }
  function OutY(p: nat, j: nat): nat { Times(j, YSpc(p)) + YOrig(p) }

  /** A pixel lies on the grid of its pass. */
  lemma {:induction false} OnGrid(x: nat, y: nat)
    ensures x % XSpc(PassOf(x, y)) == XOrig(PassOf(x, y)) && y % YSpc(PassOf(x, y)) == YOrig(PassOf(x, y))
  {
    Mod8(x);
    Mod8(y);
    assert 0 <= x % 8 < 8 && 0 <= y % 8 < 8;
  }

  lemma QuotientTimes(n: nat, m: nat)
    requires m > 0
    ensures Times(n / m, m) + n % m == n
  {}

  lemma {:induction false} PixelTarget(x: nat, y: nat)
    ensures OutX(PassOf(x, y), Col(x, y)) == x && OutY(PassOf(x, y), Row(x, y)) == y
  {
    hide Times, PassOf, XSpc, YSpc, XOrig, YOrig;
    OnGrid(x, y);
    QuotientTimes(x, XSpc(PassOf(x, y)));
    QuotientTimes(y, YSpc(PassOf(x, y)));
  }

  /** Multiples of 1, 2, 4 and 8, and what is left after them. */
  lemma Residues(k: nat, r: nat, spc: nat)
    requires spc in {1, 2, 4, 8} && r < spc
    ensures var n := Times(k, spc) + r;
      && n / spc == k && n % spc == r && (spc >= 2 ==> n % 2 == r % 2) && (spc >= 4 ==> n % 4 == r % 4)
  {
    TimesIs(k, spc);
    var n := Times(k, spc) + r;
    DivModUnique(n, spc, k, r);
    if spc == 8 {
      DivModUnique(n, 4, 2 * k + r / 4, r % 4);
      DivModUnique(n, 2, 4 * k + r / 2, r % 2);
    } else if spc == 4 {
      DivModUnique(n, 2, 2 * k + r / 2, r % 2);
    }
  }

  lemma {:induction false} TargetPixel(p: nat, i: nat, j: nat)
    requires p < 7
    ensures PassOf(OutX(p, i), OutY(p, j)) == p
    ensures Col(OutX(p, i), OutY(p, j)) == i && Row(OutX(p, i), OutY(p, j)) == j
  {
    hide Times;
    Residues(i, XOrig(p), XSpc(p));
    Residues(j, YOrig(p), YSpc(p));
  }

  /** The seven passes partition the grid: every pixel is the target of one pixel of one pass, and of no other. */
  lemma {:induction false} PassesPartition(p: nat, i: nat, j: nat, x: nat, y: nat)
    requires p < 7
    ensures OutX(p, i) == x && OutY(p, j) == y <==> p == PassOf(x, y) && i == Col(x, y) && j == Row(x, y)
  {
    hide OutX, OutY, Col, Row, PassOf;
    PixelTarget(x, y);
    TargetPixel(p, i, j);
  }

  /** The widest and tallest image that the loader accepts. */
  const MAX_DIMENSIONS: nat := 0x100_0000

  /** Pixels of a row, and rows, of a pass over an image of `w` by `h` pixels; a pass with neither is not in the
      file. */
  function PassW(w: nat, p: nat): nat { PassSize(w, XOrig(p), XSpc(p)) }
  function PassH(h: nat, p: nat): nat { PassSize(h, YOrig(p), YSpc(p)) }
  function PassRows(w: nat, h: nat, p: nat): nat { if PassW(w, p) == 0 then 0 else PassH(h, p) }

  /** A coordinate of a pass is a coordinate of the image, and the other way around. */
  lemma {:induction false} InPass(w: nat, h: nat, p: nat, i: nat, j: nat)
    requires p < 7 && w <= MAX_DIMENSIONS && h <= MAX_DIMENSIONS
    ensures i < PassW(w, p) <==> OutX(p, i) < w
    ensures j < PassH(h, p) <==> OutY(p, j) < h
  {
    hide Times, PassSize;
    PassSizeIsCount(w, XOrig(p), XSpc(p));
    PassSizeIsCount(h, YOrig(p), YSpc(p));
  }

  // ----- the interlaced file -----

  /** Rows of packed samples must not be longer than their pixels. */
  predicate WidthOk(f: Format, x: nat) { f.Packed() ==> f.RowBytes(x) <= x }

  predicate PassShape(f: Format, w: nat, h: nat, p: nat, img: seq<seq<Byte>>, types: seq<Byte>) {
    && f.FilterBytes() > 0 && |img| == |types| == PassRows(w, h, p) && Rows(img, f.RowBytes(PassW(w, p)))
    && (img != [] ==> WidthOk(f, PassW(w, p)))
    && forall j :: 0 <= j < |types| ==> types[j] <= 4
  }

  predicate Shapes(f: Format, w: nat, h: nat, images: seq<seq<seq<Byte>>>, types: seq<seq<Byte>>) {
    |images| == |types| && forall p :: 0 <= p < |images| ==> PassShape(f, w, h, p, images[p], types[p])
  }

  /** The passes, each filtered on its own. */
  function EncodePasses(f: Format, w: nat, h: nat, images: seq<seq<seq<Byte>>>, types: seq<seq<Byte>>): seq<Byte>
    requires Shapes(f, w, h, images, types)
  {
    if images == [] then []
    else
      var p := |images| - 1;
      assert PassShape(f, w, h, p, images[p], types[p]);
      EncodePasses(f, w, h, images[..p], types[..p]) +
      Encode(images[p], types[p], f.FilterBytes(), f.RowBytes(PassW(w, p)))
  }

  /** The file begins with these passes. */
  ghost predicate Holds(raw: seq<Byte>, f: Format, w: nat, h: nat, images: seq<seq<seq<Byte>>>, types: seq<seq<Byte>>) {
    Shapes(f, w, h, images, types) && EncodePasses(f, w, h, images, types) <= raw
  }

  /** An interlaced image: all seven passes. */
  ghost predicate Interlaced(raw: seq<Byte>, f: Format, w: nat, h: nat, images: seq<seq<seq<Byte>>>,
      types: seq<seq<Byte>>) {
    |images| == 7 && Holds(raw, f, w, h, images, types)
  }

  lemma {:induction false} EncodePassesSnoc(f: Format, w: nat, h: nat, images: seq<seq<seq<Byte>>>,
      types: seq<seq<Byte>>, img: seq<seq<Byte>>, ts: seq<Byte>)
    requires Shapes(f, w, h, images, types) && PassShape(f, w, h, |images|, img, ts)
    ensures Shapes(f, w, h, images + [img], types + [ts])
    ensures EncodePasses(f, w, h, images + [img], types + [ts]) == EncodePasses(f, w, h, images, types) +
      Encode(img, ts, f.FilterBytes(), f.RowBytes(PassW(w, |images|)))
  {
    hide PassShape, Times, PassW, Format.FilterBytes;
    var iss, tss := images + [img], types + [ts];
    assert iss[..|images|] == images && tss[..|images|] == types;
  }

  lemma SameSnoc<T>(a: seq<T>, b: seq<T>, p: nat)
    requires |a| == |b| == p + 1 && a[..p] == b[..p] && a[p] == b[p]
    ensures a == b
  {
    assert a == a[..p] + [a[p]] && b == b[..p] + [b[p]];
  }

  /** The passes of a file are determined by the file. */
  lemma {:induction false} PassesDetermined(raw: seq<Byte>, f: Format, w: nat, h: nat, a: seq<seq<seq<Byte>>>,
      ta: seq<seq<Byte>>, b: seq<seq<seq<Byte>>>, tb: seq<seq<Byte>>)
    requires Holds(raw, f, w, h, a, ta) && Holds(raw, f, w, h, b, tb) && |a| == |b|
    ensures a == b && ta == tb
  {
    hide EncodePasses, Encode, PassW, PassRows, Times, Format.FilterBytes;
    if a != [] {
      var p := |a| - 1;
      LastPass(raw, f, w, h, a, ta);
      LastPass(raw, f, w, h, b, tb);
      PassesDetermined(raw, f, w, h, a[..p], ta[..p], b[..p], tb[..p]);
      EncodeInjective(a[p], ta[p], b[p], tb[p], f.FilterBytes(), f.RowBytes(PassW(w, p)));
      SameSnoc(a, b, p);
      SameSnoc(ta, tb, p);
    }
  }

  lemma {:induction false} LastPass(raw: seq<Byte>, f: Format, w: nat, h: nat, a: seq<seq<seq<Byte>>>,
      ta: seq<seq<Byte>>)
    requires a != [] && Holds(raw, f, w, h, a, ta)
    ensures var p := |a| - 1;
      && Holds(raw, f, w, h, a[..p], ta[..p]) && PassShape(f, w, h, p, a[p], ta[p])
      && var n, at := f.RowBytes(PassW(w, p)), |EncodePasses(f, w, h, a[..p], ta[..p])|;
      && at + Times(PassRows(w, h, p), n + 1) <= |raw|
      && raw[at..at + Times(PassRows(w, h, p), n + 1)] == Encode(a[p], ta[p], f.FilterBytes(), n)
  {
    hide Times, PassW, PassRows, Format.FilterBytes, Encode;
    var p := |a| - 1;
    assert PassShape(f, w, h, p, a[p], ta[p]);
    var n := f.RowBytes(PassW(w, p));
    var e, g := EncodePasses(f, w, h, a[..p], ta[..p]), Encode(a[p], ta[p], f.FilterBytes(), n);
    EncodeLength(a[p], ta[p], f.FilterBytes(), n);
    assert e + g <= raw;
    assert raw[|e|..|e| + |g|] == g;
  }

  lemma {:induction false} FirstPasses(raw: seq<Byte>, f: Format, w: nat, h: nat, a: seq<seq<seq<Byte>>>,
      ta: seq<seq<Byte>>, n: nat)
    requires Holds(raw, f, w, h, a, ta) && n <= |a|
    ensures Holds(raw, f, w, h, a[..n], ta[..n])
  {
    hide EncodePasses, PassShape;
    if n < |a| {
      LastPass(raw, f, w, h, a, ta);
      FirstPasses(raw, f, w, h, a[..|a| - 1], ta[..|a| - 1], n);
      assert a[..|a| - 1][..n] == a[..n] && ta[..|a| - 1][..n] == ta[..n];
    } else {
      assert a[..n] == a && ta[..n] == ta;
    }
  }

  /** If the file is interlaced at all, the pass after those read so far is there. */
  lemma {:induction false} NextPass(raw: seq<Byte>, f: Format, w: nat, h: nat, done: seq<seq<seq<Byte>>>,
      tdone: seq<seq<Byte>>, images: seq<seq<seq<Byte>>>, types: seq<seq<Byte>>)
    requires Holds(raw, f, w, h, done, tdone) && |done| < 7 && Interlaced(raw, f, w, h, images, types)
    requires PassRows(w, h, |done|) > 0
    ensures TypesOk(raw, |EncodePasses(f, w, h, done, tdone)|, PassRows(w, h, |done|), f.RowBytes(PassW(w, |done|)))
    ensures WidthOk(f, PassW(w, |done|))
  {
    hide EncodePasses, PassRows, PassW, Format.FilterBytes, Format.RowBytes, Times;
    var p := |done|;
    FirstPasses(raw, f, w, h, images, types, p + 1);
    LastPass(raw, f, w, h, images[..p + 1], types[..p + 1]);
    assert images[..p + 1][..p] == images[..p] && types[..p + 1][..p] == types[..p];
    PassesDetermined(raw, f, w, h, done, tdone, images[..p], types[..p]);
    DefilterInverts(raw, |EncodePasses(f, w, h, done, tdone)|, f.FilterBytes(), f.RowBytes(PassW(w, p)),
        PassRows(w, h, p), images[p], types[p]);
  }

  // ----- scattering -----

  /** Index of a pixel in the final image. */
  function Index(w: nat, x: nat, y: nat): nat { Times(y, w) + x }

  lemma {:induction false} IndexApart(w: nat, x: nat, y: nat, x': nat, y': nat, ob: nat)
    requires x < w && x' < w && (x != x' || y != y')
    ensures var o, o' := Times(Index(w, x, y), ob), Times(Index(w, x', y'), ob); o + ob <= o' || o' + ob <= o
  {
    hide Times;
    TimesMono(y, y', w);
    TimesMono(y', y, w);
    TimesMono(Index(w, x, y), Index(w, x', y'), ob);
    TimesMono(Index(w, x', y'), Index(w, x, y), ob);
  }

  lemma {:induction false} IndexRoom(w: nat, h: nat, x: nat, y: nat, ob: nat)
    requires x < w && y < h
    ensures Times(Index(w, x, y), ob) + ob <= Times(Times(h, w), ob)
  {
    hide Times;
    TimesMono(y, h, w);
    TimesMono(Index(w, x, y), Times(h, w), ob);
  }

  /** The pixels written before pixel `i` of row `j` of pass `p`. */
  predicate Visited(p: nat, j: nat, i: nat, x: nat, y: nat) {
    var q := PassOf(x, y);
    q < p || (q == p && (Row(x, y) < j || (Row(x, y) == j && Col(x, y) < i)))
  }

  /** The final image shows pixel (`x`, `y`) as its pass has it. */
  ghost predicate Shows(final: array<Byte>, f: Format, w: nat, images: seq<seq<seq<Byte>>>, x: nat, y: nat)
    reads final
  {
    var q, j, i := PassOf(x, y), Row(x, y), Col(x, y);
    var o, ob := Times(Index(w, x, y), f.OutputBytes()), f.OutputBytes();
    && q < |images| && j < |images[q]| && o + ob <= final.Length
    && final[o..o + ob] == f.Pixel(images[q][j], i)
  }

  /** Exactly the pixels before this point have been written, each once, and they show their passes. */
  ghost predicate Scattered(final: array<Byte>, f: Format, w: nat, h: nat, images: seq<seq<seq<Byte>>>,
      log: seq<(nat, nat)>, p: nat, j: nat, i: nat)
    reads final
  {
    && Interlace.Distinct(log)
    && (forall x: nat, y: nat :: (x, y) in log <==> x < w && y < h && Visited(p, j, i, x, y))
    && (forall x: nat, y: nat :: x < w && y < h && Visited(p, j, i, x, y) ==> Shows(final, f, w, images, x, y))
  }

  /** memcpy of one pixel. */
  method CopyPixel(final: array<Byte>, o: nat, out: array<Byte>, src: nat, ob: nat)
    requires final != out && o + ob <= final.Length && src + ob <= out.Length
    modifies final
    ensures final[o..o + ob] == out[src..src + ob]
    ensures forall q :: 0 <= q < final.Length && (q < o || q >= o + ob) ==> final[q] == old(final[q])
  {
    var b := 0;
    while b < ob
      invariant b <= ob
      invariant final[o..o + b] == out[src..src + b]
      invariant forall q :: 0 <= q < final.Length && (q < o || q >= o + ob) ==> final[q] == old(final[q])
    {
      final[o + b] := out[src + b];
      b := b + 1;
    }
  }

  lemma {:induction false} VisitedNext(p: nat, j: nat, i: nat, x: nat, y: nat)
    requires p < 7
    ensures Visited(p, j, i + 1, x, y) <==> Visited(p, j, i, x, y) || (x == OutX(p, i) && y == OutY(p, j))
    ensures !Visited(p, j, i, OutX(p, i), OutY(p, j))
  {
    hide PassOf, Row, Col, OutX, OutY;
    PassesPartition(p, i, j, x, y);
    TargetPixel(p, i, j);
  }

  /** Writes pixel `i` of row `j` of pass `p`, for the first and only time. */
  method ScatterPixel(final: array<Byte>, out: array<Byte>, src: nat, f: Format, w: nat, h: nat, p: nat, j: nat, i: nat,
                      ghost images: seq<seq<seq<Byte>>>, ghost log: seq<(nat, nat)>)
    returns (ghost log': seq<(nat, nat)>)
    requires f.Valid() && final != out && final.Length == Times(Times(h, w), f.OutputBytes())
    requires p < 7 && |images| == p + 1 && j < |images[p]| && w <= MAX_DIMENSIONS && h <= MAX_DIMENSIONS
    requires i < PassW(w, p) && j < PassH(h, p) && src + f.OutputBytes() <= out.Length
    requires out[src..src + f.OutputBytes()] == f.Pixel(images[p][j], i)
    requires Scattered(final, f, w, h, images, log, p, j, i)
    modifies final
    ensures Scattered(final, f, w, h, images, log', p, j, i + 1)
  {
    hide Times, PassOf, Row, Col, OutX, OutY, PassW, PassH, Index, Format.FilterBytes, Format.OutputBytes,
        Format.Pixel, Visited;
    var outY, outX := OutY(p, j), OutX(p, i);
    var ob := f.OutputBytes();
    InPass(w, h, p, i, j);
    IndexRoom(w, h, outX, outY, ob);
    TargetPixel(p, i, j);
    VisitedNext(p, j, i, outX, outY);
    var o := Times(Index(w, outX, outY), ob);
    CopyPixel(final, o, out, src, ob);
    log' := log + [(outX, outY)];
    assert Shows(final, f, w, images, outX, outY);
    forall x: nat, y: nat | x < w && y < h && Visited(p, j, i, x, y) ensures Shows(final, f, w, images, x, y) {
      assert old(Shows(final, f, w, images, x, y));
      IndexApart(w, x, y, outX, outY, ob);
      ghost var o' := Times(Index(w, x, y), ob);
      assert final[o'..o' + ob] == old(final[o'..o' + ob]);
    }
    forall x: nat, y: nat
      ensures Visited(p, j, i + 1, x, y) <==> Visited(p, j, i, x, y) || (x == outX && y == outY)
    {
      VisitedNext(p, j, i, x, y);
    }
  }

  /** A pixel of the image is within the size of its pass. */
  lemma {:induction false} GridPixel(w: nat, h: nat, x: nat, y: nat)
    requires x < w <= MAX_DIMENSIONS && y < h <= MAX_DIMENSIONS
    ensures Col(x, y) < PassW(w, PassOf(x, y)) && Row(x, y) < PassH(h, PassOf(x, y))
  {
    hide PassOf, Row, Col, OutX, OutY, PassW, PassH;
    PixelTarget(x, y);
    InPass(w, h, PassOf(x, y), Col(x, y), Row(x, y));
  }

  /** The end of a row, and of a pass. */
  lemma {:induction false} RowEnds(w: nat, h: nat, p: nat, j: nat, x: nat, y: nat)
    requires x < w <= MAX_DIMENSIONS && y < h <= MAX_DIMENSIONS && p < 7
    ensures Visited(p, j, PassW(w, p), x, y) <==> Visited(p, j + 1, 0, x, y)
    ensures Visited(p, PassH(h, p), 0, x, y) <==> Visited(p + 1, 0, 0, x, y)
    ensures PassW(w, p) == 0 ==> (Visited(p, 0, 0, x, y) <==> Visited(p + 1, 0, 0, x, y))
    ensures PassH(h, p) == 0 ==> (Visited(p, 0, 0, x, y) <==> Visited(p + 1, 0, 0, x, y))
  {
    hide PassOf, Row, Col, PassW, PassH;
    GridPixel(w, h, x, y);
  }

  lemma {:induction false} NewPass(final: array<Byte>, f: Format, w: nat, h: nat, images: seq<seq<seq<Byte>>>,
      log: seq<(nat, nat)>, p: nat, img: seq<seq<Byte>>)
    requires |images| == p < 7 && Scattered(final, f, w, h, images, log, p, 0, 0)
    ensures Scattered(final, f, w, h, images + [img], log, p, 0, 0)
  {
    hide Times, PassOf, Row, Col, Index, Format.FilterBytes, Format.OutputBytes, Format.Pixel, Interlace.Distinct;
    forall x: nat, y: nat | x < w && y < h && Visited(p, 0, 0, x, y) ensures Shows(final, f, w, images + [img], x, y) {
      assert Shows(final, f, w, images, x, y);
    }
  }

  /** All pixels of pass `p`. */
  method ScatterPass(final: array<Byte>, out: array<Byte>, f: Format, w: nat, h: nat, p: nat, x: nat, y: nat,
                     ghost images: seq<seq<seq<Byte>>>, ghost start: seq<(nat, nat)>)
    returns (ghost log: seq<(nat, nat)>)
    requires f.Valid() && final != out && final.Length == Times(Times(h, w), f.OutputBytes())
    requires p < 7 && |images| == p + 1 && w <= MAX_DIMENSIONS && h <= MAX_DIMENSIONS
    requires x == PassW(w, p) > 0 && y == PassH(h, p) == |images[p]|
    requires out.Length == Times(y, f.Stride(x)) && ImageShown(out, f, x, images[p], y)
    requires Scattered(final, f, w, h, images, start, p, 0, 0)
    modifies final
    ensures Scattered(final, f, w, h, images, log, p + 1, 0, 0)
  {
    hide Times, PassOf, Row, Col, PassW, PassH, Format.FilterBytes, Format.OutputBytes, Format.Stride, Format.RowBytes,
      Format.Pixel, Visited, Scattered, ImageShown;
    log := start;
    var ob := f.OutputBytes();
    var j := 0;
    while j < y
      invariant j <= y && ImageShown(out, f, x, images[p], y) && Scattered(final, f, w, h, images, log, p, j, 0)
    {
      var i := 0;
      while i < x
        invariant i <= x && ImageShown(out, f, x, images[p], y) && Scattered(final, f, w, h, images, log, p, j, i)
      {
        PassPixel(out, f, x, images[p], y, j, i);
        log := ScatterPixel(final, out, Times(Times(j, x) + i, ob), f, w, h, p, j, i, images, log);
        i := i + 1;
      }
      NextRowOf(final, f, w, h, images, log, p, j);
      j := j + 1;
    }
    NextPassOf(final, f, w, h, images, log, p);
  }

  /** The pixels of a pass in its own buffer. */
  lemma {:induction false} PassPixel(out: array<Byte>, f: Format, x: nat, img: seq<seq<Byte>>, y: nat, j: nat, i: nat)
    requires |img| == y && j < y && i < x && ImageShown(out, f, x, img, y)
    ensures var src, ob := Times(Times(j, x) + i, f.OutputBytes()), f.OutputBytes();
      src + ob <= out.Length && out[src..src + ob] == f.Pixel(img[j], i)
  {
    hide Times, Format.Pixel, Format.OutputBytes;
    assert RowShown(out, f, x, img[j], Times(j, f.Stride(x)));
    TimesSum(Times(j, x), i, f.OutputBytes());
    TimesTimes(j, x, f.OutputBytes());
    assert |f.Pixel(img[j], i)| == f.OutputBytes();
  }

  lemma TimesTimes(a: nat, b: nat, c: nat)
    ensures Times(Times(a, b), c) == Times(a, Times(b, c))
  {}

  lemma {:induction false} NextRowOf(final: array<Byte>, f: Format, w: nat, h: nat, images: seq<seq<seq<Byte>>>,
      log: seq<(nat, nat)>, p: nat, j: nat)
    requires p < 7 && w <= MAX_DIMENSIONS && h <= MAX_DIMENSIONS
    requires Scattered(final, f, w, h, images, log, p, j, PassW(w, p))
    ensures Scattered(final, f, w, h, images, log, p, j + 1, 0)
  {
    hide Shows, Visited, PassW, Interlace.Distinct;
    forall x: nat, y: nat | x < w && y < h
      ensures Visited(p, j, PassW(w, p), x, y) <==> Visited(p, j + 1, 0, x, y)
    {
      RowEnds(w, h, p, j, x, y);
    }
  }

  lemma {:induction false} NextPassOf(final: array<Byte>, f: Format, w: nat, h: nat, images: seq<seq<seq<Byte>>>,
      log: seq<(nat, nat)>, p: nat)
    requires p < 7 && w <= MAX_DIMENSIONS && h <= MAX_DIMENSIONS
    requires Scattered(final, f, w, h, images, log, p, if PassRows(w, h, p) == 0 then 0 else PassH(h, p), 0)
    ensures Scattered(final, f, w, h, images, log, p + 1, 0, 0)
  {
    hide Shows, Visited, PassW, PassH, Interlace.Distinct;
    var j := if PassRows(w, h, p) == 0 then 0 else PassH(h, p);
    forall x: nat, y: nat | x < w && y < h
      ensures Visited(p, j, 0, x, y) <==> Visited(p + 1, 0, 0, x, y)
    {
      RowEnds(w, h, p, 0, x, y);
    }
  }

  lemma NothingRead(raw: seq<Byte>, f: Format, w: nat, h: nat, final: array<Byte>)
    ensures Holds(raw, f, w, h, [], []) && EncodePasses(f, w, h, [], []) == []
    ensures Scattered(final, f, w, h, [], [], 0, 0, 0)
  {
    hide PassOf, Shows;
  }

  /** A pass that CreatePngImageRaw has read, after those before it. */
  lemma {:induction false} OnePass(raw: seq<Byte>, at: nat, f: Format, w: nat, h: nat, images: seq<seq<seq<Byte>>>,
      types: seq<seq<Byte>>, img: seq<seq<Byte>>, ts: seq<Byte>)
    requires Holds(raw, f, w, h, images, types) && at == |EncodePasses(f, w, h, images, types)| &&
        PassRows(w, h, |images|) > 0
    requires Encoded(raw, at, f.FilterBytes(), f.RowBytes(PassW(w, |images|)), PassRows(w, h, |images|), img, ts)
    requires WidthOk(f, PassW(w, |images|))
    ensures Holds(raw, f, w, h, images + [img], types + [ts])
    ensures |EncodePasses(f, w, h, images + [img], types + [ts])|
      == at + Times(PassRows(w, h, |images|), f.RowBytes(PassW(w, |images|)) + 1)
  {
    hide Times, PassW, PassRows, EncodePasses, Encode, Format.FilterBytes, Format.RowBytes;
    var p := |images|;
    var n := f.RowBytes(PassW(w, p));
    EncodePassesSnoc(f, w, h, images, types, img, ts);
    EncodeLength(img, ts, f.FilterBytes(), n);
    assert raw[..at] + raw[at..TypePos(at, PassRows(w, h, p), n)] == raw[..TypePos(at, PassRows(w, h, p), n)];
  }

  lemma {:induction false} EmptyPass(raw: seq<Byte>, f: Format, w: nat, h: nat, images: seq<seq<seq<Byte>>>,
      types: seq<seq<Byte>>)
    requires f.Valid() && Holds(raw, f, w, h, images, types) && PassRows(w, h, |images|) == 0
    ensures Holds(raw, f, w, h, images + [[]], types + [[]])
    ensures EncodePasses(f, w, h, images + [[]], types + [[]]) == EncodePasses(f, w, h, images, types)
  {
    hide Times, PassW, EncodePasses, Format.RowBytes;
    EncodeNone(f.FilterBytes(), f.RowBytes(PassW(w, |images|)));
    EncodePassesSnoc(f, w, h, images, types, [], []);
  }

  lemma {:induction false} NotInterlaced(raw: seq<Byte>, f: Format, w: nat, h: nat, done: seq<seq<seq<Byte>>>,
      tdone: seq<seq<Byte>>)
    requires Holds(raw, f, w, h, done, tdone) && |done| < 7 && PassRows(w, h, |done|) > 0
    requires !(TypesOk(raw, |EncodePasses(f, w, h, done, tdone)|, PassRows(w, h, |done|), f.RowBytes(PassW(w, |done|)))
      && WidthOk(f, PassW(w, |done|)))
    ensures forall images, types :: !Interlaced(raw, f, w, h, images, types)
  {
    hide Interlaced, TypesOk, EncodePasses, PassRows, Format.RowBytes;
    forall images, types | Interlaced(raw, f, w, h, images, types) ensures false {
      NextPass(raw, f, w, h, done, tdone, images, types);
    }
  }

  lemma AllVisited(final: array<Byte>, f: Format, w: nat, h: nat, images: seq<seq<seq<Byte>>>, log: seq<(nat, nat)>)
    requires Scattered(final, f, w, h, images, log, 7, 0, 0)
    ensures Interlace.Distinct(log) && forall x: nat, y: nat :: (x, y) in log <==> x < w && y < h
    ensures forall x: nat, y: nat :: x < w && y < h ==> Shows(final, f, w, images, x, y)
  {
    hide PassOf, Row, Col, Shows, Interlace.Distinct;
    assert forall x: nat, y: nat :: Visited(7, 0, 0, x, y);
  }

  /** The de-interlacing part of stbi__create_png_image. */
  method CreatePngImage(raw: seq<Byte>, f: Format, w: nat, h: nat)
    returns (ok: bool, final: array<Byte>, ghost images: seq<seq<seq<Byte>>>, ghost types: seq<seq<Byte>>,
             ghost log: seq<(nat, nat)>)
    requires f.Valid() && w <= MAX_DIMENSIONS && h <= MAX_DIMENSIONS
    ensures ok ==> Interlaced(raw, f, w, h, images, types)
    ensures !ok ==> forall im, ty :: !Interlaced(raw, f, w, h, im, ty)
    ensures ok ==> Interlace.Distinct(log) && forall x: nat, y: nat :: (x, y) in log <==> x < w && y < h
    ensures ok ==> forall x: nat, y: nat :: x < w && y < h ==> Shows(final, f, w, images, x, y)
  {
    hide Times, PassOf, Row, Col, PassW, PassH, Format.FilterBytes, Format.OutputBytes, Format.Stride, Format.RowBytes,
      Format.Pixel, Scattered, Shows, Interlace.Distinct, Shapes, Encode, EncodePasses, TypesOk, ImageShown;
    final := new Byte[Times(Times(h, w), f.OutputBytes())];
    images, types, log := [], [], [];
    var p, at := 0, 0;
    NothingRead(raw, f, w, h, final);
    while p < 7
      invariant p <= 7 && |images| == |types| == p && Holds(raw, f, w, h, images, types)
      invariant at == |EncodePasses(f, w, h, images, types)|
      invariant Scattered(final, f, w, h, images, log, p, 0, 0)
    {
      var x, y := PassW(w, p), PassH(h, p);
      if x != 0 && y != 0 {
        var fine, out;
        ghost var img, ts;
        fine, out, img, ts := CreatePngImageRaw(raw, at, f, x, y);
        if !fine {
          NotInterlaced(raw, f, w, h, images, types);
          return false, final, images, types, log;
        }
        OnePass(raw, at, f, w, h, images, types, img, ts);
        NewPass(final, f, w, h, images, log, p, img);
        images, types := images + [img], types + [ts];
        log := ScatterPass(final, out, f, w, h, p, x, y, images, log);
        at := at + Times(y, f.RowBytes(x) + 1);
      } else {
        EmptyPass(raw, f, w, h, images, types);
        NewPass(final, f, w, h, images, log, p, []);
        images, types := images + [[]], types + [[]];
        NextPassOf(final, f, w, h, images, log, p);
      }
      p := p + 1;
    }
    AllVisited(final, f, w, h, images, log);
    ok := true;
  }

  // ----- interlacing -----

  /** The images are the seven reduced images of a picture, given as the bytes of its output pixels by row. */
  ghost predicate Reduces(f: Format, w: nat, h: nat, images: seq<seq<seq<Byte>>>, picture: seq<seq<seq<Byte>>>) {
    && |images| == 7 && |picture| == h && (forall y :: 0 <= y < h ==> |picture[y]| == w)
    && (forall p: nat :: p < 7 ==> |images[p]| == PassRows(w, h, p))
    && forall p: nat, j: nat, i: nat :: p < 7 && j < PassH(h, p) && i < PassW(w, p) ==>
      PixelReduced(f, images, picture, p, j, i)
  }

  ghost predicate PixelReduced(f: Format, images: seq<seq<seq<Byte>>>, picture: seq<seq<seq<Byte>>>, p: nat, j: nat,
      i: nat) {
    && p < |images| && j < |images[p]| && OutY(p, j) < |picture| && OutX(p, i) < |picture[OutY(p, j)]|
    && f.Pixel(images[p][j], i) == picture[OutY(p, j)][OutX(p, i)]
  }

  /** De-interlacing inverts interlacing: when the file holds the reduced images of a picture, whatever filters they
      were stored with, the final image shows the picture, pixel by pixel. */
  lemma {:induction false} DeinterlaceInverts(final: array<Byte>, raw: seq<Byte>, f: Format, w: nat, h: nat,
                                              images: seq<seq<seq<Byte>>>, types: seq<seq<Byte>>,
                                              reduced: seq<seq<seq<Byte>>>, reducedTypes: seq<seq<Byte>>,
                                              picture: seq<seq<seq<Byte>>>, x: nat, y: nat)
    requires x < w <= MAX_DIMENSIONS && y < h <= MAX_DIMENSIONS
    requires Interlaced(raw, f, w, h, images, types) && Interlaced(raw, f, w, h, reduced, reducedTypes)
    requires Reduces(f, w, h, reduced, picture) && Shows(final, f, w, images, x, y)
    ensures var o, ob := Times(Index(w, x, y), f.OutputBytes()), f.OutputBytes();
      o + ob <= final.Length && final[o..o + ob] == picture[y][x]
  {
    hide Times, PassOf, Row, Col, OutX, OutY, PassW, PassH, Index, Holds, Format.Pixel, Format.OutputBytes;
    PassesDetermined(raw, f, w, h, images, types, reduced, reducedTypes);
    PixelTarget(x, y);
    GridPixel(w, h, x, y);
    assert PixelReduced(f, reduced, picture, PassOf(x, y), Row(x, y), Col(x, y));
  }
}
