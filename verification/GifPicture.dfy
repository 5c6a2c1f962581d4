/** A picture through the whole frame decoder: written by any encoder of Appendix F it appears on the screen, every
    pixel in its place and colour. */
module GifPicture {
  import opened Arithmetic
  import opened BitStream
  import GifAppendixF
  import GifEncoder
  import opened GifRaster
  import opened Interlace

  // ----- where the pixels of a frame stand -----

  lemma {:induction false} RowCellAt(f: Frame, row: nat, col: nat, c: nat)
    requires col <= f.w && c < f.w - col
    ensures |RowCells(f, row, col)| == f.w - col && RowCells(f, row, col)[c] == Cell(f, row, col + c)
    decreases c
  {
    hide Cell;
    RowLength(f, row, col);
    if c > 0 {
      RowCellAt(f, row, col + 1, c - 1);
    }
  }

  lemma {:induction false} RowLength(f: Frame, row: nat, col: nat)
    requires col <= f.w
    ensures |RowCells(f, row, col)| == f.w - col
    decreases f.w - col
  {
    hide Cell;
    if col < f.w {
      RowLength(f, row, col + 1);
    }
  }

  /** Pixel `c` of the `i`-th row that is visited. */
  lemma {:induction false} CellAt(f: Frame, rows: seq<nat>, i: nat, c: nat)
    requires i < |rows| && c < f.w
    ensures Times(i, f.w) + c < |Cells(f, rows)| && Cells(f, rows)[Times(i, f.w) + c] == Cell(f, rows[i], c)
  {
    hide Cell, RowCells, Times;
    RowLength(f, rows[0], 0);
    if i == 0 {
      TimesSucc(0, f.w);
      RowCellAt(f, rows[0], 0, c);
    } else {
      TimesSucc(i - 1, f.w);
      CellAt(f, rows[1..], i - 1, c);
    }
  }

  lemma FirstRow(rows: seq<nat>) returns (r: nat)
    requires rows != []
    ensures r in rows
  {
    r := rows[0];
  }

  lemma {:induction false} CountRows(rows: seq<nat>, h: nat)
    requires Distinct(rows) && forall r: nat :: r in rows <==> r < h
    ensures |rows| == h
    decreases h
  {
    if h == 0 {
      if rows != [] {
        var r := FirstRow(rows);
      }
    } else {
      assert h - 1 in rows;
      var i :| 0 <= i < |rows| && rows[i] == h - 1;
      var rest := rows[..i] + rows[i + 1..];
      assert forall j :: 0 <= j < |rest| ==> rest[j] == rows[if j < i then j else j + 1];
      forall r: nat ensures r in rest <==> r < h - 1 { WithoutLast(rows, h, i, rest, r); }
      CountRows(rest, h - 1);
    }
  }

  lemma {:induction false} WithoutLast(rows: seq<nat>, h: nat, i: nat, rest: seq<nat>, r: nat)
    requires Distinct(rows) && (forall r: nat :: r in rows <==> r < h) && i < |rows| && rows[i] == h - 1
    requires |rest| == |rows| - 1 && forall j :: 0 <= j < |rest| ==> rest[j] == rows[if j < i then j else j + 1]
    ensures r in rest <==> r < h - 1
  {
    if r in rest {
      var j :| 0 <= j < |rest| && rest[j] == r;
      assert rows[if j < i then j else j + 1] == r && r in rows && r != h - 1;
    }
    if r in rows && r != h - 1 {
      var j :| 0 <= j < |rows| && rows[j] == r;
      assert rest[if j < i then j else j - 1] == r;
    }
  }

  /** The stream fills the rows in their order, each from left to right. */
  lemma {:induction false} PlaceAt(f: Frame, i: nat, c: nat)
    requires i < f.h && c < f.w
    ensures |RowOrder(f)| == f.h
    ensures var k := Times(i, f.w) + c; k < |Places(f)| && Places(f)[k] == Cell(f, RowOrder(f)[i], c)
  {
    hide RowOrder, Cell, Cells, Distinct;
    RowsOnce(f);
    CountRows(RowOrder(f), f.h);
    CellAt(f, RowOrder(f), i, c);
  }

  // ----- what the screen shows -----

  /** The screen shows palette entry `pix` at cell `q`, red, green, blue and alpha (the palette holds blue first); an
      entry that is more transparent than opaque leaves the cell as it was. */
  ghost predicate Seen(screen: array<Byte>, before: seq<Byte>, palette: array<Byte>, q: nat, pix: Byte)
    requires |before| == screen.Length && palette.Length == 1024
    reads screen, palette
  {
    && 4 * q + 4 <= screen.Length
    && screen[4 * q..4 * q + 4] ==
      if palette[4 * pix + 3] <= 128 then before[4 * q..4 * q + 4]
      else [palette[4 * pix + 2], palette[4 * pix + 1], palette[4 * pix], palette[4 * pix + 3]]
  }

  /** Pixel `c` of the `i`-th row of the stream is seen in its row and column of the frame. */
  ghost predicate PixelSeen(screen: array<Byte>, before: seq<Byte>, palette: array<Byte>, f: Frame, pixels: seq<Byte>,
      i: nat, c: nat)
    requires |before| == screen.Length && palette.Length == 1024
    reads screen, palette
  {
    && i < |RowOrder(f)| && Times(i, f.w) + c < |pixels|
    && Seen(screen, before, palette, Cell(f, RowOrder(f)[i], c), pixels[Times(i, f.w) + c])
  }

  lemma {:induction false} AllSeen(g: Gif)
    requires g.Shape() && g.Painted() && |g.pixels| == Times(g.frame.h, g.frame.w)
    ensures forall i: nat, c: nat :: i < g.frame.h && c < g.frame.w ==>
      PixelSeen(g.out, g.baseOut, g.colorTable, g.frame, g.pixels, i, c)
  {
    hide Places, Times, Cell, RowOrder, Gif.Painted, Seen, Distinct;
    var f := g.frame;
    RowsOnce(f);
    CountRows(RowOrder(f), f.h);
    forall i: nat, c: nat | i < f.h && c < f.w
      ensures PixelSeen(g.out, g.baseOut, g.colorTable, f, g.pixels, i, c)
    {
      PlaceAt(f, i, c);
      TimesMono(i + 1, f.h, f.w);
      TimesSucc(i, f.w);
      SeenAt(g, Times(i, f.w) + c);
    }
  }

  lemma SeenAt(g: Gif, k: nat)
    requires g.Shape() && g.Painted() && k < |g.pixels| && k < |Places(g.frame)|
    ensures Seen(g.out, g.baseOut, g.colorTable, Places(g.frame)[k], g.pixels[k])
  {
    hide Places;
    assert g.Done()[k] == Places(g.frame)[k];
  }

  /** A frame written by any encoder, clear codes often enough, anywhere in a file: every pixel appears. */
  method ShowPicture(s: Context, size: nat, ghost pixels: seq<Byte>, ghost codes: seq<nat>,
      screen: array<Byte>, drawn: array<Byte>, palette: array<Byte>, f: Frame)
    returns (r: Outcome)
    requires 1 <= size <= 8 && GifEncoder.Encodes(size, GifEncoder.Initial(size), pixels, codes)
    requires GifEncoder.LongestRun(size, codes, 0) <= GifAppendixF.Patience(size)
    requires s.pos <= |s.data| && GifEncoder.Frame(size, codes) <= s.data[s.pos..]
    requires drawn.Length == f.width * f.height && screen.Length == 4 * drawn.Length && palette.Length == 1024
    requires screen != drawn && screen != palette && drawn != palette
    requires Fits(f) && |pixels| == Times(f.h, f.w)
    modifies s`pos, screen, drawn
    ensures r == Loaded
    ensures forall i: nat, c: nat :: i < f.h && c < f.w ==>
      PixelSeen(screen, old(screen[..]), palette, f, pixels, i, c)
  {
    hide GifEncoder.Encodes, GifEncoder.Initial, GifEncoder.LongestRun, GifEncoder.Frame, Gif.Painted, Times, Cell,
        RowOrder, StandardFrame, DataComesFirst, LongestStretch, FrameData, PixelSeen;
    GifEncoder.FrameRoundTrip(s.data, s.pos, size, pixels, codes);
    var g;
    var lflags := if f.interlaced then 0x40 else 0;
    r, g := LoadFrame(s, f.width, f.height, screen, drawn, palette, f.x, f.y, f.w, f.h, lflags);
    assert g.frame == f;
    AllSeen(g);
  }
}
