/** The GIF frame decoder of stb_image: LZW codes resolved through chains of prefixes, pixels placed into
    the screen in interlaced or plain order. */
module GifRaster {
  import opened Arithmetic
  import opened Bits
  import opened BitStream
  import opened GifLzw
  import opened GifAppendixF
  import opened Interlace

  /** Position after reading one byte. */
  function AfterByte(data: seq<Byte>, p: nat): nat {
    if p < |data| then p + 1 else p
  }

  /** The frame data at `p`: a code size, then the code stream in sub-blocks. */
  function FrameData(data: seq<Byte>, p: nat): Decoded {
    var size := ByteAt(data, p);
    Decode(size, SubBlocks(data, AfterByte(data, p)), 0, Start(size, false))
  }

  /** The pixels of the frame data at `p` by Appendix F. */
  function StandardFrame(data: seq<Byte>, p: nat): Decoded {
    var size := ByteAt(data, p);
    Strings(size, SubBlocks(data, AfterByte(data, p)), 0, Fresh(size))
  }

  /** The longest stretch of data codes without a clear code in the frame data at `p`. */
  function LongestStretch(data: seq<Byte>, p: nat): nat {
    var size := ByteAt(data, p);
    Deferred(size, SubBlocks(data, AfterByte(data, p)), 0, Fresh(size), 0)
  }

  /** The first code in the frame data at `p` stands for data. */
  predicate DataComesFirst(data: seq<Byte>, p: nat) {
    StartsWithData(ByteAt(data, p), SubBlocks(data, AfterByte(data, p)))
  }

  /** Frame data of a code size that Appendix F knows is decoded by Appendix F unless it starts with data or such a
      stretch is too long. */
  lemma {:induction false} FrameFollowsAppendixF(data: seq<Byte>, p: nat)
    requires 1 <= ByteAt(data, p) < 12
    ensures var r, f := FrameData(data, p), StandardFrame(data, p);
      && r.pixels <= f.pixels && f.verdict in {Complete, Rejected(IllegalCode)}
      && (r.verdict == Rejected(NoClearCode) <==> DataComesFirst(data, p))
      && (r.verdict == Rejected(TooManyCodes) <==>
            !DataComesFirst(data, p) && LongestStretch(data, p) > Patience(ByteAt(data, p)))
      && (r.verdict != Rejected(NoClearCode) && r.verdict != Rejected(TooManyCodes) ==> r == f)
  {
    DecodesAppendixF(ByteAt(data, p), SubBlocks(data, AfterByte(data, p)));
  }

  /** Two positions from which the rest of the file reads the same. */
  predicate SameRest(data: seq<Byte>, p: nat, q: nat) {
    p == q || (p >= |data| && q >= |data|)
  }

  /** The byte source, in memory; reading past the end gives zeros. */
  class Context {
    const data: seq<Byte>
    var pos: nat

    constructor (bytes: seq<Byte>)
      ensures data == bytes && pos == 0
    {
      data, pos := bytes, 0;
    }

    method Get8() returns (b: Byte)
      modifies this`pos
      ensures b == ByteAt(data, old(pos))
      ensures pos == if old(pos) < |data| then old(pos) + 1 else old(pos)
    {
      if pos < |data| {
        b := data[pos];
        pos := pos + 1;
      } else {
        b := 0;
      }
    }

    method Skip(n: nat)
      modifies this`pos
      ensures pos == old(pos) + n
    {
      pos := pos + n;
    }
  }

  /** How the decoder of a frame ends. */
  datatype Outcome = Loaded | Failed(error: GifError) | CodeSizeTooLarge | BadDescriptor

  datatype CodeReply = Accepted | Refused(error: GifError)

  /** Where the decoder stands in a frame: the next pixel, and the distance of the rows of this pass. */
  datatype Position = Position(row: nat, col: nat, rowStep: nat)

  function Min(a: nat, b: nat): nat {
    if a < b then a else b
  }

  lemma FourTimes(r: nat, width: nat)
    ensures Times(r, 4 * width) == 4 * (r * width)
  {}

  lemma HalfStep(parse: nat, line: nat)
    requires 0 < parse <= 3
    ensures PassStep(parse) % 2 == 0
    ensures Times(PassStep(parse), line) / 2 == Times(PassStep(parse) / 2, line)
  {}

  lemma Beginning(data: seq<Byte>, start: nat, size: nat, whole: Decoded)
    ensures Unread(data, start, 0) == SubBlocks(data, start) == SubBlocks(data, start)[0..]
    ensures SameRest(data, BlocksEnd(data, start + 0), BlocksEnd(data, start))
    ensures Continues(whole, [], whole) && Lsb(SubBlocks(data, start), 0, 0) == 0
    ensures Start(size, false).width == size + 1
  {
    assert Slice(data, start, 0) == [];
  }

  /** The next byte of the code stream; `ended` if the block terminator comes first. */
  method NextByte(s: Context, rest: nat, ghost bytes: seq<Byte>, ghost fed: nat, ghost end: nat)
    returns (b: Byte, len: nat, ended: bool)
    requires fed <= |bytes| && Unread(s.data, s.pos, rest) == bytes[fed..]
    requires SameRest(s.data, BlocksEnd(s.data, s.pos + rest), end)
    modifies s`pos
    ensures ended <==> fed == |bytes|
    ensures ended ==> SameRest(s.data, s.pos, end)
    ensures !ended ==>
      && b == bytes[fed] == ByteAt(bytes, fed) && Unread(s.data, s.pos, len) == bytes[fed + 1..]
      && SameRest(s.data, BlocksEnd(s.data, s.pos + len), end)
  {
    hide Unread;
    b, len, ended := 0, rest, false;
    if len == 0 {
      UnreadEnd(s.data, s.pos);
      len := s.Get8();
      if len == 0 {
        ended := true;
        return;
      }
    }
    len := len - 1;
    UnreadStep(s.data, s.pos, len + 1);
    if s.pos >= |s.data| {
      UnreadPastEnd(s.data, s.pos, s.pos + 1, len);
    }
    b := s.Get8();
    assert bytes[fed..][1..] == bytes[fed + 1..];
  }

  /** The rest of the frame data, after an end code. */
  method SkipBlocks(s: Context, rest: nat, ghost end: nat)
    requires SameRest(s.data, BlocksEnd(s.data, s.pos + rest), end)
    modifies s`pos
    ensures SameRest(s.data, s.pos, end)
  {
    s.Skip(rest);
    ghost var p := s.pos;
    var len := s.Get8();
    while len > 0
      invariant SameRest(s.data, BlocksEnd(s.data, p), end)
      invariant len == ByteAt(s.data, p) && s.pos == AfterByte(s.data, p)
      decreases |s.data| - p
    {
      s.Skip(len);
      p := s.pos;
      len := s.Get8();
    }
  }

  /** The strings of the dictionary and the previous code, against the decoder of Appendix F. */
  ghost predicate Tied(size: nat, dict: seq<seq<Byte>>, oldcode: int, st: Lzw) {
    && Sound(size, st) && |dict| == st.next && st.table == dict[..|st.table|]
    && |dict| >= Pow2(size) + 2 && dict[..Pow2(size) + 2] == Roots(size)
    && (if oldcode < 0 then st.prev == []
        else
          && oldcode < |dict| && oldcode != Pow2(size) && oldcode != Pow2(size) + 1
          && st.prev == dict[oldcode] != [])
  }

  lemma TiedFacts(size: nat, dict: seq<seq<Byte>>, oldcode: int, st: Lzw)
    requires size <= 12 && Tied(size, dict, oldcode, st)
    ensures Sound(size, st) && |dict| == st.next <= MAX_CODES
    ensures oldcode < 0 <==> st.prev == []
    ensures oldcode >= 0 ==> oldcode < |dict| && oldcode != Pow2(size) && oldcode != Pow2(size) + 1
  {}

  /** When a data code is rejected. */
  lemma Refusals(size: nat, st: Lzw, code: nat)
    requires size <= 12 && Sound(size, st) && code != Pow2(size) && code != Pow2(size) + 1
    ensures code > st.next ==> Interpret(size, st, code) == Reject(IllegalCode)
    ensures code <= st.next && !st.cleared ==> Interpret(size, st, code) == Reject(NoClearCode)
    ensures code == st.next && st.cleared && st.prev == [] ==> Interpret(size, st, code) == Reject(IllegalCode)
    ensures code <= st.next == MAX_CODES && st.cleared && st.prev != [] ==>
      Interpret(size, st, code) == Reject(TooManyCodes)
  {
    SizePow(size);
  }

  /** One data code, once its entry is made. */
  lemma {:induction false} TiedAfter(size: nat, was: seq<seq<Byte>>, dict: seq<seq<Byte>>, oldcode: int, st: Lzw,
      code: nat)
    requires size <= 12 && Tied(size, was, oldcode, st)
    requires code < Pow2(st.width) && code <= |was| && code != Pow2(size) && code != Pow2(size) + 1
    requires st.cleared && (oldcode < 0 ==> code < |was| && dict == was)
    requires oldcode >= 0 ==>
      |was| < MAX_CODES && dict == was + [was[oldcode] + [First(was[if code < |was| then code else oldcode])]]
    requires code < |dict| && dict[code] != []
    ensures var r := Interpret(size, st, code);
      && r.Emit? && r.out == dict[code] && r.after.cleared && Tied(size, dict, code, r.after)
      && r.after.width == WidthAfter(size, |dict|, st.width) > 0
  {
    hide Pow2, WidthShape, WidthAfter, Roots;
    CodeKnown(size, st, code);
    InterpretSound(size, st, code);
    WidthPositive(size, Interpret(size, st, code).after);
    if oldcode >= 0 {
      assert dict[..Pow2(size) + 2] == was[..Pow2(size) + 2];
      assert code == |was| ==> dict[code] == st.prev + [st.prev[0]];
    }
  }

  /** The decoder of one frame of a screen: `out` holds four bytes a pixel, `history` marks the pixels that
      were drawn. */
  class Gif {
    const width: nat
    const height: nat
    const out: array<Byte>
    const history: array<Byte>
    const colorTable: array<Byte>

    const prefix: array<int>
    const first: array<Byte>
    const suffix: array<Byte>

    const lineSize: nat
    const startX: nat
    const startY: nat
    const maxX: nat
    const maxY: nat
    var curX: nat
    var curY: nat
    var step: nat
    var parse: nat

    ghost const frame: Frame
    ghost var at: Position
    /** The pixels decoded so far, and the screen before the first of them. */
    ghost var pixels: seq<Byte>
    ghost const baseOut: seq<Byte>
    ghost const baseHistory: seq<Byte>
    /** The string of every code given out. */
    ghost var dict: seq<seq<Byte>>

    ghost predicate Shape() {
      && history.Length == width * height && out.Length == 4 * history.Length
      && prefix.Length == first.Length == suffix.Length == MAX_CODES
      && colorTable.Length == 1024
      && out != history && out != colorTable && out != first && out != suffix
      && history != colorTable && history != first && history != suffix
      && colorTable != first && colorTable != suffix && first != suffix
      && |baseOut| == out.Length && |baseHistory| == history.Length
    }

    /** The bounds of the frame in byte offsets. */
    ghost predicate Geometry() {
      && frame.width == width && frame.height == height && Fits(frame)
      && lineSize == 4 * width
      && startX == 4 * frame.x && startY == Times(frame.y, lineSize)
      && maxX == startX + 4 * frame.w && maxY == startY + Times(frame.h, lineSize)
    }

    /** Image descriptor. */
    constructor (w: nat, h: nat, screen: array<Byte>, drawn: array<Byte>, palette: array<Byte>, f: Frame)
      requires drawn.Length == w * h && screen.Length == 4 * drawn.Length && palette.Length == 1024
      requires screen != drawn && screen != palette && drawn != palette
      requires f.width == w && f.height == h && Fits(f)
      ensures Shape() && Geometry() && Cursor() && Painted() && pixels == []
      ensures width == w && height == h && out == screen && history == drawn && colorTable == palette && frame == f
      ensures baseOut == screen[..] && baseHistory == drawn[..]
      ensures fresh(prefix) && fresh(first) && fresh(suffix)
    {
      hide Times, Places, CellsFrom;
      width, height, out, history, colorTable := w, h, screen, drawn, palette;
      var line := w * 4;
      var left, top := f.x * 4, Times(f.y, line);
      var bottom := top + Times(f.h, line);
      lineSize, startX, startY, maxX, maxY := line, left, top, left + f.w * 4, bottom;
      curX := left;
      // A frame of width 0 starts below its last row.
      curY := if f.w == 0 then bottom else top;
      step := if f.interlaced then 8 * line else line;
      parse := if f.interlaced then 3 else 0;
      frame, pixels, dict := f, [], [];
      at := Position(if f.w == 0 then f.h else 0, 0, if f.interlaced then 8 else 1);
      baseOut, baseHistory := screen[..], drawn[..];
      prefix := new int[MAX_CODES];
      first := new Byte[MAX_CODES];
      suffix := new Byte[MAX_CODES];
      new;
      TimesIs(0, lineSize);
      TimesIs(1, lineSize);
      TimesIs(8, lineSize);
      FirstCells(f);
      assert Places(f) == [] + CellsFrom(f, at.row, at.col, at.rowStep, parse);
      NothingPainted();
    }

    // ----- the cursor -----

    /** The places filled so far. */
    ghost function Done(): (r: seq<nat>)
      reads this`pixels
    {
      Places(frame)[..Min(|pixels|, |Places(frame)|)]
    }

    /** The byte offsets are those of a row and a column. */
    ghost predicate Offsets()
      reads this`at, this`curX, this`curY, this`step, this`parse
    {
      && curX == startX + 4 * at.col && curY == startY + Times(at.row, lineSize)
      && at.rowStep > 0 && step == Times(at.rowStep, lineSize) && parse <= 3
      && (frame.w == 0 ==> at.row >= frame.h)
    }

    /** The cells still to come are the tail of the order of Appendix E. */
    ghost predicate Cursor()
      reads this`at, this`curX, this`curY, this`step, this`parse, this`pixels
    {
      && Offsets()
      && (at.row < frame.h ==> at.col < frame.w)
      && Places(frame) == Done() + CellsFrom(frame, at.row, at.col, at.rowStep, parse)
    }

    // ----- pixels -----

    ghost predicate Shown(q: nat, pix: Byte)
      requires Shape() && q < history.Length
      reads out, history, colorTable
    {
      && history[q] == 1
      && if colorTable[4 * pix + 3] > 128 then
           && out[4 * q] == colorTable[4 * pix + 2] && out[4 * q + 1] == colorTable[4 * pix + 1]
           && out[4 * q + 2] == colorTable[4 * pix] && out[4 * q + 3] == colorTable[4 * pix + 3]
         else
           && out[4 * q] == baseOut[4 * q] && out[4 * q + 1] == baseOut[4 * q + 1]
           && out[4 * q + 2] == baseOut[4 * q + 2] && out[4 * q + 3] == baseOut[4 * q + 3]
    }

    ghost predicate Untouched(q: nat)
      requires Shape() && q < history.Length
      reads out, history
    {
      && history[q] == baseHistory[q]
      && out[4 * q] == baseOut[4 * q] && out[4 * q + 1] == baseOut[4 * q + 1]
      && out[4 * q + 2] == baseOut[4 * q + 2] && out[4 * q + 3] == baseOut[4 * q + 3]
    }

    /** The k-th pixel decoded is shown in the k-th place of the frame, as far as the frame has places;
        transparent colours leave the screen as it was, and so do all other cells. */
    ghost predicate Painted()
      requires Shape()
      reads this`pixels, out, history, colorTable
    {
      && (forall j :: 0 <= j < |Done()| ==> Done()[j] < history.Length && Shown(Done()[j], pixels[j]))
      && (forall q :: 0 <= q < history.Length && q !in Done() ==> Untouched(q))
    }

    lemma NothingPainted()
      requires Shape() && pixels == [] && baseOut == out[..] && baseHistory == history[..]
      ensures Painted() && Done() == []
    {
      hide Places;
    }

    method WritePixel(idx: nat, pix: Byte, ghost q: nat)
      requires Shape() && idx == 4 * q && q < history.Length
      requires Untouched(q)
      modifies out, history
      ensures Shown(q, pix)
      ensures forall i :: 0 <= i < history.Length && i != q ==> history[i] == old(history[i])
      ensures forall i :: 0 <= i < out.Length && !(4 * q <= i < 4 * q + 4) ==> out[i] == old(out[i])
    {
      history[idx / 4] := 1;
      var c: nat := pix * 4;
      if colorTable[c + 3] > 128 {
        out[idx] := colorTable[c + 2];
        out[idx + 1] := colorTable[c + 1];
        out[idx + 2] := colorTable[c];
        out[idx + 3] := colorTable[c + 3];
      }
    }

    /** Shows the next pixel in its place. */
    method Plot(idx: nat, pix: Byte, ghost q: nat)
      requires Shape() && Painted() && |Done()| == |pixels| < |Places(frame)|
      requires idx == 4 * q && q == Places(frame)[|pixels|] < history.Length && Distinct(Places(frame))
      modifies this`pixels, out, history
      ensures Painted() && pixels == old(pixels) + [pix] && Done() == old(Done()) + [q]
    {
      hide Places;
      assert q !in Done();
      ghost var n, done := |pixels|, Done();
      WritePixel(idx, pix, q);
      pixels := pixels + [pix];
      assert Done() == done + [q];
      forall j | 0 <= j < |Done()| ensures Done()[j] < history.Length && Shown(Done()[j], pixels[j]) {
        if j < n {
          assert done[j] in done;
          assert old(Shown(done[j], pixels[j]));
        }
      }
      forall p | 0 <= p < history.Length && p !in Done() ensures Untouched(p) {
        assert q in Done() && forall x :: x in done ==> x in Done();
        assert old(Untouched(p));
      }
    }

    /** The end of a row: the next row of the pass, or the first row of the next pass that has any. */
    method AdvanceRow()
      requires Geometry() && Offsets() && at.row < frame.h
      modifies this`curX, this`curY, this`step, this`parse, this`at
      ensures Offsets() && at.col == 0 && frame.w > 0
      ensures CellsFrom(frame, at.row, at.col, at.rowStep, parse) ==
        Cells(frame, RowsFrom(frame.h, old(at.row) + old(at.rowStep), old(at.rowStep), old(parse)))
    {
      hide Times, PassStep, Cells, RowCells;
      curX := startX;
      curY := curY + step;
      TimesSum(at.row, at.rowStep, lineSize);
      at := Position(at.row + at.rowStep, 0, at.rowStep);
      TimesOrder(at.row, frame.h, lineSize);
      while curY >= maxY && parse > 0
        invariant Offsets() && at.col == 0 && (at.row < frame.h <==> curY < maxY)
        invariant RowsFrom(frame.h, at.row, at.rowStep, parse) ==
          RowsFrom(frame.h, old(at.row) + old(at.rowStep), old(at.rowStep), old(parse))
        decreases parse
      {
        step := Times(PassStep(parse), lineSize);
        HalfStep(parse, lineSize);
        curY := startY + step / 2;
        at := Position(PassStep(parse) / 2, 0, PassStep(parse));
        parse := parse - 1;
        TimesOrder(at.row, frame.h, lineSize);
      }
      NextRow(frame, at.row, at.rowStep, parse);
    }

    lemma CursorCell()
      requires Shape() && Geometry() && Offsets() && at.row < frame.h && at.col < frame.w
      ensures curX + curY == 4 * Cell(frame, at.row, at.col) && Cell(frame, at.row, at.col) < history.Length
    {
      hide Times;
      CellLess(frame, at.row, at.col);
      TimesSum(frame.y, at.row, lineSize);
      FourTimes(frame.y + at.row, width);
    }

    lemma CursorPastEnd()
      requires Geometry() && Cursor() && curY >= maxY
      ensures at.row >= frame.h && |Done()| == |Places(frame)|
    {
      hide Times, Places, RowCells, Cells, RowsFrom;
      if frame.w > 0 {
        TimesOrder(at.row, frame.h, lineSize);
      }
    }

    lemma CursorWithin()
      requires Geometry() && Cursor() && curY < maxY
      ensures at.row < frame.h && at.col < frame.w
      ensures Places(frame) ==
        Done() + [Cell(frame, at.row, at.col)] + CellsAfter(frame, at.row, at.col, at.rowStep, parse)
      ensures |Done()| == |pixels| < |Places(frame)|
    {
      hide Times, Places, Cell, CellsAfter, RowCells;
      if at.row >= frame.h {
        MulMono(lineSize, frame.h, at.row);
        TimesIs(at.row, lineSize);
        TimesIs(frame.h, lineSize);
      }
      NextCell(frame, at.row, at.col, at.rowStep, parse);
    }

    /** A pixel that arrives when the frame is full changes nothing. */
    ghost method MorePixels(pix: Byte)
      requires Shape() && Painted() && |Done()| == |Places(frame)|
      modifies this`pixels
      ensures Painted() && pixels == old(pixels) + [pix] && Done() == old(Done())
    {
      hide Places;
      ghost var done := Done();
      pixels := pixels + [pix];
      assert Done() == done;
    }

    /** One pixel: the part of stbi__out_gif_code after the recursion. */
    method PutPixel(pix: Byte)
      requires Shape() && Geometry() && Cursor() && Painted()
      modifies this`curX, this`curY, this`step, this`parse, this`at, this`pixels, out, history
      ensures Cursor() && Painted() && pixels == old(pixels) + [pix]
    {
      hide Times, Gif.Shape, Gif.Painted, Places, CellsFrom, Cells, RowsFrom, Cell, Distinct;
      if curY >= maxY {
        CursorPastEnd();
        MorePixels(pix);
        return;
      }
      CursorWithin();
      CursorCell();
      PlacesOnce(frame);
      Plot(curX + curY, pix, Cell(frame, at.row, at.col));
      curX := curX + 4;
      at := at.(col := at.col + 1);
      if curX >= maxX {
        AdvanceRow();
      }
    }

    // ----- the dictionary -----

    /** A code of the dictionary other than the clear and end codes: its prefix comes before it. */
    ghost predicate Entry(clear: nat, c: nat)
      requires Shape() && c < |dict| <= MAX_CODES
      reads this`dict, prefix, first, suffix
    {
      && dict[c] != [] && first[c] == dict[c][0]
      && (if prefix[c] < 0 then dict[c] == [suffix[c]]
          else
            && prefix[c] < c && prefix[c] != clear && prefix[c] != clear + 1
            && dict[c] == dict[prefix[c]] + [suffix[c]])
    }

    ghost predicate Dictionary(clear: nat)
      requires Shape()
      reads this`dict, prefix, first, suffix
    {
      && clear + 2 <= |dict| <= MAX_CODES
      && forall c: nat :: c < |dict| && c != clear && c != clear + 1 ==> Entry(clear, c)
    }

    /** stbi__out_gif_code: the pixels of a code, first to last. */
    method OutGifCode(code: nat, ghost clear: nat)
      requires Shape() && Geometry() && Cursor() && Painted() && Dictionary(clear)
      requires code < |dict| && code != clear && code != clear + 1
      modifies this`curX, this`curY, this`step, this`parse, this`at, this`pixels, out, history
      ensures Cursor() && Painted() && pixels == old(pixels) + dict[code]
      decreases code
    {
      hide Gif.Cursor, Gif.Painted, Gif.Geometry;
      assert Entry(clear, code);
      if prefix[code] >= 0 {
        OutGifCode(prefix[code], clear);
      }
      PutPixel(suffix[code]);
    }

    /** The codes below the clear code stand for single pixels. */
    method InitCodes(clear: nat, ghost size: nat)
      requires Shape() && clear == Pow2(size) && clear + 2 <= MAX_CODES
      modifies prefix, first, suffix, this`dict
      ensures dict == Roots(size) && Dictionary(clear)
    {
      hide Pow2;
      var initCode := 0;
      while initCode < clear
        invariant initCode <= clear
        invariant forall c :: 0 <= c < initCode ==> prefix[c] == -1 && first[c] == suffix[c] == c % 256
      {
        prefix[initCode] := -1;
        first[initCode] := initCode % 256;
        suffix[initCode] := initCode % 256;
        initCode := initCode + 1;
      }
      dict := Roots(size);
    }

    /** Enters the string of `oldcode` followed by the first pixel of the string of `code`, which may be
        the entry being made. */
    method EnterCode(avail: nat, oldcode: nat, code: nat, ghost clear: nat)
      requires Shape() && Dictionary(clear) && avail == |dict| < MAX_CODES && code <= avail + 1
      requires oldcode < avail && oldcode != clear && oldcode != clear + 1 && code != clear && code != clear + 1
      modifies prefix, first, suffix, this`dict
      ensures Dictionary(clear)
      ensures dict == old(dict) + [old(dict)[oldcode] + [First(old(dict)[if code < avail then code else oldcode])]]
    {
      assert Entry(clear, oldcode);
      if code < avail {
        assert Entry(clear, code);
      }
      prefix[avail] := oldcode;
      first[avail] := first[oldcode];
      // The source advances its counter before this comparison, and a code that has passed its check is
      // never that large; first[code] is already right when the code is the one being entered.
      suffix[avail] := if code == avail + 1 then first[avail] else first[code];
      dict := dict + [dict[oldcode] + [suffix[avail]]];
      forall c: nat | c < |dict| && c != clear && c != clear + 1 ensures Entry(clear, c) {
        if c < avail {
          assert old(Entry(clear, c));
        }
      }
    }

    /** The variables of the raster loop, and the decoder of Appendix F that they stand for. */
    ghost predicate Stands(size: nat, clear: nat, avail: nat, oldcode: int, needClear: bool, codesize: nat, st: Lzw)
      requires Shape()
      reads this`dict, prefix, first, suffix
    {
      && size <= 12 && clear == Pow2(size) && Dictionary(clear)
      && Tied(size, dict, oldcode, st) && avail == |dict| && codesize == st.width && needClear == !st.cleared
    }

    /** Right after a clear code. */
    ghost method ClearCodes(size: nat, clear: nat, avail: nat, oldcode: int, needClear: bool, codesize: nat, st: Lzw)
      requires Shape() && Stands(size, clear, avail, oldcode, needClear, codesize, st)
      modifies this`dict
      ensures Stands(size, clear, clear + 2, -1, false, size + 1, Start(size, true))
    {
      hide WidthShape, Pow2;
      StartSound(size, true);
      dict := dict[..clear + 2];
      forall c: nat | c < |dict| && c != clear && c != clear + 1 ensures Entry(clear, c) {
        assert old(Entry(clear, c));
      }
    }

    /** A code other than the clear and end codes. */
    method DataCode(clear: nat, code: nat, next: nat, oldcode: int, needClear: bool, width: nat, ghost size: nat,
                    ghost st: Lzw)
      returns (reply: CodeReply, avail: nat, codesize: nat, ghost after: Lzw)
      requires Shape() && Geometry() && Cursor() && Painted()
      requires Stands(size, clear, next, oldcode, needClear, width, st)
      requires code < Pow2(width) && code != clear && code != clear + 1
      modifies this`curX, this`curY, this`step, this`parse, this`at, this`pixels, this`dict, out, history,
        prefix, first, suffix
      ensures Cursor() && Painted()
      ensures match Interpret(size, st, code)
        case Reject(e) => reply == Refused(e) && pixels == old(pixels)
        case Finish => false
        case Emit(w, t) =>
          && reply == Accepted && t == after && codesize == after.width > 0 && pixels == old(pixels) + w
          && Stands(size, clear, avail, code, false, codesize, after)
    {
      hide Gif.Cursor, Gif.Painted, Gif.Geometry, Pow2, Tied, Sound, Interpret, WidthAfter;
      avail, codesize, after := next, width, st;
      TiedFacts(size, dict, oldcode, st);
      Refusals(size, st, code);
      if code > avail {
        return Refused(IllegalCode), avail, codesize, after;
      }
      if needClear {
        return Refused(NoClearCode), avail, codesize, after;
      }
      ghost var was := dict;
      if oldcode >= 0 {
        avail := avail + 1;
        if avail > MAX_CODES {
          return Refused(TooManyCodes), avail, codesize, after;
        }
        EnterCode(next, oldcode, code, clear);
      } else if code == avail {
        return Refused(IllegalCode), avail, codesize, after;
      }
      assert Entry(clear, code);
      OutGifCode(code, clear);
      TiedAfter(size, was, dict, oldcode, st, code);
      after := Interpret(size, st, code).after;
      GrowthRule(size, st, avail);
      LowIsMod(avail, codesize);
      AndMask(avail, codesize);
      if And(avail, Pow2(codesize) - 1) == 0 && avail <= 0xFFF {
        codesize := codesize + 1;
      }
      reply := Accepted;
    }

    /** stbi__process_gif_raster: the image data of the frame. */
    method ProcessGifRaster(s: Context) returns (r: Outcome)
      requires Shape() && Geometry() && Cursor() && Painted() && pixels == []
      modifies s`pos, this`curX, this`curY, this`step, this`parse, this`at, this`pixels, this`dict, out, history,
        prefix, first, suffix
      ensures Painted()
      ensures r != BadDescriptor && (r == CodeSizeTooLarge <==> ByteAt(s.data, old(s.pos)) > 12)
      ensures r != CodeSizeTooLarge ==>
        var d := FrameData(s.data, old(s.pos));
        && r == (if d.verdict == Complete then Loaded else Failed(d.verdict.error))
        && pixels == d.pixels
        && (r == Loaded ==> SameRest(s.data, s.pos, BlocksEnd(s.data, AfterByte(s.data, old(s.pos)))))
    {
      hide Gif.Cursor, Gif.Painted, Gif.Geometry, Gif.Stands, Pow2, SubBlocks, BlocksEnd, Lsb, ByteAt, Unread,
        Decode, Interpret, SameRest, Or, Shl, Shr, And, Low;
      var size := s.Get8();
      if size > 12 {
        return CodeSizeTooLarge;
      }
      ghost var start := s.pos;
      ghost var bytes, end := SubBlocks(s.data, start), BlocksEnd(s.data, start);
      var clear := Pow2(size);
      SizePow(size);
      var needClear, codesize, bits, validBits: nat := true, size + 1, 0, 0;
      var codemask := Pow2(codesize) - 1;
      InitCodes(clear, size);
      var avail, oldcode: int := clear + 2, -1;
      var len := 0;
      ghost var st, fed := Start(size, false), 0;
      ghost var whole := Decode(size, bytes, 0, st);
      Beginning(s.data, start, size, whole);
      StandsAtStart(size, clear);
      while true
        invariant Cursor() && Painted() && Stands(size, clear, avail, oldcode, needClear, codesize, st)
        invariant codesize == st.width > 0 && codemask == Pow2(codesize) - 1
        invariant validBits <= 8 * fed && fed <= |bytes| && bits == Lsb(bytes, 8 * fed - validBits, validBits)
        invariant Unread(s.data, s.pos, len) == bytes[fed..]
        invariant SameRest(s.data, BlocksEnd(s.data, s.pos + len), end)
        invariant Continues(whole, pixels, Decode(size, bytes, 8 * fed - validBits, st))
        decreases 9 * (|bytes| - fed) + validBits
      {
        if validBits < codesize {
          var b, left, ended := NextByte(s, len, bytes, fed, end);
          len := left;
          if ended {
            DecodeEnds(size, bytes, 8 * fed - validBits, st);
            return Loaded;
          }
          AppendByte(bytes, fed, validBits);
          bits := Or(bits, Shl(b, validBits));
          validBits := validBits + 8;
          fed := fed + 1;
        } else {
          ghost var p := 8 * fed - validBits;
          AndMask(bits, codesize);
          LsbLow(bytes, p, validBits, codesize);
          LsbShr(bytes, p, validBits, codesize);
          DecodeStep(size, bytes, p, st, whole, pixels);
          ControlCodes(size, st);
          var code := And(bits, codemask);
          bits := Shr(bits, codesize);
          validBits := validBits - codesize;
          if code == clear {
            ClearCodes(size, clear, avail, oldcode, needClear, codesize, st);
            codesize := size + 1;
            codemask := Pow2(codesize) - 1;
            avail := clear + 2;
            oldcode := -1;
            needClear := false;
            st := Start(size, true);
          } else if code == clear + 1 {
            SkipBlocks(s, len, end);
            return Loaded;
          } else {
            var reply, next, width;
            ghost var after;
            reply, next, width, after := DataCode(clear, code, avail, oldcode, needClear, codesize, size, st);
            if reply != Accepted {
              return Failed(reply.error);
            }
            avail, codesize, st := next, width, after;
            codemask := Pow2(codesize) - 1;
            oldcode := code;
            needClear := false;
          }
        }
      }
    }

    lemma StandsAtStart(size: nat, clear: nat)
      requires Shape() && size <= 12 && clear == Pow2(size) && Dictionary(clear) && dict == Roots(size)
      ensures Stands(size, clear, clear + 2, -1, true, size + 1, Start(size, false))
    {
      StartSound(size, false);
    }
  }

  /** An image descriptor and its frame data: the frame must lie within the screen, and is decoded in
      interlaced order if bit 6 of the flags is set. */
  method LoadFrame(s: Context, w: nat, h: nat, screen: array<Byte>, drawn: array<Byte>, palette: array<Byte>,
                   x: nat, y: nat, frameW: nat, frameH: nat, lflags: nat)
    returns (r: Outcome, g: Gif?)
    requires drawn.Length == w * h && screen.Length == 4 * drawn.Length && palette.Length == 1024
    requires screen != drawn && screen != palette && drawn != palette
    modifies s`pos, screen, drawn
    ensures g == null <==> r == BadDescriptor
    ensures r == BadDescriptor <==> x + frameW > w || y + frameH > h
    ensures r == CodeSizeTooLarge <==> g != null && ByteAt(s.data, old(s.pos)) > 12
    ensures g != null ==>
      && g.Shape() && g.out == screen && g.history == drawn && g.colorTable == palette
      && g.baseOut == old(screen[..]) && g.baseHistory == old(drawn[..])
      && g.frame == Frame(w, h, x, y, frameW, frameH, lflags / 0x40 % 2 == 1) && g.Painted()
    ensures g != null && r != CodeSizeTooLarge ==>
      var d := FrameData(s.data, old(s.pos));
      r == (if d.verdict == Complete then Loaded else Failed(d.verdict.error)) && g.pixels == d.pixels
    ensures g != null && 1 <= ByteAt(s.data, old(s.pos)) < 12 ==>
      var f := StandardFrame(s.data, old(s.pos));
      && (r == Failed(NoClearCode) <==> DataComesFirst(s.data, old(s.pos)))
      && (r == Failed(TooManyCodes) <==>
            && !DataComesFirst(s.data, old(s.pos))
            && LongestStretch(s.data, old(s.pos)) > Patience(ByteAt(s.data, old(s.pos))))
      && g.pixels <= f.pixels
      && (r != Failed(NoClearCode) && r != Failed(TooManyCodes) ==>
            g.pixels == f.pixels && r == if f.verdict == Complete then Loaded else Failed(f.verdict.error))
  {
    hide Gif.Cursor, Gif.Painted, Gif.Geometry, FrameData, StandardFrame, DataComesFirst, LongestStretch, Patience;
    ghost var p := s.pos;
    if x + frameW > w || y + frameH > h {
      return BadDescriptor, null;
    }
    g := new Gif(w, h, screen, drawn, palette, Frame(w, h, x, y, frameW, frameH, lflags / 0x40 % 2 == 1));
    r := g.ProcessGifRaster(s);
    if 1 <= ByteAt(s.data, p) < 12 {
      FrameFollowsAppendixF(s.data, p);
    }
  }
}
