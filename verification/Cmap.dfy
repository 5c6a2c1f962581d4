/** Character to glyph lookup of stb_truetype: the power-of-two segment search of cmap format 4 and the
    binary search of formats 12 and 13. */
module Cmap {
  import opened Bits
  import opened BitStream

  // Big-endian fields of the font file; past its end, zeros.

  function U16(data: seq<Byte>, p: nat): (r: nat)
    ensures r < 0x1_0000
  {
    256 * ByteAt(data, p) + ByteAt(data, p + 1)
  }

  function U32(data: seq<Byte>, p: nat): (r: nat)
    ensures r < 0x1_0000_0000
  {
    0x1_0000 * U16(data, p) + U16(data, p + 2)
  }

  // ----- format 4 -----

  function SegCount(data: seq<Byte>, map4: nat): nat { U16(data, map4 + 6) / 2 }

  function EndCode(data: seq<Byte>, map4: nat, i: int): nat
    requires i >= -1
  {
    U16(data, map4 + 14 + 2 * i)
  }

  /** The end codes of all segments. */
  function EndCodes(data: seq<Byte>, map4: nat): (e: seq<nat>)
    ensures |e| == SegCount(data, map4)
  {
    seq(SegCount(data, map4), i requires 0 <= i => EndCode(data, map4, i))
  }

  /** The header fields are those of the format for the number of segments: the largest power of two not above
      it, its exponent, and the rest. */
  predicate Header4(data: seq<Byte>, map4: nat) {
    var n, e := SegCount(data, map4), U16(data, map4 + 10);
    && n > 0 && e < 16
    && U16(data, map4 + 8) / 2 == Pow2(e) <= n < 2 * Pow2(e)
    && U16(data, map4 + 12) / 2 == n - Pow2(e)
  }

  predicate Sorted(e: seq<nat>) {
    forall i, j :: 0 <= i < j < |e| ==> e[i] <= e[j]
  }

  /** A linear scan: the first segment at or after `i` whose end code is not below the character. */
  function FirstFrom(e: seq<nat>, i: nat, c: int): (r: nat)
    requires i <= |e|
    ensures i <= r <= |e| && (r < |e| ==> e[r] >= c) && forall k :: i <= k < r ==> e[k] < c
    decreases |e| - i
  {
    if i == |e| || e[i] >= c then i else FirstFrom(e, i + 1, c)
  }

  lemma FirstFromIs(e: seq<nat>, i: nat, c: int, r: nat)
    requires i <= r < |e| && e[r] >= c && forall k :: i <= k < r ==> e[k] < c
    ensures FirstFrom(e, i, c) == r
  {
    assert e[r] >= c;
  }

  /** Where the search of the source starts scanning. */
  function ScanStart(e: seq<nat>, rangeShift: nat, c: int): nat {
    if rangeShift < |e| && c >= e[rangeShift] then rangeShift else 0
  }

  lemma Halving(k: nat)
    ensures Pow2(0) == 1 && (k > 0 ==> Pow2(k) / 2 == Pow2(k - 1) && Pow2(k) == 2 * Pow2(k - 1))
  {}

  /** What the search keeps: the scan is decided within the next `range` segments after `search`. */
  predicate Narrowed(e: seq<nat>, from: nat, c: int, search: int, range: nat) {
    && from - 1 <= search && search + range < |e| && range > 0
    && e[search + range] >= c
    && (from <= search ==> e[search] < c)
  }

  lemma SearchStart(e: seq<nat>, rangeShift: nat, c: int, range: nat)
    requires Sorted(e) && range <= |e| < 2 * range && rangeShift == |e| - range && c <= e[|e| - 1]
    ensures var from := ScanStart(e, rangeShift, c);
      Narrowed(e, from, c, (if c >= e[rangeShift] then rangeShift else 0) - 1, range)
  {}

  lemma SearchEnd(e: seq<nat>, from: nat, c: int, search: int)
    requires Sorted(e) && Narrowed(e, from, c, search, 1)
    ensures FirstFrom(e, from, c) == search + 1 < |e|
  {
    FirstFromIs(e, from, c, search + 1);
  }

  lemma EndCodeAt(data: seq<Byte>, map4: nat, i: nat)
    requires i < SegCount(data, map4)
    ensures EndCodes(data, map4)[i] == EndCode(data, map4, i)
  {}

  /** The table is sorted under a sound header, and the character is not above the last end code. */
  predicate Sound(data: seq<Byte>, map4: nat, c: int) {
    Header4(data, map4) && Sorted(EndCodes(data, map4)) && c <= EndCodes(data, map4)[SegCount(data, map4) - 1]
  }

  /** The search of the source. On a sorted table with a sound header it is the linear scan from the start it has
      chosen. */
  method FindSegment(data: seq<Byte>, map4: nat, c: int) returns (item: nat)
    ensures item < 0x1_0000
    ensures Sound(data, map4, c) ==>
      var e := EndCodes(data, map4);
      item == FirstFrom(e, ScanStart(e, U16(data, map4 + 12) / 2, c), c) < |e|
  {
    hide BitStream.ByteAt, U16, Pow2, EndCode, Sorted, Narrowed, ScanStart, FirstFrom;
    var searchRange: nat := U16(data, map4 + 8) / 2;
    var entrySelector := U16(data, map4 + 10);
    var rangeShift := U16(data, map4 + 12) / 2;
    ghost var e := EndCodes(data, map4);
    ghost var sound := Sound(data, map4, c);
    ghost var from := ScanStart(e, rangeShift, c);
    // In segments, one before the first candidate.
    var search: int := 0;
    if c >= EndCode(data, map4, rangeShift) {
      search := search + rangeShift;
    }
    search := search - 1;
    if sound {
      EndCodeAt(data, map4, rangeShift);
      SearchStart(e, rangeShift, c, searchRange);
    }
    while entrySelector > 0
      invariant -1 <= search
      invariant sound ==> searchRange == Pow2(entrySelector) && Narrowed(e, from, c, search, searchRange)
      decreases entrySelector
    {
      Halving(entrySelector);
      ghost var whole, was := searchRange, search;
      searchRange := searchRange / 2;
      var end := EndCode(data, map4, search + searchRange);
      if c > end {
        search := search + searchRange;
      }
      if sound {
        NarrowedBounds(e, from, c, was, whole);
        EndCodeAt(data, map4, was + searchRange);
        Narrow(e, from, c, was, searchRange);
      }
      entrySelector := entrySelector - 1;
    }
    Halving(0);
    if sound {
      SearchEnd(e, from, c, search);
    }
    search := search + 1;
    item := search % 0x1_0000;
  }

  lemma NarrowedBounds(e: seq<nat>, from: nat, c: int, search: int, range: nat)
    requires Narrowed(e, from, c, search, range)
    ensures from - 1 <= search && search + range < |e|
  {}

  lemma Narrow(e: seq<nat>, from: nat, c: int, search: int, half: nat)
    requires Narrowed(e, from, c, search, 2 * half) && half > 0
    ensures Narrowed(e, from, c, if c > e[search + half] then search + half else search, half)
  {}

  /** Exactly when the source finds the segment of a plain linear scan: always, unless the character is a
      repeated end code that straddles the place where the search starts. */
  lemma {:induction false} SearchIsScan(e: seq<nat>, rangeShift: nat, c: int)
    requires Sorted(e) && rangeShift < |e| && c <= e[|e| - 1]
    ensures FirstFrom(e, ScanStart(e, rangeShift, c), c) == FirstFrom(e, 0, c)
      <==> !(rangeShift > 0 && c == e[rangeShift] == e[rangeShift - 1])
  {
    if c >= e[rangeShift] {
      var r := FirstFrom(e, rangeShift, c);
      if rangeShift == 0 || e[rangeShift - 1] < c {
        FirstFromIs(e, 0, c, r);
      }
    }
  }

  /** With strictly increasing end codes, as the format demands, the two always agree. */
  lemma {:induction false} StrictSearchIsScan(e: seq<nat>, rangeShift: nat, c: int)
    requires (forall i, j :: 0 <= i < j < |e| ==> e[i] < e[j]) && rangeShift < |e| && c <= e[|e| - 1]
    ensures FirstFrom(e, ScanStart(e, rangeShift, c), c) == FirstFrom(e, 0, c)
  {
    SearchIsScan(e, rangeShift, c);
  }

  /** A table with a repeated end code, on which the source finds the second of the two segments. */
  lemma RepeatedEndCode()
    ensures var e := [5, 5, 0xFFFF]; Sorted(e) && FirstFrom(e, ScanStart(e, 1, 5), 5) == 1 && FirstFrom(e, 0, 5) == 0
  {
    FirstFromIs([5, 5, 0xFFFF], 1, 5, 1);
    FirstFromIs([5, 5, 0xFFFF], 0, 5, 0);
  }

  // ----- glyphs of format 4 -----

  /** The glyph of a character in segment `i`, from the four parallel arrays of the table. */
  function SegmentGlyph(data: seq<Byte>, map4: nat, i: nat, c: nat): nat {
    var n := SegCount(data, map4);
    var start := U16(data, map4 + 14 + n * 2 + 2 + 2 * i);
    var delta := U16(data, map4 + 14 + n * 4 + 2 + 2 * i);
    var at := map4 + 14 + n * 6 + 2 + 2 * i;
    var offset := U16(data, at);
    if c < start || c > EndCode(data, map4, i) then 0
    else if offset == 0 then (c + delta) % 0x1_0000
    else U16(data, offset + (c - start) * 2 + at)
  }

  /** stbtt_FindGlyphIndex, format 4. */
  method FindGlyphFormat4(data: seq<Byte>, map4: nat, c: int) returns (glyph: nat)
    ensures c > 0xFFFF ==> glyph == 0
    ensures c <= 0xFFFF && Sound(data, map4, c) ==>
      var e := EndCodes(data, map4);
      glyph == if c < 0 then 0
        else SegmentGlyph(data, map4, FirstFrom(e, ScanStart(e, U16(data, map4 + 12) / 2, c), c), c)
  {
    hide U16, Sound, FirstFrom, ScanStart, EndCodes;
    if c > 0xFFFF {
      return 0;
    }
    var n := SegCount(data, map4);
    var item := FindSegment(data, map4, c);
    var start := U16(data, map4 + 14 + n * 2 + 2 + 2 * item);
    var last := EndCode(data, map4, item);
    if c < start || c > last {
      return 0;
    }
    var at := map4 + 14 + n * 6 + 2 + 2 * item;
    var offset := U16(data, at);
    if offset == 0 {
      return (c + U16(data, map4 + 14 + n * 4 + 2 + 2 * item)) % 0x1_0000;
    }
    return U16(data, offset + (c - start) * 2 + at);
  }

  /** What OpenType (cmap format 4) assigns: the delta of the segment is also added to a glyph found through an
      offset, unless that glyph is 0. */
  function OpenTypeGlyph(data: seq<Byte>, map4: nat, i: nat, c: nat): nat {
    var n := SegCount(data, map4);
    var start := U16(data, map4 + 14 + n * 2 + 2 + 2 * i);
    var delta := U16(data, map4 + 14 + n * 4 + 2 + 2 * i);
    var at := map4 + 14 + n * 6 + 2 + 2 * i;
    var offset := U16(data, at);
    if c < start || c > EndCode(data, map4, i) then 0
    else if offset == 0 then (c + delta) % 0x1_0000
    else
      var g := U16(data, offset + (c - start) * 2 + at);
      if g == 0 then 0 else (g + delta) % 0x1_0000
  }

  /** The source leaves that delta out, so it agrees with the format exactly if there is no glyph to add it to, or
      nothing to add. */
  lemma {:induction false} DeltaLeftOut(data: seq<Byte>, map4: nat, i: nat, c: nat)
    ensures var n := SegCount(data, map4);
      var start := U16(data, map4 + 14 + n * 2 + 2 + 2 * i);
      var at := map4 + 14 + n * 6 + 2 + 2 * i;
      SegmentGlyph(data, map4, i, c) == OpenTypeGlyph(data, map4, i, c) <==>
      || c < start || c > EndCode(data, map4, i) || U16(data, at) == 0
      || U16(data, U16(data, at) + (c - start) * 2 + at) == 0
      || U16(data, map4 + 14 + n * 4 + 2 + 2 * i) == 0
  {
    hide U16;
  }

  // ----- tables on which the source and the format differ -----

  type Word = n: nat | n < 0x1_0000

  function FromWords(w: seq<Word>): seq<Byte> {
    seq(2 * |w|, i requires 0 <= i < 2 * |w| => if i % 2 == 0 then w[i / 2] / 256 else w[i / 2] % 256)
  }

  lemma WordAt(w: seq<Word>, k: nat)
    requires k < |w|
    ensures U16(FromWords(w), 2 * k) == w[k]
  {
    var d := FromWords(w);
    assert d[2 * k] == w[k] / 256 && d[2 * k + 1] == w[k] % 256;
  }

  /** Segments 0-5 with delta 10, 5-5 with delta 20, and the last one. */
  function RepeatedTable(): seq<Byte> {
    FromWords([4, 40, 0, 6, 4, 1, 2, 5, 5, 0xFFFF, 0, 0, 5, 0xFFFF, 10, 20, 1, 0, 0, 0])
  }

  lemma RepeatedFields()
    ensures var t := RepeatedTable();
      && SegCount(t, 0) == 3 && U16(t, 8) == 4 && U16(t, 10) == 1 && U16(t, 12) == 2
      && EndCode(t, 0, 0) == 5 && EndCode(t, 0, 1) == 5 && EndCode(t, 0, 2) == 0xFFFF
      && U16(t, 22) == 0 && U16(t, 24) == 5 && U16(t, 28) == 10 && U16(t, 30) == 20 && U16(t, 34) == 0
      && U16(t, 36) == 0
  {
    hide U16, FromWords;
    var w: seq<Word> := [4, 40, 0, 6, 4, 1, 2, 5, 5, 0xFFFF, 0, 0, 5, 0xFFFF, 10, 20, 1, 0, 0, 0];
    WordAt(w, 3);
    WordAt(w, 4);
    WordAt(w, 5);
    WordAt(w, 6);
    WordAt(w, 7);
    WordAt(w, 8);
    WordAt(w, 9);
    WordAt(w, 11);
    WordAt(w, 12);
    WordAt(w, 14);
    WordAt(w, 15);
    WordAt(w, 17);
    WordAt(w, 18);
  }

  /** The end code 5 is there twice: a scan finds segment 0 with glyph 15, the source segment 1 with glyph 25. */
  lemma RepeatedTableGlyphs()
    ensures var t := RepeatedTable();
      var e := EndCodes(t, 0);
      && Sound(t, 0, 5) && e == [5, 5, 0xFFFF] && U16(t, 12) / 2 == 1
      && FirstFrom(e, 0, 5) == 0 && FirstFrom(e, ScanStart(e, 1, 5), 5) == 1
    ensures SegmentGlyph(RepeatedTable(), 0, 0, 5) == 15 && SegmentGlyph(RepeatedTable(), 0, 1, 5) == 25
  {
    hide U16, SegCount, EndCode, RepeatedTable, FirstFrom, ScanStart;
    var t := RepeatedTable();
    RepeatedFields();
    assert EndCodes(t, 0) == [5, 5, 0xFFFF];
    RepeatedEndCode();
    Halving(1);
  }

  method RepeatedEndCodeGlyph() returns (glyph: nat)
    ensures glyph == 25
  {
    hide U16, SegmentGlyph, Sound, FirstFrom, ScanStart, RepeatedTable, EndCodes;
    RepeatedTableGlyphs();
    glyph := FindGlyphFormat4(RepeatedTable(), 0, 5);
  }

  /** One segment from 5 on, with delta 3 and an offset to the glyph 7 of character 5. */
  function OffsetTable(): seq<Byte> {
    FromWords([4, 26, 0, 2, 2, 0, 0, 0xFFFF, 0, 5, 3, 2, 7])
  }

  lemma OffsetFields()
    ensures var t := OffsetTable();
      && SegCount(t, 0) == 1 && U16(t, 8) == 2 && U16(t, 10) == 0 && U16(t, 12) == 0 && EndCode(t, 0, 0) == 0xFFFF
      && U16(t, 18) == 5 && U16(t, 20) == 3 && U16(t, 22) == 2 && U16(t, 24) == 7
  {
    hide U16, FromWords;
    var w: seq<Word> := [4, 26, 0, 2, 2, 0, 0, 0xFFFF, 0, 5, 3, 2, 7];
    WordAt(w, 3);
    WordAt(w, 4);
    WordAt(w, 5);
    WordAt(w, 6);
    WordAt(w, 7);
    WordAt(w, 9);
    WordAt(w, 10);
    WordAt(w, 11);
    WordAt(w, 12);
  }

  /** The format assigns glyph 10, the source finds glyph 7. */
  lemma OffsetTableGlyphs()
    ensures var t := OffsetTable();
      && Sound(t, 0, 5) && EndCodes(t, 0) == [0xFFFF] && U16(t, 12) / 2 == 0
      && OpenTypeGlyph(t, 0, 0, 5) == 10 && SegmentGlyph(t, 0, 0, 5) == 7
  {
    hide U16, SegCount, EndCode, OffsetTable;
    var t := OffsetTable();
    OffsetFields();
    assert EndCodes(t, 0) == [0xFFFF];
    Halving(0);
  }

  method DeltaLeftOutGlyph() returns (glyph: nat)
    ensures glyph == 7
  {
    hide U16, SegmentGlyph, Sound, FirstFrom, OffsetTable, EndCodes;
    OffsetTableGlyphs();
    FirstFromIs([0xFFFF], 0, 5, 0);
    glyph := FindGlyphFormat4(OffsetTable(), 0, 5);
  }

  // ----- formats 12 and 13 -----

  datatype Group = Group(first: nat, last: nat, glyph: nat)

  function GroupAt(data: seq<Byte>, map12: nat, i: nat): Group {
    var p := map12 + 16 + i * 12;
    Group(U32(data, p), U32(data, p + 4), U32(data, p + 8))
  }

  function Groups(data: seq<Byte>, map12: nat): (g: seq<Group>)
    ensures |g| == U32(data, map12 + 12)
  {
    seq(U32(data, map12 + 12), i requires 0 <= i => GroupAt(data, map12, i))
  }

  /** The groups are in order and do not overlap. */
  predicate Disjoint(g: seq<Group>) {
    && (forall i :: 0 <= i < |g| ==> g[i].first <= g[i].last)
    && forall i, j :: 0 <= i < j < |g| ==> g[i].last < g[j].first
  }

  predicate Contains(g: Group, u: nat) {
    g.first <= u <= g.last
  }

  /** The first group that contains the character, if any. */
  function Scan(g: seq<Group>, u: nat): (r: nat)
    ensures r <= |g| && (r < |g| ==> Contains(g[r], u)) && forall k :: 0 <= k < r ==> !Contains(g[k], u)
  {
    ScanFrom(g, u, 0)
  }

  function ScanFrom(g: seq<Group>, u: nat, i: nat): (r: nat)
    requires i <= |g|
    ensures i <= r <= |g| && (r < |g| ==> Contains(g[r], u)) && forall k :: i <= k < r ==> !Contains(g[k], u)
    decreases |g| - i
  {
    if i == |g| || Contains(g[i], u) then i else ScanFrom(g, u, i + 1)
  }

  /** 32-bit conversions. */
  function Unsigned(x: int): nat { x % 0x1_0000_0000 }
  function Signed(x: nat): int { if x < 0x8000_0000 then x else x - 0x1_0000_0000 }

  /** The glyph number that a group gives a character, as a 32-bit integer. */
  function GroupGlyph(format: nat, g: Group, u: nat): int {
    if format == 12 then Signed(Unsigned(g.glyph + u - g.first)) else Signed(Unsigned(g.glyph))
  }

  /** Format 12 counts up from the glyph of the first character of the group, format 13 gives all of them the same. */
  lemma {:induction false} GroupsCount(g: Group, u: nat)
    requires g.glyph < 0x1_0000_0000 && Contains(g, u)
    ensures Unsigned(GroupGlyph(13, g, u)) == Unsigned(GroupGlyph(12, g, g.first)) == g.glyph
    ensures Unsigned(GroupGlyph(12, g, u + 1)) == (Unsigned(GroupGlyph(12, g, u)) + 1) % 0x1_0000_0000
    ensures g.glyph + (g.last - g.first) < 0x8000_0000 ==> GroupGlyph(12, g, u) == g.glyph + (u - g.first)
  {
    var n := g.glyph + u - g.first;
    Wrapped(n);
    Wrapped(n + 1);
    Wrapped(g.glyph);
    NextUnsigned(n);
  }

  /** Conversion to a signed integer and back. */
  lemma Wrapped(x: int)
    requires x >= 0
    ensures Unsigned(Signed(Unsigned(x))) == Unsigned(x) && (x < 0x1_0000_0000 ==> Unsigned(x) == x)
  {}

  lemma NextUnsigned(x: int)
    requires x >= 0
    ensures Unsigned(x + 1) == (Unsigned(x) + 1) % 0x1_0000_0000
  {}

  /** One group: characters 0x10041 to 0x10043, from glyph 10 on. */
  function GroupTable(): seq<Byte> {
    FromWords([12, 0, 0, 28, 0, 0, 0, 1, 1, 0x41, 1, 0x43, 0, 10])
  }

  lemma GroupTableIs()
    ensures Groups(GroupTable(), 0) == [Group(0x1_0041, 0x1_0043, 10)]
  {
    hide U16, FromWords;
    var w: seq<Word> := [12, 0, 0, 28, 0, 0, 0, 1, 1, 0x41, 1, 0x43, 0, 10];
    WordAt(w, 6);
    WordAt(w, 7);
    WordAt(w, 8);
    WordAt(w, 9);
    WordAt(w, 10);
    WordAt(w, 11);
    WordAt(w, 12);
    WordAt(w, 13);
    assert GroupAt(GroupTable(), 0, 0) == Group(0x1_0041, 0x1_0043, 10);
  }

  method GroupTableGlyphs() returns (counted: int, same: int, none: int)
    ensures counted == 12 && same == 10 && none == 0
  {
    hide U32, U16, GroupTable, Groups;
    GroupTableIs();
    var t := GroupTable();
    counted := FindGlyphGroups(t, 0, 12, 0x1_0043);
    same := FindGlyphGroups(t, 0, 13, 0x1_0043);
    none := FindGlyphGroups(t, 0, 12, 0x1_0044);
  }

  /** stbtt_FindGlyphIndex, formats 12 and 13: for groups in order, the binary search finds what a scan of all groups
      finds. */
  method FindGlyphGroups(data: seq<Byte>, map12: nat, format: nat, c: int) returns (glyph: int)
    requires format == 12 || format == 13
    ensures var g, u := Groups(data, map12), Unsigned(c);
      Disjoint(g) && |g| < 0x8000_0000 ==>
        var i := Scan(g, u);
        glyph == if i == |g| then 0 else GroupGlyph(format, g[i], u)
    ensures U32(data, map12 + 12) >= 0x8000_0000 ==> glyph == 0
  {
    hide U32, U16, BitStream.ByteAt, ScanFrom;
    ghost var g := Groups(data, map12);
    var u := Unsigned(c);
    var low: int, high: int := 0, Signed(U32(data, map12 + 12));
    while low < high
      invariant 0 <= low <= |g| && high <= |g|
      invariant |g| >= 0x8000_0000 ==> high < 0
      invariant Disjoint(g) && |g| < 0x8000_0000 ==>
        && low <= high && (forall k :: 0 <= k < low ==> !Contains(g[k], u))
        && (forall k :: high <= k < |g| ==> !Contains(g[k], u))
      decreases high - low
    {
      var mid := low + (high - low) / 2;
      var group := GroupAt(data, map12, mid);
      assert group == g[mid];
      if u < group.first {
        high := mid;
      } else if u > group.last {
        low := mid + 1;
      } else {
        FoundGroup(g, u, mid);
        return GroupGlyph(format, group, u);
      }
    }
    return 0;
  }

  lemma FoundGroup(g: seq<Group>, u: nat, i: nat)
    requires i < |g| && Contains(g[i], u)
    ensures Disjoint(g) ==> Scan(g, u) == i
  {
    hide ScanFrom;
    if Disjoint(g) {
      assert Contains(g[i], u);
    }
  }
}
