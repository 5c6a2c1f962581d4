/** The order in which the decoder of a GIF frame visits its rows and pixels (GIF89a, Appendix E). */
module Interlace {
  import opened Arithmetic

  /** A frame of `w` by `h` pixels at (`x`, `y`) of a screen `width` pixels wide. */
  datatype Frame = Frame(width: nat, height: nat, x: nat, y: nat, w: nat, h: nat, interlaced: bool)

  predicate Fits(f: Frame) {
    f.x + f.w <= f.width && f.y + f.h <= f.height
  }

  /** The numbers `first`, `first + step`, … below `h`. */
  function Progression(first: nat, step: nat, h: nat): seq<nat>
    requires step > 0
    decreases h - first
  {
    if first >= h then [] else [first] + Progression(first + step, step, h)
  }

  /** Appendix E: every 8th row from row 0, every 8th from row 4, every 4th from row 2, every 2nd from row 1. */
  function RowOrder(f: Frame): seq<nat> {
    if f.interlaced then
      Progression(0, 8, f.h) + Progression(4, 8, f.h) + Progression(2, 4, f.h) + Progression(1, 2, f.h)
    else
      Progression(0, 1, f.h)
  }

  predicate Distinct<T(==)>(s: seq<T>) {
    forall i, j :: 0 <= i < j < |s| ==> s[i] != s[j]
  }

  lemma {:induction false} ProgressionMembers(first: nat, step: nat, h: nat, r: nat)
    requires step > 0
    ensures r in Progression(first, step, h) <==> first <= r < h && (r - first) % step == 0
    decreases h - first
  {
    if first < h {
      ProgressionMembers(first + step, step, h, r);
      if first <= r < first + step {
        SmallRemainder(r - first, step);
      } else if r >= first + step {
        StepBack(r - first, step);
      }
    }
  }

  lemma SmallRemainder(a: nat, m: nat)
    requires a < m
    ensures a % m == a
  {}

  lemma StepBack(a: nat, m: nat)
    requires 0 < m <= a
    ensures (a - m) % m == a % m
  {
    var q, r := a / m, a % m;
    assert a == m * q + r;
    Distribute(q, 1, m);
    DivModUnique(a - m, m, q - 1, r);
  }

  lemma {:induction false} ProgressionDistinct(first: nat, step: nat, h: nat)
    requires step > 0
    ensures Distinct(Progression(first, step, h))
    decreases h - first
  {
    if first < h {
      ProgressionDistinct(first + step, step, h);
      ProgressionMembers(first + step, step, h, first);
    }
  }

  lemma DistinctConcat<T>(s: seq<T>, t: seq<T>)
    requires Distinct(s) && Distinct(t) && forall x :: x in s ==> x !in t
    ensures Distinct(s + t)
  {
    forall i, j | 0 <= i < j < |s + t| ensures (s + t)[i] != (s + t)[j] {
      if i < |s| <= j {
        assert s[i] in s && t[j - |s|] in t;
      }
    }
  }

  /** The row belongs to the pass that starts at `first` and advances by `step`. */
  predicate InPass(first: nat, step: nat, h: nat, r: nat)
    requires step > 0
  {
    r < h && r % step == first
  }

  lemma {:induction false} PassMembers(first: nat, step: nat, h: nat, r: nat)
    requires (first == 0 && step == 1) || (first in {0, 4} && step == 8) || (first == 2 && step == 4) ||
        (first == 1 && step == 2)
    ensures r in Progression(first, step, h) <==> InPass(first, step, h, r)
  {
    ProgressionMembers(first, step, h, r);
  }

  /** Every row of the frame is visited exactly once. */
  lemma {:induction false} RowsOnce(f: Frame)
    ensures Distinct(RowOrder(f))
    ensures forall r: nat :: r in RowOrder(f) <==> r < f.h
  {
    hide Progression, Distinct, InPass;
    if f.interlaced {
      var a, b, c, d := Progression(0, 8, f.h), Progression(4, 8, f.h), Progression(2, 4, f.h), Progression(1, 2, f.h);
      ProgressionDistinct(0, 8, f.h);
      ProgressionDistinct(4, 8, f.h);
      ProgressionDistinct(2, 4, f.h);
      ProgressionDistinct(1, 2, f.h);
      forall r: nat
        ensures r in a ==> r !in b
        ensures r in a + b ==> r !in c
        ensures r in a + b + c ==> r !in d
        ensures r in RowOrder(f) <==> r < f.h
      {
        PassOf(f.h, r);
      }
      DistinctConcat(a, b);
      DistinctConcat(a + b, c);
      DistinctConcat(a + b + c, d);
    } else {
      ProgressionDistinct(0, 1, f.h);
      forall r: nat ensures r in RowOrder(f) <==> r < f.h {
        PassMembers(0, 1, f.h, r);
        InSimplePass(f.h, r);
      }
    }
  }

  lemma InSimplePass(h: nat, r: nat)
    ensures InPass(0, 1, h, r) <==> r < h
  {}

  /** A row below `h` belongs to exactly one pass, other rows to none. */
  lemma {:induction false} PassOf(h: nat, r: nat)
    ensures r in Progression(0, 8, h) <==> r < h && r % 8 == 0
    ensures r in Progression(4, 8, h) <==> r < h && r % 8 == 4
    ensures r in Progression(2, 4, h) <==> r < h && r % 8 in {2, 6}
    ensures r in Progression(1, 2, h) <==> r < h && r % 8 in {1, 3, 5, 7}
    ensures 0 <= r % 8 < 8
  {
    hide Progression;
    PassMembers(0, 8, h, r);
    PassMembers(4, 8, h, r);
    PassMembers(2, 4, h, r);
    PassMembers(1, 2, h, r);
    Mod8(r);
  }

  /** The pass of a row: multiples of 8, then the rows half way between them, then those between these, then odd
      rows. */
  function PassNumber(r: nat): nat {
    if r % 8 == 0 then 0 else if r % 8 == 4 then 1 else if r % 4 == 2 then 2 else 3
  }

  /** The rows come pass by pass, and top down within a pass or if there are no passes. */
  lemma {:induction false} PassesInOrder(f: Frame, i: nat, j: nat)
    requires i < j < |RowOrder(f)|
    ensures var r, s := RowOrder(f)[i], RowOrder(f)[j];
      if f.interlaced then PassNumber(r) < PassNumber(s) || (PassNumber(r) == PassNumber(s) && r < s) else r < s
  {
    hide Progression;
    if f.interlaced {
      var a, b, c, d := Progression(0, 8, f.h), Progression(4, 8, f.h), Progression(2, 4, f.h), Progression(1, 2, f.h);
      forall r: nat
        ensures r in a ==> PassNumber(r) == 0
        ensures r in b ==> PassNumber(r) == 1
        ensures r in c ==> PassNumber(r) == 2
        ensures r in d ==> PassNumber(r) == 3
      {
        PassOf(f.h, r);
        Mod8(r);
      }
      ProgressionOrder(0, 8, f.h);
      ProgressionOrder(4, 8, f.h);
      ProgressionOrder(2, 4, f.h);
      ProgressionOrder(1, 2, f.h);
      OrderConcat(a, b, 0);
      OrderConcat(a + b, c, 1);
      OrderConcat(a + b + c, d, 2);
      assert InOrder(RowOrder(f));
    } else {
      ProgressionOrder(0, 1, f.h);
    }
  }

  predicate Increasing(s: seq<nat>) {
    forall i, j :: 0 <= i < j < |s| ==> s[i] < s[j]
  }

  predicate InOrder(s: seq<nat>) {
    forall i, j :: 0 <= i < j < |s| ==>
      PassNumber(s[i]) < PassNumber(s[j]) || (PassNumber(s[i]) == PassNumber(s[j]) && s[i] < s[j])
  }

  lemma {:induction false} ProgressionOrder(first: nat, step: nat, h: nat)
    requires step > 0
    ensures Increasing(Progression(first, step, h))
    decreases h - first
  {
    if first < h {
      ProgressionOrder(first + step, step, h);
      var rest := Progression(first + step, step, h);
      forall i | 0 <= i < |rest| ensures first < rest[i] { ProgressionMembers(first + step, step, h, rest[i]); }
    }
  }

  lemma {:induction false} OrderConcat(s: seq<nat>, t: seq<nat>, pass: nat)
    requires Increasing(s) || InOrder(s)
    requires Increasing(s) ==> InOrder(s) || pass == 0
    requires forall r :: r in s ==> PassNumber(r) <= pass
    requires Increasing(t) && forall r :: r in t ==> PassNumber(r) == pass + 1
    ensures InOrder(s + t)
  {
    var all := s + t;
    forall i, j | 0 <= i < j < |all|
      ensures PassNumber(all[i]) < PassNumber(all[j]) || (PassNumber(all[i]) == PassNumber(all[j]) && all[i] < all[j])
    {
      if i < |s| {
        assert s[i] in s;
      }
      if j >= |s| {
        assert t[j - |s|] in t;
      }
    }
  }

  // ----- pixels -----

  /** Index of a pixel of the frame in the screen. */
  function Cell(f: Frame, row: nat, col: nat): nat {
    (f.y + row) * f.width + f.x + col
  }

  function RowCells(f: Frame, row: nat, col: nat): seq<nat>
    decreases f.w - col
  {
    if col >= f.w then [] else [Cell(f, row, col)] + RowCells(f, row, col + 1)
  }

  function Cells(f: Frame, rows: seq<nat>): seq<nat> {
    if rows == [] then [] else RowCells(f, rows[0], 0) + Cells(f, rows[1..])
  }

  /** The screen cells in the order in which the pixels of the frame arrive. */
  function Places(f: Frame): seq<nat> {
    Cells(f, RowOrder(f))
  }

  lemma {:induction false} CellLess(f: Frame, row: nat, col: nat)
    requires Fits(f) && row < f.h && col < f.w
    ensures Cell(f, row, col) < f.width * f.height
  {
    assert (f.y + row) * f.width + f.width == (f.y + row + 1) * f.width;
    MulMono(f.width, f.y + row + 1, f.height);
  }

  lemma {:induction false} CellInjective(f: Frame, row: nat, col: nat, row': nat, col': nat)
    requires Fits(f) && col < f.w && col' < f.w
    requires Cell(f, row, col) == Cell(f, row', col')
    ensures row == row' && col == col'
  {
    if row < row' {
      assert (f.y + row) * f.width + f.width == (f.y + row + 1) * f.width;
      MulMono(f.width, f.y + row + 1, f.y + row');
    } else if row' < row {
      assert (f.y + row') * f.width + f.width == (f.y + row' + 1) * f.width;
      MulMono(f.width, f.y + row' + 1, f.y + row);
    }
  }

  lemma {:induction false} RowCellsMembers(f: Frame, row: nat, col: nat, q: nat)
    ensures q in RowCells(f, row, col) <==> exists c: nat :: col <= c < f.w && q == Cell(f, row, c)
    decreases f.w - col
  {
    if col < f.w {
      RowCellsMembers(f, row, col + 1, q);
    }
  }

  lemma {:induction false} RowCellsDistinct(f: Frame, row: nat, col: nat)
    requires Fits(f)
    ensures Distinct(RowCells(f, row, col))
    decreases f.w - col
  {
    if col < f.w {
      RowCellsDistinct(f, row, col + 1);
      RowCellsMembers(f, row, col + 1, Cell(f, row, col));
    }
  }

  lemma {:induction false} CellsMembers(f: Frame, rows: seq<nat>, q: nat)
    ensures q in Cells(f, rows) <==> exists r: nat, c: nat :: r in rows && c < f.w && q == Cell(f, r, c)
  {
    hide Cell;
    if rows != [] {
      RowCellsMembers(f, rows[0], 0, q);
      CellsMembers(f, rows[1..], q);
    }
  }

  lemma {:induction false} CellsDistinct(f: Frame, rows: seq<nat>)
    requires Fits(f) && Distinct(rows)
    ensures Distinct(Cells(f, rows))
  {
    hide Cell, Fits;
    if rows != [] {
      RowCellsDistinct(f, rows[0], 0);
      CellsDistinct(f, rows[1..]);
      forall q: nat | q in RowCells(f, rows[0], 0) ensures q !in Cells(f, rows[1..]) {
        RowCellsMembers(f, rows[0], 0, q);
        CellsMembers(f, rows[1..], q);
        var c: nat :| c < f.w && q == Cell(f, rows[0], c);
        if q in Cells(f, rows[1..]) {
          var r': nat, c': nat :| r' in rows[1..] && c' < f.w && q == Cell(f, r', c');
          CellInjective(f, rows[0], c, r', c');
        }
      }
      DistinctConcat(RowCells(f, rows[0], 0), Cells(f, rows[1..]));
    }
  }

  /** The pixels of the frame are visited exactly once each, and nothing outside the frame is. */
  lemma {:induction false} PlacesOnce(f: Frame)
    requires Fits(f)
    ensures Distinct(Places(f))
    ensures forall q: nat :: q in Places(f) <==>
      exists r: nat, c: nat :: r < f.h && c < f.w && q == Cell(f, r, c)
    ensures forall q: nat :: q in Places(f) ==> q < f.width * f.height
  {
    hide RowOrder, Cell, Cells, Distinct;
    RowsOnce(f);
    CellsDistinct(f, RowOrder(f));
    forall q: nat
      ensures q in Places(f) <==> exists r: nat, c: nat :: r < f.h && c < f.w && q == Cell(f, r, c)
      ensures q in Places(f) ==> q < f.width * f.height
    {
      CellsMembers(f, RowOrder(f), q);
      if q in Places(f) {
        var r: nat, c: nat :| r in RowOrder(f) && c < f.w && q == Cell(f, r, c);
        CellLess(f, r, c);
      }
    }
  }

  // ----- the order as the decoder steps through it -----

  /** The rows from `row` on, when the current pass advances by `step` rows and `parse` passes follow. */
  function RowsFrom(h: nat, row: nat, step: nat, parse: nat): seq<nat>
    requires step > 0 && parse <= 3
    decreases parse, h - row
  {
    if row < h then [row] + RowsFrom(h, row + step, step, parse)
    else if parse > 0 then RowsFrom(h, PassStep(parse) / 2, PassStep(parse), parse - 1)
    else []
  }

  /** `1 << parse`. */
  function PassStep(parse: nat): (s: nat)
    requires parse <= 3
    ensures s > 0
  {
    if parse == 0 then 1 else if parse == 1 then 2 else if parse == 2 then 4 else 8
  }

  lemma {:induction false} PassRows(h: nat, row: nat, step: nat, parse: nat)
    requires step > 0 && parse <= 3
    ensures RowsFrom(h, row, step, parse) == Progression(row, step, h) +
      if parse > 0 then RowsFrom(h, PassStep(parse) / 2, PassStep(parse), parse - 1) else []
    decreases h - row
  {
    if row < h {
      PassRows(h, row + step, step, parse);
    }
  }

  /** Stepping as the decoder does visits the rows in the order of Appendix E. */
  lemma {:induction false} StepsFollowAppendixE(f: Frame)
    ensures RowsFrom(f.h, 0, if f.interlaced then 8 else 1, if f.interlaced then 3 else 0) == RowOrder(f)
  {
    hide RowsFrom, Progression;
    if f.interlaced {
      PassRows(f.h, 0, 8, 3);
      PassRows(f.h, 4, 8, 2);
      PassRows(f.h, 2, 4, 1);
      PassRows(f.h, 1, 2, 0);
      assert PassStep(3) == 8 && PassStep(2) == 4 && PassStep(1) == 2;
    } else {
      PassRows(f.h, 0, 1, 0);
    }
  }

  /** The cells still to come when the decoder stands at (`row`, `col`). */
  function CellsFrom(f: Frame, row: nat, col: nat, step: nat, parse: nat): seq<nat>
    requires step > 0 && parse <= 3
  {
    if row >= f.h then []
    else RowCells(f, row, col) + Cells(f, RowsFrom(f.h, row + step, step, parse))
  }

  /** Finishing a row leads to the first cell of the next row, in this pass or the next ones. */
  lemma {:induction false} NextRow(f: Frame, row: nat, step: nat, parse: nat)
    requires step > 0 && parse <= 3 && (row < f.h || parse == 0)
    ensures Cells(f, RowsFrom(f.h, row, step, parse)) == CellsFrom(f, row, 0, step, parse)
  {
    if row < f.h {
      var rows := RowsFrom(f.h, row, step, parse);
      assert rows[1..] == RowsFrom(f.h, row + step, step, parse);
    }
  }

  /** What follows the pixel at (`row`, `col`). */
  function CellsAfter(f: Frame, row: nat, col: nat, step: nat, parse: nat): seq<nat>
    requires step > 0 && parse <= 3 && row < f.h
  {
    if col + 1 < f.w then CellsFrom(f, row, col + 1, step, parse)
    else Cells(f, RowsFrom(f.h, row + step, step, parse))
  }

  lemma {:induction false} NextCell(f: Frame, row: nat, col: nat, step: nat, parse: nat)
    requires step > 0 && parse <= 3 && row < f.h && col < f.w
    ensures CellsFrom(f, row, col, step, parse) == [Cell(f, row, col)] + CellsAfter(f, row, col, step, parse)
  {
    hide Cell, Cells, RowsFrom;
    if col + 1 == f.w {
      assert RowCells(f, row, col + 1) == [];
    }
  }

  lemma {:induction false} NoCells(f: Frame, rows: seq<nat>)
    requires f.w == 0
    ensures Cells(f, rows) == []
  {
    if rows != [] {
      NoCells(f, rows[1..]);
    }
  }

  /** Where the decoder stands when a frame begins; a frame of width 0 has no places. */
  lemma {:induction false} FirstCells(f: Frame)
    ensures CellsFrom(f, if f.w == 0 then f.h else 0, 0, if f.interlaced then 8 else 1, if f.interlaced then 3 else 0)
      == Places(f)
  {
    var step, parse := if f.interlaced then 8 else 1, if f.interlaced then 3 else 0;
    StepsFollowAppendixE(f);
    if f.w == 0 {
      NoCells(f, RowOrder(f));
    } else if f.h == 0 {
      assert RowOrder(f) == [];
    } else {
      NextRow(f, 0, step, parse);
    }
  }
}
