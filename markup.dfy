/**
 * Markup assembled from the renders of a sequence of elements, for any
 * element renderer `f`: plain concatenation (the body of a row), and the
 * flat table fold driven by row-break and column-break markers together
 * with the nested row/cell layout it is equal to. Stating these for an
 * arbitrary `f` keeps the proofs independent of how elements render.
 */
module Markup {
  import opened Segments

  /** The parts joined with no separator, as `collect::<String>()` does. */
  function Concat(parts: seq<string>): string {
    if parts == [] then "" else parts[0] + Concat(parts[1..])
  }

  /** `f` of each element, in order, with no separator. */
  function ConcatMap<T>(f: T -> string, xs: seq<T>): string {
    if xs == [] then "" else f(xs[0]) + ConcatMap(f, xs[1..])
  }

  /** `f` of each element, in order, as `iter().map(f)` yields them. */
  function Map<T>(f: T -> string, xs: seq<T>): (parts: seq<string>)
    ensures |parts| == |xs|
    ensures forall i :: 0 <= i < |xs| ==> parts[i] == f(xs[i])
  {
    if xs == [] then [] else [f(xs[0])] + Map(f, xs[1..])
  }

  /** Mapping first and collecting afterwards gives the same string. */
  lemma {:induction false} ConcatMapIsConcat<T>(f: T -> string, xs: seq<T>)
    ensures ConcatMap(f, xs) == Concat(Map(f, xs))
  {
    if xs != [] {
      ConcatMapIsConcat(f, xs[1..]);
      assert Map(f, xs)[1..] == Map(f, xs[1..]);
    }
  }

  lemma {:induction false} ConcatMapAppend<T>(f: T -> string, xs: seq<T>, ys: seq<T>)
    ensures ConcatMap(f, xs + ys) == ConcatMap(f, xs) + ConcatMap(f, ys)
  {
    if xs == [] {
      assert xs + ys == ys;
    } else {
      assert (xs + ys)[1..] == xs[1..] + ys;
      ConcatMapAppend(f, xs[1..], ys);
    }
  }

  /** Each element's render sits unchanged between its predecessors' and its successors'. */
  lemma ConcatMapAt<T>(f: T -> string, xs: seq<T>, i: nat)
    requires i < |xs|
    ensures ConcatMap(f, xs) == ConcatMap(f, xs[..i]) + f(xs[i]) + ConcatMap(f, xs[i + 1..])
  {
    var tail := xs[i..];
    assert xs[..i] + tail == xs;
    ConcatMapAppend(f, xs[..i], tail);
    assert tail[0] == xs[i] && tail[1..] == xs[i + 1..];
    assert ConcatMap(f, tail) == f(xs[i]) + ConcatMap(f, xs[i + 1..]);
    Associate(ConcatMap(f, xs[..i]), f(xs[i]), ConcatMap(f, xs[i + 1..]));
  }

  // The regroupings of concatenations the proofs about markup need, stated
  // once over arbitrary sequences so that no proof has to rediscover them.

  lemma Associate<T>(a: seq<T>, b: seq<T>, c: seq<T>)
    ensures a + (b + c) == a + b + c
  {
  }

  /** What is written first is a prefix of the whole. */
  lemma PrefixOf<T>(a: seq<T>, b: seq<T>)
    ensures (a + b)[..|a|] == a
  {
  }

  lemma Reframe<T>(outer: seq<T>, open: seq<T>, body: seq<T>, close: seq<T>, outerClose: seq<T>)
    ensures outer + open + body + (close + outerClose) == outer + (open + body + close) + outerClose
  {
  }

  lemma Regroup<T>(open: seq<T>, body: seq<T>, closing: seq<T>, opening: seq<T>, close: seq<T>)
    ensures open + (body + (closing + opening)) + close == open + body + closing + (opening + close)
  {
  }

  lemma Nest<T>(open: seq<T>, name: seq<T>, quote: seq<T>, body: seq<T>, paren: seq<T>, close: seq<T>)
    ensures open + (name + (quote + body + quote) + paren) + close
         == open + name + quote + body + (quote + paren + close)
  {
  }

  lemma Enclose<T>(outer: seq<T>, open: seq<T>, body: seq<T>, close: seq<T>, outerClose: seq<T>)
    ensures outer + (open + body + close) + outerClose == (outer + open) + body + (close + outerClose)
  {
  }

  /** The tags that open and close a table row and a table cell. */
  const OpenRow: string := "<mtr>"
  const CloseRow: string := "</mtr>"
  const OpenCell: string := "<mtd>"
  const CloseCell: string := "</mtd>"

  /**
   * What one element adds to an open table: a row break closes the cell and
   * the row and opens new ones, a column break closes the cell and opens a
   * new one, any other element is rendered into the open cell.
   */
  function TableStep<T(==)>(f: T -> string, rowBreak: T, colBreak: T, x: T): string {
    if x == rowBreak then CloseCell + CloseRow + OpenRow + OpenCell
    else if x == colBreak then CloseCell + OpenCell
    else f(x)
  }

  /** The steps of all elements, in order. */
  function TableFold<T(==)>(f: T -> string, rowBreak: T, colBreak: T, xs: seq<T>): string {
    if xs == [] then ""
    else TableStep(f, rowBreak, colBreak, xs[0]) + TableFold(f, rowBreak, colBreak, xs[1..])
  }

  /** One `<mtd>` element per cell, holding the renders of the cell's elements. */
  function Cells<T>(f: T -> string, cells: seq<seq<T>>): string {
    if cells == [] then "" else OpenCell + ConcatMap(f, cells[0]) + CloseCell + Cells(f, cells[1..])
  }

  /** One `<mtr>` element per row, holding the row's runs between column breaks as cells. */
  function Rows<T(==)>(f: T -> string, colBreak: T, rows: seq<seq<T>>): string {
    if rows == [] then ""
    else OpenRow + Cells(f, Split(rows[0], colBreak)) + CloseRow + Rows(f, colBreak, rows[1..])
  }

  lemma CancelPrefix(p: string, a: string, b: string)
    requires p + a == p + b
    ensures a == b
  {
    assert a == (p + a)[|p|..];
    assert b == (p + b)[|p|..];
  }

  /** A table whose elements are `xs`: the fold between the first opening and the last closing. */
  function FlatTable<T(==)>(f: T -> string, rowBreak: T, colBreak: T, xs: seq<T>): string {
    OpenRow + OpenCell + TableFold(f, rowBreak, colBreak, xs) + CloseCell + CloseRow
  }

  /**
   * The flat fold is the nested layout: rows are the runs between row
   * breaks, cells the runs of a row between column breaks.
   */
  lemma {:induction false} FoldIsLayout<T>(f: T -> string, rowBreak: T, colBreak: T, xs: seq<T>)
    ensures FlatTable(f, rowBreak, colBreak, xs) == Rows(f, colBreak, Split(xs, rowBreak))
  {
    if xs == [] {
      assert Split(xs, rowBreak) == [[]];
      assert Split([], colBreak) == [[]];
      assert Cells(f, [[]]) == OpenCell + CloseCell;
      assert Rows(f, colBreak, [[]]) == OpenRow + (OpenCell + CloseCell) + CloseRow;
      assert OpenRow + OpenCell + "" + CloseCell + CloseRow == OpenRow + (OpenCell + CloseCell) + CloseRow;
    } else {
      FoldIsLayout(f, rowBreak, colBreak, xs[1..]);
      assert [xs[0]] + xs[1..] == xs;
      if xs[0] == rowBreak {
        LayoutRowBreak(f, rowBreak, colBreak, xs[1..]);
      } else {
        LayoutFirstRow(f, rowBreak, colBreak, xs[0], xs[1..]);
      }
    }
  }

  /** A row break in front closes an empty first row. */
  lemma LayoutRowBreak<T>(f: T -> string, rowBreak: T, colBreak: T, t: seq<T>)
    requires FlatTable(f, rowBreak, colBreak, t) == Rows(f, colBreak, Split(t, rowBreak))
    ensures FlatTable(f, rowBreak, colBreak, [rowBreak] + t) == Rows(f, colBreak, Split([rowBreak] + t, rowBreak))
  {
    var rows := Split(t, rowBreak);
    var body := TableFold(f, rowBreak, colBreak, t);
    assert ([rowBreak] + t)[1..] == t;
    assert TableFold(f, rowBreak, colBreak, [rowBreak] + t) == CloseCell + CloseRow + OpenRow + OpenCell + body;
    assert Split([rowBreak] + t, rowBreak) == [[]] + rows;
    assert Split([], colBreak) == [[]];
    assert Cells(f, [[]]) == OpenCell + CloseCell;
    assert ([[]] + rows)[1..] == rows;
    assert Rows(f, colBreak, [[]] + rows) == OpenRow + (OpenCell + CloseCell) + CloseRow + Rows(f, colBreak, rows);
    RowBreakOpensRow(OpenRow, OpenCell, CloseCell, CloseRow, body, Rows(f, colBreak, rows));
  }

  /** The string algebra behind a row break closing an empty first row. */
  lemma RowBreakOpensRow(openRow: string, openCell: string, closeCell: string, closeRow: string,
                         body: string, later: string)
    requires openRow + openCell + body + closeCell + closeRow == later
    ensures openRow + openCell + (closeCell + closeRow + openRow + openCell + body) + closeCell + closeRow
         == openRow + (openCell + closeCell) + closeRow + later
  {
    calc {
      openRow + openCell + (closeCell + closeRow + openRow + openCell + body) + closeCell + closeRow;
      openRow + (openCell + closeCell) + closeRow + (openRow + openCell + body + closeCell + closeRow);
    }
  }

  /** Any other element in front joins the first row. */
  lemma LayoutFirstRow<T>(f: T -> string, rowBreak: T, colBreak: T, x: T, t: seq<T>)
    requires x != rowBreak
    requires FlatTable(f, rowBreak, colBreak, t) == Rows(f, colBreak, Split(t, rowBreak))
    ensures FlatTable(f, rowBreak, colBreak, [x] + t) == Rows(f, colBreak, Split([x] + t, rowBreak))
  {
    var rows := Split(t, rowBreak);
    var body := TableFold(f, rowBreak, colBreak, t);
    var row, rest := rows[0], rows[1..];
    var cells := Split(row, colBreak);
    var first, others, later := ConcatMap(f, cells[0]), Cells(f, cells[1..]), Rows(f, colBreak, rest);
    assert ([x] + t)[1..] == t;
    assert TableFold(f, rowBreak, colBreak, [x] + t) == TableStep(f, rowBreak, colBreak, x) + body;
    assert Split([x] + t, rowBreak) == [[x] + row] + rest;
    assert Rows(f, colBreak, rows) == OpenRow + Cells(f, cells) + CloseRow + later;
    assert Cells(f, cells) == OpenCell + first + CloseCell + others;
    assert ([[x] + row] + rest)[1..] == rest;
    assert Rows(f, colBreak, Split([x] + t, rowBreak))
        == OpenRow + Cells(f, Split([x] + row, colBreak)) + CloseRow + later;
    assert ([x] + row)[1..] == row;
    if x == colBreak {
      assert Split([x] + row, colBreak) == [[]] + cells;
      assert ([[]] + cells)[1..] == cells;
      assert Cells(f, [[]] + cells) == OpenCell + CloseCell + Cells(f, cells);
      ColumnBreakJoinsFirstRow(OpenRow, OpenCell, CloseCell, CloseRow, body, first, others, later);
    } else {
      assert Split([x] + row, colBreak) == [[x] + cells[0]] + cells[1..];
      assert ([x] + cells[0])[1..] == cells[0];
      assert Cells(f, [[x] + cells[0]] + cells[1..]) == OpenCell + (f(x) + first) + CloseCell + others;
      CellJoinsFirstRow(OpenRow, OpenCell, CloseCell, CloseRow, f(x), body, first, others, later);
    }
  }

  /** The string algebra behind a column break joining the first row. */
  lemma ColumnBreakJoinsFirstRow(openRow: string, openCell: string, closeCell: string, closeRow: string,
                                 body: string, first: string, others: string, later: string)
    requires openRow + openCell + body + closeCell + closeRow
          == openRow + (openCell + first + closeCell + others) + closeRow + later
    ensures openRow + openCell + (closeCell + openCell + body) + closeCell + closeRow
         == openRow + (openCell + closeCell + (openCell + first + closeCell + others)) + closeRow + later
  {
    var open := openRow + openCell;
    calc {
      open + (body + closeCell + closeRow);
      openRow + openCell + body + closeCell + closeRow;
      openRow + (openCell + first + closeCell + others) + closeRow + later;
      open + (first + (closeCell + others + closeRow + later));
    }
    CancelPrefix(open, body + closeCell + closeRow, first + (closeCell + others + closeRow + later));
    calc {
      openRow + openCell + (closeCell + openCell + body) + closeCell + closeRow;
      openRow + openCell + closeCell + openCell + (body + closeCell + closeRow);
      openRow + openCell + closeCell + openCell + (first + (closeCell + others + closeRow + later));
      openRow + (openCell + closeCell + (openCell + first + closeCell + others)) + closeRow + later;
    }
  }

  /** The string algebra behind an ordinary element joining the first cell of the first row. */
  lemma CellJoinsFirstRow(openRow: string, openCell: string, closeCell: string, closeRow: string,
                          cell: string, body: string, first: string, others: string, later: string)
    requires openRow + openCell + body + closeCell + closeRow
          == openRow + (openCell + first + closeCell + others) + closeRow + later
    ensures openRow + openCell + (cell + body) + closeCell + closeRow
         == openRow + (openCell + (cell + first) + closeCell + others) + closeRow + later
  {
    var open := openRow + openCell;
    calc {
      open + (body + closeCell + closeRow);
      openRow + openCell + body + closeCell + closeRow;
      openRow + (openCell + first + closeCell + others) + closeRow + later;
      open + (first + (closeCell + others + closeRow + later));
    }
    CancelPrefix(open, body + closeCell + closeRow, first + (closeCell + others + closeRow + later));
    calc {
      openRow + openCell + (cell + body) + closeCell + closeRow;
      openRow + openCell + cell + (body + closeCell + closeRow);
      openRow + openCell + cell + (first + (closeCell + others + closeRow + later));
      openRow + (openCell + (cell + first) + closeCell + others) + closeRow + later;
    }
  }
}
