/**
 * Column alignment of a batch of rows, as PicoWriter.flushRows performs it:
 * every column is padded on the right to the widest entry of that column
 * over the whole batch, the last column included.
 */
module Columns {

  datatype Option<T> = None | Some(value: T)

  /** One entry of a row; `None` is a null entry of the Java array. */
  type Column = Option<string>
  type Row = seq<Column>

  /** Length of an entry; a null entry counts as 0. */
  function Width(c: Column): nat {
    if c.Some? then |c.value| else 0
  }

  /** Text of an entry; a null entry renders as "". */
  function Text(c: Column): string {
    if c.Some? then c.value else ""
  }

  function Spaces(n: nat): string {
    seq(n, _ => ' ')
  }

  function Max(a: nat, b: nat): nat {
    if a < b then b else a
  }

  /** The number of columns of the longest row of the batch. */
  function MaxColumns(rows: seq<Row>): (r: nat)
    ensures forall k :: 0 <= k < |rows| ==> |rows[k]| <= r
    ensures rows != [] ==> exists k :: 0 <= k < |rows| && |rows[k]| == r
  {
    if rows == [] then 0 else Max(MaxColumns(rows[..|rows| - 1]), |rows[|rows| - 1]|)
  }

  /** The widest entry in column `i` over the rows that have a column `i`, or 0. */
  function ColumnMax(rows: seq<Row>, i: int): (r: nat)
    ensures forall k :: 0 <= k < |rows| && 0 <= i < |rows[k]| ==> Width(rows[k][i]) <= r
  {
    if rows == [] then 0
    else
      var last := rows[|rows| - 1];
      Max(ColumnMax(rows[..|rows| - 1], i), if 0 <= i < |last| then Width(last[i]) else 0)
  }

  /** The list `maxWidth` that the first loop of flushRows builds. */
  function MaxWidths(rows: seq<Row>): seq<nat> {
    seq(MaxColumns(rows), i => ColumnMax(rows, i))
  }

  /** One entry padded on the right with spaces up to `width`. */
  function Cell(c: Column, width: nat): (r: string)
    ensures |r| == Max(width, Width(c))
    ensures r[..Width(c)] == Text(c)
    ensures forall j :: Width(c) <= j < |r| ==> r[j] == ' '
  {
    Text(c) + (if Width(c) < width then Spaces(width - Width(c)) else "")
  }

  /** A row with every entry padded to the width of its column. */
  function PadRow(row: Row, widths: seq<nat>): string
    requires |row| <= |widths|
  {
    if row == [] then "" else PadRow(row[..|row| - 1], widths) + Cell(row[|row| - 1], widths[|row| - 1])
  }

  /** The text of the lines that flushRows commits, one per row, in batch order. */
  function AlignedRows(rows: seq<Row>): seq<string> {
    var widths := MaxWidths(rows);
    seq(|rows|, k requires 0 <= k < |rows| => PadRow(rows[k], widths))
  }

  function Sum(ws: seq<nat>): nat {
    if ws == [] then 0 else Sum(ws[..|ws| - 1]) + ws[|ws| - 1]
  }

  /** Beyond the longest row, no column has a width. */
  lemma {:induction false} ColumnMaxBeyond(rows: seq<Row>, i: int)
    requires i >= MaxColumns(rows)
    ensures ColumnMax(rows, i) == 0
  {
    if rows != [] {
      ColumnMaxBeyond(rows[..|rows| - 1], i);
    }
  }

  /** The width of column `i` is the width of some row's entry in column `i`. */
  lemma {:induction false} ColumnMaxIsAttained(rows: seq<Row>, i: int)
    requires 0 <= i < MaxColumns(rows)
    ensures exists k :: 0 <= k < |rows| && i < |rows[k]| && Width(rows[k][i]) == ColumnMax(rows, i)
  {
    var init, last := rows[..|rows| - 1], rows[|rows| - 1];
    assert forall k :: 0 <= k < |init| ==> init[k] == rows[k];
    if i < |last| && ColumnMax(init, i) <= Width(last[i]) {
      assert Width(rows[|rows| - 1][i]) == ColumnMax(rows, i);
    } else {
      if i >= MaxColumns(init) {
        ColumnMaxBeyond(init, i);
      }
      ColumnMaxIsAttained(init, i);
      var k :| 0 <= k < |init| && i < |init[k]| && Width(init[k][i]) == ColumnMax(init, i);
      assert rows[k] == init[k];
    }
  }

  /**
   * maxWidth[i] is the maximum length of column i over the rows that have it:
   * an upper bound of every entry of the column, and reached by one of them.
   */
  lemma MaxWidthsIsColumnMaximum(rows: seq<Row>)
    ensures |MaxWidths(rows)| == MaxColumns(rows)
    ensures forall k, i :: 0 <= k < |rows| && 0 <= i < |rows[k]| ==> Width(rows[k][i]) <= MaxWidths(rows)[i]
    ensures forall i :: 0 <= i < |MaxWidths(rows)| ==>
      exists k :: 0 <= k < |rows| && i < |rows[k]| && Width(rows[k][i]) == MaxWidths(rows)[i]
  {
    forall i | 0 <= i < |MaxWidths(rows)|
      ensures exists k :: 0 <= k < |rows| && i < |rows[k]| && Width(rows[k][i]) == MaxWidths(rows)[i]
    {
      ColumnMaxIsAttained(rows, i);
    }
  }

  /** A padded row is as long as the widths of its columns together. */
  lemma {:induction false} PadRowLength(row: Row, widths: seq<nat>)
    requires Fits(row, widths)
    ensures |PadRow(row, widths)| == Sum(widths[..|row|])
  {
    if row != [] {
      var n := |row|;
      FitsInit(row, widths);
      PadRowLength(row[..n - 1], widths);
      assert widths[..n][..n - 1] == widths[..n - 1];
    }
  }

  /** Column `i` of a padded row is its entry padded to the width of the column. */
  lemma {:induction false} PadRowColumn(row: Row, widths: seq<nat>, i: int)
    requires Fits(row, widths)
    requires 0 <= i < |row|
    ensures Sum(widths[..i]) + widths[i] <= |PadRow(row, widths)|
    ensures PadRow(row, widths)[Sum(widths[..i])..Sum(widths[..i]) + widths[i]] == Cell(row[i], widths[i])
    decreases |row|, 1
  {
    var n := |row|;
    PadRowSnoc(row, widths);
    if i == n - 1 {
      LastColumn(PadRow(row[..i], widths), Cell(row[i], widths[i]), Sum(widths[..i]), widths[i]);
    } else {
      EarlierColumnOfRow(row, widths, i);
      EarlierColumn(PadRow(row[..n - 1], widths), Cell(row[n - 1], widths[n - 1]), Sum(widths[..i]), widths[i]);
    }
  }

  /** Column `i` is already in place in the padded row without its last entry. */
  lemma {:induction false} EarlierColumnOfRow(row: Row, widths: seq<nat>, i: int)
    requires Fits(row, widths) && 0 <= i < |row| - 1
    ensures Sum(widths[..i]) + widths[i] <= |PadRow(row[..|row| - 1], widths)|
    ensures PadRow(row[..|row| - 1], widths)[Sum(widths[..i])..Sum(widths[..i]) + widths[i]] == Cell(row[i], widths[i])
    decreases |row|, 0
  {
    var init := row[..|row| - 1];
    FitsInit(row, widths);
    assert init[i] == row[i];
    PadRowColumn(init, widths, i);
  }

  /** The last column of `prefix + cell` is `cell`. */
  lemma LastColumn(prefix: string, cell: string, lo: nat, width: nat)
    requires lo == |prefix| && width == |cell|
    ensures lo + width <= |prefix + cell| && (prefix + cell)[lo..lo + width] == cell
  {
  }

  /** A column inside `prefix` is the same in `prefix + cell`. */
  lemma EarlierColumn(prefix: string, cell: string, lo: nat, width: nat)
    requires lo + width <= |prefix|
    ensures lo + width <= |prefix + cell| && (prefix + cell)[lo..lo + width] == prefix[lo..lo + width]
  {
  }

  /** A padded row is the padded row without its last entry, then that entry padded. */
  lemma PadRowSnoc(row: Row, widths: seq<nat>)
    requires Fits(row, widths) && row != []
    ensures Fits(row[..|row| - 1], widths)
    ensures PadRow(row, widths) == PadRow(row[..|row| - 1], widths) + Cell(row[|row| - 1], widths[|row| - 1])
    ensures |PadRow(row[..|row| - 1], widths)| == Sum(widths[..|row| - 1])
    ensures |Cell(row[|row| - 1], widths[|row| - 1])| == widths[|row| - 1]
  {
    FitsInit(row, widths);
    PadRowLength(row[..|row| - 1], widths);
  }

  /** Every entry of the row fits the width of its column. */
  predicate Fits(row: Row, widths: seq<nat>) {
    |row| <= |widths| && forall j :: 0 <= j < |row| ==> Width(row[j]) <= widths[j]
  }

  lemma FitsInit(row: Row, widths: seq<nat>)
    requires Fits(row, widths) && row != []
    ensures Fits(row[..|row| - 1], widths)
  {
  }

  lemma {:induction false} PrefixOfSum(ws: seq<nat>, i: nat, n: nat)
    requires i < n <= |ws|
    ensures Sum(ws[..i]) + ws[i] <= Sum(ws[..n])
  {
    assert ws[..n][..n - 1] == ws[..n - 1];
    if i < n - 1 {
      PrefixOfSum(ws, i, n - 1);
    } else {
      assert ws[..n - 1] == ws[..i];
    }
  }

  /**
   * After alignment each row is one line, in batch order; column i of every
   * row occupies exactly maxWidth[i] characters starting at the sum of the
   * widths before it, holding the entry followed by spaces.
   */
  lemma AlignedRowsLayout(rows: seq<Row>, k: int, i: int)
    requires 0 <= k < |rows| && 0 <= i < |rows[k]|
    ensures |AlignedRows(rows)| == |rows|
    ensures |AlignedRows(rows)[k]| == Sum(MaxWidths(rows)[..|rows[k]|])
    ensures Width(rows[k][i]) <= MaxWidths(rows)[i]
    ensures var w := MaxWidths(rows); var lo := Sum(w[..i]);
      lo + w[i] <= |AlignedRows(rows)[k]| && AlignedRows(rows)[k][lo..lo + w[i]] == Cell(rows[k][i], w[i])
  {
    var w := MaxWidths(rows);
    FitsWidths(rows, k);
    assert AlignedRows(rows)[k] == PadRow(rows[k], w);
    PadRowLength(rows[k], w);
    PadRowColumn(rows[k], w, i);
  }

  /** Rows ["a","bb"] and ["ccc","d"]. */
  lemma AlignedRowsExample()
    ensures AlignedRows([[Some("a"), Some("bb")], [Some("ccc"), Some("d")]]) == ["a  bb", "cccd "]
  {
    var rows: seq<Row> := [[Some("a"), Some("bb")], [Some("ccc"), Some("d")]];
    assert rows[..1][..0] == [];
    assert MaxColumns(rows) == 2;
    assert ColumnMax(rows, 0) == 3 && ColumnMax(rows, 1) == 2;
    assert MaxWidths(rows) == [3, 2];
    assert PadRow(rows[0], [3, 2]) == "a  bb";
    assert PadRow(rows[1], [3, 2]) == "cccd ";
  }

  /** A null entry is rendered as "" but still padded to its column's width. */
  lemma NullColumnExample()
    ensures AlignedRows([[None, Some("x")], [Some("ab"), Some("y")]]) == ["  x", "aby"]
  {
    var rows: seq<Row> := [[None, Some("x")], [Some("ab"), Some("y")]];
    assert rows[..1][..0] == [];
    assert MaxColumns(rows) == 2;
    assert ColumnMax(rows, 0) == 2 && ColumnMax(rows, 1) == 1;
    assert MaxWidths(rows) == [2, 1];
    assert PadRow(rows[0], [2, 1]) == "  x";
    assert PadRow(rows[1], [2, 1]) == "aby";
  }

  /** The first loop of flushRows: the per-column maximum widths, growing the list when a row is longer than any before it. */
  method MeasureColumns(rows: seq<Row>) returns (maxWidth: seq<nat>)
    ensures maxWidth == MaxWidths(rows)
  {
    maxWidth := [];
    for r := 0 to |rows|
      invariant maxWidth == MaxWidths(rows[..r])
    {
      var columns := rows[r];
      for i := 0 to |columns|
        invariant |maxWidth| == Max(MaxColumns(rows[..r]), i)
        invariant forall k :: 0 <= k < |maxWidth| ==>
          maxWidth[k] == Max(ColumnMax(rows[..r], k), if k < i then Width(columns[k]) else 0)
      {
        var currentLength := Width(columns[i]);
        if |maxWidth| < i + 1 {
          ColumnMaxBeyond(rows[..r], i);
          maxWidth := maxWidth + [currentLength];
        } else if maxWidth[i] < currentLength {
          maxWidth := maxWidth[i := currentLength];
        }
      }
      assert rows[..r + 1][..r] == rows[..r];
    }
    assert rows[..|rows|] == rows;
  }

  /** The body of the second loop of flushRows: one row, each entry right-padded to its column's width. */
  method PadColumns(columns: Row, widths: seq<nat>) returns (rowText: string)
    requires |columns| <= |widths|
    ensures rowText == PadRow(columns, widths)
  {
    rowText := "";
    for i := 0 to |columns|
      invariant rowText == PadRow(columns[..i], widths)
    {
      var cell := PadCell(columns[i], widths[i]);
      rowText := rowText + cell;
      assert columns[..i + 1][..i] == columns[..i];
    }
    assert columns[..|columns|] == columns;
  }

  /** One entry of the second loop of flushRows: its text, then a space per missing character. */
  method PadCell(c: Column, columnWidth: nat) returns (cell: string)
    ensures cell == Cell(c, columnWidth)
  {
    var currentItemWidth := Width(c);
    cell := Text(c);
    if currentItemWidth < columnWidth {
      for j := currentItemWidth to columnWidth
        invariant cell == Text(c) + Spaces(j - currentItemWidth)
      {
        cell := cell + " ";
      }
    }
  }

  /** The text of the lines flushRows commits: the widths first, then every row padded to them. */
  method AlignRows(rows: seq<Row>) returns (lines: seq<string>)
    ensures lines == AlignedRows(rows)
  {
    var widths := MeasureColumns(rows);
    lines := [];
    for r := 0 to |rows|
      invariant |lines| == r
      invariant forall k :: 0 <= k < r ==> lines[k] == AlignedRows(rows)[k]
    {
      AlignedRowsAt(rows, widths, r);
      var rowText := PadColumns(rows[r], widths);
      lines := lines + [rowText];
    }
    assert |AlignedRows(rows)| == |rows|;
  }

  /** Every row of the batch fits the widths measured over the batch. */
  lemma FitsWidths(rows: seq<Row>, k: int)
    requires 0 <= k < |rows|
    ensures Fits(rows[k], MaxWidths(rows))
  {
  }

  /** Line k of an aligned batch is row k padded to the batch's widths. */
  lemma AlignedRowsAt(rows: seq<Row>, widths: seq<nat>, k: int)
    requires widths == MaxWidths(rows) && 0 <= k < |rows|
    ensures |rows[k]| <= |widths| && |AlignedRows(rows)| == |rows|
    ensures AlignedRows(rows)[k] == PadRow(rows[k], widths)
  {
  }
}
