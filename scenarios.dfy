/**
 * Client programs of PicoWriter, each with the exact text it renders: the
 * writer's main behaviours, stated on concrete calls.
 */
module Scenarios {
  import opened Columns
  import opened Nodes
  import opened Rendering
  import opened PicoWriter

  /** Every item is a line. */
  predicate AllLines(items: seq<Item>) {
    forall k :: 0 <= k < |items| ==> items[k].Line?
  }

  /** Reference rendering of a list of lines: each indented by the base plus its own depth. */
  function LinesText(ic: string, base: int, items: seq<Item>): string
    requires AllLines(items)
  {
    if items == [] then ""
    else LinesText(ic, base, items[..|items| - 1]) + IndentedLine(ic, base + items[|items| - 1].depth, items[|items| - 1].text)
  }

  lemma OneLineText(ic: string, base: int, item: Item)
    requires item.Line?
    ensures LinesText(ic, base, [item]) == IndentedLine(ic, base + item.depth, item.text)
  {
    assert [item][..0] == [];
  }

  /** Items that are all lines render as the reference rendering of lines. */
  lemma {:induction false} ItemsOfLines(m: map<Id, Node>, w: Id, items: seq<Item>, base: int)
    requires WellFormed(m) && w in m && AllLines(items)
    ensures ChildrenAbove(m, w, items)
    ensures ItemsOutput(m, w, items, base) == LinesText(m[w].ic, base, items)
    decreases |items|
  {
    if items != [] {
      var n := |items| - 1;
      ItemsOfLines(m, w, items[..n], base);
      ItemsSnoc(m, w, items, n, base);
      assert items[..n + 1] == items;
      PieceLine(m, w, items[n], base);
    }
  }

  /** A writer whose flushed content is all lines renders as the reference rendering of them. */
  lemma OnlyLines(m: map<Id, Node>, w: Id, base: int)
    requires WellFormed(m) && w in m && Generates(Flushed(m[w])) && AllLines(Flushed(m[w]).content)
    ensures Output(m, w, base) == LinesText(m[w].ic, base, Flushed(m[w]).content)
  {
    SuppressedOutput(m, w, base);
    ItemsOfLines(m, w, Flushed(m[w]).content, base);
    FlushedExtends(m[w]);
  }

  /** The output of a writer whose flushed content is lines, one nested writer, then lines. */
  lemma AroundChild(m: map<Id, Node>, w: Id, pre: seq<Item>, c: Id, post: seq<Item>, base: int)
    requires WellFormed(m) && w in m && Generates(Flushed(m[w])) && AllLines(pre) && AllLines(post)
    requires Flushed(m[w]).content == pre + [Nested(c)] + post
    ensures c in m
    ensures Output(m, w, base) == LinesText(m[w].ic, base, pre) + Output(m, c, 0) + LinesText(m[w].ic, base, post)
  {
    InsertionPoint(m, w, pre, c, post, base);
    ItemsOfLines(m, w, pre, base);
    ItemsOfLines(m, w, post, base);
  }

  /** Rendering `n` after its flush shows exactly `items`, with the default indent text. */
  predicate Shows(n: Node, items: seq<Item>) {
    Flushed(n).content == items && items != [] && n.generate && n.ic == DI
  }

  lemma LinesTextSnoc(ic: string, base: int, items: seq<Item>, item: Item)
    requires AllLines(items) && item.Line?
    ensures AllLines(items + [item])
    ensures LinesText(ic, base, items + [item]) == LinesText(ic, base, items) + IndentedLine(ic, base + item.depth, item.text)
  {
    assert (items + [item])[..|items|] == items;
  }

  /** A writer that shows only lines renders as the reference rendering of them. */
  lemma ShowsLines(m: map<Id, Node>, w: Id, items: seq<Item>, base: int)
    requires WellFormed(m) && w in m && Shows(m[w], items) && AllLines(items)
    ensures Output(m, w, base) == LinesText(DI, base, items)
  {
    FlushedExtends(m[w]);
    OnlyLines(m, w, base);
  }

  /** A writer that shows lines, one nested writer, then lines. */
  lemma ShowsAround(m: map<Id, Node>, w: Id, pre: seq<Item>, c: Id, post: seq<Item>, base: int)
    requires WellFormed(m) && w in m && Shows(m[w], pre + [Nested(c)] + post) && AllLines(pre) && AllLines(post)
    ensures c in m
    ensures Output(m, w, base) == LinesText(DI, base, pre) + Output(m, c, 0) + LinesText(DI, base, post)
  {
    FlushedExtends(m[w]);
    AroundChild(m, w, pre, c, post, base);
  }

  /** A writer that has committed one line and nothing else, as writeln leaves a new writer. */
  lemma WritelnFresh(n: Node, text: string)
    requires n.content == [] && n.rows == [] && n.sb == "" && n.generate && n.ic == DI
    ensures Shows(WritelnOf(n, text), [Line(text, n.indents)])
    ensures WritelnOf(n, text).content == [Line(text, n.indents)]
  {
    WritelnCommits(n, text);
    assert "" + text == text;
  }

  /**
   * A deferred writer renders where it was created, with the lines written
   * to it afterwards: "A", then a deferred writer, then "C" to the parent
   * and "B" to the deferred writer, renders as A, B, C.
   */
  method DeferredInsertion() returns (s: string)
    ensures s == "A\nB\nC\n"
  {
    var a := new Arena();
    var top := a.NewWriter(None);
    a.Writeln(top, "A");
    WritelnCommits(Initial(0, None), "A");
    var d := a.CreateDeferredWriter(top);
    a.Writeln(top, "C");
    a.Writeln(d, "B");
    ghost var m := a.nodes;
    s := a.ToString(top);
    DeferredInsertionText(m, top, d);
  }

  lemma DeferredInsertionText(m: map<Id, Node>, top: Id, d: Id)
    requires WellFormed(m) && top in m && d in m
    requires m[top] == WritelnOf(WithChild(WritelnOf(Initial(0, None), "A"), d), "C")
    requires m[d] == WritelnOf(Initial(0, Some(DI)), "B")
    ensures Output(m, top, 0) == "A\nB\nC\n"
  {
    DeferredInsertionState(m[top], d);
    WritelnFresh(Initial(0, Some(DI)), "B");
    ShowsLines(m, d, [Line("B", 0)], 0);
    ShowsAround(m, top, [Line("A", 0)], d, [Line("C", 0)], 0);
    OneLineText(DI, 0, Line("A", 0));
    OneLineText(DI, 0, Line("B", 0));
    OneLineText(DI, 0, Line("C", 0));
  }

  lemma DeferredInsertionState(n: Node, d: Id)
    requires n == WritelnOf(WithChild(WritelnOf(Initial(0, None), "A"), d), "C")
    ensures Shows(n, [Line("A", 0)] + [Nested(d)] + [Line("C", 0)])
  {
    var t1 := WritelnOf(Initial(0, None), "A");
    WritelnFresh(Initial(0, None), "A");
    WithChildContent(t1, d);
    WritelnCommits(WithChild(t1, d), "C");
    assert "" + "C" == "C";
  }

  /**
   * Rows are aligned per column over the batch and committed at the next
   * flush; render flushes, and flush always commits the pending text as one
   * more line, so the output ends with an empty line.
   */
  method AlignedRowsThenBlank() returns (s: string)
    ensures s == "a  bb\ncccd \n\n"
  {
    var a := new Arena();
    var top := a.NewWriter(None);
    var r1: Row, r2: Row := [Some("a"), Some("bb")], [Some("ccc"), Some("d")];
    a.WriteRow(top, r1);
    a.WriteRow(top, r2);
    ghost var m := a.nodes;
    s := a.ToString(top);
    AlignedRowsState(r1, r2);
    AlignedRowsText(m, top, [Line("a  bb", 0), Line("cccd ", 0), Line("", 0)]);
  }

  /** Two rows written to a new writer. */
  function TwoRows(r1: Row, r2: Row): Node {
    var n := Initial(0, None);
    var n1 := n.(rows := n.rows + [r1], isDirty := true, numLines := n.numLines + 1);
    n1.(rows := n1.rows + [r2], isDirty := true, numLines := n1.numLines + 1)
  }

  lemma AlignedRowsText(m: map<Id, Node>, top: Id, items: seq<Item>)
    requires items == [Line("a  bb", 0), Line("cccd ", 0), Line("", 0)]
    requires WellFormed(m) && top in m && Shows(m[top], items)
    ensures Output(m, top, 0) == "a  bb\ncccd \n\n"
  {
    AlignedRowsLines(items);
    ShowsLines(m, top, items, 0);
  }

  lemma AlignedRowsLines(items: seq<Item>)
    requires items == [Line("a  bb", 0), Line("cccd ", 0), Line("", 0)]
    ensures AllLines(items) && LinesText(DI, 0, items) == "a  bb\ncccd \n\n"
  {
    ThreeLines(DI, 0, items);
    assert IndentedLine(DI, 0, "a  bb") == "a  bb\n";
    assert IndentedLine(DI, 0, "cccd ") == "cccd \n";
    assert IndentedLine(DI, 0, "") == "\n";
  }

  /** Three lines render as their three indented lines, in order. */
  lemma ThreeLines(ic: string, base: int, items: seq<Item>)
    requires |items| == 3 && items[0].Line? && items[1].Line? && items[2].Line?
    ensures AllLines(items)
    ensures LinesText(ic, base, items) ==
      IndentedLine(ic, base + items[0].depth, items[0].text)
      + IndentedLine(ic, base + items[1].depth, items[1].text)
      + IndentedLine(ic, base + items[2].depth, items[2].text)
  {
    OneLineText(ic, base, items[0]);
    assert items[..1] == [items[0]];
    LinesTextSnoc(ic, base, items[..1], items[1]);
    assert items[..1] + [items[1]] == items[..2];
    LinesTextSnoc(ic, base, items[..2], items[2]);
    assert items[..2] + [items[2]] == items;
  }

  lemma AlignedRowsState(r1: Row, r2: Row)
    requires r1 == [Some("a"), Some("bb")] && r2 == [Some("ccc"), Some("d")]
    ensures Shows(TwoRows(r1, r2), [Line("a  bb", 0), Line("cccd ", 0), Line("", 0)])
  {
    var n := TwoRows(r1, r2);
    assert n.rows == [r1, r2];
    RowsOnlyFlush(n);
    AlignedRowsExample();
    LinesAtExample(AlignedRows(n.rows), "a  bb", "cccd ");
  }

  /** A writer holding only pending rows flushes to their lines and an empty line. */
  lemma RowsOnlyFlush(n: Node)
    requires n.content == [] && n.sb == "" && n.isDirty
    ensures Flushed(n).content == RowLines(n.rows, n.indents) + [Line("", n.indents)]
  {
    var lines := RowLines(n.rows, n.indents);
    FlushCommits(n);
    assert n.content + lines == lines;
  }

  lemma LinesAtExample(texts: seq<string>, t1: string, t2: string)
    requires texts == [t1, t2]
    ensures LinesAt(texts, 0) == [Line(t1, 0), Line(t2, 0)]
  {
  }

  /**
   * indentLeft at depth 0 fails, and the depth is -1 afterwards; a line
   * written after the failure has no indentation.
   */
  method IndentLeftAtZero() returns (ok: bool, depth: int, s: string)
    ensures !ok && depth == -1 && s == "x\n"
  {
    var a := new Arena();
    var top := a.NewWriter(None);
    ok := a.IndentLeft(top);
    depth := a.nodes[top].indents;
    a.Writeln(top, "x");
    ghost var m := a.nodes;
    s := a.ToString(top);
    IndentLeftAtZeroText(m, top);
  }

  lemma IndentLeftAtZeroText(m: map<Id, Node>, top: Id)
    requires WellFormed(m) && top in m
    requires m[top] == WritelnOf(Initial(0, None).(indents := -1), "x")
    ensures Output(m, top, 0) == "x\n"
  {
    WritelnFresh(Initial(0, None).(indents := -1), "x");
    ShowsLines(m, top, [Line("x", -1)], 0);
    OneLineText(DI, 0, Line("x", -1));
  }

  /**
   * A deferred writer starts at the depth of its parent, and its own
   * indentRight adds to it: a line written to it after one indentRight on
   * each renders with two indent units.
   */
  method DepthsCompose() returns (s: string)
    ensures s == "      q\n"
  {
    var a := new Arena();
    var top := a.NewWriter(None);
    a.IndentRight(top);
    var d := a.CreateDeferredWriter(top);
    a.IndentRight(d);
    a.Writeln(d, "q");
    ghost var m := a.nodes;
    s := a.ToString(top);
    DepthsComposeText(m, top, d);
  }

  lemma DepthsComposeText(m: map<Id, Node>, top: Id, d: Id)
    requires WellFormed(m) && top in m && d in m
    requires m[top] == WithChild(Initial(0, None).(indents := 1), d)
    requires m[d] == WritelnOf(Initial(1, Some(DI)).(indents := 2), "q")
    ensures Output(m, top, 0) == "      q\n"
  {
    WithChildContent(Initial(0, None).(indents := 1), d);
    assert Shows(m[top], [] + [Nested(d)] + []);
    WritelnFresh(Initial(1, Some(DI)).(indents := 2), "q");
    ShowsLines(m, d, [Line("q", 2)], 0);
    ShowsAround(m, top, [], d, [], 0);
    OneLineText(DI, 0, Line("q", 2));
  }

  /**
   * A nested writer is rendered by its own toString(), at base 0, whatever
   * base the parent is rendered at.
   */
  method NestedIgnoresBase() returns (s: string)
    ensures s == "   p\nq\n"
  {
    var a := new Arena();
    var top := a.NewWriter(None);
    a.Writeln(top, "p");
    WritelnCommits(Initial(0, None), "p");
    var d := a.CreateDeferredWriter(top);
    a.Writeln(d, "q");
    ghost var m := a.nodes;
    s := a.Render(top, 1);
    NestedIgnoresBaseText(m, top, d);
  }

  lemma NestedIgnoresBaseText(m: map<Id, Node>, top: Id, d: Id)
    requires WellFormed(m) && top in m && d in m
    requires m[top] == WithChild(WritelnOf(Initial(0, None), "p"), d)
    requires m[d] == WritelnOf(Initial(0, Some(DI)), "q")
    ensures Output(m, top, 1) == "   p\nq\n"
  {
    NestedIgnoresBaseState(m[top], d);
    WritelnFresh(Initial(0, Some(DI)), "q");
    ShowsLines(m, d, [Line("q", 0)], 0);
    ShowsAround(m, top, [Line("p", 0)], d, [], 1);
    OneLineText(DI, 1, Line("p", 0));
    OneLineText(DI, 0, Line("q", 0));
  }

  lemma NestedIgnoresBaseState(n: Node, d: Id)
    requires n == WithChild(WritelnOf(Initial(0, None), "p"), d)
    ensures Shows(n, [Line("p", 0)] + [Nested(d)] + [])
  {
    WritelnFresh(Initial(0, None), "p");
    WithChildContent(WritelnOf(Initial(0, None), "p"), d);
  }

  /**
   * Rows pending when a deferred writer is created without pending text
   * stay pending, so they are committed after the child, at render time.
   */
  method RowsAfterChild() returns (s: string)
    ensures s == "y\nx\n\n"
  {
    var a := new Arena();
    var top := a.NewWriter(None);
    a.WriteRow(top, [Some("x")]);
    var d := a.CreateDeferredWriter(top);
    a.Writeln(d, "y");
    ghost var m := a.nodes;
    s := a.ToString(top);
    RowsAfterChildText(m, top, d);
  }

  /** One row written to a new writer. */
  function OneRow(): Node {
    var n := Initial(0, None);
    n.(rows := n.rows + [[Some("x")]], isDirty := true, numLines := n.numLines + 1)
  }

  lemma RowsAfterChildText(m: map<Id, Node>, top: Id, d: Id)
    requires WellFormed(m) && top in m && d in m
    requires m[top] == WithChild(OneRow(), d)
    requires m[d] == WritelnOf(Initial(0, Some(DI)), "y")
    ensures Output(m, top, 0) == "y\nx\n\n"
  {
    var post := [Line("x", 0), Line("", 0)];
    RowsAfterChildState(d);
    WritelnFresh(Initial(0, Some(DI)), "y");
    ShowsLines(m, d, [Line("y", 0)], 0);
    ShowsAround(m, top, [], d, post, 0);
    OneLineText(DI, 0, Line("y", 0));
    OneLineText(DI, 0, Line("x", 0));
    LinesTextSnoc(DI, 0, [Line("x", 0)], Line("", 0));
    assert [Line("x", 0)] + [Line("", 0)] == post;
  }

  lemma RowsAfterChildState(d: Id)
    ensures Shows(WithChild(OneRow(), d), [] + [Nested(d)] + [Line("x", 0), Line("", 0)])
  {
    var rows: seq<Row> := [[Some("x")]];
    assert OneRow().rows == rows && OneRow().sb == "";
    WithChildContent(OneRow(), d);
    var p := WithChild(OneRow(), d);
    FlushCommits(p);
    OneColumnExample();
    assert LinesAt(["x"], 0) == [Line("x", 0)];
  }

  /** A single row with a single entry is left as it is. */
  lemma OneColumnExample()
    ensures AlignedRows([[Some("x")]]) == ["x"]
  {
    var rows: seq<Row> := [[Some("x")]];
    assert rows[..0] == [];
    assert MaxColumns(rows) == 1;
    assert ColumnMax(rows, 0) == 1;
    assert MaxWidths(rows) == [1];
    assert PadRow(rows[0], [1]) == "x";
  }

  /** A writer flagged not to be generated when empty renders nothing while it is empty. */
  method EmptySuppressed() returns (s: string)
    ensures s == ""
  {
    var a := new Arena();
    var top := a.NewWriter(None);
    a.SetGenerateIfEmpty(top, false);
    ghost var m := a.nodes;
    s := a.ToString(top);
    SuppressedOutput(m, top, 0);
  }

  /** A writer switched off renders nothing, whatever was written to it. */
  method SwitchedOff() returns (s: string)
    ensures s == ""
  {
    var a := new Arena();
    var top := a.NewWriter(None);
    a.Writeln(top, "x");
    a.SetGenerate(top, false);
    ghost var m := a.nodes;
    s := a.ToString(top);
    SuppressedOutput(m, top, 0);
  }

  /**
   * writeln_r opens a block and writeln_l closes it: the line between is one
   * level deeper, and closing succeeds.
   */
  method Block() returns (ok: bool, s: string)
    ensures ok && s == "{\n   x\n}\n"
  {
    var a := new Arena();
    var top := a.NewWriter(None);
    a.WritelnR(top, "{");
    a.Writeln(top, "x");
    BlockDepth();
    ok := a.WritelnL(top, "}");
    ghost var m := a.nodes;
    s := a.ToString(top);
    BlockText(m, top);
  }

  /** The writer after writeln_r("{") and writeln("x"). */
  function Opened(): Node {
    WritelnOf(WritelnOf(Initial(0, None), "{").(indents := 1), "x")
  }

  lemma BlockDepth()
    ensures Opened().indents == 1
  {
    WritelnCommits(Initial(0, None), "{");
    WritelnCommits(WritelnOf(Initial(0, None), "{").(indents := 1), "x");
  }

  lemma BlockText(m: map<Id, Node>, top: Id)
    requires WellFormed(m) && top in m
    requires m[top] == WritelnOf(ShiftLeftOf(Opened()), "}")
    ensures Output(m, top, 0) == "{\n   x\n}\n"
  {
    var items := [Line("{", 0), Line("x", 1), Line("}", 0)];
    BlockState();
    ShowsLines(m, top, items, 0);
    BlockLines(items);
  }

  lemma BlockLines(items: seq<Item>)
    requires items == [Line("{", 0), Line("x", 1), Line("}", 0)]
    ensures AllLines(items) && LinesText(DI, 0, items) == "{\n   x\n}\n"
  {
    ThreeLines(DI, 0, items);
    assert IndentedLine(DI, 0, "{") == "{\n";
    assert IndentedLine(DI, 1, "x") == "   x\n";
    assert IndentedLine(DI, 0, "}") == "}\n";
  }

  lemma BlockState()
    ensures Shows(WritelnOf(ShiftLeftOf(Opened()), "}"), [Line("{", 0), Line("x", 1), Line("}", 0)])
  {
    var n1 := WritelnOf(Initial(0, None), "{").(indents := 1);
    WritelnFresh(Initial(0, None), "{");
    WritelnCommits(n1, "x");
    assert "" + "x" == "x";
    var n2 := Opened();
    ShiftLeftCommits(n2, "}");
    assert "" + "}" == "}";
    assert RowLines(n2.rows, n2.indents) == [];
    WritelnCommits(ShiftLeftOf(n2), "}");
  }

  /**
   * Rows take the depth of the moment they are committed, not of the moment
   * they were written: a row written at depth 0 and committed by a writeln
   * after indentRight renders at depth 1.
   */
  method RowsTakeFlushDepth() returns (s: string)
    ensures s == "   x\n   y\n"
  {
    var a := new Arena();
    var top := a.NewWriter(None);
    a.WriteRow(top, [Some("x")]);
    assert a.nodes[top] == OneRow();
    a.IndentRight(top);
    assert a.nodes[top] == RowThenRight();
    a.Writeln(top, "y");
    ghost var m := a.nodes;
    s := a.ToString(top);
    RowsTakeFlushDepthState();
    RowsTakeFlushDepthText(m, top, [Line("x", 1), Line("y", 1)]);
  }

  /** One row written to a new writer, then one level deeper. */
  function RowThenRight(): Node {
    OneRow().(indents := OneRow().indents + 1)
  }

  lemma RowsTakeFlushDepthText(m: map<Id, Node>, top: Id, items: seq<Item>)
    requires items == [Line("x", 1), Line("y", 1)]
    requires WellFormed(m) && top in m && Shows(m[top], items)
    ensures Output(m, top, 0) == "   x\n   y\n"
  {
    RowsTakeFlushDepthLines(items);
    ShowsLines(m, top, items, 0);
  }

  lemma RowsTakeFlushDepthLines(items: seq<Item>)
    requires items == [Line("x", 1), Line("y", 1)]
    ensures AllLines(items) && LinesText(DI, 0, items) == "   x\n   y\n"
  {
    OneLineText(DI, 0, items[0]);
    assert items[..1] == [items[0]];
    LinesTextSnoc(DI, 0, items[..1], items[1]);
    assert items[..1] + [items[1]] == items;
    assert IndentedLine(DI, 1, "x") == "   x\n";
    assert IndentedLine(DI, 1, "y") == "   y\n";
  }

  lemma RowsTakeFlushDepthState()
    ensures Shows(WritelnOf(RowThenRight(), "y"), [Line("x", 1), Line("y", 1)])
  {
    var rows: seq<Row> := [[Some("x")]];
    var n := RowThenRight();
    assert n.rows == rows && n.sb == "" && n.content == [] && n.indents == 1;
    WritelnCommits(n, "y");
    assert "" + "y" == "y";
    OneColumnExample();
    assert LinesAt(["x"], 1) == [Line("x", 1)];
  }

  /**
   * indentRight then indentLeft leaves the writer as it was; the indentLeft
   * succeeds unless the writer already stood at a negative depth.
   */
  method IndentRoundTrip(a: Arena, w: Id) returns (ok: bool)
    requires a.Valid() && w in a.nodes
    modifies a
    ensures a.Valid() && a.nodes == old(a.nodes) && a.next == old(a.next)
    ensures ok <==> old(a.nodes[w]).indents >= 0
  {
    ghost var n := a.nodes[w];
    a.IndentRight(w);
    ok := a.IndentLeft(w);
    assert a.nodes[w] == n;
  }

  /**
   * Rendering twice with no mutation in between gives the same text, and
   * the second render changes nothing.
   */
  method RenderTwice(a: Arena, w: Id, indentBase: int) returns (first: string, second: string)
    requires a.Valid() && w in a.nodes
    modifies a
    ensures a.Valid() && first == second
    ensures a.nodes == AfterRender(old(a.nodes), w)
  {
    ghost var m := a.nodes;
    first := a.Render(w, indentBase);
    RenderIdempotent(m, w, indentBase);
    second := a.Render(w, indentBase);
  }
}
