/**
 * The state of one PicoWriter as a value: its fields, the items of its
 * committed content, and the lazy commit of pending rows and pending text.
 */
module Nodes {
  import opened Columns

  /** Line separator appended after every rendered line. */
  const SEP: string := "\n"
  /** Default indent text: three spaces. */
  const DI: string := "   "

  type Id = nat

  /** One committed item: a line at the depth it was committed at, or a nested writer. */
  datatype Item = Line(text: string, depth: int) | Nested(child: Id)

  /**
   * The fields of a PicoWriter. `indents` is an int: indentLeft decrements
   * it before reporting a negative depth, so a caller that recovers from the
   * failure goes on writing at depth -1.
   */
  datatype Node = Node(
    indents: int,
    numLines: nat,
    generateIfEmpty: bool,
    generate: bool,
    isDirty: bool,
    rows: seq<Row>,
    content: seq<Item>,
    sb: string,
    ic: string)

  /** A new writer: a negative initial depth is clamped to 0, a null indent text falls back to DI. */
  function Initial(initialIndent: int, indentText: Option<string>): (n: Node)
    ensures n.indents == if initialIndent < 0 then 0 else initialIndent
    ensures n.ic == (if indentText.Some? then indentText.value else DI)
    ensures n.content == [] && n.rows == [] && n.sb == [] && n.numLines == 0
    ensures n.generate && n.generateIfEmpty && !n.isDirty
  {
    Node(if initialIndent < 0 then 0 else initialIndent, 0, true, true, false, [], [],
         "", if indentText.None? then DI else indentText.value)
  }

  /** Each text as a line at `depth`, in order. */
  function LinesAt(texts: seq<string>, depth: int): seq<Item> {
    seq(|texts|, k requires 0 <= k < |texts| => Line(texts[k], depth))
  }

  /** The lines a row batch becomes: one per row, in order, all at `depth`. */
  function RowLines(rows: seq<Row>, depth: int): seq<Item> {
    LinesAt(AlignedRows(rows), depth)
  }

  /** flushRows: commit the pending rows at the current depth and clear the batch. */
  function FlushRowsOf(n: Node): Node {
    if |n.rows| > 0 then n.(content := n.content + RowLines(n.rows, n.indents), rows := []) else n
  }

  /** flush: commit the pending rows, then the pending text as one more line, even when it is empty. */
  function FlushOf(n: Node): Node {
    var m := FlushRowsOf(n);
    m.(content := m.content + [Line(m.sb, m.indents)], sb := "", isDirty := false)
  }

  /** writeln: one more line counted, `s` appended to the pending text, then a flush. */
  function WritelnOf(n: Node, s: string): Node {
    FlushOf(n.(numLines := n.numLines + 1, sb := n.sb + s))
  }

  /** The first half of writeln_l: the pending rows committed at the current depth, then one level shallower. */
  function ShiftLeftOf(n: Node): Node {
    FlushRowsOf(n).(indents := n.indents - 1)
  }

  /** What render does to a writer before it looks at its content. */
  function Flushed(n: Node): Node {
    if n.isDirty then FlushOf(n) else n
  }

  /**
   * createDeferredWriter's effect on the parent: commit the pending text if
   * there is any, counting one more line, then append the child `c`,
   * counting one more line again.
   */
  function WithChild(o: Node, c: Id): Node {
    var p := if |o.sb| > 0 then FlushOf(o).(numLines := o.numLines + 1) else o;
    p.(content := p.content + [Nested(c)], numLines := p.numLines + 1)
  }

  /** isMethodBodyEmpty. */
  predicate MethodBodyEmpty(n: Node) {
    |n.content| == 0 && |n.sb| == 0
  }

  /** The render guard: neither switched off, nor empty and flagged not to be generated when empty. */
  predicate Generates(n: Node) {
    n.generate && (n.generateIfEmpty || !MethodBodyEmpty(n))
  }

  /**
   * Pending rows or pending text are only ever present in a dirty writer,
   * and a writer that has counted no line has nothing committed or pending.
   */
  predicate Consistent(n: Node) {
    && ((|n.rows| > 0 || |n.sb| > 0) ==> n.isDirty)
    && (n.numLines == 0 ==> n.content == [] && n.rows == [] && n.sb == "" && !n.isDirty)
  }

  /**
   * flush appends exactly the row batch and then one line holding the
   * pending text, both at the current depth, and leaves nothing pending.
   */
  lemma FlushCommits(n: Node)
    ensures FlushOf(n).content == n.content + RowLines(n.rows, n.indents) + [Line(n.sb, n.indents)]
    ensures FlushOf(n).rows == [] && FlushOf(n).sb == "" && !FlushOf(n).isDirty
    ensures FlushOf(n).(content := n.content, rows := n.rows, sb := n.sb, isDirty := n.isDirty) == n
  {
    if |n.rows| == 0 {
      assert RowLines(n.rows, n.indents) == [];
    }
  }

  /** A flush adds only lines, after the items already committed, and keeps every field but the buffers. */
  lemma FlushedExtends(n: Node)
    ensures |n.content| <= |Flushed(n).content| && Flushed(n).content[..|n.content|] == n.content
    ensures forall k :: |n.content| <= k < |Flushed(n).content| ==> Flushed(n).content[k].Line?
    ensures Flushed(n).ic == n.ic && Flushed(n).indents == n.indents
    ensures Flushed(n).generate == n.generate && Flushed(n).generateIfEmpty == n.generateIfEmpty
    ensures Flushed(n).numLines == n.numLines
  {
    if n.isDirty {
      FlushCommits(n);
      assert Flushed(n).content == n.content + (RowLines(n.rows, n.indents) + [Line(n.sb, n.indents)]);
    }
  }

  /** Only the first render flushes: a flushed writer is left as it is. */
  lemma FlushedIdempotent(n: Node)
    ensures Flushed(Flushed(n)) == Flushed(n)
    ensures !Flushed(n).isDirty
  {
  }

  /**
   * After the flush at the start of render, a consistent writer has no
   * pending text, so it counts as empty exactly when it has no content.
   */
  lemma FlushedBodyEmpty(n: Node)
    requires Consistent(n)
    ensures Flushed(n).sb == "" && Flushed(n).rows == []
    ensures MethodBodyEmpty(Flushed(n)) <==> !n.isDirty && n.content == []
  {
  }

  /**
   * With pending text, the parent commits its rows and that text before the
   * child; without, the child goes right after the committed items and the
   * pending rows stay pending, to be committed after it.
   */
  lemma WithChildContent(o: Node, c: Id)
    ensures |o.sb| > 0 ==>
      && WithChild(o, c).content == o.content + RowLines(o.rows, o.indents) + [Line(o.sb, o.indents), Nested(c)]
      && WithChild(o, c).rows == [] && WithChild(o, c).sb == "" && !WithChild(o, c).isDirty
      && WithChild(o, c).numLines == o.numLines + 2
    ensures |o.sb| == 0 ==>
      && WithChild(o, c).content == o.content + [Nested(c)]
      && WithChild(o, c).rows == o.rows && WithChild(o, c).isDirty == o.isDirty
      && WithChild(o, c).numLines == o.numLines + 1
    ensures WithChild(o, c).indents == o.indents && WithChild(o, c).ic == o.ic
    ensures Consistent(o) ==> Consistent(WithChild(o, c))
  {
    if |o.sb| > 0 {
      FlushCommits(o);
    }
  }

  /**
   * writeln commits the pending rows and then exactly one line, holding the
   * text written since the last commit followed by `s`, at the current
   * depth; nothing is left pending and one more line is counted.
   */
  lemma WritelnCommits(n: Node, s: string)
    ensures WritelnOf(n, s).content == n.content + RowLines(n.rows, n.indents) + [Line(n.sb + s, n.indents)]
    ensures WritelnOf(n, s).rows == [] && WritelnOf(n, s).sb == "" && !WritelnOf(n, s).isDirty
    ensures WritelnOf(n, s).numLines == n.numLines + 1 && WritelnOf(n, s).indents == n.indents
    ensures WritelnOf(n, s).ic == n.ic && Consistent(WritelnOf(n, s))
    ensures n.rows == [] ==> WritelnOf(n, s).content == n.content + [Line(n.sb + s, n.indents)]
  {
    FlushCommits(n.(numLines := n.numLines + 1, sb := n.sb + s));
    if n.rows == [] {
      assert RowLines(n.rows, n.indents) == [];
    }
  }

  /**
   * writeln_l commits the pending rows at the depth before the shift and the
   * line at the depth after it; the pending text is carried into that line.
   */
  lemma ShiftLeftCommits(n: Node, s: string)
    ensures ShiftLeftOf(n).content == n.content + RowLines(n.rows, n.indents)
    ensures ShiftLeftOf(n).rows == [] && ShiftLeftOf(n).sb == n.sb && ShiftLeftOf(n).indents == n.indents - 1
    ensures Consistent(n) ==> Consistent(ShiftLeftOf(n))
    ensures WritelnOf(ShiftLeftOf(n), s).content ==
      n.content + RowLines(n.rows, n.indents) + [Line(n.sb + s, n.indents - 1)]
  {
    var f := ShiftLeftOf(n);
    if |n.rows| == 0 {
      assert RowLines(n.rows, n.indents) == [];
    }
    WritelnCommits(f, s);
    assert RowLines(f.rows, f.indents) == [];
  }
}
