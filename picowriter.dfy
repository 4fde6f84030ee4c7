/**
 * The PicoWriter class. The Java objects live in an arena: `nodes` maps the
 * id of every writer created so far to the values of its fields, and a
 * nested writer is kept in its parent's content by id. A caller's handle on
 * a writer, including the handle on a deferred child, is its id; writing to
 * it through the arena is writing to the one object both the caller and
 * the parent see.
 */
module PicoWriter {
  import opened Columns
  import opened Nodes
  import opened Rendering

  /** Nested writers have larger ids than their parents, and every id is below `next`. */
  ghost predicate ArenaSound(nodes: map<Id, Node>, next: Id) {
    WellFormed(nodes) && forall k :: k in nodes ==> k < next
  }

  /** Sound, and nothing is pending in a writer that is not dirty. */
  ghost predicate ArenaValid(nodes: map<Id, Node>, next: Id) {
    ArenaSound(nodes, next) && forall k :: k in nodes ==> Consistent(nodes[k])
  }

  lemma SoundUpdate(nodes: map<Id, Node>, next: Id, w: Id, n: Node)
    requires ArenaSound(nodes, next) && w < next && ChildrenAbove(nodes, w, n.content)
    ensures ArenaSound(nodes[w := n], next)
  {
    UpdateWellFormed(nodes, w, n);
  }

  lemma ValidUpdate(nodes: map<Id, Node>, next: Id, w: Id, n: Node)
    requires ArenaValid(nodes, next) && w < next && ChildrenAbove(nodes, w, n.content) && Consistent(n)
    ensures ArenaValid(nodes[w := n], next)
  {
    UpdateWellFormed(nodes, w, n);
  }

  /** A sound arena that differs from a valid one in one consistent writer is valid. */
  lemma ValidReplace(m0: map<Id, Node>, m1: map<Id, Node>, next: Id, w: Id)
    requires ArenaValid(m0, next) && ArenaSound(m1, next) && w in m0 && w in m1
    requires m1 == m0[w := m1[w]] && Consistent(m1[w])
    ensures ArenaValid(m1, next)
  {
  }

  class Arena {
    /** The writers created so far, by id. */
    var nodes: map<Id, Node>
    /** The id the next writer gets; every id in use is below it. */
    var next: Id

    ghost predicate Sound()
      reads this
    {
      ArenaSound(nodes, next)
    }

    ghost predicate Valid()
      reads this
    {
      ArenaValid(nodes, next)
    }

    constructor ()
      ensures Valid() && nodes == map[] && next == 0
    {
      nodes := map[];
      next := 0;
    }

    /** new PicoWriter() and new PicoWriter(indentText): a root writer at depth 0. */
    method NewWriter(indentText: Option<string>) returns (w: Id)
      requires Valid()
      modifies this
      ensures Valid()
      ensures w == old(next) && w !in old(nodes) && next == old(next) + 1
      ensures nodes == old(nodes)[w := Initial(0, indentText)]
      ensures nodes[w].indents == 0 && nodes[w].content == [] && IsEmpty(w)
      ensures nodes[w].ic == if indentText.Some? then indentText.value else DI
    {
      w := next;
      ValidUpdate(nodes, next + 1, w, Initial(0, indentText));
      nodes := nodes[w := Initial(0, indentText)];
      next := next + 1;
    }

    /** indentRight: one level deeper. */
    method IndentRight(w: Id)
      requires Valid() && w in nodes
      modifies this
      ensures Valid() && next == old(next)
      ensures nodes == old(nodes)[w := old(nodes[w]).(indents := old(nodes[w]).indents + 1)]
    {
      var n := nodes[w];
      ValidUpdate(nodes, next, w, n.(indents := n.indents + 1));
      nodes := nodes[w := n.(indents := n.indents + 1)];
    }

    /**
     * indentLeft: one level shallower, failing when the depth becomes
     * negative. The decrement has already happened when it fails.
     */
    method IndentLeft(w: Id) returns (ok: bool)
      requires Valid() && w in nodes
      modifies this
      ensures Valid() && next == old(next)
      ensures ok <==> old(nodes[w]).indents >= 1
      ensures nodes == old(nodes)[w := old(nodes[w]).(indents := old(nodes[w]).indents - 1)]
    {
      var n := nodes[w];
      ValidUpdate(nodes, next, w, n.(indents := n.indents - 1));
      nodes := nodes[w := n.(indents := n.indents - 1)];
      ok := nodes[w].indents >= 0;
    }

    /**
     * createDeferredWriter: commit the pending text if there is any (counting
     * one more line), then append a new empty writer at the current depth and
     * with the same indent text, and return it. Pending rows stay pending
     * when there is no pending text, so they land after the child.
     */
    method CreateDeferredWriter(w: Id) returns (c: Id)
      requires Valid() && w in nodes
      modifies this
      ensures Valid()
      ensures c == old(next) && c !in old(nodes) && next == old(next) + 1
      ensures nodes == old(nodes)[c := Initial(old(nodes[w]).indents, Some(old(nodes[w]).ic))]
                                 [w := WithChild(old(nodes[w]), c)]
      ensures !IsEmpty(w)
    {
      ghost var o := nodes[w];
      if |nodes[w].sb| > 0 {
        Flush(w);
        FlushCommits(o);
        var f := nodes[w];
        ValidUpdate(nodes, next, w, f.(numLines := f.numLines + 1));
        nodes := nodes[w := f.(numLines := f.numLines + 1)];
      }
      c := AppendChild(w);
    }

    /** The second half of createDeferredWriter: a new writer, appended to `w`'s content. */
    method AppendChild(w: Id) returns (c: Id)
      requires Valid() && w in nodes
      modifies this
      ensures Valid()
      ensures c == old(next) && c !in old(nodes) && next == old(next) + 1
      ensures var n := old(nodes[w]);
        nodes == old(nodes)[c := Initial(n.indents, Some(n.ic))]
                           [w := n.(content := n.content + [Nested(c)], numLines := n.numLines + 1)]
    {
      var n := nodes[w];
      c := next;
      var inner := Initial(n.indents, Some(n.ic));
      ValidUpdate(nodes, next + 1, c, inner);
      nodes := nodes[c := inner];
      next := next + 1;
      var parent := n.(content := n.content + [Nested(c)], numLines := n.numLines + 1);
      assert ChildrenAbove(nodes, w, parent.content) by {
        assert ChildrenAbove(nodes, w, n.content);
      }
      ValidUpdate(nodes, next, w, parent);
      nodes := nodes[w := parent];
    }

    /** writeln_r: writeln, then one level deeper. */
    method WritelnR(w: Id, s: string)
      requires Valid() && w in nodes
      modifies this
      ensures Valid() && next == old(next)
      ensures nodes == old(nodes)[w := WritelnOf(old(nodes[w]), s).(indents := old(nodes[w]).indents + 1)]
    {
      Writeln(w, s);
      IndentRight(w);
    }

    /**
     * writeln_l: commit the pending rows at the current depth, go one level
     * shallower, then writeln. When the depth becomes negative it fails with
     * the rows committed and the decrement done, and writes no line.
     */
    method WritelnL(w: Id, s: string) returns (ok: bool)
      requires Valid() && w in nodes
      modifies this
      ensures Valid() && next == old(next)
      ensures ok <==> old(nodes[w]).indents >= 1
      ensures nodes == old(nodes)[w := if ok then WritelnOf(ShiftLeftOf(old(nodes[w])), s) else ShiftLeftOf(old(nodes[w]))]
    {
      FlushRows(w);
      ValidReplace(old(nodes), nodes, next, w);
      ok := IndentLeft(w);
      if ok {
        Writeln(w, s);
      }
    }

    /**
     * writeln_lr: like writeln_l, then one level deeper again, so that on
     * success the depth is as before and the line is one level shallower.
     */
    method WritelnLR(w: Id, s: string) returns (ok: bool)
      requires Valid() && w in nodes
      modifies this
      ensures Valid() && next == old(next)
      ensures ok <==> old(nodes[w]).indents >= 1
      ensures nodes == old(nodes)[w :=
        if ok then WritelnOf(ShiftLeftOf(old(nodes[w])), s).(indents := old(nodes[w]).indents)
        else ShiftLeftOf(old(nodes[w]))]
    {
      ok := WritelnL(w, s);
      if ok {
        IndentRight(w);
      }
    }

    /** writeln: see WritelnOf and WritelnCommits. */
    method Writeln(w: Id, s: string)
      requires Valid() && w in nodes
      modifies this
      ensures Valid() && next == old(next)
      ensures nodes == old(nodes)[w := WritelnOf(old(nodes[w]), s)]
      ensures !IsEmpty(w)
    {
      var n := nodes[w];
      var m := n.(numLines := n.numLines + 1, sb := n.sb + s);
      SoundUpdate(nodes, next, w, m);
      nodes := nodes[w := m];
      Flush(w);
      WritelnCommits(n, s);
      ValidReplace(old(nodes), nodes, next, w);
    }

    /**
     * writeLn(String...): add one row to the pending batch, to be aligned
     * with the rows around it when the batch is committed.
     */
    method WriteRow(w: Id, columns: Row)
      requires Valid() && w in nodes
      modifies this
      ensures Valid() && next == old(next)
      ensures var o := old(nodes[w]);
        nodes == old(nodes)[w := o.(rows := o.rows + [columns], isDirty := true, numLines := o.numLines + 1)]
      ensures !IsEmpty(w)
    {
      var n := nodes[w];
      var m := n.(rows := n.rows + [columns], isDirty := true, numLines := n.numLines + 1);
      ValidUpdate(nodes, next, w, m);
      nodes := nodes[w := m];
    }

    /** flush: commit the pending rows, then the pending text as one line, even when it is empty. */
    method Flush(w: Id)
      requires Sound() && w in nodes
      modifies this
      ensures Sound() && next == old(next)
      ensures nodes == old(nodes)[w := FlushOf(old(nodes[w]))]
    {
      FlushRows(w);
      var n := nodes[w];
      var m := n.(content := n.content + [Line(n.sb, n.indents)], sb := "", isDirty := false);
      assert ChildrenAbove(nodes, w, m.content) by {
        assert ChildrenAbove(nodes, w, n.content);
      }
      SoundUpdate(nodes, next, w, m);
      nodes := nodes[w := m];
    }

    /**
     * flushRows: when rows are pending, commit one line per row, in batch
     * order, aligned and at the depth of the moment of the flush, and clear
     * the batch; with no rows pending, change nothing.
     */
    method FlushRows(w: Id)
      requires Sound() && w in nodes
      modifies this
      ensures Sound() && next == old(next)
      ensures nodes == old(nodes)[w := FlushRowsOf(old(nodes[w]))]
      ensures var o := old(nodes[w]);
        && nodes[w].content == o.content + RowLines(o.rows, o.indents)
        && nodes[w].rows == []
        && (o.rows == [] ==> nodes == old(nodes))
    {
      var n := nodes[w];
      if |n.rows| > 0 {
        var lines := AlignRows(n.rows);
        var content := AppendLines(n.content, lines, n.indents);
        var m := n.(content := content, rows := []);
        assert ChildrenAbove(nodes, w, m.content) by {
          assert ChildrenAbove(nodes, w, n.content);
        }
        SoundUpdate(nodes, next, w, m);
        nodes := nodes[w := m];
      } else {
        assert n.content + RowLines(n.rows, n.indents) == n.content;
      }
    }

    /** The inner loop of flushRows that adds each aligned row as a line at `depth`. */
    static method AppendLines(content: seq<Item>, lines: seq<string>, depth: int) returns (r: seq<Item>)
      ensures r == content + LinesAt(lines, depth)
    {
      r := content;
      for k := 0 to |lines|
        invariant r == content + LinesAt(lines, depth)[..k]
      {
        r := r + [Line(lines[k], depth)];
      }
      assert LinesAt(lines, depth)[..|lines|] == LinesAt(lines, depth);
    }

    /**
     * isEmpty: no line was counted. Every write counts one, so an empty
     * writer has nothing committed and nothing pending.
     */
    function IsEmpty(w: Id): (r: bool)
      reads this
      requires Valid() && w in nodes
      ensures r ==> nodes[w].content == [] && nodes[w].rows == [] && nodes[w].sb == "" && IsMethodBodyEmpty(w)
    {
      nodes[w].numLines == 0
    }

    /**
     * write: append to the pending text without committing it, counting one
     * more line.
     */
    method Write(w: Id, s: string)
      requires Valid() && w in nodes
      modifies this
      ensures Valid() && next == old(next)
      ensures var o := old(nodes[w]);
        nodes == old(nodes)[w := o.(numLines := o.numLines + 1, isDirty := true, sb := o.sb + s)]
      ensures !IsEmpty(w)
    {
      var n := nodes[w];
      var m := n.(numLines := n.numLines + 1, isDirty := true, sb := n.sb + s);
      ValidUpdate(nodes, next, w, m);
      nodes := nodes[w := m];
    }

    /**
     * render into a fresh buffer, that is toString(indentBase): flush if
     * dirty, then unless the writer is suppressed render its items in order,
     * lines at `indentBase` plus their depth and nested writers by their own
     * toString(). The writers visited are flushed in place.
     */
    method Render(w: Id, indentBase: int) returns (s: string)
      requires Valid() && w in nodes
      modifies this
      ensures Valid() && next == old(next)
      ensures s == Output(old(nodes), w, indentBase)
      ensures nodes == AfterRender(old(nodes), w)
      decreases next - w, 2
    {
      ghost var m0 := nodes;
      FlushOne(m0, w);
      RenderStart(m0, w, indentBase);
      if nodes[w].isDirty {
        Flush(w);
        ValidReplace(m0, nodes, next, w);
      }
      if !IsGenerate(w) || (!IsGenerateIfEmpty(w) && IsMethodBodyEmpty(w)) {
        return "";
      }
      s := RenderItems(w, nodes[w].content, indentBase, m0);
    }

    /** The loop of render over the items of `w`, each line or nested writer in order. */
    method RenderItems(w: Id, items: seq<Item>, indentBase: int, ghost m0: map<Id, Node>) returns (s: string)
      requires Valid() && WellFormed(m0) && w in m0 && ChildrenAbove(m0, w, items)
      requires nodes == FlushSet(m0, {w}) && m0.Keys == nodes.Keys && nodes[w].ic == m0[w].ic
      modifies this
      ensures Valid() && next == old(next)
      ensures s == ItemsOutput(m0, w, items, indentBase)
      ensures nodes == FlushSet(m0, {w} + ItemsReach(m0, w, items))
      decreases next - w, 1
    {
      s := "";
      for i := 0 to |items|
        invariant Valid() && next == old(next)
        invariant ChildrenAbove(m0, w, items[..i])
        invariant nodes == FlushSet(m0, {w} + ItemsReach(m0, w, items[..i]))
        invariant s == ItemsOutput(m0, w, items[..i], indentBase)
      {
        match items[i]
        case Line(text, depth) =>
          RenderLineStep(m0, w, items, i, indentBase);
          var line := WriteIndentedLine(indentBase + depth, nodes[w].ic, text);
          s := s + line;
        case Nested(c) =>
          RenderNestedStep(m0, w, items, i, indentBase, nodes);
          var inner := ToString(c);
          s := s + inner;
      }
      assert items[..|items|] == items;
    }

    /** toString(): render at base 0; this is also how a nested writer is rendered. */
    method ToString(w: Id) returns (s: string)
      requires Valid() && w in nodes
      modifies this
      ensures Valid() && next == old(next)
      ensures s == Output(old(nodes), w, 0)
      ensures nodes == AfterRender(old(nodes), w)
      decreases next - w, 3
    {
      s := Render(w, 0);
    }

    /** isMethodBodyEmpty: no committed item and no pending text. */
    function IsMethodBodyEmpty(w: Id): bool
      reads this
      requires w in nodes
    {
      MethodBodyEmpty(nodes[w])
    }

    function IsGenerateIfEmpty(w: Id): bool
      reads this
      requires w in nodes
    {
      nodes[w].generateIfEmpty
    }

    method SetGenerateIfEmpty(w: Id, generateIfEmpty: bool)
      requires Valid() && w in nodes
      modifies this
      ensures Valid() && next == old(next)
      ensures nodes == old(nodes)[w := old(nodes[w]).(generateIfEmpty := generateIfEmpty)]
    {
      var m := nodes[w].(generateIfEmpty := generateIfEmpty);
      ValidUpdate(nodes, next, w, m);
      nodes := nodes[w := m];
    }

    function IsGenerate(w: Id): bool
      reads this
      requires w in nodes
    {
      nodes[w].generate
    }

    method SetGenerate(w: Id, generate: bool)
      requires Valid() && w in nodes
      modifies this
      ensures Valid() && next == old(next)
      ensures nodes == old(nodes)[w := old(nodes[w]).(generate := generate)]
    {
      var m := nodes[w].(generate := generate);
      ValidUpdate(nodes, next, w, m);
      nodes := nodes[w := m];
    }
  }
}
