/**
 * What PicoWriter.render produces and what it does to the writers it
 * visits, over an arena of writers addressed by id.
 */
module Rendering {
  import opened Columns
  import opened Nodes

  /** Every nested item of `items` names a writer of the arena with an id above `w`. */
  predicate ChildrenAbove(nodes: map<Id, Node>, w: Id, items: seq<Item>) {
    forall k :: 0 <= k < |items| && items[k].Nested? ==> w < items[k].child && items[k].child in nodes
  }

  /** A writer is only ever nested in a writer created before it. */
  predicate WellFormed(nodes: map<Id, Node>) {
    forall w :: w in nodes ==> ChildrenAbove(nodes, w, nodes[w].content)
  }

  /** Termination measure: the writers from `w` on. */
  ghost function Above(nodes: map<Id, Node>, w: Id): set<Id> {
    set k | k in nodes && w <= k
  }

  lemma ChildrenOfFlushed(nodes: map<Id, Node>, w: Id)
    requires WellFormed(nodes) && w in nodes
    ensures ChildrenAbove(nodes, w, Flushed(nodes[w]).content)
  {
    FlushedExtends(nodes[w]);
    var n := nodes[w];
    forall k | 0 <= k < |Flushed(n).content| && Flushed(n).content[k].Nested?
      ensures w < Flushed(n).content[k].child && Flushed(n).content[k].child in nodes
    {
      assert Flushed(n).content[k] == n.content[k];
    }
  }

  /** writeIndentedLine: `n` copies of `t`; none when `n` is not positive. */
  function Repeat(t: string, n: int): string
    decreases n
  {
    if n <= 0 then "" else Repeat(t, n - 1) + t
  }

  /** One rendered line: the indent text `level` times, the line, the separator. */
  function IndentedLine(indentText: string, level: int, text: string): string {
    Repeat(indentText, level) + text + SEP
  }

  /**
   * toString(base) of writer `w`: flush if dirty, check the guard, then each
   * item in order; a line at `base` plus its depth, a nested writer by its
   * own toString(), that is at base 0.
   */
  function Output(nodes: map<Id, Node>, w: Id, base: int): string
    requires WellFormed(nodes) && w in nodes
    decreases Above(nodes, w), 2, 0
  {
    var n := Flushed(nodes[w]);
    if !Generates(n) then ""
    else
      ChildrenOfFlushed(nodes, w);
      ItemsOutput(nodes, w, n.content, base)
  }

  function ItemsOutput(nodes: map<Id, Node>, w: Id, items: seq<Item>, base: int): string
    requires WellFormed(nodes) && w in nodes && ChildrenAbove(nodes, w, items)
    decreases Above(nodes, w), 1, |items|
  {
    if items == [] then ""
    else ItemsOutput(nodes, w, items[..|items| - 1], base) + Piece(nodes, w, items[|items| - 1], base)
  }

  function Piece(nodes: map<Id, Node>, w: Id, item: Item, base: int): string
    requires WellFormed(nodes) && w in nodes && ChildrenAbove(nodes, w, [item])
    decreases Above(nodes, w), 0, 0
  {
    match item
    case Line(text, depth) => IndentedLine(nodes[w].ic, base + depth, text)
    case Nested(c) =>
      assert [item][0] == item;
      assert w in Above(nodes, w) && w !in Above(nodes, c);
      Output(nodes, c, 0)
  }

  /** The writers whose render runs, and so flushes them, when `w` is rendered. */
  ghost function Reach(nodes: map<Id, Node>, w: Id): set<Id>
    requires WellFormed(nodes) && w in nodes
    decreases Above(nodes, w), 2, 0
  {
    var n := Flushed(nodes[w]);
    if !Generates(n) then {w}
    else
      ChildrenOfFlushed(nodes, w);
      {w} + ItemsReach(nodes, w, n.content)
  }

  ghost function ItemsReach(nodes: map<Id, Node>, w: Id, items: seq<Item>): set<Id>
    requires WellFormed(nodes) && w in nodes && ChildrenAbove(nodes, w, items)
    decreases Above(nodes, w), 1, |items|
  {
    if items == [] then {}
    else ItemsReach(nodes, w, items[..|items| - 1]) + PieceReach(nodes, w, items[|items| - 1])
  }

  ghost function PieceReach(nodes: map<Id, Node>, w: Id, item: Item): set<Id>
    requires WellFormed(nodes) && w in nodes && ChildrenAbove(nodes, w, [item])
    decreases Above(nodes, w), 0, 0
  {
    match item
    case Line(_, _) => {}
    case Nested(c) =>
      assert [item][0] == item;
      assert w in Above(nodes, w) && w !in Above(nodes, c);
      Reach(nodes, c)
  }

  /** The arena with the writers of `s` flushed as render flushes them. */
  ghost function FlushSet(nodes: map<Id, Node>, s: set<Id>): map<Id, Node> {
    map k | k in nodes :: if k in s then Flushed(nodes[k]) else nodes[k]
  }

  /** Replacing one writer by one whose nested items are above it keeps the arena well formed. */
  lemma UpdateWellFormed(nodes: map<Id, Node>, w: Id, n: Node)
    requires WellFormed(nodes) && ChildrenAbove(nodes, w, n.content)
    ensures WellFormed(nodes[w := n])
  {
    var m := nodes[w := n];
    forall k | k in m
      ensures ChildrenAbove(m, k, m[k].content)
    {
      if k != w {
        assert ChildrenAbove(nodes, k, nodes[k].content);
      }
    }
  }

  /** Flushing the writer at `w` alone, as render does first. */
  lemma FlushOne(nodes: map<Id, Node>, w: Id)
    requires w in nodes
    ensures FlushSet(nodes, {w}) == nodes[w := Flushed(nodes[w])]
    ensures !nodes[w].isDirty ==> FlushSet(nodes, {w}) == nodes
  {
  }

  /** The arena after rendering `w`. */
  ghost function AfterRender(nodes: map<Id, Node>, w: Id): map<Id, Node>
    requires WellFormed(nodes) && w in nodes
  {
    FlushSet(nodes, Reach(nodes, w))
  }

  /** Two arenas that differ only in flushes not yet done. */
  ghost predicate FlushEquivalent(m1: map<Id, Node>, m2: map<Id, Node>) {
    m1.Keys == m2.Keys && forall k :: k in m1 ==> Flushed(m1[k]) == Flushed(m2[k])
  }

  /** Flushing some writers keeps the arena well formed and changes nothing render looks at. */
  lemma FlushSetProperties(nodes: map<Id, Node>, s: set<Id>)
    requires WellFormed(nodes)
    ensures FlushSet(nodes, s).Keys == nodes.Keys
    ensures WellFormed(FlushSet(nodes, s))
    ensures FlushEquivalent(nodes, FlushSet(nodes, s))
  {
    var m := FlushSet(nodes, s);
    forall w | w in m
      ensures ChildrenAbove(m, w, m[w].content)
    {
      if w in s {
        ChildrenOfFlushed(nodes, w);
      }
    }
    forall k | k in nodes
      ensures Flushed(nodes[k]) == Flushed(m[k])
    {
      FlushedIdempotent(nodes[k]);
    }
  }

  lemma FlushSetTwice(nodes: map<Id, Node>, s: set<Id>, t: set<Id>)
    ensures FlushSet(FlushSet(nodes, s), t) == FlushSet(nodes, s + t)
  {
    forall k | k in nodes && k in s
      ensures Flushed(Flushed(nodes[k])) == Flushed(nodes[k])
    {
      FlushedIdempotent(nodes[k]);
    }
  }

  /** Render output and the writers render visits depend only on the writers as flushed. */
  lemma {:induction false} OutputEquivalent(m1: map<Id, Node>, m2: map<Id, Node>, w: Id, base: int)
    requires WellFormed(m1) && WellFormed(m2) && FlushEquivalent(m1, m2) && w in m1
    ensures Output(m1, w, base) == Output(m2, w, base)
    ensures Reach(m1, w) == Reach(m2, w)
    decreases Above(m1, w), 2, 0
  {
    var n := Flushed(m1[w]);
    assert n == Flushed(m2[w]);
    if Generates(n) {
      ChildrenOfFlushed(m1, w);
      ChildrenOfFlushed(m2, w);
      ItemsEquivalent(m1, m2, w, n.content, base);
    }
  }

  lemma {:induction false} ItemsEquivalent(m1: map<Id, Node>, m2: map<Id, Node>, w: Id, items: seq<Item>, base: int)
    requires WellFormed(m1) && WellFormed(m2) && FlushEquivalent(m1, m2) && w in m1
    requires ChildrenAbove(m1, w, items) && ChildrenAbove(m2, w, items)
    ensures ItemsOutput(m1, w, items, base) == ItemsOutput(m2, w, items, base)
    ensures ItemsReach(m1, w, items) == ItemsReach(m2, w, items)
    decreases Above(m1, w), 1, |items|
  {
    if items != [] {
      var last := items[|items| - 1];
      ItemsEquivalent(m1, m2, w, items[..|items| - 1], base);
      assert Flushed(m1[w]).ic == Flushed(m2[w]).ic;
      FlushedExtends(m1[w]);
      FlushedExtends(m2[w]);
      if last.Nested? {
        var c := last.child;
        assert w in Above(m1, w) && w !in Above(m1, c);
        OutputEquivalent(m1, m2, c, 0);
      }
    }
  }

  /**
   * Rendering twice without a mutation in between gives the same string,
   * and only the first render changes the arena.
   */
  lemma RenderIdempotent(nodes: map<Id, Node>, w: Id, base: int)
    requires WellFormed(nodes) && w in nodes
    ensures WellFormed(AfterRender(nodes, w))
    ensures AfterRender(AfterRender(nodes, w), w) == AfterRender(nodes, w)
    ensures Output(AfterRender(nodes, w), w, base) == Output(nodes, w, base)
  {
    var r := Reach(nodes, w);
    var m := FlushSet(nodes, r);
    FlushSetProperties(nodes, r);
    OutputEquivalent(nodes, m, w, base);
    FlushSetTwice(nodes, r, r);
    assert r + r == r;
  }

  /**
   * What render does before its loop: a suppressed writer outputs "" and
   * visits only itself; otherwise the output and the writers visited are
   * those of the items of the flushed writer.
   */
  lemma RenderStart(m0: map<Id, Node>, w: Id, base: int)
    requires WellFormed(m0) && w in m0
    ensures ChildrenAbove(m0, w, Flushed(m0[w]).content)
    ensures !Generates(Flushed(m0[w])) ==> Output(m0, w, base) == "" && Reach(m0, w) == {w}
    ensures Generates(Flushed(m0[w])) ==>
      && Output(m0, w, base) == ItemsOutput(m0, w, Flushed(m0[w]).content, base)
      && Reach(m0, w) == {w} + ItemsReach(m0, w, Flushed(m0[w]).content)
  {
    ChildrenOfFlushed(m0, w);
  }

  /** The output and the writers visited of the first `i + 1` items extend those of the first `i`. */
  lemma ItemsSnoc(m0: map<Id, Node>, w: Id, items: seq<Item>, i: nat, base: int)
    requires WellFormed(m0) && w in m0 && ChildrenAbove(m0, w, items) && i < |items|
    ensures ChildrenAbove(m0, w, items[..i]) && ChildrenAbove(m0, w, items[..i + 1]) && ChildrenAbove(m0, w, [items[i]])
    ensures ItemsOutput(m0, w, items[..i + 1], base) ==
      ItemsOutput(m0, w, items[..i], base) + Piece(m0, w, items[i], base)
    ensures ItemsReach(m0, w, items[..i + 1]) == ItemsReach(m0, w, items[..i]) + PieceReach(m0, w, items[i])
  {
    assert items[..i + 1][..i] == items[..i];
    assert items[..i + 1][i] == items[i];
    assert [items[i]][0] == items[i];
  }

  /** Render's loop over the items of `w`, one line further: the arena is unchanged. */
  lemma RenderLineStep(m0: map<Id, Node>, w: Id, items: seq<Item>, i: nat, base: int)
    requires WellFormed(m0) && w in m0 && ChildrenAbove(m0, w, items)
    requires i < |items| && items[i].Line?
    ensures ChildrenAbove(m0, w, items[..i]) && ChildrenAbove(m0, w, items[..i + 1])
    ensures ItemsReach(m0, w, items[..i + 1]) == ItemsReach(m0, w, items[..i])
    ensures ItemsOutput(m0, w, items[..i + 1], base) ==
      ItemsOutput(m0, w, items[..i], base) + IndentedLine(m0[w].ic, base + items[i].depth, items[i].text)
  {
    ItemsSnoc(m0, w, items, i, base);
    PieceLine(m0, w, items[i], base);
  }

  /** A line item renders as one indented line at the base plus its depth. */
  lemma PieceLine(m0: map<Id, Node>, w: Id, item: Item, base: int)
    requires WellFormed(m0) && w in m0 && ChildrenAbove(m0, w, [item]) && item.Line?
    ensures Piece(m0, w, item, base) == IndentedLine(m0[w].ic, base + item.depth, item.text)
    ensures PieceReach(m0, w, item) == {}
  {
  }

  /** A nested item renders as its writer's toString() and visits what that visits. */
  lemma PieceNested(m0: map<Id, Node>, w: Id, c: Id, base: int)
    requires WellFormed(m0) && w in m0 && ChildrenAbove(m0, w, [Nested(c)])
    ensures c in m0
    ensures Piece(m0, w, Nested(c), base) == Output(m0, c, 0)
    ensures PieceReach(m0, w, Nested(c)) == Reach(m0, c)
  {
    assert [Nested(c)][0] == Nested(c);
  }

  /**
   * The child's render, run on an arena where some writers are already
   * flushed, outputs what it would output before those flushes, and the
   * arena it leaves is the original one with both sets flushed.
   */
  lemma RenderOnFlushed(m0: map<Id, Node>, reached: set<Id>, c: Id)
    requires WellFormed(m0) && c in m0
    ensures c in FlushSet(m0, reached) && WellFormed(FlushSet(m0, reached))
    ensures Output(FlushSet(m0, reached), c, 0) == Output(m0, c, 0)
    ensures AfterRender(FlushSet(m0, reached), c) == FlushSet(m0, reached + Reach(m0, c))
  {
    var before := FlushSet(m0, reached);
    FlushSetProperties(m0, reached);
    OutputEquivalent(m0, before, c, 0);
    FlushSetTwice(m0, reached, Reach(m0, c));
  }

  /**
   * Render's loop over the items of `w`, one nested writer further: the
   * child's render, run on the arena as the loop has left it, flushes what
   * it would flush on the arena before the loop, and outputs the same.
   */
  lemma RenderNestedStep(m0: map<Id, Node>, w: Id, items: seq<Item>, i: nat, base: int, before: map<Id, Node>)
    requires WellFormed(m0) && w in m0 && ChildrenAbove(m0, w, items)
    requires i < |items| && items[i].Nested?
    requires ChildrenAbove(m0, w, items[..i])
    requires before == FlushSet(m0, {w} + ItemsReach(m0, w, items[..i]))
    ensures items[i].child in before && WellFormed(before)
    ensures ChildrenAbove(m0, w, items[..i + 1])
    ensures AfterRender(before, items[i].child) == FlushSet(m0, {w} + ItemsReach(m0, w, items[..i + 1]))
    ensures ItemsOutput(m0, w, items[..i + 1], base) ==
      ItemsOutput(m0, w, items[..i], base) + Output(before, items[i].child, 0)
  {
    var c := items[i].child;
    var reached := {w} + ItemsReach(m0, w, items[..i]);
    ItemsSnoc(m0, w, items, i, base);
    PieceNested(m0, w, c, base);
    RenderOnFlushed(m0, reached, c);
    assert reached + Reach(m0, c) == {w} + ItemsReach(m0, w, items[..i + 1]);
  }

  /** The output of consecutive items is the concatenation of their outputs. */
  lemma {:induction false} ItemsOutputAppend(nodes: map<Id, Node>, w: Id, a: seq<Item>, b: seq<Item>, base: int)
    requires WellFormed(nodes) && w in nodes
    requires ChildrenAbove(nodes, w, a) && ChildrenAbove(nodes, w, b)
    ensures ChildrenAbove(nodes, w, a + b)
    ensures ItemsOutput(nodes, w, a + b, base) == ItemsOutput(nodes, w, a, base) + ItemsOutput(nodes, w, b, base)
    decreases |b|
  {
    ChildrenConcat(nodes, w, a, b);
    if b == [] {
      assert a + b == a;
    } else {
      var ab := a + b;
      var init := b[..|b| - 1];
      ItemsSnoc(nodes, w, b, |b| - 1, base);
      ItemsSnoc(nodes, w, ab, |ab| - 1, base);
      SnocOfConcat(a, b);
      ItemsOutputAppend(nodes, w, a, init, base);
      ConcatAssoc(ItemsOutput(nodes, w, a, base), ItemsOutput(nodes, w, init, base), Piece(nodes, w, b[|b| - 1], base));
    }
  }

  lemma ChildrenConcat(nodes: map<Id, Node>, w: Id, a: seq<Item>, b: seq<Item>)
    requires ChildrenAbove(nodes, w, a) && ChildrenAbove(nodes, w, b)
    ensures ChildrenAbove(nodes, w, a + b)
  {
    var ab := a + b;
    assert forall k :: 0 <= k < |ab| ==> ab[k] == if k < |a| then a[k] else b[k - |a|];
  }

  /** Taking the last item off `a + b` takes it off `b`, and the whole of `a + b` is itself. */
  lemma SnocOfConcat(a: seq<Item>, b: seq<Item>)
    requires b != []
    ensures (a + b)[..|a + b|] == a + b && b[..|b|] == b
    ensures (a + b)[..|a + b| - 1] == a + b[..|b| - 1] && (a + b)[|a + b| - 1] == b[|b| - 1]
    ensures b[..|b| - 1 + 1] == b && (a + b)[..|a + b| - 1 + 1] == a + b
  {
  }

  lemma ConcatAssoc(x: string, y: string, z: string)
    ensures (x + y) + z == x + (y + z)
  {
  }

  /**
   * A nested writer renders at its own position: whatever its content is at
   * render time appears between the items committed before it and after it.
   */
  lemma InsertionPoint(nodes: map<Id, Node>, w: Id, pre: seq<Item>, c: Id, post: seq<Item>, base: int)
    requires WellFormed(nodes) && w in nodes
    requires Generates(Flushed(nodes[w]))
    requires Flushed(nodes[w]).content == pre + [Nested(c)] + post
    ensures ChildrenAbove(nodes, w, pre) && c in nodes && ChildrenAbove(nodes, w, post)
    ensures Output(nodes, w, base) == ItemsOutput(nodes, w, pre, base) + Output(nodes, c, 0) + ItemsOutput(nodes, w, post, base)
  {
    var items := pre + [Nested(c)] + post;
    ChildrenOfFlushed(nodes, w);
    assert forall k :: 0 <= k < |pre| ==> pre[k] == items[k];
    assert forall k :: 0 <= k < |post| ==> post[k] == items[|pre| + 1 + k];
    assert items[|pre|] == Nested(c);
    ItemsOutputAppend(nodes, w, pre, [Nested(c)], base);
    ItemsOutputAppend(nodes, w, pre + [Nested(c)], post, base);
    assert ItemsOutput(nodes, w, [Nested(c)], base) == ItemsOutput(nodes, w, [], base) + Piece(nodes, w, Nested(c), base);
  }

  /**
   * A writer that is switched off renders as "", and so does one flagged not
   * to be generated when empty that has, after the flush, no content and no
   * pending text; otherwise its output is that of its items.
   */
  lemma SuppressedOutput(nodes: map<Id, Node>, w: Id, base: int)
    requires WellFormed(nodes) && w in nodes
    ensures !nodes[w].generate ==> Output(nodes, w, base) == ""
    ensures !nodes[w].generateIfEmpty && MethodBodyEmpty(Flushed(nodes[w])) ==> Output(nodes, w, base) == ""
    ensures Generates(Flushed(nodes[w])) ==>
      ChildrenAbove(nodes, w, Flushed(nodes[w]).content) &&
      Output(nodes, w, base) == ItemsOutput(nodes, w, Flushed(nodes[w]).content, base)
  {
    FlushedExtends(nodes[w]);
    ChildrenOfFlushed(nodes, w);
  }

  /** A rendered line holds the indent text once per level, then the text, then "\n". */
  lemma {:induction false} IndentedLineShape(indentText: string, level: int, text: string, j: int)
    requires 0 <= j < level
    ensures |Repeat(indentText, level)| == level * |indentText|
    ensures Repeat(indentText, level)[j * |indentText|..(j + 1) * |indentText|] == indentText
    ensures IndentedLine(indentText, level, text) == Repeat(indentText, level) + text + "\n"
    decreases level
  {
    var w, r := |indentText|, Repeat(indentText, level - 1);
    RepeatLength(indentText, level - 1);
    Offsets(j, level, w);
    if j < level - 1 {
      IndentedLineShape(indentText, level - 1, text, j);
      EarlierColumn(r, indentText, j * w, w);
    } else {
      LastColumn(r, indentText, j * w, w);
    }
  }

  /** The offsets of copy `j` of a `w`-wide text repeated `level` times. */
  lemma Offsets(j: int, level: int, w: nat)
    requires 0 <= j < level
    ensures (j + 1) * w == j * w + w && level * w == (level - 1) * w + w
    ensures (if level - 1 <= 0 then 0 else (level - 1) * w) == (level - 1) * w
    ensures j < level - 1 ==> (j + 1) * w <= (level - 1) * w
    ensures j == level - 1 ==> j * w == (level - 1) * w
  {
    if j < level - 1 {
      MultiplyMonotone(j + 1, level - 1, w);
    }
  }

  lemma {:induction false} RepeatLength(t: string, n: int)
    ensures |Repeat(t, n)| == (if n <= 0 then 0 else n * |t|)
    decreases n
  {
    if n > 0 {
      RepeatLength(t, n - 1);
      assert (n - 1) * |t| + |t| == n * |t|;
    }
  }

  lemma MultiplyMonotone(a: int, b: int, c: nat)
    requires a <= b
    ensures a * c <= b * c
  {
  }

  /** writeIndentedLine: append the indent text `indentBase` times, then the line and the separator. */
  method WriteIndentedLine(indentBase: int, indentText: string, line: string) returns (s: string)
    ensures s == IndentedLine(indentText, indentBase, line)
  {
    s := "";
    var indentIndex := 0;
    while indentIndex < indentBase
      invariant if indentBase > 0 then 0 <= indentIndex <= indentBase else indentIndex == 0
      invariant s == Repeat(indentText, indentIndex)
    {
      s := s + indentText;
      indentIndex := indentIndex + 1;
    }
    s := s + line + SEP;
  }
}
