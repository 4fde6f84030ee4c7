# PicoWriter, modelled in Dafny

PicoWriter is a small code-generation text builder. A writer holds a list of
committed items and some pending state:

- **Items:** each item is either a line with the indentation depth it was committed at, or a nested writer.
- **Pending text:** written by `write` and committed as one line at the next flush.
- **Pending rows:** every row is an array of column strings. When the batch is committed, each column is padded to the widest entry of that column over the batch.
- **Depth:** the current indentation depth.
- **Indent text:** the string repeated once per depth level; the default is three spaces.
- **Flags:** `generate` and `generateIfEmpty`.

`createDeferredWriter` appends a new child writer to the content and returns it. The caller can go on writing to the child after writing more to the parent. The child's text appears where the child was created. `toString(indentBase)` renders the writer:

1. It flushes the writer if it is dirty.
2. It renders nothing if the writer is switched off, or if the writer is empty and flagged not to be generated when empty.
3. Otherwise it renders each line at `indentBase` plus the line's depth, and each nested writer by the child's own `toString()`.

The model has five modules:

- **`Columns`:** column alignment, as `flushRows` performs it. Its specification functions are `MaxWidths` and `AlignedRows`. The loops are the methods `MeasureColumns`, `PadColumns`, `PadCell` and `AlignRows`, each proved equal to its specification function.
- **`Nodes`:**
  - The fields of one writer, as the datatype `Node`.
  - The commits as value functions: `FlushRowsOf`, `FlushOf`, `WritelnOf`, `ShiftLeftOf`, `WithChild` and `Flushed`.
  - Lemmas that state what each commit appends, and the invariant `Consistent` it keeps.
- **`Rendering`:**
  - The render specification: `Output`, over a map from writer ids to writers.
  - The set of writers a render visits, `Reach`, and the state a render leaves behind, `AfterRender`.
  - Lemmas on insertion points, suppression, idempotence and indentation.
- **`PicoWriter`:** the class `Arena`. It holds every writer created so far, keyed by id, and has one method per PicoWriter operation. Each method's `ensures` gives the complete new state, or the rendered text, in terms of the functions above.
  - A nested writer is stored in its parent's content by id.
  - The caller's handle on a deferred writer is that same id, so writes through the handle reach the writer the parent renders.
  - A child always gets a larger id than its parent, so the nesting has no cycles and render terminates.
- **`Scenarios`:** client programs that run the Arena methods and prove the exact text they render. They cover:
  - deferred insertion;
  - column alignment and the trailing empty line;
  - `indentLeft` at depth 0;
  - depths of nested writers;
  - the base of nested writers;
  - rows pending around a child;
  - suppression;
  - a `{ … }` block;
  - rows taking the depth at commit time;
  - the indentRight/indentLeft round trip;
  - rendering twice.

Four behaviours of the code are easy to get wrong; the model follows the code in each:

- `indentLeft` decrements the depth before it throws. After a failure that the caller catches, the depth is -1, not 0.
- `createDeferredWriter` commits only when there is pending text. Pending rows with no pending text stay pending, so they are committed after the child.
- `flush`, and therefore every render of a dirty writer, always commits the pending text as one line, even when the text is empty. So a writer holding only rows renders one extra empty line.
- `writeln_l` and `writeln_lr` commit the pending rows before the depth changes. When `indentLeft` then fails, the rows are committed, the depth is decremented and no line is written.

## Model

All source paths point into `src/main/java/org/ainslec/picocog/PicoWriter.java`.

| member | source | states |
|---|---|---|
| Nodes.Initial | src/main/java/org/ainslec/picocog/PicoWriter.java:38-48 | A new writer has the requested depth, or exactly 0 when the requested depth is negative. Its indent text is the given text, or three spaces for null. It has nothing committed or pending, and it is generated and clean. |
| Nodes.FlushCommits | src/main/java/org/ainslec/picocog/PicoWriter.java:106-111 | flush appends the row batch's lines, then one line holding the pending text (even when it is empty), all at the current depth. It clears rows, text and the dirty flag and changes no other field. |
| Nodes.FlushedExtends | src/main/java/org/ainslec/picocog/PicoWriter.java:171-173 | The flush at the start of render only appends lines after the existing content. It keeps depth, indent text, flags and line count. |
| Nodes.FlushedIdempotent | src/main/java/org/ainslec/picocog/PicoWriter.java:171-173 | After the render flush the writer is clean, and flushing it again changes nothing. |
| Nodes.FlushedBodyEmpty | src/main/java/org/ainslec/picocog/PicoWriter.java:171-177 | After the render flush of a consistent writer nothing is pending. isMethodBodyEmpty then holds exactly when the writer was clean and had no content. |
| Nodes.WithChildContent | src/main/java/org/ainslec/picocog/PicoWriter.java:59-68 | With pending text, the parent's content becomes old content, row lines, text line, then the child, and two lines are counted. Without pending text, the child is appended directly, the rows stay pending and one line is counted. Depth and indent text are kept and consistency is preserved. |
| Nodes.WritelnCommits | src/main/java/org/ainslec/picocog/PicoWriter.java:87-92 | writeln appends the row lines and then exactly one line, the pending text followed by the argument, at the current depth. Nothing is left pending and one more line is counted. |
| Nodes.ShiftLeftCommits | src/main/java/org/ainslec/picocog/PicoWriter.java:74-79 | writeln_l commits the pending rows at the old depth and its line one level shallower. The pending text carries into that line. |
| Columns.MaxColumns | src/main/java/org/ainslec/picocog/PicoWriter.java:115-129 | The length of the maxWidth list is the column count of the longest row: every row fits within it, and some row reaches it. |
| Columns.ColumnMax | src/main/java/org/ainslec/picocog/PicoWriter.java:116-128 | No entry of column i is wider than the value computed for column i. |
| Columns.Cell | src/main/java/org/ainslec/picocog/PicoWriter.java:136-145 | A padded entry is its text (null as "") followed only by spaces. Its length is the larger of the column width and the entry width. |
| Columns.ColumnMaxBeyond | src/main/java/org/ainslec/picocog/PicoWriter.java:121-122 | Column widths exist only up to the longest row. |
| Columns.ColumnMaxIsAttained | src/main/java/org/ainslec/picocog/PicoWriter.java:121-126 | The width of every column is the length of one actual entry of that column. |
| Columns.MaxWidthsIsColumnMaximum | src/main/java/org/ainslec/picocog/PicoWriter.java:115-129 | maxWidth[i] is the maximum entry length of column i over the batch: an upper bound that some entry reaches. |
| Columns.PadRowLength | src/main/java/org/ainslec/picocog/PicoWriter.java:133-149 | A padded row is exactly as long as the widths of its columns together. |
| Columns.PadRowColumn | src/main/java/org/ainslec/picocog/PicoWriter.java:133-149 | Column i of a padded row sits at the sum of the earlier widths. It is exactly its entry padded to the column's width. |
| Columns.AlignedRowsLayout | src/main/java/org/ainslec/picocog/PicoWriter.java:113-152 | The batch becomes one line per row, in order. In every line, column i starts at the same offset, is maxWidth[i] wide and holds the entry then spaces. |
| Columns.AlignedRowsExample | src/main/java/org/ainslec/picocog/PicoWriter.java:113-152 | Rows ("a","bb") and ("ccc","d") align to "a  bb" and "cccd ". |
| Columns.NullColumnExample | src/main/java/org/ainslec/picocog/PicoWriter.java:119-120 | A null entry renders as "" but still takes its column's width. |
| Columns.MeasureColumns | src/main/java/org/ainslec/picocog/PicoWriter.java:115-129 | The first loop of flushRows computes exactly MaxWidths. |
| Columns.PadColumns | src/main/java/org/ainslec/picocog/PicoWriter.java:134-146 | The inner loop over one row's columns produces the padded row. |
| Columns.PadCell | src/main/java/org/ainslec/picocog/PicoWriter.java:136-145 | The text of one entry plus one space per missing character is the padded entry. |
| Columns.AlignRows | src/main/java/org/ainslec/picocog/PicoWriter.java:113-149 | flushRows's two loops produce exactly the aligned lines of the batch. |
| Rendering.ChildrenOfFlushed | src/main/java/org/ainslec/picocog/PicoWriter.java:171-173 | Flushing keeps every nested writer of a well-formed arena existing and newer than its parent. |
| Rendering.UpdateWellFormed | src/main/java/org/ainslec/picocog/PicoWriter.java:64-65 | Replacing a writer whose children exist and are newer keeps the arena well-formed. |
| Rendering.FlushOne | src/main/java/org/ainslec/picocog/PicoWriter.java:171-173 | The render flush of the writer itself flushes exactly that writer, and a clean writer is left unchanged. |
| Rendering.FlushSetProperties | src/main/java/org/ainslec/picocog/PicoWriter.java:170-189 | Flushing any set of writers keeps the ids and well-formedness, and changes no writer's flushed form. |
| Rendering.FlushSetTwice | src/main/java/org/ainslec/picocog/PicoWriter.java:171-173 | Flushing one set and then another is flushing their union. |
| Rendering.OutputEquivalent | src/main/java/org/ainslec/picocog/PicoWriter.java:170-189 | Two arenas whose writers agree after flushing render every writer to the same text and visit the same writers. |
| Rendering.ItemsEquivalent | src/main/java/org/ainslec/picocog/PicoWriter.java:179-188 | The same holds for the item loop over any list of items. |
| Rendering.RenderIdempotent | src/main/java/org/ainslec/picocog/PicoWriter.java:170-194 | The state after a render is well-formed. Rendering it again changes nothing, and it renders to the same text as the state before. |
| Rendering.RenderStart | src/main/java/org/ainslec/picocog/PicoWriter.java:170-177 | A suppressed writer renders "" and visits only itself. Otherwise its output is the output of its flushed items. |
| Rendering.ItemsSnoc | src/main/java/org/ainslec/picocog/PicoWriter.java:179-188 | The output of one more item is the output so far followed by that item's piece. The visited writers are added likewise. |
| Rendering.RenderLineStep | src/main/java/org/ainslec/picocog/PicoWriter.java:180-184 | A line item adds its indented line and visits no writer. |
| Rendering.PieceLine | src/main/java/org/ainslec/picocog/PicoWriter.java:180-184 | A line renders at the base plus its own depth, with the writer's indent text. |
| Rendering.PieceNested | src/main/java/org/ainslec/picocog/PicoWriter.java:185-187 | A nested writer renders as its own output at base 0 and visits what that render visits. |
| Rendering.RenderOnFlushed | src/main/java/org/ainslec/picocog/PicoWriter.java:186 | Rendering a child after earlier flushes gives the child's original output. The resulting flushed set is the union. |
| Rendering.RenderNestedStep | src/main/java/org/ainslec/picocog/PicoWriter.java:185-187 | One loop step over a nested writer appends its text and flushes the writers it reaches. |
| Rendering.ItemsOutputAppend | src/main/java/org/ainslec/picocog/PicoWriter.java:179-188 | The output of concatenated item lists is the concatenation of their outputs. |
| Rendering.InsertionPoint | src/main/java/org/ainslec/picocog/PicoWriter.java:59-68 | A deferred writer's text appears exactly at its position in the parent: the items before it, then the child's output at base 0, then the items after it. |
| Rendering.SuppressedOutput | src/main/java/org/ainslec/picocog/PicoWriter.java:175-177 | A writer with generate false renders "", and so does one that is empty and has generateIfEmpty false. Otherwise it renders its flushed items. |
| Rendering.IndentedLineShape | src/main/java/org/ainslec/picocog/PicoWriter.java:163-169 | An indented line is the indent text repeated `level` times, each copy at its offset, then the text and the separator. |
| Rendering.RepeatLength | src/main/java/org/ainslec/picocog/PicoWriter.java:164-166 | The indentation is `level` times the indent text long, and empty for a level of 0 or less. |
| Rendering.WriteIndentedLine | src/main/java/org/ainslec/picocog/PicoWriter.java:163-169 | The loop writes exactly the indented line. |
| PicoWriter.SoundUpdate | src/main/java/org/ainslec/picocog/PicoWriter.java:64-65 | Updating an arena writer whose children exist and are newer keeps the arena sound. |
| PicoWriter.ValidUpdate | src/main/java/org/ainslec/picocog/PicoWriter.java:64-65 | Such an update with a consistent writer also keeps the arena valid. |
| PicoWriter.ValidReplace | src/main/java/org/ainslec/picocog/PicoWriter.java:87-92 | A sound arena that differs from a valid one only in one consistent writer is valid. |
| PicoWriter.Arena.constructor | src/main/java/org/ainslec/picocog/PicoWriter.java:25-36 | An empty arena, valid. |
| PicoWriter.Arena.NewWriter | src/main/java/org/ainslec/picocog/PicoWriter.java:38-44 | A new root writer at depth 0, empty, with the given indent text or the default. No other writer changes. |
| PicoWriter.Arena.IndentRight | src/main/java/org/ainslec/picocog/PicoWriter.java:49-51 | The depth goes up by one and nothing else changes. |
| PicoWriter.Arena.IndentLeft | src/main/java/org/ainslec/picocog/PicoWriter.java:52-57 | The depth goes down by one in every case. The result reports success exactly when the old depth was at least 1. |
| PicoWriter.Arena.CreateDeferredWriter | src/main/java/org/ainslec/picocog/PicoWriter.java:59-68 | A new child is created at the parent's depth with the parent's indent text, and the parent becomes WithChild of its old state. No other writer changes, and the parent is no longer empty. |
| PicoWriter.Arena.AppendChild | src/main/java/org/ainslec/picocog/PicoWriter.java:64-67 | A fresh writer is appended to the parent's content, and one line is counted. |
| PicoWriter.Arena.WritelnR | src/main/java/org/ainslec/picocog/PicoWriter.java:69-73 | writeln, then the depth is one more. |
| PicoWriter.Arena.WritelnL | src/main/java/org/ainslec/picocog/PicoWriter.java:74-79 | Success exactly when the old depth was at least 1, and then the new state is writeln after ShiftLeftOf. On failure the rows are committed, the depth is decremented and no line is written. |
| PicoWriter.Arena.WritelnLR | src/main/java/org/ainslec/picocog/PicoWriter.java:80-86 | As writeln_l, but on success the depth is restored, so the line sits one level shallower than the depth. |
| PicoWriter.Arena.Writeln | src/main/java/org/ainslec/picocog/PicoWriter.java:87-92 | The new state is WritelnOf of the old state, and the writer is no longer empty. |
| PicoWriter.Arena.WriteRow | src/main/java/org/ainslec/picocog/PicoWriter.java:99-104 | The row is added to the pending batch, the writer is dirty, one line is counted and the writer is no longer empty. |
| PicoWriter.Arena.Flush | src/main/java/org/ainslec/picocog/PicoWriter.java:106-111 | The new state is FlushOf of the old one. |
| PicoWriter.Arena.FlushRows | src/main/java/org/ainslec/picocog/PicoWriter.java:113-152 | The content gains the aligned row lines at the current depth, and the batch is cleared. With no rows pending, nothing changes. |
| PicoWriter.Arena.AppendLines | src/main/java/org/ainslec/picocog/PicoWriter.java:133-149 | Each aligned line is appended, in order, at the given depth. |
| PicoWriter.Arena.IsEmpty | src/main/java/org/ainslec/picocog/PicoWriter.java:155-157 | An empty writer has nothing committed and nothing pending, so its method body is empty. |
| PicoWriter.Arena.Write | src/main/java/org/ainslec/picocog/PicoWriter.java:158-162 | The text is appended to the pending text and not committed. The writer is dirty, one line is counted and the writer is no longer empty. |
| PicoWriter.Arena.Render | src/main/java/org/ainslec/picocog/PicoWriter.java:170-194 | toString(indentBase) returns Output of the old state, and leaves exactly the visited writers flushed. |
| PicoWriter.Arena.RenderItems | src/main/java/org/ainslec/picocog/PicoWriter.java:179-188 | The loop over the items returns their output and flushes exactly the writers they reach. |
| PicoWriter.Arena.ToString | src/main/java/org/ainslec/picocog/PicoWriter.java:213-215 | Render at base 0. |
| PicoWriter.Arena.SetGenerateIfEmpty | src/main/java/org/ainslec/picocog/PicoWriter.java:201-203 | Only the generateIfEmpty flag changes. |
| PicoWriter.Arena.SetGenerate | src/main/java/org/ainslec/picocog/PicoWriter.java:209-211 | Only the generate flag changes. |
| Scenarios.OnlyLines | src/main/java/org/ainslec/picocog/PicoWriter.java:179-188 | A writer of lines only renders as the line-by-line reference rendering. |
| Scenarios.AroundChild | src/main/java/org/ainslec/picocog/PicoWriter.java:179-188 | Lines, a nested writer, then lines render as the reference lines around the child's own output. |
| Scenarios.DeferredInsertion | src/main/java/org/ainslec/picocog/PicoWriter.java:59-68 | Writing "A", creating a deferred writer, writing "C" to the parent and then "B" to the child renders "A\nB\nC\n". |
| Scenarios.AlignedRowsThenBlank | src/main/java/org/ainslec/picocog/PicoWriter.java:99-152 | Two rows render aligned, followed by the empty line that render's flush commits. |
| Scenarios.IndentLeftAtZero | src/main/java/org/ainslec/picocog/PicoWriter.java:52-57 | indentLeft at depth 0 fails and leaves depth -1. A later line has no indentation. |
| Scenarios.DepthsCompose | src/main/java/org/ainslec/picocog/PicoWriter.java:45-48 | A deferred writer starts at its parent's depth, and its own indentRight adds to that depth. |
| Scenarios.NestedIgnoresBase | src/main/java/org/ainslec/picocog/PicoWriter.java:186 | Rendering the parent at base 1 indents the parent's lines but not the nested writer's lines. |
| Scenarios.RowsAfterChild | src/main/java/org/ainslec/picocog/PicoWriter.java:59-63 | Rows pending when a child is created without pending text render after the child. |
| Scenarios.EmptySuppressed | src/main/java/org/ainslec/picocog/PicoWriter.java:175-177 | An empty writer with generateIfEmpty false renders "". |
| Scenarios.SwitchedOff | src/main/java/org/ainslec/picocog/PicoWriter.java:175-177 | A writer with generate false renders "", even after a writeln. |
| Scenarios.Block | src/main/java/org/ainslec/picocog/PicoWriter.java:69-79 | writeln_r("{"), writeln("x"), writeln_l("}") renders "{\n   x\n}\n", and the closing succeeds. |
| Scenarios.RowsTakeFlushDepth | src/main/java/org/ainslec/picocog/PicoWriter.java:147 | A row written at depth 0 and committed after indentRight renders at depth 1. |
| Scenarios.IndentRoundTrip | src/main/java/org/ainslec/picocog/PicoWriter.java:49-57 | indentRight then indentLeft restores the writer exactly. indentLeft succeeds unless the depth was already negative. |
| Scenarios.RenderTwice | src/main/java/org/ainslec/picocog/PicoWriter.java:190-194 | Two renders with no write in between give the same text. |

## Left out

- The classes `PicoWriterItem` and `IndentedLine` are not part of this model. An `IndentedLine` is the `Line` case of `Nodes.Item`, and a nested `PicoWriter` item is its `Nested` case.
- `RuntimeException`: the one exception, thrown by `indentLeft` directly and through `writeln_l` and `writeln_lr`, is modelled as an `ok` result. The state left by the failure is modelled; Java's unwinding is not.
- Null strings: a null indent text and null row entries are modelled. `writeln(null)` and `write(null)` append the text "null" in Java; the model takes a string. A null varargs array for `writeLn` is not modelled.
- Strings are sequences of characters. Java's UTF-16 code units, `StringBuilder` and `ArrayList` are not modelled as such.
- Nodes.Node: the fields `_numLines` and `_indents` are 32-bit Java `int`s, which wrap around. The model makes them an unbounded `nat` and `int`, so it does not capture a count or a depth that overflows.
- PicoWriter.Arena.WriteRow: `writeLn(String...)` stores a reference to the caller's array, so a caller who changes an explicitly passed `String[]` before the next flush changes the committed line. The model copies the row as a value at the call, so it does not capture that aliasing.
- The return value `this` of the chaining methods is left out, because it adds nothing the caller does not already hold.
- The field initialiser `_indents = -1` is left out, because every constructor overwrites it before use.
- Concurrent use and garbage collection are not modelled. Writers are never removed from the arena.
- `Render`: the Java render appends into a caller's `StringBuilder`. The model returns the text that `toString(indentBase)` would return; for a nested writer that is the text it appends.
- `IsMethodBodyEmpty`, `IsGenerateIfEmpty`, `IsGenerate`: getters whose body is their whole meaning. They have no contract beyond that body.
