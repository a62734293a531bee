# Editor text buffer and caret navigation, modelled in Dafny

This project models the editing and caret-navigation core of the devcode
editor widget. A document is a sequence of lines. A cursor holds a row, a
character column and an x offset in pixels. Key and character events edit the
lines and move the cursor. Two engines in the repository do this over the
same state:

- `src/renderer/input.rs` (the current engine). The free functions
  `input_special` and `input_char` update a `Cursor` object in place and edit
  the line vector. The x offset comes from a glyph-layout query,
  `cursor_x_position`. `TextArea` owns the lines, the cursor and the widest
  line width that `input_char` returns.
- `src/renderer/code_view.rs` (the older engine). `CodeView::input` updates
  the cursor fields of the view. It keeps the x offset as a running sum of
  per-character widths from a width map, with for-loops that re-sum a line.

The files are:

- `wrappers.dfy`: `Option` and `Iterator::nth`.
- `text_buffer.dfy`: `str::lines`, the trailing-newline rule, the line edits.
- `layout.dfy`: character widths, the glyph layout, `cursor_x_position`,
  `line_length` and the `max_line_length` loop.
- `navigation.dfy`: the caret value and the four moves, stated by what they
  mean (row, clamped column, x = width of the characters before the caret).
  Both engines are proved against these definitions.
- `text_input.dfy`: the `input.rs` engine. It has the `Cursor` and
  `TextArea` classes, the methods `InputSpecial` and `InputChar`, the
  functions `Special` and `CharInput` that specify them, and lemmas saying
  what every key and character does.
- `code_view.dfy`: the `CodeView` class with its loops, `Input` and the
  tally in `scroll`.

Modelling assumptions:

- Every character is one byte, one grapheme cluster and one glyph. So byte
  indices (`len()`, `String::insert`, `String::remove`), grapheme indices
  (`grapheme_indices`) and code-point indices (`chars().nth`) coincide.
- Widths are a total function from characters to natural numbers.
- In the glyph layout, each glyph starts where the previous one ends, and
  its bounding width equals its advance.
- Pixel x offsets are natural numbers. They are not `f32`.

### Panics made into preconditions

The model keeps the source's panics as preconditions: `TextInput.SpecialSafe`,
`TextInput.CharSafe` and `CodeViewModel.ViewSafe` are the conditions under
which the two engines run without a panic. Each panic is named here, with
the lemmas that characterise the inputs reaching it:

- `input.rs` Backspace with the caret inside a line deletes a character. It
  then moves Left, which unwraps a layout position (line 261). An empty line
  has no such position. So deleting the only character of a line panics.
  The same unwrap makes Backspace at column 0 panic when both lines it joins
  are empty. `TextInput.BackspacePanics` states exactly when this happens.
  A consequence is that typing a character on an empty line and then
  pressing Backspace panics. `TextInput.TypeThenBackspace` and
  `TextInput.EnterThenBackspace` need a non-empty line for that reason.
- `input.rs` Down, Right and every `input_char` except Backspace index the
  caret's line or compute `text.len() - 1`. On a document with no lines they
  panic. Backspace at (0,0) indexes nothing and changes nothing, so it runs
  even on a document with no lines and then reports a widest-line width of
  0 (`TextInput.BackspaceAtStart`, `TextInput.CharConsistent`).
- `code_view.rs:173` compares the row with `text.len()` instead of the last
  index. So Down from the last row reads a line that does not exist
  (`CodeViewModel.DownFromLastRowPanics`).
- `code_view.rs:210` increments the row with no bound. Right at the end of
  the last line therefore puts the cursor on the row equal to the line
  count, at column 0. The model treats that row as a valid cursor state
  (`Navigation.Placed`). From there Up and Left come back onto a line, while
  Right, Down and Back panic (`CodeViewModel.WrappedPastLastRow`).
- `code_view.rs:216` removes at the caret after the Left move. From column 0
  of a later row, that removal is at the end of the previous line and
  panics. At the start of the document it removes the character under the
  caret, which panics when the first line is empty
  (`CodeViewModel.BackAfterWrapRemovesPastEnd`).

### Behaviour at the edges

- An empty source gives no lines: `str::lines` yields nothing for it, and
  neither constructor adds a line. A new area or view on an empty source
  therefore has no line for the caret (`TextBuffer.SplitTextCount`).
- In `input.rs`, Down at the last row moves to the end of that line, and
  Right at the end of the last row does nothing. In `code_view.rs`, Right
  there wraps past the last row.
- Backspace at column 0 appends the line to the previous one, puts the
  column one past the join point and reuses the Left move. The caret lands
  at the join point, except that joining two empty lines panics, as
  described above.

## Model

| member | source | states |
|---|---|---|
| `Wrappers.Nth` | src/renderer/code_view.rs:118 | `nth(n)` walking the characters yields a character exactly when `n` is below the length, and then it is the `n`-th one |
| `Wrappers.Option.GetOr` | src/renderer/input.rs:249-250 | `unwrap_or`: the value when there is one, else the default; the x offsets of `EndOf` fall back to 0 through it |
| `TextBuffer.InsertAt` | src/renderer/input.rs:374 | inserting at `i` grows the sequence by one, puts the new element at `i`, keeps the elements before `i` and shifts the rest up by one |
| `TextBuffer.RemoveAt` | src/renderer/input.rs:347 | removing at `i` shrinks the sequence by one, keeps the elements before `i` and shifts the rest down by one |
| `TextBuffer.StripCarriageReturn` | src/renderer/input.rs:61-62 | `str::lines` drops at most one final '\r' from a line, and drops it exactly when the line ends with one |
| `TextBuffer.Lines` | src/renderer/input.rs:61-62 | `str::lines` yields no line exactly for the empty source; its lines carry no '\n' and number one per '\n' plus an unterminated tail (`TextBuffer.LinesHaveNoNewline`, `TextBuffer.LinesCount`) |
| `TextBuffer.SplitText` | src/renderer/input.rs:61-65 | the multi-line construction has no line exactly for the empty source; `TextBuffer.SplitTextCount` and `TextBuffer.JoinSplitText` pin its count and contents |
| `TextBuffer.LinesHaveNoNewline` | src/renderer/input.rs:61-62 | no line produced by `str::lines` contains '\n' |
| `TextBuffer.LinesCount` | src/renderer/input.rs:61-62 | `str::lines` yields one line per '\n', plus one for a final unterminated line |
| `TextBuffer.SplitTextCount` | src/renderer/input.rs:61-65 | the multi-line split yields no lines for an empty source, and otherwise one more line than there are newlines, counting the empty line added for a trailing '\n' |
| `TextBuffer.SingleLine` | src/renderer/input.rs:67-69 | the single-line assertion holds exactly when the source is non-empty and has no '\n' except possibly a final one |
| `TextBuffer.JoinSplitText` | src/renderer/code_view.rs:51-55 | for a source without '\r', joining the split lines with '\n' gives back the source, so the lines are the source's own lines plus one empty line exactly when it ends with '\n' |
| `Layout.PrefixStep` | src/renderer/code_view.rs:201-206 | stepping the caret over one character moves its x offset by that character's width |
| `Layout.LayoutGlyphs` | src/renderer/input.rs:195-205 | the layout produces one glyph per character |
| `Layout.LayoutGlyphsAt` | src/renderer/input.rs:195-205 | glyph `i` starts at the pen position plus the summed width of the characters before it, and is as wide as its character |
| `Layout.XPosition` | src/renderer/input.rs:187-217 | `cursor_x_position` is Some exactly when the line has a character and the column is at most its length, and then it is the summed width of the characters before the column, whether it comes from glyph `column`'s start or from the last glyph's end |
| `Layout.LineLength` | src/renderer/input.rs:151-168 | `line_length` is the line's summed character width, 0 for an empty line |
| `Layout.MaxWidthUnique` | src/renderer/input.rs:175-184 | the widest-line property has a single value |
| `Layout.MaxLineLength` | src/renderer/input.rs:170-185 | the fold returns a width no line exceeds, which is 0 or the width of some line, so it is max(0, widths) |
| `Navigation.LineEnd` | src/renderer/input.rs:262-266 | the end-of-line caret is a valid caret at column = line length |
| `Navigation.Clamped` | src/renderer/code_view.rs:152-165 | landing on a row keeps the column if the line is long enough, else the line's length: min(column, length), with x the width before it |
| `Navigation.MoveUp` | src/renderer/code_view.rs:148-170 | Up keeps the caret valid: one row up with the column clamped, or the start of row 0 |
| `Navigation.MoveDown` | src/renderer/code_view.rs:173-189 | Down to a following row lands on a valid caret with the column clamped |
| `Navigation.MoveLeft` | src/renderer/code_view.rs:128-145 | Left keeps the caret valid: one column left, the end of the previous row from column 0, or no change at the start |
| `Navigation.MoveRight` | src/renderer/code_view.rs:201-212 | Right keeps the caret placed, and on a line unless it wraps past the last one |
| `Navigation.RightUndoesLeft` | src/renderer/input.rs:257-302 | wherever Left moves the caret, Right moves it back to the same row, column and x |
| `Navigation.LeftUndoesRight` | src/renderer/input.rs:257-302 | wherever Right lands on a line, Left moves it back to the same row, column and x |
| `Navigation.DownThenUp` | src/renderer/input.rs:242-284 | Down then Up returns to the row with the column clamped by the lower line; the earlier column is not remembered |
| `Navigation.UpThenDown` | src/renderer/input.rs:242-284 | Up then Down returns to the row with the column clamped by the upper line |
| `TextInput.EndOf` | src/renderer/input.rs:262-266 | the caret placed at the end of a row, with the `unwrap_or(0.0)` fallback, is exactly the end-of-line caret `Navigation.LineEnd` |
| `TextInput.Settle` | src/renderer/input.rs:245-250 | landing on a row after Up or Down, keeping the column or falling back to the line's end, is exactly `Navigation.Clamped`: column min(column, length) with x the width before it |
| `TextInput.SpecialSafe` | src/renderer/input.rs:241-303 | the condition under which `input_special` indexes only existing lines and its Left unwrap succeeds; `TextInput.SpecialConsistent` shows every consistent cursor meets it, given a line for Down and Right |
| `TextInput.Special` | src/renderer/input.rs:241-303 | a key moves the cursor by at most one row, and keys other than the arrows leave it; `TextInput.SpecialUp`, `TextInput.SpecialLeft`, `TextInput.SpecialDown` and `TextInput.SpecialRight` equate each arrow with the `Navigation` moves |
| `TextInput.CharSafe` | src/renderer/input.rs:343-376 | the condition under which `input_char` runs without a panic; `TextInput.BackspacePanics` and `TextInput.BackspaceAtStart` characterise its Backspace cases |
| `TextInput.CharInput` | src/renderer/input.rs:341-379 | Enter adds one line, Backspace at column 0 of a later row removes one, and every other character keeps the line count; `TextInput.TypeCharacter`, `TextInput.TypeEnter` and the Backspace lemmas state the resulting lines and cursor |
| `TextInput.GraphemeIndex` | src/renderer/input.rs:369-373 | the edit index is the caret column, or the line's end when the column is past it |
| `TextInput.Cursor.constructor` | src/renderer/input.rs:18-31 | a new cursor is at row 0, column 0, x 0 |
| `TextInput.InputSpecial` | src/renderer/input.rs:220-304 | the cursor after an arrow key is `Special` of the old cursor; other keys change nothing |
| `TextInput.InputChar` | src/renderer/input.rs:317-380 | the lines and cursor after a character are `CharInput` of the old ones, and the returned width is the widest line's |
| `TextInput.SpecialUp` | src/renderer/input.rs:242-256 | Up from row > 0 goes one row up with column min(column, new length) and x the width before it; Up at row 0 goes to column 0 with x 0 |
| `TextInput.SpecialLeft` | src/renderer/input.rs:257-268 | Left goes to column-1 on the same row; from column 0 of row > 0 to the end of row-1; at (0,0) it does nothing; the unwrap never fails on a valid cursor |
| `TextInput.SpecialDown` | src/renderer/input.rs:269-284 | Down from a row that is not the last goes one row down with the column clamped; at the last row it goes to the end of that line |
| `TextInput.SpecialRight` | src/renderer/input.rs:285-302 | Right goes to column+1 inside a line, to (row+1, 0, x 0) at the end of a non-last row, and does nothing at the end of the last row |
| `TextInput.SpecialConsistent` | src/renderer/input.rs:241-304 | every key keeps `Consistent`: the cursor stays on a line with x equal to the width before it, or at the origin of a document with no lines; Down and Right need a line to exist, and every key is then safe |
| `TextInput.TypeCharacter` | src/renderer/input.rs:368-376 | typing inserts the character at the column, leaves the other lines and the line count unchanged and moves to (row, column+1) |
| `TextInput.TypeEnter` | src/renderer/input.rs:358-366 | Enter keeps the prefix at the row, inserts the suffix as a new line below it, grows the line count by one and moves to (row+1, 0, x 0) |
| `TextInput.BackspaceInLine` | src/renderer/input.rs:344-348 | Backspace at column > 0 deletes the character before the caret and moves to column-1 |
| `TextInput.BackspaceJoinsLines` | src/renderer/input.rs:349-355 | Backspace at column 0 of row > 0 appends the line onto row-1, removes it, and lands at (row-1, old length of row-1) |
| `TextInput.BackspaceAtStart` | src/renderer/input.rs:343-356 | Backspace at (0,0) does not panic and changes nothing, also on a document with no lines |
| `TextInput.BackspacePanics` | src/renderer/input.rs:343-356 | Backspace panics exactly when it deletes a line's only character or joins two empty lines |
| `TextInput.CharConsistent` | src/renderer/input.rs:341-377 | every edit that does not panic keeps the cursor invariant and leaves at least one line when there was one; on a document with no lines the only edit that does not panic is Backspace at the origin, which changes nothing |
| `TextInput.EnterThenBackspace` | src/renderer/input.rs:349-366 | on a non-empty line, Backspace right after Enter restores the lines and the cursor |
| `TextInput.TypeThenBackspace` | src/renderer/input.rs:343-376 | on a non-empty line, Backspace right after typing a character restores the lines and the cursor |
| `TextAreaWidget.TextArea.constructor` | src/renderer/input.rs:53-102 | a new area holds the split lines, or in single-line mode exactly one line; its cursor is at the origin and its max width is the widest line's |
| `TextAreaWidget.TextArea.InputSpecial` | src/renderer/input.rs:120-135 | the area's cursor moves as `input_special` says and stays consistent with the lines |
| `TextAreaWidget.TextArea.InputChar` | src/renderer/input.rs:137-148 | the area's lines and cursor change as `input_char` says, and the stored max width is the new widest line's |
| `CodeViewModel.ViewSafe` | src/renderer/code_view.rs:147-217 | the condition under which a key runs without a panic in the code view; `CodeViewModel.DownFromLastRowPanics`, `CodeViewModel.WrappedPastLastRow` and `CodeViewModel.BackAfterWrapRemovesPastEnd` exhibit the excluded inputs |
| `CodeViewModel.BackStep` | src/renderer/code_view.rs:213-217 | Back does the Left move and then shortens the caret's line by one character, leaving the line count and every other line unchanged |
| `CodeViewModel.ViewStep` | src/renderer/code_view.rs:127-219 | every handled key keeps the x offset equal to the width of the first `column` characters of the cursor's line; only Back changes the lines |
| `CodeViewModel.BackDeletesBefore` | src/renderer/code_view.rs:213-217 | Back at column > 0 deletes the character before the caret and moves to column-1 |
| `CodeViewModel.BackAtStart` | src/renderer/code_view.rs:213-217 | Back at (0,0) deletes the character under the caret and leaves the caret |
| `CodeViewModel.BackAfterWrapRemovesPastEnd` | src/renderer/code_view.rs:213-217 | Back from column 0 of a later row would remove at the previous line's length, which is out of range |
| `CodeViewModel.DownFromLastRowPanics` | src/renderer/code_view.rs:172-174 | Down from the last row is outside the safe condition, because the comparison with `text.len()` lets the row go past the last line |
| `CodeViewModel.WrappedPastLastRow` | src/renderer/code_view.rs:201-211 | Right at the end of the last line lands at column 0 of the row past the last line; from there Up and Left land on a line, and Right, Down and Back are unsafe |
| `CodeViewModel.CodeView.constructor` | src/renderer/code_view.rs:44-115 | the view holds the source's lines, with one empty line added when it ends with '\n', and the cursor at row 0, column 0, x 0 |
| `CodeViewModel.CodeView.GetChar` | src/renderer/code_view.rs:117-119 | `get_char` is the character at the column, or None past the end of the line |
| `CodeViewModel.CodeView.GetCharWidth` | src/renderer/code_view.rs:121-125 | `get_char_width` exists exactly where a character does, and it is the amount by which stepping over that character moves the caret's x |
| `CodeViewModel.CodeView.MeasureLine` | src/renderer/code_view.rs:158-164 | the counting loop ends with the line's summed width and its character count |
| `CodeViewModel.CodeView.MeasurePrefix` | src/renderer/code_view.rs:153-156 | the prefix loop ends with the summed width of the first `column` characters |
| `CodeViewModel.CodeView.HandleLeft` | src/renderer/code_view.rs:128-145 | the Left closure does the Left move: subtracting the width at column-1 from a valid x gives the width before column-1 |
| `CodeViewModel.CodeView.SettleOnRow` | src/renderer/code_view.rs:175-189 | after a row change, the column becomes min(column, new length) and x is re-summed to the width before it |
| `CodeViewModel.CodeView.Input` | src/renderer/code_view.rs:127-219 | one key press changes the lines and cursor as `ViewStep` says and keeps the x-offset invariant |
| `CodeViewModel.CodeView.Scroll` | src/renderer/code_view.rs:268-279 | the tally counts the lines and finds a width no line exceeds, which is 0 or some line's width |

## Left out

- GPU and drawing code has no effect on the text or the cursor, so it is
  not modelled. This covers rectangle and region construction, `resize`,
  caret rectangle placement, `redraw` and glyph queueing,
  `generate_glyph_text` and `regenerate_glyph_text`.
- The glyph layout of the font library is a foreign call. It is replaced
  by one glyph per character, placed side by side with widths from a total
  function.
- Floating-point pixel arithmetic is not modelled. That includes the scroll
  offset clamps in `scroll`, with the `line_count - 3` underflow, the caret
  y position, and `line_numbers_width`. Its digit lookups in the width map
  are not modelled either.
- Unicode segmentation is not modelled. Each character is one grapheme, one
  byte and one glyph.
- The `RenderElement` implementations are not modelled; `get_dimensions` is
  `todo!()` in the source.
- winit key codes are a small `Key` datatype: Up, Down, Left, Right, Back
  and Other.
- The `offset` and `scroll_offset` that `input_special` passes to the layout
  query are always zero from `TextArea`. The model uses a zero offset.
- The line vector that `input_char` takes by `&mut` is returned as
  `newText`. The `TextArea` wrapper stores it back in its field.
- `str::lines` is modelled as current Rust defines it: a '\r' is stripped
  only before a '\n'. Older Rust also stripped a bare '\r' at the very end
  of the source.
- `CodeViewModel.CodeView.GetCharWidth`: does not model the panic when a
  character is missing from `font_width_map`. The width map is a total
  function here.
- Integer widths are unbounded. `usize` overflow of row or column, which
  needs more than 2^64 key presses, is not modelled.
