/**
 * The older editing engine (`src/renderer/code_view.rs`): a view whose
 * cursor row, column and x offset are fields updated step by step, with the
 * x offset kept as a running sum of per-character widths from a width map.
 */
module CodeViewModel {
  import opened Wrappers
  import opened TextBuffer
  import opened Layout
  import opened Navigation

  /**
   * When `CodeView::input` runs without a panic. Down reads the line below
   * the new row, which does not exist from the last row (the guard compares
   * the row with the line count instead of the last index). Right reads the
   * caret's line. Back first moves left; from column 0 of a later row that
   * puts the caret at the end of the previous line, where there is no
   * character to remove, and at the start of the document it removes the
   * character under the caret, so the first line must not be empty.
   */
  predicate ViewSafe(text: Text, c: Caret, key: Key) {
    match key
    case Down => c.row + 1 < |text|
    case Right => c.row < |text|
    case Back => c.column != 0 || (c.row == 0 && 0 < |text| && 0 < |text[0]|)
    case _ => true
  }

  /** Back: the Left move, then the character now under the caret is removed. */
  function BackStep(w: char -> nat, text: Text, c: Caret): (r: State)
    requires Placed(w, text, c) && ViewSafe(text, c, Back)
    ensures r.caret == MoveLeft(w, text, c) && r.caret.row < |text| == |r.text|
    ensures |r.text[r.caret.row]| + 1 == |text[r.caret.row]|
    ensures forall k :: 0 <= k < |text| && k != r.caret.row ==> r.text[k] == text[k]
  {
    var left := MoveLeft(w, text, c);
    State(text[left.row := RemoveAt(text[left.row], left.column)], left)
  }

  /**
   * The document and caret after one key. Every key keeps the caret placed:
   * its x offset stays the width of the characters before its column.
   */
  function ViewStep(w: char -> nat, text: Text, c: Caret, key: Key): (r: State)
    requires Placed(w, text, c) && ViewSafe(text, c, key)
    ensures Placed(w, r.text, r.caret)
    ensures key != Back ==> r.text == text
  {
    match key
    case Up => State(text, MoveUp(w, text, c))
    case Down => State(text, MoveDown(w, text, c))
    case Left => State(text, MoveLeft(w, text, c))
    case Right => State(text, MoveRight(w, text, c))
    case Back =>
      var r := BackStep(w, text, c);
      var line := text[r.caret.row];
      assert r.text[r.caret.row][..r.caret.column] == line[..r.caret.column];
      PrefixOfCommonStart(w, r.text[r.caret.row], line, r.caret.column);
      r
    case Other => State(text, c)
  }

  /** Back inside a line deletes the character before the caret and moves one column left. */
  lemma BackDeletesBefore(w: char -> nat, text: Text, c: Caret)
    requires Placed(w, text, c) && c.column != 0
    ensures c.row < |text| && ViewSafe(text, c, Back)
    ensures BackStep(w, text, c)
         == State(text[c.row := RemoveAt(text[c.row], c.column - 1)],
                  Caret(c.row, c.column - 1, Prefix(w, text[c.row], c.column - 1)))
  {
  }

  /** Back at the start of the document deletes the first character and leaves the caret. */
  lemma BackAtStart(w: char -> nat, text: Text, c: Caret)
    requires Placed(w, text, c) && c.row == 0 && c.column == 0 && 0 < |text| && 0 < |text[0]|
    ensures BackStep(w, text, c) == State(text[0 := text[0][1..]], c)
  {
    assert RemoveAt(text[0], 0) == text[0][1..];
  }

  /**
   * Back from column 0 of a later row moves to the end of the previous line,
   * so the removal would be at that line's length: there is nothing there.
   */
  lemma BackAfterWrapRemovesPastEnd(w: char -> nat, text: Text, c: Caret)
    requires Placed(w, text, c) && c.column == 0 && c.row != 0
    ensures MoveLeft(w, text, c).column == |text[MoveLeft(w, text, c).row]|
    ensures !ViewSafe(text, c, Back)
  {
  }

  /** Down from the last row reads the line below it, which does not exist. */
  lemma DownFromLastRowPanics(w: char -> nat, text: Text, c: Caret)
    requires OnLine(w, text, c) && c.row == |text| - 1
    ensures !ViewSafe(text, c, Down)
  {
  }

  /**
   * Right at the end of the last line wraps to column 0 of the row just past
   * the last line. From there Up and Left come back onto a line, while
   * Right, Down and Back panic.
   */
  lemma WrappedPastLastRow(w: char -> nat, text: Text)
    requires text != []
    ensures var c := MoveRight(w, text, LineEnd(w, text, |text| - 1));
            && c == Caret(|text|, 0, 0)
            && OnLine(w, text, MoveUp(w, text, c))
            && OnLine(w, text, MoveLeft(w, text, c))
            && !ViewSafe(text, c, Right) && !ViewSafe(text, c, Down) && !ViewSafe(text, c, Back)
  {
  }

  /** `CodeView`: the lines, the cursor fields and the character width map. */
  class CodeView {
    var text: Text
    var cursorRow: nat
    var cursorColumn: nat
    var cursorXOffset: nat
    const fontWidth: char -> nat

    function Position(): Caret
      reads this
    {
      Caret(cursorRow, cursorColumn, cursorXOffset)
    }

    /** The cursor x offset is the summed width of the characters before the cursor column. */
    ghost predicate Valid()
      reads this
    {
      Placed(fontWidth, text, Position())
    }

    /**
     * `CodeView::new`: the source's lines, plus an empty last line when the
     * source ends with '\n'; the cursor starts at row 0, column 0, x 0.
     */
    constructor (source: string, fontWidth: char -> nat)
      ensures Valid()
      ensures text == SplitText(source) && Position() == Origin && this.fontWidth == fontWidth
    {
      var splitText := Lines(source);
      if EndsWithNewline(source) {
        splitText := splitText + [[]];
      }
      if splitText != [] {
        assert splitText[0][..0] == [];
      }
      text := splitText;
      this.fontWidth := fontWidth;
      cursorRow, cursorColumn, cursorXOffset := 0, 0, 0;
    }

    /** `get_char`: the character at `column` of line `row`, if the line is that long. */
    function GetChar(row: nat, column: nat): (r: Option<char>)
      reads this
      requires row < |text|
      ensures r.Some? <==> column < |text[row]|
      ensures r.Some? ==> r.value == text[row][column]
    {
      Nth(text[row], column)
    }

    /** `get_char_width`: the width by which stepping over that character moves the cursor. */
    function GetCharWidth(row: nat, column: nat): (r: Option<nat>)
      reads this
      requires row < |text|
      ensures r.Some? <==> column < |text[row]|
      ensures r.Some? ==> Prefix(fontWidth, text[row], column + 1) == Prefix(fontWidth, text[row], column) + r.value
    {
      match GetChar(row, column)
      case Some(ch) =>
        PrefixStep(fontWidth, text[row], column);
        Some(fontWidth(ch))
      case None => None
    }

    /** The loop over all characters of a line: its width and its character count. */
    method MeasureLine(row: nat) returns (x: nat, count: nat)
      requires row < |text|
      ensures x == SumWidths(fontWidth, text[row]) && count == |text[row]|
    {
      x, count := 0, 0;
      for i := 0 to |text[row]|
        invariant count == i
        invariant x == Prefix(fontWidth, text[row], i)
      {
        count := count + 1;
        var width := GetCharWidth(row, i);
        x := x + width.value;
      }
      assert text[row][..|text[row]|] == text[row];
    }

    /** The loop over the first `n` characters of a line: their width. */
    method MeasurePrefix(row: nat, n: nat) returns (x: nat)
      requires row < |text| && n <= |text[row]|
      ensures x == Prefix(fontWidth, text[row], n)
    {
      x := 0;
      for i := 0 to n
        invariant x == Prefix(fontWidth, text[row], i)
      {
        var width := GetCharWidth(row, i);
        x := x + width.value;
      }
    }

    /** The `handle_left` closure: the Left move, with the x offset updated by subtraction or re-summed. */
    method HandleLeft()
      requires Valid()
      modifies this`cursorRow, this`cursorColumn, this`cursorXOffset
      ensures Valid()
      ensures Position() == MoveLeft(fontWidth, text, old(Position()))
    {
      if cursorColumn != 0 {
        cursorColumn := cursorColumn - 1;
        var width := GetCharWidth(cursorRow, cursorColumn);
        cursorXOffset := cursorXOffset - width.value;
      } else if cursorRow != 0 {
        cursorRow := cursorRow - 1;
        var x, count := MeasureLine(cursorRow);
        assert text[cursorRow][..|text[cursorRow]|] == text[cursorRow];
        cursorXOffset := x;
        cursorColumn := count;
      }
    }

    /** Up/Down landing on `cursorRow`: keep the column if a character is there, else go to the end. */
    method SettleOnRow()
      requires cursorRow < |text|
      modifies this`cursorColumn, this`cursorXOffset
      ensures Position() == Clamped(fontWidth, text, cursorRow, old(cursorColumn))
    {
      cursorXOffset := 0;
      if GetChar(cursorRow, cursorColumn).Some? {
        cursorXOffset := MeasurePrefix(cursorRow, cursorColumn);
      } else {
        var x, count := MeasureLine(cursorRow);
        assert text[cursorRow][..|text[cursorRow]|] == text[cursorRow];
        cursorXOffset := x;
        cursorColumn := count;
      }
    }

    /** `CodeView::input`: one key press. */
    method Input(key: Key)
      requires Valid() && ViewSafe(text, Position(), key)
      modifies this
      ensures Valid()
      ensures State(text, Position()) == ViewStep(fontWidth, old(text), old(Position()), key)
    {
      match key {
        case Up =>
          if cursorRow != 0 {
            cursorRow := cursorRow - 1;
            SettleOnRow();
          } else {
            cursorXOffset := 0;
            cursorColumn := 0;
          }
        case Left =>
          HandleLeft();
        case Down =>
          if cursorRow != |text| {
            cursorRow := cursorRow + 1;
            SettleOnRow();
          } else {
            // From a row equal to the line count the source reads a line that does not exist.
            assert false;
          }
        case Right =>
          var width := GetCharWidth(cursorRow, cursorColumn);
          if width.Some? {
            cursorXOffset := cursorXOffset + width.value;
            cursorColumn := cursorColumn + 1;
          } else {
            cursorXOffset := 0;
            cursorColumn := 0;
            cursorRow := cursorRow + 1;
          }
        case Back =>
          HandleLeft();
          text := text[cursorRow := RemoveAt(text[cursorRow], cursorColumn)];
        case Other =>
      }
    }

    /**
     * The tally at the start of `scroll`: the number of lines and the widest
     * line's summed character width (0 for no lines).
     */
    method Scroll() returns (lineCount: nat, maxLineWidth: nat)
      ensures lineCount == |text|
      ensures IsMaxWidth(fontWidth, text, maxLineWidth)
    {
      lineCount, maxLineWidth := 0, 0;
      for k := 0 to |text|
        invariant lineCount == k
        invariant forall i :: 0 <= i < k ==> SumWidths(fontWidth, text[i]) <= maxLineWidth
        invariant maxLineWidth == 0 || exists i :: 0 <= i < k && maxLineWidth == SumWidths(fontWidth, text[i])
      {
        lineCount := lineCount + 1;
        var lineWidth := SumWidths(fontWidth, text[k]);
        if lineWidth > maxLineWidth {
          maxLineWidth := lineWidth;
        }
      }
    }
  }
}
