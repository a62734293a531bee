/**
 * Caret navigation stated in terms of what it means: which row and column
 * the caret lands on, and that its x offset is the width of the characters
 * before it. Both editor engines are proved against these definitions.
 */
module Navigation {
  import opened TextBuffer
  import opened Layout

  /** Logical caret position (row, character column) and the x offset drawn for it. */
  datatype Caret = Caret(row: nat, column: nat, x: nat)

  const Origin := Caret(0, 0, 0)

  /** A document together with its caret. */
  datatype State = State(text: Text, caret: Caret)

  /** The keys the engines react to; every other key is `Other`. */
  datatype Key = Up | Down | Left | Right | Back | Other

  function Min(a: nat, b: nat): nat {
    if a <= b then a else b
  }

  /** The caret is on a line, not past its end, and its x offset is the width before it. */
  predicate OnLine(w: char -> nat, text: Text, c: Caret) {
    && c.row < |text|
    && c.column <= |text[c.row]|
    && c.x == Prefix(w, text[c.row], c.column)
  }

  /** On a line, or at column 0 just below the last line (where Right at the very end leads). */
  predicate Placed(w: char -> nat, text: Text, c: Caret) {
    OnLine(w, text, c) || (c.row == |text| && c.column == 0 && c.x == 0)
  }

  /** The caret after the last character of line `row`. */
  function LineEnd(w: char -> nat, text: Text, row: nat): (r: Caret)
    requires row < |text|
    ensures OnLine(w, text, r) && r.row == row && r.column == |text[row]|
  {
    assert text[row][..|text[row]|] == text[row];
    Caret(row, |text[row]|, SumWidths(w, text[row]))
  }

  /** Caret on line `row` at `column`, or at the end of the line if it is shorter. */
  function Clamped(w: char -> nat, text: Text, row: nat, column: nat): (r: Caret)
    requires row < |text|
    ensures OnLine(w, text, r) && r.row == row
    ensures r.column == Min(column, |text[row]|)
  {
    var col := Min(column, |text[row]|);
    Caret(row, col, Prefix(w, text[row], col))
  }

  /** One row up, keeping the column where the line is long enough; at row 0, to the start. */
  function MoveUp(w: char -> nat, text: Text, c: Caret): (r: Caret)
    requires Placed(w, text, c)
    ensures Placed(w, text, r)
    ensures OnLine(w, text, c) ==> OnLine(w, text, r)
  {
    if c.row != 0 then Clamped(w, text, c.row - 1, c.column)
    else
      assert |text| > 0 ==> text[0][..0] == [];
      Origin
  }

  /** One row down, keeping the column where the line is long enough. */
  function MoveDown(w: char -> nat, text: Text, c: Caret): (r: Caret)
    requires Placed(w, text, c) && c.row + 1 < |text|
    ensures OnLine(w, text, r)
  {
    Clamped(w, text, c.row + 1, c.column)
  }

  /** One character left, or to the end of the previous line from column 0; nothing at the start. */
  function MoveLeft(w: char -> nat, text: Text, c: Caret): (r: Caret)
    requires Placed(w, text, c)
    ensures Placed(w, text, r)
    ensures OnLine(w, text, c) ==> OnLine(w, text, r)
  {
    if c.column != 0 then Caret(c.row, c.column - 1, Prefix(w, text[c.row], c.column - 1))
    else if c.row != 0 then LineEnd(w, text, c.row - 1)
    else c
  }

  /** One character right, or to the start of the next row from the end of a line. */
  function MoveRight(w: char -> nat, text: Text, c: Caret): (r: Caret)
    requires Placed(w, text, c) && c.row < |text|
    ensures Placed(w, text, r)
    ensures c.row + 1 < |text| || c.column < |text[c.row]| ==> OnLine(w, text, r)
  {
    if c.column < |text[c.row]| then
      Caret(c.row, c.column + 1, Prefix(w, text[c.row], c.column + 1))
    else Caret(c.row + 1, 0, 0)
  }

  /** Right undoes Left wherever Left moves the caret. */
  lemma RightUndoesLeft(w: char -> nat, text: Text, c: Caret)
    requires Placed(w, text, c) && (c.column != 0 || c.row != 0)
    ensures MoveLeft(w, text, c).row < |text|
    ensures MoveRight(w, text, MoveLeft(w, text, c)) == c
  {
  }

  /** Left undoes Right wherever Right lands on a line. */
  lemma LeftUndoesRight(w: char -> nat, text: Text, c: Caret)
    requires OnLine(w, text, c) && (c.row + 1 < |text| || c.column < |text[c.row]|)
    ensures MoveLeft(w, text, MoveRight(w, text, c)) == c
  {
    var line := text[c.row];
    if c.column == |line| {
      assert line[..|line|] == line;
    }
  }

  /**
   * Down then Up returns to the row, but only to the column the shorter of
   * the two lines allows: a column cut by a shorter line is not remembered.
   */
  lemma DownThenUp(w: char -> nat, text: Text, c: Caret)
    requires OnLine(w, text, c) && c.row + 1 < |text|
    ensures MoveUp(w, text, MoveDown(w, text, c)) == Clamped(w, text, c.row, Min(c.column, |text[c.row + 1]|))
    ensures c.column <= |text[c.row + 1]| ==> MoveUp(w, text, MoveDown(w, text, c)) == c
  {
  }

  /** Up then Down, symmetrically. */
  lemma UpThenDown(w: char -> nat, text: Text, c: Caret)
    requires OnLine(w, text, c) && c.row > 0
    ensures MoveDown(w, text, MoveUp(w, text, c)) == Clamped(w, text, c.row, Min(c.column, |text[c.row - 1]|))
    ensures c.column <= |text[c.row - 1]| ==> MoveDown(w, text, MoveUp(w, text, c)) == c
  {
  }
}
