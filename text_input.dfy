/**
 * The current editing engine (`src/renderer/input.rs`): a cursor object
 * updated in place by key and character events over a sequence of lines.
 * Caret x offsets come from `XPosition` (the glyph-layout query), falling
 * back to 0 where the source uses `unwrap_or(0.0)`. The screen offset the
 * source passes to the layout query is always zero and is not modelled.
 */
module TextInput {
  import opened Wrappers
  import opened TextBuffer
  import opened Layout
  import opened Navigation

  /** DEL, which `input_char` treats as Backspace. */
  const Delete: char := '\U{7F}'
  /** Carriage return, which `input_char` treats as Enter. */
  const Enter: char := '\r'

  /** The engine's invariant: the caret is on a line, or the document has no line and the caret is at the origin. */
  predicate Consistent(w: char -> nat, text: Text, c: Caret) {
    OnLine(w, text, c) || (text == [] && c == Origin)
  }

  // ---------------------------------------------------------------------------
  // Specification of `input_special`
  // ---------------------------------------------------------------------------

  /** The caret at the end of line `row`, with x 0 where the layout has no position. */
  function EndOf(w: char -> nat, text: Text, row: nat): (r: Caret)
    requires row < |text|
    ensures r == LineEnd(w, text, row)
  {
    var column := |text[row]|;
    Caret(row, column, XPosition(w, text, row, column).GetOr(0))
  }

  /** Up/Down landing on `row`: keep `column` where the layout has a position for it, else go to the end. */
  function Settle(w: char -> nat, text: Text, row: nat, column: nat): (r: Caret)
    requires row < |text|
    ensures r == Clamped(w, text, row, column)
  {
    match XPosition(w, text, row, column)
    case Some(x) => Caret(row, column, x)
    case None => EndOf(w, text, row)
  }

  /**
   * When `input_special` runs without a panic: every line it indexes exists,
   * `text.len() - 1` does not underflow, and the position unwrapped by Left
   * exists.
   */
  predicate SpecialSafe(text: Text, c: Caret, key: Key) {
    match key
    case Up => c.row != 0 ==> c.row - 1 < |text|
    case Left =>
      && (c.column != 0 ==> c.row < |text| && 0 < |text[c.row]| && c.column - 1 <= |text[c.row]|)
      && (c.column == 0 && c.row != 0 ==> c.row - 1 < |text|)
    case Down => c.row < |text|
    case Right => c.row < |text|
    case _ => true
  }

  /** The caret after `input_special`. */
  function Special(w: char -> nat, text: Text, c: Caret, key: Key): (r: Caret)
    requires SpecialSafe(text, c, key)
    ensures key == Back || key == Other ==> r == c
    ensures c.row <= r.row + 1 && r.row <= c.row + 1
  {
    match key
    case Up =>
      if c.row != 0 then Settle(w, text, c.row - 1, c.column)
      else Caret(c.row, 0, 0)
    case Left =>
      if c.column != 0 then
        Caret(c.row, c.column - 1, XPosition(w, text, c.row, c.column - 1).value)
      else if c.row != 0 then EndOf(w, text, c.row - 1)
      else c
    case Down =>
      if c.row != |text| - 1 then Settle(w, text, c.row + 1, c.column)
      else EndOf(w, text, c.row)
    case Right =>
      (match XPosition(w, text, c.row, c.column + 1)
       case Some(x) => Caret(c.row, c.column + 1, x)
       case None => if c.row != |text| - 1 then Caret(c.row + 1, 0, 0) else c)
    case _ => c
  }

  // ---------------------------------------------------------------------------
  // Specification of `input_char`
  // ---------------------------------------------------------------------------

  /** Byte index of grapheme `k` of `line`, or the line's length when there is no such grapheme. */
  function GraphemeIndex(line: Line, k: nat): (i: nat)
    ensures i == Min(k, |line|)
  {
    match Nth(line, k)
    case Some(_) => k
    case None => |line|
  }

  /**
   * When `input_char` runs without a panic. Every character but Backspace
   * indexes the caret's row, which must exist. Backspace inside a line needs
   * the grapheme before the caret, and the Left move it then makes unwraps a
   * layout position, which does not exist once the line is empty: deleting
   * the only character of a line panics. Backspace at column 0 joins two
   * lines and unwraps the same way, so joining two empty lines panics.
   * Backspace at (0,0) touches nothing, even on a document with no lines.
   */
  predicate CharSafe(text: Text, c: Caret, ch: char) {
    if ch == Delete then
      && (c.column != 0 ==> c.row < |text| && c.column <= |text[c.row]| && 2 <= |text[c.row]|)
      && (c.column == 0 && c.row != 0 ==> c.row < |text| && 0 < |text[c.row - 1]| + |text[c.row]|)
    else c.row < |text|
  }

  /** The document and caret after `input_char`. */
  function CharInput(w: char -> nat, text: Text, c: Caret, ch: char): (r: State)
    requires CharSafe(text, c, ch)
    ensures ch == Enter ==> |r.text| == |text| + 1
    ensures ch == Delete && c.column == 0 && c.row != 0 ==> |r.text| + 1 == |text|
    ensures ch != Enter && !(ch == Delete && c.column == 0 && c.row != 0) ==> |r.text| == |text|
  {
    if ch == Delete then
      if c.column != 0 then
        var line := text[c.row];
        var edited := text[c.row := RemoveAt(line, c.column - 1)];
        State(edited, Special(w, edited, c, Left))
      else if c.row != 0 then
        var line := text[c.row];
        var removed := RemoveAt(text, c.row);
        var row := c.row - 1;
        var joined := removed[row := removed[row] + line];
        State(joined, Special(w, joined, Caret(row, |removed[row]| + 1, c.x), Left))
      else State(text, c)
    else
      var line := text[c.row];
      if ch == Enter then
        var index := GraphemeIndex(line, c.column);
        var split := InsertAt(text[c.row := line[..index]], c.row + 1, line[index..]);
        State(split, Special(w, split, c, Right))
      else
        var index := GraphemeIndex(line, c.column);
        var typed := text[c.row := InsertAt(line, index, ch)];
        State(typed, Special(w, typed, c, Right))
  }

  // ---------------------------------------------------------------------------
  // The imperative engine
  // ---------------------------------------------------------------------------

  /** `Cursor`: the caret's row, column and x offset, updated in place. */
  class Cursor {
    var row: nat
    var column: nat
    var xOffset: nat

    constructor ()
      ensures row == 0 && column == 0 && xOffset == 0
    {
      row, column, xOffset := 0, 0, 0;
    }

    function Position(): Caret
      reads this
    {
      Caret(row, column, xOffset)
    }
  }

  /** `input_special`: moves the cursor for an arrow key; other keys change nothing. */
  method InputSpecial(w: char -> nat, key: Key, text: Text, cursor: Cursor)
    requires SpecialSafe(text, cursor.Position(), key)
    modifies cursor
    ensures cursor.Position() == Special(w, text, old(cursor.Position()), key)
  {
    match key {
      case Up =>
        if cursor.row != 0 {
          cursor.row := cursor.row - 1;
          var position := XPosition(w, text, cursor.row, cursor.column);
          if position.Some? {
            cursor.xOffset := position.value;
          } else {
            cursor.column := |text[cursor.row]|;
            cursor.xOffset := XPosition(w, text, cursor.row, cursor.column).GetOr(0);
          }
        } else {
          cursor.xOffset := 0;
          cursor.column := 0;
        }
      case Left =>
        if cursor.column != 0 {
          cursor.column := cursor.column - 1;
          cursor.xOffset := XPosition(w, text, cursor.row, cursor.column).value;
        } else if cursor.row != 0 {
          cursor.row := cursor.row - 1;
          cursor.column := |text[cursor.row]|;
          cursor.xOffset := XPosition(w, text, cursor.row, cursor.column).GetOr(0);
        }
      case Down =>
        if cursor.row != |text| - 1 {
          cursor.row := cursor.row + 1;
          var position := XPosition(w, text, cursor.row, cursor.column);
          if position.Some? {
            cursor.xOffset := position.value;
          } else {
            cursor.column := |text[cursor.row]|;
            cursor.xOffset := XPosition(w, text, cursor.row, cursor.column).GetOr(0);
          }
        } else {
          cursor.column := |text[cursor.row]|;
          cursor.xOffset := XPosition(w, text, cursor.row, cursor.column).GetOr(0);
        }
      case Right =>
        var position := XPosition(w, text, cursor.row, cursor.column + 1);
        if cursor.row != |text| - 1 {
          if position.Some? {
            cursor.column := cursor.column + 1;
            cursor.xOffset := position.value;
          } else {
            cursor.xOffset := 0;
            cursor.column := 0;
            cursor.row := cursor.row + 1;
          }
        } else if position.Some? {
          cursor.column := cursor.column + 1;
          cursor.xOffset := position.value;
        }
      case _ =>
    }
  }

  /**
   * `input_char`: Backspace, Enter or an ordinary character, edited into
   * `text` in place (returned as `newText`), followed by the Left or Right
   * move; returns the widest line's width.
   */
  method InputChar(w: char -> nat, ch: char, text: Text, cursor: Cursor) returns (newText: Text, maxLineWidth: nat)
    requires CharSafe(text, cursor.Position(), ch)
    modifies cursor
    ensures State(newText, cursor.Position()) == CharInput(w, text, old(cursor.Position()), ch)
    ensures IsMaxWidth(w, newText, maxLineWidth)
  {
    ghost var c := cursor.Position();
    newText := text;
    if ch == Delete {
      if cursor.column != 0 {
        var line := newText[cursor.row];
        var index := cursor.column - 1;
        newText := newText[cursor.row := RemoveAt(line, index)];
        assert CharInput(w, text, c, ch) == State(newText, Special(w, newText, c, Left));
        InputSpecial(w, Left, newText, cursor);
      } else if cursor.row != 0 {
        var removed := newText[cursor.row];
        newText := RemoveAt(newText, cursor.row);
        cursor.row := cursor.row - 1;
        cursor.column := |newText[cursor.row]| + 1;
        newText := newText[cursor.row := newText[cursor.row] + removed];
        assert cursor.Position() == Caret(c.row - 1, |RemoveAt(text, c.row)[c.row - 1]| + 1, c.x);
        assert CharInput(w, text, c, ch) == State(newText, Special(w, newText, cursor.Position(), Left));
        InputSpecial(w, Left, newText, cursor);
      }
    } else if ch == Enter {
      var line := newText[cursor.row];
      var index := GraphemeIndex(line, cursor.column);
      var afterEnter := line[index..];
      newText := newText[cursor.row := line[..index]];
      newText := InsertAt(newText, cursor.row + 1, afterEnter);
      assert CharInput(w, text, c, ch) == State(newText, Special(w, newText, c, Right));
      InputSpecial(w, Right, newText, cursor);
    } else {
      var line := newText[cursor.row];
      var index := GraphemeIndex(line, cursor.column);
      newText := newText[cursor.row := InsertAt(line, index, ch)];
      assert CharInput(w, text, c, ch) == State(newText, Special(w, newText, c, Right));
      InputSpecial(w, Right, newText, cursor);
    }
    maxLineWidth := MaxLineLength(w, newText);
  }

  // ---------------------------------------------------------------------------
  // What the engine does, in terms of the navigation definitions
  // ---------------------------------------------------------------------------

  /** Up: one row up with the column clamped to the new line, or to the start of row 0. */
  lemma SpecialUp(w: char -> nat, text: Text, c: Caret)
    requires Consistent(w, text, c)
    ensures SpecialSafe(text, c, Up)
    ensures Special(w, text, c, Up) == MoveUp(w, text, c)
    ensures Consistent(w, text, Special(w, text, c, Up))
  {
    if c.row != 0 {
      assert text[c.row - 1][..|text[c.row - 1]|] == text[c.row - 1];
    }
  }

  /** Left: one character left, or to the end of the previous line, or nothing at the start. */
  lemma SpecialLeft(w: char -> nat, text: Text, c: Caret)
    requires Consistent(w, text, c)
    ensures SpecialSafe(text, c, Left)
    ensures Special(w, text, c, Left) == MoveLeft(w, text, c)
    ensures Consistent(w, text, Special(w, text, c, Left))
  {
    if c.column == 0 && c.row != 0 {
      assert text[c.row - 1][..|text[c.row - 1]|] == text[c.row - 1];
    }
  }

  /** Down: one row down with the column clamped, or to the end of the last line. */
  lemma SpecialDown(w: char -> nat, text: Text, c: Caret)
    requires Consistent(w, text, c) && text != []
    ensures SpecialSafe(text, c, Down)
    ensures Special(w, text, c, Down)
         == if c.row + 1 < |text| then MoveDown(w, text, c) else LineEnd(w, text, c.row)
    ensures Consistent(w, text, Special(w, text, c, Down))
  {
    if c.row + 1 < |text| {
      assert text[c.row + 1][..|text[c.row + 1]|] == text[c.row + 1];
    } else {
      assert text[c.row][..|text[c.row]|] == text[c.row];
    }
  }

  /** Right: one character right, or to the start of the next line; nothing at the end of the last line. */
  lemma SpecialRight(w: char -> nat, text: Text, c: Caret)
    requires Consistent(w, text, c) && text != []
    ensures SpecialSafe(text, c, Right)
    ensures Special(w, text, c, Right)
         == if c.row + 1 < |text| || c.column < |text[c.row]| then MoveRight(w, text, c) else c
    ensures Consistent(w, text, Special(w, text, c, Right))
  {
  }

  /** Every key keeps the engine's invariant, given a line to stand on for Down and Right. */
  lemma SpecialConsistent(w: char -> nat, text: Text, c: Caret, key: Key)
    requires Consistent(w, text, c)
    requires key == Down || key == Right ==> text != []
    ensures SpecialSafe(text, c, key)
    ensures Consistent(w, text, Special(w, text, c, key))
  {
    match key {
      case Up => SpecialUp(w, text, c);
      case Left => SpecialLeft(w, text, c);
      case Down => SpecialDown(w, text, c);
      case Right => SpecialRight(w, text, c);
      case _ =>
    }
  }

  /**
   * Typing an ordinary character inserts it at the caret and moves the caret
   * one column right; no other line changes and the line count stays.
   */
  lemma TypeCharacter(w: char -> nat, text: Text, c: Caret, ch: char)
    requires Consistent(w, text, c) && text != []
    requires ch != Delete && ch != Enter
    ensures CharSafe(text, c, ch)
    ensures var line := InsertAt(text[c.row], c.column, ch);
            CharInput(w, text, c, ch)
            == State(text[c.row := line], Caret(c.row, c.column + 1, Prefix(w, line, c.column + 1)))
    ensures Consistent(w, CharInput(w, text, c, ch).text, CharInput(w, text, c, ch).caret)
  {
  }

  /**
   * Enter splits the caret's line at the caret: the part before stays, the
   * part after becomes a new line below it, and the caret goes to the start
   * of that new line.
   */
  lemma TypeEnter(w: char -> nat, text: Text, c: Caret)
    requires Consistent(w, text, c) && text != []
    ensures CharSafe(text, c, Enter)
    ensures var line := text[c.row];
            CharInput(w, text, c, Enter)
            == State(InsertAt(text[c.row := line[..c.column]], c.row + 1, line[c.column..]), Caret(c.row + 1, 0, 0))
    ensures |CharInput(w, text, c, Enter).text| == |text| + 1
    ensures Consistent(w, CharInput(w, text, c, Enter).text, CharInput(w, text, c, Enter).caret)
  {
    var line := text[c.row];
    var split := InsertAt(text[c.row := line[..c.column]], c.row + 1, line[c.column..]);
    assert split[c.row + 1][..0] == [];
  }

  /** Backspace inside a line deletes the character before the caret and moves one column left. */
  lemma BackspaceInLine(w: char -> nat, text: Text, c: Caret)
    requires Consistent(w, text, c) && text != []
    requires c.column != 0 && 2 <= |text[c.row]|
    ensures CharSafe(text, c, Delete)
    ensures var line := text[c.row];
            CharInput(w, text, c, Delete)
            == State(text[c.row := RemoveAt(line, c.column - 1)], Caret(c.row, c.column - 1, Prefix(w, line, c.column - 1)))
    ensures Consistent(w, CharInput(w, text, c, Delete).text, CharInput(w, text, c, Delete).caret)
  {
    var line := text[c.row];
    var shorter := RemoveAt(line, c.column - 1);
    assert shorter[..c.column - 1] == line[..c.column - 1];
    PrefixOfCommonStart(w, shorter, line, c.column - 1);
  }

  /**
   * Backspace at the start of a line appends it to the previous line and
   * removes it; the caret lands where the two lines meet.
   */
  lemma BackspaceJoinsLines(w: char -> nat, text: Text, c: Caret)
    requires Consistent(w, text, c) && text != []
    requires c.column == 0 && c.row != 0 && (text[c.row - 1] != [] || text[c.row] != [])
    ensures CharSafe(text, c, Delete)
    ensures var prev := text[c.row - 1];
            CharInput(w, text, c, Delete)
            == State(RemoveAt(text, c.row)[c.row - 1 := prev + text[c.row]], Caret(c.row - 1, |prev|, SumWidths(w, prev)))
    ensures |CharInput(w, text, c, Delete).text| == |text| - 1 >= 1
    ensures Consistent(w, CharInput(w, text, c, Delete).text, CharInput(w, text, c, Delete).caret)
  {
    var prev := text[c.row - 1];
    assert (prev + text[c.row])[..|prev|] == prev;
  }

  /** Backspace at the very start of the document changes nothing, also on a document with no lines. */
  lemma BackspaceAtStart(w: char -> nat, text: Text, c: Caret)
    requires Consistent(w, text, c)
    requires c.row == 0 && c.column == 0
    ensures CharSafe(text, c, Delete) && CharInput(w, text, c, Delete) == State(text, c)
  {
  }

  /**
   * Exactly when Backspace panics: it empties a line by deleting its only
   * character, or it joins two empty lines.
   */
  lemma BackspacePanics(w: char -> nat, text: Text, c: Caret)
    requires Consistent(w, text, c)
    ensures !CharSafe(text, c, Delete)
        <==> || (c.column != 0 && |text[c.row]| == 1)
             || (c.column == 0 && c.row != 0 && text[c.row - 1] == [] && text[c.row] == [])
  {
  }

  /**
   * Every edit that does not panic keeps the invariant, and leaves at least
   * one line when there was one; on a document with no lines only Backspace
   * at the origin runs, and it changes nothing.
   */
  lemma CharConsistent(w: char -> nat, text: Text, c: Caret, ch: char)
    requires Consistent(w, text, c) && CharSafe(text, c, ch)
    ensures Consistent(w, CharInput(w, text, c, ch).text, CharInput(w, text, c, ch).caret)
    ensures text != [] ==> CharInput(w, text, c, ch).text != []
    ensures text == [] ==> ch == Delete && CharInput(w, text, c, ch) == State(text, c)
  {
    if ch == Delete {
      if c.column != 0 {
        BackspaceInLine(w, text, c);
      } else if c.row != 0 {
        BackspaceJoinsLines(w, text, c);
      }
    } else if ch == Enter {
      TypeEnter(w, text, c);
    } else {
      TypeCharacter(w, text, c, ch);
    }
  }

  /** Removing what was just inserted gives back the original sequence. */
  lemma RemoveInserted<T>(s: seq<T>, i: nat, x: T)
    requires i <= |s|
    ensures RemoveAt(InsertAt(s, i, x), i) == s
  {
  }

  /** Backspace right after Enter joins the split line again and puts the caret back. */
  lemma EnterThenBackspace(w: char -> nat, text: Text, c: Caret)
    requires Consistent(w, text, c) && text != [] && text[c.row] != []
    ensures var s := CharInput(w, text, c, Enter);
            CharSafe(s.text, s.caret, Delete) && CharInput(w, s.text, s.caret, Delete) == State(text, c)
  {
    TypeEnter(w, text, c);
    var line := text[c.row];
    var before, after := line[..c.column], line[c.column..];
    var split := InsertAt(text[c.row := before], c.row + 1, after);
    var caret := Caret(c.row + 1, 0, 0);
    assert CharInput(w, text, c, Enter) == State(split, caret);
    BackspaceJoinsLines(w, split, caret);
    RemoveInserted(text[c.row := before], c.row + 1, after);
    assert before + after == line;
    assert RemoveAt(split, c.row + 1)[c.row := before + after] == text;
  }

  /** Backspace right after typing a character removes it and puts the caret back. */
  lemma TypeThenBackspace(w: char -> nat, text: Text, c: Caret, ch: char)
    requires Consistent(w, text, c) && text != [] && text[c.row] != []
    requires ch != Delete && ch != Enter
    ensures var s := CharInput(w, text, c, ch);
            CharSafe(s.text, s.caret, Delete) && CharInput(w, s.text, s.caret, Delete) == State(text, c)
  {
    TypeCharacter(w, text, c, ch);
    var s := CharInput(w, text, c, ch);
    var line := text[c.row];
    var longer := InsertAt(line, c.column, ch);
    BackspaceInLine(w, s.text, s.caret);
    assert RemoveAt(longer, c.column) == line;
    assert longer[..c.column] == line[..c.column];
    PrefixOfCommonStart(w, longer, line, c.column);
  }
}

/** `TextArea`: the widget state that `input_special` and `input_char` act on. */
module TextAreaWidget {
  import opened TextBuffer
  import opened Layout
  import opened Navigation
  import TextInput

  class TextArea {
    var text: Text
    const cursor: TextInput.Cursor
    var maxLineLength: nat
    const multiline: bool
    const width: char -> nat

    ghost predicate Valid()
      reads this, cursor
    {
      && TextInput.Consistent(width, text, cursor.Position())
      && IsMaxWidth(width, text, maxLineLength)
    }

    /**
     * `TextArea::_new`: the source's lines, with an empty last line when a
     * multi-line source ends with '\n'; a single-line area demands exactly
     * one line.
     */
    constructor (source: string, multiline: bool, width: char -> nat)
      requires multiline || |Lines(source)| == 1
      ensures Valid() && fresh(cursor)
      ensures text == (if multiline then SplitText(source) else Lines(source))
      ensures cursor.Position() == Origin
      ensures this.multiline == multiline && this.width == width
    {
      var splitText := Lines(source);
      if multiline && EndsWithNewline(source) {
        splitText := splitText + [[]];
      }
      var c := new TextInput.Cursor();
      var m := MaxLineLength(width, splitText);
      if splitText != [] {
        assert splitText[0][..0] == [];
      }
      this.width := width;
      this.multiline := multiline;
      cursor := c;
      text := splitText;
      maxLineLength := m;
    }

    /** `TextInput::input_special` for the area. */
    method InputSpecial(key: Key)
      requires Valid()
      requires key == Down || key == Right ==> text != []
      modifies cursor
      ensures Valid()
      ensures cursor.Position() == TextInput.Special(width, text, old(cursor.Position()), key)
    {
      TextInput.SpecialConsistent(width, text, cursor.Position(), key);
      TextInput.InputSpecial(width, key, text, cursor);
    }

    /** `TextInput::input_char` for the area; it keeps the returned widest-line width. */
    method InputChar(ch: char)
      requires Valid() && TextInput.CharSafe(text, cursor.Position(), ch)
      modifies this, cursor
      ensures Valid()
      ensures State(text, cursor.Position()) == TextInput.CharInput(width, old(text), old(cursor.Position()), ch)
    {
      TextInput.CharConsistent(width, text, cursor.Position(), ch);
      var newText, m := TextInput.InputChar(width, ch, text, cursor);
      text := newText;
      maxLineLength := m;
    }
  }
}
