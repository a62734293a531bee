/**
 * Measuring text: the glyph layout that the font library performs, reduced
 * to what the editor core reads from it. Each character is laid out as one
 * glyph; a glyph starts where the previous one ends, and its bounding width
 * equals its advance width, given by a per-character width function.
 */
module Layout {
  import opened Wrappers
  import opened TextBuffer

  /** Width of the characters of `s` laid side by side (the width fold of a line). */
  function SumWidths(w: char -> nat, s: seq<char>): nat
    decreases |s|
  {
    if s == [] then 0 else SumWidths(w, s[..|s| - 1]) + w(s[|s| - 1])
  }

  /** x offset of a caret standing before character `column` of `line`. */
  function Prefix(w: char -> nat, line: Line, column: nat): nat
    requires column <= |line|
  {
    SumWidths(w, line[..column])
  }

  /** A positioned glyph: where it starts on the line and how wide its bounds are. */
  datatype Glyph = Glyph(x: nat, width: nat)

  /** Lays `line` out from pen position `pen`, one glyph per character. */
  function LayoutGlyphs(w: char -> nat, line: Line, pen: nat): (gs: seq<Glyph>)
    ensures |gs| == |line|
    decreases |line|
  {
    if line == [] then []
    else [Glyph(pen, w(line[0]))] + LayoutGlyphs(w, line[1..], pen + w(line[0]))
  }

  lemma {:induction false} SumWidthsCons(w: char -> nat, c: char, s: seq<char>)
    ensures SumWidths(w, [c] + s) == w(c) + SumWidths(w, s)
    decreases |s|
  {
    if s == [] {
      assert [c] + s == [c];
      assert [c][..0] == [];
    } else {
      var n := |s| - 1;
      assert ([c] + s)[..|s|] == [c] + s[..n];
      SumWidthsCons(w, c, s[..n]);
    }
  }

  /** Moving the caret over one character advances it by that character's width. */
  lemma PrefixStep(w: char -> nat, line: Line, k: nat)
    requires k < |line|
    ensures Prefix(w, line, k + 1) == Prefix(w, line, k) + w(line[k])
  {
    assert line[..k + 1][..k] == line[..k];
  }

  /** Editing at or after `k` leaves the x offsets before `k` unchanged. */
  lemma PrefixOfCommonStart(w: char -> nat, a: Line, b: Line, k: nat)
    requires k <= |a| && k <= |b| && a[..k] == b[..k]
    ensures Prefix(w, a, k) == Prefix(w, b, k)
  {
  }

  /** Glyph `i` starts at the summed width of the characters before it. */
  lemma {:induction false} LayoutGlyphsAt(w: char -> nat, line: Line, pen: nat, i: nat)
    requires i < |line|
    ensures LayoutGlyphs(w, line, pen)[i] == Glyph(pen + Prefix(w, line, i), w(line[i]))
    decreases |line|
  {
    if i == 0 {
      assert line[..0] == [];
    } else {
      LayoutGlyphsAt(w, line[1..], pen + w(line[0]), i - 1);
      assert line[..i] == [line[0]] + line[1..][..i - 1];
      SumWidthsCons(w, line[0], line[1..][..i - 1]);
    }
  }

  /**
   * `cursor_x_position` with a zero screen offset: the start of glyph
   * `column` if there is one, else the end of glyph `column - 1`, else
   * nothing. It is defined exactly when the line has a glyph and `column`
   * does not pass its end, and then it is the width of the characters before
   * `column`.
   */
  function XPosition(w: char -> nat, text: Text, row: nat, column: nat): (r: Option<nat>)
    requires row < |text|
    ensures r.Some? <==> 0 < |text[row]| && column <= |text[row]|
    ensures r.Some? ==> r.value == Prefix(w, text[row], column)
  {
    var gs := LayoutGlyphs(w, text[row], 0);
    if column < |gs| then
      LayoutGlyphsAt(w, text[row], 0, column);
      Some(gs[column].x)
    else if column != 0 then
      if column - 1 < |gs| then
        LayoutGlyphsAt(w, text[row], 0, column - 1);
        PrefixStep(w, text[row], column - 1);
        Some(gs[column - 1].x + gs[column - 1].width)
      else None
    else None
  }

  /** `line_length`: the end of the last glyph, 0 for an empty line; this is the line's summed width. */
  function LineLength(w: char -> nat, line: Line): (r: nat)
    ensures r == SumWidths(w, line)
  {
    var gs := LayoutGlyphs(w, line, 0);
    if |gs| == 0 then 0
    else
      var last := |gs| - 1;
      LayoutGlyphsAt(w, line, 0, last);
      PrefixStep(w, line, last);
      assert line[..|line|] == line;
      gs[last].x + gs[last].width
  }

  /** `m` is the widest line's width, or 0 when there are no lines. */
  predicate IsMaxWidth(w: char -> nat, lines: seq<Line>, m: nat) {
    && (forall i :: 0 <= i < |lines| ==> SumWidths(w, lines[i]) <= m)
    && (m == 0 || exists i :: 0 <= i < |lines| && m == SumWidths(w, lines[i]))
  }

  /** `IsMaxWidth` pins down one value. */
  lemma MaxWidthUnique(w: char -> nat, lines: seq<Line>, m1: nat, m2: nat)
    requires IsMaxWidth(w, lines, m1) && IsMaxWidth(w, lines, m2)
    ensures m1 == m2
  {
    if m1 != 0 {
      var i :| 0 <= i < |lines| && m1 == SumWidths(w, lines[i]);
    }
    if m2 != 0 {
      var i :| 0 <= i < |lines| && m2 == SumWidths(w, lines[i]);
    }
  }

  /** `max_line_length`: folds the widest line width, starting from 0. */
  method MaxLineLength(w: char -> nat, lines: seq<Line>) returns (maxLineWidth: nat)
    ensures IsMaxWidth(w, lines, maxLineWidth)
  {
    maxLineWidth := 0;
    for k := 0 to |lines|
      invariant forall i :: 0 <= i < k ==> SumWidths(w, lines[i]) <= maxLineWidth
      invariant maxLineWidth == 0 || exists i :: 0 <= i < k && maxLineWidth == SumWidths(w, lines[i])
    {
      var width := LineLength(w, lines[k]);
      if width > maxLineWidth {
        maxLineWidth := width;
      }
    }
  }
}
