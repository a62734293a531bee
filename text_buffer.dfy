/**
 * The text buffer shared by both editor engines: a document is a sequence of
 * lines, each line a sequence of characters. Every character is taken to be
 * one byte and one grapheme cluster, so byte, code-point and grapheme indices
 * into a line all coincide.
 */
module TextBuffer {

  type Line = seq<char>
  type Text = seq<Line>

  // ---------------------------------------------------------------------------
  // Splitting source text into lines (`str::lines` and the trailing-newline rule)
  // ---------------------------------------------------------------------------

  /** Index of the first '\n' in `s`, or `|s|` if there is none. */
  function FirstNewline(s: seq<char>): (i: nat)
    ensures i <= |s|
    ensures i < |s| ==> s[i] == '\n'
    ensures forall j :: 0 <= j < i ==> s[j] != '\n'
  {
    if s == [] then 0
    else if s[0] == '\n' then 0
    else 1 + FirstNewline(s[1..])
  }

  /** A line terminated by "\r\n" loses its '\r' as well. */
  function StripCarriageReturn(l: Line): (r: Line)
    ensures r == l <==> !(|l| > 0 && l[|l| - 1] == '\r')
    ensures r != l ==> r + ['\r'] == l
  {
    if |l| > 0 && l[|l| - 1] == '\r' then l[..|l| - 1] else l
  }

  /**
   * `str::lines`: the pieces between '\n' terminators, the final terminator
   * being optional, so an empty source has no lines and a trailing '\n' adds
   * no empty line.
   */
  function Lines(s: seq<char>): (ls: seq<Line>)
    ensures ls == [] <==> s == []
    decreases |s|
  {
    if s == [] then []
    else
      var i := FirstNewline(s);
      if i == |s| then [s]
      else [StripCarriageReturn(s[..i])] + Lines(s[i + 1..])
  }

  predicate EndsWithNewline(s: seq<char>) {
    |s| > 0 && s[|s| - 1] == '\n'
  }

  /**
   * The multi-line construction: the lines of `s`, plus one empty line when
   * `s` ends with '\n' so that the caret can rest on a fresh last line.
   */
  function SplitText(s: seq<char>): (ls: seq<Line>)
    ensures ls == [] <==> s == []
  {
    Lines(s) + (if EndsWithNewline(s) then [[]] else [])
  }

  /** Lines glued back together with '\n' between consecutive lines. */
  function Join(ls: seq<Line>): seq<char>
    decreases |ls|
  {
    if |ls| == 0 then []
    else if |ls| == 1 then ls[0]
    else ls[0] + ['\n'] + Join(ls[1..])
  }

  function NewlineCount(s: seq<char>): nat
    decreases |s|
  {
    if s == [] then 0
    else (if s[0] == '\n' then 1 else 0) + NewlineCount(s[1..])
  }

  // ---------------------------------------------------------------------------
  // Edits on a line and on the sequence of lines (`String::insert`/`remove`/
  // `split_off`, `Vec::insert`/`remove`)
  // ---------------------------------------------------------------------------

  /** `s` with `x` inserted before position `i`. */
  function InsertAt<T>(s: seq<T>, i: nat, x: T): (r: seq<T>)
    requires i <= |s|
    ensures |r| == |s| + 1 && r[i] == x
    ensures forall j :: 0 <= j < i ==> r[j] == s[j]
    ensures forall j :: i < j < |r| ==> r[j] == s[j - 1]
  {
    s[..i] + [x] + s[i..]
  }

  /** `s` with the element at position `i` taken out. */
  function RemoveAt<T>(s: seq<T>, i: nat): (r: seq<T>)
    requires i < |s|
    ensures |r| == |s| - 1
    ensures forall j :: 0 <= j < i ==> r[j] == s[j]
    ensures forall j :: i <= j < |r| ==> r[j] == s[j + 1]
  {
    s[..i] + s[i + 1..]
  }

  // ---------------------------------------------------------------------------
  // Lemmas
  // ---------------------------------------------------------------------------

  lemma {:induction false} NewlineCountAppend(a: seq<char>, b: seq<char>)
    ensures NewlineCount(a + b) == NewlineCount(a) + NewlineCount(b)
    decreases |a|
  {
    if a == [] {
      assert a + b == b;
    } else {
      assert (a + b)[1..] == a[1..] + b;
      NewlineCountAppend(a[1..], b);
    }
  }

  /** A piece of text has no newline exactly when its newline count is zero. */
  lemma {:induction false} NewlineCountZero(s: seq<char>)
    ensures NewlineCount(s) == 0 <==> forall j :: 0 <= j < |s| ==> s[j] != '\n'
    decreases |s|
  {
    if s != [] {
      NewlineCountZero(s[1..]);
      if NewlineCount(s) == 0 {
        forall j | 0 <= j < |s| ensures s[j] != '\n' {
          if j > 0 { assert s[j] == s[1..][j - 1]; }
        }
      } else if s[0] != '\n' {
        var k :| 0 <= k < |s[1..]| && s[1..][k] == '\n';
        assert s[k + 1] == '\n';
      }
    }
  }

  /** A piece of text before the first newline has no newline to count. */
  lemma NewlineCountBefore(s: seq<char>, i: nat)
    requires i <= |s|
    requires forall j :: 0 <= j < i ==> s[j] != '\n'
    ensures NewlineCount(s[..i]) == 0
  {
    assert forall j :: 0 <= j < |s[..i]| ==> s[..i][j] == s[j];
    NewlineCountZero(s[..i]);
  }

  /** A source text split at its first newline. */
  lemma SplitAtFirstNewline(s: seq<char>, i: nat)
    requires i < |s| && s[i] == '\n'
    requires forall j :: 0 <= j < i ==> s[j] != '\n'
    ensures NewlineCount(s) == 1 + NewlineCount(s[i + 1..])
    ensures EndsWithNewline(s) <==> s[i + 1..] == [] || EndsWithNewline(s[i + 1..])
  {
    var head, rest := s[..i], s[i + 1..];
    var tail := [s[i]] + rest;
    SplitAround(s, i);
    assert s == head + tail;
    NewlineCountBefore(s, i);
    assert tail[1..] == rest;
    NewlineCountAppend(head, tail);
    if rest != [] {
      EndsWithNewlineSuffix(s, i + 1);
    }
  }

  predicate NoNewlineIn(ls: seq<Line>) {
    forall k, j :: 0 <= k < |ls| && 0 <= j < |ls[k]| ==> ls[k][j] != '\n'
  }

  /** Prepending a line without a newline keeps a sequence of lines newline-free. */
  lemma NoNewlineCons(head: Line, tail: seq<Line>)
    requires forall j :: 0 <= j < |head| ==> head[j] != '\n'
    requires NoNewlineIn(tail)
    ensures NoNewlineIn([head] + tail)
  {
    var ls := [head] + tail;
    forall k, j | 0 <= k < |ls| && 0 <= j < |ls[k]| ensures ls[k][j] != '\n' {
      if k > 0 { assert ls[k] == tail[k - 1]; }
    }
  }

  /** The first line, before the first newline, has no newline. */
  lemma FirstLineNoNewline(s: seq<char>, i: nat)
    requires i <= |s|
    requires forall j :: 0 <= j < i ==> s[j] != '\n'
    ensures forall j :: 0 <= j < |StripCarriageReturn(s[..i])| ==> StripCarriageReturn(s[..i])[j] != '\n'
  {
    var head := s[..i];
    var r := StripCarriageReturn(head);
    forall j | 0 <= j < |r| ensures r[j] != '\n' {
      assert r[j] == head[j] == s[j];
    }
  }

  /** No line produced by `Lines` contains a newline. */
  lemma {:induction false} LinesHaveNoNewline(s: seq<char>)
    ensures NoNewlineIn(Lines(s))
    decreases |s|
  {
    if s != [] {
      var i := FirstNewline(s);
      if i < |s| {
        LinesHaveNoNewline(s[i + 1..]);
        LinesAtNewline(s, i);
        FirstLineNoNewline(s, i);
        NoNewlineCons(StripCarriageReturn(s[..i]), Lines(s[i + 1..]));
      } else {
        assert Lines(s) == [s];
        NoNewlineCons(s, []);
      }
    }
  }

  /**
   * `Lines` yields one line per newline, plus one for a final line that has
   * no terminator.
   */
  lemma {:induction false} LinesCount(s: seq<char>)
    ensures |Lines(s)| == NewlineCount(s) + (if s != [] && !EndsWithNewline(s) then 1 else 0)
    decreases |s|
  {
    if s != [] {
      var i := FirstNewline(s);
      if i == |s| {
        NewlineCountZero(s);
      } else {
        SplitAtFirstNewline(s, i);
        LinesCount(s[i + 1..]);
      }
    }
  }

  /**
   * The multi-line construction never yields zero lines for a non-empty
   * source: there is one line more than there are newlines.
   */
  lemma {:induction false} SplitTextCount(s: seq<char>)
    ensures s == [] ==> SplitText(s) == []
    ensures s != [] ==> |SplitText(s)| == NewlineCount(s) + 1
  {
    LinesCount(s);
  }

  /**
   * Single-line mode accepts a source exactly when it is non-empty and has no
   * newline except possibly a final one.
   */
  lemma {:induction false} SingleLine(s: seq<char>)
    ensures |Lines(s)| == 1 <==> s != [] && forall j :: 0 <= j < |s| - 1 ==> s[j] != '\n'
  {
    LinesCount(s);
    if s != [] {
      var n := |s| - 1;
      assert s == s[..n] + [s[n]];
      NewlineCountAppend(s[..n], [s[n]]);
      NewlineCountZero(s[..n]);
      assert forall j :: 0 <= j < n ==> s[..n][j] == s[j];
    }
  }

  lemma JoinCons(l: Line, ls: seq<Line>)
    requires ls != []
    ensures Join([l] + ls) == l + ['\n'] + Join(ls)
  {
    assert ([l] + ls)[1..] == ls;
  }

  /** `Lines` of a source, split at its first newline. */
  lemma LinesAtNewline(s: seq<char>, i: nat)
    requires i == FirstNewline(s) && i < |s|
    ensures Lines(s) == [StripCarriageReturn(s[..i])] + Lines(s[i + 1..])
  {
  }

  /** The multi-line construction of a source whose only newline is its last character. */
  lemma SplitTextAtLastNewline(s: seq<char>, i: nat)
    requires i == FirstNewline(s) && i == |s| - 1
    ensures SplitText(s) == [StripCarriageReturn(s[..i]), []]
  {
    LinesAtNewline(s, i);
    assert s[i + 1..] == [];
    assert EndsWithNewline(s);
  }

  /** A non-empty suffix ends in '\n' exactly when the whole sequence does. */
  lemma EndsWithNewlineSuffix(s: seq<char>, k: nat)
    requires k < |s|
    ensures EndsWithNewline(s[k..]) == EndsWithNewline(s)
  {
    assert s[k..][|s| - k - 1] == s[|s| - 1];
  }

  /** The multi-line construction of a source whose lines are a first line followed by the lines of `rest`. */
  lemma SplitTextCons(s: seq<char>, head: Line, rest: seq<char>)
    requires Lines(s) == [head] + Lines(rest)
    requires EndsWithNewline(s) == EndsWithNewline(rest)
    ensures SplitText(s) == [head] + SplitText(rest)
  {
    var e: seq<Line> := if EndsWithNewline(rest) then [[]] else [];
    calc {
      SplitText(s);
      Lines(s) + e;
      ([head] + Lines(rest)) + e;
      [head] + (Lines(rest) + e);
      [head] + SplitText(rest);
    }
  }

  /** The multi-line construction of a source, split at a first newline that is not its last character. */
  lemma SplitTextAtInnerNewline(s: seq<char>, i: nat)
    requires i == FirstNewline(s) && i < |s| - 1
    ensures SplitText(s) == [StripCarriageReturn(s[..i])] + SplitText(s[i + 1..])
  {
    LinesAtNewline(s, i);
    EndsWithNewlineSuffix(s, i + 1);
    SplitTextCons(s, StripCarriageReturn(s[..i]), s[i + 1..]);
  }

  /** One step of the round trip: the first line, a newline, and the lines of the rest. */
  lemma JoinSplitTextStep(s: seq<char>, head: Line, rest: seq<char>, tail: seq<Line>)
    requires s == head + ['\n'] + rest
    requires SplitText(s) == [head] + tail
    requires tail != [] && Join(tail) == rest
    ensures Join(SplitText(s)) == s
  {
    JoinCons(head, tail);
  }

  /** The round trip for a source with no newline: it is its own single line. */
  lemma JoinSplitTextNoNewline(s: seq<char>)
    requires s != [] && FirstNewline(s) == |s|
    ensures Join(SplitText(s)) == s
  {
    assert Lines(s) == [s];
    assert !EndsWithNewline(s);
    assert SplitText(s) == [s];
  }

  /** A line whose last character is not '\r' keeps all its characters. */
  lemma StripCarriageReturnKeeps(s: seq<char>, i: nat)
    requires i <= |s| && (i > 0 ==> s[i - 1] != '\r')
    ensures StripCarriageReturn(s[..i]) == s[..i]
  {
    if i > 0 {
      assert s[..i][i - 1] == s[i - 1];
    }
  }

  /** A sequence is what comes before position `i`, the element there, and what follows. */
  lemma SplitAround<T>(s: seq<T>, i: nat)
    requires i < |s|
    ensures s == s[..i] + [s[i]] + s[i + 1..]
  {
    assert s[..i] + [s[i]] == s[..i + 1];
  }

  /**
   * The round trip for a source whose first newline is at `i`, given the round
   * trip for what follows that newline.
   */
  lemma JoinSplitTextAt(s: seq<char>, i: nat)
    requires i == FirstNewline(s) && i < |s|
    requires i > 0 ==> s[i - 1] != '\r'
    requires s[i + 1..] != [] ==> Join(SplitText(s[i + 1..])) == s[i + 1..]
    ensures Join(SplitText(s)) == s
  {
    var head, rest := s[..i], s[i + 1..];
    StripCarriageReturnKeeps(s, i);
    SplitAround(s, i);
    if rest == [] {
      SplitTextAtLastNewline(s, i);
      JoinSplitTextStep(s, head, rest, [[]]);
    } else {
      SplitTextAtInnerNewline(s, i);
      SplitTextCount(rest);
      JoinSplitTextStep(s, head, rest, SplitText(rest));
    }
  }

  /**
   * Round trip: for a source without carriage returns, joining the lines of
   * the multi-line construction with '\n' gives back the source.
   */
  lemma {:induction false} JoinSplitText(s: seq<char>)
    requires forall j :: 0 <= j < |s| ==> s[j] != '\r'
    ensures Join(SplitText(s)) == s
    decreases |s|
  {
    if s != [] {
      var i := FirstNewline(s);
      if i == |s| {
        JoinSplitTextNoNewline(s);
      } else {
        var rest := s[i + 1..];
        if rest != [] {
          assert forall j :: 0 <= j < |rest| ==> rest[j] == s[i + 1 + j];
          JoinSplitText(rest);
        }
        JoinSplitTextAt(s, i);
      }
    }
  }
}
