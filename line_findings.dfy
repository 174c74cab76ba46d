/** Where the line index and the cursor moves of `byt::views::file` do
    something else than their tests and comments expect, shown on the
    model, and the behaviour they evidently intend, proved. */
module LineFindings {
  import opened LineIndex
  import opened FileViews

  /** The lines of "a\nb": "a\n" from 0 and "b" from 2. */
  lemma LinesOfTwo()
    ensures LinesOf("a\nb") == [Line(1, 0, 1, 1), Line(2, 2, 1, 0)]
  {
    var t := "a\nb";
    assert t[..2] == "a\n" && t[..2][..1] == "a" && t[..2][..1][..0] == [];
    assert ScanOf("a") == Scan([], 1, 1, 0, 1, 0);
    assert ScanOf("a\n") == Scan([Line(1, 0, 1, 1)], 2, 2, 2, 0, 0);
    assert ScanOf(t) == Scan([Line(1, 0, 1, 1)], 2, 3, 2, 1, 0);
  }

  // ---------------------------------------------------------------------
  // The current line at the end of the text

  /** As written: with the cursor at the end of "a\nb", no line holds it
      and `current_line` falls back to line 1, where its test expects
      line 2. */
  lemma EndOfTextFallsBackToFirstLine()
    ensures CurrentIndex(LinesOf("a\nb"), 3) == 0
    ensures LinesOf("a\nb")[CurrentIndex(LinesOf("a\nb"), 3)].number == 1
  {
    LinesOfTwo();
    assert !Contains(Line(1, 0, 1, 1), 3) && !Contains(Line(2, 2, 1, 0), 3);
  }

  /** The line the cursor is on, taking the end of the last line as part
      of it: the first line that holds the cursor, else the last line
      when the cursor is at its end, else line 0. */
  function CorrectedIndex(lines: seq<Line>, cursor: nat): (i: nat)
    requires |lines| > 0
    ensures i < |lines|
  {
    var r := FirstContaining(lines, cursor, 0);
    if r < |lines| then r
    else if cursor == lines[|lines| - 1].End() then |lines| - 1
    else 0
  }

  /** Corrected: for the lines of a text and a cursor in it, the line
      returned spans the cursor; before the end of the text it is the line
      `current_line` finds, and at the end it is the last line. */
  lemma CorrectedLineOfText(text: seq<char>, lines: seq<Line>, cursor: nat)
    requires Splits(text, lines) && cursor <= |text|
    ensures lines[CorrectedIndex(lines, cursor)].Start() <= cursor <= lines[CorrectedIndex(lines, cursor)].End()
    ensures cursor < |text| ==> CorrectedIndex(lines, cursor) == CurrentIndex(lines, cursor)
    ensures cursor == |text| ==> CorrectedIndex(lines, cursor) == |lines| - 1
    ensures lines[CorrectedIndex(lines, cursor)].number == CorrectedIndex(lines, cursor) + 1
  {
    CurrentLineOfText(text, lines, cursor);
    if cursor == |text| {
      assert FirstContaining(lines, cursor, 0) == |lines|;
    }
  }

  /** Corrected, on the test's input: the end of "a\nb" is on line 2. */
  lemma CorrectedEndOfTextOnLastLine()
    ensures CorrectedIndex(LinesOf("a\nb"), 3) == 1
    ensures LinesOf("a\nb")[CorrectedIndex(LinesOf("a\nb"), 3)].number == 2
  {
    LinesOfTwo();
    assert !Contains(Line(1, 0, 1, 1), 3) && !Contains(Line(2, 2, 1, 0), 3);
  }

  // ---------------------------------------------------------------------
  // Moving right at the end of the text

  /** As written: at the end of a text of several lines the current line
      is line 0, whose end is before the cursor, so `move_right` takes
      the cursor one past the end of the text; at the end of a text of one
      line it does not move, so a character typed there (and in an empty
      view) leaves the cursor before it. */
  lemma RightAtEndOfText(text: seq<char>, lines: seq<Line>)
    requires Splits(text, lines)
    ensures |lines| > 1 ==> RightTarget(lines, |text|) == |text| + 1
    ensures |lines| == 1 ==> RightTarget(lines, |text|) == |text|
  {
    CurrentLineOfText(text, lines, |text|);
    if |lines| > 1 {
      LinesOrdered(lines, 1, |lines| - 1);
      assert lines[|lines| - 1].Len() > 0 by {
        assert lines[0].lineEndingLength == 1;
      }
    }
  }

  /** As written, on an empty view: the line index is the single empty
      line, and `insert('a')` leaves the cursor at 0 where its test
      expects 1. */
  lemma InsertInEmptyViewStays()
    ensures Splits([], LinesOf([]))
    ensures RightTarget(LinesOf([]), 0) == 0
  {
    RightAtEndOfText([], LinesOf([]));
  }

  /** Where `move_right` puts the cursor when the current line is taken
      as `CorrectedIndex` does. */
  function CorrectedRight(lines: seq<Line>, cursor: nat): nat
    requires |lines| > 0
  {
    if cursor == lines[CorrectedIndex(lines, cursor)].End() then cursor else cursor + 1
  }

  /** Corrected: on the lines of a text, moving right never leaves the
      text, and moves one on everywhere before its end. */
  lemma CorrectedRightStaysInText(text: seq<char>, lines: seq<Line>, cursor: nat)
    requires Splits(text, lines) && cursor <= |text|
    ensures CorrectedRight(lines, cursor) <= |text|
    ensures cursor < |text| ==> CorrectedRight(lines, cursor) == cursor + 1
  {
    CorrectedLineOfText(text, lines, cursor);
    if cursor < |text| {
      CurrentLineOfText(text, lines, cursor);
      assert Contains(lines[CorrectedIndex(lines, cursor)], cursor);
    }
  }

  // ---------------------------------------------------------------------
  // Lines after "\r\n"

  /** As written: in "a\r\nb" the second line is put at 4, after the
      '\n' at 2 plus both ending characters, so it does not start where
      the first line ends (3) and it ends at 5, past the text. */
  lemma CrlfLineStartsPastItsStart()
    ensures LinesOf("a\r\nb") == [Line(1, 0, 1, 2), Line(2, 4, 1, 0)]
    ensures !Chained(LinesOf("a\r\nb"))
    ensures LinesOf("a\r\nb")[1].End() > |"a\r\nb"|
  {
    var t := "a\r\nb";
    assert t[..3] == "a\r\n" && t[..3][..2] == "a\r" && t[..3][..2][..1] == "a" && t[..3][..2][..1][..0] == [];
    assert ScanOf("a") == Scan([], 1, 1, 0, 1, 0);
    assert ScanOf("a\r") == Scan([], 1, 2, 0, 1, 1);
    assert ScanOf("a\r\n") == Scan([Line(1, 0, 1, 2)], 2, 3, 4, 0, 0);
    assert ScanOf(t) == Scan([Line(1, 0, 1, 2)], 2, 4, 4, 1, 0);
    assert LinesOf(t)[1].offset != LinesOf(t)[0].End();
  }

  /** The scan step with the next line starting right after the '\n'. */
  function FixedStep(st: Scan, c: char): Scan
  {
    if c == '\r' then
      st.(numEndingChars := st.numEndingChars + 1, offset := st.offset + 1)
    else if c == '\n' then
      Scan(st.lines + [Line(st.lineNumber, st.lineOffset, st.numChars, st.numEndingChars + 1)],
           st.lineNumber + 1, st.offset + 1, st.offset + 1, 0, 0)
    else
      st.(numChars := st.numChars + 1, offset := st.offset + 1)
  }

  function FixedScanOf(text: seq<char>): Scan
    decreases |text|
  {
    if text == [] then InitialScan() else FixedStep(FixedScanOf(text[..|text| - 1]), text[|text| - 1])
  }

  /** The lines of the fixed scan. */
  function FixedLinesOf(text: seq<char>): seq<Line>
  {
    if |text| == 0 then [Line(1, 0, 0, 0)] else Finish(FixedScanOf(text))
  }

  /** What holds of the fixed scan after any prefix `s`. */
  ghost predicate FixedInv(s: seq<char>, st: Scan)
  {
    st.offset == |s| && st.lineOffset + st.numChars + st.numEndingChars == |s| &&
    (|st.lines| == 0 ==> st.lineOffset == 0) &&
    (|st.lines| > 0 ==> st.lines[0].offset == 0 && st.lineOffset == st.lines[|st.lines| - 1].End()) &&
    Chained(st.lines) &&
    (forall k :: 0 <= k < |st.lines| ==> st.lines[k].End() <= |s|)
  }

  lemma {:induction false} FixedScanInv(s: seq<char>)
    ensures FixedInv(s, FixedScanOf(s))
    decreases |s|
  {
    if s != [] {
      var p := s[..|s| - 1];
      FixedScanInv(p);
      assert FixedScanOf(s) == FixedStep(FixedScanOf(p), s[|s| - 1]);
      if s[|s| - 1] == '\n' {
        FixedNewlineInv(p, FixedScanOf(p));
      }
    }
  }

  /** A '\n' closes the open line right where the chain of lines ends. */
  lemma FixedNewlineInv(p: seq<char>, st: Scan)
    requires FixedInv(p, st)
    ensures FixedInv(p + ['\n'], FixedStep(st, '\n'))
  {
    var r := FixedStep(st, '\n').lines;
    assert r == st.lines + [Line(st.lineNumber, st.lineOffset, st.numChars, st.numEndingChars + 1)];
    forall k | 0 < k < |r|
      ensures r[k].offset == r[k - 1].End()
    {
      if k < |st.lines| {
        assert r[k] == st.lines[k] && r[k - 1] == st.lines[k - 1];
      }
    }
    forall k | 0 <= k < |r|
      ensures r[k].End() <= |p| + 1
    {
      if k < |st.lines| {
        assert r[k] == st.lines[k];
      }
    }
  }

  /** Corrected: for every text, with '\r' in it or not, the lines start
      at 0, each starts where the previous one ends, and none ends past
      the text. */
  lemma FixedLinesChained(text: seq<char>)
    ensures |FixedLinesOf(text)| > 0 ==> FixedLinesOf(text)[0].offset == 0
    ensures Chained(FixedLinesOf(text))
    ensures forall k :: 0 <= k < |FixedLinesOf(text)| ==> FixedLinesOf(text)[k].End() <= |text|
  {
    if |text| > 0 {
      FixedScanInv(text);
      var st := FixedScanOf(text);
      if st.numChars > 0 {
        var r := Finish(st);
        assert forall k :: 0 <= k < |st.lines| ==> r[k] == st.lines[k];
        assert Chained(r);
      }
    }
  }

  /** Corrected, on "a\r\nb": the second line starts at 3. */
  lemma FixedCrlfLines()
    ensures FixedLinesOf("a\r\nb") == [Line(1, 0, 1, 2), Line(2, 3, 1, 0)]
  {
    var t := "a\r\nb";
    assert t[..3] == "a\r\n" && t[..3][..2] == "a\r" && t[..3][..2][..1] == "a" && t[..3][..2][..1][..0] == [];
    assert FixedScanOf("a") == Scan([], 1, 1, 0, 1, 0);
    assert FixedScanOf("a\r") == Scan([], 1, 2, 0, 1, 1);
    assert FixedScanOf("a\r\n") == Scan([Line(1, 0, 1, 2)], 2, 3, 3, 0, 0);
    assert FixedScanOf(t) == Scan([Line(1, 0, 1, 2)], 2, 4, 3, 1, 0);
  }

  /** The fix changes nothing for texts whose lines end in '\n' alone. */
  lemma {:induction false} FixedAgreesOnLineFeeds(text: seq<char>)
    requires LineFeedOnly(text)
    ensures FixedScanOf(text) == ScanOf(text)
    ensures FixedLinesOf(text) == LinesOf(text)
    decreases |text|
  {
    if text != [] {
      var p := text[..|text| - 1];
      assert LineFeedOnly(p) by {
        forall j | 0 <= j < |p| ensures p[j] != '\r' { assert p[j] == text[j]; }
      }
      FixedAgreesOnLineFeeds(p);
      ScanOfInv(p);
    }
  }
}
