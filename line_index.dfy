/** The line index of `byt::views::file`: the lines `regenerate_lines`
    finds in the document by scanning it character by character, and the
    line `current_line` picks for a cursor. Offsets count characters. */
module LineIndex {

  /** A line: its number (from 1), where it starts, how many characters
      of content it has and how many line-ending characters follow. */
  datatype Line = Line(number: nat, offset: nat, contentLength: nat, lineEndingLength: nat)
  {
    function ContentEnd(): nat { offset + contentLength }
    function Len(): nat { contentLength + lineEndingLength }
    function End(): nat { offset + Len() }
    function Start(): nat { offset }
  }

  /** A line's content ends inside it, its ending follows the content,
      and its effective length spans it from start to end. */
  lemma LineLayout(l: Line)
    ensures l.Start() <= l.ContentEnd() <= l.End()
    ensures l.End() - l.ContentEnd() == l.lineEndingLength
    ensures l.End() - l.Start() == l.Len()
  {
  }

  // ---------------------------------------------------------------------
  // The scan of `regenerate_lines`

  /** The variables of the scan: the lines pushed so far, the number of
      the next line, the characters seen, where the current line starts,
      and its content and line-ending characters so far. */
  datatype Scan = Scan(lines: seq<Line>, lineNumber: nat, offset: nat, lineOffset: nat,
                       numChars: nat, numEndingChars: nat)

  function InitialScan(): Scan
  {
    Scan([], 1, 0, 0, 0, 0)
  }

  /** One character of the scan: '\r' counts as a line ending, '\n'
      closes the line and starts the next one `numEndingChars` after the
      '\n', anything else is content. */
  function Step(st: Scan, c: char): Scan
  {
    if c == '\r' then
      st.(numEndingChars := st.numEndingChars + 1, offset := st.offset + 1)
    else if c == '\n' then
      var ending := st.numEndingChars + 1;
      Scan(st.lines + [Line(st.lineNumber, st.lineOffset, st.numChars, ending)],
           st.lineNumber + 1, st.offset + 1, st.offset + ending, 0, 0)
    else
      st.(numChars := st.numChars + 1, offset := st.offset + 1)
  }

  /** The scan after the characters of `text`. */
  function ScanOf(text: seq<char>): Scan
    decreases |text|
  {
    if text == [] then InitialScan() else Step(ScanOf(text[..|text| - 1]), text[|text| - 1])
  }

  /** The lines of a finished scan: a last line without a line ending
      when it has content. */
  function Finish(st: Scan): seq<Line>
  {
    if st.numChars > 0 then st.lines + [Line(st.lineNumber, st.lineOffset, st.numChars, 0)] else st.lines
  }

  /** The lines `regenerate_lines` builds for `text`: a single empty line
      for an empty document, the finished scan otherwise. */
  function LinesOf(text: seq<char>): seq<Line>
  {
    if |text| == 0 then [Line(1, 0, 0, 0)] else Finish(ScanOf(text))
  }

  // ---------------------------------------------------------------------
  // What the lines of a text are

  /** The text has no '\r': only '\n' ends lines. */
  predicate LineFeedOnly(text: seq<char>)
  {
    forall j :: 0 <= j < |text| ==> text[j] != '\r'
  }

  /** No '\n' between `from` and `to`. */
  ghost predicate NoNewlineIn(text: seq<char>, from: nat, to: nat)
  {
    forall j :: from <= j < to && j < |text| ==> text[j] != '\n'
  }

  /** Lines numbered 1, 2, ... */
  ghost predicate Numbered(lines: seq<Line>)
  {
    forall k :: 0 <= k < |lines| ==> lines[k].number == k + 1
  }

  /** Each line starts where the previous one ends. */
  ghost predicate Chained(lines: seq<Line>)
  {
    forall k :: 0 < k < |lines| ==> lines[k].offset == lines[k - 1].End()
  }

  /** `lines` is the line structure of `text`: at least one line,
      numbered from 1, from offset 0 to the end of the text, each starting
      where the previous one ends; each line's content holds no '\n' and
      is followed by exactly one '\n', except the last line, which may end
      the text without one; no line is empty unless the text is. */
  ghost predicate Splits(text: seq<char>, lines: seq<Line>)
  {
    |lines| > 0 &&
    lines[0].offset == 0 &&
    lines[|lines| - 1].End() == |text| &&
    Numbered(lines) && Chained(lines) &&
    (forall k :: 0 <= k < |lines| ==> lines[k].End() <= |text| && lines[k].lineEndingLength <= 1) &&
    (forall k :: 0 <= k < |lines| - 1 ==> lines[k].lineEndingLength == 1) &&
    (forall k :: 0 <= k < |lines| && lines[k].lineEndingLength == 1 ==> text[lines[k].ContentEnd()] == '\n') &&
    (forall k :: 0 <= k < |lines| ==> NoNewlineIn(text, lines[k].offset, lines[k].ContentEnd())) &&
    (|text| > 0 ==> forall k :: 0 <= k < |lines| ==> lines[k].Len() > 0)
  }

  /** What holds of the scan after the prefix `s` of a line-feed-only
      text. */
  ghost predicate ScanInv(s: seq<char>, st: Scan)
  {
    st.offset == |s| && st.numEndingChars == 0 &&
    st.lineOffset + st.numChars == |s| &&
    st.lineNumber == |st.lines| + 1 &&
    (|st.lines| == 0 ==> st.lineOffset == 0) &&
    (|st.lines| > 0 ==> st.lines[0].offset == 0 && st.lineOffset == st.lines[|st.lines| - 1].End()) &&
    Numbered(st.lines) && Chained(st.lines) &&
    (forall k :: 0 <= k < |st.lines| ==> st.lines[k].lineEndingLength == 1 && st.lines[k].End() <= |s|) &&
    (forall k :: 0 <= k < |st.lines| ==> s[st.lines[k].ContentEnd()] == '\n') &&
    (forall k :: 0 <= k < |st.lines| ==> NoNewlineIn(s, st.lines[k].offset, st.lines[k].ContentEnd())) &&
    NoNewlineIn(s, st.lineOffset, |s|)
  }

  /** A stretch without '\n' stays so when the text grows. */
  lemma NoNewlineGrow(s: seq<char>, c: char, from: nat, to: nat)
    requires to <= |s| && NoNewlineIn(s, from, to)
    ensures NoNewlineIn(s + [c], from, to)
  {
    forall j | from <= j < to && j < |s + [c]|
      ensures (s + [c])[j] != '\n'
    {
      assert (s + [c])[j] == s[j];
    }
  }

  /** The facts about earlier lines survive the text growing. */
  lemma EarlierLinesGrow(s: seq<char>, lines: seq<Line>, c: char)
    requires forall k :: 0 <= k < |lines| ==>
      lines[k].lineEndingLength == 1 && lines[k].End() <= |s| && s[lines[k].ContentEnd()] == '\n'
    requires forall k :: 0 <= k < |lines| ==> NoNewlineIn(s, lines[k].offset, lines[k].ContentEnd())
    ensures forall k :: 0 <= k < |lines| ==>
      lines[k].End() <= |s + [c]| && (s + [c])[lines[k].ContentEnd()] == '\n'
    ensures forall k :: 0 <= k < |lines| ==> NoNewlineIn(s + [c], lines[k].offset, lines[k].ContentEnd())
  {
    forall k | 0 <= k < |lines|
      ensures (s + [c])[lines[k].ContentEnd()] == '\n'
      ensures NoNewlineIn(s + [c], lines[k].offset, lines[k].ContentEnd())
    {
      assert (s + [c])[lines[k].ContentEnd()] == s[lines[k].ContentEnd()];
      NoNewlineGrow(s, c, lines[k].offset, lines[k].ContentEnd());
    }
  }

  /** A content character extends the current line. */
  lemma StepContent(s: seq<char>, st: Scan, c: char)
    requires ScanInv(s, st) && c != '\r' && c != '\n'
    ensures ScanInv(s + [c], Step(st, c))
  {
    var s' := s + [c];
    var st' := Step(st, c);
    assert st'.lines == st.lines && st'.lineOffset == st.lineOffset;
    EarlierLinesGrow(s, st.lines, c);
    NoNewlineGrow(s, c, st.lineOffset, |s|);
    assert NoNewlineIn(s', st.lineOffset, |s'|);
  }

  /** A line numbered next and starting where the last line ends keeps
      the lines numbered and chained. */
  lemma AppendLine(lines: seq<Line>, last: Line)
    requires Numbered(lines) && Chained(lines)
    requires last.number == |lines| + 1
    requires |lines| > 0 ==> last.offset == lines[|lines| - 1].End()
    ensures Numbered(lines + [last]) && Chained(lines + [last])
  {
    var r := lines + [last];
    assert forall k :: 0 <= k < |lines| ==> r[k] == lines[k];
  }

  /** Lines closed by a '\n' inside `s`, and one more. */
  lemma AppendClosed(s: seq<char>, lines: seq<Line>, last: Line)
    requires forall k :: 0 <= k < |lines| ==>
      lines[k].lineEndingLength == 1 && lines[k].End() <= |s| && s[lines[k].ContentEnd()] == '\n'
    requires forall k :: 0 <= k < |lines| ==> NoNewlineIn(s, lines[k].offset, lines[k].ContentEnd())
    requires last.lineEndingLength == 1 && last.End() <= |s| && s[last.ContentEnd()] == '\n'
    requires NoNewlineIn(s, last.offset, last.ContentEnd())
    ensures forall k :: 0 <= k < |lines| + 1 ==>
      (lines + [last])[k].lineEndingLength == 1 && (lines + [last])[k].End() <= |s| &&
      s[(lines + [last])[k].ContentEnd()] == '\n'
    ensures forall k :: 0 <= k < |lines| + 1 ==>
      NoNewlineIn(s, (lines + [last])[k].offset, (lines + [last])[k].ContentEnd())
  {
    var r := lines + [last];
    forall k | 0 <= k < |r|
      ensures r[k].lineEndingLength == 1 && r[k].End() <= |s| && s[r[k].ContentEnd()] == '\n'
      ensures NoNewlineIn(s, r[k].offset, r[k].ContentEnd())
    {
      if k < |lines| {
        assert r[k] == lines[k];
      } else {
        assert r[k] == last;
      }
    }
  }

  /** A '\n' closes the current line and starts the next after it. */
  lemma StepNewline(s: seq<char>, st: Scan)
    requires ScanInv(s, st)
    ensures ScanInv(s + ['\n'], Step(st, '\n'))
  {
    var s' := s + ['\n'];
    var line := Line(st.lineNumber, st.lineOffset, st.numChars, 1);
    EarlierLinesGrow(s, st.lines, '\n');
    NoNewlineGrow(s, '\n', st.lineOffset, |s|);
    assert s'[line.ContentEnd()] == '\n';
    AppendLine(st.lines, line);
    AppendClosed(s', st.lines, line);
    assert Step(st, '\n') == Scan(st.lines + [line], st.lineNumber + 1, |s'|, |s'|, 0, 0);
  }

  /** The scan of a line-feed-only text keeps the invariant throughout. */
  lemma {:induction false} ScanOfInv(s: seq<char>)
    requires LineFeedOnly(s)
    ensures ScanInv(s, ScanOf(s))
    decreases |s|
  {
    if s == [] {
      assert ScanOf(s) == InitialScan();
    } else {
      var p := s[..|s| - 1];
      var c := s[|s| - 1];
      assert LineFeedOnly(p) by {
        forall j | 0 <= j < |p| ensures p[j] != '\r' { assert p[j] == s[j]; }
      }
      ScanOfInv(p);
      assert s == p + [c];
      if c == '\n' {
        StepNewline(p, ScanOf(p));
      } else {
        StepContent(p, ScanOf(p), c);
      }
    }
  }

  /** `regenerate_lines` finds the line structure of every line-feed-only
      text. */
  lemma LinesOfSplits(text: seq<char>)
    requires LineFeedOnly(text)
    ensures Splits(text, LinesOf(text))
  {
    if |text| > 0 {
      ScanOfInv(text);
      if ScanOf(text).numChars > 0 {
        FinishWithLast(text, ScanOf(text));
      } else {
        FinishAtNewline(text, ScanOf(text));
      }
    }
  }

  /** A scan that ends inside a line adds that line without an ending. */
  lemma FinishWithLast(s: seq<char>, st: Scan)
    requires ScanInv(s, st) && st.numChars > 0
    ensures Splits(s, Finish(st))
  {
    var last := Line(st.lineNumber, st.lineOffset, st.numChars, 0);
    var r := st.lines + [last];
    assert Finish(st) == r;
    AppendLine(st.lines, last);
    forall k | 0 <= k < |r|
      ensures r[k].End() <= |s| && r[k].lineEndingLength <= 1 && r[k].Len() > 0
      ensures k < |r| - 1 ==> r[k].lineEndingLength == 1
      ensures r[k].lineEndingLength == 1 ==> s[r[k].ContentEnd()] == '\n'
      ensures NoNewlineIn(s, r[k].offset, r[k].ContentEnd())
    {
      if k < |st.lines| {
        assert r[k] == st.lines[k];
      } else {
        assert r[k] == last;
      }
    }
    assert r[0].offset == 0;
  }

  /** A scan that ends right after a '\n' keeps its lines. */
  lemma FinishAtNewline(s: seq<char>, st: Scan)
    requires ScanInv(s, st) && st.numChars == 0 && |s| > 0
    ensures Splits(s, Finish(st))
  {
    assert Finish(st) == st.lines;
    assert |st.lines| > 0;
  }

  /** A text that ends with '\n' gets no empty line after it: its last
      line ends with that '\n'. */
  lemma NoLineAfterFinalNewline(text: seq<char>)
    requires LineFeedOnly(text) && |text| > 0 && text[|text| - 1] == '\n'
    ensures LinesOf(text)[|LinesOf(text)| - 1].lineEndingLength == 1
    ensures LinesOf(text)[|LinesOf(text)| - 1].End() == |text|
  {
    LinesOfSplits(text);
  }

  // ---------------------------------------------------------------------
  // The current line

  /** The line holds the offset: from its start up to, not including, its
      end. */
  predicate Contains(line: Line, cursor: nat)
  {
    line.Start() <= cursor < line.End()
  }

  /** The loop of `current_line` from index `k`: the first line from there
      that holds the cursor, or `|lines|` if none does. */
  function FirstContaining(lines: seq<Line>, cursor: nat, k: nat): (r: nat)
    requires k <= |lines|
    ensures k <= r <= |lines|
    ensures r < |lines| ==> Contains(lines[r], cursor)
    ensures forall j :: k <= j < r ==> !Contains(lines[j], cursor)
    decreases |lines| - k
  {
    if k == |lines| then |lines|
    else if Contains(lines[k], cursor) then k
    else FirstContaining(lines, cursor, k + 1)
  }

  /** The index of the line `current_line` returns: the first line that
      holds the cursor, or line 0 when none does. */
  function CurrentIndex(lines: seq<Line>, cursor: nat): (i: nat)
    requires |lines| > 0
    ensures i < |lines|
    ensures (Contains(lines[i], cursor) && forall j :: 0 <= j < i ==> !Contains(lines[j], cursor)) ||
            (i == 0 && forall j :: 0 <= j < |lines| ==> !Contains(lines[j], cursor))
  {
    var r := FirstContaining(lines, cursor, 0);
    if r == |lines| then 0 else r
  }

  /** In the lines of a text every offset before the end of the text lies
      in some line. */
  lemma {:induction false} SomeLineContains(lines: seq<Line>, cursor: nat)
    requires |lines| > 0 && lines[0].offset == 0 && Chained(lines)
    requires cursor < lines[|lines| - 1].End()
    ensures exists k :: 0 <= k < |lines| && Contains(lines[k], cursor)
    decreases |lines|
  {
    var last := |lines| - 1;
    if cursor < lines[last].offset {
      assert last > 0;
      var init := lines[..last];
      assert init[|init| - 1] == lines[last - 1];
      assert Chained(init) by {
        forall k | 0 < k < |init| ensures init[k].offset == init[k - 1].End() {
          assert init[k] == lines[k] && init[k - 1] == lines[k - 1];
        }
      }
      SomeLineContains(init, cursor);
      var k :| 0 <= k < |init| && Contains(init[k], cursor);
      assert lines[k] == init[k];
    } else {
      assert Contains(lines[last], cursor);
    }
  }

  /** For the lines of a text, `current_line` returns the line that holds
      the cursor whenever the cursor is before the end of the text, and
      line 0 when the cursor is at the end. */
  lemma CurrentLineOfText(text: seq<char>, lines: seq<Line>, cursor: nat)
    requires Splits(text, lines) && cursor <= |text|
    ensures cursor < |text| ==> Contains(lines[CurrentIndex(lines, cursor)], cursor)
    ensures cursor == |text| ==> CurrentIndex(lines, cursor) == 0
  {
    if cursor < |text| {
      SomeLineContains(lines, cursor);
    }
  }
}
