/** The view of `byt::views::file` over a buffer, as an object: a cursor,
    a viewport, the line index and a pending insertion. The buffer is the
    text it holds; its `insert` and `delete` splice that text. */
module FileViews {
  import opened LineIndex

  /** `n` clamped into `[lo, hi]`. */
  function Clamp(n: int, lo: int, hi: int): (r: int)
    requires lo <= hi
    ensures lo <= r <= hi
    ensures lo <= n <= hi ==> r == n
  {
    if n < lo then lo else if n > hi then hi else n
  }

  function Min(a: nat, b: nat): nat
  {
    if a <= b then a else b
  }

  /** Where `move_left` puts the cursor: one back, unless it is at the
      start of the current line. */
  function LeftTarget(lines: seq<Line>, cursor: nat): nat
    requires |lines| > 0
    requires cursor > 0 || lines[CurrentIndex(lines, cursor)].Start() == 0
  {
    if cursor == lines[CurrentIndex(lines, cursor)].Start() then cursor else cursor - 1
  }

  /** Where `move_right` puts the cursor: one on, unless it is at the end
      of the current line. */
  function RightTarget(lines: seq<Line>, cursor: nat): nat
    requires |lines| > 0
  {
    if cursor == lines[CurrentIndex(lines, cursor)].End() then cursor else cursor + 1
  }

  /** The line `move_lines(delta)` goes to: the current line's number
      (less one) plus `delta`, clamped to the lines there are. */
  function DestIndex(lines: seq<Line>, cursor: nat, delta: int): (d: nat)
    requires |lines| > 0 && lines[CurrentIndex(lines, cursor)].number >= 1
    ensures d < |lines|
  {
    Clamp(lines[CurrentIndex(lines, cursor)].number - 1 + delta, 0, |lines| - 1)
  }

  /** Where `move_lines(delta)` puts the cursor: as far into the
      destination line as it was into the current one, but not past the
      destination's content. */
  function LinesTarget(lines: seq<Line>, cursor: nat, delta: int): nat
    requires |lines| > 0 && lines[CurrentIndex(lines, cursor)].number >= 1
    requires lines[CurrentIndex(lines, cursor)].Start() <= cursor
  {
    var d := DestIndex(lines, cursor, delta);
    Min(lines[d].contentLength, cursor - lines[CurrentIndex(lines, cursor)].Start()) + lines[d].Start()
  }

  // ---------------------------------------------------------------------
  // Cursor moves over the lines of a text

  /** Within the text, `move_left` stays in the current line and moves by
      at most one. */
  lemma LeftStaysInLine(text: seq<char>, lines: seq<Line>, cursor: nat)
    requires Splits(text, lines) && cursor < |text|
    ensures cursor > 0 || lines[CurrentIndex(lines, cursor)].Start() == 0
    ensures lines[CurrentIndex(lines, cursor)].Start() <= LeftTarget(lines, cursor) <= cursor
    ensures cursor - LeftTarget(lines, cursor) <= 1
    ensures LeftTarget(lines, cursor) == cursor <==> cursor == lines[CurrentIndex(lines, cursor)].Start()
  {
    CurrentLineOfText(text, lines, cursor);
  }

  /** Within the text, `move_right` always moves one on, to at most the
      end of the current line. */
  lemma RightWithinText(text: seq<char>, lines: seq<Line>, cursor: nat)
    requires Splits(text, lines) && cursor < |text|
    ensures RightTarget(lines, cursor) == cursor + 1
    ensures RightTarget(lines, cursor) <= lines[CurrentIndex(lines, cursor)].End()
  {
    CurrentLineOfText(text, lines, cursor);
  }

  /** On the lines of a text, `move_lines(delta)` goes `delta` lines from
      the line that holds the cursor, clamped to the first and last line,
      lands inside the destination's content, and, when it lands before
      the end of the text, the destination is the new current line. */
  lemma MoveLinesLands(text: seq<char>, lines: seq<Line>, cursor: nat, delta: int)
    requires Splits(text, lines) && cursor < |text|
    ensures lines[CurrentIndex(lines, cursor)].number >= 1
    ensures lines[CurrentIndex(lines, cursor)].Start() <= cursor
    ensures DestIndex(lines, cursor, delta) == Clamp(CurrentIndex(lines, cursor) + delta, 0, |lines| - 1)
    ensures lines[DestIndex(lines, cursor, delta)].Start() <= LinesTarget(lines, cursor, delta)
    ensures LinesTarget(lines, cursor, delta) <= lines[DestIndex(lines, cursor, delta)].ContentEnd()
    ensures LinesTarget(lines, cursor, delta) < |text| ==>
      CurrentIndex(lines, LinesTarget(lines, cursor, delta)) == DestIndex(lines, cursor, delta)
  {
    CurrentLineOfText(text, lines, cursor);
    var d := DestIndex(lines, cursor, delta);
    var t := LinesTarget(lines, cursor, delta);
    if t < |text| {
      assert Contains(lines[d], t) by {
        if lines[d].lineEndingLength == 0 {
          assert d == |lines| - 1;
        }
      }
      OnlyOneLineContains(text, lines, t, d);
    }
  }

  /** No two lines of a text hold the same offset. */
  lemma OnlyOneLineContains(text: seq<char>, lines: seq<Line>, cursor: nat, d: nat)
    requires Splits(text, lines) && d < |lines| && Contains(lines[d], cursor)
    ensures CurrentIndex(lines, cursor) == d
  {
    var i := CurrentIndex(lines, cursor);
    if i < d {
      LinesOrdered(lines, i + 1, d);
    }
  }

  /** A later line of a text starts no earlier than an earlier one ends. */
  lemma {:induction false} LinesOrdered(lines: seq<Line>, i: nat, j: nat)
    requires Chained(lines) && 0 < i <= j < |lines|
    ensures lines[i - 1].End() <= lines[j].Start()
    decreases j - i
  {
    if i < j {
      LinesOrdered(lines, i, j - 1);
    }
  }

  /** The line `current_line` returns lies inside the text, so deleting
      it asks the buffer for no byte past its end. */
  lemma CurrentLineInText(text: seq<char>, lines: seq<Line>, cursor: nat)
    requires Splits(text, lines)
    ensures lines[CurrentIndex(lines, cursor)].End() <= |text|
  {
  }

  // ---------------------------------------------------------------------
  // The view

  class FileView {
    /** The text of the underlying buffer. */
    var doc: seq<char>
    /** The location of the cursor. */
    var cursorOffset: nat
    /** The index of the line at the top of the viewport. */
    var viewportTop: nat
    /** The line index, rebuilt after edits that go through the buffer. */
    var lines: seq<Line>
    var renderLines: bool
    var renderCursor: bool
    /** Characters typed but not yet given to the buffer. */
    var insertion: seq<char>
    /** Where the pending insertion goes. */
    var insertStart: nat

    /** `len()`: the buffer's length plus the pending insertion. */
    function Len(): nat
      reads this
    {
      |insertion| + |doc|
    }

    /** `empty()`: a view over an empty in-memory buffer. */
    constructor Empty()
      ensures doc == [] && cursorOffset == 0 && viewportTop == 0
      ensures lines == [Line(1, 0, 0, 0)] && Splits(doc, lines)
      ensures renderLines && renderCursor && insertion == [] && insertStart == 0
    {
      doc := [];
      cursorOffset := 0;
      viewportTop := 0;
      lines := [];
      renderLines := true;
      renderCursor := true;
      insertion := [];
      insertStart := 0;
      new;
      RegenerateLines();
    }

    /** `new(path)` over a file that holds `contents`. */
    constructor Open(contents: seq<char>)
      ensures doc == contents && cursorOffset == 0 && viewportTop == 0
      ensures lines == LinesOf(contents)
      ensures LineFeedOnly(contents) ==> Splits(doc, lines)
      ensures renderLines && renderCursor && insertion == [] && insertStart == 0
    {
      doc := contents;
      cursorOffset := 0;
      viewportTop := 0;
      lines := [];
      renderLines := true;
      renderCursor := true;
      insertion := [];
      insertStart := 0;
      new;
      RegenerateLines();
    }

    /** `regenerate_lines`: scan the whole text for lines. */
    method RegenerateLines()
      modifies this`lines
      ensures lines == LinesOf(doc)
      ensures LineFeedOnly(doc) ==> Splits(doc, lines)
    {
      if LineFeedOnly(doc) {
        LinesOfSplits(doc);
      }
      var length := |doc|;
      var text := doc;
      lines := [];
      if length == 0 {
        lines := lines + [Line(1, 0, 0, 0)];
        return;
      }
      var lineNumber := 1;
      var offset := 0;
      var lineOffset := 0;
      var numChars := 0;
      var numEndingChars := 0;
      assert text[..0] == [];
      for index := 0 to |text|
        invariant ScanOf(text[..index]) == Scan(lines, lineNumber, offset, lineOffset, numChars, numEndingChars)
      {
        var c := text[index];
        if c == '\r' {
          numEndingChars := numEndingChars + 1;
        } else if c == '\n' {
          numEndingChars := numEndingChars + 1;
          lines := lines + [Line(lineNumber, lineOffset, numChars, numEndingChars)];
          lineOffset := offset + numEndingChars;
          lineNumber := lineNumber + 1;
          numChars := 0;
          numEndingChars := 0;
        } else {
          numChars := numChars + 1;
        }
        offset := offset + 1;
        assert text[..index + 1][..index] == text[..index];
      }
      assert text[..|text|] == text;
      if numChars > 0 {
        lines := lines + [Line(lineNumber, lineOffset, numChars, 0)];
      }
    }

    /** `backspace`: at offset 0 nothing; otherwise drop the last pending
        character or, with none pending, delete the byte before the
        cursor from the buffer (the lines are not rebuilt), then move
        left. */
    method Backspace()
      requires |lines| > 0
      requires cursorOffset > 0 && insertion == [] ==> cursorOffset <= |doc|
      modifies this`insertion, this`doc, this`cursorOffset, this`renderLines, this`renderCursor
      ensures old(cursorOffset) == 0 ==>
        insertion == old(insertion) && doc == old(doc) && cursorOffset == 0 && renderLines == old(renderLines)
      ensures old(cursorOffset) > 0 && old(insertion) != [] ==>
        insertion == old(insertion)[..|old(insertion)| - 1] && doc == old(doc)
      ensures old(cursorOffset) > 0 && old(insertion) == [] ==>
        insertion == [] && doc == old(doc)[..old(cursorOffset) - 1] + old(doc)[old(cursorOffset)..]
      ensures old(cursorOffset) > 0 ==> cursorOffset == LeftTarget(lines, old(cursorOffset)) && renderLines
    {
      if cursorOffset == 0 {
        return;
      }
      if |insertion| > 0 {
        insertion := insertion[..|insertion| - 1];
      } else if cursorOffset > 0 {
        doc := doc[..cursorOffset - 1] + doc[cursorOffset..];
      }
      MoveLeft();
      renderLines := true;
    }

    /** `current_line`: the first line that holds the cursor, or the
        first line. */
    method CurrentLine() returns (line: Line)
      requires |lines| > 0
      ensures line == lines[CurrentIndex(lines, cursorOffset)]
    {
      var offset := cursorOffset;
      var index := 0;
      while index < |lines|
        invariant index <= |lines|
        invariant FirstContaining(lines, offset, 0) == FirstContaining(lines, offset, index)
      {
        if offset >= lines[index].Start() && offset < lines[index].End() {
          return lines[index];
        }
        index := index + 1;
      }
      return lines[0];
    }

    /** `delete(offset, num_bytes)`: nothing at or past the end of the
        text; otherwise a cursor inside the range goes to its start, the
        range leaves the buffer and the lines are rebuilt. */
    method Delete(offset: nat, numBytes: nat)
      requires offset < |doc| ==> offset + numBytes <= |doc|
      modifies this`doc, this`cursorOffset, this`renderCursor, this`lines, this`renderLines
      ensures offset >= |old(doc)| ==>
        doc == old(doc) && cursorOffset == old(cursorOffset) && lines == old(lines) && renderLines == old(renderLines)
      ensures offset < |old(doc)| ==>
        doc == old(doc)[..offset] + old(doc)[offset + numBytes..] &&
        lines == LinesOf(doc) && renderLines &&
        cursorOffset == (if offset <= old(cursorOffset) <= offset + numBytes then offset else old(cursorOffset))
    {
      if offset >= |doc| {
        return;
      }
      if cursorOffset >= offset && cursorOffset <= offset + numBytes {
        SetCursor(offset);
      }
      doc := doc[..offset] + doc[offset + numBytes..];
      RegenerateLines();
      renderLines := true;
    }

    /** `delete_current_line`: delete the current line with its ending. */
    method DeleteCurrentLine()
      requires |lines| > 0
      requires lines[CurrentIndex(lines, cursorOffset)].Start() < |doc| ==>
        lines[CurrentIndex(lines, cursorOffset)].End() <= |doc|
      modifies this`doc, this`cursorOffset, this`renderCursor, this`lines, this`renderLines
      ensures var line := old(lines)[CurrentIndex(old(lines), old(cursorOffset))];
        line.Start() < |old(doc)| ==>
          doc == old(doc)[..line.Start()] + old(doc)[line.End()..] && lines == LinesOf(doc) &&
          cursorOffset == (if line.Start() <= old(cursorOffset) <= line.End() then line.Start() else old(cursorOffset))
      ensures var line := old(lines)[CurrentIndex(old(lines), old(cursorOffset))];
        line.Start() >= |old(doc)| ==> doc == old(doc) && lines == old(lines) && cursorOffset == old(cursorOffset)
    {
      var line := CurrentLine();
      var offset := line.Start();
      var length := line.Len();
      Delete(offset, length);
    }

    /** `done_inserting`: give the pending insertion to the buffer at its
        start, put the cursor after it, and rebuild the lines. */
    method DoneInserting()
      requires insertion != [] ==> insertStart <= |doc|
      modifies this`doc, this`cursorOffset, this`renderCursor, this`insertion, this`lines, this`renderLines
      ensures old(insertion) == [] ==> doc == old(doc) && cursorOffset == old(cursorOffset) && lines == old(lines)
      ensures old(insertion) != [] ==>
        doc == old(doc)[..insertStart] + old(insertion) + old(doc)[insertStart..] &&
        cursorOffset == insertStart + |old(insertion)| && lines == LinesOf(doc) && renderLines
      ensures insertion == [] && Len() == old(Len())
    {
      if insertion == [] {
        return;
      }
      doc := doc[..insertStart] + insertion + doc[insertStart..];
      var insertLength := |insertion|;
      var start := insertStart;
      SetCursor(start + insertLength);
      insertion := [];
      RegenerateLines();
      renderLines := true;
    }

    /** `goto_line_end`: the cursor goes to the end of the current line's
        content. */
    method GotoLineEnd()
      requires |lines| > 0
      modifies this`cursorOffset, this`renderCursor
      ensures cursorOffset == lines[CurrentIndex(lines, old(cursorOffset))].ContentEnd()
    {
      var line := CurrentLine();
      SetCursor(line.ContentEnd());
    }

    /** `goto_line_start`: the cursor goes to the start of the current
        line. */
    method GotoLineStart()
      requires |lines| > 0
      modifies this`cursorOffset, this`renderCursor
      ensures cursorOffset == lines[CurrentIndex(lines, old(cursorOffset))].Start()
    {
      var line := CurrentLine();
      SetCursor(line.Start());
    }

    /** `insert(c)`: a new insertion starts at the cursor; the character
        is added to the pending insertion and the cursor moves right. */
    method Insert(c: char)
      requires |lines| > 0
      modifies this`insertStart, this`insertion, this`cursorOffset, this`renderCursor, this`renderLines
      ensures insertStart == (if old(insertion) == [] then old(cursorOffset) else old(insertStart))
      ensures insertion == old(insertion) + [c] && Len() == old(Len()) + 1
      ensures cursorOffset == RightTarget(lines, old(cursorOffset)) && renderLines
    {
      if insertion == [] {
        insertStart := cursorOffset;
      }
      insertion := insertion + [c];
      MoveRight();
      renderLines := true;
    }

    /** `insert_str(text)`: insert straight into the buffer at the cursor,
        rebuild the lines and put the cursor after the text. */
    method InsertStr(text: seq<char>)
      requires cursorOffset <= |doc|
      modifies this`doc, this`lines, this`cursorOffset, this`renderCursor
      ensures doc == old(doc)[..old(cursorOffset)] + text + old(doc)[old(cursorOffset)..]
      ensures lines == LinesOf(doc) && cursorOffset == old(cursorOffset) + |text|
      ensures cursorOffset <= |doc|
    {
      var offset := cursorOffset;
      doc := doc[..offset] + text + doc[offset..];
      RegenerateLines();
      SetCursor(offset + |text|);
    }

    /** `move_lines(delta)`. */
    method MoveLines(delta: int)
      requires |lines| > 0 && lines[CurrentIndex(lines, cursorOffset)].number >= 1
      requires lines[CurrentIndex(lines, cursorOffset)].Start() <= cursorOffset
      modifies this`cursorOffset, this`renderCursor
      ensures cursorOffset == LinesTarget(lines, old(cursorOffset), delta) && renderCursor
    {
      var current := CurrentLine();
      var currentStart := current.Start();
      var number := current.number - 1;
      var currentColumn := cursorOffset - currentStart;
      var numLines := |lines|;
      var destIndex := Clamp(number + delta, 0, numLines - 1);
      var destColumn := Min(lines[destIndex].contentLength, currentColumn);
      var lineStart := lines[destIndex].Start();
      SetCursor(destColumn + lineStart);
      renderCursor := true;
    }

    /** `move_down`: one line down. */
    method MoveDown()
      requires |lines| > 0 && lines[CurrentIndex(lines, cursorOffset)].number >= 1
      requires lines[CurrentIndex(lines, cursorOffset)].Start() <= cursorOffset
      modifies this`cursorOffset, this`renderCursor
      ensures cursorOffset == LinesTarget(lines, old(cursorOffset), 1)
    {
      MoveLines(1);
    }

    /** `move_up`: one line up. */
    method MoveUp()
      requires |lines| > 0 && lines[CurrentIndex(lines, cursorOffset)].number >= 1
      requires lines[CurrentIndex(lines, cursorOffset)].Start() <= cursorOffset
      modifies this`cursorOffset, this`renderCursor
      ensures cursorOffset == LinesTarget(lines, old(cursorOffset), -1)
    {
      MoveLines(-1);
    }

    /** `move_left`. */
    method MoveLeft()
      requires |lines| > 0
      requires cursorOffset > 0 || lines[CurrentIndex(lines, cursorOffset)].Start() == 0
      modifies this`cursorOffset, this`renderCursor
      ensures cursorOffset == LeftTarget(lines, old(cursorOffset))
    {
      var current := cursorOffset;
      var line := CurrentLine();
      var offset := line.Start();
      if current == offset {
        return;
      }
      SetCursor(current - 1);
    }

    /** `move_right`. */
    method MoveRight()
      requires |lines| > 0
      modifies this`cursorOffset, this`renderCursor
      ensures cursorOffset == RightTarget(lines, old(cursorOffset))
    {
      var current := cursorOffset;
      var line := CurrentLine();
      var offset := line.End();
      if current == offset {
        return;
      }
      SetCursor(current + 1);
    }

    /** `set_cursor(loc)`: no bounds check in this version. */
    method SetCursor(loc: nat)
      modifies this`cursorOffset, this`renderCursor
      ensures cursorOffset == loc && renderCursor
    {
      cursorOffset := loc;
      renderCursor := true;
    }

    /** `set_viewport_top(line)`: at most the last line's index. */
    method SetViewportTop(line: nat)
      requires |lines| > 0
      modifies this`viewportTop, this`renderLines
      ensures viewportTop == Min(line, |lines| - 1) && viewportTop < |lines| && renderLines
    {
      viewportTop := Min(line, |lines| - 1);
      renderLines := true;
    }
  }
}
