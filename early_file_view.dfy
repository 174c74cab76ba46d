/** The earlier `byt::views::file` (views/file.rs): the same view with a
    single render flag, lines that carry no number (the numbers of
    `LineIndex` are kept but never read here), a current line that comes
    with its index, a cursor that `set_cursor` and `move_right` keep inside
    the text, and a `move_left` that only stops at offset 0. */
module EarlyFileViews {
  import opened LineIndex
  import opened FileViews

  /** Where the earlier `move_right` puts the cursor: one on, but not past
      the text and the pending insertion together. */
  function ClampedRight(cursor: nat, max: nat): (r: nat)
    ensures r <= max
    ensures cursor < max ==> r == cursor + 1
    ensures cursor >= max ==> r == max
  {
    Min(cursor + 1, max)
  }

  /** Where the earlier `move_lines(delta)` puts the cursor: the
      destination is found from the current line's index. */
  function EarlyLinesTarget(lines: seq<Line>, cursor: nat, delta: int): nat
    requires |lines| > 0 && lines[CurrentIndex(lines, cursor)].Start() <= cursor
  {
    var i := CurrentIndex(lines, cursor);
    var d := Clamp(i + delta, 0, |lines| - 1);
    Min(lines[d].contentLength, cursor - lines[i].Start()) + lines[d].Start()
  }

  /** On the lines of a text, where lines are numbered from 1, the earlier
      `move_lines` and the later one, which reads the line number, land on
      the same offset. */
  lemma EarlyLinesTargetAgrees(text: seq<char>, lines: seq<Line>, cursor: nat, delta: int)
    requires Splits(text, lines) && cursor < |text|
    ensures lines[CurrentIndex(lines, cursor)].Start() <= cursor
    ensures lines[CurrentIndex(lines, cursor)].number >= 1
    ensures EarlyLinesTarget(lines, cursor, delta) == LinesTarget(lines, cursor, delta)
  {
    MoveLinesLands(text, lines, cursor, delta);
  }

  class EarlyFileView {
    var doc: seq<char>
    var cursorOffset: nat
    var viewportTop: nat
    var lines: seq<Line>
    var shouldRender: bool
    var insertion: seq<char>
    var insertStart: nat

    function Len(): nat
      reads this
    {
      |insertion| + |doc|
    }

    /** `empty()`. */
    constructor Empty()
      ensures doc == [] && cursorOffset == 0 && viewportTop == 0
      ensures lines == [Line(1, 0, 0, 0)] && Splits(doc, lines)
      ensures shouldRender && insertion == [] && insertStart == 0
    {
      doc := [];
      cursorOffset := 0;
      viewportTop := 0;
      lines := [];
      shouldRender := true;
      insertion := [];
      insertStart := 0;
      new;
      RegenerateLines();
    }

    /** `new(path)` over a file that holds `contents`. */
    constructor Open(contents: seq<char>)
      ensures doc == contents && cursorOffset == 0 && viewportTop == 0
      ensures lines == LinesOf(contents)
      ensures LineFeedOnly(contents) ==> Splits(doc, lines)
      ensures shouldRender && insertion == [] && insertStart == 0
    {
      doc := contents;
      cursorOffset := 0;
      viewportTop := 0;
      lines := [];
      shouldRender := true;
      insertion := [];
      insertStart := 0;
      new;
      RegenerateLines();
    }

    /** `regenerate_lines`: the same scan as the later version. */
    method RegenerateLines()
      modifies this`lines
      ensures lines == LinesOf(doc)
      ensures LineFeedOnly(doc) ==> Splits(doc, lines)
    {
      if LineFeedOnly(doc) {
        LinesOfSplits(doc);
      }
      var text := doc;
      lines := [];
      if |text| == 0 {
        lines := lines + [Line(1, 0, 0, 0)];
        return;
      }
      var lineNumber := 1;
      var offset := 0;
      var lineOffset := 0;
      var numChars := 0;
      var numEndingChars := 0;
      assert text[..0] == [];
      for index := 0 to |text|
        invariant ScanOf(text[..index]) == Scan(lines, lineNumber, offset, lineOffset, numChars, numEndingChars)
      {
        var c := text[index];
        if c == '\r' {
          numEndingChars := numEndingChars + 1;
        } else if c == '\n' {
          numEndingChars := numEndingChars + 1;
          lines := lines + [Line(lineNumber, lineOffset, numChars, numEndingChars)];
          lineOffset := offset + numEndingChars;
          lineNumber := lineNumber + 1;
          numChars := 0;
          numEndingChars := 0;
        } else {
          numChars := numChars + 1;
        }
        offset := offset + 1;
        assert text[..index + 1][..index] == text[..index];
      }
      assert text[..|text|] == text;
      if numChars > 0 {
        lines := lines + [Line(lineNumber, lineOffset, numChars, 0)];
      }
    }

    /** `backspace`: as the later version, with this version's
        `move_left`. */
    method Backspace()
      requires cursorOffset > 0 && insertion == [] ==> cursorOffset <= |doc|
      modifies this`insertion, this`doc, this`cursorOffset, this`shouldRender
      ensures old(cursorOffset) == 0 ==> insertion == old(insertion) && doc == old(doc) && cursorOffset == 0
      ensures old(cursorOffset) > 0 && old(insertion) != [] ==>
        insertion == old(insertion)[..|old(insertion)| - 1] && doc == old(doc)
      ensures old(cursorOffset) > 0 && old(insertion) == [] ==>
        insertion == [] && doc == old(doc)[..old(cursorOffset) - 1] + old(doc)[old(cursorOffset)..]
      ensures old(cursorOffset) > 0 ==> cursorOffset == old(cursorOffset) - 1
    {
      if cursorOffset == 0 {
        return;
      }
      if |insertion| > 0 {
        insertion := insertion[..|insertion| - 1];
      } else if cursorOffset > 0 {
        doc := doc[..cursorOffset - 1] + doc[cursorOffset..];
      }
      MoveLeft();
    }

    /** `current_line`: the first line that holds the cursor and its
        index, or the first line and 0. */
    method CurrentLine() returns (index: nat, line: Line)
      requires |lines| > 0
      ensures index == CurrentIndex(lines, cursorOffset) && line == lines[index]
    {
      var offset := cursorOffset;
      index := 0;
      while index < |lines|
        invariant index <= |lines|
        invariant FirstContaining(lines, offset, 0) == FirstContaining(lines, offset, index)
      {
        if offset >= lines[index].Start() && offset < lines[index].End() {
          return index, lines[index];
        }
        index := index + 1;
      }
      return 0, lines[0];
    }

    /** `done_inserting`. */
    method DoneInserting()
      requires insertion != [] ==> insertStart <= |doc|
      modifies this`doc, this`cursorOffset, this`insertion, this`lines, this`shouldRender
      ensures old(insertion) == [] ==> doc == old(doc) && cursorOffset == old(cursorOffset) && lines == old(lines)
      ensures old(insertion) != [] ==>
        doc == old(doc)[..insertStart] + old(insertion) + old(doc)[insertStart..] &&
        cursorOffset == insertStart + |old(insertion)| && lines == LinesOf(doc) && shouldRender
      ensures insertion == [] && Len() == old(Len())
    {
      if |insertion| == 0 {
        return;
      }
      doc := doc[..insertStart] + insertion + doc[insertStart..];
      cursorOffset := insertStart + |insertion|;
      insertion := [];
      RegenerateLines();
      shouldRender := true;
    }

    /** `insert(c)`: the cursor moves one on, after the character typed,
        whenever it was inside the text and the pending insertion. */
    method Insert(c: char)
      modifies this`insertStart, this`insertion, this`cursorOffset, this`shouldRender
      ensures insertStart == (if old(insertion) == [] then old(cursorOffset) else old(insertStart))
      ensures insertion == old(insertion) + [c] && Len() == old(Len()) + 1
      ensures cursorOffset == ClampedRight(old(cursorOffset), Len())
      ensures old(cursorOffset) <= old(Len()) ==> cursorOffset == old(cursorOffset) + 1
    {
      if |insertion| == 0 {
        insertStart := cursorOffset;
      }
      insertion := insertion + [c];
      MoveRight();
      shouldRender := true;
    }

    /** `move_lines(delta)`. */
    method MoveLines(delta: int)
      requires |lines| > 0 && lines[CurrentIndex(lines, cursorOffset)].Start() <= cursorOffset
      modifies this`cursorOffset, this`shouldRender
      ensures cursorOffset == EarlyLinesTarget(lines, old(cursorOffset), delta)
    {
      var lineIndex, _ := CurrentLine();
      var currentColumn := cursorOffset - lines[lineIndex].Start();
      var numLines := |lines|;
      var destIndex := Clamp(lineIndex + delta, 0, numLines - 1);
      var destColumn := Min(lines[destIndex].contentLength, currentColumn);
      cursorOffset := destColumn + lines[destIndex].Start();
      shouldRender := true;
    }

    /** `move_down`. */
    method MoveDown()
      requires |lines| > 0 && lines[CurrentIndex(lines, cursorOffset)].Start() <= cursorOffset
      modifies this`cursorOffset, this`shouldRender
      ensures cursorOffset == EarlyLinesTarget(lines, old(cursorOffset), 1)
    {
      MoveLines(1);
    }

    /** `move_up`. */
    method MoveUp()
      requires |lines| > 0 && lines[CurrentIndex(lines, cursorOffset)].Start() <= cursorOffset
      modifies this`cursorOffset, this`shouldRender
      ensures cursorOffset == EarlyLinesTarget(lines, old(cursorOffset), -1)
    {
      MoveLines(-1);
    }

    /** `move_left`: one back, but not before offset 0. */
    method MoveLeft()
      modifies this`cursorOffset, this`shouldRender
      ensures old(cursorOffset) == 0 ==> cursorOffset == 0 && shouldRender == old(shouldRender)
      ensures old(cursorOffset) > 0 ==> cursorOffset == old(cursorOffset) - 1 && shouldRender
    {
      var current := cursorOffset;
      if current == 0 {
        return;
      }
      cursorOffset := current - 1;
      shouldRender := true;
    }

    /** `move_right`: one on, but not past the text and the pending
        insertion. */
    method MoveRight()
      modifies this`cursorOffset, this`shouldRender
      ensures cursorOffset == ClampedRight(old(cursorOffset), Len()) && shouldRender
    {
      var max := |doc| + |insertion|;
      cursorOffset := Min(cursorOffset + 1, max);
      shouldRender := true;
    }

    /** `set_cursor(loc)`: clamped to the text. */
    method SetCursor(loc: nat)
      modifies this`cursorOffset, this`shouldRender
      ensures cursorOffset <= |doc|
      ensures loc <= |doc| ==> cursorOffset == loc
      ensures loc > |doc| ==> cursorOffset == |doc|
      ensures shouldRender
    {
      cursorOffset := Min(loc, |doc|);
      shouldRender := true;
    }

    /** `set_viewport_top(line)`: at most the last line's index. */
    method SetViewportTop(line: nat)
      requires |lines| > 0
      modifies this`viewportTop
      ensures viewportTop == Min(line, |lines| - 1) && viewportTop < |lines|
    {
      viewportTop := Min(line, |lines| - 1);
    }
  }
}
