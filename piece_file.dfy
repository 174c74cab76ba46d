/** The buffer of `byt::io::file` (the u64 version) as an object: its
    fields are updated in place by the edits, each of which is proved to
    produce the table the functions of `PieceTable` describe. */
module PieceFiles {
  import opened Utf8
  import opened Pieces
  import opened PieceTable
  import opened PieceTableProperties

  // ---------------------------------------------------------------------
  // The buffer

  /** The trim loop of `read_piece`: drop trailing bytes one at a time
      until what is left is well-formed UTF-8. */
  method TrimToText(buf: seq<Byte>) returns (index: nat)
    ensures index <= |buf| && ValidUtf8(buf[..index])
    ensures forall k :: index < k <= |buf| ==> !ValidUtf8(buf[..k])
    ensures index == LongestValidPrefix(buf)
  {
    index := |buf|;
    assert buf[..0] == [];
    while !ValidUtf8(buf[..index])
      invariant index <= |buf|
      invariant forall k :: index < k <= |buf| ==> !ValidUtf8(buf[..k])
      decreases index
    {
      index := index - 1;
    }
    LongestValidPrefixSpec(buf);
  }

  /** The two `get_at_offset` calls of `read`: the pieces holding the
      first and the last offset of the range, which are the pieces the
      read's requests come from. */
  method LocateRead(ps: seq<Piece>, start: nat, numBytes: nat, appendLength: nat, hasReader: bool)
    returns (startIndex: nat, endIndex: nat)
    requires ReadDefined(ps, start, numBytes, appendLength, hasReader)
    ensures startIndex <= endIndex < |ps|
    ensures startIndex < endIndex ==> start <= ps[startIndex].End() && ps[endIndex].logicalOffset <= ReadEnd(start, numBytes)
    ensures ReadRequests(ps, start, numBytes, appendLength, hasReader) == Requests(ps, startIndex, endIndex, start, ReadEnd(start, numBytes))
    ensures AllReadable(Requests(ps, startIndex, endIndex, start, ReadEnd(start, numBytes)), appendLength, hasReader)
  {
    var found := GetAtOffset(ps, start);
    startIndex := found.value;
    found := GetAtOffset(ps, ReadEnd(start, numBytes));
    endIndex := found.value;
    ReadParts(ps, start, numBytes, appendLength, hasReader, startIndex, endIndex);
  }

  class PieceFile {
    /** Every mutation, for undo. */
    var actions: seq<Action>
    /** The in-memory append store; only ever grows. */
    var appendFile: seq<Byte>
    /** The recorded size of the document. */
    var length: nat
    /** The offset for reads (`offset` in the source). */
    var readOffset: nat
    /** The current pieces, in document order. */
    var pieceTable: seq<Piece>
    /** The bytes of the file on disk (empty for an in-memory buffer). */
    const original: seq<Byte>
    /** Whether there is a reader over the file on disk. */
    const hasReader: bool
    /** Where that reader stands in `original`. */
    var readerPos: nat

    /** The invariant the edits are meant to keep. */
    ghost predicate Valid()
      reads this
    {
      Contiguous(pieceTable) &&
      length == Total(pieceTable) &&
      AllFit(pieceTable, original, appendFile)
    }

    /** The document the table stands for. */
    ghost function Text(): seq<Byte>
      reads this
      requires AllFit(pieceTable, original, appendFile)
    {
      Content(pieceTable, original, appendFile)
    }

    /** `empty()`: no pieces, no actions, nothing on disk. */
    constructor Empty()
      ensures Valid()
      ensures pieceTable == [] && actions == [] && appendFile == []
      ensures length == 0 && readOffset == 0 && !hasReader && original == []
    {
      actions := [];
      appendFile := [];
      length := 0;
      readOffset := 0;
      pieceTable := [];
      original := [];
      hasReader := false;
      readerPos := 0;
    }

    /** `open(path)` on a file whose bytes are `contents`: one Original
        piece over the whole file. */
    constructor Open(contents: seq<Byte>)
      ensures Valid()
      ensures pieceTable == [Piece(Original, 0, |contents|, 0)]
      ensures actions == [] && appendFile == [] && length == |contents| && readOffset == 0
      ensures hasReader && original == contents && readerPos == 0
      ensures Text() == contents
    {
      actions := [];
      appendFile := [];
      length := |contents|;
      readOffset := 0;
      pieceTable := [Piece(Original, 0, |contents|, 0)];
      original := contents;
      hasReader := true;
      readerPos := 0;
      new;
      assert pieceTable[..0] == [];
      ContentSingle(pieceTable[0], original, appendFile);
    }

    /** `update_offsets(start_index)`. */
    method UpdateOffsets(startIndex: nat)
      requires startIndex < |pieceTable|
      modifies this`pieceTable
      ensures pieceTable == Renumbered(old(pieceTable), startIndex)
    {
      ghost var ps := pieceTable;
      if startIndex == |pieceTable| - 1 {
        RenumberedFrom(ps, startIndex, pieceTable);
        return;
      }
      var offset := pieceTable[startIndex].logicalOffset + pieceTable[startIndex].length;
      TotalSliceStep(ps, startIndex, startIndex);
      assert ps[startIndex..startIndex] == [];
      for index := startIndex + 1 to |pieceTable|
        invariant |pieceTable| == |ps|
        invariant offset == ps[startIndex].logicalOffset + Total(ps[startIndex..index])
        invariant forall k :: 0 <= k <= startIndex ==> pieceTable[k] == ps[k]
        invariant forall k :: startIndex < k < index ==>
          pieceTable[k] == ps[k].(logicalOffset := ps[startIndex].logicalOffset + Total(ps[startIndex..k]))
        invariant forall k :: index <= k < |ps| ==> pieceTable[k] == ps[k]
      {
        pieceTable := pieceTable[index := pieceTable[index].(logicalOffset := offset)];
        TotalSliceStep(ps, startIndex, index);
        offset := offset + pieceTable[index].length;
      }
      RenumberedFrom(ps, startIndex, pieceTable);
    }

    /** `_insert`: append the text to the append store, grow the length,
        and place a piece for it. */
    method InsertAction(text: seq<Byte>, offset: nat) returns (action: Action)
      requires InsertDefined(pieceTable, length, offset)
      modifies this`appendFile, this`length, this`pieceTable
      ensures appendFile == old(appendFile) + text
      ensures length == old(length) + |text|
      ensures pieceTable == InsertedTable(old(pieceTable), old(length), offset, NewPiece(|old(appendFile)|, |text|))
      ensures action == Action(Operation.Insert, offset, [NewPiece(|old(appendFile)|, |text|)], |text|, true, false)
    {
      ghost var expected := InsertedTable(pieceTable, length, offset, NewPiece(|appendFile|, |text|));
      var textLength := |text|;
      var appendOffset := |appendFile|;
      appendFile := appendFile + text;
      length := length + textLength;
      var piece := Piece(Append, appendOffset, textLength, 0);
      action := Action(Operation.Insert, offset, [piece], textLength, true, false);
      if offset == 0 {
        pieceTable := InsertAt(pieceTable, 0, piece);
        assert pieceTable == [piece] + old(pieceTable);
        UpdateOffsets(0);
        assert pieceTable == expected;
        return;
      } else if offset + textLength == length {
        pieceTable := pieceTable + [piece.(logicalOffset := length - textLength)];
        assert pieceTable == expected;
        return;
      }
      assert offset != old(length);
      var found := GetAtOffset(pieceTable, offset);
      if found.None? {
        assert pieceTable == expected;
        return;
      }
      var splitIndex := found.value;
      assert found == Locate(old(pieceTable), offset);
      assert piece == NewPiece(|old(appendFile)|, |text|);
      SplitInsert(splitIndex, offset, piece);
      assert pieceTable == expected;
    }

    /** The split case of `_insert`: the piece at `splitIndex` gives way to
        its part below `offset`, the new piece and its part above `offset`,
        and the table is renumbered from there. */
    method SplitInsert(splitIndex: nat, offset: nat, piece: Piece)
      requires splitIndex < |pieceTable|
      requires pieceTable[splitIndex].logicalOffset <= offset <= pieceTable[splitIndex].End()
      modifies this`pieceTable
      ensures pieceTable == Renumbered(old(pieceTable)[..splitIndex]
        + SplitAround(old(pieceTable)[splitIndex], offset, piece) + old(pieceTable)[splitIndex + 1..], splitIndex)
    {
      ghost var ps := pieceTable;
      ghost var pre := ps[..splitIndex];
      ghost var rest := ps[splitIndex + 1..];
      var textLength := piece.length;
      var splitPiece := pieceTable[splitIndex];
      pieceTable := RemoveAt(pieceTable, splitIndex);
      assert pieceTable == pre + rest;
      var lowerSize := offset - splitPiece.logicalOffset;
      var upperSize := (splitPiece.logicalOffset + splitPiece.length) - offset;
      ghost var upper: seq<Piece> := [];
      if upperSize > 0 {
        var upperPiece := Piece(splitPiece.file, splitPiece.fileOffset + lowerSize, upperSize,
          splitPiece.logicalOffset + lowerSize + textLength);
        upper := [upperPiece];
        assert upper == UpperPart(splitPiece, offset, piece);
        InsertInto(pre, rest, upperPiece);
        pieceTable := InsertAt(pieceTable, splitIndex, upperPiece);
        assert pieceTable == pre + (upper + rest);
      } else {
        assert upper == UpperPart(splitPiece, offset, piece);
        assert upper + rest == rest;
      }
      InsertInto(pre, upper + rest, piece);
      pieceTable := InsertAt(pieceTable, splitIndex, piece);
      ghost var lower: seq<Piece> := [];
      if lowerSize > 0 {
        var lowerPiece := Piece(splitPiece.file, splitPiece.fileOffset, lowerSize, splitPiece.logicalOffset);
        lower := [lowerPiece];
        assert lower == LowerPart(splitPiece, offset);
        InsertInto(pre, [piece] + (upper + rest), lowerPiece);
        pieceTable := InsertAt(pieceTable, splitIndex, lowerPiece);
        assert pieceTable == pre + (lower + ([piece] + (upper + rest)));
      } else {
        assert lower == LowerPart(splitPiece, offset);
        assert lower + ([piece] + (upper + rest)) == [piece] + (upper + rest);
      }
      Nest(pre, lower, [piece], upper, rest);
      UpdateOffsets(splitIndex);
    }

    /** `insert`: `_insert`, and the action is recorded. */
    method Insert(text: seq<Byte>, offset: nat)
      requires InsertDefined(pieceTable, length, offset)
      modifies this`appendFile, this`length, this`pieceTable, this`actions
      ensures appendFile == old(appendFile) + text
      ensures length == old(length) + |text|
      ensures pieceTable == InsertedTable(old(pieceTable), old(length), offset, NewPiece(|old(appendFile)|, |text|))
      ensures actions == old(actions) + [Action(Operation.Insert, offset, [NewPiece(|old(appendFile)|, |text|)], |text|, true, false)]
      ensures old(Valid()) && offset <= old(length) ==>
        Valid() && Text() == old(Text())[..offset] + text + old(Text())[offset..]
    {
      if Valid() && offset <= length {
        InsertPlacesText(pieceTable, original, appendFile, text, offset);
      }
      var action := InsertAction(text, offset);
      actions := actions + [action];
    }

    /** `_delete`: shrink the recorded length, cut the range out of the
        table and return the action with the cut fragments. */
    method DeleteAction(offset: nat, len: nat) returns (action: Action)
      requires DeleteDefined(pieceTable, length, offset, len)
      modifies this`length, this`pieceTable
      ensures length == old(length) - len
      ensures pieceTable == DeletedTable(old(pieceTable), old(length), offset, len)
      ensures action == Action(Operation.Delete, offset, DeleteRecord(old(pieceTable), old(length), offset, len), len, false, false)
    {
      ghost var ps := pieceTable;
      ghost var recorded := length;
      var startOffset := offset;
      var endOffset := offset + len;
      var found := GetAtOffset(pieceTable, startOffset);
      var startIndex := found.value;
      found := GetAtOffset(pieceTable, endOffset);
      var endIndex := found.value;
      var numPieces := (endIndex - startIndex) + 1;
      var fragments;
      if numPieces == 1 {
        DeleteWithinParts(ps, recorded, offset, len, startIndex);
        fragments := DeleteWithin(startIndex, startOffset, endOffset);
      } else {
        DeleteAcrossParts(ps, recorded, offset, len, startIndex, endIndex);
        fragments := DeleteAcross(startIndex, endIndex, startOffset, endOffset);
      }
      length := length - len;
      action := Action(Operation.Delete, offset, fragments, len, false, false);
    }

    /** The branch of `_delete` for a range inside the piece at `index`:
        the piece gives way to its part below the range and a part that
        starts `delete_size` (here 1) bytes after that; one fragment of
        that size is recorded. */
    method DeleteWithin(index: nat, startOffset: nat, endOffset: nat) returns (fragments: seq<Piece>)
      requires index < |pieceTable|
      requires pieceTable[index].logicalOffset <= startOffset <= endOffset <= pieceTable[index].End()
      modifies this`pieceTable
      ensures pieceTable == WithinTable(old(pieceTable), index, startOffset, endOffset)
      ensures fragments ==
        [Piece(old(pieceTable)[index].file, old(pieceTable)[index].fileOffset + (startOffset - old(pieceTable)[index].logicalOffset), 1, startOffset)]
    {
      ghost var pre := pieceTable[..index];
      ghost var rest := pieceTable[index + 1..];
      var deleteSize := 1;
      var piece := pieceTable[index];
      var pieceStartOffset := piece.logicalOffset;
      var pieceEndOffset := pieceStartOffset + piece.length;
      var upperSize := pieceEndOffset - endOffset;
      var lowerSize := startOffset - pieceStartOffset;
      fragments := [Piece(piece.file, piece.fileOffset + lowerSize, deleteSize, startOffset)];
      var upperPiece := Piece(piece.file, piece.fileOffset + lowerSize + deleteSize, upperSize, startOffset);
      var lowerPiece := Piece(piece.file, piece.fileOffset, lowerSize, piece.logicalOffset);
      pieceTable := RemoveAt(pieceTable, index);
      assert pieceTable == pre + rest;
      InsertInto(pre, rest, upperPiece);
      pieceTable := InsertAt(pieceTable, index, upperPiece);
      InsertInto(pre, [upperPiece] + rest, lowerPiece);
      pieceTable := InsertAt(pieceTable, index, lowerPiece);
      assert pieceTable == pre + [lowerPiece, upperPiece] + rest;
    }

    /** The branch of `_delete` for a range from piece `startIndex` to piece
        `endIndex`: cut, drop the pieces left empty, renumber from the
        start piece. */
    method DeleteAcross(startIndex: nat, endIndex: nat, startOffset: nat, endOffset: nat) returns (fragments: seq<Piece>)
      requires startIndex < endIndex < |pieceTable|
      requires pieceTable[startIndex].logicalOffset <= startOffset <= pieceTable[startIndex].End()
      requires pieceTable[endIndex].logicalOffset <= endOffset <= pieceTable[endIndex].End()
      requires endOffset - pieceTable[endIndex].logicalOffset <= pieceTable[endIndex].logicalOffset
      requires startIndex < |NonEmpty(CutAcross(pieceTable, startIndex, endIndex, startOffset, endOffset))|
      modifies this`pieceTable
      ensures pieceTable == Renumbered(NonEmpty(CutAcross(old(pieceTable), startIndex, endIndex, startOffset, endOffset)), startIndex)
      ensures fragments == CutRecord(old(pieceTable), startIndex, endIndex, startOffset, endOffset)
    {
      fragments := CutPieces(startIndex, endIndex, startOffset, endOffset);
      pieceTable := NonEmpty(pieceTable);
      UpdateOffsets(startIndex);
    }

    /** The three passes of a `_delete` that spans pieces `startIndex` to
        `endIndex`: shorten the start piece, empty the pieces in between,
        advance the end piece past the cut; returns the removed fragments. */
    method CutPieces(startIndex: nat, endIndex: nat, startOffset: nat, endOffset: nat) returns (fragments: seq<Piece>)
      requires startIndex < endIndex < |pieceTable|
      requires pieceTable[startIndex].logicalOffset <= startOffset <= pieceTable[startIndex].End()
      requires pieceTable[endIndex].logicalOffset <= endOffset <= pieceTable[endIndex].End()
      requires endOffset - pieceTable[endIndex].logicalOffset <= pieceTable[endIndex].logicalOffset
      modifies this`pieceTable
      ensures pieceTable == CutAcross(old(pieceTable), startIndex, endIndex, startOffset, endOffset)
      ensures fragments == CutRecord(old(pieceTable), startIndex, endIndex, startOffset, endOffset)
    {
      ghost var ps := pieceTable;
      // 1. The piece the delete starts in.
      var piece := pieceTable[startIndex];
      var pieceStartOffset := piece.logicalOffset;
      var pieceEndOffset := pieceStartOffset + piece.length;
      var upperSize := pieceEndOffset - startOffset;
      var lowerSize := startOffset - pieceStartOffset;
      pieceTable := pieceTable[startIndex := piece.(length := lowerSize)];
      fragments := [Piece(piece.file, piece.fileOffset + lowerSize, upperSize, pieceStartOffset + lowerSize)];
      ghost var first := fragments[0];
      ghost var shortened := pieceTable[startIndex];

      // 2. The pieces in between are emptied.
      for index := startIndex + 1 to endIndex
        invariant |pieceTable| == |ps|
        invariant forall k :: 0 <= k < startIndex ==> pieceTable[k] == ps[k]
        invariant pieceTable[startIndex] == shortened
        invariant forall k :: startIndex < k < index ==> pieceTable[k] == ps[k].(length := 0)
        invariant forall k :: index <= k < |ps| ==> pieceTable[k] == ps[k]
        invariant fragments == [first] + ps[startIndex + 1..index]
      {
        fragments := fragments + [pieceTable[index]];
        pieceTable := pieceTable[index := pieceTable[index].(length := 0)];
      }

      // 3. The piece the delete ends in.
      piece := pieceTable[endIndex];
      assert piece == ps[endIndex];
      pieceStartOffset := piece.logicalOffset;
      pieceEndOffset := pieceStartOffset + piece.length;
      upperSize := pieceEndOffset - endOffset;
      lowerSize := endOffset - pieceStartOffset;
      fragments := fragments + [Piece(piece.file, piece.fileOffset + lowerSize, lowerSize, pieceStartOffset - lowerSize)];
      pieceTable := pieceTable[endIndex := piece.(fileOffset := piece.fileOffset + lowerSize, length := upperSize)];
      assert fragments == CutRecord(ps, startIndex, endIndex, startOffset, endOffset);
      CutAcrossFrom(ps, pieceTable, startIndex, endIndex, startOffset, endOffset);
    }

    /** `delete`: `_delete`, and the action is recorded. */
    method Delete(offset: nat, len: nat)
      requires DeleteDefined(pieceTable, length, offset, len)
      modifies this`length, this`pieceTable, this`actions
      ensures length == old(length) - len
      ensures pieceTable == DeletedTable(old(pieceTable), old(length), offset, len)
      ensures actions == old(actions) + [Action(Operation.Delete, offset, DeleteRecord(old(pieceTable), old(length), offset, len), len, false, false)]
    {
      var action := DeleteAction(offset, len);
      actions := actions + [action];
    }

    /** `read_piece`: fill a buffer of `count` bytes from the piece's store
        and return its longest well-formed prefix. An Append read copies
        the slice at the piece's file offset; an Original read takes the
        next bytes of the reader, wherever it stands. */
    method ReadPiece(piece: Piece, offset: nat, count: nat) returns (text: seq<Byte>)
      requires Readable(Request(piece, offset, count), |appendFile|, hasReader)
      modifies this`readerPos
      ensures text == RequestText(Request(piece, offset, count), appendFile, original, old(readerPos))
      ensures readerPos == ReaderAfter(Request(piece, offset, count), original, old(readerPos))
    {
      var buf: seq<Byte>;
      match piece.file {
        case Append =>
          var appendStartOffset := piece.LogicalToFile(offset);
          var appendEndOffset := appendStartOffset + count;
          buf := appendFile[appendStartOffset..appendEndOffset];
        case Original =>
          buf := ReaderFill(original, readerPos, count);
          readerPos := readerPos + ReaderAdvance(original, readerPos, count);
      }
      var index := TrimToText(buf);
      text := buf[..index];
    }

    /** `read(num_bytes)`: locate both ends of the range from the read
        offset and read the pieces between them in order. */
    method Read(numBytes: nat) returns (result: seq<Byte>)
      requires ReadDefined(pieceTable, readOffset, numBytes, |appendFile|, hasReader)
      modifies this`readerPos
      ensures result == ReadText(ReadRequests(pieceTable, readOffset, numBytes, |appendFile|, hasReader),
        appendFile, original, old(readerPos))
      ensures readerPos == ReaderAfterAll(ReadRequests(pieceTable, readOffset, numBytes, |appendFile|, hasReader),
        original, old(readerPos))
      ensures ValidUtf8(result)
      ensures Valid() ==> |result| <= numBytes
    {
      ghost var ps, buf, pos := pieceTable, appendFile, readerPos;
      var startOffset, endOffset := readOffset, ReadEnd(readOffset, numBytes);
      var startIndex, endIndex := LocateRead(pieceTable, startOffset, numBytes, |appendFile|, hasReader);
      result := ReadLocated(ps, buf, pos, startIndex, endIndex, startOffset, endOffset);
      ReadPromise(ps, startOffset, numBytes, buf, original, hasReader, pos);
    }

    /** `read` once both ends are located: one `read_piece` call when the
        range lies in one piece, the three stages of `ReadAcross` otherwise. */
    method ReadLocated(ghost ps: seq<Piece>, ghost buf: seq<Byte>, ghost pos: nat,
      startIndex: nat, endIndex: nat, startOffset: nat, endOffset: nat) returns (result: seq<Byte>)
      requires ps == pieceTable && buf == appendFile && pos == readerPos
      requires startIndex <= endIndex < |ps| && startOffset <= endOffset
      requires startIndex < endIndex ==>
        startOffset <= ps[startIndex].End() && ps[endIndex].logicalOffset <= endOffset
      requires AllReadable(Requests(ps, startIndex, endIndex, startOffset, endOffset), |buf|, hasReader)
      modifies this`readerPos
      ensures result == ReadText(Requests(ps, startIndex, endIndex, startOffset, endOffset), buf, original, pos)
      ensures readerPos == ReaderAfterAll(Requests(ps, startIndex, endIndex, startOffset, endOffset), original, pos)
    {
      var numPieces := endIndex - startIndex + 1;
      if numPieces == 1 {
        result := ReadSingle(startIndex, startOffset, endOffset);
        return;
      }
      result := ReadAcross(startIndex, endIndex, startOffset, endOffset);
    }

    /** The `read_piece` call of `read` for a range inside one piece. */
    method ReadSingle(index: nat, startOffset: nat, endOffset: nat) returns (result: seq<Byte>)
      requires index < |pieceTable| && startOffset <= endOffset
      requires AllReadable(Requests(pieceTable, index, index, startOffset, endOffset), |appendFile|, hasReader)
      modifies this`readerPos
      ensures result == ReadText(Requests(old(pieceTable), index, index, startOffset, endOffset),
        old(appendFile), original, old(readerPos))
      ensures readerPos == ReaderAfterAll(Requests(old(pieceTable), index, index, startOffset, endOffset),
        original, old(readerPos))
    {
      ghost var rs := Requests(pieceTable, index, index, startOffset, endOffset);
      ghost var pos := readerPos;
      var piece := pieceTable[index];
      var numBytes := endOffset - startOffset;
      assert rs[0] == Request(piece, startOffset, numBytes);
      ReadTextSingle(rs, appendFile, original, pos);
      result := ReadPiece(piece, startOffset, numBytes);
    }

    /** The `read_piece` calls of `read` for a range located in pieces
        `startIndex` to `endIndex`, two different pieces: the start piece
        from `startOffset` to its end, every piece in between whole, and
        the end piece up to `endOffset`. */
    method ReadAcross(startIndex: nat, endIndex: nat, startOffset: nat, endOffset: nat) returns (result: seq<Byte>)
      requires startIndex < endIndex < |pieceTable| && startOffset <= endOffset
      requires startOffset <= pieceTable[startIndex].End() && pieceTable[endIndex].logicalOffset <= endOffset
      requires AllReadable(Requests(pieceTable, startIndex, endIndex, startOffset, endOffset), |appendFile|, hasReader)
      modifies this`readerPos
      ensures result == ReadText(Requests(old(pieceTable), startIndex, endIndex, startOffset, endOffset), old(appendFile), original, old(readerPos))
      ensures readerPos == ReaderAfterAll(Requests(old(pieceTable), startIndex, endIndex, startOffset, endOffset), original, old(readerPos))
    {
      ghost var rs := Requests(pieceTable, startIndex, endIndex, startOffset, endOffset);
      ghost var pos := readerPos;
      assert rs[..0] == [];

      // 1. The piece the read starts in.
      var piece := pieceTable[startIndex];
      var pieceEndOffset := piece.logicalOffset + piece.length;
      var pieceReadBytes := pieceEndOffset - startOffset;
      result := ReadNext(rs, pos, 0, piece, startOffset, pieceReadBytes, []);

      // 2. The pieces in between.
      result := ReadBetween(rs, pos, startIndex, endIndex, result);

      // 3. The piece the read ends in.
      piece := pieceTable[endIndex];
      pieceReadBytes := endOffset - piece.logicalOffset;
      result := ReadLast(rs, pos, endIndex - startIndex, piece, pieceReadBytes, result);
    }

    /** Stage 3 of `read`: the piece the read ends in, from its start,
        which completes the text of all the requests. */
    method ReadLast(ghost rs: seq<Request>, ghost pos: nat, ghost last: nat, piece: Piece, count: nat, prefix: seq<Byte>)
      returns (result: seq<Byte>)
      requires |rs| == last + 1 && AllReadable(rs, |appendFile|, hasReader)
      requires rs[last] == Request(piece, piece.logicalOffset, count)
      requires prefix == ReadText(rs[..last], appendFile, original, pos)
      requires readerPos == ReaderAfterAll(rs[..last], original, pos)
      modifies this`readerPos
      ensures result == ReadText(rs, appendFile, original, pos)
      ensures readerPos == ReaderAfterAll(rs, original, pos)
    {
      result := ReadNext(rs, pos, last, piece, piece.logicalOffset, count, prefix);
      assert rs[..last + 1] == rs;
    }

    /** One `read_piece` call of `read`, for request `k`, appended to the
        text of the requests before it. */
    method ReadNext(ghost rs: seq<Request>, ghost pos: nat, ghost k: nat, piece: Piece, offset: nat, count: nat, prefix: seq<Byte>)
      returns (result: seq<Byte>)
      requires k < |rs| && AllReadable(rs, |appendFile|, hasReader)
      requires rs[k] == Request(piece, offset, count)
      requires prefix == ReadText(rs[..k], appendFile, original, pos)
      requires readerPos == ReaderAfterAll(rs[..k], original, pos)
      modifies this`readerPos
      ensures result == ReadText(rs[..k + 1], appendFile, original, pos)
      ensures readerPos == ReaderAfterAll(rs[..k + 1], original, pos)
    {
      ReadTextStep(rs, k, appendFile, original, pos);
      var text := ReadPiece(piece, offset, count);
      result := prefix + text;
    }

    /** Stage 2 of `read`: the pieces strictly between `startIndex` and
        `endIndex`, each read whole, appended to what was read before. */
    method ReadBetween(ghost rs: seq<Request>, ghost pos: nat, startIndex: nat, endIndex: nat, prefix: seq<Byte>)
      returns (result: seq<Byte>)
      requires startIndex < endIndex <= |pieceTable| && |rs| == endIndex - startIndex + 1
      requires AllReadable(rs, |appendFile|, hasReader)
      requires forall k :: startIndex < k < endIndex ==>
        rs[k - startIndex] == Request(pieceTable[k], pieceTable[k].logicalOffset, pieceTable[k].length)
      requires prefix == ReadText(rs[..1], appendFile, original, pos)
      requires readerPos == ReaderAfterAll(rs[..1], original, pos)
      modifies this`readerPos
      ensures result == ReadText(rs[..endIndex - startIndex], appendFile, original, pos)
      ensures readerPos == ReaderAfterAll(rs[..endIndex - startIndex], original, pos)
    {
      result := prefix;
      for index := startIndex + 1 to endIndex
        invariant result == ReadText(rs[..index - startIndex], appendFile, original, pos)
        invariant readerPos == ReaderAfterAll(rs[..index - startIndex], original, pos)
      {
        var piece := pieceTable[index];
        result := ReadNext(rs, pos, index - startIndex, piece, piece.logicalOffset, piece.length, result);
      }
    }

    /** `seek`: the offset the position names; it is returned, not stored. */
    method Seek(pos: SeekFrom) returns (r: nat)
      requires SeekTarget(pos, length, readOffset) >= 0
      ensures r == SeekTarget(pos, length, readOffset)
      ensures pos.Start? ==> r == pos.position
    {
      var newOffset: int := match pos
        case Start(v) => v
        case End(v) => length + v
        case Current(v) => readOffset + v;
      r := newOffset;
    }

    /** `undo`: pop the last action and revert it in the table. */
    method Undo()
      requires UndoDefined(pieceTable, actions)
      modifies this`actions, this`pieceTable
      ensures old(actions) == [] ==> actions == [] && pieceTable == old(pieceTable)
      ensures old(actions) != [] ==>
        actions == old(actions)[..|old(actions)| - 1] &&
        pieceTable == UndoneTable(old(pieceTable), old(actions)[|old(actions)| - 1])
    {
      if |actions| == 0 {
        assert old(actions) == [];
        return;
      }
      var action := actions[|actions| - 1];
      actions := actions[..|actions| - 1];
      var found := GetAtOffset(pieceTable, action.offset);
      var index := found.value;
      if action.op == Operation.Insert {
        RemoveInserted(index);
      } else {
        RestoreFragments(index, action.pieces);
      }
    }

    /** The insert branch of `undo`: the located piece goes and the table
        is renumbered from the piece before it. */
    method RemoveInserted(index: nat)
      requires 1 <= index < |pieceTable|
      modifies this`pieceTable
      ensures pieceTable == Renumbered(RemoveAt(old(pieceTable), index), index - 1)
    {
      pieceTable := RemoveAt(pieceTable, index);
      UpdateOffsets(index - 1);
    }

    /** The delete branch of `undo`: each recorded fragment in turn is
        inserted at the located index, so they end up in reverse order. */
    method RestoreFragments(index: nat, pieces: seq<Piece>)
      requires index <= |pieceTable|
      modifies this`pieceTable
      ensures pieceTable == old(pieceTable)[..index] + Reversed(pieces) + old(pieceTable)[index..]
    {
      ghost var ps := pieceTable;
      assert ps == ps[..index] + Reversed(pieces[..0]) + ps[index..];
      for k := 0 to |pieces|
        invariant pieceTable == ps[..index] + Reversed(pieces[..k]) + ps[index..]
      {
        InsertBetween(ps[..index], Reversed(pieces[..k]), ps[index..], pieces[k]);
        pieceTable := InsertAt(pieceTable, index, pieces[k]);
        assert pieces[..k + 1] == pieces[..k] + [pieces[k]];
        ReversedSnoc(pieces[..k], pieces[k]);
      }
      assert pieces[..|pieces|] == pieces;
    }
  }
}
