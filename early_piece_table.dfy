/** The earlier snapshot of `byt::io::file` (u32 offsets): the same piece
    table, seeded with an empty Append piece, whose insert never
    renumbers and whose delete only ever splits a piece that strictly
    holds the range below the piece of its end. */
module EarlyPieceTable {
  import opened Utf8
  import opened Pieces
  import opened PieceTable
  import opened PieceTableProperties

  /** One recorded modification (no merge flags in this version). */
  datatype EarlyAction = EarlyAction(op: Operation, offset: nat, pieces: seq<Piece>, length: nat)

  /** The empty Append piece `empty()` seeds the table with. */
  function SeedPiece(): Piece
  {
    Piece(Append, 0, 0, 0)
  }

  // ---------------------------------------------------------------------
  // Insert

  /** The table after `insert` puts piece `np` at `offset` of a buffer
      whose recorded length was `length`: in front (nothing renumbered),
      at the end (with logical offset `length`), or splitting the located
      piece, the new piece keeping logical offset 0. An offset past the
      end finds no piece and leaves the table as it was. The run-time
      condition is the one of the later version, `InsertDefined`. */
  ghost function EarlyInsertedTable(ps: seq<Piece>, length: nat, offset: nat, np: Piece): (r: seq<Piece>)
    requires InsertDefined(ps, length, offset)
    ensures |r| == |ps| || |r| == |ps| + 1 || |r| == |ps| + 2
  {
    if offset == 0 then [np] + ps
    else if offset == length then ps + [np.(logicalOffset := length)]
    else
      match Locate(ps, offset)
      case None => ps
      case Some(i) => ps[..i] + SplitAround(ps[i], offset, np) + ps[i + 1..]
  }

  /** The early insert lays out the same pieces as the later one, which
      differs only by renumbering. */
  lemma EarlyInsertSameShape(ps: seq<Piece>, length: nat, offset: nat, np: Piece)
    requires InsertDefined(ps, length, offset)
    ensures SameShape(InsertedTable(ps, length, offset, np), EarlyInsertedTable(ps, length, offset, np))
  {
    if offset != 0 && offset != length && Locate(ps, offset).Some? {
      var i := Locate(ps, offset).value;
      assert InsertedTable(ps, length, offset, np) ==
        Renumbered(ps[..i] + SplitAround(ps[i], offset, np) + ps[i + 1..], i);
    }
  }

  /** On a contiguous table the early insert places the text at `offset`
      and grows the total by its length, like the later one. */
  lemma EarlyInsertPlacesText(ps: seq<Piece>, original: seq<Byte>, append: seq<Byte>, text: seq<Byte>, offset: nat)
    requires Contiguous(ps) && AllFit(ps, original, append)
    requires offset <= Total(ps)
    ensures InsertDefined(ps, Total(ps), offset)
    ensures AllFit(EarlyInsertedTable(ps, Total(ps), offset, NewPiece(|append|, |text|)), original, append + text)
    ensures Total(EarlyInsertedTable(ps, Total(ps), offset, NewPiece(|append|, |text|))) == Total(ps) + |text|
    ensures Content(EarlyInsertedTable(ps, Total(ps), offset, NewPiece(|append|, |text|)), original, append + text) ==
      Content(ps, original, append)[..offset] + text + Content(ps, original, append)[offset..]
  {
    var np := NewPiece(|append|, |text|);
    InsertPlacesText(ps, original, append, text, offset);
    EarlyInsertSameShape(ps, Total(ps), offset, np);
    SameShapeContent(InsertedTable(ps, Total(ps), offset, np), EarlyInsertedTable(ps, Total(ps), offset, np), original, append + text);
    SameShapeTotal(InsertedTable(ps, Total(ps), offset, np), EarlyInsertedTable(ps, Total(ps), offset, np));
  }

  /** Inserting in front of a table with a piece keeps that piece's old
      logical offset, so a non-empty insert leaves the table out of step
      with the document. */
  lemma FrontInsertLeavesStaleOffsets(ps: seq<Piece>, np: Piece)
    requires |ps| > 0 && Contiguous(ps) && np.length > 0
    ensures InsertDefined(ps, Total(ps), 0)
    ensures !Contiguous(EarlyInsertedTable(ps, Total(ps), 0, np))
  {
    var r := EarlyInsertedTable(ps, Total(ps), 0, np);
    assert r[..1] == [np] && [np][..0] == [];
    assert Total(r[..1]) == np.length;
    assert r[1].logicalOffset == ps[0].logicalOffset == Total(ps[..0]) == 0;
  }

  /** The bytes "abcd". */
  function Abcd(): seq<Byte> { [97, 98, 99, 100] }

  /** From the seeded empty buffer: "ab" at 0, "c" at 0, then "d" at 2.
      The front insert of "c" leaves "ab" at logical offset 0, so the
      split puts "d" after "ab" (`StaleTableContent`). */
  lemma StaleOffsetMisplacesInsert()
    ensures InsertDefined([SeedPiece()], 0, 0)
    ensures EarlyInsertedTable([SeedPiece()], 0, 0, NewPiece(0, 2)) ==
      [Piece(Append, 0, 2, 0), SeedPiece()]
    ensures InsertDefined([Piece(Append, 0, 2, 0), SeedPiece()], 2, 0)
    ensures EarlyInsertedTable([Piece(Append, 0, 2, 0), SeedPiece()], 2, 0, NewPiece(2, 1)) ==
      [Piece(Append, 2, 1, 0), Piece(Append, 0, 2, 0), SeedPiece()]
    ensures InsertDefined([Piece(Append, 2, 1, 0), Piece(Append, 0, 2, 0), SeedPiece()], 3, 2)
    ensures EarlyInsertedTable([Piece(Append, 2, 1, 0), Piece(Append, 0, 2, 0), SeedPiece()], 3, 2, NewPiece(3, 1)) ==
      [Piece(Append, 2, 1, 0), Piece(Append, 0, 2, 0), Piece(Append, 3, 1, 0), SeedPiece()]
  {
    SplitAfterStale(Piece(Append, 2, 1, 0), Piece(Append, 0, 2, 0), SeedPiece(), NewPiece(3, 1));
  }

  /** The split step of `StaleOffsetMisplacesInsert`, over any pieces of
      the same lengths and offsets. */
  lemma SplitAfterStale(c: Piece, ab: Piece, seed: Piece, np: Piece)
    requires c.length == 1 && ab.length == 2 && ab.logicalOffset == 0 && np.logicalOffset == 0
    requires seed.length == 0
    ensures InsertDefined([c, ab, seed], 3, 2)
    ensures EarlyInsertedTable([c, ab, seed], 3, 2, np) == [c, ab, np, seed]
  {
    var t := [c, ab, seed];
    assert t[..0] == [] && t[..1] == [c] && t[..2] == [c, ab];
    assert [c, ab][..1] == [c] && [c][..0] == [];
    assert Total([c]) == 1 && Total([c, ab]) == 3;
    assert CumEnd(t, 0) == 1 && CumEnd(t, 1) == 3;
    assert Locate(t, 2) == Some(1) by {
      assert !IsFirstCover(t, 2, 0);
    }
    assert LowerPart(ab, 2) == [ab];
    assert UpperPart(ab, 2, np) == [];
    assert SplitAround(ab, 2, np) == [ab, np];
    assert t[2..] == [seed];
    assert [c] + [ab, np] + [seed] == [c, ab, np, seed];
  }

  /** The table `StaleOffsetMisplacesInsert` ends with, over the append
      store "abcd", reads "cabd"; "d" at 2 of "cab" is "cadb". */
  lemma StaleTableContent()
    ensures AllFit([Piece(Append, 2, 1, 0), Piece(Append, 0, 2, 0), Piece(Append, 3, 1, 0), SeedPiece()], [], Abcd())
    ensures Content([Piece(Append, 2, 1, 0), Piece(Append, 0, 2, 0), Piece(Append, 3, 1, 0), SeedPiece()], [], Abcd()) ==
      [99, 97, 98, 100]
  {
    var app := Abcd();
    var c := Piece(Append, 2, 1, 0);
    var ab := Piece(Append, 0, 2, 0);
    var d := Piece(Append, 3, 1, 0);
    assert BytesOf(c, [], app) == [99];
    assert BytesOf(ab, [], app) == [97, 98];
    assert BytesOf(d, [], app) == [100];
    assert BytesOf(SeedPiece(), [], app) == [];
    ContentFour(c, ab, d, SeedPiece(), app);
    assert [99] + [97, 98] + [100] + [] == [99, 97, 98, 100];
  }

  /** The content of a four-piece table over the append store alone. */
  lemma ContentFour(a: Piece, b: Piece, c: Piece, d: Piece, append: seq<Byte>)
    requires Fits(a, [], append) && Fits(b, [], append) && Fits(c, [], append) && Fits(d, [], append)
    ensures AllFit([a, b, c, d], [], append)
    ensures Content([a, b, c, d], [], append) ==
      BytesOf(a, [], append) + BytesOf(b, [], append) + BytesOf(c, [], append) + BytesOf(d, [], append)
  {
    ContentSingle(a, [], append);
    ContentSingle(b, [], append);
    ContentSingle(c, [], append);
    ContentSingle(d, [], append);
    ContentConcat([a], [b], [], append);
    ContentConcat([a, b], [c], [], append);
    assert [a, b] + [c] == [a, b, c];
    ContentConcat([a, b, c], [d], [], append);
    assert [a, b, c] + [d] == [a, b, c, d];
  }

  /** The unit test of this version: from the seeded empty buffer, "foo"
      then "bar" at 0. The seed piece stays behind them, so the table has
      three pieces; "bar" (append offset 3) comes first. */
  lemma TwoFrontInserts()
    ensures InsertDefined([SeedPiece()], 0, 0)
    ensures InsertDefined(EarlyInsertedTable([SeedPiece()], 0, 0, NewPiece(0, 3)), 3, 0)
    ensures EarlyInsertedTable(EarlyInsertedTable([SeedPiece()], 0, 0, NewPiece(0, 3)), 3, 0, NewPiece(3, 3)) ==
      [Piece(Append, 3, 3, 0), Piece(Append, 0, 3, 0), SeedPiece()]
  {
  }

  // ---------------------------------------------------------------------
  // Delete

  /** The piece strictly holds the range from `offset` to `endOffset`. */
  predicate Inside(p: Piece, offset: nat, endOffset: nat)
  {
    offset > p.logicalOffset && endOffset < p.End()
  }

  /** The scan of `delete`'s loop: the first index from `k` up to (not
      including) `e` whose piece strictly holds the range. */
  function FirstInside(ps: seq<Piece>, k: nat, e: nat, offset: nat, endOffset: nat): (r: Option<nat>)
    requires k <= |ps| && e <= |ps|
    ensures r.Some? ==> k <= r.value < e && Inside(ps[r.value], offset, endOffset)
    ensures r.Some? ==> forall j :: k <= j < r.value ==> !Inside(ps[j], offset, endOffset)
    ensures r.None? ==> forall j :: k <= j < e ==> !Inside(ps[j], offset, endOffset)
    decreases e - k
  {
    if k >= e then None
    else if Inside(ps[k], offset, endOffset) then Some(k)
    else FirstInside(ps, k + 1, e, offset, endOffset)
  }

  /** `delete(offset, length)` runs without panicking: both ends are
      located. */
  predicate EarlyDeleteDefined(ps: seq<Piece>, offset: nat, length: nat)
  {
    Locate(ps, offset).Some? && Locate(ps, offset + length).Some?
  }

  /** The table after `delete`: the first piece from the start index up to
      (not including) the end index that strictly holds the range gives
      way to its part below the range and a part that starts
      `end_index - start_index` bytes after that; without such a piece
      the table is unchanged. */
  function EarlyDeletedTable(ps: seq<Piece>, offset: nat, length: nat): (r: seq<Piece>)
    requires EarlyDeleteDefined(ps, offset, length)
    ensures Locate(ps, offset) == Locate(ps, offset + length) ==> r == ps
    ensures |r| == |ps| || |r| == |ps| + 1
  {
    var endOffset := offset + length;
    var s := Locate(ps, offset).value;
    var e := Locate(ps, endOffset).value;
    match FirstInside(ps, s, e, offset, endOffset)
    case None => ps
    case Some(k) => SplitOut(ps, k, offset, endOffset, e - s)
  }

  /** Piece `k` replaced by its bytes below `offset` and, `skip` bytes
      further on, as many bytes as follow `endOffset` in it, numbered from
      `offset`. */
  function SplitOut(ps: seq<Piece>, k: nat, offset: nat, endOffset: nat, skip: nat): (r: seq<Piece>)
    requires k < |ps| && Inside(ps[k], offset, endOffset)
    ensures |r| == |ps| + 1
  {
    var p := ps[k];
    var lowerSize := offset - p.logicalOffset;
    var upperSize := p.End() - endOffset;
    ps[..k]
    + [Piece(p.file, p.fileOffset, lowerSize, p.logicalOffset),
       Piece(p.file, p.fileOffset + lowerSize + skip, upperSize, offset)]
    + ps[k + 1..]
  }

  /** `EarlyDeletedTable` from the two located indices. */
  lemma EarlyDeletedAt(ps: seq<Piece>, offset: nat, length: nat, s: nat, e: nat)
    requires Locate(ps, offset) == Some(s) && Locate(ps, offset + length) == Some(e)
    ensures EarlyDeleteDefined(ps, offset, length) && s < |ps| && e < |ps|
    ensures FirstInside(ps, s, e, offset, offset + length).None? ==> EarlyDeletedTable(ps, offset, length) == ps
    ensures FirstInside(ps, s, e, offset, offset + length).Some? ==>
      EarlyDeletedTable(ps, offset, length) ==
        SplitOut(ps, FirstInside(ps, s, e, offset, offset + length).value, offset, offset + length, e - s)
  {
  }

  /** On a contiguous table no piece before the end piece reaches the end
      of the range, so `delete` changes nothing at all. */
  lemma {:induction false} EarlyDeleteIgnoresContiguous(ps: seq<Piece>, offset: nat, length: nat)
    requires Contiguous(ps) && EarlyDeleteDefined(ps, offset, length)
    ensures EarlyDeletedTable(ps, offset, length) == ps
  {
    var endOffset := offset + length;
    var s := Locate(ps, offset).value;
    var e := Locate(ps, endOffset).value;
    forall j | s <= j < e
      ensures !Inside(ps[j], offset, endOffset)
    {
      TotalStep(ps, j);
      assert ps[j].End() == CumEnd(ps, j);
    }
  }

  // ---------------------------------------------------------------------
  // The buffer

  class EarlyPieceFile {
    /** Every mutation, for undo. */
    var actions: seq<EarlyAction>
    /** The in-memory append store. */
    var appendFile: seq<Byte>
    /** The recorded size of the document. */
    var length: nat
    /** The current pieces, in document order. */
    var pieceTable: seq<Piece>
    /** The bytes of the file on disk (empty for an in-memory buffer). */
    const original: seq<Byte>

    /** The table holds exactly the recorded number of bytes, all within
        the stores. */
    ghost predicate Sized()
      reads this
    {
      length == Total(pieceTable) && AllFit(pieceTable, original, appendFile)
    }

    /** `empty()`: length 0, no actions and a single empty Append piece. */
    constructor Empty()
      ensures Sized() && Contiguous(pieceTable)
      ensures pieceTable == [SeedPiece()] && actions == [] && appendFile == []
      ensures length == 0 && original == []
    {
      actions := [];
      appendFile := [];
      length := 0;
      pieceTable := [SeedPiece()];
      original := [];
      new;
      assert pieceTable[..0] == [];
    }

    /** `open(path)` on a file whose bytes are `contents`: one Original
        piece over the whole file. */
    constructor Open(contents: seq<Byte>)
      ensures Sized() && Contiguous(pieceTable)
      ensures pieceTable == [Piece(Original, 0, |contents|, 0)]
      ensures actions == [] && appendFile == [] && length == |contents| && original == contents
    {
      actions := [];
      appendFile := [];
      length := |contents|;
      pieceTable := [Piece(Original, 0, |contents|, 0)];
      original := contents;
      new;
      assert pieceTable[..0] == [];
    }

    /** `insert(text, offset)`: append the text to the store, grow the
        length, record the action (with no pieces) and place a piece. */
    method Insert(text: seq<Byte>, offset: nat)
      requires InsertDefined(pieceTable, length, offset)
      modifies this`appendFile, this`length, this`pieceTable, this`actions
      ensures appendFile == old(appendFile) + text
      ensures length == old(length) + |text|
      ensures actions == old(actions) + [EarlyAction(Operation.Insert, offset, [], |text|)]
      ensures pieceTable == EarlyInsertedTable(old(pieceTable), old(length), offset, NewPiece(|old(appendFile)|, |text|))
      ensures old(Sized()) && old(Contiguous(pieceTable)) && offset <= old(length) ==>
        Sized() && Content(pieceTable, original, appendFile) ==
          old(Content(pieceTable, original, appendFile))[..offset] + text + old(Content(pieceTable, original, appendFile))[offset..]
    {
      if Sized() && Contiguous(pieceTable) && offset <= length {
        EarlyInsertPlacesText(pieceTable, original, appendFile, text, offset);
      }
      var textLength := |text|;
      var appendOffset := |appendFile|;
      var oldLength := length;
      appendFile := appendFile + text;
      length := length + textLength;
      var piece := Piece(Append, appendOffset, textLength, 0);
      actions := actions + [EarlyAction(Operation.Insert, offset, [], textLength)];
      PlacePiece(oldLength, offset, piece);
    }

    /** The table edit of `insert` for the new piece `piece` in a document
        of `oldLength` bytes: first, last, or split into the located piece. */
    method PlacePiece(oldLength: nat, offset: nat, piece: Piece)
      requires InsertDefined(pieceTable, oldLength, offset)
      modifies this`pieceTable
      ensures pieceTable == EarlyInsertedTable(old(pieceTable), oldLength, offset, piece)
    {
      if offset == 0 {
        pieceTable := InsertAt(pieceTable, 0, piece);
        assert pieceTable == [piece] + old(pieceTable);
        return;
      } else if offset + piece.length == oldLength + piece.length {
        pieceTable := pieceTable + [piece.(logicalOffset := oldLength)];
        return;
      }
      var found := GetAtOffset(pieceTable, offset);
      if found.None? {
        return;
      }
      var splitIndex := found.value;
      SplitInsert(splitIndex, offset, piece);
    }

    /** The split case of `insert`: the piece at `splitIndex` gives way to
        its part below `offset`, the new piece and its part above `offset`;
        nothing is renumbered. */
    method SplitInsert(splitIndex: nat, offset: nat, piece: Piece)
      requires splitIndex < |pieceTable|
      requires pieceTable[splitIndex].logicalOffset <= offset <= pieceTable[splitIndex].End()
      modifies this`pieceTable
      ensures pieceTable == old(pieceTable)[..splitIndex]
        + SplitAround(old(pieceTable)[splitIndex], offset, piece) + old(pieceTable)[splitIndex + 1..]
    {
      ghost var ps := pieceTable;
      ghost var pre := ps[..splitIndex];
      ghost var rest := ps[splitIndex + 1..];
      var textLength := piece.length;
      var splitPiece := pieceTable[splitIndex];
      pieceTable := RemoveAt(pieceTable, splitIndex);
      assert pieceTable == pre + rest;
      var lowerSize := offset - splitPiece.logicalOffset;
      var upperSize := (splitPiece.logicalOffset + splitPiece.length) - offset;
      ghost var upper: seq<Piece> := [];
      if upperSize > 0 {
        var upperPiece := Piece(splitPiece.file, splitPiece.fileOffset + lowerSize, upperSize,
          splitPiece.logicalOffset + lowerSize + textLength);
        upper := [upperPiece];
        assert upper == UpperPart(splitPiece, offset, piece);
        InsertInto(pre, rest, upperPiece);
        pieceTable := InsertAt(pieceTable, splitIndex, upperPiece);
        assert pieceTable == pre + (upper + rest);
      } else {
        assert upper == UpperPart(splitPiece, offset, piece);
        assert upper + rest == rest;
      }
      InsertInto(pre, upper + rest, piece);
      pieceTable := InsertAt(pieceTable, splitIndex, piece);
      ghost var lower: seq<Piece> := [];
      if lowerSize > 0 {
        var lowerPiece := Piece(splitPiece.file, splitPiece.fileOffset, lowerSize, splitPiece.logicalOffset);
        lower := [lowerPiece];
        assert lower == LowerPart(splitPiece, offset);
        InsertInto(pre, [piece] + (upper + rest), lowerPiece);
        pieceTable := InsertAt(pieceTable, splitIndex, lowerPiece);
        assert pieceTable == pre + (lower + ([piece] + (upper + rest)));
      } else {
        assert lower == LowerPart(splitPiece, offset);
        assert lower + ([piece] + (upper + rest)) == [piece] + (upper + rest);
      }
      Nest(pre, lower, [piece], upper, rest);
    }

    /** `delete(offset, length)`: scan the pieces from the start index up
        to the end index for one that strictly holds the range and split
        it; the action it builds is dropped, and neither the recorded
        length nor the action log changes. */
    method Delete(offset: nat, len: nat)
      requires EarlyDeleteDefined(pieceTable, offset, len)
      modifies this`pieceTable
      ensures pieceTable == EarlyDeletedTable(old(pieceTable), offset, len)
      ensures length == old(length) && actions == old(actions)
    {
      ghost var ps := pieceTable;
      var startOffset := offset;
      var endOffset := offset + len;
      var found := GetAtOffset(pieceTable, startOffset);
      var startIndex := found.value;
      found := GetAtOffset(pieceTable, endOffset);
      var endIndex := found.value;
      LocateMonotone(pieceTable, startOffset, endOffset);
      var deleteSize := endIndex - startIndex;
      assert Locate(ps, offset) == Some(startIndex) && Locate(ps, offset + len) == Some(endIndex);
      var action := EarlyAction(Operation.Delete, offset, [], len);
      for index := startIndex to endIndex
        invariant pieceTable == ps
        invariant FirstInside(ps, startIndex, endIndex, startOffset, endOffset) ==
          FirstInside(ps, index, endIndex, startOffset, endOffset)
      {
        var piece := pieceTable[index];
        var pieceStartOffset := piece.logicalOffset;
        var pieceEndOffset := piece.logicalOffset + piece.length;
        if startOffset > pieceStartOffset && endOffset < pieceEndOffset {
          var fragment := SplitPiece(index, startOffset, endOffset, deleteSize);
          action := action.(pieces := action.pieces + [fragment]);
          assert FirstInside(ps, startIndex, endIndex, startOffset, endOffset) == Some(index);
          EarlyDeletedAt(ps, offset, len, startIndex, endIndex);
          return;
        }
      }
      EarlyDeletedAt(ps, offset, len, startIndex, endIndex);
    }
  
    /** The branch of `delete` for a range strictly inside the piece at
        `index`: the piece gives way to its part below the range and a
        part `deleteSize` bytes further on; the fragment it records is
        returned. */
    method SplitPiece(index: nat, startOffset: nat, endOffset: nat, deleteSize: nat) returns (fragment: Piece)
      requires index < |pieceTable| && Inside(pieceTable[index], startOffset, endOffset)
      modifies this`pieceTable
      ensures pieceTable == SplitOut(old(pieceTable), index, startOffset, endOffset, deleteSize)
      ensures fragment == Piece(old(pieceTable)[index].file,
        old(pieceTable)[index].fileOffset + (startOffset - old(pieceTable)[index].logicalOffset), deleteSize, startOffset)
    {
      ghost var pre := pieceTable[..index];
      ghost var rest := pieceTable[index + 1..];
      var piece := pieceTable[index];
      var pieceStartOffset := piece.logicalOffset;
      var pieceEndOffset := piece.logicalOffset + piece.length;
      pieceTable := RemoveAt(pieceTable, index);
      assert pieceTable == pre + rest;
      var upperSize := pieceEndOffset - endOffset;
      var lowerSize := startOffset - pieceStartOffset;
      fragment := Piece(piece.file, piece.fileOffset + (startOffset - piece.logicalOffset), deleteSize, startOffset);
      var upperPiece := Piece(piece.file, piece.fileOffset + lowerSize + deleteSize, upperSize, startOffset);
      var lowerPiece := Piece(piece.file, piece.fileOffset, lowerSize, piece.logicalOffset);
      InsertInto(pre, rest, upperPiece);
      pieceTable := InsertAt(pieceTable, index, upperPiece);
      InsertInto(pre, [upperPiece] + rest, lowerPiece);
      pieceTable := InsertAt(pieceTable, index, lowerPiece);
      assert pieceTable == pre + [lowerPiece, upperPiece] + rest;
    }
  }
}
