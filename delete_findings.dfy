/** Where `_delete` of `byt::io::file` does something else than removing
    the requested range, shown on concrete tables, and the delete it
    evidently intends, with its content and numbering proved. */
module DeleteFindings {
  import opened Utf8
  import opened Pieces
  import opened PieceTable
  import opened PieceTableProperties

  // ---------------------------------------------------------------------
  // As written

  /** One Append piece holding "abc". */
  function Abc(): seq<Byte> { [97, 98, 99] }

  /** Deleting two bytes from the start of "abc": both ends fall in the
      one piece, and the single-piece branch skips `delete_size` = 1 byte
      before its upper part, so the document becomes "b", not "c". */
  lemma WithinDeleteKeepsWrongByte()
    ensures DeleteDefined([Piece(Append, 0, 3, 0)], 3, 0, 2)
    ensures AllFit(DeletedTable([Piece(Append, 0, 3, 0)], 3, 0, 2), [], Abc())
    ensures Content(DeletedTable([Piece(Append, 0, 3, 0)], 3, 0, 2), [], Abc()) == [98]
    ensures Content([Piece(Append, 0, 3, 0)], [], Abc())[..0] + Content([Piece(Append, 0, 3, 0)], [], Abc())[2..] == [99]
  {
    AbcWithinTable();
    AbcLowerUpperContent();
    var ps := [Piece(Append, 0, 3, 0)];
    assert ps[..0] == [];
    assert Content(ps, [], Abc()) == Abc();
  }

  /** The table the single-piece branch leaves for delete(0, 2) on "abc":
      an empty lower part and the one byte after `delete_size`. */
  lemma AbcWithinTable()
    ensures DeleteDefined([Piece(Append, 0, 3, 0)], 3, 0, 2)
    ensures DeletedTable([Piece(Append, 0, 3, 0)], 3, 0, 2) == [Piece(Append, 0, 0, 0), Piece(Append, 1, 1, 0)]
  {
    var ps := [Piece(Append, 0, 3, 0)];
    assert ps[..0] == [] && ps[..1] == ps;
    assert Locate(ps, 0) == Some(0);
    assert Locate(ps, 2) == Some(0);
  }

  /** That table reads "b". */
  lemma AbcLowerUpperContent()
    ensures AllFit([Piece(Append, 0, 0, 0), Piece(Append, 1, 1, 0)], [], Abc())
    ensures Content([Piece(Append, 0, 0, 0), Piece(Append, 1, 1, 0)], [], Abc()) == [98]
  {
    var lower := Piece(Append, 0, 0, 0);
    var upper := Piece(Append, 1, 1, 0);
    assert [lower, upper][..1] == [lower];
    assert [lower][..0] == [];
    assert Content([lower], [], Abc()) == [];
    assert BytesOf(upper, [], Abc()) == Abc()[1..2] == [98];
  }

  /** Deleting the first byte of a table of two pieces: the single-piece
      branch does not renumber, so the second piece keeps its old logical
      offset, one past where the document now puts it. */
  lemma WithinDeleteLeavesStaleOffsets()
    ensures Contiguous([Piece(Append, 0, 3, 0), Piece(Append, 3, 1, 3)])
    ensures DeleteDefined([Piece(Append, 0, 3, 0), Piece(Append, 3, 1, 3)], 4, 0, 1)
    ensures !Contiguous(DeletedTable([Piece(Append, 0, 3, 0), Piece(Append, 3, 1, 3)], 4, 0, 1))
  {
    var ps := [Piece(Append, 0, 3, 0), Piece(Append, 3, 1, 3)];
    assert ps[..0] == [] && ps[..1] == [ps[0]] && ps[..2] == ps;
    assert [ps[0]][..0] == [];
    assert Locate(ps, 0) == Some(0);
    assert Locate(ps, 1) == Some(0);
    var r := DeletedTable(ps, 4, 0, 1);
    assert r == [Piece(Append, 0, 0, 0), Piece(Append, 1, 2, 0), Piece(Append, 3, 1, 3)];
    assert r[..2] == [r[0], r[1]] && [r[0], r[1]][..1] == [r[0]] && [r[0]][..0] == [];
    assert Total(r[..2]) == 2;
    assert r[2].logicalOffset != Total(r[..2]);
  }

  /** Deleting from offset 0 of a table of two pieces (lengths `m >= 1`
      and `n >= 2`) one byte past the first piece: the head of the first
      piece is empty and purged, and renumbering from index 0 leaves the
      surviving tail of the second piece at its old logical offset `m`
      instead of 0. */
  lemma AcrossDeleteFromStartLeavesStaleOffset(m: nat, n: nat)
    requires m >= 1 && n >= 2
    ensures Contiguous([Piece(Append, 0, m, 0), Piece(Append, m, n, m)])
    ensures DeleteDefined([Piece(Append, 0, m, 0), Piece(Append, m, n, m)], m + n, 0, m + 1)
    ensures DeletedTable([Piece(Append, 0, m, 0), Piece(Append, m, n, m)], m + n, 0, m + 1) ==
      [Piece(Append, m + 1, n - 1, m)]
    ensures !Contiguous(DeletedTable([Piece(Append, 0, m, 0), Piece(Append, m, n, m)], m + n, 0, m + 1))
  {
    var a := Piece(Append, 0, m, 0);
    var b := Piece(Append, m, n, m);
    var ps := [a, b];
    assert ps[..0] == [] && ps[..1] == [a] && ps[..2] == ps;
    assert [a][..0] == [];
    assert Total([a]) == m;
    assert CumEnd(ps, 0) == m;
    assert Locate(ps, 0) == Some(0);
    assert Locate(ps, m + 1) == Some(1) by {
      assert !IsFirstCover(ps, m + 1, 0);
    }
    var t := Piece(Append, m + 1, n - 1, m);
    assert ps[1..1] == [] && ps[2..] == [];
    assert CutAcross(ps, 0, 1, 0, m + 1) == [Piece(Append, 0, 0, 0), t];
    NonEmptyOfTwo(Piece(Append, 0, 0, 0), t);
    assert Renumbered([t], 0) == [t] by {
      assert Renumbered([t], 0)[0] == t;
    }
    var r := DeletedTable(ps, m + n, 0, m + 1);
    assert r == [t];
    assert r[..0] == [];
  }

  /** "a" in the original file followed by an appended "bcdef", and a
      delete of three bytes from offset 0: the end piece starts at 1 but
      the cut reaches 2 bytes into it, so `piece_start_offset - lower_size`
      for the end fragment underflows, and the delete is outside what the
      source can run. */
  lemma EndFragmentUnderflows()
    ensures Contiguous([Piece(Original, 0, 1, 0), Piece(Append, 0, 5, 1)])
    ensures !DeleteDefined([Piece(Original, 0, 1, 0), Piece(Append, 0, 5, 1)], 6, 0, 3)
  {
    var a := Piece(Original, 0, 1, 0);
    var b := Piece(Append, 0, 5, 1);
    var ps := [a, b];
    assert ps[..0] == [] && ps[..1] == [a] && ps[..2] == ps;
    assert [a][..0] == [];
    assert Total([a]) == 1;
    assert CumEnd(ps, 0) == 1;
    assert Locate(ps, 0) == Some(0);
    assert Locate(ps, 3) == Some(1) by {
      assert !IsFirstCover(ps, 3, 0);
    }
  }

  /** Purging a table of an empty piece and a non-empty one. */
  lemma NonEmptyOfTwo(a: Piece, b: Piece)
    requires a.length == 0 < b.length
    ensures NonEmpty([a, b]) == [b]
  {
    assert [a, b][..1] == [a];
    assert [a][..0] == [];
  }

  // ---------------------------------------------------------------------
  // Corrected

  /** The pieces strictly between `s` and `e`, emptied. */
  function Between(ps: seq<Piece>, s: nat, e: nat): (r: seq<Piece>)
    requires s <= e < |ps|
    ensures |r| == e - s - (if s < e then 1 else 0)
  {
    if s == e then [] else Emptied(ps[s + 1..e])
  }

  /** The corrected cut: the head of piece `s` up to `offset`, the pieces
      between emptied, the tail of piece `e` from `endOffset`; the same
      formula serves a range inside one piece. */
  function SplicedPieces(ps: seq<Piece>, s: nat, e: nat, offset: nat, endOffset: nat): (r: seq<Piece>)
    requires s <= e < |ps|
    requires ps[s].logicalOffset <= offset <= ps[s].End()
    requires ps[e].logicalOffset <= endOffset <= ps[e].End()
    ensures |r| == |ps| + (if s == e then 1 else 0)
  {
    ps[..s] + [Head(ps[s], offset)] + Between(ps, s, e) + [Tail(ps[e], endOffset)] + ps[e + 1..]
  }

  /** The delete `_delete` evidently intends, for a range whose ends are
      located in pieces `s` and `e`: cut out the bytes from `offset` to
      `endOffset`, drop the empty pieces, renumber the whole table. */
  function CorrectedDeletedTable(ps: seq<Piece>, s: nat, e: nat, offset: nat, endOffset: nat): (r: seq<Piece>)
    requires s <= e < |ps|
    requires ps[s].logicalOffset <= offset <= ps[s].End()
    requires ps[e].logicalOffset <= endOffset <= ps[e].End()
    ensures |r| <= |ps| + 1
  {
    Reindexed(NonEmpty(SplicedPieces(ps, s, e, offset, endOffset)))
  }

  /** In a contiguous table, `get_at_offset` locates both ends of a range
      inside the document in pieces that hold them, in order: the indices
      `CorrectedDeletedTable` needs. */
  lemma LocatedEnds(ps: seq<Piece>, offset: nat, endOffset: nat)
    requires Contiguous(ps) && |ps| > 0 && offset <= endOffset <= Total(ps)
    ensures Locate(ps, offset).Some? && Locate(ps, endOffset).Some?
    ensures Locate(ps, offset).value <= Locate(ps, endOffset).value < |ps|
    ensures ps[Locate(ps, offset).value].logicalOffset <= offset <= ps[Locate(ps, offset).value].End()
    ensures ps[Locate(ps, endOffset).value].logicalOffset <= endOffset <= ps[Locate(ps, endOffset).value].End()
  {
    LocateInPiece(ps, offset);
    LocateInPiece(ps, endOffset);
    LocateMonotone(ps, offset, endOffset);
  }

  /** The spliced pieces hold the document without the range. */
  lemma {:induction false} SplicedRemovesRange(ps: seq<Piece>, s: nat, e: nat, offset: nat, endOffset: nat,
                                               original: seq<Byte>, append: seq<Byte>)
    requires Contiguous(ps) && AllFit(ps, original, append) && s <= e < |ps|
    requires ps[s].logicalOffset <= offset <= ps[s].End()
    requires ps[e].logicalOffset <= endOffset <= ps[e].End()
    ensures offset <= Total(ps) && endOffset <= Total(ps)
    ensures AllFit(SplicedPieces(ps, s, e, offset, endOffset), original, append)
    ensures Content(SplicedPieces(ps, s, e, offset, endOffset), original, append) ==
      Content(ps, original, append)[..offset] + Content(ps, original, append)[endOffset..]
  {
    assert ps[s].logicalOffset == Total(ps[..s]) && ps[e].logicalOffset == Total(ps[..e]);
    BetweenContent(ps, s, e, original, append);
    SpliceContent(ps, s, e, offset, endOffset, Between(ps, s, e), original, append);
  }

  /** The emptied pieces between the ends fit and hold nothing. */
  lemma BetweenContent(ps: seq<Piece>, s: nat, e: nat, original: seq<Byte>, append: seq<Byte>)
    requires AllFit(ps, original, append) && s <= e < |ps|
    ensures AllFit(Between(ps, s, e), original, append)
    ensures Content(Between(ps, s, e), original, append) == []
  {
    if s < e {
      assert AllFit(ps[s + 1..e], original, append);
      EmptiedContent(ps[s + 1..e], original, append);
    } else {
      assert Content([], original, append) == [];
    }
  }

  /** Purging empty pieces and renumbering from zero keeps the content,
      leaves no empty piece, and makes the table contiguous. */
  lemma {:induction false} PurgeReindex(ps: seq<Piece>, original: seq<Byte>, append: seq<Byte>)
    requires AllFit(ps, original, append)
    ensures Contiguous(Reindexed(NonEmpty(ps)))
    ensures forall k :: 0 <= k < |Reindexed(NonEmpty(ps))| ==> Reindexed(NonEmpty(ps))[k].length > 0
    ensures AllFit(Reindexed(NonEmpty(ps)), original, append)
    ensures Content(Reindexed(NonEmpty(ps)), original, append) == Content(ps, original, append)
  {
    NonEmptyContent(ps, original, append);
    SameShapeContent(NonEmpty(ps), Reindexed(NonEmpty(ps)), original, append);
    ReindexedContiguous(NonEmpty(ps));
  }

  /** The corrected delete removes exactly the bytes from `offset` to
      `endOffset`, shrinks the total by their number, keeps the table
      contiguous and leaves no empty piece. */
  lemma {:induction false} CorrectedDeleteRemovesRange(ps: seq<Piece>, s: nat, e: nat, offset: nat, endOffset: nat,
                                                       original: seq<Byte>, append: seq<Byte>)
    requires Contiguous(ps) && AllFit(ps, original, append) && s <= e < |ps|
    requires ps[s].logicalOffset <= offset <= ps[s].End()
    requires ps[e].logicalOffset <= endOffset <= ps[e].End()
    requires offset <= endOffset
    ensures endOffset <= Total(ps)
    ensures Contiguous(CorrectedDeletedTable(ps, s, e, offset, endOffset))
    ensures forall k :: 0 <= k < |CorrectedDeletedTable(ps, s, e, offset, endOffset)| ==>
      CorrectedDeletedTable(ps, s, e, offset, endOffset)[k].length > 0
    ensures AllFit(CorrectedDeletedTable(ps, s, e, offset, endOffset), original, append)
    ensures Content(CorrectedDeletedTable(ps, s, e, offset, endOffset), original, append) ==
      Content(ps, original, append)[..offset] + Content(ps, original, append)[endOffset..]
    ensures Total(CorrectedDeletedTable(ps, s, e, offset, endOffset)) == Total(ps) - (endOffset - offset)
  {
    SplicedRemovesRange(ps, s, e, offset, endOffset, original, append);
    PurgeReindex(SplicedPieces(ps, s, e, offset, endOffset), original, append);
  }
}
