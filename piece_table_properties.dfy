/** What the piece-table edits of `byt::io::file` do to the document, the
    places where they do something else than intended, and the corrected
    edits. */
module PieceTableProperties {
  import opened Utf8
  import opened Pieces
  import opened PieceTable

  // ---------------------------------------------------------------------
  // Insert

  /** The bytes of the three parts `_insert` puts in place of the split
      piece: its head, the new text, its tail. */
  lemma {:induction false} SplitAroundContent(sp: Piece, offset: nat, np: Piece, original: seq<Byte>, append: seq<Byte>)
    requires Fits(sp, original, append) && Fits(np, original, append)
    requires sp.logicalOffset <= offset <= sp.End()
    ensures AllFit(SplitAround(sp, offset, np), original, append)
    ensures Content(SplitAround(sp, offset, np), original, append) ==
      BytesOf(sp, original, append)[..offset - sp.logicalOffset]
      + BytesOf(np, original, append)
      + BytesOf(sp, original, append)[offset - sp.logicalOffset..]
  {
    LowerPartContent(sp, offset, original, append);
    UpperPartContent(sp, offset, np, original, append);
    ContentSingle(np, original, append);
    ContentThree(LowerPart(sp, offset), [np], UpperPart(sp, offset, np), original, append);
  }

  /** The part below the offset holds the split piece's bytes before it. */
  lemma {:induction false} LowerPartContent(sp: Piece, offset: nat, original: seq<Byte>, append: seq<Byte>)
    requires Fits(sp, original, append)
    requires sp.logicalOffset <= offset <= sp.End()
    ensures AllFit(LowerPart(sp, offset), original, append)
    ensures Content(LowerPart(sp, offset), original, append) == BytesOf(sp, original, append)[..offset - sp.logicalOffset]
  {
    if offset > sp.logicalOffset {
      assert LowerPart(sp, offset) == [Head(sp, offset)];
      HeadTailBytes(sp, offset, original, append);
      ContentSingle(Head(sp, offset), original, append);
    } else {
      assert LowerPart(sp, offset) == [];
      assert Content([], original, append) == [];
    }
  }

  /** The part above the offset holds the split piece's bytes from it on. */
  lemma {:induction false} UpperPartContent(sp: Piece, offset: nat, np: Piece, original: seq<Byte>, append: seq<Byte>)
    requires Fits(sp, original, append)
    requires sp.logicalOffset <= offset <= sp.End()
    ensures AllFit(UpperPart(sp, offset, np), original, append)
    ensures Content(UpperPart(sp, offset, np), original, append) == BytesOf(sp, original, append)[offset - sp.logicalOffset..]
  {
    HeadTailBytes(sp, offset, original, append);
    if offset < sp.End() {
      var u := UpperPart(sp, offset, np)[0];
      assert BytesOf(u, original, append) == BytesOf(Tail(sp, offset), original, append);
      ContentSingle(u, original, append);
    }
  }

  /** The pieces before the split, then the head of the split piece, are
      numbered as in a contiguous table. */
  lemma {:induction false} SplitPrefixContiguous(ps: seq<Piece>, i: nat, offset: nat, np: Piece)
    requires Contiguous(ps) && i < |ps|
    requires ps[i].logicalOffset < offset <= ps[i].End()
    ensures Contiguous((ps[..i] + SplitAround(ps[i], offset, np) + ps[i + 1..])[..i + 1])
  {
    var split := ps[..i] + SplitAround(ps[i], offset, np) + ps[i + 1..];
    var pre := split[..i + 1];
    forall k | 0 <= k < |pre|
      ensures pre[k].logicalOffset == Total(pre[..k])
    {
      assert pre[..k] == ps[..k];
    }
  }

  /** `_insert` into a contiguous table at an offset inside the document
      puts the text at that offset and keeps the table contiguous, with a
      length grown by the text's. */
  lemma {:induction false} InsertPlacesText(ps: seq<Piece>, original: seq<Byte>, append: seq<Byte>, text: seq<Byte>, offset: nat)
    requires Contiguous(ps) && AllFit(ps, original, append)
    requires offset <= Total(ps)
    ensures InsertDefined(ps, Total(ps), offset)
    ensures Contiguous(InsertedTable(ps, Total(ps), offset, NewPiece(|append|, |text|)))
    ensures AllFit(InsertedTable(ps, Total(ps), offset, NewPiece(|append|, |text|)), original, append + text)
    ensures Total(InsertedTable(ps, Total(ps), offset, NewPiece(|append|, |text|))) == Total(ps) + |text|
    ensures Content(InsertedTable(ps, Total(ps), offset, NewPiece(|append|, |text|)), original, append + text) ==
      Content(ps, original, append)[..offset] + text + Content(ps, original, append)[offset..]
  {
    var np := NewPiece(|append|, |text|);
    var app := append + text;
    ContentGrowAppend(ps, original, append, text);
    assert Fits(np, original, app);
    assert BytesOf(np, original, app) == text;
    ContentSingle(np, original, app);
    if offset == 0 {
      InsertAtFront(ps, original, app, np);
    } else if offset == Total(ps) {
      InsertAtEnd(ps, original, app, np);
    } else {
      InsertInside(ps, original, app, np, offset);
    }
  }

  lemma {:induction false} InsertAtFront(ps: seq<Piece>, original: seq<Byte>, append: seq<Byte>, np: Piece)
    requires Contiguous(ps) && AllFit(ps, original, append)
    requires Fits(np, original, append) && np.logicalOffset == 0
    ensures InsertDefined(ps, Total(ps), 0)
    ensures Contiguous(InsertedTable(ps, Total(ps), 0, np))
    ensures AllFit(InsertedTable(ps, Total(ps), 0, np), original, append)
    ensures Content(InsertedTable(ps, Total(ps), 0, np), original, append) ==
      Content(ps, original, append)[..0] + BytesOf(np, original, append) + Content(ps, original, append)[0..]
  {
    var r := InsertedTable(ps, Total(ps), 0, np);
    assert ([np] + ps)[..1] == [np];
    assert [np][..0] == [];
    RenumberedContiguous([np] + ps, 0);
    ContentSingle(np, original, append);
    ContentConcat([np], ps, original, append);
    SameShapeContent([np] + ps, r, original, append);
    var doc := Content(ps, original, append);
    assert doc[..0] == [] && doc[0..] == doc;
  }

  lemma {:induction false} InsertAtEnd(ps: seq<Piece>, original: seq<Byte>, append: seq<Byte>, np: Piece)
    requires Contiguous(ps) && AllFit(ps, original, append)
    requires Fits(np, original, append) && Total(ps) > 0
    ensures InsertDefined(ps, Total(ps), Total(ps))
    ensures Contiguous(InsertedTable(ps, Total(ps), Total(ps), np))
    ensures AllFit(InsertedTable(ps, Total(ps), Total(ps), np), original, append)
    ensures Content(InsertedTable(ps, Total(ps), Total(ps), np), original, append) ==
      Content(ps, original, append)[..Total(ps)] + BytesOf(np, original, append) + Content(ps, original, append)[Total(ps)..]
  {
    var last := np.(logicalOffset := Total(ps));
    assert InsertedTable(ps, Total(ps), Total(ps), np) == ps + [last];
    AppendContiguous(ps, last);
    AppendContent(ps, last, original, append);
    assert BytesOf(last, original, append) == BytesOf(np, original, append);
  }

  /** A piece put after the last one adds its bytes at the end. */
  lemma {:induction false} AppendContent(ps: seq<Piece>, last: Piece, original: seq<Byte>, append: seq<Byte>)
    requires AllFit(ps, original, append) && Fits(last, original, append)
    ensures AllFit(ps + [last], original, append)
    ensures Content(ps + [last], original, append) ==
      Content(ps, original, append)[..Total(ps)] + BytesOf(last, original, append) + Content(ps, original, append)[Total(ps)..]
  {
    ContentSingle(last, original, append);
    ContentConcat(ps, [last], original, append);
    var doc := Content(ps, original, append);
    assert doc[..Total(ps)] == doc && doc[Total(ps)..] == [];
  }

  /** A piece numbered at the end of a contiguous table extends it
      contiguously. */
  lemma {:induction false} AppendContiguous(ps: seq<Piece>, last: Piece)
    requires Contiguous(ps) && last.logicalOffset == Total(ps)
    ensures Contiguous(ps + [last])
  {
    var r := ps + [last];
    forall k | 0 <= k < |r|
      ensures r[k].logicalOffset == Total(r[..k])
    {
      assert r[..k] == ps[..k];
    }
  }

  lemma {:induction false} InsertInside(ps: seq<Piece>, original: seq<Byte>, append: seq<Byte>, np: Piece, offset: nat)
    requires Contiguous(ps) && AllFit(ps, original, append)
    requires Fits(np, original, append)
    requires 0 < offset < Total(ps)
    ensures InsertDefined(ps, Total(ps), offset)
    ensures Contiguous(InsertedTable(ps, Total(ps), offset, np))
    ensures AllFit(InsertedTable(ps, Total(ps), offset, np), original, append)
    ensures Content(InsertedTable(ps, Total(ps), offset, np), original, append) ==
      Content(ps, original, append)[..offset] + BytesOf(np, original, append) + Content(ps, original, append)[offset..]
  {
    LocateInPiece(ps, offset);
    var i := Locate(ps, offset).value;
    assert ps[0].logicalOffset == 0 by {
      assert ps[..0] == [];
    }
    assert ps[i].logicalOffset < offset;
    assert ps[i].logicalOffset == Total(ps[..i]);
    assert InsertDefined(ps, Total(ps), offset);
    var split := ps[..i] + SplitAround(ps[i], offset, np) + ps[i + 1..];
    assert InsertedTable(ps, Total(ps), offset, np) == Renumbered(split, i);
    SplitPrefixContiguous(ps, i, offset, np);
    RenumberedContiguous(split, i);
    SplitContent(ps, original, append, np, offset, i);
    SameShapeContent(split, Renumbered(split, i), original, append);
  }

  /** The bytes of the table `_insert` builds before renumbering. */
  lemma {:induction false} SplitContent(ps: seq<Piece>, original: seq<Byte>, append: seq<Byte>, np: Piece, offset: nat, i: nat)
    requires AllFit(ps, original, append) && Fits(np, original, append)
    requires i < |ps| && ps[i].logicalOffset == Total(ps[..i])
    requires ps[i].logicalOffset <= offset <= ps[i].End()
    ensures offset <= Total(ps)
    ensures AllFit(ps[..i] + SplitAround(ps[i], offset, np) + ps[i + 1..], original, append)
    ensures Content(ps[..i] + SplitAround(ps[i], offset, np) + ps[i + 1..], original, append) ==
      Content(ps, original, append)[..offset] + BytesOf(np, original, append) + Content(ps, original, append)[offset..]
  {
    var sa := SplitAround(ps[i], offset, np);
    var k := offset - ps[i].logicalOffset;
    var mid := BytesOf(ps[i], original, append);
    var pre := Content(ps[..i], original, append);
    var post := Content(ps[i + 1..], original, append);
    var b := BytesOf(np, original, append);
    ContentSplitAt(ps, i, offset, original, append);
    SplitAroundContent(ps[i], offset, np, original, append);
    ContentThree(ps[..i], sa, ps[i + 1..], original, append);
    assert Content(ps[..i] + sa + ps[i + 1..], original, append) == pre + (mid[..k] + b + mid[k..]) + post;
    Regroup(pre, mid[..k], b, mid[k..], post);
  }

  lemma ConcatAssoc<T>(a: seq<T>, b: seq<T>, c: seq<T>)
    ensures a + b + c == a + (b + c)
  {
  }

  lemma {:induction false} Regroup<T>(a: seq<T>, b: seq<T>, c: seq<T>, d: seq<T>, e: seq<T>)
    ensures a + (b + c + d) + e == (a + b) + c + (d + e)
  {
  }

  // ---------------------------------------------------------------------
  // Delete

  /** Emptied pieces hold no bytes. */
  lemma {:induction false} EmptiedContent(ps: seq<Piece>, original: seq<Byte>, append: seq<Byte>)
    requires AllFit(ps, original, append)
    ensures AllFit(Emptied(ps), original, append)
    ensures Content(Emptied(ps), original, append) == []
    decreases |ps|
  {
    if ps != [] {
      var init := ps[..|ps| - 1];
      assert Emptied(ps)[..|ps| - 1] == Emptied(init);
      EmptiedContent(init, original, append);
    }
  }

  /** The pieces before `s` and the head of piece `s` up to `offset` hold
      the document up to `offset`. */
  lemma {:induction false} HeadContent(ps: seq<Piece>, s: nat, offset: nat, original: seq<Byte>, append: seq<Byte>)
    requires AllFit(ps, original, append) && s < |ps|
    requires ps[s].logicalOffset == Total(ps[..s])
    requires ps[s].logicalOffset <= offset <= ps[s].End()
    ensures offset <= Total(ps)
    ensures AllFit(ps[..s] + [Head(ps[s], offset)], original, append)
    ensures Content(ps[..s] + [Head(ps[s], offset)], original, append) == Content(ps, original, append)[..offset]
  {
    ContentSplitAt(ps, s, offset, original, append);
    HeadTailBytes(ps[s], offset, original, append);
    ContentSingle(Head(ps[s], offset), original, append);
    ContentConcat(ps[..s], [Head(ps[s], offset)], original, append);
  }

  /** The tail of piece `e` from `endOffset` and the pieces after it hold
      the document from `endOffset`. */
  lemma {:induction false} TailContent(ps: seq<Piece>, e: nat, endOffset: nat, original: seq<Byte>, append: seq<Byte>)
    requires AllFit(ps, original, append) && e < |ps|
    requires ps[e].logicalOffset == Total(ps[..e])
    requires ps[e].logicalOffset <= endOffset <= ps[e].End()
    ensures endOffset <= Total(ps)
    ensures Fits(Tail(ps[e], endOffset), original, append) && AllFit(ps[e + 1..], original, append)
    ensures AllFit([Tail(ps[e], endOffset)] + ps[e + 1..], original, append)
    ensures Content([Tail(ps[e], endOffset)] + ps[e + 1..], original, append) == Content(ps, original, append)[endOffset..]
  {
    ContentSplitAt(ps, e, endOffset, original, append);
    HeadTailBytes(ps[e], endOffset, original, append);
    ContentSingle(Tail(ps[e], endOffset), original, append);
    ContentConcat([Tail(ps[e], endOffset)], ps[e + 1..], original, append);
  }

  /** The table made of the pieces before `s`, the head of piece `s` up to
      `offset`, pieces without bytes, the tail of piece `e` from
      `endOffset`, and the pieces after `e`, holds the document without
      the bytes from `offset` to `endOffset`. */
  lemma {:induction false} SpliceContent(ps: seq<Piece>, s: nat, e: nat, offset: nat, endOffset: nat, mids: seq<Piece>,
                      original: seq<Byte>, append: seq<Byte>)
    requires AllFit(ps, original, append) && s <= e < |ps|
    requires ps[s].logicalOffset == Total(ps[..s]) && ps[e].logicalOffset == Total(ps[..e])
    requires ps[s].logicalOffset <= offset <= ps[s].End()
    requires ps[e].logicalOffset <= endOffset <= ps[e].End()
    requires AllFit(mids, original, append) && Content(mids, original, append) == []
    ensures offset <= Total(ps) && endOffset <= Total(ps)
    ensures AllFit(ps[..s] + [Head(ps[s], offset)] + mids + [Tail(ps[e], endOffset)] + ps[e + 1..], original, append)
    ensures Content(ps[..s] + [Head(ps[s], offset)] + mids + [Tail(ps[e], endOffset)] + ps[e + 1..], original, append) ==
      Content(ps, original, append)[..offset] + Content(ps, original, append)[endOffset..]
  {
    HeadContent(ps, s, offset, original, append);
    TailContent(ps, e, endOffset, original, append);
    SpliceAssemble(ps[..s] + [Head(ps[s], offset)], mids, Tail(ps[e], endOffset), ps[e + 1..],
                   Content(ps, original, append), offset, endOffset, original, append);
  }

  /** Joining a front holding the document up to `offset`, pieces without
      bytes, and a tail holding it from `endOffset` gives the document
      without the range between. */
  lemma {:induction false} SpliceAssemble(front: seq<Piece>, mids: seq<Piece>, tail: Piece, rest: seq<Piece>,
                                          doc: seq<Byte>, offset: nat, endOffset: nat,
                                          original: seq<Byte>, append: seq<Byte>)
    requires offset <= |doc| && endOffset <= |doc|
    requires AllFit(front, original, append) && AllFit(mids, original, append)
    requires Fits(tail, original, append) && AllFit(rest, original, append)
    requires Content(front, original, append) == doc[..offset]
    requires Content(mids, original, append) == []
    requires Content([tail] + rest, original, append) == doc[endOffset..]
    ensures AllFit(front + mids + [tail] + rest, original, append)
    ensures Content(front + mids + [tail] + rest, original, append) == doc[..offset] + doc[endOffset..]
  {
    ContentConcat(front, mids, original, append);
    var fm := Content(front + mids, original, append);
    assert fm == doc[..offset];
    ContentSingle(tail, original, append);
    ContentConcat([tail], rest, original, append);
    var tr := BytesOf(tail, original, append) + Content(rest, original, append);
    assert tr == doc[endOffset..];
    ContentConcat(front + mids, [tail], original, append);
    ContentConcat(front + mids + [tail], rest, original, append);
    assert Content(front + mids + [tail] + rest, original, append) == fm + BytesOf(tail, original, append) + Content(rest, original, append);
    ConcatAssoc(fm, BytesOf(tail, original, append), Content(rest, original, append));
  }

  /** The table of `_delete`'s branch across pieces `s` to `e` (cut,
      emptied pieces dropped, renumbered from `s`) holds exactly the
      document without the bytes from `offset` to `endOffset`, and its
      total shrinks by their number. */
  lemma {:induction false} AcrossTableRemovesRange(ps: seq<Piece>, s: nat, e: nat, offset: nat, endOffset: nat,
                         original: seq<Byte>, append: seq<Byte>)
    requires Contiguous(ps) && AllFit(ps, original, append) && s < e < |ps|
    requires ps[s].logicalOffset <= offset <= ps[s].End()
    requires ps[e].logicalOffset <= endOffset <= ps[e].End()
    requires s < |NonEmpty(CutAcross(ps, s, e, offset, endOffset))|
    ensures offset <= endOffset <= Total(ps)
    ensures AllFit(Renumbered(NonEmpty(CutAcross(ps, s, e, offset, endOffset)), s), original, append)
    ensures Content(Renumbered(NonEmpty(CutAcross(ps, s, e, offset, endOffset)), s), original, append) ==
      Content(ps, original, append)[..offset] + Content(ps, original, append)[endOffset..]
    ensures Total(Renumbered(NonEmpty(CutAcross(ps, s, e, offset, endOffset)), s)) == Total(ps) - (endOffset - offset)
  {
    var cut := CutAcross(ps, s, e, offset, endOffset);
    var r := Renumbered(NonEmpty(cut), s);
    CutAcrossContent(ps, s, e, offset, endOffset, original, append);
    NonEmptyContent(cut, original, append);
    SameShapeContent(NonEmpty(cut), r, original, append);
    LocateOrder(ps, s, e, offset, endOffset);
  }

  /** Offsets inside pieces come in the order of the pieces. */
  lemma {:induction false} LocateOrder(ps: seq<Piece>, s: nat, e: nat, offset: nat, endOffset: nat)
    requires Contiguous(ps) && s < e < |ps|
    requires offset <= ps[s].End() && ps[e].logicalOffset <= endOffset
    ensures offset <= endOffset
  {
    assert ps[e].logicalOffset == Total(ps[..e]);
    assert ps[s + 1].logicalOffset == Total(ps[..s + 1]);
    TotalStep(ps, s);
    TotalPrefixMonotone(ps, s + 1, e);
  }

  lemma {:induction false} CutAcrossContent(ps: seq<Piece>, s: nat, e: nat, offset: nat, endOffset: nat,
                         original: seq<Byte>, append: seq<Byte>)
    requires Contiguous(ps) && AllFit(ps, original, append) && s < e < |ps|
    requires ps[s].logicalOffset <= offset <= ps[s].End()
    requires ps[e].logicalOffset <= endOffset <= ps[e].End()
    ensures offset <= Total(ps) && endOffset <= Total(ps)
    ensures AllFit(CutAcross(ps, s, e, offset, endOffset), original, append)
    ensures Content(CutAcross(ps, s, e, offset, endOffset), original, append) ==
      Content(ps, original, append)[..offset] + Content(ps, original, append)[endOffset..]
  {
    var mids := Emptied(ps[s + 1..e]);
    assert ps[s].logicalOffset == Total(ps[..s]) && ps[e].logicalOffset == Total(ps[..e]);
    assert AllFit(ps[s + 1..e], original, append);
    EmptiedContent(ps[s + 1..e], original, append);
    SpliceContent(ps, s, e, offset, endOffset, mids, original, append);
  }

  /** The single-piece branch of `_delete` keeps the pieces around piece
      `s` and, of that piece's bytes, those before `offset` and then, from
      the byte after `offset`, as many bytes as follow `endOffset`: it
      drops `endOffset - offset` bytes, yet they are the byte at `offset`
      and the last `endOffset - offset - 1` bytes of the piece. */
  lemma {:induction false} WithinKeepsFromNextByte(ps: seq<Piece>, s: nat, offset: nat, endOffset: nat,
                                                   original: seq<Byte>, append: seq<Byte>)
    requires AllFit(ps, original, append)
    requires s < |ps| && ps[s].logicalOffset <= offset < endOffset <= ps[s].End()
    ensures AllFit(ps[..s], original, append) && AllFit(ps[s + 1..], original, append)
    ensures Content(ps, original, append) ==
      Content(ps[..s], original, append) + BytesOf(ps[s], original, append) + Content(ps[s + 1..], original, append)
    ensures AllFit(WithinTable(ps, s, offset, endOffset), original, append)
    ensures Content(WithinTable(ps, s, offset, endOffset), original, append) ==
      Content(ps[..s], original, append)
      + (BytesOf(ps[s], original, append)[..offset - ps[s].logicalOffset]
         + BytesOf(ps[s], original, append)[offset - ps[s].logicalOffset + 1..ps[s].length - (endOffset - offset) + 1])
      + Content(ps[s + 1..], original, append)
  {
    var p := ps[s];
    var lower := Piece(p.file, p.fileOffset, offset - p.logicalOffset, p.logicalOffset);
    var upper := Piece(p.file, p.fileOffset + (offset - p.logicalOffset) + 1, p.End() - endOffset, offset);
    var t := ps[..s] + [lower, upper] + ps[s + 1..];
    assert WithinTable(ps, s, offset, endOffset) == t;
    TwoPieceContent(p, lower, upper, offset - p.logicalOffset, p.length - (endOffset - offset) + 1, original, append);
    assert Content([lower, upper], original, append) ==
      BytesOf(ps[s], original, append)[..offset - ps[s].logicalOffset]
      + BytesOf(ps[s], original, append)[offset - ps[s].logicalOffset + 1..ps[s].length - (endOffset - offset) + 1];
    ReplacePieceContent(ps, s, [lower, upper], original, append);
    assert Content(WithinTable(ps, s, offset, endOffset), original, append) == Content(t, original, append);
  }

  /** Cutting one byte out of a piece's bytes with two sub-pieces. */
  lemma {:induction false} TwoPieceContent(p: Piece, lower: Piece, upper: Piece, k: nat, hi: nat,
                                           original: seq<Byte>, append: seq<Byte>)
    requires Fits(p, original, append)
    requires lower.file == p.file && lower.fileOffset == p.fileOffset && lower.length == k
    requires upper.file == p.file && upper.fileOffset == p.fileOffset + k + 1
    requires hi == k + 1 + upper.length <= p.length
    ensures AllFit([lower, upper], original, append)
    ensures Content([lower, upper], original, append) ==
      BytesOf(p, original, append)[..k] + BytesOf(p, original, append)[k + 1..hi]
  {
    SubPieceBytes(p, lower, 0, original, append);
    SubPieceBytes(p, upper, k + 1, original, append);
    ContentSingle(lower, original, append);
    ContentSingle(upper, original, append);
    ContentConcat([lower], [upper], original, append);
    assert [lower] + [upper] == [lower, upper];
  }

  /** Replacing piece `s` by the pieces `mids` replaces its bytes by theirs. */
  lemma {:induction false} ReplacePieceContent(ps: seq<Piece>, s: nat, mids: seq<Piece>, original: seq<Byte>, append: seq<Byte>)
    requires AllFit(ps, original, append) && s < |ps| && AllFit(mids, original, append)
    ensures AllFit(ps[..s], original, append) && AllFit(ps[s + 1..], original, append)
    ensures AllFit(ps[..s] + mids + ps[s + 1..], original, append)
    ensures Content(ps, original, append) ==
      Content(ps[..s], original, append) + BytesOf(ps[s], original, append) + Content(ps[s + 1..], original, append)
    ensures Content(ps[..s] + mids + ps[s + 1..], original, append) ==
      Content(ps[..s], original, append) + Content(mids, original, append) + Content(ps[s + 1..], original, append)
  {
    ContentAround(ps, s, original, append);
    ContentThree(ps[..s], mids, ps[s + 1..], original, append);
  }

  /** Deleting one byte inside a piece: then the kept bytes are the right
      ones. */
  lemma {:induction false} DeleteOneByteWithin(ps: seq<Piece>, s: nat, offset: nat,
                                               original: seq<Byte>, append: seq<Byte>)
    requires Contiguous(ps) && AllFit(ps, original, append)
    requires s < |ps| && ps[s].logicalOffset <= offset < ps[s].End()
    ensures offset + 1 <= Total(ps)
    ensures AllFit(WithinTable(ps, s, offset, offset + 1), original, append)
    ensures Content(WithinTable(ps, s, offset, offset + 1), original, append) ==
      Content(ps, original, append)[..offset] + Content(ps, original, append)[offset + 1..]
  {
    var p := ps[s];
    var spliced := ps[..s] + [Head(p, offset)] + [] + [Tail(p, offset + 1)] + ps[s + 1..];
    assert ps[s].logicalOffset == Total(ps[..s]);
    SpliceContent(ps, s, s, offset, offset + 1, [], original, append);
    OneByteShape(ps, s, offset);
    SameShapeContent(spliced, WithinTable(ps, s, offset, offset + 1), original, append);
  }

  /** With one byte, the single-piece table has the shape of the splice. */
  lemma {:induction false} OneByteShape(ps: seq<Piece>, s: nat, offset: nat)
    requires s < |ps| && ps[s].logicalOffset <= offset < ps[s].End()
    ensures SameShape(ps[..s] + [Head(ps[s], offset)] + [] + [Tail(ps[s], offset + 1)] + ps[s + 1..],
      WithinTable(ps, s, offset, offset + 1))
  {
    var p := ps[s];
    var a := ps[..s] + [Head(p, offset)] + [] + [Tail(p, offset + 1)] + ps[s + 1..];
    var b := WithinTable(ps, s, offset, offset + 1);
    forall k | 0 <= k < |a|
      ensures a[k].file == b[k].file && a[k].fileOffset == b[k].fileOffset && a[k].length == b[k].length
    {
      if k < s {
        assert a[k] == ps[k] == b[k];
      } else if k > s + 1 {
        assert a[k] == ps[k - 1] == b[k];
      }
    }
  }
}
