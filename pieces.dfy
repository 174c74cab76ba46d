/** Pieces of a piece table and the offset bookkeeping shared by both
    versions of the buffer: lengths and their prefix sums, the linear
    lookup of the piece holding a logical offset, the bytes a table
    stands for, and the renumbering of logical offsets. */
module Pieces {
  import opened Utf8

  datatype Option<T> = None | Some(value: T)

  /** Which backing store a piece refers to. */
  datatype Source = Original | Append

  datatype Piece = Piece(file: Source, fileOffset: nat, length: nat, logicalOffset: nat)
  {
    /** The logical offset just past this piece. */
    function End(): nat { logicalOffset + length }

    /** A logical offset of the whole table as an offset into this piece's
        store; the subtraction must not underflow. */
    function LogicalToFile(offset: nat): (r: nat)
      requires logicalOffset <= offset
      ensures offset < End() ==> fileOffset <= r < fileOffset + length
      ensures r - fileOffset == offset - logicalOffset
    {
      (offset - logicalOffset) + fileOffset
    }
  }

  // ---------------------------------------------------------------------
  // Lengths and prefix sums

  /** Sum of the lengths of `ps`. */
  function Total(ps: seq<Piece>): nat
  {
    if ps == [] then 0 else Total(ps[..|ps| - 1]) + ps[|ps| - 1].length
  }

  lemma {:induction false} TotalConcat(a: seq<Piece>, b: seq<Piece>)
    ensures Total(a + b) == Total(a) + Total(b)
    decreases |b|
  {
    if b == [] {
      assert a + b == a;
    } else {
      assert (a + b)[..|a + b| - 1] == a + b[..|b| - 1];
      TotalConcat(a, b[..|b| - 1]);
    }
  }

  /** The prefix sums grow with the prefix. */
  lemma {:induction false} TotalPrefixMonotone(ps: seq<Piece>, i: nat, j: nat)
    requires i <= j <= |ps|
    ensures Total(ps[..i]) <= Total(ps[..j])
  {
    assert ps[..j] == ps[..i] + ps[i..j];
    TotalConcat(ps[..i], ps[i..j]);
  }

  lemma TotalStep(ps: seq<Piece>, i: nat)
    requires i < |ps|
    ensures Total(ps[..i + 1]) == Total(ps[..i]) + ps[i].length
  {
    assert ps[..i + 1][..i] == ps[..i];
  }

  /** The same step for a run of pieces that starts at `s`. */
  lemma TotalSliceStep(ps: seq<Piece>, s: nat, i: nat)
    requires s <= i < |ps|
    ensures Total(ps[s..i + 1]) == Total(ps[s..i]) + ps[i].length
  {
    assert ps[s..i + 1][..i - s] == ps[s..i];
    assert ps[s..i + 1] == ps[s..i] + [ps[i]];
    TotalConcat(ps[s..i], [ps[i]]);
    assert [ps[i]][..0] == [];
  }

  /** Logical offsets are the prefix sums of the lengths: the first piece
      starts at 0 and every piece starts where its predecessor ends. */
  ghost predicate Contiguous(ps: seq<Piece>)
  {
    forall i :: 0 <= i < |ps| ==> ps[i].logicalOffset == Total(ps[..i])
  }

  /** Contiguity stated piece by piece. */
  lemma ContiguousChained(ps: seq<Piece>)
    requires Contiguous(ps)
    ensures |ps| > 0 ==> ps[0].logicalOffset == 0
    ensures forall k :: 0 < k < |ps| ==> ps[k].logicalOffset == ps[k - 1].End()
  {
    forall k | 0 < k < |ps|
      ensures ps[k].logicalOffset == ps[k - 1].End()
    {
      TotalStep(ps, k - 1);
    }
  }

  /** Two tables that refer to the same bytes, piece by piece, whatever
      their logical offsets. */
  predicate SameShape(a: seq<Piece>, b: seq<Piece>)
  {
    |a| == |b| &&
    forall k :: 0 <= k < |a| ==>
      a[k].file == b[k].file && a[k].fileOffset == b[k].fileOffset && a[k].length == b[k].length
  }

  lemma {:induction false} SameShapeTotal(a: seq<Piece>, b: seq<Piece>)
    requires SameShape(a, b)
    ensures Total(a) == Total(b)
    decreases |a|
  {
    if a != [] {
      SameShapeTotal(a[..|a| - 1], b[..|b| - 1]);
    }
  }

  // ---------------------------------------------------------------------
  // Lookup of the piece that holds an offset

  /** The cumulative end of piece `j`: the lengths of pieces 0..j. */
  function CumEnd(ps: seq<Piece>, j: nat): nat
    requires j < |ps|
  {
    Total(ps[..j + 1])
  }

  /** `i` is the first piece whose cumulative end reaches `o`. */
  ghost predicate IsFirstCover(ps: seq<Piece>, o: nat, i: nat)
  {
    i < |ps| && o <= CumEnd(ps, i) &&
    forall j :: 0 <= j < i ==> CumEnd(ps, j) < o
  }

  /** The scan of the lookup loop from index `i`, with `acc` the lengths
      seen so far. */
  function LocateFrom(ps: seq<Piece>, o: nat, i: nat, acc: nat): (r: Option<nat>)
    requires i <= |ps| && acc == Total(ps[..i])
    requires forall j :: 0 <= j < i ==> CumEnd(ps, j) < o
    ensures r.None? <==> (|ps| == 0 || o > Total(ps))
    ensures r.Some? ==> IsFirstCover(ps, o, r.value)
    decreases |ps| - i
  {
    if i == |ps| then
      assert ps[..i] == ps;
      assert i > 0 ==> CumEnd(ps, i - 1) < o;
      None
    else
      TotalStep(ps, i);
      if o <= acc + ps[i].length then
        TotalPrefixMonotone(ps, i + 1, |ps|);
        assert ps[..|ps|] == ps;
        Some(i)
      else
        LocateFrom(ps, o, i + 1, acc + ps[i].length)
  }

  /** The index of the piece holding logical offset `o`: the first piece
      whose cumulative end is at least `o`, so an offset on a boundary
      belongs to the earlier piece; None exactly when the table is empty
      or `o` is past its end. */
  function Locate(ps: seq<Piece>, o: nat): (r: Option<nat>)
    ensures r.None? <==> (|ps| == 0 || o > Total(ps))
    ensures r.Some? ==> IsFirstCover(ps, o, r.value)
  {
    LocateFrom(ps, o, 0, 0)
  }

  /** `get_at_offset` of both versions of the buffer: a scan that adds up
      piece lengths until it reaches the offset. */
  method GetAtOffset(ps: seq<Piece>, o: nat) returns (r: Option<nat>)
    ensures r == Locate(ps, o)
    ensures r.Some? ==> IsFirstCover(ps, o, r.value)
    ensures r.None? <==> (|ps| == 0 || o > Total(ps))
  {
    var logicalLength := 0;
    for index := 0 to |ps|
      invariant logicalLength == Total(ps[..index])
      invariant forall j :: 0 <= j < index ==> CumEnd(ps, j) < o
      invariant Locate(ps, o) == LocateFrom(ps, o, index, logicalLength)
    {
      TotalStep(ps, index);
      logicalLength := logicalLength + ps[index].length;
      if o > logicalLength {
        continue;
      }
      return Some(index);
    }
    return None;
  }

  /** The first cover is unique. */
  lemma FirstCoverUnique(ps: seq<Piece>, o: nat, i: nat, j: nat)
    requires IsFirstCover(ps, o, i) && IsFirstCover(ps, o, j)
    ensures i == j
  {
  }

  /** A later offset never resolves to an earlier piece. */
  lemma LocateMonotone(ps: seq<Piece>, o1: nat, o2: nat)
    requires |ps| > 0 && o1 <= o2 <= Total(ps)
    ensures Locate(ps, o1).Some? && Locate(ps, o2).Some?
    ensures Locate(ps, o1).value <= Locate(ps, o2).value
  {
  }

  /** In a contiguous table the located piece really holds the offset,
      and only the first piece can start exactly at it. */
  lemma LocateInPiece(ps: seq<Piece>, o: nat)
    requires Contiguous(ps) && |ps| > 0 && o <= Total(ps)
    ensures Locate(ps, o).Some?
    ensures var i := Locate(ps, o).value;
      ps[i].logicalOffset <= o <= ps[i].End() &&
      (i > 0 ==> ps[i].logicalOffset < o)
  {
    var i := Locate(ps, o).value;
    TotalStep(ps, i);
    assert ps[i].logicalOffset == Total(ps[..i]);
    if i > 0 {
      assert CumEnd(ps, i - 1) < o;
    }
  }

  // ---------------------------------------------------------------------
  // Renumbering

  /** `update_offsets(s)`: pieces up to `s` keep their logical offsets;
      every later piece starts at `ps[s].logicalOffset` plus the lengths
      from `s` up to it. */
  function Renumbered(ps: seq<Piece>, s: nat): (r: seq<Piece>)
    requires s < |ps|
    ensures SameShape(ps, r)
  {
    seq(|ps|, k requires 0 <= k < |ps| =>
      if k <= s then ps[k]
      else ps[k].(logicalOffset := ps[s].logicalOffset + Total(ps[s..k])))
  }

  /** A table that agrees with `ps` up to `s` and carries the running
      offsets after it is the renumbered table. */
  lemma RenumberedFrom(ps: seq<Piece>, s: nat, r: seq<Piece>)
    requires s < |ps| && |r| == |ps|
    requires forall k :: 0 <= k <= s ==> r[k] == ps[k]
    requires forall k :: s < k < |ps| ==>
      r[k] == ps[k].(logicalOffset := ps[s].logicalOffset + Total(ps[s..k]))
    ensures r == Renumbered(ps, s)
  {
  }

  /** After renumbering from `s`, every piece after `s` starts where its
      predecessor ends and the pieces up to `s` are untouched. */
  lemma RenumberedChained(ps: seq<Piece>, s: nat)
    requires s < |ps|
    ensures forall k :: 0 <= k <= s ==> Renumbered(ps, s)[k] == ps[k]
    ensures forall k :: s < k < |ps| ==>
      Renumbered(ps, s)[k].logicalOffset == Renumbered(ps, s)[k - 1].End()
  {
    var r := Renumbered(ps, s);
    forall k | s < k < |ps|
      ensures r[k].logicalOffset == r[k - 1].End()
    {
      assert ps[s..k] == ps[s..k - 1] + [ps[k - 1]];
      TotalConcat(ps[s..k - 1], [ps[k - 1]]);
      assert Total([ps[k - 1]]) == ps[k - 1].length by {
        assert [ps[k - 1]][..0] == [];
      }
      if k - 1 == s {
        assert ps[s..s] == [];
      }
    }
  }

  /** Renumbering from a piece whose offset is right makes the whole
      table contiguous. */
  lemma RenumberedContiguous(ps: seq<Piece>, s: nat)
    requires s < |ps|
    requires Contiguous(ps[..s + 1])
    ensures Contiguous(Renumbered(ps, s))
  {
    var r := Renumbered(ps, s);
    forall k | 0 <= k < |r|
      ensures r[k].logicalOffset == Total(r[..k])
    {
      assert SameShape(ps[..k], r[..k]);
      SameShapeTotal(ps[..k], r[..k]);
      if k <= s {
        assert ps[..s + 1][k] == ps[k];
        assert ps[..s + 1][..k] == ps[..k];
      } else {
        assert ps[..s + 1][s] == ps[s];
        assert ps[..s + 1][..s] == ps[..s];
        assert ps[..k] == ps[..s] + ps[s..k];
        TotalConcat(ps[..s], ps[s..k]);
      }
    }
  }

  /** Every logical offset recomputed from zero. */
  function Reindexed(ps: seq<Piece>): (r: seq<Piece>)
    ensures SameShape(ps, r)
  {
    seq(|ps|, k requires 0 <= k < |ps| => ps[k].(logicalOffset := Total(ps[..k])))
  }

  lemma ReindexedContiguous(ps: seq<Piece>)
    ensures Contiguous(Reindexed(ps))
  {
    var r := Reindexed(ps);
    forall k | 0 <= k < |r|
      ensures r[k].logicalOffset == Total(r[..k])
    {
      assert SameShape(ps[..k], r[..k]);
      SameShapeTotal(ps[..k], r[..k]);
    }
  }

  /** The pieces of `ps` that are not empty, in order (`Vec::retain`). */
  function NonEmpty(ps: seq<Piece>): (r: seq<Piece>)
    ensures |r| <= |ps|
    ensures forall k :: 0 <= k < |r| ==> r[k].length > 0
  {
    if ps == [] then []
    else
      var rest := NonEmpty(ps[..|ps| - 1]);
      if ps[|ps| - 1].length > 0 then rest + [ps[|ps| - 1]] else rest
  }

  lemma {:induction false} NonEmptyTotal(ps: seq<Piece>)
    ensures Total(NonEmpty(ps)) == Total(ps)
  {
    if ps != [] {
      var init := ps[..|ps| - 1];
      NonEmptyTotal(init);
      TotalConcat(NonEmpty(init), [ps[|ps| - 1]]);
      assert [ps[|ps| - 1]][..0] == [];
    }
  }

  // ---------------------------------------------------------------------
  // The bytes a table stands for

  function StoreOf(file: Source, original: seq<Byte>, append: seq<Byte>): seq<Byte>
  {
    match file
    case Original => original
    case Append => append
  }

  /** The piece's byte range lies inside its store. */
  predicate Fits(p: Piece, original: seq<Byte>, append: seq<Byte>)
  {
    p.fileOffset + p.length <= |StoreOf(p.file, original, append)|
  }

  ghost predicate AllFit(ps: seq<Piece>, original: seq<Byte>, append: seq<Byte>)
  {
    forall k :: 0 <= k < |ps| ==> Fits(ps[k], original, append)
  }

  function BytesOf(p: Piece, original: seq<Byte>, append: seq<Byte>): (r: seq<Byte>)
    requires Fits(p, original, append)
    ensures |r| == p.length
  {
    StoreOf(p.file, original, append)[p.fileOffset..p.fileOffset + p.length]
  }

  /** The document: the concatenation of every piece's bytes, in order. */
  ghost function Content(ps: seq<Piece>, original: seq<Byte>, append: seq<Byte>): (r: seq<Byte>)
    requires AllFit(ps, original, append)
    ensures |r| == Total(ps)
  {
    if ps == [] then []
    else Content(ps[..|ps| - 1], original, append) + BytesOf(ps[|ps| - 1], original, append)
  }

  lemma {:induction false} ContentConcat(a: seq<Piece>, b: seq<Piece>, original: seq<Byte>, append: seq<Byte>)
    requires AllFit(a, original, append) && AllFit(b, original, append)
    ensures AllFit(a + b, original, append)
    ensures Content(a + b, original, append) == Content(a, original, append) + Content(b, original, append)
    decreases |b|
  {
    AllFitConcat(a, b, original, append);
    if b == [] {
      assert a + b == a;
    } else {
      assert (a + b)[..|a + b| - 1] == a + b[..|b| - 1];
      assert (a + b)[|a + b| - 1] == b[|b| - 1];
      ContentConcat(a, b[..|b| - 1], original, append);
    }
  }

  lemma AllFitConcat(a: seq<Piece>, b: seq<Piece>, original: seq<Byte>, append: seq<Byte>)
    requires AllFit(a, original, append) && AllFit(b, original, append)
    ensures AllFit(a + b, original, append)
  {
    forall k | 0 <= k < |a + b|
      ensures Fits((a + b)[k], original, append)
    {
      if k < |a| {
        assert (a + b)[k] == a[k];
      } else {
        assert (a + b)[k] == b[k - |a|];
      }
    }
  }

  lemma ContentThree(a: seq<Piece>, b: seq<Piece>, c: seq<Piece>, original: seq<Byte>, append: seq<Byte>)
    requires AllFit(a, original, append) && AllFit(b, original, append) && AllFit(c, original, append)
    ensures AllFit(a + b + c, original, append)
    ensures Content(a + b + c, original, append) ==
      Content(a, original, append) + Content(b, original, append) + Content(c, original, append)
  {
    ContentConcat(a, b, original, append);
    ContentConcat(a + b, c, original, append);
  }

  lemma ContentSingle(p: Piece, original: seq<Byte>, append: seq<Byte>)
    requires Fits(p, original, append)
    ensures AllFit([p], original, append)
    ensures Content([p], original, append) == BytesOf(p, original, append)
  {
    assert [p][..0] == [];
  }

  /** Logical offsets play no part in the content. */
  lemma {:induction false} SameShapeContent(a: seq<Piece>, b: seq<Piece>, original: seq<Byte>, append: seq<Byte>)
    requires SameShape(a, b) && AllFit(a, original, append)
    ensures AllFit(b, original, append)
    ensures Content(a, original, append) == Content(b, original, append)
    decreases |a|
  {
    if a != [] {
      SameShapeContent(a[..|a| - 1], b[..|b| - 1], original, append);
    }
  }

  /** Empty pieces contribute nothing, so dropping them keeps the content. */
  lemma {:induction false} NonEmptyContent(ps: seq<Piece>, original: seq<Byte>, append: seq<Byte>)
    requires AllFit(ps, original, append)
    ensures AllFit(NonEmpty(ps), original, append)
    ensures Content(NonEmpty(ps), original, append) == Content(ps, original, append)
  {
    if ps != [] {
      var init := ps[..|ps| - 1];
      var last := ps[|ps| - 1];
      NonEmptyContent(init, original, append);
      if last.length > 0 {
        ContentSingle(last, original, append);
        ContentConcat(NonEmpty(init), [last], original, append);
      }
    }
  }

  /** Growing a store at its end does not change what fitting pieces read. */
  lemma {:induction false} ContentGrowAppend(ps: seq<Piece>, original: seq<Byte>, append: seq<Byte>, more: seq<Byte>)
    requires AllFit(ps, original, append)
    ensures AllFit(ps, original, append + more)
    ensures Content(ps, original, append + more) == Content(ps, original, append)
    decreases |ps|
  {
    if ps != [] {
      var last := ps[|ps| - 1];
      ContentGrowAppend(ps[..|ps| - 1], original, append, more);
      assert BytesOf(last, original, append + more) == BytesOf(last, original, append);
    }
  }

  /** The bytes of piece `i` sit at its prefix-sum offset in the content. */
  lemma ContentAround(ps: seq<Piece>, i: nat, original: seq<Byte>, append: seq<Byte>)
    requires i < |ps| && AllFit(ps, original, append)
    ensures AllFit(ps[..i], original, append) && AllFit(ps[i + 1..], original, append)
    ensures Content(ps, original, append) ==
      Content(ps[..i], original, append) + BytesOf(ps[i], original, append) + Content(ps[i + 1..], original, append)
  {
    assert ps == ps[..i] + [ps[i]] + ps[i + 1..];
    ContentSingle(ps[i], original, append);
    ContentConcat(ps[..i], [ps[i]], original, append);
    ContentConcat(ps[..i] + [ps[i]], ps[i + 1..], original, append);
  }

  /** What `logical_to_file` is for: the byte at logical offset `o` of the
      document is the byte at `LogicalToFile(o)` in the store of the piece
      that holds `o`. */
  lemma ContentAt(ps: seq<Piece>, i: nat, o: nat, original: seq<Byte>, append: seq<Byte>)
    requires Contiguous(ps) && AllFit(ps, original, append)
    requires i < |ps| && ps[i].logicalOffset <= o < ps[i].End()
    ensures o < Total(ps)
    ensures Content(ps, original, append)[o] ==
      StoreOf(ps[i].file, original, append)[ps[i].LogicalToFile(o)]
  {
    PieceAt(ps, i, o, original, append);
  }

  lemma PieceAt(ps: seq<Piece>, i: nat, o: nat, original: seq<Byte>, append: seq<Byte>)
    requires AllFit(ps, original, append)
    requires i < |ps| && ps[i].logicalOffset == Total(ps[..i])
    requires ps[i].logicalOffset <= o < ps[i].End()
    ensures o < Total(ps)
    ensures Content(ps, original, append)[o] ==
      StoreOf(ps[i].file, original, append)[ps[i].LogicalToFile(o)]
  {
    var p := ps[i];
    ContentAround(ps, i, original, append);
    var pre := Content(ps[..i], original, append);
    var mid := BytesOf(p, original, append);
    var post := Content(ps[i + 1..], original, append);
    var k := o - p.logicalOffset;
    assert |pre| == p.logicalOffset;
    IndexMiddle(pre, mid, post, o, k);
    var c := Content(ps, original, append);
    assert c == pre + mid + post;
    assert c[o] == mid[k];
    assert mid[k] == StoreOf(p.file, original, append)[p.fileOffset + k];
    assert p.LogicalToFile(o) == p.fileOffset + k;
  }

  /** Indexing into the middle part of a three-part sequence. */
  lemma IndexMiddle<T>(pre: seq<T>, mid: seq<T>, post: seq<T>, j: nat, k: nat)
    requires k < |mid| && j == |pre| + k
    ensures j < |pre + mid + post| && (pre + mid + post)[j] == mid[k]
  {
  }

  /** The part of `p` before the document offset `cut`. */
  function Head(p: Piece, cut: nat): (r: Piece)
    requires p.logicalOffset <= cut
    ensures r.logicalOffset == p.logicalOffset && r.length == cut - p.logicalOffset
  {
    p.(length := cut - p.logicalOffset)
  }

  /** The part of `p` from the document offset `cut` on; the logical
      offset is left as it was. */
  function Tail(p: Piece, cut: nat): (r: Piece)
    requires p.logicalOffset <= cut <= p.End()
    ensures r.fileOffset == p.fileOffset + (cut - p.logicalOffset) && r.length == p.End() - cut
  {
    p.(fileOffset := p.fileOffset + (cut - p.logicalOffset), length := p.End() - cut)
  }

  /** A piece over a sub-range of another piece's bytes reads that
      sub-range. */
  lemma SubPieceBytes(p: Piece, q: Piece, a: nat, original: seq<Byte>, append: seq<Byte>)
    requires Fits(p, original, append)
    requires q.file == p.file && q.fileOffset == p.fileOffset + a && a + q.length <= p.length
    ensures Fits(q, original, append)
    ensures BytesOf(q, original, append) == BytesOf(p, original, append)[a..a + q.length]
  {
    var store := StoreOf(p.file, original, append);
    var whole := store[p.fileOffset..p.fileOffset + p.length];
    var part := store[q.fileOffset..q.fileOffset + q.length];
    forall i | 0 <= i < q.length
      ensures part[i] == whole[a..a + q.length][i]
    {
      assert part[i] == store[q.fileOffset + i] && whole[a + i] == store[p.fileOffset + a + i];
    }
    assert part == whole[a..a + q.length];
  }

  lemma HeadTailBytes(p: Piece, cut: nat, original: seq<Byte>, append: seq<Byte>)
    requires Fits(p, original, append) && p.logicalOffset <= cut <= p.End()
    ensures Fits(Head(p, cut), original, append) && Fits(Tail(p, cut), original, append)
    ensures BytesOf(Head(p, cut), original, append) == BytesOf(p, original, append)[..cut - p.logicalOffset]
    ensures BytesOf(Tail(p, cut), original, append) == BytesOf(p, original, append)[cut - p.logicalOffset..]
  {
    var k := cut - p.logicalOffset;
    SubPieceBytes(p, Head(p, cut), 0, original, append);
    SubPieceBytes(p, Tail(p, cut), k, original, append);
    var whole := BytesOf(p, original, append);
    assert whole[0..k] == whole[..k];
    assert whole[k..k + (p.length - k)] == whole[k..];
  }

  /** Cutting the document at an offset inside piece `i`: what lies
      before is the pieces before `i` and the head of piece `i`, what lies
      after is its tail and the pieces after it. */
  lemma ContentSplitAt(ps: seq<Piece>, i: nat, cut: nat, original: seq<Byte>, append: seq<Byte>)
    requires AllFit(ps, original, append)
    requires i < |ps| && ps[i].logicalOffset == Total(ps[..i])
    requires ps[i].logicalOffset <= cut <= ps[i].End()
    ensures cut <= Total(ps)
    ensures AllFit(ps[..i], original, append) && AllFit(ps[i + 1..], original, append)
    ensures Content(ps, original, append)[..cut] ==
      Content(ps[..i], original, append) + BytesOf(ps[i], original, append)[..cut - ps[i].logicalOffset]
    ensures Content(ps, original, append)[cut..] ==
      BytesOf(ps[i], original, append)[cut - ps[i].logicalOffset..] + Content(ps[i + 1..], original, append)
  {
    ContentAround(ps, i, original, append);
    var pre := Content(ps[..i], original, append);
    var mid := BytesOf(ps[i], original, append);
    var post := Content(ps[i + 1..], original, append);
    assert |pre| == ps[i].logicalOffset;
    SliceThree(pre, mid, post, cut - ps[i].logicalOffset);
  }

  lemma SliceThree<T>(pre: seq<T>, mid: seq<T>, post: seq<T>, k: nat)
    requires k <= |mid|
    ensures (pre + mid + post)[..|pre| + k] == pre + mid[..k]
    ensures (pre + mid + post)[|pre| + k..] == mid[k..] + post
  {
    assert pre + mid + post == (pre + mid[..k]) + (mid[k..] + post) by {
      assert mid == mid[..k] + mid[k..];
    }
  }

}
