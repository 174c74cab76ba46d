/** The piece table of `byt::io::file` (the u64 version): a document kept
    as an ordered list of pieces over a read-only original file and a
    write-once append store, edited in place, with an action log.

    A panic of the source (an `unwrap` on None, an index out of bounds,
    an unsigned subtraction that underflows in a debug build) is a
    precondition here. */
module PieceTable {
  import opened Utf8
  import opened Pieces

  datatype Operation = Insert | Delete

  /** One recorded modification. */
  datatype Action = Action(
    op: Operation,
    offset: nat,
    pieces: seq<Piece>,
    length: nat,
    mergeDown: bool,
    mergeUp: bool)

  datatype SeekFrom = Start(position: nat) | End(delta: int) | Current(delta: int)

  /** The offset `seek` computes from the recorded length and the read
      offset. */
  function SeekTarget(pos: SeekFrom, length: nat, current: nat): int
  {
    match pos
    case Start(v) => v
    case End(v) => length + v
    case Current(v) => current + v
  }

  // ---------------------------------------------------------------------
  // Vec operations on sequences

  function InsertAt<T>(s: seq<T>, i: nat, x: T): (r: seq<T>)
    requires i <= |s|
    ensures |r| == |s| + 1 && r[i] == x && r[..i] == s[..i] && r[i + 1..] == s[i..]
  {
    s[..i] + [x] + s[i..]
  }

  function RemoveAt<T>(s: seq<T>, i: nat): (r: seq<T>)
    requires i < |s|
    ensures |r| == |s| - 1 && r[..i] == s[..i] && r[i..] == s[i + 1..]
  {
    s[..i] + s[i + 1..]
  }

  /** Inserting at the boundary of `pre` and `post`. */
  lemma InsertInto<T>(pre: seq<T>, post: seq<T>, x: T)
    ensures InsertAt(pre + post, |pre|, x) == pre + ([x] + post)
  {
    assert (pre + post)[..|pre|] == pre;
    assert (pre + post)[|pre|..] == post;
  }

  /** Inserting in front of the middle part of a three-part sequence. */
  lemma InsertBetween<T>(pre: seq<T>, mid: seq<T>, post: seq<T>, x: T)
    ensures InsertAt(pre + mid + post, |pre|, x) == pre + ([x] + mid) + post
  {
    assert (pre + mid + post)[..|pre|] == pre;
    assert (pre + mid + post)[|pre|..] == mid + post;
  }

  /** Regrouping a nested concatenation. */
  lemma Nest<T>(pre: seq<T>, a: seq<T>, b: seq<T>, c: seq<T>, rest: seq<T>)
    ensures pre + (a + (b + (c + rest))) == pre + (a + b + c) + rest
  {
  }

  function Reversed<T>(s: seq<T>): (r: seq<T>)
    ensures |r| == |s|
  {
    if s == [] then [] else Reversed(s[1..]) + [s[0]]
  }

  // ---------------------------------------------------------------------
  // Insert

  /** The piece `_insert` creates for a text of `textLength` bytes that
      goes to the end of an append store of `appendLength` bytes; its
      logical offset is not known yet and is left at 0. */
  function NewPiece(appendLength: nat, textLength: nat): Piece
  {
    Piece(Append, appendLength, textLength, 0)
  }

  /** `_insert` runs without panicking: in the split case the located
      piece must hold the offset, or the size computations underflow. */
  ghost predicate InsertDefined(ps: seq<Piece>, length: nat, offset: nat)
  {
    offset == 0 || offset == length ||
    match Locate(ps, offset)
    case None => true
    case Some(i) => ps[i].logicalOffset <= offset <= ps[i].End()
  }

  /** The located piece replaced by its part below the offset, the new
      piece and its part above the offset, leaving out an empty part. */
  function SplitAround(sp: Piece, offset: nat, np: Piece): (r: seq<Piece>)
    requires sp.logicalOffset <= offset <= sp.End()
    ensures 1 <= |r| <= 3
  {
    LowerPart(sp, offset) + [np] + UpperPart(sp, offset, np)
  }

  /** The part of the split piece below the offset, if not empty. */
  function LowerPart(sp: Piece, offset: nat): (r: seq<Piece>)
    requires sp.logicalOffset <= offset <= sp.End()
    ensures |r| <= 1
  {
    var lowerSize := offset - sp.logicalOffset;
    if lowerSize > 0 then [Piece(sp.file, sp.fileOffset, lowerSize, sp.logicalOffset)] else []
  }

  /** The part of the split piece above the offset, if not empty, numbered
      after the new piece. */
  function UpperPart(sp: Piece, offset: nat, np: Piece): (r: seq<Piece>)
    requires sp.logicalOffset <= offset <= sp.End()
    ensures |r| <= 1
  {
    var lowerSize := offset - sp.logicalOffset;
    var upperSize := sp.End() - offset;
    if upperSize > 0
    then [Piece(sp.file, sp.fileOffset + lowerSize, upperSize, sp.logicalOffset + lowerSize + np.length)]
    else []
  }

  /** The table after `_insert` puts piece `np` at `offset` of a buffer
      whose recorded length was `length`: at the front (then renumbered),
      at the end (with logical offset `length`), or splitting the located
      piece (then renumbered from there). An offset past the end finds no
      piece and leaves the table as it was. */
  ghost function InsertedTable(ps: seq<Piece>, length: nat, offset: nat, np: Piece): seq<Piece>
    requires InsertDefined(ps, length, offset)
  {
    if offset == 0 then Renumbered([np] + ps, 0)
    else if offset == length then ps + [np.(logicalOffset := length)]
    else
      match Locate(ps, offset)
      case None => ps
      case Some(i) => Renumbered(ps[..i] + SplitAround(ps[i], offset, np) + ps[i + 1..], i)
  }

  // ---------------------------------------------------------------------
  // Delete

  /** `_delete(offset, length)` runs without panicking: both ends are
      located, the recorded length does not underflow, and no size
      computation underflows. When the range spans several pieces, the
      end fragment's `piece_start_offset - lower_size` must not underflow,
      which excludes ordinary deletes that cut further into the end piece
      than its logical offset (see `DeleteFindings.EndFragmentUnderflows`),
      and the start piece must survive the purge of empty pieces, or
      renumbering from its index reads past the end of the table. */
  ghost predicate DeleteDefined(ps: seq<Piece>, recorded: nat, offset: nat, length: nat)
  {
    var endOffset := offset + length;
    Locate(ps, offset).Some? && Locate(ps, endOffset).Some? &&
    length <= recorded &&
    var s := Locate(ps, offset).value;
    var e := Locate(ps, endOffset).value;
    s <= e &&
    if s == e then
      ps[s].logicalOffset <= offset && endOffset <= ps[s].End()
    else
      ps[s].logicalOffset <= offset <= ps[s].End() &&
      ps[e].logicalOffset <= endOffset <= ps[e].End() &&
      endOffset - ps[e].logicalOffset <= ps[e].logicalOffset &&
      s < |NonEmpty(CutAcross(ps, s, e, offset, endOffset))|
  }

  /** The table before the purge of a delete that spans pieces `s` to `e`:
      the start piece keeps the bytes before the cut, the pieces between
      are emptied, the end piece keeps the bytes after the cut. */
  function CutAcross(ps: seq<Piece>, s: nat, e: nat, offset: nat, endOffset: nat): (r: seq<Piece>)
    requires s < e < |ps|
    requires ps[s].logicalOffset <= offset && ps[e].logicalOffset <= endOffset <= ps[e].End()
    ensures |r| == |ps|
  {
    ps[..s] + [Head(ps[s], offset)] + Emptied(ps[s + 1..e]) + [Tail(ps[e], endOffset)] + ps[e + 1..]
  }

  /** The cut table piece by piece. */
  lemma CutAcrossAt(ps: seq<Piece>, s: nat, e: nat, offset: nat, endOffset: nat)
    requires s < e < |ps|
    requires ps[s].logicalOffset <= offset && ps[e].logicalOffset <= endOffset <= ps[e].End()
    ensures forall k :: 0 <= k < s ==> CutAcross(ps, s, e, offset, endOffset)[k] == ps[k]
    ensures CutAcross(ps, s, e, offset, endOffset)[s] == Head(ps[s], offset)
    ensures forall k :: s < k < e ==> CutAcross(ps, s, e, offset, endOffset)[k] == ps[k].(length := 0)
    ensures CutAcross(ps, s, e, offset, endOffset)[e] == Tail(ps[e], endOffset)
    ensures forall k :: e < k < |ps| ==> CutAcross(ps, s, e, offset, endOffset)[k] == ps[k]
  {
    var r := CutAcross(ps, s, e, offset, endOffset);
    var mid := Emptied(ps[s + 1..e]);
    assert r == ps[..s] + [Head(ps[s], offset)] + mid + [Tail(ps[e], endOffset)] + ps[e + 1..];
    forall k | s < k < e
      ensures r[k] == ps[k].(length := 0)
    {
      assert r[k] == mid[k - s - 1];
    }
  }

  /** A table that agrees with the cut table piece by piece is the cut table. */
  lemma CutAcrossFrom(ps: seq<Piece>, r: seq<Piece>, s: nat, e: nat, offset: nat, endOffset: nat)
    requires s < e < |ps| && |r| == |ps|
    requires ps[s].logicalOffset <= offset && ps[e].logicalOffset <= endOffset <= ps[e].End()
    requires forall k :: 0 <= k < s ==> r[k] == ps[k]
    requires r[s] == Head(ps[s], offset)
    requires forall k :: s < k < e ==> r[k] == ps[k].(length := 0)
    requires r[e] == Tail(ps[e], endOffset)
    requires forall k :: e < k < |ps| ==> r[k] == ps[k]
    ensures r == CutAcross(ps, s, e, offset, endOffset)
  {
    CutAcrossAt(ps, s, e, offset, endOffset);
    var c := CutAcross(ps, s, e, offset, endOffset);
    forall k | 0 <= k < |r|
      ensures r[k] == c[k]
    {
      if k < s {
      } else if k == s {
      } else if k < e {
      } else if k == e {
      } else {
      }
    }
  }

  /** The pieces with their lengths set to 0. */
  function Emptied(ps: seq<Piece>): (r: seq<Piece>)
    ensures |r| == |ps|
    ensures forall k :: 0 <= k < |r| ==> r[k] == ps[k].(length := 0)
  {
    seq(|ps|, k requires 0 <= k < |ps| => ps[k].(length := 0))
  }

  /** The table of `_delete`'s single-piece branch: piece `s` becomes its
      bytes before `offset` and, `delete_size` bytes further on, as many
      bytes as follow `endOffset` in it. `delete_size` is
      `end_index - start_index + 1`, which is 1 here; nothing after the
      piece is renumbered. */
  function WithinTable(ps: seq<Piece>, s: nat, offset: nat, endOffset: nat): (r: seq<Piece>)
    requires s < |ps| && ps[s].logicalOffset <= offset <= endOffset <= ps[s].End()
    ensures |r| == |ps| + 1
  {
    var p := ps[s];
    var lowerSize := offset - p.logicalOffset;
    var upperSize := p.End() - endOffset;
    var deleteSize := 1;
    ps[..s]
    + [Piece(p.file, p.fileOffset, lowerSize, p.logicalOffset),
       Piece(p.file, p.fileOffset + lowerSize + deleteSize, upperSize, offset)]
    + ps[s + 1..]
  }

  /** The table after `_delete`: within one piece, `WithinTable`; across
      pieces, the cut table, without empty pieces, renumbered from the
      start index. */
  ghost function DeletedTable(ps: seq<Piece>, recorded: nat, offset: nat, length: nat): seq<Piece>
    requires DeleteDefined(ps, recorded, offset, length)
  {
    var endOffset := offset + length;
    var s := Locate(ps, offset).value;
    var e := Locate(ps, endOffset).value;
    if s == e then
      WithinTable(ps, s, offset, endOffset)
    else
      Renumbered(NonEmpty(CutAcross(ps, s, e, offset, endOffset)), s)
  }

  /** The fragments `_delete` records: within one piece, one fragment of
      `delete_size` bytes; across pieces, the start piece's removed tail,
      the middle pieces as they were, and a fragment for the end piece
      whose file offset and logical offset are both computed from the
      number of bytes cut from it. */
  ghost function DeleteRecord(ps: seq<Piece>, recorded: nat, offset: nat, length: nat): seq<Piece>
    requires DeleteDefined(ps, recorded, offset, length)
  {
    var endOffset := offset + length;
    var s := Locate(ps, offset).value;
    var e := Locate(ps, endOffset).value;
    if s == e then
      var p := ps[s];
      [Piece(p.file, p.fileOffset + (offset - p.logicalOffset), (e - s) + 1, offset)]
    else
      CutRecord(ps, s, e, offset, endOffset)
  }

  /** The fragments a delete that spans pieces `s` to `e` records. */
  function CutRecord(ps: seq<Piece>, s: nat, e: nat, offset: nat, endOffset: nat): (r: seq<Piece>)
    requires s < e < |ps|
    requires ps[s].logicalOffset <= offset <= ps[s].End()
    requires ps[e].logicalOffset <= endOffset && endOffset - ps[e].logicalOffset <= ps[e].logicalOffset
    ensures |r| == e - s + 1
  {
    var p := ps[s];
    var q := ps[e];
    var cut := endOffset - q.logicalOffset;
    [Piece(p.file, p.fileOffset + (offset - p.logicalOffset), p.End() - offset, offset)]
    + ps[s + 1..e]
    + [Piece(q.file, q.fileOffset + cut, cut, q.logicalOffset - cut)]
  }

  /** What `DeleteDefined` and the delete functions say once the two ends
      are located in pieces `s` and `e`, within one piece. */
  lemma DeleteWithinParts(ps: seq<Piece>, recorded: nat, offset: nat, length: nat, s: nat)
    requires DeleteDefined(ps, recorded, offset, length)
    requires Locate(ps, offset) == Some(s) && Locate(ps, offset + length) == Some(s)
    ensures s < |ps| && length <= recorded
    ensures ps[s].logicalOffset <= offset && offset + length <= ps[s].End()
    ensures DeletedTable(ps, recorded, offset, length) == WithinTable(ps, s, offset, offset + length)
    ensures DeleteRecord(ps, recorded, offset, length) ==
      [Piece(ps[s].file, ps[s].fileOffset + (offset - ps[s].logicalOffset), 1, offset)]
  {
  }

  /** The same across pieces `s` to `e`. */
  lemma DeleteAcrossParts(ps: seq<Piece>, recorded: nat, offset: nat, length: nat, s: nat, e: nat)
    requires DeleteDefined(ps, recorded, offset, length)
    requires Locate(ps, offset) == Some(s) && Locate(ps, offset + length) == Some(e) && s != e
    ensures s < e < |ps| && length <= recorded
    ensures ps[s].logicalOffset <= offset <= ps[s].End()
    ensures ps[e].logicalOffset <= offset + length <= ps[e].End()
    ensures offset + length - ps[e].logicalOffset <= ps[e].logicalOffset
    ensures s < |NonEmpty(CutAcross(ps, s, e, offset, offset + length))|
    ensures DeletedTable(ps, recorded, offset, length) ==
      Renumbered(NonEmpty(CutAcross(ps, s, e, offset, offset + length)), s)
    ensures DeleteRecord(ps, recorded, offset, length) == CutRecord(ps, s, e, offset, offset + length)
  {
  }

  // ---------------------------------------------------------------------
  // Undo

  /** `undo` runs without panicking: the last action's offset is located,
      and an insert is not undone at index 0 (`index - 1` underflows). */
  ghost predicate UndoDefined(ps: seq<Piece>, actions: seq<Action>)
  {
    |actions| == 0 ||
    var a := actions[|actions| - 1];
    Locate(ps, a.offset).Some? &&
    (a.op == Operation.Insert ==> Locate(ps, a.offset).value >= 1)
  }

  /** The table after `undo` of action `a`: an insert removes the located
      piece and renumbers from the one before it; a delete inserts each
      recorded fragment at the located index, so they end up reversed. */
  ghost function UndoneTable(ps: seq<Piece>, a: Action): seq<Piece>
    requires Locate(ps, a.offset).Some?
    requires a.op == Operation.Insert ==> Locate(ps, a.offset).value >= 1
  {
    var i := Locate(ps, a.offset).value;
    if a.op == Operation.Insert then Renumbered(RemoveAt(ps, i), i - 1)
    else ps[..i] + Reversed(a.pieces) + ps[i..]
  }

  /** The first element inserted at the front goes last: what repeated
      `Vec::insert` at one index does to a list of pieces. */
  lemma {:induction false} ReversedSnoc<T>(s: seq<T>, x: T)
    ensures Reversed(s + [x]) == [x] + Reversed(s)
    decreases |s|
  {
    if s == [] {
      assert Reversed([x]) == Reversed([x][1..]) + [x];
      assert [x][1..] == [];
    } else {
      assert (s + [x])[1..] == s[1..] + [x];
      ReversedSnoc(s[1..], x);
    }
  }

  // ---------------------------------------------------------------------
  // Read

  /** One call of `read_piece`: `count` bytes of `piece` starting at the
      document offset `offset`. */
  datatype Request = Request(piece: Piece, offset: nat, count: nat)

  /** The bytes of an Append request lie inside the piece's part of the
      append store: it starts inside the piece and its slice fits. */
  predicate Fetchable(r: Request, appendLength: nat)
  {
    r.piece.file == Append ==>
      r.piece.logicalOffset <= r.offset &&
      r.piece.LogicalToFile(r.offset) + r.count <= appendLength
  }

  /** `read_piece` runs without panicking: the piece's last offset
      (`logical_offset + length - 1`) does not underflow, an Append read
      is fetchable, and an Original read has a reader. */
  predicate Readable(r: Request, appendLength: nat, hasReader: bool)
  {
    r.piece.logicalOffset + r.piece.length >= 1 &&
    Fetchable(r, appendLength) &&
    (r.piece.file == Original ==> hasReader)
  }

  predicate AllFetchable(rs: seq<Request>, appendLength: nat)
  {
    forall k :: 0 <= k < |rs| ==> Fetchable(rs[k], appendLength)
  }

  /** Every request of a read is readable. */
  predicate AllReadable(rs: seq<Request>, appendLength: nat, hasReader: bool)
  {
    AllFetchable(rs, appendLength) &&
    forall k :: 0 <= k < |rs| ==> Readable(rs[k], appendLength, hasReader)
  }

  /** How many bytes a reader standing at `position` in `file` delivers
      for a buffer of `count` bytes: as many as the file still has. */
  function ReaderAdvance(file: seq<Byte>, position: nat, count: nat): (n: nat)
    ensures n <= count
    ensures position <= |file| ==> position + n <= |file|
    ensures n < count ==> position + n >= |file|
  {
    if position >= |file| then 0 else if count <= |file| - position then count else |file| - position
  }

  /** The buffer after such a read: the delivered bytes, then the zeros
      the buffer was created with. */
  function ReaderFill(file: seq<Byte>, position: nat, count: nat): (r: seq<Byte>)
    ensures |r| == count
    ensures forall k :: 0 <= k < ReaderAdvance(file, position, count) ==> r[k] == file[position + k]
    ensures forall k :: ReaderAdvance(file, position, count) <= k < count ==> r[k] == 0
  {
    var got := ReaderAdvance(file, position, count);
    if got == 0 then seq(count, _ => 0)
    else file[position..position + got] + seq(count - got, _ => 0)
  }

  /** The `read_piece` calls `read` makes for the range from `start` to
      `endOffset`, located in pieces `s` to `e`: one call inside a single
      piece, or the start piece from `start` to its end, every piece in
      between whole, and the end piece from its first byte to `endOffset`. */
  function Requests(ps: seq<Piece>, s: nat, e: nat, start: nat, endOffset: nat): (r: seq<Request>)
    requires s <= e < |ps| && start <= endOffset
    requires s < e ==> start <= ps[s].End() && ps[e].logicalOffset <= endOffset
    ensures |r| == e - s + 1
    ensures r[0] == Request(ps[s], start, if s == e then endOffset - start else ps[s].End() - start)
    ensures forall k :: 0 < k < e - s ==> r[k] == Request(ps[s + k], ps[s + k].logicalOffset, ps[s + k].length)
    ensures s < e ==> r[e - s] == Request(ps[e], ps[e].logicalOffset, endOffset - ps[e].logicalOffset)
  {
    if s == e then [Request(ps[s], start, endOffset - start)]
    else
      [Request(ps[s], start, ps[s].End() - start)]
      + seq(e - s - 1, k requires 0 <= k < e - s - 1 => Request(ps[s + 1 + k], ps[s + 1 + k].logicalOffset, ps[s + 1 + k].length))
      + [Request(ps[e], ps[e].logicalOffset, endOffset - ps[e].logicalOffset)]
  }

  /** The number of bytes a list of requests asks for. */
  function Requested(rs: seq<Request>): nat
  {
    if rs == [] then 0 else Requested(rs[..|rs| - 1]) + rs[|rs| - 1].count
  }

  lemma RequestedStep(rs: seq<Request>, k: nat)
    requires k < |rs|
    ensures Requested(rs[..k + 1]) == Requested(rs[..k]) + rs[k].count
  {
    assert rs[..k + 1][..k] == rs[..k];
  }

  /** The buffer `read_piece` fills for request `r` with the reader at
      `pos`: a slice of the append store, or what the reader delivers. */
  function RequestBuffer(r: Request, append: seq<Byte>, original: seq<Byte>, pos: nat): (buf: seq<Byte>)
    requires Fetchable(r, |append|)
    ensures |buf| == r.count
  {
    match r.piece.file
    case Append =>
      var from := r.piece.LogicalToFile(r.offset);
      append[from..from + r.count]
    case Original => ReaderFill(original, pos, r.count)
  }

  /** What `read_piece` pushes for request `r`: its buffer trimmed to the
      longest well-formed prefix. */
  function RequestText(r: Request, append: seq<Byte>, original: seq<Byte>, pos: nat): seq<Byte>
    requires Fetchable(r, |append|)
  {
    var buf := RequestBuffer(r, append, original, pos);
    buf[..LongestValidPrefix(buf)]
  }

  /** Where the reader stands after request `r`: only Original reads move it. */
  function ReaderAfter(r: Request, original: seq<Byte>, pos: nat): nat
  {
    match r.piece.file
    case Append => pos
    case Original => pos + ReaderAdvance(original, pos, r.count)
  }

  /** Where the reader stands after the requests `rs`, in order. */
  function ReaderAfterAll(rs: seq<Request>, original: seq<Byte>, pos: nat): nat
  {
    if rs == [] then pos
    else ReaderAfter(rs[|rs| - 1], original, ReaderAfterAll(rs[..|rs| - 1], original, pos))
  }

  /** What a sequence of `read_piece` calls pushes, in order. */
  function ReadText(rs: seq<Request>, append: seq<Byte>, original: seq<Byte>, pos: nat): seq<Byte>
    requires AllFetchable(rs, |append|)
  {
    if rs == [] then []
    else
      ReadText(rs[..|rs| - 1], append, original, pos)
      + RequestText(rs[|rs| - 1], append, original, ReaderAfterAll(rs[..|rs| - 1], original, pos))
  }

  lemma ReadTextStep(rs: seq<Request>, k: nat, append: seq<Byte>, original: seq<Byte>, pos: nat)
    requires k < |rs|
    requires AllFetchable(rs, |append|)
    ensures ReadText(rs[..k + 1], append, original, pos) ==
      ReadText(rs[..k], append, original, pos) + RequestText(rs[k], append, original, ReaderAfterAll(rs[..k], original, pos))
    ensures ReaderAfterAll(rs[..k + 1], original, pos) == ReaderAfter(rs[k], original, ReaderAfterAll(rs[..k], original, pos))
  {
    assert rs[..k + 1][..k] == rs[..k];
  }

  /** The end offset of a `read(num_bytes)` from `start`. */
  function ReadEnd(start: nat, numBytes: nat): (r: nat)
    ensures r - start == numBytes
  {
    start + numBytes
  }

  /** `read(num_bytes)` from `start` runs without panicking. */
  ghost predicate ReadDefined(ps: seq<Piece>, start: nat, numBytes: nat, appendLength: nat, hasReader: bool)
  {
    var endOffset := ReadEnd(start, numBytes);
    Locate(ps, start).Some? && Locate(ps, endOffset).Some? &&
    var s := Locate(ps, start).value;
    var e := Locate(ps, endOffset).value;
    s <= e &&
    (s < e ==> start <= ps[s].End() && ps[e].logicalOffset <= endOffset) &&
    AllReadable(Requests(ps, s, e, start, endOffset), appendLength, hasReader)
  }

  /** The requests of a `read(num_bytes)` from `start`. */
  ghost function ReadRequests(ps: seq<Piece>, start: nat, numBytes: nat, appendLength: nat, hasReader: bool): (rs: seq<Request>)
    requires ReadDefined(ps, start, numBytes, appendLength, hasReader)
    ensures AllReadable(rs, appendLength, hasReader)
  {
    Requests(ps, Locate(ps, start).value, Locate(ps, ReadEnd(start, numBytes)).value, start, ReadEnd(start, numBytes))
  }

  /** Reading one request. */
  lemma ReadTextSingle(rs: seq<Request>, append: seq<Byte>, original: seq<Byte>, pos: nat)
    requires |rs| == 1 && AllFetchable(rs, |append|)
    ensures ReadText(rs, append, original, pos) == [] + RequestText(rs[0], append, original, pos)
    ensures ReaderAfterAll(rs, original, pos) == ReaderAfter(rs[0], original, pos)
  {
    assert rs[..0] == [];
  }

  /** What `ReadDefined` says once both ends are located. */
  lemma ReadParts(ps: seq<Piece>, start: nat, numBytes: nat, appendLength: nat, hasReader: bool, s: nat, e: nat)
    requires ReadDefined(ps, start, numBytes, appendLength, hasReader)
    requires Locate(ps, start) == Some(s) && Locate(ps, ReadEnd(start, numBytes)) == Some(e)
    ensures s <= e < |ps|
    ensures s < e ==> start <= ps[s].End() && ps[e].logicalOffset <= ReadEnd(start, numBytes)
    ensures ReadRequests(ps, start, numBytes, appendLength, hasReader) == Requests(ps, s, e, start, ReadEnd(start, numBytes))
    ensures AllReadable(Requests(ps, s, e, start, ReadEnd(start, numBytes)), appendLength, hasReader)
  {
  }

  /** What a sequence of `read_piece` calls pushes is well-formed UTF-8
      and no longer than the bytes it asked for: each call trims its
      buffer to a well-formed prefix. */
  lemma {:induction false} ReadTextValid(rs: seq<Request>, append: seq<Byte>, original: seq<Byte>, pos: nat)
    requires AllFetchable(rs, |append|)
    ensures ValidUtf8(ReadText(rs, append, original, pos))
    ensures |ReadText(rs, append, original, pos)| <= Requested(rs)
    decreases |rs|
  {
    if rs != [] {
      var init := rs[..|rs| - 1];
      assert AllFetchable(init, |append|) by {
        forall k | 0 <= k < |init|
          ensures Fetchable(init[k], |append|)
        {
          assert init[k] == rs[k];
        }
      }
      ReadTextValid(init, append, original, pos);
      var buf := RequestBuffer(rs[|rs| - 1], append, original, ReaderAfterAll(init, original, pos));
      LongestValidPrefixSpec(buf);
      ValidConcat(ReadText(init, append, original, pos), buf[..LongestValidPrefix(buf)]);
    }
  }

  /** On chained pieces, the first `k + 1` requests of a read ask for the
      bytes from `start` to the end of piece `s + k`. */
  lemma {:induction false} RequestedUpTo(rs: seq<Request>, ps: seq<Piece>, s: nat, start: nat, k: nat)
    requires s + k < |ps| && k < |rs|
    requires start <= ps[s].End() && rs[0].count == ps[s].End() - start
    requires forall j :: 0 < j <= k ==> rs[j].count == ps[s + j].length
    requires forall j :: s < j <= s + k ==> ps[j].logicalOffset == ps[j - 1].End()
    ensures Requested(rs[..k + 1]) + start == ps[s + k].End()
    decreases k
  {
    RequestedStep(rs, k);
    if k == 0 {
      assert rs[..0] == [];
    } else {
      RequestedUpTo(rs, ps, s, start, k - 1);
    }
  }

  /** Requests that cover pieces `s` to `e` of a chained table, from
      `start` to `endOffset`, ask for `endOffset - start` bytes. */
  lemma RequestedChain(rs: seq<Request>, ps: seq<Piece>, s: nat, e: nat, start: nat, endOffset: nat)
    requires s < e < |ps| && |rs| == e - s + 1
    requires start <= ps[s].End() && rs[0].count == ps[s].End() - start
    requires forall j :: 0 < j < e - s ==> rs[j].count == ps[s + j].length
    requires ps[e].logicalOffset <= endOffset && rs[e - s].count == endOffset - ps[e].logicalOffset
    requires forall j :: s < j <= e ==> ps[j].logicalOffset == ps[j - 1].End()
    ensures Requested(rs) == endOffset - start
  {
    RequestedUpTo(rs, ps, s, start, e - s - 1);
    RequestedStep(rs, e - s);
    assert rs[..e - s + 1] == rs;
  }

  /** On chained pieces, the requests of a read from `start` to
      `endOffset` ask for exactly `endOffset - start` bytes. */
  lemma ReadRequested(ps: seq<Piece>, s: nat, e: nat, start: nat, endOffset: nat)
    requires s <= e < |ps| && start <= endOffset
    requires s < e ==> start <= ps[s].End() && ps[e].logicalOffset <= endOffset
    requires forall j :: s < j <= e ==> ps[j].logicalOffset == ps[j - 1].End()
    ensures Requested(Requests(ps, s, e, start, endOffset)) == endOffset - start
  {
    var rs := Requests(ps, s, e, start, endOffset);
    if s == e {
      RequestedStep(rs, 0);
      assert rs[..0] == [] && rs[..1] == rs;
    } else {
      RequestedChain(rs, ps, s, e, start, endOffset);
    }
  }

  /** The promise of `read(num_bytes)`: it returns only whole UTF-8
      characters and, on a contiguous table, at most `num_bytes` bytes. */
  lemma ReadPromise(ps: seq<Piece>, start: nat, numBytes: nat, append: seq<Byte>, original: seq<Byte>, hasReader: bool, pos: nat)
    requires ReadDefined(ps, start, numBytes, |append|, hasReader)
    ensures ValidUtf8(ReadText(ReadRequests(ps, start, numBytes, |append|, hasReader), append, original, pos))
    ensures Contiguous(ps) ==>
      |ReadText(ReadRequests(ps, start, numBytes, |append|, hasReader), append, original, pos)| <= numBytes
  {
    var rs := ReadRequests(ps, start, numBytes, |append|, hasReader);
    ReadTextValid(rs, append, original, pos);
    if Contiguous(ps) {
      var s, e := Locate(ps, start).value, Locate(ps, ReadEnd(start, numBytes)).value;
      ReadParts(ps, start, numBytes, |append|, hasReader, s, e);
      ContiguousChained(ps);
      ReadRequested(ps, s, e, start, ReadEnd(start, numBytes));
    }
  }
}
