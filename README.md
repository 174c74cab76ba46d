# byt: piece table, file view and key bindings in Dafny

This project models three parts of the `byt` text editor and proves
properties of them.

- The piece table behind every buffer, `PieceFile` (`byt::io::file`).
  A document is a list of pieces. Each piece is a run of bytes in the
  file on disk (the *original*) or in an in-memory *append* store, with
  the document offset where it starts. `insert`, `delete`, `read`,
  `seek` and `undo` work on that list.
  - The current, u64 version: modules `Pieces`, `PieceTable`,
    `PieceTableProperties` and `PieceFiles`. The UTF-8 test that `read`
    relies on is in module `Utf8`.
  - The earlier, u32 version: module `EarlyPieceTable`.
- The view over a buffer, `FileView` (`byt::views::file`).
  - Its line index, built by `regenerate_lines`: module `LineIndex`.
  - Its cursor and editing commands: module `FileViews`.
  - The earlier version of the view: module `EarlyFileViews`.
- The key-binding state machine (`byt::io::binds`): module `Binds`.
  It has tables of bindings from keys to actions or to other tables, and
  a handler that walks them one key at a time.

Where the source does something other than what its tests, comments or
evident design intend, the as-written behaviour is shown on the model.
The intended behaviour is defined and proved next to it, in modules
`DeleteFindings` and `LineFindings` and in `EarlyPieceTable` (see
"## Findings").

Form of the model:
- `PieceFile`, `FileView`, `BindingTable` and `BindHandler` are classes
  whose fields are updated in place, as in the source.
- The loops of the source are `while` or `for` loops with invariants.
  Each method is proved equal to a function of its old state, for example
  `InsertedTable`, `DeletedTable`, `ReadText`, `LinesOf`, `CurrentIndex`
  or `Consumed`.
- The lemmas state what those functions do to the document.

Main results:
- On a table whose offsets are the running sums of the lengths, an
  insert puts the text at the offset and keeps that invariant
  (`PieceTableProperties.InsertPlacesText`, `PieceFiles.PieceFile.Insert`).
- A delete across pieces removes exactly the range
  (`PieceTableProperties.AcrossTableRemovesRange`).
- `read_piece` keeps the longest prefix that is valid UTF-8
  (`PieceFiles.TrimToText`).
- For every text without '\r', `regenerate_lines` yields its line
  structure: lines numbered from 1, each starting where the previous one
  ends, each ending with its '\n' (`LineIndex.LinesOfSplits`).
- The cursor moves stay inside the current line or land on the
  destination line (`FileViews.MoveLinesLands` and its neighbours).
- `consume` follows the first binding of the key and keeps the handler
  inside its tables (`Binds.BindHandler.Consume`, `Binds.ConsumedCases`).

## Model

| member | source | states |
|---|---|---|
| Utf8.LeadWidth | src/byt/io/file/mod.rs:354-361 | The width of the well-formed UTF-8 sequence at the start of a buffer, at most 4 and at most the buffer's length; 0 when it starts with none (the test behind `str::from_utf8`) |
| Utf8.ValidConcat | src/byt/io/file/mod.rs:363 | Joining two well-formed texts gives a well-formed text, as `read` does when it pushes the pieces' strings one after another |
| Utf8.LongestValidPrefix | src/byt/io/file/mod.rs:352-361 | The length the trim loop stops at is at most the buffer's length |
| Utf8.LongestValidPrefixSpec | src/byt/io/file/mod.rs:352-361 | The prefix the trim loop keeps is well-formed, and every longer prefix is not |
| Utf8.AsciiIsValid | src/byt/io/file/mod.rs:354-361 | A buffer of ASCII bytes is well-formed, so the trimming loop keeps all of it |
| Pieces.Piece.LogicalToFile | src/byt/io/file/mod.rs:50-52 | A document offset inside a piece maps to the byte at the same distance from the piece's file offset, inside the piece's bytes |
| Pieces.LocateFrom | src/byt/io/file/mod.rs:224-243 | The scan of `get_at_offset` from any index finds nothing exactly when the table is empty or the offset lies past the total length; otherwise it finds the first piece whose running end reaches the offset |
| Pieces.Locate | src/byt/io/file/mod.rs:224-243 | `None` exactly when the table is empty or the offset lies past the end; otherwise the first piece whose running end reaches the offset |
| Pieces.GetAtOffset | src/byt/io/file/mod.rs:224-243 | The loop returns `Locate`: the first piece whose running end reaches the offset, and `None` exactly when the table is empty or the offset is past the end; the earlier version (src/byt/io/file.rs:87-106) is the same scan |
| Pieces.FirstCoverUnique | src/byt/io/file/mod.rs:224-243 | The piece `get_at_offset` finds is unique |
| Pieces.LocateMonotone | src/byt/io/file/mod.rs:224-243 | A later offset never resolves to an earlier piece, so the start index of a range is at most its end index |
| Pieces.LocateInPiece | src/byt/io/file/mod.rs:224-243 | In a table whose offsets are running sums, the located piece spans the offset (offsets at a boundary resolve to the piece that ends there) |
| Pieces.Renumbered | src/byt/io/file/mod.rs:367-381 | Renumbering keeps every piece's bytes; only logical offsets change |
| Pieces.RenumberedChained | src/byt/io/file/mod.rs:367-381 | After `update_offsets(s)` the pieces up to `s` are unchanged and every later piece starts where the previous one ends |
| Pieces.RenumberedContiguous | src/byt/io/file/mod.rs:367-381 | Renumbering from a piece whose own offset is right makes the whole table contiguous |
| Pieces.NonEmpty | src/byt/io/file/mod.rs:217 | `retain(length > 0)` keeps only non-empty pieces, in order |
| Pieces.NonEmptyTotal | src/byt/io/file/mod.rs:217 | Dropping empty pieces keeps the total length |
| Pieces.NonEmptyContent | src/byt/io/file/mod.rs:217 | Dropping empty pieces keeps the document's bytes |
| Pieces.SameShapeContent | src/byt/io/file/mod.rs:367-381 | Logical offsets play no part in the document's bytes |
| Pieces.ContentGrowAppend | src/byt/io/file/mod.rs:251 | Appending to the append store does not change what the existing pieces read |
| Pieces.ContentAt | src/byt/io/file/mod.rs:50-52 | In a contiguous table the byte at document offset `o` is the byte `logical_to_file(o)` of the piece holding `o` |
| Pieces.ContentSplitAt | src/byt/io/file/mod.rs:297-320 | Cutting the document inside a piece: the bytes before the cut are the earlier pieces plus the piece's head, and the bytes after are its tail plus the later pieces |
| PieceTable.SplitAround | src/byt/io/file/mod.rs:297-320 | The split piece is replaced by one to three pieces: its non-empty part below the offset, the new piece and its non-empty part above |
| PieceTable.CutAcrossFrom | src/byt/io/file/mod.rs:171-214 | A table that agrees piece by piece with the head, the emptied pieces, the advanced end piece and the untouched rest is the table of a delete across pieces |
| PieceTable.CutAcrossAt | src/byt/io/file/mod.rs:171-214 | A delete across pieces `s`..`e` shortens piece `s` to its head, empties the pieces between, advances piece `e` past the cut and leaves every other piece alone |
| PieceTable.Emptied | src/byt/io/file/mod.rs:189-195 | The pieces between the ends of a delete keep everything but their length, which becomes 0 |
| PieceTable.WithinTable | src/byt/io/file/mod.rs:132-165 | The single-piece branch of `_delete` replaces the piece by two pieces, giving one more piece in all |
| PieceTable.CutRecord | src/byt/io/file/mod.rs:171-214 | The fragments a delete across pieces records: one per piece from `s` to `e` |
| PieceTable.DeleteWithinParts | src/byt/io/file/mod.rs:111-165 | When both ends of the range fall in one piece, `_delete` takes the single-piece branch and records one fragment of `delete_size` bytes |
| PieceTable.DeleteAcrossParts | src/byt/io/file/mod.rs:111-221 | When the ends fall in different pieces, `_delete` cuts, purges and renumbers from the start piece, and records the cut fragments |
| PieceTable.ReversedSnoc | src/byt/io/file/mod.rs:533-535 | Inserting a delete's fragments one by one at the same index leaves them in reverse order |
| PieceTable.ReaderAdvance | src/byt/io/file/mod.rs:346-349 | The model's reader delivers at most the bytes asked for and never reads past the end of the file; it delivers fewer only at the end of the file, which is an assumption (see Left out) |
| PieceTable.ReaderFill | src/byt/io/file/mod.rs:331-349 | The buffer `read_piece` fills from the reader: the delivered bytes, then the zeros the buffer was created with |
| PieceTable.Requests | src/byt/io/file/mod.rs:448-500 | The `read_piece` calls of a read: from the start offset to the end of the first piece, every piece between whole, and the last piece up to the end offset; one request if both ends fall in one piece |
| PieceTable.RequestBuffer | src/byt/io/file/mod.rs:328-350 | The buffer has exactly the requested number of bytes |
| PieceTable.ReadParts | src/byt/io/file/mod.rs:448-500 | With both ends of the read located, the read makes exactly those requests and each of them can be served |
| PieceTable.ReadTextValid | src/byt/io/file/mod.rs:354-363 | What a series of `read_piece` calls pushes is well-formed UTF-8 and no longer than the bytes the calls ask for, since each call keeps only a well-formed prefix of its buffer |
| PieceTable.RequestedUpTo | src/byt/io/file/mod.rs:464-487 | On chained pieces, the first stage and the whole pieces after it ask for the bytes from the start offset to the end of the last piece they cover |
| PieceTable.RequestedChain | src/byt/io/file/mod.rs:464-497 | The three stages of a read across pieces ask for exactly `end_offset - start_offset` bytes when the pieces are chained |
| PieceTable.ReadRequested | src/byt/io/file/mod.rs:448-500 | On chained pieces, the requests of any read from `start_offset` to `end_offset` ask for exactly `end_offset - start_offset` bytes |
| PieceTable.ReadPromise | src/byt/io/file/mod.rs:444-447 | A read returns only whole UTF-8 characters and, on a contiguous table, at most `num_bytes` bytes |
| PieceTableProperties.SplitAroundContent | src/byt/io/file/mod.rs:297-320 | The parts put in place of the split piece read its bytes before the offset, then the new text, then its bytes from the offset |
| PieceTableProperties.InsertPlacesText | src/byt/io/file/mod.rs:247-324 | On a contiguous table and an offset inside the document, `_insert` places the text at the offset: the document becomes the part before it, the text, and the part after it; the table stays contiguous and the total grows by the text's length |
| PieceTableProperties.InsertAtFront | src/byt/io/file/mod.rs:278-282 | An insert at offset 0 puts the piece's bytes in front and renumbers the whole table |
| PieceTableProperties.InsertAtEnd | src/byt/io/file/mod.rs:283-288 | An insert at the end of a non-empty document appends the piece's bytes and numbers the piece at the old length |
| PieceTableProperties.InsertInside | src/byt/io/file/mod.rs:290-321 | An insert strictly inside the document splits the located piece and places the bytes at the offset |
| PieceTableProperties.HeadContent | src/byt/io/file/mod.rs:173-186 | The pieces before `s` and the head of piece `s` hold the document up to the start of the range |
| PieceTableProperties.TailContent | src/byt/io/file/mod.rs:198-214 | The tail of piece `e` and the pieces after it hold the document from the end of the range |
| PieceTableProperties.CutAcrossContent | src/byt/io/file/mod.rs:171-214 | The cut table holds the document without the range |
| PieceTableProperties.AcrossTableRemovesRange | src/byt/io/file/mod.rs:171-218 | A delete across pieces (cut, purge, renumber) leaves the document without the range, and the total shrinks by the range's length |
| PieceTableProperties.WithinKeepsFromNextByte | src/byt/io/file/mod.rs:132-165 | The single-piece branch keeps the bytes before the range and the last bytes of the piece counted from one past the range's start; every other piece is unchanged |
| PieceTableProperties.DeleteOneByteWithin | src/byt/io/file/mod.rs:132-165 | For a one-byte range inside a piece, the single-piece branch removes exactly that byte |
| PieceFiles.TrimToText | src/byt/io/file/mod.rs:352-361 | The trim loop of `read_piece` stops at the longest prefix of the buffer that is well-formed UTF-8 |
| PieceFiles.PieceFile.Empty | src/byt/io/file/mod.rs:394-406 | `empty()`: no pieces, no actions, length 0, no reader; the table invariant holds |
| PieceFiles.PieceFile.Open | src/byt/io/file/mod.rs:416-442 | `open`: one Original piece over the whole file; the table invariant holds and the document is the file's bytes |
| PieceFiles.PieceFile.UpdateOffsets | src/byt/io/file/mod.rs:367-381 | The loop gives every piece after the start index the running end of the pieces before it and changes nothing else |
| PieceFiles.PieceFile.InsertAction | src/byt/io/file/mod.rs:247-324 | `_insert` appends the text to the store, grows the length, builds `InsertedTable` and returns an Insert action with the new piece and `merge_down` set |
| PieceFiles.PieceFile.SplitInsert | src/byt/io/file/mod.rs:297-321 | The split case: the located piece gives way to its lower part, the new piece and its upper part, and the table is renumbered from there |
| PieceFiles.PieceFile.Insert | src/byt/io/file/mod.rs:410-413 | `insert` records the action and changes the table as `_insert` does; on a valid buffer and an offset inside the document the buffer stays valid and its document has the text spliced in at the offset |
| PieceFiles.PieceFile.DeleteAction | src/byt/io/file/mod.rs:111-221 | `_delete` shrinks the length by the range's length, builds `DeletedTable` and returns a Delete action with the recorded fragments |
| PieceFiles.PieceFile.DeleteWithin | src/byt/io/file/mod.rs:132-165 | The single-piece branch as written: lower part, then an upper part starting `delete_size` bytes after it, and a one-fragment record |
| PieceFiles.PieceFile.DeleteAcross | src/byt/io/file/mod.rs:167-218 | The branch across pieces: the cut, `retain` of non-empty pieces and `update_offsets` from the start index |
| PieceFiles.PieceFile.CutPieces | src/byt/io/file/mod.rs:171-214 | The three passes over the start piece, the pieces between and the end piece give `CutAcross` and record `CutRecord` |
| PieceFiles.PieceFile.Delete | src/byt/io/file/mod.rs:388-391 | `delete` records the action of `_delete` and leaves its table |
| PieceFiles.PieceFile.ReadPiece | src/byt/io/file/mod.rs:328-364 | An Append read copies the slice at the piece's file offset; an Original read takes the reader's next bytes and moves the reader; the result is the longest well-formed prefix of the buffer |
| PieceFiles.PieceFile.Read | src/byt/io/file/mod.rs:444-500 | `read(num_bytes)` returns the texts of the located requests concatenated in order, and the reader ends where those requests leave it; the result is well-formed UTF-8 and, on a valid table, at most `num_bytes` bytes long |
| PieceFiles.LocateRead | src/byt/io/file/mod.rs:451-454 | The two `get_at_offset` calls find the pieces holding the first and the last offset of the read, whose requests are exactly the read's requests and can all be served |
| PieceFiles.PieceFile.ReadLocated | src/byt/io/file/mod.rs:455-499 | With both ends located, the read returns the texts of the requests for the pieces from the first to the last, in order, and the reader ends where they leave it |
| PieceFiles.PieceFile.ReadSingle | src/byt/io/file/mod.rs:457-462 | A range inside one piece is read by one `read_piece` call from the start offset for `num_bytes` bytes |
| PieceFiles.PieceFile.ReadAcross | src/byt/io/file/mod.rs:464-497 | Reading pieces `s`..`e` reads the first piece from the start offset, the pieces between whole and the last up to the end offset |
| PieceFiles.PieceFile.ReadBetween | src/byt/io/file/mod.rs:474-488 | The loop over the pieces between the ends appends each piece's text in order |
| PieceFiles.PieceFile.ReadNext | src/byt/io/file/mod.rs:464-497 | Each `read_piece` call of `read` appends the text of its request to the text of the requests before it and leaves the reader past that request |
| PieceFiles.PieceFile.ReadLast | src/byt/io/file/mod.rs:490-497 | The piece the read ends in, read from its start up to the end offset, completes the text of all the requests |
| PieceFiles.PieceFile.Seek | src/byt/io/file/mod.rs:540-552 | The offset from the start, from the recorded length or from the read offset; `Start(n)` gives `n` |
| PieceFiles.PieceFile.Undo | src/byt/io/file/mod.rs:512-536 | With no action nothing changes; otherwise the last action is popped and reverted: an insert removes the located piece and renumbers, a delete puts its fragments back at the located index |
| PieceFiles.PieceFile.RemoveInserted | src/byt/io/file/mod.rs:521-529 | Undoing an insert removes the located piece and renumbers the table from the piece before it |
| PieceFiles.PieceFile.RestoreFragments | src/byt/io/file/mod.rs:532-535 | Undoing a delete inserts each recorded fragment at the located index in turn, so the fragments end up there in reverse order |
| EarlyPieceTable.EarlyInsertedTable | src/byt/io/file.rs:161-227 | The earlier insert adds one or two pieces and never renumbers |
| EarlyPieceTable.EarlyInsertSameShape | src/byt/io/file.rs:161-227 | The earlier insert lays out the same pieces as the later one; only logical offsets differ |
| EarlyPieceTable.EarlyInsertPlacesText | src/byt/io/file.rs:161-227 | On a contiguous table one earlier insert still puts the text at the offset |
| EarlyPieceTable.FrontInsertLeavesStaleOffsets | src/byt/io/file.rs:186-189 | An insert at 0 into a non-empty contiguous table leaves it no longer contiguous |
| EarlyPieceTable.StaleOffsetMisplacesInsert | src/byt/io/file.rs:161-227 | From the seeded empty buffer, "ab" at 0, "c" at 0 and "d" at 2 build a table where "d" follows "ab" instead of sitting at offset 2 |
| EarlyPieceTable.StaleTableContent | src/byt/io/file.rs:161-227 | That table reads "cabd", not "cadb" |
| EarlyPieceTable.TwoFrontInserts | src/byt/io/file.rs:292-315 | The unit test's two inserts at 0 give three pieces: the two texts and the seed piece |
| EarlyPieceTable.FirstInside | src/byt/io/file.rs:248-254 | The scan of the earlier `delete`: the first piece from the start index, below the end index, that strictly holds the range |
| EarlyPieceTable.EarlyDeletedTable | src/byt/io/file.rs:230-284 | When both ends of the range fall in the same piece the table is unchanged; otherwise at most one piece is split in two |
| EarlyPieceTable.SplitOut | src/byt/io/file.rs:254-281 | The split piece gives way to its part below the range and a part that skips the deleted bytes |
| EarlyPieceTable.EarlyDeletedAt | src/byt/io/file.rs:230-284 | The earlier delete from the two located indices: unchanged if no piece strictly holds the range, else that piece split |
| EarlyPieceTable.EarlyDeleteIgnoresContiguous | src/byt/io/file.rs:230-284 | On a contiguous table the earlier delete never finds a piece to split, so it leaves the table unchanged |
| EarlyPieceTable.EarlyPieceFile.Empty | src/byt/io/file.rs:140-158 | `empty()`: a single empty Append piece, length 0, no actions |
| EarlyPieceTable.EarlyPieceFile.Open | src/byt/io/file.rs:112-137 | `open`: one Original piece over the file |
| EarlyPieceTable.EarlyPieceFile.Insert | src/byt/io/file.rs:161-227 | Appends the text, grows the length, records the action and builds `EarlyInsertedTable`; on a contiguous sized table the document gets the text at the offset |
| EarlyPieceTable.EarlyPieceFile.PlacePiece | src/byt/io/file.rs:184-226 | The table edit of the earlier insert for its three cases (front, end, split) |
| EarlyPieceTable.EarlyPieceFile.SplitInsert | src/byt/io/file.rs:203-226 | The split case: lower part, new piece, upper part, with no renumbering |
| EarlyPieceTable.EarlyPieceFile.Delete | src/byt/io/file.rs:230-284 | The earlier delete changes the table as `EarlyDeletedTable` says and neither the length nor the actions |
| EarlyPieceTable.EarlyPieceFile.SplitPiece | src/byt/io/file.rs:254-281 | Splits the piece at the index around the range and returns the fragment it cut out |
| DeleteFindings.WithinDeleteKeepsWrongByte | src/byt/io/file/mod.rs:116 | Deleting 2 bytes from the start of "abc" leaves "b", where removing the range leaves "c" |
| DeleteFindings.WithinDeleteLeavesStaleOffsets | src/byt/io/file/mod.rs:132-165 | After a single-piece delete the later pieces keep their old offsets, so the table is no longer contiguous |
| DeleteFindings.AcrossDeleteFromStartLeavesStaleOffset | src/byt/io/file/mod.rs:217-218 | A delete across pieces from offset 0 empties the first piece, `retain` drops it, and renumbering from index 0 keeps the stale offset of the piece now at index 0 |
| DeleteFindings.EndFragmentUnderflows | src/byt/io/file/mod.rs:196-209 | On a contiguous two-piece table holding "a" and "bcdef", delete(0, 3) is outside what `_delete` can run: the end fragment's logical offset underflows |
| DeleteFindings.SplicedPieces | src/byt/io/file/mod.rs:171-214 | The corrected cut has one piece more than the table for a range inside one piece, else as many pieces |
| DeleteFindings.CorrectedDeletedTable | src/byt/io/file/mod.rs:111-221 | The corrected delete's table has at most one piece more than before |
| DeleteFindings.LocatedEnds | src/byt/io/file/mod.rs:114-115 | In a contiguous table both ends of a range inside the document are located, in order, each inside its piece |
| DeleteFindings.SplicedRemovesRange | src/byt/io/file/mod.rs:111-221 | The corrected cut holds the document without the range |
| DeleteFindings.PurgeReindex | src/byt/io/file/mod.rs:217-218 | Dropping empty pieces and renumbering from zero keeps the document, leaves no empty piece and makes the table contiguous |
| DeleteFindings.CorrectedDeleteRemovesRange | src/byt/io/file/mod.rs:111-221 | The corrected delete removes exactly the range, keeps the table contiguous with no empty piece, and shrinks the total by the range's length |
| LineIndex.Line.ContentEnd | src/byt/views/file/mod.rs:48-51 | `content_end`: the offset just past the line's content |
| LineIndex.Line.Len | src/byt/views/file/mod.rs:58-61 | `len`: the effective length, the content and the line ending together |
| LineIndex.Line.End | src/byt/views/file/mod.rs:53-56 | `end`: the offset just past the line ending |
| LineIndex.Line.Start | src/byt/views/file/mod.rs:67-70 | `start`: the offset of the line's first character |
| LineIndex.LineLayout | src/byt/views/file.rs:44-61 | The accessors of both versions agree: the content ends inside the line, the ending fills the rest, and the effective length spans the line from start to end |
| LineIndex.ScanOfInv | src/byt/views/file/mod.rs:151-184 | After every prefix of a text without '\r', the scan's lines are numbered, chained and each ends with its '\n', and the open line runs from the last line's end to the prefix's end |
| LineIndex.StepContent | src/byt/views/file/mod.rs:178-180 | A content character extends the open line and keeps the scan invariant |
| LineIndex.StepNewline | src/byt/views/file/mod.rs:163-177 | A '\n' closes the open line with its ending and starts the next line right after it |
| LineIndex.LinesOfSplits | src/byt/views/file/mod.rs:132-194 | For every text without '\r', `regenerate_lines` gives its line structure: at least one line, the first at 0, numbered from 1, each starting where the previous ends, the last ending at the end of the text, and a line ending only after the '\n' that ends each line |
| LineIndex.FinishWithLast | src/byt/views/file/mod.rs:186-193 | Text after the last '\n' becomes a last line without an ending |
| LineIndex.FinishAtNewline | src/byt/views/file/mod.rs:186-193 | A text that ends right after a '\n' keeps the lines of its scan |
| LineIndex.NoLineAfterFinalNewline | src/byt/views/file/mod.rs:186-193 | A text that ends with '\n' gets no empty line after it: its last line ends with the '\n' at the end of the text |
| LineIndex.FirstContaining | src/byt/views/file/mod.rs:223-229 | The loop of `current_line` from any index: the first line holding the offset, no line before it holding it |
| LineIndex.CurrentIndex | src/byt/views/file/mod.rs:218-232 | The line `current_line` returns: the first line holding the cursor, or line 0 when none does |
| LineIndex.SomeLineContains | src/byt/views/file/mod.rs:218-232 | In chained lines starting at 0, every offset before the last line's end lies in some line |
| LineIndex.CurrentLineOfText | src/byt/views/file/mod.rs:218-232 | For the lines of a text, `current_line` returns the line holding any cursor before the end, and line 0 at the end |
| FileViews.Clamp | src/byt/views/file/mod.rs:367 | The clamp of `move_lines` gives a value within the bounds, and the value itself when it is already within them |
| FileViews.DestIndex | src/byt/views/file/mod.rs:357-373 | The destination line of `move_lines` is a line of the index |
| FileViews.LeftStaysInLine | src/byt/views/file/mod.rs:381-390 | Within the text, `move_left` stays in the current line and moves back by at most one; it stays put exactly at the line's start |
| FileViews.RightWithinText | src/byt/views/file/mod.rs:393-402 | Within the text, `move_right` moves one on, to at most the current line's end |
| FileViews.MoveLinesLands | src/byt/views/file/mod.rs:357-373 | `move_lines(delta)` goes to the line `delta` away, clamped to the first and last lines, and lands within that line's content; a landing inside the text is on that line |
| FileViews.OnlyOneLineContains | src/byt/views/file/mod.rs:218-232 | No two lines of a text hold the same offset, so the line holding the cursor is the one `current_line` returns |
| FileViews.LinesOrdered | src/byt/views/file/mod.rs:132-194 | A later line of a text starts no earlier than an earlier one ends |
| FileViews.CurrentLineInText | src/byt/views/file/mod.rs:251-262 | The line `current_line` returns lies inside the text, so `delete_current_line` deletes a range of the text |
| FileViews.FileView.Len | src/byt/views/file/mod.rs:348-352 | `len()`: the length of the buffer's text plus the pending insertion |
| FileViews.FileView.Empty | src/byt/views/file/mod.rs:265-282 | `empty()`: no text, cursor and viewport at 0, a single empty line, nothing pending |
| FileViews.FileView.Open | src/byt/views/file/mod.rs:411-428 | `new(path)`: the file's text, cursor at 0 and the lines of the text |
| FileViews.FileView.RegenerateLines | src/byt/views/file/mod.rs:132-194 | The loop builds `LinesOf(text)`, which for a text without '\r' is its line structure |
| FileViews.FileView.Backspace | src/byt/views/file/mod.rs:202-215 | At offset 0 nothing; otherwise the last pending character, or else the character before the cursor, goes, and the cursor moves left |
| FileViews.FileView.CurrentLine | src/byt/views/file/mod.rs:218-232 | Returns the line `CurrentIndex` names |
| FileViews.FileView.Delete | src/byt/views/file/mod.rs:236-248 | At or past the end of the text nothing changes; otherwise the range goes, the lines are rebuilt, and a cursor within the range moves to its start |
| FileViews.FileView.DeleteCurrentLine | src/byt/views/file/mod.rs:251-262 | Deletes the current line's content and ending |
| FileViews.FileView.DoneInserting | src/byt/views/file/mod.rs:285-297 | The pending insertion goes into the text at its start, the cursor goes after it and the lines are rebuilt; the length is unchanged |
| FileViews.FileView.GotoLineEnd | src/byt/views/file/mod.rs:311-314 | The cursor goes to the end of the current line's content |
| FileViews.FileView.GotoLineStart | src/byt/views/file/mod.rs:317-320 | The cursor goes to the current line's start |
| FileViews.FileView.Insert | src/byt/views/file/mod.rs:327-336 | The character joins the pending insertion (which starts at the cursor if it was empty) and the cursor moves right |
| FileViews.FileView.InsertStr | src/byt/views/file/mod.rs:340-346 | The text is spliced in at the cursor, the lines rebuilt and the cursor put after it |
| FileViews.FileView.MoveLines | src/byt/views/file/mod.rs:357-373 | The cursor goes to `LinesTarget` |
| FileViews.FileView.MoveDown | src/byt/views/file/mod.rs:376-378 | `move_lines(1)` |
| FileViews.FileView.MoveUp | src/byt/views/file/mod.rs:405-407 | `move_lines(-1)` |
| FileViews.FileView.MoveLeft | src/byt/views/file/mod.rs:381-390 | The cursor goes to `LeftTarget` |
| FileViews.FileView.MoveRight | src/byt/views/file/mod.rs:393-402 | The cursor goes to `RightTarget` |
| FileViews.FileView.SetCursor | src/byt/views/file/mod.rs:431-435 | The cursor takes the location, unchecked |
| FileViews.FileView.SetViewportTop | src/byt/views/file/mod.rs:439-445 | The viewport top is the line clamped to the last line's index |
| LineFindings.EndOfTextFallsBackToFirstLine | src/byt/views/file/mod.rs:218-232 | With the cursor at the end of "a\nb", `current_line` returns line 1 |
| LineFindings.CorrectedIndex | src/byt/views/file/mod.rs:218-232 | The corrected current line is a line of the index |
| LineFindings.CorrectedLineOfText | src/byt/views/file/mod.rs:218-232 | The corrected current line spans the cursor; before the end of the text it is the line `current_line` finds, at the end it is the last line, and its number is its index plus one |
| LineFindings.CorrectedEndOfTextOnLastLine | src/byt/views/file/tests.rs:98-103 | On the test's input the corrected current line is line 2 |
| LineFindings.RightAtEndOfText | src/byt/views/file/mod.rs:393-402 | At the end of a text of several lines `move_right` goes one past the end; at the end of a one-line text it does not move |
| LineFindings.InsertInEmptyViewStays | src/byt/views/file/mod.rs:327-336 | In an empty view, `insert` leaves the cursor at 0 |
| LineFindings.CorrectedRightStaysInText | src/byt/views/file/mod.rs:393-402 | With the corrected current line, `move_right` never leaves the text and moves one on everywhere before its end |
| LineFindings.CrlfLineStartsPastItsStart | src/byt/views/file/mod.rs:173 | In "a\r\nb" the second line starts at 4, not where the first ends (3), and ends past the text |
| LineFindings.FixedScanInv | src/byt/views/file/mod.rs:151-184 | After every prefix of any text, the fixed scan's lines start at 0, are chained and end inside the prefix |
| LineFindings.FixedNewlineInv | src/byt/views/file/mod.rs:163-177 | With the corrected line offset, a '\n' closes the open line where the chain of lines ends and keeps every line inside the text |
| LineFindings.FixedLinesChained | src/byt/views/file/mod.rs:132-194 | For every text, with or without '\r', the fixed lines start at 0, each starts where the previous one ends, and none ends past the text |
| LineFindings.FixedCrlfLines | src/byt/views/file/mod.rs:173 | With the fix, the second line of "a\r\nb" starts at 3 |
| LineFindings.FixedAgreesOnLineFeeds | src/byt/views/file/mod.rs:132-194 | The fix changes nothing for texts without '\r' |
| EarlyFileViews.ClampedRight | src/byt/views/file.rs:308-315 | The earlier `move_right` moves one on but never past the text plus the pending insertion |
| EarlyFileViews.EarlyLinesTargetAgrees | src/byt/views/file.rs:275-287 | On the lines of a text, the earlier `move_lines` (which uses the line's index) lands where the later one (which uses its number) does |
| EarlyFileViews.EarlyFileView.Empty | src/byt/views/file.rs:213-229 | `empty()`: no text, a single empty line, nothing pending |
| EarlyFileViews.EarlyFileView.Open | src/byt/views/file.rs:324-340 | `new(path)`: the file's text and its lines |
| EarlyFileViews.EarlyFileView.RegenerateLines | src/byt/views/file.rs:117-174 | The same scan as the later version, giving `LinesOf(text)` |
| EarlyFileViews.EarlyFileView.Backspace | src/byt/views/file.rs:182-194 | At offset 0 nothing; otherwise a pending or a text character goes and the cursor moves one back |
| EarlyFileViews.EarlyFileView.CurrentLine | src/byt/views/file.rs:197-210 | Returns the first line holding the cursor with its index, or line 0 |
| EarlyFileViews.EarlyFileView.DoneInserting | src/byt/views/file.rs:232-242 | The pending insertion goes into the text at its start and the cursor goes after it |
| EarlyFileViews.EarlyFileView.Insert | src/byt/views/file.rs:260-270 | The character joins the pending insertion and the cursor moves one on whenever it was within the text and the insertion |
| EarlyFileViews.EarlyFileView.MoveLines | src/byt/views/file.rs:275-287 | The cursor goes to `EarlyLinesTarget` |
| EarlyFileViews.EarlyFileView.MoveDown | src/byt/views/file.rs:290-292 | `move_lines(1)` |
| EarlyFileViews.EarlyFileView.MoveUp | src/byt/views/file.rs:318-320 | `move_lines(-1)` |
| EarlyFileViews.EarlyFileView.MoveLeft | src/byt/views/file.rs:295-305 | One back, but not before offset 0 |
| EarlyFileViews.EarlyFileView.MoveRight | src/byt/views/file.rs:308-315 | One on, but not past the text plus the pending insertion |
| EarlyFileViews.EarlyFileView.SetCursor | src/byt/views/file.rs:343-347 | The cursor takes the location clamped to the text |
| EarlyFileViews.EarlyFileView.SetViewportTop | src/byt/views/file.rs:351-356 | The viewport top is the line clamped to the last line's index |
| Binds.BindingTable.constructor | src/byt/io/binds/mod.rs:50-54 | A new table has no bindings |
| Binds.BindingTable.AddAction | src/byt/io/binds/mod.rs:57-64 | One binding to the action, last |
| Binds.BindingTable.AddTable | src/byt/io/binds/mod.rs:67-72 | One binding to the table, last |
| Binds.FirstMatchFrom | src/byt/io/binds/mod.rs:99-102 | The scan of `consume` from any index: the first binding with the key, none before it having the key |
| Binds.AddedBindingLast | src/byt/io/binds/mod.rs:57-72 | Adding a binding never changes the binding a bound key finds; a key bound for the first time finds the new binding |
| Binds.FirstMatchIs | src/byt/io/binds/mod.rs:99-102 | A binding with the key and none before it is the one `consume` acts on |
| Binds.ConsumedCases | src/byt/io/binds/mod.rs:98-120 | A key bound to nothing in the current table changes nothing; an action leaves the table; a table switch leaves the action; on linked tables the handler stays in its tables |
| Binds.RootKeyReturns | src/byt/io/binds/mod.rs:114-117 | A key bound to `Root` takes the handler back to the root table, from any table |
| Binds.BindHandler.constructor | src/byt/io/binds/mod.rs:88-95 | The handler starts in the given table, which is also the root, with no action |
| Binds.BindHandler.Consume | src/byt/io/binds/mod.rs:98-120 | The loop acts on the first binding with the key in the current table, and keeps the handler in its tables |
| Binds.FindBinding | src/byt/io/binds/mod.rs:99-102 | The scan of `consume` stops at the first binding with the key, and runs past the last binding when none has it |
| Binds.BindHandler.Apply | src/byt/io/binds/mod.rs:104-118 | An action is recorded and flagged, a table or the root becomes current |

## Left out

- File I/O: `open` takes the file's bytes instead of a path, and the reader over the file is a position in those bytes. The `io::Result` errors of opening and reading are not modelled.
- Integer widths: offsets are unbounded naturals. The u64 (and earlier u32) arithmetic of the piece table and its `usize` casts never overflow in the model. The unsigned subtractions that would underflow (and panic in a debug build) are excluded by the `requires` clauses that stand for the source's panics, together with `unwrap` on a failed lookup and out-of-range slicing.
- `merge_pieces` has an empty body in the source, so it has no counterpart.
- `Display` for pieces, `calculate_viewport`, `render`, `should_render`, `file`/`file_mut`, and the `KeyInput` and `Actionable` glue of the views are rendering and plumbing, and are not modelled.
- `undo` is modelled on the table only; its effect on the document is not stated, because the actions recorded by the source's delete do not in general allow an exact revert.
- FileView: the view's buffer is modelled as its text, `doc`. Its edits are the splices the view asks for; the piece table underneath is modelled separately above. The defects of the piece table's delete therefore do not reach the view model.
- FileView: offsets are taken as character offsets. The source mixes byte lengths (`len()`, `insert_str`) with `char` counts. Multi-byte characters are not modelled in the view.
- FileViews.FileView.Delete, FileViews.FileView.InsertStr, FileViews.FileView.DoneInserting: they require the range or offset to lie inside the text. The buffer call they make would panic otherwise.
- FileViews.FileView.SetCursor, FileViews.FileView.SetViewportTop, EarlyFileViews.EarlyFileView.SetCursor, EarlyFileViews.EarlyFileView.SetViewportTop: the `Result` they return is always `Ok` and is dropped.
- LineIndex.LinesOfSplits: the line structure is proved only for texts without '\r'. With '\r' the source's lines are not chained (see Findings). A text whose last line holds only '\r' characters gets no line at all, and the fixed scan keeps that behaviour.
- EarlyPieceTable.EarlyPieceFile.Delete: the earlier delete builds an action and drops it. The model records nothing, as the source effectively does.
- Binds: tables are named by their index in a fixed list of tables. In the source they are references, and the handler's table list is implicit. The `Linked` predicate stands for "every referenced table exists".
- Binds: the source's `match` in `consume` has no arm for `Noop`. The model treats `Noop` as changing nothing. `new` does not set the wildcard at all; the model sets it to `Noop`. `consume` never reads it.
- Binds: the unit tests of `byt::io::binds` call `search_key` and a `master` table, which the module does not define. They are not modelled.
- PieceFiles.PieceFile.Delete, PieceFiles.PieceFile.DeleteAcross: they require that the end fragment's `piece_start_offset - lower_size` does not underflow, as the source panics there in a debug build. This excludes ordinary deletes across pieces (see Findings); the corrected delete, `DeleteFindings.CorrectedDeletedTable`, has no such restriction.
- PieceTable.ReaderAdvance: the model assumes that every `read` of the original file fills the buffer up to the end of the file. `BufReader::read` may deliver fewer bytes, and `read_piece` drops the count it returns (src/byt/io/file/mod.rs:346-349), which would leave zeros in the buffer; such short reads are not modelled.
- PieceFiles.PieceFile.Read: the bound of at most `num_bytes` bytes is proved on a valid, contiguous table only. The source's delete can leave the table non-contiguous (see Findings), and then the requests need not add up to `num_bytes`.
- Strings of actions are `seq<char>`; the lifetimes of the borrowed action names are not modelled.

## Findings

| source | as written | input that shows it | evidently intended | confidence | as-written member | corrected member |
|---|---|---|---|---|---|---|
| src/byt/io/file/mod.rs:116 | `delete_size` is the number of pieces the range spans (1 within a piece), and the upper part starts `delete_size` bytes after the range's start | "abc" in one piece, delete(0, 2): the document becomes "b" | the upper part starts at the range's end, so the document becomes "c" | high, not executed | DeleteFindings.WithinDeleteKeepsWrongByte | DeleteFindings.CorrectedDeleteRemovesRange |
| src/byt/io/file/mod.rs:132-165 | the single-piece branch does not renumber the pieces after the range | pieces of lengths 3 and 1, delete(0, 1): the second piece keeps offset 3 where the document puts it at 2 | renumber after the cut, as the branch across pieces does | high, not executed | DeleteFindings.WithinDeleteLeavesStaleOffsets | DeleteFindings.CorrectedDeleteRemovesRange |
| src/byt/io/file/mod.rs:217-218 | `update_offsets(start_index)` runs after `retain`, which may have removed the start piece | pieces of lengths m >= 1 and n >= 2, delete(0, m + 1): the remaining piece keeps logical offset m instead of 0 | renumber the table from its first piece | high, not executed | DeleteFindings.AcrossDeleteFromStartLeavesStaleOffset | DeleteFindings.CorrectedDeleteRemovesRange |
| src/byt/io/file/mod.rs:209 | the end fragment of a delete across pieces gets logical offset `piece_start_offset - lower_size`, which underflows whenever the cut reaches further into the end piece than that piece's logical offset (a panic in a debug build, a wrapped offset in a release build) | "a" in the original file and "bcdef" appended, pieces (Original, 0, 1, 0) and (Append, 0, 5, 1), delete(0, 3): the end piece starts at 1 and `lower_size` is 2 | the fragment keeps a logical offset that cannot underflow, such as `piece_start_offset`, and the delete removes the range | high, not executed | DeleteFindings.EndFragmentUnderflows | DeleteFindings.CorrectedDeleteRemovesRange |
| src/byt/io/file.rs:230-284 | the earlier delete only splits a piece, below the end piece, that strictly holds the range | "abc" in one piece, delete(1, 1): the table is unchanged | the range is removed | high, not executed | EarlyPieceTable.EarlyDeleteIgnoresContiguous | DeleteFindings.CorrectedDeleteRemovesRange |
| src/byt/io/file.rs:186-189 | an earlier insert at 0 does not renumber the pieces after it | from an empty buffer, "ab" at 0, "c" at 0, "d" at 2: the document reads "cabd" | "cadb" | high, not executed | EarlyPieceTable.StaleOffsetMisplacesInsert | PieceTableProperties.InsertPlacesText |
| src/byt/views/file/mod.rs:218-232 | at the end of the text no line holds the cursor and `current_line` falls back to line 1 | "a\nb", cursor 3 (the test at src/byt/views/file/tests.rs:98-103 expects line 2) | the last line | high, not executed | LineFindings.EndOfTextFallsBackToFirstLine | LineFindings.CorrectedLineOfText |
| src/byt/views/file/mod.rs:393-402 | `move_right` does not move at the current line's end, and the pending insertion is not in the lines, so `insert` leaves the cursor before the typed character | an empty view, insert('a'): the cursor stays at 0 (the test at src/byt/views/file/tests.rs:12-25 expects 1) | the cursor moves past the typed character, as in the earlier view | high, not executed | LineFindings.InsertInEmptyViewStays | EarlyFileViews.EarlyFileView.Insert |
| src/byt/views/file/mod.rs:393-402 | at the end of a text of several lines the current line is line 1, whose end is before the cursor, so `move_right` goes past the text | "a\nb", cursor 3: the cursor goes to 4 | the cursor stays at 3 | high, not executed | LineFindings.RightAtEndOfText | LineFindings.CorrectedRightStaysInText |
| src/byt/views/file/mod.rs:173 | the next line starts at `offset + num_ending_chars`, where `offset` is already at the '\n' | "a\r\nb": the second line starts at 4 and ends at 5, past the text | the next line starts right after the '\n', at 3 | high, not executed | LineFindings.CrlfLineStartsPastItsStart | LineFindings.FixedLinesChained |
