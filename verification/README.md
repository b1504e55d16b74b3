# nanodbc in Dafny

A model of the four parts of nanodbc that are algorithms, over a small abstract ODBC driver, with
proofs of what they promise.

| files | part of the library |
|---|---|
| `Unicode.dfy`, `PrefixCodes.dfy`, `Codec.dfy`, `CodecTheorems.dfy` | the conversions between UTF-8, UTF-16 and UTF-32 |
| `Odbc.dfy`, `Columns.dfy`, `Result.dfy`, `Cursor.dfy`, `ResultIterator.dfy` | the driver's handle, bound columns, the six moves over a block-fetched rowset, the iterator |
| `Pieces.dfy`, `Readers.dfy`, `CurrentRow.dfy` | reading a cell, from the bound buffer or in SQLGetData pieces |
| `Transactions.dfy` | nested transactions on one connection |
| `Batch.dfy`, `Sentry.dfy`, `TimestampText.dfy`, `Attributes.dfy` | batch packing, null sentries, the timestamp printer, the splitter of driver attributes |

How it is built:

- The codec is specified by two grammars and by nothing the code computes: `Utf8Octets` is the
  grammar of RFC 3629 section 4 and `Paired` says that every surrogate stands in a pair (RFC 2781
  section 2.2). `PrefixCodes` is the theory of any prefix-free spelling of code points; the three
  encodings are instances, and `Transcode` is the relation "spells the same code points". Both
  `convert` loops are proved against it. Shifts and masks are written as quotients and remainders;
  `EncoderBits` and `DecoderBits` prove on 32-bit words that these are the same numbers.
- The cursor is two things: `RowsetCursor` is a pure machine over the fields of `result_impl` and
  the driver's position, and `ResultImpl` is the class with the fields, the buffers and the
  indicator arrays. Every method is proved to take the machine's step and to keep every buffer in
  step with the rows of the result (`Synced`); the theorems are then about the machine. Every move
  also says, in the fields alone, on which row it lands. A read may note a null that is another
  row's; `InStep` is what every move and every read keeps.
- Reading is told twice as well: the `GetRef` methods say what is read in every state, by where the
  answer is found (`Supply`), and `GetText`, `GetWideText` and `GetBytes` say what the first read of
  a cell returns, in terms of the table and of bytes in memory alone.
- `Handle` is the driver: where the cursor stands after SQLFetchScroll (the positioning tables of
  its reference page), rowset row counts, and SQLGetData in pieces. What the reference pages leave
  to the driver is left open: a cut piece reports what is left or SQL_NO_TOTAL at will, a fetch
  reports the length of a value it cut or SQL_NO_TOTAL (`totals`), unbound indicators are written
  or not (`indicatesUnbound`), bound columns may be read again or not (`getDataOnBound`), and any
  fetch may raise, leaving any row count behind (`faults`). On an empty result, where the page is
  silent, a forward fetch ends after the end and a backward one before the start. SQLGetData takes
  any column in any order, as SQL_GD_ANY_COLUMN and SQL_GD_ANY_ORDER promise, and on any rowset, as
  SQL_GD_BLOCK does.
- A raised exception is the value `Raised` of an `Outcome`. Wide characters are 16-bit units, low
  byte first in memory.

Where the code and its documentation differ, the model follows the code:

- `nanodbc/nanodbc.h:565` says that an uncommitted transaction object rolls its work back when it
  is destroyed, and line 572 that `rollback` marks the transaction. Both hold only for the object
  that takes the count to zero, and only if it does so uncommitted: `DestroyRollsBackIff`,
  `CommitMakesDurableIff`, `MarkDoesNotHoldBackCommit`, `AbandonedInnerIsCommitted`.
- `last`, `prior` across a rowset boundary and `skip` across one name other rows than their
  documentation says as soon as a rowset has more than one row: `LastExactIff`, `PriorExactIff` and
  `SkipExactIff` say exactly when they are right, and `LastMisses`, `PriorMisses` and `SkipMisses`
  are inputs on which they are not.
- The pointer form of `bind_strings` also takes a text for the sentry that fills its whole width
  and is a proper prefix of it: `HitIsSentryIff`, `PrefixOfSentryHits`.
- A bound text that was cut is read again from the driver's own row, which `next` and `skip` inside
  a rowset do not move, and which hands a value over once. `OwnCellIff` and `OwnValueIff` say, for
  every state that moves and reads leave, exactly when a get gives the cursor's own cell.
  `ReadsAnotherRow` is an input on which it gives another row's, and `ReadsNothing` one on which
  the first get of a cell gives nothing. `OwnTextIff` says which rows of a loop are affected.
- The splitter of driver attributes tests for a missing '=' against the wrong end, so it never
  stops at one: `Split` raises there, and is sound exactly when every entry has an '='.
- `get` with a fallback converts a string before it tests for null the second time. The model tests
  first. A null leaves nothing to convert, so the order cannot be seen.

## Model

| member | source | states |
|---|---|---|
| Unicode.EncodeUtf8 | nanodbc/nanodbc.cpp:375-399 | for every valid code point the octets are a UTF8-char of RFC 3629 section 4 whose payload bits hold that code point |
| Unicode.EncodeUtf16 | nanodbc/nanodbc.cpp:410-423 | for every valid code point the units are one non-surrogate, or the high and low surrogate whose ten-bit halves hold it |
| Unicode.EncodeUtf32 | nanodbc/nanodbc.cpp:402-406 | one unit, the number of the code point |
| Unicode.Utf8Bits | nanodbc/nanodbc.cpp:375-399 | one to four octets by the size of the code point, and the code point is what the low bits of the octets make |
| Unicode.Utf16Bits | nanodbc/nanodbc.cpp:410-423 | below U+10000 the unit is the code point, and above the two ten-bit halves make what exceeds it |
| Unicode.Utf8Unique | nanodbc/nanodbc.cpp:468-476 | whatever the grammar accepts holds a valid code point and is the only spelling of it: no overlong form, no surrogate |
| Unicode.Utf16Unique | nanodbc/nanodbc.cpp:489-507 | the same for one unit or one surrogate pair |
| CodecTheorems.EncoderBits | nanodbc/nanodbc.cpp:375-423 | the shifts, masks and ors of both encoders, on 32-bit words, are the quotients and remainders the model uses |
| CodecTheorems.DecoderBits | nanodbc/nanodbc.cpp:436-465 | the same for the decoder's masks, its continuation test and its accumulating shift, and for joining a surrogate pair |
| CodecTheorems.AsciiUnchanged | nanodbc/nanodbc.cpp:515-541 | text below U+0080 keeps its numbers, position by position, in all three forms |
| Codec.AppendAsUtf8 | nanodbc/nanodbc.cpp:375-399 | what is appended, and nothing else, spells the code point in UTF-8 |
| Codec.AppendAsUtf16 | nanodbc/nanodbc.cpp:410-423 | what is appended spells the code point in UTF-16 |
| Codec.AppendAsUtf32 | nanodbc/nanodbc.cpp:402-406 | one unit is appended, and its number is the code point |
| Codec.ReadContinuations | nanodbc/nanodbc.cpp:460-466 | succeeds exactly when all the octets are continuations, and has then gathered their six-bit groups |
| Codec.ChecksAreGrammar | nanodbc/nanodbc.cpp:468-474 | the three overlong tests and the validity test together decide exactly the grammar's ranges for the second octet |
| Codec.NextUtf8CodePoint | nanodbc/nanodbc.cpp:425-477 | reads the one UTF8-char that starts at the cursor and stops behind it, and raises exactly when no length gives one |
| Codec.NextUtf16CodePoint | nanodbc/nanodbc.cpp:489-507 | the same for one unit or one surrogate pair |
| Codec.NextUtf32CodePoint | nanodbc/nanodbc.cpp:479-487 | reads the unit at the cursor as the code point of the same number and steps over it, and raises exactly for a surrogate or a number above U+10FFFF |
| Codec.ConvertUtf8ToUtf16 | nanodbc/nanodbc.cpp:529-541 | succeeds exactly on UTF8-octets of RFC 3629 section 4, and gives the UTF-16 text of the same code points |
| Codec.ConvertUtf8ToUtf32 | nanodbc/nanodbc.cpp:529-541 | the same into UTF-32: the units are, one by one, the numbers of the code points that the octets spell |
| Codec.ConvertUtf16ToUtf8 | nanodbc/nanodbc.cpp:515-527 | succeeds exactly when every surrogate is paired, and gives the UTF-8 text of the same code points |
| Codec.ConvertUtf32ToUtf8 | nanodbc/nanodbc.cpp:515-527 | succeeds exactly when every unit is a valid code point, and the octets then spell the code points that the units number one by one |
| Codec.Utf8Exact | nanodbc/nanodbc.cpp:425-477 | the grammar of RFC 3629 section 4 accepts exactly the encodings of code point sequences |
| Codec.Utf16Exact | nanodbc/nanodbc.cpp:489-507 | correct pairing accepts exactly the encodings of code point sequences |
| Codec.Utf32Exact | nanodbc/nanodbc.cpp:479-487 | the same for UTF-32 |
| Codec.Utf32IsNumbers | nanodbc/nanodbc.cpp:402-406 | a text is spelled by its own list of code points, unit by unit, and by nothing else |
| Codec.Utf8Free | nanodbc/nanodbc.cpp:375-399 | no UTF-8 spelling is the beginning of another |
| Codec.Utf16Free | nanodbc/nanodbc.cpp:410-423 | no UTF-16 spelling is the beginning of another |
| PrefixCodes.TranscodeIs | nanodbc/nanodbc.cpp:515-541 | the relation "spells the same code points" has one answer for every spelled text |
| PrefixCodes.RoundTrip | nanodbc/nanodbc.cpp:515-541 | converting there and back gives the original text, for any two prefix-free forms |
| PrefixCodes.TranscodeInjective | nanodbc/nanodbc.cpp:515-541 | two texts that convert to the same text are the same text |
| PrefixCodes.TranscodeConcat | nanodbc/nanodbc.cpp:515-541 | behind a well-formed beginning, conversion distributes over concatenation, failures included |
| PrefixCodes.SpellPrefixIff | nanodbc/nanodbc.cpp:2893-2904 | one spelled text begins another exactly when its code points do |
| CodecTheorems.NarrowWideNarrow | nanodbc/nanodbc.cpp:509-541 | narrow to UTF-16 or UTF-32 and back is defined on exactly the well-formed octets and is the identity there |
| CodecTheorems.WideNarrowWide | nanodbc/nanodbc.cpp:509-541 | UTF-16 to narrow and back is defined exactly where surrogates are paired and is the identity there |
| CodecTheorems.Utf32NarrowUtf32 | nanodbc/nanodbc.cpp:509-541 | the same for UTF-32 and valid code points |
| CodecTheorems.NarrowingInjective | nanodbc/nanodbc.cpp:515-527 | valid UTF-16 strings have equal narrow forms exactly when they are equal |
| CodecTheorems.Narrowing32Injective | nanodbc/nanodbc.cpp:515-527 | the same for UTF-32 |
| CodecTheorems.RejectedIff | nanodbc/nanodbc.cpp:425-477 | a string raises exactly when, after a well-formed beginning, a character is stray, truncated, broken, overlong, a surrogate or above U+10FFFF |
| CodecTheorems.CutIff | nanodbc/nanodbc.cpp:4812-4840 | well-formed text cut anywhere: the first part alone converts exactly when the octet behind the cut is no continuation, and the parts' conversions then join to the whole's |
| CodecTheorems.CutWideIff | nanodbc/nanodbc.cpp:4872-4900 | the same for wide text: the cut is harmless exactly when it is not behind a high surrogate |
| CodecTheorems.ZeroIsNul | nanodbc/nanodbc.cpp:2893-2904 | only U+0000 has a zero byte or unit in its spelling |
| CodecTheorems.CStrCommutes | nanodbc/nanodbc.cpp:2893-2904 | cutting a text at its first zero is the same before and after encoding |
| Odbc.Handle.SetPos | nanodbc/nanodbc.cpp:4615-4630 | driver contract: the row becomes current and column reading starts afresh |
| Scrolling.ScrollTable | nanodbc/nanodbc.cpp:4357-4358 | driver contract: the first row of the rowset that each fetch a move makes brings, by row numbers |
| Odbc.Handle.FetchScroll | nanodbc/nanodbc.cpp:4357-4371 | driver contract: where the rowset stands, how many rows it has, zero rows on SQL_NO_DATA, and what a failure leaves |
| Odbc.Handle.GetData | nanodbc/nanodbc.cpp:4812-4840 | driver contract: a piece and what is left make what was left before; SQL_SUCCESS_WITH_INFO only for truncation; nothing after the last piece |
| Columns.BoundColumn.constructor | nanodbc/nanodbc.cpp:4557-4571 | one indicator a row, and a buffer of rowset size times column length unless the column is a blob |
| Columns.BoundColumn.ClearIndicators | nanodbc/nanodbc.cpp:948-953 | every indicator is zero |
| Columns.BoundColumn.Unbind | nanodbc/nanodbc.cpp:4594-4613 | the buffer is given up, and indicators that agreed with the rows still do |
| Columns.BoundColumn.Deliver | nanodbc/nanodbc.cpp:4574-4592 | driver contract: after a fetch every slot holds its own row's value, cut and terminated, and no slot's write reaches another |
| Results.ResultImpl.constructor | nanodbc/nanodbc.cpp:4373-4572 | a fresh result is in order, stands before the first row, and has an unbound column exactly when one is a blob |
| Results.AutoBindColumns | nanodbc/nanodbc.cpp:4557-4571 | buffers of the right size that share no memory, and none for a blob |
| Results.ResultImpl.BeforeMove | nanodbc/nanodbc.cpp:4318-4327 | every indicator of every column is cleared |
| Results.ResultImpl.CallFetchScroll | nanodbc/nanodbc.cpp:4357-4371 | the rowset stands where the positioning table says for the orientation; a call that raises leaves position, current row and at-end alone and the row count to the driver; no data sets at-end |
| Results.ResultImpl.FetchRows | nanodbc/nanodbc.cpp:4345-4371 | the same behind the clearing of the indicators, and afterwards every slot and indicator agrees with the rows fetched |
| Results.ResultImpl.SetCurrentPosition | nanodbc/nanodbc.cpp:4615-4630 | the driver's current row becomes the cursor's exactly when that is a fetched row |
| Results.ResultImpl.MoveToFirst | nanodbc/nanodbc.cpp:3761-3765 | one fetch, which lands on row 0 of any result that has rows, with the buffers in step; an exception leaves the driver where it was |
| Results.ResultImpl.MoveToLast | nanodbc/nanodbc.cpp:3767-3771 | one fetch, which lands on row max(n - size, 0) of n rows in rowsets of `size`, with the buffers in step |
| Results.ResultImpl.MoveToNext | nanodbc/nanodbc.cpp:3773-3785 | inside a rowset one position on without a fetch; otherwise one fetch, from row 0 on before the start, from start + size on behind a rowset, and the end where no row is left; column reading starts afresh exactly where the driver is told of the move |
| Results.ResultImpl.MoveToPrior | nanodbc/nanodbc.cpp:3814-3823 | inside a rowset one position back without a fetch; otherwise one fetch, from row max(start - size, 0) on, or from row max(n - size, 0) on after the end, and nothing before row 0 |
| Results.ResultImpl.MoveToRow | nanodbc/nanodbc.cpp:3825-3829 | one fetch: row k counts from the first row, -k from the last, 0 finds nothing, and a row before the first still finds row 0 within one rowset of it |
| Results.ResultImpl.SkipRows | nanodbc/nanodbc.cpp:3831-3838 | inside a rowset `count` positions on without a fetch and without telling the driver; otherwise one fetch, from start + count on, and counted from outside the rows before the start and after the end; the fields stay in order unless it reaches back before its rowset |
| Results.ResultImpl.Unbind | nanodbc/nanodbc.cpp:4098-4107 | raises exactly for a column that is not there; otherwise only that column is unbound and the buffers stay in step |
| RowsetCursor.StepOk | nanodbc/nanodbc.cpp:3761-3838 | any move that does not raise, with prior and skip called on a row, keeps the fields in order and answers exactly whether it landed on a row |
| RowsetCursor.NextLands | nanodbc/nanodbc.cpp:3773-3785 | where next fetches, at every rowset size: the row it lands on from before the start, from a rowset and from after the end |
| RowsetCursor.PriorLands | nanodbc/nanodbc.cpp:3814-3823 | where prior fetches: row max(start - size, 0) from a rowset, row max(n - size, 0) from after the end, and nothing in front of row 0 |
| RowsetCursor.SkipLands | nanodbc/nanodbc.cpp:3831-3838 | where skip fetches: row start + k from a rowset that starts at `start`, and the k-th row counted from outside the rows |
| RowsetCursor.MoveLands | nanodbc/nanodbc.cpp:3825-3829 | where move lands for every row number, zero and negative ones included |
| RowsetCursor.TrueMeansRow | nanodbc/nanodbc.cpp:3761-3838 | after every such run a true answer means a fetched row, inside the rowset, whose slot of any width is inside the buffer |
| RowsetCursor.PriorOffRowIff | nanodbc/nanodbc.cpp:3814-3823 | without that guard, prior answers true off the fetched rows exactly when the position is more than one row past the last of them |
| RowsetCursor.SkipTrueIff | nanodbc/nanodbc.cpp:3831-3838 | a skip of any count answers truly exactly when it does not reach back before its own rowset |
| RowsetCursor.NextVisitsEveryRow | nanodbc/nanodbc.cpp:3773-3785 | for every row count and rowset size, call j + 1 of next lands on row j, all later calls answer false, and the first false has cost floor(n / size) + 1 fetches |
| RowsetCursor.WalkOn | nanodbc/nanodbc.cpp:3773-3785 | one next from any row of such a walk: the following row, or the end with the fetch count exact |
| RowsetCursor.StaysFinished | nanodbc/nanodbc.cpp:3773-3785 | however often next is called past the end, it answers false |
| RowsetCursor.PlainIndex | nanodbc/nanodbc.cpp:3761-3838 | at rowset size one each of the six moves is the move of a plain index over before-start, rows and after-end, and answers whether the index is a row |
| RowsetCursor.PlainRun | nanodbc/nanodbc.cpp:3761-3838 | and so is every run of moves, from any state in order |
| RowsetCursor.NextExact | nanodbc/nanodbc.cpp:3773-3785 | next names the following row at every rowset size |
| RowsetCursor.PriorExactIff | nanodbc/nanodbc.cpp:3814-3823 | prior names the row before exactly when it stays inside the rowset, the rowset starts at row 0 or 1, or the size is one |
| RowsetCursor.PriorMisses | nanodbc/nanodbc.cpp:3814-3823 | an input on which it does not |
| RowsetCursor.LastExactIff | nanodbc/nanodbc.cpp:3767-3771 | last names the last row exactly when the rowset size or the row count is one |
| RowsetCursor.LastMisses | nanodbc/nanodbc.cpp:3767-3771 | an input on which it does not |
| RowsetCursor.SkipExactIff | nanodbc/nanodbc.cpp:3831-3838 | skip names the row it should exactly when it stays inside the rowset, starts on its first row, or runs off the end |
| RowsetCursor.SkipMisses | nanodbc/nanodbc.cpp:3831-3838 | an input on which it does not |
| RowsetCursor.FirstAndMoveExact | nanodbc/nanodbc.cpp:3761-3829 | first, and move to a row that is there, name the row they should at every rowset size, and moving forward past the last row finds none |
| RowsetCursor.PriorUndoesNext | nanodbc/nanodbc.cpp:3773-3823 | prior undoes a next that stays inside the rowset, up to the driver's own row |
| RowsetCursor.PriorUndoesNextIff | nanodbc/nanodbc.cpp:3773-3823 | a next that found a row is undone exactly when it stayed inside the rowset or the size is one |
| RowsetCursor.DriverFollowsIff | nanodbc/nanodbc.cpp:3773-3838 | exactly when the driver's own row, which SQLGetData reads, is the cursor's row after a move |
| RowsetCursor.AtEndIsSticky | nanodbc/nanodbc.cpp:4359-4363 | the at-end field is set by a fetch that finds nothing and cleared by no move |
| ResultIterators.ResultIterator.constructor | nanodbc/nanodbc.h:2218-2222 | the iterator is on the row next landed on, or at the end if it failed or raised |
| ResultIterators.ResultIterator.Increment | nanodbc/nanodbc.h:2236-2248 | the same for every advance; an exception ends the iteration like a failure |
| ResultIterators.RangeFor | nanodbc/nanodbc.h:2205-2288 | the loop visits rows 0, 1, 2, ... without a gap, all of them unless a fetch raises; where the f-th fetch is the first to raise, exactly the first f rowsets; and its iterator then equals the end |
| ResultIterators.Begin | nanodbc/nanodbc.h:2274-2277 | the first row with the buffers in step, or the end if there is none to reach |
| ResultIterators.Advance | nanodbc/nanodbc.h:2236-2248 | from a row of a loop to the one after it, in the same buffers or in freshly filled ones, with the driver where it was or told, or to the end behind the last row to be reached |
| ResultIterators.ReadText | nanodbc/nanodbc.cpp:4153-4171 | the get of one turn returns what the loop's specification says of the row |
| ResultIterators.RangeForText | nanodbc/nanodbc.h:2205-2288 | a loop that gets one text column, bound or not and at every rowset size, returns for every row reached, in order, exactly this: where the driver is told of moves, or the text is not read again, the row's own text; otherwise the first such text of a rowset brings its first row's cell, and every further one nothing |
| ResultIterators.OwnTextIff | nanodbc/nanodbc.cpp:3773-3785 | the get on a row returns the row's own text exactly when the driver is told of moves, the text is not read again or the row heads its rowset, or when the first row's cell is brought and happens to give the same |
| ResultIterators.CollectsColumn | nanodbc/nanodbc.h:2205-2288 | so the loop collects the column where the driver is told of moves or every text that is read again heads its rowset |
| ResultIterators.RangeForFittingText | nanodbc/nanodbc.h:2205-2288 | at every rowset size, for a bound column whose narrow texts fit: exactly that column of the result, row by row, with the fallback for nulls, up to the first rowset whose fetch raises |
| ResultIterators.RowsReached | nanodbc/nanodbc.h:2236-2248 | the rows reached are a prefix of the result, and all of it if no fetch from here on raises |
| ResultIterators.ReachedIs | nanodbc/nanodbc.h:2236-2248 | if the f-th fetch is the first that raises, the rows reached are the first f rowsets, or all rows if there are fewer |
| ResultIterators.OwnTextIs | nanodbc/nanodbc.h:2205-2288 | the text a loop calls a row's own is the fallback for a null and otherwise the text of the cell in the table, or as much of it as its slot shows |
| Pieces.NextPiece | nanodbc/nanodbc.cpp:4812-4838 | one turn of a loop: what it appends and what is left make what was left; a truncated turn appends something |
| Pieces.ReadNarrow | nanodbc/nanodbc.cpp:4800-4840 | the loop ends and has joined the whole value, of any length, by 1023 bytes a piece or 1024 of a binary, and a null is recorded in this row's indicator only |
| Pieces.ReadWide | nanodbc/nanodbc.cpp:4859-4900 | the same in units, 511 a piece: of every unit the low byte stood first in the value and the high byte behind it |
| Pieces.ReadBinary | nanodbc/nanodbc.cpp:5068-5113 | the same in bytes, 1024 a piece |
| Pieces.UnitsArePairs | nanodbc/nanodbc.cpp:4872-4900 | units are read out of memory low byte first: unit i is byte 2i and 256 times byte 2i + 1, and no other units are |
| Pieces.TakesRoom | nanodbc/nanodbc.cpp:4826-4833 | a cut piece is taken up to its terminator whether it reports what is left or SQL_NO_TOTAL, and ends between units |
| Pieces.TakesAll | nanodbc/nanodbc.cpp:4826-4833 | the last piece is taken whole, exact multiples of the buffer included |
| Readers.TruncatedIff | nanodbc/nanodbc.cpp:4307-4316 | given a real length it is true exactly when the text did not fit; SQL_NO_TOTAL hides the cut |
| Readers.AskLength | nanodbc/nanodbc.cpp:3897-3919 | asking an unbound binary column for its length decides null exactly, and hands over nothing but a null or an empty value; asking a drained one changes nothing |
| Readers.NullNoted | nanodbc/nanodbc.cpp:3890-3922 | true exactly for a null known beforehand or, of a binary column, one the driver has; and what every get gives is the same before and after |
| Readers.RawNarrow | nanodbc/nanodbc.cpp:4783-4850 | the bytes a get finds: the cursor's own as the buffer shows them, or what the driver has of its own row's cell, which is all of it, a null that is noted, or nothing once handed over |
| Readers.RawWide | nanodbc/nanodbc.cpp:4852-4922 | the same for wide text, unit for byte pair, where the indicator and the buffer bound the length |
| Readers.BufferNarrowIff | nanodbc/nanodbc.cpp:4844-4848 | the buffer gives a narrow text whole exactly when it fits and has no zero, and otherwise, without a zero, the longest prefix that leaves room for a terminator |
| Readers.BufferWideIff | nanodbc/nanodbc.cpp:4904-4920 | the buffer gives a wide text whole exactly when it fits, and otherwise the longest prefix of whole units beside a terminator |
| Readers.EnsureData | nanodbc/nanodbc.cpp:5404-5439 | the same for a fixed-size value, from the buffer or by one call of the driver, which raises where nothing is left |
| Readers.RefImpl | nanodbc/nanodbc.cpp:4775-4922 | the same in the type asked for; bytes of a column that is not binary raise |
| Readers.ReadCell | nanodbc/nanodbc.cpp:4153-4171 | for bound, unbound and unbound binary columns, whatever the driver has handed over before: nothing exactly for a null, and otherwise what is found; the column's slots stay in order |
| Readers.ToNarrow | nanodbc/nanodbc.cpp:4790-4847 | wide text is converted after it is joined, through the codec, and raises exactly when that does |
| Readers.ToWide | nanodbc/nanodbc.cpp:4840-4919 | the same for narrow text asked for as wide |
| CurrentRow.ReadColumn | nanodbc/nanodbc.cpp:4153-4171 | raises off the columns and off the rows; otherwise gives what is owed in every state that moves and reads leave; the cursor does not move, and what reads keep of the buffers is kept |
| CurrentRow.IsNull | nanodbc/nanodbc.cpp:3890-3922 | raises exactly off the columns and off the rows; otherwise true exactly for a null known without a read, which on a first read of a bound or binary column is the null in the table; and every get afterwards is owed what it was owed before |
| CurrentRow.OwnCellIff | nanodbc/nanodbc.cpp:4796-4817 | in every state that moves and reads leave, a get gives what the cursor's own cell gives exactly when it finds that cell: in the buffer, on the driver's row and not yet handed over, or as a null known of it; nothing counts as an empty value |
| CurrentRow.OwnValueIff | nanodbc/nanodbc.cpp:4796-4817 | with the buffers in step and a value that is not empty: exactly when it is in the buffer and not read again, or the driver's row holds the same value and has not handed it over |
| CurrentRow.ReadsAnotherRow | nanodbc/nanodbc.cpp:4796-4817 | an input on which it does not: a cut text on the second row of a rowset is answered with the first row's text |
| CurrentRow.ReadsNothing | nanodbc/nanodbc.cpp:4796-4840 | and one on which a second cut text of a rowset, read for the first time, is answered with no text |
| CurrentRow.FallbackIff | nanodbc/nanodbc.cpp:4153-4171 | a get is owed the fallback exactly for a null that is known or handed over, which is the cursor's own null wherever the get finds the cursor's cell |
| CurrentRow.WholeTextIff | nanodbc/nanodbc.cpp:4796-4920 | a get gives the whole text of the cursor's cell exactly when it is taken from a buffer it fits, or the driver's row holds that text and hands it over, or the text is empty and nothing is left |
| CurrentRow.GetRefText | nanodbc/nanodbc.cpp:4116-4171 | as narrow text, in every state that moves and reads leave: the fallback for a null, raising without one, no text from a drained column, and otherwise the converted value |
| CurrentRow.GetRefWideText | nanodbc/nanodbc.cpp:4116-4171 | the same as wide text |
| CurrentRow.GetRefBytes | nanodbc/nanodbc.cpp:4116-4171 | the same for a byte vector, or for the column's own type, which raises from a drained column |
| CurrentRow.FirstSupply | nanodbc/nanodbc.cpp:4796-4817 | on a first read of the cursor's own row, what is found is the cell of the table at that row: its null, its buffer, or the driver's copy |
| CurrentRow.OwnTextReturned | nanodbc/nanodbc.cpp:4783-4922 | the text owed of a cell, read as narrow or as wide, is the text of the bytes the cell holds, cut only where its slot is too small and it cannot be read again |
| CurrentRow.GetText | nanodbc/nanodbc.cpp:4231-4245 | the first read of a cell as narrow text: the fallback for a null or an exception without one, narrow text as it is, wide text through the codec from the units whose byte pairs the cell holds; all of it, unless it is bound, does not fit and cannot be read again, and then what the slot holds beside a terminator |
| CurrentRow.GetWideText | nanodbc/nanodbc.cpp:4231-4245 | the same as wide text: the units whose byte pairs the cell holds, and narrow text through the codec |
| CurrentRow.GetBytes | nanodbc/nanodbc.cpp:4231-4245 | the first read of a byte vector of a binary column, or of a value of fixed size: exactly the bytes of the cell in the table, or the fallback |
| Transactions.InvStep | nanodbc/nanodbc.cpp:1713-1785 | every step keeps: the count is the number of live uncommitted objects, a positive count means autocommit off, no object means autocommit on and no mark, and autocommit on means nothing pending |
| Transactions.ReachableInv | nanodbc/nanodbc.cpp:1713-1785 | so it holds after every run from a fresh connection |
| Transactions.GuardNeverNeeded | nanodbc/nanodbc.cpp:1595-1600 | the guard against underflow is never what stops the count |
| Transactions.WorkConserved | nanodbc/nanodbc.cpp:1713-1785 | on every run each unit of work is durable, pending or discarded, once |
| Transactions.OpenRunGathers | nanodbc/nanodbc.cpp:1713-1785 | while the count stays above zero, in any interleaving, work only becomes pending and nothing pending moves |
| Transactions.ClosingStepDecides | nanodbc/nanodbc.cpp:1733-1778 | only a commit or the destruction of an uncommitted object takes the count to zero; the one makes all the work durable and the other discards all of it |
| Transactions.MarkDoesNotHoldBackCommit | nanodbc/nanodbc.cpp:1766-1785 | a rollback mark does not prevent a later commit: the run that shows it |
| Transactions.AbandonedInnerIsCommitted | nanodbc/nanodbc.cpp:1733-1778 | nor does an inner object destroyed uncommitted: the run that shows it |
| Transactions.DestroyRollsBackIff | nanodbc/nanodbc.h:565-566 | destroying an uncommitted object discards pending work exactly when it was the only one open |
| Transactions.CommitMakesDurableIff | nanodbc/nanodbc.cpp:1766-1778 | a commit makes pending work durable exactly when it was the only one open, marked or not |
| Transactions.WorkAfterCommit | nanodbc/nanodbc.cpp:1743-1758 | work between the closing commit and the destructor is discarded exactly when a mark was left, and is otherwise committed by switching autocommit on |
| Transactions.CommittedIsInert | nanodbc/nanodbc.cpp:1766-1785 | anywhere in a run, a commit or rollback on a committed object can be left out without any difference |
| Transactions.MarkedIff | nanodbc/nanodbc.cpp:1733-1785 | on every run from a fresh connection the mark is set exactly when a rollback of an uncommitted object, or its destruction while others are open, set it and no destruction that left none open has cleared it since |
| Transactions.Connection.RefTransaction | nanodbc/nanodbc.cpp:1593 | one more |
| Transactions.Connection.UnrefTransaction | nanodbc/nanodbc.cpp:1595-1600 | one less but never below zero, and what is left |
| Transactions.Transaction.constructor | nanodbc/nanodbc.cpp:1713-1731 | one more is open, autocommit goes off with the first, an earlier mark and the pending work stay; the session's Begin step, and the invariant |
| Transactions.Transaction.Commit | nanodbc/nanodbc.cpp:1766-1778 | on a committed object nothing at all changes; otherwise one less is open, and exactly when none is left the pending work becomes durable; the mark and autocommit stay; the session's Commit step, and the invariant |
| Transactions.Transaction.Rollback | nanodbc/nanodbc.cpp:1780-1785 | on a committed object nothing at all changes; otherwise the mark is set and nothing else changes; the session's Rollback step, and the invariant |
| Transactions.Transaction.Destroy | nanodbc/nanodbc.cpp:1733-1764 | an uncommitted object is one less open and leaves the mark; when none is left the pending work is discarded if there is a mark and made durable if not, the mark is cleared and autocommit is on; the session's Destroy step, and the invariant for what is left |
| Transactions.TransactIsAllOrNothing | nanodbc/nanodbc.cpp:5654-5667 | with no transaction open the whole batch is durable on return and the durable state unchanged on an exception, autocommit on either way; inside one nothing becomes durable and an exception leaves the mark |
| Transactions.Transact | nanodbc/nanodbc.cpp:5654-5667 | the function itself does that |
| Batch.Statement.PrepareBind | nanodbc/nanodbc.cpp:2483-2490 | all indicators null, over at least eight of them and at least the batch |
| Batch.Statement.BindStrings | nanodbc/nanodbc.cpp:2811-2841 | the indicators are null exactly where flagged and past the batch, and terminated text elsewhere; through them, stride and terminators the driver reads exactly the texts given; other parameters are untouched |
| Batch.Statement.BindBuffer | nanodbc/nanodbc.cpp:2843-2886 | the same indicators for the pointer form, where the driver reads block i of the caller's buffer up to its zero; a width of zero is measured |
| Batch.Statement.BindBinary | nanodbc/nanodbc.cpp:2592-2644 | the indicators are the lengths, or null exactly where flagged and past the batch; through them and the stride the driver reads exactly the byte vectors given, zeros and all, a batch of empty ones included |
| Batch.PackedAt | nanodbc/nanodbc.cpp:2834-2838 | slot i begins at i times the stride, ends where the next begins, and holds value i and filler |
| Batch.PackValues | nanodbc/nanodbc.cpp:2834-2838 | the copying loop stays in bounds and makes that buffer |
| Batch.MaxLength | nanodbc/nanodbc.cpp:2826-2830 | the longest length: no value is longer and some value is as long |
| Batch.BufferUnits | nanodbc/nanodbc.cpp:2558-2562 | the width where there is one, and otherwise the place of the first zero and one more |
| Batch.PackedTextReadsBack | nanodbc/nanodbc.cpp:2811-2841 | the text at i times the stride up to its zero is text i up to its own |
| Batch.PackedBytesReadBack | nanodbc/nanodbc.cpp:2604-2616 | the first indicator-many bytes at i times the stride are vector i |
| Batch.TextReceived | nanodbc/nanodbc.cpp:2811-2886 | the whole batch read back is the whole batch given |
| Batch.BlocksReceived | nanodbc/nanodbc.cpp:2843-2886 | a buffer of the caller's own is read back block by block |
| Batch.BytesReceived | nanodbc/nanodbc.cpp:2592-2644 | the same for byte vectors |
| Batch.EqualsNarrowIff | nanodbc/nanodbc.cpp:2888-2891 | equal exactly when the texts up to their zeros are, or the left has no zero and is a prefix of the right |
| Batch.EqualsWide | nanodbc/nanodbc.cpp:2893-2904 | raises exactly when a side is malformed; otherwise compares the texts up to their zeros, or asks for a prefix where the left has none, as the narrow form does |
| Batch.SpelledMatchesIff | nanodbc/nanodbc.cpp:2893-2904 | in any prefix-free form that spells only U+0000 with a zero, the comparison is one of code points |
| Batch.NarrowedEquals | nanodbc/nanodbc.cpp:2893-2904 | so comparing narrowed forms decides the comparison of the wide texts |
| Sentry.BindStringsSentry | nanodbc/nanodbc.cpp:2811-2886 | in the vector form element i is null exactly when its text up to its first zero is the sentry's, and the others arrive whole |
| Sentry.BindWideStringsSentry | nanodbc/nanodbc.cpp:2811-2904 | the same for wide strings; raises exactly when a text, or the sentry it is compared with, is malformed |
| Sentry.BindBufferSentry | nanodbc/nanodbc.cpp:2856-2866 | in the pointer form element i is null exactly when its block is a hit |
| Sentry.BindWideBufferSentry | nanodbc/nanodbc.cpp:2856-2904 | the same for wide buffers, raising exactly when a block or the sentry is malformed |
| Sentry.HitIsSentryIff | nanodbc/nanodbc.cpp:2856-2866 | a hit is the sentry itself exactly when the block has a zero or is as long as the sentry |
| Sentry.SentryHitIff | nanodbc/nanodbc.cpp:2856-2866 | a block hits exactly when the sentry's text is its text up to its first zero, or it has no zero and begins the sentry's text |
| Sentry.PrefixOfSentryHits | nanodbc/nanodbc.cpp:2856-2866 | a block without a zero that is a proper prefix of the sentry is sent as null: the input that shows it |
| Sentry.PackedFlags | nanodbc/nanodbc.cpp:2834-2866 | in a packed buffer only the sentry itself hits |
| TimestampText.PaddedReadsBack | nanodbc/nanodbc.cpp:969-982 | for every 64-bit long, the least one included, the padded text reads back as the number |
| TimestampText.PaddedWidth | nanodbc/nanodbc.cpp:969-982 | the text is as wide as asked, or as wide as sign and digits need |
| TimestampText.FractionReadsBack | nanodbc/nanodbc.cpp:1004-1012 | the fraction has exactly `scale` digits, worth the billionths cut down to them, and no point without digits |
| TimestampText.OffsetReadsBack | nanodbc/nanodbc.cpp:1014-1020 | the offset reads back as both parts with one common sign |
| TimestampText.OffsetKeptIff | nanodbc/nanodbc.cpp:1014-1020 | the text keeps the offset exactly when its two parts do not disagree in sign |
| TimestampText.OffsetLost | nanodbc/nanodbc.cpp:1014-1020 | an offset it does not keep: one hour ahead and thirty minutes behind |
| TimestampText.StampReadsBack | nanodbc/nanodbc.cpp:984-1023 | reading the text back gives every field, negative ones included, the truncated fraction and the offset, for every scale |
| TimestampText.Layout | nanodbc/nanodbc.cpp:984-1023 | the layout of every text whose fields fit the format, position by position |
| TimestampText.NumberStands | nanodbc/nanodbc.cpp:969-982 | a number that fills its width and the character behind it, at their positions in the text |
| TimestampText.TimestampOffsetAsString | nanodbc/nanodbc.cpp:984-1023 | for a year of four digits and other fields of two, the separators stand at positions 4, 7, 10, 13 and 16 and between them exactly the digits of the fields; a point and `scale` digits of the fraction from 19 on; and at the end blank, sign, two digits, colon, two digits |
| TimestampText.FractionDivisor | nanodbc/nanodbc.cpp:1007-1009 | the loop's divisor is the power of ten in the table for the scale |
| Attributes.Split | nanodbc/nanodbc.cpp:5600-5614 | gives back exactly the attributes that were joined, and succeeds exactly when every entry has an '=' |
| Attributes.SentOnce | nanodbc/nanodbc.cpp:5600-5614 | a text sends at most one list of attributes |
| Attributes.SendsIff | nanodbc/nanodbc.cpp:5600-5614 | what a text sends, written out: key, '=', value and NUL in their places, entry after entry, and a rest without a NUL |
| Attributes.SentIsKeyed | nanodbc/nanodbc.cpp:5606-5609 | whatever can be sent has an '=' in every entry |

## Left out

- A driver without SQL_GD_BLOCK, SQL_GD_ANY_COLUMN or SQL_GD_ANY_ORDER, which declines some calls of SQLGetData.
- Transactions.Transact: the result object that `transact` returns is not modelled, only the work done.
- ResultIterators.ResultIterator.Increment: is not called on the end iterator, which the source's documentation leaves undefined.
- A result's calls after a fetch that raised: the row count is then the driver's; only the iterator's end is treated.
- `next_result`, which keeps the cursor fields of the result before it.
- `position()` and `at_end()`, which ask the driver for a row number.
- The overflow of `rowset_position_ + rows` for counts near the largest long.
- What `before_move` releases of a blob column with a buffer: no blob column ever gets one.
- Reads that render numbers, dates and timestampoffset structs as text, or parse numbers from text.
- Byte vectors from a bound binary buffer (nanodbc/nanodbc.cpp:5114-5119): auto_bind_columns binds no binary column but the timestampoffset struct, which `CFixed` stands for.
- The column types and lengths that auto_bind_columns derives from the described SQL types: they are given by `Description`.
- A string conversion that the Boost build delegates to Boost.Locale.
- `bind` of values that are neither text nor bytes.
- The sentry of a binary batch (nanodbc/nanodbc.cpp:2618-2625): it is compared with a sentry whose length is not given.
- Runs that disconnect or reconnect in the middle of a transaction, and calls of SQLEndTran or SQLSetConnectAttr that fail.
- Handle allocation, diagnostics and connecting: foreign calls.
- Asynchronous execution: it depends on the driver's timing.
- Table-valued parameters, the catalog, descriptors and the public forwarding classes: thin wrappers.
- The rest of `list_drivers`: only its splitter is modelled.
