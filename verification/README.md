# OCILIB: proofs about the direct-path loader and its neighbours

OCILIB is a C wrapper around the Oracle Call Interface (OCI). These Dafny modules model the parts of it
that keep the most state of their own, and prove what those parts do for every input, every run and every
behaviour of OCI that the stated assumptions allow.

- **Direct-path loader** (`src/dirpath.c`). A batch-loading protocol with four statuses: rows are set cell by
  cell, re-based into a column array, converted into a stream of limited capacity, and pushed to the server;
  errors are recorded with three different index formulas, conversion resumes or skips, loading is retried
  while it advances. `DirPath.Loader` is the object with its counters, error arrays and cell buffers;
  `DirPathSpec` describes each public operation as a relation between what is observable before and after;
  the class is proved to follow the relations, and the theorems are proved from the relations
  (`DirPathTheorems`, `DirPathBatches`, `DirPathDefault`, `DirPathRuns`). `DirPathRooms` says exactly how many
  errors can be recorded, `DirPathAgain` when a row is put into the stream twice, and `DirPathUse` that every program
  using the object is one of the runs of `DirPathRuns`.
  `DirPathDrivers`, `DirPathReports` and `DirPathCorrections` are client programs in the manner of
  `demo/dirpath_complete.c`, proved against the class; `DirPathStart` and `DirPathPrograms` are about programs from the
  creation of the loader on. `DirPathPasses` and `DirPathLoads` add up the passes of a
  conversion and the calls of a load, and `DirPathCells` is the memory of the cells, at 32-bit offsets.
- **LONG fetch** (`src/callback.c`, `src/long.c`): the buffer that grows, in 32-bit arithmetic, while pieces arrive.
- **RETURNING INTO** (`src/callback.c`, `src/resultset.c`, `src/define.c`): where values are put, and where they are read.
- **Change notifications** (`src/callback.c`): what a handler sees of one shared, refilled event object.
- **Connection life cycle** (`src/connection.c`): owned and lent handles, acquired and released stage by stage.
- **Server output** (`src/connection.c`): a batched reader that must behave like a queue.
- **Bind registry** (`src/bind.c`, `src/hash.c`): two growing arrays and one signed, case-blind name map; and the
  column map of `src/define.c` on the same hash table.

## What is assumed of OCI

The contracts of `DirPathOci.Oci` are the assumptions about the direct-path functions; the bodies there show
that they can be met, and choose freely wherever OCI may.

- Whether a row converts, which of its columns is bad, and whether the server accepts it, are fixed but unknown
  functions of the row.
- A conversion puts the rows before the one it stops at into the stream, and names that row. It stops at a row
  that does not convert, at a row that does not fit (never the first row of an empty stream), or at a row with
  a partial column. Converting no rows succeeds.
- A load call moves past rows it accepts and at most one it refuses; the row count it reports is the number
  of rows it accepted; success means that the stream is drained. It may also fail, or end otherwise, without
  refusing a row: an *idle* failure. `Oci.idle` bounds how many of these are still to come; the bound is any
  number. A Load without an idle failure is *steady*, and statements about error numbers are about those.
- Offsets of the stream are measured in rows.

Whether a call of OCI succeeds is an input of the other parts: of the connection life cycle step by step
(`Connection.Step`), of the notifications call by call (`Notify.Subscription.works`), of the server output and the
binds as a whole. Further assumptions are small and stand in the contracts: OCI writes no more than the room it
was offered (`LongFetch.Long.Deliver`), returns only handles that are not in use (`Connection.Oci`), moves
server lines in order (`ServerOutput.Output.Execute`), and asks for rows below the number it announced
(`Returning.Askable`).

## Where the code and its documentation differ

The model follows the code.

- `include/ocilibc/api.h:15111` and `15152` say that a Convert sets the error cursors back; the code does so in Reset
  and Load only. `DirPathDefault.StopReportedIfAllRead` says exactly when this shows.
- `include/ocilibc/api.h:14697` calls the affected rows of a Convert those of the last call; they are all rows
  converted since the last Reset. `DirPathTheorems.AffectedRowsOfCall` says exactly when the two agree, and
  `AffectedRowsOfSecondChunk` is an input for which they do not.
- `include/ocilibc/api.h:6299` and `6375` promise the size of a value; for the values of a RETURNING clause that holds in
  the first row only (`Returning.LengthFoundIff`).
- The rows GetErrorRow reports behind a Load are described as the faulted rows; they are batch rows only under the
  condition of `DirPathBatches.RefusedRowReported`.

## Model

| member | source | states |
|---|---|---|
| DirPathCells.ClampedEntryFits | src/dirpath.c:542-622 | a value clamped to the column's maximum fits its cell if and only if no 32-bit size computation wraps below the maximum (terminator, bytes of a UTF-8 text) and the format of a date, time or interval column is at most one longer than the declared size |
| DirPathCells.DescribedType | src/dirpath.c:542-622 | only a number column with a format parses its text; sizes and kind of every other column |
| DirPathCells.WrappedCell | src/dirpath.c:552-563 | a declared size for which the cell of a text has four bytes |
| DirPathCells.CellsLengthIsProduct | src/dirpath.c:917-917 | a cell starts at the 32-bit remainder of row times cell size |
| DirPathCells.RowsApart | src/dirpath.c:917-917 | when no offset wraps, the cells of two rows of one buffer do not overlap |
| DirPathCells.CellsApartIffFit | src/dirpath.c:917-917 | the cells of a column are disjoint if and only if cell size times last row index is below 2^32 |
| DirPathCells.CellInside | src/dirpath.c:917-917 | every cell is inside the buffer, wrapped or not |
| DirPathCells.CellsCanCollide | src/dirpath.c:917-917 | a row and a cell size whose cell starts inside the cell of the first row |
| DirPathCells.WrappedWrite | src/dirpath.c:917-917 | whenever an offset wraps, there is a row whose first byte is a byte of the first row's value: writing the one changes the other |
| DirPathCells.OneCellWritten | src/dirpath.c:881-953 | when no offset wraps, writing bytes at the start of one cell and setting its length and flag changes that entry and no other; a null always does |
| DirPathCells.ColumnCells.Store | src/dirpath.c:881-953 | the column's entries after the call are the old ones with the one entry replaced; a null leaves the bytes alone; a value needs offsets that do not wrap |
| DirPathCells.Cells.Store | src/dirpath.c:853-958 | one cell of the table of cells changes, no other row or column does, on the same condition |
| DirPathCells.Cells.constructor | src/dirpath.c:831-842 | every column gets its own zeroed buffers, which share nothing |
| DirPath.EntryFor | src/dirpath.c:881-953 | a null becomes an empty null entry; a number becomes the parsed digits, which fit an OCINumber, and fails exactly if it does not parse; anything else becomes the prefix of the value up to the column's maximum |
| DirPath.Loader.constructor | src/dirpath.c:305-439 | a new loader is in DEFAULT mode, not prepared, with every counter zero and no result yet |
| DirPath.Loader.SetConvertMode | src/dirpath.c:1532-1553 | the mode can be set exactly before Prepare, and nothing else changes |
| DirPath.Loader.Prepare | src/dirpath.c:760-847 | allocates blank cells and error arrays for the rows OCI gave, modulo 2^16, exactly once |
| DirPath.Loader.SetEntry | src/dirpath.c:853-958 | succeeds exactly in the prepared state, inside the current rows, for a value that parses; then exactly one cell changes, given that the value fits its cell and the column's offsets do not wrap |
| DirPath.Loader.SetCurrentRows | src/dirpath.c:1283-1304 | accepts 1 to the allocated rows in the prepared state; the cells stay |
| DirPath.Loader.Reset | src/dirpath.c:964-1007 | drops errors, counters and stream, but neither the cells nor the total of loaded rows; fails only before Prepare, with the counters already cleared |
| DirPath.Loader.End | src/dirpath.c:1158-1216 | Finish and Abort leave the prepared state, and only that one |
| DirPath.Loader.GetErrorRow | src/dirpath.c:1617-1635 | the next recorded row, counted from 1, then 0 |
| DirPath.Loader.GetErrorColumn | src/dirpath.c:1593-1611 | the next recorded column, counted from 1, then 0, with a cursor of its own |
| DirPath.Loader.SetArray | src/dirpath.c:39-102 | entry e, column c of the column array is the last value, length and flag set for row `rowFrom + e`, and there are as many entries as current rows behind `rowFrom` |
| DirPath.Loader.ArrayToStream | src/dirpath.c:108-209 | the rows before the one it stopped at join the stream, and a bad row is recorded at its own number with its bad column, inside the error arrays |
| DirPath.Loader.Convert | src/dirpath.c:1013-1093 | whatever OCI does: rows are consumed from the resume row on; the convertible ones join the stream in order; in FORCE mode the others are recorded and skipped while the guard on the number of errors lets it go on, in DEFAULT mode it stops at the first; status, counters and result follow |
| DirPath.Loader.LoadStream | src/dirpath.c:215-299 | one call adds what the server accepted to the totals, and records a failure behind the last error or at the rows loaded so far |
| DirPath.Loader.Load | src/dirpath.c:1099-1152 | ends against every server; the errors, totals, status and result are those of the calls made, and it calls again exactly while a failure moved the stream offset; without idle failures it completes |
| DirPathPasses.NextPass | src/dirpath.c:1068-1088 | a pass started behind the last recorded error adds up with the passes before it: rows, errors and counters are those of one longer prefix of the batch |
| DirPathPasses.LastError | src/dirpath.c:1076-1078 | behind an error in FORCE mode, the last recorded error is the row in front of the next pass, so that the loop advances |
| DirPathPasses.PassReady | src/dirpath.c:190-197 | every error a pass can record has a place in the error arrays |
| DirPathPasses.FinishConvert | src/dirpath.c:1066-1090 | when the passes end, the whole Convert is one step of its relation |
| DirPathRooms.ConvertRecords | src/dirpath.c:1066-1090 | whatever OCI does, a Convert leaves at most so many errors recorded |
| DirPathRooms.ConvertMayRecord | src/dirpath.c:1066-1090 | and OCI can make it record as many |
| DirPathRooms.ConvertRoomExact | src/dirpath.c:190-197 | no Convert can write outside the error arrays if and only if there is a place for every unconvertible row of the batch, up to where the guard stops |
| DirPathRooms.ErrorsOfCalls | src/dirpath.c:284-294 | a Load records one error for each row refused and one for each idle failure |
| DirPathRooms.LoadMayRecord | src/dirpath.c:284-294 | a server can make a Load record the most: every refused row, and an idle failure before, behind and at each accepted row |
| DirPathRooms.LoadRoomExact | src/dirpath.c:284-294 | for every number of possible idle failures, no Load can write outside the error arrays if and only if there is a place for every refused pending row and every idle failure, of which at most the accepted rows plus two can happen |
| DirPathRooms.SteadyRoom | src/dirpath.c:284-294 | without idle failures: if and only if there is a place for each pending row that is refused |
| DirPathRooms.AnyServerRoom | src/dirpath.c:284-294 | with any number of them: if and only if at least two rows fewer are pending than were allocated |
| DirPathRooms.LoadEnds | src/dirpath.c:1119-1149 | a Load makes at most two calls more than rows are pending, whatever the room for errors |
| DirPathRooms.CallRoom | src/dirpath.c:284-294 | every error a load call can record has a place in the error arrays |
| DirPathLoads.FinishLoad | src/dirpath.c:1119-1149 | when the calls end, the whole Load is one step of its relation; without idle failures it completes and is steady |
| DirPathTheorems.ConvertExact | src/dirpath.c:187-204 | without errors recorded before, in FORCE mode or with nothing to stop at: never ERROR; the recorded errors are exactly the unconvertible rows consumed, strictly increasing; converted plus erred rows are the rows consumed, all of them on COMPLETE, at least one on FULL |
| DirPathTheorems.NoErrorStops | src/dirpath.c:1072-1088 | the guard on the number of errors never is what ends such a Convert |
| DirPathTheorems.AffectedRowsOfCall | src/dirpath.c:1034-1090 | the affected rows of a Convert are the rows it put into the stream if and only if nothing had been converted since the last Reset; else they count all |
| DirPathTheorems.AffectedRowsOfSecondChunk | src/dirpath.c:1034-1090 | a second chunk: one row put into the stream, two affected |
| DirPathTheorems.ForceConvertRoom | src/dirpath.c:190-197 | and no error is written outside the error arrays |
| DirPathTheorems.LoadIsFilter | src/dirpath.c:1119-1149 | against any server, a Load that completes hands over everything pending: the table grows by exactly the acceptable pending rows, in order, and both totals by their number |
| DirPathTheorems.LoadIsFilterOfPrefix | src/dirpath.c:240-299 | any Load, complete or not, grows the table by the acceptable rows among those it went through, and the total by as many |
| DirPathTheorems.RefusalsNumbered | src/dirpath.c:284-294 | numbering the first error by the rows loaded so far and each further one by the previous error comes to the position of the refused row among the pending ones |
| DirPathTheorems.LoadErrorPositions | src/dirpath.c:284-294 | error j of a Load is the rows loaded before it plus the stream position of the j-th refused row; accepted and refused rows add up to the pending ones |
| DirPathBatches.ForceBatch | src/dirpath.c:964-1152 | Reset, Convert and Load, both COMPLETE, extend the table by exactly the convertible and acceptable rows, once and in order; the affected rows are the lengths of the two filtered sequences |
| DirPathBatches.RefusedRowReported | src/dirpath.c:284-294 | the number reported for a refused row is its row in the batch if and only if the rows ever loaded before equal the unconvertible rows in front of it |
| DirPathBatches.ReportedIffFirstLoad | src/dirpath.c:984-1001 | with every row convertible, if and only if nothing was loaded before, since Reset keeps the total |
| DirPathBatches.ResumesOnFirstRow | src/dirpath.c:1034-1039 | behind FULL and a Load, or behind any Load in DEFAULT mode, the next Convert starts on row 0 if and only if no row was refused, or the last refusal is numbered 0 |
| DirPathBatches.ResetResumesOnFirstRow | src/dirpath.c:964-1007 | with a Reset in between it always does |
| DirPathBatches.Chunk | src/dirpath.c:1041-1063 | one chunk through a stream that may be full: at least one row consumed, the table grown by the good ones, and the loader ready for the next chunk when the Load recorded nothing |
| DirPathBatches.EmptyLoad | src/dirpath.c:240-299 | a Load that ends with EMPTY has handed over everything, but reports one error too many and leaves a loader in which no Convert and no Finish is possible |
| DirPathBatches.LoadReturns | src/dirpath.c:240-299 | a Load returns COMPLETE, ERROR, EMPTY or PARTIAL exactly by the answer to its last call, and never FULL |
| DirPathBatches.LoadGivesUp | src/dirpath.c:1119-1149 | a Load gives up with ERROR only when a call behind its first failed without moving; every other failure is followed by another call |
| DirPathBatches.PartialLoad | src/dirpath.c:257-265 | a Load that ends with PARTIAL leaves the rest of the stream pending for the next Load, has recorded one error more than rows were refused, and leaves a loader in which no Convert and no Finish is possible |
| DirPathDefault.DefaultConvert | src/dirpath.c:1034-1063 | in DEFAULT mode a Convert goes on exactly behind the rows in the stream, stops at the first bad row, and the count of converted rows is the row to resume from |
| DirPathDefault.CorrectionRun | src/dirpath.c:1034-1063 | over any run of Converts and corrections: at most one round a row, each behind the one before, and COMPLETE leaves every row as corrected in the stream, once and in order |
| DirPathDefault.CorrectionRoom | src/dirpath.c:190-197 | correcting every reported row never overflows the error arrays |
| DirPathDefault.UncorrectedRowRepeats | src/dirpath.c:1034-1039 | a bad row left alone is recorded again by every Convert, and nothing is added to the stream |
| DirPathDefault.StopReportedIfAllRead | src/dirpath.c:1617-1635 | behind a stop, GetErrorRow reports the new bad row if and only if all earlier errors had been read |
| DirPathRuns.StepInv | src/dirpath.c:760-1304 | every operation, in any state and order, keeps the invariant, unless a Convert or Load wrote outside the error arrays |
| DirPathRuns.TableOfARun | src/dirpath.c:240-299 | over every run, misuse included: the table is a subsequence of the batches given to the Converts, one behind the other, all of it convertible and acceptable, and the total of loaded rows is its size modulo 2^32, whatever was reset; a batch given twice counts twice |
| DirPathAgain.StreamOfConverts | src/dirpath.c:1034-1063 | over any number of Converts into one stream, with cells set in between: it holds as many rows as were consumed and convertible, and as many more as Converts put into it again; no others |
| DirPathAgain.RowsOnceIff | src/dirpath.c:1034-1063 | it holds each consumed convertible row once and in order if and only if no Convert started in front of consumed ones that it consumed again |
| DirPathAgain.StepTouches | src/dirpath.c:853-958 | what may come between the Converts: any calls that set entries of rows not consumed yet, or ask for errors |
| DirPathAgain.NextStart | src/dirpath.c:1034-1039 | where the next Convert starts: at the first row in FORCE mode, at the bad row or where it started before in DEFAULT mode |
| DirPathAgain.DefaultAgain | src/dirpath.c:1034-1039 | in DEFAULT mode rows are put again exactly behind a Convert that ended on a partial column and had consumed rows |
| DirPathAgain.ForceAgain | src/dirpath.c:1034-1039 | in FORCE mode all convertible rows consumed before that the next Convert reaches are; without earlier errors that takes a partial column |
| DirPathAgain.RowTwice | src/dirpath.c:1034-1039 | two good rows, the second with a partial column: PARTIAL, then COMPLETE, and the first row is in the stream twice |
| DirPathRuns.TerminatedForever | src/dirpath.c:1158-1216 | once finished or aborted, nothing reaches the table, the cells or the totals again |
| DirPathRuns.StatusStep | src/dirpath.c:132-285 | only a Convert leads to the converted state, only a Load that completes out of it, only a Load in it changes the table, and no cell can be set in it |
| DirPathRuns.LoadedWasConverted | src/dirpath.c:132-285 | in front of every change of the table there is a Convert, and no cell changed between the two |
| DirPathRuns.CursorsIndependent | src/dirpath.c:1593-1635 | however the two error functions are interleaved, each returns its own numbers of the recorded errors in order, then 0 forever |
| DirPathStart.ModeOfRun | src/dirpath.c:1532-1553 | over every run, the mode is the one asked for last before the first Prepare, and DEFAULT when none was |
| DirPathStart.DefaultUnlessAsked | src/dirpath.c:339-339 | in a run that never asks for a mode, every state is in DEFAULT mode |
| DirPathStart.FirstConvert | src/dirpath.c:1013-1093 | the first Convert behind creation, Prepare and cell settings stops at the first bad row with ERROR, records it and nothing else, and has put and counted exactly the rows before it, unless the stream is full or a partial column comes before |
| DirPathUse.Begin | src/dirpath.c:305-439 | a new loader is the start of a run |
| DirPathUse.Perform | src/dirpath.c:760-1304 | every call of the object that cannot write outside a cell or the error arrays is a step of a run, with the operation and the arguments of that call |
| DirPathUse.Use | src/dirpath.c:760-1304 | one more call by any program extends its run by the operation asked for, and the statement about the table holds of the object |
| DirPathDrivers.FillRow | demo/dirpath_complete.c:189-196 | setting the entries of one row replaces that row and nothing else |
| DirPathDrivers.ErredRows | demo/dirpath_complete.c:228-246 | asking until 0 yields exactly the recorded rows |
| DirPathReports.RefusedAreMisses | src/dirpath.c:284-294 | the batch rows at the refused positions of the stream are exactly the rows converted and then refused |
| DirPathReports.PositionRecovered | src/dirpath.c:284-294 | the position of a refused row is recovered from the number reported and the total loaded before, whatever wraps |
| DirPathReports.KeptRows | demo/dirpath_complete.c:228-246 | the rows that were converted are those not reported |
| DirPathReports.LoadReporting | src/dirpath.c:1099-1152 | asking for as many rows as were converted but not loaded yields the positions of all refused rows |
| DirPathDrivers.LoadAll | demo/dirpath_complete.c:182-310 | in FORCE mode, with a Reset for every chunk: data of any length, through a stream of any capacity, by a loader with any history, extends the table by exactly its good rows; the two lists returned are exactly the rows that do not convert, and exactly those that convert but are refused |
| DirPathDrivers.LoadCounting | demo/dirpath_complete.c:251-285 | without rejections and without a Reset between chunks: ends, loads every row once and in order, and the last affected count is the full row count |
| DirPathCorrections.CorrectAll | demo/dirpath_complete.c:210-226 | in DEFAULT mode, replacing every reported row ends, never with ERROR; the stream holds the first rows, or their replacements where they were bad, once and in order: all on COMPLETE, some on FULL, those in front of a row with a partial column on PARTIAL |
| DirPathPrograms.ForceProgram | demo/dirpath_complete.c:110-310 | a whole program in FORCE mode, from the creation of the loader: exactly the good rows of any data reach the table, and the program knows the two kinds of bad rows |
| DirPathPrograms.DefaultProgram | demo/dirpath_complete.c:110-310 | a whole program that asks for no mode: every row, or its replacement if it was bad, reaches the table in order, but for those the server refuses |
| DirPathPrograms.PartialRow | src/dirpath.c:881-953 | a row is partial if and only if a value of it was given as not whole |
| LongFetch.OfferFits | src/callback.c:729-765 | the room offered stays, with its terminator, within the piece size if and only if the unsigned difference does not wrap |
| LongFetch.TerminatorIsCharacter | src/callback.c:729-731 | the terminator of a text takes one character of the larger of the two character types |
| LongFetch.OfferIsLargest | src/callback.c:765-765 | the offer is the largest that fits the piece size with the terminator, when a character may grow |
| LongFetch.AnsiOffer | src/callback.c:765-765 | in the ANSI build: the piece size less one for a text, the piece size for bytes |
| LongFetch.OfferProgresses | src/callback.c:765-765 | a piece can hold a byte if and only if the piece size has room for one more than the terminator |
| LongFetch.AnsiHasRoom | src/callback.c:729-765 | which it never does in the ANSI build |
| LongFetch.GrownHolds | src/callback.c:742-748 | the grown maximum is above the need if and only if the 32-bit product does not wrap; then it has at least doubled and is at most twice the need |
| LongFetch.SmallNeedNeverWraps | src/callback.c:742-748 | it does not wrap while twice the need is below 2^32 |
| LongFetch.GrowthCanWrap | src/callback.c:744-744 | a need for which it does wrap, to less than the buffer already had |
| LongFetch.GrowthBound | src/callback.c:734-748 | over any run of callbacks with needs below 2^31: the maximum is above the last need, at most twice the highest, and has doubled with each reallocation |
| LongFetch.GrowthCounted | src/callback.c:742-748 | what is counted as a growth is every change of the maximum, and nothing else |
| LongFetch.FewReallocations | src/callback.c:734-748 | the same for the object: logarithmically many reallocations |
| LongFetch.Long.Realloc | src/memory.c:109-160 | a block never shrinks, keeps its bytes and is zeroed behind them |
| LongFetch.Long.CountPiece | src/callback.c:705-727 | the delivered piece is counted, and the first piece starts over |
| LongFetch.Long.Callback | src/callback.c:670-774 | without wrap-around, the offered room and the terminator are inside the buffer however the piece size changes, and the buffer starts with all pieces delivered so far |
| LongFetch.Long.Finalize | src/long.c:369-405 | the value is all pieces together, up to its last whole character, with a terminator inside the buffer |
| LongFetch.Fetch | src/callback.c:670-774 | whatever pieces OCI cuts a value into, a new or used object ends with the value, whole unless half a character is at its end |
| LongFetch.CutsDeliverable | src/callback.c:729-765 | every value can be cut into pieces that fit the offers of any piece size with room for a byte |
| LongFetch.FetchWhole | src/callback.c:670-774 | so every value, small enough not to wrap, arrives |
| Returning.Statement.InBind | src/callback.c:45-104 | all indicators are null, and the first iteration gives the bind the next position |
| Returning.Statement.CreateResultset | src/resultset.c:233-300 | every column gets the description of the bind at its position, in memory and descriptors shared with nothing |
| Returning.Statement.OutBind | src/callback.c:110-215 | an iteration gets one result set, at the first call for its row 0, and keeps it; a later row before that fails; otherwise the place of the row in the bind's column is given |
| Returning.GivenInside | src/callback.c:188-209 | what is given for row `i` is entry `i` of the cells, of the 4-byte lengths behind them and of the 2-byte indicators behind those |
| Returning.PlacedOnlyOnce | src/callback.c:89-92 | the positions are columns of the result set, and distinct, if and only if the 16-bit counter was at 0, which executing again without preparing does not restore |
| Offsets.CellsApartExactly | src/callback.c:188-208 | the cells of a column are disjoint if and only if no 32-bit offset wraps |
| Returning.RowSound | src/callback.c:188-209 | value, length and indicator of one row do not overlap |
| Returning.RowsApart | src/callback.c:188-209 | no value, length or indicator of a row overlaps one of another row of the column |
| Returning.ColumnsApart | src/callback.c:188-209 | nor one of a row of another column or iteration |
| Returning.ReadsWhatWasGiven | src/define.c:124-214 | the data function finds row index + 1 where the callback put row index, unless the offset of a pointer wraps; the indicator function does, exactly for types that are not named types |
| Returning.LengthFoundIff | src/resultset.c:2589-2589 | the functions that return a length find that of a returned value if and only if it is in the first row: they take the 4-byte lengths for 2-byte ones |
| Returning.LengthOfOtherRow | src/resultset.c:2589-2589 | for every other row they look into the length of the row in the middle before it |
| Returning.AllFilled | src/resultset.c:237-300 | with as many binds as columns, no column stays undescribed |
| Returning.GivePlaces | src/callback.c:110-215 | for any order of calls: a call fails exactly when nobody asked for row 0 of its iteration yet |
| Returning.Execute | src/callback.c:45-215 | a whole first execution: positions follow the clause, nothing given for one (bind, iteration, row) overlaps anything else given, of any kind, and the functions that read values and indicators look where OCI wrote |
| Returning.RegisterAndExecute | src/callback.c:45-215 | the same for a program that registers any binds, prepares and executes, with every requirement said in full |
| Notify.Event.Reset | src/event.c:29-63 | nothing of an earlier notification can be seen |
| Notify.EventsOfTable | src/callback.c:361-479 | event j of table i stands behind the events of the tables before it and is about that table and that row only |
| Notify.EveryTableReported | src/callback.c:470-473 | every table leads to at least one event, and to exactly one when rows are not asked for |
| Notify.ExpectedDelivers | src/callback.c:300-345 | which kinds reach the handler: startup and shutdown once for subscriptions to databases, object changes for those to objects, deregistration always, any other kind never |
| Notify.ScriptShows | src/callback.c:258-498 | when no call of OCI fails, what the callback does shows the flattened structure of what was asked for; how many calls that takes |
| Notify.TableShown | src/callback.c:387-474 | when a call for a table fails behind `m` that succeeded, exactly the rows whose three calls succeeded were reported |
| Notify.FailureShows | src/callback.c:258-498 | whichever call of a notification fails, the handler saw all events of the tables before, and of that table exactly those rows |
| Notify.PrefixSeen | src/callback.c:258-498 | which is always a prefix of what is expected |
| Notify.Subscription.NotifyTable | src/callback.c:387-474 | one event for each row, in order, or one for the table with an empty row id, up to the first call of OCI that fails |
| Notify.Subscription.NotifyChanges | src/callback.c:258-498 | the handler sees exactly what comes before the first call of OCI that fails; when none does, the whole flattened structure, of the kinds the subscription asked for |
| Connection.Con.Attach | src/connection.c:265-326 | succeeds exactly when no step is refused; a failed attach leaves at most the server handle, to be freed later |
| Connection.Con.LogonRegular | src/connection.c:446-656 | succeeds exactly when no step is refused; a failed logon frees the session and context handles, but does not end a session already begun |
| Connection.Con.LogonSessionPool | src/connection.c:662-746 | what a session pool lends is never owned; a later failure gives nothing back |
| Connection.Con.LogOff | src/connection.c:942-1010 | only a logged connection logs off; it counts as attached even when its session could not be ended |
| Connection.Con.Detach | src/connection.c:332-371 | a server that cannot be detached keeps its handle and its stage |
| Connection.Con.Deallocate | src/connection.c:223-259 | frees the error handle and an owned server handle, and empties all fields, in the allocated stage only |
| Connection.Con.Dispose | src/connection.c:1016-1085 | from every stage: all owned handles are freed, each once, and no lent one, if and only if the session can be ended and the server detached; else exactly those pairs stay |
| Connection.Create | src/connection.c:1091-1124 | a connection with its handles if and only if no step is refused; at any failure point every handle allocated is freed again, unless the server stays attached, which keeps exactly two; a session begun, or taken from a pool, by a logon that fails stays |
| Connection.ConnectsIff | src/connection.c:1091-1124 | which steps each kind of connection needs, and no other: only an XA connection needs the environment of the transaction manager |
| Connection.CreateAndDispose | src/connection.c:1016-1124 | creation and disposal leave a handle, an attached server, a begun session or a pooled context behind if and only if the refused steps say so (`Leaks`) |
| ServerOutput.LineSize | src/connection.c:1912-1919 | the line size never exceeds what the server version supports |
| ServerOutput.LineInside | src/connection.c:2052-2052 | a line is looked for where it is, inside the buffer, if and only if its offset does not wrap |
| ServerOutput.NoOffsetWraps | src/connection.c:2052-2052 | which it does not for the first 32767 lines of any size |
| ServerOutput.LinesApart | src/connection.c:2052-2052 | the lines of the buffer are looked for in different places if and only if the offset of the last one does not wrap |
| ServerOutput.Output.Get | src/connection.c:2023-2060 | takes the first line off the queue of buffered and pending lines, and returns it if no line offset of the buffer wraps; nothing if and only if the queue is empty or the buffer has no lines; after a failure old lines show again if and only if the reader was inside the buffer |
| ServerOutput.Output.Drain | src/connection.c:2023-2060 | reading to the end takes all lines, and returns them in the order they were put whenever no line offset wraps |
| HashTable.CaseCompare | src/stringutils.c:1238-1266 | 0 exactly for names that differ in case only |
| HashTable.SameName | src/stringutils.c:1238-1266 | two names are the same when they have the same letters, in whatever case |
| HashTable.HashOfThree | src/hash.c:38-57 | the hash is the polynomial of the upper-case letters at 31 |
| HashTable.HashIgnoresCase | src/hash.c:38-57 | names that differ in case only have the same hash |
| HashTable.Table.ComputeHash | src/hash.c:38-57 | the wrapped hash of the name, reduced to a bucket |
| HashTable.Table.Lookup | src/hash.c:526-594 | finds a name, in any case, exactly when it was added, with all its values |
| HashTable.Table.AddInt | src/hash.c:63-132 | the value goes behind those the name has, and no other name changes |
| ColumnIndex.Resultset.GetIndex | src/define.c:64-118 | the first column with the name in any case, or an error exactly when there is none |
| BindRegistry.MakeRoom | src/bind.c:512-553 | room for one more bind, within the maximum, keeping the binds there are |
| BindRegistry.Statement.CheckAvailability | src/bind.c:501-559 | fails exactly at the maximum number of binds; a reused bind needs no room and never grows an array |
| BindRegistry.Statement.AddToStatement | src/bind.c:677-717 | the arrays and the map stay inverse to each other |
| BindRegistry.Statement.GetIndex | src/bind.c:1006-1053 | the index of the bind a name stands for, whatever its sign |
| BindRegistry.Statement.Create | src/bind.c:723-921 | succeeds exactly when the position is one, a known name may be reused with its type, or there is room for a new bind, and OCI binds; a new bind joins its array and the map; a known name is reused, with the new size, by the bind with that name if and only if the first index of the name is positive; a failure changes no registration, and returns the old bind when a rebind failed |
| BindRegistry.ReusedName | src/bind.c:769-799 | the user bind at the index of a name has the name if and only if the first index of the name is positive, and then it exists |
| BindRegistry.ReuseReadsBehind | src/bind.c:783-783 | a registry in which the index of a name is behind all user binds |
| BindRegistry.UserFound | src/bind.c:769-799 | in every run, a user bind is found under its own index, and no two share a name |
| BindRegistry.IndexMeaning | src/bind.c:1006-1053 | the index of a name is -1 if and only if no bind has it; else its first signed index without the sign |
| BindRegistry.RegisterFound | src/bind.c:703-711 | a register bind is what its name stands for if and only if no bind had the name before |
| BindRegistry.ExactInverse | src/bind.c:677-717 | with distinct names the map sends the i-th user bind to i, the j-th register bind to -j, and nothing else |

## Left out

- Real OCI calls, attributes, character sets and symbol loading: foreign code; the parts used are the assumptions above.
- Allocation failures: assumed not to happen, except for handles in the connection life cycle.
- DirPath.Loader: cells are copied into the column array where OCI is handed pointers to them; the counters are one record value.
- DirPath.Loader.Prepare: the attribute calls that describe the table to OCI may fail in the source; here they do not.
- DirPath.Loader.SetEntry: the ANSI build only; wide-character values are converted and sized differently in the source. A value must fit its cell and the offsets of its column must not wrap, or the source writes into other cells (`ClampedEntryFits`, `CellsApartIffFit` and `WrappedWrite` say when).
- DirPathCells.ColumnCells.Store: what becomes of the other cells when an offset wraps, beyond `WrappedWrite`.
- DirPath.Loader.Convert: requires a place in the error arrays for every error it may record; the source writes without a check. `ConvertRoomExact` shows the requirement to be exact, `ForceConvertRoom` and `CorrectionRoom` name callers that meet it.
- DirPath.Loader.Load: requires room in the same way, by `LoadRoomExact` exactly as much as the rows and the idle failures to come can take. That a Load ends is stated without room by `LoadEnds`.
- DirPathDrivers.LoadCounting: the program makes the remaining rows the current rows before it converts again; `demo/dirpath_complete.c` does not, and its loop ends on the count instead.
- Direct-path settings (date format, parallel, logging, cache and buffer size), Save, FlushRow, GetRowCount, GetMaxRows: no state that the loader reads.
- LongFetch.Long.Callback: requires a maximum other than 0, since the source divides by it; statements are conditional on needs below 2^31 bytes, above which the product can wrap.
- LongFetch.Long.Finalize: called once for a value; the widening of a text to wide characters in place is left out.
- XMLTYPE columns fetched piecewise: they hold a LONG and behave like one.
- Returning.Execute: values are places, not bytes; row ids kept as descriptors and LONG columns are not registered for RETURNING.
- Returning.Statement.OutBind: requires positions inside the result set, without which the source writes outside it; `PlacedOnlyOnce` says when they are.
- Returning.Statement.CreateResultset: requires the same positions.
- Failover, high-availability and message-queue callbacks: they pass a code on.
- Notify.Subscription.NotifyChanges: the handler does not unregister the subscription from inside.
- Connection.Con: the lists, strings, subscriptions and server-output resources that go with a connection, and versions of OCI before 9.2.
- ServerOutput.Output: lines are whole strings, and what is read at the offset of no line is any text; enabling twice without disabling is left out, and so is the server's own discarding of lines that a later write makes unreachable.
- BindRegistry.Statement.Create: buffers, array sizes, LONG and character-set settings of a bind; requires that the index of a reused name is that of a user bind, since the source reads the array of user binds there without a check.
- HashTable.Table: a name has no terminator inside, characters are upper-cased as in the C locale, and only integer values are stored.
- Freeing of internally allocated bind buffers, `src/column.c`, `src/element.c`, `src/date.c`, queues, arrays and collections: type switches and thin wrappers.
