# Verified model of the SSB data generator, the attribute cache and the stack-trace tree

The project models, in Dafny, the parts of this repository whose correctness is not visible from any
single function, and proves what they are for. `dafny verify dfyconfig.toml` checks all of it.

**The data generator `dbgen`.**
`Modular`, `PowerCertificates`, `Period` and `Rnd` hold the "Minimal Standard" generator and its full
period. `SpeedSeed` holds the two ways to jump a stream ahead, `Streams` drawing and row padding,
`Alignment` whole rows and runs of rows, `Skipping` the `sd_*` routines, `SeedTable` the seeds of `rnd.h`
and `Parallel` the split of a table among children. `ParallelState` compares the seeds a child starts with to those of a
serial run. `Comments` generates random text, and `TpchRows` and `SsbmRows` hold the draws of the rows of
the two builds. `ParallelOutput` says what each child writes, and `ParallelRuns` exactly when a run with
several processes writes what one with a single process writes. `Bcd` is fourteen-digit packed decimal
arithmetic, `Sparse` the order keys, `Segments` and `DeleteRanges` the files of an update set, `Calendar`
the date arithmetic and `Distributions` weighted lists, shuffles and random text.

**The attribute cache of `ProxyClient.java`** is `SnapshotCache`: the handler as a class, and the same
steps as events of a system with several callers, flushes and a server that changes behind it.

**The stack-trace tree of `visualizeYarnLocalTop.py`** is `TracePaths` (on values), `TraceTree` (the
mutable tree on the heap) and `TraceReport` (percentages and the pruned graph).

The C globals and the Python and Java objects are classes or arrays that methods update in place; each
such method is tied to a function of the old state, and the theorems are about those functions and about
all runs of them.

## Where the code differs from its documentation or intent

The model follows the code. In each case the exact condition is proved.

- The SSBM rows of parts, suppliers and customers draw from streams 97 and 98, which are stream 0
  uncounted; suppliers also draw from stream 28 of the customers, and lineorders from ORDER streams that
  `sd_line` does not skip. So several children never print these four tables from the seeds of the serial
  run, unless their shares are empty or multiples of 2^31 - 2 rows (`ParallelRuns.SsbmEqualsSerial`); a
  printed digit that differs is in `ParallelRuns.CityDigitDiffers`. The TPC-H tables are printed from the
  serial seeds, but for jumps that are too long (`ParallelRuns.TpchEqualsSerial`).
- A scale of more than 1000 per child is accepted with a note, and then every child aborts in `set_state`;
  a serial run of the same scale works (`ParallelRuns.ParallelEqualsSerial`, `ParallelRuns.OverflowAborts`).
- In the SSBM build, children write parts and dates in proportion to the scale. A serial run writes parts
  in proportion to the logarithm of the scale, and equally many dates at every scale
  (`ParallelRuns.RowCountsAgree`).
- The 32-bit form of `NthElement` (`SUPPORT_64BITS` undefined, as for `MACHINE=MAC`) sees 31 bits of a
  jump length. Where longs have 64 bits, large shares of a table so start at wrong seeds, for parts from
  994206 rows per child on (`ParallelState.TpchLag`, `ParallelRuns.MillionRowsAreTooMany`). Where longs have
  32 bits, the length has wrapped before, mostly to a rewind (`SpeedSeed.WrappedCount`). The model of
  `Skipping` and of all that builds on it is the first of the two.
- The 64-bit `NthElement` ignores negative counts, so a row that overdraws is not rewound
  (`Alignment.RowIsAligned`).
- With 32-bit longs, a range of 2^31 numbers or more wraps in `UnifInt` (`Streams.WideRangeWraps`); `a_rnd`
  asks for one (`Streams.CharacterDrawWraps`). With wider longs, the first number of such a range is never
  drawn (`Streams.EveryNumberIsDrawn`).
- `read_dist` does not check the length of a list that an END line closes, as all in `dists.dss` are
  (`Distributions.LoadedListIsUsable`).
- `hd_sparse` takes the low bits of the last decimal digit, not of the index (`Sparse.HdSparseAgrees`).
- The SQL deletes never name the last key of a set, and with `-O r` none of its last range
  (`DeleteRanges.SqlMissesLastKey`, `DeleteRanges.SqlMissesLastRange`).
- The comment of the attribute cache says a cached attribute is answered from the cache until the flush;
  a miss on another attribute of the same MBean fetches all of them again
  (`SnapshotCache.CachedUntilFlush`).

## Model

The routines of `build.c` are cited where they are declared or where their constants are defined:
`ez_sparse` (lines 156-170) and `hd_sparse` (173-203) in `dsstypes.h`, and the draws of the rows in
`shared.h`, `dss.h` and `rnd.h`. These are, for SSBM, `mk_cust` 99-113, `mk_order` 205-287, `mk_part`
399-430, `mk_supp` 467-485 and `gen_city` 597-616, and for TPC-H `mk_cust` 115-132, `mk_order` 288-396,
`mk_part` 431-463 and `mk_supp` 486-526.

| member | source | states |
|---|---|---|
| Rnd.NextRand | modules/benchmetrics/files/ssb/ssb-gen/ssb-dbgen/rnd.c:91-152 | Schrage's method returns 16807 * seed mod 2^31 - 1, a value in 1..2^31-2 |
| Rnd.SchrageHasNoOverflow | modules/benchmetrics/files/ssb/ssb-gen/ssb-dbgen/rnd.c:112-150 | every product and difference formed on the way stays below 2^31 in absolute value |
| Rnd.NextRandIsBijective | modules/benchmetrics/files/ssb/ssb-gen/ssb-dbgen/rnd.c:91-152 | the step permutes 1..2^31-2: multiplying by 1407677000 undoes it, on both sides |
| Rnd.FullPeriod | modules/benchmetrics/files/ssb/ssb-gen/ssb-dbgen/rnd.c:103-110 | two iterates of any start agree if and only if their step counts differ by a multiple of 2^31 - 2, so nothing repeats earlier |
| Rnd.VisitsEveryValue | modules/benchmetrics/files/ssb/ssb-gen/ssb-dbgen/rnd.c:103-110 | from any start every value of 1..2^31-2 is reached within one period |
| Period.OrderIsN | modules/benchmetrics/files/ssb/ssb-gen/ssb-dbgen/rnd.c:106-110 | 16807 has multiplicative order exactly 2^31 - 2, from computed power certificates, with no assumption that the modulus is prime |
| Period.EveryResidueIsAPower | modules/benchmetrics/files/ssb/ssb-gen/ssb-dbgen/rnd.c:106-110 | every residue in 1..2^31-2 is a power of 16807 (the multiplier is a primitive element) |
| Rnd.ShiftIsIteration | modules/benchmetrics/files/ssb/ssb-gen/ssb-dbgen/rnd.c:91-152 | the closed form of moving a stream is that many calls of NextRand, and moving back undoes them |
| Rnd.ShiftsAgree | modules/benchmetrics/files/ssb/ssb-gen/ssb-dbgen/rnd.c:91-152 | two moves of a stream end at the same value if and only if they differ by a multiple of the period |
| SpeedSeed.NthElement64 | modules/benchmetrics/files/ssb/ssb-gen/ssb-dbgen/speed_seed.c:46-71 | right-to-left squaring leaves the stream at its value moved n steps; a count that is not positive changes nothing; other streams are untouched |
| SpeedSeed.HalveSteps | modules/benchmetrics/files/ssb/ssb-gen/ssb-dbgen/speed_seed.c:61-67 | one turn of the loop keeps multiplier^steps * value |
| SpeedSeed.ProductFits | modules/benchmetrics/files/ssb/ssb-gen/ssb-dbgen/speed_seed.c:61-67 | the products it forms fit in a signed 64-bit integer |
| SpeedSeed.RndModMultIsExact | modules/benchmetrics/files/ssb/ssb-gen/ssb-dbgen/speed_seed.c:183-216 | the double-precision product equals a * b mod 2^31 - 1 and lies in 1..2^31-2, although every unsigned operation is reduced to 32 bits |
| SpeedSeed.HalfProductsFit | modules/benchmetrics/files/ssb/ssb-gen/ssb-dbgen/speed_seed.c:199-206 | both double products stay below 2^53, so the doubles are exact |
| SpeedSeed.RndSeed | modules/benchmetrics/files/ssb/ssb-gen/ssb-dbgen/speed_seed.c:104-138 | left-to-right squaring over a moving mask returns 16807 to the visible bits of the order, and complains exactly at or above the modulus |
| SpeedSeed.FirstLoopEnds | modules/benchmetrics/files/ssb/ssb-gen/ssb-dbgen/speed_seed.c:115-120 | the first loop of RND_seed ends if and only if the order is above minus the modulus |
| SpeedSeed.NegativeOrderInverts | modules/benchmetrics/files/ssb/ssb-gen/ssb-dbgen/speed_seed.c:115 | for a negative order that power is the modular inverse of 16807 to the positive order |
| SpeedSeed.SquareAndMultiply | modules/benchmetrics/files/ssb/ssb-gen/ssb-dbgen/speed_seed.c:124-132 | one turn of the loop appends one bit to the exponent reached |
| SpeedSeed.MaskSeesLowBits | modules/benchmetrics/files/ssb/ssb-gen/ssb-dbgen/speed_seed.c:107-134 | a mask starting at 2^30 sees the order modulo 2^31 only |
| SpeedSeed.NthElement32 | modules/benchmetrics/files/ssb/ssb-gen/ssb-dbgen/speed_seed.c:148-173 | the 32-bit form moves the stream forwards or, for a negative shift, backwards, and touches no other stream |
| SpeedSeed.BothFormsIterate | modules/benchmetrics/files/ssb/ssb-gen/ssb-dbgen/speed_seed.c:46-173 | for 0 <= N < 2^31 - 1 both forms equal N calls of NextRand, hence each other |
| SpeedSeed.Form64Iterates | modules/benchmetrics/files/ssb/ssb-gen/ssb-dbgen/speed_seed.c:46-71 | the 64-bit form stays right for every count from 0 on |
| SpeedSeed.Form32Rewinds | modules/benchmetrics/files/ssb/ssb-gen/ssb-dbgen/speed_seed.c:112-115 | within the guard, NthElement(-k) undoes NthElement(k) in the 32-bit form |
| SpeedSeed.Form32Overflow | modules/benchmetrics/files/ssb/ssb-gen/ssb-dbgen/speed_seed.c:165-170 | with 64-bit longs, a count past the guard gives the iteration if and only if the bits it drops amount to full periods |
| SpeedSeed.WrappedCount | modules/benchmetrics/files/ssb/ssb-gen/ssb-dbgen/speed_seed.c:8-12 | with 32-bit longs, a count of 2^31 or more has wrapped, mostly to a negative one; where the wrapped one can be served, the result is the iteration if and only if the lost part amounts to full periods |
| SpeedSeed.MillionCommentsWrap | modules/benchmetrics/files/ssb/ssb-gen/ssb-dbgen/speed_seed.c:293 | with 32-bit longs, the comments of a million PARTSUPP rows rewind their stream |
| SpeedSeed.FormsAgree | modules/benchmetrics/files/ssb/ssb-gen/ssb-dbgen/speed_seed.c:46-173 | for a negative count the two forms agree if and only if the rewind is a full period |
| Streams.UnifInt | modules/benchmetrics/files/ssb/ssb-gen/ssb-dbgen/rnd.c:163-190 | one step of the chosen stream, stream 0 standing in for one outside the table; the number returned is the one whose share of the bounds the new seed falls in, by an inequality that fixes it; bounds in the wrong order are swapped |
| Streams.EveryNumberIsDrawn | modules/benchmetrics/files/ssb/ssb-gen/ssb-dbgen/rnd.c:186-189 | each number of a range is drawn from some seed if and only if the range has at most 2^31 - 2 numbers; of a wider one the first never is |
| Streams.DrawnIsScaled | modules/benchmetrics/files/ssb/ssb-gen/ssb-dbgen/rnd.c:163-190 | a draw has exactly one result, and that is the scaled seed |
| Streams.NarrowRangeFits | modules/benchmetrics/files/ssb/ssb-gen/ssb-dbgen/rnd.c:186-189 | with 32-bit longs a range of fewer than 2^31 numbers gives the same result |
| Streams.WideRangeWraps | modules/benchmetrics/files/ssb/ssb-gen/ssb-dbgen/rnd.c:186-189 | with 32-bit longs a wider range stays in its bounds if and only if the seed is small enough, by an exact bound |
| Streams.CharacterDrawWraps | modules/benchmetrics/files/ssb/ssb-gen/ssb-dbgen/bm_utils.c:164 | hence there every draw a_rnd makes for its characters is negative |
| Streams.DssRandom | modules/benchmetrics/files/ssb/ssb-gen/ssb-dbgen/rnd.c:24-31 | the same number, and the draw is counted if and only if its stream lies in the table |
| Streams.RowStart | modules/benchmetrics/files/ssb/ssb-gen/ssb-dbgen/rnd.c:33-41 | all usage counters become 0 and nothing else changes |
| Streams.RowStop | modules/benchmetrics/files/ssb/ssb-gen/ssb-dbgen/rnd.c:43-69 | each stream of the table or its child is padded to its boundary, or has its boundary raised when seeds are calibrated; other streams stay |
| Alignment.GenerateRow | modules/benchmetrics/files/ssb/ssb-gen/ssb-dbgen/driver.c:412-515 | row_start, any draws, row_stop: the seed table becomes the one the row semantics gives |
| Alignment.RowMovesStream | modules/benchmetrics/files/ssb/ssb-gen/ssb-dbgen/rnd.c:43-69 | the exact number of steps any row moves any stream of its table, in either form |
| Alignment.RowLeavesOthers | modules/benchmetrics/files/ssb/ssb-gen/ssb-dbgen/rnd.c:54-55 | a stream of another table keeps exactly what the row drew from it |
| Alignment.RunMovesStream | modules/benchmetrics/files/ssb/ssb-gen/ssb-dbgen/rnd.c:33-69 | how far any run of rows moves any stream, whatever it draws: the sum over the rows of padding, overdraws and uncounted draws |
| Alignment.RunIsAligned | modules/benchmetrics/files/ssb/ssb-gen/ssb-dbgen/rnd.c:33-69 | a run leaves a stream k * boundary steps on if and only if its moves add up to that, up to full periods |
| Alignment.StrayOnlyOutside | modules/benchmetrics/files/ssb/ssb-gen/ssb-dbgen/rnd.c:176-177 | only stream 0 can be moved without being counted, and only by draws outside the table |
| Alignment.RowIsAligned | modules/benchmetrics/files/ssb/ssb-gen/ssb-dbgen/rnd.c:43-69 | a row leaves a stream boundary steps on if and only if uncounted draws, and overdraws in the 64-bit form, add up to full periods |
| Alignment.RowsAreAligned | modules/benchmetrics/files/ssb/ssb-gen/ssb-dbgen/rnd.c:33-69 | any k such rows leave each stream of the table k * boundary steps on, whatever was drawn; the 32-bit form allows overdraws |
| Alignment.CalibrationFindsBoundary | modules/benchmetrics/files/ssb/ssb-gen/ssb-dbgen/rnd.c:57-62 | with set_seeds a run ends with each boundary at the largest usage of any row, or where it was if that is larger |
| Alignment.MostCountedIsReached | modules/benchmetrics/files/ssb/ssb-gen/ssb-dbgen/rnd.c:57-62 | that boundary is the usage of some row, or the boundary at the start |
| Alignment.CalibratedRowIsAligned | modules/benchmetrics/files/ssb/ssb-gen/ssb-dbgen/rnd.c:57-66 | while calibrating, a row leaves the stream at the boundary it has just set |
| Alignment.StrayDrawMisaligns | modules/benchmetrics/files/ssb/ssb-gen/ssb-dbgen/shared.h:21 | a part row that asks for stream 97 leaves stream 0 off its boundary |
| Skipping.SkipPart | modules/benchmetrics/files/ssb/ssb-gen/ssb-dbgen/speed_seed.c:233-245 | moves every PART stream by its boundary per row, and no other stream |
| Skipping.SkipLine | modules/benchmetrics/files/ssb/ssb-gen/ssb-dbgen/speed_seed.c:247-267 | the same for LINE through seven rounds of eleven streams, plus the two shared ORDER streams on request; HVAR_SD is not moved |
| Skipping.SkipOrder | modules/benchmetrics/files/ssb/ssb-gen/ssb-dbgen/speed_seed.c:269-281 | the same for ORDER |
| Skipping.SkipPsupp | modules/benchmetrics/files/ssb/ssb-gen/ssb-dbgen/speed_seed.c:283-296 | the same for PSUPP, four rounds of two streams and the comment |
| Skipping.SkipCust | modules/benchmetrics/files/ssb/ssb-gen/ssb-dbgen/speed_seed.c:298-309 | the same for CUST |
| Skipping.SkipSupp | modules/benchmetrics/files/ssb/ssb-gen/ssb-dbgen/speed_seed.c:311-325 | the same for SUPP |
| Skipping.GenSeed | modules/benchmetrics/files/ssb/ssb-gen/ssb-dbgen/bm_utils.c:567-574 | the call through the gen_seed pointer moves the streams of the table served |
| Skipping.SkipIs | modules/benchmetrics/files/ssb/ssb-gen/ssb-dbgen/speed_seed.c:233-325 | routine by routine, the streams that are moved and how far, in either form; all others not at all |
| Skipping.RoutinesMove | modules/benchmetrics/files/ssb/ssb-gen/ssb-dbgen/speed_seed.c:233-325 | a routine moves each stream of the table by that many steps and changes nothing else |
| SeedTable.SeedsHaveLayout | modules/benchmetrics/files/ssb/ssb-gen/ssb-dbgen/rnd.h:31-80 | the seed table with its 48 seeds has the tables and boundaries that the results about runs ask for |
| Parallel.TwoPartDivision | modules/benchmetrics/files/ssb/ssb-gen/ssb-dbgen/bm_utils.c:558-564 | row count and remainder computed in two parts are those of one division of base * sf by procs |
| Parallel.GenSeedRound | modules/benchmetrics/files/ssb/ssb-gen/ssb-dbgen/bm_utils.c:567-574 | one turn of the loop moves the streams of the table and those of its child |
| Parallel.Rounds | modules/benchmetrics/files/ssb/ssb-gen/ssb-dbgen/bm_utils.c:565-575 | any number of turns moves each stream by that many rounds of skips |
| Parallel.SetState | modules/benchmetrics/files/ssb/ssb-gen/ssb-dbgen/bm_utils.c:549-581 | result, extra rows, scale overflow and nothing-to-do cases, and how far every stream of the table has moved for a step |
| ParallelState.StateEqualsSerial | modules/benchmetrics/files/ssb/ssb-gen/ssb-dbgen/bm_utils.c:544-581 | for every table of either build, every stream and any rows of a serial run: set_state gives a step the serial value if and only if skips and moves differ by full periods |
| ParallelState.FeedsAre | modules/benchmetrics/files/ssb/ssb-gen/ssb-dbgen/rnd.h:31-80 | table by table, the streams a row is made from |
| ParallelState.CoversAre | modules/benchmetrics/files/ssb/ssb-gen/ssb-dbgen/rnd.c:43-57 | table by table, the streams that row_stop pads, those of the child table included |
| ParallelState.RoundMoves | modules/benchmetrics/files/ssb/ssb-gen/ssb-dbgen/bm_utils.c:567-574 | table by table, how far one round of set_state moves each of the 48 streams, in either form |
| ParallelState.SteadyStreamDrifts | modules/benchmetrics/files/ssb/ssb-gen/ssb-dbgen/bm_utils.c:544-581 | for rows that each move a stream equally far, the same as a condition on rows per child and steps |
| ParallelState.ForeignStreamsDrift | modules/benchmetrics/files/ssb/ssb-gen/ssb-dbgen/bm_utils.c:544-575 | a stream that is neither padded nor skipped agrees if and only if all the rows together drew full periods from it |
| ParallelState.FittingSkip | modules/benchmetrics/files/ssb/ssb-gen/ssb-dbgen/speed_seed.c:233-325 | set_state skips one boundary per row on the streams row_stop pads and on the two that lineitems borrow, and nothing on the others a row is printed from |
| ParallelState.SmallSharesFit | modules/benchmetrics/files/ssb/ssb-gen/ssb-dbgen/speed_seed.c:8-13 | up to 994205 rows per child no jump is too long for the 32-bit form |
| ParallelState.DriftIs | modules/benchmetrics/files/ssb/ssb-gen/ssb-dbgen/rnd.h:30-80 | no TPC-H stream drifts; of the SSBM streams exactly stream 0, and those that suppliers borrow from CUST and lineorders from ORDER, by one or three steps a row |
| ParallelState.DriftIsLag | modules/benchmetrics/files/ssb/ssb-gen/ssb-dbgen/bm_utils.c:544-581 | for shares of any size and both forms, drift is a full period if and only if the moves nobody skips and twice the cut jumps are |
| ParallelState.TpchLag | modules/benchmetrics/files/ssb/ssb-gen/ssb-dbgen/speed_seed.c:8-13 | no TPC-H stream lags in the 64-bit form; in the 32-bit form, for shares below 2^31 rows, none lags if and only if the longest jump of the table stays below 2^31 |
| ParallelState.LongestJumpIs | modules/benchmetrics/files/ssb/ssb-gen/ssb-dbgen/rnd.h:30-80 | that jump is 2160 steps per row for parts and part suppliers, 297 for suppliers, 324 for customers, 945 for orders and lines |
| ParallelState.SsbmLag | modules/benchmetrics/files/ssb/ssb-gen/ssb-dbgen/rnd.h:30-80 | some SSBM stream lags unless the shares are whole periods; below one period, unless they are empty |
| SsbmRows.PartCounts | modules/benchmetrics/files/ssb/ssb-gen/ssb-dbgen/shared.h:21 | the SSBM part row draws 92 times for its name, once from streams 0 to 4 and once from stream 97, which moves stream 0 uncounted |
| SsbmRows.CityCounts | modules/benchmetrics/files/ssb/ssb-gen/ssb-dbgen/rnd.c:176-177 | the draws that SSBM customer and supplier rows share: address, nation, three for the telephone from stream 28, and one from stream 98, which moves stream 0 uncounted |
| SsbmRows.CustCounts | modules/benchmetrics/files/ssb/ssb-gen/ssb-dbgen/rnd.c:176-177 | how often the SSBM customer row draws from each stream |
| SsbmRows.SuppCounts | modules/benchmetrics/files/ssb/ssb-gen/ssb-dbgen/rnd.c:176-177 | how often the SSBM supplier row draws from each stream |
| SsbmRows.LineCounts | modules/benchmetrics/files/ssb/ssb-gen/ssb-dbgen/dss.h:552-587 | the SSBM order row draws once from each ORDER stream it uses and once per line from each of seven LINE streams |
| SsbmRows.RowsAreSteady | modules/benchmetrics/files/ssb/ssb-gen/ssb-dbgen/rnd.h:30-80 | every SSBM row moves each stream it is printed from equally far, in either form |
| Comments.TxtPhrase | modules/benchmetrics/files/ssb/ssb-gen/ssb-dbgen/text.c:70-177 | the first of two to four draws chooses the form, and the others the words of its kinds in order; the text spells them with punctuation and a space after each |
| Comments.TxtWords | modules/benchmetrics/files/ssb/ssb-gen/ssb-dbgen/text.c:83-112 | each word is the one drawn from the list of its kind, nouns, adjectives, adverbs, verbs or auxiliaries |
| Comments.SpelledTogether | modules/benchmetrics/files/ssb/ssb-gen/ssb-dbgen/text.c:98-110 | words are written one after the other, each with its punctuation and a space |
| Comments.TxtPart | modules/benchmetrics/files/ssb/ssb-gen/ssb-dbgen/text.c:204-237 | a noun or verb phrase is appended; a preposition with " the " and a noun phrase; a terminator takes the place of the last space |
| Comments.FormsFit | modules/benchmetrics/files/ssb/ssb-gen/ssb-dbgen/dists.dss:768-799 | over the listed grammar a sentence takes at most 19 draws after the choice of its form, and makes at least ten characters |
| Comments.TxtSentence | modules/benchmetrics/files/ssb/ssb-gen/ssb-dbgen/text.c:191-242 | a sentence is a form of the grammar with its parts made in order, from at most 20 draws on its stream, and at least ten characters long |
| Comments.DbgText | modules/benchmetrics/files/ssb/ssb-gen/ssb-dbgen/text.c:249-284 | a comment is as long as the number drawn for it and is that long a piece of whole sentences with spaces between; it takes at most one draw and twenty for every eleven characters begun |
| TpchRows.CommentsFitBoundaries | modules/benchmetrics/files/ssb/ssb-gen/ssb-dbgen/rnd.h:38-68 | for every commented table, the comments of a row stay within the boundary of their stream |
| TpchRows.RowsKeepBoundaries | modules/benchmetrics/files/ssb/ssb-gen/ssb-dbgen/rnd.h:30-80 | the rows of mk_part, mk_supp, mk_cust and mk_order draw from no stream uncounted or beyond its boundary, and once from the two streams that lineitems borrow |
| TpchRows.RowsDraw | modules/benchmetrics/files/ssb/ssb-gen/ssb-dbgen/rnd.h:31-80 | how often those rows draw from each stream, but for their texts and the flags of a line |
| TpchRows.RowsAreSteady | modules/benchmetrics/files/ssb/ssb-gen/ssb-dbgen/rnd.h:30-80 | every TPC-H row moves each stream it is made from by its boundary, in either form |
| ParallelOutput.RowMovesView | modules/benchmetrics/files/ssb/ssb-gen/ssb-dbgen/rnd.c:33-69 | one such row keeps the table layout and moves everything the next row is printed from |
| ParallelOutput.GenTbl | modules/benchmetrics/files/ssb/ssb-gen/ssb-dbgen/driver.c:374-517 | the loop numbers the rows from its start and prints of each what the record makes of the number and the seeds it sees, while the draws may depend on every seed; each row leaves the table for the next |
| ParallelOutput.Partial | modules/benchmetrics/files/ssb/ssb-gen/ssb-dbgen/driver.c:593-617 | a child prints the rows that gen_tbl makes from the state set_state leaves, the last one also the remainder, or fails exactly on scale overflow |
| ParallelOutput.ViewsAgree | modules/benchmetrics/files/ssb/ssb-gen/ssb-dbgen/bm_utils.c:544-581 | a row of a child is printed from the seeds of the serial run if and only if no stream it sees has drifted |
| ParallelOutput.ChildrenTile | modules/benchmetrics/files/ssb/ssb-gen/ssb-dbgen/driver.c:608-617 | the row ranges of the children tile the serial run without gap or overlap, so their outputs agree if and only if each child's part does |
| ParallelOutput.ChildrenRowCount | modules/benchmetrics/files/ssb/ssb-gen/ssb-dbgen/driver.c:608-617 | all children together write every row |
| ParallelOutput.SecondChildDecides | modules/benchmetrics/files/ssb/ssb-gen/ssb-dbgen/bm_utils.c:565-575 | all children see the serial seeds if and only if the second one does |
| ParallelRuns.BitLengthIsFloorOfLog | modules/benchmetrics/files/ssb/ssb-gen/ssb-dbgen/driver.c:1118 | the factor of the SSBM part count, floor of 1 + log2(scale), is the number of binary digits of the scale |
| ParallelRuns.BitLengthBetween | modules/benchmetrics/files/ssb/ssb-gen/ssb-dbgen/driver.c:1118 | it is k + 1 for the scales from 2^k up to 2^(k+1) |
| ParallelRuns.RowCountsAgree | modules/benchmetrics/files/ssb/ssb-gen/ssb-dbgen/driver.c:1111-1123 | a serial and a parallel run write equally many rows, except SSBM parts from scale 3 and dates from scale 2 on |
| ParallelRuns.ParallelEqualsSerial | modules/benchmetrics/files/ssb/ssb-gen/ssb-dbgen/driver.c:1078-1130 | for any table, build, form and deterministic builder of steady rows: a parallel run writes what a serial one writes, with the same seeds, if and only if there is one process, or the scale per process stays within 1000, the row counts agree and no stream of a row lags by other than full periods |
| ParallelRuns.PrintedAlike | modules/benchmetrics/files/ssb/ssb-gen/ssb-dbgen/driver.c:374-517 | then the printed rows are equal too, whatever is printed of a row |
| ParallelRuns.TpchEqualsSerial | modules/benchmetrics/files/ssb/ssb-gen/ssb-dbgen/driver.c:1078-1130 | every TPC-H table, lineitems included: with several processes the run is the serial one if and only if the scale per process stays within 1000 and, in the 32-bit form, the longest jump of the table fits 31 bits (for shares below 2^31 rows; beyond, the exact condition on all jumps) |
| ParallelRuns.SsbmEqualsSerial | modules/benchmetrics/files/ssb/ssb-gen/ssb-dbgen/driver.c:1078-1130 | SSBM parts, suppliers, customers and lineorders: with several processes the rows are made from the seeds of the serial run only if the row counts agree and the shares are empty or, at best, whole periods |
| ParallelRuns.DatesEqualSerial | modules/benchmetrics/files/ssb/ssb-gen/ssb-dbgen/driver.c:1116-1123 | SSBM dates: with several processes the run is the serial one if and only if the scale is 1 (or there are none) and does not overflow |
| ParallelRuns.SsbmStreamZero | modules/benchmetrics/files/ssb/ssb-gen/ssb-dbgen/bm_utils.c:544-581 | stream 0 of an SSBM part, supplier or customer step is the serial one if and only if the earlier rows are a multiple of the period |
| ParallelRuns.MillionRowsAreTooMany | modules/benchmetrics/files/ssb/ssb-gen/ssb-dbgen/speed_seed.c:8-13 | with a million PARTSUPP rows per child and the 32-bit form, the second child starts with another comment seed than a serial run has there |
| ParallelRuns.MillionRowsPerChild | modules/benchmetrics/files/ssb/ssb-gen/ssb-dbgen/speed_seed.c:8-13 | so at five scale units per process, the part run of the 32-bit form is not the serial one |
| ParallelRuns.PLoad | modules/benchmetrics/files/ssb/ssb-gen/ssb-dbgen/driver.c:627-690 | every child works on its own copy of the seeds; the run fails exactly when the scale per child overflows, and otherwise prints what the children write |
| ParallelRuns.GenerateTable | modules/benchmetrics/files/ssb/ssb-gen/ssb-dbgen/driver.c:1078-1130 | one turn of the loop in main is the parallel or the serial run of the table; a serial run writes base * (k + 1) SSBM parts for scales from 2^k up to 2^(k+1), base dates, and base * scale rows otherwise, as several children do; it fails exactly on the overflow of several children |
| ParallelRuns.OverflowAborts | modules/benchmetrics/files/ssb/ssb-gen/ssb-dbgen/bm_utils.c:559-560 | at scale 2002 with two processes every child aborts, where a serial run writes its rows |
| ParallelRuns.TpchRowsAreSteady | modules/benchmetrics/files/ssb/ssb-gen/ssb-dbgen/driver.c:412-515 | builders made of the TPC-H routines meet the condition of these results |
| ParallelRuns.SsbmRowsAreSteady | modules/benchmetrics/files/ssb/ssb-gen/ssb-dbgen/driver.c:412-515 | so do builders made of the SSBM routines |
| ParallelRuns.CityDigitDiffers | modules/benchmetrics/files/ssb/ssb-gen/ssb-dbgen/rnd.h:32 | SSBM customers at scale 1 with two processes: the first city of the second child ends in 0, in a serial run in 9 |
| Bcd.NibblesIndependent | modules/benchmetrics/files/ssb/ssb-gen/ssb-dbgen/bcd2.c:20-36 | writing one packed digit is read back, and leaves the six others alone |
| Bcd.NibblesAre | modules/benchmetrics/files/ssb/ssb-gen/ssb-dbgen/bcd2.c:20-24 | digit k of a word is its bits 4k to 4k + 3 |
| Bcd.Number.SetDigit | modules/benchmetrics/files/ssb/ssb-gen/ssb-dbgen/bcd2.c:25-36 | one of the fourteen digits changes, the rest stay |
| Bcd.Number.FromBinary | modules/benchmetrics/files/ssb/ssb-gen/ssb-dbgen/bcd2.c:37-54 | the number of a valid digit string equal to the binary value below 10^14 |
| Bcd.ToBinary | modules/benchmetrics/files/ssb/ssb-gen/ssb-dbgen/bcd2.c:56-73 | the mask loop returns the value of a word's seven digits |
| Bcd.WordsSpellNumber | modules/benchmetrics/files/ssb/ssb-gen/ssb-dbgen/bcd2.c:18-36 | the value of a number is that of its low word plus 10^7 times that of its high word |
| Bcd.RoundTrip | modules/benchmetrics/files/ssb/ssb-gen/ssb-dbgen/bcd2.c:37-73 | converting to decimal and both words back restores the number |
| Bcd.Number.Add | modules/benchmetrics/files/ssb/ssb-gen/ssb-dbgen/bcd2.c:75-93 | result + carry * 10^14 = x + y, in valid digits, with carry 0 or 1 |
| Bcd.Number.AddRow | modules/benchmetrics/files/ssb/ssb-gen/ssb-dbgen/bcd2.c:131-146 | the inner multiplication loop adds one shifted multiple modulo 10^14 and keeps the carry at most 9 |
| Bcd.Number.Mul | modules/benchmetrics/files/ssb/ssb-gen/ssb-dbgen/bcd2.c:118-151 | the product modulo 10^14 in valid digits, for all fourteen-digit factors |
| Bcd.Number.Div | modules/benchmetrics/files/ssb/ssb-gen/ssb-dbgen/bcd2.c:153-172 | x = quotient * divisor + remainder with a remainder below the divisor and every quotient digit at most 9 |
| Bcd.DividendFits | modules/benchmetrics/files/ssb/ssb-gen/ssb-dbgen/bcd2.c:165-168 | what is divided at each digit fits a 32-bit long, for every digit and remainder, if and only if the divisor is at most 214748364 |
| Bcd.DivUndoesMul | modules/benchmetrics/files/ssb/ssb-gen/ssb-dbgen/bcd2.c:118-172 | dividing a product gives the factor back with no remainder if and only if the true product is below 10^14 |
| Bcd.DigitsAreUnique | modules/benchmetrics/files/ssb/ssb-gen/ssb-dbgen/bcd2.c:37-54 | valid digits are determined by the value |
| Sparse.SparseBitsAreArithmetic | modules/benchmetrics/files/ssb/ssb-gen/ssb-dbgen/dss.h:115-118 | the shifts and masks of MK_SPARSE compute its arithmetic form |
| Sparse.WordValueCounts | modules/benchmetrics/files/ssb/ssb-gen/ssb-dbgen/dss.h:111-114 | the bit-by-bit value of a word counts: 0 for 0, and one more for one more |
| Sparse.SparseBitsAreMkSparse | modules/benchmetrics/files/ssb/ssb-gen/ssb-dbgen/dss.h:115-118 | on the numbers that words stand for, the macro computes the arithmetic form while the sparse key fits 32 bits |
| Sparse.SparseIncreases | modules/benchmetrics/files/ssb/ssb-gen/ssb-dbgen/dss.h:117-118 | strictly increasing in the key |
| Sparse.SparseIsInjective | modules/benchmetrics/files/ssb/ssb-gen/ssb-dbgen/dss.h:117-118 | a sparse key determines the key and the slot modulo 4, and conversely |
| Sparse.EzSparseAgrees | modules/benchmetrics/files/ssb/ssb-gen/ssb-dbgen/dsstypes.h:129 | ez_sparse and the macro agree if and only if the slot is below 4 |
| Sparse.InsertsAreNotDeleted | modules/benchmetrics/files/ssb/ssb-gen/ssb-dbgen/print.c:572-576 | an update set never deletes a key it inserts, for any number of sets |
| Sparse.SlotsRunOver | modules/benchmetrics/files/ssb/ssb-gen/ssb-dbgen/dsstypes.h:129 | from slot 4 on, inserted keys are those of the next group; slot 4 meets the base keys |
| Sparse.HdSparse | modules/benchmetrics/files/ssb/ssb-gen/ssb-dbgen/dss.h:463-469 | the packed-decimal routine returns, as two seven-digit words, four times the group plus the slot, times eight, plus the low bits of the last digit, modulo 10^14 |
| Sparse.HdSparseAgrees | modules/benchmetrics/files/ssb/ssb-gen/ssb-dbgen/dsstypes.h:131 | what it returns agrees with ez_sparse if and only if the index and its last decimal digit have the same low three bits and the key has at most fourteen digits |
| Sparse.HdSparseCollides | modules/benchmetrics/files/ssb/ssb-gen/ssb-dbgen/dsstypes.h:131 | in one slot, its sums for two indexes are equal if and only if their groups of eight and the low bits of their last digits are |
| Sparse.HdSparseCollision | modules/benchmetrics/files/ssb/ssb-gen/ssb-dbgen/dsstypes.h:131 | for instance indexes 8 and 10 get the same key, where ez_sparse keeps them apart |
| Segments.SegmentSize | modules/benchmetrics/files/ssb/ssb-gen/ssb-dbgen/driver.c:394-398 | the first count mod segs segments have one row more than the others |
| Segments.SegmentsCover | modules/benchmetrics/files/ssb/ssb-gen/ssb-dbgen/driver.c:394-398 | the first segs segments take all rows |
| Segments.SegmentIsUnique | modules/benchmetrics/files/ssb/ssb-gen/ssb-dbgen/driver.c:394-443 | a row has at most one segment, and it is one of the first segs |
| Segments.SegmentsAre | modules/benchmetrics/files/ssb/ssb-gen/ssb-dbgen/driver.c:394-443 | the segments in plain arithmetic, of the quotient and the remainder of rows by segments |
| Segments.SegmentExists | modules/benchmetrics/files/ssb/ssb-gen/ssb-dbgen/driver.c:394-443 | each row has a segment among the first segs |
| Segments.InsertNumbers | modules/benchmetrics/files/ssb/ssb-gen/ssb-dbgen/driver.c:390-443 | the counters send row k to its closed-form segment, for any update number, and keep the low four decimal digits of the number |
| Segments.StartsAtZero | modules/benchmetrics/files/ssb/ssb-gen/ssb-dbgen/driver.c:427-443 | a run whose file numbers start at 0 fills the balanced segments |
| DeleteRanges.DeletePrinter.CountRow | modules/benchmetrics/files/ssb/ssb-gen/ssb-dbgen/print.c:602-632 | the differently written delete counters put row k into the same segment |
| DeleteRanges.DeletePrinter.StartUpdate | modules/benchmetrics/files/ssb/ssb-gen/ssb-dbgen/driver.c:1036 | the delete file number starts over before each update set |
| DeleteRanges.DeletePrinter.PrDrange | modules/benchmetrics/files/ssb/ssb-gen/ssb-dbgen/print.c:549-649 | range mode prints increasing, disjoint, maximal ranges that together are exactly the sparse keys; key mode prints key k in the file of its segment; SQL statement k names the key before, and the first none |
| DeleteRanges.DeletedIs | modules/benchmetrics/files/ssb/ssb-gen/ssb-dbgen/print.c:580-649 | a key is deleted if and only if some printed line takes it in; in SQL mode only statements do |
| DeleteRanges.KeysAre | modules/benchmetrics/files/ssb/ssb-gen/ssb-dbgen/print.c:580-649 | the keys of a stretch of indexes are those that MK_SPARSE makes of them |
| DeleteRanges.SqlMissesLastKey | modules/benchmetrics/files/ssb/ssb-gen/ssb-dbgen/print.c:583-592 | without ranges, the SQL statements delete every key but the last |
| DeleteRanges.SqlMissesLastRange | modules/benchmetrics/files/ssb/ssb-gen/ssb-dbgen/print.c:640-646 | with ranges, they miss exactly the keys in the group of eight of the last one, whose range is printed but not as SQL |
| Calendar.Unjulian | modules/benchmetrics/files/ssb/ssb-gen/ssb-dbgen/bm_utils.c:212-226 | the offset of a date: days in the years before it and its day number |
| Calendar.Julian | modules/benchmetrics/files/ssb/ssb-gen/ssb-dbgen/bm_utils.c:228-261 | the date of an offset, carried over year by year; terminates; earlier inputs come back unchanged |
| Calendar.UnjulianUndoesJulian | modules/benchmetrics/files/ssb/ssb-gen/ssb-dbgen/bm_utils.c:215-261 | every offset gives a date that exists, and is recovered from it |
| Calendar.JulianUndoesUnjulian | modules/benchmetrics/files/ssb/ssb-gen/ssb-dbgen/bm_utils.c:215-261 | a date with an offset from 0 on is recovered if and only if it is valid |
| Calendar.ValidDatesHaveOffsets | modules/benchmetrics/files/ssb/ssb-gen/ssb-dbgen/bm_utils.c:215-226 | valid dates from STARTDATE on have offsets from 0 on |
| Calendar.JulianIncreases | modules/benchmetrics/files/ssb/ssb-gen/ssb-dbgen/bm_utils.c:228-261 | later offsets give later dates |
| Calendar.OffsetsAreDistinct | modules/benchmetrics/files/ssb/ssb-gen/ssb-dbgen/bm_utils.c:215-226 | later valid dates have later offsets |
| Calendar.LastDayIsEndDate | modules/benchmetrics/files/ssb/ssb-gen/ssb-dbgen/dss.h:425-428 | the TOTDATE days run exactly from STARTDATE to ENDDATE |
| Calendar.YearTwoThousandIsCommon | modules/benchmetrics/files/ssb/ssb-gen/ssb-dbgen/dss.h:411 | the year 2000, written 100, has 365 days here |
| Distributions.ReadDist | modules/benchmetrics/files/ssb/ssb-gen/ssb-dbgen/bm_utils.c:290-349 | weights become running totals, and the last one the maximum; a wrong length is an error if and only if no END line closes the list |
| Distributions.LoadedListIsUsable | modules/benchmetrics/files/ssb/ssb-gen/ssb-dbgen/bm_utils.c:308-345 | a loaded list fills its allocation and can be searched and drawn from by its weights if and only if its length is as announced, no weight is negative and the total is positive |
| Distributions.EndHidesWrongLength | modules/benchmetrics/files/ssb/ssb-gen/ssb-dbgen/bm_utils.c:310-314 | two members announced as three are loaded without complaint when END follows |
| Distributions.ListIsCumulative | modules/benchmetrics/files/ssb/ssb-gen/ssb-dbgen/bm_utils.c:330-337 | from non-negative weights with a positive total the list is one pick_str can walk, and its steps are the weights |
| Distributions.PickStr | modules/benchmetrics/files/ssb/ssb-gen/ssb-dbgen/bm_utils.c:199-210 | one number from 1 to the last total is drawn, and the search stops at the first entry that reaches it; without negative weights, at the entry whose interval holds it |
| Distributions.SearchStops | modules/benchmetrics/files/ssb/ssb-gen/ssb-dbgen/bm_utils.c:205-207 | the search stops inside the list for every draw if and only if some running total is at least 1 |
| Distributions.DrawsPerEntry | modules/benchmetrics/files/ssb/ssb-gen/ssb-dbgen/bm_utils.c:199-210 | of the draws 1..total exactly weight_i select entry i |
| Distributions.SelectionIsUnique | modules/benchmetrics/files/ssb/ssb-gen/ssb-dbgen/bm_utils.c:206-207 | no draw selects two entries |
| Distributions.Permuter.Permute | modules/benchmetrics/files/ssb/ssb-gen/ssb-dbgen/permute.c:70-98 | from 0..c-1 on, turn i exchanges places i and the number drawn at that turn, for each of c draws; the cursor ends at the start |
| Distributions.ExchangesPermute | modules/benchmetrics/files/ssb/ssb-gen/ssb-dbgen/permute.c:79-89 | such exchanges end with a permutation, which the numbers drawn determine |
| Distributions.EveryPermutationIsReached | modules/benchmetrics/files/ssb/ssb-gen/ssb-dbgen/permute.c:79-89 | each permutation of 0..c-1 is what some numbers lead to |
| Distributions.Permuter.Next | modules/benchmetrics/files/ssb/ssb-gen/ssb-dbgen/permute.c:91-97 | the cursor moves one place on and wraps around |
| Distributions.Permuter.PermuteDist | modules/benchmetrics/files/ssb/ssb-gen/ssb-dbgen/permute.c:100-124 | the array is allocated once per distribution and, on every call with it, shuffled from 0..n-1 by one drawn exchange per member |
| Distributions.PermutationHitsAll | modules/benchmetrics/files/ssb/ssb-gen/ssb-dbgen/permute.c:79-89 | a shuffled array holds every number |
| Distributions.AggStr | modules/benchmetrics/files/ssb/ssb-gen/ssb-dbgen/bm_utils.c:417-435 | the text joins the members at places k mod size of one shuffle, whose drawn exchanges are all that is drawn |
| Distributions.JoinedTogether | modules/benchmetrics/files/ssb/ssb-gen/ssb-dbgen/bm_utils.c:424-434 | the texts stand in the order of the picks, with one space between |
| Distributions.PicksAreDistinct | modules/benchmetrics/files/ssb/ssb-gen/ssb-dbgen/bm_utils.c:417-435 | the picks are distinct if and only if there are no more of them than members |
| Distributions.ARnd | modules/benchmetrics/files/ssb/ssb-gen/ssb-dbgen/bm_utils.c:153-170 | the first number drawn is the length; of each further one, five characters are taken, six bits at a time from the low end |
| Distributions.CharactersAreDigits | modules/benchmetrics/files/ssb/ssb-gen/ssb-dbgen/bm_utils.c:161-167 | the five characters are the base-64 digits of the low thirty bits |
| Distributions.AddressFitsBoundary | modules/benchmetrics/files/ssb/ssb-gen/ssb-dbgen/rnd.h:58-64 | an address of at most forty characters keeps to its boundary of nine draws |
| SnapshotCache.SnapshotInvocationHandler.GetCachedAttributes | modules/yarnlocaltop_client/src/yarnlocaltop/src/main/java/com/yarnlocaltop/ProxyClient.java:1042-1064 | hit, miss and failure: the cache afterwards and the map returned are those of Lookup |
| SnapshotCache.LookupIs | modules/yarnlocaltop_client/src/yarnlocaltop/src/main/java/com/yarnlocaltop/ProxyClient.java:1042-1064 | Lookup in terms of the server: a hit answers from the cache; a miss fetches the names with the learned ones, keeps what can be read and learns the names; a failure changes nothing |
| SnapshotCache.SnapshotInvocationHandler.GetAttribute | modules/yarnlocaltop_client/src/yarnlocaltop/src/main/java/com/yarnlocaltop/ProxyClient.java:1011-1024 | an attribute the map lacks is read from the server directly |
| SnapshotCache.SnapshotInvocationHandler.GetAttributes | modules/yarnlocaltop_client/src/yarnlocaltop/src/main/java/com/yarnlocaltop/ProxyClient.java:1026-1040 | the pairs are exactly the asked names that have a value, null included, each with that value, in the order asked, repeated names repeated |
| SnapshotCache.ListedIs | modules/yarnlocaltop_client/src/yarnlocaltop/src/main/java/com/yarnlocaltop/ProxyClient.java:1030-1039 | the places of the names listed increase, and no other name asked for has a value |
| SnapshotCache.SnapshotInvocationHandler.Flush | modules/yarnlocaltop_client/src/yarnlocaltop/src/main/java/com/yarnlocaltop/ProxyClient.java:988-990 | values go, learned names stay |
| SnapshotCache.RunKeeps | modules/yarnlocaltop_client/src/yarnlocaltop/src/main/java/com/yarnlocaltop/ProxyClient.java:974-1064 | over every interleaving of lookups, answers, flushes and server changes, cached keys are learned names, each cached map is one fetch since the last flush, and so is what each call uses |
| SnapshotCache.StepKeeps | modules/yarnlocaltop_client/src/yarnlocaltop/src/main/java/com/yarnlocaltop/ProxyClient.java:974-1064 | the same invariant across any single step from any state that has it |
| SnapshotCache.CallSeesServer | modules/yarnlocaltop_client/src/yarnlocaltop/src/main/java/com/yarnlocaltop/ProxyClient.java:1042-1064 | with no server change since the flush, a call holds the very values, and lacks the very names, of a direct read |
| SnapshotCache.LearnedNamesGrow | modules/yarnlocaltop_client/src/yarnlocaltop/src/main/java/com/yarnlocaltop/ProxyClient.java:974-1064 | learned names are never forgotten in any run |
| SnapshotCache.LearnedNamesWereAsked | modules/yarnlocaltop_client/src/yarnlocaltop/src/main/java/com/yarnlocaltop/ProxyClient.java:974-1064 | every learned name was asked for in some lookup of that MBean |
| SnapshotCache.CallIs | modules/yarnlocaltop_client/src/yarnlocaltop/src/main/java/com/yarnlocaltop/ProxyClient.java:1042-1064 | a call in progress holds what its lookup found at that moment, and the flush and the server state of then |
| SnapshotCache.FlushedAtIs | modules/yarnlocaltop_client/src/yarnlocaltop/src/main/java/com/yarnlocaltop/ProxyClient.java:988-990 | the flush point of a run is where the server history stood at the last flush |
| SnapshotCache.FailedLookupChangesNothing | modules/yarnlocaltop_client/src/yarnlocaltop/src/main/java/com/yarnlocaltop/ProxyClient.java:1055-1062 | a failed fetch leaves values and names as they were |
| SnapshotCache.RunAnswersAreDirectReads | modules/yarnlocaltop_client/src/yarnlocaltop/src/main/java/com/yarnlocaltop/ProxyClient.java:1011-1064 | in any run, while the server has not changed since the flush before the lookup, every answer is a direct read, errors included: a list has exactly the names that can be read, each with the value read, in the order asked |
| SnapshotCache.MissRefreshesAllLearned | modules/yarnlocaltop_client/src/yarnlocaltop/src/main/java/com/yarnlocaltop/ProxyClient.java:944-950 | a miss brings back all learned attributes the server can read, with the values it reads, and only those |
| SnapshotCache.CachedValuesLast | modules/yarnlocaltop_client/src/yarnlocaltop/src/main/java/com/yarnlocaltop/ProxyClient.java:938-942 | the values cached for an MBean stay until a flush or until a lookup of that MBean misses |
| SnapshotCache.CachedValueSurvives | modules/yarnlocaltop_client/src/yarnlocaltop/src/main/java/com/yarnlocaltop/ProxyClient.java:938-942 | a cached value survives an event if and only if that is no flush and no miss on the same MBean that reads something else |
| SnapshotCache.AnswerNowIs | modules/yarnlocaltop_client/src/yarnlocaltop/src/main/java/com/yarnlocaltop/ProxyClient.java:1011-1024 | getAttribute answers the cached value where there is one and a direct read otherwise |
| SnapshotCache.ValueLasts | modules/yarnlocaltop_client/src/yarnlocaltop/src/main/java/com/yarnlocaltop/ProxyClient.java:938-942 | along any run the value stays cached if and only if every event keeps it |
| SnapshotCache.CachedUntilFlush | modules/yarnlocaltop_client/src/yarnlocaltop/src/main/java/com/yarnlocaltop/ProxyClient.java:938-942 | in any run without a flush, every answer is the first cached result if and only if each miss on that MBean fails or reads that value again |
| SnapshotCache.MissReplacesCachedValues | modules/yarnlocaltop_client/src/yarnlocaltop/src/main/java/com/yarnlocaltop/ProxyClient.java:938-942 | a run in which a cached value changes with no flush, because another name was asked for |
| TracePaths.KilledSteps | modules/yarnlocaltop_client/files/visualizeYarnLocalTop.py:147-156 | a non-empty trace is accepted if and only if no step of its reversed path is killed |
| TracePaths.AcceptedPathsAre | modules/yarnlocaltop_client/files/visualizeYarnLocalTop.py:147-168 | the paths are those of the accepted traces in their order; a trace of n frames leads to depth n, and step k is that of the k-th frame from the end |
| TraceTree.Node.AddChild | modules/yarnlocaltop_client/files/Node.py:36-39 | the child is new, carries its name, and replaces whatever the name led to |
| TraceTree.Node.Increment | modules/yarnlocaltop_client/files/visualizeYarnLocalTop.py:186-192 | the count goes up by one, from 0 where there is none |
| TraceTree.TraceTree.AddGlobalCount | modules/yarnlocaltop_client/files/visualizeYarnLocalTop.py:170-174 | the count of one name goes up by one, all others stay |
| TraceTree.TraceTree.FindChild | modules/yarnlocaltop_client/files/visualizeYarnLocalTop.py:162-166 | the node one step down, created if missing, keeps the tree a tree |
| TraceTree.TraceTree.CountRoot | modules/yarnlocaltop_client/files/visualizeYarnLocalTop.py:158-161 | a new trace is counted at the root, in the tree and by name |
| TraceTree.TraceTree.Descend | modules/yarnlocaltop_client/files/visualizeYarnLocalTop.py:162-168 | one turn of the loop makes the last trace one step longer, and all counts those of the traces then |
| TraceTree.TraceTree.AddTrace | modules/yarnlocaltop_client/files/visualizeYarnLocalTop.py:147-168 | a trace without a killed frame leads from the root through one child per frame, named by class and method, from the last frame listed to the first; the trie is then that of the accepted traces with this one; any other trace changes nothing |
| TraceTree.TraceTree.Build | modules/yarnlocaltop_client/files/visualizeYarnLocalTop.py:58-62 | after any sequence of addTrace calls the trie stands for the accepted traces in order |
| TraceTree.TraceTree.NodesArePrefixes | modules/yarnlocaltop_client/files/visualizeYarnLocalTop.py:147-168 | a node exists at a path exactly when some accepted trace has that prefix (or it is the root), and it counts those traces |
| TraceTree.TraceTree.GlobalCountsAreSums | modules/yarnlocaltop_client/files/visualizeYarnLocalTop.py:158-174 | globalCounts of a name is the sum of the counts of all nodes with that name |
| TracePaths.MetIsSumOfCounts | modules/yarnlocaltop_client/files/visualizeYarnLocalTop.py:158-174 | double counting: meetings of a name along all traces equal the sum of prefix counts |
| TracePaths.ShorterOccursMore | modules/yarnlocaltop_client/files/visualizeYarnLocalTop.py:147-168 | a prefix of a prefix occurs at least as often |
| TraceReport.SetPercent | modules/yarnlocaltop_client/files/visualizeYarnLocalTop.py:177-178 | one node gets its count divided by the total, every other attribute and node stays |
| TraceReport.AddPercentToTree | modules/yarnlocaltop_client/files/visualizeYarnLocalTop.py:176-180 | the recursion gives every node at and below p its share, leaves all others alone, and terminates |
| TraceReport.AddPercentages | modules/yarnlocaltop_client/files/visualizeYarnLocalTop.py:182-184 | all nodes get their share of the trace count; it fails exactly when no trace was accepted |
| TraceReport.NothingHeavyBelow | modules/yarnlocaltop_client/files/visualizeYarnLocalTop.py:92-94 | below a node under the threshold every node is under it, so the early return loses nothing |
| TraceReport.DrawNode | modules/yarnlocaltop_client/files/visualizeYarnLocalTop.py:96-108 | the edge from the parent to the child; green goes by the count of the child, and blue too if that is at least three quarters of all nodes of its name, else by these, darkest above the total; the divisors are there and positive |
| TraceReport.ColourOf | modules/yarnlocaltop_client/files/visualizeYarnLocalTop.py:98-107 | the two levels in terms of the counts: whole steps of 1/255, with the rule of three quarters |
| TraceReport.DrawChildren | modules/yarnlocaltop_client/files/visualizeYarnLocalTop.py:109-110 | the loop over the children draws exactly the heavy nodes strictly below |
| TraceReport.BuildGraph | modules/yarnlocaltop_client/files/visualizeYarnLocalTop.py:89-110 | the recursion draws exactly the nodes at and below p that reach the threshold, with their edges and colours |
| TraceReport.DumpTree | modules/yarnlocaltop_client/files/visualizeYarnLocalTop.py:112-122 | exactly the nodes below the root that reach the threshold are drawn; the root is pure red |
| TraceReport.GetLevel | modules/yarnlocaltop_client/files/visualizeYarnLocalTop.py:130-134 | a level of 0..255 that falls from 255 at 0% to 0 at 100%, by whole steps of 1/255 |
| TraceReport.SetColor | modules/yarnlocaltop_client/files/visualizeYarnLocalTop.py:136-145 | green falls with the percentage and blue with the offset, by whole steps of 1/255; no offset gives equal levels, an offset above 1 the darkest |
| TraceReport.Report | modules/yarnlocaltop_client/files/visualizeYarnLocalTop.py:58-87 | from the list of traces to the edges drawn |

## Left out

- Streams.UnifInt: scales with exact reals where the source rounds doubles; longs are wide enough for `high - low + 1`, and `Streams.WideRangeWraps` says what 32-bit longs do instead.
- Streams.DssRandom: for a stream outside the table the source also increments a counter beyond the end of the array; that write is not modelled.
- SpeedSeed.RndSeed: an order at or below minus the modulus is excluded, because there the first loop of the source never ends (`SpeedSeed.FirstLoopEnds`).
- SpeedSeed.NthElement32: excludes the same shifts, for the same reason.
- Parallel.SetState: excludes a step beyond the number of processes, where the source calls `gen_seed` with one argument of two and so skips by an indeterminate count.
- ParallelRuns.GenerateTable: generates one table from a given seed table. That an SSBM run over several tables hands streams from one to the next is not modelled: parts and suppliers move stream 0, suppliers also move stream 28 before the customers use it, and every date row pads the ORDER streams (dates are table 4) before the lineorders use them.
- ParallelRuns.ParallelEqualsSerial: row counts and scales are not reduced to a machine word.
- TpchRows.RowsAreSteady: the texts of the word lists are any that are no shorter than the shortest listed in `dists.dss`; bounds of draws that depend on the scale or on a distribution are arbitrary.
- Comments.DbgText: the forms of the grammar are given in parsed form; the handling of punctuation that the listed forms do not contain is left out.
- ParallelRuns.RowCountsAgree: takes the logarithm exactly, where the source divides two rounded ones.
- SsbmRows.RowsAreSteady: the bounds of the draws that depend on the scale or on a distribution are arbitrary.
- Bcd.Number.Mul: gives no meaning to the returned carry, which is what the last row of the multiplication left.
- Bcd.Number.Div: ten times the running remainder is not reduced to a machine word; `Bcd.DividendFits` says when that makes no difference.
- DeleteRanges.DeletePrinter.PrDrange: assumes that all update sets of a run have the same number of rows, as the sizes are worked out once, and that opening a file succeeds.
- Distributions.ReadDist: a member beyond the announced length is written past the allocation in the source; the model keeps it in the list and calls the list unusable.
- Distributions.AggStr: with no member to take, the source writes in front of its buffer; the model returns the empty text.
- TraceReport.BuildGraph: draws nodes by identity; the program labels them by name and percentage, so two nodes with the same label become one in the picture.
- TraceReport.AddPercentages: Python floats are exact reals.
- `bcd2_sub`, `bcd2_mod`, `bcd2_cmp` and the HUGE2LONG and HUGE_CMP macros: no arithmetic law holds for them as written.
- The `mk_*` row builders beyond the draws they make: the texts are any function of row number and seeds.
- `UnifReal`, `Exponential`, `fake_a_rnd`, `e_str` and the statistics scripts: floating point or unused by the core.
- Parsing of distribution files, options and stack dumps; opening and formatting of output files; checksums and processes.
- JMX connection set-up, RMI, the proxy's `invoke` dispatch and the methods it passes through.
- GraphViz layout and the rest of the picture, Puppet manifests, dashboards and generated code: plumbing.
