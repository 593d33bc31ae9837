# A verified model of the range-frequency sketches and their surroundings

This project models, in Dafny, the stateful core of a distributed storage prototype and proves what
that core promises.

* **Range-frequency sketches.** `gxj_range_frequency_sketch` and `interval_sketch` estimate how often
  each block ("granule") of a storage unit is touched. Each is a binary range tree flattened into one
  table of 64-bit words per level; a word holds sixteen 4-bit saturating counters, every tree node is
  hashed to four of them, and the four are read back as their minimum. `count_min_sketch` and
  `hierarchical_frequency_sketch` are the flat relatives, `range_frequency_sketch` is the exact counter.
* **Experiment protocol.** One manager and any number of workers synchronise through a Redis store,
  using one ack hash for both the start and the end barrier.
* **Three smaller cores.** MD5 against RFC 1321, the server connection's write queue, and the vendored
  `basic_streambuf` byte queue.

## How the model is layered

`Bits` and `PackedWord` define C++'s shifts and masks on unsigned numbers and show what the word
operations do to each 4-bit counter. `CounterTable` lifts this to whole tables: a ghost *log* of events
(`Bump` of a key, `Halve` of everything) is the meaning of a table, and `Represents` ties every counter
of every table to the log. The hash and the row index are arbitrary functions (`TableIndex` has the
code's own index), so the results hold for every hash. `CountMinLaws` says what the minimum of four
rows means. `RangeTree` is the recursion over the tree, `UnitGrid` the byte arithmetic around it.

`GxjRange`, `GxjTheorems` and `GxjSampler` hold the theory of `gxj_range_frequency_sketch`, and
`IntervalRange` and `IntervalExact` that of `interval_sketch`: functions that say which events an access causes and which
number a query returns, with theorems about whole histories. `LevelBounds` says which units the recursion
can work on. The classes `GxjSketch`, `IntervalSketch`, `CountMinSketch`,
`HierarchicalSketch` and `RangeFrequencySketch` are the source's classes with their
fields updated in place, recursion and loops as in the source; each method is proved against those
functions. `SketchRuns` and `HierarchicalRuns` drive the objects through any sequence of calls and so
carry the theorems over to them; `Comparison` gives two objects the same accesses. `ResetRace` interleaves
a query with the word-by-word steps of a background reset.

`Protocol` is a state machine in which every Redis command is one atomic step of the manager or of one
worker, for any number of workers and any interleaving; `ProtocolRuns` shows that the normal run exists, and
`ProtocolProgress` how the experiment stops. `WriteQueue` is the server's side of a connection, and
`WireFormat` the bytes of its frames and the client's reader of them.

## What the main results say

* *Error decomposition* (`GxjTheorems.ErrorDecomposition`, on the object
  `SketchRuns.RecordAllThenAskRange`). After any accesses without a reset, a query whose counters
  neither collide nor overflow returns the exact number of touched granules plus, for each node that
  the query covers exactly and an access only partly, the node's width if it was sampled less the true
  overlap. Fully covered nodes are exact; all error lies in the sampled nodes.
* *The sampler is exact over full periods* of an access counter exactly on power-of-two widths
  (`GxjSampler.CancelsIffPow2`): then repeating an access raises a query by exactly the repetitions times
  the overlap (`GxjSampler.FullPeriod`, on the object `SketchRuns.RepeatBetweenQueries`). On other widths
  the documented probability is not met; of three granules one is drawn half the time
  (`GxjSampler.ThreeDrawHalf`).
* *Point queries of gxj never underestimate*, for every hash (`GxjTheorems.PointNeverUnder`, on the
  object `SketchRuns.RecordAllThenAsk`), although a count is split over one saturating counter per level. The last
  granule of a unit is out of reach of every access and every query (`UnitGrid.LastGranuleNeverCovered`),
  and a query that reaches the unit's end finds nothing (`GxjSketch.Frequency`, `IntervalSketch.Frequency`).
* *interval_sketch never underestimates*, for every hash and every run of accesses and resets
  (`IntervalRange.NeverUnderestimates`, on the object `SketchRuns.PerformAllThenAsk`). Where no counter that a
  query reads is shared in all its rows, the answer is known exactly: the sum, over the nodes that the query
  covers, of the width times the capped, aged number of byte ranges that reach the node
  (`IntervalExact.CleanQueryExact`), so 0 if none does.
* *The flat sketches* answer exactly where a row is free of collisions: `count_min_sketch` the capped number
  of records of the key (`CountMinSketch.Frequency`), `hierarchical_frequency_sketch` the floored average of
  the granules' capped, aged counts (`HierarchicalRuns.PerformAllThenAsk`). Collisions are stated on the row
  index and the low bits of the hash.
* *Queries during a reset* stay between the value before and the value after it
  (`ResetRace.GxjQueryBetween`, `ResetRace.IntervalQueryBetween`), and one whose reads all fall at one moment
  is the query on the tables of that moment.
* *End-barrier safety* for any number of workers (`Protocol.EndBarrier`, `Protocol.NoStaleAck`), no
  assert of the manager fails and no "inconsistent ack" branch is ever taken (`Protocol.AssertsHold`).
* *Giving up and stopping.* While acks are missing the manager polls exactly rounds + 1 times, gives up on the
  last poll and then sets ERROR for good (`ProtocolProgress.TimesOut`). A worker at its heartbeat then kills
  its server within three steps of its own (`ProtocolProgress.HeartStops`). But a worker that has not yet left
  `worker_wait_exp_init` when END is set fails its assertion with its server running: the experiment can still
  end exactly if there is no such worker (`ProtocolProgress.EndsIffNoneLate`).
* *The wire.* Over every interleaving the client's reader recovers, from the frames written, the messages in
  the order pushed, up to the first with an empty body, at which it closes (`WriteQueue.Run`,
  `WireFormat.RecoversAllIffNoneEmpty`).
* *MD5* folds RFC 1321's block operation over the padded message at every length, and is the RFC's digest
  below 2^29 bytes (`Md5.ProcessMessage`); the padding conforms exactly there (`Md5.PaddingConforms`),
  since from 2^29 bytes on the 32-bit product `n * 8` loses bits.
* *Which objects work* (`LevelBounds.StaysIffHeld`). However many levels are reserved, every access and
  every query of a unit stays on them exactly when an int can count its granules and the root is no wider
  than the deepest tree. With the levels reserved for the unit itself that is so exactly when it has a whole
  granule and granularity divides it or the number of whole granules is no power of two
  (`LevelBounds.StaysOnLevelsIffFits`); five bytes in granules of two are an input that fails
  (`LevelBounds.FiveBytesSink`). `change_capacity` reserves the levels of its own arguments, which may
  describe another unit than the object's (`LevelBounds.OtherUnitSinks`): the object is usable afterwards
  exactly when these levels hold its unit and no table is empty (`GxjSketch.ChangeCapacity`).

## Where code and documentation disagree

The model follows the code.

* The repository's README (steps 3 to 5 of the experiment) sends one ack when a worker is up and another
  after it has launched its server, following the command to begin. In the code a worker launches its
  server as soon as it sees the config, sends a single start ack after that, and RUNNING only begins
  the heartbeats (`exp_utils/worker.py:57-66`).
* `try_increment_counter_at_with_value` is documented to return true only if the counter was
  incremented; it always returns true (`gxj_frequency_sketch.hpp:315`, `:338`), so `size_` also grows
  when nothing is counted. That is so exactly when the least of the key's four counters is 15
  (`CounterTable.Raise`). The same holds of `count_min_sketch`; `hierarchical_frequency_sketch` returns
  the true answer. Nothing reads the flag of these two. Fifteen
  bumps of one key bring it about (`CountMinLaws.FifteenFill`).
* A comment on `counter_offset` in the range sketches describes four groups per word; there are two
  dyadic and two lazy groups (`gxj_frequency_sketch.hpp:415-440`).
* `basic_streambuf::prepare` documents its exception as `size() + n > max_size()`; that is what is proved.
  But the bytes are moved down before the exception and the pointers are not, so the input sequence
  survives it exactly when it repeats itself every `gptr() - eback()` bytes, as it does when nothing was
  consumed since the last move, or more was than is left (`StreamBuffer.Reserve`). `ThrowOverwrites` has
  an input that does not survive.

## Model

| member | source | states |
|---|---|---|
| Bits.MaskIsRemainder | benchmark/structures/gxj_frequency_sketch.hpp:230-231 | Masking with 2^k - 1 keeps the remainder modulo 2^k, so the sampler's and the row index's masks are remainders on power-of-two sizes |
| Bits.NearestPowerOfTwo | benchmark/structures/detail.hpp:68-78 | Decrement, five smearing steps and increment modulo 2^32 give the least power of two reaching x for 1 <= x <= 2^31, and 0 for x = 0 and for larger x |
| Bits.Smear | benchmark/structures/detail.hpp:71-75 | The five or-shift steps turn any 32-bit x into all ones below its highest digit |
| Bits.LeastPowerOfTwo | benchmark/structures/detail.hpp:68-78 | No smaller power of two than the rounded one reaches x |
| PackedWord.IncreasedNibble | benchmark/structures/gxj_frequency_sketch.hpp:316-339 | Raising counter k by any amount caps it at 15 and leaves the other counters of the word as they were: no carry reaches a neighbour |
| PackedWord.IncrementedNibble | benchmark/structures/count_min_sketch.hpp:165-175 | The masked compare-and-add of the flat sketches does the same with an increment of one |
| PackedWord.HalvedNibble | benchmark/structures/gxj_frequency_sketch.hpp:445-453 | Shift and mask halve all sixteen counters; no bit crosses into a neighbour |
| PackedWord.StaysWord | benchmark/structures/gxj_frequency_sketch.hpp:316-351 | None of these operations carries out of the 64 bits |
| PackedWord.NibbleIsShiftMask | benchmark/structures/gxj_frequency_sketch.hpp:308 | Shift and mask read exactly the k-th base-16 digit of the word |
| PackedWord.FullUnderMask | benchmark/structures/count_min_sketch.hpp:207-211 | The mask comparison of can_increment_counter_at recognises exactly the full counter |
| CounterTable.Layout.Slot | benchmark/structures/gxj_frequency_sketch.hpp:415-440 | The four rows of a key never share a counter of a word, and lazy and dyadic counters occupy different halves, for every hash |
| CounterTable.SharedCell | benchmark/structures/gxj_frequency_sketch.hpp:390-440 | Two keys share a counter exactly when they ask in the same row of the same level, their hashes have the same row index, and the low bits of the hashes choose the same group: two bits in the flat sketches, one bit and the kind of counter in the range sketches |
| CounterTable.SlotIsOffset | benchmark/structures/gxj_frequency_sketch.hpp:415-440 | The bit offset is the shifts and masks of counter_offset: ((hash & 3) << 2) + row in units of four bits, or with hash & 1 and 32 more for lazy counters |
| CounterTable.GetCount | benchmark/structures/gxj_frequency_sketch.hpp:305-309 | Reads the counter at which the key is placed in this row |
| CounterTable.MinCount | benchmark/structures/gxj_frequency_sketch.hpp:185-209 | The loop over the rows returns the least of the key's four counters |
| CounterTable.RowMin | benchmark/structures/gxj_frequency_sketch.hpp:190-196 | That value is below no other reading: at most every row, and equal to one of them |
| CounterTable.TryIncrement | benchmark/structures/gxj_frequency_sketch.hpp:316-339 | One counter of the whole table goes up by one, capped at 15, and every other counter of every level keeps its value; the flag is true even on a full counter |
| CounterTable.Raise | benchmark/structures/gxj_frequency_sketch.hpp:272-302 | After the loop over the rows the tables represent the log with one more bump of the key: exactly the key's cells went up, each once. was_added is always true, and no counter changed if and only if the least of the key's four counters is 15 |
| CounterTable.HalveAll | benchmark/structures/gxj_frequency_sketch.hpp:443-456 | The reset loop halves every counter of every level, so the tables represent the log with one more halving |
| CounterTable.HalvedReads | benchmark/structures/gxj_frequency_sketch.hpp:445-453 | In the middle of the reset loop each counter reads as its old value or as half of it, depending on which side of the position it lies |
| CounterTable.FreshTables | benchmark/structures/gxj_frequency_sketch.hpp:100-108 | One table per level, each half the size of the one before, every counter zero |
| CounterTable.TablesNotEmpty | benchmark/structures/gxj_frequency_sketch.hpp:101-108 | Of the successively halved tables none is empty exactly when there are at most as many as the first size's exponent plus one |
| CounterTable.FreshRepresents | benchmark/structures/gxj_frequency_sketch.hpp:100-108 | Zeroed tables represent the empty log exactly when none of them is empty |
| CounterTable.ResizedReads | benchmark/structures/count_min_sketch.hpp:67-75 | Resizing an empty table makes every counter zero; resizing to the same size keeps every word |
| CountMinLaws.ReadIsLeastRow | benchmark/structures/count_min_sketch.hpp:96-107 | Without resets a reading is the least, over the four rows, of the capped number of bumps of any key that reach this key's cell |
| CountMinLaws.NeverUnder | benchmark/structures/gxj_frequency_sketch.hpp:185-209 | One-sided error: whatever collides, and across resets, a key never reads below its own capped, aged count |
| CountMinLaws.CleanRead | benchmark/structures/gxj_frequency_sketch.hpp:185-209 | One collision-free row makes the reading exact, resets included |
| CountMinLaws.PrivateRead | benchmark/structures/hierarchical_frequency_sketch.hpp:81-100 | A key with one collision-free row reads its capped, aged count |
| CountMinLaws.ExactIsTally | benchmark/structures/gxj_frequency_sketch.hpp:316-339 | Saturating counting without resets is the number of bumps cut at 15 |
| CountMinLaws.FifteenFill | benchmark/structures/gxj_frequency_sketch.hpp:272-286 | After fifteen bumps of a key all its counters are full, whatever the hash: a further one is reported as added and changes nothing |
| RangeTree.Visit.Left | benchmark/structures/gxj_frequency_sketch.hpp:259-264 | The left recursive call keeps its arguments in range, has a level left and a strictly smaller, non-empty node |
| RangeTree.Visit.Right | benchmark/structures/gxj_frequency_sketch.hpp:259-268 | The same of the right call |
| RangeTree.CanonicalDecomposition | benchmark/structures/gxj_frequency_sketch.hpp:151-181 | The nodes at which the recursion stops lie end to end from left to right; at most two of them and at most two expanded nodes per level; at most max(1, 2 * (counter_level_ - 2)) in all |
| RangeTree.CoverTiles | benchmark/structures/gxj_frequency_sketch.hpp:240-269 | The exactly covered nodes partition the queried range |
| RangeTree.OneSided | benchmark/structures/gxj_frequency_sketch.hpp:240-269 | A range that touches an end of the node has at most one covered and one expanded node per level |
| RangeTree.WrappedCoversNothing | benchmark/structures/gxj_frequency_sketch.hpp:211-269 | With left >= right, an access across the unit's end, the recursion ends without covering any node |
| RangeTree.FewExpanded | benchmark/structures/gxj_frequency_sketch.hpp:240-269 | The number of partly covered nodes visited is at most 2 * level - 1 |
| UnitGrid.LevelsSuffice | benchmark/structures/gxj_frequency_sketch.hpp:93 | For quotients that the 32-bit rounding is made for, the reserved levels hold the whole tree exactly when granularity divides the unit or the whole granules are no power of two; the root is never wider by more than one granule |
| UnitGrid.FitsIsHeld | benchmark/structures/gxj_frequency_sketch.hpp:87-114 | The levels reserved for a unit hold its own tree exactly when the unit fits: a whole granule, countable granules, and divisibility or no power of two |
| UnitGrid.HoldsIsValid | benchmark/structures/gxj_frequency_sketch.hpp:87-114 | On levels that hold a unit the tree theorems apply to every visit of the root |
| UnitGrid.LeftGranule | benchmark/structures/gxj_frequency_sketch.hpp:215 | The first granule of an access is a granule of the block |
| UnitGrid.RightGranule | benchmark/structures/gxj_frequency_sketch.hpp:216 | The end of an access never passes the root node's end, also when it wraps |
| UnitGrid.GranuleBounds | benchmark/structures/gxj_frequency_sketch.hpp:215-216 | The left granule holds the offset of the first byte in its unit, and the right one that of the byte after the last, which has come round when the range reaches the unit's end |
| UnitGrid.LastGranuleNeverCovered | benchmark/structures/gxj_frequency_sketch.hpp:215-216 | No access and no query covers the last granule of a unit; one that ends with the unit has granule 0 as its end |
| UnitGrid.WholeOrOneMore | benchmark/structures/gxj_frequency_sketch.hpp:220 | The root node is as wide as the whole granules of the unit, plus one for a remainder |
| LevelBounds.StaysIffHeld | benchmark/structures/gxj_frequency_sketch.hpp:133-181 | For all unit sizes, granularities and numbers of reserved levels, with the narrowing to int that the code does: every query and every record stays on the reserved levels if and only if these hold the unit |
| LevelBounds.StaysOnLevelsIffFits | benchmark/structures/gxj_frequency_sketch.hpp:80-181 | With the levels that are reserved for the unit itself: every query and every record stays on them if and only if the unit fits |
| LevelBounds.IntervalStaysIffHeld | benchmark/structures/interval_sketch.hpp:133-271 | The same for any number of levels of interval_sketch, whose records recurse down to single granules |
| LevelBounds.HeldUnitStays | benchmark/structures/gxj_frequency_sketch.hpp:240-269 | On levels that hold the unit, every access and every query, wrapped or not, stays on them |
| LevelBounds.MissingLevelSinks | benchmark/structures/gxj_frequency_sketch.hpp:93 | With a root wider than the deepest tree, the access to the last granule but one recurses below level 0, in records and in queries |
| LevelBounds.NarrowedUnitSinks | benchmark/structures/gxj_frequency_sketch.hpp:137-146 | With more granules than an int can count no number of levels is enough: some one-granule query recurses below level 0, because the root's end or the range itself becomes negative |
| LevelBounds.NoLevelSinks | benchmark/structures/gxj_frequency_sketch.hpp:93 | With no level reserved every query recurses below level 0 |
| LevelBounds.FiveBytesSink | benchmark/structures/gxj_frequency_sketch.hpp:80-93 | One configuration the constructor accepts: five bytes in granules of two, two levels, and an access of two bytes goes below level 0 |
| LevelBounds.OtherUnitSinks | benchmark/structures/gxj_frequency_sketch.hpp:87-93 | One call the code accepts: a unit of eight bytes in granules of one, resized with the arguments 8 and 8; both units fit their own levels, but the one level reserved does not hold the object's unit, and a one-byte access goes below it |
| TableIndex.IndexInRange | benchmark/structures/gxj_frequency_sketch.hpp:390-400 | The code's row index is inside every non-empty table for every hash, and is the mixed hash modulo the size on power-of-two tables |
| TableIndex.ProductInjective | benchmark/structures/gxj_frequency_sketch.hpp:392-398 | In each row the multiplication by the seed gives no two hashes the same 64-bit product |
| TableIndex.HashOneMixed | benchmark/structures/gxj_frequency_sketch.hpp:392-399 | The mixed values of a hash of one in the four rows |
| TableIndex.CodeLayoutIsSound | benchmark/structures/gxj_frequency_sketch.hpp:390-400 | With the code's index, any hash and any non-empty tables, every counter of every key lies inside its table |
| GxjRange.SizeConservation | benchmark/structures/gxj_frequency_sketch.hpp:211-302 | A record raises size_ by exactly the granules it spans plus the number of sampled nodes, of which there are at most 2 * level - 1; one across the unit's end leaves it alone |
| GxjRange.SingleAccess | benchmark/structures/gxj_frequency_sketch.hpp:151-269 | What the bumps of one access add to one query is their overlap plus the sampling error of the nodes the query covers exactly and the access only partly |
| GxjRange.IdealSum | benchmark/structures/gxj_frequency_sketch.hpp:151-181 | Exact readings of a query add up over the parts of a history |
| GxjRange.NoError | benchmark/structures/gxj_frequency_sketch.hpp:240-269 | Sampling makes no error at nodes an access covers fully or not at all |
| GxjRange.RecordedUnder | benchmark/structures/gxj_frequency_sketch.hpp:240-269 | An access bumps only keys of nodes at or below the one it entered |
| GxjRange.WrappedRecordsNothing | benchmark/structures/gxj_frequency_sketch.hpp:211-269 | An access across the unit's end bumps no counter |
| GxjRange.WrappedEstimate | benchmark/structures/gxj_frequency_sketch.hpp:133-181 | A query that reaches the unit's end is never positive, in any tables |
| GxjTheorems.ForeignAccess | benchmark/structures/gxj_frequency_sketch.hpp:211-224 | Accesses to other units or other blocks never enter a query: key ranges of blocks are disjoint |
| GxjTheorems.IdealOfHistory | benchmark/structures/gxj_frequency_sketch.hpp:133-181 | The exact reading after a history is the sum of overlaps and sampling errors of its accesses |
| GxjTheorems.CleanEstimate | benchmark/structures/gxj_frequency_sketch.hpp:151-209 | When each counter the query reads has a private row and has not overflowed, the tables give the exact reading |
| GxjTheorems.ErrorDecomposition | benchmark/structures/gxj_frequency_sketch.hpp:133-269 | Such a query returns exactly the sum over all accesses of their overlap plus their sampling error, so all error lies in sampled nodes |
| GxjTheorems.PointNotBelow | benchmark/structures/gxj_frequency_sketch.hpp:151-197 | Splitting a count over one saturating counter per level loses nothing below 15 on a one-granule query |
| GxjTheorems.PointNeverUnder | benchmark/structures/gxj_frequency_sketch.hpp:133-286 | For every hash and every reset-free history, a one-granule query returns at least min(15, number of accesses covering the granule) |
| GxjSampler.HitsPeriod | benchmark/structures/gxj_frequency_sketch.hpp:227-238 | Among any w consecutive counter values, whatever the first, exactly len are sampled |
| GxjSampler.SampledIsRemainder | benchmark/structures/gxj_frequency_sketch.hpp:229-234 | On a node of power-of-two width the masked counter is uniform: it is the remainder modulo the width |
| GxjSampler.FairIsPow2 | benchmark/structures/gxj_frequency_sketch.hpp:226-238 | If every run of n counter values draws a one-granule access as often as its share of the width asks, the width is a power of two |
| GxjSampler.ThreeDrawHalf | benchmark/structures/gxj_frequency_sketch.hpp:226-238 | At width three a one-granule access is drawn on half of the counter values, not on a third |
| GxjSampler.ErrorsCancel | benchmark/structures/gxj_frequency_sketch.hpp:226-269 | Over a multiple of the widths in the query's cover the sampling errors of a repeated access sum to zero, when these widths are powers of two |
| GxjSampler.CancelsIffPow2 | benchmark/structures/gxj_frequency_sketch.hpp:226-269 | For any positive multiple of the widths in the query's cover: the errors of every access, from every counter value, cancel if and only if all these widths are powers of two |
| GxjSampler.PowerGrid | benchmark/structures/gxj_frequency_sketch.hpp:240-269 | On a power-of-two number of granules every query has such a cover |
| GxjSampler.FullPeriod | benchmark/structures/gxj_frequency_sketch.hpp:200-269 | When the widths in the query's cover are powers of two, repeating an access n times from any counter value raises a clean query by exactly n times the overlap, n being a multiple of these widths |
| GxjSketchClass.GxjSketch.constructor | benchmark/structures/gxj_frequency_sketch.hpp:80-85 | A fresh object through change_capacity: usable exactly for a capacity from 1 to 2^30, a unit that fits and a first table large enough for all levels; nothing recorded and no reset running |
| GxjSketchClass.GxjSketch.ChangeCapacity | benchmark/structures/gxj_frequency_sketch.hpp:87-114 | Throws invalid_argument exactly on n <= 0, changing nothing, and length_error exactly when the rounded size is negative as an int; otherwise all counters, size_ and ref_cnt_ are zero, and the object is usable if and only if the levels reserved for the arguments hold the object's own unit and none of their tables is empty |
| GxjSketchClass.GxjSketch.IncLazyAddCnt | benchmark/structures/gxj_frequency_sketch.hpp:272-286 | Exactly the node's lazy counters go up by one; size_ grows by the node's width, also when no counter changes, which is so exactly when the least of the four is 15 |
| GxjSketchClass.GxjSketch.IncDyadicCnt | benchmark/structures/gxj_frequency_sketch.hpp:289-302 | Exactly the node's dyadic counters go up by one; size_ grows by one, also when no counter changes, which is so exactly when the least of the four is 15 |
| GxjSketchClass.GxjSketch.TryEstAdd | benchmark/structures/gxj_frequency_sketch.hpp:227-238 | On a node of power-of-two width the access is sampled exactly when the access counter modulo the width is below the number of granules accessed, len of every width counter values |
| GxjSketchClass.GxjSketch.InnerRecordAccess | benchmark/structures/gxj_frequency_sketch.hpp:240-269 | Ends for every valid visit, wrapped or not, stays inside tables and tree, and makes exactly the bumps and the growth of size_ that the theorems speak of |
| GxjSketchClass.GxjSketch.RecordAccess | benchmark/structures/gxj_frequency_sketch.hpp:211-224 | Dropped while a reset runs; otherwise advances the access counter once and bumps exactly what the access, drawn from that counter, bumps |
| GxjSketchClass.GxjSketch.GetCounter | benchmark/structures/gxj_frequency_sketch.hpp:185-209 | The least of the node's four lazy, or four dyadic, counters |
| GxjSketchClass.GxjSketch.InnerFrequency | benchmark/structures/gxj_frequency_sketch.hpp:151-181 | The imperative recursion returns the estimate that the theorems speak of |
| GxjSketchClass.GxjSketch.Frequency | benchmark/structures/gxj_frequency_sketch.hpp:133-149 | The estimate for the granules of the given bytes, read in the block of the first; not positive when the query reaches the unit's end |
| GxjSketchClass.GxjSketch.Reset | benchmark/structures/gxj_frequency_sketch.hpp:443-456 | Every word of every level is halved, and so are size_ and ref_cnt_ |
| GxjSketchClass.GxjSketch.TryReset | benchmark/structures/gxj_frequency_sketch.hpp:358-375 | Starts a reset exactly when size_ has reached twice the capacity, even while another runs |
| GxjSketchClass.GxjSketch.FinishReset | benchmark/structures/gxj_frequency_sketch.hpp:361-365 | The background thread halves everything and then lets records in again |
| IntervalRange.TouchesHolders | benchmark/structures/interval_sketch.hpp:240-271 | An access to a granule bumps every tree node that holds it, on every level |
| IntervalRange.ExactAppend | benchmark/structures/interval_sketch.hpp:291-341 | Bumping a key several times in one access raises its count by that number, capped |
| IntervalRange.OpDominates | benchmark/structures/interval_sketch.hpp:211-271 | Each access and each reset moves a node's counter at least as high as it moves the counter of any granule below it |
| IntervalRange.NodeDominates | benchmark/structures/interval_sketch.hpp:211-271 | After any run a node's count is at least that of every granule it holds |
| IntervalRange.NeverUnderestimates | benchmark/structures/interval_sketch.hpp:133-181 | For every hash and every run of accesses and resets, a query is at least the sum over its granules of the exact counter that goes up to 15 and is halved per reset |
| IntervalRange.WrappedEstimate | benchmark/structures/interval_sketch.hpp:133-181 | A query that reaches the unit's end is zero, in any tables |
| IntervalExact.TouchedOnce | benchmark/structures/interval_sketch.hpp:240-271 | The recursion bumps each node of the tree exactly once if the node begins before right (or with the root) and ends after left, and otherwise not |
| IntervalExact.TouchedIsMet | benchmark/structures/interval_sketch.hpp:240-271 | It bumps nothing else: every bump is one of such a node |
| IntervalExact.OpReaches | benchmark/structures/interval_sketch.hpp:211-271 | In bytes: an access bumps a node of a unit's block once if it is to that unit and block and reaches the node, and otherwise not |
| IntervalExact.NodeCountIsExact | benchmark/structures/interval_sketch.hpp:211-352 | After any run the exact counter of a node is the number of accesses that reached it, capped at 15 and halved per reset |
| IntervalExact.CleanQueryExact | benchmark/structures/interval_sketch.hpp:133-181 | When each counter that a query reads has a collision-free row, the answer is the sum over the covered nodes of the width times that number; zero for a query that reaches the unit's end |
| IntervalExact.UntouchedIsZero | benchmark/structures/interval_sketch.hpp:133-181 | That sum is 0 when no access kept reaches a covered node |
| IntervalSketchClass.IntervalSketch.constructor | benchmark/structures/interval_sketch.hpp:80-85 | A fresh object through change_capacity: usable exactly for a capacity from 1 to 2^30, a unit that fits and a first table large enough for all levels; nothing recorded and no reset running |
| IntervalSketchClass.IntervalSketch.ChangeCapacity | benchmark/structures/interval_sketch.hpp:87-114 | Throws invalid_argument exactly on n <= 0, changing nothing, and length_error exactly when the rounded size is negative as an int; otherwise all counters, size_ and ref_cnt_ are zero, and the object is usable if and only if the levels reserved for the arguments hold the object's own unit and none of their tables is empty |
| IntervalSketchClass.IntervalSketch.IncDyadicCnt | benchmark/structures/interval_sketch.hpp:291-304 | Exactly the node's dyadic counters go up by one; size_ grows by one, also when no counter changes, which is so exactly when the least of the four is 15 |
| IntervalSketchClass.IntervalSketch.InnerRecordAccess | benchmark/structures/interval_sketch.hpp:240-271 | Bumps every visited node down to single granules, in order; size_ grows by their number; ends also for wrapped accesses |
| IntervalSketchClass.IntervalSketch.RecordAccess | benchmark/structures/interval_sketch.hpp:211-271 | Dropped while a reset runs; otherwise the counter of each tree node, in any unit and block, is bumped once if [left, right) reaches the node and else not at all, and size_ grows by the number of bumps |
| IntervalSketchClass.IntervalSketch.GetDyadicCnt | benchmark/structures/interval_sketch.hpp:200-209 | The least of the node's four dyadic counters, times the width |
| IntervalSketchClass.IntervalSketch.InnerFrequency | benchmark/structures/interval_sketch.hpp:151-181 | The imperative recursion returns the estimate that the theorems speak of |
| IntervalSketchClass.IntervalSketch.Frequency | benchmark/structures/interval_sketch.hpp:133-149 | The estimate for the granules of the given bytes, read in the block of the first; zero when the query reaches the unit's end |
| IntervalSketchClass.IntervalSketch.Reset | benchmark/structures/interval_sketch.hpp:444-458 | Every word of every level is halved, and so are size_ and ref_cnt_ |
| IntervalSketchClass.IntervalSketch.TryReset | benchmark/structures/interval_sketch.hpp:360-377 | Starts a reset exactly when size_ has reached twice the capacity, even while another runs |
| IntervalSketchClass.IntervalSketch.FinishReset | benchmark/structures/interval_sketch.hpp:363-367 | The background thread halves everything and then lets records in again |
| SketchRuns.RecordAll | benchmark/structures/gxj_frequency_sketch.hpp:211-224 | Any sequence of accesses leaves the object in the state of the corresponding history, with successive counter values |
| SketchRuns.RecordAllThenAsk | benchmark/structures/gxj_frequency_sketch.hpp:133-286 | On the object, for every hash: a one-granule query after any accesses returns at least min(15, number of accesses covering it) |
| SketchRuns.RecordAllThenAskRange | benchmark/structures/gxj_frequency_sketch.hpp:133-286 | On the object: a clean range query after any accesses returns exactly their overlaps and sampling errors |
| SketchRuns.RepeatBetweenQueries | benchmark/structures/gxj_frequency_sketch.hpp:133-286 | On the object: between two queries, repeating an access for whole periods raises the answer by exactly the repetitions times the shared granules |
| SketchRuns.NextGranule | benchmark/structures/gxj_frequency_sketch.hpp:215-216 | A query of one granularity that does not reach the unit's end spans exactly one granule, aligned or not |
| SketchRuns.PerformAll | benchmark/structures/interval_sketch.hpp:211-224 | Any sequence of records, try_reset, must_reset and completions of the background reset leaves the object in the state that the sequence amounts to: which resets start follows from size_, and records in between are dropped |
| SketchRuns.PerformAllThenAsk | benchmark/structures/interval_sketch.hpp:133-181 | On the object, for every hash: a query after any such sequence is at least the sum of the exact capped, aged counters of its granules, over the records that were not dropped. When it reads cleanly it is exactly the sum over the covered nodes of the width times the capped, aged number of kept accesses that reach the node, and 0 if none does |
| ResetRace.RunIsPartlyHalved | benchmark/structures/interval_sketch.hpp:445-455 | At every moment of the background reset exactly the words before its position are halved |
| ResetRace.CanFinish | benchmark/structures/interval_sketch.hpp:445-455 | A reset stopped at any moment can go on to where all tables are halved |
| ResetRace.MomentRead | benchmark/structures/interval_sketch.hpp:307-311 | A counter read at any moment of the reset is between half its old value and its old value |
| ResetRace.ResetMin | benchmark/structures/interval_sketch.hpp:444-458 | After the whole reset the least row of every key is half what it was |
| ResetRace.GxjQueryBetween | benchmark/structures/gxj_frequency_sketch.hpp:358-375 | However the counter reads of a query interleave with the reset, it returns a value between that of the reset tables and that of the old ones |
| ResetRace.IntervalQueryBetween | benchmark/structures/interval_sketch.hpp:360-377 | The same for interval_sketch, and the bounds are close: 2F' <= F <= 2F' + (right - left) |
| ResetRace.GxjQueryAtMoment | benchmark/structures/gxj_frequency_sketch.hpp:151-181 | A query whose reads all fall at one moment of the reset returns the estimate on the tables of that moment |
| ResetRace.IntervalQueryAtMoment | benchmark/structures/interval_sketch.hpp:151-181 | The same for interval_sketch |
| CountMinSketchClass.CountMinSketch.constructor | benchmark/structures/count_min_sketch.hpp:60-65 | A fresh object through change_capacity, usable exactly when the capacity is positive |
| CountMinSketchClass.CountMinSketch.ChangeCapacity | benchmark/structures/count_min_sketch.hpp:67-75 | Throws exactly on n <= 0; otherwise the words are kept, cut off or followed by zeros, size_ is zero; an empty table becomes a sketch with all counters zero, and a size that rounds to the present one keeps every count |
| CountMinSketchClass.CountMinSketch.InnerRecordAccess | benchmark/structures/count_min_sketch.hpp:119-133 | Exactly the four counters of the key go up, each once: the tables count the recorded values with this one appended |
| CountMinSketchClass.CountMinSketch.Frequency | benchmark/structures/count_min_sketch.hpp:96-107 | Of the values recorded: the least over the rows of min(15, records with the same row index and low two hash bits); at least min(15, records of t), with equality if in some row no other recorded value has t's cell |
| CountMinSketchClass.RecordOneThenAsk | benchmark/structures/count_min_sketch.hpp:96-133 | A key never recorded answers 0 after a record of another, if some row tells the two apart |
| CountMinSketchClass.OccurrencesAreTally | benchmark/structures/count_min_sketch.hpp:119-133 | A key's bumps are the occurrences of its value among those recorded |
| CountMinSketchClass.SharingIsTally | benchmark/structures/count_min_sketch.hpp:135-196 | The bumps that reach a key's cell in a row are the recorded values with the same row index and low two hash bits |
| HierarchicalSketchClass.HierarchicalSketch.constructor | benchmark/structures/hierarchical_frequency_sketch.hpp:60-64 | A fresh object through change_capacity, usable exactly when the capacity is positive |
| HierarchicalSketchClass.HierarchicalSketch.ChangeCapacity | benchmark/structures/hierarchical_frequency_sketch.hpp:66-74 | Throws exactly on n <= 0; otherwise the words are kept, cut off or followed by zeros; an empty table becomes a sketch with all counters zero, and a size that rounds to the present one keeps every count |
| HierarchicalSketchClass.HierarchicalSketch.RecordAccess | benchmark/structures/hierarchical_frequency_sketch.hpp:102-122 | Bumps one key per granule, ceil(size / granularity) of them from the granule of t on; size_ grows by their number |
| HierarchicalSketchClass.HierarchicalSketch.Frequency | benchmark/structures/hierarchical_frequency_sketch.hpp:81-100 | For size > 0 and every hash: the floored average over the granules of the least of the four rows' capped, aged cell counts; between the floored average of the exact counts and 15, and equal to the former when each granule has a collision-free row |
| HierarchicalSketchClass.HierarchicalSketch.DoReset | benchmark/structures/hierarchical_frequency_sketch.hpp:124-130 | Halves every counter and size_ exactly when size_ has reached twenty times the table size |
| HierarchicalRuns.BumpsOnce | benchmark/structures/hierarchical_frequency_sketch.hpp:102-122 | A record bumps each granule from that of t on, ceil(size / granularity) of them, exactly once, and no other |
| HierarchicalRuns.ExactIsGranuleCount | benchmark/structures/hierarchical_frequency_sketch.hpp:102-130 | The exact counter of a granule's key is the number of accesses that cover the granule, capped at 15 and halved per reset |
| HierarchicalRuns.BumpedIsAccessed | benchmark/structures/hierarchical_frequency_sketch.hpp:102-122 | Only granules that some access covers are ever bumped |
| HierarchicalRuns.PrivateIsCollisionFree | benchmark/structures/hierarchical_frequency_sketch.hpp:81-100 | A row in which no other granule accessed has the same row index and low two hash bits is free of collisions |
| HierarchicalRuns.PerformAll | benchmark/structures/hierarchical_frequency_sketch.hpp:102-130 | Any sequence of record_access and do_reset leaves the object in the state of the corresponding operations; which resets take effect follows from size_ |
| HierarchicalRuns.PerformAllThenAsk | benchmark/structures/hierarchical_frequency_sketch.hpp:81-130 | On the object, for every hash: after any such sequence the answer is at least the floored average of the exact capped, aged granule counts and at most 15; it is that average when each granule asked for has a row where no other granule accessed has its cell; a fresh sketch answers 0 |
| RangeFrequencySketchClass.RangeFrequencySketch.constructor | benchmark/structures/range_frequency_sketch.hpp:64-69 | No unit has counters yet; a table is allocated exactly for a positive capacity |
| RangeFrequencySketchClass.RangeFrequencySketch.ChangeCapacity | benchmark/structures/range_frequency_sketch.hpp:71-79 | Throws exactly on n <= 0; otherwise size_ is zero and the counters of all units stay |
| RangeFrequencySketchClass.RangeFrequencySketch.RecordAccess | benchmark/structures/range_frequency_sketch.hpp:117-136 | The access stays inside the unit's vector exactly when its granules lie in the unit; then each 16-bit counter of each unit is the number of accesses that counted its granule, modulo 2^16, and size_ grows by the granules counted |
| RangeFrequencySketchClass.RangeFrequencySketch.CountUp | benchmark/structures/range_frequency_sketch.hpp:128-134 | The loop raises the counters of its range by one each, modulo 2^16, and no others; it leaves the vector exactly when the range is longer |
| RangeFrequencySketchClass.RangeFrequencySketch.Frequency | benchmark/structures/range_frequency_sketch.hpp:97-115 | No counter past the vector is read exactly when the unit is unknown or the granules lie in it; then the answer is the sum over the granules of the exact 16-bit counts of the whole history |
| RangeFrequencySketchClass.TouchesAllCounted | benchmark/structures/range_frequency_sketch.hpp:117-136 | interval_sketch touches every granule this sketch counts exactly when the size is a multiple of the granularity or the odd bytes reach into a further granule |
| RangeFrequencySketchClass.CountsInBytes | benchmark/structures/range_frequency_sketch.hpp:117-136 | An access counts the granules that end after its first byte and begin before size bytes from the start of that byte's granule |
| RangeFrequencySketchClass.GranuleAtLeastHits | benchmark/structures/interval_sketch.hpp:211-271 | For such accesses the capped counter per granule reaches the exact count, cut at 15 |
| RangeFrequencySketchClass.IntervalDominates | benchmark/structures/interval_sketch.hpp:133-181 | Without resets an interval_sketch query is at least the sum of range_frequency_sketch's counters, each cut at 15, for every hash |
| Comparison.CappedIsCounter | benchmark/structures/range_frequency_sketch.hpp:97-115 | The sum of the counters cut at 15 is the sum of the counters exactly when none of them is above 15 |
| Comparison.RecordBothThenAsk | benchmark/structures/range_frequency_sketch.hpp:97-136 | On two objects given the same aligned accesses, for every hash: interval_sketch answers at least the sum of the exact counters cut at 15, and so at least range_frequency_sketch's answer when none is above 15 |
| Protocol.InitialInv | exp_utils/manager.py:18-28 | The invariant holds at the start, whatever the store contains |
| Protocol.ManagerKeepsInv | exp_utils/manager.py:63-142 | Every Redis command of the manager, in any state, keeps the invariant |
| Protocol.WorkerKeepsInv | exp_utils/worker.py:41-143 | Every Redis command or process action of any worker keeps the invariant |
| Protocol.InvAlways | exp_utils/manager.py:63-230 | The invariant holds in every state of every run, for any number of workers and any interleaving |
| Protocol.AssertsHold | exp_utils/manager.py:71-88 | The two asserts that a hash is empty never fail, and neither inconsistent-ack branch is ever taken: the manager aborts only on a timeout or on missing health reports |
| Protocol.RunningAfterAllStarted | exp_utils/manager.py:136-142 | The status is RUNNING only while every worker has launched its server once and sent its start ack |
| Protocol.EndBarrier | exp_utils/manager.py:201-210 | Once the wait for end acks is over, every worker has seen END, killed its server and sent exactly one end ack |
| Protocol.NoStaleAck | exp_utils/manager.py:85-88 | While end acks are awaited, no ack in the hash stems from the start phase: each was sent after its worker killed its server |
| Protocol.AtMostOneLaunch | exp_utils/worker.py:133-142 | No worker launches a second server, also when the manager gives up half way |
| Protocol.TimeoutIsReal | exp_utils/manager.py:89-92 | A wait is given up exactly at poll number rounds + 1, counted over the run, when some worker has not sent this phase's ack |
| Protocol.RoundIsPolls | exp_utils/manager.py:66-93 | ack_now_round is the number of polls made since the wait began, never above the rounds allowed |
| Protocol.AllAcked | exp_utils/manager.py:73-78 | As many acks as workers means that all workers have acked: the key sets are equal |
| ProtocolRuns.CanComplete | exp_utils/manager.py:95-210 | For any number of workers and any earlier store, some interleaving takes the experiment through both barriers to its end |
| ProtocolProgress.GivesUpExactly | exp_utils/manager.py:89-92 | The manager gives up exactly on a missing health report, and at poll number rounds + 1 of a wait in which some worker has not acked |
| ProtocolProgress.GivingUpIsFinal | exp_utils/manager.py:224-230 | Having given up, its next step sets ERROR, and status and manager stay so in every continuation |
| ProtocolProgress.TimesOut | exp_utils/manager.py:66-93 | While acks are missing, whatever the workers do in between: waiting for rounds polls, given up at the next, ERROR with the step after it |
| ProtocolProgress.DeadWorkerTimesOut | exp_utils/manager.py:66-93 | A worker that takes no step any more before its ack makes the experiment end in ERROR, at the latest rounds + 2 manager steps after the wait began |
| ProtocolProgress.HeartStops | exp_utils/worker.py:66-80 | Once END or ERROR is set, a worker at its heartbeat kills its server within three own steps; within five it has acked END once, or has exited without an ack, as it does when the status was ERROR throughout |
| ProtocolProgress.LateWorkerNeverEnds | exp_utils/worker.py:105-111 | A worker still in worker_wait_exp_init when END is set crashes within two own steps; its server keeps running and the manager never passes the end barrier |
| ProtocolProgress.EndsIffNoneLate | exp_utils/manager.py:201-210 | With END set, some continuation ends the experiment if and only if no worker is in worker_wait_exp_init or crashed there |
| ProtocolProgress.Beats | exp_utils/worker.py:66-68 | As long as the status is RUNNING, check and report alternate |
| Md5.PaddingConforms | include/rest_rpc/md5.hpp:50-78 | The byte-indexed padding is the appended sequence of sections 3.1 and 3.2 of RFC 1321 exactly for messages below 2^29 bytes |
| Md5.PaddingInjective | include/rest_rpc/md5.hpp:60-78 | Different messages have different padded forms |
| Md5.CodePaddingInjective | include/rest_rpc/md5.hpp:50-78 | The code's own padding is injective on messages below 2^32 - 72 bytes, the lengths whose padded length does not wrap around |
| Md5.WrappedPaddingForgets | include/rest_rpc/md5.hpp:50-52 | Every longer message shares its padded form with another of the same length |
| Md5.LengthBytesMean | include/rest_rpc/md5.hpp:71-73 | The eight length bytes of section 3.2 of RFC 1321 write the number of bits, low-order byte first |
| Md5.WordAgrees | include/rest_rpc/md5.hpp:82-95 | Or-ing shifted bytes gives the word with its low-order byte first |
| Md5.RoundData | include/rest_rpc/md5.hpp:98-120 | The sixteen words of a block of the padded message, low-order byte first |
| Md5.MixAgrees | include/rest_rpc/md5.hpp:124-136 | The four optimised mixing expressions are F, G, H and I of section 3.4 of RFC 1321 |
| Md5.OrderAgrees | include/rest_rpc/md5.hpp:142-153 | The index formulas give the word orders listed in section 3.4 of RFC 1321 |
| Md5.RotationAgrees | include/rest_rpc/md5.hpp:155-163 | Shift-or with the table's amounts is the rotation by the amounts of section 3.4 of RFC 1321, in each round and turn |
| Md5Sines.TableIsSine | include/rest_rpc/md5.hpp:22-33 | Each of the 64 constants is T[i] of section 3.4 of RFC 1321, the integer part of 4294967296 times abs(sin(i)), for any sine and cosine that obey the angle addition formulas and agree with those of one radian to 35 decimals |
| Md5Sines.AllNear | include/rest_rpc/md5.hpp:22-33 | Fixed-point rotations by one radian stay within 8 * 2^i units in the 36th decimal of sine and cosine of i |
| Md5Sines.SomeSine | include/rest_rpc/md5.hpp:22-33 | Functions as TableIsSine asks for exist |
| Md5.StepAgrees | include/rest_rpc/md5.hpp:165-177 | A register-shifting step is the RFC's [abcd k s i] operation on the registers in the order that operation names them |
| Md5.StartAgrees | include/rest_rpc/md5.hpp:37-38 | The code's initial data are the words A to D of section 3.3 of RFC 1321, from their listed bytes with the low-order byte first |
| Md5.AddAgrees | include/rest_rpc/md5.hpp:179-184 | Add is the four register additions that end a block in section 3.4 of RFC 1321 |
| Md5.SumAgrees | include/rest_rpc/md5.hpp:165-177 | The code's sum is a + F(b,c,d) + X[k] + T[i] of section 3.4 of RFC 1321 |
| Md5.ProcessMessage | include/rest_rpc/md5.hpp:186-198 | For every length the two loops are the fold of RFC 1321's sixty-four operations and final additions, from its initial words, over the blocks of the code's padded message; below 2^29 bytes that is the RFC's digest |
| StreamBufferClass.StreamBuffer.constructor | thirdparty/asio/asio/basic_streambuf.hpp:131-141 | An empty queue with the given maximum |
| StreamBufferClass.StreamBuffer.Size | thirdparty/asio/asio/basic_streambuf.hpp:158-161 | The length of the input sequence, never above max_size |
| StreamBufferClass.StreamBuffer.Reserve | thirdparty/asio/asio/basic_streambuf.hpp:308-346 | Throws exactly when size() + n > max_size(); otherwise room for n bytes is made and the input sequence is kept. After a throw the input sequence is overwritten by its own tail; it is unchanged, and the queue still valid, if and only if it repeats itself every gnext bytes, so whenever gnext is 0 or at least the size |
| StreamBufferClass.OverwrittenIsSame | thirdparty/asio/asio/basic_streambuf.hpp:321-340 | A sequence overwritten by its own tail is unchanged exactly when it repeats itself with that period |
| StreamBufferClass.ThrowOverwrites | thirdparty/asio/asio/basic_streambuf.hpp:214-219 | A reachable queue of at most three bytes whose input sequence bc becomes cc when prepare throws |
| StreamBufferClass.StreamBuffer.MoveDown | thirdparty/asio/asio/basic_streambuf.hpp:325 | The overlapping move copies the bytes as they were before it |
| StreamBufferClass.StreamBuffer.Prepare | thirdparty/asio/asio/basic_streambuf.hpp:214-219 | Throws exactly when size() + n > max_size(), leaving the input sequence as reserve does; otherwise n writable bytes follow an unchanged input sequence |
| StreamBufferClass.StreamBuffer.Fill | thirdparty/asio/asio/basic_streambuf.hpp:214-219 | Writing into the prepared bytes does not disturb the input sequence |
| StreamBufferClass.StreamBuffer.Commit | thirdparty/asio/asio/basic_streambuf.hpp:233-238 | The pointer moves by the count narrowed to an int, which is the count if and only if that is at most INT_MAX; then the first n prepared bytes, or all, are appended to the input sequence |
| StreamBufferClass.StreamBuffer.Consume | thirdparty/asio/asio/basic_streambuf.hpp:247-254 | The pointer moves by the count narrowed to an int, which is the count if and only if that is at most INT_MAX; then the first n input bytes, or all, are removed, in order, and what was consumed followed by the input sequence stays what was committed |
| StreamBufferClass.StreamBuffer.Underflow | thirdparty/asio/asio/basic_streambuf.hpp:263-274 | The first input byte without removing it; end of file exactly on an empty queue |
| StreamBufferClass.StreamBuffer.Overflow | thirdparty/asio/asio/basic_streambuf.hpp:283-306 | A byte is appended and returned; throws exactly when it is no end of file and size() == max_size(), and then nothing is lost; end of file appends nothing and something else than end of file is returned |
| WriteQueue.Connection.constructor | include/rest_rpc/connection.h:26-29 | An open connection with nothing queued |
| WriteQueue.Connection.Write | include/rest_rpc/connection.h:235-248 | Starts one write of header_ and the front message; never called while one is outstanding |
| WriteQueue.Connection.Response | include/rest_rpc/connection.h:47-60 | Queues the message; starts a write exactly when none is unfinished, and otherwise leaves header_ and the front message as they are |
| WriteQueue.Connection.Complete | include/rest_rpc/connection.h:250-262 | A successful completion sent the frame that was started, unchanged; a failed one closes the connection and sends nothing |
| WriteQueue.Connection.Pop | include/rest_rpc/connection.h:264-269 | Removes the front message and writes the next, if any |
| WriteQueue.Connection.Close | include/rest_rpc/connection.h:365-382 | Idempotent; the connection is closed |
| WriteQueue.Connection.WireIsPrefix | include/rest_rpc/connection.h:235-270 | The frames written are a prefix of the messages in the order pushed, whole and without duplicates |
| WriteQueue.Connection.WireIsRead | include/rest_rpc/rpc_client.hpp:487-560 | The client's reader recovers from the frames written the request id, type and content of the messages pushed, in order, up to the first with an empty body |
| WireFormat.HeaderRoundTrip | include/rest_rpc/const_vars.h:29-37 | The twenty bytes of a header, whatever the padding bytes, read back as the same five fields |
| WireFormat.FrameIsRead | include/rest_rpc/rpc_client.hpp:487-560 | A frame at the head of the bytes delivers its message and leaves the rest; an empty body ends the reading |
| WireFormat.ReaderRecovers | include/rest_rpc/rpc_client.hpp:487-560 | From any frames in a row the reader recovers the messages up to the first empty one |
| WireFormat.CutStream | include/rest_rpc/rpc_client.hpp:487-560 | A frame cut off at any byte adds nothing to what is delivered |
| WireFormat.RecoversAllIffNoneEmpty | include/rest_rpc/rpc_client.hpp:501-516 | All messages are recovered if and only if none is empty |
| WriteQueue.Run | include/rest_rpc/connection.h:47-270 | Over every interleaving of callers, completions and closes: the prefix property, at most one unfinished write, no write started after a failed one, and the client's reader delivers the messages pushed, as many as were written, up to the first empty one |

## Left out

- Sockets, timers, SSL, msgpack, ssh and scp, process control, sleeping and logging: input and output, or foreign code; they are steps of the environment where a protocol needs them.
- The Jenkins hash of detail.hpp: replaced by an arbitrary function, so that every bound holds for every hash; the row index is arbitrary too, with the code's own as an instance in TableIndex.
- benchmark/structures/exact.hpp, `contains`, `next_range`, `soft_reset`: not usable as references or never called.
- `record_access` and `avg_frequency` of count_min_sketch, `avg_frequency` of the range sketches: divisions by a possibly zero count and sums that are overwritten; only the per-key functions are modelled.
- `try_reset` of range_frequency_sketch: a loop that halves exact counters.
- Overflow of the ints `size_`, `ref_cnt_` and of a query's sum: unbounded in the model; byte offsets and sizes are unsigned.
- GxjSketchClass.GxjSketch.RecordAccess: asks that the keys of the block of t fit an int; beyond that `base` is narrowed and blocks may share keys.
- GxjSketchClass.GxjSketch.Frequency: the same.
- IntervalSketchClass.IntervalSketch.RecordAccess: the same.
- IntervalSketchClass.IntervalSketch.Frequency: the same.
- Accesses that reach or cross the unit's end: proved to terminate in both sketches and, for gxj, to record nothing; for interval_sketch the nodes that count them are stated, and no lower bound is claimed for the granules they meant.
- Lower bounds of gxj across resets: halving each level separately can lose more than halving the sum.
- A second reset in flight: the code does not prevent a try_reset or must_reset while a reset runs. TryReset starts it in the model too, but whole runs and interleaved queries are with one reset at a time.
- Objects whose levels do not hold their unit (LevelBounds), among them any built with granularity above the unit size: the code accepts them, but no recording or querying is modelled on them beyond the level at which it leaves the tables. Where log2 is taken of 0, and minus infinity converted to an int, the model reserves no level.
- CountMinSketchClass.CountMinSketch.ChangeCapacity: a later call that changes the size leaves old words at positions that keys no longer hash to; which words remain is stated, but no count is promised.
- HierarchicalSketchClass.HierarchicalSketch.ChangeCapacity: the same.
- Exceptions in constructors: the model's object stays unusable instead of not coming into being.
- HierarchicalSketchClass.HierarchicalSketch.Frequency: asks for size > 0, because the code divides by the number of granules.
- RangeFrequencySketchClass.RangeFrequencySketch.RecordAccess: of a write past the unit's vector, which the code does not check for, only when it happens is stated.
- RangeFrequencySketchClass.RangeFrequencySketch.Frequency: the same of a read.
- The std::vector tables are sequences held in fields that the methods reassign, so aliasing of tables is not modelled; nothing in the source aliases them.
- ResetRace.GxjQueryBetween: each word access is atomic, one reset runs, and records are dropped meanwhile; the C++ memory model is not part of this model.
- Fairness of the protocol's scheduling: progress is stated by the number of steps a process takes; abort cleanup, and the copying of results after the end barrier; an interrupt outside manager_exp_run; health report contents, which become an outcome the environment picks.
- Several processes of one worker name, and a second manager: one of each is assumed, as is a scan of the config hash that returns its entries at once.
- SwapEndian, Hash32, Hash64 and StringLength of md5.hpp: wrappers.
- Md5Sines.TableIsSine: that sine and cosine are the analytic functions enters as the angle addition formulas and the first 35 decimals for one radian.
- Md5.ProcessMessage: equality with the RFC's digest is stated below 2^29 bytes; from there on the padding differs (PaddingConforms), and that the digests then differ too is not claimed.
- StreamBufferClass.StreamBuffer.Commit: where the pointer goes when the count does not survive the narrowing to int is not modelled.
- StreamBufferClass.StreamBuffer.Consume: the same.
- A streambuf after a throwing `reserve` that overwrote its input sequence: the contents are stated, but no queue behaviour is claimed from there on.
- The client's outbox: its `clear_cache` can empty it under a write, so the server's invariant does not carry over.
