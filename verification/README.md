# Verification of the lightning locator

A Dafny model of the parts of the lightning locator that carry its state: the
insertion-ordered Robin Hood hash table, the trigger queue and locating loop,
the combination enumerators, the streaming codecs of the HTTP library, and the
worker pool. Check it with `dafny verify dfyconfig.toml`.

- **Ordered hash table** (`BitMask`, `RobinHood`, `Directory`, `Placement`,
  `PlainList`, `RangeSweep`, `TableFacts`, `OrderedHash`, `TableRun`). The class
  `OrderedHash` has the fields and loops of the original. `Valid()` says that
  the buckets list exactly the positions of the values, in Robin Hood order, and
  that some bucket is empty or at distance 0; it does not say that some bucket
  is empty, since a table can be completely full at one and at two buckets. Its
  abstract value is the list `values`. `TableRun` lifts the single operations
  to runs, and reads the list as a dictionary.
- **Locator** (`GpsTime`, `Trigger`, `TriggerQueue`, `LocatorRun`,
  `QueueSorting`, `StationPool`, `Candidates`, `Locator`, `ErasedPicks`). `LocatorRun` is the state machine
  over merge, idle, gap skip, deferral, location, drop and finish; its theorems
  speak of every run. The class `LocatingThread` has the loops of the original
  and records the run it makes. `ThreadLoc` is proved to make a run of the
  machine that takes exactly the batches it is given, by actions the code takes,
  and the theorems are drawn for that run. The solver, the residuals and the
  clock are arbitrary functions, the travel times a function that is 0 where the
  table has no entry.
- **Enumerators** (`Tuples`, `LigTools`, `PoolProduct`). The backtracking
  methods on shared vectors, against product, selection and filter.
- **Codecs** (`Bytes`, `Multipart`, `Hex`, `Chunked`, `ChunkedWriter`,
  `PeerChunks`, `Base64`). A stream is a byte sequence with a position whose reads return as
  much as a schedule says. The content provider of the chunked writer is
  arbitrary, and so is the largest `unsigned long`, which differs between
  platforms. `PeerChunks` describes bodies as any peer may write them.
- **Worker pool** (`WorkerPool`). Every interleaving of clients, workers,
  destructor, notifications and spurious wake-ups; the class `ThreadPool` holds
  the critical sections.

Where the properties one would expect fail, the model keeps the code and says
exactly when they hold:

- The triggers an accepted location erases are the ones it chose if and only if
  every pick is the first of its station in the pool (`ErasesItsPicks`): later
  triggers of a station carry index 0. `WrongTriggerGoes` is a queue on which
  the located trigger stays and an earlier one of its station goes. The queue
  theorems hold in either case.
- Range erase of the hash table looks at a bucket twice when a backward shift
  carries it from the front of the array to its end. `EraseRange` leaves a
  valid table if and only if `SweepSafe` holds of the buckets before the call;
  `WrapBreaksSweep` has a table of four buckets for which it does not. Erasing
  the end of the list is always safe.
- The load factor setter overwrites its clamped value. Among tables of up to
  2^top buckets a threshold never above the bucket count is guaranteed exactly
  for factors below 1 + 2^-top (`LoadFactorLeavesRoom`); the largest table is
  then the one that can fill up. An insertion needs a bucket to spare before or
  after growing (`HasSpace`): in a full table the probe for one would not end.
- A bucket keeps 32 bits of the hash, which select the right bucket for every
  hash exactly up to 2^32 buckets (`TruncationAgrees`). In larger tables a
  search finds a key exactly when they do so for its hash (`AtHome`,
  `LookupNeedsHome`); operations that look a key up ask for that.
- `GPSTime` differences are built from the fields, not from seconds. They are
  elapsed times exactly within one minute (`ExactWithinMinute`), so that the
  window and gap tests see nothing across a minute boundary (`WindowExact`,
  `GapExact`).
- The unpruned `getLocationPool` is a product only under the condition of
  `PoolExactlyWhen`: an empty list of a later station is not noticed.
- A chunked body is read back exactly when the provider ends it with `done` and
  no write before that is as long as the largest `unsigned long`
  (`ChunkedWriter.RoundTrip`); an empty write at the end of a call ends the
  content without a last chunk.
- A pool without workers accepts tasks and never runs them (`EmptyWhenGone`).

## Model

| member | source | states |
|---|---|---|
| TableRun.Run | include/ordered_hash.h:728-1469 | Over any sequence of append, insert at a position, assign, erase by key, by position and by range, unordered erase, erase_if, rehash, load factor changes and clear, with any hash function: the table stays valid and its list is exactly the replay of the plain list operations; it stops only before an operation that cannot look a key up by its truncated hash, has no room, or is an unsafe range erase |
| TableRun.Perform | include/ordered_hash.h:728-1469 | Each single operation does to the list what its plain counterpart does and keeps the table valid |
| TableRun.RunEffect | include/ordered_hash.h:1082-1366 | Seen as a dictionary, a run of operations by key acts key by key: keys stay distinct, order plays no part, unordered erase and erase remove the same pair |
| TableRun.StepEffect | include/ordered_hash.h:674-682 | The dictionary after one operation, for every operation that names keys or none |
| TableRun.PositionsEffect | include/ordered_hash.h:728-790 | Erasing positions removes exactly the keys that stood there |
| OrderedHashTable.OrderedHash.constructor | include/ordered_hash.h:489-511 | For any load factor above 0: an empty valid table with exactly the rounded number of buckets |
| OrderedHashTable.OrderedHash.Ordinary | include/ordered_hash.h:948-954 | Up to 2^31 buckets and a load factor of 1, any key can be inserted and any rehash has room |
| OrderedHashTable.OrderedHash.SetMaxLoadFactor | include/ordered_hash.h:948-954 | For any factor from 0 on: the clamp is overwritten, the factor is the argument itself and the threshold is the truncated product |
| OrderedHashTable.OrderedHash.FindKey | include/ordered_hash.h:1214-1231 | Even when the table is completely full or half way through erase_if, the early-stopping probe ends and finds a bucket of the key, or none exactly when no bucket leads to the key |
| OrderedHashTable.OrderedHash.Locate | include/ordered_hash.h:1201-1231 | For every key that its truncated hash leads home: the bucket found holds the position of the one pair with the key; none is found exactly when the key is absent |
| OrderedHashTable.OrderedHash.Find | include/ordered_hash.h:874-880 | find returns the position of the pair with the key, or the end exactly when there is none |
| OrderedHashTable.OrderedHash.InsertIndex | include/ordered_hash.h:1471-1497 | The displacement loop terminates (distance to an empty bucket), lists one more position than before, and keeps the Robin Hood order across the wrap; it asks for growth exactly when an entry comes to be more than 128 steps from home in a table filled to 3/20 or more |
| OrderedHashTable.OrderedHash.Reinsert | include/ordered_hash.h:1264-1284 | The same for the placement loop of a rehash |
| OrderedHashTable.OrderedHash.Refill | include/ordered_hash.h:1259-1285 | Placing all old entries one by one yields an ordered array with exactly the old listing |
| OrderedHashTable.OrderedHash.RehashImpl | include/ordered_hash.h:1233-1285 | A rehash to any count whose rounding holds the values gives exactly that many buckets, valid over unchanged values; nothing happens when the rounded count is the present one |
| OrderedHashTable.OrderedHash.Rehash | include/ordered_hash.h:956-960 | Values unchanged, and the least power of two that is at least the requested count and holds the values at the load factor; nothing happens when that is the present count |
| OrderedHashTable.OrderedHash.GrowOnHighLoad | include/ordered_hash.h:1534-1543 | Grows exactly when flagged or at the threshold, to twice the buckets or 1, and leaves a bucket to spare either way |
| OrderedHashTable.OrderedHash.Probe | include/ordered_hash.h:1376-1390 | The probe that opens an insertion finds the key if it is there; otherwise it has reached a bucket at which an entry with this hash may be put |
| OrderedHashTable.OrderedHash.BackwardShift | include/ordered_hash.h:1301-1312 | Terminates even in a full table; the result is the array with the run of entries up to the first free one moved back by one, and the Robin Hood order holds again |
| OrderedHashTable.OrderedHash.ShiftIndexesInBuckets | include/ordered_hash.h:1340-1354 | Every bucket index at or above the position is moved by the difference, no other |
| OrderedHashTable.OrderedHash.EraseValueFromBucket | include/ordered_hash.h:1314-1333 | The list loses the position, keeping its order, and the table is valid again |
| OrderedHashTable.OrderedHash.FindPlace | include/ordered_hash.h:1374-1401 | Present, full, or a bucket to spare at which the entry may be put, after growing where necessary |
| OrderedHashTable.OrderedHash.Emplace | include/ordered_hash.h:1439-1466 | The pair is in the list at the position, later positions have moved up, and the table is valid |
| OrderedHashTable.OrderedHash.Insert | include/ordered_hash.h:1371-1409 | Appends unless the key is present or there are 2^32 - 2 values or more; the answer says which, and a table of at most 2^31 buckets never refuses |
| OrderedHashTable.OrderedHash.InsertAtPosition | include/ordered_hash.h:1414-1469 | Inserts before the position, with the same exceptions |
| OrderedHashTable.OrderedHash.InsertOrAssign | include/ordered_hash.h:673-682 | Assigns in place when the key is present, appends otherwise, refusing only as Insert does |
| OrderedHashTable.OrderedHash.Erase | include/ordered_hash.h:1356-1366 | Removes the pair with the key keeping the order of the others; counts 1, or 0 and changes nothing |
| OrderedHashTable.OrderedHash.EraseAt | include/ordered_hash.h:728-743 | Removes the pair at a position and returns the position of its successor |
| OrderedHashTable.OrderedHash.UnorderedErase | include/ordered_hash.h:1082-1109 | The last pair takes the place of the one erased |
| OrderedHashTable.OrderedHash.SwapWithLast | include/ordered_hash.h:1094-1104 | The exchange of two values and of the two bucket indexes keeps the table valid |
| OrderedHashTable.OrderedHash.Clear | include/ordered_hash.h:629-636 | Empties list and buckets |
| OrderedHashTable.OrderedHash.EraseIf | include/ordered_hash.h:1114-1153 | The list becomes its order-preserving filter, the number removed is returned, and the whole table stays valid |
| OrderedHashTable.OrderedHash.BucketOf | include/ordered_hash.h:1117-1119 | In the middle of the compaction the lookup still finds the bucket of the element at hand |
| OrderedHashTable.OrderedHash.ClearBucket | include/ordered_hash.h:1121-1125 | Clearing a bucket removes exactly its position from what the buckets list |
| OrderedHashTable.OrderedHash.Decide | include/ordered_hash.h:1139-1148 | One pass keeps: the bucket indexes cover exactly the kept front and the undecided rest |
| OrderedHashTable.OrderedHash.EraseRange | include/ordered_hash.h:745-790 | The list is the old one without the range; the table is valid afterwards if and only if no pass of the sweep moves an entry back that it has already renumbered. So always at the end of the list, when no entry numbered at or above the end sits before its home, and when no probe chain wraps, which it preserves |
| OrderedHashTable.OrderedHash.SweepBucket | include/ordered_hash.h:769-787 | One pass over a bucket: cleared with a backward shift, renumbered, or passed; the Robin Hood order is kept |
| OrderedHashTable.OrderedHash.SweepBuckets | include/ordered_hash.h:768-787 | The loop over the buckets leaves exactly the swept buckets and keeps the Robin Hood order |
| RangeSweep.SweepExact | include/ordered_hash.h:768-787 | For any listing: the swept buckets list exactly the shortened list if and only if the sweep is safe, a condition on the buckets before the call |
| RangeSweep.NoWrapIsSafe | include/ordered_hash.h:758-787 | When bucket 0 is empty or at home the sweep is safe and leaves it so |
| RangeSweep.WrappedBelowIsSafe | include/ordered_hash.h:768-787 | The sweep is safe when every entry that sits before its home bucket is numbered below the end of the range |
| RangeSweep.SweepTotal | include/ordered_hash.h:775-783 | An unsafe sweep strictly lowers the total of the positions, so it must have lost or renumbered one twice |
| RangeSweep.WrapBreaksSweep | include/ordered_hash.h:768-787 | A valid table of four buckets with a wrapped chain on which range erase is unsafe |
| RobinHood.Chain | include/ordered_hash.h:1499-1511 | Every bucket between an entry and its home holds an entry at least as far from its own home as that bucket is |
| RobinHood.StopsInTime | include/ordered_hash.h:1215-1231 | The early stop is justified: an entry with the probed home lies among the buckets passed |
| RobinHood.Displace | include/ordered_hash.h:1474-1482 | Swapping with an entry closer to home keeps the order |
| RobinHood.Fill | include/ordered_hash.h:1495-1497 | So does filling the empty bucket reached, and a free bucket remains |
| RobinHood.RoomBoundsDist | include/ordered_hash.h:1499-1511 | With an empty bucket no distance reaches the number of buckets |
| RobinHood.ShiftBack | include/ordered_hash.h:1305-1311 | One swap of the backward shift moves the hole on and comes nearer to the bucket where it must stop |
| RobinHood.ShiftRunKeeps | include/ordered_hash.h:1301-1312 | A backward shift loses and adds no entry |
| Directory.Census | include/ordered_hash.h:1534-1543 | There are never more listed positions than buckets, and as many exactly when no bucket is empty, so that a probe for room would not end |
| TableFacts.LoadFactorLeavesRoom | include/ordered_hash.h:948-954 | Among tables of at most 2^top buckets the threshold never exceeds the number of buckets exactly for factors below 1 + 2^-top |
| TableFacts.Overfull | include/ordered_hash.h:948-954 | A table of n buckets can fill up exactly from a factor of 1 + 1/n on |
| TableFacts.LookupNeedsHome | include/ordered_hash.h:1214-1231 | A search that starts from the full hash finds a lone value exactly when its truncated hash selects the same bucket |
| TableFacts.SizeLimit | include/ordered_hash.h:244-247 | The maximum size is 2^32 - 2, and a table of at most 2^31 buckets never reaches it |
| TableFacts.ThresholdExact | include/ordered_hash.h:948-954 | The load threshold is the largest integer not above the factor times the number of buckets; at 3/4, three quarters of them rounded down |
| TableFacts.NeededExact | include/ordered_hash.h:956-960 | The buckets called for are the fewest that hold the values at the load factor |
| TableFacts.RoundedExact | include/ordered_hash.h:1242-1244 | A count is rounded to the power of two from it up to less than twice as much, and none stays none |
| TableFacts.RehashExact | include/ordered_hash.h:956-960 | What rehash settles on is the least power of two enough for the count and the values |
| RobinHood.HomeAndDistance | include/ordered_hash.h:1499-1522 | Home is the hash modulo the number of buckets, the next bucket one on modulo it, and the distance from home the difference modulo it |
| BitMask.MaskIsModulo | include/ordered_hash.h:1520-1522 | Masking a hash is reduction modulo the bucket count |
| BitMask.TruncationAgrees | include/ordered_hash.h:1499-1502 | The 32-bit hash leads to the same bucket as the full one, for every hash, exactly up to 2^32 buckets |
| BitMask.RoundUpToPowerOfTwo | include/ordered_hash.h:1628-1643 | The least power of two at or above the value up to 2^63; above that the addition wraps to 0 |
| BitMask.PowerTestExact | include/ordered_hash.h:1645-1647 | The bit trick recognises exactly the powers of two |
| LocatorRun.NeverReturns | ThreadLoc.cpp:112-334 | Over every run, with arbitrary batches, solver and clock: a (time, station) trigger that has left the queue never enters it again |
| LocatorRun.TimeNeverDecreases | ThreadLoc.cpp:157-160 | CurrentProcessingTime never goes back |
| LocatorRun.RunKeeps | ThreadLoc.cpp:112-334 | In every state of a run the queue is strictly increasing and free of removed triggers; whenever a merge can come, everything removed is at or before CurrentProcessingTime, gap-skipped heads included |
| LocatorRun.StepKeeps | ThreadLoc.cpp:112-334 | Every single step keeps that invariant |
| LocatorRun.MergeKeeps | ThreadLoc.cpp:114-124 | A merge of any batch, re-delivered triggers included, brings no removed trigger back and loses none that is queued |
| LocatorRun.MergeExact | ThreadLoc.cpp:114-124 | After a merge the queue holds exactly the keys it had and those of the triggers of the batch later than the processing time, and no trigger from anywhere else |
| LocatorRun.AdmittedExact | ThreadLoc.cpp:117-119 | A trigger of the batch is admitted exactly when it is later than the processing time |
| LocatorRun.BaseTime | ThreadLoc.cpp:152-157 | A deferral, a drop and a location set the processing time to the base line after the head |
| LocatorRun.SkipKeeps | ThreadLoc.cpp:145-150 | A head skipped at a gap stays strictly before the new head |
| LocatorRun.BaseAdvances | ThreadLoc.cpp:157-160 | A new base trigger moves the processing time past everything removed before |
| LocatorRun.LocatedEffect | ThreadLoc.cpp:319-329 | An accepted location erases exactly as many triggers as it has stations, however many of its indices are 0, all within the base line after the base trigger |
| LocatorRun.FirstPicksOnly | ThreadLoc.cpp:190-194 | When every index is the place of its pick, exactly the chosen positions go and the rest keeps its order |
| LocatorRun.LocatedQueue | ThreadLoc.cpp:319-329 | What is left is strictly increasing and part of the old queue |
| LocatorRun.StepShrinks | ThreadLoc.cpp:143-334 | Every skip, drop and location shortens the queue by exactly 1 or by its number of stations |
| LocatorRun.GapExact | ThreadLoc.cpp:145-150 | For base lines of up to 40 seconds the gap test finds exactly the gaps longer than the base line and the minute boundaries |
| LocatorRun.RunGuarantees | ThreadLoc.cpp:112-334 | For every run as a whole: no removed trigger is in any later state, the later triggers of each batch are in the queue after its merge, and the processing time is the base line after each base trigger and never goes back |
| ErasedPicks.ErasesItsPicks | ThreadLoc.cpp:178-194 | Whatever combination of a pool is accepted, with distinct stations in the window: the triggers erased are the ones chosen if and only if every pick is the first of its station in the pool |
| ErasedPicks.ErasesChosen | ThreadLoc.cpp:319-329 | The same for any accepted location whose late picks carry index 0: exactly when every index is the place of its pick |
| ErasedPicks.WrongTriggerGoes | ThreadLoc.cpp:190-194 | Six detections of five stations, their full pool and an accepted combination: the first detection of station 2 is erased, the located second one stays |
| TriggerQueue.EraseExact | ThreadLoc.cpp:326-329 | Erasing falling positions and then k times the front, one erase after the other, equals leaving those positions out and dropping k |
| TriggerQueue.SplitOrder | ThreadLoc.cpp:319-326 | The indices of a location, sorted downwards, are distinct falling positions followed by zeros |
| Candidates.ProcessCombinationPool | ThreadLoc.cpp:16-52 | The first combination with the least score; no combination of five or more triggers is solved better, and one of fewer counts as 10^12 |
| Candidates.WorstStation | ThreadLoc.cpp:227-240 | The station with the largest residual, of equal ones the smallest number |
| StationPool.Origins | ThreadLoc.cpp:178-194 | Every combination of the pool comes from distinct stations in the window; an index is the place of its trigger exactly for the first of a station, otherwise it is 0 and an earlier trigger of the station is queued |
| StationPool.CanErase | ThreadLoc.cpp:319-329 | All erasures of an accepted combination are in range |
| StationPool.PoolExact | ThreadLoc.cpp:165-197 | In a full pool no trigger has the opposite polarity of the head; a trigger of a station up to 39 seconds away is in it if and only if it lies in the minute of the head, no earlier, within the base line and the travel time and 0.1 ms, and its station did not come after eight others |
| Candidates.CandidatesExact | ThreadLoc.cpp:213-216 | The combinations of a pool are exactly the choices of one trigger of each station, every two within the travel time and 0.1 ms |
| Candidates.OnlyLastFits | ThreadLoc.cpp:222-249 | Of the pools tried only the last can have a fit |
| Candidates.GivesUpExact | ThreadLoc.cpp:223-224 | A station is given up exactly when more than six are left, there are combinations and the least score is above the threshold; there is a fit exactly when it is below |
| Locator.LocatingThread.constructor | ThreadLoc.cpp:91-105 | The thread starts with an empty queue and an empty recorded run |
| Locator.LocatingThread.BuildPool | ThreadLoc.cpp:165-197 | The pool files exactly the companions of the head: for stations up to 39 seconds away the triggers of its minute and not of opposite polarity, truly within the base line and the travel time and 0.1 ms, but for stations that come after eight others; by station in order of appearance, and in queue order |
| Locator.LocatingThread.Combine | ThreadLoc.cpp:215-221 | The candidates and the first of them with the least score; without candidates the earlier minimum stays |
| Locator.LocatingThread.DropWorst | ThreadLoc.cpp:226-241 | Exactly the station that fits worst in the best candidate leaves the pool |
| Locator.LocatingThread.TryCombinations | ThreadLoc.cpp:206-249 | The pools tried are the full one and, up to twice, the one before without its worst-fitting station, as long as that has more than six stations and candidates, all above the threshold; a location is accepted if and only if one of these pools has a candidate below the threshold, and it is the best of the last, which is the only one that can |
| Locator.LocatingThread.EraseIndices | ThreadLoc.cpp:326-329 | The loop of erasures |
| Locator.LocatingThread.Pass | ThreadLoc.cpp:143-334 | Every pass adds one action to the run, one the code takes: it skips the head before a gap, otherwise waits exactly when the base trigger is too recent, takes the location that the search of the full pool finds, or drops the head when none of the pools tried has a fit |
| Locator.LocatingThread.TryBase | ThreadLoc.cpp:152-160 | The part of a pass that makes the head the base trigger |
| Locator.LocatingThread.LocateOrDrop | ThreadLoc.cpp:165-334 | The rest of a pass: the location found from the full pool of at least five stations is taken, or the head dropped when there are fewer or no pool tried has a fit |
| Locator.LocatingThread.MergeBatch | ThreadLoc.cpp:114-124 | The merge loop, sort and removal of duplicates: the queue is strictly increasing and has exactly the keys it had and those of the triggers later than the processing time, each trigger being an old or such a later one |
| Locator.LocatingThread.ThreadLoc | ThreadLoc.cpp:112-338 | For any sequence of batches the loops terminate; the thread makes a run of the state machine that takes exactly these batches in turn, by actions the code takes, in which every later trigger of a batch is queued at its merge, no trigger that has left the queue returns, and the processing time follows the base triggers and never goes back |
| Locator.LocatingThread.Turn | ThreadLoc.cpp:114-336 | One turn of the outer loop takes exactly its batch, or is idle |
| Locator.LocatingThread.PassOn | ThreadLoc.cpp:143-336 | A pass starts no turn and adds an action the code takes |
| QueueSorting.SortTriggers | ThreadLoc.cpp:120 | Some ascending permutation |
| QueueSorting.Unique | ThreadLoc.cpp:121 | One trigger of each key stays, in strictly increasing order |
| QueueSorting.SortFalling | ThreadLoc.cpp:326 | The falling permutation of the indices |
| GpsTime.OrderAgrees | include/DataStruct.h:119-131 | On calendar times the field-wise order is the order of instants and the sign of the difference agrees with it |
| GpsTime.NeverUnderstates | include/DataStruct.h:179-188 | The difference of a later and an earlier time never understates the elapsed seconds; off by 40 or more unless both lie in one minute |
| GpsTime.ExactWithinMinute | include/DataStruct.h:179-188 | The difference is the elapsed time exactly within one minute |
| GpsTime.SmallDifferenceExact | include/DataStruct.h:179-188 | A difference from 0 to 40 is exact |
| GpsTime.MinusExact | include/DataStruct.h:179-188 | The difference is that of two numerals with two digits a field, and of the fractions |
| GpsTime.CalendarExact | include/GPSTimeAlgorithm.h:217-240 | Which fields are a time stamp, and its instant, by the month lengths and the Gregorian rule for leap years in closed form |
| GpsTime.AddActPointSec | include/GPSTimeAlgorithm.h:38-44 | The time stamp of exactly the instant that many seconds later or earlier, in any year |
| GpsTime.CarryOneSecond | include/GPSTimeAlgorithm.h:217-264 | The carry of a fraction outside [0, 1) keeps the instant and gives valid fields |
| Trigger.KeyOrder | include/DataStruct.h:267-277 | The order of triggers is total and strict on time and station |
| Trigger.BeforeExact | include/DataStruct.h:267-277 | Triggers are ordered by instant and those of one instant by station, and are equal when both agree |
| Trigger.WithinReachExact | LigTools.cpp:106-118 | For stations up to 39 seconds apart two triggers are within reach exactly when they lie in one minute and no further apart than the travel time and 0.1 ms |
| TriggerQueue.WindowBound | ThreadLoc.cpp:170-172 | A trigger that passes the window test is truly no later than the base line after the base trigger, whatever the base line |
| TriggerQueue.WindowExact | ThreadLoc.cpp:170-172 | For base lines of up to 40 seconds the test passes exactly the triggers of the same minute that lie in the window |
| LigTools.CombinationSearch.IsValid | LigTools.cpp:106-118 | A trigger fits exactly when it is within reach of every trigger chosen so far |
| LigTools.CombinationSearch.PermuteVector | LigTools.cpp:97-127 | Appends exactly what the search specification gives and restores current |
| Tuples.SearchIsMatching | LigTools.cpp:97-127 | Pruning is sound and complete: the search gives the tuples of the product that extend current, filtered, in product order |
| Tuples.MatchingFromNothing | LigTools.cpp:97-127 | From the empty tuple these are the tuples whose every pair meets the travel-time bound |
| Tuples.ProductAtRank | LigTools.cpp:104-124 | Each index tuple stands in the product exactly at its rank |
| Tuples.RankMonotone | LigTools.cpp:104-124 | Ranks follow the lexicographic order of index tuples, so each comes once |
| Tuples.AddressOf | LigTools.cpp:104-124 | Every place of the product belongs to an index tuple |
| Tuples.ProductSize | LigTools.cpp:97-127 | The product has the product of the lengths many tuples |
| LigTools.SelectionSearch.GenerateCombinations | LigTools.cpp:142-154 | Appends every completion of current to k numbers and restores current |
| LigTools.GetCombinations | LigTools.cpp:156-161 | The k-element selections |
| Tuples.SubsetsExact | LigTools.cpp:142-154 | A list of positions is generated exactly when it is strictly increasing, in range and of length k |
| Tuples.SubsetsSorted | LigTools.cpp:142-154 | In strict lexicographic order, so each once |
| Tuples.SubsetsCount | LigTools.cpp:142-154 | There are C(n, k) of them |
| Tuples.ChooseAll | LigTools.cpp:142-154 | One selection for k = n, none for k > n |
| LigTools.GetLocationPoolP | LigTools.cpp:163-189 | The concatenation over the selections of the searches through the selected lists |
| LigTools.AllStations | LigTools.cpp:163-189 | For k = n a single filtered product |
| LigTools.FromEachStation | LigTools.cpp:163-189 | A tuple is in the product exactly when it has one entry of each list, in order |
| LigTools.ExtendPool | LigTools.cpp:71-86 | The in-place growth by one station, copies first, then the first trigger onto the originals from the back |
| LigTools.GetLocationPool | LigTools.cpp:62-95 | The pool grown station by station |
| PoolProduct.GrownIsExtended | LigTools.cpp:71-86 | As a multiset the growth is extending each tuple by each trigger |
| PoolProduct.PoolIsProduct | LigTools.cpp:62-95 | Over non-empty lists the pool is the cartesian product as a multiset |
| PoolProduct.PoolExactlyWhen | LigTools.cpp:62-95 | It is the product exactly when there is a station and no list, or the first one, is empty; then its size is the product of the lengths |
| Multipart.ParseAll | ThirdParty/cpp-httplib/httplib.h:4477-4498 | For every way of cutting the stream into pieces, with the first waiting in the buffer, and every callback: what is delivered is the bytes before the first delimiter; without a delimiter all but at most a delimiter length held back; after a refusal some of those bytes, the last piece of them refused |
| Multipart.BodyParser.ParseBody | ThirdParty/cpp-httplib/httplib.h:4477-4498 | One call keeps: delivered and waiting bytes are the stream so far, or the delimiter has been found first where delivery ended; it fails exactly with a refused piece, all that was delivered then being from before the first delimiter |
| Multipart.BodyParser.ScanBody | ThirdParty/cpp-httplib/httplib.h:4477-4498 | The same for what waits in the buffer when the body begins |
| Multipart.BodyParser.StartWith | ThirdParty/cpp-httplib/httplib.h:4549-4557 | Comparison within the window |
| Multipart.BodyParser.BufFind | ThirdParty/cpp-httplib/httplib.h:4569-4592 | The first occurrence in the window, or the window size exactly when there is none |
| Multipart.BodyParser.BufAppend | ThirdParty/cpp-httplib/httplib.h:4594-4610 | The window moves to the front of a reused buffer and grows by the data |
| Multipart.BodyParser.BufErase | ThirdParty/cpp-httplib/httplib.h:4612 | The window loses its front |
| Multipart.NotDelivered | ThirdParty/cpp-httplib/httplib.h:4486-4495 | A delimiter split over two pieces cannot have begun in what was delivered |
| Hex.FromIToHex | ThirdParty/cpp-httplib/httplib.h:2305-2313 | The numeral of the number |
| Hex.ReadsNumeral | ThirdParty/cpp-httplib/httplib.h:3889-3892 | strtoul reads the numeral followed by a line end back, or gives the largest unsigned long, whatever that is |
| ChunkedWriter.ChunkedSink.Write | ThirdParty/cpp-httplib/httplib.h:4130-4155 | A chunk goes out for a non-empty write; an empty one ends the content |
| ChunkedWriter.ChunkedSink.Done | ThirdParty/cpp-httplib/httplib.h:4159-4203 | The last chunk and the final line end |
| ChunkedWriter.ChunkedSink.Provide | ThirdParty/cpp-httplib/httplib.h:4209-4220 | One call of the provider emits what its operations emit; the last of them decides whether there is more |
| ChunkedWriter.WriteContentChunked | ThirdParty/cpp-httplib/httplib.h:4121-4224 | Whatever the provider does with its sink in each call: what goes out is what the operations of the calls made emit, and it succeeds exactly when some call ends the content |
| Chunked.LineReader.Append | ThirdParty/cpp-httplib/httplib.h:2638-2650 | The two buffers together hold the line |
| Chunked.LineReader.GetLine | ThirdParty/cpp-httplib/httplib.h:2612-2636 | However long the line, it is the bytes up to and including the first line feed, or the rest; fails exactly at the end of the data |
| Chunked.ReadContentWithLength | ThirdParty/cpp-httplib/httplib.h:3827-3847 | Exactly that many bytes arrive, whatever each read returns, or it fails exactly when there are too few |
| Chunked.ReadChunk | ThirdParty/cpp-httplib/httplib.h:3889-3904 | One chunk of the body is read as the decoding says, or the body is malformed |
| Chunked.ReadsChunk | ThirdParty/cpp-httplib/httplib.h:3889-3904 | A chunk anywhere in the data is decoded as its payload and what follows |
| Chunked.RejectsChunk | ThirdParty/cpp-httplib/httplib.h:3889-3892 | A chunk as long as the largest unsigned long or longer makes the body malformed |
| Chunked.ReadTrailer | ThirdParty/cpp-httplib/httplib.h:3909-3927 | The trailer ends after an empty line, or it fails exactly when the data have none in time |
| Chunked.ReadContentChunked | ThirdParty/cpp-httplib/httplib.h:3875-3928 | For every stream and read schedule: content and end are those of the decoding of the data, and it fails exactly when that is malformed |
| PeerChunks.NumberExact | ThirdParty/cpp-httplib/httplib.h:3889 | strtoul reads digits of either case after blanks, a sign, a 0x prefix and leading zeros, up to whatever ends them, as the number they spell, or the largest one; a minus sign negates it |
| PeerChunks.NoNumber | ThirdParty/cpp-httplib/httplib.h:3889-3891 | Without a digit there is no number |
| PeerChunks.SizeRead | ThirdParty/cpp-httplib/httplib.h:3889-3892 | A size line of any peer, extension included, has the value of its digits |
| PeerChunks.ChunkIsRead | ThirdParty/cpp-httplib/httplib.h:3889-3904 | A chunk of any peer is read as its payload and what follows, unless it is as long as the largest unsigned long |
| PeerChunks.TrailerIsRead | ThirdParty/cpp-httplib/httplib.h:3909-3927 | Any trailer lines are passed up to the empty line, if and only if none is longer than 8192 bytes |
| PeerChunks.BodyIsRead | ThirdParty/cpp-httplib/httplib.h:3875-3928 | A body of such chunks, a zero size line and a trailer, anywhere in the data, is read as the concatenation of its chunks and ends after the empty line, if and only if no chunk and no trailer line is too long |
| PeerChunks.ReadFromPeer | ThirdParty/cpp-httplib/httplib.h:3875-3928 | So the reader delivers exactly the concatenation of what any peer sends, for every schedule of reads |
| PeerChunks.WriterIsPeer | ThirdParty/cpp-httplib/httplib.h:4130-4203 | The writer is such a peer: lower-case digits without leading zeros, CRLF, the payload, CRLF; its last chunk is a zero size and an empty trailer |
| ChunkedWriter.ReadsBack | ThirdParty/cpp-httplib/httplib.h:3875-3928 | Written chunks at any place of the data are decoded as the concatenation of the writes followed by what comes next |
| ChunkedWriter.ReadsEmitted | ThirdParty/cpp-httplib/httplib.h:3875-3928 | What any operations emit decodes to the concatenation of the writes before the first done, exactly when there is one and none of these writes is too long |
| ChunkedWriter.RoundTrip | ThirdParty/cpp-httplib/httplib.h:3875-3928 | Reader after writer, for every provider, every schedule of reads and every largest unsigned long: succeeds exactly when a done ends the content and no write before it is too long, and then yields the concatenation of these writes |
| ChunkedWriter.OneByOneWrites | ThirdParty/cpp-httplib/httplib.h:4121-4224 | For a provider that makes one non-empty write per call and ends with done, all calls are made and these writes are the content |
| Base64.Base64Encode | ThirdParty/cpp-httplib/httplib.h:2349-2375 | The accumulator loop, in wrapping 32-bit arithmetic, gives the encoding by groups of three bytes |
| Base64.PushAll | ThirdParty/cpp-httplib/httplib.h:2362-2365 | The inner loop pushes the symbols that are complete |
| Base64.Accumulate | ThirdParty/cpp-httplib/httplib.h:2359-2366 | What each byte adds, whatever has overflowed before |
| Base64.LengthOf | ThirdParty/cpp-httplib/httplib.h:2353-2372 | The length is 4 times the number of groups, rounded up |
| Base64.SymbolExact | ThirdParty/cpp-httplib/httplib.h:2350-2351 | The symbols are A to Z, a to z, 0 to 9, + and /, in this order |
| Base64.GroupExact | ThirdParty/cpp-httplib/httplib.h:2359-2366 | The four symbols of a group spell its 24 bits |
| Base64.LastGroupExact | ThirdParty/cpp-httplib/httplib.h:2367-2372 | A padded group spells its bytes followed by zero bits |
| Base64.EncodeThenDecode | ThirdParty/cpp-httplib/httplib.h:2349-2375 | Decoding gives back every byte string (section 4 of RFC 4648) |
| Base64.DecodesExactly | ThirdParty/cpp-httplib/httplib.h:2349-2375 | A text decodes to a byte string exactly when it is its encoding |
| WorkerPool.RunsEachOnce | include/threadpool.h:34-83 | In every interleaving tasks are taken in the order accepted, none runs more often than accepted, and once all workers have left everything accepted has finished exactly once |
| WorkerPool.RunKeeps | include/threadpool.h:34-83 | The invariant over every run; a stopped pool stays stopped and accepts nothing |
| WorkerPool.EmptyWhenGone | include/threadpool.h:34-36 | That no task is left when all workers are gone holds exactly for pools made with a worker |
| WorkerPool.NeverStuck | include/threadpool.h:43-48 | No wake-up is lost: with a task queued, or workers left after the stop, a step other than a spurious wake-up is possible |
| WorkerPool.Drains | include/threadpool.h:76-83 | After the stop at most a computed number of steps remain under any schedule, and at the end all workers, as many as were started, have left and every accepted task has finished |
| WorkerPool.StopShrinks | include/threadpool.h:43-51 | Every step of a stopped pool lowers that number |
| WorkerPool.KeepsWorkers | include/threadpool.h:34-51 | No step adds or loses a worker |
| WorkerPool.ThreadPool.constructor | include/threadpool.h:34-37 | Exactly as many workers as asked for are started, all ready, and nothing is queued |
| WorkerPool.ThreadPool.Enqueue | include/threadpool.h:54-73 | Accepted at the end of the queue exactly when the pool has not been stopped |
| WorkerPool.ThreadPool.Turn | include/threadpool.h:40-48 | The critical section of a worker: wait, leave, or take the front task |
| WorkerPool.ThreadPool.Finish | include/threadpool.h:50 | A running worker returns from its task and will look at the queue again |
| WorkerPool.ThreadPool.Stop | include/threadpool.h:76-81 | The stop flag is set and all workers are about to be notified |

## Left out

- Load factors as floats: the table's factor is a real number, 0.15f is 3/20, and the threshold is the truncated exact product. Negative factors, whose conversion to an unsigned number has no meaning, and a constructor with factor 0 are excluded.
- Bucket counts above 2^63, for which the original throws before it rounds them.
- OrderedHashTable.OrderedHash.Insert: where the key's truncated hash leads to another bucket than its hash, or a full table does not grow, nothing is promised, because the search then misses the key or does not end.
- OrderedHashTable.OrderedHash.InsertAtPosition: the same condition.
- OrderedHashTable.OrderedHash.InsertOrAssign: the same condition; it assigns a value as `operator[]` and an assignment do, and the default-constructed value in between is not modelled.
- Hash table: iterators other than positions, hints, copy and move, allocators, serialization and the moved-from value of `erase_if`, which is arbitrary; keys are equal when Dafny says so, and the hash is any function of the key. Insertion at the end is modelled as insertion at that position, whose steps the original writes out a second time.
- RangeSweep.SweepExact: its condition follows the sweep pass by pass; the checks of the buckets as they stand (`WrappedBelow`, `NoWrap`) are sufficient, not necessary.
- The locator's station pool is the plain list that the ordered hash table stands for, not an object of that class.
- Locator: the final checks on a location, its output and its posting, the counters and the log; none of them changes the queue.
- Locator.LocatingThread.ThreadLoc: takes an initial threshold below `FLOAT_MAX`; at or above it no combination is ever computed. Base lines are not negative, and times of triggers are valid calendar times that carry index 0 when they arrive.
- QueueSorting.SortTriggers: an insertion sort in place of `std::sort`; of equal triggers either may survive the removal of duplicates, and the state machine leaves that open.
- `mktime` and `localtime` are a calendar without daylight saving; differences are computed with real numbers.
- The solvers, the geometry and `check_location_structure`, as floating-point or foreign code.
- LigTools.GetLocationPoolP: a negative number of stations is not modelled; the original finds no combination then.
- Multipart: the states before and after a part body, whose result depends on how the input is cut.
- ChunkedWriter.WriteContentChunked: compression, trailers, failing or unwritable streams and shutdown are not modelled.
- StationPool.PoolExact: speaks of stations up to 39 seconds apart; for longer travel times the difference of two time stamps may reach into another minute and is then not an elapsed time.
- Chunked: parsing of trailer lines, receivers that refuse and streams that fail.
- The base64 lookup string is given by its ranges (`SymbolExact`).
- Worker pool: the return values and exceptions of tasks, and clients that still notify when the destructor has returned.
- HTTP, MQTT, JSON, YAML, sockets, files and the other headers.
