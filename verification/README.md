# Verification of a TCP server library's core

A Dafny model of the four stateful parts of a small multi-threaded TCP server library, with proofs. Nothing was
executed; everything below is what the verifier proves about the model.

* **The hash table with incremental rehashing** (`hash.h`): `Bits`, `TableSizes`, `Dictht` (module `Chains`),
  `HashTable`, `HashRuns`, `FiniteMap`. Nodes are heap objects with a `next` field; the two bucket arrays, the migration
  cursor and the counters are fields, changed in place by the loops of the original. A ghost layout says which chain
  each bucket holds. *Main results:* over any sequence of calls the table answers as one finite map (`HashRuns.Run`),
  whatever it migrates meanwhile; growth never overtakes migration (`Paced`, part of `HashTable.Valid`: sizes are
  4·16^k, at most 6 entries a bucket when idle, and `used0 + used1 <= 6*size0 + 1 + rehashidx` while migrating), so an
  expansion never fails; every call shortens a migration, except for erasures, lookups and random picks on an empty map
  (`HashRuns.MigrationTerminates`); nodes handed out stay the nodes of their keys over the whole run, unless erased or
  cleared; the hash is an arbitrary function; a random pick is exactly what the random numbers select, and every key is
  selected by some, again and again (`HashTables.HashTable.EveryEntryIsDrawnAgain`). Each call that shortens a
  migration, except `clear`, makes one step of it (`OneStep`).
* **The ring buffer and the framed connection** (`buffer.h`, `tcpConnection.cpp`): `Decimal`, `SinglePrecision`,
  `Growth`, `Buffer`, `Framing`, `Link`, `LinkRuns`, `TcpConnection`. *Main results:* whatever the wrap position and the
  growth schedule, the buffer is a queue of fixed capacity; under any interleaving of sends, short writes, short reads
  and receives the messages received are a prefix of those sent, and all of them once nothing is under way
  (`Links.EndToEnd`); for a send of a string and for a send with a size of the caller's choice there is an exact
  condition for the stream to stay in step (`Links.SendKeepsSyncIff`, `Links.SizedSendKeepsSyncIff`), and over every run
  that sends strings that are not empty it is in step exactly if all of them have fitted (`LinkRuns.RunKeepsSyncIff`);
  how a stream is cut into chunks does not matter (`Framing.FragmentationIndependence`). Every method of `TcpConnection`
  by which the two peers exchange bytes is proved to be a move of a `Link`; the events go on reading or writing until
  the socket transfers nothing more (`Exhausts`). The capacity grows by rounded single-precision products, as in the
  original.
* **The asynchronous logger** (`asyncLogging.cpp`): `LogText`, `LogQueue`, `Logger`, `LoggerRuns`, `LoggerTurns`,
  `LoggerShutdown`, `LoggerStop`, `LoggerAtomicity`, `AsyncLogging`. A transition system interleaves producers, the
  consumer, the mutex, spurious wake-ups, timeouts and the stop request (`Loggers.Next`); the methods of `AsyncLogging`
  are the code between two synchronisation points, each proved to be a run of its steps. *Main results:* first in, first
  out from `append` to the bytes on disk (`LoggerRuns.LogIsFifo`); files change only between batches, under names never
  used before in the run, and exactly as the rolling rule says; the consumer waits exactly if it found fewer lines than
  the high-water mark (`LoggerTurns.WaitsIff`); every file but the last gains something
  (`LoggerTurns.EveryFileHasLines`); after a stop every schedule ends, and the files are complete in every schedule
  exactly under a condition on the threads at the call of `stop` (`LoggerStop.StopIsCompleteIff`); the consumer's work
  from a swap to the end of the batch, and its final drain, may each be taken as one step
  (`LoggerAtomicity.PrivateWorkIsAtomic`).
* **The worker's connections** (`worker.cpp`): `Lifecycle`, `Eviction`, `Worker`, `WorkerAtomicity`, `WorkerLoop`. A
  transition system of hand-overs and worker steps (`Lifecycle.Next`), and the worker's code over the finite map proved
  for the hash table, tied to it. *Main results:* every connection handed over is in exactly one of four places, the
  kernel watches exactly the pool (`Lifecycle.ConnectionsAreConserved`); an eviction round removes at most one
  connection, the most inactive one of the sample; a turn of the event loop is a run of the transition system, in which
  every event makes its calls to its connection, every newcomer is admitted, inactive connections and those over the
  limit go by the rules and the random numbers, and which finishes when the numbers hit (`WorkerLoops.Turn`,
  `WorkerLoops.EvictsOverTheLimit`); hand-overs at any moments of the turn do not matter except for the side of the swap
  on which they fall (`WorkerAtomicity.TurnIsAtomic`, `WorkerLoops.TurnAmongHandOvers`).

## What was found

* With the growth factor 1.5 a buffer of no or one byte never grows: `grow` loops forever exactly when the first product
  makes no progress, in single precision (`Growth.GrowthTerminatesIff`, `Growth.DefaultFactorNeedsTwo`).
* A message that does not fit is cut without an error, and right after the send the stream is out of step
  (`Links.SendKeepsSyncIff`; `Links.CutSendCorrupts` shows a run that delivers a message never sent). Strings that are
  not empty never bring it back (`LinkRuns.RunKeepsSyncIff`). Empty ones can (`LinkRuns.EmptyMessageHeals`), at most one
  lost byte each (`LinkRuns.LossNeedsEmptyMessages`).
* `sendMessage(const char *, int)` prints the size it is given and then the whole C string, so a size that differs from
  the string's length breaks the stream, except where the buffer happens to be full after the bytes that were meant
  (`Links.SizedSendKeepsSyncIff`). From `sendMessage("abcd", 3)` the peer gets "abc" and then nothing any more, whatever
  is sent (`Links.ShortSizeCorrupts`); after `sendMessage("abc0", 3)` a fitting message brings the stream back
  (`LinkRuns.LeftoverDigitHeals`).
* A frame larger than the reader's buffer is never received, nor anything behind it (`Links.DeliverableIff`). A readable
  event on a full buffer ends the reader's process. Without further sends that can come about exactly if the bytes under
  way fill the buffer, whatever they are (`Links.ExitIsReachableIff`); to a reader that receives all it can before
  the event, exactly if some frame ahead is larger than its buffer (`Links.StuckFullIsReachableIff`).
* The header parser leaves the range of `int` on headers that a peer can send (`Framing.HeadersInRange`,
  `Framing.HeaderOutOfRange`); on a stream of frames it does not (`Links.HonestHeadersAreInRange`).
* `stop` can lose lines: exactly if, at the call, a thread wants the mutex with a line, or holds it with one while the
  consumer can reach its final drain without the mutex (`LoggerStop.StopIsCompleteIff`; `LoggerStop.StopCanLose` gives a
  run from the start).
* `eviction` with the rule "random" dereferences null exactly if the pool is empty (`Workers.Worker.Eviction`), which
  happens when memory is short and there is no connection (`Lifecycle.EvictsFromAnEmptyPool`).
* `evictRandomN` dereferences null in some round exactly if the pool holds a closed connection that would be evicted and
  enough others to fill the round that are not inactive for longer (`Evictions.SomeRoundFailsIff`); each pick of such a
  round is what some random numbers select (`FiniteMaps.FiniteMap.EveryKeyCanBePicked`). On a single closed connection a
  forced round of one sample fails with any numbers that hit, exactly if the connection has been inactive for some time
  (`Workers.Worker.EvictSingleClosed`). No connection in the pool is closed as long as only the worker's own event
  handling closes connections, which is why the worker does not run into it (`Workers.Worker.EvictOpen`).

## Assumptions

* Hash table: fewer than 2^31 - 1 entries at an insertion, since `size()` is an `int`; tables of at most 2^30 buckets
  follow. The key of a node is written once, so it is a constant here. The value of a new node before one is assigned is
  the parameter `initial`. Deleted nodes leave the node set; that no other node is touched is part of the layout. Random
  numbers are parameters, one list per retry loop; a loop that has used up its list is reported as not finished.
* Buffer: sizes and the growth factor are such that no `int` overflows, and the growth loop ends whenever the buffer has
  to grow. Products are those of IEEE 754 single precision without excess precision; the factor is not negative.
* Connection: a receive reports separately whether a frame was consumed, which the original's return value does not
  tell, and whether the header left the range of `int`. On an empty buffer the peek looks at a character that is not
  set; it is arbitrary here, and a receive does nothing.
* Logger: logged lines are not empty (`back()`), files can be opened, `start` is called once.
* Worker: ids are unique and never 2^64 - 1; `epoll_wait` reports distinct watched connections; the application's
  callbacks do not close a connection on their own.

## Model

| member | source | states |
|---|---|---|
| `Bits.IndexAgreement` | hash.h:450 | the lookup's index (truncate to 32 bits, then mask) and the migration's (mask, then truncate) are the same remainder, for all sizes up to 2^32 |
| `TableSizes.NextPower` | hash.h:367-377 | the least 4·2^j not below a request under LONG_MAX, LONG_MAX otherwise; the doubling stays in a machine word |
| `TableSizes.GrowthIsSixteenfold` | hash.h:585-586 | a table filled to its load limit grows to exactly 16 times its size |
| `TableSizes.FullTableIsSmall` | hash.h:585-586 | as long as the entries fit in an `int`, growth reaches at most 2^30 buckets |
| `Chains.Layout.WithFirstKeepsShape` | hash.h:535-537 | a new first node in its home bucket keeps keys unique, chains free of duplicates and every key in its bucket |
| `Chains.Layout.WithoutKeepsShape` | hash.h:276-281 | so does the removal of any node |
| `Chains.Layout.WithoutKeepsLinked` | hash.h:276-279 | bypassing a node keeps its chain linked around it and all others as they were |
| `Chains.Layout.ChainsAddUp` | hash.h:437-442 | the number of entries is the total length of the chains |
| `Chains.Dictht.Clear` | hash.h:56-66 | frees exactly the nodes of the table and leaves it empty |
| `Chains.Dictht.Unlink` | hash.h:270-289 | removes exactly the node of the key, if there is one, and keeps all other chains |
| `HashTables.FinishedIsFarFromFull` | hash.h:462-468 | a migration that finishes leaves fewer entries than buckets, so no expansion is due |
| `HashTables.HashTable.constructor` | hash.h:184-188 | an empty table of a map without keys |
| `HashTables.HashTable.SizeCountsKeys` | hash.h:200-207 | `size()` is the number of keys of the map |
| `HashTables.HashTable.KeyInOneTable` | hash.h:556-570 | a key is in one table only, and in `ht[0]` when idle |
| `HashTables.HashTable.FiledByItsBits` | hash.h:447-452 | every entry is in the bucket that the low bits of its hash number, in the table that it is in |
| `HashTables.HashTable.MoveOne` | hash.h:445-456 | one node is relinked in place; nodes, keys, values and the total count stay |
| `HashTables.HashTable.MigrateBucket` | hash.h:443-458 | empties the bucket at the cursor into the new table and advances it, with the same nodes and keys |
| `HashTables.HashTable.SomeBucketAhead` | hash.h:436-438 | while the old table has entries, a bucket at or after the cursor is not empty, so the assertion holds |
| `HashTables.HashTable.SkipEmptyBuckets` | hash.h:438-442 | the scan stays in bounds and stops at a bucket that is not empty or when its visits are used up |
| `HashTables.HashTable.MigrateBuckets` | hash.h:433-459 | the loop of `rehash`: says exactly which buckets have been migrated when it ends, and why it ends |
| `HashTables.HashTable.FinishRehash` | hash.h:461-470 | the new table becomes the only one, with the same nodes and keys |
| `HashTables.HashTable.Rehash` | hash.h:425-474 | keeps every node, key and value; returns 0 exactly when no migration is left; migrates exactly the buckets up to `to`, at most n that hold anything and at most 10n empty ones, and stops earlier only when nothing is left |
| `HashTables.HashTable.RehashStep` | hash.h:503-510 | one step of `rehash`: one bucket that holds anything, or ten empty ones; makes the migration shorter, leaves the map alone and room for one entry more |
| `HashTables.HashTable.Expand` | hash.h:388-422 | allocates the next power for the first table or for a migration, or changes nothing and reports an error |
| `HashTables.HashTable.ExpandIfNeeded` | hash.h:574-588 | never fails; the first table has 4 buckets; starts a migration exactly when the load factor is exceeded; the map stays |
| `HashTables.HashTable.KeyIndex` | hash.h:544-572 | -1 means exactly that the key is present |
| `HashTables.HashTable.InsertRaw` | hash.h:512-542 | no new node exactly if the key is present; otherwise a fresh one is added under the key |
| `HashTables.HashTable.Insert` | hash.h:217-228 | adds the pair and answers DICT_OK exactly if the key is absent, otherwise changes nothing; nodes of other keys stay the same objects |
| `HashTables.HashTable.Erase` | hash.h:252-293 | removes exactly this key; all other nodes stay |
| `HashTables.HashTable.Clear` | hash.h:295-301 | leaves the empty map and no migration |
| `HashTables.HashTable.Subscript` | hash.h:303-314 | the node of the key, inserted with the initial value if absent; nodes handed out earlier stay valid |
| `HashTables.HashTable.Exist` | hash.h:334-364 | true exactly for the keys of the map, which stays as it is |
| `HashTables.HashTable.GetRandomEntry` | hash.h:590-636 | null for an empty table, otherwise exactly the entry that the random numbers select, null if none of them hits |
| `HashTables.HashTable.EveryEntryCanBeDrawn` | hash.h:605-635 | in either phase every live entry is selected by some pair of random numbers in range |
| `HashTables.DrawsRepeat` | hash.h:608-621 | numbers larger by the range select the same bucket: the range is the number of buckets, without those already migrated |
| `HashTables.HashTable.EveryEntryIsDrawnAgain` | hash.h:605-635 | in either phase every live entry is selected by one of any numbers in a row that are as many as the range, with one of any numbers in a row that are as many as its chain is long |
| `HashTables.HashTable.FirstHitDecides` | hash.h:605-624 | the first number that selects a bucket which is not empty decides, whatever comes after it |
| `HashTables.HashTable.ExhaustiveDrawsHit` | hash.h:605-624 | a retry loop that goes through the range of `random()` ends |
| `HashRuns.Assign` | hash.h:303-314 | `t[key] = value` is the update of the map; all nodes stay |
| `HashRuns.Step` | hash.h:119-136 | each public call answers and acts as on a finite map and frees no other node than it should; under a migration it makes one step of `rehash` unless the map is empty; a random pick gives the selected key, and nothing only on an empty map or when no number hits |
| `HashRuns.Run` | hash.h:119-136 | so does every sequence of calls: one finite map, nodes that stay unless freed, and a migration that each advancing call shortens |
| `HashRuns.MigrationTerminates` | hash.h:425-474 | a migration is over after as many calls as buckets were ahead, not counting erasures, lookups and picks on an empty map |
| `FiniteMaps.FiniteMap.Call` | hash.h:119-136 | a client may see the table as its finite map alone |
| `FiniteMaps.FiniteMap.Pick` | hash.h:325-332 | on a map that is not empty the pick fails exactly if no number hits, and otherwise yields the selected key's value |
| `FiniteMaps.FiniteMap.EveryKeyCanBePicked` | hash.h:590-636 | every key is the one selected by some numbers |
| `Decimal.HeaderRoundTrip` | buffer.h:183-202 | a printed number, a space and any bytes read back as that number and its digit count |
| `SinglePrecision.SingleMonotone` | buffer.h:215 | rounding to single precision keeps the order |
| `SinglePrecision.SingleParts` | buffer.h:215 | a rounded number has at most 24 significant bits and is at most half a spacing away |
| `SinglePrecision.TieIsEven` | buffer.h:215 | halfway between two numbers, the one with the even significand is taken |
| `Growth.LargerGrowsToo` | buffer.h:214-215 | a product that makes a size larger makes every larger size larger, whatever is rounded |
| `Growth.GrowthTerminatesIff` | buffer.h:214-215 | the growth loop reaches a capacity exactly if the first rounded product makes progress, by a factor above one, or reaches it at once |
| `Growth.DefaultFactorNeedsTwo` | buffer.h:15 | with the factor 1.5 progress means two bytes or more |
| `Growth.DefaultFactorIsSafe` | buffer.h:215 | with the factor 1.5 the product of a size up to 2^30 stays within `int` |
| `Buffers.GrownSize` | buffer.h:214-219 | the loop ends at the first of the multiples that suffices, or at the maximum if that is less |
| `Buffers.Buffer.constructor` | buffer.h:15-26 | an empty buffer |
| `Buffers.Buffer.Clear` | buffer.h:44-48 | empties the buffer |
| `Buffers.Buffer.Read` | buffer.h:76-84 | takes exactly the first min(n, count) bytes off the front |
| `Buffers.Buffer.Copy` | buffer.h:102-110 | the same bytes, left in place |
| `Buffers.Buffer.SkipHead` | buffer.h:86-90 | drops exactly n bytes from the front, so copy and then skip is read |
| `Buffers.Buffer.PutChar` | buffer.h:140-145 | appends a byte when there is space |
| `Buffers.Buffer.PeekChar` | buffer.h:156-160 | the byte at an offset from the front |
| `Buffers.Buffer.Grow` | buffer.h:212-228 | the array of the size that the loop finds, with the same contents and indices in range |
| `Buffers.Buffer.Write` | buffer.h:126-137 | appends exactly the first min(n, maximum - count) bytes; grows exactly if there is no space and the size is below the maximum |
| `Buffers.Buffer.PeekIntWithLength` | buffer.h:183-202 | the value and length of the leading digits, and whether the delimiter follows, without changing the buffer; overflow exactly if the value exceeds an `int` |
| `Framing.DecodeOfPart` | tcpConnection.cpp:138-155 | what any beginning of a formatted message decodes to, whatever its size argument: the announced bytes exactly once they are there |
| `Framing.FramesLookLike` | tcpConnection.cpp:75 | the frames of "hi" and of the empty string, character by character |
| `Framing.OddFramesLookLike` | tcpConnection.cpp:75-89 | what is sent for a negative size, and for a string with a NUL byte |
| `Framing.DecodeOfFrame` | tcpConnection.cpp:138-155 | a frame of a message without NUL decodes to the message, whatever follows |
| `Framing.DecodeOfPartialFrame` | tcpConnection.cpp:143-154 | a proper prefix of a frame never decodes |
| `Framing.DecodeExtends` | tcpConnection.cpp:138-155 | later bytes do not change a decoded message |
| `Framing.StringRoundTripIff` | tcpConnection.cpp:116-136 | received as a string, a message arrives intact exactly if it has no NUL byte |
| `Framing.HeadersInRange` | tcpConnection.cpp:143 | a header with a plain number stays within `int` exactly if the number leaves room for the header |
| `Framing.HeaderOutOfRange` | tcpConnection.cpp:143 | a header that does not |
| `Framing.DrainSplit` | tcpConnection.cpp:116-155 | receiving before more bytes arrive does not change what is received |
| `Framing.ReceivedPlusPending` | tcpConnection.cpp:116-155 | messages received plus what the buffer still decodes to depend on the stream only |
| `Framing.FragmentationIndependence` | tcpConnection.cpp:116-155 | two fragmentations of a stream, with receives tried at any time, give the same messages and the same rest |
| `Framing.DrainOfFrames` | tcpConnection.cpp:73-94 | the frames of any messages without NUL decode to exactly these messages |
| `Links.SizedIsSend` | tcpConnection.cpp:87-94 | a send with a fitting size is the send of that many bytes |
| `Links.ReceiveConserves` | tcpConnection.cpp:138-155 | a receive takes exactly the next message sent, once its frame is complete |
| `Links.TransferConserves` | tcpConnection.cpp:162-227 | short reads and writes move bytes without losing or reordering any |
| `Links.RunConserves` | tcpConnection.cpp:73-227 | over every run the frames not yet received are byte for byte what is under way |
| `Links.EndToEnd` | tcpConnection.cpp:73-227 | the frames sent are the frames received followed by the bytes under way, which decode to the messages not yet received; all have arrived exactly when there are none |
| `Links.SendKeepsSyncIff` | tcpConnection.cpp:73-80 | the send of a string keeps the stream decodable to the messages sent exactly if it has no NUL byte and its frame fits |
| `Links.SizedSendKeepsSyncIff` | tcpConnection.cpp:87-94 | the send of a C string with a size does exactly if the string has that many characters and its frame fits, or more and the buffer is full right after those meant |
| `Links.CutSendCorrupts` | tcpConnection.cpp:76-79 | a run in which a cut frame makes the peer receive a message never sent |
| `Links.ShortSizeCorrupts` | tcpConnection.cpp:87-94 | after a size shorter than the string the peer never receives anything again, whatever moves follow |
| `Links.JunkBlocks` | tcpConnection.cpp:138-155 | a byte at the front that cannot belong to a header blocks the reader for good |
| `Links.OversizedBlocks` | tcpConnection.cpp:166-171 | a frame larger than the read buffer is never received, nor anything behind it, whatever else is sent |
| `Links.DeliverableIff` | tcpConnection.cpp:116-227 | everything sent can be delivered exactly if every frame ahead fits in the read buffer |
| `Links.FullMeansOversized` | tcpConnection.cpp:166-171 | a reader that has received all it can exits on a full buffer only before a frame larger than it |
| `Links.ExitIsReachableIff` | tcpConnection.cpp:166-171 | without further sends the full buffer, on which a readable event ends the process, can be reached exactly if the bytes under way fill it, whatever they are |
| `Links.StuckFullIsReachableIff` | tcpConnection.cpp:166-171 | by a reader that receives all it can it is reached exactly if some frame ahead is larger than the buffer |
| `LinkRuns.InSyncIff` | tcpConnection.cpp:116-155 | the stream is in step exactly if what was received and what would still be is what was sent, with nothing left |
| `LinkRuns.DrainIsThrifty` | buffer.h:183-202 | no bytes decode to messages that take more bytes, an empty message taking one |
| `LinkRuns.LossNeedsEmptyMessages` | tcpConnection.cpp:73-227 | over every run with sends of either kind, the stream is in step at the end only if the bytes that frames have lost are no more than the empty messages sent |
| `LinkRuns.FittingRunKeepsSync` | tcpConnection.cpp:73-227 | over every run fitting sends of either kind keep the stream in step |
| `LinkRuns.RunKeepsSyncIff` | tcpConnection.cpp:73-227 | over every run that sends strings that are not empty, the stream is in step exactly if every send has fitted: once out of step, it stays so |
| `LinkRuns.EmptyMessageHeals` | tcpConnection.cpp:73-80 | a run in which an empty message brings a broken stream back |
| `LinkRuns.LeftoverDigitHeals` | tcpConnection.cpp:87-94 | a run in which a message brings back a stream broken by a wrong size |
| `Links.HonestHeadersAreInRange` | buffer.h:183-202 | on a stream of frames the header stays within `int` |
| `TcpConnections.TcpConnection.constructor` | tcpConnection.cpp:4-38 | open, with two empty buffers that can grow |
| `TcpConnections.TcpConnection.SendMessage` | tcpConnection.cpp:73-80 | is the Send move of a link, also when the frame does not fit |
| `TcpConnections.TcpConnection.SendCString` | tcpConnection.cpp:82-85 | is the Send move of the characters before the NUL byte |
| `TcpConnections.TcpConnection.SendSized` | tcpConnection.cpp:87-94 | is the SendSized move of a link, for any size |
| `TcpConnections.TcpConnection.TakeHeader` | tcpConnection.cpp:140-145 | drops the header exactly if the whole frame is there, otherwise nothing; overflow exactly if the header is out of range |
| `TcpConnections.TcpConnection.ReceiveMessage` | tcpConnection.cpp:138-155 | is the Receive move of a link on every header in range; an incomplete frame leaves the buffer as it is |
| `TcpConnections.TcpConnection.ReceiveMessageAsString` | tcpConnection.cpp:116-136 | is the Receive move of a link, of which it returns the payload up to its first NUL |
| `TcpConnections.TcpConnection.ReceiveAll` | tcpConnection.cpp:174-179 | asks the socket for as much as there is space for, and again after every call that got something, until one gets nothing; what it returns is what the calls got, and that many bytes of the socket, in order |
| `TcpConnections.TcpConnection.OnReadableEvent` | tcpConnection.cpp:162-192 | is a Deliver move: reads until the socket has nothing more, appends every byte taken and drops none; exits exactly on a full buffer, without a call, and disconnects exactly if the first call got nothing; notes the time |
| `TcpConnections.NothingTransferredIff` | tcpConnection.cpp:174-185 | such calls have transferred nothing exactly if the first one failed |
| `TcpConnections.TcpConnection.OnWritableEvent` | tcpConnection.cpp:194-227 | is a Flush move: writes until the socket takes nothing more, unless there is nothing to write; bytes sent followed by the write buffer are what the write buffer was; notes the time |
| `TcpConnections.TcpConnection.SendAll` | tcpConnection.cpp:209-214 | offers the socket all that is left, again and again, until it takes nothing; what it returns is what the calls took |
| `LogText.RecordsOfText` | asyncLogging.cpp:108-113 | cut after every newline, the text of single lines gives back each line, terminated |
| `LogText.FileNamesDiffer` | asyncLogging.cpp:128-132 | two file names are equal exactly if their suffixes are |
| `LogText.FilesLookLike` | asyncLogging.cpp:108-132 | file names and lines, character by character |
| `LogQueues.SwapKeepsFifo` | asyncLogging.cpp:145 | a swap keeps the order, because `_nextBuffer` is empty |
| `LogQueues.WriteKeepsFifo` | asyncLogging.cpp:150-151 | the write loop writes the oldest line not yet written |
| `LogQueues.OpenKeepsSound` | asyncLogging.cpp:98-102 | opening a file takes a name unused in this run and keeps what any file held |
| `LogQueues.AppendKeepsSound` | asyncLogging.cpp:104-113 | a written line goes to the end of the last file; the other files stay |
| `LogQueues.FilesJoinUp` | asyncLogging.cpp:128-153 | what the files gained, joined in suffix order, is the text of the lines written |
| `Loggers.StepKeepsExclusive` | asyncLogging.cpp:35-51 | every step keeps: the mutex has at most one owner, which is whoever is inside a critical section |
| `Loggers.StepKeepsFifo` | asyncLogging.cpp:134-187 | every step of every thread keeps: lines written, then lines held, are the lines pushed, in order |
| `Loggers.StepKeepsCounted` | asyncLogging.cpp:40-41 | every step keeps: `_accumulateBytes` is the size of the lines pushed since its last reset |
| `Loggers.StepKeepsInv` | asyncLogging.cpp:35-187 | the whole invariant holds after every action of every thread |
| `LoggerRuns.LogIsFifo` | asyncLogging.cpp:35-187 | over every run the files hold the lines pushed first, in order, and the buffers the rest, in order |
| `LoggerRuns.LogReadsBack` | asyncLogging.cpp:104-153 | lines without inner newlines can be read back from the files one by one |
| `LoggerRuns.OpensBetweenBatches` | asyncLogging.cpp:155-181 | a file is opened only when everything swapped out has been written, under a name new to the run |
| `LoggerRuns.RollsByTheRule` | asyncLogging.cpp:155-181 | whatever the other threads do, by the next test of `_running` one more file has been opened exactly if the rolling rule said so |
| `LoggerRuns.FilesAreBoundedBySize` | asyncLogging.cpp:157-165 | rolling by size, every file but one cost more pushed bytes than the limit, over every run |
| `LoggerRuns.NoRuleNoRoll` | asyncLogging.cpp:155 | without a rule a run writes a single file |
| `LoggerRuns.BufferIsGuarded` | asyncLogging.cpp:39-41 | only the owner of the mutex changes `_currentBuffer` or `_accumulateBytes` |
| `LoggerTurns.WaitsIff` | asyncLogging.cpp:138-146 | whatever the other threads do: between taking the mutex and its next swap the consumer gives the mutex up exactly if it found the logger running and fewer lines than the high-water mark |
| `LoggerTurns.NeverMissesTheMark` | asyncLogging.cpp:45-49 | it never begins to wait with as many lines as make `append` signal |
| `LoggerTurns.BatchIsWritten` | asyncLogging.cpp:145-153 | whatever the other threads do: when it next tests `_running` after a swap, every line pushed before the swap is in the files |
| `LoggerTurns.EveryFileHasLines` | asyncLogging.cpp:147-181 | over every run each file but the last has gained something: a turn without lines never rolls |
| `LoggerShutdown.CompleteIff` | asyncLogging.cpp:183-187 | the files hold every line exactly if as many were written as pushed |
| `LoggerShutdown.ShutdownIsCompleteIff` | asyncLogging.cpp:137-187 | from the moment the consumer leaves its loop, every run that ends is complete exactly if no line is in flight |
| `LoggerShutdown.SomeoneCanMove` | asyncLogging.cpp:134-188 | there is no deadlock on the mutex |
| `LoggerShutdown.ShutdownEnds` | asyncLogging.cpp:28-33 | after the stop request no schedule is longer than a given bound and none gets stuck before the consumer is done |
| `LoggerStop.StopIsCompleteIff` | asyncLogging.cpp:28-33 | every run from a call of `stop` is complete exactly if no thread wants the mutex with a line and none holds it with one that the consumer need not wait for |
| `LoggerStop.StopLosesALine` | asyncLogging.cpp:28-41 | otherwise some run from the call ends and loses a line |
| `LoggerStop.StopCanLose` | asyncLogging.cpp:28-41 | a run from the start that loses a line |
| `LoggerAtomicity.PrivateWorkIsAtomic` | asyncLogging.cpp:147-153 | however other threads come in between, the consumer's work outside the mutex has the effect it has in one go |
| `AsyncLoggings.LogFile.WriteLine` | asyncLogging.cpp:108-113 | appends the line to its file, with a newline unless it ends with one |
| `AsyncLoggings.LogFile.Open` | asyncLogging.cpp:98-102 | the file exists afterwards and keeps what it held |
| `AsyncLoggings.AsyncLogging.constructor` | asyncLogging.cpp:7-26 | the initial state of the transition system |
| `AsyncLoggings.AsyncLogging.Append` | asyncLogging.cpp:37 | goes on exactly if the logger is running |
| `AsyncLoggings.AsyncLogging.AppendLocked` | asyncLogging.cpp:39-50 | is the run acquire, push, release; signals exactly at the high-water mark or above the size limit |
| `AsyncLoggings.AsyncLogging.Stop` | asyncLogging.cpp:28-33 | is the stop step |
| `AsyncLoggings.AsyncLogging.OpenNext` | asyncLogging.cpp:128-136 | is the step that opens the next file |
| `AsyncLoggings.AsyncLogging.MustWait` | asyncLogging.cpp:142 | is the step that tests whether to wait: running, and fewer lines than the high-water mark |
| `AsyncLoggings.AsyncLogging.SwapBuffers` | asyncLogging.cpp:145 | is the swap step |
| `AsyncLoggings.AsyncLogging.WriteBatch` | asyncLogging.cpp:147-153 | is a run of the consumer's private steps from the swap to the end of the batch; leaves the turn early exactly if there is nothing to write |
| `AsyncLoggings.AsyncLogging.MustRoll` | asyncLogging.cpp:155-181 | is the step that tests the rolling rules: rolls exactly if the rule says so |
| `AsyncLoggings.AsyncLogging.Roll` | asyncLogging.cpp:155-181 | is a run of the consumer's steps up to its next test of `_running`; the next file is opened exactly if the rule says so |
| `AsyncLoggings.AsyncLogging.Drain` | asyncLogging.cpp:183-187 | after the last test of `_running`, is a run of private steps to the end that writes the whole buffer |
| `AsyncLoggings.AsyncLogging.Turn` | asyncLogging.cpp:137-182 | a turn of the consumer's loop is a run of its steps from one test of `_running` to the next; it waits exactly if it finds fewer lines than the high-water mark, and opens the next file exactly if it found any and the rule says so |
| `Lifecycle.EventsAreLive` | worker.cpp:56-57 | the connection of the event at hand is in the pool, so `operator[]` inserts nothing |
| `Lifecycle.ConnectionsAreConserved` | worker.cpp:28-112 | over every interleaving: admitted in the order of hand-over, in exactly one of four places, none lost, and the kernel watches exactly the pool |
| `Lifecycle.GoneForGood` | worker.cpp:89-93 | a removed connection never comes back |
| `Lifecycle.LeavesOnlyByCause` | worker.cpp:54-86 | a connection leaves the pool only by an event with an error, by closing in one, or by being evicted |
| `Lifecycle.LeavesForGood` | worker.cpp:54-93 | and then it is gone over every run that follows, out of the pool and unwatched |
| `Lifecycle.TurnAdmitsTheQueue` | worker.cpp:96-112 | over every run from the swap to the end of the admissions exactly what was in the queue at the swap is admitted, in order |
| `Lifecycle.EvictsFromAnEmptyPool` | worker.cpp:83-85 | the worker can come to evict with an empty pool |
| `Evictions.RememberedIsMostInactive` | worker.cpp:157-161 | the running maximum is the first of the most inactive samples, or none if no sample was inactive |
| `Evictions.OneGoesIff` | worker.cpp:163-170 | after a round a connection goes exactly if some sample has been inactive for long enough, and no sample has been inactive for longer than that one |
| `Evictions.SomeRoundFailsIff` | worker.cpp:143-170 | some round of n samples ends in a null dereference exactly if the pool holds a closed connection that would be evicted and enough to fill the round |
| `Evictions.FailingRound` | worker.cpp:143-170 | such a round |
| `Evictions.SmallestFailure` | worker.cpp:143-170 | the smallest one: one closed connection, sampled once by force |
| `Workers.Worker.HandOver` | worker.cpp:28-32 | is the hand-over step |
| `Workers.Worker.RemoveConnection` | worker.cpp:89-93 | takes exactly this connection out of the pool and the interest set |
| `Workers.Worker.Serve` | worker.cpp:69-74 | makes exactly the calls that the event asks for, in order, and closes exactly if the connection was closed or its read found nothing |
| `Workers.Worker.HandleEvent` | worker.cpp:56-76 | is the event step: the connection gets the calls of the event, the read before the write, and keeps the time of the last one; it is dropped after an error or when its read closed it, and no other is touched |
| `Workers.Worker.DrainIncoming` | worker.cpp:98-102 | is the swap step |
| `Workers.Worker.AdmitOne` | worker.cpp:105-110 | is the admission step, and tells the connection so |
| `Workers.Worker.EvictRandomN` | worker.cpp:143-170 | its samples are a round of the pool at the call, each drawn by its own random numbers; apart from closed samples it removes at most one connection, the most inactive sample, if forced or over the timeout; it fails exactly if that round fails, and goes on retrying only while no number hits |
| `Workers.Worker.EvictSingleClosed` | worker.cpp:143-170 | on a single closed connection a forced round of one sample that ends fails exactly if the connection has been inactive for some time |
| `Workers.Worker.EvictOpen` | worker.cpp:143-170 | on the worker's own pool it never fails |
| `Workers.Worker.ManageInactive` | worker.cpp:131-141 | is the step that removes the most inactive sample over the timeout, or nothing; the round has the configured size unless the rule is "none" or the pool is empty |
| `Workers.Worker.Eviction` | worker.cpp:114-129 | is the eviction step by each rule: one connection at random, the one a forced round of min(pool, configured size) samples takes, or none; fails exactly if a random connection is to go and there is none |
| `Workers.Worker.EvictOne` | worker.cpp:120-121 | takes the connection that the random numbers select |
| `WorkerAtomicity.StepsCommute` | worker.cpp:28-112 | a hand-over commutes with every step of the worker but the swap |
| `WorkerAtomicity.HandOversFirst` | worker.cpp:28-112 | the hand-overs between two swaps might all have come first |
| `WorkerAtomicity.HandOversLast` | worker.cpp:28-112 | or last |
| `WorkerAtomicity.TurnIsAtomic` | worker.cpp:28-112 | with hand-overs at any moments, a stretch with one swap has the effect of the early ones, the stretch in one go, and the late ones |
| `WorkerLoops.HandleAll` | worker.cpp:54-77 | the event loop is a run of event steps, each by the error flag of its event and by whether its connection closed; every connection gets the calls of its event, and no other any |
| `WorkerLoops.Register` | worker.cpp:96-112 | swap and admission of everything drained, each connection being told so, and no other |
| `WorkerLoops.MakeRoom` | worker.cpp:81-85 | both eviction steps under their conditions, each with its own time and random numbers: says which connections go, by which samples and which random hits, and exactly when it fails |
| `WorkerLoops.EvictsOverTheLimit` | worker.cpp:83-85 | a turn evicts only from a pool over the limit or when memory is short; then one connection goes by the rule "random", and by the rule "inactive" exactly if some sample has been inactive |
| `WorkerLoops.Turn` | worker.cpp:47-86 | a turn of the loop is a run back to the next wait: every event makes its calls, every newcomer is admitted and told, and the end is that of `MakeRoom` on the pool then; it finishes if the random numbers hit, and fails exactly if a random connection is to go and there is none |
| `WorkerLoops.TurnAmongHandOvers` | worker.cpp:28-112 | the same with hand-overs at any moments: the worker ends up as the transition system does in every such interleaving, and the turn ends in the same way |

## Left out

- Chains.Entry: the value of a new entry of a scalar type is unset in the original; here it is a given initial value.
- HashTables.HashTable.Expand: does not model requests above 2^31 buckets; no caller in the library makes one.
- HashTables.HashTable.GetRandomEntry: does not model how random numbers are distributed, nor that the retry loop almost surely ends; it ends when a number selects a bucket that is not empty or when the given numbers run out.
- SinglePrecision.SingleParts: does not model the finer numbers below one half, nor numbers beyond the largest exponent; neither matters to an integer part within `int`.
- Growth.GrowthTerminatesIff: does not model negative factors, nor what a product beyond `int` is converted to.
- Buffers.GrownSize: the same: its products stay within `int`, and the loop ends.
- Evictions.FailingRound: does not say which random numbers draw the round; that some do is shown for each pick on its own (`FiniteMaps.FiniteMap.EveryKeyCanBePicked`), since the numbers that select a key change with the migration.
- Buffers.Buffer.Grow: is modelled as `write` calls it, when the buffer needs to grow and can.
- TcpConnections.TcpConnection.SendMessage: does not model strings of 2^31 bytes or more, whose length `%d` does not print.
- AsyncLoggings.AsyncLogging.Stop: does not model the notification, since a wait may end at any time, nor the join, which is `LoggerShutdown.ShutdownEnds`.
- AsyncLoggings.AsyncLogging.Turn: is for the case that no other thread comes in between; `LoggerTurns.WaitsIff`, `LoggerTurns.BatchIsWritten` and `LoggerRuns.RollsByTheRule` say the same for every interleaving.
- Workers.Connection.OnReadableEvent: does not model the exit of the process on a full read buffer, which `TcpConnections.TcpConnection.OnReadableEvent` does, nor the buffers of the connection: the worker looks at the id, the close flag and the time only.
- LoggerStop.StopIsCompleteIff: does not model what concurrent growth of the vector during the unlocked final drain does; the drain takes the lines that are there when it begins.
- Lifecycle.ConnectionsAreConserved: does not model when the kernel reports events, only that it reports watched connections.
- `HashTable::replace`, whose temporary copy frees the followers of a node, and `getRandomKey`, which differs from `getRandomValue` in the result only.
- `rehashMilliseconds` and `timeInMilliseconds`, which depend on the clock; `iterators`, which is always 0.
- `Buffer::skipTail` and `getChar`, which nothing calls and which misbehave; `peekIntWithoutLength`, the same scan as `peekIntWithLength`; `sendRaw`, `receiveRaw` and `readAsString`, one call of `write` or `read` each.
- `condition.h`, `mutex.h` and `thread.h` beyond mutual exclusion, and a wait that gives up the lock and may end at any time.
- The calendar in daily rolling: the comparison of dates is an arbitrary truth value.
- The acceptor's system calls, socket options, load balancing, configuration, memory statistics and time formatting.
