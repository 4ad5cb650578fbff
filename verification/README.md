# Verified models of the repository's cores

The repository collects independent C and C++ components. This project models the ones with the richest behaviour in
Dafny and proves what their code is for. Every model follows the code branch by branch; where the code updates state in
place the model is a class or an array algorithm, proved against a specification on values, and the main results are
theorems about that specification. `dafny verify dfyconfig.toml` checks everything.

- **RESP reader** (`Bytes`, `IntText`, `Resp`, `RespWire`, `ReplyTree`, `Reader`, `Session`): hiredis' resumable parser with its
  nine-entry task stack, compacted buffer and sticky errors. `Resp` is the reference: a recursive grammar of RESP
  (version 2), sections "Bulk strings" and "Arrays" among them. One call of `GetReply` is one step of that grammar on
  the pending bytes, so any chunking of a stream gives the replies and the error of one parse. `RespWire` pins the grammar
  and the encoder down in plain bytes.
- **Command formatter** (`Command`): the predicted size is the written size, and reader and formatter are inverses.
- **Red-black tree** (`RbSpec`, `RbFix`, `RbLevel`, `RbRun`, `RbTree`): heap nodes with parent pointers and a shared
  sentinel represent a tree value seen through a zipper; the fix-up steps are proved on values, the pointer code against
  them, for single calls and for any sequence of insertions and deletions.
  The child fields of the sentinel are written by the code and never read, so they are in no invariant.
- **Deadlock detector** (`DeadlockSpec`, `DeadlockScan`, `DeadlockSchedule`, `Deadlock`): each hook is split into atomic
  steps that interleave freely; mutexes are non-recursive and released by their owner. An alarm is never false, over all
  runs, and the hooks on the heap carry out every run.
- **Hash table** (`DictSpec`, `Dict`): bucket chains relinked in place refine a finite map; the iterator survives the
  deletion of the entry it returned.
- **Asynchronous client** (`Async`, `Client`): the FIFO of reply callbacks, with callbacks that re-enter it, on top of
  the reader. What callbacks do is an arbitrary function of the callback, the reply and the number of callbacks run so
  far, so every behaviour is covered. The whole client refines a function of its events. The flag bits are boolean
  fields.
- **Smaller algorithms** (`Kmp`, `LinkedList`, `Quoting`, `QuotingText`, `MemPool`, `ThreadPool`): string search, the
  two-pointer cycle test, argument quoting, the piece allocator, and the thread pool as steps under its mutex. `Sequences` is shared.

Three properties that one would expect are false of the code; each comes with a concrete failing case and the exact
condition under which it holds.

- Deleting from the red-black tree can leave a red node with a red child (`RbFix.DeletionCanLeaveRedRed`); it does not
  if and only if `DeletesClean` holds before the call. What such a tree then suffers is proved as well: search order and
  links survive every insertion, and every deletion as long as the black counts are equal; equal black counts survive
  if and only if `InsertsLevel` or `DeletesLevel` holds before the call.
- A real deadlock can go unrecorded (`DeadlockSchedule.DeadlockMissed`); it is recorded if and only if no mutex on it has
  an after_unlock behind its last after_lock, which can happen exactly when a thread is still inside the unlock hook of
  the mutex at that after_lock (`DeadlockSchedule.CanBeLost`).
- A piece of the pool can stick out of its block (`MemPool.OversizedPiece`); it lies inside if and only if the request
  leaves room for the piece header. Afterwards the remaining space of that block wraps round, so requests that reach
  it go on being cut from it (`MemPool.Pool.OverflowedTakesAll`).

Preconditions mirror what C demands of a caller: buffers and counts below the width of the C type that carries them
(`INT_MAX` bytes in the reader, 2^31 buckets in the hash table, whose bucket index is an `int`), live pieces for `Free`,
nodes of the tree for `DeleteNode`. Allocation is taken to succeed.

## Model

| member | source | states |
|---|---|---|
| `IntText.String2ll` | 9_using_hiredis_api/hiredis/read.c:157-218 | accepts exactly the canonical decimals of the signed 64-bit range and returns the number; the unsigned accumulator never wraps unnoticed |
| `IntText.PrintThenParse` | 9_using_hiredis_api/hiredis/read.c:145-218 | reading the decimal text of any signed 64-bit number gives the number back |
| `IntText.DecimalInjective` | 9_using_hiredis_api/hiredis/sds.c:429-458 | different numbers have different texts |
| `IntText.TooLarge` | 9_using_hiredis_api/hiredis/read.c:192-216 | a digit prefix beyond the range rules out every continuation, so stopping early is right |
| `IntText.NotDecimal` | 9_using_hiredis_api/hiredis/read.c:181-206 | a leading zero or a non-digit rules out that the text is the decimal of any number |
| `IntText.Sdsll2str` | 9_using_hiredis_api/hiredis/sds.c:429-458 | the buffer holds the canonical decimal, NUL-terminated, for every value including LLONG_MIN; nothing behind it changes |
| `IntText.Sdsull2str` | 9_using_hiredis_api/hiredis/sds.c:461-490 | the same over the unsigned 64-bit range |
| `IntText.ReverseInPlace` | 9_using_hiredis_api/hiredis/sds.c:448-456 | the swapping loop reverses exactly the written prefix of the buffer |
| `IntText.CountDigits` | 9_using_hiredis_api/hiredis/hiredis.c:191-201 | the division by 10000 in steps counts exactly the printed digits |
| `Resp.ReplyExtends` | 9_using_hiredis_api/hiredis/read.c:441-488 | a verdict of the recursive grammar on a prefix of the stream is its verdict on the stream: more bytes never change a reply or an error |
| `Resp.RoundTrip` | 9_using_hiredis_api/hiredis/read.c:260-439 | every encodable reply, nested in any way, is rebuilt from its encoding with exactly its bytes consumed if it fits under the nesting limit, and is a protocol error otherwise |
| `Resp.ArrayRoundTrip` | 9_using_hiredis_api/hiredis/read.c:365-439 | the array case of the round trip, with the exact level at which nesting becomes an error |
| `Resp.StatusRoundTripExact` | 9_using_hiredis_api/hiredis/read.c:260-299 | a status text comes back if and only if it contains no CRLF |
| `Resp.StreamRoundTrip` | 9_using_hiredis_api/hiredis/read.c:550-598 | a stream of encoded replies parses to exactly those replies and no error |
| `Resp.ReadIsEncodable` | 9_using_hiredis_api/hiredis/read.c:260-488 | conversely every reply the grammar delivers is encodable and within the nesting limit, so the round trip covers all that is ever emitted |
| `RespWire.IntegerText` | 9_using_hiredis_api/hiredis/read.c:157-218 | exactly the texts of digits without a superfluous zero, with or without a leading byte 45, within the signed 64-bit range are read as numbers, by place value |
| `RespWire.WireReply` | 9_using_hiredis_api/hiredis/read.c:260-488 | which reply or error each first byte, 43, 45, 58, 36 or 42, leads to for every first line ended by 13, 10, with every limit in figures; any other byte is a protocol error |
| `RespWire.WireUnfinished` | 9_using_hiredis_api/hiredis/read.c:441-488 | without the end of its first line a reply is waited for, unless its first byte already rules it out |
| `RespWire.WireNumbers` | 9_using_hiredis_api/hiredis/hiredis.c:204-206 | how numbers are written, byte by byte |
| `RespWire.WireTexts` | 9_using_hiredis_api/hiredis/hiredis.c:204-206 | how texts, nil and counted strings are written, byte by byte |
| `ReplyTree.RepInjective` | 9_using_hiredis_api/hiredis/hiredis.c:100-187 | different replies have different object trees |
| `ReplyTree.PushAgrees` | 9_using_hiredis_api/hiredis/read.c:417-427 | pushing a task for an array turns what is owed to the stack into what is owed to the deeper stack |
| `ReplyTree.PopDelivers` | 9_using_hiredis_api/hiredis/read.c:235-258 | finishing the last element of an array finishes the array in its parent |
| `ReplyTree.NextAgrees` | 9_using_hiredis_api/hiredis/read.c:235-258 | moving to the next element leaves the same reply to be completed |
| `Reader.SeekNewline` | 9_using_hiredis_api/hiredis/read.c:119-143 | returns the first CRLF, or none, with the source's two loops |
| `Reader.SdsRange` | 9_using_hiredis_api/hiredis/sds.c:712-738 | keeps exactly the bytes of the (possibly negative) index range |
| `Reader.RedisReader.constructor` | 9_using_hiredis_api/hiredis/read.c:490-507 | a new reader is valid, empty and without error |
| `Reader.RedisReader.SetError` | 9_using_hiredis_api/hiredis/read.c:47-69 | an error drops the partial reply and the buffer and empties the stack |
| `Reader.RedisReader.ReadLine` | 9_using_hiredis_api/hiredis/read.c:220-233 | yields the text before the next CRLF and moves behind the CRLF, or neither |
| `Reader.RedisReader.StoreObject` | 9_using_hiredis_api/hiredis/hiredis.c:100-187 | writing an object into its parent fills exactly the hole the task stack points at |
| `Reader.RedisReader.MoveToNextTask` | 9_using_hiredis_api/hiredis/read.c:235-258 | pops finished arrays and advances; its asserts hold; ridx is -1 exactly when the root reply is complete |
| `Reader.RedisReader.ProcessLineItem` | 9_using_hiredis_api/hiredis/read.c:260-299 | one line item read as the grammar says, or nothing consumed, or the grammar's error |
| `Reader.RedisReader.ProcessBulkItem` | 9_using_hiredis_api/hiredis/read.c:301-363 | the same for bulk strings and nil |
| `Reader.RedisReader.ProcessMultiBulkItem` | 9_using_hiredis_api/hiredis/read.c:365-439 | the same for array headers, with the nesting limit of the nine-entry stack |
| `Reader.RedisReader.ProcessItem` | 9_using_hiredis_api/hiredis/read.c:441-488 | one item of any type; the type byte survives an interruption; success consumes input |
| `Reader.RedisReader.Feed` | 9_using_hiredis_api/hiredis/read.c:518-548 | appends the chunk to the pending bytes unless the reader has failed |
| `Reader.RedisReader.GetReply` | 9_using_hiredis_api/hiredis/read.c:550-598 | is exactly one step of the recursive grammar on the pending bytes, which WireReply gives byte by byte: reply and rest, wait, or sticky error, even when the parse was interrupted anywhere; fewer than 1024 consumed bytes stay in the buffer |
| `Reader.RedisReader.Compact` | 9_using_hiredis_api/hiredis/read.c:583-589 | consumed bytes are discarded exactly from 1024 on; the unread ones stay as they were |
| `Session.ParseAllExtends` | 9_using_hiredis_api/hiredis/read.c:518-598 | parsing can be cut anywhere: the replies so far, then the parse of the rest with the new bytes |
| `Session.ChunkingInvisible` | 9_using_hiredis_api/hiredis/read.c:518-598 | for every cutting of a stream the replies and the final error are those of one parse |
| `Session.Drain` | 9_using_hiredis_api/hiredis/async.c:425-503 | calling GetReply until it yields nothing gives all complete replies and leaves the rest pending |
| `Session.RunSession` | 9_using_hiredis_api/hiredis/async.c:530-549 | the event loop over the reader, under any chunking, returns the replies and the error of one recursive parse of the whole stream |
| `Command.Bulklen` | 9_using_hiredis_api/hiredis/hiredis.c:204-206 | the predicted length of an argument is the length of its encoding |
| `Command.PredictLength` | 9_using_hiredis_api/hiredis/hiredis.c:524-540 | the predicted total is the length of the command on the wire |
| `Command.FormatCommandArgv` | 9_using_hiredis_api/hiredis/hiredis.c:524-560 | fills a buffer of exactly the predicted size with the encoding of the argument list; its closing assert holds |
| `Command.FormatSdsCommandArgv` | 9_using_hiredis_api/hiredis/hiredis.c:471-513 | the appending variant produces the same bytes |
| `Command.ArgumentsFit` | 9_using_hiredis_api/hiredis/hiredis.c:524-560 | a command below 2 GB has no argument and no count beyond INT_MAX |
| `Command.CommandRoundTrip` | 9_using_hiredis_api/hiredis/hiredis.c:524-560 | the reader's grammar parses the written command back to an array of exactly the arguments, with nothing consumed beyond it |
| `RespWire.CommandBytes` | 9_using_hiredis_api/hiredis/hiredis.c:524-560 | a command is byte 42, the numeral of its argument count, and each argument behind byte 36 and the numeral of its length, each line ended by 13, 10 |
| `RbSpec.HeightBound` | 1_rbtree/rbtree.c:57-108 | height is at most 2 log2(n + 1) in every valid tree |
| `RbSpec.RotationsKeepContent` | 1_rbtree/rbtree.c:6-54 | rotations keep the in-order keys and the set of nodes |
| `RbFix.RedUncle` | 1_rbtree/rbtree.c:63-69 | recolouring under a red uncle moves the only possible violation two levels up and keeps order, nodes and black counts |
| `RbFix.BlackUncleLeft` | 1_rbtree/rbtree.c:70-81 | rotating under a black uncle ends the violation |
| `RbFix.RearrangedHeight` | 1_rbtree/rbtree.c:117-201 | in any tree with equal black counts, every branch of the deletion fix-up restores the black height, except the one that moves the shortage to the parent and a red sibling next to a red parent or red inner nephew |
| `RbFix.ShortClimbs` | 1_rbtree/rbtree.c:131-140 | in that branch the shortage moves to the parent and nothing else changes |
| `RbFix.ShortStops` | 1_rbtree/rbtree.c:115-202 | in the other branches the root is black; black counts are equal again if and only if the stop is level; without red-red before, they are, and red-red is absent after if and only if the stop is clean |
| `RbFix.DeletionCanLeaveRedRed` | 1_rbtree/rbtree.c:122-128 | a concrete valid tree in which deleting 30 leaves 15 red above a red 12, with equal black counts that deleting 15 next would destroy |
| `RbLevel.RecolorEven` | 1_rbtree/rbtree.c:64-69 | a round under a red uncle decides nothing: equal black counts with only black grandparents still to be recoloured stay that way, and counts that are bound to differ in the end stay bound to |
| `RbLevel.LiftEven` | 1_rbtree/rbtree.c:70-81 | the same for the rotations under a black uncle |
| `RbRun.SearchFinds` | 1_rbtree/rbtree.c:291-308 | descending by comparisons finds a key exactly when it is in the tree |
| `RbTree.RBTree.constructor` | 1_rbtree/rbtree.c:360-375 | the new tree is valid and empty |
| `RbTree.RBTree.LeftRotate` | 1_rbtree/rbtree.c:6-29 | the heap represents the rotated tree, or is unchanged when there is no right child |
| `RbTree.RBTree.RightRotate` | 1_rbtree/rbtree.c:31-54 | the mirror image; writes to the sentinel's children are harmless |
| `RbTree.RBTree.Search` | 1_rbtree/rbtree.c:291-308 | finds the node with the key if there is one, else returns the sentinel; it ends where the search on values ends |
| `RbTree.RBTree.AdjustAfterInsert` | 1_rbtree/rbtree.c:57-108 | the loop terminates with a tree of the same content and a black root, whatever the colours; a tree that is valid but for the new node becomes valid; equal black counts survive if and only if every grandparent met is black |
| `RbTree.RBTree.InsertNode` | 1_rbtree/rbtree.c:250-289 | in every search tree with a black root insertion keeps order and links, adds exactly the key and the node, and gives the tree of the rounds on values; a valid tree stays valid; equal black counts survive if and only if InsertsLevel held before; a duplicate changes nothing |
| `RbTree.RBTree.GetSuccessor` | 1_rbtree/rbtree.c:205-217 | returns the leftmost node of the right subtree, or the node itself when there is none |
| `RbTree.RBTree.SwapKeys` | 1_rbtree/rbtree.c:222-231 | swapping keys with the successor leaves the tree represented with the two keys exchanged |
| `RbTree.RBTree.AdjustAfterDelete` | 1_rbtree/rbtree.c:110-203 | the loop terminates with a tree of the same content and a black root; black counts are equal again if and only if the stop is level, which it is without red-red; then red-red is absent if and only if the stop is clean |
| `RbTree.RBTree.DeleteNode` | 1_rbtree/rbtree.c:310-350 | in every search tree with a black root and equal black counts, valid or left by an unclean deletion: removes exactly the key, returns a detached node that carries it, keeps order and links; black counts stay equal if and only if DeletesLevel held, which it does in a valid tree; that one stays valid if and only if DeletesClean held |
| `RbTree.RBTree.DeleteNodeByKey` | 1_rbtree/rbtree.c:352-357 | the same by key, for the node that has it; an absent key changes nothing |
| `RbTree.RBTree.Perform` | 1_rbtree/rbtree.c:250-357 | one insertion or deletion is one step on values and on the set of keys, and its answer says whether it took effect |
| `RbTree.RBTree.Run` | 1_rbtree/rbtree.c:250-357 | over any sequence of insertions and deletions with equal black counts at each deletion, order, links and a black root survive, keys and answers follow the finite set, and the tree is the one computed on values; from a valid tree with clean deletions it is valid at the end |
| `RbRun.RunAt` | 1_rbtree/rbtree.c:250-357 | at every place of a run an insertion succeeds exactly on a new key and adds it, a deletion exactly on a present one and removes it |
| `DeadlockSpec.StepInv` | 11_deadlock_detector/deadlock_detector.c:130-230 | every atomic step of every hook keeps the invariant, and the lookups whose failure is asserted against succeed |
| `DeadlockSpec.RunInv` | 11_deadlock_detector/deadlock_detector.c:130-230 | the invariant holds after every interleaving |
| `DeadlockSpec.FreedUnwanted` | 11_deadlock_detector/deadlock_detector.c:184-212 | when a record is freed no thread is recorded as waiting for it |
| `DeadlockSpec.AlarmIsReal` | 11_deadlock_detector/deadlock_detector.c:239-252 | a cycle of recorded waits is a real deadlock, although holders may be stale or erased |
| `DeadlockSpec.AlarmSound` | 11_deadlock_detector/deadlock_detector.c:130-295 | over all runs an alarm is never false |
| `DeadlockSpec.DeadlockForever` | 11_deadlock_detector/deadlock_detector.c:215-230 | no continuation of the run resolves a deadlock |
| `DeadlockSchedule.DeadlockSeen` | 11_deadlock_detector/deadlock_detector.c:184-212 | a real deadlock at the end of a run is recorded as a cycle if and only if no mutex on it suffered a late after_unlock, one that follows the last after_lock of that mutex |
| `DeadlockSchedule.RecordedAtEnd` | 11_deadlock_detector/deadlock_detector.c:164-212 | whether the owner of a mutex is on record at the end of a run is decided by the schedule: it is unless an after_unlock of the mutex follows its last after_lock |
| `DeadlockSchedule.CanBeLost` | 11_deadlock_detector/deadlock_detector.c:164-212 | the guard: once after_lock is done some continuation erases the owner if and only if a thread is still inside its unlock hook of that mutex |
| `DeadlockSchedule.DeadlockMissed` | 11_deadlock_detector/deadlock_detector.c:184-212 | a concrete run in which a late after_unlock erases a newer holder and a real deadlock stays unrecorded |
| `DeadlockScan.EndsOrRepeats` | 11_deadlock_detector/deadlock_detector.c:239-252 | a wait chain cannot both end and run into a cycle |
| `DeadlockScan.CycleOnCycle` | 11_deadlock_detector/deadlock_detector.c:239-252 | every thread of a recorded cycle lies on a cycle of the wait chain |
| `Deadlock.TaskGraph.SearchVertex` | 11_deadlock_detector/deadlock_detector.c:80-90 | finds the thread's vertex if it is recorded |
| `Deadlock.TaskGraph.SearchLock` | 11_deadlock_detector/deadlock_detector.c:92-102 | finds the mutex's record if it exists |
| `Deadlock.TaskGraph.BeforeLock` | 11_deadlock_detector/deadlock_detector.c:130-162 | the lists change as the protocol step says, with new entries where needed |
| `Deadlock.TaskGraph.AfterLock` | 11_deadlock_detector/deadlock_detector.c:164-182 | the thread becomes the recorded holder and stops waiting |
| `Deadlock.TaskGraph.AfterUnlock` | 11_deadlock_detector/deadlock_detector.c:184-212 | the holder is erased and the record freed with its last user |
| `Deadlock.TaskGraph.GetWaitVertex` | 11_deadlock_detector/deadlock_detector.c:76-78 | follows one recorded wait |
| `Deadlock.TaskGraph.AllVertexUnvisited` | 11_deadlock_detector/deadlock_detector.c:232-237 | no vertex stays marked |
| `Deadlock.TaskGraph.SearchCross` | 11_deadlock_detector/deadlock_detector.c:239-252 | terminates and returns a vertex if and only if the wait chain runs into a cycle; that vertex is on the cycle |
| `Deadlock.TaskGraph.Scan` | 11_deadlock_detector/deadlock_detector.c:275-288 | skipping vertices visited by the last walk still finds a cycle if and only if there is one |
| `Deadlock.TaskGraph.PrintCycle` | 11_deadlock_detector/deadlock_detector.c:254-265 | the walk returns to its start and lists a recorded cycle |
| `Deadlock.TaskGraph.Perform` | 11_deadlock_detector/deadlock_detector.c:130-230 | each hook on the heap lists refines its step of the protocol |
| `Deadlock.TaskGraph.PerformRun` | 11_deadlock_detector/deadlock_detector.c:130-230 | the hooks carry out a whole run on the heap lists, which then represent the recorded graph at its end |
| `Deadlock.TaskGraph.DetectorRound` | 11_deadlock_detector/deadlock_detector.c:268-295 | a reported cycle is a real deadlock that no continuation resolves; without a report every real deadlock suffered a late after_unlock |
| `Deadlock.RunAndDetect` | 11_deadlock_detector/deadlock_detector.c:130-295 | the same from the initial state through any run of the hooks on the heap, with no assumption about the lists |
| `DictSpec.AndMask` | 9_using_hiredis_api/hiredis/dict.c:98-118 | masking with a power of two less one is the remainder: every bucket number is below the size |
| `Dict.NextPower` | 9_using_hiredis_api/hiredis/dict.c:306-315 | the least power of two that is at least 4 and at least the size, or LONG_MAX |
| `Dict.Table.MoveBucket` | 9_using_hiredis_api/hiredis/dict.c:112-124 | every entry of a bucket moves to the bucket its hash selects under the new mask |
| `Dict.Table.MoveAll` | 9_using_hiredis_api/hiredis/dict.c:104-126 | all entries are moved exactly once although the loop stops when the count has run down |
| `Dict.Table.Expand` | 9_using_hiredis_api/hiredis/dict.c:88-132 | a larger table denotes the same map with the same entries, moved to the front of their new buckets in the order of the old table; its assert on `used` holds; too small a size changes nothing |
| `DictSpec.MovedInReverse` | 9_using_hiredis_api/hiredis/dict.c:107-122 | after the move each bucket holds exactly its entries, in the reverse of their old order |
| `Dict.Table.ExpandIfNeeded` | 9_using_hiredis_api/hiredis/dict.c:295-303 | afterwards there is a free slot: size 4 at first, doubled when full, unchanged otherwise |
| `Dict.Table.KeyIndex` | 9_using_hiredis_api/hiredis/dict.c:320-337 | -1 if and only if the key is in the map, else the bucket for it; the table has grown by then if and only if it was empty or full, even for a known key |
| `Dict.Table.Find` | 9_using_hiredis_api/hiredis/dict.c:243-256 | the entry with the key and the map's value, or null if and only if the key is not in the map |
| `Dict.Table.Add` | 9_using_hiredis_api/hiredis/dict.c:135-154 | adds the pair exactly when the key is new, at the front of its bucket if the table does not grow; otherwise the map is unchanged; the size is 4 at first, doubled when full, else unchanged |
| `Dict.Table.Replace` | 9_using_hiredis_api/hiredis/dict.c:160-179 | the map is updated in either case; the result says whether the key was new |
| `Dict.Table.Delete` | 9_using_hiredis_api/hiredis/dict.c:182-210 | removes exactly the key and unlinks exactly its entry, or reports that there is none |
| `Dict.Cursor.constructor` | 9_using_hiredis_api/hiredis/dict.c:258-266 | a fresh iterator has every entry still to come |
| `Dict.Cursor.Next` | 9_using_hiredis_api/hiredis/dict.c:268-286 | returns the next of the entries still to come, or null when there is none |
| `Dict.EveryEntryOnce` | 9_using_hiredis_api/hiredis/dict.c:268-286 | the order of iteration contains every entry exactly once |
| `Dict.DeleteReturned` | 9_using_hiredis_api/hiredis/dict.c:278-281 | deleting the entry just returned leaves what is still to come untouched |
| `Dict.VisitAll` | 9_using_hiredis_api/hiredis/dict.c:258-286 | a walk that deletes entries on the way meets every original entry once and removes exactly the doomed keys |
| `Dict.RunOps` | 9_using_hiredis_api/hiredis/dict.c:88-337 | any sequence of insertions, updates, deletions and lookups answers and ends like the finite map, with the buckets that BucketsAfter counts, as long as the map stays below the 2^31 buckets an int can number; runs can be chained |
| `Dict.RunAt` | 9_using_hiredis_api/hiredis/dict.c:135-256 | at every place of a run an insertion adds a new key and leaves an old one alone, an update sets its key either way, an erasure removes it, and a lookup answers with its value or none |
| `Dict.BucketsInProportion` | 9_using_hiredis_api/hiredis/dict.c:295-315 | over any run buckets are never given back, and a table that grew has four buckets or at most twice as many as the largest number of keys |
| `Async.CallbackList.Push` | 9_using_hiredis_api/hiredis/async.c:227-247 | appends to the list, with head and tail right in all cases |
| `Async.CallbackList.Shift` | 9_using_hiredis_api/hiredis/async.c:249-263 | takes the first callback, or reports that there is none |
| `Async.ExactlyOnce` | 9_using_hiredis_api/hiredis/async.c:265-317 | when nothing is queued each accepted command has been answered exactly once and in order: the i-th by the i-th reply, the leftovers by NULL |
| `Async.CallAt` | 9_using_hiredis_api/hiredis/async.c:265-272 | the call made for a command sits at its rank among those with a function and carries its answer |
| `Async.EffectCloses` | 9_using_hiredis_api/hiredis/async.c:323-363 | a script closes the context if and only if it says so somewhere or the context was closing before |
| `Async.EffectUntilClosed` | 9_using_hiredis_api/hiredis/async.c:611-675 | of a script that closes the context exactly the commands before the first closing call are accepted, and only their bytes are written |
| `Async.AsyncContext.constructor` | 9_using_hiredis_api/hiredis/async.c:105-142 | a new context is idle with empty books |
| `Async.AsyncContext.Command` | 9_using_hiredis_api/hiredis/async.c:611-675 | a regular command is accepted if and only if closing has not begun, and then queued last |
| `Async.AsyncContext.Disconnect` | 9_using_hiredis_api/hiredis/async.c:358-363 | sets the flag; releases at once only outside callbacks with nothing queued |
| `Async.AsyncContext.Free` | 9_using_hiredis_api/hiredis/async.c:323-328 | sets the flag; releases at once only outside callbacks |
| `Async.AsyncContext.AsyncDisconnect` | 9_using_hiredis_api/hiredis/async.c:331-350 | its assert holds: a disconnect without error finds an empty queue |
| `Async.AsyncContext.AsyncFree` | 9_using_hiredis_api/hiredis/async.c:281-283 | every queued callback gets NULL, none of them can queue another command, and the context is released once |
| `Async.AsyncContext.RunCallback` | 9_using_hiredis_api/hiredis/async.c:265-272 | a callback that re-enters gets exactly those commands accepted that it issues before closing begins; the books stay sound and the context is not released under it |
| `Async.AsyncContext.HandleReply` | 9_using_hiredis_api/hiredis/async.c:449-498 | a reply goes to the first queued command; without one an error reply releases the context and any other stops at the assert |
| `Async.AsyncContext.Deliver` | 9_using_hiredis_api/hiredis/async.c:482-489 | the first queued callback gets the reply; a free requested in it is carried out afterwards |
| `Client.ProcessCallbacks` | 9_using_hiredis_api/hiredis/async.c:425-503 | replies go to the commands in order as TakeReplies says; a context left open has no complete reply pending, no reader error, and is not disconnecting with nothing queued and nothing to write; a release without an error happens only for a free or in exactly that idle state |
| `Client.HandleRead` | 9_using_hiredis_api/hiredis/async.c:530-549 | a chunk is fed to the reader and all complete replies are processed |
| `Client.HandleEvent` | 9_using_hiredis_api/hiredis/async.c:323-675 | each event takes the heap exactly where the model takes the state, and for every event that is not readable its effect is stated outright; the context ends exactly when the life of the model ends |
| `Client.LifeLater` | 9_using_hiredis_api/hiredis/async.c:600-675 | over any sequence of events the accepted commands are the first ones asked for, all of them unless closing began; once closing has begun none is accepted and closing is never undone |
| `Client.LifeAt` | 9_using_hiredis_api/hiredis/async.c:323-675 | a life takes its events one by one, and nothing happens after its end |
| `Client.RepliesEnd` | 9_using_hiredis_api/hiredis/async.c:425-503 | processing replies releases the context if and only if there is a reason to: a protocol error, a free, an error reply no command waits for, or the idle disconnect when the replies run out; otherwise it goes on, or stops at a reply no command waits for |
| `Client.AllAsked` | 9_using_hiredis_api/hiredis/async.c:600-675 | with callbacks that issue no commands, the commands asked for over a life are those of the user, each once and in order |
| `Client.LifeOnWire` | 9_using_hiredis_api/hiredis/async.c:425-503 | the replies a life takes are the first replies of one parse of its stream, all of them if it goes on; a process that stops does so at a reply no command is waiting for |
| `Client.CutsInvisible` | 9_using_hiredis_api/hiredis/async.c:425-503 | a chunk may be cut anywhere without any difference to the client, unless the client leaves at the cut |
| `Client.ChunksJoin` | 9_using_hiredis_api/hiredis/async.c:530-549 | two readable events in a row are one with both chunks, for everything that follows, unless the client leaves between them |
| `Client.Found` | 9_using_hiredis_api/hiredis/read.c:550-598 | what one call of the reader finds in the pending bytes it finds in the whole stream |
| `Client.SoundInOrder` | 9_using_hiredis_api/hiredis/async.c:265-272 | sound books mean that every call made carries the answer to its command, in order |
| `Client.Live` | 9_using_hiredis_api/hiredis/async.c:227-675 | over any life of a client, whatever callbacks do: acceptance, closing, release and stopping are exactly those of the model; however the bytes are cut into chunks, the i-th accepted command is answered by the i-th reply of one parse of the stream, leftovers by NULL and only after an error or a free |
| `Kmp.BorderOfBorder` | 0_kmp_and_linkedlist/kmp.c:40-43 | the borders of a border are the shorter borders of the whole |
| `Kmp.Retreat` | 0_kmp_and_linkedlist/kmp.c:40-43 | falling back through the table skips no border that could be extended |
| `Kmp.MakeNext` | 0_kmp_and_linkedlist/kmp.c:30-52 | each entry is the longest proper border of its prefix; at most 2m loop turns |
| `Kmp.Search` | 0_kmp_and_linkedlist/kmp.c:56-84 | the first occurrence, or -1 if and only if there is none (or the pattern is empty); at most 2n loop turns |
| `LinkedList.MustMeet` | 0_kmp_and_linkedlist/linkedTest.cpp:180-186 | if the chain does not end, the two pointers meet within as many turns as the heap has nodes |
| `LinkedList.LoopedNeverEnds` | 0_kmp_and_linkedlist/linkedTest.cpp:168-189 | a chain that ends never revisits a node |
| `LinkedList.IsListLooped` | 0_kmp_and_linkedlist/linkedTest.cpp:168-189 | terminates on every finite heap and returns true if and only if the chain revisits a node |
| `LinkedList.CountListNodeNum` | 0_kmp_and_linkedlist/linkedTest.cpp:237-248 | terminates on an acyclic chain with its exact length |
| `LinkedList.GetNthNode` | 0_kmp_and_linkedlist/linkedTest.cpp:224-235 | the n-th node, or null behind the end |
| `LinkedList.Aligned` | 0_kmp_and_linkedlist/linkedTest.cpp:192-221 | a shared node has the same number of nodes behind it on both chains |
| `LinkedList.IsListCrossed` | 0_kmp_and_linkedlist/linkedTest.cpp:192-221 | the first node that two acyclic chains share, or null if and only if they share none |
| `Sequences.ReversedTwice` | 0_kmp_and_linkedlist/linkedTest.cpp:274-289 | reversing twice restores the order |
| `LinkedList.ReverseList` | 0_kmp_and_linkedlist/linkedTest.cpp:274-289 | relinks exactly the same nodes in place: an ending list in reverse order; a list that runs into a cycle keeps its way to the cycle and has the cycle reversed |
| `Quoting.CatRepr` | 9_using_hiredis_api/hiredis/sds.c:856-879 | appends the quoted form of the bytes |
| `Quoting.HexChar` | 9_using_hiredis_api/hiredis/sds.c:872-873 | a printed hex digit is read back as its value by hex_digit_to_int |
| `Quoting.EscapeMeans` | 9_using_hiredis_api/hiredis/sds.c:948-971 | each escape is read back as the byte it stands for, whatever follows |
| `Quoting.NextToken` | 9_using_hiredis_api/hiredis/sds.c:941-1019 | one token in the three quoting modes, or the error exit |
| `Quoting.SplitArgs` | 9_using_hiredis_api/hiredis/sds.c:931-1039 | the imperative scanner computes the arguments of the line as the recursive definition gives them, or fails; what that means for quoted, bare and escaped text is stated byte by byte by DoubleQuoted, SingleQuoted, BareWord and Blanks |
| `Quoting.QuotingRoundTrip` | 9_using_hiredis_api/hiredis/sds.c:856-1039 | quoted arguments, joined with any blanks, split back into exactly the arguments for all byte strings; no NUL is written |
| `QuotingText.DoubleQuoted` | 9_using_hiredis_api/hiredis/sds.c:948-982 | between double quotes every character stands for itself, except behind a backslash, where n, r, t, b, a and two hexadecimal digits of either case behind x have their meaning; a bare part before belongs to the same argument, the closing quote must be followed by a blank or nothing, and an open one fails |
| `QuotingText.DoubleQuotedAlone` | 9_using_hiredis_api/hiredis/sds.c:931-1039 | a whole line in double quotes is one argument with exactly the bytes its pieces stand for |
| `QuotingText.SingleQuoted` | 9_using_hiredis_api/hiredis/sds.c:983-997 | the same between single quotes, where everything stands for itself but the escaped single quote |
| `QuotingText.BareWord` | 9_using_hiredis_api/hiredis/sds.c:998-1017 | a bare word ends at space, tab, line feed or carriage return, not at vertical tab or form feed |
| `QuotingText.Blanks` | 9_using_hiredis_api/hiredis/sds.c:938-939 | the six blanks between arguments are skipped |
| `QuotingText.EscapeBytes` | 9_using_hiredis_api/hiredis/sds.c:859-875 | the bytes each character is written as |
| `QuotingText.ReprBytes` | 9_using_hiredis_api/hiredis/sds.c:856-879 | characters are written one after the other between double quotes |
| `MemPool.Pool.constructor` | 8_mem_pool/MemPool.c:186-207 | a new pool has one empty block of the requested size, at most a page |
| `MemPool.Pool.MallocBlock` | 8_mem_pool/MemPool.c:20-36 | the new block is appended to the chain |
| `MemPool.Pool.FindBlock` | 8_mem_pool/MemPool.c:38-60 | the first block with room from the current one on; failures are counted and the current block moves past those that failed too often, never to null |
| `MemPool.Pool.OverflowedTakesAll` | 8_mem_pool/MemPool.c:15-18 | the size_t difference wraps for a block that a piece sticks out of, which then takes a piece if and only if the piece ends before the ends have gone once round the 64-bit address space |
| `MemPool.Pool.Cut` | 8_mem_pool/MemPool.c:47-51 | a new piece overlaps no live piece and the reference count follows |
| `MemPool.Pool.Malloc` | 8_mem_pool/MemPool.c:223-235 | a fresh piece disjoint from all live ones, cut where the free part of the first block with room, from the current one on, began; a block is added if and only if none had room; it lies inside its block if and only if the request leaves room for the header |
| `MemPool.Pool.TakeBlock` | 8_mem_pool/MemPool.c:38-60 | the block served is the first with room from the current one on, and only if there is none a new one; the blocks passed over are blamed and the current block moves as FindBlock says |
| `MemPool.Pool.MallocPiece` | 8_mem_pool/MemPool.c:38-60 | the piece starts at the old start of the free part of that block |
| `MemPool.Pool.Free` | 8_mem_pool/MemPool.c:237-269 | exactly the piece dies; with auto-clear its block is rewound if and only if it has no live piece left |
| `MemPool.Pool.ClearBlock` | 8_mem_pool/MemPool.c:143-184 | a block is rewound if and only if it has no live piece |
| `MemPool.Pool.Reset` | 8_mem_pool/MemPool.c:272-301 | all pieces are given up and all blocks rewound |
| `MemPool.OversizedPiece` | 8_mem_pool/MemPool.c:223-229 | a concrete request, 128 bytes from blocks of 128, whose piece ends behind its block |
| `MemPool.ServedAt` | 8_mem_pool/MemPool.c:223-301 | at every place of a run an allocation adds one piece of exactly its size, a release takes out the piece it names and no other, a reset leaves nothing |
| `MemPool.Run` | 8_mem_pool/MemPool.c:223-301 | over any run of requests for at most a block, releases of held pieces and resets, exactly the requested sizes are held, live pieces never overlap and each block counts its own; they lie inside their blocks as long as the requests leave room for the header |
| `ThreadPool.OnePlace` | 7_thread_pool/ThreadPool.cpp:125-170 | every accepted task is in exactly one place: waiting in order, running on exactly one thread, or finished |
| `ThreadPool.Pool.constructor` | 7_thread_pool/ThreadPool.cpp:47-58 | the pool starts with the minimum number of unmarked threads |
| `ThreadPool.Pool.TerminateSomeThread` | 7_thread_pool/ThreadPool.cpp:62-78 | an idle pool of more than four threads has all but the larger of four and half of them marked, the first ones of the list; any other pool is left as it is |
| `ThreadPool.Pool.ActiveSomeThread` | 7_thread_pool/ThreadPool.cpp:82-100 | when all threads are busy and at least half as many tasks wait, the threads double, or reach the maximum if that is less; otherwise none is created |
| `ThreadPool.Pool.AcceptATask` | 7_thread_pool/ThreadPool.cpp:102-111 | the task joins the end of the queue |
| `ThreadPool.Pool.WakeUp` | 7_thread_pool/ThreadPool.cpp:130-154 | a marked thread leaves the list; another starts the oldest waiting task, and the pool grows exactly when all are then busy and many tasks wait |
| `ThreadPool.Pool.Remove` | 7_thread_pool/ThreadPool.cpp:134-144 | one thread leaves; before destruction the list never becomes empty |
| `ThreadPool.Pool.FinishTask` | 7_thread_pool/ThreadPool.cpp:160-169 | the task becomes finished and the surplus is marked, exactly as an idle pool demands |
| `ThreadPool.Pool.Perform` | 7_thread_pool/ThreadPool.cpp:62-170 | a task that arrives waits at the end; a thread that gets the mutex leaves if marked, else starts the oldest task if there is one; a running task that ends is finished |
| `ThreadPool.RunsJoin` | 7_thread_pool/ThreadPool.cpp:125-170 | a run of the pool can be cut anywhere |
| `ThreadPool.TasksGetDone` | 7_thread_pool/ThreadPool.cpp:125-170 | no task is stuck: from every state of the pool, one waiting thread that is not marked can finish all waiting tasks in their order, and nothing else becomes finished |
| `ThreadPool.Pool.Run` | 7_thread_pool/ThreadPool.cpp:62-170 | over any interleaving the pool goes where the steps take it as a value: tasks are conserved and started in order of arrival, the busy count is the number of running threads, and the thread bounds hold |

## Left out

- RbTree.RBTree.DeleteNode: promises a valid tree only under `DeletesClean`, because the red-sibling case of the code stops without looking at the children of the nephew it reddens (1_rbtree/rbtree.c:122-128); trees whose black counts already differ are excluded, since the fix-up then reads child fields of the sentinel, which hold whatever earlier rotations left there.
- RbTree.RBTree.SwapKeys: exchanges keys only; the user's callback that exchanges the data is not modelled.
- Reader.RedisReader.StoreObject: reply objects are a tree value with holes instead of heap objects, so aliasing between a reply and its parent array is not captured; custom and NULL reply functions are not modelled.
- Reader.RedisReader.Feed: the allocator's spare capacity is a parameter, because only the rule for dropping an empty oversized buffer depends on it.
- Reader.RedisReader.ProcessBulkItem: the addition len+2 (9_using_hiredis_api/hiredis/read.c:336) is signed and undefined for the two largest lengths, which the wire can carry; the model takes it to wrap, as two's complement does.
- IntText.ReverseInPlace: arrays replace pointer pairs into the buffer.
- Command.FormatCommandArgv: arguments carry their lengths; strlen on a NULL length array is not modelled.
- DeadlockSchedule.DeadlockSeen: completeness is claimed up to late after_unlock calls, which erase a newer holder.
- Deadlock.TaskGraph.Scan: the vertex and lock lists are sequences of heap records rather than next pointers; visited, waitting, holder and used are fields updated in place.
- Deadlock.TaskGraph.PrintCycle: returns the thread numbers; thread names and printing are left out.
- Dict.Table.Add: hash, comparison, duplication and destructor callbacks are a hash function and value equality; entries are not freed. The bucket index is an `int`, so tables beyond 2^31 buckets are excluded.
- Dict.Cursor.Next: the `int` index stays below INT_MAX, which the size bound guarantees until the walk has ended.
- Async.AsyncContext.Command: only regular commands; SUBSCRIBE, UNSUBSCRIBE and MONITOR, whose bookkeeping leaks between channels of one command, are excluded, and so are connect and disconnect hooks that re-enter the context.
- Async.AsyncContext.AsyncFree: callbacks of subscriptions and of invalid commands, and the disconnect hook with its status, are not modelled.
- Async.AsyncContext.HandleReply: subscribed and monitoring contexts are not modelled; the process stopping at the assert for spontaneous replies is a state of the model.
- Client.Live: the bytes of one connection stay below INT_MAX in all, as the buffer of the reader must; reading and writing the socket are events.
- Kmp.Search: patterns longer than the 20-entry table are excluded; the code writes beyond it.
- LinkedList.IsListCrossed: both chains must end; the node count of the code does not terminate otherwise.
- Quoting.CatRepr: isprint and isspace are those of the C locale.
- MemPool.Pool.Malloc: requests larger than a block go to buckets, which are left out because a new bucket descriptor's next pointer is never set; failure counters are unbounded; addresses are a block and an offset.
- MemPool.Pool.Free: the header in front of the data is read as the piece's block; that no live piece overlaps it is proved.
- MemPool.Pool.ClearBlock: unlinking the bucket descriptors of a cleared block is left out with the buckets.
- ThreadPool.Pool.Run: waiting and wake-ups are scheduling choices; that every task can be finished is proved, that every schedule finishes it is not, because a wake-up can be consumed by a thread that is about to terminate; destruction is not modelled.
- 2_btree: deletion replaces a key with the child's first key instead of the subtree minimum, so the intended contract is not met.
- redisvFormatCommand's format strings, out-of-memory paths, sockets, files, epoll, MySQL and Redis connections, DNS, netmap, the connection pool, the leak detector and the language demos: input and output, foreign calls or easy members.
