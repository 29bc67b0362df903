# LiteKV, verified

LiteKV is a Redis-like key-value store in C++. This project models its hand-written data structures
and its two persistence formats in Dafny and proves that they do what the store needs of them:

- **Skip list** (`SkipList.dfy`): linked nodes with any choice of levels behave as a finite set of
  (score, data) pairs; every level is exactly the chain of the nodes tall enough for it.
- **Incrementally rehashed dictionary and set** (`Hash.dfy`): two chained tables with one slot moved
  per operation behave as a plain map at every point of a migration, and at the default load factor
  a migration is over before the next one is due.
- **Blocked deque** (`DList.dfy`): a doubly linked chain of 128-slot blocks behaves as a sequence.
- **Commands and container** (`Store.dfy`, `Commands.dfy`, `CommandTable.dfy`, `Container.dfy`,
  `Objects.dfy`, `Engine.dfy`, `Recency.dfy`): the mutating commands, what each handler logs, the 512
  buckets with their key pool, visit times and eviction. Replaying the log rebuilds the store exactly
  when no empty string was popped.
- **Append-only log** (`Protocol.dfy`, `Persistence.dfy`, `Compaction.dfy`, `Limits.dfy`, `Sizes.dfy`,
  `EndToEnd.dfy`): the RESP printer, the restartable parser, the chunked loader, the two caches in
  front of the file, and the compactor. Bytes written, cut into any chunks, parsed, compacted,
  written, cut again, parsed and replayed give the same store.
- **Binary snapshot** (`Varint.dfy`, `Snapshot.dfy`, `SnapshotFile.dfy`): a base-128 integer codec
  (unsigned LEB128, section 7.6 of DWARF version 4) under a framed record format. A store comes back
  from its snapshot exactly when its collections are not empty and hold no empty string.

`Wrappers.dfy`, `ByteStrings.dfy` and `Decimal.dfy` hold options, byte strings and the decimal numbers
of the C library.
`dafny verify dfyconfig.toml` checks everything.

## How to read it

Objects that the program updates in place are classes with a `Valid()` predicate: nodes, tables,
lists, buffers, the container, the engine, the log file and the snapshot reader. Their methods are
tied to functions on plain values (`SetStep`, `MapStep`, `SeqStep`, `Parse`, `Handle`, `Load`), and
the laws are lemmas about those functions. What these functions mean is said once more without them:
scores and bytes for the order of the skip list, positions and literal bytes for decimal numbers, the
wire format, varints and the snapshot, and a table of the commands by the bytes of their names. The
`Run` methods and lemmas lift each law from one call to every run. Random choices (levels, eviction
samples, the order in which an unordered container is walked) are parameters or arbitrary choices, so
each statement holds for all of them. The clock is a parameter. Files are byte strings.

Four places where the code does not do what one would expect are stated as they are:

- A handler logs a pop only if the popped element is not empty, so popping an empty string makes the
  log diverge (`EmptyPopDiverges`); `LogReplays` gives the exact condition.
- `Append` swaps the caches when the current one is full, whatever the other one holds, so without a
  flush in between commands change places (`SwitchReorders`); `OrderKept` gives the exact condition.
- `RemoveRedundancy` files a `del` under its first key only (`MultiKeyDelComesBack`) and indexes its
  simulated list with a negative index (`NegativeIndexUndefined`); `RightIff` and
  `DefinedIff` give the exact conditions.
- An empty collection leaves no byte in a snapshot, and the loader ends a collection at an empty
  string (`EmptiedListIsLost`, `EmptyMemberIsLost`); `SnapshotRoundTripIff` gives the exact condition.

The eviction loop of the LRU policy never counts what it deletes; `KeyEvictionLru` states what
follows from that. The level-lowering loop of `Skiplist::Remove` is modelled with its counter compared
before the array access; the level that results is the same.

## Model

| member | source | states |
|---|---|---|
| `SkipOrder.CmpMeans` | src/skiplist.h:49-63 | the comparator says smaller exactly if the score is lower or, on equal scores, the data (as far as a NUL lets it be seen) is a proper prefix or has the smaller byte at the first difference |
| `SkipOrder.CmpIsLex` | src/skiplist.h:49-63 | with `strncmp` stopping at a NUL it is a lexicographic order of scores and canonical data, so it is total |
| `SkipOrder.CmpZero` | src/skiplist.h:49-63 | it answers 0 exactly for keys that are equal up to what lies behind a NUL, and is antisymmetric |
| `SkipOrder.CmpTransitive` | src/skiplist.h:49-63 | it is transitive |
| `SkipOrder.NulHidesDifference` | src/skiplist.h:49-63 | two different data strings that the comparator takes for equal because of a NUL |
| `SkipLists.InOrder` | src/skiplist.cpp:65-102 | in every valid list scores ascend along the nodes, and equal scores with NUL-free data go by prefix and first differing byte |
| `SkipLists.Skiplist.SearchLevel` | src/skiplist.cpp:181-184 | walking one level ends at the last node of that level smaller than the target |
| `SkipLists.Skiplist.FindPath` | src/skiplist.cpp:176-192 | from any start level in 0..31 the search ends at the last level-0 node smaller than the target, and the path holds the predecessor of its place on every level searched |
| `SkipLists.Skiplist.Find` | src/skiplist.cpp:194-208 | from any start level, the node found is the last one that comes before the target in score and bytes; its successor decides membership |
| `SkipLists.Skiplist.Contains` | src/skiplist.cpp:104-113 | membership in the set of canonical keys |
| `SkipLists.Skiplist.Insert` | src/skiplist.cpp:65-102 | for every level in 1..32: adds the key exactly if it is absent, splices one new node into every level it reaches, and keeps all links, `prev`, count and maximum level right |
| `SkipLists.LinkLevels` | src/skiplist.cpp:90-93 | relinking level by level turns the links of the old chain into those of the chain with the new node |
| `SkipLists.UnlinkLevels` | src/skiplist.cpp:129-133 | relinking level by level takes the node out of exactly the levels it is on |
| `SkipLists.Skiplist.LowerLevel` | src/skiplist.cpp:138-144 | the loop stops at the largest level of the nodes left, 0 if there are none |
| `SkipLists.Skiplist.Remove` | src/skiplist.cpp:115-148 | removes the key exactly if it is present, by taking one node out of the chain, and keeps the structure |
| `SkipLists.Skiplist.Clear` | src/skiplist.cpp:150-165 | leaves the head alone with all its links cleared |
| `SkipLists.Skiplist.GatherAllNodes` | src/skiplist.cpp:210-223 | the level-0 chain, with or without the head; without it, by ascending score and bytes |
| `SkipLists.Skiplist.End` | src/skiplist.h:158-167 | the last node, or null; no node has a larger score |
| `SkipLists.Run` | src/skiplist.cpp:65-165 | every run of inserts, removals, lookups and clears, for every choice of levels, keeps the whole structure and answers as a finite set does |
| `Chains.PushFront` | src/hashdict.cpp:12-18 | a new entry in front of its chain gives the table of the map with that binding |
| `Chains.DropEntry` | src/hash.h:149-157 | unlinking an entry gives the table of the map without its key |
| `HashStructs.HashStruct.FindEntry` | src/hash.h:196-207 | the place of the key in its chain, or none exactly if the key is not in the table |
| `HashStructs.HashStruct.UpdateKV` | src/hashdict.cpp:3-25 | the table holds the updated map, the status tells new from updated, and a new entry stands at the head of its chain |
| `HashStructs.HashStruct.Add` | src/hashset.cpp:26-48 | adds an absent item at the head of its chain and leaves a present one alone |
| `HashStructs.HashStruct.EraseKey` | src/hash.h:137-161 | the table of the map without the key; answers whether it was there |
| `HashStructs.HashStruct.StepRehashingIdx` | src/hash.h:219-228 | moves on to the next occupied slot, skipping only empty ones, or to -1 if there is none |
| `HashStructs.HashStruct.EnsureAllSlotsEmpty` | src/hash.h:117-124 | answers whether every slot is empty |
| `HashStructs.HashStruct.AllEntries` | src/hash.h:182-194 | every binding of the table exactly once |
| `Rehashables.DefaultLoad` | src/rehashable.h:55-58 | at load factor 1.0 a table is overloaded exactly if it has more entries than slots |
| `Rehashables.LoadIs` | src/hash.h:100-100 | at any load factor a table is overloaded exactly if it has more entries than that factor times its slots |
| `Rehashables.MoveSlot` | src/rehashable.h:133-146 | moving a slot takes each of its entries out of the one table and puts it into the other; together they hold the same map |
| `Rehashables.Rehashable.CheckNeedRehash` | src/rehashable.h:55-63 | true exactly if a rehash is under way or the load is too high; a new rehash starts at the first occupied slot |
| `Rehashables.Rehashable.TakeOver` | src/rehashable.h:147-155 | once stepping has yielded -1 the emptiness test holds and the backup takes over |
| `Rehashables.Rehashable.PerformRehash` | src/rehashable.h:126-156 | one slot moves; no entry is lost or duplicated; the backup exists exactly while a rehash is under way |
| `Rehashables.Rehashable.Step` | src/rehashable.h:126-156 | at load factor 1.0 the total stays within slots plus rehashing index, the backup never exceeds load 1, and none is due when a rehash finishes; at any load factor a due rehash loses one of at most `slots` steps, or is over with twice the slots |
| `Rehashables.Rehashable.Update` | src/hashdict.cpp:77-97 | updates the map at every point of a rehash, with the right status |
| `Rehashables.Rehashable.Insert` | src/hashset.cpp:52-73 | adds to the set at every point of a rehash, with the right status |
| `Rehashables.Rehashable.Erase` | src/rehashable.h:76-86 | removes the key from whichever table has it |
| `Rehashables.Rehashable.At` | src/hashdict.cpp:113-127 | the value under the key, or the exception, at every point of a rehash |
| `Rehashables.Rehashable.CheckExists` | src/rehashable.h:103-109 | membership, looking into both tables |
| `Rehashables.Rehashable.Count` | src/rehashable.h:43-48 | the size of the map |
| `Rehashables.Rehashable.AllEntries` | src/rehashable.h:111-124 | every binding exactly once, from both tables |
| `Rehashables.Run` | src/rehashable.h:76-156 | every run, at any load factor and whatever rehashes fall into it, answers as a plain map or set does |
| `Rehashables.FinishRehash` | src/rehashable.h:126-156 | from when a rehash is due, it is over within as many stepping operations as the old table has slots, at any load factor, and meanwhile every answer is that of a map; at load factor 1.0 no other rehash is due at that moment |
| `DLists.DList.constructor` | src/dlist.cpp:4-14 | two linked blocks and an empty sequence |
| `DLists.DList.LenIsSum` | src/dlist.cpp:20-145 | the length is the sum of the counters of all blocks |
| `DLists.DList.PushLeft` | src/dlist.cpp:20-50 | the sequence with the value in front; cells stay contiguous, occupancy and cursors exact, a block is added only at the edge |
| `DLists.DList.PushRight` | src/dlist.cpp:52-81 | the sequence with the value behind, likewise |
| `DLists.DList.PopLeft` | src/dlist.cpp:91-119 | hands out the first element, or an empty string if there is none |
| `DLists.DList.PopRight` | src/dlist.cpp:121-145 | hands out the last element, or an empty string if there is none |
| `DLists.DList.NodeAtIndex` | src/dlist.cpp:320-333 | division finds the block and the offset of every index in range |
| `DLists.DList.Get` | src/dlist.cpp:147-162 | the i-th element of the sequence, or the exception exactly outside the range |
| `DLists.DList.Set` | src/dlist.cpp:147-162 | overwriting through `operator[]` changes that element of the sequence and no other |
| `DLists.DList.RangeAll` | src/dlist.cpp:164-185 | the full range is the whole sequence |
| `DLists.DList.Range` | src/dlist.cpp:187-217 | a range starting inside the list is the slice, clipped at the end |
| `DLists.DList.FreeRedundantNodes` | src/dlist.cpp:257-286 | on a non-empty list no element moves, and one free block at most is left at either end |
| `DLists.Run` | src/dlist.cpp:20-162 | every run of pushes, pops, overwrites and releases of spare blocks does and answers what a plain sequence does |
| `Decimal.ScanDec` | src/net/buffer.cpp:151-160 | reading a printed number gives it back and stops behind it, whatever follows |
| `Decimal.DecimalIff` | src/net/net.h:57-69 | a number is printed as its decimal digits, each at its power of ten, without a leading zero, and nothing else is |
| `Decimal.DecIs` | src/str.cpp:124-138 | a minus sign is printed for negative numbers only |
| `Decimal.ScanText` | src/net/buffer.cpp:151-160 | reading takes white space, a sign or none, and digits at their powers of ten |
| `Decimal.CanonicalIff` | src/str.cpp:124-154 | a string converts to a number exactly if it is the printed form of a number in range |
| `Decimal.CanonicalNone` | src/str.cpp:124-154 | it is refused exactly if it is the printed form of no number in range |
| `Resp.ParseComplete` | src/net/protocol.cpp:41-137 | a complete command is accepted from an empty cache with its very arguments and length, whatever follows; from a stale cache it costs one refused call that clears the cache |
| `Resp.ParsePrefix` | src/net/protocol.cpp:41-137 | a strict prefix is refused, with the error flag set only for a single byte, and the cache cleared or left with the arguments read so far |
| `Resp.BoundaryKeepsStale` | src/net/protocol.cpp:74-77 | bytes that end between two arguments are refused without an error and leave exactly the arguments in front in the cache |
| `Resp.GarbageRefused` | src/net/protocol.cpp:78-85 | any byte but `$` where an argument should start is an error, and the cache is cleared |
| `Resp.ShapeIff` | src/net/net.h:57-69 | the printed form is, byte by byte, 42, the count in decimal, 13 10, and for each argument 36, its length in decimal, 13 10, the argument, 13 10 |
| `Resp.ShapeAccepted` | src/net/protocol.cpp:41-137 | a buffer that starts with bytes of this shape is accepted with these arguments, whatever follows |
| `Resp.Ping` | src/net/protocol.cpp:41-137 | the fourteen bytes of one command, printed and accepted |
| `Buffers.Buffer.MoveReadableToHead` | src/net/buffer.h:45-52 | the readable bytes move to the front unchanged, and zeros follow them |
| `Buffers.Buffer.EnsureBytesForWrite` | src/net/buffer.cpp:23-39 | room for n bytes without touching the readable ones |
| `Buffers.Buffer.Append` | src/net/buffer.cpp:9-15 | the readable bytes grow by exactly the appended ones |
| `Buffers.Buffer.ReaderIdxForward` | src/net/buffer.cpp:41-44 | drops bytes from the front, never past the write index |
| `Buffers.Buffer.Reset` | src/net/buffer.cpp:17-21 | nothing readable is left |
| `Buffers.Buffer.NumberEndsAtWriter` | src/net/buffer.cpp:151-160 | reading a number from the raw array reads exactly the number in the readable bytes, because zeros lie behind the write index |
| `Buffers.Buffer.ReadLongFrom` | src/net/buffer.cpp:151-160 | the number at an index of the readable bytes and its length, from the raw array |
| `Buffers.Buffer.ReadStdStringFrom` | src/net/buffer.cpp:90-96 | up to `len` of the readable bytes from an index on, nothing behind the write index |
| `Buffers.Buffer.ReadableCharacterAt` | src/net/buffer.cpp:98-102 | the readable byte at an index, the last one for an index past the end |
| `Loader.ToProtocolString` | src/net/net.h:57-69 | the loop prints the encoding that the parser is proved against, which has the literal shape of the format |
| `Loader.ParseArg` | src/net/protocol.cpp:78-126 | walking an index over the raw buffer reads the argument, or refuses it with the error flag, as the specification does on the bytes from there on |
| `Loader.ParseArgs` | src/net/protocol.cpp:74-128 | the argument loop collects, runs out or breaks exactly as the specification says |
| `Loader.TryParseFromBuffer` | src/net/protocol.cpp:41-137 | result, error flag, cache and buffer after each of the outcomes, read off the raw buffer by index; bytes of the literal shape of a command are taken as that command, and a buffer whose first byte is not 42 is discarded with an error |
| `Loader.ParseStream` | src/net/protocol.cpp:41-137 | on the first part of a command stream the parser takes the next command exactly when it is complete and the cache is clean, and otherwise consumes nothing |
| `Loader.Drain` | src/persistence.cpp:111-127 | the parse loop takes commands off the front of the stream until none is complete |
| `Loader.CommonOperation` | src/persistence.cpp:89-131 | for every cut of the encoded commands into non-empty chunks, exactly these commands are delivered, in order |
| `Store.PushLeftAt` | src/core.cpp:529-537 | values pushed on the left one by one end up in reverse, in front of the old elements |
| `Store.PushRight` | src/core.cpp:529-537 | values pushed on the right end up behind the old elements, in order |
| `Store.PopUndoesPush` | src/core.cpp:529-561 | a pop on the same end gives back what was pushed and restores the list |
| `Store.SetToIs` | src/net/commands.cpp:477-483 | the digits of a 64-bit number are stored as that number, anything else as it is |
| `Store.DecrUndoesIncr` | src/core.cpp:299-359 | overflow is reported exactly when the result leaves 64 bits, and otherwise increment and decrement undo each other |
| `Store.AppendTwice` | src/core.cpp:450-484 | appending twice is appending both; an integer counts as its digits |
| `Store.SetAtIs` | src/core.cpp:630-655 | an index is accepted exactly within the list, from either end, and changes that element alone |
| `Store.UpdateAllLast` | src/core.cpp:703-707 | the last value given for a field is the one it gets |
| `Store.UpdateAllOther` | src/core.cpp:703-707 | a field that is not named keeps what it had |
| `Store.RemoveUndoesAdd` | src/core.cpp:859-907 | removing what was added leaves what was there apart from it |
| `Store.HashDelUndoesUpdate` | src/core.cpp:682-771 | deleting a field that was new restores the hash |
| `Container.KVContainer.Store` | src/core.cpp:361-393 | the key has the value, in its own bucket; a new key joins the pool, and no other key changes |
| `Container.KVContainer.Delete` | src/core.cpp:426-438 | the key is gone from its bucket and from the pool, which lists the remaining keys once each |
| `Container.KVContainer.DeleteKeys` | src/core.cpp:440-448 | the keys named are gone, and the count is the number that were there |
| `Container.KVContainer.SetInt` | src/core.cpp:273-297 | the key holds the integer, whatever it held before |
| `Container.KVContainer.SetString` | src/core.cpp:361-393 | the key holds the string, whatever it held before |
| `Container.KVContainer.IncrIntBy` | src/core.cpp:299-329 | adds in 64 bits without ever wrapping, or reports overflow or the wrong type; visits the key unless the type is wrong |
| `Container.KVContainer.DecrIntBy` | src/core.cpp:331-359 | subtracts in 64 bits without ever wrapping, or reports overflow or the wrong type; visits the key unless the type is wrong |
| `Container.KVContainer.Append` | src/core.cpp:450-484 | appends to a string, to the digits of an integer, or to nothing |
| `Container.KVContainer.ListPush` | src/core.cpp:529-537 | pushes all values, creating the list if need be, and sets its visit time; no other object changes |
| `Container.KVContainer.ListPop` | src/core.cpp:550-561 | hands out an end element; empty lists stay in the store |
| `Container.KVContainer.ListSetItemAtIndex` | src/core.cpp:630-655 | overwrites the element, counting from the end for a negative index, with an error code for every other case; only success is a visit |
| `Container.KVContainer.HashUpdateKV` | src/core.cpp:682-711 | all fields get their values, the last one winning; lists of different length are refused |
| `Container.KVContainer.HashDelField` | src/core.cpp:755-771 | the fields are gone, and the count is the number that were there |
| `Container.KVContainer.SetAddItem` | src/core.cpp:859-883 | the members are in, and the count is the number of new ones |
| `Container.KVContainer.SetRemoveMembers` | src/core.cpp:904-907 | the members are out, and the count is the number that were there |
| `Objects.PushObject` | src/core.cpp:529-537 | pushing onto the blocked deque does to its contents what the store's operation says |
| `Objects.PopObject` | src/core.cpp:550-561 | popping from the deque, likewise |
| `Objects.SetObject` | src/core.cpp:630-655 | overwriting in the deque, likewise, with the same error codes |
| `Objects.UpdateObject` | src/core.cpp:702-707 | updating fields of the rehashed dictionary, likewise |
| `Objects.HashDelObject` | src/core.cpp:755-771 | erasing fields from it, likewise, with the count |
| `Objects.SetAddObject` | src/core.cpp:872-879 | inserting into the rehashed set, likewise, with the count |
| `Objects.SetRemoveObject` | src/core.cpp:904-907 | erasing members from it, likewise, with the count |
| `Container.KVContainer.NumItems` | src/core.cpp:218-225 | the bucket sizes add up to the size of the store and to the length of the pool |
| `Container.KVContainer.KeyEvictionRandom` | src/core.cpp:140-154 | exactly min(n, size) keys go, and nothing else changes |
| `Container.KVContainer.KeyEvictionLruHelper` | src/core.cpp:171-191 | exactly one key goes and is reported; none of the sampled keys was visited earlier |
| `Container.KVContainer.KeyEvictionLru` | src/core.cpp:156-169 | the reported keys are exactly those removed, each once; while the clock allows it, everything goes, however small the request |
| `Recency.VisitedIsLastUse` | src/core.cpp:65-66 | over every run, the recorded visit time of a key is the time of the last command that found or made a value of its type there |
| `Recency.OldestIsLeastRecent` | src/core.cpp:171-191 | with a clock that does not go back, a sampled key with the smallest recorded time was last used no later than any other sampled key |
| `Recency.RunAndEvict` | src/core.cpp:171-191 | behind every run, one step of LRU eviction takes such a key and nothing else |
| `Commands.WordInjective` | src/net/commands.cpp:10-69 | no two commands share a name |
| `CommandTable.Names` | src/net/commands.cpp:10-69 | the bytes of the name of each modelled command |
| `CommandTable.Arities` | src/net/commands.cpp:102-124 | the argument counts that each command takes |
| `CommandTable.Refuses` | src/net/commands.cpp:239-243 | an unknown name or a wrong argument count does nothing and is not logged |
| `CommandTable.WrongKind` | src/core.cpp:46-52 | on a value of another kind a command does nothing and is not logged |
| `CommandTable.SetIs` | src/net/commands.cpp:470-489 | what `set` leaves under a key, numbers and texts apart |
| `CommandTable.DelIs` | src/net/commands.cpp:342-348 | `del` removes the keys named and is logged, whether they are there or not |
| `CommandTable.IncrIs` | src/net/commands.cpp:554-566 | what `incr` and `decr` leave, from nothing, within 64 bits and at their ends |
| `CommandTable.IncrByIs` | src/net/commands.cpp:568-578 | the same for `incrby` and `decrby` with an amount |
| `CommandTable.BadAmount` | src/net/commands.cpp:533-543 | a negative amount, or a text that is no 64-bit number, is refused |
| `CommandTable.AppendIs` | src/net/commands.cpp:596-610 | what `append` leaves of nothing, a string and an integer |
| `CommandTable.PushIs` | src/net/commands.cpp:681-693 | `lpush` puts its values in front in reverse, `rpush` behind in order |
| `CommandTable.PopIs` | src/net/commands.cpp:650-662 | `lpop` takes the first element, `rpop` the last; logged exactly if it is not empty |
| `CommandTable.LSetIs` | src/net/commands.cpp:731-754 | `lsetindex` replaces one element, from either end, and does nothing outside the list |
| `CommandTable.BadIndex` | src/net/commands.cpp:735-739 | an index that is not the digits of a 32-bit number is refused |
| `CommandTable.HSetIs` | src/net/commands.cpp:775-796 | `hset` updates the hash, or makes one |
| `CommandTable.HDelIs` | src/net/commands.cpp:824-835 | `hdel` leaves the other fields, and is logged on a missing key too |
| `CommandTable.SAddIs` | src/net/commands.cpp:890-946 | `sadd` and `srem` add and remove the members named; `srem` is logged on a missing key too |
| `CommandTable.SetThenIncr` | src/net/commands.cpp:470-578 | behind any run, `set` of a number leaves that integer, and `incrby` counts on from it within 64 bits |
| `CommandTable.SetText` | src/net/commands.cpp:480-483 | behind any run, `set` of any other string leaves that string |
| `Commands.LowerIff` | src/net/commands.cpp:239-239 | lower-casing identifies exactly the strings that differ in case alone |
| `Commands.AnyCasing` | src/net/commands.cpp:239-243 | every casing of its name, and nothing else, is recognized as a command |
| `Commands.CaseDoesNotMatter` | src/net/commands.cpp:228-269 | argument lists that differ in the case of the opcode alone do the same and are logged alike |
| `Commands.LowerTwice` | src/net/commands.cpp:239-243 | a command is recognized the same in the lower case it is logged in |
| `Commands.DeleteAllIs` | src/core.cpp:440-448 | `del` removes exactly the keys named, as the key constructor cuts them |
| `Commands.NotLoggedNotDone` | src/net/commands.cpp:470-946 | a command that is not logged left its value alone, unless it popped an element |
| `Commands.LogStep` | src/net/commands.cpp:634-662 | from a store that its log rebuilds, one step leads to another exactly when it pops no empty string |
| `Commands.LogReplays` | src/net/commands.cpp:342-946 | every point of a run of the modelled mutating commands (without `evict`, `expire` and `expireat`) can be rebuilt from the log exactly when no step of the run pops an empty string; the run may start from any store that its log rebuilds |
| `Commands.EmptyPopDiverges` | src/net/commands.cpp:634-648 | behind any run, pushing and popping an empty string leaves a store that its log does not rebuild |
| `Commands.HandleCmd` | src/net/commands.cpp:228-269 | a command in the log's own form acts on its key alone, and is refused for a wrong number of arguments |
| `Engines.Engine.SetCommand` | src/net/commands.cpp:470-489 | runs and logs as the specified step; the digits of a 64-bit number leave that integer, anything else the string |
| `Engines.Engine.DelCommand` | src/net/commands.cpp:342-348 | removes all keys named, is always logged, and counts those that were there |
| `Engines.Engine.IncrDecrCommand` | src/net/commands.cpp:519-566 | runs as the specified step, logged only on success |
| `Engines.Engine.IncrDecrByCommand` | src/net/commands.cpp:533-578 | the same with an amount, which must be a printed non-negative number |
| `Engines.Engine.AppendCommand` | src/net/commands.cpp:596-610 | runs as the specified step, logged only on success |
| `Engines.Engine.ListPopCommand` | src/net/commands.cpp:634-662 | logged only if the popped element is not empty |
| `Engines.Engine.ListPushCommand` | src/net/commands.cpp:666-693 | runs as the specified step, logged only on success |
| `Engines.Engine.LSetCommand` | src/net/commands.cpp:731-754 | the index must be a printed 32-bit number; logged only on success |
| `Engines.Engine.HSetCommand` | src/net/commands.cpp:775-796 | splits the operands into fields and values; logged only on success |
| `Engines.Engine.HDelCommand` | src/net/commands.cpp:824-835 | logged unless the type is wrong, on a missing key too |
| `Engines.Engine.SAddCommand` | src/net/commands.cpp:890-902 | logged unless the type is wrong |
| `Engines.Engine.SRemCommand` | src/net/commands.cpp:936-946 | logged unless the type is wrong, on a missing key too |
| `Engines.Engine.HandleCommand` | src/net/commands.cpp:228-269 | lower-cases the opcode, refuses unknown ones, and otherwise runs the specified step on container, visit times and log |
| `Engines.RunAll` | src/net/commands.cpp:228-269 | every run of the engine is the specified run, so its log rebuilds its store if no empty string was popped |
| `AppendLog.BagKept` | src/persistence.cpp:72-81 | over every interleaving of appends and flushes, file and caches together hold each appended command as often as it was appended |
| `AppendLog.OrderStep` | src/persistence.cpp:72-81 | a step keeps the order exactly when it does not switch caches that do not commute |
| `AppendLog.OrderKept` | src/persistence.cpp:72-81 | over every run the order is the append order at every point exactly when every switch finds caches that commute |
| `AppendLog.EmptyBackupIsHarmless` | src/persistence.cpp:179-182 | a switch that finds the other cache empty keeps the order |
| `AppendLog.SwitchReorders` | src/persistence.cpp:72-81 | three commands that come out in another order |
| `AppendLog.FlushWrites` | src/persistence.cpp:154-170 | a flush brings one whole cache to the file if that opens, and otherwise leaves the file alone |
| `AppendLog.AppendKeepsFile` | src/persistence.cpp:72-81 | an append turns to the other cache exactly when the current one is full |
| `Persistence.AppendableFile.Append` | src/persistence.cpp:72-81 | the specified step on the caches; the file is not touched |
| `Persistence.AppendableFile.Flush` | src/persistence.cpp:154-170 | writes the backup cache, or the current one if there is no backup; the file is the encoding of the commands written |
| `Persistence.AppendableFile.Close` | src/persistence.cpp:45-58 | the worker's last flush and the destructor's bring all cached commands to the file, backup before current |
| `Compaction.Local` | src/persistence.cpp:203-208 | the value that a log of one-key commands leaves under a key depends on that key's commands alone |
| `Compaction.HandleAt` | src/core.cpp:440-448 | what any well-formed command, `del` with several keys included, leaves under any key |
| `Compaction.SequentialReplays` | src/persistence.cpp:217-254 | dropping everything before the last `set` or `del` of a key changes nothing in the replay of its commands |
| `Compaction.StepKeeps` | src/persistence.cpp:265-336 | one simulated command keeps the buffers in step with replay, also when a deletion that the simulation does not see took away an empty collection |
| `Compaction.TrackStep` | src/persistence.cpp:217-336 | a clean command keeps the queue of its key in step with the value of the key |
| `Compaction.LogTracks` | src/persistence.cpp:203-336 | after every clean log with harmless deletions, the simulation of each queue without a negative index is defined and holds the value that replay leaves |
| `Compaction.CanonIff` | src/persistence.cpp:337-374 | the comparison of stores below tells everything apart but absent keys and empty collections, and an integer and its digits |
| `Compaction.EmittedRecreates` | src/persistence.cpp:337-374 | the one command written for a key recreates its value, up to empty collections and integers in decimal |
| `Compaction.CompactionPreserves` | src/persistence.cpp:192-380 | replaying the compacted log gives the same store, identifying absent keys with empty collections and integers with their decimal strings, for every clean log whose deletions take nothing from their further keys and which has no negative index among the commands that still count |
| `Compaction.CompactedIsClean` | src/persistence.cpp:337-374 | what the compactor writes is a clean log again, commands without operands included |
| `Compaction.CompactTwice` | src/persistence.cpp:192-380 | compacting the output once more changes nothing |
| `Compaction.AnyOrder` | src/persistence.cpp:213-214 | each key has one command at most, so the order in which the hash map is walked and the caches are flushed does not matter |
| `Compaction.EngineLogsClean` | src/net/commands.cpp:342-946 | every run with NUL-free keys that pops no empty string leaves a clean log, from the empty store or from one restored from a clean log |
| `Persistence.Enqueue` | src/persistence.cpp:217-254 | the loop keeps exactly the commands behind the last `set` or `del` |
| `Persistence.Execute` | src/persistence.cpp:265-336 | the branches and operand loops of one round change the buffers as the simulation step says |
| `Persistence.CompactKey` | src/persistence.cpp:255-375 | drives the queue and writes one command for the simulated value, or none |
| `Persistence.CleanIsDefined` | src/persistence.cpp:255-336 | on such logs the compactor never pops from an empty list, indexes outside a list or overflows |
| `Persistence.CompactionExists` | src/persistence.cpp:192-380 | wherever the simulation is defined there is something the compactor may write |
| `Persistence.Populate` | src/persistence.cpp:203-210 | the map holds each key's commands in log order |
| `Persistence.RemoveRedundancy` | src/persistence.cpp:192-380 | reads a log in any chunks and hands the compaction of it to the caches, in any order of keys |
| `Limits.MultiKeyDelComesBack` | src/persistence.cpp:203-208 | a `del` with two keys is filed under the first, so compaction brings back the second |
| `Limits.NegativeIndexUndefined` | src/persistence.cpp:283-286 | a negative list index, fine for the store, is outside the simulated list |
| `Limits.NegativeBreaks` | src/persistence.cpp:283-286 | an index from the end that the store accepts lies outside the simulated list, whatever the list |
| `Limits.DefinedIff` | src/persistence.cpp:255-336 | of clean logs with harmless deletions, the compactor is defined exactly on those without a negative index among the commands that still count for a key |
| `Limits.RightStep` | src/persistence.cpp:192-380 | one more command keeps the compactor right exactly when each further key of a `del` is absent, empty or the first key again in the store before it, and a list index is not negative |
| `Limits.RightIff` | src/persistence.cpp:192-380 | the compactor is defined and right at every point of a clean log exactly when every command of the log is safe in that sense |
| `Sizes.OutputFits` | src/net/net.h:57-69 | if 64-bit lengths can express twice the size of a log, they can express everything its compaction writes |
| `Recovery.RecoverCommandFromValue` | src/core.cpp:227-271 | the recovered command recreates the value of the key, up to empty collections and integers in decimal |
| `EndToEnd.PlainIsSafe` | src/persistence.cpp:203-286 | logs with one key per `del` and no negative index need no further condition |
| `EndToEnd.CompactedRunRestores` | src/persistence.cpp:192-380 | any compaction of the log of such a run replays to the store of the run, also when the run started from a restored store |
| `EndToEnd.RestoredIsClean` | src/persistence.cpp:133-140 | a store restored from a compacted log is a store to start from |
| `EndToEnd.WriteLog` | src/persistence.cpp:72-182 | any interleaving of appends and flushes, then the destructor: the file holds all commands, in order if no switch did harm |
| `EndToEnd.Rewrite` | src/persistence.cpp:192-380 | a clean log file, read in any chunks, compacted and written, replays to the same store |
| `EndToEnd.Restart` | src/persistence.cpp:133-140 | commands run, logged, flushed, read back in any chunks and replayed give the very same store |
| `EndToEnd.RestartCompacted` | src/persistence.cpp:133-380 | the same with a compaction in between gives the same store, up to empty collections and integers in decimal |
| `Varint.EncodeLength` | src/encoding.cpp:12-24 | a number takes at most k bytes exactly if it is below 128 to the k |
| `Varint.EncodeAt` | src/encoding.cpp:12-24 | byte i holds the seven bits from 7i on, marked exactly if more follow |
| `Varint.EstimateIsLength` | src/encoding.cpp:42-64 | the estimate is the length of the encoding, which lies in 1..10 |
| `Varint.RoundTrip` | src/encoding.cpp:12-40 | for every 64-bit value and every suffix, decoding gives the value and stops at the suffix |
| `Varint.SignedRoundTrip` | src/encoding.cpp:66-70 | signed values come back through the same bytes |
| `Varint.EncodeVarUnsignedInt64` | src/encoding.cpp:12-24 | the loop writes the encoding into a ten-byte buffer |
| `Varint.DecodeVarUnsignedInt64` | src/encoding.cpp:26-40 | the shifting loop computes the decoded value modulo 2^64 and stays inside a buffer that holds a whole number |
| `Varint.Fixed64RoundTrip` | src/encoding.cpp:72-85 | eight little-endian bytes give back the number |
| `Varint.FixedAt` | src/encoding.cpp:72-76 | byte i of a fixed integer holds the eight bits from 8i on |
| `SnapshotReader.Reader.Advance` | src/lkvdb.cpp:82-85 | cursor plus remaining bytes is constant, with no underflow |
| `SnapshotReader.Reader.DecodeInteger` | src/lkvdb.cpp:88-105 | on any bytes, reads the number the specification reads and stays inside the file |
| `SnapshotReader.Reader.DecodeStdString` | src/lkvdb.cpp:120-129 | on any bytes, reads the string, or an empty one if the length runs past the end |
| `SnapshotReader.Reader.DecodeDList` | src/lkvdb.cpp:131-142 | at most half as many rounds as bytes remain, and one more, however large the count |
| `SnapshotReader.Reader.DecodeHashDict` | src/lkvdb.cpp:144-158 | the same bound for fields and values |
| `SnapshotReader.Reader.DecodeHashSet` | src/lkvdb.cpp:160-170 | the same bound for members |
| `SnapshotFiles.LoadRecord` | src/lkvdb.cpp:225-332 | on any bytes, one record is read within bounds and put into the container as specified |
| `SnapshotFiles.LiteKVLoad` | src/lkvdb.cpp:172-333 | on any file, the loop ends, stays within bounds and leaves the container as specified |
| `SnapshotFiles.SerializeCharBuf` | src/str.cpp:6-20 | appends the encoding of a string |
| `SnapshotFiles.SerializeValue` | src/valueobject.cpp:4-25 | appends the encoding of a value, with hashes and sets in some order |
| `SnapshotFiles.Snapshot` | src/core.cpp:922-968 | writes every key of the store once, behind their number |
| `Snapshots.ReadRecordEncoded` | src/lkvdb.cpp:225-332 | a written record of a new key is read back whole, and nothing behind it |
| `Snapshots.RecordLayout` | src/core.cpp:922-968 | flag, type tag, expiry flag, key, value and end flag of a written record, byte by byte |
| `Snapshots.FileLayout` | src/lkvdb.cpp:32-38 | the letters LITEKV, the digits 0001, the number of records least significant byte first, the records |
| `Snapshots.OtherFile` | src/lkvdb.cpp:190-219 | a file without the letters, or too short for a count, is not read |
| `Snapshots.ExpiringRecord` | src/lkvdb.cpp:245-282 | a record with an expiry is taken exactly if its time lies after now, and read to its end either way |
| `Snapshots.LengthPastEnd` | src/lkvdb.cpp:107-129 | a length that runs past the end reads as an empty string and no further byte is used |
| `Snapshots.FileRoundTrip` | src/lkvdb.cpp:225-332 | loading a written file into an empty store gives the store back and uses up every byte |
| `Snapshots.AnyLoadIsLoadable` | src/lkvdb.cpp:131-170 | whatever the file, a load builds only collections that are not empty and hold no empty string |
| `Snapshots.SnapshotRoundTripIff` | src/lkvdb.cpp:225-332 | a store comes back from its snapshot exactly when its collections are not empty and hold no empty string |
| `Snapshots.EmptiedListIsLost` | src/dlist.cpp:288-291 | pushing an element and popping it leaves an empty list, which does not come back from a snapshot |
| `Snapshots.EmptyMemberIsLost` | src/lkvdb.cpp:160-170 | a set into which an empty string was put does not come back from a snapshot |
| `SnapshotFiles.SaveAndLoad` | src/core.cpp:922-968 | the same for two containers: the copy holds the same store exactly under that condition |

## Left out

- Sockets, event loop, sessions, server callbacks, addresses and configuration: input and output around the store.
- `fork`, `mmap`, opening and renaming of files, and the measuring of memory; a flush whose file does not open is modelled.
- Thread-level races in `AppendableFile`: whole calls are atomic steps, and the worker is taken to flush once more before it exits.
- Expiry (`expire`, `expireat`, `ttl`, timers): it depends on the wall clock. A snapshot record with an expiry is read, and dropped if it is over, but sets no timer.
- SkipLists.Skiplist: `nexts` is a sequence held by the node instead of a raw array, and freed nodes are just no longer in the chain.
- HashStructs.HashStruct: chains are sequences, so relinking of `next` pointers inside a chain is not captured; `AllKeys`, `AllValues` and the load factor argument as a floating-point number are not modelled (it is a real number).
- DLists.DList: ranges that start outside the list and `FreeRedundantNodes` on an empty list, which are outside the range where the code is well defined; `ListRange` with negative indices.
- Container.KVContainer: it holds values as plain sequences, maps and sets. `Objects` proves that the deque and the rehashed tables carry out the same operations, but the container does not hold those objects itself, so the aliasing of value objects is not captured. Keys are compared byte by byte, which is exact for the NUL-free keys that the key constructor makes.
- Container.KVContainer.KeyEvictionRandom: the names it returns are not modelled, because the code reads them through a reference into a vector that the deletion has already changed.
- Container.KVContainer.ListSetItemAtIndex: lists with more than 2^31 - 1 elements, whose length the code narrows to 32 bits.
- Engines.Engine.HandleCommand: `evict`, `expire` and `expireat` count as unknown opcodes, so runs are runs without them, and without the eviction triggered by memory use; reading commands, which are visits too, and the texts of replies are not modelled. An empty argument list, on which the code reads past the end of a vector, is treated as an unknown opcode.
- Loader.CommonOperation: commands with more than 2^63 - 1 arguments or bytes per argument, which a 64-bit length cannot express; a number that fills the buffer to its last byte is read up to there, while `strtoll` would read on behind the array.
- EndToEnd.RestartCompacted: logs of 2^62 bytes and more, whose compaction might not fit a 64-bit length.
- Compaction.CompactionPreserves: stated for logs with NUL-free keys and no `expireat`. Keys with a NUL, which the store cuts and the compactor does not, are not treated.
- Limits.RightIff: logs of 2^63 bytes and more, whose lists could be long enough for a wrapped index.
- SnapshotFiles.LiteKVLoad: sets no timers. Keys with a NUL, which only a file not written by the store can hold, are told apart by all their bytes; the code compares them up to the NUL and by length, but keeps them in different places of its hash map as their hashes differ.
- SnapshotFiles.LoadRecord: the same.
- SnapshotFiles.Snapshot: strings and collections whose sizes 64 bits cannot express; big-endian machines.
- Pub/sub, the overview, unsupported command stubs, `Skiplist::operator[]`, the Python client, benchmarks and tools.
