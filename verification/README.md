# DiceDB: lists, store, log and indexes

This project models the data structures of DiceDB whose correctness depends on more than one
function, and proves what they promise.

- **Lists.** `Bits`, `Varint`, `Decimal`, `EntryCodec` and `EntryDecode` are the byte codec of list
  entries: varints, zigzag, tag-prefixed strings and integers, and the reversed length behind each
  entry. `Cells` is a run of entries in a buffer, read from either end. `ByteLists` is the doubly linked
  list of buffers, `Deques` the deque on top of it, `DequeScan` its iterator and LRANGE,
  `DequeInsert` LINSERT with its node splits, and `DequeLimits` the runs after which the deque goes
  wrong. `DequeBasics` is the flat list. `ListSpec` and `Lockstep` say what a list is, a sequence of
  byte strings, and run both types against it.
- **Glob matching** (`Glob`), the **id generator** (`IdGen`), the **Count-Min Sketch** (`Sketches`), the
  **sorted set** (`SortedSets`, with the order of strings in `Orders`), the **watch index** (`Watches`) and
  **HSCAN** (`HScans`).
- **The store** (`Stores`): a map from keys to values with deadlines, refined by object identity, a side
  table of deadlines and batch eviction over the heap of `EvictHeaps`; `Evictions` says which keys an eviction may take.
- **The write-ahead log**: frames (`WalFrames`), the segments on disk and what a crash leaves of them
  (`WalLayouts`), the order of their names (`WalNames`), and logging, rotation, sync and replay (`Wals`).

How the model reads the program:

- Bytes are integers from 0 to 255. Words wrap where the program's do, and the bit operations of the codec and the
  id generator are defined bit by bit in `Bits`.
- A slice is an array, an offset and a length. `append` into full memory gets any sufficient capacity.
- A deque holds *cells*: an element in canonical form, and the pad byte that remains where the
  reserved size of the length exceeds its varint (lengths 16383, 2097151 and 268435455 written over stale memory).
  `RPop` is specified for a clean pad. `Cells.LastStart` shows that with any other pad the
  parse from the right misses the start of the entry.
- An integer such as `+5` or `007` is stored as an integer and comes back as `5` or `7`; list contents are stated with
  `Canon`, which is the identity on everything else.
- Where the program panics, the model returns false: `LPush` asking for too little capacity, an entry longer than its
  slice, a log frame longer than the buffer, a negative cursor. Entries of at most 257 bytes always meet `LPushFits`.
- Time is a parameter. Map iteration is in any order; where the order decides what
  an eviction takes, it is a parameter. Hash, checksum, marshalling and score formatting
  are any functions (the marshalling pair being inverse).
- Scores are real numbers. `ShouldEvict` takes the target as the integer ceiling of `maxKeys / 10`.
- The comparator in `segments()` (internal/wal/wal_forge.go:296-300) compares a file with itself, so the files keep the
  order of their names. `Wals` replays in the
  intended order, by index; `WalNames` says when the two agree, and when replay by name goes wrong.
- RegMap.Len counts writes and deletes, not keys (internal/common/regmap.go:17-33); the tables are modelled as maps, and
  `numKeys` is the counter that is proved.

## Model

| member | source | states |
|---|---|---|
| Varint.EncodeUInt | internal/dencoding/int.go:38-52 | the loop over pooled memory writes the base-128 form of every uint64, low group first, with the high bit on all bytes but the last |
| Varint.DecodeUInt | internal/dencoding/int.go:55-63 | the shift-and-or loop computes the value of the groups modulo 2^64, for any input bytes |
| Varint.DecodeUIntRev | internal/dencoding/int.go:106-114 | the same for the bytes read from the right |
| Varint.VarintRoundTrip | internal/dencoding/int.go:38-63 | the value of the base-128 form of a number is that number, so DecodeUInt inverts EncodeUInt on every uint64 |
| Varint.IntRoundTrip | internal/dencoding/int.go:67-75 | DecodeInt(EncodeInt(x)) is x for every int64, through the zigzag word operations |
| Varint.EncodeUIntRevInPlace | internal/dencoding/int.go:79-89 | writes the groups right-aligned, all with their high bit, and clears the high bit of the first reserved byte; no other byte of the buffer changes |
| Varint.SizeExact | internal/dencoding/int.go:92-103 | the reserved size is the length of the varint exactly for numbers below 2^35 other than 16383, 2097151 and 268435455, where it is one more |
| EntryCodec.EncodeDeqStrInPlace | internal/eval/deque.go:694-717 | writes the header, the bytes and the reversed length into a slice of reserved size, and nothing outside it; a stale byte survives only as the pad of a boundary length |
| EntryCodec.EncodeDeqIntInPlace | internal/eval/deque.go:719-741 | writes the same bytes as the encoder that returns fresh memory |
| EntryCodec.EncodeDeqEntry | internal/eval/deque.go:603-612 | the encoding is data and reversed length with a clean pad, through the string or the integer form |
| EntryCodec.EncodeDeqEntryInPlace | internal/eval/deque.go:681-692 | writes the same entry in place, its pad taken from the memory that was there, and nothing outside the slice; it fails, where the program panics, exactly on integers of 21 or more characters |
| EntryCodec.SizeIsLength | internal/eval/deque.go:744-778 | the size function gives the length of the encoding exactly when x is not an integer of 21 or more characters |
| Decimal.ParseExactly | internal/eval/deque.go:605-612 | an element is read as the number v exactly when it is a sign or none, any zeros and the digits of a number that together mean v, and v fits int64 |
| Decimal.ParseNumeral | internal/eval/deque.go:605-612 | such a string is read as its number, and as none outside int64 |
| EntryCodec.CanonNumeral | internal/eval/deque.go:603-612 | below 21 characters it comes back as the digits of the number, with a minus sign where that is negative; from 21 on it comes back unchanged |
| EntryCodec.NumeralTooLong | internal/eval/deque.go:681-778 | from 21 characters on at most 10 bytes are reserved for it, fewer than it needs |
| EntryCodec.ZerosTooLong | internal/eval/deque.go:681-778 | 0 written with 21 or more zeros is such an integer: 2 bytes are reserved for it and its encoding is longer |
| EntryCodec.NotCanonical | internal/eval/deque.go:603-612 | +5 comes back as 5 and 007 as 7 |
| EntryDecode.SignExact | internal/eval/deque.go:790-820 | shifting left and arithmetically right recovers every number of the width from its low bits, at each width from 1 to 64 |
| EntryDecode.TagsDisjoint | internal/eval/deque.go:785-842 | every first byte up to 0xF4 is in exactly one tag class and the others in none, so the order of the tests does not matter |
| EntryDecode.DecodeEntry | internal/eval/deque.go:785-842 | decoding the encoding of x before any suffix gives the canonical form of x and the length of the whole entry |
| EntryDecode.DecodeOther | internal/eval/deque.go:833-842 | a first byte above 0xF4 gives the made-up number 12345678900000000 plus that byte and length 0 |
| Cells.RoundTrip | internal/eval/deque.go:603-842 | x itself comes back exactly when its length fits 32 bits and it is not an integer in non-canonical decimal |
| Cells.BytesInjective | internal/eval/deque.go:586-598 | two runs of entries with the same bytes hold the same elements |
| Cells.BacklenValue | internal/eval/deque.go:326-351 | the reversed length reads back as the length it was made from exactly when its pad byte is zero |
| Cells.LastStart | internal/eval/deque.go:326-340 | for any nonempty run, stepping back over bytes with bit 0x80 and decoding backwards lands on the start of the last entry exactly when that entry has a clean pad |
| Cells.ParseLast | internal/eval/deque.go:74-92 | the entry found from the right is the one a forward walk reaches last |
| ByteLists.ByteList.Append | internal/eval/bytelist.go:56-65 | the linked list becomes the old sequence of nodes with the new one at its end, all next and prev links agreeing |
| ByteLists.ByteList.Prepend | internal/eval/bytelist.go:67-76 | the same at the front |
| ByteLists.ByteList.Delete | internal/eval/bytelist.go:78-96 | the linked list becomes the old sequence without the node, wherever it stood, and size drops by one node |
| Deques.Deque.constructor | internal/eval/deque.go:240-246 | an empty deque meets the invariant |
| Deques.Deque.LPush | internal/eval/deque.go:252-279 | fails, where the program panics, exactly when the free left part is above 256 bytes and too small, and then changes nothing; otherwise puts the canonical element in front of the contents, with the chunks, left index, spare capacity, links, memory and Length that each of the three branches makes |
| Deques.Deque.RPush | internal/eval/deque.go:281-306 | puts it behind the contents and keeps the same invariant: in the last buffer exactly when that has spare capacity, grown if need be, and otherwise in a new node |
| Deques.Deque.LPop | internal/eval/deque.go:308-324 | returns and removes the leftmost element; the left index moves past it, or the emptied node is unlinked and the next one has none; nothing on the empty deque |
| Deques.Deque.RPop | internal/eval/deque.go:326-351 | returns and removes the rightmost element, leaves the left index alone, and unlinks the emptied node unless it still has a left part |
| DequeScan.DequeIterator.Next | internal/eval/deque.go:586-598 | returns the element at the iterator's place and stands on the next one, across node ends |
| DequeScan.LRange | internal/eval/deque.go:508-563 | returns the elements whose positions, counted from the end where negative, lie between start and stop |
| ListSpec.SanitizedRange | internal/eval/deque.go:508-533 | the clamped indices select exactly the positions the caller's indices select |
| ListSpec.RangeBetween | internal/eval/deque.go:508-563 | for any start and stop, the selected elements are the contiguous slice between the clamped indices, and none where those cross |
| DequeInsert.InsertAfterNode | internal/eval/deque.go:372-381 | with the list cut after the node of the pivot, RPush and the relinking put the element between the two parts: joined to the buffer of the pivot or in one of its own |
| DequeInsert.BreakPivotNodeAndInsertAfter | internal/eval/deque.go:354-389 | splitting the pivot's buffer after it puts the element between the halves and keeps every other element and the links |
| DequeInsert.InsertBeforeNode | internal/eval/deque.go:447-457 | with the pivot first in a node that is not the head, the element gets a node of its own before it |
| DequeInsert.BreakPivotNodeAndInsertBefore | internal/eval/deque.go:412-441 | splitting before the pivot, also in a head node with a left index, puts the element between the halves and resets the head and its left index |
| DequeInsert.LInsert | internal/eval/deque.go:481-504 | the contents become the old ones with the element beside the first occurrence of the pivot and nothing else changed, in the buffers, with the spare capacities and the left index, that the split or the push leaves; the answer is the new length, -1, or a syntax error, checked in the order of the program |
| DequeBasics.DequeBasic.InsertElementAfterIndex | internal/eval/deque.go:110-128 | moving or copying the buffer puts the element before the entry that starts at the index |
| DequeBasics.DequeBasic.LPush | internal/eval/deque.go:47-63 | puts the canonical element in front, for every encodable element |
| DequeBasics.DequeBasic.RPush | internal/eval/deque.go:66-71 | puts it behind |
| DequeBasics.DequeBasic.LPop | internal/eval/deque.go:95-107 | returns and removes the first element, moving the rest down |
| DequeBasics.DequeBasic.RPop | internal/eval/deque.go:74-92 | returns and removes the last element |
| DequeBasics.LRange | internal/eval/deque.go:169-196 | the same range of values as the linked deque gives |
| DequeBasics.LInsert | internal/eval/deque.go:131-166 | the same insertion and the same answers as the linked deque gives |
| Lockstep.FindsLast | internal/eval/deque.go:326-340 | the parse from the right finds the last entry of the deque exactly when its pad is clean |
| Lockstep.RunBoth | internal/eval/deque.go:47-563 | on every sequence of commands on elements other than integers of 21 or more characters, both list types give the answers of a plain sequence of byte strings; the deque runs from the empty one through layouts (elements and spare capacity of each buffer, left index), each made from the one before by the branch that the command takes there, to the end or to the first command that goes wrong on its layout; runs of entries of at most 257 bytes go to the end |
| Lockstep.BecomesAfter | internal/eval/deque.go:252-563 | whatever layout a command makes of a layout, it holds what the command makes of the values |
| Lockstep.RunHolds | internal/eval/deque.go:252-563 | so every layout of a run holds what the plain sequence of byte strings holds at that point |
| DequeLimits.FrontTooSmall | internal/eval/deque.go:260-265 | a run from the empty deque reaches leftIdx 304, where pushing 400 bytes to the front asks for too little capacity |
| DequeLimits.DirtyLast | internal/eval/deque.go:252-351 | a run from the empty deque reaches a last entry of boundary length whose pad is a stale 1 |
| Glob.WildCardMatch | internal/regex/regex.go:7-37 | terminates, never accepts what the recursive meaning of * and ? refuses, and agrees with it for every pattern on keys without * |
| Glob.LastStarSuffices | internal/regex/regex.go:19-26 | once a later star is reached, giving more to an earlier one finds nothing new |
| Glob.MatchesParts | internal/regex/regex.go:7-37 | what a pattern means: one in two parts matches a key exactly when its parts match two parts of the key |
| Glob.MatchesOne | internal/regex/regex.go:7-37 | and of a single byte: * matches every key, ? every single byte, any other byte itself |
| Glob.AgreesExactly | internal/regex/regex.go:7-37 | the matcher agrees with the meaning on all patterns exactly for the keys that hold no * |
| IdGen.Generator.NextID | internal/id/id.go:31-41 | the n-th call returns n mod 2^32, and the table keeps the last 16 cycles |
| IdGen.Generator.ExpandExact | internal/id/id.go:23-41 | an issued id expands to the number of its call exactly until the cycle has advanced by 16, for all calls below 2^60 |
| IdGen.OrCycle | internal/id/id.go:23-27 | setting the bits of the cycle over an id replaces its turn, since they overlap in equal bits |
| IdGen.Draw | internal/id/id.go:23-41 | ids drawn in a row expand to increasing numbers, and raw ids within 2^32 calls are distinct |
| Sketches.CountMinSketch.MatrixPositions | internal/eval/countminsketch.go:138-150 | one column per row: the first hash plus the second times the row, as a 64-bit word, modulo the width |
| Sketches.CountMinSketch.UpdateMatrix | internal/eval/countminsketch.go:153-158 | the sketch then stands for its stream with the update at the end: every cell is the sum of the updates that fall into it, as a 64-bit word |
| Sketches.CountMinSketch.EstimateCount | internal/eval/countminsketch.go:163-172 | returns the least cell of the key; where the total fits 64 bits it lies between the true count and count, and is the true count if and only if in some row no other key counted so far has the column of the key, columns computed from the hashes |
| Sketches.CountMinSketch.RowIsCount | internal/eval/countminsketch.go:153-158 | each row adds up to count, as words always and exactly where the total fits |
| Sketches.CountMinSketch.DeepCopy | internal/eval/countminsketch.go:175-199 | the copy has its own memory and stands for the same stream |
| Sketches.CountMinSketch.MergeMatrices | internal/eval/countminsketch.go:205-238 | afterwards the destination stands for the weighted streams of all sources as they were before, also when it is one or several of them |
| Sketches.MergedCount | internal/eval/countminsketch.go:201-238 | the merged stream counts every key as the weighted sum of the sources' true counts |
| SortedSets.LessTotal | internal/eval/sortedset/sorted_set.go:25-31 | the order by score and then member is total, irreflexive and asymmetric |
| SortedSets.SortedSet.InOrder | internal/eval/sortedset/sorted_set.go:25-31 | the tree lists members by score, and equal scores by the first byte in which the members differ, a proper prefix first |
| SortedSets.SortedSet.Determined | internal/eval/sortedset/sorted_set.go:34-39 | the map determines the sequence of the tree |
| SortedSets.SortedSet.Distinct | internal/eval/sortedset/sorted_set.go:34-39 | tree and map have the same members and the same size |
| SortedSets.SortedSet.Upsert | internal/eval/sortedset/sorted_set.go:61-74 | sets one score in both indexes, keeps them in agreement, and says whether the member is new |
| SortedSets.SortedSet.Remove | internal/eval/sortedset/sorted_set.go:99-110 | removes the member from both indexes and says whether it was there |
| SortedSets.SortedSet.RankWithScore | internal/eval/sortedset/sorted_set.go:76-96 | the rank is the number of pairs in the map with a lower score, or the same score and a member that comes first, or of those above it in reverse; -1 for no member |
| SortedSets.SortedSet.GetRange | internal/eval/sortedset/sorted_set.go:115-170 | lists the members between two positions of the ascending or descending order, with scores on request |
| SortedSets.SortedSet.CountInRange | internal/eval/sortedset/sorted_set.go:265-280 | counts all members of the map with a score in the range, although the walk stops early |
| SortedSets.SortedSet.PopMin | internal/eval/sortedset/sorted_set.go:174-262 | removes and lists the first items of the order, as many as asked for or all, from both indexes |
| SortedSets.SortedSet.PopMax | internal/eval/sortedset/sorted_set.go:218-240 | the same from the other end, last item first |
| Watches.FileOne | internal/watchmanager/watch_manager.go:102-109 | filing a fingerprint keeps every fingerprint under exactly its command's key if and only if it is not known with another key |
| Watches.Manager.HandleSubscription | internal/watchmanager/watch_manager.go:90-116 | the three maps stay consistent exactly under that condition, and then stand for the table with the subscription added |
| Watches.Manager.HandleUnsubscription | internal/watchmanager/watch_manager.go:119-152 | they then stand for the table without the subscription, and without the fingerprint when it was the last |
| Watches.Manager.HandleWatchEvent | internal/watchmanager/watch_manager.go:154-193 | sends to every client of every command whose first argument is the affected key, and which one of the six events named in the program affects, that command, once, and nothing else; a command without arguments has the empty key |
| Watches.Serve | internal/watchmanager/watch_manager.go:72-152 | over every run of requests in which a fingerprint determines its key, the maps are consistent and stand for the table of the run |
| HScans.Scan | internal/eval/store_eval.go:2143-2182 | a page holds the first matches from the cursor, at most COUNT, and the new cursor is just behind the last of a full page, or 0 at the end; it fails, where the program panics, exactly on a negative cursor |
| HScans.ScanAll | internal/eval/store_eval.go:2143-2182 | following the cursors from 0 ends, and lists every matching field and its value exactly once in sorted order, for any counts |
| HScans.FilterAscending | internal/eval/store_eval.go:2143-2182 | the listed fields are in strictly ascending order |
| Orders.LexMeans | internal/eval/store_eval.go:2143-2182 | that order of strings: the first byte that differs decides, and a proper prefix comes first |
| EvictHeaps.EvictionItemHeap.Push | internal/store/batchevictionlru.go:39-41 | sifting up keeps a max-heap of the same items and the new one |
| EvictHeaps.EvictionItemHeap.Pop | internal/store/batchevictionlru.go:43-45 | removes an item accessed last and sifts down to a heap of the others |
| EvictHeaps.TopIsMax | internal/store/batchevictionlru.go:19-22 | no item of a heap was accessed later than its top |
| Stores.Store.ShouldEvict | internal/store/batchevictionlru.go:59-77 | positive exactly when the limit is reached; it leaves a key where the limit allows one and there are two, and at the limit a tenth of it, rounded up |
| Stores.Store.SelectInstead | internal/store/batchevictionlru.go:98-101 | replacing the top of a full heap by an item accessed earlier keeps the oldest of all items seen |
| Stores.Store.EvictVictims | internal/store/batchevictionlru.go:80-111 | in whatever order the table is walked, exactly min(toEvict, n) keys go and none that stays was accessed earlier than one that goes; where the first keys walked are such a choice, those go |
| Stores.DropExpired | internal/store/expire.go:21-46 | removing keys whose deadline has passed changes nothing that can be seen from then on |
| Stores.Store.GetHelper | internal/store/store.go:160-174 | finds a value exactly when the key is present without a deadline or with one after now; an expired key is deleted, which nobody can see; touching sets only the access time of that object |
| Stores.Store.GetAll | internal/store/store.go:176-193 | finds for every listed key, also repeated ones, what the map before the call shows; sets the access time of exactly the objects found |
| Stores.Store.Del | internal/store/store.go:195-201 | removes the key and the deadline of its object and nothing else, keeping the counter right |
| Stores.Store.GetDel | internal/store/store.go:265-276 | returns what was visible and removes the key |
| Stores.Store.DeleteAllExpiredKeys | internal/store/expire.go:39-51 | leaves exactly the keys whose deadline is after now |
| Stores.Store.SetUnixTimeExpiry | internal/store/store.go:286-288 | changes the deadline of the one key that holds the object |
| Stores.Store.DelExpiry | internal/store/expire.go:34-36 | takes the deadline from the one key that holds the object |
| Stores.Store.Put | internal/store/store.go:123-157 | sets the key to the value of the object with the deadline carried by the object, the old one under KEEPTTL where there is a positive one, or none when the same object is put again; makes room by evicting the keys accessed longest ago, down to a tenth of the limit, rounded up, for a new key in a full store; keeps keys apart, the counter right and the count at most max(maxKeys, 1) |
| Stores.Store.Rename | internal/store/store.go:233-259 | moves value and deadline and keeps the store valid whenever, before the call, the destination exists or at least as many other keys as have to go were accessed before now; otherwise it is valid exactly when making room did not evict the source |
| Stores.Store.RenameSafeExactly | internal/store/store.go:233-259 | that condition on the state before the call holds if and only if no walk of the table makes the eviction take the source |
| Stores.Store.RenameLoses | internal/store/store.go:233-259 | a walk that starts with a legal eviction of the source does break the store |
| Evictions.SparedExactly | internal/store/batchevictionlru.go:79-111 | every legal eviction of n keys spares a key if and only if at least n keys were accessed before it, ties included |
| Evictions.LosingWalk | internal/store/batchevictionlru.go:79-111 | where fewer are older, some walk of the table makes the key go |
| Stores.RenameMiscounts | internal/store/store.go:233-259 | with maxKeys 1, renaming the only key leaves one key and a counter of 0 |
| Stores.Store.Reset | internal/store/store.go:75-99 | leaves the empty store |
| WalFrames.ReadWhole | internal/wal/wal_forge.go:333-390 | a whole frame reads back as its command, whatever follows |
| WalFrames.ReadCut | internal/wal/wal_forge.go:333-353 | a frame cut short is an error unless nothing of it is left, and never makes the reader panic |
| WalFrames.ReadPrefix | internal/wal/wal_forge.go:323-391 | a segment cut anywhere reads back as the commands of its whole frames |
| WalFrames.ReadAny | internal/wal/wal_forge.go:333-390 | any size and checksum in front of any bytes: a size above 10240 makes the reader panic; too few bytes, another checksum or bytes that do not unmarshal are an error; otherwise the command is read |
| WalFrames.Damaged | internal/wal/wal_forge.go:333-390 | a payload that does not have the stored checksum ends the read with an error behind the commands of all frames before it |
| WalFrames.SoundCodec | internal/wal/wal_forge.go:119-177 | a codec as assumed of the marshalling library exists |
| WalNames.NameIs | internal/wal/wal_forge.go:217-220 | a segment is named seg-, its number in decimal, and .wal |
| WalNames.NameOrder | internal/wal/wal_forge.go:289-305 | the names of n segments sort in the order of their indices exactly when n is at most 10 |
| Wals.Wal.Sync | internal/wal/wal_forge.go:236-254 | every element of the last segment is then synced and nothing else changes, so everything logged is durable |
| Wals.Wal.RotateLog | internal/wal/wal_forge.go:195-232 | the layout on disk gets one empty segment behind the others, which are synced; nothing is lost |
| Wals.Wal.RotateLogIfNeeded | internal/wal/wal_forge.go:182-191 | rotates exactly when size and entry together, in 32 bits, pass the limit, and otherwise changes nothing; afterwards a frame that fits the buffer also fits the segment |
| Wals.Wal.LogCommand | internal/wal/wal_forge.go:119-177 | makes space, then appends one element with the next LSN exactly when its frame fits the buffer (the program panics otherwise): the segments and how much of the last is synced are exactly what this leaves; csSize stays the size of the segment |
| Wals.Wal.CrashSafe | internal/wal/wal_forge.go:119-394 | after any crash that leaves the synced bytes, replay in segment order delivers exactly the commands whose whole frames are left: a prefix of what was logged that contains everything synced, ending without an error exactly when the cut is between frames |
| WalLayouts.CrashLeaves | internal/wal/wal_forge.go:195-254 | a crash can leave every number of elements from what is durable up to what was logged, and no other: nothing unsynced is certain |
| Wals.ReplayCommand | internal/wal/wal_forge.go:309-394 | the read loops deliver what the frames of all segments hold, up to the first that does not end well |
| Wals.RunLog | internal/wal/wal_forge.go:119-287 | every run of logging, syncing and rotating from the start leaves exactly the segments, with exactly as much of them synced, that its steps, the size limit and the frame sizes determine |
| Wals.HistoryAgrees | internal/wal/wal_forge.go:119-287 | wherever the run rotated, the segments together hold the elements of its commands that fit, with their LSNs and times, in order, and what came before its last requested sync or rotation is durable |
| Wals.ClosesExactly | internal/wal/wal_forge.go:72-191 | in every run, a command closes a segment exactly when its frame would take it past maxSegmentSizeMB mod 4096 megabytes; the frame goes to the next one if it fits the 10240 bytes of the buffer |
| Wals.OneSegment | internal/wal/wal_forge.go:72-191 | with a limit below 4096 megabytes, while the frames of all commands together fit it and no rotation is asked for, there is one segment |
| Wals.SyncedStays | internal/wal/wal_forge.go:195-254 | everything logged before a sync or a rotation is on disk from then on |
| Wals.RunCrashReplay | internal/wal/wal_forge.go:119-394 | for every run and every cut of its last segment from the synced bytes to the whole, replay delivers exactly the commands whose whole frames are left: the first of the run, at least all that are durable, and so all logged before any sync or rotation |
| WalNames.NameOrderIsNumberOrder | internal/wal/wal_forge.go:289-305 | the order of the segments by name is their order by number exactly while there are at most ten |
| WalNames.ByNameExactly | internal/wal/wal_forge.go:289-394 | for n segments, replay by name delivers the first commands logged whatever the segments hold if and only if n is at most 10 (given two different commands) |
| Wals.Wal.CrashSafeByName | internal/wal/wal_forge.go:289-394 | so while fewer than ten rotations have happened, replay in the order the program reads the files delivers the same |

## Left out

- Deques.Deque.RPop: requires the last entry's pad byte to be clean; on a dirty one the program reads a wrong length, as Cells.LastStart states, and DequeLimits.DirtyLast shows a run that gets there.
- Deques.Deque.LPush: where it fails, the program panics in make; DequeLimits.FrontTooSmall shows a run that gets there, and LINSERT before the first element requires that it does not. Like RPush it requires an element that is not an integer of 21 or more characters.
- Deques.Deque.RPush: requires an element that is not an integer of 21 or more characters, for which the size function reserves too little (EntryCodec.SizeIsLength) and the in-place encoder panics.
- Lockstep.RunBoth: leaves out integers of 21 or more characters, which only the flat list stores. Its trace leaves open what the runtime decides, the capacity append gives a buffer, and which pad a boundary length gets over reused memory; RPush and LPush state that pad for the single push.
- HScans.Scan: parsing of the arguments is not modelled.
- Wals.Wal.LogCommand: leaves out errors from marshalling and from the file system; the LSN is a 64-bit word that wraps, and LSNs increase while fewer than 2^64 commands have been attempted.
- Wals.ReplayCommand: the callback never fails; a failing one stops the replay at that command.
- Sketches.CountMinSketch.MergeMatrices: requires what its caller checks, equal dimensions, and that the destination's key names the destination; sizing from error rates and serialization are left out.
- SortedSets.SortedSet.PopMin: stands also for GetMin, which differs in the formatting of scores only; NaN scores are left out.
- Watches.Manager.HandleWatchEvent: channels are the sequence of messages sent; blocking sends and the event loop are left out.
- Stores.Store.Put: notifications to the watch manager and eviction statistics are left out.
- EXPIRE with NX, XX, GT and LT: a branch table over SetUnixTimeExpiry that adds no invariant.
- Restart of the log over an existing directory, where csSize starts at 0.
- Serialization of deques, sorted sets and sketches; a drained deque does not keep its spare capacity over it.
- Removal from the google/btree and the sync.Map internals: the tree is a sorted sequence and the tables are maps.
- BITFIELD, BITCOUNT, INCRBYFLOAT, geo, HyperLogLog, JSON, bloom filters, the wire protocol, threads, configuration and authentication.
