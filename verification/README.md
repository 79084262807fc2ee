# Kvstore, modelled and verified in Dafny

This project models the algorithms of a Redis-like key-value server written in C
and proves what they do: four storage engines and a slab allocator with their
pointers, a TCP reassembly relay, the two-thread expiry pipeline at the level of
single loads and stores, RESP framing, the append-only log with its recovery, the
snapshot file and the RDMA file transfer.

`dafny verify dfyconfig.toml` checks everything.

## How it is built

- `KvData` has the byte strings and their order, `Table` the map from keys to
  values with expiry times that every engine is proved to refine, `SeqFacts` a few
  facts about sequences.
- `RbShape` and `RbTree`: the red-black tree. The heap nodes with their `left`,
  `right`, `parent` and `color` fields are tied to a value, the shape, and to a
  zipper into it; the cases of the two fixup loops are lemmas about shapes, and the
  methods rewrite the fields.
- `Reassembly`, `Ring`, `Relay` (with `Pool`): the relay. `Reassembly` is the
  reference on stream offsets; the class is proved to follow it through sequence
  number wraparound, slots, ring growth and partial sends.
- `PoolShape`, `MemPool`: the slab allocator. Addresses are integers; memory is a
  map of words and one map for each header field that changes.
- `SkipShape`, `SkipList`, `TimeKey`, `TimeIndex`: the skip list and the time index.
- `Spsc`, `MinHeap`, `Expire`, `Progress`: the lock-free queues, the timer heap, the
  state machine of the two threads, and that every due timer is freed in the end.
- `Resp`, `Grammar`, `RespEncode`, `Stream`: framing, and the grammar that it accepts.
  `Commands` (with `Recovery`), `Verbs`, `Effects`, `CommandTable`, `Server`: what the
  commands do, told as functions and again by their words; replay; and the loops.
- `Aof`: the double-buffered writer; `Crash` joins it to recovery.
- `HashChains`, `HashTable`, `IdList`: the hash table and the id lists in it.
  `ArrayTable`: the array. `Fnv`, `SnapshotCodec`, `Snapshot`: the snapshot.
  `Rdma`: the transfer.

The clock, random levels, what `send()`, `recv()` and the kernel do, whether a
completion has come and the addresses that the system allocator gives are
parameters; the theorems hold for all of them. Allocation succeeds except where an
address of 0 is modelled. The steps of `Expire`, `Spsc` and `Rdma` are functions of
the state, and runs are arbitrary sequences of steps.

## Where the code does not do what one would expect

Each of these is a proved statement about the code as it is.

- A ring that is exactly full is never sent from, because its head equals its tail,
  until a write makes it grow (`Relay.Relay.RbSend`, `Relay.Relay.FlushAll`).
- A kept segment that the frontier overtakes is never used, and a segment that starts
  where a shorter one is kept is dropped. Bytes that only such segments have are lost,
  which is so exactly when the frontier comes to lie inside one of them
  (`Reassembly.AnyOrderReassembles`, `Reassembly.OvertakenBytesAreLost`,
  `Reassembly.DroppedBytesAreLost`); a sender can tell beforehand
  (`Reassembly.WhenBytesAreLost`).
- `mem_pool_trim` has nothing to do: the last chunk that comes back has already
  released its block (`MemPool.MemPool.Trim`).
- A key set on the array without an expiry time is deleted by its own timer when TTL
  is on (`Expire.ArrayEntryIsLost`).
- `kvs_persistence_close` waits for ever whenever a write is in flight after its
  second step, since the wait loop collects completions but leaves the busy flag
  (`Aof.Aof.Close`).
- The branch that closes a connection on a protocol error is never reached
  (`Server.Connection.HandleAll`).
- An entry with an empty key, which three engines accept, ends the loading of a
  snapshot at that point (`Snapshot.OneBadRecordEndsTheLoad`).
- Recovery leaves a torn request at the end of the log where it is and later writes go
  behind it; they are then read as its continuation. Exactly a file that ends with a
  whole request can be written on (`Crash.RestartIsSafeWhen`,
  `Crash.TornTailMakesUpACommand`).
- The time index shares its list with ordinary keys. A query for the last n entries
  counts these: it may give too few entries, and it gives an ordinary key of 16 bytes or
  more for an id (`TimeIndex.RecentIsAsked`, `TimeIndex.OrdinaryKeyHides`).
- `cmd_zadd` (kvstore.c:482-489) has no upper bound for timestamps. From 10^15 on the id
  that comes back is not the one that was added, and the key does not sort by its time
  (`TimeIndex.LateEntryIsMisread`, `TimeKey.ReadsBackWhen`, `TimeKey.LateKeySorts`).
- A range bound of more than 15 digits acts as its first 15 (`TimeKey.LongBound`,
  `TimeIndex.RangeIsAsked`); nothing in the source calls `kvs_zset_range`. Negative
  timestamps sort in reverse (`TimeKey.KeyOrder`); `cmd_zadd` refuses them.
- A key that is empty takes a cell of the array for good: it is never found, so it
  cannot be deleted (`ArrayTable.ArrayTable.Set`, `ArrayTable.ArrayTable.Find`).
- A file of 4 GiB or more is announced with a wrong size (`Rdma.AnnouncedSize`).

Comments in `persistence.c` speak of a 64 KiB threshold and of 20 ms; the code uses
16 KiB and 10 ms, and so does the model.

## Model

| member | source | states |
|---|---|---|
| `KvData.CompareIsLexicographic` | kv_utils.c:107-122 | key comparison is lexicographic order on byte strings: negative, positive and zero each exactly when the reference order says so |
| `KvData.CompareSymmetric` | kv_utils.c:107-122 | swapping the arguments swaps the sign; equal only for equal strings |
| `KvData.CompareTransitive` | kv_utils.c:107-122 | less-than is transitive, so the order is total |
| `Table.LazyDeletionIsInvisible` | kvs_rbtree.c:390-404 | over any run of writes, lookups and deletes under a clock that does not go back, a table that deletes expired entries when they are met answers every lookup as one that never does |
| `Table.LazyRun` | kvs_rbtree.c:390-404 | what the two tables differ in is exactly entries that have expired |
| `Table.LastWriteDecides` | kvs_rbtree.c:326-418 | over any run a key that was written last with value v and expiry time x has exactly that entry, unless TTL is on, x is above 0 and a lookup came later than x; a key that was deleted last is in no table |
| `Table.LastPutAnswers` | kvs_rbtree.c:390-404 | so a lookup answers v, for ever if x is 0 or TTL is off and otherwise exactly until the clock has passed x |
| `Table.NeverWritten` | kvs_rbtree.c:390-404 | a key that was never written is in no table |
| `Table.ListingIsUnique` | kvs_rbtree.c:443-463 | a traversal in key order of the unexpired entries is determined by the table: tree and skip list with the same entries list the same |
| `RbShape.HeightIsLogarithmic` | kvs_rbtree.c:94-131 | a red-black tree of n nodes with n + 1 below 2^(k+1) is at most 2k high |
| `RbShape.EveryPathIsLogarithmic` | kvs_rbtree.c:134-149 | in a red-black tree that lists n nodes no walk from the root is longer than 2k steps, for any k with n + 1 below 2^(k+1) |
| `RbShape.RecoloredRises` | kvs_rbtree.c:96-104 | red uncle: after recolouring, the only possible violation has moved two levels up |
| `RbShape.MovedOutRises` | kvs_rbtree.c:104-107 | inner grandchild: the first rotation keeps the only possible violation and makes it an outer one |
| `RbShape.TurnedRises` | kvs_rbtree.c:108-110 | outer grandchild: the second rotation leaves no violation and the black heights as they were |
| `RbShape.UnderSiblingShort` | kvs_rbtree.c:197-202 | red sibling: the rotation keeps one side short by one black node, under a black sibling |
| `RbShape.SiblingReddened` | kvs_rbtree.c:203-205 | black sibling with black children: reddening it moves the shortage one level up |
| `RbShape.NearSiblingShort` | kvs_rbtree.c:207-212 | red near nephew only: the rotation makes the far nephew red and keeps the shortage in place |
| `RbShape.FarUpMakesUp` | kvs_rbtree.c:213-217 | red far nephew: the rotation makes up for the shortage |
| `RbTree.Tree.constructor` | kvs_rbtree.c:286-303 | an empty, valid tree with a black sentinel |
| `RbTree.Tree.LeftRotate` | kvs_rbtree.c:57-73 | exactly which left, right and parent fields and root a left rotation rewrites, whichever neighbours are the sentinel |
| `RbTree.Tree.RightRotate` | kvs_rbtree.c:75-91 | exactly which left, right and parent fields and root a right rotation rewrites |
| `RbTree.Tree.TurnLeft` | kvs_rbtree.c:57-73 | in any well-linked tree the rotation gives the well-linked tree of the rotated shape |
| `RbTree.Tree.TurnRight` | kvs_rbtree.c:75-91 | the same for the right rotation |
| `RbTree.Tree.InsertRound` | kvs_rbtree.c:95-129 | one pass of the insertion loop keeps the links, the listing and all but one possible red-red pair, and gets nearer to the root or done |
| `RbTree.Tree.InsertFixup` | kvs_rbtree.c:94-131 | from a tree whose only possible violation is at the new node the loop ends, with a red-black tree of the same listing and well-linked |
| `RbTree.Tree.DeleteRoundLeft` | kvs_rbtree.c:195-218 | one pass of the deletion loop for a left child keeps links, listing and a shortage of one black node at one place, nearer to the root or repaired |
| `RbTree.Tree.DeleteRoundRight` | kvs_rbtree.c:219-243 | one pass for a right child keeps the same, in all four cases |
| `RbTree.Tree.DeleteFixup` | kvs_rbtree.c:193-246 | from a tree one black node short at one place the loop ends, with a red-black tree of the same listing |
| `RbTree.Tree.Transplant` | kvs_rbtree.c:181-190 | exactly which fields replacing a subtree rewrites, also when the new subtree is the sentinel, whose parent it sets |
| `RbTree.Tree.Mini` | kvs_rbtree.c:50-55 | the node that comes first in a subtree's listing, which has no left child |
| `RbTree.Tree.UnlinkInner` | kvs_rbtree.c:260-275 | a node with two children: its successor takes its place and colour; what is left is the listing without the node |
| `RbTree.Tree.UnlinkOuter` | kvs_rbtree.c:254-259 | a node with at most one child: that child takes its place |
| `RbTree.Tree.Delete` | kvs_rbtree.c:249-282 | a red-black tree again, well-linked, that lists every other node in the old order |
| `RbTree.Tree.Search` | kvs_rbtree.c:134-149 | the node of the key, or the sentinel exactly when the key is not in the table |
| `RbTree.Tree.FindParent` | kvs_rbtree.c:151-178 | the node of the key, or the one place under a parent where it keeps the order |
| `RbTree.Tree.Set` | kvs_rbtree.c:326-387 | the tree stays valid (strict key order, red-black, links) and its table is the old one with the key set, whether the value is overwritten, the node replaced or a node added |
| `RbTree.Tree.Get` | kvs_rbtree.c:390-404 | the value if the key is there, unless TTL is on and its time is above 0 and has passed; in that case it is deleted, and nothing else ever is |
| `RbTree.Tree.Del` | kvs_rbtree.c:407-418 | 0 exactly if the key was there; the table without the key |
| `RbTree.Tree.DelIfExpired` | kvs_rbtree.c:420-428 | removes the entry exactly if its expiry time is the expected one |
| `RbTree.Tree.Exist` | kvs_rbtree.c:436-440 | 0 exactly if a lookup would find the key |
| `RbTree.Tree.ForEachNode` | kvs_rbtree.c:443-454 | what the recursion visits under a node is the unexpired part of that subtree's listing |
| `RbTree.Tree.ForEach` | kvs_rbtree.c:456-463 | each unexpired entry once, in strictly increasing key order |
| `RbTree.Tree.HeightBound` | kvs_rbtree.c:326-387 | the height of every valid tree is at most 2 log2(n + 1) |
| `Reassembly.SeqGtIsGreater` | ebpf_relay.c:35-35 | exactly when the 32-bit comparison says greater, in terms of stream offsets: within 2^31 it is their order |
| `Reassembly.OffsetRoundTrip` | ebpf_relay.c:35-35 | an offset below 2^32 is recovered from its sequence number, wherever numbering starts |
| `Reassembly.OverflowsWhen` | ebpf_relay.c:226-239 | the pool overflows exactly when a segment is to be kept and 128 are; all are given up and the next segment begins anew wherever it starts |
| `Reassembly.RunAccounts` | ebpf_relay.c:241-287 | for segments of any cut, in any order and number of copies, without overflow: every byte passed on lies in an arrived segment that ends at or before the frontier, and every arrived segment ends there, is kept, or was dropped for one that starts at the same place |
| `Reassembly.ArriveMovesOn` | ebpf_relay.c:260-287 | within an epoch the frontier never goes back |
| `Reassembly.AnyOrderReassembles` | ebpf_relay.c:260-287 | for all such runs: what is passed on has arrived, from the first arrival on, and it reaches the first byte that has not arrived if and only if the frontier lies inside no kept segment and inside none that was dropped |
| `Reassembly.AlignedReassemble` | ebpf_relay.c:260-287 | segments that are always cut at the same places are never lost: everything is passed on up to the first byte that has not arrived |
| `Reassembly.WhenBytesAreLost` | ebpf_relay.c:226-286 | one arrival after any run, told before it is sent: the frontier that it leads to is not the first missing byte if and only if that place lies inside a segment kept now or dropped before |
| `Reassembly.WhenItStraddles` | ebpf_relay.c:274-286 | if the frontier is inside no kept segment and none of these ends inside another: one arrival puts it inside a kept segment if and only if it moves it to a place inside one at which no kept segment starts |
| `Reassembly.StaysTidy` | ebpf_relay.c:226-239 | no kept segment ends inside another after an arrival if and only if the new one, when it is kept, neither ends inside one nor has one end inside it |
| `Reassembly.UntidyStraddles` | ebpf_relay.c:241-256 | without that condition it fails: a pool in which a kept segment starts where the frontier is moved to and the merge loop still ends inside another |
| `Reassembly.OvertakenStaysPending` | ebpf_relay.c:241-287 | a kept segment that the frontier has passed stays kept and is never merged |
| `Reassembly.OvertakenBytesAreLost` | ebpf_relay.c:274-286 | three segments cut differently on retransmission: 20 bytes arrive, 15 are passed on, and the frontier is inside a kept segment |
| `Reassembly.DroppedBytesAreLost` | ebpf_relay.c:227-227 | four segments, of which two start at the same place and the longer comes second: 20 bytes arrive, 15 are passed on, and the frontier is inside the dropped segment only |
| `Ring.RingBuf.Write` | ebpf_relay.c:132-170 | the queued bytes are the old ones followed by the new, through growth and wrapping; the size is the first doubling that holds them; a write that fills it exactly leaves a ring of which nothing is offered for sending |
| `Ring.DoubledIs` | ebpf_relay.c:132-137 | the size after growing is the old one times the least power of two that makes room |
| `Ring.RingBuf.CopyOut` | ebpf_relay.c:138-150 | the copy loop puts the queued bytes in order at the start of the new buffer |
| `Ring.RingBuf.Append` | ebpf_relay.c:158-169 | appends in one piece or in two |
| `Ring.RingBuf.Readable` | ebpf_relay.c:173-183 | how much one send is offered; nothing exactly if the ring is empty or exactly full |
| `Ring.RingBuf.Consume` | ebpf_relay.c:186-190 | takes bytes from the front and no others |
| `Relay.Relay.RbSend` | ebpf_relay.c:172-200 | sent bytes followed by queued bytes stay the same; nothing is sent exactly if the ring is empty, exactly full or the socket blocks; fails exactly on an error of the socket |
| `Relay.Relay.FlushAll` | ebpf_relay.c:202-208 | the same over up to 64 sends; with a willing socket the ring ends empty if and only if it was not exactly full |
| `Pool.FullWhen` | ebpf_relay.c:219-224 | there is a free slot exactly when fewer segments are kept than there are slots |
| `Relay.Relay.OooFindSeq` | ebpf_relay.c:212-217 | finds the slot that keeps a sequence number, or that there is none |
| `Relay.Relay.OooFindFree` | ebpf_relay.c:219-224 | finds an unused slot, or that 128 segments are kept |
| `Relay.Relay.OooInsert` | ebpf_relay.c:226-239 | keeps a segment once; on overflow the pool is emptied and the epoch ends |
| `Relay.Relay.MergeOne` | ebpf_relay.c:243-255 | one pass of the merge loop does one step of the reference |
| `Relay.Relay.OooFlush` | ebpf_relay.c:241-256 | merges as the reference does, and ends |
| `Relay.Relay.PassOn` | ebpf_relay.c:267-269 | bytes that continue the stream are queued and the expected number moves on by as many |
| `Relay.Relay.JoinTail` | ebpf_relay.c:274-286 | of a segment that starts before the frontier exactly the part beyond it is queued |
| `Relay.Relay.Process` | ebpf_relay.c:260-287 | one segment changes the state as the reference says, and sent bytes followed by queued bytes are what earlier epochs passed on followed by the stream from the epoch's start to the frontier |
| `Relay.Relay.HandleEvent` | ebpf_relay.c:290-301 | the same; payloads of no bytes or more than 1024 change nothing |
| `Relay.Relay.Run` | ebpf_relay.c:260-392 | any run of pieces of the stream, of any cut, in any order and repeated, with attempts to send in between, through wraparound and ring growth: the state is the reference's, and without overflow what is sent is a beginning of the stream from the first arrival on, sent followed by queued is that stream up to the frontier, all of which has arrived, and the frontier is the first byte that has not arrived if and only if it is inside no kept or dropped segment |
| `PoolShape.ChunkInBlock` | mempool.c:17-19 | a chunk lies inside its block behind the header, is 8-byte aligned, and masking its address gives the block |
| `PoolShape.CapacityFills` | mempool.c:54-54 | as many chunks as fit behind the header of a block, and no fewer |
| `PoolShape.TakeFree` | mempool.c:72-80 | taking the head of the free list keeps the conservation law of every block |
| `PoolShape.Carve` | mempool.c:87-91 | the next uncarved chunk is neither live nor free, and carving it keeps the law |
| `PoolShape.GiveBack` | mempool.c:111-114 | giving a chunk back keeps the law |
| `PoolShape.FullyFree` | mempool.c:117-117 | a free count equals the capacity exactly if every chunk was carved and none is live |
| `PoolShape.Release` | mempool.c:117-136 | releasing such a block takes no live chunk away and keeps the law for the others |
| `PoolShape.NoPlaceLeft` | mempool.c:68-92 | with nothing free and nothing uncarved every place of a block where a chunk fits has a live one |
| `PoolShape.LiveChunksAreApart` | mempool.c:68-92 | two chunks never share a byte if one of them is live and the other live or free; each is aligned and inside its block |
| `MemPool.MemPool.constructor` | mempool.c:23-40 | a valid pool whose chunk size is the request rounded up to 8 |
| `MemPool.MemPool.AddNewBlock` | mempool.c:43-66 | a new aligned block becomes the current one, uncarved from byte 40 to less than a chunk before its end; on failure nothing changes |
| `MemPool.MemPool.Alloc` | mempool.c:68-92 | fails exactly if nothing is free, nothing uncarved and no block is given, and then every place of every block where a chunk fits has a live one; otherwise hands out a chunk that was not live, last freed first |
| `MemPool.MemPool.Write` | mempool.c:212-217 | writes of an owner into its chunk cannot break the free list |
| `MemPool.MemPool.FreeChunk` | mempool.c:110-137 | exactly this chunk stops being live; its block is released if and only if it is carved to the end and has no other live chunk; the free list is the old one with the chunk, or without the block's |
| `MemPool.MemPool.UnlinkBlock` | mempool.c:118-125 | the walk over links takes exactly this block off the list |
| `MemPool.MemPool.RemoveFromFreeList` | mempool.c:95-107 | the walk takes exactly this block's chunks off the free list and keeps the order of the others |
| `MemPool.MemPool.Trim` | mempool.c:139-167 | finds no block to release, in any reachable state |
| `MemPool.SizeMap` | mempool.c:173-190 | every request size up to 8192 gets the smallest class that holds it |
| `SkipShape.NextWithBefore` | kvs_skiptable.c:205-208 | after an insertion the next node on a level is the new one exactly for the last node before it that reaches the level; all others keep theirs |
| `SkipShape.NextSansBefore` | kvs_skiptable.c:245-249 | after a removal the last node before it that reaches a level is followed by what came behind; all others keep theirs |
| `SkipList.LinkedWith` | kvs_skiptable.c:205-208 | once a node is linked on all its levels, the chain of each level is exactly the nodes that reach it, in order |
| `SkipList.LinkedSans` | kvs_skiptable.c:245-249 | the same after a node is bypassed |
| `SkipList.SkipList.constructor` | kvs_skiptable.c:94-107 | an empty, valid list |
| `SkipList.SkipList.FindUpdate` | kvs_skiptable.c:127-149 | per level the last node before the key, and the node of the key if it is there |
| `SkipList.SkipList.Raise` | kvs_skiptable.c:195-200 | levels that did not exist start at the header |
| `SkipList.SkipList.Insert` | kvs_skiptable.c:194-211 | for every level of the new node: chains, level, count and order stay right and the table gains the entry |
| `SkipList.SkipList.Lower` | kvs_skiptable.c:254-256 | the level ends at 0 or at a chain that is not empty, and the chains above it are |
| `SkipList.SkipList.Remove` | kvs_skiptable.c:245-256 | chains, level, count and order stay right and the table loses the entry |
| `SkipList.SkipList.Set` | kvs_skiptable.c:173-212 | the table with the key set, whether overwritten, replaced or added, for every random level |
| `SkipList.SkipList.Get` | kvs_skiptable.c:215-232 | the value if the key is there, unless TTL is on and its time is above 0 and has passed; in that case it is deleted, and nothing else ever is |
| `SkipList.SkipList.Del` | kvs_skiptable.c:235-259 | 0 exactly if the key was there; the table without it |
| `SkipList.SkipList.DelIfExpired` | kvs_skiptable.c:261-274 | removes the entry exactly if its expiry time is the expected one |
| `SkipList.SkipList.ForEach` | kvs_skiptable.c:286-306 | each unexpired entry once, in strictly increasing key order |
| `TimeKey.KeyOrder` | kvs_skiptable.c:319-325 | key order is (timestamp, id) order for all timestamps that fit, unless both are negative: then it is the reverse by time |
| `TimeKey.KeyRoundTrip` | kvs_skiptable.c:328-337 | timestamp and id are read back from a key |
| `TimeKey.ReadsBackWhen` | kvs_skiptable.c:319-337 | a key is one of the index exactly for timestamps from 0 up to 10^15, and gives its id back exactly for timestamps below 10^15 among those that are not negative |
| `TimeKey.LateKeySorts` | kvs_skiptable.c:319-325 | a key with a timestamp of 10^15 or more is later than every entry and sorts behind exactly those whose time is below its first 15 digits |
| `TimeKey.BoundCompares` | kvs_skiptable.c:427-431 | comparing 15 characters with a bound, of any size and sign, compares the timestamps with the bound cut to 15 digits |
| `TimeKey.BoundIsBytes` | kvs_skiptable.c:427-428 | whatever the key holds, zero bytes too, comparing it with a bound as strings compares bytes |
| `TimeKey.LongBound` | kvs_skiptable.c:416-418 | a bound with j digits too many acts as its whole part in units of 10^j |
| `TimeIndex.Add` | kvs_skiptable.c:342-356 | fails exactly on an empty id or a key of 128 bytes or more; otherwise the table gains the key, and is an index afterwards if and only if it was one and the timestamp is from 0 up to 10^15 |
| `TimeIndex.NothingLater` | kvs_skiptable.c:431-431 | stopping at the first key past the upper bound misses nothing, among ordinary keys too |
| `TimeIndex.Range` | kvs_skiptable.c:408-461 | in any list and for any bounds: fails exactly for an empty interval, otherwise the ids of exactly the keys of 16 bytes or more whose first 15 lie between those of the bounds, in key order |
| `TimeIndex.RangeIsAsked` | kvs_skiptable.c:405-461 | these are the index entries with timestamps in the interval, by time and then id, if and only if the list has no ordinary long key between the bounds and none of the entries that a bound of more than 15 digits misplaces |
| `TimeIndex.RangeOfShortBounds` | kvs_skiptable.c:405-461 | with bounds below 10^15, negative ones too, and no ordinary key of 16 bytes or more, there is no such key |
| `TimeIndex.Count` | kvs_skiptable.c:420-434 | the first pass counts the keys that are taken, in any list and for any bounds |
| `TimeIndex.Collect` | kvs_skiptable.c:442-456 | the second pass collects their ids |
| `TimeIndex.Recent` | kvs_skiptable.c:361-403 | fails exactly unless n is positive; otherwise, in any list, the ids of the keys of 16 bytes or more among the last n keys of all |
| `TimeIndex.RecentIsAsked` | kvs_skiptable.c:358-403 | these are the last n index entries if and only if none of the last n keys is a long one that is no entry, and either all of them are entries or no entry comes before them |
| `TimeIndex.OrdinaryKeyHides` | kvs_skiptable.c:358-403 | asked for one entry, a list of an entry and a later ordinary key gives the ordinary key if that has 16 bytes or more, otherwise nothing |
| `TimeIndex.LateEntryIsMisread` | kvs_skiptable.c:328-403 | an id that is added with a timestamp of 10^15 or more comes back longer: with digits of the timestamp or the colon before it |
| `TimeIndex.RecentOfIndex` | kvs_skiptable.c:358-403 | in a list of index entries only they are n of them, or all if there are fewer, and every other entry is earlier by time and then id |
| `Spsc.ProducerKeepsOk` | expire.c:40-51 | every single step of a push keeps the queue invariant, wherever the consumer stands |
| `Spsc.ConsumerKeepsOk` | expire.c:53-64 | every single step of a pop keeps it, wherever the producer stands |
| `Spsc.WritesOutside` | expire.c:48-48 | the slot that is written holds no item that is still to be read |
| `Spsc.NeverTorn` | expire.c:61-61 | the slot that is read is whole and is not the one being written |
| `Spsc.RefusedWhenFull` | expire.c:44-46 | a push is refused exactly if 65535 items were waiting when the tail was loaded |
| `Spsc.NothingWhenEmpty` | expire.c:57-59 | a pop finds nothing exactly if nothing was waiting when the head was loaded |
| `Spsc.ProducerPutsLast` | expire.c:40-51 | a push puts its item behind all that wait, or leaves them as they are |
| `Spsc.ConsumerTakesFirst` | expire.c:53-64 | a pop takes the first of them: first in, first out |
| `MinHeap.RiseStep` | expire.c:95-100 | one step up keeps all but one place in heap order |
| `MinHeap.SinkStep` | expire.c:109-118 | one step down keeps all but one place in heap order |
| `MinHeap.MinHeap.Push` | expire.c:87-101 | the timers plus one, in heap order again |
| `MinHeap.MinHeap.Pop` | expire.c:103-120 | nothing exactly if empty; otherwise a timer that expires first, and the others stay |
| `Expire.StepSound` | expire.c:123-148 | every step of either thread keeps both queues and the threads' places right |
| `Expire.StepConserves` | expire.c:123-230 | every step moves each timer from one place to another or leaves it |
| `Expire.StepOnTime` | expire.c:132-140 | no timer leaves the heap before a clock reading has reached it |
| `Expire.Reachable` | expire.c:123-230 | all of this holds after every interleaving of steps from the start |
| `Expire.InOnePlace` | expire.c:164-230 | a timer is in exactly one place (a queue, the heap, a thread's hand, or finished), and nothing else is in any: its key is freed at most once and not while it is elsewhere |
| `Expire.TimerRemovesOnlyDue` | expire.c:183-230 | the timer path removes at most the entry of its timer, only while TTL is on and the entry still has the timer's expiry time, which a clock reading has reached; entries without expiry time only from the array; all others keep value and time |
| `Expire.TimerRemovesDue` | expire.c:123-230 | a timer that waits alone, the heap and both queues being otherwise empty, not of the hash tables, after one turn of each thread: if it is due, the entries that are gone are exactly the one under its key that still has its expiry time; if not, it waits in the heap and cannot be taken |
| `Expire.SetEntryGoes` | kvstore.c:103-112 | with both threads at rest and nothing queued, an entry that is set with an expiry time is in its table until the two threads take their turns at or after that time, and then is not |
| `Expire.ArrayEntryIsLost` | kvstore.c:103-112 | with TTL on, a key that is set on the array without an expiry time is deleted once the two threads have each taken their turn |
| `Expire.SetStores` | kvstore.c:142-151 | in every state in which a SET is taken its table has the entry, with its own time under TTL or for the contexts and otherwise with none, and is else as it was, whether or not a timer is made |
| `Expire.SetSubmits` | kvstore.c:103-112 | a timer is submitted for it exactly under TTL and, but for the array, with an expiry time, if the key could be copied |
| `Expire.DelRemoves` | kvstore.c:160-164 | a DEL removes its key and changes nothing else |
| `Expire.GetRemoves` | kvs_rbtree.c:390-404 | a lookup removes its key exactly under TTL and with a time above 0 that has passed, and changes nothing else |
| `Expire.DeleteRemoves` | expire.c:183-230 | a timer's deletion removes the entry of its key exactly if that has the timer's time and, in a hash table, the key is found |
| `Expire.RunIsMinusDue` | expire.c:123-230 | after any commands and any interleaving of the two threads each table is what its SETs and DELs alone would leave, minus entries that, under TTL, had a time that a later lookup or the timer thread's clock had reached, or were the array's without a time |
| `Expire.RunHandsEarliest` | expire.c:132-140 | in every reachable state the timer that is handed on expires no later than any that is left in the heap |
| `Progress.StepMovesOn` | expire.c:123-230 | a step of either thread moves a timer on from place to place or moves none; none is ever moved back |
| `Progress.BothCanMove` | expire.c:123-230 | each thread can always take a step |
| `Progress.TimerRun` | expire.c:123-148 | as long as no timer moves, a timer thread that has something to do and is not kept waiting by a full queue takes at most 8 steps, whatever the main thread does in between |
| `Progress.MainRun` | expire.c:164-230 | the same for the main thread and 6 steps |
| `Progress.RoundGetsOn` | expire.c:123-230 | while a due timer is not freed, 9 steps of the timer thread and 7 of the main thread, interleaved in any way with each other and with reads and deletes, bring a timer on |
| `Progress.RoundExists` | expire.c:123-230 | from every state such a round can be run |
| `Progress.DueTimersAreFreed` | expire.c:123-230 | from every reachable state, however the threads interleave: after 6 such rounds for each timer that is not freed, every timer whose time had come is freed |
| `Resp.Stable` | resp.c:66-93 | a complete request keeps its length and arguments whatever follows it |
| `Resp.PrefixFree` | resp.c:66-93 | no strict prefix of a complete request is complete |
| `Grammar.FrameIs` | resp.c:66-136 | a buffer is found to start with a whole request of this length and these arguments if and only if it does by the grammar: *, a number, CR LF and that many bulk strings, each $, its length, CR LF, its bytes, CR LF |
| `Grammar.AtoiReads` | resp.c:66-93 | what atoi makes of any line: white space, a sign, digits, the rest |
| `Grammar.AtollReads` | kvstore.c:485-485 | the same for atoll, which stops at the largest number |
| `Grammar.Dissect` | resp.c:66-93 | every line can be taken apart like that |
| `RespEncode.RoundTrip` | resp.c:66-136 | an encoded argument list, whatever follows it, is read back: its length and its arguments |
| `RespEncode.PrintIsShortest` | resp.c:356-367 | numbers are written as digits without a leading zero |
| `RespEncode.InternalDel` | resp.c:356-367 | the request that a timer's deletion logs is the encoding of the command and the key, whole |
| `Stream.ParseCovers` | resp.c:205-351 | cutting a stream into requests loses nothing; the rest does not start with a whole request |
| `Stream.SplitAnywhere` | ntyco.c:111-140 | a stream cut at any point gives the same requests as the whole |
| `Stream.AnyChunks` | ntyco.c:111-140 | the same for any number of chunks |
| `Stream.LogPrefix` | resp.c:388-440 | of a log cut after any number of bytes exactly the requests that are still whole are found |
| `Server.FindCrlfFrom` | resp.c:54-61 | the first CR LF, if there is one |
| `Server.HasComplete` | resp.c:66-93 | the loop finds the length that the framing function gives |
| `Server.Unpack` | resp.c:95-136 | the loop gives the arguments of a whole request |
| `Server.Server.ProcessStream` | resp.c:205-351 | all whole requests are executed in order, the write commands among them logged in order, byte for byte; a first byte other than * gives -1 with nothing parsed |
| `Server.Server.Recover` | resp.c:388-440 | all whole requests of a log are executed in order and nothing is logged |
| `Server.Connection.Reserve` | ntyco.c:82-97 | there is room for more bytes unless 16 MiB wait |
| `Server.Connection.HandleAll` | ntyco.c:113-134 | everything that is whole is handled; the branch that closes the connection on a negative status is never reached |
| `Server.Connection.OnData` | ntyco.c:111-140 | after a chunk the buffer holds exactly what is not yet whole |
| `Server.Connection.Serve` | ntyco.c:81-148 | whatever sizes the received pieces have, after k bytes the executed and logged commands are those of the first k bytes of the stream; if every piece has a byte it ends early only with 16 MiB of one request waiting |
| `Commands.OnlyLoggedChange` | resp.c:18-39 | with TTL off a command that changes a table is one that is logged |
| `Verbs.LoggedWhen` | resp.c:18-39 | a command is logged exactly if it is one of the 18 write commands, spelled in capitals or not |
| `Verbs.SameName` | kvstore.c:796-819 | two names are the same command if and only if they are equally long and agree letter by letter but for case |
| `Verbs.NameSpells` | kvstore.c:796-819 | a name is a command's if and only if it spells its word, each letter in either case |
| `Verbs.OneCommand` | kvstore.c:103-260 | a command leaves every key of every table as it was, but the one that it writes its value to or drops, told by its words and numbers of arguments |
| `Verbs.BlanksCommand` | kvs_array.c:68-91 | a SET with an empty key takes a cell of the array if one is left |
| `Effects.LastWriteWins` | kvstore.c:103-260 | over any run of commands a key is in a table exactly if a write to it was not followed by a deletion, and has the value of the last one |
| `Effects.IndexOfAppends` | kvs_hash.c:317-370 | over any run the keyword index is what the SETIDX commands append, each to its own key |
| `Recovery.LoggedSuffice` | resp.c:302-330 | the logged commands alone give the same tables as all commands |
| `Recovery.RecoveryIsPrefixConsistent` | persistence.c:199-236 | replaying the log cut after any number of bytes gives the tables as they were after some prefix of the commands, after all of them if it is not cut |
| `CommandTable.CommandTable.constructor` | kvstore.c:765-790 | every command gets a slot behind full slots only, for any hash function |
| `CommandTable.CommandTable.Lookup` | kvstore.c:796-819 | finds a name exactly if the table has it, letter by letter in either case, and ends |
| `Aof.Aof.Complete` | persistence.c:109-112 | the write in flight lands at the end of the file, with the bytes that were submitted |
| `Aof.Aof.TriggerFlush` | persistence.c:86-113 | swaps and submits exactly if there is data, no write in flight and a submission slot; file, flight and buffer together stay the log |
| `Aof.Aof.CheckCompletions` | persistence.c:116-138 | collects a finished write and starts the next exactly if 16 KiB have gathered; the log stays whole |
| `Aof.Aof.Write` | persistence.c:141-176 | accepted data is appended to the log; data of up to 64 MiB is accepted as soon as it fits or one pass of the wait loop meets a completion and a submission slot; larger data never |
| `Aof.Aof.FlushPending` | persistence.c:179-197 | with a slot and no write left in flight what then still waits is short of 16384 bytes and the last flush less than 10 ms ago; what is both is not submitted; otherwise it is, whole; the exact new time of the last flush; the log stays whole |
| `Aof.Aof.ForceFlush` | persistence.c:239-248 | with a submission slot nothing stays behind unless a write is in flight |
| `Aof.Aof.CrashLeavesPrefix` | persistence.c:86-113 | a crash at any moment, the write in flight done in part, leaves a prefix of the log |
| `Crash.CrashThenRecover` | persistence.c:86-236 | a client's stream is executed and logged and the writer crashes at any moment: replaying the file gives the tables as they were after some prefix of the commands |
| `Crash.RestartThenRecover` | persistence.c:199-236 | the same for a server that recovers a file, goes on from it and crashes again, if the file did not end inside a request: a second recovery gives the recovered tables after some prefix of the new commands |
| `Crash.RestartIsSafeWhen` | persistence.c:224-235 | what is logged behind a recovered file reads back as the file's requests followed by the new ones, whatever these are, if and only if the file does not end inside a request |
| `Crash.TornTailMakesUpACommand` | persistence.c:224-235 | a file torn inside DEL kxy, with DEL x logged behind it, reads back as DEL k*2, which nobody issued |
| `Aof.Aof.Close` | persistence.c:251-313 | hangs if and only if a write is in flight after its second step, that is, one was and has not finished, or there was unwritten data and a slot; otherwise the whole log is in the file |
| `HashTable.HashTable.constructor` | kvs_hash.c:51-64 | an empty, valid table of 16 slots |
| `HashTable.SlotsArePowers` | kvs_hash.c:22-48 | the number of slots is 16 times a power of two |
| `HashTable.HashTable.LoadBound` | kvs_hash.c:118-241 | never more entries than slots, and beyond 16 slots at least a quarter as many |
| `HashTable.HashTable.Resize` | kvs_hash.c:22-48 | every node ends in the bucket of its cached hash, none is lost or doubled |
| `HashTable.HashTable.MoveChain` | kvs_hash.c:33-40 | moves the nodes of one bucket, following links that it rewrites |
| `HashTable.HashTable.Find` | kvs_hash.c:124-142 | the node of the key and the one before it, or that the key is not in the table |
| `HashTable.HashTable.MakeRoom` | kvs_hash.c:118-122 | there are more slots than entries afterwards |
| `HashTable.HashTable.Unlink` | kvs_hash.c:222-226 | takes exactly this node out of its chain |
| `HashTable.HashTable.Set` | kvs_hash.c:113-179 | the table with the key set; slots stay 16 times a power of two, entries never exceed slots, and beyond 16 slots are at least a quarter of them |
| `HashTable.HashTable.Del` | kvs_hash.c:211-241 | 0 exactly if the key was there; the table without it, and the same bounds through shrinking |
| `HashTable.HashTable.Get` | kvs_hash.c:182-203 | the value if the key is there, unless TTL is on and its time is above 0 and has passed; in that case it is deleted, and nothing else ever is |
| `HashTable.HashTable.DelIfExpired` | kvs_hash.c:244-262 | removes the entry exactly if its expiry time is the expected one |
| `HashTable.HashTable.ForEach` | kvs_hash.c:295-314 | one call for each unexpired entry and no other, bucket by bucket |
| `HashTable.HashTable.Append` | kvs_hash.c:317-370 | fails exactly on an empty id; otherwise the list under the key gains the id unless it has it, also when the node is replaced or the old list has expired |
| `IdList.SplitOfJoin` | kvs_hash.c:385-412 | splitting undoes joining, for ids that are not empty and have no comma |
| `IdList.AppendIs` | kvs_hash.c:317-370 | for any value and any id, commas included: fails exactly for an empty id; keeps a value that has the id between two commas or ends; otherwise puts it last, behind a comma if the value is not empty |
| `IdList.JoinOfSplit` | kvs_hash.c:385-412 | cutting any value at its commas loses nothing: joined again the pieces are the value, and none has a comma |
| `IdList.AppendsList` | kvs_hash.c:317-370 | after any appends the list has each id once, in the order of first appends |
| `IdList.EachKeyListsItsOwn` | kvs_hash.c:317-417 | the same for each key among appends to any keys |
| `IdList.HasToken` | kvs_hash.c:331-345 | the scan finds an id exactly if it is one of the tokens |
| `IdList.GetList` | kvs_hash.c:373-417 | the loop gives all tokens in order |
| `ArrayTable.ArrayTable.Find` | kvs_array.c:58-65 | the cell of the key, or that the key is not in the table; an empty key is never found |
| `ArrayTable.ArrayTable.Set` | kvs_array.c:68-91 | fails exactly for a new key in a full array; otherwise the table with the key set, and an empty key takes a cell and changes no table |
| `ArrayTable.ArrayTable.Del` | kvs_array.c:115-136 | 0 exactly if the key was there; the table without it, the last cell moved into the gap |
| `ArrayTable.ArrayTable.Get` | kvs_array.c:98-112 | the value if the key is there, unless TTL is on and its time is above 0 and has passed; in that case it is deleted, and nothing else ever is |
| `ArrayTable.ArrayTable.DelIfExpired` | kvs_array.c:142-155 | removes the entry exactly if its expiry time is the expected one |
| `ArrayTable.ArrayTable.ForEach` | kvs_array.c:184-198 | one call for each unexpired entry and no other with TTL on, none at all with TTL off |
| `Fnv.MultiplyUndone` | snapshot.c:42-42 | multiplying by the prime modulo 2^64 is undone by multiplying by its inverse |
| `Fnv.RoundInjective` | snapshot.c:41-42 | a round is injective in the state and in the byte |
| `Fnv.DetectsOneByte` | snapshot.c:36-45 | replacing any one byte changes the checksum |
| `Fnv.Crc64` | snapshot.c:36-45 | the loop computes the checksum |
| `Fnv.OneByteMore` | snapshot.c:36-45 | the checksum of no data is the basis; one byte more is the state with the byte in its low bits, times the prime, modulo 2^64 |
| `Fnv.XorBits` | snapshot.c:41-41 | each bit of the exclusive or is the sum of the two bits modulo 2 |
| `Fnv.OfLetterA` | snapshot.c:36-45 | the published value for the letter a |
| `SnapshotCodec.RecordReads` | snapshot.c:266-304 | a stored record is read back exactly if its table is from 1 to 8, its key from 1 to 1048576 bytes and its value at most 10485760; otherwise reading stops |
| `SnapshotCodec.LowestFirst` | snapshot.c:48-57 | in each stored number the lowest byte comes first |
| `SnapshotCodec.OnlyRecordsRead` | snapshot.c:266-304 | whatever the data is, what is read as a record is one, byte for byte |
| `SnapshotCodec.RoundTrip` | snapshot.c:261-364 | all stored records are read back if and only if each of them is acceptable; otherwise those before the first that is not |
| `Snapshot.SnapshotBuffer.Append` | snapshot.c:48-57 | the contents are the old ones followed by the new bytes, through growth |
| `Snapshot.SnapshotBuffer.WriteRecord` | snapshot.c:83-96 | appends the six fields of a record |
| `Snapshot.Save` | snapshot.c:145-226 | the traversals of array, tree, five hash tables and skip list are made and the file is their records followed by the checksum: every unexpired entry of every table once, at that table's reading of the clock, and no other; of the array only with TTL on |
| `Snapshot.OneKindMore` | snapshot.c:166-201 | one more table's calls extend what has been saved by exactly that table |
| `Snapshot.ReadRecord` | snapshot.c:266-304 | reads a record as specified and never beyond the data limit |
| `Snapshot.Load` | snapshot.c:228-371 | refuses a file that is too small or has a wrong checksum; otherwise restores its records |
| `Snapshot.AcceptedWhen` | snapshot.c:234-259 | a file is accepted if and only if it is some data followed by its checksum |
| `Snapshot.SaveThenLoad` | snapshot.c:146-371 | if the loader accepts every visited entry, loading a saved file gives every table back exactly, but for entries whose time has passed and, with TTL off, the array |
| `Snapshot.OneBadRecordEndsTheLoad` | snapshot.c:284-287 | an empty or oversized key keeps all records after it from being loaded |
| `Snapshot.OneByteIsDetected` | snapshot.c:252-259 | a saved file with any one byte replaced, in data or checksum, is refused |
| `Rdma.StepKeeps` | repl.c:265-426 | every step of master, slave or network keeps the protocol invariant |
| `Rdma.SlaveHasPrefix` | repl.c:365-396 | once truncated, the slave's file is a prefix of the master's |
| `Rdma.NothingOverwritten` | repl.c:309-323 | data is delivered only while the slave has none to write out, and the master refills its buffer only while nothing is in flight from it |
| `Rdma.ChunkIs` | repl.c:310-315 | each chunk but the last is 32 MiB, the last is what is left |
| `Rdma.NeverStuck` | repl.c:265-426 | the two never wait for each other |
| `Rdma.RunKeeps` | repl.c:265-426 | every run keeps the invariant and the file, and each of its steps uses up some of what remains to be done |
| `Rdma.RunsEndEqual` | repl.c:265-426 | every run from the start, whatever the buffers and the old file hold, has at most 20 n + 24 steps for n bytes; throughout, a truncated slave file is a beginning of the master's and no data is overwritten; and a run that cannot go on has both parties done and equal files |
| `Rdma.AnnouncedSize` | repl.c:297-297 | the slave learns the size of the file exactly if it is below 4 GiB |

## Left out

- `Relay.Relay.Run`: for one stream of under 2^31 bytes and without overflow of the pool; `Relay.Relay.HandleEvent` covers streams up to 2^32 bytes as long as a segment is less than 2^31 away from the frontier, and the start of a new epoch.
- `Relay.Relay.RbSend`: the sum of sent bytes and the event counters are not kept.
- `MemPool.MemPool.AddNewBlock`: the magic number and the back pointer of a header are not modelled, nor is the dispatch between slab and fallback in `kvs_free`.
- `MemPool.MemPool.FreeChunk`: `kvs_realloc` and what a chunk contains are not modelled beyond the word that links it.
- `SkipList.SkipList.Set`: a node is one object; its layout in one allocation and `free` are not modelled, and neither is memory reuse in any engine.
- `RbTree.Tree.Set`: the linking of a new node, written out twice in the source, is one method here.
- `Spsc.ProducerKeepsOk`: loads and stores take effect in one order that both threads see; the acquire and release orderings that ensure it are not modelled.
- `Expire.ApplySet`: the array's capacity and a failing key copy appear only as no timer being made; the version number is not modelled, since nothing reads it.
- `Expire.TimerRemovesDue`: not for the hash tables, where the key's cached hash is not set by `expire_push_cmd`.
- `Expire.Reachable`: shutting the threads down is not modelled, nor is the limit of 500 deletions per call.
- `Resp.FrameOf`: numbers that `atoi` would read past their line, that overflow, or that are negative lengths are one outcome, at which the loops stop.
- `Server.Server.ProcessStream`: replies, the replication backlog, `RDMA_CONNECT`, `SYNC` and `PING` are not modelled.
- `Commands.Exec`: TTL off; expiry times and the vector index of KEEP are not part of the state.
- `CommandTable.CommandTable.Lookup`: an empty name, for which the source reads on to the next zero byte, is simply not found.
- `Aof.Aof.Complete`: asynchronous writes are of full length and succeed, as the source assumes.
- `Crash.RestartIsSafeWhen`: for files of less than 2^31 bytes, since the server keeps the length of what it parses in an `int`.
- `Aof.Aof.Close`: waiting itself does not fail.
- `HashTable.HashTable.Set`: the hash function is any function of the key; `hash & (slots - 1)` is taken as the remainder, which it is for a power of two.
- `Snapshot.Save`: the callbacks' appends are made after the traversals, which they do not affect; `fork`, `rename` and short writes are not modelled.
- `Snapshot.Load`: the tables come back as maps; the calls that set each entry in its engine are not made, nor is the array's limit of 100000 entries applied.
- `Progress.DueTimersAreFreed`: from when no new timers are made; while commands keep making them the timer thread keeps draining its queue and need not look at the heap.
- `Rdma.StepKeeps`: messages arrive, once and in order; the polling of send completions is not modelled, which only allows more runs.
- The configuration, the reactor and proactor servers, the test clients and the eBPF program.
- Embeddings and similarity search (`ai_chat.c`): floating point and HTTP.
- Equality of master and slave over a whole replication: the code resets and drops backlog entries.
