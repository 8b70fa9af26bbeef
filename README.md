# NetFree's priority MAC queue, test memory tracker and header decoders in Dafny

This project models three parts of NetFree:

- **The priority MAC queue** (`PriorityMacQueue.c`). NetFree uses it to decide which observed device address to take over next.
  - The queue is a singly linked list behind a sentinel node. Each node holds:
    - a six-byte address;
    - how many packets were seen from that address;
    - when the last packet was seen;
    - a priority, computed by `MAC_PRIORITY` from the packet count and the time.
  - `enqueueMac` has two paths. For an address it has seen before, it bumps the entry and relinks it into priority order. For a new address, it links a fresh entry after the sentinel.
  - `macQueuePeek` reads the front entry, and `dequeueMac` removes it.
- **The memory tracker of the test suite** (`tests/MemoryTracker.c`).
  - The tracker wraps malloc, calloc, realloc and free.
  - It keeps a doubly linked list of `MemoryRef` records behind a lazily created head.
  - It also keeps a `size_t` counter of the bytes not yet freed.
- **The packet-header macros** (`includes/HeaderParser.h`). These are the masks and shifts for:
  - the IPv4 version/IHL byte;
  - the IPv4 flags/fragment-offset word;
  - the TCP data-offset and flags bytes;
  - the 802.11 Frame Control word;
  - the frame offsets of the IPv4 and TCP headers.

Files:

- `sequences.dfy` (module `Sequences`): removing an element of a sequence, and distinctness.
- `mac_address.dfy` (module `MacAddress`):
  - the address width `NETFREE_MAC_SIZE`;
  - `strncpy` with a length of six, as a function and as an array method;
  - `macEquals`.
- `mac_queue_model.dfy` (module `MacQueueModel`): the queue on values.
  - Entries, the score, the lookup `Find` and the relink scan `ScanStop`.
  - `Relink`, the exact effect of the three pointer writes of lines 153-155.
  - `Upsert`, one enqueue as the code performs it.
  - `IntendedUpsert`, the sorted insertion the comments describe.
  - The lemmas connecting these.
- `priority_mac_queue.dfy` (module `PriorityMacQueue`): the queue as a class over heap nodes.
  - The nodes have real `next` pointers.
  - A ghost `chain` lists the nodes, and a ghost `entries` lists their fields.
  - Every method is proved against the value model. The main result: `Enqueue` leaves exactly `Upsert` of the old entries.
  - The methods that add nodes promise they are new, and the others add none, so a client can chain calls. `EnqueueTwiceOnFreshQueue` replays the lost-entry scenario this way.
- `memory_ledger.dfy` (module `MemoryLedger`): the tracker on values.
  - A ledger is a counter, a list of records, and one flag per record saying whether its `prev` pointer is right.
  - `size_t` and `int` are modelled with explicit wrap-around.
  - Each wrapper is a function, with invariants and counterexamples about it.
- `memory_tracker.dfy` (module `MemoryTracker`): the tracker as a class over heap `MemoryRef` nodes, with `next` and `prev` pointers.
  - Each wrapper is proved to produce the ledger function's result.
  - As in the queue, node freshness lets calls chain. `AdjacentFreesThroughTracker` replays the stale-pointer scenario this way.
- `header_parser.dfy` (module `HeaderParser`): the macros as bit-vector functions.

Points where the code does something other than its comments or the natural reading:

- **A re-observed entry can be lost.** The relink scan of line 151 starts at the sentinel, while the updated node is still linked. If the scan stops at the node itself, the three writes make the node point to itself and unlink it. This always happens to the front entry, the one peek and dequeue return, when it is re-observed while it is the only entry, or while its new score is above its successor's.
- **A new address always goes to the front**, whatever its priority. Lines 129-139 compute an insertion point, but `previous` starts at the sentinel and is never null, so the computed point is never used.
- **`length` counts allocations.** It is incremented only for new addresses. `dequeueMac` never decrements it, and a lost entry is never subtracted.
- **`TCP_START` places the TCP header early.** The macro multiplies the unparenthesised `IP_HEADER_LENGTH` expansion, so the `* 4` binds to the mask `0x0f`.
- **Stored addresses are strncpy copies.** The lookup compares them with the raw six input bytes. Take `macEquals` to compare all six bytes. Then an address with a zero byte before a non-zero byte is never found again, and each observation adds a duplicate. The rest of the program treats an address as six raw bytes, so the evident fix is to store a six-byte copy (`CopiedUpsert`), which keeps one entry per device. Comparing against the strncpy copy of the input instead (`PaddedUpsert`), as a `strncmp`-style lookup would, removes the duplicates but merges two devices whose addresses agree up to their first zero byte into one entry whose address is neither device's.
- **`__wrap_free` leaves a stale pointer.** It unlinks a record through its `prev` pointer but never repairs the successor's `prev`. After two adjacent frees, the second write lands in a freed record, and the list keeps the second record.

## Model

| member | source | states |
|---|---|---|
| MacAddress.StrncpyCopy | PriorityMacQueue.c:161 | the `n` bytes `strncpy` leaves: the source up to its first zero byte, then zeros, exactly `n` bytes in all |
| MacAddress.StrncpyCopyAt | PriorityMacQueue.c:161 | byte `i` of the six copied bytes is the source byte when no zero precedes it, and zero otherwise |
| MacAddress.StrncpyCopyUnchangedIff | PriorityMacQueue.c:161 | copying leaves an address unchanged exactly when its zero bytes are trailing |
| MacAddress.NulFreeCopiedUnchanged | PriorityMacQueue.c:161 | an address without zero bytes is stored as given |
| MacAddress.StrncpyCopyIdempotent | PriorityMacQueue.c:194 | a copy is zero-padded, so copying it again (as peek and dequeue do) changes nothing |
| MacAddress.StoredMacIff | PriorityMacQueue.c:160-161 | a stored address is a copy; an address is a copy exactly when copying it is the identity |
| MacAddress.MacEquals | includes/mac.h:27 | two addresses are equal exactly when all six bytes agree |
| MacAddress.Strncpy | PriorityMacQueue.c:194 | the first six buffer bytes become the copy; the rest of the buffer is untouched |
| MacQueueModel.Score | PriorityMacQueue.c:44 | `MAC_PRIORITY`: the packet count times the count weight plus the time times the time weight |
| MacQueueModel.ReceiveTime | PriorityMacQueue.c:116-122 | the timestamp argument, or the clock reading when the argument is not positive |
| MacQueueModel.FirstEntry | PriorityMacQueue.c:157-166 | a new entry holds a zero-padded strncpy copy of the address, a count of 1 and the observation time; its priority is the score for one packet truncated to `int` |
| MacQueueModel.Bumped | PriorityMacQueue.c:146-148 | a re-observed entry keeps its address, counts one more packet, takes the new time, and is re-scored at full precision |
| MacQueueModel.TruncateToInt | PriorityMacQueue.c:113-124 | assigning the double score to `int priority` truncates toward zero |
| MacQueueModel.Find | PriorityMacQueue.c:128 | the lookup stops at the first entry with the address, or at the end |
| MacQueueModel.FindUnique | PriorityMacQueue.c:128 | any index meeting the lookup's stop condition is `Find` |
| MacQueueModel.ScanStop | PriorityMacQueue.c:151 | the relink scan passes exactly the leading entries whose priority is at least `p` |
| MacQueueModel.ScanStopUnique | PriorityMacQueue.c:151 | any index meeting the scan's stop condition is `ScanStop` |
| MacQueueModel.ScanStopPassesEntry | PriorityMacQueue.c:151 | the scan never stops in front of the updated entry itself, since that entry's priority equals `p` |
| MacQueueModel.ScanStopAhead | PriorityMacQueue.c:151 | a stop in front of the entry is the same stop in the list without the entry |
| MacQueueModel.ScanStopBehind | PriorityMacQueue.c:151 | a stop behind the entry is one earlier in the list without the entry |
| MacQueueModel.StaysInPlaceIff | PriorityMacQueue.c:151-155 | the entry drops out exactly when a scan of the other entries would put it back at its own index |
| MacQueueModel.StaysInPlaceAt | PriorityMacQueue.c:151-155 | the entry drops out exactly when every entry ahead has priority at least its own and the next one has lower priority (or it is last) |
| MacQueueModel.Relink | PriorityMacQueue.c:151-155 | the list after the three pointer writes, with the scan stopped where the updated entry's priority first exceeds an entry's |
| MacQueueModel.Move | PriorityMacQueue.c:153-155 | moving entry `k` in front of `j` shortens the list only when `j == k + 1` |
| MacQueueModel.MoveKeepsElements | PriorityMacQueue.c:153-155 | the pointer writes add no entry: everything in the moved list was in the list before |
| MacQueueModel.InsertAtFacts | PriorityMacQueue.c:153-155 | inserting puts the element at its index, removing it gives the list back, and it adds one to the multiset |
| MacQueueModel.MoveForward | PriorityMacQueue.c:153-155 | a move toward the front is a removal followed by an insertion at `j` |
| MacQueueModel.MoveBackward | PriorityMacQueue.c:153-155 | a move toward the back is a removal followed by an insertion at `j - 1` |
| MacQueueModel.RelinkIsReinsertion | PriorityMacQueue.c:151-155 | when the entry stays linked, it is reinserted where a scan of the other entries stops |
| MacQueueModel.RelinkBehind | PriorityMacQueue.c:151-155 | a stop past the entry's successor reinserts it one place earlier than the stop |
| MacQueueModel.RelinkMovesEntry | PriorityMacQueue.c:151-155 | when the entry stays linked, the relink is the sorted insertion of the entry into the other entries: same length, same multiset, entry at `RelinkPosition`, the others in their order |
| MacQueueModel.RelinkLosesEntry | PriorityMacQueue.c:151-155 | when the scan stops at the entry's own node, the entry leaves the list and nothing else changes |
| MacQueueModel.Upsert | PriorityMacQueue.c:108-173 | one `enqueueMac` as written: bump and relink a found entry, or put a new entry in front |
| MacQueueModel.UpsertOfNewAddress | PriorityMacQueue.c:124-170 | a new address goes in front of all old entries, as a copy with count 1, the observation time and the truncated score; the old entries keep their order |
| MacQueueModel.UpsertUpdatesPresentEntry | PriorityMacQueue.c:144-155 | a re-observed entry that stays linked has count + 1, the new time and the recomputed score; the list keeps its length and the other entries their order |
| MacQueueModel.UpsertLosesPresentEntry | PriorityMacQueue.c:144-155 | a re-observed entry that drops out leaves the list; with distinct addresses, no entry with that address remains |
| MacQueueModel.LosesIff | PriorityMacQueue.c:144-155 | the bumped entry is lost exactly when every entry ahead scores at least its new priority and the next one scores less (or it is last) |
| MacQueueModel.SecondObservationEmptiesQueue | PriorityMacQueue.c:108-173 | any stored address enqueued twice on an empty queue leaves the queue empty |
| MacQueueModel.NewEntryCanBreakOrder | PriorityMacQueue.c:127-139 | a concrete sorted queue and a new address with a lower score give a queue that is not sorted |
| MacQueueModel.UnpaddedAddressIsDuplicated | PriorityMacQueue.c:128-161 | the address 00:11:22:33:44:55 enqueued twice gives two entries |
| MacQueueModel.InsertKeepsMacsDistinct | PriorityMacQueue.c:151-155 | the sorted insertion of an entry with a fresh address keeps the addresses distinct |
| MacQueueModel.UpsertKeepsMacsDistinct | PriorityMacQueue.c:108-173 | for an address that survives strncpy unchanged, enqueueing keeps the addresses distinct |
| MacQueueModel.SortedDescending | PriorityMacQueue.c:151 | in a sorted list, any earlier entry scores at least any later one |
| MacQueueModel.FrontIsHighest | PriorityMacQueue.c:186-198 | in a sorted list, the front entry, which peek and dequeue return, has the highest priority |
| MacQueueModel.RemoveAtKeepsSorted | PriorityMacQueue.c:153 | unlinking an entry keeps a sorted list sorted |
| MacQueueModel.InsertAtKeepsSorted | PriorityMacQueue.c:154-155 | inserting between a not-lower and a lower entry keeps a list sorted |
| MacQueueModel.InsertByPriority | PriorityMacQueue.c:129-131 | the insertion the comments describe: immediately before the first entry with a strictly lower priority |
| MacQueueModel.IntendedUpsert | PriorityMacQueue.c:129-131 | the enqueue the comments describe: sorted insertion on both the found and the new path |
| MacQueueModel.InsertByPriorityKeepsSorted | PriorityMacQueue.c:151-155 | the sorted insertion keeps a list sorted and adds exactly the entry |
| MacQueueModel.UpsertOfPresentKeepsSorted | PriorityMacQueue.c:144-155 | re-observing an address keeps a sorted list sorted, even when the entry is lost |
| MacQueueModel.IntendedUpsertKeepsSorted | PriorityMacQueue.c:129-131 | the intended enqueue, with sorted insertion on both paths, keeps the list sorted |
| MacQueueModel.IntendedUpsertContents | PriorityMacQueue.c:108-173 | the intended enqueue replaces a present entry by its bumped copy, or adds one new entry, and loses nothing |
| MacQueueModel.FrontObservationLost | PriorityMacQueue.c:144-155 | re-observing the front entry loses it exactly when it is the only entry or its new score is above its successor's |
| MacQueueModel.PaddedUpsert | PriorityMacQueue.c:128-161 | the enqueue with the lookup comparing against the strncpy copy of the address |
| MacQueueModel.PaddedUpsertKeepsMacsDistinct | PriorityMacQueue.c:128-161 | with the lookup comparing against the strncpy copy of the input, every address, zero bytes included, keeps the stored addresses distinct |
| MacQueueModel.PaddedUpsertFindsNewAddress | PriorityMacQueue.c:128-161 | with that lookup, a new address is found by the next lookup of its copy |
| MacQueueModel.PaddedLookupMergesAddresses | PriorityMacQueue.c:128-161 | with that lookup, 00:11:22:33:44:55 and then 00:AA:BB:CC:DD:EE share one entry whose address is neither, so the second observation is counted against the first device and empties the queue |
| MacQueueModel.ReobserveKeepsMacsDistinct | PriorityMacQueue.c:144-155 | bumping and relinking a present entry, whether it stays or is lost, keeps the addresses distinct |
| MacQueueModel.PrependKeepsMacsDistinct | PriorityMacQueue.c:157-166 | linking an entry with an absent address in front keeps the addresses distinct |
| MacQueueModel.CopiedUpsert | PriorityMacQueue.c:108-173 | the enqueue with a new entry holding all six bytes of the address, as the six-byte addresses of lines 104 and 179 call for |
| MacQueueModel.CopiedUpsertKeepsMacsDistinct | PriorityMacQueue.c:128-161 | with six-byte copies, every six-byte address, zero bytes included, keeps the stored addresses distinct |
| MacQueueModel.CopiedUpsertOfNewAddress | PriorityMacQueue.c:157-166 | with six-byte copies, a new address goes in front exactly as given, the old entries follow, and the next lookup finds it |
| MacQueueModel.CopiedUpsertOfPresentAddress | PriorityMacQueue.c:144-155 | for a present address the six-byte copy changes nothing: the result is the enqueue as written |
| MacQueueModel.CopiedUpsertKeepsDevicesApart | PriorityMacQueue.c:128-161 | with six-byte copies, 00:11:22:33:44:55 and then 00:AA:BB:CC:DD:EE give two entries holding exactly those addresses |
| MacQueueModel.UpsertMatchesIntendedWhenKept | PriorityMacQueue.c:144-155 | when a re-observed entry stays linked, the code and the intended rule agree |
| PriorityMacQueue.MacQueue.constructor | PriorityMacQueue.c:56-59 | before `initMacQueue` there is no sentinel and the length is 0 |
| PriorityMacQueue.MacQueue.Init | PriorityMacQueue.c:64-69 | a fresh sentinel with an empty list and a length of 0 |
| PriorityMacQueue.MacQueue.Destroy | PriorityMacQueue.c:74-97 | every node, the sentinel included, is released in list order; afterwards there is no sentinel, and the length counter and the dequeued and dropped counts are unchanged |
| PriorityMacQueue.MacQueue.Lookup | PriorityMacQueue.c:127-142 | the loop stops at the node in front of the first entry with the address; the insertion point remains the sentinel |
| PriorityMacQueue.MacQueue.ScanFor | PriorityMacQueue.c:151 | the returned node is the one in front of the scan's stop |
| PriorityMacQueue.MacQueue.Bump | PriorityMacQueue.c:146-148 | only the found entry changes: count + 1, the new time and the recomputed score |
| PriorityMacQueue.MacQueue.Splice | PriorityMacQueue.c:153-155 | the entries become the move of entry `k` in front of `j`; an entry dropped by a self-loop is counted |
| PriorityMacQueue.MacQueue.Rewire | PriorityMacQueue.c:153-155 | the three pointer writes link the moved chain of nodes |
| PriorityMacQueue.MacQueue.LinkFirst | PriorityMacQueue.c:157-170 | a copy of the address with count 1 goes in front of all entries, and the length grows by one |
| PriorityMacQueue.MacQueue.Reobserve | PriorityMacQueue.c:144-155 | the entries become the relink of the bumped list; the length is unchanged; a lost entry is counted as dropped |
| PriorityMacQueue.MacQueue.Enqueue | PriorityMacQueue.c:108-173 | the entries become `Upsert` of the old ones at the receive time; the length grows exactly for a new address |
| PriorityMacQueue.MacQueue.Peek | PriorityMacQueue.c:186-198 | null and an untouched buffer on an empty list; otherwise the buffer starts with the front address and the list is unchanged |
| PriorityMacQueue.MacQueue.Length | PriorityMacQueue.c:205-207 | the counter is at least the list's length: the entries plus those dequeued or dropped |
| PriorityMacQueue.MacQueue.Dequeue | PriorityMacQueue.c:219-240 | the front entry leaves and its address is in the buffer; an empty list changes nothing; the length is not lowered |
| PriorityMacQueue.EnqueueTwiceOnFreshQueue | PriorityMacQueue.c:108-173 | through the queue's method contracts: after initMacQueue and two enqueues of one stored address, peek finds nothing while the length reports 1 |
| MemoryLedger.ToSize | tests/MemoryTracker.c:6 | the `size_t` counter's arithmetic is modulo 2^64 |
| MemoryLedger.ToInt | tests/MemoryTracker.c:72-74 | converting to `int` keeps values up to `INT_MAX` and otherwise wraps into the 32-bit range |
| MemoryLedger.FindPtr | tests/MemoryTracker.c:39-48 | the first record tracking the pointer, or the end |
| MemoryLedger.FindPtrIs | tests/MemoryTracker.c:42 | any index meeting the search's stop condition is `FindPtr` |
| MemoryLedger.AfterMalloc | tests/MemoryTracker.c:80-98 | `__wrap_malloc`: the wrapped counter grows by the size; a record with the size as an `int` is appended with a right `prev` |
| MemoryLedger.AfterCalloc | tests/MemoryTracker.c:104-124 | `__wrap_calloc`: malloc of the wrapped product of the two arguments |
| MemoryLedger.AfterRealloc | tests/MemoryTracker.c:130-147 | `__wrap_realloc`: an untracked pointer changes nothing; a tracked record gets the new pointer and size, and the counter moves by the difference |
| MemoryLedger.AfterFree | tests/MemoryTracker.c:153-168 | `__wrap_free`: an untracked pointer changes nothing; a tracked one lowers the counter, and its record leaves the list only when its `prev` is right |
| MemoryLedger.AfterFreeRepaired | tests/MemoryTracker.c:153-168 | `__wrap_free` with the successor's `prev` repaired: the record always leaves the list |
| MemoryLedger.AfterReset | tests/MemoryTracker.c:54-64 | `resetMemoryTracking`: the counter is zeroed and the list kept |
| MemoryLedger.Total | tests/MemoryTracker.c:72-74 | `totalUnfreedMemory`: the counter converted to `int` |
| MemoryLedger.SumUpdate | tests/MemoryTracker.c:139-144 | rewriting one record changes the byte total by the difference in sizes |
| MemoryLedger.SumRemove | tests/MemoryTracker.c:162-164 | unlinking one record lowers the byte total by its size |
| MemoryLedger.ToSizeAdd | tests/MemoryTracker.c:85 | adding to the wrapped counter is wrapping the sum |
| MemoryLedger.WrappersKeepWellFormed | tests/MemoryTracker.c:54-168 | every wrapper keeps one flag per record |
| MemoryLedger.MallocKeepsConsistent | tests/MemoryTracker.c:80-98 | for a block of at most `INT_MAX` bytes, malloc keeps the counter equal to the wrapped sum of record sizes |
| MemoryLedger.ReallocKeepsConsistent | tests/MemoryTracker.c:130-147 | the same for realloc, both for a found and a missing pointer |
| MemoryLedger.FreeKeepsConsistent | tests/MemoryTracker.c:153-168 | free keeps the counter consistent when the record's `prev` pointer is right |
| MemoryLedger.AllocationsKeepBackLinks | tests/MemoryTracker.c:23-26 | appending and rewriting records keep every `prev` pointer right |
| MemoryLedger.FreeStrandsSuccessor | tests/MemoryTracker.c:164 | unlinking a record that has a successor leaves that successor's `prev` stale |
| MemoryLedger.AdjacentFreesSteps | tests/MemoryTracker.c:80-168 | the ledgers after malloc(8) at 1, malloc(16) at 2, free(1) and free(2): the second free lowers the counter to 0 but leaves its record listed |
| MemoryLedger.AdjacentFreesLeaveRecord | tests/MemoryTracker.c:153-168 | two adjacent blocks freed in order leave the second record listed while the counter says 0 |
| MemoryLedger.OversizedBlockMiscounted | tests/MemoryTracker.c:89-93 | a block of `INT_MAX + 1` bytes is recorded as a negative `int` size, so freeing it leaves 2^32 on the counter with no record left |
| MemoryLedger.RepairedFreeKeepsInvariant | tests/MemoryTracker.c:153-168 | with the successor's `prev` repaired, free keeps the counter consistent and every `prev` pointer right |
| MemoryLedger.RepairedAdjacentFreesEmpty | tests/MemoryTracker.c:153-168 | with the repair, the two frees of `AdjacentFreesLeaveRecord` empty the list |
| MemoryLedger.ResetKeepsRecords | tests/MemoryTracker.c:54-64 | reset zeroes the counter and keeps the list, so it stays consistent exactly when the records sum to 0 |
| MemoryLedger.TotalIsSum | tests/MemoryTracker.c:72-74 | on a consistent ledger, the reported total is the sum of the unfreed sizes when that sum fits an `int` |
| MemoryTracker.Tracker.constructor | tests/MemoryTracker.c:6-7 | the counter is 0 and there is no head yet |
| MemoryTracker.Tracker.AddMemoryRef | tests/MemoryTracker.c:15-27 | the record is linked after the last one, with its `prev` pointing back |
| MemoryTracker.Tracker.GetMemoryRef | tests/MemoryTracker.c:39-48 | null exactly when no record tracks the pointer; otherwise the node of the first record that does |
| MemoryTracker.Tracker.Reset | tests/MemoryTracker.c:54-64 | the counter is zeroed; the nodes released are those reached through the `prev` of the second record onward, which are all but the last when the pointers are right |
| MemoryTracker.Tracker.TotalUnfreedMemory | tests/MemoryTracker.c:72-74 | the counter converted to `int` |
| MemoryTracker.Tracker.EnsureHead | tests/MemoryTracker.c:81-83 | the head is created on first use and kept afterwards |
| MemoryTracker.Tracker.Malloc | tests/MemoryTracker.c:80-98 | the ledger becomes `AfterMalloc`, and the block is returned |
| MemoryTracker.Tracker.Calloc | tests/MemoryTracker.c:104-124 | the ledger becomes `AfterCalloc`, with the wrapped product as the size |
| MemoryTracker.Tracker.Realloc | tests/MemoryTracker.c:130-147 | the ledger becomes `AfterRealloc`; the list's nodes stay the same |
| MemoryTracker.Tracker.Rewrite | tests/MemoryTracker.c:143-144 | the found record now holds the new pointer and size, and the other records are unchanged |
| MemoryTracker.Tracker.Free | tests/MemoryTracker.c:153-168 | the ledger becomes `AfterFree` |
| MemoryTracker.Tracker.Unhook | tests/MemoryTracker.c:164 | with a right `prev`, the record leaves the list; with a stale one, the list is unchanged |
| MemoryTracker.TwoMallocs | tests/MemoryTracker.c:80-98 | two mallocs on a new tracker leave two records whose `prev` pointers are right, on nodes that are all new |
| MemoryTracker.TwoMallocsFirstFreed | tests/MemoryTracker.c:153-168 | freeing the first of them leaves the second record with a stale `prev` |
| MemoryTracker.AdjacentFreesThroughTracker | tests/MemoryTracker.c:153-168 | the same four calls through the tracker's method contracts: the total reports 0 while the second record is still listed |
| HeaderParser.IpStart | includes/HeaderParser.h:21 | the IPv4 header starts 14 bytes into the frame, past the Ethernet header of lines 48-53 |
| HeaderParser.IpVersion | includes/HeaderParser.h:22 | the high nibble of the byte |
| HeaderParser.IpHeaderLength | includes/HeaderParser.h:23 | the low nibble of the byte |
| HeaderParser.VersionAndLengthRecompose | includes/HeaderParser.h:22-23 | the two nibbles put back together give the byte |
| HeaderParser.VersionAndLengthDecode | includes/HeaderParser.h:22-23 | a byte built from a version and a length decodes to both |
| HeaderParser.IpFlagMask | includes/HeaderParser.h:25-27 | each flag mask is the single bit of its flag |
| HeaderParser.IpFragOffset | includes/HeaderParser.h:24 | the offset is at most 8191 and keeps the low 13 bits |
| HeaderParser.IpFlagValue | includes/HeaderParser.h:25-27 | a flag macro yields 0 or the flag's mask |
| HeaderParser.IpFlagReadsItsBit | includes/HeaderParser.h:25-27 | a flag macro is non-zero exactly when its bit is set |
| HeaderParser.IpFieldsPartition | includes/HeaderParser.h:24-27 | the three flags and the offset are disjoint and together give the word |
| HeaderParser.TcpDataOffset | includes/HeaderParser.h:30 | the high nibble of the byte |
| HeaderParser.TcpFlagMask | includes/HeaderParser.h:31-38 | each flag mask is the single bit of its flag |
| HeaderParser.TcpFlagValue | includes/HeaderParser.h:31-38 | a flag macro yields 0 or the flag's mask |
| HeaderParser.TcpFlagsPartition | includes/HeaderParser.h:31-38 | the eight flags are disjoint and together give the byte |
| HeaderParser.TcpFlagReadsItsBit | includes/HeaderParser.h:31-38 | a flag macro is non-zero exactly when its bit is set |
| HeaderParser.TcpStart | includes/HeaderParser.h:29 | as expanded, the offset past the IPv4 start is `v & 0x3c`, so at most 60 |
| HeaderParser.TcpStartMisplacesStandardHeader | includes/HeaderParser.h:29 | for the byte 0x45, the macro gives 4 bytes past the IPv4 start where 20 are meant |
| HeaderParser.TcpStartTooEarlyForIpv4 | includes/HeaderParser.h:29 | for every IPv4 byte with a non-zero length, the macro lands inside the IPv4 header |
| HeaderParser.TcpStartIntended | includes/HeaderParser.h:29 | `TCP_START` with the length parenthesised: the IPv4 start plus four times the header length |
| HeaderParser.TcpStartIntendedBounds | includes/HeaderParser.h:29 | with the parenthesised length, a valid header (section 3.1 of RFC 791) puts the TCP header 20 to 60 bytes past the IPv4 start, at four times the length |
| HeaderParser.WifiMask | includes/HeaderParser.h:9-19 | every Frame Control mask but the three multi-bit fields is a single bit |
| HeaderParser.WifiFieldValue | includes/HeaderParser.h:9-19 | a field macro keeps only bits of the word inside its mask |
| HeaderParser.WifiFieldsPartition | includes/HeaderParser.h:9-19 | the eleven masks are disjoint and together give the word |

## Left out

- Locking: the `queueMutex` lock, unlock, init and destroy calls are left out, because the model is sequential.
- The clock: the `CLOCK_MONOTONIC` reading of lines 117-122 is a parameter of `Enqueue`.
- Floating point: double arithmetic is modelled as exact real arithmetic, so rounding is not captured.
- MacQueueModel.TruncateToInt: a score outside the range of `int` makes the conversion at lines 124 and 148 undefined behaviour in C. The model truncates toward zero into an unbounded integer for every score.
- The weights: `NETFREE_REVCOUNT_WEIGHT` and `NETFREE_TIMEDELTA_WEIGHT` come from `PriorityMacQueue.h`, which is not part of this model. The weights are a parameter fixed when the queue is created.
- The priority formula: the file comment gives a formula that differs from the `MAC_PRIORITY` macro of line 44. The model follows the macro.
- Integer overflow: the C `int` overflow of `packetsReceived` and `length` is not modelled; both are unbounded. `int` overflow of the tracker's record sizes is modelled.
- Allocation failure: a null result from an allocation on either side is not modelled.
- Freeing: `free` and `__real_free` are not modelled. A released node stays an object, and `Destroy` and `Reset` return the released nodes as ghost sequences. `resetMemoryTracking` frees nodes that stay listed; the model keeps them listed and does not capture the dangling pointers.
- The real allocators: the block returned by `__real_malloc`, `__real_calloc` or `__real_realloc` is a parameter. The stderr messages for an unknown pointer are left out.
- PriorityMacQueue.MacQueue.Peek: the test for a null stored address (the second half of line 188) is not modelled, because every stored address is allocated at line 160.
- PriorityMacQueue.MacQueue.Dequeue: the buffer must not be null when the list is non-empty, although the doc comment allows null. Line 232 copies into the buffer without testing it, which is undefined behaviour on a null buffer.
- PriorityMacQueue.MacQueue.Destroy: the method requires an initialised queue, because line 79 reads the sentinel without a null test.
- MemoryTracker.Tracker.Reset: the method requires a head and at least one record, because lines 57-58 dereference both without a test.
- MemoryTracker.Tracker.GetMemoryRef, Realloc and Free: these require the head to exist, because lines 40-41 dereference it without a test.
- MacAddress.MacEquals: its definition is not part of this model. The model treats it as equality of all six bytes, as its use on six-byte addresses implies.
- Other header contents: `WIFI_START` and the radiotap, IPv4, TCP and 802.11 struct layouts are not modelled beyond the sizes the offsets need.
- Other files: `includes/iptcpdata.h` repeats the same macros and is not modelled. `mac.c`, `system.c`, `scanner.c`, `netfree.c` and the test runner are not part of this model.

## Findings

| source | as written | input that shows it | evidently intended | confidence | as-written member | corrected member |
|---|---|---|---|---|---|---|
| includes/HeaderParser.h:29 | `IP_HEADER_LENGTH(ipHeader) * 4` expands to `v & 0x0f * 4`, which is `v & 0x3c` | version/IHL byte 0x45 yields 4 bytes instead of 20 | the IPv4 start plus four times the header length | high, not executed | HeaderParser.TcpStartMisplacesStandardHeader | HeaderParser.TcpStartIntendedBounds |
| PriorityMacQueue.c:151-155 | the relink scan can stop at the updated node itself, which then points to itself and leaves the list | enqueue one stored address twice on an empty queue: the queue ends empty while `length` is 1 | the updated entry is reinserted in priority order and never lost | high, not executed | MacQueueModel.SecondObservationEmptiesQueue | MacQueueModel.IntendedUpsertContents |
| PriorityMacQueue.c:128-161 | the lookup compares each stored strncpy copy with the raw six input bytes | 00:11:22:33:44:55 enqueued twice gives two entries with the same stored address | store a six-byte copy of the address, so each device keeps exactly one entry | medium, not executed | MacQueueModel.UnpaddedAddressIsDuplicated | MacQueueModel.CopiedUpsertKeepsMacsDistinct |
| PriorityMacQueue.c:127-139 | `previous` starts at the sentinel and is never null, so a new entry is always linked at the front | weights (1, 0), queue [priority 2], then a new address with score 1: the result [1, 2] is not descending | a new entry goes before the first entry with a lower priority | medium, not executed | MacQueueModel.NewEntryCanBreakOrder | MacQueueModel.IntendedUpsertKeepsSorted |
| tests/MemoryTracker.c:164 | the successor's `prev` is not repaired, so a later free of that successor writes into a freed record and leaves it listed | malloc 8 bytes at 1 and 16 bytes at 2, then free 1 and free 2 | both frees unlink their records | high, not executed | MemoryLedger.AdjacentFreesLeaveRecord | MemoryLedger.RepairedFreeKeepsInvariant |
