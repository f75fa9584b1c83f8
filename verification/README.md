# ixmap: a model in Dafny, with proofs

ixmap forwards IP packets in user space on Intel 82599 network adapters. This project
models the parts of it that carry state or arithmetic worth a proof, and proves what they
promise:

- the longest-prefix-match trie behind the forwarding table (`src/lpm.c`, `src/fib.c`);
- the receive and transmit rings and the packet slots that move through them
  (`lib/driver.c`), with the forwarding loops as their users (`src/forward.c`);
- the buddy allocator (`lib/memory.c`);
- the semaphores shared by drivers and firmware, the bit-banged EEPROM read and the
  EEPROM checksum (`kmod/ixmap_eeprom.c`);
- the incremental IPv4 header checksum (`src/forward.c`), the list of DMA areas and the
  merging of pages (`kmod/ixmap_dma.c`), and the neighbour table (`src/hash.c`,
  `src/neigh.c`).

`dafny verify dfyconfig.toml` checks the whole project. Code that changes things in place is
a class or a method with loops, proved against functions on values; what is promised over
whole runs is proved about those functions.

## How the parts fit

**Forwarding table.** `Routes` says what a lookup should give: a linear scan of the live
routes. `Trie` relates a trie to the route set it stands for (`RepTable`), shows that lookup
in such a trie is the scan, and that adding and deleting follow the set. `TrieLaws` adds
uniqueness, counting and undoing; `TrieSteps` the intermediate states of the loops, with
memory that may run out and a ledger of references; `Fib` is the table itself, nodes on the
heap; `TrieRuns` goes over whole runs. IPv4 and IPv6 differ only in the number of 32-bit
words of an address, which is a parameter.

**Rings and slots.** `Rings` is one descriptor ring and a NIC that finishes descriptors in
order. `Plane` puts any number of ports, the slots and the caller together as a state
machine whose steps include the NICs'; `PlaneRuns` states what holds in every state of every
run. `Buffers` says which memory a descriptor points to and follows the words the NIC writes.
`Driver` is the code: each of its methods extends a recorded trace of steps, with NIC
steps allowed in between. `Forwarding` is the loop over received packets, `ForwardingLeak`
what its double release leads to.

**Buddy allocator.** `Buddy` works on trees and runs of requests, `BuddyPaths` relates a
change at one place to all other places, `BuddyHeap` has the nodes with their links, and
`BuddyMemory` the bytes of the region with the headers in front of the blocks.

**EEPROM.** `Semaphore` and `SemaphoreExpiry` are the locking protocol, one register access
per step. `SpiChip` is the serial EEPROM as it answers to the bits it is sent, `Spi` the
driver's side, `NvmChecksum` the checksum.

**The rest.** `IpChecksum`, `DmaAreas`, `PageRuns` and `Neighbours` stand on their own;
`Arithmetic` and `AddressBits` hold facts about powers of two and bits, `Common` the types
and constants that several modules use.

## Where the code does not do what one would expect

Each of these is modelled as it is, with the exact condition under which it works and an
input or a run on which it does not.

- An add that runs out of memory after its first copy and before its last leaves a record
  freed twice or a trie that refers to a freed record (`src/lpm.c:162-166`,
  `src/lpm.c:230-246`, `src/fib.c:176-183`). `Fib.Table.RouteUpdate`: the table comes out
  consistent if and only if the add is not torn in this way. `TrieSteps.DefaultRouteTorn` and
  `LongerRouteTorn` are torn adds of either kind.
- The loop over received packets releases the slot of a packet after it has handed it to a
  transmit ring (`src/forward.c:82-86`). `Forwarding.ForwardAllKeepsIff`: slots stay accounted
  for if and only if every packet of the batch is dropped or refused.
  `ForwardingLeak.RunLeaks`: a run from the start that ends with one slot in two rings.
- Poll loops that run out clear semaphore bits that belong to others, on purpose
  (`kmod/ixmap_eeprom.c:73-75`, `598-605`), and the release of a resource goes on without the
  semaphore (line 86). `Semaphore.MutualExclusion` holds for every run without these three;
  `SemaphoreExpiry` has a run for each of them that breaks exclusion. The fourth kind of
  expiry, waiting for the firmware while taking a resource (lines 642-645), does no harm.
- TTL 0 is not caught (`src/forward.c:181-184`). `IpChecksum.ForwardedRight`: a forwarded
  header is right again if and only if its TTL was not 0; `ExpiredForwarded` is one that is
  not.
- The overlap test of the DMA list misses a range that encloses a listed one
  (`kmod/ixmap_dma.c:254-255`). `DmaAreas.Adapter.Map`: the list stays in order if and only if
  no listed range is enclosed; `EnclosingAccepted` is such a range.
- The size of a chunk of pages is shifted in 32 bits (`kmod/ixmap_dma.c:336`).
  `PageRuns.CounterIff` and `LengthsRight`: lengths and size counter are right if and only if
  no run of pages reaches four gigabytes and the size suffices; `FourGigabytes` is a run that
  becomes a chunk of length 0. The caller computes the size with the same shift (line 127).
  `PageRuns.CallerRight`: its calls are right if and only if they have fewer than 2^20 pages.
- The EEPROM checksum loop over a section uses a 16-bit counter (`kmod/ixmap_eeprom.c:730`),
  and reads beyond the chip fail without stopping it. `NvmChecksum.EndsIff`: for every image,
  the loops end if and only if every section walked ends before the last address;
  `OverlongNeverEnds` is a chip of 32768 words on which they do not.
- The request of an allocation is rounded up in 32 bits (`lib/memory.c:97-98`).
  `Buddy.PaddedHolds`: the block has room for request and header if and only if the request is
  at most 2^32 - 128, and exactly which requests round to 0. `Buddy.ZeroEndsIff`: the search
  for such a request ends if and only if there is no free block at all.
- A word count of 65536 or more does not fit its 16-bit field (`kmod/ixmap_eeprom.c:691`).
  `Spi.SizeFieldLimit`: it becomes 0 from size field 10 on.
- The offset of a slot's buffer is computed in 32 bits (`lib/driver.c:380`).
  `Buffers.BuffersApartIff`: buffers are apart if and only if the last one starts below 2^32.

## Model

| member | source | states |
|---|---|---|
| AddressBits.Index | src/lpm.c:55-65 | The bits of a stride, by shift and mask, give an index inside the table of that stride. |
| AddressBits.BitOfIndex | src/lpm.c:55-65 | A bit of an address is the corresponding bit of the index of the stride that contains it. |
| AddressBits.LeadingBits | src/lpm.c:55-65 | Two indices have the same leading bits, as numbers, exactly if the addresses agree bit by bit there. |
| Routes.ScanIsBest | src/lpm.c:67-89 | The reference for lookups: nothing exactly if no route covers the address, else a covering route of greatest length, and of those the one added last. |
| Routes.ScanSplit | src/lpm.c:91-114 | Routes longer than n decide a lookup whenever one of them covers the address; otherwise the shorter ones do. |
| Routes.SortedKeep | src/lpm.c:435-462 | The order of an entry's list, by length and then newest first, does not depend on the routes that are not in it. |
| Routes.InsertAt | src/lpm.c:435-462 | Inserting behind the last longer route is insertion into the sorted list. |
| Trie.TouchesBits | src/lpm.c:194-205 | An address runs through an entry that a route expands to exactly if the two agree on the bits of that stride that the prefix fixes. |
| Trie.LookupIsScan | src/lpm.c:67-114 | Lookup in a trie that stands for a route set is the linear scan of the set, from any table on. |
| Trie.RepUnique | src/lpm.c:171-246 | A route set determines its trie: list orders, tables and all. |
| Trie.RepEmpty | src/lpm.c:314-322 | A table stands for no route exactly if all its entries are empty, so pruning loses nothing and leaves nothing. |
| Trie.AddTableRep | src/lpm.c:171-246 | A route placed in all entries of its expansion turns a trie for a set into a trie for the set with the route in front. |
| Trie.SameInEntry | src/fib.c:222-235 | Inside an entry, id and prefix length identify a route, although the prefix itself is not compared. |
| Trie.DelTableRep | src/lpm.c:282-328 | Deleting turns a trie for a set into a trie for the set without the route, empty tables released. |
| TrieLaws.AddThenDelete | src/lpm.c:171-328 | Deleting a route just added gives back the identical trie, list order and tables included. |
| TrieLaws.RepNoEmptyTable | src/lpm.c:314-322 | No trie that stands for a route set has an empty table below an entry. |
| TrieLaws.HeldCount | src/lpm.c:135-157 | A route is held in exactly as many entries as its prefix expands to, whatever the number of tables on the way. |
| TrieLaws.HeldAfterAdd | src/lpm.c:203-225 | An add gives the new record as many references as its prefix has entries, and changes no other count. |
| TrieLaws.HeldAfterDelete | src/lpm.c:464-481 | A delete takes away every reference to the record, and changes no other count. |
| TrieLaws.TouchedRun | src/lpm.c:135-137 | The entries a prefix expands to are one run of the expected length inside the table. |
| TrieSteps.FailedAdd | src/lpm.c:230-246 | What a failed add leaves is the old trie exactly if no copy stayed behind. |
| TrieSteps.FailedLedger | src/fib.c:176-183 | A failed add that placed nothing leaves the ledger as it was; one that took copies back has freed the record twice. |
| TrieSteps.PutsAll | src/fib.c:257-267 | Dropping all references frees the record, once. |
| TrieSteps.DefaultRouteTorn | src/lpm.c:139-166 | A default route in an empty table is torn with memory for one up to all but one of its 65536 copies. |
| TrieSteps.LongerRouteTorn | src/lpm.c:207-234 | A route of length 17 in an empty table is torn with memory for the table below and one up to all but one of its 128 copies. |
| Fib.NewTable | src/lpm.c:47-53 | A new table has only fresh, empty entries. |
| Fib.Table.EntryInsert | src/lpm.c:435-462 | Refuses exactly if a route with this id and length is listed, changing nothing; otherwise the list becomes the sorted list with the route, and one reference is taken. |
| Fib.Table.PlaceRun | src/lpm.c:203-225 | Copies go into the run of entries in order until memory runs out or the route is found; how many, which lists change and how, and the references taken. |
| Fib.Table.AddBelow | src/lpm.c:171-246 | Adding below an entry: number of copies placed for every amount of memory, success exactly if all were placed, missing table created, and an empty one released again on failure. |
| Fib.Table.LpmAdd | src/lpm.c:116-169 | Adding from the root: as above, and the first table takes back what a failed expansion placed. |
| Fib.Table.Rollback | src/lpm.c:162-166 | Taking back the copies in the first table restores it exactly, one reference dropped for each. |
| Fib.Table.RouteUpdate | src/fib.c:138-186 | Succeeds exactly if the route is new and memory suffices; then the route is in front of the live ones. A duplicate leaves everything unchanged. The table is consistent afterwards if and only if the add was not torn by lack of memory. |
| Fib.Table.EntryDelete | src/lpm.c:464-481 | Unlinks the one listed route with this id and length and drops its reference, or reports that there is none. |
| Fib.Table.DeleteRun | src/lpm.c:302-311 | The entries of the run all hold the route or none does; all of them lose it. |
| Fib.Table.DeleteBelow | src/lpm.c:282-328 | Deleting below an entry, with the table released if that empties it. |
| Fib.Table.RouteDelete | src/fib.c:188-206 | Succeeds exactly if the route is live; then it is gone from every entry and its record freed once; otherwise nothing changes. |
| Fib.Table.EntryPut | src/fib.c:257-267 | Drops one reference and frees the record with the last. |
| Fib.Table.LookupBelow | src/lpm.c:91-114 | The search below an entry gives what the scan of the routes there gives. |
| Fib.Table.Lookup | src/lpm.c:67-89 | Lookup gives what the linear scan of the live routes gives. |
| Fib.Table.ReleaseHead | src/lpm.c:483-495 | Drops exactly the references of one list. |
| Fib.Table.ReleaseNode | src/lpm.c:346-368 | Drops exactly the references held at and below an entry. |
| Fib.Table.ReleaseAll | src/lpm.c:330-344 | Empties the table; every record is freed, each once. |
| TrieRuns.TrieHasRoute | src/lpm.c:435-462 | The duplicate test on the way down finds a route exactly if it is in the set. |
| TrieRuns.EveryRun | src/lpm.c:67-328 | After every run of adds and deletes, for IPv4 and IPv6 lengths, lookup of any address is the linear scan of what was added and not deleted, and no table is empty. |
| TrieRuns.SameRoutesSameTrie | src/lpm.c:171-328 | Runs that leave the same routes in the same order leave the same trie. |
| Rings.UnusedRight | lib/driver.c:36-45 | For every ring size from 2 to 65535 and every position of the indices, outstanding plus unused is size minus one, in 16 bits, and use meets clean only on an empty ring. |
| Rings.AssignOk | lib/driver.c:110-120 | Writing a descriptor with the done bit clear keeps the ring sound and puts the slot last. |
| Rings.CompleteOk | lib/ixmap.h:163-205 | The NIC finishing its oldest descriptor keeps the ring sound and changes no slot. |
| Rings.CleanOk | lib/driver.c:231-239 | A descriptor that passes the test is not the NIC's, was finished since it was written, and is the oldest. |
| Rings.CanCleanIff | lib/driver.c:296-311 | The test passes exactly if the NIC has finished something that has not been taken back. |
| Plane.FreshNotDone | lib/driver.c:170-182 | A freshly written descriptor never shows the done bit, because the word that holds it is overwritten. |
| Plane.FindSlotFails | lib/driver.c:326-355 | The search for a slot fails exactly if the port's whole range is in flight, wherever it starts. |
| Plane.FirstFree | lib/driver.c:335-344 | Every slot it passes over, going round from where it starts, is in flight. |
| Plane.StepKeeps | lib/driver.c:77-375 | Every step of driver, caller or NIC keeps: rings sound, flags set exactly for the slots that are held, and each held once. |
| PlaneRuns.StartInv | lib/ixmap.c:115-116 | The initial state of any number of ports satisfies the invariant. |
| PlaneRuns.SlotConservation | lib/driver.c:77-375 | In every state of every run a slot's flag is set exactly if it is somewhere, and then it is in one place: in the caller's hands, or once in one ring of one port. |
| PlaneRuns.RunOrder | lib/driver.c:94-314 | Over every run, the slots that left a ring and those still in it are those that were in it and those that entered, in the same order. |
| PlaneRuns.CleanIsSafe | lib/driver.c:213-318 | In every state of every run, the test for taking a descriptor back passes exactly for finished ones, and never for one the NIC still owns. |
| PlaneRuns.AssignFailsWhenExhausted | lib/driver.c:326-355 | In every state of every run, slot assignment fails exactly if the port's range is in flight. |
| Forwarding.DropIsRelease | src/forward.c:79-86 | A packet that is dropped or refused gives its slot back, no more. |
| Forwarding.SentLeaks | src/forward.c:82-86 | A packet that the ring takes leaves its slot marked free while the ring refers to it. |
| Forwarding.ForwardKeepsIff | src/forward.c:55-87 | One turn of the loop keeps the invariant if and only if the packet is dropped or refused. |
| Forwarding.ForwardAllKeepsIff | src/forward.c:55-87 | The loop over a batch leaves every slot accounted for if and only if all packets are dropped or refused, judged on the rings before the loop. |
| Forwarding.AllDroppedMeans | src/forward.c:79-86 | That condition, packet by packet: each one has no output port, or its ring was full or the packet too long before the loop began. |
| ForwardingLeak.SentThenReused | src/forward.c:82-86 | If the search on a port comes upon the slot of a packet just sent, the next filling of the receive ring leaves the slot in two rings. |
| ForwardingLeak.RunLeaks | src/forward.c:55-87 | A legal run from the start in which that happens: a frame is received, collected and forwarded, and its slot goes to the receive ring again while the transmit ring holds it. |
| Buffers.BuffersApartIff | lib/driver.c:377-381 | The DMA buffers of n slots do not overlap if and only if the last one starts below 2^32. |
| Buffers.StepPending | lib/driver.c:107-113 | Every step keeps: each descriptor the NIC may still use points to the buffer of the slot attached to it, and on receive the rest of it is 0. |
| Buffers.FrameSizeReports | lib/driver.c:261 | The length read from a descriptor is the length field of the word the NIC wrote, whatever status and VLAN tag are. |
| Buffers.DoneBit | lib/ixmap.h:163-205 | The done bit is bit 0 of the status, in the lower half of the word on receive and in the upper half on transmit. |
| Buffers.RunWords | lib/driver.c:225-274 | Over every run, the words of the frames collected and of those waiting are the words that were waiting and those the NIC has delivered since, in the same order. |
| Driver.Driver.Search | lib/driver.c:333-346 | The loop finds the first free slot in search order. |
| Driver.Driver.AssignSlot | lib/driver.c:326-355 | Returns -1 exactly if the port's range is in flight, changing nothing; otherwise takes the first free slot going round from the search position, marks it, and moves the position behind it, modulo the range. |
| Driver.Driver.FillRx | lib/driver.c:88-120 | The loop that fills a receive ring: goes on until the ring is full or no slot is left, behind the slots that are there; nothing is taken back and the NIC is not told yet. |
| Driver.TxDescIs | lib/driver.c:171-178 | The length is in the lowest 16 bits of a transmit descriptor's word, the command bits above it, the payload length in the upper half. |
| Driver.Driver.AssignRx | lib/driver.c:77-133 | On return the ring is full or the slots are all in flight, and the NIC has been told about everything it has been given, if it had been before or anything was added; every descriptor added has the address of its slot's buffer, in 32- and 64-bit arithmetic, and 0 otherwise; a legal extension of the run. |
| Driver.Driver.AssignTx | lib/driver.c:135-186 | Hands a slot to the transmit ring, or releases it if the ring is full or the packet too long; the descriptor written has the address of the slot's buffer, the command bits 0x2B300000, the length, and the payload length in the upper half. |
| Driver.Driver.XmitTx | lib/driver.c:188-211 | The NIC has been told about everything in the ring. |
| Driver.Driver.CleanRx | lib/driver.c:213-278 | Collects the oldest packets in order up to the budget, each with the length field of the word the NIC delivered for it, stops early only at an unfinished descriptor, and gives their slots to the caller. |
| Driver.Driver.CleanTx | lib/driver.c:280-318 | Frees exactly the slots of the oldest finished descriptors, in order, up to the budget. |
| Driver.Driver.ReleaseSlot | lib/driver.c:370-375 | A slot in the caller's hands becomes free. |
| Driver.Driver.ForwardTun | src/forward.c:92-120 | Exactly when nothing happens; otherwise the slot the search comes upon ends up last in the transmit ring, or free again if the ring refuses; the caller holds what it held before. |
| Driver.Driver.ForwardBatch | src/forward.c:55-87 | The loop does what `Forwarding.ForwardAll` says, with the addresses of the slots' buffers on the output ports; on the receive side nothing. |
| Buddy.BlocksDisjoint | lib/memory.c:133-140 | Two blocks in use never overlap. |
| Buddy.BlockInside | lib/memory.c:133-140 | Every block lies inside the region. |
| Buddy.RoomMeans | lib/memory.c:125-129 | Room for a request is a free block of at least that size, wherever it lies in the tree. |
| Buddy.AllocWorks | lib/memory.c:112-160 | Allocation fails exactly if no free block is large enough, and then the tree is as it was; the block found has room and is less than twice as large as asked for. |
| Buddy.DescentEnds | lib/memory.c:112-160 | A request for at least one byte is answered within as many nested calls as the region has bytes, and one more. |
| Buddy.ZeroEndsIff | lib/memory.c:125-148 | A request rounded to 0 is answered, with nothing, if and only if there is no free block; otherwise the search passes every depth. |
| Buddy.AllocAddsOne | lib/memory.c:112-160 | The block found was not in use, and no other block changes. |
| Buddy.AllocFirst | lib/memory.c:143-147 | No free block with room starts before the block found. |
| Buddy.AllocInFree | lib/memory.c:131-147 | The block found is the front of a free block with room. |
| Buddy.ReleaseUndoesAlloc | lib/memory.c:112-194 | Giving back a block just allocated restores the identical tree. |
| Buddy.ReleaseMerged | lib/memory.c:172-194 | After giving a block back, no two free halves lie side by side. |
| Buddy.ReleaseRemovesOne | lib/memory.c:172-194 | Giving back a block changes no other block in use. |
| Buddy.NothingInUse | lib/memory.c:172-194 | With nothing in use the region is a single free block. |
| Buddy.EveryRun | lib/memory.c:90-194 | After every run of requests and returns: blocks in use are inside, disjoint and large enough; a request fails exactly if no free block is large enough; everything returned, in any order, leaves one free block. |
| Buddy.PaddedHolds | lib/memory.c:96-99 | Exactly when the rounding in 32 bits leaves room for request and header, and when it gives 0; otherwise the result is the multiple of 64 that is at least 64 and less than 128 above the request. |
| BuddyPaths.ReleaseUp | lib/memory.c:172-194 | Giving back from the bottom up, as the code does it, is giving back from the top down. |
| BuddyHeap.Allocator.constructor | lib/memory.c:56-68 | A new region is one free block. |
| BuddyHeap.Allocator.SetFlag | lib/memory.c:150-151 | Flagging a node changes the tree there and keeps all links right. |
| BuddyHeap.Allocator.Split | lib/memory.c:131-141 | Splitting hangs two fresh free halves under a block, with the right sizes, addresses and links. |
| BuddyHeap.Allocator.AllocBelow | lib/memory.c:143-147 | The halves of a block are searched in turn. |
| BuddyHeap.Allocator.AllocAt | lib/memory.c:112-160 | The search on linked nodes computes `Buddy.Alloc` and returns the node at the path found; links stay right, nodes stay, new ones are fresh. |
| BuddyHeap.Allocator.Join | lib/memory.c:44-54 | Releasing two free halves makes them one block again, all links right. |
| BuddyHeap.Allocator.FreeNode | lib/memory.c:172-194 | Going up through the parents computes `Buddy.Release`. |
| BuddyMemory.OtherHeader | lib/memory.c:104-106 | A change inside one block leaves the headers of all others alone. |
| BuddyMemory.PayloadInside | lib/memory.c:96-106 | In every reachable state the bytes asked for, behind the header, lie inside their block and the region, unless the rounding wrapped. |
| BuddyMemory.PayloadApart | lib/memory.c:96-106 | And apart from every other block in use. |
| BuddyMemory.Pool.MemAlloc | lib/memory.c:90-110 | For every request on which the search ends: returns nothing exactly if no free block has room, with nothing changed; otherwise the address behind the header of a new block; every header in front of a block in use leads to its node. |
| BuddyMemory.Pool.MemFree | lib/memory.c:162-170 | The header read back leads to the node the allocation returned, and exactly that block is given back. |
| BuddyMemory.Pool.ClientWrite | lib/memory.c:104-106 | Whatever a client writes inside its own block, all headers stay intact. |
| Semaphore.FirmwareBits | kmod/ixmap_eeprom.c:47-48 | The firmware's bit of a resource is five places above the driver's, and no resource's own. |
| Semaphore.InvExclusive | kmod/ixmap_eeprom.c:44-93 | The invariant implies that at most one agent is between get and release and that no resource has two owners. |
| Semaphore.MoveKeeps | kmod/ixmap_eeprom.c:577-661 | Every register access of every driver keeps the invariant, unless a poll loop runs out in one of the three ways. |
| Semaphore.FirmwareKeeps | kmod/ixmap_eeprom.c:46-48 | Every step of a firmware that follows the mirrored protocol keeps the invariant. |
| Semaphore.MutualExclusion | kmod/ixmap_eeprom.c:44-93 | For any number of drivers and the firmware, in every run in which no poll loop runs out in one of the three ways: at most one agent inside, no resource with two owners, GSSR showing exactly what is owned, and no semaphore set that nobody holds. |
| Semaphore.AllFree | kmod/ixmap_eeprom.c:651-661 | After such a run, with everyone back, both semaphores are free. |
| SemaphoreExpiry.SmbiExpiry | kmod/ixmap_eeprom.c:598-616 | After giving up on SMBI, two drivers can be inside at once. |
| SemaphoreExpiry.TriesExpiry | kmod/ixmap_eeprom.c:73-75 | After the last try, a resource can have two owners. |
| SemaphoreExpiry.SweExpiry | kmod/ixmap_eeprom.c:81-92 | After giving up on SWESMBI on the way to a release, a driver can be inside together with the firmware. |
| SemaphoreExpiry.TryInVain | kmod/ixmap_eeprom.c:52-75 | A resource that stays taken uses up the 200 tries, and then its bits are cleared, whoever set them. |
| SpiChip.StatusAnswer | kmod/ixmap_eeprom.c:407-416 | After a status command, eight bits give the status byte. |
| SpiChip.ReadAnswer | kmod/ixmap_eeprom.c:310-318 | After opcode and address, sixteen bits give the two bytes there, the first as the high half. |
| Spi.TargetIff | kmod/ixmap_eeprom.c:302-314 | The command reaches the word's own bytes if and only if the word is below 256, with 8 address bits, or below 32768, with 16. |
| Spi.Eeprom.ShiftOut | kmod/ixmap_eeprom.c:470-517 | The chip has seen the low bits of the data, highest first, and nothing else. |
| Spi.Eeprom.ShiftIn | kmod/ixmap_eeprom.c:519-551 | The value is what the chip puts out, bit by bit, with no truncation up to 16 bits. |
| Spi.Eeprom.Standby | kmod/ixmap_eeprom.c:453-468 | The chip has forgotten the last command. |
| Spi.Eeprom.Acquire | kmod/ixmap_eeprom.c:350-393 | Outcome for lock and grant; if refused, request withdrawn and lock given back. |
| Spi.Eeprom.Ready | kmod/ixmap_eeprom.c:395-427 | Succeeds exactly if the chip becomes ready within 1000 polls. |
| Spi.Eeprom.Release | kmod/ixmap_eeprom.c:429-451 | Chip deselected, request and lock gone. |
| Spi.Eeprom.ReadWord | kmod/ixmap_eeprom.c:301-318 | One word: the two bytes at the target of the command, in the right order. |
| Spi.Eeprom.ReadBuffer | kmod/ixmap_eeprom.c:281-326 | Any number of words, each at its target; success exactly if lock, grant and chip allow; request and lock gone on every way out. |
| Spi.Eeprom.ReadBitBang | kmod/ixmap_eeprom.c:263-279 | As above for one word, with the range check. |
| Spi.Eeprom.InitParams | kmod/ixmap_eeprom.c:663-702 | Parameters are set once, from the registers. |
| Spi.SizeFieldLimit | kmod/ixmap_eeprom.c:689-692 | The word count is 64 times two to the size field for size fields below 10, and 0 from there on. |
| Spi.Eeprom.ReadEerdBuffer | kmod/ixmap_eeprom.c:226-261 | Any number of words through EERD; success exactly if in range and done within the polls. |
| Spi.Eeprom.Read | kmod/ixmap_82599.c:538-557 | Whichever way is taken, a read that succeeds gives the stored word, for every offset in range of a chip that matches its size field, so the two ways agree; exactly when it succeeds; request and lock gone on every way out. |
| NvmChecksum.CounterEnds | kmod/ixmap_eeprom.c:730-733 | The 16-bit counter ever passes the end of a section if and only if pointer plus length is below 0xFFFF. |
| NvmChecksum.EndsIff | kmod/ixmap_eeprom.c:722-736 | For every image, whatever of it can be read, the loops end if and only if every section walked ends before the last address, pointer and length being the last ones that could be read. |
| NvmChecksum.AllReadEnds | kmod/ixmap_eeprom.c:722-736 | If all reads succeed and there is no word 0xFFFF, they end. |
| NvmChecksum.OverlongNeverEnds | kmod/ixmap_eeprom.c:730-733 | On a chip of 32768 words with pointer 0x100 and length 0xFF00 they never do. |
| NvmChecksum.Calc | kmod/ixmap_eeprom.c:704-741 | The calculated checksum completes the total to 0xBABA, failed reads leaving the last value read. |
| NvmChecksum.TotalCovers | kmod/ixmap_eeprom.c:713-736 | If all reads succeed, the total is the sum of the covered words, each as often as it is covered. |
| NvmChecksum.Validate | kmod/ixmap_eeprom.c:186-218 | Accepts exactly if the first word can be read and total plus stored checksum is 0xBABA. |
| NvmChecksum.AcceptedIff | kmod/ixmap_eeprom.c:186-218 | If all reads succeed, that is: covered words plus stored checksum sum to 0xBABA modulo 65536. |
| IpChecksum.RightIff | src/forward.c:186-188 | A header's checksum is right exactly if the plain sum is positive and divisible by 65535. |
| IpChecksum.Forward | src/forward.c:181-188 | TTL 1 stays local; otherwise the TTL goes down by one in eight bits, the checksum is updated on either byte order, and every other byte stays as it was. |
| IpChecksum.ForwardedRight | src/forward.c:181-188 | A forwarded header of any length is right again if and only if its TTL was not 0. |
| IpChecksum.IsEquation3 | src/forward.c:186-188 | The new checksum is that of equation 3 in section 3 of RFC 1624, on either byte order. |
| IpChecksum.ExpiredForwarded | src/forward.c:181-188 | A header with TTL 0 and the right checksum BA FF, which is wrong once forwarded. |
| DmaAreas.FoundIff | kmod/ixmap_dma.c:254-255 | The test finds an overlap if and only if the new range does not enclose the listed one. |
| DmaAreas.InsertedOrdered | kmod/ixmap_dma.c:148-166 | Insertion keeps the list in order, and disjoint, if and only if the new range overlaps nothing. |
| DmaAreas.EveryRun | kmod/ixmap_dma.c:148-264 | Over every run without enclosing ranges the list stays sorted and disjoint and holds exactly what a set of ranges holds that refuses overlaps. |
| DmaAreas.WhereIs | kmod/ixmap_dma.c:243-261 | In a list in order the scan finds every overlap that the test can find, and otherwise the right place. |
| DmaAreas.EnclosingAccepted | kmod/ixmap_dma.c:254-255 | With 10 to 11 listed, 5 to 25 is accepted, and the list is not disjoint afterwards. |
| DmaAreas.Adapter.WhereTo | kmod/ixmap_dma.c:228-264 | What the scan gives, for any list and any range; in a list in order, nothing exactly if a listed range is overlapped and not enclosed, and otherwise the place. |
| DmaAreas.Adapter.Map | kmod/ixmap_dma.c:147-186 | Success and new list, for any list and any range; a list in order stays so if and only if no listed range is enclosed. |
| DmaAreas.Adapter.Lookup | kmod/ixmap_dma.c:215-226 | The first area that starts at an address, or nothing exactly if there is none. |
| DmaAreas.Adapter.Unmap | kmod/ixmap_dma.c:189-201 | Takes out the first area that starts there, from any list, or reports that there is none; order is kept. |
| DmaAreas.Adapter.UnmapAll | kmod/ixmap_dma.c:203-213 | The list is empty. |
| PageRuns.OneDivision | kmod/ixmap_dma.c:314-318 | There is one way only to divide pages into maximal contiguous runs. |
| PageRuns.CountChunks | kmod/ixmap_dma.c:314-318 | The first loop counts one more than there are breaks. |
| PageRuns.CounterIff | kmod/ixmap_dma.c:336-338 | The size counter ends up as what is left of the size if and only if no run of pages reaches four gigabytes and the size covers the pages from the offset on. |
| PageRuns.LengthsRight | kmod/ixmap_dma.c:336-337 | Then every chunk is as long as its run. |
| PageRuns.FourGigabytes | kmod/ixmap_dma.c:336-337 | A run of 2^20 pages becomes a chunk of length 0, whatever the size. |
| PageRuns.CallerRight | kmod/ixmap_dma.c:126-127 | With the size the caller computes, that is if and only if there are fewer than 2^20 pages. |
| PageRuns.Merge | kmod/ixmap_dma.c:303-344 | The chunks are the maximal runs, as many as counted, every page once and in order, each starting at the first page of its run, with the lengths of 32- and 64-bit arithmetic; counter right under exactly the condition above, and then the lengths add up to the pages from the offset on. |
| Neighbours.Hash | src/neigh.c:142-157 | The hash of any key is below the table size. |
| Neighbours.HashV4 | src/neigh.c:142-149 | For IPv4 it is the upper half of the lower 32 bits of the key times 0x9e370001. |
| Neighbours.HashV6 | src/neigh.c:151-157 | For IPv6 it is the top 16 of the lower 64 bits of the product of both halves, cut to 64 bits, and 0x9e37fffffffc0001. |
| Neighbours.TakeOut | src/hash.c:78-79 | Without one of its entries, a bucket holds nothing for that key and the same for every other. |
| Neighbours.Table.Add | src/hash.c:32-55 | The first add of a key wins; the table agrees with a finite map, every entry in its own bucket. |
| Neighbours.Table.Delete | src/hash.c:57-85 | Removes exactly this key; fails exactly if it is not there. |
| Neighbours.Table.DeleteAll | src/hash.c:87-103 | Nothing is left in any bucket. |
| Neighbours.Table.Lookup | src/hash.c:105-124 | What the finite map holds. |

## Left out

- Register set-up and reset, the character device, ioctl, probing and interrupts: sequences of
  hardware writes and kernel calls whose meaning is not in the code.
- mmap, NUMA placement, epoll, TAP, netlink, threads and options: input and output. Only the
  initial values of rings and slot ranges are used.
- `lpm_traverse`, the reading of the part number string, printing, counters and accessors: they
  would only add easy members.
- The Python prototype under `extra/`.
- Node memory of the buddy allocator that runs out (`lib/memory.c:138-139`, `156-159`): node
  creation always succeeds in the model. `_ixmap_mem_destroy` is not modelled.
- BuddyMemory.Pool.MemAlloc: not stated for requests that round to 0 while a block is free,
  because the code does not return from them; `Buddy.ZeroEndsIff` proves that.
- Alignment of blocks: halving an arbitrary size loses it, and nothing is claimed.
- The virtual address of a slot (`lib/driver.c:383-387`), which takes its number in 16 bits, and
  the contents of buffers. Error flags of a received frame are only printed.
- Spi.Eeprom.Acquire: the EEPROM lock is a parameter here; how it is obtained is in
  `Semaphore`, which has no data.
- Spi.Eeprom.Read: presupposes a chip that is deselected between reads, as every read leaves
  it.
- Semaphore.MutualExclusion: the firmware is not part of the repository; it is taken to follow
  the mirrored protocol. GSSR and SWSM are sets of bits; bits the protocol does not use are
  left out.
- DmaAreas.Adapter.Map: order and disjointness are claimed for ranges that are not empty and do
  not wrap around; pinning pages and mapping them for the device are left out.
- PageRuns.Merge: at least one page, fewer than 2^32, and an offset inside the first.
- The address family of a neighbour or route message: a table has one family.
- IPv6 forwarding, which has no checksum.
