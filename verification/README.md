# lwIP core, modelled in Dafny

This project models the hard parts of the lwIP stack that the repository builds on, and proves
what they promise: the heap, the Internet checksum, packet buffers, the DNS resolver, the socket
and netconn layers, the raw echo server, and interface numbers. The configuration is that of
`src/lwipopts.h`; sizes are left open where they can be.

| files | what they model |
|---|---|
| `HeapLayout`, `HeapOperations`, `HeapHeaders`, `HeapAllocator` | the first-fit heap: blocks as a value, headers in memory, and the allocator that changes them in place |
| `OnesComplement`, `Checksum`, `ChecksumChain` | the three checksum algorithms, chains of buffers and pseudo headers |
| `PbufStore`, `PbufLinking`, `PbufRealloc`, `PbufPool`, `PbufContents`, `PbufCopyable`, `PbufCopy` | reference-counted chains of packet buffers and their contents |
| `PbufOwned`, `PbufAlloc`, `PbufFailures` | chains of one owner, chains from the pool, and calls that fail their promise |
| `Select`, `SelectEvents`, `Descriptors` | `lwip_select` and the life of a descriptor, as state machines over all interleavings |
| `DnsName`, `DnsTable`, `DnsInvariants`, `DnsMessage`, `DnsProgress`, `DnsTimeout`, `DnsAnswers`, `DnsFailures`, `DnsResolver` | names in messages, the tables as values, what every operation keeps, responses, progress, timeouts, requests and answers from end to end, a run that fails, and the resolver that changes the tables in place |
| `NetconnWrite` | writing several vectors over many attempts |
| `StreamRecv`, `Echo` | reading a stream and the raw echo server, both on top of the packet buffers |
| `Itoa`, `Netif` | numbers as text, interface numbers and names |
| `MachineInts` | the integer types of the C code |

Code that changes things step by step is a class or a method with the loops of the source, proved
to do what a function on values says; the properties are proved about that function. The two
protocols of `sockets.c` are state machines: a step is what the code does under one lock, or one
access outside of all locks, and a run is any interleaving of enabled steps.

## Properties that fail, and exactly when

- `mem_trim` asserts that a cut-off part does not touch the end marker. It does if the trimmed
  block is the last one and the part is large enough for a block: `HeapAllocator.Heap.Trim`,
  `HeapOperations.TrimAssertionCanFail`.
- The partial pseudo-header checksum asserts a remaining length below 0x7fff; whether it holds is
  decided by the first pbuf: `ChecksumChain.PseudoPartialBase`.
- `pbuf_free_header` leaves a stale `tot_len` on a removed pbuf that somebody else holds, exactly
  if there was something behind it: `PbufPool.Pool.FreeHeader`, `PbufFailures.TotalGoesStale`.
- `pbuf_dechain` judges by an 8-bit count: `PbufPool.Pool.Dechain`,
  `PbufFailures.DechainDangles`.
- `pbuf_copy` takes empty pbufs at the end of a chain for a queue; `PbufCopyable.CopiesIff` says
  exactly which chains are copied into which. A source without them can still be refused for the
  target, and one with them can be copied.
- A select can sleep through its event: `alloc_socket` writes `sendevent` outside of protection
  and calls nobody. `Select.AlwaysToldIff` is the exact condition, `Select.WakeupCanBeLost` a run.
  The assertion in `alloc_socket` can fail as well: `Select.AllocAssertionCanFail`.
- With full-duplex sockets a select can leave `select_waiting` raised: `Select.SelectCallBalance`,
  `Select.SelectCanLeak`; and the assertion of `sock_inc_used_locked` fails on a slot released
  after a pending close: `Descriptors.LockedAssertsIff`.
- Names with a label of 192 bytes or more, or with an empty label behind the first, are not read
  back: `DnsName.NameRoundTrip`. An answered DNS entry whose age is a multiple of 256 requests is
  not reused: `DnsProgress.RefusedIff`, `DnsFailures.OldAnswerBlocks`.
- A blocking write of several vectors loops for ever exactly if the room in the send buffer ends a
  multiple of 65536 bytes before the end of a vector that is not the last:
  `NetconnWrite.LoopEndsHere`.
- The search for an interface number never ends exactly if 255 are present: `Netif.SearchEndsIff`.
  `lwip_itoa` gives the empty string for a number that does not fit: `Itoa.ItoaRoundTrip`.

## Model

| member | source | states |
|---|---|---|
| HeapOperations.Rounded | lwip/src/core/mem.c:844-850 | a requested size is rounded up to the alignment and to the minimum, in 16 bits |
| HeapOperations.AllocWellFormed | lwip/src/core/mem.c:886-927 | carving a fitting free block keeps the blocks aligned, end to end over the whole heap, with no two free neighbours |
| HeapOperations.AllocAddsOne | lwip/src/core/mem.c:886-950 | an allocation adds exactly one live block, disjoint from all others: just the bytes and a header if another block can be made of the rest, which is then free, and otherwise the whole free block; the statistic grows by its extent |
| HeapOperations.PlugIsFree | lwip/src/core/mem.c:473-510 | marking a block free and joining it to its right and left free neighbours is what freeing a block means for the layout |
| HeapOperations.FreeWellFormed | lwip/src/core/mem.c:616-686 | freeing a block keeps the heap well formed: free neighbours are joined |
| HeapOperations.FreeRemovesOne | lwip/src/core/mem.c:616-686 | freeing removes exactly that live block and takes its extent off the statistic |
| HeapOperations.TrimWellFormed | lwip/src/core/mem.c:745-815 | trimming keeps the heap well formed in all three branches |
| HeapOperations.TrimShrinksOne | lwip/src/core/mem.c:745-815 | trimming replaces exactly that live block by one at the same place, cut to the new size exactly if a free block follows or one can be made of the rest; the statistic shrinks by what was cut off |
| HeapOperations.StepKeepsWellFormed | lwip/src/core/mem.c:616-976 | malloc, free and trim with any argument keep the heap well formed |
| HeapOperations.RunKeepsWellFormed | lwip/src/core/mem.c:567-607 | every sequence of malloc, free and trim keeps the heap well formed |
| HeapOperations.LiveRegions | lwip/src/core/mem.c:830-976 | live regions are aligned, inside the heap and pairwise disjoint |
| HeapOperations.LayoutDetermined | lwip/src/core/mem.c:550-607 | what is in use determines the whole layout: the free blocks are exactly the gaps |
| HeapOperations.NothingLive | lwip/src/core/mem.c:515-545 | a well-formed heap with nothing in use is one free block over the whole heap, with the lowest free block at 0 and statistic 0 |
| HeapOperations.FreeingAllRestores | lwip/src/core/mem.c:616-686 | freeing all live blocks in any order, even repeatedly, restores the initial heap |
| HeapOperations.TrimAssertionCanFail | lwip/src/core/mem.c:780-790 | the assertion that the cut-off part does not touch the end marker fails in a run of two legal calls |
| HeapHeaders.BlocksLinkValid | lwip/src/core/mem.c:550-564 | in a linked heap every block passes the link check that mem_free makes |
| HeapHeaders.SpliceLinked | lwip/src/core/mem.c:473-510 | replacing neighbouring blocks and rewiring the headers at the seam gives headers that link the new layout: prev inverts next |
| HeapHeaders.NoneBeyond | lwip/src/core/mem.c:867-871 | a search that stops at MEM_SIZE_ALIGNED - size has missed no fitting block |
| HeapHeaders.SkipToLowest | lwip/src/core/mem.c:867-871 | starting at the lowest free block misses no fitting block |
| HeapHeaders.PluggedSamePayload | lwip/src/core/mem.c:473-510 | joining free blocks touches no byte of a live block |
| HeapHeaders.TrimLowest | lwip/src/core/mem.c:745-815 | after a trim the lowest free block is the cut or the one known before |
| HeapAllocator.Heap.constructor | lwip/src/core/mem.c:515-545 | the initial heap is one free block, linked to the end marker |
| HeapAllocator.Heap.PlugHoles | lwip/src/core/mem.c:473-510 | the headers after joining describe the blocks with the freed one merged into its free neighbours; lfree stays the lowest free block |
| HeapAllocator.Heap.Free | lwip/src/core/mem.c:616-686 | all pointers: a block in use is freed as the layout says; null does nothing; anything else is counted as illegal and changes nothing; live data is untouched |
| HeapAllocator.Heap.LiveAccepted | lwip/src/core/mem.c:627-660 | the checks of mem_free accept the pointer of a block exactly if it is in use |
| HeapAllocator.Heap.Malloc | lwip/src/core/mem.c:830-976 | complete first fit: null exactly if the size is 0 or too large or no free block has room, otherwise data in the lowest block with room, of which no more is taken than has to be; nothing else comes into use; headers, lfree, statistic and live data stay right |
| HeapAllocator.Heap.Trim | lwip/src/core/mem.c:698-820 | the live block is cut exactly when bytes can be given back, what is returned, the illegal counter, and exactly when all assertions hold |
| OnesComplement.OnesSumIsNorm | lwip/src/core/inet_chksum.c:79-114 | the one's-complement sum of RFC 1071 is the plain sum reduced modulo 65535 with 0 only for zero data |
| OnesComplement.SwapIsShift | lwip/src/core/inet_chksum.c:274-277 | swapping the bytes of a folded sum multiplies the sum by 256 modulo 65535 |
| OnesComplement.WordSumShift | lwip/src/core/inet_chksum.c:132-173 | a leading zero byte multiplies the sum of any data by 256 modulo 65535 |
| OnesComplement.WordSumConcat | lwip/src/core/inet_chksum.c:259-294 | the sum of a concatenation, for an even and for an odd first part |
| OnesComplement.OrderOnlySwaps | lwip/src/core/inet_chksum.c:110-113 | the sum in the other byte order is the same sum with its bytes swapped |
| Checksum.Standard1 | lwip/src/core/inet_chksum.c:79-114 | version 1 is the one's-complement sum, for every byte string up to 0x20000 bytes |
| Checksum.Standard2 | lwip/src/core/inet_chksum.c:132-173 | version 2 is the same sum, from every start address, up to 0x20000 bytes without overflow of 32 bits |
| Checksum.Standard3 | lwip/src/core/inet_chksum.c:188-255 | version 3 is the same sum, from every start address and for every length |
| ChecksumChain.LimitNeeded | lwip/src/core/inet_chksum.c:132-173 | beyond 0x20000 bytes a 32-bit sum without end-around carry goes wrong: 0x20004 bytes of 255 |
| ChecksumChain.InetChksum | lwip/src/core/inet_chksum.c:554-558 | the checksum is the complement of the sum |
| ChecksumChain.AddSegment | lwip/src/core/inet_chksum.c:266-281 | one round of a chain loop keeps the accumulator, swapped back if need be, equal to the sum so far |
| ChecksumChain.InetChksumPbuf | lwip/src/core/inet_chksum.c:567-588 | for every way to cut data into pbufs, odd and empty ones included, the checksum of the data in one piece |
| ChecksumChain.PseudoBase | lwip/src/core/inet_chksum.c:259-294 | the same with a pseudo header in front |
| ChecksumChain.PseudoPartialBase | lwip/src/core/inet_chksum.c:398-440 | the same over the first chksum_len payload bytes; its assertion holds exactly as the length of the first pbuf decides |
| ChecksumChain.InetChksumPseudo | lwip/src/core/inet_chksum.c:309-327 | the checksum over the IPv4 pseudo header and the payload |
| ChecksumChain.Ip6ChksumPseudo | lwip/src/core/inet_chksum.c:342-363 | the checksum over the IPv6 pseudo header and the payload |
| ChecksumChain.StoredChecksumVerifies | lwip/src/core/inet_chksum.c:554-588 | a checksum stored in a zeroed field at an even offset makes the checksum 0 |
| PbufPool.Pool.Alloc | lwip/src/core/pbuf.c:272-295 | a new pbuf in one piece is a chain of its own with one reference |
| PbufAlloc.AllocPool | lwip/src/core/pbuf.c:235-271 | a chain for all the bytes, cut to the room of the pool buffers, with right totals and one reference each, exactly if the pool has enough of them; otherwise what was taken is given back and nothing has changed |
| PbufAlloc.NeededIs | lwip/src/core/pbuf.c:253-270 | that number of buffers is the least with room for all the bytes, and one at least |
| PbufPool.Pool.Free | lwip/src/core/pbuf.c:724-800 | exactly the longest prefix of the chain whose counts come to 0 is deallocated, the next pbuf loses one reference, and counts still equal links plus held references; no pbuf links to a freed one |
| PbufPool.Pool.Ref | lwip/src/core/pbuf.c:828-836 | one more reference, accounted to the caller |
| PbufPool.Pool.Cat | lwip/src/core/pbuf.c:852-875 | contents are concatenated, totals stay suffix sums, the caller's reference to the tail becomes the link |
| PbufPool.Pool.Chain | lwip/src/core/pbuf.c:894-901 | like Cat, and the caller keeps a reference |
| PbufPool.Pool.Dechain | lwip/src/core/pbuf.c:911-940 | the head is cut off and the rest loses the link's reference; the returned pointer is dangling exactly if a positive multiple of 256 pbufs was freed |
| PbufFailures.DechainOwned | lwip/src/core/pbuf.c:911-940 | of a chain that belongs to one caller all pbufs behind the head are freed, and a pointer comes back all the same exactly if their number is a positive multiple of 256 |
| PbufFailures.DechainDangles | lwip/src/core/pbuf.c:911-940 | a chain of 257 pbufs, built by allocating and concatenating, whose dechaining returns a dangling pointer |
| PbufPool.Pool.RemoveHeader | lwip/src/core/pbuf.c:581-613 | hides bytes at the front, refused exactly if the first pbuf has fewer |
| PbufPool.Pool.FreeHeader | lwip/src/core/pbuf.c:670-688 | the contents left are the suffix; the pbufs wholly within the removed bytes lose a reference and nothing else changes; totals stay right exactly if each of them that others hold had nothing behind it |
| PbufLinking.WholePbufsIs | lwip/src/core/pbuf.c:674-682 | which pbufs lie wholly within the removed bytes, by the lengths alone |
| PbufFailures.TotalGoesStale | lwip/src/core/pbuf.c:670-688 | a chain of two pbufs whose head is held twice: removing one byte leaves that head alone with the total of both |
| PbufPool.Pool.Realloc | lwip/src/core/pbuf.c:401-459 | the contents left are the prefix, totals and counts stay right, pbufs behind the cut lose the link's reference |
| PbufStore.TotalIsLength | lwip/src/core/pbuf.c:852-875 | with suffix sums, tot_len is the length of the contents in 16 bits |
| PbufContents.CopyPartial | lwip/src/core/pbuf.c:1026-1057 | copies a slice of the flat contents, for every segmentation |
| PbufContents.Skip | lwip/src/core/pbuf.c:1151-1182 | finds the pbuf and the place of a byte, null exactly beyond the end |
| PbufContents.TryGetAt | lwip/src/core/pbuf.c:1388-1399 | the byte of the flat contents, or -1 beyond the end |
| PbufContents.Memcmp | lwip/src/core/pbuf.c:1433-1461 | 0 exactly if the bytes are there, otherwise the first difference, 0xffff beyond the end |
| PbufContents.Memfind | lwip/src/core/pbuf.c:1475-1489 | the least match from the start offset on within tot_len, which is the length of the contents modulo 65536; 0xffff if there is none |
| PbufContents.Take | lwip/src/core/pbuf.c:1195-1226 | overwrites the front of the flat contents, refused exactly if too long |
| PbufContents.TakeAt | lwip/src/core/pbuf.c:1239-1262 | overwrites the flat contents from an offset on, refused exactly if it does not fit or the offset is at the end |
| PbufContents.PutAt | lwip/src/core/pbuf.c:1410-1420 | one byte of the flat contents, ignored beyond the end |
| PbufContents.TakeThenCopy | lwip/src/core/pbuf.c:1026-1262 | what was taken is read back, all other bytes are as before |
| PbufCopy.Copy | lwip/src/core/pbuf.c:960-1012 | between any segmentations: ERR_OK exactly for pairs of chains that fit and whose lengths satisfy the condition of CopiesIff; then the source is copied over the front of the target, and no other byte, link or count changes |
| PbufCopyable.CopiesIff | lwip/src/core/pbuf.c:960-1012 | for every pair of chains that fits, by their lengths alone: the copy succeeds exactly if the source has no empty pbuf at its end, or is one pbuf and an empty one and fits the first pbuf of the target without filling the whole target; and if the target has empty pbufs at its end, the copy ends before the last nonempty one, or the target is one pbuf and an empty one and the first source pbuf fills it |
| PbufCopyable.CopyExamples | lwip/src/core/pbuf.c:960-1012 | chains that fit and are refused for the source or for the target, and ones with empty pbufs that are copied |
| Select.InitialInv | lwip/src/api/sockets.c:500-538 | the invariant holds at the start and no wake-up is lost |
| Select.StepKeepsWaiting | lwip/src/api/sockets.c:2037-2121 | every step keeps select_waiting equal to the number of threads that count the socket plus what leaked |
| Select.StepKeepsList | lwip/src/api/sockets.c:1770-1816 | every step keeps the list equal to the threads between link and unlink, and a walk inside it |
| Select.UpdateTells | lwip/src/api/sockets.c:2516-2556 | a change of the event counters that makes a watched socket ready starts a walk that will meet every thread relying on it |
| Select.ScanTells | lwip/src/api/sockets.c:1849-1891 | a thread relies on a socket only if its second scan found it not ready |
| Select.StepKeepsInv | lwip/src/api/sockets.c:1963-2166 | every step of every thread, of the callback and of alloc_socket, whose accesses outside protection are steps of their own, keeps the invariant |
| Select.RunKeepsInv | lwip/src/api/sockets.c:1963-2166 | so does every interleaving |
| Select.StepTells | lwip/src/api/sockets.c:523-531 | a step loses a wake-up exactly if alloc_socket marks writable a socket that a thread relies on for writing and nobody is about to tell that thread |
| Select.AlwaysToldIff | lwip/src/api/sockets.c:500-538 | an interleaving loses no wake-up exactly if no step of it is of that kind |
| Select.NoLostWakeup | lwip/src/api/sockets.c:2071-2095 | in every such interleaving: a thread asleep although something it watches has happened has its semaphore signalled once no callback is under way |
| Select.WalkWillReach | lwip/src/api/sockets.c:2575-2648 | while a callback is under way, such a thread is still ahead of its walk, with all events that are true |
| Select.WalkEnds | lwip/src/api/sockets.c:2592-2631 | a walk can always go on, its steps bring it nearer to its end and no other step touches it |
| Select.DecNeverUnderflows | lwip/src/api/sockets.c:2106-2111 | the assertion where select_waiting is lowered holds |
| Select.AllocAssertion | lwip/src/api/sockets.c:525-527 | the assertion on select_waiting in alloc_socket holds exactly if no thread counts the socket and nothing leaked |
| Select.WakeupCanBeLost | lwip/src/api/sockets.c:523-531 | in the configured build a thread selects on a descriptor while alloc_socket initialises it, and sleeps on though it is writable; the assertion has held |
| Select.AllocAssertionCanFail | lwip/src/api/sockets.c:525-527 | in the configured build a descriptor is closed under a select and allocated again: the assertion fails |
| Select.SelectCallBalance | lwip/src/api/sockets.c:2037-2121 | over a whole call, among any other steps: the increments it made are those it took back and those it left behind, one for each socket whose close was pending when its counter was due |
| Select.LowersByOne | lwip/src/api/sockets.c:2097-2121 | a step that is due to lower a counter lowers it by one exactly if no close is pending |
| Select.NoLeakWithoutFullDuplex | lwip/src/api/sockets.c:2097-2121 | without full-duplex sockets nothing leaks in any interleaving |
| Select.SelectLeavesNothing | lwip/src/api/sockets.c:2037-2121 | in the configured build every select takes back exactly what it added |
| Select.SelectCanLeak | lwip/src/api/sockets.c:2097-2121 | with full-duplex sockets a close during a select leaves select_waiting raised with no thread in select |
| SelectEvents.CountersTell | lwip/src/api/sockets.c:2514-2545 | over any run: rcvevent is the number of messages received less those taken since alloc_socket last wrote it, in 16 bits; sendevent is what was last said; errevent tells whether there was an error |
| SelectEvents.EventStartsWalk | lwip/src/api/sockets.c:2516-2556 | a callback that makes an event true starts a walk that has every thread asleep for it before it |
| SelectEvents.SleeperIsTold | lwip/src/api/sockets.c:2516-2648 | in every interleaving: once that callback has ended, a thread still asleep has been signalled and can wake up |
| SelectEvents.SignalHasReason | lwip/src/api/sockets.c:2592-2631 | a thread is signalled only by a walk that comes to it with an event that it waits for |
| SelectEvents.WalkHasReason | lwip/src/api/sockets.c:2547-2556 | a walk starts only from a callback, over the whole list, with the events that are true of the socket then |
| SelectEvents.WalkStartsIff | lwip/src/api/sockets.c:2518-2547 | exactly when it starts |
| SelectEvents.ScanNotes | lwip/src/api/sockets.c:1849-1891 | the second scan notes a socket exactly if an event waited for is true or data is left from the last read, and a thread that has noted one does not sleep |
| SelectEvents.StepSocket | lwip/src/api/sockets.c:500-611 | a descriptor is open from claim to close, its close is pending from a deferred close to the next claim, and left-over data is what the last read says |
| SelectEvents.SetsStay | lwip/src/api/sockets.c:1963-2036 | a select watches what it was asked to from its entry on |
| Descriptors.StepKeepsCounted | lwip/src/api/sockets.c:334-401 | fd_used is the number of uses |
| Descriptors.KeepsConn | lwip/src/api/sockets.c:428-470 | no other thread takes the netconn of a descriptor away from a use |
| Descriptors.StepKeepsInv | lwip/src/api/sockets.c:334-611 | every step keeps the whole invariant |
| Descriptors.RunKeepsInv | lwip/src/api/sockets.c:334-611 | so does every interleaving |
| Descriptors.ReleasedOnce | lwip/src/api/sockets.c:547-611 | in every interleaving a netconn is released at most once, exactly when it was closed and its uses have ended; until then the close is pending and a use is open |
| Descriptors.OnlyLastUserReleases | lwip/src/api/sockets.c:376-401 | the step that releases is the done or close of the last use |
| Descriptors.AllocTakesUnheld | lwip/src/api/sockets.c:500-538 | alloc_socket takes only slots that nobody holds, and its caller is then the only user |
| Descriptors.TryTakes | lwip/src/api/sockets.c:507-533 | a round of its search takes the slot exactly if that is free, and the search ends without one only behind the last |
| Descriptors.AllocFinds | lwip/src/api/sockets.c:507-537 | in every interleaving the search does not fail as long as a slot stays free during it |
| Descriptors.CallsAchieve | lwip/src/api/sockets.c:334-611 | a get opens a use exactly if no close is pending, a look gives it the netconn exactly if there is one, and exactly a close adds its netconn to those closed |
| Descriptors.UseIsCounted | lwip/src/api/sockets.c:376-401 | the assertions on fd_used in done_socket and free_socket_locked hold for every use |
| Descriptors.LockedAssertsIff | lwip/src/api/sockets.c:356-369 | the assertion in sock_inc_used_locked fails exactly on a slot released after a pending close and not allocated since |
| Descriptors.LockedAssertionCanFail | lwip/src/api/sockets.c:356-369 | an interleaving of two threads that ends in such a slot |
| DnsName.WireIsEncoded | lwip/src/core/dns.c:791-809 | the bytes written label by label are the encoding of the labels in RFC 1035, section 3.1 |
| DnsName.WireLength | lwip/src/core/dns.c:777-778 | the encoding of every name takes two bytes more than the name: the allocated buffer is filled exactly |
| DnsName.PutName | lwip/src/core/dns.c:793-809 | the conversion loop writes the encoding |
| DnsName.BuildQuery | lwip/src/core/dns.c:777-818 | the query is header, encoded name and question, and nothing else |
| DnsMessage.QueryHolds | lwip/src/core/dns.c:781-818 | read back it has the id, recursion desired, one question and no records, the name in labels, type A or AAAA, class IN |
| DnsName.CompareName | lwip/src/core/dns.c:650-698 | the loop answers what the specification on the message says |
| DnsName.SkipName | lwip/src/core/dns.c:707-739 | the loop answers what the specification on the message says |
| DnsName.CompareWire | lwip/src/core/dns.c:650-698 | comparison from any label on ends behind the encoded name exactly for readable names |
| DnsName.SkipWire | lwip/src/core/dns.c:707-739 | skipping from any label on ends behind the encoded name exactly for readable names |
| DnsName.NameRoundTrip | lwip/src/core/dns.c:650-739 | the encoding of a name in any letter case is matched and skipped to its end exactly if no label has 192 bytes or more and none but the first is empty |
| DnsName.LegalNamesAreReadable | lwip/src/core/dns.c:650-739 | all names with labels of 1 to 63 bytes are such names |
| DnsName.TrailingDotDoesNotReturn | lwip/src/core/dns.c:793-809 | a name with a dot at the end is not |
| DnsName.CompareEnds | lwip/src/core/dns.c:650-698 | a match ends behind a zero byte inside the message |
| DnsTable.Oldest | lwip/src/core/dns.c:1414-1431 | the oldest answered entry, the first of several; entries whose age is 0 modulo 256 are passed over |
| DnsTable.Pick | lwip/src/core/dns.c:1414-1444 | a new question gets the first unused entry, or else the answered one of the greatest age, the first of several; none exactly if there is no unused entry and all answered ones have age 0 |
| DnsTable.AllocPcbIs | lwip/src/core/dns.c:899-930 | the first closed source port is opened if it can be bound; otherwise the open one that comes first behind the last one taken, round the end; none exactly if none is open |
| DnsInvariants.SettleKeeps | lwip/src/core/dns.c:941-996 | calling back closes the source port exactly if no other outstanding entry uses it, and leaves no request pointing to the entry |
| DnsInvariants.CheckAskingKeeps | lwip/src/core/dns.c:1070-1102 | a tick of an outstanding entry keeps the tables consistent through retry, change of server and timeout |
| DnsInvariants.CheckEntryKeeps | lwip/src/core/dns.c:1046-1118 | so does dns_check_entry in every state |
| DnsInvariants.ReceivedKeeps | lwip/src/core/dns.c:1248-1354 | so does every reply: failure with and without backup server, answer, no answer with and without the other address family |
| DnsInvariants.EnqueueKeeps | lwip/src/core/dns.c:1374-1503 | so does every request |
| DnsMessage.ScanAnswers | lwip/src/core/dns.c:1268-1331 | the loop over the answers reads what the specification on the message says |
| DnsMessage.ReadReply | lwip/src/core/dns.c:1198-1331 | so does the whole check of a response |
| DnsMessage.AnswersRead | lwip/src/core/dns.c:1268-1331 | in a section of well-formed records the first address of the wanted family is found, whatever stands before it |
| DnsMessage.ResponseRead | lwip/src/core/dns.c:1169-1331 | a response to the question that was sent gives that address, or says that there is none, or that the request failed |
| DnsProgress.ServedCount | lwip/src/core/dns.c:961-968 | calling back moves callbacks from the requests to the calls made, one for one |
| DnsProgress.CheckAskingAdvances | lwip/src/core/dns.c:1070-1102 | a tick brings an outstanding entry at least one step nearer to its end or calls all its callbacks |
| DnsProgress.ReceivedAdvances | lwip/src/core/dns.c:1248-1354 | no reply puts off the end of an entry |
| DnsProgress.EnqueueTally | lwip/src/core/dns.c:1374-1503 | a request adds its callback once if it is accepted and not at all if it is turned away |
| DnsProgress.StepTally | lwip/src/core/dns.c:941-1503 | every step keeps the number of places where a callback waits or was called, plus one if it accepts it |
| DnsProgress.RunKeepsInv | lwip/src/core/dns.c:941-1503 | every sequence of requests, messages, ticks and server changes keeps the tables consistent |
| DnsProgress.ReachableState | lwip/src/core/dns.c:899-1118 | in every reachable state outstanding entries have distinct transaction ids, a source port is open exactly while an outstanding entry uses it, and callbacks wait only for outstanding entries |
| DnsProgress.WaitsAtMost | lwip/src/core/dns.c:1046-1118 | everybody who waits is called back within 14 ticks for every server, whatever else happens: who waits then was accepted in the meantime |
| DnsProgress.WaitingOrCalled | lwip/src/core/dns.c:941-1503 | in every run, waiting and made calls of a callback together are its accepted requests |
| DnsProgress.CalledExactlyOnce | lwip/src/core/dns.c:941-1503 | for every callback, accepted any number of times: each request is called back exactly once within that time |
| DnsTimeout.CallsCarry | lwip/src/core/dns.c:961-968 | every callback that waits for the entry is called with the name and the answer, and nobody else is |
| DnsTimeout.AnswerDelivered | lwip/src/core/dns.c:1136-1354 | an address that was found goes to all who wait and stays for its time to live, at most the maximum, with the type of the address; otherwise they are told at once exactly if no server is left to be asked, and if one is, the entry goes on for exactly its servers' time |
| DnsTimeout.NextQuestion | lwip/src/core/dns.c:1248-1354 | after a failure the same is asked of the next server; after an answer without an address the other address family, as the last, is asked of the first |
| DnsTimeout.SecondFamily | lwip/src/core/dns.c:1333-1354 | an answer without an address makes an entry that began with both families ask for the second one exactly if there is a server, and ends every other entry |
| DnsTimeout.FamiliesInTurn | lwip/src/core/dns.c:1333-1347 | over any run: as long as an entry is outstanding it asks for the family it began with, or else for the other one as the last |
| DnsTimeout.GivenUpAfterBoth | lwip/src/core/dns.c:1333-1354 | an entry that may ask for both families is given up on an answer without an address only when the other family has been asked for, unless the first server has gone |
| DnsAnswers.JoinsQuestion | lwip/src/core/dns.c:1386-1411 | a request for what an outstanding entry asks waits for the first such entry |
| DnsAnswers.AsksQuestion | lwip/src/core/dns.c:1414-1503 | a new question takes the picked entry, the first free request slot and a port, and asks the first server for the name and the type with the id drawn; without a server who asked is told at once |
| DnsAnswers.OnlyAnswersCount | lwip/src/core/dns.c:1198-1262 | a message changes something only if it is a response from the server asked, with one question, for the name, type and class that were asked |
| DnsAnswers.StrangerIgnored | lwip/src/core/dns.c:1169-1197 | a message whose id no outstanding entry has changes nothing |
| DnsAnswers.ResponseReaches | lwip/src/core/dns.c:1169-1354 | the response to the question of an outstanding entry gives those who wait the first address of the family asked for |
| DnsAnswers.AnswerLasts | lwip/src/core/dns.c:1104-1114 | over any run: an answer is kept for its time to live in ticks, unless its entry is given to another question |
| DnsAnswers.AnswerExpires | lwip/src/core/dns.c:1104-1114 | with the last of these ticks the entry is free |
| DnsTimeout.CheckAskingTime | lwip/src/core/dns.c:1070-1102 | a tick brings the end of an outstanding entry nearer by exactly one, and gives it up at the last |
| DnsTimeout.TimeoutComes | lwip/src/core/dns.c:1046-1118 | without a message for it an entry is outstanding for exactly the ticks of its tries and of the servers behind, seven each, whatever else is asked and answered |
| DnsTimeout.TimeoutTells | lwip/src/core/dns.c:1070-1102 | with the last of these ticks everybody who waits for it is told that there is no address |
| DnsProgress.RefusedIff | lwip/src/core/dns.c:1386-1487 | exactly when a request is turned away |
| DnsFailures.OldAnswerBlocks | lwip/src/core/dns.c:1414-1444 | a run of 256 accepted requests after which a request is turned away though an entry holds only an old answer, whose age is 0 again |
| DnsResolver.CounterEnds | lwip/src/core/dns.c:999-1018 | the counting generator draws a free id within as many draws as there are entries |
| DnsResolver.CounterFair | lwip/src/core/dns.c:999-1018 | from any start it gets past any smaller number of ids in use |
| DnsResolver.CountingDraws | lwip/src/core/dns.c:999-1018 | so dns_create_txid takes at most that many draws |
| DnsResolver.Resolver.constructor | lwip/src/core/dns.c:293-301 | the tables after start-up |
| DnsResolver.Resolver.CallFound | lwip/src/core/dns.c:941-996 | the loops do to the tables what calling back means |
| DnsResolver.Resolver.CreateTxid | lwip/src/core/dns.c:999-1018 | the first draw that no outstanding entry uses |
| DnsResolver.Resolver.AllocPcb | lwip/src/core/dns.c:899-930 | the loops pick the source port that the specification says |
| DnsResolver.Resolver.CheckEntry | lwip/src/core/dns.c:1046-1118 | the state machine of one entry |
| DnsResolver.Resolver.Tmr | lwip/src/core/dns.c:394-399 | one tick for every entry in turn; the tables stay consistent |
| DnsResolver.Resolver.CorrectResponse | lwip/src/core/dns.c:1136-1164 | an answer is kept for its time to live, cut to the maximum, and given to all who wait |
| DnsResolver.Resolver.Recv | lwip/src/core/dns.c:1169-1363 | a message goes to the first outstanding entry with its id; the tables stay consistent |
| DnsResolver.Resolver.Enqueue | lwip/src/core/dns.c:1374-1503 | duplicate, new or refused request; the tables stay consistent |
| DnsResolver.Resolver.SetServer | lwip/src/core/dns.c:360-370 | servers may change at any time |
| NetconnWrite.TakenIsNext | lwip/src/api/api_msg.c:1677-1725 | the bytes that a round hands to tcp_write come next in the concatenated vectors |
| NetconnWrite.RoundProgress | lwip/src/api/api_msg.c:1701-1726 | a round that wants another one has made progress, unless it is stuck: then the next one is the same again; where the room ends stays |
| NetconnWrite.LoopEndsHere | lwip/src/api/api_msg.c:1676-1726 | from every place and with every room: the loop of a blocking write ends exactly if the room does not end a multiple of 65536 bytes before the end of a vector that is not the last |
| NetconnWrite.LoopEndsIff | lwip/src/api/api_msg.c:1676-1726 | it ends from every place and with every room exactly if no vector but the last is longer than 65535 bytes |
| NetconnWrite.Netconn.Round | lwip/src/api/api_msg.c:1677-1726 | one round keeps what was handed over a prefix of the vectors |
| NetconnWrite.Netconn.WriteMore | lwip/src/api/api_msg.c:1639-1803 | what was handed over is the prefix of length offset. An attempt asks tcp_write at least once unless it does not block and there is no room; if all is accepted, all that fits is handed over, and the write ends exactly if that is everything or it does not block; it goes on only without room or memory, with bytes left as the next entry asserts, and ends with the error that says why |
| NetconnWrite.Netconn.DoWrite | lwip/src/api/api_msg.c:1812-1858 | a new write starts at the first byte of the first vector and hands over all that fits, and is refused while another one is going on |
| NetconnWrite.Netconn.Resume | lwip/src/api/api_msg.c:356-422 | sent and poll callbacks go on where the write stopped: with the new room, all that fits is handed over |
| NetconnWrite.TotalLength | lwip/src/api/api_lib.c:1020-1028 | the length of the write is that of all vectors |
| StreamRecv.Socket.Post | lwip/src/api/api_msg.c:292-343 | a chain goes to the mailbox, or is refused, or is credited and freed without one |
| StreamRecv.Socket.Fetch | lwip/src/api/api_lib.c:578-673 | the chain at the front of the mailbox becomes the current one; an empty mailbox gives the pending error, or else would-block or timeout; nothing else of the stream moves |
| StreamRecv.Socket.Drain | lwip/src/api/api_msg.c:826-859 | shutting down frees every chain in the mailbox |
| StreamRecv.Socket.Consume | lwip/src/api/sockets.c:992-1006 | what is left of a chain after a read stays current and owned; a chain read to its end is freed; the other chains are untouched |
| StreamRecv.Socket.RecvData | lwip/src/api/api_lib.c:702-769 | a chain at the front of the mailbox is fetched; otherwise the error is the one that the first message, the pending error or the empty mailbox gives; the end of the stream is put off if the caller cannot handle it now |
| StreamRecv.Socket.DoRecv | lwip/src/api/api_msg.c:1588-1605 | the window credit is given in 16-bit pieces that sum to the length |
| StreamRecv.Socket.ReadLoop | lwip/src/api/sockets.c:933-1010 | the loop collects as much as is asked for of the last chain and the chains at the front of the mailbox, a peek of the first chain only; with nothing there the error is the reason why |
| StreamRecv.Socket.Recv | lwip/src/api/sockets.c:919-1018 | returned, left over and queued data make up the posted stream until shutdown. If there is something to read, it returns as much of it as is asked for and credits exactly that, a peek without taking or crediting it; otherwise 0 exactly if the stream has ended, and -1 |
| PbufOwned.OtherHead | lwip/src/core/pbuf.c:670-800 | work on one owned chain leaves another owner with the same chain, references and contents |
| PbufOwned.ChopEffect | lwip-contrib/apps/tcpecho_raw/tcpecho_raw.c:114-121 | taking a reference to the second pbuf and freeing the first removes the first and leaves the second with one reference |
| Echo.Connection.constructor | lwip-contrib/apps/tcpecho_raw/tcpecho_raw.c:249-282 | a new connection has nothing to echo |
| Echo.Connection.EchoOne | lwip-contrib/apps/tcpecho_raw/tcpecho_raw.c:106-123 | one pbuf is handed over, credited and chopped off; what is left is still owned with single references |
| Echo.Connection.Send | lwip-contrib/apps/tcpecho_raw/tcpecho_raw.c:97-131 | exactly a prefix of the chain is handed over and freed; it stops only at the end of the chain, at a refusal, or at a pbuf longer than the room |
| Echo.Connection.Close | lwip-contrib/apps/tcpecho_raw/tcpecho_raw.c:83-95 | at an orderly close everything accepted was written and credited |
| Echo.Connection.Error | lwip-contrib/apps/tcpecho_raw/tcpecho_raw.c:133-143 | an error frees the whole chain |
| Echo.Connection.Resume | lwip-contrib/apps/tcpecho_raw/tcpecho_raw.c:145-192 | sent and poll hand over as much as goes; they close exactly if nothing is left and the remote side has closed |
| Echo.Connection.Recv | lwip-contrib/apps/tcpecho_raw/tcpecho_raw.c:194-247 | written data and the chain make up the data accepted before closing, in order; new data is handed over as far as goes, or appended to what is left; data after the close is freed and not echoed |
| Itoa.Itoa | lwip/src/core/def.c:198-239 | the buffer holds the decimal notation if that fits, otherwise the empty string |
| Itoa.AtoiOfNotation | lwip/src/core/def.c:198-239 | reading the notation of a number gives the number |
| Itoa.ItoaRoundTrip | lwip/src/core/def.c:198-239 | reading the buffer gives the number exactly if it fits or is zero |
| Netif.SearchCloser | lwip/src/core/netif.c:386-403 | a number in use brings the search nearer to every free number, round the end |
| Netif.FreeNumberIff | lwip/src/core/netif.c:380-403 | some number is free exactly if there are fewer than 255 interfaces |
| Netif.SearchEndsIff | lwip/src/core/netif.c:380-403 | the search for a number ends exactly if there are fewer than 255 interfaces |
| Netif.Stack.ChooseNumber | lwip/src/core/netif.c:380-403 | the first free number from netif_num on, round the end |
| Netif.Stack.Add | lwip/src/core/netif.c:380-414 | numbers and interfaces stay unique; the number is the first free one from netif_num on, and the next search starts behind it |
| Netif.Stack.Remove | lwip/src/core/netif.c:787-804 | exactly that interface is unlinked, an unknown one changes nothing |
| Netif.GetByIndex | lwip/src/core/netif.c:1675-1691 | the interface with that index |
| Netif.IndexToName | lwip/src/core/netif.c:1655-1667 | the name of the interface with that index, if there is one |
| Netif.Find | lwip/src/core/netif.c:1700-1724 | the first interface of that name |
| Netif.NameRoundTrip | lwip/src/core/netif.c:1655-1724 | the name written for an interface is the name of that interface only |

## Left out

- Heap: headers are records at offsets, not bytes, so that a caller that overwrites a header is outside the model; `mem_calloc`, the overflow checks and the other allocators of `mem.c` are not modelled.
- HeapAllocator.Heap.Free: requires that a header which passes all checks is that of a block, because forged headers in payload are outside the model.
- HeapAllocator.Heap.Trim: requires a pointer into the heap to be that of a block in use, as the source demands of its callers; a failed assertion is ignored, as in a build without assertions.
- Checksum: `lwip_chksum_copy` and the assembly variants are not modelled; unrolled loops and pointer alignment are modelled by the address of the data.
- PbufPool.Pool.Alloc: `PBUF_RAM` in one piece; the size check before `mem_malloc` and the payload alignment are not modelled.
- PbufPool.Pool.Realloc: the link is removed before, not after, its target is freed, which nothing in between can see; the call of `mem_trim` that gives memory back is not modelled, because it changes no contents.
- Pbufs: custom free functions, `pbuf_add_header`, `pbuf_coalesce`, `pbuf_clone`, `pbuf_split_64k` and the string functions are not modelled.
- Select: the first scan before linking and the last one after waking up only compute the sets that are returned; `lwip_poll` and the build without core locking are not modelled; a failed assertion of `alloc_socket` is recorded and ignored, as in a build without assertions.
- Descriptors: at most 255 uses of a descriptor at a time, which the source asserts.
- DnsResolver.Resolver.CreateTxid: requires that the generator gets past the ids in use, which the counting generator does (`DnsResolver.CounterFair`); for `LWIP_RAND` it is an assumption.
- DnsResolver.Resolver.AllocPcb: the loop that draws random ports until one can be bound is a parameter that says whether it succeeds.
- DNS: `dns_gethostbyname` with its cache look-up, the local host list, multicast queries and callbacks that call the resolver again are not modelled.
- DnsName.CompareName: no converse is claimed, because a message with zero bytes inside a label can match memory behind the name.
- NetconnWrite.Netconn.DoWrite: vectors of more than `SSIZE_MAX` bytes in all, send timeouts and the flags given to `tcp_write` are not modelled; a blocking write that would loop for ever by `NetconnWrite.LoopEndsHere` is covered only if `tcp_write` refuses at some time.
- NetconnWrite.Netconn.Resume: the events for select and the resumption of a close are not modelled.
- StreamRecv.Socket.Recv: reads of more than `SSIZE_MAX` bytes are not modelled; a blocking fetch from an empty mailbox is one that times out, and what is posted during a call counts as posted before it.
- Echo.Connection.Recv: requires that nobody else refers to the pbufs that come in, as TCP hands them over.
- Echo: retries, priorities and the listening socket are not modelled.
- Itoa.Itoa: integers are unbounded, so that the least `int`, whose negation overflows, is not modelled.
- Netif.Stack.Remove: taking the interface down, removing its addresses and its callbacks before the unlink are not modelled.
- Netif.Stack.Add: addresses, flags and callbacks of an interface are not modelled; numbers and names do not depend on them.
- Adapters, drivers, `memp`, `altcp`, `netifapi`, socket options, `getaddrinfo`, statistics and start-up code are not modelled.
