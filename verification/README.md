# A verified model of the kernel's memory, device rings, codecs and caches

The project models the parts of the kernel whose correctness is a matter of integers and pointers, and
proves what the rest of the kernel relies on.

- **Heap** (`HeapBlocks`, `KernelHeap`, `HeapBytes`, `Bytes`). `HeapBlocks` describes the heap as a list of blocks with a
  cursor. `KernelHeap.Heap12M` is the heap as it lies in memory: a byte array with 32-byte headers linked in
  a ring; every method is tied to the block list, and says which bytes it leaves alone. `HeapBytes` proves that the bytes determine
  headers and block list. Runs of `malloc`, `free` and `realloc` are sequences of calls on the block list.
- **Virtual memory** (`Paging`, `FreePages`, `AddressSpace`, `Mappings`). Physical memory for tables is a map
  from frames to 512 entries; `Walk` is what the processor does with them. The code reaches every entry
  through an address in the recursive window, so each access is resolved with `Walk` before it happens.
  `Mappings` puts the page tables, the page list and the address-space allocator together: windows, who owns
  them, and what each byte translates to.
- **Device rings** (`Laps`, `TransferRing`, `PhaseQueue`, `XhciEvents`, `Pending`, `KeySeries`, `Nvme`). Driver and device
  take atomic steps in any order; the history of a ring is kept beside it and influences nothing. `Pending`
  is the routing of completions to promises; a promise that has been set is its value in a map.
- **Text** (`Utf8`, `Utf16`). The string class with its local and heap storage, the iterator, and the
  UTF-16 reader.
- **HID reports** (`Hid`, `HidReport`). The layout that a report descriptor asks for, and taking reports
  apart along it.
- **Caches** (`Vectors`, `FlatMap`, `BlockCache`). The linear map and the block cache on top of it.
- `Words` has the machine's sizes, `Numbers` the laws of division that the codecs need.

A class with an invariant has a `Valid` predicate that each of its methods keeps, so what follows from it
holds after any sequence of calls. Methods that change state are proved against a function of the old state or against an
explicit description of the new one.

Where the code does less than it seems to promise, the model follows the code, and the exact condition is
proved:

- Iterators read a string that is stored inside the string object from its size byte on
  (`cpp/include/string:168-171`). They are right for such a string exactly if every code point equals its
  size: `Utf8.LocalReadsRight`.
- Appending to a string stays inside its storage exactly if the bytes are within the capacity to begin with:
  `Utf8.FitsExactly`.
- The byte counters of the HID extraction have 8 bits, and its shifts and masks are 32-bit `int` operations. A
  field of at least one bit is read right from every report exactly if it ends before byte 255, has at most 30
  bits and touches at most four bytes: `HidReport.ReadsRightExactly`; `HidReport.CollectsModulo` says what is read
  of others. A signed value is recorded as it is
  exactly if 16 bits hold it, an unsigned one exactly if it is below 2^15: `HidReport.RecordedExactly`.
- A mapping of an unaligned physical range maps as many pages as the byte count needs by itself; the bytes
  that are mapped are told exactly by `Mappings.Space.RangeByte`, which also says when `to_physical` is right.
- Assigning to a mapping loses a window exactly if the mapping was not empty: `Mappings.Space.Assign`. When all
  mappings have been destroyed, no page is left mapped exactly if no such assignment was ever made:
  `Mappings.Space.AllGone`.
- A mapping takes whole pages of address space, and one more for an unaligned address, but gives back only its byte
  count; the rest of the window is lost: `Mappings.Space.MapAddress` and `Mappings.Space.Destroy` say exactly
  which addresses leave and join the free ones.
- `asa_alloc` rounds sizes above 2^64 - 4096 to 0: `AddressSpace.RoundedCovers`.
- `freepage_add_region` yields whole free pages exactly if at least a page remains behind the first page
  boundary above the start, and gives up a page when the start is aligned: `FreePages.UsableExactly`.
- Completions reach the right request, whichever is answered when, exactly if no key is given to a request
  while another waits under it: `Pending.UniquenessExact`. The NVMe driver takes an id again after 512
  commands; its completions are routed exactly if no command is issued while the one 512 before it still waits
  (`KeySeries.UniqueExactly`, `Nvme.NvmeDisk.RoutedExactly`), which a single read of more than 512 blocks
  violates (`KeySeries.UnansweredExactly`). The addresses in the ring of a USB endpoint come back after 255
  requests (`TransferRing.AddressInTurn`), with the same condition (`XhciEvents.XhciDevice.RoutedExactly`).
- Neither driver checks that a ring has room. A USB endpoint loses nothing exactly if every submission finds
  fewer than 255 requests that the controller has not executed (`TransferRing.RunsExactly`,
  `TransferRing.RoomForRequests`). An NVMe controller that is idle has fetched every command exactly if it was
  never 256 commands behind; otherwise some stay behind for good (`Nvme.NvmeDisk.ControllerFetches`,
  `Nvme.NvmeDisk.IdleExactly`).

## Model

| member | source | states |
|---|---|---|
| HeapBlocks.RingReaches | kernel/src/mem.cpp:29-30 | the ring from any cursor reaches every block, so the search ends if some block fits |
| HeapBlocks.Search | kernel/src/mem.cpp:29-30 | the search stops at the first fitting block in ring order |
| HeapBlocks.SplitNeverUnderflows | kernel/src/mem.cpp:32-36 | for lengths that are multiples of 16 the split test on the unrounded size leaves room for the rounded size and a header, and the rest is a multiple of 16 again |
| HeapBlocks.SplitNeedsAlignment | kernel/src/mem.cpp:32-36 | a block splits without underflow at every size the test accepts exactly if its length is a multiple of 16 or too short to split |
| HeapBlocks.AllocKeeps | kernel/src/mem.cpp:31-42 | allocating keeps tiling, alignment, coalescing and the cursor |
| HeapBlocks.MallocMeaning | kernel/src/mem.cpp:20-46 | malloc adds one used block of length in [size, size + 31] that shares no byte, header included, with any other used block |
| HeapBlocks.MallocCursor | kernel/src/mem.cpp:32-42 | the next search starts at the free rest behind the block handed out if one was cut off, and where it did before otherwise |
| HeapBlocks.FreeKeeps | kernel/src/mem.cpp:48-80 | free keeps the heap valid and removes exactly the freed block from the used ones |
| HeapBlocks.FreeCursor | kernel/src/mem.cpp:63-79 | the next search starts at the free block that the freed one has become part of |
| HeapBlocks.Canonical | kernel/src/mem.cpp:63-78 | coalescing is complete: the used blocks determine the whole block list |
| HeapBlocks.FreeUndoesMalloc | kernel/src/mem.cpp:20-80 | freeing what malloc has just returned restores addresses, lengths and flags of every block |
| HeapBlocks.RunKeeps | kernel/src/mem.cpp:20-96 | every run of malloc, free and realloc keeps the heap invariant, and the used blocks are the pointers held |
| HeapBlocks.AllFreedIsWhole | kernel/src/mem.cpp:20-80 | a run that has released everything, in any order, ends with one free block of 12 MiB |
| HeapBlocks.HistoryIsForgotten | kernel/src/mem.cpp:20-80 | two runs holding the same blocks have the same block list |
| KernelHeap.SplitLinked | kernel/src/mem.cpp:33-40 | the assignments of the split keep next and prev mutually inverse and in address order, also for a ring of one |
| KernelHeap.MergeLinked | kernel/src/mem.cpp:63-78 | the assignments of a merge keep the ring |
| KernelHeap.Heap12M.PayloadsApart | kernel/src/mem.cpp:13-16 | no payload byte lies in a header |
| KernelHeap.Heap12M.Prepare | kernel/src/mem.cpp:21-26 | the first call makes one free block of the arena, linked to itself |
| KernelHeap.Heap12M.Find | kernel/src/mem.cpp:29-30 | following next from last_used ends at the first fitting block |
| KernelHeap.Heap12M.Split | kernel/src/mem.cpp:33-40 | the split writes three headers and no other byte |
| KernelHeap.Heap12M.Malloc | kernel/src/mem.cpp:20-46 | malloc on the headers refines the block list, sets last_used behind the block or leaves it, and leaves every byte of every live payload alone |
| KernelHeap.Heap12M.JoinLeft | kernel/src/mem.cpp:63-70 | the merge with the left neighbour happens exactly when it is free and adjacent in address |
| KernelHeap.Heap12M.JoinRight | kernel/src/mem.cpp:72-78 | the merge with the right neighbour likewise |
| KernelHeap.Heap12M.Free | kernel/src/mem.cpp:48-80 | free refines the block list, sets last_used to the free block that contains the freed one, reports a double free, and leaves every live payload alone |
| KernelHeap.Heap12M.Poke | kernel/src/mem.cpp:43-45 | a caller's write into its block touches no header and no other block |
| KernelHeap.Heap12M.Realloc | kernel/src/mem.cpp:82-96 | realloc returns at least the requested size, the first min(old length, new size) bytes survive, all other payloads are untouched |
| HeapBytes.LittleEndianIsFaithful | kernel/src/mem.cpp:7-11 | four little-endian 64-bit words are a layout that tells all headers apart |
| HeapBytes.HeaderBytes | kernel/src/mem.cpp:7-11 | each byte of a header is the byte of next, prev, length or free that belongs there |
| HeapBytes.BytesDetermine | kernel/src/mem.cpp:7-16 | with such a layout the bytes of the arena determine every header and the whole block list |
| Bytes.MemMove | cpp/src/string.cpp:66-78 | the destination becomes what the source was, for every overlap |
| Bytes.MemCpy | cpp/src/string.cpp:80-82 | memcpy inherits this |
| Paging.Combined | kernel/src/map.cpp:40-82 | for addresses below 2^47 the shifted and masked values are the walk's indices put together |
| Paging.WindowReaches | kernel/src/map.cpp:39-80 | every window address resolves through the self-map entry to exactly the entry of exactly the table it is meant for, at all four levels |
| Paging.Windows | kernel/src/map.cpp:39-82 | the entry and clearing addresses the code forms are the window addresses of the entries on the way to the page |
| Paging.TreeWalk | kernel/src/map.cpp:35-106 | the processor's walk agrees with the tree of tables |
| Paging.RightsOfLeaf | kernel/src/map.cpp:39-105 | below 2^47 the tables restrict nothing: the effective rights of a page over all four levels are those of its own entry |
| Paging.LinkKeepsSpine | kernel/src/map.cpp:39-47 | once linked in, a table that still holds garbage is reachable through its window, and all windows still work |
| Paging.ClearKeepsInv | kernel/src/map.cpp:39-75 | clearing the new table makes the tables well formed |
| Paging.TableChangesNothing | kernel/src/map.cpp:43-78 | adding a table changes no translation below 2^47 |
| Paging.LeafChangesOne | kernel/src/map.cpp:84-105 | writing a page entry changes the translation of that page alone |
| Paging.PresentIffTable | kernel/src/map.cpp:43-76 | behind the boot mapping an entry is present exactly if there is a table below it |
| Paging.BootIsWellFormed | kernel/src/x86/boot.S:8-24 | the tables that boot.S builds satisfy the invariant |
| Paging.BootMapping | kernel/src/x86/boot.S:14-24 | after boot the bytes from 2 MiB to 16 MiB are mapped onto themselves and nothing else below 2^47 is |
| Paging.UnmapUndoesMap | kernel/src/map.cpp:31-148 | unmapping a page just mapped returns its page-aligned physical address and restores every translation |
| Paging.MappedByte | kernel/src/map.cpp:80-105 | every byte of a mapped page translates to the byte at the same offset in the frame |
| Paging.Mmu.constructor | kernel/src/x86/boot.S:8-24 | the initial state |
| Paging.Mmu.MakeTable | kernel/src/map.cpp:35-47 | one step makes sure of one table, taking a page exactly if it was missing, with an unrestricted and uncached entry, and changes no translation |
| Paging.Mmu.MakeTables | kernel/src/map.cpp:35-78 | the three steps make exactly the missing tables |
| Paging.Mmu.PlatformMap | kernel/src/map.cpp:31-106 | the page walks to the frame with the flags of its use, and with the rights of its use over all levels; every other page below 2^47 translates as before; as many pages are taken as tables were missing |
| Paging.Mmu.PlatformUnmap | kernel/src/map.cpp:108-148 | a mapped page becomes not present, its address is returned and no other page changes; a page missing at any of four levels gives 0 and changes nothing |
| FreePages.UsableExactly | kernel/src/freepage.cpp:38-46 | exactly when a region yields a non-empty run of whole pages inside it; where the run starts, and that it counts all whole pages behind the first boundary above the start |
| FreePages.TakeSome | kernel/src/freepage.cpp:15-36 | taking pages off the end of a run moves exactly those pages from free to issued |
| FreePages.FirstRun | kernel/src/freepage.cpp:15-24 | the page taken from the first run is free, aligned and not issued before |
| FreePages.Conserved | kernel/src/freepage.cpp:15-46 | pages free plus pages issued are the pages registered |
| FreePages.PageList.Get | kernel/src/freepage.cpp:15-24 | the last page of the first run, of a registered region, aligned and never handed out before; the list keeps no empty node |
| FreePages.PageList.GetRange | kernel/src/freepage.cpp:27-36 | the end of the first node that holds more pages than asked for, never handed out before, or 0 exactly if there is none |
| FreePages.PageList.AddRegion | kernel/src/freepage.cpp:38-46 | adds exactly the whole pages of the region that the arithmetic keeps |
| AddressSpace.RoundedCovers | kernel/src/asa.cpp:21 | the rounded size covers the request by less than a page, exactly if it does not wrap |
| AddressSpace.CutSound | kernel/src/asa.cpp:23-30 | cutting an allocation off a region keeps free and live regions apart and aligned |
| AddressSpace.CutConserves | kernel/src/asa.cpp:23-30 | cutting an allocation off takes exactly its addresses out of the free ones |
| AddressSpace.ReleaseSound | kernel/src/asa.cpp:35-37 | giving back a size no larger than the allocation keeps them apart and aligned |
| AddressSpace.ReleaseConserves | kernel/src/asa.cpp:35-37 | giving back adds exactly its addresses to the free ones |
| AddressSpace.Asa.constructor | kernel/src/asa.cpp:15-18 | the initial region |
| AddressSpace.Asa.Alloc | kernel/src/asa.cpp:20-33 | first fit, cut from the front: exactly the addresses handed out are free no longer; 0 and no change when nothing fits |
| AddressSpace.Asa.Free | kernel/src/asa.cpp:35-37 | exactly the released addresses join the free ones, one live allocation less |
| Mappings.WindowsDisjoint | kernel/src/map.cpp:157-252 | no page lies in two windows |
| Mappings.MapPages | kernel/src/map.cpp:162-180 | the constructors' loops map page n of the window to the nth physical page and no other page, and take exactly the pages for the missing tables |
| Mappings.UnmapPages | kernel/src/map.cpp:247-249 | the destructor's loop leaves no page of the window present and no other page changed |
| Mappings.Mapping.FromOther | kernel/src/map.cpp:234-244 | the fields move and the source is emptied |
| Mappings.Mapping.Assign | kernel/src/map.cpp:222-232 | the fields move and the source is emptied; assigned to itself a mapping ends up empty |
| Mappings.OwnedAfterMove | kernel/src/map.cpp:222-244 | after a move every non-empty mapping still owns exactly one window and no window has two owners |
| Mappings.OwnedAfterRelease | kernel/src/map.cpp:246-252 | the same after a release |
| Mappings.Space.constructor | kernel/src/x86/boot.S:8-24 | the state after boot: the boot tables, the one region of the address-space allocator, no page registered or issued, no mapping |
| Mappings.Space.Empty | kernel/src/map.cpp:150-155 | a default-constructed mapping is empty and owns no window; it is what is usually assigned to |
| Mappings.Space.MapAddress | kernel/src/map.cpp:167-180 | a new mapping owns a new window backed by the physical range; exactly the whole pages of the size, and one more for an unaligned address, leave the free address space |
| Mappings.Space.MapList | kernel/src/map.cpp:157-165 | a new mapping owns a new window backed by the listed pages, which leaves the free address space |
| Mappings.Space.Move | kernel/src/map.cpp:234-244 | the window changes its owner |
| Mappings.Space.Assign | kernel/src/map.cpp:222-232 | the window on the right changes its owner; the window on the left is lost, exactly if there was one, also in self-assignment |
| Mappings.Space.Destroy | kernel/src/map.cpp:246-252 | the one window the mapping owned is released, once, and none of its pages stays present; exactly its bytecount joins the free address space; an empty mapping releases nothing |
| Mappings.Space.RangeByte | kernel/src/map.cpp:167-180 | byte k translates to address + k exactly if it lies in the mapped pages, for an aligned range always; to_physical agrees exactly for an aligned range |
| Mappings.Space.ScatterByte | kernel/src/map.cpp:157-165 | byte k translates to byte k % 4096 of page pages[k / 4096] |
| Mappings.Space.ByteRights | kernel/src/map.cpp:84-105 | a mapped byte has the rights of the mapping's use over all levels |
| Mappings.Space.AllGone | kernel/src/map.cpp:157-252 | when every mapping is destroyed, no page behind the boot mapping is present exactly if no mapping was ever assigned to while it held a window |
| Laps.IndexWraps | kernel/src/usb/xhci.cpp:367-369 | the wrap of a 16- or 32-bit index changes neither slot nor expected bit |
| TransferRing.LinkBits | kernel/src/usb/xhci.cpp:608-616 | the closing entry is, bit for bit, a Link to the ring's start that toggles the cycle and carries the lap's bit |
| TransferRing.RequestBits | kernel/src/usb/xhci.cpp:621-623 | a request is, bit for bit, a Normal TRB with the data address, the length and the lap's bit |
| TransferRing.XhciEndpoint.EnsureSpaceFor | kernel/src/usb/xhci.cpp:608-617 | the lap is closed, with a Link in the current slot and the index at the next lap, exactly when the entries would touch the last slot |
| TransferRing.XhciEndpoint.Submit | kernel/src/usb/xhci.cpp:619-649 | one request with the caller's address and length is written, into the slot whose address its completion will carry |
| TransferRing.DriverKeeps | kernel/src/usb/xhci.cpp:608-649 | a submission with room keeps the ring invariant, with or without a Link, across the index wrap; the driver does not check for room |
| TransferRing.RoomExactly | kernel/src/usb/xhci.cpp:608-649 | a submission leaves every filled slot alone that is not consumed exactly if there is room |
| TransferRing.RoomForRequests | kernel/src/usb/xhci.cpp:608-649 | there is room exactly if fewer than 255 submitted requests are not executed |
| TransferRing.AddressInTurn | kernel/src/usb/xhci.cpp:619-625 | the requests take the first 255 slots in turn, across Link entries and the index wrap |
| TransferRing.ControllerKeeps | kernel/src/usb/xhci.cpp:608-649 | so does a step of the controller |
| TransferRing.Ownership | kernel/src/usb/xhci.cpp:608-649 | the cycle bit the controller expects is there exactly if the slot is filled and not consumed, for all 256 slots ahead |
| TransferRing.RunKeeps | kernel/src/usb/xhci.cpp:608-649 | every interleaving in which each submission has room keeps the invariant |
| TransferRing.RunsExactly | kernel/src/usb/xhci.cpp:608-649 | among all interleavings with a driver that never checks, these are exactly the ones in which no slot is lost before it is consumed |
| TransferRing.Fifo | kernel/src/usb/xhci.cpp:608-649 | in every interleaving with room the controller executes the submitted requests in order, once each, and the slot it looks at is not its own exactly when it has executed all |
| PhaseQueue.AcceptsExactly | kernel/src/usb/xhci.cpp:367-371 | the phase test accepts exactly when something is produced and not accepted, and then the slot holds the next entry |
| PhaseQueue.ProduceKeeps | kernel/src/usb/xhci.cpp:364-411 | a producer that respects the consumer keeps the queue |
| PhaseQueue.ConsumeKeeps | kernel/src/usb/xhci.cpp:364-411 | so does an attempt to consume |
| PhaseQueue.DeliversInOrder | kernel/src/pci/nvme.cpp:417-436 | in every interleaving the entries accepted are a prefix of those produced, and an attempt that accepts nothing has accepted all |
| XhciEvents.XhciDevice.RegisterStatus | kernel/src/usb/xhci.cpp:329-334 | the promise waits under the address |
| XhciEvents.PassesOn | kernel/src/usb/xhci.cpp:372-393 | events of type 32 and 33 are passed on under their pointer with both status words, no others are |
| XhciEvents.XhciDevice.HandleInterrupt | kernel/src/usb/xhci.cpp:357-414 | takes the next event if there is one: a completion sets the first callback waiting under its pointer, to both status words, and no other; a port change adds its port; the dequeue pointer follows |
| XhciEvents.XhciDevice.Routed | kernel/src/usb/xhci.cpp:329-393 | with addresses unique among the waiting, every promise is set exactly once, to the status of the first completion for its address |
| XhciEvents.XhciDevice.RoutedExactly | kernel/src/usb/xhci.cpp:329-393 | with the addresses of some rings in turn: every answer reaches its request exactly if no ring issues a request while the one a lap before still waits |
| XhciEvents.SubmissionInTurn | kernel/src/usb/xhci.cpp:619-649 | the address under which a submission waits is the next in turn of its ring, and the turn of every other ring is kept |
| Vectors.RemoveLosesOne | kernel/src/pci/nvme.cpp:429-430 | moving the last element into the gap loses exactly the element removed |
| Pending.Dispatcher.Complete | kernel/src/pci/nvme.cpp:425-433 | the first waiting promise with the key is set and removed; without one nothing changes |
| Pending.SettlesFirst | kernel/src/usb/xhci.cpp:385-393 | the first one waiting under the key gets the value and leaves, nobody else does |
| Pending.ExactlyOnce | kernel/src/pci/nvme.cpp:382-436 | for every order of completions with keys unique among the waiting: each promise is set exactly once, to the value of the first completion carrying its key, and waits until then |
| Pending.NeverSetTwice | kernel/src/pci/nvme.cpp:425-433 | a completion never sets a promise that has a value |
| Pending.UniquenessExact | kernel/src/pci/nvme.cpp:382-436 | keys unique among the waiting are exactly what the routing needs: otherwise there is a moment at which an answer leaves a request without its value |
| KeySeries.UniqueExactly | kernel/src/pci/nvme.cpp:382-389 | keys that come round after a period are unique among the waiting exactly if no request is issued while the one a period before it still waits |
| KeySeries.AllUniqueExactly | kernel/src/usb/xhci.cpp:329-334 | with several such series side by side, no key is shared exactly if every series keeps this |
| KeySeries.FreedOn | kernel/src/pci/nvme.cpp:382-389 | that condition is kept by issuing a request exactly if the one a period before has been answered |
| KeySeries.UnansweredExactly | kernel/src/pci/nvme.cpp:393-402 | requests issued before any answer have different keys exactly if they are at most a period |
| Nvme.ReadsItsBlock | kernel/src/pci/nvme.cpp:292-309 | the command for a 4096-byte block reads exactly the bytes of that block into the page, for every sector size the driver accepts, and asks for nothing else |
| Nvme.NvmeDisk.RunCommand | kernel/src/pci/nvme.cpp:382-392 | the command gets the next id and the next slot; the last 256 commands are in the ring; the controller falls behind exactly with the 256th unfetched command |
| Nvme.NvmeDisk.ControllerFetches | kernel/src/pci/nvme.cpp:382-392 | a controller fewer than 256 commands behind fetches them in order; one that is further behind never catches up |
| Nvme.NvmeDisk.IdleExactly | kernel/src/pci/nvme.cpp:382-392 | when its head meets the tail, the controller has fetched everything exactly if it is fewer than 256 commands behind |
| Nvme.NvmeDisk.ReadBlocks | kernel/src/pci/nvme.cpp:393-401 | block start + n is read into the nth page; the pages are fresh and distinct |
| Nvme.NvmeDisk.HandleInterrupt | kernel/src/pci/nvme.cpp:417-436 | takes everything posted; the promises have seen exactly the posted completions in order |
| Nvme.ReportsAt | kernel/src/pci/nvme.cpp:425-428 | the nth entry reports to the command it names, with the status without the phase bit and the lower half of the first word |
| Nvme.NvmeDisk.Routed | kernel/src/pci/nvme.cpp:382-436 | if no command is issued while the one 512 before it waits, every promise is set exactly once, to the value of the first completion carrying its id |
| Nvme.NvmeDisk.RoutedExactly | kernel/src/pci/nvme.cpp:382-436 | and only then |
| Utf8.DecodeUndoesEncode | cpp/include/string:187-257 | a code point written by push_back is read back by the iterator, wherever it lies (section 3 of RFC 3629) |
| Utf8.EncodesUtf8 | cpp/include/string:235-256 | what push_back stores is the UTF-8 form (section 3 of RFC 3629) |
| Utf8.Iterates | cpp/include/string:177-204 | at every code point: `*` yields it, `++` goes to the next, `--` undoes that |
| Utf8.LengthCounts | cpp/include/string:133-140 | the bytes that are no continuation are as many as the code points |
| Utf8.FitsExactly | cpp/include/string:224-285 | what push_back stores is inside the storage exactly if it is within the capacity before growing; to what growing sets size and capacity |
| Utf8.String.PushBack | cpp/include/string:224-257 | within capacity, appends exactly the UTF-8 form, inside the string or on the heap |
| Utf8.String.Length | cpp/include/string:133-140 | length returns the number of code points |
| Utf8.ConstIterator.Deref | cpp/include/string:187-204 | on a heap string, yields the code point |
| Utf8.ConstIterator.Advance | cpp/include/string:177-181 | on a heap string, goes to the next code point, or the end |
| Utf8.ConstIterator.Retreat | cpp/include/string:182-186 | on a heap string, goes back to the previous code point |
| Utf8.AppendRange | cpp/include/string:50-57 | copying through iterators and push_back copies the code points |
| Utf8.LocalReadsRight | cpp/include/string:168-171 | iterators read a local string right exactly if every code point equals the size of the string |
| Utf8.LocalStringMisread | cpp/include/string:168-171 | the local string "A" reads as code point 1 |
| Utf16.PairUndoesSplit | cpp/src/string.cpp:146-151 | combining the surrogates of a scalar value gives it back |
| Utf16.PairValue | cpp/src/string.cpp:146-151 | a pair stands for the ten bits of each surrogate, the first above the second, from 0x10000 on |
| Utf16.OnlyScalars | cpp/src/string.cpp:140-162 | any input decodes to scalar values only |
| Utf16.DecodeInvertsEncode | cpp/src/string.cpp:140-172 | decoding inverts encoding for every sequence of scalar values (section 2 of RFC 2781) |
| Utf16.GetValue | cpp/src/string.cpp:129-138 | the two bytes in the order asked for |
| Utf16.GetUtf16Char | cpp/src/string.cpp:140-162 | one code point off the front: a pair, a plain unit, or U+FFFD for an unpaired surrogate; always advances, never past the end, and re-reads the unit behind an unpaired high surrogate |
| Utf16.AppendUtf16 | cpp/src/string.cpp:164-172 | for any input of even length the loop stops exactly at the end, having appended the decoded code points to a string with room |
| Utf16.FromUtf16 | cpp/src/string.cpp:164-172 | the same for the fresh local string of the code, when the result fits 30 bytes |
| Utf16.TranscodingKeepsScalars | cpp/src/string.cpp:129-172 | scalar values written as UTF-16 bytes, in either order, decode to themselves |
| Hid.UsbHidDevice.ParseReport | kernel/src/usb/UsbHid.cpp:99-168 | appends the fields of the layout to both lists |
| Hid.AddFields | kernel/src/usb/UsbHid.cpp:111-137 | the slot loop: offsets move by the size for constants too, usages are used up in order with the last repeated, or count up from the minimum |
| Hid.LastSets | kernel/src/usb/UsbHid.cpp:152-161 | page, size and count are those of the last item that set them, in 8 bits for the first two |
| Hid.UnsetIsZero | kernel/src/usb/UsbHid.cpp:88-102 | until an item sets them, page, size, count and minimum are 0 |
| Hid.ItemLays | kernel/src/usb/UsbHid.cpp:108-139 | an input or output item lays count slots of the size in force in its own direction only, uses the listed usages up, and moves the minimum on only if its fields counted up from it |
| Hid.DescribedIsParsed | kernel/src/usb/UsbHid.cpp:99-168 | after any items, the description of a group of fields parses to the group: slots, offsets, usages page * 65536 + id, flags; the other direction stays |
| Hid.CollectionTakes | kernel/src/usb/UsbHid.cpp:140-148 | a collection takes the usage before it away |
| Hid.ParseLaysOut | kernel/src/usb/UsbHid.cpp:99-168 | every field is one of the slots, in order, and starts where the sizes of all slots before it add up to, in 16 bits |
| Hid.FieldsAreDisjoint | kernel/src/usb/UsbHid.cpp:108-139 | below 2^16 bits offsets are exact sums and different fields share no bit |
| HidReport.OrAdds | kernel/src/usb/UsbHid.cpp:247-251 | ORing a byte in beyond the bits there are adds it |
| HidReport.Gather | kernel/src/usb/UsbHid.cpp:247-251 | the byte loop puts the bytes together, the fourth one widened with its sign |
| HidReport.Extract | kernel/src/usb/UsbHid.cpp:243-253 | what is collected of a field whenever the loop ends and the 32-bit arithmetic is defined |
| HidReport.CollectsValue | kernel/src/usb/UsbHid.cpp:243-253 | it is the field's value if the field ends before byte 255, has at most 30 bits and touches at most four bytes |
| HidReport.ReadsRightExactly | kernel/src/usb/UsbHid.cpp:243-253 | a field of any length is read right from every report exactly under that condition; a field of no bits exactly if the loop ends |
| HidReport.CollectsModulo | kernel/src/usb/UsbHid.cpp:243-253 | of a field further behind, the bits a multiple of 2048 lower are collected, or none if it reaches over such a boundary |
| HidReport.RecordedExactly | kernel/src/usb/UsbHid.cpp:254-266 | a signed value survives the int16_t exactly if 16 bits hold it, which those of up to 16 bits do; an unsigned one exactly if it is below 2^15 |
| HidReport.HandleReport | kernel/src/usb/UsbHid.cpp:240-267 | the status map records the reading of every field in order |
| HidReport.LastSpeaks | kernel/src/usb/UsbHid.cpp:254-266 | the last field that speaks for a usage decides its status |
| HidReport.UnpackPacked | kernel/src/usb/UsbHid.cpp:243-253 | a slot of a packed number is the value packed there, whatever follows |
| HidReport.ReportRoundTrip | kernel/src/usb/UsbHid.cpp:99-253 | the bits of every field of a report packed along the layout of a descriptor are the value packed there |
| HidReport.PresentExactly | kernel/src/usb/UsbHid.cpp:240-267 | a usage has a status exactly if some field speaks for it |
| HidReport.PackedIsRecorded | kernel/src/usb/UsbHid.cpp:99-267 | end to end: what the handler records for a field of a packed report: nothing for a released button or an absolute 0, otherwise, unless a later field overrules it, the button under its own usage, a relative or absolute value up to a multiple of 2^16, as it is exactly if 16 bits with sign hold it |
| FlatMap.TouchKeeps | cpp/include/flatmap:16-22 | `[]` keeps keys unique and adds the key with a default exactly if it is missing |
| FlatMap.EraseRemoves | cpp/include/flatmap:50-53 | erasing removes exactly the key of the entry |
| FlatMap.FlatMap.At | cpp/include/flatmap:16-22 | the loop of `[]` |
| FlatMap.FlatMap.Find | cpp/include/flatmap:30-37 | find returns the entry of the key, or the end exactly if there is none |
| FlatMap.FlatMap.Erase | cpp/include/flatmap:50-53 | the key goes, every other entry stays |
| BlockCache.Blockcache.Read | kernel/include/blockcache.h:19-36 | the nth page holds block start + n of that disk; exactly the missing blocks are fetched |
| BlockCache.Blockcache.FetchedOnce | kernel/include/blockcache.h:25-33 | no block of a disk is ever fetched twice |

## Left out

- Running out of memory: `malloc` and `freepage_get` do not return then; some block fits and the list is not empty.
- A `free` of a block that is free already stops the machine; the model reports it and leaves the heap alone.
- Headers are read through a typed view laid over the bytes (`KernelHeap.Layout`), which the bytes determine (`HeapBytes.BytesDetermine`); consecutive assignments to one header are one store, and both merges of `free` share one method.
- KernelHeap.Heap12M.Free: only null and pointers to blocks of the list are passed; any other address is outside the model, as in the code.
- `calloc`, and the debug output of `realloc`.
- Translation caches and `invlpg`; accesses to data pages, of which only the translation is modelled; addresses at or above 2^47.
- Paging.Mmu.MakeTables: pages below 16 MiB need no tables, see the next line.
- Paging.Mmu.PlatformUnmap: pages below 16 MiB are never unmapped, see the next line.
- Paging.Mmu.PlatformMap: pages below 16 MiB are not mapped, because the boot mapping has large pages there; physical addresses are below 2^52, the most that an entry holds.
- The `memset` of a new table resolves its address once, for the whole page.
- Mappings.Space.MapAddress: the allocator must have a region, and the window must end at or below 2^47; the allocator's own region reaches 2^63.
- FreePages.PageList.AddRegion: the region must hold a usable page; `FreePages.UsableExactly` says which regions do.
- Mappings.Space.MapList: the same conditions on the allocator; `address` stays what it was before construction, a parameter of the model.
- The two constructors' loops share one method, which gets the physical pages as a sequence.
- The constructor of a mapping from a PCI base address register, which probes the register's size.
- TransferRing.XhciEndpoint.EnsureSpaceFor: the runs use it for one entry at a time, as the code does.
- TransferRing.DriverKeeps: asks for room, which the driver does not check; `TransferRing.RoomExactly` says that this is what it takes.
- TransferRing.RunKeeps: interleavings with room only; `TransferRing.RunsExactly` says which these are.
- TransferRing.Fifo: the same.
- XhciEvents.XhciDevice.RoutedExactly: the addresses of every request belong to rings whose requests are in turn, which `XhciEvents.SubmissionInTurn` shows for endpoint rings.
- Handlers and ring writes are atomic steps; a controller's step is assumed to follow sections 4.9.2 and 4.9.3 of the xHCI specification; doorbells are recorded or left out; futures and coroutines are modelled up to the point where they wait.
- The command ring and the control endpoint's ring, whose wrapping is unfinished; the admin queue; the other command builders.
- Nvme.NvmeDisk.RunCommand: the index fields of a disk start at 0 here, the constructor of the code leaves them unset; the queue sizes told to the controller are not modelled, both rings have the 256 slots of the index arithmetic.
- Utf8.AppendRange: from a string on the heap, within capacity; `Utf8.LocalReadsRight` and `Utf8.FitsExactly` say what happens otherwise.
- Utf8.ConstIterator.Deref: strings on the heap; `Utf8.LocalReadsRight` says what happens to a local one.
- Utf8.ConstIterator.Advance: the same.
- Utf8.ConstIterator.Retreat: the same.
- Utf16.AppendUtf16: within capacity.
- Utf16.FromUtf16: results of up to 30 bytes, the capacity of the fresh string.
- Utf8.String.PushBack: growing is left out, because `reserve` sets the size to the new capacity and the bytes then land outside (`Utf8.FitsExactly`); so are `pop_back`, `resize`, `replace`, `find` and UTF-32.
- `from_cp437` and `split`.
- The decoding of report descriptor items from bytes; a collection without a usage before it, which the code does not guard against, has no effect here; limits, units, report ids and designators, which do not bear on the layout.
- HidReport.Extract: where the code is undefined, by a shift of 32 or more or a mask of more than 30 bits, or does not end, it says only so.
- HidReport.HandleReport: the same for each field; reports too short for a field and relative fields of no bits, whose sign would be looked at with a negative shift, are not handled.
- `flatmap::contains`, `deque`, `path`.
- BlockCache.Blockcache.Read: one read at a time, as the code itself says; the disk is a stand-in that fills fresh pages whose numbers are not 0, which is what `Nvme.NvmeDisk.ReadBlocks` guarantees for pages other than page 0.
- FAT directories and files, EDID, PS/2, timers, interrupts, framebuffers, PCI and ACPI discovery, and the Raspberry Pi port.
