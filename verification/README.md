# Cosmos OS: a verified model of its hard cores

Cosmos OS is a bare-metal operating system in C++ written through keyword macros
(`schneider_lang.h`). This project models the parts of it that carry real invariants and proves
what they promise, over every run where the part is a protocol:

- **Page tables.** `Paging` is the specification side (the walk of section 4.5 of the Intel SDM,
  Volume 3A) and `find_pte_for_address`; `PageTree` and `MmioMap` are the tree of table pages below
  the bump pointer; `TableAccess` is about the code finding those pages, which it reads and writes by
  virtual address through the very tables it changes; `AddressSpaces` is whole runs of calls and the
  imperative code, every load and store of it translated.
- **Preemptive scheduler.** `Scheduler`: a machine of registers, memory and the task table.
- **xHCI rings.** `EventRing` (consumer side, section 4.9.4 of the xHCI specification), `TransferRing`
  (producer side, section 4.9.2 there, one driver store at a time), `MouseChannel`, the two together, and
  `UsbMouse`, the poll routine with its handler.
- **e1000 receive ring.** `E1000`: driver and card over 32 descriptors (section 3.2.6 of the 8254x
  Software Developer's Manual).
- **Cosmos blocks.** `CosmosBlock` (frame and checksum), `CosmosFs` (blocks to sectors and back),
  `TbaStream` (the recording ring and the packet scanner).
- **FAT32 loader.** `LongNames` (directory search), `Fat32` (boot sector, chain, loader) and
  `FatOnDisk`, both on a volume given as its bytes.
- **Arithmetic and wire formats.** `Checksum`, `Decimal`, `Dhcp`, `GoldenSun`, `WindowOrder`;
  `Arith`, `RingIndex`, `XhciRings`, `Octets`, `Ints` and `DiskLayout` are shared helpers.

The form follows the source: code that updates memory, rings or arrays is a class or a method with
loops, proved against a function of its old state; the theorems are about those functions and their
runs. Memory is a total map from addresses to 64-bit words, a drive a total map from sector numbers
to 512 bytes (`Fat32` uses a partial one: a sector that is missing cannot be read). What another
party does (the controller, the card, the drive, other tasks) is a step of the machine that may
happen at any moment and is limited only by the standard named above. Integers are unbounded, so the
source's widths are written out wherever they matter: 64-bit wrap of page ranges, 32-bit cursors and
28-bit drive addresses, cycle bits, the 32-bit checksum accumulator, the int of `int_sqrt` and
`int_to_str`, signed `char`.

What the code computes with (entry bits, byte places, register values, sector numbers) is also stated from
the outside, in literal numbers and bytes, by lemmas that do not use the functions it is computed with.

Where the code does not do what it sets out to do, the model keeps the code and the lemma states the
exact condition under which it does:

- `map_mmio_64` maps a region to itself exactly when bits 51:48 of its argument are zero
  (`MmioMap.MapMmioIsIdentityIff`).
- The paging code looks for its tables at their physical addresses in virtual memory. A call leaves
  all of them there exactly when bits 51:48 of its argument are zero or no table is in its region
  (`TableAccess.CallKeepsReachIff`); in a run the pages where tables can be stay there exactly when
  every mapping is harmless in that sense (`AddressSpaces.PoolStaysIff`). One call with
  0x1_0000_0400_0000 loses the PML4 (`AddressSpaces.OneCallLosesTheRoot`).
- `find_pte_for_address` and the hardware take the same address from an entry exactly when its bits
  63:52 are zero (`Paging.TableAddressAgreesIff`); the code that builds the tables never sets them.
- `disable_nx_for_app` visits every page its bytes meet exactly when there are none or the rounded-up
  end does not wrap (`Paging.RangeIsCoveredIff`), and those pages and no other exactly when, besides,
  an empty range does not start inside a page whose end is below 2^64 (`Paging.RangeIsExactIff`):
  no bytes at address 1 unlock page 0 (`Paging.EmptyRangeVisitsPage`,
  `AddressSpaces.OneEmptyCallUnlocks`).
- `e1000_enable_rx` may be called again only while `rx_cur_intel` is 0
  (`E1000.EnableIsInvIff`, `E1000.FirstPacketIsSeenIff`).
- `xhci_configure_endpoints` leaves the mouse ring in step exactly when `mouse_trb_idx` is 0 and
  `mouse_trb_cycle` is 1, which it does not write (`TransferRing.ConfiguredIsInvIff`,
  `TransferRing.FirstReadIsSeenIff`).
- The mouse stream ends at the first completion whose code is neither 1 nor 13
  (`MouseChannel.FailureStopsTheMouse`), and some run gets there (`MouseChannel.SomeRunFails`).
- The desktop's heartbeat edits byte 7 of a finished block, which a receiver then rejects
  (`CosmosBlock.EditedByte7Iff`).
- The test for deleted directory entries compares a `char` with 0xE5. GCC's `char` is signed on x86
  and build.sh does not change that, so the test never succeeds. In any directory the search
  finds the first item that answers (`LongNames.FindsTheFirst`): a deleted file still answers to its
  short name with 0xE5 in front unless its deleted long-name entries are before it
  (`LongNames.DeletedFileAnswersIff`). A live file answers to its own name unless it is misled, which is
  either a short-named file right behind a deleted long-name entry, or a name of exactly 52
  characters when such an entry since the last file left a character behind it
  (`LongNames.AnswersToItsNameIff`, `LongNames.FoundIffNotMisled`).
- `int_to_str` is right for every int but the smallest, `int_sqrt` for every non-negative int but
  the largest (`Decimal.WrittenIsRightIff`, `GoldenSun.IntSqrt`).

`dafny verify dfyconfig.toml` checks the whole project.

## Model

| member | source | states |
|---|---|---|
| Paging.TableAddressAgreesIff | memory.cpp:16-29 | software and hardware find the next table at one place iff bits 63:52 of the entry are clear |
| Paging.FindPteIsTheHardwareLeaf | memory.cpp:10-31 | the pointer is the very entry the hardware walk uses as its leaf (1 GB, 2 MB or 4 KB); null iff the hardware faults above the last level |
| Paging.EntryReads | memory.cpp:16-47 | of an entry put together from its fields, bit by bit, software and hardware read presence, size, XD and address where the fields are, and clearing NX leaves all fields but XD |
| Paging.ClearNxKeepsTheRest | memory.cpp:47 | the masked store removes execute-disable and keeps every address and flag bit below it |
| Paging.NxDoesNotTranslate | memory.cpp:43-50 | clearing bit 63 of any set of words changes no translation of any address, and a walk can only lose XD |
| Paging.NxDoesNotMoveFindPte | memory.cpp:43-50 | on clean tables the software walk finds the same entry after any NX edits |
| Paging.RangeIsCoveredIff | memory.cpp:40-43 | the loop visits every page the byte range meets iff the range is empty or its rounded-up end does not wrap |
| Paging.RangeIsExactIff | memory.cpp:40-43 | it visits the pages the bytes meet and no other iff an empty range starts at a page or wraps, and any other's rounded-up end does not wrap |
| Paging.EmptyRangeVisitsPage | memory.cpp:40-43 | the empty range at address 1 meets no page and page 0 is visited |
| Paging.UnlockedMeans | memory.cpp:36-51 | unlocking a range translates nothing differently, makes every mapped page of it executable, and touches only leaf entries of its pages |
| Paging.CleanWalkNx | memory.cpp:19-29 | on a clean walk only the leaf decides whether a page is executable |
| PageTree.BumpIsBounded | pci.cpp:174-184 | nodes and pages correspond one to one, so however many regions are mapped the bump pointer never exceeds 0x479F_B000 |
| PageTree.FreshPage | pci.cpp:173-178 | the page at the bump pointer is no table yet; zeroing and linking it changes one entry of one existing table |
| PageTree.AddedTableKeepsTree | pci.cpp:173-186 | a new table leaves the tables a tree of pairwise different pages below the advanced bump pointer |
| MmioMap.WalkOfTree | pci.cpp:169-188 | in a sound tree every hardware walk is clean and ends at the leaf of the address's 2 MB region |
| MmioMap.MapMmioStoresOneLeaf | pci.cpp:161-197 | a call keeps the tree sound and changes exactly one leaf, that of the region asked for |
| MmioMap.MmioEntryBits | pci.cpp:189-193 | the stored entry is a present 2 MB page at the region's aligned address |
| MmioMap.CallMaps | pci.cpp:168-193 | after a call the words on the way to the region, from 0x400_0000 on, are two links with flags 3 and the address's multiple of 2 MB plus 0x9B |
| MmioMap.MapMmioEffect | pci.cpp:161-197 | the requested region translates to what was stored, and every address outside it exactly as before, XD included |
| MmioMap.MapMmioIsIdentityIff | pci.cpp:161-197 | the region maps to itself iff bits 51:48 of the argument are zero |
| MmioMap.UnlockEffect | memory.cpp:36-51 | on these tables `disable_nx_for_app` keeps tree and translations and makes the mapped pages between its rounded ends executable |
| MmioMap.UnlockBytes | memory.cpp:36-51 | when the range is rounded exactly, every mapped page the bytes meet becomes executable, and a word changes only if it is the leaf of such a page, by bit 63 |
| MmioMap.EmptyCallUnlocks | memory.cpp:36-51 | any empty call inside a page below the last one makes that page executable if it was mapped without |
| MmioMap.BootIsSound | os2_entry.s:12-34 | the boot tables are such a tree, whatever memory held before |
| MmioMap.BootTranslates | os2_entry.s:12-34 | the boot map is the identity on the first 4 GB and maps nothing else |
| TableAccess.WordIsReached | pci.cpp:168-188 | every word of a self-mapped page is found at its own virtual address |
| TableAccess.EntryIsReached | pci.cpp:168-188 | while the tables are self-mapped every entry of every table is found at its own address |
| TableAccess.LevelsAreReached | pci.cpp:168-193 | so each level a call walks reads and writes the word the walk means |
| TableAccess.ClearingReaches | pci.cpp:173-178 | at every moment of clearing a new page, that page and the tables are still found where they were |
| TableAccess.PdptIsReached | pci.cpp:173-178 | after the first table is made all tables are still reached, and so is the page the second one takes |
| TableAccess.PdIsReached | pci.cpp:180-186 | after the second table is made all tables are still reached |
| TableAccess.PteIsReached | memory.cpp:10-31 | the entry `find_pte_for_address` returns is found at its own address |
| TableAccess.UnlockedStaysReached | memory.cpp:36-51 | unlocking any range leaves every table where the code looks for it |
| TableAccess.PageStaysIff | pci.cpp:161-197 | a self-mapped page stays so under a call iff it is in another region or bits 51:48 of the argument are zero |
| TableAccess.CallKeepsReachIff | pci.cpp:161-197 | a call leaves all tables, those it made included, where the code looks for them iff bits 51:48 of its argument are zero or no table is in its region |
| TableAccess.CallKeepsPoolIff | pci.cpp:161-197 | a call leaves every page a table can ever be in where it was iff bits 51:48 are zero or no such page is in its region |
| TableAccess.PoolIsReached | pci.cpp:161-197 | while those pages are in place a call for any region finds its tables and the pages it takes |
| AddressSpaces.RunIsSound | pci.cpp:161-197 | whatever the calls, the words they store from boot on form a sound tree; that the code stores these words is `EveryCallRuns` |
| AddressSpaces.PoolStaysIff | pci.cpp:161-197 | the pages of the tables stay where the code looks for them at every moment of a run iff all its mappings are harmless |
| AddressSpaces.EveryCallRuns | pci.cpp:161-197 | in a run of harmless calls every call finds its tables and the pages it takes |
| AddressSpaces.StoresTranslate | pci.cpp:161-197 | what the stored words mean to the hardware: the last call for an address's region decides, or boot |
| AddressSpaces.RunTranslates | pci.cpp:161-197 | in any run of harmless calls the code finds its tables at every call, and then every 48-bit address translates as the last call for its region says, or as at boot |
| AddressSpaces.OneCallLosesTheRoot | pci.cpp:161-197 | after the one call for 0x1_0000_0400_0000 another page is at the PML4's virtual address |
| AddressSpaces.OneEmptyCallUnlocks | memory.cpp:36-51 | in a harmless run region 0 is mapped without execution and the empty call at address 1 makes it executable |
| AddressSpaces.RunIsIdentity | pci.cpp:161-197 | in any run with addresses below 2^48 the code finds its tables at every call, every present address translates to itself, exactly boot's 4 GB and the requested regions are present, and all tables are below 4 GB at their own addresses |
| AddressSpaces.PdptPointerStays | pci.cpp:180-188 | making a page directory leaves the PML4 entry alone, so the pointer read before stays valid |
| AddressSpaces.AddressSpace.constructor | os2_entry.s:12-34 | the three assembly loops build the boot tables, given word by word, and the bump pointer is 0x780_0000 |
| AddressSpaces.AddressSpace.ClearTables | os2_entry.s:13-16 | the 24 KB of tables are zero and no other word changed |
| AddressSpaces.AddressSpace.LinkTables | os2_entry.s:18-25 | five links over the cleared pages |
| AddressSpaces.AddressSpace.FillPds | os2_entry.s:27-34 | all 2048 leaves, although the register that counts them wraps at the end |
| AddressSpaces.AddressSpace.Load | pci.cpp:168-193 | a load reads the physical word its virtual address translates to |
| AddressSpaces.AddressSpace.Store | pci.cpp:173-193 | a store writes the physical word its virtual address translates to, and no other |
| AddressSpaces.AddressSpace.MapMmio64 | pci.cpp:161-197 | while its tables and the pages it takes are where it looks for them, the code, every access translated, refines the specified call, leaves the three words of `CallMaps` and keeps the tree sound; it leaves the tables reached iff the argument misses them |
| AddressSpaces.AddressSpace.NewTable | pci.cpp:174-177 | the page at the bump pointer cleared word by word, linked, and the pointer advanced |
| AddressSpaces.AddressSpace.FindPteForAddress | memory.cpp:10-31 | the walk with every table read by virtual address returns the specified entry |
| AddressSpaces.AddressSpace.DisableNx | memory.cpp:36-51 | the page loop, every access translated, refines the specified unlocking, leaves the tables reached, and unlocks just the given bytes when they are rounded exactly |
| Scheduler.SaveBuildsFrame | kernel_main.cpp:194-198 | the interrupt's and the routine's pushes leave an `InterruptFrame` of the interrupted context and change nothing else |
| Scheduler.SavedWords | kernel_main.cpp:194-198 | each saved word, counted down from the aligned stack pointer: SS, RSP, RFLAGS, CS, RIP and the registers from RAX down to R15 |
| Scheduler.RestoreReadsFrame | kernel_main.cpp:209-216 | pops and iretq restore exactly the context a frame holds, whatever the registers held |
| Scheduler.StacksAreDisjoint | kernel_main.cpp:140-143 | the stacks of two tasks never overlap |
| Scheduler.FabricateBuildsFrame | kernel_main.cpp:140-166 | the frame stored for a new task is one that restores the context fabricated for it, and nothing else changes |
| Scheduler.TickKeeps | kernel_main.cpp:177-218 | a timer interrupt keeps every suspended context and hands over the CPU exactly as it was saved |
| Scheduler.CreateKeeps | kernel_main.cpp:124-175 | creating a task keeps every suspended context; a fifth task changes nothing |
| Scheduler.WorkKeeps | kernel_main.cpp:98-106 | a task working within its own stack disturbs no suspended one |
| Scheduler.RunKeeps | kernel_main.cpp:124-218 | the invariant over every legal run |
| Scheduler.TickKeepsStacks | kernel_main.cpp:193-218 | a timer interrupt changes nothing on the suspended task's stack from its rsp up, and nothing on any other stack |
| Scheduler.StackStays | kernel_main.cpp:111-218 | along every legal run a suspended task's stack from its rsp up is what it was when it was last interrupted, or as fabricated |
| Scheduler.ResumesExactly | kernel_main.cpp:111-218 | at every timer interrupt of every run the task switched to has all 15 registers, rip, rflags, rsp, cs and ss, and its stack from rsp up, as when last interrupted, or as fabricated |
| Scheduler.NewTaskStarts | kernel_main.cpp:124-218 | wherever in a run a task was created, when it first runs rip is its entry, all 15 registers are 0, cs and ss its creator's, rflags 0x202 and rsp 0x120_0000 + id * 0x10_0000 - 8 |
| Scheduler.TimerAlwaysComes | kernel_main.cpp:124-218 | in every run of tasks that leave interrupts on they are on at every moment, so the next timer interrupt is always possible |
| Scheduler.StepShaped | kernel_main.cpp:133-186 | no step takes a task out of service or `current_task` out of range |
| Scheduler.RoundRobin | kernel_main.cpp:177-188 | while n tasks exist the CPU goes to task c + k mod n after k ticks |
| Scheduler.RunsAgainWithin | kernel_main.cpp:124-188 | under any interleaving every task runs again within at most four ticks |
| Scheduler.Kernel.constructor | kernel_main.cpp:104-106 | the initial task table is a started machine |
| Scheduler.Kernel.CreateTask | kernel_main.cpp:124-175 | the code, between cli and sti, refines the machine's step; with fewer than four tasks the new frame's twenty words are as given, with four nothing changes |
| Scheduler.Kernel.BuildFrame | kernel_main.cpp:140-166 | the frame is cleared and filled field by field: 15 zeros, the entry, cs, 0x202, its stack pointer and ss, 160 bytes below 0x120_0000 + id * 0x10_0000 |
| Scheduler.Kernel.Schedule | kernel_main.cpp:177-188 | saves the old stack pointer, moves to the next active task and returns its stack pointer |
| Scheduler.Kernel.PitIsr | kernel_main.cpp:193-218 | pushes, schedule, pops and iretq one by one refine the machine's tick |
| EventRing.FullMeans | cosmos_usb.cpp:312-320 | the controller sees a full ring iff 255 events are unpublished |
| XhciRings.CycleIsBitZero | cosmos_usb.cpp:54-60 | the cycle bit is bit 0 of a TRB's last word and nothing else of it is touched or left out |
| EventRing.ProduceKeeps | cosmos_usb.cpp:269 | the controller writing at any moment keeps the ring in step |
| EventRing.ReadyMeansWaiting | cosmos_usb.cpp:269 | the cycle bit matches iff an event waits, and the slot then holds the oldest one |
| EventRing.LookKeeps | cosmos_usb.cpp:269-320 | a look takes the oldest event, or ends the poll with everything consumed and ERDP republished |
| EventRing.EventsArriveOnceInOrder | cosmos_usb.cpp:258-320 | for every interleaving and any number of laps the consumed events are a prefix of the produced ones, and outside a poll all of them are published |
| EventRing.PollEnds | cosmos_usb.cpp:269-320 | a poll left alone takes at most 255 more events and ends with all of them published |
| EventRing.ProduceCommutes | cosmos_usb.cpp:269-308 | while an event waits, what the controller writes is the same before and after the driver takes it |
| EventRing.EventPoller.Poll | cosmos_usb.cpp:258-320 | the loop with the controller writing between its turns consumes everything produced, once and in order, in at most 255 turns, and publishes the number consumed modulo 256 |
| TransferRing.ConfiguredIsInvIff | pci.cpp:537-573 | the set-up leaves driver and controller in step iff the driver's index was 0 and its cycle bit 1 |
| TransferRing.FirstReadIsSeenIff | pci.cpp:537-573 | the first read stored after a set-up is the controller's to fetch iff the index was 0 and the cycle bit 1 |
| TransferRing.MouseRing.ConfigureEndpoints | pci.cpp:537-573 | the zeroing loop and the Link TRB refine the specified set-up and leave index and cycle bit as they were |
| TransferRing.StoreKeeps | cosmos_usb.cpp:50-62 | every single 32-bit store of a submission keeps it; the request counts as submitted at the last word |
| TransferRing.OwnedMeansSubmitted | cosmos_usb.cpp:50-61 | the controller owns a data TRB iff an unfetched request is there, complete, and it is the next one |
| TransferRing.FetchKeeps | cosmos_usb.cpp:50-62 | the controller fetches the submitted requests in order, none twice |
| TransferRing.LinkLeadsBack | pci.cpp:570-573 | slot 63 is a Link TRB that leads to slot 0 and toggles the cycle state |
| TransferRing.BuffersMissRing | cosmos_usb.cpp:41-44 | the 63 buffers lie behind the ring, 8 bytes each, without overlap |
| TransferRing.FetchMakesProgress | cosmos_usb.cpp:57-62 | a waiting request is fetched at once or after following the link |
| TransferRing.MouseRing.SubmitMouseRead | cosmos_usb.cpp:38-66 | the routine performs exactly the stores of one submission, none without a mouse; word by word they are the slot's buffer at 0x0650_0000 + 8 i, 8 bytes, 0x420 plus the cycle bit, and after slot 62 the link's cycle bit |
| TransferRing.MouseRing.ControllerFetches | cosmos_usb.cpp:50-62 | the controller's look at the ring refines the specified fetch |
| MouseChannel.CompletionPointsAtItsRequest | cosmos_usb.cpp:283-287 | the TRB a completion points at still holds that transfer's request, so the handler reads its buffer |
| MouseChannel.StepKeeps | cosmos_usb.cpp:269-310 | every step of driver or controller keeps the credit |
| MouseChannel.HandlerStartsIff | cosmos_usb.cpp:270-299 | whatever sixteen bytes the driver looks at, it starts the next read iff they are a transfer event of the mouse's slot and endpoint 3 with completion code 1 or 13 |
| MouseChannel.OneReadAtATime | cosmos_usb.cpp:277-300 | reads under way, unconsumed completions and the read being stored total exactly one, or none after a failure, so the unchecked producer never overruns |
| MouseChannel.FailureStopsTheMouse | cosmos_usb.cpp:277-301 | after one completion with another code nothing is ever submitted again |
| MouseChannel.SomeRunFails | cosmos_usb.cpp:277-301 | such a completion is reachable: the first read stored, fetched and stalled |
| MouseChannel.SomeRunGoesOn | cosmos_usb.cpp:277-301 | a run in which the first read is completed short, with code 13, a second read is submitted and nothing failed |
| UsbMouse.HandlerStarts | cosmos_usb.cpp:277-299 | whenever the handler calls the submission the transfer ring has room for it |
| UsbMouse.MouseDriver.ControllerActs | cosmos_usb.cpp:258-320 | whatever the controller does between two of the driver's steps is steps of the machine |
| UsbMouse.MouseDriver.SubmitMouseRead | cosmos_usb.cpp:38-66 | in the handler, with the controller acting after every store, the stores are steps of the machine and submit one request |
| UsbMouse.MouseDriver.FindBuffer | cosmos_usb.cpp:283-287 | the address the handler follows from the event through its TRB is the buffer of the last read |
| UsbMouse.MouseDriver.Poll | cosmos_usb.cpp:258-320 | the whole loop with its handler, the controller acting between any two steps, refines a run of the machine, takes every event produced, and reads as many buffers as there were reports, by their bytes, at 0x0650_0000 + 8 * (n mod 63) in order |
| E1000.EnableIsInvIff | net.cpp:449-470 | ring set-up leaves driver and card in step iff `rx_cur_intel` is 0 |
| E1000.FirstPacketIsSeenIff | net.cpp:449-470 | after a set-up the next check sees the first packet iff `rx_cur_intel` was 0 |
| E1000.NoFreeMeans | net.cpp:684-686 | the card runs out of descriptors iff 31 packets are unpublished |
| E1000.ReceiveKeeps | net.cpp:553-558 | a packet arriving at any moment keeps the ring in step, or is dropped by the card |
| E1000.DoneMeansWaiting | net.cpp:553-558 | DD is set at `rx_cur_intel` iff a packet waits, and it is the oldest one |
| E1000.TurnKeeps | net.cpp:547-687 | a turn takes the oldest packet, or ends the call with everything processed and given back |
| E1000.PacketsArriveOnceInOrder | net.cpp:449-687 | for every interleaving the DD descriptors are the cyclic interval from `rx_cur_intel` to RDH, packets are processed once and in order, and RDT is `rx_cur_intel` - 1 mod 32 between calls |
| E1000.RxRing.EnableRx | net.cpp:449-470 | the set-up loop refines the specified set-up: 32 statuses 0, RDH 0, RDT 31 |
| E1000.RxRing.ProcessCurrent | net.cpp:676-680 | a processed packet is handed up, its status cleared and the index advanced |
| E1000.RxRing.CheckRx | net.cpp:541-687 | the loop with packets arriving between its turns processes everything received, in order, and gives it back with RDT at `rx_cur_intel` - 1 mod 32 |
| CosmosBlock.OneByteErrorIsDetected | cosmos_bytes.cpp:6-24 | a validating block with one byte replaced validates iff it is unchanged |
| CosmosBlock.BuiltValidates | cosmos_bytes.cpp:28-53 | every built block validates |
| CosmosBlock.AcceptedIff | cosmos_bytes.cpp:6-24 | a block is accepted iff byte 0 is 0x2A, byte 255 is 0xFF and every bit is in an even number of the first 255 bytes |
| CosmosBlock.BuiltShowsIff | cosmos_bytes.cpp:28-53 | the block built is the one acceptable block that a reader with literal places takes for the frame: 0x2A, 0xC0, the sensor high byte first at 2, the colour at 10 to 13, MTX at 15, 0xFF at 255, zeros elsewhere |
| CosmosBlock.BuiltIsInjective | cosmos_bytes.cpp:28-53 | equal built blocks come from equal sensor and colour inputs |
| CosmosBlock.EditedByte7Iff | kernel.cpp:4135-4136 | a built block whose byte 7 is overwritten validates iff the new value is 0 |
| CosmosBlock.Checksum | cosmos_bytes.cpp:6-13 | the loop computes the XOR of the first 254 bytes |
| CosmosBlock.Validate | cosmos_bytes.cpp:17-24 | the early returns decide exactly whether anchor, footer and checksum fit |
| CosmosBlock.Build | cosmos_bytes.cpp:28-53 | the in-place stores leave the specified block, its sensor and colour bytes at their places, and no byte outside it changes |
| CosmosFs.PlacesDiffer | cosmos_fs.cpp:272-283 | consecutive sectors stay different drive addresses although the drive takes 28 bits of a 32-bit cursor |
| CosmosFs.ReadAfterWrite | cosmos_fs.cpp:363-394 | each written block is found again at its place, for odd and even counts and across the wrap of the address |
| CosmosFs.WrittenBytes | cosmos_fs.cpp:363-379 | byte q of block k goes to byte 256 * (k mod 2) + q of sector (lba + k / 2) mod 2^28 |
| CosmosFs.RoundTrip | cosmos_fs.cpp:363-404 | a read after a write restores every valid block in its own slot, leaves the caller's bytes elsewhere, and counts the valid blocks; the count is full iff all were valid |
| CosmosFs.FileSystem.WriteBlocks | cosmos_fs.cpp:363-379 | exactly the ceil(n/2) sectors from the start hold the blocks, an odd last one zero-padded; no other sector and no other drive changes; a bad index or count does nothing |
| CosmosFs.FileSystem.ReadBlocks | cosmos_fs.cpp:381-404 | every valid block is in its slot, the caller's bytes stay elsewhere, and the result counts the valid ones; a bad index returns 0 |
| CosmosFs.FileSystem.FillSector | cosmos_fs.cpp:368-374 | the sector buffer holds the next one or two blocks over zeros |
| CosmosFs.FileSystem.TakeBlock | cosmos_fs.cpp:391-399 | a block of the sector buffer is copied iff it validates |
| TbaStream.AllKept | cosmos_tba.cpp:14-36 | with a drive always there the flushed clusters are all full groups of sixteen blocks, in order |
| TbaStream.PutKeeps | cosmos_tba.cpp:39-66 | one more block keeps buffer, cursors and drive in step with the history |
| TbaStream.RunKeeps | cosmos_tba.cpp:14-66 | after any history the last 1250 clusters that reached a drive are in slots k mod 1250, the unflushed tail is in the buffer, and no other sector was ever written |
| TbaStream.OnlyValidBlocks | net.cpp:280-291 | whatever frames are recorded and packets arrive, every block of the history validates |
| TbaStream.RetainedReadsBack | cosmos_tba.cpp:39-66 | in any state in step with a history of valid blocks every retained cluster reads back as sixteen valid blocks, byte for byte |
| TbaStream.ArrivalsReadBack | cosmos_tba.cpp:39-66 | so it does after any run of recorded frames and packets |
| TbaStream.RecordedBytes | cosmos_tba.cpp:14-66 | byte q of block j of the g-th sixteen is byte 256 * (j mod 2) + q of sector 3000 + 8 * (g mod 1250) + j / 2 |
| TbaStream.WindowIff | net.cpp:280-291 | what counts as a block in a packet, by its bytes |
| TbaStream.Recorder.constructor | cosmos_tba.cpp:7-13 | the initial cursors fit the empty history |
| TbaStream.Recorder.FlushToDisk | cosmos_tba.cpp:14-36 | eight sector writes and the wrapping cursor, or a dropped buffer without a drive |
| TbaStream.Recorder.RecordFrame | cosmos_tba.cpp:39-50 | a recorded frame adds its built block to the history, as the run of arrivals says |
| TbaStream.Recorder.MasterStream | cosmos_tba.cpp:54-66 | a streamed payload adds exactly its 256 bytes to the history |
| TbaStream.Scan | net.cpp:280-291 | the scanner finds the leftmost validating 256-byte window, or none |
| TbaStream.Recorder.HandlePacket | net.cpp:280-291 | the leftmost validating window joins the recording, and nothing else does |
| LongNames.SameFromIsEquality | cosmos_ahci.cpp:536-541 | the comparison loop accepts exactly the equal zero-terminated string |
| LongNames.NameIsAssembled | cosmos_ahci.cpp:513-527 | the parts of a name in any order assemble to the name, with or without room for a terminator; only after exactly four parts what a deleted entry left is read on |
| LongNames.StrayLeavesMark | cosmos_ahci.cpp:513-527 | a deleted long-name entry's characters go to part 5, whatever part it was |
| LongNames.FindsTheFirst | cosmos_ahci.cpp:504-557 | in any directory of files, labels and deleted entries the search finds the first item that answers to the name |
| LongNames.NeverLooksDeleted | cosmos_ahci.cpp:511 | the test for deleted entries never succeeds |
| LongNames.AnswersToItsNameIff | cosmos_ahci.cpp:509-557 | a file answers to exactly its own name iff no deleted long-name entry misleads the search for it; a misled one does not answer to its name |
| LongNames.FindsTheFirstNamed | cosmos_ahci.cpp:504-557 | in any directory without misled files the search finds the first file of the name asked for, long or short |
| LongNames.FoundIffNotMisled | cosmos_ahci.cpp:504-557 | anywhere in any directory, a file nothing else answers for is found under its name iff it is not misled |
| LongNames.DeletedFileAnswersIff | cosmos_ahci.cpp:509-511 | a deleted file answers to its short name with 0xE5 in front iff no deleted long-name entry is right before it |
| FatOnDisk.DirectoryIsSearched | cosmos_ahci.cpp:504-557 | on a directory given as bytes (numbered parts of five, six and two 16-bit characters around 0x0F, a checksum and zeros; short entries; labels; deleted parts) the search finds the first file of the name, by the two halves of its first cluster |
| LongNames.GatherPart | cosmos_ahci.cpp:515-525 | thirteen low bytes go to the place the sequence number says; numbers 0 and above 20 are skipped |
| LongNames.SameLongName | cosmos_ahci.cpp:533-541 | the long comparison loop decides the specified comparison |
| LongNames.SameShortName | cosmos_ahci.cpp:542-548 | the short comparison loop compares all eleven characters |
| LongNames.Search | cosmos_ahci.cpp:504-557 | the loop over sixteen entries with its in-place buffer computes the specified search |
| Fat32.ChainLoads | cosmos_ahci.cpp:564-584 | a chain that ends in time loads as exactly its clusters in order |
| Fat32.LoadedIsChain | cosmos_ahci.cpp:564-584 | what loads is a chain that reached an end mark in time |
| Fat32.LoadsIff | cosmos_ahci.cpp:564-584 | loading succeeds iff the chain reaches an end mark within 10000 readable clusters without a zero link |
| Fat32.OnlyBrokenChainsFail | cosmos_ahci.cpp:567-584 | the loop ends in success or in the broken-chain exit iff every cluster the chain visits can be read |
| Fat32.CycleNeverLoads | cosmos_ahci.cpp:564-584 | a chain that loads never returns to a cluster |
| Fat32.LoadsTheFile | cosmos_ahci.cpp:480-584 | in any directory of files, labels and deleted entries the first item that answers to the name is loaded whole if its chain ends in time |
| FatOnDisk.VolumeLoads | cosmos_ahci.cpp:480-584 | on a volume given as bytes (boot sector, table entries of four bytes, clusters behind the hidden and reserved sectors and all tables) the first file of the name loads as its clusters' contents in order, and a path that ends otherwise gives the clusters so far and the reason |
| FatOnDisk.VolumeRefused | cosmos_ahci.cpp:487-560 | an unreadable or invalid boot sector, an unreadable directory and an unknown name give their four messages and load nothing |
| Fat32.ReadSectors | cosmos_ahci.cpp:313-341 | all sectors arrive at the pointer, or the call reports failure and only the memory meant for them may have changed |
| Fat32.FollowChain | cosmos_ahci.cpp:560-584 | the loop loads the specified clusters from the load address on and ends on every table; behind them only the cluster of a failed read may have changed |
| Fat32.LoadFile | cosmos_ahci.cpp:480-584 | the routine with all its error exits refines the specified loader |
| Checksum.ByteOrderDoesNotMatter | net.cpp:211-222 | for every even length the stored bytes equal those `chk` would have stored |
| Checksum.FinishedHeaderSums | net.cpp:211-222 | the finished words add up to 0xFFFF, and no other field value does, up to the two ways to write zero |
| Checksum.SumsFit | net.cpp:212-217 | the 32-bit accumulator does not overflow for up to 65537 words |
| Checksum.FoldCarries | net.cpp:218-220 | the loop ends with the folded sum |
| Checksum.Chk | kernel.cpp:577 | the word loop and the odd last byte compute the folded little-endian sum's complement |
| Checksum.OddByteIsPadded | kernel.cpp:577 | a last odd byte counts as if a zero came after it |
| Checksum.StoreChecksum | net.cpp:211-222 | afterwards the ten words of the header add up to a positive multiple of 0xFFFF, the field holds what the old checksum would have left, and no other byte changed |
| Decimal.TextReadsBack | kernel.cpp:564 | decimal text reads back as its number |
| Decimal.WrittenIsRightIff | kernel.cpp:564 | what `int_to_str` writes is the number's text, and reads back, iff the number is not the smallest int |
| Decimal.DottedReadsBack | net.cpp:632-636 | a dotted address reads back as its four octets |
| Decimal.IntToStr | kernel.cpp:564 | count, terminate and fill from the end leave the specified text and no other change |
| Dhcp.WalkGathers | net.cpp:622-647 | over any well-formed list, pads anywhere, any order, ended by mark or length, the walk yields the last message type, mask and router, or keeps what was known |
| Dhcp.EndMarkEnds | net.cpp:624-627 | an encoded list followed by its end mark is such a list, whatever follows |
| Dhcp.OfferReads | net.cpp:622-647 | the bytes 53 1 t, 1 4 and a mask, 3 4 and a router, 255 give t and the two dotted addresses |
| Dhcp.Client.WriteDotted | net.cpp:632-636 | four octets and three points leave the address's dotted text in the buffer |
| Dhcp.Client.WalkOptions | net.cpp:622-647 | the loop always goes forward and leaves type, mask and router as the specified walk says |
| GoldenSun.IntSqrt | kernel.cpp:527-535 | the loop ends with r*r <= n < (r+1)*(r+1) iff 0 <= n < 2^31 - 1; negative arguments come back unchanged |
| GoldenSun.DepthIsByte | kernel.cpp:752 | the depth is a byte, 255 in the middle, 0 at the edge, and never rises outwards |
| GoldenSun.HighlightIsByte | kernel.cpp:757-763 | the highlight is a byte |
| GoldenSun.GlowIsByte | kernel.cpp:775-778 | the glow is a byte, 255 at the sphere and 0 fifteen pixels out |
| GoldenSun.BlendIsBetween | kernel.cpp:790-792 | a blended channel lies between the two it is blended from |
| GoldenSun.SunPixelIsLossless | kernel.cpp:749-793 | packing loses nothing: each byte of a changed pixel is the channel computed for it |
| GoldenSun.SpherePixel | kernel.cpp:749-771 | a pixel of the sphere in numbers: red on top with depth and highlight, green with 170/255 of the depth, blue with 20/255 and half of the highlight, each at most 255 |
| GoldenSun.GlowPixel | kernel.cpp:772-793 | a pixel of the glow in numbers: 255, 120 and 0 over red, green and blue at its strength |
| GoldenSun.SquaresFitIff | kernel.cpp:739-756 | every square of the shader fits in an int, anywhere on the square it draws, iff the radius is at most 31494 |
| GoldenSun.SquaresFit | kernel.cpp:739-756 | up to that radius every argument of `int_sqrt` is below the one it fails on |
| GoldenSun.DrawGoldenSun | kernel.cpp:738-798 | every pixel of the screen becomes what the sun makes of it, each blended once, none outside the screen touched |
| WindowOrder.RunKeeps | kernel_main.cpp:795-801 | after any run of focus calls the order is a permutation of the windows sorted by last focus |
| WindowOrder.OrderIsUnique | kernel_main.cpp:795-801 | that determines the order |
| WindowOrder.Desktop.FocusWindow | kernel_main.cpp:795-801 | the shifting loop moves the window to the end and keeps the others in order; an unknown window changes nothing |

## Left out

- User interface, games, drawing other than the sun, sound, PCI scanning, port and MMIO access, timeouts and cache flushes.
- Issuing AHCI, ATA and USB commands: reads and writes of an existing sector succeed. An ATA drive of `cosmos_fs.cpp` and the AHCI port of `cosmos_tba.cpp` are both a map of sectors; that a port and a drive index name the same disk is the caller's business.
- Two drive indices that name one physical drive.
- The TLB: a changed table is seen at once, as after the CR3 reload and `invlpg` that the code issues. The order of those instructions is not modelled.
- Non-canonical virtual addresses and the paging features beyond section 4.5 (protection bits other than XD, accessed and dirty bits).
- `map_mmio_64` has no caller in this tree; runs are therefore over arbitrary harmless arguments, and what one call that is not harmless does is stated up to that call. What the code would do next, with other memory in the tables' place, is not modelled.
- A call that moves the region of the kernel's own code, stack or globals: only accesses to the tables are translated.
- A task that runs with interrupts off: no tick is then legal, and no fairness is promised (`Scheduler.TimerAlwaysComes`).
- Byte-wise zeroing (`rep stosb`, the frame's byte loop) is modelled by 64-bit words.
- The set-up of the event ring: `global_xhci_event_ring_base` is never assigned in the repository, so the poll loop's ring is a parameter.
- The mouse buffer's contents and the callback; endpoint contexts and doorbells.
- e1000: the transmit ring, which has no full check, and packet handling other than the DHCP walk; a packet is one value.
- The heap allocator, `cfs_format_drive`, the file table's persistence and `run_cosmos_script`.
- LongNames.GatherPart: sequence number 20, whose last four characters the source would store beyond its 256-byte buffer, is required not to occur.
- LongNames.Search: directories without such an entry, for the same reason.
- A read that fails after its timeout and stores sectors later still.
- Fat32.LoadFile: directories without such an entry, first clusters without bit 31, and at least one sector per cluster; memory too small for 10001 clusters and the FAT sector's own buffer in memory are not modelled.
- LongNames.FindsTheFirst: live long-name entries without their short entry, or with another checksum, are not items of a directory; the search itself covers them. One directory sector of sixteen entries, as the code reads; longer directories are not searched by it.
- Checksum.ByteOrderDoesNotMatter: odd lengths, for which the big-endian loop has no rule; `Checksum.Chk` covers them for the old checksum alone.
- Dhcp.WalkGathers: lists whose message type is not one byte or whose mask is not four bytes; the walk ends on them too, but they have no meaning to compare with. The receive buffer extends at least five bytes beyond the packet.
- GoldenSun.DrawGoldenSun: radius 0, which divides by zero, and radii above 31494, for which a square overflows (`GoldenSun.SquaresFitIff`); the callers pass 3 to 177.
- UsbMouse.MouseDriver.Poll: no mouse set up; the loop then submits nothing and is `EventRing.EventPoller.Poll`.
- Signed overflow in `int_sqrt` and `int_to_str` is taken to wrap.
