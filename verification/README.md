# Verified models of the QEMU 2.4.1 core

This project models the algorithms of QEMU 2.4.1 (directory `Qemu-2.4.1/`) whose correctness rests on
invariants that no single function shows: the radix map from guest-physical addresses to memory sections,
the table of KVM memory slots, the notification protocol and re-entrant walks of the event loop, the guest
memory dumps, image commit and dirty bitmaps of the block layer, the software TLB, the RAM block list, the
loop that reads and writes guest memory, the instruction-count clock, and the packet layer of the debugging
stub.

Code that changes things in place is modelled by classes, arrays and loops and proved against specification
functions; what the code promises is then proved about those functions for all inputs, for all reachable
states or for all runs. The event loop's concurrency is a state machine whose steps are the atomic actions
between the barriers of the code, and a run is any interleaving of them. Integers are unbounded except where
their width matters: the 16-bit decrementer and its 32-bit view, 64-bit TLB addresses, the 64-bit block
lookup subtraction, section numbers below the page size and node numbers below the null pointer are modelled
as such. Host memory and what lies behind guest RAM in it, disks, the compressor, devices, the kernel's slot
table, host time, interrupts and faults are parameters.

| files | part of the system |
|---|---|
| `RadixGeometry`, `RadixTree`, `PhysPageMap`, `AddressDispatch` | physical memory dispatch |
| `RamBlocks`, `MemoryAccess`, `DispatchSpace` | RAM blocks, guest memory access, and how dispatch and access meet |
| `KvmSlots` | KVM memory slots |
| `AioNotify`, `AioWalk`, `AioContext` | event loop |
| `GuestMemory`, `ElfDump` | ELF dump |
| `FlatFile`, `DumpPages`, `DumpBitmap`, `KdumpPages`, `KdumpFile` | kdump-compressed dump |
| `BlockCommit`, `DirtyBitmap` | block layer |
| `SoftTlb` | software TLB |
| `InstructionClock` | instruction counting |
| `GdbPacket` | remote debugging packets |
| `Basics`, `Arithmetic`, `SeqFacts`, `ByteValues` | shared definitions and helpers |

`dafny verify dfyconfig.toml` checks everything.

Where the natural statement is false of the code, the exact condition under which it holds is proved instead:

- With the workaround for kernels that cannot join slots, `kvm_set_phys_mem` maps the range as asked exactly
  when the slots it keeps already did (`KvmSlots.WorkaroundExactness`; `KvmSlots.WorkaroundKeepsOldHost` makes
  a call that fails to).
- Outside the range of `kvm_set_phys_mem` host addresses never change, but flags do: what sticks out of the range
  is registered again with the flags of the new region. Flags outside are kept exactly when the slots that stick
  out had those flags already (`KvmSlots.FlagsKeptIff`; `KvmSlots.RemovalStopsLogging` makes a call after which a
  page next to the range is no longer logged).
- A blocked poller is woken for every bottom half that was not scheduled as idle since `qemu_bh_schedule` last
  found it unscheduled (`AioNotify.NoLostWakeup`). For the others there are runs in which it is not, whether the
  idle call came first or later (`AioNotify.IdleFirstIsNotNotified`, `AioNotify.IdleLaterIsNotNotified`).
- A write by `address_space_rw` leaves RAM as a byte-by-byte copy does exactly when every byte that a device
  access swallows is written again by a later address of the range (`MemoryAccess.WriteBytewiseIff`, with a
  failing write in `MemoryAccess.SpillExample`). Where no two addresses share RAM, this means that no device
  access reaches into RAM (`MemoryAccess.ExactWithoutAlias`). A comment in the source says why device accesses
  are not cut at the end of their section.
- A read gives the byte of RAM at every directly readable address exactly when every chunk that contains such an
  address is copied from RAM, has it at its own place, and reaches it within the block of RAM it starts in
  (`MemoryAccess.ReadBytewiseIff`). Neither device accesses nor chunks of a ROM device are cut at the end of
  their section, and every block has host memory of its own, so a read across a ROM device into the RAM behind it
  fails this wherever that RAM's block lies (`MemoryAccess.MisreadExample`).
- What is written to a range of RAM is read back exactly when no two of its addresses share RAM
  (`MemoryAccess.ReadBackIff`).
- `icount_adjust` keeps virtual time exactly when no part of the counter is handed out
  (`InstructionClock.Clock.AdjustRate`), which holds between slices and fails inside one
  (`InstructionClock.AdjustInSlice`).
- A debugging packet is delivered exactly when its payload is free of '#' and fits the line buffer
  (`GdbPacket.DeliveredIff`).

## Model

| member | source | states |
|---|---|---|
| RadixTree.WalkFinds | Qemu-2.4.1/exec.c:293-315 | In a tree in which every entry accounts for the assigned pages of its range, compacted or not, the walk from any entry ends on the section of every assigned page of that range. |
| RadixTree.WalkEndsOnLeaf | Qemu-2.4.1/exec.c:293-315 | Whatever page is looked up, the walk ends on the unassigned section or on a section number that some insertion used. |
| RadixTree.SameLevelSameNode | Qemu-2.4.1/exec.c:195-219 | Two nodes of one level that share a page are one node, so the growing structure is a tree. |
| RadixTree.AncestorSlot | Qemu-2.4.1/exec.c:195-219 | A slot of a higher node that contains a page of a lower node refers to a node, never to a leaf. |
| RadixTree.WithNodeGrown | Qemu-2.4.1/exec.c:175-203 | Allocating the node of an empty place keeps the whole invariant of the growing tree and its page view. |
| RadixTree.WithLeafGrown | Qemu-2.4.1/exec.c:206-212 | Turning a vacant slot into a leaf keeps the invariant, with exactly the slot's pages now belonging to the leaf. |
| RadixTree.ShortcutIndexed | Qemu-2.4.1/exec.c:234-282 | Bypassing a node with one child loses no assigned page, whatever the skipped index bits and the other entries are. |
| RadixTree.TightKept | Qemu-2.4.1/exec.c:234-282 | Rerouting an entry past a node with one child disturbs no part of the tree that is fully compacted. |
| RadixTree.SkipsFit | Qemu-2.4.1/exec.c:265-268 | An entry and its child never skip more than six levels together, so the guard for the skip field's width never stops a compaction. |
| PhysPageMap.SpentStep | Qemu-2.4.1/exec.c:205-218 | Filling one more slot never takes the nodes allocated so far above the bound of the whole node. |
| PhysPageMap.PageMap.NodeReserve | Qemu-2.4.1/exec.c:166-173 | There is room for the nodes wanted; the array grows only if there was none, and then at least doubles. |
| PhysPageMap.PageMap.NodeAlloc | Qemu-2.4.1/exec.c:175-193 | With room in the array and numbers below the null pointer, the new tree is the old one with a fresh node at the empty place, and stays well-formed. |
| PhysPageMap.PageMap.Descend | Qemu-2.4.1/exec.c:200-204 | The node below a place covers the place's range one level down; at most one node is allocated and no other node moves. |
| PhysPageMap.PageMap.FillSlot | Qemu-2.4.1/exec.c:206-212 | Making a slot a leaf gives exactly its pages to the section. |
| PhysPageMap.PageMap.SetSlot | Qemu-2.4.1/exec.c:206-217 | One turn of the loop assigns the wanted pages of one slot, directly or by descending, within the slot's share of allocations. |
| PhysPageMap.PageMap.SetSlots | Qemu-2.4.1/exec.c:205-218 | The loop over a node assigns all wanted pages the node covers and consumes index and count by as much. |
| PhysPageMap.PageMap.SetLevel | Qemu-2.4.1/exec.c:195-219 | The recursion at every level keeps the tree invariant, assigns exactly the wanted pages of the place and stays within the level's allocation bound. |
| PhysPageMap.PageMap.PageSet | Qemu-2.4.1/exec.c:221-229 | Pages [index, index + nb) belong to the leaf and no other page changes; at most 2 * 6 - 1 nodes are allocated, so the reservation of 3 * 6 suffices. |
| PhysPageMap.PageMap.CompactChildren | Qemu-2.4.1/exec.c:245-256 | The loop leaves nothing to compact below any slot of the node, changes no node above or beside it, and tells exactly whether the node has one child and which. |
| PhysPageMap.PageMap.Compact | Qemu-2.4.1/exec.c:234-282 | Bottom-up compaction below any entry keeps every assigned page reachable, touches nothing above the entry, leaves nothing to compact below it and undoes no compaction elsewhere. |
| PhysPageMap.PageMap.CompactAll | Qemu-2.4.1/exec.c:284-291 | Compacting the whole map keeps the invariant that makes lookups right, with the same page view, and no reachable node has exactly one child. |
| PhysPageMap.PageMap.Find | Qemu-2.4.1/exec.c:293-315 | The loop that follows skip counts computes the recursive walk. |
| AddressDispatch.RangeCheckDecides | Qemu-2.4.1/exec.c:308-314 | The final range check of a lookup accepts exactly the addresses whose page belongs to the section. |
| AddressDispatch.PageFindIsView | Qemu-2.4.1/exec.c:293-315 | In every tree that loses no assigned page a lookup gives the page view at every address, also where skipped index bits differ from the surviving child. |
| AddressDispatch.SameViewSameFind | Qemu-2.4.1/exec.c:234-315 | Two such trees over one view, as before and after compaction, answer every lookup alike. |
| AddressDispatch.NewSplit | Qemu-2.4.1/exec.c:1055-1060 | Splitting an unassigned page changes the meaning of no address. |
| AddressDispatch.NewRange | Qemu-2.4.1/exec.c:1071-1081 | Registering an aligned section for unassigned pages gives exactly its addresses its meaning. |
| AddressDispatch.NewPiece | Qemu-2.4.1/exec.c:1064-1067 | Registering a section inside a split page gives exactly its bytes its meaning. |
| AddressDispatch.SettledSplit | Qemu-2.4.1/exec.c:1055-1060 | Splitting a page keeps: every section added is found at each address it holds. |
| AddressDispatch.SettledRange | Qemu-2.4.1/exec.c:1071-1081 | Registering whole pages keeps it, the new section included. |
| AddressDispatch.SettledPiece | Qemu-2.4.1/exec.c:1064-1067 | Registering a section inside a split page keeps it, the new section included. |
| AddressDispatch.SplitPageUnique | Qemu-2.4.1/exec.c:1055-1063 | A split page is reached from one page of the map only. |
| AddressDispatch.StillUsed | Qemu-2.4.1/exec.c:1040-1114 | Every page with a section holds a mapped byte after an addition too. |
| AddressDispatch.UnmappedPagesFree | Qemu-2.4.1/exec.c:1071-1081 | Pages of which no byte is mapped have no section, so whole-page insertion meets its precondition. |
| AddressDispatch.Dispatch.constructor | Qemu-2.4.1/exec.c:2183-2201 | A new dispatch map has the four fixed sections and maps nothing. |
| AddressDispatch.Dispatch.FindSection | Qemu-2.4.1/exec.c:293-315 | The section number found is the page view's, for every address. |
| AddressDispatch.Dispatch.LookupRegion | Qemu-2.4.1/exec.c:324-337 | With subpage resolution every address gives a section that covers it and means there what the flat map says, region offset included. |
| AddressDispatch.Dispatch.Commit | Qemu-2.4.1/exec.c:2209-2221 | Committing compacts the map fully and changes the meaning of no address. |
| AddressDispatch.Dispatch.FillPage | Qemu-2.4.1/exec.c:2109-2127 | Exactly the given bytes of the split page get the section. |
| AddressDispatch.Dispatch.ExistingSplit | Qemu-2.4.1/exec.c:1040-1053 | The page of an unmapped byte is unassigned or already split, so the assertion of register_subpage holds. |
| AddressDispatch.Dispatch.SplitPageAt | Qemu-2.4.1/exec.c:1055-1060 | Splitting touches one page only and the map still stands for the same flat map. |
| AddressDispatch.Dispatch.RegisterSubpage | Qemu-2.4.1/exec.c:1040-1068 | A section inside one page is added to the flat map; the only failure is a full section table. |
| AddressDispatch.Dispatch.RegisterMultipage | Qemu-2.4.1/exec.c:1071-1081 | A section of whole pages is added to the flat map; the only failure is a full section table. |
| AddressDispatch.Dispatch.AddPiece | Qemu-2.4.1/exec.c:1103-1112 | One round registers the whole pages that are left, or the last bytes, with at most two sections; the arm for an unaligned start is unreachable. |
| AddressDispatch.Dispatch.MemAdd | Qemu-2.4.1/exec.c:1083-1114 | Cut into a partial first page, whole pages and a partial last page, a section is added to the flat map as a whole; it takes at most five sections and fails only if fewer are left. |
| AddressDispatch.ListMeaningOf | Qemu-2.4.1/exec.c:1083-1114 | In a disjoint list the one section that holds an address decides its meaning; without one the address is unmapped. |
| AddressDispatch.Rebuild | Qemu-2.4.1/exec.c:2183-2221 | Begin, any additions of pairwise disjoint sections and commit give a map whose lookups equal the flat list at every address; a list whose sections number at most a fifth of the free section numbers always fits. |
| RamBlocks.MatchesIsInside | Qemu-2.4.1/exec.c:857-893 | The wrapping subtraction of the block test accepts exactly the addresses inside the block. |
| RamBlocks.Sub64Wraps | Qemu-2.4.1/exec.c:857-893 | The block test subtracts modulo 2^64. |
| RamBlocks.ScanFinds | Qemu-2.4.1/exec.c:857-893 | In a disjoint list the scan gives the one block that holds an address. |
| RamBlocks.NextStartIs | Qemu-2.4.1/exec.c:1252-1286 | The inner loop's minimum bounds the start of every block at or behind an end, and is attained by one of them or is the largest address. |
| RamBlocks.GapIsFree | Qemu-2.4.1/exec.c:1252-1286 | The gap behind a block is exactly the most that is free there: no block is met and the largest address not passed. |
| RamBlocks.SmallestGap | Qemu-2.4.1/exec.c:1273-1276 | A smallest sufficient gap starts where no more is free than behind any other block with enough space. |
| RamBlocks.InsertOk | Qemu-2.4.1/exec.c:1469-1485 | Inserting a disjoint block in front of the first shorter one keeps the list disjoint and sorted, and adds that block only. |
| RamBlocks.OneAt | Qemu-2.4.1/exec.c:1662-1679 | Only one block starts at an offset, so removing it removes exactly the blocks at that offset. |
| RamBlocks.RamList.FindRamOffset | Qemu-2.4.1/exec.c:1252-1286 | The offset is the end of a block with enough free behind it, and with no more free than behind any other such block; there is none exactly when behind every block that many bytes meet a block or pass the largest address. |
| RamBlocks.RamList.NextBlock | Qemu-2.4.1/exec.c:1264-1272 | The inner loop computes the nearest block start at or behind an end. |
| RamBlocks.RamList.Add | Qemu-2.4.1/exec.c:1435-1491 | Blocks stay disjoint and sorted by decreasing length; exactly one block is added, at a best fit, apart from all others; it fails exactly without host memory or a gap, changing nothing. |
| RamBlocks.RamList.Free | Qemu-2.4.1/exec.c:1662-1679 | Exactly the block at the offset goes, order is kept, the most-recently-used shortcut is dropped and the version steps. |
| RamBlocks.RamList.GetRamBlock | Qemu-2.4.1/exec.c:857-893 | In every reachable state the shortcut lookup equals the list scan. |
| MemoryAccess.AccessSizeOk | Qemu-2.4.1/exec.c:2355-2382 | A device access is 1, 2, 4 or 8 bytes, no longer than asked, and naturally aligned unless the device takes unaligned accesses. |
| MemoryAccess.AccessSizeLargest | Qemu-2.4.1/exec.c:2355-2382 | No larger size that the request, the device and the alignment allow would have done. |
| MemoryAccess.PlanTiles | Qemu-2.4.1/exec.c:2407-2516 | Every access is cut into non-empty chunks that tile the range in order; RAM chunks end with their section or the range, device chunks have the widest size that request, device and alignment allow, and the abort arms are unreachable. |
| MemoryAccess.ByteWriteIs | Qemu-2.4.1/exec.c:2463-2468 | A byte-by-byte copy leaves in each byte of RAM the byte of the last address of the range that lives there. |
| MemoryAccess.ChunkWriteIs | Qemu-2.4.1/exec.c:2419-2468 | The loop leaves there the byte of the last address that it copies to RAM. |
| MemoryAccess.OnlyWritable | Qemu-2.4.1/exec.c:2424-2468 | A write changes no byte of RAM but those of its writable addresses, so read-only RAM and ROM stay as they are. |
| MemoryAccess.DeviceGets | Qemu-2.4.1/exec.c:2424-2459 | Every byte written to the address of a device is in one of the device accesses, with the device and offset of the address the access starts at. |
| MemoryAccess.DevicesInOrder | Qemu-2.4.1/exec.c:2419-2516 | The device accesses of a write come in the order of their addresses, without overlap, and go to devices only. |
| MemoryAccess.LastAgree | Qemu-2.4.1/exec.c:2419-2468 | The two addresses are the same unless the last one lies inside a device access. |
| MemoryAccess.WriteIsBytewise | Qemu-2.4.1/exec.c:2424-2468 | If every byte a device access swallows is written again later, the loop leaves RAM as the byte-by-byte copy does. |
| MemoryAccess.SpillShows | Qemu-2.4.1/exec.c:355-371 | Otherwise some write differs from the copy. |
| MemoryAccess.WriteBytewiseIff | Qemu-2.4.1/exec.c:2407-2516 | The write equals the byte-by-byte copy for all contents of RAM and buffer exactly under that condition on the memory map. |
| MemoryAccess.ExactWithoutAlias | Qemu-2.4.1/exec.c:355-371 | The condition holds if nothing spills, and only then where no two addresses of the range share RAM. |
| MemoryAccess.SpillExample | Qemu-2.4.1/exec.c:355-371 | On a map with a two-byte device in front of RAM a 4-byte write goes to the device whole, and RAM differs from the copy. |
| MemoryAccess.ByteSource | Qemu-2.4.1/exec.c:2469-2502 | Every byte read comes from the chunk it is in: from the device's answer to that access, or from RAM, which answers for no address but its own. |
| MemoryAccess.ReadIsBytewise | Qemu-2.4.1/exec.c:2469-2502 | A directly readable address that no chunk takes from elsewhere is read from its own place in RAM. |
| MemoryAccess.MisreadShows | Qemu-2.4.1/exec.c:366-371 | If the plan takes such an address from elsewhere, or from behind its block, for some contents the buffer does not have its byte. |
| MemoryAccess.ReadBytewiseIff | Qemu-2.4.1/exec.c:2407-2516 | Every directly readable address gives its byte of RAM, whatever RAM, the host memory behind its blocks and the devices hold, exactly when the plan takes none from elsewhere or from behind a block. |
| MemoryAccess.MisreadExample | Qemu-2.4.1/exec.c:366-371 | On a map with a two-byte ROM device in front of RAM a 4-byte read gives wrong bytes, wherever the block of that RAM lies, the adjacent place included. |
| MemoryAccess.WriteThenRead | Qemu-2.4.1/exec.c:2407-2516 | What is written to a range of RAM, across any sections, is read back, where no two addresses share RAM. |
| MemoryAccess.AliasShows | Qemu-2.4.1/exec.c:2407-2516 | Where two addresses of the range share RAM, some buffer is not read back. |
| MemoryAccess.ReadBackIff | Qemu-2.4.1/exec.c:2407-2516 | On a range of writable RAM every write is read back exactly when no two addresses of the range share RAM. |
| MemoryAccess.AddressSpace.WriteChunk | Qemu-2.4.1/exec.c:2420-2468 | One round handles one chunk and leaves the rest of the write to do. |
| MemoryAccess.AddressSpace.Write | Qemu-2.4.1/exec.c:2407-2516 | The loop ends with RAM written chunk by chunk, as the byte-by-byte copy does under the condition above, with only writable RAM changed, and the device accesses issued in order. |
| MemoryAccess.AddressSpace.ReadChunk | Qemu-2.4.1/exec.c:2420-2502 | One round reads one chunk through a pointer into one block, also one that runs past the end of the block, and leaves the rest of the read to do. |
| MemoryAccess.AddressSpace.Read | Qemu-2.4.1/exec.c:2407-2516 | The buffer joins the chunks; under the condition above every directly readable byte is its RAM byte. |
| DispatchSpace.SpaceMeans | Qemu-2.4.1/exec.c:340-373 | The section a lookup gives an address translates it to the region and offset of the flat map. |
| DispatchSpace.RamSection | Qemu-2.4.1/exec.c:340-373 | A section of RAM found at one address is found at all the addresses it holds and lies in its block of RAM as a whole, so clamping a chunk to it is sound. |
| DispatchSpace.DispatchGivesSpace | Qemu-2.4.1/exec.c:340-373 | Every dispatch map that lookups may use, compacted or not, is a memory map of the kind the access loop needs. |
| DispatchSpace.WrittenThroughList | Qemu-2.4.1/exec.c:2407-2516 | Through the map built from a flat list of sections, what is written to a range that the list gives to RAM is read back, where no two addresses share RAM. |
| KvmSlots.HvaCovered | Qemu-2.4.1/kvm-all.c:175-198 | Among disjoint slots the slot that covers an address decides its host address. |
| KvmSlots.HvaCleared | Qemu-2.4.1/kvm-all.c:689-696 | Emptying a slot erases its addresses and no others. |
| KvmSlots.HvaAdded | Qemu-2.4.1/kvm-all.c:775-786 | Filling a free slot with an interval no slot meets adds exactly that interval. |
| KvmSlots.HvaFlags | Qemu-2.4.1/kvm-all.c:299-313 | Changing flags changes no address. |
| KvmSlots.SplitIsAlone | Qemu-2.4.1/kvm-all.c:727-765 | A slot that sticks out on both sides is the only one in the range, so two pieces are needed at most once. |
| KvmSlots.FitsExisting | Qemu-2.4.1/kvm-all.c:674-681 | A range inside a slot with the same host addresses only needs new flags. |
| KvmSlots.FitFound | Qemu-2.4.1/kvm-all.c:668-681 | A slot that contains the range with the same host addresses is the one the loop finds. |
| KvmSlots.NoChain | Qemu-2.4.1/kvm-all.c:706-725 | If the lowest overlapping slot does not begin the range or reaches its end, the workaround keeps nothing. |
| KvmSlots.FlagsReach | Qemu-2.4.1/kvm-all.c:775-786 | A slot that fills the next part of a range extends the part whose slots have the requested flags. |
| KvmSlots.FlagsCovered | Qemu-2.4.1/kvm-all.c:175-198 | Among disjoint slots the slot that covers an address decides its flags. |
| KvmSlots.FollowParts | Qemu-2.4.1/kvm-all.c:727-765 | Registering parts of a slot of the range again keeps: slots are as before, or have the requested flags and cover, outside the range, only addresses of slots that met it. |
| KvmSlots.FlagsDone | Qemu-2.4.1/kvm-all.c:668-786 | When the range is set, every address has the flags it should: the requested ones in the range after an addition, and where a slot that met the range stuck out; the old ones elsewhere. |
| KvmSlots.FlagsKeptIff | Qemu-2.4.1/kvm-all.c:727-765 | Addresses outside the range keep their flags exactly when every slot that sticks out of it had the requested ones. |
| KvmSlots.RemovalStopsLogging | Qemu-2.4.1/kvm-all.c:727-744 | A call that removes one of two logged pages and leaves the other one without logging. |
| KvmSlots.ProgressKeep | Qemu-2.4.1/kvm-all.c:706-725 | A round of the workaround keeps what the loop relies on, with the range shortened by the kept slot. |
| KvmSlots.ProgressCarve | Qemu-2.4.1/kvm-all.c:683-765 | A round that removes the lowest slot of the range keeps it, free slots included. |
| KvmSlots.SectionDone | Qemu-2.4.1/kvm-all.c:281-297 | After an addition every address of the range is mapped, logged exactly if the region is, and writable exactly if the region is RAM that is not read-only or the kernel knows no read-only memory; after a removal none is mapped. |
| KvmSlots.AddedAgrees | Qemu-2.4.1/exec.c:375-386 | With a kernel that knows read-only memory, a free range to which RAM, a ROM device or a device is added is read and written without an exit exactly where the device model goes to RAM directly. |
| KvmSlots.WorkaroundExactness | Qemu-2.4.1/kvm-all.c:706-725 | With the workaround the range is overridden exactly when the kept slots already map their part as requested. |
| KvmSlots.WorkaroundKeepsOldHost | Qemu-2.4.1/kvm-all.c:706-725 | A call on a table with two free slots that succeeds with the workaround and leaves a page at its old host address instead of the requested one. |
| KvmSlots.WholePages | Qemu-2.4.1/kvm-all.c:641-654 | Padding start and size keeps exactly the whole pages of a section. |
| KvmSlots.SlotTable.constructor | Qemu-2.4.1/kvm-all.c:888-898 | A new table is all free, and its log of kernel tables begins with it. |
| KvmSlots.SlotTable.SetUserMemoryRegion | Qemu-2.4.1/kvm-all.c:218-236 | The kernel's copy follows the slot; the log gains the kernel's table after each request, the intermediate one for read-only slots included; in all of them slots are disjoint, and a slot that becomes read-only had been empty. |
| KvmSlots.SlotTable.GetFreeSlot | Qemu-2.4.1/kvm-all.c:120-151 | The first free slot, or failure exactly when none is free. |
| KvmSlots.SlotTable.LookupOverlapping | Qemu-2.4.1/kvm-all.c:175-198 | The overlapping slot with the lowest start, or none exactly when nothing overlaps. |
| KvmSlots.SlotTable.Unregister | Qemu-2.4.1/kvm-all.c:689-696 | One slot is emptied, here and in the kernel, by one request. |
| KvmSlots.SlotTable.Register | Qemu-2.4.1/kvm-all.c:775-786 | A free slot is filled, here and in the kernel; it fails exactly when the table is full, with no request. |
| KvmSlots.SlotTable.Carve | Qemu-2.4.1/kvm-all.c:683-765 | Removing a slot from a range keeps all addresses outside, frees the range from that slot, registers only parts of it, with the requested flags, and succeeds exactly when its pieces find slots. |
| KvmSlots.SlotTable.Keep | Qemu-2.4.1/kvm-all.c:706-725 | The workaround registers the slot again as it was and shortens the range, mapping unchanged. |
| KvmSlots.SlotTable.UpdateFlags | Qemu-2.4.1/kvm-all.c:299-313 | Only the flags of the slot change, and the kernel is asked exactly when they do, by one request unless the slot becomes read-only. |
| KvmSlots.SlotTable.AddRest | Qemu-2.4.1/kvm-all.c:768-786 | The final registration maps the rest of the range as asked, with the requested flags. |
| KvmSlots.SlotTable.ReplaceRange | Qemu-2.4.1/kvm-all.c:668-786 | The loop and the final registration, with the flags told slot by slot. |
| KvmSlots.SlotTable.SetRange | Qemu-2.4.1/kvm-all.c:668-786 | The loop terminates and leaves the old map overridden or erased exactly on the range (behind the kept part with the workaround); two free slots at entry always suffice; the flags of every address, in the range and outside, are stated; an addition that fits into a slot changes nothing but its flags; slots were disjoint in the kernel after every request. |
| KvmSlots.SlotTable.SetPhysMem | Qemu-2.4.1/kvm-all.c:628-787 | The same for a section, padded to whole pages: which addresses are mapped, writable and logged afterwards follows from the kind of its region, in agreement with the device model; nothing changes if it is no business of the kernel or has no whole page; two free slots rule out the abort. |
| AioNotify.StepEvent | Qemu-2.4.1/async.c:278-295 | Every step keeps: a set event notifier means `notified` is set, a notifier is between its two writes, or an accept is under way. |
| AioNotify.PendingIsCommitted | Qemu-2.4.1/async.c:121-136 | A bottom half becomes pending only through a thread that goes on to notify. |
| AioNotify.PassedWasChecked | Qemu-2.4.1/async.c:156-182 | The poller reads the flags of a bottom half one by one while threads change them, and still passes none that is pending at that moment. |
| AioNotify.StepWakeup | Qemu-2.4.1/aio-posix.c:233-299 | Every step keeps: for a pending bottom half the poller has passed, the event is set or a thread is committed to set it. |
| AioNotify.CommitmentKept | Qemu-2.4.1/async.c:278-295 | A commitment to set the event is not lost by a step of anyone while the poller is past its scan. |
| AioNotify.StepInv | Qemu-2.4.1/async.c:112-295 | Every step of every thread keeps the whole invariant. |
| AioNotify.RunInv | Qemu-2.4.1/async.c:112-295 | The invariant holds in every state of every interleaving. |
| AioNotify.NoLostWakeup | Qemu-2.4.1/aio-posix.c:233-299 | In every interleaving, when the poller blocks with a non-zero timeout while a live bottom half is scheduled that was not scheduled as idle since `qemu_bh_schedule` last found it unscheduled, the event is set or a thread will set it; a set event is always accounted for. |
| AioNotify.CommittedSetsEvent | Qemu-2.4.1/async.c:278-288 | While the poller waits, a committed thread sets the event within two steps of its own. |
| AioNotify.EventStays | Qemu-2.4.1/async.c:290-295 | Only the poller's own accept clears a set event. |
| AioNotify.IdleFirstIsNotNotified | Qemu-2.4.1/async.c:112-136 | A run in which a bottom half scheduled as idle and then normally stays scheduled under a blocked poller nobody will notify. |
| AioNotify.IdleLaterIsNotNotified | Qemu-2.4.1/async.c:112-136 | The same when the idle call comes after `qemu_bh_schedule` found it unscheduled. |
| AioWalk.FindHandlerFinds | Qemu-2.4.1/aio-posix.c:31-42 | The search gives a live handler of the descriptor, or none exactly when all its handlers are deleted. |
| AioWalk.AfterIsNext | Qemu-2.4.1/aio-posix.c:171-172 | In a list without duplicates the step leads to the next element, and from the last one to none. |
| AioWalk.PolledAre | Qemu-2.4.1/aio-posix.c:256-260 | Exactly the live handlers that have a callback are polled for. |
| AioWalk.SetFdMeans | Qemu-2.4.1/aio-posix.c:72-89 | Setting callbacks leaves the descriptor exactly one live handler, with those callbacks, and changes no other. |
| AioWalk.LeaveInv | Qemu-2.4.1/aio-posix.c:170-178 | Stepping to the next handler, freeing the last one only if no other walk is active, keeps the invariant. |
| AioWalk.BhAdvanceInv | Qemu-2.4.1/async.c:71-107 | The same for bottom halves, which are freed when the outermost walk ends. |
| AioWalk.StepInv | Qemu-2.4.1/aio-posix.c:44-299 | Every step of walks and callbacks keeps: the lists hold exactly the allocated objects once, every saved pointer is allocated, the counters count the walks, one live handler per descriptor. |
| AioWalk.InvAccesses | Qemu-2.4.1/aio-posix.c:125-185 | The invariant makes every pointer a step reads through allocated. |
| AioWalk.RunInv | Qemu-2.4.1/async.c:63-110 | The invariant holds in every state of every run. |
| AioWalk.NoUseAfterFree | Qemu-2.4.1/aio-posix.c:125-185 | Under any nesting of dispatch, polling and bottom-half walks, with callbacks that add, delete, schedule and poll again, no step that could come next touches a freed object, and each descriptor has at most one live handler. |
| AioWalk.GoneStays | Qemu-2.4.1/aio-posix.c:44-91 | A deleted or freed handler or bottom half stays so. |
| AioWalk.DeletedNeverCalled | Qemu-2.4.1/aio-posix.c:125-185 | Once deleted, a handler is never called in the rest of the run. |
| AioWalk.DeletedBhNeverCalled | Qemu-2.4.1/async.c:63-110 | Once deleted, a bottom half is never called in the rest of the run, even if it is scheduled again. |
| AioWalk.DueKept | Qemu-2.4.1/aio-posix.c:125-185 | A callback that is due, because a walk has taken the event or has the handler ahead, stays due under every step until it is called, and the walk cannot end before. |
| AioWalk.DispatchVisits | Qemu-2.4.1/aio-posix.c:125-185 | In every run a handler that is ready for a callback it has when a dispatch walk begins, and is left alone, is called before that walk ends. |
| AioWalk.BhPollVisits | Qemu-2.4.1/async.c:63-89 | In every run a bottom half that is scheduled when a walk begins, and is neither cancelled nor deleted, is called before that walk ends. |
| AioWalk.CallsAnswerReports | Qemu-2.4.1/aio-posix.c:125-185 | In every run a callback runs at most once for each time poll() reported an event for it. |
| AioWalk.BhCallsAnswerSchedules | Qemu-2.4.1/async.c:75-86 | In every run a bottom half runs at most once for each time it was scheduled. |
| AioWalk.DeletedIsFreed | Qemu-2.4.1/aio-posix.c:170-178 | In every run a dispatch walk that is not nested in another frees every handler that was deleted when it began. |
| AioWalk.BhSwept | Qemu-2.4.1/async.c:92-107 | The end of a walk over the bottom halves that is not nested in another frees exactly the deleted ones. |
| AioWalk.NestedRun | Qemu-2.4.1/aio-posix.c:125-185 | A run in which a callback walks the list again and deletes its own handler, which the outer walk frees. |
| AioWalk.ClearingDeletes | Qemu-2.4.1/aio-posix.c:44-71 | Clearing both callbacks leaves no live handler for the descriptor, and frees it at once if no walk is active. |
| AioContext.EventLoop.constructor | Qemu-2.4.1/async.c:319-342 | A new event loop meets the invariant. |
| AioContext.EventLoop.FindAioHandler | Qemu-2.4.1/aio-posix.c:31-42 | The loop finds the first live handler of the descriptor; none means all are deleted. |
| AioContext.EventLoop.SetFd | Qemu-2.4.1/aio-posix.c:44-91 | In place, registering, changing and deleting are the step the walks allow for, and keep the invariant. |
| AioContext.EventLoop.PollFds | Qemu-2.4.1/aio-posix.c:258-263 | The descriptors collected are those of the live handlers with events. |
| AioContext.EventLoop.NewBh | Qemu-2.4.1/async.c:44-60 | A new bottom half heads the list, and the invariant is kept. |
| AioContext.EventLoop.DeleteBh | Qemu-2.4.1/async.c:149-153 | Deleting only marks, and the invariant is kept. |
| AioContext.EventLoop.KeptBhs | Qemu-2.4.1/async.c:93-107 | The sweep keeps the live bottom halves in order. |
| AioContext.EventLoop.EndBhPoll | Qemu-2.4.1/async.c:91-107 | Ending a walk frees the deleted bottom halves exactly when it was the only walk, and keeps the invariant. |
| GuestMemory.HostOfBlock | Qemu-2.4.1/memory_mapping.c:196-258 | Among ascending blocks the block that contains an address decides its host address. |
| GuestMemory.AddedHost | Qemu-2.4.1/memory_mapping.c:222-258 | Appending a block and growing the last one by an adjoining section change the map in the same way. |
| GuestMemory.GuestPhysBlocks.RegionAdd | Qemu-2.4.1/memory_mapping.c:196-258 | A RAM section adds exactly its addresses with their host addresses, in the last block exactly if it continues that; others change nothing. |
| GuestMemory.CutAllSplit | Qemu-2.4.1/memory_mapping.c:327-352 | Clipping a list is clipping its members one by one. |
| GuestMemory.CutAllMeans | Qemu-2.4.1/memory_mapping.c:327-352 | A clipped list gives the addresses inside the filter the same virtual addresses in the same order, and no others any. |
| GuestMemory.MappingList.Filter | Qemu-2.4.1/memory_mapping.c:327-352 | In place, the list keeps exactly the translations of addresses inside the filter. |
| GuestMemory.MappingList.CutList | Qemu-2.4.1/memory_mapping.c:332-351 | The loop that removes and shortens list members clips the whole list. |
| GuestMemory.MappingList.CutOne | Qemu-2.4.1/memory_mapping.c:332-351 | The field updates of one mapping compute the clipped mapping. |
| ElfDump.LocateInRight | Qemu-2.4.1/dump.c:388-429 | For every block list and filter the search gives the file position of exactly the bytes the dump writes for the range, or none for an address that is not RAM. |
| ElfDump.LocateRight | Qemu-2.4.1/dump.c:370-429 | The same with the check against the filter in front: what is filtered out has no position. |
| ElfDump.DumpedByte | Qemu-2.4.1/dump.c:604-629 | Every byte of memory in the file is that of a wanted address of RAM, the one that is located there. |
| ElfDump.HeaderSizes | Qemu-2.4.1/dump.c:1570-1590 | The headers in front of memory are as long as the fields of their ELF class. |
| ElfDump.DumpState.GetStartBlock | Qemu-2.4.1/dump.c:1400-1426 | The first block inside the filter; failure means there is none. |
| ElfDump.DumpState.GetNextBlock | Qemu-2.4.1/dump.c:576-601 | The next block inside the filter; the blocks skipped contribute no byte. |
| ElfDump.DumpState.WriteMemory | Qemu-2.4.1/dump.c:344-367 | Page by page and then the rest, exactly the bytes of the host range are appended. |
| ElfDump.DumpState.WriteBlock | Qemu-2.4.1/dump.c:611-624 | One round appends the wanted part of the current block. |
| ElfDump.DumpState.DumpIterate | Qemu-2.4.1/dump.c:604-629 | The loop appends the wanted part of every block in order. |
| ElfDump.DumpState.LayOut | Qemu-2.4.1/dump.c:1550-1590 | Header count, section header and memory offset agree with the number of segments written later, also when that does not fit the header count. |
| ElfDump.DumpState.GetOffsetRange | Qemu-2.4.1/dump.c:370-429 | The loop over blocks computes the reference search. |
| ElfDump.DumpState.WriteElfLoads | Qemu-2.4.1/dump.c:431-466 | One header per mapping up to the limit, each with the located range, and memory size at least file size as the System V gABI demands. |
| ElfDump.DumpState.DumpBegin | Qemu-2.4.1/dump.c:469-569 | Everything before memory takes exactly the memory offset. |
| ElfDump.DumpState.CreateVmcore | Qemu-2.4.1/dump.c:631-642 | In the finished file there is a segment for every mapping, with its addresses and length; its range holds exactly the guest bytes of its physical range, cut short only at the end of filter or block, and every dumped byte is there; it fails exactly when nothing is wanted. |
| ElfDump.SimpleLoadsTile | Qemu-2.4.1/memory_mapping.c:316-325 | Without page tables the segments follow one another in the file without gap or overlap, none cut short. |
| ElfDump.SimpleLoadsComplete | Qemu-2.4.1/memory_mapping.c:316-325 | Together they account for every dumped byte. |
| FlatFile.HoldsElsewhere | Qemu-2.4.1/dump.c:684-703 | A record elsewhere disturbs nothing the file holds. |
| FlatFile.HoldsExtended | Qemu-2.4.1/dump.c:684-703 | A record right behind what the file holds extends it. |
| FlatFile.AppendedKeeps | Qemu-2.4.1/dump.c:684-703 | Records from a position on leave every byte below it. |
| FlatFile.CacheFlushed | Qemu-2.4.1/dump.c:1106-1136 | Flushing moves the cache's pending bytes into the file and nothing else. |
| FlatFile.CacheUndisturbed | Qemu-2.4.1/dump.c:1106-1136 | A record outside its area does not disturb a cache. |
| FlatFile.DataCache.Write | Qemu-2.4.1/dump.c:1106-1136 | File and buffer together hold the stream handed over, one piece longer; at most one record is written, inside the area. |
| FlatFile.DataCache.Sync | Qemu-2.4.1/dump.c:1106-1136 | Afterwards the file alone holds the stream. |
| DumpPages.PageIsGuestMemory | Qemu-2.4.1/dump.c:1000-1044 | Every byte of every page yielded is the guest memory at its frame number, below the last block's end. |
| DumpPages.PageOfAddress | Qemu-2.4.1/dump.c:1000-1045 | Every page of guest memory is among the dumped pages. |
| DumpPages.PagesAscend | Qemu-2.4.1/dump.c:1000-1044 | Frame numbers strictly increase. |
| DumpPages.LastPage | Qemu-2.4.1/dump.c:1428-1434 | The last page yielded is the one below the end of the last block, from which the bitmap is sized. |
| DumpPages.BlockPageAt | Qemu-2.4.1/dump.c:1019-1042 | The address test decides exactly whether a frame lies in the block, and then the page is the block's. |
| DumpPages.PageIterator.EnterBlock | Qemu-2.4.1/dump.c:1007-1016 | The first page of a block continues the order where the blocks before it end. |
| DumpPages.PageIterator.Next | Qemu-2.4.1/dump.c:1000-1044 | Repeated calls yield every page once in order, then report the end and start over. |
| DumpBitmap.ByteOfBits | Qemu-2.4.1/dump.c:982-989 | Bit k of a bitmap byte is set exactly for the page it stands for. |
| DumpBitmap.MaskIsShift | Qemu-2.4.1/dump.c:982-989 | Bits count from the low end of the byte. |
| DumpBitmap.ChunkAdd | Qemu-2.4.1/dump.c:982-989 | Setting one bit of the buffer adds exactly that page. |
| DumpBitmap.ExpectedHolds | Qemu-2.4.1/dump.c:943-992 | When all buffers are written, each lies at its place in both copies. |
| DumpBitmap.BitmapBits | Qemu-2.4.1/dump.c:943-992 | Read back from the file, every bit of either copy is set exactly for the dumped pages. |
| DumpBitmap.ChunksFillBitmap | Qemu-2.4.1/dump.c:1512-1516 | The buffers fill the place of one copy exactly and have a bit for every page. |
| DumpBitmap.BitmapWriter.Flush | Qemu-2.4.1/dump.c:959-980 | Advancing writes each buffer in between once, to both copies, in order. |
| DumpBitmap.BitmapWriter.SetBit | Qemu-2.4.1/dump.c:943-992 | The page joins the set that file and buffer stand for. |
| DumpBitmap.BitmapWriter.Sync | Qemu-2.4.1/dump.c:1075-1087 | The final call leaves every buffer up to the last page written exactly once. |
| DumpBitmap.BitmapWriter.WriteDumpBitmap | Qemu-2.4.1/dump.c:1046-1094 | The records written are exactly the buffers of the dumped pages, each once per copy, and the page count is returned. |
| ByteValues.OfByteShift | Qemu-2.4.1/dump.c:40-71 | The value of a byte is twice that of its shift plus its lowest bit. |
| KdumpPages.LeRoundTrip | Qemu-2.4.1/dump.c:1205-1212 | Reading little-endian bytes gives the number back. |
| KdumpPages.IntBytesAre | Qemu-2.4.1/dump.c:40-71 | Byte i of a number is its digit i to the base 256, counted from the front in little-endian order and from the back in big-endian order. |
| KdumpPages.DescriptorRoundTrip | Qemu-2.4.1/dump.c:1205-1212 | Decoding an encoded descriptor gives it back in either byte order. |
| KdumpPages.StoreShortest | Qemu-2.4.1/dump.c:1242-1300 | No page takes more room than itself or than its compressed form. |
| KdumpPages.ZeroPagesShared | Qemu-2.4.1/dump.c:1205-1240 | All zero pages share one descriptor and one copy; the data area has room for that copy and the other pages. |
| KdumpPages.DataPrefix | Qemu-2.4.1/dump.c:1227-1316 | Later pages only append to the data area. |
| KdumpPages.DescsAt | Qemu-2.4.1/dump.c:1227-1316 | The i-th piece of the descriptor area is the i-th page's descriptor. |
| KdumpPages.StoredInData | Qemu-2.4.1/dump.c:1227-1316 | Offset and size of a page's descriptor cut exactly its stored bytes out of the data area, zero pages the shared one. |
| KdumpPages.DescriptorLocatesPage | Qemu-2.4.1/dump.c:1173-1338 | The same in a file that holds both areas. |
| KdumpPages.DescriptorFits | Qemu-2.4.1/dump.c:1205-1316 | In a file of less than 2^64 bytes the descriptor of every page decodes to itself. |
| KdumpPages.PageReadsBack | Qemu-2.4.1/dump.c:1173-1338 | A reader that decodes the i-th descriptor of such a file, takes the bytes it locates and decompresses them by its flags gets the i-th page. |
| KdumpPages.PageWriter.WriteDesc | Qemu-2.4.1/dump.c:1305-1314 | A descriptor joins its stream and the data stream is not disturbed. |
| KdumpPages.PageWriter.WriteData | Qemu-2.4.1/dump.c:1248-1303 | Page data joins its stream and the descriptor stream is not disturbed. |
| KdumpPages.PageWriter.WritePage | Qemu-2.4.1/dump.c:1227-1316 | One round extends both streams by the page, compressed when that is shorter, raw otherwise, by nothing but a descriptor for a zero page. |
| KdumpPages.PageWriter.Finish | Qemu-2.4.1/dump.c:1318-1328 | After the final calls the file holds both areas. |
| KdumpPages.WriteDumpPages | Qemu-2.4.1/dump.c:1173-1338 | In the file the i-th descriptor locates exactly the stored bytes of the i-th page, above all descriptors; nothing before the page area is touched. |
| KdumpFile.LayoutTight | Qemu-2.4.1/dump.c:908-915 | Both bitmap copies end exactly where the descriptors begin, behind the headers. |
| KdumpFile.DumpedPages | Qemu-2.4.1/dump.c:1047-1097 | The pages in the bitmap are exactly the pages of guest memory. |
| KdumpFile.CreateKdump | Qemu-2.4.1/dump.c:1340-1398 | In the finished file both bitmaps read exactly the pages of guest memory and every descriptor locates its page. |
| KdumpFile.KdumpReadsBack | Qemu-2.4.1/dump.c:1340-1398 | From the finished file every dumped page is read back, byte by byte, as it was in guest memory at its frame number. |
| BlockCommit.GrowInvisible | Qemu-2.4.1/block.c:2257-2265 | Growing the backing image with zeros changes nothing the guest sees. |
| BlockCommit.WriteInvisible | Qemu-2.4.1/block.c:2282-2292 | Whatever is written to the backing image below allocated sectors is invisible. |
| BlockCommit.DropInvisible | Qemu-2.4.1/block.c:2295-2301 | Once the backing image has the contents, dropping any sectors of the top image is invisible. |
| BlockCommit.RunCommitted | Qemu-2.4.1/block.c:2277-2293 | After each run the backing image has the guest's contents one run further. |
| BlockCommit.ImagePair.CopyRun | Qemu-2.4.1/block.c:2282-2292 | Copying a run, also when it fails half-way, keeps what the guest sees; on success the run is in the backing image. |
| BlockCommit.ImagePair.CommitSectors | Qemu-2.4.1/block.c:2245-2311 | At every intermediate state and error exit the guest sees what it saw; it succeeds unless an operation fails, and then the backing image has the contents. |
| BlockCommit.ImagePair.Commit | Qemu-2.4.1/block.c:2216-2321 | The same for the whole operation with its early errors: with medium and backing image and nobody in the way it commits unless something fails; the backing image is written only while it is writable, and is read-only again afterwards unless that fails. |
| DirtyBitmap.ClustersOfSectors | Qemu-2.4.1/block.c:3575-3585 | A write sets exactly the bits of its sectors, sector x having bit x divided by the grain. |
| DirtyBitmap.WrittenMeans | Qemu-2.4.1/block.c:3575-3585 | The clusters written since a point of the history are exactly those that some write after it set. |
| DirtyBitmap.CreatedTracks | Qemu-2.4.1/block.c:3315-3345 | Creation keeps: every named bitmap shows exactly the clusters written since its mark, names are unique and are exactly those created and not removed, successors are anonymous with one parent. |
| DirtyBitmap.BeganTracks | Qemu-2.4.1/block.c:3372-3398 | Beginning a backup keeps it, with a fresh successor that shows the writes since. |
| DirtyBitmap.SucceededTracks | Qemu-2.4.1/block.c:3404-3424 | Success keeps it, with the mark moved to where the backup began and the name with the successor. |
| DirtyBitmap.SucceededNames | Qemu-2.4.1/block.c:3412-3419 | Success loses no name: the successor has it, with the same grain. |
| DirtyBitmap.MergeMatches | Qemu-2.4.1/block.c:3431-3450 | The merge of a reclaim never sees different sizes or granularities. |
| DirtyBitmap.FailedTracks | Qemu-2.4.1/block.c:3431-3450 | Failure keeps it, with no write of the backup's duration lost. |
| DirtyBitmap.RemovedTracks | Qemu-2.4.1/block.c:3467-3480 | Removal keeps it for the others. |
| DirtyBitmap.WroteTracks | Qemu-2.4.1/block.c:3575-3585 | A write marks its clusters in every enabled bitmap, frozen ones through their successor. |
| DirtyBitmap.StepInv | Qemu-2.4.1/block.c:3295-3585 | Every operation keeps the invariant. |
| DirtyBitmap.RunInv | Qemu-2.4.1/block.c:3295-3585 | The invariant holds in every state of every run. |
| DirtyBitmap.BitmapsTrackWrites | Qemu-2.4.1/block.c:3295-3585 | Over any run of writes and backups a named bitmap with its successor marks exactly the clusters written since the last successful backup began or since creation; names are unique and a reclaim cannot fail. |
| DirtyBitmap.NamesSurvive | Qemu-2.4.1/block.c:3295-3585 | In every state of every run the names that belong to bitmaps are exactly those created and not removed since, each with the grain it was created with. |
| DirtyBitmap.BlockNode.constructor | Qemu-2.4.1/block.c:251-257 | A new device has no bitmaps and an empty history. |
| DirtyBitmap.BlockNode.ShowsWrites | Qemu-2.4.1/block.c:3295-3585 | In every valid state a named bitmap with its successor shows exactly the clusters that the history wrote since its mark. |
| DirtyBitmap.BlockNode.KnowsName | Qemu-2.4.1/block.c:3295-3306 | In every valid state a name is found exactly if the history created it and did not remove it, with the grain it was created with. |
| DirtyBitmap.BlockNode.FindBitmap | Qemu-2.4.1/block.c:3295-3306 | The loop over the list finds the first bitmap of the name. |
| DirtyBitmap.BlockNode.CreateBitmap | Qemu-2.4.1/block.c:3315-3345 | In place, fails exactly when the history has the name and is otherwise the specified creation; bitmaps keep tracking the history. |
| DirtyBitmap.BlockNode.BeginBackup | Qemu-2.4.1/block.c:3372-3398 | In place, fails exactly on a frozen bitmap and is otherwise the specified freeze; with a named bitmap, tracking is kept. |
| DirtyBitmap.BlockNode.ReleaseBitmap | Qemu-2.4.1/block.c:3467-3480 | In place, the bitmap leaves list and table. |
| DirtyBitmap.BlockNode.FinishBackup | Qemu-2.4.1/block.c:3404-3424 | In place, fails exactly without a successor; otherwise name and role pass to it and tracking is kept. |
| DirtyBitmap.BlockNode.AbandonBackup | Qemu-2.4.1/block.c:3431-3450 | In place, fails exactly without a successor, never in the merge; otherwise the successor is merged back and released and tracking is kept. |
| DirtyBitmap.BlockNode.RemoveBitmap | Qemu-2.4.1/blockdev.c:2081-2104 | In place, succeeds exactly if an unfrozen bitmap has the name, and then releases that one; tracking is kept. |
| DirtyBitmap.BlockNode.MarkDirty | Qemu-2.4.1/block.c:3575-3585 | A write joins the history and tracking is kept. |
| DirtyBitmap.BlockNode.MarkEnabled | Qemu-2.4.1/block.c:3575-3585 | The loop marks every enabled bitmap of the list and no other. |
| SoftTlb.TagInSlot | Qemu-2.4.1/cputlb.c:84-122 | An entry that can hit a page sits in that page's slot, so flushing one slot suffices. |
| SoftTlb.InLargeBits | Qemu-2.4.1/cputlb.c:223-232 | An address lies in a large page, differing from it only below the size, exactly when the bits above the size agree. |
| SoftTlb.CoversMeans | Qemu-2.4.1/cputlb.c:93-102 | A region contains every address of a large page exactly when its mask has no bit below the size and its address agrees. |
| SoftTlb.NoTagNoHit | Qemu-2.4.1/softmmu_template.h:120-142 | An entry without a tag for a page is hit by no access to any address of it. |
| SoftTlb.SameSlot | Qemu-2.4.1/cputlb.c:107-108 | Two addresses use one slot exactly if they agree in the eight bits above the page offset. |
| SoftTlb.NextMask | Qemu-2.4.1/cputlb.c:236-239 | There is no high mask between one and its double, so doubling skips nothing. |
| SoftTlb.RegionGrows | Qemu-2.4.1/cputlb.c:223-242 | A region whose mask loses bits keeps covering what it covered. |
| SoftTlb.TightestNext | Qemu-2.4.1/cputlb.c:233-241 | The largest mask under which region and new page agree is the largest of any region that contains all large pages. |
| SoftTlb.NewEntryOk | Qemu-2.4.1/cputlb.c:251-332 | A new entry belongs to its slot and has tags of one page only. |
| SoftTlb.SetHits | Qemu-2.4.1/cputlb.c:251-332 | A new entry is hit by exactly the allowed accesses to its page, in the slot they look at. |
| SoftTlb.HitBelongs | Qemu-2.4.1/softmmu_template.h:120-142 | A victim entry that hits belongs to the slot it is moved to. |
| SoftTlb.WidenMask | Qemu-2.4.1/cputlb.c:236-239 | The loop ends with the largest mask under which the two addresses agree. |
| SoftTlb.Tlb.Flush | Qemu-2.4.1/cputlb.c:51-70 | Every entry of both tables is empty and no large page is remembered. |
| SoftTlb.Tlb.AddLargePage | Qemu-2.4.1/cputlb.c:223-242 | Afterwards the region contains every address of every large page added since the last full flush, the new one included, and no region with a larger mask does. |
| SoftTlb.Tlb.FlushPage | Qemu-2.4.1/cputlb.c:84-122 | No access of any kind and mode to the page is answered from either table; for an address that differs from a large page only below its size nothing is left at all; otherwise exactly the entries with a tag of the page go. |
| SoftTlb.Tlb.FlushTables | Qemu-2.4.1/cputlb.c:107-119 | Flushing one slot per mode and the victim tables empties exactly the entries with a tag of the page. |
| SoftTlb.Tlb.SetPage | Qemu-2.4.1/cputlb.c:251-332 | The entry is placed and hit by exactly the allowed accesses to the page, the old one moves to the next victim place, a large page joins the region, and nothing else changes. |
| SoftTlb.Tlb.SwapVictim | Qemu-2.4.1/softmmu_template.h:120-142 | A victim hit exchanges two entries, changes no other and keeps everything flushing relies on. |
| InstructionClock.RoundIsLeast | Qemu-2.4.1/cpus.c:324-327 | The budget is the least number of instructions that reaches the deadline. |
| InstructionClock.CountdownBound | Qemu-2.4.1/cpus.c:1376-1413 | However a slice goes, it retires at most its budget. |
| InstructionClock.UndisturbedIsExact | Qemu-2.4.1/cpu-exec.c:530-552 | Without interrupts and faults, and with enough to do, a slice retires exactly its budget. |
| InstructionClock.NewShift | Qemu-2.4.1/cpus.c:271-307 | The rate goes one step down exactly when the guest is ahead, beyond the wobble against the last time, and there is a step; up exactly when it is behind in the same way. |
| InstructionClock.NewShiftMirrored | Qemu-2.4.1/cpus.c:271-307 | Being behind is treated as being ahead is. |
| InstructionClock.NewShiftActs | Qemu-2.4.1/cpus.c:271-307 | A guest ahead by more than the wobble, and not less than before, is slowed down; small distances change nothing. |
| InstructionClock.Clock.Raw | Qemu-2.4.1/cpus.c:141-155 | The count read is the instructions retired, in the middle of a slice too. |
| InstructionClock.Clock.StartSlice | Qemu-2.4.1/cpus.c:1376-1401 | The budget handed out is the least number of instructions that reaches the deadline, or the farthest one if there is none so near, and what was left over is folded back. |
| InstructionClock.Clock.EnterBlock | Qemu-2.4.1/include/exec/gen-icount.h:13-48 | A block runs exactly when no interrupt is flagged and its instructions fit in the decrementer, which they leave. |
| InstructionClock.Clock.GiveBack | Qemu-2.4.1/translate-all.c:224-252 | After a fault the instructions that did not retire are back in the decrementer. |
| InstructionClock.Clock.Refill | Qemu-2.4.1/cpu-exec.c:534-539 | A refill moves as much as fits from the reserve and keeps the total. |
| InstructionClock.Clock.Attempt | Qemu-2.4.1/cpu-exec.c:530-552 | A block is run, after a refill if needed, or cut to what is left; budget plus retired is conserved in every case. |
| InstructionClock.Clock.Exec | Qemu-2.4.1/cpu-exec.c:530-552 | With decrementer, reserve and refills a slice retires exactly what one plain countdown of the budget retires. |
| InstructionClock.Clock.FinishSlice | Qemu-2.4.1/cpus.c:1406-1413 | The counter is the instructions retired and nothing is handed out. |
| InstructionClock.Clock.RunSlice | Qemu-2.4.1/cpus.c:1366-1415 | Virtual time advances by the retired instructions, at most the rounded deadline. |
| InstructionClock.Clock.AdjustRate | Qemu-2.4.1/cpus.c:271-307 | Virtual time is unchanged exactly when no part of the counter is handed out; otherwise it moves back by that part. |
| InstructionClock.AdjustInSlice | Qemu-2.4.1/cpus.c:271-307 | With 100 instructions handed out an adjustment moves virtual time back by 100. |
| InstructionClock.Clock.Run | Qemu-2.4.1/cpus.c:271-307 | Over any run of slices and rate changes virtual time never goes back and every instruction is counted once. |
| GdbPacket.HexRoundTrip | Qemu-2.4.1/gdbstub.c:414-455 | Decoding the hexadecimal text of a memory gives it back, and the text is free of '#'. |
| GdbPacket.HexDigit | Qemu-2.4.1/gdbstub.c:426-432 | The digits written are those of "0123456789abcdef". |
| GdbPacket.HexValue | Qemu-2.4.1/gdbstub.c:414-424 | Digits are read in either case. |
| GdbPacket.MemToHex | Qemu-2.4.1/gdbstub.c:434-445 | The loop writes the hexadecimal text. |
| GdbPacket.HexToMem | Qemu-2.4.1/gdbstub.c:447-455 | The loop reads the bytes of a text, and the memory back from its own text. |
| GdbPacket.EscapeRoundTrip | Qemu-2.4.1/gdbstub.c:503-521 | Escaping is undone and leaves no '#', '$' or '*'. |
| GdbPacket.EscapePlain | Qemu-2.4.1/gdbstub.c:503-521 | Bytes that mean nothing to the framing travel as they are. |
| GdbPacket.FlipIsBit5 | Qemu-2.4.1/gdbstub.c:503-521 | An escaped byte differs from the byte in bit 5 only. |
| GdbPacket.MemToX | Qemu-2.4.1/gdbstub.c:503-521 | The loop writes the escaped text. |
| GdbPacket.SumIs | Qemu-2.4.1/gdbstub.c:468-474 | The checksum starts at 0 and adds every byte. |
| GdbPacket.OneByteShows | Qemu-2.4.1/gdbstub.c:468-474 | One damaged byte always changes the checksum. |
| GdbPacket.FrameTaken | Qemu-2.4.1/gdbstub.c:1369-1443 | A receiver at rest takes a frame whole, even with a reply outstanding, delivers its payload exactly when the digits are its checksum and answers accordingly. |
| GdbPacket.NoiseIgnored | Qemu-2.4.1/gdbstub.c:1375-1406 | Bytes between frames, and bytes that are no acknowledgement while one is waited for, change nothing. |
| GdbPacket.RunningStops | Qemu-2.4.1/gdbstub.c:1395-1399 | A byte that arrives while the guest runs stops it and means nothing else. |
| GdbPacket.Resynchronises | Qemu-2.4.1/gdbstub.c:1402-1441 | Whatever was received before, the next whole frame behind the end of one is delivered. |
| GdbPacket.FeedPlain | Qemu-2.4.1/gdbstub.c:1402-1441 | On any input whatever only '#'-free payloads of at most 4095 bytes are delivered, and the line buffer is never overrun. |
| GdbPacket.DeliveredIff | Qemu-2.4.1/gdbstub.c:1369-1443 | The frame of a payload is delivered exactly when the payload is '#'-free and fits the line buffer. |
| GdbPacket.DamageRefused | Qemu-2.4.1/gdbstub.c:1423-1437 | A frame with one damaged payload byte is refused with a negative acknowledgement. |
| GdbPacket.TransferTravels | Qemu-2.4.1/gdbstub.c:1181-1196 | A transfer reply of as many bytes as the stub puts in one is always deliverable and unescapes to the bytes. |
| GdbPacket.Retransmitted | Qemu-2.4.1/gdbstub.c:1375-1394 | Each negative acknowledgement sends the last packet once more, the positive one ends it, nothing else changes. |
| GdbPacket.GdbState.LineSum | Qemu-2.4.1/gdbstub.c:1425-1428 | The loop sums the line buffer. |
| GdbPacket.GdbState.PutPacket | Qemu-2.4.1/gdbstub.c:458-490 | The frame is sent and kept for retransmission, within its buffer. |
| GdbPacket.GdbState.LineByte | Qemu-2.4.1/gdbstub.c:1403-1417 | In place, a byte of the line is the specified step, inside the buffer. |
| GdbPacket.GdbState.ChecksumByte | Qemu-2.4.1/gdbstub.c:1418-1438 | In place, a checksum digit is the specified step; the terminator is written inside the buffer, before the packet is handed over. |
| GdbPacket.GdbState.ReadByte | Qemu-2.4.1/gdbstub.c:1369-1443 | In place, every byte in every state is the specified step. |
| GdbPacket.GdbState.ReadBytes | Qemu-2.4.1/gdbstub.c:1369-1443 | Any input takes the receiver where the specification takes it. |

## Left out

- The web side (`LoadBalancer/`, `VMManager/`): plumbing with nothing to prove.
- aio-win32.c and iohandler.c: variants of the event loop modelled here.
- IOMMU translation, Xen, user-mode-only branches, watchpoints, RCU reclamation of old maps.
- Weak memory ordering: steps are sequentially consistent at the barriers of the code. One poller per context.
- AioWalk: the walks themselves are steps on values, since callbacks may run between any two of them; the linked lists are sequences of identities, so link fields and their order of update are not modelled.
- Failing ioctls: the kernel is assumed to accept every slot request, as the code aborts otherwise; the kernel's table is a log of requests. Fetching the dirty pages of a slot before it is removed is not modelled.
- memory_mapping_list_add_merge_sorted and page-table walks: the dump results hold for any list of mappings.
- ElfDump: contents of the ELF header, notes and section header are sizes only; `memsz` and `filesz` follow the code.
- The kdump headers: only their sizes enter the layout. Compression is any function with a length.
- LeRoundTrip, DescriptorRoundTrip: state it for values that fit their fields, which the C types guarantee; DescriptorFits shows when the descriptors of a file do.
- HBitmap internals: a dirty bitmap is the set of its clusters. Manual clear, reset, enable and disable of bitmaps and changes of device length are not part of a run.
- BeginBackup: keeps tracking for named bitmaps, the only ones a backup is started on; an anonymous one is frozen as specified, without history.
- BlockCommit: drivers are contracts for status, read, write, truncate and make_empty; reopening the backing image is a flag.
- SoftTlb: page size is 4096 bytes; dirty-bit updates of write tags, the I/O TLB and the jump cache are not modelled.
- PageSet: requires a range with no assigned page, as the code does not support descending through an existing leaf.
- Dispatch: the target page size is 4096 bytes, six levels of 512 entries; the model covers addresses below the limit of those levels.
- MemoryAccess: the memory map is constant during one access, while the code reloads it for every chunk; what the host has in memory behind a block of RAM, which a chunk of a ROM device may run into, is a parameter; the order of bytes inside a device value, coalesced accesses and dirty tracking are not modelled; devices answer reads by address and length.
- InstructionClock: 64-bit overflow of the counter, the warp timer and clock alignment are not modelled; a fault is reported by the number of instructions retired before it.
- GdbPacket: the command interpreter is not modelled, so a run of received bytes contains no replies of its own.
