# Orin OS memory, boot and input paths in Dafny

A model of the parts of the Orin OS kernel that keep memory and input in order, with machine-checked proofs:

- **Page tables** (`Paging`, `PageTable`, `AddressSpace`, `KernelMap`, `Harden`, `Audit`, `BootTables`, `Vmm`): physical
  memory is a heap of 512-entry tables, and `WalkFrom`/`Translate` turn a hierarchy into a flat partial map from virtual
  addresses to physical addresses and leaf entries. `map_4k`, `vmm::init`, `harden_boot_map` and the audit are specified
  by what they do to that map. The invariant `Linked` records every table once with its level, slot and parent, and lets
  only "sealed" directories (the boot stub's two, reached through two PDPT slots each) be shared.
- **Frame allocator** (`Bits`, `Bitmap`, `Pmm`, `PmmRuns`): the word-packed bitmap with its roving cursor refines a set of
  free frames; `Step` is one call, and runs are sequences of steps.
- **Boot** (`BootData`, `Utf8`, `Multiboot`, `BootMemory`, `Kernel`): the Multiboot2 parser, the reservations, and the order
  parse, allocator, reservations, address space, hardening; then every run of memory calls after it.
- **Keyboard** (`Ring`, `Keyboard`, `UsLayout`, `Input`): the single-producer single-consumer ring at the grain of its loads and
  stores, the scancode decoder and what its tables type, the drain loop, and all of them interleaved.
- **Clock and console** (`Pit`, `Vga`): exact tick arithmetic, and the scrolling screen against an endless roll of lines.

Words are natural numbers below 2^64; bitwise operators are defined bit by bit in `Bits`, and the lemmas of `Paging` tie the
quotients and remainders used in the proofs to the kernel's shifts and masks. Both Cargo profiles turn on overflow checks,
so an overflowing sum is a panic: methods return `Panic`, `Stopped`, `None` or `false` there.

`dafny verify dfyconfig.toml` checks the whole project.

## Where the code and its comments disagree

The model follows the code.

- `next_free` does not clamp its answer to `limit` (`Bitmap.NextFreeLimit`, `Bitmap.NextFreePassesLimit`).
- The second half of the contiguous search misses a run that straddles the cursor (`PmmRuns.ContiguousComplete`,
  `PmmRuns.StraddlingRunMissed`); `align` is ignored for one frame (`PmmRuns.AlignmentPromise`),
  and a request for none answers the cursor, free or not (`PmmRuns.ZeroFrames`).
- `deallocate` cannot tell a reserved frame from an allocated one (`PmmRuns.DeallocateNeedsOwner`,
  `BootMemory.FreeingReserved`).
- `pmm::init` counts memory type 4 as bad RAM (`Pmm.BadByType`); section 3.6.8 of the Multiboot2 Specification numbers
  defective RAM 5 and gives 4 to memory that must be preserved on hibernation.
- `pmm::init` does not subtract unavailable entries that overlap available ones (`BootMemory.InitTrustsMap`).
- `descend` takes a large page for a table, so `map_4k` maps a page if and only if no large page stands in the way
  (`Vmm.Vmm.MapPage`, `Kernel.IdentityStray`), and may change another translation instead (`Vmm.StraySpace`).
- `harden_boot_map` preserves pages only while no last-level table hangs under PML4[0] (`Harden.HardenKeepsPages`,
  `Harden.HardenKeepsTargets`, `Kernel.MapThenHarden`).
- The heap is at PML4[511]/PDPT[508] (`KernelMap.HeapSlot`); the boot subtree under PML4[0] also maps 510..512 GiB (`BootTables.BootWalk`).
- `.text` is mapped with the GLOBAL bit, which the comment beside it denies.
- Without NX the audit reports no violation at all (`Audit.NoLeavesWithoutNx`).
- `drain` stops at a byte that yields no event (`Keyboard.DrainEmpties`, `Keyboard.DrainLeavesKey`); Pause decodes to
  four events (`Keyboard.PauseDecodes`); a prefix, the end of a Pause and a byte outside the tables leave a pending E0
  set (`Keyboard.PrefixStays`).
- The microsecond counter does truncate, from 18449558245898500 ticks on, a little above 2^54 (`Pit.ExactBelow`).

## Model

| member | source | states |
|---|---|---|
| `Kernel.BootKernel` | kernel/src/kmain.rs:204-244 | the whole boot sequence: it fails only when the structure, its memory counts or a reservation is refused, `init` rejects the layout, or the frames left are no more than the tables can take; what it leaves is exact address by address, its upper half is clear of every frame the allocator may hand out, and it is write-xor-execute if and only if NX is available and hardening was not switched off |
| `Kernel.RunCalls` | kernel/src/memory/vmm.rs:305-389 | after boot, in every state of every series of mapping, hardening, allocation, free and frame-write calls: no page is writable and executable; table frames are distinct, not free, owned by no caller, and no boot table; callers own what the replies gave them and no reply ever gave out a frame that was a table; upper-half addresses keep their targets, which are never tables |
| `Kernel.BootAddressSpace` | kernel/src/kmain.rs:229-244 | `vmm::init` then `harden_boot_map`, which returns 2048: the exact address space, no 1 GiB page, no client frame, write-xor-execute exactly when hardened with NX; it fails only over a rejected layout or with no more frames than the tables can take |
| `Kernel.InitThenHarden` | kernel/src/memory/vmm.rs:475-758 | before hardening the address space is never write-xor-execute (VA 0 breaks it); after hardening it is, if and only if NX is available |
| `Kernel.AllFramesPooled` | kernel/src/memory/vmm.rs:167-186 | when callers hold nothing, the frames handed out are no more than the page-table frames |
| `Kernel.HardenTargets` | kernel/src/memory/vmm.rs:705-758 | hardening what `init` leaves moves no address, maps none and unmaps none |
| `Kernel.InitExact` | kernel/src/memory/vmm.rs:475-633 | what `init` leaves: which addresses are mapped, where each leads, with which rights and with which entry, bit for bit |
| `Kernel.HardenExact` | kernel/src/memory/vmm.rs:705-758 | hardening keeps all of that, takes execution away below the upper half and makes those pages uncached |
| `Kernel.CacheBits` | kernel/src/memory/vmm.rs:60-107 | every leaf by bit number: write-through and no-cache on the VGA page alone in the upper half, global on every other page there; below, never global or write-through, and no-cache exactly after hardening |
| `Kernel.VgaEntry` | kernel/src/memory/vmm.rs:626-633 | with NX the VGA page is the entry 0x80000000000B801B at 0xFFFFFFFF800B8000 |
| `Kernel.Landmarks` | kernel/src/memory/vmm.rs:475-633 | the heap, the identity map and its alias below 512 GiB, by their addresses |
| `Kernel.RewritesAll` | kernel/src/memory/vmm.rs:705-758 | after boot, hardened or not, `harden_boot_map` rewrites and returns 2048 entries: four PDPT slots of 512 |
| `Kernel.InitBootLarge` | kernel/src/memory/vmm.rs:484-503 | after `init` every boot-mapped address lies in a 2 MiB page at its own physical address |
| `Kernel.HardenBootLarge` | kernel/src/memory/vmm.rs:705-758 | and hardening keeps it so |
| `Kernel.IdentityStray` | kernel/src/memory/vmm.rs:305-389 | `map_4k` of any identity address after boot, hardened or not: the entry is stored in the first frame behind the 2 MiB page; the address keeps its leaf unless its own walk reads that word, and if the frame is no table nothing changes |
| `Kernel.MapThenHarden` | kernel/src/memory/vmm.rs:705-758 | from what boot leaves, hardened or not, to a state in which hardening loses a page: one page mapped at 2 GiB, then hardened |
| `Kernel.GainedApart` | kernel/src/memory/pmm.rs:391-423 | what the allocator hands out is neither a table nor held by a caller |
| `Kernel.PerformMap` | kernel/src/memory/vmm.rs:342-389 | a `map_4k` call with any profile keeps write-xor-execute, the ownership of every frame and every upper-half target, also when it panics half-way |
| `Kernel.PerformHarden` | kernel/src/memory/vmm.rs:705-758 | hardening again at any point of a run does not panic, keeps the invariant and every upper-half target |
| `Kernel.PerformFrames` | kernel/src/memory/pmm.rs:391-455 | an allocator call by a caller that frees only its own frames is one allocator step; the caller gains and loses exactly what the reply says, and nothing gained is a table or held by someone else |
| `Kernel.TablesIsolated` | kernel/src/memory/vmm.rs:167-186 | no page-table frame is free or held by a caller, and no pool frame is a boot table |
| `Kernel.ClientWrite` | kernel/src/memory/vmm.rs:167-186 | whatever a caller writes to a frame it was given, no address changes its translation |
| `Kernel.HeldAfterCall` | kernel/src/memory/pmm.rs:391-455 | an allocator call other than freeing a page-table frame leaves every table held, and changes the callers' frames by exactly what it gave or took |
| `Kernel.TargetReserved` | kernel/src/memory/vmm.rs:475-633 | every upper-half leaf made by `init` points into a reserved range, so never at an allocatable frame or a boot table |
| `Kernel.SpaceNoGiant` | kernel/src/memory/vmm.rs:475-633 | `init` leaves no 1 GiB page anywhere |
| `Vmm.Vmm.constructor` | kernel/src/memory/vmm.rs:160-165 | the machine before `init`: no pool frame, no kernel root, boot tables neither free nor handed out |
| `Vmm.Vmm.PoolAlloc` | kernel/src/memory/vmm.rs:167-186 | a new table frame is zeroed, new to the pool, no boot table, and taken from the free frames; it fails only when none is free; no translation changes |
| `Vmm.Vmm.Descend` | kernel/src/memory/vmm.rs:305-335 | a present entry gives its address, large page or not, and changes nothing; an absent one gets a fresh table; on a path without large pages the result is the next table and no translation changes |
| `Vmm.Vmm.MapPage` | kernel/src/memory/vmm.rs:354-383 | one page, with or without a large page on its path: it is mapped if and only if no large page stands in the way; otherwise the entry is compared and stored in the memory behind that page; every panic with its cause |
| `Vmm.Vmm.Map4k` | kernel/src/memory/vmm.rs:342-389 | where no large page stands in the way, a flat map: exactly the pages of the range get `pa + offset` with the effective flags, every other address is as before, no mapped address moves; each panic is matched to its cause; no more tables are taken than levels and boundaries ask for; the allocator stays in order in every case |
| `Vmm.Vmm.DescendAll` | kernel/src/memory/vmm.rs:361-371 | the three descents end at the last table of the path, or at the memory behind the 2 MiB page on it |
| `Vmm.Vmm.Hang` | kernel/src/memory/vmm.rs:317-334 | a fresh zeroed table under an absent entry; on a path no translation changes |
| `Vmm.StrayStore` | kernel/src/memory/vmm.rs:372-382 | a store to any frame, table or not: a walk that reads the stored entry goes on from it, every other walk is as before |
| `Vmm.StraySpace` | kernel/src/memory/vmm.rs:372-382 | such a store changes no translation if and only if every walk through the stored entry ends as before; in a frame that is no table it never does |
| `Vmm.StrayRemaps` | kernel/src/memory/vmm.rs:372-382 | in a live last-level table such a store maps another page, and its translation changes unless the entry was there already |
| `Vmm.Vmm.MapRegion` | kernel/src/memory/vmm.rs:574-633 | a region is laid over the ones before it; it fails only when it is not page-aligned or frames run out, never over a page mapped elsewhere or outside the canonical range |
| `Vmm.Vmm.MapImage` | kernel/src/memory/vmm.rs:547-591 | the four sections with their permissions, laid over the boot map; it fails only over sections that cannot be mapped or without frames |
| `Vmm.Vmm.MapWindows` | kernel/src/memory/vmm.rs:600-633 | the heap at its fixed address and one VGA page, laid over the image; it fails only over a heap that cannot be mapped or without frames |
| `Vmm.Vmm.Inherit` | kernel/src/memory/vmm.rs:476-503 | a fresh root that maps exactly the boot subtree under slot 0; it fails only when no frame is free |
| `Vmm.Vmm.Init` | kernel/src/memory/vmm.rs:475-676 | the finished address space is the boot subtree overlaid by the regions of the layout, and CR3 names it; it panics only over a layout it rejects, section lengths included, or without frames; it takes at most one table per level and region and one per boundary crossed; callers' frames are untouched |
| `KernelMap.NeverElsewhere` | kernel/src/memory/vmm.rs:374-381 | no region of `init` finds one of its pages mapped elsewhere |
| `KernelMap.TablesBound` | kernel/src/memory/vmm.rs:475-633 | 16 MiB of image and 16 MiB of heap take at most 55 tables |
| `Vmm.Vmm.HardenBootMap` | kernel/src/memory/vmm.rs:705-758 | the live hierarchy is hardened and stays well formed; it panics only over a 1 GiB page |
| `Vmm.Vmm.CountWxViolations` | kernel/src/memory/vmm.rs:771-822 | the audit counts the writable and executable leaves, and is 0 with NX exactly when there are none |
| `Vmm.AllocateFrame` | kernel/src/memory/pmm.rs:305-309 | takes one free frame, and fails only when nothing is free |
| `AddressSpace.MappedTarget` | kernel/src/memory/vmm.rs:342-389 | a mapped address translates to `pa` plus its offset if and only if that fits in 52 bits |
| `AddressSpace.MapKeepsNoWx` | kernel/src/memory/vmm.rs:94-144 | mapping any range with any profile under NX adds no writable and executable page |
| `AddressSpace.NoWxByAddress` | kernel/src/memory/vmm.rs:841-881 | write-xor-execute over table entries is write-xor-execute over what `translate` returns for canonical addresses |
| `AddressSpace.LeafDecides` | kernel/src/memory/vmm.rs:318-334 | in every hierarchy the kernel builds, the leaf alone gives the rights of section 4.6 of the Intel SDM Volume 3A, and user mode has none |
| `AddressSpace.OnePageMore` | kernel/src/memory/vmm.rs:353-384 | one more page extends the mapped range and keeps every earlier target |
| `AddressSpace.NextMissing` | kernel/src/memory/vmm.rs:305-335 | after a mapped page the next one misses at most one table per 2 MiB, 1 GiB or 512 GiB boundary crossed |
| `AddressSpace.OnePageTables` | kernel/src/memory/vmm.rs:353-384 | so the tables taken stay within one per level and one per boundary |
| `PageTable.ExtendKeepsWalks` | kernel/src/memory/vmm.rs:318-334 | hanging an empty table under an absent entry changes no walk |
| `PageTable.ExtendLinked` | kernel/src/memory/vmm.rs:318-334 | and keeps the hierarchy well formed |
| `PageTable.SetLeafWalk` | kernel/src/memory/vmm.rs:372-382 | storing a last-level entry changes one walk and no other, because no other path reaches that table |
| `PageTable.SetLeafLinked` | kernel/src/memory/vmm.rs:372-382 | and keeps the hierarchy well formed |
| `PageTable.PathDetermined` | kernel/src/memory/vmm.rs:305-335 | two walks that meet in a table outside the shared boot directories took the same path |
| `PageTable.PathInShape` | kernel/src/memory/vmm.rs:305-335 | every walk stays inside the recorded tables, at the level and slot recorded |
| `PageTable.OutsideWrite` | kernel/src/memory/vmm.rs:167-186 | writing a frame that is no table changes no walk |
| `Paging.FlagsAreMasks` | kernel/src/memory/vmm.rs:295-297 | the flag tests are the masks of the code |
| `Paging.EntryAddrIsMask` | kernel/src/memory/vmm.rs:269-273 | the address of an entry is the mask of the code |
| `Paging.IndicesAreShifts` | kernel/src/memory/vmm.rs:257-266 | the four indices are the shifts and masks of the code |
| `Paging.OrIsSum` | kernel/src/memory/vmm.rs:382 | or-ing flags into an aligned address is addition |
| `Paging.IndicesDeterminePage` | kernel/src/memory/vmm.rs:257-266 | canonical addresses share all four indices exactly when they share a page |
| `Paging.VaOfIndices` | kernel/src/memory/vmm.rs:257-266 | every index path is that of a canonical address |
| `Paging.EffectiveFlags` | kernel/src/memory/vmm.rs:138-144 | every profile is present, supervisor-only and not large, is never writable and executable under NX, and has no NX bit without it |
| `Paging.PermRights` | kernel/src/memory/vmm.rs:94-109 | which profiles may be written and which may be executed |
| `KernelMap.SectionsPositive` | kernel/src/memory/vmm.rs:529-571 | the assertions of `init` alone make the first three regions computable and non-empty and keep all regions apart |
| `KernelMap.LastSectionEmpty` | kernel/src/memory/vmm.rs:566-570 | the fourth region is empty if and only if `.bss` starts on a 2 MiB boundary and nothing of the image lies above it |
| `KernelMap.InheritedSpace` | kernel/src/memory/vmm.rs:484-503 | the new root maps the boot subtree under slot 0 and nothing else |
| `KernelMap.MappedExactly` | kernel/src/memory/vmm.rs:475-633 | an address is mapped exactly when it lies in the boot subtree, a section, the heap or the VGA page |
| `KernelMap.BootTarget` | arch/x86_64/boot/boot.asm:226-262 | every boot-mapped address, 510..512 GiB included, reaches the physical address of its last 31 bits |
| `KernelMap.HeapGuarded` | kernel/src/memory/vmm.rs:600-614 | both pages next to the heap are unmapped |
| `KernelMap.HeapSlot` | kernel/src/memory/vmm.rs:600-614 | the heap lies under PML4[511] from PDPT[508] on |
| `KernelMap.UpperHalfTarget` | kernel/src/memory/vmm.rs:475-633 | an upper-half address translates into the physical range of the region that covers it, with its flags |
| `KernelMap.UpperHalfRights` | kernel/src/memory/vmm.rs:475-633 | for every upper-half address: image addresses reach the address they are linked at, heap addresses the heap; only text is executable, and only data, heap and the VGA page are writable |
| `KernelMap.UpperHalfNoWx` | kernel/src/memory/vmm.rs:475-633 | no region of the kernel is writable and executable under NX |
| `KernelMap.UpperHalfSmall` | kernel/src/memory/vmm.rs:342-389 | in the upper half every path is free of large pages, as `map_4k` needs |
| `Harden.HardenBootMap` | kernel/src/memory/vmm.rs:705-758 | exactly the directories under PML4[0] are rewritten and counted once per slot; it panics exactly over a 1 GiB entry |
| `Harden.HardenDirectory` | kernel/src/memory/vmm.rs:734-745 | every present entry of one directory is rewritten in place, the others are left, and the count is of present entries |
| `Harden.HardenEntryFields` | kernel/src/memory/vmm.rs:736-744 | a rewritten entry keeps its address and is a supervisor-only large page, non-executable exactly with NX |
| `Harden.HardenKeepsPages` | kernel/src/memory/vmm.rs:705-758 | all pages keep their place and size if and only if no last-level table hangs under PML4[0] |
| `Harden.HardenKeepsTargets` | kernel/src/memory/vmm.rs:705-758 | the target of every address, mapped or not, is kept if and only if every small page under PML4[0] lies where the large page that replaces its table puts it |
| `Harden.SmallPageLost` | kernel/src/memory/vmm.rs:705-758 | where such a table hung, the pointer to it becomes a large page |
| `Harden.LargePageWalk` | kernel/src/memory/vmm.rs:705-758 | a large page keeps its address and loses user and execute rights |
| `Harden.OtherSlotsUnchanged` | kernel/src/memory/vmm.rs:705-758 | nothing changes under any other PML4 slot |
| `Harden.BootSlotWalk` | kernel/src/memory/vmm.rs:705-758 | what every path through PML4[0] reads afterwards |
| `Harden.HardenedNoWx` | kernel/src/memory/vmm.rs:705-758 | hardening establishes write-xor-execute if and only if NX is available |
| `Harden.HardenNoGiant` | kernel/src/memory/vmm.rs:705-758 | hardening makes no 1 GiB page |
| `Harden.GiantEntry` | kernel/src/memory/vmm.rs:720-733 | the assertion of the code fires only over a 1 GiB page |
| `Harden.HardenIdempotent` | kernel/src/memory/vmm.rs:705-758 | hardening twice is hardening once, although each shared directory is rewritten twice per call |
| `Harden.HardenLinked` | kernel/src/memory/vmm.rs:705-758 | the hierarchy stays well formed with the same tables |
| `Audit.CountWxViolations` | kernel/src/memory/vmm.rs:771-822 | the nested loops count the set of writable and executable leaf paths, each path through a shared table once |
| `Audit.ScanTable` | kernel/src/memory/vmm.rs:810-816 | last level: each violating entry is one violating path |
| `Audit.ScanDirectory` | kernel/src/memory/vmm.rs:798-817 | second level: large pages counted, tables descended |
| `Audit.ScanPdpt` | kernel/src/memory/vmm.rs:786-818 | third level: 1 GiB pages counted, directories descended |
| `Audit.NoLeavesIsNoWx` | kernel/src/memory/vmm.rs:824-835 | with NX the audit finds nothing exactly when no page is writable and executable |
| `Audit.NoLeavesWithoutNx` | kernel/src/memory/vmm.rs:824-835 | without NX the audit reports nothing at all |
| `Audit.LinkedIsReadable` | kernel/src/memory/vmm.rs:771-822 | every hierarchy the kernel builds can be walked by the audit |
| `BootTables.BuildBootTables` | arch/x86_64/boot/boot.asm:226-262 | from zeroed tables, every entry of the four tables |
| `BootTables.WriteLinks` | arch/x86_64/boot/boot.asm:226-240 | the two PML4 and four PDPT links |
| `BootTables.FillDirectory` | arch/x86_64/boot/boot.asm:242-262 | one fill loop: 512 consecutive 2 MiB pages |
| `BootTables.BootWalk` | arch/x86_64/boot/boot.asm:226-262 | what every path reads in the boot tables, including the 510..512 GiB alias under PML4[0] |
| `BootTables.BootAlias` | arch/x86_64/boot/boot.asm:226-262 | for every x below 2 GiB, x and KERNEL_VMA + x both translate to x through the same writable, executable entry |
| `Bitmap.BitSet` | kernel/src/memory/pmm.rs:68-70 | adds one frame to the set of free frames |
| `Bitmap.BitClear` | kernel/src/memory/pmm.rs:73-75 | removes one frame from the set of free frames |
| `Bitmap.BitTest` | kernel/src/memory/pmm.rs:78-80 | tells whether a frame is free |
| `Bitmap.NextFree` | kernel/src/memory/pmm.rs:87-110 | the first free frame at or after `from` in the words that hold `limit`, or none there |
| `Bitmap.NextFreeLimit` | kernel/src/memory/pmm.rs:87-110 | its answer respects `limit` if and only if a frame below the limit is free or the rest of the last word holds none |
| `Bitmap.NextFreePassesLimit` | kernel/src/memory/pmm.rs:96-99 | a bitmap on which it answers 5 for a limit of 3 |
| `Bitmap.NextFreeRun` | kernel/src/memory/pmm.rs:114-139 | the lowest aligned, wholly free run in range; `count == 0` answers `from`; it panics if and only if one of its sums leaves 64 bits |
| `Bitmap.RunFree` | kernel/src/memory/pmm.rs:122-135 | tells whether a run is wholly free |
| `Bitmap.SmallRunFits` | kernel/src/memory/pmm.rs:114-139 | searches of ordinary size never overflow |
| `Bitmap.RoundUp` | kernel/src/memory/pmm.rs:118-123 | the rounding of the run search is the next multiple |
| `Pmm.Pmm.constructor` | kernel/src/memory/pmm.rs:166-176 | an empty bitmap and zero counters |
| `Pmm.Pmm.Init` | kernel/src/memory/pmm.rs:219-291 | free frames are exactly those wholly inside one available entry below 2 GiB; bad frames are those of type 4 entries; it stops exactly on a second call or when a statistic overflows |
| `Pmm.Pmm.CountEntry` | kernel/src/memory/pmm.rs:228-262 | the bytes above the boot map and the bad frames of one entry, and whether a sum overflows |
| `Pmm.BadByType` | kernel/src/memory/pmm.rs:252-254 | the bad frames are the whole frames of the entries of type 4 |
| `Pmm.OtherTypes` | kernel/src/memory/pmm.rs:240-262 | an entry of any type but 1 frees nothing, and one of any type but 1 and 4 changes no counter |
| `Pmm.UsableByNumbers` | kernel/src/memory/pmm.rs:228-279 | the usable frames: whole 4 KiB frames below 2 GiB inside one entry of type 1 |
| `Pmm.Pmm.FreeEntry` | kernel/src/memory/pmm.rs:228-279 | one entry of the memory map |
| `Pmm.Pmm.FreeRange` | kernel/src/memory/pmm.rs:359-373 | frees the frames wholly inside the range |
| `Pmm.Pmm.ReserveRange` | kernel/src/memory/pmm.rs:375-389 | takes the frames the range touches, and counts those that were free |
| `Pmm.Pmm.Find` | kernel/src/memory/pmm.rs:397-415 | search from the cursor, then once more from the beginning up to it; it panics exactly when one of the two searches overflows |
| `Pmm.Pmm.Allocate` | kernel/src/memory/pmm.rs:391-423 | one step of the allocator: the answer, the moved frames, the counters and the cursor; it stops exactly before `init` or when a search overflows |
| `Pmm.Pmm.Deallocate` | kernel/src/memory/pmm.rs:425-455 | one step of the allocator: frees the frame, or stops on a free or foreign one |
| `Pmm.OutwardRounding` | kernel/src/memory/pmm.rs:375-389 | the frame numbers reserved are those the range touches |
| `Pmm.InwardRounding` | kernel/src/memory/pmm.rs:359-373 | the frame numbers freed are those the range contains |
| `PmmRuns.RunConserves` | kernel/src/memory/pmm.rs:359-455 | in every state of every run by owners: free, reserved and outstanding frames add up to the total and are disjoint |
| `PmmRuns.StepConserves` | kernel/src/memory/pmm.rs:359-455 | each call keeps that |
| `PmmRuns.DeallocateNeedsOwner` | kernel/src/memory/pmm.rs:425-455 | a free keeps the books if and only if it stops or the frame was outstanding |
| `BootMemory.FreeingReserved` | kernel/src/memory/pmm.rs:433 | after boot, freeing frame 0 is accepted and breaks the books |
| `PmmRuns.StepDetermined` | kernel/src/memory/pmm.rs:391-455 | the step relation is a function: reply and new state are determined by the old state and the call |
| `PmmRuns.SingleFrameComplete` | kernel/src/memory/pmm.rs:391-423 | a one-frame request fails exactly when nothing is free, and otherwise answers the first free frame at or after the cursor, else the lowest free frame |
| `PmmRuns.RovingFit` | kernel/src/memory/pmm.rs:391-423 | two calls: after an answered request and any frees and reservations, the next one-frame request is answered with the lowest free frame at or after the end of the first answer, else with the lowest free frame |
| `PmmRuns.FreedFrameRests` | kernel/src/memory/pmm.rs:391-455 | with frames 4 and 5 free: allocate, free, allocate answers 4 and then 5 |
| `PmmRuns.FreeUndoesAllocate` | kernel/src/memory/pmm.rs:391-455 | freeing the frame just handed out restores everything but the cursor; freeing it again stops |
| `PmmRuns.AlignmentPromise` | kernel/src/memory/pmm.rs:311-325 | the promised alignment holds for every answered request if and only if more than one frame is asked for or no alignment is |
| `PmmRuns.AlignIgnored` | kernel/src/memory/pmm.rs:398-399 | one frame with an alignment of 512 is answered with frame 1 |
| `PmmRuns.ZeroFrames` | kernel/src/memory/pmm.rs:115-117 | no frames: the cursor is answered and nothing moves; the frame named is free if and only if the cursor stands on a free frame, and is outside the managed range when the cursor is at its end |
| `PmmRuns.ContiguousComplete` | kernel/src/memory/pmm.rs:391-423 | a request for more frames stops exactly on overflow, and otherwise fails if and only if every free aligned run straddles the cursor |
| `PmmRuns.SmallRequests` | kernel/src/memory/pmm.rs:391-423 | requests of ordinary size never stop |
| `PmmRuns.StraddlingRunMissed` | kernel/src/memory/pmm.rs:407-413 | two free frames around the cursor are not found |
| `PmmRuns.ReserveIdempotent` | kernel/src/memory/pmm.rs:375-389 | reserving twice is reserving once |
| `PmmRuns.PoolNeverGrows` | kernel/src/memory/pmm.rs:359-455 | no run by owners brings in a frame it did not start with |
| `PmmRuns.FreshFrames` | kernel/src/memory/pmm.rs:391-423 | a frame handed out was free, came from the initial frames and was not outstanding |
| `PmmRuns.OneFrame` | kernel/src/memory/pmm.rs:305-309 | `allocate_frame` moves one free frame, or nothing is free |
| `BootMemory.ReadFrom` | kernel/src/multiboot/info.rs:477-510 | reading in place is parsing exactly the declared bytes, with addresses made absolute; every early rejection, and declared bytes that are not readable |
| `BootMemory.ReserveBootMemory` | kernel/src/kmain.rs:482-565 | all boot ranges are taken from the free frames and counted; it panics exactly when an assertion fails or a sum overflows |
| `BootMemory.ReserveFixed` | kernel/src/kmain.rs:482-505 | the fixed firmware ranges and the kernel image |
| `BootMemory.BootAllocator` | kernel/src/kmain.rs:204-226 | parse, `pmm::init` and reservation in order succeed if and only if the structure parses, its memory counts fit and every range can be reserved; then usable frames of the map less everything reserved |
| `BootMemory.OwnedFrames` | kernel/src/memory/pmm.rs:219-291 | end to end, for every accepted blob and every run by owners: a frame handed out lies in one available entry below 2 GiB, shares no byte with the firmware areas, the image, the structure, a graphics framebuffer, the RSDP page or memory above the limit, and belongs to no one else |
| `BootMemory.LeftIsUnclaimed` | kernel/src/kmain.rs:482-565 | the frames left are exactly the usable ones that share no byte with the first page, 0x9FC00..0x100000, the image, the loader's structure, a framebuffer that is not text, the page of the RSDP, or anything from the limit up |
| `BootMemory.ReadFields` | kernel/src/multiboot/info.rs:477-510 | what those fields are in the bytes read: the declared size, pitch times at least one line, the RSDP where its tag lies in memory |
| `BootMemory.ReservableNumbers` | kernel/src/kmain.rs:482-565 | when the reservations succeed, in fields and numbers |
| `BootMemory.InitTrustsMap` | kernel/src/memory/pmm.rs:228-279 | the frames freed avoid unavailable entries if and only if every available entry is apart from every unavailable one |
| `BootMemory.OverlapHandedOut` | kernel/src/memory/pmm.rs:228-279 | a map whose reserved page is freed |
| `Multiboot.Parse` | kernel/src/multiboot/info.rs:302-395 | the tag walk on every byte string, without an out-of-range read, equals its specification |
| `Multiboot.ParseMmap` | kernel/src/multiboot/info.rs:411-443 | the entry loop: the first 64 entries for any entry size of at least 24 |
| `Multiboot.ParsePrefix` | kernel/src/multiboot/info.rs:302-395 | the result depends only on the first `total_size` bytes |
| `Multiboot.ParseReturns` | kernel/src/multiboot/info.rs:302-395 | parsing the encoding of any tag list, by tag number: last command line (1) and loader name (2), first framebuffer (8), first 64 entries (6), first RSDP (13, 14) by the place of its bytes, last load address (20); and exactly when it fails and how |
| `Multiboot.ParseEncoded` | kernel/src/multiboot/info.rs:302-395 | walking an encoding is applying its tags in order |
| `Multiboot.ApplyAllFails` | kernel/src/multiboot/info.rs:346-386 | tags are refused exactly when a memory map is malformed |
| `Multiboot.ApplyAllMmap` | kernel/src/multiboot/info.rs:357-365 | the memory map and the framebuffer over all tags |
| `Multiboot.ApplyAllNames` | kernel/src/multiboot/info.rs:347-356 | the last names win |
| `Multiboot.ApplyAllRest` | kernel/src/multiboot/info.rs:366-386 | the first RSDP and the last load address win |
| `Multiboot.AcpiAt` | kernel/src/multiboot/info.rs:366-380 | the offset recorded is where the RSDP bytes are in the encoding |
| `Multiboot.MmapRoundTrip` | kernel/src/multiboot/info.rs:411-443 | an encoded memory map of any entry size is read back entry by entry |
| `Multiboot.LeRoundTrip` | kernel/src/multiboot/info.rs:283-296 | little-endian fields read back what was written |
| `Multiboot.FramebufferBytes` | kernel/src/multiboot/info.rs:445-465 | the framebuffer size never saturates |
| `Multiboot.FramebufferRoundTrip` | kernel/src/multiboot/info.rs:445-465 | every field of an encoded framebuffer tag is read back |
| `Multiboot.ParsedSized` | kernel/src/multiboot/info.rs:302-395 | for every byte string that parses: the size is the declared one, and a framebuffer is as long as its pitch times at least one line |
| `Multiboot.AlignIsLeast` | kernel/src/multiboot/info.rs:388 | tags are rounded to the least multiple of 8 not below their end |
| `Multiboot.NextTagAt` | kernel/src/multiboot/info.rs:388 | so that from an encoded and padded tag the walk reaches the next |
| `Utf8.CaptureMeaning` | kernel/src/multiboot/info.rs:154-164 | a captured string is UTF-8, without NUL, at most the capacity; valid text is kept, cut only where the next character does not fit, and other bytes give the fixed replacement |
| `Utf8.CharDecodes` | kernel/src/multiboot/info.rs:154-164 | a leading character is the encoding of one Unicode scalar value |
| `Utf8.EncodingIsChar` | kernel/src/multiboot/info.rs:154-164 | and the encoding of each scalar value is one character |
| `Utf8.FitsMaximal` | kernel/src/multiboot/info.rs:154-164 | `push_str` keeps whole characters, as many as fit |
| `Utf8.TrimNulUtf8` | kernel/src/multiboot/info.rs:404-409 | cutting at a NUL never splits a character |
| `Ring.RingIsFifo` | kernel/src/drivers/keyboard.rs:104-128 | after every interleaving of single loads and stores: delivered followed by queued is accepted, accepted plus dropped is pushed, at most 255 are queued |
| `Ring.StepRefinesQueue` | kernel/src/drivers/keyboard.rs:104-128 | every load and store leaves the queue alone, appends one byte, or delivers the oldest |
| `Ring.DropOnlyWhenFull` | kernel/src/drivers/keyboard.rs:104-128 | a byte is dropped exactly when 255 are queued; a pop is empty exactly when none is |
| `Ring.NoOverwrite` | kernel/src/drivers/keyboard.rs:104-128 | no cell changes between the consumer's look at it and its tail store |
| `Ring.PendingExact` | kernel/src/drivers/keyboard.rs:131-139 | `pending` over its two loads with the handler running in between: the length of the queue at the first load, all of it still queued at the second |
| `Ring.HandlerAppends` | kernel/src/drivers/keyboard.rs:104-118 | however long the handler runs, it only appends to the queue |
| `Input.InputLosesNothing` | kernel/src/drivers/keyboard.rs:794-816 | keyboard to events under every interleaving of loads and stores: events are the decoder folded over the bytes delivered, delivered followed by queued is accepted, and accepted is what arrived with the dropped bytes removed, up to the byte in hand |
| `Input.DrainProgress` | kernel/src/drivers/keyboard.rs:804-816 | under every interleaving a drain never overfills its buffer, and takes a byte if it had a slot and one was queued |
| `Input.RunInv` | kernel/src/drivers/keyboard.rs:794-816 | the invariant of the whole input path |
| `Ring.RunInv` | kernel/src/drivers/keyboard.rs:104-128 | the invariant of the two sides in every reachable state |
| `Keyboard.ScanRing.Push` | kernel/src/drivers/keyboard.rs:104-118 | a full ring counts the byte as dropped, any other appends it |
| `Keyboard.ScanRing.Pop` | kernel/src/drivers/keyboard.rs:120-128 | the oldest byte, or nothing from an empty ring |
| `Keyboard.ScanE0` | kernel/src/drivers/keyboard.rs:279-288 | the scan of the extended table |
| `Keyboard.MapIsLookup` | kernel/src/drivers/keyboard.rs:258-276 | the extended table gives each of its codes its own key |
| `Keyboard.Driver.constructor` | kernel/src/drivers/keyboard.rs:398-408 | a driver with an empty ring, no key held and no prefix pending |
| `Keyboard.Driver.Translate` | kernel/src/drivers/keyboard.rs:447-531 | the in-place update of the decoder state is one step of the decoder |
| `Keyboard.Driver.Stroke` | kernel/src/drivers/keyboard.rs:507-531 | the modifier flags are updated before the character is computed |
| `Keyboard.DecodeEncoded` | kernel/src/drivers/keyboard.rs:447-531 | round trip: the encoding of any keys with any synthetic shifts in between decodes to those keys, with the last modifier events and the matching character |
| `Keyboard.DecodeSynthetic` | kernel/src/drivers/keyboard.rs:481-487 | a synthetic shift is swallowed without a trace |
| `Keyboard.DecodeConcat` | kernel/src/drivers/keyboard.rs:447-531 | decoding is a fold: bytes may be split anywhere |
| `Keyboard.EventsCounted` | kernel/src/drivers/keyboard.rs:447-531 | over any bytes the event counter counts the events of keys in the tables, and neither Pause nor unknown extended keys |
| `Keyboard.UnknownKey` | kernel/src/drivers/keyboard.rs:488-502 | an extended code outside the table is reported with its scancode, no character, and every flag as it was |
| `UsLayout.TypedText` | kernel/src/drivers/keyboard.rs:208-531 | typing is a round trip: every text of printable ASCII and editing characters, with the left shift key held where needed, comes back from the decoder character by character, with no modifier left behind |
| `UsLayout.ModifierBytes` | kernel/src/drivers/keyboard.rs:507-515 | each of the six modifier keys sets its own flag going down and clears it coming up, and changes nothing else |
| `UsLayout.LetterChars` | kernel/src/drivers/keyboard.rs:291-364 | letter keys type a to z, and the code less 32 under shift |
| `UsLayout.DigitChars` | kernel/src/drivers/keyboard.rs:291-364 | digit keys type their digit without shift and a symbol with it |
| `UsLayout.PadDigitChars` | kernel/src/drivers/keyboard.rs:291-364 | keypad digits type their digit either way |
| `UsLayout.KeypadIgnoresShift` | kernel/src/drivers/keyboard.rs:291-364 | no keypad key depends on shift |
| `UsLayout.KeyTypes` | kernel/src/drivers/keyboard.rs:291-364 | the key named for a character types it |
| `UsLayout.DistinctKeys` | kernel/src/drivers/keyboard.rs:291-364 | off the keypad, keys that type the same character without shift are the same key |
| `UsLayout.ScanFinds` | kernel/src/drivers/keyboard.rs:208-242 | the rows of the keyboard, as strings, give the scancode of every key that types |
| `Keyboard.PauseDecodes` | kernel/src/drivers/keyboard.rs:460-473 | the Pause key decodes to four events |
| `Keyboard.PrefixStays` | kernel/src/drivers/keyboard.rs:451-486 | a pending E0 survives the next byte if and only if that byte is a prefix, completes a Pause or is outside the tables |
| `Keyboard.PrefixLeftPending` | kernel/src/drivers/keyboard.rs:460-480 | E0 60 and E0 E1 1D both leave it pending |
| `Keyboard.Driver.Poll` | kernel/src/drivers/keyboard.rs:794-797 | one byte taken and decoded |
| `Keyboard.Driver.Drain` | kernel/src/drivers/keyboard.rs:804-816 | with bytes arriving between its polls: the events of exactly the bytes taken, the rest left in the bounded ring, the overflow counted |
| `Keyboard.Driver.Receive` | kernel/src/drivers/keyboard.rs:104-118 | a burst of pushes keeps what fits and counts the rest as dropped |
| `Keyboard.Driver.PollAfter` | kernel/src/drivers/keyboard.rs:794-797 | arrivals, then one poll |
| `Keyboard.DrainConserves` | kernel/src/drivers/keyboard.rs:804-816 | one drain: popped followed by waiting is what was held and accepted, arrivals are accepted or dropped, and a waiting byte is taken if there is a slot |
| `Keyboard.DrainFits` | kernel/src/drivers/keyboard.rs:804-816 | one drain writes no more events than its buffer holds |
| `Keyboard.DrainEmpties` | kernel/src/drivers/keyboard.rs:804-816 | a quiet drain empties the ring if and only if there is a slot per byte and every byte before the last yields an event |
| `Keyboard.DrainLeavesKey` | kernel/src/drivers/keyboard.rs:804-816 | E0 48 with two slots: the drain stops after the prefix |
| `Keyboard.DrainLosesNothing` | kernel/src/drivers/keyboard.rs:804-816 | over any series of drains with any arrivals: events are the decoder folded over the bytes popped, popped followed by waiting is accepted, accepted plus dropped is arrived, at most 255 wait |
| `Pit.MicrosExact` | kernel/src/interrupts/pit.rs:170-178 | less than a microsecond below the exact rational time, for every tick count |
| `Pit.MicrosStep` | kernel/src/interrupts/pit.rs:170-178 | each tick adds 999 or 1000 microseconds |
| `Pit.MicrosRun` | kernel/src/interrupts/pit.rs:127-178 | any number of ticks adds between 999 and 1000 microseconds each |
| `Pit.ExactBelow` | kernel/src/interrupts/pit.rs:170-178 | the 64-bit result is exact if and only if fewer than 18449558245898500 ticks have passed |
| `Pit.MicrosTruncates` | kernel/src/interrupts/pit.rs:175-177 | at that tick it truncates |
| `Pit.ClockAfter` | kernel/src/interrupts/pit.rs:98-178 | the clock read any number of interrupts after `init` |
| `Pit.MicrosFit` | kernel/src/interrupts/pit.rs:170-178 | the wide product never overflows; the 64-bit result is exact up to a known tick and truncates from there |
| `Pit.UptimeRecomposes` | kernel/src/interrupts/pit.rs:192-206 | the fields are in range and recompose to the seconds; days are never truncated |
| `Pit.Pit.MicrosSinceBoot` | kernel/src/interrupts/pit.rs:170-178 | 0 before `init`; within a microsecond of exact up to the tick where it truncates, and exact less a multiple of 2^64 after it |
| `Vga.PastKept` | kernel/src/console/vga.rs:141-202 | whatever is written, a line that has scrolled off the screen never changes |
| `Vga.TextLaidOut` | kernel/src/console/vga.rs:141-202 | printable text lies end to end from the cursor, across line ends and scrolls, and earlier glyphs stay |
| `Vga.LineEnds` | kernel/src/console/vga.rs:184-192 | newline goes to the start of the next line, also from a line just full, and keeps every glyph; carriage return to the start of this one |
| `Vga.TabStops` | kernel/src/console/vga.rs:146-150 | tab goes to the next multiple of eight, or to column 79, and writes nothing |
| `Vga.CaretPair` | kernel/src/console/vga.rs:151-157 | any other control byte shows as a caret and the byte 64 above it |
| `Vga.BackspaceLaw` | kernel/src/console/vga.rs:171-182 | backspace goes back one place and blanks it, across line starts, unless the cursor is at the top left of the screen |
| `Vga.TypeThenErase` | kernel/src/console/vga.rs:141-182 | typing text and erasing it brings the cursor back if and only if its first place is still on the screen; everything before it stays |
| `Vga.VgaWriter.constructor` | kernel/src/console/vga.rs:103-128 | a blank screen |
| `Vga.VgaWriter.ClearLine` | kernel/src/console/vga.rs:132-139 | blanks one row and no other cell |
| `Vga.VgaWriter.ScrollUp` | kernel/src/console/vga.rs:194-202 | every row moves up one in place, the last is blank |
| `Vga.VgaWriter.NewLine` | kernel/src/console/vga.rs:184-192 | the screen still shows the last 25 lines of the roll |
| `Vga.VgaWriter.Put` | kernel/src/console/vga.rs:162-169 | one glyph, with the delayed wrap |
| `Vga.VgaWriter.Backspace` | kernel/src/console/vga.rs:171-182 | one place back and blank, stopping at the top of the screen |
| `Vga.VgaWriter.WriteByte` | kernel/src/console/vga.rs:141-160 | every byte does to the screen what it does to the roll |
| `Vga.VgaWriter.WriteStr` | kernel/src/console/vga.rs:248-258 | text, with bytes that are not ASCII shown as question marks |

## Left out

- Vmm.Vmm.MapPage: with a 1 GiB page on the path, which no run of the kernel makes, only the allocator's order and the refusal to map are stated.
- Kernel.RunCalls: its callers map only where no large page stands in the way; a call that does not is described by `Vmm.Vmm.MapPage` and may end the invariant.
- BootMemory.ReadFrom: declared bytes that are not all readable count as a failure, even where an end tag comes before them.
- BootMemory.ReserveBootMemory: the memory limit is a parameter; `parse_params`, which reads it from the command line, is not modelled, and neither is the arithmetic of log messages.
- Pmm.Pmm.Deallocate: the release build; the canary that debug builds write into freed frames is not modelled.
- Pmm.Pmm.constructor: per-boot state; the lock around the allocator is not modelled.
- Ring.RingIsFifo: interleavings are sequentially consistent; the acquire and release orderings of the atomics are taken to give that.
- Keyboard.Driver.Translate: the lock, the log line for unknown codes and the presence flags are not modelled; ticks come from a clock function.
- Vga.VgaWriter.WriteByte: glyphs only; colours, the hardware cursor and `put_at` are not modelled.
- Kernel.BootKernel: where the linker script places things is a precondition; the bytes of the information structure and the page-table memory are separate parameters.
- CR3 is a variable naming the root table; TLB flushes, the accessed and dirty bits set by hardware, and the aliasing of a table through the mappings it defines are not modelled.
- `map_2m` has no caller here and overwrites directory entries unconditionally.
- The heap allocator is another project's code behind a thin wrapper.
- Capture of strings and entry lists uses sequences with a capacity instead of the fixed arrays of `heapless`.
- Port I/O, interrupt controllers, descriptor tables, UART and PS/2 controller set-up: hardware effects.
- System calls, PIC and CPU feature tables, user space, panic screens, logging, self-tests and build tools: they would add only easy members.
