/**
 The kernel's own address space: the boot subtree inherited under PML4[0], and on top of it the
 regions that `vmm::init` maps.
 */
module KernelMap {
  import opened Bits
  import opened Wrappers
  import opened Paging
  import opened PageTable
  import opened AddressSpace
  import opened BootTables

  /** Linker symbols and boot parameters that `init` reads. */
  datatype Layout = Layout(textStart: u64, textEnd: u64, rodataStart: u64, rodataEnd: u64, dataStart: u64, dataEnd: u64,
                           bssStart: u64, bssEnd: u64, virtEnd: u64, heapStart: u64, heapEnd: u64)

  datatype Region = Region(va: nat, pa: nat, size: nat, perm: Perm)

  const VGA_PHYS: nat := 0xB8000

  function AlignDown(v: nat): nat {
    v / LARGE_PAGE_SIZE * LARGE_PAGE_SIZE
  }

  function AlignUp(v: nat): nat {
    (v + LARGE_PAGE_SIZE - 1) / LARGE_PAGE_SIZE * LARGE_PAGE_SIZE
  }

  /** The assertions of `init` on the sections: alignment, order and separate 2 MiB regions. */
  predicate SectionsAsserted(l: Layout) {
    && AlignDown(l.textStart) == l.textStart
    && l.textEnd <= l.rodataStart <= l.dataStart <= l.bssStart
    && AlignDown(l.rodataStart) != AlignDown(l.textStart)
    && AlignDown(l.dataStart) != AlignDown(l.rodataStart)
    && AlignDown(l.bssStart) != AlignDown(l.dataStart)
  }

  /** The region arithmetic of `init` neither overflows nor underflows. */
  predicate RegionsComputable(l: Layout) {
    && l.textStart <= AlignDown(l.rodataStart) && l.rodataStart <= AlignDown(l.dataStart)
    && l.dataStart <= AlignDown(l.bssStart)
    && l.virtEnd + LARGE_PAGE_SIZE < U64_SIZE && l.bssStart <= AlignUp(l.virtEnd)
  }

  /** `phys_of`: the physical address of a kernel image address; below the image there is none. */
  function ImagePhys(va: nat): nat {
    if va >= KERNEL_VMA then va - KERNEL_VMA else 0
  }

  /** The four sections of the image, each with its permissions. */
  function ImageRegions(l: Layout): (rs: seq<Region>)
    requires RegionsComputable(l)
    ensures |rs| == 4
  {
    [Region(l.textStart, ImagePhys(l.textStart), AlignDown(l.rodataStart) - l.textStart, TextRoX),
     Region(l.rodataStart, ImagePhys(l.rodataStart), AlignDown(l.dataStart) - l.rodataStart, RoData),
     Region(l.dataStart, ImagePhys(l.dataStart), AlignDown(l.bssStart) - l.dataStart, DataRwNx),
     Region(l.bssStart, ImagePhys(l.bssStart), AlignUp(l.virtEnd) - l.bssStart, DataRwNx)]
  }

  predicate LayoutUsable(l: Layout) {
    && SectionsAsserted(l) && RegionsComputable(l) && KERNEL_VMA <= l.textStart
    && l.heapStart <= l.heapEnd <= BOOT_MAPPED_BYTES
    && KERNEL_VMA <= l.rodataStart && KERNEL_VMA <= l.dataStart && KERNEL_VMA <= l.bssStart
  }

  function HeapRegion(l: Layout): Region
    requires l.heapStart <= l.heapEnd
  {
    Region(HEAP_VIRT_START, l.heapStart, l.heapEnd - l.heapStart, DataRwNx)
  }

  function VgaRegion(): Region {
    Region(KERNEL_VMA + VGA_PHYS, VGA_PHYS, PAGE_SIZE, Device)
  }

  /** Everything `init` maps, in order: the image sections, the heap and the VGA text buffer. */
  function KernelRegions(l: Layout): seq<Region>
    requires LayoutUsable(l)
  {
    ImageRegions(l) + [HeapRegion(l)] + [VgaRegion()]
  }

  predicate Covers(r: Region, x: nat) {
    r.va <= x < r.va + r.size
  }

  /** `w` is what an address maps to after `regions` were laid over `base`: the last region that covers it decides. */
  ghost predicate Overlaid(w: Walk, base: Walk, regions: seq<Region>, nx: bool, x: nat) {
    if regions == [] then w == base else
    var r := regions[|regions| - 1];
    if Covers(r, x) then w.Leaf? && w.span == PAGE_SIZE && w.entry == PageEntry(r.va, r.pa, x, Effective(r.perm, nx))
    else Overlaid(w, base, regions[..|regions| - 1], nx, x)
  }

  /** What is mapped before any region: the boot subtree under PML4[0]. */
  function InheritedLeaf(ix: Ix): Walk {
    if ix.i4 == 0 then BootLeaf(ix) else Absent
  }

  /** The whole address space at `root`. */
  ghost predicate SpaceIs(m: Mem, root: nat, regions: seq<Region>, nx: bool) {
    forall x: nat | Canonical(x) ::
      Overlaid(WalkFrom(m, root, Indices(x)), InheritedLeaf(Indices(x)), regions, nx, x)
  }

  predicate RegionAligned(r: Region) {
    r.size > 0 ==> r.va % PAGE_SIZE == 0 && r.pa % PAGE_SIZE == 0 && r.size % PAGE_SIZE == 0
  }

  /**
   What the assertions of `init` give by themselves, for a text section that does not end before it starts: the first three
   regions are computable without underflow, none of them is empty, and no two regions overlap.
   */
  lemma SectionsPositive(l: Layout)
    requires SectionsAsserted(l) && l.textStart <= l.textEnd
    ensures l.textStart < AlignDown(l.rodataStart) <= l.rodataStart < AlignDown(l.dataStart) <= l.dataStart
    ensures l.dataStart < AlignDown(l.bssStart) <= l.bssStart
  {
    hide AlignDown;
    DownMonotone(l.textStart, l.rodataStart);
    DownMonotone(l.rodataStart, l.dataStart);
    DownMonotone(l.dataStart, l.bssStart);
  }

  lemma DownMonotone(v: nat, w: nat)
    requires v <= w
    ensures AlignDown(v) <= v && AlignDown(w) <= w
    ensures AlignDown(v) != AlignDown(w) ==> v < AlignDown(w)
  {
  }

  /** The last region is empty exactly when `.bss` starts on a 2 MiB boundary and nothing of the image lies above it. */
  lemma LastSectionEmpty(l: Layout)
    requires RegionsComputable(l)
    ensures ImageRegions(l)[3].size == 0 <==>
              l.bssStart % LARGE_PAGE_SIZE == 0 && l.virtEnd <= l.bssStart < l.virtEnd + LARGE_PAGE_SIZE
  {
  }

  lemma SectionsOrdered(l: Layout)
    requires SectionsAsserted(l) && RegionsComputable(l)
    ensures l.textStart < AlignDown(l.rodataStart) <= l.rodataStart < AlignDown(l.dataStart) <= l.dataStart
    ensures l.dataStart < AlignDown(l.bssStart) <= l.bssStart <= AlignUp(l.virtEnd) < U64_SIZE
  {
    DownBelow(l.rodataStart);
    DownBelow(l.dataStart);
    DownBelow(l.bssStart);
    assert AlignUp(l.virtEnd) <= l.virtEnd + LARGE_PAGE_SIZE - 1;
  }

  lemma DownBelow(v: nat)
    ensures AlignDown(v) <= v && AlignDown(AlignDown(v)) == AlignDown(v)
  {
  }

  /** `map_4k` accepts the region: address, target and size are page-aligned. */
  predicate MapAligned(r: Region) {
    r.va % PAGE_SIZE == 0 && r.pa % PAGE_SIZE == 0 && r.size % PAGE_SIZE == 0
  }

  /** The sections lie in the kernel's window and are page-aligned. */
  predicate ImageMappable(l: Layout)
    requires RegionsComputable(l)
  {
    forall reg | reg in ImageRegions(l) :: reg.va >= KERNEL_VMA && RegionAligned(reg)
  }

  predicate HeapMappable(l: Layout) {
    l.heapStart <= l.heapEnd <= BOOT_MAPPED_BYTES && MapAligned(HeapRegion(l))
  }

  /** No section ends before it starts; `init` subtracts the bounds for its report. */
  predicate SectionsMeasured(l: Layout) {
    l.textStart <= l.textEnd && l.rodataStart <= l.rodataEnd && l.dataStart <= l.dataEnd && l.bssStart <= l.bssEnd
  }

  /** Everything that `init` asks of the linker's symbols. */
  predicate LayoutMappable(l: Layout) {
    SectionsAsserted(l) && RegionsComputable(l) && ImageMappable(l) && HeapMappable(l) && SectionsMeasured(l)
  }

  /** Tables that mapping the regions can take. */
  function TablesIn(regions: seq<Region>): int {
    if regions == [] then 0 else
    var r := regions[|regions| - 1];
    TablesIn(regions[..|regions| - 1]) + TablesFor(r.va, r.size / PAGE_SIZE)
  }

  lemma OneRegionMore(regions: seq<Region>, i: nat)
    requires i < |regions|
    ensures TablesIn(regions[..i + 1]) == TablesIn(regions[..i]) + TablesFor(regions[i].va, regions[i].size / PAGE_SIZE)
    ensures 0 <= TablesIn(regions[..i]) <= TablesIn(regions[..i + 1]) <= TablesIn(regions)
  {
    hide TablesFor;
    assert regions[..i + 1][..i] == regions[..i];
    TablesGrow(regions[i].va, 0, regions[i].size / PAGE_SIZE);
    TablesPrefix(regions, i + 1);
    TablesPrefix(regions[..i], 0);
    assert regions[..i][..0] == [];
  }

  lemma {:induction false} TablesPrefix(regions: seq<Region>, i: nat)
    requires i <= |regions|
    ensures TablesIn(regions[..i]) <= TablesIn(regions)
    decreases |regions|
  {
    hide TablesFor;
    if i < |regions| {
      var n := |regions| - 1;
      assert regions[..n][..i] == regions[..i];
      TablesPrefix(regions[..n], i);
      TablesGrow(regions[n].va, 0, regions[n].size / PAGE_SIZE);
    } else {
      assert regions[..i] == regions;
    }
  }

  /** As many table frames as building the address space can take: the root, and those of the regions. */
  function TablesNeeded(l: Layout): int
    requires LayoutMappable(l)
  {
    1 + TablesIn(ImageRegions(l)) + WindowTables(l)
  }

  /** Those of the heap and the VGA page. */
  function WindowTables(l: Layout): int
    requires l.heapStart <= l.heapEnd
  {
    TablesFor(HEAP_VIRT_START, (l.heapEnd - l.heapStart) / PAGE_SIZE) + 3
  }

  lemma NeededSum(l: Layout)
    ensures LayoutMappable(l) ==> TablesNeeded(l) == 1 + TablesIn(ImageRegions(l)) + WindowTables(l)
    ensures LayoutMappable(l) ==> l.heapStart <= l.heapEnd && 0 <= TablesIn(ImageRegions(l)) && 3 <= WindowTables(l)
  {
    if LayoutMappable(l) {
      TablesPrefix(ImageRegions(l), 0);
      assert ImageRegions(l)[..0] == [];
      TablesGrow(HEAP_VIRT_START, 0, (l.heapEnd - l.heapStart) / PAGE_SIZE);
    }
  }

  /** For the image and heap sizes of the linker script, few frames are enough: 16 MiB of each need at most 55. */
  lemma TablesBound(l: Layout)
    requires LayoutMappable(l)
    requires AlignUp(l.virtEnd) - l.textStart <= 0x100_0000 && l.heapEnd - l.heapStart <= 0x100_0000
    ensures TablesNeeded(l) <= 55
  {
    hide AlignDown, AlignUp, SectionsAsserted, RegionAligned, TablesFor, TablesIn;
    SectionsOrdered(l);
    ImageTables(l);
    ShortRange(HEAP_VIRT_START, l.heapEnd - l.heapStart);
  }

  lemma ImageTables(l: Layout)
    requires SectionsAsserted(l) && RegionsComputable(l) && AlignUp(l.virtEnd) - l.textStart <= 0x100_0000
    ensures TablesIn(ImageRegions(l)) <= 32
  {
    hide AlignDown, AlignUp, SectionsAsserted, TablesFor, TablesIn;
    SectionsOrdered(l);
    var rs := ImageRegions(l);
    assert rs[0].size + rs[1].size + rs[2].size + rs[3].size <= 0x100_0000;
    FourRegions(rs);
    FloorSum(rs[0].size, rs[1].size, rs[2].size, rs[3].size);
    ShortRange(rs[0].va, rs[0].size);
    ShortRange(rs[1].va, rs[1].size);
    ShortRange(rs[2].va, rs[2].size);
    ShortRange(rs[3].va, rs[3].size);
  }

  lemma FourRegions(rs: seq<Region>)
    requires |rs| == 4
    ensures TablesIn(rs) ==
              TablesFor(rs[0].va, rs[0].size / PAGE_SIZE) + TablesFor(rs[1].va, rs[1].size / PAGE_SIZE)
              + TablesFor(rs[2].va, rs[2].size / PAGE_SIZE) + TablesFor(rs[3].va, rs[3].size / PAGE_SIZE)
  {
    hide TablesFor, TablesIn;
    OneRegionMore(rs, 0);
    OneRegionMore(rs, 1);
    OneRegionMore(rs, 2);
    OneRegionMore(rs, 3);
    assert rs[..4] == rs && rs[..0] == [];
    NoRegions();
  }

  lemma NoRegions()
    ensures TablesIn([]) == 0
  {
  }

  lemma FloorSum(a: nat, b: nat, c: nat, d: nat)
    requires a + b + c + d <= 0x100_0000
    ensures a / LARGE_PAGE_SIZE + b / LARGE_PAGE_SIZE + c / LARGE_PAGE_SIZE + d / LARGE_PAGE_SIZE <= 8
  {
  }

  lemma ShortRange(va: nat, size: nat)
    requires size <= 0x100_0000
    ensures TablesFor(va, size / PAGE_SIZE) <= 5 + size / LARGE_PAGE_SIZE + 1
  {
    var last := va + (if size / PAGE_SIZE == 0 then 0 else (size / PAGE_SIZE - 1) * PAGE_SIZE);
    assert va <= last <= va + size;
    assert last / LARGE_PAGE_SIZE - va / LARGE_PAGE_SIZE <= size / LARGE_PAGE_SIZE + 1;
    assert last / HUGE_PAGE_SIZE - va / HUGE_PAGE_SIZE <= 1;
    assert last / 0x80_0000_0000 - va / 0x80_0000_0000 <= 1;
  }

  /** Regions of the image and windows onto it: every address is backed by the physical address it is linked at. */
  ghost predicate Direct(regions: seq<Region>) {
    forall r | r in regions && r.size > 0 ::
      && KERNEL_VMA <= r.va && r.pa == r.va - KERNEL_VMA && r.va + r.size <= U64_SIZE && RegionAligned(r)
  }

  /** Wherever `reg` overlaps a region laid before it, both have the same target. */
  ghost predicate Agrees(reg: Region, regions: seq<Region>) {
    forall r, x: nat | r in regions && Covers(r, x) && Covers(reg, x) :: r.pa + (x - r.va) == reg.pa + (x - reg.va)
  }

  ghost predicate AlignedAll(regions: seq<Region>) {
    forall r | r in regions :: RegionAligned(r) && r.va >= HIGH_HALF && r.size < 0x8000_0000_0000 && r.pa < 0x8000_0000_0000
  }

  /** So mapping `reg` never finds one of its pages mapped elsewhere. */
  lemma NeverElsewhere(m: Mem, root: nat, regions: seq<Region>, nx: bool, reg: Region, x: nat)
    requires SpaceIs(m, root, regions, nx) && AlignedAll(regions) && Agrees(reg, regions)
    requires Canonical(x) && x >= HIGH_HALF && Covers(reg, x) && reg.va % PAGE_SIZE == 0 && x % PAGE_SIZE == 0
    ensures !MapsElsewhere(m, root, Indices(x), reg.pa + (x - reg.va))
  {
    hide WalkFrom, Indices, Effective, EntryAddr, Canonical, Overlaid;
    HighIndex(x);
    var w := WalkFrom(m, root, Indices(x));
    if w.Leaf? {
      var r := OverlaidRegion(w, Absent, regions, nx, x);
      EffectiveFlags(r.perm, nx);
      EntryFields(r.pa + (x - r.va) / PAGE_SIZE * PAGE_SIZE, Effective(r.perm, nx));
      OffsetInPage(r.va, x);
    }
  }

  lemma DirectAgrees(regions: seq<Region>, reg: Region)
    requires Direct(regions) && KERNEL_VMA <= reg.va && reg.pa == reg.va - KERNEL_VMA
    ensures Agrees(reg, regions)
  {
  }

  lemma BelowAgrees(regions: seq<Region>, reg: Region)
    requires Direct(regions) && reg.va + reg.size <= KERNEL_VMA
    ensures Agrees(reg, regions)
  {
  }

  /** Every page of a page-aligned region in the upper half is canonical. */
  lemma RegionPage(reg: Region, k: nat)
    requires reg.va >= HIGH_HALF && reg.va + reg.size <= U64_SIZE && MapAligned(reg) && k < reg.size / PAGE_SIZE
    ensures Canonical(reg.va + k * PAGE_SIZE) && reg.va + k * PAGE_SIZE >= HIGH_HALF
    ensures Covers(reg, reg.va + k * PAGE_SIZE) && (reg.va + k * PAGE_SIZE) % PAGE_SIZE == 0
  {
    assert (reg.va + k * PAGE_SIZE) % PAGE_SIZE == 0;
  }

  lemma AlignedForMap(r: Region)
    requires r.size > 0
    ensures RegionAligned(r) <==> MapAligned(r)
  {
  }

  /** A section agrees with the sections before it: each is backed by the address it is linked at. */
  lemma SectionAgrees(l: Layout, i: nat)
    requires SectionsAsserted(l) && RegionsComputable(l) && i < 4 && ImageRegions(l)[i].va >= KERNEL_VMA
    requires forall j: nat | j < i :: ImageRegions(l)[j].va >= KERNEL_VMA && RegionAligned(ImageRegions(l)[j])
    ensures var regions := ImageRegions(l);
            && regions[i].va + regions[i].size <= U64_SIZE
            && AlignedAll(regions[..i]) && Agrees(regions[i], regions[..i])
  {
    hide AlignDown, AlignUp, SectionsAsserted, RegionAligned;
    SectionsOrdered(l);
    var before := ImageRegions(l)[..i];
    assert Direct(before);
    DirectIsAligned(before);
    DirectAgrees(before, ImageRegions(l)[i]);
  }

  lemma ImageDirect(l: Layout)
    requires SectionsAsserted(l) && RegionsComputable(l) && ImageMappable(l)
    ensures Direct(ImageRegions(l)) && AlignedAll(ImageRegions(l))
  {
    hide AlignDown, AlignUp, SectionsAsserted, RegionAligned;
    SectionsOrdered(l);
    DirectIsAligned(ImageRegions(l));
  }

  /** The VGA page agrees with the image and does not meet the heap. */
  lemma VgaFits(l: Layout, regions: seq<Region>)
    requires l.heapStart <= l.heapEnd <= BOOT_MAPPED_BYTES && MapAligned(HeapRegion(l)) && Direct(regions) && AlignedAll(regions)
    ensures AlignedAll(regions + [HeapRegion(l)]) && Agrees(VgaRegion(), regions + [HeapRegion(l)]) && MapAligned(VgaRegion())
  {
    DirectAgrees(regions, VgaRegion());
  }

  lemma DirectIsAligned(regions: seq<Region>)
    requires Direct(regions) && forall r | r in regions :: r.va >= KERNEL_VMA && r.va < U64_SIZE && r.pa < 0x8000_0000_0000
    ensures AlignedAll(regions)
  {
  }

  /** The image regions start at 64-bit addresses, and an empty one follows a section that is not empty. */
  lemma SectionBounds(l: Layout, i: nat)
    requires SectionsAsserted(l) && RegionsComputable(l) && i < 4
    ensures var reg := ImageRegions(l)[i];
            && reg.va < U64_SIZE && reg.size < U64_SIZE && reg.pa < 0x10_0000_0000_0000
            && (reg.size == 0 ==> i > 0 && ImageRegions(l)[i - 1].va <= reg.va)
  {
    hide AlignDown, AlignUp, SectionsAsserted;
    SectionsOrdered(l);
    assert i == 0 || i == 1 || i == 2 || i == 3;
  }

  lemma EmptyAligned(r: Region)
    requires r.size == 0
    ensures RegionAligned(r)
  {
  }

  lemma AllRegions(l: Layout)
    requires LayoutMappable(l)
    ensures LayoutUsable(l)
    ensures KernelRegions(l) == ImageRegions(l) + [HeapRegion(l)] + [VgaRegion()]
    ensures forall reg | reg in KernelRegions(l) :: RegionAligned(reg)
  {
    hide AlignDown, AlignUp, SectionsAsserted, RegionsComputable;
    var rs := ImageRegions(l);
    assert rs[0] in rs && rs[1] in rs && rs[2] in rs && rs[3] in rs;
  }

  // Inheriting the boot map.

  function InheritedShape(r: nat, pdpt: nat, pd0: nat, pd1: nat): Shape {
    map[r := Node(4, 0, 0, 0), pdpt := Node(3, 0, r, 0), pd0 := Node(2, 0, pdpt, 0), pd1 := Node(2, 0, pdpt, 1)]
  }

  ghost predicate CanInherit(m: Mem, r: nat, pml4: nat, pdpt: nat, pd0: nat, pd1: nat) {
    BuiltTables(m, pml4, pdpt, pd0, pd1) && r in m && m[r] == Zeros() && r !in {pml4, pdpt, pd0, pd1}
  }

  lemma InheritedWords(m: Mem, r: nat, pml4: nat, pdpt: nat, pd0: nat, pd1: nat)
    requires CanInherit(m, r, pml4, pdpt, pd0, pd1)
    ensures pdpt + 3 < U64_SIZE && Word(m, pml4, 0) == pdpt + 3
    ensures var m' := Store(m, r, 0, pdpt + 3);
            && BuiltTables(m', pml4, pdpt, pd0, pd1) && TableIs(m', r)
            && forall i: nat | i < 512 :: Word(m', r, i) == if i == 0 then pdpt + 3 else 0
  {
    var m' := Store(m, r, 0, pdpt + 3);
    assert forall t, i: nat | t in {pml4, pdpt, pd0, pd1} :: Word(m', t, i) == Word(m, t, i);
  }

  /** The new root maps the boot subtree under slot 0 and nothing else. */
  lemma InheritedSpace(m: Mem, r: nat, pml4: nat, pdpt: nat, pd0: nat, pd1: nat, nx: bool)
    requires CanInherit(m, r, pml4, pdpt, pd0, pd1)
    ensures pdpt + 3 < U64_SIZE && Word(m, pml4, 0) == pdpt + 3
    ensures SpaceIs(Store(m, r, 0, pdpt + 3), r, [], nx)
    ensures forall ix | ValidIx(ix) :: WalkFrom(Store(m, r, 0, pdpt + 3), r, ix) == InheritedLeaf(ix)
  {
    hide WalkFrom, BuiltTables, Store, Indices, BootLeaf;
    InheritedWords(m, r, pml4, pdpt, pd0, pd1);
    var m' := Store(m, r, 0, pdpt + 3);
    forall ix | ValidIx(ix) ensures WalkFrom(m', r, ix) == InheritedLeaf(ix) {
      if ix.i4 == 0 {
        PdptWalk(m', r, ix, pml4, pdpt, pd0, pd1);
      } else {
        AbsentSlot(m', r, ix);
      }
    }
  }

  lemma AbsentSlot(m: Mem, r: nat, ix: Ix)
    requires Word(m, r, ix.i4) == 0
    ensures WalkFrom(m, r, ix) == Absent
  {
  }

  lemma InheritedLinked(m: Mem, r: nat, pml4: nat, pdpt: nat, pd0: nat, pd1: nat)
    requires CanInherit(m, r, pml4, pdpt, pd0, pd1)
    ensures pdpt + 3 < U64_SIZE
    ensures Linked(Store(m, r, 0, pdpt + 3), InheritedShape(r, pdpt, pd0, pd1), r)
  {
    hide Present, Huge, EntryAddr, LinkFlags, Word, PdWord, Store, Sealed;
    InheritedWords(m, r, pml4, pdpt, pd0, pd1);
    var m', s := Store(m, r, 0, pdpt + 3), InheritedShape(r, pdpt, pd0, pd1);
    DirectorySealed(m', pml4, pdpt, pd0, pd1);
    NothingAtZero();
    forall t, i: nat | t in s && i < 512 ensures LinkOk(m', s, r, t, i) {
      BootEntries(pdpt, 0, i);
      BootEntries(pd0, 0, i);
      BootEntries(pd1, 1, i);
    }
  }

  lemma DirectorySealed(m: Mem, pml4: nat, pdpt: nat, pd0: nat, pd1: nat)
    requires BuiltTables(m, pml4, pdpt, pd0, pd1)
    ensures Sealed(m, pd0) && Sealed(m, pd1)
  {
    hide Present, Huge, Word, PdWord;
    forall i: nat | i < 512 ensures Present(Word(m, pd0, i)) && Huge(Word(m, pd0, i)) {
      BootEntries(0, 0, i);
    }
    forall i: nat | i < 512 ensures Present(Word(m, pd1, i)) && Huge(Word(m, pd1, i)) {
      BootEntries(0, 1, i);
    }
  }

  // Laying regions over it.

  lemma LayRegion(m: Mem, m': Mem, root: nat, regions: seq<Region>, r: Region, nx: bool)
    requires SpaceIs(m, root, regions, nx) && r.size % PAGE_SIZE == 0
    requires MapsRange(m, m', root, r.va, r.pa, r.size / PAGE_SIZE, Effective(r.perm, nx))
    ensures SpaceIs(m', root, regions + [r], nx)
  {
    hide WalkFrom, Indices, Canonical, Effective, PageEntry, InheritedLeaf;
    assert (regions + [r])[..|regions|] == regions;
  }

  lemma LayEmpty(m: Mem, root: nat, regions: seq<Region>, r: Region, nx: bool)
    requires SpaceIs(m, root, regions, nx) && r.size == 0
    ensures SpaceIs(m, root, regions + [r], nx)
  {
    hide SpaceIs, MapsRange;
    MapsNothing(m, root, r.va, r.pa, Effective(r.perm, nx));
    LayRegion(m, m, root, regions, r, nx);
  }

  /** In the upper half nothing but the 4 KiB regions is mapped. */
  lemma {:induction false} OverlaySmall(w: Walk, base: Walk, regions: seq<Region>, nx: bool, x: nat)
    requires Overlaid(w, base, regions, nx, x) && base.Absent?
    ensures w.Leaf? ==> w.span == PAGE_SIZE
  {
    hide Effective, PageEntry;
    if regions != [] {
      var r := regions[|regions| - 1];
      if !Covers(r, x) {
        OverlaySmall(w, base, regions[..|regions| - 1], nx, x);
      }
    }
  }

  lemma UpperHalfSmall(m: Mem, root: nat, regions: seq<Region>, nx: bool, x: nat)
    requires SpaceIs(m, root, regions, nx) && Canonical(x) && x >= HIGH_HALF
    ensures HugeFree(m, root, Indices(x))
  {
    hide WalkFrom, Indices, Overlaid;
    HighIndex(x);
    OverlaySmall(WalkFrom(m, root, Indices(x)), Absent, regions, nx, x);
  }

  // What the finished address space holds.

  /** An address is mapped exactly when the base maps it or a region covers it. */
  lemma {:induction false} OverlaidMapped(w: Walk, base: Walk, regions: seq<Region>, nx: bool, x: nat)
    requires Overlaid(w, base, regions, nx, x)
    ensures w.Leaf? <==> base.Leaf? || exists r :: r in regions && Covers(r, x)
  {
    hide Effective, PageEntry;
    if regions != [] {
      var n := |regions| - 1;
      if !Covers(regions[n], x) {
        OverlaidMapped(w, base, regions[..n], nx, x);
        assert forall r :: r in regions <==> r in regions[..n] || r == regions[n];
      } else {
        assert regions[n] in regions;
      }
    }
  }

  /** Where the base maps nothing, a leaf comes from a region that covers the address. */
  lemma {:induction false} OverlaidRegion(w: Walk, base: Walk, regions: seq<Region>, nx: bool, x: nat) returns (r: Region)
    requires Overlaid(w, base, regions, nx, x) && base.Absent? && w.Leaf?
    ensures r in regions && Covers(r, x) && (Covers(regions[|regions| - 1], x) ==> r == regions[|regions| - 1])
    ensures w.span == PAGE_SIZE && w.entry == PageEntry(r.va, r.pa, x, Effective(r.perm, nx))
  {
    hide Effective, PageEntry;
    var n := |regions| - 1;
    if Covers(regions[n], x) {
      r := regions[n];
    } else {
      r := OverlaidRegion(w, base, regions[..n], nx, x);
    }
  }

  /** The boot subtree maps 0..2 GiB and, through the same directories, 510..512 GiB. */
  predicate BootMapped(x: nat) {
    x < BOOT_MAPPED_BYTES || 0x7F_8000_0000 <= x < 0x80_0000_0000
  }

  lemma BootMappedLeaf(x: nat)
    requires Canonical(x)
    ensures Indices(x).i4 == 0 && BootLeaf(Indices(x)).Leaf? <==> BootMapped(x)
    ensures BootMapped(x) ==> Indices(x).i3 == x / HUGE_PAGE_SIZE
  {
    hide PdWord;
    HighIndex(x);
  }

  /** A boot-mapped address reaches the physical address of its last 31 bits, writable and executable. */
  lemma BootTarget(x: nat)
    requires Canonical(x) && BootMapped(x)
    ensures var w := BootLeaf(Indices(x));
            && w.Leaf? && w.span == LARGE_PAGE_SIZE && LeafTarget(w, x) == x % BOOT_MAPPED_BYTES
            && EntryAddr(w.entry) == x % BOOT_MAPPED_BYTES / LARGE_PAGE_SIZE * LARGE_PAGE_SIZE
            && Writable(w.entry) && !NoExecute(w.entry) && !User(w.entry)
            && w.entry == x % BOOT_MAPPED_BYTES / 0x20_0000 * 0x20_0000 + 0x83
  {
    hide EntryAddr, Writable, NoExecute, User;
    BootMappedLeaf(x);
    var y := x % BOOT_MAPPED_BYTES;
    SameLowBits(x);
    BootEntries(0, Indices(x).i3 % 2, Indices(x).i2);
    LargeTarget(y);
    LargeBase(y);
  }

  lemma SameLowBits(x: nat)
    ensures var y := x % BOOT_MAPPED_BYTES;
            && y / HUGE_PAGE_SIZE == x / HUGE_PAGE_SIZE % 2 && y / LARGE_PAGE_SIZE % 512 == x / LARGE_PAGE_SIZE % 512
            && y % LARGE_PAGE_SIZE == x % LARGE_PAGE_SIZE
  {
    var q, y := x / BOOT_MAPPED_BYTES, x % BOOT_MAPPED_BYTES;
    assert x == q * 1024 * LARGE_PAGE_SIZE + y;
    assert x / LARGE_PAGE_SIZE == q * 1024 + y / LARGE_PAGE_SIZE;
    assert x / HUGE_PAGE_SIZE == q * 2 + y / HUGE_PAGE_SIZE;
  }

  lemma LargeBase(y: nat)
    requires y < BOOT_MAPPED_BYTES
    ensures y / HUGE_PAGE_SIZE * HUGE_PAGE_SIZE + y / LARGE_PAGE_SIZE % 512 * LARGE_PAGE_SIZE == y / LARGE_PAGE_SIZE * LARGE_PAGE_SIZE
  {
    LargeTarget(y);
    var base := y / HUGE_PAGE_SIZE * HUGE_PAGE_SIZE + y / LARGE_PAGE_SIZE % 512 * LARGE_PAGE_SIZE;
    assert base % LARGE_PAGE_SIZE == 0;
  }

  /** Everything the kernel maps: the boot subtree, the four sections, the heap and the VGA page. */
  predicate MappedAt(l: Layout, x: nat)
    requires LayoutUsable(l)
  {
    || BootMapped(x)
    || l.textStart <= x < AlignDown(l.rodataStart)
    || l.rodataStart <= x < AlignDown(l.dataStart)
    || l.dataStart <= x < AlignDown(l.bssStart)
    || l.bssStart <= x < AlignUp(l.virtEnd)
    || HEAP_VIRT_START <= x < HEAP_VIRT_START + (l.heapEnd - l.heapStart)
    || KERNEL_VMA + VGA_PHYS <= x < KERNEL_VMA + VGA_PHYS + PAGE_SIZE
  }

  /** The kernel's address space, exactly. */
  lemma MappedExactly(m: Mem, root: nat, l: Layout, nx: bool, x: nat)
    requires LayoutUsable(l) && SpaceIs(m, root, KernelRegions(l), nx) && root != 0 && Canonical(x)
    ensures Translate(m, root, x).Some? <==> MappedAt(l, x)
  {
    hide WalkFrom, Indices, Canonical, AlignDown, AlignUp, SectionsAsserted, BootLeaf, LeafTarget, Overlaid, BootMapped;
    OverlaidMapped(WalkFrom(m, root, Indices(x)), InheritedLeaf(Indices(x)), KernelRegions(l), nx, x);
    BootMappedLeaf(x);
    RegionsCover(l, x);
  }

  lemma RegionsCover(l: Layout, x: nat)
    requires LayoutUsable(l)
    ensures (exists r :: r in KernelRegions(l) && Covers(r, x)) <==>
              || l.textStart <= x < AlignDown(l.rodataStart)
              || l.rodataStart <= x < AlignDown(l.dataStart)
              || l.dataStart <= x < AlignDown(l.bssStart)
              || l.bssStart <= x < AlignUp(l.virtEnd)
              || HEAP_VIRT_START <= x < HEAP_VIRT_START + (l.heapEnd - l.heapStart)
              || KERNEL_VMA + VGA_PHYS <= x < KERNEL_VMA + VGA_PHYS + PAGE_SIZE
  {
    hide AlignDown, AlignUp, SectionsAsserted;
    var rs := KernelRegions(l);
    assert forall r :: r in rs <==> r == rs[0] || r == rs[1] || r == rs[2] || r == rs[3] || r == rs[4] || r == rs[5];
    assert Covers(rs[0], x) <==> l.textStart <= x < AlignDown(l.rodataStart);
    assert Covers(rs[1], x) <==> l.rodataStart <= x < AlignDown(l.dataStart);
    assert Covers(rs[2], x) <==> l.dataStart <= x < AlignDown(l.bssStart);
    assert Covers(rs[3], x) <==> l.bssStart <= x < AlignUp(l.virtEnd);
    assert Covers(rs[4], x) <==> HEAP_VIRT_START <= x < HEAP_VIRT_START + (l.heapEnd - l.heapStart);
    assert Covers(rs[5], x) <==> KERNEL_VMA + VGA_PHYS <= x < KERNEL_VMA + VGA_PHYS + PAGE_SIZE;
    assert rs[0] in rs && rs[1] in rs && rs[2] in rs && rs[3] in rs && rs[4] in rs && rs[5] in rs;
  }

  /** Both pages next to the heap are unmapped, for every heap that leaves room below the kernel image. */
  lemma HeapGuarded(m: Mem, root: nat, l: Layout, nx: bool, x: nat)
    requires LayoutUsable(l) && SpaceIs(m, root, KernelRegions(l), nx) && root != 0
    requires var end := HEAP_VIRT_START + (l.heapEnd - l.heapStart);
             end + PAGE_SIZE <= KERNEL_VMA && (HEAP_VIRT_START - PAGE_SIZE <= x < HEAP_VIRT_START || end <= x < end + PAGE_SIZE)
    ensures Translate(m, root, x) == None
  {
    hide WalkFrom, Indices, AlignDown, AlignUp, SectionsAsserted, BootLeaf, SpaceIs, RegionsComputable;
    MappedExactly(m, root, l, nx, x);
  }

  /** The heap lies under PML4[511] from PDPT[508] on. */
  lemma HeapSlot(x: nat)
    requires HEAP_VIRT_START <= x < KERNEL_VMA
    ensures Indices(x).i4 == 511 && Indices(x).i3 == 508 + (x - HEAP_VIRT_START) / HUGE_PAGE_SIZE < 510
  {
    assert x / HUGE_PAGE_SIZE == HEAP_VIRT_START / HUGE_PAGE_SIZE + (x - HEAP_VIRT_START) / HUGE_PAGE_SIZE;
    assert x / 0x80_0000_0000 == HEAP_VIRT_START / 0x80_0000_0000;
  }

  /** An upper-half address translates into the physical range of the region that covers it. */
  lemma UpperHalfTarget(m: Mem, root: nat, l: Layout, nx: bool, x: nat) returns (r: Region)
    requires LayoutUsable(l) && SpaceIs(m, root, KernelRegions(l), nx) && root != 0 && Canonical(x) && x >= HIGH_HALF
    requires forall reg | reg in KernelRegions(l) :: RegionAligned(reg)
    requires Translate(m, root, x).Some?
    ensures r in KernelRegions(l) && Covers(r, x) && (Covers(VgaRegion(), x) ==> r == VgaRegion())
    ensures Translate(m, root, x).value.0 == r.pa + (x - r.va)
    ensures Translate(m, root, x).value.1 == PageEntry(r.va, r.pa, x, Effective(r.perm, nx))
  {
    hide WalkFrom, Indices, Effective, EntryAddr, AlignDown, AlignUp, SectionsAsserted;
    HighIndex(x);
    var w := WalkFrom(m, root, Indices(x));
    r := OverlaidRegion(w, Absent, KernelRegions(l), nx, x);
    RegionBound(l, r);
    EffectiveFlags(r.perm, nx);
    EntryFields(r.pa + (x - r.va) / PAGE_SIZE * PAGE_SIZE, Effective(r.perm, nx));
    OffsetInPage(r.va, x);
    WrapAddress(r.pa + (x - r.va) / PAGE_SIZE * PAGE_SIZE, x % PAGE_SIZE);
  }

  lemma RegionBound(l: Layout, r: Region)
    requires LayoutUsable(l) && r in KernelRegions(l)
    ensures r.va >= HIGH_HALF && r.size < 0x8000_0000_0000 && r.pa < 0x8000_0000_0000
  {
    hide AlignDown, AlignUp, SectionsAsserted;
    SectionsOrdered(l);
  }

  /** What an upper-half address must be, read off the address alone. The VGA page is laid last. */
  function PermAt(l: Layout, x: nat): Perm {
    if Covers(VgaRegion(), x) then Device
    else if x < KERNEL_VMA then DataRwNx
    else if x < l.rodataStart then TextRoX
    else if x < l.dataStart then RoData
    else DataRwNx
  }

  /** The physical address behind an upper-half address. */
  function TargetAt(l: Layout, x: nat): int {
    if x < KERNEL_VMA then l.heapStart + (x - HEAP_VIRT_START) else x - KERNEL_VMA
  }

  /** The leaf entry that leads to `target` with a profile: the frame, the flags by value, and NX where it is available. */
  function LeafWord(perm: Perm, nx: bool, target: int): int {
    target / 0x1000 * 0x1000
    + (match perm case TextRoX => 0x101 case RoData => 0x101 case DataRwNx => 0x103 case Device => 0x1B case BootIdentity => 0x13)
    + (if nx && !perm.TextRoX? then 0x8000_0000_0000_0000 else 0)
  }

  /** The region that decides an address is determined by the address. */
  lemma OnlyRegion(l: Layout, r: Region, x: nat)
    requires LayoutUsable(l) && r in KernelRegions(l) && Covers(r, x) && (Covers(VgaRegion(), x) ==> r == VgaRegion())
    ensures r.perm == PermAt(l, x) && r.pa + (x - r.va) == TargetAt(l, x)
  {
    hide AlignDown, AlignUp, SectionsAsserted;
    SectionsOrdered(l);
  }

  /**
   The kernel's half of the address space, address by address: image addresses reach the physical address they are
   linked at, heap addresses the heap's backing, and the rights are those of the section the address lies in.
   */
  lemma UpperHalfRights(m: Mem, root: nat, l: Layout, nx: bool, x: nat)
    requires LayoutUsable(l) && SpaceIs(m, root, KernelRegions(l), nx) && root != 0 && Canonical(x) && x >= HIGH_HALF
    requires forall reg | reg in KernelRegions(l) :: RegionAligned(reg)
    requires Translate(m, root, x).Some?
    ensures var (target, entry) := Translate(m, root, x).value;
            var perm := PermAt(l, x);
            && target == TargetAt(l, x)
            && (Writable(entry) <==> perm.DataRwNx? || perm.Device?)
            && (NoExecute(entry) <==> nx && !perm.TextRoX?)
            && !User(entry) && entry == LeafWord(perm, nx, target)
  {
    hide LayoutUsable, KernelRegions, SpaceIs, RegionAligned, Translate, Canonical, Effective, Writable, NoExecute, User;
    hide PageEntry, LeafWord;
    var r := UpperHalfTarget(m, root, l, nx, x);
    hide PermAt, TargetAt;
    OnlyRegion(l, r, x);
    NotBoot(l, x);
    RegionBound(l, r);
    PermRights(r.perm, nx);
    EntryRights(r, x, nx);
  }

  lemma NotBoot(l: Layout, x: nat)
    ensures !PermAt(l, x).BootIdentity?
  {
  }

  lemma FrameOfTarget(pa: nat, off: nat)
    requires pa % PAGE_SIZE == 0
    ensures (pa + off) / 0x1000 * 0x1000 == pa + off / PAGE_SIZE * PAGE_SIZE
  {
  }

  lemma EntryRights(r: Region, x: nat, nx: bool)
    requires r.va <= x < r.va + 0x8000_0000_0000 && RegionAligned(r) && r.size > 0 && r.pa < 0x8000_0000_0000
    ensures var e, f := PageEntry(r.va, r.pa, x, Effective(r.perm, nx)), Effective(r.perm, nx);
            && e < U64_SIZE && Writable(e) == Writable(f) && NoExecute(e) == NoExecute(f) && !User(e)
            && e == LeafWord(r.perm, nx, r.pa + (x - r.va))
  {
    hide Effective;
    EffectiveValue(r.perm, nx);
    FrameOfTarget(r.pa, x - r.va);
    EffectiveFlags(r.perm, nx);
    EntryFields(r.pa + (x - r.va) / PAGE_SIZE * PAGE_SIZE, Effective(r.perm, nx));
  }

  /** With NX available, none of the kernel's own regions is writable and executable. */
  lemma UpperHalfNoWx(m: Mem, root: nat, l: Layout, ix: Ix)
    requires LayoutUsable(l) && SpaceIs(m, root, KernelRegions(l), true) && ValidIx(ix) && ix.i4 != 0
    requires forall reg | reg in KernelRegions(l) :: RegionAligned(reg)
    ensures WalkFrom(m, root, ix).Leaf? ==> !WxEntry(WalkFrom(m, root, ix).entry)
  {
    hide WalkFrom, Effective, WxEntry, VaOf, LayoutUsable, Indices, Canonical, PageEntry;
    if WalkFrom(m, root, ix).Leaf? {
      VaOfIndices(ix);
      var x := VaOf(ix);
      var r := OverlaidRegion(WalkFrom(m, root, ix), Absent, KernelRegions(l), true, x);
      RegionBound(l, r);
      PageEntryFlags(r.va, r.pa, x, r.perm);
    }
  }
}
