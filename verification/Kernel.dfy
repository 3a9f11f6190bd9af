/**
 The memory subsystem as a whole: the boot sequence from the loader's information structure to the hardened
 address space, and every run of memory calls after it.
 */
module Kernel {
  import opened Bits
  import opened Wrappers
  import opened BootData
  import opened Paging
  import opened PageTable
  import opened AddressSpace
  import opened BootTables
  import opened KernelMap
  import opened PmmRuns
  import opened BootMemory
  import Harden
  import Pmm
  import Vmm

  // What boot establishes about the address space.

  lemma {:induction false} OverlaidBase(w: Walk, base: Walk, regions: seq<Region>, nx: bool, x: nat)
    requires Overlaid(w, base, regions, nx, x) && forall r | r in regions :: !Covers(r, x)
    ensures w == base
  {
    hide Effective, PageEntry;
    if regions != [] {
      var n := |regions| - 1;
      assert regions[n] in regions;
      OverlaidBase(w, base, regions[..n], nx, x);
    }
  }

  /** Below the upper half the finished address space is the boot map, page 0 of which is writable and executable. */
  lemma BootMapInherited(m: Mem, root: nat, l: Layout, nx: bool)
    requires LayoutUsable(l) && SpaceIs(m, root, KernelRegions(l), nx)
    ensures var w := WalkFrom(m, root, Ix(0, 0, 0, 0)); w.Leaf? && WxEntry(w.entry)
  {
    hide WalkFrom, Overlaid, LayoutUsable, KernelRegions, PdWord, WxEntry;
    assert Indices(0) == Ix(0, 0, 0, 0) && Canonical(0);
    forall r | r in KernelRegions(l) ensures !Covers(r, 0) {
      RegionBound(l, r);
    }
    OverlaidBase(WalkFrom(m, root, Ix(0, 0, 0, 0)), BootLeaf(Ix(0, 0, 0, 0)), KernelRegions(l), nx, 0);
    BootPageZero();
  }

  lemma BootPageZero()
    ensures var w := BootLeaf(Ix(0, 0, 0, 0)); w.Leaf? && WxEntry(w.entry)
  {
    BootEntries(0, 0, 0);
  }

  /** No 1 GiB page comes from the boot map or from a region. */
  lemma SpaceNoGiant(m: Mem, root: nat, regions: seq<Region>, nx: bool)
    requires SpaceIs(m, root, regions, nx)
    ensures Harden.NoGiant(m, root)
  {
    hide WalkFrom, Indices, Canonical, VaOf, Overlaid;
    forall ix | ValidIx(ix) && WalkFrom(m, root, ix).Leaf? ensures WalkFrom(m, root, ix).span != HUGE_PAGE_SIZE {
      VaOfIndices(ix);
      OverlaidSpan(WalkFrom(m, root, ix), InheritedLeaf(ix), regions, nx, VaOf(ix));
    }
  }

  lemma {:induction false} OverlaidSpan(w: Walk, base: Walk, regions: seq<Region>, nx: bool, x: nat)
    requires Overlaid(w, base, regions, nx, x) && (base.Leaf? ==> base.span != HUGE_PAGE_SIZE)
    ensures w.Leaf? ==> w.span != HUGE_PAGE_SIZE
  {
    hide Effective, PageEntry;
    if regions != [] && !Covers(regions[|regions| - 1], x) {
      OverlaidSpan(w, base, regions[..|regions| - 1], nx, x);
    }
  }

  /** Before hardening the kernel's address space is never write-xor-execute; after it, exactly when NX is available. */
  lemma InitThenHarden(m: Mem, m': Mem, s: Shape, root: nat, l: Layout, nx: bool)
    requires LayoutUsable(l) && SpaceIs(m, root, KernelRegions(l), nx)
    requires forall reg | reg in KernelRegions(l) :: RegionAligned(reg)
    ensures !NoWx(m, root)
    ensures Harden.HardenedFrom(m, m', s, root, nx) ==> (NoWx(m', root) <==> nx)
  {
    hide WalkFrom, WxEntry, LayoutUsable, KernelRegions, SpaceIs, RegionAligned, Harden.HardenedFrom;
    BootMapInherited(m, root, l, nx);
    if Harden.HardenedFrom(m, m', s, root, nx) {
      if nx {
        forall ix | ValidIx(ix) && ix.i4 != 0 && WalkFrom(m, root, ix).Leaf? ensures !WxEntry(WalkFrom(m, root, ix).entry) {
          UpperHalfNoWx(m, root, l, ix);
        }
        Harden.HardenedNoWx(m, m', s, root, nx);
      } else {
        Harden.HardenedLeaf(m, m', s, root, nx, Ix(0, 0, 0, 0));
      }
    }
  }

  /** Hardening the map that `init` leaves moves no address and unmaps none. */
  lemma HardenTargets(m: Mem, m': Mem, s: Shape, root: nat, nx: bool, x: nat)
    requires Harden.HardenedFrom(m, m', s, root, nx) && Vmm.NoSmallBoot(s) && Canonical(x)
    ensures var t, t' := Translate(m, root, x), Translate(m', root, x);
            t.Some? == t'.Some? && (t.Some? ==> t'.value.0 == t.value.0)
  {
    hide WalkFrom, Indices, EntryAddr, TableAt, Linked;
    assert Linked(m, s, root);
    forall ix | ValidIx(ix) && ix.i4 == 0 ensures TableAt(m, root, ix, 1).None? {
      PathInShape(m, s, root, ix, 1);
    }
    Harden.HardenKeepsPages(m, m', s, root, nx);
    IndicesInRange(x);
  }

  lemma IndicesInRange(x: nat)
    ensures ValidIx(Indices(x))
  {
  }

  /**
   The finished address space, address by address: which addresses are mapped, where each leads and with which rights.
   Below the upper half it is the boot map, hardened or not.
   */
  ghost predicate ExactSpace(m: Mem, root: nat, l: Layout, nx: bool, hardened: bool)
    requires LayoutUsable(l)
  {
    forall x: nat | Canonical(x) :: ExactAt(Translate(m, root, x), l, nx, hardened, x)
  }

  predicate ExactAt(t: Option<(nat, u64)>, l: Layout, nx: bool, hardened: bool, x: nat)
    requires LayoutUsable(l)
  {
    && (t.Some? <==> MappedAt(l, x))
    && (t.Some? ==>
          var (target, entry) := t.value;
          && !User(entry)
          && if x >= HIGH_HALF then
               var perm := PermAt(l, x);
               && target == TargetAt(l, x)
               && (Writable(entry) <==> perm.DataRwNx? || perm.Device?)
               && (NoExecute(entry) <==> nx && !perm.TextRoX?)
               && entry == LeafWord(perm, nx, target)
             else
               && target == x % BOOT_MAPPED_BYTES && Writable(entry) && (NoExecute(entry) <==> nx && hardened)
               && entry == LowWord(nx, hardened, target))
  }

  /** The leaf entry of a boot-mapped address: its 2 MiB page, writable, and after hardening uncached and NX. */
  function LowWord(nx: bool, hardened: bool, target: nat): nat {
    var page := target / 0x20_0000 * 0x20_0000;
    if hardened then Harden.HardWord(page, nx) else page + 0x83
  }

  /** What `init` leaves is exact. */
  lemma InitExact(m: Mem, root: nat, l: Layout, nx: bool)
    requires LayoutUsable(l) && SpaceIs(m, root, KernelRegions(l), nx) && root != 0
    requires forall reg | reg in KernelRegions(l) :: RegionAligned(reg)
    ensures ExactSpace(m, root, l, nx, false)
  {
    hide LayoutUsable, KernelRegions, SpaceIs, RegionAligned, Translate, MappedAt, PermAt, TargetAt, Writable, NoExecute, User;
    hide LeafWord;
    forall x: nat | Canonical(x) ensures ExactAt(Translate(m, root, x), l, nx, false, x) {
      MappedExactly(m, root, l, nx, x);
      if Translate(m, root, x).Some? {
        if x >= HIGH_HALF {
          UpperHalfRights(m, root, l, nx, x);
        } else {
          LowerHalf(m, root, l, nx, x);
        }
      }
    }
  }

  /** Below the upper half only the boot map is there. */
  lemma LowerHalf(m: Mem, root: nat, l: Layout, nx: bool, x: nat)
    requires LayoutUsable(l) && SpaceIs(m, root, KernelRegions(l), nx) && root != 0 && Canonical(x) && x < HIGH_HALF
    requires Translate(m, root, x).Some?
    ensures BootMapped(x) && WalkFrom(m, root, Indices(x)) == BootLeaf(Indices(x))
    ensures var (target, entry) := Translate(m, root, x).value;
            && target == x % BOOT_MAPPED_BYTES && Writable(entry) && !NoExecute(entry) && !User(entry)
            && entry == LowWord(nx, false, target)
  {
    hide WalkFrom, Indices, Overlaid, LayoutUsable, KernelRegions, Writable, NoExecute, User, LeafTarget, Canonical, BootLeaf, EntryAddr;
    forall r | r in KernelRegions(l) ensures !Covers(r, x) {
      RegionBound(l, r);
    }
    OverlaidBase(WalkFrom(m, root, Indices(x)), InheritedLeaf(Indices(x)), KernelRegions(l), nx, x);
    BootMappedLeaf(x);
    BootTarget(x);
  }

  /** Hardening keeps it exact, and takes execution away below the upper half. */
  lemma HardenExact(m: Mem, m': Mem, s: Shape, root: nat, l: Layout, nx: bool)
    requires LayoutUsable(l) && ExactSpace(m, root, l, nx, false)
    requires Harden.HardenedFrom(m, m', s, root, nx) && Vmm.NoSmallBoot(s)
    ensures ExactSpace(m', root, l, nx, true)
  {
    hide LayoutUsable, Translate, MappedAt, PermAt, TargetAt, Writable, NoExecute, User, Harden.HardenedFrom, Vmm.NoSmallBoot;
    hide LeafWord, EntryAddr, Harden.HardWord;
    forall x: nat | Canonical(x) ensures ExactAt(Translate(m', root, x), l, nx, true, x) {
      assert ExactAt(Translate(m, root, x), l, nx, false, x);
      HardenTargets(m, m', s, root, nx, x);
      if Translate(m', root, x).Some? {
        HardenRights(m, m', s, root, nx, x);
        LowIsBoot(l, x);
        LowAddress(x);
      }
    }
  }

  lemma LowAddress(x: nat)
    ensures EntryAddr(LowWord(false, false, x % BOOT_MAPPED_BYTES)) == x % BOOT_MAPPED_BYTES / 0x20_0000 * 0x20_0000
  {
    hide EntryAddr;
    EntryFields(x % BOOT_MAPPED_BYTES / 0x20_0000 * 0x20_0000, 0x83);
  }

  lemma LowIsBoot(l: Layout, x: nat)
    requires LayoutUsable(l) && Canonical(x) && MappedAt(l, x)
    ensures x < HIGH_HALF ==> Indices(x).i4 == 0
  {
    hide Indices, AlignDown, AlignUp, BootLeaf;
    SectionsOrdered(l);
    BootMappedLeaf(x);
  }

  lemma HardenRights(m: Mem, m': Mem, s: Shape, root: nat, nx: bool, x: nat)
    requires Harden.HardenedFrom(m, m', s, root, nx) && Vmm.NoSmallBoot(s) && Canonical(x) && Translate(m', root, x).Some?
    ensures Indices(x).i4 != 0 ==> Translate(m', root, x) == Translate(m, root, x)
    ensures x >= HIGH_HALF ==> Indices(x).i4 != 0
    ensures Indices(x).i4 == 0 ==>
              && Translate(m, root, x).Some?
              && var e, e' := Translate(m, root, x).value.1, Translate(m', root, x).value.1;
              !User(e') && Writable(e') && (NoExecute(e') <==> nx) && e' == Harden.HardWord(EntryAddr(e), nx)
  {
    hide WalkFrom, Indices, EntryAddr, TableAt, Linked, LeafTarget, User, NoExecute, Writable, Harden.HardWord;
    HighIndex(x);
    if Indices(x).i4 == 0 {
      assert Linked(m, s, root);
      PathInShape(m, s, root, Indices(x), 1);
      Harden.LargePageWalk(m, m', s, root, nx, Indices(x));
    } else {
      Harden.OtherSlotsUnchanged(m, m', s, root, nx, Indices(x));
    }
  }

  /** The one upper-half page with the device profile. */
  lemma DevicePage(l: Layout, x: nat)
    ensures PermAt(l, x).Device? <==> 0xFFFF_FFFF_800B_8000 <= x < 0xFFFF_FFFF_800B_9000
  {
  }

  /**
   The caching and global bits of every leaf, by bit number: write-through (3) and no-cache (4) on the VGA page alone in the
   upper half and global (8) on every other page of it; below, neither 3 nor 8, and 4 exactly after hardening.
   */
  lemma CacheBits(m: Mem, root: nat, l: Layout, nx: bool, hardened: bool, x: nat)
    requires LayoutUsable(l) && ExactSpace(m, root, l, nx, hardened) && Canonical(x) && Translate(m, root, x).Some?
    ensures var e := Translate(m, root, x).value.1;
            if x >= 0xFFFF_8000_0000_0000 then
              var vga := 0xFFFF_FFFF_800B_8000 <= x < 0xFFFF_FFFF_800B_9000;
              e / 8 % 2 == e / 16 % 2 == (if vga then 1 else 0) && e / 256 % 2 == (if vga then 0 else 1)
            else
              e / 8 % 2 == e / 256 % 2 == 0 && e / 16 % 2 == if hardened then 1 else 0
  {
    hide LayoutUsable, Translate, MappedAt, PermAt, TargetAt, User, Writable, NoExecute, Canonical, ExactSpace;
    assert ExactAt(Translate(m, root, x), l, nx, hardened, x) by { SpaceAt(m, root, l, nx, hardened, x); }
    var (target, entry) := Translate(m, root, x).value;
    if x >= HIGH_HALF {
      DevicePage(l, x);
      NotBoot(l, x);
      UpperBits(PermAt(l, x), nx, target);
    } else {
      LowerBits(nx, hardened, target);
    }
  }

  lemma SpaceAt(m: Mem, root: nat, l: Layout, nx: bool, hardened: bool, x: nat)
    requires LayoutUsable(l) && ExactSpace(m, root, l, nx, hardened) && Canonical(x)
    ensures ExactAt(Translate(m, root, x), l, nx, hardened, x)
  {
    hide LayoutUsable, Translate, ExactAt, Canonical;
  }

  lemma UpperBits(perm: Perm, nx: bool, target: nat)
    ensures var e := LeafWord(perm, nx, target);
            && e / 8 % 2 == (if perm.Device? then 1 else 0) && e / 256 % 2 == (if perm.Device? || perm.BootIdentity? then 0 else 1)
            && e / 16 % 2 == (if perm.Device? || perm.BootIdentity? then 1 else 0)
  {
    var lo := match perm case TextRoX => 0x101 case RoData => 0x101 case DataRwNx => 0x103 case Device => 0x1B case BootIdentity => 0x13;
    var page := target / 0x1000 + if nx && !perm.TextRoX? then 0x8_0000_0000_0000 else 0;
    assert LeafWord(perm, nx, target) == page * 0x1000 + lo;
    hide LeafWord;
    CacheFlags(page, lo);
  }

  lemma LowerBits(nx: bool, hardened: bool, target: nat)
    ensures var e := LowWord(nx, hardened, target);
            && e / 8 % 2 == 0 && e / 256 % 2 == 0 && e / 16 % 2 == (if hardened then 1 else 0)
  {
    var lo := if hardened then 0x93 else 0x83;
    var page := target / 0x20_0000 * 512 + if nx && hardened then 0x8_0000_0000_0000 else 0;
    assert LowWord(nx, hardened, target) == page * 0x1000 + lo;
    CacheFlags(page, lo);
  }

  lemma CacheFlags(page: nat, lo: nat)
    requires lo < 0x1000
    ensures var e := page * 0x1000 + lo;
            e / 8 % 2 == lo / 8 % 2 && e / 16 % 2 == lo / 16 % 2 && e / 256 % 2 == lo / 256 % 2
  {
    FlagPart(page * 0x100, lo, 8);
    FlagPart(page * 0x80, lo, 16);
    FlagPart(page * 8, lo, 256);
  }

  /** The VGA text page after boot with NX, as one number. */
  lemma VgaEntry(m: Mem, root: nat, l: Layout, hardened: bool)
    requires LayoutUsable(l) && ExactSpace(m, root, l, true, hardened)
    ensures Translate(m, root, 0xFFFF_FFFF_800B_8000) == Some((0xB8000, 0x8000_0000_000B_801B))
  {
    hide LayoutUsable, Translate, User, Writable, NoExecute, ExactSpace, AlignDown, AlignUp;
    SpaceAt(m, root, l, true, hardened, 0xFFFF_FFFF_800B_8000);
    DevicePage(l, 0xFFFF_FFFF_800B_8000);
    var t := Translate(m, root, 0xFFFF_FFFF_800B_8000);
    assert t.value == (0xB8000, 0x8000_0000_000B_801B);
  }

  /** Where the fixed parts of the address space are, in numbers: the heap, the identity map and its alias below 512 GiB. */
  lemma Landmarks(m: Mem, root: nat, l: Layout, nx: bool, hardened: bool, d: nat)
    requires LayoutUsable(l) && ExactSpace(m, root, l, nx, hardened)
    ensures l.heapStart + d < l.heapEnd && d < 0x8000_0000 ==>
              var t := Translate(m, root, 0xFFFF_FFFF_0000_0000 + d); t.Some? && t.value.0 == l.heapStart + d
    ensures d < 0x8000_0000 ==>
              var t, u := Translate(m, root, d), Translate(m, root, 0x7F_8000_0000 + d);
              t.Some? && u.Some? && t.value.0 == u.value.0 == d
  {
    hide LayoutUsable, Translate, User, Writable, NoExecute, ExactSpace, AlignDown, AlignUp, LeafWord, LowWord;
    if d < 0x8000_0000 {
      SpaceAt(m, root, l, nx, hardened, 0xFFFF_FFFF_0000_0000 + d);
      SpaceAt(m, root, l, nx, hardened, d);
      SpaceAt(m, root, l, nx, hardened, 0x7F_8000_0000 + d);
    }
  }

  /** Every boot-mapped address lies in a 2 MiB page that starts at its own physical address. */
  ghost predicate BootLarge(m: Mem, root: nat) {
    forall x: nat | BootMapped(x) :: LargeAt(WalkFrom(m, root, Indices(x)), x)
  }

  predicate LargeAt(w: Walk, x: nat) {
    && w.Leaf? && w.span == LARGE_PAGE_SIZE
    && EntryAddr(w.entry) == x % BOOT_MAPPED_BYTES / LARGE_PAGE_SIZE * LARGE_PAGE_SIZE
  }

  lemma InitBootLarge(m: Mem, root: nat, l: Layout, nx: bool)
    requires LayoutUsable(l) && SpaceIs(m, root, KernelRegions(l), nx) && root != 0
    ensures BootLarge(m, root)
  {
    hide WalkFrom, LayoutUsable, KernelRegions, SpaceIs, BootLeaf, Indices, Translate, EntryAddr;
    forall x: nat | BootMapped(x) ensures LargeAt(WalkFrom(m, root, Indices(x)), x) {
      MappedExactly(m, root, l, nx, x);
      LowerHalf(m, root, l, nx, x);
      BootTarget(x);
    }
  }

  lemma HardenBootLarge(m: Mem, m': Mem, s: Shape, root: nat, nx: bool)
    requires Harden.HardenedFrom(m, m', s, root, nx) && Vmm.NoSmallBoot(s) && BootLarge(m, root)
    ensures BootLarge(m', root)
  {
    hide WalkFrom, TableAt, Linked, Indices, EntryAddr;
    assert Linked(m, s, root);
    forall x: nat | BootMapped(x) ensures LargeAt(WalkFrom(m', root, Indices(x)), x) {
      assert LargeAt(WalkFrom(m, root, Indices(x)), x);
      BootMappedLeaf(x);
      PathInShape(m, s, root, Indices(x), 1);
      Harden.LargePageWalk(m, m', s, root, nx, Indices(x));
    }
  }

  // How much hardening rewrites.

  predicate BootSlot(i: nat) {
    i <= 1 || 510 <= i
  }

  /** Under PML4[0] the four boot slots have every directory entry present, and no other slot has any. */
  lemma SlotEntry(m: Mem, s: Shape, root: nat, l: Layout, nx: bool, hardened: bool, i: nat, j: nat)
    requires LayoutUsable(l) && ExactSpace(m, root, l, nx, hardened) && BootLarge(m, root)
    requires Linked(m, s, root) && Vmm.NoSmallBoot(s) && Present(Word(m, root, 0)) && root != 0 && i < 512 && j < 512
    ensures var e := Word(m, EntryAddr(Word(m, root, 0)), i);
            && (BootSlot(i) ==> Present(e) && Present(Word(m, EntryAddr(e), j)))
            && (!BootSlot(i) ==> !Present(e) || !Present(Word(m, EntryAddr(e), j)))
  {
    hide Indices, EntryAddr, Word, Present, Huge, Linked, LayoutUsable, ExactSpace, BootLarge, VaOf, MappedAt, PdWord;
    var ix := Ix(0, i, j, 0);
    VaOfIndices(ix);
    var x := VaOf(ix);
    BootMappedLeaf(x);
    if BootSlot(i) {
      LargeHere(m, root, x);
    } else {
      SpaceAt(m, root, l, nx, hardened, x);
      LowUnmapped(l, x);
      PathInShape(m, s, root, ix, 1);
      WalkStops(m, root, ix);
    }
  }

  /** Where the walk finds nothing and no last-level table hangs, there is no directory entry. */
  lemma WalkStops(m: Mem, root: nat, ix: Ix)
    requires WalkFrom(m, root, ix).Absent? && TableAt(m, root, ix, 1).None? && Present(Word(m, root, ix.i4))
    ensures var e := Word(m, EntryAddr(Word(m, root, ix.i4)), ix.i3);
            !Present(e) || !Present(Word(m, EntryAddr(e), ix.i2))
  {
    hide EntryAddr, Word, Present, Huge;
    assert TableAt(m, root, ix, 4) == Some(root);
    var e4 := Word(m, root, ix.i4);
    assert TableAt(m, root, ix, 3) == Some(EntryAddr(e4));
    var e3 := Word(m, EntryAddr(e4), ix.i3);
    if Present(e3) {
      assert TableAt(m, root, ix, 2) == Some(EntryAddr(e3));
    }
  }

  lemma LargeHere(m: Mem, root: nat, x: nat)
    requires BootLarge(m, root) && BootMapped(x)
    ensures var w := WalkFrom(m, root, Indices(x)); w.Leaf? && w.span == LARGE_PAGE_SIZE
  {
    hide WalkFrom, Indices;
    assert LargeAt(WalkFrom(m, root, Indices(x)), x);
  }

  lemma LowUnmapped(l: Layout, x: nat)
    requires LayoutUsable(l) && Canonical(x) && Indices(x).i4 == 0
    ensures MappedAt(l, x) ==> BootMapped(x)
  {
    hide Indices, AlignDown, AlignUp;
    SectionsOrdered(l);
    HighIndex(x);
  }

  /** What one PDPT slot adds to the count. */
  lemma SlotCount(m: Mem, s: Shape, root: nat, l: Layout, nx: bool, hardened: bool, i: nat)
    requires LayoutUsable(l) && ExactSpace(m, root, l, nx, hardened) && BootLarge(m, root)
    requires Linked(m, s, root) && Vmm.NoSmallBoot(s) && Present(Word(m, root, 0)) && root != 0 && i < 512
    requires Harden.NoGiant(m, root)
    ensures var pdpt := EntryAddr(Word(m, root, 0));
            Harden.Rewrites(m, pdpt, i + 1) == Harden.Rewrites(m, pdpt, i) + if BootSlot(i) then 512 else 0
  {
    hide EntryAddr, Present, Huge, Linked, Vmm.NoSmallBoot, LayoutUsable, ExactSpace, BootLarge, Harden.PresentCount, Harden.NoGiant;
    var e := Word(m, EntryAddr(Word(m, root, 0)), i);
    var pd := EntryAddr(e);
    SlotEntry(m, s, root, l, nx, hardened, i, 0);
    if Present(e) {
      SlotTable(m, s, root, i);
      forall j: nat | j < 512 ensures Present(m[pd][j]) <==> BootSlot(i) {
        SlotEntry(m, s, root, l, nx, hardened, i, j);
      }
      Harden.PresentRun(m[pd], 512);
    }
  }

  /** A present entry of the boot PDPT points at a table. */
  lemma SlotTable(m: Mem, s: Shape, root: nat, i: nat)
    requires Linked(m, s, root) && Harden.NoGiant(m, root) && Present(Word(m, root, 0)) && i < 512
    requires Present(Word(m, EntryAddr(Word(m, root, 0)), i))
    ensures var pd := EntryAddr(Word(m, EntryAddr(Word(m, root, 0)), i)); pd in m && |m[pd]| == 512
  {
    hide EntryAddr, Present, Huge, Word, Sealed, LinkFlags;
    LinkedNode(m, s, root, root);
    assert LinkOk(m, s, root, root, 0);
    var pdpt := EntryAddr(Word(m, root, 0));
    LinkedNode(m, s, root, pdpt);
    assert LinkOk(m, s, root, pdpt, i);
    var w := WalkFrom(m, root, Ix(0, i, 0, 0));
    LinkedNode(m, s, root, EntryAddr(Word(m, pdpt, i)));
  }

  /** After boot, hardened or not, hardening rewrites four directories of 512 entries: two tables, each reached from two slots. */
  lemma RewritesAll(m: Mem, s: Shape, root: nat, l: Layout, nx: bool, hardened: bool)
    requires LayoutUsable(l) && ExactSpace(m, root, l, nx, hardened) && BootLarge(m, root)
    requires Linked(m, s, root) && Vmm.NoSmallBoot(s) && Present(Word(m, root, 0)) && root != 0
    requires Harden.NoGiant(m, root)
    ensures Harden.Rewrites(m, EntryAddr(Word(m, root, 0)), 512) == 2048
  {
    hide EntryAddr, Present, Linked, Vmm.NoSmallBoot, LayoutUsable, ExactSpace, BootLarge, Harden.Rewrites, Harden.NoGiant;
    var pdpt := EntryAddr(Word(m, root, 0));
    var k := 0;
    NoRewrites(m, pdpt);
    while k < 512
      invariant 0 <= k <= 512
      invariant Harden.Rewrites(m, pdpt, k) == 512 * ((if k < 2 then k else 2) + if k > 510 then k - 510 else 0)
    {
      SlotCount(m, s, root, l, nx, hardened, k);
      k := k + 1;
    }
  }

  lemma NoRewrites(m: Mem, pdpt: nat)
    ensures Harden.Rewrites(m, pdpt, 0) == 0
  {
  }

  // Two consequences of mapping below the upper half.

  /**
   `map_4k` of an identity address after boot, hardened or not: the entry is compared with and stored in the first frame
   behind the 2 MiB page. The address keeps its leaf unless its own walk reads that very word, and when the frame is no
   table nothing changes at all.
   */
  lemma IdentityStray(v: Vmm.Vmm, l: Layout, f0: set<nat>, boot: set<nat>, hardened: bool, m': Mem, x: nat, p: nat, f: u64, r: Vmm.MapResult)
    requires Ready(v, l, f0, boot, hardened) && x < BOOT_MAPPED_BYTES
    requires Vmm.Stray(v.mem, m', v.kernelPml4, Indices(x), p, f, r)
    ensures Vmm.LargePath(v.mem, v.shape, v.kernelPml4, Indices(x)) && !r.Fault?
    ensures var m, root, t, i := v.mem, v.kernelPml4, AlignDown(x), x / PAGE_SIZE % 512;
            && (!r.Mapped? ==> m' == m)
            && (r.Mapped? ==>
                  && t in m && i < |m[t]| && p + f < U64_SIZE && m' == Store(m, t, i, p + f)
                  && ((forall level: nat :: !Vmm.Reads(m, root, Indices(x), level, t, i)) ==>
                        WalkFrom(m', root, Indices(x)) == WalkFrom(m, root, Indices(x)))
                  && (t !in v.shape ==> SameSpace(m, m', root)))
  {
    hide WalkFrom, Linked, TableAt, Word, Present, EntryAddr, LayoutUsable, Huge, Harden.NoGiant, Vmm.Held, Vmm.Recorded;
    hide Vmm.Reads, NoWx, UpperHalfClear, ExactSpace, Vmm.ClientFrames, BootLarge, Vmm.LargePath, WordAt, Vmm.NoSmallBoot;
    IdentityLarge(v.mem, v.shape, v.kernelPml4, x);
    IndicesInRange(x);
    if r.Mapped? {
      var t, i := AlignDown(x), x / PAGE_SIZE % 512;
      Vmm.HeldFrame(v.mem, v.pool, v.bootTables, v.shape, v.pmm.View(), t, i);
      Vmm.StraySpace(v.mem, v.shape, v.kernelPml4, t, i, p + f);
      Vmm.StrayStore(v.mem, v.shape, v.kernelPml4, t, i, p + f, Indices(x));
    }
  }

  lemma IdentityLarge(m: Mem, s: Shape, root: nat, x: nat)
    requires BootLarge(m, root) && Linked(m, s, root) && Harden.NoGiant(m, root) && x < BOOT_MAPPED_BYTES
    ensures Vmm.LargePath(m, s, root, Indices(x)) && Vmm.IsFrame(AlignDown(x))
    ensures EntryAddr(WordAt(m, root, Indices(x), 2)) == AlignDown(x)
  {
    hide WalkFrom, Linked, TableAt, Word, Present, EntryAddr, Huge, Harden.NoGiant, Indices;
    assert LargeAt(WalkFrom(m, root, Indices(x)), x);
    SpanKinds();
    GiantWord(m, root, Indices(x));
    assert AlignDown(x) % PAGE_SIZE == 0;
  }

  lemma SpanKinds()
    ensures PAGE_SIZE < LARGE_PAGE_SIZE < HUGE_PAGE_SIZE
  {
  }

  lemma GiantWord(m: Mem, root: nat, ix: Ix)
    requires WalkFrom(m, root, ix).Leaf? && WalkFrom(m, root, ix).span == LARGE_PAGE_SIZE
    ensures WordAt(m, root, ix, 2) == WalkFrom(m, root, ix).entry
  {
    hide WalkFrom, TableAt, Word, Present, EntryAddr, Huge;
    WalkByLevel(m, root, ix);
    SpanKinds();
  }

  const ABOVE_IDENTITY: nat := 0x8000_0000

  /**
   From what boot leaves, hardened or not, to a hierarchy in which hardening loses a page: map one page just above the
   identity range, which hangs a last-level table under PML4[0], and harden. The pointer to that table becomes a large page.
   */
  method MapThenHarden(v: Vmm.Vmm, p: nat, perm: Perm, ghost l: Layout, ghost f0: set<nat>, ghost boot: set<nat>, ghost hardened: bool)
    returns (mapped: bool, ghost mid: Mem)
    requires Ready(v, l, f0, boot, hardened) && p % PAGE_SIZE == 0 && p < 0x10_0000_0000_0000
    modifies v, v.pmm, v.pmm.bitmap
    ensures !mapped ==> v.pmm.free == {}
    ensures mapped ==>
              var root, ix := v.kernelPml4, Indices(ABOVE_IDENTITY);
              && WalkFrom(mid, root, ix) == Leaf(PAGE_SIZE, p + Effective(perm, v.nx))
              && TableAt(mid, root, ix, 1).Some? && !Harden.LargeOnly(mid, root)
              && WalkFrom(v.mem, root, ix).Leaf? && WalkFrom(v.mem, root, ix).span == LARGE_PAGE_SIZE
              && !Harden.PagesKept(mid, v.mem, root)
  {
    hide Linked, Vmm.Held, Vmm.Recorded, Vmm.ClientFrames, WalkFrom, LeafSet, Harden.HardenedFrom, Harden.NoGiant, Word, Present;
    hide LayoutUsable, TableAt, Indices, Effective, HugeFree, MapsElsewhere, Vmm.LargePath, Harden.PagesKept, Vmm.NoSmallBoot;
    hide Harden.LargeOnly, Canonical, MappablePage, Vmm.SmallPath, BootLarge, ExactSpace, NoWx, UpperHalfClear;
    ghost var m, root := v.mem, v.kernelPml4;
    AboveIdentityFree(m, v.shape, root, l, v.nx, hardened, p);
    MappableWith(p, perm, v.nx);
    var r := v.MapPage(ABOVE_IDENTITY, p, Effective(perm, v.nx));
    mid := v.mem;
    if !r.Mapped? {
      return false, mid;
    }
    AfterLowMap(m, mid, root, Indices(ABOVE_IDENTITY), p + Effective(perm, v.nx));
    var h := v.HardenBootMap();
    LostPage(mid, v.mem, v.shape, root, v.nx, Indices(ABOVE_IDENTITY));
    return true, mid;
  }

  lemma MappableWith(p: nat, perm: Perm, nx: bool)
    requires p % PAGE_SIZE == 0 && p < 0x10_0000_0000_0000
    ensures MappablePage(p, Effective(perm, nx)) && p + Effective(perm, nx) < U64_SIZE
  {
    EffectiveFlags(perm, nx);
    EntryFields(p, Effective(perm, nx));
  }

  lemma AboveIdentityFree(m: Mem, s: Shape, root: nat, l: Layout, nx: bool, hardened: bool, p: nat)
    requires LayoutUsable(l) && ExactSpace(m, root, l, nx, hardened) && Linked(m, s, root) && root != 0
    ensures Canonical(ABOVE_IDENTITY) && ValidIx(Indices(ABOVE_IDENTITY)) && Indices(ABOVE_IDENTITY) == Ix(0, 2, 0, 0)
    ensures Vmm.SmallPath(m, s, root, Indices(ABOVE_IDENTITY)) && !MapsElsewhere(m, root, Indices(ABOVE_IDENTITY), p)
  {
    hide WalkFrom, Linked, LayoutUsable, LeafTarget, MappedAt, PermAt, TargetAt;
    assert ExactAt(Translate(m, root, ABOVE_IDENTITY), l, nx, hardened, ABOVE_IDENTITY);
    NotMappedAbove(l);
  }

  lemma NotMappedAbove(l: Layout)
    requires LayoutUsable(l)
    ensures !MappedAt(l, ABOVE_IDENTITY)
  {
    hide AlignDown, AlignUp;
    SectionsOrdered(l);
  }

  lemma AfterLowMap(m: Mem, m': Mem, root: nat, ix: Ix, e: nat)
    requires BootLarge(m, root) && Harden.NoGiant(m, root) && LeafSet(m, m', root, ix, e) && ix == Ix(0, 2, 0, 0)
    ensures Harden.NoGiant(m', root) && Present(Word(m', root, 0)) && WalkFrom(m', root, ix) == Leaf(PAGE_SIZE, e)
  {
    hide WalkFrom, Word, Present, EntryAddr;
    assert Indices(0) == Ix(0, 0, 0, 0);
    assert LargeAt(WalkFrom(m, root, Indices(0)), 0);
    assert ValidIx(Ix(0, 0, 0, 0)) && WalkFrom(m', root, Ix(0, 0, 0, 0)) == WalkFrom(m, root, Ix(0, 0, 0, 0));
    BootSlotPresent(m', root);
    SpanKinds();
  }

  lemma LostPage(m: Mem, m': Mem, s: Shape, root: nat, nx: bool, ix: Ix)
    requires Harden.HardenedFrom(m, m', s, root, nx) && ValidIx(ix) && ix.i4 == 0
    requires WalkFrom(m, root, ix).Leaf? && WalkFrom(m, root, ix).span == PAGE_SIZE
    ensures TableAt(m, root, ix, 1).Some? && !Harden.LargeOnly(m, root)
    ensures WalkFrom(m', root, ix).Leaf? && WalkFrom(m', root, ix).span == LARGE_PAGE_SIZE && !Harden.PagesKept(m, m', root)
  {
    hide WalkFrom, TableAt, Harden.HardenedFrom, Present, Huge, EntryAddr;
    WalkByLevel(m, root, ix);
    NothingAtZero();
    SpanKinds();
    Harden.SmallPageLost(m, m', s, root, nx, ix);
  }

  // Page-table frames belong to no one else.

  /** Every table is out of reach of the allocator's callers, and the pool holds no boot table. */
  lemma TablesIsolated(m: Mem, pool: seq<nat>, boot: set<nat>, shape: Shape, s: Pmm.State)
    requires Vmm.Held(m, pool, boot, shape, s)
    ensures forall t | t in shape :: t / PAGE_SIZE !in s.free && t / PAGE_SIZE !in Vmm.ClientFrames(s.outstanding, pool)
    ensures forall p | p in pool :: p !in boot
  {
    forall t | t in shape
      ensures t / PAGE_SIZE !in s.free && t / PAGE_SIZE !in Vmm.ClientFrames(s.outstanding, pool)
    {
      assert t / PAGE_SIZE * PAGE_SIZE == t;
    }
  }

  /** So a caller may write anything to a frame it was given: no address changes its translation. */
  lemma ClientWrite(m: Mem, pool: seq<nat>, boot: set<nat>, shape: Shape, s: Pmm.State, root: nat, f: nat, data: seq<u64>)
    requires Vmm.Held(m, pool, boot, shape, s) && Linked(m, shape, root)
    requires f in Vmm.ClientFrames(s.outstanding, pool) && |data| == 512
    ensures var m' := m[f * PAGE_SIZE := data];
            Vmm.Held(m', pool, boot, shape, s) && Linked(m', shape, root) && SameSpace(m, m', root)
  {
    hide Linked, WalkFrom, Conserved;
    TablesIsolated(m, pool, boot, shape, s);
    assert f * PAGE_SIZE / PAGE_SIZE == f;
    var m' := m[f * PAGE_SIZE := data];
    Vmm.MemUpdated(m, f * PAGE_SIZE, data);
    forall t | t in shape ensures t in m && t in m' && m'[t] == m[t] {
      LinkedNode(m, shape, root, t);
    }
    OutsideWrite(m, m', shape, root);
  }

  /** A call of the allocator leaves the tables where they are, unless it frees a page-table frame. */
  lemma HeldAfterCall(m: Mem, pool: seq<nat>, boot: set<nat>, shape: Shape, s: Pmm.State, op: Pmm.Op, r: Pmm.Reply, s': Pmm.State)
    requires Vmm.Held(m, pool, boot, shape, s) && Pmm.Step(s, op, r, s')
    requires op.Deallocate? ==> op.phys / PAGE_SIZE in Vmm.ClientFrames(s.outstanding, pool)
    ensures Vmm.Held(m, pool, boot, shape, s') && s'.free + s'.outstanding <= s.free + s.outstanding
    ensures Vmm.ClientFrames(s'.outstanding, pool) == Vmm.ClientFrames(s.outstanding, pool) + Gained(op, r) - Lost(op, r)
  {
    hide Vmm.MemOk, Pmm.Step, Gained, Lost;
    StepConserves(s, op, r, s');
    StepKeepsPool(s, op, r, s');
    StepMoves(s, op, r, s');
    hide Vmm.ClientFrames;
    FramesAfterCall(pool, s, op, r, s');
  }

  /** What a call does to the frames handed out. */
  lemma StepMoves(s: Pmm.State, op: Pmm.Op, r: Pmm.Reply, s': Pmm.State)
    requires Pmm.Step(s, op, r, s') && Conserved(s)
    ensures s'.outstanding == s.outstanding + Gained(op, r) - Lost(op, r) && s'.initialised == s.initialised
    ensures Gained(op, r) <= s.free && (Gained(op, r) == {} || Lost(op, r) == {})
  {
    hide Pmm.Touched, Pmm.Interval, Pmm.Answer;
    if op.Allocate? && r.Frames? {
      AllocationMoves(s, op.count, op.align, r.start);
    }
  }

  lemma FramesAfterCall(pool: seq<nat>, s: Pmm.State, op: Pmm.Op, r: Pmm.Reply, s': Pmm.State)
    requires forall p | p in pool :: Vmm.IsFrame(p) && p / PAGE_SIZE in s.outstanding
    requires s'.outstanding == s.outstanding + Gained(op, r) - Lost(op, r) && s.free !! s.outstanding
    requires Gained(op, r) <= s.free && (Gained(op, r) == {} || Lost(op, r) == {})
    requires op.Deallocate? ==> op.phys / PAGE_SIZE in Vmm.ClientFrames(s.outstanding, pool)
    ensures forall p | p in pool :: p / PAGE_SIZE in s'.outstanding
    ensures Vmm.ClientFrames(s'.outstanding, pool) == Vmm.ClientFrames(s.outstanding, pool) + Gained(op, r) - Lost(op, r)
  {
    hide Pmm.Interval;
    assert forall f | f in Gained(op, r) :: f * PAGE_SIZE !in pool by {
      assert forall f: nat :: f * PAGE_SIZE / PAGE_SIZE == f;
    }
    forall p | p in pool ensures p / PAGE_SIZE in s'.outstanding {
      assert p / PAGE_SIZE * PAGE_SIZE == p;
    }
  }

  /** Frames a call hands to its caller. */
  function Gained(op: Pmm.Op, r: Pmm.Reply): set<nat> {
    if op.Allocate? && r.Frames? then Pmm.Run(r.start, op.count) else {}
  }

  /** Frames a call takes back. */
  function Lost(op: Pmm.Op, r: Pmm.Reply): set<nat> {
    if op.Deallocate? && r.Ok? then {op.phys / PAGE_SIZE} else {}
  }

  // Runs of memory calls after boot.

  datatype Call =
    | MapPages(va: nat, pa: nat, size: nat, perm: Perm)
    | HardenAgain
    | Frames(op: Pmm.Op)
    | UseFrame(frame: nat, data: seq<u64>)

  /** What every run keeps. `owned` are the frames callers hold; `f0` are the frames boot left to the allocator. */
  ghost predicate Sound(v: Vmm.Vmm, owned: set<nat>, f0: set<nat>)
    reads v, v.pmm, v.pmm.bitmap
  {
    && v.Valid() && v.kernelPml4 != 0 && v.cr3 == v.kernelPml4 && v.nx
    && v.Clients() == owned && v.pmm.free + v.pmm.outstanding <= f0
    && NoWx(v.mem, v.kernelPml4) && Harden.NoGiant(v.mem, v.kernelPml4)
  }

  /** Every upper-half address mapped in `m` is mapped to the same target in `m'`. */
  ghost predicate UpperKept(m: Mem, m': Mem, root: nat) {
    forall x: nat | Canonical(x) && x >= HIGH_HALF && Translate(m, root, x).Some? ::
      Translate(m', root, x).Some? && Translate(m', root, x).value.0 == Translate(m, root, x).value.0
  }

  lemma UpperKeptRules(m0: Mem, m: Mem, m': Mem, root: nat)
    ensures UpperKept(m, m, root)
    ensures UpperKept(m0, m, root) && UpperKept(m, m', root) ==> UpperKept(m0, m', root)
    ensures TargetsKept(m, m', root) ==> UpperKept(m, m', root)
    ensures SameSpace(m, m', root) ==> UpperKept(m, m', root)
  {
    hide WalkFrom, Indices, Canonical, LeafTarget;
    assert forall x: nat :: ValidIx(Indices(x));
  }

  lemma HardenUpper(m: Mem, m': Mem, s: Shape, root: nat, nx: bool)
    requires Harden.HardenedFrom(m, m', s, root, nx)
    ensures UpperKept(m, m', root)
  {
    hide WalkFrom, Indices, Harden.HardenedFrom, LeafTarget;
    forall x: nat | Canonical(x) && x >= HIGH_HALF ensures Translate(m', root, x) == Translate(m, root, x) {
      HighIndex(x);
      Harden.OtherSlotsUnchanged(m, m', s, root, nx, Indices(x));
    }
  }

  lemma MapNoGiant(m: Mem, m': Mem, root: nat, va: nat, pa: nat, n: nat, f: u64)
    requires MapsRange(m, m', root, va, pa, n, f) && Harden.NoGiant(m, root)
    ensures Harden.NoGiant(m', root)
  {
    hide WalkFrom, Indices, VaOf, Canonical, PageEntry;
    forall ix | ValidIx(ix) && WalkFrom(m', root, ix).Leaf? ensures WalkFrom(m', root, ix).span != HUGE_PAGE_SIZE {
      VaOfIndices(ix);
    }
  }

  /** The calls of a run map only from a canonical start, where no large page stands in the way. */
  predicate MayMap(m: Mem, root: nat, va: nat, pa: nat, size: nat) {
    && Canonical(va) && pa < 0x10_0000_0000_0000 && size < U64_SIZE
    && forall k: nat | k < size / PAGE_SIZE ::
         Canonical(va + k * PAGE_SIZE) ==> HugeFree(m, root, Indices(va + k * PAGE_SIZE))
  }

  method PerformMap(v: Vmm.Vmm, va: nat, pa: nat, size: nat, perm: Perm, ghost owned: set<nat>, ghost f0: set<nat>)
    returns (stop: bool)
    requires Sound(v, owned, f0) && MayMap(v.mem, v.kernelPml4, va, pa, size)
    modifies v, v.pmm, v.pmm.bitmap
    ensures Sound(v, owned, f0) && UpperKept(old(v.mem), v.mem, v.kernelPml4)
    ensures v.kernelPml4 == old(v.kernelPml4) && v.bootTables == old(v.bootTables) && old(v.shape).Keys <= v.shape.Keys
  {
    hide Linked, Vmm.Held, Vmm.Recorded, Vmm.ClientFrames, MapsRange, TargetsKept, NoWx, Harden.NoGiant, UpperKept;
    hide Effective, HugeFree, Indices, Canonical, MapsElsewhere;
    ghost var m := v.mem;
    ghost var done;
    var r;
    r, done := v.Map4k(va, pa, size, perm);
    UpperKeptRules(m, m, v.mem, v.kernelPml4);
    if !r.Unaligned? {
      MapKeepsNoWx(m, v.mem, v.kernelPml4, va, pa, done, perm);
      MapNoGiant(m, v.mem, v.kernelPml4, va, pa, done, Effective(perm, true));
    }
    stop := !r.Mapped?;
  }

  /** Hardening again never meets a 1 GiB page, so its assertion holds. */
  method PerformHarden(v: Vmm.Vmm, ghost owned: set<nat>, ghost f0: set<nat>) returns (r: Outcome<nat>)
    requires Sound(v, owned, f0)
    modifies v`mem
    ensures r.Done? && Sound(v, owned, f0) && UpperKept(old(v.mem), v.mem, v.kernelPml4)
  {
    hide Linked, Vmm.Held, Vmm.Recorded, Vmm.ClientFrames, Harden.NoGiant, Harden.HardenedFrom;
    hide WalkFrom, WxEntry, Word, Present, UpperKept;
    ghost var m := v.mem;
    r := v.HardenBootMap();
    UpperKeptRules(m, m, m, v.kernelPml4);
    if v.mem != m {
      HardenUpper(m, v.mem, v.shape, v.kernelPml4, true);
      Harden.HardenNoGiant(m, v.mem, v.shape, v.kernelPml4, true);
      forall ix | ValidIx(ix) && WalkFrom(v.mem, v.kernelPml4, ix).Leaf?
        ensures !WxEntry(WalkFrom(v.mem, v.kernelPml4, ix).entry)
      {
        Harden.HardenedLeaf(m, v.mem, v.shape, v.kernelPml4, true, ix);
      }
    }
  }

  /** The frames of the tables. */
  ghost function TableFrames(s: Shape): set<nat> {
    set t | t in s :: t / PAGE_SIZE
  }

  /** An allocator call: callers gain and lose exactly what the reply says, and nothing they gain is a table. */
  method PerformFrames(v: Vmm.Vmm, op: Pmm.Op, owned: set<nat>, ghost f0: set<nat>) returns (r: Pmm.Reply, owned': set<nat>)
    requires Sound(v, owned, f0) && (op.Deallocate? ==> op.phys / PAGE_SIZE in owned)
    modifies v.pmm, v.pmm.bitmap
    ensures Sound(v, owned', f0) && owned' == owned + Gained(op, r) - Lost(op, r)
    ensures Pmm.Step(old(v.pmm.View()), op, r, v.pmm.View())
    ensures Gained(op, r) !! TableFrames(v.shape) && Gained(op, r) !! owned
  {
    hide Linked, Vmm.Held, Vmm.Recorded, NoWx, Harden.NoGiant, Pmm.Step, Vmm.ClientFrames, Gained, Lost, TableFrames;
    ghost var s := v.pmm.View();
    r := DoOp(v.pmm, op);
    HeldAfterCall(v.mem, v.pool, v.bootTables, v.shape, s, op, r, v.pmm.View());
    GainedApart(v.mem, v.pool, v.bootTables, v.shape, s, op, r, v.pmm.View());
    owned' := owned + Gained(op, r) - Lost(op, r);
  }

  /** What the allocator hands out is neither a table nor held by a caller. */
  lemma GainedApart(m: Mem, pool: seq<nat>, boot: set<nat>, shape: Shape, s: Pmm.State, op: Pmm.Op, r: Pmm.Reply, s': Pmm.State)
    requires Vmm.Held(m, pool, boot, shape, s) && Pmm.Step(s, op, r, s')
    ensures Gained(op, r) !! TableFrames(shape) && Gained(op, r) !! Vmm.ClientFrames(s.outstanding, pool)
  {
    hide Vmm.MemOk, Pmm.Step, Gained, Lost;
    StepMoves(s, op, r, s');
    TablesIsolated(m, pool, boot, shape, s);
  }

  method DoOp(pmm: Pmm.Pmm, op: Pmm.Op) returns (r: Pmm.Reply)
    requires pmm.Valid()
    modifies pmm, pmm.bitmap
    ensures pmm.Valid() && Pmm.Step(old(pmm.View()), op, r, pmm.View())
  {
    hide Pmm.Step, Pmm.Pmm.Valid;
    match op
    case Reserve(start, end) => r := pmm.ReserveRange(start, end);
    case Allocate(count, align) => r := pmm.Allocate(count, align);
    case Deallocate(phys) => r := pmm.Deallocate(phys);
  }

  /** A caller writes the frame it was given. */
  method PerformUse(v: Vmm.Vmm, f: nat, data: seq<u64>, ghost owned: set<nat>, ghost f0: set<nat>)
    requires Sound(v, owned, f0) && f in owned && |data| == 512
    modifies v`mem
    ensures Sound(v, owned, f0) && SameSpace(old(v.mem), v.mem, v.kernelPml4)
  {
    hide Linked, Vmm.Held, Vmm.Recorded, Vmm.ClientFrames, WalkFrom, WxEntry;
    ClientWrite(v.mem, v.pool, v.bootTables, v.shape, v.pmm.View(), v.kernelPml4, f, data);
    v.mem := v.mem[f * PAGE_SIZE := data];
  }

  /** An allocator call of a run, its reply, and the table frames at that time. */
  datatype Entry = Entry(op: Pmm.Op, reply: Pmm.Reply, tables: set<nat>)

  /** What callers hold after the allocator's replies. */
  function Ledger(owned: set<nat>, log: seq<Entry>): set<nat> {
    if log == [] then owned else
    var e := log[|log| - 1];
    Ledger(owned, log[..|log| - 1]) + Gained(e.op, e.reply) - Lost(e.op, e.reply)
  }

  /** No frame that has ever been a table is handed out then or later. */
  ghost predicate NeverTables(log: seq<Entry>) {
    forall i: nat, j: nat | i <= j < |log| :: log[i].tables !! Gained(log[j].op, log[j].reply)
  }

  /** The tables of the past are still tables. */
  ghost predicate StillTables(log: seq<Entry>, s: Shape) {
    forall i: nat | i < |log| :: log[i].tables <= TableFrames(s)
  }

  lemma LogGrows(log: seq<Entry>, e: Entry, owned: set<nat>, s: Shape)
    requires NeverTables(log) && StillTables(log, s) && e.tables == TableFrames(s) && Gained(e.op, e.reply) !! TableFrames(s)
    ensures NeverTables(log + [e]) && StillTables(log + [e], s)
    ensures Ledger(owned, log + [e]) == Ledger(owned, log) + Gained(e.op, e.reply) - Lost(e.op, e.reply)
  {
    hide Gained, Lost, TableFrames;
    assert (log + [e])[..|log|] == log;
  }

  lemma TablesGrow(log: seq<Entry>, s: Shape, s': Shape)
    requires StillTables(log, s) && s.Keys <= s'.Keys
    ensures StillTables(log, s')
  {
  }

  /**
   Any series of memory calls by callers that free and write only the frames they own, and map only where no large
   page stands in the way. Whatever the calls are and wherever the series ends: no page is writable and executable;
   page-table frames are distinct, and none of them is free, owned by a caller, or a boot table; the callers own what
   the replies gave them and no reply ever gave out a frame that was a table; and every upper-half address mapped at the
   start still has its target, which is no table now either.
   */
  method RunCalls(v: Vmm.Vmm, calls: seq<Call>, owned0: set<nat>, ghost f0: set<nat>)
    returns (owned: set<nat>, ghost log: seq<Entry>)
    requires Sound(v, owned0, f0)
    modifies v, v.pmm, v.pmm.bitmap
    ensures Sound(v, owned, f0) && Vmm.Distinct(v.pool) && v.kernelPml4 == old(v.kernelPml4)
    ensures forall t | t in v.shape :: t / PAGE_SIZE !in v.pmm.free && t / PAGE_SIZE !in owned
    ensures forall p | p in v.pool :: p !in v.bootTables && p / PAGE_SIZE in f0
    ensures owned == Ledger(owned0, log) && NeverTables(log) && StillTables(log, v.shape)
    ensures UpperKept(old(v.mem), v.mem, v.kernelPml4)
    ensures UpperHalfClear(old(v.mem), v.kernelPml4, f0, v.bootTables) ==>
              forall x: nat | Canonical(x) && x >= HIGH_HALF && Translate(old(v.mem), v.kernelPml4, x).Some? ::
                Translate(v.mem, v.kernelPml4, x).Some?
                && Translate(v.mem, v.kernelPml4, x).value.0 / PAGE_SIZE !in TableFrames(v.shape)
  {
    hide Sound, MayMap, UpperKept, NeverTables, StillTables, Gained, Lost, UpperHalfClear, TableFrames;
    owned, log := owned0, [];
    var stop, k := false, 0;
    UpperKeptRules(v.mem, v.mem, v.mem, v.kernelPml4);
    NothingLogged(v.shape);
    while k < |calls| && !stop
      invariant 0 <= k <= |calls| && Sound(v, owned, f0)
      invariant v.kernelPml4 == old(v.kernelPml4) && v.bootTables == old(v.bootTables)
      invariant owned == Ledger(owned0, log) && NeverTables(log) && StillTables(log, v.shape)
      invariant UpperKept(old(v.mem), v.mem, v.kernelPml4)
    {
      label Before:
      ghost var entry;
      stop, owned, entry := Perform(v, calls[k], owned, f0);
      UpperKeptRules(old(v.mem), old@Before(v.mem), v.mem, v.kernelPml4);
      TablesGrow(log, old@Before(v.shape), v.shape);
      if entry.Some? {
        LogGrows(log, entry.value, owned0, v.shape);
        log := log + [entry.value];
      }
      k := k + 1;
    }
    SoundIsolates(v, owned, f0);
    SoundUpper(v, owned, f0, old(v.mem));
  }

  lemma NothingLogged(s: Shape)
    ensures NeverTables([]) && StillTables([], s)
  {
  }

  method Perform(v: Vmm.Vmm, c: Call, owned: set<nat>, ghost f0: set<nat>)
    returns (stop: bool, owned': set<nat>, ghost entry: Option<Entry>)
    requires Sound(v, owned, f0)
    modifies v, v.pmm, v.pmm.bitmap
    ensures Sound(v, owned', f0) && UpperKept(old(v.mem), v.mem, v.kernelPml4)
    ensures v.kernelPml4 == old(v.kernelPml4) && v.bootTables == old(v.bootTables) && old(v.shape).Keys <= v.shape.Keys
    ensures entry.None? ==> owned' == owned
    ensures entry.Some? ==>
              var e := entry.value;
              && c == Frames(e.op) && owned' == owned + Gained(e.op, e.reply) - Lost(e.op, e.reply)
              && e.tables == TableFrames(v.shape) && Gained(e.op, e.reply) !! e.tables
  {
    hide Sound, MayMap, UpperKept, Gained, Lost, TableFrames, Pmm.Step, SameSpace;
    stop, owned', entry := false, owned, None;
    UpperKeptRules(v.mem, v.mem, v.mem, v.kernelPml4);
    match c
    case MapPages(va, pa, size, perm) =>
      if MayMap(v.mem, v.kernelPml4, va, pa, size) {
        stop := PerformMap(v, va, pa, size, perm, owned, f0);
      }
    case HardenAgain =>
      var r := PerformHarden(v, owned, f0);
    case Frames(op) =>
      if !op.Deallocate? || op.phys / PAGE_SIZE in owned {
        var r;
        r, owned' := PerformFrames(v, op, owned, f0);
        entry := Some(Entry(op, r, TableFrames(v.shape)));
        stop := r.Stopped?;
      }
    case UseFrame(f, data) =>
      if f in owned && |data| == 512 {
        PerformUse(v, f, data, owned, f0);
        UpperKeptRules(old(v.mem), old(v.mem), v.mem, v.kernelPml4);
      }
  }

  lemma SoundIsolates(v: Vmm.Vmm, owned: set<nat>, f0: set<nat>)
    requires Sound(v, owned, f0)
    ensures Vmm.Distinct(v.pool)
    ensures forall t | t in v.shape :: t / PAGE_SIZE !in v.pmm.free && t / PAGE_SIZE !in owned
    ensures forall p | p in v.pool :: p !in v.bootTables && p / PAGE_SIZE in f0
  {
    hide Linked, Vmm.MemOk, Conserved, NoWx, Harden.NoGiant, Vmm.ClientFrames;
    TablesIsolated(v.mem, v.pool, v.bootTables, v.shape, v.pmm.View());
  }

  /** No upper-half address reaches a frame the allocator may hand out or a boot table. */
  ghost predicate UpperHalfClear(m: Mem, root: nat, f0: set<nat>, boot: set<nat>) {
    forall x: nat | Canonical(x) && x >= HIGH_HALF && Translate(m, root, x).Some? ::
      var frame := Translate(m, root, x).value.0 / PAGE_SIZE;
      frame !in f0 && frame * PAGE_SIZE !in boot
  }

  /** Upper-half targets that were clear of tables at the start of a run are clear of the tables there are now. */
  lemma SoundUpper(v: Vmm.Vmm, owned: set<nat>, f0: set<nat>, m0: Mem)
    requires Sound(v, owned, f0) && UpperKept(m0, v.mem, v.kernelPml4)
    ensures UpperHalfClear(m0, v.kernelPml4, f0, v.bootTables) ==>
              forall x: nat | Canonical(x) && x >= HIGH_HALF && Translate(m0, v.kernelPml4, x).Some? ::
                Translate(v.mem, v.kernelPml4, x).Some?
                && Translate(v.mem, v.kernelPml4, x).value.0 / PAGE_SIZE !in TableFrames(v.shape)
  {
    hide Linked, Vmm.MemOk, Conserved, NoWx, Harden.NoGiant, Vmm.ClientFrames, Translate, Canonical;
    assert forall t | t in v.shape :: t in v.pool || t in v.bootTables;
    assert forall t | t in v.shape :: t / PAGE_SIZE * PAGE_SIZE == t;
    assert forall t | t in v.shape :: t / PAGE_SIZE in f0 || t in v.bootTables;
  }

  // The boot sequence.

  /** Where the linker script puts things: boot tables and stacks, then the sections, then the heap, all in the image. */
  predicate PlacedAt(l: Layout, img: Image) {
    && 0x10_0000 <= img.physStart && img.bssStart <= img.bssEnd && KERNEL_VMA + img.bssEnd <= l.textStart
    && l.virtEnd <= AlignUp(l.virtEnd) <= KERNEL_VMA + img.physEnd
    && img.bssEnd <= l.heapStart && l.heapEnd <= img.physEnd
  }

  /** Frame of the boot stub's zeroed area. */
  predicate InBootBss(t: nat, img: Image) {
    img.bssStart <= t && t + PAGE_SIZE <= img.bssEnd
  }

  /** Every region but the VGA page is backed by the image, above the boot stub's area. */
  lemma RegionPhysical(l: Layout, img: Image, r: Region)
    requires LayoutUsable(l) && PlacedAt(l, img) && r in KernelRegions(l)
    ensures r == VgaRegion() || (img.bssEnd <= r.pa && r.pa + r.size <= img.physEnd)
  {
    hide AlignDown, AlignUp, SectionsAsserted;
    SectionsOrdered(l);
  }

  /** The frame of a byte of a reserved range is not left to the allocator. */
  lemma ReservedByte(info: BootInfo, img: Image, limit: Option<nat>, s: Pmm.State, r: Range, a: nat)
    requires Booted(s, info, img, limit) && r in BootRanges(info, img, limit) && r.start <= a < r.end
    ensures a / PAGE_SIZE !in s.free
  {
    hide BootRanges, Pmm.Usable;
    assert Pmm.Meets(a / PAGE_SIZE, r.start, r.end);
    assert a / PAGE_SIZE < Pmm.MAX_FRAMES ==> MeetsAny(a / PAGE_SIZE, BootRanges(info, img, limit));
  }

  lemma ImageReserved(info: BootInfo, img: Image, limit: Option<nat>)
    ensures Range(0, 0x1000) in BootRanges(info, img, limit)
    ensures Range(0xA_0000, 0xC_0000) in BootRanges(info, img, limit)
    ensures Range(img.physStart, img.physEnd) in BootRanges(info, img, limit)
  {
    var f := FixedRanges(img);
    assert f[0] in f && f[2] in f && f[4] in f;
  }

  datatype Tables = Tables(pml4: nat, pdpt: nat, pd0: nat, pd1: nat)

  function TableSet(t: Tables): set<nat> {
    {t.pml4, t.pdpt, t.pd0, t.pd1}
  }

  lemma TargetReserved(m: Mem, root: nat, l: Layout, nx: bool, info: BootInfo, img: Image, limit: Option<nat>, s: Pmm.State, boot: set<nat>)
    requires LayoutUsable(l) && PlacedAt(l, img) && SpaceIs(m, root, KernelRegions(l), nx) && root != 0
    requires forall reg | reg in KernelRegions(l) :: RegionAligned(reg)
    requires Booted(s, info, img, limit) && img.physStart <= img.bssStart
    requires forall t | t in boot :: InBootBss(t, img)
    ensures UpperHalfClear(m, root, s.free, boot)
  {
    hide LayoutUsable, PlacedAt, SpaceIs, KernelRegions, RegionAligned, Booted, BootRanges, Translate, Canonical;
    ImageReserved(info, img, limit);
    forall x: nat | Canonical(x) && x >= HIGH_HALF && Translate(m, root, x).Some?
      ensures var frame := Translate(m, root, x).value.0 / PAGE_SIZE; frame !in s.free && frame * PAGE_SIZE !in boot
    {
      var r := UpperHalfTarget(m, root, l, nx, x);
      RegionPhysical(l, img, r);
      LowImage(l, img);
      var a := Translate(m, root, x).value.0;
      if r == VgaRegion() {
        ReservedByte(info, img, limit, s, Range(0xA_0000, 0xC_0000), a);
      } else {
        ReservedByte(info, img, limit, s, Range(img.physStart, img.physEnd), a);
      }
      FrameOutside(img, a, boot);
    }
  }

  lemma LowImage(l: Layout, img: Image)
    requires PlacedAt(l, img)
    ensures 0x10_0000 <= img.physStart && img.bssStart <= img.bssEnd
  {
  }

  lemma FrameOutside(img: Image, a: nat, boot: set<nat>)
    requires forall t | t in boot :: InBootBss(t, img)
    requires a < 0x10_0000 <= img.bssStart || img.bssEnd <= a
    ensures a / PAGE_SIZE * PAGE_SIZE !in boot
  {
    assert InBootBss(a / PAGE_SIZE * PAGE_SIZE, img) ==> img.bssStart <= a < img.bssEnd;
  }

  lemma UpperHalfHardened(m: Mem, m': Mem, s: Shape, root: nat, nx: bool, f0: set<nat>, boot: set<nat>)
    requires Harden.HardenedFrom(m, m', s, root, nx) && UpperHalfClear(m, root, f0, boot)
    ensures UpperHalfClear(m', root, f0, boot)
  {
    hide WalkFrom, Indices, Harden.HardenedFrom, LeafTarget;
    forall x: nat | Canonical(x) && x >= HIGH_HALF ensures Translate(m', root, x) == Translate(m, root, x) {
      HighIndex(x);
      Harden.OtherSlotsUnchanged(m, m', s, root, nx, Indices(x));
    }
  }

  lemma BootSlotPresent(m: Mem, root: nat)
    requires WalkFrom(m, root, Ix(0, 0, 0, 0)).Leaf?
    ensures Present(Word(m, root, 0))
  {
  }

  /** Boot tables and frame 0 are not left to the allocator. */
  lemma BootFramesReserved(info: BootInfo, img: Image, limit: Option<nat>, s: Pmm.State, boot: set<nat>)
    requires Booted(s, info, img, limit) && img.physStart <= img.bssStart && img.bssEnd <= img.physEnd
    requires forall t | t in boot :: InBootBss(t, img)
    ensures 0 !in s.free && s.outstanding == {}
    ensures forall t | t in boot :: t / PAGE_SIZE !in s.free
  {
    hide BootRanges;
    ImageReserved(info, img, limit);
    ReservedByte(info, img, limit, s, Range(0, 0x1000), 0);
    forall t | t in boot ensures t / PAGE_SIZE !in s.free {
      ReservedByte(info, img, limit, s, Range(img.physStart, img.physEnd), t);
    }
  }

  /**
   The address space that boot leaves behind: exact address by address, clear of every frame the allocator may hand out,
   and write-xor-execute exactly when it is hardened with NX.
   */
  ghost predicate Ready(v: Vmm.Vmm, l: Layout, f0: set<nat>, boot: set<nat>, hardened: bool)
    reads v, v.pmm, v.pmm.bitmap
  {
    && v.Valid() && v.kernelPml4 != 0 && v.cr3 == v.kernelPml4 && v.bootTables == boot
    && v.Clients() == {} && v.pmm.free + v.pmm.outstanding <= f0
    && Harden.NoGiant(v.mem, v.kernelPml4) && (NoWx(v.mem, v.kernelPml4) <==> v.nx && hardened)
    && UpperHalfClear(v.mem, v.kernelPml4, f0, boot)
    && LayoutUsable(l) && ExactSpace(v.mem, v.kernelPml4, l, v.nx, hardened)
    && BootLarge(v.mem, v.kernelPml4) && Vmm.NoSmallBoot(v.shape)
  }

  /**
   Steps 9 and 10 of `kmain`, from an allocator that holds no reserved frame. They fail only over a layout that `init`
   rejects or with fewer free frames than the tables can take.
   */
  method BootAddressSpace(v: Vmm.Vmm, l: Layout, harden: bool, info: BootInfo, img: Image, limit: Option<nat>, ghost t: Tables)
    returns (ok: bool, rewritten: nat)
    requires v.Valid() && v.kernelPml4 == 0 && v.shape == map[] && v.pool == []
    requires Booted(v.pmm.View(), info, img, limit) && PlacedAt(l, img)
    requires img.physStart <= img.bssStart && img.bssEnd <= img.physEnd
    requires v.cr3 == t.pml4 && BuiltTables(v.mem, t.pml4, t.pdpt, t.pd0, t.pd1) && v.bootTables == TableSet(t)
    requires forall b | b in TableSet(t) :: InBootBss(b, img)
    modifies v, v.pmm, v.pmm.bitmap
    ensures v.nx == old(v.nx)
    ensures ok ==> LayoutMappable(l) && Ready(v, l, old(v.pmm.free), TableSet(t), harden)
    ensures ok && harden ==> rewritten == 2048
    ensures !ok ==> !LayoutMappable(l) || |old(v.pmm.free)| <= TablesNeeded(l)
  {
    hide Linked, Vmm.Held, Vmm.Recorded, BuiltTables, SpaceIs, LayoutUsable, KernelRegions, RegionAligned, Booted, PlacedAt;
    hide NoWx, Harden.NoGiant, Harden.HardenedFrom, UpperHalfClear, Vmm.NoSmallBoot, WalkFrom, Word, Present, InBootBss;
    hide LayoutMappable, ExactSpace, BootLarge;
    ghost var s0 := v.pmm.View();
    BootFramesReserved(info, img, limit, s0, TableSet(t));
    NoClients(v.pool);
    var r := v.Init(l, t.pdpt, t.pd0, t.pd1);
    if r.Panic? {
      if v.pmm.free == {} {
        AllFramesPooled(v.pmm.outstanding, v.pool);
      }
      return false, 0;
    }
    ghost var m, root := v.mem, v.kernelPml4;
    SpaceNoGiant(m, root, KernelRegions(l), v.nx);
    InitExact(m, root, l, v.nx);
    InitBootLarge(m, root, l, v.nx);
    TargetReserved(m, root, l, v.nx, info, img, limit, s0, TableSet(t));
    BootMapInherited(m, root, l, v.nx);
    BootSlotPresent(m, root);
    if harden {
      r := v.HardenBootMap();
      InitThenHarden(m, v.mem, v.shape, root, l, v.nx);
      Harden.HardenNoGiant(m, v.mem, v.shape, root, v.nx);
      UpperHalfHardened(m, v.mem, v.shape, root, v.nx, s0.free, TableSet(t));
      HardenExact(m, v.mem, v.shape, root, l, v.nx);
      HardenBootLarge(m, v.mem, v.shape, root, v.nx);
      RewritesAll(m, v.shape, root, l, v.nx, false);
      rewritten := r.value;
    } else {
      rewritten := 0;
      InitThenHarden(m, m, v.shape, root, l, v.nx);
    }
    ok := true;
  }

  /** When callers hold nothing, there are no more frames outstanding than pool frames. */
  lemma {:induction false} AllFramesPooled(outstanding: set<nat>, pool: seq<nat>)
    requires Vmm.ClientFrames(outstanding, pool) == {}
    ensures |outstanding| <= |pool|
    decreases |pool|
  {
    assert forall f | f in outstanding :: f * PAGE_SIZE in pool by {
      assert forall f | f in outstanding && f * PAGE_SIZE !in pool :: f in Vmm.ClientFrames(outstanding, pool);
    }
    if outstanding == {} {
    } else if pool != [] {
      var n := |pool| - 1;
      var rest := outstanding - {pool[n] / PAGE_SIZE};
      forall f | f in rest ensures f * PAGE_SIZE in pool[..n] {
        assert f * PAGE_SIZE in pool && f * PAGE_SIZE != pool[n];
      }
      AllFramesPooled(rest, pool[..n]);
      assert |rest| >= |outstanding| - 1;
    }
  }

  lemma NoClients(pool: seq<nat>)
    ensures Vmm.ClientFrames({}, pool) == {}
  {
  }

  /**
   The boot sequence from the boot stub's tables to the hardened address space, or a panic. What it leaves is
   write-xor-execute exactly when NX is available and hardening was not switched off. It panics only when the loader's
   structure or a reservation is refused, when `init` rejects the layout, or when the frames left by the reservations
   are fewer than the tables can take.
   */
  method BootKernel(phys: nat, ram: seq<byte>, img: Image, limit: Option<nat>, l: Layout, mem0: Mem, t: Tables, nx: bool, harden: bool)
    returns (r: Option<Vmm.Vmm>, ghost f0: set<nat>)
    requires PlacedAt(l, img)
    requires FourTables(t.pml4, t.pdpt, t.pd0, t.pd1) && forall b | b in TableSet(t) :: InBootBss(b, img)
    requires Vmm.MemOk(mem0) && forall b | b in TableSet(t) :: b in mem0 && mem0[b] == Zeros()
    ensures r.Some? ==>
              var v := r.value;
              && Bootable(phys, ram, img, limit) && LayoutMappable(l)
              && fresh(v) && fresh(v.pmm) && fresh(v.pmm.bitmap)
              && v.nx == nx && Ready(v, l, f0, TableSet(t), harden)
              && (nx && harden ==> Sound(v, {}, f0))
    ensures r.None? ==> !Bootable(phys, ram, img, limit) || !LayoutMappable(l) || |f0| <= TablesNeeded(l)
    ensures Bootable(phys, ram, img, limit) ==> f0 == FramesLeft(ReadSpec(phys, ram).value.value, img, limit)
  {
    hide Ready, BuiltTables, FourTables, PlacedAt, InBootBss, Booted, Zeros, Vmm.MemOk, Vmm.Recorded, Linked, Conserved;
    hide LayoutMappable, ReadSpec, Reservable, FramesLeft, TablesNeeded;
    r, f0 := None, {};
    var mem := BuildBootTables(mem0, t.pml4, t.pdpt, t.pd0, t.pd1);
    var boot := BootAllocator(phys, ram, img, limit);
    if boot.None? {
      return;
    }
    var (pmm, info) := boot.value;
    f0 := pmm.free;
    ImageInside(phys, ram, img, limit);
    BootFramesReserved(info, img, limit, pmm.View(), TableSet(t));
    MemBuilt(mem0, mem, t);
    TablesAreFrames(t);
    BootedSound(pmm.View(), info, img, limit);
    var v := new Vmm.Vmm(pmm, mem, t.pml4, nx, TableSet(t));
    var ok, _ := BootAddressSpace(v, l, harden, info, img, limit, t);
    if ok {
      ReadyIsSound(v, l, f0, TableSet(t), harden);
      r := Some(v);
    }
  }

  lemma ImageInside(phys: nat, ram: seq<byte>, img: Image, limit: Option<nat>)
    requires Bootable(phys, ram, img, limit)
    ensures img.physStart <= img.bssStart && img.bssEnd <= img.physEnd
  {
    hide ReadSpec, BootRanges;
  }

  lemma ReadyIsSound(v: Vmm.Vmm, l: Layout, f0: set<nat>, boot: set<nat>, hardened: bool)
    requires Ready(v, l, f0, boot, hardened)
    ensures hardened && v.nx ==> Sound(v, {}, f0)
  {
  }

  lemma BootedSound(s: Pmm.State, info: BootInfo, img: Image, limit: Option<nat>)
    requires Booted(s, info, img, limit)
    ensures s.initialised && Conserved(s) && s.outstanding == {} && s.free == FramesLeft(info, img, limit)
  {
  }

  lemma TablesAreFrames(t: Tables)
    requires FourTables(t.pml4, t.pdpt, t.pd0, t.pd1)
    ensures forall b | b in TableSet(t) :: Vmm.IsFrame(b)
  {
  }

  lemma MemBuilt(m0: Mem, m: Mem, t: Tables)
    requires Vmm.MemOk(m0) && BuiltTables(m, t.pml4, t.pdpt, t.pd0, t.pd1)
    requires m.Keys == m0.Keys && forall b | b in m0 && b !in TableSet(t) :: m[b] == m0[b]
    ensures Vmm.MemOk(m)
  {
    hide Word, PdWord, PdptWord, Pml4Word;
    forall f: nat | f < Pmm.MAX_FRAMES ensures Vmm.FrameOk(m, f) {
      assert Vmm.FrameOk(m0, f);
    }
  }
}
