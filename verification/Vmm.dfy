/**
 The kernel's page-table manager.

 `Vmm` owns physical memory as the tables see it, the root of the kernel's hierarchy and the pool of
 page-table frames drawn from the frame allocator. Its methods are specified by what they do to
 `WalkFrom`, the flat map from index paths to leaves.
 */
module Vmm {
  import opened Bits
  import opened Wrappers
  import opened Paging
  import opened PageTable
  import opened AddressSpace
  import opened BootTables
  import opened KernelMap
  import Harden
  import Audit
  import opened PmmRuns
  import Pmm
  import Bitmap

  /** How `map_4k` ends: `Mapped`, one of its panics, or a page fault on a table outside the boot map. */
  datatype MapResult = Mapped | Unaligned | NotInitialised | OutOfFrames | NonCanonical | AlreadyMapped | Fault

  datatype Descent = Table(pa: nat) | NoFrame | BadTable

  ghost predicate FrameOk(m: Mem, f: nat) {
    f * PAGE_SIZE in m && |m[f * PAGE_SIZE]| == 512
  }

  /** Memory holds every frame of the boot-mapped range. */
  ghost predicate MemOk(m: Mem) {
    forall f: nat | f < Pmm.MAX_FRAMES :: FrameOk(m, f)
  }

  /** A frame of the boot-mapped range, by its address. */
  predicate IsFrame(pa: nat) {
    pa % PAGE_SIZE == 0 && pa < BOOT_MAPPED_BYTES
  }

  ghost predicate Distinct(pool: seq<nat>) {
    forall i: nat, j: nat | i < j < |pool| :: pool[i] != pool[j]
  }

  /** The frames of a set that are not in the page-table pool. */
  ghost function ClientFrames(outstanding: set<nat>, pool: seq<nat>): set<nat> {
    set f | f in outstanding && f * PAGE_SIZE !in pool
  }

  /** The allocator is sound and holds every page-table frame as taken: pool frames outstanding, boot tables reserved. */
  ghost predicate Held(m: Mem, pool: seq<nat>, boot: set<nat>, shape: Shape, s: Pmm.State) {
    && s.initialised && Conserved(s) && MemOk(m)
    && (forall p | p in pool :: IsFrame(p) && p / PAGE_SIZE in s.outstanding)
    && (forall b | b in boot :: IsFrame(b) && b / PAGE_SIZE !in s.free && b / PAGE_SIZE !in s.outstanding)
    && (forall t | t in shape :: t in pool || t in boot)
  }

  /** No last-level table hangs under PML4[0]. */
  ghost predicate NoSmallBoot(s: Shape) {
    forall t | t in s :: !(s[t].level == 1 && s[t].slot == 0)
  }

  /** The record of page-table frames: all of them distinct, the first 64 kept for the self-test. */
  ghost predicate Recorded(pool: seq<nat>, count: nat, frames: seq<nat>) {
    && Distinct(pool) && count == |pool| && |frames| == 64
    && (forall i: nat | i < |pool| && i < 64 :: frames[i] == pool[i])
  }

  /** `t` is the table that the walk of `ix` reads at `level`, and the entry read there is no large page. */
  ghost predicate OnPath(m: Mem, s: Shape, root: nat, ix: Ix, level: nat, t: nat, index: nat)
    requires 1 <= level <= 4
  {
    && Linked(m, s, root) && TableAt(m, root, ix, level) == Some(t) && index == IxAt(ix, level)
    && HugeFree(m, root, ix)
  }

  /** A well-formed hierarchy without a large page on the path. */
  ghost predicate SmallPath(m: Mem, s: Shape, root: nat, ix: Ix) {
    Linked(m, s, root) && HugeFree(m, root, ix)
  }

  /** A well-formed hierarchy with a 2 MiB page on the path, as the boot map has for every identity address. */
  ghost predicate LargePath(m: Mem, s: Shape, root: nat, ix: Ix) {
    Linked(m, s, root) && !HugeFree(m, root, ix) && Harden.NoGiant(m, root)
  }

  /** No page of the range has a large page on its path. */
  ghost predicate SmallRange(m: Mem, s: Shape, root: nat, va: nat, size: nat) {
    && Linked(m, s, root)
    && forall k: nat | k < size / PAGE_SIZE && Canonical(va + k * PAGE_SIZE) ::
         HugeFree(m, root, Indices(va + k * PAGE_SIZE))
  }

  /**
   One page of `map_4k` whose path holds a 2 MiB page: the memory behind that page is taken for a last-level table, so the
   entry is compared and stored there.
   */
  ghost predicate Stray(m: Mem, m': Mem, root: nat, ix: Ix, p: nat, f: u64, r: MapResult) {
    var t := EntryAddr(WordAt(m, root, ix, 2));
    if !IsFrame(t) then r.Fault? && m' == m
    else if Present(Word(m, t, ix.i1)) && EntryAddr(Word(m, t, ix.i1)) != p then r.AlreadyMapped? && m' == m
    else r.Mapped? && t in m && ix.i1 < |m[t]| && p + f < U64_SIZE && m' == Store(m, t, ix.i1, p + f)
  }

  /** The record of tables after a table was hung: it grows on the path of a well-formed hierarchy, and nowhere else. */
  ghost function HungShape(m: Mem, s: Shape, root: nat, ix: Ix, level: nat, t: nat, i: nat, c: nat): Shape
    requires 2 <= level <= 4
  {
    if OnPath(m, s, root, ix, level, t, i) && t in s && s[t].level >= 1 then ExtendShape(s, root, t, i, c) else s
  }

  /** A fresh table `c` hangs under entry `i` of `t`. */
  ghost predicate Hung(m: Mem, s: Shape, m': Mem, s': Shape, root: nat, ix: Ix, level: nat, t: nat, i: nat, c: nat)
    requires 2 <= level <= 4
  {
    && s.Keys <= s'.Keys && (ix.i4 != 0 && NoSmallBoot(s) ==> NoSmallBoot(s'))
    && (OnPath(m, s, root, ix, level, t, i) ==>
          && Linked(m', s', root) && SameSpace(m, m', root) && TableAt(m', root, ix, level - 1) == Some(c))
  }

  class Vmm {
    const pmm: Pmm.Pmm
    var mem: Mem
    var nx: bool
    var cr3: nat
    var kernelPml4: nat
    var ptAllocated: nat
    var ptFrames: seq<nat>
    ghost var shape: Shape
    ghost var pool: seq<nat>
    ghost var bootTables: set<nat>

    /** The allocator and the record of page-table frames are in order, whatever the tables hold. */
    ghost predicate Sane()
      reads this, pmm, pmm.bitmap
    {
      && pmm.Valid()
      && Held(mem, pool, bootTables, shape, pmm.View())
      && Recorded(pool, ptAllocated, ptFrames)
    }

    ghost predicate Valid()
      reads this, pmm, pmm.bitmap
    {
      Sane() && (kernelPml4 != 0 ==> Linked(mem, shape, kernelPml4))
    }

    /** Frames handed out to callers other than the page-table pool. */
    ghost function Clients(): set<nat>
      reads this, pmm
    {
      ClientFrames(pmm.outstanding, pool)
    }

    /** The frames outside the page-table pool are as they were; the pool grows from free frames only. */
    twostate predicate FramesKept()
      reads this, pmm
    {
      && nx == old(nx) && bootTables == old(bootTables) && Clients() == old(Clients())
      && pmm.free <= old(pmm.free) && pmm.free + pmm.outstanding == old(pmm.free) + old(pmm.outstanding)
    }

    /** What mapping calls leave alone. */
    twostate predicate Kept()
      reads this, pmm
    {
      FramesKept() && cr3 == old(cr3) && kernelPml4 == old(kernelPml4)
    }

    /** The machine as the boot stub leaves it: tables of its own under `cr3`, none of the kernel's yet. */
    constructor (pmm: Pmm.Pmm, mem: Mem, cr3: nat, nx: bool, ghost bootTables: set<nat>)
      requires pmm.Valid() && pmm.initialised && Conserved(pmm.View()) && MemOk(mem)
      requires forall b | b in bootTables ::
                 IsFrame(b) && b / PAGE_SIZE !in pmm.free && b / PAGE_SIZE !in pmm.outstanding
      ensures Valid() && this.pmm == pmm && this.mem == mem && this.cr3 == cr3 && this.nx == nx
      ensures kernelPml4 == 0 && pool == [] && shape == map[] && this.bootTables == bootTables
    {
      this.pmm, this.mem, this.cr3, this.nx, this.bootTables := pmm, mem, cr3, nx, bootTables;
      kernelPml4, ptAllocated, pool, shape := 0, 0, [], map[];
      ptFrames := seq(64, _ => 0);
    }

    /** A zeroed frame for a new table. */
    method PoolAlloc() returns (r: Option<nat>)
      requires Sane()
      modifies this`mem, this`pool, this`ptAllocated, this`ptFrames, pmm, pmm.bitmap
      ensures Sane() && Kept()
      ensures r.None? ==> pmm.free == {} && mem == old(mem) && pool == old(pool)
      ensures r.Some? ==>
                && IsFrame(r.value)
                && r.value !in shape && r.value !in bootTables && pool == old(pool) + [r.value]
                && mem == old(mem)[r.value := Zeros()]
                && (Linked(old(mem), shape, kernelPml4) ==> Linked(mem, shape, kernelPml4) && SameSpace(old(mem), mem, kernelPml4))
    {
      hide Linked, WalkFrom, Conserved, Held, Recorded, ClientFrames, Zeros, IsFrame, Bitmap.FreeSet, SameSpace, TookFrame;
      HeldSound(mem, pool, bootTables, shape, pmm.View());
      var frame := AllocateFrame(pmm);
      if frame.None? {
        return None;
      }
      var pa := frame.value * PAGE_SIZE;
      HeldGrows(mem, pool, bootTables, shape, old(pmm.View()), pmm.View(), frame.value);
      LinkedAfterZeroing(mem, pa, shape, kernelPml4);
      RecordGrows(pool, ptAllocated, ptFrames, pa);
      ptFrames := if ptAllocated < 64 then ptFrames[ptAllocated := pa] else ptFrames;
      ptAllocated, pool, mem := ptAllocated + 1, pool + [pa], mem[pa := Zeros()];
      return Some(pa);
    }

    /**
     Descend one level. A present entry gives its address, large page or not; an absent one gets a fresh table.
     On the path of `ix`, without a large page, the result is the next table and no address changes its translation.
     */
    method Descend(table: nat, index: nat, ghost ix: Ix, ghost level: nat) returns (r: Descent)
      requires Sane() && ValidIx(ix) && 2 <= level <= 4 && index < 512
      modifies this`mem, this`pool, this`ptAllocated, this`ptFrames, this`shape, pmm, pmm.bitmap
      ensures Sane() && Kept()
      ensures r.BadTable? <==> !IsFrame(table)
      ensures r.NoFrame? ==> pmm.free == {}
      ensures IsFrame(table) && Present(Word(old(mem), table, index)) ==>
                r == Table(EntryAddr(Word(old(mem), table, index))) && mem == old(mem) && shape == old(shape) && pool == old(pool)
      ensures ix.i4 != 0 && NoSmallBoot(old(shape)) ==> NoSmallBoot(shape)
      ensures old(shape).Keys <= shape.Keys && |pool| <= |old(pool)| + 1
      ensures OnPath(old(mem), old(shape), kernelPml4, ix, level, table, index) ==>
                && Linked(mem, shape, kernelPml4) && SameSpace(old(mem), mem, kernelPml4)
                && (r.Table? ==> TableAt(mem, kernelPml4, ix, level - 1) == Some(r.pa))
                && (TableAt(old(mem), kernelPml4, ix, level - 1).Some? ==> mem == old(mem) && pool == old(pool))
    {
      LinkPresent(mem, shape, kernelPml4, ix, level, table, index);
      hide Linked, WalkFrom, Held, Recorded, ClientFrames, Zeros, IsFrame, Bitmap.FreeSet, SameSpace;
      hide TableAt, Present, EntryAddr, Extend, HugeFree, NoSmallBoot, OnPath, Word;
      if !IsFrame(table) {
        OnPathFrame(mem, pool, bootTables, shape, pmm.View(), kernelPml4, ix, level, table, index);
        return BadTable;
      }
      HeldFrame(mem, pool, bootTables, shape, pmm.View(), table, index);
      var entry := mem[table][index];
      if Present(entry) {
        PresentIsLink(mem, shape, kernelPml4, ix, level, table, index);
        return Table(EntryAddr(entry));
      }
      OnPathSame(mem, shape, kernelPml4, ix, level, table, index);
      r := Hang(table, index, ix, level);
    }

    /** Hang a fresh table under an absent entry. */
    method Hang(table: nat, index: nat, ghost ix: Ix, ghost level: nat) returns (r: Descent)
      requires Sane() && ValidIx(ix) && 2 <= level <= 4 && index < 512 && IsFrame(table) && !Present(Word(mem, table, index))
      modifies this`mem, this`pool, this`ptAllocated, this`ptFrames, this`shape, pmm, pmm.bitmap
      ensures Sane() && Kept() && !r.BadTable?
      ensures r.NoFrame? ==> pmm.free == {} && mem == old(mem) && shape == old(shape)
      ensures |pool| <= |old(pool)| + 1
      ensures r.Table? ==> Hung(old(mem), old(shape), mem, shape, kernelPml4, ix, level, table, index, r.pa)
    {
      hide Linked, WalkFrom, Held, Recorded, ClientFrames, Zeros, IsFrame, Bitmap.FreeSet, SameSpace;
      hide TableAt, Present, EntryAddr, HugeFree, NoSmallBoot, OnPath, Word, Hung, HungShape;
      var new' := PoolAlloc();
      if new'.None? {
        return NoFrame;
      }
      var c := new'.value;
      HangAny(old(mem), pool, bootTables, shape, pmm.View(), kernelPml4, ix, level, table, index, c);
      mem := Store(mem, table, index, c + PRESENT + WRITABLE);
      shape := HungShape(old(mem), shape, kernelPml4, ix, level, table, index, c);
      return Table(c);
    }

    /** The three descents of `map_4k`. With a 2 MiB page on the path they end at the memory behind that page. */
    method DescendAll(idx: Ix) returns (r: Descent)
      requires Sane() && kernelPml4 != 0 && ValidIx(idx)
      modifies this`mem, this`pool, this`ptAllocated, this`ptFrames, this`shape, pmm, pmm.bitmap
      ensures Sane() && Kept()
      ensures r.NoFrame? ==> pmm.free == {}
      ensures idx.i4 != 0 && NoSmallBoot(old(shape)) ==> NoSmallBoot(shape)
      ensures old(shape).Keys <= shape.Keys && |pool| <= |old(pool)| + 3
      ensures SmallPath(old(mem), old(shape), kernelPml4, idx) ==>
                && Linked(mem, shape, kernelPml4) && SameSpace(old(mem), mem, kernelPml4) && !r.BadTable?
                && (r.Table? ==> TableAt(mem, kernelPml4, idx, 1) == Some(r.pa))
                && |pool| <= |old(pool)| + Missing(old(mem), kernelPml4, idx)
      ensures LargePath(old(mem), old(shape), kernelPml4, idx) ==>
                && mem == old(mem) && shape == old(shape) && pool == old(pool)
                && r == Table(EntryAddr(WordAt(old(mem), kernelPml4, idx, 2)))
    {
      hide Linked, WalkFrom, Held, Recorded, ClientFrames, IsFrame, Bitmap.FreeSet, SameSpace;
      hide TableAt, Present, EntryAddr, NoSmallBoot, OnPath, Word, WordAt, SmallPath, LargePath;
      StartPath(mem, pool, bootTables, shape, pmm.View(), kernelPml4, idx);
      LargeSteps(mem, pool, bootTables, shape, pmm.View(), kernelPml4, idx);
      TableBelow(mem, kernelPml4, idx);
      r := Descend(kernelPml4, idx.i4, idx, 4);
      if !r.Table? {
        return;
      }
      NextOnPath(old(mem), mem, pool, bootTables, shape, pmm.View(), kernelPml4, idx, 3, r.pa, old(shape));
      label L3:
      var t3 := r.pa;
      r := Descend(t3, idx.i3, idx, 3);
      if !r.Table? {
        SpaceChain(old(mem), old@L3(mem), mem, kernelPml4);
        return;
      }
      SpaceChain(old(mem), old@L3(mem), mem, kernelPml4);
      NextOnPath(old(mem), mem, pool, bootTables, shape, pmm.View(), kernelPml4, idx, 2, r.pa, old(shape));
      label L2:
      var t2 := r.pa;
      r := Descend(t2, idx.i2, idx, 2);
      SpaceChain(old(mem), old@L2(mem), mem, kernelPml4);
    }

    /** One page of `map_4k`: three descents, the check against remapping, and the leaf. */
    method MapPage(v: nat, p: nat, f: u64) returns (r: MapResult)
      requires Sane() && kernelPml4 != 0 && Canonical(v) && MappablePage(p, f)
      modifies this`mem, this`pool, this`ptAllocated, this`ptFrames, this`shape, pmm, pmm.bitmap
      ensures Sane() && Kept()
      ensures r.Mapped? || r.OutOfFrames? || r.AlreadyMapped? || r.Fault?
      ensures r.OutOfFrames? ==> pmm.free == {}
      ensures Indices(v).i4 != 0 && NoSmallBoot(old(shape)) ==> NoSmallBoot(shape)
      ensures old(shape).Keys <= shape.Keys && |pool| <= |old(pool)| + 3
      ensures SmallPath(old(mem), old(shape), kernelPml4, Indices(v)) ==>
                && Linked(mem, shape, kernelPml4) && !r.Fault?
                && |pool| <= |old(pool)| + Missing(old(mem), kernelPml4, Indices(v))
                && (r.Mapped? ==>
                      && LeafSet(old(mem), mem, kernelPml4, Indices(v), p + f)
                      && !MapsElsewhere(old(mem), kernelPml4, Indices(v), p))
                && (!r.Mapped? ==> SameSpace(old(mem), mem, kernelPml4))
                && (r.AlreadyMapped? ==> MapsElsewhere(old(mem), kernelPml4, Indices(v), p))
      ensures LargePath(old(mem), old(shape), kernelPml4, Indices(v)) ==>
                shape == old(shape) && pool == old(pool) && Stray(old(mem), mem, kernelPml4, Indices(v), p, f, r)
      ensures Linked(old(mem), old(shape), kernelPml4) && r.Mapped? ==>
                (LeafSet(old(mem), mem, kernelPml4, Indices(v), p + f) <==> HugeFree(old(mem), kernelPml4, Indices(v)))
    {
      hide Linked, WalkFrom, Held, Recorded, ClientFrames, Bitmap.FreeSet, SameSpace;
      hide TableAt, Present, EntryAddr, Canonical, Indices, HugeFree, LeafSet, MapsElsewhere, MappablePage, NoSmallBoot;
      hide Word, WordAt, SmallPath, LargePath, IsFrame, Missing;
      var idx := Indices(v);
      PathKinds(mem, shape, kernelPml4, idx);
      var pt := DescendAll(idx);
      PageSum(p, f);
      if pt.NoFrame? {
        return OutOfFrames;
      }
      if pt.BadTable? || !IsFrame(pt.pa) {
        SmallPathFrame(mem, pool, bootTables, shape, pmm.View(), kernelPml4, idx, pt);
        return MapResult.Fault;
      }
      var t := pt.pa;
      HeldFrame(mem, pool, bootTables, shape, pmm.View(), t, idx.i1);
      var old' := mem[t][idx.i1];
      if SmallPath(old(mem), old(shape), kernelPml4, idx) {
        LastLevel(old(mem), mem, kernelPml4, idx, t, p);
      }
      if Present(old') && EntryAddr(old') != p {
        return AlreadyMapped;
      }
      if SmallPath(old(mem), old(shape), kernelPml4, idx) {
        WriteLeaf(old(mem), mem, shape, kernelPml4, idx, t, p, f);
      }
      HeldStores(mem, pool, bootTables, shape, pmm.View(), t, idx.i1, p + f);
      mem := Store(mem, t, idx.i1, p + f);
      LargeNotSet(old(mem), mem, kernelPml4, idx, p + f);
      return Mapped;
    }

    /**
     Map `size` bytes of `va` to `pa` with 4 KiB pages. `done` counts the pages written before the call
     ended; a call that does not panic writes them all. Where no large page stands in the way the call refines a
     flat map; `MapPage` says what a page with one does.
     */
    method Map4k(va: nat, pa: nat, size: nat, perm: Perm) returns (r: MapResult, ghost done: nat)
      requires Sane() && Canonical(va) && pa < 0x10_0000_0000_0000 && size < U64_SIZE
      modifies this`mem, this`pool, this`ptAllocated, this`ptFrames, this`shape, pmm, pmm.bitmap
      ensures Sane() && Kept()
      ensures r.Unaligned? <==> va % PAGE_SIZE != 0 || pa % PAGE_SIZE != 0 || size % PAGE_SIZE != 0
      ensures r.NotInitialised? <==> !r.Unaligned? && kernelPml4 == 0
      ensures r.Unaligned? || r.NotInitialised? ==> mem == old(mem) && shape == old(shape) && pool == old(pool) && done == 0
      ensures !r.Unaligned? && !r.NotInitialised? ==>
                InHalf(va, done) && done <= size / PAGE_SIZE && (r.Mapped? <==> done == size / PAGE_SIZE)
      ensures va >= HIGH_HALF && NoSmallBoot(old(shape)) ==> NoSmallBoot(shape)
      ensures old(shape).Keys <= shape.Keys
      ensures r.NonCanonical? ==> !Canonical(va + done * PAGE_SIZE)
      ensures r.OutOfFrames? ==> pmm.free == {}
      ensures !r.Unaligned? && !r.NotInitialised? && SmallRange(old(mem), old(shape), kernelPml4, va, size) ==>
                && Linked(mem, shape, kernelPml4) && !r.Fault?
                && MapsRange(old(mem), mem, kernelPml4, va, pa, done, Effective(perm, nx))
                && TargetsKept(old(mem), mem, kernelPml4)
                && |pool| <= |old(pool)| + TablesFor(va, size / PAGE_SIZE)
                && (r.AlreadyMapped? ==>
                      && Canonical(va + done * PAGE_SIZE)
                      && MapsElsewhere(old(mem), kernelPml4, Indices(va + done * PAGE_SIZE), pa + done * PAGE_SIZE))
    {
      hide Linked, WalkFrom, Held, Recorded, ClientFrames, Bitmap.FreeSet;
      hide Indices, HugeFree, LeafSet, MapsElsewhere, MapsRange, TargetsKept, MappablePage, FlagWord, Effective, NoSmallBoot;
      hide SmallPath, LargePath, Stray, Missing, TablesFor;
      TablesGrow(va, 0, size / PAGE_SIZE);
      NoTables(va);
      done := 0;
      if va % PAGE_SIZE != 0 || pa % PAGE_SIZE != 0 || size % PAGE_SIZE != 0 {
        return Unaligned, 0;
      }
      if kernelPml4 == 0 {
        return NotInitialised, 0;
      }
      var f := Effective(perm, nx);
      var pages := size / PAGE_SIZE;
      var i := 0;
      ghost var small := SmallRange(mem, shape, kernelPml4, va, size);
      MapsNothing(mem, kernelPml4, va, pa, f);
      while i < pages
        invariant 0 <= i <= pages && done == i && InHalf(va, i)
        invariant Sane() && Kept()
        invariant va >= HIGH_HALF && NoSmallBoot(old(shape)) ==> NoSmallBoot(shape)
        invariant old(shape).Keys <= shape.Keys && (small ==> |pool| <= |old(pool)| + TablesFor(va, i))
        invariant small ==>
                    && Linked(mem, shape, kernelPml4)
                    && MapsRange(old(mem), mem, kernelPml4, va, pa, i, f) && TargetsKept(old(mem), mem, kernelPml4)
      {
        var v := va + i * PAGE_SIZE;
        TablesGrow(va, i, pages);
        if !Canonical(v) {
          return NonCanonical, i;
        }
        var p := pa + i * PAGE_SIZE;
        NextPageMappable(va, pa, i, perm, nx);
        if small {
          PageBefore(old(mem), mem, kernelPml4, va, pa, i, perm, nx);
          SmallNow(mem, shape, kernelPml4, Indices(v));
          OnePageTables(old(mem), mem, kernelPml4, va, pa, i, f);
          TablesGrow(va, i + 1, pages);
        }
        HighIndex(v);
        label Before:
        r := MapPage(v, p, f);
        if !r.Mapped? {
          if small {
            UnchangedRange(old(mem), old@Before(mem), mem, kernelPml4, va, pa, i, f);
          }
          return r, i;
        }
        if small {
          OnePageMore(old(mem), old@Before(mem), mem, kernelPml4, va, pa, i, f);
        }
        i := i + 1;
        done := i;
      }
      return Mapped, pages;
    }

    /**
     Map one region of the kernel's address space on top of those already mapped. It fails only when the region is not
     page-aligned or the frames run out: no page of it is non-canonical or mapped elsewhere.
     */
    method MapRegion(reg: Region, ghost regions: seq<Region>) returns (ok: bool)
      requires Valid() && kernelPml4 != 0 && SpaceIs(mem, kernelPml4, regions, nx) && NoSmallBoot(shape)
      requires reg.va >= HIGH_HALF && reg.va + reg.size <= U64_SIZE && reg.va < U64_SIZE && reg.pa < 0x10_0000_0000_0000
      requires AlignedAll(regions) && Agrees(reg, regions)
      modifies this`mem, this`pool, this`ptAllocated, this`ptFrames, this`shape, pmm, pmm.bitmap
      ensures Valid() && Kept()
      ensures ok ==> SpaceIs(mem, kernelPml4, regions + [reg], nx) && NoSmallBoot(shape) && MapAligned(reg)
      ensures !ok ==> pmm.free == {} || !MapAligned(reg)
      ensures |pool| <= |old(pool)| + TablesFor(reg.va, reg.size / PAGE_SIZE)
    {
      hide Linked, WalkFrom, Held, Recorded, ClientFrames, Bitmap.FreeSet, AlignedAll, Agrees;
      hide Indices, HugeFree, MapsRange, TargetsKept, MapsElsewhere, Effective, NoSmallBoot, SpaceIs, TablesFor;
      TablesGrow(reg.va, 0, reg.size / PAGE_SIZE);
      NoTables(reg.va);
      forall k: nat | k < reg.size / PAGE_SIZE && Canonical(reg.va + k * PAGE_SIZE)
        ensures HugeFree(mem, kernelPml4, Indices(reg.va + k * PAGE_SIZE))
      {
        UpperHalfSmall(mem, kernelPml4, regions, nx, reg.va + k * PAGE_SIZE);
      }
      ghost var done;
      var r;
      r, done := Map4k(reg.va, reg.pa, reg.size, reg.perm);
      ok := r.Mapped?;
      if ok {
        LayRegion(old(mem), mem, kernelPml4, regions, reg, nx);
      } else if !r.Unaligned? {
        RegionPage(reg, done);
        if r.AlreadyMapped? {
          NeverElsewhere(old(mem), kernelPml4, regions, nx, reg, reg.va + done * PAGE_SIZE);
        }
      }
    }

    /** The sections of the kernel image, with the permissions of each; an empty one is skipped. */
    method MapImage(l: Layout) returns (ok: bool)
      requires Valid() && kernelPml4 != 0 && SpaceIs(mem, kernelPml4, [], nx) && NoSmallBoot(shape)
      requires SectionsAsserted(l) && RegionsComputable(l)
      modifies this`mem, this`pool, this`ptAllocated, this`ptFrames, this`shape, pmm, pmm.bitmap
      ensures Valid() && Kept()
      ensures ok ==> SpaceIs(mem, kernelPml4, ImageRegions(l), nx) && NoSmallBoot(shape) && ImageMappable(l)
      ensures !ok ==> pmm.free == {} || !ImageMappable(l)
      ensures |pool| <= |old(pool)| + TablesIn(ImageRegions(l))
    {
      hide Linked, Held, Recorded, ClientFrames, Bitmap.FreeSet, NoSmallBoot, SpaceIs, RegionAligned, MapAligned;
      hide ImageRegions, SectionsAsserted, RegionsComputable, AlignedAll, Agrees, TablesFor;
      var regions := ImageRegions(l);
      var i := 0;
      assert regions[..0] == [];
      while i < 4
        invariant 0 <= i <= 4 && Valid() && Kept()
        invariant SpaceIs(mem, kernelPml4, regions[..i], nx) && NoSmallBoot(shape)
        invariant forall j: nat | j < i :: regions[j].va >= KERNEL_VMA && RegionAligned(regions[j])
        invariant |pool| <= |old(pool)| + TablesIn(regions[..i])
      {
        assert regions[..i] + [regions[i]] == regions[..i + 1];
        OneRegionMore(regions, i);
        SectionBounds(l, i);
        if regions[i].size == 0 {
          LayEmpty(mem, kernelPml4, regions[..i], regions[i], nx);
          EmptyAligned(regions[i]);
        } else {
          if regions[i].va < KERNEL_VMA {
            assert regions[i] in regions;
            return false;
          }
          SectionAgrees(l, i);
          ok := MapRegion(regions[i], regions[..i]);
          AlignedForMap(regions[i]);
          if !ok {
            assert regions[i] in regions;
            return false;
          }
        }
        i := i + 1;
      }
      assert regions[..4] == regions;
      return true;
    }

    /** The heap and the VGA text buffer, on top of the image. */
    method MapWindows(l: Layout, ghost regions: seq<Region>) returns (ok: bool)
      requires Valid() && kernelPml4 != 0 && SpaceIs(mem, kernelPml4, regions, nx) && NoSmallBoot(shape)
      requires AlignedAll(regions) && Direct(regions)
      modifies this`mem, this`pool, this`ptAllocated, this`ptFrames, this`shape, pmm, pmm.bitmap
      ensures Valid() && Kept()
      ensures ok ==>
                && HeapMappable(l)
                && SpaceIs(mem, kernelPml4, regions + [HeapRegion(l)] + [VgaRegion()], nx) && NoSmallBoot(shape)
      ensures !ok ==> pmm.free == {} || !HeapMappable(l)
      ensures l.heapStart <= l.heapEnd ==> |pool| <= |old(pool)| + WindowTables(l)
    {
      hide Linked, Held, Recorded, ClientFrames, Bitmap.FreeSet, NoSmallBoot, SpaceIs, AlignedAll, Agrees, MapAligned, Direct;
      hide TablesFor;
      VgaTables();
      TablesGrow(HEAP_VIRT_START, 0, if l.heapStart <= l.heapEnd then (l.heapEnd - l.heapStart) / PAGE_SIZE else 0);
      NoTables(HEAP_VIRT_START);
      if l.heapEnd < l.heapStart || l.heapEnd > BOOT_MAPPED_BYTES {
        return false;
      }
      BelowAgrees(regions, HeapRegion(l));
      ok := MapRegion(HeapRegion(l), regions);
      if !ok {
        return false;
      }
      VgaFits(l, regions);
      ok := MapRegion(VgaRegion(), regions + [HeapRegion(l)]);
    }

    /**
     Build the kernel's address space and switch CR3 to it. It panics only over a layout that `init` rejects or when the
     frames run out.
     */
    method Init(l: Layout, ghost pdpt: nat, ghost pd0: nat, ghost pd1: nat) returns (r: Outcome<nat>)
      requires Valid() && kernelPml4 == 0 && shape == map[] && 0 !in pmm.free + pmm.outstanding
      requires BuiltTables(mem, cr3, pdpt, pd0, pd1) && {cr3, pdpt, pd0, pd1} <= bootTables
      modifies this, pmm, pmm.bitmap
      ensures Valid() && FramesKept()
      ensures r.Done? ==>
                && r.value == kernelPml4 != 0 && cr3 == kernelPml4
                && LayoutMappable(l) && LayoutUsable(l) && SpaceIs(mem, kernelPml4, KernelRegions(l), nx)
                && (forall reg | reg in KernelRegions(l) :: RegionAligned(reg))
                && NoSmallBoot(shape)
      ensures r.Panic? ==> pmm.free == {} || !LayoutMappable(l)
      ensures LayoutMappable(l) ==> |pool| <= |old(pool)| + TablesNeeded(l)
    {
      hide TablesNeeded, TablesIn, WindowTables;
      hide Linked, Held, Recorded, ClientFrames, Bitmap.FreeSet, NoSmallBoot, SpaceIs, BuiltTables, RegionAligned;
      hide ImageRegions, SectionsAsserted, RegionsComputable, LayoutUsable, KernelRegions, HeapRegion, VgaRegion;
      hide HeapMappable, ImageMappable, AlignedAll, Direct;
      var ok := Inherit(pdpt, pd0, pd1);
      NeededSum(l);
      if !ok || !SectionsAsserted(l) || !RegionsComputable(l) {
        return Panic;
      }
      ok := MapImage(l);
      if !ok {
        return Panic;
      }
      ImageDirect(l);
      ok := MapWindows(l, ImageRegions(l));
      if !ok {
        return Panic;
      }
      cr3 := kernelPml4;
      if !SectionsMeasured(l) {
        return Panic;
      }
      AllRegions(l);
      return Done(kernelPml4);
    }

    /** Harden the boot map of the hierarchy in CR3. */
    method HardenBootMap() returns (r: Outcome<nat>)
      requires Valid() && kernelPml4 != 0 && cr3 == kernelPml4
      modifies this`mem
      ensures r.Done? ==>
                && Valid()
                && (mem == old(mem) || Harden.HardenedFrom(old(mem), mem, shape, kernelPml4, nx))
                && (Present(Word(old(mem), kernelPml4, 0)) ==> Harden.HardenedFrom(old(mem), mem, shape, kernelPml4, nx))
                && r.value == (if Present(Word(old(mem), kernelPml4, 0))
                               then Harden.Rewrites(old(mem), EntryAddr(Word(old(mem), kernelPml4, 0)), 512) else 0)
      ensures r.Panic? ==> !Harden.NoGiant(old(mem), kernelPml4)
    {
      hide Harden.NoGiant;
      hide Linked, Held, Recorded, Bitmap.FreeSet, Word, EntryAddr, Present, Huge;
      hide Harden.Hardened, Harden.Directories, Harden.Rewrites;
      var after;
      r, after := Harden.HardenBootMap(mem, cr3, nx, shape);
      if r.Done? && Present(Word(mem, cr3, 0)) {
        Harden.HardenLinked(mem, after, shape, cr3, nx);
        HeldHardens(mem, after, pool, bootTables, shape, pmm.View(), nx);
      }
      if r.Panic? {
        Harden.GiantEntry(mem, cr3);
      }
      mem := after;
    }

    /** The write-xor-execute audit of the live tables. */
    method CountWxViolations() returns (n: nat)
      requires Valid()
      ensures n == if kernelPml4 != 0 then |Audit.WxLeaves(mem, kernelPml4, nx)| else 0
      ensures nx && kernelPml4 != 0 ==> (n == 0 <==> NoWx(mem, kernelPml4))
    {
      hide Linked, Held, Recorded, Bitmap.FreeSet, Audit.WxLeaves, NoWx, Audit.Readable;
      if kernelPml4 != 0 {
        Audit.LinkedIsReadable(mem, shape, kernelPml4);
        Audit.NoLeavesIsNoWx(mem, kernelPml4);
      }
      n := Audit.CountWxViolations(mem, kernelPml4, nx);
    }

    /** Install the new root and copy PML4[0] from the table in CR3. */
    method Inherit(ghost pdpt: nat, ghost pd0: nat, ghost pd1: nat) returns (ok: bool)
      requires Valid() && kernelPml4 == 0 && shape == map[] && 0 !in pmm.free + pmm.outstanding
      requires BuiltTables(mem, cr3, pdpt, pd0, pd1) && {cr3, pdpt, pd0, pd1} <= bootTables
      modifies this`mem, this`pool, this`ptAllocated, this`ptFrames, this`shape, this`kernelPml4, pmm, pmm.bitmap
      ensures Valid() && FramesKept() && cr3 == old(cr3)
      ensures ok ==> kernelPml4 != 0 && SpaceIs(mem, kernelPml4, [], nx) && NoSmallBoot(shape)
      ensures !ok ==> kernelPml4 == 0 && pmm.free == {}
      ensures |pool| <= |old(pool)| + 1
    {
      hide Linked, WalkFrom, Held, Recorded, ClientFrames, Bitmap.FreeSet, BuiltTables, SpaceIs, Zeros, SameSpace, Word, IsFrame;
      var root := PoolAlloc();
      if root.None? {
        return false;
      }
      var r := root.value;
      BuiltElsewhere(old(mem), r, cr3, pdpt, pd0, pd1);
      NotFrameZero(mem, pool, bootTables, shape, pmm.View(), r);
      InheritedSpace(mem, r, cr3, pdpt, pd0, pd1, nx);
      InheritedLinked(mem, r, cr3, pdpt, pd0, pd1);
      HeldInherits(mem, pool, bootTables, pmm.View(), r, pdpt, pd0, pd1);
      var e := Word(mem, cr3, 0);
      mem := Store(mem, r, 0, e);
      shape := InheritedShape(r, pdpt, pd0, pd1);
      kernelPml4 := r;
      return true;
    }
  }

  lemma RootTable(m: Mem, root: nat, ix: Ix)
    ensures TableAt(m, root, ix, 4) == Some(root)
    ensures IxAt(ix, 4) == ix.i4 && IxAt(ix, 3) == ix.i3 && IxAt(ix, 2) == ix.i2 && IxAt(ix, 1) == ix.i1
  {
  }

  /** Once the path reaches its last table, the word there is the translation. */
  lemma LastLevel(m0: Mem, m: Mem, root: nat, ix: Ix, t: nat, p: nat)
    requires SameSpace(m0, m, root) && ValidIx(ix) && TableAt(m, root, ix, 1) == Some(t)
    ensures var e := Word(m, t, ix.i1);
            WalkFrom(m0, root, ix) == (if Present(e) then Leaf(PAGE_SIZE, e) else Absent)
            && (MapsElsewhere(m0, root, ix, p) <==> Present(e) && EntryAddr(e) != p)
  {
    hide WalkFrom, Present, Huge, EntryAddr;
    WalkByLevel(m, root, ix);
    NothingAtZero();
    assert TableAt(m, root, ix, 2).Some?;
    assert TableAt(m, root, ix, 3).Some?;
  }

  lemma WriteLeaf(m0: Mem, m: Mem, s: Shape, root: nat, ix: Ix, t: nat, p: nat, f: u64)
    requires SameSpace(m0, m, root) && Linked(m, s, root) && ValidIx(ix) && TableAt(m, root, ix, 1) == Some(t)
    requires MappablePage(p, f)
    ensures t in m && |m[t]| == 512 && t in s && p + f < U64_SIZE
    ensures Linked(Store(m, t, ix.i1, p + f), s, root)
    ensures LeafSet(m0, Store(m, t, ix.i1, p + f), root, ix, p + f)
  {
    hide Linked, WalkFrom, TableAt, Present, Store;
    EntryFields(p, f);
    SetLeafWalk(m, s, root, ix, t, p + f, ix);
    SetLeafLinked(m, s, root, t, ix.i1, p + f);
    var m' := Store(m, t, ix.i1, p + f);
    forall jx | ValidIx(jx)
      ensures WalkFrom(m', root, jx) == if jx == ix then Leaf(PAGE_SIZE, p + f) else WalkFrom(m0, root, jx)
    {
      SetLeafWalk(m, s, root, ix, t, p + f, jx);
    }
  }

  /** A large page is never replaced by one small page: the other pages it maps would have to stay. */
  lemma LargeNotSet(m: Mem, m': Mem, root: nat, ix: Ix, e: nat)
    requires ValidIx(ix)
    ensures !HugeFree(m, root, ix) ==> !LeafSet(m, m', root, ix, e)
  {
    hide Present, Huge, EntryAddr, Word;
    if !HugeFree(m, root, ix) {
      var jx := ix.(i1 := if ix.i1 == 0 then 1 else 0);
      assert ValidIx(jx) && WalkFrom(m, root, jx) == WalkFrom(m, root, ix);
    }
  }

  // What a stray store does to the address space.

  /** The walk of `ix` reads entry `i` of table `t` at `level`. */
  ghost predicate Reads(m: Mem, root: nat, ix: Ix, level: nat, t: nat, i: nat) {
    1 <= level <= 4 && TableAt(m, root, ix, level) == Some(t) && IxAt(ix, level) == i
  }

  /** The rest of a walk from an entry found at `level`. */
  function WalkOn(m: Mem, level: nat, e: u64, ix: Ix): Walk
    requires 1 <= level <= 4
    decreases level
  {
    if !Present(e) then Absent
    else if level == 1 then Leaf(PAGE_SIZE, e)
    else if level == 2 && Huge(e) then Leaf(LARGE_PAGE_SIZE, e)
    else if level == 3 && Huge(e) then Leaf(HUGE_PAGE_SIZE, e)
    else WalkOn(m, level - 1, Word(m, EntryAddr(e), IxAt(ix, level - 1)), ix)
  }

  lemma WalkFromTable(m: Mem, root: nat, ix: Ix, level: nat)
    requires 1 <= level <= 4 && TableAt(m, root, ix, level).Some?
    ensures WalkFrom(m, root, ix) == WalkOn(m, level, WordAt(m, root, ix, level), ix)
  {
    hide Present, Huge, EntryAddr, Word;
    assert level == 4 || level == 3 || level == 2 || level == 1;
    assert level < 4 ==> TableAt(m, root, ix, 4).Some? && TableAt(m, root, ix, level + 1).Some?;
    assert level < 3 ==> TableAt(m, root, ix, 3).Some?;
  }

  /**
   A store to any frame, table or not: a walk that reads the stored entry goes on from it, and every other walk is as
   before. So translations change only where the frame is a table some walk reads there.
   */
  lemma StrayStore(m: Mem, s: Shape, root: nat, t: nat, i: nat, e: u64, jx: Ix)
    requires Linked(m, s, root) && t in m && |m[t]| == 512 && i < 512 && ValidIx(jx)
    ensures var m' := Store(m, t, i, e);
            && (t !in s ==> WalkFrom(m', root, jx) == WalkFrom(m, root, jx))
            && ((forall level: nat :: !Reads(m, root, jx, level, t, i)) ==> WalkFrom(m', root, jx) == WalkFrom(m, root, jx))
            && (forall level: nat | Reads(m, root, jx, level, t, i) :: WalkFrom(m', root, jx) == WalkOn(m', level, e, jx))
  {
    hide WalkFrom, TableAt, Linked, Store, WalkOn, Word;
    var m' := Store(m, t, i, e);
    StoreWords(m, t, i, e);
    forall level: nat | 1 <= level <= 4 ensures Reads(m, root, jx, level, t, i) ==> t in s && s[t].level == level {
      PathInShape(m, s, root, jx, level);
    }
    if forall level: nat :: !Reads(m, root, jx, level, t, i) {
      forall level: nat | 1 <= level <= 4 && TableAt(m, root, jx, level).Some?
        ensures var u := TableAt(m, root, jx, level).value; Word(m', u, IxAt(jx, level)) == Word(m, u, IxAt(jx, level))
      {
        assert !Reads(m, root, jx, level, t, i);
      }
      SameReads(m, m', root, jx);
    }
    forall level: nat | Reads(m, root, jx, level, t, i) ensures WalkFrom(m', root, jx) == WalkOn(m', level, e, jx) {
      forall k: nat | level < k <= 4 && TableAt(m, root, jx, k).Some?
        ensures var u := TableAt(m, root, jx, k).value; Word(m', u, IxAt(jx, k)) == Word(m, u, IxAt(jx, k))
      {
        assert !Reads(m, root, jx, k, t, i);
      }
      ReadAgain(m, m', root, jx, level);
      WalkFromTable(m', root, jx, level);
    }
  }

  lemma StoreWords(m: Mem, t: nat, i: nat, e: u64)
    requires t in m && |m[t]| == 512 && i < 512
    ensures forall u, j: nat :: Word(Store(m, t, i, e), u, j) == if u == t && j == i then e else Word(m, u, j)
  {
  }

  /** Words read above a level decide which table is read there. */
  lemma {:induction false} ReadAgain(m: Mem, m': Mem, root: nat, ix: Ix, level: nat)
    requires 1 <= level <= 4
    requires forall k: nat | level < k <= 4 && TableAt(m, root, ix, k).Some? ::
               var u := TableAt(m, root, ix, k).value; Word(m', u, IxAt(ix, k)) == Word(m, u, IxAt(ix, k))
    ensures TableAt(m', root, ix, level) == TableAt(m, root, ix, level)
    decreases 4 - level
  {
    hide Present, Huge, EntryAddr, Word;
    if level < 4 {
      ReadAgain(m, m', root, ix, level + 1);
    }
  }

  /** The whole address space after a stray store: unchanged exactly when every walk through the stored entry ends as before. */
  lemma StraySpace(m: Mem, s: Shape, root: nat, t: nat, i: nat, e: u64)
    requires Linked(m, s, root) && t in m && |m[t]| == 512 && i < 512
    ensures var m' := Store(m, t, i, e);
            SameSpace(m, m', root) <==>
              forall jx, level: nat | ValidIx(jx) && Reads(m, root, jx, level, t, i) ::
                WalkOn(m', level, e, jx) == WalkFrom(m, root, jx)
    ensures t !in s ==> SameSpace(m, Store(m, t, i, e), root)
  {
    hide WalkFrom, TableAt, Linked, Store, WalkOn;
    forall jx | ValidIx(jx)
      ensures var m' := Store(m, t, i, e);
              && (t !in s ==> WalkFrom(m', root, jx) == WalkFrom(m, root, jx))
              && ((forall level: nat :: !Reads(m, root, jx, level, t, i)) ==> WalkFrom(m', root, jx) == WalkFrom(m, root, jx))
              && (forall level: nat | Reads(m, root, jx, level, t, i) :: WalkFrom(m', root, jx) == WalkOn(m', level, e, jx))
    {
      StrayStore(m, s, root, t, i, e, jx);
    }
  }

  /** In a last-level table a stray store maps another page: unless it was stored already, that page's translation changes. */
  lemma StrayRemaps(m: Mem, s: Shape, root: nat, t: nat, i: nat, e: u64, ix: Ix, jx: Ix)
    requires Linked(m, s, root) && ValidIx(ix) && ValidIx(jx) && !HugeFree(m, root, ix)
    requires Reads(m, root, jx, 1, t, i) && t in m && |m[t]| == 512 && i < 512 && Present(e)
    ensures jx != ix && WalkFrom(Store(m, t, i, e), root, jx) == Leaf(PAGE_SIZE, e)
    ensures SameSpace(m, Store(m, t, i, e), root) <==> Word(m, t, i) == e
  {
    hide Present, Huge, EntryAddr, Word, Linked, Store;
    StrayStore(m, s, root, t, i, e, jx);
    WalkFromTable(m, root, jx, 1);
    assert jx != ix by { SmallHere(m, root, jx); }
    if Word(m, t, i) == e {
      StoreSame(m, t, i);
    }
  }

  lemma SmallHere(m: Mem, root: nat, jx: Ix)
    requires TableAt(m, root, jx, 1).Some?
    ensures HugeFree(m, root, jx)
  {
    hide Present, Huge, EntryAddr, Word, WalkFrom;
    WalkFromTable(m, root, jx, 1);
  }

  lemma StoreSame(m: Mem, t: nat, i: nat)
    requires t in m && |m[t]| == 512 && i < 512
    ensures Store(m, t, i, Word(m, t, i)) == m
  {
    assert m[t][i := m[t][i]] == m[t];
  }

  lemma NoTables(va: nat)
    ensures TablesFor(va, 0) == 0
  {
  }

  lemma VgaTables()
    ensures TablesFor(VgaRegion().va, VgaRegion().size / PAGE_SIZE) == 3
  {
  }

  /** A table below means a present entry above it. */
  lemma LinkPresent(m: Mem, s: Shape, root: nat, ix: Ix, level: nat, t: nat, i: nat)
    requires 2 <= level <= 4
    ensures OnPath(m, s, root, ix, level, t, i) && TableAt(m, root, ix, level - 1).Some? ==> Present(Word(m, t, i))
  {
    hide Present, Huge, EntryAddr, Word, Linked, HugeFree;
  }

  lemma PathKinds(m: Mem, s: Shape, root: nat, ix: Ix)
    ensures Linked(m, s, root) ==> (SmallPath(m, s, root, ix) <==> HugeFree(m, root, ix))
    ensures LargePath(m, s, root, ix) ==> !SmallPath(m, s, root, ix)
  {
  }

  lemma SmallNow(m: Mem, s: Shape, root: nat, ix: Ix)
    requires Linked(m, s, root) && HugeFree(m, root, ix)
    ensures SmallPath(m, s, root, ix)
  {
  }

  lemma PageSum(p: nat, f: u64)
    requires MappablePage(p, f)
    ensures p + f < U64_SIZE
  {
    EntryFields(p, f);
  }

  lemma FrameSum(c: nat)
    requires IsFrame(c)
    ensures c + PRESENT + WRITABLE < U64_SIZE
  {
  }

  lemma HeldFrame(m: Mem, pool: seq<nat>, boot: set<nat>, s: Shape, p: Pmm.State, t: nat, i: nat)
    requires Held(m, pool, boot, s, p) && IsFrame(t) && i < 512
    ensures t in m && |m[t]| == 512 && Word(m, t, i) == m[t][i]
  {
    assert FrameOk(m, t / PAGE_SIZE);
  }

  lemma HeldTable(m: Mem, pool: seq<nat>, boot: set<nat>, s: Shape, p: Pmm.State, t: nat)
    requires Held(m, pool, boot, s, p) && t in s
    ensures IsFrame(t)
  {
  }

  /** A table on a path is a frame of the boot map. */
  lemma OnPathFrame(m: Mem, pool: seq<nat>, boot: set<nat>, s: Shape, p: Pmm.State, root: nat, ix: Ix, level: nat, t: nat, i: nat)
    requires Held(m, pool, boot, s, p) && ValidIx(ix) && 2 <= level <= 4
    ensures OnPath(m, s, root, ix, level, t, i) ==> IsFrame(t)
  {
    hide Linked, Held, IsFrame, TableAt, HugeFree;
    if OnPath(m, s, root, ix, level, t, i) {
      PathInShape(m, s, root, ix, level);
      HeldTable(m, pool, boot, s, p, t);
    }
  }

  lemma SmallPathFrame(m: Mem, pool: seq<nat>, boot: set<nat>, s: Shape, p: Pmm.State, root: nat, ix: Ix, r: Descent)
    requires Held(m, pool, boot, s, p) && ValidIx(ix)
    ensures Linked(m, s, root) && r.Table? && TableAt(m, root, ix, 1) == Some(r.pa) ==> IsFrame(r.pa)
  {
    hide Linked, Held, IsFrame, TableAt;
    if Linked(m, s, root) && r.Table? && TableAt(m, root, ix, 1) == Some(r.pa) {
      PathInShape(m, s, root, ix, 1);
      HeldTable(m, pool, boot, s, p, r.pa);
    }
  }

  lemma OnPathSame(m: Mem, s: Shape, root: nat, ix: Ix, level: nat, t: nat, i: nat)
    requires 2 <= level <= 4
    ensures OnPath(m, s, root, ix, level, t, i) ==> Linked(m, s, root) && SameSpace(m, m, root)
  {
    hide Linked, WalkFrom, TableAt;
  }

  lemma SpaceChain(m0: Mem, m1: Mem, m2: Mem, root: nat)
    ensures SameSpace(m0, m1, root) && SameSpace(m1, m2, root) ==> SameSpace(m0, m2, root)
  {
    hide WalkFrom;
  }

  /** The root starts every path. */
  lemma StartPath(m: Mem, pool: seq<nat>, boot: set<nat>, s: Shape, p: Pmm.State, root: nat, ix: Ix)
    requires Held(m, pool, boot, s, p) && ValidIx(ix)
    ensures SmallPath(m, s, root, ix) ==> OnPath(m, s, root, ix, 4, root, ix.i4) && IsFrame(root)
  {
    hide Linked, HugeFree, Held, IsFrame;
    if SmallPath(m, s, root, ix) {
      RootTable(m, root, ix);
      assert root in s by { LinkedRoot(m, s, root); }
      HeldTable(m, pool, boot, s, p, root);
    }
  }

  lemma LinkedRoot(m: Mem, s: Shape, root: nat)
    requires Linked(m, s, root)
    ensures root in s
  {
  }

  /** After a descent the next table is on the path again. */
  lemma NextOnPath(m0: Mem, m: Mem, pool: seq<nat>, boot: set<nat>, s: Shape, p: Pmm.State, root: nat, ix: Ix, level: nat, t: nat, s0: Shape)
    requires Held(m, pool, boot, s, p) && ValidIx(ix) && 2 <= level <= 3
    ensures SmallPath(m0, s0, root, ix) && Linked(m, s, root) && SameSpace(m0, m, root) && TableAt(m, root, ix, level) == Some(t) ==>
              OnPath(m, s, root, ix, level, t, if level == 3 then ix.i3 else ix.i2) && IsFrame(t)
  {
    hide Linked, Held, IsFrame, TableAt, WalkFrom;
    if SmallPath(m0, s0, root, ix) && Linked(m, s, root) && SameSpace(m0, m, root) && TableAt(m, root, ix, level) == Some(t) {
      PathInShape(m, s, root, ix, level);
      HeldTable(m, pool, boot, s, p, t);
    }
  }

  /** With a 2 MiB page on the path, the two entries above it are links and the third is the page. */
  lemma LargeSteps(m: Mem, pool: seq<nat>, boot: set<nat>, s: Shape, p: Pmm.State, root: nat, ix: Ix)
    requires Held(m, pool, boot, s, p) && ValidIx(ix)
    ensures LargePath(m, s, root, ix) ==>
              var pdpt := EntryAddr(Word(m, root, ix.i4));
              var pd := EntryAddr(Word(m, pdpt, ix.i3));
              && IsFrame(root) && Present(Word(m, root, ix.i4))
              && IsFrame(pdpt) && Present(Word(m, pdpt, ix.i3))
              && IsFrame(pd) && Present(Word(m, pd, ix.i2)) && WordAt(m, root, ix, 2) == Word(m, pd, ix.i2)
  {
    hide Present, Huge, EntryAddr, Word, IsFrame, Linked, Held;
    if LargePath(m, s, root, ix) {
      RootTable(m, root, ix);
      LinkedRoot(m, s, root);
      HeldTable(m, pool, boot, s, p, root);
      PathInShape(m, s, root, ix, 3);
      PathInShape(m, s, root, ix, 2);
      HeldTable(m, pool, boot, s, p, EntryAddr(Word(m, root, ix.i4)));
      HeldTable(m, pool, boot, s, p, EntryAddr(Word(m, EntryAddr(Word(m, root, ix.i4)), ix.i3)));
    }
  }

  lemma HeldStores(m: Mem, pool: seq<nat>, boot: set<nat>, s: Shape, p: Pmm.State, t: nat, i: nat, e: u64)
    requires Held(m, pool, boot, s, p) && t in m && |m[t]| == 512 && i < 512
    ensures Held(Store(m, t, i, e), pool, boot, s, p)
  {
    MemUpdated(m, t, m[t][i := e]);
  }

  lemma PathTable(m: Mem, s: Shape, root: nat, ix: Ix, level: nat)
    requires Linked(m, s, root) && ValidIx(ix) && 1 <= level <= 4 && TableAt(m, root, ix, level).Some?
    ensures var t := TableAt(m, root, ix, level).value;
            && t in s && s[t].level == level && t in m && |m[t]| == 512
            && IxAt(ix, level) < 512
            && Word(m, t, IxAt(ix, level)) == m[t][IxAt(ix, level)]
  {
    hide LinkOk, TableAt;
    PathInShape(m, s, root, ix, level);
    LinkedNode(m, s, root, TableAt(m, root, ix, level).value);
  }

  /** On a path without large pages, a present entry above the last level leads to a table. */
  lemma PresentIsLink(m: Mem, s: Shape, root: nat, ix: Ix, level: nat, t: nat, index: nat)
    requires 2 <= level <= 4 && Present(Word(m, t, index))
    ensures OnPath(m, s, root, ix, level, t, index) ==>
              && Linked(m, s, root) && SameSpace(m, m, root)
              && TableAt(m, root, ix, level - 1) == Some(EntryAddr(Word(m, t, index)))
  {
    hide Present, Huge, EntryAddr, WalkFrom, Linked;
    if OnPath(m, s, root, ix, level, t, index) {
      WalkByLevel(m, root, ix);
    }
  }

  lemma HangTable(m: Mem, s: Shape, root: nat, ix: Ix, level: nat, t: nat, c: nat, i: nat)
    requires 2 <= level <= 4 && OnPath(m, s, root, ix, level, t, i) && ValidIx(ix) && !Present(Word(m, t, i))
    requires c !in s && IsFrame(c)
    ensures t in s && t in m && |m[t]| == 512 && c != t && i < 512 && c + PRESENT + WRITABLE < U64_SIZE
    ensures && Store(m[c := Zeros()], t, i, c + PRESENT + WRITABLE) == Extend(m, t, i, c)
            && Linked(Extend(m, t, i, c), ExtendShape(s, root, t, i, c), root)
            && SameSpace(m, Extend(m, t, i, c), root)
            && TableAt(Extend(m, t, i, c), root, ix, level - 1) == Some(c)
  {
    hide Linked, TableAt, WalkFrom, Present, Zeros, Store;
    PathTable(m, s, root, ix, level);
    assert CanExtend(m, s, root, t, i, c);
    ExtendLinked(m, s, root, t, i, c);
    forall jx | ValidIx(jx) ensures WalkFrom(Extend(m, t, i, c), root, jx) == WalkFrom(m, root, jx) {
      ExtendKeepsWalks(m, s, root, t, i, c, jx);
    }
    ExtendKeepsWalks(m, s, root, t, i, c, ix);
  }

  /** A table hung under another PML4 slot adds nothing under PML4[0]. */
  lemma HangAside(m: Mem, s: Shape, root: nat, ix: Ix, level: nat, t: nat, c: nat, i: nat)
    requires 2 <= level <= 4 && OnPath(m, s, root, ix, level, t, i) && ValidIx(ix)
    ensures t in s && s[t].level >= 1
    ensures ix.i4 != 0 && NoSmallBoot(s) ==> NoSmallBoot(ExtendShape(s, root, t, i, c))
  {
    hide LinkOk, HugeFree;
    PathInShape(m, s, root, ix, level);
    LinkedNode(m, s, root, t);
    if level == 4 {
      RootTable(m, root, ix);
    }
  }

  lemma HangAny(m: Mem, pool: seq<nat>, boot: set<nat>, s: Shape, p: Pmm.State, root: nat, ix: Ix, level: nat, t: nat, i: nat, c: nat)
    requires Held(m[c := Zeros()], pool, boot, s, p) && c in pool && IsFrame(c) && c !in s
    requires 2 <= level <= 4 && ValidIx(ix) && i < 512 && IsFrame(t) && !Present(Word(m, t, i))
    ensures var m1 := m[c := Zeros()];
            && t in m1 && i < |m1[t]| && c + PRESENT + WRITABLE < U64_SIZE
            && var m', s' := Store(m1, t, i, c + PRESENT + WRITABLE), HungShape(m, s, root, ix, level, t, i, c);
               Held(m', pool, boot, s', p) && Hung(m, s, m', s', root, ix, level, t, i, c)
  {
    hide Linked, WalkFrom, Held, Zeros, IsFrame, SameSpace, TableAt, Present, EntryAddr, HugeFree, NoSmallBoot, OnPath, Word, Store;
    var m1 := m[c := Zeros()];
    FrameSum(c);
    HeldFrame(m1, pool, boot, s, p, t, i);
    if OnPath(m, s, root, ix, level, t, i) {
      HangTable(m, s, root, ix, level, t, c, i);
      HangAside(m, s, root, ix, level, t, c, i);
      HeldExtends(m1, pool, boot, s, root, p, t, i, c);
    } else {
      HeldStores(m1, pool, boot, s, p, t, i, c + PRESENT + WRITABLE);
    }
  }

  lemma HeldExtends(m: Mem, pool: seq<nat>, boot: set<nat>, s: Shape, root: nat, p: Pmm.State, t: nat, i: nat, c: nat)
    requires Held(m, pool, boot, s, p) && t in s && s[t].level >= 1 && t in m && i < |m[t]| && c in pool
    requires |m[t]| == 512 && IsFrame(c)
    ensures Held(Store(m, t, i, c + PRESENT + WRITABLE), pool, boot, ExtendShape(s, root, t, i, c), p)
  {
    MemUpdated(m, t, m[t][i := c + PRESENT + WRITABLE]);
  }

  lemma LinkedAfterZeroing(m: Mem, pa: nat, s: Shape, root: nat)
    requires pa !in s
    ensures Linked(m, s, root) ==> Linked(m[pa := Zeros()], s, root) && SameSpace(m, m[pa := Zeros()], root)
  {
    hide LinkOk, WalkFrom, Zeros;
    if Linked(m, s, root) {
      forall t | t in s ensures t in m {
        LinkedNode(m, s, root, t);
        assert NodeOk(m, s, root, t);
      }
      OutsideWrite(m, m[pa := Zeros()], s, root);
    }
  }

  /** `allocate_frame` of the frame allocator. */
  method AllocateFrame(pmm: Pmm.Pmm) returns (r: Option<nat>)
    requires pmm.Valid() && pmm.initialised && Conserved(pmm.View())
    modifies pmm, pmm.bitmap
    ensures pmm.Valid() && pmm.initialised && Conserved(pmm.View())
    ensures pmm.free <= old(pmm.free) && pmm.free + pmm.outstanding == old(pmm.free) + old(pmm.outstanding)
    ensures r.None? ==> pmm.View() == old(pmm.View()) && pmm.free == {}
    ensures r.Some? ==> TookFrame(old(pmm.View()), pmm.View(), r.value)
  {
    hide Conserved, Pmm.Step;
    var reply := pmm.Allocate(1, 1);
    OneFrame(old(pmm.View()), reply, pmm.View());
    if reply.Frames? {
      return Some(reply.start);
    }
    return None;
  }

  /** Frame `f` went from free to outstanding. */
  ghost predicate TookFrame(s: Pmm.State, s': Pmm.State, f: nat) {
    f in s.free && s'.free == s.free - {f} && s'.outstanding == s.outstanding + {f}
  }

  lemma BuiltElsewhere(m: Mem, r: nat, pml4: nat, pdpt: nat, pd0: nat, pd1: nat)
    requires BuiltTables(m, pml4, pdpt, pd0, pd1) && r !in {pml4, pdpt, pd0, pd1}
    ensures CanInherit(m[r := Zeros()], r, pml4, pdpt, pd0, pd1)
  {
    hide PdWord, PdptWord, Pml4Word, Zeros;
    var m' := m[r := Zeros()];
    assert forall t, i: nat | t in {pml4, pdpt, pd0, pd1} :: Word(m', t, i) == Word(m, t, i);
  }

  lemma NotFrameZero(m: Mem, pool: seq<nat>, boot: set<nat>, shape: Shape, s: Pmm.State, r: nat)
    requires Held(m, pool, boot, shape, s) && r in pool && 0 !in s.free + s.outstanding
    ensures r != 0
  {
  }

  lemma HeldInherits(m: Mem, pool: seq<nat>, boot: set<nat>, s: Pmm.State, r: nat, pdpt: nat, pd0: nat, pd1: nat)
    requires Held(m, pool, boot, map[], s) && r in pool && r in m && |m[r]| == 512
    requires {pdpt, pd0, pd1} <= boot && pdpt + 3 < U64_SIZE
    ensures Held(Store(m, r, 0, pdpt + 3), pool, boot, InheritedShape(r, pdpt, pd0, pd1), s)
    ensures NoSmallBoot(InheritedShape(r, pdpt, pd0, pd1))
  {
    hide Conserved;
    MemUpdated(m, r, m[r][0 := pdpt + 3]);
  }

  lemma HeldHardens(m: Mem, m': Mem, pool: seq<nat>, boot: set<nat>, shape: Shape, s: Pmm.State, nx: bool)
    requires Held(m, pool, boot, shape, s)
    requires exists pds :: Harden.Hardened(m, m', pds, nx)
    ensures Held(m', pool, boot, shape, s)
  {
    hide Conserved, Harden.HardenEntry, Harden.HardenTable;
    var pds :| Harden.Hardened(m, m', pds, nx);
    forall f: nat | f < Pmm.MAX_FRAMES ensures FrameOk(m', f) {
      assert FrameOk(m, f);
      Harden.HardenTableSize(m[f * PAGE_SIZE], nx);
    }
  }

  lemma HeldSound(m: Mem, pool: seq<nat>, boot: set<nat>, shape: Shape, s: Pmm.State)
    requires Held(m, pool, boot, shape, s)
    ensures s.initialised && Conserved(s) && MemOk(m)
  {
  }

  /** A newly allocated frame is no table yet, and joins the pool without touching anyone else's frames. */
  lemma HeldGrows(m: Mem, pool: seq<nat>, boot: set<nat>, shape: Shape, s: Pmm.State, s': Pmm.State, f: nat)
    requires Held(m, pool, boot, shape, s) && TookFrame(s, s', f) && s'.initialised && Conserved(s')
    ensures var pa := f * PAGE_SIZE;
            && IsFrame(pa) && pa !in pool && pa !in shape && pa !in boot
            && Held(m[pa := Zeros()], pool + [pa], boot, shape, s')
            && ClientFrames(s'.outstanding, pool + [pa]) == ClientFrames(s.outstanding, pool)
  {
    hide Zeros;
    FrameNumber(f);
    MemUpdated(m, f * PAGE_SIZE, Zeros());
    assert forall t | t in shape :: t / PAGE_SIZE !in s.free;
  }

  lemma RecordGrows(pool: seq<nat>, n: nat, frames: seq<nat>, pa: nat)
    requires Recorded(pool, n, frames) && pa !in pool
    ensures |frames| == 64 && n == |pool|
    ensures Recorded(pool + [pa], n + 1, if n < 64 then frames[n := pa] else frames)
  {
  }

  lemma FrameNumber(f: nat)
    requires f < Pmm.MAX_FRAMES
    ensures IsFrame(f * PAGE_SIZE) && f * PAGE_SIZE / PAGE_SIZE == f
  {
  }

  lemma MemUpdated(m: Mem, pa: nat, table: seq<u64>)
    requires MemOk(m) && |table| == 512
    ensures MemOk(m[pa := table])
  {
    var m' := m[pa := table];
    forall f: nat | f < Pmm.MAX_FRAMES ensures FrameOk(m', f) {
      assert FrameOk(m, f);
    }
  }
}
