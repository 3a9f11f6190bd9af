/**
 The page tables the boot stub builds before it enters long mode: one PML4, one PDPT and two page
 directories of 2 MiB pages, each directory reached through two PDPT entries.
 */
module BootTables {
  import opened Bits
  import opened Wrappers
  import opened Paging
  import opened PageTable

  predicate FourTables(pml4: nat, pdpt: nat, pd0: nat, pd1: nat) {
    && pml4 % PAGE_SIZE == 0 && pdpt % PAGE_SIZE == 0 && pd0 % PAGE_SIZE == 0 && pd1 % PAGE_SIZE == 0
    && 0 < pml4 < BOOT_MAPPED_BYTES && pdpt < BOOT_MAPPED_BYTES && pd0 < BOOT_MAPPED_BYTES && pd1 < BOOT_MAPPED_BYTES
    && pml4 != pdpt && pml4 != pd0 && pml4 != pd1 && pdpt != pd0 && pdpt != pd1 && pd0 != pd1
  }

  function Pml4Word(pdpt: nat, i: nat): nat {
    if i == 0 || i == 511 then pdpt + 3 else 0
  }

  function PdptWord(pd0: nat, pd1: nat, i: nat): nat {
    if i == 0 || i == 510 then pd0 + 3 else if i == 1 || i == 511 then pd1 + 3 else 0
  }

  /** Entry `i` of the directory for gigabyte `g`: present, writable, 2 MiB. */
  function PdWord(g: nat, i: nat): nat {
    g * HUGE_PAGE_SIZE + i * LARGE_PAGE_SIZE + 0x83
  }

  ghost predicate TableIs(m: Mem, t: nat) {
    t in m && |m[t]| == 512
  }

  ghost predicate BuiltTables(m: Mem, pml4: nat, pdpt: nat, pd0: nat, pd1: nat) {
    && FourTables(pml4, pdpt, pd0, pd1)
    && TableIs(m, pml4) && TableIs(m, pdpt) && TableIs(m, pd0) && TableIs(m, pd1)
    && (forall i: nat | i < 512 :: Word(m, pml4, i) == Pml4Word(pdpt, i))
    && (forall i: nat | i < 512 :: Word(m, pdpt, i) == PdptWord(pd0, pd1, i))
    && (forall i: nat | i < 512 :: Word(m, pd0, i) == PdWord(0, i))
    && (forall i: nat | i < 512 :: Word(m, pd1, i) == PdWord(1, i))
  }

  /** A 32-bit store to the low half of word `i`. */
  function StoreDword(m: Mem, t: nat, i: nat, v: nat): Mem
    requires TableIs(m, t) && i < 512 && v < 0x1_0000_0000
  {
    Store(m, t, i, Word(m, t, i) / 0x1_0000_0000 * 0x1_0000_0000 + v)
  }

  lemma StoreDwordWord(m: Mem, t: nat, i: nat, v: nat)
    requires TableIs(m, t) && i < 512 && v < 0x1_0000_0000 && Word(m, t, i) == 0
    ensures StoreDword(m, t, i, v) == Store(m, t, i, v)
    ensures TableIs(Store(m, t, i, v), t)
    ensures forall u, j: nat :: Word(Store(m, t, i, v), u, j) == if u == t && j == i then v else Word(m, u, j)
    ensures forall u :: u != t ==> (u in Store(m, t, i, v) <==> u in m) && (u in m ==> Store(m, t, i, v)[u] == m[u])
  {
  }

  /** One fill loop: 512 consecutive 2 MiB pages from gigabyte `g`. */
  method FillDirectory(m0: Mem, pd: nat, g: nat) returns (m: Mem)
    requires TableIs(m0, pd) && g < 2 && forall i: nat | i < 512 :: Word(m0, pd, i) == 0
    ensures TableIs(m, pd) && forall i: nat | i < 512 :: Word(m, pd, i) == PdWord(g, i)
    ensures m.Keys == m0.Keys && forall u | u in m0 && u != pd :: m[u] == m0[u]
  {
    hide Store, StoreDword, Word;
    m := m0;
    var eax := g * HUGE_PAGE_SIZE + 0x83;
    var ecx := 0;
    while ecx != 512
      invariant 0 <= ecx <= 512 && eax == PdWord(g, ecx)
      invariant TableIs(m, pd)
      invariant forall i: nat | i < 512 :: Word(m, pd, i) == if i < ecx then PdWord(g, i) else 0
      invariant m.Keys == m0.Keys && forall u | u in m0 && u != pd :: m[u] == m0[u]
      decreases 512 - ecx
    {
      StoreDwordWord(m, pd, ecx, eax);
      m := StoreDword(m, pd, ecx, eax);
      eax := eax + 0x20_0000;
      ecx := ecx + 1;
    }
  }

  /** Step 7 of the boot stub, from the zeroed tables of step 6. */
  method BuildBootTables(m0: Mem, pml4: nat, pdpt: nat, pd0: nat, pd1: nat) returns (m: Mem)
    requires FourTables(pml4, pdpt, pd0, pd1)
    requires forall t | t in {pml4, pdpt, pd0, pd1} :: t in m0 && m0[t] == Zeros()
    ensures BuiltTables(m, pml4, pdpt, pd0, pd1)
    ensures m.Keys == m0.Keys && forall t | t in m0 && t !in {pml4, pdpt, pd0, pd1} :: m[t] == m0[t]
  {
    var links := WriteLinks(m0, pml4, pdpt, pd0, pd1);
    var first := FillDirectory(links, pd0, 0);
    m := FillDirectory(first, pd1, 1);
  }

  /** The stores of the links from the PML4 and the PDPT. */
  method WriteLinks(m0: Mem, pml4: nat, pdpt: nat, pd0: nat, pd1: nat) returns (m: Mem)
    requires FourTables(pml4, pdpt, pd0, pd1)
    requires forall t | t in {pml4, pdpt, pd0, pd1} :: t in m0 && m0[t] == Zeros()
    ensures TableIs(m, pml4) && TableIs(m, pdpt)
    ensures forall i: nat | i < 512 :: Word(m, pml4, i) == Pml4Word(pdpt, i)
    ensures forall i: nat | i < 512 :: Word(m, pdpt, i) == PdptWord(pd0, pd1, i)
    ensures m.Keys == m0.Keys && forall t | t in m0 && t != pml4 && t != pdpt :: m[t] == m0[t]
  {
    assert forall t, i: nat | t in {pml4, pdpt, pd0, pd1} && i < 512 :: Word(m0, t, i) == 0;
    hide Store, StoreDword, Word;
    m := m0;
    assert TableIs(m, pml4) && TableIs(m, pdpt);
    StoreDwordWord(m, pml4, 0, pdpt + 3);
    m := StoreDword(m, pml4, 0, pdpt + 3);
    StoreDwordWord(m, pml4, 511, pdpt + 3);
    m := StoreDword(m, pml4, 511, pdpt + 3);
    StoreDwordWord(m, pdpt, 0, pd0 + 3);
    m := StoreDword(m, pdpt, 0, pd0 + 3);
    StoreDwordWord(m, pdpt, 510, pd0 + 3);
    m := StoreDword(m, pdpt, 510, pd0 + 3);
    StoreDwordWord(m, pdpt, 1, pd1 + 3);
    m := StoreDword(m, pdpt, 1, pd1 + 3);
    StoreDwordWord(m, pdpt, 511, pd1 + 3);
    m := StoreDword(m, pdpt, 511, pd1 + 3);
  }

  /** The gigabyte of physical memory behind a PDPT slot of the boot tables. */
  function BootLeaf(ix: Ix): Walk {
    if (ix.i3 <= 1 || 510 <= ix.i3) && ix.i2 < 512 && ix.i3 < 512
    then Leaf(LARGE_PAGE_SIZE, PdWord(ix.i3 % 2, ix.i2)) else Absent
  }

  /** The fields of the boot entries. */
  lemma BootEntries(t: nat, g: nat, i: nat)
    requires t % PAGE_SIZE == 0 && t < BOOT_MAPPED_BYTES && g < 2 && i < 512
    ensures Present(t + 3) && !Huge(t + 3) && EntryAddr(t + 3) == t && LinkFlags(t + 3)
    ensures var e := PdWord(g, i);
            && e < U64_SIZE && Present(e) && Huge(e) && Writable(e) && !NoExecute(e) && !User(e)
            && EntryAddr(e) == g * HUGE_PAGE_SIZE + i * LARGE_PAGE_SIZE
  {
    hide EntryAddr;
    EntryFields(t, 3);
    EntryFields(g * HUGE_PAGE_SIZE + i * LARGE_PAGE_SIZE, 0x83);
  }

  /** From the PDPT down, whatever entry points at it. */
  lemma PdptWalk(m: Mem, root: nat, ix: Ix, pml4: nat, pdpt: nat, pd0: nat, pd1: nat)
    requires BuiltTables(m, pml4, pdpt, pd0, pd1) && ValidIx(ix)
    requires Word(m, root, ix.i4) == pdpt + 3
    ensures WalkFrom(m, root, ix) == BootLeaf(ix)
  {
    hide Word, Present, Huge, EntryAddr, PdWord, LinkFlags;
    BootEntries(pdpt, 0, ix.i2);
    BootEntries(pd0, 0, ix.i2);
    BootEntries(pd1, 1, ix.i2);
    NothingAtZero();
  }

  /** The boot address space, exactly. */
  lemma BootWalk(m: Mem, ix: Ix, pml4: nat, pdpt: nat, pd0: nat, pd1: nat)
    requires BuiltTables(m, pml4, pdpt, pd0, pd1) && ValidIx(ix)
    ensures WalkFrom(m, pml4, ix) == if ix.i4 == 0 || ix.i4 == 511 then BootLeaf(ix) else Absent
  {
    hide Word, Present, Huge, EntryAddr, PdWord, BootLeaf;
    NothingAtZero();
    if ix.i4 == 0 || ix.i4 == 511 {
      PdptWalk(m, pml4, ix, pml4, pdpt, pd0, pd1);
    }
  }

  /** Physical memory below 2 GiB is reachable at its own address and at `KERNEL_VMA` above it. */
  lemma BootAlias(m: Mem, x: nat, pml4: nat, pdpt: nat, pd0: nat, pd1: nat)
    requires BuiltTables(m, pml4, pdpt, pd0, pd1) && x < BOOT_MAPPED_BYTES
    ensures var low, high := Translate(m, pml4, x), Translate(m, pml4, KERNEL_VMA + x);
            && low.Some? && low.value.0 == x && high.Some? && high.value.0 == x
            && low.value.1 == high.value.1 && Writable(low.value.1) && !NoExecute(low.value.1)
  {
    hide WalkFrom, BuiltTables;
    LowIndices(x);
    BootWalk(m, Indices(x), pml4, pdpt, pd0, pd1);
    BootWalk(m, Indices(KERNEL_VMA + x), pml4, pdpt, pd0, pd1);
    BootEntries(0, x / HUGE_PAGE_SIZE, x / LARGE_PAGE_SIZE % 512);
    LargeTarget(x);
    assert pml4 != 0 by { BootRoot(m, pml4, pdpt, pd0, pd1); }
  }

  lemma BootRoot(m: Mem, pml4: nat, pdpt: nat, pd0: nat, pd1: nat)
    requires BuiltTables(m, pml4, pdpt, pd0, pd1)
    ensures pml4 != 0
  {
  }

  lemma LowIndices(x: nat)
    requires x < BOOT_MAPPED_BYTES
    ensures var g, i := x / HUGE_PAGE_SIZE, x / LARGE_PAGE_SIZE % 512;
            && g < 2
            && Indices(x).i4 == 0 && Indices(x).i3 == g && Indices(x).i2 == i
            && Indices(KERNEL_VMA + x).i4 == 511 && Indices(KERNEL_VMA + x).i3 == 510 + g && Indices(KERNEL_VMA + x).i2 == i
            && (510 + g) % 2 == g && (KERNEL_VMA + x) % LARGE_PAGE_SIZE == x % LARGE_PAGE_SIZE
  {
    var v := KERNEL_VMA + x;
    assert v / LARGE_PAGE_SIZE == KERNEL_VMA / LARGE_PAGE_SIZE + x / LARGE_PAGE_SIZE;
    assert v / HUGE_PAGE_SIZE == KERNEL_VMA / HUGE_PAGE_SIZE + x / HUGE_PAGE_SIZE;
    assert v / 0x80_0000_0000 == KERNEL_VMA / 0x80_0000_0000;
  }

  lemma LargeTarget(x: nat)
    requires x < BOOT_MAPPED_BYTES
    ensures var base := x / HUGE_PAGE_SIZE * HUGE_PAGE_SIZE + x / LARGE_PAGE_SIZE % 512 * LARGE_PAGE_SIZE;
            base / LARGE_PAGE_SIZE * LARGE_PAGE_SIZE + x % LARGE_PAGE_SIZE == x
  {
    Shift9(x);
  }
}
