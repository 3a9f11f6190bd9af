/**
 The address space a page-table hierarchy stands for, and properties of all of it at once:
 what mapping a range does to it, write-xor-execute, and the rule the hardware applies.
 */
module AddressSpace {
  import opened Bits
  import opened Wrappers
  import opened Paging
  import opened PageTable

  /** Every leaf of the hierarchy is the same in `m` and `m'`. */
  ghost predicate SameSpace(m: Mem, m': Mem, root: nat) {
    forall jx | ValidIx(jx) :: WalkFrom(m', root, jx) == WalkFrom(m, root, jx)
  }

  /** A page-aligned target and flags that make a present last-level entry. */
  ghost predicate MappablePage(p: nat, f: u64) {
    p % PAGE_SIZE == 0 && p < 0x20_0000_0000_0000 && FlagWord(f) && Present(f)
  }

  /** The page of `ix` is a 4 KiB leaf `e`, and every other page is as before. */
  ghost predicate LeafSet(m: Mem, m': Mem, root: nat, ix: Ix, e: nat) {
    && e < U64_SIZE
    && forall jx | ValidIx(jx) ::
         WalkFrom(m', root, jx) == if jx == ix then Leaf(PAGE_SIZE, e) else WalkFrom(m, root, jx)
  }

  /** The page of `ix` is mapped, and not to `p`. */
  ghost predicate MapsElsewhere(m: Mem, root: nat, ix: Ix, p: nat) {
    var w := WalkFrom(m, root, ix);
    w.Leaf? && EntryAddr(w.entry) != p
  }

  /** The entry that maps address `x` when `va` is mapped to `pa`. */
  function PageEntry(va: nat, pa: nat, x: nat, f: u64): nat
    requires va <= x
  {
    pa + (x - va) / PAGE_SIZE * PAGE_SIZE + f
  }

  /** After mapping `n` pages, the addresses in the range have their leaves and every other address is as before. */
  ghost predicate MapsRange(m: Mem, m': Mem, root: nat, va: nat, pa: nat, n: nat, f: u64) {
    forall x: nat | Canonical(x) ::
      var w := WalkFrom(m', root, Indices(x));
      if va <= x < va + n * PAGE_SIZE
      then w.Leaf? && w.span == PAGE_SIZE && w.entry == PageEntry(va, pa, x, f)
      else w == WalkFrom(m, root, Indices(x))
  }

  /** No mapped address changes its physical target. */
  ghost predicate TargetsKept(m: Mem, m': Mem, root: nat) {
    forall x: nat | Canonical(x) && Translate(m, root, x).Some? ::
      Translate(m', root, x).Some? && Translate(m', root, x).value.0 == Translate(m, root, x).value.0
  }

  lemma MapsNothing(m: Mem, root: nat, va: nat, pa: nat, f: u64)
    ensures MapsRange(m, m, root, va, pa, 0, f) && TargetsKept(m, m, root)
  {
    hide WalkFrom, Indices;
  }

  /** The first `i` pages from `va` lie in the same canonical half as `va`. */
  predicate InHalf(va: nat, i: nat) {
    if va < 0x8000_0000_0000 then va + i * PAGE_SIZE <= 0x8000_0000_0000 else va + i * PAGE_SIZE <= U64_SIZE
  }

  /** The next page of a range is mappable, and lies in the same half. */
  lemma NextPageMappable(va: nat, pa: nat, i: nat, perm: Perm, nx: bool)
    requires InHalf(va, i) && Canonical(va) && Canonical(va + i * PAGE_SIZE)
    requires va % PAGE_SIZE == 0 && pa % PAGE_SIZE == 0 && pa < 0x10_0000_0000_0000
    ensures MappablePage(pa + i * PAGE_SIZE, Effective(perm, nx)) && InHalf(va, i + 1)
  {
    hide Effective, FlagWord, Present;
    EffectiveFlags(perm, nx);
  }

  /** The next page of a range is still as it was, so its path is still free of large pages. */
  lemma PageBefore(m0: Mem, m: Mem, root: nat, va: nat, pa: nat, i: nat, perm: Perm, nx: bool)
    requires MapsRange(m0, m, root, va, pa, i, Effective(perm, nx)) && Canonical(va + i * PAGE_SIZE)
    requires HugeFree(m0, root, Indices(va + i * PAGE_SIZE))
    ensures HugeFree(m, root, Indices(va + i * PAGE_SIZE))
    ensures MapsElsewhere(m, root, Indices(va + i * PAGE_SIZE), pa + i * PAGE_SIZE)
            <==> MapsElsewhere(m0, root, Indices(va + i * PAGE_SIZE), pa + i * PAGE_SIZE)
  {
    hide WalkFrom, Indices, Effective, FlagWord, EntryAddr, Present;
    var v := va + i * PAGE_SIZE;
    assert WalkFrom(m, root, Indices(v)) == WalkFrom(m0, root, Indices(v));
  }

  // How many tables mapping a range can take.

  /** Tables still missing on the path of `ix`. */
  function Missing(m: Mem, root: nat, ix: Ix): nat {
    (if TableAt(m, root, ix, 3).None? then 1 else 0) + (if TableAt(m, root, ix, 2).None? then 1 else 0)
    + (if TableAt(m, root, ix, 1).None? then 1 else 0)
  }

  /** Boundaries of 2 MiB, 1 GiB and 512 GiB between two addresses. */
  function Crossed(a: nat, b: nat): int {
    b / LARGE_PAGE_SIZE - a / LARGE_PAGE_SIZE + (b / HUGE_PAGE_SIZE - a / HUGE_PAGE_SIZE)
    + (b / 0x80_0000_0000 - a / 0x80_0000_0000)
  }

  /** Tables that `n` pages from `va` can take: one per level, and one more for every boundary crossed. */
  function TablesFor(va: nat, n: nat): int {
    if n == 0 then 0 else 3 + Crossed(va, va + (n - 1) * PAGE_SIZE)
  }

  lemma TablesGrow(va: nat, i: nat, j: nat)
    requires i <= j
    ensures 0 <= TablesFor(va, i) <= TablesFor(va, j)
  {
    if i > 0 {
      CrossedGrows(va, va + (i - 1) * PAGE_SIZE);
      CrossedGrows(va + (i - 1) * PAGE_SIZE, va + (j - 1) * PAGE_SIZE);
    } else if j > 0 {
      CrossedGrows(va, va + (j - 1) * PAGE_SIZE);
    }
  }

  lemma CrossedGrows(a: nat, b: nat)
    requires a <= b
    ensures Crossed(a, b) >= 0
  {
  }

  lemma TableBelow(m: Mem, root: nat, ix: Ix)
    ensures TableAt(m, root, ix, 1).Some? ==> TableAt(m, root, ix, 2).Some?
    ensures TableAt(m, root, ix, 2).Some? ==> TableAt(m, root, ix, 3).Some?
    ensures TableAt(m, root, ix, 3).Some? ==> Present(Word(m, root, ix.i4))
  {
    hide Present, Huge, EntryAddr, Word;
    assert TableAt(m, root, ix, 4) == Some(root);
  }

  /** Paths with a common prefix reach the same tables. */
  lemma SharedTables(m: Mem, root: nat, ix: Ix, jx: Ix)
    requires ix.i4 == jx.i4
    ensures TableAt(m, root, ix, 3) == TableAt(m, root, jx, 3)
    ensures ix.i3 == jx.i3 ==> TableAt(m, root, ix, 2) == TableAt(m, root, jx, 2)
    ensures ix.i3 == jx.i3 && ix.i2 == jx.i2 ==> TableAt(m, root, ix, 1) == TableAt(m, root, jx, 1)
  {
    hide Present, Huge, EntryAddr, Word;
    assert TableAt(m, root, ix, 4) == TableAt(m, root, jx, 4) == Some(root);
  }

  /** After a mapped page, the next page misses at most one table per boundary crossed. */
  lemma NextMissing(m: Mem, root: nat, a: nat)
    requires TableAt(m, root, Indices(a), 1).Some?
    ensures Missing(m, root, Indices(a + PAGE_SIZE)) <= Crossed(a, a + PAGE_SIZE)
  {
    hide TableAt;
    var b := a + PAGE_SIZE;
    TableBelow(m, root, Indices(a));
    NextPrefix(a);
    if Indices(a).i4 == Indices(b).i4 {
      SharedTables(m, root, Indices(a), Indices(b));
    }
  }

  lemma NextPrefix(a: nat)
    ensures var b, ix, jx := a + PAGE_SIZE, Indices(a), Indices(a + PAGE_SIZE);
            && Crossed(a, b) >= 0
            && (Crossed(a, b) <= 2 ==> ix.i4 == jx.i4) && (Crossed(a, b) <= 1 ==> ix.i3 == jx.i3)
            && (Crossed(a, b) <= 0 ==> ix.i2 == jx.i2)
  {
    var b := a + PAGE_SIZE;
    Quotients(a);
    Quotients(b);
    NextLarge(a);
    Carry(a / LARGE_PAGE_SIZE, b / LARGE_PAGE_SIZE);
  }

  lemma NextLarge(a: nat)
    ensures 0 <= (a + PAGE_SIZE) / LARGE_PAGE_SIZE - a / LARGE_PAGE_SIZE <= 1
  {
  }

  /** A carry into a higher digit means a carry into every digit below. */
  lemma Carry(a: nat, b: nat)
    requires a <= b <= a + 1
    ensures a / 512 <= b / 512 <= a / 512 + 1 && (b / 512 > a / 512 ==> b > a)
    ensures a / 512 / 512 <= b / 512 / 512 <= a / 512 / 512 + 1 && (b / 512 / 512 > a / 512 / 512 ==> b / 512 > a / 512)
  {
  }

  lemma Quotients(x: nat)
    ensures x / HUGE_PAGE_SIZE == x / LARGE_PAGE_SIZE / 512
    ensures x / 0x80_0000_0000 == x / LARGE_PAGE_SIZE / 512 / 512
  {
  }

  /** The last page mapped has its table. */
  lemma LastTable(m0: Mem, m: Mem, root: nat, va: nat, pa: nat, i: nat, f: u64)
    requires MapsRange(m0, m, root, va, pa, i, f) && i > 0 && Canonical(va + (i - 1) * PAGE_SIZE)
    ensures TableAt(m, root, Indices(va + (i - 1) * PAGE_SIZE), 1).Some?
  {
    hide WalkFrom, TableAt, Indices, Canonical, PageEntry, Present, Huge;
    var x := va + (i - 1) * PAGE_SIZE;
    WalkByLevel(m, root, Indices(x));
    NothingAtZero();
    assert PAGE_SIZE < LARGE_PAGE_SIZE < HUGE_PAGE_SIZE;
  }

  /** One page more stays within the count. */
  lemma OnePageTables(m0: Mem, m: Mem, root: nat, va: nat, pa: nat, i: nat, f: u64)
    requires MapsRange(m0, m, root, va, pa, i, f) && InHalf(va, i) && Canonical(va) && Canonical(va + i * PAGE_SIZE)
    ensures TablesFor(va, i) + Missing(m, root, Indices(va + i * PAGE_SIZE)) <= TablesFor(va, i + 1)
  {
    hide WalkFrom, TableAt, Indices, PageEntry, MapsRange, Crossed, Missing;
    if i == 0 {
      SameAddress(va);
      AtMostThree(m, root, Indices(va));
    } else {
      var a := va + (i - 1) * PAGE_SIZE;
      LastTable(m0, m, root, va, pa, i, f);
      NextMissing(m, root, a);
      CrossedSum(va, a, a + PAGE_SIZE);
    }
  }

  lemma SameAddress(a: nat)
    ensures Crossed(a, a) == 0
  {
  }

  lemma CrossedSum(a: nat, b: nat, c: nat)
    ensures Crossed(a, b) + Crossed(b, c) == Crossed(a, c)
  {
  }

  lemma AtMostThree(m: Mem, root: nat, ix: Ix)
    ensures Missing(m, root, ix) <= 3
  {
  }

  lemma UnchangedRange(m0: Mem, m: Mem, m': Mem, root: nat, va: nat, pa: nat, i: nat, f: u64)
    requires MapsRange(m0, m, root, va, pa, i, f) && TargetsKept(m0, m, root) && SameSpace(m, m', root)
    ensures MapsRange(m0, m', root, va, pa, i, f) && TargetsKept(m0, m', root)
  {
    hide WalkFrom, Indices, Canonical, LeafTarget, PageEntry;
    assert forall x: nat :: WalkFrom(m', root, Indices(x)) == WalkFrom(m, root, Indices(x));
  }

  /** In a page-aligned range, a further page adds exactly the addresses with its indices. */
  lemma NextPage(va: nat, i: nat, x: nat)
    requires va % PAGE_SIZE == 0 && Canonical(va + i * PAGE_SIZE) && Canonical(x)
    ensures Indices(x) == Indices(va + i * PAGE_SIZE) <==> va + i * PAGE_SIZE <= x < va + (i + 1) * PAGE_SIZE
    ensures va + i * PAGE_SIZE <= x < va + (i + 1) * PAGE_SIZE ==> (x - va) / PAGE_SIZE == i
  {
    hide Indices, Canonical;
    IndicesDeterminePage(x, va + i * PAGE_SIZE);
  }

  lemma OnePageMore(m0: Mem, m: Mem, m': Mem, root: nat, va: nat, pa: nat, i: nat, f: u64)
    requires MapsRange(m0, m, root, va, pa, i, f) && TargetsKept(m0, m, root)
    requires va % PAGE_SIZE == 0 && Canonical(va + i * PAGE_SIZE) && MappablePage(pa + i * PAGE_SIZE, f)
    requires var ix, p := Indices(va + i * PAGE_SIZE), pa + i * PAGE_SIZE;
             LeafSet(m, m', root, ix, p + f) && !MapsElsewhere(m, root, ix, p) && HugeFree(m, root, ix)
    ensures MapsRange(m0, m', root, va, pa, i + 1, f) && TargetsKept(m0, m', root)
  {
    hide WalkFrom, Indices, Canonical, MappablePage, LeafTarget, EntryAddr;
    forall x: nat | Canonical(x)
      ensures var w := WalkFrom(m', root, Indices(x));
              if va <= x < va + (i + 1) * PAGE_SIZE
              then w.Leaf? && w.span == PAGE_SIZE && w.entry == PageEntry(va, pa, x, f)
              else w == WalkFrom(m0, root, Indices(x))
    {
      NextPage(va, i, x);
    }
    forall x: nat | Canonical(x) && Translate(m0, root, x).Some?
      ensures Translate(m', root, x).Some? && Translate(m', root, x).value.0 == Translate(m0, root, x).value.0
    {
      NextPage(va, i, x);
      if Indices(x) == Indices(va + i * PAGE_SIZE) {
        SameTarget(WalkFrom(m, root, Indices(x)), pa + i * PAGE_SIZE, f, x);
      }
    }
  }

  /** A leaf that already points at `p` keeps its target when its flags are replaced. */
  lemma SameTarget(w: Walk, p: nat, f: u64, x: nat)
    requires w.Leaf? && w.span == PAGE_SIZE && EntryAddr(w.entry) == p && MappablePage(p, f)
    ensures p + f < U64_SIZE
    ensures LeafTarget(Leaf(PAGE_SIZE, p + f), x) == LeafTarget(w, x)
  {
    EntryFields(p, f);
    AddressBound(w.entry);
  }

  lemma AddressBound(e: u64)
    ensures EntryAddr(e) < 0x10_0000_0000_0000
  {
  }

  /**
   The target of a mapped address is `pa` plus its offset in the range exactly while that stays inside
   the 52 bits an entry can hold.
   */
  lemma MappedTarget(m: Mem, m': Mem, root: nat, va: nat, pa: nat, n: nat, f: u64, x: nat)
    requires MapsRange(m, m', root, va, pa, n, f) && root != 0 && Canonical(va) && InHalf(va, n)
    requires Canonical(x) && va <= x < va + n * PAGE_SIZE
    requires va % PAGE_SIZE == 0 && pa % PAGE_SIZE == 0 && pa < 0x10_0000_0000_0000 && FlagWord(f)
    ensures var t := Translate(m', root, x);
            && t.Some? && t.value.1 == PageEntry(va, pa, x, f)
            && (t.value.0 == pa + (x - va) <==> pa + (x - va) < 0x10_0000_0000_0000)
  {
    hide WalkFrom, Indices, EntryAddr;
    var k := (x - va) / PAGE_SIZE;
    var p := pa + k * PAGE_SIZE;
    EntryFields(p, f);
    OffsetInPage(va, x);
    WrapAddress(p, x % PAGE_SIZE);
  }

  lemma OffsetInPage(va: nat, x: nat)
    requires va <= x && va % PAGE_SIZE == 0
    ensures x - va == (x - va) / PAGE_SIZE * PAGE_SIZE + x % PAGE_SIZE
  {
  }

  lemma WrapAddress(p: nat, d: nat)
    requires p % PAGE_SIZE == 0 && p < 0x20_0000_0000_0000 && d < PAGE_SIZE
    ensures p % 0x10_0000_0000_0000 / PAGE_SIZE * PAGE_SIZE + d == p + d <==> p + d < 0x10_0000_0000_0000
  {
  }

  // Write-xor-execute.

  predicate WxEntry(e: u64) {
    Writable(e) && !NoExecute(e)
  }

  /** No page is both writable and executable. */
  ghost predicate NoWx(m: Mem, root: nat) {
    forall ix | ValidIx(ix) :: WalkFrom(m, root, ix).Leaf? ==> !WxEntry(WalkFrom(m, root, ix).entry)
  }

  /** Stated over index paths or over addresses, the property is the same. */
  lemma NoWxByAddress(m: Mem, root: nat)
    requires root != 0
    ensures NoWx(m, root) <==>
              forall x: nat | Canonical(x) && Translate(m, root, x).Some? :: !WxEntry(Translate(m, root, x).value.1)
  {
    hide WalkFrom, Indices, Canonical, WxEntry, VaOf, LeafTarget;
    if forall x: nat | Canonical(x) && Translate(m, root, x).Some? :: !WxEntry(Translate(m, root, x).value.1) {
      forall ix | ValidIx(ix) && WalkFrom(m, root, ix).Leaf? ensures !WxEntry(WalkFrom(m, root, ix).entry) {
        VaOfIndices(ix);
        assert Translate(m, root, VaOf(ix)).Some?;
      }
    }
  }

  /** Mapping a range with NX available adds no writable and executable page. */
  lemma MapKeepsNoWx(m: Mem, m': Mem, root: nat, va: nat, pa: nat, n: nat, perm: Perm)
    requires MapsRange(m, m', root, va, pa, n, Effective(perm, true)) && NoWx(m, root)
    requires va % PAGE_SIZE == 0 && pa % PAGE_SIZE == 0 && pa < 0x10_0000_0000_0000 && InHalf(va, n) && Canonical(va)
    ensures NoWx(m', root)
  {
    hide WalkFrom, Indices, WxEntry, VaOf, Effective;
    forall ix | ValidIx(ix) && WalkFrom(m', root, ix).Leaf? ensures !WxEntry(WalkFrom(m', root, ix).entry) {
      VaOfIndices(ix);
      var x := VaOf(ix);
      if va <= x < va + n * PAGE_SIZE {
        PageEntryFlags(va, pa, x, perm);
      }
    }
  }

  lemma PageEntryFlags(va: nat, pa: nat, x: nat, perm: Perm)
    requires va <= x < va + 0x8000_0000_0000 && pa % PAGE_SIZE == 0 && pa < 0x10_0000_0000_0000
    ensures var e := PageEntry(va, pa, x, Effective(perm, true));
            e < U64_SIZE && !WxEntry(e) && !User(e)
  {
    EffectiveFlags(perm, true);
    EntryFields(pa + (x - va) / PAGE_SIZE * PAGE_SIZE, Effective(perm, true));
  }

  // The rule the hardware applies: rights are the conjunction of every level.

  datatype Rights = Fault | Rights(write: bool, execute: bool, user: bool)

  function Restrict(r: Rights, e: u64): Rights {
    if !Present(e) || r.Fault? then Fault
    else Rights(r.write && Writable(e), r.execute && !NoExecute(e), r.user && User(e))
  }

  /** The rights of a page under section 4.6 of the Intel SDM, Volume 3A, with NX enabled. */
  function HardwareRights(m: Mem, root: nat, ix: Ix): Rights {
    var e4 := Word(m, root, ix.i4);
    var r4 := Restrict(Rights(true, true, true), e4);
    if r4.Fault? then Fault else
    var e3 := Word(m, EntryAddr(e4), ix.i3);
    var r3 := Restrict(r4, e3);
    if r3.Fault? || Huge(e3) then r3 else
    var e2 := Word(m, EntryAddr(e3), ix.i2);
    var r2 := Restrict(r3, e2);
    if r2.Fault? || Huge(e2) then r2 else
    Restrict(r2, Word(m, EntryAddr(e2), ix.i1))
  }

  /** In a linked hierarchy the leaf alone decides, and nothing is reachable from user mode. */
  lemma LeafDecides(m: Mem, s: Shape, root: nat, ix: Ix)
    requires Linked(m, s, root) && ValidIx(ix)
    ensures HardwareRights(m, root, ix) ==
              match WalkFrom(m, root, ix)
              case Absent => Fault
              case Leaf(_, e) => Rights(Writable(e), !NoExecute(e), false)
  {
    hide Present, Huge, EntryAddr, Writable, NoExecute, User, Word, Sealed;
    assert TableAt(m, root, ix, 4) == Some(root);
    LinksGrant(m, s, root, ix, 4);
    LinksGrant(m, s, root, ix, 3);
    LinksGrant(m, s, root, ix, 2);
  }

  lemma LinksGrant(m: Mem, s: Shape, root: nat, ix: Ix, level: nat)
    requires Linked(m, s, root) && ValidIx(ix) && 2 <= level <= 4
    ensures TableAt(m, root, ix, level).Some? && IsLink(level, WordAt(m, root, ix, level)) ==>
              LinkFlags(WordAt(m, root, ix, level))
  {
    hide Present, Huge, EntryAddr, LinkFlags, Sealed, IsLink, Word;
    if TableAt(m, root, ix, level).Some? {
      PathInShape(m, s, root, ix, level);
      assert LinkOk(m, s, root, TableAt(m, root, ix, level).value, IxAt(ix, level));
    }
  }
}
