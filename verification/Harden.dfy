/**
 Hardening the inherited boot map: every entry of every page directory under PML4[0] is rewritten as a
 supervisor-only, non-executable 2 MiB page. A directory reached through two PDPT slots is rewritten twice.
 */
module Harden {
  import opened Bits
  import opened Wrappers
  import opened Paging
  import opened PageTable
  import opened AddressSpace

  /** The rewritten entry keeps its address; its permission bits are replaced wholesale. */
  function HardenEntry(e: u64, nx: bool): u64 {
    HardenBits(e, nx);
    if Present(e) then EntryAddr(e) + Effective(BootIdentity, nx) + HUGE_PAGE else e
  }

  lemma HardenBits(e: u64, nx: bool)
    ensures EntryAddr(e) + Effective(BootIdentity, nx) + HUGE_PAGE < U64_SIZE
    ensures var e' := EntryAddr(e) + Effective(BootIdentity, nx) + HUGE_PAGE;
            && Present(e') && Huge(e') && !User(e') && Writable(e') && NoExecute(e') == nx
            && EntryAddr(e') == EntryAddr(e)
  {
    hide EntryAddr;
    AddressBound(e);
    EffectiveFlags(BootIdentity, nx);
    EntryFields(EntryAddr(e), Effective(BootIdentity, nx) + HUGE_PAGE);
    AddressAligned(e);
  }

  lemma AddressAligned(e: u64)
    ensures EntryAddr(e) % PAGE_SIZE == 0
  {
  }

  /** A hardened large page at `a`: present, writable, uncached, and not executable where the CPU can enforce it. */
  function HardWord(a: nat, nx: bool): nat {
    a + 0x93 + if nx then 0x8000_0000_0000_0000 else 0
  }

  lemma HardenEntryFields(e: u64, nx: bool)
    ensures var e' := HardenEntry(e, nx);
            && Present(e') == Present(e) && EntryAddr(e') == EntryAddr(e)
            && (Present(e) ==> Huge(e') && !User(e') && Writable(e') && NoExecute(e') == nx)
            && (Present(e) ==> e' == HardWord(EntryAddr(e), nx))
  {
    hide EntryAddr, Effective, Present;
    HardenBits(e, nx);
    EffectiveValue(BootIdentity, nx);
  }

  /** Hardening an entry again changes nothing. */
  lemma HardenTwice(e: u64, nx: bool)
    ensures HardenEntry(HardenEntry(e, nx), nx) == HardenEntry(e, nx)
  {
    hide EntryAddr, Effective, Present;
    HardenEntryFields(e, nx);
  }

  function HardenTable(t: seq<u64>, nx: bool): (r: seq<u64>)
    ensures |r| == |t|
  {
    seq(|t|, i requires 0 <= i < |t| => HardenEntry(t[i], nx))
  }

  lemma HardenTableTwice(t: seq<u64>, nx: bool)
    ensures HardenTable(HardenTable(t, nx), nx) == HardenTable(t, nx)
  {
    hide HardenEntry;
    forall i: nat | i < |t| ensures HardenEntry(HardenEntry(t[i], nx), nx) == HardenEntry(t[i], nx) {
      HardenTwice(t[i], nx);
    }
  }

  /** How many of the first `k` entries are present. */
  function PresentCount(t: seq<u64>, k: nat): nat
    requires k <= |t|
  {
    if k == 0 then 0 else PresentCount(t, k - 1) + if Present(t[k - 1]) then 1 else 0
  }

  lemma {:induction false} PresentCountKept(t: seq<u64>, k: nat, nx: bool)
    requires k <= |t|
    ensures PresentCount(HardenTable(t, nx), k) == PresentCount(t, k)
  {
    hide HardenEntry, Present;
    if k > 0 {
      PresentCountKept(t, k - 1, nx);
      HardenEntryFields(t[k - 1], nx);
    }
  }

  /** The tables that the first `k` entries of a PDPT point at. */
  ghost function Directories(m: Mem, pdpt: nat, k: nat): set<nat> {
    set i: nat | i < k && Present(Word(m, pdpt, i)) :: EntryAddr(Word(m, pdpt, i))
  }

  /** Entries rewritten for the first `k` slots, counting a shared directory once per slot. */
  ghost function Rewrites(m: Mem, pdpt: nat, k: nat): nat {
    if k == 0 then 0 else
    var e := Word(m, pdpt, k - 1);
    Rewrites(m, pdpt, k - 1) + if Present(e) && EntryAddr(e) in m then PresentCount(m[EntryAddr(e)], |m[EntryAddr(e)]|) else 0
  }

  lemma {:induction false} PresentRun(t: seq<u64>, k: nat)
    requires k <= |t|
    ensures (forall i: nat | i < k :: Present(t[i])) ==> PresentCount(t, k) == k
    ensures (forall i: nat | i < k :: !Present(t[i])) ==> PresentCount(t, k) == 0
  {
    hide Present;
    if k > 0 {
      PresentRun(t, k - 1);
    }
  }

  /** `m'` is `m` with the tables `pds` hardened. */
  ghost predicate Hardened(m: Mem, m': Mem, pds: set<nat>, nx: bool) {
    && m'.Keys == m.Keys
    && forall t | t in m :: m'[t] == if t in pds then HardenTable(m[t], nx) else m[t]
  }

  /** The inner loop: one directory. */
  method HardenDirectory(m: Mem, pd: nat, nx: bool) returns (m': Mem, n: nat)
    requires pd in m && |m[pd]| == 512
    ensures m' == m[pd := HardenTable(m[pd], nx)] && n == PresentCount(m[pd], 512)
  {
    hide HardenEntry, Effective, EntryAddr, Present;
    var table: seq<u64> := m[pd];
    n := 0;
    var i := 0;
    while i < 512
      invariant 0 <= i <= 512 && |table| == 512 && n == PresentCount(m[pd], i)
      invariant forall j: nat | j < 512 :: table[j] == if j < i then HardenEntry(m[pd][j], nx) else m[pd][j]
    {
      var e := table[i];
      HardenStep(e, nx);
      if Present(e) {
        table := table[i := EntryAddr(e) + Effective(BootIdentity, nx) + HUGE_PAGE];
        n := n + 1;
      }
      i := i + 1;
    }
    assert table == HardenTable(m[pd], nx);
    m' := m[pd := table];
  }

  lemma HardenStep(e: u64, nx: bool)
    ensures EntryAddr(e) + Effective(BootIdentity, nx) + HUGE_PAGE < U64_SIZE
    ensures HardenEntry(e, nx) == if Present(e) then EntryAddr(e) + Effective(BootIdentity, nx) + HUGE_PAGE else e
  {
    hide EntryAddr, Effective, Present;
    HardenBits(e, nx);
  }

  /** `harden_boot_map` on the hierarchy at `root`; a 1 GiB page in the boot PDPT fails its assertion. */
  method HardenBootMap(m: Mem, root: nat, nx: bool, ghost s: Shape) returns (r: Outcome<nat>, m': Mem)
    requires Linked(m, s, root)
    ensures var pdpt := EntryAddr(Word(m, root, 0));
            if !Present(Word(m, root, 0)) then r == Done(0) && m' == m
            else if exists i: nat :: i < 512 && Present(Word(m, pdpt, i)) && Huge(Word(m, pdpt, i)) then r.Panic?
            else r == Done(Rewrites(m, pdpt, 512)) && Hardened(m, m', Directories(m, pdpt, 512), nx)
  {
    hide Present, Huge, EntryAddr, Sealed, LinkFlags, Hardened, HardenTable, HardenEntry, Directories, Rewrites;
    LinkedNode(m, s, root, root);
    var pdptEntry := m[root][0];
    if !Present(pdptEntry) {
      return Done(0), m;
    }
    assert LinkOk(m, s, root, root, 0);
    var pdpt := EntryAddr(pdptEntry);
    LinkedNode(m, s, root, pdpt);
    m' := m;
    var entries := 0;
    var i := 0;
    NothingHardened(m, pdpt, nx);
    while i < 512
      invariant 0 <= i <= 512 && entries == Rewrites(m, pdpt, i)
      invariant Hardened(m, m', Directories(m, pdpt, i), nx)
      invariant pdpt in m' && m'[pdpt] == m[pdpt]
      invariant forall j: nat | j < i :: !(Present(Word(m, pdpt, j)) && Huge(Word(m, pdpt, j)))
    {
      var e := m'[pdpt][i];
      assert LinkOk(m, s, root, pdpt, i);
      if Present(e) {
        if Huge(e) {
          return Panic, m';
        }
        var pd := EntryAddr(e);
        LinkedNode(m, s, root, pd);
        OneMoreSlot(m, m', pdpt, i, nx);
        var k;
        m', k := HardenDirectory(m', pd, nx);
        entries := entries + k;
      } else {
        SkipSlot(m, m', pdpt, i, nx);
      }
      i := i + 1;
    }
    return Done(entries), m';
  }

  lemma NothingHardened(m: Mem, pdpt: nat, nx: bool)
    ensures Hardened(m, m, Directories(m, pdpt, 0), nx) && Rewrites(m, pdpt, 0) == 0
  {
  }

  lemma SkipSlot(m: Mem, m': Mem, pdpt: nat, i: nat, nx: bool)
    requires Hardened(m, m', Directories(m, pdpt, i), nx) && !Present(Word(m, pdpt, i))
    ensures Hardened(m, m', Directories(m, pdpt, i + 1), nx) && Rewrites(m, pdpt, i + 1) == Rewrites(m, pdpt, i)
  {
    hide HardenTable, Present, EntryAddr, Word;
    assert Directories(m, pdpt, i + 1) == Directories(m, pdpt, i);
  }

  lemma OneMoreSlot(m: Mem, m': Mem, pdpt: nat, i: nat, nx: bool)
    requires Hardened(m, m', Directories(m, pdpt, i), nx) && Present(Word(m, pdpt, i))
    requires var pd := EntryAddr(Word(m, pdpt, i)); pd in m && |m[pd]| == 512
    ensures var pd := EntryAddr(Word(m, pdpt, i));
            && pd in m' && |m'[pd]| == 512
            && Hardened(m, m'[pd := HardenTable(m'[pd], nx)], Directories(m, pdpt, i + 1), nx)
            && Rewrites(m, pdpt, i + 1) == Rewrites(m, pdpt, i) + PresentCount(m'[pd], 512)
  {
    hide Present, EntryAddr, Word, PresentCount, HardenTable;
    var pd := EntryAddr(Word(m, pdpt, i));
    assert Directories(m, pdpt, i + 1) == Directories(m, pdpt, i) + {pd};
    HardenTableTwice(m[pd], nx);
    HardenTableSize(m[pd], nx);
    PresentCountKept(m[pd], 512, nx);
  }

  lemma HardenTableSize(t: seq<u64>, nx: bool)
    ensures |HardenTable(t, nx)| == |t|
  {
  }

  // What hardening does to the address space.

  /** `m'` is the result of a completed hardening of the hierarchy at `root`. */
  ghost predicate HardenedFrom(m: Mem, m': Mem, s: Shape, root: nat, nx: bool) {
    var pdpt := EntryAddr(Word(m, root, 0));
    && Linked(m, s, root) && Present(Word(m, root, 0))
    && (forall i: nat | i < 512 :: !(Present(Word(m, pdpt, i)) && Huge(Word(m, pdpt, i))))
    && Hardened(m, m', Directories(m, pdpt, 512), nx)
  }

  /** Under PML4[0] there is no last-level table: every mapping there is a large page. */
  ghost predicate LargeOnly(m: Mem, root: nat) {
    forall ix | ValidIx(ix) && ix.i4 == 0 :: TableAt(m, root, ix, 1).None?
  }

  /** No 1 GiB page. */
  ghost predicate NoGiant(m: Mem, root: nat) {
    forall ix | ValidIx(ix) :: WalkFrom(m, root, ix).Leaf? ==> WalkFrom(m, root, ix).span != HUGE_PAGE_SIZE
  }

  /** A large entry in the boot PDPT is a 1 GiB page. */
  lemma GiantEntry(m: Mem, root: nat)
    requires Present(Word(m, root, 0))
    requires var pdpt := EntryAddr(Word(m, root, 0));
             exists i: nat :: i < 512 && Present(Word(m, pdpt, i)) && Huge(Word(m, pdpt, i))
    ensures !NoGiant(m, root)
  {
    hide Present, Huge, EntryAddr, Word;
    var pdpt := EntryAddr(Word(m, root, 0));
    var i: nat :| i < 512 && Present(Word(m, pdpt, i)) && Huge(Word(m, pdpt, i));
    var ix := Ix(0, i, 0, 0);
    assert ValidIx(ix) && WalkFrom(m, root, ix).Leaf?;
  }

  /** Hardening makes no 1 GiB page. */
  lemma HardenNoGiant(m: Mem, m': Mem, s: Shape, root: nat, nx: bool)
    requires HardenedFrom(m, m', s, root, nx) && NoGiant(m, root)
    ensures NoGiant(m', root)
  {
    hide WalkFrom, TableAt, HardenedFrom, Present, HardenEntry;
    forall ix | ValidIx(ix) && WalkFrom(m', root, ix).Leaf? ensures WalkFrom(m', root, ix).span != HUGE_PAGE_SIZE {
      if ix.i4 == 0 {
        BootSlotWalk(m, m', s, root, nx, ix);
      } else {
        OtherSlotsUnchanged(m, m', s, root, nx, ix);
      }
    }
  }

  /**
   After hardening, no page is writable and executable exactly when NX is available and the slots beside
   PML4[0] held no such page; the boot map holds at least one page.
   */
  lemma HardenedNoWx(m: Mem, m': Mem, s: Shape, root: nat, nx: bool)
    requires HardenedFrom(m, m', s, root, nx)
    requires forall ix | ValidIx(ix) && ix.i4 != 0 && WalkFrom(m, root, ix).Leaf? :: !WxEntry(WalkFrom(m, root, ix).entry)
    requires exists ix :: ValidIx(ix) && ix.i4 == 0 && WalkFrom(m, root, ix).Leaf?
    ensures NoWx(m', root) <==> nx
  {
    hide WalkFrom, TableAt, HardenedFrom, Present, HardenEntry, Writable, NoExecute, WordAt;
    var jx :| ValidIx(jx) && jx.i4 == 0 && WalkFrom(m, root, jx).Leaf?;
    HardenedLeaf(m, m', s, root, nx, jx);
    forall ix | ValidIx(ix) && WalkFrom(m', root, ix).Leaf? ensures WxEntry(WalkFrom(m', root, ix).entry) ==> !nx {
      HardenedLeaf(m, m', s, root, nx, ix);
    }
  }

  lemma HardenedLeaf(m: Mem, m': Mem, s: Shape, root: nat, nx: bool, ix: Ix)
    requires HardenedFrom(m, m', s, root, nx) && ValidIx(ix)
    ensures ix.i4 != 0 ==> WalkFrom(m', root, ix) == WalkFrom(m, root, ix)
    ensures ix.i4 == 0 && WalkFrom(m', root, ix).Leaf? ==> WxEntry(WalkFrom(m', root, ix).entry) == !nx
    ensures ix.i4 == 0 && WalkFrom(m, root, ix).Leaf? ==> WalkFrom(m', root, ix).Leaf?
  {
    hide WalkFrom, TableAt, HardenedFrom, Present, HardenEntry, Writable, NoExecute, WordAt;
    if ix.i4 == 0 {
      BootSlotWalk(m, m', s, root, nx, ix);
      HardenEntryFields(WordAt(m, root, ix, 2), nx);
    } else {
      OtherSlotsUnchanged(m, m', s, root, nx, ix);
    }
  }

  lemma HardenedWord(m: Mem, m': Mem, pds: set<nat>, nx: bool, u: nat, j: nat)
    requires Hardened(m, m', pds, nx)
    ensures Word(m', u, j) == if u in pds then HardenEntry(Word(m, u, j), nx) else Word(m, u, j)
  {
    hide HardenEntry;
    ZeroStays(nx);
  }

  lemma ZeroStays(nx: bool)
    ensures HardenEntry(0, nx) == 0
  {
  }

  /** The hardened tables are the second-level tables under PML4[0], and no other table. */
  lemma DirectoryNodes(m: Mem, m': Mem, s: Shape, root: nat, nx: bool, t: nat)
    requires HardenedFrom(m, m', s, root, nx)
    ensures var pdpt := EntryAddr(Word(m, root, 0));
            t in Directories(m, pdpt, 512) ==> t in s && s[t].level == 2 && s[t].slot == 0
  {
    hide Present, Huge, EntryAddr, Sealed, LinkFlags, Hardened, Word;
    var pdpt := EntryAddr(Word(m, root, 0));
    assert LinkOk(m, s, root, root, 0);
    LinkedNode(m, s, root, pdpt);
    if t in Directories(m, pdpt, 512) {
      var i: nat :| i < 512 && Present(Word(m, pdpt, i)) && t == EntryAddr(Word(m, pdpt, i));
      assert LinkOk(m, s, root, pdpt, i);
    }
  }

  /** Every walk through PML4[0] that reaches its second-level table finds it hardened. */
  lemma PathDirectory(m: Mem, root: nat, ix: Ix)
    requires ValidIx(ix) && ix.i4 == 0 && TableAt(m, root, ix, 2).Some?
    ensures TableAt(m, root, ix, 2).value in Directories(m, EntryAddr(Word(m, root, 0)), 512)
    ensures TableAt(m, root, ix, 3) == Some(EntryAddr(Word(m, root, 0)))
  {
    hide Present, Huge, EntryAddr, Word;
    assert TableAt(m, root, ix, 4) == Some(root);
    assert Present(Word(m, EntryAddr(Word(m, root, 0)), ix.i3));
  }

  /** Above the directories, and in every other PML4 slot, the walk reads what it read before. */
  lemma UpperWords(m: Mem, m': Mem, s: Shape, root: nat, nx: bool, ix: Ix, level: nat)
    requires HardenedFrom(m, m', s, root, nx) && ValidIx(ix) && 1 <= level <= 4
    requires TableAt(m, root, ix, level).Some? && (ix.i4 != 0 || level != 2)
    ensures var t := TableAt(m, root, ix, level).value;
            Word(m', t, IxAt(ix, level)) == Word(m, t, IxAt(ix, level))
  {
    hide Present, Huge, EntryAddr, Sealed, LinkFlags, Word, TableAt, Hardened, LinkOk;
    PathInShape(m, s, root, ix, level);
    var t := TableAt(m, root, ix, level).value;
    DirectoryNodes(m, m', s, root, nx, t);
    HardenedWord(m, m', Directories(m, EntryAddr(Word(m, root, 0)), 512), nx, t, IxAt(ix, level));
  }

  lemma OtherSlotsUnchanged(m: Mem, m': Mem, s: Shape, root: nat, nx: bool, ix: Ix)
    requires HardenedFrom(m, m', s, root, nx) && ValidIx(ix) && ix.i4 != 0
    ensures WalkFrom(m', root, ix) == WalkFrom(m, root, ix)
  {
    hide WalkFrom, TableAt, HardenedFrom, Word;
    forall level: nat | 1 <= level <= 4 && TableAt(m, root, ix, level).Some?
      ensures var t := TableAt(m, root, ix, level).value; Word(m', t, IxAt(ix, level)) == Word(m, t, IxAt(ix, level))
    {
      UpperWords(m, m', s, root, nx, ix, level);
    }
    SameReads(m, m', root, ix);
  }

  /** Under PML4[0]: an absent second-level entry stays absent, a present one becomes a large page. */
  lemma BootSlotWalk(m: Mem, m': Mem, s: Shape, root: nat, nx: bool, ix: Ix)
    requires HardenedFrom(m, m', s, root, nx) && ValidIx(ix) && ix.i4 == 0
    ensures var e := WordAt(m, root, ix, 2);
            WalkFrom(m', root, ix) == if Present(e) then Leaf(LARGE_PAGE_SIZE, HardenEntry(e, nx)) else Absent
    ensures !Present(WordAt(m, root, ix, 2)) ==> WalkFrom(m, root, ix) == Absent
  {
    hide Present, Huge, EntryAddr, Sealed, LinkFlags, Word, Hardened, WalkFrom, HardenEntry, LinkOk;
    assert TableAt(m, root, ix, 4) == Some(root) == TableAt(m', root, ix, 4);
    UpperWords(m, m', s, root, nx, ix, 4);
    assert TableAt(m', root, ix, 3) == TableAt(m, root, ix, 3);
    if TableAt(m, root, ix, 3).Some? {
      UpperWords(m, m', s, root, nx, ix, 3);
    }
    assert TableAt(m', root, ix, 2) == TableAt(m, root, ix, 2);
    if TableAt(m, root, ix, 2).Some? {
      PathDirectory(m, root, ix);
      HardenedWord(m, m', Directories(m, EntryAddr(Word(m, root, 0)), 512), nx, TableAt(m, root, ix, 2).value, ix.i2);
      HardenEntryFields(WordAt(m, root, ix, 2), nx);
    }
    NothingAtZero();
    WalkByLevel(m, root, ix);
    WalkByLevel(m', root, ix);
    NoGigabytePage(m, m', s, root, nx, ix);
  }

  lemma NoGigabytePage(m: Mem, m': Mem, s: Shape, root: nat, nx: bool, ix: Ix)
    requires HardenedFrom(m, m', s, root, nx) && ValidIx(ix) && ix.i4 == 0
    ensures !(Present(WordAt(m, root, ix, 3)) && Huge(WordAt(m, root, ix, 3)))
  {
    hide Present, Huge, EntryAddr, Sealed, LinkFlags, Word, Hardened, WalkFrom, LinkOk;
    assert TableAt(m, root, ix, 4) == Some(root);
    NothingAtZero();
  }

  /** The same pages are mapped, with the same sizes and addresses. */
  ghost predicate PagesKept(m: Mem, m': Mem, root: nat) {
    forall ix | ValidIx(ix) ::
      var w, w' := WalkFrom(m, root, ix), WalkFrom(m', root, ix);
      w.Leaf? == w'.Leaf? && (w.Leaf? ==> w.span == w'.span && EntryAddr(w.entry) == EntryAddr(w'.entry))
  }

  /** Hardening keeps every page where it is exactly when the boot map holds large pages only. */
  lemma HardenKeepsPages(m: Mem, m': Mem, s: Shape, root: nat, nx: bool)
    requires HardenedFrom(m, m', s, root, nx)
    ensures PagesKept(m, m', root) <==> LargeOnly(m, root)
  {
    hide WalkFrom, TableAt, HardenedFrom, Present, Huge, EntryAddr, HardenEntry;
    if LargeOnly(m, root) {
      forall ix | ValidIx(ix)
        ensures var w, w' := WalkFrom(m, root, ix), WalkFrom(m', root, ix);
                w.Leaf? == w'.Leaf? && (w.Leaf? ==> w.span == w'.span && EntryAddr(w.entry) == EntryAddr(w'.entry))
      {
        if ix.i4 == 0 {
          LargePageWalk(m, m', s, root, nx, ix);
        } else {
          OtherSlotsUnchanged(m, m', s, root, nx, ix);
        }
      }
    }
    if PagesKept(m, m', root) {
      forall ix | ValidIx(ix) && ix.i4 == 0 ensures TableAt(m, root, ix, 1).None? {
        SmallPageLost(m, m', s, root, nx, ix);
      }
    }
  }

  /** A large page keeps its address and loses its user and execute rights. */
  lemma LargePageWalk(m: Mem, m': Mem, s: Shape, root: nat, nx: bool, ix: Ix)
    requires HardenedFrom(m, m', s, root, nx) && ValidIx(ix) && ix.i4 == 0 && TableAt(m, root, ix, 1).None?
    ensures var w, w' := WalkFrom(m, root, ix), WalkFrom(m', root, ix);
            && w.Leaf? == w'.Leaf?
            && (w.Leaf? ==>
                  && w.span == w'.span == LARGE_PAGE_SIZE
                  && EntryAddr(w'.entry) == EntryAddr(w.entry) && w'.entry == HardWord(EntryAddr(w.entry), nx)
                  && !User(w'.entry) && Writable(w'.entry) && NoExecute(w'.entry) == nx)
  {
    hide Present, Huge, EntryAddr, WalkFrom, HardenedFrom, HardenEntry, User, NoExecute, HardWord;
    BootSlotWalk(m, m', s, root, nx, ix);
    HardenEntryFields(WordAt(m, root, ix, 2), nx);
    NoGigabytePage(m, m', s, root, nx, ix);
    WalkByLevel(m, root, ix);
    NothingAtZero();
  }

  /** Where a last-level table hung, hardening turns the pointer to it into a large page. */
  lemma SmallPageLost(m: Mem, m': Mem, s: Shape, root: nat, nx: bool, ix: Ix)
    requires HardenedFrom(m, m', s, root, nx) && ValidIx(ix) && ix.i4 == 0
    ensures TableAt(m, root, ix, 1).Some? ==>
              && WalkFrom(m', root, ix).Leaf? && WalkFrom(m', root, ix).span == LARGE_PAGE_SIZE
              && (WalkFrom(m, root, ix).Leaf? ==> WalkFrom(m, root, ix).span == PAGE_SIZE)
  {
    hide Present, Huge, EntryAddr, WalkFrom, HardenedFrom, HardenEntry;
    BootSlotWalk(m, m', s, root, nx, ix);
    WalkByLevel(m, root, ix);
    if TableAt(m, root, ix, 1).Some? {
      assert TableAt(m, root, ix, 2).Some?;
    }
  }

  /** Every canonical address is mapped before and after or not at all, and to the same target. */
  ghost predicate TargetsSame(m: Mem, m': Mem, root: nat) {
    forall x: nat | Canonical(x) :: SameTarget(Translate(m, root, x), Translate(m', root, x))
  }

  predicate SameTarget(t: Option<(nat, u64)>, t': Option<(nat, u64)>) {
    t.Some? == t'.Some? && (t.Some? ==> t.value.0 == t'.value.0)
  }

  /** Every page of a last-level table under PML4[0] lies where the large page that replaces the table will put it. */
  ghost predicate SmallInPlace(m: Mem, root: nat) {
    forall ix | ValidIx(ix) && ix.i4 == 0 && TableAt(m, root, ix, 1).Some? :: InPlace(m, root, ix, TableAt(m, root, ix, 1).value)
  }

  ghost predicate InPlace(m: Mem, root: nat, ix: Ix, t: nat) {
    var w := WalkFrom(m, root, ix);
    w.Leaf? && EntryAddr(w.entry) == t / LARGE_PAGE_SIZE * LARGE_PAGE_SIZE + ix.i1 * PAGE_SIZE
  }

  /**
   Hardening keeps the target of every address, mapped or not, exactly when every small page under PML4[0] happens to lie
   in place; with large pages only, there is none to ask this of.
   */
  lemma HardenKeepsTargets(m: Mem, m': Mem, s: Shape, root: nat, nx: bool)
    requires HardenedFrom(m, m', s, root, nx) && root != 0
    ensures TargetsSame(m, m', root) <==> SmallInPlace(m, root)
  {
    hide WalkFrom, TableAt, HardenedFrom, Translate, Indices, InPlace, VaOf, Canonical;
    if SmallInPlace(m, root) {
      forall x: nat | Canonical(x) ensures SameTarget(Translate(m, root, x), Translate(m', root, x)) {
        TargetAfter(m, m', s, root, nx, x);
      }
    }
    if TargetsSame(m, m', root) {
      forall ix | ValidIx(ix) && ix.i4 == 0 && TableAt(m, root, ix, 1).Some?
        ensures InPlace(m, root, ix, TableAt(m, root, ix, 1).value)
      {
        VaOfIndices(ix);
        TargetAfter(m, m', s, root, nx, VaOf(ix));
      }
    }
  }

  lemma TargetAfter(m: Mem, m': Mem, s: Shape, root: nat, nx: bool, x: nat)
    requires HardenedFrom(m, m', s, root, nx) && root != 0 && Canonical(x)
    ensures var ix := Indices(x);
            SameTarget(Translate(m, root, x), Translate(m', root, x)) <==>
              (ix.i4 == 0 && TableAt(m, root, ix, 1).Some? ==> InPlace(m, root, ix, TableAt(m, root, ix, 1).value))
  {
    hide WalkFrom, TableAt, HardenedFrom, EntryAddr, Present, Huge, Indices;
    var ix := Indices(x);
    if ix.i4 != 0 {
      OtherSlotsUnchanged(m, m', s, root, nx, ix);
    } else if TableAt(m, root, ix, 1).None? {
      LargePageWalk(m, m', s, root, nx, ix);
    } else {
      SmallPageLost(m, m', s, root, nx, ix);
      TableAddress(m, m', s, root, nx, ix);
      OffsetParts(x);
      if WalkFrom(m, root, ix).Leaf? {
        AddressAligned(WalkFrom(m, root, ix).entry);
      }
    }
  }

  /** The large page that replaces a table has the table's address. */
  lemma TableAddress(m: Mem, m': Mem, s: Shape, root: nat, nx: bool, ix: Ix)
    requires HardenedFrom(m, m', s, root, nx) && ValidIx(ix) && ix.i4 == 0 && TableAt(m, root, ix, 1).Some?
    ensures WalkFrom(m', root, ix).Leaf? && EntryAddr(WalkFrom(m', root, ix).entry) == TableAt(m, root, ix, 1).value
  {
    hide WalkFrom, HardenedFrom, EntryAddr, Present, Huge, HardenEntry, Word;
    BootSlotWalk(m, m', s, root, nx, ix);
    HardenEntryFields(WordAt(m, root, ix, 2), nx);
    assert TableAt(m, root, ix, 2).Some?;
  }

  lemma OffsetParts(x: nat)
    ensures x % LARGE_PAGE_SIZE == Indices(x).i1 * PAGE_SIZE + x % PAGE_SIZE
  {
    var q := x / PAGE_SIZE;
    assert x == PAGE_SIZE * q + x % PAGE_SIZE && q == 512 * (q / 512) + q % 512;
    DivUnique(x, LARGE_PAGE_SIZE, q / 512, q % 512 * PAGE_SIZE + x % PAGE_SIZE);
  }

  /** The hierarchy stays well formed, with the shape it had. */
  lemma HardenLinked(m: Mem, m': Mem, s: Shape, root: nat, nx: bool)
    requires HardenedFrom(m, m', s, root, nx)
    ensures Linked(m', s, root)
  {
    hide Present, Huge, EntryAddr, LinkFlags, Sealed, Word, HardenEntry;
    var pds := Directories(m, EntryAddr(Word(m, root, 0)), 512);
    forall t | t in s ensures NodeOk(m', s, root, t) {
      assert NodeOk(m, s, root, t);
      HardenTableSize(m[t], nx);
    }
    forall t, i: nat | t in s && i < 512 ensures LinkOk(m', s, root, t, i) {
      assert LinkOk(m, s, root, t, i);
      HardenedWord(m, m', pds, nx, t, i);
      HardenEntryFields(Word(m, t, i), nx);
      DirectoryNodes(m, m', s, root, nx, t);
      var d := EntryAddr(Word(m, t, i));
      if d in s && Sealed(m, d) {
        HardenSealed(m, m', pds, nx, d);
      }
    }
  }

  lemma HardenSealed(m: Mem, m': Mem, pds: set<nat>, nx: bool, d: nat)
    requires Hardened(m, m', pds, nx) && Sealed(m, d)
    ensures Sealed(m', d)
  {
    hide Present, Huge, Word, HardenEntry, Hardened;
    forall j: nat | j < 512 ensures Present(Word(m', d, j)) && Huge(Word(m', d, j)) {
      HardenedWord(m, m', pds, nx, d, j);
      HardenEntryFields(Word(m, d, j), nx);
    }
  }

  /** Hardening twice is hardening once, although shared directories are rewritten twice each time. */
  lemma HardenIdempotent(m: Mem, m': Mem, m'': Mem, s: Shape, root: nat, nx: bool)
    requires HardenedFrom(m, m', s, root, nx) && HardenedFrom(m', m'', s, root, nx)
    ensures m'' == m'
  {
    hide Present, Huge, EntryAddr, LinkFlags, Sealed, Word, LinkOk, HardenTable;
    var pdpt := EntryAddr(Word(m, root, 0));
    var pds := Directories(m, pdpt, 512);
    SameDirectories(m, m', s, root, nx);
    forall t | t in m ensures m''[t] == m'[t] {
      HardenTableTwice(m[t], nx);
    }
  }

  lemma SameDirectories(m: Mem, m': Mem, s: Shape, root: nat, nx: bool)
    requires HardenedFrom(m, m', s, root, nx)
    ensures EntryAddr(Word(m', root, 0)) == EntryAddr(Word(m, root, 0))
    ensures var pdpt := EntryAddr(Word(m, root, 0)); Directories(m', pdpt, 512) == Directories(m, pdpt, 512)
  {
    hide Present, Huge, EntryAddr, LinkFlags, Sealed, Word, Hardened;
    var pdpt := EntryAddr(Word(m, root, 0));
    var pds := Directories(m, pdpt, 512);
    assert LinkOk(m, s, root, root, 0);
    DirectoryNodes(m, m', s, root, nx, root);
    DirectoryNodes(m, m', s, root, nx, pdpt);
    HardenedWord(m, m', pds, nx, root, 0);
    forall i: nat ensures Word(m', pdpt, i) == Word(m, pdpt, i) {
      HardenedWord(m, m', pds, nx, pdpt, i);
    }
  }
}
