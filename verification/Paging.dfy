/**
 Page-table entries, address decomposition and the four-level walk.

 Entries and addresses are 64-bit words, read here with quotients and remainders. The lemmas at the end
 prove each reading equal to the shift or mask the kernel writes.
 */
module Paging {
  import opened Bits
  import opened Wrappers

  const PAGE_SIZE: nat := 0x1000
  const LARGE_PAGE_SIZE: nat := 0x20_0000
  const HUGE_PAGE_SIZE: nat := 0x4000_0000
  const BOOT_MAPPED_BYTES: nat := 0x8000_0000
  const KERNEL_VMA: nat := 0xFFFF_FFFF_8000_0000
  const HEAP_VIRT_START: nat := 0xFFFF_FFFF_0000_0000

  // Entry flags.
  const PRESENT: nat := 0x1
  const WRITABLE: nat := 0x2
  const USER: nat := 0x4
  const WRITE_THROUGH: nat := 0x8
  const NO_CACHE: nat := 0x10
  const HUGE_PAGE: nat := 0x80
  const GLOBAL: nat := 0x100
  const NO_EXECUTE: nat := 0x8000_0000_0000_0000

  predicate Present(e: u64) { e % 2 == 1 }
  predicate Writable(e: u64) { e / 2 % 2 == 1 }
  predicate User(e: u64) { e / 4 % 2 == 1 }
  predicate Huge(e: u64) { e / 0x80 % 2 == 1 }
  predicate NoExecute(e: u64) { e >= NO_EXECUTE }

  /** Bits 12 to 51 of an entry. */
  function EntryAddr(e: u64): (a: nat)
    ensures a % PAGE_SIZE == 0
  {
    e / PAGE_SIZE % 0x100_0000_0000 * PAGE_SIZE
  }

  datatype Perm = TextRoX | RoData | DataRwNx | Device | BootIdentity {
    function Bits(): u64 {
      match this
      case TextRoX => PRESENT + GLOBAL
      case RoData => PRESENT + GLOBAL + NO_EXECUTE
      case DataRwNx => PRESENT + WRITABLE + GLOBAL + NO_EXECUTE
      case Device => PRESENT + WRITABLE + NO_CACHE + WRITE_THROUGH + NO_EXECUTE
      case BootIdentity => PRESENT + WRITABLE + NO_CACHE + NO_EXECUTE
    }
  }

  /** The flags of a permission profile, without the NX bit on a CPU that cannot enforce it. */
  function Effective(perm: Perm, nx: bool): u64 {
    var f := perm.Bits();
    if !nx && f >= NO_EXECUTE then f - NO_EXECUTE else f
  }

  /** The four table indices of an address. */
  datatype Ix = Ix(i4: nat, i3: nat, i2: nat, i1: nat)

  ghost predicate ValidIx(ix: Ix) {
    ix.i4 < 512 && ix.i3 < 512 && ix.i2 < 512 && ix.i1 < 512
  }

  function Indices(va: nat): (ix: Ix)
    ensures ValidIx(ix)
  {
    Ix(va / 0x80_0000_0000 % 512, va / HUGE_PAGE_SIZE % 512, va / LARGE_PAGE_SIZE % 512, va / PAGE_SIZE % 512)
  }

  /** Bits 48 to 63 repeat bit 47: the addresses `VirtAddr::new` accepts. */
  predicate Canonical(va: nat) {
    va < 0x8000_0000_0000 || 0xFFFF_8000_0000_0000 <= va < U64_SIZE
  }

  const HIGH_HALF: nat := 0xFFFF_8000_0000_0000

  /** Physical memory: the 512 words of each 4 KiB frame, by the frame's address. */
  type Mem = map<nat, seq<u64>>

  function Word(m: Mem, t: nat, i: nat): u64 {
    if t in m && i < |m[t]| then m[t][i] else 0
  }

  datatype Walk = Absent | Leaf(span: nat, entry: u64)

  /** The walk of `translate`: a present entry at the last level, or with the large-page bit above it, is a leaf. */
  function WalkFrom(m: Mem, root: nat, ix: Ix): Walk {
    var e4 := Word(m, root, ix.i4);
    if !Present(e4) then Absent else
    var e3 := Word(m, EntryAddr(e4), ix.i3);
    if !Present(e3) then Absent else if Huge(e3) then Leaf(HUGE_PAGE_SIZE, e3) else
    var e2 := Word(m, EntryAddr(e3), ix.i2);
    if !Present(e2) then Absent else if Huge(e2) then Leaf(LARGE_PAGE_SIZE, e2) else
    var e1 := Word(m, EntryAddr(e2), ix.i1);
    if !Present(e1) then Absent else Leaf(PAGE_SIZE, e1)
  }

  /** The physical address that a leaf gives to `va`. */
  function LeafTarget(leaf: Walk, va: nat): nat
    requires leaf.Leaf? && leaf.span > 0
  {
    EntryAddr(leaf.entry) / leaf.span * leaf.span + va % leaf.span
  }

  /** What `va` translates to: its physical address and the leaf entry. */
  function Translate(m: Mem, root: nat, va: nat): Option<(nat, u64)> {
    if root == 0 then None else
    match WalkFrom(m, root, Indices(va))
    case Absent => None
    case Leaf(span, e) => Some((LeafTarget(Leaf(span, e), va), e))
  }

  predicate SamePage(va: nat, wa: nat) {
    va / PAGE_SIZE == wa / PAGE_SIZE
  }

  /** The last four base-512 digits of a page number. */
  function Digits(p: nat): Ix {
    Ix(p / 512 / 512 / 512 % 512, p / 512 / 512 % 512, p / 512 % 512, p % 512)
  }

  function FromDigits(top: nat, ix: Ix): nat {
    (((top * 512 + ix.i4) * 512 + ix.i3) * 512 + ix.i2) * 512 + ix.i1
  }

  lemma Shift9(v: nat)
    ensures v / LARGE_PAGE_SIZE == v / PAGE_SIZE / 512
    ensures v / HUGE_PAGE_SIZE == v / LARGE_PAGE_SIZE / 512
    ensures v / 0x80_0000_0000 == v / HUGE_PAGE_SIZE / 512
  {
  }

  lemma IndicesAreDigits(va: nat)
    ensures Indices(va) == Digits(va / PAGE_SIZE)
  {
    Shift9(va);
  }

  lemma Digit(x: nat, d: nat)
    requires d < 512
    ensures (x * 512 + d) / 512 == x && (x * 512 + d) % 512 == d
  {
  }

  lemma DigitsOf(top: nat, ix: Ix)
    requires ValidIx(ix)
    ensures Digits(FromDigits(top, ix)) == ix
  {
    Digit(top, ix.i4);
    Digit(top * 512 + ix.i4, ix.i3);
    Digit((top * 512 + ix.i4) * 512 + ix.i3, ix.i2);
    Digit(((top * 512 + ix.i4) * 512 + ix.i3) * 512 + ix.i2, ix.i1);
  }

  lemma Recompose(p: nat)
    ensures p == FromDigits(p / 512 / 512 / 512 / 512, Digits(p))
  {
  }

  /** Page numbers of canonical addresses have top part 0 with a low half index, or 0xFFFF with a high one. */
  lemma CanonicalPage(va: nat)
    requires Canonical(va)
    ensures var p := va / PAGE_SIZE;
            p / 512 / 512 / 512 / 512 == if Digits(p).i4 < 256 then 0 else 0xFFFF
  {
    var q := va / 0x80_0000_0000;
    Shift9(va);
    assert va / PAGE_SIZE / 512 / 512 / 512 == q;
    assert q < 256 || 0x1FF_FF00 <= q < 0x200_0000;
  }

  /** Among canonical addresses the four indices determine the page. */
  lemma IndicesDeterminePage(va: nat, wa: nat)
    requires Canonical(va) && Canonical(wa)
    ensures Indices(va) == Indices(wa) <==> SamePage(va, wa)
  {
    hide Indices, Digits, FromDigits, Canonical;
    IndicesAreDigits(va);
    IndicesAreDigits(wa);
    CanonicalPage(va);
    CanonicalPage(wa);
    Recompose(va / PAGE_SIZE);
    Recompose(wa / PAGE_SIZE);
  }

  /** The canonical address of the first byte that an index path leads to. */
  function VaOf(ix: Ix): nat
    requires ValidIx(ix)
  {
    FromDigits(if ix.i4 < 256 then 0 else 0xFFFF, ix) * PAGE_SIZE
  }

  /** Every index path belongs to a canonical address. */
  lemma VaOfIndices(ix: Ix)
    requires ValidIx(ix)
    ensures Canonical(VaOf(ix)) && Indices(VaOf(ix)) == ix
  {
    var top := if ix.i4 < 256 then 0 else 0xFFFF;
    assert VaOf(ix) / PAGE_SIZE == FromDigits(top, ix);
    IndicesAreDigits(VaOf(ix));
    DigitsOf(top, ix);
  }

  /** Addresses of the upper half are not under PML4[0]. */
  lemma HighIndex(va: nat)
    requires Canonical(va)
    ensures va >= HIGH_HALF ==> Indices(va).i4 >= 256
  {
  }

  // Flag words: some of bits 0 to 11, and perhaps NX.

  ghost predicate FlagWord(f: u64) {
    f < PAGE_SIZE || NO_EXECUTE <= f < NO_EXECUTE + PAGE_SIZE
  }

  /** Reading back an entry made of a page-aligned address and a flag word. */
  lemma EntryFields(p: nat, f: u64)
    requires p % PAGE_SIZE == 0 && p < 0x20_0000_0000_0000 && FlagWord(f)
    ensures p + f < U64_SIZE
    ensures EntryAddr(p + f) == p % 0x10_0000_0000_0000
    ensures Present(p + f) == Present(f) && Writable(p + f) == Writable(f) && User(p + f) == User(f)
    ensures Huge(p + f) == Huge(f) && NoExecute(p + f) == NoExecute(f)
  {
    var q := p / PAGE_SIZE;
    if f < PAGE_SIZE {
      LowFlags(q, f);
    } else {
      LowFlags(q + NO_EXECUTE / PAGE_SIZE, f - NO_EXECUTE);
      LowFlags(NO_EXECUTE / PAGE_SIZE, f - NO_EXECUTE);
      NxAboveAddress(q);
    }
    AddressPart(q);
  }

  lemma LowFlags(x: nat, lo: nat)
    requires lo < PAGE_SIZE
    ensures var e := x * PAGE_SIZE + lo;
            e / PAGE_SIZE == x && e % 2 == lo % 2 && e / 2 % 2 == lo / 2 % 2
            && e / 4 % 2 == lo / 4 % 2 && e / 0x80 % 2 == lo / 0x80 % 2
  {
    DivUnique(x * PAGE_SIZE + lo, PAGE_SIZE, x, lo);
    FlagPart(x * 0x800, lo, 1);
    FlagPart(x * 0x400, lo, 2);
    FlagPart(x * 0x200, lo, 4);
    FlagPart(x * 0x10, lo, 0x80);
  }

  lemma FlagPart(y: nat, lo: nat, d: nat)
    requires d > 0
    ensures (d * (2 * y) + lo) / d % 2 == lo / d % 2
  {
    var q := lo / d;
    assert d * (2 * y) + d * q == d * (2 * y + q);
    DivUnique(d * (2 * y) + lo, d, 2 * y + q, lo % d);
  }

  lemma NxAboveAddress(q: nat)
    ensures (q + NO_EXECUTE / PAGE_SIZE) % 0x100_0000_0000 == q % 0x100_0000_0000
  {
  }

  lemma AddressPart(q: nat)
    ensures q % 0x100_0000_0000 * PAGE_SIZE == q * PAGE_SIZE % 0x10_0000_0000_0000
  {
  }

  lemma EffectiveFlags(perm: Perm, nx: bool)
    ensures var f := Effective(perm, nx);
            && FlagWord(f) && Present(f) && !Huge(f) && !User(f)
            && (nx ==> !(Writable(f) && !NoExecute(f)))
            && (!nx ==> !NoExecute(f))
            && FlagWord(f + HUGE_PAGE) && Present(f + HUGE_PAGE) && Huge(f + HUGE_PAGE) && !User(f + HUGE_PAGE)
            && Writable(f + HUGE_PAGE) == Writable(f) && NoExecute(f + HUGE_PAGE) == NoExecute(f)
  {
  }

  /** Which profile may be written and which may be executed. */
  lemma PermRights(perm: Perm, nx: bool)
    ensures Writable(Effective(perm, nx)) <==> perm.DataRwNx? || perm.Device? || perm.BootIdentity?
    ensures NoExecute(Effective(perm, nx)) <==> nx && !perm.TextRoX?
  {
  }

  /** The flag words by value. */
  lemma EffectiveValue(perm: Perm, nx: bool)
    ensures Effective(perm, nx) ==
              (match perm case TextRoX => 0x101 case RoData => 0x101 case DataRwNx => 0x103 case Device => 0x1B case BootIdentity => 0x13)
              + (if nx && !perm.TextRoX? then 0x8000_0000_0000_0000 else 0)
  {
  }

  // The readings above are the kernel's shifts and masks.

  lemma FlagIsMask(e: u64, k: nat, mask: nat)
    requires mask == Pow2(k)
    ensures And(e, mask) != 0 <==> e / mask % 2 == 1
  {
    TestBit(e, k);
    BitOfShift(e, k, 0);
    ShrIsQuotient(e, k);
  }

  lemma FlagBits()
    ensures Pow2(0) == PRESENT && Pow2(1) == WRITABLE && Pow2(2) == USER && Pow2(7) == HUGE_PAGE
    ensures Pow2(63) == NO_EXECUTE
  {
    Pow2Values();
  }

  lemma FlagsAreMasks(e: u64)
    ensures Present(e) <==> And(e, PRESENT) != 0
    ensures Writable(e) <==> And(e, WRITABLE) != 0
    ensures User(e) <==> And(e, USER) != 0
    ensures Huge(e) <==> And(e, HUGE_PAGE) != 0
    ensures NoExecute(e) <==> And(e, NO_EXECUTE) != 0
  {
    hide Pow2, And;
    FlagBits();
    FlagIsMask(e, 0, PRESENT);
    FlagIsMask(e, 1, WRITABLE);
    FlagIsMask(e, 2, USER);
    FlagIsMask(e, 7, HUGE_PAGE);
    FlagIsMask(e, 63, NO_EXECUTE);
  }

  lemma EntryAddrIsMask(e: u64)
    ensures EntryAddr(e) == And(e, 0x000F_FFFF_FFFF_F000)
  {
    Pow2Values();
    var c := Pow2(40) - 1;
    ShlIsProduct(c, 12);
    AndShiftedMask(e, c, 12);
    ShrIsQuotient(e, 12);
    AndLowMask(e / PAGE_SIZE, 40);
    LowBitsIsRemainder(e / PAGE_SIZE, 40);
    ShlIsProduct(e / PAGE_SIZE % Pow2(40), 12);
  }

  lemma IndicesAreShifts(va: nat)
    ensures var ix := Indices(va);
            && ix.i4 == And(Shr(va, 39), 0x1FF) && ix.i3 == And(Shr(va, 30), 0x1FF)
            && ix.i2 == And(Shr(va, 21), 0x1FF) && ix.i1 == And(Shr(va, 12), 0x1FF)
  {
    Pow2Values();
    IndexIsShift(va, 39);
    IndexIsShift(va, 30);
    IndexIsShift(va, 21);
    IndexIsShift(va, 12);
  }

  lemma IndexIsShift(va: nat, k: nat)
    ensures And(Shr(va, k), 0x1FF) == va / Pow2(k) % 512
  {
    Pow2Values();
    ShrIsQuotient(va, k);
    AndLowMask(Shr(va, k), 9);
    LowBitsIsRemainder(Shr(va, k), 9);
  }

  /** Or-ing a flag word into a page-aligned address adds it. */
  lemma OrIsSum(p: nat, f: u64)
    requires p % PAGE_SIZE == 0 && p < NO_EXECUTE && FlagWord(f)
    ensures Or(p, f) == p + f
  {
    hide Or, Shl, Pow2;
    Pow2Values();
    var q := p / PAGE_SIZE;
    ShlIsProduct(q, 12);
    if f < PAGE_SIZE {
      OrDisjoint(q, f, 12);
    } else {
      OrDisjoint(q, f - NO_EXECUTE, 12);
      OrTopBit(p, f - NO_EXECUTE, 63);
    }
  }

  lemma {:induction false} OrTopBit(a: nat, b: nat, k: nat)
    requires a < Pow2(k) && b < Pow2(k)
    ensures Or(a, b + Pow2(k)) == Or(a, b) + Pow2(k)
    decreases k
  {
    if k > 0 && a > 0 {
      assert (b + Pow2(k)) / 2 == b / 2 + Pow2(k - 1) && (b + Pow2(k)) % 2 == b % 2;
      OrTopBit(a / 2, b / 2, k - 1);
      OrByHalves(a, b);
      OrByHalves(a, b + Pow2(k));
    }
  }

  lemma OrByHalves(a: nat, b: nat)
    ensures Or(a, b) == 2 * Or(a / 2, b / 2) + (if a % 2 == 1 || b % 2 == 1 then 1 else 0)
  {
  }
}
