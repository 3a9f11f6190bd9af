/**
 From the bootloader's information structure to a frame allocator that owns no reserved frame:
 `read_from`, `pmm::init` and `reserve_boot_memory` in the order `kmain` runs them.
 */
module BootMemory {
  import opened Bits
  import opened Wrappers
  import opened BootData
  import opened Pmm
  import opened PmmRuns
  import Multiboot

  // Reading the structure in place.

  const READ_CAP: nat := 65536

  /** RSDP offsets become addresses once the base is known. */
  function Relocated(r: Multiboot.Result<BootInfo>, phys: nat): Multiboot.Result<BootInfo> {
    match r
    case Failed(e) => Multiboot.Failed(e)
    case Parsed(info) =>
      var rsdp := match info.acpiRsdp case None => None case Some(off) => Some(phys + off);
      Multiboot.Parsed(info.(physAddr := phys, acpiRsdp := rsdp))
  }

  /**
   What reading the structure at `phys` means, where `ram` is the readable memory from `phys` on: the parse of exactly the
   declared bytes. `Panic` is a structure whose declared bytes are not all readable.
   */
  function ReadSpec(phys: nat, ram: seq<byte>): Outcome<Multiboot.Result<BootInfo>> {
    if phys == 0 || phys >= 0x8000_0000 then Done(Multiboot.Failed(Multiboot.TooShort))
    else if |ram| < 4 then Panic
    else
      var total := Multiboot.LeVal(ram[..4]);
      if total < 8 then Done(Multiboot.Failed(Multiboot.TooShort))
      else if total > 65536 then Done(Multiboot.Failed(Multiboot.SizeMismatch))
      else if total > |ram| then Panic
      else Done(Relocated(Multiboot.ParseSpec(ram[..total]), phys))
  }

  method ReadFrom(phys: nat, ram: seq<byte>) returns (r: Outcome<Multiboot.Result<BootInfo>>)
    ensures r == ReadSpec(phys, ram)
  {
    hide Multiboot.LeVal, Multiboot.WalkTags;
    if phys == 0 || phys >= MAX_PHYS {
      return Done(Multiboot.Failed(Multiboot.TooShort));
    }
    if |ram| < 4 {
      return Panic;
    }
    var total := Multiboot.LeVal(ram[..4]);
    var span := Min(total + FRAME_SIZE, READ_CAP);
    if total < Multiboot.HEADER_LEN {
      return Done(Multiboot.Failed(Multiboot.TooShort));
    }
    if total <= READ_CAP && total > |ram| {
      return Panic;
    }
    // The slice covers `span` bytes; what is not readable of it lies past the declared size and is not looked at.
    span := Min(span, |ram|);
    assert ram[..span][0..4] == ram[..4];
    if total <= READ_CAP {
      assert ram[..span][..4] == ram[..4] && ram[..total][..4] == ram[..4];
      assert ram[..span][..total] == ram[..total] == ram[..total][..total];
      Multiboot.ParsePrefix(ram[..span], ram[..total]);
    }
    var info := Multiboot.Parse(ram[..span]);
    if info.Failed? {
      return Done(Multiboot.Failed(info.error));
    }
    var boot := info.value.(physAddr := phys);
    if boot.acpiRsdp.Some? {
      boot := boot.(acpiRsdp := Some(phys + boot.acpiRsdp.value));
    }
    return Done(Multiboot.Parsed(boot));
  }

  // What must never be handed out.

  datatype Range = Range(start: nat, end: nat)

  /** Physical extent of the kernel image and of the boot stub's tables and stacks inside it. */
  datatype Image = Image(physStart: u64, physEnd: u64, bssStart: u64, bssEnd: u64)

  const MIB: nat := 0x10_0000

  function FixedRanges(img: Image): seq<Range> {
    [Range(0, 0x1000), Range(0x9_FC00, 0xA_0000), Range(0xA_0000, 0xC_0000), Range(0xC_0000, 0x10_0000),
     Range(img.physStart, img.physEnd)]
  }

  function InfoRanges(info: BootInfo): seq<Range> {
    if info.physAddr != 0 then [Range(info.physAddr, info.physAddr + info.totalSize)] else []
  }

  function FramebufferRanges(info: BootInfo): seq<Range> {
    match info.framebuffer
    case None => []
    case Some(fb) =>
      if fb.fbType != EGA_TEXT && fb.size > 0 then [Range(fb.address, fb.address + fb.size)] else []
  }

  function AcpiRanges(info: BootInfo): seq<Range> {
    match info.acpiRsdp
    case None => []
    case Some(rsdp) => [Range(rsdp / FRAME_SIZE * FRAME_SIZE, rsdp / FRAME_SIZE * FRAME_SIZE + FRAME_SIZE)]
  }

  function LimitRanges(limit: Option<nat>): seq<Range> {
    match limit
    case None => []
    case Some(mib) => [Range(mib * MIB, MAX_PHYS)]
  }

  /** Everything `reserve_boot_memory` takes away, in order. */
  function BootRanges(info: BootInfo, img: Image, limit: Option<nat>): seq<Range> {
    FixedRanges(img) + InfoRanges(info) + FramebufferRanges(info) + AcpiRanges(info) + LimitRanges(limit)
  }

  ghost predicate MeetsAny(i: nat, ranges: seq<Range>) {
    exists r :: r in ranges && Meets(i, r.start, r.end)
  }

  /** The managed frames that any of the ranges touches. */
  ghost function TouchedBy(ranges: seq<Range>): set<nat> {
    set i: nat | i < MAX_FRAMES && MeetsAny(i, ranges)
  }

  /** `s` is `s0` with the ranges reserved. */
  ghost predicate ReservedFrom(s0: State, s: State, ranges: seq<Range>) {
    && s.free == s0.free - TouchedBy(ranges)
    && s.reserved + |s.free| == s0.reserved + |s0.free|
    && s == s0.(free := s.free, reserved := s.reserved)
  }

  lemma ReservedNothing(s: State)
    ensures ReservedFrom(s, s, [])
  {
    assert forall i: nat :: !MeetsAny(i, []);
    assert TouchedBy([]) == {};
  }

  lemma ReservedMore(s0: State, s: State, ranges: seq<Range>, start: nat, end: nat, s': State)
    requires ReservedFrom(s0, s, ranges) && Step(s, Reserve(start, end), Ok, s')
    ensures ReservedFrom(s0, s', ranges + [Range(start, end)])
  {
    hide Touched, TouchedBy;
    TouchedMore(ranges, start, end);
    Split(s.free, Touched(start, end));
  }

  lemma TouchedMore(ranges: seq<Range>, start: nat, end: nat)
    ensures TouchedBy(ranges + [Range(start, end)]) == TouchedBy(ranges) + Touched(start, end)
  {
    hide Touched, Meets;
    var more := ranges + [Range(start, end)];
    forall i: nat ensures MeetsAny(i, more) <==> MeetsAny(i, ranges) || Meets(i, start, end) {
      assert forall r :: r in more <==> r in ranges || r == Range(start, end);
      if Meets(i, start, end) {
        assert Range(start, end) in more;
      }
    }
    TouchedTerms(start, end);
  }

  lemma TouchedTerms(start: nat, end: nat)
    ensures forall i: nat :: i in Touched(start, end) <==> i < MAX_FRAMES && Meets(i, start, end)
  {
  }

  /** `reserve_range` can round the range outward without overflow. */
  predicate Roundable(r: Range) {
    r.start < r.end ==> r.end + FRAME_SIZE < U64_SIZE
  }

  /** One call of `reserve_range`, on top of those already made. */
  method ReserveOne(pmm: Pmm, start: nat, end: nat, ghost s0: State, ghost ranges: seq<Range>) returns (ok: bool)
    requires pmm.Valid() && ReservedFrom(s0, pmm.View(), ranges)
    modifies pmm, pmm.bitmap
    ensures pmm.Valid()
    ensures ok == Roundable(Range(start, end))
    ensures ok ==> ReservedFrom(s0, pmm.View(), ranges + [Range(start, end)])
  {
    hide Touched, TouchedBy, ReservedFrom;
    var r := pmm.ReserveRange(start, end);
    ok := r.Ok?;
    if ok {
      ReservedMore(s0, old(pmm.View()), ranges, start, end, pmm.View());
    }
  }

  /** The ranges that are there whatever the loader says. */
  method ReserveFixed(pmm: Pmm, img: Image) returns (ok: bool)
    requires pmm.Valid()
    modifies pmm, pmm.bitmap
    ensures pmm.Valid()
    ensures ok == Roundable(Range(img.physStart, img.physEnd))
    ensures ok ==> ReservedFrom(old(pmm.View()), pmm.View(), FixedRanges(img))
  {
    hide ReservedFrom;
    ghost var s0 := pmm.View();
    ReservedNothing(s0);
    ok := ReserveOne(pmm, 0, 0x1000, s0, []);
    ghost var done := [] + [Range(0, 0x1000)];
    ok := ReserveOne(pmm, 0x9_FC00, 0xA_0000, s0, done);
    done := done + [Range(0x9_FC00, 0xA_0000)];
    ok := ReserveOne(pmm, 0xA_0000, 0xC_0000, s0, done);
    done := done + [Range(0xA_0000, 0xC_0000)];
    ok := ReserveOne(pmm, 0xC_0000, 0x10_0000, s0, done);
    done := done + [Range(0xC_0000, 0x10_0000)];
    ok := ReserveOne(pmm, img.physStart, img.physEnd, s0, done);
    assert done + [Range(img.physStart, img.physEnd)] == FixedRanges(img);
  }

  /** An optional range. */
  method ReserveEach(pmm: Pmm, more: seq<Range>, ghost s0: State, ghost ranges: seq<Range>) returns (ok: bool)
    requires pmm.Valid() && ReservedFrom(s0, pmm.View(), ranges) && |more| <= 1
    modifies pmm, pmm.bitmap
    ensures pmm.Valid()
    ensures ok == (forall r | r in more :: Roundable(r))
    ensures ok ==> ReservedFrom(s0, pmm.View(), ranges + more)
  {
    hide ReservedFrom, Roundable;
    if more == [] {
      assert ranges + more == ranges;
      return true;
    }
    assert more == [more[0]];
    ok := ReserveOne(pmm, more[0].start, more[0].end, s0, ranges);
  }

  /** No assertion of `reserve_boot_memory` fails and none of its sums overflows. */
  predicate Reservable(info: BootInfo, img: Image, limit: Option<nat>) {
    && img.physStart <= img.bssStart && img.bssEnd <= img.physEnd
    && (forall r | r in BootRanges(info, img, limit) :: Roundable(r) && r.start < U64_SIZE && r.end < U64_SIZE)
  }

  /** The ranges of one kind, when the arithmetic that computes them does not overflow. */
  predicate Computable(ranges: seq<Range>) {
    forall r | r in ranges :: r.start < U64_SIZE && r.end < U64_SIZE
  }

  method ReserveBootMemory(pmm: Pmm, info: BootInfo, img: Image, limit: Option<nat>) returns (ok: bool)
    requires pmm.Valid()
    modifies pmm, pmm.bitmap
    ensures pmm.Valid()
    ensures ok == Reservable(info, img, limit)
    ensures ok ==> ReservedFrom(old(pmm.View()), pmm.View(), BootRanges(info, img, limit))
  {
    hide ReservedFrom, Roundable, FixedRanges, InfoRanges, FramebufferRanges, AcpiRanges, LimitRanges;
    ghost var s0 := pmm.View();
    ghost var all := BootRanges(info, img, limit);
    RangesOf(info, img, limit);
    ok := ReserveFixed(pmm, img);
    if !ok {
      return false;
    }
    if img.bssStart < img.physStart || img.physEnd < img.bssEnd {
      return false;
    }
    ghost var done := FixedRanges(img);
    if !Computable(InfoRanges(info)) {
      return false;
    }
    ok := ReserveEach(pmm, InfoRanges(info), s0, done);
    if !ok {
      return false;
    }
    done := done + InfoRanges(info);
    if !Computable(FramebufferRanges(info)) {
      return false;
    }
    ok := ReserveEach(pmm, FramebufferRanges(info), s0, done);
    if !ok {
      return false;
    }
    done := done + FramebufferRanges(info);
    if !Computable(AcpiRanges(info)) {
      return false;
    }
    ok := ReserveEach(pmm, AcpiRanges(info), s0, done);
    if !ok {
      return false;
    }
    done := done + AcpiRanges(info);
    if !Computable(LimitRanges(limit)) {
      return false;
    }
    ok := ReserveEach(pmm, LimitRanges(limit), s0, done);
  }

  /** The five groups of ranges; those of the first are in range by themselves. */
  lemma RangesOf(info: BootInfo, img: Image, limit: Option<nat>)
    ensures forall r :: r in BootRanges(info, img, limit) <==>
              || r in FixedRanges(img) || r in InfoRanges(info) || r in FramebufferRanges(info)
              || r in AcpiRanges(info) || r in LimitRanges(limit)
    ensures |InfoRanges(info)| <= 1 && |FramebufferRanges(info)| <= 1
    ensures |AcpiRanges(info)| <= 1 && |LimitRanges(limit)| <= 1
    ensures Computable(FixedRanges(img))
    ensures (forall r | r in FixedRanges(img) :: Roundable(r)) <==> Roundable(Range(img.physStart, img.physEnd))
  {
    assert FixedRanges(img)[4] == Range(img.physStart, img.physEnd);
  }

  /** A range whose ends are 64-bit values and which can be rounded outward to whole frames. */
  predicate Fits64(lo: nat, hi: nat) {
    lo < 0x1_0000_0000_0000_0000 && hi + (if lo < hi then 0x1000 else 0) < 0x1_0000_0000_0000_0000
  }

  /** When the reservations succeed, in fields and numbers. */
  lemma ReservableNumbers(info: BootInfo, img: Image, limit: Option<nat>)
    ensures Reservable(info, img, limit) <==>
              && img.physStart <= img.bssStart && img.bssEnd <= img.physEnd && Fits64(img.physStart, img.physEnd)
              && (info.physAddr != 0 ==> Fits64(info.physAddr, info.physAddr + info.totalSize))
              && (info.framebuffer.Some? && info.framebuffer.value.fbType != 2 && info.framebuffer.value.size > 0 ==>
                    var fb := info.framebuffer.value; Fits64(fb.address, fb.address + fb.size))
              && (info.acpiRsdp.Some? ==>
                    var page := info.acpiRsdp.value - info.acpiRsdp.value % 4096; Fits64(page, page + 4096))
              && (limit.Some? ==> limit.value * 0x10_0000 < 0x1_0000_0000_0000_0000)
  {
    hide Computable, FixedRanges;
    RangesOf(info, img, limit);
    FixedFit(img);
    assert forall r | r in InfoRanges(info) :: r == InfoRanges(info)[0];
    assert forall r | r in FramebufferRanges(info) :: r == FramebufferRanges(info)[0];
    assert forall r | r in AcpiRanges(info) :: r == AcpiRanges(info)[0];
    assert forall r | r in LimitRanges(limit) :: r == LimitRanges(limit)[0];
    assert info.physAddr != 0 ==> InfoRanges(info)[0] in InfoRanges(info);
    assert FramebufferRanges(info) != [] ==> FramebufferRanges(info)[0] in FramebufferRanges(info);
    assert AcpiRanges(info) != [] ==> AcpiRanges(info)[0] in AcpiRanges(info);
    assert LimitRanges(limit) != [] ==> LimitRanges(limit)[0] in LimitRanges(limit);
  }

  lemma FixedFit(img: Image)
    ensures (forall r | r in FixedRanges(img) :: Roundable(r) && r.start < U64_SIZE && r.end < U64_SIZE) <==>
              Fits64(img.physStart, img.physEnd)
  {
    assert FixedRanges(img)[4] == Range(img.physStart, img.physEnd);
  }

  // The whole sequence.

  /** What the reservations leave of the memory map. */
  ghost function FramesLeft(info: BootInfo, img: Image, limit: Option<nat>): set<nat> {
    Usable(info.mmap) - TouchedBy(BootRanges(info, img, limit))
  }

  /** The allocator after boot: what the map makes available, less everything reserved. */
  ghost predicate Booted(s: State, info: BootInfo, img: Image, limit: Option<nat>) {
    && s.initialised && Conserved(s) && s.outstanding == {}
    && s.free == FramesLeft(info, img, limit)
    && s.total == |Usable(info.mmap)|
  }

  /** Boot gets past its reservations: the structure parses, its memory is countable and every range can be reserved. */
  predicate Bootable(phys: nat, ram: seq<byte>, img: Image, limit: Option<nat>) {
    var r := ReadSpec(phys, ram);
    r.Done? && r.value.Parsed? && Countable(r.value.value.mmap) && Reservable(r.value.value, img, limit)
  }

  /** Steps 7 and 8 of `kmain`. `None` is one of its panics. */
  method BootAllocator(phys: nat, ram: seq<byte>, img: Image, limit: Option<nat>) returns (r: Option<(Pmm, BootInfo)>)
    ensures r.Some? <==> Bootable(phys, ram, img, limit)
    ensures r.Some? ==>
              var (pmm, info) := r.value;
              && fresh(pmm) && fresh(pmm.bitmap) && pmm.Valid()
              && ReadSpec(phys, ram) == Done(Multiboot.Parsed(info))
              && Booted(pmm.View(), info, img, limit)
  {
    hide ReservedFrom, Usable, Touched, TouchedBy, BootRanges, ReadSpec, Reservable, Countable;
    var boot := ReadFrom(phys, ram);
    if boot.Panic? || boot.value.Failed? {
      return None;
    }
    var info := boot.value.value;
    var pmm := new Pmm();
    var reply := pmm.Init(info.mmap);
    if !reply.Ok? {
      return None;
    }
    ghost var s0 := pmm.View();
    var ok := ReserveBootMemory(pmm, info, img, limit);
    if !ok {
      return None;
    }
    BootedAfter(info, img, limit, s0, pmm.View());
    return Some((pmm, info));
  }

  lemma BootedAfter(info: BootInfo, img: Image, limit: Option<nat>, s0: State, s: State)
    requires s0 == State(Usable(info.mmap), {}, 0, |Usable(info.mmap)|, 0, true)
    requires ReservedFrom(s0, s, BootRanges(info, img, limit))
    ensures Booted(s, info, img, limit)
  {
    hide TouchedBy, SomeEntryHolds;
  }

  /** Frame `f` and the bytes from `lo` up to `hi` have none in common. */
  predicate Apart4k(f: nat, lo: nat, hi: nat) {
    hi <= lo || (f + 1) * 4096 <= lo || hi <= f * 4096
  }

  /**
   What the reservations are for, in fields and numbers: the frame shares no byte with the first page, with the firmware's
   memory below 1 MiB, with the kernel image, the loader's structure, a framebuffer that is not text, the page of the RSDP,
   or anything from the memory limit up.
   */
  ghost predicate Unclaimed(f: nat, info: BootInfo, img: Image, limit: Option<nat>) {
    && Apart4k(f, 0, 0x1000) && Apart4k(f, 0x9_FC00, 0x10_0000) && Apart4k(f, img.physStart, img.physEnd)
    && (info.physAddr != 0 ==> Apart4k(f, info.physAddr, info.physAddr + info.totalSize))
    && (info.framebuffer.Some? && info.framebuffer.value.fbType != 2 ==>
          var fb := info.framebuffer.value; Apart4k(f, fb.address, fb.address + fb.size))
    && (info.acpiRsdp.Some? ==>
          var page := info.acpiRsdp.value - info.acpiRsdp.value % 4096; Apart4k(f, page, page + 4096))
    && (limit.Some? ==> (f + 1) * 4096 <= limit.value * 0x10_0000)
  }

  /** The frames left by the reservations, without reference to them: exactly the usable frames nothing claims. */
  lemma LeftIsUnclaimed(info: BootInfo, img: Image, limit: Option<nat>, f: nat)
    ensures f in FramesLeft(info, img, limit) <==> f in Usable(info.mmap) && Unclaimed(f, info, img, limit)
  {
    hide Usable;
    UsableBound(info.mmap, f);
    if f < MAX_FRAMES {
      ClaimedRanges(info, img, limit, f);
      assert f in TouchedBy(BootRanges(info, img, limit)) <==> MeetsAny(f, BootRanges(info, img, limit));
    }
  }

  lemma UsableBound(mmap: seq<MmapEntry>, f: nat)
    ensures f in Usable(mmap) ==> f < MAX_FRAMES
  {
  }

  lemma MeetsIsShared(f: nat, lo: nat, hi: nat)
    ensures Meets(f, lo, hi) <==> !Apart4k(f, lo, hi)
  {
  }

  lemma ClaimedRanges(info: BootInfo, img: Image, limit: Option<nat>, f: nat)
    requires f < MAX_FRAMES
    ensures MeetsAny(f, BootRanges(info, img, limit)) <==> !Unclaimed(f, info, img, limit)
  {
    hide Meets, Apart4k, FixedRanges, InfoRanges, FramebufferRanges, AcpiRanges, LimitRanges, Roundable;
    RangesOf(info, img, limit);
    FixedClaims(img, f);
    InfoClaims(info, f);
    FramebufferClaims(info, f);
    AcpiClaims(info, f);
    LimitClaims(limit, f);
    var all := BootRanges(info, img, limit);
    assert MeetsAny(f, all) <==>
             || MeetsAny(f, FixedRanges(img)) || MeetsAny(f, InfoRanges(info)) || MeetsAny(f, FramebufferRanges(info))
             || MeetsAny(f, AcpiRanges(info)) || MeetsAny(f, LimitRanges(limit));
  }

  lemma FixedClaims(img: Image, f: nat)
    ensures MeetsAny(f, FixedRanges(img)) <==>
              !(Apart4k(f, 0, 0x1000) && Apart4k(f, 0x9_FC00, 0x10_0000) && Apart4k(f, img.physStart, img.physEnd))
  {
    var rs := FixedRanges(img);
    assert forall r :: r in rs <==> r == rs[0] || r == rs[1] || r == rs[2] || r == rs[3] || r == rs[4];
    assert rs[0] in rs && rs[1] in rs && rs[2] in rs && rs[3] in rs && rs[4] in rs;
    assert Meets(f, 0x9_FC00, 0x10_0000) <==>
             Meets(f, 0x9_FC00, 0xA_0000) || Meets(f, 0xA_0000, 0xC_0000) || Meets(f, 0xC_0000, 0x10_0000);
    MeetsIsShared(f, 0, 0x1000);
    MeetsIsShared(f, 0x9_FC00, 0x10_0000);
    MeetsIsShared(f, img.physStart, img.physEnd);
  }

  lemma OneRange(f: nat, lo: nat, hi: nat)
    ensures MeetsAny(f, [Range(lo, hi)]) <==> !Apart4k(f, lo, hi)
    ensures !MeetsAny(f, [])
  {
    hide Meets, Apart4k;
    MeetsIsShared(f, lo, hi);
    assert Range(lo, hi) in [Range(lo, hi)];
  }

  lemma InfoClaims(info: BootInfo, f: nat)
    ensures MeetsAny(f, InfoRanges(info)) <==> info.physAddr != 0 && !Apart4k(f, info.physAddr, info.physAddr + info.totalSize)
  {
    hide MeetsAny, Apart4k;
    OneRange(f, info.physAddr, info.physAddr + info.totalSize);
  }

  lemma FramebufferClaims(info: BootInfo, f: nat)
    ensures MeetsAny(f, FramebufferRanges(info)) <==>
              && info.framebuffer.Some? && info.framebuffer.value.fbType != 2
              && var fb := info.framebuffer.value; !Apart4k(f, fb.address, fb.address + fb.size)
  {
    hide MeetsAny;
    if info.framebuffer.Some? {
      var fb := info.framebuffer.value;
      OneRange(f, fb.address, fb.address + fb.size);
    } else {
      OneRange(f, 0, 0);
    }
  }

  lemma AcpiClaims(info: BootInfo, f: nat)
    ensures MeetsAny(f, AcpiRanges(info)) <==>
              && info.acpiRsdp.Some?
              && var page := info.acpiRsdp.value - info.acpiRsdp.value % 4096; !Apart4k(f, page, page + 4096)
  {
    hide MeetsAny, Apart4k;
    if info.acpiRsdp.Some? {
      var rsdp := info.acpiRsdp.value;
      assert rsdp / FRAME_SIZE * FRAME_SIZE == rsdp - rsdp % 4096;
      OneRange(f, rsdp - rsdp % 4096, rsdp - rsdp % 4096 + 4096);
    } else {
      OneRange(f, 0, 0);
    }
  }

  lemma LimitClaims(limit: Option<nat>, f: nat)
    requires f < MAX_FRAMES
    ensures MeetsAny(f, LimitRanges(limit)) <==>
              limit.Some? && (f + 1) * 4096 > limit.value * 0x10_0000
  {
    hide MeetsAny;
    if limit.Some? {
      OneRange(f, limit.value * 0x10_0000, 0x8000_0000);
    } else {
      OneRange(f, 0, 0);
    }
  }

  /**
   End-to-end ownership: a frame handed out by any call of any run whose callers free only what they own lies
   wholly inside one available entry below 2 GiB, is claimed by nothing, and belongs to no one else.
   */
  lemma OwnedFrames(s: State, info: BootInfo, img: Image, limit: Option<nat>, run: seq<Event>, k: nat, f: nat)
    requires Booted(s, info, img, limit) && IsRun(s, run) && OwnerOnly(s, run) && k < |run|
    requires run[k].op.Allocate? && run[k].reply.Frames?
    requires f in Run(run[k].reply.start, run[k].op.count)
    ensures (f + 1) * 4096 <= 0x8000_0000
    ensures exists e :: e in info.mmap && e.memType == 1 && e.base <= f * 4096 && (f + 1) * 4096 <= e.base + e.length
    ensures Unclaimed(f, info, img, limit)
    ensures forall r | r in BootRanges(info, img, limit) :: !Meets(f, r.start, r.end)
    ensures f !in Before(s, run, k).outstanding && f in run[k].post.outstanding
  {
    hide Step, Conserved, BootRanges, Interval, Meets, IsRun, OwnerOnly, Usable, Unclaimed;
    FreshFrames(s, run, k, f);
    assert f in FramesLeft(info, img, limit);
    UsableByNumbers(info.mmap, f);
    LeftIsUnclaimed(info, img, limit, f);
    assert !MeetsAny(f, BootRanges(info, img, limit));
  }

  /**
   The fields those reservations use, from the bytes at `phys`: the structure is as long as it declares, a framebuffer as
   long as its pitch times at least one line, and the RSDP is found in memory where the tag put it in the structure.
   */
  lemma ReadFields(phys: nat, ram: seq<byte>, info: BootInfo)
    requires ReadSpec(phys, ram) == Done(Multiboot.Parsed(info))
    ensures info.physAddr == phys && 0 < phys < 0x8000_0000
    ensures |ram| >= 4 && info.totalSize == Multiboot.LeVal(ram[0..4]) && 8 <= info.totalSize <= 65536 && info.totalSize <= |ram|
    ensures Multiboot.SizedFramebuffer(info)
    ensures info.acpiRsdp == (match Multiboot.ParseSpec(ram[..info.totalSize]).value.acpiRsdp
                              case None => None
                              case Some(offset) => Some(phys + offset))
  {
    hide Multiboot.ParseSpec, Multiboot.LeVal;
    var total := Multiboot.LeVal(ram[..4]);
    Multiboot.ParsedSized(ram[..total]);
    assert ram[..total][0..4] == ram[..4] == ram[0..4];
  }

  /** After boot, freeing frame 0, which was reserved and never handed out, is accepted and breaks the books. */
  lemma FreeingReserved(s: State, info: BootInfo, img: Image, limit: Option<nat>, r: Reply, s': State)
    requires Booted(s, info, img, limit) && Step(s, Op.Deallocate(0), r, s')
    ensures r.Ok? && !Conserved(s')
  {
    hide Usable;
    var ranges := BootRanges(info, img, limit);
    assert ranges[0] == Range(0, 0x1000) && ranges[0] in ranges && Meets(0, 0, 0x1000);
    assert MeetsAny(0, ranges);
    assert 0 !in s.free;
    DeallocateNeedsOwner(s, 0, r, s');
  }

  // Memory maps whose entries overlap.

  /** No whole frame of the available entry `a` below `MAX_PHYS` shares a byte with `b`. */
  predicate Apart(a: MmapEntry, b: MmapEntry) {
    var lo := (a.base + FRAME_SIZE - 1) / FRAME_SIZE * FRAME_SIZE;
    var hi := Min(a.base + a.length, MAX_PHYS) / FRAME_SIZE * FRAME_SIZE;
    hi <= lo || b.length == 0 || b.base + b.length <= lo || hi <= b.base
  }

  ghost predicate AvoidsUnavailable(mmap: seq<MmapEntry>) {
    forall i, b | i in Usable(mmap) && b in mmap && b.memType != AVAILABLE :: !Meets(i, b.base, b.base + b.length)
  }

  /**
   `init` does not take unavailable entries away from available ones that overlap them: the frames it frees avoid the
   unavailable entries exactly when every available entry is apart from every unavailable one.
   */
  lemma InitTrustsMap(mmap: seq<MmapEntry>)
    ensures AvoidsUnavailable(mmap) <==>
              forall a, b | a in mmap && b in mmap && a.memType == AVAILABLE && b.memType != AVAILABLE :: Apart(a, b)
  {
    hide Apart, Meets, Within;
    if AvoidsUnavailable(mmap) {
      forall a, b | a in mmap && b in mmap && a.memType == AVAILABLE && b.memType != AVAILABLE ensures Apart(a, b) {
        if !Apart(a, b) {
          OverlapFreed(mmap, a, b);
        }
      }
    }
    if forall a, b | a in mmap && b in mmap && a.memType == AVAILABLE && b.memType != AVAILABLE :: Apart(a, b) {
      forall i, b | i in Usable(mmap) && b in mmap && b.memType != AVAILABLE ensures !Meets(i, b.base, b.base + b.length) {
        assert SomeEntryHolds(mmap, i);
        var k: nat :| k < |mmap| && EntryHolds(mmap[k], i);
        assert mmap[k] in mmap;
        ApartFrames(mmap[k], b, i);
      }
    }
  }

  lemma OverlapFreed(mmap: seq<MmapEntry>, a: MmapEntry, b: MmapEntry)
    requires a in mmap && b in mmap && a.memType == AVAILABLE && b.memType != AVAILABLE && !Apart(a, b)
    ensures !AvoidsUnavailable(mmap)
  {
    hide Apart, Meets, Within;
    var i := SharedFrame(a, b);
    var k: nat :| k < |mmap| && mmap[k] == a;
    assert EntryHolds(mmap[k], i);
    assert SomeEntryHolds(mmap, i);
    assert i in Usable(mmap);
  }

  lemma SharedFrame(a: MmapEntry, b: MmapEntry) returns (i: nat)
    requires !Apart(a, b)
    ensures i < MAX_FRAMES && Within(i, a.base, a.base + a.length) && Meets(i, b.base, b.base + b.length)
  {
    var lo := (a.base + FRAME_SIZE - 1) / FRAME_SIZE * FRAME_SIZE;
    i := if lo <= b.base then b.base / FRAME_SIZE else lo / FRAME_SIZE;
  }

  lemma ApartFrames(a: MmapEntry, b: MmapEntry, i: nat)
    requires Apart(a, b) && i < MAX_FRAMES && Within(i, a.base, a.base + a.length)
    ensures !Meets(i, b.base, b.base + b.length)
  {
  }

  /** A reserved page in the middle of available memory is handed out like any other. */
  lemma OverlapHandedOut()
    ensures var mmap := [MmapEntry(0, 0x10000, AVAILABLE), MmapEntry(0x1000, 0x1000, 2)];
            1 in Usable(mmap) && !AvoidsUnavailable(mmap)
  {
    var mmap := [MmapEntry(0, 0x10000, AVAILABLE), MmapEntry(0x1000, 0x1000, 2)];
    assert EntryHolds(mmap[0], 1);
    assert SomeEntryHolds(mmap, 1);
    assert mmap[1] in mmap && Meets(1, 0x1000, 0x2000);
  }
}
