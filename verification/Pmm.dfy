/**
 The physical frame allocator.

 `State` is what the allocator means: the set of free frames, the frames handed out and not yet returned,
 and the counters. `Step` says what one call does to it. The class `Pmm` keeps the word-packed bitmap, the
 counters and the roving cursor, and each of its methods is proved to take one `Step`.
 */
module Pmm {
  import opened Bits
  import opened Wrappers
  import opened Bitmap
  import opened BootData

  const FRAME_SIZE: nat := 4096
  const MAX_PHYS: nat := 0x8000_0000
  const MAX_FRAMES: nat := 524288
  const BITMAP_WORDS: nat := 8192

  datatype State = State(
    free: set<nat>,
    outstanding: set<nat>,  // handed out by Allocate and not returned since
    reserved: nat,
    total: nat,
    cursor: nat,
    initialised: bool)

  datatype Op = Reserve(start: nat, end: nat) | Allocate(count: nat, align: nat) | Deallocate(phys: nat)

  datatype Reply = Ok | Frames(start: nat) | NoMemory | Stopped

  /** Frame `i` shares a byte with the range. */
  predicate Meets(i: nat, start: nat, end: nat) {
    start < end && i * FRAME_SIZE < end && start < (i + 1) * FRAME_SIZE
  }

  /** Frame `i` lies wholly inside the range. */
  predicate Within(i: nat, start: nat, end: nat) {
    start <= i * FRAME_SIZE && (i + 1) * FRAME_SIZE <= end
  }

  predicate Between(i: nat, lo: nat, hi: nat) {
    lo <= i < hi
  }

  function Interval(lo: nat, hi: nat): set<nat> {
    set i: nat | i < hi && Between(i, lo, hi)
  }

  /** The managed frames that a byte range touches, even in part. */
  ghost function Touched(start: nat, end: nat): set<nat> {
    set i: nat | i < MAX_FRAMES && Meets(i, start, end)
  }

  /** The managed frames that lie wholly inside a byte range. */
  ghost function Contained(start: nat, end: nat): set<nat> {
    set i: nat | i < MAX_FRAMES && Within(i, start, end)
  }

  function Run(start: nat, count: nat): set<nat> {
    Interval(start, start + count)
  }

  function Min(a: nat, b: nat): nat {
    if a <= b then a else b
  }

  /**
   The answer to a request for `count` frames: the first fit at or after the cursor,
   and only when there is none the first fit wholly below the cursor.
   */
  ghost predicate Answer(s: State, count: nat, align: nat, r: Option<nat>) {
    var from := Min(s.cursor, MAX_FRAMES);
    var a := if align == 0 then 1 else align;
    if count == 0 then r == Some(from)
    else if count == 1 then
      || (r.Some? && IsFirst(s.free, from, MAX_FRAMES, r))
      || (IsFirst(s.free, from, MAX_FRAMES, None) && IsFirst(s.free, 0, from, r))
    else
      || (r.Some? && IsFirstRun(s.free, from, MAX_FRAMES, count, a, r))
      || (IsFirstRun(s.free, from, MAX_FRAMES, count, a, None) && IsFirstRun(s.free, 0, from, count, a, r))
  }

  /** A run search for the request overflows: the one from the cursor, or the one below it when that finds nothing. */
  ghost predicate SearchOverflows(s: State, count: nat, align: nat) {
    var from := Min(s.cursor, MAX_FRAMES);
    var a := if align == 0 then 1 else align;
    count > 1 &&
    (|| RunOverflows(s.free, from, MAX_FRAMES, count, a)
     || (from > 0 && IsFirstRun(s.free, from, MAX_FRAMES, count, a, None) && RunOverflows(s.free, 0, from, count, a)))
  }

  ghost predicate Step(s: State, op: Op, r: Reply, s': State) {
    match op
    case Reserve(start, end) =>
      if start < end && end + FRAME_SIZE >= U64_SIZE then r.Stopped? && s' == s
      else
        && r.Ok?
        && s' == s.(free := s.free - Touched(start, end),
                    reserved := s.reserved + |s.free * Touched(start, end)|)
    case Allocate(count, align) =>
      (match r
       case Ok => false
       case Stopped => s' == s && (s.initialised ==> SearchOverflows(s, count, align))
       case NoMemory => s' == s && s.initialised && !SearchOverflows(s, count, align) && Answer(s, count, align, None)
       case Frames(start) =>
         && s.initialised && !SearchOverflows(s, count, align)
         && Answer(s, count, align, Some(start))
         && s' == s.(free := s.free - Run(start, count),
                     outstanding := s.outstanding + Run(start, count),
                     cursor := start + count))
    case Deallocate(phys) =>
      var idx := phys / FRAME_SIZE;
      if idx >= MAX_FRAMES || idx in s.free then r.Stopped? && s' == s
      else r.Ok? && s' == s.(free := s.free + {idx}, outstanding := s.outstanding - {idx})
  }

  /** The frames a memory map makes available: those wholly inside one available entry below `MAX_PHYS`. */
  ghost function Usable(mmap: seq<MmapEntry>): set<nat> {
    set i: nat | i < MAX_FRAMES && SomeEntryHolds(mmap, i)
  }

  ghost predicate SomeEntryHolds(mmap: seq<MmapEntry>, i: nat) {
    exists k: nat :: k < |mmap| && EntryHolds(mmap[k], i)
  }

  ghost predicate EntryHolds(e: MmapEntry, i: nat) {
    e.memType == AVAILABLE && Within(i, e.base, e.base + e.length)
  }

  /** `u64::saturating_add`. */
  function SaturatingAdd(a: nat, b: nat): nat {
    Min(a + b, U64_SIZE - 1)
  }

  lemma AnswerIsFree(s: State, count: nat, align: nat, start: nat)
    requires Answer(s, count, align, Some(start))
    ensures RunAt(s.free, start, count)
    ensures start + count <= MAX_FRAMES
    ensures Run(start, count) <= s.free
  {
  }

  lemma {:induction false} IntervalSize(lo: nat, hi: nat)
    requires lo <= hi
    ensures |Interval(lo, hi)| == hi - lo
    decreases hi
  {
    if lo < hi {
      IntervalSize(lo, hi - 1);
      IntervalGrows(lo, hi - 1);
    } else {
      assert Interval(lo, hi) == {};
    }
  }

  lemma EmptyIntervals(lo: nat, hi: nat)
    ensures Interval(lo, lo) == {} && (hi <= lo ==> Interval(lo, hi) == {})
  {
    assert forall i: nat :: !Between(i, lo, lo) && (hi <= lo ==> !Between(i, lo, hi));
  }

  lemma IntervalGrows(lo: nat, hi: nat)
    requires lo <= hi
    ensures Interval(lo, hi + 1) == Interval(lo, hi) + {hi} && hi !in Interval(lo, hi)
  {
    assert Between(hi, lo, hi + 1);
    forall i: nat ensures i in Interval(lo, hi + 1) <==> i in Interval(lo, hi) || i == hi {
      assert Between(i, lo, hi + 1) <==> Between(i, lo, hi) || i == hi;
    }
  }

  /** Frame numbers computed by rounding outward are the frames the range touches. */
  lemma OutwardRounding(start: nat, end: nat)
    requires start < end
    ensures Interval(start / FRAME_SIZE, Min((end + FRAME_SIZE - 1) / FRAME_SIZE, MAX_FRAMES)) == Touched(start, end)
  {
    var lo, hi := start / FRAME_SIZE, Min((end + FRAME_SIZE - 1) / FRAME_SIZE, MAX_FRAMES);
    forall i: nat ensures i in Interval(lo, hi) <==> i in Touched(start, end) {
      assert Between(i, lo, hi) <==> i < MAX_FRAMES && Meets(i, start, end);
    }
  }

  /** Frame numbers computed by rounding inward are the frames the range contains. */
  lemma InwardRounding(start: nat, end: nat)
    ensures Interval((start + FRAME_SIZE - 1) / FRAME_SIZE, Min(end / FRAME_SIZE, MAX_FRAMES)) == Contained(start, end)
  {
    var lo, hi := (start + FRAME_SIZE - 1) / FRAME_SIZE, Min(end / FRAME_SIZE, MAX_FRAMES);
    forall i: nat ensures i in Interval(lo, hi) <==> i in Contained(start, end) {
      assert Between(i, lo, hi) <==> i < MAX_FRAMES && Within(i, start, end);
    }
  }

  lemma EmptyBitmap(words: seq<u64>)
    requires forall k: nat | k < |words| :: words[k] == 0
    ensures FreeSet(words) == {}
  {
    forall i: nat | i < 64 * |words| ensures !FrameBit(words, i) {
      BitOfZero(i % 64);
    }
  }

  lemma NothingWithin(start: nat, end: nat)
    requires end <= start
    ensures Contained(start, end) == {}
  {
    assert forall i: nat :: !Within(i, start, end);
  }

  lemma NothingTouched(start: nat, end: nat)
    requires end <= start
    ensures Touched(start, end) == {}
  {
    assert forall i: nat :: !Meets(i, start, end);
  }

  lemma PlusGrows(a: set<nat>, b: set<nat>, x: nat)
    ensures a + (b + {x}) == a + b + {x}
    ensures x in a + b ==> a + (b + {x}) == a + b
  {
  }

  lemma MinusGrows(a: set<nat>, b: set<nat>, x: nat)
    ensures a - (b + {x}) == a - b - {x}
    ensures x !in a - b ==> a - (b + {x}) == a - b
  {
  }

  lemma MeetGrows(a: set<nat>, b: set<nat>, x: nat)
    requires x !in b
    ensures |a * (b + {x})| == |a * b| + if x in a then 1 else 0
  {
    assert a * (b + {x}) == if x in a then a * b + {x} else a * b;
  }

  class Pmm {
    const bitmap: array<u64>
    var totalFrames: nat
    var freeFrames: nat
    var reservedFrames: nat
    var badFrames: nat
    var unmappedBytes: nat
    var initialised: bool
    var cursor: nat
    ghost var free: set<nat>
    ghost var outstanding: set<nat>

    ghost predicate Valid()
      reads this, bitmap
    {
      && bitmap.Length == BITMAP_WORDS
      && free == FreeSet(bitmap[..])
      && freeFrames == |free|
    }

    ghost function View(): State
      reads this
    {
      State(free, outstanding, reservedFrames, totalFrames, cursor, initialised)
    }

    constructor ()
      ensures Valid() && fresh(bitmap)
      ensures View() == State({}, {}, 0, 0, 0, false) && unmappedBytes == 0 && badFrames == 0
    {
      bitmap := new u64[BITMAP_WORDS](_ => 0);
      totalFrames, freeFrames, reservedFrames, badFrames, unmappedBytes := 0, 0, 0, 0, 0;
      initialised, cursor, free, outstanding := false, 0, {}, {};
      new;
      EmptyBitmap(bitmap[..]);
    }

    /** Mark the frames `[first, last)` free. */
    method FreeFramesIn(first: nat, last: nat)
      requires Valid() && last <= MAX_FRAMES
      modifies this`freeFrames, this`free, bitmap
      ensures Valid()
      ensures free == old(free) + Interval(first, last)
    {
      hide FreeSet, Interval;
      EmptyIntervals(first, last);
      var idx := first;
      while idx < last
        invariant first <= idx && (idx <= last || idx == first)
        invariant Valid()
        invariant free == old(free) + Interval(first, idx)
      {
        IntervalGrows(first, idx);
        PlusGrows(old(free), Interval(first, idx), idx);
        var already := BitTest(bitmap, idx);
        if !already {
          BitSet(bitmap, idx);
          freeFrames, free := freeFrames + 1, free + {idx};
        }
        idx := idx + 1;
      }
    }

    method FreeRange(start: nat, end: nat)
      requires Valid()
      modifies this`freeFrames, this`free, bitmap
      ensures Valid()
      ensures free == old(free) + Contained(start, Min(end, MAX_PHYS))
    {
      InwardRounding(start, Min(end, MAX_PHYS));
      if end <= start {
        NothingWithin(start, Min(end, MAX_PHYS));
        return;
      }
      var end' := Min(end, MAX_PHYS);
      var first := (start + FRAME_SIZE - 1) / FRAME_SIZE;
      var last := end' / FRAME_SIZE;
      FreeFramesIn(first, Min(last, MAX_FRAMES));
    }

    /** Clear the frames `[first, last)` and count those that were free as reserved. */
    method ReserveFramesIn(first: nat, last: nat)
      requires Valid() && last <= MAX_FRAMES
      modifies this`freeFrames, this`reservedFrames, this`free, bitmap
      ensures Valid()
      ensures free == old(free) - Interval(first, last)
      ensures reservedFrames == old(reservedFrames) + |old(free) * Interval(first, last)|
    {
      hide FreeSet, Interval;
      EmptyIntervals(first, last);
      var idx := first;
      while idx < last
        invariant first <= idx && (idx <= last || idx == first)
        invariant Valid()
        invariant free == old(free) - Interval(first, idx)
        invariant reservedFrames == old(reservedFrames) + |old(free) * Interval(first, idx)|
      {
        IntervalGrows(first, idx);
        MinusGrows(old(free), Interval(first, idx), idx);
        MeetGrows(old(free), Interval(first, idx), idx);
        var taken := BitTest(bitmap, idx);
        if taken {
          BitClear(bitmap, idx);
          freeFrames, free := freeFrames - 1, free - {idx};
          reservedFrames := reservedFrames + 1;
        }
        idx := idx + 1;
      }
    }

    method ReserveRange(start: nat, end: nat) returns (r: Reply)
      requires Valid()
      modifies this`freeFrames, this`reservedFrames, this`free, bitmap
      ensures Valid()
      ensures Step(old(View()), Reserve(start, end), r, View())
    {
      hide FreeSet, Touched, Interval;
      if end <= start {
        NothingTouched(start, end);
        assert free - {} == free && free * {} == {};
        return Ok;
      }
      if end + FRAME_SIZE >= U64_SIZE {
        return Stopped;
      }
      OutwardRounding(start, end);
      var first := start / FRAME_SIZE;
      var last := (end + FRAME_SIZE - 1) / FRAME_SIZE;
      ReserveFramesIn(first, Min(last, MAX_FRAMES));
      return Ok;
    }

    /** The search half of `allocate`: from the cursor, then once more from the beginning. */
    method Find(count: nat, align: nat) returns (r: Outcome<Option<nat>>)
      requires Valid()
      ensures r.Panic? <==> SearchOverflows(View(), count, align)
      ensures r.Done? ==> Answer(View(), count, align, r.value)
    {
      hide FreeSet, FirstPast;
      var from := Min(cursor, MAX_FRAMES);
      if count == 1 {
        var x := NextFree(bitmap, from, MAX_FRAMES);
        if x.Some? || from == 0 {
          return Done(x);
        }
        x := NextFree(bitmap, 0, from);
        return Done(x);
      }
      var x := NextFreeRun(bitmap, from, MAX_FRAMES, count, align);
      if x.Panic? || x.value.Some? || from == 0 {
        return x;
      }
      x := NextFreeRun(bitmap, 0, from, count, align);
      return x;
    }

    /** The bit-clearing loop of `allocate`. */
    method ClearRun(start: nat, count: nat)
      requires bitmap.Length == BITMAP_WORDS && start + count <= MAX_FRAMES
      modifies bitmap
      ensures FreeSet(bitmap[..]) == old(FreeSet(bitmap[..])) - Run(start, count)
    {
      hide FreeSet, Interval;
      ghost var free0 := FreeSet(bitmap[..]);
      EmptyIntervals(start, start);
      for i := 0 to count
        invariant FreeSet(bitmap[..]) == free0 - Run(start, i)
      {
        IntervalGrows(start, start + i);
        MinusGrows(free0, Run(start, i), start + i);
        BitClear(bitmap, start + i);
      }
    }

    /** Hand out `count` free frames from `start`. */
    method Take(start: nat, count: nat)
      requires Valid() && start + count <= MAX_FRAMES && Run(start, count) <= free
      modifies this`freeFrames, this`free, this`cursor, this`outstanding, bitmap
      ensures Valid()
      ensures free == old(free) - Run(start, count) && outstanding == old(outstanding) + Run(start, count)
      ensures cursor == start + count
    {
      hide FreeSet, Interval;
      RunRemoved(free, start, count);
      ClearRun(start, count);
      freeFrames, free := freeFrames - count, free - Run(start, count);
      cursor := start + count;
      outstanding := outstanding + Run(start, count);
    }

    method Allocate(count: nat, align: nat) returns (r: Reply)
      requires Valid()
      modifies this`freeFrames, this`free, this`cursor, this`outstanding, bitmap
      ensures Valid()
      ensures Step(old(View()), Op.Allocate(count, align), r, View())
    {
      hide FreeSet, Interval, Answer, RunAt, SearchOverflows;
      if !initialised {
        return Stopped;
      }
      var found := Find(count, align);
      if found.Panic? {
        return Stopped;
      }
      if found.value.None? {
        return NoMemory;
      }
      var start := found.value.value;
      AnswerIsFree(View(), count, align, start);
      Take(start, count);
      return Frames(start);
    }

    /** The release build: the debug canary is not part of this model. */
    method Deallocate(phys: nat) returns (r: Reply)
      requires Valid()
      modifies this`freeFrames, this`free, this`outstanding, bitmap
      ensures Valid()
      ensures Step(old(View()), Op.Deallocate(phys), r, View())
    {
      var idx := phys / FRAME_SIZE;
      if idx >= MAX_FRAMES {
        return Stopped;
      }
      var already := BitTest(bitmap, idx);
      if already {
        return Stopped;
      }
      BitSet(bitmap, idx);
      freeFrames, free := freeFrames + 1, free + {idx};
      outstanding := outstanding - {idx};
      return Ok;
    }

    /** One entry of the memory map: only available RAM below `MAX_PHYS` becomes free. */
    method FreeEntry(e: MmapEntry)
      requires Valid()
      modifies this`freeFrames, this`free, bitmap
      ensures Valid()
      ensures free == old(free) + EntryFrames(e)
    {
      hide FreeSet, Contained;
      if e.memType == AVAILABLE {
        var hi := SaturatingAdd(e.base, e.length);
        if e.base < MAX_PHYS {
          FreeRange(e.base, Min(hi, MAX_PHYS));
        }
      }
    }

    /** The statistics kept for one entry; `false` when a sum overflows. */
    method CountEntry(e: MmapEntry) returns (ok: bool)
      modifies this`unmappedBytes, this`badFrames
      ensures unmappedBytes == old(unmappedBytes) + UnmappedOf(e) && badFrames == old(badFrames) + BadOf(e)
      ensures ok <==> unmappedBytes < U64_SIZE && badFrames < U64_SIZE
      ensures badFrames == old(badFrames) + if e.memType == 4 then e.length / 4096 else 0
      ensures e.memType != 1 ==> unmappedBytes == old(unmappedBytes)
    {
      if e.memType == AVAILABLE {
        var hi := SaturatingAdd(e.base, e.length);
        if e.base >= MAX_PHYS {
          unmappedBytes := unmappedBytes + e.length;
        } else if hi > MAX_PHYS {
          unmappedBytes := unmappedBytes + (hi - MAX_PHYS);
        }
      } else if e.memType == BAD_RAM {
        badFrames := badFrames + e.length / FRAME_SIZE;
      }
      ok := unmappedBytes < U64_SIZE && badFrames < U64_SIZE;
    }

    /** Build the allocator from the firmware memory map. */
    method Init(mmap: seq<MmapEntry>) returns (r: Reply)
      requires Valid()
      requires !initialised ==> View() == State({}, {}, 0, 0, 0, false) && unmappedBytes == 0 && badFrames == 0
      modifies this, bitmap
      ensures Valid()
      ensures r.Ok? <==> !old(initialised) && Countable(mmap)
      ensures r.Ok? ==>
                && View() == State(Usable(mmap), {}, 0, |Usable(mmap)|, 0, true)
                && unmappedBytes == UnmappedIn(mmap) && badFrames == FramesOfType(mmap, 4)
      ensures !r.Ok? ==> r.Stopped? && initialised == old(initialised) && (initialised ==> View() == old(View()))
    {
      hide FreeSet, EntryFrames, Usable, UnmappedOf, BadOf;
      if initialised {
        return Stopped;
      }
      NothingUsable();
      var k := 0;
      assert mmap[..0] == [];
      while k < |mmap|
        invariant 0 <= k <= |mmap|
        invariant Valid()
        invariant free == Usable(mmap[..k])
        invariant View() == old(View()).(free := free)
        invariant unmappedBytes == UnmappedIn(mmap[..k]) < U64_SIZE && badFrames == BadIn(mmap[..k]) < U64_SIZE
      {
        UsableGrows(mmap, k);
        CountsGrow(mmap, k);
        var ok := CountEntry(mmap[k]);
        if !ok {
          return Stopped;
        }
        FreeEntry(mmap[k]);
        k := k + 1;
      }
      assert mmap[..k] == mmap;
      BadByType(mmap);
      totalFrames := freeFrames;
      initialised := true;
      return Ok;
    }
  }

  /** Bytes of an available entry that lie above `MAX_PHYS`. */
  function UnmappedOf(e: MmapEntry): nat {
    if e.memType != AVAILABLE then 0
    else if e.base >= MAX_PHYS then e.length
    else if SaturatingAdd(e.base, e.length) > MAX_PHYS then SaturatingAdd(e.base, e.length) - MAX_PHYS
    else 0
  }

  function BadOf(e: MmapEntry): nat {
    if e.memType == BAD_RAM then e.length / FRAME_SIZE else 0
  }

  function UnmappedIn(mmap: seq<MmapEntry>): nat {
    if mmap == [] then 0 else UnmappedIn(mmap[..|mmap| - 1]) + UnmappedOf(mmap[|mmap| - 1])
  }

  function BadIn(mmap: seq<MmapEntry>): nat {
    if mmap == [] then 0 else BadIn(mmap[..|mmap| - 1]) + BadOf(mmap[|mmap| - 1])
  }

  /** Whole frames' worth of memory in the entries of one type. */
  function FramesOfType(mmap: seq<MmapEntry>, ty: nat): nat {
    if mmap == [] then 0 else (if mmap[0].memType == ty then mmap[0].length / 4096 else 0) + FramesOfType(mmap[1..], ty)
  }

  lemma {:induction false} BadByType(mmap: seq<MmapEntry>)
    ensures BadIn(mmap) == FramesOfType(mmap, 4)
    decreases |mmap|
  {
    if mmap != [] {
      var n := |mmap| - 1;
      BadByType(mmap[..n]);
      LastOfType(mmap, 4);
    }
  }

  lemma {:induction false} LastOfType(mmap: seq<MmapEntry>, ty: nat)
    requires mmap != []
    ensures var n := |mmap| - 1;
            FramesOfType(mmap, ty) == FramesOfType(mmap[..n], ty) + if mmap[n].memType == ty then mmap[n].length / 4096 else 0
    decreases |mmap|
  {
    var n := |mmap| - 1;
    if n > 0 {
      LastOfType(mmap[1..], ty);
      assert mmap[1..][..n - 1] == mmap[..n][1..];
    }
  }

  /** Entries of every type but available memory give no frame, and only those of type 4 are counted at all. */
  lemma OtherTypes(e: MmapEntry)
    requires e.memType != 1
    ensures EntryFrames(e) == {} && UnmappedOf(e) == 0 && (e.memType != 4 ==> BadOf(e) == 0)
  {
  }

  /** The usable frames in numbers: whole 4 KiB frames below 2 GiB inside one entry of type 1. */
  lemma UsableByNumbers(mmap: seq<MmapEntry>, i: nat)
    ensures i in Usable(mmap) <==>
              i < 524288 && exists e :: e in mmap && e.memType == 1 && e.base <= i * 4096 && (i + 1) * 4096 <= e.base + e.length
  {
    if exists e :: e in mmap && e.memType == 1 && e.base <= i * 4096 && (i + 1) * 4096 <= e.base + e.length {
      var e :| e in mmap && e.memType == 1 && e.base <= i * 4096 && (i + 1) * 4096 <= e.base + e.length;
      var k: nat :| k < |mmap| && mmap[k] == e;
      assert EntryHolds(mmap[k], i);
    }
    if SomeEntryHolds(mmap, i) {
      var k: nat :| k < |mmap| && EntryHolds(mmap[k], i);
      assert mmap[k] in mmap;
    }
  }

  /** The statistics of the map fit in 64 bits. */
  predicate Countable(mmap: seq<MmapEntry>) {
    UnmappedIn(mmap) < U64_SIZE && BadIn(mmap) < U64_SIZE
  }

  lemma CountsGrow(mmap: seq<MmapEntry>, k: nat)
    requires k < |mmap|
    ensures UnmappedIn(mmap[..k + 1]) == UnmappedIn(mmap[..k]) + UnmappedOf(mmap[k]) <= UnmappedIn(mmap)
    ensures BadIn(mmap[..k + 1]) == BadIn(mmap[..k]) + BadOf(mmap[k]) <= BadIn(mmap)
  {
    hide UnmappedOf, BadOf;
    assert mmap[..k + 1][..k] == mmap[..k];
    CountsPrefix(mmap, k + 1);
  }

  lemma {:induction false} CountsPrefix(mmap: seq<MmapEntry>, k: nat)
    requires k <= |mmap|
    ensures UnmappedIn(mmap[..k]) <= UnmappedIn(mmap) && BadIn(mmap[..k]) <= BadIn(mmap)
    decreases |mmap|
  {
    hide UnmappedOf, BadOf;
    if k < |mmap| {
      assert mmap[..|mmap| - 1][..k] == mmap[..k];
      CountsPrefix(mmap[..|mmap| - 1], k);
    } else {
      assert mmap[..k] == mmap;
    }
  }

  lemma RunRemoved(a: set<nat>, start: nat, count: nat)
    requires Run(start, count) <= a
    ensures count <= |a| && |a - Run(start, count)| == |a| - count
  {
    var b := Run(start, count);
    assert a == (a - b) + b;
    IntervalSize(start, start + count);
  }

  lemma NothingUsable()
    ensures Usable([]) == {}
  {
    assert forall i: nat :: !SomeEntryHolds([], i);
  }

  lemma UsableGrows(mmap: seq<MmapEntry>, k: nat)
    requires k < |mmap|
    ensures Usable(mmap[..k + 1]) == Usable(mmap[..k]) + EntryFrames(mmap[k])
  {
    forall i: nat | i < MAX_FRAMES
      ensures i in Usable(mmap[..k + 1]) <==> i in Usable(mmap[..k]) || EntryHolds(mmap[k], i)
    {
      HoldsInLonger(mmap, k, i);
      assert i in Usable(mmap[..k + 1]) <==> SomeEntryHolds(mmap[..k + 1], i);
      assert i in Usable(mmap[..k]) <==> SomeEntryHolds(mmap[..k], i);
    }
    EntryFramesHeld(mmap[k]);
  }

  lemma HoldsInLonger(mmap: seq<MmapEntry>, k: nat, i: nat)
    requires k < |mmap|
    ensures SomeEntryHolds(mmap[..k + 1], i) <==> SomeEntryHolds(mmap[..k], i) || EntryHolds(mmap[k], i)
  {
    if EntryHolds(mmap[k], i) {
      assert EntryHolds(mmap[..k + 1][k], i);
    }
    if SomeEntryHolds(mmap[..k], i) {
      var j: nat :| j < k && EntryHolds(mmap[..k][j], i);
      assert EntryHolds(mmap[..k + 1][j], i);
    }
    if SomeEntryHolds(mmap[..k + 1], i) {
      var j: nat :| j < k + 1 && EntryHolds(mmap[..k + 1][j], i);
      assert j < k ==> EntryHolds(mmap[..k][j], i);
    }
  }

  /** What `init` frees for one entry. */
  ghost function EntryFrames(e: MmapEntry): set<nat> {
    if e.memType == AVAILABLE && e.base < MAX_PHYS
    then Contained(e.base, Min(SaturatingAdd(e.base, e.length), MAX_PHYS)) else {}
  }

  lemma EntryFramesHeld(e: MmapEntry)
    ensures forall i: nat :: i in EntryFrames(e) <==> i < MAX_FRAMES && EntryHolds(e, i)
  {
    var hi := Min(SaturatingAdd(e.base, e.length), MAX_PHYS);
    forall i: nat ensures i in EntryFrames(e) <==> i < MAX_FRAMES && EntryHolds(e, i) {
      assert i < MAX_FRAMES ==> (Within(i, e.base, hi) <==> Within(i, e.base, e.base + e.length));
    }
  }
}
