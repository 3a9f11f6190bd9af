/**
 The Multiboot2 information-structure parser: a walk over tagged records in an arbitrary byte string.

 `ParseSpec` says what the walk means; the methods `Parse` and `ParseMmap` are the loops, proved against it.
 */
module Multiboot {
  import opened Bits
  import opened Wrappers
  import opened BootData
  import opened Utf8

  const HEADER_LEN: nat := 8
  const MMAP_CAP: nat := 64
  const MMAP_ENTRY: nat := 24

  const TAG_END: nat := 0
  const TAG_CMDLINE: nat := 1
  const TAG_LOADER: nat := 2
  const TAG_MMAP: nat := 6
  const TAG_FRAMEBUFFER: nat := 8
  const TAG_ACPI_OLD: nat := 13
  const TAG_ACPI_NEW: nat := 14
  const TAG_LOAD_BASE: nat := 20

  datatype ParseError = TooShort | SizeMismatch | TagOverrun | TagUndersize | NoMemoryMap | BadMmapEntrySize

  datatype Result<+T> = Parsed(value: T) | Failed(error: ParseError)

  /** A little-endian number. */
  function LeVal(s: seq<byte>): nat {
    if s == [] then 0 else s[0] + 256 * LeVal(s[1..])
  }

  /** The field of `n` bytes at `off`, when the bytes are there. */
  function FieldAt(b: seq<byte>, off: nat, n: nat): Option<nat> {
    if off + n <= |b| then Some(LeVal(b[off..off + n])) else None
  }

  lemma {:induction false} LeBound(s: seq<byte>)
    ensures LeVal(s) < Pow2(8 * |s|)
  {
    if s != [] {
      LeBound(s[1..]);
      assert Pow2(8 * |s|) == 256 * Pow2(8 * |s| - 8) by { Pow2Adds(8, 8 * |s| - 8); }
    }
  }

  function U16At(b: seq<byte>, off: nat): Option<nat> { FieldAt(b, off, 2) }

  function U32At(b: seq<byte>, off: nat): (r: Option<u32>) {
    match FieldAt(b, off, 4)
    case None => None
    case Some(v) =>
      assert v < 0x1_0000_0000 by { LeBound(b[off..off + 4]); Pow2Adds(8, 8); Pow2Adds(16, 16); assert Pow2(8) == 256; }
      Some(v)
  }

  function U64At(b: seq<byte>, off: nat): (r: Option<u64>) {
    match FieldAt(b, off, 8)
    case None => None
    case Some(v) =>
      assert v < U64_SIZE by { LeBound(b[off..off + 8]); Pow2Values(); }
      Some(v)
  }

  /** Round up to the 8-byte alignment of tags. */
  function Align8(n: nat): nat {
    (n + 7) / 8 * 8
  }

  /** The rounding is to the least multiple of 8 that is not below. */
  lemma AlignIsLeast(n: nat)
    ensures Align8(n) % 8 == 0 && n <= Align8(n)
    ensures forall k: nat | k % 8 == 0 && n <= k :: Align8(n) <= k
  {
  }

  // The memory map tag.

  function EntryAt(body: seq<byte>, off: nat): MmapEntry
    requires off + MMAP_ENTRY <= |body|
  {
    MmapEntry(U64At(body, off).value, U64At(body, off + 8).value, U32At(body, off + 16).value)
  }

  /** All entries of a memory map body from `off` on, `stride` bytes apart. */
  function Entries(body: seq<byte>, off: nat, stride: nat): seq<MmapEntry>
    requires stride >= MMAP_ENTRY
    decreases |body| - off
  {
    if off + MMAP_ENTRY > |body| then []
    else [EntryAt(body, off)] + Entries(body, off + stride, stride)
  }

  /** The first `MMAP_CAP` entries. */
  function Capped(entries: seq<MmapEntry>): seq<MmapEntry> {
    if |entries| <= MMAP_CAP then entries else entries[..MMAP_CAP]
  }

  /** The declared entry size. */
  function Stride(body: seq<byte>): u32
    requires |body| >= 8
  {
    U32At(body, 0).value
  }

  function MmapSpec(body: seq<byte>, mmap: seq<MmapEntry>): Result<seq<MmapEntry>> {
    if |body| < 8 || Stride(body) < MMAP_ENTRY then Failed(BadMmapEntrySize)
    else Parsed(Capped(mmap + Entries(body, 8, Stride(body))))
  }

  method ParseMmap(body: seq<byte>, mmap: seq<MmapEntry>) returns (r: Result<seq<MmapEntry>>)
    requires |mmap| <= MMAP_CAP
    ensures r == MmapSpec(body, mmap)
  {
    hide LeVal, U64At;
    var entrySize := U32At(body, 0);
    var version := U32At(body, 4);
    if entrySize.None? || version.None? {
      return Failed(BadMmapEntrySize);
    }
    if entrySize.value < MMAP_ENTRY {
      return Failed(BadMmapEntrySize);
    }
    var stride := entrySize.value;
    var out := mmap;
    var off := 8;
    ghost var all := mmap + Entries(body, 8, stride);
    while off + MMAP_ENTRY <= |body|
      invariant |out| <= MMAP_CAP && out + Entries(body, off, stride) == all
      decreases |body| - off
    {
      if |out| >= MMAP_CAP {
        assert Capped(all) == out;
        return Parsed(out);
      }
      assert out + Entries(body, off, stride) == out + [EntryAt(body, off)] + Entries(body, off + stride, stride);
      out := out + [EntryAt(body, off)];
      off := off + stride;
    }
    assert all == out;
    return Parsed(out);
  }

  function FramebufferSpec(body: seq<byte>): FramebufferInfo
    requires |body| >= 24
  {
    var pitch, height := U32At(body, 8).value, U32At(body, 16).value;
    var lines := if height == 0 then 1 else height;
    FramebufferBytes(pitch, lines);
    FramebufferInfo(U64At(body, 0).value, pitch, U32At(body, 12).value, height, body[20], body[21], pitch * lines)
  }

  /** `pitch * height` of two 32-bit fields never saturates. */
  lemma FramebufferBytes(pitch: u32, lines: u32)
    ensures 0 <= pitch * lines < U64_SIZE
  {
    MulMonotonic(pitch, lines, 0xFFFF_FFFF);
  }

  lemma MulMonotonic(a: nat, x: nat, y: nat)
    requires x <= y
    ensures 0 <= a * x <= a * y
  {
  }

  // The tag walk.

  datatype Progress = Progress(info: BootInfo, sawMmap: bool)

  /** What one tag, found at `off`, contributes. */
  function ApplyTag(p: Progress, ty: nat, body: seq<byte>, off: nat): Result<Progress> {
    var info := p.info.(tagCount := p.info.tagCount + 1);
    if ty == TAG_CMDLINE then Parsed(p.(info := info.(cmdline := Some(Capture(body)))))
    else if ty == TAG_LOADER then Parsed(p.(info := info.(loaderName := Some(Capture(body)))))
    else if ty == TAG_MMAP then
      match MmapSpec(body, info.mmap)
      case Failed(e) => Failed(e)
      case Parsed(m) => Parsed(Progress(info.(mmap := m), true))
    else if ty == TAG_FRAMEBUFFER && |body| >= 24 && info.framebuffer.None? then
      Parsed(p.(info := info.(framebuffer := Some(FramebufferSpec(body)))))
    else if ty == TAG_ACPI_OLD && |body| >= 20 && info.acpiRsdp.None? then
      Parsed(p.(info := info.(acpiRsdp := Some(off + HEADER_LEN), acpiVersion := 1)))
    else if ty == TAG_ACPI_NEW && |body| >= 36 && info.acpiRsdp.None? then
      Parsed(p.(info := info.(acpiRsdp := Some(off + HEADER_LEN), acpiVersion := 2)))
    else if ty == TAG_LOAD_BASE then Parsed(p.(info := info.(loadBaseAddr := U32At(body, 0))))
    else Parsed(p.(info := info))
  }

  /** The walk from `off`, over the first `total` bytes. */
  function WalkTags(b: seq<byte>, total: nat, off: nat, p: Progress): Result<Progress>
    requires total <= |b|
    decreases total - off
  {
    if off + HEADER_LEN > total then Parsed(p)
    else
      var ty, size := U16At(b, off).value, U32At(b, off + 4).value;
      if ty == TAG_END then Parsed(p)
      else if size < HEADER_LEN then Failed(TagUndersize)
      else if off + size > total then Failed(TagOverrun)
      else
        match ApplyTag(p, ty, b[off + HEADER_LEN..off + size], off)
        case Failed(e) => Failed(e)
        case Parsed(q) => WalkTags(b, total, Align8(off + size), q)
  }

  function EmptyInfo(total: nat): BootInfo {
    BootInfo(total, None, None, [], None, None, 0, None, 0, 0)
  }

  function Finish(r: Result<Progress>): Result<BootInfo> {
    match r
    case Failed(e) => Failed(e)
    case Parsed(p) => if !p.sawMmap || p.info.mmap == [] then Failed(NoMemoryMap) else Parsed(p.info)
  }

  function ParseSpec(b: seq<byte>): Result<BootInfo> {
    if U32At(b, 0).None? then Failed(TooShort)
    else
      var total := U32At(b, 0).value;
      if total < HEADER_LEN then Failed(TooShort)
      else if total > |b| then Failed(SizeMismatch)
      else Finish(WalkTags(b, total, HEADER_LEN, Progress(EmptyInfo(total), false)))
  }

  /** The parser's loop. Every read is in range, on every byte string. */
  method Parse(b: seq<byte>) returns (r: Result<BootInfo>)
    ensures r == ParseSpec(b)
  {
    hide LeVal, MmapSpec, Capture, FramebufferSpec;
    var head := U32At(b, 0);
    if head.None? {
      return Failed(TooShort);
    }
    var total := head.value;
    if total < HEADER_LEN {
      return Failed(TooShort);
    }
    if total > |b| {
      return Failed(SizeMismatch);
    }
    var info := EmptyInfo(total);
    var sawMmap := false;
    var off := HEADER_LEN;
    ghost var end := WalkTags(b, total, HEADER_LEN, Progress(info, false));
    while off + HEADER_LEN <= total
      invariant |info.mmap| <= MMAP_CAP
      invariant WalkTags(b, total, off, Progress(info, sawMmap)) == end
      decreases total - off
    {
      var ty := U16At(b, off).value;
      var size := U32At(b, off + 4).value;
      if ty == TAG_END {
        break;
      }
      if size < HEADER_LEN {
        return Failed(TagUndersize);
      }
      if off + size > total {
        return Failed(TagOverrun);
      }
      var body := b[off + HEADER_LEN..off + size];
      info := info.(tagCount := info.tagCount + 1);
      if ty == TAG_CMDLINE {
        info := info.(cmdline := Some(Capture(body)));
      } else if ty == TAG_LOADER {
        info := info.(loaderName := Some(Capture(body)));
      } else if ty == TAG_MMAP {
        sawMmap := true;
        CappedSize(body, info.mmap);
        var m := ParseMmap(body, info.mmap);
        if m.Failed? {
          return Failed(m.error);
        }
        info := info.(mmap := m.value);
      } else if ty == TAG_FRAMEBUFFER && |body| >= 24 {
        if info.framebuffer.None? {
          info := info.(framebuffer := Some(FramebufferSpec(body)));
        }
      } else if ty == TAG_ACPI_OLD && |body| >= 20 {
        if info.acpiRsdp.None? {
          info := info.(acpiRsdp := Some(off + HEADER_LEN), acpiVersion := 1);
        }
      } else if ty == TAG_ACPI_NEW && |body| >= 36 {
        if info.acpiRsdp.None? {
          info := info.(acpiRsdp := Some(off + HEADER_LEN), acpiVersion := 2);
        }
      } else if ty == TAG_LOAD_BASE {
        info := info.(loadBaseAddr := U32At(body, 0));
      }
      off := Align8(off + size);
    }
    if !sawMmap || info.mmap == [] {
      return Failed(NoMemoryMap);
    }
    return Parsed(info);
  }

  lemma CappedSize(body: seq<byte>, mmap: seq<MmapEntry>)
    ensures MmapSpec(body, mmap).Parsed? ==> |MmapSpec(body, mmap).value| <= MMAP_CAP
  {
    hide Entries;
  }

  // The result depends only on the first `total_size` bytes.

  lemma FieldInPrefix(b: seq<byte>, b': seq<byte>, total: nat, off: nat, n: nat)
    requires total <= |b| && total <= |b'| && b[..total] == b'[..total] && off + n <= total
    ensures FieldAt(b, off, n) == FieldAt(b', off, n)
  {
    assert b[off..off + n] == b[..total][off..off + n];
    assert b'[off..off + n] == b'[..total][off..off + n];
  }

  lemma {:induction false} WalkInPrefix(b: seq<byte>, b': seq<byte>, total: nat, off: nat, p: Progress)
    requires total <= |b| && total <= |b'| && b[..total] == b'[..total]
    ensures WalkTags(b, total, off, p) == WalkTags(b', total, off, p)
    decreases total - off
  {
    hide ApplyTag, LeVal, FieldAt;
    if off + HEADER_LEN <= total {
      FieldInPrefix(b, b', total, off, 2);
      FieldInPrefix(b, b', total, off + 4, 4);
      FieldThere(b, off);
      var ty, size := U16At(b, off).value, U32At(b, off + 4).value;
      if ty != TAG_END && HEADER_LEN <= size && off + size <= total {
        assert b[off + HEADER_LEN..off + size] == b[..total][off + HEADER_LEN..off + size];
        assert b'[off + HEADER_LEN..off + size] == b'[..total][off + HEADER_LEN..off + size];
        var r := ApplyTag(p, ty, b[off + HEADER_LEN..off + size], off);
        if r.Parsed? {
          WalkInPrefix(b, b', total, Align8(off + size), r.value);
        }
      }
    }
  }

  lemma FieldThere(b: seq<byte>, off: nat)
    requires off + HEADER_LEN <= |b|
    ensures U16At(b, off).Some? && U32At(b, off + 4).Some?
  {
  }

  /** Bytes past the declared size, and how many of them there are, do not matter. */
  lemma ParsePrefix(b: seq<byte>, b': seq<byte>)
    requires |b| >= 4 && |b'| >= 4 && b[..4] == b'[..4]
    requires LeVal(b[..4]) <= |b| && LeVal(b[..4]) <= |b'| && b[..LeVal(b[..4])] == b'[..LeVal(b[..4])]
    ensures ParseSpec(b) == ParseSpec(b')
  {
    hide WalkTags, LeVal;
    assert b[0..4] == b[..4] && b'[0..4] == b'[..4];
    var total := LeVal(b[..4]);
    WalkInPrefix(b, b', total, HEADER_LEN, Progress(EmptyInfo(total), false));
  }

  // Parsing a canonical encoding gives its tags back.

  /** A tag before encoding; `flags` is the half-word the parser skips. */
  datatype Tag = Tag(ty: nat, flags: nat, body: seq<byte>)

  function LeBytes(v: nat, k: nat): (s: seq<byte>)
    ensures |s| == k
    decreases k
  {
    if k == 0 then [] else [v % 256] + LeBytes(v / 256, k - 1)
  }

  lemma {:induction false} LeRoundTrip(v: nat, k: nat)
    requires v < Pow2(8 * k)
    ensures LeVal(LeBytes(v, k)) == v
    decreases k
  {
    if k > 0 {
      assert Pow2(8 * k) == 256 * Pow2(8 * (k - 1)) by { Pow2Adds(8, 8 * (k - 1)); }
      LeRoundTrip(v / 256, k - 1);
      assert LeBytes(v, k)[1..] == LeBytes(v / 256, k - 1);
    }
  }

  /** Zeros up to the next multiple of 8, as section 3.6.2 of the Multiboot2 Specification asks for. */
  function Pad(n: nat): (s: seq<byte>)
    ensures |s| < 8 && (n + |s|) % 8 == 0
  {
    seq((8 - n % 8) % 8, _ => 0)
  }

  /** Bytes from the start of a tag to the start of the next. */
  function Span(t: Tag): (n: nat)
    ensures HEADER_LEN + |t.body| <= n < HEADER_LEN + |t.body| + 8 && n % 8 == 0
  {
    HEADER_LEN + |t.body| + |Pad(HEADER_LEN + |t.body|)|
  }

  function TagHeader(t: Tag): (s: seq<byte>)
    ensures |s| == HEADER_LEN
  {
    LeBytes(t.ty, 2) + LeBytes(t.flags, 2) + LeBytes(HEADER_LEN + |t.body|, 4)
  }

  function EncodeTag(t: Tag): (s: seq<byte>)
    ensures |s| == Span(t)
  {
    TagHeader(t) + t.body + Pad(HEADER_LEN + |t.body|)
  }

  function EncodeTags(tags: seq<Tag>): seq<byte> {
    if tags == [] then [] else EncodeTag(tags[0]) + EncodeTags(tags[1..])
  }

  /** The fixed part: total size and a reserved word. */
  function EncodeHeader(total: nat): (s: seq<byte>)
    ensures |s| == HEADER_LEN
  {
    LeBytes(total, 4) + LeBytes(0, 4)
  }

  function EndTag(): (s: seq<byte>)
    ensures |s| == HEADER_LEN
  {
    TagHeader(Tag(TAG_END, 0, []))
  }

  function Encode(tags: seq<Tag>): seq<byte> {
    var tail := EncodeTags(tags) + EndTag();
    EncodeHeader(HEADER_LEN + |tail|) + tail
  }

  /** Tags with 16-bit types other than the end marker and 32-bit sizes. */
  ghost predicate Encodable(tags: seq<Tag>) {
    forall t | t in tags :: TAG_END < t.ty < 0x1_0000 && HEADER_LEN + |t.body| < 0x1_0000_0000
  }

  /** The tags applied in order, the first of them at `off`. */
  function ApplyAll(p: Progress, tags: seq<Tag>, off: nat): Result<Progress>
    decreases |tags|
  {
    if tags == [] then Parsed(p) else
    match ApplyTag(p, tags[0].ty, tags[0].body, off)
    case Failed(e) => Failed(e)
    case Parsed(q) => ApplyAll(q, tags[1..], off + Span(tags[0]))
  }

  lemma Pow2OfBytes()
    ensures Pow2(8 * 2) == 0x1_0000 && Pow2(8 * 4) == 0x1_0000_0000 && Pow2(8 * 8) == U64_SIZE
  {
    assert Pow2(8) == 256;
    Pow2Adds(8, 8);
    Pow2Adds(16, 16);
    Pow2Values();
  }

  /** Reading the header of a tag that stands at `off`. */
  lemma HeaderFields(b: seq<byte>, off: nat, t: Tag)
    requires off + HEADER_LEN <= |b| && b[off..off + HEADER_LEN] == TagHeader(t)
    requires t.ty < 0x1_0000 && HEADER_LEN + |t.body| < 0x1_0000_0000
    ensures U16At(b, off) == Some(t.ty) && U32At(b, off + 4) == Some(HEADER_LEN + |t.body|)
  {
    hide LeVal, LeBytes;
    var h := TagHeader(t);
    assert b[off..off + 2] == h[..2] == LeBytes(t.ty, 2);
    assert b[off + 4..off + 8] == h[4..] == LeBytes(HEADER_LEN + |t.body|, 4);
    Pow2OfBytes();
    LeRoundTrip(t.ty, 2);
    LeRoundTrip(HEADER_LEN + |t.body|, 4);
  }

  /** Walking an encoded tag list applies its tags in order and stops at the end marker. */
  lemma {:induction false} WalkEncoded(b: seq<byte>, off: nat, tags: seq<Tag>, p: Progress)
    requires Encodable(tags) && off % 8 == 0 && off <= |b|
    requires b[off..] == EncodeTags(tags) + EndTag()
    ensures WalkTags(b, |b|, off, p) == ApplyAll(p, tags, off)
    decreases |tags|
  {
    hide ApplyTag, LeVal, LeBytes, FieldAt, TagHeader, U16At, U32At, EncodeTag, Align8, Span;
    if tags == [] {
      assert b[off..off + HEADER_LEN] == b[off..][..HEADER_LEN] == EndTag();
      HeaderFields(b, off, Tag(TAG_END, 0, []));
    } else {
      var t := tags[0];
      EncodedTagAt(b, off, tags);
      assert t in tags;
      HeaderFields(b, off, t);
      var size := HEADER_LEN + |t.body|;
      NextTagAt(off, t);
      var r := ApplyTag(p, t.ty, t.body, off);
      if r.Parsed? {
        WalkEncoded(b, off + Span(t), tags[1..], r.value);
      }
    }
  }

  /** The parser's rounding leads from one encoded tag to the next. */
  lemma NextTagAt(off: nat, t: Tag)
    requires off % 8 == 0
    ensures Align8(off + (HEADER_LEN + |t.body|)) == off + Span(t) && (off + Span(t)) % 8 == 0
  {
  }

  lemma EncodedTagAt(b: seq<byte>, off: nat, tags: seq<Tag>)
    requires tags != [] && off <= |b| && b[off..] == EncodeTags(tags) + EndTag()
    ensures var t := tags[0]; var size := HEADER_LEN + |t.body|;
            && off + Span(t) <= |b|
            && b[off..off + HEADER_LEN] == TagHeader(t)
            && b[off + HEADER_LEN..off + size] == t.body
            && b[off + Span(t)..|b|] == EncodeTags(tags[1..]) + EndTag()
  {
    hide TagHeader, EndTag, Pad, EncodeTags, EncodeTag;
    var t := tags[0];
    var size := HEADER_LEN + |t.body|;
    var rest := EncodeTags(tags[1..]) + EndTag();
    FirstTagOf(tags);
    FourParts(TagHeader(t), t.body, Pad(size), rest);
    TailSlice(b, off, 0, HEADER_LEN);
    TailSlice(b, off, HEADER_LEN, size);
    TailSlice(b, off, Span(t), |b| - off);
  }

  lemma FirstTagOf(tags: seq<Tag>)
    requires tags != []
    ensures var t := tags[0];
            EncodeTags(tags) + EndTag() ==
              TagHeader(t) + t.body + Pad(HEADER_LEN + |t.body|) + (EncodeTags(tags[1..]) + EndTag())
  {
    hide TagHeader, EndTag, Pad;
  }

  lemma FourParts(h: seq<byte>, body: seq<byte>, pad: seq<byte>, rest: seq<byte>)
    ensures var s := h + body + pad + rest;
            && s[0..|h|] == h && s[|h|..|h| + |body|] == body && s[|h| + |body| + |pad|..|s|] == rest
  {
  }

  lemma TailSlice(b: seq<byte>, off: nat, i: nat, j: nat)
    requires off <= |b| && i <= j <= |b| - off
    ensures b[off..][i..j] == b[off + i..off + j]
  {
    var s := b[off..];
    var t, u := s[i..j], b[off + i..off + j];
    assert |t| == |u|;
    forall k: nat | k < |t| ensures t[k] == u[k] {
      assert t[k] == s[i + k] == b[off + (i + k)];
    }
  }

  /** Round trip: parsing the encoding of a tag list is applying its tags in order. */
  lemma ParseEncoded(tags: seq<Tag>)
    requires Encodable(tags) && |Encode(tags)| < 0x1_0000_0000
    ensures ParseSpec(Encode(tags)) ==
              Finish(ApplyAll(Progress(EmptyInfo(|Encode(tags)|), false), tags, HEADER_LEN))
  {
    hide LeVal, LeBytes, WalkTags, EncodeTags, EndTag, ApplyAll;
    var b := Encode(tags);
    Pow2OfBytes();
    LeRoundTrip(|b|, 4);
    assert b[0..4] == LeBytes(|b|, 4);
    assert b[HEADER_LEN..] == EncodeTags(tags) + EndTag();
    WalkEncoded(b, HEADER_LEN, tags, Progress(EmptyInfo(|b|), false));
  }

  // What a tag list means.

  /** The body of the last tag of a type. */
  function LastBody(tags: seq<Tag>, ty: nat): Option<seq<byte>>
    decreases |tags|
  {
    if tags == [] then None
    else if tags[|tags| - 1].ty == ty then Some(tags[|tags| - 1].body)
    else LastBody(tags[..|tags| - 1], ty)
  }

  /** The body of the first framebuffer tag that is long enough. */
  function FirstFramebuffer(tags: seq<Tag>): Option<seq<byte>>
    decreases |tags|
  {
    if tags == [] then None
    else if tags[0].ty == 8 && |tags[0].body| >= 24 then Some(tags[0].body)
    else FirstFramebuffer(tags[1..])
  }

  predicate GoodMmap(body: seq<byte>) {
    |body| >= 8 && Stride(body) >= MMAP_ENTRY
  }

  /** The entries of every memory map tag, in order. */
  function AllEntries(tags: seq<Tag>): seq<MmapEntry>
    decreases |tags|
  {
    if tags == [] then [] else TagEntries(tags[0]) + AllEntries(tags[1..])
  }

  function TagEntries(t: Tag): seq<MmapEntry> {
    if t.ty == 6 && GoodMmap(t.body) then Entries(t.body, 8, Stride(t.body)) else []
  }

  /** Applying a tag list fails exactly when one of its memory maps is malformed. */
  lemma {:induction false} ApplyAllFails(p: Progress, tags: seq<Tag>, off: nat)
    ensures ApplyAll(p, tags, off).Failed? <==> exists t :: t in tags && t.ty == TAG_MMAP && !GoodMmap(t.body)
    ensures ApplyAll(p, tags, off).Failed? ==> ApplyAll(p, tags, off).error == BadMmapEntrySize
    decreases |tags|
  {
    hide Capture, Entries, FramebufferSpec, U32At;
    if tags != [] {
      assert forall t :: t in tags <==> t == tags[0] || t in tags[1..];
      var r := ApplyTag(p, tags[0].ty, tags[0].body, off);
      if r.Parsed? {
        ApplyAllFails(r.value, tags[1..], off + Span(tags[0]));
      }
    }
  }

  /** The memory map is the first 64 entries over all tags, and the framebuffer is the first one given. */
  lemma {:induction false} ApplyAllMmap(p: Progress, tags: seq<Tag>, off: nat)
    requires ApplyAll(p, tags, off).Parsed? && p.info.mmap == Capped(p.info.mmap)
    ensures var q := ApplyAll(p, tags, off).value;
            && q.info.mmap == Capped(p.info.mmap + AllEntries(tags))
            && q.info.tagCount == p.info.tagCount + |tags|
            && q.info.totalSize == p.info.totalSize && q.info.physAddr == p.info.physAddr
            && q.sawMmap == (p.sawMmap || exists t :: t in tags && t.ty == TAG_MMAP)
            && q.info.framebuffer ==
                 if p.info.framebuffer.Some? then p.info.framebuffer
                 else match FirstFramebuffer(tags)
                      case None => None
                      case Some(body) => (FirstLong(tags); Some(FramebufferSpec(body)))
    decreases |tags|
  {
    hide ApplyTag, Entries, FramebufferSpec, Stride, GoodMmap, Capped;
    if tags == [] {
      assert p.info.mmap + [] == p.info.mmap;
    } else {
      var t := tags[0];
      var q := ApplyTag(p, t.ty, t.body, off).value;
      OneTag(p, t, off);
      CappedTwice(p.info.mmap, TagEntries(t), AllEntries(tags[1..]));
      ApplyAllMmap(q, tags[1..], off + Span(t));
      assert forall u :: u in tags <==> u == t || u in tags[1..];
    }
  }

  /** What one tag does to the memory map, the counters and the framebuffer. */
  lemma OneTag(p: Progress, t: Tag, off: nat)
    requires ApplyTag(p, t.ty, t.body, off).Parsed? && p.info.mmap == Capped(p.info.mmap)
    ensures var q := ApplyTag(p, t.ty, t.body, off).value;
            && q.info.mmap == Capped(p.info.mmap + TagEntries(t))
            && q.info.tagCount == p.info.tagCount + 1
            && q.info.totalSize == p.info.totalSize && q.info.physAddr == p.info.physAddr
            && q.sawMmap == (p.sawMmap || t.ty == TAG_MMAP)
            && q.info.framebuffer ==
                 if p.info.framebuffer.None? && t.ty == TAG_FRAMEBUFFER && |t.body| >= 24
                 then Some(FramebufferSpec(t.body)) else p.info.framebuffer
  {
    hide Capture, Entries, FramebufferSpec, Stride, U32At, Capped;
    assert p.info.mmap + [] == p.info.mmap;
  }

  lemma CappedTwice(a: seq<MmapEntry>, b: seq<MmapEntry>, c: seq<MmapEntry>)
    ensures Capped(Capped(a + b) + c) == Capped(a + (b + c)) && Capped(Capped(a + b)) == Capped(a + b)
  {
    assert a + (b + c) == (a + b) + c;
  }

  lemma {:induction false} FirstLong(tags: seq<Tag>)
    ensures FirstFramebuffer(tags).Some? ==> |FirstFramebuffer(tags).value| >= 24
    decreases |tags|
  {
    if tags != [] {
      FirstLong(tags[1..]);
    }
  }

  /** The command line and the loader name are those of the last tags that give them. */
  lemma {:induction false} ApplyAllNames(p: Progress, tags: seq<Tag>, off: nat)
    requires ApplyAll(p, tags, off).Parsed?
    ensures var q := ApplyAll(p, tags, off).value;
            && q.info.cmdline == (match LastBody(tags, TAG_CMDLINE) case None => p.info.cmdline case Some(s) => Some(Capture(s)))
            && q.info.loaderName == (match LastBody(tags, TAG_LOADER) case None => p.info.loaderName case Some(s) => Some(Capture(s)))
    decreases |tags|
  {
    hide Capture, MmapSpec, FramebufferSpec, U32At, LastBody;
    if tags == [] {
      LastOfNone();
    } else {
      var q := ApplyTag(p, tags[0].ty, tags[0].body, off).value;
      ApplyAllNames(q, tags[1..], off + Span(tags[0]));
      LastBodyFront(tags, TAG_CMDLINE);
      LastBodyFront(tags, TAG_LOADER);
    }
  }

  /** The first usable RSDP tag: the version it stands for and its body. */
  function FirstAcpi(tags: seq<Tag>): Option<(nat, seq<byte>)>
    decreases |tags|
  {
    if tags == [] then None
    else if tags[0].ty == 13 && |tags[0].body| >= 20 then Some((1, tags[0].body))
    else if tags[0].ty == 14 && |tags[0].body| >= 36 then Some((2, tags[0].body))
    else FirstAcpi(tags[1..])
  }

  /** Where its body stands when the first tag is at `off`. */
  function AcpiOffset(tags: seq<Tag>, off: nat): nat
    requires FirstAcpi(tags).Some?
    decreases |tags|
  {
    if (tags[0].ty == 13 && |tags[0].body| >= 20) || (tags[0].ty == 14 && |tags[0].body| >= 36) then off + 8
    else AcpiOffset(tags[1..], off + Span(tags[0]))
  }

  /** The RSDP is that of the first tag that holds one, and the load address that of the last tag that gives it. */
  lemma {:induction false} ApplyAllRest(p: Progress, tags: seq<Tag>, off: nat)
    requires ApplyAll(p, tags, off).Parsed?
    ensures var q := ApplyAll(p, tags, off).value;
            && (if p.info.acpiRsdp.Some? || FirstAcpi(tags).None?
                then q.info.acpiRsdp == p.info.acpiRsdp && q.info.acpiVersion == p.info.acpiVersion
                else q.info.acpiRsdp == Some(AcpiOffset(tags, off)) && q.info.acpiVersion == FirstAcpi(tags).value.0)
            && q.info.loadBaseAddr == (match LastBody(tags, 20) case None => p.info.loadBaseAddr case Some(s) => U32At(s, 0))
    decreases |tags|
  {
    hide Capture, MmapSpec, FramebufferSpec, U32At, LastBody;
    if tags == [] {
      LastOfNone();
    } else {
      var q := ApplyTag(p, tags[0].ty, tags[0].body, off).value;
      ApplyAllRest(q, tags[1..], off + Span(tags[0]));
      LastBodyFront(tags, 20);
    }
  }

  /** In the encoding, that offset is where the body of the RSDP tag is. */
  lemma {:induction false} AcpiAt(b: seq<byte>, off: nat, tags: seq<Tag>)
    requires off <= |b| && b[off..] == EncodeTags(tags) + EndTag() && FirstAcpi(tags).Some?
    ensures var o, body := AcpiOffset(tags, off), FirstAcpi(tags).value.1;
            o + |body| <= |b| && b[o..o + |body|] == body
    decreases |tags|
  {
    hide TagHeader, EndTag, EncodeTags, EncodeTag;
    EncodedTagAt(b, off, tags);
    var t := tags[0];
    if !((t.ty == 13 && |t.body| >= 20) || (t.ty == 14 && |t.body| >= 36)) {
      AcpiAt(b, off + Span(t), tags[1..]);
    }
  }

  lemma LastOfNone()
    ensures LastBody([], TAG_CMDLINE).None? && LastBody([], TAG_LOADER).None? && LastBody([], 20).None?
  {
  }

  lemma {:induction false} LastBodyFront(tags: seq<Tag>, ty: nat)
    requires tags != []
    ensures LastBody(tags, ty) ==
              if LastBody(tags[1..], ty).Some? then LastBody(tags[1..], ty)
              else if tags[0].ty == ty then Some(tags[0].body) else None
    decreases |tags|
  {
    var n := |tags| - 1;
    if n > 0 {
      LastBodyFront(tags[..n], ty);
      assert tags[..n][1..] == tags[1..][..n - 1];
    }
  }

  lemma {:induction false} EntriesNeedTag(tags: seq<Tag>)
    ensures AllEntries(tags) != [] ==> exists t :: t in tags && t.ty == TAG_MMAP
    decreases |tags|
  {
    hide Entries, GoodMmap, Stride;
    if AllEntries(tags) != [] {
      if TagEntries(tags[0]) != [] {
        assert tags[0] in tags;
      } else {
        EntriesNeedTag(tags[1..]);
        var t :| t in tags[1..] && t.ty == TAG_MMAP;
        assert t in tags;
      }
    }
  }

  /**
   What parsing the canonical encoding of any tag list returns, by the tag numbers of section 3.6 of the Multiboot2
   Specification: the last command line (1) and loader name (2), the first framebuffer (8), the first 64 memory map entries
   over all tags (6), the first RSDP (13, 14) by the place of its bytes, and the last load address (20); and exactly when
   it fails, and how.
   */
  lemma ParseReturns(tags: seq<Tag>)
    requires Encodable(tags) && |Encode(tags)| < 0x1_0000_0000
    ensures var b := Encode(tags);
            var r := ParseSpec(b);
            if exists t :: t in tags && t.ty == 6 && !(|t.body| >= 8 && LeVal(t.body[0..4]) >= 24) then r == Failed(BadMmapEntrySize)
            else if AllEntries(tags) == [] then r == Failed(NoMemoryMap)
            else
              && r.Parsed? && r.value.tagCount == |tags| && r.value.totalSize == |b|
              && r.value.mmap == (if |AllEntries(tags)| <= 64 then AllEntries(tags) else AllEntries(tags)[..64])
              && r.value.cmdline == (match LastBody(tags, 1) case None => None case Some(s) => Some(Capture(s)))
              && r.value.loaderName == (match LastBody(tags, 2) case None => None case Some(s) => Some(Capture(s)))
              && r.value.framebuffer ==
                   (match FirstFramebuffer(tags)
                    case None => None
                    case Some(body) => (FirstLong(tags); Some(FramebufferSpec(body))))
              && r.value.loadBaseAddr ==
                   (match LastBody(tags, 20) case None => None case Some(s) => if |s| < 4 then None else Some(LeVal(s[0..4])))
              && AcpiIs(r.value, b, FirstAcpi(tags))
  {
    hide ParseSpec, Encode, ApplyAll, Encodable, LastBody, FirstFramebuffer, FramebufferSpec, Capture, AllEntries, LeVal;
    hide AcpiOffset, FirstAcpi, AcpiIs;
    var p := Progress(EmptyInfo(|Encode(tags)|), false);
    ParseEncoded(tags);
    GoodByBytes(tags);
    ApplyAllFails(p, tags, HEADER_LEN);
    EntriesNeedTag(tags);
    if ApplyAll(p, tags, HEADER_LEN).Parsed? {
      ApplyAllMmap(p, tags, HEADER_LEN);
      ApplyAllNames(p, tags, HEADER_LEN);
      assert [] + AllEntries(tags) == AllEntries(tags);
      AcpiOf(tags, p, ApplyAll(p, tags, HEADER_LEN).value.info);
    }
  }

  /** The RSDP fields of `info` describe the first RSDP tag, by the place of its bytes in `b`. */
  ghost predicate AcpiIs(info: BootInfo, b: seq<byte>, first: Option<(nat, seq<byte>)>) {
    match first
    case None => info.acpiRsdp.None? && info.acpiVersion == 0
    case Some(f) =>
      && info.acpiVersion == f.0 && info.acpiRsdp.Some?
      && info.acpiRsdp.value + |f.1| <= |b| && b[info.acpiRsdp.value..info.acpiRsdp.value + |f.1|] == f.1
  }

  lemma AcpiOf(tags: seq<Tag>, p: Progress, info: BootInfo)
    requires Encodable(tags) && p == Progress(EmptyInfo(|Encode(tags)|), false)
    requires ApplyAll(p, tags, HEADER_LEN).Parsed? && info == ApplyAll(p, tags, HEADER_LEN).value.info
    ensures AcpiIs(info, Encode(tags), FirstAcpi(tags))
    ensures info.loadBaseAddr ==
              (match LastBody(tags, 20) case None => None case Some(s) => if |s| < 4 then None else Some(LeVal(s[0..4])))
  {
    hide Encode, ApplyAll, Encodable, LastBody, LeVal, AcpiOffset, FirstAcpi;
    ApplyAllRest(p, tags, HEADER_LEN);
    if FirstAcpi(tags).Some? {
      EncodedTail(tags);
      AcpiAt(Encode(tags), HEADER_LEN, tags);
    }
  }

  lemma EncodedTail(tags: seq<Tag>)
    ensures |Encode(tags)| >= HEADER_LEN && Encode(tags)[HEADER_LEN..] == EncodeTags(tags) + EndTag()
  {
    hide EncodeTags, EndTag, LeBytes;
  }

  lemma GoodByBytes(tags: seq<Tag>)
    ensures (exists t :: t in tags && t.ty == 6 && !(|t.body| >= 8 && LeVal(t.body[0..4]) >= 24)) <==>
              exists t :: t in tags && t.ty == TAG_MMAP && !GoodMmap(t.body)
  {
    hide LeVal;
  }

  // Framebuffer bodies.

  function EncodeFramebuffer(address: u64, pitch: u32, width: u32, height: u32, bpp: byte, fbType: byte, rest: seq<byte>): seq<byte> {
    LeBytes(address, 8) + LeBytes(pitch, 4) + LeBytes(width, 4) + LeBytes(height, 4) + [bpp, fbType, 0, 0] + rest
  }

  /** Every field of a framebuffer tag is read back, and the size is computed from the pitch and at least one line. */
  lemma FramebufferRoundTrip(address: u64, pitch: u32, width: u32, height: u32, bpp: byte, fbType: byte, rest: seq<byte>)
    ensures var body := EncodeFramebuffer(address, pitch, width, height, bpp, fbType, rest);
            && |body| >= 24
            && var fb := FramebufferSpec(body);
               && fb.address == address && fb.pitch == pitch && fb.width == width && fb.height == height
               && fb.bpp == bpp && fb.fbType == fbType
               && fb.size == pitch * (if height == 0 then 1 else height)
  {
    hide LeVal, LeBytes;
    var tail := [bpp, fbType, 0, 0] + rest;
    var body := EncodeFramebuffer(address, pitch, width, height, bpp, fbType, rest);
    assert body == LeBytes(address, 8) + LeBytes(pitch, 4) + LeBytes(width, 4) + LeBytes(height, 4) + tail;
    FiveParts(LeBytes(address, 8), LeBytes(pitch, 4), LeBytes(width, 4), LeBytes(height, 4), tail);
    Pow2OfBytes();
    LeRoundTrip(address, 8);
    LeRoundTrip(pitch, 4);
    LeRoundTrip(width, 4);
    LeRoundTrip(height, 4);
  }

  lemma FiveParts(a: seq<byte>, b: seq<byte>, c: seq<byte>, d: seq<byte>, e: seq<byte>)
    requires |a| == 8 && |b| == 4 && |c| == 4 && |d| == 4 && |e| >= 2
    ensures var s := a + b + c + d + e;
            s[0..8] == a && s[8..12] == b && s[12..16] == c && s[16..20] == d && s[20] == e[0] && s[21] == e[1]
  {
  }

  /** Whatever bytes were parsed, a framebuffer's size is its pitch times at least one line. */
  ghost predicate SizedFramebuffer(info: BootInfo) {
    info.framebuffer.Some? ==>
      var fb := info.framebuffer.value; fb.size == fb.pitch * (if fb.height == 0 then 1 else fb.height)
  }

  lemma {:induction false} WalkSized(b: seq<byte>, total: nat, off: nat, p: Progress)
    requires total <= |b| && SizedFramebuffer(p.info)
    ensures WalkTags(b, total, off, p).Parsed? ==> SizedFramebuffer(WalkTags(b, total, off, p).value.info)
    ensures WalkTags(b, total, off, p).Parsed? ==> WalkTags(b, total, off, p).value.info.totalSize == p.info.totalSize
    decreases total - off
  {
    hide LeVal, MmapSpec, Capture;
    if off + HEADER_LEN <= total {
      var ty, size := U16At(b, off).value, U32At(b, off + 4).value;
      if ty != TAG_END && HEADER_LEN <= size && off + size <= total {
        var r := ApplyTag(p, ty, b[off + HEADER_LEN..off + size], off);
        if r.Parsed? {
          WalkSized(b, total, Align8(off + size), r.value);
        }
      }
    }
  }

  lemma ParsedSized(b: seq<byte>)
    ensures ParseSpec(b).Parsed? ==>
              SizedFramebuffer(ParseSpec(b).value) && |b| >= 4 && ParseSpec(b).value.totalSize == LeVal(b[0..4])
  {
    hide LeVal, WalkTags, U32At;
    if ParseSpec(b).Parsed? {
      var total := U32At(b, 0).value;
      FieldOf(b);
      WalkSized(b, total, HEADER_LEN, Progress(EmptyInfo(total), false));
    }
  }

  lemma FieldOf(b: seq<byte>)
    ensures U32At(b, 0).Some? ==> |b| >= 4 && U32At(b, 0).value == LeVal(b[0..4])
  {
  }

  // Memory map bodies.

  function EncodeEntry(e: MmapEntry, stride: nat): (s: seq<byte>)
    requires stride >= MMAP_ENTRY
    ensures |s| == stride
  {
    LeBytes(e.base, 8) + LeBytes(e.length, 8) + LeBytes(e.memType, 4) + seq(stride - 20, _ => 0)
  }

  function EncodeEntries(es: seq<MmapEntry>, stride: nat): (s: seq<byte>)
    requires stride >= MMAP_ENTRY
  {
    if es == [] then [] else EncodeEntry(es[0], stride) + EncodeEntries(es[1..], stride)
  }

  function EncodeMmap(es: seq<MmapEntry>, stride: nat): seq<byte>
    requires stride >= MMAP_ENTRY
  {
    LeBytes(stride, 4) + LeBytes(0, 4) + EncodeEntries(es, stride)
  }

  lemma SubSlice(b: seq<byte>, off: nat, n: nat, i: nat, j: nat)
    requires off + n <= |b| && i <= j <= n
    ensures b[off..off + n][i..j] == b[off + i..off + j]
  {
    var s := b[off..off + n];
    var t, u := s[i..j], b[off + i..off + j];
    assert |t| == |u|;
    forall k: nat | k < |t| ensures t[k] == u[k] {
      assert t[k] == s[i + k] == b[off + (i + k)];
    }
  }

  lemma EntryFields(body: seq<byte>, off: nat, e: MmapEntry, stride: nat)
    requires stride >= MMAP_ENTRY && off + stride <= |body| && body[off..off + stride] == EncodeEntry(e, stride)
    ensures EntryAt(body, off) == e
  {
    hide LeVal, LeBytes;
    var s := EncodeEntry(e, stride);
    SubSlice(body, off, stride, 0, 8);
    SubSlice(body, off, stride, 8, 16);
    SubSlice(body, off, stride, 16, 20);
    assert s[0..8] == LeBytes(e.base, 8);
    assert s[8..16] == LeBytes(e.length, 8);
    assert s[16..20] == LeBytes(e.memType, 4);
    Pow2OfBytes();
    LeRoundTrip(e.base, 8);
    LeRoundTrip(e.length, 8);
    LeRoundTrip(e.memType, 4);
  }

  lemma {:induction false} EntriesEncoded(body: seq<byte>, off: nat, es: seq<MmapEntry>, stride: nat)
    requires stride >= MMAP_ENTRY && off <= |body| && body[off..] == EncodeEntries(es, stride)
    ensures Entries(body, off, stride) == es
    decreases |es|
  {
    hide LeVal, LeBytes, EntryAt, EncodeEntry;
    if es != [] {
      var s := body[off..];
      assert |s| >= stride;
      assert body[off..off + stride] == s[..stride] == EncodeEntry(es[0], stride);
      EntryFields(body, off, es[0], stride);
      assert body[off + stride..] == s[stride..] == EncodeEntries(es[1..], stride);
      EntriesEncoded(body, off + stride, es[1..], stride);
    }
  }

  /** A memory map encoded with any 32-bit entry size of at least 24 bytes is read back entry by entry. */
  lemma MmapRoundTrip(es: seq<MmapEntry>, stride: nat)
    requires MMAP_ENTRY <= stride < 0x1_0000_0000
    ensures var body := EncodeMmap(es, stride);
            GoodMmap(body) && Stride(body) == stride && Entries(body, 8, stride) == es
  {
    hide LeVal, LeBytes, EncodeEntries, Entries;
    var body := EncodeMmap(es, stride);
    Pow2OfBytes();
    LeRoundTrip(stride, 4);
    assert body[0..4] == LeBytes(stride, 4);
    assert body[8..] == EncodeEntries(es, stride);
    EntriesEncoded(body, 8, es, stride);
  }
}
