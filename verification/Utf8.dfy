/** UTF-8 text as the bootloader's strings use it, and the fixed-capacity string that keeps it. */
module Utf8 {
  import opened BootData

  const STR_CAP: nat := 191

  predicate Cont(b: byte) { 0x80 <= b <= 0xBF }

  /** Length of the well-formed character that `s` starts with, or 0 when there is none (Table 3-7 of the Unicode Standard). */
  function CharLen(s: seq<byte>): (n: nat)
    ensures n <= |s| && n <= 4
  {
    if |s| >= 1 && s[0] < 0x80 then 1
    else if |s| >= 2 && 0xC2 <= s[0] <= 0xDF && Cont(s[1]) then 2
    else if |s| >= 3 && 0xE0 <= s[0] <= 0xEF && Cont(s[1]) && Cont(s[2])
            && (s[0] == 0xE0 ==> s[1] >= 0xA0) && (s[0] == 0xED ==> s[1] <= 0x9F) then 3
    else if |s| >= 4 && 0xF0 <= s[0] <= 0xF4 && Cont(s[1]) && Cont(s[2]) && Cont(s[3])
            && (s[0] == 0xF0 ==> s[1] >= 0x90) && (s[0] == 0xF4 ==> s[1] <= 0x8F) then 4
    else 0
  }

  /** The Unicode scalar values: all code points but the surrogates. */
  predicate Scalar(cp: nat) {
    cp < 0xD800 || 0xE000 <= cp < 0x11_0000
  }

  /** The bytes of a scalar value (Table 3-6 of the Unicode Standard). */
  function EncodeChar(cp: nat): (s: seq<byte>)
    requires Scalar(cp)
  {
    if cp < 0x80 then [cp]
    else if cp < 0x800 then [0xC0 + cp / 64, 0x80 + cp % 64]
    else if cp < 0x1_0000 then [0xE0 + cp / 64 / 64, 0x80 + cp / 64 % 64, 0x80 + cp % 64]
    else [0xF0 + cp / 64 / 64 / 64, 0x80 + cp / 64 / 64 % 64, 0x80 + cp / 64 % 64, 0x80 + cp % 64]
  }

  function Less(b: int, base: int): int { b - base }

  function DecodeChar(s: seq<byte>): int
    requires CharLen(s) > 0
  {
    match CharLen(s)
    case 1 => s[0]
    case 2 => Less(s[0], 0xC0) * 64 + Less(s[1], 0x80)
    case 3 => (Less(s[0], 0xE0) * 64 + Less(s[1], 0x80)) * 64 + Less(s[2], 0x80)
    case _ => ((Less(s[0], 0xF0) * 64 + Less(s[1], 0x80)) * 64 + Less(s[2], 0x80)) * 64 + Less(s[3], 0x80)
  }

  /** Bytes that start with a character start with the encoding of one scalar value. */
  lemma CharDecodes(s: seq<byte>)
    requires CharLen(s) > 0
    ensures DecodeChar(s) >= 0 && Scalar(DecodeChar(s)) && EncodeChar(DecodeChar(s)) == s[..CharLen(s)]
  {
    var n := CharLen(s);
    assert s[..n] == (if n == 1 then [s[0]] else if n == 2 then [s[0], s[1]]
                      else if n == 3 then [s[0], s[1], s[2]] else [s[0], s[1], s[2], s[3]]);
    if n == 2 {
      TwoDigits(Less(s[0], 0xC0), Less(s[1], 0x80));
    } else if n == 3 {
      ThreeDigits(Less(s[0], 0xE0), Less(s[1], 0x80), Less(s[2], 0x80));
    } else if n == 4 {
      FourDigits(Less(s[0], 0xF0), Less(s[1], 0x80), Less(s[2], 0x80), Less(s[3], 0x80));
    }
  }

  lemma ThreeDigits(a: nat, b: nat, c: nat)
    requires b < 64 && c < 64
    ensures var v := (a * 64 + b) * 64 + c; v % 64 == c && v / 64 % 64 == b && v / 64 / 64 == a
  {
    TwoDigits(a, b);
    TwoDigits(a * 64 + b, c);
  }

  lemma FourDigits(a: nat, b: nat, c: nat, d: nat)
    requires b < 64 && c < 64 && d < 64
    ensures var v := ((a * 64 + b) * 64 + c) * 64 + d;
            v % 64 == d && v / 64 % 64 == c && v / 64 / 64 % 64 == b && v / 64 / 64 / 64 == a
  {
    ThreeDigits(a, b, c);
    TwoDigits((a * 64 + b) * 64 + c, d);
  }

  lemma TwoDigits(hi: nat, lo: nat)
    requires lo < 64
    ensures (hi * 64 + lo) / 64 == hi && (hi * 64 + lo) % 64 == lo
  {
  }

  /** And the encoding of a scalar value is one character, whatever follows it. */
  lemma EncodingIsChar(cp: nat, s: seq<byte>)
    requires Scalar(cp) && EncodeChar(cp) <= s
    ensures CharLen(s) == |EncodeChar(cp)| > 0
  {
    var e := EncodeChar(cp);
    assert forall i: nat | i < |e| :: s[i] == e[i];
  }

  predicate IsUtf8(s: seq<byte>) {
    s == [] || (CharLen(s) > 0 && IsUtf8(s[CharLen(s)..]))
  }

  /** What stands in for bytes that are not UTF-8: the text "<non-utf8>". */
  const NOT_UTF8: seq<byte> := [0x3C, 0x6E, 0x6F, 0x6E, 0x2D, 0x75, 0x74, 0x66, 0x38, 0x3E]

  /** `bytes_to_str`. */
  function Text(b: seq<byte>): seq<byte> {
    if IsUtf8(b) then b else NOT_UTF8
  }

  /** The text before the first NUL. */
  function TrimNul(s: seq<byte>): seq<byte> {
    if s == [] || s[0] == 0 then [] else [s[0]] + TrimNul(s[1..])
  }

  /** How many bytes `push_str` takes from `s` into a string that holds `len` bytes: whole characters while they fit. */
  function Fits(s: seq<byte>, len: nat): (k: nat)
    ensures k <= |s|
    decreases |s|
  {
    if s == [] || CharLen(s) == 0 || len + CharLen(s) > STR_CAP then 0
    else CharLen(s) + Fits(s[CharLen(s)..], len + CharLen(s))
  }

  /** The string kept for a command line or loader name. */
  function Capture(body: seq<byte>): seq<byte> {
    var s := TrimNul(Text(body));
    s[..Fits(s, 0)]
  }

  lemma {:induction false} TrimNulPrefix(s: seq<byte>)
    ensures |TrimNul(s)| <= |s| && TrimNul(s) == s[..|TrimNul(s)|]
    ensures 0 !in TrimNul(s)
    ensures |TrimNul(s)| < |s| ==> s[|TrimNul(s)|] == 0
  {
    if s != [] && s[0] != 0 {
      TrimNulPrefix(s[1..]);
    }
  }

  /** Cutting at a NUL never splits a character. */
  lemma {:induction false} TrimNulUtf8(s: seq<byte>)
    requires IsUtf8(s)
    ensures IsUtf8(TrimNul(s))
    decreases |s|
  {
    if s != [] && s[0] != 0 {
      var n := CharLen(s);
      TrimSkips(s, n);
      TrimNulUtf8(s[n..]);
      var t := s[..n] + TrimNul(s[n..]);
      assert TrimNul(s) == t;
      CharLenPrefix(s, t);
      assert t[n..] == TrimNul(s[n..]);
    }
  }

  lemma {:induction false} TrimSkips(s: seq<byte>, n: nat)
    requires n <= |s| && forall i: nat | i < n :: s[i] != 0
    ensures TrimNul(s) == s[..n] + TrimNul(s[n..])
  {
    if n > 0 {
      TrimSkips(s[1..], n - 1);
      assert s[1..][..n - 1] == s[1..n] && s[1..][n - 1..] == s[n..];
      assert s[..n] == [s[0]] + s[1..n];
    }
  }

  lemma CharLenPrefix(s: seq<byte>, t: seq<byte>)
    requires CharLen(s) <= |t| && s[..CharLen(s)] == t[..CharLen(s)] && CharLen(s) > 0
    ensures CharLen(t) == CharLen(s)
  {
    var n := CharLen(s);
    assert forall i: nat | i < n :: s[..n][i] == t[..n][i];
    assert forall i: nat | i < n :: s[i] == t[i];
  }

  /** The kept part is whole characters within capacity, and the next character would not have fitted. */
  lemma {:induction false} FitsMaximal(s: seq<byte>, len: nat)
    requires IsUtf8(s) && len <= STR_CAP
    ensures var k := Fits(s, len);
            && len + k <= STR_CAP && IsUtf8(s[..k]) && IsUtf8(s[k..])
            && (k < |s| ==> len + k + CharLen(s[k..]) > STR_CAP)
    decreases |s|
  {
    hide CharLen;
    var k := Fits(s, len);
    if k > 0 {
      var n := CharLen(s);
      FitsMaximal(s[n..], len + n);
      var j := k - n;
      assert s[n..][..j] == s[n..k] && s[n..][j..] == s[k..];
      CharLenPrefix(s, s[..k]);
      assert s[..k][n..] == s[n..k];
    } else {
      assert s[..0] == [] && s[0..] == s;
    }
  }

  /** What stands for bytes that are not UTF-8, spelled out. */
  function NonUtf8(): string { "<non-utf8>" }

  /**
   A captured string is valid UTF-8 of at most 191 bytes without NUL. From valid text it is the longest run of whole
   characters before the first NUL that fits; from anything else it is the text that says so.
   */
  lemma CaptureMeaning(body: seq<byte>)
    ensures var c := Capture(body);
            && IsUtf8(c) && |c| <= 191 && 0 !in c
            && (IsUtf8(body) ==> c <= body && (|c| < |body| ==> body[|c|] == 0 || |c| + CharLen(body[|c|..]) > 191))
            && (!IsUtf8(body) ==> |c| == |NonUtf8()| && forall i: nat | i < |c| :: c[i] == NonUtf8()[i] as int)
  {
    hide IsUtf8, CharLen, Fits, TrimNul;
    NotUtf8IsText();
    var t := Text(body);
    TrimNulUtf8(t);
    TrimNulPrefix(t);
    var s := TrimNul(t);
    FitsMaximal(s, 0);
    if IsUtf8(body) {
      CutInText(body, s, Fits(s, 0));
    } else {
      ShortFits();
    }
  }

  /** A character that starts inside the trimmed text is the same in the whole text. */
  lemma CutInText(body: seq<byte>, s: seq<byte>, k: nat)
    requires IsUtf8(body) && s <= body && k <= |s| && IsUtf8(s[k..]) && (|s| < |body| ==> body[|s|] == 0)
    ensures k < |s| ==> CharLen(body[k..]) == CharLen(s[k..])
    ensures k < |body| ==> k < |s| || body[k] == 0
  {
    if k < |s| {
      assert s[k..] <= body[k..];
      CharLenPrefix(s[k..], body[k..]);
    }
  }

  lemma ShortFits()
    ensures TrimNul(NOT_UTF8) == NOT_UTF8 && NOT_UTF8[..Fits(NOT_UTF8, 0)] == NOT_UTF8
  {
    NoNul(NOT_UTF8);
    NotUtf8IsText();
    hide Fits, TrimNul, IsUtf8;
    FitsMaximal(NOT_UTF8, 0);
  }

  lemma {:induction false} NoNul(s: seq<byte>)
    requires 0 !in s
    ensures TrimNul(s) == s
  {
    if s != [] {
      NoNul(s[1..]);
    }
  }

  lemma NotUtf8IsText()
    ensures IsUtf8(NOT_UTF8)
  {
    hide IsUtf8;
    AsciiUtf8(NOT_UTF8);
  }

  lemma {:induction false} AsciiUtf8(s: seq<byte>)
    requires forall i: nat | i < |s| :: s[i] < 0x80
    ensures IsUtf8(s)
  {
    if s != [] {
      AsciiUtf8(s[1..]);
    }
  }
}
