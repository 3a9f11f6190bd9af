/**
 The frame bitmap of the physical allocator and its two searches.

 A bitmap is an array of 64-bit words; bit `i % 64` of word `i / 64` is set exactly when frame `i`
 is free. `FreeSet` is the set of frames the bitmap stands for, and every operation is specified on it.
 */
module Bitmap {
  import opened Bits
  import opened Wrappers

  predicate FrameBit(words: seq<u64>, i: nat)
    requires i < 64 * |words|
  {
    Bit(words[i / 64], i % 64)
  }

  ghost function FreeSet(words: seq<u64>): set<nat> {
    set i: nat | i < 64 * |words| && FrameBit(words, i)
  }

  /** `r` is the lowest member of `free` in `[from, bound)`, or nothing when there is none. */
  ghost predicate IsFirst(free: set<nat>, from: nat, bound: nat, r: Option<nat>) {
    match r
    case None => forall i: nat | from <= i < bound :: i !in free
    case Some(x) => from <= x < bound && x in free && forall i: nat | from <= i < x :: i !in free
  }

  ghost predicate RunAt(free: set<nat>, start: nat, count: nat) {
    forall i: nat | start <= i < start + count :: i in free
  }

  /** `r` is the lowest multiple of `align` in `[from, limit)` that starts `count` free frames below `limit`. */
  ghost predicate IsFirstRun(free: set<nat>, from: nat, limit: nat, count: nat, align: nat, r: Option<nat>)
    requires align > 0
  {
    match r
    case None => forall s: nat | from <= s && s % align == 0 && s + count <= limit :: !RunAt(free, s, count)
    case Some(x) =>
      && from <= x && x % align == 0 && x + count <= limit && RunAt(free, x, count)
      && forall s: nat | from <= s < x && s % align == 0 :: !RunAt(free, s, count)
  }

  /** A bitmap operation that treats frame `idx` as `b` and leaves the other frames alone. */
  lemma WordUpdate(words: seq<u64>, idx: nat, w: u64, b: bool)
    requires idx < 64 * |words|
    requires forall j: nat | j < 64 :: Bit(w, j) <==> (if j == idx % 64 then b else Bit(words[idx / 64], j))
    ensures FreeSet(words[idx / 64 := w]) == if b then FreeSet(words) + {idx} else FreeSet(words) - {idx}
  {
    var words' := words[idx / 64 := w];
    forall i: nat | i < 64 * |words|
      ensures FrameBit(words', i) <==> (if i == idx then b else FrameBit(words, i))
    {
      assert i == 64 * (i / 64) + i % 64;
      assert i % 64 < 64;
    }
  }

  lemma SetWordBit(words: seq<u64>, idx: nat)
    requires idx < 64 * |words|
    ensures Or(words[idx / 64], Pow2(idx % 64)) < U64_SIZE
    ensures FreeSet(words[idx / 64 := Or(words[idx / 64], Pow2(idx % 64))]) == FreeSet(words) + {idx}
  {
    var w, k := words[idx / 64], idx % 64;
    OneBit(k);
    OrBound(w, Pow2(k), 64);
    forall j: nat | j < 64 ensures Bit(Or(w, Pow2(k)), j) <==> j == k || Bit(w, j) {
      BitOfOr(w, Pow2(k), j);
      BitOfPow2(k, j);
    }
    WordUpdate(words, idx, Or(w, Pow2(k)), true);
  }

  lemma ClearWordBit(words: seq<u64>, idx: nat)
    requires idx < 64 * |words|
    ensures Pow2(idx % 64) < U64_SIZE
    ensures And(words[idx / 64], Not64(Pow2(idx % 64))) < U64_SIZE
    ensures FreeSet(words[idx / 64 := And(words[idx / 64], Not64(Pow2(idx % 64)))]) == FreeSet(words) - {idx}
  {
    var w, k := words[idx / 64], idx % 64;
    OneBit(k);
    var mask := Not64(Pow2(k));
    forall j: nat | j < 64 ensures Bit(And(w, mask), j) <==> j != k && Bit(w, j) {
      BitOfAnd(w, mask, j);
      BitOfNot(Pow2(k), 64, j);
      BitOfPow2(k, j);
    }
    WordUpdate(words, idx, And(w, mask), false);
  }

  lemma OneBit(k: nat)
    requires k < 64
    ensures Pow2(k) < Pow2(64) == U64_SIZE
  {
    Pow2Values();
    Pow2Below(k, 64);
  }

  lemma {:induction false} Pow2Below(k: nat, n: nat)
    requires k < n
    ensures Pow2(k) < Pow2(n)
    decreases n
  {
    if k < n - 1 {
      Pow2Below(k, n - 1);
    }
  }

  method BitSet(bits: array<u64>, idx: nat)
    requires idx < 64 * bits.Length
    modifies bits
    ensures FreeSet(bits[..]) == old(FreeSet(bits[..])) + {idx}
  {
    SetWordBit(bits[..], idx);
    bits[idx / 64] := Or(bits[idx / 64], Pow2(idx % 64));
    assert bits[..] == old(bits[..][idx / 64 := Or(bits[..][idx / 64], Pow2(idx % 64))]);
  }

  method BitClear(bits: array<u64>, idx: nat)
    requires idx < 64 * bits.Length
    modifies bits
    ensures FreeSet(bits[..]) == old(FreeSet(bits[..])) - {idx}
  {
    ClearWordBit(bits[..], idx);
    bits[idx / 64] := And(bits[idx / 64], Not64(Pow2(idx % 64)));
    assert bits[..] == old(bits[..][idx / 64 := And(bits[..][idx / 64], Not64(Pow2(idx % 64)))]);
  }

  method BitTest(bits: array<u64>, idx: nat) returns (b: bool)
    requires idx < 64 * bits.Length
    ensures b <==> idx in FreeSet(bits[..])
  {
    TestBit(bits[idx / 64], idx % 64);
    b := And(bits[idx / 64], Pow2(idx % 64)) != 0;
  }

  /** The number of words that hold the frames below `limit`. */
  function WordsFor(limit: nat): nat {
    (limit + 63) / 64
  }

  /** What the bits of one word from `bit` upwards say about the frames there. */
  lemma RestOfWord(words: seq<u64>, word: nat, bit: nat)
    requires word < |words| && bit < 64
    ensures var w := Shr(words[word], bit);
            IsFirst(FreeSet(words), 64 * word + bit, 64 * word + 64,
                    if w != 0 then Some(64 * word + bit + TrailingZeros(w)) else None)
  {
    var from := 64 * word + bit;
    forall i: nat | from <= i < 64 * word + 64
      ensures i in FreeSet(words) <==> Bit(Shr(words[word], bit), i - from)
    {
      WordBit(words, word, bit, i - from);
    }
    WordBound(words[word], bit);
    LowestOf(FreeSet(words), from, 64 - bit, Shr(words[word], bit));
  }

  lemma WordBound(w: u64, bit: nat)
    requires bit < 64
    ensures Shr(w, bit) < Pow2(64 - bit)
  {
    Pow2Values();
    ShiftedBound(w, bit, 64);
  }

  /** A number whose bits list the frames from `from` on finds the first of them. */
  lemma LowestOf(free: set<nat>, from: nat, n: nat, w: nat)
    requires w < Pow2(n)
    requires forall i: nat | from <= i < from + n :: i in free <==> Bit(w, i - from)
    ensures IsFirst(free, from, from + n, if w != 0 then Some(from + TrailingZeros(w)) else None)
  {
    if w != 0 {
      TrailingZerosIsLowest(w, n);
    } else {
      forall j: nat ensures !Bit(w, j) { BitOfZero(j); }
    }
  }

  lemma WordBit(words: seq<u64>, word: nat, bit: nat, j: nat)
    requires word < |words| && bit + j < 64
    ensures 64 * word + bit + j in FreeSet(words) <==> Bit(Shr(words[word], bit), j)
  {
    var i := 64 * word + bit + j;
    BitOfShift(words[word], bit, j);
    assert i / 64 == word && i % 64 == bit + j;
    assert i in FreeSet(words) <==> FrameBit(words, i);
  }

  lemma {:induction false} ShiftedBound(w: nat, k: nat, n: nat)
    requires w < Pow2(n) && k <= n
    ensures Shr(w, k) < Pow2(n - k)
    decreases k
  {
    if k > 0 {
      ShiftedBound(w / 2, k - 1, n - 1);
    }
  }

  /**
   Find the lowest free frame at or after `from`, a word at a time.
   The answer is not clamped to `limit`: the search covers every word that holds a frame below `limit`.
   */
  method NextFree(bits: array<u64>, from: nat, limit: nat) returns (r: Option<nat>)
    requires limit <= 64 * bits.Length
    ensures from >= limit ==> r.None?
    ensures from < limit ==> IsFirst(FreeSet(bits[..]), from, 64 * WordsFor(limit), r)
  {
    if from >= limit {
      return None;
    }
    ghost var words := bits[..];
    ghost var n := WordsFor(limit);
    var idx := from;
    var word := idx / 64;
    var bit := idx % 64;
    var w: nat := Shr(bits[word], bit);
    assert word < n <= |words|;
    FirstWord(words, word, bit, n);
    if w != 0 {
      return Some(word * 64 + bit + TrailingZeros(w));
    }
    idx := (word + 1) * 64;
    ghost var k := word + 1;
    while idx < limit
      invariant idx == 64 * k && k <= n
      invariant IsFirst(FreeSet(words), from, 64 * k, None)
    {
      var widx := idx / 64;
      assert widx == k;
      w := bits[widx];
      LaterWord(words, from, k, n);
      if w != 0 {
        return Some(widx * 64 + TrailingZeros(w));
      }
      idx, k := idx + 64, k + 1;
    }
    return None;
  }

  lemma FirstWord(words: seq<u64>, word: nat, bit: nat, n: nat)
    requires word < n <= |words| && bit < 64
    ensures var w := Shr(words[word], bit);
            if w != 0 then IsFirst(FreeSet(words), 64 * word + bit, 64 * n, Some(word * 64 + bit + TrailingZeros(w)))
            else IsFirst(FreeSet(words), 64 * word + bit, 64 * (word + 1), None)
  {
    RestOfWord(words, word, bit);
  }

  lemma LaterWord(words: seq<u64>, from: nat, k: nat, n: nat)
    requires k < n <= |words| && from <= 64 * k && IsFirst(FreeSet(words), from, 64 * k, None)
    ensures if words[k] != 0 then IsFirst(FreeSet(words), from, 64 * n, Some(k * 64 + TrailingZeros(words[k])))
            else IsFirst(FreeSet(words), from, 64 * (k + 1), None)
  {
    RestOfWord(words, k, 0);
  }

  /** The documented bound `r < limit` holds exactly when the next free frame is not past `limit` in its word. */
  lemma NextFreeLimit(free: set<nat>, from: nat, limit: nat, r: Option<nat>)
    requires from < limit && IsFirst(free, from, 64 * WordsFor(limit), r)
    ensures (r.Some? ==> r.value < limit)
            <==> ((exists i: nat :: from <= i < limit && i in free)
                  || forall i: nat | limit <= i < 64 * WordsFor(limit) :: i !in free)
  {
  }

  /** One free frame, number 5: a search limited to the first three frames still answers 5. */
  lemma NextFreePassesLimit(words: seq<u64>, r: Option<nat>)
    requires words == [32] && IsFirst(FreeSet(words), 0, 64 * WordsFor(3), r)
    ensures r == Some(5)
  {
    forall i: nat | i < 64 ensures i in FreeSet(words) <==> i == 5 {
      assert Pow2(5) == 32;
      BitOfPow2(5, i);
      assert i in FreeSet(words) <==> FrameBit(words, i);
    }
    assert 5 in FreeSet(words);
  }

  /** `x / a * a` and its successor bracket the multiples of `a`. */
  lemma NextMultiple(x: nat, a: nat)
    requires a > 0
    ensures var m := (x / a + 1) * a;
            m % a == 0 && x < m <= x + a && forall t: nat | x < t < m :: t % a != 0
  {
    var q := x / a;
    var m := (q + 1) * a;
    assert x == a * q + x % a;
    assert m == a * q + a;
    DivUnique(m, a, q + 1, 0);
    forall t: nat | x < t < m ensures t % a != 0 {
      DivUnique(t, a, q, t - a * q);
    }
  }

  /** `(x + a - 1) / a * a` is the lowest multiple of `a` at or above `x`. */
  lemma RoundUp(x: nat, a: nat)
    requires a > 0
    ensures var m := (x + a - 1) / a * a;
            m % a == 0 && x <= m < x + a && forall t: nat | x <= t < m :: t % a != 0
  {
    var q := (x + a - 1) / a;
    var m := a * q;
    assert x + a - 1 == m + (x + a - 1) % a;
    DivUnique(m, a, q, 0);
    forall t: nat | x <= t < m ensures t % a != 0 {
      MulBefore(a, q);
      DivUnique(t, a, q - 1, t - a * (q - 1));
    }
  }

  lemma MulBefore(a: nat, q: nat)
    requires a * q > 0
    ensures q > 0 && a * (q - 1) + a == a * q
  {
  }

  /** The multiples of `a` are tried in turn; this is the first one whose run does not fit below `limit`. */
  ghost function FirstPast(start: nat, limit: nat, count: nat, a: nat): nat
    requires a > 0
    decreases if start + count <= limit then limit + 1 - start else 0
  {
    if start + count > limit then start else (NextMultiple(start, a); FirstPast((start / a + 1) * a, limit, count, a))
  }

  /** Some sum of the run search leaves 64 bits: the rounding, the first end, or the end that shows nothing is left. */
  ghost predicate RunOverflows(free: set<nat>, from: nat, limit: nat, count: nat, a: nat)
    requires a > 0
  {
    var first := (from + a - 1) / a * a;
    count > 0 &&
    (|| from + a >= U64_SIZE || first + count >= U64_SIZE
     || (IsFirstRun(free, from, limit, count, a, None) && FirstPast(first, limit, count, a) + count >= U64_SIZE))
  }

  /** Find `count` consecutive free frames at or after `from`, starting at a multiple of `align`. */
  method NextFreeRun(bits: array<u64>, from: nat, limit: nat, count: nat, align: nat)
    returns (r: Outcome<Option<nat>>)
    requires limit <= 64 * bits.Length && limit < U64_SIZE
    ensures r.Panic? <==> RunOverflows(FreeSet(bits[..]), from, limit, count, if align == 0 then 1 else align)
    ensures r.Done? && count == 0 ==> r.value == Some(from)
    ensures r.Done? && count > 0 ==>
              IsFirstRun(FreeSet(bits[..]), from, limit, count, if align == 0 then 1 else align, r.value)
  {
    hide FreeSet;
    if count == 0 {
      return Done(Some(from));
    }
    var a := if align == 0 then 1 else align;
    if from + a >= U64_SIZE {
      return Panic;
    }
    ghost var free := FreeSet(bits[..]);
    RoundUp(from, a);
    var start := (from + a - 1) / a * a;
    ghost var first := start;
    while true
      invariant from <= first <= start && start % a == 0
      invariant start < from + a || start < limit + a
      invariant start > first ==> first + count < U64_SIZE
      invariant FirstPast(start, limit, count, a) == FirstPast(first, limit, count, a)
      invariant forall s: nat | from <= s < start && s % a == 0 :: !RunAt(free, s, count)
      decreases limit + a - start
    {
      if start + count >= U64_SIZE {
        return Panic;
      }
      if start + count > limit {
        return Done(None);
      }
      NextMultiple(start, a);
      var free' := RunFree(bits, start, count);
      if free' {
        return Done(Some(start));
      }
      start := (start / a + 1) * a;
    }
  }

  /** Are the `count` frames from `start` all free? The first one is tested before the rest. */
  method RunFree(bits: array<u64>, start: nat, count: nat) returns (ok: bool)
    requires 0 < count && start + count <= 64 * bits.Length
    ensures ok <==> RunAt(FreeSet(bits[..]), start, count)
  {
    hide FreeSet;
    ok := BitTest(bits, start);
    var i := 1;
    while i < count && ok
      invariant 1 <= i <= count
      invariant if ok then forall j: nat | start <= j < start + i :: j in FreeSet(bits[..])
                else !RunAt(FreeSet(bits[..]), start, count)
    {
      ok := BitTest(bits, start + i);
      i := i + 1;
    }
  }

  /** With room to spare below 2^64 no search overflows. */
  lemma SmallRunFits(free: set<nat>, from: nat, limit: nat, count: nat, a: nat)
    requires a > 0 && from + limit + a + count < U64_SIZE
    ensures !RunOverflows(free, from, limit, count, a)
  {
    RoundUp(from, a);
    PastBound((from + a - 1) / a * a, limit, count, a);
  }

  lemma {:induction false} PastBound(start: nat, limit: nat, count: nat, a: nat)
    requires a > 0
    ensures FirstPast(start, limit, count, a) <= start || FirstPast(start, limit, count, a) <= limit + a
    decreases if start + count <= limit then limit + 1 - start else 0
  {
    if start + count <= limit {
      NextMultiple(start, a);
      PastBound((start / a + 1) * a, limit, count, a);
    }
  }
}
