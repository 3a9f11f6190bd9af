/**
 Bitwise operators on natural numbers, as the kernel's `u64` code uses them.

 `And` and `Or` are defined bit by bit, `Shl` and `Shr` one place at a time, and `Pow2(k)` is `1 << k`.
 The lemmas say what each operator does to a single bit, and turn the masks of the
 page-table code into the arithmetic the rest of the model reasons with.
 */
module Bits {

  const U64_SIZE: nat := 0x1_0000_0000_0000_0000

  /** A 64-bit machine word. Both Cargo profiles turn on overflow checks, so no word ever wraps. */
  type u64 = x: nat | x < 0x1_0000_0000_0000_0000

  function Pow2(k: nat): (p: nat)
    ensures p > 0
  {
    if k == 0 then 1 else 2 * Pow2(k - 1)
  }

  /** Bit `k` of `w`. */
  predicate Bit(w: nat, k: nat)
    decreases k
  {
    if k == 0 then w % 2 == 1 else Bit(w / 2, k - 1)
  }

  function And(a: nat, b: nat): (r: nat)
    ensures r <= a
  {
    if a == 0 then 0
    else 2 * And(a / 2, b / 2) + (if a % 2 == 1 && b % 2 == 1 then 1 else 0)
  }

  function Or(a: nat, b: nat): (r: nat)
    ensures r >= b
    decreases a + b
  {
    if a == 0 then b else if b == 0 then a
    else 2 * Or(a / 2, b / 2) + (if a % 2 == 1 || b % 2 == 1 then 1 else 0)
  }

  /** `c << k`, with no bit lost at the top. */
  function Shl(c: nat, k: nat): nat {
    if k == 0 then c else 2 * Shl(c, k - 1)
  }

  /** `w >> k`. */
  function Shr(w: nat, k: nat): nat
    decreases k
  {
    if k == 0 then w else Shr(w / 2, k - 1)
  }

  /** The `!w` of a 64-bit word. */
  function Not64(w: u64): u64 {
    U64_SIZE - 1 - w
  }

  /** Index of the lowest set bit. */
  function TrailingZeros(w: nat): nat
    requires w > 0
  {
    if w % 2 == 1 then 0 else 1 + TrailingZeros(w / 2)
  }

  lemma {:induction false} Pow2Adds(a: nat, b: nat)
    ensures Pow2(a + b) == Pow2(a) * Pow2(b)
  {
    if a > 0 {
      Pow2Adds(a - 1, b);
      MulTwice(Pow2(b), Pow2(a - 1));
    }
  }

  /** The powers of two that the kernel's masks and shifts are made of. */
  lemma Pow2Values()
    ensures Pow2(9) == 512 && Pow2(12) == 0x1000 && Pow2(21) == 0x20_0000
    ensures Pow2(30) == 0x4000_0000 && Pow2(39) == 0x80_0000_0000
    ensures Pow2(40) == 0x100_0000_0000
    ensures Pow2(63) == 0x8000_0000_0000_0000 && Pow2(64) == U64_SIZE
  {
    assert Pow2(3) == 8 && Pow2(9) == 512;
    Pow2Adds(9, 3);
    Pow2Adds(9, 12);
    Pow2Adds(9, 21);
    Pow2Adds(9, 30);
    Pow2Adds(1, 39);
    Pow2Adds(21, 21);
    Pow2Adds(21, 42);
    Pow2Adds(1, 63);
  }

  lemma {:induction false} BitOfZero(k: nat)
    ensures !Bit(0, k)
  {
    if k > 0 {
      BitOfZero(k - 1);
    }
  }

  lemma {:induction false} BitOfAnd(a: nat, b: nat, k: nat)
    ensures Bit(And(a, b), k) <==> Bit(a, k) && Bit(b, k)
    decreases k
  {
    if a == 0 {
      BitOfZero(k);
    } else if k > 0 {
      assert And(a, b) / 2 == And(a / 2, b / 2);
      BitOfAnd(a / 2, b / 2, k - 1);
    }
  }

  lemma {:induction false} BitOfOr(a: nat, b: nat, k: nat)
    ensures Bit(Or(a, b), k) <==> Bit(a, k) || Bit(b, k)
    decreases k
  {
    hide Or;
    OrHalves(a, b);
    if a == 0 || b == 0 {
      BitOfZero(k);
    } else if k > 0 {
      BitOfOr(a / 2, b / 2, k - 1);
    }
  }

  lemma OrHalves(a: nat, b: nat)
    ensures a == 0 ==> Or(a, b) == b
    ensures b == 0 ==> Or(a, b) == a
    ensures Or(a, b) / 2 == Or(a / 2, b / 2) && (Or(a, b) % 2 == 1 <==> a % 2 == 1 || b % 2 == 1)
  {
  }

  lemma {:induction false} BitOfPow2(k: nat, j: nat)
    ensures Bit(Pow2(k), j) <==> j == k
    decreases j
  {
    if k == 0 && j > 0 {
      BitOfZero(j - 1);
    } else if j > 0 {
      BitOfPow2(k - 1, j - 1);
    }
  }

  /** Complementing an `n`-bit word flips each of its bits. */
  lemma {:induction false} BitOfNot(w: nat, n: nat, j: nat)
    requires w < Pow2(n) && j < n
    ensures Bit(Pow2(n) - 1 - w, j) <==> !Bit(w, j)
    decreases j
  {
    if j > 0 {
      assert (Pow2(n) - 1 - w) / 2 == Pow2(n - 1) - 1 - w / 2;
      BitOfNot(w / 2, n - 1, j - 1);
    }
  }

  lemma {:induction false} BitOfShift(w: nat, k: nat, j: nat)
    ensures Bit(Shr(w, k), j) <==> Bit(w, k + j)
    decreases k
  {
    if k > 0 {
      BitOfShift(w / 2, k - 1, j);
    }
  }

  lemma {:induction false} MulGrows(d: nat, q: nat, q': nat)
    requires q < q'
    ensures d * q + d <= d * q'
    decreases q'
  {
    if q + 1 < q' {
      MulGrows(d, q, q' - 1);
    }
  }

  /** Quotient and remainder are determined by `w == d * q + r`. */
  lemma DivUnique(w: nat, d: nat, q: nat, r: nat)
    requires r < d && w == d * q + r
    ensures w / d == q && w % d == r
  {
    var q' := w / d;
    assert w == d * q' + w % d;
    if q < q' {
      MulGrows(d, q, q');
    } else if q' < q {
      MulGrows(d, q', q);
    }
  }

  /** Halving commutes with division. */
  lemma HalfDiv(w: nat, d: nat)
    requires d > 0
    ensures w / (2 * d) == w / 2 / d
    ensures w % (2 * d) == 2 * (w / 2 % d) + w % 2
  {
    var q, r := w / 2 / d, w / 2 % d;
    assert w / 2 == d * q + r;
    assert 2 * (d * q) == 2 * d * q;
    DivUnique(w, 2 * d, q, 2 * r + w % 2);
  }

  /** Testing a single-bit mask tests that bit. */
  lemma {:induction false} TestBit(w: nat, k: nat)
    ensures And(w, Pow2(k)) == (if Bit(w, k) then Pow2(k) else 0)
    decreases k
  {
    if w == 0 {
      BitOfZero(k);
    } else if k > 0 {
      TestBit(w / 2, k - 1);
    } else {
      AndZero(w / 2);
    }
  }

  lemma {:induction false} AndZero(w: nat)
    ensures And(w, 0) == 0
  {
    if w > 0 {
      AndZero(w / 2);
    }
  }

  lemma {:induction false} OrBound(a: nat, b: nat, n: nat)
    requires a < Pow2(n) && b < Pow2(n)
    ensures Or(a, b) < Pow2(n)
    decreases n
  {
    if n > 0 && a > 0 && b > 0 {
      OrBound(a / 2, b / 2, n - 1);
    }
  }

  /** The low `k` bits of `w`. */
  function LowBits(w: nat, k: nat): nat
    decreases k
  {
    if k == 0 then 0 else 2 * LowBits(w / 2, k - 1) + w % 2
  }

  /** Masking with `2^k - 1` keeps the low `k` bits. */
  lemma {:induction false} AndLowMask(w: nat, k: nat)
    ensures And(w, Pow2(k) - 1) == LowBits(w, k)
    decreases k
  {
    if k == 0 {
      AndZero(w);
    } else {
      assert (Pow2(k) - 1) / 2 == Pow2(k - 1) - 1 && (Pow2(k) - 1) % 2 == 1;
      AndLowMask(w / 2, k - 1);
    }
  }

  lemma {:induction false} LowBitsIsRemainder(w: nat, k: nat)
    ensures LowBits(w, k) == w % Pow2(k)
    decreases k
  {
    if k > 0 {
      LowBitsIsRemainder(w / 2, k - 1);
      HalfDiv(w, Pow2(k - 1));
    }
  }

  lemma MulTwice(c: nat, p: nat)
    ensures c * (2 * p) == 2 * (c * p)
  {
  }

  lemma {:induction false} ShlIsProduct(c: nat, k: nat)
    ensures Shl(c, k) == c * Pow2(k)
  {
    if k > 0 {
      ShlIsProduct(c, k - 1);
      MulTwice(c, Pow2(k - 1));
    }
  }

  lemma {:induction false} ShrIsQuotient(w: nat, k: nat)
    ensures Shr(w, k) == w / Pow2(k)
    decreases k
  {
    if k > 0 {
      ShrIsQuotient(w / 2, k - 1);
      HalfDiv(w, Pow2(k - 1));
    }
  }

  lemma AndDouble(w: nat, c: nat)
    ensures And(w, 2 * c) == 2 * And(w / 2, c)
  {
    assert 2 * c / 2 == c && 2 * c % 2 == 0;
  }

  /** A mask whose low `k` bits are clear acts on the upper part only. */
  lemma {:induction false} AndShiftedMask(w: nat, c: nat, k: nat)
    ensures And(w, Shl(c, k)) == Shl(And(Shr(w, k), c), k)
    decreases k
  {
    if k > 0 {
      AndDouble(w, Shl(c, k - 1));
      AndShiftedMask(w / 2, c, k - 1);
    }
  }

  /** Or-ing in bits below the lowest set bit is addition. */
  lemma {:induction false} OrDisjoint(a: nat, b: nat, k: nat)
    requires b < Pow2(k)
    ensures Or(Shl(a, k), b) == Shl(a, k) + b
    decreases k
  {
    if k > 0 {
      OrDisjoint(a, b / 2, k - 1);
    }
  }

  /** `trailing_zeros` finds the lowest set bit of a word. */
  lemma {:induction false} TrailingZerosIsLowest(w: nat, n: nat)
    requires 0 < w < Pow2(n)
    ensures TrailingZeros(w) < n
    ensures Bit(w, TrailingZeros(w))
    ensures forall j: nat | j < TrailingZeros(w) :: !Bit(w, j)
  {
    if w % 2 == 0 {
      TrailingZerosIsLowest(w / 2, n - 1);
      forall j: nat | j < TrailingZeros(w) ensures !Bit(w, j) {
        if j > 0 { assert !Bit(w / 2, j - 1); }
      }
    }
  }
}
