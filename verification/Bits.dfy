/** Machine integers and the bitwise operators of C, over mathematical integers.

    The operators are defined bit by bit, so that what a shift, a mask or a packed code means
    as a number is a theorem and not a definition. */
module Bits {
  /** `unsigned int`, `unsigned long long` and `long long`. */
  type u32 = x: int | 0 <= x < 0x1_0000_0000
  type u64 = x: int | 0 <= x < 0x1_0000_0000_0000_0000
  type i64 = x: int | -0x8000_0000_0000_0000 <= x < 0x8000_0000_0000_0000

  function Pow2(n: nat): (r: nat)
    ensures r > 0
  {
    if n == 0 then 1 else 2 * Pow2(n - 1)
  }

  /** Bitwise and. */
  function And(a: nat, b: nat): nat {
    if a == 0 || b == 0 then 0 else (a % 2) * (b % 2) + 2 * And(a / 2, b / 2)
  }

  /** Bitwise or. */
  function Or(a: nat, b: nat): nat
    decreases a + b
  {
    if a == 0 then b
    else if b == 0 then a
    else (if a % 2 == 1 || b % 2 == 1 then 1 else 0) + 2 * Or(a / 2, b / 2)
  }

  /** Right shift of an unsigned value. */
  function Shr(a: nat, n: nat): nat {
    if n == 0 then a else Shr(a / 2, n - 1)
  }

  /** Left shift without a word size. */
  function Shl(a: nat, n: nat): nat {
    if n == 0 then a else 2 * Shl(a, n - 1)
  }

  /** The low `n` bits of a value. */
  function Low(a: nat, n: nat): nat {
    if n == 0 then 0 else a % 2 + 2 * Low(a / 2, n - 1)
  }

  /** Left shift of an `unsigned int`: bits that leave the word are dropped. */
  function Shl32(a: u32, n: nat): u32 {
    LowBound(Shl(a, n), 32);
    Pow2Values();
    Low(Shl(a, n), 32)
  }

  /** Left shift of an `unsigned long long`. */
  function Shl64(a: u64, n: nat): u64 {
    LowBound(Shl(a, n), 64);
    Pow2Values();
    Low(Shl(a, n), 64)
  }

  /** Conversion of an `int` to `unsigned int`. */
  function ToUnsigned(x: int): u32 {
    x % 0x1_0000_0000
  }

  /** Bit `p` of `v`. */
  function Bit(v: nat, p: nat): nat {
    Shr(v, p) % 2
  }

  // ----- arithmetic -----

  lemma {:induction false} MulAssoc(a: int, b: int, c: int)
    ensures (a * b) * c == a * (b * c)
  {}

  lemma {:induction false} MulGrows(a: nat, k: nat)
    requires k >= 1
    ensures a <= a * k
  {}

  lemma {:induction false} Pow2Add(a: nat, b: nat)
    ensures Pow2(a + b) == Pow2(a) * Pow2(b)
  {
    if a > 0 {
      Pow2Add(a - 1, b);
      MulAssoc(2, Pow2(a - 1), Pow2(b));
    }
  }

  lemma {:induction false} Pow2Monotone(a: nat, b: nat)
    requires a <= b
    ensures Pow2(a) <= Pow2(b)
  {
    if a < b {
      Pow2Monotone(a, b - 1);
    }
  }

  /** The powers that are word and field widths. */
  lemma Pow2Values()
    ensures Pow2(0) == 1 && Pow2(1) == 2 && Pow2(5) == 32 && Pow2(11) == 0x800 && Pow2(16) == 0x1_0000
    ensures Pow2(27) == 0x800_0000 && Pow2(32) == 0x1_0000_0000
    ensures Pow2(63) == 0x8000_0000_0000_0000 && Pow2(64) == 0x1_0000_0000_0000_0000
  {
    assert Pow2(3) == 8 by { assert Pow2(2) == 4; }
    assert Pow2(5) == 32 by { assert Pow2(4) == 16; }
    Pow2Add(5, 3);
    Pow2Add(8, 3);
    Pow2Add(11, 5);
    Pow2Add(16, 11);
    Pow2Add(27, 5);
    Pow2Add(32, 32);
  }

  /** Quotient and remainder are determined by the division equation. */
  lemma DivUnique(x: int, d: int, q: int, r: int)
    requires d > 0 && 0 <= r < d && x == q * d + r
    ensures x / d == q && x % d == r
  {
    var q', r' := x / d, x % d;
    assert (q - q') * d == r' - r;
    if q > q' {
      MulGrows(d, q - q');
    } else if q < q' {
      MulGrows(d, q' - q);
    }
  }

  // ----- shifts and low bits -----

  lemma {:induction false} LowBound(v: nat, n: nat)
    ensures Low(v, n) < Pow2(n)
  {
    if n > 0 {
      LowBound(v / 2, n - 1);
    }
  }

  lemma {:induction false} ShlIsProduct(v: nat, n: nat)
    ensures Shl(v, n) == v * Pow2(n)
  {
    if n > 0 {
      ShlIsProduct(v, n - 1);
      MulAssoc(2, v, Pow2(n - 1));
      MulAssoc(v, 2, Pow2(n - 1));
    }
  }

  /** A value is its high part and its low part. */
  lemma {:induction false} ShrLow(v: nat, n: nat)
    ensures v == Shl(Shr(v, n), n) + Low(v, n)
  {
    if n > 0 {
      ShrLow(v / 2, n - 1);
    }
  }

  /** Shifting and masking are quotient and remainder. */
  lemma ShiftIsDivision(v: nat, n: nat)
    ensures Shr(v, n) == v / Pow2(n) && Low(v, n) == v % Pow2(n)
  {
    ShrLow(v, n);
    ShlIsProduct(Shr(v, n), n);
    LowBound(v, n);
    DivUnique(v, Pow2(n), Shr(v, n), Low(v, n));
  }

  /** Shifting twice; the low `a + b` bits are the low `a` bits and the next `b`. */
  lemma {:induction false} ShrAdd(v: nat, a: nat, b: nat)
    ensures Shr(v, a + b) == Shr(Shr(v, a), b)
    ensures Low(v, a + b) == Low(v, a) + Shl(Low(Shr(v, a), b), a)
  {
    if a > 0 {
      ShrAdd(v / 2, a - 1, b);
    }
  }

  lemma {:induction false} ShlAdd(v: nat, a: nat, b: nat)
    ensures Shl(v, a + b) == Shl(Shl(v, a), b)
  {
    if b > 0 {
      ShlAdd(v, a, b - 1);
    }
  }

  /** A value built from a high part and `n` low bits decomposes into them. */
  lemma {:induction false} Compose(hi: nat, lo: nat, n: nat)
    requires lo < Pow2(n)
    ensures Shr(Shl(hi, n) + lo, n) == hi
    ensures Low(Shl(hi, n) + lo, n) == lo
  {
    if n > 0 {
      Compose(hi, lo / 2, n - 1);
    }
  }

  /** What is left of a shifted value in a word of `n + w` bits. */
  lemma ShiftInWord(x: nat, n: nat, w: nat)
    ensures Low(Shl(x, n), n + w) == Shl(Low(x, w), n)
    ensures Shr(Low(Shl(x, n), n + w), n) == Low(x, w)
    ensures Low(Low(Shl(x, n), n + w), n) == 0
  {
    Compose(x, 0, n);
    ShrAdd(Shl(x, n), n, w);
    Compose(Low(x, w), 0, n);
  }

  /** A value fits in `n` bits exactly when nothing is left above them. */
  lemma {:induction false} SmallShr(v: nat, n: nat)
    ensures v < Pow2(n) <==> Shr(v, n) == 0
    ensures v < Pow2(n) ==> Low(v, n) == v
  {
    if n > 0 {
      SmallShr(v / 2, n - 1);
    }
  }

  // ----- bitwise operators -----

  /** And with a mask of `w` ones keeps the low `w` bits. */
  lemma {:induction false} AndLowMask(v: nat, w: nat)
    ensures And(v, Pow2(w) - 1) == Low(v, w)
  {
    if w > 0 {
      assert (Pow2(w) - 1) / 2 == Pow2(w - 1) - 1 && (Pow2(w) - 1) % 2 == 1;
      AndLowMask(v / 2, w - 1);
      LowOfZero(w);
    }
  }

  lemma {:induction false} LowOfZero(n: nat)
    ensures Low(0, n) == 0 && Shr(0, n) == 0
  {
    if n > 0 {
      LowOfZero(n - 1);
    }
  }

  /** And with a single-bit mask is that bit, in place. */
  lemma {:induction false} AndBit(v: nat, p: nat)
    ensures And(v, Pow2(p)) == (if Bit(v, p) == 1 then Pow2(p) else 0)
  {
    if p == 0 {
      assert And(v / 2, 0) == 0;
    } else {
      AndBit(v / 2, p - 1);
      LowOfZero(p);
    }
  }

  /** Or works separately on the bits above any position. */
  lemma {:induction false} OrShr(x: nat, y: nat, n: nat)
    ensures Shr(Or(x, y), n) == Or(Shr(x, n), Shr(y, n))
  {
    if x == 0 || y == 0 {
      LowOfZero(n);
    } else if n > 0 {
      OrShr(x / 2, y / 2, n - 1);
      assert Or(x, y) / 2 == Or(x / 2, y / 2);
    }
  }

  /** Or works separately on the bits below any position. */
  lemma {:induction false} OrLow(x: nat, y: nat, n: nat)
    ensures Low(Or(x, y), n) == Or(Low(x, n), Low(y, n))
  {
    if x == 0 || y == 0 {
      LowOfZero(n);
    } else if n > 0 {
      OrLow(x / 2, y / 2, n - 1);
      assert Or(x, y) / 2 == Or(x / 2, y / 2);
      OrStep(Low(x, n), Low(y, n));
    }
  }

  /** One unrolling of `Or`, zero operands included. */
  lemma {:induction false} OrStep(a: nat, b: nat)
    ensures Or(a, b) == (if a % 2 == 1 || b % 2 == 1 then 1 else 0) + 2 * Or(a / 2, b / 2)
  {
    if a == 0 {
      assert Or(0, b) == b && Or(0, b / 2) == b / 2;
    } else if b == 0 {
      assert Or(a, 0) == a && Or(a / 2, 0) == a / 2;
    }
  }

  /** Or of values with no overlapping bits is their sum. */
  lemma {:induction false} OrDisjoint(hi: nat, lo: nat, n: nat)
    requires lo < Pow2(n)
    ensures Or(Shl(hi, n), lo) == Shl(hi, n) + lo
  {
    Compose(hi, 0, n);
    OrShr(Shl(hi, n), lo, n);
    OrLow(Shl(hi, n), lo, n);
    SmallShr(lo, n);
    ShrLow(Or(Shl(hi, n), lo), n);
  }

  /** The same, with an upper operand that has bits of its own. */
  lemma {:induction false} OrAbove(hi: nat, x: nat, n: nat)
    ensures Shr(Or(Shl(hi, n), x), n) == Or(hi, Shr(x, n))
    ensures Low(Or(Shl(hi, n), x), n) == Low(x, n)
  {
    Compose(hi, 0, n);
    OrShr(Shl(hi, n), x, n);
    OrLow(Shl(hi, n), x, n);
  }

  /** Or fits in the width its operands fit in. */
  lemma {:induction false} OrBound(a: nat, b: nat, n: nat)
    requires a < Pow2(n) && b < Pow2(n)
    ensures Or(a, b) < Pow2(n)
  {
    OrShr(a, b, n);
    SmallShr(a, n);
    SmallShr(b, n);
    SmallShr(Or(a, b), n);
  }

  /** Or never loses bits and so never gets smaller. */
  lemma {:induction false} OrLower(a: nat, b: nat)
    ensures Or(a, b) >= a && Or(a, b) >= b
    decreases a + b
  {
    if a != 0 && b != 0 {
      OrLower(a / 2, b / 2);
    }
  }

  /** Numbers that agree on `w` bits from position `s` agree as extracted fields. */
  lemma {:induction false} BitsDetermineField(v: nat, v': nat, s: nat, w: nat)
    requires forall p :: s <= p < s + w ==> Bit(v, p) == Bit(v', p)
    ensures Low(Shr(v, s), w) == Low(Shr(v', s), w)
    decreases w
  {
    if w > 0 {
      BitsDetermineField(v, v', s + 1, w - 1);
      ShrAdd(v, s, 1);
      ShrAdd(v', s, 1);
      assert Bit(v, s) == Bit(v', s);
    }
  }
}
