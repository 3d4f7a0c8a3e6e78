/** The arithmetic of decoding: powers and masks in wrapping 64-bit arithmetic, the
    reassembly of a register value from its transport words, and what cutting a value into
    bitfields keeps of it. */
module Decode {
  import opened Bits

  const MASK_MAX_BITS: nat := 64

  // ----- power and get_mask -----

  /** Two's complement wrap-around of `long long`. */
  function Wrap64(x: int): i64 {
    var low := x % 0x1_0000_0000_0000_0000;
    if low < 0x8000_0000_0000_0000 then low else low - 0x1_0000_0000_0000_0000
  }

  /** `power`: fast exponentiation in `long long`. */
  function Power(x: int, n: nat): i64 {
    if n == 0 then 1
    else if n % 2 == 0 then
      var m := Power(x, n / 2);
      Wrap64(m * m)
    else
      Wrap64(x * Power(x, n - 1))
  }

  /** `get_mask`. */
  function GetMask(bits: nat): u64 {
    if bits <= MASK_MAX_BITS then Wrap64(Power(2, bits) - 1) % 0x1_0000_0000_0000_0000 else 0
  }

  /** `breakout_applymask`; shifting a 64-bit value by 64 or more is undefined in C. */
  function ApplyMask(value: u64, start: nat, mask: nat): nat
    requires start < 64
  {
    And(Shr(value, start), GetMask(mask))
  }

  /** Plain exponentiation, the reference for `Power`. */
  function Exp(x: int, n: nat): int {
    if n == 0 then 1 else x * Exp(x, n - 1)
  }

  ghost predicate Congruent(a: int, b: int) {
    exists k: int :: a == b + k * 0x1_0000_0000_0000_0000
  }

  lemma WrapCongruent(x: int)
    ensures Congruent(Wrap64(x), x)
  {
    var q := x / 0x1_0000_0000_0000_0000;
    var k := if Wrap64(x) == x % 0x1_0000_0000_0000_0000 then -q else -q - 1;
    assert Wrap64(x) == x + k * 0x1_0000_0000_0000_0000;
  }

  lemma CongruentTrans(a: int, b: int, c: int)
    requires Congruent(a, b) && Congruent(b, c)
    ensures Congruent(a, c)
  {
    var k: int :| a == b + k * 0x1_0000_0000_0000_0000;
    var l: int :| b == c + l * 0x1_0000_0000_0000_0000;
    assert a == c + (k + l) * 0x1_0000_0000_0000_0000;
  }

  lemma CongruentMul(a: int, b: int, c: int, d: int)
    requires Congruent(a, b) && Congruent(c, d)
    ensures Congruent(a * c, b * d)
  {
    var k: int :| a == b + k * 0x1_0000_0000_0000_0000;
    var l: int :| c == d + l * 0x1_0000_0000_0000_0000;
    Expand(b, k, d, l, 0x1_0000_0000_0000_0000);
    assert a * c == b * d + (b * l + k * d + k * l * 0x1_0000_0000_0000_0000) * 0x1_0000_0000_0000_0000;
  }

  lemma Expand(b: int, k: int, d: int, l: int, m: int)
    ensures (b + k * m) * (d + l * m) == b * d + (b * l + k * d + k * l * m) * m
  {
    calc {
      (b + k * m) * (d + l * m);
      b * (d + l * m) + (k * m) * (d + l * m);
      b * d + b * (l * m) + (k * m) * d + (k * m) * (l * m);
      { assert b * (l * m) == (b * l) * m; assert (k * m) * d == (k * d) * m; }
      b * d + (b * l) * m + (k * d) * m + (k * m) * (l * m);
      { assert (k * m) * (l * m) == (k * l * m) * m; }
      b * d + (b * l + k * d + k * l * m) * m;
    }
  }

  lemma {:induction false} ExpAdd(x: int, a: nat, b: nat)
    ensures Exp(x, a + b) == Exp(x, a) * Exp(x, b)
  {
    if a > 0 {
      ExpAdd(x, a - 1, b);
      MulAssoc(x, Exp(x, a - 1), Exp(x, b));
    }
  }

  /** Fast exponentiation with wrap-around is exponentiation modulo 2^64. */
  lemma {:induction false} PowerIsExp(x: int, n: nat)
    ensures Congruent(Power(x, n), Exp(x, n))
  {
    if n == 0 {
      assert Power(x, n) == Exp(x, n) + 0 * 0x1_0000_0000_0000_0000;
    } else if n % 2 == 0 {
      PowerIsExp(x, n / 2);
      ExpAdd(x, n / 2, n / 2);
      WrappedProduct(Power(x, n / 2), Exp(x, n / 2), Power(x, n / 2), Exp(x, n / 2));
    } else {
      PowerIsExp(x, n - 1);
      assert x == x + 0 * 0x1_0000_0000_0000_0000;
      WrappedProduct(x, x, Power(x, n - 1), Exp(x, n - 1));
    }
  }

  lemma WrappedProduct(a: int, b: int, c: int, d: int)
    requires Congruent(a, b) && Congruent(c, d)
    ensures Congruent(Wrap64(a * c), b * d)
  {
    CongruentMul(a, b, c, d);
    WrapCongruent(a * c);
    CongruentTrans(Wrap64(a * c), a * c, b * d);
  }

  lemma {:induction false} ExpTwo(n: nat)
    ensures Exp(2, n) == Pow2(n)
  {
    if n > 0 {
      ExpTwo(n - 1);
    }
  }

  /** Every width from 0 to 64 gives the mask of that many ones, the widths 63 and 64 through
      signed overflow included; a larger width gives the empty mask. */
  lemma MaskValue(bits: nat)
    ensures GetMask(bits) == if bits <= 64 then Pow2(bits) - 1 else 0
  {
    hide Pow2, Power, Exp, Wrap64;
    if bits <= 64 {
      PowerIsExp(2, bits);
      ExpTwo(bits);
      Pow2Values();
      Pow2Monotone(bits, 64);
      CongruentPred(Power(2, bits), Pow2(bits));
      CongruentResidue(Wrap64(Power(2, bits) - 1), Pow2(bits) - 1);
    }
  }

  lemma CongruentPred(a: int, b: int)
    requires Congruent(a, b)
    ensures Congruent(Wrap64(a - 1), b - 1)
  {
    var k: int :| a == b + k * 0x1_0000_0000_0000_0000;
    assert a - 1 == (b - 1) + k * 0x1_0000_0000_0000_0000;
    WrapCongruent(a - 1);
    CongruentTrans(Wrap64(a - 1), a - 1, b - 1);
  }

  lemma CongruentResidue(a: int, b: u64)
    requires Congruent(a, b)
    ensures a % 0x1_0000_0000_0000_0000 == b
  {}

  /** A decoded field is the register value shifted down, modulo two to its width. */
  lemma FieldValue(v: u64, start: nat, width: nat)
    requires start < 64
    ensures ApplyMask(v, start, width) == if width <= 64 then v / Pow2(start) % Pow2(width) else 0
  {
    MaskValue(width);
    if width <= 64 {
      AndLowMask(Shr(v, start), width);
      ShiftIsDivision(v, start);
      ShiftIsDivision(Shr(v, start), width);
    } else {
      assert And(Shr(v, start), 0) == 0;
    }
  }

  // ----- decoding loses nothing -----

  datatype Field = Field(shift: nat, width: nat)

  /** Fields that follow each other without gap or overlap from bit `from` up. */
  ghost predicate ContiguousFrom(fs: seq<Field>, from: nat) {
    && (forall f :: f in fs ==> f.shift < 64)
    && (|fs| > 0 ==> fs[0].shift == from && ContiguousFrom(fs[1..], from + fs[0].width))
  }

  function TotalWidth(fs: seq<Field>): nat {
    if fs == [] then 0 else fs[0].width + TotalWidth(fs[1..])
  }

  /** The sum of the decoded fields, each at its own weight. */
  function Reassemble(v: u64, fs: seq<Field>): nat
    requires forall f :: f in fs ==> f.shift < 64
  {
    if fs == [] then 0
    else
      Shl(ApplyMask(v, fs[0].shift, fs[0].width), fs[0].shift) + Reassemble(v, fs[1..])
  }

  lemma {:induction false} ReassembleFrom(v: u64, fs: seq<Field>, from: nat)
    requires ContiguousFrom(fs, from) && from + TotalWidth(fs) <= 64
    ensures Low(v, from) + Reassemble(v, fs) == Low(v, from + TotalWidth(fs))
  {
    if fs != [] {
      var w := fs[0].width;
      ReassembleFrom(v, fs[1..], from + w);
      MaskValue(w);
      AndLowMask(Shr(v, from), w);
      ShrAdd(v, from, w);
    }
  }

  /** Cutting a register into fields that tile its low `W` bits loses nothing of those bits:
      the decoded fields, put back at their weights, are the value modulo 2^W. */
  lemma LosslessDecode(v: u64, fs: seq<Field>)
    requires ContiguousFrom(fs, 0) && TotalWidth(fs) <= 64
    ensures Reassemble(v, fs) == v % Pow2(TotalWidth(fs))
    ensures TotalWidth(fs) == 64 ==> Reassemble(v, fs) == v
  {
    ReassembleFrom(v, fs, 0);
    ShiftIsDivision(v, TotalWidth(fs));
    if TotalWidth(fs) == 64 {
      Pow2Values();
      SmallShr(v, 64);
    }
  }

  /** Values that differ at most inside field `f`. */
  ghost predicate SameOutside(v: u64, v': u64, f: Field) {
    forall p: nat :: !(f.shift <= p < f.shift + f.width) ==> Bit(v, p) == Bit(v', p)
  }

  ghost predicate Overlap(f: Field, g: Field) {
    f.shift < g.shift + g.width && g.shift < f.shift + f.width
  }

  /** Changing bits inside one field changes no field that does not overlap it. */
  lemma FieldsIndependent(v: u64, v': u64, f: Field, g: Field)
    requires g.shift < 64 && !Overlap(f, g) && SameOutside(v, v', f)
    ensures ApplyMask(v, g.shift, g.width) == ApplyMask(v', g.shift, g.width)
  {
    MaskValue(g.width);
    if g.width <= 64 {
      AndLowMask(Shr(v, g.shift), g.width);
      AndLowMask(Shr(v', g.shift), g.width);
    } else {
      FieldValue(v, g.shift, g.width);
      FieldValue(v', g.shift, g.width);
    }
    forall p: nat | g.shift <= p < g.shift + g.width
      ensures Bit(v, p) == Bit(v', p)
    {
      assert !(f.shift <= p < f.shift + f.width);
    }
    BitsDetermineField(v, v', g.shift, g.width);
  }

  // ----- value_to_long -----

  /** `value_to_long`: one 64-bit word, or two 32-bit words. */
  function ValueToLong(val64: u64, low: u32, high: u32): u64 {
    ConcatWords(low, high);
    if val64 != 0 && low == 0 && high == 0 then val64 else Or(Shl64(high, 32), low)
  }

  /** The two-word form is the plain concatenation. */
  lemma ConcatWords(low: u32, high: u32)
    ensures Or(Shl64(high, 32), low) == high * 0x1_0000_0000 + low < 0x1_0000_0000_0000_0000
  {
    Pow2Values();
    ShlIsProduct(high, 32);
    SmallShr(Shl(high, 32), 64);
    OrDisjoint(high, low, 32);
  }

  /** When decoding recovers a 64-bit word that was stored together with two 32-bit words:
      exactly when the 32-bit words are zero, or happen to spell the same value. */
  lemma LongWordRecovered(val64: u64, low: u32, high: u32)
    ensures ValueToLong(val64, low, high) == val64
       <==> (low == 0 && high == 0) || val64 == high * 0x1_0000_0000 + low
  {
    ConcatWords(low, high);
  }
}
