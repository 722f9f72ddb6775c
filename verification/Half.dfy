/** Decoding 16-bit floats: `f16_to_float` (`kernel/tensor.c`, lines 19-49) and `f16_to_float_fast` (`kernel/llm.c`,
    lines 932-957), which are the same steps. Formats as in IEEE 754. */
module Half {
  import opened Bytes

  function Pow2(k: nat): (p: nat)
    ensures p > 0
  {
    if k == 0 then 1 else 2 * Pow2(k - 1)
  }

  // ---- What the bits mean ----

  function HalfSign(h: u16): nat { h / 0x8000 % 2 }

  function HalfExp(h: u16): nat { h / 0x400 % 32 }

  function HalfMant(h: u16): nat { h % 0x400 }

  /** The magnitude in units of 2^-24, the smallest one there is. */
  function HalfUnits(h: u16): nat {
    if HalfExp(h) == 0 then HalfMant(h) else (0x400 + HalfMant(h)) * Pow2(HalfExp(h) - 1)
  }

  function SingleSign(b: u32): nat { b / 0x8000_0000 % 2 }

  function SingleExp(b: u32): nat { b / 0x80_0000 % 256 }

  function SingleMant(b: u32): nat { b % 0x80_0000 }

  /** The magnitude in units of 2^-149. */
  function SingleUnits(b: u32): nat {
    if SingleExp(b) == 0 then SingleMant(b) else (0x80_0000 + SingleMant(b)) * Pow2(SingleExp(b) - 1)
  }

  /** `b` is the same number as `h`: sign and magnitude, or infinite, or not a number with the same payload. */
  ghost predicate Same(h: u16, b: u32) {
    && SingleSign(b) == HalfSign(h)
    && (HalfExp(h) < 31 ==> SingleExp(b) < 255 && SingleUnits(b) == HalfUnits(h) * Pow2(125))
    && (HalfExp(h) == 31 ==> SingleExp(b) == 255 && SingleMant(b) == 0x2000 * HalfMant(h))
  }

  // ---- The conversion ----

  /** Putting the three fields together. */
  function Bits(sign: nat, exp: nat, mant: nat): (b: u32)
    requires sign < 2 && exp < 256 && mant < 0x400
    ensures SingleSign(b) == sign && SingleExp(b) == exp && SingleMant(b) == 0x2000 * mant
  {
    0x8000_0000 * sign + 0x80_0000 * exp + 0x2000 * mant
  }

  lemma {:induction false} PowSum(m: nat, n: nat)
    ensures Pow2(m + n) == Pow2(m) * Pow2(n)
  {
    if m > 0 {
      PowSum(m - 1, n);
      assert Pow2(m + n) == 2 * Pow2(m - 1 + n);
    }
  }

  /** A significand of eleven bits and its exponent, in units of 2^-149. */
  lemma Scaled(sig: nat, e: nat)
    requires 0x400 <= sig < 0x800 && 1 <= e
    ensures (0x80_0000 + 0x2000 * (sig - 0x400)) * Pow2(e - 1) == sig * Pow2(e + 12)
  {
    PowSum(13, e - 1);
    assert Pow2(13) == 0x2000 by { assert Pow2(5) == 32 && Pow2(10) == 32 * 32 by { PowSum(5, 5); } PowSum(10, 3); }
    assert 0x80_0000 + 0x2000 * (sig - 0x400) == 0x2000 * sig;
    Regroup(sig, Pow2(13), Pow2(e - 1));
  }

  lemma Regroup(a: nat, b: nat, c: nat)
    ensures b * a * c == a * (b * c)
  {
  }

  method Decode(h: u16) returns (bits: u32)
    ensures Same(h, bits)
  {
    var sign, exp, mant := h / 0x8000 % 2, h / 0x400 % 32, h % 0x400;
    if exp == 0 {
      if mant == 0 { return Bits(sign, 0, 0); }
      bits := Subnormal(sign, mant);
    } else if exp == 31 {
      bits := Bits(sign, 255, mant);
    } else {
      bits := Bits(sign, exp + 112, mant);
      Scaled(0x400 + mant, exp + 112);
      PowSum(exp - 1, 125);
      Assoc(0x400 + mant, Pow2(exp - 1), Pow2(125));
    }
  }

  lemma Assoc(a: nat, b: nat, c: nat)
    ensures a * (b * c) == a * b * c
  {
  }

  /** Normalising: the significand is doubled until its leading bit stands where it is implied. */
  method Subnormal(sign: nat, mant0: nat) returns (bits: u32)
    requires sign < 2 && 0 < mant0 < 0x400
    ensures SingleSign(bits) == sign && SingleExp(bits) < 255 && SingleUnits(bits) == mant0 * Pow2(125)
  {
    var exp, mant := 113, mant0;
    while mant / 0x400 % 2 == 0
      invariant 0 < mant < 0x800 && 1 <= exp <= 113 && mant * Pow2(exp + 12) == mant0 * Pow2(125)
      invariant mant >= Pow2(113 - exp)
      decreases 0x800 - mant
    {
      Doubled(mant, exp + 12);
      if exp == 1 { TooMany(mant); }
      mant, exp := 2 * mant, exp - 1;
    }
    bits := Bits(sign, exp, mant % 0x400);
    Scaled(mant, exp);
  }

  lemma Doubled(m: nat, k: nat)
    requires k > 0
    ensures 2 * m * Pow2(k - 1) == m * Pow2(k)
  {
    Regroup(m, 2, Pow2(k - 1));
  }

  lemma TooMany(mant: nat)
    requires mant >= Pow2(112)
    ensures mant >= 0x400
  {
    PowOrder(5, 112);
    PowSum(5, 107);
    PowOrder(5, 107);
    assert Pow2(5) == 32;
    AtLeastProduct(Pow2(107));
  }

  lemma AtLeastProduct(p: nat)
    requires p >= 32
    ensures 32 * p >= 0x400
  {
  }

  // ---- The number determines the bits ----

  lemma {:induction false} PowOrder(m: nat, n: nat)
    requires m <= n
    ensures Pow2(m) <= Pow2(n)
    decreases n
  {
    if m < n { PowOrder(m, n - 1); }
  }

  /** A larger exponent is a larger number. */
  lemma UnitsOrder(b: u32, c: u32)
    requires SingleExp(b) < SingleExp(c)
    ensures SingleUnits(b) < SingleUnits(c)
  {
    var e, f := SingleExp(b), SingleExp(c);
    var top := if e == 0 then 1 else Pow2(e);
    PowOrder(if e == 0 then 0 else e, f - 1);
    assert SingleUnits(b) < 0x80_0000 * top by { if e > 0 { Below(SingleMant(b), Pow2(e - 1)); } }
    AtLeast(SingleMant(c), Pow2(f - 1), top);
  }

  lemma Below(m: nat, p: nat)
    requires m < 0x80_0000 && p > 0
    ensures (0x80_0000 + m) * p < 0x80_0000 * (2 * p)
  {
  }

  lemma AtLeast(m: nat, p: nat, top: nat)
    requires top <= p
    ensures 0x80_0000 * top <= (0x80_0000 + m) * p
  {
    assert 0x80_0000 * top <= 0x80_0000 * p <= (0x80_0000 + m) * p;
  }

  /** So every decoder that keeps the number gives the same bits, and the two in the kernel are interchangeable. */
  lemma SameBits(h: u16, b: u32, c: u32)
    requires Same(h, b) && Same(h, c)
    ensures b == c
  {
    if SingleExp(b) < SingleExp(c) { UnitsOrder(b, c); }
    if SingleExp(c) < SingleExp(b) { UnitsOrder(c, b); }
    if SingleExp(b) != 0 && HalfExp(h) < 31 {
      Cancel(0x80_0000 + SingleMant(b), 0x80_0000 + SingleMant(c), Pow2(SingleExp(b) - 1));
    }
    Fields(b, c);
  }

  lemma Cancel(a: nat, b: nat, p: nat)
    requires p > 0 && a * p == b * p
    ensures a == b
  {
    assert (a - b) * p == 0;
  }

  lemma Fields(b: u32, c: u32)
    requires SingleSign(b) == SingleSign(c) && SingleExp(b) == SingleExp(c) && SingleMant(b) == SingleMant(c)
    ensures b == c
  {
  }

  // ---- Values ----

  predicate Finite(h: u16) {
    HalfExp(h) < 31
  }

  function Signed(sign: nat, x: real): real {
    if sign == 0 then x else -x
  }

  function Value(h: u16): real
    requires Finite(h)
  {
    Signed(HalfSign(h), HalfUnits(h) as real / Pow2(24) as real)
  }

  function SingleValue(b: u32): real
    requires SingleExp(b) < 255
  {
    Signed(SingleSign(b), SingleUnits(b) as real / Pow2(149) as real)
  }

  /** The scale is fixed by the number 1, and the top bit negates. */
  lemma OneIs(h: u16)
    requires h == 0x3C00
    ensures Finite(h) && Value(h) == 1.0
  {
    assert HalfExp(h) == 15;
    OneUnits(h);
    Whole(HalfUnits(h), Pow2(24));
  }

  lemma OneUnits(h: u16)
    requires h == 0x3C00
    ensures HalfUnits(h) == Pow2(24)
  {
    Pow2Ten();
    PowSum(10, 14);
    assert HalfExp(h) == 15 && HalfMant(h) == 0;
  }

  lemma Pow2Ten()
    ensures Pow2(10) == 1024
  {
    assert Pow2(5) == 32;
    PowSum(5, 5);
  }

  lemma Whole(x: nat, y: nat)
    requires x == y > 0
    ensures x as real / y as real == 1.0
  {
  }

  lemma Negated(h: u16)
    requires Finite(h) && h < 0x8000
    ensures Value(h) >= 0.0 && Finite(h + 0x8000) && Value(h + 0x8000) == -Value(h)
  {
    var n := h + 0x8000;
    assert n / 0x400 == h / 0x400 + 32;
    assert HalfExp(n) == HalfExp(h) && HalfMant(n) == HalfMant(h) && HalfSign(n) == 1 && HalfSign(h) == 0;
  }

  /** The 32-bit float a decoder makes of a finite number has its value. */
  lemma DecodedValue(h: u16, b: u32)
    requires Same(h, b) && Finite(h)
    ensures SingleValue(b) == Value(h)
  {
    PowSum(24, 125);
    Ratio(HalfUnits(h), Pow2(24), Pow2(125));
  }

  lemma Ratio(x: nat, y: nat, k: nat)
    requires y > 0 && k > 0
    ensures (x * k) as real / (y * k) as real == x as real / y as real
  {
    var a, b, c := x as real, y as real, k as real;
    assert (x * k) as real == a * c && (y * k) as real == b * c;
    Cancelled(a, b, c);
  }

  lemma Cancelled(a: real, b: real, c: real)
    requires b > 0.0 && c > 0.0
    ensures a * c / (b * c) == a / b
  {
    var q := a / b;
    assert a == q * b;
    assert a * c == q * (b * c) by { assert q * b * c == q * (b * c); }
  }

  /** `f` gives every finite 16-bit float the value its decoder does. */
  ghost predicate Decodes(f: nat -> real) {
    forall h: u16 {:trigger f(h)} :: Finite(h) ==> f(h) == Value(h)
  }

  function Exact(h: nat): real {
    if h < 0x1_0000 && Finite(h) then Value(h) else 0.0
  }

  /** There is such an `f`. */
  lemma ExactDecodes()
    ensures Decodes(Exact)
  {
  }
}
