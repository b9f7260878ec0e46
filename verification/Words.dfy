// 32-bit machine words as mathematical integers: wrapping, shifting and
// bitwise operations, and the binary64 layout of section 3.4 of IEEE 754-2008.
module Words {

  type u32 = x: int | 0 <= x < 0x1_0000_0000
  type i32 = x: int | -0x8000_0000 <= x < 0x8000_0000

  // Conversion to unsigned int: reduction modulo 2^32 (a value in range is kept).
  function ToU32(x: int): u32 {
    if 0 <= x < 0x1_0000_0000 then x else x % 0x1_0000_0000
  }

  // Conversion to int: two's complement (a value in range is kept).
  function ToI32(x: int): i32 {
    if -0x8000_0000 <= x < 0x8000_0000 then x
    else (x + 0x8000_0000) % 0x1_0000_0000 - 0x8000_0000
  }

  function Pow2(n: nat): (p: nat)
    ensures p > 0
  {
    if n == 0 then 1 else 2 * Pow2(n - 1)
  }

  // x << n on a 32-bit word; bits shifted out are lost.
  function Shl(x: u32, n: nat): u32 {
    (x * Pow2(n)) % 0x1_0000_0000
  }

  // x >> n on an unsigned word.
  function Shr(x: u32, n: nat): u32
  {
    DivLe(x, Pow2(n));
    x / Pow2(n)
  }

  function And(x: nat, y: nat): nat {
    if x == 0 || y == 0 then 0
    else 2 * And(x / 2, y / 2) + (if x % 2 == 1 && y % 2 == 1 then 1 else 0)
  }

  function Or(x: nat, y: nat): nat {
    if x == 0 && y == 0 then 0
    else 2 * Or(x / 2, y / 2) + (if x % 2 == 1 || y % 2 == 1 then 1 else 0)
  }

  // ---- powers of two

  lemma {:induction false} Pow2Add(a: nat, b: nat)
    ensures Pow2(a + b) == Pow2(a) * Pow2(b)
  {
    if a == 0 {
    } else {
      Pow2Add(a - 1, b);
    }
  }

  lemma {:induction false} Pow2Mono(a: nat, b: nat)
    requires a <= b
    ensures Pow2(a) <= Pow2(b)
  {
    if a < b {
      Pow2Mono(a, b - 1);
    }
  }

  lemma Pow2Below(a: nat, b: nat)
    requires Pow2(a) < Pow2(b)
    ensures a < b
  {
    if b <= a {
      Pow2Mono(b, a);
    }
  }

  // Multiplication as a named function, so that a proof about words can hide it.
  ghost function Times(a: int, b: int): int {
    a * b
  }

  lemma TimesTwo(x: int, p: int)
    ensures Times(x, 2 * p) == 2 * Times(x, p)
  {}

  lemma TimesGe(a: int, b: int)
    requires a >= 1 && b >= 0
    ensures Times(a, b) >= b
  {
    MulGe(a, b);
  }

  lemma Pow2Values()
    ensures Pow2(10) == 0x400 && Pow2(11) == 0x800
    ensures Pow2(20) == 0x10_0000 && Pow2(21) == 0x20_0000
    ensures Pow2(31) == 0x8000_0000 && Pow2(32) == 0x1_0000_0000
    ensures Pow2(52) == 0x10_0000_0000_0000 && Pow2(53) == 0x20_0000_0000_0000
    ensures Pow2(54) == 0x40_0000_0000_0000
  {
    Pow2Add(10, 10);
    Pow2Add(20, 11);
    Pow2Add(20, 32);
  }

  lemma MulGe(a: int, b: int)
    requires a >= 1 && b >= 0
    ensures a * b >= b
  {
    assert (a - 1) * b >= 0;
  }

  lemma QuotientUnique(d: int, q: int, r: int, q2: int, r2: int)
    requires d > 0 && 0 <= r < d && 0 <= r2 < d && q * d + r == q2 * d + r2
    ensures q == q2 && r == r2
  {
    assert (q - q2) * d == r2 - r;
    if q > q2 {
      MulGe(q - q2, d);
    } else if q < q2 {
      MulGe(q2 - q, d);
    }
  }

  lemma PositiveFactor(a: int, w: int)
    requires w > 0 && a * w > 0
    ensures a > 0
  {}

  lemma DivModUnique(x: int, d: int, q: int, r: int)
    requires d > 0 && 0 <= r < d && x == q * d + r
    ensures x / d == q && x % d == r
  {
    QuotientUnique(d, q, r, x / d, x % d);
  }

  lemma DivLe(x: nat, d: nat)
    requires d > 0
    ensures 0 <= x / d <= x
  {
    var q := x / d;
    assert x == d * q + x % d && q >= 0;
    MulGe(d, q);
  }

  lemma ShrOne(r: u32)
    ensures Shr(r, 1) == r / 2
  {
    assert Pow2(1) == 2;
  }

  // x <<= 1 on an int that stays below the sign bit.
  lemma ShlOne(x: i32)
    requires 0 <= x < 0x4000_0000
    ensures ToI32(Shl(ToU32(x), 1)) == 2 * x
  {
    assert Pow2(1) == 2;
  }

  // Reading an int back as unsigned.
  lemma SameWord(x: u32)
    ensures ToU32(ToI32(x)) == x && ToU32(x) == x
  {}

  // The two halves of a word moved left by i, as a 64-bit number.
  lemma ShiftSplit(x: u32, i: nat)
    requires 0 < i <= 32
    ensures 0 <= Shr(x, 32 - i) < Pow2(i)
    ensures Shr(x, 32 - i) * 0x1_0000_0000 + Shl(x, i) == x * Pow2(i)
  {
    Pow2Add(32 - i, i);
    Pow2Values();
    hide Pow2;
    ShiftProduct(x, Pow2(32 - i), Pow2(i));
  }

  lemma ShiftProduct(x: int, d: int, p: int)
    requires d > 0 && p > 0 && d * p == 0x1_0000_0000 && 0 <= x < 0x1_0000_0000
    ensures 0 <= x / d < p && (x / d) * 0x1_0000_0000 + (x * p) % 0x1_0000_0000 == x * p
  {
    var a, b := x / d, x % d;
    assert x == d * a + b && 0 <= b < d;
    ShiftParts(x, d, p, a, b);
    DivModUnique(x * p, 0x1_0000_0000, a, b * p);
  }

  lemma ShiftParts(x: int, d: int, p: int, a: int, b: int)
    requires d > 0 && p > 0 && d * p == 0x1_0000_0000 && 0 <= x < 0x1_0000_0000
    requires x == d * a + b && 0 <= b < d
    ensures x * p == a * 0x1_0000_0000 + b * p
    ensures 0 <= b * p < 0x1_0000_0000 && a < p
  {
    assert (d * a) * p == a * (d * p);
    assert x * p == (d * a) * p + b * p;
    assert (d - b) * p > 0 && b * p >= 0;
    assert (d - b) * p == d * p - b * p;
    assert (p - a) * d == p * d - d * a;
    PositiveFactor(p - a, d);
  }

  // The weight of a moving bit: a power of two, halved at each step.
  ghost predicate IsPow2(w: nat) {
    exists j: nat :: Pow2(j) == w
  }

  lemma HalvePow2(w: nat)
    requires IsPow2(w)
    ensures w == 1 || (w % 2 == 0 && IsPow2(w / 2))
  {
    var j: nat :| Pow2(j) == w;
    if j > 0 {
      assert Pow2(j) == 2 * Pow2(j - 1);
      assert Pow2(j - 1) == w / 2;
    }
  }

  // ---- bitwise operations, one block of low bits at a time

  lemma AndStep(x: nat, y: nat)
    ensures And(x, y) == 2 * And(x / 2, y / 2) + (if x % 2 == 1 && y % 2 == 1 then 1 else 0)
  {}

  lemma OrStep(x: nat, y: nat)
    ensures Or(x, y) == 2 * Or(x / 2, y / 2) + (if x % 2 == 1 || y % 2 == 1 then 1 else 0)
  {}

  // a * 2^k by repeated doubling, which keeps the proofs below linear.
  function Scaled(a: nat, k: nat): nat {
    if k == 0 then a else 2 * Scaled(a, k - 1)
  }

  lemma ScaledIsProduct(a: nat, k: nat)
    ensures Scaled(a, k) == a * Pow2(k)
  {}

  lemma AndCarry(a: nat, b: nat, c: nat, d: nat, g: nat)
    requires And(a + b / 2, c + d / 2) == g + And(b / 2, d / 2)
    ensures And(2 * a + b, 2 * c + d) == 2 * g + And(b, d)
  {
    AndStep(2 * a + b, 2 * c + d);
    AndStep(b, d);
  }

  lemma OrCarry(a: nat, b: nat, c: nat, d: nat, g: nat)
    requires Or(a + b / 2, c + d / 2) == g + Or(b / 2, d / 2)
    ensures Or(2 * a + b, 2 * c + d) == 2 * g + Or(b, d)
  {
    OrStep(2 * a + b, 2 * c + d);
    OrStep(b, d);
  }

  lemma {:induction false} AndScaled(a: nat, b: nat, c: nat, d: nat, k: nat)
    requires b < Pow2(k) && d < Pow2(k)
    ensures And(Scaled(a, k) + b, Scaled(c, k) + d) == Scaled(And(a, c), k) + And(b, d)
  {
    if k == 0 {
    } else {
      hide And;
      AndScaled(a, b / 2, c, d / 2, k - 1);
      AndCarry(Scaled(a, k - 1), b, Scaled(c, k - 1), d, Scaled(And(a, c), k - 1));
    }
  }

  lemma AndSplit(a: nat, b: nat, c: nat, d: nat, k: nat)
    requires b < Pow2(k) && d < Pow2(k)
    ensures And(a * Pow2(k) + b, c * Pow2(k) + d) == And(a, c) * Pow2(k) + And(b, d)
  {
    AndScaled(a, b, c, d, k);
    ScaledIsProduct(a, k);
    ScaledIsProduct(c, k);
    ScaledIsProduct(And(a, c), k);
  }

  lemma {:induction false} OrScaled(a: nat, b: nat, c: nat, d: nat, k: nat)
    requires b < Pow2(k) && d < Pow2(k)
    ensures Or(Scaled(a, k) + b, Scaled(c, k) + d) == Scaled(Or(a, c), k) + Or(b, d)
  {
    if k == 0 {
    } else {
      hide Or;
      OrScaled(a, b / 2, c, d / 2, k - 1);
      OrCarry(Scaled(a, k - 1), b, Scaled(c, k - 1), d, Scaled(Or(a, c), k - 1));
    }
  }

  lemma OrSplit(a: nat, b: nat, c: nat, d: nat, k: nat)
    requires b < Pow2(k) && d < Pow2(k)
    ensures Or(a * Pow2(k) + b, c * Pow2(k) + d) == Or(a, c) * Pow2(k) + Or(b, d)
  {
    OrScaled(a, b, c, d, k);
    ScaledIsProduct(a, k);
    ScaledIsProduct(c, k);
    ScaledIsProduct(Or(a, c), k);
  }

  lemma OrZero(x: nat)
    ensures Or(x, 0) == x && Or(0, x) == x
  {}

  lemma AndZero(x: nat)
    ensures And(x, 0) == 0 && And(0, x) == 0
  {}

  lemma AndOne(x: nat)
    ensures And(x, 1) == x % 2
  {
    AndStep(x, 1);
  }

  lemma AndSymmetric(x: nat, y: nat)
    ensures And(x, y) == And(y, x)
  {}

  lemma OrIsZero(x: nat, y: nat)
    ensures Or(x, y) == 0 <==> x == 0 && y == 0
  {}

  lemma OrGe(x: nat, y: nat)
    ensures Or(x, y) >= x && Or(x, y) >= y
  {}

  lemma {:induction false} OrBound(x: nat, y: nat, k: nat)
    requires x < Pow2(k) && y < Pow2(k)
    ensures Or(x, y) < Pow2(k)
    decreases k
  {
    if k == 0 {
    } else {
      OrBound(x / 2, y / 2, k - 1);
      OrStep(x, y);
    }
  }

  // Bits that do not overlap: "or" is addition.
  lemma {:induction false} OrDisjoint(a: nat, b: nat, k: nat)
    requires b < Pow2(k)
    ensures Or(a * Pow2(k), b) == a * Pow2(k) + b
    ensures Or(b, a * Pow2(k)) == a * Pow2(k) + b
  {
    hide Or, Pow2;
    OrSplit(a, 0, 0, b, k);
    OrSplit(0, b, a, 0, k);
    OrZero(a);
    OrZero(b);
  }

  lemma {:induction false} AndOnes(b: nat, k: nat)
    requires b < Pow2(k)
    ensures And(b, Pow2(k) - 1) == b && And(Pow2(k) - 1, b) == b
  {
    if k == 0 {
    } else {
      AndOnes(b / 2, k - 1);
      AndStep(b, Pow2(k) - 1);
      AndStep(Pow2(k) - 1, b);
    }
  }

  // "and" with k low ones keeps the low k bits.
  lemma {:induction false} AndLow(a: nat, b: nat, k: nat)
    requires b < Pow2(k)
    ensures And(a * Pow2(k) + b, Pow2(k) - 1) == b
  {
    hide And, Pow2;
    AndSplit(a, b, 0, Pow2(k) - 1, k);
    AndOnes(b, k);
    AndZero(a);
  }

  // "and" with a single bit tests that bit.
  lemma {:induction false} AndBit(a: nat, b: nat, k: nat)
    requires b < Pow2(k)
    ensures And(a * Pow2(k) + b, Pow2(k)) == (a % 2) * Pow2(k)
  {
    hide And, Pow2;
    AndSplit(a, b, 1, 0, k);
    AndOne(a);
    AndZero(b);
  }

  lemma ExponentMask(x: u32)
    ensures And(x, 0x7ff0_0000) == ((x / 0x10_0000) % 0x800) * 0x10_0000
  {
    hide And, Pow2;
    Pow2Values();
    var s: nat, f: nat := x / 0x10_0000, x % 0x10_0000;
    AndSplit(s, f, 0x7ff, 0, 20);
    AndZero(f);
    AndLow(s / 0x800, s % 0x800, 11);
  }

  lemma SignMask(x: u32)
    ensures And(x, 0x7fff_ffff) == x % 0x8000_0000
  {
    hide And, Pow2;
    Pow2Values();
    AndLow(x / 0x8000_0000, x % 0x8000_0000, 31);
  }

  lemma Bit20(x: nat)
    ensures And(x, 0x10_0000) == ((x / 0x10_0000) % 2) * 0x10_0000
  {
    hide And, Pow2;
    Pow2Values();
    AndBit(x / 0x10_0000, x % 0x10_0000, 20);
  }

  // ---- binary64

  datatype Double = Double(hi: u32, lo: u32) {
    predicate Negative() { hi >= 0x8000_0000 }
    function Exponent(): nat { (hi / 0x10_0000) % 0x800 }
    function Fraction(): nat { (hi % 0x10_0000) * 0x1_0000_0000 + lo }
    predicate Finite() { Exponent() < 0x7ff }
    predicate IsInf() { Exponent() == 0x7ff && Fraction() == 0 }
    predicate IsNaN() { Exponent() == 0x7ff && Fraction() != 0 }

    // |value| in units of 2^-1074, the smallest positive binary64 number.
    function Magnitude(): nat
      requires Finite()
    {
      if Exponent() == 0 then Fraction()
      else (0x10_0000_0000_0000 + Fraction()) * Pow2(Exponent() - 1)
    }
  }

  const NAN: Double := Double(0x7ff8_0000, 0)

  // The encoding of r * 2^e (in units of 2^-1074): adding the significand to the
  // shifted exponent carries into it when r reaches 2^53.
  lemma Encode(d: Double, r: nat, e: nat)
    requires 0x10_0000_0000_0000 <= r <= 0x20_0000_0000_0000 && e <= 2044
    requires d.hi * 0x1_0000_0000 + d.lo == e * 0x10_0000_0000_0000 + r
    ensures d.Finite() && !d.Negative() && d.Magnitude() == r * Pow2(e)
  {
    if r < 0x20_0000_0000_0000 {
      assert d.Exponent() == e + 1 && d.Fraction() == r - 0x10_0000_0000_0000;
    } else {
      assert d.Exponent() == e + 2 && d.Fraction() == 0;
      assert Pow2(e + 1) == 2 * Pow2(e);
    }
  }

  // Doubles next to r * 2^e are at least 2^e away, except below a power of two.
  lemma Spacing(d: Double, r: nat, e: nat)
    requires d.Finite() && 0x10_0000_0000_0000 <= r <= 0x20_0000_0000_0000
    ensures var z, u := r * Pow2(e), Pow2(e);
            && (d.Magnitude() > z ==> d.Magnitude() >= z + u)
            && (d.Magnitude() < z ==> d.Magnitude() + u <= z || r == 0x10_0000_0000_0000)
  {
    var e2: nat := if d.Exponent() == 0 then 0 else d.Exponent() - 1;
    var f: nat := if d.Exponent() == 0 then d.Fraction() else 0x10_0000_0000_0000 + d.Fraction();
    assert d.Magnitude() == f * Pow2(e2) && f < 0x20_0000_0000_0000 by {
      assert Pow2(0) == 1;
    }
    if e2 >= e {
      Pow2Add(e2 - e, e);
      Multiples(f * Pow2(e2 - e), r, Pow2(e));
      Associate(f, Pow2(e2 - e), Pow2(e));
    } else {
      Pow2Mono(e2, e - 1);
      assert Pow2(e) == 2 * Pow2(e - 1);
      SmallerBinade(f, Pow2(e2), Pow2(e - 1), r);
    }
  }

  lemma Associate(a: int, b: int, c: int)
    ensures a * b * c == a * (b * c)
  {}

  lemma Multiples(a: int, b: int, u: int)
    requires u > 0
    ensures a > b ==> a * u >= b * u + u
    ensures a < b ==> a * u + u <= b * u
  {
    if a > b {
      MulGe(a - b, u);
    } else if a < b {
      MulGe(b - a, u);
    }
  }

  lemma SmallerBinade(f: nat, p: nat, h: nat, r: nat)
    requires f < 0x20_0000_0000_0000 && 0 < p <= h && r >= 0x10_0000_0000_0000
    ensures f * p < r * (2 * h)
    ensures f * p + 2 * h <= r * (2 * h) || r == 0x10_0000_0000_0000
  {
    assert f * p <= f * h by { assert f * (h - p) >= 0; }
    assert f * h < 0x20_0000_0000_0000 * h;
    assert (r - 0x10_0000_0000_0000) * (2 * h) == r * (2 * h) - 0x20_0000_0000_0000 * h;
    if r > 0x10_0000_0000_0000 {
      MulGe(r - 0x10_0000_0000_0000, 2 * h);
    }
  }

  lemma ZeroMagnitude(d: Double)
    requires d.Finite()
    ensures d.Magnitude() == 0 <==> d.hi % 0x8000_0000 == 0 && d.lo == 0
  {
    if d.Exponent() == 0 {
      assert d.hi % 0x8000_0000 == d.hi % 0x10_0000;
    } else {
      hide Pow2;
      MulGe(0x10_0000_0000_0000 + d.Fraction(), Pow2(d.Exponent() - 1));
      assert d.hi % 0x8000_0000 >= 0x10_0000;
    }
  }

  // ---- significands and exponents

  ghost function Pair(h: int, l: int): int {
    h * 0x1_0000_0000 + l
  }

  // v has the 53-bit significand s with (biased) exponent m.
  ghost predicate Normalized(v: nat, s: nat, m: int) {
    if m >= 1 then v == s * Pow2(m - 1) else s == v * Pow2(1 - m)
  }

  lemma AlignPowers(v: nat, s: nat, m: int)
    requires Normalized(v, s, m) && -1074 <= m <= 2046
    ensures v * Pow2(1076) == s * Pow2(m + 1075)
  {
    hide Pow2;
    if m >= 1 {
      Pow2Add(m - 1, 1076);
      Associate(s, Pow2(m - 1), Pow2(1076));
    } else {
      Pow2Add(1 - m, m + 1075);
      Associate(v, Pow2(1 - m), Pow2(m + 1075));
    }
  }

  lemma ShrBy20(x: u32)
    ensures Shr(x, 20) == x / 0x10_0000
  {
    Pow2Values();
  }

  lemma ShrBy31(x: u32)
    ensures Shr(x, 31) == x / 0x8000_0000
  {
    Pow2Values();
  }

  lemma MagnitudeSmall(x: Double)
    requires !x.Negative() && x.hi / 0x10_0000 == 0
    ensures x.Finite() && x.Magnitude() == Pair(x.hi, x.lo)
  {}

  lemma NormalValue(x: Double)
    requires x.Finite() && !x.Negative() && x.hi / 0x10_0000 != 0
    ensures Normalized(x.Magnitude(), Pair(0x10_0000 + x.hi % 0x10_0000, x.lo), x.hi / 0x10_0000)
    ensures 1 <= x.hi / 0x10_0000 <= 2046
  {}

  lemma SetSign(x: u32)
    requires x < 0x8000_0000
    ensures Or(x, 0x8000_0000) == x + 0x8000_0000
  {
    hide Or, Pow2;
    Pow2Values();
    OrDisjoint(1, x, 31);
  }
}
