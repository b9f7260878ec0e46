// Rounding to integral values on the words of a double (jerry-math/floor.c, jerry-math/ceil.c).
module FloorCeil {
  import opened Words

  // ---- what is computed

  // The value in units of 2^-1074; the number 1 has 2^1074 of them.
  ghost function Value(x: Double): int
    requires x.Finite()
  {
    var m: int := x.Magnitude();
    if x.Negative() then -m else m
  }

  ghost predicate IsIntegral(x: Double) {
    x.Finite() && Value(x) % Pow2(1074) == 0
  }

  function Negated(x: Double): Double {
    if x.Negative() then Double(x.hi - 0x8000_0000, x.lo) else Double(x.hi + 0x8000_0000, x.lo)
  }

  // The sign is kept, also that of a zero.
  ghost predicate IsFloor(x: Double, r: Double)
    requires x.Finite()
  {
    IsIntegral(r) && Value(r) <= Value(x) < Value(r) + Pow2(1074) && (r.Negative() <==> x.Negative())
  }

  ghost predicate IsCeil(x: Double, r: Double)
    requires x.Finite()
  {
    IsIntegral(r) && Value(r) - Pow2(1074) < Value(x) <= Value(r) && (r.Negative() <==> x.Negative())
  }

  // No integral double lies between.
  lemma FloorIsGreatest(x: Double, r: Double, d: Double)
    requires x.Finite() && IsFloor(x, r) && IsIntegral(d) && Value(d) <= Value(x)
    ensures Value(d) <= Value(r)
  {
    hide Pow2, Value;
    MultiplesApart(Value(d), Value(r), Pow2(1074));
  }

  lemma CeilIsLeast(x: Double, r: Double, d: Double)
    requires x.Finite() && IsCeil(x, r) && IsIntegral(d) && Value(x) <= Value(d)
    ensures Value(r) <= Value(d)
  {
    hide Pow2, Value;
    MultiplesApart(Value(r), Value(d), Pow2(1074));
  }

  lemma MultiplesApart(a: int, b: int, one: nat)
    requires one > 0 && a % one == 0 && b % one == 0 && a < b + one
    ensures a <= b
  {
    var p, q := a / one, b / one;
    assert a == one * p && b == one * q;
    assert (p - q) * one == a - b;
    if p > q {
      MulGe(p - q, one);
    } else {
      assert (q - p) * one >= 0;
    }
  }

  // A finite double is determined by its sign and its magnitude.
  lemma Determined(a: Double, b: Double)
    requires a.Finite() && b.Finite() && a.Magnitude() == b.Magnitude() && (a.Negative() <==> b.Negative())
    ensures a == b
  {
    hide Double.Magnitude, Double.Exponent, Double.Fraction, Pow2;
    LargerExponent(a, b);
    LargerExponent(b, a);
    SameExponent(a, b);
    hide *;
    Assemble(a);
    Assemble(b);
  }

  lemma Assemble(d: Double)
    ensures d.hi == (if d.Negative() then 0x8000_0000 else 0) + d.Exponent() * 0x10_0000 + d.Fraction() / 0x1_0000_0000
    ensures d.lo == d.Fraction() % 0x1_0000_0000
  {}

  lemma SameExponent(a: Double, b: Double)
    requires a.Finite() && b.Finite() && a.Exponent() == b.Exponent() && a.Magnitude() == b.Magnitude()
    ensures a.Fraction() == b.Fraction()
  {
    hide Pow2;
    if a.Exponent() > 0 {
      var p := Pow2(a.Exponent() - 1);
      QuotientUnique(p, 0x10_0000_0000_0000 + a.Fraction(), 0, 0x10_0000_0000_0000 + b.Fraction(), 0);
    }
  }

  lemma LargerExponent(a: Double, b: Double)
    requires a.Finite() && b.Finite()
    ensures a.Exponent() < b.Exponent() ==> a.Magnitude() < b.Magnitude()
  {
    hide Pow2;
    if a.Exponent() < b.Exponent() {
      if a.Exponent() == 0 {
        MulGe(Pow2(b.Exponent() - 1), 0x10_0000_0000_0000 + b.Fraction());
      } else {
        Pow2Mono(a.Exponent(), b.Exponent() - 1);
        Doubling(a.Exponent());
        Binades(a.Fraction(), Pow2(a.Exponent() - 1), b.Fraction(), Pow2(b.Exponent() - 1));
      }
    }
  }

  lemma Doubling(n: nat)
    requires n > 0
    ensures Pow2(n) == 2 * Pow2(n - 1)
  {}

  lemma Binades(f: nat, p: nat, g: nat, q: nat)
    requires f < 0x10_0000_0000_0000 && 0 < 2 * p <= q
    ensures (0x10_0000_0000_0000 + f) * p < (0x10_0000_0000_0000 + g) * q
  {
    assert (0x10_0000_0000_0000 + f) * p < 0x20_0000_0000_0000 * p;
    assert g * q >= 0;
  }

  // ceil(x) is -floor(-x), also for zeros.
  lemma CeilIsNegatedFloor(x: Double, c: Double, f: Double)
    requires x.Finite() && Negated(x).Finite() && IsCeil(x, c) && IsFloor(Negated(x), f)
    ensures c == Negated(f)
  {
    NegatedValue(x);
    NegatedValue(f);
    hide Pow2, Double.Magnitude;
    var one := Pow2(1074);
    NegatedMultiple(Value(f), one);
    MultiplesApart(Value(c), -Value(f), one);
    MultiplesApart(-Value(f), Value(c), one);
    Determined(c, Negated(f));
  }

  lemma NegatedMultiple(a: int, one: nat)
    requires one > 0 && a % one == 0
    ensures (-a) % one == 0
  {
    DivModUnique(-a, one, -(a / one), 0);
  }

  lemma NegatedValue(x: Double)
    requires x.Finite()
    ensures Negated(x).Finite() && Value(Negated(x)) == -Value(x) && (Negated(x).Negative() <==> !x.Negative())
  {
    hide Pow2;
    var y := Negated(x);
    assert y.hi % 0x10_0000 == x.hi % 0x10_0000;
    assert y.Exponent() == x.Exponent() && y.Fraction() == x.Fraction();
  }

  // ---- rounding a magnitude

  // r is x rounded to an integral value, toward zero or away from it.
  ghost predicate Rounded(x: Double, r: Double, away: bool)
    requires x.Finite()
  {
    r.Finite() && (r.Negative() <==> x.Negative()) && r.Magnitude() % Pow2(1074) == 0 &&
    if away then r.Magnitude() - Pow2(1074) < x.Magnitude() <= r.Magnitude()
    else r.Magnitude() <= x.Magnitude() < r.Magnitude() + Pow2(1074)
  }

  lemma RoundedIsFloor(x: Double, r: Double)
    requires x.Finite() && Rounded(x, r, x.Negative())
    ensures IsFloor(x, r)
  {
    hide Pow2, Double.Magnitude;
    NegatedMultiple(r.Magnitude(), Pow2(1074));
  }

  lemma RoundedIsCeil(x: Double, r: Double)
    requires x.Finite() && Rounded(x, r, !x.Negative())
    ensures IsCeil(x, r)
  {
    hide Pow2, Double.Magnitude;
    NegatedMultiple(r.Magnitude(), Pow2(1074));
  }

  lemma IntegralIsRounded(x: Double, away: bool)
    requires x.Finite() && x.Magnitude() % Pow2(1074) == 0
    ensures Rounded(x, x, away)
  {}

  // The word without the sign, as a 63-bit number: exponent and fraction.
  ghost function Bits(d: Double): nat {
    d.hi % 0x8000_0000 * 0x1_0000_0000 + d.lo
  }

  lemma BitsAre(d: Double)
    ensures Bits(d) == d.Exponent() * 0x10_0000_0000_0000 + d.Fraction()
  {}

  // Exponent and fraction are those of |d|.
  lemma FromBits(d: Double, r: nat, e: nat)
    requires 0x10_0000_0000_0000 <= r <= 0x20_0000_0000_0000 && e <= 2044
    requires Bits(d) == e * 0x10_0000_0000_0000 + r
    ensures d.Finite() && d.Magnitude() == r * Pow2(e)
  {
    hide Pow2, Double.Magnitude, Double.Exponent, Double.Fraction;
    WithoutSign(d);
    Encode(Double(d.hi % 0x8000_0000, d.lo), r, e);
  }

  lemma WithoutSign(d: Double)
    ensures var a := Double(d.hi % 0x8000_0000, d.lo);
            && a.Finite() == d.Finite() && (d.Finite() ==> a.Magnitude() == d.Magnitude())
  {
    hide Pow2;
    SameFields(d);
  }

  lemma SameFields(d: Double)
    ensures var a := Double(d.hi % 0x8000_0000, d.lo); a.Exponent() == d.Exponent() && a.Fraction() == d.Fraction()
  {}

  // Less than one: zero, or one.
  lemma SmallRounds(x: Double, r: Double, away: bool)
    requires x.Exponent() < 0x3ff && (r.Negative() <==> x.Negative())
    requires Bits(r) == if away && Bits(x) != 0 then 0x3ff0_0000 * 0x1_0000_0000 else 0
    ensures x.Finite() && Rounded(x, r, away)
  {
    hide Pow2;
    var e := if x.Exponent() == 0 then 0 else x.Exponent() - 1;
    Pow2Add(52, 1022);
    Pow2Values();
    LessThanOne(x);
    if away && Bits(x) != 0 {
      FromBits(r, 0x10_0000_0000_0000, 1022);
      NonzeroMagnitude(x);
    } else {
      ZeroBits(r);
      if Bits(x) == 0 {
        ZeroBits(x);
      }
    }
  }

  lemma ZeroBits(d: Double)
    requires Bits(d) == 0
    ensures d.Finite() && d.Magnitude() == 0
  {
    BitsAre(d);
  }

  lemma NonzeroMagnitude(d: Double)
    requires d.Finite() && Bits(d) != 0
    ensures d.Magnitude() > 0
  {
    ZeroMagnitude(d);
  }

  lemma LessThanOne(x: Double)
    requires x.Exponent() < 0x3ff
    ensures x.Magnitude() < Pow2(1074)
  {
    hide Pow2;
    Pow2Values();
    if x.Exponent() == 0 {
      Pow2Mono(52, 1074);
    } else {
      Pow2Mono(x.Exponent() - 1, 1021);
      Pow2Add(53, 1021);
      Binades(x.Fraction(), Pow2(x.Exponent() - 1), 0, 2 * Pow2(x.Exponent() - 1));
      assert x.Magnitude() < 0x20_0000_0000_0000 * Pow2(x.Exponent() - 1);
      assert 0x20_0000_0000_0000 * (Pow2(1021) - Pow2(x.Exponent() - 1)) >= 0;
    }
  }

  // So large that there are no fraction bits.
  lemma LargeIsIntegral(x: Double, away: bool)
    requires x.Finite() && x.Exponent() >= 0x3ff + 52
    ensures Rounded(x, x, away)
  {
    hide Pow2;
    var n: nat := x.Exponent() - 1 - 1074;
    Pow2Add(n, 1074);
    Associate(0x10_0000_0000_0000 + x.Fraction(), Pow2(n), Pow2(1074));
    DivModUnique(x.Magnitude(), Pow2(1074), (0x10_0000_0000_0000 + x.Fraction()) * Pow2(n), 0);
    IntegralIsRounded(x, away);
  }

  // n fraction bits are below the point: they are cleared, after adding one above them when
  // rounding away from zero; the sum carries into the exponent when it has to.
  lemma FractionRounds(x: Double, r: Double, n: nat, away: bool)
    requires 1 <= n <= 52 && x.Exponent() == 0x3ff + 52 - n && (r.Negative() <==> x.Negative())
    requires Bits(r) == Bits(x) - Bits(x) % Pow2(n) + (if away then Pow2(n) else 0)
    requires away ==> Bits(x) % Pow2(n) != 0
    ensures Rounded(x, r, away)
  {
    hide Pow2, Double.Magnitude, Double.Exponent, Double.Fraction, Bits;
    var e, k, s := x.Exponent() - 1, Pow2(n), 0x10_0000_0000_0000 + x.Fraction();
    BitsAre(x);
    Pow2Add(52 - n, n);
    Pow2Add(n, e);
    Pow2Values();
    FractionBelow(x);
    FromBits(x, s, e);
    Associate(e, Pow2(52 - n), k);
    SameRemainder(s, e * Pow2(52 - n), k);
    QuotientRange(s, k, Pow2(52 - n), away);
    FinishRounding(x, r, n, s, e, away);
  }

  lemma FractionBelow(x: Double)
    ensures x.Fraction() < 0x10_0000_0000_0000
  {}

  lemma FinishRounding(x: Double, r: Double, n: nat, s: nat, e: nat, away: bool)
    requires n + e == 1074 && e <= 2044 && x.Finite() && x.Magnitude() == s * Pow2(e) && (r.Negative() <==> x.Negative())
    requires var k := Pow2(n); var q := if away then s / k + 1 else s / k;
             && 0x10_0000_0000_0000 <= q * k <= 0x20_0000_0000_0000 && Bits(r) == e * 0x10_0000_0000_0000 + q * k
    requires away ==> s % Pow2(n) != 0
    ensures Rounded(x, r, away)
  {
    hide Pow2, Double.Magnitude, Double.Exponent, Double.Fraction, Bits;
    var k := Pow2(n);
    var q := if away then s / k + 1 else s / k;
    FromBits(r, q * k, e);
    Pow2Add(n, e);
    ScaledQuotient(s, q, k, Pow2(e), Pow2(1074), away);
  }

  lemma ScaledQuotient(s: nat, q: nat, k: nat, u: nat, one: nat, away: bool)
    requires k > 0 && u > 0 && one > 0 && one == k * u && q == if away then s / k + 1 else s / k
    requires away ==> s % k != 0
    ensures one > 0 && q * k * u % one == 0
    ensures if away then q * k * u - one < s * u <= q * k * u else q * k * u <= s * u < q * k * u + one
  {
    Associate(q, k, u);
    DivisionOf(s, k);
    ScaledBounds(s, s / k, s % k, k, u, one);
    RoundLinear(s * u, s / k, one, away);
  }

  lemma RoundLinear(m: nat, a: nat, one: nat, away: bool)
    requires one > 0 && a * one <= m < a * one + one && (away ==> a * one < m)
    ensures var r := (if away then a + 1 else a) * one;
            && r % one == 0 && (if away then r - one < m <= r else r <= m < r + one)
  {
    assert (a + 1) * one == a * one + one;
    DivModUnique(a * one, one, a, 0);
    DivModUnique((a + 1) * one, one, a + 1, 0);
  }

  lemma SameRemainder(s: nat, m: int, k: nat)
    requires k > 0
    ensures (m * k + s) % k == s % k
  {
    var q, t := s / k, s % k;
    DivisionOf(s, k);
    assert (m + q) * k + t == m * k + s;
    DivModUnique(m * k + s, k, m + q, t);
  }

  lemma OneMore(s: nat, k: nat)
    requires k > 0
    ensures (s + k) % k == s % k
  {
    SameRemainder(s, 1, k);
  }

  lemma DivisionOf(s: nat, k: nat)
    requires k > 0
    ensures s == s / k * k + s % k
  {}

  lemma QuotientRange(s: nat, k: nat, j: nat, away: bool)
    requires k > 0 && j * k == 0x10_0000_0000_0000 && 0x10_0000_0000_0000 <= s < 0x20_0000_0000_0000
    requires away ==> s % k != 0
    ensures var q := if away then s / k + 1 else s / k;
            0x10_0000_0000_0000 <= q * k <= 0x20_0000_0000_0000 && q * k == s - s % k + (if away then k else 0)
  {
    var q, t := s / k, s % k;
    assert s == k * q + t;
    assert (q + 1 - j) * k == q * k + k - j * k;
    assert (2 * j - q) * k == 2 * (j * k) - q * k;
    PositiveFactor(q + 1 - j, k);
    PositiveFactor(2 * j - q, k);
    assert (q - j) * k >= 0;
    MulGe(2 * j - q, k);
  }

  lemma ScaledBounds(s: nat, q: nat, t: nat, k: nat, u: nat, one: nat)
    requires u > 0 && one == k * u && s == q * k + t && t < k
    ensures q * one <= s * u < q * one + one
    ensures t > 0 ==> q * one < s * u
  {
    assert s * u == q * k * u + t * u;
    Associate(q, k, u);
    assert (k - t) * u == one - t * u;
    MulGe(k - t, u);
    if t > 0 {
      MulGe(t, u);
    }
  }

  // ---- the words

  lemma ExponentOf(x: Double)
    ensures And(ToU32(ToI32(x.hi) / 0x10_0000), 0x7ff) == x.Exponent() < 0x800
  {
    hide And, Pow2, ToI32, ToU32;
    Pow2Values();
    var w := ToU32(ToI32(x.hi) / 0x10_0000);
    ArithmeticShift(x.hi);
    AndLow(w / 0x800, w % 0x800, 11);
  }

  lemma ArithmeticShift(hi: u32)
    ensures ToU32(ToI32(hi) / 0x10_0000) % 0x800 == hi / 0x10_0000 % 0x800
  {
    if hi >= 0x8000_0000 {
      assert ToI32(hi) / 0x10_0000 == hi / 0x10_0000 - 0x1000;
      assert ToU32(ToI32(hi) / 0x10_0000) == hi / 0x10_0000 - 0x1000 + 0x1_0000_0000;
    }
  }

  lemma NormalIsNonzero(x: Double)
    ensures x.Exponent() > 0 ==> x.hi % 0x8000_0000 != 0
  {}

  lemma AndLe(x: nat, y: nat)
    ensures And(x, y) <= x
  {}

  // w & ~i
  function Clear(w: u32, i: u32): u32 {
    AndLe(w, 0xffff_ffff - i);
    And(w, 0xffff_ffff - i)
  }

  // a low ones moved right by j.
  lemma OnesShr(a: nat, j: nat)
    requires j <= a <= 32
    ensures Pow2(a) <= 0x1_0000_0000 && Shr(Pow2(a) - 1, j) == Pow2(a - j) - 1
  {
    hide Pow2;
    Pow2Values();
    Pow2Mono(a, 32);
    Pow2Add(a - j, j);
    assert (Pow2(a - j) - 1) * Pow2(j) == Pow2(a) - Pow2(j);
    DivModUnique(Pow2(a) - 1, Pow2(j), Pow2(a - j) - 1, Pow2(j) - 1);
  }

  lemma BitShr(a: nat, j: nat)
    requires j <= a < 32
    ensures Pow2(a) < 0x1_0000_0000 && Shr(Pow2(a), j) == Pow2(a - j)
  {
    hide Pow2;
    Pow2Values();
    Pow2Mono(a, 31);
    Pow2Add(a - j, j);
    DivModUnique(Pow2(a), Pow2(j), Pow2(a - j), 0);
  }

  lemma BitShl(n: nat)
    requires n < 32
    ensures Shl(1, n) == Pow2(n) < 0x1_0000_0000
  {
    hide Pow2;
    Pow2Values();
    Pow2Mono(n, 31);
  }

  // "and" with n low ones, and with their complement.
  lemma MaskLow(w: u32, n: nat)
    requires n <= 32
    ensures And(w, Pow2(n) - 1) == w % Pow2(n)
  {
    hide And, Pow2;
    DivisionOf(w, Pow2(n));
    AndLow(w / Pow2(n), w % Pow2(n), n);
  }

  lemma MaskHigh(w: u32, n: nat)
    requires n <= 32
    ensures Pow2(n) <= 0x1_0000_0000
    ensures Clear(w, Pow2(n) - 1) == w - w % Pow2(n)
  {
    hide And, Pow2;
    Pow2Values();
    Pow2Mono(n, 32);
    Pow2Add(32 - n, n);
    var k, q, t := Pow2(n), w / Pow2(n), w % Pow2(n);
    DivisionOf(w, k);
    BelowPower(q, k, Pow2(32 - n), t);
    assert (Pow2(32 - n) - 1) * k == 0x1_0000_0000 - k;
    AndSplit(q, t, Pow2(32 - n) - 1, 0, n);
    AndOnes(q, 32 - n);
    AndZero(t);
  }

  lemma BelowPower(q: nat, k: nat, p: nat, t: nat)
    requires k > 0 && p * k == 0x1_0000_0000 && q * k + t < 0x1_0000_0000
    ensures q < p
  {
    assert (p - q) * k == p * k - q * k;
    PositiveFactor(p - q, k);
  }

  lemma HighBits(x: Double, n: nat)
    requires n <= 20
    ensures Pow2(n + 32) == Pow2(n) * 0x1_0000_0000
    ensures Bits(x) % Pow2(n + 32) == x.hi % Pow2(n) * 0x1_0000_0000 + x.lo
  {
    hide Pow2;
    Pow2Values();
    Pow2Add(n, 32);
    Pow2Add(31 - n, n);
    var k, h: nat := Pow2(n), x.hi % 0x8000_0000;
    var sign: nat := x.hi / 0x8000_0000;
    Associate(sign, Pow2(31 - n), k);
    SameRemainder(h, sign * Pow2(31 - n), k);
    DivisionOf(h, k);
    ScaleDivision(h, h / k, h % k, k, x.lo);
  }

  lemma ScaleDivision(h: nat, q: nat, t: nat, k: nat, lo: u32)
    requires h == q * k + t && t < k
    ensures (h * 0x1_0000_0000 + lo) % (k * 0x1_0000_0000) == t * 0x1_0000_0000 + lo
  {
    Associate(q, k, 0x1_0000_0000);
    DivModUnique(h * 0x1_0000_0000 + lo, k * 0x1_0000_0000, q, t * 0x1_0000_0000 + lo);
  }

  lemma LowBits(x: Double, n: nat)
    requires n <= 32
    ensures Bits(x) % Pow2(n) == x.lo % Pow2(n)
  {
    hide Pow2;
    Pow2Values();
    Pow2Add(32 - n, n);
    var h: nat := x.hi % 0x8000_0000;
    Associate(h, Pow2(32 - n), Pow2(n));
    SameRemainder(x.lo, h * Pow2(32 - n), Pow2(n));
  }

  lemma IntegralBits(x: Double, n: nat, away: bool)
    requires 1 <= n <= 52 && x.Exponent() == 0x3ff + 52 - n && Bits(x) % Pow2(n) == 0
    ensures Rounded(x, x, away)
  {
    FractionRounds(x, x, n, false);
    IntegralIsRounded(x, away);
  }

  // Adding k to the high word keeps the sign.
  lemma NoSignCarry(x: Double, n: nat)
    requires n <= 20 && x.Finite()
    ensures Pow2(n) <= 0x10_0000
    ensures x.hi % 0x8000_0000 + Pow2(n) < 0x8000_0000
  {
    hide Pow2;
    Pow2Values();
    Pow2Mono(n, 20);
    BitsAre(x);
  }

  lemma HighRounds(x: Double, r: Double, n: nat, away: bool)
    requires 1 <= n <= 20 && x.Exponent() == 0x3ff + 20 - n && (x.hi % Pow2(n) != 0 || x.lo != 0)
    requires r.lo == 0 && r.hi == x.hi - x.hi % Pow2(n) + (if away then Pow2(n) else 0)
    ensures Rounded(x, r, away)
  {
    hide Pow2, Double.Magnitude, Rounded;
    HighBits(x, n);
    NoSignCarry(x, n);
    HighRemainder(x.hi, n);
    SignUnchanged(x.hi, Pow2(n), x.hi % Pow2(n), r.hi, away);
    FractionRounds(x, r, n + 32, away);
  }

  lemma HighRemainder(w: u32, n: nat)
    requires n <= 20
    ensures w % Pow2(n) <= w % 0x8000_0000
  {
    hide Pow2;
    Pow2Values();
    Pow2Add(31 - n, n);
    var k, h: nat, sign: nat := Pow2(n), w % 0x8000_0000, w / 0x8000_0000;
    Associate(sign, Pow2(31 - n), k);
    SameRemainder(h, sign * Pow2(31 - n), k);
    ModLe(h, k);
  }

  lemma ModLe(s: nat, k: nat)
    requires k > 0
    ensures s % k <= s
  {
    DivisionOf(s, k);
    assert s / k * k >= 0;
  }

  lemma SignUnchanged(w: u32, k: nat, t: nat, v: u32, away: bool)
    requires t < k && t <= w % 0x8000_0000 && w % 0x8000_0000 + k < 0x8000_0000
    requires v == w - t + (if away then k else 0)
    ensures v >= 0x8000_0000 <==> w >= 0x8000_0000
    ensures v % 0x8000_0000 == w % 0x8000_0000 - t + (if away then k else 0)
  {}

  lemma LowRounds(x: Double, r: Double, n: nat, away: bool)
    requires 1 <= n <= 32 && x.Exponent() == 0x3ff + 52 - n && x.lo % Pow2(n) != 0
    requires r.hi * 0x1_0000_0000 + r.lo ==
             x.hi * 0x1_0000_0000 + x.lo - x.lo % Pow2(n) + (if away then Pow2(n) else 0)
    ensures Rounded(x, r, away)
  {
    hide Pow2, Double.Magnitude, Rounded;
    LowBits(x, n);
    Pow2Values();
    Pow2Mono(n, 32);
    NoSignCarry(x, 0);
    ModLe(x.lo, Pow2(n));
    WideSignUnchanged(x, Pow2(n), x.lo % Pow2(n), r, away);
    FractionRounds(x, r, n, away);
  }

  lemma WideSignUnchanged(x: Double, k: nat, t: nat, r: Double, away: bool)
    requires t < k <= 0x1_0000_0000 && t <= x.lo && x.hi % 0x8000_0000 + 1 < 0x8000_0000
    requires r.hi * 0x1_0000_0000 + r.lo == x.hi * 0x1_0000_0000 + x.lo - t + (if away then k else 0)
    ensures r.hi == x.hi || r.hi == x.hi + 1
    ensures r.Negative() <==> x.Negative()
    ensures Bits(r) == Bits(x) - t + (if away then k else 0)
  {}

  // j = i1 + (1 << n), and the carry that "j < i1" finds.
  lemma AddBit(lo: u32, n: nat)
    requires n < 32
    ensures var j := ToU32(ToI32(lo) + ToI32(Shl(1, n)));
            && j == (if j < lo then lo + Pow2(n) - 0x1_0000_0000 else lo + Pow2(n))
            && j % Pow2(n) == lo % Pow2(n)
  {
    hide Pow2, Shl;
    BitShl(n);
    Pow2Values();
    Pow2Add(32 - n, n);
    var k := Pow2(n);
    SameRemainder(lo, 1, k);
    SameRemainder(lo, 1 - Pow2(32 - n), k);
    assert (1 - Pow2(32 - n)) * k + 0x1_0000_0000 == k;
    WrapSum(lo, k);
  }

  lemma WrapSum(lo: u32, k: u32)
    requires k > 0
    ensures var j := ToU32(ToI32(lo) + ToI32(k)); j == if j < lo then lo + k - 0x1_0000_0000 else lo + k
  {}

  // The branches, for either direction.
  lemma SmallBranch(x: Double)
    requires x.Exponent() < 0x3ff
    ensures x.Finite()
    ensures Or(And(x.hi, 0x7fff_ffff), x.lo) == 0 <==> Bits(x) == 0
    ensures !x.Negative() ==> (Or(x.hi, x.lo) == 0 <==> Bits(x) == 0)
    ensures !x.Negative() ==> Rounded(x, Double(0, 0), false)
    ensures x.Negative() ==> Rounded(x, Double(0x8000_0000, 0), false)
    ensures Bits(x) != 0 && !x.Negative() ==> Rounded(x, Double(0x3ff0_0000, 0), true)
    ensures Bits(x) != 0 && x.Negative() ==> Rounded(x, Double(0xbff0_0000, 0), true)
    ensures Bits(x) == 0 ==> Rounded(x, x, true)
  {
    hide And, Or, Pow2, Rounded, Double.Exponent, Double.Fraction, Double.Magnitude;
    SignMask(x.hi);
    OrIsZero(And(x.hi, 0x7fff_ffff), x.lo);
    OrIsZero(x.hi, x.lo);
    if x.Negative() {
      SmallRounds(x, Double(0x8000_0000, 0), false);
      if Bits(x) != 0 {
        SmallRounds(x, Double(0xbff0_0000, 0), true);
      }
    } else {
      SmallRounds(x, Double(0, 0), false);
      if Bits(x) != 0 {
        SmallRounds(x, Double(0x3ff0_0000, 0), true);
      }
    }
    if Bits(x) == 0 {
      SmallRounds(x, x, true);
    }
  }

  ghost predicate HighStep(x: Double, i: u32, k: u32)
    requires x.Finite()
  {
    if Or(And(x.hi, i), x.lo) == 0 then Rounded(x, x, false) && Rounded(x, x, true)
    else
      && Rounded(x, Double(Clear(x.hi, i), 0), false)
      && x.hi % 0x8000_0000 + k < 0x8000_0000 && x.hi + k < 0x1_0000_0000
      && Rounded(x, Double(Clear(x.hi + k, i), 0), true)
  }

  lemma HighBranch(x: Double, j0: nat)
    requires j0 < 20 && x.Exponent() == j0 + 0x3ff
    ensures x.Finite() && HighStep(x, Shr(0x000f_ffff, j0), Shr(0x0010_0000, j0))
  {
    hide HighStep, Pow2, Shr;
    Pow2Values();
    OnesShr(20, j0);
    BitShr(20, j0);
    NoSignCarry(x, 20 - j0);
    HighStepHolds(x, 20 - j0);
  }

  lemma HighStepHolds(x: Double, n: nat)
    requires 1 <= n <= 20 && x.Exponent() == 0x3ff + 20 - n && Pow2(n) <= 0x10_0000
    ensures x.Finite() && HighStep(x, Pow2(n) - 1, Pow2(n))
  {
    hide And, Or, Pow2, Clear, Rounded, Double.Exponent, Double.Fraction, Double.Magnitude, Bits;
    var k := Pow2(n);
    MaskLow(x.hi, n);
    OrIsZero(And(x.hi, k - 1), x.lo);
    HighBits(x, n);
    if Or(And(x.hi, k - 1), x.lo) == 0 {
      IntegralBits(x, n + 32, false);
      IntegralBits(x, n + 32, true);
    } else {
      NoSignCarry(x, n);
      MaskHigh(x.hi, n);
      MaskHigh(x.hi + k, n);
      OneMore(x.hi, k);
      HighRounds(x, Double(Clear(x.hi, k - 1), 0), n, false);
      HighRounds(x, Double(Clear(x.hi + k, k - 1), 0), n, true);
    }
  }

  lemma LowBranch(x: Double, j0: nat)
    requires 20 <= j0 <= 51 && x.Exponent() == j0 + 0x3ff
    ensures var i := Shr(0xffff_ffff, j0 - 20);
            if And(x.lo, i) == 0 then Rounded(x, x, false) && Rounded(x, x, true)
            else
              && Rounded(x, Double(x.hi, Clear(x.lo, i)), false)
              && x.hi % 0x8000_0000 + 1 < 0x8000_0000
              && (j0 == 20 ==> Rounded(x, Double(x.hi + 1, Clear(x.lo, i)), true))
  {
    hide And, Or, Pow2, Shr, Clear, Rounded, Double.Exponent, Double.Fraction, Double.Magnitude, Bits;
    var n: nat := 52 - j0;
    Pow2Values();
    OnesShr(32, j0 - 20);
    var i := Shr(0xffff_ffff, j0 - 20);
    MaskLow(x.lo, n);
    LowBits(x, n);
    if And(x.lo, i) == 0 {
      IntegralBits(x, n, false);
      IntegralBits(x, n, true);
    } else {
      NoSignCarry(x, 0);
      MaskHigh(x.lo, n);
      LowRounds(x, Double(x.hi, Clear(x.lo, i)), n, false);
      if j0 == 20 {
        LowRounds(x, Double(x.hi + 1, Clear(x.lo, i)), n, true);
      }
    }
  }

  lemma CarryBranch(x: Double, j0: nat)
    requires 20 < j0 <= 51 && x.Exponent() == j0 + 0x3ff && And(x.lo, Shr(0xffff_ffff, j0 - 20)) != 0
    ensures var i, j := Shr(0xffff_ffff, j0 - 20), ToU32(ToI32(x.lo) + ToI32(Shl(1, 52 - j0)));
            && x.hi % 0x8000_0000 + 1 < 0x8000_0000
            && Rounded(x, Double(if j < x.lo then x.hi + 1 else x.hi, Clear(j, i)), true)
  {
    hide And, Or, Pow2, Shr, Clear, Shl, ToI32, ToU32, Rounded, Double.Exponent, Double.Fraction, Double.Magnitude, Bits;
    var n: nat := 52 - j0;
    Pow2Values();
    OnesShr(32, j0 - 20);
    var i, j := Shr(0xffff_ffff, j0 - 20), ToU32(ToI32(x.lo) + ToI32(Shl(1, n)));
    MaskLow(x.lo, n);
    NoSignCarry(x, 0);
    AddBit(x.lo, n);
    MaskHigh(j, n);
    LowRounds(x, Double(if j < x.lo then x.hi + 1 else x.hi, Clear(j, i)), n, true);
  }

  lemma AddToWord(w: u32, k: nat)
    requires w % 0x8000_0000 + k < 0x8000_0000
    ensures ToI32(w) + k < 0x8000_0000 && ToU32(ToI32(ToI32(w) + k)) == w + k
  {}

  lemma SignOf(w: u32)
    ensures ToI32(w) < 0 <==> w >= 0x8000_0000
    ensures w % 0x8000_0000 != 0 ==> (ToI32(w) > 0 <==> w < 0x8000_0000)
    ensures ToU32(ToI32(w)) == w && ToU32(0) == 0
  {}

  // ---- floor and ceil

  // x + x, for an infinity or a NaN.
  function Twice(x: Double): Double {
    if x.IsInf() then x else NAN
  }

  lemma TwiceIs(x: Double)
    ensures if x.IsInf() then Twice(x) == x else Twice(x).IsNaN()
  {}

  method Floor(x: Double) returns (ret: Double)
    ensures x.Finite() ==> IsFloor(x, ret)
    ensures !x.Finite() ==> if x.IsInf() then ret == x else ret.IsNaN()
  {
    hide And, Or, Pow2, Shr, Shl, Clear, ToI32, ToU32, Rounded, IsFloor, Double.Exponent, Double.Fraction, Double.Magnitude, Twice,
      Double.IsInf, Double.IsNaN;
    var i0: i32, i1: i32 := ToI32(x.hi), ToI32(x.lo);
    ExponentOf(x);
    TwiceIs(x);
    NormalIsNonzero(x);
    SignOf(x.hi);
    SignOf(x.lo);
    var j0: int := And(ToU32(i0 / 0x10_0000), 0x7ff) - 0x3ff;
    if j0 < 20 {
      if j0 < 0 {
        SmallBranch(x);
        if i0 >= 0 {
          i0, i1 := 0, 0;
        } else if Or(And(ToU32(i0), 0x7fff_ffff), ToU32(i1)) != 0 {
          i0 := ToI32(0xbff0_0000);
          SignOf(0xbff0_0000);
          i1 := 0;
        }
      } else {
        HighBranch(x, j0);
        var i := Shr(0x000f_ffff, j0);
        if Or(And(ToU32(i0), i), ToU32(i1)) == 0 {
          RoundedIsFloor(x, x);
          return x;
        }
        if i0 < 0 {
          AddToWord(x.hi, Shr(0x0010_0000, j0));
          i0 := ToI32(i0 + Shr(0x0010_0000, j0));
        }
        SignOf(Clear(ToU32(i0), i));
        i0 := ToI32(Clear(ToU32(i0), i));
        i1 := 0;
      }
    } else if j0 > 51 {
      if j0 == 0x400 {
        return Twice(x);
      } else {
        LargeIsIntegral(x, x.Negative());
        RoundedIsFloor(x, x);
        return x;
      }
    } else {
      LowBranch(x, j0);
      var i := Shr(0xffff_ffff, j0 - 20);
      if And(ToU32(i1), i) == 0 {
        RoundedIsFloor(x, x);
        return x;
      }
      if i0 < 0 {
        AddToWord(x.hi, 1);
        if j0 == 20 {
          i0 := ToI32(i0 + 1);
        } else {
          CarryBranch(x, j0);
          var j := ToU32(i1 + ToI32(Shl(1, 52 - j0)));
          if j < ToU32(i1) {
            i0 := ToI32(i0 + 1);
          }
          SignOf(j);
          i1 := ToI32(j);
        }
      }
      SignOf(Clear(ToU32(i1), i));
      i1 := ToI32(Clear(ToU32(i1), i));
    }
    ret := Double(ToU32(i0), ToU32(i1));
    RoundedIsFloor(x, ret);
  }

  method Ceil(x: Double) returns (ret: Double)
    ensures x.Finite() ==> IsCeil(x, ret)
    ensures !x.Finite() ==> if x.IsInf() then ret == x else ret.IsNaN()
  {
    hide And, Or, Pow2, Shr, Shl, Clear, ToI32, ToU32, Rounded, IsCeil, Double.Exponent, Double.Fraction, Double.Magnitude, Twice,
      Double.IsInf, Double.IsNaN;
    var i0: i32, i1: i32 := ToI32(x.hi), ToI32(x.lo);
    ExponentOf(x);
    TwiceIs(x);
    NormalIsNonzero(x);
    SignOf(x.hi);
    SignOf(x.lo);
    var j0: int := And(ToU32(i0 / 0x10_0000), 0x7ff) - 0x3ff;
    if j0 < 20 {
      if j0 < 0 {
        SmallBranch(x);
        if i0 < 0 {
          i0 := ToI32(0x8000_0000);
          SignOf(0x8000_0000);
          i1 := 0;
        } else if Or(ToU32(i0), ToU32(i1)) != 0 {
          i0 := ToI32(0x3ff0_0000);
          SignOf(0x3ff0_0000);
          i1 := 0;
        }
      } else {
        HighBranch(x, j0);
        var i := Shr(0x000f_ffff, j0);
        if Or(And(ToU32(i0), i), ToU32(i1)) == 0 {
          RoundedIsCeil(x, x);
          return x;
        }
        if i0 > 0 {
          AddToWord(x.hi, Shr(0x0010_0000, j0));
          i0 := ToI32(i0 + Shr(0x0010_0000, j0));
        }
        SignOf(Clear(ToU32(i0), i));
        i0 := ToI32(Clear(ToU32(i0), i));
        i1 := 0;
      }
    } else if j0 > 51 {
      if j0 == 0x400 {
        return Twice(x);
      } else {
        LargeIsIntegral(x, !x.Negative());
        RoundedIsCeil(x, x);
        return x;
      }
    } else {
      LowBranch(x, j0);
      var i := Shr(0xffff_ffff, j0 - 20);
      if And(ToU32(i1), i) == 0 {
        RoundedIsCeil(x, x);
        return x;
      }
      if i0 > 0 {
        AddToWord(x.hi, 1);
        if j0 == 20 {
          i0 := ToI32(i0 + 1);
        } else {
          CarryBranch(x, j0);
          var j := ToU32(i1 + ToI32(Shl(1, 52 - j0)));
          if j < ToU32(i1) {
            i0 := ToI32(i0 + 1);
          }
          SignOf(j);
          i1 := ToI32(j);
        }
      }
      SignOf(Clear(ToU32(i1), i));
      i1 := ToI32(Clear(ToU32(i1), i));
    }
    ret := Double(ToU32(i0), ToU32(i1));
    RoundedIsCeil(x, ret);
  }
}
