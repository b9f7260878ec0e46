// Bit-by-bit square root on the two words of a double (jerry-math/sqrt.c).
module Sqrt {
  import opened Words

  // ---- one-number specification of the digit recurrence

  // After some steps the root of n is known to be q, up to the weight w of the last
  // digit, and i is the scaled remainder.
  ghost predicate RootInv(n: nat, q: nat, w: nat, i: nat) {
    && i * w == 2 * (n - q * q)
    && n < (q + w) * (q + w)
  }

  lemma RootStep(n: nat, q: nat, h: nat, i: nat)
    requires h > 0 && RootInv(n, q, 2 * h, i)
    ensures i >= 2 * q + h ==> RootInv(n, q + h, h, 2 * (i - (2 * q + h)))
    ensures i < 2 * q + h ==> RootInv(n, q, h, 2 * i)
  {
    assert i * h == n - q * q by { assert i * (2 * h) == 2 * (i * h); }
    if i >= 2 * q + h {
      TakeDigit(n, q, h, i);
    } else {
      SkipDigit(n, q, h, i);
    }
  }

  lemma NextSquare(q: nat, h: nat)
    ensures (q + h) * (q + h) == q * q + h * (2 * q + h)
  {
    assert h * (2 * q + h) == 2 * (q * h) + h * h;
  }

  lemma TakeDigit(n: nat, q: nat, h: nat, i: nat)
    requires h > 0 && i * h == n - q * q && n < (q + 2 * h) * (q + 2 * h) && i >= 2 * q + h
    ensures RootInv(n, q + h, h, 2 * (i - (2 * q + h)))
  {
    var t := 2 * q + h;
    NextSquare(q, h);
    assert (i - t) * h == i * h - h * t;
    assert 2 * (i - t) * h == 2 * ((i - t) * h);
  }

  lemma SkipDigit(n: nat, q: nat, h: nat, i: nat)
    requires h > 0 && i * h == n - q * q && i < 2 * q + h
    ensures RootInv(n, q, h, 2 * i)
  {
    var t := 2 * q + h;
    NextSquare(q, h);
    assert (t - i) * h == h * t - i * h;
    MulGe(t - i, h);
    assert 2 * i * h == 2 * (i * h);
  }

  lemma RootBound(n: nat, q: nat, w: nat, i: nat)
    requires w > 0 && RootInv(n, q, w, i)
    ensures i < 4 * q + 2 * w
  {
    var b := 4 * q + 2 * w;
    assert w * b == 2 * ((q + w) * (q + w) - q * q);
    assert (b - i) * w == w * b - i * w;
    PositiveFactor(b - i, w);
  }

  // ---- the word-level steps

  // (x & sign) >> 31
  method TopBit(x: u32) returns (b: u32)
    ensures b == x / 0x8000_0000
  {
    hide And, Pow2;
    Pow2Values();
    AndBit(x / 0x8000_0000, x % 0x8000_0000, 31);
    ShrBy31(And(x, 0x8000_0000));
    b := Shr(And(x, 0x8000_0000), 31);
  }

  // ix0 += ix0 + ((ix1 & sign) >> 31); ix1 += ix1;
  method Twice(ix0: i32, ix1: u32) returns (h: i32, l: u32)
    requires 0 <= ix0 < 0x4000_0000
    ensures h >= 0 && h * 0x1_0000_0000 + l == 2 * (ix0 * 0x1_0000_0000 + ix1)
  {
    var b := TopBit(ix1);
    h := ToI32(ix0 + ix0 + b);
    l := ToU32(ix1 + ix1);
  }

  // One digit of the high word.
  method HighDigit(r: u32, s: i32, p: i32, x0: i32, x1: u32)
    returns (s0: i32, q: i32, ix0: i32, ix1: u32)
    requires 0 < r <= 0x20_0000 && 0 <= p < 0x40_0000 && s == 2 * p && 0 <= x0 < 0x400_0000
    ensures q == (if s + r <= x0 then p + r else p) && s0 == 2 * q && 0 <= ix0
    ensures ix0 * 0x1_0000_0000 + ix1
            == 2 * (if s + r <= x0 then (x0 - (s + r)) * 0x1_0000_0000 + x1 else x0 * 0x1_0000_0000 + x1)
  {
    s0, q, ix0, ix1 := s, p, x0, x1;
    var t: i32 := ToI32(s0 + r);
    if t <= ix0 {
      s0 := ToI32(t + r);
      ix0 := ToI32(ix0 - t);
      q := ToI32(q + r);
    }
    ix0, ix1 := Twice(ix0, ix1);
  }

  // First loop: the 22 digits of the high word.
  method HighDigits(x0: i32, x1: u32, ghost n: nat) returns (s0: i32, q: i32, ix0: i32, ix1: u32)
    requires 0 <= x0
    requires RootInv(n, 0, 0x40_0000_0000_0000, x0 * 0x1_0000_0000 + x1)
    ensures 0 <= q < 0x40_0000 && s0 == 2 * q && ix0 >= 0
    ensures RootInv(n, q * 0x1_0000_0000, 0x1_0000_0000, ix0 * 0x1_0000_0000 + ix1)
  {
    assert IsPow2(0x40_0000) by { Pow2Values(); assert Pow2(22) == 2 * Pow2(21); }
    hide RootInv, IsPow2, Shr, Pow2;
    ix0, ix1 := x0, x1;
    s0, q := 0, 0;
    var r: u32 := 0x20_0000;
    ghost var w: nat := 0x40_0000;
    while r != 0
      invariant 0 < w <= 0x40_0000 && r == w / 2 && (r != 0 ==> w == 2 * r)
      invariant IsPow2(w)
      invariant ix0 >= 0 && 0 <= q <= 0x40_0000 - w && s0 == 2 * q
      invariant RootInv(n, q * 0x1_0000_0000, w * 0x1_0000_0000, ix0 * 0x1_0000_0000 + ix1)
      decreases r
    {
      RootBound(n, q * 0x1_0000_0000, w * 0x1_0000_0000, ix0 * 0x1_0000_0000 + ix1);
      RootStep(n, q * 0x1_0000_0000, r * 0x1_0000_0000, ix0 * 0x1_0000_0000 + ix1);
      s0, q, ix0, ix1 := HighDigit(r, s0, q, ix0, ix1);
      HalvePow2(w);
      w := r;
      HalvePow2(w);
      ShrOne(r);
      r := Shr(r, 1);
    }
  }

  // One digit of the low word; the comparison, the carry into s0 and the borrow
  // from ix0 together act on the 64-bit pairs.
  method LowDigit(r: u32, a0: i32, a1: u32, p1: u32, x0: i32, x1: u32)
    returns (s0: i32, s1: u32, q1: u32, ix0: i32, ix1: u32)
    requires 0 < r <= 0x8000_0000 && a1 + r < 0x1_0000_0000 && p1 + r < 0x1_0000_0000
    requires 0 <= a0 < 0x100_0000 && 0 <= x0 < 0x400_0000
    ensures 0 <= s0 && 0 <= ix0
    ensures var s, i := a0 * 0x1_0000_0000 + a1, x0 * 0x1_0000_0000 + x1;
            && q1 == (if s + r <= i then p1 + r else p1)
            && s0 * 0x1_0000_0000 + s1 == (if s + r <= i then s + 2 * r else s)
            && ix0 * 0x1_0000_0000 + ix1 == 2 * (if s + r <= i then i - (s + r) else i)
  {
    s0, s1, q1, ix0, ix1 := a0, a1, p1, x0, x1;
    var t1: u32 := ToU32(s1 + r);
    assert t1 == a1 + r;
    var t: i32 := s0;
    if t < ix0 || (t == ix0 && t1 <= ix1) {
      s1 := ToU32(t1 + r);
      var b1 := TopBit(t1);
      var b2 := TopBit(s1);
      if b1 == 1 && b2 == 0 {
        s0 := ToI32(s0 + 1);
      }
      assert s0 * 0x1_0000_0000 + s1 == a0 * 0x1_0000_0000 + a1 + 2 * r;
      ix0 := ToI32(ix0 - t);
      if ix1 < t1 {
        ix0 := ToI32(ix0 - 1);
      }
      ix1 := ToU32(ix1 - t1);
      assert ix0 * 0x1_0000_0000 + ix1 == (x0 * 0x1_0000_0000 + x1) - (a0 * 0x1_0000_0000 + a1 + r);
      q1 := ToU32(q1 + r);
    }
    ix0, ix1 := Twice(ix0, ix1);
  }

  // Second loop: the 32 digits of the low word.
  method LowDigits(z0: i32, q: i32, x0: i32, x1: u32, ghost n: nat)
    returns (q1: u32, ix0: i32, ix1: u32)
    requires 0 <= q < 0x40_0000 && z0 == 2 * q && 0 <= x0
    requires RootInv(n, q * 0x1_0000_0000, 0x1_0000_0000, x0 * 0x1_0000_0000 + x1)
    ensures ix0 >= 0
    ensures RootInv(n, q * 0x1_0000_0000 + q1, 1, ix0 * 0x1_0000_0000 + ix1)
  {
    assert IsPow2(0x1_0000_0000) by { Pow2Values(); }
    hide RootInv, IsPow2, Shr, Pow2;
    ix0, ix1 := x0, x1;
    var s0: i32, s1: u32 := z0, 0;
    q1 := 0;
    var r: u32 := 0x8000_0000;
    ghost var w: nat := 0x1_0000_0000;
    while r != 0
      invariant 0 < w <= 0x1_0000_0000 && r == w / 2 && (r != 0 ==> w == 2 * r)
      invariant IsPow2(w)
      invariant ix0 >= 0 && q1 + w <= 0x1_0000_0000
      invariant w < 0x1_0000_0000 ==> w <= 0x8000_0000 && (q1 >= 0x8000_0000 || q1 + w <= 0x8000_0000)
      invariant (s0 == 2 * q && s1 == 2 * q1) || (s0 == 2 * q + 1 && s1 == 2 * q1 - 0x1_0000_0000)
      invariant RootInv(n, q * 0x1_0000_0000 + q1, w, ix0 * 0x1_0000_0000 + ix1)
      decreases r
    {
      RootBound(n, q * 0x1_0000_0000 + q1, w, ix0 * 0x1_0000_0000 + ix1);
      RootStep(n, q * 0x1_0000_0000 + q1, r, ix0 * 0x1_0000_0000 + ix1);
      s0, s1, q1, ix0, ix1 := LowDigit(r, s0, s1, q1, ix0, ix1);
      HalvePow2(w);
      w := r;
      HalvePow2(w);
      ShrOne(r);
      r := Shr(r, 1);
    }
  }

  // ---- normalization of the argument

  // while (ix0 == 0) { m -= 21; ix0 |= (ix1 >> 11); ix1 <<= 21; }
  method ShiftWords(x0: i32, x1: u32) returns (m: int, ix0: i32, ix1: u32)
    requires 0 <= x0 < 0x10_0000 && Pair(x0, x1) != 0
    ensures 0 <= -m <= 42 && 0 < ix0 < 0x20_0000
    ensures Pair(ix0, ix1) == Times(Pair(x0, x1), Pow2(-m))
    ensures if m == 0 then ix0 < 0x10_0000 else ix1 % 0x20_0000 == 0
  {
    hide Times, Pow2, Or, Shr, Shl;
    m, ix0, ix1 := 0, x0, x1;
    while ix0 == 0
      invariant m == 0 || m == -21 || m == -42
      invariant 0 <= ix0 < 0x20_0000
      invariant m == 0 ==> ix0 < 0x10_0000 && Pair(ix0, ix1) == Pair(x0, x1)
      invariant m == -21 ==> Pair(ix0, ix1) == Pair(x0, x1) * 0x20_0000
      invariant m == -42 ==> Pair(ix0, ix1) == Pair(x0, x1) * 0x400_0000_0000
      invariant m != 0 ==> ix1 % 0x20_0000 == 0
      decreases m + 42
    {
      m := m - 21;
      OrZero(Shr(ix1, 11));
      ShiftBy21(ix1);
      ix0 := ToI32(Or(ToU32(ix0), Shr(ix1, 11)));
      ix1 := Shl(ix1, 21);
    }
    TimesShifts(Pair(x0, x1));
  }

  lemma ShiftBy21(x: u32)
    ensures Shr(x, 11) == x / 0x800 && Shl(x, 21) == (x % 0x800) * 0x20_0000
    ensures Shl(x, 21) % 0x20_0000 == 0
  {
    Pow2Values();
    DivModUnique(Shl(x, 21), 0x20_0000, x % 0x800, 0);
  }

  lemma TimesShifts(x: int)
    ensures Times(x, Pow2(0)) == x && Times(x, Pow2(21)) == x * 0x20_0000
    ensures Times(x, Pow2(42)) == x * 0x400_0000_0000
  {
    Pow2Values();
    Pow2Add(21, 21);
  }

  // for (i = 0; (ix0 & 0x00100000) == 0; i++) { ix0 <<= 1; }
  method ShiftHigh(x0: i32) returns (i: nat, ix0: i32)
    requires 0 < x0 < 0x20_0000
    ensures 0 <= i <= 20 && 0x10_0000 <= ix0 < 0x20_0000 && ix0 == Times(x0, Pow2(i))
  {
    TimesShifts(x0);
    Pow2Values();
    hide Times, Shl, ToI32, ToU32;
    i, ix0 := 0, x0;
    var bit := TestBit20(ix0);
    while bit == 0
      invariant 0 <= i <= 20 && 0 < ix0 < 0x20_0000 && ix0 == Times(x0, Pow2(i))
      invariant bit == 0 <==> ix0 < 0x10_0000
      decreases 0x20_0000 - ix0
    {
      TimesGe(x0, Pow2(i));
      Pow2Below(i, 20);
      ShlOne(ix0);
      TimesTwo(x0, Pow2(i));
      assert Pow2(i + 1) == 2 * Pow2(i);
      i := i + 1;
      ix0 := ToI32(Shl(ToU32(ix0), 1));
      bit := TestBit20(ix0);
    }
  }

  method TestBit20(x: i32) returns (b: u32)
    requires 0 < x < 0x20_0000
    ensures b == 0 <==> x < 0x10_0000
  {
    hide And;
    Bit20(x);
    b := And(ToU32(x), 0x10_0000);
  }

  // ix0 |= (ix1 >> (32 - i)); ix1 <<= i;  For i = 0 the language leaves the shift by 32
  // undefined: here it yields 0 or ix1, whichever the machine chooses.
  method ShiftTogether(x0: i32, x1: u32, i: nat, ghost z: nat) returns (ix0: i32, ix1: u32)
    requires i <= 20 && 0x10_0000 <= x0 < 0x20_0000 && x0 == Times(z, Pow2(i))
    requires i == 0 ==> x1 % 0x20_0000 == 0
    ensures Pair(0x10_0000 + ToU32(ix0) % 0x10_0000, ix1) == Times(Pair(z, x1), Pow2(i))
  {
    hide Times, Or, Pow2, Shr, Shl, ToI32, ToU32;
    SameWord(x0);
    var carry: u32;
    if i == 0 {
      var zero: bool := *;
      carry := if zero then 0 else x1;
      OrHigh(carry, x0);
      ShlZero(x1);
      TimesShifts(z);
      TimesShifts(Pair(z, x1));
    } else {
      carry := Shr(x1, 32 - i);
      OrCarries(x0, x1, i, z);
    }
    SameWord(Or(ToU32(x0), carry));
    ix0 := ToI32(Or(ToU32(x0), carry));
    ix1 := Shl(x1, i);
  }

  lemma ShlZero(x: u32)
    ensures Shl(x, 0) == x
  {}

  // A word with 21 low zeros does not disturb the 21 low bits of x.
  lemma OrHigh(c: u32, x: u32)
    requires c % 0x20_0000 == 0 && x < 0x20_0000
    ensures Or(x, c) < 0x1_0000_0000 && Or(x, c) % 0x10_0000 == x % 0x10_0000
  {
    hide Or, Pow2;
    Pow2Values();
    OrDisjoint(c / 0x20_0000, x, 21);
  }

  // The bits shifted out of the low word enter the high word below its own.
  lemma OrCarries(x0: u32, x1: u32, i: nat, z: nat)
    requires 0 < i <= 20 && x0 == Times(z, Pow2(i)) && 0x10_0000 <= x0 < 0x20_0000
    ensures 0x10_0000 <= Or(x0, Shr(x1, 32 - i)) < 0x20_0000
    ensures Pair(Or(x0, Shr(x1, 32 - i)), Shl(x1, i)) == Times(Pair(z, x1), Pow2(i))
  {
    hide Or, Shr, Shl;
    ShiftSplit(x1, i);
    OrDisjoint(z, Shr(x1, 32 - i), i);
    Pow2Mono(i, 21);
    Pow2Values();
    OrBound(x0, Shr(x1, 32 - i), 21);
    hide Pow2;
    ShiftValue(z, x1, Pow2(i), x0, Shr(x1, 32 - i), Shl(x1, i));
  }

  lemma ShiftValue(z: int, x1: int, p: int, x0: int, c: int, l: int)
    requires x0 == z * p && Pair(c, l) == x1 * p
    ensures Pair(x0 + c, l) == Pair(z, x1) * p
  {
    assert (z * 0x1_0000_0000 + x1) * p == (z * p) * 0x1_0000_0000 + x1 * p;
  }

  // Brings a positive finite double to a 53-bit significand and an exponent.
  method Normalize(x: Double) returns (ix0: i32, ix1: u32, m: int)
    requires x.Finite() && !x.Negative() && x.Magnitude() > 0
    ensures 0x10_0000 <= ix0 < 0x20_0000 && -61 <= m <= 2046
    ensures Normalized(x.Magnitude(), Pair(ix0, ix1), m)
  {
    hide Normalized, Pow2, And, Or, Times, Shr;
    ix0, ix1 := x.hi, x.lo;
    ShrBy20(x.hi);
    m := Shr(x.hi, 20);
    if m == 0 {
      MagnitudeSmall(x);
      m, ix0, ix1 := ShiftWords(ix0, ix1);
      ghost var m0, p0, p1 := m, ix0, ix1;
      var i: nat;
      i, ix0 := ShiftHigh(ix0);
      TimesShifts(p0);
      m := m - (i - 1);
      ix0, ix1 := ShiftTogether(ix0, ix1, i, p0);
      SubnormalValue(x.Magnitude(), Pair(p0, p1), -m0, i, Pair(0x10_0000 + ToU32(ix0) % 0x10_0000, ix1), m);
    } else {
      NormalValue(x);
    }
    MaskIn(ToU32(ix0));
    ix0 := ToI32(Or(And(ToU32(ix0), 0x000f_ffff), 0x0010_0000));
  }

  lemma SubnormalValue(v: nat, p: nat, a: nat, b: nat, s: nat, m: int)
    requires p == Times(v, Pow2(a)) && s == Times(p, Pow2(b)) && m == 1 - a - b
    ensures Normalized(v, s, m)
  {
    Pow2Add(a, b);
    Associate(v, Pow2(a), Pow2(b));
    assert Pow2(0) == 1;
  }

  lemma MaskIn(x: u32)
    ensures Or(And(x, 0x000f_ffff), 0x0010_0000) == 0x10_0000 + x % 0x10_0000
  {
    hide And, Or, Pow2;
    Pow2Values();
    AndLow(x / 0x10_0000, x % 0x10_0000, 20);
    OrDisjoint(1, x % 0x10_0000, 20);
  }

  // ---- rounding and the whole function

  datatype Rounding = ToNearest | Upward | Downward | TowardZero

  // The probes: is 1 - tiny >= 1, and is 1 + tiny > 1, in the rounding mode?
  predicate BelowProbe(mode: Rounding) { mode.ToNearest? || mode.Upward? }
  predicate AboveProbe(mode: Rounding) { mode.Upward? }

  // From the 54-bit root d, with "inexact" set when the remainder is not zero, to the
  // doubled 53-bit result.
  method RoundDigits(q0: i32, p1: u32, inexact: bool, mode: Rounding) returns (q: i32, q1: u32)
    requires 0 <= q0 < 0x40_0000
    ensures 0 <= q <= 0x40_0000
    ensures var d := Pair(q0, p1);
            Pair(q, q1) / 2 == (if !inexact || !BelowProbe(mode) then d / 2
                                else if AboveProbe(mode) then d / 2 + 1
                                else (d + 1) / 2)
  {
    hide And;
    q, q1 := q0, p1;
    if inexact {
      if BelowProbe(mode) {
        if q1 == 0xffff_ffff {
          q1 := 0;
          q := ToI32(q + 1);
        } else if AboveProbe(mode) {
          if q1 == 0xffff_fffe {
            q := ToI32(q + 1);
          }
          q1 := ToU32(q1 + 2);
        } else {
          AndOne(q1);
          q1 := ToU32(q1 + And(q1, 1));
        }
      }
    }
  }

  // The last lines: exponent and significand put together.
  method Assemble(q: i32, q1: u32, m: int) returns (ret: Double)
    requires 0x20_0000 <= q <= 0x40_0000 && -1022 <= m <= 1022
    ensures ret.hi * 0x1_0000_0000 + ret.lo == (m + 1022) * 0x10_0000_0000_0000 + Pair(q, q1) / 2
  {
    hide And, Or, Pow2, Shr;
    HalfWord(ToU32(q));
    HalfWord(q1);
    AndOne(ToU32(q));
    var ix0: i32 := ToI32(Shr(ToU32(q), 1) + 0x3fe0_0000);
    var ix1: u32 := Shr(q1, 1);
    if And(ToU32(q), 1) == 1 {
      SetSign(ix1);
      ix1 := Or(ix1, 0x8000_0000);
    }
    ix0 := ToI32(ix0 + m * 0x10_0000);
    ret := Double(ToU32(ix0), ix1);
  }

  lemma HalfWord(x: u32)
    ensures Shr(x, 1) == x / 2
  {
    ShrOne(x);
  }

  // ---- what "correctly rounded" means
  //
  // t is the square of the exact root in units of 2^-1074, z a candidate in these units.

  ghost function Sq(a: int): int {
    a * a
  }

  // The midpoint of z and any other double lies on the far side of the root.
  ghost predicate IsNearest(z: nat, t: nat) {
    forall d: Double :: d.Finite() && d.Magnitude() != z ==>
      if d.Magnitude() < z then Sq(d.Magnitude() + z) < 4 * t else 4 * t < Sq(d.Magnitude() + z)
  }

  ghost predicate IsLeastAbove(z: nat, t: nat) {
    && t <= Sq(z)
    && forall d: Double :: d.Finite() && t <= Sq(d.Magnitude()) ==> z <= d.Magnitude()
  }

  ghost predicate IsGreatestBelow(z: nat, t: nat) {
    && Sq(z) <= t
    && forall d: Double :: d.Finite() && Sq(d.Magnitude()) <= t ==> d.Magnitude() <= z
  }

  ghost predicate CorrectlyRounded(mode: Rounding, z: nat, t: nat) {
    match mode
    case ToNearest => IsNearest(z, t)
    case Upward => IsLeastAbove(z, t)
    case Downward => IsGreatestBelow(z, t)
    case TowardZero => IsGreatestBelow(z, t)
  }

  lemma SqMono(a: nat, b: nat)
    ensures a <= b <==> Sq(a) <= Sq(b)
    ensures a < b <==> Sq(a) < Sq(b)
  {
    if a < b {
      assert Sq(b) - Sq(a) == (b - a) * (b + a);
    } else {
      assert Sq(a) - Sq(b) == (a - b) * (a + b);
    }
  }

  lemma SqTimes(a: int, u: int)
    ensures Sq(a * u) == Sq(a) * Sq(u)
  {
    assert (a * u) * (a * u) == (a * a) * (u * u);
  }

  lemma ScaleLess(a: int, b: int, u: int)
    requires u > 0
    ensures a < b ==> a * Sq(u) < b * Sq(u)
    ensures a <= b ==> a * Sq(u) <= b * Sq(u)
  {
    assert Sq(u) > 0;
    assert b * Sq(u) - a * Sq(u) == (b - a) * Sq(u);
  }

  // The 54-bit root d of n brackets it, and a zero remainder leaves d even.
  lemma RoundBit(n: nat, d: nat)
    requires d > 0 && n % 4 == 0 && Sq(d) <= n < Sq(d + 1)
    ensures var r := (d + 1) / 2; Sq(2 * r - 1) < n < Sq(2 * r + 1)
    ensures Sq(d) == n ==> d % 2 == 0
  {
    if d % 2 == 1 {
      OddSquare(d);
      SqMono(d + 1, d + 2);
    } else {
      SqMono(d - 1, d);
    }
  }

  lemma OddSquare(d: nat)
    requires d % 2 == 1
    ensures Sq(d) % 4 == 1
  {
    var h := d / 2;
    assert Sq(d) == 4 * (h * h + h) + 1;
  }

  // n is the radicand with the exponent taken out: 4t = n * (2^e)^2.
  lemma NearestRoot(n: nat, d: nat, e: nat, t: nat)
    requires n % 4 == 0 && Sq(d) <= n < Sq(d + 1)
    requires 0x20_0000_0000_0000 <= d < 0x40_0000_0000_0000 && 4 * t == n * Sq(Pow2(e))
    ensures IsNearest((d + 1) / 2 * Pow2(e), t)
  {
    var r, u := (d + 1) / 2, Pow2(e);
    RoundBit(n, d);
    forall x: Double | x.Finite() && x.Magnitude() != r * u
      ensures if x.Magnitude() < r * u then Sq(x.Magnitude() + r * u) < 4 * t else 4 * t < Sq(x.Magnitude() + r * u)
    {
      Spacing(x, r, e);
      NearestCase(n, d, r, u, t, x.Magnitude());
    }
  }

  lemma NearestCase(n: nat, d: nat, r: nat, u: nat, t: nat, x: nat)
    requires u > 0 && r == (d + 1) / 2 && Sq(d) <= n && 4 * t == n * Sq(u)
    requires Sq(2 * r - 1) < n < Sq(2 * r + 1)
    requires 0x20_0000_0000_0000 <= d
    requires x >= r * u + u || x + u <= r * u || (x < r * u && r == 0x10_0000_0000_0000)
    ensures if x < r * u then Sq(x + r * u) < 4 * t else 4 * t < Sq(x + r * u)
  {
    hide Sq;
    if x >= r * u + u {
      ScaleLess(n, Sq(2 * r + 1), u);
      SqTimes(2 * r + 1, u);
      assert (2 * r + 1) * u == 2 * (r * u) + u;
      SqMono((2 * r + 1) * u, x + r * u);
    } else if x + u <= r * u {
      ScaleLess(Sq(2 * r - 1), n, u);
      SqTimes(2 * r - 1, u);
      assert (2 * r - 1) * u == 2 * (r * u) - u;
      SqMono(x + r * u, (2 * r - 1) * u);
    } else {
      SqMono(2 * r, d);
      ScaleLess(Sq(2 * r), n, u);
      SqTimes(2 * r, u);
      assert (2 * r) * u == 2 * (r * u);
      SqMono(x + r * u, (2 * r) * u);
    }
  }

  lemma DirectedRoot(n: nat, d: nat, e: nat, t: nat)
    requires Sq(d) <= n < Sq(d + 1) && 4 * t == n * Sq(Pow2(e))
    requires 0x20_0000_0000_0000 <= d < 0x40_0000_0000_0000
    ensures IsGreatestBelow(d / 2 * Pow2(e), t)
    ensures n != Sq(d) || d % 2 == 1 ==> IsLeastAbove((d / 2 + 1) * Pow2(e), t)
    ensures n == Sq(d) && d % 2 == 0 ==> IsLeastAbove(d / 2 * Pow2(e), t)
  {
    var r, u := d / 2, Pow2(e);
    forall x: Double | x.Finite()
      ensures Sq(x.Magnitude()) <= t ==> x.Magnitude() <= r * u
      ensures t <= Sq(x.Magnitude()) && (n != Sq(d) || d % 2 == 1) ==> (r + 1) * u <= x.Magnitude()
      ensures t <= Sq(x.Magnitude()) && n == Sq(d) && d % 2 == 0 ==> r * u <= x.Magnitude()
    {
      Spacing(x, r, e);
      Spacing(x, r + 1, e);
      DirectedCase(n, d, r, u, t, x.Magnitude());
    }
    DirectedCase(n, d, r, u, t, r * u);
    assert (r + 1) * u == r * u + u;
    DirectedCase(n, d, r, u, t, (r + 1) * u);
  }

  // Where t lies between (r u)^2 and ((r + 1) u)^2.
  lemma DirectedCase(n: nat, d: nat, r: nat, u: nat, t: nat, x: nat)
    requires u > 0 && r == d / 2 && Sq(d) <= n < Sq(d + 1) && 4 * t == n * Sq(u)
    ensures x <= r * u ==> Sq(x) <= t
    ensures x < r * u ==> Sq(x) < t
    ensures x >= r * u + u ==> t < Sq(x)
    ensures n != Sq(d) || d % 2 == 1 ==> Sq(r * u) < t
    ensures n == Sq(d) && d % 2 == 0 ==> Sq(r * u) == t
  {
    hide Sq;
    var a := r * u;
    SqTwo(a);
    SqTwo(a + u);
    assert 2 * a == (2 * r) * u && 2 * (a + u) == (2 * r + 2) * u;
    SqTimes(2 * r, u);
    SqTimes(2 * r + 2, u);
    SqMono(2 * r, d);
    SqMono(d + 1, 2 * r + 2);
    ScaleLess(Sq(2 * r), n, u);
    ScaleLess(n, Sq(2 * r + 2), u);
    SqMono(x, a);
    SqMono(a + u, x);
  }

  lemma SqTwo(a: int)
    ensures Sq(2 * a) == 4 * Sq(a)
  {}

  // The exponent bookkeeping: for a value v = s * 2^(m-1) the loops work on y = s or 2s,
  // doubled when the unbiased exponent is odd, and 4 * v * 2^1074 = (y * 2^54) * 4^e.
  lemma ScaledRadicand(v: nat, s: nat, m: int)
    requires Normalized(v, s, m) && -61 <= m <= 2046
    ensures var k := m - 1023;
            4 * (v * Pow2(1074)) == s * Pow2(k % 2) * Pow2(54) * Sq(Pow2(k / 2 + 1022))
  {
    hide *;
    var k := m - 1023;
    CollectPowers(s, k % 2, k / 2 + 1022);
    Pow2Add(2, 1074);
    Pow2Two();
    AlignPowers(v, s, m);
    Associate(v, 4, Pow2(1074));
  }

  lemma Pow2Two()
    ensures Pow2(2) == 4
  {}

  lemma CollectPowers(s: nat, j: nat, e: nat)
    ensures s * Pow2(j) * Pow2(54) * Sq(Pow2(e)) == s * Pow2(j + 54 + 2 * e)
  {
    Pow2Add(e, e);
    Pow2Add(54, 2 * e);
    Pow2Add(j, 54 + 2 * e);
    assert Sq(Pow2(e)) == Pow2(2 * e);
    hide *;
    Collect(s, Pow2(j), Pow2(54), Sq(Pow2(e)), Pow2(j + 54 + 2 * e));
  }

  lemma Collect(s: int, a: int, b: int, c: int, p: int)
    requires p == a * (b * c)
    ensures s * a * b * c == s * p
  {
    assert s * a * b * c == s * (a * (b * c));
  }

  // ---- the function

  // x * x + x for a non-finite x.
  function SquarePlus(x: Double): Double
    requires !x.Finite()
  {
    if x.IsInf() && !x.Negative() then x else NAN
  }

  // t is n with the exponent of a root with last digit 2^e put back.
  ghost predicate IsScaled(t: nat, n: nat, e: nat) {
    4 * t == n * Sq(Pow2(e))
  }

  // The square of the exact root of v, both in units of 2^-1074.
  ghost function Radicand(v: nat): nat {
    v * Pow2(1074)
  }

  method Sqrt(x: Double, mode: Rounding) returns (ret: Double)
    ensures !x.Finite() ==> (if x.IsInf() && !x.Negative() then ret == x else ret.IsNaN())
    ensures x.Finite() && x.Magnitude() == 0 ==> ret == x
    ensures x.Finite() && x.Magnitude() > 0 && x.Negative() ==> ret.IsNaN()
    ensures x.Finite() && x.Magnitude() > 0 && !x.Negative() ==>
              && ret.Finite() && !ret.Negative()
              && CorrectlyRounded(mode, ret.Magnitude(), Radicand(x.Magnitude()))
  {
    hide And, Or, CorrectlyRounded, Radicand, Double.Magnitude;
    if x.Finite() { ZeroMagnitude(x); }
    var hi: i32 := ToI32(x.hi);
    ExponentMask(x.hi);
    if And(x.hi, 0x7ff0_0000) == 0x7ff0_0000 {
      return SquarePlus(x);
    }
    if hi <= 0 {
      SignMask(x.hi);
      OrIsZero(And(x.hi, 0x7fff_ffff), x.lo);
      if Or(And(x.hi, 0x7fff_ffff), x.lo) == 0 {
        return x;
      } else if hi < 0 {
        return NAN;
      }
    }
    ret := PositiveRoot(x, mode);
  }

  method PositiveRoot(x: Double, mode: Rounding) returns (ret: Double)
    requires x.Finite() && !x.Negative() && x.Magnitude() > 0
    ensures ret.Finite() && !ret.Negative()
    ensures CorrectlyRounded(mode, ret.Magnitude(), Radicand(x.Magnitude()))
  {
    hide Normalized, RootInv, And, Or, CorrectlyRounded, Sq, Pow2, Radicand, IsScaled, Double.Magnitude, BelowProbe, AboveProbe;
    var ix0: i32, ix1: u32, m := Normalize(x);
    ghost var s, m0 := Pair(ix0, ix1), m;
    m := m - 1023;
    Odd(m);
    if And(ToU32(m), 1) != 0 {
      ix0, ix1 := Twice(ix0, ix1);
    }
    ghost var n: nat := Pair(ix0, ix1) * 0x40_0000_0000_0000;
    ix0, ix1 := Twice(ix0, ix1);
    m := m / 2;
    ScaleRoot(x.Magnitude(), s, m0, n);
    RootStart(n, Pair(ix0, ix1));
    var s0: i32, q: i32;
    s0, q, ix0, ix1 := HighDigits(ix0, ix1, n);
    var q1: u32;
    q1, ix0, ix1 := LowDigits(s0, q, ix0, ix1, n);
    ghost var d: nat := Pair(q, q1);
    RootEnd(n, d, Pair(ix0, ix1));
    OrIsZero(ToU32(ix0), ix1);
    q, q1 := RoundDigits(q, q1, Or(ToU32(ix0), ix1) != 0, mode);
    assert Pair(q, q1) / 2 == (if n == Sq(d) || !BelowProbe(mode) then d / 2
                               else if AboveProbe(mode) then d / 2 + 1
                               else (d + 1) / 2);
    RootRange(n, d);
    ret := Assemble(q, q1, m);
    Encode(ret, Pair(q, q1) / 2, m + 1022);
    Rounded(mode, n, d, m + 1022, Radicand(x.Magnitude()), Pair(q, q1) / 2);
  }

  lemma Odd(m: int)
    requires -0x8000_0000 <= m < 0x8000_0000
    ensures And(ToU32(m), 1) == m % 2
  {
    AndOne(ToU32(m));
  }

  lemma ScaleRoot(v: nat, s: nat, m: int, n: nat)
    requires Normalized(v, s, m) && -61 <= m <= 2046
    requires n == (if (m - 1023) % 2 == 1 then 2 * s else s) * 0x40_0000_0000_0000
    ensures IsScaled(Radicand(v), n, (m - 1023) / 2 + 1022)
  {
    Pow2Values();
    Parity(m - 1023);
    hide Pow2, Sq, Normalized;
    ScaledRadicand(v, s, m);
    assert s * Pow2((m - 1023) % 2) * Pow2(54) == n;
  }

  lemma Parity(m: int)
    ensures Pow2(m % 2) == (if m % 2 == 1 then 2 else 1)
  {}

  lemma RootStart(n: nat, i: nat)
    requires n == i * 0x20_0000_0000_0000 && i < 0x80_0000_0000_0000
    ensures RootInv(n, 0, 0x40_0000_0000_0000, i) && n % 4 == 0
  {}

  lemma RootEnd(n: nat, d: nat, i: nat)
    requires RootInv(n, d, 1, i)
    ensures Sq(d) <= n < Sq(d + 1) && (i == 0 <==> n == Sq(d))
  {}

  lemma RootRange(n: nat, d: nat)
    requires Sq(d) <= n < Sq(d + 1)
    requires 0x400_0000_0000_0000_0000_0000_0000 <= n < 0x1000_0000_0000_0000_0000_0000_0000
    ensures 0x20_0000_0000_0000 <= d < 0x40_0000_0000_0000
  {
    SqMono(0x20_0000_0000_0000, d + 1);
    SqMono(d, 0x40_0000_0000_0000);
  }

  lemma Rounded(mode: Rounding, n: nat, d: nat, e: nat, t: nat, r: nat)
    requires n % 4 == 0 && Sq(d) <= n < Sq(d + 1) && IsScaled(t, n, e)
    requires 0x20_0000_0000_0000 <= d < 0x40_0000_0000_0000
    requires r == (if n == Sq(d) || !BelowProbe(mode) then d / 2
                   else if AboveProbe(mode) then d / 2 + 1
                   else (d + 1) / 2)
    ensures CorrectlyRounded(mode, r * Pow2(e), t)
  {
    hide Sq, Pow2, IsNearest, IsLeastAbove, IsGreatestBelow;
    RoundBit(n, d);
    NearestRoot(n, d, e, t);
    DirectedRoot(n, d, e, t);
  }
}
