// Exact remainder by shift and subtract on the two words of a double (jerry-math/fmod.c).
module Fmod {
  import opened Words

  // ---- one-number specification: what n more steps compute from x

  ghost function Rem(x: nat, n: nat, y: nat): nat
    requires y > 0
  {
    (x * Pow2(n)) % y
  }

  lemma RemDouble(x: nat, n: nat, y: nat)
    requires y > 0 && n > 0
    ensures Rem(x, n, y) == Rem(2 * x, n - 1, y)
  {
    var p := Pow2(n - 1);
    assert Pow2(n) == 2 * p;
    assert x * (2 * p) == (2 * x) * p;
  }

  lemma ModUnique(a: int, b: int, y: int, q: int)
    requires y > 0 && a == b + q * y
    ensures a % y == b % y
  {
    var d, r := b / y, b % y;
    assert b == y * d + r;
    assert a == (d + q) * y + r;
    DivModUnique(a, y, d + q, r);
  }

  lemma RemSubtract(x: nat, n: nat, y: nat)
    requires 0 < y <= x
    ensures Rem(x, n, y) == Rem(x - y, n, y)
  {
    var p := Pow2(n);
    assert x * p == (x - y) * p + p * y;
    ModUnique(x * p, (x - y) * p, y, p);
  }

  lemma RemEnds(x: nat, n: nat, y: nat)
    requires y > 0
    ensures Rem(0, n, y) == 0
    ensures x < y ==> Rem(x, 0, y) == x
  {
    assert Pow2(0) == 1;
    DivModUnique(0, y, 0, 0);
    if x < y { DivModUnique(x, y, 0, x); }
  }

  // ---- exponents

  // for (ix = start, i = w; i > 0; i <<= 1) ix -= 1; with w seen as an int
  method CountDown(w: u32, start: int) returns (ix: int, ghost s: nat)
    requires w > 0
    ensures s <= 31 && ix == start - s
    ensures 0x8000_0000 <= Times(w, Pow2(s)) < 0x1_0000_0000
  {
    hide Times, Pow2, Shl;
    TimesOne(w);
    ix, s := start, 0;
    var i: i32 := ToI32(w);
    while i > 0
      invariant ix == start - s && s <= 31
      invariant 0 < ToU32(i) < 0x1_0000_0000 && ToU32(i) == Times(w, Pow2(s))
      decreases 0x1_0000_0000 - ToU32(i)
    {
      TimesGe(w, Pow2(s));
      Pow2Below(s, 31) by { Pow2Values(); }
      ShlDouble(i);
      TimesNext(w, s);
      ix := ix - 1;
      i := ToI32(Shl(ToU32(i), 1));
      s := s + 1;
    }
  }

  lemma TimesOne(w: int)
    ensures Times(w, Pow2(0)) == w
  {}

  lemma TimesNext(w: int, s: nat)
    ensures Times(w, Pow2(s + 1)) == 2 * Times(w, Pow2(s))
  {}

  lemma ShlDouble(i: i32)
    requires i > 0
    ensures ToU32(ToI32(Shl(ToU32(i), 1))) == 2 * i
  {
    assert Pow2(1) == 2;
  }

  // ilogb of a positive finite number, 1 bit per step when it is subnormal.
  method Ilogb(h: i32, l: u32) returns (ix: int)
    requires 0 <= h < 0x7ff0_0000 && Pair(h, l) > 0
    ensures h >= 0x10_0000 ==> ix == h / 0x10_0000 - 1023
    ensures h < 0x10_0000 ==>
              && 1 <= -1022 - ix <= 52
              && 0x10_0000_0000_0000 <= Times(Pair(h, l), Pow2(-1022 - ix)) < 0x20_0000_0000_0000
  {
    hide Times, Pow2, Shr, Shl;
    ghost var s: nat;
    if h < 0x10_0000 {
      if h == 0 {
        ix, s := CountDown(l, -1043);
        LeadLow(l, s);
      } else {
        ShlBy11(h);
        ix, s := CountDown(Shl(ToU32(h), 11), -1022);
        LeadHigh(h, l, s);
      }
    } else {
      ShrBy20(ToU32(h));
      ix := Shr(ToU32(h), 20) - 1023;
    }
  }

  lemma LeadLow(l: u32, s: nat)
    requires 0x8000_0000 <= Times(l, Pow2(s)) < 0x1_0000_0000
    ensures Times(l, Pow2(21 + s)) == 0x20_0000 * Times(l, Pow2(s))
  {
    Pow2Add(21, s);
    Pow2Values();
    hide Pow2;
    assert l * (0x20_0000 * Pow2(s)) == 0x20_0000 * (l * Pow2(s));
  }

  lemma ShlBy11(h: u32)
    requires h < 0x10_0000
    ensures Shl(h, 11) == h * 0x800
  {
    Pow2Values();
  }

  lemma LeadHigh(h: nat, l: u32, s: nat)
    requires 0 < h < 0x10_0000 && 0x8000_0000 <= Times(h * 0x800, Pow2(s)) < 0x1_0000_0000
    ensures 0 < s <= 52 && 0x10_0000_0000_0000 <= Times(Pair(h, l), Pow2(s)) < 0x20_0000_0000_0000
  {
    TimesOne(h * 0x800);
    Pow2Values();
    hide Pow2;
    Associate(0x800, h, Pow2(s));
    MulGe(h, Pow2(s));
    Pow2Below(s, 21);
    LeadPair(h, l, s);
  }

  lemma LeadPair(h: nat, l: u32, s: nat)
    requires s <= 21 && 0x10_0000 <= h * Pow2(s) < 0x20_0000
    ensures 0x10_0000_0000_0000 <= Pair(h, l) * Pow2(s) < 0x20_0000_0000_0000
  {
    Pow2Add(21 - s, s);
    Pow2Values();
    hide Pow2;
    BelowMultiple(h, Pow2(s), Pow2(21 - s));
    PairTimes(h, l, Pow2(s));
  }

  lemma BelowMultiple(h: int, p: int, c: int)
    requires p > 0 && h * p < c * p
    ensures h * p + p <= c * p
  {
    assert (c - h) * p == c * p - h * p;
    PositiveFactor(c - h, p);
    assert (c - h - 1) * p >= 0;
    assert (c - h - 1) * p == c * p - h * p - p;
  }

  lemma PairTimes(h: int, l: u32, p: int)
    requires p > 0
    ensures (h * p) * 0x1_0000_0000 <= Pair(h, l) * p < (h * p + p) * 0x1_0000_0000
  {
    assert Pair(h, l) * p == (h * p) * 0x1_0000_0000 + l * p;
    assert l * p >= 0;
    assert (0x1_0000_0000 - l) * p > 0;
    assert (0x1_0000_0000 - l) * p == 0x1_0000_0000 * p - l * p;
  }

  // ---- significands

  // {h,l} shifted to a 53-bit significand.
  method Align(h: i32, l: u32, ix: int) returns (hx: i32, lx: u32)
    requires 0 <= h < 0x7ff0_0000 && Pair(h, l) > 0 && ix <= 1023
    requires h >= 0x10_0000 ==> ix == h / 0x10_0000 - 1023
    requires h < 0x10_0000 ==>
              && 1 <= -1022 - ix <= 52
              && 0x10_0000_0000_0000 <= Times(Pair(h, l), Pow2(-1022 - ix)) < 0x20_0000_0000_0000
    ensures 0x10_0000 <= hx < 0x20_0000
    ensures h >= 0x10_0000 ==> Pair(hx, lx) == Pair(0x10_0000 + h % 0x10_0000, l)
    ensures h < 0x10_0000 ==> Pair(hx, lx) == Times(Pair(h, l), Pow2(-1022 - ix))
  {
    hide Times, And, Or, Pow2, Shl, Shr;
    hx, lx := h, l;
    if ix >= -1022 {
      MaskIn(ToU32(hx));
      hx := ToI32(Or(0x0010_0000, And(0x000f_ffff, ToU32(hx))));
    } else {
      var n: nat := -1022 - ix;
      if n <= 31 {
        AlignTogether(ToU32(hx), lx, n);
        hx := ToI32(Or(Shl(ToU32(hx), n), Shr(lx, 32 - n)));
        lx := Shl(lx, n);
      } else {
        AlignLow(ToU32(hx), lx, n);
        hx := ToI32(Shl(lx, n - 32));
        lx := 0;
      }
    }
  }

  lemma MaskIn(x: u32)
    ensures Or(0x0010_0000, And(0x000f_ffff, x)) == 0x10_0000 + x % 0x10_0000
  {
    hide And, Or, Pow2;
    Pow2Values();
    AndLow(x / 0x10_0000, x % 0x10_0000, 20);
    AndSymmetric(x, 0x000f_ffff);
    OrDisjoint(1, x % 0x10_0000, 20);
  }

  lemma AlignTogether(h: u32, l: u32, n: nat)
    requires 1 <= n <= 31 && Times(Pair(h, l), Pow2(n)) < 0x20_0000_0000_0000
    ensures Pair(Or(Shl(h, n), Shr(l, 32 - n)), Shl(l, n)) == Times(Pair(h, l), Pow2(n))
  {
    hide Or, Shl, Shr, Pow2;
    ShiftSplit(l, n);
    PairTimes(h, l, Pow2(n));
    ShlExact(h, n);
    OrDisjoint(h, Shr(l, 32 - n), n);
    assert Pair(h, l) * Pow2(n) == (h * Pow2(n)) * 0x1_0000_0000 + l * Pow2(n);
  }

  lemma ShlExact(x: u32, n: nat)
    requires x * Pow2(n) < 0x1_0000_0000
    ensures Shl(x, n) == x * Pow2(n)
  {
    DivModUnique(x * Pow2(n), 0x1_0000_0000, 0, x * Pow2(n));
  }

  lemma AlignLow(h: u32, l: u32, n: nat)
    requires 32 <= n <= 52 && 0 < Times(Pair(h, l), Pow2(n)) < 0x20_0000_0000_0000
    ensures h == 0 && Shl(l, n - 32) < 0x20_0000
    ensures Shl(l, n - 32) * 0x1_0000_0000 == Times(Pair(h, l), Pow2(n))
  {
    hide Pow2, Shl;
    Pow2Add(n - 32, 32);
    Pow2Values();
    SmallProduct(Pair(h, l), Pow2(n - 32));
    ShlExact(l, n - 32);
  }

  lemma SmallProduct(a: nat, q: int)
    requires q > 0 && a * (q * 0x1_0000_0000) < 0x20_0000_0000_0000
    ensures a <= a * q < 0x20_0000
    ensures (a * q) * 0x1_0000_0000 == a * (q * 0x1_0000_0000)
  {
    Associate(a, q, 0x1_0000_0000);
    assert (q - 1) * a >= 0;
  }

  // ---- the division loop

  // hz = hx - hy; lz = lx - ly; with the borrow taken from hz
  method Subtract(hx: i32, lx: u32, hy: i32, ly: u32) returns (hz: i32, lz: u32)
    requires 0 <= hx < 0x40_0000 && 0 <= hy < 0x40_0000
    ensures Pair(hz, lz) == Pair(hx, lx) - Pair(hy, ly)
  {
    hz := ToI32(hx - hy);
    lz := ToU32(lx - ly);
    if lx < ly {
      hz := ToI32(hz - 1);
    }
  }

  // hx = hx + hx + (lx >> 31); lx = lx + lx;
  method Twice(h: i32, l: u32) returns (hx: i32, lx: u32)
    requires 0 <= h < 0x20_0000
    ensures Pair(hx, lx) == 2 * Pair(h, l)
  {
    hide Shr;
    ShrBy31(l);
    hx := ToI32(h + h + Shr(l, 31));
    lx := ToU32(l + l);
  }

  lemma OrPairZero(h: i32, l: u32)
    requires h >= 0
    ensures Or(ToU32(h), l) == 0 <==> Pair(h, l) == 0
  {
    OrIsZero(ToU32(h), l);
  }

  // while (n--) ..., and the last subtraction
  method ShiftSubtract(x0: i32, x1: u32, hy: i32, ly: u32, count: nat)
    returns (zero: bool, hx: i32, lx: u32)
    requires 0x10_0000 <= x0 < 0x20_0000 && 0x10_0000 <= hy < 0x20_0000
    ensures zero ==> Rem(Pair(x0, x1), count, Pair(hy, ly)) == 0
    ensures !zero ==> Pair(hx, lx) == Rem(Pair(x0, x1), count, Pair(hy, ly)) < Pair(hy, ly)
  {
    hide Rem, Or;
    zero, hx, lx := false, x0, x1;
    var n := count;
    var hz: i32, lz: u32;
    while n > 0
      invariant 0 <= Pair(hx, lx) < 2 * Pair(hy, ly)
      invariant Rem(Pair(hx, lx), n, Pair(hy, ly)) == Rem(Pair(x0, x1), count, Pair(hy, ly))
    {
      hz, lz := Subtract(hx, lx, hy, ly);
      if hz < 0 {
        RemDouble(Pair(hx, lx), n, Pair(hy, ly));
        hx, lx := Twice(hx, lx);
      } else {
        RemSubtract(Pair(hx, lx), n, Pair(hy, ly));
        OrPairZero(hz, lz);
        RemEnds(Pair(hz, lz), n, Pair(hy, ly));
        if Or(ToU32(hz), lz) == 0 {
          zero := true;
          return;
        }
        RemDouble(Pair(hz, lz), n, Pair(hy, ly));
        hx, lx := Twice(hz, lz);
      }
      n := n - 1;
    }
    hz, lz := Subtract(hx, lx, hy, ly);
    if hz >= 0 {
      RemSubtract(Pair(hx, lx), 0, Pair(hy, ly));
      hx, lx := hz, lz;
    }
    RemEnds(Pair(hx, lx), 0, Pair(hy, ly));
  }

  // while (hx < 0x00100000) { double; iy -= 1; }
  method Renormalize(h: i32, l: u32, y: int) returns (hx: i32, lx: u32, iy: int)
    requires 0 <= h < 0x20_0000 && Pair(h, l) > 0
    ensures 0x10_0000 <= hx < 0x20_0000 && iy <= y
    ensures Pair(hx, lx) == Times(Pair(h, l), Pow2(y - iy))
  {
    hide Times, Pow2;
    hx, lx, iy := h, l, y;
    TimesOne(Pair(h, l));
    while hx < 0x10_0000
      invariant 0 <= hx < 0x20_0000 && Pair(hx, lx) > 0 && iy <= y
      invariant Pair(hx, lx) == Times(Pair(h, l), Pow2(y - iy))
      decreases 0x40_0000_0000_0000 - Pair(hx, lx)
    {
      TimesNext(Pair(h, l), y - iy);
      hx, lx := Twice(hx, lx);
      iy := iy - 1;
    }
  }

  // ---- from significands back to values

  // v = s * 2^(m-1), with the exponents moved where none is negative.
  ghost predicate Aligned(v: nat, s: nat, m: int)
    requires m >= -1075
  {
    v * Pow2(1076) == s * Pow2(m + 1075)
  }

  lemma Unalign(v: nat, s: nat, m: int)
    requires -1074 <= m <= 2046 && Aligned(v, s, m)
    ensures Normalized(v, s, m)
  {
    hide Pow2;
    if m >= 1 {
      Pow2Add(m - 1, 1076);
      Associate(s, Pow2(m - 1), Pow2(1076));
      CancelFactor(v, s * Pow2(m - 1), Pow2(1076));
    } else {
      Pow2Add(1 - m, m + 1075);
      Associate(v, Pow2(1 - m), Pow2(m + 1075));
      CancelFactor(v * Pow2(1 - m), s, Pow2(m + 1075));
    }
  }

  lemma CancelFactor(a: int, b: int, u: int)
    requires u > 0 && a * u == b * u
    ensures a == b
  {
    assert (a - b) * u == 0;
  }

  lemma ModScale(a: nat, b: nat, u: nat)
    requires b > 0 && u > 0
    ensures b * u > 0 && (a * u) % (b * u) == (a % b) * u
  {
    var q, r := a / b, a % b;
    assert a == b * q + r;
    assert b * u > 0;
    assert a * u == q * (b * u) + r * u;
    assert (b - r) * u > 0;
    assert (b - r) * u == b * u - r * u;
    DivModUnique(a * u, b * u, q, r * u);
  }

  // The remainder of the values is the remainder of the significands, scaled like y.
  lemma RemValue(vx: nat, x: nat, mx: int, vy: nat, y: nat, my: int)
    requires Normalized(vx, x, mx) && Normalized(vy, y, my) && vy > 0 && y > 0
    requires -1074 <= my <= mx <= 2046
    ensures Aligned(vx % vy, Rem(x, mx - my, y), my)
  {
    AlignPowers(vx, x, mx);
    AlignPowers(vy, y, my);
    Pow2Add(mx - my, my + 1075);
    hide Pow2, Normalized;
    Associate(x, Pow2(mx - my), Pow2(my + 1075));
    ModScale(vx, vy, Pow2(1076));
    ModScale(x * Pow2(mx - my), y, Pow2(my + 1075));
  }

  // Renormalizing keeps the value.
  lemma AlignedShift(v: nat, s: nat, m: int, j: nat)
    requires m - j >= -1075 && Aligned(v, s, m)
    ensures Aligned(v, Times(s, Pow2(j)), m - j)
  {
    Pow2Add(j, m - j + 1075);
    hide Pow2;
    Associate(s, Pow2(j), Pow2(m - j + 1075));
  }

  lemma AlignedZero(v: nat, s: nat, m: int)
    requires m >= -1075 && Aligned(v, s, m)
    ensures v == 0 <==> s == 0
  {
    hide Pow2;
    if v > 0 { MulGe(v, Pow2(1076)); }
    if s > 0 { MulGe(s, Pow2(m + 1075)); }
  }

  lemma ShiftBound(z: nat, j: nat)
    requires z > 0 && Times(z, Pow2(j)) < 0x20_0000_0000_0000
    ensures j <= 52
  {
    MulGe(z, Pow2(j));
    Pow2Values();
    Pow2Below(j, 53);
  }

  // ---- output

  method Pack(h: i32, l: u32, iy: int, sx: u32, ghost v: nat) returns (ret: Double)
    requires 0x10_0000 <= h < 0x20_0000 && (sx == 0 || sx == 0x8000_0000)
    requires v > 0 && iy <= 1023 && Normalized(v, Pair(h, l), iy + 1023)
    ensures ret.Finite() && ret.Magnitude() == v && (ret.Negative() <==> sx != 0)
  {
    hide Normalized, And, Or, Pow2, Shl, Shr, Double.Magnitude;
    var hx: i32, lx: u32 := h, l;
    if iy >= -1022 {
      JoinExponent(ToU32(hx - 0x10_0000), iy + 1023);
      hx := ToI32(Or(ToU32(hx - 0x10_0000), ToU32((iy + 1023) * 0x10_0000)));
      WithSign(ToU32(hx), sx);
      ret := Double(Or(ToU32(hx), sx), lx);
      NormalOutput(ret, h, l, iy + 1023, v);
    } else {
      var n: nat := -1022 - iy;
      SubnormalRange(v, Pair(h, l), n);
      LowPart(h, l, n, v);
      if n <= 20 {
        lx := Or(Shr(lx, n), Shl(ToU32(hx), 32 - n));
        hx := ToI32(Shr(ToU32(hx), n));
      } else if n <= 31 {
        lx := Or(Shl(ToU32(hx), 32 - n), Shr(lx, n));
        hx := ToI32(sx);
      } else {
        lx := Shr(ToU32(hx), n - 32);
        hx := ToI32(sx);
      }
      WithSign(v / 0x1_0000_0000, sx);
      SameWord(sx);
      OrSelf(sx);
      ret := Double(Or(ToU32(hx), sx), lx);
      SubnormalOutput(ret, v);
    }
  }

  lemma JoinExponent(a: u32, e: nat)
    requires a < 0x10_0000 && 1 <= e <= 2046
    ensures Or(a, e * 0x10_0000) == a + e * 0x10_0000
  {
    hide Or, Pow2;
    Pow2Values();
    OrDisjoint(e, a, 20);
  }

  lemma WithSign(a: u32, sx: u32)
    requires a < 0x8000_0000 && (sx == 0 || sx == 0x8000_0000)
    ensures Or(a, sx) == a + sx
  {
    hide Or;
    SetSign(a);
    OrZero(a);
  }

  lemma OrSelf(x: nat)
    ensures Or(x, x) == x
  {}

  lemma NormalOutput(ret: Double, h: nat, l: u32, m: int, v: nat)
    requires 0x10_0000 <= h < 0x20_0000 && 1 <= m <= 2046 && Normalized(v, Pair(h, l), m)
    requires ret.hi % 0x8000_0000 == h - 0x10_0000 + m * 0x10_0000 && ret.lo == l
    ensures ret.Finite() && ret.Magnitude() == v
  {
    Fields(ret);
    hide Pow2, Double.Exponent, Double.Fraction;
    assert ret.Exponent() == m;
  }

  // The fields of a double do not depend on its sign.
  lemma Fields(d: Double)
    ensures d.Exponent() == d.hi % 0x8000_0000 / 0x10_0000
    ensures d.Fraction() == Pair(d.hi % 0x8000_0000 % 0x10_0000, d.lo)
  {}

  lemma SubnormalOutput(ret: Double, v: nat)
    requires v < 0x10_0000_0000_0000
    requires ret.hi % 0x8000_0000 == v / 0x1_0000_0000 && ret.lo == v % 0x1_0000_0000
    ensures ret.Finite() && ret.Magnitude() == v
  {
    assert ret.Exponent() == 0;
  }

  lemma SubnormalRange(v: nat, s: nat, n: nat)
    requires n >= 1 && v > 0 && s < 0x20_0000_0000_0000 && Normalized(v, s, 1 - n)
    ensures n <= 52 && v < 0x10_0000_0000_0000 && s == Times(v, Pow2(n))
  {
    ShiftBound(v, n);
    Pow2Mono(1, n);
    assert Pow2(1) == 2;
    hide Pow2;
    assert v * (Pow2(n) - 2) >= 0;
    assert v * Pow2(n) == v * (Pow2(n) - 2) + 2 * v;
  }

  // The right shifts of a subnormal result drop only zero bits.
  lemma LowPart(h: u32, l: u32, n: nat, v: nat)
    requires 1 <= n <= 52 && h < 0x20_0000 && Pair(h, l) == Times(v, Pow2(n))
    ensures n <= 31 ==> && Or(Shr(l, n), Shl(h, 32 - n)) == v % 0x1_0000_0000
                        && Or(Shl(h, 32 - n), Shr(l, n)) == v % 0x1_0000_0000
                        && Shr(h, n) == v / 0x1_0000_0000
    ensures 21 <= n ==> v / 0x1_0000_0000 == 0
    ensures 32 <= n ==> Shr(h, n - 32) == v % 0x1_0000_0000
  {
    if n <= 31 {
      LowPartTogether(h, l, n, v);
      if n >= 21 {
        Pow2Mono(21, n);
        Pow2Values();
        hide Pow2, Or, Shl;
        DivModUnique(h, Pow2(n), 0, h);
      }
    } else {
      LowPartHigh(h, l, n, v);
    }
  }

  lemma LowPartTogether(h: u32, l: u32, n: nat, v: nat)
    requires 1 <= n <= 31 && Pair(h, l) == Times(v, Pow2(n))
    ensures Or(Shr(l, n), Shl(h, 32 - n)) == v % 0x1_0000_0000
    ensures Or(Shl(h, 32 - n), Shr(l, n)) == v % 0x1_0000_0000
    ensures Shr(h, n) == v / 0x1_0000_0000
  {
    Pow2Add(32 - n, n);
    Pow2Values();
    var p: int, c: int := Pow2(n), Pow2(32 - n);
    var a, b, e := h / p, h % p, l / p;
    assert Shr(h, n) == a && Shr(l, n) == e && Shl(h, 32 - n) == (h * c) % 0x1_0000_0000;
    hide Or, Pow2, Shl, Shr;
    SplitParts(h, l, p, c, v);
    OrDisjoint(b, e, 32 - n);
  }

  lemma SplitParts(h: u32, l: u32, p: int, c: int, v: nat)
    requires p > 0 && c > 0 && c * p == 0x1_0000_0000 && Pair(h, l) == v * p
    ensures 0 <= h % p && 0 <= l / p < c && v / 0x1_0000_0000 == h / p
    ensures (h * c) % 0x1_0000_0000 == h % p * c && v % 0x1_0000_0000 == h % p * c + l / p
  {
    var a, b, e := h / p, h % p, l / p;
    assert h == p * a + b && l == p * e + l % p;
    Recombine(h, l, p, c, a, b, e, l % p, v);
    DivModUnique(v, 0x1_0000_0000, a, b * c + e);
    HighProduct(h, p, c, a, b);
  }

  lemma HighProduct(h: int, p: int, c: int, a: int, b: int)
    requires p > 0 && c > 0 && c * p == 0x1_0000_0000 && h == p * a + b && 0 <= b < p
    ensures (h * c) % 0x1_0000_0000 == b * c
  {
    assert h * c == a * (c * p) + b * c;
    assert (p - b) * c > 0;
    assert (p - b) * c == c * p - b * c;
    assert b * c >= 0;
    DivModUnique(h * c, 0x1_0000_0000, a, b * c);
  }

  lemma Recombine(h: int, l: int, p: int, c: int, a: int, b: int, e: int, f: int, v: int)
    requires p > 0 && c > 0 && c * p == 0x1_0000_0000 && 0 <= l < 0x1_0000_0000
    requires h == p * a + b && 0 <= b < p && l == p * e + f && 0 <= f < p
    requires h * 0x1_0000_0000 + l == v * p
    ensures v == a * 0x1_0000_0000 + b * c + e
    ensures 0 <= e < c && 0 <= b * c + e < 0x1_0000_0000
  {
    Recombined(p, c, a, b, e);
    QuotientUnique(p, v, 0, a * 0x1_0000_0000 + b * c + e, f);
    BelowFactor(e, c, p, l);
    assert (b + 1) * c <= p * c by { assert (p - b - 1) * c >= 0; }
    assert b * c >= 0;
  }

  lemma Recombined(p: int, c: int, a: int, b: int, e: int)
    requires c * p == 0x1_0000_0000
    ensures (a * 0x1_0000_0000 + b * c + e) * p == (p * a + b) * 0x1_0000_0000 + p * e
  {
    assert (b * c) * p == b * (c * p);
    assert (a * 0x1_0000_0000 + b * c + e) * p == (p * a) * 0x1_0000_0000 + (b * c) * p + p * e;
  }

  lemma BelowFactor(e: int, c: int, p: int, l: int)
    requires p > 0 && p * e <= l < c * p
    ensures e < c
  {
    assert (c - e) * p == c * p - p * e;
    PositiveFactor(c - e, p);
  }

  lemma LowPartHigh(h: u32, l: u32, n: nat, v: nat)
    requires 32 <= n && h < 0x20_0000 && Pair(h, l) == Times(v, Pow2(n))
    ensures v < 0x20_0000 && Shr(h, n - 32) == v
  {
    Pow2Add(n - 32, 32);
    Pow2Values();
    assert Shr(h, n - 32) == h / Pow2(n - 32);
    hide Pow2, Shr;
    HighWord(h, l, Pow2(n - 32), v);
    DivModUnique(h, Pow2(n - 32), v, 0);
  }

  lemma HighWord(h: int, l: u32, q: int, v: nat)
    requires q > 0 && h * 0x1_0000_0000 + l == v * (q * 0x1_0000_0000)
    ensures h == v * q && v <= h
  {
    Associate(v, q, 0x1_0000_0000);
    MulGe(q, v);
  }

  // ---- the function

  // Zero[(unsigned) sx >> 31]
  function SignedZero(sx: u32): Double {
    Double(sx, 0)
  }

  method Fmod(x: Double, y: Double) returns (ret: Double)
    ensures !x.Finite() || y.IsNaN() || (y.Finite() && y.Magnitude() == 0) ==> ret.IsNaN()
    ensures x.Finite() && y.IsInf() ==> ret == x
    ensures x.Finite() && y.Finite() && y.Magnitude() > 0 ==>
              && ret.Finite() && ret.Negative() == x.Negative()
              && ret.Magnitude() == x.Magnitude() % y.Magnitude()
  {
    hide And, Or, Pow2, Shr, Double.Magnitude;
    SignMask(x.hi);
    SignMask(y.hi);
    var sx: u32 := if x.hi >= 0x8000_0000 then 0x8000_0000 else 0;
    var hx: i32, lx: u32 := ToI32(And(x.hi, 0x7fff_ffff)), x.lo;
    var hy: i32, ly: u32 := ToI32(And(y.hi, 0x7fff_ffff)), y.lo;
    Classify(x);
    Classify(y);
    OrPairZero(hy, ly);
    NotANumber(ToU32(hy), ly);
    if Or(ToU32(hy), ly) == 0 || hx >= 0x7ff0_0000
       || Or(ToU32(hy), Shr(Or(ly, ToU32(0 - ly)), 31)) > 0x7ff0_0000 {
      return NAN;
    }
    if hx <= hy {
      if hx < hy || lx < ly {
        SmallerValue(x, y);
        return x;
      }
      if lx == ly {
        SameMagnitude(x, y);
        DivModUnique(x.Magnitude(), y.Magnitude(), 1, 0);
        ZeroResult(sx);
        return SignedZero(sx);
      }
    }
    ret := Divide(x, y, sx, hx, lx, hy, ly);
  }

  lemma Classify(d: Double)
    ensures var h := d.hi % 0x8000_0000;
            && (d.Finite() <==> h < 0x7ff0_0000)
            && (d.IsInf() <==> h == 0x7ff0_0000 && d.lo == 0)
            && (d.IsNaN() <==> h > 0x7ff0_0000 || (h == 0x7ff0_0000 && d.lo != 0))
            && (d.Finite() ==> (d.Magnitude() == 0 <==> Pair(h, d.lo) == 0))
  {
    if d.Finite() {
      ZeroMagnitude(d);
    }
    Fields(d);
    hide Double.Exponent, Double.Fraction, Double.Magnitude;
  }

  lemma OrOne(x: nat)
    ensures Or(x, 1) == x + 1 - x % 2
  {
    OrStep(x, 1);
    OrZero(x / 2);
  }

  // (hy | ((ly | -ly) >> 31)) > 0x7ff00000 is the test for NaN.
  lemma NotANumber(hy: u32, ly: u32)
    ensures Or(ly, ToU32(0 - ly)) < 0x1_0000_0000
    ensures Or(hy, Shr(Or(ly, ToU32(0 - ly)), 31)) > 0x7ff0_0000
            <==> hy > 0x7ff0_0000 || (hy == 0x7ff0_0000 && ly != 0)
  {
    Pow2Values();
    hide Or, Pow2;
    OrBound(ly, ToU32(0 - ly), 32);
    OrGe(ly, ToU32(0 - ly));
    OrZero(0);
    OrZero(hy);
    OrOne(hy);
  }

  lemma MagnitudeMono(x: Double, y: Double)
    requires x.Finite() && y.Finite()
    requires Pair(x.hi % 0x8000_0000, x.lo) < Pair(y.hi % 0x8000_0000, y.lo)
    ensures x.Magnitude() < y.Magnitude()
  {
    Fields(x);
    Fields(y);
    hide Double.Exponent, Double.Fraction;
    var e, g := x.Exponent(), y.Exponent();
    if e == g {
      hide Pow2;
      if e > 0 { SignificandMono(x.Fraction(), y.Fraction(), Pow2(e - 1)); }
    } else {
      BinadeLow(y);
      BinadeHigh(x);
      Pow2Mono(e, g - 1);
      hide Pow2, Double.Magnitude;
    }
  }

  lemma BinadeLow(d: Double)
    requires d.Finite() && d.Exponent() > 0
    ensures d.Magnitude() >= 0x10_0000_0000_0000 * Pow2(d.Exponent() - 1)
  {
    hide Pow2;
    assert d.Fraction() * Pow2(d.Exponent() - 1) >= 0;
  }

  lemma BinadeHigh(d: Double)
    requires d.Finite()
    ensures d.Magnitude() < 0x10_0000_0000_0000 * Pow2(d.Exponent())
  {
    if d.Exponent() == 0 {
      assert Pow2(0) == 1;
    } else {
      assert Pow2(d.Exponent()) == 2 * Pow2(d.Exponent() - 1);
      hide Pow2;
      SignificandMono(d.Fraction(), 0x10_0000_0000_0000, Pow2(d.Exponent() - 1));
    }
  }

  lemma SignificandMono(f: nat, g: nat, p: nat)
    requires f < g && p > 0
    ensures (0x10_0000_0000_0000 + f) * p < (0x10_0000_0000_0000 + g) * p
  {
    assert (g - f) * p > 0;
  }

  lemma SmallerValue(x: Double, y: Double)
    requires x.Finite() && !y.IsNaN()
    requires Pair(x.hi % 0x8000_0000, x.lo) < Pair(y.hi % 0x8000_0000, y.lo)
    ensures y.Finite() ==> y.Magnitude() > 0 && x.Magnitude() == x.Magnitude() % y.Magnitude()
  {
    if y.Finite() {
      MagnitudeMono(x, y);
      DivModUnique(x.Magnitude(), y.Magnitude(), 0, x.Magnitude());
    }
  }

  lemma SameMagnitude(x: Double, y: Double)
    requires x.Finite() && y.Finite()
    requires Pair(x.hi % 0x8000_0000, x.lo) == Pair(y.hi % 0x8000_0000, y.lo)
    ensures x.Magnitude() == y.Magnitude()
  {
    hide Pow2, Double.Exponent, Double.Fraction, Double.Magnitude, Pair;
    SamePair(x.hi % 0x8000_0000, x.lo, y.hi % 0x8000_0000, y.lo);
    Fields(x);
    Fields(y);
    SameFields(x, y);
  }

  lemma SamePair(h: u32, l: u32, h2: u32, l2: u32)
    requires Pair(h, l) == Pair(h2, l2)
    ensures h == h2 && l == l2
  {}

  lemma SameFields(x: Double, y: Double)
    requires x.Finite() && y.Finite() && x.Exponent() == y.Exponent() && x.Fraction() == y.Fraction()
    ensures x.Magnitude() == y.Magnitude()
  {}

  lemma ZeroResult(sx: u32)
    requires sx == 0 || sx == 0x8000_0000
    ensures SignedZero(sx).Finite() && SignedZero(sx).Magnitude() == 0
    ensures SignedZero(sx).Negative() <==> sx != 0
  {}

  // The general case |x| > |y| > 0, on the words without their signs.
  method Divide(x: Double, y: Double, sx: u32, x0: i32, x1: u32, y0: i32, y1: u32) returns (ret: Double)
    requires x.Finite() && y.Finite() && (sx == 0 || sx == 0x8000_0000)
    requires x0 == x.hi % 0x8000_0000 && x1 == x.lo && y0 == y.hi % 0x8000_0000 && y1 == y.lo
    requires 0 < Pair(y0, y1) < Pair(x0, x1)
    ensures y.Magnitude() > 0
    ensures ret.Finite() && (ret.Negative() <==> sx != 0)
    ensures ret.Magnitude() == x.Magnitude() % y.Magnitude()
  {
    hide Times, Pow2, Normalized, Aligned, Rem, Or, ToU32, SignedZero,
      Double.Magnitude, Double.Exponent, Double.Fraction, Double.Negative;
    Classify(x);
    Classify(y);
    var ix := Ilogb(x0, x1);
    var iy := Ilogb(y0, y1);
    var hx: i32, lx: u32 := Align(x0, x1, ix);
    var hy: i32, ly: u32 := Align(y0, y1, iy);
    ghost var sigx, sigy := Pair(hx, lx), Pair(hy, ly);
    SignificandOf(x, ix, sigx);
    SignificandOf(y, iy, sigy);
    MagnitudeMono(y, x);
    ExponentMono(x.Magnitude(), sigx, ix + 1023, y.Magnitude(), sigy, iy + 1023);
    ghost var v := x.Magnitude() % y.Magnitude();
    RemValue(x.Magnitude(), sigx, ix + 1023, y.Magnitude(), sigy, iy + 1023);
    var zero: bool;
    zero, hx, lx := ShiftSubtract(hx, lx, hy, ly, ix - iy);
    AlignedZero(v, Rem(sigx, ix - iy, sigy), iy + 1023);
    ZeroResult(sx);
    if zero {
      return SignedZero(sx);
    }
    OrPairZero(hx, lx);
    if Or(ToU32(hx), lx) == 0 {
      return SignedZero(sx);
    }
    ghost var h0, l0, i0 := hx, lx, iy;
    hx, lx, iy := Renormalize(hx, lx, iy);
    ShiftBound(Pair(h0, l0), i0 - iy);
    AlignedShift(v, Pair(h0, l0), i0 + 1023, i0 - iy);
    Unalign(v, Pair(hx, lx), iy + 1023);
    ret := Pack(hx, lx, iy, sx, v);
  }

  lemma SignificandOf(d: Double, ix: int, s: nat)
    requires d.Finite()
    requires var h := d.hi % 0x8000_0000;
             && (h >= 0x10_0000 ==> ix == h / 0x10_0000 - 1023 && s == Pair(0x10_0000 + h % 0x10_0000, d.lo))
             && (h < 0x10_0000 ==> -1022 - ix >= 1 && s == Times(Pair(h, d.lo), Pow2(-1022 - ix)))
    ensures ix <= 1023 && Normalized(d.Magnitude(), s, ix + 1023)
  {
    Fields(d);
    hide Pow2, Double.Exponent, Double.Fraction;
  }

  // The larger value has at least as large an exponent.
  lemma ExponentMono(vx: nat, sx: nat, mx: int, vy: nat, sy: nat, my: int)
    requires Normalized(vx, sx, mx) && Normalized(vy, sy, my) && vy < vx
    requires -1074 <= mx <= 2046 && -1074 <= my <= 2046
    requires sx < 0x20_0000_0000_0000 && 0x10_0000_0000_0000 <= sy
    ensures my <= mx
  {
    AlignPowers(vx, sx, mx);
    AlignPowers(vy, sy, my);
    if mx < my {
      Pow2Mono(mx + 1076, my + 1075);
      assert Pow2(mx + 1076) == 2 * Pow2(mx + 1075);
      hide Pow2;
      SmallerBinade(sx, Pow2(mx + 1075), Pow2(mx + 1075), 0x10_0000_0000_0000);
      ExponentOrder(vx, sx, Pow2(mx + 1075), vy, sy, Pow2(my + 1075), Pow2(1076));
    }
  }

  lemma ExponentOrder(vx: nat, sx: nat, p: nat, vy: nat, sy: nat, q: nat, u: nat)
    requires u > 0 && 2 * p <= q && sx < 0x20_0000_0000_0000 && 0x10_0000_0000_0000 <= sy
    requires vx * u == sx * p && vy * u == sy * q
    ensures vx <= vy
  {
    assert (0x20_0000_0000_0000 - sx) * p >= 0;
    assert (sy - 0x10_0000_0000_0000) * q >= 0;
    assert (vy - vx) * u >= 0;
    assert (vy - vx + 1) * u == (vy - vx) * u + u;
    PositiveFactor(vy - vx + 1, u);
  }
}
