// The integer stage of the large-argument reduction by pi/2: 24-bit chunks of x * (2/pi)
// are distilled, split into an integer part modulo 8 and a fraction, and the fraction is
// replaced by its complement when it is at least one half (jerry-math/trig.c).
module RemPio2 {
  import opened Words

  // ---- numbers in chunks of 24 bits

  function Base(k: nat): (b: nat)
    ensures b > 0
  {
    if k == 0 then 1 else 0x100_0000 * Base(k - 1)
  }

  // The product in unreduced chunks, most significant first.
  ghost function Product(q: seq<int>): int {
    if q == [] then 0 else Product(q[..|q| - 1]) * 0x100_0000 + q[|q| - 1]
  }

  // A fraction in reduced chunks, least significant first.
  ghost function Chunks(iq: seq<int>): int {
    if iq == [] then 0 else Chunks(iq[..|iq| - 1]) + iq[|iq| - 1] * Base(|iq| - 1)
  }

  ghost predicate Reduced(iq: seq<int>) {
    forall i :: 0 <= i < |iq| ==> 0 <= iq[i] < 0x100_0000
  }

  lemma ChunksRange(iq: seq<int>)
    requires Reduced(iq)
    ensures 0 <= Chunks(iq) < Base(|iq|)
    ensures Chunks(iq) == 0 <==> forall i :: 0 <= i < |iq| ==> iq[i] == 0
  {
    if iq != [] {
      var k := |iq| - 1;
      ChunksRange(iq[..k]);
      DigitRange(iq[k], Base(k), Chunks(iq[..k]));
      assert forall i :: 0 <= i < k ==> iq[i] == iq[..k][i];
    }
  }

  lemma DigitRange(d: int, b: int, c: int)
    requires 0 <= d < 0x100_0000 && 0 <= c < b
    ensures 0 <= c + d * b < 0x100_0000 * b
    ensures c + d * b == 0 <==> c == 0 && d == 0
  {
    assert (0xff_ffff - d) * b >= 0;
    if d > 0 { MulGe(d, b); }
  }

  lemma ChunksPush(iq: seq<int>, d: int)
    ensures Chunks(iq + [d]) == Chunks(iq) + Times(d, Base(|iq|))
  {
    assert (iq + [d])[..|iq|] == iq;
  }

  lemma ProductPop(q: seq<int>, j: nat)
    requires 0 < j <= |q|
    ensures Product(q[..j]) == Product(q[..j - 1]) * 0x100_0000 + q[j - 1]
  {
    assert q[..j][..j - 1] == q[..j - 1];
  }

  // ---- scaling by powers of two, as scalbn does

  function Scale(e: int): (s: real)
    ensures s > 0.0
  {
    if e >= 0 then Pow2(e) as real else 1.0 / (Pow2(-e) as real)
  }

  lemma ScaleNext(e: int)
    ensures Scale(e + 1) == 2.0 * Scale(e)
  {
    if e >= 0 {
      assert Pow2(e + 1) == 2 * Pow2(e);
    } else {
      assert Pow2(-e) == 2 * Pow2(-e - 1);
      assert e == -1 ==> Pow2(0) == 1;
    }
  }

  function Scalbn(z: real, n: int): real {
    z * Scale(n)
  }

  // a times s, as a named function that proofs can hide.
  ghost function Units(a: int, s: real): real {
    a as real * s
  }

  lemma UnitsProduct(a: int, b: int, s: real)
    ensures Units(a * b, s) == Units(a, Units(b, s))
  {
    assert (a * b) as real == a as real * b as real;
  }

  lemma UnitsSum(a: int, b: int, s: real)
    ensures Units(a + b, s) == Units(a, s) + Units(b, s)
    ensures Units(a - b, s) == Units(a, s) - Units(b, s)
  {}

  lemma UnitsOrder(a: int, b: int, s: real)
    requires s > 0.0
    ensures a < b <==> Units(a, s) < Units(b, s)
    ensures Units(0, s) == 0.0
  {
    var d: real := (b - a) as real;
    assert Units(b, s) - Units(a, s) == d * s;
    if a < b { assert d * s > 0.0; } else { assert (0.0 - d) * s >= 0.0; }
  }

  lemma {:induction false} ScaleAdd(e: int, n: nat)
    ensures Scale(e + n) == Units(Pow2(n), Scale(e))
  {
    hide Scale;
    if n == 0 {
      assert Pow2(0) == 1;
    } else {
      ScaleAdd(e, n - 1);
      ScaleNext(e + n - 1);
      assert Pow2(n) == 2 * Pow2(n - 1);
      hide Pow2;
      UnitsProduct(2, Pow2(n - 1), Scale(e));
    }
  }

  // ---- exact operations

  // The finite doubles: 53 bits, and an exponent from -1074 on.
  ghost predicate IsDouble(r: real) {
    exists m: int, e: int :: IsMultiple(r, m, e)
  }

  ghost predicate IsMultiple(r: real, m: int, e: int) {
    -0x20_0000_0000_0000 < m < 0x20_0000_0000_0000 && -1074 <= e <= 971 && r == Units(m, Scale(e))
  }

  // An operation whose result needs no rounding: it is the double r in every rounding mode.
  function Exact(r: real): real
    requires IsDouble(r)
  {
    r
  }

  lemma WholeIsDouble(m: int)
    requires -0x20_0000_0000_0000 < m < 0x20_0000_0000_0000
    ensures IsDouble(m as real)
  {
    assert Pow2(0) == 1;
    assert IsMultiple(m as real, m, 0);
  }

  lemma MultipleIsDouble(m: int, e: int)
    requires -0x20_0000_0000_0000 < m < 0x20_0000_0000_0000 && -1074 <= e <= 971
    ensures IsDouble(Units(m, Scale(e)))
  {
    hide Units, Scale;
    assert IsMultiple(Units(m, Scale(e)), m, e);
  }

  // One step of the distillation below.
  lemma ChunkIsDouble(z: real, zi: int)
    requires 0 <= zi < 0x20_0000_0000_0000 && z == zi as real
    ensures IsDouble(z * Scale(-24))
    ensures var fw := (z * Scale(-24)).Floor as real;
            && fw == (zi / 0x100_0000) as real && IsDouble(fw) && IsDouble(16777216.0 * fw) && IsDouble(z - 16777216.0 * fw)
            && (z - 16777216.0 * fw).Floor == zi - 0x100_0000 * (zi / 0x100_0000)
  {
    var k := zi / 0x100_0000;
    MultipleIsDouble(zi, -24);
    Pow2Of24();
    Quotient24(zi, k, Scale(-24));
    assert 16777216.0 * k as real == (0x100_0000 * k) as real;
    assert z - 16777216.0 * k as real == (zi - 0x100_0000 * k) as real;
    hide Scale, IsDouble;
    WholeIsDouble(k);
    WholeIsDouble(0x100_0000 * k);
    WholeIsDouble(zi - 0x100_0000 * k);
  }

  lemma Quotient24(z: int, k: int, w: real)
    requires k == z / 0x100_0000 && w == 1.0 / 16777216.0
    ensures (z as real * w).Floor == k
  {
    var r := z % 0x100_0000;
    assert z == 0x100_0000 * k + r;
    assert z as real == (0x100_0000 * k) as real + r as real;
    assert z as real * w == k as real + r as real * w;
    assert 0.0 <= r as real * w < 1.0;
  }

  lemma Pow2Of24()
    ensures Pow2(22) == 0x40_0000 && Pow2(23) == 0x80_0000 && Pow2(24) == 0x100_0000
  {
    Pow2Values();
    assert Pow2(22) == 2 * Pow2(21);
  }

  // ---- distillation

  // for (i = 0, j = jz, z = q[jz]; j > 0; i++, j--) ...
  // The double z is the integer zi.
  method Distill(q: seq<int>, iq: array<int>) returns (z: real, ghost zi: int)
    requires 2 <= |q| && |q| - 1 <= iq.Length
    requires forall i :: 0 <= i < |q| ==> 0 <= q[i] < 0x10_0000_0000_0000
    modifies iq
    ensures z == zi as real && 0 <= zi < 0x20_0000_0000_0000
    ensures Reduced(iq[..|q| - 1])
    ensures Product(q) == Times(zi, Base(|q| - 1)) + Chunks(iq[..|q| - 1])
  {
    hide Product, Chunks, Times, Base, Scale, IsDouble;
    EmptySums();
    BaseZero(Product(q));
    var jz := |q| - 1;
    var i, j := 0, jz;
    zi := q[jz];
    z := q[jz] as real;
    ProductPop(q, jz + 1);
    assert q[..jz + 1] == q;
    while j > 0
      invariant 0 <= i && 0 <= j && i + j == jz
      invariant z == zi as real && 0 <= zi < 0x10_0000_4000_0000
      invariant Reduced(iq[..i])
      invariant Product(q) == Times(Product(q[..j]) * 0x100_0000 + zi, Base(i)) + Chunks(iq[..i])
    {
      ChunkIsDouble(z, zi);
      var fw := Exact(Exact(z * Scale(-24)).Floor as real);
      ghost var f := zi / 0x100_0000;
      ghost var done := iq[..i];
      iq[i] := Exact(z - Exact(16777216.0 * fw)).Floor;
      assert iq[..i + 1] == done + [iq[i]];
      ChunksPush(done, iq[i]);
      ProductPop(q, j);
      CarryUp(Product(q[..j]), zi, f, i, iq[i]);
      zi := q[j - 1] + f;
      WholeIsDouble(zi);
      assert q[j - 1] as real + fw == zi as real;
      z := Exact(q[j - 1] as real + fw);
      i, j := i + 1, j - 1;
    }
  }

  lemma CarryUp(p: int, z: int, fw: int, i: nat, d: int)
    requires d == z - 0x100_0000 * fw
    ensures Times(p * 0x100_0000 + z, Base(i)) == Times(p + fw, Base(i + 1)) + Times(d, Base(i))
  {
    var b := Base(i);
    assert Base(i + 1) == 0x100_0000 * b;
    hide Base;
    assert (p + fw) * (0x100_0000 * b) == ((p + fw) * 0x100_0000) * b;
    assert ((p + fw) * 0x100_0000) * b + d * b == ((p + fw) * 0x100_0000 + d) * b;
  }

  lemma EmptySums()
    ensures Product([]) == 0 && Chunks([]) == 0
  {}

  lemma BaseZero(x: int)
    ensures Base(0) == 1 && Times(x, Base(0)) == x
  {}

  // ---- complement

  // for (i = 0; i < jz; i++) ...  compute 1 - q
  method Complement(iq: array<int>, jz: nat) returns (carry: int)
    requires 0 < jz <= iq.Length && Reduced(iq[..jz])
    modifies iq
    ensures Reduced(iq[..jz]) && (carry == 0 || carry == 1)
    ensures carry == 0 <==> Chunks(old(iq[..jz])) == 0
    ensures carry == 0 ==> iq[..jz] == old(iq[..jz])
    ensures carry == 1 ==> Chunks(iq[..jz]) == Base(jz) - Chunks(old(iq[..jz]))
    ensures old(iq[jz - 1]) > 0 ==> iq[jz - 1] == 0x100_0000 - old(iq[jz - 1]) || iq[jz - 1] == 0xff_ffff - old(iq[jz - 1])
  {
    hide Chunks, Times, Base;
    EmptySums();
    carry := 0;
    ghost var was := iq[..jz];
    for i := 0 to jz
      invariant Reduced(iq[..jz]) && (carry == 0 || carry == 1)
      invariant iq[i..jz] == was[i..]
      invariant carry == 0 ==> iq[..jz] == was && Chunks(was[..i]) == 0
      invariant carry == 1 ==> Chunks(was[..i]) > 0 && Chunks(iq[..i]) + Chunks(was[..i]) == Base(i)
      invariant i == jz && was[jz - 1] > 0 ==>
                  iq[jz - 1] == 0x100_0000 - was[jz - 1] || iq[jz - 1] == 0xff_ffff - was[jz - 1]
    {
      ghost var done := iq[..i];
      var j := iq[i];
      assert j == iq[i..jz][0] == was[i];
      assert iq[i + 1..jz] == iq[i..jz][1..] == was[i..][1..] == was[i + 1..];
      assert was[..i + 1] == was[..i] + [j];
      ChunksPush(was[..i], j);
      ChunksRange(was[..i]);
      ComplementDigit(j, i);
      if carry == 0 {
        assert done == was[..i];
        if j != 0 {
          carry := 1;
          iq[i] := 0x100_0000 - j;
        }
      } else {
        iq[i] := 0xff_ffff - j;
      }
      assert iq[..i + 1] == done + [iq[i]];
      ChunksPush(done, iq[i]);
      assert iq[i + 1..jz] == was[i + 1..];
    }
    assert was[..jz] == was;
  }

  lemma ComplementDigit(j: int, i: nat)
    requires j >= 0
    ensures Times(0x100_0000 - j, Base(i)) + Times(j, Base(i)) == Base(i + 1)
    ensures Times(0xff_ffff - j, Base(i)) + Times(j, Base(i)) == Base(i + 1) - Base(i)
    ensures Times(j, Base(i)) >= 0 && (j == 0 <==> Times(j, Base(i)) == 0)
  {
    var b := Base(i);
    assert Base(i + 1) == 0x100_0000 * b;
    hide Base;
    assert (0x100_0000 - j) * b == 0x100_0000 * b - j * b;
    if j > 0 { MulGe(j, b); }
  }

  // ---- integer multiples of a power of two

  lemma {:induction false} ScaleBase(e: int, k: nat)
    ensures Scale(e + 24 * k) == Units(Base(k), Scale(e))
  {
    hide Scale;
    if k == 0 {
      assert Base(0) == 1;
    } else {
      ScaleBase(e, k - 1);
      ScaleAdd(e + 24 * (k - 1), 24);
      Pow2Of24();
      assert Base(k) == 0x100_0000 * Base(k - 1);
      hide Pow2, Base;
      UnitsProduct(0x100_0000, Base(k - 1), Scale(e));
    }
  }

  // ---- integer part and fraction

  // v is n modulo 8, plus the fraction f.
  ghost predicate Splits(v: real, n: int, f: real) {
    exists k: int :: v == (8 * k) as real + n as real + f
  }

  // z -= 8.0 * floor (z * 0.125); n = (int) z; z -= (double) n;
  method TrimInteger(v: real, ghost zi: int, ghost q0: int) returns (n: int, z: real)
    requires 0 <= zi < 0x20_0000_0000_0000 && -1071 <= q0 <= 2 && v == Units(zi, Scale(q0))
    ensures 0 <= n <= 7 && 0.0 <= z < 1.0 && z <= v && Splits(v, n, z) && IsDouble(z)
    ensures v == v.Floor as real ==> z == 0.0 && n == v.Floor % 8
  {
    hide Scale, Units, IsDouble, Splits;
    EighthIsDouble(v, zi, q0);
    z := v;
    var k := Exact(Exact(z * 0.125).Floor as real);
    ghost var m := (v * 0.125).Floor;
    Remaining(v, m);
    PartIsDouble(zi, q0, 8 * m);
    z := Exact(z - Exact(8.0 * k));
    n := z.Floor;
    assert z - n as real == v - (8 * m + n) as real;
    PartIsDouble(zi, q0, 8 * m + n);
    WholeIsDouble(n);
    z := Exact(z - Exact(n as real));
    SplitsIs(v, m, n, z);
    EighthFloor(v.Floor);
  }

  lemma SplitsIs(v: real, k: int, n: int, f: real)
    requires v == (8 * k) as real + n as real + f
    ensures Splits(v, n, f)
  {}

  lemma Remaining(v: real, m: int)
    requires v >= 0.0 && m == (v * 0.125).Floor
    ensures m >= 0 && 0.0 <= v - (8 * m) as real < 8.0 && v - 8.0 * m as real == v - (8 * m) as real
  {}

  lemma EighthIsDouble(v: real, zi: int, q0: int)
    requires 0 <= zi < 0x20_0000_0000_0000 && -1071 <= q0 <= 2 && v == Units(zi, Scale(q0))
    ensures v >= 0.0 && IsDouble(v * 0.125) && IsDouble((v * 0.125).Floor as real) && IsDouble(8.0 * (v * 0.125).Floor as real)
  {
    hide *;
    ScaleNext(q0 - 1);
    ScaleNext(q0 - 2);
    ScaleNext(q0 - 3);
    ScaleUpTo2(q0);
    EighthUnits(v, zi, Scale(q0), Scale(q0 - 3));
    MultipleIsDouble(zi, q0 - 3);
    var k := (v * 0.125).Floor;
    WholeIsDouble(k);
    EightIsDouble(k);
  }

  lemma EightIsDouble(k: int)
    requires 0 <= k < 0x20_0000_0000_0000
    ensures IsDouble(8.0 * k as real)
  {
    assert Scale(3) == 8.0 by { Pow2Small(); assert Pow2(3) == 2 * Pow2(2); }
    MultipleIsDouble(k, 3);
  }

  lemma {:induction false} ScaleUpTo2(q0: int)
    requires q0 <= 2
    ensures Scale(q0) <= 4.0
    decreases 2 - q0
  {
    if q0 == 2 {
      Pow2Small();
    } else {
      ScaleUpTo2(q0 + 1);
      ScaleNext(q0);
    }
  }

  lemma EighthUnits(v: real, zi: int, s: real, t: real)
    requires 0 <= zi < 0x20_0000_0000_0000 && v == Units(zi, s) && s == 8.0 * t && 0.0 < s <= 4.0
    ensures v * 0.125 == Units(zi, t) && 0.0 <= v * 0.125 < 4503599627370496.0
  {
    var x := zi as real;
    assert x * s <= x * 4.0;
    assert x * s >= 0.0;
  }

  // What is left of a product when a whole number is taken off, and less than 8 remains.
  lemma PartIsDouble(zi: int, q0: int, m: int)
    requires 0 <= zi < 0x20_0000_0000_0000 && -1071 <= q0 <= 2 && m >= 0
    requires 0.0 <= Units(zi, Scale(q0)) - m as real < 8.0
    ensures IsDouble(Units(zi, Scale(q0)) - m as real)
  {
    var t := PartOf(zi, q0, m);
    hide *;
    if q0 < 0 {
      MultipleIsDouble(t, q0);
    } else {
      WholeIsDouble(t);
    }
  }

  lemma PartOf(zi: int, q0: int, m: int) returns (t: int)
    requires 0 <= zi < 0x20_0000_0000_0000 && q0 <= 2 && m >= 0
    requires 0.0 <= Units(zi, Scale(q0)) - m as real < 8.0
    ensures q0 < 0 ==> 0 <= t <= zi && Units(zi, Scale(q0)) - m as real == Units(t, Scale(q0))
    ensures q0 >= 0 ==> 0 <= t < 8 && Units(zi, Scale(q0)) - m as real == t as real
  {
    if q0 < 0 {
      ScaleAdd(q0, -q0);
      assert Scale(0) == 1.0 by { assert Pow2(0) == 1; }
      hide Scale, Units;
      var e := Pow2(-q0);
      t := zi - m * e;
      UnitsSum(zi, m * e, Scale(q0));
      UnitsProduct(m, e, Scale(q0));
      UnitsOne(m);
      UnitsOrder(t, 0, Scale(q0));
      NotMore(m, e);
    } else {
      t := zi * Pow2(q0) - m;
      hide Pow2;
      IntTimes(zi, Pow2(q0));
    }
  }

  lemma NotMore(m: int, e: nat)
    requires m >= 0
    ensures m * e >= 0
  {}

  lemma UnitsOne(m: int)
    ensures Units(m, 1.0) == m as real
  {}

  lemma EighthFloor(m: int)
    ensures (m as real * 0.125).Floor == m / 8
  {
    var r := m % 8;
    assert m as real == (8 * (m / 8)) as real + r as real;
  }

  // What one whole is, in units of the last chunk, when q0 >= 0.
  ghost function Whole(q0: int, jz: nat): int
    requires 0 <= q0 <= 2 && jz > 0
  {
    Times(Pow2(24 - q0), Base(jz - 1))
  }

  lemma WholeIsOne(q0: int, jz: nat)
    requires 0 <= q0 <= 2 && jz > 0
    ensures Units(Whole(q0, jz), Scale(q0 - 24 * jz)) == 1.0
  {
    ScaleBase(q0 - 24 * jz, jz - 1);
    ScaleAdd(q0 - 24, 24 - q0);
    UnitsProduct(Pow2(24 - q0), Base(jz - 1), Scale(q0 - 24 * jz));
    assert Scale(0) == 1.0;
  }

  // The top chunk decides how the whole fraction compares with c / 2^24.
  lemma TopChunk(s: seq<int>, c: int)
    requires s != [] && Reduced(s) && c >= 0
    ensures var g, one := Chunks(s), Times(c, Base(|s| - 1));
            && (s[|s| - 1] < c <==> g < one)
            && g - Times(c, Base(|s| - 1)) == Chunks(s[..|s| - 1]) + Times(s[|s| - 1] - c, Base(|s| - 1))
  {
    var k := |s| - 1;
    ChunksRange(s[..k]);
    CompareTop(Chunks(s[..k]), s[k], c, Base(k));
  }

  lemma CompareTop(r: int, t: int, c: int, b: int)
    requires 0 <= r < b
    ensures t < c <==> r + t * b < c * b
    ensures r + t * b - c * b == r + (t - c) * b
  {
    if t < c {
      MulGe(c - t, b);
    } else {
      assert (t - c) * b >= 0;
    }
  }

  lemma HalfPow2(m: nat)
    requires m > 0
    ensures Pow2(m) == 2 * Pow2(m - 1)
  {}

  // i = iq[jz - 1] >> (24 - q0); iq[jz - 1] -= i << (24 - q0); ih = iq[jz - 1] >> (23 - q0);
  method SplitTop(iq: array<int>, jz: nat, q0: int) returns (i: int, ih: int)
    requires 1 <= q0 <= 2 && 0 < jz <= iq.Length && Reduced(iq[..jz])
    modifies iq
    ensures Reduced(iq[..jz]) && 0 <= i < Pow2(q0) && (ih == 0 || ih == 1)
    ensures Chunks(old(iq[..jz])) == Times(i, Whole(q0, jz)) + Chunks(iq[..jz])
    ensures 0 <= Chunks(iq[..jz]) < Whole(q0, jz)
    ensures 0 <= iq[jz - 1] < Pow2(24 - q0)
    ensures ih == 1 ==> iq[jz - 1] > 0
    ensures ih == 1 <==> Whole(q0, jz) <= 2 * Chunks(iq[..jz])
  {
    hide Chunks, Times, Base, Shr, Shl;
    ghost var was := iq[..jz];
    var top: u32 := iq[jz - 1];
    SplitWord(top, q0);
    i := Shr(top, 24 - q0);
    iq[jz - 1] := iq[jz - 1] - Shl(i, 24 - q0);
    ih := Shr(iq[jz - 1], 23 - q0);
    assert iq[..jz] == was[..jz - 1] + [iq[jz - 1]];
    assert was == was[..jz - 1] + [top];
    ChunksPush(was[..jz - 1], top);
    ChunksPush(was[..jz - 1], iq[jz - 1]);
    SplitProduct(top, iq[jz - 1], i, Pow2(24 - q0), Base(jz - 1));
    TopChunk(iq[..jz], Pow2(24 - q0));
    TopChunk(iq[..jz], Pow2(23 - q0));
    HalfPow2(24 - q0);
    TimesTwoLeft(Pow2(23 - q0), Base(jz - 1));
    ChunksRange(iq[..jz]);
  }

  lemma TimesTwoLeft(a: int, b: int)
    ensures Times(2 * a, b) == 2 * Times(a, b)
  {}

  lemma SplitProduct(t: int, u: int, i: int, c: int, b: int)
    requires t == i * c + u
    ensures Times(t, b) == Times(i, Times(c, b)) + Times(u, b)
  {
    assert (i * c) * b == i * (c * b);
  }

  lemma SplitWord(top: u32, q0: int)
    requires top < 0x100_0000 && 1 <= q0 <= 2
    ensures var i, u := Shr(top, 24 - q0), top - Shl(Shr(top, 24 - q0), 24 - q0);
            && top == i * Pow2(24 - q0) + u && 0 <= u < Pow2(24 - q0) && 0 <= i < Pow2(q0)
            && (Shr(u, 23 - q0) == 0 || Shr(u, 23 - q0) == 1)
            && (Shr(u, 23 - q0) == 1 <==> u >= Pow2(23 - q0))
  {
    Pow2Of24();
    Pow2Values();
    Pow2Small();
    match q0 {
      case 1 => SplitBits(top, 0x80_0000);
      case 2 => SplitBits(top, 0x40_0000);
    }
  }

  lemma SplitBits(top: u32, c: u32)
    requires c == 0x80_0000 || c == 0x40_0000
    ensures top == top / c * c + top % c && top / c * c < 0x1_0000_0000
    ensures top % c / (c / 2) <= 1 && (top % c / (c / 2) == 1 <==> top % c >= c / 2)
  {}

  // iq[jz - 1] &= 0x7fffff; or 0x3fffff; after the complement
  method MaskTop(iq: array<int>, jz: nat, q0: int, ghost was: seq<int>)
    requires 1 <= q0 <= 2 && 0 < jz <= iq.Length && |was| == jz
    requires Reduced(iq[..jz]) && Reduced(was) && 0 < was[jz - 1] < Pow2(24 - q0)
    requires iq[jz - 1] == 0x100_0000 - was[jz - 1] || iq[jz - 1] == 0xff_ffff - was[jz - 1]
    requires Chunks(iq[..jz]) == Base(jz) - Chunks(was)
    modifies iq
    ensures Reduced(iq[..jz]) && Chunks(iq[..jz]) == Whole(q0, jz) - Chunks(was)
  {
    hide Chunks, Times, Base, And;
    ghost var mid := iq[..jz];
    var top: u32 := iq[jz - 1];
    MaskWord(top, was[jz - 1], q0);
    match q0 {
      case 1 => iq[jz - 1] := And(top, 0x7f_ffff);
      case 2 => iq[jz - 1] := And(top, 0x3f_ffff);
    }
    assert iq[..jz] == mid[..jz - 1] + [iq[jz - 1]];
    assert mid == mid[..jz - 1] + [top];
    ChunksPush(mid[..jz - 1], top);
    ChunksPush(mid[..jz - 1], iq[jz - 1]);
    BaseOfTop(jz, top, iq[jz - 1], Pow2(24 - q0));
  }

  lemma BaseOfTop(jz: nat, t: int, u: int, c: int)
    requires jz > 0 && t - u == 0x100_0000 - c
    ensures Times(t, Base(jz - 1)) - Times(u, Base(jz - 1)) == Base(jz) - Times(c, Base(jz - 1))
  {
    var b := Base(jz - 1);
    assert Base(jz) == 0x100_0000 * b;
    hide Base;
    assert (t - u) * b == t * b - u * b;
    assert (0x100_0000 - c) * b == 0x100_0000 * b - c * b;
  }

  lemma MaskWord(top: u32, was: int, q0: int)
    requires 1 <= q0 <= 2 && 0 < was < Pow2(24 - q0)
    requires top == 0x100_0000 - was || top == 0xff_ffff - was
    ensures q0 == 1 ==> top - And(top, 0x7f_ffff) == 0x100_0000 - Pow2(23)
    ensures q0 == 2 ==> top - And(top, 0x3f_ffff) == 0x100_0000 - Pow2(22)
    ensures And(top, 0x7f_ffff) <= top && And(top, 0x3f_ffff) <= top
  {
    hide And;
    Pow2Of24();
    AndLow(top / 0x80_0000, top % 0x80_0000, 23);
    AndLow(top / 0x40_0000, top % 0x40_0000, 22);
  }

  // ---- the stage; every operation on doubles in it is exact

  // The fraction left: z plus the chunks, all scaled like the last chunk.
  ghost function Fraction(z: real, iq: seq<int>, q0: int): real {
    z + Units(Chunks(iq), Scale(q0 - 24 * |iq|))
  }

  // z is a multiple of 2^q0, as the truncations that follow the stage need it.
  ghost predicate OnGrid(z: real, q0: int) {
    exists t: nat :: z == Units(t, Scale(q0))
  }

  method IntegerStage(q: seq<int>, q0: int, iq: array<int>) returns (n: int, ih: int, z: real)
    requires 2 <= |q| && |q| - 1 <= iq.Length && -1071 <= q0 <= 2
    requires forall i :: 0 <= i < |q| ==> 0 <= q[i] < 0x10_0000_0000_0000
    modifies iq
    ensures Reduced(iq[..|q| - 1]) && 0 <= n <= 8 && 0 <= ih <= 2 && IsDouble(z)
    ensures ih == 0 ==> 0.0 <= Fraction(z, iq[..|q| - 1], q0) < 0.5
    ensures ih > 0 ==> 0.0 < Fraction(z, iq[..|q| - 1], q0) <= 0.5
    ensures var v, f := Units(Product(q), Scale(q0 - 24 * (|q| - 1))), Fraction(z, iq[..|q| - 1], q0);
            Splits(v, n, if ih > 0 then -f else f)
    ensures 0.0 <= z < 1.0 && OnGrid(z, q0) && (q0 >= 0 ==> z == 0.0)
  {
    hide OnGrid, Chunks, Product, Times, Base, Units, Scale, Splits, Shr, Placed, Fraction, Whole, Pow2, IsDouble, Scalbn;
    var jz := |q| - 1;
    ghost var w := Scale(q0 - 24 * jz);
    ghost var v := Units(Product(q), w);
    ghost var zi: int;
    z, zi := Distill(q, iq);
    ghost var g := Chunks(iq[..jz]);
    ChunksRange(iq[..jz]);

    // compute n
    ScaledProduct(zi, q0, jz, Product(q), g);
    ScaledIsDouble(z, zi, q0);
    z := Exact(Scalbn(z, q0));
    n, z := TrimInteger(z, zi, q0);
    AddFraction(v, n, z, Units(g, w));
    ih := 0;
    ghost var one: int;
    if q0 > 0 {
      WholeIsOne(q0, jz);
      WholeProduct(zi, q0, n);
      one := Whole(q0, jz);
      var i: int;
      i, ih := SplitTop(iq, jz, q0);
      g := Chunks(iq[..jz]);
      AddWholes(v, n, i, one, g, w);
      Pow2Small();
      n := n + i;
      assert n <= 7;
      PlaceWhole(v, n, z, g, w, one);
      GridZero(q0);
    } else if q0 == 0 {
      WholeIsOne(q0, jz);
      WholeProduct(zi, q0, n);
      one := Whole(q0, jz);
      ih := Shr(iq[jz - 1], 23);
      TopBit(iq[..jz]);
      PlaceWhole(v, n, z, g, w, one);
      GridZero(q0);
    } else {
      GridStart(zi, q0, n, z);
      one := Times(Pow2(-q0), Base(jz));
      PlaceBelow(v, zi, q0, jz, n, z, g);
      if z >= 0.5 {
        ih := 2;
      }
    }
    PlacedBounds(v, n, z, g, w, one);

    if ih > 0 {
      n := n + 1;
      ghost var was := iq[..jz];
      var carry := Complement(iq, jz);
      if q0 > 0 {
        MaskTop(iq, jz, q0, was);
      }
      ghost var y := z;
      if ih == 2 {
        ComplementIsDouble(zi, q0, n - 1, z);
        GridComplement(z, q0);
        z := Exact(1.0 - z);
        if carry != 0 {
          z := Exact(z - Exact(Scale(q0)));
        }
      }
      Complemented(v, n - 1, y, g, q0, jz, z, Chunks(iq[..jz]));
    }
    assert |iq[..jz]| == jz;
    FractionIs(z, iq[..jz], q0);
  }

  lemma GridZero(q0: int)
    ensures OnGrid(0.0, q0)
  {
    assert Units(0, Scale(q0)) == 0.0;
  }

  lemma GridStart(zi: int, q0: int, n: int, z: real)
    requires q0 < 0 && z >= 0.0 && Splits(Units(zi, Scale(q0)), n, z)
    ensures OnGrid(z, q0)
  {
    ScaleAdd(q0, -q0);
    assert Scale(0) == 1.0 by { assert Pow2(0) == 1; }
    hide Scale, Pow2, Units, Splits;
    var t := GridPoint(zi, Scale(q0), Pow2(-q0), n, z);
    UnitsOrder(t, 0, Scale(q0));
  }

  lemma GridComplement(z: real, q0: int)
    requires q0 < 0 && OnGrid(z, q0) && z < 1.0
    ensures OnGrid(1.0 - z, q0) && OnGrid(1.0 - z - Scale(q0), q0) && 1.0 - z - Scale(q0) >= 0.0
  {
    ScaleAdd(q0, -q0);
    assert Scale(0) == 1.0 by { assert Pow2(0) == 1; }
    hide Scale, Pow2, Units;
    var t: nat :| z == Units(t, Scale(q0));
    var e := Pow2(-q0);
    UnitsOrder(t, e, Scale(q0));
    UnitsSum(e, t, Scale(q0));
    UnitsSum(e - t, 1, Scale(q0));
    UnitsAre(Scale(q0));
    UnitsOrder(0, e - t - 1, Scale(q0));
    assert 1.0 - z == Units(e - t, Scale(q0)) && 1.0 - z - Scale(q0) == Units(e - t - 1, Scale(q0));
  }

  lemma FractionIs(z: real, s: seq<int>, q0: int)
    ensures Fraction(z, s, q0) == z + Units(Chunks(s), Scale(q0 - 24 * |s|))
  {}

  // The value v is n plus the fraction z + g w, which is below 1 = one * w.
  ghost predicate Placed(v: real, n: int, z: real, g: int, w: real, one: int) {
    && w > 0.0 && Units(one, w) == 1.0 && Splits(v, n, z + Units(g, w))
    && exists num: int :: 0 <= num < one && z + Units(g, w) == Units(num, w)
  }

  lemma ScaledProduct(zi: int, q0: int, jz: nat, p: int, g: int)
    requires p == Times(zi, Base(jz)) + g
    ensures zi as real * Scale(q0) == Units(zi, Scale(q0))
    ensures Units(p, Scale(q0 - 24 * jz)) == Units(zi, Scale(q0)) + Units(g, Scale(q0 - 24 * jz))
    ensures zi >= 0 ==> Units(zi, Scale(q0)) >= 0.0
  {
    var w := Scale(q0 - 24 * jz);
    ScaleBase(q0 - 24 * jz, jz);
    UnitsProduct(zi, Base(jz), w);
    hide Scale, Base;
    UnitsSum(zi * Base(jz), g, w);
    if zi >= 0 { NonNegative(zi, Scale(q0)); }
  }

  lemma NonNegative(a: int, s: real)
    requires a >= 0 && s > 0.0
    ensures a as real * s >= 0.0
  {}

  lemma AddFraction(v: real, n: int, z: real, f: real)
    requires Splits(v - f, n, z)
    ensures Splits(v, n, z + f)
  {
    var k: int :| v - f == (8 * k) as real + n as real + z;
    assert v == (8 * k) as real + n as real + (z + f);
  }

  lemma Pow2Small()
    ensures Pow2(0) == 1 && Pow2(1) == 2 && Pow2(2) == 4
  {}

  // For q0 >= 0 the scaled product is whole and a multiple of 2^q0.
  lemma WholeProduct(zi: int, q0: int, n: int)
    requires 0 <= q0 <= 2
    ensures Units(zi, Scale(q0)) == Units(zi, Scale(q0)).Floor as real
    ensures n == Units(zi, Scale(q0)).Floor % 8 ==> n % Pow2(q0) == 0
  {
    Pow2Small();
    assert Scale(q0) == Pow2(q0) as real;
    IntTimes(zi, Pow2(q0));
    hide Pow2, Scale, Units;
    ModFour(zi);
  }

  lemma IntTimes(a: int, b: int)
    ensures Units(a, b as real) == (a * b) as real
  {}

  lemma ModFour(a: int)
    ensures (a * 2) % 8 % 2 == 0 && (a * 4) % 8 % 4 == 0
  {}

  lemma AddWholes(v: real, n: int, i: int, one: int, g: int, w: real)
    requires Units(one, w) == 1.0 && Splits(v, n, 0.0 + Units(Times(i, one) + g, w))
    ensures Splits(v, n + i, 0.0 + Units(g, w))
  {
    UnitsSum(Times(i, one), g, w);
    UnitsProduct(i, one, w);
    var k: int :| v == (8 * k) as real + n as real + (0.0 + Units(Times(i, one) + g, w));
    assert v == (8 * k) as real + (n + i) as real + (0.0 + Units(g, w));
  }

  lemma PlaceWhole(v: real, n: int, z: real, g: int, w: real, one: int)
    requires z == 0.0 && w > 0.0 && Units(one, w) == 1.0 && 0 <= g < one
    requires Splits(v, n, 0.0 + Units(g, w))
    ensures Placed(v, n, z, g, w, one)
  {
    hide Units, Splits;
    assert z + Units(g, w) == Units(g, w);
  }

  lemma TopBit(s: seq<int>)
    requires s != [] && Reduced(s)
    ensures 0 <= Shr(s[|s| - 1], 23) <= 1 && 0 <= Chunks(s) < Whole(0, |s|) == Base(|s|)
    ensures Shr(s[|s| - 1], 23) == 1 <==> Whole(0, |s|) <= 2 * Chunks(s)
  {
    var top := s[|s| - 1];
    Pow2Of24();
    assert Base(|s|) == Times(0x100_0000, Base(|s| - 1));
    ChunksRange(s);
    TopChunk(s, 0x80_0000);
    TimesTwoLeft(0x80_0000, Base(|s| - 1));
  }

  // For q0 < 0 the fraction z of the product is a multiple t of 2^q0.
  lemma PlaceBelow(v: real, zi: int, q0: int, jz: nat, n: int, z: real, g: int)
    requires q0 < 0 && 0.0 <= z < 1.0 && 0 <= g < Base(jz)
    requires Splits(Units(zi, Scale(q0)), n, z) && Splits(v, n, z + Units(g, Scale(q0 - 24 * jz)))
    ensures var w, one := Scale(q0 - 24 * jz), Times(Pow2(-q0), Base(jz));
            && Placed(v, n, z, g, w, one)
            && (z >= 0.5 <==> z + Units(g, w) >= 0.5)
  {
    ScaleBase(q0 - 24 * jz, jz);
    ScaleAdd(q0, -q0);
    assert Scale(0) == 1.0;
    HalfPow2(-q0);
    hide Scale, Pow2, Base, Splits, Units, Times;
    var t := GridPoint(zi, Scale(q0), Pow2(-q0), n, z);
    PlaceGrid(t, Pow2(-q0), Scale(q0), Base(jz), g, Scale(q0 - 24 * jz), z);
    ghost var num := Times(t, Base(jz)) + g;
    assert z + Units(g, Scale(q0 - 24 * jz)) == Units(num, Scale(q0 - 24 * jz));
  }

  lemma PlaceGrid(t: int, e: int, s: real, b: int, g: int, w: real, z: real)
    requires s > 0.0 && w > 0.0 && e > 0 && e % 2 == 0 && Units(e, s) == 1.0 && Units(b, w) == s
    requires 0.0 <= z < 1.0 && z == Units(t, s) && 0 <= g < b
    ensures Units(Times(e, b), w) == 1.0
    ensures 0 <= Times(t, b) + g < Times(e, b) && z + Units(g, w) == Units(Times(t, b) + g, w)
    ensures z >= 0.5 <==> z + Units(g, w) >= 0.5
  {
    hide Units, Times;
    TimesUnits(t, b, w);
    TimesUnits(e, b, w);
    UnitsSum(Times(t, b), g, w);
    UnitsOrder(t, e, s);
    UnitsOrder(t, 0, s);
    UnitsOrder(2 * t, e, s);
    UnitsTwice(t, s);
    GridRange(t, e, b, g);
    UnitsOrder(2 * (Times(t, b) + g), Times(e, b), w);
    UnitsTwice(Times(t, b) + g, w);
  }

  lemma UnitsTwice(a: int, s: real)
    ensures Units(2 * a, s) == 2.0 * Units(a, s)
  {
    UnitsProduct(2, a, s);
  }

  lemma TimesUnits(t: int, b: int, s: real)
    ensures Units(Times(t, b), s) == Units(t, Units(b, s))
  {
    UnitsProduct(t, b, s);
  }

  lemma GridRange(t: int, e: int, b: int, g: int)
    requires 0 <= g < b && 0 <= t < e && e % 2 == 0
    ensures 0 <= Times(t, b) + g < Times(e, b)
    ensures 2 * t < e <==> 2 * (Times(t, b) + g) < Times(e, b)
  {
    assert t * b >= 0;
    CompareTop(g, t, e, b);
    CompareTop(g, t, e / 2, b);
    assert e == 2 * (e / 2);
    TimesTwoLeft(e / 2, b);
  }

  // z is a multiple t of 2^q0, and 1 - z is a smaller one.
  lemma ComplementIsDouble(zi: int, q0: int, n: int, z: real)
    requires 0 <= zi < 0x20_0000_0000_0000 && -1071 <= q0 < 0 && Splits(Units(zi, Scale(q0)), n, z)
    requires 0.5 <= z < 1.0 && z <= Units(zi, Scale(q0))
    ensures IsDouble(1.0 - z) && IsDouble(Scale(q0)) && IsDouble(1.0 - z - Scale(q0))
  {
    ScaleAdd(q0, -q0);
    assert Scale(0) == 1.0 by { assert Pow2(0) == 1; }
    hide Scale, Pow2, Units, Splits, IsDouble;
    var e := Pow2(-q0);
    var t := GridPoint(zi, Scale(q0), e, n, z);
    UnitsOrder(zi, t, Scale(q0));
    UnitsOrder(t, e, Scale(q0));
    UnitsOrder(2 * t, e, Scale(q0));
    UnitsTwice(t, Scale(q0));
    UnitsSum(e, t, Scale(q0));
    UnitsSum(e - t, 1, Scale(q0));
    UnitsAre(Scale(q0));
    MultipleIsDouble(e - t, q0);
    MultipleIsDouble(e - t - 1, q0);
    MultipleIsDouble(1, q0);
  }

  lemma ScaledIsDouble(z: real, zi: int, q0: int)
    requires z == zi as real && 0 <= zi < 0x20_0000_0000_0000 && -1074 <= q0 <= 2
    ensures Scalbn(z, q0) == Units(zi, Scale(q0)) && IsDouble(Scalbn(z, q0))
  {
    hide Scale, IsDouble;
    assert Scalbn(z, q0) == Scalbn(zi as real, q0);
    MultipleIsDouble(zi, q0);
  }

  lemma UnitsAre(s: real)
    ensures Units(1, s) == s
  {}

  lemma GridPoint(zi: int, s: real, e: int, n: int, z: real) returns (t: int)
    requires s > 0.0 && Units(e, s) == 1.0 && Splits(Units(zi, s), n, z)
    ensures z == Units(t, s)
  {
    var k: int :| Units(zi, s) == (8 * k) as real + n as real + z;
    t := zi - (8 * k + n) * e;
    UnitsSum(zi, (8 * k + n) * e, s);
    UnitsProduct(8 * k + n, e, s);
  }

  lemma PlacedBounds(v: real, n: int, z: real, g: int, w: real, one: int)
    requires Placed(v, n, z, g, w, one)
    ensures Splits(v, n, z + Units(g, w)) && 0.0 <= z + Units(g, w) < 1.0
    ensures z == 0.0 ==> (one <= 2 * g <==> z + Units(g, w) >= 0.5)
  {
    hide Splits;
    var num: int :| 0 <= num < one && z + Units(g, w) == Units(num, w);
    UnitsOrder(0, num + 1, w);
    UnitsOrder(-1, num, w);
    UnitsOrder(num, one, w);
    UnitsOrder(2 * g, one, w);
    UnitsProduct(2, g, w);
  }

  // The complement: n + f becomes (n + 1) - (1 - f).
  lemma Complemented(v: real, n: int, y: real, g: int, q0: int, jz: nat, z: real, h: int)
    requires jz > 0 && q0 <= 2 && Splits(v, n, y + Units(g, Scale(q0 - 24 * jz)))
    requires q0 >= 0 ==> y == 0.0 && z == 0.0 && h == Whole(q0, jz) - g
    requires q0 < 0 ==> if g == 0 then z == 1.0 - y && h == 0 else z == 1.0 - y - Scale(q0) && h == Base(jz) - g
    ensures z + Units(h, Scale(q0 - 24 * jz)) == 1.0 - (y + Units(g, Scale(q0 - 24 * jz)))
    ensures Splits(v, n + 1, -(z + Units(h, Scale(q0 - 24 * jz))))
  {
    var w := Scale(q0 - 24 * jz);
    if q0 >= 0 {
      WholeIsOne(q0, jz);
      UnitsSum(Whole(q0, jz), g, w);
    } else {
      ScaleBase(q0 - 24 * jz, jz);
      UnitsSum(Base(jz), g, w);
      UnitsOrder(0, 1, w);
    }
    hide Units, Scale, Whole, Base;
    var k: int :| v == (8 * k) as real + n as real + (y + Units(g, w));
    assert v == (8 * k) as real + (n + 1) as real + (-(z + Units(h, w)));
  }
}
