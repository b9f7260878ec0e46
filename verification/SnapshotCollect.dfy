// Collecting the literals of a tree (ecma_save_literals_add_compiled_code in
// jerry-core/ecma/base/ecma-literal-storage.c).
module SnapshotCollect {
  import opened Bytes
  import opened Layout
  import opened Snapshot
  import opened SnapshotPasses
  import opened SnapshotWriter
  import opened SnapshotFile

  ghost function PooledBy(pool: seq<u32>): u32 -> bool {
    (v: u32) => IsPooled(v) ==> v in pool
  }

  // The value is met by the collection below: among the words of the arguments, the constants,
  // the values at the end, or in a sub-function.
  ghost predicate Occurs(c: Code, v: u32) {
    c.Function? && ValidFunction(c.block) &&
    ((IsMapped(Flags(c.block)) && InRun(c.block, ConstStart(c.block), Field(c.block, 1), v))
     || InRun(c.block, ConstStart(c.block), ConstEnd(c.block), v)
     || InRun(c.block, TailStart(c.block), Trailing(c.block), v)
     || exists i :: 0 <= i < |c.subs| && Occurs(c.subs[i], v))
  }

  ghost predicate InRun(b: seq<u8>, start: nat, n: nat, v: u32) {
    start + 4 * n <= |b| && !RunOver(b, start, n, Other(v))
  }

  // Only values that occur in the code are added to the pool.
  ghost predicate OnlyFrom(c: Code, pool: seq<u32>, r: seq<u32>) {
    forall v :: v in r && v !in pool ==> Occurs(c, v)
  }

  // All values that occur in the code and can be literals are in the pool.
  ghost predicate AllFrom(c: Code, r: seq<u32>) {
    forall v :: IsPooled(v) && Occurs(c, v) ==> v in r
  }

  ghost predicate AllFromSubs(subs: seq<Code>, n: nat, r: seq<u32>) {
    forall i :: 0 <= i < n && i < |subs| ==> AllFrom(subs[i], r)
  }

  lemma AllGrows(subs: seq<Code>, n: nat, r0: seq<u32>, r: seq<u32>)
    requires AllFromSubs(subs, n, r0) && r0 <= r
    ensures AllFromSubs(subs, n, r)
  {
    hide Occurs, IsPooled;
    forall i | 0 <= i < n && i < |subs| ensures AllFrom(subs[i], r) {
      assert AllFrom(subs[i], r0);
    }
  }

  lemma AllNone(c: Code, r: seq<u32>)
    requires !c.Function?
    ensures AllFrom(c, r)
  {}

  lemma AllFromSnoc(subs: seq<Code>, n: nat, r: seq<u32>)
    requires AllFromSubs(subs, n, r) && n < |subs| && AllFrom(subs[n], r)
    ensures AllFromSubs(subs, n + 1, r)
  {
    hide AllFrom;
  }

  lemma RunFrom(b: seq<u8>, start: nat, n: nat, r: seq<u32>, v: u32)
    requires start + 4 * n <= |b| && RunOver(b, start, n, PooledBy(r)) && IsPooled(v) && InRun(b, start, n, v)
    ensures v in r
  {
    hide IsPooled, GetWord;
    var j :| 0 <= j < n && !Other(v)(GetWord(b, start, j));
    assert PooledBy(r)(GetWord(b, start, j));
  }

  lemma AllFromNode(c: Code, r: seq<u32>)
    requires c.Function? && ValidFunction(c.block) && AllFromSubs(c.subs, |c.subs|, r)
    requires ConstStart(c.block) + 4 * ConstEnd(c.block) <= |c.block| && TailStart(c.block) >= 0
    requires TailStart(c.block) + 4 * Trailing(c.block) <= |c.block|
    requires IsMapped(Flags(c.block)) ==>
               && ConstStart(c.block) + 4 * Field(c.block, 1) <= |c.block|
               && RunOver(c.block, ConstStart(c.block), Field(c.block, 1), PooledBy(r))
    requires RunOver(c.block, ConstStart(c.block), ConstEnd(c.block), PooledBy(r))
    requires RunOver(c.block, TailStart(c.block), Trailing(c.block), PooledBy(r))
    ensures AllFrom(c, r)
  {
    var b := c.block;
    Bounds(b);
    ArgumentsInside(b);
    hide InRun, RunOver, ValidFunction, HasHeader, ConstStart, ConstEnd, TailStart, Trailing, Field, IsMapped, IsPooled, HeaderSize;
    forall v | IsPooled(v) && Occurs(c, v) ensures v in r {
      if IsMapped(Flags(b)) && InRun(b, ConstStart(b), Field(b, 1), v) {
        RunFrom(b, ConstStart(b), Field(b, 1), r, v);
      } else if InRun(b, ConstStart(b), ConstEnd(b), v) {
        RunFrom(b, ConstStart(b), ConstEnd(b), r, v);
      } else if InRun(b, TailStart(b), Trailing(b), v) {
        RunFrom(b, TailStart(b), Trailing(b), r, v);
      } else {
        var i :| 0 <= i < |c.subs| && Occurs(c.subs[i], v);
        assert AllFrom(c.subs[i], r);
      }
    }
  }

  method AppendRun(b: seq<u8>, start: nat, n: nat, pool: seq<u32>) returns (r: seq<u32>)
    requires start + 4 * n <= |b| && IsLiteralPool(pool)
    ensures IsLiteralPool(r) && pool <= r && RunOver(b, start, n, PooledBy(r))
    ensures forall v :: v in r && v !in pool ==> InRun(b, start, n, v)
  {
    hide IsPooled, Get32;
    r := pool;
    var i := 0;
    while i < n
      invariant 0 <= i <= n && IsLiteralPool(r) && pool <= r
      invariant forall j :: 0 <= j < i ==> PooledBy(r)(GetWord(b, start, j))
      invariant forall v :: v in r && v !in pool ==> exists j :: 0 <= j < i && GetWord(b, start, j) == v
    {
      r := AppendValue(GetWord(b, start, i), r);
      i := i + 1;
    }
    forall v | v in r && v !in pool ensures InRun(b, start, n, v) {
      var j :| 0 <= j < n && GetWord(b, start, j) == v;
      assert !Other(v)(GetWord(b, start, j));
    }
  }

  lemma OccursInRun(c: Code, start: nat, n: nat, r0: seq<u32>, r: seq<u32>)
    requires ValidCode(c) && c.Function? && ValidFunction(c.block)
    requires (start == ConstStart(c.block) && n == ConstEnd(c.block)) || (start == TailStart(c.block) && n == Trailing(c.block))
             || (IsMapped(Flags(c.block)) && start == ConstStart(c.block) && n == Field(c.block, 1))
    requires forall v :: v in r && v !in r0 ==> InRun(c.block, start, n, v)
    ensures OnlyFrom(c, r0, r)
  {
    hide InRun;
  }

  lemma OccursInSub(c: Code, i: nat, r0: seq<u32>, r: seq<u32>)
    requires ValidCode(c) && c.Function? && ValidFunction(c.block) && i < |c.subs| && OnlyFrom(c.subs[i], r0, r)
    ensures OnlyFrom(c, r0, r)
  {
    hide InRun;
  }

  // One more step of the collection, from pool r0 to r.
  lemma OnlyMore(c: Code, pool: seq<u32>, r0: seq<u32>, r: seq<u32>)
    requires OnlyFrom(c, pool, r0) && OnlyFrom(c, r0, r)
    ensures OnlyFrom(c, pool, r)
  {
    hide Occurs;
  }

  lemma OnlyNone(c: Code, pool: seq<u32>)
    ensures OnlyFrom(c, pool, pool)
  {}

  lemma RunGrows(b: seq<u8>, start: nat, n: nat, r0: seq<u32>, r: seq<u32>)
    requires start + 4 * n <= |b| && r0 <= r && RunOver(b, start, n, PooledBy(r0))
    ensures RunOver(b, start, n, PooledBy(r))
  {
    hide GetWord, IsPooled;
    forall i | 0 <= i < n ensures PooledBy(r)(GetWord(b, start, i)) {
      assert PooledBy(r0)(GetWord(b, start, i));
    }
  }

  lemma OverGrows(subs: seq<Code>, r0: seq<u32>, r: seq<u32>)
    requires r0 <= r && OverSubs(subs, PooledBy(r0), PooledBy(r0))
    ensures OverSubs(subs, PooledBy(r), PooledBy(r))
  {
    OverWeakenSubs(subs, PooledBy(r0), PooledBy(r0), PooledBy(r), PooledBy(r));
  }

  lemma OverSnoc(s: seq<Code>, c: Code, k: u32 -> bool, t: u32 -> bool)
    ensures OverSubs(s + [c], k, t) <==> OverSubs(s, k, t) && Over(c, k, t)
  {
    hide Over;
    if s == [] {
      assert (s + [c])[1..] == [];
    } else {
      assert (s + [c])[1..] == s[1..] + [c];
      OverSnoc(s[1..], c, k, t);
    }
  }

  lemma ArgumentsInside(b: seq<u8>)
    requires ValidFunction(b)
    ensures |b| >= 8 && |b| >= HeaderSize(Flags(b))
    ensures IsMapped(Flags(b)) ==> ConstStart(b) + 4 * Field(b, 1) <= |b|
  {
    hide Flags, Field, IsMapped, IsConstructor;
  }

  // ecma_save_literals_add_compiled_code
  method CollectLiterals(c: Code, pool: seq<u32>) returns (r: seq<u32>)
    requires ValidCode(c) && c.Function? && IsLiteralPool(pool)
    ensures IsLiteralPool(r) && pool <= r && Over(c, PooledBy(r), PooledBy(r)) && OnlyFrom(c, pool, r) && AllFrom(c, r)
    decreases c
  {
    hide *;
    var block := c.block;
    ValidParts(c);
    Bounds(block);
    ArgumentsInside(block);
    r := pool;
    OnlyNone(c, pool);
    if IsMapped(Flags(block)) {
      r := AppendRun(block, ConstStart(block), Field(block, 1), r);
      OccursInRun(c, ConstStart(block), Field(block, 1), pool, r);
    }
    ghost var r2 := r;
    r := AppendRun(block, ConstStart(block), ConstEnd(block), r);
    OccursInRun(c, ConstStart(block), ConstEnd(block), r2, r);
    OnlyMore(c, pool, r2, r);
    ghost var r3 := r;
    var i := 0;
    NoSubs(PooledBy(r));
    AllFromNone(c.subs, r);
    while i < |c.subs|
      invariant 0 <= i <= |c.subs|
      invariant IsLiteralPool(r) && pool <= r && r3 <= r && OnlyFrom(c, pool, r) && AllFromSubs(c.subs, i, r)
      invariant RunOver(block, ConstStart(block), ConstEnd(block), PooledBy(r))
      invariant OverSubs(c.subs[..i], PooledBy(r), PooledBy(r))
    {
      ghost var r0 := r;
      assert c.subs[..i + 1] == c.subs[..i] + [c.subs[i]];
      SubValid(c.subs, i);
      if c.subs[i].Function? {
        r := CollectLiterals(c.subs[i], r);
        OccursInSub(c, i, r0, r);
        OnlyMore(c, pool, r0, r);
      } else {
        LeafOver(c.subs[i], PooledBy(r));
        AllNone(c.subs[i], r);
      }
      AllGrows(c.subs, i, r0, r);
      AllFromSnoc(c.subs, i, r);
      RunGrows(block, ConstStart(block), ConstEnd(block), r0, r);
      OverGrows(c.subs[..i], r0, r);
      OverSnoc(c.subs[..i], c.subs[i], PooledBy(r), PooledBy(r));
      i := i + 1;
    }
    ghost var r1 := r;
    r := AppendRun(block, TailStart(block), Trailing(block), r);
    OccursInRun(c, TailStart(block), Trailing(block), r1, r);
    OnlyMore(c, pool, r1, r);
    assert c.subs[..i] == c.subs;
    OverGrows(c.subs, r1, r);
    RunGrows(block, ConstStart(block), ConstEnd(block), r1, r);
    if IsMapped(Flags(block)) {
      RunGrows(block, ConstStart(block), Field(block, 1), r2, r);
    }
    AllGrows(c.subs, i, r1, r);
    AllFromNode(c, r);
    RunsBlockOver(block, PooledBy(r), PooledBy(r));
    OverNode(c, PooledBy(r), PooledBy(r));
  }

  lemma AllFromNone(subs: seq<Code>, r: seq<u32>)
    ensures AllFromSubs(subs, 0, r)
  {}

  lemma NoSubs(k: u32 -> bool)
    ensures OverSubs([], k, k)
  {}

  // ---- the words of the arguments may lie beyond the constants

  // A function with one mapped argument and no literals; its only word of byte code is v.
  function ArgumentBlock(v: u32): seq<u8> {
    [3, 0, 1, 0, 8, 0x10, 0, 1, 0, 0, 0, 0] + Word(v) + Word(EMPTY) + Word(EMPTY)
  }

  lemma ArgumentHeader(b: seq<u8>, v: u32)
    requires b == ArgumentBlock(v)
    ensures |b| == 24 && SizeOf(b) == 24 && Flags(b) == 0x1008 && b[7] == 1 && b[8] == 0 && b[10] == 0 && b[11] == 0
    ensures IsFunction(0x1008) && !IsConstructor(0x1008) && !IsWide(0x1008) && IsMapped(0x1008) && !IsStatic(0x1008)
    ensures HeaderSize(0x1008) == 12
    ensures Get32(b, 12) == v && Get32(b, 16) == EMPTY && Get32(b, 20) == EMPTY
  {
    hide Get32, Word;
    assert b[12..16] == Word(v)[0..4] && b[16..20] == Word(EMPTY)[0..4] && b[20..24] == Word(EMPTY)[0..4];
    Get32Slice(b, Word(v), 12, 0);
    Get32Slice(b, Word(EMPTY), 16, 0);
    Get32Slice(b, Word(EMPTY), 20, 0);
  }

  lemma ArgumentLayout(b: seq<u8>)
    requires |b| == 24 == SizeOf(b) && !IsWide(Flags(b)) && b[7] == 1 && b[8] == 0 && b[10] == 0 && b[11] == 0
    requires IsFunction(Flags(b)) && !IsConstructor(Flags(b)) && IsMapped(Flags(b)) && !IsStatic(Flags(b))
    ensures ValidFunction(b) && ConstStart(b) == 12 && ConstEnd(b) == 0 && SubCount(b) == 0 && TailStart(b) == 16 && Trailing(b) == 2
    ensures Field(b, 1) == 1
  {
    hide Flags, SizeOf, IsWide, IsFunction, IsConstructor, IsMapped, IsStatic;
  }

  // The word is collected, although it is neither a constant nor a value at the end.
  lemma ArgumentsExample(v: u32)
    requires IsPooled(v)
    ensures var c := Function(ArgumentBlock(v), []);
            ValidCode(c) && Parsed(c) && Over(c, Other(v), Other(v)) && Occurs(c, v)
  {
    var b := ArgumentBlock(v);
    hide *;
    ArgumentHeader(b, v);
    ArgumentLayout(b);
    NoSubsValid(b);
    EmptyIsOther(v);
    TwoWords(b, ParsedConst(), ParsedTrailing());
    TwoWords(b, Other(v), Other(v));
    ArgumentOccurs(b, v);
    ParsedIs(Function(b, []));
  }

  lemma NoSubsValid(b: seq<u8>)
    requires ValidFunction(b) && SubCount(b) == 0
    ensures ValidCode(Function(b, []))
  {
    hide ValidFunction, SubCount, SubStart;
  }

  lemma EmptyIsOther(v: u32)
    requires IsPooled(v)
    ensures Other(v)(EMPTY) && ParsedTrailing()(EMPTY)
  {}

  // A block without constants, and with an empty value twice at the end.
  lemma TwoWords(b: seq<u8>, k: u32 -> bool, t: u32 -> bool)
    requires ValidFunction(b) && ConstStart(b) == 12 && ConstEnd(b) == 0 && TailStart(b) == 16 && Trailing(b) == 2 && |b| == 24
    requires Get32(b, 16) == EMPTY && Get32(b, 20) == EMPTY && t(EMPTY)
    ensures Over(Function(b, []), k, t)
  {
    hide Get32, ValidFunction, ConstStart, ConstEnd, TailStart, Trailing;
    assert GetWord(b, 16, 0) == EMPTY && GetWord(b, 16, 1) == EMPTY;
  }

  lemma ArgumentOccurs(b: seq<u8>, v: u32)
    requires |b| == 24 && ValidFunction(b) && ConstStart(b) == 12 && Field(b, 1) == 1 && IsMapped(Flags(b)) && Get32(b, 12) == v
    ensures Occurs(Function(b, []), v)
  {
    ArgumentsInside(b);
    hide Get32, ValidFunction, ConstStart, ConstEnd, TailStart, Trailing, IsMapped, Field;
    assert !Other(v)(GetWord(b, 12, 0));
  }

  lemma ParsedIs(c: Code)
    ensures Parsed(c) <==> Over(c, ParsedConst(), ParsedTrailing())
  {
    hide Over;
  }

  lemma LeafOver(c: Code, k: u32 -> bool)
    requires !c.Function?
    ensures Over(c, k, k)
  {}

  lemma SubValid(subs: seq<Code>, i: nat)
    requires ValidSubs(subs) && i < |subs|
    ensures subs[i].Function? ==> ValidCode(subs[i])
  {
    hide ValidCode;
    ValidAt(subs, i);
  }
}
