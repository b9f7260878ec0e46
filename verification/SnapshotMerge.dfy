// Merging snapshots (jerry_merge_snapshots).
module SnapshotMerge {
  import opened Bytes
  import opened Layout
  import opened Snapshot
  import opened SnapshotPasses
  import opened SnapshotWriter
  import opened SnapshotFile
  import opened SnapshotReach
  import opened SnapshotCollect
  import opened SnapshotSave

  datatype MergeError = TooFew | InvalidFile | InvalidVersion | OutputTooSmall | BufferTooSmall

  // The error found by looking at one input.
  function Rejected(file: seq<u8>): Option<MergeError> {
    if |file| < 24 then Some(InvalidFile) else if !HasMagic(file) then Some(InvalidVersion) else None
  }

  function FirstRejected(files: seq<seq<u8>>): Option<MergeError> {
    if files == [] then None else if Rejected(files[0]).Some? then Rejected(files[0]) else FirstRejected(files[1..])
  }

  // The functions of all inputs, one input after the other.
  function LoadEach(files: seq<seq<u8>>, lit: Storage): seq<Option<Code>> {
    if files == [] then []
    else LoadEach(files[..|files| - 1], lit) + LoadAll(files[|files| - 1], lit)
  }

  // Both flags that a file can have, bit 0 and bit 2.
  function OrFlags(f: u32, g: u32): (r: u32)
    ensures CheckGlobalFlags(r)
  {
    (if f % 2 == 1 || g % 2 == 1 then 1 else 0) + (if f / 4 % 2 == 1 || g / 4 % 2 == 1 then 4 else 0)
  }

  function FlagsOf(file: seq<u8>): u32 {
    if |file| >= 24 then Get32(file, 8) else 0
  }

  function MergedFlags(files: seq<seq<u8>>): u32 {
    if files == [] then 0 else OrFlags(MergedFlags(files[..|files| - 1]), FlagsOf(files[|files| - 1]))
  }

  function CountOf(file: seq<u8>): nat {
    if |file| >= 24 then FunctionCount(file) else 0
  }

  // The size of the code area.
  function RegionSize(file: seq<u8>): nat {
    if |file| >= 24 && FunctionOffset(file, 0) <= LiteralTable(file) then LiteralTable(file) - FunctionOffset(file, 0) else 0
  }

  function TotalCount(files: seq<seq<u8>>): nat {
    if files == [] then 0 else TotalCount(files[..|files| - 1]) + CountOf(files[|files| - 1])
  }

  function TotalSize(files: seq<seq<u8>>): nat {
    if files == [] then 0 else TotalSize(files[..|files| - 1]) + RegionSize(files[|files| - 1])
  }

  // Where the code area of the merged file starts and ends.
  function MergedStart(count: nat): nat
    requires count > 0
  {
    24 + AlignUp(4 * (count - 1))
  }

  // Inputs that hold the given functions.
  ghost predicate AllHold(files: seq<seq<u8>>, codes: seq<seq<Code>>, lit: Storage) {
    |codes| == |files| && forall i :: 0 <= i < |files| ==> Holds(files[i], codes[i], lit)
  }

  // ---- the functions of the merged file

  function MergedCodes(files: seq<seq<u8>>, codes: seq<seq<Code>>, lit: Storage, m: map<u32, u32>): seq<Code>
    requires |codes| == |files|
  {
    if files == [] then []
    else
      var n := |files| - 1;
      MergedCodes(files[..n], codes[..n], lit, m) + PatchSubs(codes[n], UpdateOffsets(LiteralBase(files[n], lit), m))
  }

  // ---- concatenation

  lemma LengthAppend(x: seq<Code>, y: seq<Code>)
    ensures LengthSubs(x + y) == LengthSubs(x) + LengthSubs(y)
  {
    if x == [] {
      assert x + y == y;
    } else {
      assert (x + y)[1..] == x[1..] + y;
      LengthAppend(x[1..], y);
    }
  }

  lemma {:induction false} EmittedAppend(a: seq<u8>, x: seq<Code>, b: seq<u8>, y: seq<Code>)
    requires EmittedSubs(a, x) && EmittedSubs(b, y)
    ensures EmittedSubs(a + b, x + y)
    decreases x
  {
    hide *;
    EmittedStep(a, x);
    if x == [] {
      assert a + b == b && x + y == y;
    } else {
      assert (x + y)[1..] == x[1..] + y;
      if x[0].SelfRef? {
        EmittedAppend(a, x[1..], b, y);
        EmittedSkip(a + b, x + y);
      } else {
        var n := Length(x[0]);
        assert (a + b)[..n] == a[..n] && (a + b)[n..] == a[n..] + b;
        EmittedAppend(a[n..], x[1..], b, y);
        EmittedCons(a + b, x + y, n);
      }
    }
  }

  lemma {:induction false} OffsetsAppend(x: seq<Code>, y: seq<Code>, pos: nat)
    requires pos + LengthSubs(x) + LengthSubs(y) < 0x1_0000_0000
    ensures LengthSubs(x + y) == LengthSubs(x) + LengthSubs(y)
    ensures Offsets(x + y, pos) == Offsets(x, pos) + Offsets(y, pos + LengthSubs(x))
    decreases x
  {
    LengthAppend(x, y);
    hide *;
    OffsetsStep(x, pos);
    LengthNone();
    if x == [] {
      assert x + y == y;
    } else {
      assert (x + y)[1..] == x[1..] + y;
      LengthAppend(x[1..], y);
      OffsetsStep(x + y, pos);
      OffsetsAppend(x[1..], y, if x[0].SelfRef? then pos else pos + Length(x[0]));
    }
  }

  lemma OffsetsJoin(x: seq<Code>, y: seq<Code>, pos: nat, mid: nat)
    requires mid == pos + LengthSubs(x) && mid + LengthSubs(y) < 0x1_0000_0000
    ensures LengthSubs(x + y) == LengthSubs(x) + LengthSubs(y)
    ensures Offsets(x + y, pos) == Offsets(x, pos) + Offsets(y, mid)
  {
    hide Offsets, LengthSubs;
    OffsetsAppend(x, y, pos);
  }

  // Moving a code area moves all its offsets.
  lemma {:induction false} OffsetsShift(x: seq<Code>, pos: nat, to: nat)
    requires pos + LengthSubs(x) < 0x1_0000_0000 && to + LengthSubs(x) < 0x1_0000_0000
    requires forall j :: 0 <= j < |x| ==> !x[j].SelfRef?
    ensures |Offsets(x, pos)| == |Offsets(x, to)| == |x|
    ensures forall j :: 0 <= j < |x| ==> Offsets(x, to)[j] == Offsets(x, pos)[j] - pos + to
    decreases x
  {
    if x != [] {
      OffsetsShift(x[1..], pos + Length(x[0]), to + Length(x[0]));
    }
  }

  lemma OverAppendSubs(x: seq<Code>, y: seq<Code>, k: u32 -> bool, t: u32 -> bool)
    ensures OverSubs(x + y, k, t) <==> OverSubs(x, k, t) && OverSubs(y, k, t)
  {
    hide Over;
    if x == [] {
      assert x + y == y;
    } else {
      assert (x + y)[1..] == x[1..] + y;
      OverAppendSubs(x[1..], y, k, t);
    }
  }

  lemma AllAppend(x: seq<Code>, y: seq<Code>)
    requires AllFunctions(x) && AllFunctions(y)
    ensures AllFunctions(x + y)
  {
    ValidAppend(x, y);
  }

  lemma ValidAppend(x: seq<Code>, y: seq<Code>)
    requires ValidSubs(x) && ValidSubs(y)
    ensures ValidSubs(x + y)
  {
    hide ValidCode;
    if x == [] {
      assert x + y == y;
    } else {
      assert (x + y)[1..] == x[1..] + y;
      ValidAppend(x[1..], y);
    }
  }

  lemma PatchAppendSubs(x: seq<Code>, y: seq<Code>, p: Patch)
    ensures PatchSubs(x + y, p) == PatchSubs(x, p) + PatchSubs(y, p)
  {
    hide PatchCode;
    if x == [] {
      assert x + y == y;
    } else {
      assert (x + y)[1..] == x[1..] + y;
      PatchAppendSubs(x[1..], y, p);
    }
  }

  // ---- what the inputs hold

  lemma {:induction false} LengthAtLeast(codes: seq<Code>)
    requires AllFunctions(codes)
    ensures LengthSubs(codes) >= 8 * |codes|
  {
    hide *;
    AllStep(codes);
    if codes != [] {
      ValidSubsStep(codes);
      LengthAtLeast(codes[1..]);
      OneLength(codes[0]);
    }
    LengthSubsStep(codes);
  }

  lemma OneLength(c: Code)
    requires !c.SelfRef? && (c.Function? ==> ValidCode(c))
    ensures Length(c) >= 8
  {
    if c.Function? {
      SomeLength(c);
    }
  }

  lemma LengthSubsStep(subs: seq<Code>)
    ensures LengthSubs(subs) ==
            if subs == [] then 0 else (if !subs[0].SelfRef? then Length(subs[0]) else 0) + LengthSubs(subs[1..])
  {}

  lemma HoldsSizes(file: seq<u8>, codes: seq<Code>, lit: Storage)
    requires Holds(file, codes, lit)
    ensures |file| >= 24 && CountOf(file) == |codes| > 0 && FunctionOffset(file, 0) <= LiteralTable(file) <= |file|
    ensures RegionSize(file) == LengthSubs(codes) >= 8 * |codes|
    ensures RegionSize(file) == LiteralTable(file) - FunctionOffset(file, 0)
    ensures FlagsOf(file) == Get32(file, 8)
    ensures EmittedSubs(file[FunctionOffset(file, 0)..LiteralTable(file)], codes) && AllFunctions(codes)
    ensures OverSubs(codes, LeadsTo(LiteralBase(file, lit), Poolable()), LeadsTo(LiteralBase(file, lit), Poolable()))
  {
    HoldsParts(file, codes, lit);
    hide Holds, HasMagic, FunctionCount, FunctionOffset, LiteralTable, HoldsCode, LiteralBase, AllFunctions, EmittedSubs, OverSubs, Get32;
    HoldsCodeParts(file, codes, FunctionOffset(file, 0), LiteralTable(file));
    LengthAtLeast(codes);
  }

  // All literal offsets of the inputs lead to values of the pool.
  ghost predicate AllPooled(files: seq<seq<u8>>, codes: seq<seq<Code>>, lit: Storage, pool: seq<u32>)
    requires |codes| == |files|
  {
    forall i :: 0 <= i < |files| ==> OverSubs(codes[i], Pooled(LiteralBase(files[i], lit), pool), Pooled(LiteralBase(files[i], lit), pool))
  }

  // The file leads to v exactly when its functions do.
  lemma LeadsCodes(file: seq<u8>, codes: seq<Code>, lit: Storage, v: u32)
    requires Holds(file, codes, lit)
    ensures Leads(file, lit, v) <==> !OverSubs(codes, LeadsTo(LiteralBase(file, lit), Other(v)), LeadsTo(LiteralBase(file, lit), Other(v)))
    ensures Leads(file, lit, v) ==> IsPooled(v)
  {
    hide *;
    HoldsSizes(file, codes, lit);
    LeadsIs(file, lit, v);
    var region, get := file[FunctionOffset(file, 0)..LiteralTable(file)], LiteralBase(file, lit);
    OverWalkSubs(region, codes, LeadsTo(get, Other(v)), LeadsTo(get, Other(v)));
    OverWalkSubs(region, codes, LeadsTo(get, Poolable()), LeadsTo(get, Poolable()));
    ReachedIs(region, get, v);
    if Leads(file, lit, v) {
      ReachedSatisfies(region, get, Poolable(), v);
      PoolableIs(v);
    }
  }

  lemma ReachedIs(b: seq<u8>, get: u32 -> u32, v: u32)
    ensures Reached(b, get, v) <==> !OverBlocks(b, LeadsTo(get, Other(v)), LeadsTo(get, Other(v)))
  {
    hide OverBlocks;
  }

  lemma PoolableIs(v: u32)
    ensures Poolable()(v) <==> IsPooled(v)
  {}

  lemma BothIs(k: u32 -> bool, v: u32)
    ensures Both(k, Poolable())(v) <==> k(v) && IsPooled(v)
  {}

  // The literals of one input join the pool; k is any property of what the file leads to.
  method ScanInput(file: seq<u8>, lit: Storage, pool: seq<u32>, ghost codes: seq<Code>, ghost k: u32 -> bool) returns (r: seq<u32>)
    requires Holds(file, codes, lit) && IsLiteralPool(pool) && AllOf(pool, k)
    requires forall v :: Leads(file, lit, v) ==> k(v)
    ensures IsLiteralPool(r) && pool <= r && AllOf(r, k)
    ensures OverSubs(codes, Pooled(LiteralBase(file, lit), r), Pooled(LiteralBase(file, lit), r))
  {
    hide *;
    HoldsSizes(file, codes, lit);
    var start, end := FunctionOffset(file, 0), LiteralTable(file);
    var region := file[start..end];
    EmittedSubsWalkable(region, codes);
    PoolParts(pool);
    ghost var both := Both(k, Poolable());
    forall v ensures Reached(region, LiteralBase(file, lit), v) ==> both(v) {
      LeadsIs(file, lit, v);
      LeadsCodes(file, codes, lit, v);
      BothIs(k, v);
    }
    AllReached(region, LiteralBase(file, lit), both);
    AllBoth(pool, k);
    r := ScanSnapshotFunctions(region, LiteralBase(file, lit), pool, both);
    OverWalkSubs(region, codes, Pooled(LiteralBase(file, lit), r), Pooled(LiteralBase(file, lit), r));
    AllBoth(r, k);
    PoolWhole(r);
  }

  lemma AllBoth(pool: seq<u32>, k: u32 -> bool)
    ensures AllOf(pool, Both(k, Poolable())) <==> AllOf(pool, k) && AllOf(pool, Poolable())
  {
    hide IsPooled;
    if AllOf(pool, Both(k, Poolable())) {
      forall i | 0 <= i < |pool| ensures k(pool[i]) && Poolable()(pool[i]) {
        assert Both(k, Poolable())(pool[i]);
      }
    }
  }

  lemma PoolParts(pool: seq<u32>)
    requires IsLiteralPool(pool)
    ensures Distinct(pool) && AllOf(pool, Poolable())
  {
    hide Distinct, AllOf;
  }

  lemma PoolWhole(pool: seq<u32>)
    requires Distinct(pool) && AllOf(pool, Poolable())
    ensures IsLiteralPool(pool)
  {
    hide Distinct, AllOf;
  }

  // The first loop of jerry_merge_snapshots.
  method CollectInputs(files: seq<seq<u8>>, lit: Storage, ghost codes: seq<seq<Code>>)
    returns (error: Option<MergeError>, count: u32, flags: u32, size: nat, pool: seq<u32>)
    requires |codes| == |files|
    requires forall i :: 0 <= i < |files| && Rejected(files[i]).None? ==> Holds(files[i], codes[i], lit)
    ensures error == FirstRejected(files)
    ensures error.None? ==>
              && AllHold(files, codes, lit)
              && count == TotalCount(files) % 0x1_0000_0000 && size == 24 + TotalSize(files) >= 24 + 8 * TotalCount(files)
              && flags == MergedFlags(files) && IsLiteralPool(pool) && AllPooled(files, codes, lit, pool)
              && IsPoolOfAll(files, lit, pool)
  {
    hide *;
    error, count, flags, size := None, 0, 0, 24;
    pool := EmptyPool();
    ghost var k := LeadsOf(files, lit);
    NoneOf(k);
    var i := 0;
    assert files[0..] == files;
    Totals(files, 0);
    while i < |files|
      invariant 0 <= i <= |files| && FirstRejected(files) == FirstRejected(files[i..])
      invariant error == None && IsLiteralPool(pool) && AllOf(pool, k)
      invariant forall j :: 0 <= j < i ==> Holds(files[j], codes[j], lit)
      invariant forall j :: 0 <= j < i ==> OverSubs(codes[j], Pooled(LiteralBase(files[j], lit), pool), Pooled(LiteralBase(files[j], lit), pool))
      invariant count == TotalCount(files[..i]) % 0x1_0000_0000
      invariant size == 24 + TotalSize(files[..i]) >= 24 + 8 * TotalCount(files[..i])
      invariant flags == MergedFlags(files[..i])
    {
      var file := files[i];
      Totals(files, i + 1);
      RejectedStep(files, i);
      if |file| < 24 {
        error := Some(InvalidFile);
        return;
      }
      if !HasMagic(file) {
        error := Some(InvalidVersion);
        return;
      }
      HoldsSizes(file, codes[i], lit);
      flags := OrFlags(flags, Get32(file, 8));
      CountAdds(TotalCount(files[..i]), CountOf(file));
      CountIs(file);
      count := (count + FunctionCount(file)) % 0x1_0000_0000;
      size := size + (LiteralTable(file) - FunctionOffset(file, 0));
      ghost var r0 := pool;
      LeadsAt(files, i, lit);
      pool := ScanInput(file, lit, pool, codes[i], k);
      forall j | 0 <= j < i
        ensures OverSubs(codes[j], Pooled(LiteralBase(files[j], lit), pool), Pooled(LiteralBase(files[j], lit), pool))
      {
        GrowOne(codes[j], LiteralBase(files[j], lit), r0, pool);
      }
      i := i + 1;
    }
    assert files[..i] == files && files[i..] == [];
    NoneRejected();
    AllTogether(files, codes, lit, pool);
    PooledExactly(files, codes, lit, pool);
  }

  lemma NoneOf(k: u32 -> bool)
    ensures AllOf([], k)
  {}

  lemma LeadsAt(files: seq<seq<u8>>, i: nat, lit: Storage)
    requires i < |files|
    ensures forall v :: Leads(files[i], lit, v) ==> LeadsOf(files, lit)(v)
  {
    hide Leads;
    forall v | Leads(files[i], lit, v) ensures LeadsAny(files, lit, v) {
      assert Leading(lit, v)(files[i]);
    }
  }

  // The pool of the scans is exactly what the inputs lead to.
  lemma PooledExactly(files: seq<seq<u8>>, codes: seq<seq<Code>>, lit: Storage, pool: seq<u32>)
    requires AllHold(files, codes, lit) && AllPooled(files, codes, lit, pool)
    requires IsLiteralPool(pool) && AllOf(pool, LeadsOf(files, lit))
    ensures IsPoolOfAll(files, lit, pool)
  {
    PoolParts(pool);
    hide Leads, Holds, OverSubs, LiteralBase, Distinct, Pooled, IsPooled, IsLiteralPool;
    forall v ensures v in pool <==> LeadsAny(files, lit, v) {
      if v in pool {
        var j :| 0 <= j < |pool| && pool[j] == v;
        assert LeadsOf(files, lit)(pool[j]);
      }
      if i :| 0 <= i < |files| && Leading(lit, v)(files[i]) {
        LeadsCodes(files[i], codes[i], lit, v);
        LeadsIsPooled(codes[i], LiteralBase(files[i], lit), pool, v);
      }
    }
  }

  lemma LeadsIsPooled(codes: seq<Code>, get: u32 -> u32, pool: seq<u32>, v: u32)
    requires OverSubs(codes, Pooled(get, pool), Pooled(get, pool)) && IsPooled(v)
    requires !OverSubs(codes, LeadsTo(get, Other(v)), LeadsTo(get, Other(v)))
    ensures v in pool
  {
    hide OverSubs, IsPooled, IsOffset;
    if v !in pool {
      OverWeakenSubs(codes, Pooled(get, pool), Pooled(get, pool), LeadsTo(get, Other(v)), LeadsTo(get, Other(v)));
    }
  }

  lemma NoneRejected()
    ensures FirstRejected([]) == None
  {}

  lemma CountIs(file: seq<u8>)
    requires |file| >= 24
    ensures CountOf(file) == FunctionCount(file)
  {}

  lemma GrowOne(codes: seq<Code>, get: u32 -> u32, r0: seq<u32>, r: seq<u32>)
    requires r0 <= r && OverSubs(codes, Pooled(get, r0), Pooled(get, r0))
    ensures OverSubs(codes, Pooled(get, r), Pooled(get, r))
  {
    OverWeakenSubs(codes, Pooled(get, r0), Pooled(get, r0), Pooled(get, r), Pooled(get, r));
  }

  lemma AllTogether(files: seq<seq<u8>>, codes: seq<seq<Code>>, lit: Storage, pool: seq<u32>)
    requires |codes| == |files|
    requires forall j :: 0 <= j < |files| ==> Holds(files[j], codes[j], lit)
    requires forall j :: 0 <= j < |files| ==> OverSubs(codes[j], Pooled(LiteralBase(files[j], lit), pool), Pooled(LiteralBase(files[j], lit), pool))
    ensures AllHold(files, codes, lit) && AllPooled(files, codes, lit, pool)
  {
    hide Holds, OverSubs, LiteralBase;
  }

  lemma CountAdds(total: nat, more: nat)
    ensures (total % 0x1_0000_0000 + more) % 0x1_0000_0000 == (total + more) % 0x1_0000_0000
  {}

  lemma Totals(files: seq<seq<u8>>, i: nat)
    requires i <= |files|
    ensures i == 0 ==> TotalCount(files[..i]) == 0 && TotalSize(files[..i]) == 0 && MergedFlags(files[..i]) == 0
    ensures i > 0 ==>
              && TotalCount(files[..i]) == TotalCount(files[..i - 1]) + CountOf(files[i - 1])
              && TotalSize(files[..i]) == TotalSize(files[..i - 1]) + RegionSize(files[i - 1])
              && MergedFlags(files[..i]) == OrFlags(MergedFlags(files[..i - 1]), FlagsOf(files[i - 1]))
  {
    hide CountOf, RegionSize, FlagsOf, OrFlags;
    if i > 0 {
      assert files[..i][..i - 1] == files[..i - 1];
    }
  }

  lemma RejectedStep(files: seq<seq<u8>>, i: nat)
    requires i < |files|
    ensures |files[i]| < 24 ==> FirstRejected(files[i..]) == Some(InvalidFile)
    ensures |files[i]| >= 24 && !HasMagic(files[i]) ==> FirstRejected(files[i..]) == Some(InvalidVersion)
    ensures |files[i]| >= 24 && HasMagic(files[i]) ==>
              Rejected(files[i]).None? && FirstRejected(files[i..]) == FirstRejected(files[i + 1..])
  {
    hide HasMagic;
    assert files[i..][1..] == files[i + 1..];
  }

  // ---- copying

  // The words from byte 20 on.
  ghost predicate WordsAre(v: seq<u8>, xs: seq<u32>) {
    20 + 4 * |xs| <= |v| && forall k :: 0 <= k < |xs| ==> GetWord(v, 20, k) == xs[k]
  }

  // Outside of [20, end) nothing is changed.
  ghost predicate SameOutside(v: seq<u8>, b0: seq<u8>, end: nat) {
    |v| == |b0| && forall k :: 0 <= k < |v| && (k < 20 || end <= k) ==> v[k] == b0[k]
  }

  // The code areas of some inputs lie between base and dst, and their function offsets are in
  // the header; nothing else was written outside of [base, end).
  ghost predicate Copied(v: seq<u8>, b0: seq<u8>, codes: seq<Code>, base: nat, dst: nat, end: nat) {
    && |v| == |b0| && 20 + 4 * |codes| <= base && dst == base + LengthSubs(codes) <= end <= |v| < 0x1_0000_0000
    && EmittedSubs(v[base..dst], codes)
    && WordsAre(v, Offsets(codes, base)) && SameOutside(v, b0, end)
  }

  lemma CopiedParts(v: seq<u8>, b0: seq<u8>, codes: seq<Code>, base: nat, dst: nat, end: nat)
    requires Copied(v, b0, codes, base, dst, end)
    ensures |v| == |b0| && 20 + 4 * |codes| <= base && dst == base + LengthSubs(codes) <= end <= |v| < 0x1_0000_0000
    ensures EmittedSubs(v[base..dst], codes) && |Offsets(codes, base)| == |codes|
    ensures WordsAre(v, Offsets(codes, base)) && SameOutside(v, b0, end)
  {
    hide EmittedSubs, WordsAre, SameOutside;
  }

  lemma CopiedWhole(v: seq<u8>, b0: seq<u8>, codes: seq<Code>, base: nat, dst: nat, end: nat)
    requires |v| == |b0| && 20 + 4 * |codes| <= base && dst == base + LengthSubs(codes) <= end <= |v| < 0x1_0000_0000
    requires EmittedSubs(v[base..dst], codes)
    requires WordsAre(v, Offsets(codes, base)) && SameOutside(v, b0, end)
    ensures Copied(v, b0, codes, base, dst, end)
  {
    hide EmittedSubs, WordsAre, SameOutside;
  }

  // The bytes after one more region and its function offsets.
  lemma CopyBytes(v: seq<u8>, dst: nat, region: seq<u8>, pos: nat, ws: seq<u32>, base: nat)
    requires dst + |region| <= |v| && 20 <= pos && pos + 4 * |ws| <= base <= dst
    ensures var w := PutWords(Put(v, dst, region), pos, ws);
            && |w| == |v| && w[base..dst] == v[base..dst] && w[dst..dst + |region|] == region
            && w[base..dst + |region|] == w[base..dst] + w[dst..dst + |region|]
            && (forall k :: 0 <= k < |ws| ==> GetWord(w, pos, k) == ws[k])
            && (forall k :: 0 <= k < |v| && (k < 20 || dst + |region| <= k) ==> w[k] == v[k])
  {
    var v1 := Put(v, dst, region);
    PutBytes(v, dst, region);
    PutWordsAt(v1, pos, ws);
    hide *;
    var w := PutWords(v1, pos, ws);
    forall k | 0 <= k < |region| ensures w[dst..dst + |region|][k] == region[k] {
      assert v1[dst + k] == region[k];
    }
  }

  // The words before are kept.
  lemma WordsBefore(v: seq<u8>, dst: nat, region: seq<u8>, pos: nat, ws: seq<u32>, n: nat)
    requires dst + |region| <= |v| && pos == 20 + 4 * n && pos + 4 * |ws| <= dst
    ensures forall k :: 0 <= k < n ==>
              GetWord(PutWords(Put(v, dst, region), pos, ws), 20, k) == GetWord(v, 20, k)
  {
    hide Get32, Put;
    var v1 := Put(v, dst, region);
    PutWordsAt(v1, pos, ws);
    forall k | 0 <= k < n ensures GetWord(PutWords(v1, pos, ws), 20, k) == GetWord(v, 20, k) {
      PutBefore(v, dst, region, 20 + 4 * k);
    }
  }

  lemma PutBefore(v: seq<u8>, dst: nat, region: seq<u8>, o: nat)
    requires dst + |region| <= |v| && o + 4 <= dst
    ensures Get32(Put(v, dst, region), o) == Get32(v, o)
  {
    hide Get32;
    assert Put(v, dst, region)[o..o + 4] == v[o..o + 4];
    Get32Slice(Put(v, dst, region), v, o, o);
  }

  lemma CopiedSizes(v: seq<u8>, b0: seq<u8>, codes: seq<Code>, base: nat, dst: nat, end: nat)
    requires Copied(v, b0, codes, base, dst, end)
    ensures |v| == |b0| && 20 + 4 * |codes| <= base && dst == base + LengthSubs(codes) <= end <= |v| < 0x1_0000_0000
  {
    hide EmittedSubs, WordsAre, SameOutside;
  }

  lemma CopiedNext(v: seq<u8>, b0: seq<u8>, codes: seq<Code>, base: nat, dst: nat, end: nat, more: seq<Code>, region: seq<u8>)
    requires Copied(v, b0, codes, base, dst, end) && EmittedSubs(region, more)
    requires dst + |region| <= end && 20 + 4 * (|codes| + |more|) <= base
    requires |region| == LengthSubs(more) && dst + LengthSubs(more) < 0x1_0000_0000 && |Offsets(more, dst)| == |more|
    ensures Copied(PutWords(Put(v, dst, region), 20 + 4 * |codes|, Offsets(more, dst)), b0, codes + more, base, dst + |region|, end)
  {
    hide *;
    CopiedSizes(v, b0, codes, base, dst, end);
    var w := PutWords(Put(v, dst, region), 20 + 4 * |codes|, Offsets(more, dst));
    CopiedCode(v, b0, codes, base, dst, end, more, region, w);
    CopiedWords(v, b0, codes, base, dst, end, more, region, w);
    CopiedElsewhere(v, b0, codes, base, dst, end, more, region, w);
    CopiedWhole(w, b0, codes + more, base, dst + |region|, end);
  }

  lemma CopiedCode(v: seq<u8>, b0: seq<u8>, codes: seq<Code>, base: nat, dst: nat, end: nat, more: seq<Code>, region: seq<u8>, w: seq<u8>)
    requires Copied(v, b0, codes, base, dst, end) && EmittedSubs(region, more)
    requires dst + |region| <= end <= |v| && 20 + 4 * (|codes| + |more|) <= base <= dst && dst + LengthSubs(more) < 0x1_0000_0000
    requires |region| == LengthSubs(more) && |Offsets(more, dst)| == |more|
    requires w == PutWords(Put(v, dst, region), 20 + 4 * |codes|, Offsets(more, dst))
    ensures |w| == |v| && EmittedSubs(w[base..dst + |region|], codes + more)
  {
    hide *;
    CopiedParts(v, b0, codes, base, dst, end);
    CopyBytes(v, dst, region, 20 + 4 * |codes|, Offsets(more, dst), base);
    EmittedAppend(w[base..dst], codes, w[dst..dst + |region|], more);
  }

  lemma CopiedElsewhere(v: seq<u8>, b0: seq<u8>, codes: seq<Code>, base: nat, dst: nat, end: nat, more: seq<Code>, region: seq<u8>, w: seq<u8>)
    requires Copied(v, b0, codes, base, dst, end)
    requires dst + |region| <= end <= |v| && 20 + 4 * (|codes| + |more|) <= base <= dst && dst + LengthSubs(more) < 0x1_0000_0000
    requires |Offsets(more, dst)| == |more| && w == PutWords(Put(v, dst, region), 20 + 4 * |codes|, Offsets(more, dst))
    ensures SameOutside(w, b0, end)
  {
    hide *;
    CopiedParts(v, b0, codes, base, dst, end);
    ElsewhereKept(v, b0, dst, region, 20 + 4 * |codes|, Offsets(more, dst), w, end);
  }

  lemma ElsewhereKept(v: seq<u8>, b0: seq<u8>, dst: nat, region: seq<u8>, pos: nat, ws: seq<u32>, w: seq<u8>, end: nat)
    requires dst + |region| <= end <= |v| == |b0| && 20 <= pos && pos + 4 * |ws| <= dst
    requires w == PutWords(Put(v, dst, region), pos, ws) && SameOutside(v, b0, end)
    ensures SameOutside(w, b0, end)
  {
    hide Put, PutWords, GetWord;
    CopyBytes(v, dst, region, pos, ws, dst);
  }

  lemma CopiedWords(v: seq<u8>, b0: seq<u8>, codes: seq<Code>, base: nat, dst: nat, end: nat, more: seq<Code>, region: seq<u8>, w: seq<u8>)
    requires Copied(v, b0, codes, base, dst, end)
    requires dst + |region| <= end <= |v| && 20 + 4 * (|codes| + |more|) <= base <= dst && dst + LengthSubs(more) < 0x1_0000_0000
    requires |Offsets(more, dst)| == |more| && w == PutWords(Put(v, dst, region), 20 + 4 * |codes|, Offsets(more, dst))
    ensures LengthSubs(codes + more) == LengthSubs(codes) + LengthSubs(more)
    ensures base + LengthSubs(codes + more) < 0x1_0000_0000 && WordsAre(w, Offsets(codes + more, base))
  {
    hide *;
    CopiedParts(v, b0, codes, base, dst, end);
    OffsetsJoin(codes, more, base, dst);
    WordsJoined(v, dst, region, Offsets(codes, base), Offsets(more, dst), w);
  }

  lemma WordsJoined(v: seq<u8>, dst: nat, region: seq<u8>, xs: seq<u32>, ys: seq<u32>, w: seq<u8>)
    requires dst + |region| <= |v| && 20 + 4 * (|xs| + |ys|) <= dst
    requires w == PutWords(Put(v, dst, region), 20 + 4 * |xs|, ys) && WordsAre(v, xs)
    ensures WordsAre(w, xs + ys)
  {
    hide Put, PutWords, GetWord;
    CopyBytes(v, dst, region, 20 + 4 * |xs|, ys, dst);
    WordsBefore(v, dst, region, 20 + 4 * |xs|, ys, |xs|);
    WordsJoin(v, w, |xs|, xs, ys);
  }

  lemma WordsJoin(v: seq<u8>, w: seq<u8>, n: nat, xs: seq<u32>, ys: seq<u32>)
    requires |xs| == n && 20 + 4 * (n + |ys|) <= |w| && 20 + 4 * n <= |v|
    requires forall k :: 0 <= k < n ==> GetWord(v, 20, k) == xs[k]
    requires forall k :: 0 <= k < n ==> GetWord(w, 20, k) == GetWord(v, 20, k)
    requires forall k :: 0 <= k < |ys| ==> GetWord(w, 20 + 4 * n, k) == ys[k]
    ensures forall k :: 0 <= k < |xs + ys| ==> GetWord(w, 20, k) == (xs + ys)[k]
  {
    hide GetWord;
    forall k | 0 <= k < |xs + ys| ensures GetWord(w, 20, k) == (xs + ys)[k] {
      if k < n {
        assert (xs + ys)[k] == xs[k];
      } else {
        WordShift(w, n, k);
        assert GetWord(w, 20 + 4 * n, k - n) == ys[k - n];
      }
    }
  }

  lemma WordShift(w: seq<u8>, n: nat, k: nat)
    requires n <= k && 20 + 4 * k + 4 <= |w|
    ensures GetWord(w, 20, k) == GetWord(w, 20 + 4 * n, k - n)
  {}

  // One input: its code area with updated literals, and the offsets of its functions.
  method CopyInput(out: array<u8>, file: seq<u8>, lit: Storage, entries: seq<Entry>, dst: nat, pos: nat, ghost codes: seq<Code>)
    requires Holds(file, codes, lit) && dst + RegionSize(file) <= out.Length < 0x1_0000_0000
    requires 20 <= pos && pos + 4 * CountOf(file) <= dst
    requires OverSubs(codes, CollectedIn(LiteralBase(file, lit), MapOf(entries)), CollectedIn(LiteralBase(file, lit), MapOf(entries)))
    modifies out
    ensures RegionSize(file) == LengthSubs(codes) > 0 && CountOf(file) == |codes| == |Offsets(codes, dst)|
    ensures |file| >= 24 && FunctionOffset(file, 0) <= LiteralTable(file) <= |file|
    ensures var region := PatchBlocks(file[FunctionOffset(file, 0)..LiteralTable(file)], UpdateOffsets(LiteralBase(file, lit), MapOf(entries)));
            && |region| == RegionSize(file)
            && out[..] == PutWords(Put(old(out[..]), dst, region), pos, Offsets(codes, dst))
  {
    hide *;
    ghost var b := out[..];
    HoldsSizes(file, codes, lit);
    HoldsParts(file, codes, lit);
    var start, end := FunctionOffset(file, 0), LiteralTable(file);
    HoldsCodeParts(file, codes, start, end);
    ghost var get, m := LiteralBase(file, lit), MapOf(entries);
    ghost var region := file[start..end];
    ghost var patched := PatchBlocks(region, UpdateOffsets(get, m));
    PatchBlocksLength(region, UpdateOffsets(get, m));
    var _, _ := WriteToBuffer(out, dst, file[start..end]);
    InPlace(b, dst, region, patched);
    EmittedSubsWalkable(region, codes);
    OverWalkSubs(region, codes, CollectedIn(get, m), CollectedIn(get, m));
    UpdateLiteralOffsets(out, dst, end - start, entries, LiteralBase(file, lit));
    ghost var b1 := out[..];
    assert b1 == Put(b, dst, patched);
    ghost var ws := Offsets(codes, dst);
    MovedOffsets(codes, start, dst);
    var currentOffset := (dst - start) % 0x1_0000_0000;
    CountIs(file);
    WordsNone(b1, pos);
    var j := 0;
    while j < FunctionCount(file)
      invariant 0 <= j <= FunctionCount(file) == |ws|
      invariant out[..] == PutWords(b1, pos, ws[..j])
    {
      assert ws[..j + 1] == ws[..j] + [ws[j]];
      WordsSnoc(b1, pos, ws[..j], ws[j]);
      Moved(start, dst, FunctionOffset(file, j), ws[j]);
      StoreWord(out, pos + 4 * j, (FunctionOffset(file, j) + currentOffset) % 0x1_0000_0000);
      j := j + 1;
    }
    assert ws[..j] == ws;
  }

  lemma InPlace(b: seq<u8>, dst: nat, region: seq<u8>, patched: seq<u8>)
    requires dst + |region| <= |b| && |patched| == |region|
    ensures Put(b, dst, region)[dst..dst + |region|] == region
    ensures Put(Put(b, dst, region), dst, patched) == Put(b, dst, patched)
  {}

  lemma MovedOffsets(codes: seq<Code>, start: nat, dst: nat)
    requires AllFunctions(codes) && start + LengthSubs(codes) < 0x1_0000_0000 && dst + LengthSubs(codes) < 0x1_0000_0000
    ensures |Offsets(codes, start)| == |Offsets(codes, dst)| == |codes|
    ensures forall j :: 0 <= j < |codes| ==> Offsets(codes, dst)[j] == Offsets(codes, start)[j] - start + dst
  {
    hide ValidSubs;
    OffsetsShift(codes, start, dst);
  }

  // The unsigned difference of the two positions is added without loss.
  lemma Moved(start: u32, dst: u32, offset: u32, moved: u32)
    requires moved == offset - start + dst
    ensures (offset + (dst - start) % 0x1_0000_0000) % 0x1_0000_0000 == moved
  {}

  lemma MergedStep(files: seq<seq<u8>>, codes: seq<seq<Code>>, lit: Storage, m: map<u32, u32>, i: nat)
    requires |codes| == |files| && i < |files|
    ensures MergedCodes(files[..i + 1], codes[..i + 1], lit, m)
            == MergedCodes(files[..i], codes[..i], lit, m) + PatchSubs(codes[i], UpdateOffsets(LiteralBase(files[i], lit), m))
  {
    hide PatchSubs, UpdateOffsets, LiteralBase;
    assert files[..i + 1][..i] == files[..i] && codes[..i + 1][..i] == codes[..i];
  }

  lemma MergedNone(lit: Storage, m: map<u32, u32>)
    ensures MergedCodes([], [], lit, m) == []
  {}

  lemma TotalsMonotone(files: seq<seq<u8>>, i: nat)
    requires i <= |files|
    ensures TotalCount(files[..i]) <= TotalCount(files) && TotalSize(files[..i]) <= TotalSize(files)
    decreases |files| - i
  {
    hide CountOf, RegionSize;
    if i == |files| {
      assert files[..i] == files;
    } else {
      Totals(files, i + 1);
      TotalsMonotone(files, i + 1);
    }
  }

  lemma StartRoom(count: nat)
    requires count > 0
    ensures 20 + 4 * count <= MergedStart(count)
  {}

  lemma CopiedNone(b0: seq<u8>, base: nat, end: nat)
    requires 20 <= base <= end <= |b0| < 0x1_0000_0000
    ensures Copied(b0, b0, [], base, base, end)
  {
    assert b0[base..base] == [];
  }

  // The updated code area of one input.
  lemma CopiedInput(v: seq<u8>, w: seq<u8>, b0: seq<u8>, merged: seq<Code>, base: nat, dst: nat, end: nat, codes: seq<Code>,
                    area: seq<u8>, p: Patch)
    requires Copied(v, b0, merged, base, dst, end) && EmittedSubs(area, codes) && |area| == LengthSubs(codes)
    requires dst + |area| <= end && 20 + 4 * (|merged| + |codes|) <= base && |Offsets(codes, dst)| == |codes|
    requires w == PutWords(Put(v, dst, PatchBlocks(area, p)), 20 + 4 * |merged|, Offsets(codes, dst))
    ensures Copied(w, b0, merged + PatchSubs(codes, p), base, dst + |area|, end)
    ensures |PatchSubs(codes, p)| == |codes|
  {
    hide *;
    CopiedParts(v, b0, merged, base, dst, end);
    PatchBlocksLength(area, p);
    WalkIsRecursionSubs(area, codes, p);
    PatchedOffsets(codes, dst, p);
    PatchSubsAt(codes, p);
    CopiedNext(v, b0, merged, base, dst, end, PatchSubs(codes, p), PatchBlocks(area, p));
  }

  // The second loop of jerry_merge_snapshots.
  method CopyInputs(out: array<u8>, files: seq<seq<u8>>, lit: Storage, entries: seq<Entry>, base: nat, ghost end: nat,
                    ghost codes: seq<seq<Code>>)
    requires AllHold(files, codes, lit) && TotalCount(files) > 0
    requires base == MergedStart(TotalCount(files)) && end == base + TotalSize(files) <= out.Length < 0x1_0000_0000
    requires AllCollected(files, codes, lit, MapOf(entries))
    modifies out
    ensures Copied(out[..], old(out[..]), MergedCodes(files, codes, lit, MapOf(entries)), base, end, end)
    ensures |MergedCodes(files, codes, lit, MapOf(entries))| == TotalCount(files)
  {
    hide *;
    ghost var b0, m := out[..], MapOf(entries);
    var dst, pos, i := base, 20, 0;
    StartRoom(TotalCount(files));
    AllHoldLength(files, codes, lit);
    Totals(files, 0);
    MergedNone(lit, m);
    assert files[..0] == [] && codes[..0] == [];
    CopiedNone(b0, base, end);
    while i < |files|
      invariant 0 <= i <= |files|
      invariant dst == base + TotalSize(files[..i]) && pos == 20 + 4 * TotalCount(files[..i])
      invariant |MergedCodes(files[..i], codes[..i], lit, m)| == TotalCount(files[..i])
      invariant Copied(out[..], b0, MergedCodes(files[..i], codes[..i], lit, m), base, dst, end)
    {
      var file := files[i];
      AllHoldAt(files, codes, lit, i);
      AllCollectedAt(files, codes, lit, m, i);
      HoldsSizes(file, codes[i], lit);
      Totals(files, i + 1);
      TotalsMonotone(files, i + 1);
      MergedStep(files, codes, lit, m, i);
      ghost var b, merged := out[..], MergedCodes(files[..i], codes[..i], lit, m);
      CopyInput(out, file, lit, entries, dst, pos, codes[i]);
      CopiedInput(b, out[..], b0, merged, base, dst, end, codes[i], file[FunctionOffset(file, 0)..LiteralTable(file)],
                  UpdateOffsets(LiteralBase(file, lit), m));
      dst := dst + (LiteralTable(file) - FunctionOffset(file, 0));
      CountIs(file);
      pos := pos + 4 * FunctionCount(file);
      i := i + 1;
    }
    assert files[..i] == files && codes[..i] == codes;
  }

  // Every literal of the inputs is in the map.
  ghost predicate AllCollected(files: seq<seq<u8>>, codes: seq<seq<Code>>, lit: Storage, m: map<u32, u32>) {
    && |codes| == |files|
    && forall i :: 0 <= i < |files| ==> OverSubs(codes[i], CollectedIn(LiteralBase(files[i], lit), m), CollectedIn(LiteralBase(files[i], lit), m))
  }

  lemma AllCollectedAt(files: seq<seq<u8>>, codes: seq<seq<Code>>, lit: Storage, m: map<u32, u32>, i: nat)
    requires AllCollected(files, codes, lit, m) && i < |files|
    ensures |codes| == |files| && OverSubs(codes[i], CollectedIn(LiteralBase(files[i], lit), m), CollectedIn(LiteralBase(files[i], lit), m))
  {
    hide OverSubs, LiteralBase, CollectedIn;
  }

  lemma AllHoldLength(files: seq<seq<u8>>, codes: seq<seq<Code>>, lit: Storage)
    requires AllHold(files, codes, lit)
    ensures |codes| == |files|
  {
    hide Holds;
  }

  lemma AllHoldAt(files: seq<seq<u8>>, codes: seq<seq<Code>>, lit: Storage, i: nat)
    requires AllHold(files, codes, lit) && i < |files|
    ensures |codes| == |files| && Holds(files[i], codes[i], lit)
  {
    hide Holds;
  }

  // What the scan pooled is in the map of the pool.
  lemma PooledIsCollected(files: seq<seq<u8>>, codes: seq<seq<Code>>, lit: Storage, pool: seq<u32>, m: map<u32, u32>)
    requires AllHold(files, codes, lit) && AllPooled(files, codes, lit, pool)
    requires forall v :: v in pool ==> v in m
    ensures AllCollected(files, codes, lit, m)
  {
    hide OverSubs, LiteralBase, Holds, LeadsTo, Pooled, CollectedIn;
    forall i | 0 <= i < |files|
      ensures OverSubs(codes[i], CollectedIn(LiteralBase(files[i], lit), m), CollectedIn(LiteralBase(files[i], lit), m))
    {
      HoldsSizes(files[i], codes[i], lit);
      OneCollected(codes[i], LiteralBase(files[i], lit), pool, m);
    }
  }

  lemma OneCollected(codes: seq<Code>, get: u32 -> u32, pool: seq<u32>, m: map<u32, u32>)
    requires OverSubs(codes, LeadsTo(get, Poolable()), LeadsTo(get, Poolable()))
    requires OverSubs(codes, Pooled(get, pool), Pooled(get, pool))
    requires forall v :: v in pool ==> v in m
    ensures OverSubs(codes, CollectedIn(get, m), CollectedIn(get, m))
  {
    hide OverSubs, IsPooled, IsOffset;
    var k, k2 := LeadsTo(get, Poolable()), Pooled(get, pool);
    OverBothSubs(codes, k, k, k2, k2);
    OverWeakenSubs(codes, Both(k, k2), Both(k, k2), CollectedIn(get, m), CollectedIn(get, m));
  }

  // ---- meaning

  // Updated code, loaded from the new table, is the old code, loaded from the old table.
  lemma UpdateSubs(codes: seq<Code>, get: u32 -> u32, m: map<u32, u32>, newGet: u32 -> u32)
    requires Table(m, newGet) && OverSubs(codes, CollectedIn(get, m), CollectedIn(get, m))
    ensures PatchSubs(PatchSubs(codes, UpdateOffsets(get, m)), Resolve(newGet)) == PatchSubs(codes, Resolve(get))
  {
    hide PatchSubs, OverSubs, IsOffset;
    var p := Then(UpdateOffsets(get, m), Resolve(newGet));
    PatchTwiceSubs(codes, UpdateOffsets(get, m), Resolve(newGet));
    PatchSameSubs(codes, CollectedIn(get, m), CollectedIn(get, m), p, Resolve(get));
  }

  lemma SomesAppend(x: seq<Code>, y: seq<Code>)
    ensures Somes(x + y) == Somes(x) + Somes(y)
  {}

  lemma {:induction false} MergedLoads(files: seq<seq<u8>>, codes: seq<seq<Code>>, lit: Storage, m: map<u32, u32>, newGet: u32 -> u32, i: nat)
    requires AllHold(files, codes, lit) && AllCollected(files, codes, lit, m) && Table(m, newGet) && i <= |files| == |codes|
    ensures Somes(PatchSubs(MergedCodes(files[..i], codes[..i], lit, m), Resolve(newGet))) == LoadEach(files[..i], lit)
  {
    hide *;
    if i == 0 {
      assert files[..0] == [] && codes[..0] == [];
      MergedNone(lit, m);
      NothingLoaded(lit, newGet);
    } else {
      var n := i - 1;
      MergedLoads(files, codes, lit, m, newGet, n);
      MergedStep(files, codes, lit, m, n);
      LoadEachStep(files, n, lit);
      AllHoldAt(files, codes, lit, n);
      AllCollectedAt(files, codes, lit, m, n);
      HoldsSizes(files[n], codes[n], lit);
      LoadHolds(files[n], codes[n], lit);
      var get := LiteralBase(files[n], lit);
      UpdateSubs(codes[n], get, m, newGet);
      var merged, more := MergedCodes(files[..n], codes[..n], lit, m), PatchSubs(codes[n], UpdateOffsets(get, m));
      PatchAppendSubs(merged, more, Resolve(newGet));
      SomesAppend(PatchSubs(merged, Resolve(newGet)), PatchSubs(more, Resolve(newGet)));
    }
  }

  lemma NothingLoaded(lit: Storage, get: u32 -> u32)
    ensures Somes(PatchSubs([], Resolve(get))) == LoadEach([], lit)
  {}

  lemma LoadEachStep(files: seq<seq<u8>>, n: nat, lit: Storage)
    requires n < |files|
    ensures LoadEach(files[..n + 1], lit) == LoadEach(files[..n], lit) + LoadAll(files[n], lit)
  {
    hide LoadAll;
    assert files[..n + 1][..n] == files[..n];
  }

  lemma PatchedAll(codes: seq<Code>, p: Patch)
    requires AllFunctions(codes)
    ensures AllFunctions(PatchSubs(codes, p))
  {
    hide PatchCode, ValidSubs;
    PatchedValidSubs(codes, p);
    PatchSubsAt(codes, p);
    forall j | 0 <= j < |codes| ensures !PatchSubs(codes, p)[j].SelfRef? {
      SelfKept(codes[j], p);
    }
  }

  // Updated literals lead to values of the map.
  lemma UpdatedLead(codes: seq<Code>, get: u32 -> u32, m: map<u32, u32>, newGet: u32 -> u32)
    requires AllFunctions(codes) && OverSubs(codes, CollectedIn(get, m), CollectedIn(get, m))
    requires Table(m, newGet) && forall v :: v in m ==> IsPooled(v)
    ensures OverSubs(PatchSubs(codes, UpdateOffsets(get, m)), LeadsTo(newGet, Poolable()), LeadsTo(newGet, Poolable()))
  {
    hide PatchSubs, OverSubs, IsOffset, IsPooled, ValidSubs;
    var k, k2 := CollectedIn(get, m), LeadsTo(newGet, Poolable());
    OverPatchSubs(codes, UpdateOffsets(get, m), k, k, k2, k2);
  }

  lemma {:induction false} MergedWellFormed(files: seq<seq<u8>>, codes: seq<seq<Code>>, lit: Storage, m: map<u32, u32>,
                                            newGet: u32 -> u32, i: nat)
    requires AllHold(files, codes, lit) && AllCollected(files, codes, lit, m) && Table(m, newGet) && i <= |files| == |codes|
    requires forall v :: v in m ==> IsPooled(v)
    ensures AllFunctions(MergedCodes(files[..i], codes[..i], lit, m))
    ensures OverSubs(MergedCodes(files[..i], codes[..i], lit, m), LeadsTo(newGet, Poolable()), LeadsTo(newGet, Poolable()))
  {
    hide *;
    var k := LeadsTo(newGet, Poolable());
    if i == 0 {
      assert files[..0] == [] && codes[..0] == [];
      MergedNone(lit, m);
      NoSubs(k);
      NoFunctions();
    } else {
      var n := i - 1;
      MergedWellFormed(files, codes, lit, m, newGet, n);
      MergedStep(files, codes, lit, m, n);
      AllHoldAt(files, codes, lit, n);
      AllCollectedAt(files, codes, lit, m, n);
      HoldsSizes(files[n], codes[n], lit);
      var get := LiteralBase(files[n], lit);
      UpdatedLead(codes[n], get, m, newGet);
      PatchedAll(codes[n], UpdateOffsets(get, m));
      var merged, more := MergedCodes(files[..n], codes[..n], lit, m), PatchSubs(codes[n], UpdateOffsets(get, m));
      AllAppend(merged, more);
      OverAppendSubs(merged, more, k, k);
    }
  }

  lemma NoFunctions()
    ensures AllFunctions([])
  {}

  // Updated code leads to what it led to.
  lemma UpdatedLeads(codes: seq<Code>, get: u32 -> u32, m: map<u32, u32>, newGet: u32 -> u32, v: u32)
    requires AllFunctions(codes) && OverSubs(codes, CollectedIn(get, m), CollectedIn(get, m)) && Table(m, newGet)
    ensures var k, k2 := LeadsTo(get, Other(v)), LeadsTo(newGet, Other(v));
            OverSubs(PatchSubs(codes, UpdateOffsets(get, m)), k2, k2) <==> OverSubs(codes, k, k)
  {
    hide PatchSubs, OverSubs, IsOffset, ValidSubs;
    var d, k, k2, p := CollectedIn(get, m), LeadsTo(get, Other(v)), LeadsTo(newGet, Other(v)), UpdateOffsets(get, m);
    if OverSubs(codes, k, k) {
      OverBothSubs(codes, d, d, k, k);
      OverPatchSubs(codes, p, Both(d, k), Both(d, k), k2, k2);
    }
    if OverSubs(PatchSubs(codes, p), k2, k2) {
      assert Back(p.consts, d, k, k2) && Back(p.trailing, d, k, k2);
      OverUnpatchSubs(codes, p, d, k, k2);
    }
  }

  // The functions of the merged file lead to what the inputs lead to.
  lemma {:induction false} MergedLeads(files: seq<seq<u8>>, codes: seq<seq<Code>>, lit: Storage, m: map<u32, u32>,
                                       newGet: u32 -> u32, i: nat, v: u32)
    requires AllHold(files, codes, lit) && AllCollected(files, codes, lit, m) && Table(m, newGet) && i <= |files| == |codes|
    ensures OverSubs(MergedCodes(files[..i], codes[..i], lit, m), LeadsTo(newGet, Other(v)), LeadsTo(newGet, Other(v)))
            <==> !LeadsAny(files[..i], lit, v)
  {
    hide *;
    var k := LeadsTo(newGet, Other(v));
    LeadsAnyIs(files[..i], lit, v);
    if i == 0 {
      assert files[..0] == [] && codes[..0] == [];
      MergedNone(lit, m);
      NoSubs(k);
      AnyOne([], Leading(lit, v));
    } else {
      var n := i - 1;
      MergedLeads(files, codes, lit, m, newGet, n, v);
      MergedStep(files, codes, lit, m, n);
      AllHoldAt(files, codes, lit, n);
      AllCollectedAt(files, codes, lit, m, n);
      HoldsSizes(files[n], codes[n], lit);
      var get := LiteralBase(files[n], lit);
      UpdatedLeads(codes[n], get, m, newGet, v);
      LeadsCodes(files[n], codes[n], lit, v);
      OverAppendSubs(MergedCodes(files[..n], codes[..n], lit, m), PatchSubs(codes[n], UpdateOffsets(get, m)), k, k);
      assert files[..i] == files[..n] + [files[n]];
      LeadsAnyIs(files[..n], lit, v);
      AnyAppend(files[..n], [files[n]], Leading(lit, v));
      AnyOne(files[n], Leading(lit, v));
      LeadingIs(files[n], lit, v);
    }
  }

  lemma MergedFileLeads(file: seq<u8>, merged: seq<Code>, files: seq<seq<u8>>, codes: seq<seq<Code>>, lit: Storage,
                        m: map<u32, u32>, newGet: u32 -> u32)
    requires AllHold(files, codes, lit) && AllCollected(files, codes, lit, m) && Table(m, newGet) && |files| == |codes|
    requires merged == MergedCodes(files, codes, lit, m) && Holds(file, merged, lit) && LiteralBase(file, lit) == newGet
    ensures LeadsAlike(file, files, lit)
  {
    hide *;
    assert files[..|files|] == files && codes[..|files|] == codes;
    forall v ensures Leads(file, lit, v) <==> LeadsAny(files, lit, v) {
      LeadsCodes(file, merged, lit, v);
      MergedLeads(files, codes, lit, m, newGet, |files|, v);
    }
    AlikeIs(file, files, lit);
  }

  lemma AlikeIs(file: seq<u8>, files: seq<seq<u8>>, lit: Storage)
    ensures LeadsAlike(file, files, lit) <==> forall v :: Leads(file, lit, v) <==> LeadsAny(files, lit, v)
  {
    hide Leads, LeadsAny;
  }

  // The file leads to exactly the values that the files lead to.
  ghost predicate LeadsAlike(file: seq<u8>, files: seq<seq<u8>>, lit: Storage) {
    forall v :: Leads(file, lit, v) <==> LeadsAny(files, lit, v)
  }

  // ---- the merged file

  lemma PrefixWord(v: seq<u8>, size: nat, o: nat)
    requires o + 4 <= size <= |v|
    ensures Get32(v[..size], o) == Get32(v, o)
  {
    hide Get32;
    assert v[..size][o..o + 4] == v[o..o + 4];
    Get32Slice(v[..size], v, o, o);
  }

  lemma SameWordBefore(v: seq<u8>, b: seq<u8>, end: nat, o: nat)
    requires SameOutside(v, b, end) && o + 4 <= 20 && 20 <= |v|
    ensures |b| == |v| && Get32(v, o) == Get32(b, o)
  {
    hide Get32;
    assert v[o..o + 4] == b[o..o + 4];
    Get32Slice(v, b, o, o);
  }

  // The fields of the header, in the buffer.
  ghost predicate HasHeaderWords(b: seq<u8>, flags: u32, end: u32, count: u32) {
    && |b| >= 24 && Get32(b, 0) == 0x5952_524A && Get32(b, 4) == 66 && Get32(b, 8) == flags
    && Get32(b, 12) == end && Get32(b, 16) == count
  }

  lemma HeaderKept(v: seq<u8>, b: seq<u8>, end: nat, flags: u32, table: u32, count: u32)
    requires SameOutside(v, b, end) && HasHeaderWords(b, flags, table, count)
    ensures HasHeaderWords(v, flags, table, count)
  {
    hide Get32, SameOutside;
    SameOutsideLength(v, b, end);
    SameWordBefore(v, b, end, 0);
    SameWordBefore(v, b, end, 4);
    SameWordBefore(v, b, end, 8);
    SameWordBefore(v, b, end, 12);
    SameWordBefore(v, b, end, 16);
  }

  lemma SameOutsideLength(v: seq<u8>, b: seq<u8>, end: nat)
    requires SameOutside(v, b, end)
    ensures |v| == |b|
  {}

  lemma HeaderPrefix(v: seq<u8>, size: nat, flags: u32, end: u32, count: u32)
    requires HasHeaderWords(v, flags, end, count) && 24 <= size <= |v| && CheckGlobalFlags(flags)
    ensures HasMagic(v[..size]) && LiteralTable(v[..size]) == end && FunctionCount(v[..size]) == count
    ensures Get32(v[..size], 8) == flags
  {
    hide Get32;
    PrefixWord(v, size, 0);
    PrefixWord(v, size, 4);
    PrefixWord(v, size, 8);
    PrefixWord(v, size, 12);
    PrefixWord(v, size, 16);
  }

  lemma FirstOffset(codes: seq<Code>, base: nat)
    requires codes != [] && !codes[0].SelfRef? && base + LengthSubs(codes) < 0x1_0000_0000
    ensures Offsets(codes, base)[0] == base
  {
    hide Length;
  }

  lemma MergedHolds(v: seq<u8>, b: seq<u8>, codes: seq<Code>, base: nat, end: u32, size: nat, flags: u32, count: u32, table: seq<u8>, lit: Storage)
    requires Copied(v, b, codes, base, end, end) && |codes| == count > 0 && AllFunctions(codes) && 24 <= base
    requires HasHeaderWords(b, flags, end, count) && CheckGlobalFlags(flags)
    requires end <= size <= |v|
    requires b[end..size] == table
    requires OverSubs(codes, LeadsTo(lit.read(table), Poolable()), LeadsTo(lit.read(table), Poolable()))
    ensures Holds(v[..size], codes, lit)
    ensures Get32(v[..size], 8) == flags && LiteralBase(v[..size], lit) == lit.read(table)
    ensures v[size..] == b[size..] && FunctionOffset(v[..size], 0) == base && v[end..size] == table
  {
    hide *;
    CopiedParts(v, b, codes, base, end, end);
    LengthAtLeast(codes);
    AllAt(codes, 0);
    HeaderKept(v, b, end, flags, end, count);
    var file := v[..size];
    HeaderPrefix(v, size, flags, end, count);
    AfterEnd(v, b, end, size, table);
    BaseIs(file, lit, end);
    FirstOffset(codes, base);
    FileWords(v, size, Offsets(codes, base));
    assert file[base..end] == v[base..end];
    HoldsCodeWhole(file, codes, base, end);
    HoldsWhole(file, codes, lit);
  }

  lemma AfterEnd(v: seq<u8>, b: seq<u8>, end: nat, size: nat, table: seq<u8>)
    requires SameOutside(v, b, end) && 20 <= end <= size <= |v| && size <= |b| && b[end..size] == table
    ensures v[..size][end..] == table && v[size..] == b[size..] && v[end..size] == table
  {
    assert v[..size][end..] == v[end..size];
    forall k | 0 <= k < size - end ensures v[..size][end..][k] == table[k] {
      assert b[end..size][k] == b[end + k];
    }
  }

  lemma FileWords(v: seq<u8>, size: nat, xs: seq<u32>)
    requires WordsAre(v, xs) && 20 + 4 * |xs| <= size <= |v|
    ensures forall j :: 0 <= j < |xs| ==> FunctionOffset(v[..size], j) == xs[j]
  {
    hide Get32;
    forall j | 0 <= j < |xs| ensures FunctionOffset(v[..size], j) == xs[j] {
      PrefixWord(v, size, 20 + 4 * j);
      assert GetWord(v, 20, j) == xs[j];
    }
  }

  lemma HoldsCodeWhole(file: seq<u8>, codes: seq<Code>, start: u32, end: u32)
    requires 20 + 4 * |codes| <= start <= end <= |file|
    requires EmittedSubs(file[start..end], codes) && start + LengthSubs(codes) < 0x1_0000_0000
    requires |Offsets(codes, start)| == |codes|
    requires forall j :: 0 <= j < |codes| ==> FunctionOffset(file, j) == Offsets(codes, start)[j]
    ensures HoldsCode(file, codes, start, end)
  {
    hide EmittedSubs, LengthSubs, Offsets, FunctionOffset;
  }

  // Some functions that the inputs hold.
  lemma Witnesses(files: seq<seq<u8>>, lit: Storage) returns (codes: seq<seq<Code>>)
    requires forall i :: 0 <= i < |files| && Rejected(files[i]).None? ==> IsSaved(files[i], lit)
    ensures |codes| == |files|
    ensures forall i :: 0 <= i < |files| && Rejected(files[i]).None? ==> Holds(files[i], codes[i], lit)
  {
    hide Holds, HasMagic;
    codes := [];
    while |codes| < |files|
      invariant |codes| <= |files|
      invariant forall i :: 0 <= i < |codes| && Rejected(files[i]).None? ==> Holds(files[i], codes[i], lit)
    {
      var file := files[|codes|];
      if Rejected(file).None? {
        var c :| Holds(file, c, lit);
        codes := codes + [c];
      } else {
        codes := codes + [[]];
      }
    }
  }

  method StoreHeader(out: array<u8>, flags: u32, end: u32, count: u32)
    requires out.Length >= 24
    modifies out
    ensures HasHeaderWords(out[..], flags, end, count)
    ensures forall k :: 20 <= k < out.Length ==> out[k] == old(out[k])
  {
    hide Word, Get32;
    ghost var b := out[..];
    StoreWord(out, 0, 0x5952_524A);
    PutWord(b, 0, 0x5952_524A);
    ghost var b1 := out[..];
    StoreWord(out, 4, 66);
    PutWord(b1, 4, 66);
    ghost var b2 := out[..];
    StoreWord(out, 8, flags);
    PutWord(b2, 8, flags);
    ghost var b3 := out[..];
    StoreWord(out, 12, end);
    PutWord(b3, 12, end);
    ghost var b4 := out[..];
    StoreWord(out, 16, count);
    PutWord(b4, 16, count);
  }

  // The files that are not rejected are what was saved or merged.
  ghost predicate AllSaved(files: seq<seq<u8>>, lit: Storage) {
    forall i :: 0 <= i < |files| && Rejected(files[i]).None? ==> IsSaved(files[i], lit)
  }

  // The code areas follow the header without a gap and end at the literal table.
  predicate MergedLayout(file: seq<u8>, files: seq<seq<u8>>) {
    && |file| >= 24 && FunctionCount(file) == TotalCount(files) > 0
    && FunctionOffset(file, 0) == MergedStart(TotalCount(files))
    && LiteralTable(file) == MergedStart(TotalCount(files)) + TotalSize(files)
    && FlagsOf(file) == MergedFlags(files)
  }

  // A whole file that loads, function by function, what the files load, and has their literals.
  ghost predicate IsMergeOf(files: seq<seq<u8>>, file: seq<u8>, lit: Storage) {
    IsSaved(file, lit) && LoadAll(file, lit) == LoadEach(files, lit) && MergedLayout(file, files) && LeadsAlike(file, files, lit)
  }

  // The merged file holds the functions of the inputs, and loading function j of the merged
  // file gives what loading it from its own input gave.
  method MergeSnapshots(files: seq<seq<u8>>, out: array<u8>, lit: Storage)
    returns (size: nat, error: Option<MergeError>, ghost pool: seq<u32>)
    requires AllSaved(files, lit) && Interning(lit) && out.Length < 0x1_0000_0000
    modifies out
    ensures |files| < 2 <==> error == Some(TooFew)
    ensures |files| >= 2 && FirstRejected(files).Some? ==> error == FirstRejected(files)
    ensures |files| >= 2 && FirstRejected(files).None? ==>
              && TotalCount(files) > 0
              && (error == Some(OutputTooSmall) <==> MergedStart(TotalCount(files)) + TotalSize(files) >= out.Length)
              && error != Some(InvalidFile) && error != Some(InvalidVersion)
    ensures |files| >= 2 && FirstRejected(files).None? && error != Some(OutputTooSmall) ==>
              && IsPoolOfAll(files, lit, pool)
              && (error == Some(MergeError.BufferTooSmall) <==>
                    !TableFits(TableSize(lit, pool), MergedStart(TotalCount(files)) + TotalSize(files), out.Length))
    ensures error.Some? ==> size == 0 && (error != Some(MergeError.BufferTooSmall) ==> out[..] == old(out[..]))
    ensures error.None? ==>
              && size == MergedStart(TotalCount(files)) + TotalSize(files) + TableSize(lit, pool) <= out.Length
              && out[size..] == old(out[..])[size..]
              && out[MergedStart(TotalCount(files)) + TotalSize(files)..size] == lit.bytes(pool)
              && IsMergeOf(files, out[..size], lit)
    ensures error.None? ==>
              && size >= 24 && Get32(out[..size], 8) in [0, 1, 4, 5]
              && (Get32(out[..size], 8) % 2 == 1 <==> SomeBit(files, 1))
              && (Get32(out[..size], 8) / 4 % 2 == 1 <==> SomeBit(files, 4))
  {
    hide *;
    size, error, pool := 0, None, [];
    if |files| < 2 {
      error := Some(TooFew);
      RejectedKinds(files);
      return;
    }
    SavedEach(files, lit);
    ghost var codes := Witnesses(files, lit);
    var count: u32, flags: u32, functionsSize: nat, literals: seq<u32>;
    error, count, flags, functionsSize, literals := CollectInputs(files, lit, codes);
    RejectedKinds(files);
    if error.Some? {
      return;
    }
    SomeFunction(files, codes, lit);
    ghost var total := TotalCount(files);
    functionsSize := functionsSize + AlignUp(4 * ((count as int - 1) % 0x1_0000_0000));
    if functionsSize >= out.Length {
      error := Some(OutputTooSmall);
      SizeTooLarge(total, count, TotalSize(files), functionsSize, out.Length);
      return;
    }
    SizeFits(total, count, TotalSize(files), functionsSize, out.Length);
    ghost var b0 := out[..];
    StoreHeader(out, flags, functionsSize, count);
    ghost var b1 := out[..];
    pool := literals;
    LeadsIsRead(files, lit, pool);
    LiveSaves(lit, pool, functionsSize, out.Length);
    var outcome, next, entries := SaveLiterals(literals, out, functionsSize, lit);
    if !outcome.Saved? {
      error := Some(MergeError.BufferTooSmall);
      return;
    }
    ghost var b2, m, table := out[..], MapOf(entries), lit.bytes(pool);
    PoolFacts(lit, pool);
    ShortTable(lit, pool);
    PooledIsCollected(files, codes, lit, pool, m);
    var base := 24 + AlignUp(4 * (count - 1));
    StartIs(count);
    CopyInputs(out, files, lit, entries, base, functionsSize, codes);
    size := next;
    ghost var v, merged := out[..], MergedCodes(files, codes, lit, m);
    AllHoldLength(files, codes, lit);
    assert files[..|files|] == files && codes[..|files|] == codes;
    MergedWellFormed(files, codes, lit, m, lit.read(table), |files|);
    MergedLoads(files, codes, lit, m, lit.read(table), |files|);
    TableStored(b0, b1, b2, functionsSize, table, flags, count);
    FlagsKnown(files);
    MergedHolds(v, b2, merged, base, functionsSize, size, flags, count, table, lit);
    LoadHolds(v[..size], merged, lit);
    SavedIs(v[..size], merged, lit);
    HoldsSizes(v[..size], merged, lit);
    CopiedParts(v, b2, merged, base, functionsSize, functionsSize);
    LayoutIs(v[..size], files);
    BaseIs(v[..size], lit, functionsSize);
    MergedFileLeads(v[..size], merged, files, codes, lit, m, lit.read(table));
    MergeIs(files, v[..size], lit);
    FlagsJoined(files);
  }

  lemma SavedEach(files: seq<seq<u8>>, lit: Storage)
    requires AllSaved(files, lit)
    ensures forall i :: 0 <= i < |files| && Rejected(files[i]).None? ==> IsSaved(files[i], lit)
  {
    hide IsSaved, Rejected;
  }

  lemma MergeIs(files: seq<seq<u8>>, file: seq<u8>, lit: Storage)
    requires IsSaved(file, lit) && LoadAll(file, lit) == LoadEach(files, lit) && MergedLayout(file, files)
    requires LeadsAlike(file, files, lit)
    ensures IsMergeOf(files, file, lit)
  {
    hide IsSaved, LoadAll, LoadEach, MergedLayout, LeadsAlike;
  }

  lemma LayoutIs(file: seq<u8>, files: seq<seq<u8>>)
    requires |file| >= 24 && CountOf(file) == TotalCount(files) > 0
    requires FunctionOffset(file, 0) == MergedStart(TotalCount(files))
    requires FunctionOffset(file, 0) <= LiteralTable(file)
    requires RegionSize(file) == TotalSize(files) && FlagsOf(file) == MergedFlags(files)
    ensures MergedLayout(file, files)
  {
    hide FunctionCount, FunctionOffset, LiteralTable, TotalCount, TotalSize, FlagsOf, MergedFlags, MergedStart;
  }

  lemma RejectedKinds(files: seq<seq<u8>>)
    ensures FirstRejected(files) in [None, Some(InvalidFile), Some(InvalidVersion)]
  {
    hide HasMagic;
    if files != [] {
      RejectedKinds(files[1..]);
    }
  }

  lemma SomeFunction(files: seq<seq<u8>>, codes: seq<seq<Code>>, lit: Storage)
    requires AllHold(files, codes, lit) && files != []
    ensures TotalCount(files) > 0
  {
    hide *;
    AllHoldAt(files, codes, lit, 0);
    HoldsSizes(files[0], codes[0], lit);
    Totals(files, 0);
    Totals(files, 1);
    TotalsMonotone(files, 1);
  }

  lemma CountBound(total: nat, count: u32)
    requires count == total % 0x1_0000_0000 && total > 0
    ensures total < 0x1_0000_0000 ==> count == total && (count - 1) % 0x1_0000_0000 == total - 1
  {}

  // The count wraps around only when the code is too large anyway.
  lemma SizeTooLarge(total: nat, count: u32, sizes: nat, size: nat, len: nat)
    requires count == total % 0x1_0000_0000 && total > 0 && sizes >= 8 * total && len < 0x1_0000_0000
    requires size == 24 + sizes + AlignUp(4 * ((count - 1) % 0x1_0000_0000)) && size >= len
    ensures MergedStart(total) + sizes >= len
  {
    hide *;
    StartIs(total);
    if total < 0x1_0000_0000 {
      CountBound(total, count);
    }
  }

  lemma SizeFits(total: nat, count: u32, sizes: nat, size: nat, len: nat)
    requires count == total % 0x1_0000_0000 && total > 0 && sizes >= 8 * total && len < 0x1_0000_0000
    requires size == 24 + sizes + AlignUp(4 * ((count - 1) % 0x1_0000_0000)) && size < len
    ensures count == total && size == MergedStart(total) + sizes && 24 <= MergedStart(total) && 24 <= size
  {
    hide *;
    StartIs(total);
    CountBound(total, count);
  }

  lemma StartIs(count: nat)
    requires count > 0
    ensures MergedStart(count) == 24 + AlignUp(4 * (count - 1)) >= 24
  {}

  lemma TableStored(b0: seq<u8>, b1: seq<u8>, b2: seq<u8>, end: nat, table: seq<u8>, flags: u32, count: u32)
    requires |b1| == |b0| && 24 <= end && end < 0x1_0000_0000 && end + |table| <= |b1| && b2 == Put(b1, end, table)
    requires HasHeaderWords(b1, flags, end, count)
    requires forall k :: 20 <= k < |b0| ==> b1[k] == b0[k]
    ensures |b2| == |b0| && HasHeaderWords(b2, flags, end, count) && b2[end..end + |table|] == table
    ensures b2[end + |table|..] == b0[end + |table|..]
  {
    PutBytes(b1, end, table);
    hide Put, Get32;
    PrefixKept(b1, b2, end, 0);
    PrefixKept(b1, b2, end, 4);
    PrefixKept(b1, b2, end, 8);
    PrefixKept(b1, b2, end, 12);
    PrefixKept(b1, b2, end, 16);
    forall k | 0 <= k < |table| ensures b2[end..end + |table|][k] == table[k] {
      assert b2[end + k] == table[k];
    }
  }

  lemma PrefixKept(b: seq<u8>, c: seq<u8>, end: nat, o: nat)
    requires |c| == |b| && o + 4 <= end <= |b| && forall k :: 0 <= k < end ==> c[k] == b[k]
    ensures Get32(c, o) == Get32(b, o)
  {
    hide Get32;
    assert c[o..o + 4] == b[o..o + 4];
    Get32Slice(c, b, o, o);
  }

  // Some file has the bit in its flags, the word at byte 8.
  ghost predicate SomeBit(files: seq<seq<u8>>, bit: nat)
    requires bit > 0
  {
    exists i :: 0 <= i < |files| && |files[i]| >= 24 && Get32(files[i], 8) / bit % 2 == 1
  }

  lemma {:induction false} FlagsJoined(files: seq<seq<u8>>)
    ensures MergedFlags(files) in [0, 1, 4, 5]
    ensures MergedFlags(files) % 2 == 1 <==> SomeBit(files, 1)
    ensures MergedFlags(files) / 4 % 2 == 1 <==> SomeBit(files, 4)
  {
    hide Get32;
    if files != [] {
      var n := |files| - 1;
      FlagsJoined(files[..n]);
      SomeBitNext(files, 1);
      SomeBitNext(files, 4);
    }
  }

  lemma SomeBitNext(files: seq<seq<u8>>, bit: nat)
    requires files != [] && bit > 0
    ensures var n := |files| - 1;
            SomeBit(files, bit) <==> SomeBit(files[..n], bit) || (|files[n]| >= 24 && Get32(files[n], 8) / bit % 2 == 1)
  {
    hide Get32;
    var n := |files| - 1;
    if i :| 0 <= i < n && |files[..n][i]| >= 24 && Get32(files[..n][i], 8) / bit % 2 == 1 {
      assert files[i] == files[..n][i];
    }
    if i :| 0 <= i < |files| && |files[i]| >= 24 && Get32(files[i], 8) / bit % 2 == 1 {
      assert i < n ==> files[..n][i] == files[i];
    }
  }

  lemma FlagsKnown(files: seq<seq<u8>>)
    ensures CheckGlobalFlags(MergedFlags(files))
  {}

  lemma PatchBlocksLength(b: seq<u8>, p: Patch)
    ensures |PatchBlocks(b, p)| == |b|
  {}

  // ---- merging a merge

  lemma {:induction false} LoadEachAppend(a: seq<seq<u8>>, b: seq<seq<u8>>, lit: Storage)
    ensures LoadEach(a + b, lit) == LoadEach(a, lit) + LoadEach(b, lit)
    decreases |b|
  {
    hide LoadAll;
    if b == [] {
      assert a + b == a;
    } else {
      var n := |b| - 1;
      assert (a + b)[..|a + b| - 1] == a + b[..n];
      LoadEachAppend(a, b[..n], lit);
    }
  }

  lemma LoadEachMiddle(x: seq<seq<u8>>, a: seq<seq<u8>>, y: seq<seq<u8>>, m: seq<u8>, lit: Storage)
    requires LoadAll(m, lit) == LoadEach(a, lit)
    ensures LoadEach(x + [m] + y, lit) == LoadEach(x + a + y, lit)
  {
    hide LoadAll;
    LoadEachAppend(x + [m], y, lit);
    LoadEachAppend(x, [m], lit);
    LoadEachAppend(x + a, y, lit);
    LoadEachAppend(x, a, lit);
    assert LoadEach([m], lit) == LoadAll(m, lit) by {
      assert [m][..0] == [];
    }
  }

  lemma {:induction false} TotalsAppend(a: seq<seq<u8>>, b: seq<seq<u8>>)
    ensures TotalCount(a + b) == TotalCount(a) + TotalCount(b) && TotalSize(a + b) == TotalSize(a) + TotalSize(b)
    ensures MergedFlags(a + b) == OrFlags(MergedFlags(a), MergedFlags(b))
    decreases |b|
  {
    hide CountOf, RegionSize, FlagsOf, OrFlags;
    if b == [] {
      assert a + b == a;
      NoMoreFlags(a);
    } else {
      var n := |b| - 1;
      assert (a + b)[..|a + b| - 1] == a + b[..n];
      TotalsAppend(a, b[..n]);
      OrFlagsThree(MergedFlags(a), MergedFlags(b[..n]), FlagsOf(b[n]));
    }
  }

  lemma NoMoreFlags(a: seq<seq<u8>>)
    ensures OrFlags(MergedFlags(a), 0) == MergedFlags(a)
  {
    FlagsKnown(a);
    hide MergedFlags, OrFlags;
    OrNothing(MergedFlags(a));
  }

  lemma OrNothing(f: u32)
    requires CheckGlobalFlags(f)
    ensures OrFlags(f, 0) == f
  {}

  lemma OrFlagsThree(f: u32, g: u32, h: u32)
    ensures OrFlags(OrFlags(f, g), h) == OrFlags(f, OrFlags(g, h))
  {}

  lemma TotalsOne(m: seq<u8>, a: seq<seq<u8>>)
    requires MergedLayout(m, a)
    ensures TotalCount([m]) == TotalCount(a) && TotalSize([m]) == TotalSize(a) && MergedFlags([m]) == MergedFlags(a)
  {
    hide FunctionCount, FunctionOffset, LiteralTable;
    assert [m][..0] == [];
  }

  lemma TotalsMiddle(x: seq<seq<u8>>, a: seq<seq<u8>>, y: seq<seq<u8>>, m: seq<u8>)
    requires MergedLayout(m, a)
    ensures TotalCount(x + [m] + y) == TotalCount(x + a + y) && TotalSize(x + [m] + y) == TotalSize(x + a + y)
    ensures MergedFlags(x + [m] + y) == MergedFlags(x + a + y)
  {
    hide *;
    TotalsOne(m, a);
    TotalsAppend(x + [m], y);
    TotalsAppend(x, [m]);
    TotalsAppend(x + a, y);
    TotalsAppend(x, a);
  }

  lemma {:induction false} RejectedAppend(a: seq<seq<u8>>, b: seq<seq<u8>>)
    ensures FirstRejected(a + b) == if FirstRejected(a).Some? then FirstRejected(a) else FirstRejected(b)
  {
    hide Rejected;
    if a == [] {
      assert a + b == b;
    } else {
      assert (a + b)[1..] == a[1..] + b;
      RejectedAppend(a[1..], b);
    }
  }

  lemma SavedIsAccepted(file: seq<u8>, lit: Storage)
    requires IsSaved(file, lit)
    ensures Rejected(file).None?
  {
    hide Holds, HasMagic;
    var codes :| Holds(file, codes, lit);
    HoldsParts(file, codes, lit);
  }

  // A merge of a is an acceptable input, and can stand for all of a in a further merge, at any
  // place: the errors are the same, and what is merged is a merge of all the files at once.
  lemma MergeOfMerge(x: seq<seq<u8>>, a: seq<seq<u8>>, y: seq<seq<u8>>, m: seq<u8>, file: seq<u8>, lit: Storage)
    requires FirstRejected(a).None? && IsMergeOf(a, m, lit)
    ensures Rejected(m).None? && IsSaved(m, lit)
    ensures FirstRejected(x + [m] + y) == FirstRejected(x + a + y)
    ensures TotalCount(x + [m] + y) == TotalCount(x + a + y) && TotalSize(x + [m] + y) == TotalSize(x + a + y)
    ensures forall v :: LeadsAny(x + [m] + y, lit, v) <==> LeadsAny(x + a + y, lit, v)
    ensures IsMergeOf(x + [m] + y, file, lit) <==> IsMergeOf(x + a + y, file, lit)
  {
    MergeParts(a, m, lit);
    MergeParts(x + [m] + y, file, lit);
    MergeParts(x + a + y, file, lit);
    hide *;
    SavedIsAccepted(m, lit);
    LoadEachMiddle(x, a, y, m, lit);
    TotalsMiddle(x, a, y, m);
    LayoutDepends(file, x + [m] + y, x + a + y);
    AlikeIs(m, a, lit);
    forall v ensures LeadsAny(x + [m] + y, lit, v) <==> LeadsAny(x + a + y, lit, v) {
      var k := Leading(lit, v);
      AnyAppend(x + [m], y, k);
      AnyAppend(x, [m], k);
      AnyAppend(x + a, y, k);
      AnyAppend(x, a, k);
      AnyOne(m, k);
      LeadingIs(m, lit, v);
      LeadsAnyIs(a, lit, v);
      LeadsAnyIs(x + [m] + y, lit, v);
      LeadsAnyIs(x + a + y, lit, v);
    }
    AlikeIs(file, x + [m] + y, lit);
    AlikeIs(file, x + a + y, lit);
    RejectedAppend(x + [m], y);
    RejectedAppend(x, [m]);
    RejectedAppend(x + a, y);
    RejectedAppend(x, a);
    RejectedOne(m);
  }

  lemma MergeParts(files: seq<seq<u8>>, file: seq<u8>, lit: Storage)
    ensures IsMergeOf(files, file, lit) <==>
              && IsSaved(file, lit) && LoadAll(file, lit) == LoadEach(files, lit) && MergedLayout(file, files)
              && LeadsAlike(file, files, lit)
  {}

  lemma SamePool(p: seq<seq<u8>>, q: seq<seq<u8>>, lit: Storage, pool: seq<u32>)
    requires forall v :: LeadsAny(p, lit, v) <==> LeadsAny(q, lit, v)
    ensures IsPoolOfAll(p, lit, pool) <==> IsPoolOfAll(q, lit, pool)
  {
    hide LeadsAny, Distinct;
  }

  lemma LayoutDepends(file: seq<u8>, p: seq<seq<u8>>, q: seq<seq<u8>>)
    requires TotalCount(p) == TotalCount(q) && TotalSize(p) == TotalSize(q) && MergedFlags(p) == MergedFlags(q)
    ensures MergedLayout(file, p) <==> MergedLayout(file, q)
  {
    hide FunctionCount, FunctionOffset, LiteralTable, TotalCount, TotalSize, FlagsOf, MergedFlags, MergedStart;
  }

  lemma RejectedOne(m: seq<u8>)
    requires Rejected(m).None?
    ensures FirstRejected([m]).None?
  {
    hide Rejected;
  }

  lemma AllSavedIs(files: seq<seq<u8>>, lit: Storage)
    ensures AllSaved(files, lit) <==> forall i :: 0 <= i < |files| && Rejected(files[i]).None? ==> IsSaved(files[i], lit)
  {
    hide Rejected, IsSaved;
  }

  // Two runs, the second over what the first wrote: what remains of the second is what a single
  // run over all the files promises.
  method MergeTwice(x: seq<seq<u8>>, a: seq<seq<u8>>, y: seq<seq<u8>>, first: array<u8>, second: array<u8>, lit: Storage)
    returns (m: seq<u8>, error: Option<MergeError>, size: nat, error2: Option<MergeError>, ghost pool: seq<u32>)
    requires AllSaved(x, lit) && AllSaved(a, lit) && AllSaved(y, lit) && Interning(lit) && |x| + |y| > 0
    requires first.Length < 0x1_0000_0000 && second.Length < 0x1_0000_0000 && first != second
    modifies first, second
    ensures error.None? ==> IsMergeOf(a, m, lit) && m <= first[..]
    ensures error.None? ==> error2 != Some(TooFew)
    ensures error.None? && FirstRejected(x + a + y).Some? ==> error2 == FirstRejected(x + a + y)
    ensures error.None? && FirstRejected(x + a + y).None? ==>
              && TotalCount(x + a + y) > 0
              && (error2 == Some(OutputTooSmall) <==> MergedStart(TotalCount(x + a + y)) + TotalSize(x + a + y) >= second.Length)
    ensures error.None? && FirstRejected(x + a + y).None? && error2 != Some(OutputTooSmall) ==>
              && IsPoolOfAll(x + a + y, lit, pool)
              && (error2 == Some(MergeError.BufferTooSmall) <==>
                    !TableFits(TableSize(lit, pool), MergedStart(TotalCount(x + a + y)) + TotalSize(x + a + y), second.Length))
    ensures error.None? && error2.None? ==> size <= second.Length && IsMergeOf(x + a + y, second[..size], lit)
  {
    hide *;
    m, size, error2, pool := [], 0, None, [];
    var n: nat;
    n, error, pool := MergeSnapshots(a, first, lit);
    if error.Some? {
      return;
    }
    m := first[..n];
    assert FirstRejected(a).None?;
    MergeOfMerge(x, a, y, m, [], lit);
    AllSavedIs(x, lit);
    AllSavedIs(y, lit);
    AllSavedIs(x + [m] + y, lit);
    size, error2, pool := MergeSnapshots(x + [m] + y, second, lit);
    SamePool(x + [m] + y, x + a + y, lit, pool);
    if error2.None? {
      MergeOfMerge(x, a, y, m, second[..size], lit);
    }
  }
}
