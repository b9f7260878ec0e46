// Snapshot files: header, code area and literal table
// (jerry-core/api/jerry-snapshot.h, jerry-core/api/jerry-snapshot.c).
module SnapshotFile {
  import opened Bytes
  import opened Layout
  import opened Snapshot
  import opened SnapshotPasses

  // The literal storage of the engine: whether a word is a value that exists, the size of a value
  // in a literal table, the bytes of a string, the table that is written for a pool of values, with
  // the map from values to offsets, and the value found at an offset of a table.
  datatype Storage = Storage(live: u32 -> bool, size: u32 -> nat, chars: u32 -> nat, bytes: seq<u32> -> seq<u8>,
                             entries: seq<u32> -> seq<Entry>, read: seq<u8> -> u32 -> u32)

  ghost function Poolable(): u32 -> bool {
    (v: u32) => IsPooled(v)
  }

  ghost predicate IsLiteralPool(pool: seq<u32>) {
    Distinct(pool) && AllOf(pool, Poolable())
  }

  ghost predicate AllLive(lit: Storage, pool: seq<u32>) {
    forall i :: 0 <= i < |pool| ==> lit.live(pool[i])
  }

  function TableSize(lit: Storage, pool: seq<u32>): nat {
    if pool == [] then 0 else TableSize(lit, pool[..|pool| - 1]) + lit.size(pool[|pool| - 1])
  }

  // A table holds the size of a string in 16 bits.
  ghost predicate IsShort(lit: Storage, v: u32) {
    IsString(v) ==> lit.chars(v) < 0x1_0000
  }

  ghost function Short(lit: Storage): u32 -> bool {
    (v: u32) => IsShort(lit, v)
  }

  // Values are interned: what was stored in a table of an allowed size is found again, unless it
  // is a string that is too long. What is read exists, and is not too long. The size of a float is
  // known without looking at it.
  ghost predicate Interning(lit: Storage) {
    && (forall v :: lit.live(v) || IsFloat(v) ==> 0 < lit.size(v) < 0x8000_0000)
    && (forall b, x :: lit.live(lit.read(b)(x)) && IsShort(lit, lit.read(b)(x)))
    && (forall pool :: IsLiteralPool(pool) && AllLive(lit, pool) ==> StoredWhole(lit, pool))
  }

  ghost predicate StoredWhole(lit: Storage, pool: seq<u32>) {
    |lit.bytes(pool)| == TableSize(lit, pool) && (TableSize(lit, pool) <= 0x7ff_ffff ==> StoredPool(lit, pool))
  }

  ghost predicate StoredPool(lit: Storage, pool: seq<u32>) {
    && (forall v :: v in MapOf(lit.entries(pool)) <==> v in pool)
    && IsRead(lit, MapOf(lit.entries(pool)), lit.read(lit.bytes(pool)))
  }

  // The offset of every value leads to a value, and to itself if it is not too long.
  ghost predicate IsRead(lit: Storage, m: map<u32, u32>, get: u32 -> u32) {
    forall v :: v in m ==> IsOffset(m[v]) && IsPooled(get(m[v])) && (IsShort(lit, v) ==> get(m[v]) == v)
  }

  // ---- the entry of a string: its size in 16 bits, then its bytes

  function StringEntry(s: seq<u8>): seq<u8> {
    Half(|s| % 0x1_0000) + s
  }

  function ReadString(b: seq<u8>): seq<u8>
    requires |b| >= 2 && 2 + Get16(b, 0) <= |b|
  {
    b[2..2 + Get16(b, 0)]
  }

  // A string is read back exactly when its size fits; a string of 65536 bytes is read as empty.
  lemma StringReadExactly(s: seq<u8>, rest: seq<u8>)
    ensures var b := StringEntry(s) + rest;
            && 2 + Get16(b, 0) <= |b| && ReadString(b) == s[..|s| % 0x1_0000]
            && (ReadString(b) == s <==> |s| < 0x1_0000)
  {
    var n: u16 := |s| % 0x1_0000;
    var b := StringEntry(s) + rest;
    assert b[0] == Half(n)[0] && b[1] == Half(n)[1];
    assert b[2..2 + n] == s[..n];
    assert n == |s| ==> s[..n] == s;
  }

  // The strings that are not too long are those that are read back.
  lemma ShortMeans(lit: Storage, v: u32, s: seq<u8>)
    requires |s| == lit.chars(v)
    ensures 2 + Get16(StringEntry(s), 0) <= |StringEntry(s)|
    ensures IsShort(lit, v) <==> (v % 4 == 1 ==> ReadString(StringEntry(s)) == s)
  {
    StringReadExactly(s, []);
    assert StringEntry(s) + [] == StringEntry(s);
  }

  // ---- there is such a storage: the values themselves, word after word; one string is too long

  function PlainBytes(pool: seq<u32>): (b: seq<u8>)
    ensures |b| == 4 * |pool|
  {
    if pool == [] then [] else PlainBytes(pool[..|pool| - 1]) + Word(pool[|pool| - 1])
  }

  function PlainEntries(pool: seq<u32>): seq<Entry> {
    seq(|pool|, i requires 0 <= i < |pool| => Entry(pool[i], (8 * i + 7) % 0x1_0000_0000))
  }

  function PlainRead(b: seq<u8>): u32 -> u32 {
    (x: u32) => if 4 * (x / 8) + 4 <= |b| then ReadAs(Get32(b, 4 * (x / 8))) else 0
  }

  // The long string is read as another one.
  function ReadAs(v: u32): u32 {
    if v == 9 then 1 else v
  }

  function PlainStorage(): Storage {
    Storage((v: u32) => true, (v: u32) => 4, (v: u32) => if v == 9 then 0x1_0000 else 0, PlainBytes, PlainEntries, PlainRead)
  }

  lemma {:induction false} PlainSize(pool: seq<u32>)
    ensures TableSize(PlainStorage(), pool) == 4 * |pool|
  {
    hide PlainBytes, PlainEntries, PlainRead;
    if pool != [] {
      PlainSize(pool[..|pool| - 1]);
    }
  }

  lemma {:induction false} PlainWord(pool: seq<u32>, i: nat)
    requires i < |pool|
    ensures Get32(PlainBytes(pool), 4 * i) == pool[i]
  {
    hide Get32, Word;
    var n := |pool| - 1;
    var b, w := PlainBytes(pool[..n]), Word(pool[n]);
    if i == n {
      SliceInside(b + w, 4 * n, w, 0);
    } else {
      PlainWord(pool[..n], i);
      SliceInside(b + w, 0, b, 4 * i);
    }
  }

  lemma {:induction false} MapKeys(entries: seq<Entry>, v: u32) returns (k: nat)
    requires v in MapOf(entries)
    ensures k < |entries| && entries[k].id == v && entries[k].offset == MapOf(entries)[v]
  {
    if entries[0].id == v {
      k := 0;
    } else {
      k := MapKeys(entries[1..], v);
      k := k + 1;
    }
  }

  lemma {:induction false} InMap(entries: seq<Entry>, k: nat)
    requires k < |entries|
    ensures entries[k].id in MapOf(entries)
  {
    if k > 0 {
      InMap(entries[1..], k - 1);
    }
  }

  lemma PlainStored(pool: seq<u32>, v: u32)
    requires |pool| <= 0x200_0000
    ensures v in MapOf(PlainEntries(pool)) <==> v in pool
    ensures v in pool ==> var x := MapOf(PlainEntries(pool))[v]; IsOffset(x) && PlainRead(PlainBytes(pool))(x) == ReadAs(v)
  {
    hide Get32, MapOf, PlainBytes;
    if v in pool {
      var j :| 0 <= j < |pool| && pool[j] == v;
      InMap(PlainEntries(pool), j);
    }
    if v in MapOf(PlainEntries(pool)) {
      var k := MapKeys(PlainEntries(pool), v);
      PlainWord(pool, k);
      assert (8 * k + 7) / 8 == k;
    }
  }

  lemma StorageExists()
    ensures Interning(PlainStorage()) && PlainStorage().live(9) && !IsShort(PlainStorage(), 9)
  {
    hide PlainRead, PlainEntries, MapOf, IsOffset;
    var lit := PlainStorage();
    forall b, x ensures IsShort(lit, lit.read(b)(x)) {
      PlainIsShort(b, x);
    }
    forall pool | IsLiteralPool(pool) && AllLive(lit, pool) ensures StoredWhole(lit, pool) {
      PlainSize(pool);
      if TableSize(lit, pool) <= 0x7ff_ffff {
        PlainWhole(pool);
      }
    }
  }

  lemma PlainIsShort(b: seq<u8>, x: u32)
    ensures IsShort(PlainStorage(), PlainRead(b)(x))
  {
    hide Get32;
  }

  lemma PlainWhole(pool: seq<u32>)
    requires |pool| <= 0x1ff_ffff && IsLiteralPool(pool)
    ensures StoredPool(PlainStorage(), pool)
  {
    hide PlainRead, PlainEntries, MapOf, IsOffset;
    var lit := PlainStorage();
    forall v ensures v in MapOf(lit.entries(pool)) <==> v in pool {
      PlainStored(pool, v);
    }
    forall v | v in MapOf(lit.entries(pool))
      ensures var x, get := MapOf(lit.entries(pool))[v], lit.read(lit.bytes(pool));
              IsOffset(x) && IsPooled(get(x)) && (IsShort(lit, v) ==> get(x) == v)
    {
      PlainStored(pool, v);
      var i :| 0 <= i < |pool| && pool[i] == v;
      assert Poolable()(pool[i]);
    }
  }

  // ---- header fields

  // Regular expressions (bit 0) and classes (bit 2) are supported, nothing else is: when both
  // bits are cleared, nothing is left.
  predicate CheckGlobalFlags(flags: u32) {
    flags == 0 || flags == 1 || flags == 4 || flags == 5
  }

  // No bit but 0 and 2.
  lemma FlagsAccepted(flags: u32)
    ensures CheckGlobalFlags(flags) <==> flags / 2 % 2 == 0 && flags / 8 == 0
  {}

  predicate HasMagic(file: seq<u8>)
    requires |file| >= 24
  {
    Get32(file, 0) == 0x5952_524A && Get32(file, 4) == 66 && CheckGlobalFlags(Get32(file, 8))
  }

  // The magic word spells JRRY.
  lemma MagicMeans(file: seq<u8>)
    requires |file| >= 24
    ensures HasMagic(file) <==>
              && file[..4] == [0x4a, 0x52, 0x52, 0x59] && file[4..8] == [66, 0, 0, 0]
              && Get32(file, 8) / 2 % 2 == 0 && Get32(file, 8) / 8 == 0
  {
    FlagsAccepted(Get32(file, 8));
    Get32Slice(file, file[..4], 0, 0);
    Get32Slice(file, file[4..8], 4, 0);
    if HasMagic(file) {
      Get32Unique(file[..4], [0x4a, 0x52, 0x52, 0x59]);
      Get32Unique(file[4..8], [66, 0, 0, 0]);
    }
  }

  function LiteralTable(file: seq<u8>): u32
    requires |file| >= 24
  {
    Get32(file, 12)
  }

  function FunctionCount(file: seq<u8>): u32
    requires |file| >= 24
  {
    Get32(file, 16)
  }

  function FunctionOffset(file: seq<u8>, j: nat): u32
    requires 20 + 4 * j + 4 <= |file|
  {
    GetWord(file, 20, j)
  }

  // ---- loading one function of a file (jerry_snapshot_result, copying the data)

  function LiteralBase(file: seq<u8>, lit: Storage): u32 -> u32 {
    if |file| >= 24 && LiteralTable(file) <= |file| then lit.read(file[LiteralTable(file)..]) else (x: u32) => x
  }

  // None stands for a refused file, a function index that is too high, or reading outside.
  function LoadAt(file: seq<u8>, j: nat, lit: Storage): Option<Code> {
    if |file| <= 24 || !HasMagic(file) || LiteralTable(file) > |file| || j >= FunctionCount(file) then None
    else if 20 + 4 * j + 4 > |file| || FunctionOffset(file, j) > |file| then None
    else Load(file[FunctionOffset(file, j)..], LiteralBase(file, lit))
  }

  function LoadAll(file: seq<u8>, lit: Storage): (r: seq<Option<Code>>) {
    if |file| < 24 then [] else seq(FunctionCount(file), (j: nat) => LoadAt(file, j, lit))
  }

  // ---- well-formed files

  ghost predicate AllFunctions(codes: seq<Code>) {
    ValidSubs(codes) && forall j :: 0 <= j < |codes| ==> !codes[j].SelfRef?
  }

  // The flat form of codes lies between the header and the literal table, and every literal
  // offset in it leads to a value that the pool accepts.
  ghost predicate Holds(file: seq<u8>, codes: seq<Code>, lit: Storage) {
    && |file| > 24 && HasMagic(file) && |codes| == FunctionCount(file) > 0
    && AllFunctions(codes)
    && 20 + 4 * |codes| <= FunctionOffset(file, 0) <= LiteralTable(file) <= |file|
    && HoldsCode(file, codes, FunctionOffset(file, 0), LiteralTable(file))
    && OverSubs(codes, LeadsTo(LiteralBase(file, lit), Poolable()), LeadsTo(LiteralBase(file, lit), Poolable()))
  }

  ghost predicate HoldsCode(file: seq<u8>, codes: seq<Code>, start: u32, end: u32)
    requires 20 + 4 * |codes| <= start <= end <= |file|
  {
    && EmittedSubs(file[start..end], codes)
    && start + LengthSubs(codes) < 0x1_0000_0000
    && forall j :: 0 <= j < |codes| ==> FunctionOffset(file, j) == Offsets(codes, start)[j]
  }

  // ---- a function inside a code area

  lemma EmittedAt(b: seq<u8>, codes: seq<Code>, pos: nat, j: nat)
    requires EmittedSubs(b, codes) && AllFunctions(codes) && j < |codes| && pos + LengthSubs(codes) < 0x1_0000_0000
    ensures pos <= Offsets(codes, pos)[j]
    ensures Offsets(codes, pos)[j] - pos + Length(codes[j]) <= |b|
    ensures Emitted(b[Offsets(codes, pos)[j] - pos..Offsets(codes, pos)[j] - pos + Length(codes[j])], codes[j])
    ensures ValidCode(codes[j])
    decreases codes
  {
    hide *;
    EmittedStep(b, codes);
    OffsetsStep(codes, pos);
    AllStep(codes);
    ValidSubsStep(codes);
    var n := Length(codes[0]);
    if j > 0 {
      EmittedAt(b[n..], codes[1..], pos + n, j - 1);
      var o := Offsets(codes[1..], pos + n)[j - 1];
      assert Offsets(codes, pos)[j] == o;
      SliceAgain(b, n, o - pos - n, o - pos - n + Length(codes[j]));
    }
  }

  lemma SliceAgain(b: seq<u8>, n: nat, x: nat, y: nat)
    requires x <= y && n + y <= |b|
    ensures b[n..][x..y] == b[n + x..n + y]
  {}

  lemma AllStep(codes: seq<Code>)
    requires AllFunctions(codes)
    ensures ValidSubs(codes) && (codes != [] ==> AllFunctions(codes[1..]) && !codes[0].SelfRef?)
  {}

  // ---- what a well-formed file loads

  function Somes(codes: seq<Code>): (r: seq<Option<Code>>)
    ensures |r| == |codes|
  {
    seq(|codes|, j requires 0 <= j < |codes| => Some(codes[j]))
  }

  lemma HoldsParts(file: seq<u8>, codes: seq<Code>, lit: Storage)
    requires Holds(file, codes, lit)
    ensures |file| > 24 && HasMagic(file) && |codes| == FunctionCount(file) > 0 && AllFunctions(codes)
    ensures 20 + 4 * |codes| <= FunctionOffset(file, 0) <= LiteralTable(file) <= |file|
    ensures HoldsCode(file, codes, FunctionOffset(file, 0), LiteralTable(file))
    ensures OverSubs(codes, LeadsTo(LiteralBase(file, lit), Poolable()), LeadsTo(LiteralBase(file, lit), Poolable()))
  {
    hide HasMagic, FunctionCount, AllFunctions, FunctionOffset, LiteralTable, HoldsCode, OverSubs, LiteralBase;
  }

  lemma HoldsWhole(file: seq<u8>, codes: seq<Code>, lit: Storage)
    requires |file| > 24 && HasMagic(file) && |codes| == FunctionCount(file) > 0 && AllFunctions(codes)
    requires 20 + 4 * |codes| <= FunctionOffset(file, 0) <= LiteralTable(file) <= |file|
    requires HoldsCode(file, codes, FunctionOffset(file, 0), LiteralTable(file))
    requires OverSubs(codes, LeadsTo(LiteralBase(file, lit), Poolable()), LeadsTo(LiteralBase(file, lit), Poolable()))
    ensures Holds(file, codes, lit)
  {
    hide HasMagic, FunctionCount, AllFunctions, FunctionOffset, LiteralTable, HoldsCode, OverSubs, LiteralBase;
  }

  lemma HoldsCodeParts(file: seq<u8>, codes: seq<Code>, start: u32, end: u32)
    requires 20 + 4 * |codes| <= start <= end <= |file| && HoldsCode(file, codes, start, end)
    ensures EmittedSubs(file[start..end], codes) && start + LengthSubs(codes) < 0x1_0000_0000
    ensures forall j :: 0 <= j < |codes| ==> FunctionOffset(file, j) == Offsets(codes, start)[j]
    ensures |Offsets(codes, start)| == |codes| && end - start == LengthSubs(codes)
  {
    EmittedSubsLength(file[start..end], codes);
    hide EmittedSubs, FunctionOffset;
  }

  // Every function of the file is loaded, and there is no other.
  lemma LoadHolds(file: seq<u8>, codes: seq<Code>, lit: Storage)
    requires Holds(file, codes, lit)
    ensures |file| >= 24 && LiteralTable(file) <= |file|
    ensures LoadAll(file, lit) == Somes(PatchSubs(codes, Resolve(LiteralBase(file, lit))))
  {
    hide *;
    HoldsParts(file, codes, lit);
    var loaded := PatchSubs(codes, Resolve(LiteralBase(file, lit)));
    LoadAllParts(file, lit);
    SomesParts(loaded);
    PatchSubsAt(codes, Resolve(LiteralBase(file, lit)));
    forall j: nat | j < |codes| ensures LoadAll(file, lit)[j] == Somes(loaded)[j] {
      LoadOne(file, codes, lit, j);
      AllAt(codes, j);
    }
    assert LoadAll(file, lit) == Somes(loaded);
  }

  lemma LoadAllParts(file: seq<u8>, lit: Storage)
    requires |file| >= 24
    ensures |LoadAll(file, lit)| == FunctionCount(file)
    ensures forall j :: 0 <= j < FunctionCount(file) ==> LoadAll(file, lit)[j] == LoadAt(file, j, lit)
  {
    hide LoadAt, FunctionCount;
  }

  lemma SomesParts(codes: seq<Code>)
    ensures |Somes(codes)| == |codes| && forall j :: 0 <= j < |codes| ==> Somes(codes)[j] == Some(codes[j])
  {}

  lemma AllAt(codes: seq<Code>, j: nat)
    requires AllFunctions(codes) && j < |codes|
    ensures !codes[j].SelfRef?
  {
    hide ValidSubs;
  }

  lemma PatchSubsAt(codes: seq<Code>, p: Patch)
    ensures |PatchSubs(codes, p)| == |codes|
    ensures forall j :: 0 <= j < |codes| ==>
              PatchSubs(codes, p)[j] == if codes[j].SelfRef? then SelfRef else PatchCode(codes[j], p)
  {
    hide PatchCode;
    if codes != [] {
      PatchSubsAt(codes[1..], p);
    }
  }

  lemma LoadOne(file: seq<u8>, codes: seq<Code>, lit: Storage, j: nat)
    requires Holds(file, codes, lit) && j < |codes|
    ensures |file| >= 24 && LiteralTable(file) <= |file|
    ensures LoadAt(file, j, lit) == Some(PatchCode(codes[j], Resolve(LiteralBase(file, lit))))
  {
    hide *;
    HoldsParts(file, codes, lit);
    var start, end := FunctionOffset(file, 0), LiteralTable(file);
    HoldsCodeParts(file, codes, start, end);
    EmittedAt(file[start..end], codes, start, j);
    var o, n := FunctionOffset(file, j), Length(codes[j]);
    FileSlice(file, start, end, o, n);
    LoadEmitted(file[o..o + n], file[o + n..], codes[j], LiteralBase(file, lit));
    LoadAtInside(file, j, lit);
  }

  lemma FileSlice(file: seq<u8>, start: nat, end: nat, o: nat, n: nat)
    requires start <= o && o + n <= end <= |file|
    ensures file[start..end][o - start..o - start + n] == file[o..o + n]
    ensures file[o..] == file[o..o + n] + file[o + n..]
  {
    var x := file[start..end];
    assert x[o - start..o - start + n] == file[o..o + n] by {
      assert forall k :: 0 <= k < |x| ==> x[k] == file[start + k];
    }
  }

  lemma LoadAtInside(file: seq<u8>, j: nat, lit: Storage)
    requires |file| > 24 && HasMagic(file) && LiteralTable(file) <= |file| && j < FunctionCount(file)
    requires 20 + 4 * j + 4 <= |file| && FunctionOffset(file, j) <= |file|
    ensures LoadAt(file, j, lit) == Load(file[FunctionOffset(file, j)..], LiteralBase(file, lit))
  {
    hide HasMagic, LiteralTable, FunctionCount, FunctionOffset, LiteralBase, Load;
  }

  // ---- literals after a pass

  lemma OverPatch(c: Code, p: Patch, k: u32 -> bool, t: u32 -> bool, k2: u32 -> bool, t2: u32 -> bool)
    requires Over(c, k, t) && ValidCode(c)
    requires forall v :: k(v) ==> k2(p.consts(v))
    requires forall v :: t(v) ==> t2(p.trailing(v))
    ensures Over(PatchCode(c, p), k2, t2)
    decreases c, 1
  {
    hide *;
    OverNode(c, k, t);
    OverNode(PatchCode(c, p), k2, t2);
    match c
    case Regex(_, _) => PatchLeaf(c, p);
    case Function(block, subs) =>
      ValidParts(c);
      PatchFunction(c, p);
      OverPatchBlock(block, p, k, t, k2, t2);
      OverPatchSubs(subs, p, k, t, k2, t2);
    case SelfRef => NotValid(c);
  }

  lemma NotValid(c: Code)
    requires ValidCode(c)
    ensures !c.SelfRef?
  {}

  lemma PatchLeaf(c: Code, p: Patch)
    requires !c.Function?
    ensures PatchCode(c, p) == c
  {}

  lemma OverPatchBlock(block: seq<u8>, p: Patch, k: u32 -> bool, t: u32 -> bool, k2: u32 -> bool, t2: u32 -> bool)
    requires ValidFunction(block) && BlockOver(block, k, t)
    requires forall v :: k(v) ==> k2(p.consts(v))
    requires forall v :: t(v) ==> t2(p.trailing(v))
    ensures BlockOver(ApplyPatch(block, p), k2, t2)
  {
    Bounds(block);
    BlockOverRuns(block, k, t);
    hide ApplyPatch, ValidFunction, HasHeader, GetWord, ConstStart, ConstEnd, SubStart, SubCount, TailStart, Trailing, BlockOver;
    ApplyPatchAt(block, p);
    var r := ApplyPatch(block, p);
    LayoutKept(block, r);
    Bounds(r);
    assert RunOver(r, ConstStart(block), ConstEnd(block), k2);
    assert RunOver(r, TailStart(block), Trailing(block), t2);
    RunsBlockOver(r, k2, t2);
  }

  lemma OverPatchSubs(subs: seq<Code>, p: Patch, k: u32 -> bool, t: u32 -> bool, k2: u32 -> bool, t2: u32 -> bool)
    requires OverSubs(subs, k, t) && ValidSubs(subs)
    requires forall v :: k(v) ==> k2(p.consts(v))
    requires forall v :: t(v) ==> t2(p.trailing(v))
    ensures OverSubs(PatchSubs(subs, p), k2, t2)
    decreases subs, 0
  {
    hide *;
    ValidSubsStep(subs);
    OverSubsStep(subs, k, t);
    PatchSubsStep(subs, p);
    OverSubsStep(PatchSubs(subs, p), k2, t2);
    if subs != [] {
      SelfKept(subs[0], p);
      OverPatchSubs(subs[1..], p, k, t, k2, t2);
      assert PatchSubs(subs, p)[1..] == PatchSubs(subs[1..], p);
      if !subs[0].SelfRef? {
        OverPatch(subs[0], p, k, t, k2, t2);
      }
    }
  }

  // What k2 says of the new value, k says of a value that satisfies d.
  ghost predicate Back(f: u32 -> u32, d: u32 -> bool, k: u32 -> bool, k2: u32 -> bool) {
    forall v :: d(v) && k2(f(v)) ==> k(v)
  }

  // What holds of patched code holds of the code, as far as d says what the words are.
  lemma {:induction false} OverUnpatch(c: Code, p: Patch, d: u32 -> bool, k: u32 -> bool, k2: u32 -> bool)
    requires ValidCode(c) && Over(c, d, d) && Over(PatchCode(c, p), k2, k2)
    requires Back(p.consts, d, k, k2) && Back(p.trailing, d, k, k2)
    ensures Over(c, k, k)
    decreases c, 1
  {
    hide *;
    OverNode(c, d, d);
    OverNode(c, k, k);
    OverNode(PatchCode(c, p), k2, k2);
    match c
    case Regex(_, _) => PatchLeaf(c, p);
    case Function(block, subs) =>
      ValidParts(c);
      PatchFunction(c, p);
      var r := ApplyPatch(block, p);
      Bounds(block);
      ApplyPatchAt(block, p);
      LayoutKept(block, r);
      BlockOverRuns(block, d, d);
      BlockOverRuns(r, k2, k2);
      UnpatchRun(block, r, ConstStart(block), ConstEnd(block), p.consts, d, k, k2);
      UnpatchRun(block, r, TailStart(block), Trailing(block), p.trailing, d, k, k2);
      RunsBlockOver(block, k, k);
      OverUnpatchSubs(subs, p, d, k, k2);
    case SelfRef => NotValid(c);
  }

  lemma UnpatchRun(b: seq<u8>, r: seq<u8>, start: nat, n: nat, f: u32 -> u32, d: u32 -> bool, k: u32 -> bool, k2: u32 -> bool)
    requires start + 4 * n <= |b| == |r| && RunOver(b, start, n, d) && RunOver(r, start, n, k2)
    requires forall i :: 0 <= i < n ==> GetWord(r, start, i) == f(GetWord(b, start, i))
    requires Back(f, d, k, k2)
    ensures RunOver(b, start, n, k)
  {
    hide GetWord;
  }

  lemma {:induction false} OverUnpatchSubs(subs: seq<Code>, p: Patch, d: u32 -> bool, k: u32 -> bool, k2: u32 -> bool)
    requires ValidSubs(subs) && OverSubs(subs, d, d) && OverSubs(PatchSubs(subs, p), k2, k2)
    requires Back(p.consts, d, k, k2) && Back(p.trailing, d, k, k2)
    ensures OverSubs(subs, k, k)
    decreases subs, 0
  {
    hide *;
    ValidSubsStep(subs);
    OverSubsStep(subs, d, d);
    OverSubsStep(subs, k, k);
    PatchSubsStep(subs, p);
    OverSubsStep(PatchSubs(subs, p), k2, k2);
    if subs != [] {
      SelfKept(subs[0], p);
      assert PatchSubs(subs, p)[1..] == PatchSubs(subs[1..], p);
      OverUnpatchSubs(subs[1..], p, d, k, k2);
      if !subs[0].SelfRef? {
        OverUnpatch(subs[0], p, d, k, k2);
      }
    }
  }
}
