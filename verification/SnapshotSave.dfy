// Saving one script (jerry_generate_snapshot_with_args, without the parser) and its literals
// (jerry-core/ecma/base/ecma-literal-storage.c).
module SnapshotSave {
  import opened Bytes
  import opened Layout
  import opened Snapshot
  import opened SnapshotPasses
  import opened SnapshotWriter
  import opened SnapshotFile
  import opened SnapshotCollect
  import opened SnapshotStray
  import opened SnapshotRoom
  import opened SnapshotPointers

  // ---- the literal table

  // A literal table of so many bytes fits after end bytes.
  predicate TableFits(size: nat, end: nat, length: nat) {
    end + size <= length && size <= 0x7ff_ffff
  }

  // The room for the table; it is computed without a sign.
  function Room(end: nat, length: nat): nat {
    var room := if end <= length then length - end else (length - end) % 0x1_0000_0000;
    if room > 0x7ff_ffff then 0x7ff_ffff else room
  }

  // The size of every word of the pool can be found: only that of a float needs no value.
  ghost predicate Sized(lit: Storage, pool: seq<u32>) {
    forall i :: 0 <= i < |pool| ==> lit.live(pool[i]) || IsFloat(pool[i])
  }

  // The size of word k is looked up, but it is no value: up to there the table has room.
  ghost predicate StrayAt(lit: Storage, pool: seq<u32>, room: nat, k: nat)
    requires k < |pool|
  {
    !lit.live(pool[k]) && !IsFloat(pool[k]) && Sized(lit, pool[..k]) && TableSize(lit, pool[..k]) <= room
  }

  ghost predicate MeetsStray(lit: Storage, pool: seq<u32>, room: nat) {
    exists k :: 0 <= k < |pool| && StrayAt(lit, pool, room, k)
  }

  // A word that is no value is looked at: for its size, or, a float, when the table is written.
  ghost predicate IsStray(lit: Storage, pool: seq<u32>, end: nat, length: nat) {
    || MeetsStray(lit, pool, Room(end, length))
    || (Sized(lit, pool) && !AllLive(lit, pool) && TableFits(TableSize(lit, pool), end, length))
  }

  // The table is written, or there is nothing to write.
  ghost predicate CanSave(lit: Storage, pool: seq<u32>, end: nat, length: nat) {
    AllLive(lit, pool) && (pool == [] || TableFits(TableSize(lit, pool), end, length))
  }

  // The table starts behind the buffer, where the room for it wraps around.
  ghost predicate IsPast(lit: Storage, pool: seq<u32>, end: nat, length: nat) {
    pool != [] && Sized(lit, pool) && end > length && TableSize(lit, pool) <= 0x7ff_ffff
  }

  lemma TableNext(lit: Storage, pool: seq<u32>, i: nat)
    requires i < |pool|
    ensures TableSize(lit, pool[..i + 1]) == TableSize(lit, pool[..i]) + lit.size(pool[i])
    ensures Sized(lit, pool[..i + 1]) <==> Sized(lit, pool[..i]) && (lit.live(pool[i]) || IsFloat(pool[i]))
  {
    assert pool[..i + 1][..i] == pool[..i];
    assert pool[..i + 1] == pool[..i] + [pool[i]];
  }

  lemma {:induction false} TableGrows(lit: Storage, pool: seq<u32>, i: nat, j: nat)
    requires i <= j <= |pool|
    ensures TableSize(lit, pool[..i]) <= TableSize(lit, pool[..j])
    ensures Sized(lit, pool[..j]) ==> Sized(lit, pool[..i])
    decreases j
  {
    hide Sized, TableSize, IsFloat;
    if i < j {
      TableNext(lit, pool, j - 1);
      TableGrows(lit, pool, i, j - 1);
    }
  }

  lemma NoStray(lit: Storage, pool: seq<u32>, room: nat, i: nat)
    requires i <= |pool| && Sized(lit, pool[..i]) && (i < |pool| ==> TableSize(lit, pool[..i]) > room)
    ensures !MeetsStray(lit, pool, room)
  {
    hide TableSize;
    forall k: nat | k < |pool| ensures !StrayAt(lit, pool, room, k) {
      if k < i {
        assert pool[..i][k] == pool[k];
      } else {
        TableGrows(lit, pool, i, k);
      }
    }
  }

  // Values alone bring no stray word, and inside the buffer they are saved when the table fits.
  lemma LiveSaves(lit: Storage, pool: seq<u32>, end: nat, length: nat)
    requires AllLive(lit, pool) && end <= length
    ensures !IsStray(lit, pool, end, length)
    ensures CanSave(lit, pool, end, length) <==> TableFits(TableSize(lit, pool), end, length)
  {}

  // What saving the table ends in. Past stands for what the code does to the memory after the
  // buffer when the table starts there, Stray for looking at a word that is no value.
  datatype Outcome = Saved | NoRoom | Past | Stray

  // ecma_save_literals_for_snapshot. The padding of a pattern moves the offset by less than 8.
  method SaveLiterals(pool: seq<u32>, out: array<u8>, offset: nat, lit: Storage)
    returns (outcome: Outcome, next: nat, entries: seq<Entry>)
    requires IsLiteralPool(pool) && Interning(lit) && offset < out.Length + 8
    modifies out
    ensures outcome.Stray? <==> IsStray(lit, pool, offset, out.Length)
    ensures outcome.Saved? <==> CanSave(lit, pool, offset, out.Length)
    ensures outcome.Past? <==> IsPast(lit, pool, offset, out.Length)
    ensures outcome.Saved? ==>
              && |lit.bytes(pool)| == TableSize(lit, pool) && StoredPool(lit, pool)
              && next == offset + |lit.bytes(pool)| && entries == lit.entries(pool)
              && (offset <= out.Length ==> next <= out.Length && out[..] == Put(old(out[..]), offset, lit.bytes(pool)))
              && (offset > out.Length ==> pool == [] && next == offset && out[..] == old(out[..]))
    ensures outcome.NoRoom? ==> next == offset && out[..] == old(out[..])
  {
    hide AllLive, Sized, TableSize, MeetsStray, StrayAt, IsFloat, Put, StoredPool, IsLiteralPool, StoredWhole;
    var room := Room(offset, out.Length);
    var tableSize: nat := 0;
    TableNone(lit);
    var i := 0;
    while i < |pool|
      invariant 0 <= i <= |pool| && Sized(lit, pool[..i]) && tableSize == TableSize(lit, pool[..i]) <= room
      invariant out[..] == old(out[..])
    {
      if !lit.live(pool[i]) && !IsFloat(pool[i]) {
        StrayMet(lit, pool, room, i);
        return Stray, offset, [];
      }
      TableNext(lit, pool, i);
      TableGrows(lit, pool, i + 1, |pool|);
      tableSize := (tableSize + lit.size(pool[i])) % 0x1_0000_0000;
      if tableSize > room {
        assert pool[..|pool|] == pool;
        NoStray(lit, pool, room, i + 1);
        LiveIsSized(lit, pool);
        return NoRoom, offset, [];
      }
      i := i + 1;
    }
    assert pool[..i] == pool;
    NoStray(lit, pool, room, i);
    if offset > out.Length && |pool| > 0 {
      return Past, offset, [];
    }
    i := 0;
    while i < |pool|
      invariant 0 <= i <= |pool| && AllLive(lit, pool[..i])
      invariant out[..] == old(out[..])
    {
      LiveNext(lit, pool, i);
      if !lit.live(pool[i]) {
        return Stray, offset, [];
      }
      i := i + 1;
    }
    assert pool[..i] == pool;
    StoredNow(lit, pool);
    next, entries, outcome := offset, lit.entries(pool), Saved;
    if |pool| > 0 || offset <= out.Length {
      var _, end := WriteToBuffer(out, offset, lit.bytes(pool));
      next := end;
    }
  }

  lemma TableNone(lit: Storage)
    ensures AllLive(lit, []) && Sized(lit, []) && TableSize(lit, []) == 0
  {}

  lemma LiveIsSized(lit: Storage, pool: seq<u32>)
    ensures AllLive(lit, pool) ==> Sized(lit, pool)
  {}

  lemma LiveNext(lit: Storage, pool: seq<u32>, i: nat)
    requires i < |pool| && AllLive(lit, pool[..i])
    ensures AllLive(lit, pool[..i + 1]) <==> lit.live(pool[i])
    ensures !lit.live(pool[i]) ==> !AllLive(lit, pool)
  {
    assert pool[..i + 1] == pool[..i] + [pool[i]];
  }

  lemma StrayMet(lit: Storage, pool: seq<u32>, room: nat, k: nat)
    requires k < |pool| && !lit.live(pool[k]) && !IsFloat(pool[k])
    requires Sized(lit, pool[..k]) && TableSize(lit, pool[..k]) <= room
    ensures MeetsStray(lit, pool, room)
    ensures !Sized(lit, pool) && !AllLive(lit, pool)
  {
    assert StrayAt(lit, pool, room, k);
  }

  // ---- the file

  datatype GenerateError = CodeError(error: SaveError) | LiteralMemory | PastBuffer | PastMap | StrayWord

  function GlobalFlags(hasRegex: bool, hasClass: bool): u32 {
    (if hasRegex then 1 else 0) + (if hasClass then 4 else 0)
  }

  function Header(magic: u32, version: u32, flags: u32, table: u32, count: u32, start: u32): (h: seq<u8>)
    ensures |h| == 24
  {
    Word(magic) + Word(version) + Word(flags) + Word(table) + Word(count) + Word(start)
  }

  lemma HeaderWords(file: seq<u8>, magic: u32, version: u32, flags: u32, table: u32, count: u32, start: u32)
    requires |file| >= 24 && file[..24] == Header(magic, version, flags, table, count, start)
    ensures Get32(file, 0) == magic && Get32(file, 4) == version && Get32(file, 8) == flags
    ensures LiteralTable(file) == table && FunctionCount(file) == count && FunctionOffset(file, 0) == start
  {
    var h := Header(magic, version, flags, table, count, start);
    hide Get32, Word;
    forall i | i in [0, 4, 8, 12, 16, 20] ensures file[i..i + 4] == h[i..i + 4] {
      assert forall k :: 0 <= k < 24 ==> file[k] == file[..24][k];
    }
    assert h[0..4] == Word(magic) && h[4..8] == Word(version) && h[8..12] == Word(flags);
    assert h[12..16] == Word(table) && h[16..20] == Word(count) && h[20..24] == Word(start);
    WordAt(file, 0, magic);
    WordAt(file, 4, version);
    WordAt(file, 8, flags);
    WordAt(file, 12, table);
    WordAt(file, 16, count);
    WordAt(file, 20, start);
  }

  lemma WordAt(b: seq<u8>, o: nat, v: u32)
    requires o + 4 <= |b| && b[o..o + 4] == Word(v)
    ensures Get32(b, o) == v
  {
    var w := Word(v);
    hide Word, Get32;
    assert w[0..4] == w;
    Get32Slice(b, w, o, 0);
  }

  lemma FlagsAllowed(hasRegex: bool, hasClass: bool)
    ensures CheckGlobalFlags(GlobalFlags(hasRegex, hasClass))
  {}

  // ---- the file that is written

  lemma SetLeadsToPooled(c: Code, m: map<u32, u32>, get: u32 -> u32)
    requires ValidCode(c) && LookupsStop(c, m) && forall v :: v in m ==> IsOffset(m[v]) && IsPooled(get(m[v]))
    ensures Over(PatchCode(c, SetOffsets(m)), LeadsTo(get, Poolable()), LeadsTo(get, Poolable()))
  {
    hide PatchCode, Over, ValidCode, IsPooled, IsString, IsFloat, IsBigint;
    OverPatch(c, SetOffsets(m), FoundConst(m), FoundTrailing(m), LeadsTo(get, Poolable()), LeadsTo(get, Poolable()));
  }

  lemma OneFunction(c: Code, p: Patch)
    requires ValidCode(c) && c.Function? && 24 + Length(c) < 0x1_0000_0000
    ensures AllFunctions([PatchCode(c, p)]) && LengthSubs([PatchCode(c, p)]) == Length(c)
    ensures Offsets([PatchCode(c, p)], 24) == [24]
    ensures PatchSubs([PatchCode(c, p)], p) == [PatchCode(PatchCode(c, p), p)]
  {
    PatchedLength(c, p);
    PatchedValid(c, p);
    SelfKept(c, p);
    hide PatchCode, ValidCode, Length;
    var s := [PatchCode(c, p)];
    assert s[1..] == [];
    assert ValidSubs([]) && LengthSubs([]) == 0;
    assert Offsets([], 24 + Length(c)) == [] && PatchSubs([], p) == [];
  }

  // What a word becomes when its offset is set and resolved again.
  function SetThenRead(m: map<u32, u32>, get: u32 -> u32, v: u32, yes: bool): u32 {
    var x := if yes && v in m then m[v] else v;
    if IsOffset(x) then get(x) else x
  }

  lemma SetThenReadIs(m: map<u32, u32>, get: u32 -> u32, v: u32)
    ensures var p := Then(SetOffsets(m), Resolve(get));
            p.consts(v) == SetThenRead(m, get, v, IsLookedUp(v)) && p.trailing(v) == SetThenRead(m, get, v, v != EMPTY)
  {
    hide IsLookedUp, IsOffset;
  }

  // A literal comes back as it was, or as a short string.
  lemma SetIsShort(m: map<u32, u32>, get: u32 -> u32, lit: Storage, v: u32)
    requires IsRead(lit, m, get) && (v in m ==> IsShort(lit, get(m[v])))
    ensures FoundConst(m)(v) ==>
              var r := SetThenRead(m, get, v, IsLookedUp(v)); IsShort(lit, r) && (IsShort(lit, v) ==> r == v)
    ensures FoundTrailing(m)(v) ==>
              var r := SetThenRead(m, get, v, v != EMPTY); IsShort(lit, r) && (IsShort(lit, v) ==> r == v)
  {
    hide IsString, IsOffset, IsLookedUp, IsPooled;
    OffsetIsNoLiteral(v);
    EmptyIsNoLiteral();
  }

  lemma EmptyIsNoLiteral()
    ensures !IsString(EMPTY) && !IsOffset(EMPTY)
  {}

  // What is set and resolved again is the code exactly when none of its strings is too long.
  lemma ShortExactly(c: Code, m: map<u32, u32>, get: u32 -> u32, lit: Storage)
    requires ValidCode(c) && LookupsStop(c, m) && IsRead(lit, m, get) && forall x :: IsShort(lit, get(x))
    ensures PatchCode(c, Then(SetOffsets(m), Resolve(get))) == PatchCode(c, SetRefs()) <==> Over(c, Short(lit), Short(lit))
  {
    hide PatchCode, Over, ValidCode, IsRead, IsShort, FoundConst, FoundTrailing, Then, SetOffsets, Resolve, SetThenRead, IsLookedUp;
    var p, k := Then(SetOffsets(m), Resolve(get)), Short(lit);
    forall v: u32
      ensures FoundConst(m)(v) ==> k(p.consts(v)) && (k(v) ==> p.consts(v) == v)
      ensures FoundTrailing(m)(v) ==> k(p.trailing(v)) && (k(v) ==> p.trailing(v) == v)
    {
      SetThenReadIs(m, get, v);
      SetIsShort(m, get, lit, v);
    }
    PassesSame(p, m, get);
    if Over(c, k, k) {
      OverBoth(c, FoundConst(m), FoundTrailing(m), k, k);
      PatchSame(c, Both(FoundConst(m), k), Both(FoundTrailing(m), k), p, SetRefs());
    }
    if PatchCode(c, p) == PatchCode(c, SetRefs()) {
      OverPatch(c, p, FoundConst(m), FoundTrailing(m), k, k);
      OverWeaken(c, FoundConst(m), FoundTrailing(m), Anything(), Anything());
      OverUnpatch(c, SetRefs(), Anything(), k, k);
    }
  }

  lemma PassesSame(p: Patch, m: map<u32, u32>, get: u32 -> u32)
    requires p == Then(SetOffsets(m), Resolve(get))
    ensures p.unshare == SetRefs().unshare
  {}

  // The functions of the file load as the code, exactly when none of its strings is too long.
  lemma FileHolds(c: Code, file: seq<u8>, lit: Storage, pool: seq<u32>, next: u32, flags: u32)
    requires ValidCode(c) && c.Function? && LookupsStop(c, MapOf(lit.entries(pool))) && Interning(lit)
    requires IsLiteralPool(pool) && StoredPool(lit, pool) && CheckGlobalFlags(flags)
    requires 24 <= next <= |file| && file[..24] == Header(0x5952_524A, 66, flags, next, 1, 24) && file[next..] == lit.bytes(pool)
    requires Emitted(file[24..next], PatchCode(c, SetOffsets(MapOf(lit.entries(pool)))))
    ensures Holds(file, [PatchCode(c, SetOffsets(MapOf(lit.entries(pool))))], lit)
    ensures LoadAll(file, lit) == [Some(PatchCode(c, SetRefs()))] <==> Over(c, Short(lit), Short(lit))
  {
    hide *;
    var m := MapOf(lit.entries(pool));
    var p, get := SetOffsets(m), lit.read(lit.bytes(pool));
    var saved := PatchCode(c, p);
    SelfKept(c, p);
    PatchedValid(c, p);
    PatchedLength(c, p);
    EmittedLength(file[24..next], saved);
    SomeLength(c);
    HeaderWords(file, 0x5952_524A, 66, flags, next, 1, 24);
    EmittedSingle(file[24..next], saved);
    OneFunction(c, p);
    PoolFacts(lit, pool);
    IsReadParts(lit, m, get);
    SetLeadsToPooled(c, m, get);
    SingleOver(saved, LeadsTo(get, Poolable()));
    MagicHolds(file, flags);
    BaseIs(file, lit, next);
    HoldsCodeSingle(file, saved, 24, next);
    HoldsWhole(file, [saved], lit);
    LoadHolds(file, [saved], lit);
    SingleResolved(c, saved, get);
    PatchTwice(c, p, Resolve(get));
    ReadShort(lit, lit.bytes(pool));
    ShortExactly(c, m, get, lit);
    SomesOne(PatchCode(saved, Resolve(get)));
  }

  lemma IsReadParts(lit: Storage, m: map<u32, u32>, get: u32 -> u32)
    requires IsRead(lit, m, get)
    ensures forall v :: v in m ==> IsOffset(m[v]) && IsPooled(get(m[v]))
  {
    hide IsOffset, IsPooled, IsShort;
  }

  lemma ReadShort(lit: Storage, b: seq<u8>)
    requires Interning(lit)
    ensures forall x :: IsShort(lit, lit.read(b)(x))
  {
    hide StoredWhole, IsShort;
  }

  lemma SomeLength(c: Code)
    requires ValidCode(c)
    ensures Length(c) >= 8
  {
    LengthIs(c);
    hide Length;
  }

  lemma PoolFacts(lit: Storage, pool: seq<u32>)
    requires IsLiteralPool(pool) && StoredPool(lit, pool)
    ensures IsRead(lit, MapOf(lit.entries(pool)), lit.read(lit.bytes(pool)))
    ensures forall v :: v in MapOf(lit.entries(pool)) ==> v in pool && IsPooled(v)
    ensures forall v :: v in pool ==> v in MapOf(lit.entries(pool))
  {
    hide IsPooled, MapOf, IsRead;
    forall v | v in pool ensures IsPooled(v) {
      var i :| 0 <= i < |pool| && pool[i] == v;
      assert Poolable()(pool[i]);
    }
  }

  // Without strings that are too long, everything is found again.
  lemma ShortTable(lit: Storage, pool: seq<u32>)
    requires IsLiteralPool(pool) && StoredPool(lit, pool) && forall v :: v in pool ==> IsShort(lit, v)
    ensures Table(MapOf(lit.entries(pool)), lit.read(lit.bytes(pool)))
  {
    PoolFacts(lit, pool);
    hide IsPooled, MapOf, IsShort, StoredPool, IsLiteralPool;
  }

  lemma SingleOver(c: Code, k: u32 -> bool)
    requires Over(c, k, k)
    ensures OverSubs([c], k, k)
  {
    hide Over;
    assert [c][1..] == [];
  }

  lemma MagicHolds(file: seq<u8>, flags: u32)
    requires |file| >= 24 && Get32(file, 0) == 0x5952_524A && Get32(file, 4) == 66 && Get32(file, 8) == flags
    requires CheckGlobalFlags(flags)
    ensures HasMagic(file)
  {}

  lemma BaseIs(file: seq<u8>, lit: Storage, next: u32)
    requires |file| >= 24 && LiteralTable(file) == next <= |file|
    ensures LiteralBase(file, lit) == lit.read(file[next..])
  {}

  lemma HoldsCodeSingle(file: seq<u8>, c: Code, start: u32, end: u32)
    requires 24 <= start <= end <= |file| && start + LengthSubs([c]) < 0x1_0000_0000
    requires EmittedSubs(file[start..end], [c]) && FunctionOffset(file, 0) == start && Offsets([c], start) == [start]
    ensures HoldsCode(file, [c], start, end)
  {
    hide EmittedSubs, LengthSubs, Offsets, FunctionOffset;
  }

  lemma SingleResolved(c: Code, saved: Code, get: u32 -> u32)
    requires !saved.SelfRef?
    ensures PatchSubs([saved], Resolve(get)) == [PatchCode(saved, Resolve(get))]
  {
    hide PatchCode;
    assert [saved][1..] == [];
    assert PatchSubs([], Resolve(get)) == [];
  }

  lemma SomesOne(c: Code)
    ensures Somes([c]) == [Some(c)]
  {}

  lemma PoolIsPool(c: Code, lit: Storage, pool: seq<u32>)
    requires IsLiteralPool(pool) && StoredPool(lit, pool) && Over(c, PooledBy(pool), PooledBy(pool))
    ensures IsPool(c, MapOf(lit.entries(pool)))
  {
    PoolFacts(lit, pool);
    hide IsPooled, MapOf, Over, StoredPool, IsLiteralPool;
    var m := MapOf(lit.entries(pool));
    OverWeaken(c, PooledBy(pool), PooledBy(pool), PooledIn(m), PooledIn(m));
  }

  // Exactly the values that occur in c and can be literals, once each.
  ghost predicate IsPoolOf(c: Code, pool: seq<u32>) {
    Distinct(pool) && forall v: u32 :: v in pool <==> (v % 4 == 1 || v % 8 == 2 || (v % 8 == 6 && v != 6)) && Occurs(c, v)
  }

  lemma PoolIs(c: Code, pool: seq<u32>)
    ensures IsPoolOf(c, pool) <==> Distinct(pool) && forall v :: v in pool <==> IsPooled(v) && Occurs(c, v)
  {
    hide Occurs, Distinct;
  }

  // The literals of code are values.
  ghost function LiveLiteral(lit: Storage): u32 -> bool {
    (v: u32) => IsPooled(v) ==> lit.live(v)
  }

  // Everything that is collected is a value.
  ghost predicate CollectsLive(c: Code, lit: Storage) {
    forall v :: IsPooled(v) && Occurs(c, v) ==> lit.live(v)
  }

  lemma CollectsPool(c: Code, lit: Storage, pool: seq<u32>)
    requires IsPoolOf(c, pool)
    ensures AllLive(lit, pool) <==> CollectsLive(c, lit)
  {
    hide Occurs, IsPooled, Distinct, IsPoolOf;
    PoolIs(c, pool);
    if AllLive(lit, pool) {
      forall v | IsPooled(v) && Occurs(c, v) ensures lit.live(v) {
        var i :| 0 <= i < |pool| && pool[i] == v;
      }
    }
    if CollectsLive(c, lit) {
      forall i | 0 <= i < |pool| ensures lit.live(pool[i]) {
        assert pool[i] in pool;
      }
    }
  }

  lemma {:induction false} GuardedIsLive(c: Code, lit: Storage)
    requires ValidCode(c) && Guarded(c) && Over(c, LiveLiteral(lit), LiveLiteral(lit))
    ensures CollectsLive(c, lit)
  {
    hide Occurs, IsPooled, Over, ValidCode, Guarded;
    forall v | IsPooled(v) && Occurs(c, v) ensures lit.live(v) {
      CollectedIsLiteral(c, v);
      LiteralIs(c, v);
      if !lit.live(v) {
        OverWeaken(c, LiveLiteral(lit), LiveLiteral(lit), Other(v), Other(v));
      }
    }
  }

  // Whatever the byte code is, only values are collected, exactly when the code is guarded:
  // v is a word that could be a literal, and is no value.
  lemma GuardExactly(c: Code, lit: Storage, v: u32)
    requires ValidCode(c) && Over(c, LiveLiteral(lit), LiveLiteral(lit)) && IsPooled(v) && !lit.live(v)
    ensures (forall d :: SameButByteCode(c, d) ==> CollectsLive(d, lit)) <==> Guarded(c)
  {
    hide Occurs, IsPooled, Over, ValidCode, Guarded, SameButByteCode;
    if Guarded(c) {
      forall d | SameButByteCode(c, d) ensures CollectsLive(d, lit) {
        SameButSame(c, d, LiveLiteral(lit), LiveLiteral(lit));
        if !c.Function? {
          SameButLeaf(c, d);
        }
        GuardedIsLive(d, lit);
      }
    } else {
      var d := Intruder(c, v);
      assert !CollectsLive(d, lit);
    }
  }

  lemma SameButLeaf(c: Code, d: Code)
    requires SameButByteCode(c, d) && !c.Function?
    ensures d == c
  {}

  // A whole file that some code was saved in.
  ghost predicate IsSaved(file: seq<u8>, lit: Storage) {
    exists codes :: Holds(file, codes, lit)
  }

  // Bit 0 for regular expressions, bit 2 for classes, which have the type 2 in their flags.
  ghost predicate HasFlagsOf(file: seq<u8>, c: Code) {
    && |file| >= 24 && Get32(file, 8) in [0, 1, 4, 5]
    && (Get32(file, 8) % 2 == 1 <==> exists n :: n in Nodes(c) && n.Regex?)
    && (Get32(file, 8) / 4 % 2 == 1 <==> exists n :: n in Nodes(c) && n.Function? && |n.block| >= 8 && Get16(n.block, 4) / 0x1000 == 2)
  }

  lemma FlagsMean(file: seq<u8>, c: Code)
    requires |file| >= 24 && Get32(file, 8) == GlobalFlags(AnyRegex(c), AnyClass(c))
    ensures HasFlagsOf(file, c)
  {
    AnyAre(c);
    hide Get32, Nodes;
  }

  // The file that c is saved in: it holds the flat form of c with its literals as offsets; it loads as c, but for the reference counters, which are 1,
  // exactly when no string of c is too long; and it has no pointers when the constants of c have
  // the types that the parser gives them.
  ghost predicate IsFileOf(c: Code, file: seq<u8>, lit: Storage, pool: seq<u32>) {
    && |file| == 24 + Length(c) + |lit.bytes(pool)| && file[24 + Length(c)..] == lit.bytes(pool)
    && HasFlagsOf(file, c) && (Over(c, ConstTag(), NameTag()) ==> FileFree(file))
    && Holds(file, [PatchCode(c, SetOffsets(MapOf(lit.entries(pool))))], lit)
    && (LoadAll(file, lit) == [Some(PatchCode(c, SetRefs()))] <==> Over(c, Short(lit), Short(lit)))
  }

  // PastBuffer: the code area ends beyond the buffer, and literals are saved all the same.
  // PastMap: the offset of a literal is searched for beyond the end of the literal map. StrayWord:
  // a word of byte code was collected as a literal, and is no value; guarded code has none.
  // Without literals code may end beyond the buffer: then the rest of the file is padding.
  method GenerateSnapshot(c: Code, out: array<u8>, lit: Storage)
    returns (size: nat, error: Option<GenerateError>, ghost pool: seq<u32>)
    requires ValidCode(c) && c.Function? && Parsed(c) && Interning(lit)
    requires Over(c, LiveLiteral(lit), LiveLiteral(lit))
    modifies out
    ensures var refusal := FirstError(Nodes(c), Preorder(c, 24), out.Length);
            if refusal.Some? then error == Some(CodeError(refusal.value)) else error.None? || !error.value.CodeError?
    ensures FirstError(Nodes(c), Preorder(c, 24), out.Length).None? ==>
              && IsPoolOf(c, pool) && (Guarded(c) ==> AllLive(lit, pool))
              && (error == Some(StrayWord) <==> IsStray(lit, pool, EndsAt(c), out.Length))
              && (error == Some(PastBuffer) <==> IsPast(lit, pool, EndsAt(c), out.Length))
              && (error == Some(PastMap) <==> CanSave(lit, pool, EndsAt(c), out.Length) && !Over(c, NotBigintZero(), Anything()))
              && (error.None? <==> CanSave(lit, pool, EndsAt(c), out.Length) && Over(c, NotBigintZero(), Anything()))
    ensures error.None? ==> size == EndsAt(c) + |lit.bytes(pool)| && |lit.bytes(pool)| == TableSize(lit, pool)
    ensures error.None? && size <= out.Length ==> IsFileOf(c, out[..size], lit, pool) && out[size..] == old(out[..])[size..]
    ensures error.None? && size > out.Length ==>
              pool == [] && forall behind: seq<u8> :: |behind| == size - out.Length ==> IsFileOf(c, out[..] + behind, lit, pool)
  {
    hide *;
    ghost var b0 := out[..];
    pool := [];
    EndsAtIs(c);
    RefusalIsFirst(c, 24, out.Length);
    var g := new Globals();
    var start := AddCompiledCode(c, out, g);
    ghost var b1 := out[..];
    WrittenParts(c, b0, b1, 24, g.offset, start, g.error);
    if g.error.Some? {
      return 0, Some(CodeError(g.error.value)), [];
    }
    var next, flags := g.offset, GlobalFlags(g.regexFound, g.classFound);
    var literals := EmptyPool();
    literals := CollectLiterals(c, literals);
    pool := literals;
    PoolOf(c, pool);
    CollectsPool(c, lit, pool);
    if Guarded(c) {
      GuardedIsLive(c, lit);
    }
    var outcome, size1, entries := SaveLiterals(literals, out, next, lit);
    if !outcome.Saved? {
      return 0, Some(match outcome case Past => PastBuffer case Stray => StrayWord case _ => LiteralMemory), pool;
    }
    ghost var b2, m := out[..], MapOf(entries);
    size := size1;
    PoolIsPool(c, lit, pool);
    LookupsStopExactly(c, m);
    InMapStops(c, m);
    CodeWritten(c, b0, b1, next, start);
    FlagsAllowed(g.regexFound, g.classFound);
    var ok;
    if next <= out.Length {
      AfterTable(b1, next, lit.bytes(pool), 24);
      ok := Finish(c, out, next, flags, entries);
    } else {
      ok := FinishBeyond(c, out, next, flags, entries);
    }
    if !ok {
      return 0, Some(PastMap), pool;
    }
    error := None;
    if next <= out.Length {
      Sealed(b0, b1, b2, out[..], next, lit.bytes(pool), size);
      FileIs(c, out[..size], lit, pool, next, flags);
    } else {
      forall behind: seq<u8> | |behind| == size - out.Length ensures IsFileOf(c, out[..] + behind, lit, pool) {
        SealedBeyond(out[..], behind, lit.bytes(pool));
        FileIs(c, out[..] + behind, lit, pool, next, flags);
      }
    }
  }

  lemma EndsAtIs(c: Code)
    ensures EndsAt(c) == 24 + Length(c)
  {
    hide Length;
  }

  // The end of jerry_generate_snapshot_with_args: the pass over the code area, and the header.
  method Finish(c: Code, out: array<u8>, next: u32, flags: u32, entries: seq<Entry>) returns (ok: bool)
    requires 24 < next <= out.Length && Emitted(out[24..next], c)
    modifies out
    ensures ok <==> Over(c, ConstInMap(MapOf(entries)), TrailingInMap(MapOf(entries)))
    ensures ok ==>
              && out[..24] == Header(0x5952_524A, 66, flags, next, 1, 24)
              && Emitted(out[24..next], PatchCode(c, SetOffsets(MapOf(entries)))) && out[next..] == old(out[next..])
  {
    hide *;
    ghost var m, b, region := MapOf(entries), out[..], out[24..next];
    EmittedWalkable(region, c);
    OverWalk(region, c, ConstInMap(m), TrailingInMap(m));
    WalkIsRecursion(region, c, SetOffsets(m));
    assert out[24..24 + (next - 24)] == region;
    ok := JerrySnapshotSetOffsets(out, 24, next - 24, entries);
    if ok {
      ghost var b1 := out[..];
      var _, _ := WriteToBuffer(out, 0, Header(0x5952_524A, 66, flags, next, 1, 24));
      Assembled(b, b1, out[..], Header(0x5952_524A, 66, flags, next, 1, 24), PatchBlocks(region, SetOffsets(m)), next);
    }
  }

  // The same when only the padding of the last pattern is beyond the buffer. The pass is made on
  // a copy; it reads and writes nothing of the padding.
  method FinishBeyond(c: Code, out: array<u8>, next: u32, flags: u32, entries: seq<Entry>) returns (ok: bool)
    requires ValidCode(c) && 24 + Length(c) == next && next - Padding(LastOf(c)) <= out.Length < next && 24 < out.Length
    requires next <= out.Length + 7 && Emitted(Padded(out[..])[24..next], c)
    modifies out
    ensures ok <==> Over(c, ConstInMap(MapOf(entries)), TrailingInMap(MapOf(entries)))
    ensures ok ==>
              && out[..24] == Header(0x5952_524A, 66, flags, next, 1, 24)
              && forall behind: seq<u8> :: |behind| == next - out.Length ==>
                   Emitted((out[..] + behind)[24..next], PatchCode(c, SetOffsets(MapOf(entries))))
  {
    hide *;
    ghost var b, p := out[..], SetOffsets(MapOf(entries));
    var wide := new u8[next](_ => 0);
    forall k | 0 <= k < out.Length {
      wide[k] := out[k];
    }
    Widened(b, wide[..], next);
    ok := Finish(c, wide, next, flags, entries);
    if ok {
      ghost var w := wide[..];
      assert w[24..next] == wide[24..next] && w[..24] == wide[..24];
      forall k | 0 <= k < out.Length {
        out[k] := wide[k];
      }
      assert out[..24] == w[..24];
      PatchedValid(c, p);
      LastPatched(c, p);
      forall behind: seq<u8> | |behind| == next - out.Length
        ensures Emitted((out[..] + behind)[24..next], PatchCode(c, p))
      {
        OnlyPadding(w, out[..], behind, next, LastOf(PatchCode(c, p)));
        PaddingIsFree(w[24..next], (out[..] + behind)[24..next], PatchCode(c, p));
      }
    }
  }

  lemma Widened(b: seq<u8>, w: seq<u8>, next: nat)
    requires 24 <= next == |w| && |b| < next <= |b| + 7
    requires forall k :: 0 <= k < next ==> w[k] == if k < |b| then b[k] else 0
    ensures |Padded(b)| == |b| + 7 && w[24..next] == Padded(b)[24..next]
  {}

  lemma OnlyPadding(w: seq<u8>, b: seq<u8>, behind: seq<u8>, next: nat, last: Code)
    requires |w| == next == |b| + |behind| && 24 <= next && next - Padding(last) <= |b|
    requires forall k :: 0 <= k < |b| ==> w[k] == b[k]
    ensures SameButPadding(w[24..next], (b + behind)[24..next], last)
  {
    hide Padding;
  }

  lemma FileIs(c: Code, file: seq<u8>, lit: Storage, pool: seq<u32>, next: u32, flags: u32)
    requires ValidCode(c) && c.Function? && LookupsStop(c, MapOf(lit.entries(pool))) && Interning(lit)
    requires IsLiteralPool(pool) && StoredPool(lit, pool)
    requires flags == GlobalFlags(AnyRegex(c), AnyClass(c)) && CheckGlobalFlags(flags) && next == 24 + Length(c)
    requires next <= |file| && file[..24] == Header(0x5952_524A, 66, flags, next, 1, 24) && file[next..] == lit.bytes(pool)
    requires Emitted(file[24..next], PatchCode(c, SetOffsets(MapOf(lit.entries(pool)))))
    ensures IsFileOf(c, file, lit, pool)
  {
    hide *;
    FileHolds(c, file, lit, pool, next, flags);
    HeaderWords(file, 0x5952_524A, 66, flags, next, 1, 24);
    FlagsMean(file, c);
    PoolFacts(lit, pool);
    IsReadParts(lit, MapOf(lit.entries(pool)), lit.read(lit.bytes(pool)));
    FileIsFree(c, file, MapOf(lit.entries(pool)), next);
    IsFileOfWhole(c, file, lit, pool, next);
  }

  lemma FileIsFree(c: Code, file: seq<u8>, m: map<u32, u32>, next: u32)
    requires ValidCode(c) && LookupsStop(c, m) && forall v :: v in m ==> IsOffset(m[v])
    requires 24 <= next <= |file| && LiteralTable(file) == next && Emitted(file[24..next], PatchCode(c, SetOffsets(m)))
    ensures Over(c, ConstTag(), NameTag()) ==> FileFree(file)
  {
    hide *;
    if Over(c, ConstTag(), NameTag()) {
      var p, saved := SetOffsets(m), PatchCode(c, SetOffsets(m));
      LookupsAre(c, m);
      OverBoth(c, FoundConst(m), FoundTrailing(m), ConstTag(), NameTag());
      forall v: u32
        ensures Both(FoundConst(m), ConstTag())(v) ==> FreeConst()(p.consts(v))
        ensures Both(FoundTrailing(m), NameTag())(v) ==> FreeName()(p.trailing(v))
      {
        SetIsFree(m, v);
        BothAre(FoundConst(m), ConstTag(), v);
        BothAre(FoundTrailing(m), NameTag(), v);
      }
      OverPatch(c, p, Both(FoundConst(m), ConstTag()), Both(FoundTrailing(m), NameTag()), FreeConst(), FreeName());
      OverWalk(file[24..next], saved, FreeConst(), FreeName());
      EmittedWalkable(file[24..next], saved);
      AreaIsFree(file[24..next]);
      FileFreeIs(file, next);
    }
  }

  lemma LookupsAre(c: Code, m: map<u32, u32>)
    ensures LookupsStop(c, m) <==> Over(c, FoundConst(m), FoundTrailing(m))
  {
    hide Over;
  }

  lemma BothAre(k: u32 -> bool, t: u32 -> bool, v: u32)
    ensures Both(k, t)(v) <==> k(v) && t(v)
  {}

  lemma FileFreeIs(file: seq<u8>, next: u32)
    requires 24 <= next <= |file| && LiteralTable(file) == next && AreaFree(file[24..next])
    ensures FileFree(file)
  {
    hide AreaFree;
  }

  lemma IsFileOfWhole(c: Code, file: seq<u8>, lit: Storage, pool: seq<u32>, next: nat)
    requires next == 24 + Length(c) <= |file| && file[next..] == lit.bytes(pool)
    requires HasFlagsOf(file, c) && (Over(c, ConstTag(), NameTag()) ==> FileFree(file))
    requires Holds(file, [PatchCode(c, SetOffsets(MapOf(lit.entries(pool))))], lit)
    requires LoadAll(file, lit) == [Some(PatchCode(c, SetRefs()))] <==> Over(c, Short(lit), Short(lit))
    ensures IsFileOf(c, file, lit, pool)
  {
    hide Length, HasFlagsOf, FileFree, ConstTag, NameTag, Holds, MapOf, LoadAll, PatchCode, Over;
  }

  lemma PoolOf(c: Code, pool: seq<u32>)
    requires IsLiteralPool(pool) && OnlyFrom(c, [], pool) && AllFrom(c, pool)
    ensures IsPoolOf(c, pool)
  {
    hide Occurs, IsPooled, Distinct, IsPoolOf;
    PoolIs(c, pool);
    forall v ensures v in pool <==> IsPooled(v) && Occurs(c, v) {
      if v in pool {
        var i :| 0 <= i < |pool| && pool[i] == v;
        assert Poolable()(pool[i]);
      }
    }
  }

  method EmptyPool() returns (pool: seq<u32>)
    ensures pool == [] && IsLiteralPool(pool)
  {
    pool := [];
  }

  lemma StoredNow(lit: Storage, pool: seq<u32>)
    requires Interning(lit) && IsLiteralPool(pool) && AllLive(lit, pool) && TableSize(lit, pool) <= 0x7ff_ffff
    ensures StoredPool(lit, pool) && |lit.bytes(pool)| == TableSize(lit, pool)
  {
    hide StoredPool, IsLiteralPool, AllLive, TableSize;
  }

  lemma SavedIs(file: seq<u8>, codes: seq<Code>, lit: Storage)
    requires Holds(file, codes, lit)
    ensures IsSaved(file, lit)
  {
    hide Holds;
  }

  // The code area, also when its last padding is beyond the buffer.
  lemma CodeWritten(c: Code, b0: seq<u8>, b1: seq<u8>, next: nat, start: u32)
    requires ValidCode(c) && c.Function?
    requires Written(c, b0, b1, 24, next, start, None)
    ensures |b1| == |b0| && next == 24 + Length(c) <= |b1| + 7 && next <= 0x8008_0000
    ensures next - Padding(LastOf(c)) <= |b1| && 24 < |b1| && 24 < next
    ensures |Padded(b1)| == |b1| + 7 && Emitted(Padded(b1)[24..next], c)
    ensures next <= |b1| ==> Emitted(b1[24..next], c) && b1[next..] == b0[next..]
  {
    hide *;
    SomeLength(c);
    WrittenEmitted(c, b0, b1, 24, next, start);
    WrittenParts(c, b0, b1, 24, next, start, None);
    AcceptedExactly(c, 24, |b0|);
    ExtentIs(c, 24);
    LoopLength(c, 24, |b0|);
    if next <= |b1| {
      PaddedSlices(b0, b1, next);
    }
  }

  lemma LoopLength(c: Code, off: nat, len: nat)
    requires ValidCode(c) && c.Function? && Refusal(c, off, len).None?
    ensures off < len
  {
    CodeParts(c);
    RefusalStep(c, off, len);
    hide Refusal, RefusalSubs, ValidCode, ValidFunction, HasTaggedLiterals, Flags;
  }

  lemma PaddedSlices(b0: seq<u8>, b1: seq<u8>, next: nat)
    requires |b0| == |b1| && 24 <= next <= |b1|
    ensures Padded(b1)[24..next] == b1[24..next]
    ensures |Padded(b0)| == |Padded(b1)| == |b1| + 7
    ensures Padded(b1)[next..] == Padded(b0)[next..] ==> b1[next..] == b0[next..]
  {
    if Padded(b1)[next..] == Padded(b0)[next..] {
      forall k | 0 <= k < |b1[next..]| ensures b1[next..][k] == b0[next..][k] {
        assert Padded(b1)[next..][k] == Padded(b0)[next..][k];
      }
    }
  }

  lemma AfterTable(b: seq<u8>, next: nat, table: seq<u8>, start: nat)
    requires start <= next && next + |table| <= |b|
    ensures Put(b, next, table)[start..next] == b[start..next]
    ensures start + (next - start) == next
  {}

  lemma Sealed(b0: seq<u8>, b1: seq<u8>, b2: seq<u8>, b3: seq<u8>, next: nat, table: seq<u8>, size: nat)
    requires |b0| == |b1| == |b3| && 24 <= next && size == next + |table| <= |b1| && b1[next..] == b0[next..]
    requires b2 == Put(b1, next, table) && b3[next..] == b2[next..]
    ensures b3[..size][next..] == table && b3[..size][24..next] == b3[24..next] && b3[size..] == b0[size..]
    ensures b3[..size][..24] == b3[..24]
  {
    PutBytes(b1, next, table);
    hide Put;
    forall k | 0 <= k < |table| ensures b3[..size][next..][k] == table[k] {
      assert b3[next..][k] == b2[next..][k];
    }
    forall k | 0 <= k < |b3| - size ensures b3[size..][k] == b0[size..][k] {
      assert b3[next..][k + |table|] == b2[next..][k + |table|];
      assert b1[next..][k + |table|] == b0[next..][k + |table|];
    }
  }

  lemma SealedBeyond(b: seq<u8>, behind: seq<u8>, table: seq<u8>)
    requires |b| >= 24 && table == []
    ensures (b + behind)[..24] == b[..24] && (b + behind)[|b| + |behind|..] == table
  {}

  lemma Assembled(b: seq<u8>, b1: seq<u8>, b2: seq<u8>, header: seq<u8>, patched: seq<u8>, next: nat)
    requires |header| == 24 <= next <= |b| && |patched| == next - 24
    requires b1 == Put(b, 24, patched) && b2 == Put(b1, 0, header)
    ensures |b2| == |b| && b2[..24] == header && b2[24..next] == patched && b2[next..] == b[next..]
  {
    PutBytes(b, 24, patched);
    PutBytes(b1, 0, header);
    hide Put;
    forall k | 0 <= k < next - 24 ensures b2[24..next][k] == patched[k] {
      assert b1[24 + k] == patched[k];
    }
  }
}
