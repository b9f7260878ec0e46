// The passes over the code area of a snapshot, in place and block by block
// (jerry_snapshot_set_offsets, scan_snapshot_functions, update_literal_offsets).
module SnapshotPasses {
  import opened Bytes
  import opened Layout
  import opened Snapshot

  // An entry of the literal map: a value and its offset in the literal table.
  datatype Entry = Entry(id: u32, offset: u32)

  // The first entry of a value counts.
  function MapOf(entries: seq<Entry>): map<u32, u32> {
    if entries == [] then map[] else MapOf(entries[1..])[entries[0].id := entries[0].offset]
  }

  // while (current_p->literal_id != id) current_p++; None stands for a search that runs past
  // the end of the map.
  method FindLiteral(entries: seq<Entry>, id: u32) returns (offset: Option<u32>)
    ensures offset == if id in MapOf(entries) then Some(MapOf(entries)[id]) else None
  {
    var k := 0;
    while k < |entries| && entries[k].id != id
      invariant 0 <= k <= |entries|
      invariant id in MapOf(entries[k..]) <==> id in MapOf(entries)
      invariant id in MapOf(entries[k..]) ==> MapOf(entries[k..])[id] == MapOf(entries)[id]
    {
      assert entries[k..][1..] == entries[k + 1..];
      k := k + 1;
    }
    offset := if k < |entries| then Some(entries[k].offset) else None;
  }

  method StoreWord(a: array<u8>, o: nat, v: u32)
    requires o + 4 <= a.Length
    modifies a
    ensures a[..] == Put(old(a[..]), o, Word(v))
  {
    var w := Word(v);
    hide Word;
    a[o], a[o + 1], a[o + 2], a[o + 3] := w[0], w[1], w[2], w[3];
  }

  // The word that is there already.
  lemma PutSame(b: seq<u8>, o: nat, w: seq<u8>)
    requires o + 4 <= |b| && |w| == 4 && Get32(w, 0) == Get32(b, o)
    ensures Put(b, o, w) == b
  {
    hide Get32;
    Get32Slice(b, b[o..o + 4], o, 0);
    Get32Unique(w, b[o..o + 4]);
  }

  lemma MapNone(b: seq<u8>, start: nat, f: u32 -> u32)
    requires start <= |b|
    ensures MapWords(b, start, 0, f) == b
  {}

  // The next word of a run: still its first value, and what storing f of it gives.
  lemma MapNext(b: seq<u8>, start: nat, i: nat, f: u32 -> u32)
    requires start + 4 * i + 4 <= |b|
    ensures var c, v := MapWords(b, start, i, f), GetWord(b, start, i);
            && Get32(c, start + 4 * i) == v
            && MapWords(b, start, i + 1, f) == Put(c, start + 4 * i, Word(f(v)))
            && (f(v) == v ==> MapWords(b, start, i + 1, f) == c)
  {
    hide Get32, Put, Word;
    MapWordsAt(b, start, i, f);
    PutSame(MapWords(b, start, i, f), start + 4 * i, Word(GetWord(b, start, i)));
  }

  // What the loops of jerry_snapshot_set_offsets find in the map.
  ghost function ConstInMap(m: map<u32, u32>): u32 -> bool {
    (v: u32) => IsLookedUp(v) ==> v in m
  }

  ghost function TrailingInMap(m: map<u32, u32>): u32 -> bool {
    (v: u32) => v == EMPTY || v in m
  }

  // For parsed code all searches end inside the map exactly when all lookups stop.
  lemma InMapStops(c: Code, m: map<u32, u32>)
    requires Parsed(c)
    ensures Over(c, ConstInMap(m), TrailingInMap(m)) <==> LookupsStop(c, m)
  {
    hide Over, IsLookedUp;
    if LookupsStop(c, m) {
      OverWeaken(c, FoundConst(m), FoundTrailing(m), ConstInMap(m), TrailingInMap(m));
    }
    if Over(c, ConstInMap(m), TrailingInMap(m)) {
      OverBoth(c, ParsedConst(), ParsedTrailing(), ConstInMap(m), TrailingInMap(m));
      OverWeaken(c, Both(ParsedConst(), ConstInMap(m)), Both(ParsedTrailing(), TrailingInMap(m)), FoundConst(m), FoundTrailing(m));
    }
  }

  lemma RunNone(b: seq<u8>, start: nat, k: u32 -> bool)
    requires start <= |b|
    ensures RunOver(b, start, 0, k)
  {}

  lemma RunNext(b: seq<u8>, start: nat, i: nat, k: u32 -> bool)
    requires start + 4 * i + 4 <= |b|
    ensures RunOver(b, start, i + 1, k) <==> RunOver(b, start, i, k) && k(GetWord(b, start, i))
  {
    hide GetWord;
  }

  lemma RunPrefix(b: seq<u8>, start: nat, i: nat, n: nat, k: u32 -> bool)
    requires start + 4 * n <= |b| && i <= n && RunOver(b, start, n, k)
    ensures RunOver(b, start, i, k)
  {
    hide GetWord;
  }

  // for (i = 0; i < const_literal_end; i++) of jerry_snapshot_set_offsets
  method SetConsts(a: array<u8>, start: nat, n: nat, entries: seq<Entry>) returns (ok: bool)
    requires start + 4 * n <= a.Length
    modifies a
    ensures ok <==> RunOver(old(a[..]), start, n, ConstInMap(MapOf(entries)))
    ensures ok ==> a[..] == MapWords(old(a[..]), start, n, SetOffsets(MapOf(entries)).consts)
  {
    hide Get32, IsString, IsBigint, IsFloat, IsLookedUp, MapOf, MapWords, Put, Word, RunOver;
    ghost var b, f, k := a[..], SetOffsets(MapOf(entries)).consts, ConstInMap(MapOf(entries));
    MapNone(b, start, f);
    RunNone(b, start, k);
    var i := 0;
    while i < n
      invariant 0 <= i <= n
      invariant a[..] == MapWords(b, start, i, f) && RunOver(b, start, i, k)
    {
      MapNext(b, start, i, f);
      RunNext(b, start, i, k);
      var v := ReadWord(a, start + 4 * i);
      if IsLookedUp(v) {
        var offset := FindLiteral(entries, v);
        if offset.None? {
          if RunOver(b, start, n, k) {
            RunPrefix(b, start, i + 1, n, k);
          }
          return false;
        }
        StoreWord(a, start + 4 * i, offset.value);
      }
      i := i + 1;
    }
    ok := true;
  }

  method ReadWord(a: array<u8>, o: nat) returns (v: u32)
    requires o + 4 <= a.Length
    ensures v == Get32(a[..], o)
  {
    v := a[o] as int + 0x100 * (a[o + 1] as int + 0x100 * (a[o + 2] as int + 0x100 * a[o + 3] as int));
  }

  // while (literal_start_p < byte_p) of jerry_snapshot_set_offsets
  method SetTrailing(a: array<u8>, start: nat, n: nat, entries: seq<Entry>) returns (ok: bool)
    requires start + 4 * n <= a.Length
    modifies a
    ensures ok <==> RunOver(old(a[..]), start, n, TrailingInMap(MapOf(entries)))
    ensures ok ==> a[..] == MapWords(old(a[..]), start, n, SetOffsets(MapOf(entries)).trailing)
  {
    hide Get32, IsString, IsBigint, IsFloat, IsLookedUp, MapOf, MapWords, Put, Word, RunOver;
    ghost var b, f, k := a[..], SetOffsets(MapOf(entries)).trailing, TrailingInMap(MapOf(entries));
    MapNone(b, start, f);
    RunNone(b, start, k);
    var i := 0;
    while i < n
      invariant 0 <= i <= n
      invariant a[..] == MapWords(b, start, i, f) && RunOver(b, start, i, k)
    {
      MapNext(b, start, i, f);
      RunNext(b, start, i, k);
      var v := ReadWord(a, start + 4 * i);
      if v != EMPTY {
        var offset := FindLiteral(entries, v);
        if offset.None? {
          if RunOver(b, start, n, k) {
            RunPrefix(b, start, i + 1, n, k);
          }
          return false;
        }
        StoreWord(a, start + 4 * i, offset.value);
      }
      i := i + 1;
    }
    ok := true;
  }

  // Either loop of update_literal_offsets
  method UpdateRun(a: array<u8>, start: nat, n: nat, entries: seq<Entry>, get: u32 -> u32)
    requires start + 4 * n <= a.Length
    requires RunOver(a[..], start, n, CollectedIn(get, MapOf(entries)))
    modifies a
    ensures a[..] == MapWords(old(a[..]), start, n, UpdateOffsets(get, MapOf(entries)).consts)
  {
    hide Get32, IsOffset, MapOf, MapWords, Put, Word;
    ghost var b, f := a[..], UpdateOffsets(get, MapOf(entries)).consts;
    MapNone(b, start, f);
    var i := 0;
    while i < n
      invariant 0 <= i <= n
      invariant a[..] == MapWords(b, start, i, f)
    {
      MapNext(b, start, i, f);
      var v := ReadWord(a, start + 4 * i);
      if IsOffset(v) {
        var offset := FindLiteral(entries, get(v));
        StoreWord(a, start + 4 * i, offset.value);
      }
      i := i + 1;
    }
  }

  // ---- a block inside the buffer

  lemma PutInside(b: seq<u8>, pos: nat, w: seq<u8>, o: nat, x: seq<u8>)
    requires pos + |w| <= |b| && o + |x| <= |w|
    ensures Put(Put(b, pos, w), pos + o, x) == Put(b, pos, Put(w, o, x))
  {}

  lemma {:induction false} MapWordsInside(b: seq<u8>, pos: nat, w: seq<u8>, start: nat, n: nat, f: u32 -> u32)
    requires pos + |w| <= |b| && start + 4 * n <= |w|
    ensures MapWords(Put(b, pos, w), pos + start, n, f) == Put(b, pos, MapWords(w, start, n, f))
  {
    hide Get32, Word, Put;
    if n == 0 {
    } else {
      MapWordsInside(b, pos, w, start, n - 1, f);
      PutThere(b, pos, w);
      SliceInside(Put(b, pos, w), pos, w, start + 4 * (n - 1));
      PutInside(b, pos, MapWords(w, start, n - 1, f), start + 4 * (n - 1), Word(f(GetWord(w, start, n - 1))));
    }
  }

  lemma PutThere(b: seq<u8>, pos: nat, w: seq<u8>)
    requires pos + |w| <= |b|
    ensures Put(b, pos, w)[pos..pos + |w|] == w
  {}

  // Setting the reference counter last makes no difference.
  lemma UnshareLast(b: seq<u8>, p: Patch)
    requires ValidFunction(b) && p.unshare
    ensures ValidFunction(ApplyPatch(b, p.(unshare := false)))
    ensures Put(ApplyPatch(b, p.(unshare := false)), 2, Half(1)) == ApplyPatch(b, p)
  {
    var q := p.(unshare := false);
    var m := ApplyPatch(b, q);
    assert Unshared(m, true) == Put(m, 2, Half(1));
    hide *;
    ApplyPatchAt(b, p);
    ApplyPatchAt(b, q);
    LayoutKept(b, ApplyPatch(b, p));
    LayoutKept(b, m);
    UnsharedBlock(m);
    LayoutKept(m, Unshared(m, true));
    FixedTwice(b, m, p.unshare);
    BlockExtensional(ApplyPatch(b, p), Unshared(m, true));
  }

  lemma FixedTwice(b: seq<u8>, m: seq<u8>, yes: bool)
    requires ValidFunction(b) && |m| == |b| && yes
    requires forall k :: Fixed(b, k) ==> m[k] == FixedByte(b, k, false)
    ensures forall k :: Fixed(b, k) ==> FixedByte(m, k, true) == FixedByte(b, k, yes)
  {
    Bounds(b);
    hide ValidFunction, HasHeader, ConstStart, ConstEnd, SubStart, SubCount, TailStart, Trailing;
  }

  lemma UnsharedBlock(b: seq<u8>)
    requires ValidFunction(b)
    ensures SameLayout(b, Unshared(b, true)) && ValidFunction(Unshared(b, true))
    ensures var r := Unshared(b, true);
            && (forall i :: 0 <= i < ConstEnd(b) ==> GetWord(r, ConstStart(b), i) == GetWord(b, ConstStart(b), i))
            && (forall i :: 0 <= i < SubCount(b) ==> GetWord(r, SubStart(b), i) == GetWord(b, SubStart(b), i))
            && (forall i :: 0 <= i < Trailing(b) ==> GetWord(r, TailStart(b), i) == GetWord(b, TailStart(b), i))
            && (forall k :: Fixed(b, k) ==> r[k] == FixedByte(b, k, true))
  {
    Bounds(b);
    hide ValidFunction, HasHeader, ConstStart, ConstEnd, SubStart, SubCount, TailStart, Trailing, Get32, Unshared, HeaderSize;
    UnsharedAt(b, true);
    SameHeader(b, Unshared(b, true), true);
    LayoutKept(b, Unshared(b, true));
    forall k | Fixed(b, k) ensures Unshared(b, true)[k] == FixedByte(b, k, true) {
      FixedBounds(b, k);
    }
  }

  // ---- one block

  lemma PatchUnfold(block: seq<u8>, p: Patch)
    requires ValidFunction(block)
    ensures ApplyPatch(block, p.(unshare := false))
            == MapWords(MapWords(block, ConstStart(block), ConstEnd(block), p.consts), TailStart(block), Trailing(block), p.trailing)
  {
    hide ValidFunction, MapWords;
  }

  // Patching the two runs of a block inside the buffer patches the block.
  lemma BlockPatched(b: seq<u8>, pos: nat, block: seq<u8>, p: Patch, cs: nat, ts: nat)
    requires pos + |block| <= |b| && b[pos..pos + |block|] == block && ValidFunction(block)
    requires cs == pos + ConstStart(block) && ts == pos + TailStart(block)
    ensures cs + 4 * ConstEnd(block) <= ts && ts + 4 * Trailing(block) <= |b|
    ensures MapWords(MapWords(b, cs, ConstEnd(block), p.consts), ts, Trailing(block), p.trailing)
            == Put(b, pos, ApplyPatch(block, p.(unshare := false)))
  {
    hide *;
    Bounds(block);
    PatchUnfold(block, p);
    PutSlice(b, pos, block);
    MapWordsInside(b, pos, block, ConstStart(block), ConstEnd(block), p.consts);
    MapWordsInside(b, pos, MapWords(block, ConstStart(block), ConstEnd(block), p.consts),
                   TailStart(block), Trailing(block), p.trailing);
  }

  lemma PutSlice(b: seq<u8>, pos: nat, w: seq<u8>)
    requires pos + |w| <= |b| && b[pos..pos + |w|] == w
    ensures Put(b, pos, w) == b
  {}

  // Both loops see the values of the block in the buffer.
  lemma BlockReady(b: seq<u8>, pos: nat, block: seq<u8>, cs: nat, ts: nat, f: u32 -> u32, k: u32 -> bool, t: u32 -> bool)
    requires pos + |block| <= |b| && b[pos..pos + |block|] == block && ValidFunction(block)
    requires cs == pos + ConstStart(block) && ts == pos + TailStart(block)
    ensures cs + 4 * ConstEnd(block) <= ts && ts + 4 * Trailing(block) <= |b|
    ensures BlockOver(block, k, t) <==>
              && RunOver(b, cs, ConstEnd(block), k)
              && RunOver(MapWords(b, cs, ConstEnd(block), f), ts, Trailing(block), t)
  {
    hide *;
    Bounds(block);
    BlockOverRuns(block, k, t);
    RunInside(b, pos, block, ConstStart(block), ConstEnd(block), k);
    RunInside(b, pos, block, TailStart(block), Trailing(block), t);
    RunAfterMap(b, cs, ConstEnd(block), f, ts, Trailing(block), t);
  }

  lemma BlockOverRuns(block: seq<u8>, k: u32 -> bool, t: u32 -> bool)
    requires ValidFunction(block)
    ensures ConstStart(block) + 4 * ConstEnd(block) <= |block| && TailStart(block) + 4 * Trailing(block) == |block|
    ensures BlockOver(block, k, t) <==>
              && RunOver(block, ConstStart(block), ConstEnd(block), k)
              && RunOver(block, TailStart(block), Trailing(block), t)
  {
    Bounds(block);
    hide ConstStart, ConstEnd, TailStart, Trailing, RunOver, HasHeader;
  }

  // The body of the loop of jerry_snapshot_set_offsets for a function.
  method SetBlock(a: array<u8>, pos: nat, n: nat, entries: seq<Entry>) returns (ok: bool)
    requires pos + n <= a.Length && ValidFunction(a[pos..pos + n])
    modifies a
    ensures ok <==> BlockOver(old(a[pos..pos + n]), ConstInMap(MapOf(entries)), TrailingInMap(MapOf(entries)))
    ensures ok ==> a[..] == Put(old(a[..]), pos, ApplyPatch(old(a[pos..pos + n]), SetOffsets(MapOf(entries))))
  {
    hide ValidFunction, HasHeader, ConstStart, ConstEnd, SubStart, SubCount, TailStart, Trailing, MapOf, ApplyPatch,
      BlockOver, RunOver, MapWords, Put, Half;
    ghost var b, p := a[..], SetOffsets(MapOf(entries));
    var block := a[pos..pos + n];
    ghost var q := ApplyPatch(block, p.(unshare := false));
    Bounds(block);
    var cs, ts := pos + ConstStart(block), pos + TailStart(block);
    BlockPatched(b, pos, block, p, cs, ts);
    BlockReady(b, pos, block, cs, ts, p.consts, ConstInMap(MapOf(entries)), TrailingInMap(MapOf(entries)));
    UnshareLast(block, p);
    ok := SetConsts(a, cs, ConstEnd(block), entries);
    if ok {
      ok := SetTrailing(a, ts, Trailing(block), entries);
    }
    if ok {
      PutInside(b, pos, q, 2, Half(1));
      StoreHalf(a, pos + 2, 1);
    }
  }

  method StoreHalf(a: array<u8>, o: nat, v: u16)
    requires o + 2 <= a.Length
    modifies a
    ensures a[..] == Put(old(a[..]), o, Half(v))
  {
    var w := Half(v);
    hide Half;
    a[o], a[o + 1] := w[0], w[1];
  }

  // ---- the walks

  lemma PatchOne(x: seq<u8>, p: Patch)
    requires HasBlock(x) && SizeOf(x) == |x|
    ensures Walkable(x) && PatchBlocks(x, p) == PatchBlock(x, p)
  {
    hide ValidFunction, PatchBlock;
    assert x[|x|..] == [] && x[..|x|] == x;
    assert PatchBlocks([], p) == [];
  }

  // One more block of the walk is done.
  lemma WalkStep(done: seq<u8>, rest: seq<u8>, p: Patch)
    requires Walkable(done) && HasBlock(rest)
    ensures var n := SizeOf(rest);
            && 0 < n <= |rest| && Walkable(done + rest[..n])
            && PatchBlocks(done + rest[..n], p) == PatchBlocks(done, p) + PatchBlock(rest[..n], p)
  {
    hide *;
    PositiveSize(rest);
    var n := SizeOf(rest);
    FirstIsBlock(rest);
    PatchOne(rest[..n], p);
    WalkableAppend(done, rest[..n]);
    PatchAppend(done, rest[..n], p);
  }

  lemma FirstIsBlock(b: seq<u8>)
    requires HasBlock(b)
    ensures 8 <= SizeOf(b) <= |b| && HasBlock(b[..SizeOf(b)]) && SizeOf(b[..SizeOf(b)]) == SizeOf(b)
    ensures Flags(b[..SizeOf(b)]) == Flags(b)
  {
    var n := SizeOf(b);
    PrefixHeader(b, n);
    hide ValidFunction, Flags, SizeOf;
    assert b[..n][..n] == b[..n];
  }

  // A block that is not a function is left as it is.
  lemma PatchRegex(b: seq<u8>, p: Patch)
    requires HasBlock(b)
    ensures |b| >= 8 && SizeOf(b) <= |b|
    ensures IsFunction(Flags(b)) ==> ValidFunction(b[..SizeOf(b)]) && PatchBlock(b[..SizeOf(b)], p) == ApplyPatch(b[..SizeOf(b)], p)
    ensures !IsFunction(Flags(b)) ==> PatchBlock(b[..SizeOf(b)], p) == b[..SizeOf(b)]
  {
    FirstIsBlock(b);
    hide ApplyPatch;
    if ValidFunction(b[..SizeOf(b)]) { ValidSize(b[..SizeOf(b)]); }
  }

  lemma WalkStart(b: seq<u8>, start: nat, region: seq<u8>, p: Patch)
    requires start + |region| <= |b| && b[start..start + |region|] == region
    ensures Walkable([]) && PatchBlocks([], p) == [] && region == [] + region[0..]
    ensures region[0..] == region && Put(b, start, PatchBlocks([], p) + region[0..]) == b
  {
    assert [] + region[0..] == region;
    hide PatchBlocks, Put, Walkable;
    EmptyWalk(p);
    PutSlice(b, start, region);
  }

  lemma EmptyWalk(p: Patch)
    ensures Walkable([]) && PatchBlocks([], p) == []
  {}

  lemma RestInBuffer(b: seq<u8>, start: nat, x: seq<u8>, rest: seq<u8>)
    requires start + |x| + |rest| <= |b|
    ensures Put(b, start, x + rest)[start + |x|..start + |x| + |rest|] == rest
  {}

  lemma HeaderInBuffer(c: seq<u8>, pos: nat, rest: seq<u8>)
    requires pos + |rest| <= |c| && c[pos..pos + |rest|] == rest && |rest| >= 8
    ensures 8 * (c[pos] as int + 0x100 * c[pos + 1] as int) == SizeOf(rest) && c[pos + 4] as int + 0x100 * c[pos + 5] as int == Flags(rest)
    ensures 0 <= c[pos + 4] as int + 0x100 * c[pos + 5] as int < 0x1_0000
  {
    assert forall k :: 0 <= k < 8 ==> c[pos + k] == rest[k];
    assert c[pos + 1] == rest[1] && c[pos + 4] == rest[4] && c[pos + 5] == rest[5];
  }

  // Rewriting the first block of the rest.
  lemma WalkPut(b: seq<u8>, start: nat, x: seq<u8>, rest: seq<u8>, n: nat, y: seq<u8>)
    requires start + |x| + |rest| <= |b| && |y| == n <= |rest|
    ensures Put(Put(b, start, x + rest), start + |x|, y) == Put(b, start, (x + y) + rest[n..])
    ensures y == rest[..n] ==> Put(b, start, x + rest) == Put(b, start, (x + y) + rest[n..])
  {
    if y == rest[..n] {
      assert x + rest == (x + y) + rest[n..];
    }
  }

  // One more block, in the buffer c after the blocks done.
  lemma WalkOne(b: seq<u8>, start: nat, done: seq<u8>, rest: seq<u8>, c: seq<u8>, pos: nat, n: nat, p: Patch)
    requires Walkable(done) && Walkable(rest) && rest != [] && start + |done| + |rest| <= |b| && pos == start + |done|
    requires c == Put(b, start, PatchBlocks(done, p) + rest) && n == (if |rest| >= 8 then SizeOf(rest) else 0)
    ensures |c| == |b| && HasBlock(rest) && 8 <= |rest| && 0 < n <= |rest|
    ensures n == 8 * (c[pos] as int + 0x100 * c[pos + 1] as int) && Flags(rest) == c[pos + 4] as int + 0x100 * c[pos + 5] as int
    ensures c[pos..pos + n] == rest[..n] && Walkable(done + rest[..n]) && Walkable(rest[n..])
    ensures done + rest == (done + rest[..n]) + rest[n..]
    ensures var next := Put(b, start, PatchBlocks(done + rest[..n], p) + rest[n..]);
            && (IsFunction(Flags(rest)) ==> ValidFunction(rest[..n]) && Put(c, pos, ApplyPatch(rest[..n], p)) == next)
            && (!IsFunction(Flags(rest)) ==> c == next)
  {
    hide *;
    WalkableStep(rest);
    PutLength(b, start, PatchBlocks(done, p) + rest);
    RestInBuffer(b, start, PatchBlocks(done, p), rest);
    HeaderInBuffer(c, pos, rest);
    FirstSlice(c, pos, rest, n);
    PatchRegex(rest, p);
    WalkStep(done, rest, p);
    WalkPut(b, start, PatchBlocks(done, p), rest, n, PatchBlock(rest[..n], p));
    SplitRest(done, rest, n);
  }

  lemma BlockSize(rest: seq<u8>)
    requires Walkable(rest) && rest != []
    ensures |rest| >= 8
  {}

  lemma PutLength(b: seq<u8>, o: nat, w: seq<u8>)
    requires o + |w| <= |b|
    ensures |Put(b, o, w)| == |b|
  {}

  // false stands for a search that runs past the end of the map.
  method JerrySnapshotSetOffsets(a: array<u8>, start: nat, size: nat, entries: seq<Entry>) returns (ok: bool)
    requires 0 < size && start + size <= a.Length && Walkable(a[start..start + size])
    modifies a
    ensures ok <==> OverBlocks(old(a[start..start + size]), ConstInMap(MapOf(entries)), TrailingInMap(MapOf(entries)))
    ensures ok ==> a[..] == Put(old(a[..]), start, PatchBlocks(old(a[start..start + size]), SetOffsets(MapOf(entries))))
  {
    hide *;
    ghost var b, p, m := a[..], SetOffsets(MapOf(entries)), MapOf(entries);
    ghost var region := a[start..start + size];
    ghost var done: seq<u8>, rest := [], region;
    var pos := start;
    WalkStart(b, start, region, p);
    while pos < start + size
      invariant pos == start + |done| && |done| + |rest| == size
      invariant region == done + rest && Walkable(done) && Walkable(rest)
      invariant OverBlocks(rest, ConstInMap(m), TrailingInMap(m)) <==> OverBlocks(region, ConstInMap(m), TrailingInMap(m))
      invariant a[..] == Put(b, start, PatchBlocks(done, p) + rest)
      decreases |rest|
    {
      BlockSize(rest);
      WalkOne(b, start, done, rest, a[..], pos, SizeOf(rest), p);
      var codeSize := 8 * (a[pos] as int + 0x100 * a[pos + 1] as int);
      var flags := a[pos + 4] as int + 0x100 * a[pos + 5] as int;
      OverStep(rest, codeSize, flags, ConstInMap(m), TrailingInMap(m));
      if IsFunction(flags) {
        ok := SetBlock(a, pos, codeSize, entries);
        if !ok {
          return;
        }
      }
      done, rest := done + rest[..codeSize], rest[codeSize..];
      pos := pos + codeSize;
    }
    WalkEnd(region, done, rest, p);
    OverEnd(rest, ConstInMap(m), TrailingInMap(m));
    ok := true;
  }

  lemma OverStep(rest: seq<u8>, n: nat, flags: u16, k: u32 -> bool, t: u32 -> bool)
    requires HasBlock(rest) && |rest| >= 8 && n == SizeOf(rest) <= |rest| && flags == Flags(rest)
    ensures OverBlocks(rest, k, t) <==> (IsFunction(flags) ==> BlockOver(rest[..n], k, t)) && OverBlocks(rest[n..], k, t)
  {
    FirstIsBlock(rest);
    OverHead(rest, k, t);
    hide HasBlock, OverBlocks, RunOver, SizeOf;
  }

  lemma OverEnd(b: seq<u8>, k: u32 -> bool, t: u32 -> bool)
    requires |b| == 0
    ensures OverBlocks(b, k, t)
  {}

  lemma FirstSlice(c: seq<u8>, pos: nat, rest: seq<u8>, n: nat)
    requires pos + |rest| <= |c| && c[pos..pos + |rest|] == rest && n <= |rest|
    ensures c[pos..pos + n] == rest[..n]
  {}

  lemma SplitRest(done: seq<u8>, rest: seq<u8>, n: nat)
    requires n <= |rest|
    ensures done + rest == (done + rest[..n]) + rest[n..]
  {}

  lemma WalkEnd(region: seq<u8>, done: seq<u8>, rest: seq<u8>, p: Patch)
    requires region == done + rest && |rest| == 0
    ensures PatchBlocks(done, p) + rest == PatchBlocks(region, p)
  {
    assert done == region;
  }

  // The body of the loop of update_literal_offsets for a function.
  method UpdateBlock(a: array<u8>, pos: nat, n: nat, entries: seq<Entry>, get: u32 -> u32)
    requires pos + n <= a.Length && ValidFunction(a[pos..pos + n])
    requires BlockOver(a[pos..pos + n], CollectedIn(get, MapOf(entries)), CollectedIn(get, MapOf(entries)))
    modifies a
    ensures a[..] == Put(old(a[..]), pos, ApplyPatch(old(a[pos..pos + n]), UpdateOffsets(get, MapOf(entries))))
  {
    hide ValidFunction, HasHeader, ConstStart, ConstEnd, SubStart, SubCount, TailStart, Trailing, MapOf, ApplyPatch,
      BlockOver, RunOver, MapWords, Put;
    ghost var b, p := a[..], UpdateOffsets(get, MapOf(entries));
    var block := a[pos..pos + n];
    Bounds(block);
    var cs, ts := pos + ConstStart(block), pos + TailStart(block);
    BlockPatched(b, pos, block, p, cs, ts);
    BlockReady(b, pos, block, cs, ts, p.consts, CollectedIn(get, MapOf(entries)), CollectedIn(get, MapOf(entries)));
    UpdateRun(a, cs, ConstEnd(block), entries, get);
    UpdateRun(a, ts, Trailing(block), entries, get);
  }

  method UpdateLiteralOffsets(a: array<u8>, start: nat, size: nat, entries: seq<Entry>, get: u32 -> u32)
    requires 0 < size && start + size <= a.Length && Walkable(a[start..start + size])
    requires OverBlocks(a[start..start + size], CollectedIn(get, MapOf(entries)), CollectedIn(get, MapOf(entries)))
    modifies a
    ensures a[..] == Put(old(a[..]), start, PatchBlocks(old(a[start..start + size]), UpdateOffsets(get, MapOf(entries))))
  {
    hide *;
    ghost var b, p, k := a[..], UpdateOffsets(get, MapOf(entries)), CollectedIn(get, MapOf(entries));
    ghost var region := a[start..start + size];
    ghost var done: seq<u8>, rest := [], region;
    var pos := start;
    WalkStart(b, start, region, p);
    while pos < start + size
      invariant pos == start + |done| && |done| + |rest| == size
      invariant region == done + rest && Walkable(done) && Walkable(rest)
      invariant OverBlocks(rest, k, k)
      invariant a[..] == Put(b, start, PatchBlocks(done, p) + rest)
      decreases |rest|
    {
      BlockSize(rest);
      WalkOne(b, start, done, rest, a[..], pos, SizeOf(rest), p);
      var codeSize := 8 * (a[pos] as int + 0x100 * a[pos + 1] as int);
      var flags := a[pos + 4] as int + 0x100 * a[pos + 5] as int;
      FunctionsNotStatic(rest);
      OverHead(rest, k, k);
      if IsFunction(flags) && !IsStatic(flags) {
        UpdateBlock(a, pos, codeSize, entries, get);
      }
      done, rest := done + rest[..codeSize], rest[codeSize..];
      pos := pos + codeSize;
    }
    WalkEnd(region, done, rest, p);
  }

  lemma FunctionsNotStatic(b: seq<u8>)
    requires HasBlock(b)
    ensures |b| >= 8 && (IsFunction(Flags(b)) ==> !IsStatic(Flags(b)))
  {
    FirstIsBlock(b);
    hide IsStatic, IsWide, IsMapped, Field;
  }

  // ---- collecting literals

  // ecma_save_literals_append_value
  method AppendValue(v: u32, pool: seq<u32>) returns (r: seq<u32>)
    requires Distinct(pool)
    ensures Distinct(r) && pool <= r
    ensures r == if IsPooled(v) && v !in pool then pool + [v] else pool
  {
    if !IsPooled(v) {
      return pool;
    }
    for i := 0 to |pool|
      invariant v !in pool[..i]
    {
      if pool[i] == v {
        return pool;
      }
    }
    r := pool + [v];
  }

  ghost predicate Distinct(s: seq<u32>) {
    forall i, j :: 0 <= i < j < |s| ==> s[i] != s[j]
  }

  // What an offset leads to is in the pool.
  ghost function Pooled(get: u32 -> u32, pool: seq<u32>): u32 -> bool {
    (v: u32) => IsOffset(v) && IsPooled(get(v)) ==> get(v) in pool
  }

  // What an offset leads to satisfies k.
  ghost function LeadsTo(get: u32 -> u32, k: u32 -> bool): u32 -> bool {
    (v: u32) => IsOffset(v) ==> k(get(v))
  }

  ghost function Other(v: u32): u32 -> bool {
    (x: u32) => x != v
  }

  ghost predicate AllOf(s: seq<u32>, k: u32 -> bool) {
    forall i :: 0 <= i < |s| ==> k(s[i])
  }

  // Either loop of scan_snapshot_functions. The pool keeps what it has, receives all that
  // the run leads to, and nothing else: k is any property of what the run leads to.
  method ScanRun(b: seq<u8>, start: nat, n: nat, get: u32 -> u32, pool: seq<u32>, ghost k: u32 -> bool)
    returns (r: seq<u32>)
    requires start + 4 * n <= |b| && Distinct(pool)
    requires RunOver(b, start, n, LeadsTo(get, k)) && AllOf(pool, k)
    ensures Distinct(r) && pool <= r && AllOf(r, k)
    ensures RunOver(b, start, n, Pooled(get, r))
  {
    hide IsOffset, IsPooled, Get32;
    r := pool;
    var i := 0;
    while i < n
      invariant 0 <= i <= n && Distinct(r) && pool <= r && AllOf(r, k)
      invariant forall j :: 0 <= j < i ==> Pooled(get, r)(GetWord(b, start, j))
    {
      var v := GetWord(b, start, i);
      assert LeadsTo(get, k)(v);
      if IsOffset(v) {
        r := AppendValue(get(v), r);
      }
      i := i + 1;
    }
  }

  method ScanBlock(block: seq<u8>, get: u32 -> u32, pool: seq<u32>, ghost k: u32 -> bool) returns (r: seq<u32>)
    requires ValidFunction(block) && Distinct(pool)
    requires BlockOver(block, LeadsTo(get, k), LeadsTo(get, k)) && AllOf(pool, k)
    ensures Distinct(r) && pool <= r && AllOf(r, k)
    ensures BlockOver(block, Pooled(get, r), Pooled(get, r))
  {
    hide *;
    Bounds(block);
    BlockOverRuns(block, LeadsTo(get, k), LeadsTo(get, k));
    ghost var r0: seq<u32>;
    r := ScanRun(block, ConstStart(block), ConstEnd(block), get, pool, k);
    r0 := r;
    r := ScanRun(block, TailStart(block), Trailing(block), get, r, k);
    PoolGrows(block, ConstStart(block), ConstEnd(block), get, r0, r);
    RunsBlockOver(block, Pooled(get, r), Pooled(get, r));
  }

  lemma RunsBlockOver(block: seq<u8>, k: u32 -> bool, t: u32 -> bool)
    requires ValidFunction(block)
    requires ConstStart(block) + 4 * ConstEnd(block) <= |block| && TailStart(block) + 4 * Trailing(block) <= |block|
    requires RunOver(block, ConstStart(block), ConstEnd(block), k)
    requires RunOver(block, TailStart(block), Trailing(block), t)
    ensures BlockOver(block, k, t)
  {}

  lemma PoolGrows(b: seq<u8>, start: nat, n: nat, get: u32 -> u32, r0: seq<u32>, r: seq<u32>)
    requires start + 4 * n <= |b| && r0 <= r && RunOver(b, start, n, Pooled(get, r0))
    ensures RunOver(b, start, n, Pooled(get, r))
  {
    hide GetWord, IsOffset, IsPooled;
    forall i | 0 <= i < n ensures Pooled(get, r)(GetWord(b, start, i)) {
      assert Pooled(get, r0)(GetWord(b, start, i));
    }
  }

  method ScanSnapshotFunctions(b: seq<u8>, get: u32 -> u32, pool: seq<u32>, ghost k: u32 -> bool)
    returns (r: seq<u32>)
    requires b != [] && Walkable(b) && Distinct(pool)
    requires OverBlocks(b, LeadsTo(get, k), LeadsTo(get, k)) && AllOf(pool, k)
    ensures Distinct(r) && pool <= r && AllOf(r, k)
    ensures OverBlocks(b, Pooled(get, r), Pooled(get, r))
  {
    hide *;
    r := pool;
    var rest := b;
    ghost var done: seq<u8> := [];
    OverEmpty(Pooled(get, r), Pooled(get, r));
    EmptyWalk(SetRefs());
    while rest != []
      invariant b == done + rest && Walkable(done) && Walkable(rest)
      invariant Distinct(r) && pool <= r && AllOf(r, k)
      invariant OverBlocks(rest, LeadsTo(get, k), LeadsTo(get, k))
      invariant OverBlocks(done, Pooled(get, r), Pooled(get, r))
      decreases |rest|
    {
      WalkableStep(rest);
      var codeSize := SizeOf(rest);
      var block := rest[..codeSize];
      OverHead(rest, LeadsTo(get, k), LeadsTo(get, k));
      FunctionsNotStatic(rest);
      PatchRegex(rest, SetRefs());
      ghost var r0 := r;
      if IsFunction(Flags(rest)) && !IsStatic(Flags(rest)) {
        r := ScanBlock(block, get, r, k);
      } else {
        NoFunctionOver(rest, Pooled(get, r), Pooled(get, r));
      }
      DoneGrows(done, get, r0, r);
      ScanStep(done, rest, Pooled(get, r));
      SplitRest(done, rest, codeSize);
      done, rest := done + block, rest[codeSize..];
    }
    assert done == b;
  }

  lemma NoFunctionOver(b: seq<u8>, k: u32 -> bool, t: u32 -> bool)
    requires HasBlock(b) && |b| >= 8 && SizeOf(b) <= |b| && !IsFunction(Flags(b))
    ensures BlockOver(b[..SizeOf(b)], k, t)
  {
    FirstIsBlock(b);
    hide HasHeader, IsStatic;
  }

  lemma DoneGrows(b: seq<u8>, get: u32 -> u32, r0: seq<u32>, r: seq<u32>)
    requires OverBlocks(b, Pooled(get, r0), Pooled(get, r0)) && r0 <= r
    ensures OverBlocks(b, Pooled(get, r), Pooled(get, r))
  {
    OverBlocksWeaken(b, Pooled(get, r0), Pooled(get, r));
  }

  lemma {:induction false} OverBlocksWeaken(b: seq<u8>, k: u32 -> bool, k2: u32 -> bool)
    requires OverBlocks(b, k, k)
    requires forall v :: k(v) ==> k2(v)
    ensures OverBlocks(b, k2, k2)
  {
    hide ValidFunction, GetWord, ConstStart, ConstEnd, TailStart, Trailing;
    if HasBlock(b) {
      OverBlocksWeaken(b[SizeOf(b)..], k, k2);
    }
  }

  lemma ScanStep(done: seq<u8>, rest: seq<u8>, k: u32 -> bool)
    requires Walkable(done) && HasBlock(rest) && |rest| >= 8 && SizeOf(rest) <= |rest|
    requires OverBlocks(done, k, k) && BlockOver(rest[..SizeOf(rest)], k, k)
    ensures Walkable(done + rest[..SizeOf(rest)]) && OverBlocks(done + rest[..SizeOf(rest)], k, k)
  {
    hide *;
    var block := rest[..SizeOf(rest)];
    FirstIsBlock(rest);
    PatchOne(block, SetRefs());
    WalkableAppend(done, block);
    OverHead(block, k, k);
    assert block[..|block|] == block && block[|block|..] == [];
    OverEmpty(k, k);
    OverAppend(done, block, k, k);
  }
}
