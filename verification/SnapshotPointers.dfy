// The words of a code area that may be pointers into the heap of the engine, read from the bytes as
// the structures of jerry-core/parser/js/byte-code.h lay them out.
module SnapshotPointers {
  import opened Bytes
  import opened Layout
  import opened Snapshot
  import opened SnapshotPasses

  // Word i from start on is an offset in the literal table, or a direct value: among the names only
  // the empty value.
  predicate WordFree(b: seq<u8>, start: int, i: nat, isName: bool) {
    && 0 <= start && start + 4 * i + 4 <= |b|
    && var v := Get32(b, start + 4 * i);
       v % 8 == 7 || (if isName then v == 8 else v % 8 == 0)
  }

  ghost predicate RunFree(b: seq<u8>, start: int, n: int, isName: bool) {
    forall i :: 0 <= i < n ==> WordFree(b, start, i, isName)
  }

  // The constants of a function follow its header; the names of mapped arguments and the name of
  // the function, which a constructor does not have, are at its end.
  ghost predicate BlockFree(b: seq<u8>) {
    && |b| >= 12
    && var flags := Get16(b, 4);
       && (flags / 2 % 2 == 1 ==> |b| >= 20)
       && var start, arguments, registers, constants :=
            if flags / 2 % 2 == 1 then 20 else 12,
            if flags / 2 % 2 == 1 then Get16(b, 8) as int else b[7] as int,
            if flags / 2 % 2 == 1 then Get16(b, 10) as int else b[8] as int,
            if flags / 2 % 2 == 1 then Get16(b, 14) as int else b[10] as int;
          var names := (if flags / 8 % 2 == 1 then arguments else 0) + (if flags / 0x1000 == 2 then 0 else 1);
          RunFree(b, start, constants - registers, false) && RunFree(b, |b| - 4 * names, names, true)
  }

  // What a valid block is, read in the same way: a function that is not static, of the size in its
  // first field, with its counters in order and room for literals and names.
  lemma ValidMeans(b: seq<u8>)
    requires |b| >= 20
    ensures var flags := Get16(b, 4);
            var start, arguments, registers, constants, literals :=
              if flags / 2 % 2 == 1 then 20 else 12,
              if flags / 2 % 2 == 1 then Get16(b, 8) as int else b[7] as int,
              if flags / 2 % 2 == 1 then Get16(b, 10) as int else b[8] as int,
              if flags / 2 % 2 == 1 then Get16(b, 14) as int else b[10] as int,
              if flags / 2 % 2 == 1 then Get16(b, 16) as int else b[11] as int;
            var names := (if flags / 8 % 2 == 1 then arguments else 0) + (if flags / 0x1000 == 2 then 0 else 1);
            ValidFunction(b) <==>
              && flags >= 0x1000 && flags / 0x80 % 2 == 0 && |b| == 8 * Get16(b, 0)
              && registers <= constants <= literals && start + 4 * (literals - registers) + 4 * names <= |b|
  {}

  // Every block of a function is free of pointers; the size of a block is in its first field.
  ghost predicate AreaFree(b: seq<u8>) {
    b != [] ==>
      && |b| >= 8
      && var n := 8 * Get16(b, 0);
         0 < n <= |b| && (Get16(b, 4) >= 0x1000 ==> BlockFree(b[..n])) && AreaFree(b[n..])
  }

  // The area from byte 24 on, up to the table whose offset is at byte 12.
  ghost predicate FileFree(file: seq<u8>) {
    |file| >= 24 && 24 <= Get32(file, 12) <= |file| && AreaFree(file[24..Get32(file, 12)])
  }

  // What the parser makes constants: direct values, strings, floats and bigints.
  ghost function ConstTag(): u32 -> bool {
    (v: u32) => v % 8 in {0, 1, 2, 5, 6}
  }

  ghost function NameTag(): u32 -> bool {
    (v: u32) => v == 8 || v % 8 in {1, 5}
  }

  ghost function FreeConst(): u32 -> bool {
    (v: u32) => v % 8 == 0 || v % 8 == 7
  }

  ghost function FreeName(): u32 -> bool {
    (v: u32) => v == 8 || v % 8 == 7
  }

  // A constant or name that was found in the map is replaced.
  lemma SetIsFree(m: map<u32, u32>, v: u32)
    requires forall w :: w in m ==> IsOffset(m[w])
    ensures FoundConst(m)(v) && ConstTag()(v) ==> FreeConst()(SetOffsets(m).consts(v))
    ensures FoundTrailing(m)(v) && NameTag()(v) ==> FreeName()(SetOffsets(m).trailing(v))
  {}

  lemma RunIsFree(b: seq<u8>, start: nat, n: nat, k: u32 -> bool, isName: bool)
    requires start + 4 * n <= |b| && RunOver(b, start, n, k)
    requires forall v :: k(v) ==> v % 8 == 7 || (if isName then v == 8 else v % 8 == 0)
    ensures RunFree(b, start, n, isName)
  {
    hide Get32;
    forall i | 0 <= i < n ensures WordFree(b, start, i, isName) {
      assert k(GetWord(b, start, i));
    }
  }

  lemma BlockIsFree(b: seq<u8>)
    requires ValidFunction(b) && BlockOver(b, FreeConst(), FreeName())
    ensures BlockFree(b)
  {
    BlockOverRuns(b, FreeConst(), FreeName());
    RunIsFree(b, ConstStart(b), ConstEnd(b), FreeConst(), false);
    RunIsFree(b, TailStart(b), Trailing(b), FreeName(), true);
    hide BlockOver, RunFree, RunOver;
  }

  lemma {:induction false} AreaIsFree(b: seq<u8>)
    requires Walkable(b) && OverBlocks(b, FreeConst(), FreeName())
    ensures AreaFree(b)
  {
    hide BlockOver, BlockFree, ValidFunction;
    if b != [] {
      WalkableStep(b);
      var n := SizeOf(b);
      OverHead(b, FreeConst(), FreeName());
      if IsFunction(Flags(b)) {
        BlockIsFree(b[..n]);
      }
      AreaIsFree(b[n..]);
    }
  }
}
