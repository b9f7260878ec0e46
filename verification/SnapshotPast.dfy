// Code whose literals are saved behind the buffer.
module SnapshotPast {
  import opened Bytes
  import opened Layout
  import opened Snapshot
  import opened SnapshotPasses
  import opened SnapshotFile
  import opened SnapshotCollect
  import opened SnapshotStray
  import opened SnapshotRoom
  import opened SnapshotSave

  // In a buffer of 55 bytes the class with the pattern "a" is accepted, and ends at byte 56; its
  // constant, a string, is to be written there: the table has a size, and is taken to fit.
  lemma PastBufferExample(v: u32, lit: Storage, pool: seq<u32>)
    requires IsString(v) && lit.live(v) && Interning(lit)
    ensures var c := OneRegex(v, 0, [97]);
            && ValidCode(c) && Parsed(c) && Guarded(c) && Over(c, LiveLiteral(lit), LiveLiteral(lit))
            && Accepted(c, 55) && EndsAt(c) == 56
            && (IsPoolOf(c, pool) ==>
                  && v in pool && AllLive(lit, pool) && TableSize(lit, pool) > 0
                  && (TableSize(lit, pool) <= 0x7ff_ffff ==> TableSize(lit, pool) <= Room(56, 55) && IsPast(lit, pool, 56, 55)))
  {
    hide *;
    FlagBits();
    var c := OneRegex(v, 0, [97]);
    OneRegexRoom(v, 0, [97], 55);
    OneRegexValid(v, 0, [97]);
    OneRegexIs(v, 0, [97]);
    UnitsOfSeven();
    ConstKinds(v, lit);
    OneConstOver(c, v, ParsedConst(), ParsedTrailing());
    OneConstOver(c, v, LiveLiteral(lit), LiveLiteral(lit));
    OneConstOver(c, v, Other(v), Other(v));
    SnapshotCollect.ParsedIs(c);
    OneGuarded(c);
    LiteralIs(c, v);
    CollectedIsLiteral(c, v);
    RoomBehind();
    if IsPoolOf(c, pool) {
      PoolHas(c, pool, v);
      CollectsPool(c, lit, pool);
      GuardedIsLive(c, lit);
      SizePositive(lit, pool, v);
      PastIs(lit, pool, v);
    }
  }

  lemma PastIs(lit: Storage, pool: seq<u32>, v: u32)
    requires AllLive(lit, pool) && v in pool
    ensures IsPast(lit, pool, 56, 55) <==> TableSize(lit, pool) <= 0x7ff_ffff
  {}

  lemma RoomBehind()
    ensures Room(56, 55) == 0x7ff_ffff
  {}

  lemma PoolHas(c: Code, pool: seq<u32>, v: u32)
    requires IsPoolOf(c, pool) && Occurs(c, v) && IsPooled(v)
    ensures v in pool
  {
    PoolIs(c, pool);
    hide Occurs, IsPooled, Distinct, IsPoolOf;
  }

  lemma SizePositive(lit: Storage, pool: seq<u32>, v: u32)
    requires Interning(lit) && v in pool && lit.live(v)
    ensures TableSize(lit, pool) > 0
  {
    if v != pool[|pool| - 1] {
      SizePositive(lit, pool[..|pool| - 1], v);
    }
  }

  lemma ConstKinds(v: u32, lit: Storage)
    requires IsString(v) && lit.live(v)
    ensures IsPooled(v) && ParsedConst()(v) && LiveLiteral(lit)(v) && !Other(v)(v)
  {}

  // The constant decides.
  lemma OneConstOver(c: Code, v: u32, k: u32 -> bool, t: u32 -> bool)
    requires c.Function? && |c.subs| == 1 && c.subs[0].Regex? && ValidFunction(c.block)
    requires ConstStart(c.block) == 12 && ConstEnd(c.block) == 1 && Trailing(c.block) == 0 && TailStart(c.block) == 24
    requires |c.block| == 24 && GetWord(c.block, 12, 0) == v
    ensures Over(c, k, t) <==> k(v)
  {
    OverNode(c, k, t);
    OverNode(c.subs[0], k, t);
    OverSubsStep(c.subs, k, t);
    OverSubsStep(c.subs[1..], k, t);
    BlockOverRuns(c.block, k, t);
    hide ValidFunction, ConstStart, ConstEnd, TailStart, Trailing, GetWord, Over, OverSubs, BlockOver;
  }

  lemma OneGuarded(c: Code)
    requires c.Function? && |c.subs| == 1 && c.subs[0].Regex? && ValidFunction(c.block) && !IsMapped(Flags(c.block))
    ensures Guarded(c)
  {
    GuardedNode(c);
    FitsIs(c.block);
    SubsSteps(c.subs, Anything(), Anything());
    SubsSteps(c.subs[1..], Anything(), Anything());
    RegexGuarded(c.subs[0]);
    hide ValidFunction, IsMapped, Guarded, GuardedSubs, ArgumentsFit;
  }

  lemma RegexGuarded(c: Code)
    requires c.Regex?
    ensures Guarded(c)
  {}
}
