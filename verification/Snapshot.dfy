// Trees of compiled functions and their flat form in a snapshot
// (jerry-core/api/jerry-snapshot.c).
module Snapshot {
  import opened Bytes
  import opened Layout

  // A compiled function or regular expression in memory. The words of a block that refer to
  // sub-functions are 0: what they refer to is in subs, where SelfRef stands for the
  // function itself.
  datatype Code =
    | Regex(flags: u16, pattern: seq<u8>)
    | Function(block: seq<u8>, subs: seq<Code>)
    | SelfRef

  function Zeros(n: nat): (z: seq<u32>)
    ensures |z| == n
  {
    seq(n, _ => 0)
  }

  ghost predicate ValidCode(c: Code)
    decreases c, 1
  {
    match c
    case Regex(flags, pattern) => !IsFunction(flags) && |pattern| < 0x1_0000
    case Function(block, subs) =>
      && ValidFunction(block) && |subs| == SubCount(block)
      && PutSubs(block, Zeros(|subs|)) == block
      && ValidSubs(subs)
    case SelfRef => false
  }

  ghost predicate ValidSubs(subs: seq<Code>)
    decreases subs, 0
  {
    subs != [] ==> (!subs[0].SelfRef? ==> ValidCode(subs[0])) && ValidSubs(subs[1..])
  }

  function AlignUp(n: nat): (r: nat)
    ensures r % 8 == 0 && n <= r < n + 8
  {
    (n + 7) / 8 * 8
  }

  // ---- the flat form

  function Length(c: Code): nat
    decreases c, 1
  {
    match c
    case Regex(_, pattern) => AlignUp(6 + |pattern|)
    case Function(block, subs) => |block| + LengthSubs(subs)
    case SelfRef => 0
  }

  function LengthSubs(subs: seq<Code>): nat
    decreases subs, 0
  {
    if subs == [] then 0
    else (if !subs[0].SelfRef? then Length(subs[0]) else 0) + LengthSubs(subs[1..])
  }

  // Offsets of the sub-functions from their parent, the first stored at pos; 0 means self.
  function Offsets(subs: seq<Code>, pos: nat): (offs: seq<u32>)
    requires pos + LengthSubs(subs) < 0x1_0000_0000
    ensures |offs| == |subs|
  {
    if subs == [] then []
    else if !subs[0].SelfRef? then [pos] + Offsets(subs[1..], pos + Length(subs[0]))
    else [0] + Offsets(subs[1..], pos)
  }

  // b is what the writer leaves for c (the padding after a pattern is arbitrary).
  ghost predicate Emitted(b: seq<u8>, c: Code)
    decreases c, 1
  {
    && |b| == Length(c) < 0x1_0000_0000
    && match c
       case Regex(flags, pattern) =>
         && !IsFunction(flags) && |pattern| < 0x1_0000
         && b[..6] == Half(Length(c) / 8) + Half(|pattern|) + Half(flags)
         && b[6..6 + |pattern|] == pattern
       case Function(block, subs) =>
         && ValidFunction(block) && |subs| == SubCount(block)
         && b[..|block|] == PutSubs(block, Offsets(subs, |block|))
         && EmittedSubs(b[|block|..], subs)
       case SelfRef => false
  }

  ghost predicate EmittedSubs(b: seq<u8>, subs: seq<Code>)
    decreases subs, 0
  {
    && |b| == LengthSubs(subs)
    && (subs != [] ==>
          if !subs[0].SelfRef? then
            && Emitted(b[..Length(subs[0])], subs[0])
            && EmittedSubs(b[Length(subs[0])..], subs[1..])
          else EmittedSubs(b, subs[1..]))
  }

  // ---- a pass over the tree, and the same pass over the flat form, block by block

  function PatchCode(c: Code, p: Patch): Code
    decreases c, 1
  {
    match c
    case Regex(_, _) => c
    case Function(block, subs) =>
      if ValidFunction(block) then Function(ApplyPatch(block, p), PatchSubs(subs, p)) else c
    case SelfRef => c
  }

  function PatchSubs(subs: seq<Code>, p: Patch): (r: seq<Code>)
    ensures |r| == |subs|
    decreases subs, 0
  {
    if subs == [] then []
    else [if !subs[0].SelfRef? then PatchCode(subs[0], p) else SelfRef] + PatchSubs(subs[1..], p)
  }

  // One block at the start of b, and more bytes after it.
  predicate HasBlock(b: seq<u8>) {
    && |b| >= 8 && 0 < SizeOf(b) <= |b|
    && (IsFunction(Flags(b)) ==> ValidFunction(b[..SizeOf(b)]))
  }

  function PatchBlock(b: seq<u8>, p: Patch): (r: seq<u8>)
    ensures |r| == |b|
  {
    if ValidFunction(b) then ApplyPatch(b, p) else b
  }

  function PatchBlocks(b: seq<u8>, p: Patch): (r: seq<u8>)
    ensures |r| == |b|
  {
    if HasBlock(b) then PatchBlock(b[..SizeOf(b)], p) + PatchBlocks(b[SizeOf(b)..], p)
    else b
  }

  // b is a sequence of complete blocks.
  predicate Walkable(b: seq<u8>)
  {
    b == [] || (HasBlock(b) && Walkable(b[SizeOf(b)..]))
  }

  // Where the blocks start, when stepping from base by the size in each header.
  function Starts(b: seq<u8>, base: nat): seq<nat> {
    if HasBlock(b) then [base] + Starts(b[SizeOf(b)..], base + SizeOf(b)) else []
  }

  // Where the recursive writer starts each function: a function before its sub-functions.
  function Preorder(c: Code, base: nat): seq<nat>
    decreases c, 1
  {
    match c
    case Regex(_, _) => [base]
    case Function(block, subs) => [base] + PreorderSubs(subs, base + |block|)
    case SelfRef => []
  }

  function PreorderSubs(subs: seq<Code>, base: nat): seq<nat>
    decreases subs, 0
  {
    if subs == [] then []
    else if !subs[0].SelfRef? then
      Preorder(subs[0], base) + PreorderSubs(subs[1..], base + Length(subs[0]))
    else PreorderSubs(subs[1..], base)
  }

  // ---- loading

  // Reads the tree whose root is at the start of b; get finds the value at an offset of the
  // literal table. None stands for reading outside of the snapshot.
  function Load(b: seq<u8>, get: u32 -> u32): Option<Code>
    decreases |b|, 1, 0
  {
    if |b| < 8 then None
    else if !IsFunction(Flags(b)) then
      if 6 + Refs(b) <= |b| then Some(Regex(Flags(b), b[6..6 + Refs(b)])) else None
    else if SizeOf(b) > |b| || !ValidFunction(b[..SizeOf(b)]) then None
    else
      var block := b[..SizeOf(b)];
      match LoadSubs(b, SubWords(block), get)
      case None => None
      case Some(subs) => Some(Function(ResolvedBlock(block, get), subs))
  }

  function LoadSubs(b: seq<u8>, offs: seq<u32>, get: u32 -> u32): (r: Option<seq<Code>>)
    ensures r.Some? ==> |r.value| == |offs|
    decreases |b|, 0, |offs|
  {
    if offs == [] then Some([])
    else if offs[0] > |b| then None
    else if offs[0] == 0 then
      match LoadSubs(b, offs[1..], get)
      case None => None
      case Some(rest) => Some([SelfRef] + rest)
    else
      match Load(b[offs[0]..], get)
      case None => None
      case Some(c) =>
        match LoadSubs(b, offs[1..], get)
        case None => None
        case Some(rest) => Some([c] + rest)
  }

  function SubWords(block: seq<u8>): (offs: seq<u32>)
    requires ValidFunction(block)
    ensures |offs| == SubCount(block)
  {
    seq(SubCount(block), i requires 0 <= i < SubCount(block) => GetWord(block, SubStart(block), i))
  }

  // Literal offsets have the tag of ECMA_TYPE_SNAPSHOT_OFFSET.
  predicate IsOffset(v: u32) { v % 8 == 7 }

  function Resolve(get: u32 -> u32): Patch {
    Patch((x: u32) => if IsOffset(x) then get(x) else x, (x: u32) => if IsOffset(x) then get(x) else x, false)
  }

  function ResolvedBlock(block: seq<u8>, get: u32 -> u32): (r: seq<u8>)
    requires ValidFunction(block)
  {
    ApplyPatchLayout(block, Resolve(get));
    LayoutKept(block, ApplyPatch(block, Resolve(get)));
    PutSubs(ApplyPatch(block, Resolve(get)), Zeros(SubCount(block)))
  }

  // ---- a pass keeps lengths and validity

  lemma PatchedLength(c: Code, p: Patch)
    ensures Length(PatchCode(c, p)) == Length(c)
    decreases c, 1
  {
    match c
    case Regex(_, _) =>
    case SelfRef =>
    case Function(block, subs) => PatchedLengthSubs(subs, p);
  }

  lemma PatchedLengthSubs(subs: seq<Code>, p: Patch)
    ensures LengthSubs(PatchSubs(subs, p)) == LengthSubs(subs)
    decreases subs, 0
  {
    if subs != [] {
      PatchedLength(subs[0], p);
      PatchedLengthSubs(subs[1..], p);
      SelfKept(subs[0], p);
    }
  }

  lemma SelfKept(c: Code, p: Patch)
    ensures PatchCode(c, p).SelfRef? <==> c.SelfRef?
  {}

  lemma PatchedValid(c: Code, p: Patch)
    requires ValidCode(c)
    ensures ValidCode(PatchCode(c, p))
    decreases c, 1
  {
    match c
    case Regex(_, _) =>
    case Function(block, subs) =>
      hide ApplyPatch, PutSubs, ValidFunction, SubCount;
      PatchPutSubs(block, p, Zeros(|subs|));
      PatchedValidSubs(subs, p);
  }

  lemma PatchedValidSubs(subs: seq<Code>, p: Patch)
    requires ValidSubs(subs)
    ensures ValidSubs(PatchSubs(subs, p))
    decreases subs, 0
  {
    if subs != [] {
      SelfKept(subs[0], p);
      if !subs[0].SelfRef? { PatchedValid(subs[0], p); }
      PatchedValidSubs(subs[1..], p);
    }
  }

  // Two passes are one pass.
  lemma PatchTwice(c: Code, p: Patch, q: Patch)
    ensures PatchCode(PatchCode(c, p), q) == PatchCode(c, Then(p, q))
    decreases c, 1
  {
    match c
    case Regex(_, _) =>
    case SelfRef =>
    case Function(block, subs) =>
      hide ApplyPatch, ValidFunction, Then;
      if ValidFunction(block) {
        PatchCompose(block, p, q);
        PatchTwiceSubs(subs, p, q);
      }
  }

  lemma PatchTwiceSubs(subs: seq<Code>, p: Patch, q: Patch)
    ensures PatchSubs(PatchSubs(subs, p), q) == PatchSubs(subs, Then(p, q))
    decreases subs, 0
  {
    if subs != [] {
      SelfKept(subs[0], p);
      PatchTwice(subs[0], p, q);
      PatchTwiceSubs(subs[1..], p, q);
      assert PatchSubs(subs, p)[1..] == PatchSubs(subs[1..], p);
    }
  }

  // ---- walking block by block is the recursion over the tree

  // The header of b is the header of any longer prefix.
  lemma PrefixHeader(b: seq<u8>, n: nat)
    requires 8 <= n <= |b|
    ensures SizeOf(b[..n]) == SizeOf(b) && Flags(b[..n]) == Flags(b) && Refs(b[..n]) == Refs(b)
  {}

  lemma EmittedRegex(b: seq<u8>, c: Code)
    requires c.Regex? && Emitted(b, c)
    ensures |b| >= 8 && SizeOf(b) == |b| && Flags(b) == c.flags && Refs(b) == |c.pattern|
    ensures HasBlock(b) && 6 + Refs(b) <= |b| && b[6..6 + Refs(b)] == c.pattern
  {
    hide *;
    EmittedFlags(b, c);
    RegexHeader(b, |b| / 8, |c.pattern|, c.flags);
    RegexBlock(b);
  }

  lemma EmittedFlags(b: seq<u8>, c: Code)
    requires c.Regex? && Emitted(b, c)
    ensures |b| / 8 < 0x1_0000 && |b| % 8 == 0 && 8 <= |b| && |c.pattern| < 0x1_0000
    ensures b[..6] == Half(|b| / 8) + Half(|c.pattern|) + Half(c.flags)
    ensures !IsFunction(c.flags) && |c.pattern| <= |b| - 6 && b[6..6 + |c.pattern|] == c.pattern
  {
    hide IsFunction, Half;
  }

  lemma RegexBlock(b: seq<u8>)
    requires |b| >= 8 && SizeOf(b) == |b| && !IsFunction(Flags(b))
    ensures HasBlock(b)
  {}

  lemma RegexHeader(b: seq<u8>, size: u16, refs: u16, flags: u16)
    requires |b| >= 8 && b[..6] == Half(size) + Half(refs) + Half(flags)
    ensures SizeOf(b) == 8 * size && Refs(b) == refs && Flags(b) == flags
  {
    var h := Half(size) + Half(refs) + Half(flags);
    assert forall k :: 0 <= k < 6 ==> b[k] == b[..6][k] == h[k];
    assert Get16(b, 0) == Get16(Half(size), 0);
    assert Get16(b, 2) == Get16(Half(refs), 0);
    assert Get16(b, 4) == Get16(Half(flags), 0);
  }

  lemma EmittedBlock(b: seq<u8>, c: Code)
    requires c.Function? && Emitted(b, c)
    ensures HasBlock(b) && SizeOf(b) == |c.block| && IsFunction(Flags(b))
    ensures b[..|c.block|] == PutSubs(c.block, Offsets(c.subs, |c.block|)) && ValidFunction(b[..|c.block|])
    ensures SubCount(b[..|c.block|]) == |c.subs|
  {
    var n := |c.block|;
    ValidSize(c.block);
    hide ValidFunction, PutSubs, SubCount, Flags, SizeOf;
    PutSubsAt(c.block, Offsets(c.subs, n));
    LayoutKept(c.block, b[..n]);
    PrefixHeader(b, n);
    ValidSize(b[..n]);
  }

  lemma ValidSize(b: seq<u8>)
    requires ValidFunction(b)
    ensures |b| == SizeOf(b) && |b| >= 12 && IsFunction(Flags(b))
  {}

  lemma EmittedHead(b: seq<u8>, c: Code)
    requires Emitted(b, c)
    ensures HasBlock(b)
  {
    hide HasBlock;
    match c
    case Regex(_, _) => EmittedRegex(b, c);
    case Function(_, _) => EmittedBlock(b, c);
  }

  lemma {:induction false} WalkableAppend(x: seq<u8>, y: seq<u8>)
    requires Walkable(x) && Walkable(y)
    ensures Walkable(x + y)
  {
    if x == [] {
      assert x + y == y;
    } else {
      FirstBlock(x, y);
      WalkableAppend(x[SizeOf(x)..], y);
    }
  }

  // The first block of x is the first block of x + y.
  lemma FirstBlock(x: seq<u8>, y: seq<u8>)
    requires HasBlock(x)
    ensures HasBlock(x + y) && SizeOf(x + y) == SizeOf(x)
    ensures (x + y)[..SizeOf(x)] == x[..SizeOf(x)] && (x + y)[SizeOf(x)..] == x[SizeOf(x)..] + y
  {
    PrefixHeader(x + y, |x|);
    hide ValidFunction;
    assert (x + y)[..|x|] == x;
    assert (x + y)[..SizeOf(x)] == x[..SizeOf(x)];
    assert (x + y)[SizeOf(x)..] == x[SizeOf(x)..] + y;
  }

  lemma {:induction false} PatchAppend(x: seq<u8>, y: seq<u8>, p: Patch)
    requires Walkable(x)
    ensures PatchBlocks(x + y, p) == PatchBlocks(x, p) + PatchBlocks(y, p)
  {
    hide PatchBlock, ValidFunction;
    if x == [] {
      assert x + y == y;
    } else {
      FirstBlock(x, y);
      PatchAppend(x[SizeOf(x)..], y, p);
    }
  }

  lemma {:induction false} StartsAppend(x: seq<u8>, y: seq<u8>, base: nat)
    requires Walkable(x)
    ensures Starts(x + y, base) == Starts(x, base) + Starts(y, base + |x|)
  {
    hide *;
    WalkableStep(x);
    if x == [] {
      assert x + y == y;
      StartsEmpty(base);
    } else {
      var n := SizeOf(x);
      FirstBlock(x, y);
      StartsHead(x, base);
      StartsHead(x + y, base);
      StartsAppend(x[n..], y, base + n);
      StartsRegroup(x, y, x[n..], base, n);
    }
  }

  lemma WalkableStep(x: seq<u8>)
    requires Walkable(x)
    ensures x != [] ==> HasBlock(x) && |x| >= 8 && 0 < SizeOf(x) <= |x| && Walkable(x[SizeOf(x)..])
  {}

  lemma StartsEmpty(base: nat)
    ensures Starts([], base) == []
  {}

  lemma Regroup<T>(a: seq<T>, b: seq<T>, c: seq<T>)
    ensures a + (b + c) == (a + b) + c
  {}

  lemma StartsRegroup(x: seq<u8>, y: seq<u8>, rest: seq<u8>, base: nat, n: nat)
    requires n + |rest| == |x|
    requires Starts(x, base) == [base] + Starts(rest, base + n)
    requires Starts(x + y, base) == [base] + Starts(rest + y, base + n)
    requires Starts(rest + y, base + n) == Starts(rest, base + n) + Starts(y, base + n + |rest|)
    ensures Starts(x + y, base) == Starts(x, base) + Starts(y, base + |x|)
  {
    hide Starts;
    assert base + n + |rest| == base + |x|;
    Regroup([base], Starts(rest, base + n), Starts(y, base + |x|));
  }

  lemma StartsHead(b: seq<u8>, base: nat)
    requires HasBlock(b)
    ensures Starts(b, base) == [base] + Starts(b[SizeOf(b)..], base + SizeOf(b))
  {
    hide HasBlock;
  }

  lemma StartsSplit(b: seq<u8>, n: nat, base: nat)
    requires n <= |b| && Walkable(b[..n])
    ensures Starts(b, base) == Starts(b[..n], base) + Starts(b[n..], base + n)
  {
    hide *;
    var x, y := b[..n], b[n..];
    assert b == x + y;
    StartsAppend(x, y, base);
  }

  lemma PatchSplit(b: seq<u8>, n: nat, p: Patch)
    requires n <= |b| && Walkable(b[..n])
    ensures PatchBlocks(b, p)[..n] == PatchBlocks(b[..n], p)
    ensures PatchBlocks(b, p)[n..] == PatchBlocks(b[n..], p)
  {
    hide *;
    var x, y := b[..n], b[n..];
    assert b == x + y;
    PatchAppend(x, y, p);
  }

  lemma EmittedWalkable(b: seq<u8>, c: Code)
    requires Emitted(b, c)
    ensures Walkable(b)
    decreases c, 1
  {
    EmittedHead(b, c);
    match c
    case Regex(_, _) =>
      EmittedRegex(b, c);
      assert b[SizeOf(b)..] == [];
    case Function(block, subs) =>
      EmittedBlock(b, c);
      EmittedSubsWalkable(b[|block|..], subs);
  }

  lemma EmittedSubsWalkable(b: seq<u8>, subs: seq<Code>)
    requires EmittedSubs(b, subs)
    ensures Walkable(b)
    decreases subs, 0
  {
    if subs != [] {
      if subs[0].SelfRef? {
        EmittedSubsWalkable(b, subs[1..]);
      } else {
        var n := Length(subs[0]);
        EmittedWalkable(b[..n], subs[0]);
        EmittedSubsWalkable(b[n..], subs[1..]);
        assert b == b[..n] + b[n..];
        WalkableAppend(b[..n], b[n..]);
      }
    }
  }

  lemma PatchedOffsets(subs: seq<Code>, pos: nat, p: Patch)
    requires pos + LengthSubs(subs) < 0x1_0000_0000
    ensures LengthSubs(PatchSubs(subs, p)) == LengthSubs(subs)
    ensures Offsets(PatchSubs(subs, p), pos) == Offsets(subs, pos)
    decreases subs
  {
    PatchedLengthSubs(subs, p);
    if subs != [] {
      SelfKept(subs[0], p);
      PatchedLength(subs[0], p);
      PatchedLengthSubs(subs[1..], p);
      assert PatchSubs(subs, p)[1..] == PatchSubs(subs[1..], p);
      PatchedOffsets(subs[1..], if subs[0].SelfRef? then pos else pos + Length(subs[0]), p);
    }
  }

  // Patching the flat form block by block gives the flat form of the patched tree.
  lemma WalkIsRecursion(b: seq<u8>, c: Code, p: Patch)
    requires Emitted(b, c)
    ensures Emitted(PatchBlocks(b, p), PatchCode(c, p))
    decreases c, 1
  {
    EmittedHead(b, c);
    PatchedLength(c, p);
    match c
    case Regex(_, _) =>
      EmittedRegex(b, c);
      assert b[..|b|] == b && b[|b|..] == [];
      assert !ValidFunction(b) by { if ValidFunction(b) { ValidSize(b); } }
      assert PatchBlocks(b, p) == b;
    case Function(block, subs) =>
      EmittedBlock(b, c);
      WalkFunction(b, c, p);
      WalkIsRecursionSubs(b[|block|..], subs, p);
  }

  lemma WalkFunction(b: seq<u8>, c: Code, p: Patch)
    requires c.Function? && Emitted(b, c)
    requires HasBlock(b) && SizeOf(b) == |c.block|
    requires b[..|c.block|] == PutSubs(c.block, Offsets(c.subs, |c.block|)) && ValidFunction(b[..|c.block|])
    ensures ValidFunction(ApplyPatch(c.block, p)) && |ApplyPatch(c.block, p)| == |c.block|
    ensures SubCount(ApplyPatch(c.block, p)) == |PatchSubs(c.subs, p)|
    ensures LengthSubs(PatchSubs(c.subs, p)) == LengthSubs(c.subs)
    ensures PatchBlocks(b, p)[..|c.block|] == PutSubs(ApplyPatch(c.block, p), Offsets(PatchSubs(c.subs, p), |c.block|))
    ensures PatchBlocks(b, p)[|c.block|..] == PatchBlocks(b[|c.block|..], p)
  {
    var offs := Offsets(c.subs, |c.block|);
    PatchedOffsets(c.subs, |c.block|, p);
    hide ApplyPatch, PutSubs, ValidFunction, SubCount, Offsets, Length, Emitted;
    PatchPutSubs(c.block, p, offs);
    assert PatchBlock(b[..|c.block|], p) == PutSubs(ApplyPatch(c.block, p), offs);
  }

  lemma WalkIsRecursionSubs(b: seq<u8>, subs: seq<Code>, p: Patch)
    requires EmittedSubs(b, subs)
    ensures EmittedSubs(PatchBlocks(b, p), PatchSubs(subs, p))
    decreases subs, 0
  {
    PatchedLengthSubs(subs, p);
    if subs != [] {
      SelfKept(subs[0], p);
      assert PatchSubs(subs, p)[1..] == PatchSubs(subs[1..], p);
      if subs[0].SelfRef? {
        WalkIsRecursionSubs(b, subs[1..], p);
      } else {
        var n := Length(subs[0]);
        PatchedLength(subs[0], p);
        WalkIsRecursion(b[..n], subs[0], p);
        WalkIsRecursionSubs(b[n..], subs[1..], p);
        EmittedWalkable(b[..n], subs[0]);
        PatchSplit(b, n, p);
      }
    }
  }

  // The walk meets exactly the starts of the recursive writer, in the same order.
  lemma StartsArePreorder(b: seq<u8>, c: Code, base: nat)
    requires Emitted(b, c)
    ensures Starts(b, base) == Preorder(c, base)
    decreases c, 1
  {
    hide *;
    EmittedHead(b, c);
    StartsHead(b, base);
    PreorderHead(c, base);
    match c
    case Regex(_, _) =>
      EmittedRegex(b, c);
      assert b[|b|..] == [];
      StartsEmpty(base + |b|);
    case Function(block, subs) =>
      EmittedBlock(b, c);
      EmittedRest(b, c);
      StartsArePreorderSubs(b[|block|..], subs, base + |block|);
    case SelfRef => NotEmitted(b);
  }

  lemma NotEmitted(b: seq<u8>)
    ensures !Emitted(b, SelfRef)
  {}

  lemma EmittedRest(b: seq<u8>, c: Code)
    requires c.Function? && Emitted(b, c)
    ensures |c.block| <= |b| && EmittedSubs(b[|c.block|..], c.subs)
    ensures |b| == |c.block| + LengthSubs(c.subs) < 0x1_0000_0000
  {}

  lemma PreorderHead(c: Code, base: nat)
    ensures c.Regex? ==> Preorder(c, base) == [base]
    ensures c.Function? ==> Preorder(c, base) == [base] + PreorderSubs(c.subs, base + |c.block|)
  {}

  lemma StartsArePreorderSubs(b: seq<u8>, subs: seq<Code>, base: nat)
    requires EmittedSubs(b, subs)
    ensures Starts(b, base) == PreorderSubs(subs, base)
    decreases subs, 0
  {
    hide *;
    EmittedStep(b, subs);
    PreorderStep(subs, base);
    if subs == [] {
      StartsEmpty(base);
    } else if subs[0].SelfRef? {
      StartsArePreorderSubs(b, subs[1..], base);
    } else {
      var n := Length(subs[0]);
      EmittedWalkable(b[..n], subs[0]);
      StartsArePreorder(b[..n], subs[0], base);
      StartsArePreorderSubs(b[n..], subs[1..], base + n);
      StartsSplit(b, n, base);
    }
  }

  lemma EmittedStep(b: seq<u8>, subs: seq<Code>)
    requires EmittedSubs(b, subs)
    ensures subs == [] ==> b == []
    ensures subs != [] ==>
              if subs[0].SelfRef? then EmittedSubs(b, subs[1..])
              else Length(subs[0]) <= |b| && Emitted(b[..Length(subs[0])], subs[0])
                   && EmittedSubs(b[Length(subs[0])..], subs[1..])
  {}

  lemma EmittedSubsLength(b: seq<u8>, subs: seq<Code>)
    requires EmittedSubs(b, subs)
    ensures |b| == LengthSubs(subs)
  {}

  lemma PreorderStep(subs: seq<Code>, base: nat)
    ensures subs == [] ==> PreorderSubs(subs, base) == []
    ensures subs != [] ==>
              PreorderSubs(subs, base)
              == if subs[0].SelfRef? then PreorderSubs(subs[1..], base)
                 else Preorder(subs[0], base) + PreorderSubs(subs[1..], base + Length(subs[0]))
  {
    hide Preorder, Length;
  }

  // ---- loading what was emitted

  lemma LoadEmitted(b: seq<u8>, tail: seq<u8>, c: Code, get: u32 -> u32)
    requires Emitted(b, c) && ValidCode(c)
    ensures Load(b + tail, get) == Some(PatchCode(c, Resolve(get)))
    decreases c, 1
  {
    hide *;
    EmittedHead(b, c);
    FirstBlock(b, tail);
    match c
    case Regex(flags, pattern) =>
      EmittedRegex(b, c);
      LoadRegex(b, tail, c, get);
    case Function(block, subs) =>
      EmittedBlock(b, c);
      EmittedRest(b, c);
      ValidParts(c);
      var n := |block|;
      var offs := Offsets(subs, n);
      var head := b[..n];
      assert (b + tail)[n..n + LengthSubs(subs)] == b[n..];
      PositiveSize(b);
      LoadSubsEmitted(b + tail, n, subs, get);
      SubWordsOf(block, offs);
      ResolvedCanonical(block, offs, get);
      LoadFunction(b + tail, n, head, PatchSubs(subs, Resolve(get)), get);
      PatchFunction(c, Resolve(get));
    case SelfRef => NotEmitted(b);
  }

  lemma PositiveSize(b: seq<u8>)
    requires HasBlock(b)
    ensures |b| >= 8 && 0 < SizeOf(b) <= |b|
  {}

  lemma ValidParts(c: Code)
    requires c.Function? && ValidCode(c)
    ensures ValidFunction(c.block) && |c.subs| == SubCount(c.block) && ValidSubs(c.subs)
    ensures PutSubs(c.block, Zeros(|c.subs|)) == c.block
  {}

  lemma PatchFunction(c: Code, p: Patch)
    requires c.Function? && ValidFunction(c.block)
    ensures PatchCode(c, p) == Function(ApplyPatch(c.block, p), PatchSubs(c.subs, p))
  {}

  lemma LoadRegex(b: seq<u8>, tail: seq<u8>, c: Code, get: u32 -> u32)
    requires c.Regex? && Emitted(b, c) && |b| >= 8 && 6 + Refs(b) <= |b|
    requires Flags(b) == c.flags && b[6..6 + Refs(b)] == c.pattern
    ensures Load(b + tail, get) == Some(PatchCode(c, Resolve(get)))
  {
    PrefixHeader(b + tail, |b|);
    assert (b + tail)[..|b|] == b;
    assert (b + tail)[6..6 + Refs(b)] == b[6..6 + Refs(b)];
  }

  lemma LoadFunction(b: seq<u8>, n: nat, head: seq<u8>, subs: seq<Code>, get: u32 -> u32)
    requires |b| >= 8 && SizeOf(b) == n <= |b| && b[..n] == head && ValidFunction(head)
    requires LoadSubs(b, SubWords(head), get) == Some(subs)
    ensures Load(b, get) == Some(Function(ResolvedBlock(head, get), subs))
  {
    ValidSize(head);
    PrefixHeader(b, n);
    hide ValidFunction, LoadSubs, SubWords, ResolvedBlock;
  }

  // Reading the references of a block back gives what was stored.
  lemma SubWordsOf(block: seq<u8>, offs: seq<u32>)
    requires ValidFunction(block) && |offs| == SubCount(block)
    ensures ValidFunction(PutSubs(block, offs)) && SubWords(PutSubs(block, offs)) == offs
  {
    hide ValidFunction, PutSubs, SubCount, SubStart, GetWord;
    PutSubsAt(block, offs);
    LayoutKept(block, PutSubs(block, offs));
  }

  // Resolving the literals of a stored block, with the references taken out again.
  lemma ResolvedCanonical(block: seq<u8>, offs: seq<u32>, get: u32 -> u32)
    requires ValidFunction(block) && |offs| == SubCount(block) && PutSubs(block, Zeros(|offs|)) == block
    ensures ValidFunction(PutSubs(block, offs))
    ensures ResolvedBlock(PutSubs(block, offs), get) == ApplyPatch(block, Resolve(get))
  {
    hide ValidFunction, PutSubs, SubCount, ApplyPatch, Zeros, Resolve;
    var p := Resolve(get);
    PutSubsAt(block, offs);
    LayoutKept(block, PutSubs(block, offs));
    PatchPutSubs(block, p, offs);
    PatchPutSubs(block, p, Zeros(|offs|));
    PutSubsTwice(ApplyPatch(block, p), offs, Zeros(|offs|));
  }

  lemma LoadSubsEmitted(b: seq<u8>, pos: nat, subs: seq<Code>, get: u32 -> u32)
    requires 0 < pos && pos + LengthSubs(subs) <= |b| && pos + LengthSubs(subs) < 0x1_0000_0000
    requires EmittedSubs(b[pos..pos + LengthSubs(subs)], subs) && ValidSubs(subs)
    ensures LoadSubs(b, Offsets(subs, pos), get) == Some(PatchSubs(subs, Resolve(get)))
    decreases subs, 0
  {
    hide *;
    var region := b[pos..pos + LengthSubs(subs)];
    EmittedStep(region, subs);
    OffsetsStep(subs, pos);
    ValidSubsStep(subs);
    LoadSubsStep(b, Offsets(subs, pos), get);
    PatchSubsStep(subs, Resolve(get));
    if subs == [] {
    } else if subs[0].SelfRef? {
      LoadSubsEmitted(b, pos, subs[1..], get);
    } else {
      var n := Length(subs[0]);
      assert region[..n] == b[pos..pos + n];
      assert region[n..] == b[pos + n..pos + LengthSubs(subs)];
      assert b[pos..] == region[..n] + b[pos + n..];
      LoadEmitted(region[..n], b[pos + n..], subs[0], get);
      LoadSubsEmitted(b, pos + n, subs[1..], get);
    }
  }

  lemma ValidSubsStep(subs: seq<Code>)
    requires ValidSubs(subs)
    ensures subs != [] ==> ValidSubs(subs[1..]) && (!subs[0].SelfRef? ==> ValidCode(subs[0]))
  {}

  lemma PatchSubsStep(subs: seq<Code>, p: Patch)
    ensures subs == [] ==> PatchSubs(subs, p) == []
    ensures subs != [] ==>
              PatchSubs(subs, p) == [if subs[0].SelfRef? then SelfRef else PatchCode(subs[0], p)] + PatchSubs(subs[1..], p)
  {
    hide PatchCode;
  }

  lemma LoadSubsStep(b: seq<u8>, offs: seq<u32>, get: u32 -> u32)
    ensures offs == [] ==> LoadSubs(b, offs, get) == Some([])
    ensures offs != [] && offs[0] == 0 && LoadSubs(b, offs[1..], get).Some? ==>
              LoadSubs(b, offs, get) == Some([SelfRef] + LoadSubs(b, offs[1..], get).value)
    ensures offs != [] && 0 < offs[0] <= |b| && Load(b[offs[0]..], get).Some? && LoadSubs(b, offs[1..], get).Some? ==>
              LoadSubs(b, offs, get) == Some([Load(b[offs[0]..], get).value] + LoadSubs(b, offs[1..], get).value)
  {
    hide Load;
  }

  lemma OffsetsStep(subs: seq<Code>, pos: nat)
    requires pos + LengthSubs(subs) < 0x1_0000_0000
    ensures subs == [] ==> Offsets(subs, pos) == []
    ensures subs != [] ==>
              && (subs[0].SelfRef? ==> LengthSubs(subs) == LengthSubs(subs[1..]) && Offsets(subs, pos) == [0] + Offsets(subs[1..], pos))
              && (!subs[0].SelfRef? ==> LengthSubs(subs) == Length(subs[0]) + LengthSubs(subs[1..])
                                        && Offsets(subs, pos) == [pos] + Offsets(subs[1..], pos + Length(subs[0])))
  {}

  // ---- values

  const EMPTY: u32 := 8
  const BIGINT_ZERO: u32 := 6

  predicate IsString(v: u32) { v % 4 == 1 }
  predicate IsFloat(v: u32) { v % 8 == 2 }
  predicate IsBigint(v: u32) { v % 8 == 6 }

  // What the literal pool accepts.
  predicate IsPooled(v: u32) {
    IsString(v) || (IsBigint(v) && v != BIGINT_ZERO) || IsFloat(v)
  }

  // What jerry_snapshot_set_offsets looks up in the map of the pool.
  predicate IsLookedUp(v: u32) {
    IsString(v) || IsBigint(v) || IsFloat(v)
  }

  // Every constant of every function satisfies k, every trailing value satisfies t.
  ghost predicate Over(c: Code, k: u32 -> bool, t: u32 -> bool)
    decreases c, 1
  {
    match c
    case Regex(_, _) => true
    case SelfRef => true
    case Function(block, subs) => BlockOver(block, k, t) && OverSubs(subs, k, t)
  }

  ghost predicate OverSubs(subs: seq<Code>, k: u32 -> bool, t: u32 -> bool)
    decreases subs, 0
  {
    subs != [] ==> Over(subs[0], k, t) && OverSubs(subs[1..], k, t)
  }

  ghost predicate BlockOver(block: seq<u8>, k: u32 -> bool, t: u32 -> bool) {
    ValidFunction(block) ==>
      && RunOver(block, ConstStart(block), ConstEnd(block), k)
      && RunOver(block, TailStart(block), Trailing(block), t)
  }

  // Passes that agree on the values present do the same.
  lemma PatchSame(c: Code, k: u32 -> bool, t: u32 -> bool, p: Patch, q: Patch)
    requires Over(c, k, t) && p.unshare == q.unshare
    requires forall v :: k(v) ==> p.consts(v) == q.consts(v)
    requires forall v :: t(v) ==> p.trailing(v) == q.trailing(v)
    ensures PatchCode(c, p) == PatchCode(c, q)
    decreases c, 1
  {
    hide ValidFunction, ApplyPatch, GetWord, ConstStart, ConstEnd, TailStart, Trailing;
    match c
    case Regex(_, _) =>
    case SelfRef =>
    case Function(block, subs) =>
      if ValidFunction(block) { BlockSame(block, k, t, p, q); }
      PatchSameSubs(subs, k, t, p, q);
  }

  lemma BlockSame(block: seq<u8>, k: u32 -> bool, t: u32 -> bool, p: Patch, q: Patch)
    requires ValidFunction(block) && BlockOver(block, k, t) && p.unshare == q.unshare
    requires forall v :: k(v) ==> p.consts(v) == q.consts(v)
    requires forall v :: t(v) ==> p.trailing(v) == q.trailing(v)
    ensures ApplyPatch(block, p) == ApplyPatch(block, q)
  {
    Bounds(block);
    hide ValidFunction, ApplyPatch, GetWord, ConstStart, ConstEnd, TailStart, Trailing, HasHeader;
    PatchAgree(block, p, q);
  }

  lemma PatchSameSubs(subs: seq<Code>, k: u32 -> bool, t: u32 -> bool, p: Patch, q: Patch)
    requires OverSubs(subs, k, t) && p.unshare == q.unshare
    requires forall v :: k(v) ==> p.consts(v) == q.consts(v)
    requires forall v :: t(v) ==> p.trailing(v) == q.trailing(v)
    ensures PatchSubs(subs, p) == PatchSubs(subs, q)
    decreases subs, 0
  {
    if subs != [] {
      PatchSame(subs[0], k, t, p, q);
      PatchSameSubs(subs[1..], k, t, p, q);
    }
  }

  // ---- save, then load

  // The literal storage: the map of the pool sends a value to an offset from which get
  // finds it again.
  ghost predicate Table(m: map<u32, u32>, get: u32 -> u32) {
    forall v :: v in m ==> IsOffset(m[v]) && get(m[v]) == v
  }

  // jerry_snapshot_set_offsets: literals become offsets, the reference counter becomes 1.
  function SetOffsets(m: map<u32, u32>): Patch {
    Patch((x: u32) => if IsLookedUp(x) && x in m then m[x] else x,
          (x: u32) => if x != EMPTY && x in m then m[x] else x, true)
  }

  // Only the reference counter differs from the code that was saved.
  function SetRefs(): Patch {
    Patch((x: u32) => x, (x: u32) => x, true)
  }

  // What the parser produces: no value is a snapshot offset, and the trailing values are
  // strings or absent.
  ghost predicate Parsed(c: Code) {
    Over(c, ParsedConst(), ParsedTrailing())
  }

  ghost function ParsedConst(): u32 -> bool {
    (v: u32) => v % 8 != 7
  }

  ghost function ParsedTrailing(): u32 -> bool {
    (v: u32) => v == 8 || v % 4 == 1
  }

  // Every value that is looked up is in the map.
  ghost predicate LookupsStop(c: Code, m: map<u32, u32>) {
    Over(c, FoundConst(m), FoundTrailing(m))
  }

  ghost function FoundConst(m: map<u32, u32>): u32 -> bool {
    (v: u32) => !IsOffset(v) && (IsLookedUp(v) ==> v in m)
  }

  ghost function FoundTrailing(m: map<u32, u32>): u32 -> bool {
    (v: u32) => v == EMPTY || (IsString(v) && v in m)
  }

  lemma SaveLoad(b: seq<u8>, tail: seq<u8>, c: Code, m: map<u32, u32>, get: u32 -> u32)
    requires Emitted(b, c) && ValidCode(c) && Table(m, get) && LookupsStop(c, m)
    ensures Load(PatchBlocks(b, SetOffsets(m)) + tail, get) == Some(PatchCode(c, SetRefs()))
  {
    hide *;
    WalkIsRecursion(b, c, SetOffsets(m));
    PatchedValid(c, SetOffsets(m));
    LoadEmitted(PatchBlocks(b, SetOffsets(m)), tail, PatchCode(c, SetOffsets(m)), get);
    PatchTwice(c, SetOffsets(m), Resolve(get));
    SetAndResolve(c, m, get);
  }

  lemma SetAndResolve(c: Code, m: map<u32, u32>, get: u32 -> u32)
    requires Table(m, get) && LookupsStop(c, m)
    ensures PatchCode(c, Then(SetOffsets(m), Resolve(get))) == PatchCode(c, SetRefs())
  {
    hide PatchCode, Over, IsOffset, IsLookedUp, IsString;
    var p := Then(SetOffsets(m), Resolve(get));
    forall v | FoundConst(m)(v) ensures p.consts(v) == SetRefs().consts(v) {
      OffsetIsNoLiteral(v);
    }
    forall v | FoundTrailing(m)(v) ensures p.trailing(v) == SetRefs().trailing(v) {
      OffsetIsNoLiteral(v);
    }
    PatchSame(c, FoundConst(m), FoundTrailing(m), p, SetRefs());
  }

  lemma OffsetIsNoLiteral(v: u32)
    ensures IsOffset(v) ==> !IsLookedUp(v) && v != EMPTY
    ensures IsString(v) ==> IsLookedUp(v)
  {}

  // ---- the pool of a tree holds all that is looked up, except the zero bigint

  lemma OverWeaken(c: Code, k: u32 -> bool, t: u32 -> bool, k2: u32 -> bool, t2: u32 -> bool)
    requires Over(c, k, t)
    requires forall v :: k(v) ==> k2(v)
    requires forall v :: t(v) ==> t2(v)
    ensures Over(c, k2, t2)
    decreases c, 1
  {
    hide ValidFunction, GetWord, ConstStart, ConstEnd, TailStart, Trailing;
    match c
    case Regex(_, _) =>
    case SelfRef =>
    case Function(block, subs) => OverWeakenSubs(subs, k, t, k2, t2);
  }

  lemma OverWeakenSubs(subs: seq<Code>, k: u32 -> bool, t: u32 -> bool, k2: u32 -> bool, t2: u32 -> bool)
    requires OverSubs(subs, k, t)
    requires forall v :: k(v) ==> k2(v)
    requires forall v :: t(v) ==> t2(v)
    ensures OverSubs(subs, k2, t2)
    decreases subs, 0
  {
    if subs != [] {
      OverWeaken(subs[0], k, t, k2, t2);
      OverWeakenSubs(subs[1..], k, t, k2, t2);
    }
  }

  ghost function Both(k: u32 -> bool, k2: u32 -> bool): u32 -> bool {
    (v: u32) => k(v) && k2(v)
  }

  lemma OverBoth(c: Code, k: u32 -> bool, t: u32 -> bool, k2: u32 -> bool, t2: u32 -> bool)
    requires Over(c, k, t) && Over(c, k2, t2)
    ensures Over(c, Both(k, k2), Both(t, t2))
    decreases c, 1
  {
    hide ValidFunction, GetWord, ConstStart, ConstEnd, TailStart, Trailing;
    match c
    case Regex(_, _) =>
    case SelfRef =>
    case Function(block, subs) => OverBothSubs(subs, k, t, k2, t2);
  }

  lemma OverBothSubs(subs: seq<Code>, k: u32 -> bool, t: u32 -> bool, k2: u32 -> bool, t2: u32 -> bool)
    requires OverSubs(subs, k, t) && OverSubs(subs, k2, t2)
    ensures OverSubs(subs, Both(k, k2), Both(t, t2))
    decreases subs, 0
  {
    if subs != [] {
      OverBoth(subs[0], k, t, k2, t2);
      OverBothSubs(subs[1..], k, t, k2, t2);
    }
  }

  // m has the values of c that the pool accepts, and only values it accepts.
  ghost predicate IsPool(c: Code, m: map<u32, u32>) {
    && Over(c, PooledIn(m), PooledIn(m))
    && forall v :: v in m ==> IsPooled(v)
  }

  ghost function PooledIn(m: map<u32, u32>): u32 -> bool {
    (v: u32) => IsPooled(v) ==> v in m
  }

  ghost function NotBigintZero(): u32 -> bool {
    (v: u32) => v != 6
  }

  ghost function Anything(): u32 -> bool {
    (v: u32) => true
  }

  // The lookups of jerry_snapshot_set_offsets all end inside the map exactly when the code
  // has no zero bigint among its constants.
  lemma LookupsStopExactly(c: Code, m: map<u32, u32>)
    requires Parsed(c) && IsPool(c, m)
    ensures LookupsStop(c, m) <==> Over(c, NotBigintZero(), Anything())
  {
    hide Over, IsFloat, IsBigint;
    if LookupsStop(c, m) {
      forall v | FoundConst(m)(v) ensures NotBigintZero()(v) { Classes(v); }
      OverWeaken(c, FoundConst(m), FoundTrailing(m), NotBigintZero(), Anything());
    }
    if Over(c, NotBigintZero(), Anything()) {
      OverBoth(c, ParsedConst(), ParsedTrailing(), PooledIn(m), PooledIn(m));
      var k, t := Both(ParsedConst(), PooledIn(m)), Both(ParsedTrailing(), PooledIn(m));
      OverBoth(c, k, t, NotBigintZero(), Anything());
      OverWeaken(c, Both(k, NotBigintZero()), Both(t, Anything()), FoundConst(m), FoundTrailing(m));
    }
  }

  lemma Classes(v: u32)
    ensures v == BIGINT_ZERO ==> IsBigint(v) && !IsString(v) && !IsFloat(v)
  {}

  // One class constructor whose only constant is the literal 0n.
  function BigintZeroCode(): Code {
    Function([2, 0, 1, 0, 0, 0x20, 0, 0, 0, 0, 1, 1, 6, 0, 0, 0], [])
  }

  lemma BigintZeroHeader(block: seq<u8>)
    requires block == BigintZeroCode().block
    ensures |block| == 16 && Flags(block) == 0x2000 && SizeOf(block) == 16
    ensures HeaderSize(0x2000) == 12 && IsFunction(0x2000) && IsConstructor(0x2000)
    ensures !IsWide(0x2000) && !IsMapped(0x2000) && !IsStatic(0x2000)
    ensures block[8] == 0 && block[10] == 1 && block[11] == 1
    ensures Get32(block, 12) == BIGINT_ZERO
  {}

  lemma NarrowFields(b: seq<u8>)
    requires |b| >= 12 && !IsWide(Flags(b))
    ensures |b| >= HeaderSize(Flags(b)) == 12
    ensures Field(b, 2) == b[8] && Field(b, 4) == b[10] && Field(b, 5) == b[11]
  {
    hide Flags, IsWide;
  }

  // A narrow block of a constructor without argument names or sub-functions.
  lemma PlainBlock(b: seq<u8>)
    requires |b| >= 12 && |b| >= HeaderSize(Flags(b)) == 12 && |b| == SizeOf(b)
    requires IsFunction(Flags(b)) && IsConstructor(Flags(b)) && !IsMapped(Flags(b)) && !IsStatic(Flags(b))
    requires Field(b, 2) == 0 && Field(b, 4) == Field(b, 5) && 12 + 4 * Field(b, 4) == |b|
    ensures ValidFunction(b) && ConstStart(b) == 12 && ConstEnd(b) == Field(b, 4) && Trailing(b) == 0
    ensures SubCount(b) == 0 && PutSubs(b, Zeros(0)) == b
  {
    hide Flags, SizeOf, Field, HeaderSize, IsFunction, IsConstructor, IsMapped, IsStatic, HasTaggedLiterals;
    assert Zeros(0) == [];
  }

  lemma BigintZeroBlock(block: seq<u8>)
    requires block == BigintZeroCode().block
    ensures ValidFunction(block) && ConstStart(block) == 12 && ConstEnd(block) == 1 && Trailing(block) == 0
    ensures SubCount(block) == 0 && PutSubs(block, Zeros(0)) == block
    ensures GetWord(block, 12, 0) == BIGINT_ZERO
  {
    hide *;
    BigintZeroHeader(block);
    NarrowFields(block);
    PlainBlock(block);
    FirstWord(block, 12);
  }

  lemma FirstWord(b: seq<u8>, o: nat)
    requires o + 4 <= |b|
    ensures GetWord(b, o, 0) == Get32(b, o)
  {}

  lemma BigintZeroIsNotFound(m: map<u32, u32>)
    requires IsPool(BigintZeroCode(), m)
    ensures ValidCode(BigintZeroCode()) && Parsed(BigintZeroCode()) && !LookupsStop(BigintZeroCode(), m)
    ensures !Over(BigintZeroCode(), NotBigintZero(), Anything())
  {
    hide *;
    var c := BigintZeroCode();
    BigintZeroShape();
    BigintZeroBlock(c.block);
    OneConstant(c.block, ParsedConst(), ParsedTrailing());
    OneConstant(c.block, NotBigintZero(), Anything());
    OverLeaf(c, ParsedConst(), ParsedTrailing());
    OverLeaf(c, NotBigintZero(), Anything());
    ValidLeaf(c);
    ZeroValue();
    ParsedIsOver(c);
    LookupsStopExactly(c, m);
  }

  lemma BigintZeroShape()
    ensures BigintZeroCode().Function? && BigintZeroCode().subs == []
  {}

  lemma OneConstant(b: seq<u8>, k: u32 -> bool, t: u32 -> bool)
    requires ValidFunction(b) && ConstStart(b) == 12 && ConstEnd(b) == 1 && Trailing(b) == 0
    ensures |b| >= 16 && (BlockOver(b, k, t) <==> k(GetWord(b, 12, 0)))
  {
    Bounds(b);
    hide ValidFunction, ConstStart, ConstEnd, TailStart, Trailing, GetWord, HasHeader;
  }

  lemma OverLeaf(c: Code, k: u32 -> bool, t: u32 -> bool)
    requires c.Function? && c.subs == []
    ensures Over(c, k, t) <==> BlockOver(c.block, k, t)
  {
    hide BlockOver;
  }

  lemma ValidLeaf(c: Code)
    requires c.Function? && c.subs == [] && ValidFunction(c.block) && SubCount(c.block) == 0
    requires PutSubs(c.block, Zeros(0)) == c.block
    ensures ValidCode(c)
  {
    hide ValidFunction, SubCount, PutSubs;
  }

  lemma ZeroValue()
    ensures ParsedConst()(BIGINT_ZERO) && !NotBigintZero()(BIGINT_ZERO)
  {}

  lemma ParsedIsOver(c: Code)
    ensures Parsed(c) <==> Over(c, ParsedConst(), ParsedTrailing())
  {
    hide Over;
  }

  // ---- merging: offsets of one literal table become offsets of another

  // update_literal_offsets
  function UpdateOffsets(get: u32 -> u32, m: map<u32, u32>): Patch {
    Patch((x: u32) => if IsOffset(x) && get(x) in m then m[get(x)] else x,
          (x: u32) => if IsOffset(x) && get(x) in m then m[get(x)] else x, false)
  }

  ghost function CollectedIn(get: u32 -> u32, m: map<u32, u32>): u32 -> bool {
    (v: u32) => IsOffset(v) ==> get(v) in m
  }

  // Loading updated code from the new table gives what loading the old code gave.
  lemma UpdateKeepsMeaning(c: Code, get: u32 -> u32, m: map<u32, u32>, newGet: u32 -> u32)
    requires Table(m, newGet) && Over(c, CollectedIn(get, m), CollectedIn(get, m))
    ensures PatchCode(PatchCode(c, UpdateOffsets(get, m)), Resolve(newGet)) == PatchCode(c, Resolve(get))
  {
    hide PatchCode, Over, IsOffset;
    var p := Then(UpdateOffsets(get, m), Resolve(newGet));
    PatchTwice(c, UpdateOffsets(get, m), Resolve(newGet));
    PatchSame(c, CollectedIn(get, m), CollectedIn(get, m), p, Resolve(get));
  }

  // ---- collecting over the flat form

  ghost predicate OverBlocks(b: seq<u8>, k: u32 -> bool, t: u32 -> bool) {
    HasBlock(b) ==> BlockOver(b[..SizeOf(b)], k, t) && OverBlocks(b[SizeOf(b)..], k, t)
  }

  lemma {:induction false} OverAppend(x: seq<u8>, y: seq<u8>, k: u32 -> bool, t: u32 -> bool)
    requires Walkable(x)
    ensures OverBlocks(x + y, k, t) <==> OverBlocks(x, k, t) && OverBlocks(y, k, t)
  {
    hide *;
    WalkableStep(x);
    if x == [] {
      assert x + y == y;
      OverEmpty(k, t);
    } else {
      FirstBlock(x, y);
      OverHead(x, k, t);
      OverHead(x + y, k, t);
      OverAppend(x[SizeOf(x)..], y, k, t);
    }
  }

  lemma OverEmpty(k: u32 -> bool, t: u32 -> bool)
    ensures OverBlocks([], k, t)
  {}

  lemma OverHead(b: seq<u8>, k: u32 -> bool, t: u32 -> bool)
    requires HasBlock(b)
    ensures OverBlocks(b, k, t) <==> BlockOver(b[..SizeOf(b)], k, t) && OverBlocks(b[SizeOf(b)..], k, t)
  {
    hide HasBlock, BlockOver;
  }

  lemma OverSplit(b: seq<u8>, n: nat, k: u32 -> bool, t: u32 -> bool)
    requires n <= |b| && Walkable(b[..n])
    ensures OverBlocks(b, k, t) <==> OverBlocks(b[..n], k, t) && OverBlocks(b[n..], k, t)
  {
    hide *;
    assert b == b[..n] + b[n..];
    OverAppend(b[..n], b[n..], k, t);
  }

  lemma OverPutSubs(block: seq<u8>, offs: seq<u32>, k: u32 -> bool, t: u32 -> bool)
    requires ValidFunction(block) && |offs| == SubCount(block)
    ensures BlockOver(PutSubs(block, offs), k, t) <==> BlockOver(block, k, t)
  {
    hide ValidFunction, PutSubs, GetWord, SubCount, ConstStart, ConstEnd, TailStart, Trailing;
    PutSubsAt(block, offs);
    LayoutKept(block, PutSubs(block, offs));
    Bounds(block);
    SameRuns(block, PutSubs(block, offs), k, t);
  }

  lemma SameRuns(b: seq<u8>, c: seq<u8>, k: u32 -> bool, t: u32 -> bool)
    requires ValidFunction(b) && ValidFunction(c) && |b| == |c|
    requires ConstStart(c) == ConstStart(b) && ConstEnd(c) == ConstEnd(b)
    requires TailStart(c) == TailStart(b) && Trailing(c) == Trailing(b)
    requires forall i :: 0 <= i < ConstEnd(b) ==> GetWord(c, ConstStart(b), i) == GetWord(b, ConstStart(b), i)
    requires forall i :: 0 <= i < Trailing(b) ==> GetWord(c, TailStart(b), i) == GetWord(b, TailStart(b), i)
    ensures BlockOver(c, k, t) <==> BlockOver(b, k, t)
  {
    Bounds(b);
    Bounds(c);
    hide ValidFunction, HasHeader, GetWord, ConstStart, ConstEnd, TailStart, Trailing;
  }

  // What holds of all the values met by the walk holds of the tree, and back.
  lemma OverWalk(b: seq<u8>, c: Code, k: u32 -> bool, t: u32 -> bool)
    requires Emitted(b, c)
    ensures OverBlocks(b, k, t) <==> Over(c, k, t)
    decreases c, 1
  {
    hide *;
    EmittedHead(b, c);
    PositiveSize(b);
    OverHead(b, k, t);
    OverNode(c, k, t);
    match c
    case Regex(_, _) =>
      EmittedRegex(b, c);
      assert b[|b|..] == [];
      OverEmpty(k, t);
      RegexOver(b, k, t) by { EmittedFlags(b, c); }
    case Function(block, subs) =>
      EmittedBlock(b, c);
      EmittedRest(b, c);
      EmittedShape(b, c);
      OverPutSubs(block, Offsets(subs, |block|), k, t);
      OverWalkSubs(b[|block|..], subs, k, t);
    case SelfRef => NotEmitted(b);
  }

  lemma EmittedShape(b: seq<u8>, c: Code)
    requires c.Function? && Emitted(b, c)
    ensures ValidFunction(c.block) && |c.subs| == SubCount(c.block)
  {}

  lemma OverNode(c: Code, k: u32 -> bool, t: u32 -> bool)
    ensures c.Regex? ==> Over(c, k, t)
    ensures c.Function? ==> (Over(c, k, t) <==> BlockOver(c.block, k, t) && OverSubs(c.subs, k, t))
  {
    hide BlockOver;
  }

  lemma RegexOver(b: seq<u8>, k: u32 -> bool, t: u32 -> bool)
    requires |b| >= 8 && SizeOf(b) == |b| && !IsFunction(Flags(b))
    ensures BlockOver(b[..SizeOf(b)], k, t)
  {
    assert b[..|b|] == b;
    if ValidFunction(b) { ValidSize(b); }
  }

  lemma OverWalkSubs(b: seq<u8>, subs: seq<Code>, k: u32 -> bool, t: u32 -> bool)
    requires EmittedSubs(b, subs)
    ensures OverBlocks(b, k, t) <==> OverSubs(subs, k, t)
    decreases subs, 0
  {
    hide *;
    EmittedStep(b, subs);
    OverSubsStep(subs, k, t);
    if subs == [] {
      OverEmpty(k, t);
    } else if subs[0].SelfRef? {
      OverWalkSubs(b, subs[1..], k, t);
    } else {
      var n := Length(subs[0]);
      EmittedWalkable(b[..n], subs[0]);
      OverWalk(b[..n], subs[0], k, t);
      OverWalkSubs(b[n..], subs[1..], k, t);
      OverSplit(b, n, k, t);
    }
  }

  lemma OverSubsStep(subs: seq<Code>, k: u32 -> bool, t: u32 -> bool)
    ensures subs == [] ==> OverSubs(subs, k, t)
    ensures subs != [] && subs[0].SelfRef? ==> (OverSubs(subs, k, t) <==> OverSubs(subs[1..], k, t))
    ensures subs != [] && !subs[0].SelfRef? ==> (OverSubs(subs, k, t) <==> Over(subs[0], k, t) && OverSubs(subs[1..], k, t))
  {}
}
