// When the writer refuses some code, and how much room it needs (snapshot_add_compiled_code).
module SnapshotRoom {
  import opened Bytes
  import opened Layout
  import opened Snapshot
  import opened SnapshotPasses
  import opened SnapshotWriter
  import opened SnapshotStray

  // Some node has bit 6 in its flags: tagged template literals in a function, the s flag in a
  // regular expression.
  predicate Tagged(c: Code)
    decreases c, 1
  {
    match c
    case Regex(flags, _) => HasTaggedLiterals(flags)
    case SelfRef => false
    case Function(block, subs) => (|block| >= 8 && HasTaggedLiterals(Flags(block))) || TaggedSubs(subs)
  }

  predicate TaggedSubs(subs: seq<Code>)
    decreases subs, 0
  {
    subs != [] && (Tagged(subs[0]) || TaggedSubs(subs[1..]))
  }

  // The node that is written last.
  function LastOf(c: Code): Code
    decreases c, 1
  {
    match c
    case Regex(_, _) => c
    case SelfRef => c
    case Function(_, subs) => LastOfSubs(c, subs)
  }

  function LastOfSubs(before: Code, subs: seq<Code>): Code
    decreases subs, 0
  {
    if subs == [] then before
    else if subs[0].SelfRef? then LastOfSubs(before, subs[1..])
    else LastOfSubs(LastOf(subs[0]), subs[1..])
  }

  // The padding after a pattern; it is never written.
  function Padding(c: Code): (p: nat)
    ensures p < 8
  {
    if c.Regex? then AlignUp(6 + |c.pattern|) - (6 + |c.pattern|) else 0
  }

  // The size of the node itself.
  function Own(c: Code): nat {
    match c
    case Regex(_, pattern) => AlignUp(6 + |pattern|)
    case SelfRef => 0
    case Function(block, _) => |block|
  }

  // Where the last byte that is written ends.
  function Extent(c: Code, off: nat): int {
    off + Length(c) - Padding(LastOf(c))
  }

  // The nodes in the order in which they are written.
  function Nodes(c: Code): seq<Code>
    decreases c, 1
  {
    match c
    case Regex(_, _) => [c]
    case SelfRef => []
    case Function(_, subs) => [c] + NodesOf(subs)
  }

  function NodesOf(subs: seq<Code>): seq<Code>
    decreases subs, 0
  {
    if subs == [] then [] else Nodes(subs[0]) + NodesOf(subs[1..])
  }

  lemma {:induction false} AnyAre(c: Code)
    ensures AnyRegex(c) <==> exists n :: n in Nodes(c) && n.Regex?
    ensures AnyClass(c) <==> exists n :: n in Nodes(c) && n.Function? && |n.block| >= 8 && Get16(n.block, 4) / 0x1000 == 2
    decreases c, 1
  {
    match c
    case Regex(_, _) =>
      assert c in Nodes(c);
    case SelfRef =>
    case Function(_, subs) =>
      AnyAreOf(subs);
      assert Nodes(c)[0] == c;
  }

  lemma {:induction false} AnyAreOf(subs: seq<Code>)
    ensures AnyRegexSubs(subs) <==> exists n :: n in NodesOf(subs) && n.Regex?
    ensures AnyClassSubs(subs) <==> exists n :: n in NodesOf(subs) && n.Function? && |n.block| >= 8 && Get16(n.block, 4) / 0x1000 == 2
    decreases subs, 0
  {
    if subs != [] {
      AnyAre(subs[0]);
      AnyAreOf(subs[1..]);
    }
  }

  // What is wrong with a node that is written at start: bit 6 of its flags is looked at before
  // the room.
  function NodeError(n: Code, start: nat, len: nat): Option<SaveError> {
    if start > 0x7fff_ffff then Some(MaximumSize)
    else
      match n
      case Regex(flags, pattern) =>
        if flags / 0x40 % 2 == 1 then Some(TaggedTemplateLiterals)
        else if start + 6 + |pattern| > len then Some(BufferTooSmall) else None
      case Function(block, _) =>
        if |block| >= 8 && Get16(block, 4) / 0x40 % 2 == 1 then Some(TaggedTemplateLiterals)
        else if start + |block| > len then Some(BufferTooSmall) else None
      case SelfRef => None
  }

  function FirstError(nodes: seq<Code>, starts: seq<nat>, len: nat): Option<SaveError> {
    if nodes == [] || starts == [] then None
    else if NodeError(nodes[0], starts[0], len).Some? then NodeError(nodes[0], starts[0], len)
    else FirstError(nodes[1..], starts[1..], len)
  }

  // ---- steps

  lemma LengthIs(c: Code)
    requires ValidCode(c)
    ensures Length(c) >= 8 && Length(c) == if c.Regex? then AlignUp(6 + |c.pattern|) else |c.block| + LengthSubs(c.subs)
    ensures c.Regex? ==> Extent(c, 0) == 6 + |c.pattern|
    ensures c.Function? ==> LastOf(c) == LastOfSubs(c, c.subs) && Padding(c) == 0
  {
    CodeParts(c);
    hide ValidFunction, SizeOf, Flags, ValidSubs, PutSubs, SubCount, LengthSubs, LastOfSubs;
  }

  lemma TaggedIs(c: Code)
    requires c.Function? ==> |c.block| >= 8
    ensures c.Regex? ==> (Tagged(c) <==> HasTaggedLiterals(c.flags))
    ensures c.Function? ==> (Tagged(c) <==> HasTaggedLiterals(Flags(c.block)) || TaggedSubs(c.subs))
  {
    hide HasTaggedLiterals, Flags, TaggedSubs;
  }

  // The definitions over a list, one step.
  lemma SubsStep(before: Code, subs: seq<Code>, off: nat, len: nat)
    requires ValidSubs(subs)
    ensures subs == [] ==> RefusalSubs(subs, off, len) == None && LengthSubs(subs) == 0 && !TaggedSubs(subs)
    ensures subs == [] ==> LastOfSubs(before, subs) == before
    ensures subs != [] && subs[0].SelfRef? ==>
              && ValidSubs(subs[1..])
              && RefusalSubs(subs, off, len) == RefusalSubs(subs[1..], off, len)
              && LengthSubs(subs) == LengthSubs(subs[1..]) && TaggedSubs(subs) == TaggedSubs(subs[1..])
              && LastOfSubs(before, subs) == LastOfSubs(before, subs[1..])
    ensures subs != [] && !subs[0].SelfRef? ==>
              && ValidSubs(subs[1..]) && ValidCode(subs[0])
              && RefusalSubs(subs, off, len)
                 == (if Refusal(subs[0], off, len).Some? then Refusal(subs[0], off, len)
                     else RefusalSubs(subs[1..], off + Length(subs[0]), len))
              && LengthSubs(subs) == Length(subs[0]) + LengthSubs(subs[1..])
              && TaggedSubs(subs) == (Tagged(subs[0]) || TaggedSubs(subs[1..]))
              && LastOfSubs(before, subs) == LastOfSubs(LastOf(subs[0]), subs[1..])
  {
    hide Refusal, Length, LastOf, ValidCode;
  }

  // What comes after a padded pattern is longer than the padding.
  lemma {:induction false} LaterIsLonger(before: Code, subs: seq<Code>)
    requires ValidSubs(subs)
    ensures Padding(LastOfSubs(before, subs)) <= LengthSubs(subs) + Padding(before)
    ensures Own(LastOfSubs(before, subs)) <= LengthSubs(subs) + Own(before)
    decreases subs
  {
    hide *;
    SubsStep(before, subs, 0, 0);
    if subs != [] {
      if subs[0].SelfRef? {
        LaterIsLonger(before, subs[1..]);
      } else {
        LengthIs(subs[0]);
        OwnIsPart(subs[0]);
        LaterIsLonger(LastOf(subs[0]), subs[1..]);
      }
    }
  }

  lemma OwnIsPart(c: Code)
    requires ValidCode(c)
    ensures Own(LastOf(c)) <= Length(c)
    decreases c
  {
    hide *;
    LengthIs(c);
    CodeParts(c);
    OwnIs(c);
    if c.Function? {
      LaterIsLonger(c, c.subs);
    }
  }

  lemma OwnIs(c: Code)
    ensures c.Regex? ==> LastOf(c) == c && Own(c) == AlignUp(6 + |c.pattern|)
    ensures c.Function? ==> Own(c) == |c.block|
  {}

  // ---- the error is that of the first node, in writing order, with one

  lemma {:induction false} FirstErrorAppend(a: seq<Code>, b: seq<Code>, p: seq<nat>, q: seq<nat>, len: nat)
    requires |a| == |p|
    ensures FirstError(a + b, p + q, len)
            == if FirstError(a, p, len).Some? then FirstError(a, p, len) else FirstError(b, q, len)
  {
    hide NodeError;
    if a == [] {
      assert a + b == b && p + q == q;
    } else {
      assert (a + b)[1..] == a[1..] + b && (p + q)[1..] == p[1..] + q;
      FirstErrorAppend(a[1..], b, p[1..], q, len);
    }
  }

  lemma OneError(c: Code, start: nat, len: nat)
    ensures FirstError([c], [start], len) == NodeError(c, start, len)
  {
    hide NodeError;
    assert FirstError([c][1..], [start][1..], len) == None;
  }

  lemma {:induction false} RefusalIsFirst(c: Code, off: nat, len: nat)
    requires ValidCode(c)
    ensures |Nodes(c)| == |Preorder(c, off)| && Refusal(c, off, len) == FirstError(Nodes(c), Preorder(c, off), len)
    decreases c, 1
  {
    hide *;
    CodeParts(c);
    NodesAre(c);
    PreorderHead(c, off);
    RefusalStep(c, off, len);
    OneError(c, off, len);
    NodeErrorIs(c, off, len);
    if c.Function? {
      RefusalIsFirstOf(c.subs, off + |c.block|, len);
      FirstErrorAppend([c], NodesOf(c.subs), [off], PreorderSubs(c.subs, off + |c.block|), len);
    }
  }

  lemma NodesAre(c: Code)
    ensures c.Regex? ==> Nodes(c) == [c]
    ensures c.Function? ==> Nodes(c) == [c] + NodesOf(c.subs)
  {}

  lemma NodesOfStep(subs: seq<Code>)
    ensures subs == [] ==> NodesOf(subs) == []
    ensures subs != [] ==> NodesOf(subs) == if subs[0].SelfRef? then NodesOf(subs[1..]) else Nodes(subs[0]) + NodesOf(subs[1..])
  {}

  lemma NodeErrorIs(c: Code, start: nat, len: nat)
    requires !c.SelfRef? && (c.Function? ==> |c.block| >= 8)
    ensures NodeError(c, start, len)
            == if start > 0x7fff_ffff then Some(MaximumSize)
               else if HasTaggedLiterals(if c.Regex? then c.flags else Flags(c.block)) then Some(TaggedTemplateLiterals)
               else if start + (if c.Regex? then 6 + |c.pattern| else |c.block|) > len then Some(BufferTooSmall)
               else None
  {}

  lemma NoError(len: nat)
    ensures FirstError([], [], len) == None
  {}

  lemma {:induction false} RefusalIsFirstOf(subs: seq<Code>, off: nat, len: nat)
    requires ValidSubs(subs)
    ensures |NodesOf(subs)| == |PreorderSubs(subs, off)|
    ensures RefusalSubs(subs, off, len) == FirstError(NodesOf(subs), PreorderSubs(subs, off), len)
    decreases subs, 0
  {
    hide *;
    SubsStep(SelfRef, subs, off, len);
    NodesOfStep(subs);
    PreorderStep(subs, off);
    NoError(len);
    if subs != [] {
      if subs[0].SelfRef? {
        RefusalIsFirstOf(subs[1..], off, len);
      } else {
        var next := off + Length(subs[0]);
        RefusalIsFirst(subs[0], off, len);
        RefusalIsFirstOf(subs[1..], next, len);
        FirstErrorAppend(Nodes(subs[0]), NodesOf(subs[1..]), Preorder(subs[0], off), PreorderSubs(subs[1..], next), len);
      }
    }
  }

  // ---- the exact answer, for offsets below 2^31

  // Without the bit the code is accepted exactly when all but the last padding has room; with
  // the bit it is refused for it when there is room.
  lemma RefusalExactly(c: Code, off: nat, len: nat)
    requires ValidCode(c) && off + Length(c) <= 0x8000_0000
    ensures !Tagged(c) ==> Refusal(c, off, len) == if Extent(c, off) <= len then None else Some(BufferTooSmall)
    ensures Tagged(c) && off + Length(c) <= len ==> Refusal(c, off, len) == Some(TaggedTemplateLiterals)
    decreases c, 1
  {
    hide *;
    CodeParts(c);
    LengthIs(c);
    TaggedIs(c);
    RefusalStep(c, off, len);
    ExtentIs(c, off);
    ExtentIs(c, 0);
    if c.Function? {
      LaterIsLonger(c, c.subs);
      if off + |c.block| <= len {
        RefusalSubsExactly(c, c.subs, off + |c.block|, len);
      }
    }
  }

  lemma ExtentIs(c: Code, off: nat)
    ensures Extent(c, off) == off + Length(c) - Padding(LastOf(c))
    ensures c.Regex? ==> LastOf(c) == c
  {}

  lemma RefusalSubsExactly(before: Code, subs: seq<Code>, off: nat, len: nat)
    requires ValidSubs(subs) && off + LengthSubs(subs) <= 0x8000_0000 && off - Padding(before) <= len
    ensures !TaggedSubs(subs) ==>
              RefusalSubs(subs, off, len)
              == if off + LengthSubs(subs) - Padding(LastOfSubs(before, subs)) <= len then None else Some(BufferTooSmall)
    ensures TaggedSubs(subs) && off + LengthSubs(subs) <= len ==> RefusalSubs(subs, off, len) == Some(TaggedTemplateLiterals)
    decreases subs, 0
  {
    hide *;
    SubsStep(before, subs, off, len);
    if subs != [] {
      if subs[0].SelfRef? {
        RefusalSubsExactly(before, subs[1..], off, len);
      } else {
        var last := LastOf(subs[0]);
        RefusalExactly(subs[0], off, len);
        ExtentIs(subs[0], off);
        LaterIsLonger(last, subs[1..]);
        if off + Length(subs[0]) - Padding(last) <= len {
          RefusalSubsExactly(last, subs[1..], off + Length(subs[0]), len);
        }
      }
    }
  }

  // ---- the exact condition for acceptance, for all offsets

  // No node has the bit, the last node starts below 2^31, and all but its padding has room.
  lemma AcceptedExactly(c: Code, off: nat, len: nat)
    requires ValidCode(c)
    ensures Refusal(c, off, len).None? <==>
              !Tagged(c) && off + Length(c) - Own(LastOf(c)) <= 0x7fff_ffff && Extent(c, off) <= len
    decreases c, 1
  {
    hide *;
    CodeParts(c);
    LengthIs(c);
    TaggedIs(c);
    RefusalStep(c, off, len);
    ExtentIs(c, off);
    ExtentIs(c, 0);
    OwnIs(c);
    OwnIsPart(c);
    if c.Function? {
      LaterIsLonger(c, c.subs);
      if off <= 0x7fff_ffff && off + |c.block| <= len {
        AcceptedSubsExactly(c, c.subs, off + |c.block|, len);
      }
    }
  }

  lemma AcceptedSubsExactly(before: Code, subs: seq<Code>, off: nat, len: nat)
    requires ValidSubs(subs) && off - Padding(before) <= len && off - Own(before) <= 0x7fff_ffff
    ensures RefusalSubs(subs, off, len).None? <==>
              && !TaggedSubs(subs)
              && off + LengthSubs(subs) - Own(LastOfSubs(before, subs)) <= 0x7fff_ffff
              && off + LengthSubs(subs) - Padding(LastOfSubs(before, subs)) <= len
    decreases subs, 0
  {
    hide *;
    SubsStep(before, subs, off, len);
    if subs != [] {
      if subs[0].SelfRef? {
        AcceptedSubsExactly(before, subs[1..], off, len);
      } else {
        var last := LastOf(subs[0]);
        AcceptedExactly(subs[0], off, len);
        ExtentIs(subs[0], off);
        LaterIsLonger(last, subs[1..]);
        if off + Length(subs[0]) - Padding(last) <= len && off + Length(subs[0]) - Own(last) <= 0x7fff_ffff {
          AcceptedSubsExactly(last, subs[1..], off + Length(subs[0]), len);
        }
      }
    }
  }

  // ---- code that ends beyond the buffer

  // The writer accepts the code after the header of a file.
  ghost predicate Accepted(c: Code, len: nat) {
    Refusal(c, 24, len).None?
  }

  // Where the code area of the file ends.
  function EndsAt(c: Code): nat {
    24 + Length(c)
  }

  lemma {:induction false} LengthUnits(c: Code)
    requires ValidCode(c)
    ensures Length(c) % 8 == 0
    decreases c, 1
  {
    hide *;
    CodeParts(c);
    LengthIs(c);
    if c.Function? {
      LengthSubsUnits(c.subs);
    }
  }

  lemma {:induction false} LengthSubsUnits(subs: seq<Code>)
    requires ValidSubs(subs)
    ensures LengthSubs(subs) % 8 == 0
    decreases subs, 0
  {
    hide *;
    SubsStep(SelfRef, subs, 0, 0);
    if subs != [] {
      LengthSubsUnits(subs[1..]);
      if !subs[0].SelfRef? {
        LengthUnits(subs[0]);
      }
    }
  }

  // The code area of accepted code ends beyond the buffer exactly when only the padding of the
  // last pattern has no room.
  lemma PastBufferExactly(c: Code, len: nat)
    requires ValidCode(c)
    ensures Accepted(c, len) && EndsAt(c) > len <==>
              !Tagged(c) && EndsAt(c) - Own(LastOf(c)) <= 0x7fff_ffff && Extent(c, 24) <= len < EndsAt(c)
  {
    hide *;
    AcceptedIs(c, len);
    AcceptedExactly(c, 24, len);
  }

  // Then the last node is a padded pattern, and the buffer no whole number of units.
  lemma PastBufferNeeds(c: Code, len: nat)
    requires ValidCode(c) && Accepted(c, len) && EndsAt(c) > len
    ensures LastOf(c).Regex? && (6 + |LastOf(c).pattern|) % 8 != 0 && len % 8 != 0 && EndsAt(c) < len + 8
  {
    hide *;
    AcceptedIs(c, len);
    AcceptedExactly(c, 24, len);
    ExtentIs(c, 24);
    LengthUnits(c);
    PaddedRegex(LastOf(c));
  }

  lemma PaddedRegex(c: Code)
    ensures Padding(c) < 8 && (Padding(c) > 0 ==> c.Regex? && (6 + |c.pattern|) % 8 != 0)
  {}

  // ---- the padding of the last pattern is free

  // The bytes of a code area, up to the padding of the last pattern.
  ghost predicate SameButPadding(x: seq<u8>, y: seq<u8>, last: Code)
    requires |x| == |y|
  {
    forall k :: 0 <= k < |x| - Padding(last) ==> x[k] == y[k]
  }

  lemma {:induction false} PaddingIsFree(x: seq<u8>, y: seq<u8>, c: Code)
    requires Emitted(x, c) && ValidCode(c) && |y| == |x| && SameButPadding(x, y, LastOf(c))
    ensures Emitted(y, c)
    decreases c, 1
  {
    hide *;
    CodeParts(c);
    LengthIs(c);
    EmittedLength(x, c);
    ExtentIs(c, 0);
    if c.Regex? {
      RegexPadding(x, y, c);
    } else {
      var n := |c.block|;
      LaterIsLonger(c, c.subs);
      EmittedFunction(x, c);
      RestIsSame(x, y, n, c, LastOf(c));
      PaddingIsFreeSubs(x[n..], y[n..], c, c.subs);
      EmittedWhole(y, c.block, c.subs);
    }
  }

  lemma {:induction false} PaddingIsFreeSubs(x: seq<u8>, y: seq<u8>, before: Code, subs: seq<Code>)
    requires EmittedSubs(x, subs) && ValidSubs(subs) && |y| == |x| && SameButPadding(x, y, LastOfSubs(before, subs))
    ensures EmittedSubs(y, subs)
    decreases subs, 0
  {
    hide *;
    SubsStep(before, subs, 0, 0);
    EmittedStep(x, subs);
    if subs == [] {
      EmittedNone();
      assert y == [];
    } else if subs[0].SelfRef? {
      PaddingIsFreeSubs(x, y, before, subs[1..]);
      EmittedSkip(y, subs);
    } else {
      var n, last := Length(subs[0]), LastOf(subs[0]);
      LaterIsLonger(last, subs[1..]);
      EmittedSubsLength(x, subs);
      FirstIsSame(x, y, n, last, LastOfSubs(last, subs[1..]), LengthSubs(subs[1..]));
      PaddingIsFree(x[..n], y[..n], subs[0]);
      PaddingIsFreeSubs(x[n..], y[n..], last, subs[1..]);
      EmittedCons(y, subs, n);
    }
  }

  lemma RegexPadding(x: seq<u8>, y: seq<u8>, c: Code)
    requires Emitted(x, c) && c.Regex? && |y| == |x| && SameButPadding(x, y, c)
    ensures Emitted(y, c)
  {
    var n := 6 + |c.pattern|;
    assert y[..6] == x[..6] && y[6..n] == x[6..n];
  }

  lemma EmittedFunction(x: seq<u8>, c: Code)
    requires Emitted(x, c) && c.Function?
    ensures ValidFunction(c.block) && |c.subs| == SubCount(c.block) && |c.block| <= |x|
    ensures x[..|c.block|] == PutSubs(c.block, Offsets(c.subs, |c.block|)) && EmittedSubs(x[|c.block|..], c.subs)
  {
    hide ValidFunction, SubCount, PutSubs, Offsets;
  }

  lemma RestIsSame(x: seq<u8>, y: seq<u8>, n: nat, c: Code, last: Code)
    requires |y| == |x| && SameButPadding(x, y, last) && n + Padding(last) <= |x|
    ensures x[..n] == y[..n] && SameButPadding(x[n..], y[n..], last)
  {
    hide Padding;
  }

  lemma FirstIsSame(x: seq<u8>, y: seq<u8>, n: nat, last: Code, end: Code, rest: nat)
    requires |y| == |x| == n + rest && SameButPadding(x, y, end) && Padding(end) <= rest + Padding(last)
    ensures SameButPadding(x[..n], y[..n], last) && SameButPadding(x[n..], y[n..], end)
  {
    hide Padding;
  }

  // A pass keeps the padding of the last pattern.
  lemma {:induction false} LastPatched(c: Code, p: Patch)
    requires ValidCode(c)
    ensures Padding(LastOf(PatchCode(c, p))) == Padding(LastOf(c))
    decreases c, 1
  {
    hide *;
    CodeParts(c);
    LengthIs(c);
    if c.Function? {
      PatchedValid(c, p);
      PatchFunction(c, p);
      LengthIs(PatchCode(c, p));
      LastPatchedSubs(c, PatchCode(c, p), c.subs, p);
    } else {
      PatchedRegex(c, p);
    }
  }

  lemma PatchedRegex(c: Code, p: Patch)
    requires !c.Function?
    ensures PatchCode(c, p) == c
  {}

  lemma {:induction false} LastPatchedSubs(before: Code, after: Code, subs: seq<Code>, p: Patch)
    requires ValidSubs(subs) && Padding(after) == Padding(before)
    ensures Padding(LastOfSubs(after, PatchSubs(subs, p))) == Padding(LastOfSubs(before, subs))
    decreases subs, 0
  {
    hide *;
    PatchedValidSubs(subs, p);
    PatchSubsStep(subs, p);
    SubsStep(before, subs, 0, 0);
    SubsStep(after, PatchSubs(subs, p), 0, 0);
    if subs != [] {
      SelfKept(subs[0], p);
      assert PatchSubs(subs, p)[1..] == PatchSubs(subs[1..], p);
      if subs[0].SelfRef? {
        LastPatchedSubs(before, after, subs[1..], p);
      } else {
        LastPatched(subs[0], p);
        LastPatchedSubs(LastOf(subs[0]), LastOf(PatchCode(subs[0], p)), subs[1..], p);
      }
    }
  }

  // ---- examples: a class with one constant and one regular expression

  function OneRegex(v: u32, flags: u16, pattern: seq<u8>): Code {
    Function([3, 0, 1, 0, 0, 0x20, 0, 0, 0, 0, 1, 2] + Word(v) + [0, 0, 0, 0] + [0, 0, 0, 0], [Regex(flags, pattern)])
  }

  lemma OneRegexHeader(block: seq<u8>, v: u32)
    requires block == OneRegex(v, 0, []).block
    ensures |block| == 24 && Flags(block) == 0x2000 && SizeOf(block) == 24
    ensures HeaderSize(0x2000) == 12 && IsFunction(0x2000) && IsConstructor(0x2000)
    ensures !IsWide(0x2000) && !IsMapped(0x2000) && !IsStatic(0x2000) && !HasTaggedLiterals(0x2000)
    ensures block[8] == 0 && block[10] == 1 && block[11] == 2
    ensures Get32(block, 12) == v && Get32(block, 16) == 0
  {
    hide Word;
    assert block[12..16] == Word(v)[0..4];
    Get32Slice(block, Word(v), 12, 0);
  }

  lemma OneReference(b: seq<u8>)
    requires |b| == 24 == SizeOf(b) && |b| >= HeaderSize(Flags(b)) == 12
    requires IsFunction(Flags(b)) && IsConstructor(Flags(b)) && !IsMapped(Flags(b)) && !IsStatic(Flags(b))
    requires Field(b, 2) == 0 && Field(b, 4) == 1 && Field(b, 5) == 2
    ensures ValidFunction(b) && ConstStart(b) == 12 && ConstEnd(b) == 1 && Trailing(b) == 0 && TailStart(b) == 24
    ensures SubCount(b) == 1 && SubStart(b) == 16 && PutSubs(b, [0]) == Put(b, 16, Word(0))
  {
    hide Flags, SizeOf, Field, HeaderSize, IsFunction, IsConstructor, IsMapped, IsStatic, HasTaggedLiterals, Word;
    assert PutWords(b, 16, []) == b;
  }

  lemma OneRegexValid(v: u32, flags: u16, pattern: seq<u8>)
    requires !IsFunction(flags) && |pattern| < 0x1_0000
    ensures var c := OneRegex(v, flags, pattern);
            ValidCode(c) && Length(c) == 24 + AlignUp(6 + |pattern|) && (Tagged(c) <==> HasTaggedLiterals(flags))
            && LastOf(c) == Regex(flags, pattern)
    ensures var b := OneRegex(v, flags, pattern).block;
            ValidFunction(b) && ConstStart(b) == 12 && ConstEnd(b) == 1 && Trailing(b) == 0 && TailStart(b) == 24
            && |b| == 24 && !IsMapped(Flags(b)) && GetWord(b, 12, 0) == v
  {
    hide *;
    var c := OneRegex(v, flags, pattern);
    OneRegexIs(v, flags, pattern);
    OneRegexHeader(c.block, v);
    NarrowFields(c.block);
    OneReference(c.block);
    WordIsWord(0);
    PutSame(c.block, 16, Word(0));
    OneZero();
    WithOneRegex(c, flags, pattern);
    WordAtIs(c.block, 12, 0);
  }

  lemma WordIsWord(v: u32)
    ensures |Word(v)| == 4 && Get32(Word(v), 0) == v
  {
    hide Word, Get32;
  }

  lemma OneZero()
    ensures Zeros(1) == [0]
  {}

  lemma WithOneRegex(c: Code, flags: u16, pattern: seq<u8>)
    requires c.Function? && c.subs == [Regex(flags, pattern)] && |c.block| == 24 && !HasTaggedLiterals(Flags(c.block))
    requires !IsFunction(flags) && |pattern| < 0x1_0000
    requires ValidFunction(c.block) && SubCount(c.block) == 1 && PutSubs(c.block, Zeros(1)) == c.block
    ensures ValidCode(c) && Length(c) == 24 + AlignUp(6 + |pattern|) && (Tagged(c) <==> HasTaggedLiterals(flags))
    ensures LastOf(c) == Regex(flags, pattern)
  {
    hide *;
    OnlyRegex(c, flags, pattern);
    ValidIs(c);
    CodeParts(c);
    LengthIs(c);
    TaggedIs(c);
  }

  lemma OnlyRegex(before: Code, flags: u16, pattern: seq<u8>)
    requires !IsFunction(flags) && |pattern| < 0x1_0000
    ensures var s := [Regex(flags, pattern)];
            && ValidSubs(s) && LengthSubs(s) == AlignUp(6 + |pattern|) && (TaggedSubs(s) <==> HasTaggedLiterals(flags))
            && LastOfSubs(before, s) == Regex(flags, pattern)
  {
    var s := [Regex(flags, pattern)];
    assert s[1..] == [];
    hide HasTaggedLiterals, IsFunction, AlignUp;
  }

  lemma OneRegexIs(v: u32, flags: u16, pattern: seq<u8>)
    ensures var c := OneRegex(v, flags, pattern);
            c.Function? && c.block == OneRegex(v, 0, []).block && c.subs == [Regex(flags, pattern)]
  {}

  // The class is accepted from 54 bytes and the pattern on, but may need up to 7 bytes more.
  lemma OneRegexRoom(v: u32, flags: u16, pattern: seq<u8>, len: nat)
    requires !IsFunction(flags) && !HasTaggedLiterals(flags) && |pattern| < 0x1_0000
    ensures Accepted(OneRegex(v, flags, pattern), len) <==> 54 + |pattern| <= len
    ensures EndsAt(OneRegex(v, flags, pattern)) == 48 + AlignUp(6 + |pattern|)
    ensures ValidCode(OneRegex(v, flags, pattern))
  {
    hide *;
    OneRegexValid(v, flags, pattern);
    AcceptedExactly(OneRegex(v, flags, pattern), 24, len);
    ExtentIs(OneRegex(v, flags, pattern), 24);
    PaddingOf(flags, pattern);
    AcceptedIs(OneRegex(v, flags, pattern), len);
  }

  lemma AcceptedIs(c: Code, len: nat)
    ensures (Accepted(c, len) <==> Refusal(c, 24, len).None?) && EndsAt(c) == 24 + Length(c)
  {
    hide Refusal, Length;
  }

  lemma UnitsOfSeven()
    ensures AlignUp(7) == 8
  {}

  lemma PaddingOf(flags: u16, pattern: seq<u8>)
    ensures Padding(Regex(flags, pattern)) == AlignUp(6 + |pattern|) - (6 + |pattern|)
    ensures Own(Regex(flags, pattern)) == AlignUp(6 + |pattern|)
  {}

  lemma FlagBits()
    ensures !IsFunction(0) && !IsFunction(0x40) && !HasTaggedLiterals(0) && HasTaggedLiterals(0x40)
  {}

  // The s flag is refused, however large the buffer is.
  lemma SFlagIsRefused(v: u32, pattern: seq<u8>, len: nat)
    requires |pattern| < 0x1_0000 && len >= 24 + 24 + AlignUp(6 + |pattern|)
    ensures Refusal(OneRegex(v, 0x40, pattern), 24, len) == Some(TaggedTemplateLiterals)
    ensures ValidCode(OneRegex(v, 0x40, pattern))
  {
    hide *;
    FlagBits();
    OneRegexValid(v, 0x40, pattern);
    RefusalExactly(OneRegex(v, 0x40, pattern), 24, len);
  }
}
