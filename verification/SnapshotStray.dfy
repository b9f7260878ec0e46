// Words of byte code among the collected literals (ecma_save_literals_add_compiled_code reads
// as many words as there are mapped arguments).
module SnapshotStray {
  import opened Bytes
  import opened Layout
  import opened Snapshot
  import opened SnapshotPasses
  import opened SnapshotCollect

  function LiteralsStop(b: seq<u8>): nat
    requires ValidFunction(b)
  {
    SubStart(b) + 4 * SubCount(b)
  }

  // The arguments are not more than the literals, or there is no byte code to read.
  predicate ArgumentsFit(b: seq<u8>)
    requires ValidFunction(b)
  {
    IsMapped(Flags(b)) ==> Field(b, 1) <= LiteralEnd(b) || LiteralsStop(b) == TailStart(b)
  }

  // In every function.
  predicate Guarded(c: Code)
    decreases c, 1
  {
    match c
    case Regex(_, _) => true
    case SelfRef => true
    case Function(block, subs) => (ValidFunction(block) ==> ArgumentsFit(block)) && GuardedSubs(subs)
  }

  predicate GuardedSubs(subs: seq<Code>)
    decreases subs, 0
  {
    subs != [] ==> Guarded(subs[0]) && GuardedSubs(subs[1..])
  }

  // A constant or a value at the end of some function.
  ghost predicate IsLiteral(c: Code, v: u32) {
    !Over(c, Other(v), Other(v))
  }

  ghost predicate IsLiteralOf(subs: seq<Code>, v: u32) {
    !OverSubs(subs, Other(v), Other(v))
  }

  lemma LiteralNode(c: Code, v: u32)
    requires c.Function? && ValidFunction(c.block)
    ensures ConstStart(c.block) + 4 * ConstEnd(c.block) <= |c.block|
    ensures TailStart(c.block) >= 0 && TailStart(c.block) + 4 * Trailing(c.block) <= |c.block|
    ensures IsLiteral(c, v) <==>
              || InRun(c.block, ConstStart(c.block), ConstEnd(c.block), v)
              || InRun(c.block, TailStart(c.block), Trailing(c.block), v)
              || IsLiteralOf(c.subs, v)
  {
    OverNode(c, Other(v), Other(v));
    BlockOverRuns(c.block, Other(v), Other(v));
    Bounds(c.block);
    hide Over, OverSubs, BlockOver, ValidFunction, HasHeader, ConstStart, ConstEnd, TailStart, Trailing, RunOver;
  }

  lemma LiteralLeaf(c: Code, v: u32)
    requires !c.Function?
    ensures !IsLiteral(c, v) && !Occurs(c, v)
  {}

  lemma LiteralSubs(subs: seq<Code>, v: u32)
    ensures IsLiteralOf(subs, v) <==> subs != [] && (IsLiteral(subs[0], v) || IsLiteralOf(subs[1..], v))
  {
    hide Over;
  }

  lemma {:induction false} LiteralOfAt(subs: seq<Code>, v: u32)
    ensures IsLiteralOf(subs, v) <==> exists i :: 0 <= i < |subs| && IsLiteral(subs[i], v)
  {
    hide IsLiteral, IsLiteralOf;
    LiteralSubs(subs, v);
    if subs != [] {
      LiteralOfAt(subs[1..], v);
      if i :| 0 <= i < |subs[1..]| && IsLiteral(subs[1..][i], v) {
        assert subs[i + 1] == subs[1..][i];
      }
      if i :| 1 <= i < |subs| && IsLiteral(subs[i], v) {
        assert subs[1..][i - 1] == subs[i];
      }
    }
  }

  // ---- the words of the arguments

  lemma WordAtIs(d: seq<u8>, start: nat, i: nat)
    requires start + 4 * i + 4 <= |d|
    ensures GetWord(d, start, i) == Get32(d, start + 4 * i)
  {}

  // An argument word among the references to sub-functions.
  lemma ReferenceWord(b: seq<u8>, j: nat)
    requires ValidFunction(b) && PutSubs(b, Zeros(SubCount(b))) == b
    requires ConstEnd(b) <= j < ConstEnd(b) + SubCount(b)
    ensures ConstStart(b) + 4 * j + 4 <= |b| && GetWord(b, ConstStart(b), j) == 0
  {
    hide *;
    Bounds(b);
    var zeros := Zeros(SubCount(b));
    PutSubsAt(b, zeros);
    ZeroAt(SubCount(b), j - ConstEnd(b));
    WordAtIs(b, SubStart(b), j - ConstEnd(b));
    WordAtIs(b, ConstStart(b), j);
  }

  lemma ZeroAt(n: nat, i: nat)
    requires i < n
    ensures Zeros(n)[i] == 0
  {}

  // An argument word behind the literals, when there is no byte code.
  lemma TailWord(b: seq<u8>, j: nat)
    requires ValidFunction(b) && LiteralsStop(b) == TailStart(b)
    requires ConstEnd(b) + SubCount(b) <= j && ConstStart(b) + 4 * j + 4 <= |b|
    ensures TailStart(b) >= 0 && TailStart(b) + 4 * (j - ConstEnd(b) - SubCount(b)) + 4 <= |b|
    ensures GetWord(b, ConstStart(b), j) == GetWord(b, TailStart(b), j - ConstEnd(b) - SubCount(b))
  {
    hide *;
    Bounds(b);
    StopIs(b);
    var i := j - ConstEnd(b) - SubCount(b);
    WordAtIs(b, TailStart(b), i);
    WordAtIs(b, ConstStart(b), j);
  }

  lemma StopIs(b: seq<u8>)
    requires ValidFunction(b)
    ensures LiteralsStop(b) == SubStart(b) + 4 * SubCount(b)
  {}

  lemma CountsAre(b: seq<u8>)
    requires ValidFunction(b)
    ensures |b| >= HeaderSize(Flags(b)) && SubCount(b) == LiteralEnd(b) - ConstEnd(b) && ConstEnd(b) <= LiteralEnd(b)
    ensures IsMapped(Flags(b)) ==> Field(b, 1) <= Trailing(b)
    ensures LiteralsStop(b) == ConstStart(b) + 4 * LiteralEnd(b)
  {
    hide Flags, Field, IsConstructor;
  }

  lemma FitsIs(b: seq<u8>)
    requires ValidFunction(b)
    ensures |b| >= HeaderSize(Flags(b))
    ensures ArgumentsFit(b) <==> (IsMapped(Flags(b)) ==> Field(b, 1) <= LiteralEnd(b) || LiteralsStop(b) == TailStart(b))
  {
    CountsAre(b);
    hide ValidFunction, Flags, HeaderSize, Field, LiteralEnd, LiteralsStop, TailStart, IsMapped;
  }

  // A mapped argument word that can be a literal is one.
  lemma ArgumentIsLiteral(c: Code, v: u32)
    requires ValidCode(c) && c.Function? && IsPooled(v) && ValidFunction(c.block) && ArgumentsFit(c.block)
    requires IsMapped(Flags(c.block)) && |c.block| >= HeaderSize(Flags(c.block))
    requires InRun(c.block, ConstStart(c.block), Field(c.block, 1), v)
    ensures IsLiteral(c, v)
  {
    hide *;
    ZeroNotPooled();
    ValidParts(c);
    var b := c.block;
    Bounds(b);
    var j := InRunAt(b, ConstStart(b), Field(b, 1), v);
    LiteralNode(c, v);
    CountsAre(b);
    FitsIs(b);
    if j < ConstEnd(b) {
      WordInRun(b, ConstStart(b), ConstEnd(b), j, v);
    } else if j < ConstEnd(b) + SubCount(b) {
      ReferenceWord(b, j);
    } else {
      TailWord(b, j);
      WordInRun(b, TailStart(b), Trailing(b), j - ConstEnd(b) - SubCount(b), v);
    }
  }

  lemma ZeroNotPooled()
    ensures !IsPooled(0)
  {}

  lemma InRunAt(b: seq<u8>, start: nat, n: nat, v: u32) returns (j: nat)
    requires InRun(b, start, n, v)
    ensures j < n && start + 4 * n <= |b| && GetWord(b, start, j) == v
  {
    hide GetWord;
    j :| 0 <= j < n && !Other(v)(GetWord(b, start, j));
  }

  lemma WordInRun(b: seq<u8>, start: nat, n: nat, j: nat, v: u32)
    requires j < n && start + 4 * n <= |b| && GetWord(b, start, j) == v
    ensures InRun(b, start, n, v)
  {
    hide GetWord;
    assert !Other(v)(GetWord(b, start, j));
  }

  // ---- guarded code: what is collected is a literal

  lemma OccursNode(c: Code, v: u32)
    requires c.Function? && ValidFunction(c.block)
    ensures |c.block| >= HeaderSize(Flags(c.block)) && TailStart(c.block) >= 0
    ensures Occurs(c, v) <==>
              || (IsMapped(Flags(c.block)) && InRun(c.block, ConstStart(c.block), Field(c.block, 1), v))
              || InRun(c.block, ConstStart(c.block), ConstEnd(c.block), v)
              || InRun(c.block, TailStart(c.block), Trailing(c.block), v)
              || exists i :: 0 <= i < |c.subs| && Occurs(c.subs[i], v)
  {
    Bounds(c.block);
    CountsAre(c.block);
    hide InRun, ValidFunction, ConstStart, ConstEnd, TailStart, Trailing, Field, HeaderSize, IsMapped, HasHeader;
  }

  lemma GuardedAt(subs: seq<Code>, i: nat)
    requires GuardedSubs(subs) && i < |subs|
    ensures Guarded(subs[i])
  {
    hide Guarded;
    if i > 0 {
      GuardedAt(subs[1..], i - 1);
    }
  }

  lemma GuardedNode(c: Code)
    requires c.Function? && ValidFunction(c.block)
    ensures Guarded(c) <==> ArgumentsFit(c.block) && GuardedSubs(c.subs)
  {
    hide ValidFunction, ArgumentsFit;
  }

  // Every literal is collected; when the code is guarded, nothing else is that can be a literal.
  lemma {:induction false} CollectedIsLiteral(c: Code, v: u32)
    requires ValidCode(c) && IsPooled(v)
    ensures IsLiteral(c, v) ==> Occurs(c, v)
    ensures Guarded(c) && Occurs(c, v) ==> IsLiteral(c, v)
    decreases c
  {
    if !c.Function? {
      LiteralLeaf(c, v);
    } else {
      ValidParts(c);
      SubsDecrease(c);
      hide *;
      LiteralNode(c, v);
      OccursNode(c, v);
      GuardedNode(c);
      LiteralOfAt(c.subs, v);
      forall i | 0 <= i < |c.subs|
        ensures IsLiteral(c.subs[i], v) ==> Occurs(c.subs[i], v)
        ensures Guarded(c) && Occurs(c.subs[i], v) ==> IsLiteral(c.subs[i], v)
      {
        SubValid(c.subs, i);
        if Guarded(c) {
          GuardedAt(c.subs, i);
        }
        if c.subs[i].Function? {
          CollectedIsLiteral(c.subs[i], v);
        } else {
          LiteralLeaf(c.subs[i], v);
        }
      }
      if Guarded(c) && IsMapped(Flags(c.block)) && InRun(c.block, ConstStart(c.block), Field(c.block, 1), v) {
        ArgumentIsLiteral(c, v);
      }
    }
  }

  lemma SubsDecrease(c: Code)
    requires c.Function?
    ensures forall i :: 0 <= i < |c.subs| ==> c.subs[i] < c
  {}

  // ---- code that is not guarded: other byte code brings a stray word

  // d differs from b in its byte code at most.
  ghost predicate SameButCode(b: seq<u8>, d: seq<u8>) {
    && ValidFunction(b) && |d| == |b|
    && forall k :: 0 <= k < |b| && (k < LiteralsStop(b) || TailStart(b) <= k) ==> d[k] == b[k]
  }

  ghost predicate SameButByteCode(c: Code, d: Code)
    decreases c, 1
  {
    match c
    case Regex(_, _) => d == c
    case SelfRef => d == c
    case Function(block, subs) => d.Function? && SameButCode(block, d.block) && SameButSubs(subs, d.subs)
  }

  ghost predicate SameButSubs(s: seq<Code>, t: seq<Code>)
    decreases s, 0
  {
    |t| == |s| && (s != [] ==> SameButByteCode(s[0], t[0]) && SameButSubs(s[1..], t[1..]))
  }

  lemma SameButNode(c: Code, d: Code)
    ensures c.Function? ==> (SameButByteCode(c, d) <==> d.Function? && SameButCode(c.block, d.block) && SameButSubs(c.subs, d.subs))
    ensures !c.Function? ==> (SameButByteCode(c, d) <==> d == c)
  {
    hide SameButCode, SameButSubs;
  }

  lemma SameButLayout(b: seq<u8>, d: seq<u8>)
    requires SameButCode(b, d)
    ensures ValidFunction(b) && ValidFunction(d) && SameLayout(b, d)
    ensures Flags(d) == Flags(b) && HeaderSize(Flags(b)) <= |b| == |d| && Field(d, 1) == Field(b, 1) && LiteralEnd(d) == LiteralEnd(b)
    ensures LiteralsStop(d) == LiteralsStop(b) <= TailStart(b) <= |b|
  {
    Bounds(b);
    FieldKept(b, d);
    hide ValidFunction, HasHeader, ConstStart, ConstEnd, SubStart, SubCount, TailStart, Trailing, Flags, HeaderSize, Field, LiteralEnd;
    LayoutKept(b, d);
  }

  lemma FieldKept(b: seq<u8>, d: seq<u8>)
    requires ValidFunction(b) && |d| == |b| && forall k :: 0 <= k < HeaderSize(Flags(b)) ==> d[k] == b[k]
    ensures |b| >= HeaderSize(Flags(b)) && Flags(d) == Flags(b) && Field(d, 1) == Field(b, 1)
  {
    hide IsMapped, HasTaggedLiterals, IsStatic, IsConstructor, IsFunction, SizeOf;
    assert d[4] == b[4] && d[5] == b[5];
    assert d[7] == b[7] && d[8] == b[8] && d[9] == b[9];
  }

  lemma SameButWords(b: seq<u8>, d: seq<u8>)
    requires SameButCode(b, d)
    ensures ValidFunction(b) && ValidFunction(d) && |d| == |b|
    ensures ConstStart(d) == ConstStart(b) && ConstEnd(d) == ConstEnd(b) && SubStart(d) == SubStart(b) && SubCount(d) == SubCount(b)
    ensures TailStart(d) == TailStart(b) && Trailing(d) == Trailing(b)
    ensures LiteralsStop(b) <= TailStart(b) && TailStart(b) + 4 * Trailing(b) == |b|
    ensures ConstStart(b) + 4 * ConstEnd(b) == SubStart(b)
    ensures forall i :: 0 <= i < ConstEnd(b) ==> GetWord(d, ConstStart(b), i) == GetWord(b, ConstStart(b), i)
    ensures forall i :: 0 <= i < SubCount(b) ==> GetWord(d, SubStart(b), i) == GetWord(b, SubStart(b), i)
    ensures forall i :: 0 <= i < Trailing(b) ==> GetWord(d, TailStart(b), i) == GetWord(b, TailStart(b), i)
  {
    SameButLayout(b, d);
    Bounds(b);
    hide ValidFunction, HasHeader, ConstStart, ConstEnd, SubStart, SubCount, TailStart, Trailing, Flags, HeaderSize, Field, LiteralEnd,
      SameLayout, Get32;
    LayoutKept(b, d);
    SameWords(b, d, ConstStart(b), ConstEnd(b));
    SameWords(b, d, SubStart(b), SubCount(b));
    SameWords(b, d, TailStart(b), Trailing(b));
  }

  lemma SameWords(b: seq<u8>, d: seq<u8>, start: nat, n: nat)
    requires start + 4 * n <= |b| == |d| && forall k :: start <= k < start + 4 * n ==> d[k] == b[k]
    ensures forall i :: 0 <= i < n ==> GetWord(d, start, i) == GetWord(b, start, i)
  {
    hide Get32;
    forall i | 0 <= i < n ensures GetWord(d, start, i) == GetWord(b, start, i) {
      var o := start + 4 * i;
      assert d[o..o + 4] == b[o..o + 4];
      Get32Slice(d, b, o, o);
    }
  }

  lemma SameButOver(b: seq<u8>, d: seq<u8>, k: u32 -> bool, t: u32 -> bool)
    requires SameButCode(b, d)
    ensures BlockOver(b, k, t) <==> BlockOver(d, k, t)
  {
    SameButWords(b, d);
    BlockOverRuns(b, k, t);
    BlockOverRuns(d, k, t);
    hide SameButCode, BlockOver, ValidFunction, ConstStart, ConstEnd, SubStart, SubCount, TailStart, Trailing, GetWord;
  }

  // The sub-function words stay zero.
  lemma SameButZeros(b: seq<u8>, d: seq<u8>)
    requires SameButCode(b, d) && PutSubs(b, Zeros(SubCount(b))) == b
    ensures ValidFunction(d) && SubCount(d) == SubCount(b) && PutSubs(d, Zeros(SubCount(d))) == d
  {
    hide *;
    SameButWords(b, d);
    var zeros := Zeros(SubCount(b));
    PutSubsAt(b, zeros);
    PutSubsAt(d, zeros);
    BlockExtensional(d, PutSubs(d, zeros));
  }

  lemma {:induction false} SameButItself(c: Code)
    requires c.SelfRef? || ValidCode(c)
    ensures SameButByteCode(c, c)
    decreases c, 1
  {
    if c.Function? {
      ValidParts(c);
      hide ValidFunction;
      SameButItselfSubs(c.subs);
    }
  }

  lemma {:induction false} SameButItselfSubs(s: seq<Code>)
    requires ValidSubs(s)
    ensures SameButSubs(s, s)
    decreases s, 0
  {
    ValidSubsStep(s);
    if s != [] {
      SameButItself(s[0]);
      SameButItselfSubs(s[1..]);
    }
  }

  // Code that differs in its byte code only has the same literals, and is guarded as well.
  lemma {:induction false} SameButSame(c: Code, d: Code, k: u32 -> bool, t: u32 -> bool)
    requires SameButByteCode(c, d) && (c.SelfRef? || ValidCode(c))
    ensures Over(c, k, t) <==> Over(d, k, t)
    ensures Guarded(c) <==> Guarded(d)
    ensures c.Function? ==> d.Function? && ValidCode(d)
    decreases c, 1
  {
    hide *;
    SameButNode(c, d);
    OverNode(c, k, t);
    OverNode(d, k, t);
    if c.Function? {
      ValidParts(c);
      SameButOver(c.block, d.block, k, t);
      SameButZeros(c.block, d.block);
      SameButLayout(c.block, d.block);
      SameButTail(c.block, d.block);
      GuardedNode(c);
      GuardedNode(d);
      FitsIs(c.block);
      FitsIs(d.block);
      SameButSameSubs(c.subs, d.subs, k, t);
      ValidIs(d);
    }
  }

  lemma SameButTail(b: seq<u8>, d: seq<u8>)
    requires SameButCode(b, d)
    ensures ValidFunction(b) && ValidFunction(d) && TailStart(d) == TailStart(b)
  {
    SameButWords(b, d);
    hide SameButCode, ValidFunction, TailStart;
  }

  lemma ValidIs(c: Code)
    requires c.Function? && ValidFunction(c.block) && |c.subs| == SubCount(c.block)
    requires PutSubs(c.block, Zeros(|c.subs|)) == c.block && ValidSubs(c.subs)
    ensures ValidCode(c)
  {
    hide ValidFunction, SubCount, PutSubs, Zeros, ValidSubs;
  }

  lemma {:induction false} SameButSameSubs(s: seq<Code>, u: seq<Code>, k: u32 -> bool, t: u32 -> bool)
    requires SameButSubs(s, u) && ValidSubs(s)
    ensures |u| == |s| && ValidSubs(u)
    ensures OverSubs(s, k, t) <==> OverSubs(u, k, t)
    ensures GuardedSubs(s) <==> GuardedSubs(u)
    decreases s, 0
  {
    hide *;
    SameButSubsStep(s, u);
    ValidSubsStep(s);
    SubsSteps(s, k, t);
    SubsSteps(u, k, t);
    if s != [] {
      SameButSame(s[0], u[0], k, t);
      SameButNode(s[0], u[0]);
      SameButSameSubs(s[1..], u[1..], k, t);
    }
    ValidSubsWhole(u);
  }

  lemma SameButSubsStep(s: seq<Code>, t: seq<Code>)
    ensures SameButSubs(s, t) <==> |t| == |s| && (s != [] ==> SameButByteCode(s[0], t[0]) && SameButSubs(s[1..], t[1..]))
  {
    hide SameButByteCode;
  }

  lemma SubsSteps(s: seq<Code>, k: u32 -> bool, t: u32 -> bool)
    ensures OverSubs(s, k, t) <==> (s != [] ==> Over(s[0], k, t) && OverSubs(s[1..], k, t))
    ensures GuardedSubs(s) <==> (s != [] ==> Guarded(s[0]) && GuardedSubs(s[1..]))
  {
    hide Over, Guarded;
  }

  lemma ValidSubsWhole(u: seq<Code>)
    ensures u == [] ==> ValidSubs(u)
    ensures u != [] && (u[0].SelfRef? || ValidCode(u[0])) && ValidSubs(u[1..]) ==> ValidSubs(u)
  {
    hide ValidCode;
  }

  // A block with more arguments than literals, and v in the byte code behind the literals.
  function Intruded(b: seq<u8>, v: u32): (d: seq<u8>)
    requires ValidFunction(b) && LiteralsStop(b) + 4 <= |b|
  {
    Put(b, LiteralsStop(b), Word(v))
  }

  lemma WholeWords(b: seq<u8>)
    requires ValidFunction(b)
    ensures LiteralsStop(b) % 4 == 0 && TailStart(b) % 4 == 0 && 0 <= LiteralsStop(b) <= TailStart(b) <= |b|
  {
    Bounds(b);
    SizeUnits(b);
    HeaderUnits(Flags(b));
    hide Flags, HeaderSize, LiteralEnd, ConstEnd, SubCount, Trailing, HasHeader, ValidFunction;
  }

  lemma SizeUnits(b: seq<u8>)
    requires ValidFunction(b)
    ensures |b| % 8 == 0
  {}

  lemma HeaderUnits(flags: u16)
    ensures HeaderSize(flags) % 4 == 0
  {}

  lemma IntrudedBlock(b: seq<u8>, v: u32)
    requires ValidFunction(b) && !ArgumentsFit(b)
    ensures LiteralsStop(b) + 4 <= TailStart(b) <= |b| && SameButCode(b, Intruded(b, v)) && ValidFunction(Intruded(b, v))
    ensures |b| >= HeaderSize(Flags(b)) && |Intruded(b, v)| >= HeaderSize(Flags(Intruded(b, v)))
    ensures IsMapped(Flags(Intruded(b, v)))
    ensures InRun(Intruded(b, v), ConstStart(Intruded(b, v)), Field(Intruded(b, v), 1), v)
  {
    hide *;
    Bounds(b);
    FitsIs(b);
    WholeWords(b);
    CountsAre(b);
    WordFour(v);
    var o, d := LiteralsStop(b), Put(b, LiteralsStop(b), Word(v));
    IntrudedIs(b, v);
    PutWord(b, o, v);
    SameButIs(b, d);
    SameButLayout(b, d);
    SameButWords(b, d);
    ArgumentsRoom(d);
    WordAtIs(d, ConstStart(d), LiteralEnd(b));
    WordInRun(d, ConstStart(d), Field(d, 1), LiteralEnd(b), v);
  }

  lemma IntrudedIs(b: seq<u8>, v: u32)
    requires ValidFunction(b) && LiteralsStop(b) + 4 <= |b| && |Word(v)| == 4
    ensures Intruded(b, v) == Put(b, LiteralsStop(b), Word(v))
  {
    hide ValidFunction, LiteralsStop, Put, Word;
  }

  lemma WordFour(v: u32)
    ensures |Word(v)| == 4
  {}

  lemma SameButIs(b: seq<u8>, d: seq<u8>)
    requires ValidFunction(b) && |d| == |b|
    requires forall k :: 0 <= k < |b| && (k < LiteralsStop(b) || LiteralsStop(b) + 4 <= k) ==> d[k] == b[k]
    requires LiteralsStop(b) + 4 <= TailStart(b)
    ensures SameButCode(b, d)
  {
    hide ValidFunction, LiteralsStop, TailStart;
  }

  lemma ArgumentsRoom(d: seq<u8>)
    requires ValidFunction(d)
    ensures |d| >= HeaderSize(Flags(d)) && (IsMapped(Flags(d)) ==> ConstStart(d) + 4 * Field(d, 1) <= |d|)
  {
    ArgumentsInside(d);
    hide ValidFunction, Flags, HeaderSize, Field, IsMapped, ConstStart;
  }

  // Some function that is not guarded, and v in its byte code.
  lemma {:induction false} Intruder(c: Code, v: u32) returns (d: Code)
    requires ValidCode(c) && !Guarded(c)
    ensures SameButByteCode(c, d) && d.Function? && Occurs(d, v)
    decreases c, 1
  {
    hide *;
    NotGuarded(c);
    ValidParts(c);
    GuardedNode(c);
    if !ArgumentsFit(c.block) {
      IntrudedBlock(c.block, v);
      d := Function(Intruded(c.block, v), c.subs);
      SameButItselfSubs(c.subs);
      SameButNode(c, d);
      OccursNode(d, v);
    } else {
      var i, e := IntruderSubs(c.subs, v);
      d := Function(c.block, c.subs[i := e]);
      SameButBlock(c.block);
      SameButNode(c, d);
      OccursNode(d, v);
      assert Occurs(d.subs[i], v);
    }
  }

  lemma NotGuarded(c: Code)
    requires !Guarded(c)
    ensures c.Function?
  {}

  lemma SameButBlock(b: seq<u8>)
    requires ValidFunction(b)
    ensures SameButCode(b, b)
  {
    hide ValidFunction;
  }

  lemma {:induction false} IntruderSubs(s: seq<Code>, v: u32) returns (i: nat, e: Code)
    requires ValidSubs(s) && !GuardedSubs(s)
    ensures i < |s| && SameButSubs(s, s[i := e]) && Occurs(e, v)
    decreases s, 0
  {
    hide *;
    ValidSubsStep(s);
    SubsSteps(s, Other(v), Other(v));
    if !Guarded(s[0]) {
      NotGuarded(s[0]);
      i := 0;
      e := Intruder(s[0], v);
      SameButItselfSubs(s[1..]);
      assert s[0 := e][1..] == s[1..];
    } else {
      i, e := IntruderSubs(s[1..], v);
      assert s[i + 1 := e][1..] == s[1..][i := e];
      if s[0].SelfRef? || ValidCode(s[0]) {
        SameButItself(s[0]);
      }
      i := i + 1;
    }
    SameButSubsStep(s, s[i := e]);
  }

  // Exactly the code that is not guarded can have, with other byte code, a collected word that
  // is none of its literals.
  lemma StrayExactly(c: Code, v: u32)
    requires ValidCode(c) && IsPooled(v) && !IsLiteral(c, v)
    ensures (exists d :: SameButByteCode(c, d) && Occurs(d, v)) <==> !Guarded(c)
  {
    hide *;
    if !Guarded(c) {
      var d := Intruder(c, v);
    } else {
      forall d | SameButByteCode(c, d) ensures !Occurs(d, v) {
        SameButSame(c, d, Other(v), Other(v));
        SameButNode(c, d);
        LiteralIs(c, v);
        LiteralIs(d, v);
        CollectedIsLiteral(d, v);
      }
    }
  }

  lemma LiteralIs(c: Code, v: u32)
    ensures IsLiteral(c, v) <==> !Over(c, Other(v), Other(v))
  {
    hide Over;
  }
}
