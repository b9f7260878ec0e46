// The recursive writer of compiled functions (snapshot_add_compiled_code).
module SnapshotWriter {
  import opened Bytes
  import opened Layout
  import opened Snapshot
  import opened SnapshotPasses

  datatype SaveError = BufferTooSmall | MaximumSize | TaggedTemplateLiterals

  // sizeof (jerry_snapshot_header_t); JERRY_SNAPSHOT_MAXIMUM_WRITE_OFFSET is 0x7fffffff.
  class Globals {
    var offset: nat
    var error: Option<SaveError>
    var regexFound: bool
    var classFound: bool

    constructor ()
      ensures offset == 24 && error == None && !regexFound && !classFound
    {
      offset, error, regexFound, classFound := 24, None, false, false;
    }
  }

  // The bytes of the buffer, and bytes after its end: the padding of a last pattern may
  // reach beyond the buffer, but is never written.
  function Padded(b: seq<u8>): seq<u8> {
    b + [0, 0, 0, 0, 0, 0, 0]
  }

  // The first error met when c is written at offset off of a buffer of len bytes. Bit 6 of
  // the flags is tested before the type is known: in a regular expression it is the s flag.
  ghost function Refusal(c: Code, off: nat, len: nat): Option<SaveError>
    decreases c, 1
  {
    if off > 0x7fff_ffff then Some(MaximumSize)
    else
      match c
      case Regex(flags, pattern) =>
        if HasTaggedLiterals(flags) then Some(TaggedTemplateLiterals)
        else if off + 6 + |pattern| > len then Some(BufferTooSmall)
        else None
      case Function(block, subs) =>
        if |block| >= 8 && HasTaggedLiterals(Flags(block)) then Some(TaggedTemplateLiterals)
        else if off + |block| > len then Some(BufferTooSmall)
        else RefusalSubs(subs, off + |block|, len)
      case SelfRef => None
  }

  ghost function RefusalSubs(subs: seq<Code>, off: nat, len: nat): Option<SaveError>
    decreases subs, 0
  {
    if subs == [] then None
    else if subs[0].SelfRef? then RefusalSubs(subs[1..], off, len)
    else if Refusal(subs[0], off, len).Some? then Refusal(subs[0], off, len)
    else RefusalSubs(subs[1..], off + Length(subs[0]), len)
  }

  predicate AnyRegex(c: Code)
    decreases c, 1
  {
    match c
    case Regex(_, _) => true
    case SelfRef => false
    case Function(_, subs) => AnyRegexSubs(subs)
  }

  predicate AnyRegexSubs(subs: seq<Code>)
    decreases subs, 0
  {
    subs != [] && (AnyRegex(subs[0]) || AnyRegexSubs(subs[1..]))
  }

  predicate AnyClass(c: Code)
    decreases c, 1
  {
    match c
    case Regex(_, _) => false
    case SelfRef => false
    case Function(block, subs) => (|block| >= 8 && IsConstructor(Flags(block))) || AnyClassSubs(subs)
  }

  predicate AnyClassSubs(subs: seq<Code>)
    decreases subs, 0
  {
    subs != [] && (AnyClass(subs[0]) || AnyClassSubs(subs[1..]))
  }

  // ---- one more sub-function at the end

  lemma LengthSnoc(s: seq<Code>, c: Code)
    ensures LengthSubs(s + [c]) == LengthSubs(s) + Length(c)
  {
    if s == [] {
      assert [c][1..] == [] && s + [c] == [c];
    } else {
      assert (s + [c])[1..] == s[1..] + [c];
      LengthSnoc(s[1..], c);
    }
  }

  lemma {:induction false} OffsetsSnoc(s: seq<Code>, c: Code, pos: nat)
    requires pos + LengthSubs(s + [c]) < 0x1_0000_0000
    ensures LengthSubs(s) <= LengthSubs(s + [c])
    ensures Offsets(s + [c], pos) == Offsets(s, pos) + [if c.SelfRef? then 0 else pos + LengthSubs(s)]
    decreases s
  {
    LengthSnoc(s, c);
    hide *;
    OffsetsStep(s + [c], pos);
    OffsetsStep(s, pos);
    if s == [] {
      assert [c][1..] == [] && s + [c] == [c];
      LengthNone();
      OffsetsNone(pos);
      OffsetsNone(pos + Length(c));
    } else {
      assert (s + [c])[1..] == s[1..] + [c];
      OffsetsSnoc(s[1..], c, if s[0].SelfRef? then pos else pos + Length(s[0]));
    }
  }

  lemma LengthNone()
    ensures LengthSubs([]) == 0 && Length(SelfRef) == 0
  {}

  lemma OffsetsNone(pos: nat)
    requires pos < 0x1_0000_0000
    ensures pos + LengthSubs([]) < 0x1_0000_0000 && Offsets([], pos) == []
  {}

  lemma {:induction false} EmittedSnoc(x: seq<u8>, s: seq<Code>, y: seq<u8>, c: Code)
    requires EmittedSubs(x, s) && (if c.SelfRef? then y == [] else Emitted(y, c))
    ensures EmittedSubs(x + y, s + [c])
    decreases s
  {
    hide *;
    EmittedStep(x, s);
    if s == [] {
      assert s + [c] == [c] && x + y == y;
      EmittedSingle(y, c);
    } else {
      assert (s + [c])[1..] == s[1..] + [c];
      if s[0].SelfRef? {
        EmittedSnoc(x, s[1..], y, c);
        EmittedSkip(x + y, s + [c]);
      } else {
        var n := Length(s[0]);
        assert (x + y)[..n] == x[..n] && (x + y)[n..] == x[n..] + y;
        EmittedSnoc(x[n..], s[1..], y, c);
        EmittedCons(x + y, s + [c], n);
      }
    }
  }

  lemma EmittedNone()
    ensures EmittedSubs([], [])
  {}

  lemma EmittedSingle(y: seq<u8>, c: Code)
    requires if c.SelfRef? then y == [] else Emitted(y, c)
    ensures EmittedSubs(y, [c])
  {
    assert [c][1..] == [];
    if !c.SelfRef? {
      EmittedLength(y, c);
      assert y[..Length(c)] == y && y[Length(c)..] == [];
    }
    EmittedNone();
  }

  lemma EmittedLength(y: seq<u8>, c: Code)
    requires Emitted(y, c)
    ensures |y| == Length(c) < 0x1_0000_0000
  {}

  lemma EmittedSkip(b: seq<u8>, s: seq<Code>)
    requires s != [] && s[0].SelfRef? && EmittedSubs(b, s[1..])
    ensures EmittedSubs(b, s)
  {}

  lemma EmittedCons(b: seq<u8>, s: seq<Code>, n: nat)
    requires s != [] && !s[0].SelfRef? && n == Length(s[0]) <= |b|
    requires Emitted(b[..n], s[0]) && EmittedSubs(b[n..], s[1..])
    ensures EmittedSubs(b, s)
  {}

  lemma EmittedWhole(b: seq<u8>, block: seq<u8>, subs: seq<Code>)
    requires ValidFunction(block) && |subs| == SubCount(block) && |block| <= |b|
    requires |b| == |block| + LengthSubs(subs) < 0x1_0000_0000
    requires b[..|block|] == PutSubs(block, Offsets(subs, |block|)) && EmittedSubs(b[|block|..], subs)
    ensures Emitted(b, Function(block, subs))
  {}

  lemma RegexWhole(b: seq<u8>, flags: u16, pattern: seq<u8>)
    requires !IsFunction(flags) && |pattern| < 0x1_0000 && |b| == AlignUp(6 + |pattern|)
    requires b[..6] == Half(|b| / 8) + Half(|pattern|) + Half(flags) && b[6..6 + |pattern|] == pattern
    ensures Emitted(b, Regex(flags, pattern))
  {}

  lemma ValidAt(subs: seq<Code>, i: nat)
    requires ValidSubs(subs) && i < |subs|
    ensures !subs[i].SelfRef? ==> ValidCode(subs[i])
  {
    if i > 0 { ValidAt(subs[1..], i - 1); }
  }

  // ---- the writer

  // snapshot_write_to_buffer_by_offset
  method WriteToBuffer(a: array<u8>, offset: nat, data: seq<u8>) returns (ok: bool, next: nat)
    modifies a
    ensures ok <==> offset + |data| <= a.Length
    ensures ok ==> next == offset + |data| && a[..] == Put(old(a[..]), offset, data)
    ensures !ok ==> next == offset && a[..] == old(a[..])
  {
    ok, next := offset + |data| <= a.Length, offset;
    if ok {
      forall k | 0 <= k < |data| {
        a[offset + k] := data[k];
      }
      next := offset + |data|;
    }
  }

  // Nothing before off is changed.
  ghost predicate SameBefore(b0: seq<u8>, b: seq<u8>, off: nat) {
    |b| == |b0| && forall k :: 0 <= k < off && k < |b| ==> b[k] == b0[k]
  }

  // The branch for regular expressions of snapshot_add_compiled_code.
  method AddRegex(flags: u16, pattern: seq<u8>, a: array<u8>, g: Globals)
    requires !IsFunction(flags) && |pattern| < 0x1_0000 && g.offset % 8 == 0 && g.error.None?
    modifies a, g
    ensures g.error == if old(g.offset) + 6 + |pattern| > a.Length then Some(BufferTooSmall) else None
    ensures g.classFound == old(g.classFound)
    ensures SameBefore(old(a[..]), a[..], old(g.offset))
    ensures g.error.None? ==>
              && g.offset == old(g.offset) + AlignUp(6 + |pattern|) <= a.Length + 7 && g.regexFound
              && Emitted(Padded(a[..])[old(g.offset)..g.offset], Regex(flags, pattern))
              && Padded(a[..])[g.offset..] == Padded(old(a[..]))[g.offset..]
  {
    hide *;
    var start := g.offset;
    ghost var b := a[..];
    AlignRoom(start, |pattern|);
    SameSame(b, start);
    if g.offset + 6 > a.Length {
      g.error := Some(BufferTooSmall);
      return;
    }
    g.offset := g.offset + 6;
    SamePut(b, b, start, start + 6, pattern);
    var ok, next := WriteToBuffer(a, g.offset, pattern);
    g.offset := next;
    if !ok {
      g.error := Some(BufferTooSmall);
      return;
    }
    g.regexFound := true;
    g.offset := AlignUp(g.offset);
    var n := AlignUp(6 + |pattern|);
    StoreHalf(a, start + 2, |pattern|);
    StoreHalf(a, start, n / 8);
    StoreHalf(a, start + 4, flags);
    RegexBytes(b, a[..], start, n, |pattern|, flags, pattern);
    RegexWhole(Padded(a[..])[start..start + n], flags, pattern);
  }

  lemma SameSame(b: seq<u8>, off: nat)
    ensures SameBefore(b, b, off)
  {}

  lemma SamePut(b0: seq<u8>, b: seq<u8>, off: nat, o: nat, w: seq<u8>)
    requires SameBefore(b0, b, off) && off <= o
    ensures o + |w| <= |b| ==> SameBefore(b0, Put(b, o, w), off)
  {}

  lemma AlignRoom(start: nat, n: nat)
    requires start % 8 == 0
    ensures AlignUp(start + 6 + n) == start + AlignUp(6 + n) && 6 + n <= AlignUp(6 + n) <= 13 + n
    ensures n < 0x1_0000 ==> AlignUp(6 + n) / 8 < 0x1_0000
  {}

  lemma PutBytes(b: seq<u8>, o: nat, w: seq<u8>)
    requires o + |w| <= |b|
    ensures forall k :: 0 <= k < |b| ==> Put(b, o, w)[k] == if o <= k < o + |w| then w[k - o] else b[k]
  {}

  lemma RegexPuts(b: seq<u8>, r: seq<u8>, start: nat, size: u16, refs: u16, flags: u16, pattern: seq<u8>)
    requires start + 6 + |pattern| <= |b|
    requires r == Put(Put(Put(Put(b, start + 6, pattern), start + 2, Half(refs)), start, Half(size)), start + 4, Half(flags))
    ensures |r| == |b|
    ensures forall k :: 0 <= k < 6 ==> r[start + k] == (Half(size) + Half(refs) + Half(flags))[k]
    ensures forall k :: 0 <= k < |pattern| ==> r[start + 6 + k] == pattern[k]
    ensures forall k :: 0 <= k < |b| && (k < start || start + 6 + |pattern| <= k) ==> r[k] == b[k]
  {
    hide Half, Put;
    var b1 := Put(b, start + 6, pattern);
    var b2 := Put(b1, start + 2, Half(refs));
    var b3 := Put(b2, start, Half(size));
    PutBytes(b, start + 6, pattern);
    PutBytes(b1, start + 2, Half(refs));
    PutBytes(b2, start, Half(size));
    PutBytes(b3, start + 4, Half(flags));
    forall k | 0 <= k < |pattern| ensures r[start + 6 + k] == pattern[k] {
      assert b1[start + 6 + k] == pattern[k];
    }
  }

  lemma RegexBytes(b: seq<u8>, r: seq<u8>, start: nat, n: nat, refs: u16, flags: u16, pattern: seq<u8>)
    requires n / 8 < 0x1_0000 && start + 6 + |pattern| <= |b| && 6 + |pattern| <= n <= 13 + |pattern|
    requires r == Put(Put(Put(Put(b, start + 6, pattern), start + 2, Half(refs)), start, Half(n / 8)), start + 4, Half(flags))
    ensures SameBefore(b, r, start) && start + n <= |Padded(r)| == |b| + 7 && |Padded(b)| == |b| + 7
    ensures Padded(r)[start + n..] == Padded(b)[start + n..]
    ensures Padded(r)[start..start + n][..6] == Half(n / 8) + Half(refs) + Half(flags)
    ensures Padded(r)[start..start + n][6..6 + |pattern|] == pattern
  {
    RegexPuts(b, r, start, n / 8, refs, flags, pattern);
    hide Half, Put;
    var v := Padded(r)[start..start + n];
    forall k | 0 <= k < 6 ensures v[k] == (Half(n / 8) + Half(refs) + Half(flags))[k] {
      assert v[k] == r[start + k];
    }
    forall k | 0 <= k < |pattern| ensures v[6 + k] == pattern[k] {
      assert v[6 + k] == r[start + 6 + k];
    }
  }

  // ---- the loop over the sub-functions

  // The block and its first sub-functions s are written between base and off; the rest of
  // the buffer is as it was in b0.
  ghost predicate Progress(b0: seq<u8>, v: seq<u8>, base: nat, block: seq<u8>, s: seq<Code>, off: nat) {
    && |v| == |b0| && ValidFunction(block) && |s| <= SubCount(block)
    && |block| + LengthSubs(s) < 0x1_0000_0000
    && off == base + |block| + LengthSubs(s) <= |v|
    && v[..base] == b0[..base] && v[off..] == b0[off..]
    && SubStart(block) + 4 * |s| <= |block|
    && v[base..base + |block|] == PutWords(block, SubStart(block), Offsets(s, |block|))
    && EmittedSubs(v[base + |block|..off], s)
  }

  lemma ProgressStart(b0: seq<u8>, base: nat, block: seq<u8>)
    requires ValidFunction(block) && base + |block| <= |b0| && |block| < 0x1_0000_0000
    ensures Progress(b0, Put(b0, base, block), base, block, [], base + |block|)
  {
    Bounds(block);
    hide ValidFunction;
    var v := Put(b0, base, block);
    assert v[base..base + |block|] == block && v[base + |block|..base + |block|] == [];
  }

  lemma WordsNone(block: seq<u8>, start: nat)
    requires start <= |block|
    ensures PutWords(block, start, []) == block
  {}

  lemma WordsSnoc(b: seq<u8>, start: nat, ws: seq<u32>, w: u32)
    requires start + 4 * |ws| + 4 <= |b|
    ensures PutWords(b, start, ws + [w]) == Put(PutWords(b, start, ws), start + 4 * |ws|, Word(w))
  {
    hide Word, Put;
    assert (ws + [w])[..|ws|] == ws;
  }

  // One sub-function more: v1 is v with y written at off, when there is something to write.
  lemma ProgressNext(b0: seq<u8>, v: seq<u8>, v1: seq<u8>, base: nat, block: seq<u8>, s: seq<Code>, c: Code, off: nat, w: u32)
    requires Progress(b0, v, base, block, s, off) && |s| < SubCount(block)
    requires |block| + LengthSubs(s) + Length(c) < 0x1_0000_0000 && off + Length(c) <= |v| == |v1|
    requires w == if c.SelfRef? then 0 else |block| + LengthSubs(s)
    requires v1[..off] == v[..off] && v1[off + Length(c)..] == b0[off + Length(c)..]
    requires !c.SelfRef? ==> Emitted(v1[off..off + Length(c)], c)
    ensures base + SubStart(block) + 4 * |s| + 4 <= off
    ensures Progress(b0, Put(v1, base + SubStart(block) + 4 * |s|, Word(w)), base, block, s + [c], off + Length(c))
  {
    hide *;
    ProgressParts(b0, v, base, block, s, off);
    LengthSnoc(s, c);
    LengthNone();
    OffsetsSnoc(s, c, |block|);
    Bounds(block);
    WordsSnoc(block, SubStart(block), Offsets(s, |block|), w);
    var n, o := |block|, base + SubStart(block) + 4 * |s|;
    var next := off + Length(c);
    var v2 := Put(v1, o, Word(w));
    WordLength(w);
    NextSlices(b0, v, v1, base, n, off, next, o, Word(w));
    EmittedSnoc(v2[base + n..off], s, v2[off..next], c);
    ProgressWhole(b0, v2, base, block, s + [c], next);
  }

  lemma WordLength(w: u32)
    ensures |Word(w)| == 4
  {}

  lemma NextSlices(b0: seq<u8>, v: seq<u8>, v1: seq<u8>, base: nat, n: nat, off: nat, next: nat, o: nat, w: seq<u8>)
    requires base <= o && o + |w| <= base + n <= off <= next <= |v| == |v1| == |b0|
    requires v[..base] == b0[..base] && v1[..off] == v[..off] && v1[next..] == b0[next..]
    ensures var v2 := Put(v1, o, w);
            && |v2| == |b0| && v2[..base] == b0[..base] && v2[next..] == b0[next..]
            && v2[base + n..off] == v[base + n..off] && v2[off..next] == v1[off..next]
            && v2[base + n..next] == v2[base + n..off] + v2[off..next]
            && v2[base..base + n] == Put(v[base..base + n], o - base, w)
  {
    hide *;
    var v2 := Put(v1, o, w);
    PutBytes(v1, o, w);
    PutInSlice(v1, base, n, o, w);
    Prefixes(v, v1, base, base + n, off);
  }

  lemma PutInSlice(b: seq<u8>, base: nat, n: nat, o: nat, w: seq<u8>)
    requires base <= o && o + |w| <= base + n <= |b|
    ensures Put(b, o, w)[base..base + n] == Put(b[base..base + n], o - base, w)
  {}

  lemma Prefixes(v: seq<u8>, v1: seq<u8>, base: nat, mid: nat, off: nat)
    requires base <= mid <= off <= |v| == |v1| && v1[..off] == v[..off]
    ensures v1[..base] == v[..base] && v1[base..mid] == v[base..mid] && v1[mid..off] == v[mid..off]
    ensures forall k :: 0 <= k < off ==> v1[k] == v[k]
  {
    assert forall k :: 0 <= k < off ==> v1[k] == v1[..off][k] == v[k];
  }

  lemma ProgressParts(b0: seq<u8>, v: seq<u8>, base: nat, block: seq<u8>, s: seq<Code>, off: nat)
    requires Progress(b0, v, base, block, s, off)
    ensures |v| == |b0| && ValidFunction(block) && |s| <= SubCount(block)
    ensures |block| + LengthSubs(s) < 0x1_0000_0000 && off == base + |block| + LengthSubs(s) <= |v|
    ensures |Offsets(s, |block|)| == |s|
    ensures v[..base] == b0[..base] && v[off..] == b0[off..] && SubStart(block) + 4 * |s| <= |block|
    ensures v[base..base + |block|] == PutWords(block, SubStart(block), Offsets(s, |block|))
    ensures EmittedSubs(v[base + |block|..off], s)
  {
    hide ValidFunction, SubCount, SubStart, PutWords, EmittedSubs;
  }

  lemma ProgressWhole(b0: seq<u8>, v: seq<u8>, base: nat, block: seq<u8>, s: seq<Code>, off: nat)
    requires |v| == |b0| && ValidFunction(block) && |s| <= SubCount(block)
    requires |block| + LengthSubs(s) < 0x1_0000_0000 && off == base + |block| + LengthSubs(s) <= |v|
    requires v[..base] == b0[..base] && v[off..] == b0[off..] && SubStart(block) + 4 * |s| <= |block|
    requires v[base..base + |block|] == PutWords(block, SubStart(block), Offsets(s, |block|))
    requires EmittedSubs(v[base + |block|..off], s)
    ensures Progress(b0, v, base, block, s, off)
  {
    hide ValidFunction, SubCount, SubStart, PutWords, EmittedSubs;
  }

  lemma ProgressEnd(b0: seq<u8>, v: seq<u8>, base: nat, block: seq<u8>, s: seq<Code>, off: nat)
    requires Progress(b0, v, base, block, s, off) && |s| == SubCount(block)
    ensures |v| == |b0| && off == base + Length(Function(block, s)) <= |v|
    ensures v[..base] == b0[..base] && v[off..] == b0[off..]
    ensures Emitted(v[base..off], Function(block, s))
  {
    hide *;
    ProgressParts(b0, v, base, block, s, off);
    FunctionLength(block, s);
    var b := v[base..off];
    assert b[..|block|] == v[base..base + |block|] && b[|block|..] == v[base + |block|..off];
    PutSubsUnfold(block, Offsets(s, |block|));
    EmittedWhole(b, block, s);
  }

  lemma FunctionLength(block: seq<u8>, s: seq<Code>)
    ensures Length(Function(block, s)) == |block| + LengthSubs(s)
  {}

  lemma PutSubsUnfold(block: seq<u8>, offs: seq<u32>)
    requires ValidFunction(block) && |offs| == SubCount(block)
    ensures SubStart(block) + 4 * |offs| <= |block| && PutSubs(block, offs) == PutWords(block, SubStart(block), offs)
  {
    Bounds(block);
  }

  // ---- the writer

  // What a call promises that started at offset off of the buffer b0 (24 <= off).
  ghost predicate Written(c: Code, b0: seq<u8>, b: seq<u8>, off: nat, next: nat, start: u32, error: Option<SaveError>) {
    && error == Refusal(c, off, |b0|) && SameBefore(b0, b, off)
    && (error.None? ==>
          && start == off - 24
          && next == off + Length(c) <= |b0| + 7 && next <= 0x8008_0000 && next % 8 == 0
          && Padded(b)[next..] == Padded(b0)[next..]
          && Emitted(Padded(b)[off..next], c))
  }

  lemma SizeBounds(b: seq<u8>)
    requires |b| >= 8
    ensures SizeOf(b) < 0x8_0000 && SizeOf(b) % 8 == 0
  {}

  lemma CodeParts(c: Code)
    requires ValidCode(c)
    ensures c.Regex? ==> !IsFunction(c.flags) && |c.pattern| < 0x1_0000 && !IsConstructor(c.flags)
    ensures c.Function? ==>
              && ValidFunction(c.block) && |c.block| >= 8 && IsFunction(Flags(c.block)) && ValidSubs(c.subs)
              && |c.block| < 0x8_0000 && |c.block| % 8 == 0 && |c.subs| == SubCount(c.block)
    ensures c.Function? || c.Regex?
    ensures c.Regex? ==> AnyRegex(c) && !AnyClass(c) && Length(c) == AlignUp(6 + |c.pattern|)
    ensures c.Function? ==> AnyRegex(c) == AnyRegexSubs(c.subs)
    ensures c.Function? ==> AnyClass(c) == (IsConstructor(Flags(c.block)) || AnyClassSubs(c.subs))
  {
    if c.Function? {
      ValidSize(c.block);
      SizeBounds(c.block);
    }
    hide ValidFunction, SizeOf, Flags, AnyRegexSubs, AnyClassSubs, ValidSubs, PutSubs, SubCount;
  }

  lemma RefusalStep(c: Code, base: nat, len: nat)
    requires c.Function? ==> |c.block| >= 8
    requires !c.SelfRef?
    ensures base > 0x7fff_ffff ==> Refusal(c, base, len) == Some(MaximumSize)
    ensures base <= 0x7fff_ffff ==>
              Refusal(c, base, len)
              == if HasTaggedLiterals(if c.Regex? then c.flags else Flags(c.block)) then Some(TaggedTemplateLiterals)
                 else if c.Regex? then (if base + 6 + |c.pattern| > len then Some(BufferTooSmall) else None)
                 else if base + |c.block| > len then Some(BufferTooSmall)
                 else RefusalSubs(c.subs, base + |c.block|, len)
  {
    hide HasTaggedLiterals, Flags, RefusalSubs;
  }

  lemma Refused(c: Code, b: seq<u8>, base: nat, next: nat, error: Option<SaveError>)
    requires error.Some? && error == Refusal(c, base, |b|)
    ensures Written(c, b, b, base, next, 0, error)
  {
    hide Refusal;
  }

  lemma RegexEnd(c: Code, base: nat)
    requires c.Regex? && base <= 0x7fff_ffff && base % 8 == 0 && |c.pattern| < 0x1_0000
    ensures base + Length(c) <= 0x8008_0000 && (base + Length(c)) % 8 == 0
  {}

  lemma WholeWritten(c: Code, b0: seq<u8>, b: seq<u8>, base: nat, next: nat, start: u32, error: Option<SaveError>)
    requires 24 <= base && (error.None? ==> start == base - 24)
    requires error == Refusal(c, base, |b0|) && SameBefore(b0, b, base)
    requires error.None? ==> next == base + Length(c) <= |b0| + 7 && Emitted(Padded(b)[base..next], c)
    requires error.None? ==> Padded(b)[next..] == Padded(b0)[next..] && next <= 0x8008_0000 && next % 8 == 0
    ensures Written(c, b0, b, base, next, start, error)
  {
    hide Refusal, Emitted;
  }

  lemma RefusalNone(off: nat, len: nat)
    ensures RefusalSubs([], off, len) == None
  {}

  lemma PaddedLength(b: seq<u8>)
    ensures |Padded(b)| == |b| + 7
  {}

  lemma PaddedPut(b: seq<u8>, o: nat, w: seq<u8>)
    requires o + |w| <= |b|
    ensures |Padded(b)| == |b| + 7 && Padded(Put(b, o, w)) == Put(Padded(b), o, w)
  {}

  lemma WriteFirst(b: seq<u8>, base: nat, block: seq<u8>)
    requires ValidFunction(block) && base + |block| <= |b| && |block| < 0x1_0000_0000
    ensures SameBefore(b, Put(b, base, block), base)
    ensures Progress(Padded(b), Padded(Put(b, base, block)), base, block, [], base + |block|)
  {
    hide ValidFunction, Progress;
    PaddedPut(b, base, block);
    ProgressStart(Padded(b), base, block);
  }

  lemma OneMore(subs: seq<Code>, i: nat, off: nat, len: nat)
    requires i < |subs| && ValidSubs(subs)
    ensures subs[..i + 1] == subs[..i] + [subs[i]] && (!subs[i].SelfRef? ==> ValidCode(subs[i]))
    ensures subs[i].SelfRef? ==> RefusalSubs(subs[i..], off, len) == RefusalSubs(subs[i + 1..], off, len)
    ensures !subs[i].SelfRef? ==>
              RefusalSubs(subs[i..], off, len)
              == if Refusal(subs[i], off, len).Some? then Refusal(subs[i], off, len)
                 else RefusalSubs(subs[i + 1..], off + Length(subs[i]), len)
    ensures AnyRegexSubs(subs[..i + 1]) == (AnyRegexSubs(subs[..i]) || AnyRegex(subs[i]))
    ensures AnyClassSubs(subs[..i + 1]) == (AnyClassSubs(subs[..i]) || AnyClass(subs[i]))
    ensures subs[i].SelfRef? ==> !AnyRegex(subs[i]) && !AnyClass(subs[i])
  {
    hide ValidCode, Refusal, Length;
    ValidAt(subs, i);
    assert subs[i..][1..] == subs[i + 1..];
    AnySnoc(subs[..i], subs[i]);
  }

  lemma AnySnoc(s: seq<Code>, c: Code)
    ensures AnyRegexSubs(s + [c]) == (AnyRegexSubs(s) || AnyRegex(c))
    ensures AnyClassSubs(s + [c]) == (AnyClassSubs(s) || AnyClass(c))
  {
    if s == [] {
      assert (s + [c])[1..] == [];
    } else {
      assert (s + [c])[1..] == s[1..] + [c];
      AnySnoc(s[1..], c);
    }
  }

  lemma SameThen(b0: seq<u8>, b1: seq<u8>, b2: seq<u8>, base: nat, off: nat)
    requires SameBefore(b0, b1, base) && SameBefore(b1, b2, off) && base <= off
    ensures SameBefore(b0, b2, base)
  {}

  lemma WrittenParts(c: Code, b0: seq<u8>, b: seq<u8>, off: nat, next: nat, start: u32, error: Option<SaveError>)
    requires Written(c, b0, b, off, next, start, error)
    ensures error == Refusal(c, off, |b0|) && SameBefore(b0, b, off)
    ensures error.None? ==> start == off - 24 && next == off + Length(c) <= |b0| + 7
    ensures error.None? ==> next <= 0x8008_0000 && next % 8 == 0
  {
    hide Refusal, Emitted;
  }

  // Between two rounds of the loop: i sub-functions are done, or an error was met.
  ghost predicate Ongoing(c: Code, b0: seq<u8>, b: seq<u8>, base: nat, i: nat, off: nat, error: Option<SaveError>) {
    && c.Function? && ValidFunction(c.block) && i <= |c.subs| == SubCount(c.block)
    && SameBefore(b0, b, base)
    && (error.Some? ==> error == Refusal(c, base, |b0|))
    && (error.None? ==>
          && Progress(Padded(b0), Padded(b), base, c.block, c.subs[..i], off)
          && base <= off && off % 8 == 0 && off <= 0x8008_0000
          && RefusalSubs(c.subs[i..], off, |b0|) == Refusal(c, base, |b0|))
  }

  lemma OngoingStart(c: Code, b0: seq<u8>, base: nat)
    requires c.Function? && ValidFunction(c.block) && |c.subs| == SubCount(c.block)
    requires base + |c.block| <= |b0| && base <= 0x7fff_ffff && |c.block| < 0x8_0000
    requires base % 8 == 0 && |c.block| % 8 == 0
    requires RefusalSubs(c.subs, base + |c.block|, |b0|) == Refusal(c, base, |b0|)
    ensures Ongoing(c, b0, Put(b0, base, c.block), base, 0, base + |c.block|, None)
  {
    hide ValidFunction, SubCount, Refusal, RefusalSubs, Progress, SameBefore;
    WriteFirst(b0, base, c.block);
    assert c.subs[..0] == [] && c.subs[0..] == c.subs;
  }

  lemma OngoingParts(c: Code, b0: seq<u8>, b: seq<u8>, base: nat, i: nat, off: nat, error: Option<SaveError>)
    requires Ongoing(c, b0, b, base, i, off, error)
    ensures c.Function? && ValidFunction(c.block) && i <= |c.subs| == SubCount(c.block)
    ensures SameBefore(b0, b, base)
    ensures error.Some? ==> error == Refusal(c, base, |b0|)
    ensures error.None? ==>
              && Progress(Padded(b0), Padded(b), base, c.block, c.subs[..i], off)
              && base <= off && off % 8 == 0 && off <= 0x8008_0000
              && RefusalSubs(c.subs[i..], off, |b0|) == Refusal(c, base, |b0|)
  {
    hide ValidFunction, SubCount, Refusal, RefusalSubs, Progress, SameBefore;
  }

  lemma OngoingWhole(c: Code, b0: seq<u8>, b: seq<u8>, base: nat, i: nat, off: nat, error: Option<SaveError>)
    requires c.Function? && ValidFunction(c.block) && i <= |c.subs| == SubCount(c.block)
    requires SameBefore(b0, b, base)
    requires error.Some? ==> error == Refusal(c, base, |b0|)
    requires error.None? ==>
              && Progress(Padded(b0), Padded(b), base, c.block, c.subs[..i], off)
              && base <= off && off % 8 == 0 && off <= 0x8008_0000
              && RefusalSubs(c.subs[i..], off, |b0|) == Refusal(c, base, |b0|)
    ensures Ongoing(c, b0, b, base, i, off, error)
  {
    hide ValidFunction, SubCount, Refusal, RefusalSubs, Progress, SameBefore;
  }

  lemma SelfStep(c: Code, b0: seq<u8>, b: seq<u8>, base: nat, i: nat, off: nat, error: Option<SaveError>, o: nat)
    requires Ongoing(c, b0, b, base, i, off, error) && ValidCode(c) && i < |c.subs| && c.subs[i].SelfRef?
    requires o == base + SubStart(c.block) + 4 * i && o + 4 <= |b|
    ensures Ongoing(c, b0, Put(b, o, Word(0)), base, i + 1, off, error)
  {
    hide *;
    OngoingParts(c, b0, b, base, i, off, error);
    ValidParts(c);
    Bounds(c.block);
    WordLength(0);
    OneMore(c.subs, i, off, |b0|);
    SamePut(b0, b, base, o, Word(0));
    SameLength(b0, b, base);
    if error.None? {
      ProgressParts(Padded(b0), Padded(b), base, c.block, c.subs[..i], off);
      LengthNone();
      PaddedPut(b, o, Word(0));
      ProgressNext(Padded(b0), Padded(b), Padded(b), base, c.block, c.subs[..i], c.subs[i], off, 0);
    }
    OngoingWhole(c, b0, Put(b, o, Word(0)), base, i + 1, off, error);
  }

  lemma SameLength(b0: seq<u8>, b: seq<u8>, off: nat)
    requires SameBefore(b0, b, off)
    ensures |b0| == |b|
  {}

  // A call for sub-function i turned b1 into b2; value is what is stored for it.
  lemma ChildStep(c: Code, b0: seq<u8>, b1: seq<u8>, b2: seq<u8>, base: nat, i: nat, off: nat, error: Option<SaveError>,
                  next: nat, start: u32, error2: Option<SaveError>, o: nat, value: u32)
    requires Ongoing(c, b0, b1, base, i, off, error) && ValidCode(c) && i < |c.subs| && !c.subs[i].SelfRef?
    requires error.Some? ==> b2 == b1 && error2 == error
    requires error.None? ==> Written(c.subs[i], b1, b2, off, next, start, error2)
    requires 24 <= base && value == (start - (base - 24)) % 0x1_0000_0000
    requires o == base + SubStart(c.block) + 4 * i && o + 4 <= |b2|
    ensures Ongoing(c, b0, Put(b2, o, Word(value)), base, i + 1, next, error2)
  {
    hide *;
    OngoingParts(c, b0, b1, base, i, off, error);
    ValidParts(c);
    Bounds(c.block);
    WordLength(value);
    OneMore(c.subs, i, off, |b0|);
    SameLength(b0, b1, base);
    if error.Some? {
      SamePut(b0, b2, base, o, Word(value));
      OngoingWhole(c, b0, Put(b2, o, Word(value)), base, i + 1, next, error2);
    } else {
      WrittenParts(c.subs[i], b1, b2, off, next, start, error2);
      SameThen(b0, b1, b2, base, off);
      SamePut(b0, b2, base, o, Word(value));
      if error2.None? {
        ChildProgress(c, b0, b1, b2, base, i, off, next, start, o, value);
      }
      OngoingWhole(c, b0, Put(b2, o, Word(value)), base, i + 1, next, error2);
    }
  }

  lemma ChildProgress(c: Code, b: seq<u8>, b1: seq<u8>, b2: seq<u8>, base: nat, i: nat, off: nat, next: nat, start: u32, o: nat, value: u32)
    requires c.Function? && ValidFunction(c.block) && i < |c.subs| == SubCount(c.block) && !c.subs[i].SelfRef?
    requires Progress(Padded(b), Padded(b1), base, c.block, c.subs[..i], off)
    requires Written(c.subs[i], b1, b2, off, next, start, None)
    requires 24 <= base && value == (start - (base - 24)) % 0x1_0000_0000
    requires o == base + SubStart(c.block) + 4 * i && o + 4 <= |b2|
    ensures Progress(Padded(b), Padded(Put(b2, o, Word(value))), base, c.block, c.subs[..i + 1], next)
  {
    hide *;
    ProgressParts(Padded(b), Padded(b1), base, c.block, c.subs[..i], off);
    WrittenEmitted(c.subs[i], b1, b2, off, next, start);
    WordLength(value);
    PaddedPut(b2, o, Word(value));
    assert c.subs[..i + 1] == c.subs[..i] + [c.subs[i]];
    AfterBoth(Padded(b), Padded(b1), Padded(b2), off, next);
    ProgressNext(Padded(b), Padded(b1), Padded(b2), base, c.block, c.subs[..i], c.subs[i], off, value);
  }

  lemma OngoingEnd(c: Code, b0: seq<u8>, b: seq<u8>, base: nat, off: nat, error: Option<SaveError>, start: u32)
    requires c.Function? && Ongoing(c, b0, b, base, |c.subs|, off, error) && 24 <= base && start == base - 24
    ensures Written(c, b0, b, base, off, start, error)
  {
    hide *;
    OngoingParts(c, b0, b, base, |c.subs|, off, error);
    assert c.subs[..|c.subs|] == c.subs && c.subs[|c.subs|..] == [];
    RefusalNone(off, |b0|);
    PaddedLength(b0);
    if error.None? {
      assert c == Function(c.block, c.subs);
      ProgressEnd(Padded(b0), Padded(b), base, c.block, c.subs, off);
    }
    WholeWritten(c, b0, b, base, off, start, error);
  }

  lemma AfterBoth(v0: seq<u8>, v1: seq<u8>, v2: seq<u8>, off: nat, next: nat)
    requires off <= next <= |v0| == |v1| == |v2| && v1[off..] == v0[off..] && v2[next..] == v1[next..]
    ensures v2[next..] == v0[next..]
  {
    assert v1[next..] == v1[off..][next - off..];
    assert v0[next..] == v0[off..][next - off..];
  }

  lemma WrittenEmitted(c: Code, b0: seq<u8>, b: seq<u8>, off: nat, next: nat, start: u32)
    requires Written(c, b0, b, off, next, start, None)
    ensures start == off - 24 && next == off + Length(c) <= |b0| + 7 && next <= 0x8008_0000
    ensures |b| == |b0| && |Padded(b)| == |b| + 7 && |Padded(b0)| == |b0| + 7
    ensures Padded(b)[..off] == Padded(b0)[..off] && Padded(b)[next..] == Padded(b0)[next..]
    ensures Emitted(Padded(b)[off..next], c)
  {
    hide Refusal, Emitted;
  }

  // snapshot_add_compiled_code
  method AddCompiledCode(c: Code, a: array<u8>, g: Globals) returns (start: u32)
    requires ValidCode(c) && (g.error.None? ==> 24 <= g.offset && g.offset % 8 == 0)
    modifies a, g
    ensures old(g.error).Some? ==>
              && start == 0 && a[..] == old(a[..]) && g.error == old(g.error) && g.offset == old(g.offset)
              && g.regexFound == old(g.regexFound) && g.classFound == old(g.classFound)
    ensures old(g.error).None? ==>
              && Written(c, old(a[..]), a[..], old(g.offset), g.offset, start, g.error)
              && (g.error.None? ==>
                    && g.regexFound == (old(g.regexFound) || AnyRegex(c))
                    && g.classFound == (old(g.classFound) || AnyClass(c)))
    decreases c
  {
    hide *;
    if g.error.Some? {
      return 0;
    }
    ghost var b := a[..];
    var base, subs := g.offset, if c.Function? then c.subs else [];
    CodeParts(c);
    RefusalStep(c, base, a.Length);
    if g.offset > 0x7fff_ffff {
      g.error := Some(MaximumSize);
      Refused(c, b, base, g.offset, g.error);
      return 0;
    }
    start := g.offset - 24;
    var flags := if c.Regex? then c.flags else Flags(c.block);
    if HasTaggedLiterals(flags) {
      g.error := Some(TaggedTemplateLiterals);
      Refused(c, b, base, g.offset, g.error);
      return 0;
    }
    if IsConstructor(flags) {
      g.classFound := true;
    }
    if !IsFunction(flags) {
      AddRegex(c.flags, c.pattern, a, g);
      RegexEnd(c, base);
      WholeWritten(c, b, a[..], base, g.offset, if g.error.None? then start else 0, g.error);
      return if g.error.None? then start else 0;
    }
    var block := c.block;
    var ok, next := WriteToBuffer(a, g.offset, block);
    g.offset := next;
    if !ok {
      g.error := Some(BufferTooSmall);
      Refused(c, b, base, g.offset, g.error);
      return 0;
    }
    Bounds(block);
    OngoingStart(c, b, base);
    NoneYet();
    var i := 0;
    while i < |subs|
      invariant 0 <= i <= |subs|
      invariant Ongoing(c, b, a[..], base, i, g.offset, g.error)
      invariant g.error.None? ==>
                  && g.regexFound == (old(g.regexFound) || AnyRegexSubs(subs[..i]))
                  && g.classFound == (old(g.classFound) || IsConstructor(flags) || AnyClassSubs(subs[..i]))
    {
      ghost var b1, off, error := a[..], g.offset, g.error;
      OngoingParts(c, b, b1, base, i, off, error);
      OneMore(subs, i, off, a.Length);
      var o := base + SubStart(block) + 4 * i;
      if subs[i].SelfRef? {
        SelfStep(c, b, b1, base, i, off, error, o);
        StoreWord(a, o, 0);
      } else {
        var offset := AddCompiledCode(subs[i], a, g);
        ghost var value := (offset - start) % 0x1_0000_0000;
        ChildStep(c, b, b1, a[..], base, i, off, error, g.offset, offset, g.error, o, value);
        StoreWord(a, o, (offset - start) % 0x1_0000_0000);
      }
      i := i + 1;
    }
    assert subs[..i] == subs;
    OngoingEnd(c, b, a[..], base, g.offset, g.error, start);
  }

  lemma NoneYet()
    ensures !AnyRegexSubs([]) && !AnyClassSubs([])
  {}
}
