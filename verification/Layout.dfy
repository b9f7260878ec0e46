// The layout of one compiled function in memory and in a snapshot
// (jerry-core/parser/js/byte-code.h, jerry-core/ecma/base/ecma-literal-storage.c).
module Layout {
  import opened Bytes

  // ---- header fields

  function SizeOf(b: seq<u8>): nat
    requires |b| >= 8
  {
    8 * Get16(b, 0)
  }

  function Refs(b: seq<u8>): u16
    requires |b| >= 8
  {
    Get16(b, 2)
  }

  function Flags(b: seq<u8>): u16
    requires |b| >= 8
  {
    Get16(b, 4)
  }

  // The type is in the top four bits; type 0 is a regular expression.
  predicate IsFunction(flags: u16) { flags >= 0x1000 }
  predicate IsConstructor(flags: u16) { flags / 0x1000 == 2 }
  predicate IsWide(flags: u16) { flags / 0x2 % 2 == 1 }
  predicate IsMapped(flags: u16) { flags / 0x8 % 2 == 1 }
  predicate HasExtendedInfo(flags: u16) { flags / 0x20 % 2 == 1 }
  predicate HasTaggedLiterals(flags: u16) { flags / 0x40 % 2 == 1 }
  predicate IsStatic(flags: u16) { flags / 0x80 % 2 == 1 }

  function HeaderSize(flags: u16): nat {
    if IsWide(flags) then 20 else 12
  }

  // stack_limit, argument_end, register_end, ident_end, const_literal_end, literal_end
  function Field(b: seq<u8>, i: nat): u16
    requires i < 6 && |b| >= 8 && |b| >= HeaderSize(Flags(b))
  {
    if IsWide(Flags(b)) then Get16(b, 6 + 2 * i) else b[6 + i]
  }

  // The header is complete and its counters are in order.
  predicate HasHeader(b: seq<u8>) {
    && |b| >= 8 && |b| >= HeaderSize(Flags(b))
    && Field(b, 2) <= Field(b, 4) <= Field(b, 5)
  }

  function ConstEnd(b: seq<u8>): nat
    requires HasHeader(b)
  {
    Field(b, 4) - Field(b, 2)
  }

  function LiteralEnd(b: seq<u8>): nat
    requires HasHeader(b)
  {
    Field(b, 5) - Field(b, 2)
  }

  // Number of serializable values at the end: argument names and the function name.
  function Trailing(b: seq<u8>): nat
    requires HasHeader(b)
  {
    (if IsMapped(Flags(b)) then Field(b, 1) else 0) + (if IsConstructor(Flags(b)) then 0 else 1)
  }

  // A complete block of a function that can be stored in a (non-static) snapshot.
  predicate ValidFunction(b: seq<u8>) {
    && HasHeader(b) && |b| == SizeOf(b)
    && IsFunction(Flags(b)) && !IsStatic(Flags(b))
    && HeaderSize(Flags(b)) + 4 * LiteralEnd(b) + 4 * Trailing(b) <= |b|
  }

  function ConstStart(b: seq<u8>): nat
    requires ValidFunction(b)
  {
    HeaderSize(Flags(b))
  }

  function SubStart(b: seq<u8>): nat
    requires ValidFunction(b)
  {
    HeaderSize(Flags(b)) + 4 * ConstEnd(b)
  }

  function SubCount(b: seq<u8>): nat
    requires ValidFunction(b)
  {
    LiteralEnd(b) - ConstEnd(b)
  }

  function TailStart(b: seq<u8>): nat
    requires ValidFunction(b)
  {
    |b| - 4 * Trailing(b)
  }

  // The bytes that are in none of the three runs of values.
  predicate Fixed(b: seq<u8>, k: int)
    requires ValidFunction(b)
  {
    && 0 <= k < TailStart(b)
    && (k < ConstStart(b) || SubStart(b) + 4 * SubCount(b) <= k)
  }

  // The runs follow one another.
  lemma Bounds(b: seq<u8>)
    requires ValidFunction(b)
    ensures HasHeader(b) && |b| >= 12 && 12 <= HeaderSize(Flags(b)) == ConstStart(b) && SubStart(b) == ConstStart(b) + 4 * ConstEnd(b)
    ensures SubStart(b) + 4 * SubCount(b) <= TailStart(b) <= |b| && TailStart(b) + 4 * Trailing(b) == |b|
  {}

  // Everything the layout depends on.
  ghost predicate SameLayout(b: seq<u8>, c: seq<u8>)
    requires |b| >= 8
  {
    && |c| == |b|
    && c[0] == b[0] && c[1] == b[1]
    && forall k :: 4 <= k < HeaderSize(Flags(b)) && k < |b| ==> c[k] == b[k]
  }

  lemma LayoutKept(b: seq<u8>, c: seq<u8>)
    requires ValidFunction(b) && SameLayout(b, c)
    ensures ValidFunction(c)
    ensures ConstStart(c) == ConstStart(b) && ConstEnd(c) == ConstEnd(b) && LiteralEnd(c) == LiteralEnd(b)
    ensures SubStart(c) == SubStart(b) && SubCount(c) == SubCount(b)
    ensures TailStart(c) == TailStart(b) && Trailing(c) == Trailing(b)
    ensures Flags(c) == Flags(b) && SizeOf(c) == SizeOf(b)
    ensures forall k :: Fixed(c, k) <==> Fixed(b, k)
  {
    assert c[4] == b[4] && c[5] == b[5];
    hide IsWide, IsMapped, HasTaggedLiterals, IsStatic, IsConstructor, IsFunction;
    assert Flags(c) == Flags(b) && SizeOf(c) == SizeOf(b);
    forall i: nat | i < 6 ensures Field(c, i) == Field(b, i) {
      if IsWide(Flags(b)) {
        assert c[6 + 2 * i] == b[6 + 2 * i] && c[7 + 2 * i] == b[7 + 2 * i];
      } else {
        assert c[6 + i] == b[6 + i];
      }
    }
  }

  // ---- patches: the in-place passes over a block

  datatype Patch = Patch(consts: u32 -> u32, trailing: u32 -> u32, unshare: bool)

  function Unshared(b: seq<u8>, yes: bool): (r: seq<u8>)
    requires |b| >= 8
    ensures |r| == |b|
  {
    if yes then Put(b, 2, Half(1)) else b
  }

  // A reference counter of 1 occupies bytes 2 and 3.
  function FixedByte(b: seq<u8>, k: int, unshare: bool): u8
    requires 0 <= k < |b|
  {
    if unshare && k == 2 then 1 else if unshare && k == 3 then 0 else b[k]
  }

  function ApplyPatch(b: seq<u8>, p: Patch): (r: seq<u8>)
    requires ValidFunction(b)
    ensures |r| == |b|
  {
    MapWords(MapWords(Unshared(b, p.unshare), ConstStart(b), ConstEnd(b), p.consts),
             TailStart(b), Trailing(b), p.trailing)
  }

  function PutSubs(b: seq<u8>, offs: seq<u32>): (r: seq<u8>)
    requires ValidFunction(b) && |offs| == SubCount(b)
    ensures |r| == |b|
  {
    PutWords(b, SubStart(b), offs)
  }

  lemma FixedBounds(b: seq<u8>, k: int)
    requires ValidFunction(b) && Fixed(b, k)
    ensures 0 <= k < TailStart(b) && (k < ConstStart(b) || SubStart(b) + 4 * SubCount(b) <= k)
  {}

  lemma ApplyPatchFixed(b: seq<u8>, p: Patch)
    requires ValidFunction(b)
    ensures forall k :: Fixed(b, k) ==> ApplyPatch(b, p)[k] == FixedByte(b, k, p.unshare)
  {
    var u := Unshared(b, p.unshare);
    UnsharedAt(b, p.unshare);
    Bounds(b);
    var m := MapWords(u, ConstStart(b), ConstEnd(b), p.consts);
    assert ApplyPatch(b, p) == MapWords(m, TailStart(b), Trailing(b), p.trailing);
    hide *;
    MapWordsAt(u, ConstStart(b), ConstEnd(b), p.consts);
    MapWordsAt(m, TailStart(b), Trailing(b), p.trailing);
    forall k | Fixed(b, k) ensures ApplyPatch(b, p)[k] == FixedByte(b, k, p.unshare) {
      FixedBounds(b, k);
    }
  }

  lemma ApplyPatchLayout(b: seq<u8>, p: Patch)
    requires ValidFunction(b)
    ensures SameLayout(b, ApplyPatch(b, p)) && ValidFunction(ApplyPatch(b, p))
  {
    hide *;
    ApplyPatchFixed(b, p);
    HeaderFixed(b);
    SameHeader(b, ApplyPatch(b, p), p.unshare);
    LayoutKept(b, ApplyPatch(b, p));
  }

  lemma SameHeader(b: seq<u8>, c: seq<u8>, unshare: bool)
    requires ValidFunction(b) && |c| == |b|
    requires c[0] == FixedByte(b, 0, unshare) && c[1] == FixedByte(b, 1, unshare)
    requires forall k :: 4 <= k < HeaderSize(Flags(b)) ==> c[k] == FixedByte(b, k, unshare)
    ensures SameLayout(b, c)
  {
    Bounds(b);
    hide ValidFunction, HeaderSize, Flags, HasHeader;
  }

  lemma ApplyPatchAt(b: seq<u8>, p: Patch)
    requires ValidFunction(b)
    ensures SameLayout(b, ApplyPatch(b, p)) && ValidFunction(ApplyPatch(b, p))
    ensures var r := ApplyPatch(b, p);
            && (forall i :: 0 <= i < ConstEnd(b) ==> GetWord(r, ConstStart(b), i) == p.consts(GetWord(b, ConstStart(b), i)))
            && (forall i :: 0 <= i < SubCount(b) ==> GetWord(r, SubStart(b), i) == GetWord(b, SubStart(b), i))
            && (forall i :: 0 <= i < Trailing(b) ==> GetWord(r, TailStart(b), i) == p.trailing(GetWord(b, TailStart(b), i)))
            && (forall k :: Fixed(b, k) ==> r[k] == FixedByte(b, k, p.unshare))
  {
    ApplyPatchLayout(b, p);
    ApplyPatchFixed(b, p);
    UnsharedAt(b, p.unshare);
    Bounds(b);
    var u := Unshared(b, p.unshare);
    var m := MapWords(u, ConstStart(b), ConstEnd(b), p.consts);
    var r := MapWords(m, TailStart(b), Trailing(b), p.trailing);
    assert ApplyPatch(b, p) == r;
    hide *;
    MapWordsAt(u, ConstStart(b), ConstEnd(b), p.consts);
    MapWordsAt(m, TailStart(b), Trailing(b), p.trailing);
    RunValues(b, u, m, r, p);
  }

  lemma RunValues(b: seq<u8>, u: seq<u8>, m: seq<u8>, r: seq<u8>, p: Patch)
    requires ValidFunction(b) && |u| == |m| == |r| == |b|
    requires forall o: nat :: 4 <= o && o + 4 <= |b| ==> Get32(u, o) == Get32(b, o)
    requires forall i :: 0 <= i < ConstEnd(b) ==> GetWord(m, ConstStart(b), i) == p.consts(GetWord(u, ConstStart(b), i))
    requires forall o: nat :: o + 4 <= |b| && (o + 4 <= ConstStart(b) || SubStart(b) <= o) ==> Get32(m, o) == Get32(u, o)
    requires forall i :: 0 <= i < Trailing(b) ==> GetWord(r, TailStart(b), i) == p.trailing(GetWord(m, TailStart(b), i))
    requires forall o: nat :: o + 4 <= TailStart(b) ==> Get32(r, o) == Get32(m, o)
    ensures forall i :: 0 <= i < ConstEnd(b) ==> GetWord(r, ConstStart(b), i) == p.consts(GetWord(b, ConstStart(b), i))
    ensures forall i :: 0 <= i < SubCount(b) ==> GetWord(r, SubStart(b), i) == GetWord(b, SubStart(b), i)
    ensures forall i :: 0 <= i < Trailing(b) ==> GetWord(r, TailStart(b), i) == p.trailing(GetWord(b, TailStart(b), i))
  {
    Bounds(b);
    hide Get32, ValidFunction, HasHeader, ConstStart, ConstEnd, SubStart, SubCount, TailStart, Trailing;
    forall i | 0 <= i < ConstEnd(b)
      ensures GetWord(r, ConstStart(b), i) == p.consts(GetWord(b, ConstStart(b), i))
    {
      assert GetWord(m, ConstStart(b), i) == p.consts(GetWord(u, ConstStart(b), i));
    }
    forall i | 0 <= i < Trailing(b)
      ensures GetWord(r, TailStart(b), i) == p.trailing(GetWord(b, TailStart(b), i))
    {
      assert GetWord(r, TailStart(b), i) == p.trailing(GetWord(m, TailStart(b), i));
    }
  }

  lemma HeaderFixed(b: seq<u8>)
    requires ValidFunction(b)
    ensures Fixed(b, 0) && Fixed(b, 1) && forall k :: 4 <= k < HeaderSize(Flags(b)) ==> Fixed(b, k)
  {}

  lemma UnsharedAt(b: seq<u8>, yes: bool)
    requires |b| >= 8
    ensures forall k :: 0 <= k < |b| ==> Unshared(b, yes)[k] == FixedByte(b, k, yes)
    ensures forall o: nat :: 4 <= o && o + 4 <= |b| ==> Get32(Unshared(b, yes), o) == Get32(b, o)
  {
    hide Get32, Half;
    var r := Unshared(b, yes);
    if yes {
      assert r[2] == Half(1)[0] && r[3] == Half(1)[1];
    }
    forall o: nat | 4 <= o && o + 4 <= |b| ensures Get32(r, o) == Get32(b, o) {
      assert r[o..o + 4] == b[o..o + 4];
      Get32Slice(r, b, o, o);
    }
  }

  lemma PutSubsAt(b: seq<u8>, offs: seq<u32>)
    requires ValidFunction(b) && |offs| == SubCount(b)
    ensures SameLayout(b, PutSubs(b, offs)) && ValidFunction(PutSubs(b, offs))
    ensures var r := PutSubs(b, offs);
            && (forall i :: 0 <= i < ConstEnd(b) ==> GetWord(r, ConstStart(b), i) == GetWord(b, ConstStart(b), i))
            && (forall i :: 0 <= i < SubCount(b) ==> GetWord(r, SubStart(b), i) == offs[i])
            && (forall i :: 0 <= i < Trailing(b) ==> GetWord(r, TailStart(b), i) == GetWord(b, TailStart(b), i))
            && (forall k :: Fixed(b, k) ==> r[k] == b[k])
  {
    hide Get32, PutWords;
    PutWordsAt(b, SubStart(b), offs);
    LayoutKept(b, PutSubs(b, offs));
  }

  // A block is its fixed bytes and its three runs of values.
  lemma BlockExtensional(b: seq<u8>, c: seq<u8>)
    requires ValidFunction(b) && |c| == |b|
    requires forall i :: 0 <= i < ConstEnd(b) ==> GetWord(c, ConstStart(b), i) == GetWord(b, ConstStart(b), i)
    requires forall i :: 0 <= i < SubCount(b) ==> GetWord(c, SubStart(b), i) == GetWord(b, SubStart(b), i)
    requires forall i :: 0 <= i < Trailing(b) ==> GetWord(c, TailStart(b), i) == GetWord(b, TailStart(b), i)
    requires forall k :: Fixed(b, k) ==> c[k] == b[k]
    ensures b == c
  {
    Bounds(b);
    hide Get32, GetWord, ValidFunction, HasHeader, ConstStart, ConstEnd, SubStart, SubCount, TailStart, Trailing;
    forall k | 0 <= k < |b| ensures b[k] == c[k] {
      if Fixed(b, k) {
      } else if k < SubStart(b) {
        RunByte(b, c, ConstStart(b), ConstEnd(b), k);
      } else if k < TailStart(b) {
        RunByte(b, c, SubStart(b), SubCount(b), k);
      } else {
        RunByte(b, c, TailStart(b), Trailing(b), k);
      }
    }
  }

  // ---- algebra of patches

  function Then(p: Patch, q: Patch): Patch {
    Patch(x => q.consts(p.consts(x)), x => q.trailing(p.trailing(x)), p.unshare || q.unshare)
  }

  lemma PatchCompose(b: seq<u8>, p: Patch, q: Patch)
    requires ValidFunction(b)
    ensures ValidFunction(ApplyPatch(b, p))
    ensures ApplyPatch(ApplyPatch(b, p), q) == ApplyPatch(b, Then(p, q))
  {
    hide ApplyPatch, Get32, Fixed;
    ApplyPatchAt(b, p);
    var m := ApplyPatch(b, p);
    ApplyPatchAt(m, q);
    ApplyPatchAt(b, Then(p, q));
    LayoutKept(b, m);
    LayoutKept(m, ApplyPatch(m, q));
    BlockExtensional(ApplyPatch(m, q), ApplyPatch(b, Then(p, q)));
  }

  // Only the values present in the block matter.
  lemma PatchAgree(b: seq<u8>, p: Patch, q: Patch)
    requires ValidFunction(b) && p.unshare == q.unshare
    requires forall i :: 0 <= i < ConstEnd(b) ==>
               p.consts(GetWord(b, ConstStart(b), i)) == q.consts(GetWord(b, ConstStart(b), i))
    requires forall i :: 0 <= i < Trailing(b) ==>
               p.trailing(GetWord(b, TailStart(b), i)) == q.trailing(GetWord(b, TailStart(b), i))
    ensures ApplyPatch(b, p) == ApplyPatch(b, q)
  {
    hide ApplyPatch, Get32, Fixed;
    ApplyPatchAt(b, p);
    ApplyPatchAt(b, q);
    LayoutKept(b, ApplyPatch(b, p));
    BlockExtensional(ApplyPatch(b, p), ApplyPatch(b, q));
  }

  // Patching the values and storing the offsets of sub-functions are independent.
  lemma PatchPutSubs(b: seq<u8>, p: Patch, offs: seq<u32>)
    requires ValidFunction(b) && |offs| == SubCount(b)
    ensures ValidFunction(PutSubs(b, offs)) && ValidFunction(ApplyPatch(b, p)) && SubCount(ApplyPatch(b, p)) == |offs|
    ensures ApplyPatch(PutSubs(b, offs), p) == PutSubs(ApplyPatch(b, p), offs)
  {
    hide ApplyPatch, PutSubs, Get32, Fixed;
    ApplyPatchAt(b, p);
    PutSubsAt(b, offs);
    var x, y := PutSubs(b, offs), ApplyPatch(b, p);
    LayoutKept(b, x);
    LayoutKept(b, y);
    ApplyPatchAt(x, p);
    PutSubsAt(y, offs);
    LayoutKept(x, ApplyPatch(x, p));
    BlockExtensional(ApplyPatch(x, p), PutSubs(y, offs));
  }

  // Storing sub-function offsets twice keeps the last.
  lemma PutSubsTwice(b: seq<u8>, offs: seq<u32>, again: seq<u32>)
    requires ValidFunction(b) && |offs| == |again| == SubCount(b)
    ensures ValidFunction(PutSubs(b, offs)) && SubCount(PutSubs(b, offs)) == |again|
    ensures PutSubs(PutSubs(b, offs), again) == PutSubs(b, again)
  {
    hide PutSubs, Get32, Fixed;
    PutSubsAt(b, offs);
    PutSubsAt(b, again);
    var x := PutSubs(b, offs);
    LayoutKept(b, x);
    PutSubsAt(x, again);
    LayoutKept(x, PutSubs(x, again));
    BlockExtensional(PutSubs(x, again), PutSubs(b, again));
  }
}
