// Loading without copying the byte code (snapshot_load_compiled_code, copy_bytecode false):
// a new block holds the header, the literals and the values at the end, and refers to the
// byte code in the snapshot.
module SnapshotNoCopy {
  import opened Bytes
  import opened Layout
  import opened Snapshot

  // What the engine adds: whether JERRY_RESOURCE_NAME is set, the opcode that redirects, the
  // address of the byte that is so many bytes before the end of the snapshot, and what a new
  // block for the code so many bytes before the end contains before it is written.
  datatype Host = Host(resourceName: bool, opcode: u8, address: nat -> seq<u8>, memory: (nat, nat) -> u8)

  ghost predicate SaneHost(h: Host) {
    forall n :: |h.address(n)| == 8
  }

  function LiteralsEnd(code: seq<u8>): nat
    requires ValidFunction(code)
  {
    ConstStart(code) + 4 * LiteralEnd(code)
  }

  // The number of bytes kept from the end of the code.
  function ExtraBytes(code: seq<u8>, h: Host): nat
    requires ValidFunction(code)
  {
    4 * Trailing(code) + (if HasTaggedLiterals(Flags(code)) then 4 else 0) + (if h.resourceName then 4 else 0)
  }

  function NewSize(code: seq<u8>, h: Host): nat
    requires ValidFunction(code)
  {
    (LiteralsEnd(code) + 1 + 8 + ExtraBytes(code, h) + 7) / 8 * 8
  }

  // Short code is copied all the same; the estimate counts two bytes for a literal.
  predicate IsRedirected(code: seq<u8>)
    requires ValidFunction(code)
  {
    ConstStart(code) + 2 * LiteralEnd(code) + 8 <= |code|
  }

  // Read from the fields of the header: when a block is redirected, what is kept, and the size of
  // the new block, the least that has room and is a whole number of units.
  lemma RedirectMeans(code: seq<u8>, h: Host)
    requires ValidFunction(code)
    ensures |code| >= 12 && (Get16(code, 4) / 2 % 2 == 1 ==> |code| >= 20)
    ensures var flags := Get16(code, 4);
            var start := if flags / 2 % 2 == 1 then 20 else 12;
            var arguments := if flags / 2 % 2 == 1 then Get16(code, 8) as int else code[7] as int;
            var literals := if flags / 2 % 2 == 1 then Get16(code, 16) - Get16(code, 10) else code[11] - code[8];
            && LiteralsEnd(code) == start + 4 * literals
            && (IsRedirected(code) <==> start + 2 * literals + 8 <= |code|)
            && ExtraBytes(code, h)
               == 4 * ((if flags / 8 % 2 == 1 then arguments else 0) + (if flags / 0x1000 == 2 then 0 else 1)
                       + (if flags / 0x40 % 2 == 1 then 1 else 0) + (if h.resourceName then 1 else 0))
    ensures NewSize(code, h) % 8 == 0 && 0 <= NewSize(code, h) - (LiteralsEnd(code) + 9 + ExtraBytes(code, h)) < 8
  {}

  // Byte k of the new block.
  function NewByte(code: seq<u8>, after: nat, h: Host, k: nat): u8
    requires ValidFunction(code) && SaneHost(h) && k < NewSize(code, h) && ExtraBytes(code, h) <= |code|
  {
    var start, n, extra := LiteralsEnd(code), NewSize(code, h), ExtraBytes(code, h);
    if k < 2 then Half(n / 8 % 0x1_0000)[k]
    else if k < start then code[k]
    else if k == start then h.opcode
    else if k < start + 9 then h.address(after + |code| - start)[k - start - 1]
    else if k >= n - extra then code[|code| - n + k]
    else h.memory(after + |code|, k)
  }

  function Redirect(code: seq<u8>, after: nat, h: Host): (r: seq<u8>)
    requires ValidFunction(code) && SaneHost(h) && ExtraBytes(code, h) <= |code|
    ensures |r| == NewSize(code, h)
  {
    seq(NewSize(code, h), k requires 0 <= k < NewSize(code, h) => NewByte(code, after, h, k))
  }

  lemma ExtraFits(code: seq<u8>, h: Host)
    requires ValidFunction(code)
    ensures ExtraBytes(code, h) <= |code| && 12 <= LiteralsEnd(code) && LiteralsEnd(code) + 4 * Trailing(code) <= |code|
    ensures LiteralsEnd(code) + 9 + ExtraBytes(code, h) <= NewSize(code, h)
    ensures 4 * Trailing(code) <= ExtraBytes(code, h) && NewSize(code, h) % 8 == 0
    ensures TailStart(code) == |code| - 4 * Trailing(code)
  {
    Bounds(code);
    assert LiteralsEnd(code) + 4 * Trailing(code) <= |code|;
    hide ValidFunction, LiteralsEnd, Trailing, ConstStart, HasTaggedLiterals, Flags;
  }

  // The branch of snapshot_load_compiled_code that allocates a redirecting block.
  method RedirectBlock(code: seq<u8>, after: nat, h: Host) returns (a: array<u8>)
    requires ValidFunction(code) && SaneHost(h) && IsRedirected(code)
    ensures ExtraBytes(code, h) <= |code|
    ensures fresh(a) && a[..] == Redirect(code, after, h)
  {
    hide ValidFunction, HasHeader, LiteralsEnd, ExtraBytes, NewSize, IsRedirected, TailStart, Trailing, Half, SaneHost;
    ExtraFits(code, h);
    AddressSize(h, after + |code| - LiteralsEnd(code));
    var start, n, extra := LiteralsEnd(code), NewSize(code, h), ExtraBytes(code, h);
    a := new u8[n](i requires 0 <= i < n => h.memory(after + |code|, i));
    forall k | 0 <= k < start {
      a[k] := code[k];
    }
    var size := Half(n / 8 % 0x1_0000);
    a[0], a[1] := size[0], size[1];
    if extra != 0 {
      forall k | n - extra <= k < n {
        a[k] := code[|code| - n + k];
      }
    }
    a[start] := h.opcode;
    var pointer := h.address(after + |code| - start);
    forall k | start + 1 <= k < start + 9 {
      a[k] := pointer[k - start - 1];
    }
    assert forall k :: 0 <= k < n ==> a[k] == NewByte(code, after, h, k);
  }

  lemma AddressSize(h: Host, n: nat)
    requires SaneHost(h)
    ensures |h.address(n)| == 8
  {}

  // The block the engine works on.
  function Shared(code: seq<u8>, after: nat, h: Host): seq<u8>
    requires ValidFunction(code) && SaneHost(h)
  {
    ExtraFits(code, h);
    if IsRedirected(code) then Redirect(code, after, h) else code
  }

  // ---- the same function to the engine: flags, counters, literals, references and values at
  // the end; only the size and the byte code itself differ

  ghost predicate SameView(b: seq<u8>, r: seq<u8>) {
    && ValidFunction(b) && ValidFunction(r)
    && (forall k :: 2 <= k < HeaderSize(Flags(b)) && k < |b| && k < |r| ==> r[k] == b[k])
    && SameRuns(b, r)
  }

  ghost predicate SameRuns(b: seq<u8>, r: seq<u8>)
    requires ValidFunction(b) && ValidFunction(r)
  {
    && ConstStart(r) == ConstStart(b) && ConstEnd(r) == ConstEnd(b) && SubStart(r) == SubStart(b)
    && SubCount(r) == SubCount(b) && Trailing(r) == Trailing(b) && Flags(r) == Flags(b)
    && SubStart(b) + 4 * SubCount(b) <= |b| && SubStart(b) + 4 * SubCount(b) <= |r|
    && 0 <= TailStart(b) && 0 <= TailStart(r)
    && (forall i :: 0 <= i < ConstEnd(b) ==> GetWord(r, ConstStart(b), i) == GetWord(b, ConstStart(b), i))
    && (forall i :: 0 <= i < SubCount(b) ==> GetWord(r, SubStart(b), i) == GetWord(b, SubStart(b), i))
    && (forall i :: 0 <= i < Trailing(b) ==> GetWord(r, TailStart(r), i) == GetWord(b, TailStart(b), i))
  }

  // A block of another length with the same header is laid out in the same way.
  lemma SameHeaderView(b: seq<u8>, r: seq<u8>)
    requires ValidFunction(b) && |r| >= 8 && |r| == SizeOf(r) && HeaderSize(Flags(b)) + 4 * LiteralEnd(b) + 4 * Trailing(b) <= |r|
    requires forall k :: 2 <= k < HeaderSize(Flags(b)) && k < |b| && k < |r| ==> r[k] == b[k]
    ensures ValidFunction(r) && Flags(r) == Flags(b)
    ensures ConstStart(r) == ConstStart(b) && ConstEnd(r) == ConstEnd(b) && LiteralEnd(r) == LiteralEnd(b)
    ensures SubStart(r) == SubStart(b) && SubCount(r) == SubCount(b) && Trailing(r) == Trailing(b)
  {
    Bounds(b);
    assert r[4] == b[4] && r[5] == b[5];
    hide IsWide, IsMapped, HasTaggedLiterals, IsStatic, IsConstructor, IsFunction, SizeOf;
    assert Flags(r) == Flags(b);
    forall i: nat | i < 6 ensures Field(r, i) == Field(b, i) {
      if IsWide(Flags(b)) {
        assert r[6 + 2 * i] == b[6 + 2 * i] && r[7 + 2 * i] == b[7 + 2 * i];
      } else {
        assert r[6 + i] == b[6 + i];
      }
    }
  }

  lemma RedirectBytes(code: seq<u8>, after: nat, h: Host)
    requires ValidFunction(code) && SaneHost(h) && ExtraBytes(code, h) <= |code|
    ensures var r := Redirect(code, after, h);
            && |r| == NewSize(code, h) && LiteralsEnd(code) <= |code| && LiteralsEnd(code) + 9 + ExtraBytes(code, h) <= |r|
            && 12 <= LiteralsEnd(code)
            && r[0] == Half(NewSize(code, h) / 8 % 0x1_0000)[0] && r[1] == Half(NewSize(code, h) / 8 % 0x1_0000)[1]
            && (forall k :: 2 <= k < LiteralsEnd(code) ==> r[k] == code[k])
            && r[|r| - ExtraBytes(code, h)..] == code[|code| - ExtraBytes(code, h)..]
            && r[LiteralsEnd(code)] == h.opcode
            && r[LiteralsEnd(code) + 1..LiteralsEnd(code) + 9] == h.address(after + |code| - LiteralsEnd(code))
  {
    ExtraFits(code, h);
    hide ValidFunction, LiteralsEnd, ExtraBytes, NewSize, Half;
    var r := Redirect(code, after, h);
    var extra, start := ExtraBytes(code, h), LiteralsEnd(code);
    var pointer, field := h.address(after + |code| - start), r[start + 1..start + 9];
    forall k | 0 <= k < 8 ensures field[k] == pointer[k] {
      assert r[start + 1 + k] == NewByte(code, after, h, start + 1 + k);
    }
    var rt, ct := r[|r| - extra..], code[|code| - extra..];
    forall k | 0 <= k < extra ensures rt[k] == ct[k] {
      assert r[|r| - extra + k] == NewByte(code, after, h, |r| - extra + k);
    }
  }

  lemma RedirectHeader(code: seq<u8>, after: nat, h: Host)
    requires ValidFunction(code) && SaneHost(h) && ExtraBytes(code, h) <= |code| && NewSize(code, h) < 0x8_0000
    ensures |Redirect(code, after, h)| >= 8 && SizeOf(Redirect(code, after, h)) == |Redirect(code, after, h)|
  {
    hide *;
    ExtraFits(code, h);
    RedirectBytes(code, after, h);
    TruncatedSize(Redirect(code, after, h), NewSize(code, h));
  }

  lemma TruncatedSize(r: seq<u8>, n: nat)
    requires |r| == n >= 8 && n % 8 == 0
    requires r[0] == Half(n / 8 % 0x1_0000)[0] && r[1] == Half(n / 8 % 0x1_0000)[1]
    ensures SizeOf(r) == n % 0x8_0000
  {
    var q := n / 8;
    var half := Half(q % 0x1_0000);
    hide Half;
    assert Get16(r, 0) == Get16(half, 0);
    Eighths(n, q);
  }

  lemma Eighths(n: nat, q: nat)
    requires n == 8 * q
    ensures 8 * (q % 0x1_0000) == n % 0x8_0000
  {
    var d := q / 0x1_0000;
    assert n == 0x8_0000 * d + 8 * (q % 0x1_0000);
  }

  // The new block is the same function to the engine.
  lemma RedirectView(code: seq<u8>, after: nat, h: Host)
    requires ValidFunction(code) && SaneHost(h) && ExtraBytes(code, h) <= |code| && NewSize(code, h) < 0x8_0000
    ensures SameView(code, Redirect(code, after, h))
  {
    hide *;
    ExtraFits(code, h);
    RedirectBytes(code, after, h);
    RedirectHeader(code, after, h);
    Bounds(code);
    LiteralsAre(code);
    var r := Redirect(code, after, h);
    SameHeaderView(code, r);
    Bounds(r);
    RedirectWords(code, r, ConstStart(code), ConstEnd(code), LiteralsEnd(code));
    RedirectWords(code, r, SubStart(code), SubCount(code), LiteralsEnd(code));
    RedirectTail(code, r, ExtraBytes(code, h), TailStart(code), TailStart(r), Trailing(code));
    ViewWhole(code, r);
  }

  lemma LiteralsAre(code: seq<u8>)
    requires ValidFunction(code)
    ensures LiteralsEnd(code) == SubStart(code) + 4 * SubCount(code)
    ensures HeaderSize(Flags(code)) + 4 * LiteralEnd(code) == LiteralsEnd(code)
  {
    hide Flags, Field;
  }

  lemma RedirectWords(b: seq<u8>, r: seq<u8>, start: nat, n: nat, end: nat)
    requires 2 <= start && start + 4 * n <= end <= |b| && end <= |r|
    requires forall k :: 2 <= k < end ==> r[k] == b[k]
    ensures forall i :: 0 <= i < n ==> GetWord(r, start, i) == GetWord(b, start, i)
  {
    hide Get32;
    forall i | 0 <= i < n ensures GetWord(r, start, i) == GetWord(b, start, i) {
      var o := start + 4 * i;
      assert r[o..o + 4] == b[o..o + 4];
      Get32Slice(r, b, o, o);
    }
  }

  lemma RedirectTail(b: seq<u8>, r: seq<u8>, extra: nat, bs: nat, rs: nat, n: nat)
    requires 4 * n <= extra <= |b| && extra <= |r| && bs == |b| - 4 * n && rs == |r| - 4 * n
    requires r[|r| - extra..] == b[|b| - extra..]
    ensures forall i :: 0 <= i < n ==> GetWord(r, rs, i) == GetWord(b, bs, i)
  {
    hide Get32;
    forall i | 0 <= i < n ensures GetWord(r, rs, i) == GetWord(b, bs, i) {
      TailWord(b, r, extra, 4 * n - 4 * i);
    }
  }

  // The word that starts d bytes before the end.
  lemma TailWord(b: seq<u8>, r: seq<u8>, extra: nat, d: nat)
    requires 4 <= d <= extra <= |b| && extra <= |r|
    requires r[|r| - extra..] == b[|b| - extra..]
    ensures Get32(r, |r| - d) == Get32(b, |b| - d)
  {
    hide Get32;
    var x, y := |r| - d, |b| - d;
    assert r[x..x + 4] == r[|r| - extra..][extra - d..extra - d + 4];
    assert b[y..y + 4] == b[|b| - extra..][extra - d..extra - d + 4];
    Get32Slice(r, b, x, y);
  }

  lemma ViewWhole(b: seq<u8>, r: seq<u8>)
    requires ValidFunction(b) && ValidFunction(r) && Flags(r) == Flags(b) && HeaderSize(Flags(b)) <= SubStart(b)
    requires ConstStart(r) == ConstStart(b) && ConstEnd(r) == ConstEnd(b) && SubStart(r) == SubStart(b)
    requires SubCount(r) == SubCount(b) && Trailing(r) == Trailing(b) && 0 <= TailStart(b) && 0 <= TailStart(r)
    requires SubStart(b) + 4 * SubCount(b) <= |b| && SubStart(b) + 4 * SubCount(b) <= |r|
    requires forall k :: 2 <= k < SubStart(b) + 4 * SubCount(b) ==> r[k] == b[k]
    requires ConstStart(b) + 4 * ConstEnd(b) <= |b| && ConstStart(b) + 4 * ConstEnd(b) <= |r|
    requires TailStart(b) + 4 * Trailing(b) <= |b| && TailStart(r) + 4 * Trailing(b) <= |r|
    requires forall i :: 0 <= i < ConstEnd(b) ==> GetWord(r, ConstStart(b), i) == GetWord(b, ConstStart(b), i)
    requires forall i :: 0 <= i < SubCount(b) ==> GetWord(r, SubStart(b), i) == GetWord(b, SubStart(b), i)
    requires forall i :: 0 <= i < Trailing(b) ==> GetWord(r, TailStart(r), i) == GetWord(b, TailStart(b), i)
    ensures SameView(b, r)
  {
    hide ValidFunction, ConstStart, ConstEnd, SubStart, SubCount, TailStart, Trailing, Flags, GetWord, HeaderSize;
  }

  // ---- the extended info word, just before the values at the end

  function ExtendedInfo(b: seq<u8>): u32
    requires ValidFunction(b) && TailStart(b) >= 4
  {
    Get32(b, TailStart(b) - 4)
  }

  // It is kept when one more word is kept for a resource name or for tagged templates.
  lemma InfoKept(code: seq<u8>, after: nat, h: Host)
    requires ValidFunction(code) && SaneHost(h) && ExtraBytes(code, h) <= |code| && NewSize(code, h) < 0x8_0000
    requires h.resourceName || HasTaggedLiterals(Flags(code))
    ensures ValidFunction(Redirect(code, after, h)) && TailStart(code) >= 4 && TailStart(Redirect(code, after, h)) >= 4
    ensures ExtendedInfo(Redirect(code, after, h)) == ExtendedInfo(code)
  {
    var r := Redirect(code, after, h);
    ExtraOne(code, h);
    hide ValidFunction, HasTaggedLiterals, Flags, Redirect, ExtraBytes, NewSize, Get32, TailStart, Trailing, LiteralsEnd;
    ExtraFits(code, h);
    RedirectView(code, after, h);
    RedirectBytes(code, after, h);
    ViewTail(code, r);
    TailWord(code, r, ExtraBytes(code, h), 4 * Trailing(code) + 4);
  }

  lemma ExtraOne(code: seq<u8>, h: Host)
    requires ValidFunction(code) && (h.resourceName || HasTaggedLiterals(Flags(code)))
    ensures ExtraBytes(code, h) >= 4 * Trailing(code) + 4
  {
    hide ValidFunction, Trailing, HasTaggedLiterals, Flags;
  }

  lemma ViewTail(b: seq<u8>, r: seq<u8>)
    requires SameView(b, r)
    ensures ValidFunction(b) && ValidFunction(r) && TailStart(r) == |r| - 4 * Trailing(b) && Trailing(r) == Trailing(b)
  {
    Bounds(r);
    hide ValidFunction, Trailing, GetWord, ConstStart, ConstEnd, SubStart, SubCount, Flags, HeaderSize;
  }

  // Otherwise it is lost: blocks that differ only there become the same new block.
  lemma InfoLost(code: seq<u8>, info: u32, after: nat, h: Host)
    requires ValidFunction(code) && SaneHost(h) && ExtraBytes(code, h) <= |code|
    requires !h.resourceName && !HasTaggedLiterals(Flags(code)) && LiteralsEnd(code) + 4 <= TailStart(code)
    ensures var other := Put(code, TailStart(code) - 4, Word(info));
            && ValidFunction(other) && TailStart(other) >= 4 && ExtendedInfo(other) == info
            && ExtraBytes(other, h) <= |other| && Redirect(other, after, h) == Redirect(code, after, h)
  {
    var o := TailStart(code) - 4;
    var other := Put(code, o, Word(info));
    NoExtra(code, h);
    Bounds(code);
    LiteralsAre(code);
    hide *;
    ExtraFits(code, h);
    WordSize(info);
    PutWord(code, o, info);
    HeaderInside(code, other);
    LayoutKept(code, other);
    SameSizes(code, other, h);
    InfoIs(other, o, info);
    SameRedirect(code, other, after, h);
  }

  // ---- what the loader makes of the word, and of sizes that do not fit

  // The function has an extended info word, apart from its literals.
  predicate HasInfoWord(code: seq<u8>)
    requires ValidFunction(code)
  {
    HasExtendedInfo(Flags(code)) && LiteralsEnd(code) + 4 <= TailStart(code)
  }

  // What decides whether the loader keeps it.
  predicate KeepsInfo(code: seq<u8>, h: Host)
    requires ValidFunction(code)
  {
    !IsRedirected(code) || h.resourceName || HasTaggedLiterals(Flags(code))
  }

  predicate NewSizeFits(code: seq<u8>, h: Host)
    requires ValidFunction(code)
  {
    IsRedirected(code) ==> NewSize(code, h) < 0x8_0000
  }

  function WithInfo(code: seq<u8>, info: u32): (b: seq<u8>)
    requires ValidFunction(code) && TailStart(code) >= 4
  {
    Put(code, TailStart(code) - 4, Word(info))
  }

  // The word that the engine reads from the loaded function.
  function LoadedInfo(code: seq<u8>, after: nat, h: Host): Option<u32>
    requires SaneHost(h)
  {
    if !ValidFunction(code) then None
    else
      var b := Shared(code, after, h);
      if ValidFunction(b) && TailStart(b) >= 4 then Some(ExtendedInfo(b)) else None
  }

  // Whatever the word is, the engine reads it.
  ghost predicate InfoSurvives(code: seq<u8>, after: nat, h: Host)
    requires ValidFunction(code) && TailStart(code) >= 4 && SaneHost(h)
  {
    forall info: u32 :: LoadedInfo(WithInfo(code, info), after, h) == Some(info)
  }

  // A new block is valid exactly when its size fits; otherwise the field holds 2^19 less.
  lemma SharedFits(code: seq<u8>, after: nat, h: Host)
    requires ValidFunction(code) && SaneHost(h)
    ensures ValidFunction(Shared(code, after, h)) <==> NewSizeFits(code, h)
  {
    hide *;
    SharedIs(code, after, h);
    if IsRedirected(code) {
      ExtraFits(code, h);
      RedirectBytes(code, after, h);
      TruncatedSize(Redirect(code, after, h), NewSize(code, h));
      ValidSizeIs(Redirect(code, after, h));
      if NewSize(code, h) < 0x8_0000 {
        RedirectView(code, after, h);
        ViewParts(code, Redirect(code, after, h));
      }
    }
  }

  lemma SharedIs(code: seq<u8>, after: nat, h: Host)
    requires ValidFunction(code) && SaneHost(h)
    ensures ExtraBytes(code, h) <= |code|
    ensures Shared(code, after, h) == if IsRedirected(code) then Redirect(code, after, h) else code
    ensures NewSizeFits(code, h) <==> (IsRedirected(code) ==> NewSize(code, h) < 0x8_0000)
  {
    ExtraFits(code, h);
    hide ValidFunction, Redirect, IsRedirected, NewSize;
  }

  lemma ValidSizeIs(b: seq<u8>)
    ensures ValidFunction(b) ==> |b| >= 8 && |b| == SizeOf(b)
  {
    if ValidFunction(b) {
      Bounds(b);
    }
    hide HasHeader, Flags, IsFunction, IsStatic, HeaderSize, LiteralEnd, Trailing;
  }

  // The word survives exactly when the function is not redirected, or when one more word is
  // kept and the size fits.
  lemma InfoSurvivesExactly(code: seq<u8>, after: nat, h: Host)
    requires ValidFunction(code) && HasInfoWord(code) && SaneHost(h)
    ensures TailStart(code) >= 4
    ensures InfoSurvives(code, after, h) <==> KeepsInfo(code, h) && NewSizeFits(code, h)
  {
    hide *;
    InfoWordIs(code, h);
    forall info: u32 ensures LoadedInfo(WithInfo(code, info), after, h) == Some(info) <== KeepsInfo(code, h) && NewSizeFits(code, h) {
      if KeepsInfo(code, h) && NewSizeFits(code, h) {
        InfoIsLoaded(code, info, after, h);
      }
    }
    if !NewSizeFits(code, h) {
      InfoTooLarge(code, 0, after, h);
      NotSurviving(code, after, h, 0);
    } else if !KeepsInfo(code, h) {
      SameInfo(code, 0, after, h);
      SameInfo(code, 1, after, h);
      NotSurviving(code, after, h, 0);
      NotSurviving(code, after, h, 1);
    }
    Surviving(code, after, h);
  }

  lemma InfoWordIs(code: seq<u8>, h: Host)
    requires ValidFunction(code) && HasInfoWord(code)
    ensures LiteralsEnd(code) + 4 <= TailStart(code) && TailStart(code) >= 4
    ensures KeepsInfo(code, h) <==> !IsRedirected(code) || h.resourceName || HasTaggedLiterals(Flags(code))
  {
    hide ValidFunction, LiteralsEnd, TailStart, IsRedirected, HasExtendedInfo, HasTaggedLiterals;
  }

  lemma Surviving(code: seq<u8>, after: nat, h: Host)
    requires ValidFunction(code) && TailStart(code) >= 4 && SaneHost(h)
    ensures (forall info: u32 :: LoadedInfo(WithInfo(code, info), after, h) == Some(info)) <==> InfoSurvives(code, after, h)
  {
    hide ValidFunction, TailStart, LoadedInfo, WithInfo;
  }

  lemma NotSurviving(code: seq<u8>, after: nat, h: Host, info: u32)
    requires ValidFunction(code) && TailStart(code) >= 4 && SaneHost(h)
    ensures InfoSurvives(code, after, h) ==> LoadedInfo(WithInfo(code, info), after, h) == Some(info)
  {
    hide ValidFunction, TailStart, LoadedInfo, WithInfo;
  }

  // Code with another word is laid out and loaded in the same way.
  lemma OtherInfo(code: seq<u8>, info: u32, h: Host)
    requires ValidFunction(code) && LiteralsEnd(code) + 4 <= TailStart(code)
    ensures TailStart(code) >= 4
    ensures var other := WithInfo(code, info);
            && ValidFunction(other) && |other| == |code| && TailStart(other) == TailStart(code) && ExtendedInfo(other) == info
            && Flags(other) == Flags(code) && (IsRedirected(other) <==> IsRedirected(code)) && NewSize(other, h) == NewSize(code, h)
            && LiteralsEnd(other) == LiteralsEnd(code)
  {
    var o := TailStart(code) - 4;
    var other := WithInfo(code, info);
    WithInfoIs(code, info);
    Bounds(code);
    LiteralsAre(code);
    hide *;
    WordSize(info);
    PutWord(code, o, info);
    HeaderInside(code, other);
    LayoutKept(code, other);
    SameSizes(code, other, h);
    InfoIs(other, o, info);
    SameRedirected(code, other);
  }

  lemma WithInfoIs(code: seq<u8>, info: u32)
    requires ValidFunction(code) && TailStart(code) >= 4
    ensures WithInfo(code, info) == Put(code, TailStart(code) - 4, Word(info))
  {
    hide ValidFunction, TailStart, Put, Word;
  }

  lemma SameRedirected(b: seq<u8>, c: seq<u8>)
    requires ValidFunction(b) && ValidFunction(c) && |c| == |b| && ConstStart(c) == ConstStart(b) && LiteralEnd(c) == LiteralEnd(b)
    ensures IsRedirected(c) <==> IsRedirected(b)
  {
    hide ValidFunction, ConstStart, LiteralEnd;
  }

  lemma LoadedIs(code: seq<u8>, after: nat, h: Host)
    requires ValidFunction(code) && SaneHost(h)
    ensures var b := Shared(code, after, h);
            LoadedInfo(code, after, h) == if ValidFunction(b) && TailStart(b) >= 4 then Some(ExtendedInfo(b)) else None
  {
    hide ValidFunction, Shared, TailStart;
  }

  lemma InfoIsLoaded(code: seq<u8>, info: u32, after: nat, h: Host)
    requires ValidFunction(code) && HasInfoWord(code) && SaneHost(h) && KeepsInfo(code, h) && NewSizeFits(code, h)
    ensures TailStart(code) >= 4 && LoadedInfo(WithInfo(code, info), after, h) == Some(info)
  {
    hide *;
    InfoWordIs(code, h);
    OtherInfo(code, info, h);
    SharedIs(code, after, h);
    var other := WithInfo(code, info);
    SharedIs(other, after, h);
    LoadedIs(other, after, h);
    if IsRedirected(other) {
      InfoKept(other, after, h);
    }
  }

  lemma InfoTooLarge(code: seq<u8>, info: u32, after: nat, h: Host)
    requires ValidFunction(code) && HasInfoWord(code) && SaneHost(h) && !NewSizeFits(code, h)
    ensures TailStart(code) >= 4 && LoadedInfo(WithInfo(code, info), after, h) == None
  {
    hide *;
    InfoWordIs(code, h);
    OtherInfo(code, info, h);
    var other := WithInfo(code, info);
    SharedIs(code, after, h);
    SharedIs(other, after, h);
    SharedFits(other, after, h);
    LoadedIs(other, after, h);
  }

  lemma SameInfo(code: seq<u8>, info: u32, after: nat, h: Host)
    requires ValidFunction(code) && HasInfoWord(code) && SaneHost(h) && !KeepsInfo(code, h)
    ensures TailStart(code) >= 4 && LoadedInfo(WithInfo(code, info), after, h) == LoadedInfo(code, after, h)
  {
    hide *;
    InfoWordIs(code, h);
    OtherInfo(code, info, h);
    var other := WithInfo(code, info);
    WithInfoIs(code, info);
    SharedIs(code, after, h);
    SharedIs(other, after, h);
    InfoLost(code, info, after, h);
    LoadedIs(code, after, h);
    LoadedIs(other, after, h);
  }

  // ---- examples

  // A class with eight bytes of byte code, and 5 as its extended info.
  function InfoBlock(): seq<u8> {
    [3, 0, 1, 0, 0x20, 0x20, 0, 0, 0, 0, 0, 0, 1, 1, 1, 1, 1, 1, 1, 1, 5, 0, 0, 0]
  }

  lemma InfoBlockHeader(block: seq<u8>)
    requires block == InfoBlock()
    ensures |block| == 24 && Flags(block) == 0x2020 && SizeOf(block) == 24
    ensures HeaderSize(0x2020) == 12 && IsFunction(0x2020) && IsConstructor(0x2020)
    ensures !IsWide(0x2020) && !IsMapped(0x2020) && !IsStatic(0x2020) && !HasTaggedLiterals(0x2020) && HasExtendedInfo(0x2020)
    ensures block[8] == 0 && block[10] == 0 && block[11] == 0
  {}

  lemma NoLiterals(b: seq<u8>)
    requires |b| == 24 == SizeOf(b) && |b| >= HeaderSize(Flags(b)) == 12
    requires IsFunction(Flags(b)) && IsConstructor(Flags(b)) && !IsMapped(Flags(b)) && !IsStatic(Flags(b))
    requires Field(b, 2) == 0 && Field(b, 4) == 0 && Field(b, 5) == 0
    ensures ValidFunction(b) && LiteralsEnd(b) == 12 && TailStart(b) == 24 && IsRedirected(b)
  {
    hide Flags, SizeOf, Field, HeaderSize, IsFunction, IsConstructor, IsMapped, IsStatic, HasTaggedLiterals;
  }

  // Its info is lost without a resource name.
  lemma InfoLostExample(after: nat, h: Host)
    requires SaneHost(h) && !h.resourceName
    ensures ValidFunction(InfoBlock()) && HasInfoWord(InfoBlock()) && TailStart(InfoBlock()) >= 4
    ensures !InfoSurvives(InfoBlock(), after, h)
  {
    hide *;
    var b := InfoBlock();
    InfoBlockHeader(b);
    NarrowFields(b);
    NoLiterals(b);
    HasWord(b);
    InfoWordIs(b, h);
    InfoSurvivesExactly(b, after, h);
  }

  lemma HasWord(code: seq<u8>)
    requires ValidFunction(code) && HasExtendedInfo(Flags(code)) && LiteralsEnd(code) + 4 <= TailStart(code)
    ensures HasInfoWord(code)
  {}

  // A function with 65535 literals, 65528 arguments and four bytes of byte code.
  function LargeBlock(): (b: seq<u8>)
    ensures |b| == 0x7_fff8
  {
    [0xff, 0xff, 1, 0, 0x0a, 0x10, 0, 0, 0xf8, 0xff, 0, 0, 0, 0, 0xff, 0xff, 0xff, 0xff, 0, 0] + seq(524260, _ => 0)
  }

  lemma LargeHeader(b: seq<u8>)
    requires |b| == 0x7_fff8
    requires b[..20] == [0xff, 0xff, 1, 0, 0x0a, 0x10, 0, 0, 0xf8, 0xff, 0, 0, 0, 0, 0xff, 0xff, 0xff, 0xff, 0, 0]
    ensures SizeOf(b) == |b| && Flags(b) == 0x100a
    ensures Get16(b, 8) == 65528 && Get16(b, 10) == 0 && Get16(b, 14) == 65535 && Get16(b, 16) == 65535
    ensures HeaderSize(0x100a) == 20 && IsFunction(0x100a) && !IsConstructor(0x100a) && IsWide(0x100a) && IsMapped(0x100a)
    ensures !IsStatic(0x100a) && !HasTaggedLiterals(0x100a)
  {
    assert forall k :: 0 <= k < 20 ==> b[k] == b[..20][k];
  }

  lemma LargeLayout(b: seq<u8>, h: Host)
    requires |b| == 0x7_fff8 && SizeOf(b) == |b| && HeaderSize(Flags(b)) == 20
    requires IsFunction(Flags(b)) && !IsConstructor(Flags(b)) && IsWide(Flags(b)) && IsMapped(Flags(b))
    requires !IsStatic(Flags(b)) && !HasTaggedLiterals(Flags(b))
    requires Get16(b, 8) == 65528 && Get16(b, 10) == 0 && Get16(b, 14) == 65535 && Get16(b, 16) == 65535
    ensures ValidFunction(b) && IsRedirected(b) && NewSize(b, h) >= 0x8_0000
  {
    hide Flags, SizeOf, HeaderSize, IsFunction, IsConstructor, IsMapped, IsStatic, IsWide, HasTaggedLiterals, Get16;
    assert Field(b, 1) == 65528 && Field(b, 2) == 0 && Field(b, 4) == 65535 && Field(b, 5) == 65535;
  }

  // Its new block is too large for its size field, and is no function any more.
  lemma TruncatedExample(after: nat, h: Host)
    requires SaneHost(h)
    ensures ValidFunction(LargeBlock()) && !NewSizeFits(LargeBlock(), h) && !ValidFunction(Shared(LargeBlock(), after, h))
  {
    hide *;
    var b := LargeBlock();
    LargeIs();
    LargeHeader(b);
    LargeLayout(b, h);
    SharedIs(b, after, h);
    SharedFits(b, after, h);
  }

  lemma LargeIs()
    ensures |LargeBlock()| == 0x7_fff8
    ensures LargeBlock()[..20] == [0xff, 0xff, 1, 0, 0x0a, 0x10, 0, 0, 0xf8, 0xff, 0, 0, 0, 0, 0xff, 0xff, 0xff, 0xff, 0, 0]
  {}

  lemma WordSize(w: u32)
    ensures |Word(w)| == 4
  {}

  lemma InfoIs(b: seq<u8>, o: nat, info: u32)
    requires ValidFunction(b) && TailStart(b) == o + 4 && o + 4 <= |b| && Get32(b, o) == info
    ensures ExtendedInfo(b) == info
  {}

  lemma NoExtra(code: seq<u8>, h: Host)
    requires ValidFunction(code) && !h.resourceName && !HasTaggedLiterals(Flags(code))
    ensures ExtraBytes(code, h) == 4 * Trailing(code)
  {
    hide ValidFunction, Trailing, HasTaggedLiterals, Flags;
  }

  lemma HeaderInside(b: seq<u8>, c: seq<u8>)
    requires ValidFunction(b) && |c| == |b| && forall k :: 0 <= k < LiteralsEnd(b) && k < |b| ==> c[k] == b[k]
    ensures SameLayout(b, c)
  {
    Bounds(b);
    LiteralsAre(b);
    hide ValidFunction, LiteralsEnd, Flags, HeaderSize, HasHeader, ConstEnd, SubCount, SubStart;
  }

  lemma SameSizes(b: seq<u8>, c: seq<u8>, h: Host)
    requires ValidFunction(b) && ValidFunction(c) && ConstStart(c) == ConstStart(b) && LiteralEnd(c) == LiteralEnd(b)
    requires Trailing(c) == Trailing(b) && Flags(c) == Flags(b)
    ensures LiteralsEnd(c) == LiteralsEnd(b) && ExtraBytes(c, h) == ExtraBytes(b, h) && NewSize(c, h) == NewSize(b, h)
  {
    hide ValidFunction, ConstStart, LiteralEnd, Trailing, Flags, HasTaggedLiterals;
  }

  lemma SameRedirect(b: seq<u8>, c: seq<u8>, after: nat, h: Host)
    requires ValidFunction(b) && ValidFunction(c) && SaneHost(h) && |c| == |b|
    requires ExtraBytes(b, h) <= |b| && ExtraBytes(c, h) == ExtraBytes(b, h)
    requires LiteralsEnd(c) == LiteralsEnd(b) <= |b| && NewSize(c, h) == NewSize(b, h)
    requires LiteralsEnd(b) + 9 + ExtraBytes(b, h) <= NewSize(b, h)
    requires forall k :: 0 <= k < |b| && (k < LiteralsEnd(b) || |b| - ExtraBytes(b, h) <= k) ==> c[k] == b[k]
    ensures Redirect(c, after, h) == Redirect(b, after, h)
  {
    hide ValidFunction, LiteralsEnd, ExtraBytes, NewSize, Half;
    forall k | 0 <= k < NewSize(b, h) ensures NewByte(c, after, h, k) == NewByte(b, after, h, k) {
    }
  }

  // ---- loading without copying

  // As Snapshot.Load; None also stands for a new block whose size does not fit its field.
  function LoadShared(b: seq<u8>, get: u32 -> u32, h: Host): Option<Code>
    requires SaneHost(h)
    decreases |b|, 1, 0
  {
    if |b| < 8 then None
    else if !IsFunction(Flags(b)) then
      if 6 + Refs(b) <= |b| then Some(Regex(Flags(b), b[6..6 + Refs(b)])) else None
    else if SizeOf(b) > |b| || !ValidFunction(b[..SizeOf(b)]) then None
    else
      var block := Shared(b[..SizeOf(b)], |b| - SizeOf(b), h);
      if !ValidFunction(block) then None
      else
        match LoadSharedSubs(b, SubWords(block), get, h)
        case None => None
        case Some(subs) => Some(Function(ResolvedBlock(block, get), subs))
  }

  function LoadSharedSubs(b: seq<u8>, offs: seq<u32>, get: u32 -> u32, h: Host): (r: Option<seq<Code>>)
    requires SaneHost(h)
    ensures r.Some? ==> |r.value| == |offs|
    decreases |b|, 0, |offs|
  {
    if offs == [] then Some([])
    else if offs[0] > |b| then None
    else if offs[0] == 0 then
      match LoadSharedSubs(b, offs[1..], get, h)
      case None => None
      case Some(rest) => Some([SelfRef] + rest)
    else
      match LoadShared(b[offs[0]..], get, h)
      case None => None
      case Some(c) =>
        match LoadSharedSubs(b, offs[1..], get, h)
        case None => None
        case Some(rest) => Some([c] + rest)
  }

  // x is the copied and y the shared block for code: the same function to the engine; y is x, or
  // redirects to the byte code of code; and the extended info is that of code as far as it is kept.
  ghost predicate SameBlock(code: seq<u8>, after: nat, x: seq<u8>, y: seq<u8>, h: Host)
    requires ValidFunction(code) && SaneHost(h)
  {
    && SameView(x, y)
    && (if IsRedirected(code) then PointsTo(y, LiteralsEnd(code), h.opcode, h.address(after + |code| - LiteralsEnd(code))) else y == x)
    && (HasInfoWord(code) ==> InfoIsThat(x, code))
    && (HasInfoWord(code) && KeepsInfo(code, h) ==> InfoIsThat(y, code))
  }

  // At o: the opcode, and the address.
  ghost predicate PointsTo(b: seq<u8>, o: nat, opcode: u8, address: seq<u8>) {
    o + 9 <= |b| && b[o] == opcode && b[o + 1..o + 9] == address
  }

  ghost predicate InfoIsThat(b: seq<u8>, code: seq<u8>) {
    && ValidFunction(b) && ValidFunction(code) && TailStart(b) >= 4 && TailStart(code) >= 4
    && ExtendedInfo(b) == ExtendedInfo(code)
  }

  // c is loaded from the start of b with copying, and d without: the same functions, all the
  // way down.
  ghost predicate SameLoaded(b: seq<u8>, c: Code, d: Code, h: Host)
    requires SaneHost(h)
    decreases c, 1
  {
    match c
    case Regex(_, _) => d == c
    case SelfRef => false
    case Function(block, subs) =>
      && d.Function? && |b| >= 8 && SizeOf(b) <= |b| && ValidFunction(b[..SizeOf(b)])
      && SameBlock(b[..SizeOf(b)], |b| - SizeOf(b), block, d.block, h)
      && SameLoadedSubs(b, SubWords(b[..SizeOf(b)]), subs, d.subs, h)
  }

  ghost predicate SameLoadedSubs(b: seq<u8>, offs: seq<u32>, s: seq<Code>, t: seq<Code>, h: Host)
    requires SaneHost(h)
    decreases s, 0
  {
    && |s| == |t| == |offs|
    && (s != [] ==>
          && (if offs[0] == 0 then s[0] == t[0] == SelfRef else offs[0] <= |b| && SameLoaded(b[offs[0]..], s[0], t[0], h))
          && SameLoadedSubs(b, offs[1..], s[1..], t[1..], h))
  }

  // Every new block has a size that fits its field.
  ghost predicate SizesFit(c: Code, h: Host)
    decreases c, 1
  {
    match c
    case Regex(_, _) => true
    case SelfRef => true
    case Function(block, subs) => (ValidFunction(block) ==> NewSizeFits(block, h)) && SizesFitSubs(subs, h)
  }

  ghost predicate SizesFitSubs(subs: seq<Code>, h: Host)
    decreases subs, 0
  {
    subs != [] ==> SizesFit(subs[0], h) && SizesFitSubs(subs[1..], h)
  }

  // The parser allows fewer than 2^15 registers and literals together.
  predicate WithinLimits(c: Code)
    decreases c, 1
  {
    match c
    case Regex(_, _) => true
    case SelfRef => true
    case Function(block, subs) => (HasHeader(block) ==> Field(block, 5) <= 0x7fff) && WithinLimitsSubs(subs)
  }

  predicate WithinLimitsSubs(subs: seq<Code>)
    decreases subs, 0
  {
    subs != [] ==> WithinLimits(subs[0]) && WithinLimitsSubs(subs[1..])
  }

  // Then every new block has a size that fits, whatever the number of arguments is.
  lemma {:induction false} LimitsFit(c: Code, h: Host)
    requires WithinLimits(c)
    ensures SizesFit(c, h)
    decreases c, 1
  {
    hide NewSizeFits;
    match c
    case Regex(_, _) =>
    case SelfRef =>
    case Function(block, subs) =>
      if ValidFunction(block) {
        LimitFits(block, h);
      }
      LimitsFitSubs(subs, h);
  }

  lemma {:induction false} LimitsFitSubs(subs: seq<Code>, h: Host)
    requires WithinLimitsSubs(subs)
    ensures SizesFitSubs(subs, h)
    decreases subs, 0
  {
    if subs != [] {
      LimitsFit(subs[0], h);
      LimitsFitSubs(subs[1..], h);
    }
  }

  lemma LimitFits(code: seq<u8>, h: Host)
    requires ValidFunction(code) && Field(code, 5) <= 0x7fff
    ensures NewSizeFits(code, h)
  {
    hide Flags, Field, IsMapped, IsConstructor, HasTaggedLiterals, IsRedirected;
  }

  lemma ResolvedParts(b: seq<u8>, r: seq<u8>, get: u32 -> u32)
    requires ValidFunction(b) && r == ResolvedBlock(b, get)
    ensures SameLayout(b, r)
    ensures forall k :: Fixed(b, k) ==> r[k] == b[k]
    ensures forall i :: 0 <= i < ConstEnd(b) ==> GetWord(r, ConstStart(b), i) == Resolve(get).consts(GetWord(b, ConstStart(b), i))
    ensures forall i :: 0 <= i < SubCount(b) ==> GetWord(r, SubStart(b), i) == 0
    ensures forall i :: 0 <= i < Trailing(b) ==> GetWord(r, TailStart(b), i) == Resolve(get).trailing(GetWord(b, TailStart(b), i))
    ensures ValidFunction(r)
  {
    var p, zeros := Resolve(get), Zeros(SubCount(b));
    var m := ApplyPatch(b, p);
    ResolvedUnfold(b, get);
    hide *;
    ApplyPatchAt(b, p);
    LayoutKept(b, m);
    ZerosAre(SubCount(b));
    PutSubsAt(m, zeros);
    LayoutKept(m, r);
    HeaderEight(b);
    HeaderEight(m);
    SameLayoutTwice(b, m, r);
    HeaderFour(b, r);
    Unchanged(p, get);
    FixedInside(b);
    forall k | Fixed(b, k) ensures r[k] == b[k] {
      FixedBounds(b, k);
      KeptByte(b, k);
    }
  }

  lemma FixedInside(b: seq<u8>)
    requires ValidFunction(b)
    ensures forall k :: Fixed(b, k) ==> 0 <= k < |b|
  {
    hide ValidFunction, ConstStart, SubStart, SubCount, Trailing;
  }

  lemma ResolvedLength(b: seq<u8>, get: u32 -> u32)
    requires ValidFunction(b)
    ensures |ResolvedBlock(b, get)| == |b|
  {
    hide *;
    ResolvedParts(b, ResolvedBlock(b, get), get);
    HeaderEight(b);
    HeaderFour(b, ResolvedBlock(b, get));
  }

  lemma HeaderEight(b: seq<u8>)
    requires ValidFunction(b)
    ensures |b| >= 8
  {}

  lemma ResolvedUnfold(b: seq<u8>, get: u32 -> u32)
    requires ValidFunction(b)
    ensures ValidFunction(ApplyPatch(b, Resolve(get))) && SubCount(ApplyPatch(b, Resolve(get))) == SubCount(b)
    ensures ResolvedBlock(b, get) == PutSubs(ApplyPatch(b, Resolve(get)), Zeros(SubCount(b)))
  {
    ApplyPatchLayout(b, Resolve(get));
    LayoutKept(b, ApplyPatch(b, Resolve(get)));
    hide ValidFunction, ApplyPatch, PutSubs, SubCount;
  }

  lemma ZerosAre(n: nat)
    ensures |Zeros(n)| == n && forall i :: 0 <= i < n ==> Zeros(n)[i] == 0
  {}

  lemma SameLayoutTwice(b: seq<u8>, m: seq<u8>, r: seq<u8>)
    requires |b| >= 8 && SameLayout(b, m) && |m| >= 8 && SameLayout(m, r)
    ensures SameLayout(b, r)
  {
    HeaderFour(b, m);
    hide HeaderSize;
  }

  lemma HeaderFour(b: seq<u8>, m: seq<u8>)
    requires |b| >= 8 && SameLayout(b, m)
    ensures |m| == |b| && Flags(m) == Flags(b)
  {}

  lemma Unchanged(p: Patch, get: u32 -> u32)
    requires p == Resolve(get)
    ensures !p.unshare
  {}

  lemma KeptByte(b: seq<u8>, k: nat)
    requires k < |b|
    ensures FixedByte(b, k, false) == b[k]
  {}

  // What resolving the literals of b gives.
  ghost predicate IsResolved(b: seq<u8>, x: seq<u8>, p: Patch) {
    && ValidFunction(b) && ValidFunction(x) && |x| == |b| && Flags(x) == Flags(b)
    && ConstStart(x) == ConstStart(b) && ConstEnd(x) == ConstEnd(b) && SubStart(x) == SubStart(b)
    && SubCount(x) == SubCount(b) && TailStart(x) == TailStart(b) >= 0 && Trailing(x) == Trailing(b)
    && SubStart(b) + 4 * SubCount(b) <= |b| && TailStart(b) + 4 * Trailing(b) <= |b|
    && ConstStart(b) + 4 * ConstEnd(b) <= |b| && HeaderSize(Flags(b)) == ConstStart(b)
    && (forall k :: 2 <= k < ConstStart(b) && k < |b| ==> x[k] == b[k])
    && (forall i :: 0 <= i < ConstEnd(b) ==> GetWord(x, ConstStart(b), i) == p.consts(GetWord(b, ConstStart(b), i)))
    && (forall i :: 0 <= i < SubCount(b) ==> GetWord(x, SubStart(b), i) == 0)
    && (forall i :: 0 <= i < Trailing(b) ==> GetWord(x, TailStart(b), i) == p.trailing(GetWord(b, TailStart(b), i)))
  }

  lemma ResolvedIs(b: seq<u8>, get: u32 -> u32)
    requires ValidFunction(b)
    ensures IsResolved(b, ResolvedBlock(b, get), Resolve(get))
  {
    hide *;
    var x := ResolvedBlock(b, get);
    ResolvedParts(b, x, get);
    ResolvedLength(b, get);
    LayoutKept(b, x);
    Bounds(b);
    HeaderIsFixed(b);
    IsResolvedWhole(b, x, Resolve(get));
  }

  lemma IsResolvedWhole(b: seq<u8>, x: seq<u8>, p: Patch)
    requires ValidFunction(b) && ValidFunction(x) && |x| == |b| && Flags(x) == Flags(b)
    requires ConstStart(x) == ConstStart(b) && ConstEnd(x) == ConstEnd(b) && SubStart(x) == SubStart(b)
    requires SubCount(x) == SubCount(b) && TailStart(x) == TailStart(b) >= 0 && Trailing(x) == Trailing(b)
    requires SubStart(b) + 4 * SubCount(b) <= |b| && TailStart(b) + 4 * Trailing(b) <= |b|
    requires ConstStart(b) + 4 * ConstEnd(b) <= |b| && HeaderSize(Flags(b)) == ConstStart(b)
    requires forall k :: 2 <= k < ConstStart(b) ==> k < |b| && x[k] == b[k]
    requires forall i :: 0 <= i < ConstEnd(b) ==> GetWord(x, ConstStart(b), i) == p.consts(GetWord(b, ConstStart(b), i))
    requires forall i :: 0 <= i < SubCount(b) ==> GetWord(x, SubStart(b), i) == 0
    requires forall i :: 0 <= i < Trailing(b) ==> GetWord(x, TailStart(b), i) == p.trailing(GetWord(b, TailStart(b), i))
    ensures IsResolved(b, x, p)
  {
    hide ValidFunction, Flags, HeaderSize, ConstStart, ConstEnd, SubStart, SubCount, TailStart, Trailing, GetWord;
  }

  lemma ViewAgain(b: seq<u8>, r: seq<u8>, x: seq<u8>, y: seq<u8>, p: Patch)
    requires SameView(b, r) && IsResolved(b, x, p) && IsResolved(r, y, p)
    ensures SameView(x, y)
  {
    hide ValidFunction, Flags, HeaderSize, ConstStart, ConstEnd, SubStart, SubCount, TailStart, Trailing, GetWord;
  }

  // Resolving the literals keeps the view.
  lemma ResolvedView(b: seq<u8>, r: seq<u8>, get: u32 -> u32)
    requires SameView(b, r)
    ensures ValidFunction(b) && ValidFunction(r) && SameView(ResolvedBlock(b, get), ResolvedBlock(r, get))
  {
    hide *;
    ViewParts(b, r);
    ResolvedIs(b, get);
    ResolvedIs(r, get);
    ViewAgain(b, r, ResolvedBlock(b, get), ResolvedBlock(r, get), Resolve(get));
  }

  lemma ViewParts(b: seq<u8>, r: seq<u8>)
    requires SameView(b, r)
    ensures ValidFunction(b) && ValidFunction(r) && SameRuns(b, r)
    ensures forall k :: 2 <= k < HeaderSize(Flags(b)) && k < |b| && k < |r| ==> r[k] == b[k]
  {
    hide ValidFunction, SameRuns, HeaderSize, Flags;
  }

  lemma HeaderIsFixed(b: seq<u8>)
    requires ValidFunction(b)
    ensures HeaderSize(Flags(b)) == ConstStart(b) && forall k :: 2 <= k < ConstStart(b) ==> Fixed(b, k)
  {
    Bounds(b);
    hide ValidFunction, ConstStart, ConstEnd, SubStart, SubCount, TailStart, Trailing, Flags, HeaderSize, HasHeader;
  }

  // ---- the copied and the shared block

  lemma KeptInfo(b: seq<u8>, get: u32 -> u32)
    requires ValidFunction(b) && LiteralsEnd(b) + 4 <= TailStart(b)
    ensures InfoIsThat(ResolvedBlock(b, get), b)
  {
    hide *;
    var x, o := ResolvedBlock(b, get), TailStart(b) - 4;
    Bounds(b);
    LiteralsAre(b);
    ResolvedParts(b, ResolvedBlock(b, get), get);
    ResolvedLength(b, get);
    LayoutKept(b, x);
    forall k | o <= k < o + 4 ensures x[k] == b[k] {
      InfoIsFixed(b, k);
    }
    assert x[o..o + 4] == b[o..o + 4];
    Get32Slice(x, b, o, o);
    InfoIs(x, o, Get32(b, o));
    InfoIs(b, o, Get32(b, o));
    InfoThat(x, b);
  }

  lemma InfoIsFixed(b: seq<u8>, k: nat)
    requires ValidFunction(b) && LiteralsEnd(b) <= k < TailStart(b)
    ensures Fixed(b, k)
  {
    LiteralsAre(b);
    Bounds(b);
    hide ValidFunction, LiteralsEnd, TailStart, SubStart, SubCount, ConstStart, HasHeader, Flags, HeaderSize;
  }

  lemma InfoThat(x: seq<u8>, b: seq<u8>)
    requires ValidFunction(x) && ValidFunction(b) && TailStart(x) >= 4 && TailStart(b) >= 4 && ExtendedInfo(x) == ExtendedInfo(b)
    ensures InfoIsThat(x, b)
  {
    hide ValidFunction, TailStart, ExtendedInfo;
  }

  lemma InfoThrough(x: seq<u8>, b: seq<u8>, code: seq<u8>)
    requires InfoIsThat(x, b) && ValidFunction(code) && TailStart(code) >= 4 && ExtendedInfo(b) == ExtendedInfo(code)
    ensures InfoIsThat(x, code)
  {
    hide ValidFunction, TailStart, ExtendedInfo;
  }

  // The redirection is outside of what is resolved.
  lemma PointerKept(code: seq<u8>, after: nat, r: seq<u8>, get: u32 -> u32, h: Host)
    requires ValidFunction(code) && SaneHost(h) && IsRedirected(code) && NewSize(code, h) < 0x8_0000
    requires r == Shared(code, after, h) && ValidFunction(r)
    ensures var o := LiteralsEnd(code);
            o <= |code| && PointsTo(ResolvedBlock(r, get), o, h.opcode, h.address(after + |code| - o))
  {
    hide *;
    var o := LiteralsEnd(code);
    SharedIs(code, after, h);
    ExtraFits(code, h);
    RedirectBytes(code, after, h);
    RedirectView(code, after, h);
    LiteralsAre(code);
    ViewTail(code, r);
    ViewLiterals(code, r);
    LiteralsAre(r);
    ResolvedParts(r, ResolvedBlock(r, get), get);
    ResolvedLength(r, get);
    LayoutKept(r, ResolvedBlock(r, get));
    var y := ResolvedBlock(r, get);
    forall k | o <= k < o + 9 ensures y[k] == r[k] {
      InfoIsFixed(r, k);
    }
    assert y[o + 1..o + 9] == r[o + 1..o + 9];
    PointsIs(y, o, h.opcode, h.address(after + |code| - o));
  }

  lemma PointsIs(b: seq<u8>, o: nat, opcode: u8, address: seq<u8>)
    ensures PointsTo(b, o, opcode, address) <==> o + 9 <= |b| && b[o] == opcode && b[o + 1..o + 9] == address
  {}

  lemma ViewLiterals(b: seq<u8>, r: seq<u8>)
    requires SameView(b, r)
    ensures ValidFunction(b) && ValidFunction(r) && SubStart(r) == SubStart(b) && SubCount(r) == SubCount(b)
    ensures ConstStart(r) == ConstStart(b)
  {
    hide ValidFunction, ConstStart, ConstEnd, SubStart, SubCount, TailStart, Trailing, Flags, HeaderSize, GetWord;
  }

  lemma SharedInfo(code: seq<u8>, after: nat, b: seq<u8>, get: u32 -> u32, h: Host)
    requires ValidFunction(code) && SaneHost(h) && HasInfoWord(code) && KeepsInfo(code, h) && NewSizeFits(code, h)
    requires b == Shared(code, after, h) && ValidFunction(b)
    ensures InfoIsThat(ResolvedBlock(b, get), code)
  {
    hide *;
    InfoWordIs(code, h);
    SharedIs(code, after, h);
    if IsRedirected(code) {
      var r := Redirect(code, after, h);
      InfoKept(code, after, h);
      ExtraFits(code, h);
      ExtraOne(code, h);
      RedirectBytes(code, after, h);
      RedirectView(code, after, h);
      LiteralsAre(code);
      ViewTail(code, r);
      ViewLiterals(code, r);
      LiteralsAre(r);
      KeptInfo(r, get);
      InfoThrough(ResolvedBlock(r, get), r, code);
    } else {
      KeptInfo(code, get);
    }
  }

  lemma SharedBlock(code: seq<u8>, after: nat, get: u32 -> u32, h: Host)
    requires ValidFunction(code) && SaneHost(h) && NewSizeFits(code, h)
    ensures ValidFunction(Shared(code, after, h))
    ensures SameBlock(code, after, ResolvedBlock(code, get), ResolvedBlock(Shared(code, after, h), get), h)
  {
    hide *;
    SharedIs(code, after, h);
    SharedView(code, after, h);
    ViewParts(code, Shared(code, after, h));
    ResolvedView(code, Shared(code, after, h), get);
    if IsRedirected(code) {
      PointerKept(code, after, Shared(code, after, h), get, h);
    }
    if HasInfoWord(code) {
      InfoWordIs(code, h);
      KeptInfo(code, get);
      if KeepsInfo(code, h) {
        SharedInfo(code, after, Shared(code, after, h), get, h);
      }
    }
    SameBlockIs(code, after, ResolvedBlock(code, get), ResolvedBlock(Shared(code, after, h), get), h);
  }

  lemma SameBlockIs(code: seq<u8>, after: nat, x: seq<u8>, y: seq<u8>, h: Host)
    requires ValidFunction(code) && SaneHost(h) && SameView(x, y)
    requires IsRedirected(code) ==>
               LiteralsEnd(code) <= |code| && PointsTo(y, LiteralsEnd(code), h.opcode, h.address(after + |code| - LiteralsEnd(code)))
    requires !IsRedirected(code) ==> y == x
    requires HasInfoWord(code) ==> InfoIsThat(x, code)
    requires HasInfoWord(code) && KeepsInfo(code, h) ==> InfoIsThat(y, code)
    ensures SameBlock(code, after, x, y, h)
  {
    hide ValidFunction, SameView, IsRedirected, PointsTo, HasInfoWord, InfoIsThat, KeepsInfo, LiteralsEnd;
  }

  // ---- both ways of loading give the same functions

  lemma LoadUnfold(b: seq<u8>, get: u32 -> u32, h: Host)
    requires SaneHost(h) && Load(b, get).Some?
    ensures |b| >= 8
    ensures !IsFunction(Flags(b)) ==> Load(b, get).value.Regex? && LoadShared(b, get, h) == Load(b, get)
    ensures IsFunction(Flags(b)) ==>
              && SizeOf(b) <= |b| && ValidFunction(b[..SizeOf(b)])
              && LoadSubs(b, SubWords(b[..SizeOf(b)]), get).Some?
              && Load(b, get).value == Function(ResolvedBlock(b[..SizeOf(b)], get), LoadSubs(b, SubWords(b[..SizeOf(b)]), get).value)
  {
    hide LoadSubs, LoadSharedSubs, ValidFunction, ResolvedBlock, SubWords, Shared;
  }

  lemma SharedUnfold(b: seq<u8>, get: u32 -> u32, h: Host, block: seq<u8>)
    requires SaneHost(h) && |b| >= 8 && IsFunction(Flags(b)) && SizeOf(b) <= |b| && ValidFunction(b[..SizeOf(b)])
    requires block == Shared(b[..SizeOf(b)], |b| - SizeOf(b), h)
    ensures !ValidFunction(block) ==> LoadShared(b, get, h) == None
    ensures ValidFunction(block) && LoadSharedSubs(b, SubWords(block), get, h) == None ==> LoadShared(b, get, h) == None
    ensures ValidFunction(block) && LoadSharedSubs(b, SubWords(block), get, h).Some? ==>
              LoadShared(b, get, h) == Some(Function(ResolvedBlock(block, get), LoadSharedSubs(b, SubWords(block), get, h).value))
  {
    hide LoadSharedSubs, ValidFunction, ResolvedBlock, SubWords, Shared;
  }

  lemma SharedView(code: seq<u8>, after: nat, h: Host)
    requires ValidFunction(code) && SaneHost(h) && NewSizeFits(code, h)
    ensures SameView(code, Shared(code, after, h))
  {
    ExtraFits(code, h);
    Bounds(code);
    hide ValidFunction, Redirect, ExtraBytes, NewSize, SameView;
    if IsRedirected(code) {
      RedirectView(code, after, h);
    } else {
      ViewSelf(code);
    }
  }

  lemma ViewSelf(b: seq<u8>)
    requires ValidFunction(b)
    ensures SameView(b, b)
  {
    Bounds(b);
    hide ValidFunction, ConstStart, ConstEnd, SubStart, SubCount, TailStart, Trailing, Flags, HeaderSize, HasHeader, GetWord;
  }

  lemma SubWordsView(b: seq<u8>, r: seq<u8>)
    requires SameView(b, r)
    ensures ValidFunction(b) && ValidFunction(r) && SubWords(r) == SubWords(b)
  {
    hide ValidFunction, ConstStart, ConstEnd, SubStart, SubCount, TailStart, Trailing, Flags, HeaderSize, GetWord;
  }

  // The sizes of a resolved block are those of the block.
  lemma ResolvedSize(b: seq<u8>, get: u32 -> u32, h: Host)
    requires ValidFunction(b)
    ensures ValidFunction(ResolvedBlock(b, get)) && (NewSizeFits(ResolvedBlock(b, get), h) <==> NewSizeFits(b, h))
  {
    hide *;
    var r := ResolvedBlock(b, get);
    ResolvedParts(b, ResolvedBlock(b, get), get);
    ResolvedLength(b, get);
    LayoutKept(b, r);
    SameSizes(b, r, h);
    SameRedirected(b, r);
    FitsIs(b, h);
    FitsIs(r, h);
  }

  lemma FitsIs(b: seq<u8>, h: Host)
    requires ValidFunction(b)
    ensures NewSizeFits(b, h) <==> (IsRedirected(b) ==> NewSize(b, h) < 0x8_0000)
  {}

  lemma SizesFitIs(block: seq<u8>, subs: seq<Code>, h: Host)
    requires ValidFunction(block)
    ensures SizesFit(Function(block, subs), h) <==> NewSizeFits(block, h) && SizesFitSubs(subs, h)
  {
    hide ValidFunction, NewSizeFits;
  }

  lemma SameLoadedNode(b: seq<u8>, block: seq<u8>, subs: seq<Code>, block2: seq<u8>, subs2: seq<Code>, h: Host)
    requires SaneHost(h) && |b| >= 8 && SizeOf(b) <= |b| && ValidFunction(b[..SizeOf(b)])
    requires SameBlock(b[..SizeOf(b)], |b| - SizeOf(b), block, block2, h)
    requires SameLoadedSubs(b, SubWords(b[..SizeOf(b)]), subs, subs2, h)
    ensures SameLoaded(b, Function(block, subs), Function(block2, subs2), h)
  {
    hide SameBlock, ValidFunction, SubWords, SizeOf;
  }

  // Whatever copying loads, sharing loads too, exactly when all sizes fit: the same functions and
  // regular expressions, with the same flags, counters, literals and values at the end, byte code
  // in the right place, and the extended info that is kept.
  lemma SharingIsCopying(b: seq<u8>, get: u32 -> u32, h: Host)
    requires SaneHost(h) && Load(b, get).Some?
    ensures LoadShared(b, get, h).Some? <==> SizesFit(Load(b, get).value, h)
    ensures LoadShared(b, get, h).Some? ==> SameLoaded(b, Load(b, get).value, LoadShared(b, get, h).value, h)
    decreases |b|, 1, 0
  {
    hide *;
    LoadUnfold(b, get, h);
    var c := Load(b, get).value;
    if IsFunction(Flags(b)) {
      var code := b[..SizeOf(b)];
      var after := |b| - SizeOf(b);
      var block := Shared(code, after, h);
      ResolvedSize(code, get, h);
      SizesFitIs(c.block, c.subs, h);
      SharedFits(code, after, h);
      SharedUnfold(b, get, h, block);
      if NewSizeFits(code, h) {
        SharedView(code, after, h);
        SubWordsView(code, block);
        SharingIsCopyingSubs(b, SubWords(code), get, h);
        if LoadSharedSubs(b, SubWords(code), get, h).Some? {
          SharedBlock(code, after, get, h);
          SameLoadedNode(b, c.block, c.subs, ResolvedBlock(block, get), LoadSharedSubs(b, SubWords(block), get, h).value, h);
        }
      }
    } else {
      SameRegex(b, c, h);
    }
  }

  lemma SameRegex(b: seq<u8>, c: Code, h: Host)
    requires SaneHost(h)
    ensures c.Regex? ==> SameLoaded(b, c, c, h)
    ensures !c.Function? ==> SizesFit(c, h)
  {}

  lemma LoadSubsUnfold(b: seq<u8>, offs: seq<u32>, get: u32 -> u32)
    requires LoadSubs(b, offs, get).Some?
    ensures offs == [] ==> LoadSubs(b, offs, get).value == []
    ensures offs != [] ==>
              && offs[0] <= |b| && LoadSubs(b, offs[1..], get).Some?
              && (offs[0] == 0 ==> LoadSubs(b, offs, get).value == [SelfRef] + LoadSubs(b, offs[1..], get).value)
              && (offs[0] != 0 ==>
                    && Load(b[offs[0]..], get).Some?
                    && LoadSubs(b, offs, get).value == [Load(b[offs[0]..], get).value] + LoadSubs(b, offs[1..], get).value)
  {
    hide Load;
  }

  // One sub-function, and the rest.
  function Both(c: Option<Code>, rest: Option<seq<Code>>): Option<seq<Code>> {
    if c.None? || rest.None? then None else Some([c.value] + rest.value)
  }

  lemma SharedSubsUnfold(b: seq<u8>, offs: seq<u32>, get: u32 -> u32, h: Host)
    requires SaneHost(h)
    ensures offs == [] ==> LoadSharedSubs(b, offs, get, h) == Some([])
    ensures offs != [] && offs[0] == 0 ==> LoadSharedSubs(b, offs, get, h) == Both(Some(SelfRef), LoadSharedSubs(b, offs[1..], get, h))
    ensures offs != [] && 0 < offs[0] <= |b| ==>
              LoadSharedSubs(b, offs, get, h) == Both(LoadShared(b[offs[0]..], get, h), LoadSharedSubs(b, offs[1..], get, h))
  {
    hide LoadShared;
  }

  lemma BothIs(c: Option<Code>, rest: Option<seq<Code>>)
    ensures Both(c, rest).Some? <==> c.Some? && rest.Some?
    ensures c.Some? && rest.Some? ==> Both(c, rest).value == [c.value] + rest.value
  {}

  lemma SameLoadedCons(b: seq<u8>, offs: seq<u32>, c: Code, s: seq<Code>, d: Code, t: seq<Code>, h: Host)
    requires SaneHost(h) && offs != [] && SameLoadedSubs(b, offs[1..], s, t, h)
    requires if offs[0] == 0 then c == d == SelfRef else offs[0] <= |b| && SameLoaded(b[offs[0]..], c, d, h)
    ensures SameLoadedSubs(b, offs, [c] + s, [d] + t, h)
  {
    hide SameLoaded, SaneHost;
    assert ([c] + s)[1..] == s && ([d] + t)[1..] == t;
    SubsLengths(b, offs[1..], s, t, h);
  }

  lemma SubsLengths(b: seq<u8>, offs: seq<u32>, s: seq<Code>, t: seq<Code>, h: Host)
    requires SaneHost(h) && SameLoadedSubs(b, offs, s, t, h)
    ensures |s| == |t| == |offs|
  {
    hide SameLoaded;
  }

  lemma SizesFitCons(c: Code, s: seq<Code>, h: Host)
    ensures SizesFitSubs([c] + s, h) <==> SizesFit(c, h) && SizesFitSubs(s, h)
  {
    hide SizesFit;
    assert ([c] + s)[1..] == s;
  }

  lemma SharingIsCopyingSubs(b: seq<u8>, offs: seq<u32>, get: u32 -> u32, h: Host)
    requires SaneHost(h) && LoadSubs(b, offs, get).Some?
    ensures LoadSharedSubs(b, offs, get, h).Some? <==> SizesFitSubs(LoadSubs(b, offs, get).value, h)
    ensures LoadSharedSubs(b, offs, get, h).Some? ==>
              SameLoadedSubs(b, offs, LoadSubs(b, offs, get).value, LoadSharedSubs(b, offs, get, h).value, h)
    decreases |b|, 0, |offs|
  {
    hide *;
    LoadSubsUnfold(b, offs, get);
    SharedSubsUnfold(b, offs, get, h);
    if offs == [] {
      NoSubs(b, h);
    } else {
      var rest, shared := LoadSubs(b, offs[1..], get).value, LoadSharedSubs(b, offs[1..], get, h);
      SharingIsCopyingSubs(b, offs[1..], get, h);
      if offs[0] == 0 {
        SizesFitCons(SelfRef, rest, h);
        SameRegex(b, SelfRef, h);
        BothIs(Some(SelfRef), shared);
        if shared.Some? {
          SameLoadedCons(b, offs, SelfRef, rest, SelfRef, shared.value, h);
        }
      } else {
        var c, d := Load(b[offs[0]..], get).value, LoadShared(b[offs[0]..], get, h);
        SizesFitCons(c, rest, h);
        SharingIsCopying(b[offs[0]..], get, h);
        BothIs(d, shared);
        if d.Some? && shared.Some? {
          SameLoadedCons(b, offs, c, rest, d.value, shared.value, h);
        }
      }
    }
  }

  lemma NoSubs(b: seq<u8>, h: Host)
    requires SaneHost(h)
    ensures SameLoadedSubs(b, [], [], [], h) && SizesFitSubs([], h)
  {}
}
