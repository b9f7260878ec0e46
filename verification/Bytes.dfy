// Little-endian fields in byte sequences, and optional results.
module Bytes {

  type u8 = x: int | 0 <= x < 0x100
  type u16 = x: int | 0 <= x < 0x1_0000
  type u32 = x: int | 0 <= x < 0x1_0000_0000

  datatype Option<T> = None | Some(value: T)

  function Get16(b: seq<u8>, o: nat): u16
    requires o + 2 <= |b|
  {
    b[o] as int + 0x100 * b[o + 1] as int
  }

  function Get32(b: seq<u8>, o: nat): u32
    requires o + 4 <= |b|
  {
    b[o] as int + 0x100 * (b[o + 1] as int + 0x100 * (b[o + 2] as int + 0x100 * b[o + 3] as int))
  }

  // The n low bytes of v, the lowest first.
  function LowBytes(v: nat, n: nat): (w: seq<u8>)
    ensures |w| == n
  {
    if n == 0 then [] else [v % 0x100] + LowBytes(v / 0x100, n - 1)
  }

  function Word(v: u32): (w: seq<u8>)
    ensures |w| == 4 && Get32(w, 0) == v
  {
    WordIs(v);
    LowBytes(v, 4)
  }

  lemma WordIs(v: u32)
    ensures Get32(LowBytes(v, 4), 0) == v
  {
    var a: nat := v / 0x100;
    var b: nat := a / 0x100;
    var c: nat := b / 0x100;
    FourBytes(v);
    assert c < 0x100;
  }

  lemma FourBytes(v: nat)
    ensures LowBytes(v, 4) == [v % 0x100, v / 0x100 % 0x100, v / 0x100 / 0x100 % 0x100, v / 0x100 / 0x100 / 0x100 % 0x100]
  {
    assert LowBytes(v / 0x100 / 0x100, 2) == [v / 0x100 / 0x100 % 0x100, v / 0x100 / 0x100 / 0x100 % 0x100];
  }

  function Half(v: u16): (w: seq<u8>)
    ensures |w| == 2 && Get16(w, 0) == v
  {
    [v % 0x100, v / 0x100]
  }

  function Put(b: seq<u8>, o: nat, w: seq<u8>): (r: seq<u8>)
    requires o + |w| <= |b|
    ensures |r| == |b|
  {
    b[..o] + w + b[o + |w|..]
  }

  lemma Get32Slice(b: seq<u8>, c: seq<u8>, o: nat, p: nat)
    requires o + 4 <= |b| && p + 4 <= |c| && b[o..o + 4] == c[p..p + 4]
    ensures Get32(b, o) == Get32(c, p)
  {
    assert b[o] == b[o..o + 4][0] && b[o + 1] == b[o..o + 4][1] && b[o + 2] == b[o..o + 4][2] && b[o + 3] == b[o..o + 4][3];
    assert c[p] == c[p..p + 4][0] && c[p + 1] == c[p..p + 4][1] && c[p + 2] == c[p..p + 4][2] && c[p + 3] == c[p..p + 4][3];
  }

  // Two words with the same value are the same bytes.
  lemma Get32Unique(b: seq<u8>, c: seq<u8>)
    requires |b| == 4 && |c| == 4 && Get32(b, 0) == Get32(c, 0)
    ensures b == c
  {
    LowUnique(b[2], b[3], c[2], c[3]);
    LowUnique(b[1], b[2] as int + 0x100 * b[3] as int, c[1], c[2] as int + 0x100 * c[3] as int);
    LowUnique(b[0], b[1] as int + 0x100 * (b[2] as int + 0x100 * b[3] as int), c[0], c[1] as int + 0x100 * (c[2] as int + 0x100 * c[3] as int));
  }

  lemma LowUnique(a: u8, x: int, b: u8, y: int)
    ensures a as int + 0x100 * x == b as int + 0x100 * y ==> a == b && x == y
  {}

  // ---- runs of 32-bit words

  function GetWord(b: seq<u8>, start: nat, i: nat): u32
    requires start + 4 * i + 4 <= |b|
  {
    Get32(b, start + 4 * i)
  }

  // Word i of the run at start becomes f of its value, for every i < n.
  function MapWords(b: seq<u8>, start: nat, n: nat, f: u32 -> u32): (r: seq<u8>)
    requires start + 4 * n <= |b|
    ensures |r| == |b|
    decreases n
  {
    if n == 0 then b
    else Put(MapWords(b, start, n - 1, f), start + 4 * (n - 1), Word(f(GetWord(b, start, n - 1))))
  }

  // Writing w leaves every disjoint word alone, and reading it back gives w.
  lemma PutWord(b: seq<u8>, o: nat, v: u32)
    requires o + 4 <= |b|
    ensures Get32(Put(b, o, Word(v)), o) == v
    ensures forall p: nat :: p + 4 <= |b| && (p + 4 <= o || o + 4 <= p) ==>
              Get32(Put(b, o, Word(v)), p) == Get32(b, p)
    ensures forall k :: 0 <= k < |b| && (k < o || o + 4 <= k) ==> Put(b, o, Word(v))[k] == b[k]
  {
    var w := Word(v);
    var r := Put(b, o, w);
    hide Word, Get32;
    assert r[o..o + 4] == w == w[0..4];
    Get32Slice(r, w, o, 0);
    forall p: nat | p + 4 <= |b| && (p + 4 <= o || o + 4 <= p)
      ensures Get32(r, p) == Get32(b, p)
    {
      assert r[p..p + 4] == b[p..p + 4];
      Get32Slice(r, b, p, p);
    }
  }

  lemma {:induction false} MapWordsAt(b: seq<u8>, start: nat, n: nat, f: u32 -> u32)
    requires start + 4 * n <= |b|
    ensures forall i :: 0 <= i < n ==> GetWord(MapWords(b, start, n, f), start, i) == f(GetWord(b, start, i))
    ensures forall p: nat :: p + 4 <= |b| && (p + 4 <= start || start + 4 * n <= p) ==>
              Get32(MapWords(b, start, n, f), p) == Get32(b, p)
    ensures forall k :: 0 <= k < |b| && (k < start || start + 4 * n <= k) ==> MapWords(b, start, n, f)[k] == b[k]
  {
    hide Get32, Word, Put;
    if n == 0 {
    } else {
      MapWordsAt(b, start, n - 1, f);
      PutWord(MapWords(b, start, n - 1, f), start + 4 * (n - 1), f(GetWord(b, start, n - 1)));
    }
  }

  // Equal words have equal bytes.
  lemma WordBytes(b: seq<u8>, c: seq<u8>, o: nat, k: nat)
    requires |b| == |c| && o <= k < o + 4 <= |b| && Get32(b, o) == Get32(c, o)
    ensures b[k] == c[k]
  {
    hide Get32;
    Get32Slice(b, b[o..o + 4], o, 0);
    Get32Slice(c, c[o..o + 4], o, 0);
    Get32Unique(b[o..o + 4], c[o..o + 4]);
    assert b[k] == b[o..o + 4][k - o] && c[k] == c[o..o + 4][k - o];
  }

  lemma RunByte(b: seq<u8>, c: seq<u8>, start: nat, n: nat, k: nat)
    requires |b| == |c| && start + 4 * n <= |b| && start <= k < start + 4 * n
    requires forall i :: 0 <= i < n ==> GetWord(c, start, i) == GetWord(b, start, i)
    ensures b[k] == c[k]
  {
    hide Get32;
    var i := (k - start) / 4;
    assert GetWord(c, start, i) == GetWord(b, start, i);
    WordBytes(b, c, start + 4 * i, k);
  }

  // The words ws written one after the other from start.
  function PutWords(b: seq<u8>, start: nat, ws: seq<u32>): (r: seq<u8>)
    requires start + 4 * |ws| <= |b|
    ensures |r| == |b|
  {
    if ws == [] then b
    else Put(PutWords(b, start, ws[..|ws| - 1]), start + 4 * (|ws| - 1), Word(ws[|ws| - 1]))
  }

  lemma {:induction false} PutWordsAt(b: seq<u8>, start: nat, ws: seq<u32>)
    requires start + 4 * |ws| <= |b|
    ensures forall i :: 0 <= i < |ws| ==> GetWord(PutWords(b, start, ws), start, i) == ws[i]
    ensures forall p: nat :: p + 4 <= |b| && (p + 4 <= start || start + 4 * |ws| <= p) ==>
              Get32(PutWords(b, start, ws), p) == Get32(b, p)
    ensures forall k :: 0 <= k < |b| && (k < start || start + 4 * |ws| <= k) ==> PutWords(b, start, ws)[k] == b[k]
  {
    hide Get32, Word, Put;
    if ws == [] {
    } else {
      PutWordsAt(b, start, ws[..|ws| - 1]);
      PutWord(PutWords(b, start, ws[..|ws| - 1]), start + 4 * (|ws| - 1), ws[|ws| - 1]);
    }
  }

  // Every word of a run satisfies k.
  ghost predicate RunOver(b: seq<u8>, start: nat, n: nat, k: u32 -> bool)
    requires start + 4 * n <= |b|
  {
    forall i :: 0 <= i < n ==> k(GetWord(b, start, i))
  }

  lemma RunInside(b: seq<u8>, pos: nat, w: seq<u8>, start: nat, n: nat, k: u32 -> bool)
    requires pos + |w| <= |b| && b[pos..pos + |w|] == w && start + 4 * n <= |w|
    ensures RunOver(b, pos + start, n, k) <==> RunOver(w, start, n, k)
  {
    hide Get32;
    var s := pos + start;
    forall i | 0 <= i < n ensures GetWord(b, s, i) == GetWord(w, start, i) {
      SliceInside(b, pos, w, start + 4 * i);
    }
  }

  lemma SliceInside(b: seq<u8>, pos: nat, w: seq<u8>, o: nat)
    requires pos + |w| <= |b| && b[pos..pos + |w|] == w && o + 4 <= |w|
    ensures Get32(b, pos + o) == Get32(w, o)
  {
    hide Get32;
    assert forall k :: 0 <= k < |w| ==> w[k] == b[pos + k];
    assert b[pos + o..pos + o + 4] == w[o..o + 4];
    Get32Slice(b, w, pos + o, o);
  }

  lemma RunAfterMap(b: seq<u8>, start: nat, n: nat, f: u32 -> u32, other: nat, m: nat, k: u32 -> bool)
    requires start + 4 * n <= other && other + 4 * m <= |b|
    ensures RunOver(MapWords(b, start, n, f), other, m, k) <==> RunOver(b, other, m, k)
  {
    hide Get32, MapWords;
    MapWordsAt(b, start, n, f);
    forall i | 0 <= i < m ensures GetWord(MapWords(b, start, n, f), other, i) == GetWord(b, other, i) {
    }
  }
}
