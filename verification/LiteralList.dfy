// The list of literals: written by jerry_get_literals_from_snapshot in list mode
// (jerry-core/api/jerry-snapshot.c), read back by process_generate
// (jerry-main/main-jerry-snapshot.c).
module LiteralList {
  import opened Bytes

  // ---- decimal numbers

  predicate IsDigit(c: u8) { 48 <= c <= 57 }
  predicate IsSpace(c: u8) { c == 32 || 9 <= c <= 13 }

  // ecma_uint32_to_utf8_string
  function Decimal(n: nat): (d: seq<u8>)
    ensures d != [] && forall i :: 0 <= i < |d| ==> IsDigit(d[i])
  {
    if n < 10 then [48 + n] else Decimal(n / 10) + [48 + n % 10]
  }

  // The value of the digits of b from p to the first byte that is none, after value was read.
  function ReadDigits(b: seq<u8>, p: nat, value: nat): (r: (nat, nat))
    requires p <= |b|
    ensures p <= r.1 <= |b| && (r.1 < |b| ==> !IsDigit(b[r.1]))
    decreases |b| - p
  {
    if p < |b| && IsDigit(b[p]) then ReadDigits(b, p + 1, 10 * value + (b[p] - 48)) else (value, p)
  }

  function SkipSpaces(b: seq<u8>, p: nat): (q: nat)
    requires p <= |b|
    ensures p <= q <= |b|
    decreases |b| - p
  {
    if p < |b| && IsSpace(b[p]) then SkipSpaces(b, p + 1) else p
  }

  // strtol in base 10: white space, a sign, digits; without digits the position stays.
  function Strtol(b: seq<u8>, p: nat): (r: (int, nat))
    requires p <= |b|
    ensures p <= r.1 <= |b|
  {
    var q := SkipSpaces(b, p);
    var negative := q < |b| && b[q] == 45;
    var start := if q < |b| && (b[q] == 45 || b[q] == 43) then q + 1 else q;
    if start >= |b| || !IsDigit(b[start]) then (0, p)
    else
      var (digits, end) := ReadDigits(b, start, 0);
      var value: int := digits;
      (if negative then (if value > 0x8000_0000_0000_0000 then -0x8000_0000_0000_0000 else -value)
       else if value > 0x7fff_ffff_ffff_ffff then 0x7fff_ffff_ffff_ffff else value, end)
  }

  // ---- writing

  function Line(literal: seq<u8>): seq<u8> {
    Decimal(|literal|) + [32] + literal + [10]
  }

  function Text(literals: seq<seq<u8>>): seq<u8> {
    if literals == [] then [] else Text(literals[..|literals| - 1]) + Line(literals[|literals| - 1])
  }

  // jerry_append_chars_to_buffer: a position behind the end of the buffer stands for lack of
  // room, and stays.
  method AppendChars(out: array<u8>, pos: nat, chars: seq<u8>) returns (next: nat)
    requires pos <= out.Length + 1 && chars != []
    modifies out
    ensures pos + |chars| <= out.Length ==> next == pos + |chars| && out[..next] == old(out[..pos]) + chars
    ensures pos + |chars| > out.Length ==> next == out.Length + 1 && out[..] == old(out[..])
    ensures next <= out.Length ==> out[next..] == old(out[next..])
  {
    if pos > out.Length {
      return pos;
    }
    if pos + |chars| <= out.Length {
      forall k | 0 <= k < |chars| {
        out[pos + k] := chars[k];
      }
      return pos + |chars|;
    }
    return out.Length + 1;
  }

  // The body of the loop over the literals.
  method WriteLine(out: array<u8>, pos: nat, literal: seq<u8>) returns (next: nat)
    requires pos <= out.Length + 1 && literal != []
    modifies out
    ensures pos + |Line(literal)| <= out.Length ==> next == pos + |Line(literal)| && out[..next] == old(out[..pos]) + Line(literal)
    ensures pos + |Line(literal)| > out.Length ==> next == out.Length + 1
    ensures next <= out.Length ==> out[next..] == old(out[next..])
  {
    hide Decimal;
    ghost var b := out[..];
    var p1 := AppendChars(out, pos, Decimal(|literal|));
    ghost var b1 := out[..];
    var p2 := AppendChars(out, p1, [32]);
    ghost var b2 := out[..];
    var p3 := AppendChars(out, p2, literal);
    ghost var b3 := out[..];
    next := AppendChars(out, p3, [10]);
    if next <= out.Length {
      FourParts(b, b1, b2, b3, out[..], pos, p1, p2, p3, next, Decimal(|literal|), [32], literal, [10]);
    }
  }

  lemma FourParts(b: seq<u8>, b1: seq<u8>, b2: seq<u8>, b3: seq<u8>, b4: seq<u8>, pos: nat, p1: nat, p2: nat, p3: nat, p4: nat,
                  w: seq<u8>, x: seq<u8>, y: seq<u8>, z: seq<u8>)
    requires |b| == |b1| == |b2| == |b3| == |b4| && pos <= p1 <= p2 <= p3 <= p4 <= |b|
    requires b1[..p1] == b[..pos] + w && b1[p1..] == b[p1..]
    requires b2[..p2] == b1[..p1] + x && b2[p2..] == b1[p2..]
    requires b3[..p3] == b2[..p2] + y && b3[p3..] == b2[p3..]
    requires b4[..p4] == b3[..p3] + z && b4[p4..] == b3[p4..]
    ensures b4[..p4] == b[..pos] + (w + x + y + z) && b4[p4..] == b[p4..]
  {
    assert b4[..p4] == b[..pos] + (w + x + y + z);
    AfterSlice(b3, b2, p3, p4);
    AfterSlice(b2, b1, p2, p4);
    AfterSlice(b1, b, p1, p4);
  }

  lemma AfterSlice(x: seq<u8>, y: seq<u8>, p: nat, q: nat)
    requires p <= q <= |x| == |y| && x[p..] == y[p..]
    ensures x[q..] == y[q..]
  {
    assert x[q..] == x[p..][q - p..] && y[q..] == y[p..][q - p..];
  }

  // The list mode of jerry_get_literals_from_snapshot, for the sorted literals.
  method WriteList(literals: seq<seq<u8>>, out: array<u8>) returns (size: nat)
    requires forall i :: 0 <= i < |literals| ==> literals[i] != []
    modifies out
    ensures |Text(literals)| <= out.Length ==>
              size == |Text(literals)| && out[..size] == Text(literals) && out[size..] == old(out[..])[size..]
    ensures |Text(literals)| > out.Length ==> size == 0
  {
    hide Decimal, Line, Text;
    TextNone();
    if literals == [] {
      return 0;
    }
    ghost var b := out[..];
    var pos, i := 0, 0;
    while i < |literals|
      invariant 0 <= i <= |literals| && pos <= out.Length + 1
      invariant |Text(literals[..i])| <= out.Length ==>
                  pos == |Text(literals[..i])| && out[..pos] == Text(literals[..i]) && out[pos..] == b[pos..]
      invariant |Text(literals[..i])| > out.Length ==> pos == out.Length + 1
    {
      var literal := literals[i];
      TextNext(literals, i);
      ghost var was, b1 := pos, out[..];
      pos := WriteLine(out, pos, literal);
      if pos <= out.Length { AfterSlice(b1, b, was, pos); }
      i := i + 1;
    }
    assert literals[..i] == literals;
    size := if pos <= out.Length then pos else 0;
  }

  lemma TextNone()
    ensures Text([]) == []
  {}

  lemma TextNext(literals: seq<seq<u8>>, i: nat)
    requires i < |literals|
    ensures Text(literals[..i + 1]) == Text(literals[..i]) + Line(literals[i])
    ensures |Line(literals[i])| == |Decimal(|literals[i]|)| + |literals[i]| + 2
  {
    assert literals[..i + 1][..i] == literals[..i];
  }

  // ---- reading

  // Where an item starts, and its length.
  datatype Item = Item(start: nat, length: u32)

  // The items found from position p on. A negative or huge number makes a length of 32 bits.
  function ParseItems(b: seq<u8>, size: nat, p: nat): seq<Item>
    requires p < size < |b|
    decreases size - p
  {
    var (value, end) := Strtol(b, p);
    var length: u32 := value % 0x1_0000_0000;
    var items := if length > 0 then [Item(end + 1, length)] else [];
    var next := end + length + 1;
    items + if next < size then ParseItems(b, size, next) else []
  }

  lemma ParseStep(b: seq<u8>, size: nat, p: nat)
    requires p < size < |b|
    ensures var length, end := Strtol(b, p).0 % 0x1_0000_0000, Strtol(b, p).1;
            var rest := if end + length + 1 < size then ParseItems(b, size, end + length + 1) else [];
            && (length > 0 ==>
                  ParseItems(b, size, p) != [] && ParseItems(b, size, p)[0] == Item(end + 1, length) && ParseItems(b, size, p)[1..] == rest)
            && (length == 0 ==> ParseItems(b, size, p) == rest)
  {
    hide Strtol;
  }

  lemma FirstOfRest(all: seq<Item>, count: nat)
    requires count <= |all|
    ensures count < |all| ==> all[count..][0] == all[count] && all[count..][1..] == all[count + 1..]
    ensures all[count..] == [] <==> count == |all|
  {}

  // The loop of process_generate: b holds the file of size bytes and a zero byte, and the two
  // arrays have room for the items.
  method ReadList(b: seq<u8>, size: nat, items: array<nat>, lengths: array<u32>) returns (count: nat)
    requires size < |b| && items.Length == lengths.Length
    requires size > 0 ==> |ParseItems(b, size, 0)| <= items.Length
    modifies items, lengths
    ensures count == if size > 0 then |ParseItems(b, size, 0)| else 0
    ensures forall i :: 0 <= i < count ==> Item(items[i], lengths[i]) == ParseItems(b, size, 0)[i]
  {
    hide Strtol, ParseItems;
    count := 0;
    if size > 0 {
      ghost var all := ParseItems(b, size, 0);
      var p, more := 0, true;
      while more
        invariant more ==> p < size && count <= |all| && all[count..] == ParseItems(b, size, p)
        invariant !more ==> count == |all|
        invariant forall i :: 0 <= i < count ==> Item(items[i], lengths[i]) == all[i]
        decreases size - p, more
      {
        var (value, end) := Strtol(b, p);
        var length: u32 := value % 0x1_0000_0000;
        ParseStep(b, size, p);
        FirstOfRest(all, count);
        if length > 0 {
          items[count] := end + 1;
          lengths[count] := length;
          count := count + 1;
        }
        p := end + length + 1;
        more := p < size;
      }
    }
  }

  // ---- reading what was written

  lemma {:induction false} DigitsRead(b: seq<u8>, p: nat, n: nat)
    requires p + |Decimal(n)| <= |b| && b[p..p + |Decimal(n)|] == Decimal(n)
    ensures ReadDigits(b, p, 0) == ReadDigits(b, p + |Decimal(n)|, n)
  {
    var d := Decimal(n);
    var last := p + |d| - 1;
    assert b[last] == b[p..p + |d|][|d| - 1] == d[|d| - 1];
    if n < 10 {
    } else {
      var front := Decimal(n / 10);
      assert d == front + [48 + n % 10];
      assert b[p..p + |front|] == b[p..p + |d|][..|front|] == front;
      DigitsRead(b, p, n / 10);
      assert ReadDigits(b, last, n / 10) == ReadDigits(b, last + 1, 10 * (n / 10) + n % 10);
    }
  }

  // A number after a line feed, or at the start, followed by a space.
  lemma NumberRead(b: seq<u8>, p: nat, q: nat, n: u32)
    requires (p == q || (p + 1 == q && p < |b| && b[p] == 10)) && q + |Decimal(n)| < |b|
    requires b[q..q + |Decimal(n)|] == Decimal(n) && b[q + |Decimal(n)|] == 32
    ensures Strtol(b, p) == (n, q + |Decimal(n)|)
  {
    var d := Decimal(n);
    assert b[q] == b[q..q + |d|][0] == d[0];
    assert SkipSpaces(b, q) == q;
    assert SkipSpaces(b, p) == q;
    DigitsRead(b, q, n);
    assert ReadDigits(b, q + |d|, n) == (n, q + |d|);
  }

  // Where line k starts, and where the reader stands before it: on the line feed before it.
  function LineStart(literals: seq<seq<u8>>, k: nat): nat
    requires k <= |literals|
  {
    |Text(literals[..k])|
  }

  function ReaderAt(literals: seq<seq<u8>>, k: nat): int
    requires k <= |literals|
  {
    if k == 0 then 0 else LineStart(literals, k) - 1
  }

  // The item for literal k.
  function ItemOf(literals: seq<seq<u8>>, k: nat): Item
    requires k < |literals| && |literals[k]| < 0x1_0000_0000
  {
    Item(LineStart(literals, k) + |Decimal(|literals[k]|)| + 1, |literals[k]|)
  }

  // The text contains each line where it should.
  lemma {:induction false} LineInText(literals: seq<seq<u8>>, k: nat, n: nat)
    requires k < n <= |literals|
    ensures LineStart(literals, k + 1) == LineStart(literals, k) + |Line(literals[k])| <= LineStart(literals, n)
    ensures Text(literals[..n])[LineStart(literals, k)..LineStart(literals, k + 1)] == Line(literals[k])
    decreases n
  {
    hide Line;
    TextNext(literals, k);
    TextNext(literals, n - 1);
    if k < n - 1 {
      LineInText(literals, k, n - 1);
      var front, all := Text(literals[..n - 1]), Text(literals[..n]);
      assert all[LineStart(literals, k)..LineStart(literals, k + 1)] == front[LineStart(literals, k)..LineStart(literals, k + 1)];
    }
  }

  lemma LineInWhole(literals: seq<seq<u8>>, k: nat)
    requires k < |literals|
    ensures LineStart(literals, k) <= LineStart(literals, k + 1) <= |Text(literals)|
    ensures Text(literals)[LineStart(literals, k)..LineStart(literals, k + 1)] == Line(literals[k])
  {
    LineInText(literals, k, |literals|);
    hide *;
    LineEnds(literals);
    assert literals[..|literals|] == literals;
  }

  // The parts of line k inside the file.
  lemma LineParts(literals: seq<seq<u8>>, b: seq<u8>, k: nat)
    requires k < |literals| && b == Text(literals) + [0]
    ensures var at, d, l := LineStart(literals, k), Decimal(|literals[k]|), literals[k];
            && at + |d| + |l| + 2 == LineStart(literals, k + 1) < |b|
            && b[at..at + |d|] == d && b[at + |d|] == 32
            && b[at + |d| + 1..at + |d| + 1 + |l|] == l && b[LineStart(literals, k + 1) - 1] == 10
  {
    hide *;
    LineInWhole(literals, k);
    var at, d, l := LineStart(literals, k), Decimal(|literals[k]|), literals[k];
    LineIs(l);
    var end := LineStart(literals, k + 1);
    PrefixSlice(Text(literals), b, at, end);
    SliceParts(b, at, end, Line(l), d, l);
  }

  lemma LineIs(l: seq<u8>)
    ensures Line(l) == Decimal(|l|) + [32] + l + [10]
  {}

  lemma PrefixSlice(text: seq<u8>, b: seq<u8>, at: nat, end: nat)
    requires b == text + [0] && at <= end <= |text|
    ensures end < |b| && b[at..end] == text[at..end]
  {}

  lemma SliceParts(b: seq<u8>, at: nat, end: nat, line: seq<u8>, d: seq<u8>, l: seq<u8>)
    requires at <= end <= |b| && b[at..end] == line && line == d + [32] + l + [10]
    ensures end == at + |d| + |l| + 2
    ensures b[at..at + |d|] == d && b[at + |d|] == 32
    ensures b[at + |d| + 1..at + |d| + 1 + |l|] == l && b[end - 1] == 10
  {
    forall k | 0 <= k < |line| ensures b[at + k] == line[k] {
      assert b[at..end][k] == b[at + k];
    }
    forall k | 0 <= k < |d| ensures b[at..at + |d|][k] == d[k] {
      assert b[at + k] == line[k];
    }
    forall k | 0 <= k < |l| ensures b[at + |d| + 1..at + |d| + 1 + |l|][k] == l[k] {
      assert b[at + (|d| + 1 + k)] == line[|d| + 1 + k];
    }
    assert b[at + |d|] == line[|d|] && b[at + (|line| - 1)] == line[|line| - 1];
  }

  function Items(literals: seq<seq<u8>>, k: nat): seq<Item>
    requires k <= |literals| && forall i :: 0 <= i < |literals| ==> |literals[i]| < 0x1_0000_0000
    decreases |literals| - k
  {
    if k == |literals| then [] else [ItemOf(literals, k)] + Items(literals, k + 1)
  }

  lemma AfterLast(b: seq<u8>, size: nat)
    requires 0 < size && |b| == size + 1 && b[size - 1] == 10 && b[size] == 0
    ensures ParseItems(b, size, size - 1) == []
  {
    assert SkipSpaces(b, size) == size;
    assert SkipSpaces(b, size - 1) == size;
  }

  lemma {:induction false} ItemsRead(literals: seq<seq<u8>>, b: seq<u8>, k: nat)
    requires literals != [] && k <= |literals| && b == Text(literals) + [0]
    requires forall i :: 0 <= i < |literals| ==> 0 < |literals[i]| < 0x1_0000_0000
    ensures 0 <= ReaderAt(literals, k) < |Text(literals)|
    ensures ParseItems(b, |Text(literals)|, ReaderAt(literals, k)) == Items(literals, k)
    decreases |literals| - k
  {
    hide Decimal, Text, Strtol, LineStart, ParseItems, Items, ItemOf, ReaderAt;
    var size := |Text(literals)|;
    LineEnds(literals);
    ItemsStep(literals, k);
    if k == |literals| {
      LineParts(literals, b, k - 1);
      AfterLast(b, size);
    } else {
      LineParts(literals, b, k);
      if k > 0 { LineParts(literals, b, k - 1); }
      ItemsRead(literals, b, k + 1);
      var at := LineStart(literals, k);
      NumberRead(b, ReaderAt(literals, k), at, |literals[k]|);
      StepRead(b, size, ReaderAt(literals, k), |literals[k]|, at + |Decimal(|literals[k]|)|);
    }
  }

  lemma ItemsStep(literals: seq<seq<u8>>, k: nat)
    requires k <= |literals| && forall i :: 0 <= i < |literals| ==> |literals[i]| < 0x1_0000_0000
    ensures k == |literals| ==> Items(literals, k) == []
    ensures k < |literals| ==>
              && Items(literals, k) == [Item(LineStart(literals, k) + |Decimal(|literals[k]|)| + 1, |literals[k]|)] + Items(literals, k + 1)
              && ReaderAt(literals, k + 1) == LineStart(literals, k + 1) - 1
    ensures ReaderAt(literals, k) == if k == 0 then 0 else LineStart(literals, k) - 1
  {
    hide LineStart, Decimal;
  }

  lemma StepRead(b: seq<u8>, size: nat, p: nat, length: u32, end: nat)
    requires p < size < |b| && length > 0 && Strtol(b, p) == (length, end) && end + length + 1 < size
    ensures ParseItems(b, size, p) == [Item(end + 1, length)] + ParseItems(b, size, end + length + 1)
  {
    hide Strtol;
  }

  lemma LineEnds(literals: seq<seq<u8>>)
    ensures LineStart(literals, 0) == 0 && LineStart(literals, |literals|) == |Text(literals)|
  {
    assert literals[..|literals|] == literals;
  }

  lemma {:induction false} ItemsAt(literals: seq<seq<u8>>, k: nat, i: nat)
    requires forall j :: 0 <= j < |literals| ==> |literals[j]| < 0x1_0000_0000
    requires k <= i < |literals|
    ensures |Items(literals, k)| == |literals| - k && Items(literals, k)[i - k] == ItemOf(literals, i)
    decreases |literals| - k
  {
    hide ItemOf;
    if k < i {
      ItemsAt(literals, k + 1, i);
    } else if k + 1 < |literals| {
      ItemsAt(literals, k + 1, k + 1);
    }
  }

  // The file that was written, followed by a zero byte, is read back as the same strings in
  // the same order, whatever bytes they contain.
  lemma ListRoundTrip(literals: seq<seq<u8>>, b: seq<u8>)
    requires literals != [] && b == Text(literals) + [0]
    requires forall i :: 0 <= i < |literals| ==> 0 < |literals[i]| < 0x1_0000_0000
    ensures |Text(literals)| > 0 && |ParseItems(b, |Text(literals)|, 0)| == |literals|
    ensures forall i :: 0 <= i < |literals| ==>
              var item := ParseItems(b, |Text(literals)|, 0)[i];
              item.start + item.length <= |b| && b[item.start..item.start + item.length] == literals[i]
  {
    hide Decimal, Text, ParseItems, LineStart;
    ItemsRead(literals, b, 0);
    ItemsAt(literals, 0, 0);
    forall i | 0 <= i < |literals|
      ensures var item := ParseItems(b, |Text(literals)|, 0)[i];
              item.start + item.length <= |b| && b[item.start..item.start + item.length] == literals[i]
    {
      ItemsAt(literals, 0, i);
      LineParts(literals, b, i);
    }
  }
}
