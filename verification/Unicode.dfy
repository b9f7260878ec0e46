// Compression of the Unicode case mappings (tools/gen-unicode.py).
module Unicode {

  // Case mappings send a code point to one, two or three code points.
  type Letters = map<int, seq<int>>

  predicate OneToThree(m: Letters) {
    forall k :: k in m ==> 1 <= |m[k]| <= 3
  }

  class CaseTable {
    var letters: Letters

    constructor (m: Letters)
      ensures letters == m
    {
      letters := m;
    }

    // del letter_case[k]
    method Delete(k: int)
      requires k in letters
      modifies this
      ensures letters == old(letters) - {k}
    {
      letters := letters - {k};
    }
  }

  // is_bidirectional_conversion
  predicate IsBidirectional(k: int, lower: Letters, upper: Letters) {
    && k in lower && |lower[k]| == 1
    && lower[k][0] in upper && upper[lower[k][0]] == [k]
  }

  datatype Distance = None | By(distance: int)

  // calculate_conversion_distance
  function ConversionDistance(m: Letters, k: int): Distance {
    if k !in m || |m[k]| != 1 then None else By(m[k][0] - k)
  }

  // ---- sorted keys

  predicate Ascending(keys: seq<int>) {
    forall i, j :: 0 <= i < j < |keys| ==> keys[i] < keys[j]
  }

  ghost predicate Lists(keys: seq<int>, s: set<int>) {
    Ascending(keys) && forall k :: k in s <==> k in keys
  }

  method Pick<T>(s: set<T>) returns (x: T)
    requires s != {}
    ensures x in s
  {
    x :| x in s;
  }

  method Least(s: set<int>) returns (least: int)
    requires s != {}
    ensures least in s && forall k :: k in s ==> least <= k
  {
    least := Pick(s);
    var rest := s - {least};
    while rest != {}
      invariant least in s && rest <= s && forall k :: k in s && k !in rest ==> least <= k
      decreases |rest|
    {
      var k := Pick(rest);
      rest := rest - {k};
      if k < least {
        least := k;
      }
    }
  }

  method Sorted(s: set<int>) returns (keys: seq<int>)
    ensures Lists(keys, s)
  {
    keys := [];
    var rest := s;
    while rest != {}
      invariant rest <= s && Ascending(keys)
      invariant forall k :: k in s <==> k in rest || k in keys
      invariant forall k, l :: k in keys && l in rest ==> k < l
      decreases |rest|
    {
      var k := Least(rest);
      forall i | 0 <= i < |keys| ensures keys[i] < k {
        assert keys[i] in keys;
      }
      keys := keys + [k];
      rest := rest - {k};
    }
  }

  // The key before keys[i] is the one listed before, if it is one.
  lemma Neighbour(keys: seq<int>, s: set<int>, i: nat)
    requires Lists(keys, s) && i < |keys| && keys[i] - 1 in s
    ensures i > 0 && keys[i - 1] == keys[i] - 1
  {
    var j :| 0 <= j < |keys| && keys[j] == keys[i] - 1;
    assert j < i;
    assert keys[i - 1] < keys[i];
    assert !(j < i - 1);
  }

  // ---- ranges: start points with their mapped values, and lengths

  // Range j sends start, start + 1, ... to mapped, mapped + 1, ...
  predicate InRange(ranges: seq<int>, lengths: seq<nat>, j: nat, k: int)
    requires |ranges| == 2 * |lengths| && j < |lengths|
  {
    ranges[2 * j] <= k < ranges[2 * j] + lengths[j]
  }

  predicate InRanges(ranges: seq<int>, lengths: seq<nat>, k: int)
    requires |ranges| == 2 * |lengths|
  {
    exists j :: 0 <= j < |lengths| && InRange(ranges, lengths, j, k)
  }

  function DecodeRange(ranges: seq<int>, lengths: seq<nat>, j: nat): Letters
    requires |ranges| == 2 * |lengths| && j < |lengths|
  {
    map k | ranges[2 * j] <= k < ranges[2 * j] + lengths[j] && InRange(ranges, lengths, j, k) :: [ranges[2 * j + 1] + k - ranges[2 * j]]
  }

  function DecodeRanges(ranges: seq<int>, lengths: seq<nat>, n: nat): Letters
    requires |ranges| == 2 * |lengths| && n <= |lengths|
  {
    if n == 0 then map[] else DecodeRanges(ranges, lengths, n - 1) + DecodeRange(ranges, lengths, n - 1)
  }

  // The upper case table, when ranges must be bidirectional.
  datatype Reverse = OneWay | TwoWay(upper: Letters)

  predicate Eligible(k: int, m: Letters, r: Reverse) {
    match r
    case OneWay => k in m && |m[k]| == 1
    case TwoWay(upper) => IsBidirectional(k, m, upper)
  }

  // k continues a range that k - 1 belongs to.
  predicate Joins(k: int, m: Letters, r: Reverse) {
    Eligible(k, m, r) && Eligible(k - 1, m, r) && ConversionDistance(m, k) == ConversionDistance(m, k - 1)
  }

  lemma JoinsMeans(k: int, m: Letters, r: Reverse)
    requires Joins(k, m, r)
    ensures Eligible(k, m, r) && Eligible(k - 1, m, r) && k in m && k - 1 in m
    ensures |m[k]| == 1 && |m[k - 1]| == 1 && m[k] == [m[k - 1][0] + 1]
  {}

  // The ranges are in order, do not overlap, and say what the table says.
  ghost predicate Extracted(ranges: seq<int>, lengths: seq<nat>, m: Letters, r: Reverse) {
    && |ranges| == 2 * |lengths|
    && (forall j :: 0 <= j < |lengths| ==> lengths[j] >= 2)
    && (forall j, k :: 0 <= j < |lengths| && InRange(ranges, lengths, j, k) ==>
          Eligible(k, m, r) && k in m && m[k] == [ranges[2 * j + 1] + k - ranges[2 * j]])
    && (forall j, l :: 0 <= j < l < |lengths| ==> ranges[2 * j] + lengths[j] <= ranges[2 * l])
  }

  ghost predicate Scanned(keys: seq<int>, i: nat, ranges: seq<int>, lengths: seq<nat>, inRange: bool, m: Letters, r: Reverse)
    requires i <= |keys| && |ranges| == 2 * |lengths|
  {
    var n := |lengths| - 1;
    && (inRange ==> n >= 0)
    && (n >= 0 ==> i > 0 && ranges[2 * n] + lengths[n] <= keys[i - 1] + if inRange then 1 else 0)
    && (inRange ==> ranges[2 * n] + lengths[n] == keys[i - 1] + 1)
    && (forall t :: 0 <= t < i && Joins(keys[t], m, r) ==>
          InRanges(ranges, lengths, keys[t]) && InRanges(ranges, lengths, keys[t] - 1))
  }

  lemma RangeGrowsAt(ranges: seq<int>, lengths: seq<nat>, longer: seq<nat>, k: int)
    requires |ranges| == 2 * |lengths| && lengths != []
    requires longer == lengths[|lengths| - 1 := lengths[|lengths| - 1] + 1]
    ensures InRanges(ranges, longer, k)
            <==> InRanges(ranges, lengths, k) || k == ranges[2 * (|lengths| - 1)] + lengths[|lengths| - 1]
  {
    var n := |lengths| - 1;
    if InRanges(ranges, lengths, k) {
      var j :| 0 <= j <= n && InRange(ranges, lengths, j, k);
      assert InRange(ranges, longer, j, k);
    }
    if k == ranges[2 * n] + lengths[n] {
      assert InRange(ranges, longer, n, k);
    }
    if InRanges(ranges, longer, k) {
      var j :| 0 <= j <= n && InRange(ranges, longer, j, k);
      assert k == ranges[2 * n] + lengths[n] || InRange(ranges, lengths, j, k);
    }
  }

  // One more element in the last range.
  lemma RangeGrows(ranges: seq<int>, lengths: seq<nat>, longer: seq<nat>)
    requires |ranges| == 2 * |lengths| && lengths != []
    requires longer == lengths[|lengths| - 1 := lengths[|lengths| - 1] + 1]
    ensures forall k :: InRanges(ranges, longer, k)
                        <==> InRanges(ranges, lengths, k) || k == ranges[2 * (|lengths| - 1)] + lengths[|lengths| - 1]
  {
    hide InRanges;
    forall k
      ensures InRanges(ranges, longer, k)
              <==> InRanges(ranges, lengths, k) || k == ranges[2 * (|lengths| - 1)] + lengths[|lengths| - 1]
    {
      RangeGrowsAt(ranges, lengths, longer, k);
    }
  }

  lemma RangeStartsAt(ranges: seq<int>, lengths: seq<nat>, more: seq<int>, longer: seq<nat>, start: int, mapped: int, k: int)
    requires |ranges| == 2 * |lengths| && more == ranges + [start, mapped] && longer == lengths + [2]
    ensures |more| == 2 * |longer|
    ensures InRanges(more, longer, k) <==> InRanges(ranges, lengths, k) || k == start || k == start + 1
  {
    var n := |lengths|;
    if InRanges(ranges, lengths, k) {
      var j :| 0 <= j < n && InRange(ranges, lengths, j, k);
      assert InRange(more, longer, j, k);
    }
    if k == start || k == start + 1 {
      assert InRange(more, longer, n, k);
    }
    if InRanges(more, longer, k) {
      var j :| 0 <= j <= n && InRange(more, longer, j, k);
      assert j == n || InRange(ranges, lengths, j, k);
    }
  }

  // One more range of two elements.
  lemma RangeStarts(ranges: seq<int>, lengths: seq<nat>, more: seq<int>, longer: seq<nat>, start: int, mapped: int)
    requires |ranges| == 2 * |lengths| && more == ranges + [start, mapped] && longer == lengths + [2]
    ensures |more| == 2 * |longer|
    ensures forall k :: InRanges(more, longer, k) <==> InRanges(ranges, lengths, k) || k == start || k == start + 1
  {
    hide InRanges;
    forall k ensures InRanges(more, longer, k) <==> InRanges(ranges, lengths, k) || k == start || k == start + 1 {
      RangeStartsAt(ranges, lengths, more, longer, start, mapped, k);
    }
  }

  // Element k of range j says what the table says.
  ghost predicate SaysSo(ranges: seq<int>, j: nat, k: int, m: Letters, r: Reverse)
    requires 2 * j + 1 < |ranges|
  {
    Eligible(k, m, r) && k in m && m[k] == [ranges[2 * j + 1] + k - ranges[2 * j]]
  }

  lemma ExtractedAt(ranges: seq<int>, lengths: seq<nat>, m: Letters, r: Reverse, j: nat, k: int)
    requires Extracted(ranges, lengths, m, r) && j < |lengths| && InRange(ranges, lengths, j, k)
    ensures SaysSo(ranges, j, k, m, r)
  {
    hide Eligible;
  }

  lemma ExtractedWhole(ranges: seq<int>, lengths: seq<nat>, m: Letters, r: Reverse)
    requires |ranges| == 2 * |lengths| && forall j :: 0 <= j < |lengths| ==> lengths[j] >= 2
    requires forall j, k :: 0 <= j < |lengths| && InRange(ranges, lengths, j, k) ==> SaysSo(ranges, j, k, m, r)
    requires forall j, l :: 0 <= j < l < |lengths| ==> ranges[2 * j] + lengths[j] <= ranges[2 * l]
    ensures Extracted(ranges, lengths, m, r)
  {
    hide Eligible, InRange;
    forall j, k | 0 <= j < |lengths| && InRange(ranges, lengths, j, k)
      ensures Eligible(k, m, r) && k in m && m[k] == [ranges[2 * j + 1] + k - ranges[2 * j]]
    {
      assert SaysSo(ranges, j, k, m, r);
    }
  }

  lemma GrowExtracted(keys: seq<int>, i: nat, ranges: seq<int>, lengths: seq<nat>, longer: seq<nat>, m: Letters, r: Reverse)
    requires i < |keys| && Extracted(ranges, lengths, m, r) && lengths != []
    requires longer == lengths[|lengths| - 1 := lengths[|lengths| - 1] + 1]
    requires ranges[2 * (|lengths| - 1)] + lengths[|lengths| - 1] == keys[i] && Joins(keys[i], m, r)
    ensures Extracted(ranges, longer, m, r)
  {
    JoinsMeans(keys[i], m, r);
    var n, k := |lengths| - 1, keys[i];
    RangesApart(ranges, lengths, m, r);
    hide Joins, Eligible, Extracted;
    forall j, l | 0 <= j < |longer| && InRange(ranges, longer, j, l) ensures SaysSo(ranges, j, l, m, r) {
      if l != k || j < n {
        ExtractedAt(ranges, lengths, m, r, j, l);
      } else {
        ExtractedAt(ranges, lengths, m, r, n, k - 1);
      }
    }
    ExtractedWhole(ranges, longer, m, r);
  }

  lemma RangesApart(ranges: seq<int>, lengths: seq<nat>, m: Letters, r: Reverse)
    requires Extracted(ranges, lengths, m, r)
    ensures |ranges| == 2 * |lengths| && forall j :: 0 <= j < |lengths| ==> lengths[j] >= 2
    ensures forall j, l :: 0 <= j < l < |lengths| ==> ranges[2 * j] + lengths[j] <= ranges[2 * l]
  {
    hide Eligible, InRange;
  }

  lemma GrowStep(keys: seq<int>, i: nat, ranges: seq<int>, lengths: seq<nat>, m: Letters, r: Reverse)
    requires i < |keys| && Lists(keys, m.Keys) && Extracted(ranges, lengths, m, r)
    requires Scanned(keys, i, ranges, lengths, true, m, r) && Joins(keys[i], m, r)
    ensures var longer := lengths[|lengths| - 1 := lengths[|lengths| - 1] + 1];
            Extracted(ranges, longer, m, r) && Scanned(keys, i + 1, ranges, longer, true, m, r)
  {
    RangesApart(ranges, lengths, m, r);
    LastOf(keys, i, ranges, lengths, true, m, r);
    JoinsMeans(keys[i], m, r);
    Neighbour(keys, m.Keys, i);
    hide Joins, Lists, Extracted, Scanned, Eligible;
    var n := |lengths| - 1;
    var longer := lengths[n := lengths[n] + 1];
    GrowExtracted(keys, i, ranges, lengths, longer, m, r);
    GrowScanned(keys, i, ranges, lengths, longer, m, r);
  }

  lemma LastOf(keys: seq<int>, i: nat, ranges: seq<int>, lengths: seq<nat>, inRange: bool, m: Letters, r: Reverse)
    requires i <= |keys| && |ranges| == 2 * |lengths| && Scanned(keys, i, ranges, lengths, inRange, m, r)
    ensures inRange ==> lengths != []
    ensures lengths != [] ==>
              i > 0 && ranges[2 * (|lengths| - 1)] + lengths[|lengths| - 1] <= keys[i - 1] + (if inRange then 1 else 0)
    ensures inRange ==> ranges[2 * (|lengths| - 1)] + lengths[|lengths| - 1] == keys[i - 1] + 1
  {
    hide InRanges, Joins;
  }

  lemma GrowScanned(keys: seq<int>, i: nat, ranges: seq<int>, lengths: seq<nat>, longer: seq<nat>, m: Letters, r: Reverse)
    requires 0 < i < |keys| && |ranges| == 2 * |lengths| && lengths != [] && lengths[|lengths| - 1] >= 2
    requires longer == lengths[|lengths| - 1 := lengths[|lengths| - 1] + 1]
    requires Scanned(keys, i, ranges, lengths, true, m, r) && keys[i - 1] == keys[i] - 1
    ensures Scanned(keys, i + 1, ranges, longer, true, m, r)
  {
    var n := |lengths| - 1;
    RangeGrows(ranges, lengths, longer);
    assert InRanges(ranges, lengths, keys[i] - 1) by {
      assert InRange(ranges, lengths, n, keys[i] - 1);
    }
    hide InRanges, Joins;
  }

  lemma StartExtracted(keys: seq<int>, i: nat, ranges: seq<int>, lengths: seq<nat>, more: seq<int>, longer: seq<nat>, m: Letters, r: Reverse)
    requires i < |keys| && Extracted(ranges, lengths, m, r) && Joins(keys[i], m, r) && keys[i] - 1 in m && |m[keys[i] - 1]| == 1
    requires lengths != [] ==> 2 * (|lengths| - 1) < |ranges| && ranges[2 * (|lengths| - 1)] + lengths[|lengths| - 1] <= keys[i] - 1
    requires more == ranges + [keys[i] - 1, m[keys[i] - 1][0]] && longer == lengths + [2]
    ensures Extracted(more, longer, m, r)
  {
    JoinsMeans(keys[i], m, r);
    RangesApart(ranges, lengths, m, r);
    hide Joins, Eligible, Extracted;
    var k := keys[i];
    forall j, l | 0 <= j < |longer| && InRange(more, longer, j, l) ensures SaysSo(more, j, l, m, r) {
      if j < |lengths| { ExtractedAt(ranges, lengths, m, r, j, l); }
    }
    RangesInOrder(ranges, lengths, more, longer, k - 1);
    ExtractedWhole(more, longer, m, r);
  }

  lemma RangesInOrder(ranges: seq<int>, lengths: seq<nat>, more: seq<int>, longer: seq<nat>, start: int)
    requires |ranges| == 2 * |lengths| && |more| == |ranges| + 2 && more[..|ranges|] == ranges && more[|ranges|] == start
    requires longer == lengths + [2] && forall j :: 0 <= j < |lengths| ==> lengths[j] >= 2
    requires forall j, l :: 0 <= j < l < |lengths| ==> ranges[2 * j] + lengths[j] <= ranges[2 * l]
    requires lengths != [] ==> ranges[2 * (|lengths| - 1)] + lengths[|lengths| - 1] <= start
    ensures forall j, l :: 0 <= j < l < |longer| ==> more[2 * j] + longer[j] <= more[2 * l]
  {
    var n := |lengths|;
    forall j, l | 0 <= j < l < |longer| ensures more[2 * j] + longer[j] <= more[2 * l] {
      assert more[2 * j] == ranges[2 * j];
      if l < n {
        assert more[2 * l] == ranges[2 * l];
      } else if j < n - 1 {
        assert ranges[2 * j] + lengths[j] <= ranges[2 * (n - 1)];
      }
    }
  }

  lemma StartStep(keys: seq<int>, i: nat, ranges: seq<int>, lengths: seq<nat>, m: Letters, r: Reverse)
    requires i < |keys| && Lists(keys, m.Keys) && Extracted(ranges, lengths, m, r)
    requires Scanned(keys, i, ranges, lengths, false, m, r) && Joins(keys[i], m, r)
    requires keys[i] - 1 in m && |m[keys[i] - 1]| == 1
    ensures var more, longer := ranges + [keys[i] - 1, m[keys[i] - 1][0]], lengths + [2];
            Extracted(more, longer, m, r) && Scanned(keys, i + 1, more, longer, true, m, r)
  {
    RangesApart(ranges, lengths, m, r);
    LastOf(keys, i, ranges, lengths, false, m, r);
    JoinsMeans(keys[i], m, r);
    Neighbour(keys, m.Keys, i);
    hide Joins, Eligible, Lists, Extracted, Scanned;
    var more, longer := ranges + [keys[i] - 1, m[keys[i] - 1][0]], lengths + [2];
    StartExtracted(keys, i, ranges, lengths, more, longer, m, r);
    StartScanned(keys, i, ranges, lengths, m[keys[i] - 1][0], m, r);
  }

  lemma StartScanned(keys: seq<int>, i: nat, ranges: seq<int>, lengths: seq<nat>, mapped: int, m: Letters, r: Reverse)
    requires 0 < i < |keys| && |ranges| == 2 * |lengths|
    requires Scanned(keys, i, ranges, lengths, false, m, r) && keys[i - 1] == keys[i] - 1
    ensures Scanned(keys, i + 1, ranges + [keys[i] - 1, mapped], lengths + [2], true, m, r)
  {
    RangeStarts(ranges, lengths, ranges + [keys[i] - 1, mapped], lengths + [2], keys[i] - 1, mapped);
    hide InRanges, Joins;
  }

  lemma SkipStep(keys: seq<int>, i: nat, ranges: seq<int>, lengths: seq<nat>, inRange: bool, m: Letters, r: Reverse)
    requires i < |keys| && Lists(keys, m.Keys) && |ranges| == 2 * |lengths|
    requires Scanned(keys, i, ranges, lengths, inRange, m, r) && !Joins(keys[i], m, r)
    ensures Scanned(keys, i + 1, ranges, lengths, false, m, r)
  {
    hide Joins, InRanges;
    assert i > 0 ==> keys[i - 1] < keys[i];
  }

  lemma AllScanned(keys: seq<int>, ranges: seq<int>, lengths: seq<nat>, inRange: bool, m: Letters, r: Reverse, k: int)
    requires Lists(keys, m.Keys) && |ranges| == 2 * |lengths| && Scanned(keys, |keys|, ranges, lengths, inRange, m, r)
    requires Joins(k, m, r)
    ensures InRanges(ranges, lengths, k) && InRanges(ranges, lengths, k - 1)
  {
    JoinsMeans(k, m, r);
    hide Joins, InRanges;
    assert k in m.Keys;
    var t :| 0 <= t < |keys| && keys[t] == k;
  }

  // The scan of extract_ranges.
  method ScanRanges(m: Letters, r: Reverse) returns (ranges: seq<int>, lengths: seq<nat>)
    requires OneToThree(m)
    ensures Extracted(ranges, lengths, m, r)
    ensures forall k :: Joins(k, m, r) ==> InRanges(ranges, lengths, k) && InRanges(ranges, lengths, k - 1)
  {
    hide Scanned, Extracted, InRanges, Lists, IsBidirectional;
    var keys := Sorted(m.Keys);
    ranges, lengths := [], [];
    var inRange, position, i := false, -1, 0;
    NothingScanned(keys, m, r);
    while i < |keys|
      invariant 0 <= i <= |keys| && position == |lengths| - 1 && |ranges| == 2 * |lengths| && (inRange ==> position >= 0)
      invariant Extracted(ranges, lengths, m, r) && Scanned(keys, i, ranges, lengths, inRange, m, r)
    {
      var letter := keys[i];
      ListedIn(keys, m, i);
      if !Joins(letter, m, r) { SkipStep(keys, i, ranges, lengths, inRange, m, r); }
      i := i + 1;
      if r.OneWay? {
        if |m[letter]| > 1 {
          inRange := false;
          continue;
        }
        if letter - 1 !in m || |m[letter - 1]| > 1 {
          inRange := false;
          continue;
        }
      } else {
        if !IsBidirectional(letter, m, r.upper) {
          inRange := false;
          continue;
        }
        if !IsBidirectional(letter - 1, m, r.upper) {
          inRange := false;
          continue;
        }
      }
      if ConversionDistance(m, letter) != ConversionDistance(m, letter - 1) {
        inRange := false;
        continue;
      }
      JoinsMeans(letter, m, r);
      if inRange {
        GrowStep(keys, i - 1, ranges, lengths, m, r);
        lengths := lengths[position := lengths[position] + 1];
      } else {
        StartStep(keys, i - 1, ranges, lengths, m, r);
        inRange := true;
        position := position + 1;
        ranges := ranges + [letter - 1, m[letter - 1][0]];
        lengths := lengths + [2];
      }
    }
    forall k | Joins(k, m, r) ensures InRanges(ranges, lengths, k) && InRanges(ranges, lengths, k - 1) {
      AllScanned(keys, ranges, lengths, inRange, m, r, k);
    }
  }

  lemma NothingScanned(keys: seq<int>, m: Letters, r: Reverse)
    ensures Extracted([], [], m, r) && Scanned(keys, 0, [], [], false, m, r)
  {}

  lemma ListedIn(keys: seq<int>, m: Letters, i: nat)
    requires Lists(keys, m.Keys) && i < |keys|
    ensures keys[i] in m
  {
    assert keys[i] in keys;
  }

  // ---- removing what was extracted

  // u is a mapped value of range j.
  predicate InMapped(ranges: seq<int>, lengths: seq<nat>, j: nat, u: int)
    requires |ranges| == 2 * |lengths| && j < |lengths|
  {
    ranges[2 * j + 1] <= u < ranges[2 * j + 1] + lengths[j]
  }

  // Removed when j ranges and t elements of the next one are removed.
  ghost predicate Removed(ranges: seq<int>, lengths: seq<nat>, j: nat, t: nat, k: int)
    requires |ranges| == 2 * |lengths| && j <= |lengths|
  {
    || (exists i :: 0 <= i < j && InRange(ranges, lengths, i, k))
    || (j < |lengths| && ranges[2 * j] <= k < ranges[2 * j] + t)
  }

  ghost predicate RemovedMapped(ranges: seq<int>, lengths: seq<nat>, j: nat, t: nat, u: int)
    requires |ranges| == 2 * |lengths| && j <= |lengths|
  {
    || (exists i :: 0 <= i < j && InMapped(ranges, lengths, i, u))
    || (j < |lengths| && ranges[2 * j + 1] <= u < ranges[2 * j + 1] + t)
  }

  // now is was without the keys that are gone.
  ghost predicate Without(now: Letters, was: Letters, gone: int -> bool) {
    forall k :: (k in now <==> k in was && !gone(k)) && (k in now ==> now[k] == was[k])
  }

  lemma StillThere(ranges: seq<int>, lengths: seq<nat>, j: nat, t: nat, m: Letters, r: Reverse)
    requires Extracted(ranges, lengths, m, r) && j < |lengths| && t < lengths[j]
    ensures ranges[2 * j] + t in m && !Removed(ranges, lengths, j, t, ranges[2 * j] + t)
    ensures m[ranges[2 * j] + t] == [ranges[2 * j + 1] + t]
    ensures r.TwoWay? ==>
              var u := ranges[2 * j + 1] + t;
              u in r.upper && r.upper[u] == [ranges[2 * j] + t] && !RemovedMapped(ranges, lengths, j, t, u)
  {
    var k, u := ranges[2 * j] + t, ranges[2 * j + 1] + t;
    assert InRange(ranges, lengths, j, k);
    if r.TwoWay? && RemovedMapped(ranges, lengths, j, t, u) {
      var i :| 0 <= i <= j && InMapped(ranges, lengths, i, u) && (i < j || u < ranges[2 * j + 1] + t);
      assert InRange(ranges, lengths, i, ranges[2 * i] + u - ranges[2 * i + 1]);
      assert false;
    }
  }

  lemma RemovedNext(ranges: seq<int>, lengths: seq<nat>, j: nat, t: nat, k: int)
    requires |ranges| == 2 * |lengths| && j < |lengths|
    ensures Removed(ranges, lengths, j, t + 1, k) <==> Removed(ranges, lengths, j, t, k) || k == ranges[2 * j] + t
    ensures RemovedMapped(ranges, lengths, j, t + 1, k) <==> RemovedMapped(ranges, lengths, j, t, k) || k == ranges[2 * j + 1] + t
    ensures t == lengths[j] ==> (Removed(ranges, lengths, j, t, k) <==> Removed(ranges, lengths, j + 1, 0, k))
    ensures t == lengths[j] ==> (RemovedMapped(ranges, lengths, j, t, k) <==> RemovedMapped(ranges, lengths, j + 1, 0, k))
  {
    if t == lengths[j] {
      assert Removed(ranges, lengths, j, t, k) ==> Removed(ranges, lengths, j + 1, 0, k) by {
        if ranges[2 * j] <= k < ranges[2 * j] + t { assert InRange(ranges, lengths, j, k); }
      }
      assert RemovedMapped(ranges, lengths, j, t, k) ==> RemovedMapped(ranges, lengths, j + 1, 0, k) by {
        if ranges[2 * j + 1] <= k < ranges[2 * j + 1] + t { assert InMapped(ranges, lengths, j, k); }
      }
    }
  }

  ghost function GoneKeys(ranges: seq<int>, lengths: seq<nat>, j: nat, t: nat): int -> bool
    requires |ranges| == 2 * |lengths| && j <= |lengths|
  {
    (k: int) => Removed(ranges, lengths, j, t, k)
  }

  ghost function GoneMapped(ranges: seq<int>, lengths: seq<nat>, j: nat, t: nat): int -> bool
    requires |ranges| == 2 * |lengths| && j <= |lengths|
  {
    (u: int) => RemovedMapped(ranges, lengths, j, t, u)
  }

  lemma NothingRemoved(ranges: seq<int>, lengths: seq<nat>)
    requires |ranges| == 2 * |lengths|
    ensures forall m: Letters :: Without(m, m, GoneKeys(ranges, lengths, 0, 0)) && Without(m, m, GoneMapped(ranges, lengths, 0, 0))
  {}

  lemma KeyRemoved(now: Letters, was: Letters, ranges: seq<int>, lengths: seq<nat>, j: nat, t: nat)
    requires |ranges| == 2 * |lengths| && j < |lengths| && Without(now, was, GoneKeys(ranges, lengths, j, t))
    ensures Without(now - {ranges[2 * j] + t}, was, GoneKeys(ranges, lengths, j, t + 1))
  {
    hide Removed;
    forall k ensures GoneKeys(ranges, lengths, j, t + 1)(k) <==> GoneKeys(ranges, lengths, j, t)(k) || k == ranges[2 * j] + t {
      RemovedNext(ranges, lengths, j, t, k);
    }
  }

  lemma MappedRemoved(now: Letters, was: Letters, ranges: seq<int>, lengths: seq<nat>, j: nat, t: nat)
    requires |ranges| == 2 * |lengths| && j < |lengths| && Without(now, was, GoneMapped(ranges, lengths, j, t))
    ensures Without(now - {ranges[2 * j + 1] + t}, was, GoneMapped(ranges, lengths, j, t + 1))
  {
    hide RemovedMapped;
    forall k
      ensures GoneMapped(ranges, lengths, j, t + 1)(k) <==> GoneMapped(ranges, lengths, j, t)(k) || k == ranges[2 * j + 1] + t
    {
      RemovedNext(ranges, lengths, j, t, k);
    }
  }

  lemma KeyPresent(now: Letters, was: Letters, ranges: seq<int>, lengths: seq<nat>, j: nat, t: nat)
    requires |ranges| == 2 * |lengths| && j < |lengths| && Without(now, was, GoneKeys(ranges, lengths, j, t))
    requires ranges[2 * j] + t in was && !Removed(ranges, lengths, j, t, ranges[2 * j] + t)
    ensures ranges[2 * j] + t in now
  {
    hide Removed;
    assert !GoneKeys(ranges, lengths, j, t)(ranges[2 * j] + t);
  }

  lemma MappedPresent(now: Letters, was: Letters, ranges: seq<int>, lengths: seq<nat>, j: nat, t: nat)
    requires |ranges| == 2 * |lengths| && j < |lengths| && Without(now, was, GoneMapped(ranges, lengths, j, t))
    requires ranges[2 * j + 1] + t in was && !RemovedMapped(ranges, lengths, j, t, ranges[2 * j + 1] + t)
    ensures ranges[2 * j + 1] + t in now
  {
    hide RemovedMapped;
    assert !GoneMapped(ranges, lengths, j, t)(ranges[2 * j + 1] + t);
  }

  lemma RangeRemoved(ranges: seq<int>, lengths: seq<nat>, j: nat)
    requires |ranges| == 2 * |lengths| && j < |lengths|
    ensures forall k :: GoneKeys(ranges, lengths, j, lengths[j])(k) <==> GoneKeys(ranges, lengths, j + 1, 0)(k)
    ensures forall k :: GoneMapped(ranges, lengths, j, lengths[j])(k) <==> GoneMapped(ranges, lengths, j + 1, 0)(k)
  {
    hide Removed, RemovedMapped;
    forall k ensures GoneKeys(ranges, lengths, j, lengths[j])(k) <==> GoneKeys(ranges, lengths, j + 1, 0)(k) {
      RemovedNext(ranges, lengths, j, lengths[j], k);
    }
    forall k ensures GoneMapped(ranges, lengths, j, lengths[j])(k) <==> GoneMapped(ranges, lengths, j + 1, 0)(k) {
      RemovedNext(ranges, lengths, j, lengths[j], k);
    }
  }

  ghost function ReverseOf(reverse: CaseTable?): Reverse
    reads reverse
  {
    if reverse == null then OneWay else TwoWay(reverse.letters)
  }

  // extract_ranges: the ranges say what the table said; exactly their keys leave the table
  // and exactly their mapped values leave the other; no two neighbours that go together stay.
  method ExtractRanges(letterCase: CaseTable, reverse: CaseTable?) returns (ranges: seq<int>, lengths: seq<nat>)
    requires letterCase != reverse && OneToThree(letterCase.letters)
    modifies letterCase, reverse
    ensures Extracted(ranges, lengths, old(letterCase.letters), old(ReverseOf(reverse)))
    ensures Without(letterCase.letters, old(letterCase.letters), GoneKeys(ranges, lengths, |lengths|, 0))
    ensures reverse != null ==> Without(reverse.letters, old(reverse.letters), GoneMapped(ranges, lengths, |lengths|, 0))
    ensures forall k :: Joins(k, old(letterCase.letters), old(ReverseOf(reverse))) ==>
                          InRanges(ranges, lengths, k) && InRanges(ranges, lengths, k - 1)
  {
    hide Extracted, Removed, RemovedMapped, Joins, InRanges, OneToThree, Without, GoneKeys, GoneMapped;
    ghost var m, r := letterCase.letters, ReverseOf(reverse);
    var table := if reverse == null then OneWay else TwoWay(reverse.letters);
    ranges, lengths := ScanRanges(letterCase.letters, table);
    ShapeOf(ranges, lengths, m, r);
    NothingRemoved(ranges, lengths);
    var idx := 0;
    while idx < |ranges|
      invariant idx % 2 == 0 && 0 <= idx <= |ranges|
      invariant Without(letterCase.letters, m, GoneKeys(ranges, lengths, idx / 2, 0))
      invariant reverse != null ==> Without(reverse.letters, r.upper, GoneMapped(ranges, lengths, idx / 2, 0))
    {
      ghost var j := idx / 2;
      var rangeLength, incr := lengths[idx / 2], 0;
      while incr < rangeLength
        invariant 0 <= incr <= rangeLength
        invariant Without(letterCase.letters, m, GoneKeys(ranges, lengths, j, incr))
        invariant reverse != null ==> Without(reverse.letters, r.upper, GoneMapped(ranges, lengths, j, incr))
      {
        StillThere(ranges, lengths, j, incr, m, r);
        KeyPresent(letterCase.letters, m, ranges, lengths, j, incr);
        KeyRemoved(letterCase.letters, m, ranges, lengths, j, incr);
        if reverse != null {
          MappedPresent(reverse.letters, r.upper, ranges, lengths, j, incr);
          MappedRemoved(reverse.letters, r.upper, ranges, lengths, j, incr);
        }
        letterCase.Delete(ranges[idx] + incr);
        if reverse != null {
          reverse.Delete(ranges[idx + 1] + incr);
        }
        incr := incr + 1;
      }
      RangeRemoved(ranges, lengths, j);
      WithoutSame(letterCase.letters, m, GoneKeys(ranges, lengths, j, rangeLength), GoneKeys(ranges, lengths, j + 1, 0));
      if reverse != null {
        WithoutSame(reverse.letters, r.upper, GoneMapped(ranges, lengths, j, rangeLength), GoneMapped(ranges, lengths, j + 1, 0));
      }
      assert (idx + 2) / 2 == j + 1;
      idx := idx + 2;
    }
  }

  lemma ShapeOf(ranges: seq<int>, lengths: seq<nat>, m: Letters, r: Reverse)
    requires Extracted(ranges, lengths, m, r)
    ensures |ranges| == 2 * |lengths|
  {}

  // ---- ranges of pairs: k and k + 1 are each other's case, for every second k of a range

  predicate InPairRange(starts: seq<int>, lengths: seq<nat>, j: nat, k: int)
    requires |starts| == |lengths| && j < |lengths|
  {
    starts[j] <= k < starts[j] + lengths[j] && (k - starts[j]) % 2 == 0
  }

  predicate InPairRanges(starts: seq<int>, lengths: seq<nat>, k: int)
    requires |starts| == |lengths|
  {
    exists j :: 0 <= j < |lengths| && InPairRange(starts, lengths, j, k)
  }

  predicate IsPair(k: int, lower: Letters, upper: Letters) {
    IsBidirectional(k, lower, upper) && lower[k] == [k + 1]
  }

  // The pair k + 1 comes after the pair k, but the scan looks at k - 1, and takes it for a
  // continuation of the range of k.
  predicate Clash(k: int, lower: Letters, upper: Letters) {
    IsPair(k, lower, upper) && IsPair(k + 1, lower, upper) && IsBidirectional(k - 1, lower, upper)
  }

  ghost predicate NoClash(lower: Letters, upper: Letters) {
    forall k :: !Clash(k, lower, upper)
  }

  // No code point is the upper case of one pair and the lower case of the next.
  ghost predicate PairsApart(lower: Letters, upper: Letters) {
    forall k :: !(IsPair(k, lower, upper) && IsPair(k + 1, lower, upper))
  }

  ghost predicate PairsExtracted(starts: seq<int>, lengths: seq<nat>, lower: Letters, upper: Letters) {
    && |starts| == |lengths|
    && (forall j :: 0 <= j < |lengths| ==> lengths[j] >= 2 && lengths[j] % 2 == 0)
    && (forall j, k :: 0 <= j < |lengths| && InPairRange(starts, lengths, j, k) ==> IsPair(k, lower, upper))
    && (forall j, l :: 0 <= j < l < |lengths| ==> starts[j] + lengths[j] <= starts[l] + 1)
  }

  ghost predicate PairsScanned(keys: seq<int>, i: nat, starts: seq<int>, lengths: seq<nat>, inRange: bool, lower: Letters, upper: Letters)
    requires i <= |keys| && |starts| == |lengths|
  {
    var n := |lengths| - 1;
    && (inRange ==> n >= 0)
    && (n >= 0 ==> i > 0 && starts[n] + lengths[n] <= keys[i - 1] + 2 && IsPair(starts[n] + lengths[n] - 2, lower, upper))
    && (inRange ==> starts[n] + lengths[n] == keys[i - 1] + 2)
    && (forall t :: 0 <= t < i && IsPair(keys[t], lower, upper) ==> InPairRanges(starts, lengths, keys[t]))
  }

  lemma PairGrowsAt(starts: seq<int>, lengths: seq<nat>, longer: seq<nat>, k: int)
    requires |starts| == |lengths| && lengths != [] && lengths[|lengths| - 1] % 2 == 0
    requires longer == lengths[|lengths| - 1 := lengths[|lengths| - 1] + 2]
    ensures InPairRanges(starts, longer, k)
            <==> InPairRanges(starts, lengths, k) || k == starts[|lengths| - 1] + lengths[|lengths| - 1]
  {
    var n := |lengths| - 1;
    if InPairRanges(starts, lengths, k) {
      var j :| 0 <= j <= n && InPairRange(starts, lengths, j, k);
      assert InPairRange(starts, longer, j, k);
    }
    if k == starts[n] + lengths[n] {
      assert InPairRange(starts, longer, n, k);
    }
    if InPairRanges(starts, longer, k) {
      var j :| 0 <= j <= n && InPairRange(starts, longer, j, k);
      assert k == starts[n] + lengths[n] || InPairRange(starts, lengths, j, k);
    }
  }

  lemma PairGrows(starts: seq<int>, lengths: seq<nat>, longer: seq<nat>)
    requires |starts| == |lengths| && lengths != [] && lengths[|lengths| - 1] % 2 == 0
    requires longer == lengths[|lengths| - 1 := lengths[|lengths| - 1] + 2]
    ensures forall k :: InPairRanges(starts, longer, k)
                        <==> InPairRanges(starts, lengths, k) || k == starts[|lengths| - 1] + lengths[|lengths| - 1]
    ensures forall j, k :: 0 <= j < |lengths| && InPairRange(starts, longer, j, k) ==>
              InPairRange(starts, lengths, j, k) || k == starts[|lengths| - 1] + lengths[|lengths| - 1]
  {
    hide InPairRanges;
    forall k
      ensures InPairRanges(starts, longer, k)
              <==> InPairRanges(starts, lengths, k) || k == starts[|lengths| - 1] + lengths[|lengths| - 1]
    {
      PairGrowsAt(starts, lengths, longer, k);
    }
  }

  lemma PairStartsAt(starts: seq<int>, lengths: seq<nat>, k0: int, k: int)
    requires |starts| == |lengths|
    ensures InPairRanges(starts + [k0], lengths + [2], k) <==> InPairRanges(starts, lengths, k) || k == k0
  {
    var more, longer, n := starts + [k0], lengths + [2], |lengths|;
    if InPairRanges(starts, lengths, k) {
      var j :| 0 <= j < n && InPairRange(starts, lengths, j, k);
      assert InPairRange(more, longer, j, k);
    }
    if k == k0 {
      assert InPairRange(more, longer, n, k);
    }
    if InPairRanges(more, longer, k) {
      var j :| 0 <= j <= n && InPairRange(more, longer, j, k);
      assert j == n || InPairRange(starts, lengths, j, k);
    }
  }

  lemma PairStarts(starts: seq<int>, lengths: seq<nat>, k0: int)
    requires |starts| == |lengths|
    ensures forall k :: InPairRanges(starts + [k0], lengths + [2], k) <==> InPairRanges(starts, lengths, k) || k == k0
    ensures forall j, k :: 0 <= j < |lengths| ==>
              (InPairRange(starts + [k0], lengths + [2], j, k) <==> InPairRange(starts, lengths, j, k))
    ensures forall k :: InPairRange(starts + [k0], lengths + [2], |lengths|, k) <==> k == k0
  {
    hide InPairRanges;
    forall k ensures InPairRanges(starts + [k0], lengths + [2], k) <==> InPairRanges(starts, lengths, k) || k == k0 {
      PairStartsAt(starts, lengths, k0, k);
    }
  }

  // The key listed before a pair that continues a range is the pair before it.
  lemma PairBefore(keys: seq<int>, i: nat, lower: Letters, upper: Letters)
    requires 0 < i < |keys| && Lists(keys, lower.Keys) && NoClash(lower, upper)
    requires IsPair(keys[i - 1], lower, upper) && IsPair(keys[i], lower, upper)
    requires keys[i] - 2 in lower && IsBidirectional(keys[i] - 2, lower, upper)
    ensures keys[i - 1] == keys[i] - 2
  {
    hide IsPair, IsBidirectional;
    var p, k := keys[i - 1], keys[i];
    assert p < k;
    assert !Clash(k - 1, lower, upper);
    assert k - 2 in lower.Keys;
    var t :| 0 <= t < |keys| && keys[t] == k - 2;
    assert t < i;
    assert keys[t] <= keys[i - 1];
  }

  lemma PairGrowStep(keys: seq<int>, i: nat, starts: seq<int>, lengths: seq<nat>, lower: Letters, upper: Letters)
    requires i < |keys| && Lists(keys, lower.Keys) && NoClash(lower, upper) && PairsExtracted(starts, lengths, lower, upper)
    requires PairsScanned(keys, i, starts, lengths, true, lower, upper)
    requires IsPair(keys[i], lower, upper) && keys[i] - 2 in lower && IsBidirectional(keys[i] - 2, lower, upper)
    ensures var longer := lengths[|lengths| - 1 := lengths[|lengths| - 1] + 2];
            PairsExtracted(starts, longer, lower, upper) && PairsScanned(keys, i + 1, starts, longer, true, lower, upper)
  {
    hide IsPair, IsBidirectional, Lists, NoClash, InPairRanges;
    PairBefore(keys, i, lower, upper);
    PairGrows(starts, lengths, lengths[|lengths| - 1 := lengths[|lengths| - 1] + 2]);
  }

  lemma PairStartStep(keys: seq<int>, i: nat, starts: seq<int>, lengths: seq<nat>, inRange: bool, lower: Letters, upper: Letters)
    requires i < |keys| && Lists(keys, lower.Keys) && PairsExtracted(starts, lengths, lower, upper)
    requires PairsScanned(keys, i, starts, lengths, inRange, lower, upper) && IsPair(keys[i], lower, upper)
    ensures PairsExtracted(starts + [keys[i]], lengths + [2], lower, upper)
    ensures PairsScanned(keys, i + 1, starts + [keys[i]], lengths + [2], true, lower, upper)
  {
    if lengths != [] {
      KeyBefore(keys, i);
    }
    hide IsPair, Lists, InPairRanges;
    PairStarts(starts, lengths, keys[i]);
    PairsInOrder(starts, lengths, keys[i]);
  }

  lemma KeyBefore(keys: seq<int>, i: nat)
    requires 0 < i < |keys| && Ascending(keys)
    ensures keys[i - 1] < keys[i]
  {}

  lemma PairsInOrder(starts: seq<int>, lengths: seq<nat>, k: int)
    requires |starts| == |lengths| && forall j :: 0 <= j < |lengths| ==> lengths[j] >= 2
    requires forall j, l :: 0 <= j < l < |lengths| ==> starts[j] + lengths[j] <= starts[l] + 1
    requires lengths != [] ==> starts[|lengths| - 1] + lengths[|lengths| - 1] <= k + 1
    ensures forall j, l :: 0 <= j < l <= |lengths| ==> (starts + [k])[j] + (lengths + [2])[j] <= (starts + [k])[l] + 1
  {
    forall j, l | 0 <= j < l <= |lengths| ensures (starts + [k])[j] + (lengths + [2])[j] <= (starts + [k])[l] + 1 {
      if l == |lengths| && j < |lengths| - 1 {
        assert starts[j] + lengths[j] <= starts[|lengths| - 1] + 1;
      }
    }
  }

  lemma PairSkipStep(keys: seq<int>, i: nat, starts: seq<int>, lengths: seq<nat>, inRange: bool, lower: Letters, upper: Letters)
    requires i < |keys| && Lists(keys, lower.Keys) && |starts| == |lengths|
    requires PairsScanned(keys, i, starts, lengths, inRange, lower, upper) && !IsPair(keys[i], lower, upper)
    ensures PairsScanned(keys, i + 1, starts, lengths, false, lower, upper)
  {
    if i > 0 { KeyBefore(keys, i); }
    hide IsPair, InPairRanges;
  }

  // ---- the code points of the ranges, one after the other

  // Of the range that starts at start: the first len / 2.
  function RangeElements(start: int, len: nat): seq<int> {
    if len < 2 then [] else RangeElements(start, len - 2) + [start + len - 2]
  }

  // Of the first n ranges.
  function Elements(starts: seq<int>, lengths: seq<nat>, n: nat): seq<int>
    requires |starts| == |lengths| && n <= |lengths|
  {
    if n == 0 then [] else Elements(starts, lengths, n - 1) + RangeElements(starts[n - 1], lengths[n - 1])
  }

  // With n keys scanned: the elements stand for the pairs, but may lie beyond them.
  ghost predicate Ahead(starts: seq<int>, lengths: seq<nat>, pairs: seq<int>, inRange: bool, key: int)
    requires |starts| == |lengths|
  {
    var e := Elements(starts, lengths, |lengths|);
    && (forall j :: 0 <= j < |lengths| ==> lengths[j] >= 2 && lengths[j] % 2 == 0)
    && |e| == |pairs| && (forall t :: 0 <= t < |e| ==> e[t] >= pairs[t])
    && (e != [] ==> lengths != [] && e[|e| - 1] == starts[|lengths| - 1] + lengths[|lengths| - 1] - 2)
    && (lengths != [] ==> e != [])
    && (inRange ==> pairs != [] && pairs[|pairs| - 1] == key)
  }

  lemma {:induction false} ElementsSame(starts: seq<int>, lengths: seq<nat>, more: seq<int>, longer: seq<nat>, n: nat)
    requires |starts| == |lengths| && |more| == |longer| && n <= |lengths| && n <= |longer|
    requires starts[..n] == more[..n] && lengths[..n] == longer[..n]
    ensures Elements(starts, lengths, n) == Elements(more, longer, n)
  {
    if n > 0 {
      assert starts[n - 1] == starts[..n][n - 1] == more[n - 1];
      assert lengths[n - 1] == lengths[..n][n - 1] == longer[n - 1];
      assert starts[..n - 1] == starts[..n][..n - 1] && more[..n - 1] == more[..n][..n - 1];
      assert lengths[..n - 1] == lengths[..n][..n - 1] && longer[..n - 1] == longer[..n][..n - 1];
      ElementsSame(starts, lengths, more, longer, n - 1);
    }
  }

  lemma ElementsStep(starts: seq<int>, lengths: seq<nat>, n: nat)
    requires |starts| == |lengths| && 0 < n <= |lengths|
    ensures Elements(starts, lengths, n) == Elements(starts, lengths, n - 1) + RangeElements(starts[n - 1], lengths[n - 1])
  {}

  lemma RangeStep(start: int, len: nat)
    ensures RangeElements(start, len + 2) == RangeElements(start, len) + [start + len]
  {}

  lemma ElementsGrow(starts: seq<int>, lengths: seq<nat>, longer: seq<nat>)
    requires |starts| == |lengths| && lengths != [] && longer == lengths[|lengths| - 1 := lengths[|lengths| - 1] + 2]
    ensures var n := |lengths| - 1;
            Elements(starts, longer, n + 1) == Elements(starts, lengths, n + 1) + [starts[n] + lengths[n]]
  {
    hide Elements, RangeElements;
    var n := |lengths| - 1;
    ElementsSame(starts, lengths, starts, longer, n);
    ElementsStep(starts, lengths, n + 1);
    ElementsStep(starts, longer, n + 1);
    RangeStep(starts[n], lengths[n]);
    var a, b, c := Elements(starts, lengths, n), RangeElements(starts[n], lengths[n]), [starts[n] + lengths[n]];
    assert a + (b + c) == (a + b) + c;
  }

  lemma AheadGrows(starts: seq<int>, lengths: seq<nat>, longer: seq<nat>, pairs: seq<int>, key: int, k: int)
    requires |starts| == |lengths| && Ahead(starts, lengths, pairs, true, key) && (key == k - 1 || key == k - 2)
    requires lengths != [] && longer == lengths[|lengths| - 1 := lengths[|lengths| - 1] + 2]
    ensures Ahead(starts, longer, pairs + [k], true, k)
    ensures |Elements(starts, longer, |longer|)| == |pairs| + 1
    ensures key == k - 1 ==> Elements(starts, longer, |longer|)[|pairs|] > k
  {
    ElementsGrow(starts, lengths, longer);
    hide Elements;
    var e, n := Elements(starts, lengths, |lengths|), |lengths| - 1;
    var x := starts[n] + lengths[n];
    assert e[|e| - 1] >= pairs[|e| - 1] == key;
    assert x == e[|e| - 1] + 2;
    var f, q := e + [x], pairs + [k];
    forall t | 0 <= t < |f| ensures f[t] >= q[t] {
      if t < |e| {
        assert e[t] >= pairs[t];
      }
    }
  }

  lemma ElementsStart(starts: seq<int>, lengths: seq<nat>, k: int)
    requires |starts| == |lengths|
    ensures Elements(starts + [k], lengths + [2], |lengths| + 1) == Elements(starts, lengths, |lengths|) + [k]
  {
    ElementsSame(starts, lengths, starts + [k], lengths + [2], |lengths|);
    assert RangeElements(k, 2) == [k];
  }

  lemma AheadStarts(starts: seq<int>, lengths: seq<nat>, pairs: seq<int>, inRange: bool, key: int, k: int)
    requires |starts| == |lengths| && Ahead(starts, lengths, pairs, inRange, key)
    ensures Ahead(starts + [k], lengths + [2], pairs + [k], true, k)
    ensures Elements(starts, lengths, |lengths|) == pairs <==> Elements(starts + [k], lengths + [2], |lengths| + 1) == pairs + [k]
  {
    ElementsStart(starts, lengths, k);
    hide Elements;
    PrefixEqual(Elements(starts, lengths, |lengths|), k, pairs, k);
  }

  lemma PrefixEqual(a: seq<int>, x: int, b: seq<int>, y: int)
    requires |a| == |b|
    ensures a + [x] == b + [y] <==> a == b && x == y
  {
    var n := |a|;
    if a + [x] == b + [y] {
      assert a == (a + [x])[..n] && b == (b + [y])[..n];
      assert x == (a + [x])[n] && y == (b + [y])[n];
    }
  }

  // pairs are the pairs among the first i keys.
  ghost predicate PairsListed(keys: seq<int>, i: nat, pairs: seq<int>, lower: Letters, upper: Letters)
    requires i <= |keys|
  {
    && Ascending(pairs)
    && (forall t :: 0 <= t < |pairs| ==> pairs[t] in keys[..i] && IsPair(pairs[t], lower, upper))
    && (forall t :: 0 <= t < i && IsPair(keys[t], lower, upper) ==> keys[t] in pairs)
  }

  lemma PairListedNext(keys: seq<int>, i: nat, pairs: seq<int>, lower: Letters, upper: Letters)
    requires i < |keys| && Ascending(keys) && PairsListed(keys, i, pairs, lower, upper)
    ensures PairsListed(keys, i + 1, if IsPair(keys[i], lower, upper) then pairs + [keys[i]] else pairs, lower, upper)
  {
    hide IsPair;
    assert keys[..i + 1] == keys[..i] + [keys[i]];
    forall t | 0 <= t < |pairs| ensures pairs[t] < keys[i] {
      assert pairs[t] in keys[..i];
    }
  }

  function LastKey(keys: seq<int>, i: nat): int
    requires i <= |keys|
  {
    if i > 0 then keys[i - 1] else 0
  }

  // The first i keys are scanned; what lies ahead of its pair stays there.
  ghost predicate Scanning(keys: seq<int>, i: nat, starts: seq<int>, lengths: seq<nat>, pairs: seq<int>, inRange: bool,
                           lower: Letters, upper: Letters)
    requires i <= |keys| && |starts| == |lengths|
  {
    && Ahead(starts, lengths, pairs, inRange, LastKey(keys, i))
    && PairsListed(keys, i, pairs, lower, upper)
    && (inRange ==> i > 0) && (i > 0 && IsPair(keys[i - 1], lower, upper) ==> inRange)
    && (NoClash(lower, upper) ==> Elements(starts, lengths, |lengths|) == pairs)
    && (Elements(starts, lengths, |lengths|) == pairs ==> forall t :: 0 <= t < i ==> !Clash(keys[t] - 1, lower, upper))
  }

  lemma NothingYet(keys: seq<int>, lower: Letters, upper: Letters)
    ensures Scanning(keys, 0, [], [], [], false, lower, upper)
  {}

  lemma ScanSkips(keys: seq<int>, i: nat, starts: seq<int>, lengths: seq<nat>, pairs: seq<int>, inRange: bool,
                  lower: Letters, upper: Letters)
    requires i < |keys| && |starts| == |lengths| && Ascending(keys) && !IsPair(keys[i], lower, upper)
    requires Scanning(keys, i, starts, lengths, pairs, inRange, lower, upper)
    ensures Scanning(keys, i + 1, starts, lengths, pairs, false, lower, upper)
  {
    PairListedNext(keys, i, pairs, lower, upper);
    assert !Clash(keys[i] - 1, lower, upper);
    hide IsPair, Elements, PairsListed, Clash;
  }

  // A new range: then the key does not clash.
  lemma ScanStarts(keys: seq<int>, i: nat, starts: seq<int>, lengths: seq<nat>, pairs: seq<int>, inRange: bool,
                   lower: Letters, upper: Letters)
    requires i < |keys| && |starts| == |lengths| && Lists(keys, lower.Keys) && IsPair(keys[i], lower, upper)
    requires Scanning(keys, i, starts, lengths, pairs, inRange, lower, upper)
    requires !inRange || !IsBidirectional(keys[i] - 2, lower, upper)
    ensures Scanning(keys, i + 1, starts + [keys[i]], lengths + [2], pairs + [keys[i]], true, lower, upper)
  {
    hide IsPair, IsBidirectional, Elements, PairsListed, Clash, Ahead, Lists;
    ListsAscend(keys, lower.Keys);
    PairListedNext(keys, i, pairs, lower, upper);
    AheadStarts(starts, lengths, pairs, inRange, LastKey(keys, i), keys[i]);
    var more, longer, added := starts + [keys[i]], lengths + [2], pairs + [keys[i]];
    var f := Elements(more, longer, |longer|);
    NoClashHere(keys, i, inRange, lower, upper);
    assert |longer| == |lengths| + 1 && (NoClash(lower, upper) ==> f == added);
  }

  lemma NoClashHere(keys: seq<int>, i: nat, inRange: bool, lower: Letters, upper: Letters)
    requires i < |keys| && Lists(keys, lower.Keys) && (i > 0 && IsPair(keys[i - 1], lower, upper) ==> inRange)
    requires !inRange || !IsBidirectional(keys[i] - 2, lower, upper)
    ensures !Clash(keys[i] - 1, lower, upper)
  {
    if keys[i] - 1 in lower.Keys {
      Neighbour(keys, lower.Keys, i);
    }
  }

  // A longer range.
  lemma ScanGrows(keys: seq<int>, i: nat, starts: seq<int>, lengths: seq<nat>, longer: seq<nat>, pairs: seq<int>,
                  lower: Letters, upper: Letters)
    requires i < |keys| && |starts| == |lengths| && Lists(keys, lower.Keys) && IsPair(keys[i], lower, upper)
    requires Scanning(keys, i, starts, lengths, pairs, true, lower, upper) && IsBidirectional(keys[i] - 2, lower, upper)
    requires lengths != [] && longer == lengths[|lengths| - 1 := lengths[|lengths| - 1] + 2]
    ensures Scanning(keys, i + 1, starts, longer, pairs + [keys[i]], true, lower, upper)
  {
    var key, k, e, f := keys[i - 1], keys[i], Elements(starts, lengths, |lengths|), Elements(starts, longer, |longer|);
    TwoBefore(keys, i, lower);
    PairListedNext(keys, i, pairs, lower, upper);
    AheadGrows(starts, lengths, longer, pairs, key, k);
    ElementsGrow(starts, lengths, longer);
    PrefixEqual(e, starts[|lengths| - 1] + lengths[|lengths| - 1], pairs, k);
    ClashHere(keys, i, pairs, lower, upper);
    assert NoClash(lower, upper) ==> !Clash(k - 1, lower, upper);
    assert e == pairs ==> starts[|lengths| - 1] + lengths[|lengths| - 1] == key + 2;
    hide IsPair, IsBidirectional, Elements, PairsListed, Clash, Lists;
  }

  lemma ClashHere(keys: seq<int>, i: nat, pairs: seq<int>, lower: Letters, upper: Letters)
    requires 0 < i < |keys| && Lists(keys, lower.Keys) && PairsListed(keys, i, pairs, lower, upper)
    requires pairs != [] && pairs[|pairs| - 1] == keys[i - 1]
    requires IsPair(keys[i], lower, upper) && IsBidirectional(keys[i] - 2, lower, upper)
    ensures Clash(keys[i] - 1, lower, upper) <==> keys[i - 1] == keys[i] - 1
  {
    assert IsPair(keys[i - 1], lower, upper);
    if Clash(keys[i] - 1, lower, upper) {
      assert keys[i] - 1 in lower.Keys;
      Neighbour(keys, lower.Keys, i);
    }
  }

  lemma TwoBefore(keys: seq<int>, i: nat, lower: Letters)
    requires i < |keys| && Lists(keys, lower.Keys) && keys[i] - 2 in lower
    ensures i > 0 && (keys[i - 1] == keys[i] - 1 || keys[i - 1] == keys[i] - 2)
  {
    assert keys[i] - 2 in lower.Keys;
    var t :| 0 <= t < |keys| && keys[t] == keys[i] - 2;
    assert t < i;
    assert keys[t] <= keys[i - 1] < keys[i];
  }

  // What the scan gives for any tables: one code point for each pair, none before it, and each
  // the pair itself exactly when nothing clashes.
  ghost predicate PairsFound(starts: seq<int>, lengths: seq<nat>, pairs: seq<int>, lower: Letters, upper: Letters) {
    && |starts| == |lengths| && (forall j :: 0 <= j < |lengths| ==> lengths[j] >= 2 && lengths[j] % 2 == 0)
    && Ascending(pairs) && (forall k :: k in pairs <==> IsPair(k, lower, upper))
    && var e := Elements(starts, lengths, |lengths|);
       |e| == |pairs| && (forall t :: 0 <= t < |e| ==> e[t] >= pairs[t]) && (e == pairs <==> NoClash(lower, upper))
  }

  // The scan of extract_character_pair_ranges.
  method ScanPairRanges(lower: Letters, upper: Letters) returns (starts: seq<int>, lengths: seq<nat>, ghost pairs: seq<int>)
    requires OneToThree(lower)
    ensures PairsFound(starts, lengths, pairs, lower, upper)
    ensures NoClash(lower, upper) ==> PairsExtracted(starts, lengths, lower, upper)
    ensures NoClash(lower, upper) ==> forall k :: IsPair(k, lower, upper) ==> InPairRanges(starts, lengths, k)
  {
    hide PairsScanned, PairsExtracted, InPairRanges, Lists, NoClash, IsBidirectional, Scanning, PairsFound;
    var keys := Sorted(lower.Keys);
    starts, lengths, pairs := [], [], [];
    var inRange, counter, i := false, -1, 0;
    NoPairsScanned(keys, lower, upper);
    NothingYet(keys, lower, upper);
    ListsAscend(keys, lower.Keys);
    while i < |keys|
      invariant 0 <= i <= |keys| && counter == |lengths| - 1 && |starts| == |lengths| && (inRange ==> counter >= 0)
      invariant NoClash(lower, upper) ==>
                  && PairsExtracted(starts, lengths, lower, upper)
                  && PairsScanned(keys, i, starts, lengths, inRange, lower, upper)
      invariant Scanning(keys, i, starts, lengths, pairs, inRange, lower, upper)
    {
      var letter := keys[i];
      ListedIn(keys, lower, i);
      if !IsPair(letter, lower, upper) {
        if NoClash(lower, upper) { PairSkipStep(keys, i, starts, lengths, inRange, lower, upper); }
        ScanSkips(keys, i, starts, lengths, pairs, inRange, lower, upper);
      }
      i := i + 1;
      if !IsBidirectional(letter, lower, upper) {
        inRange := false;
        continue;
      }
      BidirectionalMeans(letter, lower, upper);
      if lower[letter][0] == letter + 1 {
        assert IsPair(letter, lower, upper);
        ghost var wasInRange := inRange;
        if !IsBidirectional(letter - 2, lower, upper) {
          inRange := false;
        }
        if inRange {
          BidirectionalMeans(letter - 2, lower, upper);
          if NoClash(lower, upper) { PairGrowStep(keys, i - 1, starts, lengths, lower, upper); }
          ghost var before := lengths;
          lengths := lengths[counter := lengths[counter] + 2];
          ScanGrows(keys, i - 1, starts, before, lengths, pairs, lower, upper);
        } else {
          if NoClash(lower, upper) { PairStartStep(keys, i - 1, starts, lengths, wasInRange, lower, upper); }
          ScanStarts(keys, i - 1, starts, lengths, pairs, wasInRange, lower, upper);
          counter := counter + 1;
          starts := starts + [letter];
          lengths := lengths + [2];
          inRange := true;
        }
        pairs := pairs + [letter];
      } else {
        inRange := false;
      }
    }
    AllScannedPairs(keys, starts, lengths, pairs, inRange, lower, upper);
    forall k | NoClash(lower, upper) && IsPair(k, lower, upper) ensures InPairRanges(starts, lengths, k) {
      BidirectionalMeans(k, lower, upper);
      AllPairsScanned(keys, starts, lengths, inRange, lower, upper, k);
    }
  }

  lemma AllScannedPairs(keys: seq<int>, starts: seq<int>, lengths: seq<nat>, pairs: seq<int>, inRange: bool, lower: Letters, upper: Letters)
    requires Lists(keys, lower.Keys) && |starts| == |lengths|
    requires Scanning(keys, |keys|, starts, lengths, pairs, inRange, lower, upper)
    ensures PairsFound(starts, lengths, pairs, lower, upper)
  {
    forall k ensures k in pairs <==> IsPair(k, lower, upper) {
      if IsPair(k, lower, upper) {
        assert k in lower.Keys;
        var t :| 0 <= t < |keys| && keys[t] == k;
      }
    }
    var e := Elements(starts, lengths, |lengths|);
    forall k ensures e == pairs ==> !Clash(k, lower, upper) {
      if k + 1 in lower.Keys {
        var t :| 0 <= t < |keys| && keys[t] == k + 1;
        assert e == pairs ==> !Clash(keys[t] - 1, lower, upper);
      }
    }
  }

  lemma BidirectionalMeans(k: int, lower: Letters, upper: Letters)
    requires IsBidirectional(k, lower, upper)
    ensures k in lower && |lower[k]| == 1 && lower[k][0] in upper && upper[lower[k][0]] == [k]
  {}

  lemma NoPairsScanned(keys: seq<int>, lower: Letters, upper: Letters)
    ensures PairsExtracted([], [], lower, upper) && PairsScanned(keys, 0, [], [], false, lower, upper)
  {}

  lemma AllPairsScanned(keys: seq<int>, starts: seq<int>, lengths: seq<nat>, inRange: bool, lower: Letters, upper: Letters, k: int)
    requires Lists(keys, lower.Keys) && |starts| == |lengths|
    requires PairsScanned(keys, |keys|, starts, lengths, inRange, lower, upper) && IsPair(k, lower, upper) && k in lower
    ensures InPairRanges(starts, lengths, k)
  {
    hide IsPair, InPairRanges;
    assert k in lower.Keys;
    var t :| 0 <= t < |keys| && keys[t] == k;
  }

  // Removed when j ranges and t code points of the next one are done.
  ghost predicate PairRemoved(starts: seq<int>, lengths: seq<nat>, j: nat, t: nat, k: int)
    requires |starts| == |lengths| && j <= |lengths|
  {
    || (exists i :: 0 <= i < j && InPairRange(starts, lengths, i, k))
    || (j < |lengths| && starts[j] <= k < starts[j] + t && (k - starts[j]) % 2 == 0)
  }

  ghost function GonePairs(starts: seq<int>, lengths: seq<nat>, j: nat, t: nat): int -> bool
    requires |starts| == |lengths| && j <= |lengths|
  {
    (k: int) => PairRemoved(starts, lengths, j, t, k)
  }

  // The upper case of a removed pair.
  ghost function GoneUpper(starts: seq<int>, lengths: seq<nat>, j: nat, t: nat): int -> bool
    requires |starts| == |lengths| && j <= |lengths|
  {
    (u: int) => PairRemoved(starts, lengths, j, t, u - 1)
  }

  lemma PairRemovedNext(starts: seq<int>, lengths: seq<nat>, j: nat, t: nat, k: int)
    requires |starts| == |lengths| && j < |lengths| && t % 2 == 0
    ensures PairRemoved(starts, lengths, j, t + 2, k) <==> PairRemoved(starts, lengths, j, t, k) || k == starts[j] + t
    ensures t == lengths[j] ==> (PairRemoved(starts, lengths, j, t, k) <==> PairRemoved(starts, lengths, j + 1, 0, k))
  {
    if t == lengths[j] {
      assert PairRemoved(starts, lengths, j, t, k) ==> PairRemoved(starts, lengths, j + 1, 0, k) by {
        if starts[j] <= k < starts[j] + t && (k - starts[j]) % 2 == 0 { assert InPairRange(starts, lengths, j, k); }
      }
    }
  }

  lemma PairKeyRemoved(lowerNow: Letters, lower: Letters, upperNow: Letters, upper: Letters, starts: seq<int>, lengths: seq<nat>, j: nat, t: nat)
    requires |starts| == |lengths| && j < |lengths| && t % 2 == 0
    requires Without(lowerNow, lower, GonePairs(starts, lengths, j, t)) && Without(upperNow, upper, GoneUpper(starts, lengths, j, t))
    ensures Without(lowerNow - {starts[j] + t}, lower, GonePairs(starts, lengths, j, t + 2))
    ensures Without(upperNow - {starts[j] + t + 1}, upper, GoneUpper(starts, lengths, j, t + 2))
  {
    hide PairRemoved;
    forall k ensures GonePairs(starts, lengths, j, t + 2)(k) <==> GonePairs(starts, lengths, j, t)(k) || k == starts[j] + t {
      PairRemovedNext(starts, lengths, j, t, k);
    }
    forall u
      ensures GoneUpper(starts, lengths, j, t + 2)(u) <==> GoneUpper(starts, lengths, j, t)(u) || u == starts[j] + t + 1
    {
      PairRemovedNext(starts, lengths, j, t, u - 1);
    }
  }

  lemma PairRangeRemoved(starts: seq<int>, lengths: seq<nat>, j: nat)
    requires |starts| == |lengths| && j < |lengths| && lengths[j] % 2 == 0
    ensures forall k :: GonePairs(starts, lengths, j, lengths[j])(k) <==> GonePairs(starts, lengths, j + 1, 0)(k)
    ensures forall u :: GoneUpper(starts, lengths, j, lengths[j])(u) <==> GoneUpper(starts, lengths, j + 1, 0)(u)
  {
    hide PairRemoved;
    forall k ensures GonePairs(starts, lengths, j, lengths[j])(k) <==> GonePairs(starts, lengths, j + 1, 0)(k) {
      PairRemovedNext(starts, lengths, j, lengths[j], k);
    }
    forall u ensures GoneUpper(starts, lengths, j, lengths[j])(u) <==> GoneUpper(starts, lengths, j + 1, 0)(u) {
      PairRemovedNext(starts, lengths, j, lengths[j], u - 1);
    }
  }

  lemma WithoutSame(now: Letters, was: Letters, gone: int -> bool, gone2: int -> bool)
    requires Without(now, was, gone) && forall k :: gone(k) <==> gone2(k)
    ensures Without(now, was, gone2)
  {}

  lemma NoPairRemoved(starts: seq<int>, lengths: seq<nat>)
    requires |starts| == |lengths|
    ensures forall m: Letters :: Without(m, m, GonePairs(starts, lengths, 0, 0)) && Without(m, m, GoneUpper(starts, lengths, 0, 0))
  {}

  lemma PairStillThere(starts: seq<int>, lengths: seq<nat>, j: nat, t: nat, lower: Letters, upper: Letters)
    requires PairsExtracted(starts, lengths, lower, upper) && j < |lengths| && t < lengths[j] && t % 2 == 0
    ensures starts[j] + t in lower && starts[j] + t + 1 in upper && !PairRemoved(starts, lengths, j, t, starts[j] + t)
  {
    assert InPairRange(starts, lengths, j, starts[j] + t);
    hide InPairRanges;
  }

  lemma PairPresent(lowerNow: Letters, lower: Letters, upperNow: Letters, upper: Letters, starts: seq<int>, lengths: seq<nat>, j: nat, t: nat)
    requires |starts| == |lengths| && j < |lengths|
    requires Without(lowerNow, lower, GonePairs(starts, lengths, j, t)) && Without(upperNow, upper, GoneUpper(starts, lengths, j, t))
    requires starts[j] + t in lower && starts[j] + t + 1 in upper && !PairRemoved(starts, lengths, j, t, starts[j] + t)
    ensures starts[j] + t in lowerNow && starts[j] + t + 1 in upperNow
  {
    hide PairRemoved;
    var u := starts[j] + t + 1;
    assert !GoneUpper(starts, lengths, j, t)(u) by { assert u - 1 == starts[j] + t; }
  }

  lemma PairShape(starts: seq<int>, lengths: seq<nat>, lower: Letters, upper: Letters)
    requires PairsExtracted(starts, lengths, lower, upper)
    ensures |starts| == |lengths| && forall j :: 0 <= j < |lengths| ==> lengths[j] % 2 == 0
  {
    hide InPairRange, IsPair;
  }

  // ---- a clash does not go unnoticed

  lemma {:induction false} RangeElementsAt(start: int, len: nat)
    requires len % 2 == 0
    ensures |RangeElements(start, len)| == len / 2
    ensures forall t :: 0 <= t < len / 2 ==> RangeElements(start, len)[t] == start + 2 * t
  {
    if len >= 2 {
      RangeElementsAt(start, len - 2);
    }
  }

  // What the ranges decode to has all their elements.
  lemma {:induction false} ElementsDecode(starts: seq<int>, lengths: seq<nat>, n: nat)
    requires |starts| == |lengths| && n <= |lengths| && forall j :: 0 <= j < |lengths| ==> lengths[j] % 2 == 0
    ensures forall t :: 0 <= t < |Elements(starts, lengths, n)| ==>
              var k := Elements(starts, lengths, n)[t];
              k in DecodePairRanges(starts, lengths, n) && DecodePairRanges(starts, lengths, n)[k] == [k + 1]
  {
    if n > 0 {
      ElementsDecode(starts, lengths, n - 1);
      RangeElementsAt(starts[n - 1], lengths[n - 1]);
      var a, b := Elements(starts, lengths, n - 1), RangeElements(starts[n - 1], lengths[n - 1]);
      forall t | 0 <= t < |a + b|
        ensures var k := (a + b)[t];
                k in DecodePairRanges(starts, lengths, n) && DecodePairRanges(starts, lengths, n)[k] == [k + 1]
      {
        if t >= |a| {
          var k := (a + b)[t];
          assert k == starts[n - 1] + 2 * (t - |a|);
          assert InPairRange(starts, lengths, n - 1, k);
          assert k in DecodePairRange(starts, lengths, n - 1);
        }
      }
    }
  }

  predicate NoneTwice(e: seq<int>) {
    forall i, j :: 0 <= i < j < |e| ==> e[i] != e[j]
  }

  // Different pairs that are not before the pairs are the pairs.
  lemma {:induction false} AllInPlace(e: seq<int>, pairs: seq<int>, n: nat)
    requires |e| == |pairs| && n <= |e| && Ascending(pairs) && NoneTwice(e)
    requires forall t :: 0 <= t < |e| ==> e[t] >= pairs[t] && e[t] in pairs
    ensures forall t :: n <= t < |e| ==> e[t] == pairs[t]
    decreases |e| - n
  {
    if n < |e| {
      AllInPlace(e, pairs, n + 1);
      var j := PlaceIn(pairs, e[n]);
      hide NoneTwice, Ascending;
      PlaceOf(e, pairs, n, j);
      forall t | n <= t < |e| ensures e[t] == pairs[t] {}
    }
  }

  lemma PlaceIn(pairs: seq<int>, k: int) returns (j: nat)
    requires k in pairs
    ensures j < |pairs| && pairs[j] == k
  {
    j :| 0 <= j < |pairs| && pairs[j] == k;
  }

  lemma PlaceOf(e: seq<int>, pairs: seq<int>, n: nat, j: nat)
    requires |e| == |pairs| && n < |e| && j < |e| && Ascending(pairs) && NoneTwice(e)
    requires pairs[j] == e[n] >= pairs[n] && forall t :: n < t < |e| ==> e[t] == pairs[t]
    ensures j == n
  {
  }

  // After a clash the ranges decode to something that was not there.
  lemma ClashShows(starts: seq<int>, lengths: seq<nat>, pairs: seq<int>, lower: Letters, upper: Letters,
                   lowerNow: Letters, upperNow: Letters)
    requires PairsFound(starts, lengths, pairs, lower, upper) && NoneTwice(Elements(starts, lengths, |lengths|))
    requires !NoClash(lower, upper)
    ensures !TakenOut(lower, upper, DecodePairRanges(starts, lengths, |lengths|), lowerNow, upperNow)
  {
    var e, d := Elements(starts, lengths, |lengths|), DecodePairRanges(starts, lengths, |lengths|);
    ElementsDecode(starts, lengths, |lengths|);
    hide Elements, DecodePairRanges, NoClash, Without;
    if forall t :: 0 <= t < |e| ==> e[t] in pairs {
      AllInPlace(e, pairs, 0);
    } else {
      var t :| 0 <= t < |e| && e[t] !in pairs;
      assert !IsPair(e[t], lower, upper);
      assert e[t] in d && d[e[t]] == [e[t] + 1];
    }
  }

  lemma OneMoreGone(done: seq<int>, now: Letters, k: int)
    requires NoneTwice(done) && (forall t :: 0 <= t < |done| ==> done[t] !in now) && k in now
    ensures NoneTwice(done + [k]) && forall t :: 0 <= t <= |done| ==> (done + [k])[t] !in now - {k}
  {}

  lemma FoundShape(starts: seq<int>, lengths: seq<nat>, pairs: seq<int>, lower: Letters, upper: Letters)
    requires PairsFound(starts, lengths, pairs, lower, upper)
    ensures |starts| == |lengths| && forall j :: 0 <= j < |lengths| ==> lengths[j] % 2 == 0
  {
    hide Elements, NoClash, IsPair;
  }

  // extract_character_pair_ranges; not ok when a code point to be deleted is missing.
  method ExtractCharacterPairRanges(letterCase: CaseTable, reverse: CaseTable)
    returns (starts: seq<int>, lengths: seq<nat>, ok: bool)
    requires letterCase != reverse && OneToThree(letterCase.letters)
    modifies letterCase, reverse
    ensures |starts| == |lengths|
    ensures ok && TakenOut(old(letterCase.letters), old(reverse.letters), DecodePairRanges(starts, lengths, |lengths|),
                           letterCase.letters, reverse.letters)
            <==> NoClash(old(letterCase.letters), old(reverse.letters))
    ensures NoClash(old(letterCase.letters), old(reverse.letters)) ==>
              && PairsExtracted(starts, lengths, old(letterCase.letters), old(reverse.letters))
              && forall k :: IsPair(k, old(letterCase.letters), old(reverse.letters)) ==> InPairRanges(starts, lengths, k)
  {
    hide PairsExtracted, PairRemoved, InPairRanges, OneToThree, IsPair, Without, GonePairs, GoneUpper, PairsFound, NoClash,
      TakenOut, Elements, RangeElements, DecodePairRanges, NoneTwice;
    ghost var lower, upper := letterCase.letters, reverse.letters;
    ghost var pairs: seq<int>;
    starts, lengths, pairs := ScanPairRanges(letterCase.letters, reverse.letters);
    FoundShape(starts, lengths, pairs, lower, upper);
    NoPairRemoved(starts, lengths);
    NoElements(starts, lengths);
    ok := false;
    ghost var done: seq<int> := [];
    var idx := 0;
    while idx < |starts|
      invariant 0 <= idx <= |starts|
      invariant Without(letterCase.letters, lower, GonePairs(starts, lengths, idx, 0))
      invariant Without(reverse.letters, upper, GoneUpper(starts, lengths, idx, 0))
      invariant done == Elements(starts, lengths, idx) && NoneTwice(done)
      invariant forall t :: 0 <= t < |done| ==> done[t] !in letterCase.letters
    {
      var letter, convLength, incr := starts[idx], lengths[idx], 0;
      NoRange(letter);
      while incr < convLength
        invariant 0 <= incr <= convLength && incr % 2 == 0
        invariant Without(letterCase.letters, lower, GonePairs(starts, lengths, idx, incr))
        invariant Without(reverse.letters, upper, GoneUpper(starts, lengths, idx, incr))
        invariant done == Elements(starts, lengths, idx) + RangeElements(letter, incr) && NoneTwice(done)
        invariant forall t :: 0 <= t < |done| ==> done[t] !in letterCase.letters
      {
        if NoClash(lower, upper) {
          PairStillThere(starts, lengths, idx, incr, lower, upper);
          PairPresent(letterCase.letters, lower, reverse.letters, upper, starts, lengths, idx, incr);
        }
        PairKeyRemoved(letterCase.letters, lower, reverse.letters, upper, starts, lengths, idx, incr);
        if letter + incr !in letterCase.letters {
          return;
        }
        OneMoreGone(done, letterCase.letters, letter + incr);
        RangeStep(letter, incr);
        letterCase.Delete(letter + incr);
        if letter + 1 + incr !in reverse.letters {
          return;
        }
        reverse.Delete(letter + 1 + incr);
        done := done + [letter + incr];
        incr := incr + 2;
      }
      PairRangeRemoved(starts, lengths, idx);
      WithoutSame(letterCase.letters, lower, GonePairs(starts, lengths, idx, convLength), GonePairs(starts, lengths, idx + 1, 0));
      WithoutSame(reverse.letters, upper, GoneUpper(starts, lengths, idx, convLength), GoneUpper(starts, lengths, idx + 1, 0));
      ElementsStep(starts, lengths, idx + 1);
      idx := idx + 1;
    }
    ok := true;
    if NoClash(lower, upper) {
      PairRangesTakenOut(starts, lengths, lower, upper, letterCase.letters, reverse.letters);
    } else {
      ClashShows(starts, lengths, pairs, lower, upper, letterCase.letters, reverse.letters);
    }
  }

  lemma NoElements(starts: seq<int>, lengths: seq<nat>)
    requires |starts| == |lengths|
    ensures Elements(starts, lengths, 0) == [] && NoneTwice([])
  {}

  lemma NoRange(start: int)
    ensures RangeElements(start, 0) == []
  {}

  // 9, 10 and 11 are each the lower case of the next: the code point 12 would be deleted.
  lemma ClashExample()
    ensures var lower: Letters, upper: Letters :=
              map[9 := [10], 10 := [11], 11 := [12]], map[10 := [9], 11 := [10], 12 := [11]];
            OneToThree(lower) && Clash(10, lower, upper) && !NoClash(lower, upper)
  {
    var lower: Letters, upper: Letters := map[9 := [10], 10 := [11], 11 := [12]], map[10 := [9], 11 := [10], 12 := [11]];
    assert Clash(10, lower, upper);
  }

  // Pairs that meet do no harm as such.
  lemma MeetingExample()
    ensures var lower: Letters, upper: Letters := map[10 := [11], 11 := [12]], map[11 := [10], 12 := [11]];
            OneToThree(lower) && !PairsApart(lower, upper) && NoClash(lower, upper)
  {
    var lower: Letters, upper: Letters := map[10 := [11], 11 := [12]], map[11 := [10], 12 := [11]];
    assert IsPair(10, lower, upper) && IsPair(11, lower, upper);
  }

  // ---- single pairs

  // pairs is k0, u0, k1, u1, ...
  function DecodePairs(pairs: seq<int>): Letters
    decreases |pairs|
  {
    if |pairs| < 2 then map[]
    else DecodePairs(pairs[..|pairs| - 2])[pairs[|pairs| - 2] := [pairs[|pairs| - 1]]]
  }

  // D leaves a pair of tables: its entries are bidirectional, and exactly they and their
  // inverses are missing afterwards.
  ghost predicate TakenOut(lower: Letters, upper: Letters, d: Letters, lowerNow: Letters, upperNow: Letters) {
    && (forall k :: k in d ==> IsBidirectional(k, lower, upper) && d[k] == lower[k])
    && Without(lowerNow, lower, KeysOf(d))
    && Without(upperNow, upper, ValuesOf(d))
  }

  ghost function KeysOf(d: Letters): int -> bool {
    (k: int) => k in d
  }

  ghost function ValuesOf(d: Letters): int -> bool {
    (u: int) => exists k :: k in d && d[k] == [u]
  }

  // What is left is bidirectional if it was before.
  lemma StillBidirectional(lower: Letters, upper: Letters, d: Letters, lowerNow: Letters, upperNow: Letters, k: int)
    requires TakenOut(lower, upper, d, lowerNow, upperNow)
    ensures IsBidirectional(k, lowerNow, upperNow) <==> IsBidirectional(k, lower, upper) && k !in d
  {
    if IsBidirectional(k, lower, upper) && k !in d {
      var u := lower[k][0];
      forall l | l in d ensures d[l] != [u] {
        assert IsBidirectional(l, lower, upper);
      }
      assert !ValuesOf(d)(u) && !KeysOf(d)(k);
      assert u in upperNow && k in lowerNow;
    }
    if IsBidirectional(k, lowerNow, upperNow) {
      var u := lowerNow[k][0];
      assert k in lower && lowerNow[k] == lower[k] && !KeysOf(d)(k);
      assert u in upper && upperNow[u] == upper[u];
    }
  }

  predicate AscendingPairs(pairs: seq<int>)
    requires |pairs| % 2 == 0
  {
    forall i, j :: 0 <= i < j < |pairs| / 2 ==> pairs[2 * i] < pairs[2 * j]
  }

  lemma TakeOne(lower: Letters, upper: Letters, d: Letters, lowerNow: Letters, upperNow: Letters, k: int)
    requires TakenOut(lower, upper, d, lowerNow, upperNow) && IsBidirectional(k, lowerNow, upperNow)
    ensures TakenOut(lower, upper, d[k := lowerNow[k]], lowerNow - {k}, upperNow - {lowerNow[k][0]})
  {
    StillBidirectional(lower, upper, d, lowerNow, upperNow, k);
    var u, d2 := lowerNow[k][0], d[k := lowerNow[k]];
    assert lowerNow[k] == lower[k] == [u];
    hide IsBidirectional;
    forall l ensures KeysOf(d2)(l) <==> KeysOf(d)(l) || l == k {}
    forall v ensures ValuesOf(d2)(v) <==> ValuesOf(d)(v) || v == u {
      if ValuesOf(d)(v) {
        var l :| l in d && d[l] == [v];
        assert l in d2 && d2[l] == [v];
      }
      if v == u {
        assert k in d2 && d2[k] == [v];
      }
    }
  }

  lemma PairAppended(pairs: seq<int>, k: int, u: int)
    requires |pairs| % 2 == 0
    ensures DecodePairs(pairs + [k, u]) == DecodePairs(pairs)[k := [u]]
  {
    assert (pairs + [k, u])[..|pairs|] == pairs;
  }

  // The keys of the pairs are listed before position i.
  ghost predicate PairsBefore(pairs: seq<int>, keys: seq<int>, i: nat)
    requires |pairs| % 2 == 0 && i <= |keys|
  {
    AscendingPairs(pairs) && (|pairs| > 0 ==> i > 0 && pairs[|pairs| - 2] <= keys[i - 1])
  }

  lemma PairListed(pairs: seq<int>, keys: seq<int>, i: nat, u: int)
    requires |pairs| % 2 == 0 && i < |keys| && Ascending(keys) && PairsBefore(pairs, keys, i)
    ensures PairsBefore(pairs + [keys[i], u], keys, i + 1)
  {
    var more := pairs + [keys[i], u];
    if i > 0 { KeyBefore(keys, i); }
    forall a, b | 0 <= a < b < |more| / 2 ensures more[2 * a] < more[2 * b] {
      if b == |pairs| / 2 && a < |pairs| / 2 - 1 {
        assert pairs[2 * a] < pairs[2 * (|pairs| / 2 - 1)];
      }
    }
  }

  lemma PairsLater(pairs: seq<int>, keys: seq<int>, i: nat)
    requires |pairs| % 2 == 0 && i < |keys| && Ascending(keys) && PairsBefore(pairs, keys, i)
    ensures PairsBefore(pairs, keys, i + 1)
  {
    if i > 0 { KeyBefore(keys, i); }
  }

  // extract_character_pairs: all bidirectional entries, each once.
  method ExtractCharacterPairs(letterCase: CaseTable, reverse: CaseTable) returns (pairs: seq<int>)
    requires letterCase != reverse
    modifies letterCase, reverse
    ensures |pairs| % 2 == 0 && AscendingPairs(pairs)
    ensures TakenOut(old(letterCase.letters), old(reverse.letters), DecodePairs(pairs), letterCase.letters, reverse.letters)
    ensures forall k :: IsBidirectional(k, old(letterCase.letters), old(reverse.letters)) ==> k in DecodePairs(pairs)
  {
    hide TakenOut, IsBidirectional, DecodePairs, AscendingPairs, PairsBefore, Lists;
    ghost var lower, upper := letterCase.letters, reverse.letters;
    var keys := Sorted(letterCase.letters.Keys);
    ListsAscend(keys, lower.Keys);
    pairs := [];
    NothingTaken(lower, upper, keys);
    var i := 0;
    while i < |keys|
      invariant 0 <= i <= |keys| && |pairs| % 2 == 0 && PairsBefore(pairs, keys, i)
      invariant TakenOut(lower, upper, DecodePairs(pairs), letterCase.letters, reverse.letters)
      invariant forall t :: 0 <= t < i && IsBidirectional(keys[t], lower, upper) ==> keys[t] in DecodePairs(pairs)
    {
      var letter := keys[i];
      StillBidirectional(lower, upper, DecodePairs(pairs), letterCase.letters, reverse.letters, letter);
      PairsLater(pairs, keys, i);
      if IsBidirectional(letter, letterCase.letters, reverse.letters) {
        BidirectionalMeans(letter, letterCase.letters, reverse.letters);
        var mapped := letterCase.letters[letter];
        TakeOne(lower, upper, DecodePairs(pairs), letterCase.letters, reverse.letters, letter);
        PairAppended(pairs, letter, mapped[0]);
        PairListed(pairs, keys, i, mapped[0]);
        assert mapped == [mapped[0]];
        pairs := pairs + [letter, mapped[0]];
        letterCase.Delete(letter);
        reverse.Delete(mapped[0]);
      }
      i := i + 1;
    }
    PairsAscend(pairs, keys);
    forall k | IsBidirectional(k, lower, upper) ensures k in DecodePairs(pairs) {
      BidirectionalMeans(k, lower, upper);
      KeyListed(keys, lower, k);
    }
  }

  lemma ListsAscend(keys: seq<int>, s: set<int>)
    requires Lists(keys, s)
    ensures Ascending(keys)
  {}

  lemma KeyListed(keys: seq<int>, m: Letters, k: int)
    requires Lists(keys, m.Keys) && k in m
    ensures exists t :: 0 <= t < |keys| && keys[t] == k
  {
    assert k in m.Keys;
    assert k in keys;
  }

  lemma NothingTaken(lower: Letters, upper: Letters, keys: seq<int>)
    ensures TakenOut(lower, upper, DecodePairs([]), lower, upper) && PairsBefore([], keys, 0)
  {}

  lemma PairsAscend(pairs: seq<int>, keys: seq<int>)
    requires |pairs| % 2 == 0 && PairsBefore(pairs, keys, |keys|)
    ensures AscendingPairs(pairs)
  {}

  // ---- the remaining conversions

  // Groups of a key and n mapped values.
  function DecodeGroups(u: seq<int>, n: nat): Letters
    decreases |u|
  {
    if |u| < n + 1 then map[]
    else DecodeGroups(u[..|u| - n - 1], n)[u[|u| - n - 1] := u[|u| - n..]]
  }

  lemma GroupAppended(u: seq<int>, n: nat, k: int, v: seq<int>)
    requires |v| == n
    ensures DecodeGroups(u + ([k] + v), n) == DecodeGroups(u, n)[k := v]
  {
    var w := u + ([k] + v);
    assert w[..|w| - n - 1] == u && w[|w| - n..] == v && w[|w| - n - 1] == k;
  }

  // The keys of the groups, in their order.
  function GroupKeys(u: seq<int>, n: nat): seq<int>
    decreases |u|
  {
    if |u| < n + 1 then [] else GroupKeys(u[..|u| - n - 1], n) + [u[|u| - n - 1]]
  }

  lemma GroupKeyAppended(u: seq<int>, n: nat, k: int, v: seq<int>)
    requires |v| == n
    ensures GroupKeys(u + ([k] + v), n) == GroupKeys(u, n) + [k]
  {
    var w := u + ([k] + v);
    assert w[..|w| - n - 1] == u && w[|w| - n - 1] == k;
  }

  // These keys ascend, and are listed before position i.
  ghost predicate ListedBefore(found: seq<int>, keys: seq<int>, i: nat)
    requires i <= |keys|
  {
    Ascending(found) && (found != [] ==> i > 0 && found[|found| - 1] <= keys[i - 1])
  }

  lemma ListedNext(found: seq<int>, keys: seq<int>, i: nat)
    requires i < |keys| && Ascending(keys) && ListedBefore(found, keys, i)
    ensures ListedBefore(found, keys, i + 1) && ListedBefore(found + [keys[i]], keys, i + 1)
  {
    if i > 0 { KeyBefore(keys, i); }
    var more := found + [keys[i]];
    forall a, b | 0 <= a < b < |more| ensures more[a] < more[b] {
      if b == |found| && a < |found| - 1 {
        assert found[a] < found[|found| - 1];
      }
    }
  }

  lemma NoneListed(keys: seq<int>, n: nat)
    ensures GroupKeys([], n) == [] && ListedBefore([], keys, 0)
  {}

  lemma AllListed(found: seq<int>, keys: seq<int>)
    requires ListedBefore(found, keys, |keys|)
    ensures Ascending(found)
  {}

  // The key of group i is the first of its n + 1 values.
  lemma {:induction false} GroupKeyAt(u: seq<int>, n: nat, c: nat, i: nat)
    requires |u| == GroupsLength(c, n) && i < c
    ensures |GroupKeys(u, n)| == c && GroupsLength(i, n) < |u| && GroupKeys(u, n)[i] == u[GroupsLength(i, n)]
    decreases c
  {
    hide GroupsLength;
    GroupsLengthNext(c - 1, n);
    var v := u[..|u| - n - 1];
    if c == 1 {
      NoKeys(v, n);
    } else if i < c - 1 {
      GroupKeyAt(v, n, c - 1, i);
    } else {
      GroupKeyAt(v, n, c - 1, 0);
    }
  }

  lemma NoKeys(u: seq<int>, n: nat)
    requires |u| == GroupsLength(0, n)
    ensures u == [] && GroupKeys(u, n) == []
  {
    GroupsLengthNext(0, n);
  }

  // The length of c groups.
  function GroupsLength(c: nat, n: nat): nat {
    c * (n + 1)
  }

  lemma GroupsLengthNext(c: nat, n: nat)
    ensures GroupsLength(c + 1, n) == GroupsLength(c, n) + n + 1 && GroupsLength(0, n) == 0
  {}

  lemma GroupsLengths(c: nat)
    ensures GroupsLength(c, 1) == 2 * c && GroupsLength(c, 2) == 3 * c && GroupsLength(c, 3) == 4 * c
  {}

  // d has the mappings to n code points of the first i keys.
  ghost predicate Grouped(d: Letters, keys: seq<int>, i: nat, n: nat, m: Letters)
    requires i <= |keys|
  {
    && (forall k :: k in d ==> k in m && |m[k]| == n && d[k] == m[k])
    && (forall t :: 0 <= t < |keys| ==> keys[t] in m && (keys[t] in d <==> t < i && |m[keys[t]]| == n))
  }

  lemma GroupedStart(keys: seq<int>, n: nat, m: Letters)
    requires Lists(keys, m.Keys)
    ensures Grouped(map[], keys, 0, n, m)
  {
    forall t | 0 <= t < |keys| ensures keys[t] in m {
      ListedIn(keys, m, t);
    }
  }

  lemma GroupedNext(d: Letters, keys: seq<int>, i: nat, n: nat, m: Letters)
    requires Ascending(keys) && i < |keys| && Grouped(d, keys, i, n, m)
    ensures keys[i] in m && keys[i] !in d
    ensures |m[keys[i]]| != n ==> Grouped(d, keys, i + 1, n, m)
    ensures |m[keys[i]]| == n ==> Grouped(d[keys[i] := m[keys[i]]], keys, i + 1, n, m)
  {
    forall t | 0 <= t < |keys| && t != i ensures keys[t] != keys[i] {
      if t < i { assert keys[t] < keys[i]; } else { assert keys[i] < keys[t]; }
    }
  }

  lemma GroupedAll(d: Letters, keys: seq<int>, n: nat, m: Letters)
    requires Lists(keys, m.Keys) && Grouped(d, keys, |keys|, n, m)
    ensures forall k :: k in d <==> k in m && |m[k]| == n
    ensures forall k :: k in d ==> d[k] == m[k]
  {
    forall k | k in m && |m[k]| == n ensures k in d {
      KeyListed(keys, m, k);
    }
  }

  // One of the three loops of extract_conversions: the mappings to n code points.
  method ExtractOfLength(letterCase: CaseTable, n: nat) returns (u: seq<int>, ghost count: nat)
    modifies letterCase
    ensures |u| == GroupsLength(count, n) && count == |DecodeGroups(u, n)|
    ensures forall k :: k in DecodeGroups(u, n) <==> k in old(letterCase.letters) && |old(letterCase.letters)[k]| == n
    ensures forall k :: k in DecodeGroups(u, n) ==> DecodeGroups(u, n)[k] == old(letterCase.letters)[k]
    ensures Without(letterCase.letters, old(letterCase.letters), KeysOf(DecodeGroups(u, n)))
    ensures Ascending(GroupKeys(u, n))
  {
    hide DecodeGroups, GroupKeys, ListedBefore, Lists, Grouped, Ascending, GroupsLength, Without;
    ghost var m, d := letterCase.letters, map[];
    var keys := Sorted(letterCase.letters.Keys);
    ListsAscend(keys, m.Keys);
    u, count := [], 0;
    NoGroups(n);
    NoneListed(keys, n);
    GroupsLengthNext(0, n);
    GroupedStart(keys, n, m);
    NoneGone(m);
    var i := 0;
    while i < |keys|
      invariant 0 <= i <= |keys| && |u| == GroupsLength(count, n) && d == DecodeGroups(u, n) && count == |d|
      invariant Grouped(d, keys, i, n, m) && Without(letterCase.letters, m, KeysOf(d))
      invariant ListedBefore(GroupKeys(u, n), keys, i)
    {
      var letter := keys[i];
      ListedNext(GroupKeys(u, n), keys, i);
      GroupedNext(d, keys, i, n, m);
      KeyLeft(d, letter, letterCase.letters, m);
      var mapped := letterCase.letters[letter];
      i := i + 1;
      if |mapped| != n {
        continue;
      }
      GroupAppended(u, n, letter, mapped);
      GroupKeyAppended(u, n, letter, mapped);
      GroupsLengthNext(count, n);
      OneKeyMore(d, letter, mapped, letterCase.letters, m);
      u := u + ([letter] + mapped);
      count := count + 1;
      d := d[letter := mapped];
      letterCase.Delete(letter);
    }
    GroupedAll(d, keys, n, m);
    AllListed(GroupKeys(u, n), keys);
  }

  lemma NoneGone(m: Letters)
    ensures Without(m, m, KeysOf(map[]))
  {}

  lemma KeyLeft(d: Letters, k: int, now: Letters, was: Letters)
    requires Without(now, was, KeysOf(d)) && k in was && k !in d
    ensures k in now && now[k] == was[k]
  {
    assert !KeysOf(d)(k);
  }

  lemma NoGroups(n: nat)
    ensures DecodeGroups([], n) == map[]
  {}

  lemma OneKeyMore(d: Letters, k: int, v: seq<int>, now: Letters, was: Letters)
    requires k !in d && Without(now, was, KeysOf(d))
    ensures |d[k := v]| == |d| + 1 && Without(now - {k}, was, KeysOf(d[k := v]))
  {
    SizeOneMore(d, k, v);
    forall l ensures (l in now - {k} <==> l in was && !KeysOf(d[k := v])(l)) && (l in now - {k} ==> (now - {k})[l] == was[l]) {
      WithoutAt(now, was, KeysOf(d), l);
    }
  }

  lemma SizeOneMore<K, V>(d: map<K, V>, k: K, v: V)
    requires k !in d
    ensures |d[k := v]| == |d| + 1
  {
    assert d[k := v].Keys == d.Keys + {k};
  }

  // The three parts of the table of conversions, by their counts.
  function DecodeConversions(flat: seq<int>, counts: seq<nat>): Letters
    requires |counts| == 3 && |flat| == 2 * counts[0] + 3 * counts[1] + 4 * counts[2]
  {
    var a, b := 2 * counts[0], 2 * counts[0] + 3 * counts[1];
    DecodeGroups(flat[..a], 1) + DecodeGroups(flat[a..b], 2) + DecodeGroups(flat[b..], 3)
  }

  // No key is listed twice: each part decodes to as many entries as it has groups.
  predicate EachOnce(flat: seq<int>, counts: seq<nat>)
    requires |counts| == 3 && |flat| == 2 * counts[0] + 3 * counts[1] + 4 * counts[2]
  {
    var a, b := 2 * counts[0], 2 * counts[0] + 3 * counts[1];
    && |DecodeGroups(flat[..a], 1)| == counts[0] && |DecodeGroups(flat[a..b], 2)| == counts[1]
    && |DecodeGroups(flat[b..], 3)| == counts[2]
  }

  // The keys of each part ascend.
  ghost predicate PartsAscend(flat: seq<int>, counts: seq<nat>)
    requires |counts| == 3 && |flat| == 2 * counts[0] + 3 * counts[1] + 4 * counts[2]
  {
    var a, b := 2 * counts[0], 2 * counts[0] + 3 * counts[1];
    Ascending(GroupKeys(flat[..a], 1)) && Ascending(GroupKeys(flat[a..b], 2)) && Ascending(GroupKeys(flat[b..], 3))
  }

  // extract_conversions: the table becomes empty, and what it held is decoded again.
  method ExtractConversions(letterCase: CaseTable) returns (flat: seq<int>, counts: seq<nat>)
    requires OneToThree(letterCase.letters)
    modifies letterCase
    ensures |counts| == 3 && |flat| == 2 * counts[0] + 3 * counts[1] + 4 * counts[2]
    ensures DecodeConversions(flat, counts) == old(letterCase.letters) && letterCase.letters == map[]
    ensures EachOnce(flat, counts) && |DecodeConversions(flat, counts)| == counts[0] + counts[1] + counts[2]
    ensures PartsAscend(flat, counts)
  {
    hide DecodeGroups, GroupKeys, Ascending, PartsAscend, Without, OneToThree, GroupsLength, KeysOf, DecodeConversions, EachOnce;
    ghost var m := letterCase.letters;
    var ones, n1 := ExtractOfLength(letterCase, 1);
    ghost var m1 := letterCase.letters;
    var twos, n2 := ExtractOfLength(letterCase, 2);
    ghost var m2 := letterCase.letters;
    var threes, n3 := ExtractOfLength(letterCase, 3);
    GroupsLengths(n1);
    GroupsLengths(n2);
    GroupsLengths(n3);
    flat := ones + twos + threes;
    counts := [|ones| / 2, |twos| / 3, |threes| / 4];
    PartsJoined(ones, twos, threes, n1, n2, n3, flat, counts);
    ThreeParts(m, DecodeGroups(ones, 1), DecodeGroups(twos, 2), DecodeGroups(threes, 3), m1, m2, letterCase.letters);
  }

  lemma PartSlices(ones: seq<int>, twos: seq<int>, threes: seq<int>, n1: nat, n2: nat, n3: nat, flat: seq<int>, counts: seq<nat>)
    requires |ones| == 2 * n1 && |twos| == 3 * n2 && |threes| == 4 * n3
    requires flat == ones + twos + threes && counts == [|ones| / 2, |twos| / 3, |threes| / 4]
    ensures counts == [n1, n2, n3] && |flat| == 2 * n1 + 3 * n2 + 4 * n3
    ensures flat[..2 * n1] == ones && flat[2 * n1..2 * n1 + 3 * n2] == twos && flat[2 * n1 + 3 * n2..] == threes
  {}

  lemma PartsJoined(ones: seq<int>, twos: seq<int>, threes: seq<int>, n1: nat, n2: nat, n3: nat, flat: seq<int>, counts: seq<nat>)
    requires |ones| == 2 * n1 && |twos| == 3 * n2 && |threes| == 4 * n3
    requires n1 == |DecodeGroups(ones, 1)| && n2 == |DecodeGroups(twos, 2)| && n3 == |DecodeGroups(threes, 3)|
    requires flat == ones + twos + threes && counts == [|ones| / 2, |twos| / 3, |threes| / 4]
    requires Ascending(GroupKeys(ones, 1)) && Ascending(GroupKeys(twos, 2)) && Ascending(GroupKeys(threes, 3))
    ensures counts == [n1, n2, n3] && |flat| == 2 * n1 + 3 * n2 + 4 * n3
    ensures DecodeConversions(flat, counts) == DecodeGroups(ones, 1) + DecodeGroups(twos, 2) + DecodeGroups(threes, 3)
    ensures EachOnce(flat, counts) && PartsAscend(flat, counts)
  {
    hide DecodeGroups, GroupKeys, Ascending;
    PartSlices(ones, twos, threes, n1, n2, n3, flat, counts);
  }

  lemma ThreeParts(m: Letters, a: Letters, b: Letters, c: Letters, m1: Letters, m2: Letters, m3: Letters)
    requires OneToThree(m) && Without(m1, m, KeysOf(a)) && Without(m2, m1, KeysOf(b)) && Without(m3, m2, KeysOf(c))
    requires forall k :: k in a <==> k in m && |m[k]| == 1
    requires forall k :: k in b <==> k in m1 && |m1[k]| == 2
    requires forall k :: k in c <==> k in m2 && |m2[k]| == 3
    requires forall k :: k in a ==> a[k] == m[k]
    requires forall k :: k in b ==> b[k] == m1[k]
    requires forall k :: k in c ==> c[k] == m2[k]
    ensures a + b + c == m && m3 == map[] && |m| == |a| + |b| + |c|
  {
    hide Without, OneToThree, InOnePart, KeysOf;
    forall k ensures InOnePart(m, a, b, c, m3, k) {
      OneOfThree(m, a, b, c, m1, m2, m3, k);
    }
    PartsUnion(m, a, b, c, m3);
    PartsApart(m, a, b, c, m3);
    SizeOfSum(a, b);
    SizeOfSum(a + b, c);
  }

  lemma PartsApart(m: Letters, a: Letters, b: Letters, c: Letters, m3: Letters)
    requires forall k :: InOnePart(m, a, b, c, m3, k)
    ensures Apart(a, b) && Apart(a + b, c)
  {
    forall k ensures !(k in a && k in b) && !(k in a + b && k in c) {
      assert InOnePart(m, a, b, c, m3, k);
    }
  }

  lemma SizeOfSum(a: Letters, b: Letters)
    requires Apart(a, b)
    ensures |a + b| == |a| + |b|
  {
    ApartKeys(a, b);
    hide Apart;
    SizeOfBoth(a, b);
  }

  lemma SizeAdds(a: Letters, b: Letters, d: Letters, x: nat, y: nat)
    requires d == a + b && Apart(a, b) && |a| == x && |b| == y
    ensures |d| == x + y
  {
    hide Apart;
    SizeOfSum(a, b);
  }

  lemma ApartKeys(a: Letters, b: Letters)
    requires Apart(a, b)
    ensures a.Keys !! b.Keys
  {
    forall k | k in a.Keys ensures k !in b.Keys {
      assert k in a;
    }
  }

  lemma SizeOfBoth<K, V>(a: map<K, V>, b: map<K, V>)
    requires a.Keys !! b.Keys
    ensures |a + b| == |a| + |b|
  {
    assert (a + b).Keys == a.Keys + b.Keys;
    assert |a.Keys + b.Keys| == |a.Keys| + |b.Keys|;
  }

  ghost predicate InOnePart(m: Letters, a: Letters, b: Letters, c: Letters, m3: Letters, k: int) {
    && (k in m <==> k in a || k in b || k in c)
    && !(k in a && k in b) && !(k in a && k in c) && !(k in b && k in c) && k !in m3
    && (k in m ==> m[k] == (if k in a then a[k] else if k in b then b[k] else c[k]))
  }

  lemma PartsUnion(m: Letters, a: Letters, b: Letters, c: Letters, m3: Letters)
    requires forall k :: InOnePart(m, a, b, c, m3, k)
    ensures a + b + c == m && m3 == map[]
  {
    SameMap(a + b + c, m) by {
      forall k ensures (k in a + b + c <==> k in m) && (k in m ==> (a + b + c)[k] == m[k]) {
        assert InOnePart(m, a, b, c, m3, k);
      }
    }
    SameMap(m3, map[]) by {
      forall k ensures k !in m3 {
        assert InOnePart(m, a, b, c, m3, k);
      }
    }
  }

  lemma SameMap<K, V>(a: map<K, V>, b: map<K, V>)
    requires forall k :: (k in a <==> k in b) && (k in b ==> a[k] == b[k])
    ensures a == b
  {}

  lemma OneOfThree(m: Letters, a: Letters, b: Letters, c: Letters, m1: Letters, m2: Letters, m3: Letters, k: int)
    requires OneToThree(m) && Without(m1, m, KeysOf(a)) && Without(m2, m1, KeysOf(b)) && Without(m3, m2, KeysOf(c))
    requires k in a <==> k in m && |m[k]| == 1
    requires k in b <==> k in m1 && |m1[k]| == 2
    requires k in c <==> k in m2 && |m2[k]| == 3
    requires k in a ==> a[k] == m[k]
    requires k in b ==> b[k] == m1[k]
    requires k in c ==> c[k] == m2[k]
    ensures InOnePart(m, a, b, c, m3, k)
  {
    assert KeysOf(a)(k) <==> k in a;
    assert KeysOf(b)(k) <==> k in b;
    assert KeysOf(c)(k) <==> k in c;
    WithoutAt(m1, m, KeysOf(a), k);
    WithoutAt(m2, m1, KeysOf(b), k);
    WithoutAt(m3, m2, KeysOf(c), k);
    assert k in m ==> 1 <= |m[k]| <= 3;
  }

  lemma WithoutAt(now: Letters, was: Letters, gone: int -> bool, k: int)
    requires Without(now, was, gone)
    ensures (k in now <==> k in was && !gone(k)) && (k in now ==> now[k] == was[k])
  {}

  // ---- all extractions

  lemma {:induction false} DecodesAt(ranges: seq<int>, lengths: seq<nat>, n: nat, m: Letters, r: Reverse, k: int)
    requires Extracted(ranges, lengths, m, r) && n <= |lengths|
    ensures |ranges| == 2 * |lengths|
    ensures k in DecodeRanges(ranges, lengths, n) <==> exists j :: 0 <= j < n && InRange(ranges, lengths, j, k)
    ensures k in DecodeRanges(ranges, lengths, n) ==> Eligible(k, m, r) && k in m && DecodeRanges(ranges, lengths, n)[k] == m[k]
  {
    ShapeOf(ranges, lengths, m, r);
    hide Eligible, Extracted;
    if n > 0 {
      DecodesAt(ranges, lengths, n - 1, m, r, k);
      if InRange(ranges, lengths, n - 1, k) { ExtractedAt(ranges, lengths, m, r, n - 1, k); }
    }
  }

  lemma DecodesTo(ranges: seq<int>, lengths: seq<nat>, m: Letters, r: Reverse)
    requires Extracted(ranges, lengths, m, r)
    ensures |ranges| == 2 * |lengths|
    ensures forall k :: k in DecodeRanges(ranges, lengths, |lengths|) ==>
              Eligible(k, m, r) && k in m && DecodeRanges(ranges, lengths, |lengths|)[k] == m[k]
    ensures forall k :: k in DecodeRanges(ranges, lengths, |lengths|) <==> InRanges(ranges, lengths, k)
  {
    ShapeOf(ranges, lengths, m, r);
    hide Eligible, Extracted, DecodeRanges, InRange;
    var d := DecodeRanges(ranges, lengths, |lengths|);
    forall k ensures (k in d <==> InRanges(ranges, lengths, k)) && (k in d ==> Eligible(k, m, r) && k in m && d[k] == m[k]) {
      DecodesAt(ranges, lengths, |lengths|, m, r, k);
    }
  }

  function DecodePairRange(starts: seq<int>, lengths: seq<nat>, j: nat): Letters
    requires |starts| == |lengths| && j < |lengths|
  {
    map k | starts[j] <= k < starts[j] + lengths[j] && InPairRange(starts, lengths, j, k) :: [k + 1]
  }

  function DecodePairRanges(starts: seq<int>, lengths: seq<nat>, n: nat): Letters
    requires |starts| == |lengths| && n <= |lengths|
  {
    if n == 0 then map[] else DecodePairRanges(starts, lengths, n - 1) + DecodePairRange(starts, lengths, n - 1)
  }

  lemma {:induction false} PairDecodesAt(starts: seq<int>, lengths: seq<nat>, n: nat, lower: Letters, upper: Letters, k: int)
    requires PairsExtracted(starts, lengths, lower, upper) && n <= |lengths|
    ensures |starts| == |lengths|
    ensures k in DecodePairRanges(starts, lengths, n) <==> exists j :: 0 <= j < n && InPairRange(starts, lengths, j, k)
    ensures k in DecodePairRanges(starts, lengths, n) ==>
              IsPair(k, lower, upper) && DecodePairRanges(starts, lengths, n)[k] == [k + 1]
  {
    hide IsPair;
    if n > 0 {
      PairDecodesAt(starts, lengths, n - 1, lower, upper, k);
    }
  }

  lemma PairsDecodeTo(starts: seq<int>, lengths: seq<nat>, lower: Letters, upper: Letters)
    requires PairsExtracted(starts, lengths, lower, upper)
    ensures |starts| == |lengths|
    ensures forall k :: k in DecodePairRanges(starts, lengths, |lengths|) ==>
              IsPair(k, lower, upper) && DecodePairRanges(starts, lengths, |lengths|)[k] == [k + 1]
    ensures forall k :: k in DecodePairRanges(starts, lengths, |lengths|) <==> InPairRanges(starts, lengths, k)
  {
    PairShape(starts, lengths, lower, upper);
    hide IsPair, PairsExtracted, DecodePairRanges, InPairRange;
    var d := DecodePairRanges(starts, lengths, |lengths|);
    forall k
      ensures (k in d <==> InPairRanges(starts, lengths, k)) && (k in d ==> IsPair(k, lower, upper) && d[k] == [k + 1])
    {
      PairDecodesAt(starts, lengths, |lengths|, lower, upper, k);
    }
  }

  lemma RangeValue(ranges: seq<int>, lengths: seq<nat>, lower: Letters, upper: Letters, d: Letters, u: int)
    requires Extracted(ranges, lengths, lower, TwoWay(upper))
    requires forall k :: k in d <==> InRanges(ranges, lengths, k)
    requires forall k :: k in d ==> k in lower && d[k] == lower[k]
    ensures ValuesOf(d)(u) <==> GoneMapped(ranges, lengths, |lengths|, 0)(u)
  {
    hide Eligible;
    if GoneMapped(ranges, lengths, |lengths|, 0)(u) {
      var j :| 0 <= j < |lengths| && InMapped(ranges, lengths, j, u);
      var k := ranges[2 * j] + u - ranges[2 * j + 1];
      assert InRange(ranges, lengths, j, k);
      assert k in d && d[k] == [u];
    }
    if ValuesOf(d)(u) {
      var k :| k in d && d[k] == [u];
      assert InRanges(ranges, lengths, k);
      var j :| 0 <= j < |lengths| && InRange(ranges, lengths, j, k);
      assert InMapped(ranges, lengths, j, u);
    }
  }

  lemma TakenFrom(lower: Letters, upper: Letters, d: Letters, lowerNow: Letters, upperNow: Letters, gone: int -> bool, goneUpper: int -> bool)
    requires forall k :: k in d ==> IsBidirectional(k, lower, upper) && d[k] == lower[k]
    requires forall k :: k in d <==> gone(k)
    requires forall u :: ValuesOf(d)(u) <==> goneUpper(u)
    requires Without(lowerNow, lower, gone) && Without(upperNow, upper, goneUpper)
    ensures TakenOut(lower, upper, d, lowerNow, upperNow)
  {
    hide IsBidirectional, ValuesOf;
    WithoutSame(lowerNow, lower, gone, KeysOf(d));
    WithoutSame(upperNow, upper, goneUpper, ValuesOf(d));
  }

  // What extract_ranges did to both tables.
  lemma RangesTakenOut(ranges: seq<int>, lengths: seq<nat>, lower: Letters, upper: Letters, lowerNow: Letters, upperNow: Letters)
    requires Extracted(ranges, lengths, lower, TwoWay(upper))
    requires Without(lowerNow, lower, GoneKeys(ranges, lengths, |lengths|, 0))
    requires Without(upperNow, upper, GoneMapped(ranges, lengths, |lengths|, 0))
    ensures TakenOut(lower, upper, DecodeRanges(ranges, lengths, |lengths|), lowerNow, upperNow)
  {
    ShapeOf(ranges, lengths, lower, TwoWay(upper));
    hide DecodeRanges, Extracted, InRange, IsBidirectional, ValuesOf, GoneMapped, Without, TakenOut;
    var d, n := DecodeRanges(ranges, lengths, |lengths|), |lengths|;
    DecodesTo(ranges, lengths, lower, TwoWay(upper));
    forall u ensures ValuesOf(d)(u) <==> GoneMapped(ranges, lengths, n, 0)(u) {
      RangeValue(ranges, lengths, lower, upper, d, u);
    }
    TakenFrom(lower, upper, d, lowerNow, upperNow, GoneKeys(ranges, lengths, n, 0), GoneMapped(ranges, lengths, n, 0));
  }

  lemma PairValue(starts: seq<int>, lengths: seq<nat>, d: Letters, u: int)
    requires |starts| == |lengths|
    requires forall k :: k in d <==> InPairRanges(starts, lengths, k)
    requires forall k :: k in d ==> d[k] == [k + 1]
    ensures ValuesOf(d)(u) <==> GoneUpper(starts, lengths, |lengths|, 0)(u)
  {
    assert GoneUpper(starts, lengths, |lengths|, 0)(u) <==> InPairRanges(starts, lengths, u - 1);
    hide InPairRanges, PairRemoved;
    if InPairRanges(starts, lengths, u - 1) {
      assert u - 1 in d && d[u - 1] == [u];
    }
  }

  lemma PairRangesTakenOut(starts: seq<int>, lengths: seq<nat>, lower: Letters, upper: Letters, lowerNow: Letters, upperNow: Letters)
    requires PairsExtracted(starts, lengths, lower, upper)
    requires Without(lowerNow, lower, GonePairs(starts, lengths, |lengths|, 0))
    requires Without(upperNow, upper, GoneUpper(starts, lengths, |lengths|, 0))
    ensures TakenOut(lower, upper, DecodePairRanges(starts, lengths, |lengths|), lowerNow, upperNow)
  {
    PairShape(starts, lengths, lower, upper);
    hide DecodePairRanges, PairsExtracted, InPairRange, IsBidirectional, ValuesOf, GoneUpper, Without, TakenOut;
    var d, n := DecodePairRanges(starts, lengths, |lengths|), |lengths|;
    PairsDecodeTo(starts, lengths, lower, upper);
    forall u ensures ValuesOf(d)(u) <==> GoneUpper(starts, lengths, n, 0)(u) {
      PairValue(starts, lengths, d, u);
    }
    TakenFrom(lower, upper, d, lowerNow, upperNow, GonePairs(starts, lengths, n, 0), GoneUpper(starts, lengths, n, 0));
  }

  lemma TakenTwiceValue(d: Letters, e: Letters, u: int)
    requires forall k :: k in e ==> k !in d
    ensures ValuesOf(d + e)(u) <==> ValuesOf(d)(u) || ValuesOf(e)(u)
  {
    if ValuesOf(d)(u) {
      var k :| k in d && d[k] == [u];
      assert k in d + e && (d + e)[k] == [u];
    }
    if ValuesOf(e)(u) {
      var k :| k in e && e[k] == [u];
      assert k in d + e && (d + e)[k] == [u];
    }
  }

  lemma TakenParts(lower: Letters, upper: Letters, d: Letters, lowerNow: Letters, upperNow: Letters, k: int)
    requires TakenOut(lower, upper, d, lowerNow, upperNow)
    ensures Without(lowerNow, lower, KeysOf(d)) && Without(upperNow, upper, ValuesOf(d))
    ensures k in d ==> IsBidirectional(k, lower, upper) && k in lower && d[k] == lower[k]
    ensures (k in lowerNow <==> k in lower && k !in d) && (k in lowerNow ==> lowerNow[k] == lower[k])
    ensures (k in upperNow <==> k in upper && !ValuesOf(d)(k)) && (k in upperNow ==> upperNow[k] == upper[k])
  {
    assert KeysOf(d)(k) <==> k in d;
    hide ValuesOf;
    WithoutAt(lowerNow, lower, KeysOf(d), k);
    WithoutAt(upperNow, upper, ValuesOf(d), k);
  }

  // Two steps are one step.
  lemma TakenTwice(lower: Letters, upper: Letters, d: Letters, lower1: Letters, upper1: Letters, e: Letters, lower2: Letters, upper2: Letters)
    requires TakenOut(lower, upper, d, lower1, upper1) && TakenOut(lower1, upper1, e, lower2, upper2)
    ensures Apart(d, e) && TakenOut(lower, upper, d + e, lower2, upper2)
  {
    hide TakenOut, IsBidirectional, ValuesOf, Without, KeysOf;
    var f := d + e;
    forall k
      ensures !(k in d && k in e) && (k in f ==> IsBidirectional(k, lower, upper) && k in lower && f[k] == lower[k])
      ensures (k in lower2 <==> k in lower && k !in f) && (k in lower2 ==> lower2[k] == lower[k])
    {
      TakenParts(lower, upper, d, lower1, upper1, k);
      TakenParts(lower1, upper1, e, lower2, upper2, k);
      StillBidirectional(lower, upper, d, lower1, upper1, k);
    }
    forall u ensures (u in upper2 <==> u in upper && !ValuesOf(f)(u)) && (u in upper2 ==> upper2[u] == upper[u]) {
      TakenTwiceValue(d, e, u);
      TakenParts(lower, upper, d, lower1, upper1, u);
      TakenParts(lower1, upper1, e, lower2, upper2, u);
    }
    TakenWhole(lower, upper, f, lower2, upper2);
  }

  lemma TakenWhole(lower: Letters, upper: Letters, d: Letters, lowerNow: Letters, upperNow: Letters)
    requires forall k :: k in d ==> IsBidirectional(k, lower, upper) && k in lower && d[k] == lower[k]
    requires forall k :: (k in lowerNow <==> k in lower && k !in d) && (k in lowerNow ==> lowerNow[k] == lower[k])
    requires forall u :: (u in upperNow <==> u in upper && !ValuesOf(d)(u)) && (u in upperNow ==> upperNow[u] == upper[u])
    ensures TakenOut(lower, upper, d, lowerNow, upperNow)
  {
    hide IsBidirectional, ValuesOf;
  }

  // Pairs that meet would have been one range.
  lemma NoPairsMeet(ranges: seq<int>, lengths: seq<nat>, lower: Letters, upper: Letters, lowerNow: Letters, upperNow: Letters)
    requires |ranges| == 2 * |lengths|
    requires TakenOut(lower, upper, DecodeRanges(ranges, lengths, |lengths|), lowerNow, upperNow)
    requires forall k :: k in DecodeRanges(ranges, lengths, |lengths|) <==> InRanges(ranges, lengths, k)
    requires forall k :: Joins(k, lower, TwoWay(upper)) ==> InRanges(ranges, lengths, k) && InRanges(ranges, lengths, k - 1)
    ensures PairsApart(lowerNow, upperNow) && NoClash(lowerNow, upperNow)
  {
    hide DecodeRanges, InRanges, IsPair, Joins, IsBidirectional;
    var d := DecodeRanges(ranges, lengths, |lengths|);
    forall k ensures !(IsPair(k, lowerNow, upperNow) && IsPair(k + 1, lowerNow, upperNow)) {
      if IsPair(k, lowerNow, upperNow) && Joins(k + 1, lower, TwoWay(upper)) {
        assert k + 1 in d;
      }
      PairsJoin(lower, upper, d, lowerNow, upperNow, k);
    }
  }

  lemma PairsJoin(lower: Letters, upper: Letters, d: Letters, lowerNow: Letters, upperNow: Letters, k: int)
    requires TakenOut(lower, upper, d, lowerNow, upperNow)
    ensures IsPair(k, lowerNow, upperNow) && IsPair(k + 1, lowerNow, upperNow) ==>
              Joins(k + 1, lower, TwoWay(upper)) && k + 1 !in d
  {
    StillBidirectional(lower, upper, d, lowerNow, upperNow, k);
    StillBidirectional(lower, upper, d, lowerNow, upperNow, k + 1);
    assert k in lowerNow ==> lowerNow[k] == lower[k];
    assert k + 1 in lowerNow ==> lowerNow[k + 1] == lower[k + 1];
  }

  datatype Tables = Tables(
    caseRanges: seq<int>, caseLengths: seq<nat>, pairStarts: seq<int>, pairLengths: seq<nat>, pairs: seq<int>,
    lowerRanges: seq<int>, lowerLengths: seq<nat>, conversions: seq<int>, counters: seq<nat>)

  predicate WellShaped(t: Tables) {
    && |t.caseRanges| == 2 * |t.caseLengths| && |t.pairStarts| == |t.pairLengths| && |t.pairs| % 2 == 0
    && |t.lowerRanges| == 2 * |t.lowerLengths|
    && |t.counters| == 3 && |t.conversions| == 2 * t.counters[0] + 3 * t.counters[1] + 4 * t.counters[2]
  }

  // The three tables of bidirectional entries.
  function DecodeTwoWay(t: Tables): Letters
    requires WellShaped(t)
  {
    DecodeRanges(t.caseRanges, t.caseLengths, |t.caseLengths|) + DecodePairRanges(t.pairStarts, t.pairLengths, |t.pairLengths|)
    + DecodePairs(t.pairs)
  }

  function DecodeLower(t: Tables): Letters
    requires WellShaped(t)
  {
    DecodeTwoWay(t) + DecodeRanges(t.lowerRanges, t.lowerLengths, |t.lowerLengths|) + DecodeConversions(t.conversions, t.counters)
  }

  ghost predicate Apart(a: Letters, b: Letters) {
    forall k :: !(k in a && k in b)
  }

  // No code point is in two tables.
  ghost predicate AllApart(t: Tables)
    requires WellShaped(t)
  {
    var a := DecodeRanges(t.caseRanges, t.caseLengths, |t.caseLengths|);
    var b := DecodePairRanges(t.pairStarts, t.pairLengths, |t.pairLengths|);
    var c := DecodePairs(t.pairs);
    var d := DecodeRanges(t.lowerRanges, t.lowerLengths, |t.lowerLengths|);
    var e := DecodeConversions(t.conversions, t.counters);
    Apart(a, b) && Apart(a + b, c) && Apart(a + b + c, d) && Apart(a + b + c + d, e)
  }

  // ---- no code point is listed twice in a table

  function TotalTo(lengths: seq<nat>, n: nat): nat
    requires n <= |lengths|
  {
    if n == 0 then 0 else TotalTo(lengths, n - 1) + lengths[n - 1]
  }

  // The number of code points that the tables list.
  function Entries(t: Tables): nat
    requires WellShaped(t)
  {
    TotalTo(t.caseLengths, |t.caseLengths|) + TotalTo(t.pairLengths, |t.pairLengths|) / 2 + |t.pairs| / 2
    + TotalTo(t.lowerLengths, |t.lowerLengths|) + t.counters[0] + t.counters[1] + t.counters[2]
  }

  function Interval(start: int, len: nat): (s: set<int>)
    ensures |s| == len && forall k :: k in s <==> start <= k < start + len
  {
    if len == 0 then {} else Interval(start, len - 1) + {start + len - 1}
  }

  function EveryOther(start: int, n: nat): (s: set<int>)
    ensures |s| == n && forall k :: k in s ==> start <= k < start + 2 * n
  {
    if n == 0 then {} else EveryOther(start, n - 1) + {start + 2 * n - 2}
  }

  lemma {:induction false} EveryOtherAt(start: int, n: nat, k: int)
    ensures k in EveryOther(start, n) <==> start <= k < start + 2 * n && (k - start) % 2 == 0
  {
    if n > 0 {
      EveryOtherAt(start, n - 1, k);
    }
  }

  lemma RangeSize(ranges: seq<int>, lengths: seq<nat>, j: nat)
    requires |ranges| == 2 * |lengths| && j < |lengths|
    ensures |DecodeRange(ranges, lengths, j)| == lengths[j]
  {
    assert DecodeRange(ranges, lengths, j).Keys == Interval(ranges[2 * j], lengths[j]);
  }

  // A range comes after the ranges before it.
  lemma RangeApart(ranges: seq<int>, lengths: seq<nat>, n: nat, m: Letters, r: Reverse)
    requires Extracted(ranges, lengths, m, r) && 0 < n <= |lengths|
    ensures |ranges| == 2 * |lengths| && Apart(DecodeRanges(ranges, lengths, n - 1), DecodeRange(ranges, lengths, n - 1))
  {
    ShapeOf(ranges, lengths, m, r);
    hide Eligible, DecodeRanges;
    var a, b := DecodeRanges(ranges, lengths, n - 1), DecodeRange(ranges, lengths, n - 1);
    forall k ensures !(k in a && k in b) {
      DecodesAt(ranges, lengths, n - 1, m, r, k);
    }
  }

  lemma {:induction false} RangesSize(ranges: seq<int>, lengths: seq<nat>, n: nat, m: Letters, r: Reverse)
    requires Extracted(ranges, lengths, m, r) && n <= |lengths|
    ensures |ranges| == 2 * |lengths| && |DecodeRanges(ranges, lengths, n)| == TotalTo(lengths, n)
  {
    hide *;
    ShapeOf(ranges, lengths, m, r);
    if n == 0 {
      RangesStep(ranges, lengths, 0, 0, 0);
    } else {
      RangesSize(ranges, lengths, n - 1, m, r);
      RangeSize(ranges, lengths, n - 1);
      RangeApart(ranges, lengths, n, m, r);
      RangesStep(ranges, lengths, n, TotalTo(lengths, n - 1), lengths[n - 1]);
    }
  }

  lemma RangesStep(ranges: seq<int>, lengths: seq<nat>, n: nat, x: nat, y: nat)
    requires |ranges| == 2 * |lengths| && n <= |lengths|
    requires n > 0 ==>
               && |DecodeRanges(ranges, lengths, n - 1)| == x && |DecodeRange(ranges, lengths, n - 1)| == y
               && Apart(DecodeRanges(ranges, lengths, n - 1), DecodeRange(ranges, lengths, n - 1))
    ensures n == 0 ==> |DecodeRanges(ranges, lengths, n)| == 0 && TotalTo(lengths, n) == 0
    ensures n > 0 ==> |DecodeRanges(ranges, lengths, n)| == x + y && TotalTo(lengths, n) == TotalTo(lengths, n - 1) + lengths[n - 1]
  {
    hide DecodeRange, Apart;
    if n > 0 {
      SizeAdds(DecodeRanges(ranges, lengths, n - 1), DecodeRange(ranges, lengths, n - 1), DecodeRanges(ranges, lengths, n), x, y);
    }
  }

  lemma PairRangesStep(starts: seq<int>, lengths: seq<nat>, n: nat, x: nat, y: nat)
    requires |starts| == |lengths| && n <= |lengths|
    requires n > 0 ==>
               && |DecodePairRanges(starts, lengths, n - 1)| == x && |DecodePairRange(starts, lengths, n - 1)| == y
               && Apart(DecodePairRanges(starts, lengths, n - 1), DecodePairRange(starts, lengths, n - 1))
    ensures n == 0 ==> |DecodePairRanges(starts, lengths, n)| == 0 && TotalTo(lengths, n) == 0
    ensures n > 0 ==> |DecodePairRanges(starts, lengths, n)| == x + y && TotalTo(lengths, n) == TotalTo(lengths, n - 1) + lengths[n - 1]
  {
    hide DecodePairRange, Apart;
    if n > 0 {
      SizeAdds(DecodePairRanges(starts, lengths, n - 1), DecodePairRange(starts, lengths, n - 1), DecodePairRanges(starts, lengths, n), x, y);
    }
  }

  lemma PairRangeSize(starts: seq<int>, lengths: seq<nat>, j: nat)
    requires |starts| == |lengths| && j < |lengths| && lengths[j] % 2 == 0
    ensures |DecodePairRange(starts, lengths, j)| == lengths[j] / 2
  {
    var d, e := DecodePairRange(starts, lengths, j), EveryOther(starts[j], lengths[j] / 2);
    forall k ensures k in d <==> k in e {
      EveryOtherAt(starts[j], lengths[j] / 2, k);
    }
    assert d.Keys == e;
  }

  lemma PairRangeApart(starts: seq<int>, lengths: seq<nat>, n: nat, lower: Letters, upper: Letters)
    requires PairsExtracted(starts, lengths, lower, upper) && 0 < n <= |lengths|
    ensures |starts| == |lengths| && lengths[n - 1] % 2 == 0
    ensures Apart(DecodePairRanges(starts, lengths, n - 1), DecodePairRange(starts, lengths, n - 1))
  {
    hide IsPair, DecodePairRanges;
    var a, b := DecodePairRanges(starts, lengths, n - 1), DecodePairRange(starts, lengths, n - 1);
    forall k ensures !(k in a && k in b) {
      PairDecodesAt(starts, lengths, n - 1, lower, upper, k);
    }
  }

  lemma {:induction false} PairRangesSize(starts: seq<int>, lengths: seq<nat>, n: nat, lower: Letters, upper: Letters)
    requires PairsExtracted(starts, lengths, lower, upper) && n <= |lengths|
    ensures |starts| == |lengths|
    ensures TotalTo(lengths, n) % 2 == 0 && |DecodePairRanges(starts, lengths, n)| == TotalTo(lengths, n) / 2
  {
    hide *;
    PairLengths(starts, lengths, lower, upper);
    if n == 0 {
      PairRangesStep(starts, lengths, 0, 0, 0);
    } else {
      PairRangesSize(starts, lengths, n - 1, lower, upper);
      PairRangeApart(starts, lengths, n, lower, upper);
      PairRangeSize(starts, lengths, n - 1);
      PairRangesStep(starts, lengths, n, TotalTo(lengths, n - 1) / 2, lengths[n - 1] / 2);
      HalvesAdd(TotalTo(lengths, n - 1), lengths[n - 1]);
    }
  }

  lemma HalvesAdd(x: nat, y: nat)
    requires x % 2 == 0 && y % 2 == 0
    ensures (x + y) % 2 == 0 && (x + y) / 2 == x / 2 + y / 2
  {}

  lemma PairLengths(starts: seq<int>, lengths: seq<nat>, lower: Letters, upper: Letters)
    requires PairsExtracted(starts, lengths, lower, upper)
    ensures |starts| == |lengths|
  {}

  // Keys before x.
  lemma {:induction false} PairKeysBefore(pairs: seq<int>, x: int)
    requires |pairs| % 2 == 0 && forall i :: 0 <= i < |pairs| / 2 ==> pairs[2 * i] < x
    ensures forall k :: k in DecodePairs(pairs) ==> k < x
    decreases |pairs|
  {
    if pairs != [] {
      var n := |pairs| - 2;
      forall i | 0 <= i < |pairs[..n]| / 2 ensures pairs[..n][2 * i] < x {
        assert pairs[2 * i] < x;
      }
      PairKeysBefore(pairs[..n], x);
      assert pairs[2 * (n / 2)] < x;
    }
  }

  lemma {:induction false} PairsSize(pairs: seq<int>)
    requires |pairs| % 2 == 0 && AscendingPairs(pairs)
    ensures |DecodePairs(pairs)| == |pairs| / 2
    decreases |pairs|
  {
    if pairs != [] {
      var n := |pairs| - 2;
      var p := pairs[..n];
      forall i, j | 0 <= i < j < |p| / 2 ensures p[2 * i] < p[2 * j] {
        assert pairs[2 * i] < pairs[2 * j];
      }
      forall i | 0 <= i < |p| / 2 ensures p[2 * i] < pairs[n] {
        assert pairs[2 * i] < pairs[2 * (n / 2)];
      }
      PairsSize(p);
      PairKeysBefore(p, pairs[n]);
      SizeOneMore(DecodePairs(p), pairs[n], [pairs[n + 1]]);
    }
  }

  // Tables that are apart, and list no code point twice each.
  lemma EntriesAre(t: Tables)
    requires WellShaped(t) && AllApart(t)
    requires |DecodeRanges(t.caseRanges, t.caseLengths, |t.caseLengths|)| == TotalTo(t.caseLengths, |t.caseLengths|)
    requires |DecodePairRanges(t.pairStarts, t.pairLengths, |t.pairLengths|)| == TotalTo(t.pairLengths, |t.pairLengths|) / 2
    requires |DecodePairs(t.pairs)| == |t.pairs| / 2
    requires |DecodeRanges(t.lowerRanges, t.lowerLengths, |t.lowerLengths|)| == TotalTo(t.lowerLengths, |t.lowerLengths|)
    requires |DecodeConversions(t.conversions, t.counters)| == t.counters[0] + t.counters[1] + t.counters[2]
    ensures |DecodeLower(t)| == Entries(t)
  {
    hide DecodeRanges, DecodePairRanges, DecodePairs, DecodeConversions, TotalTo, Apart;
    var a, b, c := DecodeRanges(t.caseRanges, t.caseLengths, |t.caseLengths|),
                   DecodePairRanges(t.pairStarts, t.pairLengths, |t.pairLengths|), DecodePairs(t.pairs);
    var d, e := DecodeRanges(t.lowerRanges, t.lowerLengths, |t.lowerLengths|), DecodeConversions(t.conversions, t.counters);
    SizeOfSum(a, b);
    SizeOfSum(a + b, c);
    SizeOfSum(a + b + c, d);
    SizeOfSum(a + b + c + d, e);
  }

  // The inverse of some bidirectional entry.
  ghost function InverseOf(lower: Letters, upper: Letters): int -> bool {
    (u: int) => exists k :: IsBidirectional(k, lower, upper) && lower[k] == [u]
  }

  lemma AllTwoWay(lower: Letters, upper: Letters, d: Letters, lower2: Letters, upper2: Letters, e: Letters)
    requires TakenOut(lower, upper, d, lower2, upper2)
    requires forall k :: IsBidirectional(k, lower2, upper2) ==> k in e
    ensures forall k :: IsBidirectional(k, lower, upper) ==> k in d + e
  {
    hide IsBidirectional, TakenOut;
    forall k | IsBidirectional(k, lower, upper) ensures k in d + e {
      StillBidirectional(lower, upper, d, lower2, upper2, k);
    }
  }

  lemma InversesGone(lower: Letters, upper: Letters, d: Letters, lowerNow: Letters, upperNow: Letters)
    requires TakenOut(lower, upper, d, lowerNow, upperNow)
    requires forall k :: IsBidirectional(k, lower, upper) ==> k in d
    ensures Without(upperNow, upper, InverseOf(lower, upper))
  {
    forall u ensures ValuesOf(d)(u) <==> InverseOf(lower, upper)(u) {
      if ValuesOf(d)(u) {
        var k :| k in d && d[k] == [u];
        assert IsBidirectional(k, lower, upper) && lower[k] == [u];
      }
      if InverseOf(lower, upper)(u) {
        var k :| IsBidirectional(k, lower, upper) && lower[k] == [u];
        assert k in d && d[k] == [u];
      }
    }
    hide IsBidirectional;
    WithoutSame(upperNow, upper, ValuesOf(d), InverseOf(lower, upper));
  }

  lemma PutTogether(lower: Letters, d: Letters, rest: Letters, e: Letters, last: Letters)
    requires forall k :: k in d ==> k in lower && d[k] == lower[k]
    requires Without(rest, lower, KeysOf(d)) && Without(last, rest, KeysOf(e))
    requires forall k :: k in e ==> k in rest && e[k] == rest[k]
    ensures d + e + last == lower && Apart(d, e) && Apart(d + e, last)
  {
    forall k ensures (k in d + e + last <==> k in lower) && (k in lower ==> (d + e + last)[k] == lower[k])
                     && !(k in d && k in e) && !(k in d + e && k in last)
    {
      WithoutAt(rest, lower, KeysOf(d), k);
      WithoutAt(last, rest, KeysOf(e), k);
    }
    SameMap(d + e + last, lower);
  }

  lemma TakenKeys(lower: Letters, upper: Letters, d: Letters, lowerNow: Letters, upperNow: Letters)
    requires TakenOut(lower, upper, d, lowerNow, upperNow)
    ensures forall k :: k in d ==> k in lower && d[k] == lower[k]
    ensures Without(lowerNow, lower, KeysOf(d))
  {}

  lemma OneWayTaken(ranges: seq<int>, lengths: seq<nat>, m: Letters, now: Letters)
    requires Extracted(ranges, lengths, m, OneWay) && Without(now, m, GoneKeys(ranges, lengths, |lengths|, 0))
    ensures forall k :: k in DecodeRanges(ranges, lengths, |lengths|) ==>
              k in m && DecodeRanges(ranges, lengths, |lengths|)[k] == m[k]
    ensures Without(now, m, KeysOf(DecodeRanges(ranges, lengths, |lengths|)))
  {
    hide DecodeRanges, InRange, Without;
    DecodesTo(ranges, lengths, m, OneWay);
    WithoutSame(now, m, GoneKeys(ranges, lengths, |lengths|, 0), KeysOf(DecodeRanges(ranges, lengths, |lengths|)));
  }

  lemma SmallerOneToThree(now: Letters, was: Letters, gone: int -> bool)
    requires OneToThree(was) && Without(now, was, gone)
    ensures OneToThree(now)
  {}

  lemma TwoWayMeans(ranges: seq<int>, lengths: seq<nat>, lower: Letters, upper: Letters)
    requires Extracted(ranges, lengths, lower, TwoWay(upper))
    ensures |ranges| == 2 * |lengths|
    ensures forall k :: k in DecodeRanges(ranges, lengths, |lengths|) <==> InRanges(ranges, lengths, k)
  {
    ShapeOf(ranges, lengths, lower, TwoWay(upper));
    hide DecodeRanges, InRanges, Extracted;
    DecodesTo(ranges, lengths, lower, TwoWay(upper));
  }

  lemma TablesDecode(t: Tables, lower: Letters, upper: Letters, d: Letters, upperNow: Letters, lowerNow: Letters)
    requires WellShaped(t) && d == DecodeTwoWay(t)
    requires var a, b := DecodeRanges(t.caseRanges, t.caseLengths, |t.caseLengths|),
                         DecodePairRanges(t.pairStarts, t.pairLengths, |t.pairLengths|);
             Apart(a, b) && Apart(a + b, DecodePairs(t.pairs))
    requires var e, last := DecodeRanges(t.lowerRanges, t.lowerLengths, |t.lowerLengths|), DecodeConversions(t.conversions, t.counters);
             d + e + last == lower && Apart(d, e) && Apart(d + e, last)
    requires TakenOut(lower, upper, d, lowerNow, upperNow) && forall k :: IsBidirectional(k, lower, upper) ==> k in d
    ensures DecodeLower(t) == lower && AllApart(t)
    ensures forall k :: k in DecodeTwoWay(t) <==> IsBidirectional(k, lower, upper)
  {
    hide DecodeRanges, DecodePairRanges, DecodePairs, DecodeConversions, IsBidirectional, Without, Apart;
  }

  // k and u are each other's case.
  ghost predicate Mutual(k: int, u: int, lower: Letters, upper: Letters) {
    k in lower && lower[k] == [u] && u in upper && upper[u] == [k]
  }

  lemma MutualMeans(lower: Letters, upper: Letters)
    ensures forall k :: IsBidirectional(k, lower, upper) <==> exists u :: Mutual(k, u, lower, upper)
    ensures forall u :: InverseOf(lower, upper)(u) <==> exists k :: Mutual(k, u, lower, upper)
  {
    forall k ensures IsBidirectional(k, lower, upper) <==> exists u :: Mutual(k, u, lower, upper) {
      if IsBidirectional(k, lower, upper) {
        assert Mutual(k, lower[k][0], lower, upper);
      }
    }
    forall u ensures InverseOf(lower, upper)(u) <==> exists k :: Mutual(k, u, lower, upper) {
      if InverseOf(lower, upper)(u) {
        var k :| IsBidirectional(k, lower, upper) && lower[k] == [u];
        assert Mutual(k, u, lower, upper);
      }
      if k :| Mutual(k, u, lower, upper) {
        assert IsBidirectional(k, lower, upper) && lower[k] == [u];
      }
    }
  }

  // The letters that have a mutual one are gone, and nothing else changed.
  ghost predicate LosesMutual(now: Letters, lower: Letters, upper: Letters) {
    forall u :: (u in now <==> u in upper && !exists k :: Mutual(k, u, lower, upper)) && (u in now ==> u in upper && now[u] == upper[u])
  }

  lemma LosesMutualIs(now: Letters, lower: Letters, upper: Letters)
    requires Without(now, upper, InverseOf(lower, upper))
    ensures LosesMutual(now, lower, upper)
  {
    MutualMeans(lower, upper);
    hide Mutual, InverseOf;
  }

  // Whatever can be in a range is in one: neighbours that go to neighbours, mutual ones in the first
  // table and others in the last; and what is left of the mutual ones that go to the next letter.
  ghost predicate Compressed(t: Tables, lower: Letters, upper: Letters)
    requires WellShaped(t)
  {
    && (forall k, u :: MutualNeighbours(k, u, lower, upper) ==>
          InRanges(t.caseRanges, t.caseLengths, k - 1) && InRanges(t.caseRanges, t.caseLengths, k))
    && (forall k :: Mutual(k, k + 1, lower, upper) ==>
          InRanges(t.caseRanges, t.caseLengths, k) || InPairRanges(t.pairStarts, t.pairLengths, k))
    && (forall k :: OneWayNeighbours(k, lower, DecodeTwoWay(t)) ==>
          InRanges(t.lowerRanges, t.lowerLengths, k - 1) && InRanges(t.lowerRanges, t.lowerLengths, k))
  }

  ghost predicate MutualNeighbours(k: int, u: int, lower: Letters, upper: Letters) {
    Mutual(k - 1, u, lower, upper) && Mutual(k, u + 1, lower, upper)
  }

  ghost predicate OneWayNeighbours(k: int, lower: Letters, twoWay: Letters) {
    && k - 1 in lower && k in lower && k - 1 !in twoWay && k !in twoWay
    && |lower[k - 1]| == 1 && lower[k] == [lower[k - 1][0] + 1]
  }

  lemma MutualJoins(ranges: seq<int>, lengths: seq<nat>, lower: Letters, upper: Letters)
    requires |ranges| == 2 * |lengths|
    requires forall k :: Joins(k, lower, TwoWay(upper)) ==> InRanges(ranges, lengths, k) && InRanges(ranges, lengths, k - 1)
    ensures forall k, u :: MutualNeighbours(k, u, lower, upper) ==>
              InRanges(ranges, lengths, k - 1) && InRanges(ranges, lengths, k)
  {
    hide InRanges;
    forall k, u | MutualNeighbours(k, u, lower, upper)
      ensures InRanges(ranges, lengths, k - 1) && InRanges(ranges, lengths, k)
    {
      assert Joins(k, lower, TwoWay(upper));
    }
  }

  lemma MutualPairs(ranges: seq<int>, lengths: seq<nat>, starts: seq<int>, pairLengths: seq<nat>, lower: Letters, upper: Letters,
                    lowerNow: Letters, upperNow: Letters)
    requires |ranges| == 2 * |lengths| && |starts| == |pairLengths|
    requires TakenOut(lower, upper, DecodeRanges(ranges, lengths, |lengths|), lowerNow, upperNow)
    requires forall k :: k in DecodeRanges(ranges, lengths, |lengths|) <==> InRanges(ranges, lengths, k)
    requires forall k :: IsPair(k, lowerNow, upperNow) ==> InPairRanges(starts, pairLengths, k)
    ensures forall k :: Mutual(k, k + 1, lower, upper) ==> InRanges(ranges, lengths, k) || InPairRanges(starts, pairLengths, k)
  {
    hide InRanges, InPairRanges, DecodeRanges;
    forall k | Mutual(k, k + 1, lower, upper) ensures InRanges(ranges, lengths, k) || InPairRanges(starts, pairLengths, k) {
      PairLeft(DecodeRanges(ranges, lengths, |lengths|), lower, upper, lowerNow, upperNow, k);
    }
  }

  lemma PairLeft(d: Letters, lower: Letters, upper: Letters, lowerNow: Letters, upperNow: Letters, k: int)
    requires TakenOut(lower, upper, d, lowerNow, upperNow) && Mutual(k, k + 1, lower, upper)
    ensures k in d || IsPair(k, lowerNow, upperNow)
  {
    StillBidirectional(lower, upper, d, lowerNow, upperNow, k);
    if k !in d {
      WithoutAt(lowerNow, lower, KeysOf(d), k);
    }
  }

  lemma OneWayJoins(ranges: seq<int>, lengths: seq<nat>, lower: Letters, d: Letters, rest: Letters)
    requires |ranges| == 2 * |lengths| && Without(rest, lower, KeysOf(d))
    requires forall k :: Joins(k, rest, OneWay) ==> InRanges(ranges, lengths, k) && InRanges(ranges, lengths, k - 1)
    ensures forall k :: OneWayNeighbours(k, lower, d) ==> InRanges(ranges, lengths, k - 1) && InRanges(ranges, lengths, k)
  {
    hide InRanges;
    forall k | OneWayNeighbours(k, lower, d) ensures InRanges(ranges, lengths, k - 1) && InRanges(ranges, lengths, k) {
      WithoutAt(rest, lower, KeysOf(d), k);
      WithoutAt(rest, lower, KeysOf(d), k - 1);
      assert Joins(k, rest, OneWay);
    }
  }

  lemma CompressedIs(t: Tables, lower: Letters, upper: Letters, d: Letters)
    requires WellShaped(t) && DecodeTwoWay(t) == d
    requires forall k, u :: MutualNeighbours(k, u, lower, upper) ==>
               InRanges(t.caseRanges, t.caseLengths, k - 1) && InRanges(t.caseRanges, t.caseLengths, k)
    requires forall k :: Mutual(k, k + 1, lower, upper) ==>
               InRanges(t.caseRanges, t.caseLengths, k) || InPairRanges(t.pairStarts, t.pairLengths, k)
    requires forall k :: OneWayNeighbours(k, lower, d) ==>
               InRanges(t.lowerRanges, t.lowerLengths, k - 1) && InRanges(t.lowerRanges, t.lowerLengths, k)
    ensures Compressed(t, lower, upper)
  {
    hide InRanges, InPairRanges, Mutual, MutualNeighbours, OneWayNeighbours, DecodeTwoWay;
  }

  // Ranges, with their lengths, are in order and do not overlap, and the keys of single pairs and of
  // conversions ascend.
  ghost predicate InOrder(t: Tables)
    requires WellShaped(t)
  {
    && (forall j, l :: 0 <= j < l < |t.caseLengths| ==> t.caseRanges[2 * j] + t.caseLengths[j] <= t.caseRanges[2 * l])
    && (forall j, l :: 0 <= j < l < |t.pairLengths| ==> t.pairStarts[j] + t.pairLengths[j] <= t.pairStarts[l])
    && (forall j, l :: 0 <= j < l < |t.pairs| / 2 ==> t.pairs[2 * j] < t.pairs[2 * l])
    && (forall j, l :: 0 <= j < l < |t.lowerLengths| ==> t.lowerRanges[2 * j] + t.lowerLengths[j] <= t.lowerRanges[2 * l])
    && PartsAscend(t.conversions, t.counters)
  }

  // Without pairs that meet, ranges of pairs do not overlap.
  lemma PairRangesOrdered(starts: seq<int>, lengths: seq<nat>, lower: Letters, upper: Letters)
    requires PairsExtracted(starts, lengths, lower, upper) && PairsApart(lower, upper)
    ensures |starts| == |lengths| && forall j, l :: 0 <= j < l < |lengths| ==> starts[j] + lengths[j] <= starts[l]
  {
    hide IsPair;
    forall j, l | 0 <= j < l < |lengths| ensures starts[j] + lengths[j] <= starts[l] {
      var k := starts[j] + lengths[j] - 2;
      assert InPairRange(starts, lengths, j, k) && InPairRange(starts, lengths, l, starts[l]);
      assert !(IsPair(k, lower, upper) && IsPair(k + 1, lower, upper));
    }
  }

  lemma TablesOrdered(t: Tables, m: Letters, r: Reverse, last: Letters)
    requires WellShaped(t) && Extracted(t.caseRanges, t.caseLengths, m, r) && Extracted(t.lowerRanges, t.lowerLengths, last, OneWay)
    requires forall j, l :: 0 <= j < l < |t.pairLengths| ==> t.pairStarts[j] + t.pairLengths[j] <= t.pairStarts[l]
    requires AscendingPairs(t.pairs) && PartsAscend(t.conversions, t.counters)
    ensures InOrder(t)
  {
    hide Eligible, PartsAscend;
  }

  // The tables decode to the lower case table they were made from, no code point is listed twice,
  // in one table or in two, and the upper case table loses exactly the inverses of the
  // bidirectional entries. All tables are in order, as the searches in them need it, and whatever can
  // be in a range is in one.
  method GenerateConversions(lowerCase: CaseTable, upperCase: CaseTable) returns (t: Tables)
    requires lowerCase != upperCase && OneToThree(lowerCase.letters)
    modifies lowerCase, upperCase
    ensures WellShaped(t) && DecodeLower(t) == old(lowerCase.letters) && AllApart(t) && lowerCase.letters == map[]
    ensures Entries(t) == |DecodeLower(t)| && InOrder(t)
    ensures forall k :: k in DecodeTwoWay(t) <==> exists u :: Mutual(k, u, old(lowerCase.letters), old(upperCase.letters))
    ensures LosesMutual(upperCase.letters, old(lowerCase.letters), old(upperCase.letters))
    ensures Compressed(t, old(lowerCase.letters), old(upperCase.letters))
  {
    hide *;
    ghost var l0, u0 := lowerCase.letters, upperCase.letters;
    ReverseIs(upperCase);
    var caseRanges, caseLengths := ExtractRanges(lowerCase, upperCase);
    ghost var l1, u1 := lowerCase.letters, upperCase.letters;
    TwoWayMeans(caseRanges, caseLengths, l0, u0);
    ghost var a := DecodeRanges(caseRanges, caseLengths, |caseLengths|);
    RangesTakenOut(caseRanges, caseLengths, l0, u0, l1, u1);
    RangesSize(caseRanges, caseLengths, |caseLengths|, l0, TwoWay(u0));
    NoPairsMeet(caseRanges, caseLengths, l0, u0, l1, u1);
    MutualJoins(caseRanges, caseLengths, l0, u0);
    SmallerOneToThree(l1, l0, GoneKeys(caseRanges, caseLengths, |caseLengths|, 0));

    var pairStarts, pairLengths, ok := ExtractCharacterPairRanges(lowerCase, upperCase);
    assert ok;
    ghost var l2, u2 := lowerCase.letters, upperCase.letters;
    ghost var b := DecodePairRanges(pairStarts, pairLengths, |pairLengths|);
    TakenTwice(l0, u0, a, l1, u1, b, l2, u2);
    PairRangesSize(pairStarts, pairLengths, |pairLengths|, l1, u1);
    PairRangesOrdered(pairStarts, pairLengths, l1, u1);
    MutualPairs(caseRanges, caseLengths, pairStarts, pairLengths, l0, u0, l1, u1);

    var pairs := ExtractCharacterPairs(lowerCase, upperCase);
    ghost var l3, u3, c := lowerCase.letters, upperCase.letters, DecodePairs(pairs);
    TakenTwice(l0, u0, a + b, l2, u2, c, l3, u3);
    PairsSize(pairs);
    AllTwoWay(l0, u0, a + b, l2, u2, c);
    InversesGone(l0, u0, a + b + c, l3, u3);
    TakenKeys(l0, u0, a + b + c, l3, u3);
    SmallerOneToThree(l3, l0, KeysOf(a + b + c));

    var lowerRanges, lowerLengths := ExtractRanges(lowerCase, null);
    ghost var l4 := lowerCase.letters;
    NoReverse();
    ShapeOf(lowerRanges, lowerLengths, l3, OneWay);
    RangesSize(lowerRanges, lowerLengths, |lowerLengths|, l3, OneWay);
    OneWayTaken(lowerRanges, lowerLengths, l3, l4);
    OneWayJoins(lowerRanges, lowerLengths, l0, a + b + c, l3);
    SmallerOneToThree(l4, l3, GoneKeys(lowerRanges, lowerLengths, |lowerLengths|, 0));
    var conversions, counters := ExtractConversions(lowerCase);
    t := Tables(caseRanges, caseLengths, pairStarts, pairLengths, pairs, lowerRanges, lowerLengths, conversions, counters);
    PutTogether(l0, a + b + c, l3, DecodeRanges(lowerRanges, lowerLengths, |lowerLengths|), l4);
    ShapesHold(t);
    TablesDecode(t, l0, u0, a + b + c, u3, l3);
    EntriesAre(t);
    TablesOrdered(t, l0, TwoWay(u0), l3);
    MutualMeans(l0, u0);
    LosesMutualIs(upperCase.letters, l0, u0);
    CompressedIs(t, l0, u0, a + b + c);
  }

  lemma ShapesHold(t: Tables)
    requires |t.caseRanges| == 2 * |t.caseLengths| && |t.pairStarts| == |t.pairLengths| && |t.pairs| % 2 == 0
    requires |t.lowerRanges| == 2 * |t.lowerLengths|
    requires |t.counters| == 3 && |t.conversions| == 2 * t.counters[0] + 3 * t.counters[1] + 4 * t.counters[2]
    ensures WellShaped(t)
    ensures DecodeTwoWay(t) == DecodeRanges(t.caseRanges, t.caseLengths, |t.caseLengths|)
                               + DecodePairRanges(t.pairStarts, t.pairLengths, |t.pairLengths|) + DecodePairs(t.pairs)
  {}

  lemma ReverseIs(reverse: CaseTable)
    ensures ReverseOf(reverse) == TwoWay(reverse.letters)
  {}

  lemma NoReverse()
    ensures ReverseOf(null) == OneWay
  {}
}
