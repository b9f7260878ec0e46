// The list of the strings of a snapshot (list mode of jerry_get_literals_from_snapshot).
module SnapshotLiterals {
  import opened Bytes
  import opened Snapshot
  import opened SnapshotPasses
  import opened SnapshotFile
  import opened SnapshotReach
  import opened SnapshotSave
  import opened SnapshotMerge
  import opened HeapSort
  import opened LiteralList

  // The strings of the engine: the bytes of a value, and whether it is a magic string.
  datatype Strings = Strings(bytes: u32 -> seq<u8>, magic: u32 -> bool)

  // The empty string is a magic one, and sizes have 32 bits.
  ghost predicate SaneStrings(names: Strings) {
    forall v :: IsString(v) && !names.magic(v) ==> 0 < |names.bytes(v)| < 0x1_0000_0000
  }

  // ---- the strings among the values

  predicate IsListed(names: Strings, v: u32) {
    IsString(v) && !names.magic(v)
  }

  function Listed(names: Strings, pool: seq<u32>): seq<u32> {
    if pool == [] then []
    else
      var n := |pool| - 1;
      Listed(names, pool[..n]) + if IsListed(names, pool[n]) then [pool[n]] else []
  }

  function TextsOf(names: Strings, values: seq<u32>): (r: seq<Literal>)
    ensures |r| == |values|
  {
    seq(|values|, i requires 0 <= i < |values| => names.bytes(values[i]))
  }

  lemma {:induction false} ListedAre(names: Strings, pool: seq<u32>)
    requires Distinct(pool)
    ensures Distinct(Listed(names, pool))
    ensures forall v :: v in Listed(names, pool) <==> v in pool && IsListed(names, v)
  {
    hide IsListed;
    if pool != [] {
      var n := |pool| - 1;
      ListedAre(names, pool[..n]);
      assert pool == pool[..n] + [pool[n]];
      assert pool[n] !in pool[..n];
    }
  }

  lemma ListedNext(names: Strings, pool: seq<u32>, i: nat)
    requires i < |pool|
    ensures Listed(names, pool[..i + 1]) == if IsListed(names, pool[i]) then Listed(names, pool[..i]) + [pool[i]] else Listed(names, pool[..i])
  {
    hide IsListed;
    assert pool[..i + 1][..i] == pool[..i];
  }

  lemma {:induction false} ListedShorter(names: Strings, pool: seq<u32>, i: nat)
    requires i <= |pool|
    ensures |Listed(names, pool[..i])| <= |Listed(names, pool)|
    decreases |pool| - i
  {
    hide IsListed, Listed;
    if i < |pool| {
      ListedNext(names, pool, i);
      ListedShorter(names, pool, i + 1);
    } else {
      assert pool[..i] == pool;
    }
  }

  lemma TextsNext(names: Strings, values: seq<u32>, v: u32)
    ensures TextsOf(names, values + [v]) == TextsOf(names, values) + [names.bytes(v)]
  {}

  // There are fewer than 2^30 distinct values of a type.
  lemma {:induction false} AtMostSoMany(s: seq<int>, n: nat)
    requires forall i, j :: 0 <= i < j < |s| ==> s[i] != s[j]
    requires forall i :: 0 <= i < |s| ==> 0 <= s[i] < n
    ensures |s| <= n
    decreases n
  {
    if s != [] {
      assert 0 <= s[0] < n;
      if k :| 0 <= k < |s| && s[k] == n - 1 {
        AtMostSoMany(s[..k] + s[k + 1..], n - 1);
      } else {
        AtMostSoMany(s, n - 1);
      }
    }
  }

  lemma ListedFew(names: Strings, pool: seq<u32>)
    requires Distinct(pool)
    ensures |Listed(names, pool)| <= 0x4000_0000
  {
    ListedAre(names, pool);
    hide Listed;
    var values := Listed(names, pool);
    var quarters := seq(|values|, i requires 0 <= i < |values| => values[i] / 4);
    forall i | 0 <= i < |values| ensures values[i] % 4 == 1 {
      assert values[i] in values;
    }
    AtMostSoMany(quarters, 0x4000_0000);
  }

  // ---- the list

  // The non-magic strings that the functions of the file lead to.
  ghost predicate IsUsed(file: seq<u8>, lit: Storage, names: Strings, v: u32) {
    v % 4 == 1 && !names.magic(v) && Leads(file, lit, v)
  }

  // Reading the text with a zero byte behind it finds the literals in order.
  ghost predicate ReadsBack(text: seq<u8>, literals: seq<Literal>) {
    && text != [] && |ParseItems(text + [0], |text|, 0)| == |literals|
    && forall i :: 0 <= i < |literals| ==>
         var item := ParseItems(text + [0], |text|, 0)[i];
         item.start + item.length <= |text| + 1 && (text + [0])[item.start..item.start + item.length] == literals[i]
  }

  // The sorted texts of the values.
  ghost predicate SortedTexts(literals: seq<Literal>, names: Strings, values: seq<u32>) {
    InSizeOrder(literals) && multiset(literals) == multiset(TextsOf(names, values))
  }

  // values are the strings that are used; their texts, sorted, are written if they fit, and
  // what was written is read back as the same texts.
  method GetLiterals(file: seq<u8>, lit: Storage, names: Strings, out: array<u8>)
    returns (size: nat, ghost values: seq<u32>, ghost literals: seq<Literal>)
    requires SaneStrings(names) && (|file| > 24 && HasMagic(file) ==> IsSaved(file, lit))
    modifies out
    ensures |file| <= 24 || !HasMagic(file) ==> size == 0 && out[..] == old(out[..])
    ensures |file| > 24 && HasMagic(file) ==>
              && Distinct(values) && (forall v :: v in values <==> IsUsed(file, lit, names, v))
              && SortedTexts(literals, names, values)
              && size == if |Text(literals)| <= out.Length then |Text(literals)| else 0
    ensures size > 0 ==> out[..size] == Text(literals) && ReadsBack(out[..size], literals) && out[size..] == old(out[..])[size..]
  {
    hide *;
    ghost var b := out[..];
    size, values, literals := 0, [], [];
    if |file| <= 24 || !HasMagic(file) {
      return;
    }
    var region, pool := Scan(file, lit);
    values := Listed(names, pool);
    UsedAre(file, lit, names, region, pool);
    ListedFew(names, pool);
    ListedNone(names);
    var count: nat := 0;
    for i := 0 to |pool|
      invariant count == |Listed(names, pool[..i])| && out[..] == b
    {
      ListedNext(names, pool, i);
      if IsListed(names, pool[i]) {
        count := count + 1;
      }
    }
    assert pool[..|pool|] == pool;
    if count == 0 {
      EmptyList(names, values);
      return;
    }
    var texts: array<Literal> := new Literal[count](_ => []);
    var n: nat := 0;
    for i := 0 to |pool|
      invariant n == |Listed(names, pool[..i])| <= count
      invariant texts[..n] == TextsOf(names, Listed(names, pool[..i]))
      invariant out[..] == b
    {
      ListedNext(names, pool, i);
      ListedShorter(names, pool, i + 1);
      if IsListed(names, pool[i]) {
        TextsNext(names, Listed(names, pool[..i]), pool[i]);
        texts[n] := names.bytes(pool[i]);
        n := n + 1;
        assert texts[..n] == texts[..n - 1] + [names.bytes(pool[i])];
      }
    }
    assert pool[..|pool|] == pool && texts[..n] == texts[..];
    Sort(texts);
    literals := texts[..];
    SortedAre(literals, names, values, pool);
    size := WriteList(texts[..], out);
    if size > 0 {
      ListRoundTrip(literals, Text(literals) + [0]);
      ReadBackIs(Text(literals), literals);
    }
  }

  // The scan of the code area of the file.
  method Scan(file: seq<u8>, lit: Storage) returns (region: seq<u8>, pool: seq<u32>)
    requires |file| > 24 && HasMagic(file) && IsSaved(file, lit)
    ensures FunctionOffset(file, 0) <= LiteralTable(file) <= |file| && region == file[FunctionOffset(file, 0)..LiteralTable(file)]
    ensures Distinct(pool) && AllOf(pool, ReachedFrom(region, LiteralBase(file, lit)))
    ensures OverBlocks(region, Pooled(LiteralBase(file, lit), pool), Pooled(LiteralBase(file, lit), pool))
  {
    hide *;
    SavedIsAccepted(file, lit);
    ghost var all := Witnesses([file], lit);
    ghost var codes := all[0];
    assert Holds([file][0], codes, lit);
    HoldsSizes(file, codes, lit);
    region := file[FunctionOffset(file, 0)..LiteralTable(file)];
    var get := LiteralBase(file, lit);
    EmittedSubsWalkable(region, codes);
    ReachedFromIs(region, get);
    AllReached(region, get, ReachedFrom(region, get));
    pool := EmptyPool();
    NothingPooled(ReachedFrom(region, get));
    pool := ScanSnapshotFunctions(region, get, pool, ReachedFrom(region, get));
  }

  lemma ReachedFromIs(b: seq<u8>, get: u32 -> u32)
    ensures forall v :: Reached(b, get, v) <==> ReachedFrom(b, get)(v)
  {
    hide Reached;
  }

  lemma NothingPooled(k: u32 -> bool)
    ensures AllOf([], k) && Distinct([])
  {}

  lemma ListedNone(names: Strings)
    ensures Listed(names, []) == [] && TextsOf(names, []) == []
  {}

  lemma UsedAre(file: seq<u8>, lit: Storage, names: Strings, region: seq<u8>, pool: seq<u32>)
    requires |file| > 24 && FunctionOffset(file, 0) <= LiteralTable(file) <= |file|
    requires region == file[FunctionOffset(file, 0)..LiteralTable(file)]
    requires Distinct(pool) && AllOf(pool, ReachedFrom(region, LiteralBase(file, lit)))
    requires OverBlocks(region, Pooled(LiteralBase(file, lit), pool), Pooled(LiteralBase(file, lit), pool))
    ensures Distinct(Listed(names, pool)) && forall v :: v in Listed(names, pool) <==> IsUsed(file, lit, names, v)
  {
    hide *;
    ListedAre(names, pool);
    var get := LiteralBase(file, lit);
    forall v ensures v in Listed(names, pool) <==> IsUsed(file, lit, names, v) {
      UsedIs(file, lit, names, v);
      if v in pool {
        InPoolReached(region, get, pool, v);
      }
      if IsListed(names, v) {
        ListedCanBePooled(names, v);
        if Reached(region, get, v) {
          ReachedIsPooled(region, get, pool, v);
        }
      }
    }
  }

  lemma UsedIs(file: seq<u8>, lit: Storage, names: Strings, v: u32)
    requires |file| > 24 && FunctionOffset(file, 0) <= LiteralTable(file) <= |file|
    ensures IsUsed(file, lit, names, v) <==>
              IsListed(names, v) && Reached(file[FunctionOffset(file, 0)..LiteralTable(file)], LiteralBase(file, lit), v)
  {
    LeadsIs(file, lit, v);
    hide IsListed, Reached, Leads, FunctionOffset, LiteralTable, LiteralBase;
  }

  lemma InPoolReached(b: seq<u8>, get: u32 -> u32, pool: seq<u32>, v: u32)
    requires AllOf(pool, ReachedFrom(b, get)) && v in pool
    ensures Reached(b, get, v)
  {
    hide Reached;
    var i :| 0 <= i < |pool| && pool[i] == v;
    assert ReachedFrom(b, get)(pool[i]);
  }

  lemma ListedCanBePooled(names: Strings, v: u32)
    requires IsListed(names, v)
    ensures IsPooled(v)
  {}

  lemma EmptyList(names: Strings, values: seq<u32>)
    requires |values| == 0
    ensures SortedTexts([], names, values) && Text([]) == []
  {}

  lemma SortedAre(literals: seq<Literal>, names: Strings, values: seq<u32>, pool: seq<u32>)
    requires SaneStrings(names) && Distinct(pool) && values == Listed(names, pool)
    requires InSizeOrder(literals) && multiset(literals) == multiset(TextsOf(names, values)) && values != []
    ensures SortedTexts(literals, names, values) && literals != []
    ensures forall i :: 0 <= i < |literals| ==> 0 < |literals[i]| < 0x1_0000_0000
  {
    ListedAre(names, pool);
    hide Listed, InSizeOrder;
    var texts := TextsOf(names, values);
    assert |literals| == |multiset(literals)| == |texts|;
    forall i | 0 <= i < |literals| ensures 0 < |literals[i]| < 0x1_0000_0000 {
      assert literals[i] in multiset(literals);
      assert literals[i] in texts;
      var j :| 0 <= j < |texts| && texts[j] == literals[i];
      assert values[j] in values;
    }
  }

  lemma ReadBackIs(text: seq<u8>, literals: seq<Literal>)
    requires |text| > 0 && |ParseItems(text + [0], |text|, 0)| == |literals|
    requires forall i :: 0 <= i < |literals| ==>
               var item := ParseItems(text + [0], |text|, 0)[i];
               item.start + item.length <= |text + [0]| && (text + [0])[item.start..item.start + item.length] == literals[i]
    ensures ReadsBack(text, literals)
  {
    hide ParseItems;
  }
}
