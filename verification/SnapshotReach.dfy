// The values that a code area leads to, and the size of a literal table for them
// (scan_snapshot_functions in jerry-core/api/jerry-snapshot.c).
module SnapshotReach {
  import opened Bytes
  import opened Layout
  import opened Snapshot
  import opened SnapshotPasses
  import opened SnapshotFile

  // ---- what a code area leads to

  // Some literal offset in the blocks leads to v.
  ghost predicate Reached(b: seq<u8>, get: u32 -> u32, v: u32) {
    !OverBlocks(b, LeadsTo(get, Other(v)), LeadsTo(get, Other(v)))
  }

  ghost function ReachedFrom(b: seq<u8>, get: u32 -> u32): u32 -> bool {
    (v: u32) => Reached(b, get, v)
  }

  lemma RunReached(b: seq<u8>, start: nat, n: nat, get: u32 -> u32, k: u32 -> bool)
    requires start + 4 * n <= |b|
    requires forall v :: !RunOver(b, start, n, LeadsTo(get, Other(v))) ==> k(v)
    ensures RunOver(b, start, n, LeadsTo(get, k))
  {
    hide GetWord, IsOffset;
    forall i | 0 <= i < n ensures LeadsTo(get, k)(GetWord(b, start, i)) {
      var w := GetWord(b, start, i);
      if IsOffset(w) {
        assert !LeadsTo(get, Other(get(w)))(w);
        assert !RunOver(b, start, n, LeadsTo(get, Other(get(w))));
      }
    }
  }

  lemma BlockReached(block: seq<u8>, get: u32 -> u32, k: u32 -> bool)
    requires forall v :: !BlockOver(block, LeadsTo(get, Other(v)), LeadsTo(get, Other(v))) ==> k(v)
    ensures BlockOver(block, LeadsTo(get, k), LeadsTo(get, k))
  {
    if ValidFunction(block) {
      Bounds(block);
    }
    hide RunOver, ValidFunction, HasHeader, ConstStart, ConstEnd, TailStart, Trailing;
    if ValidFunction(block) {
      BlockOverRuns(block, LeadsTo(get, k), LeadsTo(get, k));
      forall v ensures !RunOver(block, ConstStart(block), ConstEnd(block), LeadsTo(get, Other(v))) ==> k(v)
               ensures !RunOver(block, TailStart(block), Trailing(block), LeadsTo(get, Other(v))) ==> k(v) {
        BlockOverRuns(block, LeadsTo(get, Other(v)), LeadsTo(get, Other(v)));
      }
      RunReached(block, ConstStart(block), ConstEnd(block), get, k);
      RunReached(block, TailStart(block), Trailing(block), get, k);
    }
  }

  // A property of all that is reached.
  lemma {:induction false} AllReached(b: seq<u8>, get: u32 -> u32, k: u32 -> bool)
    requires Walkable(b) && forall v :: Reached(b, get, v) ==> k(v)
    ensures OverBlocks(b, LeadsTo(get, k), LeadsTo(get, k))
    decreases |b|
  {
    hide *;
    WalkableStep(b);
    if b == [] {
      OverEmpty(LeadsTo(get, k), LeadsTo(get, k));
    } else {
      var n := SizeOf(b);
      forall v ensures Reached(b[n..], get, v) ==> k(v)
               ensures !BlockOver(b[..n], LeadsTo(get, Other(v)), LeadsTo(get, Other(v))) ==> k(v) {
        ReachedHead(b, n, get, v);
      }
      BlockReached(b[..n], get, k);
      AllReached(b[n..], get, k);
      OverHead(b, LeadsTo(get, k), LeadsTo(get, k));
    }
  }

  lemma ReachedHead(b: seq<u8>, n: nat, get: u32 -> u32, v: u32)
    requires HasBlock(b) && |b| >= 8 && n == SizeOf(b) <= |b|
    ensures Reached(b, get, v) <==>
              !BlockOver(b[..n], LeadsTo(get, Other(v)), LeadsTo(get, Other(v))) || Reached(b[n..], get, v)
  {
    OverHead(b, LeadsTo(get, Other(v)), LeadsTo(get, Other(v)));
    hide OverBlocks, BlockOver, HasBlock, SizeOf;
  }

  // Whatever can be pooled and is reached is in the pool of the scan.
  lemma ReachedIsPooled(b: seq<u8>, get: u32 -> u32, pool: seq<u32>, v: u32)
    requires OverBlocks(b, Pooled(get, pool), Pooled(get, pool)) && Reached(b, get, v) && IsPooled(v)
    ensures v in pool
  {
    if v !in pool {
      OverBlocksWeaken(b, Pooled(get, pool), LeadsTo(get, Other(v)));
    }
  }

  // ---- what files lead to

  // Some literal offset in the code area of the file leads to v.
  ghost predicate Leads(file: seq<u8>, lit: Storage, v: u32) {
    && |file| >= 24 && FunctionOffset(file, 0) <= LiteralTable(file) <= |file|
    && Reached(file[FunctionOffset(file, 0)..LiteralTable(file)], LiteralBase(file, lit), v)
  }

  ghost function Leading(lit: Storage, v: u32): seq<u8> -> bool {
    (file: seq<u8>) => Leads(file, lit, v)
  }

  ghost predicate AnyOf(files: seq<seq<u8>>, k: seq<u8> -> bool) {
    exists i :: 0 <= i < |files| && k(files[i])
  }

  ghost predicate LeadsAny(files: seq<seq<u8>>, lit: Storage, v: u32) {
    AnyOf(files, Leading(lit, v))
  }

  ghost function LeadsOf(files: seq<seq<u8>>, lit: Storage): u32 -> bool {
    (v: u32) => LeadsAny(files, lit, v)
  }

  // Exactly the values that the files lead to, once each.
  ghost predicate IsPoolOfAll(files: seq<seq<u8>>, lit: Storage, pool: seq<u32>) {
    Distinct(pool) && forall v :: v in pool <==> LeadsAny(files, lit, v)
  }

  lemma LeadsIs(file: seq<u8>, lit: Storage, v: u32)
    requires |file| >= 24 && FunctionOffset(file, 0) <= LiteralTable(file) <= |file|
    ensures Leads(file, lit, v) <==> Reached(file[FunctionOffset(file, 0)..LiteralTable(file)], LiteralBase(file, lit), v)
  {
    hide FunctionOffset, LiteralTable, LiteralBase, Reached;
  }

  lemma AnyAppend(a: seq<seq<u8>>, b: seq<seq<u8>>, k: seq<u8> -> bool)
    ensures AnyOf(a + b, k) <==> AnyOf(a, k) || AnyOf(b, k)
  {
    if i :| 0 <= i < |a| && k(a[i]) {
      assert k((a + b)[i]);
    }
    if i :| 0 <= i < |b| && k(b[i]) {
      assert k((a + b)[|a| + i]);
    }
  }

  lemma AnyOne(file: seq<u8>, k: seq<u8> -> bool)
    ensures AnyOf([file], k) <==> k(file)
    ensures !AnyOf([], k)
  {
    if k(file) {
      assert k([file][0]);
    }
  }

  lemma LeadsAnyIs(files: seq<seq<u8>>, lit: Storage, v: u32)
    ensures LeadsAny(files, lit, v) <==> AnyOf(files, Leading(lit, v))
  {}

  lemma LeadingIs(file: seq<u8>, lit: Storage, v: u32)
    ensures Leading(lit, v)(file) <==> Leads(file, lit, v)
  {
    hide Leads;
  }

  // What is reached satisfies what all offsets lead to.
  lemma ReachedSatisfies(b: seq<u8>, get: u32 -> u32, k: u32 -> bool, v: u32)
    requires OverBlocks(b, LeadsTo(get, k), LeadsTo(get, k)) && Reached(b, get, v)
    ensures k(v)
  {
    if !k(v) {
      OverBlocksWeaken(b, LeadsTo(get, k), LeadsTo(get, Other(v)));
    }
  }

  lemma {:induction false} OverAnything(b: seq<u8>, k: u32 -> bool)
    requires forall v :: k(v)
    ensures OverBlocks(b, k, k)
  {
    hide ValidFunction, GetWord, ConstStart, ConstEnd, TailStart, Trailing;
    if HasBlock(b) {
      OverAnything(b[SizeOf(b)..], k);
    }
  }

  // Only values that exist, and no strings that are too long, are reached.
  lemma ReachedIsRead(b: seq<u8>, table: seq<u8>, lit: Storage, v: u32)
    requires Interning(lit) && Reached(b, lit.read(table), v)
    ensures lit.live(v) && IsShort(lit, v)
  {
    if !lit.live(v) || !IsShort(lit, v) {
      forall w: u32 ensures LeadsTo(lit.read(table), Other(v))(w) {
        assert lit.live(lit.read(table)(w)) && IsShort(lit, lit.read(table)(w));
      }
      OverAnything(b, LeadsTo(lit.read(table), Other(v)));
    }
  }

  lemma LeadsIsRead(files: seq<seq<u8>>, lit: Storage, pool: seq<u32>)
    requires Interning(lit) && IsPoolOfAll(files, lit, pool)
    ensures AllLive(lit, pool) && forall v :: v in pool ==> IsShort(lit, v)
  {
    hide Reached, FunctionOffset, LiteralTable, Interning, Distinct, IsShort;
    forall v | v in pool ensures lit.live(v) && IsShort(lit, v) {
      var i :| 0 <= i < |files| && Leading(lit, v)(files[i]);
      var file := files[i];
      ReachedIsRead(file[FunctionOffset(file, 0)..LiteralTable(file)], file[LiteralTable(file)..], lit, v);
    }
    assert forall j :: 0 <= j < |pool| ==> pool[j] in pool;
  }

  // ---- the size of the literal table depends on the values only

  lemma {:induction false} TableWithout(lit: Storage, q: seq<u32>, k: nat)
    requires k < |q|
    ensures TableSize(lit, q) == TableSize(lit, q[..k] + q[k + 1..]) + lit.size(q[k])
  {
    var n := |q| - 1;
    if k == n {
      assert q[..k] + q[k + 1..] == q[..n];
    } else {
      TableWithout(lit, q[..n], k);
      var r := q[..k] + q[k + 1..];
      assert r[..|r| - 1] == q[..n][..k] + q[..n][k + 1..];
      assert r[|r| - 1] == q[n];
    }
  }

  lemma {:induction false} SameTableSize(lit: Storage, p: seq<u32>, q: seq<u32>)
    requires Distinct(p) && Distinct(q) && forall v :: v in p <==> v in q
    ensures TableSize(lit, p) == TableSize(lit, q)
    decreases |p|
  {
    if p == [] {
      FirstIn(q);
    } else {
      var n := |p| - 1;
      assert p[n] in p;
      var k :| 0 <= k < |q| && q[k] == p[n];
      var r := q[..k] + q[k + 1..];
      TableWithout(lit, q, k);
      Without(q, k, p[n]);
      Without(p, n, p[n]);
      forall v ensures v in p[..n] <==> v in r {
        Without(p, n, v);
        Without(q, k, v);
        assert p[..n] + p[n + 1..] == p[..n];
      }
      SameTableSize(lit, p[..n], r);
    }
  }

  lemma FirstIn(q: seq<u32>)
    ensures q == [] || q[0] in q
  {}

  lemma Without(q: seq<u32>, k: nat, v: u32)
    requires Distinct(q) && k < |q|
    ensures v in q[..k] + q[k + 1..] <==> v in q && v != q[k]
    ensures Distinct(q[..k] + q[k + 1..])
  {
    var r := q[..k] + q[k + 1..];
    if v in q && v != q[k] {
      var i :| 0 <= i < |q| && q[i] == v;
      assert r[if i < k then i else i - 1] == v;
    }
    if v in r {
      var i :| 0 <= i < |r| && r[i] == v;
      assert q[if i < k then i else i + 1] == v;
    }
  }
}
