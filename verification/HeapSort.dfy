// Sorting the literals of a snapshot (jerry_save_literals_sort in jerry-core/api/jerry-snapshot.c).
module HeapSort {
  import opened Bytes

  type Literal = seq<u8>

  predicate LexicallyLess(a: Literal, b: Literal) {
    b != [] && (a == [] || a[0] < b[0] || (a[0] == b[0] && LexicallyLess(a[1..], b[1..])))
  }

  // jerry_save_literals_compare: by size, then lexicographically
  predicate Less(a: Literal, b: Literal) {
    if |a| == |b| then LexicallyLess(a, b) else |a| < |b|
  }

  // b is not before a.
  predicate AtMost(a: Literal, b: Literal) {
    !Less(b, a)
  }

  lemma {:induction false} LexicalOrder(a: Literal, b: Literal)
    ensures !(LexicallyLess(a, b) && LexicallyLess(b, a))
    ensures LexicallyLess(a, b) || LexicallyLess(b, a) || a == b
  {
    if a != [] && b != [] {
      LexicalOrder(a[1..], b[1..]);
      assert a == [a[0]] + a[1..] && b == [b[0]] + b[1..];
    }
  }

  lemma {:induction false} LexicalTransitive(a: Literal, b: Literal, c: Literal)
    requires LexicallyLess(a, b) && LexicallyLess(b, c)
    ensures LexicallyLess(a, c)
  {
    if a != [] && a[0] == b[0] && b[0] == c[0] {
      LexicalTransitive(a[1..], b[1..], c[1..]);
    }
  }

  // The comparison is a strict total order.
  lemma TotalOrder(a: Literal, b: Literal, c: Literal)
    ensures !(Less(a, b) && Less(b, a)) && (Less(a, b) || Less(b, a) || a == b)
    ensures Less(a, b) && Less(b, c) ==> Less(a, c)
  {
    LexicalOrder(a, b);
    if Less(a, b) && Less(b, c) && |a| == |b| == |c| {
      LexicalTransitive(a, b, c);
    }
  }

  lemma AtMostTransitive(a: Literal, b: Literal, c: Literal)
    requires AtMost(a, b) && AtMost(b, c)
    ensures AtMost(a, c)
  {
    TotalOrder(a, b, c);
    TotalOrder(b, c, a);
    TotalOrder(c, a, b);
    TotalOrder(c, b, a);
  }

  lemma LessIsAtMost(a: Literal, b: Literal)
    ensures Less(a, b) ==> AtMost(a, b)
    ensures AtMost(a, a)
  {
    TotalOrder(a, b, a);
    TotalOrder(a, a, a);
  }

  // a is shorter, or of the same size with a smaller byte where they first differ.
  ghost predicate ComesFirst(a: Literal, b: Literal) {
    |a| < |b| || (|a| == |b| && exists k :: 0 <= k < |a| && a[..k] == b[..k] && a[k] < b[k])
  }

  lemma {:induction false} LexicalMeans(a: Literal, b: Literal)
    requires |a| == |b|
    ensures LexicallyLess(a, b) <==> exists k :: 0 <= k < |a| && a[..k] == b[..k] && a[k] < b[k]
  {
    if a != [] {
      LexicalMeans(a[1..], b[1..]);
      if LexicallyLess(a, b) {
        if a[0] < b[0] {
          assert a[..0] == b[..0];
        } else {
          var k :| 0 <= k < |a[1..]| && a[1..][..k] == b[1..][..k] && a[1..][k] < b[1..][k];
          assert a[..k + 1] == [a[0]] + a[1..][..k] && b[..k + 1] == [b[0]] + b[1..][..k];
        }
      }
      if k :| 0 <= k < |a| && a[..k] == b[..k] && a[k] < b[k] {
        if k > 0 {
          assert a[..k][0] == b[..k][0];
          assert a[1..][..k - 1] == a[..k][1..] && b[1..][..k - 1] == b[..k][1..];
        }
      }
    }
  }

  lemma LessMeans(a: Literal, b: Literal)
    ensures Less(a, b) <==> ComesFirst(a, b)
  {
    if |a| == |b| {
      LexicalMeans(a, b);
    }
  }

  // ---- heaps

  predicate IsChild(c: int, p: int) {
    c == 2 * p + 1 || c == 2 * p + 2
  }

  // Among the first n elements, children are at most their parents, for parents from first on.
  ghost predicate IsHeap(s: seq<Literal>, n: int, first: int)
    requires 0 <= n <= |s| && 0 <= first
  {
    forall p, c :: first <= p && IsChild(c, p) && c < n ==> AtMost(s[c], s[p])
  }

  // The same, except below hole, whose children are at most its own parent.
  ghost predicate IsHeapExcept(s: seq<Literal>, n: int, first: int, hole: int)
    requires 0 <= n <= |s| && 0 <= first
  {
    && (forall p, c :: first <= p && p != hole && IsChild(c, p) && c < n ==> AtMost(s[c], s[p]))
    && (forall p, c :: first <= p && IsChild(hole, p) && IsChild(c, hole) && c < n ==> AtMost(s[c], s[p]))
  }

  // jerry_save_literals_heap_max
  method HeapMax(literals: array<Literal>, n: u32, node: u32, child1: u32, child2: u32) returns (max: u32)
    requires n <= literals.Length && node < literals.Length
    ensures max == node || (max == child1 < n) || (max == child2 < n)
    ensures AtMost(literals[node], literals[max])
    ensures child1 < n ==> AtMost(literals[child1], literals[max])
    ensures child2 < n ==> AtMost(literals[child2], literals[max])
    ensures max != node ==> Less(literals[node], literals[max])
  {
    hide Less;
    max := node;
    LessIsAtMost(literals[node], literals[node]);
    if child1 < n && Less(literals[max], literals[child1]) {
      LessIsAtMost(literals[node], literals[child1]);
      LessIsAtMost(literals[child1], literals[child1]);
      max := child1;
    }
    if child2 < n && Less(literals[max], literals[child2]) {
      MaxMoves(literals[node], literals[max], literals[child2]);
      if child1 < n { AtMostTransitive(literals[child1], literals[max], literals[child2]) by { LessIsAtMost(literals[max], literals[child2]); } }
      max := child2;
    }
  }

  lemma MaxMoves(node: Literal, max: Literal, child: Literal)
    requires AtMost(node, max) && Less(max, child)
    ensures Less(node, child) && AtMost(node, child) && AtMost(max, child) && AtMost(child, child)
  {
    TotalOrder(node, max, child);
    TotalOrder(max, node, child);
    LessIsAtMost(node, child);
    LessIsAtMost(max, child);
    LessIsAtMost(child, child);
  }

  function Swapped(s: seq<Literal>, i: nat, j: nat): (r: seq<Literal>)
    requires i < |s| && j < |s|
    ensures |r| == |s|
  {
    s[i := s[j]][j := s[i]]
  }

  lemma SwapKeeps(s: seq<Literal>, i: nat, j: nat, n: nat)
    requires i < n <= |s| && j < n
    ensures multiset(Swapped(s, i, j)[..n]) == multiset(s[..n]) && Swapped(s, i, j)[n..] == s[n..]
  {
    var t := s[..n];
    assert Swapped(s, i, j)[..n] == t[i := t[j]][j := t[i]];
  }

  ghost predicate ChildrenAtMost(s: seq<Literal>, n: int, node: int, max: int)
    requires 0 <= n <= |s| && 0 <= node && 0 <= max < |s|
  {
    forall c :: IsChild(c, node) && c < n ==> AtMost(s[c], s[max])
  }

  lemma ChildrenKnown(s: seq<Literal>, n: int, node: int, max: int)
    requires 0 <= n <= |s| && 0 <= node && 0 <= max < |s|
    requires 2 * node + 1 < n ==> AtMost(s[2 * node + 1], s[max])
    requires 2 * node + 2 < n ==> AtMost(s[2 * node + 2], s[max])
    ensures ChildrenAtMost(s, n, node, max)
  {
    hide AtMost;
  }

  lemma NoWrap(node: nat)
    requires node < 0x7fff_ffff
    ensures (2 * node + 1) % 0x1_0000_0000 == 2 * node + 1 && (2 * node + 2) % 0x1_0000_0000 == 2 * node + 2
  {}

  // One step down.
  lemma SwapDown(s: seq<Literal>, n: int, first: int, node: int, max: int)
    requires 0 <= first <= node < n <= |s| && IsChild(max, node) && max < n
    requires IsHeapExcept(s, n, first, node)
    requires AtMost(s[node], s[max]) && ChildrenAtMost(s, n, node, max)
    ensures IsHeapExcept(Swapped(s, node, max), n, first, max)
  {
    hide AtMost;
    var t := Swapped(s, node, max);
    forall p, c | first <= p && p != max && IsChild(c, p) && c < n ensures AtMost(t[c], t[p]) {
      if p == node {
        assert c == max || t[c] == s[c];
      } else if c == node {
        assert IsChild(node, p) && IsChild(max, node);
      } else {
        assert c != max && t[c] == s[c] && t[p] == s[p];
      }
    }
    forall p, c | first <= p && IsChild(max, p) && IsChild(c, max) && c < n ensures AtMost(t[c], t[p]) {
      assert p == node && t[c] == s[c];
    }
  }

  // jerry_save_literals_down_heap
  method DownHeap(literals: array<Literal>, n: u32, start: u32)
    requires n <= literals.Length < 0x7fff_ffff && start < literals.Length
    requires IsHeap(literals[..], n, start + 1)
    modifies literals
    ensures IsHeap(literals[..], n, start)
    ensures multiset(literals[..n]) == multiset(old(literals[..n]))
    ensures literals[n..] == old(literals[n..]) && (start < n ==> literals[..start] == old(literals[..start]))
    ensures start >= n ==> literals[..] == old(literals[..])
  {
    hide Less, AtMost, IsHeap, IsHeapExcept, Swapped, ChildrenAtMost;
    ghost var s0 := literals[..];
    var node := start;
    HoleAtStart(literals[..], n, start);
    while true
      invariant start <= node < literals.Length && (node < n || node == start)
      invariant IsHeapExcept(literals[..], n, start, node)
      invariant multiset(literals[..n]) == multiset(s0[..n]) && literals[n..] == s0[n..]
      invariant literals[..start] == s0[..start] && (start >= n ==> literals[..] == s0)
      decreases literals.Length - node
    {
      NoWrap(node);
      var child1, child2 := (2 * node + 1) % 0x1_0000_0000, (2 * node + 2) % 0x1_0000_0000;
      var max := HeapMax(literals, n, node, child1, child2);
      ghost var s := literals[..];
      ChildrenKnown(s, n, node, max);
      if max == node {
        HoleFilled(s, n, start, node);
        break;
      }
      SwapDown(s, n, start, node, max);
      SwapKeeps(s, node, max, n);
      var tmp := literals[node];
      literals[node] := literals[max];
      literals[max] := tmp;
      SwappedIs(s, node, max, literals[..], start);
      node := max;
    }
  }

  lemma HoleAtStart(s: seq<Literal>, n: int, start: int)
    requires 0 <= n <= |s| && 0 <= start && IsHeap(s, n, start + 1)
    ensures IsHeapExcept(s, n, start, start)
  {
    hide AtMost;
  }

  lemma HoleFilled(s: seq<Literal>, n: int, start: int, node: int)
    requires 0 <= n <= |s| && 0 <= start <= node < |s| && IsHeapExcept(s, n, start, node)
    requires ChildrenAtMost(s, n, node, node)
    ensures IsHeap(s, n, start)
  {
    hide AtMost;
  }

  lemma SwappedIs(s: seq<Literal>, i: nat, j: nat, t: seq<Literal>, start: nat)
    requires i < |s| && j < |s| && |t| == |s| && start <= i && start <= j
    requires forall k :: 0 <= k < |s| ==> t[k] == if k == j then s[i] else if k == i then s[j] else s[k]
    ensures t == Swapped(s, i, j) && t[..start] == s[..start]
  {}

  // ---- the sort

  ghost predicate IsSorted(s: seq<Literal>) {
    forall i, j :: 0 <= i <= j < |s| ==> AtMost(s[i], s[j])
  }

  // The root is the largest.
  lemma {:induction false} RootIsMax(s: seq<Literal>, n: nat, i: nat)
    requires n <= |s| && IsHeap(s, n, 0) && i < n
    ensures AtMost(s[i], s[0])
  {
    hide AtMost;
    if i == 0 {
      LessIsAtMost(s[0], s[0]);
    } else {
      var p := (i - 1) / 2;
      assert IsChild(i, p);
      RootIsMax(s, n, p);
      AtMostTransitive(s[i], s[p], s[0]);
    }
  }

  // All of the first n elements are at most all later ones, which are sorted.
  ghost predicate TailSorted(s: seq<Literal>, n: int)
    requires 0 <= n <= |s|
  {
    && IsSorted(s[n..])
    && forall i, j :: 0 <= i < n <= j < |s| ==> AtMost(s[i], s[j])
  }

  // Exchanging the elements of the front keeps the tail.
  lemma FrontMoved(s: seq<Literal>, t: seq<Literal>, n: nat)
    requires n <= |s| == |t| && multiset(t[..n]) == multiset(s[..n]) && t[n..] == s[n..] && TailSorted(s, n)
    ensures TailSorted(t, n)
  {
    hide AtMost;
    forall i, j | 0 <= i < n <= j < |t| ensures AtMost(t[i], t[j]) {
      assert t[..n][i] in multiset(s[..n]);
      var k :| 0 <= k < n && s[..n][k] == t[..n][i];
      assert t[j] == t[n..][j - n] == s[n..][j - n] == s[j];
      assert AtMost(s[k], s[j]);
    }
  }

  // The largest element goes to the end of the heap.
  lemma RootMoved(s: seq<Literal>, last: nat)
    requires last < |s| && IsHeap(s, last + 1, 0) && TailSorted(s, last + 1)
    ensures IsHeap(Swapped(s, last, 0), last, 1) && TailSorted(Swapped(s, last, 0), last)
  {
    hide AtMost;
    var t := Swapped(s, last, 0);
    forall i | 0 <= i <= last ensures AtMost(s[i], s[0]) {
      RootIsMax(s, last + 1, i);
    }
    forall i, j | 0 <= i < last <= j < |t| ensures AtMost(t[i], t[j]) {
      assert j > last ==> t[j] == s[j];
    }
    forall i, j | 0 <= i <= j < |t[last..]| ensures AtMost(t[last..][i], t[last..][j]) {
      if i == 0 {
        if j == 0 { LessIsAtMost(t[last], t[last]); }
      } else {
        assert t[last + i] == s[last + 1..][i - 1] && t[last + j] == s[last + 1..][j - 1];
      }
    }
  }

  // The first loop of jerry_save_literals_sort ends because its counter wraps around below 0.
  method BuildHeap(literals: array<Literal>)
    requires 2 <= literals.Length < 0x7fff_ffff
    modifies literals
    ensures IsHeap(literals[..], literals.Length, 0) && multiset(literals[..]) == multiset(old(literals[..]))
  {
    hide *;
    var n: u32 := literals.Length;
    ghost var s0 := literals[..];
    var idx: u32 := (n - 2) / 2;
    LeavesAreHeap(literals[..], n);
    ghost var first: int := idx + 1;
    while idx <= (n - 2) / 2
      invariant 0 <= first <= (n - 2) / 2 + 1 && idx == (first - 1) % 0x1_0000_0000
      invariant IsHeap(literals[..], n, first) && multiset(literals[..]) == multiset(s0)
      decreases first
    {
      ghost var s := literals[..];
      CountDown(first, n);
      assert s[..n] == s;
      DownHeap(literals, n, idx);
      assert literals[..n] == literals[..];
      first := first - 1;
      idx := (idx as int - 1) % 0x1_0000_0000;
    }
    CountDown(first, n);
  }

  lemma CountDown(first: int, n: nat)
    requires 2 <= n < 0x7fff_ffff && 0 <= first <= (n - 2) / 2 + 1
    ensures (first - 1) % 0x1_0000_0000 <= (n - 2) / 2 <==> first > 0
    ensures first > 0 ==> (first - 1) % 0x1_0000_0000 == first - 1 && ((first - 1) - 1) % 0x1_0000_0000 == (first - 2) % 0x1_0000_0000
  {}

  // jerry_save_literals_sort
  method Sort(literals: array<Literal>)
    requires literals.Length < 0x7fff_ffff
    modifies literals
    ensures IsSorted(literals[..]) && multiset(literals[..]) == multiset(old(literals[..]))
    ensures InSizeOrder(literals[..])
  {
    hide *;
    var n: u32 := literals.Length;
    ghost var s0 := literals[..];
    if n < 2 {
      ShortIsSorted(literals[..]);
      SortedMeans(literals[..]);
      return;
    }
    BuildHeap(literals);
    WholeTail(literals[..]);
    var idx: u32 := 0;
    while idx < n
      invariant 0 <= idx <= n && multiset(literals[..]) == multiset(s0)
      invariant IsHeap(literals[..], n - idx, 0) && TailSorted(literals[..], n - idx)
    {
      var last: u32 := n - idx - 1;
      ghost var s := literals[..];
      RootMoved(s, last);
      SwapAll(s, last);
      var tmp := literals[last];
      literals[last] := literals[0];
      literals[0] := tmp;
      SwappedIs(s, last, 0, literals[..], 0);
      ghost var t := literals[..];
      DownHeap(literals, last, 0);
      FrontMoved(t, literals[..], last);
      FrontPermuted(t, literals[..], last);
      idx := idx + 1;
    }
    SortedAtLast(literals[..]);
    SortedMeans(literals[..]);
  }

  // What comes first is earlier in the list.
  ghost predicate InSizeOrder(s: seq<Literal>) {
    forall i, j :: 0 <= i < j < |s| ==> s[i] == s[j] || ComesFirst(s[i], s[j])
  }

  lemma SortedMeans(s: seq<Literal>)
    requires IsSorted(s)
    ensures InSizeOrder(s)
  {
    hide Less, ComesFirst;
    forall i, j | 0 <= i < j < |s| ensures s[i] == s[j] || ComesFirst(s[i], s[j]) {
      TotalOrder(s[i], s[j], s[i]);
      LessMeans(s[i], s[j]);
    }
  }

  lemma SwapAll(s: seq<Literal>, last: nat)
    requires last < |s|
    ensures multiset(Swapped(s, last, 0)) == multiset(s)
  {
    SwapKeeps(s, last, 0, |s|);
    assert s[..|s|] == s && Swapped(s, last, 0)[..|s|] == Swapped(s, last, 0);
  }

  lemma ShortIsSorted(s: seq<Literal>)
    requires |s| < 2
    ensures IsSorted(s)
  {
    hide AtMost;
    if |s| == 1 { LessIsAtMost(s[0], s[0]); }
  }

  lemma LeavesAreHeap(s: seq<Literal>, n: nat)
    requires 2 <= n == |s|
    ensures IsHeap(s, n, (n - 2) / 2 + 1)
  {}

  lemma WholeTail(s: seq<Literal>)
    ensures TailSorted(s, |s|)
  {}

  lemma SortedAtLast(s: seq<Literal>)
    requires TailSorted(s, 0)
    ensures IsSorted(s)
  {
    hide AtMost;
    assert s[0..] == s;
  }

  lemma FrontPermuted(s: seq<Literal>, t: seq<Literal>, n: nat)
    requires n <= |s| == |t| && multiset(t[..n]) == multiset(s[..n]) && t[n..] == s[n..]
    ensures multiset(t) == multiset(s)
  {
    assert s == s[..n] + s[n..] && t == t[..n] + t[n..];
  }
}
