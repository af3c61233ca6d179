/** The in-place sort of handle arrays and the order it sorts by (src/gc/handletablecore.cpp). */
module QuickSort {
  /** A comparator: negative, zero or positive. It is only assumed to be deterministic. */
  type Compare = (nat, nat) -> int

  ghost predicate PreorderOn(cmp: Compare, S: set<nat>) {
    && (forall x, y | x in S && y in S :: cmp(x, y) < 0 <==> cmp(y, x) > 0)
    && (forall x, y, z | x in S && y in S && z in S && cmp(x, y) <= 0 && cmp(y, z) <= 0 :: cmp(x, z) <= 0)
  }

  ghost predicate ReflexiveOn(cmp: Compare, S: set<nat>) {
    forall x | x in S :: cmp(x, x) == 0
  }

  /** Every element of `s` from `l` to `r` is in `S`. */
  ghost predicate Within(s: seq<nat>, l: int, r: int, S: set<nat>)
    requires 0 <= l && r < |s|
  {
    forall k | l <= k <= r :: s[k] in S
  }

  /** `t` is `s` with the elements from `l` to `r` reordered. */
  ghost predicate Perm(s: seq<nat>, t: seq<nat>, l: int, r: int)
    requires 0 <= l <= r + 1 && r < |s|
  {
    && |t| == |s|
    && (forall k | 0 <= k < |s| && !(l <= k <= r) :: t[k] == s[k])
    && multiset(t[l..r + 1]) == multiset(s[l..r + 1])
  }

  ghost predicate Sorted(s: seq<nat>, l: int, r: int, cmp: Compare)
    requires 0 <= l && r < |s|
  {
    forall p, q | l <= p < q <= r :: cmp(s[p], s[q]) <= 0
  }

  lemma PermTrans(s: seq<nat>, t: seq<nat>, u: seq<nat>, l: int, r: int)
    requires 0 <= l <= r + 1 && r < |s| && Perm(s, t, l, r) && Perm(t, u, l, r)
    ensures Perm(s, u, l, r)
  {
  }

  /** Reordering part of a range reorders the range. */
  lemma PermWiden(s: seq<nat>, t: seq<nat>, l: int, r: int, l0: int, r0: int)
    requires 0 <= l0 <= l <= r + 1 <= r0 + 1 && r0 < |s| && Perm(s, t, l, r)
    ensures Perm(s, t, l0, r0)
  {
    assert s[l0..r0 + 1] == s[l0..l] + s[l..r + 1] + s[r + 1..r0 + 1];
    assert t[l0..r0 + 1] == t[l0..l] + t[l..r + 1] + t[r + 1..r0 + 1];
    assert t[l0..l] == s[l0..l] && t[r + 1..r0 + 1] == s[r + 1..r0 + 1];
  }

  lemma PermSwap(s: seq<nat>, i: int, j: int, l: int, r: int)
    requires 0 <= l <= i < j <= r < |s|
    ensures Perm(s, s[i := s[j]][j := s[i]], l, r)
  {
    var t := s[i := s[j]][j := s[i]];
    var x, y := s[l..r + 1], t[l..r + 1];
    assert y == x[i - l := x[j - l]][j - l := x[i - l]];
  }

  /** An element of the reordered range was in the range before. */
  lemma PermFrom(s: seq<nat>, t: seq<nat>, l: int, r: int, k: int) returns (k0: int)
    requires 0 <= l <= r + 1 && r < |s| && Perm(s, t, l, r) && l <= k <= r
    ensures l <= k0 <= r && s[k0] == t[k]
  {
    assert t[k] == t[l..r + 1][k - l];
    assert t[k] in multiset(t[l..r + 1]);
    var i :| 0 <= i < r + 1 - l && s[l..r + 1][i] == t[k];
    k0 := l + i;
  }

  lemma PermWithin(s: seq<nat>, t: seq<nat>, l: int, r: int, S: set<nat>)
    requires 0 <= l <= r + 1 && r < |s| && Perm(s, t, l, r) && Within(s, l, r, S)
    ensures Within(t, l, r, S)
  {
    forall k | l <= k <= r ensures t[k] in S { var k0 := PermFrom(s, t, l, r, k); }
  }

  function Log2(n: nat): nat
    requires n > 0
  {
    if n < 2 then 0 else 1 + Log2(n / 2)
  }

  lemma {:induction false} Log2Monotone(m: nat, n: nat)
    requires 0 < m <= n
    ensures Log2(m) <= Log2(n)
  {
    if m >= 2 { Log2Monotone(m / 2, n / 2); }
  }

  /** Everything from `left` to `l` is at most `x`, everything from `r` to `right` at least `x`. */
  ghost predicate Split(s: seq<nat>, left: int, right: int, i: int, j: int, x: nat, cmp: Compare)
    requires 0 <= left && right < |s|
  {
    && (forall k | left <= k < i && k <= right :: cmp(s[k], x) <= 0)
    && (forall k | j < k <= right && left <= k :: cmp(x, s[k]) <= 0)
  }

  lemma SplitGrow(s: seq<nat>, left: int, right: int, i: int, j: int, i': int, j': int, x: nat, cmp: Compare)
    requires 0 <= left <= i <= i' && j' <= j <= right < |s| && i' <= right && left <= j'
    requires Split(s, left, right, i, j, x, cmp)
    requires forall k | i <= k < i' :: cmp(s[k], x) < 0
    requires forall k | j' < k <= j :: cmp(x, s[k]) < 0
    ensures Split(s, left, right, i', j', x, cmp)
  {
  }

  lemma SplitExchange(s: seq<nat>, left: int, right: int, i: int, j: int, x: nat, cmp: Compare, S: set<nat>)
    requires 0 <= left <= i <= j <= right < |s| && Split(s, left, right, i, j, x, cmp)
    requires PreorderOn(cmp, S) && Within(s, left, right, S) && x in S
    requires !(cmp(s[i], x) < 0) && !(cmp(x, s[j]) < 0)
    ensures Split(s[i := s[j]][j := s[i]], left, right, i + 1, j - 1, x, cmp)
  {
    var t := s[i := s[j]][j := s[i]];
    assert cmp(s[j], x) <= 0 && cmp(x, s[i]) <= 0;
    forall k | left <= k < i + 1 && k <= right ensures cmp(t[k], x) <= 0 {
      if k < i { assert t[k] == s[k]; }
    }
    forall k | j - 1 < k <= right && left <= k ensures cmp(x, t[k]) <= 0 {
      if k > j { assert t[k] == s[k]; }
    }
  }

  // ---------------------------------------------------------------- the order that comes out

  /** Where the upward scan from `i` stops. */
  function Up(s: seq<nat>, i: int, x: nat, cmp: Compare): (r: int)
    requires 0 <= i
    ensures i <= r
    decreases |s| - i
  {
    if i < |s| && cmp(s[i], x) < 0 then Up(s, i + 1, x, cmp) else i
  }

  /** Where the downward scan from `j` stops. */
  function Down(s: seq<nat>, j: int, x: nat, cmp: Compare): (r: int)
    requires j < |s|
    ensures r <= j
    decreases j + 1
  {
    if 0 <= j && cmp(x, s[j]) < 0 then Down(s, j - 1, x, cmp) else j
  }

  /** What the partitioning loop makes of `s` from `i` and `j` on, and where it ends. */
  function PartitionOf(s: seq<nat>, i: int, j: int, x: nat, cmp: Compare): (r: (seq<nat>, int, int))
    requires 0 <= i && j < |s|
    ensures |r.0| == |s| && i <= r.1 && r.2 <= j
    decreases j - i + 1
  {
    if i > j then (s, i, j)
    else
      var i1, j1 := Up(s, i, x, cmp), Down(s, j, x, cmp);
      if i1 > j1 then (s, i1, j1) else PartitionOf(s[i1 := s[j1]][j1 := s[i1]], i1 + 1, j1 - 1, x, cmp)
  }

  /** What `QuickSort` makes of `s` for any comparator that calls an element equal to itself. (Only another one can
      leave the partition without progress.) */
  function SortOf(s: seq<nat>, l: int, r: int, cmp: Compare): (t: seq<nat>)
    requires 0 <= l <= r < |s|
    ensures |t| == |s|
    decreases r - l, 0
  {
    var (s1, i, j) := PartitionOf(s, l, r, s[(l + r + 1) / 2], cmp);
    if i <= l || r <= j then s1
    else if j - l <= r - i then PartOf(PartOf(s1, l, j, cmp), i, r, cmp)
    else PartOf(PartOf(s1, i, r, cmp), l, j, cmp)
  }

  /** A part is sorted only if it has two elements. */
  function PartOf(s: seq<nat>, l: int, r: int, cmp: Compare): (t: seq<nat>)
    requires 0 <= l && r < |s|
    ensures |t| == |s|
    decreases r - l, 1
  {
    if l < r then SortOf(s, l, r, cmp) else s
  }

  lemma {:induction false} UpIs(s: seq<nat>, i: int, i1: int, x: nat, cmp: Compare)
    requires 0 <= i <= i1 < |s| && (forall k | i <= k < i1 :: cmp(s[k], x) < 0) && !(cmp(s[i1], x) < 0)
    ensures Up(s, i, x, cmp) == i1
    decreases i1 - i
  {
    if i < i1 { UpIs(s, i + 1, i1, x, cmp); }
  }

  lemma {:induction false} DownIs(s: seq<nat>, j: int, j1: int, x: nat, cmp: Compare)
    requires 0 <= j1 <= j < |s| && (forall k | j1 < k <= j :: cmp(x, s[k]) < 0) && !(cmp(x, s[j1]) < 0)
    ensures Down(s, j, x, cmp) == j1
    decreases j - j1
  {
    if j1 < j { DownIs(s, j - 1, j1, x, cmp); }
  }

  lemma PartitionStep(s: seq<nat>, i: int, j: int, i1: int, j1: int, x: nat, cmp: Compare)
    requires 0 <= i <= j < |s| && i <= i1 < |s| && 0 <= j1 <= j
    requires (forall k | i <= k < i1 :: cmp(s[k], x) < 0) && !(cmp(s[i1], x) < 0)
    requires (forall k | j1 < k <= j :: cmp(x, s[k]) < 0) && !(cmp(x, s[j1]) < 0)
    ensures PartitionOf(s, i, j, x, cmp)
      == if i1 > j1 then (s, i1, j1) else PartitionOf(s[i1 := s[j1]][j1 := s[i1]], i1 + 1, j1 - 1, x, cmp)
  {
    UpIs(s, i, i1, x, cmp);
    DownIs(s, j, j1, x, cmp);
  }

  lemma PartitionEnd(s: seq<nat>, i: int, j: int, x: nat, cmp: Compare)
    requires 0 <= i && j < |s| && i > j
    ensures PartitionOf(s, i, j, x, cmp) == (s, i, j)
  {
  }

  method ScanUp(a: array<nat>, from: int, x: nat, cmp: Compare, ghost hi: int) returns (i: int)
    requires 0 <= from <= hi < a.Length && !(cmp(a[hi], x) < 0)
    ensures from <= i <= hi && !(cmp(a[i], x) < 0)
    ensures forall k | from <= k < i :: cmp(a[k], x) < 0
  {
    i := from;
    while cmp(a[i], x) < 0
      invariant from <= i <= hi
      invariant forall k | from <= k < i :: cmp(a[k], x) < 0
      decreases hi - i
    {
      i := i + 1;
    }
  }

  method ScanDown(a: array<nat>, from: int, x: nat, cmp: Compare, ghost lo: int) returns (j: int)
    requires 0 <= lo <= from < a.Length && !(cmp(x, a[lo]) < 0)
    ensures lo <= j <= from && !(cmp(x, a[j]) < 0)
    ensures forall k | j < k <= from :: cmp(x, a[k]) < 0
  {
    j := from;
    while cmp(x, a[j]) < 0
      invariant lo <= j <= from
      invariant forall k | j < k <= from :: cmp(x, a[k]) < 0
      decreases j
    {
      j := j - 1;
    }
  }

  method Exchange(a: array<nat>, i: int, j: int)
    requires 0 <= i <= j < a.Length
    modifies a
    ensures a[..] == old(a[..])[i := old(a[j])][j := old(a[i])]
  {
    if i < j {
      a[i], a[j] := a[j], a[i];
    }
  }

  lemma ExchangePerm(s: seq<nat>, i: int, j: int, l: int, r: int, S: set<nat>)
    requires 0 <= l <= i <= j <= r < |s| && Within(s, l, r, S)
    ensures var t := s[i := s[j]][j := s[i]]; Perm(s, t, l, r) && Within(t, l, r, S)
  {
    if i < j { PermSwap(s, i, j, l, r); } else { assert s[i := s[j]][j := s[i]] == s; }
    PermWithin(s, s[i := s[j]][j := s[i]], l, r, S);
  }

  lemma PivotStops(s: seq<nat>, k: int, left: int, right: int, cmp: Compare, S: set<nat>)
    requires 0 <= left <= k <= right < |s| && Within(s, left, right, S) && ReflexiveOn(cmp, S)
    ensures s[k] in S && cmp(s[k], s[k]) == 0
  {
  }

  /** One turn of the partitioning loop: both scans and, unless they crossed, the exchange. */
  method Turn(a: array<nat>, left: int, right: int, i: int, j: int, x: nat, cmp: Compare, ghost S: set<nat>,
      ghost lo: int, ghost hi: int)
    returns (i1: int, j1: int, crossed: bool)
    requires 0 <= left <= i <= j <= right < a.Length && i <= hi <= right && left <= lo <= j && x in S
    requires !(cmp(a[hi], x) < 0) && !(cmp(x, a[lo]) < 0) && Within(a[..], left, right, S)
    requires PreorderOn(cmp, S) ==> Split(a[..], left, right, i, j, x, cmp)
    modifies a
    ensures i <= i1 <= hi && lo <= j1 <= j && crossed == (i1 > j1) && (crossed ==> a[..] == old(a[..]))
    ensures !(cmp(a[if crossed then i1 else j1], x) < 0) && !(cmp(x, a[if crossed then j1 else i1]) < 0)
    ensures Perm(old(a[..]), a[..], left, right) && Within(a[..], left, right, S)
    ensures PartitionOf(old(a[..]), i, j, x, cmp) == if crossed then (a[..], i1, j1)
      else PartitionOf(a[..], i1 + 1, j1 - 1, x, cmp)
    ensures PreorderOn(cmp, S) ==>
      Split(a[..], left, right, if crossed then i1 else i1 + 1, if crossed then j1 else j1 - 1, x, cmp)
  {
    hide PartitionOf, PreorderOn, Split;
    i1 := ScanUp(a, i, x, cmp, hi);
    j1 := ScanDown(a, j, x, cmp, lo);
    crossed := i1 > j1;
    ghost var s := a[..];
    PartitionStep(s, i, j, i1, j1, x, cmp);
    if PreorderOn(cmp, S) { SplitGrow(s, left, right, i, j, i1, j1, x, cmp); }
    if !crossed {
      ExchangePerm(s, i1, j1, left, right, S);
      if PreorderOn(cmp, S) { SplitExchange(s, left, right, i1, j1, x, cmp, S); }
      Exchange(a, i1, j1);
    }
  }

  /** One partitioning pass. The scans stay inside the range for any deterministic comparator: the pivot
      stops both the first time, the pair exchanged last stops them afterwards. */
  method Partition(a: array<nat>, left: int, right: int, cmp: Compare, ghost S: set<nat>)
    returns (i: int, j: int, x: nat)
    requires 0 <= left <= right < a.Length
    requires Within(a[..], left, right, S) && ReflexiveOn(cmp, S)
    modifies a
    ensures left < i <= right + 1 && left - 1 <= j < right && j < i
    ensures Perm(old(a[..]), a[..], left, right)
    ensures x in S && Within(a[..], left, right, S)
    ensures PreorderOn(cmp, S) ==> Split(a[..], left, right, i, j, x, cmp)
    ensures x == old(a[(left + right + 1) / 2]) && (a[..], i, j) == PartitionOf(old(a[..]), left, right, x, cmp)
  {
    hide PartitionOf, PreorderOn, ReflexiveOn;
    assert cmp(a[(left + right + 1) / 2], a[(left + right + 1) / 2])
        == 0 by { PivotStops(a[..], (left + right + 1) / 2, left, right, cmp, S); }
    i, j := left, right;
    x := a[(i + j + 1) / 2];
    assert a[..][(i + j + 1) / 2] in S;
    ghost var lo, hi := (i + j + 1) / 2, (i + j + 1) / 2;
    ghost var goal := PartitionOf(a[..], left, right, x, cmp);
    while i <= j
      invariant left <= i <= right + 1 && left - 1 <= j <= right
      invariant Perm(old(a[..]), a[..], left, right) && Within(a[..], left, right, S)
      invariant i <= j ==> i <= hi <= right && left <= lo <= j && !(cmp(a[hi], x) < 0) && !(cmp(x, a[lo]) < 0)
      invariant if i == left then j == right && lo == hi else j < right
      invariant PreorderOn(cmp, S) ==> Split(a[..], left, right, i, j, x, cmp)
      invariant PartitionOf(a[..], i, j, x, cmp) == goal
      decreases j - i
    {
      ghost var s := a[..];
      var i1, j1, crossed := Turn(a, left, right, i, j, x, cmp, S, lo, hi);
      if crossed {
        i, j := i1, j1;
        break;
      }
      PermTrans(old(a[..]), s, a[..], left, right);
      lo, hi := i1, j1;
      i := i1 + 1;
      j := j1 - 1;
    }
    PartitionEnd(a[..], i, j, x, cmp);
  }

  /** Everything outside `l` to `r` is where it belongs in the range `left` to `right`. */
  ghost predicate Placed(s: seq<nat>, left: int, right: int, l: int, r: int, cmp: Compare)
    requires 0 <= left && right < |s|
  {
    forall p, q | left <= p < q <= right && (p < l || q > r) :: cmp(s[p], s[q]) <= 0
  }

  lemma PlacedPerm(s: seq<nat>, t: seq<nat>, left: int, right: int, l: int, r: int, cmp: Compare)
    requires 0 <= left <= l <= r + 1 <= right + 1 && right < |s| && Perm(s, t, l, r)
    requires Placed(s, left, right, l, r, cmp)
    ensures Placed(t, left, right, l, r, cmp)
  {
    forall p, q | left <= p < q <= right && (p < l || q > r) ensures cmp(t[p], t[q]) <= 0 {
      var p0, q0 := p, q;
      if l <= p <= r { p0 := PermFrom(s, t, l, r, p); }
      if l <= q <= r { q0 := PermFrom(s, t, l, r, q); }
      assert cmp(s[p0], s[q0]) <= 0;
    }
  }

  /** Sorting one side of the pivot keeps the split. */
  lemma SplitPerm(s: seq<nat>, t: seq<nat>, left: int, right: int, i: int, j: int, l: int, r: int, x: nat, cmp: Compare)
    requires 0 <= left <= l <= r + 1 <= right + 1 && right < |s| && Perm(s, t, l, r)
    requires r <= j || i <= l
    requires j < i && Split(s, left, right, i, j, x, cmp)
    ensures Split(t, left, right, i, j, x, cmp)
  {
    forall k | left <= k < i && k <= right ensures cmp(t[k], x) <= 0 {
      if l <= k <= r { var k0 := PermFrom(s, t, l, r, k); }
    }
    forall k | j < k <= right && left <= k ensures cmp(x, t[k]) <= 0 {
      if l <= k <= r { var k0 := PermFrom(s, t, l, r, k); }
    }
  }

  /** With one side sorted, the other side is all that is left to do. */
  lemma PlacedAfter(s: seq<nat>, left: int, right: int, l: int, r: int, i: int, j: int, x: nat, cmp: Compare,
      S: set<nat>, low: bool)
    requires 0 <= left <= l <= r <= right < |s| && l < i <= r + 1 && l - 1 <= j < r && j < i
    requires Placed(s, left, right, l, r, cmp) && Split(s, l, r, i, j, x, cmp)
    requires PreorderOn(cmp, S) && x in S && Within(s, l, r, S)
    requires if low then Sorted(s, l, j, cmp) else Sorted(s, i, r, cmp)
    ensures if low then Placed(s, left, right, i, r, cmp) else Placed(s, left, right, l, j, cmp)
  {
    if low {
      forall p, q | left <= p < q <= right && (p < i || q > r) ensures cmp(s[p], s[q]) <= 0 {
        if l <= p && q <= r && q > j { assert cmp(s[p], x) <= 0 && cmp(x, s[q]) <= 0; }
      }
    } else {
      forall p, q | left <= p < q <= right && (p < l || q > j) ensures cmp(s[p], s[q]) <= 0 {
        if l <= p && q <= r && p < i { assert cmp(s[p], x) <= 0 && cmp(x, s[q]) <= 0; }
      }
    }
  }

  /** `QuickSort`: a permutation of the range for any deterministic comparator that calls an element equal
      to itself, sorted if the comparator is a total preorder on the elements, and never nested deeper than
      the logarithm of the length. `depth` counts the activations that are open at once. */
  method Sort(a: array<nat>, left: int, right: int, cmp: Compare, ghost S: set<nat>) returns (depth: nat)
    requires 0 <= left <= right < a.Length
    requires Within(a[..], left, right, S) && ReflexiveOn(cmp, S)
    modifies a
    ensures Perm(old(a[..]), a[..], left, right)
    ensures PreorderOn(cmp, S) ==> Sorted(a[..], left, right, cmp)
    ensures a[..] == SortOf(old(a[..]), left, right, cmp)
    ensures depth <= Log2(right - left + 1) + 1
    decreases right - left, 2
  {
    hide SortOf;
    depth := 1;
    var l, r := left, right;
    var more := true;
    while more
      invariant left <= l <= right + 1 && left - 1 <= r <= right && (more ==> l <= r)
      invariant !more ==> l >= r
      invariant Perm(old(a[..]), a[..], left, right) && Within(a[..], left, right, S)
      invariant PreorderOn(cmp, S) ==> Placed(a[..], left, right, l, r, cmp)
      invariant depth <= Log2(right - left + 1) + 1
      invariant (if more then SortOf(a[..], l, r, cmp) else a[..]) == SortOf(old(a[..]), left, right, cmp)
      decreases more, r - l
    {
      ghost var s0 := a[..];
      var l', r', d := SortSmaller(a, l, r, cmp, S, left, right);
      PermTrans(old(a[..]), s0, a[..], left, right);
      Log2Monotone(r - l + 1, right - left + 1);
      if 1 + d > depth { depth := 1 + d; }
      l, r := l', r';
      more := l < r;
    }
  }

  /** One round of the outer loop: partition, sort the smaller part by recursion, and go on with the rest. */
  method SortSmaller(a: array<nat>, l: int, r: int, cmp: Compare, ghost S: set<nat>,
                     ghost left: int, ghost right: int)
    returns (l': int, r': int, d: nat)
    requires 0 <= left <= l <= r <= right < a.Length
    requires Within(a[..], left, right, S) && ReflexiveOn(cmp, S)
    requires PreorderOn(cmp, S) ==> Placed(a[..], left, right, l, r, cmp)
    modifies a
    ensures l <= l' && r' <= r && r' - l' < r - l && left <= l' <= right + 1 && left - 1 <= r' <= right
    ensures Perm(old(a[..]), a[..], left, right) && Within(a[..], left, right, S)
    ensures PreorderOn(cmp, S) ==> Placed(a[..], left, right, l', r', cmp)
    ensures 1 + d <= Log2(r - l + 1) + 1
    ensures PartOf(a[..], l', r', cmp) == SortOf(old(a[..]), l, r, cmp)
    decreases r - l, 1
  {
    hide SortOf, PartOf;
    ghost var s0 := a[..];
    var i, j, low;
    ghost var s1, x;
    i, j, low, d, s1, x := Divide(a, l, r, cmp, S);
    l', r' := if low then i else l, if low then r else j;
    Round(s0, s1, a[..], left, right, l, r, i, j, x, cmp, S, low);
    SortStep(s0, l, r, cmp);
  }

  /** Partition, then sort the part that is not longer; `s1` is the array between the two. */
  method Divide(a: array<nat>, l: int, r: int, cmp: Compare, ghost S: set<nat>)
    returns (i: int, j: int, low: bool, d: nat, ghost s1: seq<nat>, ghost x: nat)
    requires 0 <= l <= r < a.Length
    requires Within(a[..], l, r, S) && ReflexiveOn(cmp, S)
    modifies a
    ensures l < i <= r + 1 && l - 1 <= j < r && j < i && x in S
    ensures Perm(old(a[..]), s1, l, r)
    ensures Perm(s1, a[..], if low then l else i, if low then j else r)
    ensures PreorderOn(cmp, S) ==> Split(s1, l, r, i, j, x, cmp)
    ensures PreorderOn(cmp, S) ==> Sorted(a[..], if low then l else i, if low then j else r, cmp)
    ensures 1 + d <= Log2(r - l + 1) + 1
    ensures (s1, i, j) == PartitionOf(old(a[..]), l, r, old(a[(l + r + 1) / 2]), cmp) && low == (j - l <= r - i)
    ensures a[..] == PartOf(s1, if low then l else i, if low then j else r, cmp)
    decreases r - l, 0
  {
    hide PartitionOf, PartOf;
    i, j, x := Partition(a, l, r, cmp, S);
    s1 := a[..];
    low := j - l <= r - i;
    if low {
      d := SortPart(a, l, j, cmp, S);
    } else {
      d := SortPart(a, i, r, cmp, S);
    }
    DepthHalves(r - l + 1, if low then j - l + 1 else r - i + 1, d);
  }

  /** The recursive call on one part, made only if the part has two elements. */
  method SortPart(a: array<nat>, l: int, r: int, cmp: Compare, ghost S: set<nat>) returns (d: nat)
    requires 0 <= l <= r + 1 && r < a.Length
    requires Within(a[..], l, r, S) && ReflexiveOn(cmp, S)
    modifies a
    ensures Perm(old(a[..]), a[..], l, r)
    ensures PreorderOn(cmp, S) ==> Sorted(a[..], l, r, cmp)
    ensures d == 0 || (l <= r && d <= Log2(r - l + 1) + 1)
    ensures a[..] == PartOf(old(a[..]), l, r, cmp)
    decreases r - l, 3
  {
    hide SortOf;
    d := 0;
    if l < r { d := Sort(a, l, r, cmp, S); }
  }

  /** One round in terms of the order that comes out. */
  lemma SortStep(s: seq<nat>, l: int, r: int, cmp: Compare)
    requires 0 <= l <= r < |s|
    ensures var (s1, i, j) := PartitionOf(s, l, r, s[(l + r + 1) / 2], cmp);
      l < i && j < r ==>
        SortOf(s, l, r, cmp) ==
          if j - l <= r - i then PartOf(PartOf(s1, l, j, cmp), i, r, cmp) else PartOf(PartOf(s1, i, r, cmp), l, j, cmp)
  {
  }

  lemma Round(s0: seq<nat>, s1: seq<nat>, s2: seq<nat>, left: int, right: int, l: int, r: int, i: int, j: int, x: nat,
              cmp: Compare, S: set<nat>, low: bool)
    requires 0 <= left <= l <= r <= right < |s0| && l < i <= r + 1 && l - 1 <= j < r && j < i
    requires Within(s0, left, right, S) && x in S && Perm(s0, s1, l, r)
    requires Perm(s1, s2, if low then l else i, if low then j else r)
    requires PreorderOn(cmp, S) ==> Placed(s0, left, right, l, r, cmp)
    requires PreorderOn(cmp, S) ==> Split(s1, l, r, i, j, x, cmp)
    requires PreorderOn(cmp, S) ==> Sorted(s2, if low then l else i, if low then j else r, cmp)
    ensures Perm(s0, s2, left, right) && Within(s2, left, right, S)
    ensures PreorderOn(cmp, S) ==> Placed(s2, left, right, if low then i else l, if low then r else j, cmp)
  {
    AfterPart(s0, s1, left, right, l, r, S);
    AfterPart(s1, s2, left, right, if low then l else i, if low then j else r, S);
    PermTrans(s0, s1, s2, left, right);
    if PreorderOn(cmp, S) {
      PlacedPerm(s0, s1, left, right, l, r, cmp);
      PlacedAgain(s1, s2, left, right, l, r, i, j, x, cmp, S, low);
    }
  }

  lemma AfterPart(s: seq<nat>, t: seq<nat>, left: int, right: int, l: int, r: int, S: set<nat>)
    requires 0 <= left <= l <= r + 1 <= right + 1 && right < |s| && Perm(s, t, l, r) && Within(s, left, right, S)
    ensures Perm(s, t, left, right) && Within(t, left, right, S)
  {
    PermWiden(s, t, l, r, left, right);
    PermWithin(s, t, left, right, S);
  }

  lemma PlacedAgain(s: seq<nat>, t: seq<nat>, left: int, right: int, l: int, r: int, i: int, j: int, x: nat,
                    cmp: Compare, S: set<nat>, low: bool)
    requires 0 <= left <= l <= r <= right < |s| && l < i <= r + 1 && l - 1 <= j < r && j < i
    requires Placed(s, left, right, l, r, cmp) && Split(s, l, r, i, j, x, cmp)
    requires PreorderOn(cmp, S) && x in S && Within(s, left, right, S)
    requires if low then Perm(s, t, l, j) && Sorted(t, l, j, cmp) else Perm(s, t, i, r) && Sorted(t, i, r, cmp)
    ensures if low then Placed(t, left, right, i, r, cmp) else Placed(t, left, right, l, j, cmp)
  {
    var pl, pr := if low then l else i, if low then j else r;
    PermWiden(s, t, pl, pr, l, r);
    PlacedPerm(s, t, left, right, l, r, cmp);
    SplitPerm(s, t, l, r, i, j, pl, pr, x, cmp);
    AfterPart(s, t, left, right, pl, pr, S);
    PlacedAfter(t, left, right, l, r, i, j, x, cmp, S, low);
  }

  /** The part sorted by recursion is at most half of the range. */
  lemma DepthHalves(n: int, m: int, d: nat)
    requires 1 <= n && 2 * m <= n
    requires d == 0 || (m > 0 && d <= Log2(m) + 1)
    ensures 1 + d <= Log2(n) + 1
  {
    if d > 0 { Log2Monotone(m, n / 2); }
  }

  // ---------------------------------------------------------------- the free order of handles

  const SEGMENT_SIZE: nat := 0x10000

  /** The segment a handle lies in; segment 0 stands for no segment. */
  function SegmentOf(h: nat): nat {
    h / SEGMENT_SIZE
  }

  /** `CompareHandlesByFreeOrder`, given the sequence number of every segment. */
  function FreeOrder(sequence: nat -> nat): Compare {
    (p: nat, q: nat) =>
      if SegmentOf(p) == SegmentOf(q) then q - p
      else if SegmentOf(p) != 0 then
        if SegmentOf(q) != 0 then sequence(SegmentOf(q)) - sequence(SegmentOf(p)) else 1
      else if SegmentOf(q) != 0 then -1
      else 0
  }

  /** In free order what lies in no segment comes first, then the segments with the higher sequence numbers, and within
      a segment the higher handles. */
  lemma HighestFirst(sequence: nat -> nat, s: seq<nat>, i: nat, j: nat)
    requires i < j < |s| && Sorted(s, 0, |s| - 1, FreeOrder(sequence))
    ensures if SegmentOf(s[i]) == SegmentOf(s[j]) then s[i] >= s[j]
            else SegmentOf(s[j]) != 0 &&
                 (SegmentOf(s[i]) != 0 ==> sequence(SegmentOf(s[i])) >= sequence(SegmentOf(s[j])))
  {
    assert FreeOrder(sequence)(s[i], s[j]) <= 0;
  }

  /** Two handles of one segment and a handle of another one with the same sequence number. */
  ghost predicate Clash(sequence: nat -> nat, S: set<nat>) {
    exists p, p', q | p in S && p' in S && q in S ::
      && p != p' && SegmentOf(p) == SegmentOf(p') && SegmentOf(q) != SegmentOf(p)
      && SegmentOf(p) != 0 && SegmentOf(q) != 0 && sequence(SegmentOf(q)) == sequence(SegmentOf(p))
  }

  /** The free order always calls a handle equal to itself, and it is a total preorder on a set of handles
      exactly when no two segments with several handles between them share a sequence number. */
  lemma FreeOrderIsPreorder(sequence: nat -> nat, S: set<nat>)
    ensures ReflexiveOn(FreeOrder(sequence), S)
    ensures PreorderOn(FreeOrder(sequence), S) <==> !Clash(sequence, S)
  {
    if Clash(sequence, S) {
      ClashBreaksOrder(sequence, S);
    } else {
      var cmp := FreeOrder(sequence);
      forall x, y, z | x in S && y in S && z in S && cmp(x, y) <= 0 && cmp(y, z) <= 0 ensures cmp(x, z) <= 0 {
        FreeOrderTransitive(sequence, S, x, y, z);
      }
      assert forall x, y :: FreeOrder(sequence)(x, y) < 0 <==> FreeOrder(sequence)(y, x) > 0;
    }
  }

  lemma ClashBreaksOrder(sequence: nat -> nat, S: set<nat>)
    requires Clash(sequence, S)
    ensures !PreorderOn(FreeOrder(sequence), S)
  {
    var p, p', q :| p in S && p' in S && q in S
      && p != p' && SegmentOf(p) == SegmentOf(p') && SegmentOf(q) != SegmentOf(p)
      && SegmentOf(p) != 0 && SegmentOf(q) != 0 && sequence(SegmentOf(q)) == sequence(SegmentOf(p));
    var cmp := FreeOrder(sequence);
    var lo, hi := if p < p' then p else p', if p < p' then p' else p;
    assert cmp(lo, q) == 0 && cmp(q, hi) == 0 && cmp(lo, hi) > 0;
  }

  lemma FreeOrderTransitive(sequence: nat -> nat, S: set<nat>, x: nat, y: nat, z: nat)
    requires !Clash(sequence, S) && x in S && y in S && z in S
    requires FreeOrder(sequence)(x, y) <= 0 && FreeOrder(sequence)(y, z) <= 0
    ensures FreeOrder(sequence)(x, z) <= 0
  {
    if SegmentOf(x) == SegmentOf(z) && SegmentOf(y) != SegmentOf(x) && SegmentOf(x) != 0 && SegmentOf(y) != 0 {
      assert x == z || sequence(SegmentOf(y)) != sequence(SegmentOf(x));
    }
  }

  /** Sequence numbers wrap and repeat, so the free order need not be a preorder: here are three handles of
      two segments with one sequence number. */
  lemma FreeOrderCanFail()
    ensures !PreorderOn(FreeOrder(_ => 7), {0x11000, 0x11008, 0x21000})
  {
    var p, p', q := 0x11000, 0x11008, 0x21000;
    assert SegmentOf(p) == 1 && SegmentOf(p') == 1 && SegmentOf(q) == 2;
    assert Clash(_ => 7, {0x11000, 0x11008, 0x21000});
    FreeOrderIsPreorder(_ => 7, {0x11000, 0x11008, 0x21000});
  }
}
