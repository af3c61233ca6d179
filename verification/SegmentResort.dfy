/** Rebuilding the chains and the free list in block order (`SegmentResortChains` in src/gc/handletablecore.cpp). */
module SegmentResort {
  import opened FreeMask
  import opened SegmentModel
  import opened SegmentSweep
  import opened SegmentKeeps
  import opened SegmentInsert

  /** The blocks of type `t` from block `lo` up, in ascending order. */
  function Asc(btype: seq<nat>, t: nat, lo: nat): (r: seq<nat>)
    requires lo <= |btype|
    decreases |btype| - lo
  {
    if lo == |btype| then [] else (if btype[lo] == t then [lo] else []) + Asc(btype, t, lo + 1)
  }

  lemma {:induction false} InAsc(btype: seq<nat>, t: nat, lo: nat, b: nat)
    requires lo <= |btype|
    ensures b in Asc(btype, t, lo) <==> lo <= b < |btype| && btype[b] == t
    decreases |btype| - lo
  {
    if lo < |btype| { InAsc(btype, t, lo + 1, b); }
  }

  lemma {:induction false} AscAscends(btype: seq<nat>, t: nat, lo: nat, i: nat, j: nat)
    requires lo <= |btype| && i < j < |Asc(btype, t, lo)|
    ensures Asc(btype, t, lo)[i] < Asc(btype, t, lo)[j]
    decreases |btype| - lo
  {
    var r := Asc(btype, t, lo + 1);
    if btype[lo] == t {
      if i > 0 { AscAscends(btype, t, lo + 1, i - 1, j - 1); }
      assert r[j - 1] in r;
      InAsc(btype, t, lo + 1, r[j - 1]);
    } else {
      AscAscends(btype, t, lo + 1, i, j);
    }
  }

  lemma AscLists(btype: seq<nat>, t: nat)
    ensures Lists(btype, t, Asc(btype, t, 0))
  {
    var c := Asc(btype, t, 0);
    forall i, j | 0 <= i < j < |c| ensures c[i] != c[j] { AscAscends(btype, t, 0, i, j); }
    forall b: nat ensures b in c <==> b < |btype| && btype[b] == t { InAsc(btype, t, 0, b); }
  }

  /** Chain ends and links of one type when the backward scan has come down to block `u`. */
  ghost predicate Scanned(alloc: seq<nat>, btype: seq<nat>, t: nat, u: nat, first: nat) {
    u <= |btype| && Linear(alloc, Asc(btype, t, u), BLOCK_INVALID) && first == Head(Asc(btype, t, u), BLOCK_INVALID)
  }

  lemma ScanOwn(alloc: seq<nat>, btype: seq<nat>, t: nat, u: nat, first: nat)
    requires |alloc| == |btype| && u < |btype| && btype[u] == t && Scanned(alloc, btype, t, u + 1, first)
    ensures Scanned(alloc[u := first], btype, t, u, u)
    ensures Last(Asc(btype, t, u), BLOCK_INVALID) == Last(Asc(btype, t, u + 1), u)
  {
    var r, c := Asc(btype, t, u + 1), Asc(btype, t, u);
    assert c == [u] + r;
    InAsc(btype, t, u + 1, u);
    hide Asc;
    LinearCons(alloc, u, r, BLOCK_INVALID);
  }

  /** Putting a block in front of a list that it is not in. */
  lemma LinearCons(alloc: seq<nat>, u: nat, r: seq<nat>, end: nat)
    requires u < |alloc| && u !in r && Linear(alloc, r, end)
    ensures Linear(alloc[u := Head(r, end)], [u] + r, end)
  {
    var a, c := alloc[u := Head(r, end)], [u] + r;
    assert forall k | 0 <= k < |r| :: r[k] in r && a[r[k]] == alloc[r[k]];
    assert forall k | 0 < k < |c| :: c[k] == r[k - 1];
  }

  lemma ScanOther(alloc: seq<nat>, btype: seq<nat>, t: nat, u: nat, first: nat, v: nat)
    requires |alloc| == |btype| && u < |btype| && btype[u] != t && Scanned(alloc, btype, t, u + 1, first)
    ensures Scanned(alloc[u := v], btype, t, u, first)
    ensures Asc(btype, t, u) == Asc(btype, t, u + 1)
  {
    var r := Asc(btype, t, u + 1);
    InAsc(btype, t, u + 1, u);
    assert forall k | 0 <= k < |r| :: r[k] in r;
  }

  /** The scan at block `u`, for all types and the free list. */
  ghost predicate Scan(alloc: seq<nat>, btype: seq<nat>, u: nat, curr: seq<nat>, high: seq<nat>, free: nat) {
    && |alloc| == |btype| && u <= |btype| && |curr| == |high| == MAX_INTERNAL_TYPES
    && Scanned(alloc, btype, TYPE_INVALID, u, free)
    && (forall t | 0 <= t < MAX_INTERNAL_TYPES :: Scanned(alloc, btype, t, u, curr[t]))
    && (forall t | 0 <= t < MAX_INTERNAL_TYPES :: high[t] == Last(Asc(btype, t, u), BLOCK_INVALID))
  }

  lemma ScanTyped(alloc: seq<nat>, btype: seq<nat>, u: nat, curr: seq<nat>, high: seq<nat>, free: nat)
    requires u < |btype| <= 240 && Scan(alloc, btype, u + 1, curr, high, free) && btype[u] < MAX_INTERNAL_TYPES
    ensures var t := btype[u];
      Scan(alloc[u := curr[t]], btype, u, curr[t := u], if high[t] == BLOCK_INVALID then high[t := u] else high, free)
  {
    hide Scanned;
    var v := btype[u];
    var alloc' := alloc[u := curr[v]];
    ScanOther(alloc, btype, TYPE_INVALID, u, free, curr[v]);
    ScanOwn(alloc, btype, v, u, curr[v]);
    LastBlock(btype, v, u + 1);
    assert Asc(btype, v, u + 1) == [] ==> Last(Asc(btype, v, u + 1), u) == u;
    forall t | 0 <= t < MAX_INTERNAL_TYPES && t != v
      ensures Scanned(alloc', btype, t, u, curr[t]) && Asc(btype, t, u) == Asc(btype, t, u + 1)
    {
      ScanOther(alloc, btype, t, u, curr[t], curr[v]);
    }
  }

  lemma LastBlock(btype: seq<nat>, t: nat, u: nat)
    requires u <= |btype| <= 240
    ensures Last(Asc(btype, t, u), BLOCK_INVALID) == BLOCK_INVALID <==> Asc(btype, t, u) == []
    ensures Head(Asc(btype, t, u), BLOCK_INVALID) == BLOCK_INVALID <==> Asc(btype, t, u) == []
  {
    var c := Asc(btype, t, u);
    if c != [] {
      assert c[|c| - 1] in c && c[0] in c;
      InAsc(btype, t, u, c[|c| - 1]);
      InAsc(btype, t, u, c[0]);
    }
  }

  lemma ScanUntyped(alloc: seq<nat>, btype: seq<nat>, u: nat, curr: seq<nat>, high: seq<nat>, free: nat)
    requires u < |btype| && Scan(alloc, btype, u + 1, curr, high, free) && btype[u] == TYPE_INVALID
    ensures Scan(alloc[u := free], btype, u, curr, high, u)
  {
    var alloc' := alloc[u := free];
    ScanOwn(alloc, btype, TYPE_INVALID, u, free);
    forall t | 0 <= t < MAX_INTERNAL_TYPES
      ensures Scanned(alloc', btype, t, u, curr[t]) && Asc(btype, t, u) == Asc(btype, t, u + 1)
    {
      ScanOther(alloc, btype, t, u, curr[t], free);
    }
  }

  /** The lowest block of the free run at the end of the segment, as the scan sees it at block `u`. */
  ghost predicate EmptyRun(btype: seq<nat>, u: nat, e: nat, contiguous: bool) {
    && u <= e <= |btype| && (forall x | e <= x < |btype| :: btype[x] == TYPE_INVALID)
    && (if contiguous then e == u else e > u && btype[e - 1] != TYPE_INVALID)
  }

  lemma {:induction false} AscTail(btype: seq<nat>, lo: nat, e: nat)
    requires lo <= |btype| && e <= |btype| && forall x | e <= x < |btype| :: btype[x] == TYPE_INVALID
    ensures var c, n := Asc(btype, TYPE_INVALID, lo), |btype|;
      && (lo <= e ==> |c| >= n - e)
      && (lo >= e ==> |c| == n - lo)
      && (forall k | |c| - (n - e) <= k < |c| && 0 <= k :: c[k] == n - (|c| - k))
      && (forall k | 0 <= k < |c| - (n - e) :: c[k] < e)
    decreases |btype| - lo
  {
    if lo < |btype| {
      AscTail(btype, lo + 1, e);
      var r, c, n := Asc(btype, TYPE_INVALID, lo + 1), Asc(btype, TYPE_INVALID, lo), |btype|;
      if btype[lo] == TYPE_INVALID {
        assert c == [lo] + r;
        assert forall k | 1 <= k < |c| :: c[k] == r[k - 1];
      } else {
        assert c == r;
      }
    }
  }

  /** The lines after a resort. */
  lemma ResortLines(s: Seg, s': Seg, e: nat, P: nat)
    requires Sizes(s, P) && s'.btype == s.btype && s'.commit == s.commit && s'.decommit == s.decommit && s'.empty == e
    requires s.empty <= s.commit <= 15 * P && s.commit % P == 0 && s.decommit <= s.commit && s.decommit % P == 0
    requires forall b | 0 <= b < 15 * P && s.btype[b] != TYPE_INVALID :: b < s.empty
    requires e <= 15 * P && (forall x | e <= x < 15 * P :: s.btype[x] == TYPE_INVALID) && (e > 0 ==>
      s.btype[e - 1] != TYPE_INVALID)
    ensures e <= s.empty && Lines(s', Asc(s.btype, TYPE_INVALID, 0), P)
  {
    AscTail(s.btype, 0, e);
  }

  /** One chain closed into a ring; `n` chains are done. */
  ghost predicate Closing(s: Seg, n: nat) {
    && |s.alloc| == |s.btype| && |s.tail| == |s.hint| == MAX_INTERNAL_TYPES && n <= MAX_INTERNAL_TYPES
    && Linear(s.alloc, Asc(s.btype, TYPE_INVALID, 0), BLOCK_INVALID)
    && (forall t | 0 <= t < n :: ChainOk(s, t, Asc(s.btype, t, 0)))
    && (forall t | n <= t < MAX_INTERNAL_TYPES :: Links(s.alloc, Asc(s.btype, t, 0)))
  }

  function RingAlloc(alloc: seq<nat>, c: seq<nat>): seq<nat>
    requires c != [] ==> c[|c| - 1] < |alloc|
  {
    if c == [] then alloc else alloc[c[|c| - 1] := c[0]]
  }

  lemma RingOther(alloc: seq<nat>, btype: seq<nat>, t: nat, u: nat)
    requires |alloc| == |btype| && t != u
    ensures var c := Asc(btype, t, 0);
      && (c != [] ==> c[|c| - 1] < |alloc|)
      && (Links(alloc, Asc(btype, u, 0)) ==> Links(RingAlloc(alloc, c), Asc(btype, u, 0)))
      && (forall end :: Linear(alloc, Asc(btype, u, 0), end) ==> Linear(RingAlloc(alloc, c), Asc(btype, u, 0), end))
      && (Circular(alloc, Asc(btype, u, 0)) ==> Circular(RingAlloc(alloc, c), Asc(btype, u, 0)))
  {
    hide Asc, Links, Linear, Circular;
    var c, d := Asc(btype, t, 0), Asc(btype, u, 0);
    if c != [] {
      assert c[|c| - 1] in c;
      InAsc(btype, t, 0, c[|c| - 1]);
      InAsc(btype, u, 0, c[|c| - 1]);
      LinksElsewhere(alloc, c[|c| - 1], c[0], d);
    }
  }

  /** Links between blocks of `d` do not depend on what another block is linked to. */
  lemma LinksElsewhere(alloc: seq<nat>, x: nat, y: nat, d: seq<nat>)
    requires x < |alloc| && x !in d
    ensures Links(alloc, d) ==> Links(alloc[x := y], d)
    ensures forall end :: Linear(alloc, d, end) ==> Linear(alloc[x := y], d, end)
    ensures Circular(alloc, d) ==> Circular(alloc[x := y], d)
  {
    assert forall k | 0 <= k < |d| :: d[k] in d;
  }

  lemma RingOwn(alloc: seq<nat>, btype: seq<nat>, t: nat)
    requires |alloc| == |btype| && Links(alloc, Asc(btype, t, 0))
    ensures Circular(RingAlloc(alloc, Asc(btype, t, 0)), Asc(btype, t, 0))
  {
    var c := Asc(btype, t, 0);
    forall i | 0 <= i < |c| - 1 ensures c[i] != c[|c| - 1] { AscAscends(btype, t, 0, i, |c| - 1); }
  }

  /** Closing the ring of type `n`. */
  lemma CloseNext(s: Seg, s': Seg, n: nat)
    requires n < MAX_INTERNAL_TYPES && Closing(s, n)
    requires s'.btype == s.btype && |s'.tail| == |s'.hint| == MAX_INTERNAL_TYPES
    requires s'.alloc == RingAlloc(s.alloc, Asc(s.btype, n, 0))
    requires forall t | 0 <= t < MAX_INTERNAL_TYPES && t != n :: s'.tail[t] == s.tail[t] && s'.hint[t] == s.hint[t]
    requires Ends(Asc(s.btype, n, 0), s'.tail[n], s'.hint[n])
    ensures Closing(s', n + 1)
  {
    hide Linear, Links, Circular, Ends, Lists;
    RingOther(s.alloc, s.btype, n, TYPE_INVALID);
    RingOwn(s.alloc, s.btype, n);
    AscLists(s.btype, n);
    forall t | 0 <= t < n + 1 ensures ChainOk(s', t, Asc(s'.btype, t, 0)) {
      if t < n { assert ChainOk(s, t, Asc(s.btype, t, 0)); RingOther(s.alloc, s.btype, n, t); }
    }
    forall t | n + 1 <= t < MAX_INTERNAL_TYPES ensures Links(s'.alloc, Asc(s'.btype, t, 0)) {
      RingOther(s.alloc, s.btype, n, t);
    }
  }

  /** What the rebuild needs of the segment: everything but the links. A type without a tail has no blocks and
      no hint; any other hint is at least a block number. */
  ghost predicate Linkless(s: Seg, owed: seq<int>, P: nat, userData: seq<bool>) {
    && Sizes(s, P) && |userData| == MAX_PUBLIC_TYPES && Types(s) && Counts(s, owed)
    && s.empty <= s.commit <= 15 * P && s.commit % P == 0 && s.decommit <= s.commit && s.decommit % P == 0
    && (forall b | 0 <= b < 15 * P && s.btype[b] != TYPE_INVALID :: b < s.empty)
    && DataLinks(s, userData)
    && EndsKnown(s)
  }

  ghost predicate EndsKnown(s: Seg)
    requires |s.tail| == |s.hint| == MAX_INTERNAL_TYPES
  {
    forall t | 0 <= t < MAX_INTERNAL_TYPES :: EndKnown(s, t)
  }

  ghost predicate EndKnown(s: Seg, t: nat)
    requires t < |s.tail| == |s.hint|
  {
    if s.tail[t] == BLOCK_INVALID then s.hint[t] == BLOCK_INVALID && TYPE_INVALID != t
        && Unused(s.btype, t) else s.hint[t] < |s.btype|
  }

  lemma EndsKept(s: Seg, s': Seg)
    requires |s.tail| == |s.hint| == MAX_INTERNAL_TYPES && EndsKnown(s)
    requires s'.btype == s.btype && s'.tail == s.tail && s'.hint == s.hint
    ensures EndsKnown(s')
  {
    forall t | 0 <= t < MAX_INTERNAL_TYPES ensures EndKnown(s', t) { assert EndKnown(s, t); }
  }

  ghost predicate Unused(btype: seq<nat>, t: nat) {
    forall b | 0 <= b < |btype| :: btype[b] != t
  }

  function SortedShape(btype: seq<nat>, owed: seq<int>): Shape {
    Shape(seq(MAX_INTERNAL_TYPES, t requires 0 <= t => Asc(btype, t, 0)), Asc(btype, TYPE_INVALID, 0), owed)
  }

  lemma ClosingFrame(s: Seg, s': Seg, n: nat)
    requires Closing(s, n) && s'.alloc == s.alloc && s'.btype == s.btype && s'.tail == s.tail && s'.hint == s.hint
    ensures Closing(s', n)
  {
    forall t | 0 <= t < n ensures ChainOk(s', t, Asc(s'.btype, t, 0)) { assert ChainOk(s, t, Asc(s.btype, t, 0)); }
  }

  lemma Rebuilt(s: Seg, s': Seg, owed: seq<int>, e: nat, P: nat, userData: seq<bool>)
    requires Linkless(s, owed, P, userData) && Closing(s', MAX_INTERNAL_TYPES)
    requires s'.btype == s.btype && s'.mask == s.mask && s'.udata == s.udata && s'.locks == s.locks
      && s'.count == s.count
    requires s'.commit == s.commit && s'.decommit == s.decommit && s'.empty == e
    requires EmptyRun(s.btype, 0, e, e == 0) && s'.free == Head(Asc(s.btype, TYPE_INVALID, 0), BLOCK_INVALID)
    ensures Loose(s', SortedShape(s.btype, owed), P, userData) && s'.empty <= s.empty
  {
    hide Linear, ChainOk, Lists;
    AscLists(s.btype, TYPE_INVALID);
    ResortLines(s, s', e, P);
  }

  lemma ScanStart(alloc: seq<nat>, btype: seq<nat>)
    requires |alloc| == |btype|
    ensures Scan(alloc, btype, |btype|, seq(MAX_INTERNAL_TYPES, _ => BLOCK_INVALID),
      seq(MAX_INTERNAL_TYPES, _ => BLOCK_INVALID), BLOCK_INVALID)
  {
  }

  lemma ScanDone(s: Seg, curr: seq<nat>, high: seq<nat>, free: nat)
    requires |s.tail| == |s.hint| == MAX_INTERNAL_TYPES && Scan(s.alloc, s.btype, 0, curr, high, free)
    ensures Closing(s, 0) && free == Head(Asc(s.btype, TYPE_INVALID, 0), BLOCK_INVALID)
    ensures |curr| == |high| == MAX_INTERNAL_TYPES
    ensures forall t | 0 <= t < MAX_INTERNAL_TYPES :: curr[t] == Head(Asc(s.btype, t, 0), BLOCK_INVALID)
    ensures forall t | 0 <= t < MAX_INTERNAL_TYPES :: high[t] == Last(Asc(s.btype, t, 0), BLOCK_INVALID)
  {
    assert forall t | 0 <= t < MAX_INTERNAL_TYPES :: Scanned(s.alloc, s.btype, t, 0, curr[t]);
    forall t | 0 <= t < MAX_INTERNAL_TYPES ensures Links(s.alloc, Asc(s.btype, t, 0)) {
      assert Scanned(s.alloc, s.btype, t, 0, curr[t]);
    }
  }

  lemma AscEnds(btype: seq<nat>, t: nat)
    ensures var c := Asc(btype, t, 0);
      && (c != [] ==> c[|c| - 1] < |btype| && c[0] in c)
      && (forall b: nat :: b in c <==> b < |btype| && btype[b] == t)
  {
    AscLists(btype, t);
    var c := Asc(btype, t, 0);
    if c != [] { assert c[|c| - 1] in c; }
  }

  // ---------------------------------------------------------------- scavenging

  /** An empty, unlocked block of a public type is marked free; its links stay as they are for now. */
  function Scavenged(s: Seg, b: nat): Seg
    requires b < |s.btype| == |s.udata| && s.btype[b] < |s.count|
    requires s.udata[b] != BLOCK_INVALID ==> s.udata[b] < |s.locks| && s.locks[s.udata[b]] > 0
  {
    s.(locks := DropLock(s.locks, s.udata[b]), udata := s.udata[b := BLOCK_INVALID],
        btype := s.btype[b := TYPE_INVALID],
       count := s.count[s.btype[b] := s.count[s.btype[b]] - HANDLES_PER_BLOCK])
  }

  /** Everything the scavenging loop keeps; `c` is the chain of data blocks. */
  ghost predicate Scavenging(s: Seg, owed: seq<int>, c: seq<nat>, P: nat, userData: seq<bool>) {
    Linkless(s, owed, P, userData) && DataGiven(s, userData) && ChainOk(s, DATABLOCK, c)
  }

  lemma ScavengeCounts(s: Seg, b: nat, owed: seq<int>)
    requires |s.mask| == 2 * |s.btype| && |s.count| == MAX_INTERNAL_TYPES && Counts(s, owed)
    requires b < |s.btype| && s.btype[b] < MAX_INTERNAL_TYPES && EmptyBlock(s.mask, b)
    ensures Counts(s.(btype := s.btype[b := TYPE_INVALID],
      count := s.count[s.btype[b] := s.count[s.btype[b]] - HANDLES_PER_BLOCK]), owed)
  {
    EmptyBlockFree(s.mask, b);
    var t := s.btype[b];
    forall u | 0 <= u < MAX_INTERNAL_TYPES
      ensures s.count[t := s.count[t] - HANDLES_PER_BLOCK][u]
        == TypeFree(s.mask, s.btype[b := TYPE_INVALID], u, |s.btype|) + owed[u]
    {
      RetypeCount(s.mask, s.btype, b, TYPE_INVALID, u, |s.btype|);
    }
  }

  lemma ScavengeData(s: Seg, b: nat, userData: seq<bool>)
    requires |s.udata| == |s.btype| == |s.locks| <= 240 && |userData| == MAX_PUBLIC_TYPES
      && |s.count| == MAX_INTERNAL_TYPES
    requires b < |s.btype| && s.btype[b] < MAX_PUBLIC_TYPES && s.locks[b] == 0 && DataLinks(s, userData)
    ensures s.udata[b] != BLOCK_INVALID ==> s.udata[b] < |s.locks| && s.locks[s.udata[b]] == 1
    ensures var s' := Scavenged(s, b);
      && DataLinks(s', userData) && (DataGiven(s, userData) ==> DataGiven(s', userData))
      && (s.udata[b] == BLOCK_INVALID && DataOwned(s) ==> DataOwned(s'))
  {
    var d := s.udata[b];
    if d != BLOCK_INVALID { assert d in s.udata; }
    var s' := Scavenged(s, b);
    forall x | 0 <= x < |s.btype| && s.btype[x] == DATABLOCK ensures x in s'.udata <==> x in s.udata && x != d {
      if x in s.udata && x != d {
        var a :| 0 <= a < |s.udata| && s.udata[a] == x;
        assert s'.udata[a] == x;
      }
      if x in s'.udata {
        var a :| 0 <= a < |s'.udata| && s'.udata[a] == x;
        assert s.udata[a] == x;
      }
    }
  }

  lemma ScavengeStep(s: Seg, owed: seq<int>, c: seq<nat>, b: nat, P: nat, userData: seq<bool>)
    requires Scavenging(s, owed, c, P, userData) && b < 15 * P && s.btype[b] < MAX_PUBLIC_TYPES
    requires EmptyBlock(s.mask, b) && s.locks[b] == 0
    ensures s.udata[b] != BLOCK_INVALID ==> s.udata[b] < |s.locks| && s.locks[s.udata[b]] > 0
    ensures Scavenging(Scavenged(s, b), owed, c, P, userData)
    ensures s.udata[b] == BLOCK_INVALID && DataOwned(s) ==> DataOwned(Scavenged(s, b))
  {
    hide Counts, DataLinks, DataGiven, DataOwned;
    ScavengeData(s, b, userData);
    ScavengeCounts(s, b, owed);
    var s' := Scavenged(s, b);
    assert Counts(s', owed) by { CountsFrame(s.(btype := s'.btype, count := s'.count), s', owed); }
    ScavengeEnds(s, s', b, c);
  }

  lemma CountsFrame(s: Seg, s': Seg, owed: seq<int>)
    requires |s.mask| == 2 * |s.btype| && |s.count| == MAX_INTERNAL_TYPES && Counts(s, owed)
    requires s'.mask == s.mask && s'.btype == s.btype && s'.count == s.count
    ensures Counts(s', owed)
  {
  }

  lemma ScavengeEnds(s: Seg, s': Seg, b: nat, c: seq<nat>)
    requires |s.tail| == |s.hint| == MAX_INTERNAL_TYPES && b < |s.btype| && EndsKnown(s)
    requires s.btype[b] != DATABLOCK && ChainOk(s, DATABLOCK, c)
    requires s'.btype == s.btype[b := TYPE_INVALID] && s'.tail == s.tail && s'.hint == s.hint && s'.alloc == s.alloc
    ensures EndsKnown(s') && ChainOk(s', DATABLOCK, c)
  {
    forall t | 0 <= t < MAX_INTERNAL_TYPES ensures EndKnown(s', t) { assert EndKnown(s, t); }
  }

  /** After the pass over the data blocks that lost their owners, every data block has one again. */
  lemma ScavengeSwept(s: Seg, s': Seg, owed: seq<int>, c: seq<nat>, P: nat, userData: seq<bool>)
    requires Scavenging(s, owed, c, P, userData) && Swept(s, s', DATABLOCK, c)
    ensures Linkless(s', owed, P, userData) && DataGiven(s', userData) && DataOwned(s')
  {
    hide Types, Counts, DataLinks, DataGiven, DataOwned;
    SweptTypes(s, s', DATABLOCK, c);
    SweptCounts(s, s', DATABLOCK, c, owed);
    SweptDataLinks(s, s', DATABLOCK, c, userData);
    SweptGiven(s, s', DATABLOCK, c, userData);
    SweptDataOwned(s, s', c, userData);
    SweptEnds(s, s', c, P);
  }

  lemma SweptEnds(s: Seg, s': Seg, c: seq<nat>, P: nat)
    requires Sizes(s, P) && EndsKnown(s) && ChainOk(s, DATABLOCK, c) && Swept(s, s', DATABLOCK, c)
    requires forall b | 0 <= b < 15 * P && s.btype[b] != TYPE_INVALID :: b < s.empty
    ensures Sizes(s', P) && EndsKnown(s')
    ensures forall b | 0 <= b < 15 * P && s'.btype[b] != TYPE_INVALID :: b < s'.empty
  {
    hide Circular, Linear, Removable, Part;
    assert forall b | 0 <= b < |s.btype| :: s'.btype[b] == s.btype[b] || s'.btype[b] == TYPE_INVALID;
    assert ChainOk(s', DATABLOCK, Survivors(s, c)) by { SweptOwnChain(s, s', DATABLOCK, c); }
    DataEnds(s', Survivors(s, c));
    forall t | 0 <= t < MAX_INTERNAL_TYPES && t != DATABLOCK
      ensures EndKnown(s', t)
    {
      assert EndKnown(s, t);
      assert s'.tail[t] == s.tail[t] && s'.hint[t] == s.hint[t];
    }
  }

  lemma DataEnds(s: Seg, c: seq<nat>)
    requires Shaped(s, DATABLOCK) && ChainOk(s, DATABLOCK, c)
    ensures EndKnown(s, DATABLOCK)
  {
    TailNone(s, DATABLOCK, c);
    if s.tail[DATABLOCK] == BLOCK_INVALID {
      assert forall b: nat | b < |s.btype| :: b !in c;
    }
  }

  lemma ScavengeReady(s: Seg, owed: seq<int>, c: seq<nat>, P: nat, userData: seq<bool>)
    requires Scavenging(s, owed, c, P, userData)
    ensures Shaped(s, DATABLOCK) && DataReady(s, c) && ChainOk(s, DATABLOCK, c)
  {
    hide Counts, Types;
    assert forall b | b in c :: s.udata[b] == BLOCK_INVALID;
  }

  lemma ScavengeStart(s: Seg, sh: Shape, P: nat, userData: seq<bool>)
    requires Inv(s, sh, P, userData)
    ensures Sizes(s, P) && |sh.chain| == MAX_INTERNAL_TYPES && |userData| == MAX_PUBLIC_TYPES
    ensures Scavenging(s, sh.owed, sh.chain[DATABLOCK], P, userData) && DataOwned(s)
  {
    hide Counts, DataLinks, DataGiven, DataOwned, FreeOk;
    assert ChainOk(s, DATABLOCK, sh.chain[DATABLOCK]);
    forall t | 0 <= t < MAX_INTERNAL_TYPES
      ensures if s.tail[t] == BLOCK_INVALID then s.hint[t] == BLOCK_INVALID
        && Unused(s.btype, t) else s.hint[t] < |s.btype|
    {
      assert ChainOk(s, t, sh.chain[t]);
      TailNone(s, t, sh.chain[t]);
      if s.tail[t] == BLOCK_INVALID {
        assert forall b: nat | b < |s.btype| :: b !in sh.chain[t];
      }
    }
  }

  /** What scavenging did to the blocks: exactly the empty, unlocked blocks of public types below `n` are free now. */
  ghost predicate ScavengedTo(s0: Seg, s: Seg, n: nat)
    requires |s0.mask| == 2 * |s0.locks| && |s0.locks| == |s0.btype|
  {
    && |s.btype| == |s0.btype| && |s.locks| == |s0.locks| && s.mask == s0.mask
    && (forall b | 0 <= b < |s0.btype| ::
          s.btype[b] == if b < n && s0.btype[b] < MAX_PUBLIC_TYPES
              && b in Removable(s0) then TYPE_INVALID else s0.btype[b])
    && (forall b | 0 <= b < |s0.btype| && s0.btype[b] != DATABLOCK :: s.locks[b] == s0.locks[b])
  }

  lemma ScavengeSizes(s: Seg, owed: seq<int>, c: seq<nat>, P: nat, userData: seq<bool>)
    requires Scavenging(s, owed, c, P, userData)
    ensures Sizes(s, P) && s.empty <= 15 * P
    ensures forall b | 0 <= b < |s.btype| && s.btype[b] != TYPE_INVALID :: b < s.empty
    ensures forall b | 0 <= b < |s.btype| && s.udata[b] != BLOCK_INVALID ::
      s.udata[b] < |s.btype| && s.btype[s.udata[b]] == DATABLOCK && s.locks[s.udata[b]] > 0
    ensures Shaped(s, DATABLOCK)
  {
    hide Counts, Types;
    assert forall b | 0 <= b < |s.udata| :: s.udata[b] in s.udata;
  }

  lemma ScavengedNext(s0: Seg, s: Seg, b: nat)
    requires Shaped(s0, DATABLOCK) && ScavengedTo(s0, s, b) && b < |s0.btype| && |s.udata| == |s.btype|
    requires s0.btype[b] < |s.count| || s0.btype[b] >= MAX_PUBLIC_TYPES
    requires s.udata[b] != BLOCK_INVALID ==>
      s.udata[b] < |s.locks| && s.btype[s.udata[b]] == DATABLOCK && s.locks[s.udata[b]] > 0
    ensures s.btype[b] < MAX_PUBLIC_TYPES && EmptyBlock(s.mask, b) && s.locks[b] == 0 ==>
      ScavengedTo(s0, Scavenged(s, b), b + 1)
    ensures !(s.btype[b] < MAX_PUBLIC_TYPES && EmptyBlock(s.mask, b) && s.locks[b] == 0) ==> ScavengedTo(s0, s, b + 1)
  {
    assert s.btype[b] == s0.btype[b];
  }

  lemma ScavengedNone(s: Seg)
    requires |s.mask| == 2 * |s.locks| && |s.locks| == |s.btype|
    ensures ScavengedTo(s, s, 0)
  {
  }

  lemma ScavengingLinkless(s: Seg, owed: seq<int>, c: seq<nat>, P: nat, userData: seq<bool>)
    requires Scavenging(s, owed, c, P, userData)
    ensures Linkless(s, owed, P, userData) && DataGiven(s, userData)
  {
  }

  /** Every typed block lies below the empty line, so the loop up to there has seen them all. */
  lemma ScavengeFrame(s0: Seg, s1: Seg, owed: seq<int>, c: seq<nat>, P: nat, userData: seq<bool>)
    requires Sizes(s0, P) && Scavenging(s0, owed, c, P, userData) && Scavenging(s1, owed, c, P, userData)
      && ScavengedTo(s0, s1, s0.empty)
    ensures Linkless(s1, owed, P, userData) && DataGiven(s1, userData)
    ensures forall b | 0 <= b < |s0.btype| ::
      s1.btype[b] == if s0.btype[b] < MAX_PUBLIC_TYPES && b in Removable(s0) then TYPE_INVALID else s0.btype[b]
  {
    hide Counts, DataLinks, DataGiven, EndsKnown, Types;
  }

  lemma SweptMarks(s0: Seg, s1: Seg, t: nat, c: seq<nat>)
    requires Shaped(s0, t) && Swept(s0, s1, t, c)
    ensures s1.btype == Cleared(s0.btype, Freed(s0, c)) && |s1.udata| == |s1.btype|
  {
  }

  lemma FreedData(s: Seg, c: seq<nat>)
    requires Shaped(s, DATABLOCK) && ChainOk(s, DATABLOCK, c)
    ensures forall b | b in Freed(s, c) :: b < |s.btype| && s.btype[b] == DATABLOCK
  {
    FreedAre(s, DATABLOCK, c);
  }

  lemma DataFrame(s: Seg, s': Seg, userData: seq<bool>)
    requires |s.udata| == |s.btype| && |userData| == MAX_PUBLIC_TYPES && DataGiven(s, userData) && DataOwned(s)
    requires s'.udata == s.udata && s'.btype == s.btype
    ensures DataGiven(s', userData) && DataOwned(s')
  {
  }
}
