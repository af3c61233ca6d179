/** Releases that leave an emptied block behind (`BlockFreeHandles` in src/gc/handletablecore.cpp). */
module ReleaseExamples {
  import opened FreeMask
  import opened SegmentModel
  import opened SegmentSweep
  import opened SegmentInsert
  import opened SegmentHandles
  import opened SegmentTidy
  import opened TableModel
  import QuickSort

  function NoData(): seq<bool> { seq(MAX_PUBLIC_TYPES, _ => false) }

  /** A new segment. */
  function FreshSegment(): Seg {
    Seg(seq(120, k => if k == 119 then BLOCK_INVALID else k + 1), Filled(240, MASK_EMPTY), Filled(120, TYPE_INVALID),
        Filled(120, BLOCK_INVALID), Filled(120, 0), Filled(MAX_INTERNAL_TYPES, BLOCK_INVALID),
        Filled(MAX_INTERNAL_TYPES, BLOCK_INVALID),
            Filled(MAX_INTERNAL_TYPES, 0), 0, 0, 8, 0)
  }

  function FreshShape(): Shape {
    Shape(Filled(MAX_INTERNAL_TYPES, []), FirstBlocks(120), Filled(MAX_INTERNAL_TYPES, 0))
  }

  /** A segment whose block 0 is of type 0. */
  lemma OneBlock() returns (s: Seg, sh: Shape)
    ensures Inv(s, sh, 8, NoData()) && s.btype[0] == 0 && s.mask == Filled(240, MASK_EMPTY) && s.locks == Filled(120, 0)
  {
    var s0, sh0 := FreshSegment(), FreshShape();
    FreshInv(s0, 8, NoData());
    hide Loose, DataGiven, DataOwned;
    InsertReady(s0, sh0, 0, 8, NoData());
    assert sh0.free[0] == 0;
    s, sh := Inserted(s0, 0, 0, true, 8), InsertedShape(sh0, 0);
    InsertLoose(s0, sh0, 0, true, 8, NoData());
    InsertedData(s0, s, 0, 0, 0, NoData());
  }

  /** The handles in use in the examples. */
  predicate Taken(h: nat) { h == 0 || h == 1 || h == 32 }

  /** A segment that satisfies the invariant, whose block 0, of type 0, holds exactly the handles 0, 1 and 32. */
  lemma SmallSegment(locked: nat) returns (s: Seg, sh: Shape)
    ensures Inv(s, sh, 8, NoData()) && |s.btype| == |s.locks| == 120 && |s.mask| == 240 && s.btype[0] == 0
      && s.locks[0] == locked
    ensures forall h: nat | h < 64 :: FreeAt(s.mask, h) == !Taken(h)
  {
    var s0, sh0 := OneBlock();
    var w0: Word, w1: Word := seq(32, i => i > 1), seq(32, i => i > 0);
    var m := s0.mask[0 := w0][1 := w1];
    var k := BlockFree(s0.mask, 0) - BlockFree(m, 0);
    InvSizes(s0, sh0, 8, NoData());
    hide Inv, BlockFree, CountedDown;
    CountedNone(s0.mask, s0.btype, 0);
    CountedDownMore(s0.mask, s0.mask, m, s0.btype, 0, 0, 0, k);
    var s1 := s0.(mask := m, count := s0.count[0 := s0.count[0] - k]);
    MasksKeep(s0, s1, sh0, sh0, 0, k, 8, NoData());
    s, sh := s1.(locks := s1.locks[0 := locked]), sh0;
    LockFrame(s1, s, sh0, 0, 8, NoData());
    forall h: nat | h < 64 ensures FreeAt(s.mask, h) == !Taken(h) { OneBit(m, w0, w1, h); }
  }

  lemma OneBit(m: seq<Word>, w0: Word, w1: Word, h: nat)
    requires |m| > 1 && m[0] == w0 && m[1] == w1 && h < 64
    requires (forall i | 0 <= i < 32 :: w0[i] == (i > 1)) && forall i | 0 <= i < 32 :: w1[i] == (i > 0)
    ensures FreeAt(m, h) == !Taken(h)
  {
    if h < 32 { assert h / 32 == 0 && h % 32 == h; } else { assert h / 32 == 1 && h % 32 == h - 32; }
  }

  /** In an order that leaves a mask and comes back to it, the last handle of block 0 goes without a scan. */
  lemma ComingBackMisses(s: Seg, v: seq<int>)
    requires |s.btype| == |s.locks| == 120 && |s.mask| == 240 && s.btype[0] == 0 && s.locks[0] == 0
    requires (forall h: nat | h < 64 :: FreeAt(s.mask, h) == !Taken(h)) && (v == [0, 32, 1] || v == [1, 32, 0])
    ensures Missed(s, 0, [v], 0)
  {
    assert FreeAt(s.mask, 0) == false;
    assert !EmptyBlock(s.mask, 0) by { assert s.mask[0][0] == FreeAt(s.mask, 0); }
    FlatOne(v);
    assert BlockGone(s.mask, v, 0);
    assert !Asks(s.mask, s.locks, [], v) by { NoScan(s, v); }
    hide Asks, BlockGone;
    SweptAwayOne(s.mask, s.locks, v, 0);
  }

  lemma NoScan(s: Seg, v: seq<int>)
    requires |s.mask| == 240 && (forall h: nat | h < 64 :: FreeAt(s.mask, h) == !Taken(h))
      && (v == [0, 32, 1] || v == [1, 32, 0])
    ensures !Asks(s.mask, s.locks, [], v)
  {
    var other := 1 - v[0];
    assert !FreeAt(s.mask, other) && other !in v[..1];
    assert !MaskGone(s.mask, v[..1], 0);
    assert RunEnds(v, 0);
    forall i: nat, j: nat ensures !AsksAt(s.mask, s.locks, [], v, i, j) {
      if BlockRun(v, i, j) {
        WholeRun(v, i, j);
        assert v[0..3] == v && [] + v[..0] + v[..1] == v[..1];
      }
    }
  }

  lemma WholeRun(v: seq<int>, i: nat, j: nat)
    requires |v| == 3 && (forall k | 0 <= k < 3 :: v[k] / 64 == 0) && BlockRun(v, i, j)
    ensures i == 0 && j == 3
  {
  }

  /** Freeing 0, 32 and 1 in this order leaves block 0 empty, not locked and in its chain. */
  lemma UngroupedMisses() returns (s: Seg, sh: Shape)
    ensures Inv(s, sh, 8, NoData()) && Missed(s, 0, [[0, 32, 1]], 0)
  {
    s, sh := SmallSegment(0);
    ComingBackMisses(s, [0, 32, 1]);
  }

  /** A locked block that is emptied asks for no scan, so it is not marked for scavenging either. */
  lemma LockedNotScavenged() returns (s: Seg, sh: Shape)
    ensures Inv(s, sh, 8, NoData()) && HeldBack(s, 0, [0, 1, 32]) && !Asks(s.mask, s.locks, [], [0, 1, 32])
  {
    s, sh := SmallSegment(1);
    var v: seq<int> := [0, 1, 32];
    assert HeldAt(s, 0, v, 0);
    forall i: nat, j: nat ensures !AsksAt(s.mask, s.locks, [], v, i, j) {
      if BlockRun(v, i, j) { WholeRun(v, i, j); }
    }
  }

  // ---------------------------------------------------------------- two segments with one sequence number

  const A: nat := 0x10000
  const B: nat := 0x20000
  const A0: nat := 0x11000
  const A1: nat := 0x11008
  const A32: nat := 0x11100
  const B0: nat := 0x21000

  function Order(): QuickSort.Compare { TableOrder([A, B], [7, 7]) }

  lemma SameSequence(n: nat)
    requires n == 1 || n == 2
    ensures SequenceOf([A, B], [7, 7], n) == 7
  {
    assert A / SEGMENT_SIZE == 1 && B / SEGMENT_SIZE == 2;
    assert [A, B][1..] == [B] && [7, 7][1..] == [7];
  }

  /** Handles of different segments count as equal, and within a segment the higher handle comes first. */
  lemma Compared()
    ensures forall a | a in {A0, A1, A32} :: Order()(a, B0) == 0 && Order()(B0, a) == 0
    ensures Order()(A32, A0) < 0 && Order()(A0, A0) == 0 && Order()(B0, B0) == 0
  {
    SameSequence(1);
    SameSequence(2);
    assert forall a | a in {A0, A1, A32} :: QuickSort.SegmentOf(a) == 1;
    assert QuickSort.SegmentOf(B0) == 2;
  }

  /** Two elements that the comparator calls equal are exchanged. */
  lemma SortPair(s: seq<nat>, l: nat, cmp: QuickSort.Compare)
    requires l + 1 < |s| && cmp(s[l], s[l + 1]) == 0 && cmp(s[l + 1], s[l + 1]) == 0
    ensures QuickSort.SortOf(s, l, l + 1, cmp) == s[l := s[l + 1]][l + 1 := s[l]]
  {
    var x := s[l + 1];
    assert (l + (l + 1) + 1) / 2 == l + 1;
    QuickSort.PartitionStep(s, l, l + 1, l, l + 1, x, cmp);
    QuickSort.PartitionEnd(s[l := s[l + 1]][l + 1 := s[l]], l + 1, l, x, cmp);
    QuickSort.SortStep(s, l, l + 1, cmp);
  }

  /** Two elements in order stay. */
  lemma SortedPair(s: seq<nat>, l: nat, cmp: QuickSort.Compare)
    requires l + 1 < |s| && cmp(s[l], s[l + 1]) < 0 && cmp(s[l + 1], s[l + 1]) == 0
    ensures QuickSort.SortOf(s, l, l + 1, cmp) == s
  {
    var x := s[l + 1];
    assert (l + (l + 1) + 1) / 2 == l + 1;
    QuickSort.PartitionStep(s, l, l + 1, l + 1, l + 1, x, cmp);
    assert s[l + 1 := s[l + 1]][l + 1 := s[l + 1]] == s;
    QuickSort.PartitionEnd(s, l + 2, l, x, cmp);
    QuickSort.SortStep(s, l, l + 1, cmp);
  }

  /** The sort does not bring the handles of segment A together by masks. */
  lemma ClashOrder()
    ensures FreeOrdered([A0, A32, B0, A1], Order()) == [B0, A1, A32, A0]
  {
    var cmp, s := Order(), [A0, A32, B0, A1];
    Compared();
    hide Order, QuickSort.SortOf, QuickSort.PartitionOf;
    var s1, s2, s3 := [A1, A32, B0, A0], [A1, B0, A32, A0], [B0, A1, A32, A0];
    QuickSort.PartitionStep(s, 0, 3, 0, 3, B0, cmp);
    assert s[0 := s[3]][3 := s[0]] == s1;
    QuickSort.PartitionStep(s1, 1, 2, 1, 2, B0, cmp);
    assert s1[1 := s1[2]][2 := s1[1]] == s2;
    QuickSort.PartitionEnd(s2, 2, 1, B0, cmp);
    QuickSort.SortStep(s, 0, 3, cmp);
    SortPair(s2, 0, cmp);
    assert s2[0 := s2[1]][1 := s2[0]] == s3;
    SortedPair(s3, 2, cmp);
  }

  lemma ClashVisits()
    ensures Visits(A, [B0, A1, A32, A0], 8) == [[1, 32, 0]]
  {
    var hs, r: seq<nat> := [B0, A1, A32, A0], [A1, A32, A0];
    assert SegmentBase(A0) == A && SegmentBase(A1) == A && SegmentBase(A32) == A && SegmentBase(B0) == B;
    assert SegRun(hs) == 1 && hs[1..] == r;
    assert SegRun(r) == 3 && r[3..] == [] && r[..3] == r;
    assert Numbers(A, r, 8) == [1, 32, 0];
    assert FirstVisit(A, r, 8) == [[1, 32, 0]] && Visits(A, r[3..], 8) == [];
    assert Visits(A, r, 8) == FirstVisit(A, r, 8) + Visits(A, r[3..], 8) == [[1, 32, 0]];
    assert FirstVisit(A, hs, 8) == [] && Visits(A, hs, 8) == [] + Visits(A, r, 8);
  }

  /** With equal sequence numbers a bulk release leaves block 0 of segment A empty, not locked and in its chain. */
  lemma ClashMisses() returns (s: Seg, sh: Shape)
    ensures Inv(s, sh, 8, NoData())
    ensures Missed(s, 0, PiecesAll([A, B], [A0, A32, B0, A1], HANDLES_PER_BLOCK, Order(), 8)[0], 0)
    ensures Clashing([A, B], [7, 7], [A0, A32, B0, A1])
  {
    s, sh := SmallSegment(0);
    ComingBackMisses(s, [1, 32, 0]);
    ClashOrder();
    ClashVisits();
    hide Inv, Missed, FreeOrdered, Visits;
    assert PiecesAll([A, B], [A0, A32, B0, A1], HANDLES_PER_BLOCK, Order(), 8)[0] == [[1, 32, 0]];
    DoesClash();
  }

  lemma DoesClash()
    ensures Clashing([A, B], [7, 7], [A0, A32, B0, A1])
  {
    SameSequence(1);
    SameSequence(2);
    var hs := [A0, A32, B0, A1];
    assert hs[0] in Elems(hs) && hs[1] in Elems(hs) && hs[2] in Elems(hs);
    assert QuickSort.SegmentOf(A0) == 1 && QuickSort.SegmentOf(A32) == 1 && QuickSort.SegmentOf(B0) == 2;
  }
}
