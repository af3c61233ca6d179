/** When the chains and the free list of a segment are in order (src/gc/handletablecore.cpp): the resort flag is raised
    whenever they may have got out of it. */
module SegmentOrder {
  import opened FreeMask
  import opened SegmentModel
  import opened SegmentSweep
  import opened SegmentKeeps
  import opened SegmentInsert
  import opened SegmentResort
  import opened SegmentHandles

  ghost predicate Rising(c: seq<nat>) {
    forall i, j | 0 <= i < j < |c| :: c[i] < c[j]
  }

  /** Every chain and the free list are in ascending order. */
  ghost predicate Ascending(sh: Shape) {
    (forall t | 0 <= t < |sh.chain| :: Rising(sh.chain[t])) && Rising(sh.free)
  }

  /** The first block of a chain cannot be out of order. */
  lemma InsertRising(sh: Shape, t: nat)
    requires t < |sh.chain| && sh.free != []
    ensures Ascending(sh) && sh.chain[t] == [] ==> Ascending(InsertedShape(sh, t))
  {
    if Ascending(sh) && sh.chain[t] == [] {
      var sh' := InsertedShape(sh, t);
      assert sh'.chain[t] == [sh.free[0]];
      forall k | 0 <= k < |sh'.chain| ensures Rising(sh'.chain[k]) { if k != t { assert Rising(sh.chain[k]); } }
    }
  }

  lemma {:induction false} NonePart(c: seq<nat>, i: nat, R: set<nat>)
    requires i <= |c| && Part(c, i, R, true) == []
    ensures Part(c, i, R, false) == c[..i]
  {
    if i > 0 {
      NonePart(c, i - 1, R);
      assert c[..i] == c[..i - 1] + [c[i - 1]];
    }
  }

  /** A sweep that frees nothing changes no chain. */
  lemma SweptNothing(s: Seg, sh: Shape, t: nat)
    requires |s.mask| == 2 * |s.locks| && t < |sh.chain|
    ensures Part(sh.chain[t], |sh.chain[t]|, Removable(s), true) == [] ==> SweptShape(s, sh, t) == sh
  {
    var c := sh.chain[t];
    if Part(c, |c|, Removable(s), true) == [] {
      NonePart(c, |c|, Removable(s));
      assert c[..|c|] == c && [] + sh.free == sh.free && sh.chain[t := c] == sh.chain;
    }
  }

  lemma SortedRising(btype: seq<nat>, owed: seq<int>)
    ensures Ascending(SortedShape(btype, owed))
  {
    var sh := SortedShape(btype, owed);
    forall t: nat ensures Rising(Asc(btype, t, 0)) {
      forall i, j | 0 <= i < j < |Asc(btype, t, 0)| ensures Asc(btype, t, 0)[i] < Asc(btype, t, 0)[j] {
        AscAscends(btype, t, 0, i, j);
      }
    }
    assert forall t | 0 <= t < |sh.chain| :: sh.chain[t] == Asc(btype, t, 0);
  }

  /** The order does not depend on what is owed. */
  lemma OwedRising(sh: Shape, owed: seq<int>)
    ensures Ascending(sh.(owed := owed)) == Ascending(sh)
  {
  }

  // ---------------------------------------------------------------- hints

  /** The hint of type `t` is a block with handles in use. */
  ghost predicate HintUsed(s: Seg, t: nat) {
    t < |s.hint| && 2 * s.hint[t] + 1 < |s.mask| && s.hint[t] < |s.btype| && !EmptyBlock(s.mask, s.hint[t])
  }

  /** Removing blocks of type `t`, and data blocks, leaves the other hints alone, and the hint of `t` on a used block.
      */
  ghost predicate HintsStay(s0: Seg, s1: Seg, t: nat) {
    && |s1.hint| == |s0.hint| && (HintUsed(s0, t) ==> s1.hint[t] == s0.hint[t])
    && forall k | 0 <= k < |s0.hint| && k != t && k != DATABLOCK :: s1.hint[k] == s0.hint[k]
  }

  lemma SweptHints(s0: Seg, s1: Seg, t: nat, c: seq<nat>)
    requires Shaped(s0, t) && ChainOk(s0, t, c) && Swept(s0, s1, t, c)
    ensures HintsStay(s0, s1, t)
  {
    hide Marked, Linear, Circular, SameOutside;
    if HintUsed(s0, t) { InPart(c, |c|, Removable(s0), false, s0.hint[t]); }
    assert c[..|c|] == c;
  }

  lemma SweptMoreHints(s0: Seg, s1: Seg, s2: Seg, t: nat, c: seq<nat>)
    requires HintsStay(s0, s1, t) && t != DATABLOCK
    requires |s1.mask| == 2 * |s1.locks| && DATABLOCK < |s1.tail| == |s1.hint| == |s1.count|
      && Swept(s1, s2, DATABLOCK, c)
    ensures HintsStay(s0, s2, t)
  {
    hide Marked, Linear, Circular, SameOutside, Ends;
  }

  /** What an insertion does to the hint of its type: the new block becomes the hint if it shall, or if it is the first
      one; without success, a hint on a used block stays unless it was to be changed. */
  ghost predicate HintAfter(s0: Seg, s1: Seg, t: nat, b: nat, updateHint: bool, first: bool) {
    && |s1.hint| == |s0.hint| && t < |s0.hint|
    && (b != BLOCK_INVALID ==> s1.hint[t] == if updateHint || first then b else s0.hint[t])
    && (b == BLOCK_INVALID && !updateHint && HintUsed(s0, t) ==> s1.hint[t] == s0.hint[t])
  }

  /** A hint on a used block is still there, unless it was to be changed. */
  ghost predicate HintSafe(s0: Seg, s: Seg, t: nat, updateHint: bool) {
    && t < |s0.hint| == |s.hint| && s.mask == s0.mask && |s.btype| == |s0.btype|
    && (!updateHint && HintUsed(s0, t) ==> s.hint[t] == s0.hint[t])
  }

  /** The hints after one insertion into the chain of type `k`, or none. */
  ghost predicate HintPut(hint0: seq<nat>, hint: seq<nat>, k: nat, b: nat, updateHint: bool, first: bool) {
    k < |hint0| &&
    hint == if b != BLOCK_INVALID && (updateHint || first) then hint0[k := b] else hint0
  }

  lemma HintBoth(s0: Seg, s1: Seg, s2: Seg, sh: Shape, t: nat, data: nat, b: nat, updateHint: bool, first: bool, P: nat,
                 userData: seq<bool>)
    requires Loose(s0, sh, P, userData) && t < DATABLOCK && |sh.chain| == MAX_INTERNAL_TYPES
    requires HintPut(s0.hint, s1.hint, DATABLOCK, data, false, first)
    requires HintPut(s1.hint, s2.hint, t, b, updateHint, sh.chain[t] == [])
    requires s2.mask == s0.mask && |s2.btype| == |s0.btype|
    ensures HintSafe(s0, s2, t, updateHint)
    ensures b != BLOCK_INVALID ==> HintAfter(s0, s2, t, b, updateHint, sh.chain[t] == [])
  {
    hide Loose;
    if HintUsed(s0, t) { UsedChain(s0, sh, t, P, userData); }
  }

  lemma HintSizes(s0: Seg, s: Seg, t: nat, updateHint: bool)
    requires HintSafe(s0, s, t, updateHint)
    ensures |s.btype| == |s0.btype|
  {
  }

  lemma HintKept(s0: Seg, s: Seg, s': Seg, t: nat, k: nat, updateHint: bool)
    requires HintSafe(s0, s, t, updateHint) && HintsStay(s, s', k) && (k == t || k == DATABLOCK) && t != DATABLOCK
    requires s'.mask == s.mask && |s'.btype| == |s.btype|
    ensures HintSafe(s0, s', t, updateHint)
  {
    hide EmptyBlock;
  }

  lemma HintFrame(s0: Seg, s: Seg, s': Seg, t: nat, b: nat, updateHint: bool, first: bool)
    requires HintAfter(s0, s, t, b, updateHint, first) && s'.hint == s.hint
    ensures HintAfter(s0, s', t, b, updateHint, first)
  {
  }

  lemma HintNone(s0: Seg, s: Seg, t: nat, updateHint: bool, first: bool)
    requires HintSafe(s0, s, t, updateHint)
    ensures HintAfter(s0, s, t, BLOCK_INVALID, updateHint, first)
  {
  }

  lemma HintMeans(s0: Seg, s1: Seg, sh0: Shape, t: nat, b: nat, updateHint: bool, P: nat, userData: seq<bool>)
    requires Inv(s0, sh0, P, userData) && t < MAX_INTERNAL_TYPES && |sh0.chain| == MAX_INTERNAL_TYPES
    requires HintAfter(s0, s1, t, b, updateHint, sh0.chain[t] == [])
    ensures t < |s1.hint| == |s0.hint| && (b != BLOCK_INVALID && updateHint ==> s1.hint[t] == b)
    ensures !updateHint && HintUsed(s0, t) ==> s1.hint[t] == s0.hint[t]
  {
    hide Loose;
    if HintUsed(s0, t) { UsedChain(s0, sh0, t, P, userData); }
  }

  /** A block from which a handle was taken is used. */
  lemma HintTaken(s0: Seg, s1: Seg, t: nat, got: seq<nat>)
    requires Took(s0.mask, s1.mask, got) && got != [] && |s1.mask| == 2 * |s1.btype|
    requires t < |s1.hint| && s1.hint[t] == got[0] / HANDLES_PER_BLOCK
    ensures HintUsed(s1, t)
  {
    var h := got[0];
    assert h in got && !FreeAt(s1.mask, h);
    assert h / 32 == 2 * (h / 64) || h / 32 == 2 * (h / 64) + 1;
  }

  /** A used hint is in its chain. */
  lemma UsedChain(s: Seg, sh: Shape, t: nat, P: nat, userData: seq<bool>)
    requires Loose(s, sh, P, userData) && t < MAX_INTERNAL_TYPES && HintUsed(s, t)
    ensures |sh.chain| == MAX_INTERNAL_TYPES && sh.chain[t] != []
  {
    hide Types, FreeOk, Counts, Lines, DataLinks;
    assert ChainOk(s, t, sh.chain[t]);
  }
}
