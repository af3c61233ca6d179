/** The header of a handle segment and its invariant (src/gc/handletablepriv.h, src/gc/handletablecore.cpp). */
module SegmentModel {
  import opened FreeMask

  const HANDLES_PER_BLOCK: nat := 64
  const MASKS_PER_BLOCK: nat := 2
  const BLOCK_INVALID: nat := 255
  const TYPE_INVALID: nat := 255
  const MAX_PUBLIC_TYPES: nat := 11
  const DATABLOCK: nat := 11
  const MAX_INTERNAL_TYPES: nat := 12

  /** The header fields that describe blocks. `alloc` threads the free list and all type chains. */
  datatype Seg = Seg(
    alloc: seq<nat>,
    mask: seq<Word>,
    btype: seq<nat>,
    udata: seq<nat>,
    locks: seq<nat>,
    tail: seq<nat>,
    hint: seq<nat>,
    count: seq<int>,
    free: nat,
    empty: nat,
    commit: nat,
    decommit: nat)

  /** What the links stand for: the blocks of every chain from head to tail, the free list from head to end,
      and the handles per type that are already marked in the masks but not yet booked in the free counts. */
  datatype Shape = Shape(chain: seq<seq<nat>>, free: seq<nat>, owed: seq<int>)

  ghost predicate Distinct(c: seq<nat>) {
    forall i, j | 0 <= i < j < |c| :: c[i] != c[j]
  }

  /** Every element of `c` is a block, and each is linked to the next one. */
  ghost predicate Links(alloc: seq<nat>, c: seq<nat>) {
    && (forall i | 0 <= i < |c| :: c[i] < |alloc|)
    && (forall i | 0 <= i < |c| - 1 :: alloc[c[i]] == c[i + 1])
  }

  ghost predicate Circular(alloc: seq<nat>, c: seq<nat>) {
    Links(alloc, c) && (c != [] ==> alloc[c[|c| - 1]] == c[0])
  }

  ghost predicate Linear(alloc: seq<nat>, c: seq<nat>, end: nat) {
    Links(alloc, c) && (c != [] ==> alloc[c[|c| - 1]] == end)
  }

  function Head(c: seq<nat>, end: nat): nat {
    if c == [] then end else c[0]
  }

  /** `c` lists exactly the blocks of type `t`, each once. */
  ghost predicate Lists(btype: seq<nat>, t: nat, c: seq<nat>) {
    Distinct(c) && forall b: nat :: b in c <==> b < |btype| && btype[b] == t
  }

  /** The tail is the last block of the chain and the hint is one of its blocks, or both are invalid. */
  ghost predicate Ends(c: seq<nat>, tail: nat, hint: nat) {
    if c == [] then tail == BLOCK_INVALID && hint == BLOCK_INVALID else tail == c[|c| - 1] && hint in c
  }

  ghost predicate ChainOk(s: Seg, t: nat, c: seq<nat>)
    requires t < |s.tail| && t < |s.hint|
  {
    Lists(s.btype, t, c) && Circular(s.alloc, c) && Ends(c, s.tail[t], s.hint[t])
  }

  ghost predicate Sizes(s: Seg, P: nat) {
    && (P == 8 || P == 16)
    && |s.alloc| == 15 * P && |s.btype| == 15 * P && |s.udata| == 15 * P && |s.locks| == 15 * P
    && |s.mask| == 30 * P
    && |s.tail| == |s.hint| == |s.count| == MAX_INTERNAL_TYPES
  }

  ghost predicate Chains(s: Seg, chain: seq<seq<nat>>)
    requires |s.tail| == |s.hint| == MAX_INTERNAL_TYPES
  {
    |chain| == MAX_INTERNAL_TYPES && forall t | 0 <= t < MAX_INTERNAL_TYPES :: ChainOk(s, t, chain[t])
  }

  ghost predicate FreeOk(s: Seg, free: seq<nat>) {
    Lists(s.btype, TYPE_INVALID, free) && Linear(s.alloc, free, BLOCK_INVALID) && s.free == Head(free, BLOCK_INVALID)
  }

  /** No handle of the block is in use. */
  predicate EmptyBlock(mask: seq<Word>, b: nat)
    requires 2 * b + 1 < |mask|
  {
    mask[2 * b] == MASK_EMPTY && mask[2 * b + 1] == MASK_EMPTY
  }

  function BlockFree(mask: seq<Word>, b: nat): nat
    requires 2 * b + 1 < |mask|
  {
    FreeIn(mask[2 * b]) + FreeIn(mask[2 * b + 1])
  }

  /** The number of free handles in the blocks of type `t` below block `n`. */
  function TypeFree(mask: seq<Word>, btype: seq<nat>, t: nat, n: nat): nat
    requires n <= |btype| && 2 * n <= |mask|
  {
    if n == 0 then 0
    else TypeFree(mask, btype, t, n - 1) + if btype[n - 1] == t then BlockFree(mask, n - 1) else 0
  }

  ghost predicate Counts(s: Seg, owed: seq<int>)
    requires |s.mask| == 2 * |s.btype| && |s.count| == MAX_INTERNAL_TYPES
  {
    && |owed| == MAX_INTERNAL_TYPES
    && forall t | 0 <= t < MAX_INTERNAL_TYPES :: s.count[t] == TypeFree(s.mask, s.btype, t, |s.btype|) + owed[t]
  }

  /** Every block is free, of a public type or a data block, and only public types hold handles. */
  ghost predicate Types(s: Seg)
    requires |s.mask| == 2 * |s.btype|
  {
    && (forall b | 0 <= b < |s.btype| :: s.btype[b] < MAX_INTERNAL_TYPES || s.btype[b] == TYPE_INVALID)
    && (forall b | 0 <= b < |s.btype| && s.btype[b] >= MAX_PUBLIC_TYPES :: EmptyBlock(s.mask, b))
  }

  /** Typed blocks lie below the empty line, which is at most the commit line; the commit line is at a page
      boundary; and the free list ends with the blocks from the empty line up, in order. */
  ghost predicate Lines(s: Seg, free: seq<nat>, P: nat)
    requires |s.btype| == 15 * P && (P == 8 || P == 16)
  {
    && s.empty <= s.commit <= 15 * P && s.commit % P == 0 && s.decommit <= s.commit && s.decommit % P == 0
    && (forall b | 0 <= b < 15 * P && s.btype[b] != TYPE_INVALID :: b < s.empty)
    && 15 * P - s.empty <= |free|
    && (forall k | 0 <= k < |free| - (15 * P - s.empty) :: free[k] < s.empty)
    && (forall k | |free| - (15 * P - s.empty) <= k < |free| :: free[k] == 15 * P - (|free| - k))
  }

  /** Only blocks of user-data types link to a data block, and no two link to the same one. A data block is
      locked once while something links to it and is not locked otherwise; a free block is not locked. */
  ghost predicate DataLinks(s: Seg, userData: seq<bool>)
    requires |s.udata| == |s.btype| == |s.locks| && |userData| == MAX_PUBLIC_TYPES
  {
    && (forall b | 0 <= b < |s.udata| && s.udata[b] != BLOCK_INVALID ::
          && s.btype[b] < MAX_PUBLIC_TYPES && userData[s.btype[b]]
          && s.udata[b] < |s.btype| && s.btype[s.udata[b]] == DATABLOCK)
    && (forall a, b | 0 <= a < b < |s.udata| && s.udata[a] != BLOCK_INVALID :: s.udata[a] != s.udata[b])
    && (forall d | 0 <= d < |s.btype| && s.btype[d] == DATABLOCK :: s.locks[d] == if d in s.udata then 1 else 0)
    && (forall b | 0 <= b < |s.btype| && s.btype[b] == TYPE_INVALID :: s.locks[b] == 0)
  }

  /** Every block of a user-data type has a data block. */
  ghost predicate DataGiven(s: Seg, userData: seq<bool>)
    requires |s.udata| == |s.btype| && |userData| == MAX_PUBLIC_TYPES
  {
    forall b | 0 <= b < |s.btype| && s.btype[b] < MAX_PUBLIC_TYPES
        && userData[s.btype[b]] :: s.udata[b] != BLOCK_INVALID
  }

  /** Every data block belongs to some handle block. */
  ghost predicate DataOwned(s: Seg)
    requires |s.udata| == |s.btype|
  {
    forall d | 0 <= d < |s.btype| && s.btype[d] == DATABLOCK :: d in s.udata
  }

  /** The invariant while data blocks may be waiting to be reclaimed. */
  ghost predicate Loose(s: Seg, sh: Shape, P: nat, userData: seq<bool>) {
    && Sizes(s, P) && |userData| == MAX_PUBLIC_TYPES
    && Types(s) && Chains(s, sh.chain) && FreeOk(s, sh.free) && Counts(s, sh.owed) && Lines(s, sh.free, P)
    && DataLinks(s, userData)
  }

  /** The invariant of a segment. */
  ghost predicate Inv(s: Seg, sh: Shape, P: nat, userData: seq<bool>) {
    Loose(s, sh, P, userData) && DataGiven(s, userData) && DataOwned(s)
  }

  predicate FreeAt(mask: seq<Word>, h: nat)
    requires h < 32 * |mask|
  {
    mask[h / 32][h % 32]
  }

  /** The handles in use, as handle numbers within the segment. */
  ghost function Used(mask: seq<Word>): set<nat> {
    set h: nat | h < 32 * |mask| && !FreeAt(mask, h)
  }

  const OS_PAGE_SIZE: nat := 4096

  function BlockBytes(P: nat): nat {
    if P == 8 then 512 else 256
  }

  function RoundToPage(a: nat): nat {
    (a + OS_PAGE_SIZE - 1) / OS_PAGE_SIZE * OS_PAGE_SIZE
  }

  /** The first page boundary at or above the empty line, in blocks. */
  lemma RoundInBlocks(empty: nat, P: nat) returns (q: int)
    requires P == 8 || P == 16
    ensures q >= 0
    ensures RoundToPage(empty * BlockBytes(P)) == q * OS_PAGE_SIZE && q * OS_PAGE_SIZE / BlockBytes(P) == q * P
    ensures empty <= q * P < empty + P
    ensures q > 1 ==> (q * OS_PAGE_SIZE - OS_PAGE_SIZE) / BlockBytes(P) == (q - 1) * P
  {
    if P == 8 {
      q := (empty + 7) / 8;
      var r := (empty + 7) % 8;
      assert empty * 512 + 4095 == 4096 * q + (512 * r + 511);
      assert (empty * 512 + 4095) / 4096 == q;
    } else {
      q := (empty + 15) / 16;
      var r := (empty + 15) % 16;
      assert empty * 256 + 4095 == 4096 * q + (256 * r + 255);
      assert (empty * 256 + 4095) / 4096 == q;
    }
  }

  /** Whole pages above the empty line can go; what is left of the last page is less than a page. */
  lemma TrimArithmetic(empty: nat, commit: nat, P: nat)
    requires (P == 8 || P == 16) && empty <= commit <= 15 * P && commit % P == 0
    ensures var lo := RoundToPage(empty * BlockBytes(P));
      if commit * BlockBytes(P) > lo then
        && empty <= lo / BlockBytes(P) < commit && (lo / BlockBytes(P)) % P == 0 && lo / BlockBytes(P) - empty < P
        && (lo > OS_PAGE_SIZE <==> lo / BlockBytes(P) > P)
        && (lo > OS_PAGE_SIZE ==> (lo - OS_PAGE_SIZE) / BlockBytes(P) == lo / BlockBytes(P) - P)
        && (lo > OS_PAGE_SIZE ==> ((lo - OS_PAGE_SIZE) / BlockBytes(P)) % P == 0)
      else commit - empty < P
  {
    var q := RoundInBlocks(empty, P);
    if P == 8 { assert (q * 8) % 8 == 0 && ((q - 1) * 8) % 8 == 0; }
        else { assert (q * 16) % 16 == 0 && ((q - 1) * 16) % 16 == 0; }
  }

  lemma LinesInOrder(s: Seg, sh: Shape, P: nat, userData: seq<bool>)
    requires Loose(s, sh, P, userData)
    ensures s.empty <= s.commit
  {
  }

  lemma TrimFrame(s: Seg, s': Seg, sh: Shape, P: nat, userData: seq<bool>)
    requires Inv(s, sh, P, userData) && s' == s.(commit := s'.commit, decommit := s'.decommit)
    requires s.empty <= s'.commit <= 15 * P && s'.commit % P == 0 && s'.decommit <= s'.commit && s'.decommit % P == 0
    ensures Inv(s', sh, P, userData)
  {
    forall t | 0 <= t < MAX_INTERNAL_TYPES ensures ChainOk(s', t, sh.chain[t]) { assert ChainOk(s, t, sh.chain[t]); }
  }
}
