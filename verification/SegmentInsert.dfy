/** Moving a block from the free list to a type chain (`SegmentInsertBlockFromFreeListWorker` in
    src/gc/handletablecore.cpp). */
module SegmentInsert {
  import opened FreeMask
  import opened SegmentModel
  import opened SegmentSweep
  import opened SegmentKeeps

  /** The links after block `b` became the last block of a chain with tail `tail`. */
  function Appended(alloc: seq<nat>, b: nat, tail: nat): seq<nat>
    requires b < |alloc| && (tail != BLOCK_INVALID ==> tail < |alloc|)
  {
    if tail == BLOCK_INVALID then alloc[b := b] else alloc[b := alloc[tail]][tail := b]
  }

  /** The lines after block `b` left the free list: a block at the empty line raises it, and a block at the
      commit line needs one more page. */
  function LinesAfter(empty: nat, commit: nat, decommit: nat, b: nat, P: nat): (nat, nat, nat) {
    if b < empty then (empty, commit, decommit)
    else if b < commit then (b + 1, commit, decommit)
    else (b + 1, commit + P, commit)
  }

  /** The segment after block `b`, the head of the free list, was given type `t`. */
  function Inserted(s: Seg, t: nat, b: nat, updateHint: bool, P: nat): Seg
    requires b < |s.alloc| == |s.btype| && t < |s.tail| == |s.hint| == |s.count|
    requires s.tail[t] != BLOCK_INVALID ==> s.tail[t] < |s.alloc|
  {
    var l := LinesAfter(s.empty, s.commit, s.decommit, b, P);
    Seg(Appended(s.alloc, b, s.tail[t]), s.mask, s.btype[b := t], s.udata, s.locks, s.tail[t := b],
        if updateHint || s.tail[t] == BLOCK_INVALID then s.hint[t := b] else s.hint,
        s.count[t := s.count[t] + HANDLES_PER_BLOCK], s.alloc[b], l.0, l.1, l.2)
  }

  function InsertedShape(sh: Shape, t: nat): Shape
    requires t < |sh.chain| && sh.free != []
  {
    Shape(sh.chain[t := sh.chain[t] + [sh.free[0]]], sh.free[1..], sh.owed)
  }

  ghost predicate CanInsert(s: Seg, sh: Shape, t: nat, P: nat, userData: seq<bool>) {
    Loose(s, sh, P, userData) && t < MAX_INTERNAL_TYPES && sh.free != []
  }

  lemma InsertReady(s: Seg, sh: Shape, t: nat, P: nat, userData: seq<bool>)
    requires Loose(s, sh, P, userData) && t < MAX_INTERNAL_TYPES
    ensures Sizes(s, P) && Shaped(s, t) && |userData| == MAX_PUBLIC_TYPES
    ensures |sh.chain| == MAX_INTERNAL_TYPES && ChainOk(s, t, sh.chain[t]) && FreeOk(s, sh.free)
    ensures s.free == BLOCK_INVALID <==> sh.free == []
    ensures sh.free != [] ==>
      s.free == sh.free[0] < |s.alloc| && s.btype[s.free] == TYPE_INVALID
      && s.alloc[s.free] == Head(sh.free[1..], BLOCK_INVALID)
    ensures s.tail[t] != BLOCK_INVALID ==> s.tail[t] < |s.alloc|
    ensures s.tail[t] == BLOCK_INVALID <==> sh.chain[t] == []
    ensures sh.free != [] && s.free >= s.empty ==> s.free == s.empty
  {
    hide Counts, Types, DataLinks;
    assert ChainOk(s, t, sh.chain[t]);
    TailNone(s, t, sh.chain[t]);
    if sh.free != [] { assert sh.free[0] in sh.free; }
  }

  lemma TailNone(s: Seg, t: nat, c: seq<nat>)
    requires Shaped(s, t) && ChainOk(s, t, c)
    ensures s.tail[t] == BLOCK_INVALID <==> c == []
  {
    assert forall k | 0 <= k < |c| :: c[k] < |s.alloc|;
  }

  lemma InsertOwnChain(s: Seg, t: nat, c: seq<nat>, b: nat, updateHint: bool, P: nat)
    requires Shaped(s, t) && t != TYPE_INVALID && ChainOk(s, t, c) && b < |s.alloc| && s.btype[b] == TYPE_INVALID
    requires s.tail[t] != BLOCK_INVALID ==> s.tail[t] < |s.alloc|
    ensures ChainOk(Inserted(s, t, b, updateHint, P), t, c + [b])
  {
    TailNone(s, t, c);
    var s', c' := Inserted(s, t, b, updateHint, P), c + [b];
    assert b !in c;
    assert Lists(s'.btype, t, c') by { assert forall k | 0 <= k < |c| :: c[k] in c; }
    AppendLinks(s.alloc, c, b);
  }

  lemma AppendLinks(alloc: seq<nat>, c: seq<nat>, b: nat)
    requires Circular(alloc, c) && Distinct(c) && b !in c && b < |alloc| <= 240
    ensures Circular(Appended(alloc, b, Last(c, BLOCK_INVALID)), c + [b])
  {
  }

  lemma InsertOtherChain(s: Seg, t: nat, c: seq<nat>, b: nat, updateHint: bool, P: nat, u: nat, d: seq<nat>)
    requires Shaped(s, t) && t != u < |s.tail| && u != TYPE_INVALID && ChainOk(s, t, c) && ChainOk(s, u, d)
    requires b < |s.alloc| && s.btype[b] == TYPE_INVALID && (s.tail[t] != BLOCK_INVALID ==> s.tail[t] < |s.alloc|)
    ensures ChainOk(Inserted(s, t, b, updateHint, P), u, d)
  {
    TailNone(s, t, c);
    if c != [] { assert c[|c| - 1] in c; }
    assert forall k | 0 <= k < |d| :: d[k] in d && d[k] != b && d[k] != s.tail[t];
  }

  lemma InsertChains(s: Seg, t: nat, chain: seq<seq<nat>>, b: nat, updateHint: bool, P: nat)
    requires Shaped(s, t) && |s.tail| == MAX_INTERNAL_TYPES && Chains(s, chain)
    requires b < |s.alloc| && s.btype[b] == TYPE_INVALID && (s.tail[t] != BLOCK_INVALID ==> s.tail[t] < |s.alloc|)
    ensures Chains(Inserted(s, t, b, updateHint, P), chain[t := chain[t] + [b]])
  {
    hide ChainOk;
    var s', chain' := Inserted(s, t, b, updateHint, P), chain[t := chain[t] + [b]];
    forall u | 0 <= u < MAX_INTERNAL_TYPES ensures ChainOk(s', u, chain'[u]) {
      if u == t {
        InsertOwnChain(s, t, chain[t], b, updateHint, P);
      } else {
        InsertOtherChain(s, t, chain[t], b, updateHint, P, u, chain[u]);
      }
    }
  }

  lemma InsertFree(s: Seg, t: nat, c: seq<nat>, free: seq<nat>, updateHint: bool, P: nat)
    requires Shaped(s, t) && t != TYPE_INVALID && ChainOk(s, t, c) && FreeOk(s, free) && free != []
      && free[0] < |s.alloc|
    requires s.tail[t] != BLOCK_INVALID ==> s.tail[t] < |s.alloc|
    ensures FreeOk(Inserted(s, t, free[0], updateHint, P), free[1..])
  {
    TailNone(s, t, c);
    if c != [] { assert c[|c| - 1] in c; }
    ListsRest(s.btype, free, t);
    LinearRest(s.alloc, Appended(s.alloc, free[0], s.tail[t]), free, s.tail[t]);
  }

  lemma ListsRest(btype: seq<nat>, free: seq<nat>, t: nat)
    requires Lists(btype, TYPE_INVALID, free) && free != [] && free[0] < |btype| && t != TYPE_INVALID
    ensures Lists(btype[free[0] := t], TYPE_INVALID, free[1..])
  {
    var r := free[1..];
    assert forall k | 0 <= k < |r| :: r[k] == free[k + 1];
    forall b: nat ensures b in r <==> b in free && b != free[0] {
      if b in r { var k :| 0 <= k < |r| && r[k] == b; }
      if b in free && b != free[0] { assert free == [free[0]] + r; }
    }
  }

  lemma LinearRest(alloc: seq<nat>, alloc': seq<nat>, free: seq<nat>, tail: nat)
    requires Linear(alloc, free, BLOCK_INVALID) && free != [] && Distinct(free) && tail !in free && |alloc'| == |alloc|
    requires forall b | 0 <= b < |alloc| && b != free[0] && b != tail :: alloc'[b] == alloc[b]
    ensures Linear(alloc', free[1..], BLOCK_INVALID) && alloc[free[0]] == Head(free[1..], BLOCK_INVALID)
  {
    var r := free[1..];
    assert forall k | 0 <= k < |r| :: r[k] == free[k + 1];
    forall k | 0 <= k < |r| - 1 ensures alloc'[r[k]] == r[k + 1] { assert alloc[free[k + 1]] == free[k + 2]; }
  }

  lemma InsertLines(s: Seg, t: nat, free: seq<nat>, updateHint: bool, P: nat)
    requires Sizes(s, P) && t < MAX_INTERNAL_TYPES && Lines(s, free, P) && FreeOk(s, free) && free != []
      && free[0] < |s.alloc|
    requires s.tail[t] != BLOCK_INVALID ==> s.tail[t] < |s.alloc|
    ensures Lines(Inserted(s, t, free[0], updateHint, P), free[1..], P)
  {
    var r := free[1..];
    assert forall k | 0 <= k < |r| :: r[k] == free[k + 1];
    if s.commit < 15 * P { PageFits(s.commit, P); }
  }

  /** Below the end of a segment there is room for one more page. */
  lemma PageFits(commit: nat, P: nat)
    requires P == 8 || P == 16
    requires commit % P == 0 && commit < 15 * P
    ensures commit + P <= 15 * P && (commit + P) % P == 0
  {
    if P == 8 { assert commit % 8 == 0; } else { assert commit % 16 == 0; }
  }

  lemma InsertDataLinks(s: Seg, t: nat, b: nat, updateHint: bool, P: nat, userData: seq<bool>)
    requires Shaped(s, t) && t < MAX_INTERNAL_TYPES && |userData| == MAX_PUBLIC_TYPES && DataLinks(s, userData)
    requires b < |s.alloc| && s.btype[b] == TYPE_INVALID && (s.tail[t] != BLOCK_INVALID ==> s.tail[t] < |s.alloc|)
    ensures DataLinks(Inserted(s, t, b, updateHint, P), userData)
    ensures b !in s.udata && s.udata[b] == BLOCK_INVALID && s.locks[b] == 0
  {
  }

  /** What inserting does to the types and the lines. */
  lemma InsertedMeans(s: Seg, sh: Shape, t: nat, updateHint: bool, P: nat, userData: seq<bool>)
    requires CanInsert(s, sh, t, P, userData)
    requires sh.free[0] < |s.alloc| == |s.btype| && t < |s.tail| == |s.hint| == |s.count|
    requires s.tail[t] != BLOCK_INVALID ==> s.tail[t] < |s.alloc|
    ensures var b, s' := sh.free[0], Inserted(s, t, sh.free[0], updateHint, P);
      && s'.btype == s.btype[b := t] && |s'.alloc| == |s.alloc|
      && s'.mask == s.mask && s'.udata == s.udata && s'.locks == s.locks
      && s'.hint == (if updateHint || s.tail[t] == BLOCK_INVALID then s.hint[t := b] else s.hint)
      && s'.empty == (if b < s.empty then s.empty else b + 1)
      && s'.commit == (if b < s.commit then s.commit else s.commit + P)
      && s'.decommit == (if b < s.commit then s.decommit else s.commit)
  {
    LinesInOrder(s, sh, P, userData);
  }

  lemma InsertLoose(s: Seg, sh: Shape, t: nat, updateHint: bool, P: nat, userData: seq<bool>)
    requires CanInsert(s, sh, t, P, userData)
    requires sh.free[0] < |s.alloc| == |s.btype| && t < |s.tail| == |s.hint| == |s.count| && t < |sh.chain|
    requires s.tail[t] != BLOCK_INVALID ==> s.tail[t] < |s.alloc|
    ensures Loose(Inserted(s, t, sh.free[0], updateHint, P), InsertedShape(sh, t), P, userData)
  {
    hide FreeOk, Lines, DataLinks;
    InsertReady(s, sh, t, P, userData);
    var b := sh.free[0];
    InsertChains(s, t, sh.chain, b, updateHint, P);
    InsertFree(s, t, sh.chain[t], sh.free, updateHint, P);
    InsertLines(s, t, sh.free, updateHint, P);
    InsertDataLinks(s, t, b, updateHint, P, userData);
    InsertCounts(s, t, b, sh.owed);
  }

  lemma InsertCounts(s: Seg, t: nat, b: nat, owed: seq<int>)
    requires |s.mask| == 2 * |s.btype| && |s.count| == MAX_INTERNAL_TYPES && Counts(s, owed)
    requires b < |s.btype| && s.btype[b] == TYPE_INVALID && EmptyBlock(s.mask, b) && t < MAX_INTERNAL_TYPES
    ensures Counts(s.(btype := s.btype[b := t], count := s.count[t := s.count[t] + HANDLES_PER_BLOCK]), owed)
  {
    EmptyBlockFree(s.mask, b);
    forall u | 0 <= u < MAX_INTERNAL_TYPES
      ensures s.count[t := s.count[t] + HANDLES_PER_BLOCK][u]
        == TypeFree(s.mask, s.btype[b := t], u, |s.btype|) + owed[u]
    {
      RetypeCount(s.mask, s.btype, b, t, u, |s.btype|);
    }
  }

  // ---------------------------------------------------------------- user data

  ghost predicate GivenBut(s: Seg, userData: seq<bool>, x: nat)
    requires |s.udata| == |s.btype| && |userData| == MAX_PUBLIC_TYPES
  {
    forall b | 0 <= b < |s.btype| && b != x && s.btype[b] < MAX_PUBLIC_TYPES
        && userData[s.btype[b]] :: s.udata[b] != BLOCK_INVALID
  }

  ghost predicate OwnedBut(s: Seg, x: nat)
    requires |s.udata| == |s.btype|
  {
    forall d | 0 <= d < |s.btype| && d != x && s.btype[d] == DATABLOCK :: d in s.udata
  }

  /** What a new block leaves open: its own data block, or its own owner. */
  lemma InsertedData(s0: Seg, s1: Seg, t: nat, b: nat, x: nat, userData: seq<bool>)
    requires |s0.udata| == |s0.btype| && b < |s0.btype| && |userData| == MAX_PUBLIC_TYPES && t < MAX_INTERNAL_TYPES
    requires s1.btype == s0.btype[b := t] && s1.udata == s0.udata
    ensures DataGiven(s0, userData) ==> GivenBut(s1, userData, b)
    ensures DataGiven(s0, userData) && (t == DATABLOCK || !userData[t]) ==> DataGiven(s1, userData)
    ensures DataOwned(s0) ==> OwnedBut(s1, b)
    ensures OwnedBut(s0, x) && t != DATABLOCK ==> OwnedBut(s1, x)
    ensures DataOwned(s0) && t != DATABLOCK ==> DataOwned(s1)
  {
  }

  /** The segment after block `b` was given data block `d`. */
  function WithData(s: Seg, b: nat, d: nat): Seg
    requires b < |s.udata| && d < |s.locks|
  {
    s.(udata := s.udata[b := d], locks := s.locks[d := s.locks[d] + 1])
  }

  ghost predicate CanLink(s: Seg, b: nat, d: nat, userData: seq<bool>) {
    && |s.udata| == |s.btype| == |s.locks| <= 240 && |userData| == MAX_PUBLIC_TYPES && b < |s.btype| && d < |s.btype|
    && s.btype[b] < MAX_PUBLIC_TYPES && userData[s.btype[b]] && s.udata[b] == BLOCK_INVALID
    && s.btype[d] == DATABLOCK && d !in s.udata && GivenBut(s, userData, b) && OwnedBut(s, d)
  }

  lemma LinkedData(s: Seg, b: nat, d: nat, userData: seq<bool>)
    requires CanLink(s, b, d, userData) && DataLinks(s, userData)
    ensures var s' := WithData(s, b, d); DataLinks(s', userData) && DataGiven(s', userData) && DataOwned(s')
  {
    var s' := WithData(s, b, d);
    assert s'.udata[b] == d;
    forall x | 0 <= x < |s.btype| && s.btype[x] == DATABLOCK
      ensures x in s'.udata && s'.locks[x] == 1
    {
      if x != d {
        var a :| 0 <= a < |s.udata| && s.udata[a] == x;
        assert s'.udata[a] == x;
      }
    }
  }

  lemma Linked(s: Seg, sh: Shape, b: nat, d: nat, P: nat, userData: seq<bool>)
    requires Loose(s, sh, P, userData) && CanLink(s, b, d, userData) && b < |s.udata| && d < |s.locks|
    ensures Inv(WithData(s, b, d), sh, P, userData)
  {
    hide CanLink, DataLinks, DataGiven, DataOwned;
    LinkedData(s, b, d, userData);
    LinkKeepsChains(s, WithData(s, b, d), sh.chain);
  }

  lemma LinkKeepsChains(s: Seg, s': Seg, chain: seq<seq<nat>>)
    requires |s.tail| == |s.hint| == MAX_INTERNAL_TYPES && Chains(s, chain)
    requires s'.alloc == s.alloc && s'.btype == s.btype && s'.tail == s.tail && s'.hint == s.hint
    ensures Chains(s', chain)
  {
    forall t | 0 <= t < MAX_INTERNAL_TYPES ensures ChainOk(s', t, chain[t]) { assert ChainOk(s, t, chain[t]); }
  }

  /** Taking a block without user data back out restores the invariant. */
  lemma Unwound(s0: Seg, s1: Seg, t: nat, b: nat, userData: seq<bool>)
    requires |s0.mask| == 2 * |s0.locks| && |s0.locks| == |s0.btype| && b < |s0.btype| && |userData| == MAX_PUBLIC_TYPES
    requires Cleaned(s0, s1, t) && s0.btype[b] == t && t != DATABLOCK && EmptyBlock(s0.mask, b) && s0.locks[b] == 0
    requires GivenBut(s0, userData, b)
    ensures DataGiven(s1, userData)
  {
  }

  /** Too few free blocks, or one of those needed has no page yet. */
  ghost predicate CannotInsert(free: seq<nat>, commit: nat, t: nat, userData: seq<bool>)
    requires t < |userData|
  {
    || free == [] || free[0] >= commit
    || (userData[t] && (|free| == 1 || free[1] >= commit))
  }

  /** The free blocks that a new block of type `t` uses up: itself and, with user data, its data block. */
  function BlocksPer(t: nat, userData: seq<bool>): nat
    requires t < |userData|
  {
    if userData[t] then 2 else 1
  }

  /** The free list `free` became `free'` by `n` insertions of type `t`, and committed pages stayed committed. */
  ghost predicate UsedUp(free: seq<nat>, free': seq<nat>, commit: nat, commit': nat, t: nat, userData: seq<bool>,
      n: nat)
    requires t < |userData|
  {
    BlocksPer(t, userData) * n <= |free| && free' == free[BlocksPer(t, userData) * n..] && commit <= commit'
  }

  /** A request got `got` handles where `avail` were at hand: all of these, and 64 from every block that could be had.
      */
  ghost predicate Exhausted(got: nat, avail: nat, free: seq<nat>, commit: nat, t: nat, userData: seq<bool>)
    requires t < |userData|
  {
    && avail <= got && (got - avail) % HANDLES_PER_BLOCK == 0
    && var n := BlocksPer(t, userData) * ((got - avail) / HANDLES_PER_BLOCK);
       n <= |free| && CannotInsert(free[n..], commit, t, userData)
  }

  /** The free list has not enough blocks left after a request that got `got` handles where `avail` were at hand. */
  ghost predicate RanOut(got: nat, avail: nat, free: seq<nat>, t: nat, userData: seq<bool>)
    requires t < |userData|
  {
    avail <= got && |free| < BlocksPer(t, userData) * ((got - avail) / HANDLES_PER_BLOCK + 1)
  }

  /** A segment that gave `got` handles had no more to give. */
  ghost predicate Spent(got: nat, s: Seg, sh: Shape, t: nat, userData: seq<bool>)
    requires t < |userData|
  {
    t < |s.count| && 0 <= s.count[t] && Exhausted(got, s.count[t], sh.free, s.commit, t, userData)
  }

  lemma TakenAfter(free: seq<nat>, free': seq<nat>, commit: nat, commit': nat, t: nat, userData: seq<bool>, n: nat)
    requires t < |userData| && UsedUp(free, free', commit, commit', t, userData, n)
    ensures RanOut(n * HANDLES_PER_BLOCK, 0, free, t, userData) <==> |free'| < BlocksPer(t, userData)
  {
    assert n * HANDLES_PER_BLOCK / HANDLES_PER_BLOCK == n;
  }

  /** A failure after `n` insertions. */
  lemma FailsAfter(free: seq<nat>, free': seq<nat>, commit: nat, commit': nat, t: nat, userData: seq<bool>, n: nat)
    requires t < |userData| && UsedUp(free, free', commit, commit', t, userData, n)
      && CannotInsert(free', commit', t, userData)
    ensures Exhausted(n * HANDLES_PER_BLOCK, 0, free, commit, t, userData)
  {
    assert n * HANDLES_PER_BLOCK / HANDLES_PER_BLOCK == n;
  }

  lemma UsedUpNone(free: seq<nat>, commit: nat, t: nat, userData: seq<bool>)
    requires t < |userData|
    ensures UsedUp(free, free, commit, commit, t, userData, 0)
  {
  }

  lemma UsedUpMore(free: seq<nat>, free1: seq<nat>, free2: seq<nat>, c: nat, c1: nat, c2: nat, t: nat,
      userData: seq<bool>, n: nat)
    requires t < |userData| && UsedUp(free, free1, c, c1, t, userData, n)
      && UsedUp(free1, free2, c1, c2, t, userData, 1)
    ensures UsedUp(free, free2, c, c2, t, userData, n + 1)
  {
  }

  /** Handles at hand are taken first. */
  lemma ExhaustedMore(got: nat, avail: nat, free: seq<nat>, commit: nat, t: nat, userData: seq<bool>)
    requires t < |userData| && Exhausted(got, 0, free, commit, t, userData)
    ensures Exhausted(avail + got, avail, free, commit, t, userData)
  {
  }

  lemma ExhaustedNone(avail: nat, free: seq<nat>, commit: nat, t: nat, userData: seq<bool>)
    requires t < |userData| && Exhausted(0, avail, free, commit, t, userData)
    ensures CannotInsert(free, commit, t, userData)
  {
    assert free[0..] == free;
  }

  lemma SpentNone(s: Seg, sh: Shape, t: nat, userData: seq<bool>)
    requires t < |userData| && Spent(0, s, sh, t, userData)
    ensures CannotInsert(sh.free, s.commit, t, userData)
  {
    ExhaustedNone(s.count[t], sh.free, s.commit, t, userData);
  }

  lemma TwoFree(s: Seg, sh: Shape, P: nat, userData: seq<bool>)
    requires Loose(s, sh, P, userData) && sh.free != []
    ensures s.alloc[s.free] == BLOCK_INVALID <==> |sh.free| == 1
  {
    hide Chains, Counts, Types, DataLinks, Lines;
    if |sh.free| > 1 { assert sh.free[1] in sh.free; }
  }

  /** The two blocks taken for a user-data type are ready to be linked. */
  lemma ReadyToLink(s0: Seg, s1: Seg, s2: Seg, t: nat, b: nat, d: nat, P: nat, userData: seq<bool>)
    requires Sizes(s0, P) && |userData| == MAX_PUBLIC_TYPES && DataLinks(s0, userData) && DataGiven(s0, userData)
      && DataOwned(s0)
    requires t < MAX_PUBLIC_TYPES && userData[t] && b < |s0.btype| && d < |s0.btype| && s0.btype[d] == TYPE_INVALID
    requires s1.btype == s0.btype[d := DATABLOCK] && s1.udata == s0.udata
    requires s1.btype[b] == TYPE_INVALID && s2.btype == s1.btype[b := t] && s2.udata == s1.udata
      && |s2.locks| == |s2.udata|
    ensures CanLink(s2, b, d, userData)
  {
    assert b != d && s0.btype[b] == TYPE_INVALID;
    assert forall a | 0 <= a < |s0.udata| :: s0.udata[a] != d;
  }

  /** A free block became a block of type `t`, and no block of any type changed. */
  ghost predicate TookBlock(was: seq<nat>, btype: seq<nat>, t: nat, b: nat) {
    && |btype| == |was| && b < |btype| && was[b] == TYPE_INVALID && btype[b] == t
    && forall x | 0 <= x < |btype| && was[x] != TYPE_INVALID :: btype[x] == was[x]
  }

  lemma LooseParts(s: Seg, sh: Shape, P: nat, userData: seq<bool>)
    requires Loose(s, sh, P, userData)
    ensures Sizes(s, P) && |userData| == MAX_PUBLIC_TYPES && DataLinks(s, userData)
    ensures forall b | 0 <= b < |s.btype| && s.btype[b] == TYPE_INVALID :: EmptyBlock(s.mask, b) && s.locks[b] == 0
  {
    hide Chains, FreeOk, Counts, Lines;
  }

  /** No block with handles in use changed its type. */
  ghost predicate KeepsUsed(was: seq<nat>, btype: seq<nat>, mask: seq<Word>) {
    && |btype| == |was| && |mask| == 2 * |was|
    && forall x | 0 <= x < |was| && was[x] < MAX_PUBLIC_TYPES && !EmptyBlock(mask, x) :: btype[x] == was[x]
  }

  lemma CleanedKeepsUsed(s0: Seg, s1: Seg, t: nat)
    requires |s0.mask| == 2 * |s0.locks| && |s0.locks| == |s0.btype| && Cleaned(s0, s1, t)
    ensures KeepsUsed(s0.btype, s1.btype, s0.mask)
  {
  }

  /** Every block in use is committed, and when the next free block is not, one more page covers it. */
  lemma OnePageSuffices(s: Seg, sh: Shape, P: nat, userData: seq<bool>)
    requires Loose(s, sh, P, userData)
    ensures forall b | 0 <= b < |s.btype| && s.btype[b] != TYPE_INVALID :: b < s.commit
    ensures s.free != BLOCK_INVALID && s.free >= s.commit ==> s.free == s.empty == s.commit && s.commit + P <= 15 * P
  {
    hide Chains, Counts, Types, DataLinks;
    if s.free != BLOCK_INVALID && s.free >= s.commit {
      assert sh.free[0] in sh.free;
      PageFits(s.commit, P);
    }
  }
}
