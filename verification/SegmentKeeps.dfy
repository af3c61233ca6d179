/** What a pass over a chain means for the whole segment. */
module SegmentKeeps {
  import opened FreeMask
  import opened SegmentModel
  import opened SegmentSweep

  // ---------------------------------------------------------------- free counts

  lemma {:induction false} EmptyMaskBelow(hi: nat)
    requires hi <= 32
    ensures |FreeBelow(MASK_EMPTY, hi, 0)| == hi
  {
    if hi > 0 { EmptyMaskBelow(hi - 1); }
  }

  lemma EmptyBlockFree(mask: seq<Word>, b: nat)
    requires 2 * b + 1 < |mask| && EmptyBlock(mask, b)
    ensures BlockFree(mask, b) == HANDLES_PER_BLOCK
  {
    EmptyMaskBelow(32);
  }

  lemma {:induction false} RetypeCount(mask: seq<Word>, btype: seq<nat>, b: nat, v: nat, u: nat, n: nat)
    requires n <= |btype| && 2 * n <= |mask| && b < |btype| && 2 * |btype| <= |mask|
    ensures TypeFree(mask, btype[b := v], u, n) == TypeFree(mask, btype, u, n)
      + (if b < n && v == u then BlockFree(mask, b) else 0) - (if b < n && btype[b] == u then BlockFree(mask, b) else 0)
  {
    if n > 0 { RetypeCount(mask, btype, b, v, u, n - 1); }
  }

  /** Taking blocks of type `t` that hold no handle out of the type array. */
  lemma {:induction false} ClearedCount(mask: seq<Word>, btype: seq<nat>, F: seq<nat>, t: nat, u: nat)
    requires 2 * |btype| == |mask| && Distinct(F) && t != TYPE_INVALID && u != TYPE_INVALID
    requires forall k | 0 <= k < |F| :: F[k] < |btype| && btype[F[k]] == t && EmptyBlock(mask, F[k])
    ensures TypeFree(mask, Cleared(btype, F), u, |btype|)
      == TypeFree(mask, btype, u, |btype|) - if u == t then |F| * HANDLES_PER_BLOCK else 0
  {
    if F == [] {
      assert Cleared(btype, []) == btype;
    } else {
      var G, b := F[..|F| - 1], F[|F| - 1];
      ClearedCount(mask, btype, G, t, u);
      assert F == G + [b];
      ClearedNext(btype, G, b);
      RetypeCount(mask, Cleared(btype, G), b, TYPE_INVALID, u, |btype|);
      EmptyBlockFree(mask, b);
      assert b !in G;
    }
  }

  // ---------------------------------------------------------------- one pass

  ghost function Survivors(s: Seg, c: seq<nat>): seq<nat>
    requires |s.mask| == 2 * |s.locks|
  {
    Part(c, |c|, Removable(s), false)
  }

  ghost function Freed(s: Seg, c: seq<nat>): seq<nat>
    requires |s.mask| == 2 * |s.locks|
  {
    Part(c, |c|, Removable(s), true)
  }

  /** The chains and the free list after a pass over the chain of type `t`. */
  ghost function SweptShape(s: Seg, sh: Shape, t: nat): Shape
    requires |s.mask| == 2 * |s.locks| && t < |sh.chain|
  {
    Shape(sh.chain[t := Survivors(s, sh.chain[t])], Freed(s, sh.chain[t]) + sh.free, sh.owed)
  }

  lemma FreedAre(s: Seg, t: nat, c: seq<nat>)
    requires Shaped(s, t) && Lists(s.btype, t, c)
    ensures Distinct(Freed(s, c)) && Distinct(Survivors(s, c))
    ensures forall b: nat :: b in Freed(s, c) <==> b in c && b in Removable(s)
    ensures forall b: nat :: b in Survivors(s, c) <==> b in c && b !in Removable(s)
    ensures forall k | 0 <= k < |Freed(s, c)| ::
      Freed(s, c)[k] < |s.btype| && s.btype[Freed(s, c)[k]] == t && EmptyBlock(s.mask, Freed(s, c)[k])
          && s.locks[Freed(s, c)[k]] == 0
  {
    PartDistinct(c, |c|, Removable(s), true);
    PartDistinct(c, |c|, Removable(s), false);
    forall b: nat ensures (b in Freed(s, c) <==> b in c && b in Removable(s))
        && (b in Survivors(s, c) <==> b in c && b !in Removable(s)) {
      InPart(c, |c|, Removable(s), true, b);
      InPart(c, |c|, Removable(s), false, b);
      assert c[..|c|] == c;
    }
    var F := Freed(s, c);
    assert forall k | 0 <= k < |F| :: F[k] in F;
  }

  lemma SweptTypes(s0: Seg, s1: Seg, t: nat, c: seq<nat>)
    requires Shaped(s0, t) && Lists(s0.btype, t, c) && Types(s0) && Marked(s0, s1, Freed(s0, c))
    ensures Types(s1)
  {
    FreedAre(s0, t, c);
  }

  lemma SweptOwnChain(s0: Seg, s1: Seg, t: nat, c: seq<nat>)
    requires Shaped(s0, t) && t != TYPE_INVALID && ChainOk(s0, t, c) && Swept(s0, s1, t, c)
    ensures ChainOk(s1, t, Survivors(s0, c))
  {
    FreedAre(s0, t, c);
  }

  lemma SweptOtherChain(s0: Seg, s1: Seg, t: nat, c: seq<nat>, u: nat, d: seq<nat>)
    requires Shaped(s0, t) && u != TYPE_INVALID && t != u < |s0.tail|
    requires ChainOk(s0, t, c) && ChainOk(s0, u, d) && Swept(s0, s1, t, c)
    ensures ChainOk(s1, u, d)
  {
    FreedAre(s0, t, c);
    assert forall k | 0 <= k < |d| :: d[k] in d && d[k] !in c;
  }

  lemma SweptFree(s0: Seg, s1: Seg, t: nat, c: seq<nat>, free: seq<nat>)
    requires Shaped(s0, t) && t != TYPE_INVALID && ChainOk(s0, t, c) && FreeOk(s0, free) && Swept(s0, s1, t, c)
    ensures FreeOk(s1, Freed(s0, c) + free)
  {
    hide Circular, Ends;
    FreedAre(s0, t, c);
    assert forall k | 0 <= k < |free| :: free[k] in free && free[k] !in c;
    LinearJoin(s0.alloc, s1.alloc, c, Freed(s0, c), free, BLOCK_INVALID);
    ListsJoin(s0.btype, t, Freed(s0, c), free);
  }

  lemma LinearJoin(a0: seq<nat>, a1: seq<nat>, c: seq<nat>, F: seq<nat>, free: seq<nat>, end: nat)
    requires SameOutside(a0, a1, c) && Linear(a0, free, end) && Linear(a1, F, Head(free, end))
    requires forall k | 0 <= k < |free| :: free[k] !in c
    ensures Linear(a1, F + free, end) && Head(F, Head(free, end)) == Head(F + free, end)
  {
    var all := F + free;
    forall k | 0 <= k < |all| - 1 ensures a1[all[k]] == all[k + 1] {
      if k < |F| { assert all[k] == F[k]; } else { assert all[k] == free[k - |F|]; }
    }
    if free == [] { assert all == F; } else { assert all[|all| - 1] == free[|free| - 1]; }
  }

  lemma ListsJoin(btype: seq<nat>, t: nat, F: seq<nat>, free: seq<nat>)
    requires t != TYPE_INVALID && Distinct(F) && forall k | 0 <= k < |F| :: F[k] < |btype| && btype[F[k]] == t
    requires Lists(btype, TYPE_INVALID, free)
    ensures Lists(Cleared(btype, F), TYPE_INVALID, F + free)
  {
    assert forall k | 0 <= k < |free| :: free[k] in free;
    assert forall k | 0 <= k < |F| :: F[k] !in free;
  }

  lemma SweptCounts(s0: Seg, s1: Seg, t: nat, c: seq<nat>, owed: seq<int>)
    requires Shaped(s0, t) && |s0.count| == MAX_INTERNAL_TYPES && Lists(s0.btype, t, c) && Counts(s0, owed)
      && Swept(s0, s1, t, c)
    ensures Counts(s1, owed)
  {
    FreedAre(s0, t, c);
    forall u | 0 <= u < MAX_INTERNAL_TYPES ensures s1.count[u] == TypeFree(s1.mask, s1.btype, u, |s1.btype|) + owed[u] {
      ClearedCount(s0.mask, s0.btype, Freed(s0, c), t, u);
    }
  }

  lemma SweptLines(s0: Seg, s1: Seg, t: nat, c: seq<nat>, free: seq<nat>, P: nat)
    requires Sizes(s0, P) && t < MAX_INTERNAL_TYPES && Lists(s0.btype, t, c) && Lines(s0, free, P)
      && Marked(s0, s1, Freed(s0, c))
    ensures Lines(s1, Freed(s0, c) + free, P)
  {
    FreedAre(s0, t, c);
    var F := Freed(s0, c);
    var all := F + free;
    forall k | 0 <= k < |all| - (15 * P - s1.empty) ensures all[k] < s1.empty {
      if k < |F| { assert all[k] == F[k]; } else { assert all[k] == free[k - |F|]; }
    }
    forall k | |all| - (15 * P - s1.empty) <= k < |all| ensures all[k] == 15 * P - (|all| - k) {
      assert all[k] == free[k - |F|];
    }
  }

  lemma SweptDataLinks(s0: Seg, s1: Seg, t: nat, c: seq<nat>, userData: seq<bool>)
    requires Shaped(s0, t) && t != TYPE_INVALID && Lists(s0.btype, t, c) && |userData| == MAX_PUBLIC_TYPES
    requires DataLinks(s0, userData) && Marked(s0, s1, Freed(s0, c))
    ensures DataLinks(s1, userData)
  {
    FreedAre(s0, t, c);
    var F := Freed(s0, c);
    var D := DataOf(s0.udata, F);
    forall d | 0 <= d < |s1.btype| && s1.btype[d] == DATABLOCK ensures s1.locks[d] == if d in s1.udata then 1 else 0 {
      DataOfIn(s0.udata, F, d);
    }
    forall b | 0 <= b < |s1.btype| && s1.btype[b] == TYPE_INVALID ensures s1.locks[b] == 0 {
    }
    forall b | 0 <= b < |s1.udata| && s1.udata[b] != BLOCK_INVALID
      ensures s1.btype[b] < MAX_PUBLIC_TYPES && userData[s1.btype[b]] && s1.udata[b] < |s1.btype|
        && s1.btype[s1.udata[b]] == DATABLOCK
    {
      assert b !in F && s1.udata[b] == s0.udata[b];
      assert s0.udata[b] in s0.udata;
    }
  }

  /** A data block keeps its link exactly if the block it belongs to stays. */
  lemma DataOfIn(udata: seq<nat>, F: seq<nat>, d: nat)
    requires d != BLOCK_INVALID
    requires forall a, b | 0 <= a < b < |udata| && udata[a] != BLOCK_INVALID :: udata[a] != udata[b]
    ensures d in Cleared(udata, F) <==> d in udata && d !in DataOf(udata, F)
    ensures d in DataOf(udata, F) ==> d in udata
  {
    var u := Cleared(udata, F);
    if d in u {
      var b :| 0 <= b < |u| && u[b] == d;
      assert udata[b] == d;
    }
    if d in udata && d !in DataOf(udata, F) {
      var b :| 0 <= b < |udata| && udata[b] == d;
      assert u[b] == d;
    }
  }

  lemma SweptChains(s0: Seg, s1: Seg, t: nat, chain: seq<seq<nat>>)
    requires Shaped(s0, t) && |s0.tail| == |s1.tail| == |s1.hint| == MAX_INTERNAL_TYPES
    requires Chains(s0, chain) && Swept(s0, s1, t, chain[t])
    ensures Chains(s1, chain[t := Survivors(s0, chain[t])])
  {
    hide ChainOk, Swept;
    var chain' := chain[t := Survivors(s0, chain[t])];
    forall u | 0 <= u < MAX_INTERNAL_TYPES ensures ChainOk(s1, u, chain'[u]) {
      if u == t {
        SweptOwnChain(s0, s1, t, chain[t]);
      } else {
        SweptOtherChain(s0, s1, t, chain[t], u, chain[u]);
      }
    }
  }

  lemma SweptLoose(s0: Seg, s1: Seg, sh: Shape, t: nat, P: nat, userData: seq<bool>)
    requires Loose(s0, sh, P, userData) && t < MAX_INTERNAL_TYPES && Swept(s0, s1, t, sh.chain[t])
    ensures Loose(s1, SweptShape(s0, sh, t), P, userData)
  {
    hide Types, FreeOk, Counts, Lines, DataLinks;
    var c := sh.chain[t];
    assert ChainOk(s0, t, c);
    SweptTypes(s0, s1, t, c);
    SweptChains(s0, s1, t, sh.chain);
    SweptFree(s0, s1, t, c, sh.free);
    SweptCounts(s0, s1, t, c, sh.owed);
    SweptLines(s0, s1, t, c, sh.free, P);
    SweptDataLinks(s0, s1, t, c, userData);
  }

  lemma SweptGiven(s0: Seg, s1: Seg, t: nat, c: seq<nat>, userData: seq<bool>)
    requires Shaped(s0, t) && |userData| == MAX_PUBLIC_TYPES && DataGiven(s0, userData) && Marked(s0, s1, Freed(s0, c))
    ensures DataGiven(s1, userData)
  {
  }

  /** A pass over the data blocks leaves exactly those that belong to a handle block. */
  lemma SweptDataOwned(s0: Seg, s1: Seg, c: seq<nat>, userData: seq<bool>)
    requires Shaped(s0, DATABLOCK) && Lists(s0.btype, DATABLOCK, c) && |userData| == MAX_PUBLIC_TYPES
    requires Types(s0) && DataLinks(s0, userData) && Marked(s0, s1, Freed(s0, c))
    ensures DataOwned(s1) && DataOf(s0.udata, Freed(s0, c)) == {}
  {
    FreedAre(s0, DATABLOCK, c);
    var F := Freed(s0, c);
    assert forall b | b in F :: s0.udata[b] == BLOCK_INVALID;
    forall d | 0 <= d < |s1.btype| && s1.btype[d] == DATABLOCK ensures d in s1.udata {
      DataOfIn(s0.udata, F, d);
    }
  }

  /** Without user data on the freed blocks, every data block still has its owner. */
  lemma SweptKeepsOwned(s0: Seg, s1: Seg, t: nat, c: seq<nat>, userData: seq<bool>)
    requires Shaped(s0, t) && Lists(s0.btype, t, c) && |userData| == MAX_PUBLIC_TYPES
    requires DataLinks(s0, userData) && DataOwned(s0) && Marked(s0, s1, Freed(s0, c))
      && DataOf(s0.udata, Freed(s0, c)) == {}
    ensures DataOwned(s1)
  {
    FreedAre(s0, t, c);
    forall d | 0 <= d < |s1.btype| && s1.btype[d] == DATABLOCK ensures d in s1.udata {
      DataOfIn(s0.udata, Freed(s0, c), d);
    }
  }

  lemma LooseReady(s: Seg, sh: Shape, t: nat, P: nat, userData: seq<bool>)
    requires Loose(s, sh, P, userData) && t < MAX_INTERNAL_TYPES
    ensures Sizes(s, P) && |sh.chain| == MAX_INTERNAL_TYPES
    ensures Shaped(s, t) && ChainOk(s, t, sh.chain[t]) && DataReady(s, sh.chain[t])
  {
    hide FreeOk, Counts, Lines, Types;
    var c := sh.chain[t];
    assert ChainOk(s, t, c);
    forall b | b in c && s.udata[b] != BLOCK_INVALID
      ensures s.udata[b] < |s.locks| && s.udata[b] !in c && s.locks[s.udata[b]] > 0
    {
      assert s.udata[b] in s.udata;
    }
  }

  /** What is left of the blocks after a pass over the chain of type `t`, and perhaps one over the data blocks. */
  ghost predicate Cleaned(s0: Seg, s1: Seg, t: nat)
    requires |s0.mask| == 2 * |s0.locks|
  {
    && |s1.btype| == |s0.btype| && |s1.udata| == |s0.udata| == |s0.btype|
    && (forall b | 0 <= b < |s0.btype| && s1.btype[b] != TYPE_INVALID ::
        s1.btype[b] == s0.btype[b] && s1.udata[b] == s0.udata[b])
    && (forall b | 0 <= b < |s0.btype| && s0.btype[b] != DATABLOCK ::
          s1.btype[b] == if s0.btype[b] == t && b in Removable(s0) then TYPE_INVALID else s0.btype[b])
  }

  lemma SweptCleaned(s0: Seg, s1: Seg, t: nat, c: seq<nat>)
    requires Shaped(s0, t) && t != TYPE_INVALID && Lists(s0.btype, t, c) && Marked(s0, s1, Freed(s0, c))
    ensures Cleaned(s0, s1, t)
  {
    FreedAre(s0, t, c);
  }

  lemma SweptCleanedData(s0: Seg, s1: Seg, s2: Seg, t: nat, c: seq<nat>)
    requires Shaped(s0, t) && t != TYPE_INVALID && Shaped(s1, DATABLOCK) && |s1.btype| == |s0.btype| && t != DATABLOCK
    requires Cleaned(s0, s1, t) && Lists(s1.btype, DATABLOCK, c) && Marked(s1, s2, Freed(s1, c))
    ensures Cleaned(s0, s2, t)
  {
    FreedAre(s1, DATABLOCK, c);
  }

  /** Masks and the locks of handle blocks are as they were. */
  ghost predicate LocksKept(s0: Seg, s1: Seg) {
    && s1.mask == s0.mask && |s1.locks| == |s0.locks| == |s1.btype|
    && forall b | 0 <= b < |s1.btype| && s1.btype[b] < MAX_PUBLIC_TYPES :: s1.locks[b] == s0.locks[b]
  }

  lemma SweptLocks(s0: Seg, s1: Seg, t: nat, c: seq<nat>, userData: seq<bool>)
    requires Shaped(s0, t) && |userData| == MAX_PUBLIC_TYPES && DataLinks(s0, userData) && Marked(s0, s1, Freed(s0, c))
    ensures LocksKept(s0, s1)
  {
    forall b | 0 <= b < |s1.btype| && s1.btype[b] < MAX_PUBLIC_TYPES ensures b !in DataOf(s0.udata, Freed(s0, c)) {
      assert s0.btype[b] != DATABLOCK;
    }
  }

  lemma RemovedOnce(s0: Seg, s1: Seg, sh: Shape, t: nat, P: nat, userData: seq<bool>)
    requires Loose(s0, sh, P, userData) && t < MAX_INTERNAL_TYPES && Swept(s0, s1, t, sh.chain[t])
    ensures Loose(s1, SweptShape(s0, sh, t), P, userData) && Cleaned(s0, s1, t) && LocksKept(s0, s1)
    ensures DataGiven(s0, userData) ==> DataGiven(s1, userData)
    ensures t == DATABLOCK ==> DataOwned(s1) && DataOf(s0.udata, Freed(s0, sh.chain[t])) == {}
    ensures DataOwned(s0) && DataOf(s0.udata, Freed(s0, sh.chain[t])) == {} ==> DataOwned(s1)
  {
    hide Types, FreeOk, Counts, Lines, DataLinks, DataGiven, DataOwned;
    SweptLoose(s0, s1, sh, t, P, userData);
    var c := sh.chain[t];
    assert ChainOk(s0, t, c);
    SweptCleaned(s0, s1, t, c);
    SweptLocks(s0, s1, t, c, userData);
    if DataGiven(s0, userData) { SweptGiven(s0, s1, t, c, userData); }
    if t == DATABLOCK { SweptDataOwned(s0, s1, c, userData); }
    if DataOwned(s0) && DataOf(s0.udata, Freed(s0, sh.chain[t])) == {} { SweptKeepsOwned(s0, s1, t, c, userData); }
  }

  lemma RemovedTwice(s0: Seg, s1: Seg, s2: Seg, sh: Shape, t: nat, P: nat, userData: seq<bool>)
    requires Sizes(s0, P) && Loose(s1, sh, P, userData) && t < DATABLOCK && Cleaned(s0, s1, t)
      && Swept(s1, s2, DATABLOCK, sh.chain[DATABLOCK])
    requires LocksKept(s0, s1)
    ensures Loose(s2, SweptShape(s1, sh, DATABLOCK), P, userData) && Cleaned(s0, s2, t) && DataOwned(s2)
      && LocksKept(s0, s2)
    ensures DataGiven(s1, userData) ==> DataGiven(s2, userData)
  {
    hide Types, FreeOk, Counts, Lines, DataLinks, DataGiven, DataOwned;
    RemovedOnce(s1, s2, sh, DATABLOCK, P, userData);
    assert ChainOk(s1, DATABLOCK, sh.chain[DATABLOCK]);
    SweptCleanedData(s0, s1, s2, t, sh.chain[DATABLOCK]);
  }
}
