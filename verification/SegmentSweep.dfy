/** One pass over a circular chain that takes out the empty, unlocked blocks
    (`SegmentRemoveFreeBlocks` in src/gc/handletablecore.cpp). */
module SegmentSweep {
  import opened FreeMask
  import opened SegmentModel

  /** The blocks among the first `i` of a chain that are in `R` (or, with `v` false, that are not), in order. */
  function Part(c: seq<nat>, i: nat, R: set<nat>, v: bool): (r: seq<nat>)
    requires i <= |c|
  {
    if i == 0 then [] else Part(c, i - 1, R, v) + if (c[i - 1] in R) == v then [c[i - 1]] else []
  }

  lemma {:induction false} InPart(c: seq<nat>, i: nat, R: set<nat>, v: bool, b: nat)
    requires i <= |c|
    ensures b in Part(c, i, R, v) <==> b in c[..i] && (b in R) == v
  {
    if i > 0 {
      InPart(c, i - 1, R, v, b);
      assert c[..i] == c[..i - 1] + [c[i - 1]];
    }
  }

  lemma {:induction false} PartDistinct(c: seq<nat>, i: nat, R: set<nat>, v: bool)
    requires i <= |c| && Distinct(c)
    ensures Distinct(Part(c, i, R, v))
  {
    if i > 0 {
      PartDistinct(c, i - 1, R, v);
      InPart(c, i - 1, R, v, c[i - 1]);
    }
  }

  /** The links of a chain when the pass has come to `c[i]`: the survivors so far lead to it, the freed blocks
      are linked in order, the rest is untouched, and the old tail closes the ring. */
  ghost predicate Walk(alloc: seq<nat>, c: seq<nat>, i: nat, K: seq<nat>, F: seq<nat>) {
    && i < |c|
    && Links(alloc, K) && Links(alloc, F) && Links(alloc, c[i..])
    && (K != [] ==> alloc[K[|K| - 1]] == c[i])
    && alloc[c[|c| - 1]] == Head(K, c[i])
  }

  /** Survivors, freed blocks and blocks still ahead do not overlap. */
  ghost predicate Apart(c: seq<nat>, i: nat, K: seq<nat>, F: seq<nat>) {
    && i <= |c| && Distinct(K) && Distinct(F) && Distinct(c)
    && (forall k, j | 0 <= k < |K| && 0 <= j < |F| :: K[k] != F[j])
    && (forall k, j | 0 <= k < |K| && i <= j < |c| :: K[k] != c[j])
    && (forall k, j | 0 <= k < |F| && i <= j < |c| :: F[k] != c[j])
  }

  lemma PartsApart(c: seq<nat>, i: nat, R: set<nat>)
    requires i <= |c| && Distinct(c)
    ensures Apart(c, i, Part(c, i, R, false), Part(c, i, R, true))
  {
    var K, F := Part(c, i, R, false), Part(c, i, R, true);
    PartDistinct(c, i, R, false);
    PartDistinct(c, i, R, true);
    forall k | 0 <= k < |K| ensures K[k] !in R && K[k] in c[..i] { InPart(c, i, R, false, K[k]); }
    forall k | 0 <= k < |F| ensures F[k] in R && F[k] in c[..i] { InPart(c, i, R, true, F[k]); }
  }

  lemma WalkKeep(alloc: seq<nat>, c: seq<nat>, i: nat, K: seq<nat>, F: seq<nat>)
    requires Walk(alloc, c, i, K, F)
    ensures i + 1 < |c| ==> Walk(alloc, c, i + 1, K + [c[i]], F)
    ensures i + 1 == |c| ==> Circular(alloc, K + [c[i]])
  {
    var r := c[i..];
    if i + 1 < |c| {
      assert alloc[r[0]] == r[1];
      assert c[i + 1..] == r[1..];
    }
  }

  /** Linking a freed block behind the last one. */
  function LinkFreed(alloc: seq<nat>, F: seq<nat>, b: nat): seq<nat>
    requires F != [] ==> F[|F| - 1] < |alloc|
  {
    if F == [] then alloc else alloc[F[|F| - 1] := b]
  }

  lemma LinkFreedKeeps(alloc: seq<nat>, c: seq<nat>, i: nat, K: seq<nat>, F: seq<nat>)
    requires Walk(alloc, c, i, K, F) && Apart(c, i, K, F)
    ensures Walk(LinkFreed(alloc, F, c[i]), c, i, K, F)
    ensures Links(LinkFreed(alloc, F, c[i]), F + [c[i]])
  {
    var alloc' := LinkFreed(alloc, F, c[i]);
    assert c[i..][0] == c[i];
    assert forall j | i <= j < |c| :: c[i..][j - i] == c[j];
  }

  /** Taking out a block that is not the only one left: its predecessor is linked past it. */
  lemma WalkDrop(alloc: seq<nat>, c: seq<nat>, i: nat, K: seq<nat>, F: seq<nat>, prev: nat)
    requires Walk(alloc, c, i, K, F) && Apart(c, i, K, F)
    requires Links(alloc, F + [c[i]])
    requires prev == (if K == [] then c[|c| - 1] else K[|K| - 1]) && prev != c[i]
    ensures prev < |alloc| && c[i] < |alloc|
    ensures var alloc' := alloc[prev := alloc[c[i]]];
            && (i + 1 < |c| ==> Walk(alloc', c, i + 1, K, F + [c[i]]))
            && (i + 1 == |c| ==> Circular(alloc', K) && Links(alloc', F + [c[i]]))
  {
    var r := c[i..];
    assert r[0] == c[i] && r[|r| - 1] == c[|c| - 1];
    var alloc' := alloc[prev := alloc[c[i]]];
    DropLinks(alloc, alloc', c, i, K, F, prev);
    if i + 1 < |c| {
      assert alloc[r[0]] == r[1];
    }
  }

  lemma DropLinks(alloc: seq<nat>, alloc': seq<nat>, c: seq<nat>, i: nat, K: seq<nat>, F: seq<nat>, prev: nat)
    requires Walk(alloc, c, i, K, F) && Apart(c, i, K, F) && Links(alloc, F + [c[i]])
    requires prev == (if K == [] then c[|c| - 1] else K[|K| - 1]) && prev != c[i] && prev < |alloc|
    requires |alloc'| == |alloc| && forall b | 0 <= b < |alloc| && b != prev :: alloc'[b] == alloc[b]
    ensures Links(alloc', K) && Links(alloc', F + [c[i]]) && Links(alloc', c[i + 1..])
  {
    var r, r' := c[i..], c[i + 1..];
    assert forall j | i <= j < |c| :: r[j - i] == c[j];
    forall k | 0 <= k < |r'| - 1 ensures alloc'[r'[k]] == r'[k + 1] {
      assert r'[k] == r[k + 1] && r'[k + 1] == r[k + 2];
    }
    assert forall k | 0 <= k < |r'| :: r'[k] == r[k + 1];
    var G := F + [c[i]];
    forall k | 0 <= k < |G| - 1 ensures alloc'[G[k]] == G[k + 1] {
      assert G[k] == F[k] && G[k] != prev;
    }
  }

  /** The blocks that hold no handle and are not locked. */
  ghost function Removable(s: Seg): set<nat>
    requires |s.mask| == 2 * |s.locks|
  {
    set b: nat | b < |s.locks| && EmptyBlock(s.mask, b) && s.locks[b] == 0
  }

  /** `a` with every entry for a block of `F` marked invalid. */
  ghost function Cleared(a: seq<nat>, F: seq<nat>): seq<nat> {
    seq(|a|, b requires 0 <= b < |a| => if b in F then BLOCK_INVALID else a[b])
  }

  /** The data blocks of the blocks in `F`. */
  ghost function DataOf(udata: seq<nat>, F: seq<nat>): set<nat> {
    set b | b in F && b < |udata| && udata[b] != BLOCK_INVALID :: udata[b]
  }

  /** Lock counts with one lock taken off every block of `D`. */
  ghost function Lowered(locks: seq<nat>, D: set<nat>): seq<nat> {
    seq(|locks|, d requires 0 <= d < |locks| => if d in D && locks[d] > 0 then locks[d] - 1 else locks[d])
  }

  lemma ClearedNext(a: seq<nat>, F: seq<nat>, b: nat)
    requires b < |a|
    ensures Cleared(a, F + [b]) == Cleared(a, F)[b := BLOCK_INVALID]
  {
  }

  lemma DataOfNext(udata: seq<nat>, F: seq<nat>, b: nat)
    requires b < |udata|
    ensures DataOf(udata, F + [b]) == DataOf(udata, F) + if udata[b] == BLOCK_INVALID then {} else {udata[b]}
  {
    var D, D' := DataOf(udata, F), DataOf(udata, F + [b]);
    forall d ensures d in D' <==> d in D || (udata[b] != BLOCK_INVALID && d == udata[b]) {
      if d in D {
        var x :| x in F && x < |udata| && udata[x] != BLOCK_INVALID && d == udata[x];
        assert x in F + [b];
      }
      if udata[b] != BLOCK_INVALID && d == udata[b] {
        assert b in F + [b];
      }
    }
  }

  lemma LoweredNext(locks: seq<nat>, D: set<nat>, d: nat)
    requires d < |locks| && d !in D && locks[d] > 0
    ensures Lowered(locks, D + {d}) == Lowered(locks, D)[d := locks[d] - 1]
  {
  }

  /** What one pass over the chain `c` of type `t` does to the segment: exactly the removable blocks leave the
      chain and go to the front of the free list, survivors and freed blocks keep their order, and the chain's
      tail and hint are on survivors. */
  ghost predicate Swept(s0: Seg, s1: Seg, t: nat, c: seq<nat>)
    requires |s0.mask| == 2 * |s0.locks| && t < |s0.tail| == |s0.hint| == |s0.count|
  {
    var K, F := Part(c, |c|, Removable(s0), false), Part(c, |c|, Removable(s0), true);
    && SameOutside(s0.alloc, s1.alloc, c)
    && Circular(s1.alloc, K) && Linear(s1.alloc, F, s0.free) && s1.free == Head(F, s0.free)
    && Marked(s0, s1, F)
    && s1.count == s0.count[t := s0.count[t] - |F| * HANDLES_PER_BLOCK]
    && |s1.tail| == |s0.tail| && s1.tail == s0.tail[t := s1.tail[t]]
    && |s1.hint| == |s0.hint| && s1.hint == s0.hint[t := s1.hint[t]]
    && Ends(K, s1.tail[t], s1.hint[t]) && (s0.hint[t] in K ==> s1.hint[t] == s0.hint[t])
  }

  /** The data blocks of a chain: distinct, locked, and not themselves in the chain. */
  ghost predicate DataReady(s: Seg, c: seq<nat>) {
    && |s.udata| == |s.locks| && (forall b | b in c :: b < |s.udata|)
    && (forall b | b in c && s.udata[b] != BLOCK_INVALID ::
          s.udata[b] < |s.locks| && s.udata[b] !in c && s.locks[s.udata[b]] > 0)
    && (forall a, b | a in c && b in c && a != b && s.udata[a] != BLOCK_INVALID :: s.udata[a] != s.udata[b])
  }

  ghost predicate Shaped(s: Seg, t: nat) {
    && |s.btype| == |s.alloc| == |s.udata| == |s.locks| <= 240 && |s.mask| == 2 * |s.locks|
    && t < |s.tail| == |s.hint| == |s.count|
  }

  /** The per-block fields other than the links, with the blocks of `F` taken out. */
  ghost predicate Marked(s0: Seg, s: Seg, F: seq<nat>) {
    && s.mask == s0.mask && s.btype == Cleared(s0.btype, F) && s.udata == Cleared(s0.udata, F)
    && s.locks == Lowered(s0.locks, DataOf(s0.udata, F))
    && s.empty == s0.empty && s.commit == s0.commit && s.decommit == s0.decommit
  }

  /** The hint is on a survivor or on a block still ahead. */
  ghost predicate HintAt(s0: Seg, s: Seg, t: nat, ahead: seq<nat>, K: seq<nat>, R: set<nat>)
    requires t < |s0.hint|
  {
    && |s.hint| == |s0.hint| && s.hint == s0.hint[t := s.hint[t]]
    && (s.hint[t] in K || s.hint[t] in ahead) && (s0.hint[t] !in R ==> s.hint[t] == s0.hint[t])
  }

  ghost predicate SameOutside(a0: seq<nat>, a: seq<nat>, c: seq<nat>) {
    |a| == |a0| && forall b | 0 <= b < |a0| && b !in c :: a[b] == a0[b]
  }

  /** The segment when the pass has come to block `c[i]`. */
  ghost predicate Pass(s0: Seg, s: Seg, t: nat, c: seq<nat>, i: nat, K: seq<nat>, F: seq<nat>)
    requires Shaped(s0, t)
  {
    && i < |c| && K == Part(c, i, Removable(s0), false) && F == Part(c, i, Removable(s0), true)
    && SameOutside(s0.alloc, s.alloc, c) && Walk(s.alloc, c, i, K, F)
    && Marked(s0, s, F) && s.count == s0.count && s.free == s0.free
    && s.tail == s0.tail && HintAt(s0, s, t, c[i..], K, Removable(s0))
  }

  /** The segment after the last block of the chain, before the freed blocks go to the free list. */
  ghost predicate Passed(s0: Seg, s: Seg, t: nat, c: seq<nat>, K: seq<nat>, F: seq<nat>)
    requires Shaped(s0, t)
  {
    && K == Part(c, |c|, Removable(s0), false) && F == Part(c, |c|, Removable(s0), true)
    && SameOutside(s0.alloc, s.alloc, c) && Circular(s.alloc, K) && Links(s.alloc, F)
    && Marked(s0, s, F) && s.count == s0.count && s.free == s0.free
    && |s.tail| == |s0.tail| && s.tail == s0.tail[t := s.tail[t]]
    && |s.hint| == |s0.hint| && s.hint == s0.hint[t := s.hint[t]]
    && Ends(K, s.tail[t], s.hint[t]) && (s0.hint[t] in K ==> s.hint[t] == s0.hint[t])
  }

  lemma PassStart(s: Seg, t: nat, c: seq<nat>)
    requires Shaped(s, t) && ChainOk(s, t, c) && c != []
    ensures Pass(s, s, t, c, 0, [], []) && s.tail[t] == c[|c| - 1] < |s.alloc| && s.alloc[s.tail[t]] == c[0]
  {
    assert c[0..] == c;
    assert Cleared(s.btype, []) == s.btype && Cleared(s.udata, []) == s.udata;
    assert DataOf(s.udata, []) == {};
    assert Lowered(s.locks, {}) == s.locks;
  }

  /** The test the pass makes on the current fields decides membership in the set fixed at the start. */
  lemma PassTest(s0: Seg, s: Seg, t: nat, c: seq<nat>, i: nat, K: seq<nat>, F: seq<nat>)
    requires Shaped(s0, t) && Pass(s0, s, t, c, i, K, F) && ChainOk(s0, t, c) && DataReady(s0, c)
    ensures c[i] < |s.locks| && s.locks[c[i]] == s0.locks[c[i]] && s.udata[c[i]] == s0.udata[c[i]]
    ensures c[i] in Removable(s0) <==> EmptyBlock(s.mask, c[i]) && s.locks[c[i]] == 0
    ensures s0.udata[c[i]] != BLOCK_INVALID ==>
      s0.udata[c[i]] < |s.locks| && s0.udata[c[i]] !in DataOf(s0.udata, F)
          && s.locks[s0.udata[c[i]]] == s0.locks[s0.udata[c[i]]] > 0
  {
    var R := Removable(s0);
    forall b | b in F ensures b in c && b != c[i] { InPart(c, i, R, true, b); }
    var D := DataOf(s0.udata, F);
    assert c[i] in c;
    assert c[i] !in D;
    assert c[i] !in F;
    assert s0.udata[c[i]] != BLOCK_INVALID ==> s0.udata[c[i]] !in D;
  }

  lemma PassKeepOn(s0: Seg, s: Seg, t: nat, c: seq<nat>, i: nat, K: seq<nat>, F: seq<nat>)
    requires Shaped(s0, t) && Pass(s0, s, t, c, i, K, F) && c[i] !in Removable(s0) && i + 1 < |c|
    ensures Pass(s0, s, t, c, i + 1, K + [c[i]], F)
  {
    WalkKeep(s.alloc, c, i, K, F);
    HintKeep(s0, s, t, c, i, K, Removable(s0));
  }

  lemma HintKeep(s0: Seg, s: Seg, t: nat, c: seq<nat>, i: nat, K: seq<nat>, R: set<nat>)
    requires i < |c| && t < |s0.hint| && HintAt(s0, s, t, c[i..], K, R)
    ensures HintAt(s0, s, t, c[i + 1..], K + [c[i]], R)
  {
    assert c[i..] == [c[i]] + c[i + 1..];
  }

  lemma PassKeepLast(s0: Seg, s: Seg, t: nat, c: seq<nat>, i: nat, K: seq<nat>, F: seq<nat>)
    requires Shaped(s0, t) && Pass(s0, s, t, c, i, K, F) && Ends(c, s0.tail[t], s0.hint[t])
    requires c[i] !in Removable(s0) && i + 1 == |c|
    ensures Passed(s0, s, t, c, K + [c[i]], F)
  {
    WalkKeep(s.alloc, c, i, K, F);
    HintKeep(s0, s, t, c, i, K, Removable(s0));
    HintDone(s0, s, t, c, K + [c[i]]);
  }

  /** With nothing ahead, the hint is on a survivor, and it moved only if its block was taken out. */
  lemma HintDone(s0: Seg, s: Seg, t: nat, c: seq<nat>, K: seq<nat>)
    requires Shaped(s0, t) && HintAt(s0, s, t, c[|c|..], K, Removable(s0)) && K == Part(c, |c|, Removable(s0), false)
    ensures s.hint[t] in K && (s0.hint[t] in K ==> s.hint[t] == s0.hint[t])
  {
    InPart(c, |c|, Removable(s0), false, s0.hint[t]);
  }

  lemma MarkedNext(s0: Seg, s: Seg, s': Seg, F: seq<nat>, b: nat)
    requires Marked(s0, s, F) && b < |s0.btype| == |s0.udata| == |s0.locks|
    requires s0.udata[b] != BLOCK_INVALID ==>
      s0.udata[b] < |s0.locks| && s0.udata[b] !in DataOf(s0.udata, F) && s0.locks[s0.udata[b]] > 0
    requires s'.mask == s.mask
    requires s'.empty == s.empty && s'.commit == s.commit && s'.decommit == s.decommit
    requires s'.btype == s.btype[b := TYPE_INVALID] && s'.udata == s.udata[b := BLOCK_INVALID]
    requires s'.locks == if s0.udata[b]
      == BLOCK_INVALID then s.locks else s.locks[s0.udata[b] := s0.locks[s0.udata[b]] - 1]
    ensures Marked(s0, s', F + [b])
  {
    ClearedNext(s0.btype, F, b);
    ClearedNext(s0.udata, F, b);
    DataOfNext(s0.udata, F, b);
    var D, d := DataOf(s0.udata, F), s0.udata[b];
    if d != BLOCK_INVALID {
      LoweredNext(s0.locks, D, d);
    } else {
      assert D + {} == D;
    }
  }

  /** The links after the code has taken out `b`. */
  function DropLink(alloc: seq<nat>, b: nat, prev: nat, next: nat, last: nat): seq<nat>
    requires b < |alloc| && prev < |alloc| && (last != BLOCK_INVALID ==> last < |alloc|)
  {
    var a := if last == BLOCK_INVALID then alloc else alloc[last := b];
    if prev == b then a[b := BLOCK_INVALID] else a[prev := next]
  }

  ghost predicate Cursor(alloc: seq<nat>, c: seq<nat>, i: nat, K: seq<nat>, F: seq<nat>, prev: nat, last: nat) {
    && |alloc| <= 240 && Walk(alloc, c, i, K, F)
    && prev == (if K == [] then c[|c| - 1] else K[|K| - 1]) && last == if F == [] then BLOCK_INVALID else F[|F| - 1]
  }

  lemma CursorRange(alloc: seq<nat>, c: seq<nat>, i: nat, K: seq<nat>, F: seq<nat>, prev: nat, last: nat)
    requires Cursor(alloc, c, i, K, F, prev, last) && Apart(c, i, K, F)
    ensures c[i] < |alloc| && prev < |alloc| && (last != BLOCK_INVALID ==> last < |alloc|)
      && (last == BLOCK_INVALID <==> F == [])
    ensures prev == c[i] <==> K == [] && i + 1 == |c|
    ensures alloc[c[i]] == if i + 1 < |c| then c[i + 1] else Head(K, c[i])
  {
    var r := c[i..];
    assert r[0] == c[i] && r[|r| - 1] == c[|c| - 1];
    if i + 1 < |c| { assert r[1] == c[i + 1]; }
  }

  lemma LinksDrop(alloc: seq<nat>, c: seq<nat>, i: nat, K: seq<nat>, F: seq<nat>, prev: nat, last: nat)
    requires Cursor(alloc, c, i, K, F, prev, last) && Apart(c, i, K, F)
    requires (forall b | b in K || b in F :: b in c)
    ensures c[i] < |alloc| && prev < |alloc| && (last != BLOCK_INVALID ==> last < |alloc|)
    ensures var a := DropLink(alloc, c[i], prev, alloc[c[i]], last);
      && SameOutside(alloc, a, c)
      && (i + 1 < |c| ==> Walk(a, c, i + 1, K, F + [c[i]]))
      && (i + 1 == |c| ==> Circular(a, K) && Links(a, F + [c[i]]))
  {
    CursorRange(alloc, c, i, K, F, prev, last);
    LinkFreedKeeps(alloc, c, i, K, F);
    var a := LinkFreed(alloc, F, c[i]);
    assert a[c[i]] == alloc[c[i]];
    if prev != c[i] {
      WalkDrop(a, c, i, K, F, prev);
    } else {
      var a', G := a[c[i] := BLOCK_INVALID], F + [c[i]];
      forall k | 0 <= k < |G| - 1 ensures a'[G[k]] == G[k + 1] { assert G[k] == F[k]; }
    }
  }

  lemma PartIn(c: seq<nat>, i: nat, R: set<nat>)
    requires i <= |c|
    ensures forall b | b in Part(c, i, R, false) || b in Part(c, i, R, true) :: b in c
  {
    forall b ensures b in Part(c, i, R, false) || b in Part(c, i, R, true) ==> b in c {
      if b in Part(c, i, R, false) { InPart(c, i, R, false, b); }
      if b in Part(c, i, R, true) { InPart(c, i, R, true, b); }
    }
  }

  /** The links, from the start of the pass to after taking out `c[i]`. */
  lemma LinksDropped(a0: seq<nat>, alloc: seq<nat>, c: seq<nat>, i: nat, R: set<nat>, prev: nat, last: nat)
    requires i < |c| && Distinct(c) && SameOutside(a0, alloc, c)
    requires Cursor(alloc, c, i, Part(c, i, R, false), Part(c, i, R, true), prev, last)
    ensures c[i] < |alloc| && prev < |alloc| && (last != BLOCK_INVALID ==> last < |alloc|)
    ensures prev == c[i] <==> Part(c, i, R, false) == [] && i + 1 == |c|
    ensures alloc[c[i]] == if i + 1 < |c| then c[i + 1] else Head(Part(c, i, R, false), c[i])
    ensures SameOutside(a0, DropLink(alloc, c[i], prev, alloc[c[i]], last), c)
    ensures i + 1 < |c| ==>
      Walk(DropLink(alloc, c[i], prev, alloc[c[i]], last), c, i + 1, Part(c, i, R, false), Part(c, i, R, true) + [c[i]])
    ensures i + 1 == |c| ==> Circular(DropLink(alloc, c[i], prev, alloc[c[i]], last), Part(c, i, R, false))
    ensures i + 1 == |c| ==> Links(DropLink(alloc, c[i], prev, alloc[c[i]], last), Part(c, i, R, true) + [c[i]])
  {
    var K, F := Part(c, i, R, false), Part(c, i, R, true);
    PartsApart(c, i, R);
    PartIn(c, i, R);
    CursorRange(alloc, c, i, K, F, prev, last);
    LinksDrop(alloc, c, i, K, F, prev, last);
  }

  /** The lock counts after taking out `b`, whose data block is `d` if it has one. */
  function DropLock(locks: seq<nat>, d: nat): seq<nat>
    requires d != BLOCK_INVALID ==> d < |locks| && locks[d] > 0
  {
    if d == BLOCK_INVALID then locks else locks[d := locks[d] - 1]
  }

  lemma MarksDropped(s0: Seg, s: Seg, s': Seg, t: nat, c: seq<nat>, i: nat, K: seq<nat>, F: seq<nat>)
    requires Shaped(s0, t) && Pass(s0, s, t, c, i, K, F) && ChainOk(s0, t, c) && DataReady(s0, c)
    requires s.udata[c[i]] != BLOCK_INVALID ==> s.udata[c[i]] < |s.locks| && s.locks[s.udata[c[i]]] > 0
    requires s' == s.(locks := DropLock(s.locks, s.udata[c[i]]), udata := s.udata[c[i] := BLOCK_INVALID],
                      btype := s.btype[c[i] := TYPE_INVALID], alloc := s'.alloc, tail := s'.tail, hint := s'.hint)
    ensures Marked(s0, s', F + [c[i]])
  {
    PassTest(s0, s, t, c, i, K, F);
    MarkedNext(s0, s, s', F, c[i]);
  }

  /** The hint steps from a block that is taken out to the next one, the tail back to the one before. */
  function Moved(ends: seq<nat>, t: nat, b: nat, to: nat): seq<nat>
    requires t < |ends|
  {
    if ends[t] == b then ends[t := to] else ends
  }

  /** What the code does to take block `b` out of its chain. */
  function Unlinked(s: Seg, t: nat, b: nat, prev: nat, next: nat, last: nat): Seg
    requires |s.btype| == |s.alloc| == |s.udata| == |s.locks| && t < |s.tail| == |s.hint| && b < |s.alloc|
      && prev < |s.alloc|
    requires s.udata[b] != BLOCK_INVALID ==> s.udata[b] < |s.locks| && s.locks[s.udata[b]] > 0
    requires last != BLOCK_INVALID ==> last < |s.alloc|
  {
    Seg(DropLink(s.alloc, b, prev, next, last), s.mask, s.btype[b := TYPE_INVALID], s.udata[b := BLOCK_INVALID],
        DropLock(s.locks, s.udata[b]),
        if prev == b then s.tail[t := BLOCK_INVALID] else Moved(s.tail, t, b, prev),
        if prev == b then s.hint[t := BLOCK_INVALID] else Moved(s.hint, t, b, next),
        s.count, s.free, s.empty, s.commit, s.decommit)
  }

  /** Taking out `c[i]` while there are blocks ahead. */
  lemma PassDropOn(s0: Seg, s: Seg, s': Seg, t: nat, c: seq<nat>, i: nat, K: seq<nat>, F: seq<nat>, prev: nat,
      last: nat)
    requires Shaped(s0, t) && i + 1 < |c| && Distinct(c) && c[i] in Removable(s0) && s0.tail[t] == c[|c| - 1]
    requires K == Part(c, i, Removable(s0), false) && F == Part(c, i, Removable(s0), true)
    requires SameOutside(s0.alloc, s.alloc, c) && Cursor(s.alloc, c, i, K, F, prev, last)
    requires c[i] < |s.alloc| && prev < |s.alloc| && (last != BLOCK_INVALID ==> last < |s.alloc|)
    requires HintAt(s0, s, t, c[i..], K, Removable(s0)) && Marked(s0, s', F + [c[i]]) && prev != c[i]
    requires s'.count == s0.count && s'.free == s0.free
    requires s'.alloc == DropLink(s.alloc, c[i], prev, s.alloc[c[i]], last)
    requires s'.tail == Moved(s0.tail, t, c[i], prev) && s'.hint == Moved(s.hint, t, c[i], s.alloc[c[i]])
    ensures Pass(s0, s', t, c, i + 1, K, F + [c[i]])
  {
    LinksDropped(s0.alloc, s.alloc, c, i, Removable(s0), prev, last);
    HintDrop(s0, s, t, c, i, K, s.alloc[c[i]], Removable(s0));
  }

  lemma HintDrop(s0: Seg, s: Seg, t: nat, c: seq<nat>, i: nat, K: seq<nat>, next: nat, R: set<nat>)
    requires i < |c| && t < |s0.hint| && HintAt(s0, s, t, c[i..], K, R) && c[i] in R
    requires next in c[i + 1..] || next in K
    ensures HintAt(s0, s.(hint := Moved(s.hint, t, c[i], next)), t, c[i + 1..], K, R)
  {
    assert c[i..] == [c[i]] + c[i + 1..];
  }

  /** Taking out the last block of the chain. */
  lemma PassDropLast(s0: Seg, s: Seg, s': Seg, t: nat, c: seq<nat>, i: nat, K: seq<nat>, F: seq<nat>, prev: nat,
      last: nat)
    requires Shaped(s0, t) && i + 1 == |c| && Distinct(c) && c[i] in Removable(s0) && s0.tail[t] == c[|c| - 1]
    requires K == Part(c, i, Removable(s0), false) && F == Part(c, i, Removable(s0), true)
    requires SameOutside(s0.alloc, s.alloc, c) && Cursor(s.alloc, c, i, K, F, prev, last)
    requires c[i] < |s.alloc| && prev < |s.alloc| && (last != BLOCK_INVALID ==> last < |s.alloc|)
    requires HintAt(s0, s, t, c[i..], K, Removable(s0)) && Marked(s0, s', F + [c[i]])
    requires s'.count == s0.count && s'.free == s0.free
    requires s'.alloc == DropLink(s.alloc, c[i], prev, s.alloc[c[i]], last)
    requires s'.tail == if prev == c[i] then s0.tail[t := BLOCK_INVALID] else Moved(s0.tail, t, c[i], prev)
    requires s'.hint == if prev == c[i] then s.hint[t := BLOCK_INVALID] else Moved(s.hint, t, c[i], s.alloc[c[i]])
    ensures Passed(s0, s', t, c, K, F + [c[i]])
  {
    LinksDropped(s0.alloc, s.alloc, c, i, Removable(s0), prev, last);
    if K != [] {
      HintDrop(s0, s, t, c, i, K, s.alloc[c[i]], Removable(s0));
      HintDone(s0, s', t, c, K);
    }
  }

  /** Putting the freed blocks in front of the free list and booking them completes the pass. */
  lemma PassedSwept(s0: Seg, s: Seg, s': Seg, t: nat, c: seq<nat>, K: seq<nat>, F: seq<nat>)
    requires Shaped(s0, t) && Passed(s0, s, t, c, K, F) && Distinct(c) && F != [] && F[|F| - 1] < |s.alloc|
    requires s'.alloc == s.alloc[F[|F| - 1] := s.free] && s'.free == F[0]
    requires s'.count == s.count[t := s.count[t] - |F| * HANDLES_PER_BLOCK]
    requires Marked(s0, s', F) && s'.tail == s.tail && s'.hint == s.hint
    ensures Swept(s0, s', t, c)
  {
    FreedLinked(s0.alloc, s.alloc, c, Removable(s0), s.free);
  }

  lemma NothingSwept(s0: Seg, s: Seg, t: nat, c: seq<nat>, K: seq<nat>)
    requires Shaped(s0, t) && Passed(s0, s, t, c, K, [])
    ensures Swept(s0, s, t, c)
  {
    assert s0.count == s0.count[t := s0.count[t]];
  }

  lemma FreedLinked(a0: seq<nat>, alloc: seq<nat>, c: seq<nat>, R: set<nat>, head: nat)
    requires Distinct(c) && SameOutside(a0, alloc, c)
    requires Circular(alloc, Part(c, |c|, R, false)) && Links(alloc, Part(c, |c|, R, true))
      && Part(c, |c|, R, true) != []
    ensures var K, F := Part(c, |c|, R, false), Part(c, |c|, R, true);
      var a := alloc[F[|F| - 1] := head];
      SameOutside(a0, a, c) && Circular(a, K) && Linear(a, F, head)
  {
    PartsApart(c, |c|, R);
    PartIn(c, |c|, R);
  }

  lemma PassedNothing(s: Seg, t: nat, c: seq<nat>)
    requires Shaped(s, t) && ChainOk(s, t, c)
    ensures s.tail[t] == BLOCK_INVALID <==> c == []
    ensures c == [] ==> Swept(s, s, t, c)
  {
    assert forall k | 0 <= k < |c| :: c[k] < |s.alloc|;
    assert Cleared(s.btype, []) == s.btype && Cleared(s.udata, []) == s.udata;
    assert DataOf(s.udata, []) == {};
    assert Lowered(s.locks, {}) == s.locks;
    assert s.count == s.count[t := s.count[t]];
  }

  lemma SweepDone(s0: Seg, s: Seg, t: nat, c: seq<nat>, K: seq<nat>, F: seq<nat>)
    requires Shaped(s0, t) && Passed(s0, s, t, c, K, F) && ChainOk(s0, t, c)
    ensures F == Part(c, |c|, Removable(s0), true) && t < |s.count|
    ensures F == [] ==> Swept(s0, s, t, c)
    ensures F != [] ==> F[|F| - 1] < |s.alloc|
    ensures F != [] ==>
      Swept(s0, Seg(s.alloc[F[|F| - 1] := s.free], s.mask, s.btype, s.udata, s.locks, s.tail, s.hint,
                    s.count[t := s.count[t] - |F| * HANDLES_PER_BLOCK], F[0], s.empty, s.commit, s.decommit), t, c)
  {
    hide Swept, Cleared, Lowered, DataOf, Circular;
    if F == [] {
      NothingSwept(s0, s, t, c, K);
    } else {
      assert Links(s.alloc, F);
      var s' := Seg(s.alloc[F[|F| - 1] := s.free], s.mask, s.btype, s.udata, s.locks, s.tail, s.hint,
                    s.count[t := s.count[t] - |F| * HANDLES_PER_BLOCK], F[0], s.empty, s.commit, s.decommit);
      PassedSwept(s0, s, s', t, c, K, F);
    }
  }

  function Last(c: seq<nat>, none: nat): nat {
    if c == [] then none else c[|c| - 1]
  }

  /** Empty, but locked: to be looked at again later. */
  ghost predicate Held(s: Seg, b: nat) {
    b < |s.locks| && 2 * b + 1 < |s.mask| && EmptyBlock(s.mask, b) && s.locks[b] != 0
  }

  /** Some of the first `i` blocks of the chain is empty but locked. */
  ghost predicate Stuck(s: Seg, c: seq<nat>, i: nat)
    requires i <= |c|
  {
    i > 0 && (Stuck(s, c, i - 1) || Held(s, c[i - 1]))
  }

  /** The pass is back at its start exactly when the whole chain has been seen. */
  lemma CursorNext(s0: Seg, s: Seg, t: nat, c: seq<nat>, i: nat, K: seq<nat>, F: seq<nat>)
    requires Shaped(s0, t) && Pass(s0, s, t, c, i, K, F) && ChainOk(s0, t, c)
    ensures i < |c| && Cursor(s.alloc, c, i, K, F, Last(K, c[|c| - 1]), Last(F, BLOCK_INVALID))
    ensures c[i] < |s.alloc| && Last(K, c[|c| - 1]) < |s.alloc|
    ensures F != [] ==> Last(F, BLOCK_INVALID) < |s.alloc| <= 240
    ensures Last(K, c[|c| - 1]) == c[i] <==> K == [] && i + 1 == |c|
    ensures s.alloc[c[i]] == Head(K, c[i]) <==> i + 1 == |c|
    ensures i + 1 < |c| ==> s.alloc[c[i]] == c[i + 1]
    ensures Head(K, c[i]) != Last(F, BLOCK_INVALID) && (K != [] ==> K[0] != c[i])
  {
    PartsApart(c, i, Removable(s0));
    CursorRange(s.alloc, c, i, K, F, Last(K, c[|c| - 1]), Last(F, BLOCK_INVALID));
  }

  lemma Kept(s0: Seg, s: Seg, t: nat, c: seq<nat>, i: nat, K: seq<nat>, F: seq<nat>)
    requires Shaped(s0, t) && Pass(s0, s, t, c, i, K, F) && Ends(c, s0.tail[t], s0.hint[t]) && c[i] !in Removable(s0)
    ensures i + 1 < |c| ==> Pass(s0, s, t, c, i + 1, K + [c[i]], F)
    ensures i + 1 == |c| ==> Passed(s0, s, t, c, K + [c[i]], F)
  {
    if i + 1 < |c| { PassKeepOn(s0, s, t, c, i, K, F); } else { PassKeepLast(s0, s, t, c, i, K, F); }
  }

  lemma Dropped(s0: Seg, s: Seg, s': Seg, t: nat, c: seq<nat>, i: nat, K: seq<nat>, F: seq<nat>, prev: nat, last: nat)
    requires Shaped(s0, t) && ChainOk(s0, t, c) && DataReady(s0, c) && Pass(s0, s, t, c, i, K, F)
    requires c[i] in Removable(s0) && Cursor(s.alloc, c, i, K, F, prev, last)
    requires c[i] < |s.alloc| && prev < |s.alloc| && (last != BLOCK_INVALID ==> last < |s.alloc|)
    requires prev == c[i] <==> K == [] && i + 1 == |c|
    requires s.udata[c[i]] != BLOCK_INVALID ==> s.udata[c[i]] < |s.locks| && s.locks[s.udata[c[i]]] > 0
    requires s' == Unlinked(s, t, c[i], prev, s.alloc[c[i]], last)
    ensures i + 1 < |c| ==> Pass(s0, s', t, c, i + 1, K, F + [c[i]])
    ensures i + 1 == |c| ==> Passed(s0, s', t, c, K, F + [c[i]])
  {
    MarksDropped(s0, s, s', t, c, i, K, F);
    if i + 1 < |c| {
      PassDropOn(s0, s, s', t, c, i, K, F, prev, last);
    } else {
      PassDropLast(s0, s, s', t, c, i, K, F, prev, last);
    }
  }
}
