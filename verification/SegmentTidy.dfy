/** What a release leaves behind: empty blocks that nothing holds. */
module SegmentTidy {
  import opened FreeMask
  import opened SegmentModel
  import opened SegmentSweep
  import opened SegmentKeeps
  import opened SegmentHandles

  /** The handles of every mask follow each other. */
  ghost predicate Grouped(hs: seq<int>) {
    forall i, j, k | 0 <= i < j < k < |hs| && hs[i] / 32 == hs[k] / 32 :: hs[j] / 32 == hs[i] / 32
  }

  /** A block of type `t` that holds no handle and is not locked, so it could be free. */
  ghost predicate Idle(s: Seg, t: nat, b: nat) {
    b < |s.btype| && b < |s.locks| && 2 * b + 1 < |s.mask| && s.btype[b] == t && EmptyBlock(s.mask, b)
        && s.locks[b] == 0
  }

  /** Every block of type `t` that is idle was so before. */
  ghost predicate KeptTidy(s0: Seg, s1: Seg, t: nat) {
    forall b: nat | Idle(s1, t, b) :: Idle(s0, t, b)
  }

  lemma KeptTidyMore(s0: Seg, s1: Seg, s2: Seg, t: nat)
    requires KeptTidy(s0, s1, t) && KeptTidy(s1, s2, t)
    ensures KeptTidy(s0, s2, t)
  {
  }

  // ---------------------------------------------------------------- the test for a scan

  /** Every handle of mask `w` is free in `m` or among `gone`. */
  ghost predicate MaskGone(m: seq<Word>, gone: seq<int>, w: int) {
    forall g: nat | g < 32 * |m| && g / 32 == w :: FreeAt(m, g) || g in gone
  }

  /** Every handle of block `b` is free in `m` or among `gone`. */
  ghost predicate BlockGone(m: seq<Word>, gone: seq<int>, b: int) {
    forall g: nat | g < 32 * |m| && g / 64 == b :: FreeAt(m, g) || g in gone
  }

  /** The `k`th handle is the last one of a run of handles of one mask. */
  predicate RunEnds(v: seq<int>, k: nat)
    requires k < |v|
  {
    k + 1 == |v| || v[k + 1] / 32 != v[k] / 32
  }

  /** Every run of handles of one mask leaves that mask without handles, when `before` were freed earlier. */
  ghost predicate RunsEmpty(m: seq<Word>, before: seq<int>, v: seq<int>) {
    forall k: nat | k < |v| && RunEnds(v, k) :: MaskGone(m, before + v[..k + 1], v[k] / 32)
  }

  /** The handles from `i` to below `j` are a run of handles of one block that cannot be extended. */
  predicate BlockRun(v: seq<int>, i: nat, j: nat) {
    && i < j <= |v| && (forall k | i <= k < j :: v[k] / 64 == v[i] / 64)
    && (i > 0 ==> v[i - 1] / 64 != v[i] / 64) && (j < |v| ==> v[j] / 64 != v[i] / 64)
  }

  /** The run of block handles from `i` to below `j` asks for a scan. */
  ghost predicate AsksAt(m: seq<Word>, locks: seq<nat>, before: seq<int>, v: seq<int>, i: nat, j: nat) {
    && BlockRun(v, i, j) && 0 <= v[i] && v[i] / 64 < |locks| && locks[v[i] / 64] == 0
    && RunsEmpty(m, before + v[..i], v[i..j])
  }

  /** Freeing the handles `v` of a segment, after `before`, asks for a scan: in some run of handles of one block that is
      not locked, every run of handles of one mask leaves the mask without handles. */
  ghost predicate Asks(m: seq<Word>, locks: seq<nat>, before: seq<int>, v: seq<int>) {
    exists i: nat, j: nat :: AsksAt(m, locks, before, v, i, j)
  }

  lemma RunsNone(m: seq<Word>, before: seq<int>)
    ensures RunsEmpty(m, before, [])
  {
  }

  /** One more run of handles of one mask. */
  lemma RunsMore(m: seq<Word>, before: seq<int>, p: seq<int>, q: seq<int>, w: int)
    requires q != [] && (forall k | 0 <= k < |q| :: q[k] / 32 == w) && (p != [] ==> p[|p| - 1] / 32 != w)
    ensures RunsEmpty(m, before, p + q) <==> RunsEmpty(m, before, p) && MaskGone(m, before + (p + q), w)
  {
    var v := p + q;
    forall k: nat | k < |v| ensures RunEnds(v, k) <==> k + 1 == |v| || (k < |p| && RunEnds(p, k)) {}
    assert forall k: nat {:trigger p[k]} | k < |p| :: v[..k + 1] == p[..k + 1];
    assert v[..|v|] == v;
    if RunsEmpty(m, before, v) {
      assert RunEnds(v, |v| - 1);
      forall k: nat | k < |p| && RunEnds(p, k) ensures MaskGone(m, before + p[..k + 1],
          p[k] / 32) { assert RunEnds(v, k); }
    }
  }

  /** The masks after `p` was freed show a mask empty exactly if all its handles are gone. */
  lemma MaskGoneNow(m0: seq<Word>, m1: seq<Word>, p: seq<int>, w: nat)
    requires Gave(m0, m1, p) && w < |m0|
    ensures m1[w] == MASK_EMPTY <==> MaskGone(m0, p, w)
  {
    if MaskGone(m0, p, w) {
      forall i | 0 <= i < 32 ensures m1[w][i] { assert FreeAt(m1, 32 * w + i); }
    } else {
      var g: nat :| g < 32 * |m0| && g / 32 == w && !FreeAt(m0, g) && g !in p;
      assert !FreeAt(m1, g);
    }
  }

  lemma BlockGoneNow(m0: seq<Word>, m1: seq<Word>, p: seq<int>, b: nat)
    requires Gave(m0, m1, p) && 2 * b + 1 < |m0|
    ensures EmptyBlock(m1, b) <==> BlockGone(m0, p, b)
  {
    MaskGoneNow(m0, m1, p, 2 * b);
    MaskGoneNow(m0, m1, p, 2 * b + 1);
    if MaskGone(m0, p, 2 * b) && MaskGone(m0, p, 2 * b + 1) {
      forall g: nat | g < 32 * |m0| && g / 64 == b ensures FreeAt(m0, g)
          || g in p { assert g / 32 == 2 * b || g / 32 == 2 * b + 1; }
    }
  }

  /** What was freed earlier can be read off the masks. */
  lemma MaskGoneLater(m0: seq<Word>, m1: seq<Word>, p: seq<int>, q: seq<int>, w: int)
    requires Gave(m0, m1, p)
    ensures MaskGone(m1, q, w) <==> MaskGone(m0, p + q, w)
  {
    if MaskGone(m1, q, w) {
      forall g: nat | g < 32 * |m0| && g / 32 == w ensures FreeAt(m0, g)
          || g in p + q { assert FreeAt(m1, g) || g in q; }
    }
    if MaskGone(m0, p + q, w) {
      forall g: nat | g < 32 * |m1| && g / 32 == w ensures FreeAt(m1, g)
          || g in q { assert FreeAt(m0, g) || g in p + q; }
    }
  }

  lemma BlockGoneLater(m0: seq<Word>, m1: seq<Word>, p: seq<int>, q: seq<int>, b: int)
    requires Gave(m0, m1, p)
    ensures BlockGone(m1, q, b) <==> BlockGone(m0, p + q, b)
  {
    if BlockGone(m1, q, b) {
      forall g: nat | g < 32 * |m0| && g / 64 == b ensures FreeAt(m0, g)
          || g in p + q { assert FreeAt(m1, g) || g in q; }
    }
    if BlockGone(m0, p + q, b) {
      forall g: nat | g < 32 * |m1| && g / 64 == b ensures FreeAt(m1, g)
          || g in q { assert FreeAt(m0, g) || g in p + q; }
    }
  }

  lemma RunsLater(m0: seq<Word>, m1: seq<Word>, p: seq<int>, before: seq<int>, v: seq<int>)
    requires Gave(m0, m1, p)
    ensures RunsEmpty(m1, before, v) <==> RunsEmpty(m0, p + before, v)
  {
    hide MaskGone, Gave;
    forall k: nat | k < |v| ensures MaskGone(m1, before + v[..k + 1], v[k] / 32) <==>
        MaskGone(m0, p + before + v[..k + 1], v[k] / 32) {
      MaskGoneLater(m0, m1, p, before + v[..k + 1], v[k] / 32);
      assert p + (before + v[..k + 1]) == p + before + v[..k + 1];
    }
  }

  lemma AsksNone(m: seq<Word>, locks: seq<nat>, before: seq<int>)
    ensures !Asks(m, locks, before, [])
  {
  }

  /** One more run of handles of one block. */
  lemma AsksMore(m: seq<Word>, locks: seq<nat>, before: seq<int>, p: seq<int>, q: seq<int>, b: nat)
    requires q != [] && (forall k | 0 <= k < |q| :: q[k] / 64 == b) && (p != [] ==> p[|p| - 1] / 64 != b) && b < |locks|
    ensures Asks(m, locks, before, p + q) <==>
      Asks(m, locks, before, p) || (locks[b] == 0 && RunsEmpty(m, before + p, q))
  {
    hide RunsEmpty;
    var v := p + q;
    assert q[0] / 64 == b && v[|p|] == q[0];
    assert v[..|p|] == p && v[|p|..|v|] == q;
    assert BlockRun(v, |p|, |v|);
    if Asks(m, locks, before, v) {
      var i: nat, j: nat :| AsksAt(m, locks, before, v, i, j);
      if j <= |p| {
        assert v[..i] == p[..i] && v[i..j] == p[i..j] && v[i] == p[i];
        assert BlockRun(p, i, j) by { if j < |p| { assert v[j] == p[j]; } }
        assert AsksAt(m, locks, before, p, i, j);
      } else {
        SameRun(v, i, j, |p|, |v|);
      }
    }
    if Asks(m, locks, before, p) {
      var i: nat, j: nat :| AsksAt(m, locks, before, p, i, j);
      assert v[..i] == p[..i] && v[i..j] == p[i..j] && v[i] == p[i];
      assert BlockRun(v, i, j) by { if j == |p| { assert p[j - 1] / 64 == p[i] / 64; } }
      assert AsksAt(m, locks, before, v, i, j);
    }
    if locks[b] == 0 && RunsEmpty(m, before + p, q) { assert AsksAt(m, locks, before, v, |p|, |v|); }
  }

  /** Two runs that share a handle are one. */
  lemma SameRun(v: seq<int>, i: nat, j: nat, i': nat, j': nat)
    requires BlockRun(v, i, j) && BlockRun(v, i', j') && i' < j && j <= j'
    ensures i == i' && j == j'
  {
  }

  /** The test reads only the masks and the locks of the blocks whose handles are freed. */
  lemma AsksLater(m0: seq<Word>, m1: seq<Word>, locks0: seq<nat>, locks1: seq<nat>, p: seq<int>, before: seq<int>,
      v: seq<int>)
    requires Gave(m0, m1, p) && |locks1| == |locks0|
    requires forall k | 0 <= k < |v| && 0 <= v[k] / 64 < |locks0| :: locks1[v[k] / 64] == locks0[v[k] / 64]
    ensures Asks(m1, locks1, before, v) <==> Asks(m0, locks0, p + before, v)
  {
    hide RunsEmpty, Gave;
    forall i: nat, j: nat ensures AsksAt(m1, locks1, before, v, i, j) <==> AsksAt(m0, locks0, p + before, v, i, j) {
      if BlockRun(v, i, j) {
        RunsLater(m0, m1, p, before + v[..i], v[i..j]);
        assert p + (before + v[..i]) == p + before + v[..i];
      }
    }
  }

  /** Where a run of handles from `lo` to below `hi` begins and ends. */
  lemma CutAt(hs: seq<int>, i: nat, n: nat, lo: int, hi: int)
    requires 0 < n && i + n <= |hs| && PrefixInside(hs[i..], n, lo, hi)
    ensures var p, q := hs[..i], hs[i..][..n];
      && hs[..i + n] == p + q && (i > 0 ==> p[i - 1] == hs[i - 1]) && lo <= hs[i] < hi
      && (forall k | 0 <= k < |q| :: lo <= q[k] < hi) && lo <= hs[i + n - 1] < hi && (i + n < |hs| ==>
          !(lo <= hs[i + n] < hi))
  {
    var q := hs[i..][..n];
    assert q[0] == hs[i] && q[n - 1] == hs[i + n - 1];
    assert i + n < |hs| ==> hs[i..][n] == hs[i + n];
  }

  /** A step of the loop over the masks of a block, and where the next run begins. */
  lemma NextMask(m0: seq<Word>, m2: seq<Word>, hs: seq<int>, i: nat, n: nat, w: nat)
    requires 0 < n && i + n <= |hs| && w < |m0| && Gave(m0, m2, hs[..i + n])
      && PrefixInside(hs[i..], n, 32 * w, 32 * w + 32)
    requires i > 0 ==> hs[i - 1] / 32 != hs[i] / 32
    ensures RunsEmpty(m0, [], hs[..i + n]) <==> RunsEmpty(m0, [], hs[..i]) && m2[w] == MASK_EMPTY
    ensures i + n < |hs| ==> hs[i + n - 1] / 32 != hs[i + n] / 32
  {
    hide RunsEmpty, Gave, MaskGone;
    var p, q := hs[..i], hs[i..][..n];
    CutAt(hs, i, n, 32 * w, 32 * w + 32);
    hide PrefixInside;
    assert [] + (p + q) == p + q;
    RunsMore(m0, [], p, q, w);
    MaskGoneNow(m0, m2, hs[..i + n], w);
  }

  /** A step of the loop over the blocks of a segment, and where the next run begins. */
  lemma NextBlock(m0: seq<Word>, m1: seq<Word>, locks: seq<nat>, hs: seq<int>, i: nat, n: nat, b: nat)
    requires 0 < n && i + n <= |hs| && b < |locks| && Gave(m0, m1, hs[..i])
      && PrefixInside(hs[i..], n, 64 * b, 64 * b + 64)
    requires i > 0 ==> hs[i - 1] / 64 != hs[i] / 64
    ensures Asks(m0, locks, [], hs[..i + n]) <==>
      Asks(m0, locks, [], hs[..i]) || (locks[b] == 0 && RunsEmpty(m1, [], hs[i..][..n]))
    ensures i + n < |hs| ==> hs[i + n - 1] / 64 != hs[i + n] / 64
  {
    hide RunsEmpty, Gave, Asks;
    var p, q := hs[..i], hs[i..][..n];
    CutAt(hs, i, n, 64 * b, 64 * b + 64);
    hide PrefixInside;
    assert [] + p == p && p + [] == p;
    AsksMore(m0, locks, [], p, q, b);
    RunsLater(m0, m1, p, [], q);
  }

  // ---------------------------------------------------------------- visits

  /** The handles of several visits to a segment, one after the other. */
  function Flat(vs: seq<seq<int>>): seq<int> {
    if vs == [] then [] else Flat(vs[..|vs| - 1]) + vs[|vs| - 1]
  }

  /** A visit that frees the handles `vs[r]`, after the visits before it, asks for a scan. */
  ghost predicate AsksIn(m: seq<Word>, locks: seq<nat>, vs: seq<seq<int>>, r: nat) {
    r < |vs| && Asks(m, locks, Flat(vs[..r]), vs[r])
  }

  /** Block `b` is not locked, and at the end of some visit that asks for a scan it holds no handle any more. */
  ghost predicate SweptAway(m: seq<Word>, locks: seq<nat>, vs: seq<seq<int>>, b: nat) {
    b < |locks| && locks[b] == 0 && exists r: nat :: AsksIn(m, locks, vs, r) && BlockGone(m, Flat(vs[..r + 1]), b)
  }

  /** What the visits `vs`, which free handles of type `t`, make of the segment `s0`: the handles are free, exactly the
      blocks that are swept away have left the type, and blocks of handles keep their locks. */
  ghost predicate Released(s0: Seg, s1: Seg, t: nat, vs: seq<seq<int>>) {
    && |s0.mask| == 2 * |s0.btype| && |s0.locks| == |s0.btype| == |s1.btype| == |s1.locks|
        && Gave(s0.mask, s1.mask, Flat(vs))
    && (forall b | 0 <= b < |s0.btype| && s0.btype[b] == t ::
          s1.btype[b] == if SweptAway(s0.mask, s0.locks, vs, b) then TYPE_INVALID else t)
    && (forall b | 0 <= b < |s0.btype| && s0.btype[b] != t ::
          s1.btype[b] == s0.btype[b] || (s0.btype[b] == DATABLOCK && s1.btype[b] == TYPE_INVALID))
    && (forall b | 0 <= b < |s0.btype| && s1.btype[b] < MAX_PUBLIC_TYPES :: s1.locks[b] == s0.locks[b])
  }

  lemma ReleasedNone(s: Seg, t: nat)
    requires |s.mask| == 2 * |s.btype| && |s.locks| == |s.btype|
    ensures Released(s, s, t, [])
  {
  }

  lemma FlatMore(vs: seq<seq<int>>, v: seq<int>)
    ensures Flat(vs + [v]) == Flat(vs) + v
  {
    assert (vs + [v])[..|vs|] == vs;
  }

  /** Visits to a segment after others. */
  lemma {:induction false} FlatBoth(vs: seq<seq<int>>, ws: seq<seq<int>>)
    ensures Flat(vs + ws) == Flat(vs) + Flat(ws)
    decreases |ws|
  {
    if ws == [] {
      assert vs + ws == vs;
    } else {
      var us, w := ws[..|ws| - 1], ws[|ws| - 1];
      FlatBoth(vs, us);
      assert vs + ws == vs + us + [w];
      FlatMore(vs + us, w);
      assert Flat(vs) + Flat(us) + w == Flat(vs) + (Flat(us) + w);
    }
  }

  /** A visit by itself. */
  lemma SweptAwayOne(m: seq<Word>, locks: seq<nat>, v: seq<int>, b: nat)
    requires b < |locks|
    ensures SweptAway(m, locks, [v], b) <==> locks[b] == 0 && Asks(m, locks, [], v) && BlockGone(m, v, b)
  {
    hide Asks, BlockGone;
    FlatOne(v);
    var vs := [v];
    assert vs[..0] == [] && vs[..1] == vs;
    if locks[b] == 0 && Asks(m, locks, [], v) && BlockGone(m, v, b) { assert AsksIn(m, locks, vs, 0); }
  }

  lemma GaveBoth(m0: seq<Word>, m1: seq<Word>, m2: seq<Word>, p: seq<int>, q: seq<int>)
    requires Gave(m0, m1, p) && Gave(m1, m2, q)
    ensures Gave(m0, m2, p + q)
  {
  }

  /** Some block of type `t` holds no handle after `v` was freed, but is locked. */
  ghost predicate HeldBack(s: Seg, t: nat, v: seq<int>) {
    exists b: nat :: HeldAt(s, t, v, b)
  }

  ghost predicate HeldAt(s: Seg, t: nat, v: seq<int>, b: nat) {
    b < |s.btype| && b < |s.locks| && s.btype[b] == t && s.locks[b] != 0 && BlockGone(s.mask, v, b)
  }

  /** The handles of the visits lie in blocks of type `t`. */
  ghost predicate TypedIn(s: Seg, t: nat, vs: seq<seq<int>>) {
    forall r, k | 0 <= r < |vs| && 0 <= k < |vs[r]| :: 0 <= vs[r][k] / 64 < |s.btype| && s.btype[vs[r][k] / 64] == t
  }

  /** What later visits `ws` do is the same whether they are taken by themselves or together with the earlier ones. */
  lemma AsksTogether(s0: Seg, s1: Seg, t: nat, vs: seq<seq<int>>, ws: seq<seq<int>>, r: nat)
    requires Released(s0, s1, t, vs) && t < MAX_PUBLIC_TYPES && TypedIn(s1, t, ws)
    ensures AsksIn(s1.mask, s1.locks, ws, r) <==> AsksIn(s0.mask, s0.locks, vs + ws, |vs| + r)
    ensures r <= |ws| ==> Flat((vs + ws)[..|vs| + r]) == Flat(vs) + Flat(ws[..r])
  {
    hide SweptAway, Gave, Asks, BlockGone, Flat;
    if r <= |ws| {
      assert (vs + ws)[..|vs| + r] == vs + ws[..r];
      FlatBoth(vs, ws[..r]);
    }
    if r < |ws| {
      assert (vs + ws)[|vs| + r] == ws[r];
      AsksLater(s0.mask, s1.mask, s0.locks, s1.locks, Flat(vs), Flat(ws[..r]), ws[r]);
    }
  }

  lemma SweptEarlier(m: seq<Word>, locks: seq<nat>, vs: seq<seq<int>>, ws: seq<seq<int>>, r: nat)
    requires r < |vs|
    ensures AsksIn(m, locks, vs, r) <==> AsksIn(m, locks, vs + ws, r)
    ensures Flat((vs + ws)[..r + 1]) == Flat(vs[..r + 1])
  {
    assert (vs + ws)[..r] == vs[..r] && (vs + ws)[..r + 1] == vs[..r + 1];
  }

  lemma SweptAwayFirst(m: seq<Word>, locks: seq<nat>, vs: seq<seq<int>>, ws: seq<seq<int>>, b: nat)
    ensures SweptAway(m, locks, vs, b) ==> SweptAway(m, locks, vs + ws, b)
  {
    hide Asks, BlockGone, Flat;
    if SweptAway(m, locks, vs, b) {
      var r: nat :| AsksIn(m, locks, vs, r) && BlockGone(m, Flat(vs[..r + 1]), b);
      AsksInRange(m, locks, vs, r);
      SweptEarlier(m, locks, vs, ws, r);
      assert AsksIn(m, locks, vs + ws, r);
    }
  }

  lemma AsksInRange(m: seq<Word>, locks: seq<nat>, vs: seq<seq<int>>, r: nat)
    requires AsksIn(m, locks, vs, r)
    ensures r < |vs|
  {
  }

  /** A block that earlier visits left in place is swept away exactly if the later ones do it. */
  lemma SweptAwayBoth(s0: Seg, s1: Seg, t: nat, vs: seq<seq<int>>, ws: seq<seq<int>>, b: nat)
    requires Released(s0, s1, t, vs) && t < MAX_PUBLIC_TYPES && TypedIn(s1, t, ws) && b < |s0.btype|
      && s0.btype[b] == t == s1.btype[b]
    ensures SweptAway(s0.mask, s0.locks, vs + ws, b) <==> SweptAway(s1.mask, s1.locks, ws, b)
  {
    assert !SweptAway(s0.mask, s0.locks, vs, b) && s1.locks[b] == s0.locks[b] && Gave(s0.mask, s1.mask, Flat(vs));
    hide Asks, BlockGone, Flat, AsksIn, TypedIn, Gave;
    if SweptAway(s0.mask, s0.locks, vs + ws, b) {
      var r: nat :| AsksIn(s0.mask, s0.locks, vs + ws, r) && BlockGone(s0.mask, Flat((vs + ws)[..r + 1]), b);
      AsksInRange(s0.mask, s0.locks, vs + ws, r);
      if r < |vs| {
        SweptEarlier(s0.mask, s0.locks, vs, ws, r);
      } else {
        SweptLater(s0, s1, t, vs, ws, r - |vs|, b);
      }
    }
    if SweptAway(s1.mask, s1.locks, ws, b) {
      var r: nat :| AsksIn(s1.mask, s1.locks, ws, r) && BlockGone(s1.mask, Flat(ws[..r + 1]), b);
      AsksInRange(s1.mask, s1.locks, ws, r);
      SweptLater(s0, s1, t, vs, ws, r, b);
    }
  }

  lemma SweptLater(s0: Seg, s1: Seg, t: nat, vs: seq<seq<int>>, ws: seq<seq<int>>, r: nat, b: nat)
    requires Released(s0, s1, t, vs) && t < MAX_PUBLIC_TYPES && TypedIn(s1, t, ws) && r < |ws|
    ensures AsksIn(s1.mask, s1.locks, ws, r) <==> AsksIn(s0.mask, s0.locks, vs + ws, |vs| + r)
    ensures BlockGone(s1.mask, Flat(ws[..r + 1]), b) <==> BlockGone(s0.mask, Flat((vs + ws)[..|vs| + r + 1]), b)
  {
    assert Gave(s0.mask, s1.mask, Flat(vs));
    AsksTogether(s0, s1, t, vs, ws, r);
    AsksTogether(s0, s1, t, vs, ws, r + 1);
    hide Gave, BlockGone, Flat, AsksIn, TypedIn;
    BlockGoneLater(s0.mask, s1.mask, Flat(vs), Flat(ws[..r + 1]), b);
  }

  /** Later visits. */
  lemma ReleasedMore(s0: Seg, s1: Seg, s2: Seg, t: nat, vs: seq<seq<int>>, ws: seq<seq<int>>)
    requires Released(s0, s1, t, vs) && Released(s1, s2, t, ws) && t < MAX_PUBLIC_TYPES && TypedIn(s1, t, ws)
    ensures Released(s0, s2, t, vs + ws)
  {
    hide SweptAway, Gave, Asks, BlockGone, Flat, TypedIn;
    FlatBoth(vs, ws);
    GaveBoth(s0.mask, s1.mask, s2.mask, Flat(vs), Flat(ws));
    forall b: nat | b < |s0.btype| && s0.btype[b] == t
      ensures s2.btype[b] == if SweptAway(s0.mask, s0.locks, vs + ws, b) then TYPE_INVALID else t
    {
      SweptAwayFirst(s0.mask, s0.locks, vs, ws, b);
      if s1.btype[b] == t { SweptAwayBoth(s0, s1, t, vs, ws, b); }
    }
  }

  lemma FlatOne(v: seq<int>)
    ensures Flat([v]) == v
  {
    FlatMore([], v);
    assert [] + [v] == [v] && Flat([]) + v == v;
  }

  // ---------------------------------------------------------------- when an emptied block is left behind

  /** Block `b` of type `t` had handles and lost them all, is not locked, and is not swept away. */
  ghost predicate Missed(s: Seg, t: nat, vs: seq<seq<int>>, b: nat) {
    && b < |s.btype| && b < |s.locks| && 2 * b + 1 < |s.mask| && s.btype[b] == t && s.locks[b] == 0
        && !EmptyBlock(s.mask, b)
    && BlockGone(s.mask, Flat(vs), b) && !SweptAway(s.mask, s.locks, vs, b)
  }

  /** A release leaves no idle block behind exactly if it misses none. */
  lemma TidyExactly(s0: Seg, s1: Seg, t: nat, vs: seq<seq<int>>)
    requires Released(s0, s1, t, vs) && t < MAX_PUBLIC_TYPES
    ensures KeptTidy(s0, s1, t) <==> forall b: nat :: !Missed(s0, t, vs, b)
  {
    hide SweptAway, Gave, BlockGone;
    forall b: nat ensures Missed(s0, t, vs, b) <==> Idle(s1, t, b) && !Idle(s0, t, b) {
      if b < |s0.btype| {
        GaveSize(s0.mask, s1.mask, Flat(vs));
        BlockGoneNow(s0.mask, s1.mask, Flat(vs), b);
      }
    }
  }

  lemma GaveSize(m0: seq<Word>, m1: seq<Word>, p: seq<int>)
    requires Gave(m0, m1, p)
    ensures |m1| == |m0|
  {
  }

  lemma FlatSplit(vs: seq<seq<int>>, r: nat)
    requires r <= |vs|
    ensures Flat(vs) == Flat(vs[..r]) + Flat(vs[r..])
  {
    hide Flat;
    assert vs == vs[..r] + vs[r..];
    FlatBoth(vs[..r], vs[r..]);
  }

  /** Some handle of `v` lies in block `b`. */
  ghost predicate Frees(v: seq<int>, b: int) {
    exists k :: 0 <= k < |v| && v[k] / 64 == b
  }

  lemma FreesEither(p: seq<int>, q: seq<int>, b: int)
    ensures Frees(p + q, b) <==> Frees(p, b) || Frees(q, b)
  {
    if Frees(p + q, b) {
      var k :| 0 <= k < |p + q| && (p + q)[k] / 64 == b;
      if k < |p| { assert p[k] / 64 == b; } else { assert q[k - |p|] / 64 == b; }
    }
    if Frees(p, b) { var k :| 0 <= k < |p| && p[k] / 64 == b; assert (p + q)[k] / 64 == b; }
    if Frees(q, b) { var k :| 0 <= k < |q| && q[k] / 64 == b; assert (p + q)[|p| + k] / 64 == b; }
  }

  lemma GroupedPart(hs: seq<int>, i: nat, j: nat)
    requires Grouped(hs) && i <= j <= |hs|
    ensures Grouped(hs[i..j])
  {
  }

  /** The last visit that frees a handle of block `b`. */
  lemma {:induction false} LastVisit(vs: seq<seq<int>>, b: int) returns (r: nat)
    requires Frees(Flat(vs), b)
    ensures r < |vs| && Frees(vs[r], b) && !Frees(Flat(vs[r + 1..]), b)
  {
    assert vs != [];
    var n := |vs| - 1;
    hide Frees;
    FreesEither(Flat(vs[..n]), vs[n], b);
    if Frees(vs[n], b) {
      r := n;
      assert !Frees(Flat(vs[n + 1..]), b) by { FreesNone(b); }
    } else {
      r := LastVisit(vs[..n], b);
      assert vs[r + 1..] == vs[..n][r + 1..] + [vs[n]];
      FlatMore(vs[..n][r + 1..], vs[n]);
      FreesEither(Flat(vs[..n][r + 1..]), vs[n], b);
    }
  }

  lemma FreesNone(b: int)
    ensures !Frees([], b)
  {
  }

  /** The run of handles of one block that holds the `k`th handle. */
  lemma {:induction false} RunBegin(v: seq<int>, k: nat) returns (i: nat)
    requires k < |v|
    ensures i <= k && (forall x | i <= x <= k :: v[x] / 64 == v[k] / 64) && (i > 0 ==> v[i - 1] / 64 != v[k] / 64)
  {
    i := k;
    if k > 0 && v[k - 1] / 64 == v[k] / 64 { i := RunBegin(v, k - 1); }
  }

  lemma {:induction false} RunEnd(v: seq<int>, k: nat) returns (j: nat)
    requires k < |v|
    ensures k < j <= |v| && (forall x | k <= x < j :: v[x] / 64 == v[k] / 64) && (j < |v| ==> v[j] / 64 != v[k] / 64)
    decreases |v| - k
  {
    j := k + 1;
    if j < |v| && v[j] / 64 == v[k] / 64 { j := RunEnd(v, j); }
  }

  lemma RunAround(v: seq<int>, k: nat) returns (i: nat, j: nat)
    requires k < |v|
    ensures BlockRun(v, i, j) && i <= k < j
  {
    i := RunBegin(v, k);
    j := RunEnd(v, k);
  }

  /** In a list grouped by masks, nothing after the end of a run belongs to its mask. */
  lemma GroupedRuns(m: seq<Word>, p: seq<int>, v: seq<int>, q: seq<int>, i: nat, j: nat, b: int)
    requires Grouped(p + v + q) && BlockRun(v, i, j) && v[i] / 64 == b && !Frees(q, b) && BlockGone(m, p + v + q, b)
    ensures RunsEmpty(m, p + v[..i], v[i..j])
  {
    var u, w := p + v + q, v[i..j];
    forall k: nat | k < |w| && RunEnds(w, k) ensures MaskGone(m, p + v[..i] + w[..k + 1], w[k] / 32) {
      assert w[k] == v[i + k] && v[i + k] == u[|p| + i + k];
      assert p + v[..i] + w[..k + 1] == u[..|p| + i + k + 1];
      assert w[k] / 64 == b;
      forall g: nat | g < 32 * |m| && g / 32 == w[k] / 32 ensures FreeAt(m, g) || g in u[..|p| + i + k + 1] {
        assert g / 64 == b;
        if !FreeAt(m, g) {
          var x :| 0 <= x < |u| && u[x] == g;
          GroupedBefore(p, v, q, i, j, k, b, x);
        }
      }
    }
  }

  lemma GroupedBefore(p: seq<int>, v: seq<int>, q: seq<int>, i: nat, j: nat, k: nat, b: int, x: nat)
    requires Grouped(p + v + q) && BlockRun(v, i, j) && v[i] / 64 == b && !Frees(q, b) && k < j - i
      && RunEnds(v[i..j], k)
    requires x < |p + v + q| && (p + v + q)[x] / 32 == v[i + k] / 32
    ensures x < |p| + i + k + 1
  {
    var u, y := p + v + q, |p| + i + k;
    assert v[i..j][k] == v[i + k] && u[y] == v[i + k];
    if i + k + 1 < |v| {
      assert u[y + 1] == v[i + k + 1];
      if i + k + 1 < j { assert v[i..j][k + 1] == v[i + k + 1]; }
      GroupedAfter(u, y, x);
    } else {
      assert u[x] / 64 == b;
    }
  }

  lemma GroupedAfter(u: seq<int>, y: nat, x: nat)
    requires Grouped(u) && y + 1 < |u| && u[y + 1] / 32 != u[y] / 32 && x < |u| && u[x] / 32 == u[y] / 32
    ensures x <= y
  {
  }

  /** Visits whose handles are grouped by masks miss no block. */
  lemma GroupedMissNone(s: Seg, t: nat, vs: seq<seq<int>>, b: nat)
    requires Grouped(Flat(vs))
    ensures !Missed(s, t, vs, b)
  {
    if Missed(s, t, vs, b) {
      NotGone(s.mask, Flat(vs), b);
      var r := LastVisit(vs, b);
      GroupedVisit(s, vs, r, b);
    }
  }

  lemma NotGone(m: seq<Word>, gone: seq<int>, b: nat)
    requires 2 * b + 1 < |m| && !EmptyBlock(m, b) && BlockGone(m, gone, b)
    ensures Frees(gone, b)
  {
    var w := if m[2 * b] != MASK_EMPTY then 2 * b else 2 * b + 1;
    var i :| 0 <= i < 32 && !m[w][i];
    var g := 32 * w + i;
    assert !FreeAt(m, g) && g / 64 == b;
    var k :| 0 <= k < |gone| && gone[k] == g;
  }

  /** The last visit to a block asks for a scan. */
  lemma GroupedVisit(s: Seg, vs: seq<seq<int>>, r: nat, b: nat)
    requires Grouped(Flat(vs)) && r < |vs| && Frees(vs[r], b) && !Frees(Flat(vs[r + 1..]), b)
    requires b < |s.locks| && s.locks[b] == 0 && BlockGone(s.mask, Flat(vs), b)
    ensures SweptAway(s.mask, s.locks, vs, b)
  {
    hide Grouped, Frees, BlockGone;
    FlatAround(vs, r);
    hide Flat;
    var p, v, q := Flat(vs[..r]), vs[r], Flat(vs[r + 1..]);
    GroupedAsks(s.mask, s.locks, p, v, q, b);
    assert AsksIn(s.mask, s.locks, vs, r);
    GoneBefore(s.mask, p + v, q, b);
  }

  lemma TakeOne<T>(s: seq<T>, r: nat)
    requires r < |s|
    ensures s[..r + 1] == s[..r] + [s[r]]
  {
  }

  lemma FlatAround(vs: seq<seq<int>>, r: nat)
    requires r < |vs|
    ensures Flat(vs) == Flat(vs[..r]) + vs[r] + Flat(vs[r + 1..]) && Flat(vs[..r + 1]) == Flat(vs[..r]) + vs[r]
  {
    hide Flat;
    FlatSplit(vs, r + 1);
    TakeOne(vs, r);
    FlatMore(vs[..r], vs[r]);
  }

  lemma GroupedAsks(m: seq<Word>, locks: seq<nat>, p: seq<int>, v: seq<int>, q: seq<int>, b: nat)
    requires Grouped(p + v + q) && Frees(v, b) && !Frees(q, b) && BlockGone(m, p + v + q, b) && b < |locks|
      && locks[b] == 0
    ensures Asks(m, locks, p, v)
  {
    hide Grouped, BlockGone, RunsEmpty;
    var k :| 0 <= k < |v| && v[k] / 64 == b;
    var i, j := RunAround(v, k);
    assert v[k] / 64 == v[i] / 64;
    GroupedRuns(m, p, v, q, i, j, b);
    assert AsksAt(m, locks, p, v, i, j);
  }

  lemma GoneBefore(m: seq<Word>, p: seq<int>, q: seq<int>, b: nat)
    requires BlockGone(m, p + q, b) && !Frees(q, b)
    ensures BlockGone(m, p, b)
  {
    forall g: nat | g < 32 * |m| && g / 64 == b ensures FreeAt(m, g) || g in p {
      assert forall k | 0 <= k < |q| :: q[k] / 64 != b;
      assert FreeAt(m, g) || g in p + q;
    }
  }

  // ---------------------------------------------------------------- one visit

  /** A visit that asks for no scan takes no block away. */
  lemma ReleasedOnly(s0: Seg, s1: Seg, t: nat, v: seq<int>)
    requires |s0.mask| == 2 * |s0.btype| && |s0.locks| == |s0.btype| && Gave(s0.mask, s1.mask, v)
    requires s1.btype == s0.btype && s1.locks == s0.locks && !Asks(s0.mask, s0.locks, [], v)
    ensures Released(s0, s1, t, [v])
  {
    hide SweptAway, Gave, Asks, BlockGone;
    FlatOne(v);
    forall b | 0 <= b < |s0.btype| ensures !SweptAway(s0.mask, s0.locks, [v],
        b) { SweptAwayOne(s0.mask, s0.locks, v, b); }
  }

  /** A visit that asks for a scan takes away the unlocked blocks that hold no handle any more. */
  lemma CleanedReleased(s0: Seg, s: Seg, s1: Seg, t: nat, v: seq<int>)
    requires |s0.mask| == 2 * |s0.btype| && |s0.locks| == |s0.btype| && Gave(s0.mask, s.mask, v)
      && s.btype == s0.btype && s.locks == s0.locks
    requires |s.mask| == 2 * |s.locks| && Cleaned(s, s1, t) && LocksKept(s, s1) && t < MAX_PUBLIC_TYPES
    requires Asks(s0.mask, s0.locks, [], v)
    ensures Released(s0, s1, t, [v])
  {
    hide SweptAway, Gave, Asks, BlockGone;
    FlatOne(v);
    forall b: nat | b < |s0.btype| ensures SweptAway(s0.mask, s0.locks, [v], b) <==> b in Removable(s) {
      SweptAwayOne(s0.mask, s0.locks, v, b);
      BlockGoneNow(s0.mask, s.mask, v, b);
    }
  }

  /** The pass finds an empty block that is locked exactly if there is one. */
  lemma StuckMeans(s0: Seg, s: Seg, c: seq<nat>, t: nat, v: seq<int>)
    requires |s0.mask| == 2 * |s0.btype| && |s0.locks| == |s0.btype| && Gave(s0.mask, s.mask, v)
      && s.btype == s0.btype && s.locks == s0.locks
    requires |s.mask| == 2 * |s.locks| && Lists(s.btype, t, c)
    ensures Stuck(s, c, |c|) <==> HeldBack(s0, t, v)
  {
    hide Gave, BlockGone;
    forall b: nat ensures b in c && Held(s, b) <==> HeldAt(s0, t, v, b) {
      if b < |s.btype| { BlockGoneNow(s0.mask, s.mask, v, b); }
    }
    StuckIn(s, c, |c|);
    if HeldBack(s0, t, v) {
      var b: nat :| HeldAt(s0, t, v, b);
      assert b in c;
      var k :| 0 <= k < |c| && c[k] == b;
    }
    if exists k :: 0 <= k < |c| && Held(s, c[k]) {
      var k :| 0 <= k < |c| && Held(s, c[k]);
      assert c[k] in c && HeldAt(s0, t, v, c[k]);
    }
  }

  lemma {:induction false} StuckIn(s: Seg, c: seq<nat>, n: nat)
    requires n <= |c|
    ensures Stuck(s, c, n) <==> exists k :: 0 <= k < n && Held(s, c[k])
  {
    if n > 0 { StuckIn(s, c, n - 1); }
  }
}
