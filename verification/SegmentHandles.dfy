/** Handles as a plain set: what taking handles from the free masks and giving them back means
    (src/gc/handletablecore.cpp). */
module SegmentHandles {
  import opened FreeMask
  import opened SegmentModel
  import opened SegmentSweep
  import opened SegmentKeeps
  import opened SegmentInsert

  /** Exactly the distinct, free handles `got` were taken. */
  ghost predicate Took(m0: seq<Word>, m1: seq<Word>, got: seq<nat>) {
    && |m1| == |m0| && Distinct(got)
    && (forall k | 0 <= k < |got| :: got[k] < 32 * |m0| && FreeAt(m0, got[k]))
    && (forall h: nat | h < 32 * |m0| :: FreeAt(m1, h) == (FreeAt(m0, h) && h !in got))
  }

  lemma TookNone(m: seq<Word>)
    ensures Took(m, m, [])
  {
  }

  lemma TookMore(m0: seq<Word>, m1: seq<Word>, m2: seq<Word>, got: seq<nat>, more: seq<nat>)
    requires Took(m0, m1, got) && Took(m1, m2, more)
    ensures Took(m0, m2, got + more)
  {
    forall k | 0 <= k < |more| ensures more[k] !in got { assert FreeAt(m1, more[k]); }
    assert forall k | 0 <= k < |got| :: got[k] in got;
  }

  lemma TookUsed(m0: seq<Word>, m1: seq<Word>, got: seq<nat>)
    requires Took(m0, m1, got)
    ensures Used(m1) == Used(m0) + Elems(got) && Used(m0) !! Elems(got)
    ensures |Elems(got)| == |got|
  {
    forall h | h in got ensures h < 32 * |m0| && FreeAt(m0, h) {
      var k :| 0 <= k < |got| && got[k] == h;
    }
    DistinctSet(got);
  }

  ghost function Elems(c: seq<nat>): set<nat> {
    set h | h in c
  }

  lemma {:induction false} DistinctSet(c: seq<nat>)
    requires Distinct(c)
    ensures |Elems(c)| == |c|
  {
    if c != [] {
      var d, x := c[..|c| - 1], c[|c| - 1];
      assert Distinct(d);
      DistinctSet(d);
      ElemsNext(d, x);
      assert c == d + [x];
    } else {
      assert Elems(c) == {};
    }
  }

  lemma ElemsNext(d: seq<nat>, x: nat)
    ensures Elems(d + [x]) == Elems(d) + {x}
  {
  }

  /** Taking from one word of the masks. */
  lemma WordTook(m: seq<Word>, w: nat, mask': Word, got: seq<nat>)
    requires w < |m| && got <= FreeBelow(m[w], 32, 32 * w)
    requires forall i | 0 <= i < 32 :: mask'[i] == (m[w][i] && 32 * w + i !in got)
    ensures Took(m, m[w := mask'], got)
    ensures forall k | 0 <= k < |got| :: got[k] / 32 == w
  {
    var all, m1 := FreeBelow(m[w], 32, 32 * w), m[w := mask'];
    forall k | 0 <= k < |got| ensures got[k] / 32 == w && FreeAt(m, got[k]) {
      assert all[k] == got[k] && got[k] in all;
      InFreeBelow(m[w], 32, 32 * w, got[k]);
    }
    forall i, j | 0 <= i < j < |got| ensures got[i] != got[j] { FreeBelowAscends(m[w], 32, 32 * w, i, j); }
    forall h: nat | h < 32 * |m| ensures FreeAt(m1, h) == (FreeAt(m, h) && h !in got) {
      if h / 32 == w {
        assert h == 32 * w + h % 32;
      } else {
        assert h !in got;
      }
    }
  }

  // ---------------------------------------------------------------- counting

  /** Only block `b`'s masks differ. */
  ghost predicate OnlyBlock(m0: seq<Word>, m1: seq<Word>, b: nat) {
    |m1| == |m0| && forall w | 0 <= w < |m0| && w / 2 != b :: m1[w] == m0[w]
  }

  lemma {:induction false} BlockCount(m0: seq<Word>, m1: seq<Word>, btype: seq<nat>, b: nat, u: nat, n: nat)
    requires n <= |btype| && 2 * |btype| == |m0| && OnlyBlock(m0, m1, b) && b < |btype|
    ensures TypeFree(m1, btype, u, n) == TypeFree(m0, btype, u, n)
      + if b < n && btype[b] == u then BlockFree(m1, b) - BlockFree(m0, b) else 0
  {
    if n > 0 {
      BlockCount(m0, m1, btype, b, u, n - 1);
      if n - 1 != b { assert (2 * (n - 1)) / 2 == n - 1 && (2 * (n - 1) + 1) / 2 == n - 1; }
    }
  }

  lemma {:induction false} NoneLeft(mask: seq<Word>, btype: seq<nat>, t: nat, n: nat)
    requires n <= |btype| && 2 * n <= |mask|
    requires forall b | 0 <= b < n && btype[b] == t :: BlockFree(mask, b) == 0
    ensures TypeFree(mask, btype, t, n) == 0
  {
    if n > 0 { NoneLeft(mask, btype, t, n - 1); }
  }

  /** A chain read from the hint on. */
  function Rotated(c: seq<nat>, k: nat): seq<nat>
    requires k < |c|
  {
    c[k..] + c[..k]
  }

  function RotatedIndex(n: nat, k: nat, i: nat): nat
    requires k < n && i < n
  {
    if i < n - k then i + k else i - (n - k)
  }

  lemma RotatedAt(c: seq<nat>, k: nat, i: nat)
    requires k < |c| && i < |c|
    ensures Rotated(c, k)[i] == c[RotatedIndex(|c|, k, i)]
  {
  }

  lemma RotatedLinks(alloc: seq<nat>, c: seq<nat>, k: nat)
    requires k < |c| && Circular(alloc, c)
    ensures Circular(alloc, Rotated(c, k)) && Rotated(c, k)[0] == c[k]
  {
    var r := Rotated(c, k);
    forall i | 0 <= i < |r| ensures r[i] < |alloc| { RotatedAt(c, k, i); }
    forall i | 0 <= i < |r| - 1 ensures alloc[r[i]] == r[i + 1] {
      RotatedAt(c, k, i);
      RotatedAt(c, k, i + 1);
      if i + 1 == |c| - k { assert r[i] == c[|c| - 1]; }
    }
    RotatedAt(c, k, 0);
    RotatedAt(c, k, |c| - 1);
  }

  lemma RotatedDistinct(c: seq<nat>, k: nat)
    requires k < |c| && Distinct(c)
    ensures Distinct(Rotated(c, k))
    ensures forall b | b in c :: b in Rotated(c, k)
  {
    var r := Rotated(c, k);
    forall i, j | 0 <= i < j < |r| ensures r[i] != r[j] {
      RotatedAt(c, k, i);
      RotatedAt(c, k, j);
    }
    assert c == c[..k] + c[k..];
  }

  lemma FullHasNone()
    ensures FreeIn(MASK_FULL) == 0
  {
    FreeBelowPrefix(MASK_FULL, 0, 32, 0);
  }

  lemma WordInBlock(hs: seq<nat>, w: nat, b: nat)
    requires 2 * b <= w < 2 * b + 2 && forall k | 0 <= k < |hs| :: hs[k] / 32 == w
    ensures forall k | 0 <= k < |hs| :: hs[k] / HANDLES_PER_BLOCK == b
    ensures w / 2 == b
  {
  }

  /** The masks of blocks of other types are as before, and the free handles of type `t` are `k` fewer. */
  ghost predicate CountedDown(m0: seq<Word>, m1: seq<Word>, btype: seq<nat>, t: nat, k: int)
    requires |m0| == |m1| == 2 * |btype|
  {
    && (forall u: nat :: TypeFree(m1, btype, u, |btype|) == TypeFree(m0, btype, u, |btype|) - if u == t then k else 0)
    && (forall b | 0 <= b < |btype| && btype[b] != t :: m1[2 * b] == m0[2 * b] && m1[2 * b + 1] == m0[2 * b + 1])
  }

  lemma CountedDownMore(m0: seq<Word>, m1: seq<Word>, m2: seq<Word>, btype: seq<nat>, t: nat, k: int, b: nat, n: int)
    requires |m0| == |m1| == |m2| == 2 * |btype| && CountedDown(m0, m1, btype, t, k) && OnlyBlock(m1, m2, b)
    requires b < |btype| && btype[b] == t && BlockFree(m2, b) == BlockFree(m1, b) - n
    ensures CountedDown(m0, m2, btype, t, k + n)
  {
    forall u: nat ensures TypeFree(m2, btype, u, |btype|) == TypeFree(m1, btype, u, |btype|) - if u == t then n else 0 {
      BlockCount(m1, m2, btype, b, u, |btype|);
    }
    forall x | 0 <= x < |btype| && btype[x] != t ensures m2[2 * x] == m1[2 * x] && m2[2 * x + 1] == m1[2 * x + 1] {
      assert (2 * x) / 2 == x && (2 * x + 1) / 2 == x;
    }
  }

  /** The invariant with new masks for the blocks of type `t`, a new hint in its chain, and `k` handles fewer booked or
      owed. */
  lemma MasksKeep(s: Seg, s': Seg, sh: Shape, sh': Shape, t: nat, k: int, P: nat, userData: seq<bool>)
    requires Inv(s, sh, P, userData) && t < MAX_PUBLIC_TYPES && |s'.mask| == |s.mask|
    requires CountedDown(s.mask, s'.mask, s.btype, t, k)
    requires |s'.count| == |s.count| && sh'.chain == sh.chain && sh'.free == sh.free && |sh'.owed| == |sh.owed|
    requires s' == s.(mask := s'.mask, hint := s'.hint, count := s'.count)
    requires |s'.hint| == |s.hint| && s'.hint == s.hint[t := s'.hint[t]]
      && (s'.hint[t] == s.hint[t] || s'.hint[t] in sh.chain[t])
    requires forall u | 0 <= u < MAX_INTERNAL_TYPES :: s'.count[u] - sh'.owed[u] == s.count[u] - sh.owed[u] - if u
      == t then k else 0
    ensures Inv(s', sh', P, userData)
  {
    hide Lists, Circular, Linear;
    forall u | 0 <= u < MAX_INTERNAL_TYPES ensures ChainOk(s', u, sh'.chain[u]) { assert ChainOk(s, u, sh.chain[u]); }
  }

  /** What the free count of a type without debts says: a positive count means there is a chain to look in. */
  lemma CountMeans(s: Seg, sh: Shape, t: nat, P: nat, userData: seq<bool>)
    requires Inv(s, sh, P, userData) && t < MAX_PUBLIC_TYPES && sh.owed[t] == 0
    ensures Sizes(s, P) && |userData| == MAX_PUBLIC_TYPES && |sh.chain| == |sh.owed| == MAX_INTERNAL_TYPES
    ensures s.count[t] == TypeFree(s.mask, s.btype, t, |s.btype|) >= 0
    ensures s.count[t] > 0 ==> s.hint[t] in sh.chain[t]
    ensures Distinct(sh.chain[t]) && Circular(s.alloc, sh.chain[t])
    ensures forall b: nat :: b in sh.chain[t] <==> b < |s.btype| && s.btype[b] == t
  {
    hide Types, FreeOk, Lines, DataLinks, DataGiven, DataOwned;
    assert ChainOk(s, t, sh.chain[t]);
    if sh.chain[t] == [] { NoneLeft(s.mask, s.btype, t, |s.btype|); }
  }

  /** When every block of the chain has been emptied, the type has no free handle left. */
  lemma AllEmptied(mask: seq<Word>, btype: seq<nat>, t: nat, c: seq<nat>, rot: seq<nat>)
    requires |mask| == 2 * |btype| && (forall b | 0 <= b < |btype| && btype[b] == t :: b in c)
      && (forall b | b in c :: b in rot)
    requires forall i | 0 <= i < |rot| :: 2 * rot[i] + 1 < |mask| && BlockFree(mask, rot[i]) == 0
    ensures TypeFree(mask, btype, t, |btype|) == 0
  {
    forall b | 0 <= b < |btype| && btype[b] == t ensures BlockFree(mask, b) == 0 {
      var i :| 0 <= i < |rot| && rot[i] == b;
    }
    NoneLeft(mask, btype, t, |btype|);
  }

  /** Every handle is from one of the blocks. */
  ghost predicate OnWalk(got: seq<nat>, walk: seq<nat>) {
    forall k | 0 <= k < |got| :: got[k] / HANDLES_PER_BLOCK in walk
  }

  /** The blocks a search went through, along the links from block `first` to block `last`: it left none of them before
      there were no handles left in it, and took the last handle from the last one. */
  ghost predicate Walked(alloc: seq<nat>, mask: seq<Word>, first: nat, last: nat, got: seq<nat>, walk: seq<nat>) {
    && walk != [] && Links(alloc, walk) && walk[0] == first && walk[|walk| - 1] == last
    && (forall i | 0 <= i < |walk| - 1 :: 2 * walk[i] + 1 < |mask| && BlockFree(mask, walk[i]) == 0)
    && OnWalk(got, walk) && got != [] && got[|got| - 1] / HANDLES_PER_BLOCK == last
  }

  lemma NoWalk(rot: seq<nat>)
    ensures OnWalk([], rot[..0])
  {
  }

  lemma OnWalkMore(got: seq<nat>, more: seq<nat>, rot: seq<nat>, j: nat)
    requires j < |rot| && OnWalk(got, rot[..j]) && forall k | 0 <= k < |more| :: more[k] / HANDLES_PER_BLOCK == rot[j]
    ensures OnWalk(got + more, rot[..j + 1])
  {
    assert rot[..j + 1] == rot[..j] + [rot[j]];
    forall k | 0 <= k < |got + more| ensures (got + more)[k] / HANDLES_PER_BLOCK in rot[..j + 1] {
      if k < |got| { assert (got + more)[k] == got[k]; } else { assert (got + more)[k] == more[k - |got|]; }
    }
  }

  lemma WalkDone(alloc: seq<nat>, m1: seq<Word>, m2: seq<Word>, rot: seq<nat>, j: nat, got: seq<nat>)
    requires Circular(alloc, rot) && Distinct(rot) && j < |rot| && 2 * |alloc| == |m1| && OnlyBlock(m1, m2, rot[j])
    requires forall i | 0 <= i < j :: BlockFree(m1, rot[i]) == 0
    requires OnWalk(got, rot[..j + 1]) && got != [] && got[|got| - 1] / HANDLES_PER_BLOCK == rot[j]
    ensures Walked(alloc, m2, rot[0], rot[j], got, rot[..j + 1])
  {
    hide OnWalk;
    var walk := rot[..j + 1];
    assert Links(alloc, walk);
    forall i | 0 <= i < |walk| - 1 ensures 2 * walk[i] + 1 < |m2| && BlockFree(m2, walk[i]) == 0 {
      assert walk[i] == rot[i] && (2 * rot[i]) / 2 == rot[i] && (2 * rot[i] + 1) / 2 == rot[i];
    }
  }

  /** A block that gave less than was asked is empty, and the next block is not the one the walk began with. */
  lemma NextInChain(m0: seq<Word>, m1: seq<Word>, m2: seq<Word>, alloc: seq<nat>, btype: seq<nat>, t: nat,
                    c: seq<nat>, rot: seq<nat>, j: nat, taken: nat, count: nat)
    requires |m0| == |m1| == |m2| == 2 * |btype| && |alloc| == |btype| && j < |rot|
    requires Circular(alloc, rot) && Distinct(rot) && (forall b | b in c :: b in rot)
    requires forall b: nat :: b in c <==> b < |btype| && btype[b] == t
    requires forall i | 0 <= i < j :: BlockFree(m1, rot[i]) == 0
    requires OnlyBlock(m1, m2, rot[j]) && BlockFree(m2, rot[j]) == 0
    requires CountedDown(m0, m2, btype, t, taken) && taken < count <= TypeFree(m0, btype, t, |btype|)
    ensures j + 1 < |rot| && alloc[rot[j]] == rot[j + 1] && rot[j + 1] != rot[0]
    ensures forall i | 0 <= i < j + 1 :: BlockFree(m2, rot[i]) == 0
  {
    forall i | 0 <= i < j ensures BlockFree(m2, rot[i]) == 0 {
      assert (2 * rot[i]) / 2 == rot[i] && (2 * rot[i] + 1) / 2 == rot[i];
    }
    if j + 1 == |rot| { AllEmptied(m2, btype, t, c, rot); }
  }

  lemma CountedNone(m: seq<Word>, btype: seq<nat>, t: nat)
    requires |m| == 2 * |btype|
    ensures CountedDown(m, m, btype, t, 0) && Took(m, m, [])
  {
  }

  /** The mask of a new block with its first `n` handles taken. */
  lemma ShiftedCount(n: nat)
    requires n <= 32
    ensures FreeIn(Shl(MASK_EMPTY, n)) == 32 - n
  {
    assert Shl(MASK_EMPTY, n) == From(MASK_EMPTY, n);
    FromCount(MASK_EMPTY, n, 32);
    EmptyMaskBelow(32);
    EmptyMaskBelow(n);
  }

  /** The first `count` handles of block `b`. */
  function FirstHandles(b: nat, count: nat): seq<nat> {
    seq(count, k requires 0 <= k => HANDLES_PER_BLOCK * b + k)
  }

  /** Mask number `i` of a block from which the first `count` handles are taken. */
  function InitialMask(count: nat, i: nat): Word {
    Shl(MASK_EMPTY, if count < 32 * i then 0 else if count < 32 * i + 32 then count - 32 * i else 32)
  }

  lemma InitialTook(m0: seq<Word>, m1: seq<Word>, b: nat, count: nat)
    requires 2 * b + 1 < |m0| && |m1| == |m0| && EmptyBlock(m0, b) && OnlyBlock(m0, m1, b)
      && 0 < count <= HANDLES_PER_BLOCK
    requires m1[2 * b] == InitialMask(count, 0) && m1[2 * b + 1] == InitialMask(count, 1)
    ensures Took(m0, m1, FirstHandles(b, count)) && BlockFree(m1, b) == BlockFree(m0, b) - count
    ensures forall k | 0 <= k < count :: FirstHandles(b, count)[k] / HANDLES_PER_BLOCK == b
  {
    hide InitialMask, BlockFree, FreeAt, EmptyBlock, OnlyBlock, FirstHandles;
    InitialCount(m0, m1, b, count);
    FirstAre(b, count);
    var got := FirstHandles(b, count);
    forall h: nat | h < 32 * |m0| ensures FreeAt(m1, h) == (FreeAt(m0, h) && h !in got) {
      InitialAt(m0, m1, b, count, h);
    }
    forall k | 0 <= k < |got| ensures got[k] < 32 * |m0| && FreeAt(m0, got[k]) && got[k] / HANDLES_PER_BLOCK == b {
      InitialFree(m0, b, k);
    }
  }

  lemma FirstAre(b: nat, count: nat)
    ensures Distinct(FirstHandles(b, count)) && |FirstHandles(b, count)| == count
    ensures forall k | 0 <= k < count :: FirstHandles(b, count)[k] == 64 * b + k
  {
  }

  lemma InitialFree(m0: seq<Word>, b: nat, k: nat)
    requires 2 * b + 1 < |m0| && EmptyBlock(m0, b) && k < 64
    ensures 64 * b + k < 32 * |m0| && FreeAt(m0, 64 * b + k) && (64 * b + k) / 64 == b
  {
    var h := 64 * b + k;
    assert h / 64 == b && (h / 32 == 2 * b || h / 32 == 2 * b + 1);
  }

  lemma InitialCount(m0: seq<Word>, m1: seq<Word>, b: nat, count: nat)
    requires 2 * b + 1 < |m0| && |m1| == |m0| && EmptyBlock(m0, b) && 0 < count <= HANDLES_PER_BLOCK
    requires m1[2 * b] == InitialMask(count, 0) && m1[2 * b + 1] == InitialMask(count, 1)
    ensures BlockFree(m1, b) == BlockFree(m0, b) - count
  {
    EmptyBlockFree(m0, b);
    ShiftedCount(if count < 32 then count else 32);
    ShiftedCount(if count < 32 then 0 else if count < 64 then count - 32 else 32);
  }

  lemma InitialAt(m0: seq<Word>, m1: seq<Word>, b: nat, count: nat, h: nat)
    requires 2 * b + 1 < |m0| && |m1| == |m0| && EmptyBlock(m0, b) && OnlyBlock(m0, m1, b)
      && 0 < count <= HANDLES_PER_BLOCK
    requires m1[2 * b] == InitialMask(count, 0) && m1[2 * b + 1] == InitialMask(count, 1) && h < 32 * |m0|
    ensures FreeAt(m1, h) == (FreeAt(m0, h) && h !in FirstHandles(b, count))
  {
    var got := FirstHandles(b, count);
    if 64 * b <= h < 64 * b + count { assert got[h - 64 * b] == h; }
    assert h in got ==> 64 * b <= h < 64 * b + count;
    if h / 32 == 2 * b {
      assert h % 32 == h - 64 * b;
    } else if h / 32 == 2 * b + 1 {
      assert h % 32 == h - 64 * b - 32;
    } else {
      assert (h / 32) / 2 != b;
    }
  }

  /** Every handle of the list lies in a block of type `t`. */
  ghost predicate OfType(got: seq<nat>, btype: seq<nat>, t: nat) {
    forall k | 0 <= k < |got| :: got[k] / HANDLES_PER_BLOCK < |btype| && btype[got[k] / HANDLES_PER_BLOCK] == t
  }

  lemma InvSizes(s: Seg, sh: Shape, P: nat, userData: seq<bool>)
    requires Inv(s, sh, P, userData)
    ensures Sizes(s, P) && |userData| == MAX_PUBLIC_TYPES && |sh.chain| == |sh.owed| == MAX_INTERNAL_TYPES
    ensures forall b | 0 <= b < |s.btype| && s.btype[b] == TYPE_INVALID :: EmptyBlock(s.mask, b)
  {
    hide ChainOk, FreeOk, Lines, DataLinks, DataGiven, DataOwned;
  }

  lemma FreshStart(m: seq<Word>, btype: seq<nat>, t: nat)
    requires |m| == 2 * |btype|
    ensures OfType([], btype, t) && KeepsUsed(btype, btype, m)
  {
  }

  /** Handles that were taken keep their block's type while other blocks come and go. */
  lemma StillUsed(m0: seq<Word>, m1: seq<Word>, btype0: seq<nat>, btype1: seq<nat>, btype2: seq<nat>, got: seq<nat>,
      t: nat)
    requires t < MAX_PUBLIC_TYPES && Took(m0, m1, got) && OfType(got, btype1, t) && KeepsUsed(btype0, btype1, m0)
      && KeepsUsed(btype1, btype2, m1)
    ensures OfType(got, btype2, t) && KeepsUsed(btype0, btype2, m0)
  {
    forall k | 0 <= k < |got| ensures btype2[got[k] / HANDLES_PER_BLOCK] == t {
      assert got[k] in got;
      UsedNotEmpty(m1, got[k]);
    }
    forall x | 0 <= x < |btype0| && btype0[x] < MAX_PUBLIC_TYPES && !EmptyBlock(m0, x) ensures btype2[x] == btype0[x] {
      StillNotEmpty(m0, m1, got, x);
    }
  }

  lemma UsedNotEmpty(mask: seq<Word>, h: nat)
    requires h < 32 * |mask| && |mask| % 2 == 0 && !FreeAt(mask, h)
    ensures 2 * (h / HANDLES_PER_BLOCK) + 1 < |mask| && !EmptyBlock(mask, h / HANDLES_PER_BLOCK)
  {
    var b := h / 64;
    assert h / 32 == 2 * b || h / 32 == 2 * b + 1;
  }

  lemma StillNotEmpty(m0: seq<Word>, m1: seq<Word>, got: seq<nat>, x: nat)
    requires Took(m0, m1, got) && 2 * x + 1 < |m0| && !EmptyBlock(m0, x)
    ensures !EmptyBlock(m1, x)
  {
    var w := if m0[2 * x] != MASK_EMPTY then 2 * x else 2 * x + 1;
    assert exists i :: 0 <= i < 32 && m0[w][i] != MASK_EMPTY[i];
    var i :| 0 <= i < 32 && !m0[w][i];
    var h := 32 * w + i;
    assert h / 32 == w && h % 32 == i;
    assert !FreeAt(m0, h) && !FreeAt(m1, h);
  }

  lemma OfTypeMore(got: seq<nat>, more: seq<nat>, btype: seq<nat>, t: nat)
    requires OfType(got, btype, t) && OfType(more, btype, t)
    ensures OfType(got + more, btype, t)
  {
  }

  /** Booking what is owed for type `t` in the free count. */
  lemma Booked(s: Seg, s': Seg, sh: Shape, sh': Shape, t: nat, k: int, P: nat, userData: seq<bool>)
    requires Inv(s, sh, P, userData) && t < MAX_PUBLIC_TYPES && s' == s.(count := s.count[t := s.count[t] - k])
    requires sh'.chain == sh.chain && sh'.free == sh.free && |sh'.owed| == |sh.owed|
      && sh.owed == sh'.owed[t := sh'.owed[t] + k]
    ensures Inv(s', sh', P, userData)
  {
    InvSizes(s, sh, P, userData);
    CountedNone(s.mask, s.btype, t);
    MasksKeep(s, s', sh, sh', t, 0, P, userData);
  }

  // ---------------------------------------------------------------- giving handles back

  /** Exactly the handles of `hs` became free, those of them that were not free already. */
  ghost predicate Gave(m0: seq<Word>, m1: seq<Word>, hs: seq<int>) {
    && |m1| == |m0| && (forall h: nat | h < 32 * |m0| :: FreeAt(m1, h) == (FreeAt(m0, h) || h in hs))
  }

  /** Every handle of `hs` has a number from `lo` to below `hi`. */
  ghost predicate Inside(hs: seq<int>, lo: int, hi: int) {
    forall k | 0 <= k < |hs| :: lo <= hs[k] < hi
  }

  /** `n` is the length of the longest prefix of `hs` that lies from `lo` to below `hi`. */
  ghost predicate PrefixInside(hs: seq<int>, n: nat, lo: int, hi: int) {
    n <= |hs| && Inside(hs[..n], lo, hi) && (n < |hs| ==> !(lo <= hs[n] < hi))
  }

  lemma GaveMore(m0: seq<Word>, m1: seq<Word>, m2: seq<Word>, hs: seq<int>, i: nat, n: nat)
    requires i + n <= |hs| && Gave(m0, m1, hs[..i]) && Gave(m1, m2, hs[i..][..n])
    ensures Gave(m0, m2, hs[..i + n])
  {
    assert hs[..i + n] == hs[..i] + hs[i..][..n];
  }

  lemma InsideMore(hs: seq<int>, i: nat, n: nat, lo: int, hi: int)
    requires i + n <= |hs| && Inside(hs[..i], lo, hi) && Inside(hs[i..][..n], lo, hi)
    ensures Inside(hs[..i + n], lo, hi)
  {
    assert hs[..i + n] == hs[..i] + hs[i..][..n];
  }

  /** A mask with the handles of `hs` marked free. */
  ghost predicate WordGave(x: Word, y: Word, w: nat, hs: seq<int>) {
    forall i | 0 <= i < 32 :: y[i] == (x[i] || 32 * w + i in hs)
  }

  lemma WordGaveNext(x: Word, y: Word, w: nat, hs: seq<int>, h: int)
    requires WordGave(x, y, w, hs) && 32 * w <= h < 32 * w + 32
    ensures WordGave(x, Or(y, BitAt(h - 32 * w)), w, hs + [h])
    ensures FreeIn(Or(y, BitAt(h - 32 * w))) == FreeIn(y) + if y[h - 32 * w] then 0 else 1
  {
    assert Or(y, BitAt(h - 32 * w)) == y[h - 32 * w := true];
    SetCount(y, h - 32 * w, 32);
  }

  lemma WordGaveMask(m: seq<Word>, w: nat, y: Word, hs: seq<int>)
    requires w < |m| && WordGave(m[w], y, w, hs) && Inside(hs, 32 * w, 32 * w + 32)
    ensures Gave(m, m[w := y], hs)
  {
    forall h: nat | h < 32 * |m| ensures FreeAt(m[w := y], h) == (FreeAt(m, h) || h in hs) {
      if h / 32 == w { assert h == 32 * w + h % 32; } else { assert h !in hs; }
    }
  }

  lemma GaveUsed(m0: seq<Word>, m1: seq<Word>, hs: seq<int>)
    requires Gave(m0, m1, hs)
    ensures Used(m1) == set h | h in Used(m0) && h !in hs
  {
  }

  lemma KeepsUsedMore(m0: seq<Word>, m1: seq<Word>, got: seq<nat>, btype0: seq<nat>, btype1: seq<nat>)
    requires Took(m0, m1, got) && KeepsUsed(btype0, btype1, m1)
    ensures KeepsUsed(btype0, btype1, m0)
  {
    forall x | 0 <= x < |btype0| && btype0[x] < MAX_PUBLIC_TYPES && !EmptyBlock(m0, x) ensures btype1[x] == btype0[x] {
      StillNotEmpty(m0, m1, got, x);
    }
  }

  lemma GaveNone(m: seq<Word>, hs: seq<int>)
    ensures Gave(m, m, hs[..0])
  {
  }

  // ---------------------------------------------------------------- a new segment, and locks

  function Filled<T>(n: nat, v: T): seq<T> {
    seq(n, _ => v)
  }

  function FirstBlocks(n: nat): seq<nat> {
    seq(n, k requires 0 <= k => k)
  }

  lemma FreshInv(s: Seg, P: nat, userData: seq<bool>)
    requires (P == 8 || P == 16) && |userData| == MAX_PUBLIC_TYPES && |s.alloc| == 15 * P
    requires forall k | 0 <= k < 15 * P :: s.alloc[k] == if k == 15 * P - 1 then BLOCK_INVALID else k + 1
    requires s.mask == Filled(30 * P, MASK_EMPTY) && s.btype == Filled(15 * P, TYPE_INVALID)
      && s.udata == Filled(15 * P, BLOCK_INVALID)
    requires s.locks == Filled(15 * P, 0) && s.tail == s.hint == Filled(MAX_INTERNAL_TYPES, BLOCK_INVALID)
    requires s.count == Filled(MAX_INTERNAL_TYPES, 0) && s.free == 0 && s.empty == 0 && s.commit == P && s.decommit == 0
    ensures Inv(s, Shape(Filled(MAX_INTERNAL_TYPES, []), FirstBlocks(15 * P), Filled(MAX_INTERNAL_TYPES, 0)), P,
      userData)
    ensures Used(s.mask) == {}
  {
    var sh := Shape(Filled(MAX_INTERNAL_TYPES, []), FirstBlocks(15 * P), Filled(MAX_INTERNAL_TYPES, 0));
    forall t | 0 <= t < MAX_INTERNAL_TYPES
      ensures ChainOk(s, t, sh.chain[t]) && s.count[t] == TypeFree(s.mask, s.btype, t, |s.btype|) + sh.owed[t]
    {
      NoneLeft(s.mask, s.btype, t, |s.btype|);
    }
    assert Chains(s, sh.chain) && Counts(s, sh.owed);
    FreshFree(s, P);
    forall h: nat | h < 32 * |s.mask| ensures FreeAt(s.mask, h) { assert s.mask[h / 32] == MASK_EMPTY; }
  }

  lemma FreshFree(s: Seg, P: nat)
    requires (P == 8 || P == 16) && |s.alloc| == 15 * P && s.btype == Filled(15 * P, TYPE_INVALID)
    requires forall k | 0 <= k < 15 * P :: s.alloc[k] == if k == 15 * P - 1 then BLOCK_INVALID else k + 1
    requires s.free == 0 && s.empty == 0 && s.commit == P && s.decommit == 0
    ensures FreeOk(s, FirstBlocks(15 * P)) && Lines(s, FirstBlocks(15 * P), P)
  {
    var f := FirstBlocks(15 * P);
    forall b: nat ensures b in f <==> b < 15 * P { if b < 15 * P { assert f[b] == b; } }
    if P == 8 { assert 8 % 8 == 0; } else { assert 16 % 16 == 0; }
  }

  /** Locking or unlocking a block of handles. */
  lemma LockFrame(s: Seg, s': Seg, sh: Shape, b: nat, P: nat, userData: seq<bool>)
    requires Inv(s, sh, P, userData) && b < |s.locks| && s.btype[b] < MAX_PUBLIC_TYPES
    requires |s'.locks| == |s.locks| && s' == s.(locks := s.locks[b := s'.locks[b]])
    ensures Inv(s', sh, P, userData)
  {
    hide Lists, Circular, Linear, Ends;
    forall t | 0 <= t < MAX_INTERNAL_TYPES ensures ChainOk(s', t, sh.chain[t]) { assert ChainOk(s, t, sh.chain[t]); }
  }

  // ---------------------------------------------------------------- user data

  /** The slot of a handle's user data, as a handle number (`BlockFetchUserDataPointer` and its callers). */
  function UserDataSlot(s: Seg, h: nat): nat
    requires h / HANDLES_PER_BLOCK < |s.udata|
  {
    HANDLES_PER_BLOCK * s.udata[h / HANDLES_PER_BLOCK] + h % HANDLES_PER_BLOCK
  }

  /** Distinct handles of user-data types have distinct slots, each in a locked data block that never holds a handle. */
  lemma SlotsDistinct(s: Seg, sh: Shape, P: nat, userData: seq<bool>, g: nat, h: nat)
    requires Inv(s, sh, P, userData) && g < 64 * 15 * P && h < 64 * 15 * P && g != h
    requires s.btype[g / 64] < MAX_PUBLIC_TYPES && userData[s.btype[g / 64]]
    requires s.btype[h / 64] < MAX_PUBLIC_TYPES && userData[s.btype[h / 64]]
    ensures UserDataSlot(s, g) != UserDataSlot(s, h)
    ensures var d := s.udata[g / 64]; d < 15 * P && s.btype[d] == DATABLOCK && s.locks[d] == 1 && EmptyBlock(s.mask, d)
    ensures UserDataSlot(s, g) / HANDLES_PER_BLOCK == s.udata[g / 64]
  {
    hide Chains, FreeOk, Counts, Lines;
    assert s.udata[g / 64] in s.udata;
    if g / 64 != h / 64 { assert s.udata[g / 64] != s.udata[h / 64]; }
  }
}
