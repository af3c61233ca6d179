/** Addresses of handles, the set of handles in use over a list of segments, and what a bulk request or release does to
    it (src/gc/handletablecore.cpp). */
module TableModel {
  import opened FreeMask
  import opened SegmentModel
  import opened SegmentSweep
  import opened SegmentInsert
  import opened SegmentHandles
  import opened SegmentTidy
  import opened SegmentData
  import QuickSort

  const SEGMENT_SIZE: nat := QuickSort.SEGMENT_SIZE
  const HEADER_SIZE: nat := 4096

  function HandleSize(P: nat): nat {
    if P == 8 then 8 else 4
  }

  /** The address of handle number `h` of the segment at `base`. */
  function Address(base: nat, h: nat, P: nat): nat {
    base + HEADER_SIZE + HandleSize(P) * h
  }

  /** The number of a handle relative to the segment at `base`; it is outside the segment's range for a handle of
      another segment. */
  function NumberIn(base: nat, a: nat, P: nat): int {
    (a - base - HEADER_SIZE) / HandleSize(P)
  }

  /** `HandleFetchSegmentPointer`: the base of the segment that a handle lies in. */
  function SegmentBase(a: nat): nat {
    a / SEGMENT_SIZE * SEGMENT_SIZE
  }

  lemma AddressRoundTrip(base: nat, h: nat, P: nat)
    requires (P == 8 || P == 16) && base % SEGMENT_SIZE == 0 && h < 960 * P
    ensures SegmentBase(Address(base, h, P)) == base && NumberIn(base, Address(base, h, P), P) == h
  {
    var q := base / SEGMENT_SIZE;
    assert base == q * SEGMENT_SIZE;
    if P == 8 {
      assert Address(base, h, P) == q * 65536 + (4096 + 8 * h);
    } else {
      assert Address(base, h, P) == q * 65536 + (4096 + 4 * h);
    }
  }

  /** A handle of another segment falls outside. */
  lemma AddressElsewhere(base: nat, other: nat, h: nat, P: nat)
    requires (P == 8 || P == 16) && base % SEGMENT_SIZE == 0 && other % SEGMENT_SIZE == 0 && base != other
      && h < 960 * P
    ensures !(0 <= NumberIn(base, Address(other, h, P), P) < 960 * P)
  {
    var q, r := base / SEGMENT_SIZE, other / SEGMENT_SIZE;
    assert base == q * SEGMENT_SIZE && other == r * SEGMENT_SIZE;
    var n := NumberIn(base, Address(other, h, P), P);
    if P == 8 {
      assert n == (r - q) * 8192 + h;
    } else {
      assert n == (r - q) * 16384 + h;
    }
  }

  lemma AddressInjective(base: nat, other: nat, g: nat, h: nat, P: nat)
    requires (P == 8 || P == 16) && base % SEGMENT_SIZE == 0 && other % SEGMENT_SIZE == 0 && g < 960 * P && h < 960 * P
    requires Address(base, g, P) == Address(other, h, P)
    ensures base == other && g == h
  {
    AddressRoundTrip(base, g, P);
    AddressRoundTrip(other, h, P);
  }

  // ---------------------------------------------------------------- the set of used handles

  /** Some handle slot of some segment has address `a`. */
  ghost predicate IsHandle(bases: seq<nat>, a: nat, P: nat) {
    exists i, h: nat {:trigger Address(bases[i], h, P)} :: 0 <= i < |bases| && h < 960 * P
        && a == Address(bases[i], h, P)
  }

  /** Segments lie at different multiples of the segment size, in ascending order. */
  ghost predicate Placed(bases: seq<nat>) {
    && (forall i | 0 <= i < |bases| :: bases[i] % SEGMENT_SIZE == 0)
    && (forall i, j | 0 <= i < j < |bases| :: bases[i] < bases[j])
  }

  /** `used` is the set of addresses of the handles that the masks show as taken. */
  ghost predicate InSync(bases: seq<nat>, masks: seq<seq<Word>>, used: set<nat>, P: nat) {
    && |masks| == |bases| && (forall i | 0 <= i < |masks| :: |masks[i]| == 30 * P)
    && (forall i, h: nat {:trigger Address(bases[i], h, P)} | 0 <= i < |bases| && h < 960 * P ::
          Address(bases[i], h, P) in used <==> !FreeAt(masks[i], h))
    && (forall a | a in used :: IsHandle(bases, a, P))
  }

  function Addresses(base: nat, got: seq<nat>, P: nat): seq<nat> {
    seq(|got|, k requires 0 <= k < |got| => Address(base, got[k], P))
  }

  lemma SyncTake(bases: seq<nat>, masks: seq<seq<Word>>, used: set<nat>, P: nat, i: nat, m: seq<Word>, got: seq<nat>)
    requires (P == 8 || P == 16) && Placed(bases) && InSync(bases, masks, used, P) && i < |bases|
      && Took(masks[i], m, got)
    ensures var hs := Addresses(bases[i], got, P);
      && Distinct(hs) && (forall a | a in hs :: a !in used) && InSync(bases, masks[i := m], used + Elems(hs), P)
      && (forall k | 0 <= k < |got| :: got[k] < 960 * P)
  {
    var hs := Addresses(bases[i], got, P);
    forall k | 0 <= k < |got| ensures got[k] < 960 * P && hs[k] !in used && IsHandle(bases, hs[k], P) {
      assert hs[k] == Address(bases[i], got[k], P);
    }
    forall j, k | 0 <= j < k < |hs| ensures hs[j] != hs[k] {
      if hs[j] == hs[k] { AddressInjective(bases[i], bases[i], got[j], got[k], P); }
    }
    forall j, h: nat | 0 <= j < |bases| && h < 960 * P
      ensures Address(bases[j], h, P) in used + Elems(hs) <==> !FreeAt(masks[i := m][j], h)
    {
      TakenAddress(bases, i, j, got, h, P);
    }
  }

  /** Which addresses are among those just taken from segment `i`. */
  lemma TakenAddress(bases: seq<nat>, i: nat, j: nat, got: seq<nat>, h: nat, P: nat)
    requires (P == 8 || P == 16) && Placed(bases) && i < |bases| && j < |bases| && h < 960 * P
    requires forall k | 0 <= k < |got| :: got[k] < 960 * P
    ensures Address(bases[j], h, P) in Addresses(bases[i], got, P) <==> j == i && h in got
  {
    var hs := Addresses(bases[i], got, P);
    if Address(bases[j], h, P) in hs {
      var k :| 0 <= k < |hs| && hs[k] == Address(bases[j], h, P);
      AddressInjective(bases[j], bases[i], h, got[k], P);
    }
    if j == i && h in got {
      var k :| 0 <= k < |got| && got[k] == h;
      assert hs[k] == Address(bases[j], h, P);
    }
  }

  /** The numbers of handles relative to one segment. */
  function Numbers(base: nat, hs: seq<nat>, P: nat): seq<int> {
    seq(|hs|, k requires 0 <= k < |hs| => NumberIn(base, hs[k], P))
  }

  lemma GivenAddress(bases: seq<nat>, i: nat, j: nat, hs: seq<nat>, h: nat, P: nat)
    requires (P == 8 || P == 16) && Placed(bases) && i < |bases| && j < |bases| && h < 960 * P
    requires forall k | 0 <= k < |hs| :: IsHandle(bases, hs[k], P)
    requires Inside(Numbers(bases[i], hs, P), 0, 960 * P)
    ensures Address(bases[j], h, P) in hs <==> j == i && h in Numbers(bases[i], hs, P)
  {
    var ns := Numbers(bases[i], hs, P);
    if Address(bases[j], h, P) in hs {
      var k :| 0 <= k < |hs| && hs[k] == Address(bases[j], h, P);
      assert ns[k] == NumberIn(bases[i], hs[k], P);
      if bases[i] != bases[j] { AddressElsewhere(bases[i], bases[j], h, P); }
      AddressRoundTrip(bases[i], h, P);
    }
    if j == i && h in ns {
      var k :| 0 <= k < |ns| && ns[k] == h;
      var q, g: nat :| 0 <= q < |bases| && g < 960 * P && hs[k] == Address(bases[q], g, P);
      if bases[q] != bases[i] { AddressElsewhere(bases[i], bases[q], g, P); }
      AddressRoundTrip(bases[i], g, P);
    }
  }

  lemma SyncGive(bases: seq<nat>, masks: seq<seq<Word>>, used: set<nat>, P: nat, i: nat, m: seq<Word>, hs: seq<nat>)
    requires (P == 8 || P == 16) && Placed(bases) && InSync(bases, masks, used, P) && i < |bases|
    requires (forall k | 0 <= k < |hs| :: hs[k] in used) && Inside(Numbers(bases[i], hs, P), 0, 960 * P)
    requires Gave(masks[i], m, Numbers(bases[i], hs, P))
    ensures InSync(bases, masks[i := m], used - Elems(hs), P)
  {
    forall j, h: nat | 0 <= j < |bases| && h < 960 * P
      ensures Address(bases[j], h, P) in used - Elems(hs) <==> !FreeAt(masks[i := m][j], h)
    {
      GivenAddress(bases, i, j, hs, h, P);
    }
  }

  /** A new segment without used handles changes nothing. */
  lemma SyncInsert(bases: seq<nat>, masks: seq<seq<Word>>, used: set<nat>, P: nat, p: nat, base: nat, m: seq<Word>)
    requires (P == 8 || P == 16) && InSync(bases, masks, used, P) && p <= |bases| && |m| == 30 * P && Used(m) == {}
    requires Placed(bases[..p] + [base] + bases[p..])
    ensures InSync(bases[..p] + [base] + bases[p..], masks[..p] + [m] + masks[p..], used, P)
  {
    var bases', masks' := bases[..p] + [base] + bases[p..], masks[..p] + [m] + masks[p..];
    forall j, h: nat | 0 <= j < |bases'| && h < 960 * P
      ensures Address(bases'[j], h, P) in used <==> !FreeAt(masks'[j], h)
    {
      if j < p {
        assert bases'[j] == bases[j] && masks'[j] == masks[j];
      } else if j > p {
        assert bases'[j] == bases[j - 1] && masks'[j] == masks[j - 1];
      } else {
        NewAddress(bases, used, P, p, base, h);
        assert h !in Used(m);
      }
    }
    forall a | a in used ensures IsHandle(bases', a, P) {
      var i, h: nat :| 0 <= i < |bases| && h < 960 * P && a == Address(bases[i], h, P);
      var j := if i < p then i else i + 1;
      assert a == Address(bases'[j], h, P);
    }
  }

  lemma NewAddress(bases: seq<nat>, used: set<nat>, P: nat, p: nat, base: nat, h: nat)
    requires (P == 8 || P == 16) && p <= |bases| && Placed(bases[..p] + [base] + bases[p..]) && h < 960 * P
    requires forall a | a in used :: IsHandle(bases, a, P)
    ensures Address(base, h, P) !in used
  {
    var bases' := bases[..p] + [base] + bases[p..];
    if Address(base, h, P) in used {
      var i, g: nat :| 0 <= i < |bases| && g < 960 * P && Address(base, h, P) == Address(bases[i], g, P);
      var j := if i < p then i else i + 1;
      assert bases'[j] == bases[i] && bases'[p] == base;
      AddressInjective(base, bases[i], h, g, P);
    }
  }

  // ---------------------------------------------------------------- types of handles

  /** The handle at address `a` lies in a block of type `t`. */
  ghost predicate TypeAt(bases: seq<nat>, btypes: seq<seq<nat>>, a: nat, t: nat, P: nat) {
    |btypes| == |bases| &&
    exists i, h: nat {:trigger Address(bases[i], h, P)} ::
      0 <= i < |bases| && h < 960 * P && a == Address(bases[i], h, P) && h / 64 < |btypes[i]| && btypes[i][h / 64] == t
  }

  /** Handles in use keep their type when one segment's blocks change and no block with handles in it does. */
  lemma TypesKept(bases: seq<nat>, masks: seq<seq<Word>>, btypes: seq<seq<nat>>, used: set<nat>, P: nat, i: nat,
      bt: seq<nat>, a: nat, t: nat)
    requires InSync(bases, masks, used, P) && i < |bases| == |btypes| && KeepsUsed(btypes[i], bt, masks[i])
      && t < MAX_PUBLIC_TYPES
    requires a in used && TypeAt(bases, btypes, a, t, P)
    ensures TypeAt(bases, btypes[i := bt], a, t, P)
  {
    var j, h: nat :| 0 <= j < |bases| && h < 960 * P && a == Address(bases[j], h, P) && h / 64 < |btypes[j]|
        && btypes[j][h / 64] == t;
    assert !FreeAt(masks[j], h);
    UsedNotEmpty(masks[j], h);
    assert btypes[i := bt][j][h / 64] == t;
  }

  lemma TypesTaken(bases: seq<nat>, btypes: seq<seq<nat>>, P: nat, i: nat, got: seq<nat>, t: nat, k: nat)
    requires i < |bases| == |btypes| && k < |got| && got[k] < 960 * P && OfType(got, btypes[i], t)
    ensures TypeAt(bases, btypes, Addresses(bases[i], got, P)[k], t, P)
  {
    assert Addresses(bases[i], got, P)[k] == Address(bases[i], got[k], P);
  }

  lemma AllTaken(bases: seq<nat>, btypes: seq<seq<nat>>, P: nat, i: nat, got: seq<nat>, t: nat)
    requires i < |bases| == |btypes| && OfType(got, btypes[i], t) && forall k | 0 <= k < |got| :: got[k] < 960 * P
    ensures AllOfType(bases, btypes, Addresses(bases[i], got, P), t, P)
  {
    hide TypeAt, OfType;
    var hs := Addresses(bases[i], got, P);
    forall k | 0 <= k < |hs| ensures TypeAt(bases, btypes, hs[k], t, P) { TypesTaken(bases, btypes, P, i, got, t, k); }
  }

  lemma TypesInserted(bases: seq<nat>, btypes: seq<seq<nat>>, P: nat, p: nat, base: nat, bt: seq<nat>, a: nat, t: nat)
    requires p <= |bases| == |btypes| && TypeAt(bases, btypes, a, t, P)
    ensures TypeAt(bases[..p] + [base] + bases[p..], btypes[..p] + [bt] + btypes[p..], a, t, P)
  {
    var i, h: nat :| 0 <= i < |bases| && h < 960 * P && a == Address(bases[i], h, P) && h / 64 < |btypes[i]|
        && btypes[i][h / 64] == t;
    var j := if i < p then i else i + 1;
    var bases', btypes' := bases[..p] + [base] + bases[p..], btypes[..p] + [bt] + btypes[p..];
    assert a == Address(bases'[j], h, P) && btypes'[j] == btypes[i];
  }

  /** All of `hs` have type `t`. */
  ghost predicate AllOfType(bases: seq<nat>, btypes: seq<seq<nat>>, hs: seq<nat>, t: nat, P: nat) {
    forall k | 0 <= k < |hs| :: TypeAt(bases, btypes, hs[k], t, P)
  }

  /** No handle in `used` changes its type. */
  ghost predicate TypesStay(bases: seq<nat>, btypes: seq<seq<nat>>, bases': seq<nat>, btypes': seq<seq<nat>>,
      used: set<nat>, P: nat) {
    forall a, t: nat | a in used && t < MAX_PUBLIC_TYPES && TypeAt(bases, btypes, a, t, P) ::
        TypeAt(bases', btypes', a, t, P)
  }

  lemma TypesStayTaken(bases: seq<nat>, masks: seq<seq<Word>>, btypes: seq<seq<nat>>, used: set<nat>, P: nat, i: nat,
      bt: seq<nat>)
    requires InSync(bases, masks, used, P) && i < |bases| == |btypes| && KeepsUsed(btypes[i], bt, masks[i])
    ensures TypesStay(bases, btypes, bases, btypes[i := bt], used, P)
  {
    forall a, t: nat | a in used && t < MAX_PUBLIC_TYPES && TypeAt(bases, btypes, a, t, P)
        ensures TypeAt(bases, btypes[i := bt], a, t, P) {
      TypesKept(bases, masks, btypes, used, P, i, bt, a, t);
    }
  }

  lemma TypesStayInserted(bases: seq<nat>, btypes: seq<seq<nat>>, used: set<nat>, P: nat, p: nat, base: nat,
      bt: seq<nat>)
    requires p <= |bases| == |btypes|
    ensures TypesStay(bases, btypes, bases[..p] + [base] + bases[p..], btypes[..p] + [bt] + btypes[p..], used, P)
  {
    forall a, t: nat | a in used && t < MAX_PUBLIC_TYPES && TypeAt(bases, btypes, a, t, P)
      ensures TypeAt(bases[..p] + [base] + bases[p..], btypes[..p] + [bt] + btypes[p..], a, t, P)
    {
      TypesInserted(bases, btypes, P, p, base, bt, a, t);
    }
  }

  // ---------------------------------------------------------------- user data of handles

  /** The user data of the handle at address `a` is at address `slot`. */
  ghost predicate SlotAt(bases: seq<nat>, views: seq<Seg>, a: nat, slot: nat, P: nat) {
    |views| == |bases| &&
    exists i, h: nat {:trigger Address(bases[i], h, P)} ::
      0 <= i < |bases| && h < 960 * P && a == Address(bases[i], h, P) && SlotIn(bases[i], views[i], h, slot, P)
  }

  ghost predicate SlotIn(base: nat, s: Seg, h: nat, slot: nat, P: nat) {
    h / 64 < |s.udata| && s.udata[h / 64] != BLOCK_INVALID && slot == Address(base, UserDataSlot(s, h), P)
  }

  /** No handle in `used` has its user data moved. */
  ghost predicate SlotsStay(bases: seq<nat>, views: seq<Seg>, bases': seq<nat>, views': seq<Seg>, used: set<nat>,
      P: nat) {
    forall a, slot: nat | a in used && SlotAt(bases, views, a, slot, P) :: SlotAt(bases', views', a, slot, P)
  }

  /** A handle has at most one slot, and of two handles no two have the same. */
  lemma SlotsApart(bases: seq<nat>, views: seq<Seg>, a: nat, slot: nat, a': nat, slot': nat, P: nat,
      userData: seq<bool>, shapes: seq<Shape>)
    requires (P == 8 || P == 16) && Placed(bases) && |shapes| == |views| == |bases|
    requires forall i | 0 <= i < |views| :: Inv(views[i], shapes[i], P, userData)
    requires SlotAt(bases, views, a, slot, P) && SlotAt(bases, views, a', slot', P)
    ensures a == a' <==> slot == slot'
  {
    hide Inv;
    var i, h: nat :| 0 <= i < |bases| && h < 960 * P && a == Address(bases[i], h, P)
        && SlotIn(bases[i], views[i], h, slot, P);
    var i', h': nat :| 0 <= i' < |bases| && h' < 960 * P && a' == Address(bases[i'], h', P)
        && SlotIn(bases[i'], views[i'], h', slot', P);
    var d, d' := UserDataSlot(views[i], h), UserDataSlot(views[i'], h');
    SlotRange(views[i], shapes[i], P, userData, h);
    SlotRange(views[i'], shapes[i'], P, userData, h');
    if a == a' {
      AddressInjective(bases[i], bases[i'], h, h', P);
      SameBase(bases, i, i');
    }
    if slot == slot' {
      AddressInjective(bases[i], bases[i'], d, d', P);
      SameBase(bases, i, i');
      SlotOwner(views[i], shapes[i], P, userData, h, h');
    }
  }

  lemma SameBase(bases: seq<nat>, i: nat, j: nat)
    requires Placed(bases) && i < |bases| && j < |bases| && bases[i] == bases[j]
    ensures i == j
  {
  }

  lemma SlotRange(s: Seg, sh: Shape, P: nat, userData: seq<bool>, h: nat)
    requires Inv(s, sh, P, userData) && h / 64 < |s.udata| && s.udata[h / 64] != BLOCK_INVALID
    ensures UserDataSlot(s, h) < 960 * P
  {
    hide Chains, FreeOk, Counts, Lines, Types;
  }

  lemma SlotOwner(s: Seg, sh: Shape, P: nat, userData: seq<bool>, g: nat, h: nat)
    requires Inv(s, sh, P, userData) && g / 64 < |s.udata| && s.udata[g / 64] != BLOCK_INVALID
    requires h / 64 < |s.udata| && s.udata[h / 64] != BLOCK_INVALID && UserDataSlot(s, g) == UserDataSlot(s, h)
    ensures g == h
  {
    hide Chains, FreeOk, Counts, Lines, Types;
    assert s.udata[g / 64] == s.udata[h / 64] && g % 64 == h % 64;
  }

  lemma SlotsSame(bases: seq<nat>, views: seq<Seg>, used: set<nat>, P: nat)
    ensures SlotsStay(bases, views, bases, views, used, P)
  {
  }

  lemma SlotsLater(bases: seq<nat>, views: seq<Seg>, bases': seq<nat>, views': seq<Seg>, bases'': seq<nat>,
      views'': seq<Seg>,
                   used: set<nat>, used': set<nat>, kept: set<nat>, P: nat)
    requires SlotsStay(bases, views, bases', views', used, P) && SlotsStay(bases', views', bases'', views'', used', P)
    requires kept <= used && kept <= used'
    ensures SlotsStay(bases, views, bases'', views'', kept, P)
  {
    hide SlotAt;
  }

  /** A segment in which surviving blocks keep their data blocks and no block with handles in use goes. */
  lemma SlotsTaken(bases: seq<nat>, masks: seq<seq<Word>>, views: seq<Seg>, used: set<nat>, P: nat, i: nat, s: Seg,
      userData: seq<bool>, sh: Shape)
    requires InSync(bases, masks, used, P) && i < |bases| == |views| && Inv(views[i], sh, P, userData)
    requires KeepsUsed(views[i].btype, s.btype, masks[i]) && LinksStay(views[i], s)
    ensures SlotsStay(bases, views, bases, views[i := s], used, P)
  {
    hide Inv, KeepsUsed, LinksStay;
    forall a, slot: nat | a in used && SlotAt(bases, views, a, slot, P)
        ensures SlotAt(bases, views[i := s], a, slot, P) {
      var j, h: nat :| 0 <= j < |bases| && h < 960 * P && a == Address(bases[j], h, P)
          && SlotIn(bases[j], views[j], h, slot, P);
      if j == i {
        assert !FreeAt(masks[j], h);
        SlotKept(views[i], s, masks[i], h, sh, P, userData);
      }
      assert SlotIn(bases[j], views[i := s][j], h, slot, P);
    }
  }

  lemma SlotKept(s0: Seg, s1: Seg, mask: seq<Word>, h: nat, sh: Shape, P: nat, userData: seq<bool>)
    requires Inv(s0, sh, P, userData) && KeepsUsed(s0.btype, s1.btype, mask) && LinksStay(s0, s1)
    requires h / 64 < |s0.udata| && s0.udata[h / 64] != BLOCK_INVALID && h < 32 * |mask| && !FreeAt(mask, h)
    ensures h / 64 < |s1.udata| && s1.udata[h / 64] == s0.udata[h / 64]
  {
    hide Chains, FreeOk, Counts, Lines, Types;
    UsedNotEmpty(mask, h);
    UsedLinks(s0, s1, mask, h / 64);
  }

  lemma SlotsInserted(bases: seq<nat>, views: seq<Seg>, used: set<nat>, P: nat, p: nat, base: nat, s: Seg)
    requires p <= |bases| == |views|
    ensures SlotsStay(bases, views, bases[..p] + [base] + bases[p..], views[..p] + [s] + views[p..], used, P)
  {
    var bases', views' := bases[..p] + [base] + bases[p..], views[..p] + [s] + views[p..];
    forall a, slot: nat | a in used && SlotAt(bases, views, a, slot, P) ensures SlotAt(bases', views', a, slot, P) {
      var i, h: nat :| 0 <= i < |bases| && h < 960 * P && a == Address(bases[i], h, P)
          && SlotIn(bases[i], views[i], h, slot, P);
      var j := if i < p then i else i + 1;
      assert a == Address(bases'[j], h, P) && bases'[j] == bases[i] && views'[j] == views[i];
    }
  }

  // ---------------------------------------------------------------- no idle blocks are left behind

  /** In every segment, every block of type `t` that is idle was so before. */
  ghost predicate AllKeptTidy(v0: seq<Seg>, v1: seq<Seg>, t: nat) {
    |v1| == |v0| && forall i | 0 <= i < |v0| :: KeptTidy(v0[i], v1[i], t)
  }

  lemma AllTidyStart(v: seq<Seg>, t: nat)
    ensures AllKeptTidy(v, v, t)
  {
  }

  lemma AllTidyOne(v: seq<Seg>, j: nat, s: Seg, t: nat)
    requires j < |v| && KeptTidy(v[j], s, t)
    ensures AllKeptTidy(v, v[j := s], t)
  {
  }

  lemma AllTidyMore(v0: seq<Seg>, v1: seq<Seg>, v2: seq<Seg>, t: nat)
    requires AllKeptTidy(v0, v1, t) && AllKeptTidy(v1, v2, t)
    ensures AllKeptTidy(v0, v2, t)
  {
    forall i | 0 <= i < |v0| ensures KeptTidy(v0[i], v2[i], t) { KeptTidyMore(v0[i], v1[i], v2[i], t); }
  }

  /** The place of a handle in memory, counted in handles. */
  function Ranks(hs: seq<nat>, P: nat): seq<int> {
    seq(|hs|, k requires 0 <= k < |hs| => hs[k] / HandleSize(P))
  }

  lemma GroupedRanks(hs: seq<nat>, i: nat, j: nat, P: nat)
    requires Grouped(Ranks(hs, P)) && i <= j <= |hs|
    ensures Grouped(Ranks(hs[i..j], P))
  {
    GroupedPart(Ranks(hs, P), i, j);
    assert Ranks(hs[i..j], P) == Ranks(hs, P)[i..j];
  }

  /** Masks begin at multiples of 32 handles, so grouping by mask does not depend on the segment one counts from. */
  lemma GroupedNumbers(base: nat, hs: seq<nat>, P: nat)
    requires (P == 8 || P == 16) && base % SEGMENT_SIZE == 0 && Grouped(Ranks(hs, P))
    ensures Grouped(Numbers(base, hs, P))
  {
    var ns, rs := Numbers(base, hs, P), Ranks(hs, P);
    var c := (base + HEADER_SIZE) / (32 * HandleSize(P));
    forall k | 0 <= k < |hs| ensures ns[k] / 32 == rs[k] / 32 - c { MaskNumber(base, hs[k], P); }
  }

  lemma MaskNumber(base: nat, a: nat, P: nat)
    requires (P == 8 || P == 16) && base % SEGMENT_SIZE == 0
    ensures NumberIn(base, a, P) / 32 == a / HandleSize(P) / 32 - (base + HEADER_SIZE) / (32 * HandleSize(P))
  {
    var q := base / SEGMENT_SIZE;
    if P == 8 { Shifted(a, 256 * q + 16, 8); } else { Shifted(a, 512 * q + 32, 4); }
  }

  lemma Shifted(a: int, c: int, size: nat)
    requires size == 4 || size == 8
    ensures (a - 32 * size * c) / size / 32 == a / size / 32 - c && 32 * size * c / (32 * size) == c
  {
    if size == 8 { assert (a - 256 * c) / 8 == a / 8 - 32 * c; } else { assert (a - 128 * c) / 4 == a / 4 - 32 * c; }
  }

  /** A sorted list of handles without a clash of sequence numbers is grouped by masks. */
  lemma SortedGrouped(sequence: nat -> nat, r: seq<nat>, P: nat)
    requires (P == 8 || P == 16) && r != [] && Distinct(r) && !QuickSort.Clash(sequence, Elems(r))
    requires QuickSort.Sorted(r, 0, |r| - 1, QuickSort.FreeOrder(sequence))
    ensures Grouped(Ranks(r, P))
  {
    var rs, cmp := Ranks(r, P), QuickSort.FreeOrder(sequence);
    forall i, j, k | 0 <= i < j < k < |rs| && rs[i] / 32 == rs[k] / 32 ensures rs[j] / 32 == rs[i] / 32 {
      SameMask(r[i], r[k], P);
      assert r[i] != r[k] && r[i] in Elems(r) && r[j] in Elems(r) && r[k] in Elems(r);
      assert cmp(r[i], r[j]) <= 0 && cmp(r[j], r[k]) <= 0;
      assert QuickSort.SegmentOf(r[j]) == QuickSort.SegmentOf(r[i]);
      MaskBetween(r[i], r[j], r[k], P);
    }
  }

  lemma SameMask(a: nat, b: nat, P: nat)
    requires (P == 8 || P == 16) && a / HandleSize(P) / 32 == b / HandleSize(P) / 32
    ensures QuickSort.SegmentOf(a) == QuickSort.SegmentOf(b)
  {
    forall x: nat ensures x / SEGMENT_SIZE == (if P == 8 then x / 8 / 32 / 256 else x / 4 / 32 / 512) {}
  }

  lemma MaskBetween(a: nat, b: nat, c: nat, P: nat)
    requires (P == 8 || P == 16) && a >= b >= c && a / HandleSize(P) / 32 == c / HandleSize(P) / 32
    ensures b / HandleSize(P) / 32 == a / HandleSize(P) / 32
  {
  }

  /** Two of the handles clash in their sequence numbers. */
  ghost predicate Clashing(bases: seq<nat>, sequences: seq<nat>, hs: seq<nat>)
    requires |sequences| == |bases|
  {
    QuickSort.Clash(Sequencing(bases, sequences), Elems(hs))
  }

  lemma ElemsSame(hs: seq<nat>, r: seq<nat>)
    requires Elems(r) == Elems(hs)
    ensures forall a | a in r :: a in hs
  {
    forall a | a in r ensures a in hs { assert a in Elems(r); }
  }

  lemma ClashingSame(bases: seq<nat>, sequences: seq<nat>, hs: seq<nat>, r: seq<nat>)
    requires |sequences| == |bases| && !Clashing(bases, sequences, hs) && Elems(r) == Elems(hs)
    ensures !QuickSort.Clash(Sequencing(bases, sequences), Elems(r))
      && !QuickSort.Clash(Sequencing(bases, sequences), Elems(hs))
  {
  }

  lemma ClashingPiece(bases: seq<nat>, sequences: seq<nat>, hs: seq<nat>, i: nat, n: nat)
    requires |sequences| == |bases| && !Clashing(bases, sequences, hs) && i + n <= |hs|
    ensures !Clashing(bases, sequences, hs[i..][..n])
  {
    ClashingPart(bases, sequences, hs, hs[i..][..n]);
  }

  lemma ClashingPart(bases: seq<nat>, sequences: seq<nat>, hs: seq<nat>, ps: seq<nat>)
    requires |sequences| == |bases| && !Clashing(bases, sequences, hs) && Elems(ps) <= Elems(hs)
    ensures !Clashing(bases, sequences, ps)
  {
  }

  /** The sequence numbers of all segments, by segment number. */
  function Sequencing(bases: seq<nat>, sequences: seq<nat>): nat -> nat
    requires |sequences| == |bases|
  {
    (n: nat) => SequenceOf(bases, sequences, n)
  }

  /** The free order of the handles of a table. */
  function TableOrder(bases: seq<nat>, sequences: seq<nat>): QuickSort.Compare
    requires |sequences| == |bases|
  {
    QuickSort.FreeOrder(Sequencing(bases, sequences))
  }

  /** The sequence number of segment number `n`, given the bases and sequence numbers of all segments. */
  function SequenceOf(bases: seq<nat>, sequences: seq<nat>, n: nat): nat
    requires |sequences| == |bases|
  {
    if bases == [] then 0
    else if bases[0] / SEGMENT_SIZE == n then sequences[0]
    else SequenceOf(bases[1..], sequences[1..], n)
  }

  lemma BasesDiffer(bases: seq<nat>, i: nat, j: nat)
    requires Placed(bases) && i < |bases| && j < |bases| && i != j
    ensures bases[i] != bases[j]
  {
  }

  lemma PlacedInsert(bases: seq<nat>, p: nat, base: nat)
    requires Placed(bases) && p <= |bases| && base % SEGMENT_SIZE == 0
    requires (p > 0 ==> bases[p - 1] < base) && (p < |bases| ==> base < bases[p])
    ensures Placed(bases[..p] + [base] + bases[p..])
  {
    var b := bases[..p] + [base] + bases[p..];
    assert forall i | 0 <= i < |b| :: b[i] == if i < p then bases[i] else if i == p then base else bases[i - 1];
  }

  lemma TypesStaySame(bases: seq<nat>, btypes: seq<seq<nat>>, used: set<nat>, P: nat)
    ensures TypesStay(bases, btypes, bases, btypes, used, P)
  {
  }

  /** The handles a bulk request has collected so far, and what they did to the table. */
  ghost predicate Bulk(bases0: seq<nat>, btypes0: seq<seq<nat>>, used0: set<nat>, bases: seq<nat>,
      btypes: seq<seq<nat>>, used: set<nat>,
                       hs: seq<nat>, t: nat, P: nat) {
    && used == used0 + Elems(hs) && (forall a | a in hs :: a !in used0) && Distinct(hs)
    && AllOfType(bases, btypes, hs, t, P) && TypesStay(bases0, btypes0, bases, btypes, used0, P)
  }

  lemma BulkStart(bases: seq<nat>, btypes: seq<seq<nat>>, used: set<nat>, t: nat, P: nat)
    ensures Bulk(bases, btypes, used, bases, btypes, used, [], t, P)
  {
  }

  /** A new segment has two committed free blocks, so the first request is not refused. */
  lemma FreshGives(P: nat, t: nat, userData: seq<bool>)
    requires (P == 8 || P == 16) && t < |userData|
    ensures !CannotInsert(FirstBlocks(15 * P), P, t, userData)
  {
  }

  lemma BulkMore(bases0: seq<nat>, btypes0: seq<seq<nat>>, used0: set<nat>, bases: seq<nat>, btypes: seq<seq<nat>>,
      used: set<nat>,
                 bases': seq<nat>, btypes': seq<seq<nat>>, used': set<nat>, hs: seq<nat>, got: seq<nat>, t: nat, P: nat)
    requires t < MAX_PUBLIC_TYPES && Bulk(bases0, btypes0, used0, bases, btypes, used, hs, t, P)
    requires TypesStay(bases, btypes, bases', btypes', used, P) && AllOfType(bases', btypes', got, t, P)
      && Distinct(got)
    requires (forall a | a in got :: a !in used) && used' == used + Elems(got)
    ensures Bulk(bases0, btypes0, used0, bases', btypes', used', hs + got, t, P)
  {
    hide TypeAt;
    assert forall k | 0 <= k < |hs| :: hs[k] in hs;
    assert forall k | 0 <= k < |got| :: got[k] in got;
    forall k | 0 <= k < |hs| ensures TypeAt(bases', btypes', hs[k], t, P) {
      assert TypeAt(bases, btypes, hs[k], t, P);
    }
  }

  lemma BulkBoth(bases0: seq<nat>, btypes0: seq<seq<nat>>, used0: set<nat>, bases: seq<nat>, btypes: seq<seq<nat>>,
      used: set<nat>,
                 bases': seq<nat>, btypes': seq<seq<nat>>, used': set<nat>, hs: seq<nat>, got: seq<nat>, t: nat, P: nat)
    requires t < MAX_PUBLIC_TYPES && Bulk(bases0, btypes0, used0, bases, btypes, used, hs, t, P)
    requires Bulk(bases, btypes, used, bases', btypes', used', got, t, P)
    ensures Bulk(bases0, btypes0, used0, bases', btypes', used', hs + got, t, P)
  {
    BulkMore(bases0, btypes0, used0, bases, btypes, used, bases', btypes', used', hs, got, t, P);
  }

  lemma BulkGrown(bases0: seq<nat>, btypes0: seq<seq<nat>>, used0: set<nat>, bases: seq<nat>, btypes: seq<seq<nat>>,
                  bases': seq<nat>, btypes': seq<seq<nat>>, used: set<nat>, hs: seq<nat>, t: nat, P: nat)
    requires t < MAX_PUBLIC_TYPES && Bulk(bases0, btypes0, used0, bases, btypes, used, hs, t, P)
    requires TypesStay(bases, btypes, bases', btypes', used, P)
    ensures Bulk(bases0, btypes0, used0, bases', btypes', used, hs, t, P)
  {
    hide TypeAt;
    forall k | 0 <= k < |hs| ensures TypeAt(bases', btypes', hs[k], t, P) {
      assert TypeAt(bases, btypes, hs[k], t, P) && hs[k] in hs;
    }
  }

  /** What a request does to the segments it finds: those it asks, which are the first ones, give all they have, but for
      the last one unless `all`; the others stay as they are; and all keep their sequence numbers. */
  ghost predicate AskedInOrder(views0: seq<Seg>, shapes0: seq<Shape>, seqs0: seq<nat>, views: seq<Seg>,
      shapes: seq<Shape>,
                               seqs: seq<nat>, took: seq<nat>, t: nat, userData: seq<bool>, all: bool)
    requires t < |userData|
  {
    && |views| == |views0| == |shapes| == |shapes0| && |took| <= |views| && seqs == seqs0
    && (forall k | 0 <= k < |took| && (all || k + 1 < |took|) :: Spent(took[k], views0[k], shapes0[k], t, userData))
    && (forall k | |took| <= k < |views| :: views[k] == views0[k] && shapes[k] == shapes0[k])
  }

  lemma AskedNone(views: seq<Seg>, shapes: seq<Shape>, seqs: seq<nat>, t: nat, userData: seq<bool>)
    requires t < |userData| && |shapes| == |views|
    ensures AskedInOrder(views, shapes, seqs, views, shapes, seqs, [], t, userData, true)
  {
  }

  lemma AskedFewer(views0: seq<Seg>, shapes0: seq<Shape>, seqs0: seq<nat>, views: seq<Seg>, shapes: seq<Shape>,
      seqs: seq<nat>,
                   took: seq<nat>, t: nat, userData: seq<bool>, all: bool)
    requires t < |userData| && AskedInOrder(views0, shapes0, seqs0, views, shapes, seqs, took, t, userData, all)
    ensures AskedInOrder(views0, shapes0, seqs0, views, shapes, seqs, took, t, userData, false) && seqs == seqs0
  {
    hide Spent;
  }

  lemma AskedNext(views0: seq<Seg>, shapes0: seq<Shape>, seqs0: seq<nat>, views: seq<Seg>, shapes: seq<Shape>,
      seqs: seq<nat>,
                  took: seq<nat>, t: nat, userData: seq<bool>, s: Seg, sh: Shape, n: nat, all: bool)
    requires t < |userData| && AskedInOrder(views0, shapes0, seqs0, views, shapes, seqs, took, t, userData, true)
    requires |took| < |views| && (all ==> Spent(n, views[|took|], shapes[|took|], t, userData))
    ensures AskedInOrder(views0, shapes0, seqs0, views[|took| := s], shapes[|took| := sh], seqs, took + [n], t,
      userData, all)
  {
    hide Spent;
  }

  lemma BulkEnd(bases0: seq<nat>, btypes0: seq<seq<nat>>, used0: set<nat>, bases: seq<nat>, btypes: seq<seq<nat>>,
      used: set<nat>,
                hs: seq<nat>, t: nat, P: nat)
    requires Bulk(bases0, btypes0, used0, bases, btypes, used, hs, t, P)
    ensures used == used0 + Elems(hs) && (forall a | a in hs :: a !in used0) && Distinct(hs)
    ensures AllOfType(bases, btypes, hs, t, P) && TypesStay(bases0, btypes0, bases, btypes, used0, P)
    ensures |used| == |used0| + |hs|
  {
    DistinctSet(hs);
    assert used0 !! Elems(hs);
  }

  /** Of a list of handles of type `t`, those that lie in segment `j` lie in blocks of type `t`. */
  lemma GivenTypes(bases: seq<nat>, masks: seq<seq<Word>>, btypes: seq<seq<nat>>, used: set<nat>, P: nat, j: nat,
      hs: seq<nat>, t: nat)
    requires (P == 8 || P == 16) && Placed(bases) && InSync(bases, masks, used, P) && j < |bases| == |btypes|
      && |btypes[j]| == 15 * P
    requires AllOfType(bases, btypes, hs, t, P)
    ensures var ns := Numbers(bases[j], hs, P); forall k | 0 <= k < |ns|
      && 0 <= ns[k] < 960 * P :: btypes[j][ns[k] / 64] == t
  {
    var ns := Numbers(bases[j], hs, P);
    forall k | 0 <= k < |ns| && 0 <= ns[k] < 960 * P ensures btypes[j][ns[k] / 64] == t {
      assert TypeAt(bases, btypes, hs[k], t, P);
      var i, h: nat :| 0 <= i < |bases| && h < 960 * P && hs[k] == Address(bases[i], h, P) && h / 64 < |btypes[i]|
          && btypes[i][h / 64] == t;
      if bases[i] != bases[j] { AddressElsewhere(bases[j], bases[i], h, P); }
      AddressRoundTrip(bases[j], h, P);
    }
  }

  lemma GivenPrefix(bases: seq<nat>, masks: seq<seq<Word>>, used: set<nat>, P: nat, j: nat, hs: seq<nat>, ns: seq<int>,
      freed: nat)
    requires (P == 8 || P == 16) && Placed(bases) && InSync(bases, masks, used, P) && j < |bases| && hs != []
      && SegmentBase(hs[0]) == bases[j]
    requires (forall a | a in hs :: a in used) && ns == Numbers(bases[j], hs, P) && PrefixInside(ns, freed, 0, 960 * P)
    ensures 0 < freed <= |hs| && ns[..freed] == Numbers(bases[j], hs[..freed], P)
      && Inside(Numbers(bases[j], hs[..freed], P), 0, 960 * P)
    ensures forall k | 0 <= k < |hs[..freed]| :: hs[..freed][k] in used
  {
    assert IsHandle(bases, hs[0], P);
    var i, h: nat :| 0 <= i < |bases| && h < 960 * P && hs[0] == Address(bases[i], h, P);
    AddressRoundTrip(bases[i], h, P);
    assert ns[0] == h;
    assert ns[..freed] == Numbers(bases[j], hs[..freed], P);
  }

  /** The first `i` handles of a bulk release are gone. */
  ghost predicate Release(bases0: seq<nat>, btypes0: seq<seq<nat>>, used0: set<nat>, bases: seq<nat>,
      btypes: seq<seq<nat>>, used: set<nat>,
                          hs: seq<nat>, i: nat, t: nat, P: nat) {
    && i <= |hs| && Distinct(hs) && (forall a | a in hs :: a in used0) && used == used0 - Elems(hs[..i])
    && AllOfType(bases, btypes, hs[i..], t, P) && TypesStay(bases0, btypes0, bases, btypes, used, P)
  }

  lemma ReleaseStart(bases: seq<nat>, btypes: seq<seq<nat>>, used: set<nat>, hs: seq<nat>, t: nat, P: nat)
    requires Distinct(hs) && (forall a | a in hs :: a in used) && AllOfType(bases, btypes, hs, t, P)
    ensures Release(bases, btypes, used, bases, btypes, used, hs, 0, t, P)
  {
    assert hs[0..] == hs;
    assert Elems(hs[..0]) == {};
  }

  lemma ReleaseNext(bases0: seq<nat>, btypes0: seq<seq<nat>>, used0: set<nat>, bases: seq<nat>, btypes: seq<seq<nat>>,
      used: set<nat>,
                    hs: seq<nat>, i: nat, t: nat, P: nat)
    requires Release(bases0, btypes0, used0, bases, btypes, used, hs, i, t, P) && i < |hs|
    ensures var r := hs[i..];
      r != [] && r[0] == hs[i] && Distinct(r) && (forall a | a in r :: a in used) && AllOfType(bases, btypes, r, t, P)
  {
    var r := hs[i..];
    forall a | a in r ensures a in used {
      var k :| 0 <= k < |r| && r[k] == a;
      assert hs[i + k] == a && hs[i + k] in hs;
    }
  }

  lemma ReleaseMore(bases0: seq<nat>, btypes0: seq<seq<nat>>, used0: set<nat>, bases: seq<nat>, btypes: seq<seq<nat>>,
      used: set<nat>,
                    bases': seq<nat>, btypes': seq<seq<nat>>, used': set<nat>, hs: seq<nat>, i: nat, n: nat, t: nat,
                        P: nat)
    requires Release(bases0, btypes0, used0, bases, btypes, used, hs, i, t, P) && i + n <= |hs| && t < MAX_PUBLIC_TYPES
    requires TypesStay(bases, btypes, bases', btypes', used', P) && used' == used - Elems(hs[i..][..n])
    ensures Release(bases0, btypes0, used0, bases', btypes', used', hs, i + n, t, P)
  {
    hide TypeAt;
    assert hs[..i + n] == hs[..i] + hs[i..][..n];
    var r := hs[i + n..];
    forall k | 0 <= k < |r| ensures TypeAt(bases', btypes', r[k], t, P) {
      assert r[k] == hs[i..][n + k] && r[k] == hs[i + n + k] && r[k] in hs;
      assert r[k] !in hs[..i + n];
      assert TypeAt(bases, btypes, hs[i..][n + k], t, P);
    }
  }

  lemma ReleaseEnd(bases0: seq<nat>, btypes0: seq<seq<nat>>, used0: set<nat>, bases: seq<nat>, btypes: seq<seq<nat>>,
      used: set<nat>,
                   hs: seq<nat>, t: nat, P: nat)
    requires Release(bases0, btypes0, used0, bases, btypes, used, hs, |hs|, t, P)
    ensures used == used0 - Elems(hs) && |used| == |used0| - |hs| && TypesStay(bases0, btypes0, bases, btypes, used, P)
  {
    assert hs[..|hs|] == hs;
    DistinctSet(hs);
    assert Elems(hs) <= used0;
  }

  /** Sorting changes neither which handles are in the list nor that each is there once. */
  lemma SortedSame(s: seq<nat>, r: seq<nat>, bases: seq<nat>, btypes: seq<seq<nat>>, t: nat, P: nat)
    requires s != [] && QuickSort.Perm(s, r, 0, |s| - 1) && Distinct(s) && AllOfType(bases, btypes, s, t, P)
    ensures r != [] && Distinct(r) && Elems(r) == Elems(s) && AllOfType(bases, btypes, r, t, P)
  {
    assert s[0..|s|] == s && r[0..|s|] == r;
    assert multiset(r) == multiset(s);
    DistinctBag(s);
    forall a ensures a in r <==> a in s { assert a in multiset(r) <==> a in multiset(s); }
    BagDistinct(r);
    forall k | 0 <= k < |r| ensures TypeAt(bases, btypes, r[k], t, P) {
      assert r[k] in r;
      var j :| 0 <= j < |s| && s[j] == r[k];
      assert TypeAt(bases, btypes, s[j], t, P);
    }
  }

  lemma {:induction false} DistinctBag(s: seq<nat>)
    requires Distinct(s)
    ensures forall a :: multiset(s)[a] <= 1
  {
    if s != [] {
      var d, x := s[..|s| - 1], s[|s| - 1];
      assert s == d + [x];
      DistinctBag(d);
      assert x !in d;
    }
  }

  lemma BagDistinct(s: seq<nat>)
    requires forall a :: multiset(s)[a] <= 1
    ensures Distinct(s)
  {
    forall i, j | 0 <= i < j < |s| ensures s[i] != s[j] {
      assert s == s[..j] + s[j..];
      assert s[i] in multiset(s[..j]) && s[j] in multiset(s[j..]);
      assert multiset(s)[s[i]] == multiset(s[..j])[s[i]] + multiset(s[j..])[s[i]];
    }
  }

  lemma PieceOf(r: seq<nat>, n: nat, bases: seq<nat>, btypes: seq<seq<nat>>, t: nat, P: nat)
    requires 0 < n <= |r| && Distinct(r) && AllOfType(bases, btypes, r, t, P)
    ensures r[..n] != [] && Distinct(r[..n]) && AllOfType(bases, btypes, r[..n], t, P)
      && forall a | a in r[..n] :: a in r
  {
    hide TypeAt;
    forall k | 0 <= k < n ensures TypeAt(bases, btypes, r[..n][k], t, P) { assert TypeAt(bases, btypes, r[k], t, P); }
  }

  // ---------------------------------------------------------------- the visits of a release to the segments

  /** How many handles at the front of the list lie in the segment of the first one. */
  function SegRun(hs: seq<nat>): (n: nat)
    requires hs != []
    ensures 0 < n <= |hs| && (forall k | 0 <= k < n :: SegmentBase(hs[k]) == SegmentBase(hs[0]))
    ensures n < |hs| ==> SegmentBase(hs[n]) != SegmentBase(hs[0])
  {
    if |hs| == 1 || SegmentBase(hs[1]) != SegmentBase(hs[0]) then 1 else 1 + SegRun(hs[1..])
  }

  /** What the first round of a release frees in the segment at `base`. */
  function FirstVisit(base: nat, hs: seq<nat>, P: nat): seq<seq<int>>
    requires hs != []
  {
    if SegmentBase(hs[0]) == base then [Numbers(base, hs[..SegRun(hs)], P)] else []
  }

  /** What a release of `hs` frees in the segment at `base`, visit by visit. */
  function Visits(base: nat, hs: seq<nat>, P: nat): seq<seq<int>>
    decreases |hs|
  {
    if hs == [] then [] else FirstVisit(base, hs, P) + Visits(base, hs[SegRun(hs)..], P)
  }

  function FirstAll(bases: seq<nat>, hs: seq<nat>, P: nat): (r: seq<seq<seq<int>>>)
    requires hs != []
    ensures |r| == |bases|
  {
    seq(|bases|, i requires 0 <= i < |bases| => FirstVisit(bases[i], hs, P))
  }

  function VisitsAll(bases: seq<nat>, hs: seq<nat>, P: nat): (r: seq<seq<seq<int>>>)
    ensures |r| == |bases|
  {
    seq(|bases|, i requires 0 <= i < |bases| => Visits(bases[i], hs, P))
  }

  /** `QuickSort` on a whole list of handles. */
  function FreeOrdered(hs: seq<nat>, cmp: QuickSort.Compare): (r: seq<nat>)
    ensures |r| == |hs|
  {
    if hs == [] then [] else QuickSort.SortOf(hs, 0, |hs| - 1, cmp)
  }

  /** The visits of a release that sorts and frees `n` handles at a time. */
  function PiecesAll(bases: seq<nat>, hs: seq<nat>, n: nat, cmp: QuickSort.Compare, P: nat): (r: seq<seq<seq<int>>>)
    requires n > 0
    ensures |r| == |bases|
    decreases |hs|
  {
    if |hs| <= n then VisitsAll(bases, FreeOrdered(hs, cmp), P)
    else Join(VisitsAll(bases, FreeOrdered(hs[..n], cmp), P), PiecesAll(bases, hs[n..], n, cmp, P))
  }

  /** Visits to every segment after others. */
  function Join(a: seq<seq<seq<int>>>, b: seq<seq<seq<int>>>): (r: seq<seq<seq<int>>>)
    requires |a| == |b|
    ensures |r| == |a|
  {
    seq(|a|, i requires 0 <= i < |a| => a[i] + b[i])
  }

  function NoVisits(n: nat): (r: seq<seq<seq<int>>>)
    ensures |r| == n
  {
    seq(n, _ => [])
  }

  lemma JoinAll(a: seq<seq<seq<int>>>, b: seq<seq<seq<int>>>, c: seq<seq<seq<int>>>)
    requires |a| == |b| == |c|
    ensures Join(Join(a, b), c) == Join(a, Join(b, c)) && Join(NoVisits(|a|), a) == a && Join(a, NoVisits(|a|)) == a
  {
    forall i | 0 <= i < |a| ensures Join(Join(a, b), c)[i] == Join(a, Join(b, c))[i] {
      assert (a[i] + b[i]) + c[i] == a[i] + (b[i] + c[i]);
    }
    forall i | 0 <= i < |a| ensures Join(NoVisits(|a|), a)[i] == a[i] { assert [] + a[i] == a[i]; }
    forall i | 0 <= i < |a| ensures Join(a, NoVisits(|a|))[i] == a[i] { assert a[i] + [] == a[i]; }
  }

  lemma VisitsNext(bases: seq<nat>, hs: seq<nat>, P: nat)
    ensures hs != [] ==> VisitsAll(bases, hs, P) == Join(FirstAll(bases, hs, P), VisitsAll(bases, hs[SegRun(hs)..], P))
    ensures hs == [] ==> VisitsAll(bases, hs, P) == NoVisits(|bases|)
  {
  }

  /** Every segment is what the visits make of it. */
  ghost predicate AllReleased(v0: seq<Seg>, v1: seq<Seg>, t: nat, vss: seq<seq<seq<int>>>) {
    |v0| == |v1| == |vss| && forall i | 0 <= i < |v0| :: Released(v0[i], v1[i], t, vss[i])
  }

  ghost predicate AllTyped(v: seq<Seg>, t: nat, vss: seq<seq<seq<int>>>) {
    |v| == |vss| && forall i | 0 <= i < |v| :: TypedIn(v[i], t, vss[i])
  }

  /** No block of type `t` in any segment is missed. */
  ghost predicate NoneMissed(v: seq<Seg>, t: nat, vss: seq<seq<seq<int>>>)
    requires |v| == |vss|
  {
    forall i, b: nat | 0 <= i < |v| :: !Missed(v[i], t, vss[i], b)
  }

  lemma AllReleasedNone(v: seq<Seg>, t: nat)
    requires forall i | 0 <= i < |v| :: |v[i].mask| == 2 * |v[i].btype| && |v[i].locks| == |v[i].btype|
    ensures AllReleased(v, v, t, NoVisits(|v|))
  {
    forall i | 0 <= i < |v| ensures Released(v[i], v[i], t, []) { ReleasedNone(v[i], t); }
  }

  lemma AllReleasedMore(v0: seq<Seg>, v1: seq<Seg>, v2: seq<Seg>, t: nat, a: seq<seq<seq<int>>>, b: seq<seq<seq<int>>>)
    requires AllReleased(v0, v1, t, a) && AllReleased(v1, v2, t, b) && AllTyped(v1, t, b) && t < MAX_PUBLIC_TYPES
    ensures AllReleased(v0, v2, t, Join(a, b))
  {
    hide Released, TypedIn;
    forall i | 0 <= i < |v0| ensures Released(v0[i], v2[i], t,
        Join(a, b)[i]) { ReleasedMore(v0[i], v1[i], v2[i], t, a[i], b[i]); }
  }

  /** A release leaves no block idle in any segment that was not so before exactly if it misses none. */
  lemma AllTidyExactly(v0: seq<Seg>, v1: seq<Seg>, t: nat, vss: seq<seq<seq<int>>>)
    requires AllReleased(v0, v1, t, vss) && t < MAX_PUBLIC_TYPES
    ensures AllKeptTidy(v0, v1, t) <==> NoneMissed(v0, t, vss)
  {
    hide Released, KeptTidy, Missed;
    forall i | 0 <= i < |v0| ensures KeptTidy(v0[i], v1[i], t) <==> forall b: nat :: !Missed(v0[i], t, vss[i], b) {
      TidyExactly(v0[i], v1[i], t, vss[i]);
    }
  }

  /** A handle of the table lies in a segment exactly if its number there is in range. */
  lemma InSegment(bases: seq<nat>, j: nat, a: nat, P: nat)
    requires (P == 8 || P == 16) && Placed(bases) && IsHandle(bases, a, P) && j < |bases|
    ensures SegmentBase(a) == bases[j] <==> 0 <= NumberIn(bases[j], a, P) < 960 * P
  {
    var i, h: nat :| 0 <= i < |bases| && h < 960 * P && a == Address(bases[i], h, P);
    AddressRoundTrip(bases[i], h, P);
    if bases[i] != bases[j] { AddressElsewhere(bases[j], bases[i], h, P); }
  }

  /** The prefix that a segment frees is the run of handles that lie in it. */
  lemma RunIsPrefix(bases: seq<nat>, j: nat, hs: seq<nat>, n: nat, P: nat)
    requires (P == 8 || P == 16) && Placed(bases) && j < |bases| && hs != [] && SegmentBase(hs[0]) == bases[j]
    requires (forall k | 0 <= k < |hs| :: IsHandle(bases, hs[k], P))
      && PrefixInside(Numbers(bases[j], hs, P), n, 0, 960 * P)
    ensures n == SegRun(hs) && Numbers(bases[j], hs, P)[..n] == Numbers(bases[j], hs[..n], P)
  {
    hide IsHandle, Placed, SegRun, SegmentBase, NumberIn;
    var ns := Numbers(bases[j], hs, P);
    forall k | 0 <= k < |hs| ensures SegmentBase(hs[k]) == bases[j] <==>
        0 <= ns[k] < 960 * P { InSegment(bases, j, hs[k], P); }
    forall k | 0 <= k < n ensures SegmentBase(hs[k]) == bases[j] { assert ns[..n][k] == ns[k]; }
    RunIs(hs, n);
  }

  lemma RunIs(hs: seq<nat>, n: nat)
    requires hs != [] && n <= |hs| && (forall k | 0 <= k < n :: SegmentBase(hs[k]) == SegmentBase(hs[0]))
    requires n < |hs| ==> SegmentBase(hs[n]) != SegmentBase(hs[0])
    ensures n == SegRun(hs)
  {
    hide SegmentBase;
  }

  lemma FirstTyped(bases: seq<nat>, views: seq<Seg>, btypes: seq<seq<nat>>, hs: seq<nat>, t: nat, P: nat, i: nat)
    requires (P == 8 || P == 16) && Placed(bases) && |views| == |bases| == |btypes| && hs != []
      && AllOfType(bases, btypes, hs, t, P)
    requires i < |views| && btypes[i] == views[i].btype && |views[i].btype| == 15 * P
    ensures TypedIn(views[i], t, FirstVisit(bases[i], hs, P))
  {
    hide Placed;
    if SegmentBase(hs[0]) == bases[i] {
      var v := Numbers(bases[i], hs[..SegRun(hs)], P);
      forall k | 0 <= k < |v| ensures 0 <= v[k] / 64 < 15 * P && views[i].btype[v[k] / 64] == t {
        assert TypeAt(bases, btypes, hs[k], t, P);
        var j, h: nat :| 0 <= j < |bases| && h < 960 * P && hs[k] == Address(bases[j], h, P)
            && h / 64 < |btypes[j]| && btypes[j][h / 64] == t;
        PlacedBase(bases, j);
        AddressRoundTrip(bases[j], h, P);
        SameBase(bases, i, j);
      }
    }
  }

  lemma PlacedBase(bases: seq<nat>, j: nat)
    requires Placed(bases) && j < |bases|
    ensures bases[j] % SEGMENT_SIZE == 0
  {
  }

  lemma {:induction false} VisitsTyped(bases: seq<nat>, views: seq<Seg>, btypes: seq<seq<nat>>, hs: seq<nat>, t: nat,
      P: nat, i: nat)
    requires (P == 8 || P == 16) && Placed(bases) && |views| == |bases| == |btypes|
      && AllOfType(bases, btypes, hs, t, P)
    requires i < |views| && btypes[i] == views[i].btype && |views[i].btype| == 15 * P
    ensures TypedIn(views[i], t, Visits(bases[i], hs, P))
    decreases |hs|
  {
    hide Placed, FirstVisit, TypeAt;
    if hs != [] {
      FirstTyped(bases, views, btypes, hs, t, P, i);
      assert forall k {:trigger hs[SegRun(hs)..][k]} | 0 <= k < |hs| - SegRun(hs) ::
          hs[SegRun(hs)..][k] == hs[SegRun(hs) + k];
      VisitsTyped(bases, views, btypes, hs[SegRun(hs)..], t, P, i);
    }
  }

  /** One round of a release, for all segments. */
  lemma FirstReleased(bases: seq<nat>, v0: seq<Seg>, v1: seq<Seg>, t: nat, hs: seq<nat>, P: nat, j: nat)
    requires Placed(bases) && |v0| == |bases| && j < |v0| && hs != [] && SegmentBase(hs[0]) == bases[j]
      && |v1| == |v0| && v1 == v0[j := v1[j]]
    requires forall i | 0 <= i < |v0| :: |v0[i].mask| == 2 * |v0[i].btype| && |v0[i].locks| == |v0[i].btype|
    requires Released(v0[j], v1[j], t, [Numbers(bases[j], hs[..SegRun(hs)], P)])
    ensures AllReleased(v0, v1, t, FirstAll(bases, hs, P))
  {
    hide Released;
    forall i | 0 <= i < |v0| ensures Released(v0[i], v1[i], t, FirstAll(bases, hs, P)[i]) {
      if i != j {
        if bases[i] == bases[j] { SameBase(bases, i, j); }
        ReleasedNone(v0[i], t);
      }
    }
  }

  /** A visit to one segment leaves no block idle if its handles are grouped by masks. */
  lemma GroupedTidy(s0: Seg, s1: Seg, t: nat, base: nat, hs: seq<nat>, n: nat, P: nat)
    requires (P == 8 || P == 16) && base % SEGMENT_SIZE == 0 && n <= |hs| && Grouped(Ranks(hs, P))
      && t < MAX_PUBLIC_TYPES
    requires Released(s0, s1, t, [Numbers(base, hs[..n], P)])
    ensures KeptTidy(s0, s1, t)
  {
    hide Released, KeptTidy, Missed, Grouped, Ranks, Numbers;
    assert hs[0..n] == hs[..n];
    GroupedRanks(hs, 0, n, P);
    GroupedNumbers(base, hs[..n], P);
    var v := Numbers(base, hs[..n], P);
    FlatOne(v);
    forall b: nat ensures !Missed(s0, t, [v], b) { GroupedMissNone(s0, t, [v], b); }
    TidyExactly(s0, s1, t, [v]);
  }

  lemma AllFirstTyped(bases: seq<nat>, views: seq<Seg>, btypes: seq<seq<nat>>, hs: seq<nat>, t: nat, P: nat)
    requires (P == 8 || P == 16) && Placed(bases) && |views| == |bases| == |btypes| && hs != []
      && AllOfType(bases, btypes, hs, t, P)
    requires forall i | 0 <= i < |views| :: btypes[i] == views[i].btype && |views[i].btype| == 15 * P
    ensures AllTyped(views, t, FirstAll(bases, hs, P))
  {
    hide TypedIn, Placed, AllOfType;
    forall i | 0 <= i < |views| ensures TypedIn(views[i], t,
        FirstAll(bases, hs, P)[i]) { FirstTyped(bases, views, btypes, hs, t, P, i); }
  }

  /** The run of the first handle, for handles in use. */
  lemma UsedRun(bases: seq<nat>, masks: seq<seq<Word>>, used: set<nat>, P: nat, j: nat, hs: seq<nat>, n: nat)
    requires (P == 8 || P == 16) && Placed(bases) && InSync(bases, masks, used, P) && j < |bases| && hs != []
      && SegmentBase(hs[0]) == bases[j]
    requires (forall a | a in hs :: a in used) && PrefixInside(Numbers(bases[j], hs, P), n, 0, 960 * P)
    ensures n == SegRun(hs) && Numbers(bases[j], hs, P)[..n] == Numbers(bases[j], hs[..n], P)
  {
    forall k | 0 <= k < |hs| ensures IsHandle(bases, hs[k], P) { assert hs[k] in used; }
    RunIsPrefix(bases, j, hs, n, P);
  }

  /** The first `i` handles of a release are gone, and `done` are the visits so far. */
  ghost predicate Underway(bases: seq<nat>, v0: seq<Seg>, v: seq<Seg>, used: set<nat>, t: nat, hs: seq<nat>, i: nat,
                           done: seq<seq<seq<int>>>, P: nat) {
    && i <= |hs| && |done| == |bases| && SlotsStay(bases, v0, bases, v, used, P) && AllReleased(v0, v, t, done)
    && Join(done, VisitsAll(bases, hs[i..], P)) == VisitsAll(bases, hs, P) && (Grouped(Ranks(hs, P)) ==>
        AllKeptTidy(v0, v, t))
  }

  lemma UnderwayStart(bases: seq<nat>, v: seq<Seg>, used: set<nat>, t: nat, hs: seq<nat>, P: nat)
    requires |v| == |bases| && forall i | 0 <= i < |v| ::
      |v[i].mask| == 2 * |v[i].btype| && |v[i].locks| == |v[i].btype|
    ensures Underway(bases, v, v, used, t, hs, 0, NoVisits(|bases|), P)
  {
    hide SlotsStay, AllReleased, AllKeptTidy, VisitsAll, Join;
    AllTidyStart(v, t);
    SlotsSame(bases, v, used, P);
    AllReleasedNone(v, t);
    JoinAll(VisitsAll(bases, hs, P), NoVisits(|bases|), NoVisits(|bases|));
    assert hs[0..] == hs;
  }

  lemma UnderwayNext(bases: seq<nat>, v0: seq<Seg>, v1: seq<Seg>, v2: seq<Seg>, used1: set<nat>, used2: set<nat>,
      t: nat, hs: seq<nat>, i: nat,
                     done: seq<seq<seq<int>>>, P: nat)
    requires Underway(bases, v0, v1, used1, t, hs, i, done, P) && i < |hs| && used2 <= used1 && t < MAX_PUBLIC_TYPES
    requires SlotsStay(bases, v1, bases, v2, used2, P) && (Grouped(Ranks(hs[i..], P)) ==> AllKeptTidy(v1, v2, t))
    requires AllReleased(v1, v2, t, FirstAll(bases, hs[i..], P)) && AllTyped(v1, t, FirstAll(bases, hs[i..], P))
    ensures Underway(bases, v0, v2, used2, t, hs, i + SegRun(hs[i..]), Join(done, FirstAll(bases, hs[i..], P)), P)
  {
    hide SlotsStay, AllReleased, AllKeptTidy, VisitsAll, Join, AllTyped, FirstAll, Grouped, Ranks, SegRun;
    var r, n, first := hs[i..], SegRun(hs[i..]), FirstAll(bases, hs[i..], P);
    SlotsLater(bases, v0, bases, v1, bases, v2, used1, used2, used2, P);
    if Grouped(Ranks(hs, P)) {
      assert hs[i..|hs|] == r;
      GroupedRanks(hs, i, |hs|, P);
      AllTidyMore(v0, v1, v2, t);
    }
    AllReleasedMore(v0, v1, v2, t, done, first);
    VisitsNext(bases, r, P);
    JoinAll(done, first, VisitsAll(bases, r[n..], P));
    assert r[n..] == hs[i + n..];
  }

  lemma UnderwayEnd(bases: seq<nat>, v0: seq<Seg>, v: seq<Seg>, used: set<nat>, t: nat, hs: seq<nat>,
      done: seq<seq<seq<int>>>, P: nat)
    requires Underway(bases, v0, v, used, t, hs, |hs|, done, P) && t < MAX_PUBLIC_TYPES
    ensures SlotsStay(bases, v0, bases, v, used, P) && AllReleased(v0, v, t, VisitsAll(bases, hs, P))
    ensures Grouped(Ranks(hs, P)) ==> AllKeptTidy(v0, v, t)
    ensures |v0| == |bases| && (AllKeptTidy(v0, v, t) <==> NoneMissed(v0, t, VisitsAll(bases, hs, P)))
  {
    hide SlotsStay, Released, AllKeptTidy, VisitsAll, Join, Grouped, Ranks, NoneMissed;
    assert hs[|hs|..] == [];
    VisitsNext(bases, [], P);
    JoinAll(done, done, done);
    AllTidyExactly(v0, v, t, VisitsAll(bases, hs, P));
  }

  lemma PiecesNext(bases: seq<nat>, hs: seq<nat>, n: nat, m: nat, cmp: QuickSort.Compare, P: nat)
    requires n > 0 && hs != [] && m == if n > |hs| then |hs| else n
    ensures PiecesAll(bases, hs, n, cmp, P) == Join(VisitsAll(bases, FreeOrdered(hs[..m], cmp), P),
      PiecesAll(bases, hs[m..], n, cmp, P))
  {
    hide VisitsAll, Join, FreeOrdered;
    PiecesNone(bases, n, cmp, P);
    if |hs| <= n {
      assert hs[..m] == hs && hs[m..] == [];
      var a := VisitsAll(bases, FreeOrdered(hs, cmp), P);
      JoinAll(a, a, a);
    }
  }

  lemma PiecesNone(bases: seq<nat>, n: nat, cmp: QuickSort.Compare, P: nat)
    requires n > 0
    ensures PiecesAll(bases, [], n, cmp, P) == NoVisits(|bases|)
  {
    VisitsNext(bases, [], P);
  }

  /** The first `i` handles of a release in pieces of `n` are gone, and `done` are the visits so far. */
  ghost predicate InPieces(bases: seq<nat>, v0: seq<Seg>, v: seq<Seg>, used: set<nat>, t: nat, hs: seq<nat>, i: nat,
      n: nat, cmp: QuickSort.Compare,
                           done: seq<seq<seq<int>>>, P: nat)
    requires n > 0
  {
    && i <= |hs| && |done| == |bases| && SlotsStay(bases, v0, bases, v, used, P) && AllReleased(v0, v, t, done)
    && Join(done, PiecesAll(bases, hs[i..], n, cmp, P)) == PiecesAll(bases, hs, n, cmp, P)
  }

  lemma InPiecesStart(bases: seq<nat>, v: seq<Seg>, used: set<nat>, t: nat, hs: seq<nat>, n: nat,
      cmp: QuickSort.Compare, P: nat)
    requires n > 0 && |v| == |bases| && forall i | 0 <= i < |v| ::
      |v[i].mask| == 2 * |v[i].btype| && |v[i].locks| == |v[i].btype|
    ensures InPieces(bases, v, v, used, t, hs, 0, n, cmp, NoVisits(|bases|), P)
  {
    hide SlotsStay, AllReleased, PiecesAll, Join;
    SlotsSame(bases, v, used, P);
    AllReleasedNone(v, t);
    var all := PiecesAll(bases, hs, n, cmp, P);
    JoinAll(all, all, all);
    assert hs[0..] == hs;
  }

  lemma InPiecesNext(bases: seq<nat>, v0: seq<Seg>, v1: seq<Seg>, v2: seq<Seg>, used1: set<nat>, used2: set<nat>,
      t: nat, hs: seq<nat>, i: nat,
                     n: nat, m: nat, cmp: QuickSort.Compare, done: seq<seq<seq<int>>>, P: nat)
    requires n > 0 && InPieces(bases, v0, v1, used1, t, hs, i, n, cmp, done, P) && i < |hs| && used2 <= used1
      && t < MAX_PUBLIC_TYPES
    requires m == if n > |hs| - i then |hs| - i else n
    requires SlotsStay(bases, v1, bases, v2, used2, P)
    requires var vss := VisitsAll(bases, FreeOrdered(hs[i..][..m], cmp), P);
      AllReleased(v1, v2, t, vss) && AllTyped(v1, t, vss)
    ensures InPieces(bases, v0, v2, used2, t, hs, i + m, n, cmp,
      Join(done, VisitsAll(bases, FreeOrdered(hs[i..][..m], cmp), P)), P)
  {
    hide SlotsStay, AllReleased, VisitsAll, Join, AllTyped, PiecesAll, FreeOrdered;
    var r := hs[i..];
    var vss := VisitsAll(bases, FreeOrdered(r[..m], cmp), P);
    SlotsLater(bases, v0, bases, v1, bases, v2, used1, used2, used2, P);
    AllReleasedMore(v0, v1, v2, t, done, vss);
    PiecesNext(bases, r, n, m, cmp, P);
    JoinAll(done, vss, PiecesAll(bases, r[m..], n, cmp, P));
    assert r[m..] == hs[i + m..];
  }

  lemma InPiecesEnd(bases: seq<nat>, v0: seq<Seg>, v: seq<Seg>, used: set<nat>, t: nat, hs: seq<nat>, n: nat,
      cmp: QuickSort.Compare,
                    done: seq<seq<seq<int>>>, P: nat)
    requires n > 0 && InPieces(bases, v0, v, used, t, hs, |hs|, n, cmp, done, P) && t < MAX_PUBLIC_TYPES
    ensures SlotsStay(bases, v0, bases, v, used, P) && AllReleased(v0, v, t, PiecesAll(bases, hs, n, cmp, P))
    ensures |v0| == |bases| && (AllKeptTidy(v0, v, t) <==> NoneMissed(v0, t, PiecesAll(bases, hs, n, cmp, P)))
  {
    hide SlotsStay, Released, AllKeptTidy, PiecesAll, Join, NoneMissed;
    assert hs[|hs|..] == [];
    PiecesNone(bases, n, cmp, P);
    JoinAll(done, done, done);
    AllTidyExactly(v0, v, t, PiecesAll(bases, hs, n, cmp, P));
  }

  lemma AllVisitsTyped(bases: seq<nat>, views: seq<Seg>, btypes: seq<seq<nat>>, hs: seq<nat>, t: nat, P: nat)
    requires (P == 8 || P == 16) && Placed(bases) && |views| == |bases| == |btypes|
      && AllOfType(bases, btypes, hs, t, P)
    requires forall i | 0 <= i < |views| :: btypes[i] == views[i].btype && |views[i].btype| == 15 * P
    ensures AllTyped(views, t, VisitsAll(bases, hs, P))
  {
    hide TypedIn, Placed, AllOfType;
    forall i | 0 <= i < |views| ensures TypedIn(views[i], t,
        VisitsAll(bases, hs, P)[i]) { VisitsTyped(bases, views, btypes, hs, t, P, i); }
  }
}
