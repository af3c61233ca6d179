/** Which data block belongs to which handle block, and that no operation changes it while the handle block lives
    (`rgUserData` in src/gc/handletablecore.cpp). */
module SegmentData {
  import opened FreeMask
  import opened SegmentModel
  import opened SegmentSweep
  import opened SegmentKeeps
  import opened SegmentInsert
  import opened SegmentResort

  /** Every block that is still of a type has the type and the data block it had, and a block that was free gets a
      data block that was free. */
  ghost predicate LinksStay(s0: Seg, s1: Seg) {
    && |s1.btype| == |s0.btype| == |s0.udata| == |s1.udata|
    && (forall b | 0 <= b < |s0.btype| && s0.btype[b] != TYPE_INVALID && s1.btype[b] != TYPE_INVALID ::
          s1.btype[b] == s0.btype[b] && s1.udata[b] == s0.udata[b])
    && (forall b | 0 <= b < |s0.btype| && s0.btype[b] == TYPE_INVALID && s1.btype[b] != TYPE_INVALID
        && s1.udata[b] != BLOCK_INVALID ::
          s1.udata[b] < |s0.btype| && s0.btype[s1.udata[b]] == TYPE_INVALID)
  }

  /** Every data block is still there exactly if the handle block it belonged to is, and then still belongs to it. */
  ghost predicate DataFollows(s0: Seg, s1: Seg) {
    && |s1.btype| == |s0.btype| == |s0.udata| == |s1.udata|
    && forall b | 0 <= b < |s0.btype| && s0.udata[b] != BLOCK_INVALID ::
         var d := s0.udata[b];
         && d < |s1.btype| && (s1.btype[d] == DATABLOCK <==> s1.btype[b] == s0.btype[b])
         && (s1.btype[b] == s0.btype[b] ==> s1.udata[b] == d)
  }

  /** A transition that keeps the links of surviving blocks keeps or reclaims a data block with its owner. */
  lemma DataFollowsOwner(s0: Seg, s1: Seg, sh0: Shape, sh1: Shape, P: nat, userData: seq<bool>)
    requires Inv(s0, sh0, P, userData) && Inv(s1, sh1, P, userData) && LinksStay(s0, s1)
    ensures DataFollows(s0, s1)
  {
    hide Chains, FreeOk, Counts, Lines, Types;
    forall b | 0 <= b < |s0.btype| && s0.udata[b] != BLOCK_INVALID
      ensures var d := s0.udata[b];
        && d < |s1.btype| && (s1.btype[d] == DATABLOCK <==> s1.btype[b] == s0.btype[b])
        && (s1.btype[b] == s0.btype[b] ==> s1.udata[b] == d)
    {
      var d := s0.udata[b];
      if s1.btype[d] == DATABLOCK {
        var a :| 0 <= a < |s1.udata| && s1.udata[a] == d;
        assert s1.btype[a] != TYPE_INVALID && s0.btype[a] != TYPE_INVALID;
        assert s0.udata[a] == d;
        assert a == b;
      }
    }
  }

  // ---------------------------------------------------------------- composing transitions

  /** No block was freed. */
  ghost predicate NoneFreed(was: seq<nat>, btype: seq<nat>) {
    |btype| == |was| && forall b | 0 <= b < |was| && was[b] != TYPE_INVALID :: btype[b] != TYPE_INVALID
  }

  /** Nothing but freeing happened. */
  ghost predicate Shrunk(s0: Seg, s1: Seg) {
    && |s1.btype| == |s0.btype| == |s0.udata| == |s1.udata|
    && forall b | 0 <= b < |s0.btype| && s1.btype[b] != TYPE_INVALID :: s1.btype[b] == s0.btype[b]
        && s1.udata[b] == s0.udata[b]
  }

  lemma ShrunkLinks(s0: Seg, s1: Seg)
    requires Shrunk(s0, s1)
    ensures LinksStay(s0, s1)
  {
  }

  lemma LinksSame(s0: Seg, s1: Seg)
    requires |s0.btype| == |s0.udata| && s1.btype == s0.btype && s1.udata == s0.udata
    ensures LinksStay(s0, s1) && NoneFreed(s0.btype, s1.btype)
  {
  }

  lemma LinksFrame(s0: Seg, s1: Seg, s2: Seg)
    requires LinksStay(s0, s1) && s2.btype == s1.btype && s2.udata == s1.udata
    ensures LinksStay(s0, s2)
  {
  }

  lemma LinksMore(s0: Seg, s1: Seg, s2: Seg)
    requires LinksStay(s0, s1) && NoneFreed(s0.btype, s1.btype) && LinksStay(s1, s2)
    ensures LinksStay(s0, s2) && (NoneFreed(s1.btype, s2.btype) ==> NoneFreed(s0.btype, s2.btype))
  {
    forall b | 0 <= b < |s0.btype| && s0.btype[b] == TYPE_INVALID && s2.btype[b] != TYPE_INVALID
        && s2.udata[b] != BLOCK_INVALID
      ensures s2.udata[b] < |s0.btype| && s0.btype[s2.udata[b]] == TYPE_INVALID
    {
      if s1.btype[b] == TYPE_INVALID { assert s1.btype[s2.udata[b]] == TYPE_INVALID; }
    }
  }

  lemma ShrunkNone(s: Seg)
    requires |s.btype| == |s.udata|
    ensures Shrunk(s, s)
  {
  }

  lemma ShrunkSame(s0: Seg, s1: Seg, s2: Seg)
    requires Shrunk(s0, s1) && s2.btype == s1.btype && s2.udata == s1.udata
    ensures Shrunk(s0, s2)
  {
  }

  lemma ShrunkMore(s0: Seg, s1: Seg, s2: Seg)
    requires Shrunk(s0, s1) && Shrunk(s1, s2)
    ensures Shrunk(s0, s2)
  {
  }

  /** A transition that frees after one that does not. */
  lemma LinksShrunk(s0: Seg, s1: Seg, s2: Seg)
    requires LinksStay(s0, s1) && NoneFreed(s0.btype, s1.btype) && Shrunk(s1, s2)
    ensures LinksStay(s0, s2)
  {
    ShrunkLinks(s1, s2);
    LinksMore(s0, s1, s2);
  }

  lemma CleanedShrunk(s0: Seg, s1: Seg, t: nat)
    requires |s0.mask| == 2 * |s0.locks| && Cleaned(s0, s1, t)
    ensures Shrunk(s0, s1)
  {
  }

  lemma FreeHasNoData(s: Seg, d: nat, userData: seq<bool>)
    requires |s.udata| == |s.btype| == |s.locks| && |userData| == MAX_PUBLIC_TYPES && DataLinks(s, userData)
    requires d < |s.btype| && s.btype[d] == TYPE_INVALID
    ensures s.udata[d] == BLOCK_INVALID
  {
  }

  /** A free block became a block of type `t`, without a data block so far. */
  lemma InsertedLinks(s0: Seg, s1: Seg, t: nat, b: nat, userData: seq<bool>)
    requires |s0.udata| == |s0.btype| == |s0.locks| && b < |s0.btype| && |userData| == MAX_PUBLIC_TYPES
      && DataLinks(s0, userData)
    requires s0.btype[b] == TYPE_INVALID && t < MAX_INTERNAL_TYPES && s1.btype == s0.btype[b := t]
      && s1.udata == s0.udata
    ensures LinksStay(s0, s1) && NoneFreed(s0.btype, s1.btype)
  {
  }

  /** Two free blocks became a handle block and its data block. */
  lemma LinkedLinks(s0: Seg, s1: Seg, t: nat, b: nat, d: nat)
    requires |s0.udata| == |s0.btype| && b < |s0.btype| && d < |s0.btype| && b != d
    requires s0.btype[b] == TYPE_INVALID && s0.btype[d] == TYPE_INVALID && s0.udata[d] == BLOCK_INVALID
      && t < MAX_PUBLIC_TYPES
    requires s1.btype == s0.btype[d := DATABLOCK][b := t] && s1.udata == s0.udata[b := d]
    ensures LinksStay(s0, s1) && NoneFreed(s0.btype, s1.btype)
  {
  }

  /** Linking the two blocks taken for a user-data type completes the insertion. */
  lemma LinkDone(s0: Seg, s1: Seg, s2: Seg, sh0: Shape, sh2: Shape, t: nat, b: nat, d: nat, P: nat, userData: seq<bool>)
    requires Inv(s0, sh0, P, userData) && Loose(s2, sh2, P, userData) && t < MAX_PUBLIC_TYPES && userData[t]
    requires d < |s0.btype| && s0.btype[d] == TYPE_INVALID && s1.btype == s0.btype[d := DATABLOCK]
      && s1.udata == s0.udata
    requires b < |s0.btype| && s1.btype[b] == TYPE_INVALID && s2.btype == s1.btype[b := t] && s2.udata == s1.udata
    ensures b < |s2.udata| && d < |s2.locks| && Inv(WithData(s2, b, d), sh2, P, userData)
    ensures LinksStay(s0, WithData(s2, b, d)) && NoneFreed(s0.btype, s2.btype)
  {
    hide Loose, DataLinks, DataGiven, DataOwned, CanLink, LinksStay, NoneFreed;
    LooseParts(s0, sh0, P, userData);
    LooseParts(s2, sh2, P, userData);
    ReadyToLink(s0, s1, s2, t, b, d, P, userData);
    Linked(s2, sh2, b, d, P, userData);
    FreeHasNoData(s0, d, userData);
    LinkedLinks(s0, WithData(s2, b, d), t, b, d);
  }

  /** A scavenged block of a public type. */
  lemma ScavengedShrunk(s0: Seg, s: Seg, b: nat)
    requires Shrunk(s0, s) && b < |s.btype| && s.btype[b] < |s.count|
    requires s.udata[b] != BLOCK_INVALID ==> s.udata[b] < |s.locks| && s.locks[s.udata[b]] > 0
    ensures Shrunk(s0, Scavenged(s, b))
  {
  }

  lemma SweptShrunk(s0: Seg, s1: Seg, t: nat, c: seq<nat>)
    requires Shaped(s0, t) && Swept(s0, s1, t, c)
    ensures Shrunk(s0, s1)
  {
    assert Marked(s0, s1, Freed(s0, c));
  }

  /** Handles in use keep their user data when the block they are in keeps its type. */
  lemma UsedLinks(s0: Seg, s1: Seg, mask: seq<Word>, b: nat)
    requires LinksStay(s0, s1) && KeepsUsed(s0.btype, s1.btype, mask) && b < |s0.btype|
      && s0.btype[b] < MAX_PUBLIC_TYPES && !EmptyBlock(mask, b)
    ensures s1.btype[b] == s0.btype[b] && s1.udata[b] == s0.udata[b]
  {
  }
}
