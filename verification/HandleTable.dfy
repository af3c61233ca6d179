/** Bulk allocation and release of handles over a list of segments (src/gc/handletablecore.cpp). */
module HandleTable {
  import opened FreeMask
  import opened SegmentModel
  import opened SegmentSweep
  import opened SegmentInsert
  import opened SegmentHandles
  import opened SegmentTidy
  import opened SegmentData
  import opened Segment
  import opened TableModel
  import QuickSort

  ghost function BasesOf(segs: seq<TableSegment>): (bases: seq<nat>)
    ensures |bases| == |segs|
  {
    seq(|segs|, i requires 0 <= i < |segs| => segs[i].base)
  }

  ghost function MasksOf(segs: seq<TableSegment>): seq<seq<Word>>
    reads segs
  {
    seq(|segs|, i requires 0 <= i < |segs| reads segs => segs[i].rgFreeMask)
  }

  ghost function TypesOf(segs: seq<TableSegment>): (btypes: seq<seq<nat>>)
    reads segs
    ensures |btypes| == |segs|
  {
    seq(|segs|, i requires 0 <= i < |segs| reads segs => segs[i].rgBlockType)
  }

  ghost function ViewsOf(segs: seq<TableSegment>): (views: seq<Seg>)
    reads segs
    ensures |views| == |segs|
  {
    seq(|segs|, i requires 0 <= i < |segs| reads segs => segs[i].View())
  }

  ghost function ShapesOf(segs: seq<TableSegment>): (shapes: seq<Shape>)
    reads segs
    ensures |shapes| == |segs|
  {
    seq(|segs|, i requires 0 <= i < |segs| reads segs => segs[i].shape)
  }

  ghost function SequencesOf(segs: seq<TableSegment>): (sequences: seq<nat>)
    reads segs
    ensures |sequences| == |segs|
  {
    seq(|segs|, i requires 0 <= i < |segs| reads segs => segs[i].bSequence)
  }

  /** Segments in the order of their addresses, each with its invariant, that together hold the used handles. */
  ghost predicate Segments(segs: seq<TableSegment>, used: set<nat>, P: nat, userData: seq<bool>)
    reads segs
  {
    && (P == 8 || P == 16) && |userData| == MAX_PUBLIC_TYPES
    && (forall i | 0 <= i < |segs| :: segs[i].P == P && segs[i].userData == userData && segs[i].Valid())
    && Placed(BasesOf(segs)) && InSync(BasesOf(segs), MasksOf(segs), used, P)
  }

  /** What `Segments` says, in parts. */
  lemma SegmentsParts(segs: seq<TableSegment>, used: set<nat>, P: nat, userData: seq<bool>)
    ensures Segments(segs, used, P, userData) <==>
      && (P == 8 || P == 16) && |userData| == MAX_PUBLIC_TYPES
      && (forall i | 0 <= i < |segs| :: segs[i].P == P && segs[i].userData == userData && segs[i].Valid())
      && Placed(BasesOf(segs)) && InSync(BasesOf(segs), MasksOf(segs), used, P)
  {
  }

  lemma SegmentsInsert(segs: seq<TableSegment>, used: set<nat>, P: nat, userData: seq<bool>, p: nat, seg: TableSegment)
    requires Segments(segs, used, P, userData) && p <= |segs|
    requires seg.P == P && seg.userData == userData && seg.Valid() && |seg.rgFreeMask| == 30 * P
      && Used(seg.rgFreeMask) == {}
    requires Placed(BasesOf(segs)[..p] + [seg.base] + BasesOf(segs)[p..])
    ensures var segs' := segs[..p] + [seg] + segs[p..];
      && Segments(segs', used, P, userData)
      && TypesStay(BasesOf(segs), TypesOf(segs), BasesOf(segs'), TypesOf(segs'), used, P)
      && SlotsStay(BasesOf(segs), ViewsOf(segs), BasesOf(segs'), ViewsOf(segs'), used, P)
  {
    hide Placed, InSync, TypesStay, SlotsStay, Inv;
    var segs' := segs[..p] + [seg] + segs[p..];
    assert BasesOf(segs') == BasesOf(segs)[..p] + [seg.base] + BasesOf(segs)[p..];
    assert MasksOf(segs') == MasksOf(segs)[..p] + [seg.rgFreeMask] + MasksOf(segs)[p..];
    assert TypesOf(segs') == TypesOf(segs)[..p] + [seg.rgBlockType] + TypesOf(segs)[p..];
    assert ViewsOf(segs') == ViewsOf(segs)[..p] + [seg.View()] + ViewsOf(segs)[p..];
    SlotsInserted(BasesOf(segs), ViewsOf(segs), used, P, p, seg.base, seg.View());
    SyncInsert(BasesOf(segs), MasksOf(segs), used, P, p, seg.base, seg.rgFreeMask);
    TypesStayInserted(BasesOf(segs), TypesOf(segs), used, P, p, seg.base, seg.rgBlockType);
  }

  class Table {
    const P: nat
    /** Which types carry user data. */
    const userData: seq<bool>
    /** The list of segments, in the order of its links. */
    var segments: seq<TableSegment>
    var dwCount: int
    /** The addresses of the handles in use. */
    ghost var used: set<nat>
    /** How often the operating system has refused address space. */
    ghost var refusals: nat

    /** The table part of `HndCreateHandleTable`: one segment, at an address the operating system chose. */
    constructor (base: nat, P: nat, userData: seq<bool>)
      requires (P == 8 || P == 16) && |userData| == MAX_PUBLIC_TYPES && base % SEGMENT_SIZE == 0
      ensures this.P == P && this.userData == userData && Valid() && used == {} && fresh(segments)
    {
      var seg := new TableSegment(base, P, userData);
      this.P, this.userData, segments, dwCount, used := P, userData, [seg], 0, {};
      new;
      SegmentSizes(seg);
      FirstSegment(seg);
    }

    ghost function Bases(): seq<nat>
      reads this
    {
      BasesOf(segments)
    }

    ghost function Masks(): seq<seq<Word>>
      reads this, segments
    {
      MasksOf(segments)
    }

    ghost function BlockTypes(): seq<seq<nat>>
      reads this, segments
    {
      TypesOf(segments)
    }

    /** The contents of the segments. */
    ghost function Views(): seq<Seg>
      reads this, segments
    {
      ViewsOf(segments)
    }

    ghost function Shapes(): seq<Shape>
      reads this, segments
    {
      ShapesOf(segments)
    }

    ghost function Sequences(): seq<nat>
      reads this, segments
    {
      SequencesOf(segments)
    }

    ghost predicate Structure()
      reads this, segments
    {
      segments != [] && Segments(segments, used, P, userData)
    }

    /** The segments are sorted by address and keep their invariants, and the count is the number of handles in use. */
    ghost predicate Valid()
      reads this, segments
    {
      Structure() && dwCount == |used|
    }

    /** Takes handles, as numbers, from the `i`th segment and leaves the others alone. */
    method TakeFrom(i: nat, t: nat, count: nat) returns (got: seq<nat>)
      requires Structure() && i < |segments| && t < MAX_PUBLIC_TYPES && t < |userData|
      modifies segments[i]
      ensures forall j | 0 <= j < |segments| :: segments[j].Valid()
      ensures Masks() == old(Masks())[i := segments[i].rgFreeMask]
      ensures BlockTypes() == old(BlockTypes())[i := segments[i].rgBlockType]
      ensures Views() == old(Views())[i := segments[i].View()] && Shapes() == old(Shapes())[i := segments[i].shape]
      ensures Sequences() == old(Sequences())
      ensures Took(old(segments[i].rgFreeMask), segments[i].rgFreeMask, got) && OfType(got, segments[i].rgBlockType, t)
      ensures KeepsUsed(old(segments[i].rgBlockType), segments[i].rgBlockType, old(segments[i].rgFreeMask))
      ensures LinksStay(old(segments[i].View()), segments[i].View())
      ensures |got| <= count
      ensures |got| < count ==> Spent(|got|, old(segments[i].View()), old(segments[i].shape), t, userData)
    {
      hide Took, OfType, KeepsUsed, Exhausted, Inv, InSync, Placed, LinksStay, DataFollows, Used, Elems, Segments;
      SegmentsParts(segments, used, P, userData);
      ghost var bases, masks, btypes, views, shapes := Bases(), Masks(), BlockTypes(), Views(), Shapes();
      got := segments[i].AllocHandles(t, count);
      forall j | 0 <= j < |segments| && j != i ensures segments[j] != segments[i] {
        assert bases[i] != bases[j] by { BasesDiffer(bases, i, j); }
      }
      assert Masks() == masks[i := segments[i].rgFreeMask];
      assert BlockTypes() == btypes[i := segments[i].rgBlockType] && Views() == views[i := segments[i].View()];
      assert Shapes() == shapes[i := segments[i].shape] && Sequences() == old(Sequences());
    }

    /** Takes handles from the `i`th segment. */
    method AllocFrom(i: nat, t: nat, count: nat) returns (hs: seq<nat>)
      requires Structure() && i < |segments| && t < MAX_PUBLIC_TYPES && t < |userData|
      modifies segments[i], `used
      ensures Structure() && |hs| <= count && Distinct(hs)
      ensures used == old(used) + Elems(hs) && forall a | a in hs :: a !in old(used)
      ensures AllOfType(Bases(), BlockTypes(), hs, t, P)
      ensures TypesStay(old(Bases()), old(BlockTypes()), Bases(), BlockTypes(), old(used), P)
      ensures SlotsStay(old(Bases()), old(Views()), Bases(), Views(), old(used), P)
      ensures |hs| < count ==> Spent(|hs|, old(segments[i].View()), old(segments[i].shape), t, userData)
      ensures Views() == old(Views())[i := segments[i].View()] && Shapes() == old(Shapes())[i := segments[i].shape]
      ensures Sequences() == old(Sequences())
    {
      hide Took, OfType, KeepsUsed, Exhausted, Inv, InSync, Placed, TypeAt, LinksStay, SlotsStay, TypesStay, AllOfType,
        Distinct, Used, Elems, Segments, Spent;
      SegmentsParts(segments, used, P, userData);
      ghost var bases, masks, btypes, views, sh := Bases(), Masks(), BlockTypes(), Views(), segments[i].shape;
      var got := TakeFrom(i, t, count);
      hs := Addresses(segments[i].base, got, P);
      SyncTake(bases, masks, used, P, i, segments[i].rgFreeMask, got);
      used := used + Elems(hs);
      assert Bases() == bases;
      TypesStayTaken(bases, masks, btypes, old(used), P, i, segments[i].rgBlockType);
      SlotsTaken(bases, masks, views, old(used), P, i, segments[i].View(), userData, sh);
      AllTaken(bases, BlockTypes(), P, i, got, t);
      SegmentsParts(segments, used, P, userData);
    }

    /** Asking the operating system for address space for one more segment: it may refuse, and otherwise gives
        a region that no segment occupies. */
    method Reserve() returns (ok: bool, base: nat)
      modifies `refusals
      ensures refusals == old(refusals) + if ok then 0 else 1
      ensures ok ==> base % SEGMENT_SIZE == 0 && forall i | 0 <= i < |segments| :: segments[i].base != base
    {
      ok := *;
      base := *;
      ok := ok && base % SEGMENT_SIZE == 0 && forall i | 0 <= i < |segments| :: segments[i].base != base;
      if !ok { refusals := refusals + 1; }
    }

    /** Links a segment into the list in the order of addresses. */
    method Link(seg: TableSegment) returns (p: nat)
      requires segments != [] && Placed(Bases()) && seg.base % SEGMENT_SIZE == 0
      requires forall i | 0 <= i < |segments| :: segments[i].base != seg.base
      modifies `segments
      ensures p <= |old(segments)| && segments == old(segments)[..p] + [seg] + old(segments)[p..]
      ensures Bases() == old(Bases())[..p] + [seg.base] + old(Bases())[p..] && Placed(Bases())
    {
      ghost var bases := Bases();
      if seg.base < segments[0].base {
        p := 0;
      } else {
        var walk: nat := 0;
        while walk + 1 < |segments| && segments[walk + 1].base <= seg.base
          invariant walk < |segments| && segments[walk].base < seg.base
          invariant segments == old(segments)
        {
          walk := walk + 1;
        }
        p := walk + 1;
        assert bases[walk] < seg.base;
      }
      assert p < |segments| ==> seg.base < bases[p];
      segments := segments[..p] + [seg] + segments[p..];
      assert Bases() == bases[..p] + [seg.base] + bases[p..];
      PlacedInsert(bases, p, seg.base);
    }

    /** `SegmentAlloc` on reserved address space, with the sequence number the caller chooses. */
    method MakeSegment(base: nat, sequence: nat) returns (seg: TableSegment)
      requires (P == 8 || P == 16) && |userData| == MAX_PUBLIC_TYPES
      ensures fresh(seg) && seg.Valid() && seg.base == base && seg.P == P && seg.userData == userData
      ensures seg.bSequence == sequence % 0x100 && |seg.rgFreeMask| == 30 * P && Used(seg.rgFreeMask) == {}
      ensures seg.shape.free == FirstBlocks(15 * P) && seg.bCommitLine == P
    {
      hide Inv;
      seg := new TableSegment(base, P, userData);
      InvSizes(seg.View(), seg.shape, P, userData);
      seg.bSequence := sequence % 0x100;
    }

    /** `SegmentAlloc` and linking of the new segment. */
    method AddSegment(sequence: nat) returns (ok: bool, p: nat)
      requires Structure()
      modifies `segments, `refusals
      ensures Structure() && TypesStay(old(Bases()), old(BlockTypes()), Bases(), BlockTypes(), used, P)
      ensures SlotsStay(old(Bases()), old(Views()), Bases(), Views(), used, P)
      ensures !ok ==> segments == old(segments)
      ensures ok ==>
        p < |segments| && |segments| == |old(segments)| + 1 && fresh(segments[p])
        && segments[p].bSequence == sequence % 0x100
      ensures forall s | s in old(segments) :: s in segments
      ensures forall s | s in segments :: s in old(segments) || (ok && s == segments[p])
      ensures ok ==> segments[p].shape.free == FirstBlocks(15 * P) && segments[p].bCommitLine == P
      ensures refusals == old(refusals) + if ok then 0 else 1
    {
      hide Segments, Placed, TypesStay, SlotsStay, BasesOf, TypesOf, ViewsOf, Valid;
      ghost var segs := segments;
      p := 0;
      var base;
      ok, base := Reserve();
      TypesStaySame(Bases(), BlockTypes(), used, P);
      SlotsSame(Bases(), Views(), used, P);
      SegmentsPlaced(segs, used, P, userData);
      if !ok { return; }
      var seg := MakeSegment(base, sequence);
      p := Link(seg);
      SegmentsInsert(segs, used, P, userData, p, seg);
      assert segs == segs[..p] + segs[p..];
    }

    /** The first part of `TableAllocBulkHandles`: asks the segments one after the other. */
    method AskSegments(t: nat, count: nat) returns (hs: seq<nat>, ghost took: seq<nat>)
      requires Structure() && t < MAX_PUBLIC_TYPES && t < |userData|
      modifies segments, `used
      ensures Structure() && |hs| <= count && (|hs| < count ==> |took| == |segments|)
      ensures Bulk(old(Bases()), old(BlockTypes()), old(used), Bases(), BlockTypes(), used, hs, t, P)
      ensures old(used) <= used && SlotsStay(old(Bases()), old(Views()), Bases(), Views(), old(used), P)
      ensures AskedInOrder(old(Views()), old(Shapes()), old(Sequences()), Views(), Shapes(), Sequences(), took, t,
        userData,
                           |hs| < count)
    {
      hide Segments, BasesOf, TypesOf, ViewsOf, ShapesOf, SequencesOf, Bulk, SlotsStay, TypesStay, AllOfType, Spent,
          AskedInOrder,
        Elems, Distinct;
      ghost var used0, bases0, btypes0, views0, shapes0 := used, Bases(), BlockTypes(), Views(), Shapes();
      SlotsSame(bases0, views0, used0, P);
      AskedNone(views0, shapes0, Sequences(), t, userData);
      BulkStart(bases0, btypes0, used0, t, P);
      hs, took := [], [];
      var i: nat := 0;
      var more := true;
      while more
        invariant Structure() && (more ==> i < |segments| && i == |took|) && |hs| <= count
        invariant !more ==> |hs| == count || |took| == |segments|
        invariant Bulk(bases0, btypes0, used0, Bases(), BlockTypes(), used, hs, t, P)
        invariant used0 <= used && SlotsStay(bases0, views0, Bases(), Views(), used0, P)
        invariant AskedInOrder(views0, shapes0, old(Sequences()), Views(), Shapes(), Sequences(), took, t, userData,
                               more || |hs| < count)
        decreases more, |segments| - i
      {
        ghost var bases, btypes, views, shapes, used1 := Bases(), BlockTypes(), Views(), Shapes(), used;
        ViewsAre(segments, i);
        var got := AllocFrom(i, t, count - |hs|);
        SlotsLater(bases0, views0, bases, views, Bases(), Views(), used0, used1, used0, P);
        BulkMore(bases0, btypes0, used0, bases, btypes, used1, Bases(), BlockTypes(), used, hs, got, t, P);
        AskedNext(views0, shapes0, old(Sequences()), views, shapes, Sequences(), took, t, userData, segments[i].View(),
                  segments[i].shape, |got|, |got| < count - |hs|);
        hs, took := hs + got, took + [|got|];
        i := i + 1;
        more := |hs| < count && i < |segments|;
      }
    }

    /** The second part of `TableAllocBulkHandles`: adds segments, numbered on from the last one, until the request is
        met or a segment is refused. It ends because a new segment always has handles to give. */
    method AskNewSegments(t: nat, count: nat) returns (hs: seq<nat>, refused: bool, ghost made: seq<TableSegment>)
      requires Structure() && t < MAX_PUBLIC_TYPES && t < |userData| && count > 0
      modifies this
      ensures Structure() && |hs| <= count && (|hs| == count || refused) && dwCount == old(dwCount)
      ensures Bulk(old(Bases()), old(BlockTypes()), old(used), Bases(), BlockTypes(), used, hs, t, P)
      ensures old(used) <= used && SlotsStay(old(Bases()), old(Views()), Bases(), Views(), old(used), P)
      ensures (forall s | s in old(segments) :: s in segments) && forall s | s in made :: fresh(s) && s in segments
      ensures forall s | s in segments :: s in old(segments) || s in made
      ensures NewOnes(made, old(segments[|segments| - 1].bSequence))
      ensures refusals == old(refusals) + if refused then 1 else 0
    {
      hide Segments, CannotInsert, BasesOf, TypesOf, ViewsOf, Bulk, SlotsStay, TypesStay, AllOfType, Spent, NewOnes,
          Elems, Distinct;
      ghost var used0, bases0, btypes0, views0 := used, Bases(), BlockTypes(), Views();
      ghost var last := segments[|segments| - 1].bSequence;
      SlotsSame(bases0, views0, used0, P);
      NewStart(last);
      BulkStart(bases0, btypes0, used0, t, P);
      hs, refused, made := [], false, [];
      var lastSequence := segments[|segments| - 1].bSequence;
      while |hs| < count && !refused
        invariant Structure() && |hs| <= count && dwCount == old(dwCount)
        invariant Bulk(bases0, btypes0, used0, Bases(), BlockTypes(), used, hs, t, P)
        invariant used0 <= used && SlotsStay(bases0, views0, Bases(), Views(), used0, P)
        invariant (forall s | s in old(segments) :: s in segments) && forall s | s in made :: fresh(s) && s in segments
        invariant forall s | s in segments :: s in old(segments) || s in made
        invariant NewOnes(made, last) && lastSequence % 0x100 == (last + |made|) % 0x100
        invariant refusals == old(refusals) + if refused then 1 else 0
        decreases !refused, count - |hs|
      {
        ghost var bases, btypes, views, segs := Bases(), BlockTypes(), Views(), segments;
        var ok, p := AddSegment(lastSequence + 1);
        SlotsLater(bases0, views0, bases, views, Bases(), Views(), used0, used, used0, P);
        BulkGrown(bases0, btypes0, used0, bases, btypes, Bases(), BlockTypes(), used, hs, t, P);
        if !ok {
          refused := true;
        } else {
          ghost var seg := segments[p];
          var got := AskNewOne(p, t, count - |hs|, bases0, btypes0, used0, views0, hs);
          NewNext(made, last, seg, lastSequence);
          lastSequence := segments[p].bSequence;
          made := made + [seg];
          hs := hs + got;
        }
      }
    }

    /** The first request to a segment that has just been made. */
    method AskNewOne(p: nat, t: nat, count: nat, ghost bases0: seq<nat>, ghost btypes0: seq<seq<nat>>,
        ghost used0: set<nat>,
                     ghost views0: seq<Seg>, ghost hs: seq<nat>) returns (got: seq<nat>)
      requires Structure() && t < MAX_PUBLIC_TYPES && t < |userData| && count > 0 && p < |segments|
      requires segments[p].shape.free == FirstBlocks(15 * P) && segments[p].bCommitLine == P
      requires Bulk(bases0, btypes0, used0, Bases(), BlockTypes(), used, hs, t, P)
      requires used0 <= used && SlotsStay(bases0, views0, Bases(), Views(), used0, P)
      modifies segments[p], `used
      ensures Structure() && 0 < |got| <= count && segments[p].bSequence == old(segments[p].bSequence)
      ensures Bulk(bases0, btypes0, used0, Bases(), BlockTypes(), used, hs + got, t, P)
      ensures used0 <= used && SlotsStay(bases0, views0, Bases(), Views(), used0, P)
    {
      hide Segments, CannotInsert, BasesOf, TypesOf, ViewsOf, Bulk, SlotsStay, TypesStay, AllOfType, Spent, Elems,
          Distinct;
      ghost var bases, btypes, views, used1 := Bases(), BlockTypes(), Views(), used;
      ghost var v, sh := segments[p].View(), segments[p].shape;
      SegmentsPlaced(segments, used, P, userData);
      FreshGives(P, t, userData);
      SequenceAt(segments, p);
      got := AllocFrom(p, t, count);
      SequenceAt(segments, p);
      if got == [] { SpentNone(v, sh, t, userData); }
      SlotsLater(bases0, views0, bases, views, Bases(), Views(), used0, used1, used0, P);
      BulkMore(bases0, btypes0, used0, bases, btypes, used1, Bases(), BlockTypes(), used, hs, got, t, P);
    }

    /** `TableAllocBulkHandles`: goes through the segments and then adds new ones, and falls short only if a segment
        cannot be allocated. `took` are the numbers of handles taken from the first segments, `made` the new segments as
        they came. */
    method AllocBulk(t: nat, count: nat)
      returns (hs: seq<nat>, refused: bool, ghost took: seq<nat>, ghost made: seq<TableSegment>)
      requires Valid() && t < MAX_PUBLIC_TYPES
      modifies this, segments
      ensures Valid() && |hs| <= count && (|hs| == count || refused) && Distinct(hs)
      ensures used == old(used) + Elems(hs) && forall a | a in hs :: a !in old(used)
      ensures AllOfType(Bases(), BlockTypes(), hs, t, P)
      ensures TypesStay(old(Bases()), old(BlockTypes()), Bases(), BlockTypes(), old(used), P)
      ensures SlotsStay(old(Bases()), old(Views()), Bases(), Views(), old(used), P)
      ensures (forall s | s in old(segments) :: s in segments) && forall s | s in made :: fresh(s) && s in segments
      ensures forall s | s in segments :: s in old(segments) || s in made
      ensures AskedInOrder(old(Views()), old(Shapes()), old(Sequences()), ViewsOf(old(segments)),
        ShapesOf(old(segments)),
                           SequencesOf(old(segments)), took, t, userData, refused || made != [])
      ensures made != [] || refused ==> |took| == |old(segments)|
      ensures NewOnes(made, old(segments[|segments| - 1].bSequence))
      ensures refusals == old(refusals) + if refused then 1 else 0
    {
      hide Segments, BasesOf, TypesOf, ViewsOf, ShapesOf, SequencesOf, Bulk, SlotsStay, TypesStay, AllOfType, Spent,
          AskedInOrder,
        NewOnes, Elems, Distinct;
      ghost var used0, bases0, btypes0, views0 := used, Bases(), BlockTypes(), Views();
      NewStart(segments[|segments| - 1].bSequence);
      SequenceAt(segments, |segments| - 1);
      SegmentsPlaced(segments, used, P, userData);
      refused, made := false, [];
      hs, took := AskSegments(t, count);
      AskedFewer(views0, old(Shapes()), old(Sequences()), Views(), Shapes(), Sequences(), took, t, userData,
          |hs| < count);
      if |hs| < count {
        ghost var bases, btypes, views, used1 := Bases(), BlockTypes(), Views(), used;
        SequenceAt(segments, |segments| - 1);
        var more;
        more, refused, made := AskNewSegments(t, count - |hs|);
        SlotsLater(bases0, views0, bases, views, Bases(), Views(), used0, used1, used0, P);
        BulkBoth(bases0, btypes0, used0, bases, btypes, used1, Bases(), BlockTypes(), used, hs, more, t, P);
        hs := hs + more;
      }
      dwCount := dwCount + |hs|;
      BulkEnd(bases0, btypes0, used0, Bases(), BlockTypes(), used, hs, t, P);
    }

    /** Frees handles from the front of the array while they belong to the `j`th segment. */
    method FreeFrom(j: nat, t: nat, hs: seq<nat>) returns (freed: nat)
      requires Structure() && j < |segments| && t < MAX_PUBLIC_TYPES && hs != []
        && SegmentBase(hs[0]) == segments[j].base
      requires Distinct(hs) && (forall a | a in hs :: a in used) && AllOfType(Bases(), BlockTypes(), hs, t, P)
      modifies segments[j], `used
      ensures Structure() && 0 < freed <= |hs| && freed == SegRun(hs) && used == old(used) - Elems(hs[..freed])
      ensures TypesStay(old(Bases()), old(BlockTypes()), Bases(), BlockTypes(), used, P)
      ensures SlotsStay(old(Bases()), old(Views()), Bases(), Views(), used, P)
      ensures Sequences() == old(Sequences()) && Views() == old(Views())[j := Views()[j]]
      ensures Released(old(Views())[j], Views()[j], t, [Numbers(Bases()[j], hs[..freed], P)])
    {
      hide Gave, KeepsUsed, Inv, InSync, Placed, TypeAt, PrefixInside, TypesStay, SlotsStay, Released, LinksStay,
        DataFollows, KeptTidy, Missed, Used, Segments;
      SegmentsParts(segments, used, P, userData);
      ghost var bases, masks, btypes, views := Bases(), Masks(), BlockTypes(), Views();
      var seg := segments[j];
      ghost var sh := seg.shape;
      var ns := Numbers(seg.base, hs, P);
      SegmentSizes(seg);
      GivenTypes(bases, masks, btypes, used, P, j, hs, t);
      freed := seg.FreeHandles(t, ns);
      SegmentSizes(seg);
      assert 64 * |seg.rgBlockType| == 960 * P;
      GivenPrefix(bases, masks, used, P, j, hs, ns, freed);
      ghost var gone := hs[..freed];
      SyncGive(bases, masks, used, P, j, seg.rgFreeMask, gone);
      UsedRun(bases, masks, used, P, j, hs, freed);
      used := used - Elems(gone);
      forall i | 0 <= i < |segments| && i != j ensures segments[i] != segments[j] {
        assert bases[i] != bases[j] by { BasesDiffer(bases, i, j); }
      }
      assert Bases() == bases && Masks() == masks[j := seg.rgFreeMask];
      assert BlockTypes() == btypes[j := seg.rgBlockType] && Views() == views[j := seg.View()];
      assert Sequences() == old(Sequences());
      SegmentsParts(segments, used, P, userData);
      TypesStayTaken(bases, Masks(), btypes, used, P, j, seg.rgBlockType);
      SlotsTaken(bases, Masks(), views, used, P, j, seg.View(), userData, sh);
    }

    /** Looks up the segment of the first handle and frees what it owns from the front of the array. */
    method FreeNext(t: nat, hs: seq<nat>) returns (freed: nat)
      requires Structure() && t < MAX_PUBLIC_TYPES && hs != []
      requires Distinct(hs) && (forall a | a in hs :: a in used) && AllOfType(Bases(), BlockTypes(), hs, t, P)
      modifies segments, `used
      ensures Structure() && 0 < freed <= |hs| && freed == SegRun(hs) && used == old(used) - Elems(hs[..freed])
      ensures TypesStay(old(Bases()), old(BlockTypes()), Bases(), BlockTypes(), used, P)
      ensures SlotsStay(old(Bases()), old(Views()), Bases(), Views(), used, P)
      ensures Sequences() == old(Sequences()) && (Grouped(Ranks(hs, P)) ==> AllKeptTidy(old(Views()), Views(), t))
      ensures AllReleased(old(Views()), Views(), t, FirstAll(Bases(), hs, P))
        && AllTyped(old(Views()), t, FirstAll(Bases(), hs, P))
    {
      hide Grouped, AllKeptTidy, SequencesOf, Segments, TypesOf, Distinct, AllOfType, TypesStay, SlotsStay,
      SegmentBase, Released, KeptTidy,
        FirstAll, AllReleased, AllTyped, SegRun, Numbers, Elems;
      HasSegment(segments, used, P, userData, hs[0]);
      ViewSizes(segments, used, P, userData);
      ghost var views := Views();
      AllFirstTyped(Bases(), views, BlockTypes(), hs, t, P);
      var j: nat :| j < |segments| && segments[j].base == SegmentBase(hs[0]);
      freed := FreeFrom(j, t, hs);
      FirstReleased(Bases(), views, Views(), t, hs, P, j);
      if Grouped(Ranks(hs, P)) {
        GroupedTidy(views[j], Views()[j], t, Bases()[j], hs, freed, P);
        AllTidyOne(views, j, Views()[j], t);
      }
    }

    /** `TableFreeBulkPreparedHandles`: frees exactly the given handles, in any order. No emptied block is left behind
        exactly if none is missed by the visits to its segment. */
    method FreeBulkPrepared(t: nat, hs: seq<nat>)
      requires Valid() && t < MAX_PUBLIC_TYPES && hs != []
      requires Distinct(hs) && (forall a | a in hs :: a in used) && AllOfType(Bases(), BlockTypes(), hs, t, P)
      modifies this, segments
      ensures Valid() && segments == old(segments) && used == old(used) - Elems(hs)
      ensures TypesStay(old(Bases()), old(BlockTypes()), Bases(), BlockTypes(), used, P)
      ensures SlotsStay(old(Bases()), old(Views()), Bases(), Views(), used, P)
      ensures Sequences() == old(Sequences()) && (Grouped(Ranks(hs, P)) ==> AllKeptTidy(old(Views()), Views(), t))
      ensures AllReleased(old(Views()), Views(), t, VisitsAll(Bases(), hs, P))
      ensures AllKeptTidy(old(Views()), Views(), t) <==> NoneMissed(old(Views()), t, VisitsAll(Bases(), hs, P))
    {
      hide Grouped, AllKeptTidy, ViewsOf, SequencesOf, Ranks, Elems, AllReleased, AllTyped, FirstAll, VisitsAll,
          NoneMissed, SegRun, Underway;
      hide Segments, BasesOf, TypesOf, Release, Distinct, AllOfType, TypesStay, SlotsStay, SegmentBase;
      ghost var used0, bases0, btypes0, views0 := used, Bases(), BlockTypes(), Views();
      ghost var sequences0, done := Sequences(), NoVisits(|bases0|);
      ViewSizes(segments, used, P, userData);
      UnderwayStart(bases0, views0, used, t, hs, P);
      dwCount := dwCount - |hs|;
      var i: nat := 0;
      ReleaseStart(bases0, btypes0, used0, hs, t, P);
      while i < |hs|
        invariant i <= |hs| && segments == old(segments) && Segments(segments, used, P, userData)
          && dwCount == old(dwCount) - |hs|
        invariant Release(bases0, btypes0, used0, Bases(), BlockTypes(), used, hs, i, t, P)
        invariant |done| == |bases0| && Sequences() == sequences0
          && Underway(bases0, views0, Views(), used, t, hs, i, done, P)
      {
        ghost var btypes, views, used1 := BlockTypes(), Views(), used;
        ReleaseNext(bases0, btypes0, used0, bases0, btypes, used1, hs, i, t, P);
        var freed := FreeNext(t, hs[i..]);
        ReleaseMore(bases0, btypes0, used0, bases0, btypes, used1, Bases(), BlockTypes(), used, hs, i, freed, t, P);
        UnderwayNext(bases0, views0, views, Views(), used1, used, t, hs, i, done, P);
        done := Join(done, FirstAll(bases0, hs[i..], P));
        i := i + freed;
      }
      UnderwayEnd(bases0, views0, Views(), used, t, hs, done, P);
      ReleaseEnd(bases0, btypes0, used0, Bases(), BlockTypes(), used, hs, t, P);
    }

    /** The sequence number of every segment, by segment number. */
    method Sequence() returns (sequence: nat -> nat)
      ensures sequence == Sequencing(Bases(), Sequences())
    {
      var bases := seq(|segments|, k requires 0 <= k < |segments| reads this => segments[k].base);
      var sequences := seq(|segments|, k requires 0 <= k < |segments| reads this, segments => segments[k].bSequence);
      assert bases == Bases() && sequences == Sequences();
      sequence := Sequencing(bases, sequences);
    }

    /** `TableFreeBulkUnpreparedHandlesWorker`: sorts a copy into free order and frees it. */
    method FreeSorted(t: nat, hs: seq<nat>)
      requires Valid() && t < MAX_PUBLIC_TYPES && hs != []
      requires Distinct(hs) && (forall a | a in hs :: a in used) && AllOfType(Bases(), BlockTypes(), hs, t, P)
      modifies this, segments
      ensures Valid() && segments == old(segments) && used == old(used) - Elems(hs)
      ensures TypesStay(old(Bases()), old(BlockTypes()), Bases(), BlockTypes(), used, P)
      ensures SlotsStay(old(Bases()), old(Views()), Bases(), Views(), used, P)
      ensures Sequences() == old(Sequences()) && (!old(Clashing(Bases(), Sequences(), hs)) ==>
        AllKeptTidy(old(Views()), Views(), t))
      ensures var vss := VisitsAll(Bases(), FreeOrdered(hs, TableOrder(Bases(), Sequences())), P);
        AllReleased(old(Views()), Views(), t, vss) && AllTyped(old(Views()), t, vss)
    {
      hide Grouped, AllKeptTidy, ViewsOf, SequencesOf, Ranks, Clashing, Elems, Sequencing, FreeOrdered, AllReleased,
          AllTyped, VisitsAll, NoneMissed;
      hide Segments, BasesOf, TypesOf, Distinct, AllOfType, TypesStay, SlotsStay;
      hide QuickSort.Sorted, QuickSort.Clash, QuickSort.Perm;
      var sequence := Sequence();
      var scratch := new nat[|hs|](k requires 0 <= k < |hs| => hs[k]);
      assert scratch[..] == hs;
      Prepare(scratch, sequence);
      SortedSame(hs, scratch[..], Bases(), BlockTypes(), t, P);
      ElemsSame(hs, scratch[..]);
      ViewSizes(segments, used, P, userData);
      AllVisitsTyped(Bases(), Views(), BlockTypes(), scratch[..], t, P);
      if !Clashing(Bases(), Sequences(), hs) {
        ClashingSame(Bases(), Sequences(), hs, scratch[..]);
        SortedGrouped(sequence, scratch[..], P);
      }
      FreeBulkPrepared(t, scratch[..]);
    }

    /** `TableFreeBulkUnpreparedHandles`: in pieces of one block, or in one piece if a large enough buffer can be had;
        `piece` is the size of the pieces. */
    method FreeBulk(t: nat, hs: seq<nat>) returns (ghost piece: nat)
      requires Valid() && t < MAX_PUBLIC_TYPES
      requires Distinct(hs) && (forall a | a in hs :: a in used) && AllOfType(Bases(), BlockTypes(), hs, t, P)
      modifies this, segments
      ensures Valid() && segments == old(segments) && used == old(used) - Elems(hs)
      ensures TypesStay(old(Bases()), old(BlockTypes()), Bases(), BlockTypes(), used, P)
      ensures SlotsStay(old(Bases()), old(Views()), Bases(), Views(), used, P)
      ensures Sequences() == old(Sequences()) && (!old(Clashing(Bases(), Sequences(), hs)) ==>
        AllKeptTidy(old(Views()), Views(), t))
      ensures piece == HANDLES_PER_BLOCK || piece == |hs| > HANDLES_PER_BLOCK
      ensures var vss := PiecesAll(Bases(), hs, piece, TableOrder(Bases(), Sequences()), P);
        AllReleased(old(Views()), Views(), t, vss) && (AllKeptTidy(old(Views()), Views(), t) <==>
            NoneMissed(old(Views()), t, vss))
    {
      hide Elems, AllKeptTidy, ViewsOf, SequencesOf, Clashing, AllReleased, AllTyped, VisitsAll, NoneMissed,
          PiecesAll, InPieces, TableOrder, FreeOrdered;
      hide Segments, BasesOf, TypesOf, Release, Distinct, AllOfType, TypesStay, SlotsStay;
      ghost var used0, bases0, btypes0, views0, sequences0 := used, Bases(), BlockTypes(), Views(), Sequences();
      ghost var cmp, done := TableOrder(bases0, sequences0), NoVisits(|bases0|);
      var granularity := HANDLES_PER_BLOCK;
      if |hs| > granularity {
        var large: bool := *;
        if large { granularity := |hs|; }
      }
      piece := granularity;
      AllTidyStart(views0, t);
      ViewSizes(segments, used, P, userData);
      InPiecesStart(bases0, views0, used0, t, hs, piece, cmp, P);
      var i: nat := 0;
      ReleaseStart(bases0, btypes0, used0, hs, t, P);
      while i < |hs|
        invariant i <= |hs| && granularity > 0 && segments == old(segments) && Structure() && dwCount == |used|
        invariant granularity == piece || (i == |hs| && granularity <= piece)
        invariant Release(bases0, btypes0, used0, Bases(), BlockTypes(), used, hs, i, t, P)
        invariant Sequences() == sequences0 && (!Clashing(bases0, sequences0, hs) ==> AllKeptTidy(views0, Views(), t))
        invariant |done| == |bases0| && InPieces(bases0, views0, Views(), used, t, hs, i, piece, cmp, done, P)
      {
        if granularity > |hs| - i { granularity := |hs| - i; }
        ghost var btypes, views, used1 := BlockTypes(), Views(), used;
        ReleaseNext(bases0, btypes0, used0, bases0, btypes, used1, hs, i, t, P);
        PieceOf(hs[i..], granularity, bases0, btypes, t, P);
        if !Clashing(bases0, sequences0, hs) { ClashingPiece(bases0, sequences0, hs, i, granularity); }
        FreeSorted(t, hs[i..][..granularity]);
        ReleaseMore(bases0, btypes0, used0, bases0, btypes, used1, Bases(), BlockTypes(), used, hs, i, granularity, t,
            P);
        if !Clashing(bases0, sequences0, hs) { AllTidyMore(views0, views, Views(), t); }
        InPiecesNext(bases0, views0, views, Views(), used1, used, t, hs, i, piece, granularity, cmp, done, P);
        done := Join(done, VisitsAll(bases0, FreeOrdered(hs[i..][..granularity], cmp), P));
        i := i + granularity;
      }
      InPiecesEnd(bases0, views0, Views(), used, t, hs, piece, cmp, done, P);
      ReleaseEnd(bases0, btypes0, used0, Bases(), BlockTypes(), used, hs, t, P);
    }
  }

  /** New segments are numbered from the last one on, modulo 256. */
  ghost predicate NewOnes(made: seq<TableSegment>, last: nat)
    reads made
  {
    forall k | 0 <= k < |made| :: made[k].bSequence == (last + k + 1) % 0x100
  }

  lemma SequenceAt(segs: seq<TableSegment>, i: nat)
    requires i < |segs|
    ensures SequencesOf(segs)[i] == segs[i].bSequence
  {
  }

  lemma ViewsAre(segs: seq<TableSegment>, i: nat)
    requires i < |segs|
    ensures ViewsOf(segs)[i] == segs[i].View() && ShapesOf(segs)[i] == segs[i].shape
  {
  }

  lemma NewStart(last: nat)
    ensures NewOnes([], last)
  {
  }

  lemma NewNext(made: seq<TableSegment>, last: nat, seg: TableSegment, number: nat)
    requires NewOnes(made, last) && seg.bSequence == (number + 1) % 0x100 && number % 0x100 == (last + |made|) % 0x100
    ensures NewOnes(made + [seg], last) && seg.bSequence % 0x100 == (last + |made + [seg]|) % 0x100
    ensures forall s :: s in made + [seg] <==> s in made || s == seg
  {
    NextNumber(number, last + |made|);
  }

  lemma NextNumber(a: nat, b: nat)
    requires a % 0x100 == b % 0x100
    ensures (a + 1) % 0x100 == (b + 1) % 0x100 && (a + 1) % 0x100 % 0x100 == (b + 1) % 0x100
  {
    var k := a / 0x100 - b / 0x100;
    assert a + 1 == (b + 1) + 0x100 * k;
  }

  /** Up to 256 segments that one request makes have different sequence numbers. */
  lemma NewDiffer(made: seq<TableSegment>, last: nat, j: nat, k: nat)
    requires NewOnes(made, last) && j < k < |made| && k - j < 256
    ensures made[j].bSequence != made[k].bSequence
  {
  }

  /** Sorts an array of handles into the order in which they are best freed. */
  method Prepare(scratch: array<nat>, sequence: nat -> nat)
    requires scratch.Length > 0
    modifies scratch
    ensures QuickSort.Perm(old(scratch[..]), scratch[..], 0, scratch.Length - 1)
    ensures !QuickSort.Clash(sequence, Elems(old(scratch[..]))) ==>
      QuickSort.Sorted(scratch[..], 0, scratch.Length - 1, QuickSort.FreeOrder(sequence))
    ensures scratch[..] == FreeOrdered(old(scratch[..]), QuickSort.FreeOrder(sequence))
  {
    hide QuickSort.SortOf, QuickSort.FreeOrder, QuickSort.PreorderOn, QuickSort.Clash, QuickSort.Sorted, QuickSort.Perm;
    ghost var S := Elems(scratch[..]);
    QuickSort.FreeOrderIsPreorder(sequence, S);
    var depth := QuickSort.Sort(scratch, 0, scratch.Length - 1, QuickSort.FreeOrder(sequence), S);
  }

  lemma SegmentsPlaced(segs: seq<TableSegment>, used: set<nat>, P: nat, userData: seq<bool>)
    requires Segments(segs, used, P, userData)
    ensures (P == 8 || P == 16) && |userData| == MAX_PUBLIC_TYPES && Placed(BasesOf(segs))
  {
  }

  lemma ViewSizes(segs: seq<TableSegment>, used: set<nat>, P: nat, userData: seq<bool>)
    requires Segments(segs, used, P, userData)
    ensures Placed(BasesOf(segs)) && (P == 8 || P == 16)
    ensures forall i | 0 <= i < |segs| ::
      && |ViewsOf(segs)[i].mask| == 2 * |ViewsOf(segs)[i].btype|
          && |ViewsOf(segs)[i].locks| == |ViewsOf(segs)[i].btype| == 15 * P
      && TypesOf(segs)[i] == ViewsOf(segs)[i].btype
  {
    hide Inv, InSync, Placed;
    forall i | 0 <= i < |segs| ensures |segs[i].rgFreeMask| == 30 * P && |segs[i].rgLocks| == |segs[i].rgBlockType|
        == 15 * P {
      InvSizes(segs[i].View(), segs[i].shape, P, userData);
    }
  }

  lemma SegmentSizes(seg: TableSegment)
    requires seg.Valid()
    ensures |seg.rgBlockType| == 15 * seg.P && |seg.rgFreeMask| == 30 * seg.P
  {
    InvSizes(seg.View(), seg.shape, seg.P, seg.userData);
  }

  lemma HasSegment(segs: seq<TableSegment>, used: set<nat>, P: nat, userData: seq<bool>, a: nat)
    requires Segments(segs, used, P, userData) && a in used
    ensures exists j :: 0 <= j < |segs| && segs[j].base == SegmentBase(a)
  {
    var bases := BasesOf(segs);
    assert IsHandle(bases, a, P);
    var i, h: nat :| 0 <= i < |bases| && h < 960 * P && a == Address(bases[i], h, P);
    AddressRoundTrip(bases[i], h, P);
  }

  lemma FirstSegment(seg: TableSegment)
    requires (seg.P == 8 || seg.P == 16) && |seg.userData| == MAX_PUBLIC_TYPES && seg.base % SEGMENT_SIZE == 0
    requires seg.Valid() && |seg.rgFreeMask| == 30 * seg.P && Used(seg.rgFreeMask) == {}
    ensures Segments([seg], {}, seg.P, seg.userData)
  {
    hide Inv;
    var segs: seq<TableSegment> := [];
    assert BasesOf(segs) == [] && MasksOf(segs) == [];
    SegmentsInsert(segs, {}, seg.P, seg.userData, 0, seg);
    assert segs[..0] + [seg] + segs[0..] == [seg];
  }
}
