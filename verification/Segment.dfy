/** A handle segment (src/gc/handletablecore.cpp). */
module Segment {
  import opened FreeMask
  import opened SegmentModel
  import opened SegmentSweep
  import opened SegmentKeeps
  import opened SegmentInsert
  import opened SegmentResort
  import opened SegmentHandles
  import opened SegmentTidy
  import opened SegmentData
  import opened SegmentOrder

  class TableSegment {
    /** The address of the segment, a multiple of its size. */
    const base: nat
    /** Blocks per page; a segment is one page of header and fifteen pages of blocks. */
    const P: nat
    /** Which public types carry user data. */
    const userData: seq<bool>

    var rgAllocation: seq<nat>
    var rgFreeMask: seq<Word>
    var rgBlockType: seq<nat>
    var rgUserData: seq<nat>
    var rgLocks: seq<nat>
    var rgTail: seq<nat>
    var rgHint: seq<nat>
    var rgFreeCount: seq<int>
    var bFreeList: nat
    var bEmptyLine: nat
    var bCommitLine: nat
    var bDecommitLine: nat
    var fResortChains: bool
    var fNeedsScavenging: bool
    var bSequence: nat

    ghost var shape: Shape
    /** How often the operating system has refused a page. */
    ghost var refusals: nat

    /** `SegmentInitialize`, on memory that the operating system hands out zeroed: one page of blocks is committed,
        and all blocks are on the free list in order. */
    constructor (base: nat, P: nat, userData: seq<bool>)
      requires (P == 8 || P == 16) && |userData| == MAX_PUBLIC_TYPES
      ensures this.base == base && this.P == P && this.userData == userData
      ensures Valid() && Used(rgFreeMask) == {} && bCommitLine == P
      ensures shape.free == FirstBlocks(15 * P) && bSequence == 0 && bEmptyLine == 0 && bDecommitLine == 0
      ensures !fResortChains && !fNeedsScavenging
    {
      this.base, this.P, this.userData := base, P, userData;
      bSequence := 0;
      bCommitLine, bDecommitLine, bEmptyLine, bFreeList := P, 0, 0, 0;
      rgTail, rgHint := Filled(MAX_INTERNAL_TYPES, BLOCK_INVALID), Filled(MAX_INTERNAL_TYPES, BLOCK_INVALID);
      rgFreeCount, rgFreeMask := Filled(MAX_INTERNAL_TYPES, 0), Filled(30 * P, MASK_EMPTY);
      rgBlockType, rgUserData := Filled(15 * P, TYPE_INVALID), Filled(15 * P, BLOCK_INVALID);
      rgLocks, rgAllocation := Filled(15 * P, 0), Filled(15 * P, 0);
      fResortChains, fNeedsScavenging := false, false;
      shape := Shape(Filled(MAX_INTERNAL_TYPES, []), FirstBlocks(15 * P), Filled(MAX_INTERNAL_TYPES, 0));
      new;
      var u: nat := 0;
      while u < 15 * P - 1
        invariant u <= 15 * P - 1 && |rgAllocation| == 15 * P
        invariant forall k | 0 <= k < u :: rgAllocation[k] == k + 1
        modifies `rgAllocation
      {
        var next := u + 1;
        rgAllocation := rgAllocation[u := next];
        u := next;
      }
      rgAllocation := rgAllocation[u := BLOCK_INVALID];
      FreshInv(View(), P, userData);
    }

    function View(): Seg
      reads this
    {
      Seg(rgAllocation, rgFreeMask, rgBlockType, rgUserData, rgLocks, rgTail, rgHint, rgFreeCount, bFreeList,
          bEmptyLine, bCommitLine, bDecommitLine)
    }

    /** What the flags promise: a segment that is not marked for resorting is in order, and one with blocks waiting to
        be scavenged is marked. */
    ghost predicate Flagged()
      reads this
    {
      (!fResortChains ==> Ascending(shape)) && (fNeedsScavenging ==> fResortChains)
    }

    /** Marks block `b` free and unlocks its data block, if it has one. */
    method MarkFree(b: nat) returns (hadData: bool)
      requires |rgBlockType| == |rgUserData| && b < |rgBlockType|
      requires rgUserData[b] != BLOCK_INVALID ==> rgUserData[b] < |rgLocks| && rgLocks[rgUserData[b]] > 0
      modifies `rgBlockType, `rgUserData, `rgLocks
      ensures rgBlockType == old(rgBlockType)[b := TYPE_INVALID] && rgUserData == old(rgUserData)[b := BLOCK_INVALID]
      ensures rgLocks == DropLock(old(rgLocks), old(rgUserData)[b]) && hadData == (old(rgUserData)[b] != BLOCK_INVALID)
    {
      hadData := false;
      var data := rgUserData[b];
      if data != BLOCK_INVALID {
        rgLocks := rgLocks[data := rgLocks[data] - 1];
        rgUserData := rgUserData[b := BLOCK_INVALID];
        hadData := true;
      }
      rgBlockType := rgBlockType[b := TYPE_INVALID];
    }

    /** Takes block `b` out of the chain of type `t` and behind the blocks freed before it. */
    method TakeOut(t: nat, b: nat, prev: nat, next: nat, firstFreed: nat, lastFreed: nat)
      returns (hadData: bool, firstFreed': nat)
      requires |rgBlockType| == |rgAllocation| == |rgUserData| == |rgLocks| && t < |rgTail| == |rgHint|
      requires b < |rgAllocation| && prev < |rgAllocation|
      requires rgUserData[b] != BLOCK_INVALID ==> rgUserData[b] < |rgLocks| && rgLocks[rgUserData[b]] > 0
      requires lastFreed != BLOCK_INVALID ==> lastFreed < |rgAllocation|
      requires firstFreed == BLOCK_INVALID <==> lastFreed == BLOCK_INVALID
      modifies `rgAllocation, `rgBlockType, `rgUserData, `rgLocks, `rgTail, `rgHint
      ensures View() == Unlinked(old(View()), t, b, prev, next, lastFreed)
      ensures hadData == (old(rgUserData)[b] != BLOCK_INVALID)
      ensures firstFreed' == if firstFreed == BLOCK_INVALID then b else firstFreed
    {
      hadData := MarkFree(b);
      firstFreed' := firstFreed;
      if firstFreed == BLOCK_INVALID {
        firstFreed' := b;
      } else {
        rgAllocation := rgAllocation[lastFreed := b];
      }
      if prev != b {
        rgAllocation := rgAllocation[prev := next];
        if rgTail[t] == b { rgTail := rgTail[t := prev]; }
        if rgHint[t] == b { rgHint := rgHint[t := next]; }
      } else {
        rgAllocation := rgAllocation[b := BLOCK_INVALID];
        rgTail := rgTail[t := BLOCK_INVALID];
        rgHint := rgHint[t := BLOCK_INVALID];
      }
    }

    /** One step of the pass: block `b` is kept, or taken out if it is empty and not locked. */
    method Visit(t: nat, b: nat, prev: nat, next: nat, firstFreed: nat, lastFreed: nat,
                 ghost s0: Seg, ghost c: seq<nat>, ghost i: nat, ghost K: seq<nat>, ghost F: seq<nat>)
      returns (out: bool, hadData: bool, skipped: bool, firstFreed': nat, lastFreed': nat)
      requires Shaped(s0, t) && ChainOk(s0, t, c) && DataReady(s0, c) && Pass(s0, View(), t, c, i, K, F)
      requires Cursor(rgAllocation, c, i, K, F, prev, lastFreed) && b == c[i] && b < |rgAllocation|
        && next == rgAllocation[b]
      requires prev < |rgAllocation| && (lastFreed != BLOCK_INVALID ==> lastFreed < |rgAllocation|)
      requires firstFreed == Head(F, BLOCK_INVALID) && (lastFreed == BLOCK_INVALID <==> F == [])
      requires prev == b <==> K == [] && i + 1 == |c|
      modifies `rgAllocation, `rgBlockType, `rgUserData, `rgLocks, `rgTail, `rgHint
      ensures out <==> b in Removable(s0)
      ensures out && i + 1 < |c| ==> Pass(s0, View(), t, c, i + 1, K, F + [b])
      ensures out && i + 1 == |c| ==> Passed(s0, View(), t, c, K, F + [b])
      ensures !out && i + 1 < |c| ==> Pass(s0, View(), t, c, i + 1, K + [b], F)
      ensures !out && i + 1 == |c| ==> Passed(s0, View(), t, c, K + [b], F)
      ensures !out ==>
        rgAllocation == old(rgAllocation) && firstFreed' == firstFreed && lastFreed' == lastFreed && !hadData
      ensures out ==> firstFreed' == Head(F + [b], BLOCK_INVALID) && lastFreed' == b
      ensures out ==> |s0.udata| == |s0.locks| && b < |s0.udata| && hadData == (s0.udata[b] != BLOCK_INVALID)
      ensures b < |s0.locks| && (skipped <==> Held(s0, b))
    {
      out, hadData, skipped, firstFreed', lastFreed' := false, false, false, firstFreed, lastFreed;
      PassTest(s0, View(), t, c, i, K, F);
      if EmptyBlock(rgFreeMask, b) {
        if rgLocks[b] != 0 {
          skipped := true;
        } else {
          ghost var s := View();
          hadData, firstFreed' := TakeOut(t, b, prev, next, firstFreed, lastFreed);
          lastFreed' := b;
          out := true;
          Dropped(s0, s, View(), t, c, i, K, F, prev, lastFreed);
        }
      }
      if !out { Kept(s0, View(), t, c, i, K, F); }
    }

    /** The loop of `SegmentRemoveFreeBlocks` over a chain with blocks in it. */
    method WalkChain(t: nat, ghost c: seq<nat>)
      returns (cleanup: bool, later: bool, removed: nat, firstFreed: nat, lastFreed: nat, ghost K: seq<nat>,
          ghost F: seq<nat>)
      requires Shaped(View(), t) && ChainOk(View(), t, c) && DataReady(View(), c) && c != []
      modifies `rgAllocation, `rgBlockType, `rgUserData, `rgLocks, `rgTail, `rgHint
      ensures Passed(old(View()), View(), t, c, K, F)
      ensures removed == |F| && firstFreed == Head(F, BLOCK_INVALID) && lastFreed == Last(F, BLOCK_INVALID)
      ensures cleanup <==> DataOf(old(rgUserData), F) != {}
      ensures later == Stuck(old(View()), c, |c|)
    {
      hide Pass, Passed, ChainOk, DataReady, Cursor;
      ghost var s0 := View();
      PassStart(s0, t, c);
      cleanup, later, removed, firstFreed, lastFreed := false, false, 0, BLOCK_INVALID, BLOCK_INVALID;
      var prev := rgTail[t];
      var start := rgAllocation[prev];
      var block := start;
      ghost var i: nat := 0;
      K, F := [], [];
      var done := false;
      while !done
        invariant i <= |c| && (done <==> i == |c|)
        invariant !done ==> Pass(s0, View(), t, c, i, K, F)
        invariant !done ==> block == c[i] && start == Head(K, block) && prev == Last(K, c[|c| - 1])
        invariant done ==> Passed(s0, View(), t, c, K, F)
        invariant removed == |F| && firstFreed == Head(F, BLOCK_INVALID) && lastFreed == Last(F, BLOCK_INVALID)
        invariant cleanup <==> DataOf(s0.udata, F) != {}
        invariant later == Stuck(s0, c, i)
        decreases |c| - i
      {
        CursorNext(s0, View(), t, c, i, K, F);
        var next := rgAllocation[block];
        var out, hadData, skipped;
        out, hadData, skipped, firstFreed, lastFreed := Visit(t, block, prev, next, firstFreed, lastFreed, s0, c, i, K,
            F);
        if skipped { later := true; }
        if out {
          if hadData { cleanup := true; }
          DataOfNext(s0.udata, F, block);
          F := F + [block];
          block := prev;
          removed := removed + 1;
        } else {
          K := K + [block];
        }
        i := i + 1;
        if next == start {
          done := true;
        } else {
          if start == lastFreed { start := next; }
          prev := block;
          block := next;
        }
      }
    }

    /** The pass of `SegmentRemoveFreeBlocks` over one chain, without the nested call for data blocks. */
    method Sweep(t: nat, ghost c: seq<nat>) returns (cleanup: bool, later: bool)
      requires Shaped(View(), t) && ChainOk(View(), t, c) && DataReady(View(), c)
      modifies `rgAllocation, `rgBlockType, `rgUserData, `rgLocks, `rgTail, `rgHint, `rgFreeCount, `bFreeList,
      `fResortChains
      ensures Swept(old(View()), View(), t, c)
      ensures cleanup <==> DataOf(old(rgUserData), Part(c, |c|, Removable(old(View())), true)) != {}
      ensures later == Stuck(old(View()), c, |c|)
      ensures fResortChains == (old(fResortChains) || Part(c, |c|, Removable(old(View())), true) != [])
    {
      hide ChainOk, DataReady, Swept, Passed;
      ghost var s0 := View();
      cleanup, later := false, false;
      PassedNothing(s0, t, c);
      if rgTail[t] == BLOCK_INVALID { return; }
      var removed, firstFreed, lastFreed;
      ghost var K, F;
      cleanup, later, removed, firstFreed, lastFreed, K, F := WalkChain(t, c);
      SweepDone(s0, View(), t, c, K, F);
      if removed > 0 {
        rgAllocation := rgAllocation[lastFreed := bFreeList];
        bFreeList := firstFreed;
        rgFreeCount := rgFreeCount[t := rgFreeCount[t] - removed * HANDLES_PER_BLOCK];
        fResortChains := true;
      }
    }

    /** `SegmentRemoveFreeBlocks`. The nested call is for the data blocks, which have no user data themselves,
        so it never nests again. */
    method RemoveFreeBlocks(t: nat) returns (later: bool)
      requires Loose(View(), shape, P, userData) && t < MAX_INTERNAL_TYPES
      modifies `rgAllocation, `rgBlockType, `rgUserData, `rgLocks, `rgTail, `rgHint, `rgFreeCount, `bFreeList,
      `fResortChains, `shape
      ensures Loose(View(), shape, P, userData) && shape.owed == old(shape.owed)
      ensures Cleaned(old(View()), View(), t) && LocksKept(old(View()), View())
      ensures old(DataGiven(View(), userData)) ==> DataGiven(View(), userData)
      ensures t == DATABLOCK || old(DataOwned(View())) ==> DataOwned(View())
      ensures later == Stuck(old(View()), old(shape.chain[t]), |old(shape.chain[t])|)
      ensures old(Flagged()) ==> Flagged()
      ensures HintsStay(old(View()), View(), t)
    {
      hide HintsStay, Ascending, Loose, Swept, Marked, Cleaned, LocksKept, DataGiven, DataOwned, DataReady, ChainOk;
      ghost var s0, sh := View(), shape;
      LooseReady(s0, sh, t, P, userData);
      var cleanup;
      cleanup, later := Sweep(t, shape.chain[t]);
      ghost var s1 := View();
      RemovedOnce(s0, s1, sh, t, P, userData);
      SweptNothing(s0, sh, t);
      SweptHints(s0, s1, t, sh.chain[t]);
      shape := SweptShape(s0, sh, t);
      if cleanup {
        LooseReady(s1, shape, DATABLOCK, P, userData);
        var c', l';
        c', l' := Sweep(DATABLOCK, shape.chain[DATABLOCK]);
        RemovedTwice(s0, s1, View(), shape, t, P, userData);
        SweptNothing(s1, shape, DATABLOCK);
        SweptMoreHints(s0, s1, View(), t, shape.chain[DATABLOCK]);
        shape := SweptShape(s1, shape, DATABLOCK);
      }
    }

    /** Asking the operating system for one more page of blocks; it may refuse. */
    method VirtualCommit() returns (ok: bool)
      modifies `refusals
      ensures refusals == old(refusals) + if ok then 0 else 1
    {
      ok := *;
      if !ok { refusals := refusals + 1; }
    }

    /** Moves the lines past block `b`, committing a page if the block has none yet. */
    method RaiseLines(b: nat) returns (ok: bool)
      modifies `refusals, `bEmptyLine, `bCommitLine, `bDecommitLine
      ensures ok ==>
        (bEmptyLine, bCommitLine, bDecommitLine)
          == LinesAfter(old(bEmptyLine), old(bCommitLine), old(bDecommitLine), b, P)
      ensures !ok ==>
        bEmptyLine == old(bEmptyLine) <= b && bCommitLine == old(bCommitLine) <= b
        && bDecommitLine == old(bDecommitLine)
      ensures refusals == old(refusals) + if ok then 0 else 1
    {
      ok := true;
      if b >= bEmptyLine {
        var commitLine := bCommitLine;
        if b >= commitLine {
          ok := VirtualCommit();
          if !ok { return; }
          bDecommitLine := commitLine;
          bCommitLine := commitLine + P;
        }
        bEmptyLine := b + 1;
      }
    }

    /** Makes block `b`, the head of the free list, the tail of the chain of type `t`. */
    method Append(t: nat, b: nat, updateHint: bool)
      requires b < |rgAllocation| == |rgBlockType| && t < |rgTail| == |rgHint| == |rgFreeCount|
      requires rgTail[t] != BLOCK_INVALID ==> rgTail[t] < |rgAllocation|
      modifies `rgAllocation, `rgBlockType, `rgTail, `rgHint, `rgFreeCount, `bFreeList, `fResortChains
      ensures bFreeList == old(rgAllocation)[b] && rgAllocation == Appended(old(rgAllocation), b, old(rgTail)[t])
      ensures rgBlockType == old(rgBlockType)[b := t] && rgTail == old(rgTail)[t := b]
      ensures rgHint == if updateHint || old(rgTail)[t] == BLOCK_INVALID then old(rgHint)[t := b] else old(rgHint)
      ensures rgFreeCount == old(rgFreeCount)[t := old(rgFreeCount)[t] + HANDLES_PER_BLOCK]
      ensures fResortChains == (old(fResortChains) || old(rgTail)[t] != BLOCK_INVALID)
    {
      bFreeList := rgAllocation[b];
      var oldTail := rgTail[t];
      var hinting := updateHint;
      if oldTail == BLOCK_INVALID {
        rgAllocation := rgAllocation[b := b];
        hinting := true;
      } else {
        rgAllocation := rgAllocation[b := rgAllocation[oldTail]];
        rgAllocation := rgAllocation[oldTail := b];
        fResortChains := true;
      }
      rgBlockType := rgBlockType[b := t];
      rgTail := rgTail[t := b];
      if hinting { rgHint := rgHint[t := b]; }
      rgFreeCount := rgFreeCount[t := rgFreeCount[t] + HANDLES_PER_BLOCK];
    }

    /** Commits block `b`, the head of the free list, if it has to, and appends it to the chain of type `t`. */
    method PutBlock(t: nat, b: nat, updateHint: bool) returns (ok: bool)
      requires b < |rgAllocation| == |rgBlockType| && t < |rgTail| == |rgHint| == |rgFreeCount|
      requires rgTail[t] != BLOCK_INVALID ==> rgTail[t] < |rgAllocation|
      modifies `refusals, `rgAllocation, `rgBlockType, `rgTail, `rgHint, `rgFreeCount, `bFreeList, `bEmptyLine,
        `bCommitLine,
      `bDecommitLine, `fResortChains
      ensures ok ==> View() == Inserted(old(View()), t, b, updateHint, P)
      ensures ok ==> fResortChains == (old(fResortChains) || old(rgTail)[t] != BLOCK_INVALID)
      ensures !ok ==> View() == old(View()) && fResortChains == old(fResortChains) && b >= bCommitLine
      ensures refusals == old(refusals) + if ok then 0 else 1
    {
      ok := RaiseLines(b);
      if ok { Append(t, b, updateHint); }
    }

    /** `SegmentInsertBlockFromFreeListWorker`. It fails only if there is no free block, or if the next one is
        not committed and the page cannot be had. */
    method InsertWorker(t: nat, updateHint: bool) returns (b: nat)
      requires Loose(View(), shape, P, userData) && t < MAX_INTERNAL_TYPES
      modifies `refusals, `rgAllocation, `rgBlockType, `rgTail, `rgHint, `rgFreeCount, `bFreeList, `bEmptyLine,
        `bCommitLine,
      `bDecommitLine,
               `fResortChains, `shape
      ensures Loose(View(), shape, P, userData) && bCommitLine >= old(bCommitLine)
      ensures b == BLOCK_INVALID ==>
        View() == old(View()) && shape == old(shape) && (shape.free == [] || shape.free[0] >= bCommitLine)
      ensures b != BLOCK_INVALID ==> old(CanInsert(View(), shape, t, P, userData)) && b == old(shape.free[0])
      ensures b != BLOCK_INVALID ==> shape == InsertedShape(old(shape), t) && b < |rgAllocation| == |old(rgBlockType)|
      ensures b != BLOCK_INVALID ==> rgBlockType == old(rgBlockType)[b := t] && old(rgBlockType)[b] == TYPE_INVALID
      ensures b != BLOCK_INVALID ==>
        && bEmptyLine == (if b < old(bEmptyLine) then old(bEmptyLine) else b + 1)
        && bCommitLine == (if b < old(bCommitLine) then old(bCommitLine) else old(bCommitLine) + P)
        && bDecommitLine == (if b < old(bCommitLine) then old(bDecommitLine) else old(bCommitLine))
      ensures old(Flagged()) ==> Flagged()
      ensures refusals == old(refusals) + if b == BLOCK_INVALID && shape.free != [] then 1 else 0
      ensures t < |old(shape.chain)| && HintPut(old(rgHint), rgHint, t, b, updateHint, old(shape.chain[t]) == [])
    {
      hide Ascending, Loose, ChainOk, FreeOk, Inserted;
      ghost var s0, sh := View(), shape;
      InsertReady(s0, sh, t, P, userData);
      b := bFreeList;
      if b != BLOCK_INVALID {
        var ok := PutBlock(t, b, updateHint);
        if !ok { return BLOCK_INVALID; }
        shape := InsertedShape(sh, t);
        InsertRising(sh, t);
        InsertLoose(s0, sh, t, updateHint, P, userData);
        InsertedMeans(s0, sh, t, updateHint, P, userData);
      }
    }

    /** `SegmentInsertBlockFromFreeList` for a type with user data: a data block and a handle block, or neither. */
    method InsertWithData(t: nat, updateHint: bool) returns (b: nat)
      requires Inv(View(), shape, P, userData) && t < MAX_PUBLIC_TYPES && userData[t] && |shape.free| >= 2
      modifies `refusals, `rgAllocation, `rgBlockType, `rgUserData, `rgLocks, `rgTail, `rgHint, `rgFreeCount,
        `bFreeList,
      `bEmptyLine, `bCommitLine,
               `bDecommitLine, `fResortChains, `shape
      ensures Inv(View(), shape, P, userData) && shape.owed == old(shape.owed)
      ensures KeepsUsed(old(rgBlockType), rgBlockType, rgFreeMask)
      ensures LinksStay(old(View()), View()) && (b != BLOCK_INVALID ==> NoneFreed(old(rgBlockType), rgBlockType))
      ensures b != BLOCK_INVALID ==> TookBlock(old(rgBlockType), rgBlockType, t, b)
      ensures b != BLOCK_INVALID ==> UsedUp(old(shape.free), shape.free, old(bCommitLine), bCommitLine, t, userData, 1)
      ensures b == BLOCK_INVALID ==> CannotInsert(old(shape.free), old(bCommitLine), t, userData)
      ensures old(Flagged()) ==> Flagged()
      ensures if b != BLOCK_INVALID then refusals == old(refusals) else refusals > old(refusals)
      ensures t < |old(shape.chain)| && HintAfter(old(View()), View(), t, b, updateHint, old(shape.chain[t]) == [])
    {
      hide Ascending, Loose, DataGiven, DataOwned, GivenBut, OwnedBut, CanInsert, CanLink, Cleaned, DataLinks,
          LinksStay,
          KeepsUsed, TookBlock, NoneFreed, Shrunk, HintUsed, HintAfter, HintSafe, HintsStay, HintPut;
      ghost var s0, sh := View(), shape;
      InsertReady(s0, sh, DATABLOCK, P, userData);
      var data := InsertWorker(DATABLOCK, false);
      ghost var s1 := View();
      b := InsertWorker(t, updateHint);
      ghost var s2 := View();
      HintBoth(s0, s1, s2, sh, t, data, b, updateHint, sh.chain[DATABLOCK] == [], P, userData);
      if b != BLOCK_INVALID && data != BLOCK_INVALID {
        LinkBlocks(t, b, data, s0, s1, sh);
        HintFrame(s0, s2, View(), t, b, updateHint, sh.chain[t] == []);
        return;
      }
      Unwind(t, b, data, updateHint, s0, sh);
      HintNone(s0, View(), t, updateHint, sh.chain[t] == []);
      b := BLOCK_INVALID;
    }

    /** Makes block `data` the locked data block of block `b`. */
    method LinkBlocks(t: nat, b: nat, data: nat, ghost s0: Seg, ghost s1: Seg, ghost sh0: Shape)
      requires Inv(s0, sh0, P, userData) && Loose(View(), shape, P, userData) && t < MAX_PUBLIC_TYPES && userData[t]
      requires data < |s0.btype| && s0.btype[data] == TYPE_INVALID && s1.btype == s0.btype[data := DATABLOCK]
      requires b < |s0.btype| && s1.btype[b] == TYPE_INVALID && rgBlockType == s1.btype[b := t]
      requires rgUserData == s1.udata == s0.udata && rgFreeMask == s0.mask
      modifies `rgUserData, `rgLocks
      ensures Inv(View(), shape, P, userData) && LinksStay(s0, View()) && NoneFreed(s0.btype, rgBlockType)
      ensures KeepsUsed(s0.btype, rgBlockType, rgFreeMask) && TookBlock(s0.btype, rgBlockType, t, b)
    {
      hide Loose, DataGiven, DataOwned, LinksStay, NoneFreed;
      LooseParts(s0, sh0, P, userData);
      LinkDone(s0, s1, View(), sh0, shape, t, b, data, P, userData);
      rgUserData := rgUserData[b := data];
      rgLocks := rgLocks[data := rgLocks[data] + 1];
    }

    /** Takes back what an insertion left behind that got only one of its two blocks, or none. */
    method Unwind(t: nat, b: nat, data: nat, ghost updateHint: bool, ghost s0: Seg, ghost sh0: Shape)
      requires Inv(s0, sh0, P, userData) && Loose(View(), shape, P, userData) && t < MAX_PUBLIC_TYPES
      requires b == BLOCK_INVALID || data == BLOCK_INVALID
      requires rgUserData == s0.udata && rgFreeMask == s0.mask && rgLocks == s0.locks
      requires b != BLOCK_INVALID ==>
        b < |s0.btype| && s0.btype[b] == TYPE_INVALID && rgBlockType == s0.btype[b := t]
      requires data != BLOCK_INVALID ==>
        data < |s0.btype| && s0.btype[data] == TYPE_INVALID && rgBlockType == s0.btype[data := DATABLOCK]
      requires b == BLOCK_INVALID && data == BLOCK_INVALID ==> View() == s0
      requires HintSafe(s0, View(), t, updateHint)
      modifies `rgAllocation, `rgBlockType, `rgUserData, `rgLocks, `rgTail, `rgHint, `rgFreeCount, `bFreeList,
      `fResortChains, `shape
      ensures Inv(View(), shape, P, userData) && shape.owed == old(shape.owed)
      ensures KeepsUsed(s0.btype, rgBlockType, rgFreeMask) && LinksStay(s0, View())
      ensures HintSafe(s0, View(), t, updateHint)
      ensures old(Flagged()) ==> Flagged()
    {
      hide Ascending, Loose, DataGiven, DataOwned, LinksStay, HintUsed, HintSafe, HintsStay;
      ghost var s := View();
      HintSizes(s0, s, t, updateHint);
      LooseParts(s0, sh0, P, userData);
      if b != BLOCK_INVALID {
        TakeBack(t, b, s0, sh0);
        HintKept(s0, s, View(), t, t, updateHint);
      } else if data != BLOCK_INVALID {
        TakeBackData(data, s0, sh0);
        HintKept(s0, s, View(), t, DATABLOCK, updateHint);
      } else {
        LinksSame(s0, s);
      }
    }

    /** Scavenges the chain of type `t` to get rid of block `b`, which was left without a data block. The segment was
        `s0` before `b` was inserted. */
    method TakeBack(t: nat, ghost b: nat, ghost s0: Seg, ghost sh0: Shape)
      requires Inv(s0, sh0, P, userData) && Loose(View(), shape, P, userData) && t < MAX_PUBLIC_TYPES
      requires b < |s0.btype| && s0.btype[b] == TYPE_INVALID && rgBlockType == s0.btype[b := t]
        && rgUserData == s0.udata
      requires rgFreeMask == s0.mask && rgLocks == s0.locks
      modifies `rgAllocation, `rgBlockType, `rgUserData, `rgLocks, `rgTail, `rgHint, `rgFreeCount, `bFreeList,
      `fResortChains, `shape
      ensures Inv(View(), shape, P, userData) && shape.owed == old(shape.owed)
      ensures KeepsUsed(s0.btype, rgBlockType, rgFreeMask) && LinksStay(s0, View())
      ensures old(Flagged()) ==> Flagged()
      ensures HintsStay(old(View()), View(), t)
    {
      hide HintsStay, Ascending, Loose, DataGiven, DataOwned, GivenBut, OwnedBut, Cleaned, Shrunk, DataLinks, LinksStay;
      ghost var s := View();
      LooseParts(s0, sh0, P, userData);
      LooseParts(s, shape, P, userData);
      InsertedData(s0, s, t, b, b, userData);
      InsertedLinks(s0, s, t, b, userData);
      var l := RemoveFreeBlocks(t);
      Unwound(s, View(), t, b, userData);
      CleanedKeepsUsed(s, View(), t);
      CleanedShrunk(s, View(), t);
      LinksShrunk(s0, s, View());
    }

    /** Scavenges the chain of data blocks to get rid of block `d`, which was left without an owner. */
    method TakeBackData(ghost d: nat, ghost s0: Seg, ghost sh0: Shape)
      requires Inv(s0, sh0, P, userData) && Loose(View(), shape, P, userData)
      requires d < |s0.btype| && s0.btype[d] == TYPE_INVALID && rgBlockType == s0.btype[d := DATABLOCK]
        && rgUserData == s0.udata
      requires rgFreeMask == s0.mask && rgLocks == s0.locks
      modifies `rgAllocation, `rgBlockType, `rgUserData, `rgLocks, `rgTail, `rgHint, `rgFreeCount, `bFreeList,
      `fResortChains, `shape
      ensures Inv(View(), shape, P, userData) && shape.owed == old(shape.owed)
      ensures KeepsUsed(s0.btype, rgBlockType, rgFreeMask) && LinksStay(s0, View())
      ensures old(Flagged()) ==> Flagged()
      ensures HintsStay(old(View()), View(), DATABLOCK)
    {
      hide HintsStay, Ascending, Loose, DataGiven, DataOwned, GivenBut, OwnedBut, Cleaned, Shrunk, DataLinks, LinksStay;
      ghost var s := View();
      LooseParts(s0, sh0, P, userData);
      LooseParts(s, shape, P, userData);
      InsertedData(s0, s, DATABLOCK, d, d, userData);
      InsertedLinks(s0, s, DATABLOCK, d, userData);
      var l := RemoveFreeBlocks(DATABLOCK);
      CleanedKeepsUsed(s, View(), DATABLOCK);
      CleanedShrunk(s, View(), DATABLOCK);
      LinksShrunk(s0, s, View());
    }

    /** `SegmentInsertBlockFromFreeList`: a block for type `t`, with a data block if the type carries user data. */
    method InsertBlock(t: nat, updateHint: bool) returns (b: nat)
      requires Inv(View(), shape, P, userData) && t < MAX_PUBLIC_TYPES
      modifies `refusals, `rgAllocation, `rgBlockType, `rgUserData, `rgLocks, `rgTail, `rgHint, `rgFreeCount,
        `bFreeList,
      `bEmptyLine, `bCommitLine,
               `bDecommitLine, `fResortChains, `shape
      ensures Inv(View(), shape, P, userData) && shape.owed == old(shape.owed)
      ensures KeepsUsed(old(rgBlockType), rgBlockType, rgFreeMask)
      ensures LinksStay(old(View()), View()) && (b != BLOCK_INVALID ==> NoneFreed(old(rgBlockType), rgBlockType))
      ensures b != BLOCK_INVALID ==> TookBlock(old(rgBlockType), rgBlockType, t, b)
      ensures b != BLOCK_INVALID ==> UsedUp(old(shape.free), shape.free, old(bCommitLine), bCommitLine, t, userData, 1)
      ensures b == BLOCK_INVALID ==> CannotInsert(old(shape.free), old(bCommitLine), t, userData)
      ensures old(Flagged()) ==> Flagged()
      ensures if b != BLOCK_INVALID || |old(shape.free)| < BlocksPer(t, userData) then refusals == old(refusals)
              else refusals > old(refusals)
      ensures t < |old(shape.chain)| && HintAfter(old(View()), View(), t, b, updateHint, old(shape.chain[t]) == [])
    {
      hide Ascending, Loose, DataGiven, DataOwned, GivenBut, OwnedBut, CanInsert, LinksStay, NoneFreed;
      ghost var s0, sh := View(), shape;
      InsertReady(s0, sh, t, P, userData);
      LooseParts(s0, sh, P, userData);
      LinksSame(s0, s0);
      if !userData[t] {
        b := InsertWorker(t, updateHint);
        if b != BLOCK_INVALID {
          InsertedData(s0, View(), t, b, b, userData);
          InsertedLinks(s0, View(), t, b, userData);
        }
        return;
      }
      b := bFreeList;
      if b != BLOCK_INVALID { TwoFree(s0, sh, P, userData); }
      if b == BLOCK_INVALID || rgAllocation[b] == BLOCK_INVALID {
        return BLOCK_INVALID;
      }
      b := InsertWithData(t, updateHint);
    }

    /** The backward scan of `SegmentResortChains`: relinks every block to the next higher one of its type. */
    method ScanBack() returns (curr: seq<nat>, high: seq<nat>, free: nat, e: nat)
      requires Sizes(View(), P) && Types(View())
      modifies `rgAllocation
      ensures Scan(rgAllocation, rgBlockType, 0, curr, high, free)
      ensures EmptyRun(rgBlockType, 0, e, e == 0)
    {
      hide Scan;
      curr, high, free := seq(MAX_INTERNAL_TYPES, _ => BLOCK_INVALID), seq(MAX_INTERNAL_TYPES, _ => BLOCK_INVALID),
          BLOCK_INVALID;
      var emptyLine: nat := BLOCK_INVALID;
      var contiguous := true;
      var u: nat := 15 * P;
      ScanStart(rgAllocation, rgBlockType);
      while u > 0
        invariant u <= 15 * P == |rgBlockType| == |rgAllocation|
        invariant Scan(rgAllocation, rgBlockType, u, curr, high, free) && |curr| == |high| == MAX_INTERNAL_TYPES
        invariant EmptyRun(rgBlockType, u, if emptyLine > 15 * P then 15 * P else emptyLine, contiguous)
      {
        u := u - 1;
        var t := rgBlockType[u];
        if t != TYPE_INVALID {
          contiguous := false;
          ScanTyped(rgAllocation, rgBlockType, u, curr, high, free);
          if high[t] == BLOCK_INVALID { high := high[t := u]; }
          rgAllocation := rgAllocation[u := curr[t]];
          curr := curr[t := u];
        } else {
          if contiguous { emptyLine := u; }
          ScanUntyped(rgAllocation, rgBlockType, u, curr, high, free);
          rgAllocation := rgAllocation[u := free];
          free := u;
        }
      }
      e := if emptyLine > 15 * P then 15 * P else emptyLine;
    }

    /** Closes the chain of type `t`, from block `b` to block `tail`, into a ring. A hint that points outside the
        chain is moved to its head. */
    method CloseRing(t: nat, b: nat, tail: nat)
      requires t < MAX_INTERNAL_TYPES && Closing(View(), t) && |rgTail| == |rgHint| == MAX_INTERNAL_TYPES
      requires |rgAllocation| == |rgBlockType| <= 240 && EndKnown(View(), t)
      requires b == Head(Asc(rgBlockType, t, 0), BLOCK_INVALID) && tail == Last(Asc(rgBlockType, t, 0), BLOCK_INVALID)
      modifies `rgAllocation, `rgTail, `rgHint
      ensures Closing(View(), t + 1) && |rgAllocation| == |rgBlockType| && |rgTail| == |rgHint| == MAX_INTERNAL_TYPES
      ensures forall k | t < k < MAX_INTERNAL_TYPES :: rgTail[k] == old(rgTail)[k] && rgHint[k] == old(rgHint)[k]
    {
      hide Closing;
      ghost var s := View();
      LastBlock(rgBlockType, t, 0);
      AscEnds(rgBlockType, t);
      if b != BLOCK_INVALID {
        rgTail := rgTail[t := tail];
        rgAllocation := rgAllocation[tail := b];
        if rgBlockType[rgHint[t]] != t { rgHint := rgHint[t := b]; }
      } else if rgTail[t] != BLOCK_INVALID {
        rgTail := rgTail[t := BLOCK_INVALID];
        rgHint := rgHint[t := BLOCK_INVALID];
      }
      CloseNext(s, View(), t);
    }

    /** Closes the chains into rings and stores their tails. */
    method CloseRings(curr: seq<nat>, high: seq<nat>, ghost free: nat)
      requires |rgAllocation| == |rgBlockType| <= 240 && |rgTail| == |rgHint| == MAX_INTERNAL_TYPES && EndsKnown(View())
      requires Scan(rgAllocation, rgBlockType, 0, curr, high, free)
      modifies `rgAllocation, `rgTail, `rgHint
      ensures Closing(View(), MAX_INTERNAL_TYPES)
    {
      hide Closing, Scan;
      ScanDone(View(), curr, high, free);
      var t := 0;
      while t < MAX_INTERNAL_TYPES
        invariant t <= MAX_INTERNAL_TYPES && Closing(View(), t) && |rgTail| == |rgHint| == MAX_INTERNAL_TYPES
        invariant |rgAllocation| == |rgBlockType|
        invariant forall k | t <= k < MAX_INTERNAL_TYPES :: rgTail[k] == old(rgTail)[k] && rgHint[k] == old(rgHint)[k]
      {
        assert EndKnown(old(View()), t);
        CloseRing(t, curr[t], high[t]);
        t := t + 1;
      }
    }

    /** Links every chain and the free list in ascending order. */
    method RelinkAll() returns (free: nat, e: nat)
      requires Sizes(View(), P) && Types(View()) && EndsKnown(View())
      modifies `rgAllocation, `rgTail, `rgHint
      ensures Closing(View(), MAX_INTERNAL_TYPES)
      ensures EmptyRun(rgBlockType, 0, e, e == 0) && free == Head(Asc(rgBlockType, TYPE_INVALID, 0), BLOCK_INVALID)
    {
      hide Scan, Closing, EmptyRun, Types, EndKnown;
      var curr, high;
      curr, high, free, e := ScanBack();
      EndsKept(old(View()), View());
      ScanDone(View(), curr, high, free);
      CloseRings(curr, high, free);
    }

    /** The second half of `SegmentResortChains`. */
    method Rebuild()
      requires Linkless(View(), shape.owed, P, userData)
      modifies `rgAllocation, `rgTail, `rgHint, `bFreeList, `bEmptyLine, `shape
      ensures Loose(View(), shape, P, userData) && shape == SortedShape(rgBlockType, old(shape.owed))
        && bEmptyLine <= old(bEmptyLine)
    {
      hide Closing, Counts, EmptyRun, Loose, Types, EndsKnown, DataLinks, SortedShape;
      ghost var s := View();
      var free, e := RelinkAll();
      ghost var s1 := View();
      bFreeList := free;
      bEmptyLine := e;
      shape := SortedShape(rgBlockType, shape.owed);
      ClosingFrame(s1, View(), MAX_INTERNAL_TYPES);
      Rebuilt(s, View(), old(shape.owed), e, P, userData);
    }

    /** Marks an empty block of a public type free, and its data block unlocked. */
    method ScavengeBlock(b: nat, t: nat) returns (hadData: bool)
      requires b < |rgBlockType| == |rgUserData| && t == rgBlockType[b] < |rgFreeCount|
      requires rgUserData[b] != BLOCK_INVALID ==> rgUserData[b] < |rgLocks| && rgLocks[rgUserData[b]] > 0
      modifies `rgBlockType, `rgUserData, `rgLocks, `rgFreeCount
      ensures View() == Scavenged(old(View()), b) && hadData == (old(rgUserData)[b] != BLOCK_INVALID)
    {
      hadData := MarkFree(b);
      rgFreeCount := rgFreeCount[t := rgFreeCount[t] - HANDLES_PER_BLOCK];
    }

    /** The scavenging loop of `SegmentResortChains`. */
    method ScavengeBlocks(ghost c: seq<nat>) returns (cleanup: bool)
      requires Scavenging(View(), shape.owed, c, P, userData) && Sizes(View(), P) && DataOwned(View())
      modifies `rgBlockType, `rgUserData, `rgLocks, `rgFreeCount
      ensures Scavenging(View(), shape.owed, c, P, userData) && Sizes(View(), P) && (!cleanup ==> DataOwned(View()))
      ensures ScavengedTo(old(View()), View(), bEmptyLine) && Shrunk(old(View()), View())
    {
      hide Scavenging, DataOwned, ScavengedTo, Shrunk;
      ghost var s0 := View();
      cleanup := false;
      var last := bEmptyLine;
      var b: nat := 0;
      ScavengeSizes(s0, shape.owed, c, P, userData);
      assert ScavengedTo(s0, s0, 0) by { ScavengedNone(s0); }
      assert Shrunk(s0, s0) by { ShrunkNone(s0); }
      while b < last
        invariant b <= last == bEmptyLine <= 15 * P && Sizes(View(), P)
        invariant Scavenging(View(), shape.owed, c, P, userData) && (!cleanup ==> DataOwned(View()))
        invariant ScavengedTo(s0, View(), b) && Shrunk(s0, View())
      {
        ScavengeSizes(View(), shape.owed, c, P, userData);
        ScavengedNext(s0, View(), b);
        var t := rgBlockType[b];
        if t < MAX_PUBLIC_TYPES && EmptyBlock(rgFreeMask, b) && rgLocks[b] == 0 {
          ScavengeStep(View(), shape.owed, c, b, P, userData);
          ScavengedShrunk(s0, View(), b);
          var hadData := ScavengeBlock(b, t);
          if hadData { cleanup := true; }
        }
        b := b + 1;
      }
    }

    /** The first half of `SegmentResortChains`: frees the empty, unlocked blocks and the data blocks they had. */
    method Scavenge()
      requires Inv(View(), shape, P, userData)
      modifies `rgAllocation, `rgBlockType, `rgUserData, `rgLocks, `rgTail, `rgHint, `rgFreeCount, `bFreeList,
      `fResortChains
      ensures Linkless(View(), shape.owed, P, userData) && DataGiven(View(), userData) && DataOwned(View())
      ensures |rgBlockType| == |old(rgBlockType)| == |rgUserData| && Shrunk(old(View()), View())
      ensures forall b | 0 <= b < |rgBlockType| && old(rgBlockType)[b] != DATABLOCK ::
        rgBlockType[b] == if old(rgBlockType)[b] < MAX_PUBLIC_TYPES
            && b in Removable(old(View())) then TYPE_INVALID else old(rgBlockType)[b]
      ensures forall b | 0 <= b < |rgBlockType| && old(rgBlockType)[b] == DATABLOCK ::
        rgBlockType[b] in {DATABLOCK, TYPE_INVALID}
    {
      hide Inv, Scavenging, DataOwned, DataGiven, Swept, ChainOk, DataReady, Linkless, Shrunk;
      ghost var s0 := View();
      ScavengeStart(s0, shape, P, userData);
      ghost var c := shape.chain[DATABLOCK];
      var cleanup := ScavengeBlocks(c);
      ghost var s1 := View();
      ScavengeFrame(s0, s1, shape.owed, c, P, userData);
      if cleanup {
        ScavengeReady(s1, shape.owed, c, P, userData);
        var c', l' := Sweep(DATABLOCK, c);
        ScavengeSwept(s1, View(), shape.owed, c, P, userData);
        assert rgBlockType == Cleared(s1.btype, Freed(s1, c))
            && |rgUserData| == |rgBlockType| by { SweptMarks(s1, View(), DATABLOCK, c); }
        FreedData(s1, c);
        SweptShrunk(s1, View(), DATABLOCK, c);
        ShrunkMore(s0, s1, View());
      }
    }

    /** `SegmentResortChains`: scavenges if that was asked for, then puts every chain and the free list in
        ascending order. Removing data blocks while scavenging raises the resort flag again. */
    method ResortChains()
      requires Inv(View(), shape, P, userData)
      modifies `rgAllocation, `rgBlockType, `rgUserData, `rgLocks, `rgTail, `rgHint, `rgFreeCount, `bFreeList,
      `bEmptyLine,
               `fResortChains, `fNeedsScavenging, `shape
      ensures Inv(View(), shape, P, userData) && shape == SortedShape(rgBlockType, old(shape.owed))
        && bEmptyLine <= old(bEmptyLine)
      ensures !fNeedsScavenging && (!old(fNeedsScavenging) ==> !fResortChains && rgBlockType == old(rgBlockType))
      ensures |rgBlockType| == |old(rgBlockType)| && LinksStay(old(View()), View()) && DataFollows(old(View()), View())
      ensures Flagged() && Ascending(shape)
      ensures old(fNeedsScavenging) ==> forall b | 0 <= b < |rgBlockType| && old(rgBlockType)[b] != DATABLOCK ::
        rgBlockType[b] == if old(rgBlockType)[b] < MAX_PUBLIC_TYPES
            && b in Removable(old(View())) then TYPE_INVALID else old(rgBlockType)[b]
    {
      hide Ascending, Linkless, DataOwned, DataGiven, Loose, Scavenging, Shrunk, LinksStay, DataFollows;
      fResortChains := false;
      ghost var s0 := View();
      ScavengeStart(s0, shape, P, userData);
      assert Shrunk(s0, s0) by { ShrunkNone(s0); }
      assert Linkless(s0, shape.owed, P, userData) by {
        ScavengingLinkless(s0, shape.owed, shape.chain[DATABLOCK], P, userData);
      }
      if fNeedsScavenging {
        fNeedsScavenging := false;
        Scavenge();
      }
      ghost var s1 := View();
      Rebuild();
      SortedRising(rgBlockType, shape.owed);
      DataFrame(s1, View(), userData);
      assert LinksStay(s0, View()) by { ShrunkSame(s0, s1, View()); ShrunkLinks(s0, View()); }
      DataFollowsOwner(s0, View(), old(shape), shape, P, userData);
    }

    /** `SegmentTrimExcessPages`. Addresses are counted from the first block, which starts a page. */
    method TrimExcessPages()
      requires Inv(View(), shape, P, userData)
      modifies `bCommitLine, `bDecommitLine
      ensures Inv(View(), shape, P, userData) && bCommitLine <= old(bCommitLine)
      ensures forall b | bCommitLine <= b < old(bCommitLine) :: 0 <= b < |rgBlockType| && rgBlockType[b] == TYPE_INVALID
      ensures bEmptyLine < old(bDecommitLine) ==> bCommitLine - bEmptyLine < P
      ensures bDecommitLine == if bCommitLine == old(bCommitLine) then old(bDecommitLine)
                               else if bCommitLine > P then bCommitLine - P else 0
    {
      hide Ascending, Types, Chains, FreeOk, Counts, DataLinks, DataGiven, DataOwned;
      ghost var s := View();
      if bEmptyLine < bDecommitLine {
        var lo := RoundToPage(bEmptyLine * BlockBytes(P));
        var hi := bCommitLine * BlockBytes(P);
        TrimArithmetic(bEmptyLine, bCommitLine, P);
        if hi > lo {
          bCommitLine := lo / BlockBytes(P);
          bDecommitLine := if lo > OS_PAGE_SIZE then (lo - OS_PAGE_SIZE) / BlockBytes(P) else 0;
        }
      }
      TrimFrame(s, View(), shape, P, userData);
    }

    /** Takes up to `count` handles from mask `w`, if it shows any. */
    method AllocFromMask(w: nat, count: nat) returns (more: seq<nat>)
      requires w < |rgFreeMask| && count > 0
      modifies `rgFreeMask
      ensures |rgFreeMask| == |old(rgFreeMask)| && Took(old(rgFreeMask), rgFreeMask, more)
      ensures rgFreeMask == old(rgFreeMask)[w := rgFreeMask[w]]
        && FreeIn(rgFreeMask[w]) == FreeIn(old(rgFreeMask)[w]) - |more|
      ensures |more| == if count < FreeIn(old(rgFreeMask)[w]) then count else FreeIn(old(rgFreeMask)[w])
      ensures forall k | 0 <= k < |more| :: more[k] / 32 == w
    {
      hide Took, FreeIn;
      more := [];
      TookNone(rgFreeMask);
      FullHasNone();
      if rgFreeMask[w] != MASK_FULL {
        var mask';
        mask', more := AllocInMask(rgFreeMask[w], HANDLES_PER_MASK * w, count);
        WordTook(rgFreeMask, w, mask', more);
        rgFreeMask := rgFreeMask[w := mask'];
      }
    }

    /** `BlockAllocHandles`: as many handles as asked for, or all the block has. */
    method BlockAllocHandles(b: nat, count: nat) returns (got: seq<nat>)
      requires 2 * b + 1 < |rgFreeMask| && count > 0
      modifies `rgFreeMask
      ensures Took(old(rgFreeMask), rgFreeMask, got) && OnlyBlock(old(rgFreeMask), rgFreeMask, b)
      ensures |got| == if count < BlockFree(old(rgFreeMask), b) then count else BlockFree(old(rgFreeMask), b)
      ensures BlockFree(rgFreeMask, b) == BlockFree(old(rgFreeMask), b) - |got|
      ensures forall k | 0 <= k < |got| :: got[k] / HANDLES_PER_BLOCK == b
    {
      hide Took, FreeIn;
      ghost var m0 := rgFreeMask;
      got := [];
      var remain: nat := count;
      var w := MASKS_PER_BLOCK * b;
      TookNone(m0);
      while w < MASKS_PER_BLOCK * b + MASKS_PER_BLOCK && remain > 0
        invariant 2 * b <= w <= 2 * b + 2 && |rgFreeMask| == |m0| && OnlyBlock(m0, rgFreeMask, b)
        invariant Took(m0, rgFreeMask, got) && remain + |got| == count
        invariant BlockFree(rgFreeMask, b) == BlockFree(m0, b) - |got|
        invariant w <= 2 * b ==> rgFreeMask[2 * b] == m0[2 * b]
        invariant w <= 2 * b + 1 ==> rgFreeMask[2 * b + 1] == m0[2 * b + 1]
        invariant remain > 0 && w > 2 * b ==> FreeIn(rgFreeMask[2 * b]) == 0
        invariant remain > 0 && w > 2 * b + 1 ==> FreeIn(rgFreeMask[2 * b + 1]) == 0
        invariant forall k | 0 <= k < |got| :: got[k] / HANDLES_PER_BLOCK == b
      {
        ghost var m1 := rgFreeMask;
        var more := AllocFromMask(w, remain);
        TookMore(m0, m1, rgFreeMask, got, more);
        WordInBlock(more, w, b);
        got := got + more;
        remain := remain - |more|;
        w := w + 1;
      }
    }

    /** The loop of `SegmentAllocHandlesFromTypeChain`. `avail` handles are known to be in the chain, so the walk
        from the hint never comes back to where it started: the source's "free count is corrupt" exit is dead. */
    method TakeFromChain(t: nat, count: nat, ghost c: seq<nat>) returns (got: seq<nat>, ghost walk: seq<nat>)
      requires |rgBlockType| == |rgAllocation| && |rgFreeMask| == 2 * |rgBlockType| && t < |rgHint| && count > 0
      requires Distinct(c) && Circular(rgAllocation, c) && rgHint[t] in c
      requires forall b: nat :: b in c <==> b < |rgBlockType| && rgBlockType[b] == t
      requires count <= TypeFree(rgFreeMask, rgBlockType, t, |rgBlockType|)
      modifies `rgFreeMask, `rgHint
      ensures |rgFreeMask| == |old(rgFreeMask)| && Took(old(rgFreeMask), rgFreeMask, got) && |got| == count
      ensures CountedDown(old(rgFreeMask), rgFreeMask, rgBlockType, t, count)
      ensures |rgHint| == |old(rgHint)| && rgHint == old(rgHint)[t := rgHint[t]] && rgHint[t] in c
      ensures forall k | 0 <= k < |got| ::
        got[k] / HANDLES_PER_BLOCK < |rgBlockType| && rgBlockType[got[k] / HANDLES_PER_BLOCK] == t
      ensures Walked(rgAllocation, rgFreeMask, old(rgHint)[t], rgHint[t], got, walk)
    {
      hide Took, CountedDown, OnlyBlock, Circular, BlockFree, TypeFree, OnWalk, Walked;
      ghost var m0, btype := rgFreeMask, rgBlockType;
      var avail: nat := count;
      got := [];
      var block := rgHint[t];
      var last := block;
      ghost var k0 :| 0 <= k0 < |c| && c[k0] == block;
      ghost var rot := Rotated(c, k0);
      RotatedLinks(rgAllocation, c, k0);
      RotatedDistinct(c, k0);
      CountedNone(m0, btype, t);
      ghost var j: nat := 0;
      walk := [];
      assert OnWalk(got, rot[..0]) by { NoWalk(rot); }
      var done := false;
      while !done
        invariant j < |rot| && block == rot[j] && block in c && |rgFreeMask| == |m0|
        invariant if done then Walked(rgAllocation, rgFreeMask, rot[0], block, got, walk) else OnWalk(got, rot[..j])
        invariant !done ==> avail > 0 && avail + |got| == count
        invariant !done ==> forall i | 0 <= i < j :: rot[i] in c && BlockFree(rgFreeMask, rot[i]) == 0
        invariant done ==> |got| == count && rgHint == old(rgHint)[t := block]
        invariant !done ==> rgHint == old(rgHint)
        invariant Took(m0, rgFreeMask, got) && CountedDown(m0, rgFreeMask, btype, t, |got|)
        invariant forall k | 0 <= k < |got| ::
          got[k] / HANDLES_PER_BLOCK < |btype| && btype[got[k] / HANDLES_PER_BLOCK] == t
        decreases |rot| - j, !done
      {
        ghost var m1 := rgFreeMask;
        var more := BlockAllocHandles(block, avail);
        TookMore(m0, m1, rgFreeMask, got, more);
        CountedDownMore(m0, m1, rgFreeMask, btype, t, |got|, block, |more|);
        OnWalkMore(got, more, rot, j);
        got := got + more;
        if |more| == avail {
          assert got[|got| - 1] == more[|more| - 1];
          WalkDone(rgAllocation, m1, rgFreeMask, rot, j, got);
          walk := rot[..j + 1];
          rgHint := rgHint[t := block];
          done := true;
        } else {
          avail := avail - |more|;
          NextInChain(m0, m1, rgFreeMask, rgAllocation, btype, t, c, rot, j, |got|, count);
          block := rgAllocation[block];
          assert block != last;
          j := j + 1;
        }
      }
    }

    /** `SegmentAllocHandlesFromTypeChain`: exactly the smaller of the request and the free count, from any hint. */
    method AllocFromTypeChain(t: nat, count: nat) returns (got: seq<nat>, ghost walk: seq<nat>)
      requires Inv(View(), shape, P, userData) && t < MAX_PUBLIC_TYPES && shape.owed[t] == 0
      modifies `rgFreeMask, `rgHint, `rgFreeCount
      ensures Inv(View(), shape, P, userData)
      ensures t < |old(rgFreeCount)| && 0 <= old(rgFreeCount)[t]
        && |got| == if count < old(rgFreeCount)[t] then count else old(rgFreeCount)[t]
      ensures Took(old(rgFreeMask), rgFreeMask, got) && OfType(got, rgBlockType, t)
      ensures |rgHint| == |old(rgHint)| && t < |rgHint| && rgHint == old(rgHint)[t := rgHint[t]]
      ensures got == [] ==> rgHint[t] == old(rgHint)[t]
      ensures got != [] ==> Walked(rgAllocation, rgFreeMask, old(rgHint)[t], rgHint[t], got, walk)
    {
      hide Inv, Took, CountedDown, Circular, TypeFree, Walked;
      ghost var s := View();
      CountMeans(s, shape, t, P, userData);
      CountedNone(rgFreeMask, rgBlockType, t);
      var avail := rgFreeCount[t];
      if avail > count { avail := count; }
      got, walk := [], [];
      if avail > 0 {
        got, walk := TakeFromChain(t, avail, shape.chain[t]);
        rgFreeCount := rgFreeCount[t := rgFreeCount[t] - avail];
        MasksKeep(s, View(), shape, shape, t, avail, P, userData);
      }
    }

    /** `BlockAllocHandlesInitial`: the first handles of an empty block. */
    method BlockAllocInitial(b: nat, wanted: nat) returns (got: seq<nat>)
      requires 2 * b + 1 < |rgFreeMask| && EmptyBlock(rgFreeMask, b) && 0 < wanted <= HANDLES_PER_BLOCK
      modifies `rgFreeMask
      ensures |rgFreeMask| == |old(rgFreeMask)| && OnlyBlock(old(rgFreeMask), rgFreeMask, b)
      ensures Took(old(rgFreeMask), rgFreeMask, got) && |got| == wanted
      ensures BlockFree(rgFreeMask, b) == BlockFree(old(rgFreeMask), b) - wanted
      ensures forall k | 0 <= k < |got| :: got[k] / HANDLES_PER_BLOCK == b
    {
      hide Took, BlockFree;
      ghost var m0 := rgFreeMask;
      var remain: nat := wanted;
      var w := MASKS_PER_BLOCK * b;
      while remain > 0
        invariant 2 * b <= w <= 2 * b + 2 && |rgFreeMask| == |m0| && OnlyBlock(m0, rgFreeMask, b)
        invariant remain == if wanted < 32 * (w - 2 * b) then 0 else wanted - 32 * (w - 2 * b)
        invariant rgFreeMask[2 * b] == if w > 2 * b then InitialMask(wanted, 0) else MASK_EMPTY
        invariant rgFreeMask[2 * b + 1] == if w > 2 * b + 1 then InitialMask(wanted, 1) else MASK_EMPTY
        decreases 2 * b + 2 - w
      {
        var alloc := remain;
        var newMask := MASK_FULL;
        if alloc >= HANDLES_PER_MASK {
          alloc := HANDLES_PER_MASK;
          assert MASK_FULL == Shl(MASK_EMPTY, 32);
        } else {
          newMask := Shl(MASK_EMPTY, alloc);
        }
        rgFreeMask := rgFreeMask[w := newMask];
        remain := remain - alloc;
        assert w / 2 == b;
        w := w + 1;
      }
      assert rgFreeMask[2 * b + 1] == InitialMask(wanted, 1) by { assert Shl(MASK_EMPTY, 0) == MASK_EMPTY; }
      InitialTook(m0, rgFreeMask, b, wanted);
      got := [];
      var value, last := b * HANDLES_PER_BLOCK, b * HANDLES_PER_BLOCK + wanted;
      while value < last
        invariant HANDLES_PER_BLOCK * b <= value <= last && got == FirstHandles(b, value - HANDLES_PER_BLOCK * b)
      {
        got := got + [value];
        value := value + 1;
      }
    }

    /** One more block for type `t`, and handles from it. `got` were taken before, since the masks were `m0` and the
        block types `btype0`. */
    method AllocBlock(t: nat, updateHint: bool, remain: nat, ghost m0: seq<Word>, ghost btype0: seq<nat>,
        ghost got: seq<nat>)
      returns (ok: bool, first: seq<nat>)
      requires Inv(View(), shape, P, userData) && t < MAX_PUBLIC_TYPES && remain > 0 && t < |shape.owed|
      requires Took(m0, rgFreeMask, got) && OfType(got, rgBlockType, t) && KeepsUsed(btype0, rgBlockType, m0)
      modifies `refusals, `rgAllocation, `rgFreeMask, `rgBlockType, `rgUserData, `rgLocks, `rgTail, `rgHint,
        `rgFreeCount,
      `bFreeList, `bEmptyLine,
               `bCommitLine, `bDecommitLine, `fResortChains, `shape
      ensures Inv(View(), shape, P, userData) && shape.owed == old(shape.owed)[t := old(shape.owed)[t] + |first|]
      ensures Took(m0, rgFreeMask, got + first) && OfType(got + first, rgBlockType, t)
        && KeepsUsed(btype0, rgBlockType, m0)
      ensures LinksStay(old(View()), View()) && (ok ==> NoneFreed(old(rgBlockType), rgBlockType))
      ensures if ok then
                && UsedUp(old(shape.free), shape.free, old(bCommitLine), bCommitLine, t, userData, 1)
                && |first| == if remain > HANDLES_PER_BLOCK then HANDLES_PER_BLOCK else remain
              else first == [] && CannotInsert(old(shape.free), old(bCommitLine), t, userData)
      ensures old(Flagged()) ==> Flagged()
      ensures if ok || |old(shape.free)| < BlocksPer(t, userData) then refusals == old(refusals)
              else refusals > old(refusals)
      ensures t < |rgHint| == |old(rgHint)| && (ok && updateHint ==>
        first != [] && rgHint[t] == first[0] / HANDLES_PER_BLOCK)
      ensures !updateHint && old(HintUsed(View(), t)) ==> rgHint[t] == old(rgHint)[t]
    {
      hide HintUsed, HintAfter, Ascending, Inv, Took, OfType, KeepsUsed, CannotInsert, UsedUp, LinksStay, NoneFreed;
      ghost var m1, btype1 := rgFreeMask, rgBlockType;
      InvSizes(View(), shape, P, userData);
      ghost var s0, sh := View(), shape;
      var b := InsertBlock(t, updateHint);
      ghost var s1 := View();
      HintMeans(s0, s1, sh, t, b, updateHint, P, userData);
      StillUsed(m0, m1, btype0, btype1, rgBlockType, got, t);
      ok, first := b != BLOCK_INVALID, [];
      assert got + [] == got;
      if ok {
        first := FillBlock(t, b, if remain > HANDLES_PER_BLOCK then HANDLES_PER_BLOCK else remain, btype1);
        TookMore(m0, m1, rgFreeMask, got, first);
        OfTypeMore(got, first, rgBlockType, t);
        LinksFrame(s0, s1, View());
      }
    }

    /** `SegmentAllocHandlesFromFreeList`: turns free blocks into blocks of type `t` until the request is met or no
        block can be had. The handles taken are booked in the free count only at the end. */
    method AllocFromFreeList(t: nat, count: nat) returns (got: seq<nat>)
      requires Inv(View(), shape, P, userData) && t < MAX_PUBLIC_TYPES && shape.owed[t] == 0 && count > 0
      modifies `refusals, `rgAllocation, `rgFreeMask, `rgBlockType, `rgUserData, `rgLocks, `rgTail, `rgHint,
        `rgFreeCount,
      `bFreeList, `bEmptyLine,
               `bCommitLine, `bDecommitLine, `fResortChains, `shape
      ensures Inv(View(), shape, P, userData) && shape.owed == old(shape.owed)
      ensures |got| <= count && (|got| < count ==> Exhausted(|got|, 0, old(shape.free), old(bCommitLine), t, userData))
      ensures LinksStay(old(View()), View())
      ensures Took(old(rgFreeMask), rgFreeMask, got) && OfType(got, rgBlockType, t)
      ensures KeepsUsed(old(rgBlockType), rgBlockType, old(rgFreeMask))
      ensures old(Flagged()) ==> Flagged()
      ensures refusals > old(refusals) <==> |got| < count && !RanOut(|got|, 0, old(shape.free), t, userData)
      ensures refusals >= old(refusals)
      ensures got != [] ==> t < |rgHint| && rgHint[t] == got[0] / HANDLES_PER_BLOCK
    {
      hide Ascending, Inv, Took, OfType, KeepsUsed, Exhausted, LinksStay;
      ghost var s0, owed0 := View(), shape.owed;
      InvSizes(s0, shape, P, userData);
      CountMeans(s0, shape, t, P, userData);
      got := AllocBlocks(t, count);
      ghost var s, sh := View(), shape;
      InvSizes(s, sh, P, userData);
      rgFreeCount := rgFreeCount[t := rgFreeCount[t] - |got|];
      shape := Shape(sh.chain, sh.free, owed0);
      OwedRising(sh, owed0);
      LinksFrame(s0, s, View());
      Booked(s, View(), sh, shape, t, |got|, P, userData);
    }

    /** The loop of `SegmentAllocHandlesFromFreeList`. */
    method AllocBlocks(t: nat, count: nat) returns (got: seq<nat>)
      requires Inv(View(), shape, P, userData) && t < MAX_PUBLIC_TYPES && |shape.owed| == MAX_INTERNAL_TYPES
        && shape.owed[t] == 0 && count > 0
      modifies `refusals, `rgAllocation, `rgFreeMask, `rgBlockType, `rgUserData, `rgLocks, `rgTail, `rgHint,
        `rgFreeCount,
      `bFreeList, `bEmptyLine,
               `bCommitLine, `bDecommitLine, `fResortChains, `shape
      ensures Inv(View(), shape, P, userData) && shape.owed == old(shape.owed)[t := |got|]
      ensures |got| <= count && (|got| < count ==> Exhausted(|got|, 0, old(shape.free), old(bCommitLine), t, userData))
      ensures LinksStay(old(View()), View())
      ensures Took(old(rgFreeMask), rgFreeMask, got) && OfType(got, rgBlockType, t)
      ensures KeepsUsed(old(rgBlockType), rgBlockType, old(rgFreeMask))
      ensures old(Flagged()) ==> Flagged()
      ensures refusals > old(refusals) <==> |got| < count && !RanOut(|got|, 0, old(shape.free), t, userData)
      ensures refusals >= old(refusals)
      ensures got != [] ==> t < |rgHint| && rgHint[t] == got[0] / HANDLES_PER_BLOCK
    {
      hide HintUsed, Ascending, Inv, Took, OfType, KeepsUsed, CannotInsert, UsedUp, Exhausted, LinksStay, NoneFreed,
          RanOut;
      ghost var s0, free0, blocks: nat, owed0 := View(), shape.free, 0, shape.owed;
      InvSizes(s0, shape, P, userData);
      FreshStart(s0.mask, s0.btype, t);
      TookNone(s0.mask);
      UsedUpNone(free0, s0.commit, t, userData);
      LinksSame(s0, s0);
      got := [];
      var remain: nat := count;
      var more := true;
      while more
        invariant Inv(View(), shape, P, userData) && |shape.owed| == MAX_INTERNAL_TYPES
          && shape.owed == owed0[t := |got|]
        invariant remain + |got| == count && (more ==> remain > 0)
        invariant Took(s0.mask, rgFreeMask, got) && OfType(got, rgBlockType, t)
          && KeepsUsed(s0.btype, rgBlockType, s0.mask)
        invariant more ==>
          |got| == blocks * HANDLES_PER_BLOCK && UsedUp(free0, shape.free, s0.commit, bCommitLine, t, userData, blocks)
        invariant !more && remain > 0 ==> Exhausted(|got|, 0, free0, s0.commit, t, userData)
        invariant LinksStay(s0, View()) && (more ==> NoneFreed(s0.btype, rgBlockType)) && (old(Flagged()) ==> Flagged())
        invariant got != [] ==> t < |rgHint| && rgHint[t] == got[0] / HANDLES_PER_BLOCK
        invariant if !more && remain > 0 && !RanOut(|got|, 0, free0, t, userData) then refusals > old(refusals)
                  else refusals == old(refusals)
        decreases remain, more
      {
        ghost var s1, free1 := View(), shape.free;
        InvSizes(s1, shape, P, userData);
        if got != [] { HintTaken(s0, s1, t, got); }
        var ok, first := AllocBlock(t, remain == count, remain, s0.mask, s0.btype, got);
        LinksMore(s0, s1, View());
        if ok {
          UsedUpMore(free0, free1, shape.free, s0.commit, s1.commit, bCommitLine, t, userData, blocks);
          blocks := blocks + 1;
        } else {
          FailsAfter(free0, free1, s0.commit, s1.commit, t, userData, blocks);
          TakenAfter(free0, free1, s0.commit, s1.commit, t, userData, blocks);
        }
        got := got + first;
        remain := remain - |first|;
        more := ok && remain > 0;
      }
    }

    /** Takes the first handles of a block that has just been given type `t`. */
    method FillBlock(t: nat, b: nat, wanted: nat, ghost was: seq<nat>) returns (got: seq<nat>)
      requires Inv(View(), shape, P, userData) && t < MAX_PUBLIC_TYPES && 0 < wanted <= HANDLES_PER_BLOCK
      requires TookBlock(was, rgBlockType, t, b) && |rgFreeMask| == 2 * |was| && EmptyBlock(rgFreeMask, b)
        && t < |shape.owed|
      modifies `rgFreeMask, `shape
      ensures Inv(View(), shape, P, userData)
        && shape == old(shape).(owed := old(shape.owed)[t := old(shape.owed)[t] + wanted])
      ensures Took(old(rgFreeMask), rgFreeMask, got) && |got| == wanted && OfType(got, rgBlockType, t)
      ensures old(Flagged()) ==> Flagged()
      ensures got[0] / HANDLES_PER_BLOCK == b
    {
      hide Ascending, Inv, Took, CountedDown, OnlyBlock, BlockFree;
      ghost var s, sh := View(), shape;
      CountedNone(rgFreeMask, rgBlockType, t);
      got := BlockAllocInitial(b, wanted);
      CountedDownMore(s.mask, s.mask, rgFreeMask, rgBlockType, t, 0, b, wanted);
      shape := Shape(sh.chain, sh.free, sh.owed[t := sh.owed[t] + wanted]);
      OwedRising(sh, shape.owed);
      InvSizes(s, sh, P, userData);
      MasksKeep(s, View(), sh, shape, t, wanted, P, userData);
    }

    /** Between operations nothing is owed to the free counts. */
    ghost predicate Valid()
      reads this
    {
      Inv(View(), shape, P, userData) && shape.owed == Filled(MAX_INTERNAL_TYPES, 0) && Flagged()
    }

    /** `SegmentAllocHandles`: handles from the blocks of the type, then from free blocks. */
    method AllocHandles(t: nat, count: nat) returns (got: seq<nat>)
      requires Valid() && t < MAX_PUBLIC_TYPES
      modifies this
      ensures Valid() && Took(old(rgFreeMask), rgFreeMask, got) && OfType(got, rgBlockType, t)
      ensures t < |old(rgFreeCount)| && 0 <= old(rgFreeCount)[t] && |got| <= count
      ensures |got| < count ==> Exhausted(|got|, old(rgFreeCount)[t], old(shape.free), old(bCommitLine), t, userData)
      ensures KeepsUsed(old(rgBlockType), rgBlockType, old(rgFreeMask)) && bSequence == old(bSequence)
      ensures Used(rgFreeMask) == old(Used(rgFreeMask)) + Elems(got) && |Elems(got)| == |got|
      ensures LinksStay(old(View()), View()) && DataFollows(old(View()), View())
      ensures refusals > old(refusals) <==>
        |got| < count && !RanOut(|got|, old(rgFreeCount)[t], old(shape.free), t, userData)
    {
      hide Walked, Ascending, Inv, Took, OfType, KeepsUsed, Exhausted, LinksStay, DataFollows, Used, Elems;
      InvSizes(View(), shape, P, userData);
      ghost var s0, sh0 := View(), shape;
      ghost var m0, btype0, avail := rgFreeMask, rgBlockType, rgFreeCount;
      ghost var walk;
      got, walk := AllocFromTypeChain(t, count);
      InvSizes(View(), shape, P, userData);
      FreshStart(rgFreeMask, btype0, t);
      ghost var m1, btype1 := rgFreeMask, rgBlockType;
      ghost var s1 := View();
      LinksSame(s0, s1);
      KeepsUsedMore(m0, m1, got, btype0, btype1);
      if |got| < count {
        var more := AllocFromFreeList(t, count - |got|);
        LinksMore(s0, s1, View());
        StillUsed(m0, m1, btype0, btype1, rgBlockType, got, t);
        TookMore(m0, m1, rgFreeMask, got, more);
        OfTypeMore(got, more, rgBlockType, t);
        if |more| < count - |got| { ExhaustedMore(|more|, avail[t], old(shape.free), old(bCommitLine), t, userData); }
        got := got + more;
      }
      DataFollowsOwner(s0, View(), sh0, shape, P, userData);
      TookUsed(m0, rgFreeMask, got);
    }

    /** `BlockFreeHandlesInMask`: marks handles free from the front of the array while they belong to mask `w`. */
    method FreeInMask(w: nat, hs: seq<int>) returns (freed: nat, actual: nat, allFree: bool)
      requires w < |rgFreeMask| && hs != [] && 32 * w <= hs[0] < 32 * w + 32
      modifies `rgFreeMask
      ensures 0 < freed && PrefixInside(hs, freed, 32 * w, 32 * w + 32)
      ensures |rgFreeMask| == |old(rgFreeMask)| && rgFreeMask == old(rgFreeMask)[w := rgFreeMask[w]]
        && Gave(old(rgFreeMask), rgFreeMask, hs[..freed])
      ensures FreeIn(rgFreeMask[w]) == FreeIn(old(rgFreeMask)[w]) + actual
      ensures allFree == (rgFreeMask[w] == MASK_EMPTY)
    {
      hide FreeIn, Gave;
      ghost var x := rgFreeMask[w];
      var firstHandle, lastHandle := HANDLES_PER_MASK * w, HANDLES_PER_MASK * w + HANDLES_PER_MASK;
      var freeMask := rgFreeMask[w];
      var bogus := 0;
      freed := 0;
      while freed < |hs| && firstHandle <= hs[freed] < lastHandle
        invariant freed <= |hs| && Inside(hs[..freed], 32 * w, 32 * w + 32) && WordGave(x, freeMask, w, hs[..freed])
        invariant 0 <= bogus <= freed && FreeIn(freeMask) == FreeIn(x) + freed - bogus
        invariant freed == 0 ==> 32 * w <= hs[0] < 32 * w + 32
        invariant rgFreeMask == old(rgFreeMask)
      {
        var handle := hs[freed];
        var index := handle - firstHandle;
        if freeMask[index] { bogus := bogus + 1; }
        WordGaveNext(x, freeMask, w, hs[..freed], handle);
        freeMask := Or(freeMask, BitAt(index));
        assert hs[..freed + 1] == hs[..freed] + [handle];
        freed := freed + 1;
      }
      WordGaveMask(rgFreeMask, w, freeMask, hs[..freed]);
      rgFreeMask := rgFreeMask[w := freeMask];
      allFree := freeMask == MASK_EMPTY;
      actual := freed - bogus;
    }

    /** `BlockFreeHandles`: marks handles free from the front of the array while they belong to block `b`. It asks
        for a scan if every mask it touched was left without handles and the block is not locked. */
    method FreeInBlock(b: nat, hs: seq<int>) returns (freed: nat, actual: nat, scan: bool)
      requires 2 * b + 1 < |rgFreeMask| && b < |rgLocks| && hs != [] && 64 * b <= hs[0] < 64 * b + 64
      modifies `rgFreeMask
      ensures 0 < freed && PrefixInside(hs, freed, 64 * b, 64 * b + 64)
      ensures OnlyBlock(old(rgFreeMask), rgFreeMask, b) && Gave(old(rgFreeMask), rgFreeMask, hs[..freed])
      ensures BlockFree(rgFreeMask, b) == BlockFree(old(rgFreeMask), b) + actual
      ensures scan <==> rgLocks[b] == 0 && RunsEmpty(old(rgFreeMask), [], hs[..freed])
    {
      hide FreeIn, Gave, RunsEmpty;
      ghost var m0 := rgFreeMask;
      var firstHandle, lastHandle := b * HANDLES_PER_BLOCK, b * HANDLES_PER_BLOCK + HANDLES_PER_BLOCK;
      var allMasksFree := true;
      freed, actual := 0, 0;
      GaveNone(m0, hs);
      RunsNone(m0, []);
      while freed < |hs| && firstHandle <= hs[freed] < lastHandle
        invariant freed <= |hs| && |rgFreeMask| == |m0| && OnlyBlock(m0, rgFreeMask, b)
        invariant Inside(hs[..freed], 64 * b, 64 * b + 64) && Gave(m0, rgFreeMask, hs[..freed])
        invariant BlockFree(rgFreeMask, b) == BlockFree(m0, b) + actual
        invariant freed == 0 ==> 64 * b <= hs[0] < 64 * b + 64
        invariant allMasksFree <==> RunsEmpty(m0, [], hs[..freed])
        invariant 0 < freed < |hs| ==> hs[freed - 1] / 32 != hs[freed] / 32
      {
        ghost var m1 := rgFreeMask;
        var mask := (hs[freed] - firstHandle) / HANDLES_PER_MASK;
        var n, a, free := FreeInMask(MASKS_PER_BLOCK * b + mask, hs[freed..]);
        GaveMore(m0, m1, rgFreeMask, hs, freed, n);
        InsideMore(hs, freed, n, 64 * b, 64 * b + 64);
        assert (2 * b + mask) / 2 == b;
        NextMask(m0, rgFreeMask, hs, freed, n, 2 * b + mask);
        if !free { allMasksFree := false; }
        freed, actual := freed + n, actual + a;
      }
      scan := allMasksFree && rgLocks[b] == 0;
    }

    /** The loop of `SegmentFreeHandles`. */
    method FreeInSegment(t: nat, hs: seq<int>) returns (freed: nat, actual: nat, scan: bool)
      requires |rgFreeMask| == 2 * |rgBlockType| && |rgLocks| == |rgBlockType|
      requires forall k | 0 <= k < |hs| && 0 <= hs[k] < 64 * |rgBlockType| :: rgBlockType[hs[k] / 64] == t
      modifies `rgFreeMask
      ensures freed <= |hs| && PrefixInside(hs, freed, 0, 64 * |rgBlockType|) && |rgFreeMask| == 2 * |rgBlockType|
      ensures Gave(old(rgFreeMask), rgFreeMask, hs[..freed])
        && CountedDown(old(rgFreeMask), rgFreeMask, rgBlockType, t, 0 - actual)
      ensures scan <==> Asks(old(rgFreeMask), rgLocks, [], hs[..freed])
    {
      hide Gave, CountedDown, BlockFree, RunsEmpty, Asks;
      ghost var m0 := rgFreeMask;
      freed, actual, scan := 0, 0, false;
      GaveNone(m0, hs);
      CountedNone(m0, rgBlockType, t);
      AsksNone(m0, rgLocks, []);
      while freed < |hs| && 0 <= hs[freed] < HANDLES_PER_BLOCK * |rgBlockType|
        invariant freed <= |hs| && |rgFreeMask| == 2 * |rgBlockType|
        invariant Inside(hs[..freed], 0, 64 * |rgBlockType|) && Gave(m0, rgFreeMask, hs[..freed])
        invariant CountedDown(m0, rgFreeMask, rgBlockType, t, 0 - actual)
        invariant scan <==> Asks(m0, rgLocks, [], hs[..freed])
        invariant 0 < freed < |hs| ==> hs[freed - 1] / 64 != hs[freed] / 64
      {
        ghost var m1 := rgFreeMask;
        var b := hs[freed] / HANDLES_PER_BLOCK;
        var n, a, s := FreeInBlock(b, hs[freed..]);
        GaveMore(m0, m1, rgFreeMask, hs, freed, n);
        InsideMore(hs, freed, n, 0, 64 * |rgBlockType|);
        ghost var gained: int := a;
        CountedDownMore(m0, m1, rgFreeMask, rgBlockType, t, 0 - actual, b, -gained);
        NextBlock(m0, m1, rgLocks, hs, freed, n, b);
        if s { scan := true; }
        freed, actual := freed + n, actual + a;
      }
    }

    /** `SegmentFreeHandles`: frees handles from the front of the array while they belong to this segment, in any
        order, and then, if that was asked for, takes out the blocks that hold no handle. */
    method FreeHandles(t: nat, hs: seq<int>) returns (freed: nat)
      requires Valid() && t < MAX_PUBLIC_TYPES
      requires forall k | 0 <= k < |hs| && 0 <= hs[k] < 64 * |rgBlockType| :: rgBlockType[hs[k] / 64] == t
      modifies this
      ensures Valid() && PrefixInside(hs, freed, 0, 64 * |rgBlockType|)
      ensures Gave(old(rgFreeMask), rgFreeMask, hs[..freed]) && KeepsUsed(old(rgBlockType), rgBlockType, rgFreeMask)
      ensures bSequence == old(bSequence) && Used(rgFreeMask) == set h | h in old(Used(rgFreeMask)) && h !in hs[..freed]
      ensures LinksStay(old(View()), View()) && DataFollows(old(View()), View())
      ensures Released(old(View()), View(), t, [hs[..freed]])
      ensures KeptTidy(old(View()), View(), t) <==> forall b: nat :: !Missed(old(View()), t, [hs[..freed]], b)
      ensures fNeedsScavenging <==>
        old(fNeedsScavenging) || (Asks(old(rgFreeMask), old(rgLocks), [], hs[..freed])
            && HeldBack(old(View()), t, hs[..freed]))
    {
      hide Ascending, Inv, Loose, Gave, CountedDown, KeepsUsed, PrefixInside, DataGiven, DataOwned, KeptTidy, Missed,
          Shrunk,
      LinksStay,
        DataFollows, Released, Asks, HeldBack, Used;
      InvSizes(View(), shape, P, userData);
      ghost var s0, sh0 := View(), shape;
      var actual, scan;
      freed, actual, scan := FreeInSegment(t, hs);
      rgFreeCount := rgFreeCount[t := rgFreeCount[t] + actual];
      MasksKeep(s0, View(), sh0, sh0, t, 0 - actual, P, userData);
      FreshStart(rgFreeMask, rgBlockType, t);
      ghost var s1 := View();
      GaveUsed(s0.mask, rgFreeMask, hs[..freed]);
      LinksSame(s0, s1);
      if scan {
        var later := RemoveNow(t, hs[..freed], s0);
        LinksShrunk(s0, s1, View());
        if later {
          fResortChains := true;
          fNeedsScavenging := true;
        }
      } else {
        ReleasedOnly(s0, s1, t, hs[..freed]);
      }
      TidyExactly(s0, View(), t, [hs[..freed]]);
      DataFollowsOwner(s0, View(), sh0, shape, P, userData);
    }

    /** `RemoveFreeBlocks` after `v` was freed, which asked for a scan; the segment was `s0` before. */
    method RemoveNow(t: nat, ghost v: seq<int>, ghost s0: Seg) returns (later: bool)
      requires Inv(View(), shape, P, userData) && t < MAX_PUBLIC_TYPES && |s0.mask| == 2 * |s0.btype|
      requires Gave(s0.mask, rgFreeMask, v) && s0.btype == rgBlockType && s0.locks == rgLocks
        && Asks(s0.mask, s0.locks, [], v)
      modifies `rgAllocation, `rgBlockType, `rgUserData, `rgLocks, `rgTail, `rgHint, `rgFreeCount, `bFreeList,
      `fResortChains, `shape
      ensures Inv(View(), shape, P, userData) && shape.owed == old(shape.owed)
      ensures KeepsUsed(old(rgBlockType), rgBlockType, rgFreeMask) && Shrunk(old(View()), View())
      ensures |rgBlockType| == |s0.btype| && Released(s0, View(), t, [v])
      ensures later <==> HeldBack(s0, t, v)
      ensures old(Flagged()) ==> Flagged()
    {
      hide Ascending, Loose, DataGiven, DataOwned, Cleaned, LocksKept, Shrunk, Released, HeldBack, Asks, Gave, Stuck;
      ghost var s, sh := View(), shape;
      LooseParts(s, sh, P, userData);
      LooseReady(s, sh, t, P, userData);
      StuckMeans(s0, s, sh.chain[t], t, v);
      later := RemoveFreeBlocks(t);
      CleanedKeepsUsed(s, View(), t);
      CleanedShrunk(s, View(), t);
      CleanedReleased(s0, s, View(), t, v);
    }

    /** `BlockLock` on a block of handles, as a scan does while it looks at the block. */
    method LockBlock(b: nat)
      requires Valid() && b < |rgBlockType| && rgBlockType[b] < MAX_PUBLIC_TYPES
      modifies `rgLocks
      ensures Valid() && |rgLocks| == |old(rgLocks)| && b < |rgLocks|
        && rgLocks == old(rgLocks)[b := old(rgLocks)[b] + 1]
    {
      hide Ascending, Types, FreeOk, Counts, Lines, DataGiven, DataOwned;
      ghost var s := View();
      InvSizes(s, shape, P, userData);
      rgLocks := rgLocks[b := rgLocks[b] + 1];
      LockFrame(s, View(), shape, b, P, userData);
    }

    method UnlockBlock(b: nat)
      requires Valid() && b < |rgBlockType| && rgBlockType[b] < MAX_PUBLIC_TYPES && b < |rgLocks| && rgLocks[b] > 0
      modifies `rgLocks
      ensures Valid() && |rgLocks| == |old(rgLocks)| && rgLocks == old(rgLocks)[b := old(rgLocks)[b] - 1]
    {
      hide Ascending, Types, FreeOk, Counts, Lines, DataGiven, DataOwned;
      ghost var s := View();
      InvSizes(s, shape, P, userData);
      rgLocks := rgLocks[b := rgLocks[b] - 1];
      LockFrame(s, View(), shape, b, P, userData);
    }
  }
}
