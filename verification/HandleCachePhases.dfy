/** Every phase of the owner of the table lock keeps the invariant of the handle cache. */
module HandleCachePhases {
  import opened HandleCache
  import opened HandleCacheInvariant
  import opened HandleCacheSteps

  predicate Owner(s: Cache, t: Tid, alloc: bool, ph: Phase) {
    s.lock == Locked(t, ph) && t in s.threads && s.threads[t] == Rebalancing(alloc)
  }

  /** The owner moves on to phase `ph'` and no other thread moves. */
  lemma NextPhaseLock(s: Cache, s': Cache, t: Tid, alloc: bool, ph': Phase)
    requires LockOk(s) && Hands(s) && s.lock.Locked? && s.lock.owner == t
    requires t in s.threads && s.threads[t] == Rebalancing(alloc)
    requires s'.threads == s.threads && s'.clients == s.clients && s'.lock == Locked(t, ph')
    requires !ph'.Claimed? && PhaseOk(s', alloc, ph')
    requires forall k | InScratch(ph', k) :: Slot(ScratchOf(ph'), k) != 0
    ensures LockOk(s') && Hands(s')
  {
  }

  /** The owner moves on without touching a bank. */
  lemma LocalPhaseKeeps(s: Cache, t: Tid, alloc: bool, ph: Phase, ph': Phase)
    requires Inv(s) && Owner(s, t, alloc, ph)
    requires !ph'.Claimed? && PhaseOk(s, alloc, ph')
    requires Owned(To(s, t, ph')) == Owned(s) && Taken(To(s, t, ph')) == Taken(s)
    requires forall l :: At(To(s, t, ph'), l) == At(s, l)
    requires forall k | InScratch(ph', k) :: Slot(ScratchOf(ph'), k) != 0
    ensures Inv(To(s, t, ph'))
  {
    NextPhaseLock(s, To(s, t, ph'), t, alloc, ph');
    PlacesSame(s, To(s, t, ph'));
  }

  lemma NotInBanks(s: Cache, t: Tid, alloc: bool)
    requires t in s.threads && s.threads[t] == Rebalancing(alloc)
    ensures forall i :: !Reads(s.threads, t, i) && !Writes(s.threads, t, i)
  {
  }

  // ---------------------------------------------------------------- the miss handlers

  lemma RetryAllocKeeps(s: Cache, t: Tid, x: Handle)
    requires Inv(s) && Owner(s, t, true, Retry(x))
    ensures s.r - 1 < 0 ==> Inv(To(s.(r := s.r - 1), t, Suspend(x)))
    ensures s.r - 1 >= 0 ==> Inv(Put(To(s.(r := s.r - 1), t, Claimed), t, AllocGot(s.r - 1, true)))
  {
    if s.r - 1 < 0 {
      var s' := To(s.(r := s.r - 1), t, Suspend(x));
      assert Owned(s') == Owned(s) && Taken(s') == Taken(s);
      NextPhaseLock(s, s', t, true, Suspend(x));
      PlacesSame(s, s');
    } else {
      var s' := Put(To(s.(r := s.r - 1), t, Claimed), t, AllocGot(s.r - 1, true));
      NotInBanks(s, t, true);
      AllocClaimBanks(s, s', t, true);
      PlacesSame(s, s');
    }
  }

  lemma RetryFreeKeeps(s: Cache, t: Tid, x: Handle)
    requires Inv(s) && Owner(s, t, false, Retry(x))
    ensures s.f - 1 < 0 ==> Inv(To(s.(f := s.f - 1), t, Suspend(x)))
    ensures s.f - 1 >= 0 ==> Inv(Put(To(s.(f := s.f - 1), t, Claimed), t, FreeGot(x, s.f - 1, true)))
  {
    hide Placed, ReserveSide, FreeSide;
    if s.f - 1 < 0 {
      var s' := To(s.(f := s.f - 1), t, Suspend(x));
      assert Owned(s') == Owned(s) && Taken(s') == Taken(s);
      NextPhaseLock(s, s', t, false, Suspend(x));
      PlacesSame(s, s');
    } else {
      var s' := Put(To(s.(f := s.f - 1), t, Claimed), t, FreeGot(x, s.f - 1, true));
      NotInBanks(s, t, false);
      FreeClaimBanks(s, s', t, x, true);
      PlacesMove(s, s', Extra, Hand(t));
    }
  }

  lemma SuspendAllocKeeps(s: Cache, t: Tid, x: Handle)
    requires Inv(s) && Owner(s, t, true, Suspend(x))
    ensures Inv(To(s.(f := 0), t, Begin(x, 0, Clamp(s.f))))
  {
    var s' := To(s.(f := 0), t, Begin(x, 0, Clamp(s.f)));
    assert Owned(s') == Owned(s) && Taken(s') == Taken(s);
    NextPhaseLock(s, s', t, true, Begin(x, 0, Clamp(s.f)));
    PlacesSame(s, s');
  }

  lemma SuspendFreeKeeps(s: Cache, t: Tid, x: Handle)
    requires Inv(s) && Owner(s, t, false, Suspend(x))
    ensures Inv(To(s.(r := 0), t, Begin(x, Clamp(s.r), 0)))
  {
    var s' := To(s.(r := 0), t, Begin(x, Clamp(s.r), 0));
    assert Owned(s') == Owned(s) && Taken(s') == Taken(s);
    NextPhaseLock(s, s', t, false, Begin(x, Clamp(s.r), 0));
    PlacesSame(s, s');
  }

  lemma LeavingKeeps(s: Cache, t: Tid, alloc: bool, out: Handle, pc: Pc)
    requires Inv(s) && Owner(s, t, alloc, Leaving(out))
    requires pc == if alloc then AllocReturn(out) else Idle
    ensures Inv(Put(s.(lock := Unlocked), t, pc))
  {
    hide Placed, ReserveSide, FreeSide;
    var s' := Put(s.(lock := Unlocked), t, pc);
    NotInBanks(s, t, alloc);
    ReserveSideSame(s.reserve, Owned(s), s.threads, t, pc);
    FreeSideSame(s.free, Taken(s), s.threads, t, pc);
    assert Owned(s') == Owned(s) && Taken(s') == Taken(s);
    if alloc {
      PlacesMove(s, s', Extra, Hand(t));
    } else {
      PlacesSame(s, s');
    }
  }

  // ---------------------------------------------------------------- rebalancing in place

  lemma BeginMoveKeeps(s: Cache, t: Tid, alloc: bool, x: Handle, rb: int, fb: int, n: int)
    requires Inv(s) && Owner(s, t, alloc, Begin(x, rb, fb))
    requires n == if BANK - fb > BANK - rb then BANK - rb else BANK - fb
    requires LOWATER <= rb + (BANK - fb) + (if x != 0 then 1 else 0) <= HIWATER
    ensures Inv(To(s, t, Move(x, rb, fb, n, n, WaitSrc)))
  {
    var s' := To(s, t, Move(x, rb, fb, n, n, WaitSrc));
    assert Owned(s') == Owned(s) && Taken(s') == Taken(s);
    LocalPhaseKeeps(s, t, alloc, s.lock.phase, s'.lock.phase);
  }

  lemma MoveWaitKeeps(s: Cache, t: Tid, alloc: bool, x: Handle, rb: int, fb: int, n: int, k: int, at: MoveAt)
    requires Inv(s) && Owner(s, t, alloc, Move(x, rb, fb, n, k, at)) && k != 0
    requires (at == WaitSrc && Slot(s.free, fb + k - 1) != 0) || (at == WaitDst && Slot(s.reserve, rb + k - 1) == 0)
    ensures Inv(To(s, t, Move(x, rb, fb, n, k, if at == WaitSrc then WaitDst else Copy)))
  {
    hide Placed, ReserveSide, FreeSide;
    var s' := To(s, t, Move(x, rb, fb, n, k, if at == WaitSrc then WaitDst else Copy));
    assert Owned(s') == Owned(s) && Taken(s') == Taken(s);
    LocalPhaseKeeps(s, t, alloc, s.lock.phase, s'.lock.phase);
  }

  lemma MoveCopyFrame(s: Cache, s': Cache, t: Tid, x: Handle, rb: int, fb: int, n: int, k: int)
    requires s.lock == Locked(t, Move(x, rb, fb, n, k, Copy)) && |s.free| == |s.reserve| == BANK
    requires 0 <= rb && 0 <= fb && 1 <= k <= n && rb + n <= BANK && fb + n <= BANK && Slot(s.reserve, rb + k - 1) == 0
    requires s' == To(s.(reserve := SetSlot(s.reserve, rb + k - 1, Slot(s.free, fb + k - 1))), t,
      Move(x, rb, fb, n, k, Clear))
    ensures Owned(s') == Owned(s) + {rb + k - 1} && Taken(s') == Taken(s)
    ensures Moved(s, s', FreeSlot(fb + k - 1), ReserveSlot(rb + k - 1))
  {
  }

  lemma MoveCopyKeeps(s: Cache, t: Tid, alloc: bool, x: Handle, rb: int, fb: int, n: int, k: int)
    requires Inv(s) && Owner(s, t, alloc, Move(x, rb, fb, n, k, Copy))
    ensures Inv(To(s.(reserve := SetSlot(s.reserve, rb + k - 1, Slot(s.free, fb + k - 1))), t,
      Move(x, rb, fb, n, k, Clear)))
  {
    var i, h := rb + k - 1, Slot(s.free, fb + k - 1);
    var s' := To(s.(reserve := SetSlot(s.reserve, i, h)), t, Move(x, rb, fb, n, k, Clear));
    MoveCopyFrame(s, s', t, x, rb, fb, n, k);
    ReserveSideGive(s.reserve, Owned(s), s.threads, i, h);
    NextPhaseLock(s, s', t, alloc, s'.lock.phase);
    PlacesMoved(s, s', FreeSlot(fb + k - 1), ReserveSlot(i));
  }

  lemma MoveClearKeeps(s: Cache, t: Tid, alloc: bool, x: Handle, rb: int, fb: int, n: int, k: int)
    requires Inv(s) && Owner(s, t, alloc, Move(x, rb, fb, n, k, Clear))
    ensures Inv(To(s.(free := SetSlot(s.free, fb + k - 1, 0)), t, Move(x, rb, fb, n, k - 1, WaitSrc)))
  {
    hide Placed, ReserveSide, FreeSide;
    var j := fb + k - 1;
    var s' := To(s.(free := SetSlot(s.free, j, 0)), t, Move(x, rb, fb, n, k - 1, WaitSrc));
    FreeSideTake(s.free, Taken(s), s.threads, j);
    assert Owned(s') == Owned(s) && Taken(s') == Taken(s) - {j};
    NextPhaseLock(s, s', t, alloc, s'.lock.phase);
    PlacesSame(s, s');
  }

  lemma MoveDoneKeeps(s: Cache, t: Tid, alloc: bool, x: Handle, rb: int, fb: int, n: int, at: MoveAt)
    requires Inv(s) && Owner(s, t, alloc, Move(x, rb, fb, n, 0, at))
    ensures Inv(To(s, t, Adjust(x, rb + n, fb + n)))
  {
    var s' := To(s, t, Adjust(x, rb + n, fb + n));
    assert Owned(s') == Owned(s) && Taken(s') == Taken(s);
    LocalPhaseKeeps(s, t, alloc, s.lock.phase, s'.lock.phase);
  }

  lemma AdjustInFrame(s: Cache, s': Cache, t: Tid, x: Handle, rb: int, fb: int)
    requires s.lock == Locked(t, Adjust(x, rb, fb)) && |s.free| == BANK && 1 <= fb <= BANK && s.free[fb - 1] == 0
    requires s' == To(s.(free := SetSlot(s.free, fb - 1, x)), t, PublishFree(0, rb, fb - 1, 0, 0, []))
    ensures Owned(s') == Owned(s) && Taken(s') == Taken(s) + {fb - 1}
    ensures Moved(s, s', Extra, FreeSlot(fb - 1))
  {
  }

  lemma AdjustInKeeps(s: Cache, t: Tid, alloc: bool, x: Handle, rb: int, fb: int)
    requires Inv(s) && Owner(s, t, alloc, Adjust(x, rb, fb)) && x != 0
    ensures Inv(To(s.(free := SetSlot(s.free, fb - 1, x)), t, PublishFree(0, rb, fb - 1, 0, 0, [])))
  {
    var s' := To(s.(free := SetSlot(s.free, fb - 1, x)), t, PublishFree(0, rb, fb - 1, 0, 0, []));
    assert fb - 1 !in Taken(s);
    FreeSideGive(s.free, Taken(s), s.threads, fb - 1, x);
    AdjustInFrame(s, s', t, x, rb, fb);
    NextPhaseLock(s, s', t, alloc, s'.lock.phase);
    PlacesMoved(s, s', Extra, FreeSlot(fb - 1));
  }

  lemma AdjustOutKeeps(s: Cache, t: Tid, rb: int, fb: int)
    requires Inv(s) && Owner(s, t, true, Adjust(0, rb, fb))
    ensures Inv(To(s, t, AdjustClear(Slot(s.reserve, rb - 1), rb - 1, fb)))
  {
    var s' := To(s, t, AdjustClear(Slot(s.reserve, rb - 1), rb - 1, fb));
    assert rb - 1 in Owned(s);
    assert Owned(s') == Owned(s) && Taken(s') == Taken(s);
    NextPhaseLock(s, s', t, true, s'.lock.phase);
    PlacesMove(s, s', ReserveSlot(rb - 1), Extra);
  }

  lemma AdjustClearKeeps(s: Cache, t: Tid, alloc: bool, out: Handle, rb: int, fb: int)
    requires Inv(s) && Owner(s, t, alloc, AdjustClear(out, rb, fb))
    ensures Inv(To(s.(reserve := SetSlot(s.reserve, rb, 0)), t, PublishFree(out, rb, fb, 0, 0, [])))
  {
    var s' := To(s.(reserve := SetSlot(s.reserve, rb, 0)), t, PublishFree(out, rb, fb, 0, 0, []));
    ReserveSideTake(s.reserve, Owned(s), s.threads, rb);
    assert Owned(s') == Owned(s) - {rb} && Taken(s') == Taken(s);
    NextPhaseLock(s, s', t, alloc, s'.lock.phase);
    PlacesSame(s, s');
  }

  // ---------------------------------------------------------------- publishing

  lemma PublishFreeKeeps(s: Cache, t: Tid, alloc: bool, out: Handle, rb: int, fb: int, lo: int, hi: int,
      scratch: seq<Handle>)
    requires Inv(s) && Owner(s, t, alloc, PublishFree(out, rb, fb, lo, hi, scratch))
    ensures Inv(PublishFreeStep(s, t, out, rb, fb, lo, hi, scratch))
  {
    hide Placed, ReserveSide, FreeSide;
    var s' := PublishFreeStep(s, t, out, rb, fb, lo, hi, scratch);
    assert Owned(s') == Owned(s) && Taken(s') == Taken(s);
    assert forall k | InScratch(s'.lock.phase, k) :: InScratch(s.lock.phase, k);
    NextPhaseLock(s, s', t, alloc, s'.lock.phase);
    PlacesSame(s, s');
  }

  lemma FillWaitKeeps(s: Cache, t: Tid, alloc: bool, out: Handle, k: int, total: int, lo: int, scratch: seq<Handle>)
    requires Inv(s) && Owner(s, t, alloc, Fill(out, k, total, false, lo, scratch)) && k != 0
      && Slot(s.reserve, k - 1) == 0
    ensures Inv(To(s, t, Fill(out, k, total, true, lo, scratch)))
  {
    var s' := To(s, t, Fill(out, k, total, true, lo, scratch));
    assert Owned(s') == Owned(s) && Taken(s') == Taken(s);
    assert forall k | InScratch(s'.lock.phase, k) :: InScratch(s.lock.phase, k);
    LocalPhaseKeeps(s, t, alloc, s.lock.phase, s'.lock.phase);
  }

  lemma FillDoneKeeps(s: Cache, t: Tid, alloc: bool, out: Handle, total: int, ready: bool, lo: int,
      scratch: seq<Handle>)
    requires Inv(s) && Owner(s, t, alloc, Fill(out, 0, total, ready, lo, scratch))
    ensures Inv(To(s, t, PublishReserve(out, total)))
  {
    var s' := To(s, t, PublishReserve(out, total));
    assert Owned(s') == Owned(s) && Taken(s') == Taken(s);
    LocalPhaseKeeps(s, t, alloc, s.lock.phase, s'.lock.phase);
  }

  lemma PublishReserveKeeps(s: Cache, t: Tid, alloc: bool, out: Handle, rb: int)
    requires Inv(s) && Owner(s, t, alloc, PublishReserve(out, rb))
    ensures Inv(To(s.(r := rb), t, Leaving(out)))
  {
    var s' := To(s.(r := rb), t, Leaving(out));
    assert Owned(s') == Owned(s) && Taken(s') == Taken(s);
    NextPhaseLock(s, s', t, alloc, s'.lock.phase);
    PlacesSame(s, s');
  }

  lemma FillWriteFrame(s: Cache, s': Cache, t: Tid, out: Handle, k: int, total: int, lo: int, scratch: seq<Handle>)
    requires s.lock == Locked(t, Fill(out, k, total, true, lo, scratch)) && |s.reserve| == BANK
    requires 1 <= k <= total <= BANK && Slot(s.reserve, k - 1) == 0
    requires s' == To(s.(reserve := SetSlot(s.reserve, k - 1, Slot(scratch, lo + k - 1))), t,
                      Fill(out, k - 1, total, false, lo, scratch))
    ensures Owned(s') == Owned(s) + {k - 1} && Taken(s') == Taken(s)
    ensures forall j | InScratch(s'.lock.phase, j) :: InScratch(s.lock.phase, j)
    ensures Moved(s, s', Scratch(lo + k - 1), ReserveSlot(k - 1))
  {
  }

  lemma FillWriteKeeps(s: Cache, t: Tid, alloc: bool, out: Handle, k: int, total: int, lo: int, scratch: seq<Handle>)
    requires Inv(s) && Owner(s, t, alloc, Fill(out, k, total, true, lo, scratch)) && k != 0
    ensures Inv(To(s.(reserve := SetSlot(s.reserve, k - 1, Slot(scratch, lo + k - 1))), t,
                   Fill(out, k - 1, total, false, lo, scratch)))
  {
    var h := Slot(scratch, lo + k - 1);
    var s' := To(s.(reserve := SetSlot(s.reserve, k - 1, h)), t, Fill(out, k - 1, total, false, lo, scratch));
    FillWriteFrame(s, s', t, out, k, total, lo, scratch);
    assert InScratch(s.lock.phase, lo + k - 1);
    ReserveSideGive(s.reserve, Owned(s), s.threads, k - 1, h);
    NextPhaseLock(s, s', t, alloc, s'.lock.phase);
    PlacesMoved(s, s', Scratch(lo + k - 1), ReserveSlot(k - 1));
  }

  // ---------------------------------------------------------------- rebalancing through the scratch array

  lemma BeginGatherKeeps(s: Cache, t: Tid, alloc: bool, x: Handle, rb: int, fb: int, empty: seq<Handle>, ph': Phase)
    requires Inv(s) && Owner(s, t, alloc, Begin(x, rb, fb)) && |empty| == CACHE_TYPE_SIZE
    requires ph' == if x != 0 then Gather(rb, fb, 0, false, 1, SetSlot(empty, 0, x))
      else Gather(rb, fb, 0, false, 0, empty)
    ensures Inv(To(s, t, ph'))
  {
    hide Placed, ReserveSide, FreeSide;
    var s' := To(s, t, ph');
    assert Owned(s') == Owned(s) && Taken(s') == Taken(s);
    NextPhaseLock(s, s', t, alloc, ph');
    if x != 0 {
      PlacesMove(s, s', Extra, Scratch(0));
    } else {
      PlacesSame(s, s');
    }
  }

  lemma GatherCopyKeeps(s: Cache, t: Tid, alloc: bool, rb: int, fb: int, j: int, m: int, scratch: seq<Handle>)
    requires Inv(s) && Owner(s, t, alloc, Gather(rb, fb, j, false, m, scratch)) && j < rb
    ensures Inv(To(s, t, Gather(rb, fb, j, true, m + 1, SetSlot(scratch, m, Slot(s.reserve, j)))))
  {
    var s' := To(s, t, Gather(rb, fb, j, true, m + 1, SetSlot(scratch, m, Slot(s.reserve, j))));
    assert j in Owned(s);
    assert Owned(s') == Owned(s) && Taken(s') == Taken(s);
    assert forall i | InScratch(s'.lock.phase, i) :: i == m || InScratch(s.lock.phase, i);
    NextPhaseLock(s, s', t, alloc, s'.lock.phase);
    PlacesMove(s, s', ReserveSlot(j), Scratch(m));
  }

  lemma GatherClearKeeps(s: Cache, t: Tid, alloc: bool, rb: int, fb: int, j: int, m: int, scratch: seq<Handle>)
    requires Inv(s) && Owner(s, t, alloc, Gather(rb, fb, j, true, m, scratch))
    ensures Inv(To(s.(reserve := SetSlot(s.reserve, j, 0)), t, Gather(rb, fb, j + 1, false, m, scratch)))
  {
    var s' := To(s.(reserve := SetSlot(s.reserve, j, 0)), t, Gather(rb, fb, j + 1, false, m, scratch));
    ReserveSideTake(s.reserve, Owned(s), s.threads, j);
    assert Owned(s') == Owned(s) - {j} && Taken(s') == Taken(s);
    assert forall i | InScratch(s'.lock.phase, i) :: InScratch(s.lock.phase, i);
    NextPhaseLock(s, s', t, alloc, s'.lock.phase);
    PlacesSame(s, s');
  }

  lemma GatherDoneKeeps(s: Cache, t: Tid, alloc: bool, rb: int, fb: int, j: int, m: int, scratch: seq<Handle>)
    requires Inv(s) && Owner(s, t, alloc, Gather(rb, fb, j, false, m, scratch)) && j >= rb
    ensures Inv(To(s, t, Drain(fb, BANK - fb, WaitSrc, m, scratch)))
  {
    var s' := To(s, t, Drain(fb, BANK - fb, WaitSrc, m, scratch));
    assert Owned(s') == Owned(s) && Taken(s') == Taken(s);
    assert forall i | InScratch(s'.lock.phase, i) :: InScratch(s.lock.phase, i);
    LocalPhaseKeeps(s, t, alloc, s.lock.phase, s'.lock.phase);
  }

  lemma DrainWaitKeeps(s: Cache, t: Tid, alloc: bool, fb: int, k: int, m: int, scratch: seq<Handle>)
    requires Inv(s) && Owner(s, t, alloc, Drain(fb, k, WaitSrc, m, scratch)) && k != 0 && Slot(s.free, fb + k - 1) != 0
    ensures Inv(To(s, t, Drain(fb, k, Copy, m, scratch)))
  {
    var s' := To(s, t, Drain(fb, k, Copy, m, scratch));
    assert Owned(s') == Owned(s) && Taken(s') == Taken(s);
    assert forall i | InScratch(s'.lock.phase, i) :: InScratch(s.lock.phase, i);
    LocalPhaseKeeps(s, t, alloc, s.lock.phase, s'.lock.phase);
  }

  lemma DrainCopyFrame(s: Cache, s': Cache, t: Tid, fb: int, k: int, m: int, scratch: seq<Handle>)
    requires s.lock == Locked(t, Drain(fb, k, Copy, m, scratch)) && |s.free| == BANK
    requires InBank(fb) && 1 <= k <= BANK - fb && 0 <= m <= 1 + BANK && |scratch| == CACHE_TYPE_SIZE
    requires s' == To(s, t, Drain(fb, k, Clear, m, SetSlot(scratch, m + k - 1, Slot(s.free, fb + k - 1))))
    ensures Owned(s') == Owned(s) && Taken(s') == Taken(s)
    ensures forall i | InScratch(s'.lock.phase, i) :: i == m + k - 1 || InScratch(s.lock.phase, i)
    ensures Moved(s, s', FreeSlot(fb + k - 1), Scratch(m + k - 1))
  {
  }

  lemma DrainCopyKeeps(s: Cache, t: Tid, alloc: bool, fb: int, k: int, m: int, scratch: seq<Handle>)
    requires Inv(s) && Owner(s, t, alloc, Drain(fb, k, Copy, m, scratch))
    ensures Inv(To(s, t, Drain(fb, k, Clear, m, SetSlot(scratch, m + k - 1, Slot(s.free, fb + k - 1)))))
  {
    var s' := To(s, t, Drain(fb, k, Clear, m, SetSlot(scratch, m + k - 1, Slot(s.free, fb + k - 1))));
    DrainCopyFrame(s, s', t, fb, k, m, scratch);
    NextPhaseLock(s, s', t, alloc, s'.lock.phase);
    PlacesMoved(s, s', FreeSlot(fb + k - 1), Scratch(m + k - 1));
  }

  lemma DrainClearFrame(s: Cache, s': Cache, t: Tid, fb: int, k: int, m: int, scratch: seq<Handle>)
    requires s.lock == Locked(t, Drain(fb, k, Clear, m, scratch)) && |s.free| == BANK
    requires InBank(fb) && 1 <= k <= BANK - fb
    requires s' == To(s.(free := SetSlot(s.free, fb + k - 1, 0)), t, Drain(fb, k - 1, WaitSrc, m, scratch))
    ensures Owned(s') == Owned(s) && Taken(s') == Taken(s) - {fb + k - 1}
    ensures forall i | InScratch(s'.lock.phase, i) :: InScratch(s.lock.phase, i)
    ensures forall l :: At(s', l) == At(s, l)
  {
  }

  lemma DrainClearKeeps(s: Cache, t: Tid, alloc: bool, fb: int, k: int, m: int, scratch: seq<Handle>)
    requires Inv(s) && Owner(s, t, alloc, Drain(fb, k, Clear, m, scratch))
    ensures Inv(To(s.(free := SetSlot(s.free, fb + k - 1, 0)), t, Drain(fb, k - 1, WaitSrc, m, scratch)))
  {
    var s' := To(s.(free := SetSlot(s.free, fb + k - 1, 0)), t, Drain(fb, k - 1, WaitSrc, m, scratch));
    DrainClearFrame(s, s', t, fb, k, m, scratch);
    FreeSideTake(s.free, Taken(s), s.threads, fb + k - 1);
    NextPhaseLock(s, s', t, alloc, s'.lock.phase);
    PlacesSame(s, s');
  }

  lemma DrainDoneKeeps(s: Cache, t: Tid, alloc: bool, fb: int, at: MoveAt, m: int, scratch: seq<Handle>)
    requires Inv(s) && Owner(s, t, alloc, Drain(fb, 0, at, m, scratch))
    ensures Inv(To(s, t, Stock(m + (BANK - fb), scratch)))
  {
    var s' := To(s, t, Stock(m + (BANK - fb), scratch));
    assert Owned(s') == Owned(s) && Taken(s') == Taken(s);
    assert forall i | InScratch(s'.lock.phase, i) :: InScratch(s.lock.phase, i);
    LocalPhaseKeeps(s, t, alloc, s.lock.phase, s'.lock.phase);
  }

  lemma GiveKeeps(s: Cache, t: Tid, alloc: bool, lo: int, hi: int, scratch: seq<Handle>)
    requires Inv(s) && Owner(s, t, alloc, Give(lo, hi, scratch))
    ensures Inv(GiveStep(s, t, alloc, lo, hi, scratch))
  {
    hide Placed, ReserveSide, FreeSide;
    var s' := GiveStep(s, t, alloc, lo, hi, scratch);
    assert Owned(s') == Owned(s) && Taken(s') == Taken(s);
    assert forall i | InScratch(s'.lock.phase, i) :: InScratch(s.lock.phase, i);
    NextPhaseLock(s, s', t, alloc, s'.lock.phase);
    if alloc && lo < hi {
      PlacesMove(s, s', Scratch(hi - 1), Extra);
    } else {
      PlacesSame(s, s');
    }
  }

  lemma StoreWriteFrame(s: Cache, s': Cache, t: Tid, out: Handle, fb: int, next: int, lo: int, hi: int,
      scratch: seq<Handle>)
    requires s.lock == Locked(t, Store(out, fb, next, lo, hi, scratch)) && |s.free| == BANK
    requires 0 <= fb <= next < BANK && 0 <= lo < hi && s.free[next] == 0
    requires s' == To(s.(free := SetSlot(s.free, next, Slot(scratch, lo))), t,
      Store(out, fb, next + 1, lo + 1, hi, scratch))
    ensures Owned(s') == Owned(s) && Taken(s') == Taken(s) + {next}
    ensures forall i | InScratch(s'.lock.phase, i) :: InScratch(s.lock.phase, i)
    ensures Moved(s, s', Scratch(lo), FreeSlot(next))
  {
  }

  lemma StoreWriteKeeps(s: Cache, t: Tid, alloc: bool, out: Handle, fb: int, next: int, lo: int, hi: int,
      scratch: seq<Handle>)
    requires Inv(s) && Owner(s, t, alloc, Store(out, fb, next, lo, hi, scratch)) && next < BANK
    ensures Inv(To(s.(free := SetSlot(s.free, next, Slot(scratch, lo))), t,
      Store(out, fb, next + 1, lo + 1, hi, scratch)))
  {
    var h := Slot(scratch, lo);
    var s' := To(s.(free := SetSlot(s.free, next, h)), t, Store(out, fb, next + 1, lo + 1, hi, scratch));
    assert InScratch(s.lock.phase, lo) && next !in Taken(s);
    FreeSideGive(s.free, Taken(s), s.threads, next, h);
    StoreWriteFrame(s, s', t, out, fb, next, lo, hi, scratch);
    NextPhaseLock(s, s', t, alloc, s'.lock.phase);
    PlacesMoved(s, s', Scratch(lo), FreeSlot(next));
  }

  lemma StoreDoneKeeps(s: Cache, t: Tid, alloc: bool, out: Handle, fb: int, next: int, lo: int, hi: int,
      scratch: seq<Handle>)
    requires Inv(s) && Owner(s, t, alloc, Store(out, fb, next, lo, hi, scratch)) && next >= BANK
    ensures Inv(To(s, t, PublishFree(out, 0, fb, lo, hi, scratch)))
  {
    var s' := To(s, t, PublishFree(out, 0, fb, lo, hi, scratch));
    assert Owned(s') == Owned(s) && Taken(s') == Taken(s);
    assert forall i | InScratch(s'.lock.phase, i) :: InScratch(s.lock.phase, i);
    LocalPhaseKeeps(s, t, alloc, s.lock.phase, s'.lock.phase);
  }

  // ---------------------------------------------------------------- asking the table, sorting, giving back

  lemma StockKeeps(s: Cache, t: Tid, alloc: bool, n: int, scratch: seq<Handle>, minted: seq<Handle>)
    requires Inv(s) && Owner(s, t, alloc, Stock(n, scratch)) && Fresh(s, minted, Wanted(n, alloc))
    ensures Inv(To(s.(used := s.used + SetOf(minted)), t, Sort(n + |minted|, Write(scratch, n, minted))))
  {
    hide Placed, ReserveSide, FreeSide;
    var w := Write(scratch, n, minted);
    var s' := To(s.(used := s.used + SetOf(minted)), t, Sort(n + |minted|, w));
    assert |minted| <= Wanted(n, alloc) && n + |minted| < |scratch|;
    assert Owned(s') == Owned(s) && Taken(s') == Taken(s);
    forall k | InScratch(s'.lock.phase, k) ensures Slot(w, k) == if k < n then Slot(scratch, k) else minted[k - n] {
    }
    forall k | InScratch(s'.lock.phase, k) ensures Slot(w, k) != 0 {
      if k < n { assert InScratch(s.lock.phase, k); }
    }
    NextPhaseLock(s, s', t, alloc, s'.lock.phase);
    PlacesStock(s, s', n, minted);
  }

  /** Fresh handles arrive at scratch places `n` and up. */
  lemma PlacesStock(s: Cache, s': Cache, n: int, minted: seq<Handle>)
    requires Placed(s) && Fresh(s, minted, |minted|) && 0 <= n
    requires forall k | n <= k < n + |minted| :: At(s, Scratch(k)) == 0 && At(s', Scratch(k)) == minted[k - n]
    requires forall l: Loc | !(l.Scratch? && n <= l.k < n + |minted|) :: At(s', l) == At(s, l)
    requires s'.used == s.used + SetOf(minted)
    ensures Placed(s')
  {
    forall l, m | At(s', l) != 0 && At(s', l) == At(s', m) ensures l == m {
      assert (l.Scratch? && n <= l.k < n + |minted|) || At(s, l) in s.used;
      assert (m.Scratch? && n <= m.k < n + |minted|) || At(s, m) in s.used;
    }
    forall h | h in s'.used ensures h != 0 && exists l :: At(s', l) == h {
      if h in s.used {
        var l :| At(s, l) == h;
        assert At(s', l) == h;
      } else {
        var i :| 0 <= i < |minted| && minted[i] == h;
        assert At(s', Scratch(n + i)) == h;
      }
    }
  }

  lemma SortKeeps(s: Cache, t: Tid, alloc: bool, n: int, scratch: seq<Handle>, order: seq<Handle>)
    requires Inv(s) && Owner(s, t, alloc, Sort(n, scratch))
    requires n > HIWATER && |order| == n && multiset(order) == multiset(scratch[..n])
    ensures Inv(To(s, t, Spill(n, Write(scratch, 0, order))))
  {
    var s' := To(s, t, Spill(n, Write(scratch, 0, order)));
    SortFrame(s, s', t, n, scratch, order);
    assert forall k | 0 <= k < n :: InScratch(s.lock.phase, k) && scratch[..n][k] == Slot(scratch, k);
    SortedHands(s, n, scratch[..n], order);
    assert forall k | InScratch(s'.lock.phase, k) :: Slot(Write(scratch, 0, order), k) == order[k];
    NextPhaseLock(s, s', t, alloc, s'.lock.phase);
    PlacesSort(s, s', n, scratch[..n], order);
  }

  lemma SortedHands(s: Cache, n: int, was: seq<Handle>, order: seq<Handle>)
    requires Placed(s) && n == |order| == |was| && multiset(order) == multiset(was)
    requires forall k | 0 <= k < n :: At(s, Scratch(k)) == was[k] && was[k] != 0
    ensures Distinct(order)
    ensures forall h :: h in order <==> h in was
    ensures forall k | 0 <= k < n :: order[k] != 0
  {
    forall i, j | 0 <= i < j < n ensures was[i] != was[j] {
      assert At(s, Scratch(i)) == was[i] && At(s, Scratch(j)) == was[j];
    }
    SameMembers(was, order);
    assert forall k | 0 <= k < n :: order[k] in order;
  }

  lemma SortFrame(s: Cache, s': Cache, t: Tid, n: int, scratch: seq<Handle>, order: seq<Handle>)
    requires s.lock == Locked(t, Sort(n, scratch)) && 0 <= n == |order| < |scratch|
    requires s' == To(s, t, Spill(n, Write(scratch, 0, order)))
    ensures Owned(s') == Owned(s) && Taken(s') == Taken(s)
    ensures forall k | 0 <= k < n :: At(s, Scratch(k)) == scratch[..n][k] && At(s', Scratch(k)) == order[k]
    ensures forall l: Loc | !InRange(l, 0, n) :: At(s', l) == At(s, l)
  {
  }

  lemma NoSortKeeps(s: Cache, t: Tid, alloc: bool, n: int, scratch: seq<Handle>)
    requires Inv(s) && Owner(s, t, alloc, Sort(n, scratch))
    ensures Inv(To(s, t, Spill(n, scratch)))
  {
    var s' := To(s, t, Spill(n, scratch));
    assert Owned(s') == Owned(s) && Taken(s') == Taken(s);
    assert forall k | InScratch(s'.lock.phase, k) :: InScratch(s.lock.phase, k);
    LocalPhaseKeeps(s, t, alloc, s.lock.phase, s'.lock.phase);
  }

  predicate InRange(l: Loc, lo: int, hi: int) {
    l.Scratch? && lo <= l.k < hi
  }

  lemma PlacesSort(s: Cache, s': Cache, n: int, was: seq<Handle>, order: seq<Handle>)
    requires Placed(s) && 0 <= n == |order| == |was|
    requires forall k | 0 <= k < n :: At(s, Scratch(k)) == was[k] && At(s', Scratch(k)) == order[k]
    requires Distinct(order) && forall h :: h in order <==> h in was
    requires forall l: Loc | !InRange(l, 0, n) :: At(s', l) == At(s, l)
    requires s'.used == s.used
    ensures Placed(s')
  {
    forall l | At(s', l) != 0 ensures At(s', l) in s'.used && (InRange(l, 0, n) ==> At(s', l) in was) {
      if InRange(l, 0, n) {
        assert order[l.k] in order && At(s', Scratch(l.k)) == order[l.k];
        var j :| 0 <= j < n && was[j] == order[l.k];
        assert At(s, Scratch(j)) == was[j];
      }
    }
    forall l, m | At(s', l) != 0 && At(s', l) == At(s', m) ensures l == m {
      if !InRange(l, 0, n) && InRange(m, 0, n) {
        NotBoth(s, n, was, l);
      } else if InRange(l, 0, n) && !InRange(m, 0, n) {
        NotBoth(s, n, was, m);
      } else if InRange(l, 0, n) {
        assert At(s', Scratch(l.k)) == order[l.k] && At(s', Scratch(m.k)) == order[m.k];
      }
    }
    forall h | h in s'.used ensures exists l :: At(s', l) == h {
      var l :| At(s, l) == h;
      if InRange(l, 0, n) {
        assert At(s, Scratch(l.k)) == was[l.k] && was[l.k] in was;
        var j :| 0 <= j < n && order[j] == h;
        assert At(s', Scratch(j)) == h;
      } else {
        assert At(s', l) == h;
      }
    }
  }

  lemma NotBoth(s: Cache, n: int, was: seq<Handle>, l: Loc)
    requires Placed(s) && 0 <= n == |was| && At(s, l) != 0 && !InRange(l, 0, n)
    requires forall k | 0 <= k < n :: At(s, Scratch(k)) == was[k]
    ensures At(s, l) !in was
  {
    forall j | 0 <= j < n ensures was[j] != At(s, l) {
      assert InRange(Scratch(j), 0, n) && At(s, Scratch(j)) == was[j];
    }
  }

  /** Reordering distinct handles gives distinct handles, the same ones. */
  lemma SameMembers(was: seq<Handle>, order: seq<Handle>)
    requires multiset(order) == multiset(was)
    ensures Distinct(was) ==> Distinct(order)
    ensures forall h :: h in order <==> h in was
  {
    forall h ensures h in order <==> h in was {
      assert h in order <==> h in multiset(order);
      assert h in was <==> h in multiset(was);
    }
    if Distinct(was) {
      forall i, j | 0 <= i < j < |order| ensures order[i] != order[j] {
        if order[i] == order[j] { TwiceCounts(order, i, j); }
        DistinctCounts(was, order[i]);
      }
    }
  }

  lemma TwiceCounts(hs: seq<Handle>, i: int, j: int)
    requires 0 <= i < j < |hs| && hs[i] == hs[j]
    ensures multiset(hs)[hs[i]] >= 2
  {
    assert hs == hs[..j] + hs[j..];
    assert hs[i] in hs[..j] && hs[j] in hs[j..];
  }

  lemma {:induction false} DistinctCounts(hs: seq<Handle>, h: Handle)
    requires Distinct(hs)
    ensures multiset(hs)[h] <= 1
  {
    if |hs| > 0 {
      var n := |hs| - 1;
      assert hs == hs[..n] + [hs[n]];
      DistinctCounts(hs[..n], h);
      assert hs[n] !in hs[..n];
    }
  }

  lemma SpillKeeps(s: Cache, t: Tid, alloc: bool, n: int, scratch: seq<Handle>)
    requires Inv(s) && Owner(s, t, alloc, Spill(n, scratch)) && n > HIWATER
    ensures Inv(To(s.(used := s.used - SetOf(scratch[..n - BANK])), t, Give(n - BANK, n, scratch)))
  {
    var gone := SetOf(scratch[..n - BANK]);
    var s' := To(s.(used := s.used - gone), t, Give(n - BANK, n, scratch));
    assert Owned(s') == Owned(s) && Taken(s') == Taken(s);
    assert forall k | InScratch(s'.lock.phase, k) :: InScratch(s.lock.phase, k);
    NextPhaseLock(s, s', t, alloc, s'.lock.phase);
    assert forall k | 0 <= k < n - BANK :: At(s, Scratch(k)) == scratch[..n - BANK][k];
    forall l ensures At(s', l) == if At(s, l) in gone then 0 else At(s, l) {
      if At(s, l) in gone {
        var i :| 0 <= i < n - BANK && scratch[..n - BANK][i] == At(s, l);
        assert InScratch(s.lock.phase, i) && At(s, Scratch(i)) == At(s, l);
        assert l == Scratch(i);
      }
    }
    PlacesDrop(s, s', gone);
  }

  lemma NoSpillKeeps(s: Cache, t: Tid, alloc: bool, n: int, scratch: seq<Handle>)
    requires Inv(s) && Owner(s, t, alloc, Spill(n, scratch)) && n <= HIWATER
    ensures Inv(To(s, t, Give(0, n, scratch)))
  {
    var s' := To(s, t, Give(0, n, scratch));
    assert Owned(s') == Owned(s) && Taken(s') == Taken(s);
    assert forall k | InScratch(s'.lock.phase, k) :: InScratch(s.lock.phase, k);
    LocalPhaseKeeps(s, t, alloc, s.lock.phase, s'.lock.phase);
  }
}
