/** Every step of a thread that does not own the table lock keeps the invariant. */
module HandleCacheSteps {
  import opened HandleCache
  import opened HandleCacheInvariant

  /** A thread that holds no bank slot and is not inside the lock. */
  predicate Outside(pc: Pc) {
    !InsideLock(pc) && !pc.AllocGot? && !pc.AllocCopied? && !pc.FreeGot?
  }

  /** Only the point reached by `t` changes, from and to a point outside the banks. */
  lemma OutsideBanks(s: Cache, s': Cache, t: Tid, pc: Pc)
    requires Banks(s) && Outside(PcOf(s, t)) && !pc.AllocGot? && !pc.AllocCopied? && !pc.FreeGot?
    requires s'.reserve == s.reserve && s'.free == s.free && s'.r == s.r && s'.f == s.f
    requires s'.threads == s.threads[t := pc]
    requires Owned(s') == Owned(s) && Taken(s') == Taken(s)
    ensures Banks(s')
  {
    ReserveSideSame(s.reserve, Owned(s), s.threads, t, pc);
    FreeSideSame(s.free, Taken(s), s.threads, t, pc);
  }

  lemma OutsideLock(s: Cache, s': Cache, t: Tid, pc: Pc)
    requires LockOk(s) && !InsideLock(PcOf(s, t)) && !InsideLock(pc)
    requires s'.reserve == s.reserve && s'.free == s.free && s'.lock == s.lock
    requires s'.threads == s.threads[t := pc]
    requires s'.r == s.r || s'.r == s.r - 1
    requires s'.f == s.f || s'.f == s.f - 1
    ensures LockOk(s')
  {
  }

  lemma SameBounds(s: Cache, s': Cache)
    requires s'.lock == s.lock && s'.r == s.r && s'.f == s.f
    ensures Owned(s') == Owned(s) && Taken(s') == Taken(s)
  {
    assert forall i :: OwnedAt(s', i) == OwnedAt(s, i);
    assert forall i :: TakenAt(s', i) == TakenAt(s, i);
  }

  /** A step that only changes the point reached by `t`. */
  lemma PcOnlyKeeps(s: Cache, t: Tid, pc: Pc)
    requires Inv(s) && Outside(PcOf(s, t)) && Outside(pc)
    requires HandOf(pc) == HandOf(PcOf(s, t)) && (Freeing(pc) ==> HandOf(pc) != 0)
    ensures Inv(Put(s, t, pc))
  {
    var s' := Put(s, t, pc);
    SameBounds(s, s');
    OutsideBanks(s, s', t, pc);
    OutsideLock(s, s', t, pc);
    PlacesSame(s, s');
  }

  lemma StartFreeKeeps(s: Cache, t: Tid, h: Handle)
    requires Inv(s) && PcOf(s, t).Idle? && h in s.clients
    ensures Inv(Put(s.(clients := s.clients - {h}), t, FreeLookQuick(h)))
  {
    var s' := Put(s.(clients := s.clients - {h}), t, FreeLookQuick(h));
    SameBounds(s, s');
    OutsideBanks(s, s', t, FreeLookQuick(h));
    OutsideLock(s, s', t, FreeLookQuick(h));
    PlacesMove(s, s', Client(h), Hand(t));
  }

  lemma AllocTakeQuickKeeps(s: Cache, t: Tid, pc: Pc)
    requires Inv(s) && PcOf(s, t).AllocTakeQuick?
    requires pc == if s.quick != 0 then AllocReturn(s.quick) else AllocClaim
    ensures Inv(Put(s.(quick := 0), t, pc))
  {
    var s' := Put(s.(quick := 0), t, pc);
    SameBounds(s, s');
    OutsideBanks(s, s', t, pc);
    OutsideLock(s, s', t, pc);
    PlacesMove(s, s', Quick, Hand(t));
  }

  lemma AllocReturnKeeps(s: Cache, t: Tid, h: Handle)
    requires Inv(s) && PcOf(s, t) == AllocReturn(h)
    ensures Inv(Put(s.(clients := if h == 0 then s.clients else s.clients + {h}), t, Idle))
  {
    var s' := Put(s.(clients := if h == 0 then s.clients else s.clients + {h}), t, Idle);
    SameBounds(s, s');
    OutsideBanks(s, s', t, Idle);
    OutsideLock(s, s', t, Idle);
    assert At(s, Hand(t)) == h;
    if h == 0 {
      PlacesSame(s, s');
    } else {
      assert At(s, Client(h)) == 0;
      PlacesMove(s, s', Hand(t), Client(h));
    }
  }

  lemma FreeSwapQuickKeeps(s: Cache, t: Tid, h: Handle, pc: Pc)
    requires Inv(s) && PcOf(s, t) == FreeSwapQuick(h)
    requires pc == if s.quick == 0 then Idle else FreeClaim(s.quick)
    ensures Inv(Put(s.(quick := h), t, pc))
  {
    var s' := Put(s.(quick := h), t, pc);
    SameBounds(s, s');
    OutsideBanks(s, s', t, pc);
    OutsideLock(s, s', t, pc);
    PlacesSwap(s, s', Hand(t), Quick);
  }

  lemma LockKeeps(s: Cache, t: Tid, x: Handle)
    requires Inv(s) && s.lock.Unlocked?
    requires PcOf(s, t) == if x == 0 then AllocMiss else FreeMiss(x)
    ensures Inv(Put(s.(lock := Locked(t, Retry(x))), t, Rebalancing(x == 0)))
  {
    hide Placed, ReserveSide, FreeSide;
    var s' := Put(s.(lock := Locked(t, Retry(x))), t, Rebalancing(x == 0));
    assert Owned(s') == Owned(s) && Taken(s') == Taken(s);
    OutsideBanks(s, s', t, Rebalancing(x == 0));
    PlacesMove(s, s', Hand(t), Extra);
  }

  // ---------------------------------------------------------------- claiming and releasing bank slots

  /** With a side suspended no decrement can claim a slot of it: a positive index is a live one. */
  lemma LiveReserve(s: Cache)
    requires LockOk(s) && 1 <= s.r
    ensures forall i :: OwnedAt(s, i) <==> i < s.r
  {
  }

  lemma LiveFree(s: Cache)
    requires LockOk(s) && 1 <= s.f
    ensures forall i :: TakenAt(s, i) <==> s.f <= i
  {
  }

  lemma AllocClaimKeeps(s: Cache, t: Tid, pc: Pc)
    requires Inv(s) && PcOf(s, t).AllocClaim?
    requires pc == if s.r - 1 < 0 then AllocMiss else AllocGot(s.r - 1, false)
    ensures Inv(Put(s.(r := s.r - 1), t, pc))
  {
    var s' := Put(s.(r := s.r - 1), t, pc);
    OutsideLock(s, s', t, pc);
    AllocClaimBanks(s, s', t, false);
    PlacesSame(s, s');
  }

  /** `s'` is `s` with the reserve index decremented, by a thread outside the lock or by the second
      attempt under it. */
  predicate ReserveClaim(s: Cache, s': Cache) {
    && s'.reserve == s.reserve && s'.free == s.free && s'.r == s.r - 1 && s'.f == s.f
    && (s'.lock == s.lock
        || (s.lock.Locked? && s.lock.phase.Retry? && s'.lock.Locked? && s'.lock.phase.Claimed? && s.r >= 1))
  }

  lemma ReserveClaimBounds(s: Cache, s': Cache)
    requires LockOk(s) && ReserveClaim(s, s')
    ensures Taken(s') == Taken(s)
    ensures if s.r - 1 < 0 then Owned(s') == Owned(s) else Owned(s') == Owned(s) - {s.r - 1}
    ensures 0 <= s.r - 1 < BANK ==> s.r - 1 in Owned(s)
  {
    assert forall i :: TakenAt(s', i) <==> TakenAt(s, i);
    if s.r - 1 < 0 {
      assert forall i | 0 <= i :: OwnedAt(s', i) <==> OwnedAt(s, i);
    } else {
      LiveReserve(s);
      assert forall i :: OwnedAt(s', i) <==> i < s.r - 1;
    }
  }

  lemma AllocClaimBanks(s: Cache, s': Cache, t: Tid, l: bool)
    requires Banks(s) && LockOk(s) && ReserveClaim(s, s')
    requires forall i :: !Reads(s.threads, t, i) && !Writes(s.threads, t, i)
    requires if s.r - 1 < 0 then s'.threads == s.threads[t := AllocMiss]
             else s'.threads == s.threads[t := AllocGot(s.r - 1, l)]
    ensures Banks(s')
  {
    ReserveClaimBounds(s, s');
    FreeSideSame(s.free, Taken(s), s.threads, t, s'.threads[t]);
    if s.r - 1 < 0 {
      ReserveSideSame(s.reserve, Owned(s), s.threads, t, AllocMiss);
    } else {
      ReserveSideClaim(s.reserve, Owned(s), s.threads, t, s.r - 1, l);
    }
  }

  lemma FreeClaimKeeps(s: Cache, t: Tid, h: Handle, pc: Pc)
    requires Inv(s) && PcOf(s, t) == FreeClaim(h)
    requires pc == if s.f - 1 < 0 then FreeMiss(h) else FreeGot(h, s.f - 1, false)
    ensures Inv(Put(s.(f := s.f - 1), t, pc))
  {
    var s' := Put(s.(f := s.f - 1), t, pc);
    OutsideLock(s, s', t, pc);
    FreeClaimBanks(s, s', t, h, false);
    PlacesSame(s, s');
  }

  predicate FreeClaimed(s: Cache, s': Cache) {
    && s'.reserve == s.reserve && s'.free == s.free && s'.r == s.r && s'.f == s.f - 1
    && (s'.lock == s.lock
        || (s.lock.Locked? && s.lock.phase.Retry? && s'.lock.Locked? && s'.lock.phase.Claimed? && s.f >= 1))
  }

  lemma FreeClaimBounds(s: Cache, s': Cache)
    requires LockOk(s) && FreeClaimed(s, s') && s.f <= BANK
    ensures Owned(s') == Owned(s)
    ensures 0 <= s.f - 1 ==> s.f - 1 !in Taken(s)
    ensures if s.f - 1 < 0 then Taken(s') == Taken(s) else Taken(s') == Taken(s) + {s.f - 1}
  {
    assert forall i :: OwnedAt(s', i) <==> OwnedAt(s, i);
    if s.f - 1 < 0 {
      assert forall i | 0 <= i :: TakenAt(s', i) <==> TakenAt(s, i);
    } else {
      LiveFree(s);
      assert forall i :: TakenAt(s', i) <==> s.f - 1 <= i;
    }
  }

  lemma FreeClaimBanks(s: Cache, s': Cache, t: Tid, h: Handle, l: bool)
    requires Banks(s) && LockOk(s) && FreeClaimed(s, s')
    requires forall i :: !Reads(s.threads, t, i) && !Writes(s.threads, t, i)
    requires if s.f - 1 < 0 then s'.threads == s.threads[t := FreeMiss(h)]
             else s'.threads == s.threads[t := FreeGot(h, s.f - 1, l)]
    ensures Banks(s')
  {
    FreeClaimBounds(s, s');
    ReserveSideSame(s.reserve, Owned(s), s.threads, t, s'.threads[t]);
    if s.f - 1 < 0 {
      FreeSideSame(s.free, Taken(s), s.threads, t, FreeMiss(h));
    } else {
      FreeSideClaim(s.free, Taken(s), s.threads, t, s.f - 1, h, l);
    }
  }

  lemma AllocGotKeeps(s: Cache, t: Tid, i: int, l: bool)
    requires Inv(s) && PcOf(s, t) == AllocGot(i, l)
    ensures Inv(Put(s, t, AllocCopied(i, Slot(s.reserve, i), l)))
  {
    var pc := AllocCopied(i, Slot(s.reserve, i), l);
    var s' := Put(s, t, pc);
    assert Reads(s.threads, t, i);
    ReserveSideCopy(s.reserve, Owned(s), s.threads, t, l);
    FreeSideSame(s.free, Taken(s), s.threads, t, pc);
    SameBounds(s, s');
    PlacesSame(s, s');
  }

  /** The slot a lock owner has copied but not zeroed is still an unclaimed one. */
  lemma StaleIsOwned(s: Cache)
    requires Banks(s) && LockOk(s)
    ensures StaleReserve(s.lock) == -1 || StaleReserve(s.lock) in Owned(s)
    ensures StaleFree(s.lock) == -1 || (StaleFree(s.lock) in Taken(s) && Slot(s.free, StaleFree(s.lock)) != 0)
  {
  }

  /** Zeroing a claimed reserve slot changes nothing the lock owner relies on. */
  lemma ZeroLocals(s: Cache, t: Tid, i: int, alloc: bool, ph: Phase)
    requires Banks(s) && Reads(s.threads, t, i) && s.lock.Locked? && s.lock.phase == ph
    requires Locals(s.reserve, s.free, alloc, ph)
    ensures Locals(SetSlot(s.reserve, i, 0), s.free, alloc, ph)
  {
    assert i !in Owned(s);
    if ph.Move? && ph.at == Clear { assert ph.rb + ph.k - 1 in Owned(s); }
    if ph.AdjustClear? { assert ph.rb in Owned(s); }
    if ph.Gather? && ph.copied { assert ph.j in Owned(s); }
  }

  lemma AllocCopiedKeeps(s: Cache, t: Tid, i: int, h: Handle)
    requires Inv(s) && PcOf(s, t) == AllocCopied(i, h, false)
    ensures Inv(Put(s.(reserve := SetSlot(s.reserve, i, 0)), t, AllocReturn(h)))
  {
    var s' := Put(s.(reserve := SetSlot(s.reserve, i, 0)), t, AllocReturn(h));
    assert Reads(s.threads, t, i);
    ReserveSideZero(s.reserve, Owned(s), s.threads, t, i, AllocReturn(h));
    FreeSideSame(s.free, Taken(s), s.threads, t, AllocReturn(h));
    SameBounds(s, s');
    if s.lock.Locked? && s.threads[s.lock.owner].Rebalancing? {
      ZeroLocals(s, t, i, s.threads[s.lock.owner].alloc, s.lock.phase);
    }
    StaleIsOwned(s);
    PlacesMove(s, s', ReserveSlot(i), Hand(t));
  }

  lemma AllocCopiedLockedKeeps(s: Cache, t: Tid, i: int, h: Handle)
    requires Inv(s) && PcOf(s, t) == AllocCopied(i, h, true)
    ensures Inv(Put(s.(reserve := SetSlot(s.reserve, i, 0), lock := Locked(t, Leaving(h))), t, Rebalancing(true)))
  {
    var s' := Put(s.(reserve := SetSlot(s.reserve, i, 0), lock := Locked(t, Leaving(h))), t, Rebalancing(true));
    assert Reads(s.threads, t, i);
    ReserveSideZero(s.reserve, Owned(s), s.threads, t, i, Rebalancing(true));
    FreeSideSame(s.free, Taken(s), s.threads, t, Rebalancing(true));
    assert Owned(s') == Owned(s) && Taken(s') == Taken(s);
    PlacesMove(s, s', ReserveSlot(i), Extra);
  }

  lemma FillLocals(s: Cache, t: Tid, i: int, h: Handle, alloc: bool, ph: Phase)
    requires Banks(s) && Writes(s.threads, t, i) && h != 0
    requires Locals(s.reserve, s.free, alloc, ph)
    ensures Locals(s.reserve, SetSlot(s.free, i, h), alloc, ph)
  {
  }

  lemma FreeGotKeeps(s: Cache, t: Tid, h: Handle, i: int)
    requires Inv(s) && PcOf(s, t) == FreeGot(h, i, false)
    ensures Inv(Put(s.(free := SetSlot(s.free, i, h)), t, Idle))
  {
    var s' := Put(s.(free := SetSlot(s.free, i, h)), t, Idle);
    assert Writes(s.threads, t, i);
    ReserveSideSame(s.reserve, Owned(s), s.threads, t, Idle);
    FreeSideFill(s.free, Taken(s), s.threads, t, i, Idle);
    SameBounds(s, s');
    if s.lock.Locked? && s.threads[s.lock.owner].Rebalancing? {
      FillLocals(s, t, i, h, s.threads[s.lock.owner].alloc, s.lock.phase);
    }
    StaleIsOwned(s);
    PlacesMove(s, s', Hand(t), FreeSlot(i));
  }

  lemma FreeGotLockedKeeps(s: Cache, t: Tid, h: Handle, i: int)
    requires Inv(s) && PcOf(s, t) == FreeGot(h, i, true)
    ensures Inv(Put(s.(free := SetSlot(s.free, i, h), lock := Locked(t, Leaving(0))), t, Rebalancing(false)))
  {
    var s' := Put(s.(free := SetSlot(s.free, i, h), lock := Locked(t, Leaving(0))), t, Rebalancing(false));
    assert Writes(s.threads, t, i);
    ReserveSideSame(s.reserve, Owned(s), s.threads, t, Rebalancing(false));
    FreeSideFill(s.free, Taken(s), s.threads, t, i, Rebalancing(false));
    assert Owned(s') == Owned(s) && Taken(s') == Taken(s);
    PlacesMove(s, s', Hand(t), FreeSlot(i));
  }

  // ---------------------------------------------------------------- bulk calls that bypass the cache

  lemma BulkCreateKeeps(s: Cache, minted: seq<Handle>)
    requires Inv(s) && s.lock.Unlocked? && Fresh(s, minted, |minted|)
    ensures Inv(s.(clients := s.clients + SetOf(minted), used := s.used + SetOf(minted)))
  {
    var s' := s.(clients := s.clients + SetOf(minted), used := s.used + SetOf(minted));
    SameBounds(s, s');
    assert forall h | h in SetOf(minted) :: h != 0 && h !in s.used;
    PlacesMint(s, s', SetOf(minted));
  }

  lemma PlacesMint(s: Cache, s': Cache, more: set<Handle>)
    requires Placed(s)
    requires forall h | h in more :: h != 0 && h !in s.used && At(s', Client(h)) == h
    requires forall l :: At(s', l) == At(s, l) || (l.Client? && l.h in more)
    requires s'.used == s.used + more
    ensures Placed(s')
  {
    forall l, m | At(s', l) != 0 && At(s', l) == At(s', m) ensures l == m {
      assert (l.Client? && l.h in more) || At(s, l) in s.used;
      assert (m.Client? && m.h in more) || At(s, m) in s.used;
    }
    forall h | h in s'.used ensures h != 0 && exists l :: At(s', l) == h {
      if h in more {
        assert At(s', Client(h)) == h;
      } else {
        var l :| At(s, l) == h;
        assert At(s', l) == h;
      }
    }
  }

  lemma BulkDestroyKeeps(s: Cache, gone: set<Handle>)
    requires Inv(s) && s.lock.Unlocked? && gone <= s.clients
    ensures Inv(s.(clients := s.clients - gone, used := s.used - gone))
  {
    var s' := s.(clients := s.clients - gone, used := s.used - gone);
    SameBounds(s, s');
    forall l ensures At(s', l) == if At(s, l) in gone then 0 else At(s, l) {
      if At(s, l) in gone { assert At(s, Client(At(s, l))) == At(s, l); }
    }
    PlacesDrop(s, s', gone);
  }

  lemma PlacesDrop(s: Cache, s': Cache, gone: set<Handle>)
    requires Placed(s)
    requires forall l :: At(s', l) == if At(s, l) in gone then 0 else At(s, l)
    requires s'.used == s.used - gone
    ensures Placed(s')
  {
    forall h | h in s'.used ensures h != 0 && exists l :: At(s', l) == h {
      var l :| At(s, l) == h;
      assert At(s', l) == h;
    }
  }
}
