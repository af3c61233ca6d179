/** What holds in every interleaving of the handle cache. */
module HandleCacheTheorems {
  import opened HandleCache
  import opened HandleCacheInvariant
  import opened HandleCacheSteps
  import opened HandleCachePhases

  // ---------------------------------------------------------------- every step keeps the invariant

  lemma OwnerPhase(s: Cache, t: Tid, alloc: bool)
    requires Inv(s) && PcOf(s, t) == Rebalancing(alloc)
    ensures s.lock.Locked? && s.lock.owner == t && Owner(s, t, alloc, s.lock.phase)
    ensures PhaseOk(s, alloc, s.lock.phase) && !s.lock.phase.Claimed?
  {
  }

  lemma RetryPhaseKeeps(s: Cache, t: Tid, alloc: bool, x: Handle)
    requires Inv(s) && Owner(s, t, alloc, Retry(x))
    ensures Inv(RetryStep(s, t, alloc, x))
  {
    if alloc { RetryAllocKeeps(s, t, x); } else { RetryFreeKeeps(s, t, x); }
  }

  lemma SuspendPhaseKeeps(s: Cache, t: Tid, alloc: bool, x: Handle)
    requires Inv(s) && Owner(s, t, alloc, Suspend(x))
    ensures Inv(SuspendStep(s, t, alloc, x))
  {
    if alloc { SuspendAllocKeeps(s, t, x); } else { SuspendFreeKeeps(s, t, x); }
  }

  lemma BeginPhaseKeeps(s: Cache, t: Tid, alloc: bool, x: Handle, rb: int, fb: int)
    requires Inv(s) && Owner(s, t, alloc, Begin(x, rb, fb))
    ensures Inv(BeginStep(s, t, x, rb, fb))
  {
    var count := rb + (BANK - fb) + (if x != 0 then 1 else 0);
    if count < LOWATER || count > HIWATER {
      var empty := seq(CACHE_TYPE_SIZE, _ => 0);
      BeginGatherKeeps(s, t, alloc, x, rb, fb, empty, BeginStep(s, t, x, rb, fb).lock.phase);
    } else {
      BeginMoveKeeps(s, t, alloc, x, rb, fb, if BANK - fb > BANK - rb then BANK - rb else BANK - fb);
    }
  }

  lemma MovePhaseKeeps(s: Cache, t: Tid, alloc: bool, x: Handle, rb: int, fb: int, n: int, k: int, at: MoveAt)
    requires Inv(s) && Owner(s, t, alloc, Move(x, rb, fb, n, k, at))
    requires PhaseEnabled(s, alloc, Move(x, rb, fb, n, k, at), [], [])
    ensures Inv(MoveStep(s, t, x, rb, fb, n, k, at))
  {
    if k == 0 {
      MoveDoneKeeps(s, t, alloc, x, rb, fb, n, at);
    } else if at == Copy {
      MoveCopyKeeps(s, t, alloc, x, rb, fb, n, k);
    } else if at == Clear {
      MoveClearKeeps(s, t, alloc, x, rb, fb, n, k);
    } else {
      MoveWaitKeeps(s, t, alloc, x, rb, fb, n, k, at);
    }
  }

  lemma AdjustPhaseKeeps(s: Cache, t: Tid, alloc: bool, x: Handle, rb: int, fb: int)
    requires Inv(s) && Owner(s, t, alloc, Adjust(x, rb, fb))
    ensures Inv(AdjustStep(s, t, alloc, x, rb, fb))
  {
    if x != 0 { AdjustInKeeps(s, t, alloc, x, rb, fb); } else { AdjustOutKeeps(s, t, rb, fb); }
  }

  lemma GatherPhaseKeeps(s: Cache, t: Tid, alloc: bool, rb: int, fb: int, j: int, copied: bool, m: int,
      scratch: seq<Handle>)
    requires Inv(s) && Owner(s, t, alloc, Gather(rb, fb, j, copied, m, scratch))
    ensures Inv(GatherStep(s, t, rb, fb, j, copied, m, scratch))
  {
    if copied {
      GatherClearKeeps(s, t, alloc, rb, fb, j, m, scratch);
    } else if j < rb {
      GatherCopyKeeps(s, t, alloc, rb, fb, j, m, scratch);
    } else {
      GatherDoneKeeps(s, t, alloc, rb, fb, j, m, scratch);
    }
  }

  lemma DrainPhaseKeeps(s: Cache, t: Tid, alloc: bool, fb: int, k: int, at: MoveAt, m: int, scratch: seq<Handle>)
    requires Inv(s) && Owner(s, t, alloc, Drain(fb, k, at, m, scratch))
    requires PhaseEnabled(s, alloc, Drain(fb, k, at, m, scratch), [], [])
    ensures Inv(DrainStep(s, t, fb, k, at, m, scratch))
  {
    if k == 0 {
      DrainDoneKeeps(s, t, alloc, fb, at, m, scratch);
    } else if at == WaitSrc {
      DrainWaitKeeps(s, t, alloc, fb, k, m, scratch);
    } else if at == Copy {
      DrainCopyKeeps(s, t, alloc, fb, k, m, scratch);
    } else if at == Clear {
      DrainClearKeeps(s, t, alloc, fb, k, m, scratch);
    }
  }

  lemma SortPhaseKeeps(s: Cache, t: Tid, alloc: bool, n: int, scratch: seq<Handle>, minted: seq<Handle>,
      order: seq<Handle>)
    requires Inv(s) && Owner(s, t, alloc, Sort(n, scratch)) && PhaseEnabled(s, alloc, Sort(n, scratch), minted, order)
    ensures Inv(To(s, t, Spill(n, if n > HIWATER then Write(scratch, 0, order) else scratch)))
  {
    if n > HIWATER { SortKeeps(s, t, alloc, n, scratch, order); } else { NoSortKeeps(s, t, alloc, n, scratch); }
  }

  lemma SpillPhaseKeeps(s: Cache, t: Tid, alloc: bool, n: int, scratch: seq<Handle>)
    requires Inv(s) && Owner(s, t, alloc, Spill(n, scratch))
    ensures Inv(SpillStep(s, t, n, scratch))
  {
    if n > HIWATER { SpillKeeps(s, t, alloc, n, scratch); } else { NoSpillKeeps(s, t, alloc, n, scratch); }
  }

  lemma StorePhaseKeeps(s: Cache, t: Tid, alloc: bool, out: Handle, fb: int, next: int, lo: int, hi: int,
      scratch: seq<Handle>)
    requires Inv(s) && Owner(s, t, alloc, Store(out, fb, next, lo, hi, scratch))
    ensures Inv(StoreStep(s, t, out, fb, next, lo, hi, scratch))
  {
    if next < BANK {
      StoreWriteKeeps(s, t, alloc, out, fb, next, lo, hi, scratch);
    } else {
      StoreDoneKeeps(s, t, alloc, out, fb, next, lo, hi, scratch);
    }
  }

  lemma FillPhaseKeeps(s: Cache, t: Tid, alloc: bool, out: Handle, k: int, total: int, ready: bool, lo: int,
      scratch: seq<Handle>)
    requires Inv(s) && Owner(s, t, alloc, Fill(out, k, total, ready, lo, scratch))
    requires PhaseEnabled(s, alloc, Fill(out, k, total, ready, lo, scratch), [], [])
    ensures Inv(FillStep(s, t, out, k, total, ready, lo, scratch))
  {
    if k == 0 {
      FillDoneKeeps(s, t, alloc, out, total, ready, lo, scratch);
    } else if !ready {
      FillWaitKeeps(s, t, alloc, out, k, total, lo, scratch);
    } else {
      FillWriteKeeps(s, t, alloc, out, k, total, lo, scratch);
    }
  }

  /** The phases up to the gathering of handles. */
  predicate Early(ph: Phase) {
    ph.Retry? || ph.Suspend? || ph.Begin? || ph.Move? || ph.Adjust? || ph.AdjustClear? || ph.Gather? || ph.Drain?
  }

  lemma EarlyPhaseKeeps(s: Cache, t: Tid, alloc: bool, ph: Phase, minted: seq<Handle>, order: seq<Handle>)
    requires Inv(s) && Owner(s, t, alloc, ph) && PhaseEnabled(s, alloc, ph, minted, order) && Early(ph)
    ensures Inv(AdvancePhase(s, t, alloc, ph, minted, order))
  {
    hide Inv;
    match ph {
      case Retry(x) => RetryPhaseKeeps(s, t, alloc, x);
      case Suspend(x) => SuspendPhaseKeeps(s, t, alloc, x);
      case Begin(x, rb, fb) => BeginPhaseKeeps(s, t, alloc, x, rb, fb);
      case Move(x, rb, fb, n, k, at) => MovePhaseKeeps(s, t, alloc, x, rb, fb, n, k, at);
      case Adjust(x, rb, fb) => AdjustPhaseKeeps(s, t, alloc, x, rb, fb);
      case AdjustClear(out, rb, fb) => AdjustClearKeeps(s, t, alloc, out, rb, fb);
      case Gather(rb, fb, j, copied, m, scratch) => GatherPhaseKeeps(s, t, alloc, rb, fb, j, copied, m, scratch);
      case Drain(fb, k, at, m, scratch) => DrainPhaseKeeps(s, t, alloc, fb, k, at, m, scratch);
    }
  }

  lemma TablePhaseKeeps(s: Cache, t: Tid, alloc: bool, ph: Phase, minted: seq<Handle>, order: seq<Handle>)
    requires Inv(s) && Owner(s, t, alloc, ph) && PhaseEnabled(s, alloc, ph, minted, order)
    requires ph.Stock? || ph.Sort? || ph.Spill? || ph.Give?
    ensures Inv(AdvancePhase(s, t, alloc, ph, minted, order))
  {
    hide Inv;
    match ph {
      case Stock(n, scratch) => StockKeeps(s, t, alloc, n, scratch, minted);
      case Sort(n, scratch) => SortPhaseKeeps(s, t, alloc, n, scratch, minted, order);
      case Spill(n, scratch) => SpillPhaseKeeps(s, t, alloc, n, scratch);
      case Give(lo, hi, scratch) => GiveKeeps(s, t, alloc, lo, hi, scratch);
    }
  }

  lemma LatePhaseKeeps(s: Cache, t: Tid, alloc: bool, ph: Phase, minted: seq<Handle>, order: seq<Handle>)
    requires Inv(s) && Owner(s, t, alloc, ph) && PhaseEnabled(s, alloc, ph, minted, order)
    requires !ph.Claimed? && !Early(ph) && !ph.Stock? && !ph.Sort? && !ph.Spill? && !ph.Give?
    ensures Inv(AdvancePhase(s, t, alloc, ph, minted, order))
  {
    hide Inv;
    match ph {
      case Store(out, fb, next, lo, hi, scratch) => StorePhaseKeeps(s, t, alloc, out, fb, next, lo, hi, scratch);
      case PublishFree(out, rb, fb, lo, hi, scratch) => PublishFreeKeeps(s, t, alloc, out, rb, fb, lo, hi, scratch);
      case Fill(out, k, total, ready, lo, scratch) => FillPhaseKeeps(s, t, alloc, out, k, total, ready, lo, scratch);
      case PublishReserve(out, rb) => PublishReserveKeeps(s, t, alloc, out, rb);
      case Leaving(out) => LeavingKeeps(s, t, alloc, out, if alloc then AllocReturn(out) else Idle);
    }
  }

  lemma AllocPathKeeps(s: Cache, t: Tid, pc: Pc)
    requires Inv(s) && PcOf(s, t) == pc && (pc.AllocLookQuick? || pc.AllocTakeQuick? || pc.AllocClaim?
      || pc.AllocReturn?)
    ensures Inv(Advance(s, t, [], []))
  {
    hide Inv;
    match pc {
      case AllocLookQuick => PcOnlyKeeps(s, t, if s.quick != 0 then AllocTakeQuick else AllocClaim);
      case AllocTakeQuick => AllocTakeQuickKeeps(s, t, if s.quick != 0 then AllocReturn(s.quick) else AllocClaim);
      case AllocClaim => AllocClaimKeeps(s, t, if s.r - 1 < 0 then AllocMiss else AllocGot(s.r - 1, false));
      case AllocReturn(h) => AllocReturnKeeps(s, t, h);
    }
  }

  lemma SlotPathKeeps(s: Cache, t: Tid, pc: Pc)
    requires Inv(s) && PcOf(s, t) == pc && (pc.AllocGot? || pc.AllocCopied? || pc.FreeGot?)
    ensures Inv(Advance(s, t, [], []))
  {
    hide Inv;
    match pc {
      case AllocGot(i, l) => AllocGotKeeps(s, t, i, l);
      case AllocCopied(i, h, l) => if l { AllocCopiedLockedKeeps(s, t, i, h); } else { AllocCopiedKeeps(s, t, i, h); }
      case FreeGot(h, i, l) => if l { FreeGotLockedKeeps(s, t, h, i); } else { FreeGotKeeps(s, t, h, i); }
    }
  }

  lemma FreePathKeeps(s: Cache, t: Tid, pc: Pc)
    requires Inv(s) && PcOf(s, t) == pc && (pc.FreeLookQuick? || pc.FreeSwapQuick? || pc.FreeClaim?)
    ensures Inv(Advance(s, t, [], []))
  {
    assert HandOf(pc) != 0;
    hide Inv;
    match pc {
      case FreeLookQuick(h) => PcOnlyKeeps(s, t, if s.quick == 0 then FreeSwapQuick(h) else FreeClaim(h));
      case FreeSwapQuick(h) => FreeSwapQuickKeeps(s, t, h, if s.quick == 0 then Idle else FreeClaim(s.quick));
      case FreeClaim(h) => FreeClaimKeeps(s, t, h, if s.f - 1 < 0 then FreeMiss(h) else FreeGot(h, s.f - 1, false));
    }
  }

  lemma MissPathKeeps(s: Cache, t: Tid, pc: Pc)
    requires Inv(s) && PcOf(s, t) == pc && (pc.AllocMiss? || pc.FreeMiss?) && s.lock.Unlocked?
    ensures Inv(Advance(s, t, [], []))
  {
    LockKeeps(s, t, HandOf(pc));
  }

  lemma AdvanceKeeps(s: Cache, t: Tid, minted: seq<Handle>, order: seq<Handle>)
    requires Inv(s) && Enabled(s, t, Go(minted, order))
    ensures Inv(Advance(s, t, minted, order))
  {
    hide Inv;
    var pc := PcOf(s, t);
    if pc.Rebalancing? {
      OwnerPhase(s, t, pc.alloc);
      if Early(s.lock.phase) {
        EarlyPhaseKeeps(s, t, pc.alloc, s.lock.phase, minted, order);
      } else if s.lock.phase.Stock? || s.lock.phase.Sort? || s.lock.phase.Spill? || s.lock.phase.Give? {
        TablePhaseKeeps(s, t, pc.alloc, s.lock.phase, minted, order);
      } else {
        LatePhaseKeeps(s, t, pc.alloc, s.lock.phase, minted, order);
      }
    } else if pc.AllocLookQuick? || pc.AllocTakeQuick? || pc.AllocClaim? || pc.AllocReturn? {
      AllocPathKeeps(s, t, pc);
    } else if pc.AllocGot? || pc.AllocCopied? || pc.FreeGot? {
      SlotPathKeeps(s, t, pc);
    } else if pc.FreeLookQuick? || pc.FreeSwapQuick? || pc.FreeClaim? {
      FreePathKeeps(s, t, pc);
    } else {
      MissPathKeeps(s, t, pc);
    }
  }

  lemma StepKeeps(s: Cache, t: Tid, a: Action)
    requires Inv(s) && Enabled(s, t, a)
    ensures Inv(Step(s, t, a))
  {
    match a {
      case StartAlloc => PcOnlyKeeps(s, t, AllocLookQuick);
      case StartFree(h) => StartFreeKeeps(s, t, h);
      case BulkCreate(minted) => BulkCreateKeeps(s, minted);
      case BulkDestroy(gone) => BulkDestroyKeeps(s, gone);
      case Go(minted, order) => AdvanceKeeps(s, t, minted, order);
    }
  }

  lemma InitInv(s: Cache)
    requires Init(s)
    ensures Inv(s)
  {
  }

  lemma {:induction false} RunInv(states: seq<Cache>, steps: seq<Move1>, i: nat)
    requires IsRun(states, steps) && Init(states[0]) && i < |states|
    ensures Inv(states[i])
  {
    if i == 0 {
      InitInv(states[0]);
    } else {
      RunInv(states, steps, i - 1);
      StepKeeps(states[i - 1], steps[i - 1].t, steps[i - 1].a);
    }
  }

  // ---------------------------------------------------------------- no handle is lost or given out twice

  /** In every interleaving every used handle is in exactly one place: with a client, in the quick cache,
      in a bank slot, in the hand of one thread or in the scratch array. */
  lemma EveryHandleInOnePlace(states: seq<Cache>, steps: seq<Move1>, i: nat, h: Handle)
    requires IsRun(states, steps) && Init(states[0]) && i < |states|
    ensures h in states[i].used ==> h != 0 && exists l :: At(states[i], l) == h && forall m | At(states[i], m)
      == h :: m == l
    ensures h !in states[i].used && h != 0 ==> forall l :: At(states[i], l) != h
  {
    RunInv(states, steps, i);
    var s := states[i];
    if h in s.used {
      var l :| At(s, l) == h;
      assert forall m | At(s, m) == h :: m == l;
    }
  }

  /** The handle an allocation is about to return is used, belongs to no client, and no other thread, slot
      or array has it. */
  lemma HandedOutOnce(states: seq<Cache>, steps: seq<Move1>, i: nat, t: Tid, h: Handle)
    requires IsRun(states, steps) && Init(states[0]) && i < |states|
    requires PcOf(states[i], t) == AllocReturn(h) && h != 0
    ensures h in states[i].used && h !in states[i].clients && h != states[i].quick
    ensures forall u | u != t :: HandOf(PcOf(states[i], u)) != h
    ensures forall k ::
      At(states[i], ReserveSlot(k)) != h && At(states[i], FreeSlot(k)) != h && At(states[i], Scratch(k)) != h
  {
    RunInv(states, steps, i);
    var s := states[i];
    assert At(s, Hand(t)) == h;
    assert At(s, Quick) == s.quick;
    assert At(s, Client(h)) != h;
    forall u | u != t ensures HandOf(PcOf(s, u)) != h {
      assert At(s, Hand(u)) == HandOf(PcOf(s, u));
    }
  }

  // ---------------------------------------------------------------- live slots are never stale

  /** Whatever the published indices let a thread claim is ready: a reserve slot below a live reserve
      index holds a handle that nobody else is taking, a free slot below a live free index is empty and
      nobody else is filling it. */
  lemma LiveSlotsAreReady(states: seq<Cache>, steps: seq<Move1>, n: nat, i: int)
    requires IsRun(states, steps) && Init(states[0]) && n < |states| && 0 <= i
    ensures i < states[n].r ==>
              i < BANK && Slot(states[n].reserve, i) != 0 && forall t :: !Reads(states[n].threads, t, i)
    ensures i < states[n].f ==>
              i < BANK && Slot(states[n].free, i) == 0 && forall t :: !Writes(states[n].threads, t, i)
  {
    RunInv(states, steps, n);
    var s := states[n];
    if i < s.r {
      LiveReserve(s);
      assert i in Owned(s);
    }
    if i < s.f {
      LiveFree(s);
      assert i !in Taken(s);
    }
  }

  /** Every index used on a bank or on the scratch array is in range, and the assertions of the copy
      routines hold: the slot read is not null, the slot overwritten is. */
  lemma AccessesInRange(states: seq<Cache>, steps: seq<Move1>, n: nat, t: Tid)
    requires IsRun(states, steps) && Init(states[0]) && n < |states|
    ensures var s, pc := states[n], PcOf(states[n], t);
            && (pc.AllocGot? || pc.AllocCopied? ==> 0 <= pc.slot < BANK && Slot(s.reserve, pc.slot) != 0)
            && (pc.FreeGot? ==> 0 <= pc.slot < BANK && Slot(s.free, pc.slot) == 0)
    ensures var s := states[n];
            s.lock.Locked? ==>
              match s.lock.phase
              case Move(_, rb, fb, _, k, _) => k > 0 ==> 0 <= rb + k - 1 < BANK && 0 <= fb + k - 1 < BANK
              case Adjust(x, rb, fb) => if x != 0 then 0 <= fb - 1 < BANK else 0 <= rb - 1 < BANK
              case Gather(rb, _, j, false, m, scratch) =>
                j < rb ==> 0 <= j < BANK && 0 <= m < |scratch| == CACHE_TYPE_SIZE && Slot(s.reserve, j) != 0
              case Drain(fb, k, _, m, scratch) =>
                k > 0 ==> 0 <= fb + k - 1 < BANK && 0 <= m + k - 1 < |scratch| == CACHE_TYPE_SIZE
              case Stock(n, scratch) => n + Wanted(n, true) < |scratch| == CACHE_TYPE_SIZE
              case Store(_, _, next, lo, _, scratch) =>
                next < BANK ==> 0 <= next && Slot(s.free, next) == 0 && 0 <= lo < |scratch|
              case Fill(_, k, _, _, lo, scratch) => k > 0 ==> k - 1 < BANK && 0 <= lo + k - 1 < |scratch|
              case _ => true
  {
    RunInv(states, steps, n);
    var s := states[n];
    var pc := PcOf(s, t);
    if pc.AllocGot? || pc.AllocCopied? { assert Reads(s.threads, t, pc.slot); }
    if pc.FreeGot? { assert Writes(s.threads, t, pc.slot); }
    if s.lock.Locked? && s.lock.phase.Gather? && s.lock.phase.j < s.lock.phase.rb {
      assert s.lock.phase.j in Owned(s);
    }
    if s.lock.Locked? && s.lock.phase.Store? && s.lock.phase.next < BANK {
      assert s.lock.phase.next !in Taken(s);
    }
  }
}
