/** What a rebalance delivers: how many handles it may ask the table for, how many the cache holds afterwards, and when
    an allocation comes back empty-handed (src/gc/handletablecache.cpp). */
module HandleCacheDelivery {
  import opened HandleCache
  import opened HandleCacheInvariant
  import opened HandleCacheTheorems

  // ---------------------------------------------------------------- what the table may answer

  /** Handles that are not null, not in use, and all different. */
  predicate NewHandles(s: Cache, hs: seq<Handle>) {
    (forall i | 0 <= i < |hs| :: hs[i] != 0 && hs[i] !in s.used) && forall i, j | 0 <= i < j < |hs| :: hs[i] != hs[j]
  }

  /** With fewer than 42 handles at hand a full rebalance asks for as many as make 63, and one more for an allocation;
      otherwise it asks for none. The table may answer with any new handles up to that number. */
  lemma TableMayAnswer(s: Cache, alloc: bool, n: nat, scratch: seq<Handle>, hs: seq<Handle>, order: seq<Handle>)
    requires s.lock.Locked? && s.lock.phase == Stock(n, scratch) && PcOf(s, s.lock.owner) == Rebalancing(alloc)
    ensures Enabled(s, s.lock.owner, Go(hs, order)) <==>
      NewHandles(s, hs) && |hs| <= if n < 42 then 63 - n + (if alloc then 1 else 0) else 0
  {
  }

  // ---------------------------------------------------------------- coming back empty-handed

  /** The rest of a rebalance, after the table has answered. */
  predicate Finishing(ph: Phase) {
    ph.Sort? || ph.Spill? || ph.Give? || ph.Store? || ph.PublishFree? || ph.Fill? || ph.PublishReserve? || ph.Leaving?
  }

  /** An allocation of thread `t` that has nothing to give: its rebalance holds no handle and no outgoing one. */
  predicate Bare(s: Cache, t: Tid) {
    || PcOf(s, t) == AllocReturn(0)
    || (PcOf(s, t) == Rebalancing(true) && s.lock.Locked? && s.lock.owner == t &&
        match s.lock.phase
        case Sort(n, _) => n == 0
        case Spill(n, _) => n == 0
        case Give(lo, hi, _) => lo == hi
        case Store(out, _, _, _, _, _) => out == 0
        case PublishFree(out, _, _, _, _, _) => out == 0
        case Fill(out, _, _, _, _, _) => out == 0
        case PublishReserve(out, _) => out == 0
        case Leaving(out) => out == 0
        case _ => false)
  }

  /** Nothing was gathered and the table delivers nothing. */
  predicate Nothing(s: Cache, t: Tid, m: Move1) {
    && m.t == t && m.a.Go? && m.a.minted == []
    && PcOf(s, t) == Rebalancing(true) && s.lock.Locked? && s.lock.owner == t && s.lock.phase.Stock?
        && s.lock.phase.n == 0
  }

  /** Steps of other threads neither give nor take. */
  lemma OtherBare(s: Cache, t: Tid, m: Move1)
    requires LockOk(s) && Enabled(s, m.t, m.a) && m.t != t && Bare(Step(s, m.t, m.a), t)
    ensures Bare(s, t)
  {
  }

  /** An allocation that copied a handle out of its slot has one. */
  lemma CopiedIsNotNull(s: Cache, t: Tid)
    requires Inv(s) && PcOf(s, t).AllocCopied?
    ensures PcOf(s, t).h != 0
  {
    assert Reads(s.threads, t, PcOf(s, t).slot);
  }

  /** Phases before the table is asked do not end in an outgoing null handle. */
  lemma EarlyNotBare(s: Cache, t: Tid, ph: Phase, minted: seq<Handle>, order: seq<Handle>)
    requires PcOf(s, t) == Rebalancing(true) && s.lock == Locked(t, ph) && PhaseOk(s, true, ph)
    requires !Finishing(ph) && !ph.Stock?
    ensures !Bare(AdvancePhase(s, t, true, ph, minted, order), t)
  {
  }

  /** Later phases hand on what they have. */
  lemma LateStaysBare(s: Cache, t: Tid, ph: Phase, minted: seq<Handle>, order: seq<Handle>)
    requires PcOf(s, t) == Rebalancing(true) && s.lock == Locked(t, ph) && PhaseOk(s, true, ph) && Hands(s)
    requires Finishing(ph) && Bare(AdvancePhase(s, t, true, ph, minted, order), t)
    ensures Bare(s, t)
  {
    if ph.Give? && ph.lo < ph.hi { assert InScratch(ph, ph.hi - 1); }
  }

  lemma StockBare(s: Cache, t: Tid, ph: Phase, minted: seq<Handle>, order: seq<Handle>)
    requires PcOf(s, t) == Rebalancing(true) && s.lock == Locked(t, ph) && PhaseOk(s, true, ph) && ph.Stock?
    requires Bare(AdvancePhase(s, t, true, ph, minted, order), t)
    ensures ph.n == 0 && minted == []
  {
  }

  lemma BareStep(s: Cache, t: Tid, m: Move1)
    requires Inv(s) && Enabled(s, m.t, m.a) && Bare(Step(s, m.t, m.a), t)
    ensures Bare(s, t) || Nothing(s, t, m)
  {
    var pc := PcOf(s, t);
    if m.t != t {
      OtherBare(s, t, m);
    } else if pc == Rebalancing(true) {
      RebalanceBare(s, t, m);
    } else if pc.AllocCopied? {
      CopiedIsNotNull(s, t);
      CopiedNotBare(s, t, m.a);
    } else {
      OutsideNotBare(s, t, m.a);
    }
  }

  lemma RebalanceBare(s: Cache, t: Tid, m: Move1)
    requires Inv(s) && Enabled(s, t, m.a) && m.t == t && PcOf(s, t) == Rebalancing(true) && Bare(Step(s, t, m.a), t)
    ensures Bare(s, t) || Nothing(s, t, m)
  {
    var ph := s.lock.phase;
    assert PhaseOk(s, true, ph) && Hands(s) && s.lock == Locked(t, ph);
    hide Inv, PhaseOk, Hands, AdvancePhase, Bare;
    if ph.Stock? {
      StockBare(s, t, ph, m.a.minted, m.a.order);
    } else if Finishing(ph) {
      LateStaysBare(s, t, ph, m.a.minted, m.a.order);
    } else {
      EarlyNotBare(s, t, ph, m.a.minted, m.a.order);
    }
  }

  lemma CopiedNotBare(s: Cache, t: Tid, a: Action)
    requires Enabled(s, t, a) && PcOf(s, t).AllocCopied? && PcOf(s, t).h != 0
    ensures !Bare(Step(s, t, a), t)
  {
  }

  lemma OutsideNotBare(s: Cache, t: Tid, a: Action)
    requires Enabled(s, t, a) && PcOf(s, t) != Rebalancing(true) && !PcOf(s, t).AllocCopied? && LockOk(s)
    ensures !Bare(Step(s, t, a), t)
  {
  }

  /** An allocation returns null only if its rebalance gathered nothing, not even from the free bank, and the table
      then delivered nothing; from there on it had nothing to give. */
  lemma {:induction false} NullOnlyIfNothing(states: seq<Cache>, steps: seq<Move1>, n: nat, t: Tid) returns (k: nat)
    requires IsRun(states, steps) && Init(states[0]) && n < |states| && Bare(states[n], t)
    ensures k < n && Nothing(states[k], t, steps[k]) && forall i | k < i <= n :: Bare(states[i], t)
  {
    hide Bare, Nothing, Step, Enabled, Inv;
    if n == 0 {
      StartNotBare(states[0], t);
    } else {
      RunInv(states, steps, n - 1);
      BareStep(states[n - 1], t, steps[n - 1]);
      if Bare(states[n - 1], t) {
        k := NullOnlyIfNothing(states, steps, n - 1, t);
      } else {
        k := n - 1;
      }
    }
  }

  lemma StartNotBare(s: Cache, t: Tid)
    requires Init(s)
    ensures !Bare(s, t)
  {
  }

  /** When nothing was gathered, no bank slot holds a handle that no thread has claimed. */
  lemma GatheredNothing(s: Cache)
    requires Inv(s) && s.lock.Locked? && s.lock.phase.Stock? && s.lock.phase.n == 0
    ensures forall i :: Slot(s.free, i) == 0
    ensures forall i | Slot(s.reserve, i) != 0 :: exists u :: Reads(s.threads, u, i)
    ensures forall k :: At(s, Scratch(k)) == 0
  {
    forall i | Slot(s.reserve, i) != 0 ensures exists u :: Reads(s.threads, u, i) {
      assert i !in Owned(s) && Lingers(s.reserve, Owned(s), i);
    }
    forall i ensures Slot(s.free, i) == 0 {
      if 0 <= i < BANK { assert i !in Taken(s); }
    }
  }

  // ---------------------------------------------------------------- what the cache holds afterwards

  /** The handles that a full rebalance keeps of `c`. */
  function Kept(c: int): int { if c > 84 then 63 else c }

  /** Whether it hands one out. */
  predicate Given(alloc: bool, c: int) { alloc && c > 0 }

  /** The handles it leaves in the cache. */
  function Left(alloc: bool, c: int): int { Kept(c) - if Given(alloc, c) then 1 else 0 }

  /** Those of them it leaves in the reserve bank. */
  function InReserve(alloc: bool, c: int): int { if Left(alloc, c) > 63 then 63 else Left(alloc, c) }

  /** The locals of a rebalance that had `c` handles after the table answered. */
  predicate Planned(alloc: bool, ph: Phase, c: int) {
    var f, r := 63 - (Left(alloc, c) - InReserve(alloc, c)), InReserve(alloc, c);
    match ph
    case Sort(n, _) => n == c
    case Spill(n, _) => n == c
    case Give(lo, hi, _) => hi - lo == Kept(c)
    case Store(out, fb, next, lo, hi, _) => (out != 0) == Given(alloc, c) && fb == f && hi - lo - (63 - next) == r
    case PublishFree(out, rb, fb, lo, hi, _) => (out != 0) == Given(alloc, c) && fb == f && rb == 0 && hi - lo == r
    case Fill(out, _, total, _, _, _) => (out != 0) == Given(alloc, c) && total == r
    case PublishReserve(out, rb) => (out != 0) == Given(alloc, c) && rb == r
    case Leaving(out) => (out != 0) == Given(alloc, c)
    case _ => false
  }

  lemma PlanStep(s: Cache, t: Tid, alloc: bool, ph: Phase, minted: seq<Handle>, order: seq<Handle>, c: int)
    requires PcOf(s, t) == Rebalancing(alloc) && s.lock == Locked(t, ph) && PhaseOk(s, alloc, ph) && Hands(s)
    requires PhaseEnabled(s, alloc, ph, minted, order) && Planned(alloc, ph, c) && 0 <= c && !ph.Leaving?
    ensures var s' := AdvancePhase(s, t, alloc, ph, minted, order);
      s'.lock.Locked? && s'.lock.owner == t && Planned(alloc, s'.lock.phase, c) && PcOf(s', t) == Rebalancing(alloc)
  {
    if ph.Give? {
      GivePlan(s, t, alloc, ph, minted, order, c);
    } else if ph.Sort? || ph.Spill? {
      EarlyPlan(s, t, alloc, ph, minted, order, c);
    } else {
      LatePlan(s, t, alloc, ph, minted, order, c);
    }
  }

  lemma EarlyPlan(s: Cache, t: Tid, alloc: bool, ph: Phase, minted: seq<Handle>, order: seq<Handle>, c: int)
    requires PcOf(s, t) == Rebalancing(alloc) && s.lock == Locked(t, ph) && PhaseOk(s, alloc, ph)
    requires Planned(alloc, ph, c) && 0 <= c && (ph.Sort? || ph.Spill?)
    ensures var s' := AdvancePhase(s, t, alloc, ph, minted, order);
      s'.lock.Locked? && s'.lock.owner == t && Planned(alloc, s'.lock.phase, c) && PcOf(s', t) == Rebalancing(alloc)
  {
  }

  lemma GivePlan(s: Cache, t: Tid, alloc: bool, ph: Phase, minted: seq<Handle>, order: seq<Handle>, c: int)
    requires PcOf(s, t) == Rebalancing(alloc) && s.lock == Locked(t, ph) && PhaseOk(s, alloc, ph) && Hands(s)
    requires Planned(alloc, ph, c) && 0 <= c && ph.Give?
    ensures var s' := AdvancePhase(s, t, alloc, ph, minted, order);
      s'.lock.Locked? && s'.lock.owner == t && Planned(alloc, s'.lock.phase, c) && PcOf(s', t) == Rebalancing(alloc)
  {
    if ph.lo < ph.hi { assert InScratch(ph, ph.hi - 1); }
  }

  lemma LatePlan(s: Cache, t: Tid, alloc: bool, ph: Phase, minted: seq<Handle>, order: seq<Handle>, c: int)
    requires PcOf(s, t) == Rebalancing(alloc) && s.lock == Locked(t, ph) && PhaseOk(s, alloc, ph)
    requires Planned(alloc, ph, c) && 0 <= c && !ph.Leaving? && !ph.Give? && !ph.Sort? && !ph.Spill?
    ensures var s' := AdvancePhase(s, t, alloc, ph, minted, order);
      s'.lock.Locked? && s'.lock.owner == t && Planned(alloc, s'.lock.phase, c) && PcOf(s', t) == Rebalancing(alloc)
  {
  }

  /** Thread `t` stays in the rest of its rebalance from state `k` to state `n`. */
  ghost predicate Stays(states: seq<Cache>, t: Tid, k: nat, n: nat) {
    n < |states| && forall i | k <= i <= n ::
      states[i].lock.Locked? && states[i].lock.owner == t && Finishing(states[i].lock.phase)
  }

  /** Thread `t` gets `minted` from the table at step `k`. */
  ghost predicate Answered(states: seq<Cache>, steps: seq<Move1>, t: Tid, k: nat, alloc: bool, n: int,
      minted: seq<Handle>) {
    && IsRun(states, steps) && Init(states[0]) && k < |steps| && steps[k].t == t && steps[k].a.Go?
        && steps[k].a.minted == minted
    && PcOf(states[k], t) == Rebalancing(alloc) && states[k].lock.Locked? && states[k].lock.owner == t
    && states[k].lock.phase.Stock? && states[k].lock.phase.n == n
  }

  /** In every interleaving the plan made when the table answered is kept to. */
  lemma {:induction false} PlanKept(states: seq<Cache>, steps: seq<Move1>, t: Tid, k: nat, i: nat, alloc: bool, n: int,
                                    minted: seq<Handle>)
    requires Answered(states, steps, t, k, alloc, n, minted) && k < i && Stays(states, t, k + 1, i)
    ensures 0 <= n && PcOf(states[i], t) == Rebalancing(alloc) && Planned(alloc, states[i].lock.phase, n + |minted|)
    decreases i
  {
    hide Inv, Planned, AdvancePhase, PhaseOk, Hands;
    RunInv(states, steps, k);
    AtStock(states[k], t, alloc);
    if i == k + 1 {
      AfterStock(states[k], t, alloc, steps[k].a);
    } else {
      PlanKept(states, steps, t, k, i - 1, alloc, n, minted);
      RunInv(states, steps, i - 1);
      assert states[i - 1 + 1] == Step(states[i - 1], steps[i - 1].t, steps[i - 1].a);
      PlanMoves(states[i - 1], steps[i - 1], t, alloc, n + |minted|);
    }
  }

  lemma AtStock(s: Cache, t: Tid, alloc: bool)
    requires Inv(s) && PcOf(s, t) == Rebalancing(alloc) && s.lock.Locked? && s.lock.owner == t && s.lock.phase.Stock?
    ensures 0 <= s.lock.phase.n
  {
  }

  lemma AfterStock(s: Cache, t: Tid, alloc: bool, a: Action)
    requires PcOf(s, t) == Rebalancing(alloc) && s.lock.Locked? && s.lock.owner == t && s.lock.phase.Stock? && a.Go?
    ensures var s' := Step(s, t, a);
      s'.lock.Locked? && PcOf(s', t) == Rebalancing(alloc) && Planned(alloc, s'.lock.phase, s.lock.phase.n + |a.minted|)
  {
  }

  lemma PlanMoves(s: Cache, m: Move1, t: Tid, alloc: bool, c: int)
    requires Inv(s) && Enabled(s, m.t, m.a) && PcOf(s, t) == Rebalancing(alloc) && s.lock.Locked? && s.lock.owner == t
      && 0 <= c
    requires Planned(alloc, s.lock.phase, c)
    requires var l := Step(s, m.t, m.a).lock; l.Locked? && l.owner == t && Finishing(l.phase)
    ensures var s' := Step(s, m.t, m.a); PcOf(s', t) == Rebalancing(alloc) && Planned(alloc, s'.lock.phase, c)
  {
    assert PhaseOk(s, alloc, s.lock.phase) && Hands(s) && LockOk(s);
    if m.t == t {
      hide Inv, Planned, PhaseOk, Hands, LockOk;
      if s.lock.phase.Leaving? { LeavingReleases(s, t, alloc, m.a); }
      PlanStep(s, t, alloc, s.lock.phase, m.a.minted, m.a.order, c);
    } else {
      OthersAside(s, m, t);
    }
  }

  lemma LeavingReleases(s: Cache, t: Tid, alloc: bool, a: Action)
    requires PcOf(s, t) == Rebalancing(alloc) && s.lock.Locked? && s.lock.owner == t && s.lock.phase.Leaving?
      && Enabled(s, t, a)
    ensures Step(s, t, a).lock.Unlocked?
  {
  }

  lemma OthersAside(s: Cache, m: Move1, t: Tid)
    requires LockOk(s) && s.lock.Locked? && s.lock.owner == t && m.t != t && Enabled(s, m.t, m.a)
    ensures Step(s, m.t, m.a).lock == s.lock && PcOf(Step(s, m.t, m.a), t) == PcOf(s, t)
  {
  }

  /** In every interleaving: a rebalance that has `n` handles and gets `minted` from the table makes the free bank live
      at step `i` and the reserve bank at step `j`. What it puts into both, with what it hands out, is all it has, or
      63 if that is more than 84; the reserve bank is filled first, and an allocation gets a handle if there is one. */
  lemma RebalanceDelivers(states: seq<Cache>, steps: seq<Move1>, t: Tid, k: nat, i: nat, j: nat, alloc: bool, n: int,
                          minted: seq<Handle>)
    requires Answered(states, steps, t, k, alloc, n, minted) && k < i < j < |steps| && Stays(states, t, k + 1, j)
    requires states[i].lock.phase.PublishFree? && steps[i].t == t && states[j].lock.phase.PublishReserve?
      && steps[j].t == t
    ensures var c, f, r, out := n + |minted|, states[i + 1].f, states[j + 1].r, states[j].lock.phase.out;
      && (out != 0 <==> alloc && c > 0) && states[j + 1].lock == Locked(t, Leaving(out))
      && (63 - f) + r + (if out != 0 then 1 else 0) == (if c > 84 then 63 else c)
      && 0 <= r <= 63 && (f < 63 ==> r == 63)
  {
    hide Inv;
    PlanKept(states, steps, t, k, i, alloc, n, minted);
    PlanKept(states, steps, t, k, j, alloc, n, minted);
  }

  /** With the table delivering all that was asked for, the cache holds exactly 63 handles, all in the reserve bank. */
  lemma FullDelivery(states: seq<Cache>, steps: seq<Move1>, t: Tid, k: nat, i: nat, j: nat, alloc: bool, n: int,
                     minted: seq<Handle>)
    requires Answered(states, steps, t, k, alloc, n, minted) && k < i < j < |steps| && Stays(states, t, k + 1, j)
    requires states[i].lock.phase.PublishFree? && steps[i].t == t && states[j].lock.phase.PublishReserve?
      && steps[j].t == t
    requires n < 42 && |minted| == 63 - n + (if alloc then 1 else 0)
    ensures states[i + 1].f == 63 && states[j + 1].r == 63 && (alloc ==> states[j].lock.phase.out != 0)
  {
    RebalanceDelivers(states, steps, t, k, i, j, alloc, n, minted);
  }

  // ---------------------------------------------------------------- in place

  /** The handles a rebalance finds: in the reserve bank, in the free bank, and the one it brings. */
  function FoundBy(ph: Phase): int
    requires ph.Begin?
  {
    ph.rb + (63 - ph.fb) + if ph.x != 0 then 1 else 0
  }

  /** A rebalance moves handles from bank to bank exactly if it finds from 42 to 84; otherwise it gathers them all. */
  lemma InPlaceExactly(s: Cache, t: Tid, alloc: bool, a: Action)
    requires PcOf(s, t) == Rebalancing(alloc) && s.lock.Locked? && s.lock.owner == t && s.lock.phase.Begin?
      && Enabled(s, t, a)
    ensures var l := Step(s, t, a).lock;
      && l.Locked? && (l.phase.Move? <==> 42 <= FoundBy(s.lock.phase) <= 84)
      && (l.phase.Gather? <==> !(42 <= FoundBy(s.lock.phase) <= 84))
  {
  }

  /** How many handles move: the free bank is emptied or the reserve bank filled. */
  function Moved(ph: Phase): int
    requires ph.Begin?
  {
    if 63 - ph.fb > 63 - ph.rb then 63 - ph.rb else 63 - ph.fb
  }

  /** The locals of a rebalance in place that began in phase `b`. */
  predicate InPlace(alloc: bool, b: Phase, ph: Phase)
    requires b.Begin?
  {
    var r, f := b.rb + Moved(b), b.fb + Moved(b);
    match ph
    case Begin(_, _, _) => ph == b
    case Move(x, rb, fb, n, _, _) => x == b.x && rb == b.rb && fb == b.fb && n == Moved(b)
    case Adjust(x, rb, fb) => x == b.x && rb == r && fb == f
    case AdjustClear(out, rb, fb) => alloc && out != 0 && rb == r - 1 && fb == f
    case PublishFree(out, rb, fb, lo, hi, _) =>
      lo == hi && if alloc then out != 0 && rb == r - 1 && fb == f else out == 0 && rb == r && fb == f - 1
    case PublishReserve(out, rb) => if alloc then out != 0 && rb == r - 1 else out == 0 && rb == r
    case Leaving(out) => (out != 0) == alloc
    case _ => false
  }

  lemma InPlaceStep(s: Cache, t: Tid, alloc: bool, b: Phase, ph: Phase, minted: seq<Handle>, order: seq<Handle>)
    requires PcOf(s, t) == Rebalancing(alloc) && s.lock == Locked(t, ph) && PhaseOk(s, alloc, ph) && b.Begin?
    requires PhaseEnabled(s, alloc, ph, minted, order) && InPlace(alloc, b, ph) && !ph.Leaving?
      && 42 <= FoundBy(b) <= 84
    requires PhaseOk(AdvancePhase(s, t, alloc, ph, minted, order), alloc,
      AdvancePhase(s, t, alloc, ph, minted, order).lock.phase)
    ensures var s' := AdvancePhase(s, t, alloc, ph, minted, order);
      && s'.lock.Locked? && s'.lock.owner == t && InPlace(alloc, b, s'.lock.phase) && PcOf(s', t) == Rebalancing(alloc)
      && s'.used == s.used
  {
  }

  /** Thread `t` holds the lock from state `k` to state `n`. */
  ghost predicate Holds(states: seq<Cache>, t: Tid, k: nat, n: nat) {
    n < |states| && forall i | k <= i <= n :: states[i].lock.Locked? && states[i].lock.owner == t
  }

  /** A rebalance of thread `t` begins at state `k`. */
  ghost predicate Begins(states: seq<Cache>, steps: seq<Move1>, t: Tid, k: nat, alloc: bool, b: Phase) {
    && IsRun(states, steps) && Init(states[0]) && k < |states| && b.Begin?
    && states[k].lock == Locked(t, b) && PcOf(states[k], t) == Rebalancing(alloc)
  }

  lemma {:induction false} InPlaceKept(states: seq<Cache>, steps: seq<Move1>, t: Tid, k: nat, i: nat, alloc: bool,
      b: Phase)
    requires Begins(states, steps, t, k, alloc, b) && 42 <= FoundBy(b) <= 84 && k <= i && Holds(states, t, k, i)
    ensures PcOf(states[i], t) == Rebalancing(alloc) && InPlace(alloc, b, states[i].lock.phase)
    ensures states[i].used == states[k].used
    decreases i
  {
    hide Inv, InPlace, AdvancePhase, PhaseOk;
    if i == k {
      assert InPlace(alloc, b, b) by { BeginsInPlace(alloc, b); }
    } else {
      InPlaceKept(states, steps, t, k, i - 1, alloc, b);
      RunInv(states, steps, i - 1);
      RunInv(states, steps, i);
      assert states[i - 1 + 1] == Step(states[i - 1], steps[i - 1].t, steps[i - 1].a);
      InPlaceMoves(states[i - 1], steps[i - 1], t, alloc, b);
    }
  }

  lemma BeginsInPlace(alloc: bool, b: Phase)
    requires b.Begin?
    ensures InPlace(alloc, b, b)
  {
  }

  lemma InPlaceMoves(s: Cache, m: Move1, t: Tid, alloc: bool, b: Phase)
    requires Inv(s) && Enabled(s, m.t, m.a) && PcOf(s, t) == Rebalancing(alloc) && s.lock.Locked? && s.lock.owner == t
      && b.Begin?
    requires InPlace(alloc, b, s.lock.phase) && 42 <= FoundBy(b) <= 84
    requires var s' := Step(s, m.t, m.a); Inv(s') && s'.lock.Locked? && s'.lock.owner == t
    ensures var s' := Step(s, m.t, m.a);
      PcOf(s', t) == Rebalancing(alloc) && InPlace(alloc, b, s'.lock.phase) && s'.used == s.used
  {
    assert PhaseOk(s, alloc, s.lock.phase) && LockOk(s) && LockOk(Step(s, m.t, m.a));
    hide Inv, InPlace;
    if m.t == t {
      if s.lock.phase.Leaving? { LeavingReleases(s, t, alloc, m.a); }
      hide PhaseOk;
      InPlacePc(s, t, alloc, b, m.a);
      InPlaceStep(s, t, alloc, b, s.lock.phase, m.a.minted, m.a.order);
    } else {
      OthersAside(s, m, t);
      OthersUse(s, m);
    }
  }

  lemma InPlacePc(s: Cache, t: Tid, alloc: bool, b: Phase, a: Action)
    requires LockOk(s) && PcOf(s, t) == Rebalancing(alloc) && s.lock.Locked? && s.lock.owner == t && b.Begin?
      && Enabled(s, t, a)
    requires InPlace(alloc, b, s.lock.phase) && !s.lock.phase.Leaving? && LockOk(Step(s, t, a))
    ensures var s' := Step(s, t, a);
      s'.lock.Locked? && PcOf(s', t) == Rebalancing(alloc) && PhaseOk(s', alloc, s'.lock.phase)
  {
  }

  lemma OthersUse(s: Cache, m: Move1)
    requires LockOk(s) && s.lock.Locked? && m.t != s.lock.owner && Enabled(s, m.t, m.a)
    ensures Step(s, m.t, m.a).used == s.used
  {
  }

  /** In every interleaving: a rebalance in place neither takes handles from the table nor returns any; what it makes
      live at steps `i` and `j`, with what it hands out, is what it found; and it leaves no room in the reserve bank, or
      none to move, but for the one handle it brings or hands out. */
  lemma InPlaceDelivers(states: seq<Cache>, steps: seq<Move1>, t: Tid, k: nat, i: nat, j: nat, alloc: bool, b: Phase)
    requires Begins(states, steps, t, k, alloc, b) && 42 <= FoundBy(b) <= 84 && k < i < j < |steps|
      && Holds(states, t, k, j)
    requires states[i].lock.phase.PublishFree? && steps[i].t == t && states[j].lock.phase.PublishReserve?
      && steps[j].t == t
    ensures var f, r, out := states[i + 1].f, states[j + 1].r, states[j].lock.phase.out;
      && (out != 0 <==> alloc) && states[j + 1].lock == Locked(t, Leaving(out)) && states[j + 1].used == states[k].used
      && (63 - f) + r + (if alloc then 1 else 0) == FoundBy(b)
      && (if alloc then r == 62 || f == 63 else r == 63 || f == 62)
  {
    hide Inv;
    RunInv(states, steps, k);
    BeginMeans(states[k], t, alloc);
    InPlaceKept(states, steps, t, k, i, alloc, b);
    InPlaceKept(states, steps, t, k, j, alloc, b);
  }

  /** The two counts a rebalance begins with are clamped, and it brings a handle exactly if it is for a free. */
  lemma BeginMeans(s: Cache, t: Tid, alloc: bool)
    requires Inv(s) && PcOf(s, t) == Rebalancing(alloc) && s.lock.Locked? && s.lock.owner == t && s.lock.phase.Begin?
    ensures var b := s.lock.phase; 0 <= b.rb <= 63 && 0 <= b.fb <= 63 && alloc == (b.x == 0)
  {
  }

  // ---------------------------------------------------------------- a thread alone

  /** `n` accesses of thread `t` alone. */
  function Alone(s: Cache, t: Tid, n: nat): Cache
    decreases n
  {
    if n == 0 then s else Alone(Step(s, t, Go([], [])), t, n - 1)
  }

  /** An allocation alone takes the handle in the quick cache if there is one, else the one on top of the reserve bank,
      and changes nothing else. */
  lemma AllocAlone(s: Cache, t: Tid)
    requires PcOf(s, t).Idle? && t in s.threads && |s.reserve| == 63
    ensures s.quick != 0 ==>
      Alone(Step(s, t, StartAlloc), t, 3) == s.(quick := 0, clients := s.clients + {s.quick})
    ensures s.quick == 0 && 0 < s.r <= 63 && s.reserve[s.r - 1] != 0 ==>
      Alone(Step(s, t, StartAlloc), t, 5) ==
        s.(reserve := s.reserve[s.r - 1 := 0], r := s.r - 1, clients := s.clients + {s.reserve[s.r - 1]})
  {
    hide Alone, Step;
    if s.quick != 0 { QuickAlone(s, t); }
    if s.quick == 0 && 0 < s.r <= 63 && s.reserve[s.r - 1] != 0 { BankAlone(s, t); }
  }

  lemma QuickAlone(s: Cache, t: Tid)
    requires PcOf(s, t).Idle? && t in s.threads && s.quick != 0
    ensures Alone(Step(s, t, StartAlloc), t, 3) == s.(quick := 0, clients := s.clients + {s.quick})
  {
    var s0 := Step(s, t, StartAlloc);
    assert s0.threads[t := Idle] == s.threads;
    hide Alone;
    AloneThree(s0, t);
  }

  lemma BankAlone(s: Cache, t: Tid)
    requires PcOf(s, t).Idle? && t in s.threads && |s.reserve| == 63
    requires s.quick == 0 && 0 < s.r <= 63 && s.reserve[s.r - 1] != 0
    ensures Alone(Step(s, t, StartAlloc), t, 5) ==
      s.(reserve := s.reserve[s.r - 1 := 0], r := s.r - 1, clients := s.clients + {s.reserve[s.r - 1]})
  {
    hide Alone;
    var s0 := Step(s, t, StartAlloc);
    var i, h := s.r - 1, s.reserve[s.r - 1];
    var s1 := Step(s0, t, Go([], []));
    assert s1 == s.(threads := s.threads[t := AllocClaim]);
    var s2 := Step(s1, t, Go([], []));
    assert s2 == s.(r := i, threads := s.threads[t := AllocGot(i, false)]);
    AloneMore(s0, t, 5);
    AloneMore(s1, t, 4);
    AloneThree(s2, t);
    var s3 := Step(s2, t, Go([], []));
    assert s3 == s.(r := i, threads := s.threads[t := AllocCopied(i, h, false)]);
    var s4 := Step(s3, t, Go([], []));
    assert s4 == s.(r := i, reserve := s.reserve[i := 0], threads := s.threads[t := AllocReturn(h)]);
    assert s.threads[t := AllocReturn(h)][t := Idle] == s.threads;
  }

  lemma AloneThree(s: Cache, t: Tid)
    ensures Alone(s, t, 3) == Step(Step(Step(s, t, Go([], [])), t, Go([], [])), t, Go([], []))
  {
    AloneMore(s, t, 3);
    hide Step;
    var s1 := Step(s, t, Go([], []));
    AloneMore(s1, t, 2);
    AloneMore(Step(s1, t, Go([], [])), t, 1);
  }

  /** A free alone puts the handle into the quick cache if that is empty, else on top of the free bank, and changes
      nothing else. */
  lemma FreeAlone(s: Cache, t: Tid, h: Handle)
    requires PcOf(s, t).Idle? && t in s.threads && |s.free| == 63 && h in s.clients && h != 0
    ensures s.quick == 0 ==>
      Alone(Step(s, t, StartFree(h)), t, 2) == s.(quick := h, clients := s.clients - {h})
    ensures s.quick != 0 && 0 < s.f <= 63 ==>
      Alone(Step(s, t, StartFree(h)), t, 3) ==
        s.(free := s.free[s.f - 1 := h], f := s.f - 1, clients := s.clients - {h})
  {
    var s0 := Step(s, t, StartFree(h));
    assert s0.threads[t := Idle] == s.threads;
  }

  /** A handle that is freed alone and asked for again comes back, and the cache is as it was. */
  lemma FreeThenAlloc(s: Cache, t: Tid, h: Handle)
    requires PcOf(s, t).Idle? && t in s.threads && |s.free| == |s.reserve| == 63 && h in s.clients && h != 0
      && s.quick == 0
    ensures var s1 := Alone(Step(s, t, StartFree(h)), t, 2); Alone(Step(s1, t, StartAlloc), t, 3) == s
  {
    hide Alone, Step;
    FreeAlone(s, t, h);
    var s1 := Alone(Step(s, t, StartFree(h)), t, 2);
    AllocAlone(s1, t);
    assert s.clients - {h} + {h} == s.clients;
  }

  lemma AloneMore(s: Cache, t: Tid, n: nat)
    requires n > 0
    ensures Alone(s, t, n) == Alone(Step(s, t, Go([], [])), t, n - 1)
  {
  }

  /** A rebalance that holds more than 84 handles gives the first ones in the order of the sort back to the table, all
      but 63; with fewer it gives nothing back. */
  lemma SpillsFirst(s: Cache, t: Tid, alloc: bool, n: nat, scratch: seq<Handle>, sort: Action, spill: Action)
    requires PcOf(s, t) == Rebalancing(alloc) && s.lock == Locked(t, Sort(n, scratch))
    requires Enabled(s, t, sort) && sort.Go? && Enabled(Step(s, t, sort), t, spill) && spill.Go?
    ensures var s' := Step(Step(s, t, sort), t, spill);
      if n > 84 then
        && s'.used == s.used - SetOf(sort.order[..n - 63])
        && s'.lock.Locked? && s'.lock.phase.Give? && s'.lock.phase.lo == n - 63 && s'.lock.phase.hi == n
        && n <= |s'.lock.phase.scratch| && s'.lock.phase.scratch[..n] == sort.order
      else s'.used == s.used && s'.lock == Locked(t, Give(0, n, scratch))
  {
    if n > 84 {
      var w := Write(scratch, 0, sort.order);
      assert w[..n] == sort.order && w[..n - 63] == sort.order[..n - 63];
    }
  }
}
