/** The rebalancer never waits in vain: every slot it spins on is owed by one thread that needs no lock,
    and the table lock can always be released. */
module HandleCacheProgress {
  import opened HandleCache
  import opened HandleCacheInvariant
  import opened HandleCacheSteps
  import opened HandleCachePhases
  import opened HandleCacheTheorems

  datatype Spin = NoSpin | OnFree(slot: int) | OnReserve(slot: int)

  /** The slot whose content the owner of the lock is waiting for, if that content is not there yet. */
  function SpinOf(s: Cache): Spin {
    if s.lock.Unlocked? then NoSpin
    else
      match s.lock.phase
      case Move(_, _, fb, _, k, WaitSrc) =>
        if k != 0 && Slot(s.free, fb + k - 1) == 0 then OnFree(fb + k - 1) else NoSpin
      case Move(_, rb, _, _, k, WaitDst) =>
        if k != 0 && Slot(s.reserve, rb + k - 1) != 0 then OnReserve(rb + k - 1) else NoSpin
      case Drain(fb, k, WaitSrc, _, _) =>
        if k != 0 && Slot(s.free, fb + k - 1) == 0 then OnFree(fb + k - 1) else NoSpin
      case Fill(_, k, _, false, _, _) =>
        if k != 0 && Slot(s.reserve, k - 1) != 0 then OnReserve(k - 1) else NoSpin
      case _ => NoSpin
  }

  /** Thread `t` is past its decrement, holds the slot and neither has nor needs the lock. */
  ghost predicate Owes(s: Cache, t: Tid, spin: Spin) {
    match spin
    case NoSpin => false
    case OnFree(i) => Writes(s.threads, t, i) && !s.threads[t].locked
    case OnReserve(i) => Reads(s.threads, t, i) && !s.threads[t].locked
  }

  /** While the rebalancer spins, exactly one thread owes the fill or the zeroing of that slot, and it is
      not the rebalancer. */
  lemma SpinIsOwed(s: Cache) returns (t: Tid)
    requires Inv(s) && SpinOf(s) != NoSpin
    ensures t != s.lock.owner && Owes(s, t, SpinOf(s))
    ensures forall u | Owes(s, u, SpinOf(s)) :: u == t
  {
    var ph := s.lock.phase;
    match SpinOf(s) {
      case OnFree(i) =>
        assert i in Taken(s) && Pending(s.free, Taken(s), i);
        t :| Writes(s.threads, t, i);
      case OnReserve(i) =>
        assert i !in Owned(s) && Lingers(s.reserve, Owned(s), i);
        t :| Reads(s.threads, t, i);
    }
  }

  /** That thread can move, and at most two of its moves end the wait. */
  lemma SpinDischarged(s: Cache, t: Tid)
    requires Inv(s) && SpinOf(s) != NoSpin && Owes(s, t, SpinOf(s))
    ensures var s1 := Advance(s, t, [], []);
            var s2 := Advance(s1, t, [], []);
            && Enabled(s, t, Go([], [])) && s1.lock == s.lock
            && (SpinOf(s1) == NoSpin || (Enabled(s1, t, Go([], [])) && s2.lock == s.lock && SpinOf(s2) == NoSpin))
  {
    var s1 := Advance(s, t, [], []);
    if PcOf(s, t).AllocGot? {
      GotKeepsSpin(s, t);
      AdvanceKeeps(s, t, [], []);
      CopiedEndsSpin(s1, t);
    } else if PcOf(s, t).AllocCopied? {
      CopiedEndsSpin(s, t);
    } else {
      FilledEndsSpin(s, t);
    }
  }

  lemma GotKeepsSpin(s: Cache, t: Tid)
    requires PcOf(s, t).AllocGot?
    ensures var s' := Advance(s, t, [], []);
            && s'.lock == s.lock && SpinOf(s') == SpinOf(s) && PcOf(s', t).AllocCopied?
            && PcOf(s', t).slot == PcOf(s, t).slot && PcOf(s', t).locked == PcOf(s, t).locked
            && forall u | u != t :: PcOf(s', u) == PcOf(s, u)
  {
  }

  lemma CopiedEndsSpin(s: Cache, t: Tid)
    requires Inv(s) && PcOf(s, t).AllocCopied? && !PcOf(s, t).locked && SpinOf(s) == OnReserve(PcOf(s, t).slot)
    ensures var s' := Advance(s, t, [], []); s'.lock == s.lock && SpinOf(s') == NoSpin
  {
    assert Reads(s.threads, t, PcOf(s, t).slot);
  }

  lemma FilledEndsSpin(s: Cache, t: Tid)
    requires Inv(s) && PcOf(s, t).FreeGot? && !PcOf(s, t).locked && SpinOf(s) == OnFree(PcOf(s, t).slot)
    ensures var s' := Advance(s, t, [], []); s'.lock == s.lock && SpinOf(s') == NoSpin
  {
    assert Writes(s.threads, t, PcOf(s, t).slot);
  }

  // ---------------------------------------------------------------- the lock is always released

  function AtRank(at: MoveAt): nat {
    match at
    case WaitSrc => 3
    case WaitDst => 2
    case Copy => 1
    case Clear => 0
  }

  /** A bound on the steps the owner of the lock still has to make. */
  function StepsLeft(s: Cache): int {
    if s.lock.Unlocked? then 0
    else
      match s.lock.phase
      case Claimed => if PcOf(s, s.lock.owner).AllocCopied? then 2 else 3
      case Retry(_) => 703
      case Suspend(_) => 702
      case Begin(_, _, _) => 701
      case Gather(rb, _, j, copied, _, _) => 500 + 2 * (rb - j) + (if copied then 0 else 1)
      case Drain(_, k, at, _, _) => 220 + 4 * k + AtRank(at)
      case Stock(_, _) => 213
      case Sort(_, _) => 212
      case Spill(_, _) => 211
      case Give(_, _, _) => 210
      case Store(_, _, next, _, _, _) => 141 + (BANK - next)
      case Move(_, _, _, _, k, at) => 150 + 4 * k + AtRank(at)
      case Adjust(_, _, _) => 142
      case AdjustClear(_, _, _) => 141
      case PublishFree(_, _, _, _, _, _) => 140
      case Fill(_, k, _, ready, _, _) => 3 + 2 * k + (if ready then 0 else 1)
      case PublishReserve(_, _) => 2
      case Leaving(_) => 1
  }

  lemma StepsLeftBound(s: Cache)
    requires LockOk(s)
    ensures 0 <= StepsLeft(s) <= 703
  {
  }

  function NoRest(s: Cache): seq<Handle> {
    if s.lock.Locked? && s.lock.phase.Sort? && 0 <= s.lock.phase.n <= |s.lock.phase.scratch|
    then s.lock.phase.scratch[..s.lock.phase.n] else []
  }

  lemma OwnerCopies(s: Cache, alloc: bool, ph: Phase, minted: seq<Handle>, order: seq<Handle>)
    requires s.lock.Locked? && s.lock.phase == ph && PhaseOk(s, alloc, ph) && PhaseEnabled(s, alloc, ph, minted, order)
    requires ph.Move? || ph.Drain?
    ensures StepsLeft(AdvancePhase(s, s.lock.owner, alloc, ph, minted, order)) < StepsLeft(s)
  {
  }

  lemma OwnerMovesEarly(s: Cache, alloc: bool, ph: Phase, minted: seq<Handle>, order: seq<Handle>)
    requires s.lock.Locked? && s.lock.phase == ph && Early(ph) && PhaseOk(s, alloc, ph)
      && PhaseEnabled(s, alloc, ph, minted, order)
    requires !ph.Retry? && !ph.Move? && !ph.Drain?
    ensures StepsLeft(AdvancePhase(s, s.lock.owner, alloc, ph, minted, order)) < StepsLeft(s)
  {
  }

  lemma OwnerMovesLate(s: Cache, alloc: bool, ph: Phase, minted: seq<Handle>, order: seq<Handle>)
    requires s.lock.Locked? && s.lock.phase == ph && !Early(ph) && PhaseOk(s, alloc, ph)
      && PhaseEnabled(s, alloc, ph, minted, order)
    requires !ph.Claimed?
    ensures StepsLeft(AdvancePhase(s, s.lock.owner, alloc, ph, minted, order)) < StepsLeft(s)
  {
  }

  lemma PhaseCanMove(s: Cache, alloc: bool, ph: Phase)
    requires s.lock.Locked? && s.lock.phase == ph && SpinOf(s) == NoSpin && PhaseOk(s, alloc, ph) && !ph.Claimed?
    ensures PhaseEnabled(s, alloc, ph, [], NoRest(s))
  {
  }

  /** Every move of the owner of the lock, whatever it does, brings it closer to releasing the lock. */
  lemma OwnerComesCloser(s: Cache, a: Action)
    requires LockOk(s) && s.lock.Locked? && Enabled(s, s.lock.owner, a)
    ensures StepsLeft(Step(s, s.lock.owner, a)) < StepsLeft(s)
  {
    var pc := PcOf(s, s.lock.owner);
    if pc.Rebalancing? {
      if !Early(s.lock.phase) {
        OwnerMovesLate(s, pc.alloc, s.lock.phase, a.minted, a.order);
      } else if s.lock.phase.Move? || s.lock.phase.Drain? {
        OwnerCopies(s, pc.alloc, s.lock.phase, a.minted, a.order);
      } else if !s.lock.phase.Retry? {
        OwnerMovesEarly(s, pc.alloc, s.lock.phase, a.minted, a.order);
      }
    }
  }

  /** An owner that is not spinning can move. */
  lemma OwnerMoves(s: Cache)
    requires LockOk(s) && s.lock.Locked? && SpinOf(s) == NoSpin
    ensures Enabled(s, s.lock.owner, Go([], NoRest(s)))
    ensures StepsLeft(Step(s, s.lock.owner, Go([], NoRest(s)))) < StepsLeft(s)
  {
    var pc := PcOf(s, s.lock.owner);
    if pc.Rebalancing? { PhaseCanMove(s, pc.alloc, s.lock.phase); }
    OwnerComesCloser(s, Go([], NoRest(s)));
  }

  /** No other thread touches the lock or sets its owner back. */
  lemma OthersKeepLock(s: Cache, t: Tid, a: Action)
    requires LockOk(s) && s.lock.Locked? && t != s.lock.owner && Enabled(s, t, a)
    ensures Step(s, t, a).lock == s.lock && StepsLeft(Step(s, t, a)) == StepsLeft(s)
  {
  }

  /** The moves of thread `t` among the first `n`. */
  function OwnMoves(steps: seq<Move1>, t: Tid, n: nat): nat
    requires n <= |steps|
  {
    if n == 0 then 0 else OwnMoves(steps, t, n - 1) + if steps[n - 1].t == t then 1 else 0
  }

  /** Under every interleaving, a thread that holds the lock makes a bounded number of moves before it gives the lock
      back: while it is held, the moves made and those still to make are at most those still to make at the start. */
  lemma {:induction false} OwnMovesBounded(states: seq<Cache>, steps: seq<Move1>, n: nat)
    requires IsRun(states, steps) && Inv(states[0]) && n < |states| && forall i | 0 <= i <= n :: states[i].lock.Locked?
    ensures Inv(states[n]) && states[n].lock.owner == states[0].lock.owner
    ensures OwnMoves(steps, states[0].lock.owner, n) + StepsLeft(states[n]) <= StepsLeft(states[0]) <= 703
    ensures StepsLeft(states[n]) >= 0
  {
    hide Inv, StepsLeft, Step, Enabled;
    assert LockOk(states[0]) by { InvLock(states[0]); }
    StepsLeftBound(states[0]);
    if n > 0 {
      OwnMovesBounded(states, steps, n - 1);
      var s, m := states[n - 1], steps[n - 1];
      StepKeeps(s, m.t, m.a);
      InvLock(s);
      InvLock(states[n]);
      StepsLeftBound(states[n]);
      if m.t == s.lock.owner { OwnerComesCloser(s, m.a); OwnerStays(s, m.a); } else { OthersKeepLock(s, m.t, m.a); }
    }
  }

  lemma InvLock(s: Cache)
    requires Inv(s)
    ensures LockOk(s)
  {
  }

  /** The lock is not handed over. */
  lemma OwnerStays(s: Cache, a: Action)
    requires LockOk(s) && s.lock.Locked? && Enabled(s, s.lock.owner, a)
    ensures var l := Step(s, s.lock.owner, a).lock; l.Locked? ==> l.owner == s.lock.owner
  {
  }

  // ---------------------------------------------------------------- schedules

  /** A schedule that starts in `s`. */
  ghost predicate From(s: Cache, states: seq<Cache>, steps: seq<Move1>) {
    IsRun(states, steps) && states[0] == s
  }

  lemma Prepend(s: Cache, m: Move1, states: seq<Cache>, steps: seq<Move1>)
    requires Enabled(s, m.t, m.a) && From(Step(s, m.t, m.a), states, steps)
    ensures From(s, [s] + states, [m] + steps)
  {
    var states', steps' := [s] + states, [m] + steps;
    forall i | 0 <= i < |steps'|
      ensures Enabled(states'[i], steps'[i].t, steps'[i].a) && states'[i + 1]
        == Step(states'[i], steps'[i].t, steps'[i].a)
    {
      if i > 0 { assert states'[i] == states[i - 1] && steps'[i] == steps[i - 1]; }
    }
  }

  /** How many moves the thread that owes the awaited slot still has to make. */
  ghost function SpinLeft(s: Cache): nat {
    if SpinOf(s) == NoSpin then 0
    else if exists t :: Owes(s, t, SpinOf(s)) && PcOf(s, t).AllocGot? then 2
    else 1
  }

  lemma HelperMoves(s: Cache, t: Tid)
    requires Inv(s) && SpinOf(s) != NoSpin && Owes(s, t, SpinOf(s)) && t != s.lock.owner
    ensures Enabled(s, t, Go([], []))
    ensures var s1 := Step(s, t, Go([], [])); StepsLeft(s1) == StepsLeft(s) && SpinLeft(s1) < SpinLeft(s)
  {
    var s1 := Advance(s, t, [], []);
    if PcOf(s, t).AllocGot? {
      GotKeepsSpin(s, t);
      var i := PcOf(s, t).slot;
      assert Reads(s.threads, t, i);
      forall u | Owes(s1, u, SpinOf(s1)) ensures !PcOf(s1, u).AllocGot? {
        assert u != t ==> !Reads(s.threads, u, i);
      }
    } else if PcOf(s, t).AllocCopied? {
      CopiedEndsSpin(s, t);
    } else {
      FilledEndsSpin(s, t);
    }
  }

  /** From every state of every run the lock can be released: there is a finite schedule that does it, in
      which nobody moves but the owner of the lock and threads that owe it a slot. */
  lemma {:induction false} LockIsReleased(s: Cache) returns (states: seq<Cache>, steps: seq<Move1>)
    requires Inv(s)
    ensures From(s, states, steps) && states[|steps|].lock.Unlocked?
    ensures forall i | 0 <= i < |steps| ::
              states[i].lock.Locked? && (steps[i].t == states[i].lock.owner
                  || Owes(states[i], steps[i].t, SpinOf(states[i])))
    decreases StepsLeft(s), SpinLeft(s)
  {
    hide Inv;
    if s.lock.Unlocked? {
      states, steps := [s], [];
    } else {
      var m := NextMove(s);
      var rest, more := LockIsReleased(Step(s, m.t, m.a));
      Prepend(s, m, rest, more);
      states, steps := [s] + rest, [m] + more;
      forall i | 0 <= i < |steps|
        ensures states[i].lock.Locked? && (steps[i].t == states[i].lock.owner
          || Owes(states[i], steps[i].t, SpinOf(states[i])))
      {
        if i > 0 { assert states[i] == rest[i - 1] && steps[i] == more[i - 1]; }
      }
    }
  }

  lemma NextMove(s: Cache) returns (m: Move1)
    requires Inv(s) && s.lock.Locked?
    ensures m.t == s.lock.owner || Owes(s, m.t, SpinOf(s))
    ensures Enabled(s, m.t, m.a) && Inv(Step(s, m.t, m.a))
    ensures var s' := Step(s, m.t, m.a);
            0 <= StepsLeft(s') && (StepsLeft(s') < StepsLeft(s)
                || (StepsLeft(s') == StepsLeft(s) && SpinLeft(s') < SpinLeft(s)))
  {
    if SpinOf(s) == NoSpin {
      m := Move1(s.lock.owner, Go([], NoRest(s)));
      OwnerMoves(s);
    } else {
      var t := SpinIsOwed(s);
      m := Move1(t, Go([], []));
      HelperMoves(s, t);
    }
    StepKeeps(s, m.t, m.a);
    StepsLeftBound(Step(s, m.t, m.a));
  }
}
