/** The per-type handle cache of src/gc/handletablecache.cpp as a step system.

    One `Cache` value is everything the routines of that file share for one handle type: the
    one-slot quick cache, the two banks with their indices, the table lock, and for every thread
    the point it has reached.  `Step` performs exactly one shared-memory access of one thread, so a
    run is an arbitrary interleaving of any number of threads.  Memory is sequentially consistent.

    The bulk routines of the handle table appear as what they do to the set of used handles: a bulk
    allocation yields distinct handles that were not in use, possibly fewer than requested; a bulk
    free puts handles out of use.
 */
module HandleCache {
  const CACHE_TYPE_SIZE: nat := 128
  const BANK: nat := CACHE_TYPE_SIZE / 2 - 1
  const TOLERANCE: nat := BANK / 3
  const LOWATER: nat := BANK - TOLERANCE
  const HIWATER: nat := BANK + TOLERANCE

  type Handle = nat  // 0 is the null handle
  type Tid = nat

  /** Where a thread stands outside the rebalancing code. `locked` marks a claim that was made by the
      second attempt, under the table lock. */
  datatype Pc =
    | Idle
    | AllocLookQuick
    | AllocTakeQuick
    | AllocClaim
    | AllocGot(slot: int, locked: bool)
    | AllocCopied(slot: int, h: Handle, locked: bool)
    | AllocMiss
    | AllocReturn(h: Handle)
    | FreeLookQuick(h: Handle)
    | FreeSwapQuick(h: Handle)
    | FreeClaim(h: Handle)
    | FreeGot(h: Handle, slot: int, locked: bool)
    | FreeMiss(h: Handle)
    | Rebalancing(alloc: bool)

  datatype MoveAt = WaitSrc | WaitDst | Copy | Clear

  /** Where the owner of the table lock stands. `x` is the extra incoming handle (0 if none), `out` the
      extra outgoing one, `rb` and `fb` the two clamped indices held in locals, `scratch` the local
      array `rgHandles`. */
  datatype Phase =
    | Claimed
    | Retry(x: Handle)
    | Suspend(x: Handle)
    | Begin(x: Handle, rb: int, fb: int)
    | Move(x: Handle, rb: int, fb: int, n: int, k: int, at: MoveAt)
    | Adjust(x: Handle, rb: int, fb: int)
    | AdjustClear(out: Handle, rb: int, fb: int)
    | Gather(rb: int, fb: int, j: int, copied: bool, m: int, scratch: seq<Handle>)
    | Drain(fb: int, k: int, at: MoveAt, m: int, scratch: seq<Handle>)
    | Stock(n: int, scratch: seq<Handle>)
    | Sort(n: int, scratch: seq<Handle>)
    | Spill(n: int, scratch: seq<Handle>)
    | Give(lo: int, hi: int, scratch: seq<Handle>)
    | Store(out: Handle, fb: int, next: int, lo: int, hi: int, scratch: seq<Handle>)
    | PublishFree(out: Handle, rb: int, fb: int, lo: int, hi: int, scratch: seq<Handle>)
    | Fill(out: Handle, k: int, total: int, ready: bool, lo: int, scratch: seq<Handle>)
    | PublishReserve(out: Handle, rb: int)
    | Leaving(out: Handle)

  datatype Lock = Unlocked | Locked(owner: Tid, phase: Phase)

  datatype Cache = Cache(
    quick: Handle,
    reserve: seq<Handle>, r: int,
    free: seq<Handle>, f: int,
    lock: Lock,
    threads: map<Tid, Pc>,
    clients: set<Handle>,
    used: set<Handle>)

  /** What is not determined by the state: which client call a thread makes, what the table hands out
      (`minted`) and how the sort orders equal or incomparable handles (`order`). */
  datatype Action =
    | StartAlloc
    | StartFree(h: Handle)
    | BulkCreate(minted: seq<Handle>)
    | BulkDestroy(gone: set<Handle>)
    | Go(minted: seq<Handle>, order: seq<Handle>)

  function PcOf(s: Cache, t: Tid): Pc {
    if t in s.threads then s.threads[t] else Idle
  }

  function Put(s: Cache, t: Tid, pc: Pc): Cache {
    s.(threads := s.threads[t := pc])
  }

  function Slot(bank: seq<Handle>, i: int): Handle {
    if 0 <= i < |bank| then bank[i] else 0
  }

  function SetSlot(bank: seq<Handle>, i: int, h: Handle): seq<Handle> {
    if 0 <= i < |bank| then bank[i := h] else bank
  }

  function Clamp(i: int): nat {
    if i < 0 then 0 else i
  }

  predicate Distinct(hs: seq<Handle>) {
    forall i, j :: 0 <= i < j < |hs| ==> hs[i] != hs[j]
  }

  /** What a bulk allocation of at most `n` handles may return. */
  predicate Fresh(s: Cache, minted: seq<Handle>, n: int) {
    && |minted| <= n
    && Distinct(minted)
    && forall i :: 0 <= i < |minted| ==> minted[i] != 0 && minted[i] !in s.used
  }

  function SetOf(hs: seq<Handle>): set<Handle> {
    set h | h in hs
  }

  /** How many handles `TableFullRebalanceCache` asks the table for. */
  function Wanted(n: int, alloc: bool): int {
    if n < LOWATER then BANK - n + (if alloc then 1 else 0) else 0
  }

  function Write(scratch: seq<Handle>, at: int, hs: seq<Handle>): seq<Handle> {
    if 0 <= at && at + |hs| <= |scratch| then scratch[..at] + hs + scratch[at + |hs|..] else scratch
  }

  predicate PhaseEnabled(s: Cache, alloc: bool, ph: Phase, minted: seq<Handle>, order: seq<Handle>) {
    match ph
    case Claimed => false
    case Move(_, rb, fb, _, k, WaitSrc) => k == 0 || Slot(s.free, fb + k - 1) != 0
    case Move(_, rb, fb, _, k, WaitDst) => Slot(s.reserve, rb + k - 1) == 0
    case Drain(fb, k, WaitSrc, _, _) => k == 0 || Slot(s.free, fb + k - 1) != 0
    case Stock(n, _) => Fresh(s, minted, Wanted(n, alloc))
    case Sort(n, scratch) =>
      n > HIWATER ==> n <= |scratch| && |order| == n && multiset(order) == multiset(scratch[..n])
    case Fill(_, k, _, false, _, _) => k == 0 || Slot(s.reserve, k - 1) == 0
    case _ => true
  }

  predicate Enabled(s: Cache, t: Tid, a: Action) {
    match a
    case StartAlloc => PcOf(s, t).Idle?
    case StartFree(h) => PcOf(s, t).Idle? && h in s.clients
    case BulkCreate(minted) => PcOf(s, t).Idle? && s.lock.Unlocked? && Fresh(s, minted, |minted|)
    case BulkDestroy(gone) => PcOf(s, t).Idle? && s.lock.Unlocked? && gone <= s.clients
    case Go(minted, order) =>
      match PcOf(s, t)
      case Idle => false
      case AllocMiss => s.lock.Unlocked?
      case FreeMiss(_) => s.lock.Unlocked?
      case Rebalancing(alloc) =>
        s.lock.Locked? && s.lock.owner == t && PhaseEnabled(s, alloc, s.lock.phase, minted, order)
      case _ => true
  }

  function Step(s: Cache, t: Tid, a: Action): Cache {
    match a
    case StartAlloc => Put(s, t, AllocLookQuick)
    case StartFree(h) => Put(s.(clients := s.clients - {h}), t, FreeLookQuick(h))
    case BulkCreate(minted) =>
      s.(clients := s.clients + SetOf(minted), used := s.used + SetOf(minted))
    case BulkDestroy(gone) => s.(clients := s.clients - gone, used := s.used - gone)
    case Go(minted, order) => Advance(s, t, minted, order)
  }

  /** One access of a thread that is inside the allocator. */
  function Advance(s: Cache, t: Tid, minted: seq<Handle>, order: seq<Handle>): Cache {
    match PcOf(s, t)
    case Idle => s
    case AllocLookQuick => Put(s, t, if s.quick != 0 then AllocTakeQuick else AllocClaim)
    case AllocTakeQuick =>
      Put(s.(quick := 0), t, if s.quick != 0 then AllocReturn(s.quick) else AllocClaim)
    case AllocClaim =>
      Put(s.(r := s.r - 1), t, if s.r - 1 < 0 then AllocMiss else AllocGot(s.r - 1, false))
    case AllocGot(i, l) => Put(s, t, AllocCopied(i, Slot(s.reserve, i), l))
    case AllocCopied(i, h, l) =>
      var s' := s.(reserve := SetSlot(s.reserve, i, 0));
      if l then Put(s'.(lock := Locked(t, Leaving(h))), t, Rebalancing(true))
      else Put(s', t, AllocReturn(h))
    case AllocMiss => Put(s.(lock := Locked(t, Retry(0))), t, Rebalancing(true))
    case AllocReturn(h) => Put(s.(clients := if h == 0 then s.clients else s.clients + {h}), t, Idle)
    case FreeLookQuick(h) => Put(s, t, if s.quick == 0 then FreeSwapQuick(h) else FreeClaim(h))
    case FreeSwapQuick(h) =>
      Put(s.(quick := h), t, if s.quick == 0 then Idle else FreeClaim(s.quick))
    case FreeClaim(h) =>
      Put(s.(f := s.f - 1), t, if s.f - 1 < 0 then FreeMiss(h) else FreeGot(h, s.f - 1, false))
    case FreeGot(h, i, l) =>
      var s' := s.(free := SetSlot(s.free, i, h));
      if l then Put(s'.(lock := Locked(t, Leaving(0))), t, Rebalancing(false))
      else Put(s', t, Idle)
    case FreeMiss(h) => Put(s.(lock := Locked(t, Retry(h))), t, Rebalancing(false))
    case Rebalancing(alloc) =>
      if s.lock.Locked? then AdvancePhase(s, t, alloc, s.lock.phase, minted, order) else s
  }

  function To(s: Cache, t: Tid, ph: Phase): Cache {
    s.(lock := Locked(t, ph))
  }

  /** The second attempt of `TableCacheMissOnAlloc` (`alloc`) or `TableCacheMissOnFree`. */
  function RetryStep(s: Cache, t: Tid, alloc: bool, x: Handle): Cache {
    if alloc then
      if s.r - 1 < 0 then To(s.(r := s.r - 1), t, Suspend(x))
      else Put(To(s.(r := s.r - 1), t, Claimed), t, AllocGot(s.r - 1, true))
    else
      if s.f - 1 < 0 then To(s.(f := s.f - 1), t, Suspend(x))
      else Put(To(s.(f := s.f - 1), t, Claimed), t, FreeGot(x, s.f - 1, true))
  }

  /** The exchange that suspends the other bank. */
  function SuspendStep(s: Cache, t: Tid, alloc: bool, x: Handle): Cache {
    if alloc then To(s.(f := 0), t, Begin(x, 0, Clamp(s.f)))
    else To(s.(r := 0), t, Begin(x, Clamp(s.r), 0))
  }

  /** `TableQuickRebalanceCache` decides whether the handles can be rebalanced in place. */
  function BeginStep(s: Cache, t: Tid, x: Handle, rb: int, fb: int): Cache {
    var count := rb + (BANK - fb) + (if x != 0 then 1 else 0);
    if count < LOWATER || count > HIWATER then
      var empty := seq(CACHE_TYPE_SIZE, _ => 0);
      To(s, t, if x != 0 then Gather(rb, fb, 0, false, 1, SetSlot(empty, 0, x)) else Gather(rb, fb, 0, false, 0, empty))
    else
      var n := if BANK - fb > BANK - rb then BANK - rb else BANK - fb;
      To(s, t, Move(x, rb, fb, n, n, WaitSrc))
  }

  /** `SyncTransferCacheHandles`, from the highest slot down. */
  function MoveStep(s: Cache, t: Tid, x: Handle, rb: int, fb: int, n: int, k: int, at: MoveAt): Cache {
    if k == 0 then To(s, t, Adjust(x, rb + n, fb + n))
    else
      match at
      case WaitSrc => To(s, t, Move(x, rb, fb, n, k, WaitDst))
      case WaitDst => To(s, t, Move(x, rb, fb, n, k, Copy))
      case Copy =>
        To(s.(reserve := SetSlot(s.reserve, rb + k - 1, Slot(s.free, fb + k - 1))), t, Move(x, rb, fb, n, k, Clear))
      case Clear =>
        To(s.(free := SetSlot(s.free, fb + k - 1, 0)), t, Move(x, rb, fb, n, k - 1, WaitSrc))
  }

  /** The extra handle goes in or out. */
  function AdjustStep(s: Cache, t: Tid, alloc: bool, x: Handle, rb: int, fb: int): Cache {
    if x != 0 then To(s.(free := SetSlot(s.free, fb - 1, x)), t, PublishFree(0, rb, fb - 1, 0, 0, []))
    else if alloc then To(s, t, AdjustClear(Slot(s.reserve, rb - 1), rb - 1, fb))
    else To(s, t, PublishFree(0, rb, fb, 0, 0, []))
  }

  /** `ReadAndZeroCacheHandles` on the reserve bank. */
  function GatherStep(s: Cache, t: Tid, rb: int, fb: int, j: int, copied: bool, m: int, scratch: seq<Handle>): Cache {
    if copied then To(s.(reserve := SetSlot(s.reserve, j, 0)), t, Gather(rb, fb, j + 1, false, m, scratch))
    else if j < rb then To(s, t, Gather(rb, fb, j, true, m + 1, SetSlot(scratch, m, Slot(s.reserve, j))))
    else To(s, t, Drain(fb, BANK - fb, WaitSrc, m, scratch))
  }

  /** `SyncReadAndZeroCacheHandles` on the free bank, from the highest slot down. */
  function DrainStep(s: Cache, t: Tid, fb: int, k: int, at: MoveAt, m: int, scratch: seq<Handle>): Cache {
    if k == 0 then To(s, t, Stock(m + (BANK - fb), scratch))
    else
      match at
      case WaitSrc => To(s, t, Drain(fb, k, Copy, m, scratch))
      case WaitDst => s
      case Copy => To(s, t, Drain(fb, k, Clear, m, SetSlot(scratch, m + k - 1, Slot(s.free, fb + k - 1))))
      case Clear => To(s.(free := SetSlot(s.free, fb + k - 1, 0)), t, Drain(fb, k - 1, WaitSrc, m, scratch))
  }

  /** `TableFreeBulkPreparedHandles` on what exceeds one bank. */
  function SpillStep(s: Cache, t: Tid, n: int, scratch: seq<Handle>): Cache {
    if HIWATER < n <= |scratch| then
      To(s.(used := s.used - SetOf(scratch[..n - BANK])), t, Give(n - BANK, n, scratch))
    else To(s, t, Give(0, n, scratch))
  }

  function GiveStep(s: Cache, t: Tid, alloc: bool, lo: int, hi: int, scratch: seq<Handle>): Cache {
    var give := alloc && lo < hi;
    var hi' := if give then hi - 1 else hi;
    var fb := BANK - (if hi' - lo > BANK then hi' - lo - BANK else 0);
    To(s, t, Store(if give then Slot(scratch, hi - 1) else 0, fb, fb, lo, hi', scratch))
  }

  /** `WriteCacheHandles` on the free bank. */
  function StoreStep(s: Cache, t: Tid, out: Handle, fb: int, next: int, lo: int, hi: int, scratch: seq<Handle>): Cache {
    if next < BANK then
      To(s.(free := SetSlot(s.free, next, Slot(scratch, lo))), t, Store(out, fb, next + 1, lo + 1, hi, scratch))
    else To(s, t, PublishFree(out, 0, fb, lo, hi, scratch))
  }

  /** The exchange that makes the free bank live. */
  function PublishFreeStep(s: Cache, t: Tid, out: Handle, rb: int, fb: int, lo: int, hi: int,
      scratch: seq<Handle>): Cache {
    To(s.(f := fb), t, if lo < hi then Fill(out, hi - lo, hi - lo, false, lo, scratch) else PublishReserve(out, rb))
  }

  /** `SyncWriteCacheHandles` on the reserve bank, from the highest slot down. */
  function FillStep(s: Cache, t: Tid, out: Handle, k: int, total: int, ready: bool, lo: int,
      scratch: seq<Handle>): Cache {
    if k == 0 then To(s, t, PublishReserve(out, total))
    else if !ready then To(s, t, Fill(out, k, total, true, lo, scratch))
    else
      To(s.(reserve := SetSlot(s.reserve, k - 1, Slot(scratch, lo + k - 1))), t,
         Fill(out, k - 1, total, false, lo, scratch))
  }

  /** One access of the owner of the table lock. */
  function AdvancePhase(s: Cache, t: Tid, alloc: bool, ph: Phase, minted: seq<Handle>, order: seq<Handle>): Cache {
    match ph
    case Claimed => s
    case Retry(x) => RetryStep(s, t, alloc, x)
    case Suspend(x) => SuspendStep(s, t, alloc, x)
    case Begin(x, rb, fb) => BeginStep(s, t, x, rb, fb)
    case Move(x, rb, fb, n, k, at) => MoveStep(s, t, x, rb, fb, n, k, at)
    case Adjust(x, rb, fb) => AdjustStep(s, t, alloc, x, rb, fb)
    case AdjustClear(out, rb, fb) =>
      To(s.(reserve := SetSlot(s.reserve, rb, 0)), t, PublishFree(out, rb, fb, 0, 0, []))
    case Gather(rb, fb, j, copied, m, scratch) => GatherStep(s, t, rb, fb, j, copied, m, scratch)
    case Drain(fb, k, at, m, scratch) => DrainStep(s, t, fb, k, at, m, scratch)
    case Stock(n, scratch) =>
      To(s.(used := s.used + SetOf(minted)), t, Sort(n + |minted|, Write(scratch, n, minted)))
    case Sort(n, scratch) => To(s, t, Spill(n, if n > HIWATER then Write(scratch, 0, order) else scratch))
    case Spill(n, scratch) => SpillStep(s, t, n, scratch)
    case Give(lo, hi, scratch) => GiveStep(s, t, alloc, lo, hi, scratch)
    case Store(out, fb, next, lo, hi, scratch) => StoreStep(s, t, out, fb, next, lo, hi, scratch)
    case PublishFree(out, rb, fb, lo, hi, scratch) => PublishFreeStep(s, t, out, rb, fb, lo, hi, scratch)
    case Fill(out, k, total, ready, lo, scratch) => FillStep(s, t, out, k, total, ready, lo, scratch)
    case PublishReserve(out, rb) => To(s.(r := rb), t, Leaving(out))
    case Leaving(out) => Put(s.(lock := Unlocked), t, if alloc then AllocReturn(out) else Idle)
  }

  /** The cache of a new table: `HndCreateHandleTable` zeroes it and sets the free index. */
  predicate Init(s: Cache) {
    && s.quick == 0
    && s.reserve == seq(BANK, _ => 0) && s.r == 0
    && s.free == seq(BANK, _ => 0) && s.f == BANK
    && s.lock == Unlocked
    && s.threads == map[]
    && s.clients == {} && s.used == {}
  }

  /** A run: every entry of `steps` says which thread moved and what it did. */
  datatype Move1 = Move1(t: Tid, a: Action)

  ghost predicate IsRun(states: seq<Cache>, steps: seq<Move1>) {
    && |states| == |steps| + 1
    && forall i :: 0 <= i < |steps| ==>
         Enabled(states[i], steps[i].t, steps[i].a) && states[i + 1] == Step(states[i], steps[i].t, steps[i].a)
  }
}
