/** The invariant of the handle cache, and that every step of every thread keeps it. */
module HandleCacheInvariant {
  import opened HandleCache

  // ---------------------------------------------------------------- bank slots

  /** Thread `t` has claimed reserve slot `i` and not yet zeroed it. */
  predicate Reads(th: map<Tid, Pc>, t: Tid, i: int) {
    t in th && (th[t].AllocGot? || th[t].AllocCopied?) && th[t].slot == i
  }

  /** Thread `t` has claimed free slot `i` and not yet filled it. */
  predicate Writes(th: map<Tid, Pc>, t: Tid, i: int) {
    t in th && th[t].FreeGot? && th[t].slot == i
  }

  /** Reserve slot `i` is claimed and its handle not taken out yet. */
  predicate Lingers(bank: seq<Handle>, owned: set<int>, i: int) {
    0 <= i < |bank| && i !in owned && bank[i] != 0
  }

  /** Free slot `i` is claimed and its handle not put in yet. */
  predicate Pending(bank: seq<Handle>, taken: set<int>, i: int) {
    0 <= i < |bank| && i in taken && bank[i] == 0
  }

  /** `owned` are the reserve slots that hold a handle nobody has claimed. Every other slot that is not
      zero yet is owed a zero by exactly one thread. */
  ghost predicate ReserveSide(bank: seq<Handle>, owned: set<int>, th: map<Tid, Pc>) {
    && |bank| == BANK
    && (forall i | i in owned :: 0 <= i < BANK && bank[i] != 0)
    && (forall t, i | Reads(th, t, i) ::
          Lingers(bank, owned, i) && (th[t].AllocCopied? ==> th[t].h == bank[i]))
    && (forall t, u, i | Reads(th, t, i) && Reads(th, u, i) :: t == u)
    && (forall i | Lingers(bank, owned, i) :: exists t :: Reads(th, t, i))
  }

  /** `taken` are the free slots that hold a handle or are claimed. Every one of them that is still zero
      is owed a handle by exactly one thread. */
  ghost predicate FreeSide(bank: seq<Handle>, taken: set<int>, th: map<Tid, Pc>) {
    && |bank| == BANK
    && (forall i | i in taken :: 0 <= i < BANK)
    && (forall i | 0 <= i < BANK && i !in taken :: bank[i] == 0)
    && (forall t, i | Writes(th, t, i) :: Pending(bank, taken, i))
    && (forall t, u, i | Writes(th, t, i) && Writes(th, u, i) :: t == u)
    && (forall i | Pending(bank, taken, i) :: exists t :: Writes(th, t, i))
  }

  predicate OwnedAt(s: Cache, i: int) {
    if s.lock.Unlocked? then i < s.r
    else
      match s.lock.phase
      case Begin(_, rb, _) => i < rb
      case Move(_, rb, _, n, k, at) =>
        i < rb || rb + k <= i < rb + n || (at == Clear && i == rb + k - 1)
      case Adjust(_, rb, _) => i < rb
      case AdjustClear(_, rb, _) => i <= rb
      case Gather(rb, _, j, _, _, _) => j <= i < rb
      case Drain(_, _, _, _, _) => false
      case Stock(_, _) => false
      case Sort(_, _) => false
      case Spill(_, _) => false
      case Give(_, _, _) => false
      case Store(_, _, _, _, _, _) => false
      case PublishFree(_, rb, _, _, _, _) => i < rb
      case Fill(_, k, total, _, _, _) => k <= i < total
      case PublishReserve(_, rb) => i < rb
      case _ => i < s.r
  }

  predicate TakenAt(s: Cache, i: int) {
    if s.lock.Unlocked? then s.f <= i
    else
      match s.lock.phase
      case Begin(_, _, fb) => fb <= i
      case Move(_, _, fb, n, k, _) => fb <= i < fb + k || fb + n <= i
      case Adjust(_, _, fb) => fb <= i
      case AdjustClear(_, _, fb) => fb <= i
      case Gather(_, fb, _, _, _, _) => fb <= i
      case Drain(fb, k, _, _, _) => fb <= i < fb + k
      case Stock(_, _) => false
      case Sort(_, _) => false
      case Spill(_, _) => false
      case Give(_, _, _) => false
      case Store(_, fb, next, _, _, _) => fb <= i < next
      case PublishFree(_, _, fb, _, _, _) => fb <= i
      case _ => s.f <= i
  }

  function Owned(s: Cache): set<int> {
    set i | 0 <= i < BANK && OwnedAt(s, i)
  }

  function Taken(s: Cache): set<int> {
    set i | 0 <= i < BANK && TakenAt(s, i)
  }

  // ---------------------------------------------------------------- the lock and the locals of its owner

  /** The reserve index is suspended: nobody can claim a reserve slot. */
  predicate ReserveSuspended(ph: Phase) {
    ph.Begin? || ph.Move? || ph.Adjust? || ph.AdjustClear? || ph.Gather? || ph.Drain? || ph.Stock? || ph.Sort?
    || ph.Spill? || ph.Give? || ph.Store? || ph.PublishFree? || ph.Fill? || ph.PublishReserve?
  }

  predicate FreeSuspended(ph: Phase) {
    ReserveSuspended(ph) && !ph.Fill? && !ph.PublishReserve?
  }

  predicate InBank(i: int) {
    0 <= i <= BANK
  }

  predicate PhaseOk(s: Cache, alloc: bool, ph: Phase) {
    && (ReserveSuspended(ph) ==> s.r <= 0)
    && (FreeSuspended(ph) ==> s.f <= 0)
    && (ph.Suspend? ==> if alloc then s.r < 0 else s.f < 0)
    && Locals(s.reserve, s.free, alloc, ph)
  }

  /** The local variables of the lock owner stay in range and say what the shared slots hold. */
  predicate Locals(reserve: seq<Handle>, free: seq<Handle>, alloc: bool, ph: Phase) {
    match ph
    case Claimed => true
    case Retry(x) => alloc == (x == 0)
    case Suspend(x) => alloc == (x == 0)
    case Begin(x, rb, fb) =>
      InBank(rb) && InBank(fb) && alloc == (x == 0) && (if alloc then rb == 0 else fb == 0)
    case Move(x, rb, fb, n, k, at) =>
      && 0 <= rb && 0 <= fb && 0 <= k <= n && 1 <= n && rb + n <= BANK && fb + n <= BANK
      && alloc == (x == 0)
      && (at != WaitSrc ==> 1 <= k && Slot(free, fb + k - 1) != 0)
      && (at == Copy ==> Slot(reserve, rb + k - 1) == 0)
      && (at == Clear ==> Slot(reserve, rb + k - 1) == Slot(free, fb + k - 1))
    case Adjust(x, rb, fb) =>
      InBank(rb) && InBank(fb) && alloc == (x == 0) && (if alloc then 1 <= rb else 1 <= fb)
    case AdjustClear(out, rb, fb) =>
      0 <= rb < BANK && InBank(fb) && out == Slot(reserve, rb) && out != 0 && alloc
    case Gather(rb, fb, j, copied, m, scratch) =>
      && 0 <= j <= rb <= BANK && InBank(fb) && |scratch| == CACHE_TYPE_SIZE
      && 0 <= m <= 1 + j + (if copied then 1 else 0)
      && (copied ==> j < rb && 1 <= m && Slot(scratch, m - 1) == Slot(reserve, j))
    case Drain(fb, k, at, m, scratch) =>
      && InBank(fb) && 0 <= k <= BANK - fb && 0 <= m <= 1 + BANK && |scratch| == CACHE_TYPE_SIZE
      && at != WaitDst
      && (at != WaitSrc ==> 1 <= k && Slot(free, fb + k - 1) != 0)
      && (at == Clear ==> Slot(scratch, m + k - 1) == Slot(free, fb + k - 1))
    case Stock(n, scratch) => 0 <= n < |scratch| == CACHE_TYPE_SIZE
    case Sort(n, scratch) => 0 <= n < |scratch| == CACHE_TYPE_SIZE
    case Spill(n, scratch) => 0 <= n < |scratch| == CACHE_TYPE_SIZE
    case Give(lo, hi, scratch) => 0 <= lo <= hi < |scratch| == CACHE_TYPE_SIZE && hi - lo <= HIWATER
    case Store(out, fb, next, lo, hi, scratch) =>
      && 0 <= lo <= hi < |scratch| == CACHE_TYPE_SIZE && 0 <= fb <= next <= BANK
      && (if hi - lo > BANK then hi - lo - BANK == BANK - next else next == BANK)
      && (alloc || out == 0)
    case PublishFree(out, rb, fb, lo, hi, scratch) =>
      && InBank(rb) && InBank(fb) && 0 <= lo <= hi <= lo + BANK && (hi <= |scratch| <= CACHE_TYPE_SIZE)
      && (rb == 0 || lo == hi)
      && (alloc || out == 0)
    case Fill(out, k, total, ready, lo, scratch) =>
      && 0 <= k <= total <= BANK && 0 <= lo && lo + total <= |scratch| <= CACHE_TYPE_SIZE
      && (ready ==> 1 <= k && Slot(reserve, k - 1) == 0)
      && (alloc || out == 0)
    case PublishReserve(out, rb) => InBank(rb) && (alloc || out == 0)
    case Leaving(out) => alloc || out == 0
  }

  /** Exactly the owner of the lock is inside the locked code. */
  ghost predicate LockOk(s: Cache) {
    && (forall t | t in s.threads ::
          InsideLock(s.threads[t]) ==> s.lock.Locked? && s.lock.owner == t)
    && (s.lock.Locked? ==>
          && s.lock.owner in s.threads
          && var pc := s.threads[s.lock.owner];
             InsideLock(pc)
             && (s.lock.phase.Claimed? <==> !pc.Rebalancing?)
             && (pc.Rebalancing? ==> PhaseOk(s, pc.alloc, s.lock.phase)))
  }

  predicate InsideLock(pc: Pc) {
    pc.Rebalancing? || ((pc.AllocGot? || pc.AllocCopied? || pc.FreeGot?) && pc.locked)
  }

  // ---------------------------------------------------------------- where handles are

  datatype Loc =
    | Client(h: Handle)
    | Quick
    | ReserveSlot(i: int)
    | FreeSlot(i: int)
    | Hand(t: Tid)
    | Extra
    | Scratch(k: int)

  function HandOf(pc: Pc): Handle {
    match pc
    case AllocReturn(h) => h
    case FreeLookQuick(h) => h
    case FreeSwapQuick(h) => h
    case FreeClaim(h) => h
    case FreeGot(h, _, _) => h
    case FreeMiss(h) => h
    case _ => 0
  }

  function ExtraOf(lock: Lock): Handle {
    if lock.Unlocked? then 0
    else
      match lock.phase
      case Retry(x) => x
      case Suspend(x) => x
      case Begin(x, _, _) => x
      case Move(x, _, _, _, _, _) => x
      case Adjust(x, _, _) => x
      case AdjustClear(out, _, _) => out
      case Store(out, _, _, _, _, _) => out
      case PublishFree(out, _, _, _, _, _) => out
      case Fill(out, _, _, _, _, _) => out
      case PublishReserve(out, _) => out
      case Leaving(out) => out
      case _ => 0
  }

  /** The part of the scratch array that holds handles. */
  predicate InScratch(ph: Phase, k: int) {
    match ph
    case Gather(_, _, _, _, m, _) => 0 <= k < m
    case Drain(fb, j, at, m, _) =>
      0 <= k < m || m + j <= k < m + (BANK - fb) || (at == Clear && k == m + j - 1)
    case Stock(n, _) => 0 <= k < n
    case Sort(n, _) => 0 <= k < n
    case Spill(n, _) => 0 <= k < n
    case Give(lo, hi, _) => lo <= k < hi
    case Store(_, _, _, lo, hi, _) => lo <= k < hi
    case PublishFree(_, _, _, lo, hi, _) => lo <= k < hi
    case Fill(_, j, _, _, lo, _) => lo <= k < lo + j
    case _ => false
  }

  function ScratchOf(ph: Phase): seq<Handle> {
    match ph
    case Gather(_, _, _, _, _, scratch) => scratch
    case Drain(_, _, _, _, scratch) => scratch
    case Stock(_, scratch) => scratch
    case Sort(_, scratch) => scratch
    case Spill(_, scratch) => scratch
    case Give(_, _, scratch) => scratch
    case Store(_, _, _, _, _, scratch) => scratch
    case PublishFree(_, _, _, _, _, scratch) => scratch
    case Fill(_, _, _, _, _, scratch) => scratch
    case _ => []
  }

  function ScratchAt(lock: Lock, k: int): Handle {
    if lock.Locked? && InScratch(lock.phase, k) then Slot(ScratchOf(lock.phase), k) else 0
  }

  /** The reserve slot whose handle has already been copied out by the lock owner, or -1. */
  function StaleReserve(lock: Lock): int {
    if lock.Unlocked? then -1
    else
      match lock.phase
      case AdjustClear(_, rb, _) => rb
      case Gather(_, _, j, true, _, _) => j
      case _ => -1
  }

  /** The free slot whose handle has already been copied out by the lock owner, or -1. */
  function StaleFree(lock: Lock): int {
    if lock.Unlocked? then -1
    else
      match lock.phase
      case Move(_, _, fb, _, k, Clear) => fb + k - 1
      case Drain(fb, k, Clear, _, _) => fb + k - 1
      case _ => -1
  }

  /** The handle at a place, 0 if there is none. */
  function At(s: Cache, l: Loc): Handle {
    match l
    case Client(h) => if h in s.clients then h else 0
    case Quick => s.quick
    case ReserveSlot(i) => if i == StaleReserve(s.lock) then 0 else Slot(s.reserve, i)
    case FreeSlot(i) => if i == StaleFree(s.lock) then 0 else Slot(s.free, i)
    case Hand(t) => HandOf(PcOf(s, t))
    case Extra => ExtraOf(s.lock)
    case Scratch(k) => ScratchAt(s.lock, k)
  }

  /** Every used handle is in exactly one place and nothing else is in any place. */
  ghost predicate Placed(s: Cache) {
    && (forall l, m | At(s, l) != 0 && At(s, l) == At(s, m) :: l == m)
    && (forall l | At(s, l) != 0 :: At(s, l) in s.used)
    && (forall h | h in s.used :: h != 0 && exists l :: At(s, l) == h)
  }

  ghost predicate Banks(s: Cache) {
    && ReserveSide(s.reserve, Owned(s), s.threads)
    && FreeSide(s.free, Taken(s), s.threads)
    && s.r <= BANK && s.f <= BANK
  }

  predicate Freeing(pc: Pc) {
    pc.FreeLookQuick? || pc.FreeSwapQuick? || pc.FreeClaim? || pc.FreeGot? || pc.FreeMiss?
  }

  ghost predicate Hands(s: Cache) {
    && 0 !in s.clients
    && (s.lock.Locked? ==> forall k | InScratch(s.lock.phase, k) :: Slot(ScratchOf(s.lock.phase), k) != 0)
    && forall t | t in s.threads && Freeing(s.threads[t]) :: HandOf(s.threads[t]) != 0
  }

  ghost predicate Inv(s: Cache) {
    Banks(s) && LockOk(s) && Hands(s) && Placed(s)
  }

  // ---------------------------------------------------------------- how places change

  /** Handles stay where they are. */
  lemma PlacesSame(s: Cache, s': Cache)
    requires Placed(s)
    requires forall l :: At(s', l) == At(s, l)
    requires s'.used == s.used
    ensures Placed(s')
  {
    forall h | h in s'.used ensures exists l :: At(s', l) == h {
      var l :| At(s, l) == h;
      assert At(s', l) == h;
    }
  }

  /** One handle moves from place `a` to place `b`. */
  lemma PlacesMove(s: Cache, s': Cache, a: Loc, b: Loc)
    requires Placed(s)
    requires a != b && At(s, b) == 0 && At(s', a) == 0 && At(s', b) == At(s, a)
    requires forall l | l != a && l != b :: At(s', l) == At(s, l)
    requires s'.used == s.used
    ensures Placed(s')
  {
    forall h | h in s'.used ensures h != 0 && exists l :: At(s', l) == h {
      var l :| At(s, l) == h;
      assert At(s', if l == a then b else l) == h;
    }
    forall l, m | At(s', l) != 0 && At(s', l) == At(s', m) ensures l == m {
      var l0, m0 := if l == b then a else l, if m == b then a else m;
      assert At(s, l0) == At(s', l) && At(s, m0) == At(s', m);
    }
    forall l | At(s', l) != 0 ensures At(s', l) in s'.used {
      assert At(s, if l == b then a else l) == At(s', l);
    }
  }

  ghost predicate Moved(s: Cache, s': Cache, a: Loc, b: Loc) {
    && a != b && At(s, b) == 0 && At(s', a) == 0 && At(s', b) == At(s, a)
    && forall l | l != a && l != b :: At(s', l) == At(s, l)
  }

  lemma PlacesMoved(s: Cache, s': Cache, a: Loc, b: Loc)
    requires Placed(s) && Moved(s, s', a, b) && s'.used == s.used
    ensures Placed(s')
  {
    PlacesMove(s, s', a, b);
  }

  /** Two handles change places. */
  lemma PlacesSwap(s: Cache, s': Cache, a: Loc, b: Loc)
    requires Placed(s)
    requires a != b && At(s', a) == At(s, b) && At(s', b) == At(s, a)
    requires forall l | l != a && l != b :: At(s', l) == At(s, l)
    requires s'.used == s.used
    ensures Placed(s')
  {
    forall h | h in s'.used ensures h != 0 && exists l :: At(s', l) == h {
      var l :| At(s, l) == h;
      assert At(s', if l == a then b else if l == b then a else l) == h;
    }
    forall l, m | At(s', l) != 0 && At(s', l) == At(s', m) ensures l == m {
      var l0 := if l == b then a else if l == a then b else l;
      var m0 := if m == b then a else if m == a then b else m;
      assert At(s, l0) == At(s', l) && At(s, m0) == At(s', m);
    }
    forall l | At(s', l) != 0 ensures At(s', l) in s'.used {
      assert At(s, if l == b then a else if l == a then b else l) == At(s', l);
    }
  }

  // ---------------------------------------------------------------- how bank sides change

  lemma ReserveSideSame(bank: seq<Handle>, owned: set<int>, th: map<Tid, Pc>, t: Tid, pc: Pc)
    requires ReserveSide(bank, owned, th)
    requires forall i :: !Reads(th, t, i)
    requires !pc.AllocGot? && !pc.AllocCopied?
    ensures ReserveSide(bank, owned, th[t := pc])
  {
    var th' := th[t := pc];
    forall i | Lingers(bank, owned, i) ensures exists u :: Reads(th', u, i) {
      var u :| Reads(th, u, i);
      assert Reads(th', u, i);
    }
    assert forall u, i :: Reads(th', u, i) <==> Reads(th, u, i);
  }

  lemma ReserveSideClaim(bank: seq<Handle>, owned: set<int>, th: map<Tid, Pc>, t: Tid, i: int, l: bool)
    requires ReserveSide(bank, owned, th)
    requires forall j :: !Reads(th, t, j)
    requires i in owned
    ensures ReserveSide(bank, owned - {i}, th[t := AllocGot(i, l)])
  {
    var th' := th[t := AllocGot(i, l)];
    forall j | Lingers(bank, owned - {i}, j) ensures exists u :: Reads(th', u, j) {
      if j == i {
        assert Reads(th', t, i);
      } else {
        assert Lingers(bank, owned, j);
        var u :| Reads(th, u, j);
        assert Reads(th', u, j);
      }
    }
    assert forall u, j | u != t :: Reads(th', u, j) <==> Reads(th, u, j);
  }

  lemma ReserveSideCopy(bank: seq<Handle>, owned: set<int>, th: map<Tid, Pc>, t: Tid, l: bool)
    requires ReserveSide(bank, owned, th)
    requires t in th && th[t].AllocGot? && 0 <= th[t].slot < |bank|
    ensures ReserveSide(bank, owned, th[t := AllocCopied(th[t].slot, bank[th[t].slot], l)])
  {
    var th' := th[t := AllocCopied(th[t].slot, bank[th[t].slot], l)];
    forall j | Lingers(bank, owned, j) ensures exists u :: Reads(th', u, j) {
      assert Lingers(bank, owned, j);
      var u :| Reads(th, u, j);
      assert Reads(th', u, j);
    }
    assert forall u, j :: Reads(th', u, j) <==> Reads(th, u, j);
  }

  lemma ReserveSideZero(bank: seq<Handle>, owned: set<int>, th: map<Tid, Pc>, t: Tid, i: int, pc: Pc)
    requires ReserveSide(bank, owned, th)
    requires Reads(th, t, i)
    requires !pc.AllocGot? && !pc.AllocCopied?
    ensures ReserveSide(SetSlot(bank, i, 0), owned, th[t := pc])
  {
    var th', bank' := th[t := pc], SetSlot(bank, i, 0);
    forall j | Lingers(bank', owned, j) ensures exists u :: Reads(th', u, j) {
      assert Lingers(bank, owned, j);
      var u :| Reads(th, u, j);
      assert Reads(th', u, j);
    }
    assert forall u, j | u != t :: Reads(th', u, j) <==> Reads(th, u, j);
  }

  lemma ReserveSideTake(bank: seq<Handle>, owned: set<int>, th: map<Tid, Pc>, i: int)
    requires ReserveSide(bank, owned, th)
    requires i in owned
    ensures ReserveSide(SetSlot(bank, i, 0), owned - {i}, th)
  {
    assert forall j | Lingers(SetSlot(bank, i, 0), owned - {i}, j) :: Lingers(bank, owned, j);
  }

  lemma ReserveSideGive(bank: seq<Handle>, owned: set<int>, th: map<Tid, Pc>, i: int, h: Handle)
    requires ReserveSide(bank, owned, th)
    requires 0 <= i < BANK && bank[i] == 0 && h != 0
    ensures ReserveSide(SetSlot(bank, i, h), owned + {i}, th)
  {
    assert forall j | Lingers(SetSlot(bank, i, h), owned + {i}, j) :: Lingers(bank, owned, j);
  }

  lemma FreeSideSame(bank: seq<Handle>, taken: set<int>, th: map<Tid, Pc>, t: Tid, pc: Pc)
    requires FreeSide(bank, taken, th)
    requires forall i :: !Writes(th, t, i)
    requires !pc.FreeGot?
    ensures FreeSide(bank, taken, th[t := pc])
  {
    var th' := th[t := pc];
    forall i | Pending(bank, taken, i) ensures exists u :: Writes(th', u, i) {
      var u :| Writes(th, u, i);
      assert Writes(th', u, i);
    }
    assert forall u, i :: Writes(th', u, i) <==> Writes(th, u, i);
  }

  lemma FreeSideClaim(bank: seq<Handle>, taken: set<int>, th: map<Tid, Pc>, t: Tid, i: int, h: Handle, l: bool)
    requires FreeSide(bank, taken, th)
    requires forall j :: !Writes(th, t, j)
    requires 0 <= i < BANK && i !in taken
    ensures FreeSide(bank, taken + {i}, th[t := FreeGot(h, i, l)])
  {
    var th' := th[t := FreeGot(h, i, l)];
    forall j | Pending(bank, taken + {i}, j) ensures exists u :: Writes(th', u, j) {
      if j == i {
        assert Writes(th', t, i);
      } else {
        assert Pending(bank, taken, j);
        var u :| Writes(th, u, j);
        assert Writes(th', u, j);
      }
    }
    assert forall u, j | u != t :: Writes(th', u, j) <==> Writes(th, u, j);
  }

  lemma FreeSideFill(bank: seq<Handle>, taken: set<int>, th: map<Tid, Pc>, t: Tid, i: int, pc: Pc)
    requires FreeSide(bank, taken, th)
    requires Writes(th, t, i) && th[t].h != 0
    requires !pc.FreeGot?
    ensures FreeSide(SetSlot(bank, i, th[t].h), taken, th[t := pc])
  {
    var th', bank' := th[t := pc], SetSlot(bank, i, th[t].h);
    forall j | Pending(bank', taken, j) ensures exists u :: Writes(th', u, j) {
      assert Pending(bank, taken, j);
      var u :| Writes(th, u, j);
      assert Writes(th', u, j);
    }
    assert forall u, j | u != t :: Writes(th', u, j) <==> Writes(th, u, j);
  }

  lemma FreeSideTake(bank: seq<Handle>, taken: set<int>, th: map<Tid, Pc>, i: int)
    requires FreeSide(bank, taken, th)
    requires i in taken && bank[i] != 0
    ensures FreeSide(SetSlot(bank, i, 0), taken - {i}, th)
  {
    assert forall j | Pending(SetSlot(bank, i, 0), taken - {i}, j) :: Pending(bank, taken, j);
  }

  lemma FreeSideGive(bank: seq<Handle>, taken: set<int>, th: map<Tid, Pc>, i: int, h: Handle)
    requires FreeSide(bank, taken, th)
    requires 0 <= i < BANK && i !in taken && h != 0
    ensures FreeSide(SetSlot(bank, i, h), taken + {i}, th)
  {
    assert forall j | Pending(SetSlot(bank, i, h), taken + {i}, j) :: Pending(bank, taken, j);
  }
}
