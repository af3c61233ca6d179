/** Counting the handles of a table with several types: `HndCountHandles` of src/gc/handletable.cpp.

    A table is one cache per type and the table-wide counter `dwCount`. A step of the table is a step of
    one of its caches; the bulk routines are the only ones that change the counter. The types share one
    lock, which the step system does not need: letting the lock of every type be taken separately only
    adds runs. */
module HandleCount {
  import opened HandleCache
  import opened HandleCacheInvariant
  import opened HandleCachePhases
  import opened HandleCacheTheorems

  const MAX_INTERNAL_TYPES: nat := 12

  datatype Table = Table(types: seq<Cache>, dwCount: int)

  datatype TableMove = TableMove(k: nat, t: Tid, a: Action)

  /** How the step changes the counter of used handles. */
  function CountDelta(s: Cache, t: Tid, a: Action): int {
    match a
    case BulkCreate(minted) => |minted|
    case BulkDestroy(gone) => -|gone|
    case Go(minted, _) =>
      if PcOf(s, t).Rebalancing? && s.lock.Locked? && s.lock.phase.Stock? then |minted|
      else if PcOf(s, t).Rebalancing? && s.lock.Locked? && s.lock.phase.Spill? && s.lock.phase.n > HIWATER
      then -(s.lock.phase.n - BANK)
      else 0
    case _ => 0
  }

  predicate TableEnabled(x: Table, m: TableMove) {
    m.k < |x.types| && Enabled(x.types[m.k], m.t, m.a)
  }

  function TableStep(x: Table, m: TableMove): Table
    requires TableEnabled(x, m)
  {
    Table(x.types[m.k := Step(x.types[m.k], m.t, m.a)], x.dwCount + CountDelta(x.types[m.k], m.t, m.a))
  }

  ghost predicate IsTableRun(states: seq<Table>, moves: seq<TableMove>) {
    && |states| == |moves| + 1
    && |states[0].types| < MAX_INTERNAL_TYPES
    && (forall k | 0 <= k < |states[0].types| :: Init(states[0].types[k]))
    && states[0].dwCount == 0
    && forall i :: 0 <= i < |moves| ==>
        TableEnabled(states[i], moves[i]) && states[i + 1] == TableStep(states[i], moves[i])
  }

  function UsedSum(types: seq<Cache>): nat {
    if types == [] then 0 else |types[0].used| + UsedSum(types[1..])
  }

  function ClientSum(types: seq<Cache>): nat {
    if types == [] then 0 else |types[0].clients| + ClientSum(types[1..])
  }

  /** What `HndCountHandles` subtracts for one type: the two banks by their clamped indices. */
  function BankCount(s: Cache): int {
    Clamp(s.r) + (BANK - Clamp(s.f))
  }

  function QuickCount(s: Cache): int {
    if s.quick != 0 then 1 else 0
  }

  function CachedSum(types: seq<Cache>): int {
    if types == [] then 0 else BankCount(types[0]) + QuickCount(types[0]) + CachedSum(types[1..])
  }

  /** No thread is inside an operation. */
  ghost predicate Quiescent(s: Cache) {
    forall t :: PcOf(s, t).Idle?
  }

  // ---------------------------------------------------------------- one type

  lemma {:induction false} DistinctSize(hs: seq<Handle>)
    requires Distinct(hs)
    ensures |SetOf(hs)| == |hs|
  {
    if hs == [] {
    } else {
      var n := |hs| - 1;
      DistinctSize(hs[..n]);
      assert SetOf(hs) == SetOf(hs[..n]) + {hs[n]};
      assert hs[n] !in SetOf(hs[..n]);
    }
  }

  /** In a quiescent state the used handles are those of the clients and those of the cache, and the
      indices say how many the cache has. */
  lemma QuiescentCount(s: Cache)
    requires Inv(s) && Quiescent(s)
    ensures |s.used| == |s.clients| + BankCount(s) + QuickCount(s)
  {
    assert PcOf(s, if s.lock.Locked? then s.lock.owner else 0).Idle?;
    var reserved, freed := s.reserve[..Clamp(s.r)], s.free[Clamp(s.f)..];
    var quick := if s.quick != 0 then {s.quick} else {};
    QuiescentSlots(s, reserved, freed);
    QuiescentBanks(s, reserved, freed);
    QuiescentPlaces(s, reserved, freed, quick);
    DistinctSize(reserved);
    DistinctSize(freed);
    QuiescentDisjoint(s, reserved, freed, quick);
  }

  lemma QuiescentSlots(s: Cache, reserved: seq<Handle>, freed: seq<Handle>)
    requires Banks(s) && s.lock.Unlocked? && Quiescent(s)
    requires reserved == s.reserve[..Clamp(s.r)] && freed == s.free[Clamp(s.f)..]
    ensures forall i | 0 <= i < BANK :: (s.reserve[i] != 0 <==> i < Clamp(s.r)) && (s.free[i] != 0 <==> Clamp(s.f) <= i)
    ensures forall i | 0 <= i < |reserved| :: reserved[i] != 0 && At(s, ReserveSlot(i)) == reserved[i]
    ensures forall i | 0 <= i < |freed| :: freed[i] != 0 && At(s, FreeSlot(Clamp(s.f) + i)) == freed[i]
  {
    assert forall t, i :: !Reads(s.threads, t, i) && !Writes(s.threads, t, i) by {
      forall t, i ensures !Reads(s.threads, t, i) && !Writes(s.threads, t, i) { assert PcOf(s, t).Idle?; }
    }
    forall i | 0 <= i < BANK ensures (s.reserve[i] != 0 <==> i < Clamp(s.r)) && (s.free[i] != 0 <==> Clamp(s.f) <= i) {
      assert i in Owned(s) <==> i < s.r;
      assert i in Taken(s) <==> s.f <= i;
      assert !Lingers(s.reserve, Owned(s), i) && !Pending(s.free, Taken(s), i);
    }
  }

  lemma QuiescentBanks(s: Cache, reserved: seq<Handle>, freed: seq<Handle>)
    requires Placed(s)
    requires forall i | 0 <= i < |reserved| :: reserved[i] != 0 && At(s, ReserveSlot(i)) == reserved[i]
    requires forall i | 0 <= i < |freed| :: freed[i] != 0 && At(s, FreeSlot(Clamp(s.f) + i)) == freed[i]
    ensures Distinct(reserved) && Distinct(freed) && SetOf(reserved) !! SetOf(freed)
  {
    forall i, j | 0 <= i < j < |reserved| ensures reserved[i] != reserved[j] {
      assert At(s, ReserveSlot(i)) != At(s, ReserveSlot(j));
    }
    forall i, j | 0 <= i < j < |freed| ensures freed[i] != freed[j] {
      assert At(s, FreeSlot(Clamp(s.f) + i)) == freed[i] && At(s, FreeSlot(Clamp(s.f) + j)) == freed[j];
    }
    forall i, j | 0 <= i < |reserved| && 0 <= j < |freed| ensures reserved[i] != freed[j] {
      assert At(s, ReserveSlot(i)) != At(s, FreeSlot(Clamp(s.f) + j));
    }
  }

  lemma QuiescentPlaces(s: Cache, reserved: seq<Handle>, freed: seq<Handle>, quick: set<Handle>)
    requires Placed(s) && s.lock.Unlocked? && Quiescent(s) && |s.reserve| == |s.free| == BANK && s.r <= BANK
      && s.f <= BANK
    requires 0 !in s.clients
    requires reserved == s.reserve[..Clamp(s.r)] && freed == s.free[Clamp(s.f)..]
    requires quick == if s.quick != 0 then {s.quick} else {}
    requires forall i | 0 <= i < BANK :: (s.reserve[i] != 0 <==> i < Clamp(s.r)) && (s.free[i] != 0 <==>
      Clamp(s.f) <= i)
    ensures s.used == s.clients + quick + SetOf(reserved) + SetOf(freed)
  {
    forall h | h in s.used ensures h in s.clients + quick + SetOf(reserved) + SetOf(freed) {
      var l :| At(s, l) == h;
      match l {
        case Client(_) =>
        case Quick =>
        case ReserveSlot(i) => assert reserved[i] == h;
        case FreeSlot(i) => assert freed[i - Clamp(s.f)] == h;
        case Hand(_) =>
        case Extra =>
        case Scratch(_) =>
      }
    }
    forall h | h in s.clients + quick + SetOf(reserved) + SetOf(freed) ensures h in s.used {
      if h in s.clients {
        assert At(s, Client(h)) == h;
      } else if h in quick {
        assert At(s, Quick) == h;
      } else if h in SetOf(reserved) {
        var i :| 0 <= i < |reserved| && reserved[i] == h;
        assert At(s, ReserveSlot(i)) == h;
      } else {
        var i :| 0 <= i < |freed| && freed[i] == h;
        assert At(s, FreeSlot(Clamp(s.f) + i)) == h;
      }
    }
  }

  lemma QuiescentDisjoint(s: Cache, reserved: seq<Handle>, freed: seq<Handle>, quick: set<Handle>)
    requires Placed(s) && 0 !in s.clients && quick == if s.quick != 0 then {s.quick} else {}
    requires forall i | 0 <= i < |reserved| :: reserved[i] != 0 && At(s, ReserveSlot(i)) == reserved[i]
    requires forall i | 0 <= i < |freed| :: freed[i] != 0 && At(s, FreeSlot(Clamp(s.f) + i)) == freed[i]
    requires SetOf(reserved) !! SetOf(freed)
    ensures |s.clients + quick + SetOf(reserved) + SetOf(freed)|
      == |s.clients| + |quick| + |SetOf(reserved)| + |SetOf(freed)|
  {
    forall h | h in s.clients ensures h !in quick && h !in SetOf(reserved) && h !in SetOf(freed) {
      assert At(s, Client(h)) == h && At(s, Quick) == s.quick;
    }
    forall h | h in quick ensures h !in SetOf(reserved) && h !in SetOf(freed) {
      assert At(s, Quick) == h;
    }
    assert s.clients !! quick;
    assert s.clients + quick !! SetOf(reserved);
    assert s.clients + quick + SetOf(reserved) !! SetOf(freed);
  }

  /** The counter moves exactly with the set of used handles. */
  lemma CountFollows(s: Cache, t: Tid, a: Action)
    requires Inv(s) && Enabled(s, t, a)
    ensures |Step(s, t, a).used| == |s.used| + CountDelta(s, t, a)
  {
    match a {
      case StartAlloc =>
      case StartFree(_) =>
      case BulkCreate(minted) => MintedSize(s, minted);
      case BulkDestroy(gone) =>
        assert gone <= s.used by {
          forall h | h in gone ensures h in s.used { assert At(s, Client(h)) == h; }
        }
      case Go(minted, order) =>
        if PcOf(s, t).Rebalancing? {
          OwnerPhase(s, t, PcOf(s, t).alloc);
          PhaseUsed(s, t, PcOf(s, t).alloc, s.lock.phase, minted, order);
          UsedAfterSize(s, t, PcOf(s, t).alloc, s.lock.phase, minted, order);
        }
    }
  }

  /** What a phase does to the used handles. */
  function UsedAfter(s: Cache, ph: Phase, minted: seq<Handle>): set<Handle> {
    match ph
    case Stock(_, _) => s.used + SetOf(minted)
    case Spill(n, scratch) => if HIWATER < n <= |scratch| then s.used - SetOf(scratch[..n - BANK]) else s.used
    case _ => s.used
  }

  lemma PhaseUsed(s: Cache, t: Tid, alloc: bool, ph: Phase, minted: seq<Handle>, order: seq<Handle>)
    ensures AdvancePhase(s, t, alloc, ph, minted, order).used == UsedAfter(s, ph, minted)
  {
  }

  lemma UsedAfterSize(s: Cache, t: Tid, alloc: bool, ph: Phase, minted: seq<Handle>, order: seq<Handle>)
    requires Inv(s) && Owner(s, t, alloc, ph) && PhaseEnabled(s, alloc, ph, minted, order)
    ensures |UsedAfter(s, ph, minted)| == |s.used| + CountDelta(s, t, Go(minted, order))
  {
    hide Inv;
    if ph.Stock? {
      assert Fresh(s, minted, Wanted(ph.n, alloc));
      hide Fresh, SetOf;
      StockSize(s, ph, minted, Wanted(ph.n, alloc));
    } else if ph.Spill? {
      hide PhaseEnabled, SetOf;
      SpillRoom(s, t, alloc, ph.n, ph.scratch);
      if ph.n > HIWATER { SpilledSize(s, t, ph.n, ph.scratch); }
    } else {
      hide PhaseEnabled;
    }
  }

  lemma StockSize(s: Cache, ph: Phase, minted: seq<Handle>, wanted: nat)
    requires ph.Stock? && Fresh(s, minted, wanted)
    ensures |UsedAfter(s, ph, minted)| == |s.used| + |minted|
  {
    MintedSize(s, minted);
  }

  lemma SpillRoom(s: Cache, t: Tid, alloc: bool, n: int, scratch: seq<Handle>)
    requires Inv(s) && Owner(s, t, alloc, Spill(n, scratch))
    ensures n <= |scratch|
  {
    hide Placed, ReserveSide, FreeSide;
  }

  lemma MintedSize(s: Cache, minted: seq<Handle>)
    requires Fresh(s, minted, |minted|)
    ensures |s.used + SetOf(minted)| == |s.used| + |minted|
  {
    DistinctSize(minted);
    assert s.used !! SetOf(minted);
  }

  lemma SpilledSize(s: Cache, t: Tid, n: int, scratch: seq<Handle>)
    requires Inv(s) && s.lock == Locked(t, Spill(n, scratch)) && HIWATER < n <= |scratch|
    ensures |s.used - SetOf(scratch[..n - BANK])| == |s.used| - (n - BANK)
  {
    var gone := scratch[..n - BANK];
    forall i | 0 <= i < |gone| ensures gone[i] != 0 && At(s, Scratch(i)) == gone[i] {
      assert InScratch(s.lock.phase, i);
    }
    forall i, j | 0 <= i < j < |gone| ensures gone[i] != gone[j] {
      assert At(s, Scratch(i)) != At(s, Scratch(j));
    }
    DistinctSize(gone);
    assert SetOf(gone) <= s.used;
  }

  // ---------------------------------------------------------------- the whole table

  ghost predicate TableInv(x: Table) {
    && |x.types| < MAX_INTERNAL_TYPES
    && (forall k | 0 <= k < |x.types| :: Inv(x.types[k]))
    && x.dwCount == UsedSum(x.types)
  }

  lemma {:induction false} UsedSumUpdate(types: seq<Cache>, k: nat, s: Cache)
    requires k < |types|
    ensures UsedSum(types[k := s]) == UsedSum(types) - |types[k].used| + |s.used|
  {
    if k == 0 {
      assert types[0 := s][1..] == types[1..];
    } else {
      assert types[k := s][1..] == types[1..][k - 1 := s];
      UsedSumUpdate(types[1..], k - 1, s);
    }
  }

  lemma {:induction false} UsedSumInit(types: seq<Cache>)
    requires forall k | 0 <= k < |types| :: Init(types[k])
    ensures UsedSum(types) == 0
  {
    if types != [] { UsedSumInit(types[1..]); }
  }

  lemma TableStepKeeps(x: Table, m: TableMove)
    requires TableInv(x) && TableEnabled(x, m)
    ensures TableInv(TableStep(x, m))
  {
    var s := x.types[m.k];
    StepKeeps(s, m.t, m.a);
    CountFollows(s, m.t, m.a);
    UsedSumUpdate(x.types, m.k, Step(s, m.t, m.a));
  }

  lemma {:induction false} TableRunInv(states: seq<Table>, moves: seq<TableMove>, i: nat)
    requires IsTableRun(states, moves) && i < |states|
    ensures TableInv(states[i])
  {
    if i == 0 {
      forall k | 0 <= k < |states[0].types| ensures Inv(states[0].types[k]) { InitInv(states[0].types[k]); }
      UsedSumInit(states[0].types);
    } else {
      TableRunInv(states, moves, i - 1);
      TableStepKeeps(states[i - 1], moves[i - 1]);
    }
  }

  lemma {:induction false} SumQuiescent(types: seq<Cache>)
    requires forall k | 0 <= k < |types| :: Inv(types[k]) && Quiescent(types[k])
    ensures UsedSum(types) == ClientSum(types) + CachedSum(types)
  {
    if types != [] {
      QuiescentCount(types[0]);
      SumQuiescent(types[1..]);
    }
  }

  function QuickAt(x: Table, k: nat): Handle {
    if k < |x.types| then x.types[k].quick else 0
  }

  function BanksUpTo(types: seq<Cache>, n: nat): int
    requires n <= |types|
  {
    if n == 0 then 0 else BanksUpTo(types, n - 1) + BankCount(types[n - 1])
  }

  function QuicksUpTo(x: Table, n: nat): int {
    if n == 0 then 0 else QuicksUpTo(x, n - 1) + (if QuickAt(x, n - 1) != 0 then 1 else 0)
  }

  /** `HndCountHandles`: at every quiescent state of every run it returns the number of handles that
      clients hold. */
  method CountHandles(x: Table) returns (n: int)
    requires |x.types| < MAX_INTERNAL_TYPES
    ensures TableInv(x) && (forall k | 0 <= k < |x.types| :: Quiescent(x.types[k])) ==> n == ClientSum(x.types)
  {
    var cached := 0;
    var k := 0;
    while k < |x.types|
      invariant 0 <= k <= |x.types|
      invariant cached == BanksUpTo(x.types, k)
    {
      var f, r := x.types[k].f, x.types[k].r;
      if f < 0 { f := 0; }
      if r < 0 { r := 0; }
      cached := cached + r + (BANK - f);
      k := k + 1;
    }
    var q := 0;
    while q < MAX_INTERNAL_TYPES
      invariant 0 <= q <= MAX_INTERNAL_TYPES
      invariant cached == BanksUpTo(x.types, |x.types|) + QuicksUpTo(x, q)
    {
      if QuickAt(x, q) != 0 { cached := cached + 1; }
      q := q + 1;
    }
    n := x.dwCount - cached;
    SumsAgree(x);
    if TableInv(x) && (forall k | 0 <= k < |x.types| :: Quiescent(x.types[k])) { SumQuiescent(x.types); }
  }

  lemma SumsAgree(x: Table)
    requires |x.types| < MAX_INTERNAL_TYPES
    ensures BanksUpTo(x.types, |x.types|) + QuicksUpTo(x, MAX_INTERNAL_TYPES) == CachedSum(x.types)
  {
    CachedUpTo(x, |x.types|);
    assert x.types[..|x.types|] == x.types;
    QuicksEnd(x, MAX_INTERNAL_TYPES);
  }

  lemma {:induction false} QuicksEnd(x: Table, n: nat)
    requires |x.types| <= n
    ensures QuicksUpTo(x, n) == QuicksUpTo(x, |x.types|)
  {
    if n > |x.types| { QuicksEnd(x, n - 1); }
  }

  lemma {:induction false} CachedUpTo(x: Table, n: nat)
    requires n <= |x.types|
    ensures CachedSum(x.types[..n]) == BanksUpTo(x.types, n) + QuicksUpTo(x, n)
  {
    if n > 0 {
      CachedUpTo(x, n - 1);
      CachedSnoc(x.types[..n - 1], x.types[n - 1]);
      assert x.types[..n] == x.types[..n - 1] + [x.types[n - 1]];
    }
  }

  lemma {:induction false} CachedSnoc(types: seq<Cache>, s: Cache)
    ensures CachedSum(types + [s]) == CachedSum(types) + BankCount(s) + QuickCount(s)
  {
    if types == [] {
      assert types + [s] == [s];
    } else {
      assert (types + [s])[1..] == types[1..] + [s];
      CachedSnoc(types[1..], s);
    }
  }
}
