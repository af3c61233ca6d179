/** The unsynchronised write barrier on the age of a clump of handles (`HndWriteBarrier` in src/gc/handletable.cpp). */
module WriteBarrier {
  const DEPENDENT: nat := 6
  const ASYNCPINNED: nat := 7

  datatype Pc = Start | Tested | Decided | Done

  /** One call of the barrier: the handle's type, whether the referent is overlapped data, the referent's generation,
      and how far the call has come. */
  datatype Barrier = Barrier(handleType: nat, overlapped: bool, generation: nat, pc: Pc)

  /** The age byte of one clump and the calls made on it since the last collection. */
  datatype Clump = Clump(age: nat, calls: seq<Barrier>)

  /** The generation the barrier compares with. */
  function Effective(b: Barrier): nat {
    if (b.handleType == ASYNCPINNED && b.overlapped) || b.handleType == DEPENDENT then 0 else b.generation
  }

  /** What a call stores when it finds the clump too old. The code always stores 0. */
  type Store = nat -> nat

  /** One access of call `i` to the age byte. */
  function Step(c: Clump, i: nat, store: Store): Clump
    requires i < |c.calls|
  {
    var b := c.calls[i];
    match b.pc
    case Start => c.(calls := c.calls[i := b.(pc := if c.age != 0 then Tested else Done)])
    case Tested => c.(calls := c.calls[i := b.(pc := if c.age > Effective(b) then Decided else Done)])
    case Decided => Clump(store(Effective(b)), c.calls[i := b.(pc := Done)])
    case Done => c
  }

  /** The clump after the calls listed in `schedule` each made one access. */
  function Run(c: Clump, schedule: seq<nat>, store: Store): (r: Clump)
    requires forall k | 0 <= k < |schedule| :: schedule[k] < |c.calls|
    ensures |r.calls| == |c.calls|
    decreases |schedule|
  {
    if schedule == [] then c
    else Step(Run(c, schedule[..|schedule| - 1], store), schedule[|schedule| - 1], store)
  }

  /** No call has begun; the age is a byte. */
  ghost predicate Fresh(c: Clump) {
    c.age <= 255 && forall i | 0 <= i < |c.calls| :: c.calls[i].pc == Start
  }

  /** Every call that has finished left the clump no older than its referent. */
  ghost predicate Reported(c: Clump) {
    forall i | 0 <= i < |c.calls| && c.calls[i].pc == Done :: c.age <= Effective(c.calls[i])
  }

  /** The store keeps finished calls reported under every schedule of any number of calls on any clump. */
  ghost predicate Safe(store: Store) {
    forall c: Clump, schedule: seq<nat> | Fresh(c) && (forall k | 0 <= k < |schedule| :: schedule[k] < |c.calls|) ::
      Reported(Run(c, schedule, store))
  }

  lemma {:induction false} RunKeeps(c: Clump, schedule: seq<nat>)
    requires Fresh(c) && forall k | 0 <= k < |schedule| :: schedule[k] < |c.calls|
    ensures Reported(Run(c, schedule, _ => 0))
  {
    if schedule != [] {
      RunKeeps(c, schedule[..|schedule| - 1]);
    }
  }

  /** Ages never rise between collections, so what a finished call left stays. */
  lemma {:induction false} AgeFalls(c: Clump, schedule: seq<nat>, n: nat, i: nat)
    requires n <= |schedule| && (forall k | 0 <= k < |schedule| :: schedule[k] < |c.calls|) && i < |c.calls|
    requires Run(c, schedule[..n], _ => 0).calls[i].pc == Done
    ensures Run(c, schedule, _ => 0).age <= Run(c, schedule[..n], _ => 0).age
    ensures Run(c, schedule, _ => 0).calls[i] == Run(c, schedule[..n], _ => 0).calls[i]
    decreases |schedule|
  {
    if n == |schedule| {
      assert schedule[..n] == schedule;
    } else {
      var before := schedule[..|schedule| - 1];
      assert before[..n] == schedule[..n];
      AgeFalls(c, before, n, i);
    }
  }

  /** A run changes how far the calls have come and nothing else about them. */
  lemma {:induction false} CallsStay(c: Clump, schedule: seq<nat>, store: Store, i: nat)
    requires (forall k | 0 <= k < |schedule| :: schedule[k] < |c.calls|) && i < |c.calls|
    ensures Run(c, schedule, store).calls[i] == c.calls[i].(pc := Run(c, schedule, store).calls[i].pc)
    decreases |schedule|
  {
    if schedule != [] { CallsStay(c, schedule[..|schedule| - 1], store, i); }
  }

  /** The call is for a dependent handle (type 6), whose secondary object may be in any generation, or for an
      asynchronously pinned one (type 7) that refers to overlapped data, which may refer to younger objects. */
  predicate MayReferToYounger(b: Barrier) {
    b.handleType == 6 || (b.handleType == 7 && b.overlapped)
  }

  /** Once a call has finished, at every later point of the run the clump has age 0 if the call is one that may refer to
      younger objects, and otherwise is at most as old as the call's referent. */
  lemma FinishedStaysReported(c: Clump, schedule: seq<nat>, n: nat, i: nat)
    requires Fresh(c) && (forall k | 0 <= k < |schedule| :: schedule[k] < |c.calls|) && n <= |schedule| && i < |c.calls|
    requires Run(c, schedule[..n], _ => 0).calls[i].pc == Done
    ensures var age := Run(c, schedule, _ => 0).age;
      if MayReferToYounger(c.calls[i]) then age == 0 else age <= c.calls[i].generation
  {
    AgeFalls(c, schedule, n, i);
    RunKeeps(c, schedule);
    CallsStay(c, schedule, _ => 0, i);
    var r := Run(c, schedule, _ => 0);
    assert r.calls[i].pc == Done;
  }

  /** The age is lowered only for a call that is younger than it, and then to 0. */
  lemma {:induction false} LoweredOnlyIfNeeded(c: Clump, schedule: seq<nat>)
    requires Fresh(c) && forall k | 0 <= k < |schedule| :: schedule[k] < |c.calls|
    ensures var r := Run(c, schedule, _ => 0);
      && (r.age == c.age || r.age == 0)
      && (r.age != c.age || (exists i :: 0 <= i < |c.calls| && r.calls[i].pc == Decided) ==>
            exists i :: 0 <= i < |c.calls| && (MayReferToYounger(c.calls[i]) || c.calls[i].generation < c.age))
    decreases |schedule|
  {
    if schedule != [] {
      var before, j := schedule[..|schedule| - 1], schedule[|schedule| - 1];
      LoweredOnlyIfNeeded(c, before);
      CallsStay(c, before, _ => 0, j);
    }
  }

  /** Storing 0 is the only store that is safe: with any other, two calls can race so that the older one wins. */
  lemma SafeExactlyWithZero(store: Store)
    ensures Safe(store) <==> forall g: nat | g < 255 :: store(g) == 0
  {
    if forall g: nat | g < 255 :: store(g) == 0 {
      forall c: Clump, schedule: seq<nat> | Fresh(c) && (forall k | 0 <= k < |schedule| :: schedule[k] < |c.calls|)
        ensures Reported(Run(c, schedule, store))
      {
        ZeroStores(c, schedule, store);
        RunKeeps(c, schedule);
      }
    } else {
      var g: nat :| g < 255 && store(g) != 0;
      RaceLoses(store, g);
    }
  }

  lemma {:induction false} ZeroStores(c: Clump, schedule: seq<nat>, store: Store)
    requires Fresh(c) && (forall g: nat | g < 255 :: store(g) == 0)
      && forall k | 0 <= k < |schedule| :: schedule[k] < |c.calls|
    ensures Run(c, schedule, store) == Run(c, schedule, _ => 0) && Run(c, schedule, store).age <= 255
    ensures var r := Run(c, schedule, store); forall i | 0 <= i < |r.calls|
      && r.calls[i].pc == Decided :: Effective(r.calls[i]) < 255
  {
    if schedule != [] { ZeroStores(c, schedule[..|schedule| - 1], store); }
  }

  /** Two calls, for generation 0 and generation `g`, at points `a` and `b`. */
  function Racing(age: nat, g: nat, a: Pc, b: Pc): Clump {
    Clump(age, [Barrier(0, false, 0, a), Barrier(0, false, g, b)])
  }

  lemma RaceFirst(store: Store, g: nat)
    ensures Run(Racing(g + 1, g, Start, Start), [0], store) == Racing(g + 1, g, Tested, Start)
  {
    var c := Racing(g + 1, g, Start, Start);
    RunNone(c, store);
    hide Run;
    var s1 := RunNext(c, [], 0, store);
    assert s1 == Racing(g + 1, g, Tested, Start) && [] + [0] == [0];
  }

  /** Both calls are past their first test. */
  lemma RaceTests(store: Store, g: nat)
    ensures Run(Racing(g + 1, g, Start, Start), [0, 1], store) == Racing(g + 1, g, Tested, Tested)
  {
    hide Run;
    var c := Racing(g + 1, g, Start, Start);
    RaceFirst(store, g);
    var s2 := RunNext(c, [0], 1, store);
    assert s2 == Racing(g + 1, g, Tested, Tested) && [0] + [1] == [0, 1];
  }

  /** Both calls see the old age and decide to store. */
  lemma RaceDecides(store: Store, g: nat)
    ensures Run(Racing(g + 1, g, Start, Start), [0, 1, 0, 1], store) == Racing(g + 1, g, Decided, Decided)
  {
    hide Run;
    var c := Racing(g + 1, g, Start, Start);
    RaceTests(store, g);
    var s3 := RunNext(c, [0, 1], 0, store);
    assert s3 == Racing(g + 1, g, Decided, Tested) && [0, 1] + [0] == [0, 1, 0];
    var s4 := RunNext(c, [0, 1, 0], 1, store);
    assert s4 == Racing(g + 1, g, Decided, Decided) && [0, 1, 0] + [1] == [0, 1, 0, 1];
  }

  /** The call for generation 0 stores first and finishes, then the other overwrites what it stored. */
  lemma RaceLoses(store: Store, g: nat)
    requires g < 255 && store(g) != 0
    ensures !Safe(store)
  {
    var c, schedule: seq<nat> := Racing(g + 1, g, Start, Start), [0, 1, 0, 1];
    RaceDecides(store, g);
    hide Run;
    var s5 := RunNext(c, schedule, 0, store);
    assert s5 == Racing(store(0), g, Done, Decided);
    var s6 := RunNext(c, schedule + [0], 1, store);
    assert s6 == Racing(store(g), g, Done, Done);
    assert !Reported(s6) by { assert s6.calls[0].pc == Done; }
    assert Fresh(c);
  }

  lemma RunNone(c: Clump, store: Store)
    ensures Run(c, [], store) == c
  {
  }

  lemma RunNext(c: Clump, schedule: seq<nat>, i: nat, store: Store) returns (r: Clump)
    requires i < |c.calls| && forall k | 0 <= k < |schedule| :: schedule[k] < |c.calls|
    ensures r == Run(c, schedule + [i], store) == Step(Run(c, schedule, store), i, store)
  {
    assert (schedule + [i])[..|schedule|] == schedule;
    r := Run(c, schedule + [i], store);
  }
}
