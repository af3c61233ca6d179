/** Runs in which a bind returns an older version than requested, or two binds for one key return different assemblies
    (src/binder/assemblybinder.cpp). */
module BinderExamples {
  import opened Binder

  function Plain(key: nat, hash: nat, display: nat, major: nat): Name {
    Name(key, hash, display, Some(Version(major, 0, 0, 0)), 0, false)
  }

  /** A hash table in which a search from `hash` meets entry 0, and any other search meets nothing. */
  function OnlyAt(hash: nat): nat -> seq<nat> {
    h => if h == hash then [0] else []
  }

  /** A hash table in which a search meets entry 0 or 1 only from their own hashes. */
  function BothAt(hash0: nat, hash1: nat): nat -> seq<nat> {
    h => (if h == hash0 then [0] else []) + if h == hash1 then [1] else []
  }

  function First(layout: nat -> seq<nat>): Context {
    Context([], layout, map[], 0, true, {0})
  }

  /** Appending one step to a run. */
  lemma Extend(run: seq<State>, actions: seq<Action>, a: Action) returns (run': seq<State>, actions': seq<Action>)
    requires IsRun(run, actions) && Enabled(run[|run| - 1], a)
    ensures IsRun(run', actions') && |run'| == |run| + 1 && run' == run + [Next(run[|run| - 1], a)]
      && actions' == actions + [a]
  {
    hide Next, Enabled;
    run', actions' := run + [Next(run[|run| - 1], a)], actions + [a];
  }

  /** Binder 1 asks for `name`, finds exactly that as assembly 10, and registers it as the first entry. */
  lemma Registered(name: Name) returns (run: seq<State>, actions: seq<Action>)
    requires name.arch == 0 && name.version.Some? && !name.definition
    ensures IsRun(run, actions) && |actions| == 3
    ensures var c := Context([Entry(name, 10)], OnlyAt(name.hash), map[], 1, true, {0});
      run[3] == State(c, [Idle, Done(name, Success(Result(name, 10, false)))])
  {
    var lay := OnlyAt(name.hash);
    run, actions := [State(First(lay), [Idle, Idle])], [];
    run, actions := Extend(run, actions, Request(1, name));
    run, actions := Extend(run, actions, Go(1, Found(name, 10), lay));
    assert run[2] == State(First(lay), [Idle, Bound(name, Result(name, 10, false), 0)]);
    run, actions := Extend(run, actions, Go(1, NotFound, lay));
  }

  // ---------------------------------------------------------------- older than requested

  /** A run in which binder 0 bound at step `m`, registered at step `n` and was handed an older version than it asked
      for. */
  ghost predicate OlderThanAsked(run: seq<State>, actions: seq<Action>, m: nat, n: nat) {
    && Registers(run, actions, 0, m, n) && |run[n].binders| > 0 && |run[n + 1].binders| > 0 && run[n].binders[0].Bound?
    && var d := run[n + 1].binders[0];
       d.Done? && d.outcome.Success? && !ValidVersion(d.request, d.outcome.result.name)
  }

  /** The context after `Registered`. */
  function One(name: Name): Context {
    Context([Entry(name, 10)], OnlyAt(name.hash), map[], 1, true, {0})
  }

  lemma Searched(old1: Name, name: Name)
    ensures Lookup(One(old1), name) == if name.hash == old1.hash
      && name.key == old1.key then Some(Entry(old1, 10)) else None
  {
    var c := One(old1);
    if name.hash == old1.hash {
      assert c.layout(name.hash) == [0] && [0][1..] == [];
    } else {
      assert c.layout(name.hash) == [];
    }
  }

  /** Binder 1 registers `old1`; binder 0 asks for `asked`, whose search misses that entry, finds `found`, whose search
      does not, and is handed the entry. */
  lemma Overlooked(old1: Name, asked: Name, found: Name) returns (run: seq<State>, actions: seq<Action>)
    requires old1.arch == 0 && old1.version.Some? && !old1.definition && asked.arch == 0 && !found.definition
    requires found.key == old1.key && found.hash == old1.hash && (asked.key != old1.key || asked.hash != old1.hash)
    requires ValidVersion(asked, found) && !ValidVersion(asked, old1)
    ensures |run| == 7 && OlderThanAsked(run, actions, 4, 5) && run[5].context == One(old1)
    ensures run[5].binders[0] == Bound(asked, Result(found, 30, false), 1)
  {
    run, actions := Registered(old1);
    var c := One(old1);
    var both := BothAt(old1.hash, found.hash);
    Searched(old1, asked);
    Searched(old1, found);
    run, actions := Extend(run, actions, Request(0, asked));
    assert run[4].context == c && run[4].binders[0] == Asked(asked);
    run, actions := Extend(run, actions, Go(0, Found(found, 30), both));
    assert run[5].context == c && run[5].binders[0] == Bound(asked, Result(found, 30, false), 1);
    run, actions := Extend(run, actions, Go(0, NotFound, both));
    assert run[6].binders[0] == Done(asked, Success(Result(old1, 10, true)));
  }

  /** Without a shared key the version can be missed. */
  lemma OtherKeyCanFail() returns (run: seq<State>, actions: seq<Action>)
    ensures |run| == 7 && OlderThanAsked(run, actions, 4, 5) && run[5].context.version == run[4 + 1].context.version
    ensures var b := run[5].binders[0]; b.result.name.key != b.request.key && b.result.name.hash == b.request.hash
  {
    run, actions := Overlooked(Plain(2, 1, 2, 1), Plain(1, 1, 1, 2), Plain(2, 1, 3, 3));
  }

  /** A shared key is not enough: with another hash, as a request without a public key token has, the search for the
      request misses an entry that the search for what was found comes upon. */
  lemma OtherHashCanFail() returns (run: seq<State>, actions: seq<Action>)
    ensures |run| == 7 && OlderThanAsked(run, actions, 4, 5) && run[5].context.version == run[4 + 1].context.version
    ensures var b := run[5].binders[0]; b.result.name.key == b.request.key && b.result.name.hash != b.request.hash
  {
    run, actions := Overlooked(Plain(1, 1, 2, 1), Plain(1, 2, 1, 2), Plain(1, 1, 3, 3));
  }

  // ---------------------------------------------------------------- two assemblies

  /** Two requests, the second of which misses the entry of the first. */
  lemma Twice(name: Name, asked: Name, found: Name) returns (run: seq<State>, actions: seq<Action>)
    requires name.arch == 0 && name.version.Some? && !name.definition && asked.arch == 0 && !found.definition
      && ValidVersion(asked, found)
    requires (asked.key != name.key || asked.hash != name.hash) && (found.key != name.key || found.hash != name.hash)
    ensures IsRun(run, actions) && |run| == 7 && run[6].context.entries == [Entry(name, 10), Entry(found, 30)]
    ensures SucceededAt(run, 6, 1, name, Result(name, 10, false))
      && SucceededAt(run, 6, 0, asked, Result(found, 30, false))
  {
    run, actions := Registered(name);
    var c := One(name);
    var both := BothAt(name.hash, found.hash);
    Searched(name, asked);
    Searched(name, found);
    run, actions := Extend(run, actions, Request(0, asked));
    assert run[4].context == c && run[4].binders[0] == Asked(asked);
    run, actions := Extend(run, actions, Go(0, Found(found, 30), both));
    assert run[5] == State(c, [Bound(asked, Result(found, 30, false), 1),
        Done(name, Success(Result(name, 10, false)))]);
    run, actions := Extend(run, actions, Go(0, NotFound, both));
    assert run[6].binders == [Done(asked, Success(Result(found, 30, false))),
        Done(name, Success(Result(name, 10, false)))];
  }

  /** Under one key there can be two entries, and binds for it can return different assemblies, if the hashes differ. */
  lemma TwoEntriesOneKey() returns (run: seq<State>, actions: seq<Action>, p: Name, q: Result, p': Name, q': Result)
    ensures IsRun(run, actions) && SucceededAt(run, 6, 1, p, q) && SucceededAt(run, 6, 0, p', q')
    ensures p.key == q.name.key == p'.key == q'.name.key && q.assembly != q'.assembly
    ensures run[6].context.entries == [Entry(q.name, q.assembly), Entry(q'.name, q'.assembly)]
  {
    var name, other := Plain(1, 1, 1, 1), Plain(1, 2, 2, 1);
    run, actions := Twice(name, other, other);
    p, q, p', q' := name, Result(name, 10, false), other, Result(other, 30, false);
  }

  /** Binds for one request can return different assemblies if what is found has another key. */
  lemma OneRequestTwoAssemblies() returns (run: seq<State>, actions: seq<Action>, p: Name, q: Result, p': Name,
      q': Result)
    ensures IsRun(run, actions) && SucceededAt(run, 6, 1, p, q) && SucceededAt(run, 6, 0, p', q')
    ensures p == p' && q.assembly != q'.assembly && q.name.key != p.key
  {
    p := Plain(1, 1, 1, 1);
    p' := p;
    q, q' := Result(Plain(2, 1, 2, 1), 10, false), Result(p, 30, false);
    var lay := OnlyAt(1);
    run, actions := [State(First(lay), [Idle, Idle])], [];
    run, actions := Extend(run, actions, Request(1, p));
    run, actions := Extend(run, actions, Go(1, Found(q.name, 10), lay));
    assert run[2] == State(First(lay), [Idle, Bound(p, q, 0)]);
    run, actions := Extend(run, actions, Go(1, NotFound, lay));
    Searched(q.name, p);
    assert run[3] == State(One(q.name), [Idle, Done(p, Success(q))]);
    run, actions := AgainFor(run, actions, p, q);
  }

  lemma AgainFor(run: seq<State>, actions: seq<Action>, p: Name, q: Result) returns (run': seq<State>,
      actions': seq<Action>)
    requires IsRun(run, actions) && |run| == 4 && run[3] == State(One(q.name), [Idle, Done(p, Success(q))])
    requires p.arch == 0 && !p.definition && p.key != q.name.key
    ensures IsRun(run', actions') && SucceededAt(run', 6, 1, p, q) && SucceededAt(run', 6, 0, p, Result(p, 30, false))
  {
    var c := One(q.name);
    var both := BothAt(q.name.hash, p.hash);
    Searched(q.name, p);
    run', actions' := Extend(run, actions, Request(0, p));
    assert run'[4].context == c && run'[4].binders[0] == Asked(p);
    run', actions' := Extend(run', actions', Go(0, Found(p, 30), both));
    assert run'[5] == State(c, [Bound(p, Result(p, 30, false), 1), Done(p, Success(q))]);
    run', actions' := Extend(run', actions', Go(0, NotFound, both));
  }

  // ---------------------------------------------------------------- the counter goes round

  /** Binder 1 is free, and names with key 9 and display text `bound` or more have never been asked for. */
  ghost predicate Quiet(s: State, bound: nat) {
    && |s.binders| == 2 && (s.binders[1].Idle? || s.binders[1].Done?) && s.context.tpa && 0 in s.context.archs
    && (forall e | e in s.context.entries :: e.name.key != 9) && forall d | d in s.context.failures :: d < bound
  }

  /** The run goes on with steps of binder 1 only. */
  ghost predicate OnlyOne(run: seq<State>, actions: seq<Action>, run': seq<State>, actions': seq<Action>) {
    run <= run' && actions <= actions' && forall k | |actions| <= k < |actions'| :: actions'[k].binder == 1
  }

  /** Nothing but the version and the failures changed, for binder 0. */
  ghost predicate SameFor0(s: State, s': State) {
    && s'.context.entries == s.context.entries && s'.context.layout == s.context.layout
    && |s'.binders| == |s.binders| == 2 && s'.binders[0] == s.binders[0]
  }

  /** Binder 1 fails once more, which moves the version by one. */
  lemma FailOnce(run: seq<State>, actions: seq<Action>, bound: nat) returns (run': seq<State>, actions': seq<Action>)
    requires IsRun(run, actions) && Quiet(run[|run| - 1], bound)
    ensures IsRun(run', actions') && Quiet(run'[|run'| - 1], bound + 1) && OnlyOne(run, actions, run', actions')
    ensures var s, s' := run[|run| - 1], run'[|run'| - 1];
      s'.context.version == s.context.version + 1 && SameFor0(s, s')
  {
    var s, name := run[|run| - 1], Plain(9, 9, bound, 1);
    run', actions' := Extend(run, actions, Request(1, name));
    assert run'[|run'| - 1] == s.(binders := s.binders[1 := Asked(name)]);
    run', actions' := Extend(run', actions', Go(1, NotFound, s.context.layout));
    var c := s.context;
    assert run'[|run'| - 1].context == c.(failures := c.failures[bound := FILE_NOT_FOUND], version := c.version + 1);
  }

  lemma {:induction false} FailMany(run: seq<State>, actions: seq<Action>, bound: nat,
      n: nat) returns (run': seq<State>, actions': seq<Action>)
    requires IsRun(run, actions) && Quiet(run[|run| - 1], bound)
    ensures IsRun(run', actions') && OnlyOne(run, actions, run', actions')
    ensures var s, s' := run[|run| - 1], run'[|run'| - 1];
      s'.context.version == s.context.version + n && SameFor0(s, s')
    decreases n
  {
    hide Next, Enabled, IsRun;
    if n == 0 {
      run', actions' := run, actions;
    } else {
      var r, a := FailOnce(run, actions, bound);
      run', actions' := FailMany(r, a, bound + 1, n - 1);
    }
  }

  /** The run up to where binder 0 has found version 3 for its request, and binder 1 has registered version 1 under the
      same key and hash. */
  lemma RaceBegins() returns (run: seq<State>, actions: seq<Action>)
    ensures IsRun(run, actions) && Quiet(run[|run| - 1], 100) && |actions| == 5 && run[2].context.version == 0
    ensures run[1].binders == [Asked(Plain(1, 1, 1, 2)), Idle]
      && actions[1] == Go(0, Found(Plain(1, 1, 5, 3), 30), OnlyAt(1))
    ensures actions[2].binder == actions[3].binder == actions[4].binder == 1
    ensures run[5].context == One(Plain(1, 1, 6, 1))
    ensures run[5].binders[0] == Bound(Plain(1, 1, 1, 2), Result(Plain(1, 1, 5, 3), 30, false), 0)
  {
    var low, found, asked, lay := Plain(1, 1, 6, 1), Plain(1, 1, 5, 3), Plain(1, 1, 1, 2), OnlyAt(1);
    run, actions := [State(First(lay), [Idle, Idle])], [];
    run, actions := Extend(run, actions, Request(0, asked));
    run, actions := Extend(run, actions, Go(0, Found(found, 30), lay));
    var b := Bound(asked, Result(found, 30, false), 0);
    assert run[2] == State(First(lay), [b, Idle]);
    run, actions := Extend(run, actions, Request(1, low));
    run, actions := Extend(run, actions, Go(1, Found(low, 10), lay));
    assert run[4] == State(First(lay), [b, Bound(low, Result(low, 10, false), 0)]);
    run, actions := Extend(run, actions, Go(1, NotFound, lay));
    assert run[5].binders == [b, Done(low, Success(Result(low, 10, false)))];
  }

  /** With the counter gone all the way round, the version can be missed even under one key and hash. */
  lemma WrapCanFail() returns (run: seq<State>, actions: seq<Action>, m: nat, n: nat)
    ensures OlderThanAsked(run, actions, m, n) && run[n].context.version == run[m + 1].context.version + COUNTER
    ensures var b := run[n].binders[0]; b.result.name.key == b.request.key && b.result.name.hash == b.request.hash
  {
    hide Next, Enabled, ValidVersion, Lookup;
    var begin, begun := RaceBegins();
    run, actions := FailMany(begin, begun, 100, COUNTER - 1);
    m, n := 1, |actions|;
    assert run[1] == begin[1] && run[2] == begin[2] && actions[1] == begun[1];
    run, actions := RaceEnds(run, actions);
  }

  /** Binder 0 registers when the counter shows 0 again. */
  lemma RaceEnds(run: seq<State>, actions: seq<Action>) returns (run': seq<State>, actions': seq<Action>)
    requires IsRun(run, actions) && SameFor0(State(One(Plain(1, 1, 6, 1)),
      [Bound(Plain(1, 1, 1, 2), Result(Plain(1, 1, 5, 3), 30, false), 0), Idle]), run[|run| - 1])
    requires run[|run| - 1].context.version == COUNTER
    ensures IsRun(run', actions') && |run'| == |run| + 1 && run <= run' && |actions'| == |actions| + 1
      && actions <= actions'
    ensures actions'[|actions|].Go? && actions'[|actions|].binder == 0 && |run'[|run|].binders| > 0
    ensures var d := run'[|run|].binders[0];
      d.Done? && d.outcome.Success? && !ValidVersion(d.request, d.outcome.result.name)
  {
    var s, found, low := run[|run| - 1], Plain(1, 1, 5, 3), Plain(1, 1, 6, 1);
    assert SameVersion(0, s.context.version);
    Searched(low, found);
    assert Lookup(s.context, found) == Some(Entry(low, 10));
    run', actions' := Extend(run, actions, Go(0, NotFound, BothAt(1, 1)));
    assert run'[|run|].binders[0] == Done(Plain(1, 1, 1, 2), Success(Result(low, 10, true)));
  }
}
