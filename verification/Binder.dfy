/** Optimistic binding of assembly names (src/binder/assemblybinder.cpp, src/binder/failurecache.cpp): a bind looks
    for an assembly under the context lock, remembers the context version, drops the lock, and takes it again to
    register what it found; if the version moved in between, it checks whether to start over. */
module Binder {
  datatype Option<T> = None | Some(value: T)

  datatype Version = Version(major: nat, minor: nat, build: nat, revision: nat)

  /** An assembly name. `key` is what the execution context compares, `hash` where it begins to look, `display` the text
      the failure cache compares. Names with one key can have different hashes: the hash covers the public key token. */
  datatype Name = Name(key: nat, hash: nat, display: nat, version: Option<Version>, arch: nat, definition: bool)

  datatype Entry = Entry(name: Name, assembly: nat)

  /** The execution context, the failure cache and the version counter. The entries are in the order they came, and
      `layout` gives the entries that a search from a hash meets before it comes to an unused place of the hash table.
      `tpa` says whether a list of platform assemblies was given, `archs` which processor architectures are valid. */
  datatype Context = Context(entries: seq<Entry>, layout: nat -> seq<nat>, failures: map<nat, nat>, version: nat,
      tpa: bool, archs: set<nat>)

  datatype Result = Result(name: Name, assembly: nat, contextBound: bool)

  /** What looking through the files gives; any answer is possible. */
  datatype Probe = NotFound | ProbeError(code: nat) | Found(name: Name, assembly: nat)

  datatype Outcome = Success(result: Result) | Failure(code: nat)

  datatype Binder =
    | Idle
    | Asked(request: Name)
    | Bound(request: Name, result: Result, seen: nat)
    | Done(request: Name, outcome: Outcome)

  datatype State = State(context: Context, binders: seq<Binder>)

  /** A binder gets a new request, or goes through its next critical section; `layout` is where the entries end up if
      that adds one. */
  datatype Action = Request(binder: nat, name: Name) | Go(binder: nat, probe: Probe, layout: nat -> seq<nat>)

  const COUNTER: nat := 0x1_0000_0000
  const APP_DOMAIN_LOCKED: nat := 0x80131053
  const REF_DEF_MISMATCH: nat := 0x80131040
  const INVALID_NAME: nat := 0x80131047
  const FILE_NOT_FOUND: nat := 0x80070002

  // ---------------------------------------------------------------- versions

  predicate LargerFeature(a: Version, b: Version) {
    a.major > b.major || (a.major == b.major && a.minor > b.minor)
  }

  predicate LargerService(a: Version, b: Version) {
    a.build > b.build || (a.build == b.build && a.revision > b.revision)
  }

  predicate EqualFeature(a: Version, b: Version) {
    a.major == b.major && a.minor == b.minor
  }

  /** `IsValidAssemblyVersion`. */
  predicate ValidVersion(requested: Name, found: Name) {
    if requested.version.None? then true
    else if found.version.None? then false
    else if EqualFeature(requested.version.value, found.version.value) then
      !LargerService(requested.version.value, found.version.value)
    else !LargerFeature(requested.version.value, found.version.value)
  }

  /** Lexicographic order on lists of equal length. */
  predicate AtLeast(p: seq<nat>, q: seq<nat>)
    requires |p| == |q|
  {
    p == [] || p[0] > q[0] || (p[0] == q[0] && AtLeast(p[1..], q[1..]))
  }

  function Parts(v: Version): (p: seq<nat>)
    ensures |p| == 4
  {
    [v.major, v.minor, v.build, v.revision]
  }

  /** The two-stage comparison accepts exactly the versions that are at least the requested one, part by part. */
  lemma ValidVersionIsOrder(requested: Name, found: Name)
    ensures ValidVersion(requested, found) <==>
      requested.version.None? || (found.version.Some? && AtLeast(Parts(found.version.value),
          Parts(requested.version.value)))
  {
    if requested.version.Some? && found.version.Some? {
      var f, r := found.version.value, requested.version.value;
      assert Parts(f)[1..] == [f.minor, f.build, f.revision] && Parts(r)[1..] == [r.minor, r.build, r.revision];
      assert Parts(f)[1..][1..] == [f.build, f.revision] && Parts(r)[1..][1..] == [r.build, r.revision];
      assert [f.build, f.revision][1..] == [f.revision] && [r.build, r.revision][1..] == [r.revision];
      assert [f.revision][1..] == [] && [r.revision][1..] == [];
      assert AtLeast([f.revision], [r.revision]) <==> f.revision >= r.revision;
      assert AtLeast([f.build, f.revision], [r.build, r.revision]) <==> !LargerService(r, f);
    }
  }

  // ---------------------------------------------------------------- one critical section

  /** The first entry with the key along a path through the hash table. */
  function Walk(entries: seq<Entry>, path: seq<nat>, key: nat): (e: Option<Entry>)
    ensures e.Some? ==> e.value in entries && e.value.name.key == key
    ensures e.None? ==> forall k | k in path && k < |entries| :: entries[k].name.key != key
  {
    if path == [] then None
    else if path[0] < |entries| && entries[path[0]].name.key == key then Some(entries[path[0]])
    else Walk(entries, path[1..], key)
  }

  /** `Lookup` of the hash table. */
  function Lookup(c: Context, name: Name): (e: Option<Entry>)
    ensures e.Some? ==> e.value in c.entries && e.value.name.key == name.key
  {
    Walk(c.entries, c.layout(name.hash), name.key)
  }

  /** A search from the hash of an entry meets the entry. */
  predicate LayoutOk(entries: seq<Entry>, layout: nat -> seq<nat>) {
    forall k | 0 <= k < |entries| :: k in layout(entries[k].name.hash)
  }

  /** An entry with the same key and the same hash is never overlooked. */
  lemma LookupFinds(c: Context, name: Name)
    requires LayoutOk(c.entries, c.layout) && Lookup(c, name).None?
    ensures forall k | 0 <= k < |c.entries| && c.entries[k].name.key == name.key :: c.entries[k].name.hash != name.hash
  {
  }

  /** `FindInExecutionContext` fails for a definition of another architecture. */
  predicate FindFails(c: Context, name: Name) {
    var e := Lookup(c, name);
    e.Some? && name.definition && e.value.name.arch != name.arch
  }

  function Mismatch(c: Context): nat {
    if c.tpa then REF_DEF_MISMATCH else APP_DOMAIN_LOCKED
  }

  /** `BindLocked`, and the "no result" check of `BindByName`. */
  function BindLocked(c: Context, name: Name, probe: Probe): Outcome {
    var e := Lookup(c, name);
    if FindFails(c, name) then Failure(APP_DOMAIN_LOCKED)
    else if e.Some? then
      if ValidVersion(name, e.value.name) then Success(Result(e.value.name, e.value.assembly, true))
          else Failure(Mismatch(c))
    else if !c.tpa then Failure(FILE_NOT_FOUND)
    else match probe
      case NotFound => Failure(FILE_NOT_FOUND)
      case ProbeError(code) => Failure(code)
      case Found(n, a) => if ValidVersion(name, n) then Success(Result(n, a, false)) else Failure(Mismatch(c))
  }

  /** `BindByName`: a failure seen before is repeated; a new one is remembered and moves the version. */
  function BindByName(c: Context, name: Name, probe: Probe): (Context, Outcome) {
    if name.display in c.failures then (c, Failure(c.failures[name.display]))
    else
      var outcome := if name.arch !in c.archs then Failure(INVALID_NAME) else BindLocked(c, name, probe);
      match outcome
      case Success(_) => (c, outcome)
      case Failure(code) => (c.(failures := c.failures[name.display := code], version := c.version + 1), outcome)
  }

  /** `OtherBindInterfered`. */
  predicate Interfered(c: Context, name: Name) {
    name.display in c.failures || FindFails(c, name) || Lookup(c, name).Some?
  }

  /** `Register`: adds an entry, or takes over the one that is there. */
  function Register(c: Context, r: Result, layout: nat -> seq<nat>): (Context, Outcome) {
    var c' := c.(version := c.version + 1);
    var e := Lookup(c, r.name);
    if FindFails(c, r.name) then (c', Failure(APP_DOMAIN_LOCKED))
    else if e.None? then (c'.(entries := c.entries + [Entry(r.name, r.assembly)], layout := layout), Success(r))
    else (c', Success(Result(e.value.name, e.value.assembly, true)))
  }

  /** The 32-bit counter shows the same value. */
  predicate SameVersion(seen: nat, version: nat) {
    seen % COUNTER == version % COUNTER
  }

  /** `RegisterAndGetHostChosen`; no outcome means that the bind starts over. */
  function RegisterHostChosen(c: Context, r: Result, seen: nat, layout: nat -> seq<nat>): (Context, Option<Outcome>) {
    if r.contextBound then (c, Some(Success(r)))
    else if !SameVersion(seen, c.version) && Interfered(c, r.name) then (c, None)
    else var (c', o) := Register(c, r, layout); (c', Some(o))
  }

  // ---------------------------------------------------------------- runs

  predicate Enabled(s: State, a: Action) {
    a.binder < |s.binders| &&
    match a
    case Request(i, _) => s.binders[i].Idle? || s.binders[i].Done?
    case Go(i, _, layout) =>
      || s.binders[i].Asked?
      || (s.binders[i].Bound? && LayoutOk(s.context.entries + [Entry(s.binders[i].result.name,
          s.binders[i].result.assembly)], layout))
  }

  function Next(s: State, a: Action): State
    requires Enabled(s, a)
  {
    var i := a.binder;
    match a
    case Request(_, name) => s.(binders := s.binders[i := Asked(name)])
    case Go(_, probe, layout) =>
      match s.binders[i]
      case Asked(name) =>
        var (c, o) := BindByName(s.context, name, probe);
        State(c, s.binders[i := if o.Success? then Bound(name, o.result, c.version) else Done(name, o)])
      case Bound(name, r, seen) =>
        var (c, o) := RegisterHostChosen(s.context, r, seen, layout);
        State(c, s.binders[i := if o.None? then Asked(name) else Done(name, o.value)])
  }

  ghost predicate Init(s: State) {
    s.context.entries == [] && s.context.failures == map[] && s.context.version == 0
    && forall i | 0 <= i < |s.binders| :: s.binders[i] == Idle
  }

  /** Consecutive states of `run` are related by `actions`. */
  ghost predicate IsRun(run: seq<State>, actions: seq<Action>) {
    && |run| == |actions| + 1 && Init(run[0])
    && forall k | 0 <= k < |actions| :: Enabled(run[k], actions[k]) && run[k + 1] == Next(run[k], actions[k])
  }

  // ---------------------------------------------------------------- the context

  /** No two entries have the same key and the same hash. */
  ghost predicate KeysDiffer(entries: seq<Entry>) {
    forall j, k | 0 <= j < k < |entries| :: entries[j].name.key != entries[k].name.key
        || entries[j].name.hash != entries[k].name.hash
  }

  /** What a binder has established about its result. */
  ghost predicate BinderOk(c: Context, b: Binder) {
    match b
    case Idle => true
    case Asked(_) => true
    case Bound(request, r, seen) =>
      && seen <= c.version && ValidVersion(request, r.name)
      && (r.contextBound ==> Registered(c.entries, r))
      && (!r.contextBound && seen == c.version ==> Lookup(c, request).None?)
    case Done(_, outcome) => outcome.Success? ==> Registered(c.entries, outcome.result)
  }

  /** The result is an entry of the context. */
  ghost predicate Registered(entries: seq<Entry>, r: Result) {
    Entry(r.name, r.assembly) in entries
  }

  ghost predicate Inv(s: State) {
    && KeysDiffer(s.context.entries) && LayoutOk(s.context.entries, s.context.layout)
    && forall i | 0 <= i < |s.binders| :: BinderOk(s.context, s.binders[i])
  }

  /** Entries are not lost; new ones come after them; and any change, also of the layout, moves the version. */
  ghost predicate Grows(c: Context, c': Context) {
    c.entries <= c'.entries && c.version <= c'.version && (c.version == c'.version ==>
        c'.entries == c.entries && c'.layout == c.layout)
  }

  lemma GrowsKeepsBinder(c: Context, c': Context, b: Binder)
    requires Grows(c, c') && BinderOk(c, b)
    ensures BinderOk(c', b)
  {
    assert forall e | e in c.entries :: e in c'.entries;
  }

  lemma StepGrows(s: State, a: Action)
    requires Enabled(s, a)
    ensures Grows(s.context, Next(s, a).context)
    ensures forall k | 0 <= k < |s.binders| && k != a.binder :: Next(s, a).binders[k] == s.binders[k]
    ensures |Next(s, a).binders| == |s.binders|
  {
  }

  lemma StepKeepsKeys(s: State, a: Action)
    requires Enabled(s, a) && KeysDiffer(s.context.entries) && LayoutOk(s.context.entries, s.context.layout)
    ensures KeysDiffer(Next(s, a).context.entries) && LayoutOk(Next(s, a).context.entries, Next(s, a).context.layout)
  {
    var b := s.binders[a.binder];
    if a.Go? && b.Bound? && Lookup(s.context, b.result.name).None? { LookupFinds(s.context, b.result.name); }
  }

  lemma StepOwn(s: State, a: Action)
    requires Enabled(s, a) && Inv(s)
    ensures BinderOk(Next(s, a).context, Next(s, a).binders[a.binder])
  {
    assert BinderOk(s.context, s.binders[a.binder]);
  }

  lemma StepKeeps(s: State, a: Action)
    requires Enabled(s, a) && Inv(s)
    ensures Inv(Next(s, a))
  {
    StepGrows(s, a);
    StepKeepsKeys(s, a);
    StepOwn(s, a);
    forall k | 0 <= k < |s.binders| && k != a.binder ensures BinderOk(Next(s, a).context, Next(s, a).binders[k]) {
      GrowsKeepsBinder(s.context, Next(s, a).context, s.binders[k]);
    }
  }

  lemma {:induction false} RunInv(run: seq<State>, actions: seq<Action>, n: nat)
    requires IsRun(run, actions) && n < |run|
    ensures Inv(run[n])
  {
    if n > 0 {
      RunInv(run, actions, n - 1);
      StepKeeps(run[n - 1], actions[n - 1]);
    }
  }

  // ---------------------------------------------------------------- what every run guarantees

  /** Under every interleaving, two entries with one key have different hashes. */
  lemma OneEntryPerName(run: seq<State>, actions: seq<Action>, n: nat, j: nat, k: nat)
    requires IsRun(run, actions) && n < |run| && j < |run[n].context.entries| && k < |run[n].context.entries| && j != k
    requires run[n].context.entries[j].name.key == run[n].context.entries[k].name.key
    ensures run[n].context.entries[j].name.hash != run[n].context.entries[k].name.hash
  {
    RunInv(run, actions, n);
  }

  /** Entries are never changed or removed. */
  lemma {:induction false} EntriesStay(run: seq<State>, actions: seq<Action>, m: nat, n: nat)
    requires IsRun(run, actions) && m <= n < |run|
    ensures Grows(run[m].context, run[n].context) && |run[n].binders| == |run[m].binders|
  {
    hide Next, Enabled;
    if m < n {
      EntriesStay(run, actions, m, n - 1);
      StepGrows(run[n - 1], actions[n - 1]);
    }
  }

  /** A bind that succeeded at some point of a run. */
  ghost predicate SucceededAt(run: seq<State>, n: nat, i: nat, request: Name, r: Result) {
    n < |run| && i < |run[n].binders| && run[n].binders[i] == Done(request, Success(r))
  }

  /** Two successful binds whose results have the same key and the same hash return the same assembly under the same
      name. */
  lemma SuccessesAgree(run: seq<State>, actions: seq<Action>, m: nat, i: nat, p: Name, q: Result, n: nat, j: nat,
      p': Name, q': Result)
    requires IsRun(run, actions) && SucceededAt(run, m, i, p, q) && SucceededAt(run, n, j, p', q')
    requires q.name.key == q'.name.key && q.name.hash == q'.name.hash
    ensures q.assembly == q'.assembly && q.name == q'.name
  {
    var last := |run| - 1;
    RunInv(run, actions, m);
    RunInv(run, actions, n);
    RunInv(run, actions, last);
    EntriesStay(run, actions, m, last);
    EntriesStay(run, actions, n, last);
    assert BinderOk(run[m].context, run[m].binders[i]) && BinderOk(run[n].context, run[n].binders[j]);
    var e := run[last].context.entries;
    assert forall x | x in run[m].context.entries :: x in e;
    assert forall x | x in run[n].context.entries :: x in e;
    var a :| 0 <= a < |e| && e[a] == Entry(q.name, q.assembly);
    var b :| 0 <= b < |e| && e[b] == Entry(q'.name, q'.assembly);
    if a != b { OneEntryPerName(run, actions, last, a, b); }
  }

  /** Binder `i` bound at step `m` and registers at step `n`, doing nothing in between. */
  ghost predicate Registers(run: seq<State>, actions: seq<Action>, i: nat, m: nat, n: nat) {
    && IsRun(run, actions) && m < n < |actions| && i < |run[m].binders|
    && actions[m].Go? && actions[m].binder == i && run[m].binders[i].Asked?
    && actions[n].Go? && actions[n].binder == i
    && forall k | m < k < n :: actions[k].binder != i
  }

  lemma {:induction false} BinderWaits(run: seq<State>, actions: seq<Action>, i: nat, m: nat, n: nat, k: nat)
    requires Registers(run, actions, i, m, n) && m < k <= n
    ensures |run[k].binders| == |run[m].binders| && run[k].binders[i] == run[m + 1].binders[i]
    ensures Grows(run[m + 1].context, run[k].context)
  {
    hide Next, Enabled, Init;
    StepGrows(run[m], actions[m]);
    if k > m + 1 {
      BinderWaits(run, actions, i, m, n, k - 1);
      StepGrows(run[k - 1], actions[k - 1]);
    }
  }

  /** A bind starts over only if, since its own lookup, a step of another binder moved the version of the context. */
  lemma RetryMeansInterference(run: seq<State>, actions: seq<Action>, i: nat, m: nat, n: nat) returns (k: nat)
    requires Registers(run, actions, i, m, n) && run[n].binders[i].Bound? && run[n + 1].binders[i].Asked?
    ensures m < k < n && actions[k].binder != i && run[k + 1].context.version != run[k].context.version
  {
    BinderWaits(run, actions, i, m, n, n);
    assert run[n].binders[i].seen == run[m + 1].context.version;
    assert run[n].context.version != run[m + 1].context.version;
    k := VersionMoves(run, actions, i, m, n);
  }

  lemma {:induction false} VersionMoves(run: seq<State>, actions: seq<Action>, i: nat, m: nat, n: nat) returns (k: nat)
    requires IsRun(run, actions) && m < n < |run| && (forall k | m < k < n :: actions[k].binder != i)
    requires run[n].context.version != run[m + 1].context.version
    ensures m < k < n && actions[k].binder != i && run[k + 1].context.version != run[k].context.version
  {
    if run[n].context.version != run[n - 1].context.version {
      k := n - 1;
    } else {
      k := VersionMoves(run, actions, i, m, n - 1);
    }
  }

  /** The entry that a registration of what binder `i` found would come upon is older than requested. */
  ghost predicate OldInTheWay(c: Context, b: Binder)
    requires b.Bound?
  {
    var e := Lookup(c, b.result.name);
    e.Some? && !ValidVersion(b.request, e.value.name)
  }

  /** A registration hands out its own find, unless it comes upon an entry; it looks whether it does only if the
      counter shows another version than before, and then starts over. */
  lemma RegisteredVersion(c: Context, b: Binder, layout: nat -> seq<nat>)
    requires b.Bound? && BinderOk(c, b)
    ensures var o := RegisterHostChosen(c, b.result, b.seen, layout).1;
      o.Some? && o.value.Success? ==>
        (!ValidVersion(b.request, o.value.result.name) <==>
            !b.result.contextBound && SameVersion(b.seen, c.version) && OldInTheWay(c, b))
  {
  }

  /** Whatever the run, a successful bind returns an older version than requested exactly if its result was not from the
      context, the counter shows the version it showed after the lookup, and the registration comes upon an older
      entry. */
  lemma OlderExactly(run: seq<State>, actions: seq<Action>, i: nat, m: nat, n: nat)
    requires Registers(run, actions, i, m, n) && run[n].binders[i].Bound?
    requires run[n + 1].binders[i].Done? && run[n + 1].binders[i].outcome.Success?
    ensures var b, d := run[n].binders[i], run[n + 1].binders[i];
      && d.request == b.request == run[m].binders[i].request && b.seen == run[m + 1].context.version
      && (!ValidVersion(d.request, d.outcome.result.name) <==>
            !b.result.contextBound && SameVersion(b.seen, run[n].context.version) && OldInTheWay(run[n].context, b))
  {
    BinderWaits(run, actions, i, m, n, n);
    RunInv(run, actions, n);
    var b, c := run[n].binders[i], run[n].context;
    assert BinderOk(c, b);
    RegisteredVersion(c, b, actions[n].layout);
  }

  /** With fewer than 2^32 changes since the lookup: exactly if nothing has changed, and the older entry was there at
      the
      lookup already, where the search for the requested name missed it and the search for the found name does not. */
  lemma OlderMeansOverlooked(run: seq<State>, actions: seq<Action>, i: nat, m: nat, n: nat)
    requires Registers(run, actions, i, m, n) && run[n].binders[i].Bound?
    requires run[n + 1].binders[i].Done? && run[n + 1].binders[i].outcome.Success?
    requires run[n].context.version - run[m + 1].context.version < COUNTER
    ensures var b, d, c := run[n].binders[i], run[n + 1].binders[i], run[m + 1].context;
      && (!ValidVersion(d.request, d.outcome.result.name) <==>
            !b.result.contextBound && run[n].context.version == c.version && OldInTheWay(c, b))
      && (!ValidVersion(d.request, d.outcome.result.name) ==> Lookup(c, b.request).None?)
  {
    OlderExactly(run, actions, i, m, n);
    BinderWaits(run, actions, i, m, n, n);
    RunInv(run, actions, n);
    var b, c := run[n].binders[i], run[n].context;
    assert BinderOk(c, b);
    if SameVersion(b.seen, c.version) { NoWrap(b.seen, c.version); }
  }

  /** If found and requested name share key and hash and the counter has not gone all the way round meanwhile, a
      successful bind returns at least the requested version. */
  lemma VersionHolds(run: seq<State>, actions: seq<Action>, i: nat, m: nat, n: nat)
    requires Registers(run, actions, i, m, n) && run[n].binders[i].Bound? && run[n + 1].binders[i].Done?
    requires run[n].context.version - run[m + 1].context.version < COUNTER
    requires var b := run[n].binders[i]; b.result.name.key == b.request.key && b.result.name.hash == b.request.hash
    ensures var d := run[n + 1].binders[i];
      d.outcome.Success? ==> d.request == run[m].binders[i].request && ValidVersion(d.request, d.outcome.result.name)
  {
    if run[n + 1].binders[i].outcome.Success? {
      OlderExactly(run, actions, i, m, n);
      OlderMeansOverlooked(run, actions, i, m, n);
    }
  }

  lemma NoWrap(seen: nat, version: nat)
    requires seen <= version < seen + COUNTER && SameVersion(seen, version)
    ensures seen == version
  {
  }

  // ---------------------------------------------------------------- requests with one key

  /** Whatever is found for a request with key `key` has that key, and whatever is found with that key has hash `hash`.
      */
  ghost predicate Matching(run: seq<State>, actions: seq<Action>, key: nat, hash: nat) {
    IsRun(run, actions) && forall k | 0 <= k < |actions| :: Matches(run[k], actions[k], key, hash)
  }

  ghost predicate Matches(s: State, a: Action, key: nat, hash: nat) {
    a.Go? && a.binder < |s.binders| && s.binders[a.binder].Asked? && a.probe.Found? ==>
      && (s.binders[a.binder].request.key == key ==> a.probe.name.key == key)
      && (a.probe.name.key == key ==> a.probe.name.hash == hash)
  }

  /** Entries and results under key `key` have hash `hash`, and results for requests with the key have the key. */
  ghost predicate Alike(s: State, key: nat, hash: nat) {
    && (forall e | e in s.context.entries && e.name.key == key :: e.name.hash == hash)
    && forall i | 0 <= i < |s.binders| :: ResultAlike(s.binders[i], key, hash)
  }

  ghost predicate ResultAlike(b: Binder, key: nat, hash: nat) {
    match b
    case Bound(request, r, _) => (request.key == key ==> r.name.key == key) && (r.name.key == key ==>
        r.name.hash == hash)
    case Done(request, Success(r)) => (request.key == key ==> r.name.key == key) && (r.name.key == key ==>
        r.name.hash == hash)
    case _ => true
  }

  lemma StepAlike(s: State, a: Action, key: nat, hash: nat)
    requires Enabled(s, a) && Inv(s) && Alike(s, key, hash) && Matches(s, a, key, hash)
    ensures Alike(Next(s, a), key, hash)
  {
    assert ResultAlike(s.binders[a.binder], key, hash) && BinderOk(s.context, s.binders[a.binder]);
  }

  lemma {:induction false} RunAlike(run: seq<State>, actions: seq<Action>, key: nat, hash: nat, n: nat)
    requires Matching(run, actions, key, hash) && n < |run|
    ensures Alike(run[n], key, hash)
  {
    hide Alike, Inv, Next, Enabled, Matches;
    if n == 0 {
      StartAlike(run[0], key, hash);
    } else {
      RunAlike(run, actions, key, hash, n - 1);
      RunInv(run, actions, n - 1);
      StepAlike(run[n - 1], actions[n - 1], key, hash);
    }
  }

  lemma StartAlike(s: State, key: nat, hash: nat)
    requires Init(s)
    ensures Alike(s, key, hash)
  {
  }

  /** If what is found matches, two successful binds for requests with one key return the same assembly. */
  lemma RequestsAgree(run: seq<State>, actions: seq<Action>, hash: nat, m: nat, i: nat, p: Name, q: Result, n: nat,
      j: nat, p': Name, q': Result)
    requires SucceededAt(run, m, i, p, q) && SucceededAt(run, n, j, p', q') && p.key == p'.key
      && Matching(run, actions, p.key, hash)
    ensures q.assembly == q'.assembly && q.name == q'.name
  {
    RunAlike(run, actions, p.key, hash, m);
    RunAlike(run, actions, p.key, hash, n);
    assert ResultAlike(run[m].binders[i], p.key, hash) && ResultAlike(run[n].binders[j], p.key, hash);
    SuccessesAgree(run, actions, m, i, p, q, n, j, p', q');
  }

  // ---------------------------------------------------------------- failures are remembered

  /** Binder `i` looks for `p` at step `n`. */
  ghost predicate LooksFor(run: seq<State>, actions: seq<Action>, n: nat, i: nat, p: Name) {
    IsRun(run, actions) && n < |actions| && actions[n].Go? && actions[n].binder == i && i < |run[n].binders|
    && run[n].binders[i] == Asked(p)
  }

  /** What has failed once stays in the cache. */
  lemma {:induction false} FailuresStay(run: seq<State>, actions: seq<Action>, m: nat, n: nat, d: nat)
    requires IsRun(run, actions) && m <= n < |run| && d in run[m].context.failures
    ensures d in run[n].context.failures && run[n].context.failures[d] == run[m].context.failures[d]
  {
    if m < n { FailuresStay(run, actions, m, n - 1, d); }
  }

  /** If a lookup fails, every later lookup for the same text, by any binder, fails with the same code and leaves the
      context as it is, whatever is in the files by then. */
  lemma FailureRepeats(run: seq<State>, actions: seq<Action>, m: nat, i: nat, p: Name, code: nat, n: nat, j: nat,
      p': Name)
    requires LooksFor(run, actions, m, i, p) && run[m + 1].binders[i] == Done(p, Failure(code))
    requires LooksFor(run, actions, n, j, p') && m < n && p'.display == p.display
    ensures run[n + 1].binders[j] == Done(p', Failure(code)) && run[n + 1].context == run[n].context
  {
    FailureCached(run[m], actions[m]);
    FailuresStay(run, actions, m + 1, n, p.display);
  }

  lemma FailureCached(s: State, a: Action)
    requires Enabled(s, a) && a.Go? && s.binders[a.binder].Asked? && Next(s, a).binders[a.binder].Done?
    ensures var p, d, f := s.binders[a.binder].request, Next(s, a).binders[a.binder], Next(s, a).context.failures;
      d.outcome.Failure? && p.display in f && f[p.display] == d.outcome.code
  {
  }

  /** The version of `found` is at least the requested one, or none was requested. */
  predicate Meets(p: Name, found: Name) {
    p.version.None? || (found.version.Some? && AtLeast(Parts(found.version.value), Parts(p.version.value)))
  }

  /** A lookup for a text that has not failed before fails exactly if the architecture is not valid, or an entry is
      found that is older or of another architecture than the definition asked for, or there is none and no platform
      assemblies were given, the files have none, or the one they have is older. */
  lemma FailsExactly(s: State, a: Action)
    requires Enabled(s, a) && a.Go? && s.binders[a.binder].Asked?
    requires s.binders[a.binder].request.display !in s.context.failures
    ensures var c, p, b := s.context, s.binders[a.binder].request, Next(s, a).binders[a.binder]; var e := Lookup(c, p);
      && (b.Done? <==>
            || p.arch !in c.archs
            || (e.Some? && ((p.definition && e.value.name.arch != p.arch) || !Meets(p, e.value.name)))
            || (e.None? && (!c.tpa || !a.probe.Found? || !Meets(p, a.probe.name))))
      && (b.Done? ==> b.outcome == Failure(
            if p.arch !in c.archs then 0x80131047
            else if e.Some? && p.definition && e.value.name.arch != p.arch then 0x80131053
            else if e.Some? then (if c.tpa then 0x80131040 else 0x80131053)
            else if !c.tpa || a.probe.NotFound? then 0x80070002
            else if a.probe.ProbeError? then a.probe.code
            else 0x80131040))
      && (!b.Done? ==> b == Bound(p, if e.Some? then Result(e.value.name, e.value.assembly, true)
                                     else Result(a.probe.name, a.probe.assembly, false), c.version)
                                         && Next(s, a).context == c)
  {
    var c, p := s.context, s.binders[a.binder].request;
    var e := Lookup(c, p);
    if e.Some? { ValidVersionIsOrder(p, e.value.name); }
    if a.probe.Found? { ValidVersionIsOrder(p, a.probe.name); }
    hide ValidVersion, AtLeast;
  }

  /** A registration starts over exactly if its result is new, the counter has moved, and the found name has failed or
      is taken meanwhile; otherwise it fails exactly if the name is a definition and is taken by another architecture.
      */
  lemma RegistersExactly(s: State, a: Action)
    requires Enabled(s, a) && a.Go? && s.binders[a.binder].Bound?
    ensures var c, b, b' := s.context, s.binders[a.binder], Next(s, a).binders[a.binder];
      var r, e := b.result, Lookup(c, b.result.name);
      && (b' == Asked(b.request) <==>
            !r.contextBound && b.seen % 0x1_0000_0000 != c.version % 0x1_0000_0000
                && (r.name.display in c.failures || e.Some?))
      && (b' != Asked(b.request) ==>
            b' == Done(b.request,
              if r.contextBound || e.None? then Success(r)
              else if r.name.definition && e.value.name.arch != r.name.arch then Failure(0x80131053)
              else Success(Result(e.value.name, e.value.assembly, true))))
  {
  }

  /** Once a bind has succeeded, no file is consulted any more for names with the key and hash of its result. */
  lemma RegisteredForGood(run: seq<State>, actions: seq<Action>, m: nat, i: nat, p: Name, q: Result, n: nat, j: nat,
      p': Name,
                          probe: Probe, layout: nat -> seq<nat>)
    requires SucceededAt(run, m, i, p, q) && LooksFor(run, actions, n, j, p') && m <= n
    requires p'.key == q.name.key && p'.hash == q.name.hash
    ensures Enabled(run[n], Go(j, probe, layout)) && run[n + 1] == Next(run[n], Go(j, probe, layout))
  {
    RunInv(run, actions, m);
    RunInv(run, actions, n);
    EntriesStay(run, actions, m, n);
    assert BinderOk(run[m].context, run[m].binders[i]);
    var c := run[n].context;
    assert Entry(q.name, q.assembly) in c.entries;
    if Lookup(c, p').None? { LookupFinds(c, p'); }
  }

  /** The version moves, and by one, exactly when a failure is newly remembered or a result is registered, be it added
      or replaced by the entry that is there. */
  lemma VersionCounts(s: State, a: Action)
    requires Enabled(s, a)
    ensures var b, s' := s.binders[a.binder], Next(s, a);
      s'.context.version == s.context.version +
        if a.Go? && ((b.Asked? && s'.context.failures.Keys > s.context.failures.Keys)
                     || (b.Bound? && !b.result.contextBound && s'.binders[a.binder].Done?))
        then 1 else 0
  {
    hide BindLocked, Interfered;
    if a.Go? && s.binders[a.binder].Asked? {
      var name := s.binders[a.binder].request;
      var f, f' := s.context.failures, Next(s, a).context.failures;
      if name.display !in f && f' != f { assert name.display in f'; }
    }
  }
}
