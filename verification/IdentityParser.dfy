/** Filling an assembly identity from attribute and value pairs (`PopulateAssemblyIdentity` in
    src/binder/textualidentityparser.cpp). */
module IdentityParser {
  import opened IdentityLexer
  import opened IdentityValues

  datatype Arch = NoArch | X86 | IA64 | AMD64 | ARM | ARM64 | MSIL

  datatype Flag = HaveName | HaveVersion | HaveToken | HaveKey | HaveCulture | HaveArch | HaveRetargetable
    | HaveTokenNull
    | HaveCustom | HaveCustomNull | HaveContentType

  /** An assembly identity; `key` is the public key or its token, `winrt` the content type. */
  datatype Identity = Identity(name: Text, version: seq<nat>, culture: Text, key: seq<nat>, arch: Arch, winrt: bool,
      custom: seq<nat>,
                               flags: set<Flag>)

  const NO_VERSION: seq<nat> := [0xFFFF_FFFF, 0xFFFF_FFFF, 0xFFFF_FFFF, 0xFFFF_FFFF]
  const NO_BLOB: seq<nat> := [0]

  function Named(name: Text): Identity {
    Identity(name, NO_VERSION, [], NO_BLOB, NoArch, false, NO_BLOB, {HaveName})
  }

  function Lower(c: nat): nat {
    if 'A' as int <= c <= 'Z' as int then c + 32 else c
  }

  /** Equality up to the case of ASCII letters. */
  predicate SameText(a: Text, b: Text) {
    |a| == |b| && forall i | 0 <= i < |a| :: Lower(a[i]) == Lower(b[i])
  }

  datatype Category = Culture | Version | Token | Key | Architecture | Retargetable | ContentType | Custom

  function CategoryOf(a: Text): Option<Category> {
    if SameText(a, Lit("culture")) || SameText(a, Lit("language")) then Some(Culture)
    else if SameText(a, Lit("version")) then Some(Version)
    else if SameText(a, Lit("publickeytoken")) then Some(Token)
    else if SameText(a, Lit("publickey")) then Some(Key)
    else if SameText(a, Lit("processorarchitecture")) then Some(Architecture)
    else if SameText(a, Lit("retargetable")) then Some(Retargetable)
    else if SameText(a, Lit("contenttype")) then Some(ContentType)
    else if SameText(a, Lit("custom")) then Some(Custom)
    else None
  }

  /** The marks an attribute of a category leaves among the attributes seen; one mark twice is an error. */
  function Marks(c: Category): set<Flag> {
    match c
    case Culture => {HaveCulture}
    case Version => {HaveVersion}
    case Token => {HaveKey, HaveToken}
    case Key => {HaveKey, HaveToken}
    case Architecture => {HaveArch}
    case Retargetable => {HaveRetargetable}
    case ContentType => {HaveContentType}
    case Custom => {HaveCustom}
  }

  /** What an attribute sets in the identity. */
  datatype Change = Change(version: Option<seq<nat>>, culture: Option<Text>, key: Option<seq<nat>>, arch: Option<Arch>,
      winrt: bool,
                           custom: Option<seq<nat>>, flags: set<Flag>)

  const NOTHING: Change := Change(None, None, None, None, false, None, {})

  predicate Wildcard(v: Text) { v == Lit("*") }

  predicate NullOrNeutral(v: Text) { SameText(v, Lit("null")) || SameText(v, Lit("neutral")) }

  /** The architectures the text form knows, in the order they are tried. */
  function ArchOf(v: Text): Option<Arch> {
    if SameText(v, Lit("MSIL")) then Some(MSIL)
    else if SameText(v, Lit("ARM")) then Some(ARM)
    else if SameText(v, Lit("AMD64")) then Some(AMD64)
    else if SameText(v, Lit("IA64")) then Some(IA64)
    else if SameText(v, Lit("x86")) then Some(X86)
    else None
  }

  /** The change an attribute makes, or none if its value is not valid. */
  ghost function ChangeOf(c: Category, v: Text): Option<Change> {
    match c
    case Culture =>
      if Wildcard(v) then Some(NOTHING)
      else Some(NOTHING.(culture := if SameText(v, Lit("neutral")) then None else Some(v), flags := {HaveCulture}))
    case Version =>
      if Wildcard(v) then Some(NOTHING)
      else if IsVersion(v) then Some(NOTHING.(version := Some(Values(Split(v))), flags := {HaveVersion}))
      else None
    case Token =>
      if Wildcard(v) then Some(NOTHING)
      else if NullOrNeutral(v) then Some(NOTHING.(flags := {HaveTokenNull}))
      else if |v| == 16 && ValidHex(v) then Some(NOTHING.(key := Some(FromHex(v)), flags := {HaveToken}))
      else None
    case Key =>
      if NullOrNeutral(v) then Some(NOTHING)
      else if |v| <= 4096 && ValidHex(v) then Some(NOTHING.(key := Some(FromHex(v)), flags := {HaveKey}))
      else None
    case Architecture =>
      if Wildcard(v) then Some(NOTHING)
      else if ArchOf(v).Some? then Some(NOTHING.(arch := ArchOf(v), flags := {HaveArch}))
      else None
    case Retargetable =>
      if SameText(v, Lit("yes")) then Some(NOTHING.(flags := {HaveRetargetable}))
      else if SameText(v, Lit("no")) then Some(NOTHING)
      else None
    case ContentType =>
      if Wildcard(v) then Some(NOTHING)
      else if SameText(v, Lit("windowsruntime")) then Some(NOTHING.(winrt := true, flags := {HaveContentType}))
      else None
    case Custom =>
      if SameText(v, Lit("null")) then Some(NOTHING.(flags := {HaveCustomNull}))
      else if ValidHex(v) then Some(NOTHING.(custom := Some(FromHex(v)), flags := {HaveCustom}))
      else None
  }

  function OrElse<T>(o: Option<T>, d: T): T {
    if o.Some? then o.value else d
  }

  function With(id: Identity, x: Change): Identity {
    Identity(id.name, OrElse(x.version, id.version), OrElse(x.culture, id.culture), OrElse(x.key, id.key),
        OrElse(x.arch, id.arch),
             id.winrt || x.winrt, OrElse(x.custom, id.custom), id.flags + x.flags)
  }

  /** The identity filled so far and the attributes seen. */
  datatype Filling = Filling(id: Identity, seen: set<Flag>)

  datatype Pair = Pair(attribute: Text, value: Text)

  /** `PopulateAssemblyIdentity`; unknown attributes are dropped. */
  ghost function Populate(f: Filling, p: Pair): Option<Filling> {
    var c := CategoryOf(p.attribute);
    if c.None? then Some(f)
    else if Marks(c.value) * f.seen != {} then None
    else
      var x := ChangeOf(c.value, p.value);
      if x.None? then None else Some(Filling(With(f.id, x.value), f.seen + Marks(c.value)))
  }

  ghost function PopulateAll(f: Filling, ps: seq<Pair>): Option<Filling>
    decreases |ps|
  {
    if ps == [] then Some(f)
    else
      var g := Populate(f, ps[0]);
      if g.None? then None else PopulateAll(g.value, ps[1..])
  }

  // ---------------------------------------------------------------- the order of attributes

  /** What a change of a category can touch. */
  lemma ChangeTouches(c: Category, v: Text)
    requires ChangeOf(c, v).Some?
    ensures var x := ChangeOf(c, v).value;
      && (x.version.Some? ==> c == Version) && (x.culture.Some? ==> c == Culture)
          && (x.key.Some? ==> c == Token || c == Key)
      && (x.arch.Some? ==> c == Architecture) && (x.custom.Some? ==> c == Custom)
  {
  }

  /** Attributes that exclude each other: two of one category, or a key and a token. */
  predicate Exclude(c: Category, d: Category) {
    c == d || (c in {Token, Key} && d in {Token, Key})
  }

  function AMark(c: Category): Flag {
    match c
    case Culture => HaveCulture
    case Version => HaveVersion
    case Token => HaveKey
    case Key => HaveKey
    case Architecture => HaveArch
    case Retargetable => HaveRetargetable
    case ContentType => HaveContentType
    case Custom => HaveCustom
  }

  lemma MarksOverlap(c: Category, d: Category)
    ensures Marks(c) * Marks(d) != {} <==> Exclude(c, d)
  {
    assert AMark(c) in Marks(c) && AMark(d) in Marks(d);
    if Exclude(c, d) { assert AMark(c) in Marks(c) * Marks(d); }
  }

  /** Two pairs in either order: the same filling, or no filling at all. */
  lemma Commute(f: Filling, p: Pair, q: Pair)
    ensures PopulateTwo(f, p, q) == PopulateTwo(f, q, p)
  {
    var c, d := CategoryOf(p.attribute), CategoryOf(q.attribute);
    if c.Some? && d.Some? {
      KnownCommute(f, c.value, p.value, d.value, q.value);
    }
  }

  ghost function PopulateTwo(f: Filling, p: Pair, q: Pair): Option<Filling> {
    var g := Populate(f, p);
    if g.None? then None else Populate(g.value, q)
  }

  /** One attribute of a known category. */
  ghost function Fill(f: Filling, c: Category, v: Text): Option<Filling> {
    if Marks(c) * f.seen != {} || ChangeOf(c, v).None? then None
    else Some(Filling(With(f.id, ChangeOf(c, v).value), f.seen + Marks(c)))
  }

  ghost function FillTwo(f: Filling, c: Category, v: Text, d: Category, w: Text): Option<Filling> {
    var g := Fill(f, c, v);
    if g.None? then None else Fill(g.value, d, w)
  }

  lemma KnownCommute(f: Filling, c: Category, v: Text, d: Category, w: Text)
    ensures FillTwo(f, c, v, d, w) == FillTwo(f, d, w, c, v)
  {
    hide ChangeOf, Marks, With, Fill, FillTwo;
    FillTwoIs(f, c, v, d, w);
    FillTwoIs(f, d, w, c, v);
    SeenBoth(Marks(c), Marks(d), f.seen);
    if FillsTwo(f, c, v, d, w) {
      MarksOverlap(c, d);
      ChangeTouches(c, v);
      ChangeTouches(d, w);
      WithCommutes(f.id, ChangeOf(c, v).value, ChangeOf(d, w).value);
    }
  }

  /** Both attributes are valid, not seen before, and do not exclude each other. */
  ghost predicate FillsTwo(f: Filling, c: Category, v: Text, d: Category, w: Text) {
    ChangeOf(c, v).Some? && ChangeOf(d, w).Some? && Marks(c) * f.seen == {} && Marks(d) * f.seen == {}
        && Marks(c) * Marks(d) == {}
  }

  lemma FillTwoIs(f: Filling, c: Category, v: Text, d: Category, w: Text)
    ensures FillTwo(f, c, v, d, w)
      == if FillsTwo(f, c, v, d, w)
         then Some(Filling(With(With(f.id, ChangeOf(c, v).value), ChangeOf(d, w).value), f.seen + Marks(c) + Marks(d)))
         else None
    ensures FillsTwo(f, c, v, d, w) == FillsTwo(f, d, w, c, v)
  {
    hide ChangeOf, Marks, With;
    SeenBoth(Marks(c), Marks(d), f.seen);
    assert Marks(c) * Marks(d) == Marks(d) * Marks(c);
  }

  lemma SeenBoth(m: set<Flag>, n: set<Flag>, seen: set<Flag>)
    ensures n * (seen + m) == {} <==> n * seen == {} && m * n == {}
    ensures seen + m + n == seen + n + m
  {
    if n * (seen + m) == {} {
      assert forall x | x in n * seen || x in m * n :: x in n * (seen + m);
    }
  }

  lemma WithCommutes(id: Identity, x: Change, y: Change)
    requires !(x.version.Some? && y.version.Some?) && !(x.culture.Some? && y.culture.Some?)
      && !(x.key.Some? && y.key.Some?)
    requires !(x.arch.Some? && y.arch.Some?) && !(x.custom.Some? && y.custom.Some?)
    ensures With(With(id, x), y) == With(With(id, y), x)
  {
    assert id.flags + x.flags + y.flags == id.flags + y.flags + x.flags;
  }

  lemma SwapFront(f: Filling, p: Pair, q: Pair, rest: seq<Pair>)
    ensures PopulateAll(f, [p, q] + rest) == PopulateAll(f, [q, p] + rest)
  {
    Commute(f, p, q);
    TwoThen(f, p, q, rest);
    TwoThen(f, q, p, rest);
  }

  lemma TwoThen(f: Filling, p: Pair, q: Pair, rest: seq<Pair>)
    ensures PopulateAll(f, [p, q] + rest) == (if PopulateTwo(f, p, q).None? then None
      else PopulateAll(PopulateTwo(f, p, q).value, rest))
  {
    assert ([p, q] + rest)[1..] == [q] + rest && ([q] + rest)[1..] == rest;
  }

  lemma HeadThen(f: Filling, p: Pair, rest: seq<Pair>)
    ensures PopulateAll(f, [p] + rest) == (if Populate(f, p).None? then None
      else PopulateAll(Populate(f, p).value, rest))
  {
    hide Populate;
    assert ([p] + rest)[1..] == rest;
  }

  /** Moving one pair to the front. */
  lemma {:induction false} MoveToFront(f: Filling, ps: seq<Pair>, k: nat)
    requires k < |ps|
    ensures PopulateAll(f, ps) == PopulateAll(f, [ps[k]] + (ps[..k] + ps[k + 1..]))
    decreases k
  {
    hide Populate, PopulateAll;
    if k == 0 {
      assert ps == [ps[0]] + (ps[..0] + ps[1..]);
    } else {
      var tail := ps[1..];
      var rest := tail[..k - 1] + tail[k..];
      var g := Populate(f, ps[0]);
      assert ps == [ps[0]] + tail;
      HeadThen(f, ps[0], tail);
      HeadThen(f, ps[0], [ps[k]] + rest);
      if g.Some? { MoveToFront(g.value, tail, k - 1); }
      assert [ps[0]] + ([ps[k]] + rest) == [ps[0], ps[k]] + rest;
      SwapFront(f, ps[0], ps[k], rest);
      assert [ps[k], ps[0]] + rest == [ps[k]] + (ps[..k] + ps[k + 1..]);
    }
  }

  lemma RemoveOne<T>(s: seq<T>, k: nat)
    requires k < |s|
    ensures multiset(s[..k] + s[k + 1..]) == multiset(s) - multiset{s[k]}
  {
    assert s == s[..k] + [s[k]] + s[k + 1..];
  }

  lemma FindFirst<T>(ps: seq<T>, qs: seq<T>) returns (k: nat)
    requires ps != [] && multiset(ps) == multiset(qs)
    ensures k < |qs| && qs[k] == ps[0] && multiset(ps[1..]) == multiset(qs[..k] + qs[k + 1..])
  {
    assert ps[0] in multiset(qs);
    k :| 0 <= k < |qs| && qs[k] == ps[0];
    assert multiset(qs[..k] + qs[k + 1..]) == multiset(ps) - multiset{ps[0]} by { RemoveOne(qs, k); }
    assert multiset(ps[1..]) == multiset(ps) - multiset{ps[0]} by { assert ps == [ps[0]] + ps[1..]; }
  }

  /** Acceptance and result do not depend on the order of the pairs. */
  lemma {:induction false} OrderIrrelevant(f: Filling, ps: seq<Pair>, qs: seq<Pair>)
    requires multiset(ps) == multiset(qs)
    ensures PopulateAll(f, ps) == PopulateAll(f, qs)
    decreases |ps|
  {
    hide Populate, PopulateAll;
    if ps == [] {
      assert |multiset(qs)| == 0;
      assert qs == [];
    } else {
      var k := FindFirst(ps, qs);
      var rest := qs[..k] + qs[k + 1..];
      MoveToFront(f, qs, k);
      assert ps == [ps[0]] + ps[1..];
      HeadThen(f, ps[0], ps[1..]);
      HeadThen(f, ps[0], rest);
      var g := Populate(f, ps[0]);
      if g.Some? { OrderIrrelevant(g.value, ps[1..], rest); }
    }
  }

  // ---------------------------------------------------------------- which lists are accepted

  /** The attribute is unknown, or its value is valid. */
  ghost predicate PairOk(p: Pair) {
    CategoryOf(p.attribute).Some? ==> ChangeOf(CategoryOf(p.attribute).value, p.value).Some?
  }

  /** The two attributes are known and exclude each other. */
  predicate Repeats(p: Pair, q: Pair) {
    var c, d := CategoryOf(p.attribute), CategoryOf(q.attribute);
    c.Some? && d.Some? && Exclude(c.value, d.value)
  }

  predicate SeenBefore(p: Pair, seen: set<Flag>) {
    CategoryOf(p.attribute).Some? && Marks(CategoryOf(p.attribute).value) * seen != {}
  }

  /** Nothing in the list is wrong by itself, seen before, or excluded by an earlier pair. */
  ghost predicate Acceptable(ps: seq<Pair>, seen: set<Flag>) {
    && (forall i | 0 <= i < |ps| :: PairOk(ps[i]) && !SeenBefore(ps[i], seen))
    && (forall i, j | 0 <= i < j < |ps| :: !Repeats(ps[i], ps[j]))
  }

  lemma {:induction false} AcceptedExactly(f: Filling, ps: seq<Pair>)
    ensures PopulateAll(f, ps).Some? <==> Acceptable(ps, f.seen)
    decreases |ps|
  {
    if ps != [] {
      hide PopulateAll, PairOk;
      var p, rest := ps[0], ps[1..];
      assert ps == [p] + rest;
      HeadThen(f, p, rest);
      PopulateOk(f, p);
      var g := Populate(f, p);
      if g.Some? {
        AcceptedExactly(g.value, rest);
        forall q ensures SeenBefore(q, g.value.seen) <==> SeenBefore(q, f.seen) || Repeats(p, q) { SeenAfter(f, p, q); }
        AcceptableHead(p, rest, f.seen, g.value.seen);
      }
    }
  }

  lemma PopulateOk(f: Filling, p: Pair)
    ensures Populate(f, p).Some? <==> PairOk(p) && !SeenBefore(p, f.seen)
  {
  }

  lemma SeenAfter(f: Filling, p: Pair, q: Pair)
    requires Populate(f, p).Some?
    ensures SeenBefore(q, Populate(f, p).value.seen) <==> SeenBefore(q, f.seen) || Repeats(p, q)
  {
    hide ChangeOf, With, Marks, CategoryOf;
    var c, d := CategoryOf(p.attribute), CategoryOf(q.attribute);
    if c.Some? && d.Some? {
      MarksOverlap(c.value, d.value);
      SeenBoth(Marks(c.value), Marks(d.value), f.seen);
    }
  }

  lemma AcceptableHead(p: Pair, rest: seq<Pair>, seen: set<Flag>, seen': set<Flag>)
    requires PairOk(p) && !SeenBefore(p, seen)
    requires forall q :: SeenBefore(q, seen') <==> SeenBefore(q, seen) || Repeats(p, q)
    ensures Acceptable([p] + rest, seen) <==> Acceptable(rest, seen')
  {
    hide PairOk, SeenBefore, Repeats;
    var ps := [p] + rest;
    if Acceptable(ps, seen) {
      forall i | 0 <= i < |rest| ensures PairOk(rest[i]) && !SeenBefore(rest[i], seen') {
        assert rest[i] == ps[i + 1] && !Repeats(ps[0], ps[i + 1]);
      }
      forall i, j | 0 <= i < j < |rest| ensures !Repeats(rest[i], rest[j]) {
        assert rest[i] == ps[i + 1] && rest[j] == ps[j + 1];
      }
    }
  }

  /** A list is accepted exactly if every known attribute has a valid value and none repeats another; culture and
      language are one attribute, and so are public key and public key token. */
  lemma ListAccepted(name: Text, ps: seq<Pair>)
    ensures PopulateAll(Filling(Named(name), {}), ps).Some? <==>
      (forall i | 0 <= i < |ps| :: PairOk(ps[i])) && forall i, j | 0 <= i < j < |ps| :: !Repeats(ps[i], ps[j])
  {
    AcceptedExactly(Filling(Named(name), {}), ps);
    assert forall p :: !SeenBefore(p, {});
  }
}
