/** What a list of attributes makes of an identity, field by field (`PopulateAssemblyIdentity` in
    src/binder/textualidentityparser.cpp). */
module IdentityFields {
  import opened IdentityLexer
  import opened IdentityValues
  import opened IdentityParser
  import opened IdentityText

  /** The text is `s`, up to the case of letters. */
  predicate Is(t: Text, s: string) { SameText(t, Lit(s)) }

  predicate CultureAttr(a: Text) { Is(a, "culture") || Is(a, "language") }

  predicate NullText(v: Text) { Is(v, "null") || Is(v, "neutral") }

  predicate Star(v: Text) { v == [42] }

  // ---------------------------------------------------------------- which attribute is which

  lemma KindIs(a: Text)
    ensures (CategoryOf(a) == Some(Culture) <==> CultureAttr(a))
      && (CategoryOf(a) == Some(Version) <==> Is(a, "version"))
    ensures CategoryOf(a) == Some(Token) <==> Is(a, "publickeytoken")
    ensures CategoryOf(a) == Some(Key) <==> Is(a, "publickey")
    ensures CategoryOf(a) == Some(Architecture) <==> Is(a, "processorarchitecture")
    ensures CategoryOf(a) == Some(Retargetable) <==> Is(a, "retargetable")
    ensures CategoryOf(a) == Some(ContentType) <==> Is(a, "contenttype")
    ensures CategoryOf(a) == Some(Custom) <==> Is(a, "custom")
  {
    assert |Lit("culture")| == 7 && |Lit("language")| == 8 && |Lit("version")| == 7 && |Lit("publickeytoken")| == 14;
    assert |Lit("publickey")| == 9 && |Lit("processorarchitecture")| == 21 && |Lit("retargetable")| == 12;
    assert |Lit("contenttype")| == 11 && |Lit("custom")| == 6;
    if Is(a, "version") {
      assert Lower(a[0]) == Lower(Lit("version")[0]);
      assert Lower(Lit("version")[0]) != Lower(Lit("culture")[0]);
    }
  }

  lemma StarIs(v: Text)
    ensures Star(v) <==> Wildcard(v)
  {
    assert Lit("*") == [42];
  }

  /** An attribute that is none of the nine known ones changes nothing. */
  lemma UnknownIgnored(f: Filling, p: Pair)
    requires !CultureAttr(p.attribute) && !Is(p.attribute, "version") && !Is(p.attribute, "publickeytoken")
    requires !Is(p.attribute, "publickey") && !Is(p.attribute, "processorarchitecture")
      && !Is(p.attribute, "retargetable")
    requires !Is(p.attribute, "contenttype") && !Is(p.attribute, "custom")
    ensures Populate(f, p) == Some(f)
  {
    hide SameText;
    KindIs(p.attribute);
  }

  // ---------------------------------------------------------------- which values are accepted

  /** An even, positive number of hexadecimal digits of either case. */
  ghost predicate HexText(v: Text) {
    v != [] && |v| % 2 == 0 && forall i | 0 <= i < |v| :: 48 <= v[i] <= 57 || 97 <= v[i] <= 102 || 65 <= v[i] <= 70
  }

  predicate ArchName(v: Text) {
    Is(v, "msil") || Is(v, "x86") || Is(v, "ia64") || Is(v, "amd64") || Is(v, "arm")
  }

  /** The values that each attribute accepts; a culture and an unknown attribute accept any. */
  ghost predicate Accepts(a: Text, v: Text) {
    && (Is(a, "version") ==> Star(v) || IsVersion(v))
    && (Is(a, "publickeytoken") ==> Star(v) || NullText(v) || (|v| == 16 && HexText(v)))
    && (Is(a, "publickey") ==> NullText(v) || (|v| <= 4096 && HexText(v)))
    && (Is(a, "processorarchitecture") ==> Star(v) || ArchName(v))
    && (Is(a, "retargetable") ==> Is(v, "yes") || Is(v, "no"))
    && (Is(a, "contenttype") ==> Star(v) || Is(v, "windowsruntime"))
    && (Is(a, "custom") ==> Is(v, "null") || HexText(v))
  }

  lemma HexTextIs(v: Text)
    ensures HexText(v) <==> ValidHex(v)
  {
  }

  lemma ArchTextIs(v: Text)
    ensures ArchName(v) <==> ArchOf(v).Some?
    ensures (Is(v, "msil") ==> ArchOf(v) == Some(MSIL)) && (Is(v, "x86") ==> ArchOf(v) == Some(X86))
    ensures (Is(v, "ia64") ==> ArchOf(v) == Some(IA64)) && (Is(v, "amd64") ==> ArchOf(v) == Some(AMD64))
    ensures Is(v, "arm") ==> ArchOf(v) == Some(ARM)
  {
    SameName(v, "MSIL", "msil");
    SameName(v, "ARM", "arm");
    SameName(v, "AMD64", "amd64");
    SameName(v, "IA64", "ia64");
    assert |Lit("msil")| == 4 && |Lit("arm")| == 3 && |Lit("amd64")| == 5 && |Lit("ia64")| == 4 && |Lit("x86")| == 3;
    if Is(v, "ia64") { assert Lower(v[0]) == Lower(Lit("ia64")[0]) != Lower(Lit("msil")[0]); }
    if Is(v, "x86") { assert Lower(v[0]) == Lower(Lit("x86")[0]) != Lower(Lit("arm")[0]); }
  }

  lemma SameName(v: Text, s: string, t: string)
    requires |s| == |t| && forall i | 0 <= i < |s| :: Lower(s[i] as int) == Lower(t[i] as int)
    ensures Is(v, s) <==> Is(v, t)
  {
  }

  /** A pair is accepted exactly if its attribute accepts its value. */
  lemma PairAccepted(p: Pair)
    ensures PairOk(p) <==> Accepts(p.attribute, p.value)
  {
    KindIs(p.attribute);
    StarIs(p.value);
    HexTextIs(p.value);
    ArchTextIs(p.value);
    hide SameText, HexText, ValidHex, ArchOf, CategoryOf, IsVersion;
  }

  predicate KeyAttr(a: Text) { Is(a, "publickey") || Is(a, "publickeytoken") }

  /** The two attributes are the same, culture and language being one, and public key and token being one. */
  predicate SameKind(a: Text, b: Text) {
    || (CultureAttr(a) && CultureAttr(b)) || (KeyAttr(a) && KeyAttr(b)) || (Is(a, "version") && Is(b, "version"))
    || (Is(a, "processorarchitecture") && Is(b, "processorarchitecture"))
    || (Is(a, "retargetable") && Is(b, "retargetable"))
    || (Is(a, "contenttype") && Is(b, "contenttype")) || (Is(a, "custom") && Is(b, "custom"))
  }

  lemma SameKindIs(p: Pair, q: Pair)
    ensures Repeats(p, q) <==> SameKind(p.attribute, q.attribute)
  {
    KindIs(p.attribute);
    KindIs(q.attribute);
    hide SameText, CategoryOf;
  }

  /** A list is accepted exactly if every attribute accepts its value and none is there twice. */
  lemma AcceptedExactly(name: Text, ps: seq<Pair>)
    ensures PopulateAll(Filling(Named(name), {}), ps).Some? <==>
      && (forall i | 0 <= i < |ps| :: Accepts(ps[i].attribute, ps[i].value))
      && (forall i, j | 0 <= i < j < |ps| :: !SameKind(ps[i].attribute, ps[j].attribute))
  {
    hide PopulateAll, Accepts, SameKind, PairOk, Repeats;
    ListAccepted(name, ps);
    forall i | 0 <= i < |ps| ensures PairOk(ps[i]) <==> Accepts(ps[i].attribute, ps[i].value) { PairAccepted(ps[i]); }
    forall i, j | 0 <= i < j < |ps| ensures Repeats(ps[i], ps[j]) <==> SameKind(ps[i].attribute, ps[j].attribute) {
      SameKindIs(ps[i], ps[j]);
    }
  }

  // ---------------------------------------------------------------- what one pair sets

  /** Whether a pair sets a flag of the identity. */
  predicate Sets(p: Pair, x: Flag) {
    match x
    case HaveName => false
    case HaveVersion => Is(p.attribute, "version") && !Star(p.value)
    case HaveCulture => CultureAttr(p.attribute) && !Star(p.value)
    case HaveToken => Is(p.attribute, "publickeytoken") && !Star(p.value) && !NullText(p.value)
    case HaveTokenNull => Is(p.attribute, "publickeytoken") && NullText(p.value)
    case HaveKey => Is(p.attribute, "publickey") && !NullText(p.value)
    case HaveArch => Is(p.attribute, "processorarchitecture") && !Star(p.value)
    case HaveRetargetable => Is(p.attribute, "retargetable") && Is(p.value, "yes")
    case HaveContentType => Is(p.attribute, "contenttype") && Is(p.value, "windowsruntime")
    case HaveCustom => Is(p.attribute, "custom") && !Is(p.value, "null")
    case HaveCustomNull => Is(p.attribute, "custom") && Is(p.value, "null")
  }

  /** Neither "null" nor "neutral" is a star. */
  lemma NullIsNotStar(v: Text)
    ensures NullText(v) ==> !Star(v)
    ensures Is(v, "windowsruntime") ==> !Star(v)
    ensures !(Is(v, "yes") && Is(v, "no"))
  {
    assert |Lit("null")| == 4 && |Lit("neutral")| == 7 && |Lit("windowsruntime")| == 14 && |Lit("yes")| == 3
        && |Lit("no")| == 2;
  }

  /** The change a pair makes to the flags. */
  lemma FlagsSet(f: Filling, p: Pair, x: Flag)
    requires Populate(f, p).Some?
    ensures x in Populate(f, p).value.id.flags <==> x in f.id.flags || Sets(p, x)
  {
    hide CategoryOf, Populate, ChangeOf, SetsFor, Sets;
    PopulateFlags(f, p);
    SetsByKind(p, x);
    var c := CategoryOf(p.attribute);
    if c.Some? { ChangeSets(c.value, p.value, x); }
  }

  /** Whether an attribute of a category sets a flag. */
  predicate SetsFor(c: Category, v: Text, x: Flag) {
    match c
    case Culture => x == HaveCulture && !Star(v)
    case Version => x == HaveVersion && !Star(v)
    case Token => if NullText(v) then x == HaveTokenNull else x == HaveToken && !Star(v)
    case Key => x == HaveKey && !NullText(v)
    case Architecture => x == HaveArch && !Star(v)
    case Retargetable => x == HaveRetargetable && Is(v, "yes")
    case ContentType => x == HaveContentType && Is(v, "windowsruntime")
    case Custom => if Is(v, "null") then x == HaveCustomNull else x == HaveCustom
  }

  lemma ChangeSets(c: Category, v: Text, x: Flag)
    requires ChangeOf(c, v).Some?
    ensures x in ChangeOf(c, v).value.flags <==> SetsFor(c, v, x)
  {
    StarIs(v);
    NullIsNotStar(v);
    hide SameText, IsVersion, ValidHex, ArchOf;
  }

  lemma SetsByKind(p: Pair, x: Flag)
    ensures Sets(p, x) <==>
      CategoryOf(p.attribute).Some? && SetsFor(CategoryOf(p.attribute).value, p.value, x)
  {
    KindIs(p.attribute);
    NullIsNotStar(p.value);
    hide SameText, CategoryOf;
  }

  lemma PopulateFlags(f: Filling, p: Pair)
    requires Populate(f, p).Some?
    ensures var c := CategoryOf(p.attribute);
      if c.None? then Populate(f, p).value.id.flags == f.id.flags
      else ChangeOf(c.value, p.value).Some? &&
           Populate(f, p).value.id.flags == f.id.flags + ChangeOf(c.value, p.value).value.flags
  {
    hide CategoryOf, ChangeOf;
  }

  /** What a pair sets in the fields: nothing, unless it sets the flag of the field. */
  lemma FieldsSet(f: Filling, p: Pair)
    requires Populate(f, p).Some?
    ensures var g, v := Populate(f, p).value.id, p.value;
      && g.name == f.id.name
      && g.version == (if Sets(p, HaveVersion) then Values(Split(v)) else f.id.version)
      && g.culture == (if Sets(p, HaveCulture) && !Is(v, "neutral") then v else f.id.culture)
      && g.key == (if Sets(p, HaveToken) || Sets(p, HaveKey) then FromHex(v) else f.id.key)
      && g.winrt == (f.id.winrt || Sets(p, HaveContentType))
      && g.custom == (if Sets(p, HaveCustom) then FromHex(v) else f.id.custom)
  {
    KindIs(p.attribute);
    StarIs(p.value);
    NullIsNotStar(p.value);
    hide SameText, CategoryOf, IsVersion, ValidHex, ArchOf, FromHex, Split;
  }

  function ArchNamed(v: Text): Arch {
    if Is(v, "x86") then X86 else if Is(v, "amd64") then AMD64 else if Is(v, "arm") then ARM else if Is(v, "ia64")
        then IA64
    else if Is(v, "msil") then MSIL else NoArch
  }

  lemma ArchSet(f: Filling, p: Pair)
    requires Populate(f, p).Some?
    ensures Populate(f, p).value.id.arch == if Sets(p, HaveArch) then ArchNamed(p.value) else f.id.arch
  {
    KindIs(p.attribute);
    StarIs(p.value);
    ArchTextIs(p.value);
    hide SameText, CategoryOf, IsVersion, ValidHex, ArchOf;
  }

  // ---------------------------------------------------------------- what a list of pairs sets

  /** What the last pair for which `sets` holds gives, or `d`. */
  function Chosen<T>(ps: seq<Pair>, sets: Pair -> bool, given: Pair -> T, d: T): T {
    if ps == [] then d else Chosen(ps[1..], sets, given, if sets(ps[0]) then given(ps[0]) else d)
  }

  lemma {:induction false} ChosenIs<T>(ps: seq<Pair>, sets: Pair -> bool, given: Pair -> T, d: T)
    requires forall i, j | 0 <= i < j < |ps| :: !(sets(ps[i]) && sets(ps[j]))
    ensures forall k | 0 <= k < |ps| && sets(ps[k]) :: Chosen(ps, sets, given, d) == given(ps[k])
    ensures (forall k | 0 <= k < |ps| :: !sets(ps[k])) ==> Chosen(ps, sets, given, d) == d
    decreases |ps|
  {
    if ps != [] {
      var t, e := ps[1..], if sets(ps[0]) then given(ps[0]) else d;
      ChosenIs(t, sets, given, e);
      forall k | 0 <= k < |ps| && sets(ps[k]) ensures Chosen(ps, sets, given, d) == given(ps[k]) {
        if k > 0 { assert t[k - 1] == ps[k]; }
      }
    }
  }

  /** Exactly the flags that some pair sets are added. */
  lemma {:induction false} FlagsOfList(f: Filling, ps: seq<Pair>, x: Flag)
    requires PopulateAll(f, ps).Some?
    ensures x in PopulateAll(f, ps).value.id.flags <==> x in f.id.flags || exists k :: 0 <= k < |ps| && Sets(ps[k], x)
    decreases |ps|
  {
    hide Populate, Sets;
    if ps != [] {
      FlagsSet(f, ps[0], x);
      var g, t := Populate(f, ps[0]).value, ps[1..];
      FlagsOfList(g, t, x);
      if k :| 0 <= k < |t| && Sets(t[k], x) { assert Sets(ps[k + 1], x); }
      if k :| 0 <= k < |ps| && Sets(ps[k], x) { assert k > 0 ==> Sets(t[k - 1], x); }
    }
  }

  function CultureGiven(p: Pair, d: Text): Text {
    if Sets(p, HaveCulture) && !Is(p.value, "neutral") then p.value else d
  }

  /** The fields after a list of pairs. */
  lemma {:induction false} FieldsOfList(f: Filling, ps: seq<Pair>)
    requires PopulateAll(f, ps).Some?
    ensures var g := PopulateAll(f, ps).value.id;
      && g.name == f.id.name
      && g.version == Chosen(ps, p => Sets(p, HaveVersion), (p: Pair) => Values(Split(p.value)), f.id.version)
      && g.culture == Chosen(ps, p => Sets(p, HaveCulture) && !Is(p.value, "neutral"), (p: Pair) => p.value,
          f.id.culture)
      && g.key == Chosen(ps, p => Sets(p, HaveToken) || Sets(p, HaveKey), (p: Pair) => FromHex(p.value), f.id.key)
      && (g.winrt <==> f.id.winrt || exists k :: 0 <= k < |ps| && Sets(ps[k], HaveContentType))
      && g.custom == Chosen(ps, p => Sets(p, HaveCustom), (p: Pair) => FromHex(p.value), f.id.custom)
    decreases |ps|
  {
    hide Populate, Sets, Is, FromHex, Split, Values;
    if ps != [] {
      FieldsSet(f, ps[0]);
      var g, t := Populate(f, ps[0]).value, ps[1..];
      FieldsOfList(g, t);
      if k :| 0 <= k < |t| && Sets(t[k], HaveContentType) { assert Sets(ps[k + 1], HaveContentType); }
      if k :| 0 <= k < |ps| && Sets(ps[k], HaveContentType) { assert k > 0 ==> Sets(t[k - 1], HaveContentType); }
    }
  }

  lemma {:induction false} ArchOfList(f: Filling, ps: seq<Pair>)
    requires PopulateAll(f, ps).Some?
    ensures PopulateAll(f, ps).value.id.arch == Chosen(ps, p => Sets(p, HaveArch), (p: Pair) => ArchNamed(p.value),
      f.id.arch)
    decreases |ps|
  {
    hide Populate, Sets, Is, ArchNamed;
    if ps != [] {
      ArchSet(f, ps[0]);
      ArchOfList(Populate(f, ps[0]).value, ps[1..]);
    }
  }

  /** The identity that a name and a list of pairs stand for, field by field. */
  ghost predicate Described(name: Text, ps: seq<Pair>, id: Identity) {
    && id.name == name
    && (forall x :: x in id.flags <==> x == HaveName || exists k :: 0 <= k < |ps| && Sets(ps[k], x))
    && (forall k | 0 <= k < |ps| && Sets(ps[k], HaveVersion) :: id.version == Values(Split(ps[k].value)))
    && (HaveVersion !in id.flags ==> id.version == NO_VERSION)
    && (forall k | 0 <= k < |ps| && Sets(ps[k], HaveCulture) ::
          id.culture == if Is(ps[k].value, "neutral") then [] else ps[k].value)
    && (HaveCulture !in id.flags ==> id.culture == [])
    && (forall k | 0 <= k < |ps| && (Sets(ps[k], HaveToken) || Sets(ps[k], HaveKey)) :: id.key == FromHex(ps[k].value))
    && (HaveToken !in id.flags && HaveKey !in id.flags ==> id.key == NO_BLOB)
    && (forall k | 0 <= k < |ps| && Sets(ps[k], HaveArch) :: id.arch == ArchNamed(ps[k].value))
    && (HaveArch !in id.flags ==> id.arch == NoArch)
    && (id.winrt <==> HaveContentType in id.flags)
    && (forall k | 0 <= k < |ps| && Sets(ps[k], HaveCustom) :: id.custom == FromHex(ps[k].value))
    && (HaveCustom !in id.flags ==> id.custom == NO_BLOB)
  }

  /** Pairs that set the same field are of one kind. */
  lemma SetsOnce(p: Pair, q: Pair)
    requires !SameKind(p.attribute, q.attribute)
    ensures !(Sets(p, HaveVersion) && Sets(q, HaveVersion)) && !(Sets(p, HaveCulture) && Sets(q, HaveCulture))
    ensures !((Sets(p, HaveToken) || Sets(p, HaveKey)) && (Sets(q, HaveToken) || Sets(q, HaveKey)))
    ensures !(Sets(p, HaveArch) && Sets(q, HaveArch)) && !(Sets(p, HaveCustom) && Sets(q, HaveCustom))
  {
    hide SameText;
  }

  /** A list of pairs is accepted exactly if every attribute accepts its value and none is there twice, and gives the
      identity that it describes. */
  lemma PairsDescribe(name: Text, ps: seq<Pair>)
    requires PopulateAll(Filling(Named(name), {}), ps).Some?
    ensures Described(name, ps, PopulateAll(Filling(Named(name), {}), ps).value.id)
  {
    hide PopulateAll, Sets, SameKind, Accepts, Is, FromHex, Split, Values, ArchNamed, Chosen;
    var f := Filling(Named(name), {});
    var id := PopulateAll(f, ps).value.id;
    AcceptedExactly(name, ps);
    forall i, j | 0 <= i < j < |ps|
      ensures !(Sets(ps[i], HaveVersion) && Sets(ps[j], HaveVersion))
        && !(Sets(ps[i], HaveCulture) && Sets(ps[j], HaveCulture))
      ensures !((Sets(ps[i], HaveToken) || Sets(ps[i], HaveKey)) && (Sets(ps[j], HaveToken) || Sets(ps[j], HaveKey)))
      ensures !(Sets(ps[i], HaveArch) && Sets(ps[j], HaveArch)) && !(Sets(ps[i], HaveCustom) && Sets(ps[j], HaveCustom))
    {
      SetsOnce(ps[i], ps[j]);
    }
    forall x ensures x in id.flags <==> x == HaveName || exists k :: 0 <= k < |ps| && Sets(ps[k], x) {
      FlagsOfList(f, ps, x);
    }
    FieldsOfList(f, ps);
    ArchOfList(f, ps);
    ChosenIs(ps, p => Sets(p, HaveVersion), (p: Pair) => Values(Split(p.value)), NO_VERSION);
    ChosenIs(ps, p => Sets(p, HaveCulture) && !Is(p.value, "neutral"), (p: Pair) => p.value, []);
    ChosenIs(ps, p => Sets(p, HaveToken) || Sets(p, HaveKey), (p: Pair) => FromHex(p.value), NO_BLOB);
    ChosenIs(ps, p => Sets(p, HaveArch), (p: Pair) => ArchNamed(p.value), NoArch);
    ChosenIs(ps, p => Sets(p, HaveCustom), (p: Pair) => FromHex(p.value), NO_BLOB);
  }

  /** A text is parsed exactly if it is a name and a list of pairs with accepted values and no attribute twice, and
      gives the identity that they describe. */
  lemma TextDescribes(t: Text, permit: bool)
    ensures var (n, t1) := GetNextLexeme(t, permit); var ps := LexPairs(t1);
      && (Parse(t, permit).Some? <==>
            && n.Str? && ps.Some? && (forall i | 0 <= i < |ps.value| ::
                Accepts(ps.value[i].attribute, ps.value[i].value))
            && forall i, j | 0 <= i < j < |ps.value| :: !SameKind(ps.value[i].attribute, ps.value[j].attribute))
      && (Parse(t, permit).Some? ==> Described(n.s, ps.value, Parse(t, permit).value))
  {
    hide GetNextLexeme, LexPairs, PopulateAll, Described, Accepts, SameKind;
    var (n, t1) := GetNextLexeme(t, permit);
    if n.Str? && LexPairs(t1).Some? {
      AcceptedExactly(n.s, LexPairs(t1).value);
      if Parse(t, permit).Some? { PairsDescribe(n.s, LexPairs(t1).value); }
    }
  }

  // ---------------------------------------------------------------- the order in which attributes are printed

  /** The place of an attribute in the printed form. */
  function Place(a: Text): nat {
    if a == Lit("Version") then 1 else if a == Lit("Culture") then 2
    else if a == Lit("PublicKey") || a == Lit("PublicKeyToken") then 3 else if a == Lit("processorArchitecture") then 4
    else if a == Lit("Retargetable") then 5 else if a == Lit("ContentType") then 6 else if a == Lit("Custom") then 7
        else 0
  }

  /** The attributes are in their places, all of them behind place `n`. */
  ghost predicate InOrder(ps: seq<Pair>, n: nat) {
    && (forall k | 0 <= k < |ps| :: Place(ps[k].attribute) > n)
    && forall i, j | 0 <= i < j < |ps| :: Place(ps[i].attribute) < Place(ps[j].attribute)
  }

  lemma OneInOrder(present: bool, a: string, v: Text, ps: seq<Pair>, n: nat)
    requires InOrder(ps, n) && n > 0 && Place(Lit(a)) == n
    ensures InOrder(One(present, a, v) + ps, n - 1)
  {
    hide Place;
  }

  lemma Places()
    ensures Place(Lit("Version")) == 1 && Place(Lit("Culture")) == 2 && Place(Lit("PublicKey")) == 3
    ensures Place(Lit("PublicKeyToken")) == 3 && Place(Lit("processorArchitecture")) == 4
      && Place(Lit("Retargetable")) == 5
    ensures Place(Lit("ContentType")) == 6 && Place(Lit("Custom")) == 7
  {
    assert |Lit("Version")| == 7 && |Lit("Culture")| == 7 && |Lit("PublicKey")| == 9 && |Lit("PublicKeyToken")| == 14;
    assert |Lit("processorArchitecture")| == 21 && |Lit("Retargetable")| == 12 && |Lit("ContentType")| == 11
        && |Lit("Custom")| == 6;
    assert Lit("Version")[0] != Lit("Culture")[0];
  }

  /** The printed form of an identity is its name and then pairs in the order version, culture, public key or token,
      processor architecture, retargetable, content type and custom. */
  lemma PrintedInOrder(id: Identity)
    requires Representable(id)
    ensures ToString(id) == IdentityPrinter.Escape(id.name) + PrintPairs(PairsOf(id)) && InOrder(PairsOf(id), 0)
  {
    hide Place, InOrder, One, Representable;
    assert Printable(id) && id.name != [] by { Named1(id); }
    var end := PairsFill(id);
    Places();
    assert InOrder([], 7) by { NoneInOrder(); }
    assert CustomPair(id) + [] == CustomPair(id);
    OneInOrder(HaveCustom in id.flags || HaveCustomNull in id.flags, "Custom",
               if HaveCustom in id.flags then ToHex(id.custom) else Lit("null"), [], 7);
    OneInOrder(HaveContentType in id.flags, "ContentType", Lit("WindowsRuntime"), CustomPair(id), 6);
    OneInOrder(HaveRetargetable in id.flags, "Retargetable", Lit("Yes"), ContentPair(id) + CustomPair(id), 5);
    OneInOrder(HaveArch in id.flags, "processorArchitecture", if HaveArch in id.flags then ArchText(id.arch)
        else [], LastPairs(id), 4);
    KeyInOrder(id);
    OneInOrder(HaveCulture in id.flags, "Culture", if id.culture == [] then Lit("neutral")
        else id.culture, MiddlePairs(id), 2);
    OneInOrder(HaveVersion in id.flags, "Version", PrintVersion(id.version), CulturePair(id) + MiddlePairs(id), 1);
  }

  lemma NoneInOrder()
    ensures InOrder([], 7)
  {
  }

  lemma Named1(id: Identity)
    requires Representable(id)
    ensures Printable(id) && id.name != []
  {
  }

  lemma KeyInOrder(id: Identity)
    requires Printable(id) && InOrder(ArchPairs(id), 3)
    ensures InOrder(MiddlePairs(id), 2)
  {
    hide Place, InOrder, One, ArchPairs;
    Places();
    if HaveKey in id.flags {
      OneInOrder(true, "PublicKey", ToHex(id.key), ArchPairs(id), 3);
    } else {
      OneInOrder(HaveToken in id.flags || HaveTokenNull in id.flags, "PublicKeyToken",
                 if HaveToken in id.flags then ToHex(id.key) else Lit("null"), ArchPairs(id), 3);
    }
  }
}
