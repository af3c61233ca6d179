/** Which identities survive printing and parsing: exactly the representable ones. */
module IdentityExact {
  import opened IdentityLexer
  import opened IdentityPrinter
  import opened IdentityValues
  import opened IdentityParser
  import opened IdentityText

  // ---------------------------------------------------------------- what the lexer can return

  lemma {:induction false} ScanClean(t: Text, quote: nat, permit: bool, acc: Text)
    requires Clean(acc)
    ensures Scan(t, quote, permit, acc).0.Str? ==> Clean(Scan(t, quote, permit, acc).0.s)
    decreases |t|
  {
    var x := Next(t);
    if x.c != 0 && x.c != INVALID && t != [] {
      ScanClean(x.rest, quote, permit, acc + [x.c]);
    }
  }

  lemma {:induction false} TrimClean(s: Text)
    requires Clean(s)
    ensures Clean(Trim(s))
  {
    if s != [] && IsWhitespace(s[|s| - 1]) { TrimClean(s[..|s| - 1]); }
  }

  lemma StringClean(t: Text, permit: bool)
    ensures ParseString(t, permit).0.Str? ==> Clean(ParseString(t, permit).0.s)
  {
    hide Scan, Trim;
    var x := Next(t);
    ScanClean(x.rest, x.c, permit, []);
    ScanClean(t, INVALID, permit, []);
    var l := Scan(t, INVALID, permit, []).0;
    if l.Str? { TrimClean(l.s); }
  }

  /** No string lexeme holds the end mark or the invalid character, however it was written. */
  lemma LexemeClean(t: Text, permit: bool)
    ensures GetNextLexeme(t, permit).0.Str? ==> Clean(GetNextLexeme(t, permit).0.s)
  {
    hide ParseString;
    var u := SkipSpace(t);
    StringClean(Next(u).rest, permit);
    StringClean(u, permit);
  }

  // ---------------------------------------------------------------- what the parser can return

  /** A culture the parser can have stored. */
  ghost predicate CultureStored(c: Text) {
    Clean(c) && !Wildcard(c) && !SameText(c, Lit("neutral"))
  }

  /** Every part of the identity agrees with its flags, and every flag with the attributes seen. */
  ghost predicate Fits(f: Filling) {
    HaveName in f.id.flags && NamedFits(f) && KeyFits(f) && CustomFits(f)
  }

  ghost predicate CustomFits(f: Filling) {
    && (if HaveCustom in f.id.flags then f.id.custom != [] && HaveCustomNull !in f.id.flags else f.id.custom == NO_BLOB)
    && Bytes(f.id.custom)
    && (HaveCustom in f.id.flags || HaveCustomNull in f.id.flags ==> HaveCustom in f.seen)
  }

  ghost predicate NamedFits(f: Filling) {
    && |f.id.version| == 4
    && (if HaveVersion in f.id.flags then forall k | 0 <= k < 4 :: f.id.version[k] <= VERSION_MAX
        else f.id.version == NO_VERSION)
    && (if HaveCulture in f.id.flags then HaveCulture in f.seen && CultureStored(f.id.culture) else f.id.culture == [])
    && (if HaveArch in f.id.flags then f.id.arch !in {NoArch, ARM64} else f.id.arch == NoArch)
    && (HaveContentType in f.id.flags <==> f.id.winrt)
  }

  ghost predicate Bytes(b: seq<nat>) {
    forall i | 0 <= i < |b| :: b[i] < 256
  }

  ghost predicate KeyFits(f: Filling) {
    && Bytes(f.id.key)
    && (if HaveKey in f.id.flags then 1 <= |f.id.key| <= 2048 && HaveToken !in f.id.flags
        && HaveTokenNull !in f.id.flags
        else if HaveToken in f.id.flags then |f.id.key| == 8 && HaveTokenNull !in f.id.flags
        else f.id.key == NO_BLOB)
    && (HaveKey in f.id.flags || HaveToken in f.id.flags || HaveTokenNull in f.id.flags ==> HaveKey in f.seen)
  }

  lemma {:induction false} HexLength(t: Text)
    ensures |FromHex(t)| == |t| / 2 && ((forall i | 0 <= i < |t| :: IsHex(t[i])) ==> Bytes(FromHex(t)))
  {
    if |t| >= 2 { HexLength(t[..|t| - 2]); }
  }

  /** What a change of a category sets, and the flags that go with it. */
  ghost predicate Changes(c: Category, x: Change) {
    && (x.version.Some? <==> c == Version && x.flags == {HaveVersion})
    && (x.version.Some? ==> |x.version.value| == 4 && forall k | 0 <= k < 4 :: x.version.value[k] <= VERSION_MAX)
    && (x.culture.Some? ==> c == Culture && x.flags == {HaveCulture} && CultureStored(x.culture.value))
    && (x.key.Some? <==> c in {Token, Key} && (HaveKey in x.flags || HaveToken in x.flags))
    && (x.key.Some? ==> Bytes(x.key.value) && if c == Token then |x.key.value| == 8 else 1 <= |x.key.value| <= 2048)
    && (x.arch.Some? <==> x.flags == {HaveArch}) && (x.arch.Some? ==> x.arch.value !in {NoArch, ARM64})
    && (x.winrt <==> x.flags == {HaveContentType})
    && (x.custom.Some? <==> c == Custom && x.flags == {HaveCustom})
        && (x.custom.Some? ==> x.custom.value != [] && Bytes(x.custom.value))
    && x.flags in FlagsOf(c)
  }

  /** The flags a valid value of a category can set. */
  function FlagsOf(c: Category): set<set<Flag>> {
    match c
    case Culture => {{}, {HaveCulture}}
    case Version => {{}, {HaveVersion}}
    case Token => {{}, {HaveToken}, {HaveTokenNull}}
    case Key => {{}, {HaveKey}}
    case Architecture => {{}, {HaveArch}}
    case Retargetable => {{}, {HaveRetargetable}}
    case ContentType => {{}, {HaveContentType}}
    case Custom => {{HaveCustom}, {HaveCustomNull}}
  }

  lemma ChangeShape(c: Category, v: Text)
    requires Clean(v) && ChangeOf(c, v).Some?
    ensures Changes(c, ChangeOf(c, v).value)
  {
    hide SameText, FromHex, Split, Clean, Bytes;
    HexLength(v);
    if c == Version && IsVersion(v) {
      forall k | 0 <= k < 4 ensures Values(Split(v))[k] <= VERSION_MAX { assert PartOk(Split(v)[k]); }
    }
  }

  lemma NamedKept(f: Filling, c: Category, x: Change)
    requires NamedFits(f) && Changes(c, x) && (c == Culture ==> HaveCulture !in f.seen)
    ensures NamedFits(Filling(With(f.id, x), f.seen + Marks(c)))
  {
    if c == Culture { NeutralIsNot(); }
  }

  lemma KeyKept(f: Filling, c: Category, x: Change)
    requires KeyFits(f) && Changes(c, x) && (c in {Key, Token} ==> HaveKey !in f.seen)
    ensures KeyFits(Filling(With(f.id, x), f.seen + Marks(c)))
  {
  }

  lemma CustomKept(f: Filling, c: Category, x: Change)
    requires CustomFits(f) && Changes(c, x) && (c == Custom ==> HaveCustom !in f.seen)
    ensures CustomFits(Filling(With(f.id, x), f.seen + Marks(c)))
  {
  }

  lemma NeutralIsNot()
    ensures CultureStored([])
  {
    assert |Lit("neutral")| == 7 && |Lit("*")| == 1;
  }

  /** One more pair keeps the agreement. */
  lemma FitsStep(f: Filling, p: Pair)
    requires Fits(f) && Clean(p.value) && Populate(f, p).Some?
    ensures Fits(Populate(f, p).value)
  {
    hide CategoryOf, ChangeOf, NamedFits, KeyFits, CustomFits, Changes, Clean;
    var c := CategoryOf(p.attribute);
    if c.Some? {
      var x := ChangeOf(c.value, p.value).value;
      ChangeShape(c.value, p.value);
      assert forall m | m in Marks(c.value) :: m !in Marks(c.value) * f.seen;
      NamedKept(f, c.value, x);
      KeyKept(f, c.value, x);
      CustomKept(f, c.value, x);
    }
  }

  lemma {:induction false} FitsAll(f: Filling, ps: seq<Pair>)
    requires Fits(f) && (forall k | 0 <= k < |ps| :: Clean(ps[k].value)) && PopulateAll(f, ps).Some?
    ensures Fits(PopulateAll(f, ps).value)
    decreases |ps|
  {
    hide Fits, Populate, Clean;
    if ps != [] {
      assert Clean(ps[0].value);
      FitsStep(f, ps[0]);
      FitsAll(Populate(f, ps[0]).value, ps[1..]);
    }
  }

  lemma {:induction false} PairsClean(t: Text)
    requires LexPairs(t).Some?
    ensures forall k | 0 <= k < |LexPairs(t).value| :: Clean(LexPairs(t).value[k].value)
    decreases |t|
  {
    hide Clean, GetNextLexeme;
    var (l, t1) := GetNextLexeme(t, false);
    if l == Comma {
      var (a, t2) := GetNextLexeme(t1, false);
      var (e, t3) := GetNextLexeme(t2, false);
      var (v, t4) := GetNextLexeme(t3, false);
      LexemeClean(t3, false);
      PairsClean(t4);
    }
  }

  /** Whatever text was parsed, the identity agrees with its flags, and its name and culture are clean. */
  lemma ParsedFits(t: Text, permit: bool) returns (f: Filling)
    requires Parse(t, permit).Some?
    ensures Fits(f) && Parse(t, permit) == Some(f.id) && Clean(f.id.name)
  {
    hide Clean, GetNextLexeme, LexPairs, PopulateAll;
    var (n, t1) := GetNextLexeme(t, permit);
    LexemeClean(t, permit);
    PairsClean(t1);
    var ps, g := LexPairs(t1).value, Filling(Named(n.s), {});
    assert Fits(g);
    FitsAll(g, ps);
    NameStays(g, ps);
    f := PopulateAll(g, ps).value;
  }

  lemma {:induction false} NameStays(f: Filling, ps: seq<Pair>)
    requires PopulateAll(f, ps).Some?
    ensures PopulateAll(f, ps).value.id.name == f.id.name
    decreases |ps|
  {
    if ps != [] { NameStays(Populate(f, ps[0]).value, ps[1..]); }
  }

  // ---------------------------------------------------------------- names and cultures that are cut short

  /** A name that its own quotation cuts short is not read back. */
  lemma NameRestored(id: Identity, rest: Text, permit: bool)
    requires id.name != [] && Clean(id.name) && (rest == [] || IsSeparator(rest[0]))
      && Parse(Escape(id.name) + rest, permit) == Some(id)
    ensures Restorable(id.name) && ParseRest(Filling(Named(id.name), {}), rest) == Some(id)
  {
    hide GetNextLexeme, Escape, LexPairs, PopulateAll, Clean;
    LexEscaped(id.name, rest, permit);
    var (n, t1) := GetNextLexeme(Escape(id.name) + rest, permit);
    NameStays(Filling(Named(n.s), {}), LexPairs(t1).value);
  }

  lemma {:induction false} CultureStays(f: Filling, ps: seq<Pair>)
    requires PopulateAll(f, ps).Some? && HaveCulture in f.seen
    ensures PopulateAll(f, ps).value.id.culture == f.id.culture
    decreases |ps|
  {
    if ps != [] {
      var c := CategoryOf(ps[0].attribute);
      assert HaveCulture in Marks(Culture) * f.seen;
      if c.Some? { ChangeTouches(c.value, ps[0].value); }
      CultureStays(Populate(f, ps[0]).value, ps[1..]);
    }
  }

  /** One printed pair, up to its value, whatever the value is. */
  lemma LexCulture(v: Text, more: Text)
    requires v != [] && Clean(v) && (more == [] || IsSeparator(more[0]))
    ensures var t3 := Escape(v) + more; var t2 := [EQUALS] + t3; var t1 := [SPACE] + (Lit("Culture") + t2);
      && GetNextLexeme([COMMA, SPACE] + (Lit("Culture") + t2), false) == (Comma, t1)
      && GetNextLexeme(t1, false) == (Str(Lit("Culture")), t2)
      && GetNextLexeme(t2, false) == (Equal, t3)
      && GetNextLexeme(t3, false).0 == Str(v[..Find(v, QuoteFor(v))])
  {
    hide GetNextLexeme, Escape, Restorable;
    var t3 := Escape(v) + more;
    var t2 := [EQUALS] + t3;
    LexComma(Lit("Culture") + t2);
    LexAfterSpace(Lit("Culture") + t2);
    CultureName();
    AlphanumericPlain(Lit("Culture"));
    LexEscaped(Lit("Culture"), t2, false);
    LexEquals(t3);
    LexEscaped(v, more, false);
  }

  /** A culture that its own quotation cuts short is not read back. */
  lemma CultureRestored(id: Identity, f: Filling, more: Text)
    requires HaveCulture in id.flags && id.culture != [] && Clean(id.culture) && (more == [] || IsSeparator(more[0]))
    requires f.id.culture == [] && ParseRest(f, CultureText(id) + more) == Some(id)
    ensures Restorable(id.culture)
  {
    hide GetNextLexeme, Escape, LexPairs, PopulateAll, Clean, Populate;
    var v := id.culture;
    var cut := v[..Find(v, QuoteFor(v))];
    var t := CultureText(id) + more;
    PrintedHead(Pair(Lit("Culture"), v), more);
    LexCulture(v, more);
    RestStep(f, t);
    var p := Pair(Lit("Culture"), cut);
    CultureCut(f, cut);
    var g := Populate(f, p).value;
    var t4 := GetNextLexeme(Escape(v) + more, false).1;
    CultureStays(g, LexPairs(t4).value);
  }

  lemma CultureCut(f: Filling, cut: Text)
    requires f.id.culture == []
    ensures var g := Populate(f, Pair(Lit("Culture"), cut));
      g.Some? ==> HaveCulture in g.value.seen && g.value.id.culture in {[], cut}
  {
    CultureName();
  }

  /** The printed version comes first and leaves the culture as it was. */
  lemma AfterVersion(id: Identity, f: Filling, more: Text) returns (g: Filling)
    requires Printable(id) && f.id.culture == [] && (more == [] || IsSeparator(more[0]))
      && ParseRest(f, VersionText(id) + more) == Some(id)
    ensures g.id.culture == [] && ParseRest(g, more) == Some(id)
  {
    hide GetNextLexeme, Escape, LexPairs, PopulateAll, Populate, ParseRest, PrintVersion, Alphanumeric, Plain, Good;
    if HaveVersion in id.flags {
      var p := Pair(Lit("Version"), PrintVersion(id.version));
      VersionName();
      VersionAlphanumeric(id.version);
      AlphanumericPlain(p.attribute);
      AlphanumericPlain(p.value);
      PrintedHead(p, more);
      LexPair(p, more);
      RestStep(f, VersionText(id) + more);
      VersionOnly(f, p);
      g := Populate(f, p).value;
    } else {
      assert VersionText(id) + more == more;
      g := f;
    }
  }

  lemma VersionOnly(f: Filling, p: Pair)
    requires CategoryOf(p.attribute) == Some(Version) && Populate(f, p).Some?
    ensures Populate(f, p).value.id.culture == f.id.culture
  {
    ChangeTouches(Version, p.value);
  }

  /** What follows the name, the version and the culture. */
  ghost function AfterCulture(id: Identity): Text requires Printable(id) {
    KeyText(id) + (ArchPart(id) + (RetargetableText(id) + (ContentText(id) + CustomText(id))))
  }

  ghost predicate Starts(t: Text) {
    t == [] || IsSeparator(t[0])
  }

  lemma StartsAppend(t: Text, u: Text)
    requires Starts(t) && Starts(u)
    ensures Starts(t + u)
  {
  }

  lemma AttributeStarts(a: string, v: Text)
    ensures Starts(Attribute(a, v))
  {
    assert Attribute(a, v)[0] == Lit(", ")[0];
  }

  lemma AfterCultureStarts(id: Identity)
    requires Printable(id)
    ensures Starts(AfterCulture(id)) && Starts(CultureText(id) + AfterCulture(id))
      && Starts(VersionText(id) + (CultureText(id) + AfterCulture(id)))
  {
    hide Attribute, Starts;
    forall a, v ensures Starts(Attribute(a, v)) { AttributeStarts(a, v); }
    assert Starts([]) by { StartsNothing(); }
    var t := ContentText(id) + CustomText(id);
    StartsAppend(ContentText(id), CustomText(id));
    StartsAppend(RetargetableText(id), t);
    StartsAppend(ArchPart(id), RetargetableText(id) + t);
    StartsAppend(KeyText(id), ArchPart(id) + (RetargetableText(id) + t));
    StartsAppend(CultureText(id), AfterCulture(id));
    StartsAppend(VersionText(id), CultureText(id) + AfterCulture(id));
  }

  lemma StartsNothing()
    ensures Starts([])
  {
  }

  lemma NothingFails(permit: bool)
    ensures Parse([], permit) == None
  {
    assert GetNextLexeme([], permit).0 == End;
  }

  /** An identity that comes back from its own text is representable. */
  lemma OnlyRepresentable(id: Identity, permit: bool)
    requires Printable(id) && Parse(ToString(id), permit) == Some(id)
    ensures Representable(id)
  {
    hide Parse, ParseRest, Escape, VersionText, CultureText, KeyText, ArchPart, RetargetableText, ContentText,
        CustomText, Clean, Restorable;
    NothingFails(permit);
    var f := ParsedFits(ToString(id), permit);
    var tail := AfterCulture(id);
    AfterCultureStarts(id);
    NameRestored(id, VersionText(id) + (CultureText(id) + tail), permit);
    if HaveCulture in id.flags && id.culture != [] {
      var g := AfterVersion(id, Filling(Named(id.name), {}), CultureText(id) + tail);
      CultureRestored(id, g, tail);
    }
  }

  /** Parsing the printed form gives the identity back exactly if it is representable. */
  lemma RoundTripExactly(id: Identity, permit: bool)
    requires Printable(id)
    ensures Parse(ToString(id), permit) == Some(id) <==> Representable(id)
  {
    hide Parse, ToString, Representable;
    if Representable(id) { RoundTrip(id, permit); }
    if Parse(ToString(id), permit) == Some(id) { OnlyRepresentable(id, permit); }
  }

  /** Whatever text an identity was parsed from, printing and parsing it again gives it back exactly if it has a
      name and neither name nor culture holds the quotes that cut it short. */
  lemma ParsedRoundTrip(t: Text, permit: bool, id: Identity)
    requires Parse(t, permit) == Some(id)
    ensures Printable(id)
    ensures Parse(ToString(id), permit) == Some(id) <==>
      id.name != [] && KeepsQuotes(id.name) && KeepsQuotes(id.culture)
  {
    hide Parse, ToString, Clean, Restorable;
    var f := ParsedFits(t, permit);
    RoundTripExactly(id, permit);
    if id.name != [] { RestorableMeans(id.name); }
    if id.culture != [] { RestorableMeans(id.culture); }
  }

  /** Text with white space at an end is quoted in double quotes, other text in the quotes it does not start with. */
  predicate KeepsQuotes(s: Text) {
    if Edge(s) then DOUBLE !in s else !(SINGLE in s && DOUBLE in s)
  }

  /** Text survives escaping and lexing exactly if it has no end mark or invalid character and keeps its quotes. */
  lemma EscapeExactly(s: Text, permit: bool)
    requires s != []
    ensures GetNextLexeme(Escape(s), permit) == (Str(s), []) <==> Clean(s) && KeepsQuotes(s)
  {
    hide GetNextLexeme, Escape, Clean;
    LexemeClean(Escape(s), permit);
    if Clean(s) { EscapeRoundTrip(s, permit); }
  }
}
