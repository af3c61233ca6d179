/** The text form of assembly identities, printed and parsed (src/binder/textualidentityparser.cpp). */
module IdentityText {
  import opened IdentityLexer
  import opened IdentityPrinter
  import opened IdentityValues
  import opened IdentityParser

  // ---------------------------------------------------------------- parsing

  /** The pairs of a text after the name, or none if it is not a list of `, attribute = value`. */
  function LexPairs(t: Text): Option<seq<Pair>>
    decreases |t|
  {
    var (l, t1) := GetNextLexeme(t, false);
    if l == End then Some([])
    else if l != Comma then None
    else
      var (a, t2) := GetNextLexeme(t1, false);
      var (e, t3) := GetNextLexeme(t2, false);
      var (v, t4) := GetNextLexeme(t3, false);
      if !a.Str? || e != Equal || !v.Str? then None
      else
        var more := LexPairs(t4);
        if more.None? then None else Some([Pair(a.s, v.s)] + more.value)
  }

  /** `Parse`: a name and a list of pairs that fill an identity. */
  ghost function Parse(t: Text, permit: bool): Option<Identity> {
    var (n, t1) := GetNextLexeme(t, permit);
    if !n.Str? || LexPairs(t1).None? then None
    else
      var f := PopulateAll(Filling(Named(n.s), {}), LexPairs(t1).value);
      if f.None? then None else Some(f.value.id)
  }

  /** What the parser still makes of the text from the state it is in. */
  ghost function ParseRest(f: Filling, t: Text): Option<Identity> {
    var ps := LexPairs(t);
    if ps.None? then None
    else
      var g := PopulateAll(f, ps.value);
      if g.None? then None else Some(g.value.id)
  }

  /** The parser object: the identity being filled and the attributes seen. */
  class TextualIdentityParser {
    var identity: Identity
    var seen: set<Flag>

    ghost function State(): Filling
      reads this
    {
      Filling(identity, seen)
    }

    constructor ()
      ensures State() == Filling(Named([]), {})
    {
      identity, seen := Named([]), {};
    }

    /** Fails if one of the marks has been seen, and sets them otherwise. */
    method CheckSeen(marks: set<Flag>) returns (ok: bool)
      modifies `seen
      ensures ok == (marks * old(seen) == {}) && (ok ==> seen == old(seen) + marks)
    {
      ok := marks * seen == {};
      seen := seen + marks;
    }

    method SetValue(c: Category, v: Text) returns (ok: bool)
      modifies `identity
      ensures ok == ChangeOf(c, v).Some? && (ok ==> identity == With(old(identity), ChangeOf(c, v).value))
    {
      hide IsVersion, ValidHex, SameText, Split, FromHex;
      ok := true;
      match c
      case Culture =>
        if !Wildcard(v) {
          if !SameText(v, Lit("neutral")) { identity := identity.(culture := v); }
          identity := identity.(flags := identity.flags + {HaveCulture});
        }
      case Version =>
        if !Wildcard(v) {
          var r := ParseVersion(v);
          if r.Some? {
            identity := identity.(version := r.value, flags := identity.flags + {HaveVersion});
          } else {
            ok := false;
          }
        }
      case Token =>
        if !Wildcard(v) {
          if !NullOrNeutral(v) {
            var hex := ValidateHex(v);
            if |v| == 16 && hex {
              var b := HexToBlob(v);
              identity := identity.(key := b, flags := identity.flags + {HaveToken});
            } else {
              ok := false;
            }
          } else {
            identity := identity.(flags := identity.flags + {HaveTokenNull});
          }
        }
      case Key =>
        if !NullOrNeutral(v) {
          var hex := ValidateHex(v);
          if |v| <= 4096 && hex {
            var b := HexToBlob(v);
            identity := identity.(key := b, flags := identity.flags + {HaveKey});
          } else {
            ok := false;
          }
        }
      case Architecture =>
        if !Wildcard(v) {
          var arch := ArchOf(v);
          if arch.Some? {
            identity := identity.(arch := arch.value, flags := identity.flags + {HaveArch});
          } else {
            ok := false;
          }
        }
      case Retargetable =>
        if SameText(v, Lit("yes")) {
          identity := identity.(flags := identity.flags + {HaveRetargetable});
        } else if !SameText(v, Lit("no")) {
          ok := false;
        }
      case ContentType =>
        if !Wildcard(v) {
          if SameText(v, Lit("windowsruntime")) {
            identity := identity.(winrt := true, flags := identity.flags + {HaveContentType});
          } else {
            ok := false;
          }
        }
      case Custom =>
        if SameText(v, Lit("null")) {
          identity := identity.(flags := identity.flags + {HaveCustomNull});
        } else {
          var hex := ValidateHex(v);
          if hex {
            var b := HexToBlob(v);
            identity := identity.(custom := b, flags := identity.flags + {HaveCustom});
          } else {
            ok := false;
          }
        }
    }

    method PopulateAssemblyIdentity(p: Pair) returns (ok: bool)
      modifies this
      ensures ok == Populate(old(State()), p).Some? && (ok ==> State() == Populate(old(State()), p).value)
    {
      hide ChangeOf, With, CategoryOf, Marks;
      ok := true;
      var c := CategoryOf(p.attribute);
      if c.Some? {
        ok := CheckSeen(Marks(c.value));
        if ok { ok := SetValue(c.value, p.value); }
      }
    }

    /** The loop of `Parse` after the name. */
    method ParsePairs(lexer: StringLexer) returns (ok: bool)
      requires lexer.Valid()
      modifies this, lexer
      ensures ok == ParseRest(old(State()), old(lexer.Rest())).Some?
      ensures ok ==> identity == ParseRest(old(State()), old(lexer.Rest())).value
    {
      hide Populate, GetNextLexeme, PopulateAll;
      ghost var f, t := State(), lexer.Rest();
      while true
        invariant lexer.Valid() && ParseRest(State(), lexer.Rest()) == ParseRest(f, t)
        decreases |lexer.Rest()|
      {
        RestStep(State(), lexer.Rest());
        var l := lexer.Lex(false);
        if l == End { return true; }
        if l != Comma { return false; }
        var a := lexer.Lex(false);
        if !a.Str? { return false; }
        var e := lexer.Lex(false);
        if e != Equal { return false; }
        var v := lexer.Lex(false);
        if !v.Str? { return false; }
        ok := PopulateAssemblyIdentity(Pair(a.s, v.s));
        if !ok { return; }
      }
    }

    method ParseText(text: Text, permit: bool) returns (ok: bool)
      modifies this
      ensures ok ==> Parse(text, permit) == Some(identity)
      ensures !ok ==> Parse(text, permit) == None
    {
      hide GetNextLexeme, LexPairs, PopulateAll;
      identity, seen := Named([]), {};
      var lexer := new StringLexer(text);
      var n := lexer.Lex(permit);
      if !n.Str? { return false; }
      identity := Named(n.s);
      ok := ParsePairs(lexer);
    }
  }

  /** One round of the loop, on the specification. */
  lemma RestStep(f: Filling, t: Text)
    ensures var (l, t1) := GetNextLexeme(t, false);
      && (l == End ==> ParseRest(f, t) == Some(f.id)) && (l != End && l != Comma ==> ParseRest(f, t) == None)
      && (l == Comma ==>
            var (a, t2) := GetNextLexeme(t1, false);
            var (e, t3) := GetNextLexeme(t2, false);
            var (v, t4) := GetNextLexeme(t3, false);
            if !a.Str? || e != Equal || !v.Str? then ParseRest(f, t) == None
            else
              var g := Populate(f, Pair(a.s, v.s));
              ParseRest(f, t) == if g.None? then None else ParseRest(g.value, t4))
  {
    hide Populate, GetNextLexeme;
    var (l, t1) := GetNextLexeme(t, false);
    if l == Comma {
      var (a, t2) := GetNextLexeme(t1, false);
      var (e, t3) := GetNextLexeme(t2, false);
      var (v, t4) := GetNextLexeme(t3, false);
      if a.Str? && e == Equal && v.Str? && LexPairs(t4).Some? {
        HeadThen(f, Pair(a.s, v.s), LexPairs(t4).value);
      }
    }
  }

  // ---------------------------------------------------------------- printing

  function Attribute(a: string, v: Text): Text {
    Lit(", ") + Lit(a) + Lit("=") + v
  }

  /** `PeKindToString`, for the architectures it knows. */
  function ArchText(a: Arch): Text
    requires a !in {NoArch, ARM64}
  {
    match a
    case X86 => Lit("x86")
    case IA64 => Lit("IA64")
    case AMD64 => Lit("AMD64")
    case ARM => Lit("ARM")
    case MSIL => Lit("MSIL")
  }

  /** What `ToString` can print: bytes are bytes, and only the architectures and content types it has names for. */
  ghost predicate Printable(id: Identity) {
    && |id.version| == 4 && (forall i | 0 <= i < |id.key| :: id.key[i] < 256)
        && (forall i | 0 <= i < |id.custom| :: id.custom[i] < 256)
    && (HaveArch in id.flags ==> id.arch !in {NoArch, ARM64}) && (HaveContentType in id.flags ==> id.winrt)
  }

  function VersionText(id: Identity): Text requires |id.version| == 4 {
    if HaveVersion in id.flags then Attribute("Version", PrintVersion(id.version)) else []
  }

  function CultureText(id: Identity): Text {
    if HaveCulture !in id.flags then []
    else Attribute("Culture", if id.culture == [] then Lit("neutral") else Escape(id.culture))
  }

  function KeyText(id: Identity): Text requires forall i | 0 <= i < |id.key| :: id.key[i] < 256 {
    if HaveKey in id.flags then Attribute("PublicKey", ToHex(id.key))
    else if HaveToken in id.flags then Attribute("PublicKeyToken", ToHex(id.key))
    else if HaveTokenNull in id.flags then Attribute("PublicKeyToken", Lit("null"))
    else []
  }

  function ArchPart(id: Identity): Text requires HaveArch in id.flags ==> id.arch !in {NoArch, ARM64} {
    if HaveArch in id.flags then Attribute("processorArchitecture", ArchText(id.arch)) else []
  }

  function RetargetableText(id: Identity): Text {
    if HaveRetargetable in id.flags then Attribute("Retargetable", Lit("Yes")) else []
  }

  function ContentText(id: Identity): Text {
    if HaveContentType in id.flags then Attribute("ContentType", Lit("WindowsRuntime")) else []
  }

  function CustomText(id: Identity): Text requires forall i | 0 <= i < |id.custom| :: id.custom[i] < 256 {
    if HaveCustom in id.flags then Attribute("Custom", ToHex(id.custom))
    else if HaveCustomNull in id.flags then Attribute("Custom", Lit("null"))
    else []
  }

  /** `ToString` with all the identity's own parts; an identity without a name prints as nothing. */
  ghost function ToString(id: Identity): Text
    requires Printable(id)
  {
    if id.name == [] then []
    else
      Escape(id.name) + (VersionText(id) + (CultureText(id) + (KeyText(id) + (ArchPart(id) +
        (RetargetableText(id) + (ContentText(id) + CustomText(id)))))))
  }

  /** Text without anything the lexer treats specially. */
  ghost predicate Plain(s: Text) {
    s != [] && forall i | 0 <= i < |s| ::
      !IsWhitespace(s[i]) && !IsQuote(s[i]) && !IsSeparator(s[i]) && s[i] != BACKSLASH && s[i] != 0 && s[i] != INVALID
  }

  lemma {:induction false} PlainEncoded(s: Text)
    requires forall i | 0 <= i < |s| :: !IsWhitespace(s[i]) && !IsQuote(s[i]) && !IsSeparator(s[i]) && s[i] != BACKSLASH
    ensures EncAll(s, INVALID) == s
  {
    if s != [] {
      PlainEncoded(s[1..]);
      assert [s[0]] + s[1..] == s;
    }
  }

  /** Plain text is printed as it is. */
  lemma PlainEscapes(s: Text)
    requires Plain(s)
    ensures Escape(s) == s && Clean(s) && Restorable(s)
  {
    PlainEncoded(s);
    assert FirstQuote(s) == |s|;
  }

  /** A value the printer can print and the lexer reads back. */
  ghost predicate Good(v: Text) {
    v != [] && Clean(v) && Restorable(v)
  }

  ghost predicate GoodPairs(ps: seq<Pair>) {
    forall k | 0 <= k < |ps| :: Plain(ps[k].attribute) && Good(ps[k].value)
  }

  function PrintPairs(ps: seq<Pair>): Text {
    if ps == [] then [] else Lit(", ") + ps[0].attribute + Lit("=") + Escape(ps[0].value) + PrintPairs(ps[1..])
  }

  lemma PrintPairsStart(ps: seq<Pair>)
    ensures PrintPairs(ps) == [] || PrintPairs(ps)[0] == COMMA
  {
    assert Lit(", ")[0] == COMMA;
  }

  lemma LexComma(t: Text)
    ensures GetNextLexeme([COMMA, SPACE] + t, false) == (Comma, [SPACE] + t)
  {
    var u := [COMMA, SPACE] + t;
    assert u[0] == COMMA && u[1..] == [SPACE] + t;
  }

  lemma LexEquals(t: Text)
    ensures GetNextLexeme([EQUALS] + t, false) == (Equal, t)
  {
    assert ([EQUALS] + t)[1..] == t;
  }

  lemma LexAfterSpace(t: Text)
    ensures GetNextLexeme([SPACE] + t, false) == GetNextLexeme(t, false)
  {
    assert ([SPACE] + t)[1..] == t;
    assert Next([SPACE] + t) == Read(SPACE, false, t);
  }

  lemma PrintedHead(p: Pair, more: Text)
    ensures Lit(", ") + p.attribute + Lit("=") + Escape(p.value) + more
      == [COMMA, SPACE] + (p.attribute + ([EQUALS] + (Escape(p.value) + more)))
  {
    hide Escape;
    assert Lit(", ") == [COMMA, SPACE] && Lit("=") == [EQUALS];
  }

  /** One printed pair is read back as a comma, the attribute, an equals sign and the value. */
  lemma LexPair(p: Pair, more: Text)
    requires Plain(p.attribute) && Good(p.value) && (more == [] || IsSeparator(more[0]))
    ensures var t3 := Escape(p.value) + more; var t2 := [EQUALS] + t3; var t1 := [SPACE] + (p.attribute + t2);
      && GetNextLexeme([COMMA, SPACE] + (p.attribute + t2), false) == (Comma, t1)
      && GetNextLexeme(t1, false) == (Str(p.attribute), t2)
      && GetNextLexeme(t2, false) == (Equal, t3)
      && GetNextLexeme(t3, false) == (Str(p.value), more)
  {
    hide GetNextLexeme, Escape, Restorable;
    var t3 := Escape(p.value) + more;
    var t2 := [EQUALS] + t3;
    LexComma(p.attribute + t2);
    LexAfterSpace(p.attribute + t2);
    PlainEscapes(p.attribute);
    LexEscaped(p.attribute, t2, false);
    LexEquals(t3);
    LexEscaped(p.value, more, false);
  }

  /** Every printed list of pairs is read back as that list. */
  lemma {:induction false} LexPrinted(ps: seq<Pair>)
    requires GoodPairs(ps)
    ensures LexPairs(PrintPairs(ps)) == Some(ps)
  {
    hide GetNextLexeme, Escape, Plain, Good;
    if ps == [] {
      LexNothing();
    } else {
      var p, more := ps[0], PrintPairs(ps[1..]);
      PrintedHead(p, more);
      PrintPairsStart(ps[1..]);
      LexPair(p, more);
      LexPrinted(ps[1..]);
      assert ps == [p] + ps[1..];
    }
  }

  lemma LexNothing()
    ensures GetNextLexeme([], false).0 == End
  {
  }

  /** A printed name and list of pairs parse as what the pairs make of the name. */
  lemma ParsePrinted(name: Text, ps: seq<Pair>, permit: bool)
    requires Good(name) && GoodPairs(ps)
    ensures Parse(Escape(name) + PrintPairs(ps), permit)
      == var f := PopulateAll(Filling(Named(name), {}), ps); if f.None? then None else Some(f.value.id)
  {
    hide GetNextLexeme, Escape, LexPairs, PopulateAll;
    PrintPairsStart(ps);
    LexEscaped(name, PrintPairs(ps), permit);
    LexPrinted(ps);
  }

  // ---------------------------------------------------------------- the round trip

  /** The identities the text form can express. */
  ghost predicate Representable(id: Identity) {
    && Printable(id) && Good(id.name) && HaveName in id.flags
    && (if HaveVersion in id.flags then forall k | 0 <= k < 4 ::
        id.version[k] <= VERSION_MAX else id.version == NO_VERSION)
    && (if HaveCulture in id.flags then id.culture == [] || GoodCulture(id.culture) else id.culture == [])
    && (if HaveKey in id.flags then 1 <= |id.key| <= 2048 && HaveToken !in id.flags && HaveTokenNull !in id.flags
        else if HaveToken in id.flags then |id.key| == 8 && HaveTokenNull !in id.flags
        else id.key == NO_BLOB)
    && (HaveArch !in id.flags ==> id.arch == NoArch) && (HaveContentType !in id.flags ==> !id.winrt)
    && (if HaveCustom in id.flags then id.custom != [] && HaveCustomNull !in id.flags else id.custom == NO_BLOB)
  }

  /** A culture that is not read as a wildcard or as no culture. */
  ghost predicate GoodCulture(c: Text) {
    Good(c) && !Wildcard(c) && !SameText(c, Lit("neutral"))
  }

  function One(present: bool, a: string, v: Text): seq<Pair> {
    if present then [Pair(Lit(a), v)] else []
  }

  ghost function VersionPair(id: Identity): seq<Pair> requires Printable(id) {
    One(HaveVersion in id.flags, "Version", PrintVersion(id.version))
  }

  ghost function CulturePair(id: Identity): seq<Pair> {
    One(HaveCulture in id.flags, "Culture", if id.culture == [] then Lit("neutral") else id.culture)
  }

  ghost function KeyPair(id: Identity): seq<Pair> requires Printable(id) {
    if HaveKey in id.flags then One(true, "PublicKey", ToHex(id.key))
    else One(HaveToken in id.flags || HaveTokenNull in id.flags, "PublicKeyToken",
        if HaveToken in id.flags then ToHex(id.key) else Lit("null"))
  }

  ghost function ArchPair(id: Identity): seq<Pair> requires Printable(id) {
    One(HaveArch in id.flags, "processorArchitecture", if HaveArch in id.flags then ArchText(id.arch) else [])
  }

  ghost function RetargetablePair(id: Identity): seq<Pair> {
    One(HaveRetargetable in id.flags, "Retargetable", Lit("Yes"))
  }

  ghost function ContentPair(id: Identity): seq<Pair> {
    One(HaveContentType in id.flags, "ContentType", Lit("WindowsRuntime"))
  }

  ghost function CustomPair(id: Identity): seq<Pair> requires Printable(id) {
    One(HaveCustom in id.flags || HaveCustomNull in id.flags, "Custom",
        if HaveCustom in id.flags then ToHex(id.custom) else Lit("null"))
  }

  ghost function PairsOf(id: Identity): seq<Pair> requires Printable(id) {
    VersionPair(id) + (CulturePair(id) + MiddlePairs(id))
  }

  lemma {:induction false} PrintAppend(ps: seq<Pair>, qs: seq<Pair>)
    ensures PrintPairs(ps + qs) == PrintPairs(ps) + PrintPairs(qs)
  {
    hide Escape;
    if ps == [] {
      assert ps + qs == qs;
    } else {
      PrintAppend(ps[1..], qs);
      assert (ps + qs)[1..] == ps[1..] + qs && (ps + qs)[0] == ps[0];
    }
  }

  lemma {:induction false} PopulateAppend(f: Filling, ps: seq<Pair>, qs: seq<Pair>)
    ensures PopulateAll(f, ps + qs) == (if PopulateAll(f, ps).None? then None
      else PopulateAll(PopulateAll(f, ps).value, qs))
    decreases |ps|
  {
    hide Populate;
    if ps == [] {
      assert ps + qs == qs;
    } else {
      var g := Populate(f, ps[0]);
      assert (ps + qs)[1..] == ps[1..] + qs && (ps + qs)[0] == ps[0];
      if g.Some? { PopulateAppend(g.value, ps[1..], qs); }
    }
  }

  /** A single pair, printed. */
  lemma PrintOne(present: bool, a: string, v: Text)
    ensures PrintPairs(One(present, a, v)) == if present then Attribute(a, Escape(v)) else []
  {
    hide Escape;
    if present {
      var ps := One(present, a, v);
      assert ps[1..] == [];
      assert Lit(", ") + Lit(a) + Lit("=") + Escape(v) + [] == Attribute(a, Escape(v));
    }
  }

  // Texts without special characters

  ghost predicate Alphanumeric(s: Text) {
    s != [] && forall i | 0 <= i < |s| ::
        s[i] == DOT || IsDigit(s[i]) || 'a' as int <= s[i] <= 'z' as int || 'A' as int <= s[i] <= 'Z' as int
  }

  lemma AlphanumericPlain(s: Text)
    requires Alphanumeric(s)
    ensures Plain(s) && Good(s) && Escape(s) == s
  {
    assert Plain(s);
    PlainEscapes(s);
  }

  lemma HexAlphanumeric(b: seq<nat>)
    requires b != [] && forall i | 0 <= i < |b| :: b[i] < 256
    ensures Alphanumeric(ToHex(b)) && ValidHex(ToHex(b)) && FromHex(ToHex(b)) == b && |ToHex(b)| == 2 * |b|
  {
    hide ToHex, FromHex;
    HexIsValid(b);
    HexRoundTrip(b);
    var t := ToHex(b);
    forall i | 0 <= i < |t| ensures IsDigit(t[i]) || 'a' as int <= t[i] <= 'z' as int
        || 'A' as int <= t[i] <= 'Z' as int {
      assert IsHex(t[i]);
    }
  }

  lemma VersionAlphanumeric(v: seq<nat>)
    requires |v| == 4
    ensures Alphanumeric(PrintVersion(v)) && IsDigit(PrintVersion(v)[0])
  {
    DecimalValue(v[0]);
    DecimalValue(v[1]);
    DecimalValue(v[2]);
    DecimalValue(v[3]);
    assert PrintVersion(v)[0] == Decimal(v[0])[0];
  }

  // The names of the attributes

  lemma VersionName()
    ensures CategoryOf(Lit("Version")) == Some(Version) && Alphanumeric(Lit("Version"))
  {
    var t := Lit("Version");
    assert Lower(t[0]) != Lower(Lit("culture")[0]);
  }

  lemma CultureName()
    ensures CategoryOf(Lit("Culture")) == Some(Culture) && Alphanumeric(Lit("Culture"))
  {
  }

  lemma TokenName()
    ensures CategoryOf(Lit("PublicKeyToken")) == Some(Token) && Alphanumeric(Lit("PublicKeyToken"))
  {
  }

  lemma KeyName()
    ensures CategoryOf(Lit("PublicKey")) == Some(Key) && Alphanumeric(Lit("PublicKey"))
  {
  }

  lemma ArchName()
    ensures CategoryOf(Lit("processorArchitecture")) == Some(Architecture) && Alphanumeric(Lit("processorArchitecture"))
  {
    assert SameText(Lit("processorArchitecture"), Lit("processorarchitecture")) by { LongNames(); }
  }

  lemma LongNames()
    ensures SameText(Lit("processorArchitecture"), Lit("processorarchitecture"))
  {
  }

  lemma RetargetableName()
    ensures CategoryOf(Lit("Retargetable")) == Some(Retargetable) && Alphanumeric(Lit("Retargetable"))
  {
  }

  lemma ContentName()
    ensures CategoryOf(Lit("ContentType")) == Some(ContentType) && Alphanumeric(Lit("ContentType"))
  {
  }

  lemma CustomName()
    ensures CategoryOf(Lit("Custom")) == Some(Custom) && Alphanumeric(Lit("Custom"))
  {
  }

  lemma ArchNames(a: Arch)
    requires a !in {NoArch, ARM64}
    ensures ArchOf(ArchText(a)) == Some(a) && Alphanumeric(ArchText(a)) && !Wildcard(ArchText(a))
  {
    var t := ArchText(a);
    match a
    case X86 => assert Lower(t[0]) != Lower(Lit("ARM")[0]);
    case IA64 => assert Lower(t[0]) != Lower(Lit("MSIL")[0]);
    case AMD64 =>
    case ARM =>
    case MSIL =>
  }

  lemma OtherWords()
    ensures Alphanumeric(Lit("Yes")) && SameText(Lit("Yes"), Lit("yes"))
    ensures Alphanumeric(Lit("null")) && Alphanumeric(Lit("neutral"))
  {
  }

  lemma RuntimeWord()
    ensures Alphanumeric(Lit("WindowsRuntime")) && SameText(Lit("WindowsRuntime"), Lit("windowsruntime"))
      && !Wildcard(Lit("WindowsRuntime"))
  {
  }

  // One attribute at a time

  /** A single pair fills its part of the identity. */
  lemma FillOne(f: Filling, present: bool, a: string, v: Text, c: Category, x: Change)
    requires present ==> CategoryOf(Lit(a)) == Some(c) && Marks(c) * f.seen == {} && ChangeOf(c, v) == Some(x)
    ensures PopulateAll(f, One(present, a, v)) == Some(if present then Filling(With(f.id, x), f.seen + Marks(c)) else f)
  {
    hide CategoryOf, ChangeOf, Marks, With;
    if present {
      HeadThen(f, Pair(Lit(a), v), []);
      assert [Pair(Lit(a), v)] + [] == One(present, a, v);
    }
  }

  lemma GoodOne(present: bool, a: string, v: Text)
    requires present ==> Alphanumeric(Lit(a)) && Good(v)
    ensures GoodPairs(One(present, a, v))
  {
    hide Good, Restorable;
    if present { AlphanumericPlain(Lit(a)); }
  }

  lemma VersionStep(id: Identity, f: Filling)
    requires Representable(id) && f.id.version == NO_VERSION && HaveVersion !in f.seen
    ensures PrintPairs(VersionPair(id)) == VersionText(id) && GoodPairs(VersionPair(id))
    ensures PopulateAll(f, VersionPair(id)) == Some(Filling(
      f.id.(version := id.version, flags := f.id.flags + id.flags * {HaveVersion}), f.seen + id.flags * {HaveVersion}))
  {
    hide CategoryOf, Good, Escape, Alphanumeric, PopulateAll, IsVersion, PrintVersion, Split;
    var v := PrintVersion(id.version);
    if HaveVersion in id.flags {
      VersionName();
      VersionAlphanumeric(id.version);
      AlphanumericPlain(v);
      VersionRoundTrip(id.version);
      assert id.flags * {HaveVersion} == {HaveVersion};
      assert Lit("*")[0] == 42;
    } else {
      assert id.flags * {HaveVersion} == {} && id.version == f.id.version;
      assert f.id.flags + {} == f.id.flags && f.seen + {} == f.seen;
    }
    PrintOne(HaveVersion in id.flags, "Version", v);
    GoodOne(HaveVersion in id.flags, "Version", v);
    FillOne(f, HaveVersion in id.flags, "Version", v, Version,
        NOTHING.(version := Some(id.version), flags := {HaveVersion}));
  }

  lemma CultureStep(id: Identity, f: Filling)
    requires Representable(id) && f.id.culture == [] && HaveCulture !in f.seen
    ensures PrintPairs(CulturePair(id)) == CultureText(id) && GoodPairs(CulturePair(id))
    ensures PopulateAll(f, CulturePair(id)) == Some(Filling(
      f.id.(culture := id.culture, flags := f.id.flags + id.flags * {HaveCulture}), f.seen + id.flags * {HaveCulture}))
  {
    hide CategoryOf, Good, Escape, Alphanumeric, PopulateAll;
    var none := id.culture == [];
    var v := if none then Lit("neutral") else id.culture;
    CultureName();
    OtherWords();
    AlphanumericPlain(Lit("neutral"));
    if HaveCulture in id.flags {
      assert id.flags * {HaveCulture} == {HaveCulture};
      assert |Lit("*")| == 1;
      assert none ==> id.culture == f.id.culture;
    } else {
      assert id.flags * {HaveCulture} == {} && id.culture == f.id.culture;
      assert f.id.flags + {} == f.id.flags && f.seen + {} == f.seen;
    }
    PrintOne(HaveCulture in id.flags, "Culture", v);
    GoodOne(HaveCulture in id.flags, "Culture", v);
    FillOne(f, HaveCulture in id.flags, "Culture", v, Culture,
        NOTHING.(culture := if none then None else Some(v), flags := {HaveCulture}));
  }

  lemma ArchStep(id: Identity, f: Filling)
    requires Representable(id) && f.id.arch == NoArch && HaveArch !in f.seen
    ensures PrintPairs(ArchPair(id)) == ArchPart(id) && GoodPairs(ArchPair(id))
    ensures PopulateAll(f, ArchPair(id)) == Some(Filling(
      f.id.(arch := id.arch, flags := f.id.flags + id.flags * {HaveArch}), f.seen + id.flags * {HaveArch}))
  {
    hide CategoryOf, Good, Escape, Alphanumeric, PopulateAll, ArchOf, ArchText, Wildcard;
    var v := if HaveArch in id.flags then ArchText(id.arch) else [];
    ArchName();
    if HaveArch in id.flags {
      ArchNames(id.arch);
      AlphanumericPlain(v);
      assert id.flags * {HaveArch} == {HaveArch};
    } else {
      assert id.flags * {HaveArch} == {};
    }
    PrintOne(HaveArch in id.flags, "processorArchitecture", v);
    GoodOne(HaveArch in id.flags, "processorArchitecture", v);
    FillOne(f, HaveArch in id.flags, "processorArchitecture", v, Architecture,
        NOTHING.(arch := Some(id.arch), flags := {HaveArch}));
  }

  lemma RetargetableStep(id: Identity, f: Filling)
    requires HaveRetargetable !in f.seen
    ensures PrintPairs(RetargetablePair(id)) == RetargetableText(id) && GoodPairs(RetargetablePair(id))
    ensures PopulateAll(f, RetargetablePair(id))
      == Some(Filling( f.id.(flags := f.id.flags + id.flags * {HaveRetargetable}),
      f.seen + id.flags * {HaveRetargetable}))
  {
    hide CategoryOf, Good, Escape, Alphanumeric, PopulateAll, SameText;
    RetargetableName();
    OtherWords();
    AlphanumericPlain(Lit("Yes"));
    if HaveRetargetable in id.flags {
      assert id.flags * {HaveRetargetable} == {HaveRetargetable};
    } else {
      assert id.flags * {HaveRetargetable} == {};
    }
    PrintOne(HaveRetargetable in id.flags, "Retargetable", Lit("Yes"));
    GoodOne(HaveRetargetable in id.flags, "Retargetable", Lit("Yes"));
    FillOne(f, HaveRetargetable in id.flags, "Retargetable", Lit("Yes"), Retargetable,
        NOTHING.(flags := {HaveRetargetable}));
  }

  lemma ContentStep(id: Identity, f: Filling)
    requires Representable(id) && !f.id.winrt && HaveContentType !in f.seen
    ensures PrintPairs(ContentPair(id)) == ContentText(id) && GoodPairs(ContentPair(id))
    ensures PopulateAll(f, ContentPair(id)) == Some(Filling(
      f.id.(winrt := id.winrt, flags := f.id.flags + id.flags * {HaveContentType}),
          f.seen + id.flags * {HaveContentType}))
  {
    hide CategoryOf, Good, Escape, Alphanumeric, PopulateAll, SameText, Wildcard;
    ContentName();
    RuntimeWord();
    AlphanumericPlain(Lit("WindowsRuntime"));
    if HaveContentType in id.flags {
      assert id.flags * {HaveContentType} == {HaveContentType};
    } else {
      assert id.flags * {HaveContentType} == {};
    }
    PrintOne(HaveContentType in id.flags, "ContentType", Lit("WindowsRuntime"));
    GoodOne(HaveContentType in id.flags, "ContentType", Lit("WindowsRuntime"));
    FillOne(f, HaveContentType in id.flags, "ContentType", Lit("WindowsRuntime"), ContentType,
        NOTHING.(winrt := true, flags := {HaveContentType}));
  }

  const KEY_FLAGS: set<Flag> := {HaveKey, HaveToken, HaveTokenNull}

  function KeyMarks(id: Identity): (m: set<Flag>)
    ensures forall x | x in m :: x == HaveKey || x == HaveToken
  {
    if id.flags * KEY_FLAGS == {} then {} else {HaveKey, HaveToken}
  }

  /** Hexadecimal text is not one of the words for "none". */
  lemma HexIsNoWord(v: Text)
    requires ValidHex(v)
    ensures !NullOrNeutral(v) && !SameText(v, Lit("null")) && !Wildcard(v)
  {
    assert |Lit("neutral")| == 7 && |Lit("*")| == 1;
    if |v| == 4 {
      assert IsHex(v[0]) && Lower(Lit("null")[0]) == 110;
      assert Lower(v[0]) != 110;
    }
  }

  lemma KeyStep(id: Identity, f: Filling)
    requires Representable(id) && f.id.key == NO_BLOB && HaveKey !in f.seen && HaveToken !in f.seen
    ensures PrintPairs(KeyPair(id)) == KeyText(id) && GoodPairs(KeyPair(id))
    ensures PopulateAll(f, KeyPair(id)) == Some(Filling(f.id.(key := id.key,
      flags := f.id.flags + id.flags * KEY_FLAGS), f.seen + KeyMarks(id)))
  {
    if HaveKey in id.flags {
      KeyGiven(id, f);
    } else if HaveToken in id.flags {
      TokenGiven(id, f);
    } else if HaveTokenNull in id.flags {
      TokenNull(id, f);
    } else {
      hide PopulateAll, Escape;
      assert id.flags * KEY_FLAGS == {} && id.key == f.id.key;
      assert f.id.flags + {} == f.id.flags && f.seen + {} == f.seen;
      PrintOne(false, "PublicKeyToken", Lit("null"));
      FillOne(f, false, "PublicKeyToken", Lit("null"), Token, NOTHING);
    }
  }

  lemma KeyGiven(id: Identity, f: Filling)
    requires Representable(id) && HaveKey in id.flags && HaveKey !in f.seen && HaveToken !in f.seen
    ensures PrintPairs(KeyPair(id)) == KeyText(id) && GoodPairs(KeyPair(id)) && id.flags * KEY_FLAGS == {HaveKey}
    ensures PopulateAll(f, KeyPair(id)) == Some(Filling(f.id.(key := id.key, flags := f.id.flags + {HaveKey}),
      f.seen + {HaveKey, HaveToken}))
  {
    hide CategoryOf, Good, Escape, Alphanumeric, PopulateAll, ToHex, FromHex, NullOrNeutral, ValidHex;
    var v := ToHex(id.key);
    KeyName();
    HexAlphanumeric(id.key);
    AlphanumericPlain(v);
    HexIsNoWord(v);
    PrintOne(true, "PublicKey", v);
    GoodOne(true, "PublicKey", v);
    FillOne(f, true, "PublicKey", v, Key, NOTHING.(key := Some(id.key), flags := {HaveKey}));
  }

  lemma TokenGiven(id: Identity, f: Filling)
    requires Representable(id) && HaveKey !in id.flags && HaveToken in id.flags && HaveKey !in f.seen
      && HaveToken !in f.seen
    ensures PrintPairs(KeyPair(id)) == KeyText(id) && GoodPairs(KeyPair(id)) && id.flags * KEY_FLAGS == {HaveToken}
    ensures PopulateAll(f, KeyPair(id)) == Some(Filling(f.id.(key := id.key, flags := f.id.flags + {HaveToken}),
      f.seen + {HaveKey, HaveToken}))
  {
    hide CategoryOf, Good, Escape, Alphanumeric, PopulateAll, ToHex, FromHex, NullOrNeutral, ValidHex, Wildcard;
    var v := ToHex(id.key);
    TokenName();
    HexAlphanumeric(id.key);
    AlphanumericPlain(v);
    HexIsNoWord(v);
    PrintOne(true, "PublicKeyToken", v);
    GoodOne(true, "PublicKeyToken", v);
    FillOne(f, true, "PublicKeyToken", v, Token, NOTHING.(key := Some(id.key), flags := {HaveToken}));
  }

  lemma TokenNull(id: Identity, f: Filling)
    requires Representable(id) && HaveKey !in id.flags && HaveToken !in id.flags && HaveTokenNull in id.flags
    requires f.id.key == NO_BLOB && HaveKey !in f.seen && HaveToken !in f.seen
    ensures PrintPairs(KeyPair(id)) == KeyText(id) && GoodPairs(KeyPair(id)) && id.flags * KEY_FLAGS == {HaveTokenNull}
    ensures PopulateAll(f, KeyPair(id)) == Some(Filling(f.id.(key := id.key, flags := f.id.flags + {HaveTokenNull}),
      f.seen + {HaveKey, HaveToken}))
  {
    hide CategoryOf, Good, Escape, Alphanumeric, PopulateAll;
    TokenName();
    OtherWords();
    AlphanumericPlain(Lit("null"));
    assert |Lit("*")| == 1 && id.key == f.id.key;
    PrintOne(true, "PublicKeyToken", Lit("null"));
    GoodOne(true, "PublicKeyToken", Lit("null"));
    FillOne(f, true, "PublicKeyToken", Lit("null"), Token, NOTHING.(flags := {HaveTokenNull}));
  }

  const CUSTOM_FLAGS: set<Flag> := {HaveCustom, HaveCustomNull}

  lemma CustomStep(id: Identity, f: Filling)
    requires Representable(id) && f.id.custom == NO_BLOB && HaveCustom !in f.seen
    ensures PrintPairs(CustomPair(id)) == CustomText(id) && GoodPairs(CustomPair(id))
    ensures PopulateAll(f, CustomPair(id)) == Some(Filling(f.id.(custom := id.custom,
      flags := f.id.flags + id.flags * CUSTOM_FLAGS), f.seen + if id.flags * CUSTOM_FLAGS == {} then {}
      else {HaveCustom}))
  {
    hide CategoryOf, Good, Escape, Alphanumeric, PopulateAll, ToHex, FromHex, ValidHex, SameText;
    var given, present := HaveCustom in id.flags, HaveCustom in id.flags || HaveCustomNull in id.flags;
    var v := if given then ToHex(id.custom) else Lit("null");
    CustomName();
    OtherWords();
    SameTextSelf(Lit("null"));
    AlphanumericPlain(Lit("null"));
    if given {
      HexAlphanumeric(id.custom);
      AlphanumericPlain(v);
      HexIsNoWord(v);
      assert id.flags * CUSTOM_FLAGS == {HaveCustom};
    } else {
      assert id.custom == f.id.custom;
      if present {
        assert id.flags * CUSTOM_FLAGS == {HaveCustomNull};
      } else {
        assert id.flags * CUSTOM_FLAGS == {};
        assert f.id.flags + {} == f.id.flags && f.seen + {} == f.seen;
      }
    }
    PrintOne(present, "Custom", v);
    GoodOne(present, "Custom", v);
    FillOne(f, present, "Custom", v, Custom,
            if given then NOTHING.(custom := Some(id.custom), flags := {HaveCustom})
                else NOTHING.(flags := {HaveCustomNull}));
  }

  lemma SameTextSelf(a: Text)
    ensures SameText(a, a)
  {
  }

  lemma GoodAppend(ps: seq<Pair>, qs: seq<Pair>)
    requires GoodPairs(ps) && GoodPairs(qs)
    ensures GoodPairs(ps + qs)
  {
    hide Plain, Good;
  }

  /** One more list of pairs in front of what has been printed, checked and filled. */
  lemma ChainStep(f: Filling, g: Filling, ps: seq<Pair>, t: Text, qs: seq<Pair>, u: Text, end: Filling)
    requires PrintPairs(ps) == t && GoodPairs(ps) && PopulateAll(f, ps) == Some(g)
    requires PrintPairs(qs) == u && GoodPairs(qs) && PopulateAll(g, qs) == Some(end)
    ensures PrintPairs(ps + qs) == t + u && GoodPairs(ps + qs) && PopulateAll(f, ps + qs) == Some(end)
  {
    hide PrintPairs, PopulateAll, GoodPairs;
    PrintAppend(ps, qs);
    GoodAppend(ps, qs);
    PopulateAppend(f, ps, qs);
  }

  ghost function LastPairs(id: Identity): seq<Pair> requires Printable(id) {
    RetargetablePair(id) + (ContentPair(id) + CustomPair(id))
  }

  function LastText(id: Identity): Text requires forall i | 0 <= i < |id.custom| :: id.custom[i] < 256 {
    RetargetableText(id) + (ContentText(id) + CustomText(id))
  }

  lemma FillLast(id: Identity, f: Filling) returns (end: Filling)
    requires Representable(id) && !f.id.winrt && f.id.custom == NO_BLOB
    requires HaveRetargetable !in f.seen && HaveContentType !in f.seen && HaveCustom !in f.seen
    ensures PrintPairs(LastPairs(id)) == LastText(id) && GoodPairs(LastPairs(id)) && PopulateAll(f, LastPairs(id))
      == Some(end)
    ensures end.id == f.id.(winrt := id.winrt, custom := id.custom,
      flags := f.id.flags + id.flags * {HaveRetargetable} + id.flags * {HaveContentType} + id.flags * CUSTOM_FLAGS)
  {
    assert Printable(id);
    hide Representable, PrintPairs, GoodPairs, PopulateAll, RetargetablePair, ContentPair, CustomPair,
        RetargetableText, ContentText, CustomText;
    var all := id.flags;
    var f1 := Filling(f.id.(flags := f.id.flags + all * {HaveRetargetable}), f.seen + all * {HaveRetargetable});
    var f2 := Filling(f1.id.(winrt := id.winrt, flags := f1.id.flags + all * {HaveContentType}),
        f1.seen + all * {HaveContentType});
    RetargetableStep(id, f);
    ContentStep(id, f1);
    CustomStep(id, f2);
    end := PopulateAll(f2, CustomPair(id)).value;
    ChainStep(f1, f2, ContentPair(id), ContentText(id), CustomPair(id), CustomText(id), end);
    ChainStep(f, f1, RetargetablePair(id), RetargetableText(id), ContentPair(id) + CustomPair(id),
        ContentText(id) + CustomText(id), end);
  }

  ghost function ArchPairs(id: Identity): seq<Pair> requires Printable(id) {
    ArchPair(id) + LastPairs(id)
  }

  ghost function ArchTexts(id: Identity): Text requires Printable(id) {
    ArchPart(id) + LastText(id)
  }

  ghost predicate Unseen(f: Filling) {
    && !f.id.winrt && f.id.custom == NO_BLOB && f.id.arch == NoArch
    && HaveArch !in f.seen && HaveRetargetable !in f.seen && HaveContentType !in f.seen && HaveCustom !in f.seen
  }

  lemma FillArch(id: Identity, f: Filling) returns (end: Filling)
    requires Representable(id) && Unseen(f)
    ensures PrintPairs(ArchPairs(id)) == ArchTexts(id) && GoodPairs(ArchPairs(id)) && PopulateAll(f, ArchPairs(id))
      == Some(end)
    ensures end.id == f.id.(arch := id.arch, winrt := id.winrt, custom := id.custom,
      flags := f.id.flags + id.flags * {HaveArch} + id.flags * {HaveRetargetable} + id.flags * {HaveContentType}
               + id.flags * CUSTOM_FLAGS)
  {
    assert Printable(id);
    hide Representable, PrintPairs, GoodPairs, PopulateAll, ArchPair, LastPairs, ArchPart, LastText;
    var all := id.flags;
    var f1 := Filling(f.id.(arch := id.arch, flags := f.id.flags + all * {HaveArch}), f.seen + all * {HaveArch});
    ArchStep(id, f);
    end := FillLast(id, f1);
    ChainStep(f, f1, ArchPair(id), ArchPart(id), LastPairs(id), LastText(id), end);
  }

  ghost function MiddlePairs(id: Identity): seq<Pair> requires Printable(id) {
    KeyPair(id) + ArchPairs(id)
  }

  ghost function MiddleText(id: Identity): Text requires Printable(id) {
    KeyText(id) + ArchTexts(id)
  }

  lemma KeyFills(id: Identity, f: Filling) returns (g: Filling)
    requires Printable(id) && Representable(id) && Unseen(f) && f.id.key == NO_BLOB && HaveKey !in f.seen
      && HaveToken !in f.seen
    ensures PrintPairs(KeyPair(id)) == KeyText(id) && GoodPairs(KeyPair(id)) && PopulateAll(f, KeyPair(id)) == Some(g)
    ensures Unseen(g) && g.id == f.id.(key := id.key, flags := f.id.flags + id.flags * KEY_FLAGS)
  {
    hide Printable, Representable, PrintPairs, GoodPairs, PopulateAll, KeyPair, KeyText, KeyMarks;
    KeyStep(id, f);
    g := PopulateAll(f, KeyPair(id)).value;
  }

  lemma FillMiddle(id: Identity, f: Filling) returns (end: Filling)
    requires Representable(id) && Unseen(f) && f.id.key == NO_BLOB && HaveKey !in f.seen && HaveToken !in f.seen
    ensures PrintPairs(MiddlePairs(id)) == MiddleText(id) && GoodPairs(MiddlePairs(id))
      && PopulateAll(f, MiddlePairs(id)) == Some(end)
    ensures end.id == f.id.(key := id.key, arch := id.arch, winrt := id.winrt, custom := id.custom,
      flags := f.id.flags + id.flags * KEY_FLAGS + id.flags * {HaveArch} + id.flags * {HaveRetargetable}
               + id.flags * {HaveContentType}
               + id.flags * CUSTOM_FLAGS)
  {
    assert Printable(id);
    hide Representable, PrintPairs, GoodPairs, PopulateAll, KeyPair, ArchPairs, KeyText, ArchTexts, Unseen;
    var f1 := KeyFills(id, f);
    end := FillArch(id, f1);
    ChainStep(f, f1, KeyPair(id), KeyText(id), ArchPairs(id), ArchTexts(id), end);
  }

  lemma FillCulture(id: Identity, f: Filling) returns (end: Filling)
    requires Representable(id) && Unseen(f) && f.id.culture == [] && f.id.key == NO_BLOB
    requires HaveCulture !in f.seen && HaveKey !in f.seen && HaveToken !in f.seen
    ensures var ps := CulturePair(id) + MiddlePairs(id);
      PrintPairs(ps) == CultureText(id) + MiddleText(id) && GoodPairs(ps) && PopulateAll(f, ps) == Some(end)
    ensures end.id == f.id.(culture := id.culture, key := id.key, arch := id.arch, winrt := id.winrt,
      custom := id.custom, flags := f.id.flags + id.flags * {HaveCulture} + id.flags * KEY_FLAGS + id.flags * {HaveArch}
               + id.flags * {HaveRetargetable}
               + id.flags * {HaveContentType} + id.flags * CUSTOM_FLAGS)
  {
    assert Printable(id);
    hide Representable, PrintPairs, GoodPairs, PopulateAll, CulturePair, MiddlePairs, CultureText, MiddleText;
    var g := Filling(f.id.(culture := id.culture, flags := f.id.flags + id.flags * {HaveCulture}),
        f.seen + id.flags * {HaveCulture});
    CultureStep(id, f);
    end := FillMiddle(id, g);
    ChainStep(f, g, CulturePair(id), CultureText(id), MiddlePairs(id), MiddleText(id), end);
  }

  /** The printed pairs of an identity fill exactly that identity. */
  lemma PairsFill(id: Identity) returns (end: Filling)
    requires Representable(id)
    ensures PrintPairs(PairsOf(id)) == VersionText(id) + (CultureText(id) + MiddleText(id))
    ensures GoodPairs(PairsOf(id)) && PopulateAll(Filling(Named(id.name), {}), PairsOf(id)) == Some(end) && end.id == id
  {
    assert Printable(id) && HaveName in id.flags;
    hide Representable, PrintPairs, GoodPairs, PopulateAll, VersionPair, CulturePair, MiddlePairs, VersionText,
        CultureText, MiddleText;
    var f := Filling(Named(id.name), {});
    var g := Filling(f.id.(version := id.version, flags := f.id.flags + id.flags * {HaveVersion}),
        f.seen + id.flags * {HaveVersion});
    VersionStep(id, f);
    end := FillCulture(id, g);
    ChainStep(f, g, VersionPair(id), VersionText(id), CulturePair(id) + MiddlePairs(id),
        CultureText(id) + MiddleText(id), end);
    FlagsComplete(id);
  }

  lemma FlagsComplete(id: Identity)
    requires HaveName in id.flags
    ensures {HaveName} + id.flags * {HaveVersion} + id.flags * {HaveCulture} + id.flags * KEY_FLAGS
      + id.flags * {HaveArch}
      + id.flags * {HaveRetargetable} + id.flags * {HaveContentType} + id.flags * CUSTOM_FLAGS == id.flags
  {
    forall x | x in id.flags ensures x in {HaveName, HaveVersion, HaveCulture, HaveArch, HaveRetargetable,
        HaveContentType} + KEY_FLAGS + CUSTOM_FLAGS {
      match x
      case HaveName =>
      case HaveVersion =>
      case HaveToken =>
      case HaveKey =>
      case HaveCulture =>
      case HaveArch =>
      case HaveRetargetable =>
      case HaveTokenNull =>
      case HaveCustom =>
      case HaveCustomNull =>
      case HaveContentType =>
    }
  }

  /** Parsing the printed form of a representable identity gives the identity back. */
  lemma RoundTrip(id: Identity, permit: bool)
    requires Representable(id)
    ensures Parse(ToString(id), permit) == Some(id)
  {
    hide Parse, PopulateAll, Escape, PairsOf;
    var end := PairsFill(id);
    ParsePrinted(id.name, PairsOf(id), permit);
  }

  /** However two texts are written, if they give the same name and the same pairs in any order, they parse alike. */
  lemma TextOrderIrrelevant(t: Text, u: Text, permit: bool)
    requires GetNextLexeme(t, permit).0 == GetNextLexeme(u, permit).0
    requires var ps, qs := LexPairs(GetNextLexeme(t, permit).1), LexPairs(GetNextLexeme(u, permit).1);
      ps.Some? && qs.Some? && multiset(ps.value) == multiset(qs.value)
    ensures Parse(t, permit) == Parse(u, permit)
  {
    hide GetNextLexeme, LexPairs, PopulateAll;
    var (n, t1) := GetNextLexeme(t, permit);
    var (_, u1) := GetNextLexeme(u, permit);
    if n.Str? { OrderIrrelevant(Filling(Named(n.s), {}), LexPairs(t1).value, LexPairs(u1).value); }
  }
}
