/** Identities that do not survive printing and parsing: a closing quote ends a quoted string even if it is escaped. */
module IdentityExamples {
  import opened IdentityLexer
  import opened IdentityPrinter
  import opened IdentityValues
  import opened IdentityParser
  import opened IdentityText
  import opened IdentityExact

  /** a'b"c */
  const BOTH: Text := [97, SINGLE, 98, DOUBLE, 99]
  /** a\'b\"c */
  const WRITTEN: Text := [97, BACKSLASH, SINGLE, 98, BACKSLASH, DOUBLE, 99]

  /** One more character of a string. */
  lemma ScanAdds(t: Text, quote: nat, permit: bool, acc: Text, c: nat, escaped: bool, rest: Text)
    requires Next(t) == Read(c, escaped, rest) && c != 0 && c != INVALID && c != quote && t != []
    requires escaped || IsQuote(quote) || (!IsQuote(c) && !IsSeparator(c))
    ensures Scan(t, quote, permit, acc) == Scan(rest, quote, permit, acc + [c])
  {
  }

  lemma ScansWritten(permit: bool)
    ensures Scan(WRITTEN, INVALID, permit, []) == (Str(BOTH), [])
  {
    var t := WRITTEN;
    var t1, t3, t4, t6 := t[1..], t[3..], t[4..], t[6..];
    assert t[1..][1..][1..] == t3 && t3[1..] == t4 && t4[1..][1..] == t6 && t6[1..] == [];
    assert Scan([], INVALID, permit, BOTH) == (Str(BOTH), []);
    assert Next(t) == Read(97, false, t1) && Next(t1) == Read(SINGLE, true, t3) && Next(t3) == Read(98, false, t4);
    assert Next(t4) == Read(DOUBLE, true, t6) && Next(t6) == Read(99, false, []);
    hide Scan, Next;
    ScanAdds(t, INVALID, permit, [], 97, false, t1);
    ScanAdds(t1, INVALID, permit, [97], SINGLE, true, t3);
    ScanAdds(t3, INVALID, permit, [97, SINGLE], 98, false, t4);
    ScanAdds(t4, INVALID, permit, [97, SINGLE, 98], DOUBLE, true, t6);
    ScanAdds(t6, INVALID, permit, [97, SINGLE, 98, DOUBLE], 99, false, []);
    assert [] + [97] == [97] && [97] + [SINGLE] == [97, SINGLE] && [97, SINGLE] + [98] == [97, SINGLE, 98];
    assert [97, SINGLE, 98] + [DOUBLE] == [97, SINGLE, 98, DOUBLE] && [97, SINGLE, 98, DOUBLE] + [99] == BOTH;
  }

  /** The text is read as the name with both kinds of quotes. */
  lemma ReadsWritten(permit: bool)
    ensures GetNextLexeme(WRITTEN, permit) == (Str(BOTH), [])
  {
    ScansWritten(permit);
    var x := Next(WRITTEN);
    assert x.c == 97 && !x.escaped;
    hide Scan, Next;
    assert SkipSpace(WRITTEN) == WRITTEN && Trim(BOTH) == BOTH;
    assert ParseString(WRITTEN, permit) == (Str(BOTH), []);
  }

  /** Its printed form, with what follows, is cut after the third character, and the rest is not a list of pairs. */
  lemma CutShort(more: Text)
    ensures Escape(BOTH) == [DOUBLE, 97, SINGLE, 98, BACKSLASH, DOUBLE, 99, DOUBLE]
    ensures forall permit :: GetNextLexeme(Escape(BOTH) + more, permit) == (Str([97, SINGLE, 98]), [99, DOUBLE] + more)
  {
    EscapesBoth();
    forall permit ensures GetNextLexeme(Escape(BOTH) + more, permit) == (Str([97, SINGLE, 98]), [99, DOUBLE] + more) {
      CutAfterThree(more, permit);
    }
  }

  lemma CutAfterThree(more: Text, permit: bool)
    ensures GetNextLexeme([DOUBLE, 97, SINGLE, 98, BACKSLASH, DOUBLE, 99, DOUBLE] + more, permit)
      == (Str([97, SINGLE, 98]), [99, DOUBLE] + more)
  {
    var t := [DOUBLE, 97, SINGLE, 98, BACKSLASH, DOUBLE, 99, DOUBLE] + more;
    var t1, t2, t3, t4, t6 := t[1..], t[2..], t[3..], t[4..], t[6..];
    assert t1[1..] == t2 && t2[1..] == t3 && t3[1..] == t4 && t4[1..][1..] == t6 && t6 == [99, DOUBLE] + more;
    assert Next(t4) == Read(DOUBLE, true, t6);
    assert Scan(t4, DOUBLE, permit, [97, SINGLE, 98]) == (Str([97, SINGLE, 98]), t6);
    hide Scan;
    ScanAdds(t1, DOUBLE, permit, [], 97, false, t2);
    ScanAdds(t2, DOUBLE, permit, [97], SINGLE, false, t3);
    ScanAdds(t3, DOUBLE, permit, [97, SINGLE], 98, false, t4);
    assert [] + [97] == [97] && [97] + [SINGLE] == [97, SINGLE] && [97, SINGLE] + [98] == [97, SINGLE, 98];
    assert Next(t) == Read(DOUBLE, false, t1) && SkipSpace(t) == t;
  }

  lemma EscapesBoth()
    ensures Escape(BOTH) == [DOUBLE, 97, SINGLE, 98, BACKSLASH, DOUBLE, 99, DOUBLE]
  {
    var s := BOTH;
    assert FirstQuote(s) == 1;
    assert s[1..] == [SINGLE, 98, DOUBLE, 99] && s[2..] == [98, DOUBLE, 99] && s[3..] == [DOUBLE, 99]
        && s[4..] == [99] && s[5..] == [];
    assert s[1..][1..] == s[2..] && s[2..][1..] == s[3..] && s[3..][1..] == s[4..] && s[4..][1..] == s[5..];
    assert EncAll(s[4..], DOUBLE) == [99];
    assert EncAll(s[3..], DOUBLE) == [BACKSLASH, DOUBLE, 99];
    assert EncAll(s[2..], DOUBLE) == [98, BACKSLASH, DOUBLE, 99];
    assert EncAll(s[1..], DOUBLE) == [SINGLE, 98, BACKSLASH, DOUBLE, 99];
    assert EncAll(s, DOUBLE) == [97, SINGLE, 98, BACKSLASH, DOUBLE, 99];
  }

  lemma NoPairs(more: Text)
    ensures LexPairs([99, DOUBLE] + more) == None
  {
    var t := [99, DOUBLE] + more;
    assert t[1..] == [DOUBLE] + more && t[1..][1..] == more;
    ScanAdds(t, INVALID, false, [], 99, false, t[1..]);
    assert Next(t[1..]) == Read(DOUBLE, false, more);
    assert GetNextLexeme(t, false).0 == Bad;
  }

  /** An identity whose name is accepted, but whose printed form is not. */
  lemma NameCutShort(permit: bool) returns (id: Identity)
    ensures Parse(WRITTEN, permit) == Some(id) && Printable(id) && id.name == BOTH && Parse(ToString(id), permit)
      == None
  {
    hide GetNextLexeme, LexPairs, Escape, ToString;
    id := Named(BOTH);
    ReadsWritten(permit);
    assert LexPairs([]) == Some([]) by { NothingLeft(); }
    CutShort([]);
    NoPairs([]);
    assert Escape(BOTH) + [] == Escape(BOTH) && [99, DOUBLE] + [] == [99, DOUBLE];
    PrintsName(id);
  }

  lemma NothingLeft()
    ensures LexPairs([]) == Some([])
  {
    LexNothing();
  }

  lemma PrintsName(id: Identity)
    requires id == Named(BOTH)
    ensures Printable(id) && ToString(id) == Escape(BOTH)
  {
    hide Escape;
    assert VersionText(id) == [] && CultureText(id) == [] && AfterCulture(id) == [];
    assert ToString(id) == Escape(BOTH) + ([] + ([] + []));
  }

  /** a, Culture=a\'b\"c */
  function WithCulture(): Text { [97, COMMA, SPACE] + Lit("Culture") + [EQUALS] + WRITTEN }

  /** An identity whose culture is accepted, but whose printed form is not. */
  lemma CultureCutShort(permit: bool) returns (id: Identity)
    ensures Parse(WithCulture(), permit) == Some(id) && Printable(id) && id.culture == BOTH
      && Parse(ToString(id), permit) == None
  {
    id := Named([97]).(culture := BOTH, flags := {HaveName, HaveCulture});
    ReadsCulture(permit);
    PrintsCulture(permit, id);
  }

  lemma PlainName(permit: bool, more: Text)
    requires more == [] || IsSeparator(more[0])
    ensures Escape([97]) == [97] && GetNextLexeme([97] + more, permit) == (Str([97]), more)
  {
    PlainEscapes([97]);
    LexEscaped([97], more, permit);
  }

  lemma ReadsCulture(permit: bool)
    ensures Parse(WithCulture(), permit) == Some(Named([97]).(culture := BOTH, flags := {HaveName, HaveCulture}))
  {
    var t1 := [COMMA, SPACE] + (Lit("Culture") + ([EQUALS] + WRITTEN));
    assert WithCulture() == [97] + t1;
    PlainName(permit, t1);
    CultureAttribute(WRITTEN);
    ReadsWritten(false);
    NothingLeft();
    hide GetNextLexeme;
    assert LexPairs(t1) == Some([Pair(Lit("Culture"), BOTH)] + []);
    FillsCulture();
  }

  lemma CultureAttribute(t: Text)
    ensures var t2 := [EQUALS] + t; var t1 := [SPACE] + (Lit("Culture") + t2);
      && GetNextLexeme([COMMA, SPACE] + (Lit("Culture") + t2), false) == (Comma, t1)
      && GetNextLexeme(t1, false) == (Str(Lit("Culture")), t2) && GetNextLexeme(t2, false) == (Equal, t)
  {
    hide GetNextLexeme, Escape, Restorable;
    var t2 := [EQUALS] + t;
    LexComma(Lit("Culture") + t2);
    LexAfterSpace(Lit("Culture") + t2);
    CultureName();
    AlphanumericPlain(Lit("Culture"));
    LexEscaped(Lit("Culture"), t2, false);
    LexEquals(t);
  }

  lemma FillsCulture()
    ensures PopulateAll(Filling(Named([97]), {}), [Pair(Lit("Culture"), BOTH)])
      == Some(Filling(Named([97]).(culture := BOTH, flags := {HaveName, HaveCulture}), {HaveCulture}))
  {
    CultureName();
    assert |Lit("neutral")| == 7 && |Lit("*")| == 1;
    var p := Pair(Lit("Culture"), BOTH);
    assert [p][1..] == [];
    var g := Filling(Named([97]).(culture := BOTH, flags := {HaveName, HaveCulture}), {HaveCulture});
    var f := Filling(Named([97]), {});
    assert !Wildcard(BOTH) && !SameText(BOTH, Lit("neutral")) && Marks(Culture) * f.seen == {};
    assert {HaveName} + {HaveCulture} == {HaveName, HaveCulture} && {} + {HaveCulture} == {HaveCulture};
    assert ChangeOf(Culture, BOTH) == Some(NOTHING.(culture := Some(BOTH), flags := {HaveCulture}));
    assert Populate(f, p) == Some(g);
    assert PopulateAll(g, []) == Some(g);
  }

  lemma PrintsCulture(permit: bool, id: Identity)
    requires id == Named([97]).(culture := BOTH, flags := {HaveName, HaveCulture})
    ensures Printable(id) && Parse(ToString(id), permit) == None
  {
    var e := Escape(BOTH);
    var t1 := [COMMA, SPACE] + (Lit("Culture") + ([EQUALS] + (e + [])));
    PlainName(permit, t1);
    CultureAttribute(e + []);
    CutShort([]);
    NoPairs([]);
    hide GetNextLexeme, Escape;
    PrintsAs(id);
    assert LexPairs(t1) == None;
  }

  lemma PrintsAs(id: Identity)
    requires id == Named([97]).(culture := BOTH, flags := {HaveName, HaveCulture}) && Escape([97]) == [97]
    ensures Printable(id) && ToString(id) == [97] + ([COMMA,
      SPACE] + (Lit("Culture") + ([EQUALS] + (Escape(BOTH) + []))))
  {
    hide Escape;
    PrintedHead(Pair(Lit("Culture"), BOTH), []);
    assert VersionText(id) == [] && AfterCulture(id) == [];
    assert CultureText(id) == Lit(", ") + Lit("Culture") + Lit("=") + Escape(BOTH);
    assert ToString(id) == [97] + ([] + (CultureText(id) + []));
  }
}
