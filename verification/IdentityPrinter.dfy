/** Escaping text so that the lexer reads it back (`EscapeString` in src/binder/textualidentityparser.cpp). */
module IdentityPrinter {
  import opened IdentityLexer

  /** One character, escaped for text quoted with `q`. */
  function Enc(c: nat, q: nat): (t: Text)
    ensures t != []
  {
    if IsQuote(c) then if c == q then [BACKSLASH, c] else [c]
    else if c == EQUALS || c == COMMA || c == BACKSLASH then [BACKSLASH, c]
    else if c == TAB then [BACKSLASH, 't' as int]
    else if c == LF then [BACKSLASH, 'n' as int]
    else if c == CR then [BACKSLASH, 'r' as int]
    else [c]
  }

  function EncAll(s: Text, q: nat): Text {
    if s == [] then [] else Enc(s[0], q) + EncAll(s[1..], q)
  }

  /** White space at either end, which must be quoted. */
  predicate Edge(s: Text) {
    s != [] && (IsWhitespace(s[0]) || IsWhitespace(s[|s| - 1]))
  }

  /** The position of the first quote character, or the length. */
  function FirstQuote(s: Text): (k: nat)
    ensures k <= |s| && (k < |s| ==> IsQuote(s[k])) && forall j | 0 <= j < k :: !IsQuote(s[j])
  {
    if s == [] || IsQuote(s[0]) then 0 else 1 + FirstQuote(s[1..])
  }

  function Other(q: nat): nat {
    if q == DOUBLE then SINGLE else DOUBLE
  }

  /** The quote character the text is put in, or `INVALID` for none. */
  function QuoteFor(s: Text): (q: nat)
    ensures IsQuote(q) || q == INVALID
  {
    if Edge(s) then DOUBLE else if FirstQuote(s) < |s| then Other(s[FirstQuote(s)]) else INVALID
  }

  function Escape(s: Text): Text {
    var q := QuoteFor(s);
    if q == INVALID then EncAll(s, q) else [q] + EncAll(s, q) + [q]
  }

  lemma {:induction false} EncAllAppend(s: Text, c: nat, q: nat)
    ensures EncAll(s + [c], q) == EncAll(s, q) + Enc(c, q)
  {
    if s == [] {
      assert [] + [c] == [c] && [c][1..] == [];
    } else {
      EncAllAppend(s[1..], c, q);
      assert (s + [c])[1..] == s[1..] + [c];
    }
  }

  /** Without quote characters it does not matter what the text is quoted with. */
  lemma {:induction false} EncNoQuotes(s: Text, q: nat, r: nat)
    requires forall j | 0 <= j < |s| :: !IsQuote(s[j])
    ensures EncAll(s, q) == EncAll(s, r)
  {
    if s != [] { EncNoQuotes(s[1..], q, r); }
  }

  /** The text for one character. The first quote character met decides what the text is quoted with. */
  method EscapeCharacter(c: nat, needQuotes: bool, quote: nat) returns (piece: Text, needQuotes': bool, quote': nat)
    ensures needQuotes' == (needQuotes || IsQuote(c)) && quote' == if !needQuotes && IsQuote(c) then Other(c) else quote
    ensures piece == Enc(c, if needQuotes' then quote' else INVALID)
  {
    needQuotes', quote' := needQuotes, quote;
    if IsQuote(c) {
      if needQuotes && quote != c {
        piece := [c];
      } else if !needQuotes {
        needQuotes' := true;
        quote' := Other(c);
        piece := [c];
      } else {
        piece := [BACKSLASH, c];
      }
    } else if c == EQUALS || c == COMMA || c == BACKSLASH {
      piece := [BACKSLASH, c];
    } else if c == TAB {
      piece := [BACKSLASH, 't' as int];
    } else if c == LF {
      piece := [BACKSLASH, 'n' as int];
    } else if c == CR {
      piece := [BACKSLASH, 'r' as int];
    } else {
      piece := [c];
    }
  }

  method EscapeString(input: Text) returns (result: Text)
    requires input != []
    ensures result == Escape(input)
  {
    hide Enc;
    var needQuotes := IsWhitespace(input[0]) || IsWhitespace(input[|input| - 1]);
    var quote := DOUBLE;
    var tmp: Text := [];
    ghost var k := FirstQuote(input);
    var i := 0;
    while i < |input|
      invariant 0 <= i <= |input|
      invariant needQuotes <==> Edge(input) || k < i
      invariant if needQuotes then quote == QuoteFor(input) else quote == DOUBLE
      invariant tmp == EncAll(input[..i], if needQuotes then quote else INVALID)
    {
      var piece, needQuotes', quote' := EscapeCharacter(input[i], needQuotes, quote);
      if !needQuotes { EncNoQuotes(input[..i], INVALID, quote'); }
      assert input[..i + 1] == input[..i] + [input[i]];
      EncAllAppend(input[..i], input[i], if needQuotes' then quote' else INVALID);
      tmp, needQuotes, quote := tmp + piece, needQuotes', quote';
      i := i + 1;
    }
    assert input[..i] == input;
    result := if needQuotes then [quote] + tmp + [quote] else tmp;
  }

  // ---------------------------------------------------------------- reading back

  /** Neither the end mark nor the mark of invalid characters. */
  ghost predicate Clean(s: Text) {
    forall j | 0 <= j < |s| :: s[j] != 0 && s[j] != INVALID
  }

  lemma NextEnc(c: nat, q: nat, rest: Text)
    requires c != 0 && c != INVALID
    ensures Next(Enc(c, q) + rest) == Read(c, |Enc(c, q)| == 2, rest)
  {
    var t := Enc(c, q) + rest;
    if |Enc(c, q)| == 2 {
      assert t[0] == BACKSLASH && t[1..][0] == Enc(c, q)[1] && t[1..][1..] == rest;
    } else {
      assert t[0] == c && t[1..] == rest;
    }
  }

  /** The position of the first occurrence of `q`, or the length. */
  function Find(s: Text, q: nat): (k: nat)
    ensures k <= |s| && (k < |s| ==> s[k] == q) && forall j | 0 <= j < k :: s[j] != q
  {
    if s == [] || s[0] == q then 0 else 1 + Find(s[1..], q)
  }

  /** Reading one encoded character adds it to the text, unless it is the closing quote or, outside quotes, a bare
      quote. */
  lemma ScanStep(c: nat, q: nat, more: Text, permit: bool, acc: Text)
    requires c != 0 && c != INVALID && (IsQuote(q) || (q == INVALID && !IsQuote(c)))
    ensures Scan(Enc(c, q) + more, q, permit, acc) == if c == q then (Str(acc), more)
      else Scan(more, q, permit, acc + [c])
  {
    hide Next;
    NextEnc(c, q, more);
  }

  lemma EncAllHead(s: Text, q: nat, rest: Text)
    requires s != []
    ensures EncAll(s, q) + rest == Enc(s[0], q) + (EncAll(s[1..], q) + rest)
  {
    assert (Enc(s[0], q) + EncAll(s[1..], q)) + rest == Enc(s[0], q) + (EncAll(s[1..], q) + rest);
  }

  lemma ScanClose(q: nat, rest: Text, permit: bool, acc: Text)
    requires IsQuote(q)
    ensures Scan([q] + rest, q, permit, acc) == (Str(acc), rest)
  {
    assert ([q] + rest)[1..] == rest;
  }

  lemma ScanEnd(rest: Text, permit: bool, acc: Text)
    requires rest == [] || IsSeparator(rest[0])
    ensures Scan(rest, INVALID, permit, acc) == (Str(acc), rest)
  {
  }

  lemma Clip(s: Text, k: nat, acc: Text)
    requires s != [] && k <= |s| - 1
    ensures acc + s[..k + 1] == acc + [s[0]] + s[1..][..k]
  {
  }

  /** Inside quotes the lexer reads up to the first quote character of the same kind, escaped or not. */
  lemma {:induction false} ScanQuoted(s: Text, q: nat, rest: Text, permit: bool, acc: Text)
    requires IsQuote(q) && Clean(s)
    ensures Scan(EncAll(s, q) + ([q] + rest), q, permit, acc).0 == Str(acc + s[..Find(s, q)])
    ensures Find(s, q) == |s| ==> Scan(EncAll(s, q) + ([q] + rest), q, permit, acc).1 == rest
    decreases |s|
  {
    hide Next, Enc, Scan;
    var close := [q] + rest;
    if s == [] {
      assert EncAll(s, q) + close == close && acc + s[..0] == acc;
      ScanClose(q, rest, permit, acc);
    } else {
      EncAllHead(s, q, close);
      ScanStep(s[0], q, EncAll(s[1..], q) + close, permit, acc);
      if s[0] != q {
        ScanQuoted(s[1..], q, rest, permit, acc + [s[0]]);
        Clip(s, Find(s[1..], q), acc);
      } else {
        assert acc + s[..0] == acc;
      }
    }
  }

  /** Outside quotes the lexer reads text without quote characters up to a separator or the end. */
  lemma {:induction false} ScanPlain(s: Text, rest: Text, permit: bool, acc: Text)
    requires Clean(s) && (forall j | 0 <= j < |s| :: !IsQuote(s[j])) && (rest == [] || IsSeparator(rest[0]))
    ensures Scan(EncAll(s, INVALID) + rest, INVALID, permit, acc) == (Str(acc + s), rest)
    decreases |s|
  {
    hide Next, Enc, Scan, IsQuote;
    if s == [] {
      assert EncAll(s, INVALID) + rest == rest && acc + s == acc;
      ScanEnd(rest, permit, acc);
    } else {
      EncAllHead(s, INVALID, rest);
      ScanStep(s[0], INVALID, EncAll(s[1..], INVALID) + rest, permit, acc);
      ScanPlain(s[1..], rest, permit, acc + [s[0]]);
      Clip(s, |s| - 1, acc);
      assert s[..|s|] == s && s[1..][..|s| - 1] == s[1..];
    }
  }

  /** No quote character has to be escaped. */
  predicate Restorable(s: Text) {
    Find(s, QuoteFor(s)) == |s|
  }

  /** The lexeme at the start of an escaped string: all of the string, or what comes before the first escaped quote. */
  lemma LexEscaped(s: Text, rest: Text, permit: bool)
    requires s != [] && Clean(s) && (rest == [] || IsSeparator(rest[0]))
    ensures GetNextLexeme(Escape(s) + rest, permit).0 == Str(s[..Find(s, QuoteFor(s))])
    ensures Restorable(s) ==> GetNextLexeme(Escape(s) + rest, permit) == (Str(s), rest)
  {
    hide Escape, GetNextLexeme;
    if QuoteFor(s) == INVALID {
      LexPlain(s, rest, permit);
    } else {
      LexQuoted(s, rest, permit);
    }
    assert s[..|s|] == s;
  }

  /** A quoted lexeme begins with its quote. */
  lemma LexOpened(q: nat, body: Text, permit: bool)
    requires IsQuote(q)
    ensures GetNextLexeme([q] + body, permit) == Scan(body, q, permit, [])
  {
    hide Scan;
    var t := [q] + body;
    assert t[1..] == body;
    assert Next(t) == Read(q, false, body);
  }

  lemma LexQuoted(s: Text, rest: Text, permit: bool)
    requires s != [] && Clean(s) && QuoteFor(s) != INVALID
    ensures GetNextLexeme(Escape(s) + rest, permit).0 == Str(s[..Find(s, QuoteFor(s))])
    ensures Find(s, QuoteFor(s)) == |s| ==> GetNextLexeme(Escape(s) + rest, permit).1 == rest
  {
    hide GetNextLexeme, Scan, QuoteFor, EncAll;
    var q := QuoteFor(s);
    assert Escape(s) + rest == [q] + (EncAll(s, q) + ([q] + rest));
    LexOpened(q, EncAll(s, q) + ([q] + rest), permit);
    ScanQuoted(s, q, rest, permit, []);
    assert [] + s[..Find(s, q)] == s[..Find(s, q)];
  }

  lemma LexPlain(s: Text, rest: Text, permit: bool)
    requires s != [] && Clean(s) && QuoteFor(s) == INVALID && (rest == [] || IsSeparator(rest[0]))
    ensures GetNextLexeme(Escape(s) + rest, permit) == (Str(s), rest) && Restorable(s)
  {
    hide Scan;
    var more := EncAll(s[1..], INVALID) + rest;
    EncAllHead(s, INVALID, rest);
    NextEnc(s[0], INVALID, more);
    ScanPlain(s, rest, permit, []);
    assert [] + s == s;
  }

  /** Which strings survive escaping and reading back: with white space at an end, those without double quotes;
      otherwise those without quotes of both kinds. */
  lemma EscapeRoundTrip(s: Text, permit: bool)
    requires s != [] && Clean(s)
    ensures GetNextLexeme(Escape(s), permit) == (Str(s), []) <==>
      if Edge(s) then DOUBLE !in s else !(SINGLE in s && DOUBLE in s)
  {
    LexEscaped(s, [], permit);
    assert Escape(s) + [] == Escape(s);
    RestorableMeans(s);
    var k := Find(s, QuoteFor(s));
    if k < |s| { assert |s[..k]| < |s|; }
  }

  lemma RestorableMeans(s: Text)
    requires s != [] && Clean(s)
    ensures Restorable(s) <==> if Edge(s) then DOUBLE !in s else !(SINGLE in s && DOUBLE in s)
  {
    var q, k := QuoteFor(s), FirstQuote(s);
    assert Restorable(s) <==> q !in s;
    if !Edge(s) && k == |s| {
      assert SINGLE !in s && DOUBLE !in s;
    }
  }
}
