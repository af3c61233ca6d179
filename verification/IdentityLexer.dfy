/** Splitting the text of an assembly identity into lexemes (src/binder/stringlexer.cpp, with the character
    reading of src/binder/inc/stringlexer.inl). Text is a list of UTF-16 code units. */
module IdentityLexer {
  type Text = seq<nat>

  const INVALID: nat := 0xFFFF
  const TAB: nat := 9
  const LF: nat := 10
  const CR: nat := 13
  const SPACE: nat := 32
  const DOUBLE: nat := 34
  const SINGLE: nat := 39
  const COMMA: nat := 44
  const SLASH: nat := 47
  const SEMICOLON: nat := 59
  const EQUALS: nat := 61
  const BACKSLASH: nat := 92

  /** The code units of a literal. */
  function Lit(s: string): (t: Text)
    ensures |t| == |s|
  {
    seq(|s|, i requires 0 <= i < |s| => s[i] as int)
  }

  predicate IsWhitespace(c: nat) { c == LF || c == CR || c == SPACE || c == TAB }

  predicate IsQuote(c: nat) { c == SINGLE || c == DOUBLE }

  predicate IsSeparator(c: nat) { c == COMMA || c == EQUALS }

  /** A character read from the text, whether it was escaped, and the text after it. The end reads as 0. */
  datatype Read = Read(c: nat, escaped: bool, rest: Text)

  function Raw(t: Text): nat { if t == [] then 0 else t[0] }

  function Tail(t: Text): Text { if t == [] then [] else t[1..] }

  /** `DecodeUTF16Character`: anything from the surrogates up is invalid; a high surrogate takes its partner along. */
  function Decode(t: Text): (nat, Text) {
    if Raw(t) < 0xd800 then (Raw(t), Tail(t))
    else if Raw(t) <= 0xdbff then (INVALID, Tail(Tail(t)))
    else (INVALID, Tail(t))
  }

  function HexDigit(c: nat): (d: nat) {
    if '0' as int <= c <= '9' as int then c - '0' as int
    else if 'a' as int <= c <= 'f' as int then c - 'a' as int + 10
    else if 'A' as int <= c <= 'F' as int then c - 'A' as int + 10
    else 16
  }

  /** `ParseUnicode`: up to eight hexadecimal digits and a semicolon, kept to 16 bits; `n` have been read. */
  function ParseUnicode(t: Text, n: nat, acc: nat): (r: (nat, Text))
    requires n <= 8
    ensures |r.1| <= |t|
    decreases 9 - n
  {
    var (c, rest) := Decode(t);
    if c == SEMICOLON then (acc, rest)
    else if c == INVALID || n == 8 || HexDigit(c) == 16 then (INVALID, rest)
    else ParseUnicode(rest, n + 1, (acc * 16 + HexDigit(c)) % 0x10000)
  }

  /** `GetNextCharacter` with escapes. */
  function Next(t: Text): (r: Read)
    ensures |r.rest| <= |t| && (t != [] ==> |r.rest| < |t|) && (t == [] ==> r.c == 0)
  {
    if Raw(t) != BACKSLASH then Read(Raw(t), false, Tail(t))
    else
      var e, rest := Raw(Tail(t)), Tail(Tail(t));
      if e in {DOUBLE, SINGLE, COMMA, BACKSLASH, SLASH, EQUALS} then Read(e, true, rest)
      else if e == 't' as int then Read(TAB, true, rest)
      else if e == 'n' as int then Read(LF, true, rest)
      else if e == 'r' as int then Read(CR, true, rest)
      else if e == 'u' as int then var (c, r) := ParseUnicode(rest, 0, 0); Read(c, true, r)
      else Read(INVALID, false, rest)
  }

  datatype Lexeme = Bad | Equal | Comma | End | Str(s: Text)

  /** The characters of a string lexeme, up to the closing quote `quote` or, without one (`INVALID`), up to a
      separator or the end. */
  function Scan(t: Text, quote: nat, permit: bool, acc: Text): (r: (Lexeme, Text))
    ensures |r.1| <= |t|
    decreases |t|
  {
    var x := Next(t);
    if x.c == INVALID then (Bad, x.rest)
    else if x.c == 0 then if IsQuote(quote) then (Bad, x.rest) else (Str(acc), x.rest)
    else if x.c == quote then (Str(acc), x.rest)
    else if !permit && !x.escaped && IsQuote(x.c) && !IsQuote(quote) then (Bad, x.rest)
    else if IsSeparator(x.c) && !IsQuote(quote) && !x.escaped then (Str(acc), t)
    else Scan(x.rest, quote, permit, acc + [x.c])
  }

  /** `TrimTrailingWhiteSpaces`. */
  function Trim(s: Text): (r: Text) {
    if s != [] && IsWhitespace(s[|s| - 1]) then Trim(s[..|s| - 1]) else s
  }

  /** `ParseString`: the first character, escaped or not, may open a quotation. */
  function ParseString(t: Text, permit: bool): (r: (Lexeme, Text))
    ensures |r.1| <= |t|
  {
    var x := Next(t);
    if x.c != INVALID && IsQuote(x.c) then Scan(x.rest, x.c, permit, [])
    else
      var (l, rest) := Scan(t, INVALID, permit, []);
      (if l.Str? then Str(Trim(l.s)) else l, rest)
  }

  function SkipSpace(t: Text): (r: Text)
    ensures |r| <= |t|
    decreases |t|
  {
    var x := Next(t);
    if IsWhitespace(x.c) then SkipSpace(x.rest) else t
  }

  /** `GetNextLexeme`. An invalid character at the start of a string cannot be pushed back, so it is dropped. */
  function GetNextLexeme(t: Text, permit: bool): (r: (Lexeme, Text))
    ensures |r.1| <= |t| && (r.0 == Comma ==> |r.1| < |t|)
  {
    var u := SkipSpace(t);
    var x := Next(u);
    if !x.escaped && x.c == EQUALS then (Equal, x.rest)
    else if !x.escaped && x.c == COMMA then (Comma, x.rest)
    else if !x.escaped && x.c == 0 then (End, x.rest)
    else if x.c == INVALID then ParseString(x.rest, permit)
    else ParseString(u, permit)
  }

  /** Trimming leaves the longest prefix that does not end in white space. */
  lemma {:induction false} TrimMeans(s: Text)
    ensures Trim(s) <= s && (Trim(s) != [] ==> !IsWhitespace(Trim(s)[|Trim(s)| - 1]))
    ensures forall k | |Trim(s)| <= k < |s| :: IsWhitespace(s[k])
  {
    if s != [] && IsWhitespace(s[|s| - 1]) {
      var p := s[..|s| - 1];
      TrimMeans(p);
      assert forall k | 0 <= k < |p| :: p[k] == s[k];
    }
  }

  /** How many hexadecimal digits a text begins with. */
  function HexRun(t: Text): (n: nat)
    ensures n <= |t| && (forall k | 0 <= k < n :: HexDigit(t[k]) < 16) && (n < |t| ==> HexDigit(t[n]) >= 16)
  {
    if t == [] || HexDigit(t[0]) >= 16 then 0 else 1 + HexRun(t[1..])
  }

  /** The number that hexadecimal digits stand for. */
  function HexNumber(d: Text): nat {
    if d == [] then 0 else HexNumber(d[..|d| - 1]) * 16 + HexDigit(d[|d| - 1])
  }

  lemma {:induction false} UnicodeFrom(t: Text, k: nat)
    requires k <= HexRun(t) && k <= 8
    ensures var n, r := HexRun(t), ParseUnicode(t[k..], k, HexNumber(t[..k]) % 0x10000);
      if n <= 8 && n < |t| && t[n] == SEMICOLON then r == (HexNumber(t[..n]) % 0x10000, t[n + 1..]) else r.0 == INVALID
    decreases HexRun(t) - k
  {
    hide ParseUnicode, HexRun, HexNumber;
    var n, u, acc := HexRun(t), t[k..], HexNumber(t[..k]) % 0x10000;
    UnicodeStep(u, k, acc);
    if k < n {
      assert u[0] == t[k] && u[1..] == t[k + 1..] && t[k] != SEMICOLON && t[k] < 0xd800;
      KeepTo16(t, k);
      if k < 8 { UnicodeFrom(t, k + 1); }
    } else if k < |t| {
      assert u[0] == t[k] && u[1..] == t[k + 1..];
    }
  }

  lemma KeepTo16(t: Text, k: nat)
    requires k < |t|
    ensures (HexNumber(t[..k]) % 0x10000 * 16 + HexDigit(t[k])) % 0x10000 == HexNumber(t[..k + 1]) % 0x10000
  {
    assert t[..k + 1][..k] == t[..k];
    KeepLow(HexNumber(t[..k]), HexDigit(t[k]));
  }

  lemma KeepLow(a: nat, h: nat)
    ensures (a % 0x10000 * 16 + h) % 0x10000 == (a * 16 + h) % 0x10000
  {
    var r, q := a % 0x10000, a / 0x10000;
    assert a * 16 + h == (r * 16 + h) + 0x10000 * (16 * q);
    Multiples(r * 16 + h, 16 * q);
  }

  lemma Multiples(x: nat, m: nat)
    ensures (x + 0x10000 * m) % 0x10000 == x % 0x10000
  {
  }

  lemma NoHex()
    ensures HexNumber([]) == 0 && 0 % 0x10000 == 0
  {
  }

  /** An escape is up to eight hexadecimal digits and a semicolon, and stands for their value kept to 16 bits. */
  lemma UnicodeMeans(t: Text)
    ensures var n, r := HexRun(t), ParseUnicode(t, 0, 0);
      if n <= 8 && n < |t| && t[n] == SEMICOLON then r == (HexNumber(t[..n]) % 0x10000, t[n + 1..]) else r.0 == INVALID
  {
    hide ParseUnicode, HexRun, HexNumber, HexDigit;
    NoHex();
    assert t[0..] == t && t[..0] == [];
    UnicodeFrom(t, 0);
  }

  /** What an escape stands for: a quote, comma, equals sign, slash or backslash for itself, t, n and r for a tab, a
      line feed and a carriage return, u for a character by its number; anything else, and the end, is invalid. */
  lemma EscapeMeans(c: nat, t: Text)
    ensures Next([92] + [c] + t) ==
      if c == 34 || c == 39 || c == 44 || c == 47 || c == 61 || c == 92 then Read(c, true, t)
      else if c == 116 then Read(9, true, t)
      else if c == 110 then Read(10, true, t)
      else if c == 114 then Read(13, true, t)
      else if c == 117 then Read(ParseUnicode(t, 0, 0).0, true, ParseUnicode(t, 0, 0).1)
      else Read(0xFFFF, false, t)
    ensures Next([92]) == Read(0xFFFF, false, [])
  {
    var u := [92] + [c] + t;
    assert u[1..] == [c] + t && u[1..][1..] == t;
    hide ParseUnicode;
  }

  lemma UnicodeStep(t: Text, n: nat, acc: nat)
    requires n <= 8
    ensures var (c, rest) := Decode(t);
      ParseUnicode(t, n, acc) ==
        if c == SEMICOLON then (acc, rest)
        else if c == INVALID || n == 8 || HexDigit(c) == 16 then (INVALID, rest)
        else ParseUnicode(rest, n + 1, (acc * 16 + HexDigit(c)) % 0x10000)
  {
  }

  // ---------------------------------------------------------------- the lexer object

  /** The lexer: a cursor into the text, and a character that was pushed back, if any. */
  class StringLexer {
    const text: Text
    var cursor: nat
    var current: nat
    var currentIsEscaped: bool
    /** The text from which the pushed-back character was read. */
    ghost var mark: Text

    ghost predicate Valid()
      reads this
    {
      current != INVALID ==> Next(mark) == Read(current, currentIsEscaped, Suffix())
    }

    ghost function Suffix(): Text
      reads this
    {
      if cursor <= |text| then text[cursor..] else []
    }

    /** The text still to be read. */
    ghost function Rest(): Text
      reads this
    {
      if current != INVALID then mark else Suffix()
    }

    constructor (text: Text)
      ensures this.text == text && Valid() && Rest() == text && current == INVALID
    {
      this.text, cursor, current, currentIsEscaped := text, 0, INVALID, false;
    }

    method GetRawCharacter() returns (c: nat)
      modifies `cursor
      ensures c == Raw(old(Suffix())) && Suffix() == Tail(old(Suffix()))
    {
      c := 0;
      if cursor <= |text| {
        c := if cursor < |text| then text[cursor] else 0;
        cursor := cursor + 1;
      }
    }

    method DecodeUTF16Character() returns (c: nat)
      modifies `cursor
      ensures (c, Suffix()) == Decode(old(Suffix()))
    {
      var c1 := GetRawCharacter();
      if c1 < 0xd800 {
        c := c1;
      } else {
        if c1 <= 0xdbff {
          var c2 := GetRawCharacter();
        }
        c := INVALID;
      }
    }

    method ReadUnicode() returns (c: nat)
      modifies `cursor
      ensures (c, Suffix()) == ParseUnicode(old(Suffix()), 0, 0)
    {
      hide ParseUnicode, HexDigit, Decode;
      ghost var t := Suffix();
      var n: nat := 0;
      var acc: nat := 0;
      while true
        invariant 0 <= n <= 8 && ParseUnicode(Suffix(), n, acc) == ParseUnicode(t, 0, 0)
        decreases 9 - n
      {
        UnicodeStep(Suffix(), n, acc);
        var x := DecodeUTF16Character();
        if x == SEMICOLON {
          return acc;
        }
        if x == INVALID || n + 1 >= 9 {
          return INVALID;
        }
        var d := HexDigit(x);
        if d == 16 {
          return INVALID;
        }
        acc := (acc * 16 + d) % 0x10000;
        n := n + 1;
      }
    }

    method GetNextCharacter() returns (c: nat, escaped: bool)
      modifies `cursor
      ensures Read(c, escaped, Suffix()) == Next(old(Suffix()))
    {
      escaped := false;
      c := GetRawCharacter();
      if c == BACKSLASH {
        var e := GetRawCharacter();
        if e in {DOUBLE, SINGLE, COMMA, BACKSLASH, SLASH, EQUALS} {
        } else if e == 't' as int {
          e := TAB;
        } else if e == 'n' as int {
          e := LF;
        } else if e == 'r' as int {
          e := CR;
        } else if e == 'u' as int {
          e := ReadUnicode();
        } else {
          return INVALID, false;
        }
        escaped := true;
        c := e;
      }
    }

    method PopCharacter() returns (c: nat, escaped: bool)
      requires Valid()
      modifies `cursor, `current
      ensures Valid() && current == INVALID && Read(c, escaped, Rest()) == Next(old(Rest()))
    {
      c := current;
      if c != INVALID {
        current := INVALID;
        escaped := currentIsEscaped;
      } else {
        c, escaped := GetNextCharacter();
      }
    }

    /** Gives back the character just read from `from`. Pushing back the invalid character pushes back nothing. */
    method PushCharacter(c: nat, escaped: bool, ghost from: Text)
      requires Valid() && current == INVALID && Next(from) == Read(c, escaped, Rest())
      modifies `current, `currentIsEscaped, `mark
      ensures Valid() && Rest() == if c == INVALID then old(Rest()) else from
    {
      current := c;
      currentIsEscaped := escaped;
      mark := from;
    }

    method TrimTrailingWhiteSpaces(s: Text) returns (r: Text)
      ensures r == Trim(s)
    {
      var n := |s|;
      assert s[..n] == s;
      while n > 0 && IsWhitespace(s[n - 1])
        invariant 0 <= n <= |s| && Trim(s[..n]) == Trim(s)
      {
        assert s[..n][..n - 1] == s[..n - 1];
        n := n - 1;
      }
      r := s[..n];
    }

    method ReadString(permit: bool) returns (l: Lexeme)
      requires Valid()
      modifies this
      ensures Valid() && (l, Rest()) == ParseString(old(Rest()), permit)
    {
      ghost var t := Rest();
      var first := true;
      var quote := INVALID;
      var s: Text := [];
      while true
        invariant Valid() && (first ==> quote == INVALID && s == [] && Rest() == t)
        invariant !first && IsQuote(quote) ==> Scan(Rest(), quote, permit, s) == ParseString(t, permit)
        invariant !first && !IsQuote(quote) ==> quote == INVALID && !IsQuote(Next(t).c)
        invariant !first && !IsQuote(quote) ==> Scan(Rest(), INVALID, permit, s) == Scan(t, INVALID, permit, [])
        decreases |Rest()|, first
      {
        ghost var before := Rest();
        var c, escaped := PopCharacter();
        if c == INVALID { return Bad; }
        if c == 0 {
          if IsQuote(quote) { return Bad; }
          break;
        }
        if first {
          first := false;
          if IsQuote(c) {
            quote := c;
            continue;
          }
        }
        if c == quote { break; }
        if !permit && !escaped && IsQuote(c) && !IsQuote(quote) { return Bad; }
        if IsSeparator(c) && !IsQuote(quote) && !escaped {
          PushCharacter(c, escaped, before);
          break;
        }
        s := s + [c];
      }
      if !IsQuote(quote) { s := TrimTrailingWhiteSpaces(s); }
      l := Str(s);
    }

    /** `GetNextLexeme`, the type of the lexeme and its text. */
    method Lex(permit: bool) returns (l: Lexeme)
      requires Valid()
      modifies this
      ensures Valid() && (l, Rest()) == GetNextLexeme(old(Rest()), permit)
    {
      ghost var t := Rest();
      ghost var before := t;
      var c, escaped := PopCharacter();
      while IsWhitespace(c)
        invariant Valid() && current == INVALID && Next(before) == Read(c, escaped, Rest())
          && SkipSpace(before) == SkipSpace(t)
        decreases |before|
      {
        before := Rest();
        c, escaped := PopCharacter();
      }
      if !escaped {
        if c == EQUALS { return Equal; }
        if c == COMMA { return Comma; }
        if c == 0 { return End; }
      }
      PushCharacter(c, escaped, before);
      l := ReadString(permit);
    }
  }
}
