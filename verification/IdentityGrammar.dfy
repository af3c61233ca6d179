/** What the lexer and the parser of assembly identities accept, said position by position: the characters of a lexeme,
    the lexemes of a list of pairs, the parts of a version (src/binder/stringlexer.cpp and
    src/binder/textualidentityparser.cpp). */
module IdentityGrammar {
  import opened IdentityLexer
  import opened IdentityValues
  import opened IdentityParser
  import opened IdentityPrinter
  import opened IdentityText

  // ---------------------------------------------------------------- characters

  /** The text behind its first `k` characters, and the character that follows them. */
  function After(t: Text, k: nat): Text
    decreases k
  {
    if k == 0 then t else After(Next(t).rest, k - 1)
  }

  function CharAt(t: Text, k: nat): Read {
    Next(After(t, k))
  }

  /** The first `k` characters. */
  function Chars(t: Text, k: nat): (s: Text)
    ensures |s| == k
  {
    seq(k, i requires 0 <= i < k => CharAt(t, i).c)
  }

  /** Without a backslash, characters stand for themselves; the end reads as the end mark. */
  lemma PlainMeans(t: Text)
    ensures t == [] ==> Next(t) == Read(0, false, [])
    ensures t != [] && t[0] != 92 ==> Next(t) == Read(t[0], false, t[1..])
  {
  }

  predicate Blank(c: nat) { c == 32 || c == 9 || c == 10 || c == 13 }

  /** Where a string ends. Text quoted with `q` goes to the next such quote, escaped or not; text without quotes goes to
      a comma or an equals sign that is not escaped, and may not hold a quote unless that is permitted. No string
      goes beyond the end mark or holds an invalid character. */
  predicate Ends(x: Read, q: nat, permit: bool) {
    || x.c == 0xFFFF || x.c == 0
    || (if q == 34 || q == 39 then x.c == q
        else !x.escaped && (x.c == 44 || x.c == 61 || (!permit && (x.c == 34 || x.c == 39))))
  }

  /** The end is a proper one. */
  predicate EndsWell(x: Read, q: nat) {
    if q == 34 || q == 39 then x.c == q else x.c == 0 || x.c == 44 || x.c == 61
  }

  /** The string is the first `k` characters of the text. */
  ghost predicate StringOf(t: Text, q: nat, permit: bool, k: nat, r: (Lexeme, Text)) {
    var x := CharAt(t, k);
    && Ends(x, q, permit) && (forall i | 0 <= i < k :: !Ends(CharAt(t, i), q, permit))
    && if EndsWell(x, q) then r == (Str(Chars(t, k)), if x.c == 44 || x.c == 61 then After(t, k) else After(t, k + 1))
       else r == (Bad, After(t, k + 1))
  }

  lemma AfterMore(t: Text, k: nat)
    ensures After(t, k + 1) == Next(After(t, k)).rest
    decreases k
  {
    hide Next;
    if k > 0 { AfterMore(Next(t).rest, k - 1); }
  }

  lemma {:induction false} ScanMeans(t: Text, q: nat, permit: bool, acc: Text, u: Text, n: nat) returns (k: nat)
    requires (q == 34 || q == 39 || q == 0xFFFF) && t == After(u, n) && acc == Chars(u, n)
    requires forall i | 0 <= i < n :: !Ends(CharAt(u, i), q, permit)
    ensures StringOf(u, q, permit, k, Scan(t, q, permit, acc))
    decreases |t|
  {
    hide Next;
    AfterMore(u, n);
    var x := Next(t);
    if Ends(x, q, permit) {
      k := n;
    } else {
      assert Chars(u, n + 1) == acc + [x.c];
      assert x.c != 0 by { assert t == [] ==> x.c == 0; }
      k := ScanMeans(x.rest, q, permit, acc + [x.c], u, n + 1);
    }
  }

  lemma {:induction false} SpaceMeans(t: Text, u: Text, n: nat) returns (k: nat)
    requires t == After(u, n) && forall i | 0 <= i < n :: Blank(CharAt(u, i).c)
    ensures SkipSpace(t) == After(u, k) && !Blank(CharAt(u, k).c) && forall i | 0 <= i < k :: Blank(CharAt(u, i).c)
    decreases |t|
  {
    hide Next;
    AfterMore(u, n);
    if Blank(Next(t).c) {
      assert t != [];
      k := SpaceMeans(Next(t).rest, u, n + 1);
    } else {
      k := n;
    }
  }

  /** The lexeme at the start of a text, character by character. After `a` blanks, escaped or not, comes a comma, an
      equals sign or the end that is not escaped, or a string; a string begins at the next character (behind it, if it
      is invalid), and behind the quote if there is one; of a string without quotes, trailing blanks are dropped. */
  lemma LexemeMeans(t: Text, permit: bool) returns (a: nat, k: nat)
    ensures !Blank(CharAt(t, a).c) && forall i | 0 <= i < a :: Blank(CharAt(t, i).c)
    ensures var x, r := CharAt(t, a), GetNextLexeme(t, permit);
      if !x.escaped && x.c == 61 then r == (Equal, After(t, a + 1))
      else if !x.escaped && x.c == 44 then r == (Comma, After(t, a + 1))
      else if !x.escaped && x.c == 0 then r == (End, After(t, a + 1))
      else
        var u := if x.c == 0xFFFF then After(t, a + 1) else After(t, a);
        var q := CharAt(u, 0).c;
        if q == 34 || q == 39 then StringOf(After(u, 1), q, permit, k, r)
        else exists s: Lexeme :: StringOf(u, 0xFFFF, permit, k, (s, r.1)) && r.0 == if s.Str? then Str(Trim(s.s)) else s
  {
    hide Next, Scan, SkipSpace;
    a := SpaceMeans(t, t, 0);
    k := 0;
    AfterMore(t, a);
    var x := CharAt(t, a);
    if x.escaped || (x.c != 61 && x.c != 44 && x.c != 0) {
      var u := if x.c == 0xFFFF then After(t, a + 1) else After(t, a);
      var q := CharAt(u, 0).c;
      AfterMore(u, 0);
      assert GetNextLexeme(t, permit) == ParseString(u, permit);
      if q == 34 || q == 39 {
        k := ScanMeans(After(u, 1), q, permit, [], After(u, 1), 0);
      } else {
        k := ScanMeans(u, 0xFFFF, permit, [], u, 0);
        var s := Scan(u, 0xFFFF, permit, []);
        assert StringOf(u, 0xFFFF, permit, k, (s.0, s.1));
      }
    }
  }

  // ---------------------------------------------------------------- lexemes

  /** The text behind its first lexeme. */
  function Behind(t: Text): Text { GetNextLexeme(t, false).1 }

  function First(t: Text): Lexeme { GetNextLexeme(t, false).0 }

  /** The first four lexemes are a comma, an attribute, an equals sign and a value. */
  predicate PairFirst(t: Text) {
    && First(t) == Comma && First(Behind(t)).Str?
    && First(Behind(Behind(t))) == Equal && First(Behind(Behind(Behind(t)))).Str?
  }

  /** The text behind `k` times four lexemes. */
  function LeftAt(t: Text, k: nat): Text
    decreases k
  {
    if k == 0 then t else LeftAt(Behind(Behind(Behind(Behind(t)))), k - 1)
  }

  /** The pair that the first four lexemes make. */
  function FirstPair(t: Text): Pair
    requires PairFirst(t)
  {
    Pair(First(Behind(t)).s, First(Behind(Behind(Behind(t)))).s)
  }

  /** The pairs behind a name: as long as a comma, an attribute, an equals sign and a value come next, they make a pair;
      the text is accepted exactly if the end comes after that. */
  lemma {:induction false} PairsMean(t: Text) returns (n: nat)
    ensures (forall k | 0 <= k < n :: PairFirst(LeftAt(t, k))) && !PairFirst(LeftAt(t, n))
    ensures LexPairs(t).Some? <==> First(LeftAt(t, n)) == End
    ensures LexPairs(t).Some? ==>
      |LexPairs(t).value| == n && forall k | 0 <= k < n :: LexPairs(t).value[k] == FirstPair(LeftAt(t, k))
    decreases |t|
  {
    hide GetNextLexeme, LexPairs, PairFirst, FirstPair, First, Behind;
    PairsStep(t);
    n := 0;
    if PairFirst(t) {
      var u := Behind(Behind(Behind(Behind(t))));
      var m := PairsMean(u);
      n := m + 1;
      forall k | 0 <= k < n ensures PairFirst(LeftAt(t, k)) { if k > 0 { assert LeftAt(t, k) == LeftAt(u, k - 1); } }
      assert LeftAt(t, n) == LeftAt(u, m);
      if LexPairs(t).Some? {
        forall k | 0 <= k < n ensures LexPairs(t).value[k] == FirstPair(LeftAt(t, k)) {
          if k > 0 { assert LeftAt(t, k) == LeftAt(u, k - 1); }
        }
      }
    }
  }

  lemma PairsStep(t: Text)
    ensures First(t) == End ==> LexPairs(t) == Some([]) && !PairFirst(t)
    ensures First(t) != End && !PairFirst(t) ==> LexPairs(t).None?
    ensures PairFirst(t) ==>
      var u := Behind(Behind(Behind(Behind(t))));
      && |u| < |t| && (LexPairs(t).Some? <==> LexPairs(u).Some?)
      && (LexPairs(t).Some? ==> LexPairs(t).value == [FirstPair(t)] + LexPairs(u).value)
  {
    hide GetNextLexeme;
  }

  // ---------------------------------------------------------------- escaping

  /** How many characters of a text have a backslash put before them in quotes of kind `q`. */
  function Escaped(s: Text, q: nat): nat {
    if s == [] then 0
    else (if s[0] == 9 || s[0] == 10 || s[0] == 13 || s[0] == 44 || s[0] == 61 || s[0] == 92 || s[0] == q then 1 else 0)
         + Escaped(s[1..], q)
  }

  lemma {:induction false} EscapedLength(s: Text, q: nat)
    requires q == 34 || q == 39 || (q == 0xFFFF && q !in s)
    ensures |EncAll(s, q)| == |s| + Escaped(s, q)
  {
    if s != [] { EscapedLength(s[1..], q); }
  }

  /** Text is put in quotes exactly if it begins or ends with a blank, and then in double quotes, or holds a quote, and
      then in the other kind than its first one; it gets longer by the quotes and by one for each tab, line end, comma,
      equals sign, backslash and quote of the kind around it. */
  lemma EscapedExactly(s: Text)
    requires s != [] && 0xFFFF !in s
    ensures var q, blank := QuoteFor(s), Blank(s[0]) || Blank(s[|s| - 1]);
      && ((q == 34 || q == 39) <==> blank || 34 in s || 39 in s) && (q != 34 && q != 39 ==> q == 0xFFFF)
      && (blank ==> q == 34)
      && (!blank ==> forall k | 0 <= k < |s| && 34 !in s[..k] && 39 !in s[..k] :: s[k] != q)
      && |Escape(s)| == |s| + Escaped(s, q) + if q == 0xFFFF then 0 else 2
  {
    EscapedLength(s, QuoteFor(s));
    var k := FirstQuote(s);
    if k < |s| { assert forall j | k < j < |s| :: s[k] in s[..j]; } else { assert 34 !in s && 39 !in s; }
  }

  // ---------------------------------------------------------------- versions

  /** The text is cut at `i`, `j` and `k`, which hold dots or end marks. */
  predicate CutAt(s: Text, i: int, j: int, k: int) {
    0 <= i < j < k < |s| && IsDot(s[i]) && IsDot(s[j]) && IsDot(s[k])
  }

  /** Digits, perhaps none, for a number up to 65535. */
  ghost predicate Number(p: Text) {
    (forall i | 0 <= i < |p| :: 48 <= p[i] <= 57) && Value(p) <= 65535
  }

  lemma SplitNone()
    ensures Split([]) == [[]]
  {
  }

  /** The last part of a text is what comes behind the last dot. */
  lemma {:induction false} LastCut(s: Text) returns (i: int)
    ensures -1 <= i < |s| && (i >= 0 ==> IsDot(s[i])) && forall k | i < k < |s| :: !IsDot(s[k])
    ensures if i < 0 then Split(s) == [s] else Split(s) == Split(s[..i]) + [s[i + 1..]]
    decreases |s|
  {
    hide Split, IsDot;
    if s == [] {
      SplitNone();
      i := -1;
    } else {
      var p, c := s[..|s| - 1], s[|s| - 1];
      assert s == p + [c];
      if IsDot(c) {
        SplitStep(p, c);
        i := |s| - 1;
        assert s[i + 1..] == [];
      } else {
        i := LastCut(p);
        assert forall k | i < k < |p| :: s[k] == p[k];
        if i >= 0 { LastLonger(p, c, i); } else { SplitStep(p, c); }
      }
    }
  }

  lemma LastLonger(p: Text, c: nat, i: int)
    requires 0 <= i < |p| && !IsDot(c) && Split(p) == Split(p[..i]) + [p[i + 1..]]
    ensures Split(p + [c]) == Split((p + [c])[..i]) + [(p + [c])[i + 1..]]
  {
    hide Split, IsDot;
    SplitStep(p, c);
    assert (p + [c])[..i] == p[..i] && (p + [c])[i + 1..] == p[i + 1..] + [c];
    assert Split(p)[..|Split(p)| - 1] == Split(p[..i]);
  }

  lemma Slices(s: Text, j: int, k: int)
    requires 0 <= j < k <= |s|
    ensures s[..k][..j] == s[..j] && s[..k][j + 1..] == s[j + 1..k]
  {
  }

  /** The parts behind the last two dots. */
  lemma LastTwo(s: Text) returns (j: int, k: int)
    ensures -1 <= j <= k < |s| && (k >= 0 ==> j < k && IsDot(s[k])) && (j >= 0 ==> IsDot(s[j]))
    ensures forall x | j < x < |s| && x != k :: !IsDot(s[x])
    ensures if k < 0 then Split(s) == [s]
            else if j < 0 then Split(s) == [s[..k]] + [s[k + 1..]]
            else Split(s) == Split(s[..j]) + [s[j + 1..k]] + [s[k + 1..]]
  {
    hide Split, IsDot;
    j := -1;
    k := LastCut(s);
    if k >= 0 {
      j := LastCut(s[..k]);
      assert forall x | 0 <= x < k :: s[..k][x] == s[x];
      if j >= 0 { Slices(s, j, k); }
    }
  }

  lemma CutsSplit(s: Text) returns (i: int, j: int, k: int)
    ensures |Split(s)| == 4 <==>
      CutAt(s, i, j, k) && forall x | 0 <= x < |s| && IsDot(s[x]) :: x == i || x == j || x == k
    ensures |Split(s)| == 4 ==> Split(s) == [s[..i], s[i + 1..j], s[j + 1..k], s[k + 1..]]
    ensures -1 <= i <= j <= k < |s| && (k >= 0 ==> j < k && IsDot(s[k])) && (j >= 0 ==> i < j && IsDot(s[j]))
    ensures (i >= 0 ==> IsDot(s[i])) && forall x | i < x < |s| && x != j && x != k :: !IsDot(s[x])
  {
    hide Split, IsDot;
    i := -1;
    j, k := LastTwo(s);
    if j >= 0 {
      var v := s[..j];
      assert forall x | 0 <= x < j :: v[x] == s[x];
      var h;
      h, i := LastTwo(v);
      if i < 0 {
        assert |Split(s)| == 3;
      } else {
        Slices(s, i, j);
        if h >= 0 {
          assert |Split(s)| >= 5 && IsDot(s[h]) && h < i;
        } else {
          assert Split(s) == [s[..i], s[i + 1..j], s[j + 1..k], s[k + 1..]];
        }
      }
    }
  }

  /** The text is four numbers with dots or end marks at `i`, `j` and `k` between them. */
  ghost predicate VersionAt(s: Text, i: int, j: int, k: int) {
    CutAt(s, i, j, k) && Number(s[..i]) && Number(s[i + 1..j]) && Number(s[j + 1..k]) && Number(s[k + 1..])
  }

  /** A version text is exactly four numbers up to 65535 with a dot between them, and stands for these numbers. */
  lemma VersionMeans(s: Text)
    ensures VersionOf(s).Some? <==> exists i, j, k :: VersionAt(s, i, j, k)
    ensures forall i, j, k | VersionAt(s, i, j, k) ::
      VersionOf(s) == Some([Value(s[..i]), Value(s[i + 1..j]), Value(s[j + 1..k]), Value(s[k + 1..])])
  {
    hide Split, Value, VersionOf;
    var i, j, k := CutsSplit(s);
    VersionHere(s, i, j, k);
    forall i', j', k' | VersionAt(s, i', j', k') ensures i' == i && j' == j && k' == k { OnlyCuts(s, i', j', k'); }
  }

  lemma VersionHere(s: Text, i: int, j: int, k: int)
    requires |Split(s)| == 4 <==>
      CutAt(s, i, j, k) && forall x | 0 <= x < |s| && IsDot(s[x]) :: x == i || x == j || x == k
    requires |Split(s)| == 4 ==> Split(s) == [s[..i], s[i + 1..j], s[j + 1..k], s[k + 1..]]
    ensures VersionOf(s).Some? <==> VersionAt(s, i, j, k)
    ensures VersionOf(s).Some? ==>
      VersionOf(s).value == [Value(s[..i]), Value(s[i + 1..j]), Value(s[j + 1..k]), Value(s[k + 1..])]
  {
    hide Split, Value;
    var p := Split(s);
    if |p| == 4 {
      assert PartsOk(p) <==> PartOk(p[0]) && PartOk(p[1]) && PartOk(p[2]) && PartOk(p[3]);
    } else if VersionAt(s, i, j, k) {
      OnlyCuts(s, i, j, k);
    }
  }

  /** Numbers hold no dots. */
  lemma OnlyCuts(s: Text, i: int, j: int, k: int)
    requires VersionAt(s, i, j, k)
    ensures forall x | 0 <= x < |s| && IsDot(s[x]) :: x == i || x == j || x == k
  {
    hide Value;
    forall x | 0 <= x < |s| && x != i && x != j && x != k ensures !IsDot(s[x]) {
      if x < i { assert s[..i][x] == s[x]; }
      else if x < j { assert s[i + 1..j][x - i - 1] == s[x]; }
      else if x < k { assert s[j + 1..k][x - j - 1] == s[x]; }
      else { assert s[k + 1..][x - k - 1] == s[x]; }
    }
  }

  /** The value of digits: none are zero, zeros in front change nothing, and otherwise they are the decimal form. */
  lemma {:induction false} ValueMeans(p: Text)
    requires forall i | 0 <= i < |p| :: 48 <= p[i] <= 57
    ensures Value([]) == 0 && Value([48] + p) == Value(p)
    ensures p != [] && p[0] != 48 ==> Value(p) > 0 && Decimal(Value(p)) == p
    decreases |p|
  {
    if p == [] {
      assert [48] + p == [48] && [48][..0] == [];
    } else {
      var d, c := p[..|p| - 1], p[|p| - 1];
      ValueMeans(d);
      assert p == d + [c] && [48] + p == ([48] + d) + [c];
      hide Value, Decimal;
      ValueStep(d, c);
      ValueStep([48] + d, c);
      if p[0] != 48 { DecimalStep(d, c); }
    }
  }

  lemma DecimalStep(d: Text, c: nat)
    requires 48 <= c <= 57 && if d == [] then c != 48 && Value(d) == 0 else Value(d) > 0 && Decimal(Value(d)) == d
    ensures Decimal(Value(d) * 10 + (c - 48)) == d + [c]
  {
    hide Value;
    TenTimes(Value(d), c - 48);
  }

  lemma TenTimes(v: nat, x: nat)
    requires x < 10
    ensures Decimal(v * 10 + x) == if v == 0 then [48 + x] else Decimal(v) + [48 + x]
  {
    assert (v * 10 + x) / 10 == v && (v * 10 + x) % 10 == x by { DivTen(v, x); }
  }

  lemma DivTen(v: nat, x: nat)
    requires x < 10
    ensures (v * 10 + x) / 10 == v && (v * 10 + x) % 10 == x
  {
  }
}
