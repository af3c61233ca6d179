/** Version numbers and hexadecimal text in assembly identities (src/binder/textualidentityparser.cpp). */
module IdentityValues {
  import opened IdentityLexer

  datatype Option<T> = None | Some(value: T)

  const DOT: nat := 46
  const ZERO: nat := 48
  const VERSION_MAX: nat := 65535

  // ---------------------------------------------------------------- versions

  predicate IsDigit(c: nat) { ZERO <= c <= ZERO + 9 }

  /** The end mark divides like a dot. */
  predicate IsDot(c: nat) { c == DOT || c == 0 }

  /** The parts of a version text between dots. */
  function Split(s: Text): (p: seq<Text>)
    ensures p != []
  {
    if s == [] then [[]]
    else
      var p, c := Split(s[..|s| - 1]), s[|s| - 1];
      if IsDot(c) then p + [[]] else p[..|p| - 1] + [p[|p| - 1] + [c]]
  }

  ghost predicate Digits(p: Text) {
    forall i | 0 <= i < |p| :: IsDigit(p[i])
  }

  function Value(p: Text): nat {
    if p == [] then 0 else Value(p[..|p| - 1]) * 10 + if p[|p| - 1] >= ZERO then p[|p| - 1] - ZERO else 0
  }

  ghost predicate PartOk(p: Text) {
    Digits(p) && Value(p) <= VERSION_MAX
  }

  ghost predicate PartsOk(ps: seq<Text>) {
    forall k | 0 <= k < |ps| :: PartOk(ps[k])
  }

  /** A version is four parts, each a number up to 65535; an empty part counts as zero. */
  ghost predicate IsVersion(s: Text) {
    |Split(s)| == 4 && PartsOk(Split(s))
  }

  function Values(ps: seq<Text>): seq<nat> {
    seq(|ps|, k requires 0 <= k < |ps| => Value(ps[k]))
  }

  ghost function VersionOf(s: Text): Option<seq<nat>> {
    if IsVersion(s) then Some(Values(Split(s))) else None
  }

  /** A text with a bad part stays bad, and parts never become fewer, when more is read. */
  lemma {:induction false} SplitGrows(s: Text, i: nat)
    requires i <= |s|
    ensures |Split(s[..i])| <= |Split(s)| && (PartsOk(Split(s)) ==> PartsOk(Split(s[..i])))
    decreases |s| - i
  {
    if i == |s| {
      assert s[..i] == s;
    } else {
      hide Split, PartOk;
      SplitGrows(s, i + 1);
      SplitStep(s[..i], s[i]);
      assert s[..i + 1] == s[..i] + [s[i]];
      if PartsOk(Split(s)) {
        var p, p' := Split(s[..i]), Split(s[..i + 1]);
        forall k | 0 <= k < |p| ensures PartOk(p[k]) {
          assert PartOk(p'[k]);
          if k == |p| - 1 && !IsDot(s[i]) { PartShorter(p[k], s[i]); }
        }
      }
    }
  }

  lemma SplitStep(s: Text, c: nat)
    ensures Split(s + [c])
      == if IsDot(c) then Split(s) + [[]] else Split(s)[..|Split(s)| - 1] + [Split(s)[|Split(s)| - 1] + [c]]
  {
    assert (s + [c])[..|s|] == s;
  }

  lemma ValueStep(p: Text, c: nat)
    requires IsDigit(c)
    ensures Value(p + [c]) == Value(p) * 10 + (c - ZERO)
  {
    assert (p + [c])[..|p|] == p;
  }

  lemma PartShorter(p: Text, c: nat)
    requires PartOk(p + [c])
    ensures PartOk(p)
  {
    assert (p + [c])[|p|] == c;
    ValueStep(p, c);
    forall i | 0 <= i < |p| ensures IsDigit(p[i]) { assert (p + [c])[i] == p[i]; }
  }

  /** The numbers read so far and the one being read. */
  ghost predicate Reading(s: Text, i: nat, found: seq<nat>, number: nat) {
    i <= |s| &&
    var ps := Split(s[..i]);
    && |ps| == |found| + 1 && PartsOk(ps) && number == Value(ps[|found|])
    && forall k | 0 <= k < |found| :: found[k] == Value(ps[k])
  }

  lemma ReadDot(s: Text, i: nat, found: seq<nat>, number: nat)
    requires Reading(s, i, found, number) && i < |s| && IsDot(s[i])
    ensures Reading(s, i + 1, found + [number], 0)
  {
    NoDigits();
    hide Split, PartOk, Value;
    SplitStep(s[..i], s[i]);
    assert s[..i + 1] == s[..i] + [s[i]];
  }

  lemma NoDigits()
    ensures PartOk([]) && Value([]) == 0
  {
  }

  lemma ReadDigit(s: Text, i: nat, found: seq<nat>, number: nat)
    requires Reading(s, i, found, number) && i < |s| && IsDigit(s[i]) && number * 10 + (s[i] - ZERO) <= VERSION_MAX
    ensures Reading(s, i + 1, found, number * 10 + (s[i] - ZERO))
  {
    hide Split, Value;
    var ps := Split(s[..i]);
    var p := ps[|found|];
    SplitStep(s[..i], s[i]);
    assert s[..i + 1] == s[..i] + [s[i]];
    assert PartOk(p);
    ValueStep(p, s[i]);
    assert PartOk(p + [s[i]]);
  }

  lemma ReadBad(s: Text, i: nat, found: seq<nat>, number: nat)
    requires Reading(s, i, found, number) && i < |s| && !IsDot(s[i])
    requires !IsDigit(s[i]) || number * 10 + (s[i] - ZERO) > VERSION_MAX
    ensures !IsVersion(s)
  {
    hide Split, Value;
    var p := Split(s[..i])[|found|];
    SplitStep(s[..i], s[i]);
    assert s[..i + 1] == s[..i] + [s[i]];
    assert Split(s[..i + 1])[|found|] == p + [s[i]];
    assert !PartOk(p + [s[i]]) by {
      if IsDigit(s[i]) { ValueStep(p, s[i]); } else { assert (p + [s[i]])[|p|] == s[i]; }
    }
    SplitGrows(s, i + 1);
  }

  method ParseVersion(s: Text) returns (r: Option<seq<nat>>)
    ensures r == VersionOf(s)
  {
    hide Reading, IsVersion;
    var found: seq<nat> := [];
    var number: nat := 0;
    VersionEdges(s, found, number);
    if s == [] { return None; }
    var i: nat := 0;
    while i < |s|
      invariant i <= |s| && Reading(s, i, found, number) && |found| <= 4
    {
      if |found| >= 4 {
        TooMany(s, i, found, number);
        return None;
      }
      if IsDot(s[i]) {
        ReadDot(s, i, found, number);
        found, number := found + [number], 0;
      } else {
        if !IsDigit(s[i]) {
          ReadBad(s, i, found, number);
          return None;
        }
        var next := number * 10 + (s[i] - ZERO);
        if next > VERSION_MAX {
          ReadBad(s, i, found, number);
          return None;
        }
        ReadDigit(s, i, found, number);
        number := next;
      }
      i := i + 1;
    }
    ReadAll(s, found, number);
    if |found| >= 4 { return None; }
    found := found + [number];
    if |found| != 4 { return None; }
    return Some(found);
  }

  lemma VersionEdges(s: Text, found: seq<nat>, number: nat)
    requires found == [] && number == 0
    ensures Reading(s, 0, found, number) && (s == [] ==> !IsVersion(s))
  {
    assert s[..0] == [];
  }

  lemma TooMany(s: Text, i: nat, found: seq<nat>, number: nat)
    requires Reading(s, i, found, number) && |found| >= 4
    ensures !IsVersion(s)
  {
    SplitGrows(s, i);
  }

  lemma ReadAll(s: Text, found: seq<nat>, number: nat)
    requires Reading(s, |s|, found, number)
    ensures IsVersion(s) <==> |found| == 3
    ensures IsVersion(s) ==> Values(Split(s)) == found + [number]
  {
    assert s[..|s|] == s;
  }

  // ---------------------------------------------------------------- printing versions

  function Decimal(n: nat): (t: Text)
    ensures t != []
  {
    if n < 10 then [ZERO + n] else Decimal(n / 10) + [ZERO + n % 10]
  }

  lemma {:induction false} DecimalValue(n: nat)
    ensures Digits(Decimal(n)) && Value(Decimal(n)) == n
  {
    if n < 10 {
      ValueStep([], ZERO + n);
      assert [] + [ZERO + n] == [ZERO + n];
    } else {
      DecimalValue(n / 10);
      ValueStep(Decimal(n / 10), ZERO + n % 10);
    }
  }

  /** The text of a version (`ToString`). */
  function PrintVersion(v: seq<nat>): Text
    requires |v| == 4
  {
    Decimal(v[0]) + [DOT] + Decimal(v[1]) + [DOT] + Decimal(v[2]) + [DOT] + Decimal(v[3])
  }

  /** A list of parts with more text on the last one. */
  function Extended(p: seq<Text>, d: Text): seq<Text>
    requires p != []
  {
    p[..|p| - 1] + [p[|p| - 1] + d]
  }

  lemma ExtendedMore(p: seq<Text>, e: Text, c: nat)
    requires p != []
    ensures Extended(p, []) == p && Extended(Extended(p, e), [c]) == Extended(p, e + [c])
  {
    assert p[|p| - 1] + [] == p[|p| - 1];
    assert p[|p| - 1] + (e + [c]) == p[|p| - 1] + e + [c];
  }

  lemma {:induction false} SplitAppend(s: Text, d: Text)
    requires Digits(d)
    ensures Split(s + d) == Extended(Split(s), d)
  {
    hide Split, Extended;
    if d == [] {
      assert s + d == s;
      ExtendedMore(Split(s), d, 0);
    } else {
      var e, c := d[..|d| - 1], d[|d| - 1];
      SplitAppend(s, e);
      assert s + d == s + e + [c] && d == e + [c];
      SplitDigit(s + e, c);
      ExtendedMore(Split(s), e, c);
    }
  }

  lemma SplitDigit(s: Text, c: nat)
    requires IsDigit(c)
    ensures Split(s + [c]) == Extended(Split(s), [c])
  {
    SplitStep(s, c);
  }

  /** Reading a printed version gives the version back. */
  lemma VersionRoundTrip(v: seq<nat>)
    requires |v| == 4 && forall k | 0 <= k < 4 :: v[k] <= VERSION_MAX
    ensures VersionOf(PrintVersion(v)) == Some(v)
  {
    hide Split, Value, Decimal, Digits;
    var ps := [Decimal(v[0]), Decimal(v[1]), Decimal(v[2]), Decimal(v[3])];
    forall k | 0 <= k < 4 ensures PartOk(ps[k]) && Value(ps[k]) == v[k] { DecimalValue(v[k]); }
    assert Split(PrintVersion(v)) == ps by { PrintedParts(ps[0], ps[1], ps[2], ps[3]); }
    assert Values(ps) == v;
  }

  lemma PrintedParts(a: Text, b: Text, c: Text, d: Text)
    requires Digits(a) && Digits(b) && Digits(c) && Digits(d)
    ensures Split(a + [DOT] + b + [DOT] + c + [DOT] + d) == [a, b, c, d]
  {
    hide Split, Digits;
    FirstPart(a);
    NextPart(a, [a], b);
    NextPart(a + [DOT] + b, [a, b], c);
    NextPart(a + [DOT] + b + [DOT] + c, [a, b, c], d);
  }

  lemma FirstPart(a: Text)
    requires Digits(a)
    ensures Split(a) == [a]
  {
    SplitAppend([], a);
    assert [] + a == a;
  }

  lemma NextPart(s: Text, ps: seq<Text>, d: Text)
    requires Split(s) == ps && Digits(d)
    ensures Split(s + [DOT] + d) == ps + [d]
  {
    SplitStep(s, DOT);
    SplitAppend(s + [DOT], d);
    assert [] + d == d;
  }

  // ---------------------------------------------------------------- hexadecimal text

  predicate IsHex(c: nat) { HexDigit(c) < 16 }

  function ToHexDigit(v: nat): nat
    requires v < 16
  {
    if v >= 10 then 'a' as int + v - 10 else ZERO + v
  }

  /** `BlobToHex`. */
  function ToHex(b: seq<nat>): Text
    requires forall i | 0 <= i < |b| :: b[i] < 256
  {
    if b == [] then [] else ToHex(b[..|b| - 1]) + [ToHexDigit(b[|b| - 1] / 16), ToHexDigit(b[|b| - 1] % 16)]
  }

  /** `ValidateHex`. */
  ghost predicate ValidHex(t: Text) {
    t != [] && |t| % 2 == 0 && forall i | 0 <= i < |t| :: IsHex(t[i])
  }

  /** `HexToBlob` on valid text. */
  function FromHex(t: Text): seq<nat> {
    if |t| < 2 then [] else FromHex(t[..|t| - 2]) + [HexDigit(t[|t| - 2]) * 16 + HexDigit(t[|t| - 1])]
  }

  lemma ToHexDigitIs(v: nat)
    requires v < 16
    ensures HexDigit(ToHexDigit(v)) == v
  {
  }

  lemma {:induction false} HexIsValid(b: seq<nat>)
    requires forall i | 0 <= i < |b| :: b[i] < 256
    ensures |ToHex(b)| == 2 * |b| && forall i | 0 <= i < |ToHex(b)| :: IsHex(ToHex(b)[i])
  {
    if b != [] {
      var x := b[|b| - 1];
      HexIsValid(b[..|b| - 1]);
      ToHexDigitIs(x / 16);
      ToHexDigitIs(x % 16);
    }
  }

  /** Reading printed bytes gives the bytes back. */
  lemma {:induction false} HexRoundTrip(b: seq<nat>)
    requires forall i | 0 <= i < |b| :: b[i] < 256
    ensures FromHex(ToHex(b)) == b
  {
    if b != [] {
      hide HexDigit, ToHexDigit;
      var d, x := b[..|b| - 1], b[|b| - 1];
      HexRoundTrip(d);
      ToHexDigitIs(x / 16);
      ToHexDigitIs(x % 16);
      var t := ToHex(b);
      assert t[..|t| - 2] == ToHex(d) && t[|t| - 2] == ToHexDigit(x / 16) && t[|t| - 1] == ToHexDigit(x % 16);
      assert b == d + [x];
    }
  }

  method BlobToHex(b: seq<nat>) returns (t: Text)
    requires forall i | 0 <= i < |b| :: b[i] < 256
    ensures t == ToHex(b)
  {
    t := [];
    var x := 0;
    while x < |b|
      invariant 0 <= x <= |b| && t == ToHex(b[..x])
    {
      assert b[..x + 1][..x] == b[..x];
      t := t + [ToHexDigit(b[x] / 16), ToHexDigit(b[x] % 16)];
      x := x + 1;
    }
    assert b[..x] == b;
  }

  method ValidateHex(t: Text) returns (ok: bool)
    ensures ok == ValidHex(t)
  {
    if |t| == 0 || |t| % 2 != 0 { return false; }
    var i := 0;
    while i < |t|
      invariant 0 <= i <= |t| && forall k | 0 <= k < i :: IsHex(t[k])
    {
      if !IsHex(t[i]) { return false; }
      i := i + 1;
    }
    return true;
  }

  method HexToBlob(t: Text) returns (b: seq<nat>)
    requires ValidHex(t)
    ensures b == FromHex(t) && |b| == |t| / 2 && forall i | 0 <= i < |b| :: b[i] < 256
  {
    b := [];
    var i := 0;
    while i < |t| - 1
      invariant 0 <= i <= |t| && i % 2 == 0 && b == FromHex(t[..i]) && |b| == i / 2
      invariant forall k | 0 <= k < |b| :: b[k] < 256
    {
      assert t[..i + 2][..i] == t[..i];
      b := b + [HexDigit(t[i]) * 16 + HexDigit(t[i + 1])];
      i := i + 2;
    }
    assert t[..i] == t;
  }

  /** Bytes are printed as pairs of digits, the high half first, in lower case. */
  lemma {:induction false} HexPrinted(b: seq<nat>, i: nat)
    requires (forall k | 0 <= k < |b| :: b[k] < 256) && i < |b|
    ensures |ToHex(b)| == 2 * |b|
    ensures ToHex(b)[2 * i] == Lit("0123456789abcdef")[b[i] / 16]
      && ToHex(b)[2 * i + 1] == Lit("0123456789abcdef")[b[i] % 16]
  {
    var last := |b| - 1;
    DigitPrinted(b[last] / 16);
    DigitPrinted(b[last] % 16);
    hide ToHexDigit;
    var p := b[..last];
    if p == [] {
      assert ToHex(p) == [];
    } else {
      HexPrinted(p, if i < last then i else 0);
    }
  }

  lemma DigitPrinted(v: nat)
    requires v < 16
    ensures ToHexDigit(v) == Lit("0123456789abcdef")[v]
  {
    assert Lit("0123456789abcdef")[v] == "0123456789abcdef"[v] as int;
  }

  /** A hexadecimal digit of either case stands for its place in the row of digits. */
  lemma DigitRead(c: nat, v: nat)
    requires v < 16
    ensures HexDigit(c) == v <==> c == Lit("0123456789abcdef")[v] || c == Lit("0123456789ABCDEF")[v]
  {
    assert Lit("0123456789abcdef")[v] == "0123456789abcdef"[v] as int
        && Lit("0123456789ABCDEF")[v] == "0123456789ABCDEF"[v] as int;
  }

  /** Reading bytes: the first digit of a pair is the high half. */
  lemma {:induction false} HexRead(t: Text, i: nat)
    requires |t| % 2 == 0 && 2 * i < |t|
    ensures |FromHex(t)| == |t| / 2 && FromHex(t)[i] == HexDigit(t[2 * i]) * 16 + HexDigit(t[2 * i + 1])
  {
    var p := t[..|t| - 2];
    if p == [] {
      assert FromHex(p) == [];
    } else {
      HexRead(p, if 2 * i < |p| then i else 0);
    }
  }
}
