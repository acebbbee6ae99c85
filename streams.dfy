/**
 * What `std::istringstream` extraction does on one line, in the "C"
 * locale: `>> std::string` skips white space and takes the longest run of
 * non-white characters; `>> double` skips white space and accumulates the
 * longest prefix of the shape [sign] digits [. digits] [e [sign] digits]
 * (the exponent only after a mantissa digit), then fails unless the
 * mantissa has a digit and a started exponent has one. A stream is the
 * string of characters not yet consumed.
 */
module Streams {
  import opened Wrappers
  import opened Text

  /** `isspace` in the "C" locale: space, \t, \n, \v, \f, \r. */
  predicate IsSpace(c: char) {
    c == ' ' || c == '\t' || c == '\n' || c == '\U{B}' || c == '\U{C}' || c == '\r'
  }

  /** The first index at or after `i` that is not white space (or |s|). */
  function SkipSpaces(s: string, i: nat): (j: nat)
    requires i <= |s|
    ensures i <= j <= |s|
    ensures forall k | i <= k < j :: IsSpace(s[k])
    ensures j < |s| ==> !IsSpace(s[j])
    decreases |s| - i
  {
    if i < |s| && IsSpace(s[i]) then SkipSpaces(s, i + 1) else i
  }

  /** The end of the run of non-white characters starting at `i`. */
  function WordEnd(s: string, i: nat): (j: nat)
    requires i <= |s|
    ensures i <= j <= |s|
    ensures forall k | i <= k < j :: !IsSpace(s[k])
    ensures j < |s| ==> IsSpace(s[j])
    decreases |s| - i
  {
    if i < |s| && !IsSpace(s[i]) then WordEnd(s, i + 1) else i
  }

  /** The end of the run of decimal digits starting at `i`. */
  function DigitsEnd(s: string, i: nat): (j: nat)
    requires i <= |s|
    ensures i <= j <= |s|
    ensures forall k | i <= k < j :: IsDigit(s[k])
    ensures j < |s| ==> !IsDigit(s[j])
    decreases |s| - i
  {
    if i < |s| && IsDigit(s[i]) then DigitsEnd(s, i + 1) else i
  }

  /**
   * `stream >> word`: None when only white space is left (the extraction
   * fails); otherwise the word and the remaining stream.
   */
  function ReadWord(s: string): (r: Option<(string, string)>)
    ensures r.None? <==> forall k | 0 <= k < |s| :: IsSpace(s[k])
    ensures r.Some? ==>
      var (w, rest) := r.value;
      && |w| > 0
      && |w| + |rest| <= |s|
      && (forall k | 0 <= k < |w| :: !IsSpace(w[k]))
      && (forall k | 0 <= k < |s| - |w| - |rest| :: IsSpace(s[k]))
      && s[|s| - |w| - |rest|..|s| - |rest|] == w
      && s[|s| - |rest|..] == rest
      && (rest == [] || IsSpace(rest[0]))
  {
    var i := SkipSpaces(s, 0);
    if i == |s| then None
    else
      var j := WordEnd(s, i);
      Some((s[i..j], s[j..]))
  }

  /**
   * The word a failed-or-not extraction leaves in a fresh `std::string`
   * (empty on failure), with the stream after it. After a failure nothing
   * but white space was left, so an empty stream stands for it.
   */
  function WordOrEmpty(s: string): (r: (string, string))
    ensures |r.1| <= |s|
    ensures r.0 == [] ==> r.1 == []
  {
    match ReadWord(s)
    case None => ("", "")
    case Some(p) => p
  }

  /** The value of a digit, 0 for any other character. */
  function DigitValue(c: char): (d: nat)
    ensures d < 10
  {
    if IsDigit(c) then c as int - '0' as int else 0
  }

  /** The number a string of decimal digits denotes (0 for the empty string). */
  function DigitsValue(ds: string): nat {
    if ds == [] then 0 else 10 * DigitsValue(ds[..|ds| - 1]) + DigitValue(ds[|ds| - 1])
  }

  /** digits × 10^exponent, exactly. */
  function Scaled(digits: nat, exponent: int): (x: real)
    ensures x >= 0.0
    decreases if exponent >= 0 then exponent else -exponent
  {
    if exponent == 0 then digits as real
    else if exponent > 0 then 10.0 * Scaled(digits, exponent - 1)
    else Scaled(digits, exponent + 1) / 10.0
  }

  /**
   * The characters `>> double` accumulates, as positions in `s`:
   * the sign, integer digits s[intStart..intEnd], fraction digits
   * s[fracStart..fracEnd] and exponent digits s[expStart..expEnd].
   */
  datatype Lexeme = Lexeme(
    negative: bool,
    intStart: nat, intEnd: nat,
    fracStart: nat, fracEnd: nat,
    hasExp: bool, expNegative: bool,
    expStart: nat, expEnd: nat)

  /** The exponent part, scanned from position `d` once a mantissa digit was seen. */
  function ScanExponent(s: string, d: nat, mantissa: bool): (x: (bool, bool, nat, nat))
    requires d <= |s|
    ensures d <= x.2 <= x.3 <= |s|
    ensures !x.0 ==> x.2 == x.3 == d
    ensures x.0 ==> d < x.2
  {
    if mantissa && d < |s| && (s[d] == 'e' || s[d] == 'E') then
      var e := d + 1;
      var signed := e < |s| && (s[e] == '+' || s[e] == '-');
      var f := if signed then e + 1 else e;
      (true, signed && s[e] == '-', f, DigitsEnd(s, f))
    else (false, false, d, d)
  }

  /** Integer digits from `a`, an optional point, fraction digits: their three end positions. */
  function ScanMantissa(s: string, a: nat): (x: (nat, nat, nat))
    requires a <= |s|
    ensures a <= x.0 <= x.1 <= x.2 <= |s|
    ensures x.1 == x.0 || x.1 == x.0 + 1
  {
    var b := DigitsEnd(s, a);
    var c := if b < |s| && s[b] == '.' then b + 1 else b;
    (b, c, DigitsEnd(s, c))
  }

  function ScanNumber(s: string): (x: Lexeme)
    ensures x.intStart <= x.intEnd <= x.fracStart <= x.fracEnd <= x.expStart <= x.expEnd <= |s|
    ensures !x.hasExp ==> x.expStart == x.expEnd == x.fracEnd
    ensures x.hasExp ==> x.fracEnd < x.expStart
    ensures x.fracStart == x.intEnd || x.fracStart == x.intEnd + 1
  {
    var i := SkipSpaces(s, 0);
    var signed := i < |s| && (s[i] == '+' || s[i] == '-');
    var a := if signed then i + 1 else i;
    var m := ScanMantissa(s, a);
    var ex := ScanExponent(s, m.2, m.0 > a || m.2 > m.1);
    Lexeme(signed && s[i] == '-', a, m.0, m.1, m.2, ex.0, ex.1, ex.2, ex.3)
  }

  /** strtod accepts the accumulated text: a mantissa digit, and exponent digits if an exponent began. */
  predicate Accepted(x: Lexeme) {
    (x.intEnd > x.intStart || x.fracEnd > x.fracStart) && (!x.hasExp || x.expEnd > x.expStart)
  }

  /** The exact value of an accepted lexeme. */
  function LexemeValue(s: string, x: Lexeme): real
    requires x.intStart <= x.intEnd <= x.fracStart <= x.fracEnd <= x.expStart <= x.expEnd <= |s|
  {
    var digits := DigitsValue(s[x.intStart..x.intEnd] + s[x.fracStart..x.fracEnd]);
    var written: int := DigitsValue(s[x.expStart..x.expEnd]);
    var exponent := (if x.expNegative then -written else written) - (x.fracEnd - x.fracStart);
    var magnitude := Scaled(digits, exponent);
    if x.negative then -magnitude else magnitude
  }

  /**
   * `stream >> value` for a `double`: None when the extraction fails,
   * otherwise the value read and the remaining stream. Values are exact
   * reals (rounding to a double and overflow are not modelled).
   */
  function ReadNumber(s: string): (r: Option<(real, string)>)
    ensures r.Some? ==> |r.value.1| < |s| && r.value.1 == s[|s| - |r.value.1|..]
  {
    var x := ScanNumber(s);
    if Accepted(x) then
      assert 0 < x.expEnd;
      Some((LexemeValue(s, x), s[x.expEnd..]))
    else None
  }

  // ------------------------------------------------------------ round trips

  /** A run of white space. */
  predicate Blank(pad: string) {
    forall k | 0 <= k < |pad| :: IsSpace(pad[k])
  }

  /** A token the way the handlers expect one: non-empty, no white space. */
  predicate Word(w: string) {
    |w| > 0 && forall k | 0 <= k < |w| :: !IsSpace(w[k])
  }

  /** What may follow a token without joining it: nothing, or white space. */
  predicate Separated(rest: string) {
    rest == [] || IsSpace(rest[0])
  }

  lemma {:induction false} SkipSpacesStops(s: string, i: nat, m: nat)
    requires i <= m <= |s|
    requires forall k | i <= k < m :: IsSpace(s[k])
    requires m == |s| || !IsSpace(s[m])
    ensures SkipSpaces(s, i) == m
    decreases m - i
  {
    if i < m {
      SkipSpacesStops(s, i + 1, m);
    }
  }

  lemma {:induction false} WordEndStops(s: string, i: nat, m: nat)
    requires i <= m <= |s|
    requires forall k | i <= k < m :: !IsSpace(s[k])
    requires m == |s| || IsSpace(s[m])
    ensures WordEnd(s, i) == m
    decreases m - i
  {
    if i < m {
      WordEndStops(s, i + 1, m);
    }
  }

  lemma SkipSpacesOver(pad: string, s: string)
    requires Blank(pad)
    requires s == [] || !IsSpace(s[0])
    ensures SkipSpaces(pad + s, 0) == |pad|
  {
    SkipSpacesStops(pad + s, 0, |pad|);
  }

  lemma WordEndOver(pad: string, w: string, rest: string)
    requires Word(w) && Separated(rest)
    ensures WordEnd(pad + w + rest, |pad|) == |pad| + |w|
  {
    var s := pad + w + rest;
    assert forall k | |pad| <= k < |pad| + |w| :: s[k] == w[k - |pad|];
    WordEndStops(s, |pad|, |pad| + |w|);
  }

  /** `>> word` reads back a token written after white space. */
  lemma ReadWordRendered(pad: string, w: string, rest: string)
    requires Blank(pad) && Word(w) && Separated(rest)
    ensures ReadWord(pad + w + rest) == Some((w, rest))
  {
    var s := pad + w + rest;
    assert pad + w + rest == pad + (w + rest);
    SkipSpacesOver(pad, w + rest);
    WordEndOver(pad, w, rest);
    assert s[|pad|..|pad| + |w|] == w;
    assert s[|pad| + |w|..] == rest;
  }

  /** The text `std::to_string` gives an integer. */
  function IntText(v: int): string {
    if v < 0 then "-" + NatToString(-v) else NatToString(v)
  }

  lemma {:induction false} DigitsValueOfNatToString(n: nat)
    ensures DigitsValue(NatToString(n)) == n
  {
    if n >= 10 {
      DigitsValueOfNatToString(n / 10);
      var ds := NatToString(n);
      assert ds[..|ds| - 1] == NatToString(n / 10);
    }
  }

  lemma {:induction false} DigitsEndOver(s: string, a: nat, n: nat)
    requires a + n <= |s|
    requires forall k | a <= k < a + n :: IsDigit(s[k])
    requires a + n == |s| || !IsDigit(s[a + n])
    ensures DigitsEnd(s, a) == a + n
    decreases n
  {
    if n > 0 {
      DigitsEndOver(s, a + 1, n - 1);
    }
  }

  /** A run of digits `s[a..e]` followed by neither a digit nor a point is the whole mantissa. */
  lemma MantissaOfDigits(s: string, a: nat, e: nat)
    requires a <= e <= |s|
    requires forall k | a <= k < e :: IsDigit(s[k])
    requires e == |s| || (!IsDigit(s[e]) && s[e] != '.')
    ensures ScanMantissa(s, a) == (e, e, e)
  {
    DigitsEndOver(s, a, e - a);
    DigitsEndOver(s, e, 0);
  }

  /** The lexeme of a run of digits `s[a..e]` after white space and an optional minus sign. */
  lemma ScanAt(s: string, i: nat, a: nat, e: nat)
    requires i <= a < e <= |s|
    requires SkipSpaces(s, 0) == i
    requires a == i || (a == i + 1 && s[i] == '-')
    requires forall k | a <= k < e :: IsDigit(s[k])
    requires e == |s| || IsSpace(s[e])
    ensures ScanNumber(s) == Lexeme(a == i + 1, a, e, e, e, false, false, e, e)
  {
    assert a == i ==> IsDigit(s[i]);
    MantissaOfDigits(s, a, e);
  }

  /** A lexeme of integer digits `s[a..e]` only, equal to `ds`, denotes them. */
  lemma IntegerLexemeValue(s: string, negative: bool, a: nat, e: nat, ds: string)
    requires a <= e <= |s| && s[a..e] == ds
    ensures LexemeValue(s, Lexeme(negative, a, e, e, e, false, false, e, e))
         == if negative then -(DigitsValue(ds) as real) else DigitsValue(ds) as real
  {
    assert s[a..e] + s[e..e] == ds;
    assert s[e..e] == [];
  }

  /** What `>> value` reads from a run of digits `s[a..e]` after white space and an optional minus sign. */
  lemma ReadAt(s: string, i: nat, a: nat, e: nat)
    requires i <= a < e <= |s|
    requires SkipSpaces(s, 0) == i
    requires a == i || (a == i + 1 && s[i] == '-')
    requires forall k | a <= k < e :: IsDigit(s[k])
    requires e == |s| || IsSpace(s[e])
    ensures ReadNumber(s) == Some((LexemeValue(s, Lexeme(a == i + 1, a, e, e, e, false, false, e, e)), s[e..]))
  {
    ScanAt(s, i, a, e);
  }

  lemma Regroup(a: string, b: string, c: string, d: string)
    ensures a + b + c + d == a + (b + c + d)
  {
  }

  /** Where the pieces of `pad + sign + ds + rest` sit in the concatenation. */
  lemma RenderedLayout(pad: string, sign: string, ds: string, rest: string)
    requires Blank(pad) && (sign == "" || sign == "-") && Separated(rest)
    requires |ds| > 0 && forall k | 0 <= k < |ds| :: IsDigit(ds[k])
    ensures var s, a := pad + sign + ds + rest, |pad| + |sign|;
      && SkipSpaces(s, 0) == |pad|
      && (a == |pad| || (a == |pad| + 1 && s[|pad|] == '-'))
      && (a == |pad| + 1) == (sign == "-")
      && s[a..a + |ds|] == ds && s[a + |ds|..] == rest
  {
    var s := pad + sign + ds + rest;
    var a := |pad| + |sign|;
    Regroup(pad, sign, ds, rest);
    SkipSpacesOver(pad, sign + ds + rest);
    assert s[a..a + |ds|] == ds;
    assert s[a + |ds|..] == rest;
  }

  /** A slice equal to a digit string followed by a separated rest satisfies the layout `ReadAt` needs. */
  lemma DigitsLayout(s: string, a: nat, ds: string, rest: string)
    requires a + |ds| <= |s| && s[a..a + |ds|] == ds && s[a + |ds|..] == rest && Separated(rest)
    requires forall k | 0 <= k < |ds| :: IsDigit(ds[k])
    ensures forall k | a <= k < a + |ds| :: IsDigit(s[k])
    ensures a + |ds| == |s| || IsSpace(s[a + |ds|])
  {
    assert forall k | a <= k < a + |ds| :: s[k] == ds[k - a];
    assert a + |ds| < |s| ==> s[a + |ds|] == rest[0];
  }

  /** Once `>> value` is known to read the integer lexeme `s[a..e]`, the value read is that of its digits `ds`. */
  lemma ReadInteger(s: string, negative: bool, a: nat, e: nat, ds: string, rest: string)
    requires a <= e <= |s| && s[a..e] == ds && s[e..] == rest
    requires ReadNumber(s) == Some((LexemeValue(s, Lexeme(negative, a, e, e, e, false, false, e, e)), s[e..]))
    ensures ReadNumber(s) == Some((if negative then -(DigitsValue(ds) as real) else DigitsValue(ds) as real, rest))
  {
    IntegerLexemeValue(s, negative, a, e, ds);
    SameRead(ReadNumber(s), LexemeValue(s, Lexeme(negative, a, e, e, e, false, false, e, e)),
             if negative then -(DigitsValue(ds) as real) else DigitsValue(ds) as real, s[e..], rest);
  }

  lemma SameRead(r: Option<(real, string)>, v1: real, v2: real, t1: string, t2: string)
    requires r == Some((v1, t1)) && v1 == v2 && t1 == t2
    ensures r == Some((v2, t2))
  {
  }

  /** `>> value` reads back a run of digits, optionally after a minus sign, written after white space. */
  lemma ReadDigitsRendered(pad: string, sign: string, ds: string, rest: string)
    requires Blank(pad) && (sign == "" || sign == "-") && Separated(rest)
    requires |ds| > 0 && forall k | 0 <= k < |ds| :: IsDigit(ds[k])
    ensures ReadNumber(pad + sign + ds + rest) == Some((if sign == "-" then -(DigitsValue(ds) as real) else DigitsValue(ds) as real, rest))
  {
    var s, a := pad + sign + ds + rest, |pad| + |sign|;
    RenderedLayout(pad, sign, ds, rest);
    DigitsLayout(s, a, ds, rest);
    ReadAt(s, |pad|, a, a + |ds|);
    ReadInteger(s, a == |pad| + 1, a, a + |ds|, ds, rest);
  }

  /** The rendering of an integer is an optional minus sign followed by the digits of its magnitude. */
  lemma IntTextParts(pad: string, v: int, rest: string)
    ensures var sign, ds := if v < 0 then "-" else "", NatToString(if v < 0 then -v else v);
      pad + IntText(v) + rest == pad + sign + ds + rest
  {
    var sign, ds := if v < 0 then "-" else "", NatToString(if v < 0 then -v else v);
    assert IntText(v) == sign + ds;
    Regroup(pad, sign, ds, rest);
  }

  /** `>> value` reads back an integer written after white space, as an exact real. */
  lemma ReadNumberRendered(pad: string, v: int, rest: string)
    requires Blank(pad) && Separated(rest)
    ensures ReadNumber(pad + IntText(v) + rest) == Some((v as real, rest))
  {
    var magnitude: nat := if v < 0 then -v else v;
    var sign, ds := if v < 0 then "-" else "", NatToString(magnitude);
    IntTextParts(pad, v, rest);
    ReadDigitsRendered(pad, sign, ds, rest);
    DigitsValueOfNatToString(magnitude);
  }

  /** An extraction meets a character no number can start with: `>> value` fails. */
  lemma ReadNumberRejects(pad: string, rest: string)
    requires Blank(pad) && rest != []
    requires !IsSpace(rest[0]) && !IsDigit(rest[0]) && rest[0] !in "+-."
    ensures ReadNumber(pad + rest) == None
  {
    var s := pad + rest;
    SkipSpacesOver(pad, rest);
    assert s[|pad|] == rest[0];
    DigitsEndOver(s, |pad|, 0);
  }

  /** A fraction: " 2.5" reads 2.5. */
  lemma FractionExample()
    ensures ReadNumber(" 2.5") == Some((2.5, ""))
  {
    var s := " 2.5";
    SkipSpacesStops(s, 0, 1);
    DigitsEndOver(s, 1, 1);
    DigitsEndOver(s, 3, 1);
    assert ScanNumber(s) == Lexeme(false, 1, 2, 3, 4, false, false, 4, 4);
    assert s[1..2] + s[3..4] == "25";
    assert DigitsValue("25") == 25;
    assert Scaled(25, -1) == 2.5;
    assert LexemeValue(s, Lexeme(false, 1, 2, 3, 4, false, false, 4, 4)) == 2.5;
  }

  /** A signed exponent: "-.25E-1" reads -0.025. */
  lemma ExponentExample()
    ensures ReadNumber("-.25E-1") == Some((-0.025, ""))
  {
    var s := "-.25E-1";
    var x := Lexeme(true, 1, 1, 2, 4, true, true, 6, 7);
    ExponentLexeme();
    assert s[1..1] + s[2..4] == "25";
    assert DigitsValue("25") == 25;
    assert DigitsValue(s[6..7]) == 1;
    assert Scaled(25, -3) == 0.025;
    assert LexemeValue(s, x) == -0.025;
  }

  lemma ExponentLexeme()
    ensures ScanNumber("-.25E-1") == Lexeme(true, 1, 1, 2, 4, true, true, 6, 7)
  {
    var s := "-.25E-1";
    SkipSpacesStops(s, 0, 0);
    DigitsEndOver(s, 1, 0);
    DigitsEndOver(s, 2, 2);
    DigitsEndOver(s, 6, 1);
  }

  /** An exponent mark with no digit after it makes the whole extraction fail: "1e" reads nothing. */
  lemma DanglingExponentExample()
    ensures ReadNumber("1e") == None
  {
    var s := "1e";
    SkipSpacesStops(s, 0, 0);
    DigitsEndOver(s, 0, 1);
    DigitsEndOver(s, 1, 0);
    DigitsEndOver(s, 2, 0);
    assert ScanNumber(s) == Lexeme(false, 0, 1, 1, 1, true, false, 2, 2);
  }
}
