/**
 * Character classes and the two string scans the parser performs by hand:
 * trimming spaces and tabs (`find_first_not_of(" \t")` /
 * `find_last_not_of(" \t")`) and decimal formatting (`std::to_string`).
 */
module Text {

  /** The characters the source trims with `" \t"`. */
  predicate IsBlank(c: char) {
    c == ' ' || c == '\t'
  }

  predicate IsDigit(c: char) {
    '0' <= c <= '9'
  }

  /** `s.find_first_not_of(" \t", i)`, with |s| standing for `npos`. */
  function FirstNonBlank(s: string, i: nat): (j: nat)
    requires i <= |s|
    ensures i <= j <= |s|
    ensures forall k | i <= k < j :: IsBlank(s[k])
    ensures j < |s| ==> !IsBlank(s[j])
    decreases |s| - i
  {
    if i < |s| && IsBlank(s[i]) then FirstNonBlank(s, i + 1) else i
  }

  /** One past `s.find_last_not_of(" \t")`; 0 when there is no such character. */
  function EndOfNonBlank(s: string): (j: nat)
    ensures j <= |s|
    ensures forall k | j <= k < |s| :: IsBlank(s[k])
    ensures j > 0 ==> !IsBlank(s[j - 1])
  {
    if |s| == 0 then 0
    else if IsBlank(s[|s| - 1]) then EndOfNonBlank(s[..|s| - 1])
    else |s|
  }

  /** A character that is not blank lies before the end `EndOfNonBlank` finds. */
  lemma {:induction false} EndOfNonBlankAfter(s: string, i: nat)
    requires i < |s| && !IsBlank(s[i])
    ensures i < EndOfNonBlank(s)
    decreases |s|
  {
    if IsBlank(s[|s| - 1]) {
      EndOfNonBlankAfter(s[..|s| - 1], i);
    }
  }

  /**
   * The dispatcher's trim (mps_parser.cpp:279-280): leading then trailing
   * spaces and tabs removed; nothing else (in particular not '\r').
   */
  function Trim(s: string): string {
    var rest := s[FirstNonBlank(s, 0)..];
    rest[..EndOfNonBlank(rest)]
  }

  /**
   * The trimmed line is the stretch of `s` from its first to its last
   * character that is not a space or tab: empty exactly when there is none.
   */
  lemma TrimShape(s: string)
    ensures var r, a := Trim(s), FirstNonBlank(s, 0);
      && a + |r| <= |s|
      && (r == [] <==> forall k | 0 <= k < |s| :: IsBlank(s[k]))
      && (r != [] ==> !IsBlank(r[0]) && !IsBlank(r[|r| - 1]))
      && r == s[a..a + |r|]
      && (forall k | a + |r| <= k < |s| :: IsBlank(s[k]))
  {
    var a := FirstNonBlank(s, 0);
    var rest := s[a..];
    var r := rest[..EndOfNonBlank(rest)];
    assert forall k | a + |r| <= k < |s| :: s[k] == rest[k - a];
  }

  /** The decimal digit for 0 <= d < 10. */
  function DigitChar(d: nat): (c: char)
    requires d < 10
    ensures IsDigit(c) && c as int - '0' as int == d
  {
    ('0' as int + d) as char
  }

  /** `std::to_string` on an unsigned value. */
  function NatToString(n: nat): (r: string)
    ensures |r| > 0
    ensures forall k | 0 <= k < |r| :: IsDigit(r[k])
  {
    if n < 10 then [DigitChar(n)] else NatToString(n / 10) + [DigitChar(n % 10)]
  }
}
