/** Character tests and C library scans that linux_usr/ezxml.c relies on.  A string is the characters before the NUL. */
module EzxmlText {
  /** isspace in the C locale. */
  predicate IsSpace(c: char) {
    c == ' ' || '\t' <= c <= '\r'
  }

  predicate IsDigit(c: char, base: int) {
    '0' <= c <= '9' || (base == 16 && ('a' <= c <= 'f' || 'A' <= c <= 'F'))
  }

  function DigitValue(c: char): int {
    if '0' <= c <= '9' then c as int - '0' as int
    else if 'a' <= c <= 'f' then c as int - 'a' as int + 10
    else if 'A' <= c <= 'F' then c as int - 'A' as int + 10
    else 0
  }

  function SpaceSpan(s: string): (n: nat)
    ensures n <= |s|
  {
    if s != [] && IsSpace(s[0]) then 1 + SpaceSpan(s[1..]) else 0
  }

  function DigitSpan(s: string, base: int): (n: nat)
    ensures n <= |s|
  {
    if s != [] && IsDigit(s[0], base) then 1 + DigitSpan(s[1..], base) else 0
  }

  function DigitsValue(s: string, base: int): int {
    if s == [] then 0 else DigitsValue(s[..|s| - 1], base) * base + DigitValue(s[|s| - 1])
  }

  const LONG_MAX := 0x7fff_ffff_ffff_ffff

  function Clamp(v: int): int {
    if v > LONG_MAX then LONG_MAX else if v < -LONG_MAX - 1 then -LONG_MAX - 1 else v
  }

  /** Where the digits of a number start: after white space, a sign, and in base 16 a 0x that a digit follows. */
  function DigitsFrom(s: string, base: int): (k: nat)
    ensures k <= |s|
  {
    var i := SpaceSpan(s);
    var j := if i < |s| && s[i] in {'+', '-'} then i + 1 else i;
    if base == 16 && j + 2 < |s| && s[j] == '0' && s[j + 1] in {'x', 'X'} && IsDigit(s[j + 2], 16) then j + 2 else j
  }

  predicate IsNegative(s: string) {
    SpaceSpan(s) < |s| && s[SpaceSpan(s)] == '-'
  }

  /** strtol: the value, and the offset of the end pointer, which is 0 when there is no digit. */
  function Strtol(s: string, base: int): (r: (int, nat))
    ensures r.1 <= |s|
  {
    var k := DigitsFrom(s, base);
    var n := DigitSpan(s[k..], base);
    var v := DigitsValue(s[k..k + n], base);
    if n == 0 then (0, 0) else (Clamp(if IsNegative(s) then -v else v), k + n)
  }

  /** The offset of the first c, or the length. */
  function Find(s: string, c: char): (n: nat)
    ensures n <= |s|
    ensures n < |s| ==> s[n] == c
    ensures forall i :: 0 <= i < n ==> s[i] != c
  {
    if s == [] || s[0] == c then 0 else 1 + Find(s[1..], c)
  }

  lemma FindFrom(s: string, c: char, n: nat)
    requires n <= |s| && (n < |s| ==> s[n] == c) && forall i :: 0 <= i < n ==> s[i] != c
    ensures Find(s, c) == n
  {
  }

  lemma Assoc(a: string, b: string, c: string)
    ensures a + b + c == a + (b + c)
  {
  }

  // ----- a scan that meets a stop character does not see what follows it -----

  lemma {:induction false} SpaceSpanStops(s: string, t: string)
    requires ';' in s
    ensures SpaceSpan(s + t) == SpaceSpan(s) < |s|
  {
    if IsSpace(s[0]) {
      assert (s + t)[1..] == s[1..] + t;
      SpaceSpanStops(s[1..], t);
    }
  }

  lemma {:induction false} DigitSpanStops(s: string, t: string, base: int)
    requires ';' in s
    ensures DigitSpan(s + t, base) == DigitSpan(s, base) < |s|
  {
    if IsDigit(s[0], base) {
      assert (s + t)[1..] == s[1..] + t;
      DigitSpanStops(s[1..], t, base);
    }
  }

  lemma SpaceSpanKeeps(s: string)
    requires ';' in s
    ensures ';' in s[SpaceSpan(s)..]
  {
  }

  /** The ';' of a text lies behind its white space and sign. */
  lemma SemicolonStays(s: string, base: int, p: nat)
    requires p < |s| && s[p] == ';' && DigitsFrom(s, base) <= p
    ensures ';' in s[DigitsFrom(s, base)..]
  {
    assert s[DigitsFrom(s, base)..][p - DigitsFrom(s, base)] == ';';
  }

  lemma DigitsFromStops(s: string, t: string, base: int)
    requires ';' in s
    ensures DigitsFrom(s + t, base) == DigitsFrom(s, base) && IsNegative(s + t) == IsNegative(s)
    ensures ';' in s[DigitsFrom(s, base)..]
  {
    SpaceSpanStops(s, t);
    SpaceSpanKeeps(s);
    var i := SpaceSpan(s);
    hide SpaceSpan;
    var q :| 0 <= q < |s[i..]| && s[i..][q] == ';';
    assert s[i + q] == ';' && (s + t)[i + q] == ';';
    SemicolonStays(s, base, i + q);
  }

  lemma StrtolStops(s: string, t: string, base: int)
    requires ';' in s
    ensures Strtol(s + t, base) == Strtol(s, base)
    ensures Strtol(s, base).1 < |s|
  {
    DigitsFromStops(s, t, base);
    var k := DigitsFrom(s, base);
    assert (s + t)[k..] == s[k..] + t;
    DigitSpanStops(s[k..], t, base);
    var n := DigitSpan(s[k..], base);
    assert (s + t)[k..k + n] == s[k..k + n];
  }
}
