/** Character references of linux_usr/ezxml.c, for every number in decimal and hexadecimal spelling. */
module EzxmlNumber {
  import opened Bytes
  import opened EzxmlText
  import opened EzxmlEntities
  import opened EzxmlCodec
  import opened EzxmlDecode

  function Digit(d: nat): char
    requires d < 16
  {
    if d < 10 then '0' + d as char else 'a' + (d - 10) as char
  }

  /** A number in base 10 or 16, as people write it. */
  function Spelled(n: nat, base: nat): (s: string)
    requires base in {10, 16}
    ensures s != []
  {
    if n < base then [Digit(n)] else Spelled(n / base, base) + [Digit(n % base)]
  }

  predicate AreDigits(s: string, base: int) {
    forall i :: 0 <= i < |s| ==> IsDigit(s[i], base)
  }

  lemma {:induction false} SpelledIs(n: nat, base: nat)
    requires base in {10, 16}
    ensures AreDigits(Spelled(n, base), base) && DigitsValue(Spelled(n, base), base) == n
    decreases n
  {
    if n < base {
      assert DigitsValue([], base) == 0 && [Digit(n)][..0] == [];
    } else {
      var s := Spelled(n / base, base);
      SpelledIs(n / base, base);
      assert (s + [Digit(n % base)])[..|s|] == s;
      assert n == n / base * base + n % base;
    }
  }

  lemma {:induction false} SpanOfDigits(s: string, t: string, base: int)
    requires AreDigits(s, base) && (t == [] || !IsDigit(t[0], base))
    ensures DigitSpan(s + t, base) == |s|
  {
    if s == [] {
      assert s + t == t;
    } else {
      assert (s + t)[1..] == s[1..] + t;
      SpanOfDigits(s[1..], t, base);
    }
  }

  lemma DigitIs(c: char, base: int)
    requires IsDigit(c, base)
    ensures !IsSpace(c) && c !in {'+', '-', 'x', 'X', '&'}
  {
  }

  lemma {:induction false} SpaceSpanIs(ws: string, s: string)
    requires (forall i :: 0 <= i < |ws| ==> ws[i] as int in {32, 9, 10, 11, 12, 13}) && s != [] && !IsSpace(s[0])
    ensures SpaceSpan(ws + s) == |ws|
  {
    if ws == [] {
      assert ws + s == s;
    } else {
      assert (ws + s)[1..] == ws[1..] + s;
      SpaceSpanIs(ws[1..], s);
    }
  }

  lemma After(a: string, b: string, c: string)
    ensures (a + (b + c))[|a| + |b|..] == c
  {
    Assoc(a, b, c);
  }

  /** Digits after white space and a sign. */
  lemma Starts(ws: string, sign: string, d: string, t: string, base: int)
    requires (forall i :: 0 <= i < |ws| ==> ws[i] as int in {32, 9, 10, 11, 12, 13}) && sign in {"", "+", "-"}
    requires d != [] && AreDigits(d, base) && (t == [] || t[0] !in {'x', 'X'})
    ensures var s := ws + (sign + (d + t));
            DigitsFrom(s, base) == |ws| + |sign| && (IsNegative(s) <==> sign == "-")
  {
    var s, u := ws + (sign + (d + t)), sign + (d + t);
    DigitIs(d[0], base);
    if |d| > 1 {
      DigitIs(d[1], base);
    }
    SpaceSpanIs(ws, u);
    hide IsDigit, SpaceSpan;
    var j := |ws| + |sign|;
    assert u[0] == if sign == "" then d[0] else sign[0];
    assert s[|ws|] == u[0];
    After(ws, sign, d + t);
    assert s[j] == s[j..][0] && (j + 1 < |s| ==> s[j + 1] == s[j..][1]);
  }

  function Saturated(n: nat, negative: bool): int {
    if negative then (if n > 0x8000_0000_0000_0000 then -0x8000_0000_0000_0000 else -(n as int))
    else if n > 0x7fff_ffff_ffff_ffff then 0x7fff_ffff_ffff_ffff
    else n
  }

  /** strtol reads a number back, after white space and a sign and up to what is no digit; beyond a long it stops at the
      largest or smallest one. */
  lemma StrtolIs(ws: string, sign: string, n: nat, base: nat, t: string)
    requires (forall i :: 0 <= i < |ws| ==> ws[i] as int in {32, 9, 10, 11, 12, 13}) && sign in {"", "+", "-"}
    requires base in {10, 16} && (t == [] || (!IsDigit(t[0], base) && t[0] !in {'x', 'X'}))
    ensures Strtol(ws + (sign + (Spelled(n, base) + t)), base) ==
            (Saturated(n, sign == "-"), |ws| + |sign| + |Spelled(n, base)|)
  {
    hide Strtol, Saturated, Spelled, DigitsValue, DigitSpan, DigitsFrom, IsNegative, IsDigit, AreDigits;
    var d := Spelled(n, base);
    var s := ws + (sign + (d + t));
    SpelledIs(n, base);
    SpanOfDigits(d, t, base);
    Starts(ws, sign, d, t, base);
    After(ws, sign, d + t);
    StrtolAt(s, |ws| + |sign|, d, t, n, base);
  }

  lemma StrtolAt(s: string, k: nat, d: string, t: string, n: nat, base: nat)
    requires k <= |s| && DigitsFrom(s, base) == k && s[k..] == d + t && d != []
    requires DigitSpan(d + t, base) == |d| && DigitsValue(d, base) == n
    ensures Strtol(s, base) == (Saturated(n, IsNegative(s)), k + |d|)
  {
    hide DigitsValue, DigitSpan, DigitsFrom, IsNegative;
    assert s[k..k + |d|] == s[k..][..|d|] == d;
  }

  lemma NumberIs(n: nat, base: nat, t: string)
    requires base in {10, 16} && 0 < n <= LONG_MAX && t != [] && t[0] == ';'
    ensures Number(Spelled(n, base) + t, base) == Some((n, |Spelled(n, base)|))
  {
    hide Strtol, Spelled;
    var s := Spelled(n, base) + t;
    StrtolIs("", "", n, base, t);
    assert "" + ("" + s) == s;
    assert s[|Spelled(n, base)|] == ';';
    hide IsDigit;
  }

  function Reference(c: nat, hex: bool): string {
    if hex then "&#x" + Spelled(c, 16) + ";" else "&#" + Spelled(c, 10) + ";"
  }

  lemma ReferenceIs(c: nat, hex: bool)
    requires 0 < c <= LONG_MAX
    ensures var s := Reference(c, hex); IsNumbered(s) && CharRef(s) == Some((c as int, |s| - 1)) && SelfContained(s)
  {
    hide Number, IsDigit, Digit;
    var s, base := Reference(c, hex), if hex then 16 else 10;
    var d := Spelled(c, base);
    NumberIs(c, base, ";");
    SpelledIs(c, base);
    DigitsAre(d, base);
    if hex {
      assert s[3..] == d + ";";
    } else {
      assert s[2..] == d + ";";
    }
    assert s[|s| - 1] == ';';
    assert forall p :: 0 < p < |s| ==> s[p] != '&';
    assert s[0..] == s;
  }

  lemma DigitsAre(d: string, base: int)
    requires AreDigits(d, base)
    ensures forall i :: 0 <= i < |d| ==> d[i] !in {'x', '&'}
  {
    forall i | 0 <= i < |d| ensures d[i] !in {'x', '&'} {
      DigitIs(d[i], base);
    }
  }

  /** In text and attributes, a reference by number, in either base, means the UTF-8 form of its character; what follows
    * it means what it would without it. */
  lemma ReferenceMeans(ents: seq<Entity>, c: nat, hex: bool, t: string, mode: Mode)
    requires WellNamed(ents) && Acyclic(ents) && 0 < c < 0x11_0000 && !mode.Cdata?
    ensures Meaning(ents, Reference(c, hex) + t, mode) == Chars(Utf8.Rfc3629(c)) + Meaning(ents, t, mode)
  {
    hide Expand, Below, Head, Reference;
    var s := Reference(c, hex);
    var rank :| Ranked(ents, rank);
    ReferenceIs(c, hex);
    AllBelow(ents, rank, s);
    AllBelow(ents, rank, t);
    Splice(ents, s, t, mode, rank, Bound(rank));
    MeaningIs(ents, s + t, mode, rank, Bound(rank));
    MeaningIs(ents, t, mode, rank, Bound(rank));
    OneReference(ents, s, c, mode, rank, Bound(rank));
    Utf8.EncodeIsRfc3629(c);
    CharTextIs(c);
  }

  lemma CharTextIs(c: nat)
    requires c < 0x11_0000
    ensures CharText(c) == Chars(Utf8.Encode(c))
  {
  }

  lemma OneReference(ents: seq<Entity>, s: string, c: nat, mode: Mode, rank: seq<nat>, r: nat)
    requires WellNamed(ents) && Ranked(ents, rank) && Below(ents, s, rank, r) && !mode.Cdata?
    requires IsNumbered(s) && CharRef(s) == Some((c as int, |s| - 1))
    ensures Expand(ents, s, mode, rank, r).text == CharText(c)
  {
    hide CharText, CharRef;
    assert s[|s|..] == [];
    assert CharText(c) + [] == CharText(c);
  }

  // ----- what is no reference -----

  lemma {:induction false} ZeroIs(d: string, base: int)
    requires forall i :: 0 <= i < |d| ==> d[i] == '0'
    ensures DigitsValue(d, base) == 0
  {
    if d != [] {
      ZeroIs(d[..|d| - 1], base);
    }
  }

  /** Digits that no ';' follows, or that are all 0. */
  predicate IsNoNumber(d: string, base: int, t: string) {
    && d != [] && AreDigits(d, base)
    && (t == [] || (!IsDigit(t[0], base) && t[0] !in {'x', 'X'}))
    && (t != [] && t[0] == ';' ==> forall i :: 0 <= i < |d| ==> d[i] == '0')
  }

  lemma NoNumber(d: string, base: int, t: string)
    requires base in {10, 16} && IsNoNumber(d, base, t)
    ensures Number(d + t, base) == None
  {
    SpanOfDigits(d, t, base);
    Starts("", "", d, t, base);
    var s := d + t;
    assert "" + ("" + s) == s;
    if t != [] && t[0] == ';' {
      ZeroIs(d, base);
    }
    hide DigitsValue, DigitSpan, DigitsFrom, IsNegative, IsDigit;
    assert s[0..] == s && s[0..|d|] == d;
    assert t != [] ==> s[|d|] == t[0];
  }

  /** Such a '&' stands for itself. */
  lemma NoNumberMeans(ents: seq<Entity>, d: string, hex: bool, t: string, mode: Mode)
    requires WellNamed(ents) && Acyclic(ents) && IsNoNumber(d, if hex then 16 else 10, t)
    ensures var s := (if hex then "#x" else "#") + (d + t);
            Meaning(ents, "&" + s, mode) == "&" + Meaning(ents, s, mode)
  {
    hide Expand, Below, Head, IsNoNumber, Number;
    var s := (if hex then "#x" else "#") + (d + t);
    var rank :| Ranked(ents, rank);
    var b := Bound(rank);
    AllBelow(ents, rank, "&" + s);
    AllBelow(ents, rank, s);
    MeaningIs(ents, "&" + s, mode, rank, b);
    MeaningIs(ents, s, mode, rank, b);
    NoNumberHead(ents, d, hex, t, mode);
    OneStays(ents, s, mode, rank, b);
  }

  lemma NoNumberHead(ents: seq<Entity>, d: string, hex: bool, t: string, mode: Mode)
    requires WellNamed(ents) && IsNoNumber(d, if hex then 16 else 10, t)
    ensures Head(ents, "&" + ((if hex then "#x" else "#") + (d + t)), mode) == Emit("&", 1)
  {
    var u := d + t;
    var s := "&" + ((if hex then "#x" else "#") + u);
    NoNumber(d, if hex then 16 else 10, t);
    FirstIsDigit(d, t, if hex then 16 else 10);
    hide Number, IsNoNumber;
    assert IsNumbered(s) && (if hex then s[2] == 'x' && s[3..] == u else s[2..] == u && s[2] == u[0]);
  }

  lemma FirstIsDigit(d: string, t: string, base: int)
    requires IsNoNumber(d, base, t)
    ensures d + t != [] && (d + t)[0] != 'x'
  {
    DigitIs(d[0], base);
  }

  lemma OneStays(ents: seq<Entity>, s: string, mode: Mode, rank: seq<nat>, r: nat)
    requires WellNamed(ents) && Ranked(ents, rank) && Below(ents, "&" + s, rank, r) && Below(ents, s, rank, r)
    requires Head(ents, "&" + s, mode) == Emit("&", 1)
    ensures Expand(ents, "&" + s, mode, rank, r).text == "&" + Expand(ents, s, mode, rank, r).text
  {
    hide Head, Below;
    assert ("&" + s)[1..] == s;
  }
}
