/** Whole documents: comments and CDATA sections may stand before and after the root. */
module EzxmlDocument {
  import opened Bytes
  import opened EzxmlText
  import opened EzxmlAmp
  import opened EzxmlParser
  import opened EzxmlSyntax
  import opened EzxmlRefused

  const NONE := State([], None)

  /** Text, comments and sections. */
  predicate AreOuter(ps: seq<Piece>) {
    ArePieces(ps) && forall i :: 0 <= i < |ps| ==> !ps[i].markup.Element?
  }

  // ----- outside the root -----

  /** The first text is skipped like any other text outside the root. */
  lemma ParseIsFromText(doc: string)
    requires doc != []
    ensures Parse(doc) == FromText(NONE, UpToNul(doc[..|doc| - 1]), doc[|doc| - 1])
  {
    hide FromTag, UpToNul;
  }

  lemma OuterText(st: State, text: string, rest: string, e: char)
    requires st.open == [] && IsText(text) && rest != [] && rest[0] == '<'
    ensures FromText(st, text + rest, e) == FromTag(st, rest, e)
  {
    hide FromTag, Decoded;
    var s := text + rest;
    assert s[|text|] == '<' && s[|text|..] == rest;
    FindFrom(s, '<', |text|);
  }

  lemma OuterMarkup(st: State, m: Markup, rest: string, e: char)
    requires st.open == [] && IsMarkup(m) && !m.Element?
    ensures FromTag(st, ShowMarkup(m) + rest, e) == FromText(st, rest, e)
  {
    hide Read, FromTag, FromText, ShowMarkup, EndsAt, Decoded;
    ShowPlain(m, rest);
    match m
    case Section(raw) =>
      ReadSection(st, raw, rest, e);
      TagStep(st, "![CDATA[" + (raw + ("]]>" + rest)), e, st, rest);
    case Comment(raw) =>
      ReadRemark(st, raw, rest, e);
      TagStep(st, "!--" + (raw + ("-->" + rest)), e, st, rest);
  }

  /** Outside the root nothing is kept. */
  lemma {:induction false} OuterOn(st: State, ps: seq<Piece>, x: string, e: char)
    requires st.open == [] && AreOuter(ps)
    ensures FromText(st, ShowPieces(ps) + x, e) == FromText(st, x, e)
    decreases |ps|
  {
    hide FromTag, FromText, ShowMarkup, IsMarkup;
    if ps == [] {
      assert ShowPieces(ps) + x == x;
    } else {
      var m, more := ps[0].markup, ShowPieces(ps[1..]) + x;
      assert ShowPieces(ps) + x == ps[0].text + (ShowMarkup(m) + more) by {
        Assoc(ShowMarkup(m), ShowPieces(ps[1..]), x);
        Assoc(ps[0].text, ShowMarkup(m) + ShowPieces(ps[1..]), x);
      }
      StartsMarkup(m, more);
      OuterText(st, ps[0].text, ShowMarkup(m) + more, e);
      OuterMarkup(st, m, more, e);
      OuterOn(st, ps[1..], x, e);
    }
  }

  // ----- documents -----

  function ShowDocument(before: seq<Piece>, lead: string, m: Markup, after: seq<Piece>, rest: string): string {
    ShowPieces(before) + (lead + (ShowMarkup(m) + (ShowPieces(after) + rest)))
  }

  /** All of a document but its last character. */
  lemma ButLast(before: seq<Piece>, lead: string, m: Markup, after: seq<Piece>, rest: string)
    requires AreOuter(before) && IsText(lead) && IsMarkup(m) && AreOuter(after) && rest != []
    ensures var doc := ShowDocument(before, lead, m, after, rest);
            && doc != [] && doc[|doc| - 1] == rest[|rest| - 1]
            && UpToNul(doc[..|doc| - 1]) == ShowDocument(before, lead, m, after, UpToNul(rest[..|rest| - 1]))
  {
    hide UpToNul, ShowPieces, ShowMarkup, ArePieces, IsMarkup;
    var a, b, y := ShowPieces(after), ShowMarkup(m), rest[..|rest| - 1];
    DropLastOf(a, rest);
    DropLastOf(b, a + rest);
    DropLastOf(lead, b + (a + rest));
    DropLastOf(ShowPieces(before), lead + (b + (a + rest)));
    PiecesHaveNoNul(before);
    PiecesHaveNoNul(after);
    MarkupHasNoNul(m);
    UpToNulAfter(a, y);
    UpToNulAfter(b, a + y);
    UpToNulAfter(lead, b + (a + y));
    UpToNulAfter(ShowPieces(before), lead + (b + (a + y)));
  }

  /** The parse of a document after its root, whatever follows. */
  lemma AfterRoot(before: seq<Piece>, lead: string, m: Markup, after: seq<Piece>, rest: string)
    requires AreOuter(before) && IsText(lead) && m.Element? && IsMarkup(m) && AreOuter(after) && rest != []
    ensures Parse(ShowDocument(before, lead, m, after, rest)) ==
            FromText(State([], Some(NodeOf(m, 0))), UpToNul(rest[..|rest| - 1]), rest[|rest| - 1])
  {
    hide Parse, UpToNul, ShowPieces, ShowMarkup, ArePieces, IsMarkup, FromText, FromTag, NodeOf;
    ButLast(before, lead, m, after, rest);
    ParseIsFromText(ShowDocument(before, lead, m, after, rest));
    var y, e := UpToNul(rest[..|rest| - 1]), rest[|rest| - 1];
    var s := ShowMarkup(m) + (ShowPieces(after) + y);
    OuterOn(NONE, before, lead + s, e);
    StartsMarkup(m, ShowPieces(after) + y);
    OuterText(NONE, lead, s, e);
    RootThen(m, ShowPieces(after) + y, e);
    OuterOn(State([], Some(NodeOf(m, 0))), after, y, e);
  }

  /** What stands outside the root does not count: a document means its root. */
  lemma OutsideIsIgnored(before: seq<Piece>, lead: string, m: Markup, after: seq<Piece>, rest: string)
    requires AreOuter(before) && IsText(lead) && m.Element? && IsMarkup(m) && AreOuter(after)
    requires '<' !in rest && (rest == [] ==> after == [])
    ensures Parse(ShowDocument(before, lead, m, after, rest)) == Parsed(NodeOf(m, 0))
  {
    hide Parse, ShowDocument, AreOuter, NodeOf, IsMarkup;
    if rest == [] {
      EndsWithRoot(before, lead, m);
      EndsThere(before, lead, m);
    } else {
      AfterRoot(before, lead, m, after, rest);
      var y := UpToNul(rest[..|rest| - 1]);
      assert forall i :: 0 <= i < |y| ==> y[i] == rest[i];
      FindFrom(y, '<', |y|);
    }
  }

  lemma EndsThere(before: seq<Piece>, lead: string, m: Markup)
    ensures ShowDocument(before, lead, m, [], "") == ShowPieces(before) + (lead + ShowMarkup(m))
  {
    assert ShowMarkup(m) + (ShowPieces([]) + "") == ShowMarkup(m);
  }

  lemma EndsWithRoot(before: seq<Piece>, lead: string, m: Markup)
    requires AreOuter(before) && IsText(lead) && m.Element? && IsMarkup(m)
    ensures Parse(ShowPieces(before) + (lead + ShowMarkup(m))) == Parsed(NodeOf(m, 0))
  {
    hide Parse, UpToNul, FromTag, FromText, ShowMarkup, ShowRoot, ShowPieces, ArePieces, NodeOf, IsMarkup;
    ShowRootIs(m);
    var b, r := ShowPieces(before), ShowRoot(m);
    var doc := b + (lead + ShowMarkup(m));
    RootStep(m);
    MarkupHasNoNul(m);
    PiecesHaveNoNul(before);
    StartsRoot(m);
    DropLastOf(r, ">");
    DropLastOf(lead, r + ">");
    DropLastOf(b, lead + (r + ">"));
    var s := b + (lead + r);
    assert doc[..|doc| - 1] == s && doc[|doc| - 1] == '>';
    assert forall i :: 0 <= i < |r| ==> r[i] == ShowMarkup(m)[i];
    UpToNulKeeps(s);
    ParseIsFromText(doc);
    OuterOn(NONE, before, lead + r, '>');
    OuterText(NONE, lead, r, '>');
  }

  /** With nothing but text, comments and sections there is no root. */
  lemma NoRoot(before: seq<Piece>, rest: string)
    requires AreOuter(before) && '<' !in rest && (rest == [] ==> before == [])
    ensures Parse(ShowPieces(before) + rest) == Failed(RootMissing)
  {
    if rest != [] {
      NoRootYet(before, rest);
    }
  }

  lemma NoRootYet(before: seq<Piece>, rest: string)
    requires AreOuter(before) && '<' !in rest && rest != []
    ensures Parse(ShowPieces(before) + rest) == Failed(RootMissing)
  {
    hide Parse, UpToNul, ShowPieces, ArePieces, FromText;
    var b, y, e := ShowPieces(before), rest[..|rest| - 1], rest[|rest| - 1];
    PiecesHaveNoNul(before);
    DropLastOf(b, rest);
    UpToNulAfter(b, y);
    ParseIsFromText(b + rest);
    OuterOn(NONE, before, UpToNul(y), e);
    TextIsAll(NONE, y, e);
  }

  lemma TextIsAll(st: State, y: string, e: char)
    requires '<' !in y
    ensures FromText(st, UpToNul(y), e) == Finish(st)
  {
    var t := UpToNul(y);
    assert forall i :: 0 <= i < |t| ==> t[i] == y[i];
    FindFrom(t, '<', |t|);
  }

  // ----- the last markup -----

  /** What is left of a comment or section whose '>' is the last character, and after what. */
  lemma LastMarkup(text: string, d: string)
    requires IsText(text) && '\0' !in d
    ensures var x := text + ("<" + (d + ">"));
            x[|x| - 1] == '>' && UpToNul(x[..|x| - 1]) == text + ("<" + d)
  {
    hide UpToNul;
    DropLastOf(d, ">");
    DropLastOf("<", d + ">");
    DropLastOf(text, "<" + (d + ">"));
    assert (d + ">")[..|d + ">"| - 1] == d;
    NoNulKeeps(text + ("<" + d));
  }

  lemma ReadLastComment(st: State, raw: string)
    requires EndsAt(raw, "--")
    ensures Read(st, "!--" + (raw + "--"), '>') == Go(st, "")
  {
    hide FindSub;
    var d := "!--" + (raw + "--");
    assert d[3..] == raw + "--" && "!--" <= d;
    assert d[3..][|raw| + 2..] == "";
  }

  /** Its own '>' is cut off, so the section does not end. */
  lemma ReadLastSection(st: State, raw: string, e: char)
    requires EndsAt(raw, "]]>")
    ensures Read(st, "![CDATA[" + (raw + "]]"), e) == Stop(UnclosedCdata)
  {
    var d := "![CDATA[" + (raw + "]]");
    assert d[8..] == raw + "]]";
    assert raw + "]]" + ">" == raw + "]]>";
    NotYet(raw + "]]", ">", "]]>");
    hide FindSub;
    assert "![CDATA[" <= d && !("!--" <= d) by {
      assert d[1] == '[';
    }
  }

  lemma {:induction false} NotYet(s: string, t: string, what: string)
    requires FindSub(s + t, what) + |what| == |s + t| && |what| > 1 && |t| == 1
    ensures FindSub(s, what) == |s|
  {
    if s != [] && !(what <= s + t) {
      assert (s + t)[1..] == s[1..] + t;
      NotYet(s[1..], t, what);
      assert what <= s ==> what <= s + t;
    }
  }

  /** A comment may end a document, and a CDATA section may not: the parser looks for its end in what stands before the
      last character. */
  lemma EndsWithMarkup(before: seq<Piece>, lead: string, m: Markup, after: seq<Piece>, text: string, last: Markup)
    requires AreOuter(before) && IsText(lead) && m.Element? && IsMarkup(m) && AreOuter(after)
    requires IsText(text) && IsMarkup(last) && !last.Element?
    ensures Parse(ShowDocument(before, lead, m, after, text + ShowMarkup(last))) ==
            if last.Comment? then Parsed(NodeOf(m, 0)) else Failed(UnclosedCdata)
  {
    hide Parse, UpToNul, ShowDocument, AreOuter, NodeOf, FromText, FromTag, Read, EndsAt;
    var st := State([], Some(NodeOf(m, 0)));
    var d := if last.Comment? then "!--" + (last.raw + "--") else "![CDATA[" + (last.raw + "]]");
    LastIs(last, d);
    AfterRoot(before, lead, m, after, text + ShowMarkup(last));
    LastMarkup(text, d);
    OuterText(st, text, "<" + d, '>');
    if last.Comment? {
      ReadLastComment(st, last.raw);
      LastStep(st, d, NodeOf(m, 0));
    } else {
      ReadLastSection(st, last.raw, '>');
      StopStep(st, d, '>', UnclosedCdata);
    }
  }

  lemma LastIs(last: Markup, d: string)
    requires IsMarkup(last) && !last.Element?
    requires d == if last.Comment? then "!--" + (last.raw + "--") else "![CDATA[" + (last.raw + "]]")
    ensures ShowMarkup(last) == "<" + (d + ">") && '\0' !in d
  {
    hide EndsAt;
    ShowPlain(last, "");
    assert ShowMarkup(last) + "" == ShowMarkup(last);
    if last.Comment? {
      Assoc(last.raw, "--", ">");
      Assoc("!--", last.raw + "--", ">");
      assert "-->" + "" == "--" + ">";
    } else {
      Assoc(last.raw, "]]", ">");
      Assoc("![CDATA[", last.raw + "]]", ">");
      assert "]]>" + "" == "]]" + ">";
    }
  }

  // ----- tags outside the root -----

  /** A start tag after the root is refused. */
  lemma SecondRoot(before: seq<Piece>, lead: string, m: Markup, after: seq<Piece>, text: string, d: string)
    requires AreOuter(before) && IsText(lead) && m.Element? && IsMarkup(m) && AreOuter(after) && IsText(text)
    requires |d| > 1 && IsNameStart(d[0])
    ensures Parse(ShowDocument(before, lead, m, after, text + ("<" + d))) == Failed(OutsideRoot)
  {
    hide Parse, UpToNul, ShowDocument, AreOuter, NodeOf, IsMarkup, FromText, FromTag;
    var y, e := d[..|d| - 1], d[|d| - 1];
    AfterRoot(before, lead, m, after, text + ("<" + d));
    DropLastOf("<", d);
    DropLastOf(text, "<" + d);
    UpToNulAfter("<", y);
    UpToNulAfter(text, "<" + y);
    assert y == [d[0]] + y[1..];
    UpToNulAfter([d[0]], y[1..]);
    NameStartIs(d[0]);
    StartAfterRoot(NodeOf(m, 0), text, UpToNul(y), e);
  }

  /** A closing tag after the root, or before it, closes nothing. */
  lemma StrayEnd(st: State, name: string, rest: string, e: char)
    requires st.open == [] && IsTagName(name) && rest != [] && rest[0] in BLANKS + {'>'}
    ensures FromTag(st, "<" + ("/" + (name + rest)), e) == Failed(UnexpectedClose(name))
  {
    var d := "/" + (name + rest);
    assert d[1..] == name + rest && (name + rest)[|name|] == rest[0];
    CspanAt(d[1..], WS + {'>'}, |name|);
    assert d[1..][..|name|] == name && d[1..][|name|..] == rest;
    hide Cspan, Span;
    StopStep(st, d, e, UnexpectedClose(name));
  }

  lemma EndAfterRoot(before: seq<Piece>, lead: string, m: Markup, after: seq<Piece>, text: string, name: string)
    requires AreOuter(before) && IsText(lead) && m.Element? && IsMarkup(m) && AreOuter(after) && IsText(text)
    requires IsTagName(name)
    ensures Parse(ShowDocument(before, lead, m, after, text + ("<" + ("/" + (name + ">\n"))))) ==
            Failed(UnexpectedClose(name))
  {
    hide Parse, UpToNul, ShowDocument, AreOuter, NodeOf, IsMarkup, FromText, FromTag;
    var st := State([], Some(NodeOf(m, 0)));
    var d := "/" + (name + ">");
    assert "<" + ("/" + (name + ">\n")) == "<" + (d + "\n");
    AfterRoot(before, lead, m, after, text + ("<" + ("/" + (name + ">\n"))));
    DropLastOf(text, "<" + (d + "\n"));
    assert ("<" + (d + "\n"))[..|d| + 1] == "<" + d;
    NoNulKeeps(text + ("<" + d));
    OuterText(st, text, "<" + d, '\n');
    StrayEnd(st, name, ">", '\n');
  }
}
