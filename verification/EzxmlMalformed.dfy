/** Markup that is not well formed, anywhere inside a document, and the error that each kind of it gets. */
module EzxmlMalformed {
  import opened EzxmlText
  import opened EzxmlCodec
  import opened EzxmlNode
  import opened EzxmlAmp
  import opened EzxmlParser
  import opened EzxmlSyntax
  import opened EzxmlRefused

  /** What follows a '<'. */
  datatype Malformed =
    | Stray(rest: string)
    | OpenRemark(raw: string)
    | Dashes(raw: string, rest: string)
    | OpenSection(raw: string)
    | CutEnd(raw: string)
    | CutStart(name: string, last: char)
    | Slash(name: string, attrs: seq<Written>, gap: string, rest: string)
    | OpenValue(name: string, attrs: seq<Written>, gap: string, attr: string, mid: string, q: char, raw: string)

  predicate Lacks(s: string, what: string) {
    forall i :: 0 <= i < |s| ==> !(what <= s[i..])
  }

  predicate IsMalformed(m: Malformed) {
    '\0' !in ShowMalformed(m) &&
    match m
    // A character that begins no markup.
    case Stray(rest) => rest != [] && !IsNameStart(rest[0]) && rest[0] !in {'/', '!', '?'}
    // A comment or a section that does not end.
    case OpenRemark(raw) => raw != [] && Lacks(raw, "--")
    case OpenSection(raw) => raw != [] && Lacks(raw, "]]>")
    // Two dashes in a comment, but for its end.
    case Dashes(raw, rest) => EndsAt(raw, "--") && rest != [] && rest[0] != '>'
    // A start tag or closing tag at the end of the document, without its '>'.
    case CutStart(name, last) => IsTagName(name) && last != '>'
    case CutEnd(raw) => raw != [] && forall c <- raw :: c !in BLANKS + {'>'}
    // A '/' in a start tag that no '>' follows.
    case Slash(name, attrs, gap, rest) => IsStart(name, attrs, gap) && rest != [] && rest[0] != '>'
    // An attribute value that is not closed, after any attributes.
    case OpenValue(name, attrs, gap, attr, mid, q, raw) =>
      && IsStart(name, attrs, gap) && gap != [] && IsAttrName(attr) && attr[0] !in {'"', '\''}
      && mid != [] && (forall c <- mid :: c in BLANKS + {'='}) && q in {'"', '\''} && raw != [] && q !in raw
  }

  function ShowMalformed(m: Malformed): string {
    match m
    case Stray(rest) => rest
    case OpenRemark(raw) => "!--" + raw
    case OpenSection(raw) => "![CDATA[" + raw
    case Dashes(raw, rest) => "!--" + (raw + ("--" + rest))
    case CutStart(name, last) => name + [last]
    case CutEnd(raw) => "/" + raw
    case Slash(name, attrs, gap, rest) => name + (ShowAttrs(attrs) + (gap + ("/" + rest)))
    case OpenValue(name, attrs, gap, attr, mid, q, raw) =>
      name + (ShowAttrs(attrs) + (gap + (attr + (mid + ([q] + raw)))))
  }

  function ErrorOf(m: Malformed): Error {
    match m
    case Stray(_) => UnexpectedLt
    case OpenRemark(_) | Dashes(_, _) => UnclosedComment
    case OpenSection(_) => UnclosedCdata
    case CutStart(_, _) | CutEnd(_) | Slash(_, _, _, _) => MissingGt
    case OpenValue(_, _, _, _, _, q, _) => MissingQuote(q)
  }

  // ----- the scans -----

  lemma {:induction false} NotFound(s: string, what: string)
    requires Lacks(s, what)
    ensures FindSub(s, what) == |s|
  {
    if s != [] {
      assert s[0..] == s;
      forall i | 0 <= i < |s[1..]| ensures !(what <= s[1..][i..]) {
        assert s[1..][i..] == s[i + 1..];
      }
      NotFound(s[1..], what);
    }
  }

  lemma LacksLess(s: string, what: string)
    requires Lacks(s, what) && s != []
    ensures Lacks(s[..|s| - 1], what)
  {
    var t := s[..|s| - 1];
    forall i | 0 <= i < |t| ensures !(what <= t[i..]) {
      assert s[i..] == t[i..] + [s[|s| - 1]];
      assert !(what <= s[i..]);
    }
  }

  lemma ReadOpenRemark(st: State, raw: string, e: char)
    requires raw != [] && Lacks(raw, "--")
    ensures Read(st, "!--" + raw[..|raw| - 1], e) == Stop(UnclosedComment)
  {
    var d := "!--" + raw[..|raw| - 1];
    LacksLess(raw, "--");
    assert d[3..] == raw[..|raw| - 1] && "!--" <= d;
    NotFound(d[3..], "--");
    hide FindSub;
  }

  lemma ReadOpenSection(st: State, raw: string, e: char)
    requires raw != [] && Lacks(raw, "]]>")
    ensures Read(st, "![CDATA[" + raw[..|raw| - 1], e) == Stop(UnclosedCdata)
  {
    var d := "![CDATA[" + raw[..|raw| - 1];
    LacksLess(raw, "]]>");
    assert d[8..] == raw[..|raw| - 1];
    NotFound(d[8..], "]]>");
    hide FindSub;
    assert "![CDATA[" <= d && !("!--" <= d) by {
      assert d[1] == '[';
    }
  }

  lemma ReadCutEnd(st: State, raw: string)
    requires raw != [] && forall c <- raw :: c !in BLANKS + {'>'}
    ensures Read(st, "/" + raw[..|raw| - 1], raw[|raw| - 1]) == Stop(MissingGt)
  {
    var y := raw[..|raw| - 1];
    var d := "/" + y;
    assert d[1..] == y;
    BlanksAre();
    forall i | 0 <= i < |y| ensures y[i] !in WS + {'>'} {
      assert y[i] == raw[i];
    }
    CspanAt(y, WS + {'>'}, |y|);
    hide Cspan, Span;
    assert y[|y|..] == [];
  }

  lemma ReadDashes(st: State, raw: string, rest: string, e: char)
    requires EndsAt(raw, "--") && (if rest == [] then e else rest[0]) != '>'
    ensures Read(st, "!--" + (raw + ("--" + rest)), e) == Stop(UnclosedComment)
  {
    var d := "!--" + (raw + ("--" + rest));
    DashesAre(raw, rest);
    assert "!--" <= d && d[3..] == raw + ("--" + rest);
    hide FindSub;
    assert ReadComment(st, d, e) == Stop(UnclosedComment);
    hide ReadComment;
  }

  lemma DashesAre(raw: string, rest: string)
    requires EndsAt(raw, "--")
    ensures var c := raw + ("--" + rest); FindSub(c, "--") == |raw| < |c| && c[|raw| + 2..] == rest
  {
    Assoc(raw, "--", rest);
    FindSubStops(raw + "--", "--", rest);
  }

  lemma ReadCutStart(st: State, name: string, e: char)
    requires IsTagName(name) && !st.IsClosed() && e != '>'
    ensures Read(st, name, e) == Stop(MissingGt)
  {
    CspanAt(name, WS + {'/', '>'}, |name|);
    hide Cspan;
    assert name[|name|..] == [];
  }

  lemma ReadSlash(st: State, name: string, ws: seq<Written>, gap: string, rest: string, e: char)
    requires IsStart(name, ws, gap) && !st.IsClosed() && (if rest == [] then e else rest[0]) != '>'
    ensures Read(st, name + (ShowAttrs(ws) + (gap + ("/" + rest))), e) == Stop(MissingGt)
  {
    hide ReadAttrs, SkipSpaces, ShowAttrs, Open, Close, Cspan;
    ReadHead(name, ws, gap, "/" + rest);
    assert ("/" + rest)[1..] == rest;
  }

  // ----- a value that is not closed -----

  lemma ReadOpenValue(attr: string, mid: string, q: char, raw: string)
    requires IsAttrName(attr) && mid != [] && (forall i :: 0 <= i < |mid| ==> mid[i] in WS + {'='})
    requires q in {'"', '\''} && q !in raw
    ensures var s := attr + (mid + ([q] + raw));
            s[0] !in {'/', '>'} && !IsSpace(s[0]) && ReadAttr(s) == Quote(q)
  {
    hide Decoded, SkipSpaces, Span, Cspan, IsAttrName;
    var u := [q] + raw;
    var t := mid + u;
    NameEnds(attr, t);
    assert t[1..] == mid[1..] + u;
    SpanAt(mid[1..], u, WS + {'='});
    assert t[|mid|..] == u && u[1..] == raw;
    FindFrom(raw, q, |raw|);
    hide Find;
  }

  lemma BadMore(s: string, attr: Attr, rest: string, q: char)
    requires s != [] && s[0] !in {'/', '>'} && !IsSpace(s[0]) && ReadAttr(s) == One(attr, rest)
    requires ReadAttrs(rest) == BadQuote(q)
    ensures ReadAttrs(s) == BadQuote(q)
  {
    hide ReadAttr;
  }

  lemma BadHere(s: string, q: char)
    requires s != [] && s[0] !in {'/', '>'} && !IsSpace(s[0]) && ReadAttr(s) == Quote(q)
    ensures ReadAttrs(s) == BadQuote(q)
  {
    hide ReadAttr;
  }

  lemma {:induction false} ReadAllBad(ws: seq<Written>, gap: string, s: string, q: char)
    requires AreWritten(ws) && IsBlank(gap) && gap != []
    requires s != [] && !IsSpace(s[0]) && s[0] !in {'=', '"', '\'', '/', '>'} && ReadAttr(s) == Quote(q)
    ensures ReadAttrs(SkipSpaces(ShowAttrs(ws) + (gap + s))) == BadQuote(q)
    decreases |ws|
  {
    hide ReadAttr, SkipSpaces, ReadAttrs, ShowUngapped;
    if ws == [] {
      assert ShowAttrs(ws) + (gap + s) == gap + s;
      SkipGap(gap, s);
      BadHere(s, q);
    } else {
      var w, more := ws[0], ShowAttrs(ws[1..]) + (gap + s);
      var t := ShowUngapped(w) + more;
      assert ShowAttrs(ws) + (gap + s) == w.gap + t by {
        Assoc(ShowAttr(w), ShowAttrs(ws[1..]), gap + s);
        Assoc(w.gap, ShowUngapped(w), more);
      }
      if w.Bare? {
        ReadBareIn(ws, gap, s);
      } else {
        ReadWritten(w, more);
      }
      GapIs(w);
      SkipGap(w.gap, t);
      ReadAllBad(ws[1..], gap, s, q);
      BadMore(t, ValueOf(w), SkipSpaces(more), q);
    }
  }

  lemma ReadOpenTag(st: State, name: string, ws: seq<Written>, gap: string, s: string, q: char, e: char)
    requires IsStart(name, ws, gap) && gap != [] && !st.IsClosed()
    requires s != [] && !IsSpace(s[0]) && s[0] !in {'=', '"', '\'', '/', '>'} && ReadAttr(s) == Quote(q)
    ensures Read(st, name + (ShowAttrs(ws) + (gap + s)), e) == Stop(MissingQuote(q))
  {
    ReadAllBad(ws, gap, s, q);
    hide ReadAttrs, ReadAttr, SkipSpaces, ShowAttrs, IsWritten;
    var t := ShowAttrs(ws) + (gap + s);
    var d, n := name + t, |name|;
    assert forall i :: 0 <= i < n ==> d[i] == name[i];
    AttrsStop(ws, gap + s);
    assert d[n] == t[0];
    CspanAt(d, WS + {'/', '>'}, n);
    assert d[..n] == name && d[n..] == t;
    hide Cspan;
  }

  // ----- in a document -----

  /** The scan of a malformed markup, whose last character is the end character. */
  lemma ReadMalformed(st: State, m: Malformed)
    requires IsMalformed(m) && !st.IsClosed()
    ensures var d := ShowMalformed(m); d != [] && Read(st, d[..|d| - 1], d[|d| - 1]) == Stop(ErrorOf(m))
  {
    hide Read, ShowAttrs, IsStart, IsAttrName, Lacks;
    match m
    case Stray(rest) => ReadStray(st, rest);
    case OpenRemark(raw) =>
      DropLastOf("!--", raw);
      ReadOpenRemark(st, raw, raw[|raw| - 1]);
    case OpenSection(raw) =>
      DropLastOf("![CDATA[", raw);
      ReadOpenSection(st, raw, raw[|raw| - 1]);
    case Dashes(raw, rest) =>
      DropLastOf("--", rest);
      DropLastOf(raw, "--" + rest);
      DropLastOf("!--", raw + ("--" + rest));
      ReadDashes(st, raw, rest[..|rest| - 1], rest[|rest| - 1]);
    case CutStart(name, last) =>
      assert (name + [last])[..|name|] == name;
      ReadCutStart(st, name, last);
    case CutEnd(raw) =>
      DropLastOf("/", raw);
      ReadCutEnd(st, raw);
    case Slash(name, ws, gap, rest) => ReadSlashLast(st, name, ws, gap, rest);
    case OpenValue(name, ws, gap, attr, mid, q, raw) => ReadValueOpen(st, name, ws, gap, attr, mid, q, raw);
  }

  lemma ReadSlashLast(st: State, name: string, ws: seq<Written>, gap: string, rest: string)
    requires IsStart(name, ws, gap) && !st.IsClosed() && rest != [] && rest[0] != '>'
    ensures var d := name + (ShowAttrs(ws) + (gap + ("/" + rest)));
            d != [] && Read(st, d[..|d| - 1], d[|d| - 1]) == Stop(MissingGt)
  {
    hide Read, ShowAttrs, IsStart;
    DropLastOf("/", rest);
    DropLastOf(gap, "/" + rest);
    DropLastOf(ShowAttrs(ws), gap + ("/" + rest));
    DropLastOf(name, ShowAttrs(ws) + (gap + ("/" + rest)));
    ReadSlash(st, name, ws, gap, rest[..|rest| - 1], rest[|rest| - 1]);
  }

  lemma ReadValueOpen(st: State, name: string, ws: seq<Written>, gap: string, attr: string, mid: string, q: char,
                      raw: string)
    requires !st.IsClosed() && IsStart(name, ws, gap) && gap != [] && IsAttrName(attr) && attr[0] !in {'"', '\''}
    requires mid != [] && (forall c <- mid :: c in BLANKS + {'='}) && q in {'"', '\''} && raw != [] && q !in raw
    ensures var d := name + (ShowAttrs(ws) + (gap + (attr + (mid + ([q] + raw)))));
            d != [] && Read(st, d[..|d| - 1], d[|d| - 1]) == Stop(MissingQuote(q))
  {
    hide Read, ShowAttrs, IsStart, IsAttrName, ReadAttr;
    var y := raw[..|raw| - 1];
    var z := [q] + raw;
    DropLastOf([q], raw);
    DropLastOf(mid, z);
    DropLastOf(attr, mid + z);
    DropLastOf(gap, attr + (mid + z));
    DropLastOf(ShowAttrs(ws), gap + (attr + (mid + z)));
    DropLastOf(name, ShowAttrs(ws) + (gap + (attr + (mid + z))));
    BlanksAre();
    ReadOpenValue(attr, mid, q, y);
    NameIsNoValue(attr, mid + ([q] + y));
    ReadOpenTag(st, name, ws, gap, attr + (mid + ([q] + y)), q, raw[|raw| - 1]);
  }

  lemma ReadStray(st: State, rest: string)
    requires rest != [] && !IsNameStart(rest[0]) && rest[0] !in {'/', '!', '?'}
    ensures Read(st, rest[..|rest| - 1], rest[|rest| - 1]) == Stop(UnexpectedLt)
  {
    NameStartIs(rest[0]);
  }

  lemma NameIsNoValue(attr: string, rest: string)
    requires IsAttrName(attr) && attr[0] !in {'"', '\''}
    ensures (attr + rest)[0] !in {'=', '"', '\'', '/', '>'} && !IsSpace((attr + rest)[0])
  {
  }

  /** Malformed markup at any depth, after any complete content, ends the parse with its own error. */
  lemma MalformedIsRefused(lead: string, name: string, attrs: seq<Written>, gap: string, os: seq<Opening>,
                           ps: seq<Piece>, tail: string, m: Malformed)
    requires IsText(lead) && IsStart(name, attrs, gap) && AreOpenings(os) && ArePieces(ps) && IsText(tail)
    requires IsMalformed(m)
    ensures Parse(ShowOpen(lead, name, attrs, gap, os, ShowPieces(ps) + (tail + ("<" + ShowMalformed(m))))) ==
            Failed(ErrorOf(m))
  {
    hide Parse, ShowOpen, FromText, UpToNul, ArePieces, ShowPieces, ShowMalformed, IsStart, Read, FromTag;
    var d := ShowMalformed(m);
    ShownHasNoNul(m);
    var x := ShowPieces(ps) + (tail + ("<" + d));
    var st := ParseOpen(lead, name, attrs, gap, os, x);
    var y, e := d[..|d| - 1], d[|d| - 1];
    BeforeLast(ps, tail, d);
    PiecesStep(st, ps, tail, "<" + y, e);
    var st' := st.WithCur(More(Filled(st.Cur(), ps), tail, Text));
    ReadMalformed(st', m);
    StopStep(st', y, e, ErrorOf(m));
  }

  lemma BeforeLast(ps: seq<Piece>, tail: string, d: string)
    requires ArePieces(ps) && IsText(tail) && d != [] && '\0' !in d
    ensures var (x, y) := (ShowPieces(ps) + (tail + ("<" + d)), d[..|d| - 1]);
            && x != [] && x[|x| - 1] == d[|d| - 1]
            && UpToNul(x[..|x| - 1]) == ShowPieces(ps) + (tail + ("<" + y))
  {
    hide UpToNul, ArePieces, ShowPieces;
    var y := d[..|d| - 1];
    DropLastOf("<", d);
    DropLastOf(tail, "<" + d);
    DropLastOf(ShowPieces(ps), tail + ("<" + d));
    PiecesHaveNoNul(ps);
    NoNulKeeps(y);
    UpToNulAfter("<", y);
    UpToNulAfter(tail, "<" + y);
    UpToNulAfter(ShowPieces(ps), tail + ("<" + y));
  }

  lemma ShownHasNoNul(m: Malformed)
    requires IsMalformed(m)
    ensures '\0' !in ShowMalformed(m) && ShowMalformed(m) != []
  {
    hide ShowAttrs, IsAttrName;
  }
}
