/** Documents as people write them, and the tree that the parser makes of each. */
module EzxmlSyntax {
  import opened Bytes
  import opened EzxmlText
  import opened EzxmlEntities
  import opened EzxmlCodec
  import opened EzxmlDecode
  import opened EzxmlNode
  import opened EzxmlAmp
  import opened EzxmlParser
  import EzxmlPlain

  // ----- the concrete syntax -----

  /** A letter, '_', ':' or anything from 0x80 on. */
  predicate IsNameStart(c: char) {
    'a' <= c <= 'z' || 'A' <= c <= 'Z' || c in {'_', ':'} || c as int >= 0x80
  }

  lemma NameStartIs(c: char)
    ensures StartsName(c) <==> IsNameStart(c)
  {
  }

  /** White space as in section 2.3 of XML 1.0. */
  const BLANKS := {' ', '\t', '\r', '\n'}

  /** They are what the scans pass over. */
  lemma BlanksAre()
    ensures BLANKS == WS && forall c :: c in BLANKS ==> IsSpace(c)
  {
  }

  predicate IsTagName(s: string) {
    s != [] && IsNameStart(s[0]) && forall i :: 0 <= i < |s| ==> s[i] !in BLANKS + {'/', '>', '\0'}
  }

  predicate IsAttrName(s: string) {
    s != [] && s[0] !in {VERTICAL_TAB, FORM_FEED} && forall i :: 0 <= i < |s| ==> s[i] !in BLANKS + {'=', '/', '>', '\0'}
  }

  /** An attribute with the white space before it and around its '=', its quote and its value as written; or a name
      without a value. */
  datatype Written =
    | Written(gap: string, name: string, before: string, after: string, quote: char, raw: string)
    | Bare(gap: string, name: string)

  /** A tag is self-closing, or it has content and a closing tag. */
  datatype Body = Empty | Content(pieces: seq<Piece>, tail: string, end: string)

  datatype Markup =
    | Element(name: string, attrs: seq<Written>, gap: string, body: Body)
    | Section(raw: string)
    | Comment(raw: string)

  /** Text as written, and the markup that ends it. */
  datatype Piece = Piece(text: string, markup: Markup)

  predicate IsBlank(s: string) {
    forall i :: 0 <= i < |s| ==> s[i] in BLANKS
  }

  predicate IsWritten(w: Written) {
    && IsBlank(w.gap) && w.gap != [] && IsAttrName(w.name)
    && (w.Written? ==>
          IsBlank(w.before) && IsBlank(w.after) && w.quote in {'"', '\''} && w.quote !in w.raw && '\0' !in w.raw)
  }

  /** A name that begins with a quote would be the value of a bare name before it. */
  predicate AreWritten(ws: seq<Written>) {
    && (forall w <- ws :: IsWritten(w))
    && forall i :: 0 <= i < |ws| - 1 && ws[i].Bare? ==> ws[i + 1].name == [] || ws[i + 1].name[0] !in {'"', '\''}
  }

  /** The first `what` of s + what is the one at its end. */
  predicate EndsAt(s: string, what: string) {
    FindSub(s + what, what) == |s|
  }

  predicate IsMarkup(m: Markup)
    decreases m, 0
  {
    match m
    case Element(name, attrs, gap, body) =>
      IsTagName(name) && AreWritten(attrs) && IsBlank(gap) && IsBody(body)
    case Section(raw) => EndsAt(raw, "]]>") && '\0' !in raw
    case Comment(raw) => EndsAt(raw, "--") && '\0' !in raw
  }

  predicate IsBody(b: Body)
    decreases b, 1
  {
    match b
    case Empty => true
    case Content(pieces, tail, end) => ArePieces(pieces) && IsText(tail) && IsBlank(end)
  }

  predicate ArePieces(ps: seq<Piece>)
    decreases ps, 2
  {
    ps != [] ==> IsText(ps[0].text) && IsMarkup(ps[0].markup) && ArePieces(ps[1..])
  }

  predicate IsText(s: string) {
    '<' !in s && '\0' !in s
  }

  function ShowAttr(w: Written): string {
    w.gap + ShowUngapped(w)
  }

  function ShowUngapped(w: Written): string {
    if w.Bare? then w.name else w.name + (w.before + "=" + w.after + ([w.quote] + (w.raw + [w.quote])))
  }

  function ShowAttrs(ws: seq<Written>): string {
    if ws == [] then [] else ShowAttr(ws[0]) + ShowAttrs(ws[1..])
  }

  function ShowMarkup(m: Markup): string
    decreases m, 0
  {
    match m
    case Element(name, attrs, gap, body) => "<" + (name + (ShowAttrs(attrs) + (gap + ShowBody(name, body))))
    case Section(raw) => "<![CDATA[" + (raw + "]]>")
    case Comment(raw) => "<!--" + (raw + "-->")
  }

  function ShowBody(name: string, b: Body): string
    decreases b, 1
  {
    match b
    case Empty => "/>"
    case Content(pieces, tail, end) => ">" + (ShowPieces(pieces) + (tail + ("</" + (name + (end + ">")))))
  }

  function ShowPieces(ps: seq<Piece>): string
    decreases ps, 2
  {
    if ps == [] then [] else ps[0].text + (ShowMarkup(ps[0].markup) + ShowPieces(ps[1..]))
  }

  // ----- what a document means -----

  ghost function ValueOf(w: Written): Attr {
    Attr(w.name, if w.Bare? then "" else Decoded(w.raw, Attribute))
  }

  ghost function Values(ws: seq<Written>): seq<Attr> {
    if ws == [] then [] else [ValueOf(ws[0])] + Values(ws[1..])
  }

  ghost function NodeOf(m: Markup, off: nat): Node
    requires m.Element?
    decreases m, 0
  {
    var n := Node(m.name, Values(m.attrs), "", off, []);
    match m.body
    case Empty => n
    case Content(pieces, tail, _) => More(Filled(n, pieces), tail, Text)
  }

  /** Text as written, decoded and appended. */
  ghost function More(n: Node, raw: string, mode: Mode): Node {
    n.(txt := n.txt + Decoded(raw, mode))
  }

  /** A tag stands at the end of the text before it, a CDATA section is text as it is but for line ends, and a comment
    * is nothing. */
  ghost function Taken(n: Node, m: Markup): Node
    decreases m, 1
  {
    match m
    case Element(_, _, _, _) => n.(kids := n.kids + [NodeOf(m, |n.txt|)])
    case Section(raw) => n.(txt := n.txt + Normalized(raw))
    case Comment(_) => n
  }

  ghost function Filled(n: Node, ps: seq<Piece>): Node
    decreases ps, 2
  {
    if ps == [] then n else Filled(Taken(More(n, ps[0].text, Text), ps[0].markup), ps[1..])
  }

  // ----- scans -----

  lemma CspanAt(s: string, stops: set<char>, n: nat)
    requires n <= |s| && (n < |s| ==> s[n] in stops) && forall i :: 0 <= i < n ==> s[i] !in stops
    ensures Cspan(s, stops) == n
  {
  }

  lemma UpToNulKeeps(s: string)
    requires '\0' !in s
    ensures UpToNul(s) == s
  {
    FindFrom(s, '\0', |s|);
  }

  lemma ReadMore(s: string, attr: Attr, rest: string, attrs: seq<Attr>, rest': string)
    requires s != [] && s[0] !in {'/', '>'} && !IsSpace(s[0]) && ReadAttr(s) == One(attr, rest)
    requires ReadAttrs(rest) == All(attrs, rest')
    ensures ReadAttrs(s) == All([attr] + attrs, rest')
  {
    hide ReadAttr;
  }

  lemma {:induction false} SkipGap(gap: string, s: string)
    requires IsBlank(gap) && (s != [] ==> !IsSpace(s[0]))
    ensures SkipSpaces(gap + s) == s
  {
    if gap == [] {
      assert gap + s == s;
    } else {
      assert (gap + s)[1..] == gap[1..] + s;
      SkipGap(gap[1..], s);
    }
  }

  lemma {:induction false} SpanAt(a: string, s: string, chars: set<char>)
    requires (forall i :: 0 <= i < |a| ==> a[i] in chars) && (s != [] ==> s[0] !in chars)
    ensures Span(a + s, chars) == |a|
  {
    if a == [] {
      assert a + s == s;
    } else {
      assert (a + s)[1..] == a[1..] + s;
      SpanAt(a[1..], s, chars);
    }
  }

  lemma {:induction false} FindSubStops(s: string, what: string, t: string)
    requires FindSub(s, what) + |what| <= |s| && what != []
    ensures FindSub(s + t, what) == FindSub(s, what)
  {
    if what <= s {
      assert what <= s + t;
    } else {
      assert !(what <= s + t) by {
        assert (s + t)[..|what|] == s[..|what|];
      }
      assert (s + t)[1..] == s[1..] + t;
      FindSubStops(s[1..], what, t);
    }
  }

  // ----- one attribute -----

  /** The scans of the attribute loop, put together. */
  lemma ReadAttrIs(s: string, n: nat, j: nat, q: char, k: nat)
    requires s != [] && s[0] !in {'/', '>'} && !IsSpace(s[0]) && q in {'"', '\''}
    requires Cspan(s, WS + {'=', '/', '>'}) == n < |s| && s[n] !in {'/', '>'}
    requires j == 1 + Span(s[n..][1..], WS + {'='}) < |s[n..]|
    requires var u := s[n..][j..]; u[0] == q && Find(u[1..], q) == k < |u[1..]|
    ensures var u := s[n..][j..];
            ReadAttr(s) == One(Attr(s[..n], Decoded(u[1..][..k], Attribute)), SkipSpaces(u[k + 2..]))
  {
    hide Decoded, SkipSpaces, Span, Cspan, Find;
  }

  lemma NameEnds(name: string, t: string)
    requires IsAttrName(name) && t != [] && t[0] in WS + {'='}
    ensures var (s, n) := (name + t, |name|);
            s[0] !in {'/', '>'} && !IsSpace(s[0]) && Cspan(s, WS + {'=', '/', '>'}) == n && s[..n] == name && s[n..] == t
  {
    var s, n := name + t, |name|;
    assert forall i :: 0 <= i < n ==> s[i] == name[i];
    assert s[n] == t[0];
    CspanAt(s, WS + {'=', '/', '>'}, n);
  }

  lemma ValueEnds(q: char, raw: string, rest: string)
    requires q !in raw
    ensures var w := raw + ([q] + rest);
            Find(w, q) == |raw| < |w| && w[..|raw|] == raw && ([q] + w)[1..] == w && ([q] + w)[|raw| + 2..] == rest
  {
    var w := raw + ([q] + rest);
    assert w[|raw|] == q;
    FindFrom(w, q, |raw|);
  }

  /** A name, white space and '=', and a quoted value, whatever follows. */
  lemma ReadSpaced(name: string, mid: string, q: char, raw: string, rest: string)
    requires IsAttrName(name) && mid != [] && (forall i :: 0 <= i < |mid| ==> mid[i] in WS + {'='})
    requires q in {'"', '\''} && q !in raw
    ensures var s := name + (mid + ([q] + (raw + ([q] + rest))));
            s[0] !in {'/', '>'} && !IsSpace(s[0]) &&
            ReadAttr(s) == One(Attr(name, Decoded(raw, Attribute)), SkipSpaces(rest))
  {
    hide Decoded, SkipSpaces, Span, Cspan, ReadAttr, IsAttrName, Find;
    var w := raw + ([q] + rest);
    var u := [q] + w;
    var t := mid + u;
    NameEnds(name, t);
    ValueEnds(q, raw, rest);
    assert t[1..] == mid[1..] + u;
    SpanAt(mid[1..], u, WS + {'='});
    assert t[|mid|..] == u;
    ReadAttrIs(name + t, |name|, |mid|, q, |raw|);
  }

  lemma ReadWritten(w: Written, rest: string)
    requires IsWritten(w) && w.Written?
    ensures var s := ShowUngapped(w) + rest;
            s != [] && s[0] !in {'/', '>'} && !IsSpace(s[0]) && ReadAttr(s) == One(ValueOf(w), SkipSpaces(rest))
  {
    hide Decoded, SkipSpaces, ReadAttr, IsAttrName;
    var mid := w.before + "=" + w.after;
    var x := w.raw + ([w.quote] + rest);
    var u := [w.quote] + x;
    var t := mid + u;
    var s := ShowUngapped(w) + rest;
    assert s == w.name + t by {
      Assoc(w.raw, [w.quote], rest);
      Assoc([w.quote], w.raw + [w.quote], rest);
      Assoc(mid, [w.quote] + (w.raw + [w.quote]), rest);
      Assoc(w.name, mid + ([w.quote] + (w.raw + [w.quote])), rest);
    }
    MidIs(w);
    ReadSpaced(w.name, mid, w.quote, w.raw, rest);
  }

  /** A name that no '=' follows, but white space or the end of the tag. */
  lemma ReadBare(name: string, b: string, x: string)
    requires IsAttrName(name) && IsBlank(b) && x != [] && !IsSpace(x[0]) && x[0] !in {'=', '"', '\''}
    requires b == [] ==> x[0] in {'/', '>'}
    ensures var s := name + (b + x);
            s[0] !in {'/', '>'} && !IsSpace(s[0]) && ReadAttr(s) == One(Attr(name, ""), SkipSpaces(b + x))
  {
    hide ReadAttr, SkipSpaces, IsAttrName;
    SkipGap(b, x);
    if b == [] {
      assert b + x == x;
      BareEnds(name, x);
    } else {
      GapEnds(name, b, x);
    }
  }

  lemma GapEnds(name: string, b: string, x: string)
    requires IsAttrName(name) && IsBlank(b) && b != [] && x != [] && !IsSpace(x[0]) && x[0] !in {'=', '"', '\''}
    ensures var s := name + (b + x);
            s[0] !in {'/', '>'} && !IsSpace(s[0]) && ReadAttr(s) == One(Attr(name, ""), x)
  {
    BlanksAre();
    NotQuoted(name, b, x);
    SkipGap([], x);
    assert [] + x == x;
  }

  /** What follows a name, or a name and its '=', without a quote is no value: it is left for the next attribute. */
  lemma NotQuoted(name: string, mid: string, x: string)
    requires IsAttrName(name) && mid != [] && (forall i :: 0 <= i < |mid| ==> mid[i] in BLANKS + {'='})
    requires x != [] && x[0] !in BLANKS + {'=', '"', '\''}
    ensures var s := name + (mid + x);
            s[0] !in {'/', '>'} && !IsSpace(s[0]) && ReadAttr(s) == One(Attr(name, ""), SkipSpaces(x))
  {
    BlanksAre();
    hide IsAttrName;
    assert mid[0] in WS + {'='} && mid[0] !in {'/', '>'};
    NameEnds(name, mid + x);
    assert (mid + x)[1..] == mid[1..] + x;
    SpanAt(mid[1..], x, WS + {'='});
    assert (mid + x)[|mid|..] == x;
    hide Span, Cspan, SkipSpaces;
  }

  lemma BareEnds(name: string, x: string)
    requires IsAttrName(name) && x != [] && x[0] in {'/', '>'}
    ensures ReadAttr(name + x) == One(Attr(name, ""), x) && name[0] !in {'/', '>'} && !IsSpace(name[0])
  {
    var s := name + x;
    assert s[|name|] == x[0];
    CspanAt(s, WS + {'=', '/', '>'}, |name|);
    assert s[..|name|] == name && s[|name|..] == x;
  }

  /** What follows a bare name in a list: white space and a name, or the end of the list. */
  lemma ReadBareIn(ws: seq<Written>, gap: string, rest: string)
    requires ws != [] && ws[0].Bare? && AreWritten(ws) && IsBlank(gap)
    requires rest != [] && !IsSpace(rest[0]) && rest[0] !in {'=', '"', '\''} && (gap == [] ==> rest[0] in {'>', '/'})
    ensures var more := ShowAttrs(ws[1..]) + (gap + rest);
            var s := ShowUngapped(ws[0]) + more;
            s != [] && s[0] !in {'/', '>'} && !IsSpace(s[0]) && ReadAttr(s) == One(ValueOf(ws[0]), SkipSpaces(more))
  {
    var name := ws[0].name;
    assert ws[0] in ws;
    assert IsWritten(ws[0]);
    assert ShowUngapped(ws[0]) == name;
    hide ReadAttr, SkipSpaces, ShowUngapped, IsAttrName;
    if |ws| == 1 {
      assert ShowAttrs(ws[1..]) + (gap + rest) == gap + rest;
      ReadBare(name, gap, rest);
    } else {
      var w, y := ws[1], ShowAttrs(ws[2..]) + (gap + rest);
      assert ws[1..][0] == w && ws[1..][1..] == ws[2..];
      assert ShowAttrs(ws[1..]) + (gap + rest) == w.gap + (ShowUngapped(w) + y) by {
        Assoc(ShowAttr(w), ShowAttrs(ws[2..]), gap + rest);
        Assoc(w.gap, ShowUngapped(w), y);
      }
      NextIsNoValue(ws);
      StartsWithName(w, y);
      ReadBare(name, w.gap, ShowUngapped(w) + y);
    }
  }

  lemma NextIsNoValue(ws: seq<Written>)
    requires AreWritten(ws) && |ws| > 1 && ws[0].Bare?
    ensures var w := ws[1]; IsWritten(w) && IsBlank(w.gap) && w.gap != [] && w.name != [] && w.name[0] !in {'"', '\''}
  {
    assert ws[0 + 1] in ws;
    assert IsWritten(ws[1]);
  }

  lemma StartsWithName(w: Written, y: string)
    requires IsWritten(w)
    ensures w.name != [] && ShowUngapped(w) != [] && (ShowUngapped(w) + y)[0] == w.name[0] &&
            !IsSpace(w.name[0]) && w.name[0] !in {'=', '/', '>'}
  {
  }

  lemma MidIs(w: Written)
    requires w.Written? && IsBlank(w.before) && IsBlank(w.after)
    ensures var mid := w.before + "=" + w.after; mid != [] && forall i :: 0 <= i < |mid| ==> mid[i] in WS + {'='}
  {
  }

  /** The attributes of a tag as written, and the white space before its end. */
  lemma {:induction false} ReadAllWritten(ws: seq<Written>, gap: string, rest: string)
    requires AreWritten(ws) && IsBlank(gap) && rest != [] && rest[0] in {'>', '/'}
    ensures ReadAttrs(SkipSpaces(ShowAttrs(ws) + (gap + rest))) == All(Values(ws), rest)
  {
    hide ReadAttr, SkipSpaces, ReadAttrs, ShowUngapped;
    if ws == [] {
      assert ShowAttrs(ws) + (gap + rest) == gap + rest;
      SkipGap(gap, rest);
      EndsAttrs(rest);
    } else {
      var w, more := ws[0], ShowAttrs(ws[1..]) + (gap + rest);
      var s := ShowUngapped(w) + more;
      assert ShowAttrs(ws) + (gap + rest) == w.gap + s by {
        Assoc(ShowAttr(w), ShowAttrs(ws[1..]), gap + rest);
        Assoc(w.gap, ShowUngapped(w), more);
      }
      if w.Bare? {
        ReadBareIn(ws, gap, rest);
      } else {
        ReadWritten(w, more);
      }
      GapIs(w);
      SkipGap(w.gap, s);
      ReadAllWritten(ws[1..], gap, rest);
      ReadMore(s, ValueOf(w), SkipSpaces(more), Values(ws[1..]), rest);
    }
  }

  lemma GapIs(w: Written)
    requires IsWritten(w)
    ensures IsBlank(w.gap) && w.gap != []
  {
  }

  lemma EndsAttrs(s: string)
    requires s != [] && s[0] in {'>', '/'}
    ensures ReadAttrs(s) == All([], s) && !IsSpace(s[0])
  {
  }

  // ----- one markup -----

  lemma ReadHead(name: string, ws: seq<Written>, gap: string, x: string)
    requires IsTagName(name) && AreWritten(ws) && IsBlank(gap) && x != [] && x[0] in {'>', '/'}
    ensures var d, n := name + (ShowAttrs(ws) + (gap + x)), |name|;
            n <= |d| && d[0] == name[0] && Cspan(d, WS + {'/', '>'}) == n && d[..n] == name &&
            ReadAttrs(SkipSpaces(d[n..])) == All(Values(ws), x)
  {
    hide ReadAttrs, SkipSpaces, ShowAttrs, IsWritten;
    var t := ShowAttrs(ws) + (gap + x);
    var d, n := name + t, |name|;
    assert forall i :: 0 <= i < n ==> d[i] == name[i];
    AttrsStop(ws, gap + x);
    assert (gap + x)[0] in WS + {'/', '>'};
    assert d[n] == t[0];
    CspanAt(d, WS + {'/', '>'}, n);
    assert d[..n] == name && d[n..] == t;
    ReadAllWritten(ws, gap, x);
  }

  lemma AttrsStop(ws: seq<Written>, y: string)
    requires AreWritten(ws) && y != [] && y[0] in WS + {'/', '>'}
    ensures ShowAttrs(ws) + y != [] && (ShowAttrs(ws) + y)[0] in WS + {'/', '>'}
  {
    if ws != [] {
      GapIs(ws[0]);
    }
  }

  lemma ReadStart(st: State, name: string, ws: seq<Written>, gap: string, rest: string, e: char)
    requires IsTagName(name) && AreWritten(ws) && IsBlank(gap) && !st.IsClosed()
    ensures Read(st, name + (ShowAttrs(ws) + (gap + (">" + rest))), e) == Go(Open(st, name, Values(ws)), ">" + rest)
  {
    hide ReadAttrs, SkipSpaces, ShowAttrs, Open, Cspan;
    ReadHead(name, ws, gap, ">" + rest);
  }

  /** A self-closing tag; its '>' is the next character or the end character. */
  lemma ReadEmpty(st: State, name: string, ws: seq<Written>, gap: string, rest: string, e: char)
    requires IsTagName(name) && AreWritten(ws) && IsBlank(gap) && !st.IsClosed()
    requires (if rest == [] then e else rest[0]) == '>'
    ensures Read(st, name + (ShowAttrs(ws) + (gap + ("/" + rest))), e) == Go(Close(Open(st, name, Values(ws))), rest)
  {
    hide ReadAttrs, SkipSpaces, ShowAttrs, Open, Close, Cspan;
    ReadHead(name, ws, gap, "/" + rest);
    assert ("/" + rest)[1..] == rest;
  }

  lemma ReadEnd(st: State, name: string, end: string, rest: string, e: char)
    requires IsTagName(name) && IsBlank(end) && st.open != [] && st.Cur().name == name
    requires rest == [] ==> e == '>'
    requires rest != [] ==> rest[0] == '>'
    ensures Read(st, "/" + (name + (end + rest)), e) == Go(Close(st), rest)
  {
    hide Cspan, Span, Close, ReadOpen, ReadComment, ReadCdata;
    var d := "/" + (name + (end + rest));
    var t := end + rest;
    assert d[1..] == name + t;
    assert t != [] ==> t[0] in WS + {'>'};
    assert t != [] ==> (name + t)[|name|] == t[0];
    CspanAt(d[1..], WS + {'>'}, |name|);
    assert d[1..][..|name|] == name && d[1..][|name|..] == t;
    SpanAt(end, rest, WS);
    assert t[|end|..] == rest;
  }

  lemma ReadRemark(st: State, raw: string, rest: string, e: char)
    requires EndsAt(raw, "--")
    ensures Read(st, "!--" + (raw + ("-->" + rest)), e) == Go(st, ">" + rest)
  {
    hide FindSub;
    var d := "!--" + (raw + ("-->" + rest));
    assert d[3..] == raw + "--" + (">" + rest);
    FindSubStops(raw + "--", "--", ">" + rest);
    assert d[3..][|raw| + 2..] == ">" + rest;
    assert "!--" <= d;
  }

  lemma ReadSection(st: State, raw: string, rest: string, e: char)
    requires EndsAt(raw, "]]>")
    ensures Read(st, "![CDATA[" + (raw + ("]]>" + rest)), e) == Go(AddText(st, raw, Cdata), ">" + rest)
  {
    hide FindSub, AddText;
    var d := "![CDATA[" + (raw + ("]]>" + rest));
    assert d[8..] == raw + "]]>" + rest;
    FindSubStops(raw + "]]>", "]]>", rest);
    assert d[8..][..|raw|] == raw && d[8..][|raw| + 2..] == ">" + rest;
    assert "![CDATA[" <= d && !("!--" <= d) by {
      assert d[1] == '[';
    }
  }

  lemma TagStep(st: State, d: string, e: char, st': State, rest: string)
    requires Read(st, d, e) == Go(st', ">" + rest)
    ensures FromTag(st, "<" + d, e) == FromText(st', rest, e)
  {
    hide Read, FromText;
    assert ("<" + d)[1..] == d && (">" + rest)[1..] == rest;
  }

  lemma StopStep(st: State, d: string, e: char, error: Error)
    requires Read(st, d, e) == Stop(error)
    ensures FromTag(st, "<" + d, e) == Failed(error)
  {
    hide Read;
    assert ("<" + d)[1..] == d;
  }

  lemma CloseIs(st: State, k: Node)
    requires st.open != []
    ensures Close(State(st.open + [k], st.root)) == st.WithCur(st.Cur().(kids := st.Cur().kids + [k]))
  {
    assert (st.open + [k])[..|st.open|] == st.open;
  }

  // ----- text -----

  lemma DecodedNothing(mode: Mode)
    ensures Decoded("", mode) == ""
  {
    PredefinedIsUsable();
    PredefinedIsRanked();
    var rank := [0, 0, 0, 0, 0];
    AllBelow(PREDEFINED, rank, "");
    Nothing(PREDEFINED, mode, rank, Bound(rank));
    MeaningIs(PREDEFINED, "", mode, rank, Bound(rank));
  }

  lemma AddedText(st: State, raw: string, mode: Mode)
    requires st.open != []
    ensures AddText(st, raw, mode) == st.WithCur(More(st.Cur(), raw, mode))
  {
    DecodedNothing(mode);
    if raw == [] {
      assert st.Cur().txt + "" == st.Cur().txt;
      assert st.open[..|st.open| - 1] + [st.Cur()] == st.open;
    }
  }

  /** Written text before a '<'. */
  lemma WrittenText(st: State, raw: string, rest: string, e: char)
    requires st.open != [] && '<' !in raw && rest != [] && rest[0] == '<'
    ensures FromText(st, raw + rest, e) == FromTag(st.WithCur(More(st.Cur(), raw, Text)), rest, e)
  {
    hide FromTag, Decoded, More;
    var s := raw + rest;
    assert s[|raw|] == '<';
    FindFrom(s, '<', |raw|);
    assert s[..|raw|] == raw && s[|raw|..] == rest;
    AddedText(st, raw, Text);
  }

  // ----- whole documents -----

  ghost function Applied(st: State, m: Markup): State
    requires st.open != []
  {
    st.WithCur(Taken(st.Cur(), m))
  }

  lemma {:induction false} FilledKeepsName(n: Node, ps: seq<Piece>)
    ensures Filled(n, ps).name == n.name && Filled(n, ps).off == n.off && Filled(n, ps).attrs == n.attrs
    decreases |ps|
  {
    hide Decoded, NodeOf;
    if ps != [] {
      FilledKeepsName(Taken(More(n, ps[0].text, Text), ps[0].markup), ps[1..]);
    }
  }

  lemma ShowContent(m: Markup, rest: string)
    requires m.Element? && m.body.Content?
    ensures ShowMarkup(m) + rest ==
              "<" + (m.name + (ShowAttrs(m.attrs) + (m.gap + (">" + (ShowPieces(m.body.pieces) + (m.body.tail +
                ("<" + ("/" + (m.name + (m.body.end + (">" + rest)))))))))))
  {
    hide ShowAttrs, ShowPieces;
    var a, p, b := ShowAttrs(m.attrs), ShowPieces(m.body.pieces), m.body;
    var close := "</" + (m.name + (b.end + ">"));
    assert close + rest == "<" + ("/" + (m.name + (b.end + (">" + rest)))) by {
      Assoc(b.end, ">", rest);
      Assoc(m.name, b.end + ">", rest);
      Assoc("</", m.name + (b.end + ">"), rest);
    }
    Assoc(b.tail, close, rest);
    Assoc(p, b.tail + close, rest);
    Assoc(">", p + (b.tail + close), rest);
    Assoc(m.gap, ">" + (p + (b.tail + close)), rest);
    Assoc(a, m.gap + (">" + (p + (b.tail + close))), rest);
    Assoc(m.name, a + (m.gap + (">" + (p + (b.tail + close)))), rest);
    Assoc("<", m.name + (a + (m.gap + (">" + (p + (b.tail + close))))), rest);
  }

  lemma ShowEmpty(m: Markup, rest: string)
    requires m.Element? && m.body.Empty?
    ensures ShowMarkup(m) + rest == "<" + (m.name + (ShowAttrs(m.attrs) + (m.gap + ("/" + (">" + rest)))))
  {
    hide ShowAttrs;
    var a := ShowAttrs(m.attrs);
    Assoc(m.gap, "/>", rest);
    Assoc(a, m.gap + "/>", rest);
    Assoc(m.name, a + (m.gap + "/>"), rest);
    Assoc("<", m.name + (a + (m.gap + "/>")), rest);
    assert "/>" + rest == "/" + (">" + rest);
  }

  lemma ShowPlain(m: Markup, rest: string)
    ensures m.Section? ==> ShowMarkup(m) + rest == "<" + ("![CDATA[" + (m.raw + ("]]>" + rest)))
    ensures m.Comment? ==> ShowMarkup(m) + rest == "<" + ("!--" + (m.raw + ("-->" + rest)))
  {
    if m.Section? {
      Assoc(m.raw, "]]>", rest);
      Assoc("<![CDATA[", m.raw + "]]>", rest);
      assert "<![CDATA[" == "<" + "![CDATA[";
      Assoc("<", "![CDATA[", m.raw + ("]]>" + rest));
    } else if m.Comment? {
      Assoc(m.raw, "-->", rest);
      Assoc("<!--", m.raw + "-->", rest);
      assert "<!--" == "<" + "!--";
      Assoc("<", "!--", m.raw + ("-->" + rest));
    }
  }

  /** An open tag that closes becomes a sub tag of the one around it. */
  lemma ClosedIsTaken(st: State, m: Markup, k: Node)
    requires st.open != [] && m.Element? && k == NodeOf(m, |st.Cur().txt|)
    ensures Close(State(st.open + [k], st.root)) == Applied(st, m)
  {
    hide NodeOf;
    CloseIs(st, k);
  }

  lemma OpenIs(st: State, name: string, attrs: seq<Attr>, n: Node)
    requires st.open != []
    ensures var st1 := Open(st, name, attrs);
            st1.open != [] && st1.Cur() == Node(name, attrs, "", |st.Cur().txt|, []) && st1.root == st.root &&
            st1.WithCur(n) == State(st.open + [n], st.root)
  {
  }

  lemma {:induction false} MarkupStep(st: State, m: Markup, rest: string, e: char)
    requires st.open != [] && !st.IsClosed() && IsMarkup(m)
    ensures FromTag(st, ShowMarkup(m) + rest, e) == FromText(Applied(st, m), rest, e)
    decreases m, 0
  {
    hide Read, FromTag, FromText, ShowMarkup, AddText, NodeOf, ShowAttrs, Open, Close, Values, EndsAt;
    match m
    case Section(raw) =>
      ShowPlain(m, rest);
      ReadSection(st, raw, rest, e);
      TagStep(st, "![CDATA[" + (raw + ("]]>" + rest)), e, AddText(st, raw, Cdata), rest);
      AddedText(st, raw, Cdata);
      EzxmlPlain.PlainDecoded(raw, Cdata);
    case Comment(raw) =>
      ShowPlain(m, rest);
      ReadRemark(st, raw, rest, e);
      TagStep(st, "!--" + (raw + ("-->" + rest)), e, st, rest);
      assert st.open[..|st.open| - 1] + [st.Cur()] == st.open;
    case Element(name, attrs, gap, body) =>
      if body.Empty? {
        EmptyStep(st, m, rest, e);
      } else {
        ContentStep(st, m, rest, e);
      }
  }

  lemma EmptyStep(st: State, m: Markup, rest: string, e: char)
    requires st.open != [] && !st.IsClosed() && IsMarkup(m) && m.Element? && m.body.Empty?
    ensures FromTag(st, ShowMarkup(m) + rest, e) == FromText(Applied(st, m), rest, e)
  {
    hide Read, FromTag, FromText, ShowMarkup, ShowAttrs, Open, Close, Values, IsWritten, Applied;
    var k := NodeOf(m, |st.Cur().txt|);
    ShowEmpty(m, rest);
    ReadEmpty(st, m.name, m.attrs, m.gap, ">" + rest, e);
    OpenIs(st, m.name, Values(m.attrs), k);
    TagStep(st, m.name + (ShowAttrs(m.attrs) + (m.gap + ("/" + (">" + rest)))), e,
            Close(Open(st, m.name, Values(m.attrs))), rest);
    ClosedIsTaken(st, m, k);
    var st1 := Open(st, m.name, Values(m.attrs));
    assert st1.open[..|st1.open| - 1] + [st1.Cur()] == st1.open;
    assert st1.WithCur(k) == st1;
  }

  lemma {:induction false} ContentStep(st: State, m: Markup, rest: string, e: char)
    requires st.open != [] && !st.IsClosed() && IsMarkup(m) && m.Element? && m.body.Content?
    ensures FromTag(st, ShowMarkup(m) + rest, e) == FromText(Applied(st, m), rest, e)
    decreases m, -1
  {
    hide Read, FromTag, FromText, ShowMarkup, ShowAttrs, ShowPieces, Open, Close, Values, IsWritten, Applied, Filled,
        ArePieces, Decoded;
    var ps, tail, end := m.body.pieces, m.body.tail, m.body.end;
    var close := "<" + ("/" + (m.name + (end + (">" + rest))));
    var st1 := Open(st, m.name, Values(m.attrs));
    var k := NodeOf(m, |st.Cur().txt|);
    ShowContent(m, rest);
    ReadStart(st, m.name, m.attrs, m.gap, ShowPieces(ps) + (tail + close), e);
    TagStep(st, m.name + (ShowAttrs(m.attrs) + (m.gap + (">" + (ShowPieces(ps) + (tail + close))))), e,
            st1, ShowPieces(ps) + (tail + close));
    OpenIs(st, m.name, Values(m.attrs), k);
    PiecesStep(st1, ps, tail, close, e);
    FilledKeepsName(st1.Cur(), ps);
    var st2 := State(st.open + [k], st.root);
    assert st2.Cur() == k && k.name == m.name;
    ReadEnd(st2, m.name, end, ">" + rest, e);
    TagStep(st2, "/" + (m.name + (end + (">" + rest))), e, Close(st2), rest);
    ClosedIsTaken(st, m, k);
  }

  /** The pieces and the last text of a tag, before another markup. */
  lemma {:induction false} PiecesStep(st: State, ps: seq<Piece>, tail: string, rest: string, e: char)
    requires st.open != [] && !st.IsClosed() && ArePieces(ps) && IsText(tail) && rest != [] && rest[0] == '<'
    ensures FromText(st, ShowPieces(ps) + (tail + rest), e) ==
              FromTag(st.WithCur(More(Filled(st.Cur(), ps), tail, Text)), rest, e)
    decreases ps, 1
  {
    hide FromTag, FromText, ShowMarkup, IsMarkup, More, Taken;
    if ps == [] {
      assert ShowPieces(ps) + (tail + rest) == tail + rest;
      WrittenText(st, tail, rest, e);
    } else {
      var m, more := ps[0].markup, ShowPieces(ps[1..]) + (tail + rest);
      assert ShowPieces(ps) + (tail + rest) == ps[0].text + (ShowMarkup(m) + more) by {
        Assoc(ShowMarkup(m), ShowPieces(ps[1..]), tail + rest);
        Assoc(ps[0].text, ShowMarkup(m) + ShowPieces(ps[1..]), tail + rest);
      }
      StartsMarkup(m, more);
      WrittenText(st, ps[0].text, ShowMarkup(m) + more, e);
      var st1 := st.WithCur(More(st.Cur(), ps[0].text, Text));
      MarkupStep(st1, m, more, e);
      PiecesStep(Applied(st1, m), ps[1..], tail, rest, e);
    }
  }

  lemma StartsMarkup(m: Markup, rest: string)
    ensures ShowMarkup(m) + rest != [] && (ShowMarkup(m) + rest)[0] == '<'
  {
    hide ShowAttrs, ShowBody;
  }

  // ----- the root -----

  /** A root without its last '>', which the parser keeps apart. */
  function ShowRoot(m: Markup): string
    requires m.Element?
  {
    var head := m.name + (ShowAttrs(m.attrs) + (m.gap +
      match m.body
      case Empty => "/" + ""
      case Content(ps, tail, end) => ">" + (ShowPieces(ps) + (tail + ("<" + ("/" + (m.name + (end + ""))))))));
    "<" + head
  }

  lemma ShowRootIs(m: Markup)
    requires m.Element?
    ensures ShowMarkup(m) == ShowRoot(m) + ">"
  {
    hide ShowAttrs, ShowPieces;
    var a := ShowAttrs(m.attrs);
    match m.body
    case Empty =>
      Assoc(m.gap, "/", ">");
      Assoc(a, m.gap + "/", ">");
      Assoc(m.name, a + (m.gap + "/"), ">");
      Assoc("<", m.name + (a + (m.gap + "/")), ">");
      assert "/" + "" == "/" && "/>" == "/" + ">";
    case Content(ps, tail, end) =>
      var p, c := ShowPieces(ps), "<" + ("/" + (m.name + end));
      assert end + "" == end;
      assert c + ">" == "</" + (m.name + (end + ">")) by {
        Assoc(m.name, end, ">");
        assert "<" + ("/" + (m.name + end)) == "</" + (m.name + end);
        Assoc("</", m.name + end, ">");
      }
      Assoc(tail, c, ">");
      Assoc(p, tail + c, ">");
      Assoc(">", p + (tail + c), ">");
      Assoc(m.gap, ">" + (p + (tail + c)), ">");
      Assoc(a, m.gap + (">" + (p + (tail + c))), ">");
      Assoc(m.name, a + (m.gap + (">" + (p + (tail + c)))), ">");
      Assoc("<", m.name + (a + (m.gap + (">" + (p + (tail + c))))), ">");
  }

  lemma LastStep(st: State, d: string, root: Node)
    requires Read(st, d, '>') == Go(State([], Some(root)), "")
    ensures FromTag(st, "<" + d, '>') == Parsed(root)
  {
    hide Read;
    assert ("<" + d)[1..] == d;
  }

  lemma RootStep(m: Markup)
    requires IsMarkup(m) && m.Element?
    ensures FromTag(State([], None), ShowRoot(m), '>') == Parsed(NodeOf(m, 0))
  {
    hide Read, FromTag, FromText, ShowAttrs, ShowPieces, Values, IsWritten, Filled, ArePieces, Decoded;
    var none := State([], None);
    var n := Node(m.name, Values(m.attrs), "", 0, []);
    assert Open(none, m.name, Values(m.attrs)) == State([n], None);
    match m.body
    case Empty =>
      ReadEmpty(none, m.name, m.attrs, m.gap, "", '>');
      assert Close(State([n], None)) == State([], Some(n));
      LastStep(none, m.name + (ShowAttrs(m.attrs) + (m.gap + ("/" + ""))), n);
    case Content(ps, tail, end) =>
      var close := "/" + (m.name + (end + ""));
      var r := ShowPieces(ps) + (tail + ("<" + close));
      ReadStart(none, m.name, m.attrs, m.gap, r, '>');
      TagStep(none, m.name + (ShowAttrs(m.attrs) + (m.gap + (">" + r))), '>', State([n], None), r);
      PiecesStep(State([n], None), ps, tail, "<" + close, '>');
      FilledKeepsName(n, ps);
      var k := More(Filled(n, ps), tail, Text);
      assert State([n], None).WithCur(k) == State([k], None);
      ReadEnd(State([k], None), m.name, end, "", '>');
      assert Close(State([k], None)) == State([], Some(k));
      LastStep(State([k], None), close, k);
  }

  lemma {:induction false} AttrsHaveNoNul(ws: seq<Written>)
    requires AreWritten(ws)
    ensures '\0' !in ShowAttrs(ws)
  {
    if ws != [] {
      AttrsHaveNoNul(ws[1..]);
      AttrHasNoNul(ws[0]);
    }
  }

  lemma AttrHasNoNul(w: Written)
    requires IsWritten(w)
    ensures '\0' !in ShowAttr(w)
  {
    BlankHasNoNul(w.gap);
    if w.Written? {
      BlankHasNoNul(w.before);
      BlankHasNoNul(w.after);
    }
  }

  lemma BlankHasNoNul(s: string)
    requires IsBlank(s)
    ensures '\0' !in s
  {
    forall i | 0 <= i < |s| ensures s[i] != '\0' {
      assert s[i] in WS;
    }
  }

  lemma {:induction false} MarkupHasNoNul(m: Markup)
    requires IsMarkup(m)
    ensures '\0' !in ShowMarkup(m)
    decreases m, 0
  {
    hide ShowAttrs, IsWritten, EndsAt;
    if m.Element? {
      AttrsHaveNoNul(m.attrs);
      BlankHasNoNul(m.gap);
      BodyHasNoNul(m.name, m.body);
    }
  }

  lemma {:induction false} BodyHasNoNul(name: string, b: Body)
    requires IsBody(b) && '\0' !in name
    ensures '\0' !in ShowBody(name, b)
    decreases b, 1
  {
    hide ShowPieces, ArePieces;
    if b.Content? {
      PiecesHaveNoNul(b.pieces);
      BlankHasNoNul(b.end);
    }
  }

  lemma {:induction false} PiecesHaveNoNul(ps: seq<Piece>)
    requires ArePieces(ps)
    ensures '\0' !in ShowPieces(ps)
    decreases ps, 2
  {
    hide ShowMarkup, IsMarkup;
    if ps != [] {
      MarkupHasNoNul(ps[0].markup);
      PiecesHaveNoNul(ps[1..]);
    }
  }

  /** Every document of this syntax, with anything but a tag before the root, parses to the tree it means. */
  lemma ParseIsMeaning(lead: string, m: Markup)
    requires IsText(lead) && m.Element? && IsMarkup(m)
    ensures Parse(lead + ShowMarkup(m)) == Parsed(NodeOf(m, 0))
  {
    hide FromTag, ShowMarkup, ShowRoot, NodeOf, IsMarkup;
    var doc := lead + ShowMarkup(m);
    ShowRootIs(m);
    RootStep(m);
    MarkupHasNoNul(m);
    StartsRoot(m);
    var s := doc[..|doc| - 1];
    assert s == lead + ShowRoot(m);
    UpToNulKeeps(s);
    FindFrom(s, '<', |lead|);
    assert s[|lead|..] == ShowRoot(m);
  }

  lemma StartsRoot(m: Markup)
    requires m.Element?
    ensures ShowRoot(m) != [] && ShowRoot(m)[0] == '<'
  {
    hide ShowAttrs, ShowPieces;
  }
}
