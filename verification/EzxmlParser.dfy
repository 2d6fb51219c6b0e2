/** ezxml_parse_str of linux_usr/ezxml.c on documents without a DTD and processing instructions. */
module EzxmlParser {
  import opened Bytes
  import opened EzxmlText
  import opened EzxmlEntities
  import opened EzxmlCodec
  import opened EzxmlDecode
  import opened EzxmlNode
  import opened EzxmlAmp

  datatype Error =
    | RootMissing | OutsideRoot | MissingQuote(q: char) | MissingGt | UnexpectedClose(name: string)
    | UnclosedComment | UnclosedCdata | UnclosedTag(name: string) | UnexpectedLt | NotModelled

  datatype Outcome = Parsed(root: Node) | Failed(error: Error)

  const WS := {'\t', '\r', '\n', ' '}

  predicate IsAlpha(c: char) {
    'a' <= c <= 'z' || 'A' <= c <= 'Z'
  }

  /** A char below 0 is a byte from 0x80 on. */
  predicate StartsName(c: char) {
    IsAlpha(c) || c == '_' || c == ':' || c as int >= 0x80
  }

  /** strcspn */
  function Cspan(s: string, stops: set<char>): (n: nat)
    ensures n <= |s|
    ensures n < |s| ==> s[n] in stops
    ensures forall i :: 0 <= i < n ==> s[i] !in stops
  {
    if s == [] || s[0] in stops then 0 else 1 + Cspan(s[1..], stops)
  }

  /** strspn */
  function Span(s: string, chars: set<char>): (n: nat)
    ensures n <= |s|
    ensures n < |s| ==> s[n] !in chars
  {
    if s == [] || s[0] !in chars then 0 else 1 + Span(s[1..], chars)
  }

  /** strstr: the offset of the first `what`, or the length. */
  function FindSub(s: string, what: string): (n: nat)
    ensures n <= |s|
    ensures n < |s| ==> what <= s[n..]
  {
    if s == [] || what <= s then 0 else 1 + FindSub(s[1..], what)
  }

  function SkipSpaces(s: string): (t: string)
    ensures |t| <= |s|
    ensures t != [] ==> !IsSpace(t[0])
    decreases |s|
  {
    if s != [] && IsSpace(s[0]) then SkipSpaces(s[1..]) else s
  }

  lemma PredefinedIsUsable()
    ensures Closed(PREDEFINED) && Acyclic(PREDEFINED)
  {
    PredefinedIsRanked();
    assert Acyclic(PREDEFINED);
    PredefinedAreNamed();
    hide WellNamed, Acyclic;
    forall i | 0 <= i < 5 ensures SelfContained(PREDEFINED[i].text) {
      var t := PREDEFINED[i].text;
      assert t[|t| - 1] == ';' && t[0..] == t && forall p :: 0 < p < |t| ==> t[p] != '&';
    }
  }

  /** ezxml_decode with the entities of a document that declares none. */
  ghost function Decoded(s: string, mode: Mode): string {
    PredefinedIsUsable();
    Meaning(PREDEFINED, Normalized(s), mode)
  }

  // ----- attributes -----

  datatype AttrResult = Quote(q: char) | One(attr: Attr, rest: string)
  datatype AttrsResult = BadQuote(q: char) | All(attrs: seq<Attr>, rest: string)

  /** One attribute: a name, and perhaps a quoted value. */
  ghost function ReadAttr(s: string): (r: AttrResult)
    requires s != [] && s[0] !in {'/', '>'} && !IsSpace(s[0])
    ensures r.One? ==> |r.rest| < |s|
    ensures r.One? && r.rest != [] ==> !IsSpace(r.rest[0])
  {
    var n := Cspan(s, WS + {'=', '/', '>'});
    var t := s[n..];
    if t == [] || t[0] in {'/', '>'} then One(Attr(s[..n], ""), t)
    else
      var u := t[1 + Span(t[1..], WS + {'='})..];
      if u == [] || u[0] !in {'"', '\''} then One(Attr(s[..n], ""), SkipSpaces(u))
      else
        var k := Find(u[1..], u[0]);
        if k == |u[1..]| then Quote(u[0])
        else One(Attr(s[..n], Decoded(u[1..][..k], Attribute)), SkipSpaces(u[k + 2..]))
  }

  ghost function ReadAttrs(s: string): (r: AttrsResult)
    requires s == [] || !IsSpace(s[0])
    ensures r.All? ==> |r.rest| <= |s| && (r.rest == [] || r.rest[0] in {'/', '>'})
    decreases |s|
  {
    if s == [] || s[0] in {'/', '>'} then All([], s)
    else
      match ReadAttr(s)
      case Quote(q) => BadQuote(q)
      case One(attr, rest) =>
        match ReadAttrs(rest)
        case BadQuote(q) => BadQuote(q)
        case All(attrs, rest') => All([attr] + attrs, rest')
  }

  // ----- the tree under construction -----

  /** The open tags from the root down, and the root once it is closed. */
  datatype State = State(open: seq<Node>, root: Option<Node>) {
    predicate IsClosed() {
      root.Some?
    }

    function Cur(): Node
      requires open != []
    {
      open[|open| - 1]
    }

    function WithCur(n: Node): State
      requires open != []
    {
      State(open[..|open| - 1] + [n], root)
    }
  }

  /** ezxml_open_tag */
  function Open(st: State, name: string, attrs: seq<Attr>): State {
    State(st.open + [Node(name, attrs, "", if st.open == [] then 0 else |st.Cur().txt|, [])], st.root)
  }

  /** ezxml_close_tag, on a tag of that name */
  function Close(st: State): State
    requires st.open != []
  {
    var up := st.open[..|st.open| - 1];
    if up == [] then State([], Some(st.Cur()))
    else
      var p := up[|up| - 1];
      State(up[..|up| - 1] + [p.(kids := p.kids + [st.Cur()])], st.root)
  }

  /** ezxml_char_content */
  ghost function AddText(st: State, text: string, mode: Mode): State {
    if st.open == [] || text == [] then st
    else st.WithCur(st.Cur().(txt := st.Cur().txt + Decoded(text, mode)))
  }

  // ----- one markup -----

  /** Where a markup leaves the scan: at its '>', which may be the end character e. */
  datatype Reading = Stop(error: Error) | Go(st: State, rest: string)

  ghost function ReadOpen(st: State, d: string, e: char): (r: Reading)
    requires d != []
    ensures r.Go? ==> |r.rest| <= |d|
  {
    if st.IsClosed() then Stop(OutsideRoot)
    else
      var n := Cspan(d, WS + {'/', '>'});
      match ReadAttrs(SkipSpaces(d[n..]))
      case BadQuote(q) => Stop(MissingQuote(q))
      case All(attrs, s) =>
        var st' := Open(st, d[..n], attrs);
        if s != [] && s[0] == '/' then
          if (if s[1..] == [] then e else s[1]) == '>' then Go(Close(st'), s[1..]) else Stop(MissingGt)
        else if (if s == [] then e else s[0]) == '>' then Go(st', s)
        else Stop(MissingGt)
  }

  function ReadClose(st: State, d: string, e: char): (r: Reading)
    requires d != [] && d[0] == '/'
    ensures r.Go? ==> |r.rest| <= |d|
  {
    var k := Cspan(d[1..], WS + {'>'});
    var name, s := d[1..][..k], d[1..][k..];
    if s == [] && e != '>' then Stop(MissingGt)
    else if st.open == [] || st.Cur().name != name then Stop(UnexpectedClose(name))
    else Go(Close(st), s[Span(s, WS)..])
  }

  function ReadComment(st: State, d: string, e: char): (r: Reading)
    requires "!--" <= d
    ensures r.Go? ==> |r.rest| <= |d|
  {
    var k := FindSub(d[3..], "--");
    if k == |d[3..]| then Stop(UnclosedComment)
    else
      var s := d[3..][k + 2..];
      if (if s == [] then e else s[0]) == '>' then Go(st, s) else Stop(UnclosedComment)
  }

  ghost function ReadCdata(st: State, d: string): (r: Reading)
    requires "![CDATA[" <= d
    ensures r.Go? ==> |r.rest| <= |d|
  {
    var k := FindSub(d[8..], "]]>");
    if k == |d[8..]| then Stop(UnclosedCdata) else Go(AddText(st, d[8..][..k], Cdata), d[8..][k + 2..])
  }

  ghost function Read(st: State, d: string, e: char): (r: Reading)
    ensures r.Go? ==> |r.rest| <= |d|
  {
    if d != [] && StartsName(d[0]) then ReadOpen(st, d, e)
    else if d != [] && d[0] == '/' then ReadClose(st, d, e)
    else if "!--" <= d then ReadComment(st, d, e)
    else if "![CDATA[" <= d then ReadCdata(st, d)
    else if "!DOCTYPE" <= d || "?" <= d then Stop(NotModelled)
    else Stop(UnexpectedLt)
  }

  // ----- the document -----

  function Finish(st: State): Outcome {
    match st.root
    case Some(root) => Parsed(root)
    case None => if st.open == [] then Failed(RootMissing) else Failed(UnclosedTag(st.Cur().name))
  }

  /** The main loop, from a '<' on. */
  ghost function FromTag(st: State, s: string, e: char): Outcome
    requires s != []
    decreases |s|, 0
  {
    match Read(st, s[1..], e)
    case Stop(error) => Failed(error)
    case Go(st', rest) => if rest == [] then Finish(st') else FromText(st', rest[1..], e)
  }

  /** The main loop, from after a markup on: text up to the next '<'.  Text that runs to the end is dropped. */
  ghost function FromText(st: State, s: string, e: char): Outcome
    decreases |s|, 1
  {
    var k := Find(s, '<');
    if k == |s| then Finish(st) else FromTag(AddText(st, s[..k], Text), s[k..], e)
  }

  /** A document: what stands before the last character, up to a NUL, and the last character. */
  ghost function Parse(doc: string): Outcome {
    if doc == [] then Failed(RootMissing)
    else
      var s := UpToNul(doc[..|doc| - 1]);
      var k := Find(s, '<');
      if k == |s| then Failed(RootMissing) else FromTag(State([], None), s[k..], doc[|doc| - 1])
  }
}
