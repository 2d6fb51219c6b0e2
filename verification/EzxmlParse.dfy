/** The loops of ezxml_parse_str. */
module EzxmlParse {
  import opened Bytes
  import opened EzxmlText
  import opened EzxmlEntities
  import opened EzxmlCodec
  import opened EzxmlDecode
  import opened EzxmlNode
  import opened EzxmlAmp
  import opened EzxmlParser

  method DecodeText(s: string, mode: Mode) returns (r: string)
    ensures r == Decoded(s, mode)
  {
    PredefinedIsUsable();
    r := Decode(s, PREDEFINED, mode);
  }

  method ReadOneAttr(s: string) returns (r: AttrResult)
    requires s != [] && s[0] !in {'/', '>'} && !IsSpace(s[0])
    ensures r == ReadAttr(s)
  {
    hide SkipSpaces, Decoded, Cspan, Span, Find;
    var n := Cspan(s, WS + {'=', '/', '>'});
    var attr, rest := Attr(s[..n], ""), s[n..];
    if rest != [] && (rest[0] == '=' || IsSpace(rest[0])) {
      rest := rest[1..];
      rest := rest[Span(rest, WS + {'='})..];
      assert rest == s[n..][1 + Span(s[n..][1..], WS + {'='})..];
      if rest != [] && rest[0] in {'"', '\''} {
        var q, t := rest[0], rest[1..];
        var k := Find(t, q);
        if k == |t| {
          return Quote(q);
        }
        var value := DecodeText(t[..k], Attribute);
        assert rest[k + 2..] == t[k + 1..];
        attr, rest := attr.(value := value), t[k + 1..];
      }
      rest := SkipSpaces(rest);
    }
    r := One(attr, rest);
  }

  ghost function Before(attrs: seq<Attr>, r: AttrsResult): AttrsResult {
    match r
    case BadQuote(q) => r
    case All(more, rest) => All(attrs + more, rest)
  }

  method ReadAllAttrs(s0: string) returns (r: AttrsResult)
    requires s0 == [] || !IsSpace(s0[0])
    ensures r == ReadAttrs(s0)
  {
    hide ReadAttr, IsSpace, Decoded;
    var s, attrs := s0, [];
    assert Before([], ReadAttrs(s)) == ReadAttrs(s);
    while s != [] && s[0] !in {'/', '>'}
      invariant s != [] ==> !IsSpace(s[0])
      invariant Before(attrs, ReadAttrs(s)) == ReadAttrs(s0)
      decreases |s|
    {
      var one := ReadOneAttr(s);
      match one {
        case Quote(q) => return BadQuote(q);
        case One(attr, rest) =>
          assert ReadAttrs(rest).All? ==>
              attrs + ([attr] + ReadAttrs(rest).attrs) == attrs + [attr] + ReadAttrs(rest).attrs;
          attrs, s := attrs + [attr], rest;
      }
    }
    r := All(attrs, s);
    assert attrs + [] == attrs;
  }

  method CharContent(st: State, text: string, mode: Mode) returns (r: State)
    ensures r == AddText(st, text, mode)
  {
    r := st;
    if st.open != [] && text != [] {
      var t := DecodeText(text, mode);
      r := st.WithCur(st.Cur().(txt := st.Cur().txt + t));
    }
  }

  method ReadOpenTag(st: State, d: string, e: char) returns (r: Reading)
    requires d != []
    ensures r == ReadOpen(st, d, e)
  {
    hide ReadAttrs, SkipSpaces;
    if st.IsClosed() {
      return Stop(OutsideRoot);
    }
    var n := Cspan(d, WS + {'/', '>'});
    var attrs := ReadAllAttrs(SkipSpaces(d[n..]));
    match attrs {
      case BadQuote(q) => r := Stop(MissingQuote(q));
      case All(attrs, s) =>
        var st' := Open(st, d[..n], attrs);
        if s != [] && s[0] == '/' {
          s := s[1..];
          if (s != [] && s[0] != '>') || (s == [] && e != '>') {
            return Stop(MissingGt);
          }
          r := Go(Close(st'), s);
        } else if (s != [] && s[0] == '>') || (s == [] && e == '>') {
          r := Go(st', s);
        } else {
          r := Stop(MissingGt);
        }
    }
  }

  method ReadMarkup(st: State, d: string, e: char) returns (r: Reading)
    ensures r == Read(st, d, e)
  {
    hide ReadOpen, ReadClose, ReadComment, AddText;
    if d != [] && StartsName(d[0]) {
      r := ReadOpenTag(st, d, e);
    } else if d != [] && d[0] == '/' {
      r := ReadClose(st, d, e);
    } else if "!--" <= d {
      r := ReadComment(st, d, e);
    } else if "![CDATA[" <= d {
      var k := FindSub(d[8..], "]]>");
      if k == |d[8..]| {
        return Stop(UnclosedCdata);
      }
      var st' := CharContent(st, d[8..][..k], Cdata);
      r := Go(st', d[8..][k + 2..]);
    } else if "!DOCTYPE" <= d || "?" <= d {
      r := Stop(NotModelled);
    } else {
      r := Stop(UnexpectedLt);
    }
  }

  /** ezxml_parse_str */
  method ParseStr(doc: string) returns (r: Outcome)
    ensures r == Parse(doc)
  {
    hide Read, AddText;
    if doc == [] {
      return Failed(RootMissing);
    }
    var e := doc[|doc| - 1];
    var s := UpToNul(doc[..|doc| - 1]);
    s := s[Find(s, '<')..];
    if s == [] {
      return Failed(RootMissing);
    }
    var st := State([], None);
    while true
      invariant s != [] && FromTag(st, s, e) == Parse(doc)
      decreases |s|
    {
      var reading := ReadMarkup(st, s[1..], e);
      match reading {
        case Stop(error) => return Failed(error);
        case Go(st', rest) =>
          if rest == [] {
            return Finish(st');
          }
          var d := rest[1..];
          var k := Find(d, '<');
          if k == |d| {
            return Finish(st');
          }
          st := CharContent(st', d[..k], Text);
          s := d[k..];
      }
    }
  }
}
