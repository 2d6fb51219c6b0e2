/** Documents that the parser refuses, and with which error. */
module EzxmlRefused {
  import opened Bytes
  import opened EzxmlText
  import opened EzxmlCodec
  import opened EzxmlNode
  import opened EzxmlAmp
  import opened EzxmlParser
  import opened EzxmlSyntax

  // ----- documents with open tags -----

  /** Content, and a start tag that nothing closes. */
  datatype Opening = Opening(pieces: seq<Piece>, text: string, name: string, attrs: seq<Written>, gap: string)

  predicate IsStart(name: string, attrs: seq<Written>, gap: string) {
    IsTagName(name) && AreWritten(attrs) && IsBlank(gap)
  }

  predicate AreOpenings(os: seq<Opening>) {
    forall o <- os :: ArePieces(o.pieces) && IsText(o.text) && IsStart(o.name, o.attrs, o.gap)
  }

  function ShowStart(name: string, attrs: seq<Written>, gap: string, rest: string): string {
    name + (ShowAttrs(attrs) + (gap + (">" + rest)))
  }

  function ShowOpenings(os: seq<Opening>, rest: string): string {
    if os == [] then rest
    else
      var o := os[0];
      ShowPieces(o.pieces) + (o.text + ("<" + ShowStart(o.name, o.attrs, o.gap, ShowOpenings(os[1..], rest))))
  }

  /** A root start tag, open tags in one another, and what follows. */
  function ShowOpen(lead: string, name: string, attrs: seq<Written>, gap: string, os: seq<Opening>,
      rest: string): string {
    lead + ("<" + ShowStart(name, attrs, gap, ShowOpenings(os, rest)))
  }

  function Innermost(name: string, os: seq<Opening>): string {
    if os == [] then name else os[|os| - 1].name
  }

  /** The parse stands inside a tag of this name. */
  predicate Inside(st: State, name: string) {
    st.open != [] && !st.IsClosed() && st.Cur().name == name
  }

  lemma StartStep(st: State, name: string, attrs: seq<Written>, gap: string, rest: string, e: char)
    requires IsStart(name, attrs, gap) && !st.IsClosed()
    ensures var st' := Open(st, name, Values(attrs));
            FromTag(st, "<" + ShowStart(name, attrs, gap, rest), e) == FromText(st', rest, e) && Inside(st', name)
  {
    hide FromTag, FromText, Read, IsWritten, ShowAttrs, Values;
    ReadStart(st, name, attrs, gap, rest, e);
    TagStep(st, name + (ShowAttrs(attrs) + (gap + (">" + rest))), e, Open(st, name, Values(attrs)), rest);
  }

  lemma {:induction false} OpeningsStep(st: State, os: seq<Opening>, rest: string, e: char) returns (st': State)
    requires st.open != [] && !st.IsClosed() && AreOpenings(os)
    ensures FromText(st, ShowOpenings(os, rest), e) == FromText(st', rest, e)
    ensures Inside(st', Innermost(st.Cur().name, os))
    decreases |os|
  {
    hide FromTag, FromText, ShowPieces, ArePieces, IsStart, ShowStart, Filled, More, Open, Values;
    if os == [] {
      st' := st;
    } else {
      var o := os[0];
      var more := ShowOpenings(os[1..], rest);
      PiecesStep(st, o.pieces, o.text, "<" + ShowStart(o.name, o.attrs, o.gap, more), e);
      var st1 := st.WithCur(More(Filled(st.Cur(), o.pieces), o.text, Text));
      StartStep(st1, o.name, o.attrs, o.gap, more, e);
      st' := OpeningsStep(Open(st1, o.name, Values(o.attrs)), os[1..], rest, e);
    }
  }

  lemma UpToNulAfter(a: string, b: string)
    requires '\0' !in a
    ensures UpToNul(a + b) == a + UpToNul(b)
  {
    var n := Find(b, '\0');
    assert forall i :: |a| <= i < |a + b| ==> (a + b)[i] == b[i - |a|];
    FindFrom(a + b, '\0', |a| + n);
  }

  lemma StartHasNoNul(name: string, attrs: seq<Written>, gap: string, x: string)
    requires IsStart(name, attrs, gap)
    ensures UpToNul(ShowStart(name, attrs, gap, x)) == ShowStart(name, attrs, gap, UpToNul(x))
  {
    hide UpToNul, ShowAttrs, IsWritten;
    AttrsHaveNoNul(attrs);
    BlankHasNoNul(gap);
    UpToNulAfter(">", x);
    UpToNulAfter(gap, ">" + x);
    UpToNulAfter(ShowAttrs(attrs), gap + (">" + x));
    UpToNulAfter(name, ShowAttrs(attrs) + (gap + (">" + x)));
  }

  lemma {:induction false} OpeningsHaveNoNul(os: seq<Opening>, x: string)
    requires AreOpenings(os)
    ensures UpToNul(ShowOpenings(os, x)) == ShowOpenings(os, UpToNul(x))
    decreases |os|
  {
    hide UpToNul, ShowPieces, ArePieces, ShowStart, IsStart;
    if os != [] {
      var o := os[0];
      var more := ShowOpenings(os[1..], x);
      OpeningsHaveNoNul(os[1..], x);
      StartHasNoNul(o.name, o.attrs, o.gap, more);
      PiecesHaveNoNul(o.pieces);
      UpToNulAfter("<", ShowStart(o.name, o.attrs, o.gap, more));
      UpToNulAfter(o.text, "<" + ShowStart(o.name, o.attrs, o.gap, more));
      UpToNulAfter(ShowPieces(o.pieces), o.text + ("<" + ShowStart(o.name, o.attrs, o.gap, more)));
    }
  }

  lemma DropLastOf(a: string, b: string)
    requires b != []
    ensures (a + b)[..|a + b| - 1] == a + b[..|b| - 1] && (a + b)[|a + b| - 1] == b[|b| - 1]
  {
  }

  lemma StartDropsLast(name: string, attrs: seq<Written>, gap: string, x: string)
    requires x != []
    ensures var (d, y) := (ShowStart(name, attrs, gap, x), x[..|x| - 1]);
            d != [] && d[..|d| - 1] == ShowStart(name, attrs, gap, y) && d[|d| - 1] == x[|x| - 1]
  {
    hide ShowAttrs;
    DropLastOf(">", x);
    DropLastOf(gap, ">" + x);
    DropLastOf(ShowAttrs(attrs), gap + (">" + x));
    DropLastOf(name, ShowAttrs(attrs) + (gap + (">" + x)));
  }

  lemma {:induction false} OpeningsDropLast(os: seq<Opening>, x: string)
    requires x != []
    ensures var (d, y) := (ShowOpenings(os, x), x[..|x| - 1]);
            d != [] && d[..|d| - 1] == ShowOpenings(os, y) && d[|d| - 1] == x[|x| - 1]
    decreases |os|
  {
    hide ShowStart, ShowPieces;
    if os != [] {
      var o := os[0];
      var more := ShowOpenings(os[1..], x);
      OpeningsDropLast(os[1..], x);
      StartDropsLast(o.name, o.attrs, o.gap, more);
      var d := ShowStart(o.name, o.attrs, o.gap, more);
      DropLastOf("<", d);
      DropLastOf(o.text, "<" + d);
      DropLastOf(ShowPieces(o.pieces), o.text + ("<" + d));
    }
  }

  /** The parse of such a document comes to what follows inside the innermost open tag. */
  lemma ParseOpen(lead: string, name: string, attrs: seq<Written>, gap: string, os: seq<Opening>, x: string)
    returns (st: State)
    requires IsText(lead) && IsStart(name, attrs, gap) && AreOpenings(os) && x != []
    ensures Inside(st, Innermost(name, os))
    ensures Parse(ShowOpen(lead, name, attrs, gap, os, x)) == FromText(st, UpToNul(x[..|x| - 1]), x[|x| - 1])
  {
    hide FromTag, FromText, ShowStart, IsStart, UpToNul, ShowOpenings;
    var doc, d := ShowOpen(lead, name, attrs, gap, os, x), ShowStart(name, attrs, gap, ShowOpenings(os, x));
    var y, e := x[..|x| - 1], x[|x| - 1];
    OpeningsDropLast(os, x);
    StartDropsLast(name, attrs, gap, ShowOpenings(os, x));
    DropLastOf("<", d);
    DropLastOf(lead, "<" + d);
    OpeningsHaveNoNul(os, y);
    StartHasNoNul(name, attrs, gap, ShowOpenings(os, y));
    UpToNulAfter("<", ShowStart(name, attrs, gap, ShowOpenings(os, y)));
    UpToNulAfter(lead, "<" + ShowStart(name, attrs, gap, ShowOpenings(os, y)));
    var s := "<" + ShowStart(name, attrs, gap, ShowOpenings(os, UpToNul(y)));
    assert UpToNul(doc[..|doc| - 1]) == lead + s && doc[|doc| - 1] == e;
    assert (lead + s)[|lead|] == '<' && (lead + s)[|lead|..] == s;
    FindFrom(lead + s, '<', |lead|);
    StartStep(State([], None), name, attrs, gap, ShowOpenings(os, UpToNul(y)), e);
    st := OpeningsStep(Open(State([], None), name, Values(attrs)), os, UpToNul(y), e);
  }

  // ----- a document that ends inside a tag -----

  lemma {:induction false} PiecesOn(st: State, ps: seq<Piece>, x: string, e: char)
    requires st.open != [] && !st.IsClosed() && ArePieces(ps)
    ensures FromText(st, ShowPieces(ps) + x, e) == FromText(st.WithCur(Filled(st.Cur(), ps)), x, e)
    decreases |ps|
  {
    hide FromTag, FromText, ShowMarkup, IsMarkup, More, Taken;
    if ps == [] {
      assert ShowPieces(ps) + x == x;
      assert st.open[..|st.open| - 1] + [st.Cur()] == st.open;
    } else {
      var m, more := ps[0].markup, ShowPieces(ps[1..]) + x;
      assert ShowPieces(ps) + x == ps[0].text + (ShowMarkup(m) + more) by {
        Assoc(ShowMarkup(m), ShowPieces(ps[1..]), x);
        Assoc(ps[0].text, ShowMarkup(m) + ShowPieces(ps[1..]), x);
      }
      StartsMarkup(m, more);
      WrittenText(st, ps[0].text, ShowMarkup(m) + more, e);
      var st1 := st.WithCur(More(st.Cur(), ps[0].text, Text));
      MarkupStep(st1, m, more, e);
      PiecesOn(Applied(st1, m), ps[1..], x, e);
    }
  }

  lemma TextLeavesOpen(st: State, ps: seq<Piece>, tail: string, e: char)
    requires st.open != [] && !st.IsClosed() && ArePieces(ps) && IsText(tail)
    ensures FromText(st, ShowPieces(ps) + tail, e) == Failed(UnclosedTag(st.Cur().name))
  {
    hide Filled, ArePieces, ShowPieces;
    PiecesOn(st, ps, tail, e);
    FilledKeepsName(st.Cur(), ps);
    FindFrom(tail, '<', |tail|);
  }

  /** Whatever it has begun and whatever complete content it has: a document whose text ends inside a tag is refused, and
    * the innermost open tag is named. */
  lemma NeverClosed(lead: string, name: string, attrs: seq<Written>, gap: string, os: seq<Opening>,
                    ps: seq<Piece>, tail: string)
    requires IsText(lead) && IsStart(name, attrs, gap) && AreOpenings(os)
    requires ArePieces(ps) && IsText(tail) && tail != []
    ensures Parse(ShowOpen(lead, name, attrs, gap, os, ShowPieces(ps) + tail)) == Failed(UnclosedTag(Innermost(name, os)))
  {
    hide Parse, ShowOpen, FromText, UpToNul, ArePieces, ShowPieces;
    var x := ShowPieces(ps) + tail;
    var st := ParseOpen(lead, name, attrs, gap, os, x);
    DropLastOf(ShowPieces(ps), tail);
    PiecesHaveNoNul(ps);
    var t := tail[..|tail| - 1];
    UpToNulAfter(ShowPieces(ps), t);
    NoNulKeeps(t);
    TextLeavesOpen(st, ps, t, x[|x| - 1]);
  }

  lemma NoNulKeeps(s: string)
    requires '\0' !in s
    ensures UpToNul(s) == s
  {
    FindFrom(s, '\0', |s|);
  }

  // ----- a closing tag of another name -----

  /** After any content, a closing tag with another name than the innermost open tag ends the parse with that error. */
  lemma WrongEndStep(st: State, ps: seq<Piece>, tail: string, other: string, end: string, rest: string, e: char)
    requires st.open != [] && !st.IsClosed() && ArePieces(ps) && IsText(tail)
    requires IsTagName(other) && other != st.Cur().name && IsBlank(end)
    requires if rest == [] then e == '>' else rest[0] == '>'
    ensures FromText(st, ShowPieces(ps) + (tail + ("<" + ("/" + (other + (end + rest))))), e) ==
        Failed(UnexpectedClose(other))
  {
    hide FromText, ArePieces, ShowPieces, Decoded, Filled, Cspan;
    var d := "/" + (other + (end + rest));
    var t := end + rest;
    PiecesStep(st, ps, tail, "<" + d, e);
    FilledKeepsName(st.Cur(), ps);
    assert ("<" + d)[1..] == d && d[1..] == other + t;
    assert t != [] ==> t[0] in WS + {'>'} && (other + t)[|other|] == t[0];
    CspanAt(d[1..], WS + {'>'}, |other|);
    assert d[1..][..|other|] == other && d[1..][|other|..] == t;
  }

  /** In a document: whatever stands before, and whatever follows. */
  lemma WrongEnd(lead: string, name: string, attrs: seq<Written>, gap: string, os: seq<Opening>,
                 ps: seq<Piece>, tail: string, other: string, end: string, more: string)
    requires IsText(lead) && IsStart(name, attrs, gap) && AreOpenings(os) && ArePieces(ps) && IsText(tail)
    requires IsTagName(other) && other != Innermost(name, os) && IsBlank(end)
    ensures var x := ShowPieces(ps) + (tail + ("<" + ("/" + (other + (end + (">" + more))))));
            Parse(ShowOpen(lead, name, attrs, gap, os, x)) == Failed(UnexpectedClose(other))
  {
    hide Parse, ShowOpen, FromText, UpToNul, ArePieces, ShowPieces;
    var c := end + (">" + more);
    var x := ShowPieces(ps) + (tail + ("<" + ("/" + (other + c))));
    var st := ParseOpen(lead, name, attrs, gap, os, x);
    DropLastOf(end, ">" + more);
    DropLastOf(other, c);
    DropLastOf("/", other + c);
    DropLastOf("<", "/" + (other + c));
    DropLastOf(tail, "<" + ("/" + (other + c)));
    DropLastOf(ShowPieces(ps), tail + ("<" + ("/" + (other + c))));
    var rest := (">" + more)[..|more|];
    BeforeMore(ps, tail, other, end, rest);
    LastGt(more);
    WrongEndStep(st, ps, tail, other, end, UpToNul(rest), x[|x| - 1]);
  }

  lemma BeforeMore(ps: seq<Piece>, tail: string, other: string, end: string, rest: string)
    requires ArePieces(ps) && IsText(tail) && IsTagName(other) && IsBlank(end)
    ensures UpToNul(ShowPieces(ps) + (tail + ("<" + ("/" + (other + (end + rest)))))) ==
            ShowPieces(ps) + (tail + ("<" + ("/" + (other + (end + UpToNul(rest))))))
  {
    hide UpToNul, ArePieces, ShowPieces;
    PiecesHaveNoNul(ps);
    BlankHasNoNul(end);
    UpToNulAfter(end, rest);
    UpToNulAfter(other, end + rest);
    UpToNulAfter("/", other + (end + rest));
    UpToNulAfter("<", "/" + (other + (end + rest)));
    UpToNulAfter(tail, "<" + ("/" + (other + (end + rest))));
    UpToNulAfter(ShowPieces(ps), tail + ("<" + ("/" + (other + (end + rest)))));
  }

  lemma LastGt(more: string)
    ensures var r := UpToNul((">" + more)[..|more|]);
            if more == [] then r == [] else r != [] && r[0] == '>'
  {
    if more != [] {
      var rest := (">" + more)[..|more|];
      assert rest == ">" + more[..|more| - 1];
      UpToNulAfter(">", more[..|more| - 1]);
    }
  }

  // ----- a second root -----

  lemma RootThen(m: Markup, rest: string, e: char)
    requires IsMarkup(m) && m.Element?
    ensures FromTag(State([], None), ShowMarkup(m) + rest, e) == FromText(State([], Some(NodeOf(m, 0))), rest, e)
  {
    hide Read, FromTag, FromText, ShowMarkup, ShowAttrs, ShowPieces, Values, IsWritten, Filled, ArePieces, Decoded;
    var none := State([], None);
    var n := Node(m.name, Values(m.attrs), "", 0, []);
    assert Open(none, m.name, Values(m.attrs)) == State([n], None);
    match m.body
    case Empty =>
      ShowEmpty(m, rest);
      ReadEmpty(none, m.name, m.attrs, m.gap, ">" + rest, e);
      assert Close(State([n], None)) == State([], Some(n));
      TagStep(none, m.name + (ShowAttrs(m.attrs) + (m.gap + ("/" + (">" + rest)))), e, State([], Some(n)), rest);
    case Content(ps, tail, end) =>
      ShowContent(m, rest);
      var close := "/" + (m.name + (end + (">" + rest)));
      var r := ShowPieces(ps) + (tail + ("<" + close));
      ReadStart(none, m.name, m.attrs, m.gap, r, e);
      TagStep(none, m.name + (ShowAttrs(m.attrs) + (m.gap + (">" + r))), e, State([n], None), r);
      PiecesStep(State([n], None), ps, tail, "<" + close, e);
      FilledKeepsName(n, ps);
      var k := More(Filled(n, ps), tail, Text);
      assert State([n], None).WithCur(k) == State([k], None);
      ReadEnd(State([k], None), m.name, end, ">" + rest, e);
      assert Close(State([k], None)) == State([], Some(k));
      TagStep(State([k], None), close, e, State([], Some(k)), rest);
  }

  lemma StartAfterRoot(root: Node, between: string, d: string, e: char)
    requires IsText(between) && d != [] && StartsName(d[0])
    ensures FromText(State([], Some(root)), between + ("<" + d), e) == Failed(OutsideRoot)
  {
    var s := between + ("<" + d);
    assert s[|between|] == '<' && s[|between|..] == "<" + d;
    FindFrom(s, '<', |between|);
    assert ("<" + d)[1..] == d;
  }
}
