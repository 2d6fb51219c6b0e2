/** Parsing what was printed rebuilds the tree: a printed tree is one way of writing it. */
module EzxmlRoundTrip {
  import opened EzxmlText
  import opened EzxmlEntities
  import opened EzxmlCodec
  import opened EzxmlNode
  import opened EzxmlAmp
  import opened EzxmlParser
  import opened EzxmlPrinter
  import opened EzxmlSyntax

  // ----- the trees that XML can carry -----

  predicate AreAttrs(attrs: seq<Attr>) {
    (forall i :: 0 <= i < |attrs| ==> IsAttrName(attrs[i].name) && '\0' !in attrs[i].value) &&
    (forall i, j :: 0 <= i < j < |attrs| ==> attrs[i].name != attrs[j].name)
  }

  /** The offsets of the tags are in order and within the text. */
  predicate AreOffsets(kids: seq<Node>, start: nat, end: nat) {
    start <= end && (kids != [] ==> start <= kids[0].off && AreOffsets(kids[1..], kids[0].off, end))
  }

  predicate IsTree(n: Node)
    decreases n, 0
  {
    IsTagName(n.name) && AreAttrs(n.attrs) && '\0' !in n.txt && AreOffsets(n.kids, 0, |n.txt|) && AreTrees(n.kids)
  }

  predicate AreTrees(kids: seq<Node>)
    decreases kids, 1
  {
    kids != [] ==> IsTree(kids[0]) && AreTrees(kids[1..])
  }

  lemma {:induction false} OffsetsEnd(kids: seq<Node>, start: nat, end: nat)
    requires AreOffsets(kids, start, end)
    ensures kids != [] ==> start <= kids[0].off <= end
  {
  }

  /** What comes back: VT and FF in attribute values turn into spaces. */
  function FlatAttrs(attrs: seq<Attr>): (r: seq<Attr>)
    ensures |r| == |attrs|
  {
    if attrs == [] then [] else [Attr(attrs[0].name, FlatAll(attrs[0].value, true))] + FlatAttrs(attrs[1..])
  }

  function FlatNode(n: Node): (r: Node)
    ensures r.name == n.name && r.txt == n.txt && r.off == n.off
    decreases n, 0
  {
    Node(n.name, FlatAttrs(n.attrs), n.txt, n.off, FlatNodes(n.kids))
  }

  function FlatNodes(kids: seq<Node>): (r: seq<Node>)
    ensures |r| == |kids|
    decreases kids, 1
  {
    if kids == [] then [] else [FlatNode(kids[0])] + FlatNodes(kids[1..])
  }

  // ----- a tree as it is printed -----

  function AsWritten(attrs: seq<Attr>): seq<Written> {
    if attrs == [] then []
    else [Written(" ", attrs[0].name, "", "", '"', Escaped(attrs[0].value, true))] + AsWritten(attrs[1..])
  }

  function AsMarkup(n: Node): Markup
    requires IsTree(n)
    decreases n, 0
  {
    Element(n.name, AsWritten(n.attrs), "", Content(AsPieces(n.txt, 0, n.kids), Tail(n.txt, 0, n.kids), ""))
  }

  function AsPieces(txt: string, start: nat, kids: seq<Node>): seq<Piece>
    requires AreOffsets(kids, start, |txt|) && AreTrees(kids)
    decreases kids, 1
  {
    if kids == [] then []
    else
      OffsetsEnd(kids, start, |txt|);
      [Piece(Escaped(txt[start..kids[0].off], false), AsMarkup(kids[0]))] + AsPieces(txt, kids[0].off, kids[1..])
  }

  function Tail(txt: string, start: nat, kids: seq<Node>): string
    requires AreOffsets(kids, start, |txt|)
    decreases kids
  {
    if kids == [] then Escaped(txt[start..], false)
    else OffsetsEnd(kids, start, |txt|); Tail(txt, kids[0].off, kids[1..])
  }

  // ----- the printer writes just that -----

  lemma {:induction false} AttrsShown(attrs: seq<Attr>, i: nat)
    requires AreAttrs(attrs) && i <= |attrs|
    ensures PrintAttrs(attrs, i) == ShowAttrs(AsWritten(attrs[i..]))
    decreases |attrs| - i
  {
    hide ShowAttr, PrintAttr;
    if i < |attrs| {
      assert IsFirst(attrs, i);
      AttrShown(attrs[i]);
      AttrsShown(attrs, i + 1);
      assert attrs[i..][1..] == attrs[i + 1..];
    }
  }

  lemma AttrShown(a: Attr)
    requires '\0' !in a.value
    ensures PrintAttr(a) == ShowAttr(Written(" ", a.name, "", "", '"', Escaped(a.value, true)))
  {
    hide Escaped, UpToNul;
    UpToNulKeeps(a.value);
    var v := Escaped(a.value, true);
    assert "" + "=" + "" == "=" && "\"" == ['"'] && "=\"" == "=" + ['"'];
    Assoc("=", ['"'], v + "\"");
    Assoc("=\"", v, "\"");
    Assoc(a.name, "=\"", v);
    Assoc(a.name, "=\"" + v, "\"");
    Assoc(" ", a.name, "=\"");
    Assoc(" " + a.name, "=\"", v);
    Assoc(" " + a.name, "=\"" + v, "\"");
    Assoc(" ", a.name, "=\"" + v + "\"");
  }

  lemma {:induction false} NodeShown(n: Node)
    requires IsTree(n)
    ensures PrintNode(n) == ShowMarkup(AsMarkup(n))
    decreases n, 0
  {
    hide PrintAttrs, PrintBody, ShowAttrs, ShowPieces, AsPieces, AreAttrs, AreTrees, AreOffsets, Tail, AsWritten;
    AttrsShown(n.attrs, 0);
    assert n.attrs[0..] == n.attrs;
    BodyShown(n.txt, 0, n.kids);
    var a, b, p, t := PrintAttrs(n.attrs, 0), PrintBody(n.txt, 0, n.kids), ShowPieces(AsPieces(n.txt, 0, n.kids)),
        Tail(n.txt, 0, n.kids);
    NodeText(n.name, a, b, p, t);
  }

  /** The same characters, put together in another order. */
  lemma NodeText(name: string, a: string, b: string, p: string, t: string)
    requires b == p + t
    ensures "<" + name + a + ">" + b + "</" + name + ">"
         == "<" + (name + (a + ("" + (">" + (p + (t + ("</" + (name + ("" + ">"))))))))) 
  {
    var close := "</" + (name + ">");
    assert "" + ">" == ">" && "" + (">" + (p + (t + close))) == ">" + (p + (t + close));
    Assoc(p, t, close);
    Assoc("</", name, ">");
    Assoc("<", name, a);
    Assoc("<", name + a, ">");
    Assoc("<", name + a + ">", b);
    Assoc("<" + (name + a + ">" + b), "</", name);
    Assoc("<" + (name + a + ">" + b), "</" + name, ">");
    Assoc("<", name + a + ">" + b, close);
    Assoc(name + a + ">", b, close);
    Assoc(name + a, ">", b + close);
    Assoc(name, a, ">" + (b + close));
  }

  lemma {:induction false} BodyShown(txt: string, start: nat, kids: seq<Node>)
    requires '\0' !in txt && AreOffsets(kids, start, |txt|) && AreTrees(kids)
    ensures PrintBody(txt, start, kids) == ShowPieces(AsPieces(txt, start, kids)) + Tail(txt, start, kids)
    decreases kids, 1
  {
    hide PrintNode, ShowMarkup, AsMarkup, Escaped, UpToNul, IsTree;
    if kids == [] {
      UpToNulKeeps(txt[start..]);
    } else {
      OffsetsEnd(kids, start, |txt|);
      var off := kids[0].off;
      UpToNulKeeps(txt[start..off]);
      NodeShown(kids[0]);
      BodyShown(txt, off, kids[1..]);
      var p, t := ShowPieces(AsPieces(txt, off, kids[1..])), Tail(txt, off, kids[1..]);
      Assoc(Escaped(txt[start..off], false) + PrintNode(kids[0]), p, t);
      Assoc(Escaped(txt[start..off], false), PrintNode(kids[0]), p);
    }
  }

  // ----- it is well-formed -----

  lemma {:induction false} EscapedIsQuiet(s: string, attr: bool)
    ensures '<' !in Escaped(s, attr) && ('\0' !in s ==> '\0' !in Escaped(s, attr)) && (attr ==> '"' !in Escaped(s, attr))
  {
    if s != [] {
      EscapedIsQuiet(s[1..], attr);
      EscapeIsQuiet(s[0], attr);
    }
  }

  lemma EscapeIsQuiet(c: char, attr: bool)
    ensures var e := Escape(c, attr); '<' !in e && (c != '\0' ==> '\0' !in e) && (attr ==> '"' !in e)
  {
  }

  lemma {:induction false} AttrsAreWritten(attrs: seq<Attr>)
    requires forall i :: 0 <= i < |attrs| ==> IsAttrName(attrs[i].name) && '\0' !in attrs[i].value
    ensures AreWritten(AsWritten(attrs)) && forall w <- AsWritten(attrs) :: w.Written?
  {
    hide IsAttrName, Escaped;
    if attrs != [] {
      EscapedIsQuiet(attrs[0].value, true);
      AttrsAreWritten(attrs[1..]);
    }
  }

  lemma {:induction false} MarkupIsWellFormed(n: Node)
    requires IsTree(n)
    ensures IsMarkup(AsMarkup(n))
    decreases n, 0
  {
    hide IsWritten, ArePieces, AsWritten, AsPieces, Tail;
    AttrsAreWritten(n.attrs);
    PiecesAreWellFormed(n.txt, 0, n.kids);
  }

  lemma {:induction false} PiecesAreWellFormed(txt: string, start: nat, kids: seq<Node>)
    requires '\0' !in txt && AreOffsets(kids, start, |txt|) && AreTrees(kids)
    ensures ArePieces(AsPieces(txt, start, kids)) && IsText(Tail(txt, start, kids))
    decreases kids, 1
  {
    hide IsMarkup, AsMarkup, Escaped, IsTree;
    if kids == [] {
      EscapedIsQuiet(txt[start..], false);
    } else {
      OffsetsEnd(kids, start, |txt|);
      EscapedIsQuiet(txt[start..kids[0].off], false);
      MarkupIsWellFormed(kids[0]);
      PiecesAreWellFormed(txt, kids[0].off, kids[1..]);
    }
  }

  // ----- it means the tree -----

  lemma DecodedEscaped(s: string, attr: bool)
    ensures Decoded(Escaped(s, attr), if attr then Attribute else Text) == FlatAll(s, attr)
    ensures FlatAll(s, false) == s
  {
    PredefinedIsUsable();
    DecodeUndoesEncode(PREDEFINED, s, attr);
  }

  lemma {:induction false} AttrsMean(attrs: seq<Attr>)
    ensures Values(AsWritten(attrs)) == FlatAttrs(attrs)
  {
    hide Decoded, Escaped, FlatAll;
    if attrs != [] {
      DecodedEscaped(attrs[0].value, true);
      AttrsMean(attrs[1..]);
    }
  }

  lemma {:induction false} MarkupMeans(n: Node)
    requires IsTree(n)
    ensures NodeOf(AsMarkup(n), n.off) == FlatNode(n)
    decreases n, 0
  {
    hide Values, AsWritten, FlatAttrs, AsPieces, Filled, Tail, Decoded, AreAttrs;
    AttrsMean(n.attrs);
    PiecesMean(Node(n.name, FlatAttrs(n.attrs), "", n.off, []), n.txt, 0, n.kids);
    assert [] + FlatNodes(n.kids) == FlatNodes(n.kids) && n.txt[..|n.txt|] == n.txt && n.txt[..0] == "";
  }

  /** The text before `start` is there; the rest and the tags in it are added, each tag at its offset. */
  lemma {:induction false} PiecesMean(n: Node, txt: string, start: nat, kids: seq<Node>)
    requires AreOffsets(kids, start, |txt|) && AreTrees(kids) && n.txt == txt[..start]
    ensures More(Filled(n, AsPieces(txt, start, kids)), Tail(txt, start, kids), Text) ==
              n.(txt := txt, kids := n.kids + FlatNodes(kids))
    decreases kids, 1
  {
    hide NodeOf, AsMarkup, FlatNode, Escaped, Decoded, FlatAll, IsTree, Taken, More, Filled, FlatNodes;
    if kids == [] {
      LastMeans(n, txt, start);
      assert n.kids + FlatNodes(kids) == n.kids;
    } else {
      OffsetsEnd(kids, start, |txt|);
      var off := kids[0].off;
      MarkupMeans(kids[0]);
      PieceMeans(n, txt, start, kids[0]);
      var n' := n.(txt := txt[..off], kids := n.kids + [FlatNode(kids[0])]);
      FilledNext(n, AsPieces(txt, start, kids));
      PiecesMean(n', txt, off, kids[1..]);
      KidsNext(n.kids, kids);
    }
  }

  lemma KidsNext(done: seq<Node>, kids: seq<Node>)
    requires kids != []
    ensures done + [FlatNode(kids[0])] + FlatNodes(kids[1..]) == done + FlatNodes(kids)
  {
    hide FlatNode;
  }

  lemma FilledNext(n: Node, ps: seq<Piece>)
    requires ps != []
    ensures Filled(n, ps) == Filled(Taken(More(n, ps[0].text, Text), ps[0].markup), ps[1..])
  {
  }

  lemma LastMeans(n: Node, txt: string, start: nat)
    requires start <= |txt| && n.txt == txt[..start]
    ensures More(Filled(n, []), Escaped(txt[start..], false), Text) == n.(txt := txt)
  {
    hide Escaped, Decoded;
    DecodedEscaped(txt[start..], false);
    assert txt[..start] + txt[start..] == txt;
  }

  lemma PieceMeans(n: Node, txt: string, start: nat, kid: Node)
    requires IsTree(kid) && start <= kid.off <= |txt| && n.txt == txt[..start] &&
        NodeOf(AsMarkup(kid), kid.off) == FlatNode(kid)
    ensures Taken(More(n, Escaped(txt[start..kid.off], false), Text), AsMarkup(kid)) ==
              n.(txt := txt[..kid.off], kids := n.kids + [FlatNode(kid)])
  {
    hide NodeOf, AsMarkup, FlatNode, Escaped, Decoded, FlatAll, IsTree;
    DecodedEscaped(txt[start..kid.off], false);
    assert txt[..start] + txt[start..kid.off] == txt[..kid.off];
    IsAnElement(kid);
  }

  lemma IsAnElement(n: Node)
    requires IsTree(n)
    ensures AsMarkup(n).Element?
  {
  }

  /** Printing and parsing gives the tree back, but for VT and FF in attribute values. */
  lemma ParseOfPrint(n: Node)
    requires IsTree(n) && n.off == 0
    ensures Parse(PrintNode(n)) == Parsed(FlatNode(n))
  {
    hide PrintNode, AsMarkup, FlatNode, NodeOf, IsTree, IsMarkup, ShowMarkup, Parse;
    NodeShown(n);
    MarkupIsWellFormed(n);
    MarkupMeans(n);
    IsAnElement(n);
    ParseIsMeaning("", AsMarkup(n));
    assert "" + PrintNode(n) == PrintNode(n);
  }

  // ----- exactly which trees come back -----

  predicate IsPlain(n: Node)
    decreases n, 0
  {
    (forall i :: 0 <= i < |n.attrs| ==> VERTICAL_TAB !in n.attrs[i].value && FORM_FEED !in n.attrs[i].value) &&
    ArePlain(n.kids)
  }

  predicate ArePlain(kids: seq<Node>)
    decreases kids, 1
  {
    kids != [] ==> IsPlain(kids[0]) && ArePlain(kids[1..])
  }

  lemma {:induction false} FlatAttrsAt(attrs: seq<Attr>, i: nat)
    requires i < |attrs|
    ensures FlatAttrs(attrs)[i] == Attr(attrs[i].name, FlatAll(attrs[i].value, true))
  {
    if i > 0 {
      FlatAttrsAt(attrs[1..], i - 1);
    }
  }

  lemma FlatValue(v: string)
    ensures FlatAll(v, true) == v <==> VERTICAL_TAB !in v && FORM_FEED !in v
  {
  }

  lemma FlatAttrsKeep(attrs: seq<Attr>)
    ensures FlatAttrs(attrs) == attrs <==>
              forall i :: 0 <= i < |attrs| ==> VERTICAL_TAB !in attrs[i].value && FORM_FEED !in attrs[i].value
  {
    hide FlatAll;
    forall i | 0 <= i < |attrs|
      ensures FlatAttrs(attrs)[i] == attrs[i] <==> VERTICAL_TAB !in attrs[i].value && FORM_FEED !in attrs[i].value
    {
      FlatAttrsAt(attrs, i);
      FlatValue(attrs[i].value);
    }
  }

  lemma {:induction false} FlatNodeKeeps(n: Node)
    ensures FlatNode(n) == n <==> IsPlain(n)
    decreases n, 0
  {
    FlatAttrsKeep(n.attrs);
    FlatNodesKeep(n.kids);
  }

  lemma SameParts(a: Node, s: seq<Node>, b: Node, t: seq<Node>)
    ensures [a] + s == [b] + t <==> a == b && s == t
  {
    assert ([a] + s)[0] == a && ([b] + t)[0] == b && ([a] + s)[1..] == s && ([b] + t)[1..] == t;
  }

  lemma {:induction false} FlatNodesKeep(kids: seq<Node>)
    ensures FlatNodes(kids) == kids <==> ArePlain(kids)
    decreases kids, 1
  {
    hide FlatNode, IsPlain;
    if kids != [] {
      FlatNodeKeeps(kids[0]);
      FlatNodesKeep(kids[1..]);
      assert kids == [kids[0]] + kids[1..];
      SameParts(FlatNode(kids[0]), FlatNodes(kids[1..]), kids[0], kids[1..]);
    }
  }

  /** Parsing rebuilds the printed tree if and only if no attribute value holds a VT or FF. */
  lemma PrintThenParse(n: Node)
    requires IsTree(n) && n.off == 0
    ensures Parse(PrintNode(n)) == Parsed(n) <==> IsPlain(n)
  {
    ParseOfPrint(n);
    FlatNodeKeeps(n);
  }
}
