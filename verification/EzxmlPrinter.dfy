/** ezxml_toxml of linux_usr/ezxml.c on trees without default attributes and processing instructions. */
module EzxmlPrinter {
  import opened EzxmlText
  import opened EzxmlNode
  import opened EzxmlAmp

  /** The attribute that ezxml_attr finds for its name. */
  predicate IsFirst(attrs: seq<Attr>, i: nat)
    requires i < |attrs|
  {
    forall j :: 0 <= j < i ==> attrs[j].name != attrs[i].name
  }

  function PrintAttr(a: Attr): string {
    " " + a.name + "=\"" + Escaped(UpToNul(a.value), true) + "\""
  }

  /** A later attribute of a name that was already there is left out. */
  function PrintAttrs(attrs: seq<Attr>, i: nat): string
    requires i <= |attrs|
    decreases |attrs| - i
  {
    if i == |attrs| then []
    else (if IsFirst(attrs, i) then PrintAttr(attrs[i]) else []) + PrintAttrs(attrs, i + 1)
  }

  /** The text from `start` up to the offset of the next tag; an earlier offset wraps and means the rest. */
  function Piece(txt: string, start: nat, off: nat): string
    requires start <= |txt|
  {
    Escaped(UpToNul(if start <= off <= |txt| then txt[start..off] else txt[start..]), false)
  }

  function PrintNode(n: Node): string
    decreases n, 0
  {
    "<" + n.name + PrintAttrs(n.attrs, 0) + ">" + PrintBody(n.txt, 0, n.kids) + "</" + n.name + ">"
  }

  /** The text from `start` on, with the tags in it. */
  function PrintBody(txt: string, start: nat, kids: seq<Node>): string
    requires start <= |txt|
    decreases kids, 1
  {
    if kids == [] then Escaped(UpToNul(txt[start..]), false)
    else
      var n := kids[0];
      Piece(txt, start, n.off) + PrintNode(n) + PrintBody(txt, if n.off <= |txt| then n.off else |txt|, kids[1..])
  }

  // ----- what is printed -----

  /** One attribute more is printed after the others, unless its name is there already. */
  lemma PrintOneMore(attrs: seq<Attr>, a: Attr)
    ensures PrintAttrs(attrs + [a], 0) ==
            PrintAttrs(attrs, 0) + if exists b <- attrs :: b.name == a.name then [] else PrintAttr(a)
  {
    PrintOneMoreFrom(attrs, a, 0);
  }

  lemma {:induction false} PrintOneMoreFrom(attrs: seq<Attr>, a: Attr, i: nat)
    requires i <= |attrs|
    ensures PrintAttrs(attrs + [a], i) ==
            PrintAttrs(attrs, i) + if exists b <- attrs :: b.name == a.name then [] else PrintAttr(a)
    decreases |attrs| - i
  {
    hide PrintAttr;
    var more := attrs + [a];
    if i < |attrs| {
      PrintOneMoreFrom(attrs, a, i + 1);
      assert more[i] == attrs[i] && forall j :: 0 <= j < i ==> more[j] == attrs[j];
      assert IsFirst(more, i) <==> IsFirst(attrs, i);
    } else {
      assert more[i] == a && PrintAttrs(more, i + 1) == [];
      assert forall j :: 0 <= j < i ==> more[j] == attrs[j];
      assert IsFirst(more, i) <==> !exists b <- attrs :: b.name == a.name;
    }
  }

  /** A tag placed past the end of the text. */
  function Clip(txt: string, n: Node): Node {
    if n.off > |txt| then n.(off := |txt|) else n
  }

  function Clipped(txt: string, kids: seq<Node>): seq<Node> {
    if kids == [] then [] else [Clip(txt, kids[0])] + Clipped(txt, kids[1..])
  }

  lemma {:induction false} PastTheEnd(txt: string, start: nat, kids: seq<Node>)
    requires start <= |txt|
    ensures PrintBody(txt, start, kids) == PrintBody(txt, start, Clipped(txt, kids))
    decreases |kids|
  {
    if kids != [] {
      var n, m := kids[0], Clip(txt, kids[0]);
      assert PrintNode(n) == PrintNode(m);
      assert txt[start..|txt|] == txt[start..];
      assert Clipped(txt, kids)[1..] == Clipped(txt, kids[1..]);
      hide PrintNode, Escaped, UpToNul;
      PastTheEnd(txt, if n.off <= |txt| then n.off else |txt|, kids[1..]);
    }
  }

  // ----- the code -----

  /** ezxml_attr, as an index. */
  method FindAttr(attrs: seq<Attr>, i: nat) returns (j: nat)
    requires i < |attrs|
    ensures j <= i && (j == i <==> IsFirst(attrs, i))
  {
    j := 0;
    while attrs[j].name != attrs[i].name
      invariant j <= i && forall k :: 0 <= k < j ==> attrs[k].name != attrs[i].name
      decreases i - j
    {
      j := j + 1;
    }
  }

  lemma AttrsRound(attrs: seq<Attr>, i: nat, done: string)
    requires i < |attrs|
    ensures done + PrintAttrs(attrs, i) ==
        done + (if IsFirst(attrs, i) then PrintAttr(attrs[i]) else []) + PrintAttrs(attrs, i + 1)
  {
    var p := if IsFirst(attrs, i) then PrintAttr(attrs[i]) else [];
    hide IsFirst, PrintAttr;
    assert PrintAttrs(attrs, i) == p + PrintAttrs(attrs, i + 1);
    assert done + (p + PrintAttrs(attrs, i + 1)) == done + p + PrintAttrs(attrs, i + 1);
  }

  method WriteAttr(a: Attr, s: string) returns (r: string)
    ensures r == s + PrintAttr(a)
  {
    r := s + " " + a.name + "=\"";
    r := AmpEncode(a.value, -1, r, true);
    r := r + "\"";
  }

  /** The loop over the attributes of a tag. */
  method WriteAttrs(attrs: seq<Attr>, s: string) returns (r: string)
    ensures r == s + PrintAttrs(attrs, 0)
  {
    hide IsFirst, PrintAttr;
    r := s;
    var i := 0;
    while i < |attrs|
      invariant i <= |attrs| && r + PrintAttrs(attrs, i) == s + PrintAttrs(attrs, 0)
    {
      AttrsRound(attrs, i, r);
      var j := FindAttr(attrs, i);
      if j == i {
        r := WriteAttr(attrs[i], r);
      }
      i := i + 1;
    }
    assert r + [] == r;
  }

  lemma TagIs(s: string, n: Node)
    ensures s + "<" + n.name + PrintAttrs(n.attrs, 0) + ">" + PrintBody(n.txt, 0, n.kids) + "</" + n.name + ">" ==
        s + PrintNode(n)
  {
    hide PrintAttrs, PrintBody;
    var attrs, body := PrintAttrs(n.attrs, 0), PrintBody(n.txt, 0, n.kids);
    Assoc(s, "<", n.name);
    Assoc(s, "<" + n.name, attrs);
    Assoc(s, "<" + n.name + attrs, ">");
    Assoc(s, "<" + n.name + attrs + ">", body);
    Assoc(s, "<" + n.name + attrs + ">" + body, "</");
    Assoc(s, "<" + n.name + attrs + ">" + body + "</", n.name);
    Assoc(s, "<" + n.name + attrs + ">" + body + "</" + n.name, ">");
  }

  /** A tag with what it contains. */
  method WriteTag(n: Node, s: string) returns (r: string)
    ensures r == s + PrintNode(n)
    decreases n, 0
  {
    hide PrintAttrs, PrintNode;
    TagIs(s, n);
    r := WriteAttrs(n.attrs, s + "<" + n.name);
    r := r + ">";
    if n.kids != [] {
      r := WriteTags(n.kids, n.txt, 0, r);
    } else {
      assert n.txt[0..] == n.txt;
      r := AmpEncode(n.txt, -1, r, false);
    }
    r := r + "</" + n.name + ">";
  }

  /** ezxml_toxml_r: the text of the parent before a tag, the tag, and the tags that follow it. */
  method WriteTags(kids: seq<Node>, txt: string, start: nat, s: string) returns (r: string)
    requires kids != [] && start <= |txt|
    ensures r == s + PrintBody(txt, start, kids)
    decreases kids, 1
  {
    hide PrintNode, Escaped, UpToNul;
    var n := kids[0];
    assert start <= n.off <= |txt| ==> txt[start..][..n.off - start] == txt[start..n.off];
    r := AmpEncode(txt[start..], n.off - start, s, false);
    ghost var piece := Piece(txt, start, n.off);
    assert r == s + piece;
    r := WriteTag(n, r);
    var off := 0;
    while off < |txt| && off < n.off
      invariant off <= |txt| && off <= n.off
    {
      off := off + 1;
    }
    ghost var rest := PrintBody(txt, off, kids[1..]);
    if |kids| > 1 {
      r := WriteTags(kids[1..], txt, off, r);
    } else {
      r := AmpEncode(txt[off..], -1, r, false);
    }
    Assoc(s + piece, PrintNode(n), rest);
    Assoc(s, piece, PrintNode(n) + rest);
    Assoc(piece, PrintNode(n), rest);
  }

  /** ezxml_toxml on a root. */
  method ToXml(n: Node) returns (r: string)
    ensures r == PrintNode(n)
  {
    r := WriteTags([n], "", 0, "");
    assert [n][1..] == [] && Piece("", 0, n.off) == [] && PrintBody("", 0, []) == [];
    assert r == [] + PrintNode(n) + [];
  }
}
