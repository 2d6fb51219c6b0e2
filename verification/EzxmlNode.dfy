/** The values that linux_usr/ezxml.c parses and prints: tags with attributes, text, and sub tags in document order. */
module EzxmlNode {
  datatype Attr = Attr(name: string, value: string)

  /** `off` is where in the parent's text the tag stands; `kids` are in `ordered` order. */
  datatype Node = Node(name: string, attrs: seq<Attr>, txt: string, off: nat, kids: seq<Node>)
}
