/** The tree that node-xml-lite's `parseString` hands to svg2vectordrawable.js:
    an element has a name, its attributes and its children (`childs`); text
    between elements is a plain string. An element without children has no
    `childs` property at all; here that is the empty sequence. */
module XmlTree {
  datatype XNode =
    | Text(text: string)
    | Element(name: string, attrib: map<string, string>, childs: seq<XNode>)

  /** `attrib in obj` for the attributes of a node; a text node has none. */
  predicate HasAttrib(n: XNode, a: string)
  {
    n.Element? && a in n.attrib
  }
}
