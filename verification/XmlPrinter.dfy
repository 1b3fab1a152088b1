/** `TiXmlPrinter`: what the visitor appends to its buffer for each node. */
module XmlPrinter {
  import opened XmlText
  import opened XmlParser
  import XmlAttributes

  /** The printer's indent and line break strings ("" and "" when stream printing). */
  datatype Style = Style(indent: string, lineBreak: string)

  function Indent(style: Style, depth: nat): string {
    if depth == 0 then "" else Indent(style, depth - 1) + style.indent
  }

  predicate HasQuote(v: string) {
    exists i | 0 <= i < |v| :: v[i] == '\"'
  }

  function PrintAttribute(a: Attribute): string {
    var quote := if HasQuote(a.value) then "'" else "\"";
    Encode(a.name) + "=" + quote + Encode(a.value) + quote
  }

  function PrintAttributes(attributes: seq<Attribute>): string {
    if attributes == [] then ""
    else " " + PrintAttribute(attributes[0]) + PrintAttributes(attributes[1..])
  }

  /** An element's attributes as the printer visits them. */
  function PrintVisited(attributes: seq<Attribute>): string {
    PrintAttributes(XmlAttributes.Visited(attributes))
  }

  function PrintPart(name: string, value: string): string {
    if value == "" then "" else name + "=\"" + value + "\" "
  }

  function PrintDeclaration(version: string, encoding: string, standalone: string): string {
    "<?xml " + PrintPart("version", version) + PrintPart("encoding", encoding)
    + PrintPart("standalone", standalone) + "?>"
  }

  /** An element whose only child is a plain text is printed on one line. */
  predicate Simple(children: seq<Node>) {
    |children| == 1 && children[0].Text? && !children[0].cdata
  }

  /** A node without the indent before it and the line break behind it; `depth` is its own. */
  function Core(style: Style, depth: nat, node: Node): string
    decreases node, 1
  {
    match node
    case Text(value, cdata) =>
      if cdata then "<![CDATA[" + CStr(value) + "]]>" else Encode(value)
    case Comment(value) => "<!--" + CStr(value) + "-->"
    case Unknown(value) => "<" + CStr(value) + ">"
    case Declaration(version, encoding, standalone) => PrintDeclaration(version, encoding, standalone)
    case Element(name, attributes, children) =>
      "<" + CStr(name) + PrintVisited(attributes)
      + if children == [] then " />" else ">" + Body(style, depth, children) + "</" + CStr(name) + ">"
  }

  /** What stands between the tags of an element at `depth` that has children. */
  function Body(style: Style, depth: nat, children: seq<Node>): string
    decreases children, 1
  {
    if Simple(children) then PrintNodes(style, depth + 1, children, "", "")
    else
      style.lineBreak + PrintNodes(style, depth + 1, children, Indent(style, depth + 1), style.lineBreak)
      + Indent(style, depth)
  }

  /** Nodes one after the other, with `before` and `behind` around each. */
  function PrintNodes(style: Style, depth: nat, nodes: seq<Node>, before: string, behind: string): string
    decreases nodes, 0
  {
    if nodes == [] then ""
    else before + Core(style, depth, nodes[0]) + behind + PrintNodes(style, depth, nodes[1..], before, behind)
  }

  /** A whole document. */
  function PrintDocument(style: Style, nodes: seq<Node>): string {
    PrintNodes(style, 0, nodes, "", style.lineBreak)
  }
}
