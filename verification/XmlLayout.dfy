/** What a printed document looks like: its lines, each behind its indent, without regard to
    how the printer builds them. */
module XmlLayout {
  import opened Basics
  import opened XmlText
  import opened XmlParser
  import opened XmlPrinter
  import XmlAttributes

  /** `s` written `d` times. */
  function Copies(s: string, d: nat): (r: string)
    ensures |r| == d * |s|
    ensures forall i | 0 <= i < |r| :: |s| > 0 && r[i] == s[i % |s|]
  {
    if s == "" then ""
    else seq(d * |s|, i requires 0 <= i => s[i % |s|])
  }

  /** A line: how deep it stands, and what stands on it. */
  datatype Line = Line(depth: nat, text: string)

  /** Each line behind its indents, with a line break at its end. */
  function Laid(style: Style, lines: seq<Line>): string {
    if lines == [] then ""
    else Copies(style.indent, lines[0].depth) + lines[0].text + style.lineBreak + Laid(style, lines[1..])
  }

  /** An attribute in double quotes, or in single ones if its value holds a double quote. */
  function AttributeText(a: Attribute): string {
    if '\"' in a.value then Encode(a.name) + "='" + Encode(a.value) + "'"
    else Encode(a.name) + "=\"" + Encode(a.value) + "\""
  }

  function AttributesText(attributes: seq<Attribute>): string {
    if attributes == [] then "" else " " + AttributeText(attributes[0]) + AttributesText(attributes[1..])
  }

  function StartText(name: string, attributes: seq<Attribute>): string {
    "<" + CStr(name) + AttributesText(XmlAttributes.Visited(attributes))
  }

  function PartText(name: string, value: string): string {
    if value == "" then "" else name + "=\"" + value + "\" "
  }

  /** The lines of a node: one for an element without children or with a plain text alone,
      its tags around the lines of its children for any other, and one for what is no element. */
  function Lines(node: Node, depth: nat): seq<Line>
    decreases node, 0
  {
    match node
    case Text(value, cdata) => [Line(depth, if cdata then "<![CDATA[" + CStr(value) + "]]>" else Encode(value))]
    case Comment(value) => [Line(depth, "<!--" + CStr(value) + "-->")]
    case Unknown(value) => [Line(depth, "<" + CStr(value) + ">")]
    case Declaration(version, encoding, standalone) =>
      [Line(depth, "<?xml " + PartText("version", version) + PartText("encoding", encoding)
                   + PartText("standalone", standalone) + "?>")]
    case Element(name, attributes, children) =>
      var start, end := StartText(name, attributes), "</" + CStr(name) + ">";
      if children == [] then [Line(depth, start + " />")]
      else if |children| == 1 && children[0].Text? && !children[0].cdata then
        [Line(depth, start + ">" + Encode(children[0].value) + end)]
      else [Line(depth, start + ">")] + AllLines(children, depth + 1) + [Line(depth, end)]
  }

  function AllLines(nodes: seq<Node>, depth: nat): seq<Line>
    decreases nodes, 1
  {
    if nodes == [] then [] else Lines(nodes[0], depth) + AllLines(nodes[1..], depth)
  }

  // -------------------------------------------------------------------------- the indent

  /** The printer's indent is the indent string as many times as the node is deep. */
  lemma {:induction false} IndentIsCopies(style: Style, depth: nat)
    ensures Indent(style, depth) == Copies(style.indent, depth)
  {
    if depth > 0 {
      IndentIsCopies(style, depth - 1);
      OneCopyMore(style.indent, depth - 1);
    }
  }

  lemma OneCopyMore(s: string, d: nat)
    ensures Copies(s, d + 1) == Copies(s, d) + s
  {
    var r, t := Copies(s, d + 1), Copies(s, d) + s;
    assert |r| == (d + 1) * |s| == d * |s| + |s| == |t|;
    forall i | 0 <= i < |r|
      ensures r[i] == t[i]
    {
      if i >= d * |s| {
        Remainder(i - d * |s|, d, |s|);
      }
    }
  }

  lemma AtLeastOnce(a: int, n: int)
    requires a >= 1 && n > 0
    ensures a * n >= n
  {
    assert a * n == (a - 1) * n + n;
  }

  lemma SameQuotient(q: int, r: int, p: int, k: int, n: int)
    requires 0 <= r < n && 0 <= k < n && q * n + r == p * n + k
    ensures r == k
  {
    assert (q - p) * n == q * n - p * n == k - r;
    if q > p {
      AtLeastOnce(q - p, n);
    } else if q < p {
      AtLeastOnce(p - q, n);
    }
  }

  lemma Remainder(k: nat, d: nat, n: nat)
    requires k < n
    ensures (k + d * n) % n == k
  {
    var x := k + d * n;
    var q, r := x / n, x % n;
    assert x == q * n + r;
    SameQuotient(q, r, d, k, n);
  }

  // -------------------------------------------------------------------------- the layout

  lemma {:induction false} LaidSum(style: Style, a: seq<Line>, b: seq<Line>)
    ensures Laid(style, a + b) == Laid(style, a) + Laid(style, b)
  {
    hide Copies;
    if a == [] {
      assert a + b == b;
    } else {
      assert (a + b)[1..] == a[1..] + b && (a + b)[0] == a[0];
      LaidSum(style, a[1..], b);
    }
  }

  lemma LaidOne(style: Style, depth: nat, text: string)
    ensures Laid(style, [Line(depth, text)]) == Indent(style, depth) + text + style.lineBreak
  {
    IndentIsCopies(style, depth);
    hide Copies, Indent;
    assert [Line(depth, text)][1..] == [];
    assert Laid(style, []) == "";
  }

  lemma {:induction false} AttributesAreText(attributes: seq<Attribute>)
    ensures PrintAttributes(attributes) == AttributesText(attributes)
  {
    hide Encode;
    if attributes != [] {
      AttributeIsText(attributes[0]);
      AttributesAreText(attributes[1..]);
      hide PrintAttribute, AttributeText;
    }
  }

  lemma AttributeIsText(a: Attribute)
    ensures PrintAttribute(a) == AttributeText(a)
  {
    hide Encode;
    assert HasQuote(a.value) <==> '\"' in a.value;
    var n, v := Encode(a.name), Encode(a.value);
    assert n + "=" + "'" == n + "='" && n + "=" + "\"" == n + "=\"";
  }

  lemma PartsAreText(name: string, value: string)
    ensures PrintPart(name, value) == PartText(name, value)
  {
  }

  /** A node on a line of its own, and everything in it. */
  lemma {:induction false} NodeIsLaid(style: Style, depth: nat, node: Node)
    ensures Indent(style, depth) + Core(style, depth, node) + style.lineBreak == Laid(style, Lines(node, depth))
    decreases node, 0
  {
    hide *;
    match node
    case Element(name, attributes, children) => ElementIsLaid(style, depth, name, attributes, children);
    case _ =>
      LeafIsOneLine(style, depth, node);
      LaidOne(style, depth, Core(style, depth, node));
  }

  lemma LeafIsOneLine(style: Style, depth: nat, node: Node)
    requires !node.Element?
    ensures Lines(node, depth) == [Line(depth, Core(style, depth, node))]
  {
    if node.Declaration? {
      PartsAreText("version", node.version);
      PartsAreText("encoding", node.encoding);
      PartsAreText("standalone", node.standalone);
    }
    hide CStr, Encode, PrintPart, PartText;
  }

  lemma {:induction false} ElementIsLaid(style: Style, depth: nat, name: string, attributes: seq<Attribute>,
                                         children: seq<Node>)
    ensures var node := Element(name, attributes, children);
            Indent(style, depth) + Core(style, depth, node) + style.lineBreak == Laid(style, Lines(node, depth))
    decreases Element(name, attributes, children), 0, 0
  {
    hide *;
    var node, start, end := Element(name, attributes, children), StartText(name, attributes), "</" + CStr(name) + ">";
    ElementParts(style, depth, name, attributes, children);
    if children == [] {
      LaidOne(style, depth, start + " />");
    } else if |children| == 1 && children[0].Text? && !children[0].cdata {
      LaidOne(style, depth, start + ">" + Encode(children[0].value) + end);
    } else {
      NodesAreLaid(style, depth + 1, children);
      var inner := AllLines(children, depth + 1);
      LaidOne(style, depth, start + ">");
      LaidOne(style, depth, end);
      LaidSum(style, [Line(depth, start + ">")], inner);
      LaidSum(style, [Line(depth, start + ">")] + inner, [Line(depth, end)]);
      TagsAround(Indent(style, depth), start, style.lineBreak, Laid(style, inner), end);
    }
  }

  lemma TagsAround(indent: string, start: string, l: string, inner: string, end: string)
    ensures indent + (start + ">" + (l + inner + indent) + end) + l ==
            indent + (start + ">") + l + inner + (indent + end + l)
  {
    Regroup4(indent, start + ">", l + inner + indent, end);
    Regroup4(indent + (start + ">"), l, inner, indent);
    Regroup4(indent + (start + ">") + l + inner, indent, end, l);
  }

  /** The printed element in its pieces. */
  lemma ElementParts(style: Style, depth: nat, name: string, attributes: seq<Attribute>, children: seq<Node>)
    ensures var node := Element(name, attributes, children);
            var start, end := StartText(name, attributes), "</" + CStr(name) + ">";
            if children == [] then
              Core(style, depth, node) == start + " />" && Lines(node, depth) == [Line(depth, start + " />")]
            else if |children| == 1 && children[0].Text? && !children[0].cdata then
              var text := start + ">" + Encode(children[0].value) + end;
              Core(style, depth, node) == text && Lines(node, depth) == [Line(depth, text)]
            else
              Core(style, depth, node) ==
              start + ">" + (style.lineBreak
                             + PrintNodes(style, depth + 1, children, Indent(style, depth + 1), style.lineBreak)
                             + Indent(style, depth)) + end
              && Lines(node, depth) == [Line(depth, start + ">")] + AllLines(children, depth + 1) + [Line(depth, end)]
  {
    var start, end := StartText(name, attributes), "</" + CStr(name) + ">";
    AttributesAreText(XmlAttributes.Visited(attributes));
    StartIs(name, attributes);
    CoreIsTagged(style, depth, name, attributes, children);
    if |children| == 1 && children[0].Text? && !children[0].cdata {
      OneText(style, depth, children);
    }
    hide Core, StartText, Indent, PrintNodes, CStr, Encode, AllLines;
    assert Body(style, depth, children) ==
           if Simple(children) then PrintNodes(style, depth + 1, children, "", "")
           else style.lineBreak + PrintNodes(style, depth + 1, children, Indent(style, depth + 1), style.lineBreak)
                + Indent(style, depth);
  }

  lemma StartIs(name: string, attributes: seq<Attribute>)
    requires PrintAttributes(XmlAttributes.Visited(attributes)) == AttributesText(XmlAttributes.Visited(attributes))
    ensures "<" + CStr(name) + PrintVisited(attributes) == StartText(name, attributes)
  {
    hide CStr, PrintAttributes, AttributesText;
  }

  lemma CoreIsTagged(style: Style, depth: nat, name: string, attributes: seq<Attribute>, children: seq<Node>)
    ensures var start := "<" + CStr(name) + PrintVisited(attributes);
            Core(style, depth, Element(name, attributes, children)) ==
            if children == [] then start + " />"
            else start + ">" + Body(style, depth, children) + ("</" + CStr(name) + ">")
  {
    hide CStr, PrintVisited, Body;
    var start := "<" + CStr(name) + PrintVisited(attributes);
    var body := Body(style, depth, children);
    assert start + (">" + body + "</" + CStr(name) + ">") == start + ">" + body + ("</" + CStr(name) + ">");
  }

  lemma OneText(style: Style, depth: nat, children: seq<Node>)
    requires |children| == 1 && children[0].Text? && !children[0].cdata
    ensures PrintNodes(style, depth + 1, children, "", "") == Encode(children[0].value)
  {
    hide Encode;
    assert children[1..] == [];
    assert PrintNodes(style, depth + 1, [], "", "") == "";
    assert Core(style, depth + 1, children[0]) == Encode(children[0].value);
  }

  lemma {:induction false} NodesAreLaid(style: Style, depth: nat, nodes: seq<Node>)
    ensures PrintNodes(style, depth, nodes, Indent(style, depth), style.lineBreak) ==
            Laid(style, AllLines(nodes, depth))
    decreases nodes, 1
  {
    hide Core, Indent, Copies, Lines;
    if nodes != [] {
      NodeIsLaid(style, depth, nodes[0]);
      NodesAreLaid(style, depth, nodes[1..]);
      LaidSum(style, Lines(nodes[0], depth), AllLines(nodes[1..], depth));
    }
  }

  /** A printed document is its lines: every node that is not the only, plain text of its
      element begins one, and so does the end tag of an element with other children. */
  lemma DocumentIsLaid(style: Style, nodes: seq<Node>)
    ensures PrintDocument(style, nodes) == Laid(style, AllLines(nodes, 0))
  {
    assert Indent(style, 0) == "";
    NodesAreLaid(style, 0, nodes);
  }

  function Joined(lines: seq<Line>): string {
    if lines == [] then "" else lines[0].text + Joined(lines[1..])
  }

  /** In stream mode nothing stands between the lines. */
  lemma {:induction false} StreamIsJoined(lines: seq<Line>)
    ensures Laid(Style("", ""), lines) == Joined(lines)
  {
    if lines != [] {
      StreamIsJoined(lines[1..]);
      assert Copies("", lines[0].depth) == "";
      assert "" + lines[0].text + "" == lines[0].text;
    }
  }
}
