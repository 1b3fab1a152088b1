/** The escaper and the printer as they run: a loop over the text to be escaped, and a
    visitor that appends to its buffer and keeps its depth. */
module XmlWriter {
  import opened Basics
  import opened XmlText
  import opened XmlParser
  import opened XmlPrinter
  import opened XmlContent
  import opened XmlTree
  import XmlAttributes

  // -------------------------------------------------------------------- the escaper

  /** Passes a hexadecimal reference through unchanged, up to its semicolon. */
  method PassThrough(str: string, i0: nat) returns (i: nat)
    requires i0 + 2 < |str|
    ensures i0 < i <= |str| && i - i0 == PassLength(str[i0..], 1)
  {
    i := i0;
    while i < |str| - 1
      invariant i0 <= i <= |str| - 1
      invariant i > i0 ==> PassLength(str[i0..], 1) == PassLength(str[i0..], i - i0) && str[i] != ';'
    {
      i := i + 1;
      if str[i] == ';' {
        break;
      }
    }
  }

  lemma EncodeStep(str: string, i: nat)
    requires i < |str|
    ensures HEX_PREFIX <= str[i..] ==>
              var j := i + PassLength(str[i..], 1);
              j <= |str| && Encode(str[i..]) == str[i..j] + Encode(str[j..])
    ensures !(HEX_PREFIX <= str[i..]) ==> Encode(str[i..]) == EncodeChar(str[i]) + Encode(str[i + 1..])
  {
    hide EncodeChar;
    if HEX_PREFIX <= str[i..] {
      Drop(str, i, PassLength(str[i..], 1));
      Take(str, i, PassLength(str[i..], 1));
    } else {
      Drop(str, i, 1);
    }
  }

  lemma HexAt(str: string, i: nat)
    requires i < |str|
    ensures HEX_PREFIX <= str[i..] <==> str[i] == '&' && i + 2 < |str| && str[i + 1] == '#' && str[i + 2] == 'x'
  {
    assert i + 2 < |str| ==> str[i..][..3] == [str[i], str[i + 1], str[i + 2]];
  }

  /** `EncodeString`. */
  method EncodeString(str: string) returns (out: string)
    ensures out == Encode(str)
  {
    hide Encode, PassLength, HexDigit;
    out := "";
    var i := 0;
    assert str[0..] == str && "" + Encode(str) == Encode(str);
    while i < |str|
      invariant 0 <= i <= |str| && out + Encode(str[i..]) == Encode(str)
      decreases |str| - i
    {
      HexAt(str, i);
      EncodeStep(str, i);
      var c := str[i];
      if c == '&' && i < |str| - 2 && str[i + 1] == '#' && str[i + 2] == 'x' {
        var j := PassThrough(str, i);
        Regroup(out, str[i..j], Encode(str[j..]));
        out := out + str[i..j];
        i := j;
      } else {
        Regroup(out, EncodeChar(c), Encode(str[i + 1..]));
        if c == '&' {
          out := out + "&amp;";
        } else if c == '<' {
          out := out + "&lt;";
        } else if c == '>' {
          out := out + "&gt;";
        } else if c == '\"' {
          out := out + "&quot;";
        } else if c == '\'' {
          out := out + "&apos;";
        } else if c as int < 32 {
          out := out + ['&', '#', 'x', HexDigit(c as int / 16), HexDigit(c as int % 16), ';'];
        } else {
          out := out + [c];
        }
        i := i + 1;
      }
    }
    EncodeNothing();
    assert str[i..] == "" && out + "" == out;
  }

  lemma EncodeNothing()
    ensures Encode("") == ""
  {
  }

  // --------------------------------------------------------------------- the printer

  /** Whether a value holds a double quote. */
  method FindQuote(v: string) returns (found: bool)
    ensures found == HasQuote(v)
  {
    var i := 0;
    while i < |v|
      invariant 0 <= i <= |v| && forall j | 0 <= j < i :: v[j] != '\"'
    {
      if v[i] == '\"' {
        return true;
      }
      i := i + 1;
    }
    return false;
  }

  class Printer {
    var depth: nat
    var simpleTextPrint: bool
    var buffer: string
    var indent: string
    var lineBreak: string

    /** Pretty printing with four spaces. */
    constructor ()
      ensures depth == 0 && !simpleTextPrint && buffer == "" && indent == "    " && lineBreak == "\n"
    {
      depth, simpleTextPrint, buffer, indent, lineBreak := 0, false, "", "    ", "\n";
    }

    method SetStreamPrinting()
      modifies `indent, `lineBreak
      ensures indent == "" && lineBreak == ""
    {
      indent, lineBreak := "", "";
    }

    function TheStyle(): Style
      reads `indent, `lineBreak
    {
      Style(indent, lineBreak)
    }

    lemma StyleIs()
      ensures TheStyle() == Style(indent, lineBreak)
    {
    }

    method DoIndent()
      modifies `buffer
      ensures buffer == old(buffer) + Indent(TheStyle(), depth)
    {
      ghost var style := TheStyle();
      var i := 0;
      assert buffer + "" == buffer;
      while i < depth
        invariant 0 <= i <= depth && buffer == old(buffer) + Indent(style, i)
      {
        Regroup(old(buffer), Indent(style, i), indent);
        buffer := buffer + indent;
        i := i + 1;
      }
    }

    method DoLineBreak()
      modifies `buffer
      ensures buffer == old(buffer) + lineBreak
    {
      buffer := buffer + lineBreak;
    }

    /** `TiXmlAttribute::Print` into the buffer. */
    method Attribute(a: Attribute)
      modifies `buffer
      ensures buffer == old(buffer) + PrintAttribute(a)
    {
      hide Encode;
      var n := EncodeString(a.name);
      var v := EncodeString(a.value);
      var quoted := FindQuote(a.value);
      if !quoted {
        buffer := buffer + n;
        buffer := buffer + "=\"";
        buffer := buffer + v;
        buffer := buffer + "\"";
      } else {
        buffer := buffer + n;
        buffer := buffer + "='";
        buffer := buffer + v;
        buffer := buffer + "'";
      }
      Regroup5(old(buffer), n, v);
    }

    /** The loop over an element's attributes, from the first one on with `Next`. */
    method Attributes(attributeSet: XmlAttributes.AttributeSet)
      requires attributeSet.Valid()
      modifies `buffer
      ensures buffer == old(buffer) + PrintVisited(attributeSet.contents)
    {
      hide *;
      ghost var c := attributeSet.contents;
      ghost var whole := buffer + PrintVisited(c);
      attributeSet.Entries();
      XmlAttributes.VisitFirst(c);
      PrintedNone(c);
      var attrib := attributeSet.First();
      ghost var i := 0;
      while attrib != null
        invariant attrib != null ==> i < |c| && attrib == attributeSet.ring[i]
        invariant whole == buffer + PrintAttributes(if attrib == null then [] else XmlAttributes.ToVisit(c, i))
        decreases attrib != null, |c| - i
      {
        var a := XmlParser.Attribute(attrib.name, attrib.value);
        XmlAttributes.VisitNext(c, i);
        PrintedOne(XmlAttributes.ToVisit(c, i));
        ghost var rest := PrintAttributes(XmlAttributes.ToVisit(c, i)[1..]);
        Regroup4(buffer, " ", PrintAttribute(a), rest);
        buffer := buffer + " ";
        Attribute(a);
        attrib := attributeSet.Next(attrib, i);
        i := i + 1;
      }
      PrintedNone(c);
      assert buffer + "" == buffer;
    }

    method VisitEnter(element: XmlNode)
      requires element.Valid() && AllProper(element.kids) && !simpleTextPrint
      modifies `buffer, `depth, `simpleTextPrint
      ensures depth == old(depth) + 1 && simpleTextPrint == Simple(AsNodes(element.kids))
      ensures buffer == Entered(old(buffer), TheStyle(), old(depth), element.value, element.attributeSet.contents,
                                AsNodes(element.kids))
    {
      hide *;
      StyleIs();
      element.RingIs();
      FirstAndLast(element);
      ghost var children := AsNodes(element.kids);
      EnteredIs(buffer, TheStyle(), depth, element.value, element.attributeSet.contents, children);
      DoIndent();
      ghost var b := buffer;
      buffer := buffer + "<";
      buffer := buffer + CStr(element.value);
      Attributes(element.attributeSet);
      Regroup4(b, "<", CStr(element.value), PrintVisited(element.attributeSet.contents));
      ghost var c := buffer;
      if element.firstChild == null {
        buffer := buffer + " />";
        DoLineBreak();
        Regroup(c, " />", lineBreak);
      } else {
        buffer := buffer + ">";
        var first := element.firstChild;
        if first.kind == TextType && element.lastChild == first && !first.cdata {
          simpleTextPrint := true;
        } else {
          DoLineBreak();
          Regroup(c, ">", lineBreak);
        }
      }
      depth := depth + 1;
    }

    method VisitExit(element: XmlNode)
      requires element.Valid() && AllProper(element.kids) && depth > 0
      modifies `buffer, `depth, `simpleTextPrint
      ensures depth == old(depth) - 1 && (element.kids != [] ==> !simpleTextPrint)
      ensures element.kids == [] ==> simpleTextPrint == old(simpleTextPrint)
      ensures buffer == Left(old(buffer), TheStyle(), depth, old(simpleTextPrint), element.value, AsNodes(element.kids))
    {
      hide *;
      StyleIs();
      FirstAndLast(element);
      LeftIs(buffer, TheStyle(), depth - 1, simpleTextPrint, element.value, AsNodes(element.kids));
      depth := depth - 1;
      if element.firstChild != null {
        if simpleTextPrint {
          simpleTextPrint := false;
          assert buffer + "" == buffer;
        } else {
          DoIndent();
        }
        Regroup5Exit(buffer, CStr(element.value), lineBreak);
        buffer := buffer + "</";
        buffer := buffer + CStr(element.value);
        buffer := buffer + ">";
        DoLineBreak();
      }
    }

    /** A node that is no element, written on its own line. */
    method Line(core: string)
      modifies `buffer
      ensures buffer == old(buffer) + (Indent(TheStyle(), depth) + core + lineBreak)
    {
      hide Indent;
      DoIndent();
      buffer := buffer + core;
      DoLineBreak();
      Regroup4(old(buffer), Indent(TheStyle(), depth), core, lineBreak);
    }

    method VisitText(value: string, cdata: bool)
      modifies `buffer
      ensures buffer == old(buffer) + if simpleTextPrint && !cdata then Encode(value)
                                      else Indent(TheStyle(), depth)
                                           + Core(TheStyle(), depth, Text(value, cdata)) + lineBreak
    {
      hide Indent, Encode;
      if cdata {
        Line("<![CDATA[" + CStr(value) + "]]>");
      } else if simpleTextPrint {
        var str := EncodeString(value);
        buffer := buffer + str;
      } else {
        var str := EncodeString(value);
        Line(str);
      }
    }

    /** `Accept`: the printer visits a node and everything in it, and is left as it was but
        for what it has written. */
    method Accept(node: XmlNode)
      requires node.Valid() && node.kind != DocumentType && Proper(node.Tree()) && this !in node.below
      requires simpleTextPrint ==> node.kind == TextType && !node.cdata
      modifies `buffer, `depth, `simpleTextPrint
      ensures depth == old(depth) && simpleTextPrint == old(simpleTextPrint)
      ensures buffer == old(buffer) + Written(TheStyle(), depth, simpleTextPrint, AsNode(node.Tree()))
      decreases node.below, 3
    {
      hide *;
      StyleIs();
      node.TreeIs();
      NodeIs(node);
      LineWritten(TheStyle(), depth, AsNode(node.Tree()));
      CoreIs(TheStyle(), depth, AsNode(node.Tree()));
      match node.kind {
        case TextType => VisitText(node.value, node.cdata);
        case CommentType => Line("<!--" + CStr(node.value) + "-->");
        case UnknownType => Line("<" + CStr(node.value) + ">");
        case DeclarationType => Line(PrintDeclaration(node.version, node.encoding, node.standalone));
        case ElementType => AcceptElement(node);
        case DocumentType =>
      }
    }

    method AcceptElement(element: XmlNode)
      requires element.Valid() && element.kind == ElementType && AllProper(element.kids) && this !in element.below
      requires !simpleTextPrint
      modifies `buffer, `depth, `simpleTextPrint
      ensures depth == old(depth) && !simpleTextPrint
      ensures buffer == old(buffer) + Written(TheStyle(), depth, false,
                                              Element(element.value, element.attributeSet.contents,
                                                      AsNodes(element.kids)))
      decreases element.below, 2
    {
      hide *;
      ghost var style, d, children := TheStyle(), depth, AsNodes(element.kids);
      NothingWritten(style, d, false, children);
      VisitEnter(element);
      AcceptChildren(element);
      VisitExit(element);
      ElementWritten(style, d, element.value, element.attributeSet.contents, children, old(buffer));
    }

    /** The loop over the children. */
    method AcceptChildren(element: XmlNode)
      requires element.Valid() && AllProper(element.kids) && this !in element.below
      requires simpleTextPrint == Simple(AsNodes(element.kids))
      modifies `buffer, `depth, `simpleTextPrint
      ensures depth == old(depth) && simpleTextPrint == old(simpleTextPrint)
      ensures buffer == old(buffer) + ChildrenWritten(TheStyle(), depth, AsNodes(element.kids))
      decreases element.below, 1
    {
      hide *;
      ghost var style, simple, children := TheStyle(), simpleTextPrint, AsNodes(element.kids);
      NothingWritten(style, depth, simple, children);
      AcceptAll(element);
    }

    method AcceptAll(parent: XmlNode)
      requires parent.Valid() && AllProper(parent.kids) && this !in parent.below
      requires simpleTextPrint ==> Simple(AsNodes(parent.kids))
      modifies `buffer, `depth, `simpleTextPrint
      ensures depth == old(depth) && simpleTextPrint == old(simpleTextPrint)
      ensures buffer == old(buffer) + NodesWritten(TheStyle(), depth, simpleTextPrint, AsNodes(parent.kids))
      decreases parent.below, 0
    {
      hide *;
      ghost var style, simple, nodes := TheStyle(), simpleTextPrint, AsNodes(parent.kids);
      ghost var whole := buffer + NodesWritten(style, depth, simple, nodes);
      NothingWritten(style, depth, simple, nodes);
      parent.ChildAt(0);
      var node := parent.firstChild;
      ghost var i := 0;
      while node != null
        invariant i <= |nodes| && depth == old(depth) && simpleTextPrint == simple && TheStyle() == style
        invariant node == if i < |nodes| then parent.children[i] else null
        invariant whole == buffer + NodesWritten(style, depth, simple, nodes[i..])
        decreases |nodes| - i
      {
        parent.ChildAt(i);
        NodeWritten(style, depth, simple, nodes, i);
        Regroup(buffer, Written(style, depth, simple, nodes[i]), NodesWritten(style, depth, simple, nodes[i + 1..]));
        ChildIs(parent, i);
        Accept(node);
        node := node.next;
        i := i + 1;
      }
      assert buffer + "" == buffer;
    }

    /** `TiXmlDocument::Accept`. */
    method AcceptDocument(doc: XmlNode)
      requires doc.Valid() && AllProper(doc.kids) && this !in doc.below && depth == 0 && !simpleTextPrint
      modifies `buffer, `depth, `simpleTextPrint
      ensures depth == 0 && !simpleTextPrint && buffer == old(buffer) + PrintDocument(TheStyle(), AsNodes(doc.kids))
    {
      hide *;
      DocumentWritten(TheStyle(), AsNodes(doc.kids));
      AcceptAll(doc);
    }
  }

  // ------------------------------------------------------- linked nodes as they are visited

  lemma FirstAndLast(n: XmlNode)
    requires n.Valid() && AllProper(n.kids)
    ensures n.firstChild == null <==> n.kids == []
    ensures n.kids == [] <==> AsNodes(n.kids) == []
    ensures n.firstChild != null ==>
              (Simple(AsNodes(n.kids)) <==>
               n.firstChild.kind == TextType && n.lastChild == n.firstChild && !n.firstChild.cdata)
  {
    n.Ends();
    n.ChildAt(0);
    hide n.Valid;
    if n.kids != [] {
      AsNodesAt(n.kids, 0);
      n.firstChild.TreeIs();
      KindOfNode(n.kids[0]);
    }
  }

  lemma KindOfNode(t: Content)
    requires Proper(t) && t.kind != DocumentType
    ensures AsNode(t).Text? <==> t.kind == TextType
    ensures t.kind == TextType ==> AsNode(t) == Text(t.value, t.cdata)
  {
    hide AsNodes, Proper;
  }

  lemma {:induction false} AsNodesAt(list: seq<Content>, i: nat)
    requires AllProper(list) && i < |list|
    ensures AsNodes(list)[i] == AsNode(list[i])
    decreases |list|
  {
    hide AsNode, Proper;
    if i > 0 {
      AsNodesAt(list[1..], i - 1);
    }
  }

  lemma ChildIs(n: XmlNode, i: nat)
    requires n.Valid() && AllProper(n.kids) && i < |n.kids|
    ensures |n.kids| == |n.children| && n.kids[i] == n.children[i].Tree() && Proper(n.kids[i])
    ensures n.kids[i].kind == n.children[i].kind != DocumentType && AsNodes(n.kids)[i] == AsNode(n.kids[i])
    ensures Simple(AsNodes(n.kids)) ==> n.children[i].kind == TextType && !n.children[i].cdata
  {
    n.ChildAt(i);
    AsNodesAt(n.kids, i);
    n.children[i].TreeIs();
    KindOfNode(n.kids[i]);
    hide n.Valid, Proper;
  }

  lemma NodeIs(n: XmlNode)
    requires n.kind != DocumentType && Proper(n.Tree())
    ensures AllProper(n.kids)
    ensures AsNode(n.Tree()) ==
            match n.kind
            case ElementType => Element(n.value, n.attributeSet.contents, AsNodes(n.kids))
            case TextType => Text(n.value, n.cdata)
            case CommentType => Comment(n.value)
            case UnknownType => Unknown(n.value)
            case _ => Declaration(n.version, n.encoding, n.standalone)
  {
    n.TreeIs();
    ProperIs(n.Tree());
    hide Proper, AllProper, AsNodes;
  }

  lemma ProperIs(t: Content)
    ensures Proper(t) <==> AllProper(t.children)
  {
  }

  lemma LineWritten(style: Style, depth: nat, node: Node)
    ensures Written(style, depth, true, node) == Core(style, depth, node)
    ensures Written(style, depth, false, node) == Indent(style, depth) + Core(style, depth, node) + style.lineBreak
  {
  }

  lemma CoreIs(style: Style, depth: nat, node: Node)
    ensures match node
            case Text(value, cdata) =>
              Core(style, depth, node) == if cdata then "<![CDATA[" + CStr(value) + "]]>" else Encode(value)
            case Comment(value) => Core(style, depth, node) == "<!--" + CStr(value) + "-->"
            case Unknown(value) => Core(style, depth, node) == "<" + CStr(value) + ">"
            case Declaration(version, encoding, standalone) =>
              Core(style, depth, node) == PrintDeclaration(version, encoding, standalone)
            case Element(_, _, _) => true
  {
  }

  lemma EnteredIs(b: string, style: Style, depth: nat, name: string, attributes: seq<Attribute>, children: seq<Node>)
    ensures Entered(b, style, depth, name, attributes, children) ==
            b + Indent(style, depth) + ("<" + CStr(name) + PrintVisited(attributes))
            + if children == [] then " />" + style.lineBreak else ">" + if Simple(children) then "" else style.lineBreak
    ensures ">" + "" == ">" && (children == [] ==> !Simple(children))
  {
    hide Indent, CStr, PrintVisited;
  }

  lemma LeftIs(b: string, style: Style, depth: nat, simple: bool, name: string, children: seq<Node>)
    ensures Left(b, style, depth, simple, name, children) ==
            if children == [] then b
            else b + (if simple then "" else Indent(style, depth)) + ("</" + CStr(name) + ">" + style.lineBreak)
  {
    hide Indent, CStr;
  }

  lemma DocumentWritten(style: Style, nodes: seq<Node>)
    ensures PrintDocument(style, nodes) == NodesWritten(style, 0, false, nodes)
  {
  }

  function NodesWritten(style: Style, depth: nat, simple: bool, nodes: seq<Node>): string {
    PrintNodes(style, depth, nodes, if simple then "" else Indent(style, depth), if simple then "" else style.lineBreak)
  }

  function ChildrenWritten(style: Style, depth: nat, children: seq<Node>): string {
    NodesWritten(style, depth, Simple(children), children)
  }

  lemma NodeWritten(style: Style, depth: nat, simple: bool, nodes: seq<Node>, i: nat)
    requires i < |nodes|
    ensures NodesWritten(style, depth, simple, nodes[i..]) ==
            Written(style, depth, simple, nodes[i]) + NodesWritten(style, depth, simple, nodes[i + 1..])
  {
    hide Core, Indent;
    assert nodes[i..][1..] == nodes[i + 1..];
    var core := Core(style, depth, nodes[i]);
    if simple {
      assert "" + core + "" == core;
    }
  }

  lemma NothingWritten(style: Style, depth: nat, simple: bool, children: seq<Node>)
    ensures NodesWritten(style, depth, simple, []) == ""
            && (children == [] ==> ChildrenWritten(style, depth, children) == "")
    ensures ChildrenWritten(style, depth, children) == NodesWritten(style, depth, Simple(children), children)
    ensures children[|children|..] == [] && children[0..] == children
    ensures children == [] ==> !Simple(children)
    ensures Simple(children) ==> |children| == 1 && children[0].Text? && !children[0].cdata
  {
  }

  lemma ElementWritten(style: Style, depth: nat, name: string, attributes: seq<Attribute>, children: seq<Node>,
                       b: string)
    ensures Left(Entered(b, style, depth, name, attributes, children) + ChildrenWritten(style, depth + 1, children),
                 style, depth, Simple(children), name, children)
            == b + Written(style, depth, false, Element(name, attributes, children))
  {
    var ind, l := Indent(style, depth), style.lineBreak;
    var open, close := OpenTag(name, attributes), "</" + CStr(name) + ">";
    var w := ChildrenWritten(style, depth + 1, children);
    ElementCore(style, depth, name, attributes, children);
    hide OpenTag, Indent, CStr, Core, ChildrenWritten;
    if children == [] {
      NothingWritten(style, depth + 1, false, children);
      EmptyPieces(b, ind, open, l);
    } else if Simple(children) {
      SimplePieces(b, ind, open, w, close, l);
    } else {
      FullPieces(b, ind, open, w, close, l);
    }
  }

  lemma EmptyPieces(b: string, ind: string, open: string, l: string)
    ensures b + ind + open + (" />" + l) + "" == b + (ind + (open + " />") + l)
  {
    Regroup4(b, ind, open + " />", l);
    Regroup(b + ind, open, " />");
    Regroup(b + ind + open, " />", l);
    assert b + ind + open + (" />" + l) + "" == b + ind + open + (" />" + l);
  }

  lemma SimplePieces(b: string, ind: string, open: string, w: string, close: string, l: string)
    ensures b + ind + open + (">" + "") + w + ("" + (close + l)) == b + (ind + (open + (">" + w + close)) + l)
  {
    assert ">" + "" == ">" && "" + (close + l) == close + l;
    Regroup4(b, ind, open + (">" + w + close), l);
    Regroup(b + ind, open, ">" + w + close);
    Regroup4(b + ind + open, ">", w, close);
    Regroup(b + ind + open + ">" + w, close, l);
  }

  lemma FullPieces(b: string, ind: string, open: string, w: string, close: string, l: string)
    ensures b + ind + open + (">" + l) + w + (ind + (close + l)) ==
            b + (ind + (open + (">" + (l + w + ind) + close)) + l)
  {
    Regroup4(b, ind, open + (">" + (l + w + ind) + close), l);
    Regroup(b + ind, open, ">" + (l + w + ind) + close);
    Regroup4(b + ind + open, ">", l + w + ind, close);
    Regroup4(b + ind + open + ">", l, w, ind);
    Regroup(b + ind + open, ">", l);
    Regroup(b + ind + open + ">" + l + w, ind, close + l);
    Regroup(b + ind + open + ">" + l + w + ind, close, l);
  }

  lemma ElementCore(style: Style, depth: nat, name: string, attributes: seq<Attribute>, children: seq<Node>)
    ensures var open, close, w :=
              OpenTag(name, attributes), "</" + CStr(name) + ">", ChildrenWritten(style, depth + 1, children);
            Core(style, depth, Element(name, attributes, children)) ==
            if children == [] then open + " />"
            else if Simple(children) then open + (">" + w + close)
            else open + (">" + (style.lineBreak + w + Indent(style, depth)) + close)
  {
  }

  /** What a visit of `node` writes; `simple`: it is the only, plain text of its element. */
  function Written(style: Style, depth: nat, simple: bool, node: Node): string {
    if simple then Core(style, depth, node) else Indent(style, depth) + Core(style, depth, node) + style.lineBreak
  }

  /** The buffer after the tags before an element's children, and after those behind them. */
  function Entered(b: string, style: Style, depth: nat, name: string, attributes: seq<Attribute>,
                   children: seq<Node>): string {
    b + Indent(style, depth) + OpenTag(name, attributes)
    + if children == [] then " />" + style.lineBreak else ">" + if Simple(children) then "" else style.lineBreak
  }

  function Left(b: string, style: Style, depth: nat, simple: bool, name: string, children: seq<Node>): string {
    if children == [] then b
    else b + (if simple then "" else Indent(style, depth)) + ("</" + CStr(name) + ">" + style.lineBreak)
  }

  function OpenTag(name: string, attributes: seq<Attribute>): string {
    "<" + CStr(name) + PrintVisited(attributes)
  }

  lemma Regroup5Exit(b: string, name: string, lineBreak: string)
    ensures b + "</" + name + ">" + lineBreak == b + ("</" + name + ">" + lineBreak)
  {
  }

  lemma Regroup5(b: string, n: string, v: string)
    ensures b + n + "=\"" + v + "\"" == b + (n + "=" + "\"" + v + "\"")
    ensures b + n + "='" + v + "'" == b + (n + "=" + "'" + v + "'")
  {
    assert n + "=" + "\"" == n + "=\"" && n + "=" + "'" == n + "='";
  }

  lemma PrintedNone(attributes: seq<Attribute>)
    ensures PrintAttributes([]) == ""
    ensures PrintVisited(attributes) == PrintAttributes(XmlAttributes.Visited(attributes))
  {
  }

  lemma PrintedOne(attributes: seq<Attribute>)
    requires attributes != []
    ensures PrintAttributes(attributes) == " " + PrintAttribute(attributes[0]) + PrintAttributes(attributes[1..])
  {
  }
}
