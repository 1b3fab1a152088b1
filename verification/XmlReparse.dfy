/** Writing a linked document and reading the text again, from one linked tree to the other. */
module XmlReparse {
  import opened XmlTextProofs
  import opened XmlParser
  import opened XmlPrinter
  import opened XmlRoundTrip
  import opened XmlContent
  import opened XmlTree
  import opened XmlGrow
  import opened XmlWriter

  /** A node that holds only what its kind has: nothing that the printer does not visit. */
  predicate Bare(t: Content) {
    match t.kind
    case ElementType => NoParts(t) && !t.cdata && AllBare(t.children)
    case TextType => NoParts(t) && t.attributes == [] && t.children == []
    case CommentType => NoParts(t) && !t.cdata && t.attributes == [] && t.children == []
    case UnknownType => NoParts(t) && !t.cdata && t.attributes == [] && t.children == []
    case DeclarationType => t.value == "" && !t.cdata && t.attributes == [] && t.children == []
    case DocumentType => false
  }

  /** None of the parts of a declaration. */
  predicate NoParts(t: Content) {
    t.version == "" && t.encoding == "" && t.standalone == ""
  }

  predicate AllBare(list: seq<Content>) {
    forall i | 0 <= i < |list| :: Bare(list[i])
  }

  /** A node can be told from what is visited of it exactly if it is bare. */
  lemma {:induction false} BareIsVisited(t: Content)
    requires Proper(t) && t.kind != DocumentType
    ensures AsContent(AsNode(t)) == t <==> Bare(t)
    decreases t, 0
  {
    if t.kind == ElementType {
      ProperIs(t);
      AllBareAreVisited(t.children);
      hide AsContents, AsNodes, AllBare, Proper, AllProper;
    } else {
      hide AllBare, Proper, AllProper, AsNodes;
    }
  }

  lemma {:induction false} AllBareAreVisited(list: seq<Content>)
    requires AllProper(list)
    ensures AsContents(AsNodes(list)) == list <==> AllBare(list)
    decreases list, 1
  {
    if list == [] {
      NothingVisited();
    } else {
      var nodes, rest := AsNodes(list), list[1..];
      assert nodes == [AsNode(list[0])] + AsNodes(rest);
      BareIsVisited(list[0]);
      AllBareAreVisited(rest);
      AsContentsFirst(nodes);
      AllBareFirst(list);
      hide *;
      assert nodes[0] == AsNode(list[0]) && nodes[1..] == AsNodes(rest);
      assert list == [list[0]] + rest;
      var c, more := AsContent(nodes[0]), AsContents(nodes[1..]);
      assert ([c] + more)[0] == c && ([c] + more)[1..] == more;
    }
  }

  lemma NothingVisited()
    ensures AsContents(AsNodes([])) == [] && AllBare([])
  {
  }

  lemma AllBareFirst(list: seq<Content>)
    requires list != []
    ensures AllBare(list) <==> Bare(list[0]) && AllBare(list[1..])
  {
    hide Bare;
    assert list == [list[0]] + list[1..];
  }

  /** Prints a linked document, pretty or as a stream, and parses the text into another. If
      the document is in normal form, the printer visits both alike, and they hold the same
      exactly if the first holds nothing that is not visited. */
  method PrintAndParse(doc: XmlNode, stream: bool) returns (text: string, again: XmlNode, err: int)
    requires doc.Valid() && AllProper(doc.kids) && NormalDocument(AsNodes(doc.kids))
    ensures again.Valid() && again.kind == DocumentType && fresh(again) && fresh(again.below) && err == NO_ERROR
    ensures AllProper(again.kids) && AsNodes(again.kids) == AsNodes(doc.kids)
    ensures again.kids == doc.kids <==> AllBare(doc.kids)
  {
    hide *;
    ghost var nodes := AsNodes(doc.kids);
    var printer := new Printer();
    if stream {
      printer.SetStreamPrinting();
    }
    ghost var style := printer.TheStyle();
    printer.StyleIs();
    StylesAreWhite();
    printer.AcceptDocument(doc);
    text := printer.buffer;
    assert text == PrintDocument(style, nodes) by {
      assert "" + PrintDocument(style, nodes) == PrintDocument(style, nodes);
    }
    RoundTrip(style, nodes);
    AllBareAreVisited(doc.kids);
    again, err := ParseInto(text);
  }

  lemma StylesAreWhite()
    ensures WhiteStyle(Style("    ", "\n")) && WhiteStyle(Style("", ""))
  {
  }
}
