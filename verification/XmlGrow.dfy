/** The linked tree that parsing leaves: attributes added to their rings and nodes linked in
    the order in which they were read. */
module XmlGrow {
  import opened XmlText
  import opened XmlParser
  import opened XmlReader
  import opened XmlAttributes
  import opened XmlContent
  import opened XmlTree

  /** What a tree parsed as `node` holds. */
  function AsContent(node: Node): (t: Content)
    ensures t.kind != DocumentType
    decreases node, 0
  {
    match node
    case Element(name, attributes, children) =>
      Content(ElementType, name, false, "", "", "", attributes, AsContents(children))
    case Text(value, cdata) => Content(TextType, value, cdata, "", "", "", [], [])
    case Comment(value) => Content(CommentType, value, false, "", "", "", [], [])
    case Unknown(value) => Content(UnknownType, value, false, "", "", "", [], [])
    case Declaration(version, encoding, standalone) =>
      Content(DeclarationType, "", false, version, encoding, standalone, [], [])
  }

  function AsContents(nodes: seq<Node>): (r: seq<Content>)
    ensures |r| == |nodes|
    decreases nodes, 1
  {
    if nodes == [] then [] else AsContents(nodes[..|nodes| - 1]) + [AsContent(nodes[|nodes| - 1])]
  }

  lemma {:induction false} AsContentsAt(nodes: seq<Node>, i: nat)
    requires i < |nodes|
    ensures AsContents(nodes)[i] == AsContent(nodes[i])
    decreases |nodes|
  {
    hide AsContent;
    if i < |nodes| - 1 {
      AsContentsAt(nodes[..|nodes| - 1], i);
    }
  }

  lemma AsContentsMore(nodes: seq<Node>, i: nat)
    requires i <= |nodes|
    ensures AsContents(nodes[..0]) == [] && nodes[..|nodes|] == nodes
    ensures i < |nodes| ==> AsContents(nodes[..i + 1]) == AsContents(nodes[..i]) + [AsContent(nodes[i])]
  {
    hide AsContent;
    if i < |nodes| {
      assert nodes[..i + 1][..i] == nodes[..i];
    }
  }

  lemma AsContentsFirst(nodes: seq<Node>)
    requires nodes != []
    ensures AsContents(nodes) == [AsContent(nodes[0])] + AsContents(nodes[1..])
  {
    hide AsContent, AsContents;
    forall i | 0 <= i < |nodes|
      ensures AsContents(nodes)[i] == ([AsContent(nodes[0])] + AsContents(nodes[1..]))[i]
    {
      AsContentsAt(nodes, i);
      if i > 0 {
        AsContentsAt(nodes[1..], i - 1);
      }
    }
  }

  /** The printer visits the tree as the node that was parsed. */
  lemma {:induction false} ContentIsNode(node: Node)
    ensures Proper(AsContent(node)) && AsNode(AsContent(node)) == node
    decreases node, 0
  {
    if node.Element? {
      ContentsAreNodes(node.children);
      hide AsContents, AsNodes;
    }
  }

  lemma {:induction false} ContentsAreNodes(nodes: seq<Node>)
    ensures AllProper(AsContents(nodes)) && AsNodes(AsContents(nodes)) == nodes
    decreases nodes, 1
  {
    if nodes != [] {
      ContentIsNode(nodes[0]);
      ContentsAreNodes(nodes[1..]);
      AsContentsFirst(nodes);
      hide AsContent, AsContents, AsNode, Proper;
      assert (([AsContent(nodes[0])] + AsContents(nodes[1..])))[1..] == AsContents(nodes[1..]);
    }
  }

  /** Adds attributes to the ring of a new element. */
  method GrowAttributes(r: XmlNode, attributes: seq<Attribute>)
    requires r.Valid() && r.children == [] && r.attributeSet.contents == []
    modifies r`below, r.attributeSet, r.attributeSet.repr
    ensures r.Valid() && fresh(r.below - old(r.below)) && r.attributeSet.contents == attributes
  {
    hide *;
    r.Childless();
    r.Parts();
    AttributesValid(r);
    var ring := r.attributeSet;
    var i := 0;
    while i < |attributes|
      invariant 0 <= i <= |attributes| && ring.Valid() && ring.contents == attributes[..i]
      invariant fresh(ring.repr - old(ring.repr)) && r.below == old(r.below)
    {
      var attrib := new AttributeNode();
      attrib.name, attrib.value := attributes[i].name, attributes[i].value;
      ring.Entries();
      ring.Add(attrib);
      i := i + 1;
    }
    r.below := r.below + ring.repr;
    r.ChildlessValid();
  }

  lemma AttributesValid(r: XmlNode)
    requires r.Valid()
    ensures r.attributeSet.Valid()
  {
    r.Parts();
  }

  /** A parsed node and everything in it. */
  method Grow(node: Node) returns (r: XmlNode)
    ensures fresh(r) && fresh(r.below) && r.Valid() && r.kind != DocumentType && r.Tree() == AsContent(node)
    decreases node, 0
  {
    hide *;
    match node {
      case Element(name, attributes, children) =>
        r := new XmlNode(ElementType, "");
        r.Childless();
        r.value := name;
        GrowAttributes(r, attributes);
        GrowChildren(r, children);
      case Text(value, cdata) =>
        r := new XmlNode(TextType, "");
        r.Childless();
        r.value, r.cdata := value, cdata;
      case Comment(value) =>
        r := new XmlNode(CommentType, "");
        r.Childless();
        r.value := value;
      case Unknown(value) =>
        r := new XmlNode(UnknownType, "");
        r.Childless();
        r.value := value;
      case Declaration(version, encoding, standalone) =>
        r := new XmlNode(DeclarationType, "");
        r.Childless();
        NoText();
        r.version, r.encoding, r.standalone := version, encoding, standalone;
    }
    r.TreeIs();
    ContentOf(node);
  }

  lemma NoText()
    ensures CStr("") == ""
  {
  }

  /** Links the children of a new node one after the other. */
  method GrowChildren(parent: XmlNode, nodes: seq<Node>)
    requires parent.Valid() && parent.children == [] && parent.kids == []
    modifies parent`children, parent`kids, parent`below, parent`firstChild, parent`lastChild
    ensures parent.Valid() && fresh(parent.below - old(parent.below)) && parent.kids == AsContents(nodes)
    decreases nodes, 1
  {
    hide *;
    AsContentsMore(nodes, 0);
    var i := 0;
    while i < |nodes|
      invariant 0 <= i <= |nodes| && parent.Valid() && fresh(parent.below - old(parent.below))
      invariant parent.kids == AsContents(nodes[..i])
      invariant forall k | 0 <= k < |parent.children| :: fresh(parent.children[k])
    {
      var node := Grow(nodes[i]);
      parent.ApartIf(node);
      AsContentsMore(nodes, i);
      var linked := parent.LinkEndChild(node);
      i := i + 1;
    }
  }

  lemma ContentOf(node: Node)
    ensures AsContent(node) ==
            match node
            case Element(name, attributes, children) =>
              Content(ElementType, name, false, "", "", "", attributes, AsContents(children))
            case Text(value, cdata) => Content(TextType, value, cdata, "", "", "", [], [])
            case Comment(value) => Content(CommentType, value, false, "", "", "", [], [])
            case Unknown(value) => Content(UnknownType, value, false, "", "", "", [], [])
            case Declaration(version, encoding, standalone) =>
              Content(DeclarationType, "", false, version, encoding, standalone, [], [])
  {
  }

  /** `TiXmlDocument::Parse` into an empty document: a linked tree, which the printer visits
      as the nodes that were read, and the first error. */
  method ParseInto(buffer: string) returns (doc: XmlNode, err: int)
    ensures doc.Valid() && doc.kind == DocumentType && fresh(doc) && fresh(doc.below)
    ensures doc.kids == AsContents(Parse(buffer).1) && err == Parse(buffer).2
    ensures AllProper(doc.kids) && AsNodes(doc.kids) == Parse(buffer).1
  {
    hide *;
    doc := new XmlNode(DocumentType, "");
    doc.Childless();
    var s, q, nodes, e := ParseDocumentAt(buffer);
    GrowChildren(doc, nodes);
    ContentsAreNodes(nodes);
    err := e;
  }
}
