/** TinyXML's recursive-descent parser as functions on the text: the tree it builds, the
    pointer it returns and the error it leaves in the document. */
module XmlParser {
  import opened XmlText

  datatype Attribute = Attribute(name: string, value: string)

  datatype Node =
    | Element(name: string, attributes: seq<Attribute>, children: seq<Node>)
    | Text(value: string, cdata: bool)
    | Comment(value: string)
    | Unknown(value: string)
    | Declaration(version: string, encoding: string, standalone: string)

  // ------------------------------------------------------------------ document errors

  const NO_ERROR := 0
  const ERROR_PARSING_ELEMENT := 3
  const ERROR_FAILED_TO_READ_ELEMENT_NAME := 4
  const ERROR_READING_ELEMENT_VALUE := 5
  const ERROR_READING_ATTRIBUTES := 6
  const ERROR_PARSING_EMPTY := 7
  const ERROR_READING_END_TAG := 8
  const ERROR_PARSING_UNKNOWN := 9
  const ERROR_PARSING_COMMENT := 10
  const ERROR_PARSING_DECLARATION := 11
  const ERROR_DOCUMENT_EMPTY := 12
  const ERROR_PARSING_CDATA := 14

  /** The document keeps its first error. */
  function SetError(err: int, id: int): int {
    if err != NO_ERROR then err else id
  }

  /** What `Parse` of a node leaves behind: where it stopped, the node, the document's error. */
  datatype Parsed = Parsed(next: Ptr, node: Node, err: int)

  /** A pointer at which nothing is left. */
  predicate Done(p: Ptr) {
    p.Null? || p.rest == ""
  }

  predicate Before(p: Ptr, q: Ptr) {
    p.At? ==> q.At? && |p.rest| < |q.rest|
  }

  // ----------------------------------------------------------------- the simple nodes

  /** Copies up to `endTag` (or the end) without expanding entities. */
  function CopyTo(p: string, endTag: string): (r: (string, string))
    ensures |r.0| <= |p|
    ensures r.0 == "" || StringEqual(r.0, endTag)
  {
    if p == "" || StringEqual(p, endTag) then (p, "")
    else var (rest, value) := CopyTo(p[1..], endTag); (rest, [p[0]] + value)
  }

  function ParseComment(p0: Ptr, err: int): (r: Parsed)
    ensures Before(r.next, p0)
  {
    var p := SkipWhiteSpace(p0);
    if p.Null? || !StringEqual(p.rest, "<!--") then Parsed(Null, Comment(""), SetError(err, ERROR_PARSING_COMMENT))
    else
      var (rest, value) := CopyTo(p.rest[4..], "-->");
      Parsed(At(if |rest| >= 3 then rest[3..] else ""), Comment(value), err)
  }

  function ParseUnknown(p0: Ptr, err: int): (r: Parsed)
    ensures Before(r.next, p0)
  {
    var p := SkipWhiteSpace(p0);
    if Done(p) || p.rest[0] != '<' then Parsed(Null, Unknown(""), SetError(err, ERROR_PARSING_UNKNOWN))
    else
      var (rest, value) := CopyTo(p.rest[1..], ">");
      Parsed(At(if rest != "" then rest[1..] else rest), Unknown(value), err)
  }

  function ParseCData(p: Ptr, err: int): (r: Parsed)
    ensures Before(r.next, p)
  {
    if p.Null? || !StringEqual(p.rest, "<![CDATA[")
    then Parsed(Null, Text("", true), SetError(err, ERROR_PARSING_CDATA))
    else
      var (rest, value) := CopyTo(p.rest[9..], "]]>");
      Parsed(ReadText(At(rest), false, "]]>").0, Text(value, true), err)
  }

  predicate Blank(value: string) {
    forall i | 0 <= i < |value| :: IsWhiteSpace(value[i])
  }

  /** Plain text up to the next `<`, on which the returned pointer stays. */
  function ParseText(p: Ptr): (r: (Ptr, string))
    ensures p.At? && p.rest != "" && !IsWhiteSpace(p.rest[0]) && p.rest[0] != '<' ==> Before(r.0, p)
  {
    var (end, value) := ReadTo(p, true, "<");
    if end.At? && |end.rest| > 1 then (end, value) else (Null, value)
  }

  // ----------------------------------------------------------------------- attributes

  /** An attribute value without quotes: up to white space or the end of the tag, and
      whether a quote turned up in it. */
  function Unquoted(p: string): (r: (string, string, bool))
    ensures |r.0| <= |p|
  {
    if p == "" || IsWhiteSpace(p[0]) || p[0] == '/' || p[0] == '>' then (p, "", true)
    else if p[0] == '\'' || p[0] == '\"' then (p, "", false)
    else var (rest, value, ok) := Unquoted(p[1..]); (rest, [p[0]] + value, ok)
  }

  /** The value of an attribute whose name is read; `failed` is the error if a stray quote is met. */
  function ParseAttributeValue(p: string, name: string, err: int, failed: int): (r: (Ptr, Attribute, int))
    requires p != ""
    ensures r.0.At? ==> |r.0.rest| <= |p|
  {
    if p[0] == '\'' || p[0] == '\"' then
      var (end, value) := ReadText(At(p[1..]), false, [p[0]]);
      (end, Attribute(name, value), err)
    else
      var (rest, value, ok) := Unquoted(p);
      if ok then (At(rest), Attribute(name, value), err) else (Null, Attribute(name, value), failed)
  }

  /** Where an attribute's value begins, after its name at `p`; null if there is none. */
  function PastEquals(p: Ptr): (r: Ptr)
    ensures Before(r, p)
    ensures r.At? ==> r.rest != ""
  {
    var q := SkipWhiteSpace(p);
    if Done(q) || q.rest[0] != '=' then Null
    else
      var value := SkipWhiteSpace(At(q.rest[1..]));
      if Done(value) then Null else value
  }

  /** `inDocument`: the attribute has a document to report errors to. */
  function ParseAttribute(p0: Ptr, inDocument: bool, err: int): (r: (Ptr, Attribute, int))
    ensures Before(r.0, p0)
  {
    var failed := if inDocument then SetError(err, ERROR_READING_ATTRIBUTES) else err;
    var p := SkipWhiteSpace(p0);
    if Done(p) then (Null, Attribute("", ""), err)
    else
      var (p1, name) := ReadName(p);
      if Done(p1) then (Null, Attribute(name, ""), failed)
      else
        var p2 := PastEquals(p1);
        if p2.Null? then (Null, Attribute(name, ""), failed)
        else ParseAttributeValue(p2.rest, name, err, failed)
  }

  /** The tail of a declaration, from `p` on, with what it has set so far; its parts are set
      as C strings. */
  function DeclarationTail(p: Ptr, version: string, encoding: string, standalone: string, err: int): (r: Parsed)
    ensures Before(r.next, p)
    decreases if p.At? then |p.rest| + 1 else 0
  {
    if Done(p) then Parsed(Null, Declaration(version, encoding, standalone), err)
    else if p.rest[0] == '>' then Parsed(At(p.rest[1..]), Declaration(version, encoding, standalone), err)
    else
      var q := SkipWhiteSpace(p);
      if q.At? && StringEqualNoCase(q.rest, "version") then
        var (next, a, e) := ParseAttribute(q, false, err);
        DeclarationTail(next, CStr(a.value), encoding, standalone, e)
      else if q.At? && StringEqualNoCase(q.rest, "encoding") then
        var (next, a, e) := ParseAttribute(q, false, err);
        DeclarationTail(next, version, CStr(a.value), standalone, e)
      else if q.At? && StringEqualNoCase(q.rest, "standalone") then
        var (next, a, e) := ParseAttribute(q, false, err);
        DeclarationTail(next, version, encoding, CStr(a.value), e)
      else
        DeclarationTail(if q.At? then At(SkipWord(q.rest)) else Null, version, encoding, standalone, err)
  }

  /** Reads over whatever it is: up to white space or `>`. */
  function SkipWord(p: string): (r: string)
    ensures |r| <= |p|
    ensures p != "" && p[0] != '>' && !IsWhiteSpace(p[0]) ==> |r| < |p|
  {
    if p == "" || p[0] == '>' || IsWhiteSpace(p[0]) then p else SkipWord(p[1..])
  }

  function ParseDeclaration(p0: Ptr, err: int): (r: Parsed)
    ensures Before(r.next, p0)
  {
    var p := SkipWhiteSpace(p0);
    if Done(p) || !StringEqualNoCase(p.rest, "<?xml")
    then Parsed(Null, Declaration("", "", ""), SetError(err, ERROR_PARSING_DECLARATION))
    else DeclarationTail(At(p.rest[5..]), "", "", "", err)
  }

  // ------------------------------------------------------------- elements and documents

  datatype Kind = NoNode | DeclarationNode | CommentNode | CDataNode | UnknownNode | ElementNode

  /** What kind of node begins at `p`. */
  function Identify(p0: Ptr): Kind {
    var p := SkipWhiteSpace(p0);
    if Done(p) || p.rest[0] != '<' then NoNode
    else if StringEqualNoCase(p.rest, "<?xml") then DeclarationNode
    else if StringEqual(p.rest, "<!--") then CommentNode
    else if StringEqual(p.rest, "<![CDATA[") then CDataNode
    else if StringEqual(p.rest, "<!") then UnknownNode
    else if |p.rest| > 1 && NameStart(p.rest[1]) then ElementNode
    else UnknownNode
  }

  function ParseNode(kind: Kind, p: Ptr, err: int): (r: Parsed)
    requires kind != NoNode
    ensures Before(r.next, p)
    decreases if p.At? then |p.rest| + 1 else 0, 3
  {
    match kind
    case DeclarationNode => ParseDeclaration(p, err)
    case CommentNode => ParseComment(p, err)
    case CDataNode => ParseCData(p, err)
    case UnknownNode => ParseUnknown(p, err)
    case ElementNode => ParseElement(p, err)
  }

  function ParseElement(p0: Ptr, err: int): (r: Parsed)
    ensures Before(r.next, p0)
    decreases if p0.At? then |p0.rest| + 1 else 0, 2
  {
    var p := SkipWhiteSpace(p0);
    if Done(p) || p.rest[0] != '<' then Parsed(Null, Element("", [], []), SetError(err, ERROR_PARSING_ELEMENT))
    else
      var (p1, name) := ReadName(SkipWhiteSpace(At(p.rest[1..])));
      if Done(p1)
      then Parsed(Null, Element(name, [], []), SetError(err, ERROR_FAILED_TO_READ_ELEMENT_NAME))
      else ParseTag(p1.rest, name, [], err)
  }

  predicate HasAttribute(attributes: seq<Attribute>, name: string) {
    exists i | 0 <= i < |attributes| :: attributes[i].name == name
  }

  /** The loop over the attributes of an element whose name and first attributes are read. */
  function ParseTag(p0: string, name: string, attributes: seq<Attribute>, err: int): (r: Parsed)
    requires p0 != ""
    ensures r.next.At? ==> |r.next.rest| < |p0|
    decreases |p0| + 1, 1
  {
    var p := SkipWhiteSpace(At(p0));
    if Done(p) then Parsed(Null, Element(name, attributes, []), SetError(err, ERROR_READING_ATTRIBUTES))
    else if p.rest[0] == '/' then
      if |p.rest| > 1 && p.rest[1] == '>' then Parsed(At(p.rest[2..]), Element(name, attributes, []), err)
      else Parsed(Null, Element(name, attributes, []), SetError(err, ERROR_PARSING_EMPTY))
    else if p.rest[0] == '>' then
      var (p1, children, e) := ReadValue(At(p.rest[1..]), err);
      var (next, e') := ParseEndTag(p1, name, e);
      Parsed(next, Element(name, attributes, children), e')
    else
      var (p1, attribute, e) := ParseAttribute(p, true, err);
      if Done(p1) || HasAttribute(attributes, attribute.name)
      then Parsed(Null, Element(name, attributes, []), SetError(e, ERROR_PARSING_ELEMENT))
      else ParseTag(p1.rest, name, attributes + [attribute], e)
  }

  /** The end tag after an element's value. */
  function ParseEndTag(p: Ptr, name: string, err: int): (r: (Ptr, int))
    ensures r.0.At? ==> p.At? && |r.0.rest| < |p.rest|
  {
    if Done(p) || !StringEqual(p.rest, "</" + name) then (Null, SetError(err, ERROR_READING_END_TAG))
    else
      var q := SkipWhiteSpace(At(p.rest[2 + |name|..]));
      if !Done(q) && q.rest[0] == '>' then (At(q.rest[1..]), err)
      else (Null, SetError(err, ERROR_READING_END_TAG))
  }

  function ReadValue(p: Ptr, err: int): (r: (Ptr, seq<Node>, int))
    ensures r.0.At? ==> p.At? && |r.0.rest| <= |p.rest|
    decreases if p.At? then |p.rest| + 1 else 0, 5
  {
    ReadChildren(SkipWhiteSpace(p), [], err)
  }

  /** The loop of `ReadValue` with the children read so far. */
  function ReadChildren(p: Ptr, children: seq<Node>, err: int): (r: (Ptr, seq<Node>, int))
    requires p.At? && p.rest != "" ==> !IsWhiteSpace(p.rest[0])
    ensures r.0.At? ==> p.At? && |r.0.rest| <= |p.rest|
    decreases if p.At? then |p.rest| + 1 else 0, 4
  {
    if p.Null? then (p, children, SetError(err, ERROR_READING_ELEMENT_VALUE))
    else if p.rest == "" then (p, children, err)
    else if p.rest[0] != '<' then
      var (next, value) := ParseText(p);
      ReadChildren(SkipWhiteSpace(next), if Blank(value) then children else children + [Text(value, false)], err)
    else if StringEqual(p.rest, "</") then (p, children, err)
    else if Identify(p) == NoNode then (Null, children, err)
    else
      var r := ParseNode(Identify(p), p, err);
      ReadChildren(SkipWhiteSpace(r.next), children + [r.node], r.err)
  }

  /** `TiXmlDocument::Parse` of a buffer: the pointer it returns, the document's
      children, its error. */
  function Parse(buffer: string): (Ptr, seq<Node>, int) {
    ParseDocument(CStr(buffer))
  }

  function ParseDocument(buffer: string): (Ptr, seq<Node>, int) {
    if buffer == "" then (Null, [], ERROR_DOCUMENT_EMPTY)
    else
      var (p, nodes, err) := ReadNodes(SkipWhiteSpace(At(buffer)), [], NO_ERROR);
      if nodes == [] then (Null, nodes, SetError(err, ERROR_DOCUMENT_EMPTY)) else (p, nodes, err)
  }

  function ReadNodes(p: Ptr, nodes: seq<Node>, err: int): (Ptr, seq<Node>, int)
    decreases if p.At? then |p.rest| + 1 else 0
  {
    if Done(p) || Identify(p) == NoNode then (p, nodes, err)
    else
      var r := ParseNode(Identify(p), p, err);
      ReadNodes(SkipWhiteSpace(r.next), nodes + [r.node], r.err)
  }
}
