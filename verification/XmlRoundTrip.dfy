/** Parsing what the printer printed rebuilds the tree, for every document in normal form. */
module XmlRoundTrip {
  import opened Basics
  import opened XmlText
  import opened XmlTextProofs
  import opened XmlParser
  import opened XmlPrinter
  import XmlAttributes

  // ---------------------------------------------------------------------- normal form

  ghost predicate NameOk(name: string) {
    name != "" && NameStart(name[0]) && forall i | 0 <= i < |name| :: NameChar(name[i])
  }

  /** `tag` occurs nowhere in `v`. */
  ghost predicate Without(v: string, tag: string) {
    forall i | 0 <= i <= |v| :: !(tag <= v[i..])
  }

  ghost predicate AttributesOk(attributes: seq<Attribute>) {
    && (forall i | 0 <= i < |attributes| :: NameOk(attributes[i].name) && NoHex(attributes[i].value))
    && (forall i, j | 0 <= i < j < |attributes| :: attributes[i].name != attributes[j].name)
  }

  ghost predicate PlainOk(v: string) {
    NoHex(v) && Tidy(v) && !Blank(v) && v[0] != ' '
  }

  ghost predicate UnknownOk(v: string) {
    && NoNul(v) && Without(v, ">")
    && (v != "" ==> v[0] != '/' && !NameStart(v[0]))
    && !("!--" <= v) && !("![CDATA[" <= v) && !StringEqualNoCase(v, "?xml")
  }

  ghost predicate PartOk(v: string) {
    NoNul(v) && forall i | 0 <= i < |v| :: v[i] != '\"' && v[i] != '&'
  }

  predicate Plain(node: Node) {
    node.Text? && !node.cdata
  }

  ghost predicate NormalNode(node: Node)
    decreases node, 1
  {
    match node
    case Text(value, cdata) => if cdata then NoNul(value) && Without(value, "]]>") else PlainOk(value)
    case Comment(value) => NoNul(value) && Without(value, "-->")
    case Unknown(value) => UnknownOk(value)
    case Declaration(version, encoding, standalone) => PartOk(version) && PartOk(encoding) && PartOk(standalone)
    case Element(name, attributes, children) =>
      NameOk(name) && AttributesOk(attributes) && NormalNodes(children)
  }

  ghost predicate NormalNodes(nodes: seq<Node>)
    decreases nodes, 0
  {
    nodes == [] ||
    (&& NormalNode(nodes[0]) && NormalNodes(nodes[1..])
     && (|nodes| > 1 ==> !(Plain(nodes[0]) && Plain(nodes[1]))))
  }

  ghost predicate WhiteStyle(style: Style) {
    AllWhite(style.indent) && AllWhite(style.lineBreak)
  }

  /** Concatenation, regrouped to the right. */
  lemma Assoc4(a: string, b: string, c: string, d: string)
    ensures a + b + c + d == a + (b + (c + d))
  {
    Regroup(a + b, c, d);
    Regroup(a, b, c + d);
  }

  // ---------------------------------------------------------------------- white space

  lemma {:induction false} SkipWhite(w: string, r: string)
    requires AllWhite(w)
    ensures SkipWS(w + r) == SkipWS(r)
    decreases |w|
  {
    if w == "" {
      assert w + r == r;
    } else {
      assert (w + r)[1..] == w[1..] + r && (w + r)[0] == w[0];
      SkipWhite(w[1..], r);
    }
  }

  lemma {:induction false} IndentIsWhite(style: Style, depth: nat)
    requires WhiteStyle(style)
    ensures AllWhite(Indent(style, depth))
  {
    if depth > 0 {
      IndentIsWhite(style, depth - 1);
    }
  }

  // ----------------------------------------------------------------- the simple nodes

  lemma {:induction false} CopyStops(v: string, tag: string, rest: string)
    requires |tag| > 0 && tag[|tag| - 1] == '>' && forall i | 0 <= i < |tag| - 1 :: tag[i] != '>'
    requires Without(v, tag)
    ensures CopyTo(v + tag + rest, tag) == (tag + rest, v)
    decreases |v|
  {
    var p := v + tag + rest;
    if v == "" {
      assert p == tag + rest && tag <= p;
    } else {
      assert p[1..] == v[1..] + tag + rest && p[0] == v[0];
      assert forall i | 0 <= i <= |v[1..]| :: v[1..][i..] == v[i + 1..];
      CopyStops(v[1..], tag, rest);
      assert v == [v[0]] + v[1..];
      assert !(tag <= p) by {
        if |v| >= |tag| {
          assert v[0..] == v && p[..|tag|] == v[..|tag|];
        } else {
          assert p[|tag| - 1] == tag[|tag| - 1 - |v|];
        }
      }
    }
  }

  lemma CommentReads(v: string, rest: string, err: int)
    requires NoNul(v) && Without(v, "-->")
    ensures ParseComment(At("<!--" + v + "-->" + rest), err) == Parsed(At(rest), Comment(v), err)
  {
    var p := "<!--" + v + "-->" + rest;
    assert p == "<!--" + (v + "-->" + rest) && p[0] == '<';
    assert p[4..] == v + "-->" + rest && "<!--" <= p;
    CopyStops(v, "-->", rest);
    assert ("-->" + rest)[3..] == rest;
  }

  lemma UnknownReads(v: string, rest: string, err: int)
    requires UnknownOk(v)
    ensures ParseUnknown(At("<" + v + ">" + rest), err) == Parsed(At(rest), Unknown(v), err)
  {
    var p := "<" + v + ">" + rest;
    assert p[1..] == v + ">" + rest && p[0] == '<';
    CopyStops(v, ">", rest);
    assert (">" + rest)[1..] == rest;
  }

  lemma CDataReads(v: string, rest: string, err: int)
    requires NoNul(v) && Without(v, "]]>")
    ensures ParseCData(At("<![CDATA[" + v + "]]>" + rest), err) ==
            Parsed(if rest == "" then Null else At(rest), Text(v, true), err)
  {
    var p := "<![CDATA[" + v + "]]>" + rest;
    assert p == "<![CDATA[" + (v + "]]>" + rest);
    assert p[9..] == v + "]]>" + rest && "<![CDATA[" <= p;
    CopyStops(v, "]]>", rest);
    var q := "]]>" + rest;
    assert "]]>" <= q && q[3..] == rest;
    assert Keep(At(q), "]]>") == (At(q), "");
  }

  // ----------------------------------------------------------------------- attributes

  lemma {:induction false} NameStops(name: string, rest: string)
    requires forall i | 0 <= i < |name| :: NameChar(name[i])
    requires rest != "" && !NameChar(rest[0])
    ensures NameLength(name + rest) == |name|
    decreases |name|
  {
    if name == "" {
      assert name + rest == rest;
    } else {
      assert (name + rest)[1..] == name[1..] + rest && (name + rest)[0] == name[0];
      NameStops(name[1..], rest);
    }
  }

  lemma NameReads(name: string, rest: string)
    requires NameOk(name) && rest != "" && !NameChar(rest[0])
    ensures ReadName(At(name + rest)) == (At(rest), name)
  {
    NameStops(name, rest);
    assert (name + rest)[0] == name[0];
    assert (name + rest)[|name|..] == rest && (name + rest)[..|name|] == name;
  }

  lemma {:induction false} NameIsEncoded(name: string)
    requires forall i | 0 <= i < |name| :: NameChar(name[i])
    ensures Encode(name) == name
    decreases |name|
  {
    if name != "" {
      NameCharIsPlain(name[0]);
      hide NameChar, EncodeChar;
      assert !(HEX_PREFIX <= name) by {
        assert HEX_PREFIX[0] == '&';
      }
      NameIsEncoded(name[1..]);
    }
  }

  lemma NameCharIsPlain(c: char)
    requires NameChar(c)
    ensures c != '&' && EncodeChar(c) == [c]
  {
  }

  /** A name, an equals sign and a quoted value, which `body` continues with. */
  lemma QuotedReads(name: string, quote: char, body: string, inDocument: bool, err: int)
    requires NameOk(name) && (quote == '\"' || quote == '\'')
    ensures var (next, value) := ReadText(At(body), false, [quote]);
            ParseAttribute(At(name + ("=" + ([quote] + body))), inDocument, err) == (next, Attribute(name, value), err)
  {
    hide ReadText, ReadName, NameOk;
    NameIsName(name);
    var q := [quote] + body;
    var p := name + ("=" + q);
    assert ("=" + q)[0] == '=' && ("=" + q)[1..] == q && q[1..] == body;
    NameReads(name, "=" + q);
    assert p[0] == name[0];
  }

  lemma AttributeReads(a: Attribute, rest: string, err: int)
    requires NameOk(a.name) && NoHex(a.value) && rest != ""
    ensures ParseAttribute(At(PrintAttribute(a) + rest), true, err) == (At(rest), a, err)
  {
    hide Encode, NoHex, ReadText, ReadName, NameOk, ParseAttribute;
    var quote := if HasQuote(a.value) then '\'' else '\"';
    var body := Encode(a.value) + [quote] + rest;
    NameIsName(a.name);
    ValueRoundTrip(a.value, quote, rest);
    QuotedReads(a.name, quote, body, true, err);
    assert PrintAttribute(a) + rest == a.name + ("=" + ([quote] + body));
  }

  lemma NameIsName(name: string)
    requires NameOk(name)
    ensures name != "" && NameStart(name[0]) && !IsWhiteSpace(name[0])
    ensures Encode(name) == name && CStr(name) == name
    ensures name[0] != '/' && name[0] != '>'
  {
    NameIsEncoded(name);
    CStrIsAll(name);
  }

  lemma TagTakes(a: Attribute, rest: string, name: string, done: seq<Attribute>, err: int)
    requires NameOk(a.name) && NoHex(a.value) && rest != "" && !HasAttribute(done, a.name)
    ensures ParseTag(" " + PrintAttribute(a) + rest, name, done, err) == ParseTag(rest, name, done + [a], err)
  {
    AttributeReads(a, rest, err);
    AttributeOpens(a, rest);
    hide ParseAttribute, HasAttribute, PrintAttribute, NameOk, NoHex, ParseTag;
    Regroup(" ", PrintAttribute(a), rest);
    TagGoesOn(PrintAttribute(a) + rest, a, rest, name, done, err);
  }

  lemma AttributeOpens(a: Attribute, rest: string)
    requires NameOk(a.name)
    ensures var q := PrintAttribute(a) + rest;
            q != "" && !IsWhiteSpace(q[0]) && q[0] != '/' && q[0] != '>'
  {
    NameIsName(a.name);
    hide NameOk, Encode;
    assert PrintAttribute(a)[0] == Encode(a.name)[0];
  }

  lemma TagGoesOn(q: string, a: Attribute, rest: string, name: string, done: seq<Attribute>, err: int)
    requires q != "" && !IsWhiteSpace(q[0]) && q[0] != '/' && q[0] != '>'
    requires ParseAttribute(At(q), true, err) == (At(rest), a, err) && rest != "" && !HasAttribute(done, a.name)
    ensures ParseTag(" " + q, name, done, err) == ParseTag(rest, name, done + [a], err)
  {
    hide ParseAttribute, HasAttribute;
    SkipWhite(" ", q);
  }

  lemma NextAttribute(done: seq<Attribute>, attributes: seq<Attribute>)
    requires AttributesOk(done + attributes) && attributes != []
    ensures NameOk(attributes[0].name) && NoHex(attributes[0].value) && !HasAttribute(done, attributes[0].name)
    ensures done + attributes == done + [attributes[0]] + attributes[1..]
  {
    var all := done + attributes;
    assert all[|done|] == attributes[0];
    assert forall i | 0 <= i < |done| :: all[i] == done[i];
  }

  /** The attributes printed one after the other are read back in order. */
  lemma {:induction false} AttributesRead(attributes: seq<Attribute>, name: string, done: seq<Attribute>,
                                          tail: string, err: int)
    requires AttributesOk(done + attributes) && tail != ""
    ensures ParseTag(PrintAttributes(attributes) + tail, name, done, err) ==
            ParseTag(tail, name, done + attributes, err)
    decreases |attributes|
  {
    hide ParseTag, AttributesOk, HasAttribute, PrintAttribute, NameOk, NoHex;
    if attributes == [] {
      assert PrintAttributes(attributes) + tail == tail && done + attributes == done;
    } else {
      var a, rest := attributes[0], PrintAttributes(attributes[1..]) + tail;
      NextAttribute(done, attributes);
      TagTakes(a, rest, name, done, err);
      assert PrintAttributes(attributes) + tail == " " + PrintAttribute(a) + rest;
      AttributesRead(attributes[1..], name, done + [a], tail, err);
    }
  }

  // --------------------------------------------------------------------- declarations

  /** A value that needs no decoding is read as it stands. */
  lemma {:induction false} KeepRaw(v: string, end: string)
    requires forall i | 0 <= i < |v| :: v[i] != '\"' && v[i] != '&'
    requires StringEqual(end, "\"")
    ensures Keep(At(v + end), "\"") == (At(end), v)
    decreases |v|
  {
    var p := v + end;
    if v == "" {
      assert p == end;
    } else {
      assert p[0] == v[0] && p[1..] == v[1..] + end;
      assert "\""[0] == '\"';
      KeepRaw(v[1..], end);
      assert v == [v[0]] + v[1..];
    }
  }

  /** One part of a declaration that is there. */
  lemma PartReads(name: string, value: string, rest: string, err: int)
    requires PartOk(value) && NameOk(name) && rest != ""
    ensures ParseAttribute(At(name + ("=" + (['\"'] + (value + ("\"" + rest))))), false, err) ==
            (At(rest), Attribute(name, value), err)
  {
    hide NameOk, ReadName, Keep, ParseAttribute;
    var end := "\"" + rest;
    assert "\"" <= end && end[1..] == rest;
    KeepRaw(value, end);
    assert ['\"'] == "\"";
    QuotedReads(name, '\"', value + end, false, err);
  }

  /** A part that is there, behind a space: the text the attribute parser is given. */
  lemma PartBegins(name: string, value: string, tail: string)
    requires value != "" && NameOk(name)
    ensures SkipWhiteSpace(At(" " + PrintPart(name, value) + tail)) ==
            At(name + ("=" + (['\"'] + (value + ("\"" + (" " + tail))))))
  {
    hide *;
    var q := name + ("=" + (['\"'] + (value + ("\"" + (" " + tail)))));
    NameIsName(name);
    PartIs(name, value);
    PartRegroups(name, value, tail);
    assert q[0] == name[0];
    PastBlank(q);
  }

  lemma PartIs(name: string, value: string)
    requires value != ""
    ensures PrintPart(name, value) == name + "=\"" + value + "\" "
  {
  }

  lemma PartRegroups(name: string, value: string, tail: string)
    ensures " " + (name + "=\"" + value + "\" ") + tail ==
            " " + (name + ("=" + (['\"'] + (value + ("\"" + (" " + tail))))))
  {
  }

  lemma PastBlank(q: string)
    requires q != "" && !IsWhiteSpace(q[0])
    ensures SkipWhiteSpace(At(" " + q)) == At(q)
  {
    SkipWhite(" ", q);
  }

  lemma KeyMatches(key: string, x: string)
    requires key == "version" || key == "encoding" || key == "standalone"
    ensures StringEqualNoCase(key + x, key)
    ensures key != "version" ==> !StringEqualNoCase(key + x, "version")
    ensures key == "standalone" ==> !StringEqualNoCase(key + x, "encoding")
    ensures NameOk(key)
  {
    assert (key + x)[0] == key[0];
  }

  lemma VersionReads(value: string, tail: string, e: string, s: string, err: int)
    requires PartOk(value)
    ensures DeclarationTail(At(" " + PrintPart("version", value) + tail), "", e, s, err) ==
            DeclarationTail(At(" " + tail), value, e, s, err)
  {
    CStrIsAll(value);
    hide PartOk, ParseAttribute, StringEqualNoCase, NameOk, CStr;
    var name := "version";
    if value == "" {
      assert " " + PrintPart(name, value) + tail == " " + tail;
    } else {
      var body := "=" + (['\"'] + (value + ("\"" + (" " + tail))));
      KeyMatches(name, body);
      PartBegins(name, value, tail);
      PartReads(name, value, " " + tail, err);
    }
  }

  lemma EncodingReads(value: string, tail: string, v: string, s: string, err: int)
    requires PartOk(value)
    ensures DeclarationTail(At(" " + PrintPart("encoding", value) + tail), v, "", s, err) ==
            DeclarationTail(At(" " + tail), v, value, s, err)
  {
    CStrIsAll(value);
    hide PartOk, ParseAttribute, StringEqualNoCase, NameOk, CStr;
    var name := "encoding";
    if value == "" {
      assert " " + PrintPart(name, value) + tail == " " + tail;
    } else {
      var body := "=" + (['\"'] + (value + ("\"" + (" " + tail))));
      KeyMatches(name, body);
      PartBegins(name, value, tail);
      PartReads(name, value, " " + tail, err);
    }
  }

  lemma StandaloneReads(value: string, tail: string, v: string, e: string, err: int)
    requires PartOk(value)
    ensures DeclarationTail(At(" " + PrintPart("standalone", value) + tail), v, e, "", err) ==
            DeclarationTail(At(" " + tail), v, e, value, err)
  {
    CStrIsAll(value);
    hide PartOk, ParseAttribute, StringEqualNoCase, NameOk, CStr;
    var name := "standalone";
    if value == "" {
      assert " " + PrintPart(name, value) + tail == " " + tail;
    } else {
      var body := "=" + (['\"'] + (value + ("\"" + (" " + tail))));
      KeyMatches(name, body);
      PartBegins(name, value, tail);
      PartReads(name, value, " " + tail, err);
    }
  }

  lemma DeclarationEnds(rest: string, v: string, e: string, s: string, err: int)
    ensures DeclarationTail(At(" " + ("?>" + rest)), v, e, s, err) == Parsed(At(rest), Declaration(v, e, s), err)
  {
    var q := "?>" + rest;
    assert q[0] == '?' && q[1..] == ">" + rest && q[1..][0] == '>' && q[1..][1..] == rest;
    SkipWhite(" ", q);
    assert (" " + q)[0] == ' ';
    assert SkipWhiteSpace(At(" " + q)) == At(q);
    assert SkipWord(q[1..]) == q[1..];
    assert SkipWord(q) == q[1..];
  }

  lemma DeclarationReads(v: string, e: string, s: string, rest: string, err: int)
    requires PartOk(v) && PartOk(e) && PartOk(s)
    ensures ParseDeclaration(At(PrintDeclaration(v, e, s) + rest), err) ==
            Parsed(At(rest), Declaration(v, e, s), err)
  {
    hide PartOk, PrintPart, DeclarationTail;
    var end := "?>" + rest;
    var third := PrintPart("standalone", s) + end;
    var second := PrintPart("encoding", e) + third;
    var first := PrintPart("version", v) + second;
    VersionReads(v, second, "", "", err);
    assert " " + PrintPart("version", v) + second == " " + first;
    EncodingReads(e, third, v, "", err);
    assert " " + PrintPart("encoding", e) + third == " " + second;
    StandaloneReads(s, end, v, e, err);
    assert " " + PrintPart("standalone", s) + end == " " + third;
    DeclarationEnds(rest, v, e, s, err);
    var p := PrintDeclaration(v, e, s) + rest;
    assert p == "<?xml" + (" " + first);
    assert p[0] == '<' && p[5..] == " " + first;
    assert StringEqualNoCase(p, "<?xml") by {
      assert forall i | 0 <= i < 5 :: p[i] == "<?xml"[i];
    }
  }

  // ---------------------------------------------------------------- telling nodes apart

  function KindOf(node: Node): Kind {
    match node
    case Text(_, _) => CDataNode
    case Comment(_) => CommentNode
    case Unknown(_) => UnknownNode
    case Declaration(_, _, _) => DeclarationNode
    case Element(_, _, _) => ElementNode
  }

  /** How a node other than a plain text begins, and that it is known by that. */
  ghost predicate Begins(node: Node, p: string) {
    && |p| >= 2 && p[0] == '<' && p[1] != '/'
    && Identify(At(p)) == KindOf(node)
  }

  lemma ElementBegins(node: Node, name: string, x: string)
    requires node.Element? && NameOk(name)
    ensures Begins(node, "<" + (name + x))
  {
    var p := "<" + (name + x);
    assert p[1] == name[0];
    assert "<!--"[1] == "<![CDATA["[1] == "<!"[1] == '!' && "<?xml"[1] == '?';
  }

  lemma CommentBegins(node: Node, x: string)
    requires node.Comment?
    ensures Begins(node, "<!--" + x)
  {
    var p := "<!--" + x;
    assert p[1] == '!' && "<?xml"[1] == '?';
    assert "<!--" <= p;
  }

  lemma CDataBegins(node: Node, x: string)
    requires node.Text?
    ensures Begins(node, "<![CDATA[" + x)
  {
    var p := "<![CDATA[" + x;
    assert p[1] == '!' && p[2] == '[' && "<?xml"[1] == '?' && "<!--"[2] == '-';
    assert "<![CDATA[" <= p;
  }

  lemma DeclarationBegins(node: Node, x: string)
    requires node.Declaration?
    ensures Begins(node, "<?xml" + x)
  {
    var p := "<?xml" + x;
    assert forall i | 0 <= i < 5 :: p[i] == "<?xml"[i];
  }

  lemma NotATag(v: string, tag: string, rest: string)
    requires !(tag <= v) && forall i | 0 <= i < |tag| :: tag[i] != '>'
    ensures !("<" + tag <= "<" + (v + (">" + rest)))
  {
    var p, t := "<" + (v + (">" + rest)), "<" + tag;
    if |tag| <= |v| {
      assert p[..|t|] == "<" + v[..|tag|] && v[..|tag|] != tag;
      assert t[1..] == tag && ("<" + v[..|tag|])[1..] == v[..|tag|];
    } else if tag[..|v|] == v {
      assert p[|v| + 1] == '>' && t[|v| + 1] == tag[|v|];
    } else {
      assert p[1..][..|v|] == v && t[1..][..|v|] == tag[..|v|];
    }
  }

  lemma NotAHeader(v: string, rest: string)
    requires !StringEqualNoCase(v, "?xml")
    ensures !StringEqualNoCase("<" + (v + (">" + rest)), "<?xml")
  {
    var p := "<" + (v + (">" + rest));
    if |v| >= 4 {
      var i :| 0 <= i < 4 && ToLower(v[i]) != ToLower("?xml"[i]);
      assert p[i + 1] == v[i] && "<?xml"[i + 1] == "?xml"[i];
    } else {
      assert p[|v| + 1] == '>';
      assert ToLower('>') == '>' && ToLower("<?xml"[|v| + 1]) != '>';
    }
  }

  lemma UnknownBegins(node: Node, v: string, rest: string)
    requires node.Unknown? && UnknownOk(v)
    ensures Begins(node, "<" + (v + (">" + rest)))
  {
    var p := "<" + (v + (">" + rest));
    NotAHeader(v, rest);
    NotATag(v, "!--", rest);
    NotATag(v, "![CDATA[", rest);
    assert "<" + "!--" == "<!--" && "<" + "![CDATA[" == "<![CDATA[";
    assert p[1] == if v == "" then '>' else v[0];
    hide Without, StringEqualNoCase, NoNul;
  }

  // --------------------------------------------------------------------------- elements

  lemma EndTagReads(name: string, rest: string, err: int)
    ensures ParseEndTag(At("</" + (name + (">" + rest))), name, err) == (At(rest), err)
  {
    var p := "</" + (name + (">" + rest));
    assert p == "</" + name + (">" + rest);
    assert p[2 + |name|..] == ">" + rest && "</" + name <= p;
    assert (">" + rest)[1..] == rest;
  }

  lemma EmptyTagReads(rest: string, name: string, attributes: seq<Attribute>, err: int)
    ensures ParseTag(" />" + rest, name, attributes, err) == Parsed(At(rest), Element(name, attributes, []), err)
  {
    var q := "/>" + rest;
    assert " />" + rest == " " + q;
    SkipWhite(" ", q);
    assert SkipWhiteSpace(At(" " + q)) == At(q);
    assert q[0] == '/' && q[1] == '>' && q[2..] == rest;
  }

  lemma FullTagReads(body: string, close: string, name: string, attributes: seq<Attribute>, children: seq<Node>,
                     rest: string, err: int)
    requires ReadValue(At(body + close), err) == (At(close), children, err)
    requires close == "</" + (name + (">" + rest))
    ensures ParseTag(">" + (body + close), name, attributes, err) ==
            Parsed(At(rest), Element(name, attributes, children), err)
  {
    hide ReadValue, ParseEndTag, ParseAttribute;
    var q := body + close;
    assert (">" + q)[0] == '>' && (">" + q)[1..] == q;
    assert SkipWhiteSpace(At(">" + q)) == At(">" + q);
    EndTagReads(name, rest, err);
  }

  /** An element up to the end of its attributes. */
  lemma ElementOpens(name: string, attributes: seq<Attribute>, tail: string, err: int)
    requires NameOk(name) && AttributesOk(attributes) && tail != "" && (tail[0] == ' ' || tail[0] == '>')
    ensures ParseElement(At("<" + (name + (PrintAttributes(attributes) + tail))), err) ==
            ParseTag(tail, name, attributes, err)
  {
    hide ParseTag, AttributesOk, NameOk, ParseElement;
    var x := PrintAttributes(attributes) + tail;
    assert x != "" && (x[0] == ' ' || x[0] == '>');
    NameOpens(name, x, err);
    assert [] + attributes == attributes;
    AttributesRead(attributes, name, [], tail, err);
  }

  lemma NameOpens(name: string, x: string, err: int)
    requires NameOk(name) && x != "" && (x[0] == ' ' || x[0] == '>')
    ensures ParseElement(At("<" + (name + x)), err) == ParseTag(x, name, [], err)
  {
    hide ParseTag, NameOk, ReadName;
    NameIsName(name);
    var p := "<" + (name + x);
    assert p[0] == '<' && p[1..] == name + x && (name + x)[0] == name[0];
    NameReads(name, x);
  }

  // --------------------------------------------------------------------- the round trip

  /** Parsing the printed node gives the node back and stops behind it (a CDATA text
      at the very end of the buffer returns null instead). */
  ghost predicate Reads(node: Node, core: string, rest: string, err: int) {
    && Begins(node, core + rest)
    && ParseNode(KindOf(node), At(core + rest), err) ==
       Parsed(if node.Text? && rest == "" then Null else At(rest), node, err)
  }

  lemma CommentNodeReads(style: Style, depth: nat, v: string, rest: string, err: int)
    requires NormalNode(Comment(v))
    ensures Reads(Comment(v), Core(style, depth, Comment(v)), rest, err)
  {
    CStrIsAll(v);
    CommentReads(v, rest, err);
    CommentBegins(Comment(v), v + ("-->" + rest));
    hide Begins, ParseComment, Without, NoNul;
    Assoc4("<!--", v, "-->", rest);
  }

  lemma UnknownNodeReads(style: Style, depth: nat, v: string, rest: string, err: int)
    requires NormalNode(Unknown(v))
    ensures Reads(Unknown(v), Core(style, depth, Unknown(v)), rest, err)
  {
    CStrIsAll(v);
    UnknownReads(v, rest, err);
    UnknownBegins(Unknown(v), v, rest);
    hide Begins, ParseUnknown, UnknownOk;
    Assoc4("<", v, ">", rest);
  }

  lemma CDataNodeReads(style: Style, depth: nat, v: string, rest: string, err: int)
    requires NormalNode(Text(v, true))
    ensures Reads(Text(v, true), Core(style, depth, Text(v, true)), rest, err)
  {
    CStrIsAll(v);
    CDataReads(v, rest, err);
    CDataBegins(Text(v, true), v + ("]]>" + rest));
    hide Begins, ParseCData, Without, NoNul;
    Assoc4("<![CDATA[", v, "]]>", rest);
  }

  lemma DeclarationNodeReads(style: Style, depth: nat, v: string, e: string, s: string, rest: string, err: int)
    requires NormalNode(Declaration(v, e, s))
    ensures Reads(Declaration(v, e, s), Core(style, depth, Declaration(v, e, s)), rest, err)
  {
    hide Begins, ParseDeclaration, PartOk, PrintPart;
    DeclarationReads(v, e, s, rest, err);
    var x := " " + PrintPart("version", v) + PrintPart("encoding", e) + PrintPart("standalone", s) + "?>" + rest;
    assert Core(style, depth, Declaration(v, e, s)) + rest == "<?xml" + x;
    DeclarationBegins(Declaration(v, e, s), x);
  }

  /** ... for every node in normal form but a plain text. */
  lemma {:induction false} NodeReads(style: Style, depth: nat, node: Node, rest: string, err: int)
    requires WhiteStyle(style) && NormalNode(node) && !Plain(node)
    ensures Reads(node, Core(style, depth, node), rest, err)
    decreases node, 3
  {
    hide Reads, Core, NormalNode;
    match node
    case Comment(v) => CommentNodeReads(style, depth, v, rest, err);
    case Unknown(v) => UnknownNodeReads(style, depth, v, rest, err);
    case Text(v, _) => CDataNodeReads(style, depth, v, rest, err);
    case Declaration(v, e, s) => DeclarationNodeReads(style, depth, v, e, s, rest, err);
    case Element(name, attributes, children) =>
      if children == [] {
        EmptyElementReads(style, depth, name, attributes, rest, err);
      } else {
        FullElementReads(style, depth, name, attributes, children, rest, err);
      }
  }

  lemma EmptyElementPieces(style: Style, depth: nat, name: string, attributes: seq<Attribute>, rest: string)
    requires CStr(name) == name && AttributesOk(attributes)
    ensures Core(style, depth, Element(name, attributes, [])) + rest ==
            "<" + (name + (PrintAttributes(attributes) + (" />" + rest)))
  {
    hide *;
    var open := PrintAttributes(attributes);
    CoreOfElement(style, depth, name, attributes, []);
    Regroup("<" + name + open, " />", rest);
    Assoc4("<", name, open, " />" + rest);
  }

  lemma ElementIsNormal(name: string, attributes: seq<Attribute>, children: seq<Node>)
    requires NormalNode(Element(name, attributes, children))
    ensures NameOk(name) && CStr(name) == name && AttributesOk(attributes) && NormalNodes(children)
  {
    NameIsName(name);
  }

  lemma ElementReadsIf(node: Node, core: string, rest: string, err: int)
    requires node.Element? && Begins(node, core + rest)
    requires ParseElement(At(core + rest), err) == Parsed(At(rest), node, err)
    ensures Reads(node, core, rest, err)
  {
    hide Begins, ParseElement;
  }

  lemma EmptyElementReads(style: Style, depth: nat, name: string, attributes: seq<Attribute>, rest: string, err: int)
    requires NormalNode(Element(name, attributes, []))
    ensures var node := Element(name, attributes, []); Reads(node, Core(style, depth, node), rest, err)
  {
    hide *;
    ElementIsNormal(name, attributes, []);
    var node := Element(name, attributes, []);
    EmptyElementPieces(style, depth, name, attributes, rest);
    ElementBegins(node, name, PrintAttributes(attributes) + (" />" + rest));
    ElementOpens(name, attributes, " />" + rest, err);
    EmptyTagReads(rest, name, attributes, err);
    ElementReadsIf(node, Core(style, depth, node), rest, err);
  }

  /** An element with children printed, piece by piece. */
  lemma ElementPieces(style: Style, depth: nat, name: string, attributes: seq<Attribute>, children: seq<Node>,
                      rest: string)
    requires NameOk(name) && AttributesOk(attributes) && children != []
    ensures Core(style, depth, Element(name, attributes, children)) + rest ==
            "<" + (name + (PrintAttributes(attributes)
                   + (">" + (Body(style, depth, children) + ("</" + (name + (">" + rest)))))))
  {
    NameIsName(name);
    hide *;
    var open, body := PrintAttributes(attributes), Body(style, depth, children);
    CoreOfElement(style, depth, name, attributes, children);
    Regroup("<" + name, open, ">" + body + "</" + name + ">");
    Regroup("<" + name + open, ">" + body + "</" + name + ">", rest);
    Assoc4(">" + body + "</", name, ">", rest);
    Assoc4(">", body, "</", name + (">" + rest));
    Assoc4("<", name, open, ">" + (body + ("</" + (name + (">" + rest)))));
  }

  lemma CoreOfElement(style: Style, depth: nat, name: string, attributes: seq<Attribute>, children: seq<Node>)
    requires CStr(name) == name && AttributesOk(attributes)
    ensures Core(style, depth, Element(name, attributes, children)) ==
            "<" + name + PrintAttributes(attributes)
            + if children == [] then " />" else ">" + Body(style, depth, children) + "</" + name + ">"
  {
    NamedAttributesVisited(attributes);
    hide PrintAttributes, Body, AttributesOk;
  }

  /** Attributes with names are all visited. */
  lemma NamedAttributesVisited(attributes: seq<Attribute>)
    requires AttributesOk(attributes)
    ensures XmlAttributes.Visited(attributes) == attributes
  {
    forall i | 1 <= i < |attributes|
      ensures !XmlAttributes.Nameless(attributes[i])
    {
      assert NameOk(attributes[i].name);
    }
    XmlAttributes.VisitsAll(attributes);
  }

  lemma {:induction false} FullElementReads(style: Style, depth: nat, name: string, attributes: seq<Attribute>,
                                            children: seq<Node>, rest: string, err: int)
    requires children != [] && WhiteStyle(style) && NormalNode(Element(name, attributes, children))
    ensures var node := Element(name, attributes, children); Reads(node, Core(style, depth, node), rest, err)
    decreases Element(name, attributes, children), 2
  {
    hide *;
    var node := Element(name, attributes, children);
    ElementIsNormal(name, attributes, children);
    ElementPieces(style, depth, name, attributes, children, rest);
    var open, body, close := PrintAttributes(attributes), Body(style, depth, children), "</" + (name + (">" + rest));
    var tail := ">" + (body + close);
    ElementBegins(node, name, open + tail);
    ElementOpens(name, attributes, tail, err);
    Closes(name, rest);
    BodyReads(style, depth, children, close, err);
    FullTagReads(body, close, name, attributes, children, rest, err);
    ElementReadsIf(node, Core(style, depth, node), rest, err);
  }

  lemma Closes(name: string, rest: string)
    ensures StringEqual("</" + (name + (">" + rest)), "</")
  {
  }

  /** What stands between the tags of an element is read as its children. */
  lemma {:induction false} BodyReads(style: Style, depth: nat, children: seq<Node>, close: string, err: int)
    requires WhiteStyle(style) && NormalNodes(children) && StringEqual(close, "</")
    ensures ReadValue(At(Body(style, depth, children) + close), err) == (At(close), children, err)
    decreases children, 4
  {
    hide NormalNodes, ReadChildren, PrintNodes, Indent;
    IndentIsWhite(style, depth);
    IndentIsWhite(style, depth + 1);
    if Simple(children) {
      ChildrenRead(style, depth + 1, children, "", "", "", close, [], err);
      LeadReads("", PrintNodes(style, depth + 1, children, "", ""), "", close, children, err);
      assert Body(style, depth, children) == "" + PrintNodes(style, depth + 1, children, "", "") + "";
    } else {
      var before, behind, w := Indent(style, depth + 1), style.lineBreak, Indent(style, depth);
      ChildrenRead(style, depth + 1, children, before, behind, w, close, [], err);
      LeadReads(style.lineBreak, PrintNodes(style, depth + 1, children, before, behind), w, close, children, err);
    }
  }

  lemma LeadReads(lead: string, nodes: string, w: string, close: string, children: seq<Node>, err: int)
    requires AllWhite(lead) && close != ""
    requires ReadChildren(SkipWhiteSpace(At(nodes + (w + close))), [], err) == (At(close), [] + children, err)
    ensures ReadValue(At(lead + nodes + w + close), err) == (At(close), children, err)
  {
    hide ReadChildren;
    var inner := nodes + (w + close);
    assert lead + nodes + w + close == lead + inner;
    assert [] + children == children;
    SkipWhite(lead, inner);
  }

  /** Printed siblings are read one after the other. */
  lemma {:induction false} ChildrenRead(style: Style, depth: nat, nodes: seq<Node>, before: string, behind: string,
                                        w: string, close: string, done: seq<Node>, err: int)
    requires WhiteStyle(style) && NormalNodes(nodes) && StringEqual(close, "</")
    requires AllWhite(before) && AllWhite(behind) && AllWhite(w)
    ensures var p := PrintNodes(style, depth, nodes, before, behind) + (w + close);
            ReadChildren(SkipWhiteSpace(At(p)), done, err) ==
            (At(close), done + nodes, err)
    decreases nodes, 3
  {
    hide *;
    var rest := w + close;
    CloseIs(close);
    if nodes == [] {
      PrintsNothing(style, depth, before, behind, rest);
      assert done + nodes == done;
      WhiteSkipped(w, close);
      CloseReads(close, done, err);
    } else {
      var node := nodes[0];
      var y := PrintNodes(style, depth, nodes[1..], before, behind) + rest;
      FirstNormal(nodes);
      PrintsFirst(style, depth, nodes, before, behind, rest);
      WhiteSkipped(before, Core(style, depth, node) + (behind + y));
      WhiteSkipped(behind, y);
      ChildrenRead(style, depth, nodes[1..], before, behind, w, close, done + [node], err);
      assert done + [node] + nodes[1..] == done + nodes;
      if Plain(node) {
        var u, end := AfterText(style, depth, nodes, before, behind, w, close);
        PlainCore(style, depth, node);
        TextChildReads(node.value, u, end, done, err);
        EndsInMarkup(y, end);
      } else {
        NodeReads(style, depth, node, behind + y, err);
        ReadsMeans(node, Core(style, depth, node), behind + y, err);
        NodeChildReads(node, Core(style, depth, node) + (behind + y), behind + y, done, err);
      }
    }
  }

  lemma CloseIs(close: string)
    requires StringEqual(close, "</")
    ensures close != ""
  {
  }

  lemma WhiteSkipped(w: string, p: string)
    requires AllWhite(w) && p != ""
    ensures SkipWhiteSpace(At(w + p)) == SkipWhiteSpace(At(p))
  {
    SkipWhite(w, p);
  }

  lemma EndsInMarkup(y: string, end: string)
    requires SkipWS(y) == end && end != ""
    ensures SkipWhiteSpace(At(y)) == At(end)
  {
  }

  lemma PrintsNothing(style: Style, depth: nat, before: string, behind: string, rest: string)
    ensures PrintNodes(style, depth, [], before, behind) + rest == rest
  {
  }

  lemma PrintsFirst(style: Style, depth: nat, nodes: seq<Node>, before: string, behind: string, rest: string)
    requires nodes != []
    ensures PrintNodes(style, depth, nodes, before, behind) + rest ==
            before + (Core(style, depth, nodes[0])
              + (behind + (PrintNodes(style, depth, nodes[1..], before, behind) + rest)))
  {
    hide Core;
    var core, more := Core(style, depth, nodes[0]), PrintNodes(style, depth, nodes[1..], before, behind);
    assert before + core + behind + more + rest == before + (core + (behind + (more + rest)));
  }

  lemma FirstNormal(nodes: seq<Node>)
    requires NormalNodes(nodes) && nodes != []
    ensures NormalNode(nodes[0]) && NormalNodes(nodes[1..])
  {
    hide NormalNode;
  }

  lemma ReadsMeans(node: Node, core: string, rest: string, err: int)
    requires Reads(node, core, rest, err) && rest != ""
    ensures Begins(node, core + rest) && ParseNode(KindOf(node), At(core + rest), err) == Parsed(At(rest), node, err)
  {
    hide Begins, ParseNode, KindOf;
  }

  lemma PlainCore(style: Style, depth: nat, node: Node)
    requires Plain(node) && NormalNode(node)
    ensures Core(style, depth, node) == Encode(node.value) && PlainOk(node.value)
    ensures node == Text(node.value, false)
  {
  }

  lemma CloseReads(close: string, done: seq<Node>, err: int)
    requires StringEqual(close, "</")
    ensures ReadChildren(SkipWhiteSpace(At(close)), done, err) == (At(close), done, err)
    ensures SkipWS(close) == close
  {
    assert close[0] == "</"[0] == '<';
  }

  /** A plain text among the children. */
  lemma TextChildReads(v: string, u: string, end: string, done: seq<Node>, err: int)
    requires PlainOk(v) && AllWhite(u) && |end| >= 2 && end[0] == '<'
    ensures SkipWhiteSpace(At(Encode(v) + (u + end))) == At(Encode(v) + (u + end))
    ensures ReadChildren(At(Encode(v) + (u + end)), done, err) ==
            ReadChildren(At(end), done + [Text(v, false)], err)
  {
    hide Encode, NoHex, Tidy, AllWhite, Condense, Blank, Identify;
    assert v != "" by {
      assert Blank("") by { BlankNothing(); }
    }
    var p := Encode(v) + (u + end);
    EncodedIsSafe(v);
    assert p[0] == Encode(v)[0];
    assert Markup('<') && p[0] != '<';
    assert "<" <= end;
    CondenseDecodes(v, false, u, end, "<");
    assert ParseText(At(p)) == (At(end), v);
    assert SkipWhiteSpace(At(end)) == At(end);
  }

  lemma BlankNothing()
    ensures Blank("")
  {
  }

  /** Any other node among the children. */
  lemma NodeChildReads(node: Node, p: string, rest: string, done: seq<Node>, err: int)
    requires Begins(node, p) && ParseNode(KindOf(node), At(p), err) == Parsed(At(rest), node, err)
    ensures SkipWhiteSpace(At(p)) == At(p)
    ensures ReadChildren(At(p), done, err) == ReadChildren(SkipWhiteSpace(At(rest)), done + [node], err)
  {
    hide Identify, ParseNode;
    assert !("</" <= p) by {
      assert "</"[1] == '/';
    }
  }

  lemma CoreOpens(style: Style, depth: nat, node: Node)
    requires !Plain(node)
    ensures |Core(style, depth, node)| >= 2 && Core(style, depth, node)[0] == '<'
  {
    hide PrintVisited, Body, PrintPart, CStr;
    match node
    case Element(name, attributes, children) =>
      var tail := PrintVisited(attributes)
        + if children == [] then " />" else ">" + Body(style, depth, children) + "</" + CStr(name) + ">";
      assert Core(style, depth, node) == "<" + (CStr(name) + tail);
    case Comment(_) =>
    case Unknown(_) =>
    case Text(_, _) =>
    case Declaration(_, _, _) =>
  }

  /** Behind a plain text there is white space and then markup. */
  lemma AfterText(style: Style, depth: nat, nodes: seq<Node>, before: string, behind: string, w: string, close: string)
      returns (u: string, end: string)
    requires nodes != [] && NormalNodes(nodes) && Plain(nodes[0]) && StringEqual(close, "</")
    requires AllWhite(before) && AllWhite(behind) && AllWhite(w)
    ensures AllWhite(u) && |end| >= 2 && end[0] == '<'
    ensures var y := PrintNodes(style, depth, nodes[1..], before, behind) + (w + close);
            behind + y == u + end && SkipWS(y) == end
  {
    hide Core, NormalNode, AllWhite;
    if |nodes| == 1 {
      end := close;
      assert close[0] == "</"[0];
      assert "" + (w + close) == w + close;
      u := WhiteThen(behind, w, close);
    } else {
      var more := PrintNodes(style, depth, nodes[2..], before, behind);
      assert nodes[1..][1..] == nodes[2..] && nodes[1..][0] == nodes[1];
      end := MarkupNext(style, depth, nodes[1], before, behind, more, w + close);
      u := WhiteThen(behind, before, end);
    }
  }

  lemma WhiteThen(behind: string, w: string, end: string) returns (u: string)
    requires AllWhite(behind) && AllWhite(w) && end != "" && !IsWhiteSpace(end[0])
    ensures AllWhite(u) && behind + (w + end) == u + end && SkipWS(w + end) == end
  {
    u := behind + w;
    SkipWhite(w, end);
  }

  lemma MarkupNext(style: Style, depth: nat, node: Node, before: string, behind: string, more: string, last: string)
      returns (end: string)
    requires !Plain(node)
    ensures |end| >= 2 && end[0] == '<'
    ensures before + Core(style, depth, node) + behind + more + last == before + end
  {
    CoreOpens(style, depth, node);
    hide Core;
    var core := Core(style, depth, node);
    end := core + (behind + more + last);
    Assoc4(before, core, behind, more);
    Regroup(before, core + (behind + more), last);
    Regroup(core, behind + more, last);
  }

  // -------------------------------------------------------------------- whole documents

  ghost predicate NormalDocument(nodes: seq<Node>) {
    nodes != [] && NormalNodes(nodes) && forall i | 0 <= i < |nodes| :: !Plain(nodes[i])
  }

  lemma {:induction false} NodesRead(style: Style, nodes: seq<Node>, done: seq<Node>, err: int)
    requires WhiteStyle(style) && NormalNodes(nodes) && forall i | 0 <= i < |nodes| :: !Plain(nodes[i])
    ensures var r := ReadNodes(SkipWhiteSpace(At(PrintNodes(style, 0, nodes, "", style.lineBreak))), done, err);
            r.1 == done + nodes && r.2 == err
    decreases |nodes|
  {
    hide NormalNode, Reads, Core, ReadNodes;
    if nodes == [] {
      NothingToRead(Null, done, err);
      assert done + nodes == done;
    } else {
      var node := nodes[0];
      if nodes[1..] != [] {
        PrintedSomething(style, nodes[1..]);
      }
      var core, y := Core(style, 0, node), PrintNodes(style, 0, nodes[1..], "", style.lineBreak);
      Regroup("" + core, style.lineBreak, y);
      assert "" + core == core;
      NodeReads(style, 0, node, style.lineBreak + y, err);
      NodesRead(style, nodes[1..], done + [node], err);
      assert done + [node] + nodes[1..] == done + nodes;
      if y == "" {
        assert style.lineBreak + y == style.lineBreak;
        SkipWhite(style.lineBreak, "");
        assert style.lineBreak + "" == style.lineBreak;
        LastNodeRead(node, core, style.lineBreak, done, err);
      } else {
        SkipWhite(style.lineBreak, y);
        NextNodeRead(node, core, style.lineBreak + y, y, done, err);
      }
    }
  }

  lemma PrintedSomething(style: Style, nodes: seq<Node>)
    requires nodes != [] && !Plain(nodes[0])
    ensures PrintNodes(style, 0, nodes, "", style.lineBreak) != ""
  {
    CoreOpens(style, 0, nodes[0]);
    hide Core;
  }

  lemma NothingToRead(p: Ptr, done: seq<Node>, err: int)
    requires Done(p)
    ensures ReadNodes(p, done, err) == (p, done, err)
  {
  }

  lemma LastNodeRead(node: Node, core: string, rest: string, done: seq<Node>, err: int)
    requires Reads(node, core, rest, err) && SkipWS(rest) == ""
    ensures var r := ReadNodes(SkipWhiteSpace(At(core + rest)), done, err);
            r.1 == done + [node] && r.2 == err
  {
    hide ParseNode, Identify;
    var next := ParseNode(KindOf(node), At(core + rest), err).next;
    NothingToRead(SkipWhiteSpace(next), done + [node], err);
  }

  lemma NextNodeRead(node: Node, core: string, rest: string, y: string, done: seq<Node>, err: int)
    requires Reads(node, core, rest, err) && rest != "" && y != "" && SkipWS(rest) == SkipWS(y)
    ensures ReadNodes(SkipWhiteSpace(At(core + rest)), done, err) ==
            ReadNodes(SkipWhiteSpace(At(y)), done + [node], err)
  {
    hide ParseNode, Identify;
  }

  // ------------------------------------------------------ printed text holds no NUL

  lemma NoNulSum(v: string, w: string)
    requires NoNul(v) && NoNul(w)
    ensures NoNul(v + w)
  {
  }

  lemma WhiteNoNul(w: string)
    requires AllWhite(w)
    ensures NoNul(w)
  {
  }

  lemma EncodedNoNul(v: string)
    requires NoHex(v)
    ensures NoNul(Encode(v))
  {
    EncodedIsSafe(v);
    hide Encode;
    assert forall i | 0 <= i < |Encode(v)| :: Encode(v)[i] in Encode(v);
  }

  lemma NameNoNul(name: string)
    requires NameOk(name)
    ensures NoNul(name)
  {
  }

  lemma NoNulLiterals()
    ensures NoNul("") && NoNul(" ") && NoNul("<") && NoNul(">") && NoNul("</") && NoNul(" />") && NoNul("=")
    ensures NoNul("'") && NoNul("\"") && NoNul("=\"") && NoNul("\" ") && NoNul("?>") && NoNul("<?xml ")
    ensures NoNul("version") && NoNul("encoding") && NoNul("standalone")
    ensures NoNul("<![CDATA[") && NoNul("]]>") && NoNul("<!--") && NoNul("-->")
  {
  }

  lemma NoNulSum3(a: string, b: string, c: string)
    requires NoNul(a) && NoNul(b) && NoNul(c)
    ensures NoNul(a + b + c)
  {
    NoNulSum(a, b);
    NoNulSum(a + b, c);
  }

  lemma AttributeNoNul(a: Attribute)
    requires NameOk(a.name) && NoHex(a.value)
    ensures NoNul(PrintAttribute(a))
  {
    hide NoNul, Encode, NoHex;
    NameIsName(a.name);
    NameNoNul(a.name);
    EncodedNoNul(a.value);
    NoNulLiterals();
    var quote := if HasQuote(a.value) then "'" else "\"";
    NoNulSum3(Encode(a.name), "=", quote);
    NoNulSum3(Encode(a.name) + "=" + quote, Encode(a.value), quote);
  }

  lemma {:induction false} AttributesNoNul(attributes: seq<Attribute>)
    requires AttributesOk(attributes)
    ensures NoNul(PrintAttributes(attributes))
    decreases |attributes|
  {
    NoNulLiterals();
    hide NoNul, PrintAttribute;
    if attributes != [] {
      AttributeNoNul(attributes[0]);
      AttributesNoNul(attributes[1..]);
      NoNulSum3(" ", PrintAttribute(attributes[0]), PrintAttributes(attributes[1..]));
    }
  }

  lemma PartNoNul(name: string, value: string)
    requires NoNul(name) && PartOk(value)
    ensures NoNul(PrintPart(name, value))
  {
    NoNulLiterals();
    assert NoNul(value);
    hide NoNul;
    if value != "" {
      NoNulSum3(name, "=\"", value);
      NoNulSum(name + "=\"" + value, "\" ");
    }
  }

  lemma DeclarationNoNul(v: string, e: string, s: string)
    requires PartOk(v) && PartOk(e) && PartOk(s)
    ensures NoNul(PrintDeclaration(v, e, s))
  {
    NoNulLiterals();
    hide NoNul, PartOk, PrintPart;
    PartNoNul("version", v);
    PartNoNul("encoding", e);
    PartNoNul("standalone", s);
    NoNulSum3("<?xml ", PrintPart("version", v), PrintPart("encoding", e));
    NoNulSum3("<?xml " + PrintPart("version", v) + PrintPart("encoding", e), PrintPart("standalone", s), "?>");
  }

  lemma {:induction false} ElementNoNul(style: Style, depth: nat, name: string, attributes: seq<Attribute>,
                                        children: seq<Node>)
    requires WhiteStyle(style) && NormalNode(Element(name, attributes, children))
    ensures NoNul(Core(style, depth, Element(name, attributes, children)))
    decreases Element(name, attributes, children), 0
  {
    assert NameOk(name) && AttributesOk(attributes) && NormalNodes(children);
    hide NoNul, Core, Body, PrintAttributes, NameOk, AttributesOk, NormalNode, NormalNodes;
    NoNulLiterals();
    NameIsName(name);
    NameNoNul(name);
    AttributesNoNul(attributes);
    CoreOfElement(style, depth, name, attributes, children);
    NoNulSum3("<", name, PrintAttributes(attributes));
    if children == [] {
      NoNulSum("<" + name + PrintAttributes(attributes), " />");
    } else {
      BodyNoNul(style, depth, children);
      NoNulSum3(">", Body(style, depth, children), "</");
      NoNulSum3(">" + Body(style, depth, children) + "</", name, ">");
      NoNulSum("<" + name + PrintAttributes(attributes), ">" + Body(style, depth, children) + "</" + name + ">");
    }
  }

  lemma {:induction false} CoreNoNul(style: Style, depth: nat, node: Node)
    requires WhiteStyle(style) && NormalNode(node)
    ensures NoNul(Core(style, depth, node))
    decreases node, 1
  {
    NoNulLiterals();
    hide NoNul, PartOk, PrintDeclaration, Encode, NoHex, CStr, NameOk, AttributesOk, PrintVisited, Body;
    match node
    case Text(v, cdata) =>
      if cdata {
        CStrIsAll(v);
        NoNulSum3("<![CDATA[", v, "]]>");
      } else {
        EncodedNoNul(v);
      }
    case Comment(v) =>
      CStrIsAll(v);
      NoNulSum3("<!--", v, "-->");
    case Unknown(v) =>
      CStrIsAll(v);
      NoNulSum3("<", v, ">");
    case Declaration(v, e, s) => DeclarationNoNul(v, e, s);
    case Element(name, attributes, children) => ElementNoNul(style, depth, name, attributes, children);
  }

  lemma {:induction false} BodyNoNul(style: Style, depth: nat, children: seq<Node>)
    requires WhiteStyle(style) && NormalNodes(children)
    ensures NoNul(Body(style, depth, children))
    decreases children, 2
  {
    hide NormalNodes, PrintNodes, Indent, NoNul;
    IndentIsWhite(style, depth);
    IndentIsWhite(style, depth + 1);
    WhiteNoNul(Indent(style, depth));
    WhiteNoNul(style.lineBreak);
    if Simple(children) {
      NodesNoNul(style, depth + 1, children, "", "");
    } else {
      var before := Indent(style, depth + 1);
      NodesNoNul(style, depth + 1, children, before, style.lineBreak);
      NoNulSum3(style.lineBreak, PrintNodes(style, depth + 1, children, before, style.lineBreak), Indent(style, depth));
    }
  }

  lemma {:induction false} NodesNoNul(style: Style, depth: nat, nodes: seq<Node>, before: string, behind: string)
    requires WhiteStyle(style) && NormalNodes(nodes) && AllWhite(before) && AllWhite(behind)
    ensures NoNul(PrintNodes(style, depth, nodes, before, behind))
    decreases nodes, 0
  {
    NoNulLiterals();
    hide Core, NoNul, AllWhite, NormalNode;
    if nodes != [] {
      WhiteNoNul(before);
      WhiteNoNul(behind);
      CoreNoNul(style, depth, nodes[0]);
      NodesNoNul(style, depth, nodes[1..], before, behind);
      var core := Core(style, depth, nodes[0]);
      NoNulSum3(before, core, behind);
      NoNulSum(before + core + behind, PrintNodes(style, depth, nodes[1..], before, behind));
    }
  }

  /** The round trip: printing any document in normal form, pretty or as a stream, and
      parsing the output rebuilds the document's nodes without an error. */
  lemma RoundTrip(style: Style, nodes: seq<Node>)
    requires WhiteStyle(style) && NormalDocument(nodes)
    ensures Parse(PrintDocument(style, nodes)).1 == nodes
    ensures Parse(PrintDocument(style, nodes)).2 == NO_ERROR
  {
    hide NormalNodes, PrintNodes, ReadNodes;
    NodesNoNul(style, 0, nodes, "", style.lineBreak);
    CStrIsAll(PrintDocument(style, nodes));
    NodesRead(style, nodes, [], NO_ERROR);
    assert [] + nodes == nodes;
    PrintedSomething(style, nodes);
  }
}
