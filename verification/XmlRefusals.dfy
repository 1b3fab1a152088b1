/** What the parser does with text that no printer writes: values without quotes, a second
    attribute of one name, an end tag of another element, and errors one after the other. */
module XmlRefusals {
  import opened Basics
  import opened XmlText
  import opened XmlTextProofs
  import opened XmlParser
  import opened XmlPrinter
  import opened XmlRoundTrip

  // ------------------------------------------------------------- values without quotes

  predicate EndsValue(c: char) {
    IsWhiteSpace(c) || c == '/' || c == '>'
  }

  predicate IsQuote(c: char) {
    c == '\'' || c == '\"'
  }

  /** No white space, no quote, and no character that ends a tag. */
  predicate Bare(v: string) {
    forall i | 0 <= i < |v| :: !EndsValue(v[i]) && !IsQuote(v[i])
  }

  /** A value without quotes is read up to white space or the end of the tag, without any
      decoding, and a quote in it makes it fail. */
  lemma {:induction false} UnquotedReads(v: string, rest: string)
    requires Bare(v)
    ensures rest == "" || EndsValue(rest[0]) ==> Unquoted(v + rest) == (rest, v, true)
    ensures rest != "" && IsQuote(rest[0]) ==> Unquoted(v + rest) == (rest, v, false)
    decreases |v|
  {
    if v == "" {
      assert v + rest == rest;
      assert rest != "" && IsQuote(rest[0]) ==> !EndsValue(rest[0]);
    } else {
      assert (v + rest)[1..] == v[1..] + rest && (v + rest)[0] == v[0];
      UnquotedReads(v[1..], rest);
      assert v == [v[0]] + v[1..];
    }
  }

  /** An attribute without quotes around its value. */
  lemma UnquotedAttribute(name: string, v: string, rest: string, err: int)
    requires NameOk(name) && Bare(v) && v != "" && rest != ""
    ensures EndsValue(rest[0]) ==>
              ParseAttribute(At(name + ("=" + (v + rest))), true, err) == (At(rest), Attribute(name, v), err)
    ensures IsQuote(rest[0]) ==>
              ParseAttribute(At(name + ("=" + (v + rest))), true, err) ==
              (Null, Attribute(name, v), SetError(err, ERROR_READING_ATTRIBUTES))
  {
    hide *;
    UnquotedReads(v, rest);
    ValueBegins(v, rest);
    ValueFollows(name, v + rest, err);
  }

  lemma ValueBegins(v: string, rest: string)
    requires Bare(v) && v != ""
    ensures v + rest != "" && !IsWhiteSpace((v + rest)[0]) && (v + rest)[0] != '\'' && (v + rest)[0] != '\"'
  {
    assert !EndsValue(v[0]) && !IsQuote(v[0]);
  }

  lemma ValueFollows(name: string, q: string, err: int)
    requires NameOk(name) && q != "" && !IsWhiteSpace(q[0]) && q[0] != '\'' && q[0] != '\"'
    ensures ParseAttribute(At(name + ("=" + q)), true, err) ==
            var (rest, value, ok) := Unquoted(q);
            if ok then (At(rest), Attribute(name, value), err)
            else (Null, Attribute(name, value), SetError(err, ERROR_READING_ATTRIBUTES))
  {
    hide *;
    var p := name + ("=" + q);
    NameIsName(name);
    EqualsIsNoName(q);
    NameReads(name, "=" + q);
    EqualsPassed(q);
    assert p[0] == name[0];
    StaysThere(p);
    AttributeIs(p, "=" + q, q, name, err);
    ValueIs(q, name, err, SetError(err, ERROR_READING_ATTRIBUTES));
  }

  lemma EqualsIsNoName(q: string)
    ensures "=" + q != "" && !NameChar(("=" + q)[0])
  {
  }

  lemma StaysThere(p: string)
    requires p != "" && !IsWhiteSpace(p[0])
    ensures SkipWhiteSpace(At(p)) == At(p)
  {
  }

  lemma EqualsPassed(q: string)
    requires q != "" && !IsWhiteSpace(q[0])
    ensures PastEquals(At("=" + q)) == At(q)
  {
    assert ("=" + q)[0] == '=' && ("=" + q)[1..] == q;
  }

  lemma AttributeIs(p: string, p1: string, p2: string, name: string, err: int)
    requires p != "" && p1 != "" && p2 != "" && SkipWhiteSpace(At(p)) == At(p)
    requires ReadName(At(p)) == (At(p1), name) && PastEquals(At(p1)) == At(p2)
    ensures ParseAttribute(At(p), true, err) ==
            ParseAttributeValue(p2, name, err, SetError(err, ERROR_READING_ATTRIBUTES))
  {
    hide SkipWhiteSpace, ReadName, PastEquals, ParseAttributeValue;
  }

  lemma ValueIs(q: string, name: string, err: int, failed: int)
    requires q != "" && q[0] != '\'' && q[0] != '\"'
    ensures ParseAttributeValue(q, name, err, failed) ==
            var (rest, value, ok) := Unquoted(q);
            if ok then (At(rest), Attribute(name, value), err) else (Null, Attribute(name, value), failed)
  {
    hide Unquoted;
  }

  /** A name that no equals sign follows is refused. */
  lemma NoEquals(name: string, w: string, rest: string, err: int)
    requires NameOk(name) && AllWhite(w) && rest != "" && !NameChar(rest[0]) && !IsWhiteSpace(rest[0]) && rest[0] != '='
    ensures ParseAttribute(At(name + (w + rest)), true, err) ==
            (Null, Attribute(name, ""), SetError(err, ERROR_READING_ATTRIBUTES))
  {
    NameIsName(name);
    WhiteIsNoName(w, rest);
    NameReads(name, w + rest);
    SkipWhite(w, rest);
    hide ReadName, NameOk, AllWhite;
    assert (name + (w + rest))[0] == name[0];
  }

  lemma WhiteIsNoName(w: string, rest: string)
    requires AllWhite(w) && rest != "" && !NameChar(rest[0])
    ensures w + rest != "" && !NameChar((w + rest)[0])
  {
    if w != "" {
      assert IsWhiteSpace(w[0]);
    } else {
      assert w + rest == rest;
    }
  }

  // ------------------------------------------------------------------- tags of an element

  /** A second attribute of one name is refused: the element keeps what it had before. */
  lemma DuplicateRefused(name: string, attributes: seq<Attribute>, again: Attribute, rest: string, err: int)
    requires NameOk(name) && AttributesOk(attributes) && NameOk(again.name) && NoHex(again.value) && rest != ""
    requires exists i | 0 <= i < |attributes| :: attributes[i].name == again.name
    ensures var more := " " + PrintAttribute(again) + rest;
            ParseElement(At("<" + (name + (PrintAttributes(attributes) + more))), err) ==
            Parsed(Null, Element(name, attributes, []), SetError(err, ERROR_PARSING_ELEMENT))
  {
    hide *;
    HasIt(attributes, again.name);
    var tail := " " + PrintAttribute(again) + rest;
    TailStarts(PrintAttribute(again), rest);
    ElementOpens(name, attributes, tail, err);
    AttributeReads(again, rest, err);
    AttributeOpens(again, rest);
    Regroup(" ", PrintAttribute(again), rest);
    TagRefuses(PrintAttribute(again) + rest, again, rest, name, attributes, err);
  }

  lemma HasIt(attributes: seq<Attribute>, name: string)
    requires exists i | 0 <= i < |attributes| :: attributes[i].name == name
    ensures HasAttribute(attributes, name)
  {
  }

  lemma TailStarts(a: string, rest: string)
    ensures " " + a + rest != "" && (" " + a + rest)[0] == ' '
  {
  }

  lemma TagRefuses(q: string, a: Attribute, rest: string, name: string, done: seq<Attribute>, err: int)
    requires q != "" && !IsWhiteSpace(q[0]) && q[0] != '/' && q[0] != '>'
    requires ParseAttribute(At(q), true, err) == (At(rest), a, err) && rest != "" && HasAttribute(done, a.name)
    ensures ParseTag(" " + q, name, done, err) ==
            Parsed(Null, Element(name, done, []), SetError(err, ERROR_PARSING_ELEMENT))
  {
    hide ParseAttribute, HasAttribute;
    SkipWhite(" ", q);
    assert (" " + q)[0] == ' ';
  }

  /** An end tag is taken exactly if it has the name of the element; white space may stand
      before its bracket. */
  lemma EndTag(name: string, other: string, w: string, rest: string, err: int)
    requires NameOk(name) && NameOk(other) && AllWhite(w)
    ensures ParseEndTag(At("</" + (other + (w + (">" + rest)))), name, err) ==
            if other == name then (At(rest), err) else (Null, SetError(err, ERROR_READING_END_TAG))
  {
    var x := w + (">" + rest);
    var q := other + x;
    var p := "</" + q;
    BehindName(w, rest);
    NamePrefix(name, other, x);
    TagPrefix(name, q);
    if name <= other {
      assert p[2 + |name|..] == q[|name|..];
      if other == name {
        assert q[|name|..] == x;
        SkipWhite(w, ">" + rest);
        assert (">" + rest)[0] == '>' && (">" + rest)[1..] == rest;
      } else {
        assert q[|name|..][0] == other[|name|];
        NameCharIsInside(other[|name|]);
      }
    }
    hide AllWhite, NameOk;
  }

  /** Behind a name stands white space or the bracket. */
  lemma BehindName(w: string, rest: string)
    requires AllWhite(w)
    ensures var x := w + (">" + rest); x != "" && !NameChar(x[0])
  {
    if w != "" {
      assert IsWhiteSpace(w[0]);
    } else {
      assert w + (">" + rest) == ">" + rest;
    }
  }

  lemma NameCharIsInside(c: char)
    requires NameChar(c)
    ensures !IsWhiteSpace(c) && c != '>'
  {
  }

  lemma NamePrefix(name: string, other: string, x: string)
    requires (forall i | 0 <= i < |name| :: NameChar(name[i])) && x != "" && !NameChar(x[0])
    ensures name <= other + x <==> name <= other
  {
    hide NameChar;
    var s := other + x;
    assert s[|other|] == x[0];
    if name <= s {
      forall i | 0 <= i < |name|
        ensures name[i] == s[i] && i != |other|
      {
      }
      assert |name| <= |other|;
      assert other == s[..|other|];
    }
    if name <= other {
      assert s == name + (other[|name|..] + x);
    }
  }

  lemma TagPrefix(name: string, q: string)
    ensures "</" + name <= "</" + q <==> name <= q
  {
    var p := "</" + q;
    assert p[2..] == q && |"</" + name| == 2 + |name|;
    if "</" + name <= p {
      assert p[..2 + |name|][2..] == name;
    }
    if name <= q {
      assert p == "</" + name + q[|name|..];
    }
  }

  /** An element whose end tag has another name is refused; it keeps its attributes and its
      children. */
  lemma WrongEndTagRefused(style: Style, depth: nat, name: string, attributes: seq<Attribute>, children: seq<Node>,
                           other: string, w: string, rest: string, err: int)
    requires WhiteStyle(style) && NormalNode(Element(name, attributes, children)) && children != []
    requires NameOk(other) && other != name && AllWhite(w)
    ensures var close := "</" + (other + (w + (">" + rest)));
            ParseElement(At("<" + (name + (PrintAttributes(attributes)
                                           + (">" + (Body(style, depth, children) + close))))), err) ==
            Parsed(Null, Element(name, attributes, children), SetError(err, ERROR_READING_END_TAG))
  {
    hide *;
    ElementIsNormal(name, attributes, children);
    var close := "</" + (other + (w + (">" + rest)));
    var body := Body(style, depth, children);
    var tail := ">" + (body + close);
    ElementOpens(name, attributes, tail, err);
    CloseBegins(other + (w + (">" + rest)));
    BodyReads(style, depth, children, close, err);
    EndTag(name, other, w, rest, err);
    OpenTagReads(body + close, close, name, attributes, children, err);
  }

  lemma CloseBegins(x: string)
    ensures StringEqual("</" + x, "</")
  {
  }

  lemma OpenTagReads(inner: string, close: string, name: string, attributes: seq<Attribute>, children: seq<Node>,
                     err: int)
    requires ReadValue(At(inner), err) == (At(close), children, err)
    ensures ParseTag(">" + inner, name, attributes, err) ==
            var (next, e) := ParseEndTag(At(close), name, err); Parsed(next, Element(name, attributes, children), e)
  {
    hide ReadValue, ParseEndTag;
    var p := ">" + inner;
    assert p[0] == '>' && p[1..] == inner;
    assert SkipWhiteSpace(At(p)) == At(p);
  }

  // ------------------------------------------------------------- text that ends too early

  lemma {:induction false} CopiesAll(v: string, tag: string)
    requires tag != "" && Without(v, tag)
    ensures CopyTo(v, tag) == ("", v)
    decreases |v|
  {
    if v != "" {
      assert v[0..] == v;
      assert forall i | 0 <= i <= |v[1..]| :: v[1..][i..] == v[i + 1..];
      CopiesAll(v[1..], tag);
      assert v == [v[0]] + v[1..];
    }
  }

  /** A comment or an unknown tag that is never closed is all the rest of the text, without an
      error; so is a CDATA section, but reading stops there for good. */
  lemma NeverEnded(v: string, err: int)
    ensures Without(v, "-->") ==> ParseComment(At("<!--" + v), err) == Parsed(At(""), Comment(v), err)
    ensures Without(v, ">") ==> ParseUnknown(At("<" + v), err) == Parsed(At(""), Unknown(v), err)
    ensures Without(v, "]]>") ==> ParseCData(At("<![CDATA[" + v), err) == Parsed(Null, Text(v, true), err)
  {
    hide Without, CopyTo;
    if Without(v, "-->") {
      CopiesAll(v, "-->");
      var p := "<!--" + v;
      assert p[0] == '<' && p[4..] == v && "<!--" <= p;
    }
    if Without(v, ">") {
      CopiesAll(v, ">");
      var p := "<" + v;
      assert p[0] == '<' && p[1..] == v;
    }
    if Without(v, "]]>") {
      CopiesAll(v, "]]>");
      var p := "<![CDATA[" + v;
      assert p[9..] == v && "<![CDATA[" <= p;
    }
  }

  /** A start tag whose slash is not followed by its bracket is refused. */
  lemma SlashRefused(name: string, attributes: seq<Attribute>, rest: string, err: int)
    requires NameOk(name) && AttributesOk(attributes) && (rest != "" ==> rest[0] != '>')
    ensures ParseElement(At("<" + (name + (PrintAttributes(attributes) + (" /" + rest)))), err) ==
            Parsed(Null, Element(name, attributes, []), SetError(err, ERROR_PARSING_EMPTY))
  {
    hide *;
    var tail := " /" + rest;
    assert tail[0] == ' ';
    ElementOpens(name, attributes, tail, err);
    SlashInTag(name, attributes, rest, err);
  }

  lemma SlashInTag(name: string, attributes: seq<Attribute>, rest: string, err: int)
    requires rest != "" ==> rest[0] != '>'
    ensures ParseTag(" /" + rest, name, attributes, err) ==
            Parsed(Null, Element(name, attributes, []), SetError(err, ERROR_PARSING_EMPTY))
  {
    var q := "/" + rest;
    assert " /" + rest == " " + q;
    SkipWhite(" ", q);
    assert q[0] == '/' && |q| == 1 + |rest| && (rest != "" ==> q[1] == rest[0]);
    hide ReadValue, ParseEndTag, ParseAttribute, HasAttribute, SkipWS;
  }

  /** So is one that ends within its attributes. */
  lemma OpenTagRefused(name: string, attributes: seq<Attribute>, w: string, err: int)
    requires NameOk(name) && AttributesOk(attributes) && AllWhite(w)
    ensures ParseElement(At("<" + (name + (PrintAttributes(attributes) + (" " + w)))), err) ==
            Parsed(Null, Element(name, attributes, []), SetError(err, ERROR_READING_ATTRIBUTES))
  {
    hide *;
    var tail := " " + w;
    assert tail[0] == ' ';
    ElementOpens(name, attributes, tail, err);
    BlankTag(name, attributes, w, err);
  }

  lemma BlankTag(name: string, attributes: seq<Attribute>, w: string, err: int)
    requires AllWhite(w)
    ensures ParseTag(" " + w, name, attributes, err) ==
            Parsed(Null, Element(name, attributes, []), SetError(err, ERROR_READING_ATTRIBUTES))
  {
    AllBlank(" " + w);
    hide SkipWhiteSpace, ReadValue, ParseEndTag, ParseAttribute, HasAttribute;
  }

  lemma AllBlank(w: string)
    requires AllWhite(w) && w != ""
    ensures SkipWhiteSpace(At(w)) == At("")
  {
    SkipWhite(w, "");
    assert w + "" == w;
  }

  /** An element without content that is never closed is refused, with an error that depends
      on whether the text goes on at all. */
  lemma NeverClosed(name: string, attributes: seq<Attribute>, w: string, err: int)
    requires NameOk(name) && AttributesOk(attributes) && AllWhite(w)
    ensures ParseElement(At("<" + (name + (PrintAttributes(attributes) + (">" + w)))), err) ==
            Parsed(Null, Element(name, attributes, []),
                   SetError(err, if w == "" then ERROR_READING_ELEMENT_VALUE else ERROR_READING_END_TAG))
  {
    hide *;
    var tail := ">" + w;
    assert tail[0] == '>' && tail[1..] == w;
    ElementOpens(name, attributes, tail, err);
    NothingInside(w, err);
    TagGoesInside(w, name, attributes, err);
    NoEndTag(name, err);
  }

  lemma NoEndTag(name: string, err: int)
    ensures var e := SetError(err, ERROR_READING_ELEMENT_VALUE); ParseEndTag(Null, name, e) == (Null, e)
    ensures ParseEndTag(At(""), name, err) == (Null, SetError(err, ERROR_READING_END_TAG))
  {
  }

  /** Reading the value of an element that ends with the text. */
  lemma NothingInside(w: string, err: int)
    requires AllWhite(w)
    ensures w == "" ==> ReadValue(At(w), err) == (Null, [], SetError(err, ERROR_READING_ELEMENT_VALUE))
    ensures w != "" ==> ReadValue(At(w), err) == (At(""), [], err)
  {
    if w != "" {
      AllBlank(w);
    }
    hide ParseText, ParseNode, Identify, StringEqual, SkipWS;
  }

  lemma TagGoesInside(w: string, name: string, attributes: seq<Attribute>, err: int)
    ensures ParseTag(">" + w, name, attributes, err) ==
            var (p, children, e) := ReadValue(At(w), err);
            var (next, e') := ParseEndTag(p, name, e);
            Parsed(next, Element(name, attributes, children), e')
  {
    hide ReadValue, ParseEndTag, ParseAttribute, HasAttribute;
    assert (">" + w)[0] == '>' && (">" + w)[1..] == w;
  }

  /** A document in which no tag begins behind the white space is empty. */
  lemma NoMarkup(w: string, x: string)
    requires AllWhite(w) && (x != "" ==> x[0] != '<' && !IsWhiteSpace(x[0]))
    ensures ParseDocument(w + x) == (Null, [], ERROR_DOCUMENT_EMPTY)
  {
    if w + x != "" {
      SkipWhite(w, x);
    }
  }

  /** The parts of a declaration hold no NUL, whatever references their values were. */
  lemma {:induction false} DeclarationIsCut(p: Ptr, version: string, encoding: string, standalone: string, err: int)
    requires NoNul(version) && NoNul(encoding) && NoNul(standalone)
    ensures var node := DeclarationTail(p, version, encoding, standalone, err).node;
            node.Declaration? && NoNul(node.version) && NoNul(node.encoding) && NoNul(node.standalone)
    decreases if p.At? then |p.rest| + 1 else 0
  {
    hide ParseAttribute, CStr, NoNul, StringEqualNoCase, SkipWord, SkipWhiteSpace;
    if !Done(p) && p.rest[0] != '>' {
      var q := SkipWhiteSpace(p);
      var (next, a, e) := ParseAttribute(q, false, err);
      CStrCut(a.value);
      if q.At? && StringEqualNoCase(q.rest, "version") {
        DeclarationIsCut(next, CStr(a.value), encoding, standalone, e);
      } else if q.At? && StringEqualNoCase(q.rest, "encoding") {
        DeclarationIsCut(next, version, CStr(a.value), standalone, e);
      } else if q.At? && StringEqualNoCase(q.rest, "standalone") {
        DeclarationIsCut(next, version, encoding, CStr(a.value), e);
      } else {
        DeclarationIsCut(if q.At? then At(SkipWord(q.rest)) else Null, version, encoding, standalone, err);
      }
    }
  }

  // ---------------------------------------------------------------------- the first error

  lemma AttributeKeepsError(p: Ptr, inDocument: bool, err: int)
    requires err != NO_ERROR
    ensures ParseAttribute(p, inDocument, err).2 == err
  {
    hide SkipWhiteSpace, ReadName, PastEquals, ReadText, Unquoted;
  }

  lemma {:induction false} DeclarationKeepsError(p: Ptr, version: string, encoding: string, standalone: string,
                                                 err: int)
    requires err != NO_ERROR
    ensures DeclarationTail(p, version, encoding, standalone, err).err == err
    decreases if p.At? then |p.rest| + 1 else 0
  {
    hide ParseAttribute, CStr, StringEqualNoCase, SkipWord, SkipWhiteSpace, SetError;
    if !Done(p) && p.rest[0] != '>' {
      var q := SkipWhiteSpace(p);
      AttributeKeepsError(q, false, err);
      var (next, a, e) := ParseAttribute(q, false, err);
      if q.At? && StringEqualNoCase(q.rest, "version") {
        DeclarationKeepsError(next, CStr(a.value), encoding, standalone, e);
      } else if q.At? && StringEqualNoCase(q.rest, "encoding") {
        DeclarationKeepsError(next, version, CStr(a.value), standalone, e);
      } else if q.At? && StringEqualNoCase(q.rest, "standalone") {
        DeclarationKeepsError(next, version, encoding, CStr(a.value), e);
      } else {
        DeclarationKeepsError(if q.At? then At(SkipWord(q.rest)) else Null, version, encoding, standalone, err);
      }
    }
  }

  lemma LeafKeepsError(kind: Kind, p: Ptr, err: int)
    requires err != NO_ERROR && kind != NoNode && kind != ElementNode
    ensures ParseNode(kind, p, err).err == err
  {
    var q := SkipWhiteSpace(p);
    if q.At? && |q.rest| >= 5 {
      DeclarationKeepsError(At(q.rest[5..]), "", "", "", err);
    }
    hide SkipWhiteSpace, StringEqual, CopyTo, ReadText, DeclarationTail, ParseElement;
    assert q.At? && StringEqualNoCase(q.rest, "<?xml") ==> |q.rest| >= 5;
    hide StringEqualNoCase;
  }

  lemma {:induction false} NodeKeepsError(kind: Kind, p: Ptr, err: int)
    requires err != NO_ERROR && kind != NoNode
    ensures ParseNode(kind, p, err).err == err
    decreases if p.At? then |p.rest| + 1 else 0, 3
  {
    hide *;
    if kind == ElementNode {
      NodeIsElement(p, err);
      ElementKeepsError(p, err);
    } else {
      LeafKeepsError(kind, p, err);
    }
  }

  lemma NodeIsElement(p: Ptr, err: int)
    ensures ParseNode(ElementNode, p, err) == ParseElement(p, err)
  {
  }

  lemma {:induction false} ElementKeepsError(p0: Ptr, err: int)
    requires err != NO_ERROR
    ensures ParseElement(p0, err).err == err
    decreases if p0.At? then |p0.rest| + 1 else 0, 2
  {
    hide SkipWhiteSpace, ReadName, ParseTag;
    var p := SkipWhiteSpace(p0);
    if !Done(p) && p.rest[0] == '<' {
      var (p1, name) := ReadName(SkipWhiteSpace(At(p.rest[1..])));
      if !Done(p1) {
        TagKeepsError(p1.rest, name, [], err);
      }
    }
  }

  lemma {:induction false} TagKeepsError(p0: string, name: string, attributes: seq<Attribute>, err: int)
    requires err != NO_ERROR && p0 != ""
    ensures ParseTag(p0, name, attributes, err).err == err
    decreases |p0| + 1, 1
  {
    hide SkipWhiteSpace, ReadValue, ParseAttribute, HasAttribute, ParseEndTag;
    var p := SkipWhiteSpace(At(p0));
    if !Done(p) && p.rest[0] == '>' {
      ValueKeepsError(At(p.rest[1..]), err);
      var (p1, children, e) := ReadValue(At(p.rest[1..]), err);
      EndTagKeepsError(p1, name, err);
    } else if !Done(p) && p.rest[0] != '/' {
      AttributeKeepsError(p, true, err);
      var (p1, attribute, e) := ParseAttribute(p, true, err);
      if !Done(p1) && !HasAttribute(attributes, attribute.name) {
        TagKeepsError(p1.rest, name, attributes + [attribute], e);
      }
    }
  }

  lemma EndTagKeepsError(p: Ptr, name: string, err: int)
    requires err != NO_ERROR
    ensures ParseEndTag(p, name, err).1 == err
  {
    hide SkipWhiteSpace, StringEqual;
  }

  lemma {:induction false} ValueKeepsError(p: Ptr, err: int)
    requires err != NO_ERROR
    ensures ReadValue(p, err).2 == err
    decreases if p.At? then |p.rest| + 1 else 0, 5
  {
    ChildrenKeepError(SkipWhiteSpace(p), [], err);
    hide SkipWhiteSpace, ReadChildren;
  }

  lemma {:induction false} ChildrenKeepError(p: Ptr, children: seq<Node>, err: int)
    requires err != NO_ERROR && (p.At? && p.rest != "" ==> !IsWhiteSpace(p.rest[0]))
    ensures ReadChildren(p, children, err).2 == err
    decreases if p.At? then |p.rest| + 1 else 0, 4
  {
    hide SkipWhiteSpace, ParseText, Blank, StringEqual, Identify, ParseNode;
    if p.At? && p.rest != "" {
      if p.rest[0] != '<' {
        var (next, value) := ParseText(p);
        var more := if Blank(value) then children else children + [Text(value, false)];
        ChildrenKeepError(SkipWhiteSpace(next), more, err);
      } else if !StringEqual(p.rest, "</") && Identify(p) != NoNode {
        NodeKeepsError(Identify(p), p, err);
        var r := ParseNode(Identify(p), p, err);
        ChildrenKeepError(SkipWhiteSpace(r.next), children + [r.node], err);
      }
    }
  }

  /** A document keeps its first error, whatever is read afterwards. */
  lemma {:induction false} FirstErrorStays(p: Ptr, nodes: seq<Node>, err: int)
    requires err != NO_ERROR
    ensures ReadNodes(p, nodes, err).2 == err
    decreases if p.At? then |p.rest| + 1 else 0
  {
    hide SkipWhiteSpace, Identify, ParseNode;
    if !Done(p) && Identify(p) != NoNode {
      NodeKeepsError(Identify(p), p, err);
      var r := ParseNode(Identify(p), p, err);
      FirstErrorStays(SkipWhiteSpace(r.next), nodes + [r.node], err);
    }
  }
}
