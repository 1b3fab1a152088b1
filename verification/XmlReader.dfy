/** The parser as it runs: an index moves through the buffer, loops collect text, values
    and nodes. Each method is proved to do what the function of the same name says, and
    to leave the index later in the buffer, or null. */
module XmlReader {
  import opened Basics
  import opened XmlText
  import opened XmlParser

  const NULL := -1

  predicate Inside(s: string, p: int) {
    NULL <= p <= |s|
  }

  function View(s: string, p: int): Ptr
    requires Inside(s, p)
  {
    if p < 0 then Null else At(s[p..])
  }

  method SkipWhiteSpaceAt(s: string, p: int) returns (q: int)
    requires Inside(s, p)
    ensures Inside(s, q) && View(s, q) == SkipWhiteSpace(View(s, p))
    ensures q == NULL || p <= q
    ensures 0 <= q < |s| ==> !IsWhiteSpace(s[q])
  {
    if p == NULL || p == |s| {
      return NULL;
    }
    q := p;
    while q < |s| && IsWhiteSpace(s[q])
      invariant p <= q <= |s| && SkipWS(s[q..]) == SkipWS(s[p..])
    {
      Drop(s, q, 1);
      q := q + 1;
    }
  }

  method StringEqualAt(s: string, p: int, tag: string) returns (b: bool)
    requires Inside(s, p)
    ensures b <==> p != NULL && StringEqual(s[p..], tag)
  {
    if p == NULL || p == |s| {
      return false;
    }
    var q, t := p, 0;
    while q < |s| && t < |tag| && s[q] == tag[t]
      invariant p <= q <= |s| && 0 <= t <= |tag| && q - p == t
      invariant s[p..q] == tag[..t]
    {
      q, t := q + 1, t + 1;
    }
    if t == |tag| {
      assert s[p..][..t] == s[p..q] == tag;
      return true;
    }
    assert q < |s| ==> s[p..][t] == s[q];
    return false;
  }

  method StringEqualNoCaseAt(s: string, p: int, tag: string) returns (b: bool)
    requires Inside(s, p)
    ensures b <==> p != NULL && StringEqualNoCase(s[p..], tag)
  {
    if p == NULL || p == |s| {
      return false;
    }
    var q, t := p, 0;
    while q < |s| && t < |tag| && ToLower(s[q]) == ToLower(tag[t])
      invariant p <= q <= |s| && 0 <= t <= |tag| && q - p == t
      invariant forall i | 0 <= i < t :: ToLower(s[p..][i]) == ToLower(tag[i])
    {
      q, t := q + 1, t + 1;
    }
    if t == |tag| {
      return true;
    }
    assert q < |s| ==> ToLower(s[p..][t]) != ToLower(tag[t]);
    return false;
  }

  method ReadNameAt(s: string, p: int) returns (q: int, name: string)
    requires Inside(s, p)
    ensures Inside(s, q) && (View(s, q), name) == ReadName(View(s, p))
    ensures q == NULL || p < q
  {
    name := "";
    if p != NULL && p < |s| && NameStart(s[p]) {
      q := p;
      while q < |s| && NameChar(s[q])
        invariant p <= q <= |s| && q - p + NameLength(s[q..]) == NameLength(s[p..])
      {
        Drop(s, q, 1);
        q := q + 1;
      }
      var n := NameLength(s[p..]);
      assert n == q - p;
      Drop(s, p, n);
      name := s[p..q];
      assert s[p..][..n] == name;
      return;
    }
    q := NULL;
  }

  // ----------------------------------------------------------------------- entities

  method StrChr(s: string, p: nat, c: char) returns (q: nat)
    requires p <= |s|
    ensures p <= q <= |s| && q - p == IndexOf(s[p..], c, 0)
  {
    q := p;
    while q < |s| && s[q] != c
      invariant p <= q <= |s| && IndexOf(s[p..], c, 0) == IndexOf(s[p..], c, q - p)
    {
      q := q + 1;
    }
  }

  /** The backward loop over the digits of a reference; `q` starts on the last one. */
  method DigitsBack(s: string, p: nat, last: nat, stop: char, base: int) returns (ucs: int)
    requires p <= last < |s| && exists i | 0 <= i <= last - p :: s[p..][i] == stop
    ensures ucs == Backwards(s[p..], last - p, stop, base, 1, 0)
  {
    ucs := 0;
    var q, mult := last, 1;
    while s[q] != stop
      invariant p <= q <= last && exists i | 0 <= i <= q - p :: s[p..][i] == stop
      invariant Backwards(s[p..], last - p, stop, base, 1, 0) == Backwards(s[p..], q - p, stop, base, mult, ucs)
      decreases q
    {
      if Digit(s[q], base) < 0 {
        return -1;
      }
      var i :| 0 <= i <= q - p && s[p..][i] == stop;
      ucs := (ucs + mult * Digit(s[q], base)) % UINT;
      mult := (mult * base) % UINT;
      q := q - 1;
    }
  }

  method NumberedAt(s: string, p: nat, from: nat, stop: char, base: int) returns (q: int, text: string)
    requires 0 < from && p + from <= |s| && exists i | 0 <= i < from :: s[p..][i] == stop
    ensures Inside(s, q)
    ensures (View(s, q), text) == Numbered(s[p..], IndexOf(s[p..], ';', from), stop, base)
  {
    Drop(s, p, from);
    var semi := StrChr(s, p + from, ';');
    IndexFrom(s[p..], ';', from, 0);
    assert semi - p == IndexOf(s[p..], ';', from);
    if semi == |s| {
      return NULL, "";
    }
    var i :| 0 <= i < from && s[p..][i] == stop;
    var ucs := DigitsBack(s, p, semi - 1, stop, base);
    if ucs < 0 {
      return NULL, "";
    }
    Drop(s, p, semi + 1 - p);
    return semi + 1, [(ucs % 256) as char];
  }

  lemma {:induction false} IndexFrom(p: string, c: char, from: nat, i: nat)
    requires from + i <= |p|
    ensures from + IndexOf(p[from..], c, i) == IndexOf(p, c, from + i)
    decreases |p| - from - i
  {
    if from + i < |p| && p[from + i] != c {
      IndexFrom(p, c, from, i + 1);
    }
  }

  method GetEntityAt(s: string, p: nat) returns (q: int, text: string)
    requires p < |s| && s[p] == '&'
    ensures Inside(s, q) && (View(s, q), text) == GetEntity(s[p..])
    ensures q == NULL || p < q
  {
    hide Numbered, Backwards, IndexOf;
    if p + 2 < |s| && s[p + 1] == '#' {
      if s[p + 2] == 'x' {
        if p + 3 == |s| {
          return NULL, "";
        }
        assert s[p..][2] == 'x';
        q, text := NumberedAt(s, p, 3, 'x', 16);
      } else {
        assert s[p..][1] == '#';
        q, text := NumberedAt(s, p, 2, '#', 10);
      }
      return;
    }
    var i := 0;
    while i < 5
      invariant 0 <= i <= 5 && Named(s[p..], 0) == Named(s[p..], i)
    {
      var found := StringEqualAt(s, p, ENTITIES[i].0);
      if found {
        Drop(s, p, |ENTITIES[i].0|);
        return p + |ENTITIES[i].0|, [ENTITIES[i].1];
      }
      i := i + 1;
    }
    Drop(s, p, 1);
    return p + 1, "";
  }

  method GetCharAt(s: string, p: nat) returns (q: int, text: string)
    requires p < |s|
    ensures Inside(s, q) && (View(s, q), text) == GetChar(s[p..])
    ensures q == NULL || p < q
  {
    hide GetEntity;
    if s[p] == '&' {
      q, text := GetEntityAt(s, p);
    } else {
      Drop(s, p, 1);
      return p + 1, [s[p]];
    }
  }

  // -------------------------------------------------------------------- reading text

  /** The loop of `ReadText` that keeps all white space. */
  method KeepAt(s: string, p0: int, endTag: string) returns (p: int, text: string)
    requires Inside(s, p0)
    ensures Inside(s, p) && (View(s, p), text) == Keep(View(s, p0), endTag)
    ensures p == NULL || p0 <= p
  {
    hide GetChar, StringEqual;
    ghost var whole := Keep(View(s, p0), endTag);
    p, text := p0, "";
    assert "" + whole.1 == whole.1;
    var stop := StopsAt(s, p, endTag);
    while !stop
      invariant Inside(s, p) && (p == NULL || p0 <= p) && stop == Stops(View(s, p), endTag)
      invariant !stop ==> 0 <= p < |s|
      invariant var r := Keep(View(s, p), endTag); whole == (r.0, text + r.1)
      decreases if p == NULL then 0 else |s| + 1 - p
    {
      var next, c := GetCharAt(s, p);
      Regroup(text, c, Keep(View(s, next), endTag).1);
      p, text := next, text + c;
      stop := StopsAt(s, p, endTag);
    }
    assert text + "" == text;
  }

  /** The loop of `ReadText` that condenses white space. */
  method CondenseAt(s: string, p0: int, endTag: string) returns (p: int, text: string)
    requires Inside(s, p0)
    ensures Inside(s, p) && (View(s, p), text) == Condense(View(s, p0), false, endTag)
    ensures p == NULL || p0 <= p
  {
    hide GetChar, StringEqual;
    ghost var whole := Condense(View(s, p0), false, endTag);
    p, text := p0, "";
    assert "" + whole.1 == whole.1;
    var whitespace := false;
    var stop := StopsAt(s, p, endTag);
    while !stop
      invariant Inside(s, p) && (p == NULL || p0 <= p) && stop == Stops(View(s, p), endTag)
      invariant !stop ==> 0 <= p < |s|
      invariant var r := Condense(View(s, p), whitespace, endTag); whole == (r.0, text + r.1)
      decreases if p == NULL then 0 else |s| + 1 - p
    {
      if s[p] == '\r' || s[p] == '\n' {
        Drop(s, p, 1);
        whitespace, p := true, p + 1;
      } else if IsWhiteSpace(s[p]) {
        Drop(s, p, 1);
        whitespace, p := true, p + 1;
      } else {
        ghost var was, before := text, if whitespace then " " else "";
        if whitespace {
          text := text + " ";
          whitespace := false;
        }
        assert text == was + before;
        var next, c := GetCharAt(s, p);
        Regroup4(was, before, c, Condense(View(s, next), false, endTag).1);
        p, text := next, text + c;
      }
      stop := StopsAt(s, p, endTag);
    }
    assert text + "" == text;
  }

  method ReadTextAt(s: string, p0: int, trim: bool, endTag: string) returns (q: int, text: string)
    requires Inside(s, p0) && endTag != ""
    ensures Inside(s, q) && (View(s, q), text) == ReadText(View(s, p0), trim, endTag)
    ensures q == NULL || p0 <= q - |endTag|
    ensures q != NULL ==> q - |endTag| >= 0 && View(s, q - |endTag|) == ReadTo(View(s, p0), trim, endTag).0
  {
    hide Keep, Condense, StringEqual;
    var p;
    if !trim {
      p, text := KeepAt(s, p0, endTag);
    } else {
      p := SkipWhiteSpaceAt(s, p0);
      p, text := CondenseAt(s, p, endTag);
    }
    q := p;
    if p != NULL && p < |s| {
      PrefixFits(s[p..], endTag);
      Drop(s, p, |endTag|);
      q := p + |endTag|;
    }
    if !(q != NULL && q < |s|) {
      q := NULL;
    }
  }

  lemma PrefixFits(p: string, tag: string)
    requires StringEqual(p, tag)
    ensures |tag| <= |p|
  {
  }

  /** The loop condition of the reading loops, negated. */
  method StopsAt(s: string, p: int, endTag: string) returns (b: bool)
    requires Inside(s, p)
    ensures b == Stops(View(s, p), endTag)
    ensures !b ==> 0 <= p < |s|
  {
    if p == NULL || p == |s| {
      return true;
    }
    b := StringEqualAt(s, p, endTag);
  }

  /** Copies up to the end tag, or the end. */
  method CopyToAt(s: string, p: nat, endTag: string) returns (q: nat, value: string)
    requires p <= |s|
    ensures p <= q <= |s| && (s[q..], value) == CopyTo(s[p..], endTag)
  {
    hide StringEqual;
    q, value := p, "";
    ghost var whole := CopyTo(s[p..], endTag);
    assert "" + whole.1 == whole.1;
    var stop := StopsAt(s, q, endTag);
    while !stop
      invariant p <= q <= |s| && stop == Stops(View(s, q), endTag)
      invariant !stop ==> q < |s|
      invariant var r := CopyTo(s[q..], endTag); whole == (r.0, value + r.1)
      decreases |s| - q
    {
      Drop(s, q, 1);
      Regroup(value, [s[q]], CopyTo(s[q + 1..], endTag).1);
      value, q := value + [s[q]], q + 1;
      stop := StopsAt(s, q, endTag);
    }
    assert value + "" == value;
  }

  // ----------------------------------------------------------------- the simple nodes

  method ParseCommentAt(s: string, p0: nat, err: int) returns (q: int, node: Node, e: int)
    requires p0 <= |s|
    ensures Inside(s, q) && Parsed(View(s, q), node, e) == ParseComment(View(s, p0), err)
    ensures q == NULL || p0 < q
  {
    hide *;
    ViewFrom(s, p0);
    CommentIs(View(s, p0), err);
    var p := SkipWhiteSpaceAt(s, p0);
    ViewMeans(s, p);
    var starts := StringEqualAt(s, p, "<!--");
    if !starts {
      return NULL, Comment(""), SetError(err, ERROR_PARSING_COMMENT);
    }
    PrefixFits(s[p..], "<!--");
    Drop(s, p, 4);
    var value;
    p, value := CopyToAt(s, p + 4, "-->");
    if p < |s| {
      PrefixFits(s[p..], "-->");
      Drop(s, p, 3);
      p := p + 3;
    }
    ViewFrom(s, p);
    return p, Comment(value), err;
  }

  lemma ViewFrom(s: string, p: nat)
    requires p <= |s|
    ensures Inside(s, p) && View(s, p) == At(s[p..]) && NULL == -1 && Inside(s, NULL) && View(s, NULL) == Null
    ensures p == |s| ==> s[p..] == ""
  {
  }

  lemma ViewMeans(s: string, p: int)
    requires Inside(s, p)
    ensures p == NULL || (0 <= p <= |s| && View(s, p) == At(s[p..]))
    ensures p == |s| ==> s[p..] == ""
  {
  }

  lemma CommentIs(p0: Ptr, err: int)
    ensures var p := SkipWhiteSpace(p0);
            ParseComment(p0, err) ==
            if p.Null? || !StringEqual(p.rest, "<!--")
            then Parsed(Null, Comment(""), SetError(err, ERROR_PARSING_COMMENT))
            else
              var (rest, value) := CopyTo(p.rest[4..], "-->");
              Parsed(At(if |rest| >= 3 then rest[3..] else ""), Comment(value), err)
  {
    hide CopyTo, SkipWhiteSpace, StringEqual;
  }

  method ParseUnknownAt(s: string, p0: nat, err: int) returns (q: int, node: Node, e: int)
    requires p0 <= |s|
    ensures Inside(s, q) && Parsed(View(s, q), node, e) == ParseUnknown(View(s, p0), err)
    ensures q == NULL || p0 < q
  {
    hide *;
    ViewFrom(s, p0);
    UnknownIs(View(s, p0), err);
    var p := SkipWhiteSpaceAt(s, p0);
    ViewMeans(s, p);
    if p == NULL || p == |s| || s[p] != '<' {
      return NULL, Unknown(""), SetError(err, ERROR_PARSING_UNKNOWN);
    }
    Drop(s, p, 1);
    var value;
    p, value := CopyToAt(s, p + 1, ">");
    if p < |s| {
      Drop(s, p, 1);
      p := p + 1;
    }
    ViewFrom(s, p);
    return p, Unknown(value), err;
  }

  lemma UnknownIs(p0: Ptr, err: int)
    ensures var p := SkipWhiteSpace(p0);
            ParseUnknown(p0, err) ==
            if p.Null? || p.rest == "" || p.rest[0] != '<'
            then Parsed(Null, Unknown(""), SetError(err, ERROR_PARSING_UNKNOWN))
            else
              var (rest, value) := CopyTo(p.rest[1..], ">");
              Parsed(At(if rest != "" then rest[1..] else rest), Unknown(value), err)
  {
    hide CopyTo, SkipWhiteSpace;
  }

  method ParseCDataAt(s: string, p0: nat, err: int) returns (q: int, node: Node, e: int)
    requires p0 <= |s|
    ensures Inside(s, q) && Parsed(View(s, q), node, e) == ParseCData(View(s, p0), err)
    ensures q == NULL || p0 < q
  {
    hide StringEqual, CopyTo, ReadText;
    var starts := StringEqualAt(s, p0, "<![CDATA[");
    if !starts {
      return NULL, Text("", true), SetError(err, ERROR_PARSING_CDATA);
    }
    PrefixFits(s[p0..], "<![CDATA[");
    Drop(s, p0, 9);
    var p, value := CopyToAt(s, p0 + 9, "]]>");
    var dummy;
    q, dummy := ReadTextAt(s, p, false, "]]>");
    return q, Text(value, true), err;
  }

  method ParseTextAt(s: string, p: nat) returns (q: int, value: string)
    requires p < |s| && !IsWhiteSpace(s[p]) && s[p] != '<'
    ensures Inside(s, q) && (View(s, q), value) == ParseText(View(s, p))
    ensures q == NULL || p < q
  {
    hide ReadTo, StringEqual;
    q, value := ReadTextAt(s, p, true, "<");
    if q != NULL {
      q := q - 1;
    }
  }

  // ----------------------------------------------------------------------- attributes

  method UnquotedAt(s: string, p: nat) returns (q: nat, value: string, ok: bool)
    requires p <= |s|
    ensures p <= q <= |s| && (s[q..], value, ok) == Unquoted(s[p..])
  {
    q, value := p, "";
    ghost var whole := Unquoted(s[p..]);
    assert "" + whole.1 == whole.1;
    while q < |s| && !IsWhiteSpace(s[q]) && s[q] != '/' && s[q] != '>'
      invariant p <= q <= |s|
      invariant var r := Unquoted(s[q..]); whole == (r.0, value + r.1, r.2)
    {
      if s[q] == '\'' || s[q] == '\"' {
        assert value + "" == value;
        return q, value, false;
      }
      Drop(s, q, 1);
      Regroup(value, [s[q]], Unquoted(s[q + 1..]).1);
      value, q := value + [s[q]], q + 1;
    }
    assert value + "" == value;
    ok := true;
  }

  method ParseAttributeValueAt(s: string, p: nat, name: string, err: int, failed: int)
      returns (q: int, a: Attribute, e: int)
    requires p < |s|
    ensures Inside(s, q) && (View(s, q), a, e) == ParseAttributeValue(s[p..], name, err, failed)
    ensures q == NULL || p <= q
  {
    hide ReadText, Unquoted;
    var value;
    if s[p] == '\'' || s[p] == '\"' {
      Drop(s, p, 1);
      q, value := ReadTextAt(s, p + 1, false, [s[p]]);
      return q, Attribute(name, value), err;
    }
    var ok;
    q, value, ok := UnquotedAt(s, p);
    if !ok {
      return NULL, Attribute(name, value), failed;
    }
    return q, Attribute(name, value), err;
  }

  method PastEqualsAt(s: string, p0: int) returns (p: int)
    requires Inside(s, p0)
    ensures Inside(s, p) && View(s, p) == PastEquals(View(s, p0))
    ensures p == NULL || p0 < p < |s|
  {
    hide SkipWS;
    p := SkipWhiteSpaceAt(s, p0);
    if p == NULL || p == |s| || s[p] != '=' {
      return NULL;
    }
    Drop(s, p, 1);
    p := SkipWhiteSpaceAt(s, p + 1);
    if p == |s| {
      return NULL;
    }
  }

  method ParseAttributeAt(s: string, p0: int, inDocument: bool, err: int) returns (q: int, a: Attribute, e: int)
    requires Inside(s, p0)
    ensures Inside(s, q) && (View(s, q), a, e) == ParseAttribute(View(s, p0), inDocument, err)
    ensures q == NULL || p0 < q
  {
    hide ReadName, PastEquals, ParseAttributeValue;
    var failed := if inDocument then SetError(err, ERROR_READING_ATTRIBUTES) else err;
    var p := SkipWhiteSpaceAt(s, p0);
    if p == NULL || p == |s| {
      return NULL, Attribute("", ""), err;
    }
    var name;
    p, name := ReadNameAt(s, p);
    if p == NULL || p == |s| {
      return NULL, Attribute(name, ""), failed;
    }
    p := PastEqualsAt(s, p);
    if p == NULL {
      return NULL, Attribute(name, ""), failed;
    }
    q, a, e := ParseAttributeValueAt(s, p, name, err, failed);
  }

  method SkipWordAt(s: string, p: nat) returns (q: nat)
    requires p <= |s|
    ensures p <= q <= |s| && s[q..] == SkipWord(s[p..])
  {
    q := p;
    while q < |s| && s[q] != '>' && !IsWhiteSpace(s[q])
      invariant p <= q <= |s| && SkipWord(s[q..]) == SkipWord(s[p..])
    {
      Drop(s, q, 1);
      q := q + 1;
    }
  }

  method ParseDeclarationAt(s: string, p0: nat, err: int) returns (q: int, node: Node, e: int)
    requires p0 <= |s|
    ensures Inside(s, q) && Parsed(View(s, q), node, e) == ParseDeclaration(View(s, p0), err)
    ensures q == NULL || p0 < q
  {
    hide StringEqualNoCase, ParseAttribute, SkipWord, CStr, SkipWhiteSpace, DeclarationTail;
    var p := SkipWhiteSpaceAt(s, p0);
    var starts := StringEqualNoCaseAt(s, p, "<?xml");
    if !starts {
      return NULL, Declaration("", "", ""), SetError(err, ERROR_PARSING_DECLARATION);
    }
    HeaderFits(s[p..], "<?xml");
    Drop(s, p, 5);
    p := p + 5;
    e := err;
    var version, encoding, standalone := "", "", "";
    ghost var whole := DeclarationTail(View(s, p), "", "", "", err);
    while p != NULL && p < |s|
      invariant Inside(s, p) && (p == NULL || p0 < p)
      invariant whole == DeclarationTail(View(s, p), version, encoding, standalone, e)
      decreases if p == NULL then 0 else |s| + 1 - p
    {
      TailStep(View(s, p), version, encoding, standalone, e);
      if s[p] == '>' {
        Drop(s, p, 1);
        return p + 1, Declaration(version, encoding, standalone), e;
      }
      ghost var was := p;
      p := SkipWhiteSpaceAt(s, p);
      var isVersion := StringEqualNoCaseAt(s, p, "version");
      var isEncoding := StringEqualNoCaseAt(s, p, "encoding");
      var isStandalone := StringEqualNoCaseAt(s, p, "standalone");
      var a;
      if isVersion {
        p, a, e := ParseAttributeAt(s, p, false, e);
        version := CStr(a.value);
      } else if isEncoding {
        p, a, e := ParseAttributeAt(s, p, false, e);
        encoding := CStr(a.value);
      } else if isStandalone {
        p, a, e := ParseAttributeAt(s, p, false, e);
        standalone := CStr(a.value);
      } else if p != NULL {
        p := SkipWordAt(s, p);
        assert |s[p..]| < |s[was..]|;
      }
    }
    TailStep(View(s, p), version, encoding, standalone, e);
    return NULL, Declaration(version, encoding, standalone), e;
  }

  lemma TailStep(p: Ptr, version: string, encoding: string, standalone: string, err: int)
    ensures DeclarationTail(p, version, encoding, standalone, err) ==
            if Done(p) then Parsed(Null, Declaration(version, encoding, standalone), err)
            else if p.rest[0] == '>' then Parsed(At(p.rest[1..]), Declaration(version, encoding, standalone), err)
            else
              var q := SkipWhiteSpace(p);
              if q.At? && StringEqualNoCase(q.rest, "version") then
                var (next, a, e) := ParseAttribute(q, false, err);
                DeclarationTail(next, CStr(a.value), encoding, standalone, e)
              else if q.At? && StringEqualNoCase(q.rest, "encoding") then
                var (next, a, e) := ParseAttribute(q, false, err);
                DeclarationTail(next, version, CStr(a.value), standalone, e)
              else if q.At? && StringEqualNoCase(q.rest, "standalone") then
                var (next, a, e) := ParseAttribute(q, false, err);
                DeclarationTail(next, version, encoding, CStr(a.value), e)
              else
                DeclarationTail(if q.At? then At(SkipWord(q.rest)) else Null, version, encoding, standalone, err)
  {
    hide SkipWhiteSpace, StringEqualNoCase, ParseAttribute, CStr, SkipWord;
  }

  lemma HeaderFits(p: string, tag: string)
    requires StringEqualNoCase(p, tag)
    ensures |tag| <= |p|
  {
  }

  // ------------------------------------------------------------- elements and documents

  method IdentifyAt(s: string, p0: int) returns (kind: Kind)
    requires Inside(s, p0)
    ensures kind == Identify(View(s, p0))
  {
    hide StringEqual, StringEqualNoCase;
    var p := SkipWhiteSpaceAt(s, p0);
    if p == NULL || p == |s| || s[p] != '<' {
      return NoNode;
    }
    var found := StringEqualNoCaseAt(s, p, "<?xml");
    if found { return DeclarationNode; }
    found := StringEqualAt(s, p, "<!--");
    if found { return CommentNode; }
    found := StringEqualAt(s, p, "<![CDATA[");
    if found { return CDataNode; }
    found := StringEqualAt(s, p, "<!");
    if found { return UnknownNode; }
    if p + 1 < |s| && NameStart(s[p + 1]) { return ElementNode; }
    return UnknownNode;
  }

  /** `Parse` of the node that `Identify` made. */
  method ParseNodeAt(s: string, kind: Kind, p: nat, err: int) returns (q: int, node: Node, e: int)
    requires p <= |s| && kind != NoNode
    ensures Inside(s, q) && Parsed(View(s, q), node, e) == ParseNode(kind, View(s, p), err)
    ensures q == NULL || p < q
    decreases |s| + 1 - p, 3
  {
    hide ParseDeclaration, ParseComment, ParseCData, ParseUnknown, ParseElement;
    match kind
    case DeclarationNode => q, node, e := ParseDeclarationAt(s, p, err);
    case CommentNode => q, node, e := ParseCommentAt(s, p, err);
    case CDataNode => q, node, e := ParseCDataAt(s, p, err);
    case UnknownNode => q, node, e := ParseUnknownAt(s, p, err);
    case ElementNode => q, node, e := ParseElementAt(s, p, err);
  }

  /** `attributeSet.Find`, walking the attributes read so far. */
  method FindAttribute(attributes: seq<Attribute>, name: string) returns (found: bool)
    ensures found == HasAttribute(attributes, name)
  {
    var i := 0;
    while i < |attributes|
      invariant 0 <= i <= |attributes|
      invariant forall j | 0 <= j < i :: attributes[j].name != name
    {
      if attributes[i].name == name {
        return true;
      }
      i := i + 1;
    }
    return false;
  }

  method ParseElementAt(s: string, p0: nat, err: int) returns (q: int, node: Node, e: int)
    requires p0 <= |s|
    ensures Inside(s, q) && Parsed(View(s, q), node, e) == ParseElement(View(s, p0), err)
    ensures q == NULL || p0 < q
    decreases |s| + 1 - p0, 2
  {
    hide ReadName, ParseTag;
    var p := SkipWhiteSpaceAt(s, p0);
    if p == NULL || p == |s| || s[p] != '<' {
      return NULL, Element("", [], []), SetError(err, ERROR_PARSING_ELEMENT);
    }
    Drop(s, p, 1);
    p := SkipWhiteSpaceAt(s, p + 1);
    var name;
    p, name := ReadNameAt(s, p);
    if p == NULL || p == |s| {
      return NULL, Element(name, [], []), SetError(err, ERROR_FAILED_TO_READ_ELEMENT_NAME);
    }
    q, node, e := ParseTagAt(s, p, name, err);
  }

  /** The attributes of an element, and what comes after them. */
  method ParseTagAt(s: string, p0: nat, name: string, err: int) returns (q: int, node: Node, e: int)
    requires p0 < |s|
    ensures Inside(s, q) && Parsed(View(s, q), node, e) == ParseTag(s[p0..], name, [], err)
    ensures q == NULL || p0 < q
    decreases |s| + 1 - p0, 1
  {
    hide ReadName, ParseAttribute, ReadValue, HasAttribute, ParseEndTag;
    var p: int, attributes: seq<Attribute> := p0, [];
    e := err;
    while true
      invariant p0 <= p < |s| && ParseTag(s[p0..], name, [], err) == ParseTag(s[p..], name, attributes, e)
      decreases |s| - p
    {
      p := SkipWhiteSpaceAt(s, p);
      if p == NULL || p == |s| {
        return NULL, Element(name, attributes, []), SetError(e, ERROR_READING_ATTRIBUTES);
      }
      if s[p] == '/' {
        if p + 1 < |s| && s[p + 1] == '>' {
          Drop(s, p, 2);
          return p + 2, Element(name, attributes, []), e;
        }
        return NULL, Element(name, attributes, []), SetError(e, ERROR_PARSING_EMPTY);
      } else if s[p] == '>' {
        Drop(s, p, 1);
        var children;
        p, children, e := ReadValueAt(s, p + 1, e);
        q, e := ParseEndTagAt(s, p, name, e);
        return q, Element(name, attributes, children), e;
      }
      var a;
      p, a, e := ParseAttributeAt(s, p, true, e);
      if p == NULL || p == |s| {
        return NULL, Element(name, attributes, []), SetError(e, ERROR_PARSING_ELEMENT);
      }
      var twice := FindAttribute(attributes, a.name);
      if twice {
        return NULL, Element(name, attributes, []), SetError(e, ERROR_PARSING_ELEMENT);
      }
      attributes := attributes + [a];
    }
  }

  method ParseEndTagAt(s: string, p: int, name: string, err: int) returns (q: int, e: int)
    requires Inside(s, p)
    ensures Inside(s, q) && (View(s, q), e) == ParseEndTag(View(s, p), name, err)
    ensures q == NULL || p < q
  {
    hide StringEqual;
    if p == NULL || p == |s| {
      return NULL, SetError(err, ERROR_READING_END_TAG);
    }
    var closes := StringEqualAt(s, p, "</" + name);
    if !closes {
      return NULL, SetError(err, ERROR_READING_END_TAG);
    }
    PrefixFits(s[p..], "</" + name);
    Drop(s, p, 2 + |name|);
    q := SkipWhiteSpaceAt(s, p + 2 + |name|);
    if q != NULL && q < |s| && s[q] == '>' {
      Drop(s, q, 1);
      return q + 1, err;
    }
    return NULL, SetError(err, ERROR_READING_END_TAG);
  }

  method BlankValue(value: string) returns (b: bool)
    ensures b == Blank(value)
  {
    var i := 0;
    while i < |value|
      invariant 0 <= i <= |value| && forall j | 0 <= j < i :: IsWhiteSpace(value[j])
    {
      if !IsWhiteSpace(value[i]) {
        return false;
      }
      i := i + 1;
    }
    return true;
  }

  method ReadValueAt(s: string, p0: nat, err: int) returns (q: int, children: seq<Node>, e: int)
    requires p0 <= |s|
    ensures Inside(s, q) && (View(s, q), children, e) == ReadValue(View(s, p0), err)
    ensures q == NULL || p0 <= q
    decreases |s| + 1 - p0, 5
  {
    hide ParseText, Blank, Identify, ParseNode, StringEqual;
    var p := SkipWhiteSpaceAt(s, p0);
    children, e := [], err;
    ghost var whole := ReadChildren(View(s, p), [], err);
    while p != NULL && p < |s|
      invariant Inside(s, p) && (p == NULL || p0 <= p)
      invariant 0 <= p < |s| ==> !IsWhiteSpace(s[p])
      invariant whole == ReadChildren(View(s, p), children, e)
      decreases if p == NULL then 0 else |s| + 1 - p
    {
      if s[p] != '<' {
        var value;
        p, value := ParseTextAt(s, p);
        var blank := BlankValue(value);
        if !blank {
          children := children + [Text(value, false)];
        }
      } else {
        var ends := StringEqualAt(s, p, "</");
        if ends {
          return p, children, e;
        }
        var kind := IdentifyAt(s, p);
        if kind == NoNode {
          return NULL, children, e;
        }
        var node;
        p, node, e := ParseNodeAt(s, kind, p, e);
        children := children + [node];
      }
      p := SkipWhiteSpaceAt(s, p);
    }
    if p == NULL {
      e := SetError(e, ERROR_READING_ELEMENT_VALUE);
    }
    q := p;
  }

  /** `TiXmlDocument::Parse` of a buffer, up to its first NUL. */
  method ParseDocumentAt(buffer: string) returns (s: string, q: int, nodes: seq<Node>, err: int)
    ensures s == CStr(buffer) && Inside(s, q)
    ensures (View(s, q), nodes, err) == Parse(buffer)
  {
    hide Identify, ParseNode;
    s := CStr(buffer);
    if s == "" {
      return s, NULL, [], ERROR_DOCUMENT_EMPTY;
    }
    assert s[0..] == s;
    nodes, err := [], NO_ERROR;
    q := SkipWhiteSpaceAt(s, 0);
    ghost var whole := ReadNodes(View(s, q), [], NO_ERROR);
    while q != NULL && q < |s|
      invariant Inside(s, q) && whole == ReadNodes(View(s, q), nodes, err)
      decreases if q == NULL then 0 else |s| + 1 - q
    {
      var kind := IdentifyAt(s, q);
      if kind == NoNode {
        break;
      }
      var node;
      q, node, err := ParseNodeAt(s, kind, q, err);
      nodes := nodes + [node];
      q := SkipWhiteSpaceAt(s, q);
    }
    if nodes == [] {
      return s, NULL, nodes, SetError(err, ERROR_DOCUMENT_EMPTY);
    }
  }
}
