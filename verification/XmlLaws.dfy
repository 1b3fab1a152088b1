/** Exactly which texts, attributes, comments, CDATA sections and unknown tags are read back
    as they were printed. */
module XmlLaws {
  import opened Basics
  import opened XmlText
  import opened XmlTextProofs
  import opened XmlParser
  import opened XmlPrinter
  import opened XmlRoundTrip

  // ------------------------------------------------- comments, CDATA sections, unknown tags

  /** What is copied up to a tag does not hold it. */
  lemma {:induction false} CopyIsWithout(p: string, tag: string)
    requires tag != ""
    ensures Without(CopyTo(p, tag).1, tag) && CopyTo(p, tag).1 <= p
    decreases |p|
  {
    var v := CopyTo(p, tag).1;
    if p == "" || StringEqual(p, tag) {
      assert v == "";
    } else {
      CopyIsWithout(p[1..], tag);
      var more := CopyTo(p[1..], tag).1;
      assert v == [p[0]] + more;
      forall i | 0 <= i <= |v|
        ensures !(tag <= v[i..])
      {
        if i == 0 {
          assert v <= p;
        } else {
          assert v[i..] == more[i - 1..];
        }
      }
    }
  }

  /** Copying stops at the tag behind `w`, or before it. */
  lemma {:induction false} CopyNotLater(w: string, tag: string, rest: string)
    requires tag != ""
    ensures |CopyTo(w + tag + rest, tag).1| <= |w|
    decreases |w|
  {
    var p := w + tag + rest;
    if w == "" {
      assert p == tag + rest && tag <= p;
    } else {
      assert p[1..] == w[1..] + tag + rest;
      CopyNotLater(w[1..], tag, rest);
    }
  }

  /** A value printed as a C string in front of a tag is copied exactly if it holds neither a
      NUL nor the tag. */
  lemma CopyLaw(v: string, tag: string, rest: string)
    requires |tag| > 0 && tag[|tag| - 1] == '>' && forall i | 0 <= i < |tag| - 1 :: tag[i] != '>'
    ensures CopyTo(CStr(v) + tag + rest, tag).1 == v <==> NoNul(v) && Without(v, tag)
    ensures NoNul(v) && Without(v, tag) ==> CopyTo(CStr(v) + tag + rest, tag) == (tag + rest, v)
  {
    CStrCut(v);
    CStrShorter(v);
    CopyIsWithout(CStr(v) + tag + rest, tag);
    CopyNotLater(CStr(v), tag, rest);
    if NoNul(v) && Without(v, tag) {
      CopyStops(v, tag, rest);
    }
    hide CopyTo, CStr, NoNul, Without;
  }

  lemma CommentStarts(x: string, err: int)
    ensures var (rest, value) := CopyTo(x, "-->");
            ParseComment(At("<!--" + x), err) == Parsed(At(if |rest| >= 3 then rest[3..] else ""), Comment(value), err)
  {
    hide CopyTo;
    var p := "<!--" + x;
    assert p[0] == '<' && p[4..] == x && "<!--" <= p;
    assert SkipWhiteSpace(At(p)) == At(p);
  }

  lemma Behind3(tag: string, rest: string)
    requires |tag| == 3
    ensures (tag + rest)[3..] == rest && |tag + rest| >= 3
  {
  }

  lemma Regroup3(a: string, b: string, c: string, d: string)
    ensures a + b + c + d == a + (b + c + d)
  {
  }

  /** A comment is read back exactly if it holds neither a NUL nor "-->". */
  lemma CommentLaw(v: string, rest: string, err: int)
    ensures ParseComment(At("<!--" + CStr(v) + "-->" + rest), err) == Parsed(At(rest), Comment(v), err) <==>
            NoNul(v) && Without(v, "-->")
  {
    hide *;
    CopyLaw(v, "-->", rest);
    Regroup3("<!--", CStr(v), "-->", rest);
    CommentStarts(CStr(v) + "-->" + rest, err);
    Behind3("-->", rest);
  }

  lemma CDataStarts(x: string, err: int)
    ensures ParseCData(At("<![CDATA[" + x), err).node == Text(CopyTo(x, "]]>").1, true)
  {
    hide CopyTo, ReadText;
    var p := "<![CDATA[" + x;
    assert p[9..] == x && "<![CDATA[" <= p;
  }

  /** A CDATA section is read back exactly if it holds neither a NUL nor "]]>". */
  lemma CDataLaw(v: string, rest: string, err: int)
    ensures ParseCData(At("<![CDATA[" + CStr(v) + "]]>" + rest), err) ==
            Parsed(if rest == "" then Null else At(rest), Text(v, true), err) <==>
            NoNul(v) && Without(v, "]]>")
  {
    hide *;
    CopyLaw(v, "]]>", rest);
    Regroup3("<![CDATA[", CStr(v), "]]>", rest);
    CDataStarts(CStr(v) + "]]>" + rest, err);
    if NoNul(v) && Without(v, "]]>") {
      CDataReads(v, rest, err);
      CStrIsAll(v);
    }
  }

  lemma UnknownStarts(x: string, err: int)
    ensures var (rest, value) := CopyTo(x, ">");
            ParseUnknown(At("<" + x), err) == Parsed(At(if rest != "" then rest[1..] else rest), Unknown(value), err)
  {
    hide CopyTo;
    var p := "<" + x;
    assert p[0] == '<' && p[1..] == x;
    assert SkipWhiteSpace(At(p)) == At(p);
  }

  /** An unknown tag is read back exactly if it holds neither a NUL nor ">". */
  lemma UnknownLaw(v: string, rest: string, err: int)
    ensures ParseUnknown(At("<" + CStr(v) + ">" + rest), err) == Parsed(At(rest), Unknown(v), err) <==>
            NoNul(v) && Without(v, ">")
  {
    hide *;
    CopyLaw(v, ">", rest);
    Regroup3("<", CStr(v), ">", rest);
    UnknownStarts(CStr(v) + ">" + rest, err);
    assert (">" + rest)[1..] == rest;
  }

  // ----------------------------------------------------------------------- attributes

  lemma {:induction false} NameLengthReads(p: string)
    ensures forall i | 0 <= i < NameLength(p) :: NameChar(p[i])
    ensures p != "" && NameChar(p[0]) ==> NameLength(p) > 0
  {
    if p != "" && NameChar(p[0]) {
      NameLengthReads(p[1..]);
      assert forall i | 1 <= i < NameLength(p) :: p[i] == p[1..][i - 1];
    }
  }

  /** Only proper names are read. */
  lemma NameIsRead(p: Ptr, inDocument: bool, err: int)
    ensures ParseAttribute(p, inDocument, err).0.At? ==> NameOk(ParseAttribute(p, inDocument, err).1.name)
  {
    var q := SkipWhiteSpace(p);
    hide SkipWhiteSpace, ReadText, Unquoted, PastEquals;
    if q.At? && q.rest != "" && NameStart(q.rest[0]) {
      assert NameChar(q.rest[0]);
      NameLengthReads(q.rest);
    }
  }

  /** An attribute is read back exactly if it has a proper name and no hexadecimal reference
      in its value. */
  lemma AttributeLaw(a: Attribute, rest: string, err: int)
    requires rest != ""
    ensures ParseAttribute(At(PrintAttribute(a) + rest), true, err) == (At(rest), a, err) <==>
            NameOk(a.name) && NoHex(a.value)
  {
    hide *;
    NameIsRead(At(PrintAttribute(a) + rest), true, err);
    if NameOk(a.name) {
      var quote := if HasQuote(a.value) then '\'' else '\"';
      var body := Encode(a.value) + [quote] + rest;
      NameIsName(a.name);
      PrintedQuoted(a, rest, quote);
      QuotedReads(a.name, quote, body, true, err);
      EscapeLaw(a.value, quote, rest);
    }
  }

  lemma PrintedQuoted(a: Attribute, rest: string, quote: char)
    requires Encode(a.name) == a.name && quote == if HasQuote(a.value) then '\'' else '\"'
    ensures PrintAttribute(a) + rest == a.name + ("=" + ([quote] + (Encode(a.value) + [quote] + rest)))
  {
    hide Encode, HasQuote;
  }

  // ------------------------------------------------------------------------------ text

  /** A text that condensing makes shorter: a reference was passed through, or white space
      is not tidy, or it follows white space. */
  ghost predicate Shrinks(v: string, blank: bool) {
    !NoHex(v) || !Tidy(v) || (blank && (v == "" || v[0] == ' '))
  }

  /** However `v` was escaped, condensing never makes it longer, and makes it shorter wherever
      it shrinks. */
  ghost predicate CondensedNotLonger(v: string, blank: bool, rest: string, end: string, endTag: string) {
    var r, n := Condense(At(Encode(v) + rest), blank, endTag), if blank then 1 else 0;
    r.0 == At(end) ==> |r.1| <= |v| + n && (Shrinks(v, blank) ==> |r.1| < |v| + n)
  }

  lemma {:induction false} CondensingNotLonger(v: string, blank: bool, w: string, end: string, endTag: string)
    requires endTag != "" && Markup(endTag[0]) && StringEqual(end, endTag) && AllWhite(w)
    ensures CondensedNotLonger(v, blank, w + end, end, endTag)
    decreases |v|
  {
    hide *;
    if v == "" {
      NothingCondensed(blank, w, end, endTag);
    } else if HEX_PREFIX <= v {
      HexIsLong(v);
      PassStops(v, 1);
      var n := PassLength(v, 1);
      if v[n] == ';' {
        CondensingNotLonger(v[n + 1..], false, w, end, endTag);
        PassedCondensed(v, n, blank, w + end, end, endTag);
      } else {
        OpenCondensed(v, blank, w, end, endTag);
      }
    } else if v[0] == ' ' {
      CondensingNotLonger(v[1..], true, w, end, endTag);
      BlankCondensed(v, blank, w + end, end, endTag);
    } else {
      CondensingNotLonger(v[1..], false, w, end, endTag);
      CharCondensed(v, blank, w + end, end, endTag);
    }
  }

  lemma HexIsLong(v: string)
    requires HEX_PREFIX <= v
    ensures |v| >= 3 && v[0] == '&'
  {
    assert v[0] == HEX_PREFIX[0];
  }

  lemma NothingCondensed(blank: bool, w: string, end: string, endTag: string)
    requires endTag != "" && Markup(endTag[0]) && StringEqual(end, endTag) && AllWhite(w)
    ensures CondensedNotLonger("", blank, w + end, end, endTag)
  {
    CondenseWhite(w, end, blank, endTag);
    EncodedNothing();
    assert Encode("") + (w + end) == w + end;
    assert NoHex("") by {
      assert |HEX_PREFIX| == 3;
    }
    hide Encode, Condense, AllWhite, NoHex;
  }

  lemma BlankCondensed(v: string, blank: bool, rest: string, end: string, endTag: string)
    requires v != "" && v[0] == ' ' && endTag != "" && Markup(endTag[0])
    requires CondensedNotLonger(v[1..], true, rest, end, endTag)
    ensures CondensedNotLonger(v, blank, rest, end, endTag)
  {
    BlankIsPlain(v);
    CondenseSpace(v[1..], blank, rest, endTag);
    TidyBlank(v);
    hide Encode, Condense, NoHex, Tidy, EncodeChar, Markup;
  }

  lemma BlankIsPlain(v: string)
    requires v != "" && v[0] == ' '
    ensures Encode(v) == EncodeChar(' ') + Encode(v[1..]) && (NoHex(v) <==> NoHex(v[1..]))
  {
    EncodeFirstOf(v, ' ');
    HexInTail(v);
    hide Encode, EncodeChar;
  }

  lemma TidyBlank(v: string)
    requires v != "" && v[0] == ' '
    ensures Tidy(v) <==> v[1..] != "" && v[1..][0] != ' ' && Tidy(v[1..])
  {
    assert forall i | 1 <= i < |v| :: v[i] == v[1..][i - 1];
    if v[1..] != "" && v[1..][0] != ' ' && Tidy(v[1..]) {
      forall i | 0 <= i < |v| && v[i] == ' '
        ensures i + 1 < |v| && v[i + 1] != ' '
      {
        if i > 0 {
          assert v[1..][i - 1] == ' ';
          assert v[1..][i] == v[i + 1];
        }
      }
    }
  }

  lemma TidyOther(v: string)
    requires v != "" && v[0] != ' '
    ensures Tidy(v) <==> Tidy(v[1..])
  {
    assert forall i | 1 <= i < |v| :: v[i] == v[1..][i - 1];
    if Tidy(v[1..]) {
      forall i | 0 <= i < |v| && v[i] == ' '
        ensures i + 1 < |v| && v[i + 1] != ' '
      {
        assert v[1..][i - 1] == ' ';
        assert v[1..][i] == v[i + 1];
      }
    }
    if Tidy(v) {
      forall i | 0 <= i < |v[1..]| && v[1..][i] == ' '
        ensures i + 1 < |v[1..]| && v[1..][i + 1] != ' '
      {
        assert v[i + 1] == ' ';
        assert v[i + 2] == v[1..][i + 1];
      }
    }
  }

  lemma CharCondensed(v: string, blank: bool, rest: string, end: string, endTag: string)
    requires v != "" && v[0] != ' ' && !(HEX_PREFIX <= v) && endTag != "" && Markup(endTag[0])
    requires CondensedNotLonger(v[1..], false, rest, end, endTag)
    ensures CondensedNotLonger(v, blank, rest, end, endTag)
  {
    CharsDecode(v, rest);
    CondenseStep(Encode(v) + rest, blank, endTag, At(Encode(v[1..]) + rest), [v[0]]);
    TidyOther(v);
    HexInTail(v);
    hide Encode, Condense, NoHex, Tidy, EncodeChar, Markup, GetChar, IsWhiteSpace;
  }

  lemma AmpersandIsText(c: char)
    requires c == '&'
    ensures !Markup(c) && !IsWhiteSpace(c)
  {
  }

  lemma NothingBehindNull(endTag: string)
    ensures Condense(Null, false, endTag) == (Null, "")
  {
  }

  /** One character at most in place of a whole reference. */
  lemma ReferenceCondensed(v: string, blank: bool, rest: string, end: string, endTag: string, p: string, more: nat)
    requires HEX_PREFIX <= v && endTag != "" && Markup(endTag[0]) && Encode(v) + rest == p
    requires p != "" && p[0] == '&' && |GetChar(p).1| <= 1 && 1 + more < |v|
    requires var r := Condense(GetChar(p).0, false, endTag); r.0 == At(end) ==> |r.1| <= more
    ensures CondensedNotLonger(v, blank, rest, end, endTag)
  {
    AmpersandIsText(p[0]);
    CondenseStep(p, blank, endTag, GetChar(p).0, GetChar(p).1);
    hide GetChar, Condense, Encode, Shrinks, Markup, IsWhiteSpace;
  }

  lemma PassedCondensed(v: string, n: nat, blank: bool, rest: string, end: string, endTag: string)
    requires endTag != "" && Markup(endTag[0]) && HEX_PREFIX <= v && n == PassLength(v, 1) < |v| && v[n] == ';'
    requires forall j | 1 <= j < n :: v[j] != ';'
    requires CondensedNotLonger(v[n + 1..], false, rest, end, endTag)
    ensures CondensedNotLonger(v, blank, rest, end, endTag)
  {
    hide *;
    HexStarts(v);
    PassAtLeast(v, 1);
    var more := Encode(v[n + 1..]) + rest;
    var p := v[..n] + (";" + more);
    PassedText(v, n, rest);
    ReferenceReads(v, n, more);
    NothingBehindNull(endTag);
    CondensedMeans(v[n + 1..], rest, end, endTag);
    ReferenceCondensed(v, blank, rest, end, endTag, p, |v| - n - 1);
  }

  lemma HexStarts(v: string)
    requires HEX_PREFIX <= v
    ensures |v| >= 3 && v[0] == '&' && v[1] == '#' && v[2] == 'x'
  {
    assert v[0] == HEX_PREFIX[0] && v[1] == HEX_PREFIX[1] && v[2] == HEX_PREFIX[2];
  }

  lemma PassAtLeast(v: string, n: nat)
    requires n < |v|
    ensures PassLength(v, n) >= n
  {
  }

  lemma CondensedMeans(v: string, rest: string, end: string, endTag: string)
    requires CondensedNotLonger(v, false, rest, end, endTag)
    ensures var r := Condense(At(Encode(v) + rest), false, endTag); r.0 == At(end) ==> |r.1| <= |v|
  {
    hide Condense, Encode, Shrinks;
  }

  /** `GetChar` only moves on. */
  lemma GetCharMovesOn(p: string)
    requires p != ""
    ensures var r := GetChar(p).0; r.At? ==> r.rest == p[|p| - |r.rest|..]
  {
    if p[0] == '&' && !(|p| > 2 && p[1] == '#') {
      NamedMovesOn(p, 0);
    }
    hide Backwards, IndexOf;
  }

  lemma {:induction false} NamedMovesOn(p: string, i: nat)
    requires p != "" && i <= 5
    ensures var r := Named(p, i).0; r.At? && r.rest == p[|p| - |r.rest|..]
    decreases 5 - i
  {
    if i < 5 && !(ENTITIES[i].0 <= p) {
      NamedMovesOn(p, i + 1);
    }
  }

  /** Reading on from somewhere in `w + end`, or behind it. */
  lemma BehindOpen(q: string, w: string, end: string, endTag: string)
    requires endTag != "" && Markup(endTag[0]) && StringEqual(end, endTag) && AllWhite(w)
    requires |q| <= |w + end| && q == (w + end)[|w + end| - |q|..]
    ensures var r := Condense(At(q), false, endTag); r.0 == At(end) ==> r.1 == ""
  {
    hide Condense, StringEqual, Markup, IsWhiteSpace;
    if |q| >= |end| {
      var j := |w + end| - |q|;
      assert q == w[j..] + end;
      CondenseWhite(w[j..], end, false, endTag);
    }
  }

  /** Where the reader is after a reference without a semicolon. */
  lemma OpenReads(v: string, rest: string)
    requires HEX_PREFIX <= v && PassLength(v, 1) == |v| - 1 && v[|v| - 1] != ';' && rest != ""
    requires forall j | 1 <= j < |v| - 1 :: v[j] != ';'
    ensures var p := Encode(v) + rest;
            p != "" && p[0] == '&' && |GetChar(p).1| <= 1
            && var r := GetChar(p).0; r.At? ==> |r.rest| <= |rest| && r.rest == rest[|rest| - |r.rest|..]
  {
    hide *;
    HexStarts(v);
    LastCharacter(v);
    var u, c := v[..|v| - 1], v[|v| - 1];
    var e := EncodeChar(c);
    var p := u + (e + rest);
    OpenText(v, u, c, rest);
    OpenReferenceReads(u, c, rest);
    assert p[0] == u[0] == v[0];
    GetCharMovesOn(p);
    Regroup(u, e, rest);
    if GetChar(p).0.At? {
      SuffixOfSuffix(u + e, rest, GetChar(p).0.rest);
    }
  }

  lemma OpenCondensed(v: string, blank: bool, w: string, end: string, endTag: string)
    requires endTag != "" && Markup(endTag[0]) && StringEqual(end, endTag) && AllWhite(w)
    requires HEX_PREFIX <= v && PassLength(v, 1) == |v| - 1 && v[|v| - 1] != ';'
    requires forall j | 1 <= j < |v| - 1 :: v[j] != ';'
    ensures CondensedNotLonger(v, blank, w + end, end, endTag)
  {
    hide *;
    HexStarts(v);
    EndIsSomething(end, endTag);
    OpenReads(v, w + end);
    NothingBehindNull(endTag);
    var p := Encode(v) + (w + end);
    var next := GetChar(p).0;
    if next.At? {
      BehindOpen(next.rest, w, end, endTag);
    }
    ReferenceCondensed(v, blank, w + end, end, endTag, p, 0);
  }

  lemma EndIsSomething(end: string, endTag: string)
    requires StringEqual(end, endTag)
    ensures end != ""
  {
  }

  lemma SuffixOfSuffix(a: string, b: string, q: string)
    requires |q| <= |b|
    ensures (a + b)[|a + b| - |q|..] == b[|b| - |q|..]
  {
  }

  /** Condensing white space, an escaped text is read back exactly if it holds no hexadecimal
      reference and its blanks are single and not at the end. */
  lemma CondenseLaw(v: string, w: string, end: string, endTag: string)
    requires endTag != "" && Markup(endTag[0]) && StringEqual(end, endTag) && AllWhite(w)
    ensures Condense(At(Encode(v) + (w + end)), false, endTag) == (At(end), v) <==> NoHex(v) && Tidy(v)
  {
    CondensingNotLonger(v, false, w, end, endTag);
    if NoHex(v) && Tidy(v) {
      CondenseDecodes(v, false, w, end, endTag);
    }
    hide Condense, Encode, NoHex, Tidy, AllWhite, Markup, StringEqual;
  }

  /** A plain text is read back exactly if, besides, it does not begin with a blank. */
  lemma TextLaw(v: string, w: string, end: string)
    requires |end| > 1 && end[0] == '<' && AllWhite(w)
    ensures ParseText(At(Encode(v) + (w + end))) == (At(end), v) <==>
            NoHex(v) && Tidy(v) && (v != "" ==> v[0] != ' ')
  {
    hide *;
    TagIsMarkup(end);
    TextIs(Encode(v) + (w + end), end, v);
    TrimmedText(v, w, end);
  }

  lemma TagIsMarkup(end: string)
    requires end != "" && end[0] == '<'
    ensures Markup("<"[0]) && StringEqual(end, "<") && !IsWhiteSpace(end[0])
  {
  }

  lemma TextIs(p: string, end: string, v: string)
    requires |end| > 1 && p != ""
    ensures ParseText(At(p)) == (At(end), v) <==> Condense(At(SkipWS(p)), false, "<") == (At(end), v)
  {
    hide Condense, SkipWS;
  }

  /** What is read from the first character on that is not white space. */
  lemma {:induction false} TrimmedText(v: string, w: string, end: string)
    requires |end| > 1 && end[0] == '<' && AllWhite(w)
    ensures Encode(v) + (w + end) != ""
    ensures var r := Condense(At(SkipWS(Encode(v) + (w + end))), false, "<");
            && (r.0 == At(end) ==> |r.1| <= |v|)
            && (r == (At(end), v) <==> NoHex(v) && Tidy(v) && (v != "" ==> v[0] != ' '))
    decreases |v|
  {
    hide *;
    TagIsMarkup(end);
    var p := Encode(v) + (w + end);
    if v == "" {
      EncodedNothing();
      assert p == w + end;
      SkipWhite(w, end);
      StaysThere(end);
      NothingIsTidy(end);
    } else if v[0] == ' ' {
      BlankIsPlain(v);
      TrimmedText(v[1..], w, end);
      SkipBlank(v, w + end);
    } else {
      CondensingNotLonger(v, false, w, end, "<");
      CondensedMeans(v, w + end, end, "<");
      CondenseLaw(v, w, end, "<");
      NotWhite(v, w + end);
      StaysThere(p);
    }
  }

  lemma StaysThere(p: string)
    requires p != "" && !IsWhiteSpace(p[0])
    ensures SkipWS(p) == p
  {
  }

  lemma NothingIsTidy(end: string)
    requires |end| > 1 && end[0] == '<'
    ensures NoHex("") && Tidy("") && Condense(At(end), false, "<") == (At(end), "")
  {
    assert |HEX_PREFIX| == 3;
  }

  lemma SkipBlank(v: string, rest: string)
    requires v != "" && Encode(v) == EncodeChar(' ') + Encode(v[1..])
    ensures SkipWS(Encode(v) + rest) == SkipWS(Encode(v[1..]) + rest)
    ensures Encode(v) + rest != ""
  {
    hide Encode;
    var p := Encode(v) + rest;
    assert EncodeChar(' ') == " " && p == " " + (Encode(v[1..]) + rest);
    assert p[0] == ' ' && p[1..] == Encode(v[1..]) + rest;
  }

  /** A text that does not begin with a blank is escaped to one that does not begin with
      white space. */
  lemma NotWhite(v: string, rest: string)
    requires v != "" && v[0] != ' '
    ensures Encode(v) + rest != "" && !IsWhiteSpace((Encode(v) + rest)[0])
  {
    if HEX_PREFIX <= v {
      HexStarts(v);
      PassAtLeast(v, 1);
      EncodeReference(v);
    } else {
      CharsDecode(v, rest);
    }
    hide Encode, PassLength, Markup, GetChar;
  }
}
