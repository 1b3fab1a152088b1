/** What the text level of TinyXML guarantees: reading undoes escaping. */
module XmlTextProofs {
  import opened Basics
  import opened XmlText

  // ---------------------------------------------------------------------- C strings

  lemma {:induction false} CStrShorter(s: string)
    ensures |CStr(s)| <= |s| && CStr(s) == s[..|CStr(s)|]
    ensures forall i | 0 <= i < |CStr(s)| :: s[i] as int != 0
    ensures |CStr(s)| < |s| ==> s[|CStr(s)|] as int == 0
  {
    if s != "" && s[0] as int != 0 {
      CStrShorter(s[1..]);
    }
  }

  lemma {:induction false} CStrIsAll(v: string)
    requires NoNul(v)
    ensures CStr(v) == v
    decreases |v|
  {
    if v != "" {
      CStrIsAll(v[1..]);
    }
  }

  /** Being cut at the first NUL keeps a string exactly if it has none. */
  lemma CStrCut(s: string)
    ensures NoNul(CStr(s)) && CStr(CStr(s)) == CStr(s)
    ensures CStr(s) == s <==> NoNul(s)
  {
    CStrShorter(s);
    hide CStr;
    CStrIsAll(CStr(s));
    if NoNul(s) {
      CStrIsAll(s);
    }
  }

  // --------------------------------------------------------- one character at a time

  lemma NamedDecodes(k: nat, rest: string)
    requires k < 5
    ensures GetChar(ENTITIES[k].0 + rest) == (At(rest), [ENTITIES[k].1])
  {
    var p := ENTITIES[k].0 + rest;
    assert p[|ENTITIES[k].0|..] == rest;
    assert ENTITIES[k].0 <= p;
    assert p[0] == '&' && p[1] == ENTITIES[k].0[1];
    assert p[2] == ENTITIES[k].0[2];
    forall j | 0 <= j < k ensures !(ENTITIES[j].0 <= p) {
      assert ENTITIES[j].0[1] != p[1] || ENTITIES[j].0[2] != p[2];
    }
    NamedFinds(p, 0, k);
  }

  lemma {:induction false} NamedFinds(p: string, i: nat, k: nat)
    requires i <= k < 5 && p != "" && ENTITIES[k].0 <= p
    requires forall j | i <= j < k :: !(ENTITIES[j].0 <= p)
    ensures Named(p, i) == (At(p[|ENTITIES[k].0|..]), [ENTITIES[k].1])
    decreases k - i
  {
    if i < k {
      NamedFinds(p, i + 1, k);
    }
  }

  lemma ControlDecodes(c: char, rest: string)
    requires c as int < 32
    ensures GetChar(EncodeChar(c) + rest) == (At(rest), [c])
  {
    var high, low := c as int / 16, c as int % 16;
    assert EncodeChar(c) == ['&', '#', 'x', HexDigit(high), HexDigit(low), ';'];
    HexDecodes(high, low, rest);
  }

  lemma HexDecodes(high: int, low: int, rest: string)
    requires 0 <= high < 16 && 0 <= low < 16
    ensures GetChar(['&', '#', 'x', HexDigit(high), HexDigit(low), ';'] + rest) ==
            (At(rest), [(low + 16 * high) as char])
  {
    hide HexDigit, Digit;
    var p := ['&', '#', 'x', HexDigit(high), HexDigit(low), ';'] + rest;
    HexDigits(high);
    HexDigits(low);
    assert IndexOf(p, ';', 5) == 5;
    assert IndexOf(p, ';', 4) == 5;
    assert p[2] == 'x';
    assert Backwards(p, 2, 'x', 16, 256, low + 16 * high) == low + 16 * high;
    assert Backwards(p, 3, 'x', 16, 16, low) == low + 16 * high;
    assert Backwards(p, 4, 'x', 16, 1, 0) == low + 16 * high;
    assert p[6..] == rest;
  }

  lemma HexDigits(n: int)
    requires 0 <= n < 16
    ensures Digit(HexDigit(n), 16) == n && HexDigit(n) != 'x' && HexDigit(n) != ';'
  {
  }

  /** Reading undoes escaping, character by character. */
  lemma CharDecodes(c: char, rest: string)
    ensures GetChar(EncodeChar(c) + rest) == (At(rest), [c])
  {
    if c == '&' { NamedDecodes(0, rest); }
    else if c == '<' { NamedDecodes(1, rest); }
    else if c == '>' { NamedDecodes(2, rest); }
    else if c == '\"' { NamedDecodes(3, rest); }
    else if c == '\'' { NamedDecodes(4, rest); }
    else if c as int < 32 { ControlDecodes(c, rest); }
    else { assert ([c] + rest)[1..] == rest; }
  }

  /** A character that markup is made of. */
  predicate Markup(c: char) {
    c == '<' || c == '>' || c == '\"' || c == '\''
  }

  lemma CharIsSafe(c: char)
    ensures EncodeChar(c) != ""
    ensures forall x | x in EncodeChar(c) :: !Markup(x) && x as int >= 32
    ensures IsWhiteSpace(EncodeChar(c)[0]) <==> c == ' '
  {
    if c as int < 32 {
      var high, low := c as int / 16, c as int % 16;
      assert EncodeChar(c) == ['&', '#', 'x', HexDigit(high), HexDigit(low), ';'];
      HexDigitIsSafe(high);
      HexDigitIsSafe(low);
    }
  }

  lemma HexDigitIsSafe(n: int)
    requires 0 <= n < 16
    ensures !Markup(HexDigit(n)) && HexDigit(n) as int >= 32
  {
  }

  // -------------------------------------------------------------- texts and values

  lemma EncodeFirst(v: string)
    requires v != "" && !(HEX_PREFIX <= v)
    ensures Encode(v) == EncodeChar(v[0]) + Encode(v[1..])
  {
  }

  lemma HexInTail(v: string)
    requires v != "" && !(HEX_PREFIX <= v)
    ensures NoHex(v) <==> NoHex(v[1..])
  {
    assert v[0..] == v;
    assert forall i | 0 <= i <= |v[1..]| :: v[1..][i..] == v[i + 1..];
    assert forall i | 1 <= i <= |v| :: v[i..] == v[1..][i - 1..];
  }

  lemma NoHexTail(v: string)
    requires NoHex(v) && v != ""
    ensures !(HEX_PREFIX <= v)
    ensures NoHex(v[1..]) && Encode(v) == EncodeChar(v[0]) + Encode(v[1..])
  {
    assert v[0..] == v;
    HexInTail(v);
  }

  /** Escaped output holds no quote, no angle bracket and no control character. */
  lemma {:induction false} EncodedIsSafe(v: string)
    requires NoHex(v)
    ensures forall x | x in Encode(v) :: !Markup(x) && x as int >= 32
    ensures v != "" ==> Encode(v) != "" && (IsWhiteSpace(Encode(v)[0]) <==> v[0] == ' ')
    ensures v == "" ==> Encode(v) == ""
    decreases |v|
  {
    if v != "" {
      NoHexTail(v);
      CharIsSafe(v[0]);
      EncodedIsSafe(v[1..]);
    }
  }

  lemma CharsDecode(v: string, rest: string)
    requires v != "" && !(HEX_PREFIX <= v)
    ensures Encode(v) + rest != "" && !Markup((Encode(v) + rest)[0])
    ensures IsWhiteSpace((Encode(v) + rest)[0]) <==> v[0] == ' '
    ensures GetChar(Encode(v) + rest) == (At(Encode(v[1..]) + rest), [v[0]])
  {
    hide Encode, EncodeChar, GetChar, Markup, IsWhiteSpace;
    EncodeFirst(v);
    CharIsSafe(v[0]);
    CharDecodes(v[0], Encode(v[1..]) + rest);
    assert (EncodeChar(v[0]) + (Encode(v[1..]) + rest))[0] == EncodeChar(v[0])[0];
    assert Encode(v) + rest == EncodeChar(v[0]) + (Encode(v[1..]) + rest);
  }

  /** Keeping white space, reading an escaped value returns the value. */
  lemma {:induction false} KeepDecodes(v: string, end: string, endTag: string)
    requires NoHex(v) && endTag != "" && Markup(endTag[0])
    requires StringEqual(end, endTag)
    ensures Keep(At(Encode(v) + end), endTag) == (At(end), v)
    decreases |v|
  {
    hide Encode, GetChar, NoHex, Markup;
    var p := Encode(v) + end;
    if v == "" {
      EncodedNothing();
      assert p == end;
    } else {
      NoHexTail(v);
      CharsDecode(v, end);
      KeepDecodes(v[1..], end, endTag);
      assert v == [v[0]] + v[1..];
      assert p[0] != endTag[0];
    }
  }

  lemma EncodedNothing()
    ensures Encode("") == ""
  {
  }

  /** The escape law: a value written by `TiXmlAttribute::Print` between the quotes it
      chose is read back exactly, and reading stops just past the closing quote. */
  lemma ValueRoundTrip(v: string, quote: char, rest: string)
    requires NoHex(v) && (quote == '\"' || quote == '\'') && rest != ""
    ensures ReadText(At(Encode(v) + [quote] + rest), false, [quote]) == (At(rest), v)
  {
    var end := [quote] + rest;
    assert Encode(v) + [quote] + rest == Encode(v) + end;
    assert [quote] <= end && end[1..] == rest;
    KeepDecodes(v, end, [quote]);
  }

  /** A text that survives condensing: single spaces only, and none at the end. */
  ghost predicate Tidy(v: string) {
    forall i | 0 <= i < |v| && v[i] == ' ' :: i + 1 < |v| && v[i + 1] != ' '
  }

  ghost predicate AllWhite(w: string) {
    forall i | 0 <= i < |w| :: IsWhiteSpace(w[i])
  }

  lemma {:induction false} CondenseWhite(w: string, end: string, blank: bool, endTag: string)
    requires AllWhite(w) && endTag != "" && Markup(endTag[0]) && StringEqual(end, endTag)
    ensures Condense(At(w + end), blank, endTag) == (At(end), "")
    decreases |w|
  {
    if w == "" {
      assert w + end == end;
    } else {
      assert (w + end)[1..] == w[1..] + end && (w + end)[0] == w[0];
      CondenseWhite(w[1..], end, true, endTag);
    }
  }

  /** `v` behind the space that a passed run of white space becomes. */
  function Spaced(blank: bool, v: string): string {
    if blank then " " + v else v
  }

  /** Condensing white space, reading an escaped tidy text returns the text. */
  lemma {:induction false} CondenseDecodes(v: string, blank: bool, w: string, end: string, endTag: string)
    requires NoHex(v) && Tidy(v) && AllWhite(w)
    requires endTag != "" && Markup(endTag[0]) && StringEqual(end, endTag)
    requires blank ==> v != "" && v[0] != ' '
    ensures Condense(At(Encode(v) + (w + end)), blank, endTag) == (At(end), Spaced(blank, v))
    decreases |v|
  {
    hide Encode, EncodeChar, GetChar, Markup, Condense, StringEqual, AllWhite, Tidy, IsWhiteSpace;
    var rest := w + end;
    if v == "" {
      EncodedIsSafe(v);
      assert Encode(v) + rest == rest;
      CondenseWhite(w, end, blank, endTag);
    } else {
      NoHexTail(v);
      CharsDecode(v, rest);
      TidyTail(v);
      if v[0] == ' ' {
        CondenseSpace(v[1..], blank, rest, endTag);
        CondenseDecodes(v[1..], true, w, end, endTag);
        assert " " + v[1..] == v;
      } else {
        CondenseStep(Encode(v) + rest, blank, endTag, At(Encode(v[1..]) + rest), [v[0]]);
        CondenseDecodes(v[1..], false, w, end, endTag);
        assert (if blank then " " else "") + [v[0]] + v[1..] == Spaced(blank, v);
      }
    }
  }

  lemma TidyTail(v: string)
    requires Tidy(v) && v != ""
    ensures Tidy(v[1..])
    ensures v[0] == ' ' ==> v[1..] != "" && v[1] != ' '
  {
  }

  lemma CondenseStep(p: string, blank: bool, endTag: string, next: Ptr, c: string)
    requires p != "" && !Markup(p[0]) && !IsWhiteSpace(p[0]) && GetChar(p) == (next, c)
    requires endTag != "" && Markup(endTag[0])
    ensures Condense(At(p), blank, endTag) ==
            (Condense(next, false, endTag).0, (if blank then " " else "") + c + Condense(next, false, endTag).1)
  {
    hide GetChar;
    assert !StringEqual(p, endTag);
  }

  lemma CondenseSpace(v: string, blank: bool, rest: string, endTag: string)
    requires endTag != "" && Markup(endTag[0])
    ensures Condense(At(EncodeChar(' ') + Encode(v) + rest), blank, endTag) ==
            Condense(At(Encode(v) + rest), true, endTag)
  {
    var p := EncodeChar(' ') + Encode(v) + rest;
    assert p == " " + (Encode(v) + rest);
    assert p[1..] == Encode(v) + rest && p[0] == ' ';
  }

  // ------------------------------------------------------- when the escape law fails

  lemma {:induction false} FirstSemicolon(p: string, i: nat, k: nat)
    requires i <= k <= |p| && forall j | i <= j < k :: p[j] != ';'
    ensures IndexOf(p, ';', i) >= k
    ensures k < |p| && p[k] == ';' ==> IndexOf(p, ';', i) == k
    decreases k - i
  {
    if i < k {
      FirstSemicolon(p, i + 1, k);
    }
  }

  lemma {:induction false} PassStops(v: string, n: nat)
    requires 0 < n < |v|
    ensures var m := PassLength(v, n);
            (forall j | n <= j < m :: v[j] != ';') && (m == |v| - 1 || v[m] == ';')
    decreases |v| - n
  {
    if n < |v| - 1 && v[n] != ';' {
      PassStops(v, n + 1);
    }
  }

  /** A passed-through reference that ends in a semicolon is read as one character, or fails. */
  lemma ReferenceReads(v: string, n: nat, end: string)
    requires HEX_PREFIX <= v && 3 <= n < |v| && v[n] == ';' && forall j | 3 <= j < n :: v[j] != ';'
    ensures var r := GetChar(v[..n] + (";" + end));
            |r.1| <= 1 && (r.0.At? ==> r.0.rest == end)
  {
    var p := v[..n] + (";" + end);
    assert p[0] == v[0] == '&' && p[1] == v[1] == '#' && p[2] == v[2] == 'x';
    assert forall j | 3 <= j < n :: p[j] == v[j];
    FirstSemicolon(p, 3, n);
    assert p[n + 1..] == end;
  }

  /** One without a semicolon, whose last character `c` is escaped behind it: reading it
      fails, takes it for one character, or runs past the end of the value. */
  lemma OpenReferenceReads(u: string, c: char, end: string)
    requires HEX_PREFIX <= u + [c] && |u| >= 2 && c != ';' && forall j | 3 <= j < |u| :: u[j] != ';'
    requires end != ""
    ensures var r := GetChar(u + (EncodeChar(c) + end));
            |r.1| <= 1 && (r.0.At? ==> r.0.rest == end || |r.0.rest| < |end|)
  {
    var v, e := u + [c], EncodeChar(c);
    var p := u + (e + end);
    assert v[0] == '&' && v[1] == '#' && v[2] == 'x';
    assert p[0] == v[0] && p[1] == v[1];
    if |u| == 2 {
      assert c == 'x' && e == [c];
    }
    assert p[2] == 'x';
    assert forall j | 3 <= j < |u| :: p[j] == u[j];
    if e == [c] {
      assert p[|u|] == c;
      FirstSemicolon(p, 3, |u| + 1);
    } else {
      var k := |u| + |e| - 1;
      EscapeEnds(c);
      assert forall j | |u| <= j <= k :: p[j] == e[j - |u|];
      FirstSemicolon(p, 3, k);
      assert p[k + 1..] == end;
      if |e| == 6 && c as int < 32 {
      } else {
        assert p[k - 1] == e[|e| - 2];
        assert Backwards(p, k - 1, 'x', 16, 1, 0) == -1;
      }
    }
  }

  lemma EscapeEnds(c: char)
    requires EncodeChar(c) != [c]
    ensures var e := EncodeChar(c);
            && |e| >= 4 && e[|e| - 1] == ';' && (forall j | 0 <= j < |e| - 1 :: e[j] != ';')
            && (c as int >= 32 ==> Digit(e[|e| - 2], 16) == -1 && e[|e| - 2] != 'x')
            && (c as int < 32 ==> |e| == 6)
  {
    if c as int < 32 {
      HexDigits(c as int / 16);
      HexDigits(c as int % 16);
    }
  }

  /** However `v` was escaped, reading it back never makes it longer, and makes it
      shorter wherever a reference was passed through. */
  ghost predicate NotLonger(v: string, end: string, endTag: string) {
    var r := Keep(At(Encode(v) + end), endTag);
    r.0 == At(end) ==> |r.1| <= |v| && (!NoHex(v) ==> |r.1| < |v|)
  }

  lemma KeepStep(p: string, endTag: string)
    requires p != "" && endTag != "" && p[0] != endTag[0]
    ensures Keep(At(p), endTag).0 == Keep(GetChar(p).0, endTag).0
    ensures |Keep(At(p), endTag).1| == |GetChar(p).1| + |Keep(GetChar(p).0, endTag).1|
  {
    hide GetChar;
  }

  lemma {:induction false} ReadingNotLonger(v: string, end: string, endTag: string)
    requires endTag != "" && Markup(endTag[0]) && StringEqual(end, endTag)
    ensures NotLonger(v, end, endTag)
    decreases |v|
  {
    hide NoHex, Encode, GetChar;
    if v == "" {
      EmptyNotLonger(end, endTag);
    } else if HEX_PREFIX <= v {
      PassStops(v, 1);
      var n := PassLength(v, 1);
      if v[n] == ';' {
        ReadingNotLonger(v[n + 1..], end, endTag);
        PassedNotLonger(v, n, end, endTag);
      } else {
        OpenNotLonger(v, end, endTag);
      }
    } else {
      ReadingNotLonger(v[1..], end, endTag);
      CharsDecode(v, end);
      HexInTail(v);
      KeepStep(Encode(v) + end, endTag);
    }
  }

  lemma EmptyNotLonger(end: string, endTag: string)
    requires StringEqual(end, endTag)
    ensures NotLonger("", end, endTag)
  {
    assert Encode("") + end == end;
    assert NoHex("") by {
      assert |HEX_PREFIX| == 3;
    }
  }

  lemma EncodeReference(v: string)
    requires v != "" && HEX_PREFIX <= v
    ensures Encode(v) == v[..PassLength(v, 1)] + Encode(v[PassLength(v, 1)..])
    ensures |v| >= 3
  {
  }

  lemma EncodeFirstOf(v: string, c: char)
    requires v != "" && v[0] == c && c != '&'
    ensures Encode(v) == EncodeChar(c) + Encode(v[1..])
  {
    assert HEX_PREFIX[0] == '&';
  }

  lemma PassedNotLonger(v: string, n: nat, end: string, endTag: string)
    requires endTag != "" && Markup(endTag[0]) && StringEqual(end, endTag)
    requires HEX_PREFIX <= v && n == PassLength(v, 1) < |v| && v[n] == ';'
    requires forall j | 1 <= j < n :: v[j] != ';'
    requires NotLonger(v[n + 1..], end, endTag)
    ensures NotLonger(v, end, endTag)
  {
    assert v[0] == HEX_PREFIX[0] && v[1] == HEX_PREFIX[1] && v[2] == HEX_PREFIX[2];
    var more := Encode(v[n + 1..]) + end;
    var p := v[..n] + (";" + more);
    assert p[0] == v[0];
    PassedText(v, n, end);
    ReferenceReads(v, n, more);
    hide NoHex, Encode, GetChar, PassLength;
    KeepStep(p, endTag);
  }

  lemma SemicolonIsPlain()
    ensures EncodeChar(';') == ";"
  {
  }

  lemma PassedText(v: string, n: nat, end: string)
    requires HEX_PREFIX <= v && n == PassLength(v, 1) < |v| && v[n] == ';'
    ensures Encode(v) + end == v[..n] + (";" + (Encode(v[n + 1..]) + end))
  {
    hide *;
    EncodeReference(v);
    assert v[n..][1..] == v[n + 1..];
    EncodeFirstOf(v[n..], ';');
    SemicolonIsPlain();
    Regroup(v[..n], ";" + Encode(v[n + 1..]), end);
    Regroup(";", Encode(v[n + 1..]), end);
  }

  lemma OpenNotLonger(v: string, end: string, endTag: string)
    requires endTag != "" && Markup(endTag[0]) && StringEqual(end, endTag)
    requires HEX_PREFIX <= v && PassLength(v, 1) == |v| - 1 && v[|v| - 1] != ';'
    requires forall j | 1 <= j < |v| - 1 :: v[j] != ';'
    ensures NotLonger(v, end, endTag)
  {
    hide NotLonger, Keep, Encode, EncodeChar, GetChar, PassLength, NoHex;
    var u, c := v[..|v| - 1], v[|v| - 1];
    LastCharacter(v);
    HexFirst(v, u);
    var p := u + (EncodeChar(c) + end);
    OpenText(v, u, c, end);
    OpenReferenceReads(u, c, end);
    assert p[0] == u[0] && p[0] != endTag[0];
    OneCharAtMost(p, end, endTag);
    OneIsNotLonger(v, p, end, endTag);
  }

  lemma HexFirst(v: string, u: string)
    requires HEX_PREFIX <= v && u == v[..|v| - 1]
    ensures |u| >= 2 && u[0] == '&'
  {
    assert |HEX_PREFIX| == 3 && v[0] == HEX_PREFIX[0];
  }

  lemma OneIsNotLonger(v: string, p: string, end: string, endTag: string)
    requires Encode(v) + end == p && |v| >= 2
    requires Keep(At(p), endTag).0 == At(end) ==> |Keep(At(p), endTag).1| <= 1
    ensures NotLonger(v, end, endTag)
  {
    hide Keep, Encode, NoHex;
  }

  lemma OneCharAtMost(p: string, end: string, endTag: string)
    requires p != "" && endTag != "" && p[0] != endTag[0] && StringEqual(end, endTag)
    requires |GetChar(p).1| <= 1
    requires GetChar(p).0.At? ==> GetChar(p).0.rest == end || |GetChar(p).0.rest| < |end|
    ensures Keep(At(p), endTag).0 == At(end) ==> |Keep(At(p), endTag).1| <= 1
  {
    hide GetChar;
    KeepStep(p, endTag);
    assert Keep(At(end), endTag) == (At(end), "");
  }

  lemma LastCharacter(v: string)
    requires v != ""
    ensures v == v[..|v| - 1] + [v[|v| - 1]]
  {
  }

  lemma OpenText(v: string, u: string, c: char, end: string)
    requires HEX_PREFIX <= v && PassLength(v, 1) == |v| - 1 && v == u + [c]
    ensures Encode(v) + end == u + (EncodeChar(c) + end)
  {
    EncodeReference(v);
    hide Encode, EncodeChar;
    assert v[..|v| - 1] == u && v[|v| - 1..] == [c];
    EncodeOne(c);
    Regroup(u, EncodeChar(c), end);
  }

  lemma EncodeOne(c: char)
    ensures Encode([c]) == EncodeChar(c)
  {
    assert |HEX_PREFIX| == 3;
    assert [c][1..] == "";
    assert Encode("") == "";
    assert EncodeChar(c) + "" == EncodeChar(c);
  }

  /** The escape law holds of a value exactly when it holds no hexadecimal reference:
      those are passed through unescaped. */
  lemma EscapeLaw(v: string, quote: char, rest: string)
    requires (quote == '\"' || quote == '\'') && rest != ""
    ensures ReadText(At(Encode(v) + [quote] + rest), false, [quote]) == (At(rest), v) <==> NoHex(v)
  {
    hide NoHex, Encode;
    var end := [quote] + rest;
    assert Encode(v) + [quote] + rest == Encode(v) + end;
    if NoHex(v) {
      ValueRoundTrip(v, quote, rest);
    } else {
      assert [quote] <= end;
      ReadingNotLonger(v, end, [quote]);
      var r := Keep(At(Encode(v) + end), [quote]);
      if PastTag(r.0, [quote]) == At(rest) {
        assert r.0.rest[..1] == [quote] && r.0.rest[1..] == rest;
        assert r.0.rest == end;
      }
    }
  }
}
