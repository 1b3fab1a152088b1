/** What the escaper writes for every text: the characters one by one, but for what begins
    like a hexadecimal reference, which is passed through. */
module XmlEscapes {
  import opened Basics
  import opened XmlText
  import opened XmlTextProofs
  import opened XmlReferences

  /** A character with a name is written as the reference of that name. */
  lemma NamedIsEscaped(i: nat)
    requires i < 5
    ensures Encode([ENTITIES[i].1]) == ENTITIES[i].0
  {
    EncodeOne(ENTITIES[i].1);
  }

  /** Any other control character is written as the two upper-case digits of its number, and
      any character from the space on as it is. */
  lemma UnnamedIsEscaped(c: char)
    requires forall i | 0 <= i < 5 :: c != ENTITIES[i].1
    ensures c as int >= 32 ==> Encode([c]) == [c]
    ensures c as int < 32 ==>
              exists d: string ::
                && |d| == 2 && d[0] in UPPER_DIGITS && d[1] in UPPER_DIGITS
                && AllDigits(d, 16) && Number(d, 16) == c as nat && Encode([c]) == "&#x" + d + ";"
  {
    hide *;
    EncodeOne(c);
    Unnamed(c);
    if c as int < 32 {
      var high, low := c as int / 16, c as int % 16;
      var d := [HexDigit(high), HexDigit(low)];
      UpperDigit(high);
      UpperDigit(low);
      TwoDigits(d, high, low);
      assert Encode([c]) == "&#x" + d + ";";
    }
  }

  lemma Unnamed(c: char)
    requires forall i | 0 <= i < 5 :: c != ENTITIES[i].1
    ensures EncodeChar(c) ==
            if c as int < 32 then ['&', '#', 'x', HexDigit(c as int / 16), HexDigit(c as int % 16), ';'] else [c]
  {
    hide HexDigit;
    assert c != ENTITIES[0].1 && c != ENTITIES[1].1 && c != ENTITIES[2].1 && c != ENTITIES[3].1 && c != ENTITIES[4].1;
  }

  lemma UpperDigit(n: nat)
    requires n < 16
    ensures HexDigit(n) in UPPER_DIGITS && Stands(HexDigit(n), n, 16)
  {
  }

  lemma OneStands(c: char, n: nat, m: nat)
    requires Stands(c, n, 16) && Stands(c, m, 16)
    ensures n == m
  {
    StandsForDigit(c, n, 16);
    StandsForDigit(c, m, 16);
    hide *;
  }

  lemma TwoDigits(d: string, high: nat, low: nat)
    requires |d| == 2 && Stands(d[0], high, 16) && Stands(d[1], low, 16)
    ensures AllDigits(d, 16) && Number(d, 16) == high * 16 + low
  {
    assert IsDigit(d[0], 16) && IsDigit(d[1], 16);
    OneStands(d[0], high, Worth(d[0], 16));
    OneStands(d[1], low, Worth(d[1], 16));
    assert d[..1][..0] == "" && d[..1][0] == d[0];
    hide Stands, IsDigit;
    assert Number(d[..1], 16) == Number("", 16) * 16 + high;
    assert d[..|d| - 1] == d[..1];
  }

  /** Texts are escaped one after the other, as long as no hexadecimal reference begins in
      the first. */
  lemma {:induction false} EscapesJoin(v: string, w: string)
    requires forall i | 0 <= i < |v| :: !(HEX_PREFIX <= (v + w)[i..])
    ensures Encode(v + w) == Encode(v) + Encode(w)
  {
    hide *;
    if v == "" {
      EncodedNothing();
      assert v + w == w;
    } else {
      var x := v + w;
      assert x[0..] == x && x[1..] == v[1..] + w && x[0] == v[0];
      forall i | 0 <= i < |v[1..]|
        ensures !(HEX_PREFIX <= (v[1..] + w)[i..])
      {
        assert x[i + 1..] == (v[1..] + w)[i..];
      }
      EscapesJoin(v[1..], w);
      HexOfPart(v, w);
      EncodeFirst(v);
      EncodeFirst(x);
      Regroup(EncodeChar(v[0]), Encode(v[1..]), Encode(w));
    }
  }

  lemma HexOfPart(v: string, w: string)
    requires !(HEX_PREFIX <= v + w)
    ensures !(HEX_PREFIX <= v)
  {
  }

  /** Whatever stands between the beginning of a hexadecimal reference and the next semicolon
      is passed through. */
  lemma ReferencePasses(d: string, rest: string)
    requires ';' !in d
    ensures Encode("&#x" + d + ";" + rest) == "&#x" + d + ";" + Encode(rest)
  {
    hide *;
    var u := "&#x" + d;
    var v := u + (";" + rest);
    PrefixBegins(d);
    assert "&#x" + d + ";" + rest == v;
    Passes(u, v, |u|);
    assert v[|u|..] == ";" + rest && v[|u|..][1..] == rest;
    EncodeFirstOf(v[|u|..], ';');
    SemicolonIsPlain();
    Regroup(u, ";", Encode(rest));
  }

  /** Without a semicolon all but the last character is. */
  lemma OpenReferencePasses(d: string, c: char)
    requires ';' !in d
    ensures Encode("&#x" + d + [c]) == "&#x" + d + Encode([c])
  {
    hide *;
    var u := "&#x" + d;
    PrefixBegins(d);
    Passes(u, u + [c], |u|);
    assert (u + [c])[|u|..] == [c];
  }

  lemma PrefixBegins(d: string)
    ensures HEX_PREFIX <= "&#x" + d
    ensures ';' !in d ==> ';' !in "&#x" + d
  {
  }

  lemma Passes(u: string, v: string, n: nat)
    requires |u| == n >= 3 && HEX_PREFIX <= u && ';' !in u && n < |v| && v[..n] == u
    requires n == |v| - 1 || v[n] == ';'
    ensures Encode(v) == u + Encode(v[n..])
  {
    hide *;
    assert HEX_PREFIX <= v by {
      assert v[..n] <= v;
    }
    forall j | 1 <= j < n
      ensures v[j] != ';'
    {
      assert v[j] == v[..n][j] && u[j] in u;
    }
    StopsFirst(v, 1, n);
    EncodeReference(v);
  }

  lemma {:induction false} StopsFirst(v: string, i: nat, n: nat)
    requires 0 < i <= n < |v| && (n == |v| - 1 || v[n] == ';') && forall j | i <= j < n :: v[j] != ';'
    ensures PassLength(v, i) == n
    decreases n - i
  {
    if i < n {
      StopsFirst(v, i + 1, n);
    }
  }

  /** So is the beginning of a hexadecimal reference alone. */
  lemma PrefixPasses()
    ensures Encode("&#x") == "&#x"
  {
    StopsFirst("&#x", 1, 2);
    assert "&#x"[..2] == "&#" && "&#x"[2..] == "x" && HEX_PREFIX <= "&#x";
    EncodeReference("&#x");
    EncodeOne('x');
    hide Encode;
  }
}
