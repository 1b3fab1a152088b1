/** `Base64Helper`: an encoder, and a decoder that passes over every character outside the
    alphabet (section 6.8 of RFC 2045). */
module Base64Helper {
  import opened Base64

  // -------------------------------------------------------------------- the encoder

  lemma Append4(out: string, a: char, b: char, c: char, d: char, rest: string)
    ensures out + [a] + [b] + [c] + [d] + rest == out + ([a, b, c, d] + rest)
    ensures out + [a] + [b] + [c] + "=" == out + [a, b, c, '=']
    ensures out + [a] + [b] + "==" == out + [a, b, '=', '=']
  {
  }

  method Encode(input: seq<byte>) returns (out: string)
    ensures |ALPHABET| == 64 && out == Encoded(ALPHABET, input)
  {
    hide *;
    AlphabetSize();
    ShortEncodings(ALPHABET, 0, 0);
    out := "";
    var i := 0;
    assert input[0..] == input && "" + Encoded(ALPHABET, input) == Encoded(ALPHABET, input);
    while i < |input|
      invariant 0 <= i <= |input|
      invariant out + Encoded(ALPHABET, input[i..]) == Encoded(ALPHABET, input)
    {
      EncodedStep(ALPHABET, input, i);
      ghost var rest := if i + 3 <= |input| then Encoded(ALPHABET, input[i + 3..]) else "";
      var c1 := input[i];
      i := i + 1;
      if i == |input| {
        QuadIs(ALPHABET, c1, 0, 0);
        ShortEncodings(ALPHABET, c1, c1);
        Append4(out, ALPHABET[Bits0(c1)], ALPHABET[Bits1(c1, 0)], '=', '=', rest);
        out := out + [ALPHABET[Bits0(c1)]];
        out := out + [ALPHABET[Bits1(c1, 0)]];
        out := out + "==";
        return;
      }
      var c2 := input[i];
      i := i + 1;
      if i == |input| {
        QuadIs(ALPHABET, c1, c2, 0);
        ShortEncodings(ALPHABET, c1, c2);
        Append4(out, ALPHABET[Bits0(c1)], ALPHABET[Bits1(c1, c2)], ALPHABET[Bits2(c2, 0)], '=', rest);
        out := out + [ALPHABET[Bits0(c1)]];
        out := out + [ALPHABET[Bits1(c1, c2)]];
        out := out + [ALPHABET[Bits2(c2, 0)]];
        out := out + "=";
        return;
      }
      var c3 := input[i];
      i := i + 1;
      QuadIs(ALPHABET, c1, c2, c3);
      Append4(out, ALPHABET[Bits0(c1)], ALPHABET[Bits1(c1, c2)], ALPHABET[Bits2(c2, c3)], ALPHABET[Bits3(c3)], rest);
      out := out + [ALPHABET[Bits0(c1)]];
      out := out + [ALPHABET[Bits1(c1, c2)]];
      out := out + [ALPHABET[Bits2(c2, c3)]];
      out := out + [ALPHABET[Bits3(c3)]];
    }
    assert input[i..] == [] && out + "" == out;
  }

  // -------------------------------------------------------------------- the decoder

  /** The decode table: one entry for each ASCII character. */
  const TABLE: seq<int> :=
    NONE + NONE
    + [-1, -1, -1, -1, -1, -1, -1, -1, -1, -1, -1, 62, -1, -1, -1, 63]
    + [52, 53, 54, 55, 56, 57, 58, 59, 60, 61, -1, -1, -1, -1, -1, -1]
    + ([-1, 0, 1, 2, 3, 4, 5, 6, 7, 8, 9, 10, 11, 12, 13, 14]
       + [15, 16, 17, 18, 19, 20, 21, 22, 23, 24, 25, -1, -1, -1, -1, -1]
       + [-1, 26, 27, 28, 29, 30, 31, 32, 33, 34, 35, 36, 37, 38, 39, 40]
       + [41, 42, 43, 44, 45, 46, 47, 48, 49, 50, 51, -1, -1, -1, -1, -1])

  const NONE: seq<int> := [-1, -1, -1, -1, -1, -1, -1, -1, -1, -1, -1, -1, -1, -1, -1, -1]

  lemma Controls(i: int)
    requires 0 <= i < 32
    ensures |TABLE| == 128 && TABLE[i] == Value(i as char)
  {
  }

  lemma LowHalf(i: int)
    requires 32 <= i < 64
    ensures |TABLE| == 128 && TABLE[i] == Value(i as char)
  {
  }

  lemma CapitalsToO(i: int)
    requires 64 <= i < 80
    ensures |TABLE| == 128 && TABLE[i] == Value(i as char)
  {
  }

  lemma CapitalsFromP(i: int)
    requires 80 <= i < 96
    ensures |TABLE| == 128 && TABLE[i] == Value(i as char)
  {
  }

  lemma LettersToO(i: int)
    requires 96 <= i < 112
    ensures |TABLE| == 128 && TABLE[i] == Value(i as char)
  {
  }

  lemma LettersFromP(i: int)
    requires 112 <= i < 128
    ensures |TABLE| == 128 && TABLE[i] == Value(i as char)
  {
  }

  /** The table inverts the alphabet. */
  lemma TableIsValue(c: char)
    requires c as int < 128
    ensures |TABLE| == 128 && TABLE[c as int] == Value(c)
  {
    hide TABLE, Value;
    if c as int < 32 {
      Controls(c as int);
    } else if c as int < 64 {
      LowHalf(c as int);
    } else if c as int < 80 {
      CapitalsToO(c as int);
    } else if c as int < 96 {
      CapitalsFromP(c as int);
    } else if c as int < 112 {
      LettersToO(c as int);
    } else {
      LettersFromP(c as int);
    }
  }

  predicate Ascii(s: string) {
    forall i | 0 <= i < |s| :: s[i] as int < 128
  }

  /** From the first symbol on; nothing if there is none. */
  function Skip(s: string): (r: string)
    ensures |r| <= |s| && (r != "" ==> IsSymbol(r[0]))
  {
    if s != "" && !IsSymbol(s[0]) then Skip(s[1..]) else s
  }

  /** From the first symbol or padding character on. */
  function SkipTo(s: string): (r: string)
    ensures |r| <= |s| && (r != "" ==> IsSymbol(r[0]) || r[0] == '=')
  {
    if s != "" && !IsSymbol(s[0]) && s[0] != '=' then SkipTo(s[1..]) else s
  }

  /** The bytes of a text: groups of four symbols with anything between them, until the
      text ends or a padding character stands where the third or fourth symbol should. */
  function Loose(s: string): seq<byte>
    decreases |s|
  {
    var a := Skip(s);
    if a == "" then [] else
      var b := Skip(a[1..]);
      if b == "" then [] else
        [First(Value(a[0]), Value(b[0]))] + LooseThird(Value(b[0]), b[1..])
  }

  /** Continues with the third symbol, `v` being the second. */
  function LooseThird(v: int, s: string): seq<byte>
    requires 0 <= v < 64
    decreases |s|
  {
    var c := SkipTo(s);
    if c == "" || c[0] == '=' then [] else
      [Second(v, Value(c[0]))] + LooseFourth(Value(c[0]), c[1..])
  }

  function LooseFourth(v: int, s: string): seq<byte>
    requires 0 <= v < 64
    decreases |s|
  {
    var d := SkipTo(s);
    if d == "" || d[0] == '=' then [] else [Third(v, Value(d[0]))] + Loose(d[1..])
  }

  /** The character at `i`, NUL at the end. */
  function CharAt(s: string, i: nat): (c: char)
    requires Ascii(s)
    ensures c as int < 128
  {
    if i < |s| then s[i] else 0 as char
  }

  lemma NulIsNoSymbol()
    ensures Value(0 as char) == -1
  {
  }

  lemma SkipAt(s: string, j: nat)
    requires Ascii(s) && j <= |s|
    ensures j == |s| ==> Skip(s[j..]) == ""
    ensures j < |s| ==> Skip(s[j..]) == if Value(s[j]) != -1 then s[j..] else Skip(s[j + 1..])
    ensures j < |s| ==>
              s[j] as int < 128 && -1 <= Value(s[j]) < 64 && |TABLE| == 128 && TABLE[s[j] as int] == Value(s[j])
  {
    if j < |s| {
      TableIsValue(s[j]);
      hide TABLE, Value;
      assert s[j..][1..] == s[j + 1..];
    }
  }

  lemma SkipToAt(s: string, j: nat)
    requires Ascii(s) && j <= |s|
    ensures j == |s| ==> SkipTo(s[j..]) == ""
    ensures j < |s| ==> SkipTo(s[j..]) == if s[j] == '=' || Value(s[j]) != -1 then s[j..] else SkipTo(s[j + 1..])
    ensures j < |s| ==> s[j..] != "" && s[j..][0] == s[j]
    ensures j < |s| ==>
              s[j] as int < 128 && -1 <= Value(s[j]) < 64 && |TABLE| == 128 && TABLE[s[j] as int] == Value(s[j])
  {
    if j < |s| {
      TableIsValue(s[j]);
      hide TABLE, Value;
      assert s[j..][1..] == s[j + 1..];
    }
  }

  lemma NulInTable(s: string, i: nat)
    requires Ascii(s) && i <= |s|
    ensures |TABLE| == 128 && CharAt(s, i) == if i < |s| then s[i] else 0 as char
    ensures i == |s| ==> TABLE[CharAt(s, i) as int] == -1 && CharAt(s, i) != '='
  {
    TableIsValue(CharAt(s, i));
    NulIsNoSymbol();
    hide TABLE, Value;
  }

  /** The loops that read the first and the second symbol of a group. */
  method Next(s: string, i: nat) returns (c: int, j: nat)
    requires Ascii(s) && i <= |s|
    ensures -1 <= c < 64
    ensures c == -1 ==> Skip(s[i..]) == ""
    ensures c != -1 ==> i < j <= |s| && s[j - 1..] == Skip(s[i..]) && c == Value(s[j - 1])
  {
    hide *;
    NulInTable(s, i);
    SkipAt(s, i);
    c, j := TABLE[CharAt(s, i) as int], i + 1;
    while j < |s| && c == -1
      invariant i < j && -1 <= c < 64
      invariant c == -1 ==> Skip(s[i..]) == if j <= |s| then Skip(s[j..]) else ""
      invariant c != -1 ==> j <= |s| && s[j - 1..] == Skip(s[i..]) && c == Value(s[j - 1])
      decreases |s| - j
    {
      SkipAt(s, j);
      c, j := TABLE[s[j] as int], j + 1;
    }
    if j == |s| {
      SkipAt(s, j);
    }
  }

  /** The loops that read the third and the fourth symbol: they end at a padding character. */
  method NextOrPad(s: string, i: nat) returns (c: int, j: nat, pad: bool)
    requires Ascii(s) && i <= |s|
    ensures -1 <= c < 64
    ensures pad ==> SkipTo(s[i..]) != "" && SkipTo(s[i..])[0] == '='
    ensures !pad && c == -1 ==> SkipTo(s[i..]) == ""
    ensures !pad && c != -1 ==> i < j <= |s| && s[j - 1..] == SkipTo(s[i..]) && c == Value(s[j - 1]) && s[j - 1] != '='
  {
    hide *;
    NulInTable(s, i);
    SkipToAt(s, i);
    if CharAt(s, i) == '=' {
      return -1, i + 1, true;
    }
    c, j, pad := TABLE[CharAt(s, i) as int], i + 1, false;
    while j < |s| && c == -1
      invariant i < j && -1 <= c < 64
      invariant c == -1 ==> SkipTo(s[i..]) == if j <= |s| then SkipTo(s[j..]) else ""
      invariant c != -1 ==> j <= |s| && s[j - 1..] == SkipTo(s[i..]) && c == Value(s[j - 1]) && s[j - 1] != '='
      decreases |s| - j
    {
      SkipToAt(s, j);
      if s[j] == '=' {
        return -1, j + 1, true;
      }
      c, j := TABLE[s[j] as int], j + 1;
    }
    if j == |s| {
      SkipToAt(s, j);
    }
  }

  method Decode(s: string) returns (out: seq<byte>)
    requires Ascii(s)
    ensures out == Loose(s)
  {
    hide Value, First, Second, Third, Skip, SkipTo, IsSymbol;
    out := [];
    var i := 0;
    assert s[0..] == s && [] + Loose(s) == Loose(s);
    while i < |s|
      invariant 0 <= i <= |s| && out + Loose(s[i..]) == Loose(s)
      decreases |s| - i
    {
      ghost var was := out;
      var c1, c2, c3, c4, pad;
      ghost var from := i;
      c1, i := Next(s, i);
      if c1 == -1 {
        assert Loose(s[from..]) == [];
        return;
      }
      assert s[i - 1..][1..] == s[i..];
      c2, i := Next(s, i);
      if c2 == -1 {
        assert Loose(s[from..]) == [];
        return;
      }
      assert s[i - 1..][1..] == s[i..];
      ghost var third := LooseThird(c2, s[i..]);
      assert Loose(s[from..]) == [First(c1, c2)] + third;
      out := out + [First(c1, c2)];
      assert out + third == was + ([First(c1, c2)] + third);
      c3, i, pad := NextOrPad(s, i);
      if pad || c3 == -1 {
        assert out + [] == out;
        return;
      }
      assert s[i - 1..][1..] == s[i..];
      ghost var fourth := LooseFourth(c3, s[i..]);
      assert third == [Second(c2, c3)] + fourth;
      assert out + third == out + [Second(c2, c3)] + fourth;
      out := out + [Second(c2, c3)];
      c4, i, pad := NextOrPad(s, i);
      if pad || c4 == -1 {
        assert out + [] == out;
        return;
      }
      assert s[i - 1..][1..] == s[i..];
      assert out + fourth == out + [Third(c3, c4)] + Loose(s[i..]);
      out := out + [Third(c3, c4)];
    }
    assert s[i..] == "";
    assert out + [] == out;
    NothingDecoded();
  }

  lemma NothingDecoded()
    ensures Loose("") == []
  {
  }

  // --------------------------------------------------------------- noise is ignored

  predicate Matters(c: char) {
    IsSymbol(c) || c == '='
  }

  /** Everything outside the alphabet and the padding removed. */
  function Significant(s: string): (r: string)
    ensures |r| <= |s|
  {
    if s == "" then "" else if Matters(s[0]) then [s[0]] + Significant(s[1..]) else Significant(s[1..])
  }

  lemma SignificantCut(s: string)
    requires s != "" && Matters(s[0])
    ensures Significant(s) != "" && Significant(s)[0] == s[0] && Significant(s)[1..] == Significant(s[1..])
  {
  }

  lemma {:induction false} SkipSignificant(s: string)
    ensures Skip(Significant(s)) == Significant(Skip(s))
    ensures Skip(s) == "" <==> Significant(Skip(s)) == ""
  {
    PadIsNoSymbol();
    hide IsSymbol;
    if s != "" {
      SkipSignificant(s[1..]);
      if Matters(s[0]) {
        SignificantCut(s);
      }
    }
  }

  lemma {:induction false} SkipToSignificant(s: string)
    ensures SkipTo(Significant(s)) == Significant(SkipTo(s))
    ensures SkipTo(s) == "" <==> Significant(SkipTo(s)) == ""
  {
    hide IsSymbol;
    if s != "" {
      SkipToSignificant(s[1..]);
      if Matters(s[0]) {
        SignificantCut(s);
      }
    }
  }

  /** Decoding is unchanged when all characters outside the alphabet and `=` are removed. */
  lemma {:induction false} NoiseIsIgnored(s: string)
    ensures Loose(Significant(s)) == Loose(s)
    decreases |s|
  {
    hide First, Value;
    SkipSignificant(s);
    var a := Skip(s);
    if a != "" {
      SignificantCut(a);
      SkipSignificant(a[1..]);
      var b := Skip(a[1..]);
      if b != "" {
        SignificantCut(b);
        NoiseInThird(Value(b[0]), b[1..]);
      }
    }
  }

  lemma {:induction false} NoiseInThird(v: int, s: string)
    requires 0 <= v < 64
    ensures LooseThird(v, Significant(s)) == LooseThird(v, s)
    decreases |s|
  {
    hide Second, Value;
    SkipToSignificant(s);
    var c := SkipTo(s);
    if c != "" {
      SignificantCut(c);
      if c[0] != '=' {
        NoiseInFourth(Value(c[0]), c[1..]);
      }
    }
  }

  lemma {:induction false} NoiseInFourth(v: int, s: string)
    requires 0 <= v < 64
    ensures LooseFourth(v, Significant(s)) == LooseFourth(v, s)
    decreases |s|
  {
    hide Third, Value;
    SkipToSignificant(s);
    var d := SkipTo(s);
    if d != "" {
      SignificantCut(d);
      if d[0] != '=' {
        NoiseIsIgnored(d[1..]);
      }
    }
  }

  // ------------------------------------------------------- agreement and round trip

  lemma NothingSkipped(s: string)
    ensures s != "" && IsSymbol(s[0]) ==> Skip(s) == s
    ensures s != "" && Matters(s[0]) ==> SkipTo(s) == s
  {
  }

  lemma LooseFull(s: string)
    requires |s| >= 4 && IsSymbol(s[0]) && IsSymbol(s[1]) && IsSymbol(s[2]) && IsSymbol(s[3])
    ensures Loose(s) ==
            [First(Value(s[0]), Value(s[1])), Second(Value(s[1]), Value(s[2])), Third(Value(s[2]), Value(s[3]))]
                        + Loose(s[4..])
  {
    hide *;
    LooseHead(s);
    var r := s[2..];
    assert r[0] == s[2] && r[1] == s[3] && r[2..] == s[4..];
    SymbolMatters(s[1]);
    SymbolMatters(s[2]);
    SymbolMatters(s[3]);
    LooseTail(Value(s[1]), r);
    SymbolMatters(s[0]);
    ThreeBytes(First(Value(s[0]), Value(s[1])), Second(Value(s[1]), Value(s[2])), Third(Value(s[2]), Value(s[3])),
               Loose(s[4..]));
  }

  lemma ThreeBytes(a: byte, b: byte, c: byte, more: seq<byte>)
    ensures [a] + ([b, c] + more) == [a, b, c] + more
  {
  }

  lemma SymbolMatters(c: char)
    requires IsSymbol(c)
    ensures Matters(c) && c != '=' && 0 <= Value(c) < 64
  {
    PadIsNoSymbol();
    hide Value;
  }

  lemma LooseHead(s: string)
    requires |s| >= 2 && IsSymbol(s[0]) && IsSymbol(s[1])
    ensures Loose(s) == [First(Value(s[0]), Value(s[1]))] + LooseThird(Value(s[1]), s[2..])
  {
    NothingSkipped(s);
    NothingSkipped(s[1..]);
    assert s[1..][1..] == s[2..];
    hide Skip, Value, First, LooseThird;
  }

  lemma LooseTail(v: int, s: string)
    requires 0 <= v < 64 && |s| >= 2 && Matters(s[0]) && Matters(s[1])
    ensures s[0] == '=' ==> LooseThird(v, s) == []
    ensures s[0] != '=' && s[1] == '=' ==> LooseThird(v, s) == [Second(v, Value(s[0]))]
    ensures s[0] != '=' && s[1] != '=' ==>
              LooseThird(v, s) == [Second(v, Value(s[0])), Third(Value(s[0]), Value(s[1]))] + Loose(s[2..])
  {
    hide *;
    LooseStep(v, s);
    assert s[1..][1..] == s[2..];
    if s[0] != '=' {
      LooseStep(Value(s[0]), s[1..]);
    }
    if s[0] != '=' && s[1] != '=' {
      var x, y := Second(v, Value(s[0])), Third(Value(s[0]), Value(s[1]));
      assert [x] + ([y] + Loose(s[2..])) == [x, y] + Loose(s[2..]);
    }
  }

  /** With nothing to be skipped. */
  lemma LooseStep(v: int, s: string)
    requires 0 <= v < 64 && s != "" && Matters(s[0])
    ensures s[0] == '=' ==> LooseThird(v, s) == [] && LooseFourth(v, s) == []
    ensures s[0] != '=' ==> 0 <= Value(s[0]) < 64
    ensures s[0] != '=' ==> LooseThird(v, s) == [Second(v, Value(s[0]))] + LooseFourth(Value(s[0]), s[1..])
    ensures s[0] != '=' ==> LooseFourth(v, s) == [Third(v, Value(s[0]))] + Loose(s[1..])
  {
    NothingSkipped(s);
    hide SkipTo, Value, Second, Third, Loose;
  }

  /** Every text that the strict decoder accepts is decoded to the same bytes. */
  lemma {:induction false} AgreesWithStrict(s: string)
    requires WellFormed(s)
    ensures Symbols(s) && Loose(s) == Bytes(s)
    decreases |s|
  {
    WellFormedCut(s);
    PadIsNoSymbol();
    if |s| > 4 {
      AgreesWithStrict(s[4..]);
      FullCut(s);
      GroupOfFour(s[..4]);
      LooseFull(s);
      hide *;
    } else {
      OneGroup(s);
      LastGroup(s);
    }
  }

  lemma LastGroup(s: string)
    requires WellFormed(s) && |s| == 4
    ensures Symbols(s) && Loose(s) == Group(s)
  {
    WellFormedCut(s);
    PadIsNoSymbol();
    NothingDecoded();
    if Pads(s) == 0 {
      GroupOfFour(s);
      LooseFull(s);
    } else {
      LooseHead(s);
      LooseTail(Value(s[1]), s[2..]);
      if Pads(s) == 1 {
        GroupOfThree(s);
      } else {
        GroupOfTwo(s);
      }
    }
    hide Loose, LooseThird, Group, Value, First, Second, Third;
  }

  /** Decoding inverts encoding, for every byte string. */
  lemma RoundTrip(s: seq<byte>)
    ensures |ALPHABET| == 64 && Loose(Encoded(ALPHABET, s)) == s
  {
    AlphabetSize();
    if s == [] {
      NothingDecoded();
    } else {
      EncodedDecodes(s);
      AgreesWithStrict(Encoded(ALPHABET, s));
    }
  }

  // ------------------------------------------------------- texts that are not well-formed

  predicate AllSymbols(s: string) {
    forall i | 0 <= i < |s| :: IsSymbol(s[i])
  }

  /** The padding a text of symbols lacks, if it does not end within one symbol of a group. */
  function Missing(s: string): (pad: string)
    requires |s| % 4 != 1
    ensures (|s| + |pad|) % 4 == 0
  {
    if |s| % 4 == 0 then "" else if |s| % 4 == 2 then "==" else "="
  }

  /** Symbols without padding decode like those with it; one symbol too many is lost. */
  lemma {:induction false} PaddingIsOptional(s: string)
    requires AllSymbols(s)
    ensures |s| % 4 != 1 ==> Symbols(s + Missing(s)) && Loose(s) == Bytes(s + Missing(s))
    ensures |s| % 4 == 1 ==> Loose(s) == Loose(s[..|s| - 1])
    decreases |s|
  {
    hide *;
    AllAreSymbols(s);
    if |s| < 4 {
      ShortText(s);
    } else {
      PaddingIsOptional(s[4..]);
      LooseFull(s);
      if |s| % 4 == 1 {
        OneTooMany(s);
      } else {
        MissingRest(s);
        FullGroup4(s + Missing(s), s);
      }
    }
  }

  /** Leaving out the last of the symbols leaves the first group as it is. */
  lemma OneTooMany(s: string)
    requires |s| >= 5 && AllSymbols(s)
    ensures Loose(s[..|s| - 1]) ==
            [First(Value(s[0]), Value(s[1])), Second(Value(s[1]), Value(s[2])), Third(Value(s[2]), Value(s[3]))]
            + Loose(s[4..][..|s[4..]| - 1])
  {
    hide *;
    AllAreSymbols(s);
    var less := s[..|s| - 1];
    assert less[4..] == s[4..][..|s[4..]| - 1];
    assert less[0] == s[0] && less[1] == s[1] && less[2] == s[2] && less[3] == s[3];
    LooseFull(less);
  }

  lemma MissingRest(s: string)
    requires |s| >= 4 && |s| % 4 != 1
    ensures Missing(s[4..]) == Missing(s)
    ensures (s + Missing(s))[4..] == s[4..] + Missing(s) && (s + Missing(s))[..4] == s[..4]
  {
  }

  lemma FullGroup4(all: string, s: string)
    requires |s| >= 4 && |s| % 4 != 1 && |all| % 4 == 0 && |all| >= 4
    requires all[..4] == s[..4] && AllSymbols(s) && Symbols(all[4..])
    ensures Symbols(all)
    ensures Bytes(all) ==
            [First(Value(s[0]), Value(s[1])), Second(Value(s[1]), Value(s[2])), Third(Value(s[2]), Value(s[3]))]
            + Bytes(all[4..])
  {
    hide *;
    FirstFour(all, s);
    FirstGroup(all[..4], s);
    SymbolsJoin(all);
    BytesBegin(all);
  }

  lemma FirstGroup(q: string, s: string)
    requires |q| == 4 && |s| >= 4 && q == s[..4] && AllSymbols(s)
    ensures Symbols(q)
    ensures Group(q) ==
            [First(Value(s[0]), Value(s[1])), Second(Value(s[1]), Value(s[2])), Third(Value(s[2]), Value(s[3]))]
  {
    FirstFour(q, s);
    hide *;
    GroupOfFour(q);
  }

  lemma SymbolsJoin(all: string)
    requires |all| >= 4 && Symbols(all[..4]) && Symbols(all[4..])
    ensures Symbols(all)
  {
    hide IsSymbol;
    assert all == all[..4] + all[4..];
  }

  lemma BytesBegin(all: string)
    requires |all| >= 4 && |all| % 4 == 0 && Symbols(all) && Symbols(all[..4]) && Symbols(all[4..])
    ensures Bytes(all) == Group(all[..4]) + Bytes(all[4..])
  {
    hide Group, Symbols, IsSymbol;
  }

  lemma ShortText(s: string)
    requires AllSymbols(s) && |s| < 4
    ensures |s| % 4 != 1 ==> Symbols(s + Missing(s)) && Loose(s) == Bytes(s + Missing(s))
    ensures |s| % 4 == 1 ==> Loose(s) == Loose(s[..|s| - 1])
  {
    hide *;
    AllAreSymbols(s);
    if |s| != 1 {
      MissingIs(s);
    }
    if |s| == 0 {
      NothingDecoded();
      NothingEncoded();
      assert s == "";
    } else if |s| == 1 {
      NothingDecoded();
      assert s[..0] == "";
      OneSymbol(s);
    } else if |s| == 2 {
      TwoPadded(s);
    } else {
      ThreePadded(s);
    }
  }

  lemma AllAreSymbols(s: string)
    requires AllSymbols(s)
    ensures forall i | 0 <= i < |s| :: IsSymbol(s[i])
    ensures |s| >= 4 ==> AllSymbols(s[4..]) && AllSymbols(s[..|s| - 1])
  {
    hide IsSymbol;
  }

  lemma MissingIs(s: string)
    requires |s| < 4 && |s| % 4 != 1
    ensures |s| == 0 ==> s + Missing(s) == ""
    ensures |s| == 2 ==> Missing(s) == "=="
    ensures |s| == 3 ==> Missing(s) == "="
  {
  }

  lemma NothingEncoded()
    ensures Symbols("") && Bytes("") == []
  {
  }

  lemma TwoPadded(s: string)
    requires |s| == 2 && IsSymbol(s[0]) && IsSymbol(s[1])
    ensures Symbols(s + "==") && Loose(s) == Bytes(s + "==")
  {
    hide *;
    var q := s + "==";
    assert q[0] == s[0] && q[1] == s[1] && q[2] == '=' && q[3] == '=';
    TwoSymbols(s);
    GroupOfTwo(q);
    OneGroup(q);
  }

  lemma ThreePadded(s: string)
    requires |s| == 3 && IsSymbol(s[0]) && IsSymbol(s[1]) && IsSymbol(s[2])
    ensures Symbols(s + "=") && Loose(s) == Bytes(s + "=")
  {
    hide *;
    var q := s + "=";
    assert q[0] == s[0] && q[1] == s[1] && q[2] == s[2] && q[3] == '=';
    ThreeSymbols(s);
    GroupOfThree(q);
    OneGroup(q);
  }

  lemma OneSymbol(s: string)
    requires |s| == 1 && IsSymbol(s[0])
    ensures Loose(s) == []
  {
    NothingSkipped(s);
    assert s[1..] == "" && Skip("") == "";
    hide IsSymbol, Skip;
  }

  /** After two symbols padding ends the text, whatever follows. */
  lemma TwoSymbols(s: string)
    requires |s| >= 2 && IsSymbol(s[0]) && IsSymbol(s[1]) && (|s| == 2 || s[2] == '=')
    ensures Loose(s) == [First(Value(s[0]), Value(s[1]))]
  {
    LooseHead(s);
    PadIsNoSymbol();
    NothingSkipped(s[2..]);
    hide IsSymbol, First, Loose, Value;
    assert |s| == 2 ==> s[2..] == "" && SkipTo("") == "";
    assert |s| > 2 ==> s[2..][0] == '=';
  }

  /** And after three. */
  lemma ThreeSymbols(s: string)
    requires |s| >= 3 && IsSymbol(s[0]) && IsSymbol(s[1]) && IsSymbol(s[2]) && (|s| == 3 || s[3] == '=')
    ensures Loose(s) == [First(Value(s[0]), Value(s[1])), Second(Value(s[1]), Value(s[2]))]
  {
    LooseHead(s);
    PadIsNoSymbol();
    LooseStep(Value(s[1]), s[2..]);
    assert s[2..][0] == s[2] && s[2..][1..] == s[3..];
    if |s| == 3 {
      assert s[3..] == "" && LooseFourth(Value(s[2]), "") == [];
    } else {
      LooseStep(Value(s[2]), s[3..]);
      assert s[3..][0] == '=';
    }
    hide IsSymbol, First, Second, Loose, LooseThird, LooseFourth, Value;
  }

  /** A padding character behind two or three symbols of a group ends the text, whatever
      follows; in front of the first or the second symbol of a group it is passed over. */
  lemma {:induction false} PaddingEnds(s: string, more: string)
    requires AllSymbols(s)
    ensures |s| % 4 >= 2 ==> Loose(s + ("=" + more)) == Loose(s)
    ensures |s| % 4 < 2 ==> Loose(s + ("=" + more)) == Loose(s + more)
    decreases |s|
  {
    hide *;
    AllAreSymbols(s);
    if |s| < 4 {
      PaddingEndsShort(s, more);
    } else {
      PaddingEnds(s[4..], more);
      GroupStays(s, "=" + more);
      GroupStays(s, more);
      GroupStays(s, "");
      assert s + "" == s && s[4..] + "" == s[4..];
    }
  }

  /** What stands behind symbols leaves their first group as it is. */
  lemma GroupStays(s: string, more: string)
    requires |s| >= 4 && AllSymbols(s)
    ensures Loose(s + more) == FirstBytes(s) + Loose(s[4..] + more)
  {
    hide *;
    var x := s + more;
    assert x[4..] == s[4..] + more && x[..4] == s[..4];
    FirstFour(x, s);
    LooseFull(x);
    FirstBytesAre(s);
  }

  /** The three bytes of the first four symbols. */
  function FirstBytes(s: string): seq<byte>
    requires |s| >= 4 && AllSymbols(s)
  {
    [First(Value(s[0]), Value(s[1])), Second(Value(s[1]), Value(s[2])), Third(Value(s[2]), Value(s[3]))]
  }

  lemma FirstBytesAre(s: string)
    requires |s| >= 4 && AllSymbols(s)
    ensures FirstBytes(s) ==
            [First(Value(s[0]), Value(s[1])), Second(Value(s[1]), Value(s[2])), Third(Value(s[2]), Value(s[3]))]
  {
    hide First, Second, Third;
  }

  lemma PaddingEndsShort(s: string, more: string)
    requires AllSymbols(s) && |s| < 4
    ensures |s| % 4 >= 2 ==> Loose(s + ("=" + more)) == Loose(s)
    ensures |s| % 4 < 2 ==> Loose(s + ("=" + more)) == Loose(s + more)
  {
    hide *;
    AllAreSymbols(s);
    var x := s + ("=" + more);
    if |s| == 0 {
      assert x == "=" + more && s + more == more;
      PadPassed(more);
    } else if |s| == 1 {
      PadAfterOne(s, more);
    } else if |s| == 2 {
      assert x[0] == s[0] && x[1] == s[1] && x[2] == '=';
      TwoSymbols(x);
      TwoSymbols(s);
    } else {
      assert x[0] == s[0] && x[1] == s[1] && x[2] == s[2] && x[3] == '=';
      ThreeSymbols(x);
      ThreeSymbols(s);
    }
  }

  lemma FirstFour(x: string, s: string)
    requires |x| >= 4 && |s| >= 4 && x[..4] == s[..4] && AllSymbols(s)
    ensures x[0] == s[0] && x[1] == s[1] && x[2] == s[2] && x[3] == s[3]
    ensures IsSymbol(s[0]) && IsSymbol(s[1]) && IsSymbol(s[2]) && IsSymbol(s[3])
  {
    assert x[0] == x[..4][0] && x[1] == x[..4][1] && x[2] == x[..4][2] && x[3] == x[..4][3];
  }

  lemma SkipPad(more: string)
    ensures Skip("=" + more) == Skip(more)
  {
    PadIsNoSymbol();
    hide IsSymbol;
    assert ("=" + more)[0] == '=' && ("=" + more)[1..] == more;
  }

  lemma PadPassed(more: string)
    ensures Loose("=" + more) == Loose(more)
  {
    SkipPad(more);
    hide Skip, Value, First, LooseThird;
  }

  lemma PadAfterOne(s: string, more: string)
    requires |s| == 1 && IsSymbol(s[0])
    ensures Loose(s + ("=" + more)) == Loose(s + more)
  {
    var x, y := s + ("=" + more), s + more;
    SkipPad(more);
    NothingSkipped(x);
    NothingSkipped(y);
    assert x[0] == s[0] == y[0] && x[1..] == "=" + more && y[1..] == more;
    hide Skip, Value, First, LooseThird, IsSymbol;
  }
}
