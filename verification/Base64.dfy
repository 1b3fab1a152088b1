/** Base64 (section 4 of RFC 4648): the alphabets, what encoding a byte string means, and
    what a strict decoder accepts. */
module Base64 {

  type byte = b: int | 0 <= b < 256

  const UPPER := "ABCDEFGHIJKLMNOPQRSTUVWXYZ"
  const LOWER := "abcdefghijklmnopqrstuvwxyz"
  const DIGITS := "0123456789"

  const ALPHABET := UPPER + LOWER + (DIGITS + "+/")

  /** The alphabet that is safe in URLs and file names (section 5 of RFC 4648). */
  const URL_ALPHABET := UPPER + LOWER + (DIGITS + "-_")

  /** The number a symbol of the alphabet stands for, -1 for any other character. */
  function Value(c: char): (v: int)
    ensures -1 <= v < 64
  {
    if 'A' <= c <= 'Z' then c as int - 65
    else if 'a' <= c <= 'z' then c as int - 71
    else if '0' <= c <= '9' then c as int + 4
    else if c == '+' then 62
    else if c == '/' then 63
    else -1
  }

  predicate IsSymbol(c: char) {
    Value(c) >= 0
  }

  lemma PartAt(a: string, b: string, c: string, v: int)
    requires 0 <= v < |a| + |b| + |c|
    ensures (a + b + c)[v] ==
            if v < |a| then a[v] else if v < |a| + |b| then b[v - |a|] else c[v - |a| - |b|]
  {
  }

  lemma UpperAt(v: int)
    requires 0 <= v < 26
    ensures UPPER[v] as int == v + 65
  {
  }

  lemma LowerAt(v: int)
    requires 0 <= v < 26
    ensures LOWER[v] as int == v + 97
  {
  }

  lemma DigitAt(last: string, v: int)
    requires 0 <= v < 12 && |last| == 2
    ensures (DIGITS + last)[v] == if v < 10 then (v + 48) as char else last[v - 10]
  {
  }

  /** The symbols of both alphabets. */
  lemma SymbolAt(last: string, v: int)
    requires 0 <= v < 64 && |last| == 2
    ensures (UPPER + LOWER + (DIGITS + last))[v] ==
            if v < 26 then (v + 65) as char else if v < 52 then (v + 71) as char
            else if v < 62 then (v - 4) as char else last[v - 62]
  {
    PartAt(UPPER, LOWER, DIGITS + last, v);
    if v < 26 {
      UpperAt(v);
    } else if v < 52 {
      LowerAt(v - 26);
    } else {
      DigitAt(last, v - 52);
    }
  }

  lemma SymbolValue(v: int)
    requires 0 <= v < 64
    ensures Value(ALPHABET[v]) == v
  {
    SymbolAt("+/", v);
  }

  // ---------------------------------------------------------------------- encoding

  /** The four groups of six bits in three bytes. */
  function Bits0(a: byte): (v: int)
    ensures 0 <= v < 64
  {
    a / 4
  }

  function Bits1(a: byte, b: byte): (v: int)
    ensures 0 <= v < 64
  {
    a % 4 * 16 + b / 16
  }

  function Bits2(b: byte, c: byte): (v: int)
    ensures 0 <= v < 64
  {
    b % 16 * 4 + c / 64
  }

  function Bits3(c: byte): (v: int)
    ensures 0 <= v < 64
  {
    c % 64
  }

  /** Three bytes as four symbols. */
  function Quad(alphabet: string, a: byte, b: byte, c: byte): (q: string)
    requires |alphabet| == 64
    ensures |q| == 4
  {
    [alphabet[Bits0(a)], alphabet[Bits1(a, b)], alphabet[Bits2(b, c)], alphabet[Bits3(c)]]
  }

  /** The encoding of a byte string, padded to whole groups of four. */
  function Encoded(alphabet: string, s: seq<byte>): (r: string)
    requires |alphabet| == 64
    ensures |r| == 4 * ((|s| + 2) / 3)
  {
    if s == [] then ""
    else if |s| == 1 then var q := Quad(alphabet, s[0], 0, 0); [q[0], q[1], '=', '=']
    else if |s| == 2 then var q := Quad(alphabet, s[0], s[1], 0); [q[0], q[1], q[2], '=']
    else Quad(alphabet, s[0], s[1], s[2]) + Encoded(alphabet, s[3..])
  }

  lemma QuadIs(alphabet: string, a: byte, b: byte, c: byte)
    requires |alphabet| == 64
    ensures Quad(alphabet, a, b, c) ==
            [alphabet[Bits0(a)], alphabet[Bits1(a, b)], alphabet[Bits2(b, c)], alphabet[Bits3(c)]]
  {
  }

  lemma ShortEncodings(alphabet: string, a: byte, b: byte)
    requires |alphabet| == 64
    ensures Encoded(alphabet, [a]) == [Quad(alphabet, a, 0, 0)[0], Quad(alphabet, a, 0, 0)[1], '=', '=']
    ensures Encoded(alphabet, [a, b]) ==
            [Quad(alphabet, a, b, 0)[0], Quad(alphabet, a, b, 0)[1], Quad(alphabet, a, b, 0)[2], '=']
    ensures Encoded(alphabet, []) == ""
  {
  }

  /** The encoding of a byte string, three bytes at a time. */
  lemma EncodedStep(alphabet: string, s: seq<byte>, i: nat)
    requires |alphabet| == 64 && i < |s|
    ensures i + 3 <= |s| ==> Encoded(alphabet, s[i..]) ==
                             Quad(alphabet, s[i], s[i + 1], s[i + 2]) + Encoded(alphabet, s[i + 3..])
    ensures i + 2 == |s| ==> Encoded(alphabet, s[i..]) == Encoded(alphabet, [s[i], s[i + 1]])
    ensures i + 1 == |s| ==> Encoded(alphabet, s[i..]) == Encoded(alphabet, [s[i]])
  {
    hide Quad;
    if i + 3 <= |s| {
      assert s[i..][3..] == s[i + 3..];
      assert |s[i..]| >= 3 && s[i..][0] == s[i] && s[i..][1] == s[i + 1] && s[i..][2] == s[i + 2];
    } else if i + 2 == |s| {
      assert s[i..] == [s[i], s[i + 1]];
    } else {
      assert s[i..] == [s[i]];
    }
  }

  // ---------------------------------------------------------------------- decoding

  /** Padding counts as zero bits. */
  function Bits(c: char): (v: int)
    requires IsSymbol(c) || c == '='
    ensures 0 <= v < 64
  {
    if c == '=' then 0 else Value(c)
  }

  predicate Symbols(s: string) {
    forall i | 0 <= i < |s| :: IsSymbol(s[i]) || s[i] == '='
  }

  /** How many padding characters a text ends in, at most two. */
  function Pads(s: string): (n: nat)
    ensures n <= 2
  {
    if s == "" || s[|s| - 1] != '=' then 0 else if |s| > 1 && s[|s| - 2] == '=' then 2 else 1
  }

  /** Whole groups of four symbols, of which the last may end in one or two `=`. */
  predicate WellFormed(s: string) {
    s != "" && |s| % 4 == 0 && forall i | 0 <= i < |s| - Pads(s) :: IsSymbol(s[i])
  }

  function First(v: int, w: int): byte
    requires 0 <= v < 64 && 0 <= w < 64
  {
    v * 4 + w / 16
  }

  function Second(v: int, w: int): byte
    requires 0 <= v < 64 && 0 <= w < 64
  {
    v % 16 * 16 + w / 4
  }

  function Third(v: int, w: int): byte
    requires 0 <= v < 64 && 0 <= w < 64
  {
    v % 4 * 64 + w
  }

  /** The bytes of one group: three, less one for each padding character. */
  function Group(q: string): (r: seq<byte>)
    requires |q| == 4 && Symbols(q)
    ensures |r| == 3 - Pads(q)
  {
    [First(Bits(q[0]), Bits(q[1])), Second(Bits(q[1]), Bits(q[2])), Third(Bits(q[2]), Bits(q[3]))][..3 - Pads(q)]
  }

  function Bytes(s: string): seq<byte>
    requires |s| % 4 == 0 && Symbols(s)
  {
    if s == "" then [] else Group(s[..4]) + Bytes(s[4..])
  }

  /** A well-formed text of one group, or one full group before a well-formed text. */
  lemma WellFormedCut(s: string)
    requires WellFormed(s)
    ensures Symbols(s) && |s| >= 4
    ensures |s| > 4 ==> WellFormed(s[4..]) && Pads(s[4..]) == Pads(s) && Pads(s[..4]) == 0
    ensures |s| == 4 ==> s[..4] == s && s[4..] == "" && Pads(s[..4]) == Pads(s)
  {
  }

  lemma {:induction false} BytesLength(s: string)
    requires WellFormed(s)
    ensures Symbols(s) && |Bytes(s)| == |s| / 4 * 3 - Pads(s)
    decreases |s|
  {
    WellFormedCut(s);
    if |s| > 4 {
      BytesLength(s[4..]);
    }
  }

  // -------------------------------------------------------------------- round trips

  lemma QuadValues(a: byte, b: byte, c: byte)
    ensures |ALPHABET| == 64
    ensures var q := Quad(ALPHABET, a, b, c);
            Value(q[0]) == Bits0(a) && Value(q[1]) == Bits1(a, b)
            && Value(q[2]) == Bits2(b, c) && Value(q[3]) == Bits3(c)
            && IsSymbol(q[0]) && IsSymbol(q[1]) && IsSymbol(q[2]) && IsSymbol(q[3])
  {
    hide Value, Bits0, Bits1, Bits2, Bits3;
    SymbolValue(Bits0(a));
    SymbolValue(Bits1(a, b));
    SymbolValue(Bits2(b, c));
    SymbolValue(Bits3(c));
  }

  lemma BitsSplit(a: byte, b: byte, c: byte)
    ensures First(Bits0(a), Bits1(a, b)) == a
    ensures Second(Bits1(a, b), Bits2(b, c)) == b
    ensures Third(Bits2(b, c), Bits3(c)) == c
  {
  }

  lemma AlphabetSize()
    ensures |ALPHABET| == 64 && |URL_ALPHABET| == 64
  {
  }

  lemma PadIsNoSymbol()
    ensures !IsSymbol('=')
  {
  }

  lemma OneGroup(q: string)
    requires |q| == 4 && Symbols(q)
    ensures Bytes(q) == Group(q)
  {
    assert q[..4] == q && q[4..] == "";
    hide Group;
    assert Bytes(q) == Group(q) + [];
  }

  lemma GroupOfFour(q: string)
    requires |q| == 4 && forall i | 0 <= i < 4 :: IsSymbol(q[i])
    ensures WellFormed(q) && Pads(q) == 0 && Symbols(q)
    ensures Group(q) ==
            [First(Value(q[0]), Value(q[1])), Second(Value(q[1]), Value(q[2])), Third(Value(q[2]), Value(q[3]))]
  {
    PadIsNoSymbol();
    hide Value, First, Second, Third;
  }

  lemma GroupOfThree(q: string)
    requires |q| == 4 && IsSymbol(q[0]) && IsSymbol(q[1]) && IsSymbol(q[2]) && q[3] == '='
    ensures WellFormed(q) && Symbols(q)
            && Group(q) == [First(Value(q[0]), Value(q[1])), Second(Value(q[1]), Value(q[2]))]
  {
    PadIsNoSymbol();
    hide Value, First, Second, Third;
    assert Pads(q) == 1;
  }

  lemma GroupOfTwo(q: string)
    requires |q| == 4 && IsSymbol(q[0]) && IsSymbol(q[1]) && q[2] == '=' && q[3] == '='
    ensures WellFormed(q) && Symbols(q) && Group(q) == [First(Value(q[0]), Value(q[1]))]
  {
    PadIsNoSymbol();
    hide Value, First, Second, Third;
    assert Pads(q) == 2;
  }

  lemma FullGroup(a: byte, b: byte, c: byte)
    ensures var q := Quad(ALPHABET, a, b, c);
            WellFormed(q) && Pads(q) == 0 && Symbols(q) && Group(q) == [a, b, c]
  {
    hide *;
    AlphabetSize();
    QuadValues(a, b, c);
    BitsSplit(a, b, c);
    GroupOfFour(Quad(ALPHABET, a, b, c));
  }

  lemma LastByte(a: byte)
    ensures var q := Encoded(ALPHABET, [a]);
            WellFormed(q) && Symbols(q) && Group(q) == [a]
  {
    hide *;
    AlphabetSize();
    ShortEncodings(ALPHABET, a, a);
    QuadValues(a, 0, 0);
    BitsSplit(a, 0, 0);
    GroupOfTwo(Encoded(ALPHABET, [a]));
  }

  lemma LastTwoBytes(a: byte, b: byte)
    ensures var q := Encoded(ALPHABET, [a, b]);
            WellFormed(q) && Symbols(q) && Group(q) == [a, b]
  {
    hide *;
    AlphabetSize();
    ShortEncodings(ALPHABET, a, b);
    QuadValues(a, b, 0);
    BitsSplit(a, b, 0);
    GroupOfThree(Encoded(ALPHABET, [a, b]));
  }

  lemma GroupThen(q: string, rest: string)
    requires |q| == 4 && WellFormed(q) && Pads(q) == 0 && WellFormed(rest) && Symbols(q) && Symbols(rest)
    ensures WellFormed(q + rest) && Symbols(q + rest) && Bytes(q + rest) == Group(q) + Bytes(rest)
  {
    assert (q + rest)[..4] == q && (q + rest)[4..] == rest;
    hide IsSymbol, Group;
  }

  /** Strict decoding inverts encoding. */
  lemma {:induction false} EncodedDecodes(s: seq<byte>)
    requires s != []
    ensures WellFormed(Encoded(ALPHABET, s)) && Symbols(Encoded(ALPHABET, s)) && Bytes(Encoded(ALPHABET, s)) == s
    decreases |s|
  {
    hide WellFormed, Symbols, Group, Bytes, Quad, Pads;
    if |s| == 1 {
      LastByte(s[0]);
      assert s == [s[0]];
      OneGroup(Encoded(ALPHABET, s));
    } else if |s| == 2 {
      LastTwoBytes(s[0], s[1]);
      assert s == [s[0], s[1]];
      OneGroup(Encoded(ALPHABET, s));
    } else {
      FullGroup(s[0], s[1], s[2]);
      var q := Quad(ALPHABET, s[0], s[1], s[2]);
      if |s| == 3 {
        OneGroup(q);
        assert Encoded(ALPHABET, s) == q + "" == q;
      } else {
        EncodedDecodes(s[3..]);
        GroupThen(q, Encoded(ALPHABET, s[3..]));
      }
    }
  }

  // ------------------------------------------------- what decoding says about its input

  predicate NoLow2(v: int) {
    v % 4 == 0
  }

  predicate NoLow4(v: int) {
    v % 16 == 0
  }

  /** The bits that the last group has too many are zero. */
  predicate Canonical(s: string)
    requires WellFormed(s)
  {
    WellFormedCut(s);
    (Pads(s) == 1 ==> NoLow2(Bits(s[|s| - 2]))) && (Pads(s) == 2 ==> NoLow4(Bits(s[|s| - 3])))
  }

  lemma SymbolOfValue(c: char)
    requires IsSymbol(c)
    ensures |ALPHABET| == 64 && ALPHABET[Value(c)] == c
  {
    SymbolAt("+/", Value(c));
  }

  /** A group of six bits whose lowest two, or four, are cleared. */
  function Clear2(v: int): (r: int)
    requires 0 <= v < 64
    ensures 0 <= r < 64 && (r == v <==> NoLow2(v))
  {
    v - v % 4
  }

  function Clear4(v: int): (r: int)
    requires 0 <= v < 64
    ensures 0 <= r < 64 && (r == v <==> NoLow4(v))
  {
    v - v % 16
  }

  lemma BitsJoin(v: int, w: int, x: int, y: int)
    requires 0 <= v < 64 && 0 <= w < 64 && 0 <= x < 64 && 0 <= y < 64
    ensures Bits0(First(v, w)) == v
    ensures Bits1(First(v, w), Second(w, x)) == w
    ensures Bits2(Second(w, x), Third(x, y)) == x
    ensures Bits3(Third(x, y)) == y
    ensures Bits1(First(v, w), 0) == Clear4(w) && Bits2(Second(w, x), 0) == Clear2(x)
  {
  }

  lemma LongEncoding(a: byte, b: byte, c: byte)
    ensures |ALPHABET| == 64 && Encoded(ALPHABET, [a, b, c]) == Quad(ALPHABET, a, b, c)
  {
    assert Encoded(ALPHABET, [a, b, c]) == Quad(ALPHABET, a, b, c) + "";
  }

  lemma FourAgain(q: string)
    requires |q| == 4 && forall i | 0 <= i < 4 :: IsSymbol(q[i])
    ensures |ALPHABET| == 64 && Symbols(q) && Encoded(ALPHABET, Group(q)) == q
  {
    GroupOfFour(q);
    hide *;
    AlphabetSize();
    var v, w, x, y := Value(q[0]), Value(q[1]), Value(q[2]), Value(q[3]);
    var a, b, c := First(v, w), Second(w, x), Third(x, y);
    SymbolOfValue(q[0]);
    SymbolOfValue(q[1]);
    SymbolOfValue(q[2]);
    SymbolOfValue(q[3]);
    BitsJoin(v, w, x, y);
    LongEncoding(a, b, c);
    QuadIs(ALPHABET, a, b, c);
    SameFour(Quad(ALPHABET, a, b, c), q);
  }

  lemma SameSymbol(v: int, w: int)
    requires 0 <= v < 64 && 0 <= w < 64
    ensures |ALPHABET| == 64 && (ALPHABET[v] == ALPHABET[w] <==> v == w)
  {
    SymbolValue(v);
    SymbolValue(w);
  }

  lemma SameFour(e: string, q: string)
    requires |e| == 4 && |q| == 4
    ensures e == q <==> e[0] == q[0] && e[1] == q[1] && e[2] == q[2] && e[3] == q[3]
  {
  }

  lemma ThreeAgain(q: string)
    requires |q| == 4 && IsSymbol(q[0]) && IsSymbol(q[1]) && IsSymbol(q[2]) && q[3] == '='
    ensures |ALPHABET| == 64 && Symbols(q) && (Encoded(ALPHABET, Group(q)) == q <==> Clear2(Value(q[2])) == Value(q[2]))
  {
    GroupOfThree(q);
    hide Symbols, Group, ALPHABET, Quad, Encoded, Value;
    var v, w, x := Value(q[0]), Value(q[1]), Value(q[2]);
    BitsJoin(v, w, x, 0);
    SameSymbol(Clear2(x), x);
    hide First, Second, Third, Bits0, Bits1, Bits2, Bits3, Clear2, Clear4, NoLow2, NoLow4;
    ShortEncodings(ALPHABET, First(v, w), Second(w, x));
    QuadIs(ALPHABET, First(v, w), Second(w, x), 0);
    SymbolOfValue(q[0]);
    SymbolOfValue(q[1]);
    SymbolOfValue(q[2]);
    SameFour(Encoded(ALPHABET, Group(q)), q);
  }

  lemma TwoEncoded(v: int, w: int)
    requires 0 <= v < 64 && 0 <= w < 64
    ensures |ALPHABET| == 64
    ensures var e := Encoded(ALPHABET, [First(v, w)]);
            e[0] == ALPHABET[v] && e[1] == ALPHABET[Clear4(w)] && e[2] == '=' && e[3] == '='
  {
    var a := First(v, w);
    BitsJoin(v, w, w, w);
    hide *;
    AlphabetSize();
    ShortEncodings(ALPHABET, a, a);
    QuadIs(ALPHABET, a, 0, 0);
  }

  lemma TwoAgain(q: string)
    requires |q| == 4 && IsSymbol(q[0]) && IsSymbol(q[1]) && q[2] == '=' && q[3] == '='
    ensures |ALPHABET| == 64 && Symbols(q) && (Encoded(ALPHABET, Group(q)) == q <==> NoLow4(Value(q[1])))
  {
    GroupOfTwo(q);
    var v, w := Value(q[0]), Value(q[1]);
    SameSymbol(Clear4(w), w);
    hide *;
    TwoEncoded(v, w);
    SymbolOfValue(q[0]);
    SymbolOfValue(q[1]);
    SameFour(Encoded(ALPHABET, Group(q)), q);
  }

  lemma CanonicalGroup(s: string)
    requires WellFormed(s) && |s| == 4
    ensures IsSymbol(s[0]) && IsSymbol(s[1])
    ensures Pads(s) == 0 ==> IsSymbol(s[2]) && IsSymbol(s[3]) && Canonical(s)
    ensures Pads(s) == 1 ==> IsSymbol(s[2]) && s[3] == '=' && (Canonical(s) <==> Clear2(Value(s[2])) == Value(s[2]))
    ensures Pads(s) == 2 ==> s[2] == '=' && s[3] == '=' && (Canonical(s) <==> NoLow4(Value(s[1])))
  {
    WellFormedCut(s);
    PadIsNoSymbol();
    hide IsSymbol, Value;
  }

  /** Encoding inverts strict decoding exactly on the texts whose surplus bits are zero. */
  lemma {:induction false} DecodedEncodes(s: string)
    requires WellFormed(s)
    ensures Symbols(s) && (Encoded(ALPHABET, Bytes(s)) == s <==> Canonical(s))
    decreases |s|
  {
    WellFormedCut(s);
    if |s| == 4 {
      OneGroup(s);
      CanonicalGroup(s);
      hide *;
      if Pads(s) == 0 {
        FourAgain(s);
      } else if Pads(s) == 1 {
        ThreeAgain(s);
      } else {
        TwoAgain(s);
      }
    } else {
      var q, rest := s[..4], s[4..];
      DecodedEncodes(rest);
      FullCut(s);
      FourAgain(q);
      EncodedThen(Group(q), Bytes(rest));
      CanonicalCut(s);
      hide *;
      assert s == q + rest;
      SameTail(q, Encoded(ALPHABET, Bytes(rest)), rest);
    }
  }

  lemma SameTail(q: string, a: string, b: string)
    ensures q + a == q + b <==> a == b
  {
    if q + a == q + b {
      assert (q + a)[|q|..] == a && (q + b)[|q|..] == b;
    }
  }

  lemma FullCut(s: string)
    requires WellFormed(s) && |s| > 4
    ensures Symbols(s) && Symbols(s[..4]) && WellFormed(s[4..]) && Symbols(s[4..])
            && Bytes(s) == Group(s[..4]) + Bytes(s[4..])
    ensures |Group(s[..4])| == 3 && forall i | 0 <= i < 4 :: IsSymbol(s[..4][i])
  {
    WellFormedCut(s);
    WellFormedCut(s[4..]);
    hide Group, IsSymbol;
  }

  lemma EncodedThen(g: seq<byte>, more: seq<byte>)
    requires |g| == 3
    ensures Encoded(ALPHABET, g + more) == Encoded(ALPHABET, g) + Encoded(ALPHABET, more)
  {
    assert (g + more)[3..] == more && g[3..] == [];
    hide Quad;
    var q := Quad(ALPHABET, g[0], g[1], g[2]);
    assert Encoded(ALPHABET, g) == q + "" == q;
  }

  lemma CanonicalCut(s: string)
    requires WellFormed(s) && |s| > 4
    ensures WellFormed(s[4..]) && (Canonical(s) <==> Canonical(s[4..]))
  {
    WellFormedCut(s);
    WellFormedCut(s[4..]);
    hide IsSymbol, Value;
  }

  // ------------------------------------------------------------- the same as numbers

  /** Three bytes and four groups of six bits are the same number of 24 bits. */
  predicate SameNumber(a: byte, b: byte, c: byte, v0: nat, v1: nat, v2: nat, v3: nat) {
    v0 < 64 && v1 < 64 && v2 < 64 && v3 < 64 && ((v0 * 64 + v1) * 64 + v2) * 64 + v3 == (a * 256 + b) * 256 + c
  }

  lemma SplitNumber(a: byte, b: byte, c: byte, v0: nat, v1: nat, v2: nat, v3: nat)
    requires SameNumber(a, b, c, v0, v1, v2, v3)
    ensures v0 == Bits0(a) && v1 == Bits1(a, b) && v2 == Bits2(b, c) && v3 == Bits3(c)
    ensures a == First(v0, v1) && b == Second(v1, v2) && c == Third(v2, v3)
  {
    BitsAreNumber(a, b, c);
    SixBits(v0, v1, v2, v3, Bits0(a), Bits1(a, b), Bits2(b, c), Bits3(c));
    BitsSplit(a, b, c);
  }

  lemma BitsAreNumber(a: byte, b: byte, c: byte)
    ensures ((Bits0(a) * 64 + Bits1(a, b)) * 64 + Bits2(b, c)) * 64 + Bits3(c) == (a * 256 + b) * 256 + c
  {
  }

  lemma SixBits(v0: nat, v1: nat, v2: nat, v3: nat, w0: nat, w1: nat, w2: nat, w3: nat)
    requires v0 < 64 && v1 < 64 && v2 < 64 && v3 < 64 && w0 < 64 && w1 < 64 && w2 < 64 && w3 < 64
    requires ((v0 * 64 + v1) * 64 + v2) * 64 + v3 == ((w0 * 64 + w1) * 64 + w2) * 64 + w3
    ensures v0 == w0 && v1 == w1 && v2 == w2 && v3 == w3
  {
  }

  /** The four symbols of three bytes are the digits of their number to the base 64. */
  lemma QuadOfNumber(alphabet: string, a: byte, b: byte, c: byte, v0: nat, v1: nat, v2: nat, v3: nat)
    requires |alphabet| == 64 && SameNumber(a, b, c, v0, v1, v2, v3)
    ensures Quad(alphabet, a, b, c) == [alphabet[v0], alphabet[v1], alphabet[v2], alphabet[v3]]
  {
    SplitNumber(a, b, c, v0, v1, v2, v3);
    QuadIs(alphabet, a, b, c);
    hide *;
  }

  /** Four symbols decode to the bytes of that number, less one for each padding character,
      which counts as zeros. */
  lemma GroupOfNumber(q: string, a: byte, b: byte, c: byte)
    requires |q| == 4 && Symbols(q) && SameNumber(a, b, c, Bits(q[0]), Bits(q[1]), Bits(q[2]), Bits(q[3]))
    ensures Group(q) == [a, b, c][..3 - Pads(q)]
  {
    SplitNumber(a, b, c, Bits(q[0]), Bits(q[1]), Bits(q[2]), Bits(q[3]));
    hide First, Second, Third, Bits0, Bits1, Bits2, Bits3, Symbols, Pads, Bits, SameNumber;
  }
}
