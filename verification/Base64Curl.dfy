/** libcurl's Base64 codec: an encoder into a buffer of a size computed beforehand, and a
    strict decoder into a buffer of exactly the decoded size. */
module Base64Curl {
  import opened Base64
  import opened Basics

  // -------------------------------------------------------------------- the encoder

  /** What is written for up to three bytes. */
  function GroupText(alphabet: string, a: byte, b: byte, c: byte, inputparts: int): (r: string)
    requires |alphabet| == 64
    ensures |r| == 4
  {
    var q := Quad(alphabet, a, b, c);
    [q[0], q[1], if inputparts > 1 then q[2] else '=', if inputparts > 2 then q[3] else '=']
  }

  lemma StepTail(alphabet: string, s: seq<byte>, k: nat, inputparts: nat, done: string, text: string, whole: string)
    requires |alphabet| == 64 && k < |s| && done + Encoded(alphabet, s[k..]) == whole
    requires inputparts == if k + 3 <= |s| then 3 else |s| - k
    requires text == GroupText(alphabet, s[k], if k + 1 < |s| then s[k + 1] else 0,
                               if k + 2 < |s| then s[k + 2] else 0, inputparts)
    ensures done + text + Encoded(alphabet, s[if k + 3 <= |s| then k + 3 else |s|..]) == whole
  {
    var b, c := if k + 1 < |s| then s[k + 1] else 0, if k + 2 < |s| then s[k + 2] else 0;
    hide *;
    EncodedStep(alphabet, s, k);
    GroupTexts(alphabet, s[k], b, c);
    if k + 3 <= |s| {
      Regroup(done, text, Encoded(alphabet, s[k + 3..]));
    } else {
      ShortEncodings(alphabet, s[k], b);
      assert s[|s|..] == [] && done + text + "" == done + text;
    }
  }

  lemma GroupTexts(alphabet: string, a: byte, b: byte, c: byte)
    requires |alphabet| == 64
    ensures GroupText(alphabet, a, b, c, 3) == Quad(alphabet, a, b, c)
    ensures GroupText(alphabet, a, b, 0, 2) == Encoded(alphabet, [a, b])
    ensures GroupText(alphabet, a, 0, 0, 1) == Encoded(alphabet, [a])
  {
    ShortEncodings(alphabet, a, b);
    hide Quad, Encoded;
    var q := Quad(alphabet, a, b, c);
    assert q == [q[0], q[1], q[2], q[3]];
  }

  /** The place of the first NUL. */
  method StrLen(a: array<char>) returns (n: nat)
    requires exists i | 0 <= i < a.Length :: a[i] as int == 0
    ensures n < a.Length && a[n] as int == 0 && forall i | 0 <= i < n :: a[i] as int != 0
  {
    n := 0;
    var i :| 0 <= i < a.Length && a[i] as int == 0;
    while a[n] as int != 0
      invariant n <= i && forall k | 0 <= k < n :: a[k] as int != 0
      decreases i - n
    {
      n := n + 1;
    }
  }

  /** `insize` bytes of input, or, if that is 0, the bytes before the first 0. */
  ghost function Input(input: seq<byte>, insize: nat): seq<byte>
    requires insize <= |input|
  {
    if insize == 0 then Before0(input) else input[..insize]
  }

  ghost function Before0(s: seq<byte>): (r: seq<byte>)
    ensures |r| <= |s| && r <= s
  {
    if s == [] || s[0] == 0 then [] else [s[0]] + Before0(s[1..])
  }

  /** The bytes before `n`, and those before the first 0 from there on. */
  ghost function Split0(s: seq<byte>, n: nat): seq<byte>
    requires n <= |s|
  {
    s[..n] + Before0(s[n..])
  }

  lemma Split0Starts(s: seq<byte>)
    ensures Split0(s, 0) == Before0(s)
  {
    assert s[0..] == s && [] + Before0(s) == Before0(s);
  }

  lemma Split0Step(s: seq<byte>, n: nat)
    requires n < |s|
    ensures Split0(s, n) == if s[n] == 0 then s[..n] else Split0(s, n + 1)
  {
    assert s[n..][1..] == s[n + 1..];
    assert s[n] == 0 ==> s[..n] + [] == s[..n];
  }

  method BytesLen(s: seq<byte>) returns (n: nat)
    requires 0 in s
    ensures n < |s| && s[..n] == Before0(s)
  {
    hide Before0, Split0;
    n := 0;
    ghost var i :| 0 <= i < |s| && s[i] == 0;
    Split0Starts(s);
    while s[n] != 0
      invariant n <= i && Split0(s, n) == Before0(s)
      decreases i - n
    {
      Split0Step(s, n);
      n := n + 1;
    }
    Split0Step(s, n);
  }

  /** The size of the buffer allocated for the encoding of `n` bytes. */
  function BufferSize(n: nat): nat {
    n * 4 / 3 + 4
  }

  function EncodedSize(n: nat): nat {
    4 * ((n + 2) / 3)
  }

  /** The buffer holds the encoding and its terminating NUL, with nothing to spare exactly
      when one byte is left over from whole groups of three. */
  lemma BufferFits(n: nat)
    ensures EncodedSize(n) + 1 <= BufferSize(n)
    ensures EncodedSize(n) + 1 == BufferSize(n) <==> n % 3 == 1
  {
  }

  lemma {:induction false} EncodedNoNul(alphabet: string, s: seq<byte>)
    requires |alphabet| == 64 && NoNul(alphabet)
    ensures NoNul(Encoded(alphabet, s))
    decreases |s|
  {
    if |s| > 2 {
      EncodedNoNul(alphabet, s[3..]);
      QuadIs(alphabet, s[0], s[1], s[2]);
    }
  }

  /** Up to three bytes of input, filled up with zeros, and how many there were. */
  method ReadThree(ibuf: array<byte>, input: seq<byte>, k: nat, left: nat) returns (inputparts: nat)
    requires ibuf.Length == 3 && k + left <= |input|
    modifies ibuf
    ensures inputparts == if left < 3 then left else 3
    ensures forall j | 0 <= j < 3 :: ibuf[j] == if j < left then input[k + j] else 0
  {
    inputparts := 0;
    var i := 0;
    while i < 3
      invariant 0 <= i <= 3 && inputparts == if i <= left then i else left
      invariant forall j | 0 <= j < i :: ibuf[j] == if j < left then input[k + j] else 0
    {
      if inputparts < left {
        ibuf[i] := input[k + inputparts];
        inputparts := inputparts + 1;
      } else {
        ibuf[i] := 0;
      }
      i := i + 1;
    }
  }

  /** `snprintf` of the symbols: four characters with a NUL behind them. */
  method WriteGroup(alphabet: string, output: array<char>, o: nat, ibuf: array<byte>, inputparts: int)
    requires |alphabet| == 64 && ibuf.Length == 3 && o + 4 < output.Length
    modifies output
    ensures output[..o + 4] == old(output[..o]) + GroupText(alphabet, ibuf[0], ibuf[1], ibuf[2], inputparts)
  {
    QuadIs(alphabet, ibuf[0], ibuf[1], ibuf[2]);
    hide Quad;
    var o0, o1 := Bits0(ibuf[0]), Bits1(ibuf[0], ibuf[1]);
    var o2, o3 := Bits2(ibuf[1], ibuf[2]), Bits3(ibuf[2]);
    hide Bits0, Bits1, Bits2, Bits3;
    output[o], output[o + 1], output[o + 2], output[o + 3] := alphabet[o0], alphabet[o1], '=', '=';
    if inputparts > 1 {
      output[o + 2] := alphabet[o2];
    }
    if inputparts > 2 {
      output[o + 3] := alphabet[o3];
    }
    output[o + 4] := 0 as char;
  }

  /** Where the output stands after `k` of `n` bytes. */
  predicate Aligned(n: nat, k: nat, o: nat) {
    k <= n && if k == n then o == EncodedSize(n) else 3 * o == 4 * k && k % 3 == 0
  }

  lemma AlignedOn(n: nat, k: nat, o: nat)
    requires k < n && Aligned(n, k, o)
    ensures o + 4 < BufferSize(n)
    ensures Aligned(n, if k + 3 <= n then k + 3 else n, o + 4)
  {
  }

  /** The loop over the input, and the terminating NUL. */
  method Fill(alphabet: string, data: seq<byte>, output: array<char>) returns (o: nat)
    requires |alphabet| == 64 && output.Length == BufferSize(|data|)
    modifies output
    ensures o == EncodedSize(|data|) < output.Length
    ensures output[..o] == Encoded(alphabet, data) && output[o] as int == 0
  {
    hide Encoded, GroupText, Aligned, BufferSize, EncodedSize;
    var n := |data|;
    var ibuf := new byte[3];
    var k := 0;
    o := 0;
    ghost var whole := Encoded(alphabet, data);
    assert data[0..] == data && "" + whole == whole;
    StartsAligned(n);
    while k < n
      invariant k <= n && Aligned(n, k, o) && o < output.Length && output[..o] + Encoded(alphabet, data[k..]) == whole
      decreases n - k
    {
      AlignedOn(n, k, o);
      var inputparts := ReadThree(ibuf, data, k, n - k);
      ghost var text := GroupText(alphabet, ibuf[0], ibuf[1], ibuf[2], inputparts);
      StepTail(alphabet, data, k, inputparts, output[..o], text, whole);
      WriteGroup(alphabet, output, o, ibuf, inputparts);
      k, o := k + inputparts, o + 4;
    }
    EndsAligned(n, o);
    output[o] := 0 as char;
    StepEnd(alphabet, data, output[..o], whole);
  }

  /** `base64_encode`. */
  method Encode(alphabet: string, input: seq<byte>, insize: nat) returns (output: array<char>, outlen: nat)
    requires |alphabet| == 64 && NoNul(alphabet) && insize <= |input| && (insize == 0 ==> 0 in input)
    ensures fresh(output) && output.Length == BufferSize(|Input(input, insize)|)
    ensures outlen == EncodedSize(|Input(input, insize)|) < output.Length
    ensures output[..outlen] == Encoded(alphabet, Input(input, insize)) && output[outlen] as int == 0
  {
    hide Encoded, Before0, EncodedSize;
    var n := insize;
    if n == 0 {
      n := BytesLen(input);
    }
    var data := input[..n];
    output := new char[n * 4 / 3 + 4];
    ghost var o := Fill(alphabet, data, output);
    EncodedNoNul(alphabet, data);
    assert forall i | 0 <= i < o :: output[i] == output[..o][i];
    outlen := StrLen(output);
  }

  lemma EndsAligned(n: nat, o: nat)
    requires Aligned(n, n, o)
    ensures o == EncodedSize(n)
  {
  }

  lemma StartsAligned(n: nat)
    ensures Aligned(n, 0, 0) && 0 < BufferSize(n)
  {
  }

  lemma StepEnd(alphabet: string, s: seq<byte>, done: string, whole: string)
    requires |alphabet| == 64 && done + Encoded(alphabet, s[|s|..]) == whole
    ensures done == whole
  {
    assert s[|s|..] == [] && done + "" == done;
  }

  // -------------------------------------------------------------------- the decoder

  lemma InTable(c: char)
    ensures |ALPHABET| == 64
    ensures IsSymbol(c) ==> 0 <= Value(c) < 64 && ALPHABET[Value(c)] == c
    ensures forall v | 0 <= v < 64 :: ALPHABET[v] == c ==> IsSymbol(c) && Value(c) == v
  {
    AlphabetSize();
    hide ALPHABET;
    if IsSymbol(c) {
      SymbolOfValue(c);
    }
    forall v | 0 <= v < 64 && ALPHABET[v] == c
      ensures IsSymbol(c) && Value(c) == v
    {
      SymbolValue(v);
    }
  }

  /** The search for a character in the table; `v` is 64 when it is not there. */
  method Lookup(c: char) returns (v: nat)
    ensures v <= 64 && (v < 64 <==> IsSymbol(c)) && (v < 64 ==> v == Value(c))
  {
    InTable(c);
    hide *;
    v := 0;
    while v < 64 && ALPHABET[v] != c
      invariant v <= 64 && (IsSymbol(c) ==> v <= Value(c))
    {
      v := v + 1;
    }
  }

  /** The first `i` characters as one number, six bits each; padding counts as 0. */
  function Word(q: string, i: nat): (x: nat)
    requires i <= |q|
  {
    if i == 0 then 0 else Word(q, i - 1) * 64 + if IsSymbol(q[i - 1]) then Value(q[i - 1]) else 0
  }

  /** The three bytes of 24 bits. */
  function WordBytes(x: nat): (r: seq<byte>)
    ensures |r| == 3
  {
    [x / 256 / 256 % 256, x / 256 % 256, x % 256]
  }

  lemma ByteOff(x: nat, y: nat, b: byte)
    requires x == 256 * y + b
    ensures x / 256 == y && x % 256 == b
  {
  }

  lemma BytesOff(x: nat, a: byte, b: byte, c: byte)
    requires x == 256 * (256 * a + b) + c
    ensures WordBytes(x) == [a, b, c]
  {
    ByteOff(x, 256 * a + b, c);
    ByteOff(256 * a + b, a, b);
  }

  lemma Bits24(b0: int, b1: int, b2: int, b3: int)
    requires 0 <= b0 < 64 && 0 <= b1 < 64 && 0 <= b2 < 64 && 0 <= b3 < 64
    ensures ((b0 * 64 + b1) * 64 + b2) * 64 + b3 == 256 * (256 * First(b0, b1) + Second(b1, b2)) + Third(b2, b3)
  {
  }

  lemma WordOfFour(q: string)
    requires |q| == 4 && Symbols(q)
    ensures Word(q, 4) == ((Bits(q[0]) * 64 + Bits(q[1])) * 64 + Bits(q[2])) * 64 + Bits(q[3])
  {
    assert Word(q, 1) == Bits(q[0]);
    assert Word(q, 2) == Word(q, 1) * 64 + Bits(q[1]);
    assert Word(q, 3) == Word(q, 2) * 64 + Bits(q[2]);
  }

  lemma GroupOfWord(q: string)
    requires |q| == 4 && Symbols(q)
    ensures Group(q) == WordBytes(Word(q, 4))[..3 - Pads(q)]
  {
    WordOfFour(q);
    var b0, b1, b2, b3 := Bits(q[0]), Bits(q[1]), Bits(q[2]), Bits(q[3]);
    Bits24(b0, b1, b2, b3);
    hide Word, WordBytes, First, Second, Third, Bits, Pads, Symbols;
    BytesOff(Word(q, 4), First(b0, b1), Second(b1, b2), Third(b2, b3));
  }

  /** Padding only at the end, and at most twice. */
  predicate PadsLast(s: string) {
    forall i | 0 <= i < |s| - Pads(s) :: s[i] != '='
  }

  /** `decodeQuantum`: a group of four characters into `dest` from `pos` on; 0 if one of
      them is neither in the table nor padding. */
  method DecodeQuantum(dest: array<byte>, pos: nat, q: string) returns (n: nat)
    requires |q| == 4 && PadsLast(q) && pos + 3 - Pads(q) <= dest.Length
    modifies dest
    ensures if Symbols(q) then n == 3 - Pads(q) && dest[..pos + n] == old(dest[..pos]) + Group(q) else n == 0
  {
    hide Value;
    var x, padding, i := 0, 0, 0;
    while i < 4
      invariant 0 <= i <= 4 && x == Word(q, i) && forall k | 0 <= k < i :: IsSymbol(q[k]) || q[k] == '='
      modifies {}
      invariant padding == if i <= 4 - Pads(q) then 0 else i - (4 - Pads(q))
    {
      PadIsNoSymbol();
      if q[i] == '=' {
        x := x * 64;
        padding := padding + 1;
      } else {
        var v := Lookup(q[i]);
        if v == 64 {
          assert !Symbols(q);
          return 0;
        }
        x := x * 64 + v;
      }
      i := i + 1;
    }
    assert Symbols(q) && padding == Pads(q);
    GroupOfWord(q);
    Store(dest, pos, x, padding);
    n := 3 - padding;
  }

  /** The bytes that padding leaves, the last one first. */
  method Store(dest: array<byte>, pos: nat, word: nat, padding: nat)
    requires padding <= 2 && pos + 3 - padding <= dest.Length
    modifies dest
    ensures dest[..pos + 3 - padding] == old(dest[..pos]) + WordBytes(word)[..3 - padding]
  {
    var x := word;
    if padding < 1 {
      dest[pos + 2] := x % 256;
    }
    x := x / 256;
    if padding < 2 {
      dest[pos + 1] := x % 256;
    }
    x := x / 256;
    dest[pos] := x % 256;
  }

  /** What the text from `at` on decodes to, if all of it is symbols. */
  ghost function Rest(s: string, at: nat): seq<byte>
    requires |s| % 4 == 0 && at % 4 == 0 && at <= |s|
  {
    if Symbols(s[at..]) then Bytes(s[at..]) else []
  }

  lemma RestAll(s: string)
    requires |s| % 4 == 0 && Symbols(s)
    ensures Rest(s, 0) == Bytes(s) && Rest(s, |s|) == []
  {
    assert s[0..] == s && s[|s|..] == "";
  }

  lemma RestStep(s: string, at: nat)
    requires |s| % 4 == 0 && at % 4 == 0 && at + 4 <= |s| && Symbols(s)
    ensures Symbols(s[at..at + 4])
    ensures Rest(s, at) == Group(s[at..at + 4]) + Rest(s, at + 4)
  {
    hide Group, IsSymbol;
    Take(s, at, 4);
    Drop(s, at, 4);
  }

  /** A group of a text with padding only at its end. */
  lemma GroupPads(s: string, at: nat)
    requires |s| % 4 == 0 && at % 4 == 0 && at + 4 <= |s| && PadsLast(s)
    ensures PadsLast(s[at..at + 4]) && Pads(s[at..at + 4]) == if at + 4 == |s| then Pads(s) else 0
  {
    var q := s[at..at + 4];
    assert q[3] == s[at + 3] && q[2] == s[at + 2];
  }

  lemma WellFormedIs(s: string)
    requires s != "" && |s| % 4 == 0 && PadsLast(s)
    ensures WellFormed(s) <==> Symbols(s)
  {
    PadIsNoSymbol();
    hide IsSymbol;
  }

  lemma WellFormedPads(s: string)
    requires WellFormed(s)
    ensures PadsLast(s) && s != "" && |s| % 4 == 0
  {
    PadIsNoSymbol();
  }

  /** The checks before decoding: the number of padding characters, if the length is right
      and there is padding only at the end. */
  method Check(src: string) returns (padding: Option<nat>)
    requires NoNul(src)
    ensures padding == if src != "" && |src| % 4 == 0 && PadsLast(src) then Some(Pads(src)) else None
  {
    if |src| == 0 || |src| % 4 != 0 {
      return None;
    }
    var length := 0;
    while length < |src| && src[length] != '='
      invariant length <= |src| && forall i | 0 <= i < length :: src[i] != '='
    {
      length := length + 1;
    }
    var p := 0;
    if length < |src| {
      p := 1;
      if length + 1 < |src| && src[length + 1] == '=' {
        p := 2;
      }
    }
    if length + p != |src| {
      assert !PadsLast(src) by {
        assert length < |src| - Pads(src) && src[length] == '=';
      }
      return None;
    }
    return Some(p);
  }

  /** Where decoding stands after `at` characters, `pads` of `n` being padding. */
  predicate At(n: nat, pads: nat, at: nat, pos: int) {
    at % 4 == 0 && at <= n && pos == if at == n then n / 4 * 3 - pads else at / 4 * 3
  }

  lemma AtNext(n: nat, pads: nat, at: nat, pos: int)
    requires n % 4 == 0 && pads <= 2 && at < n && At(n, pads, at, pos)
    ensures at + 4 <= n && 0 <= pos && pos + 3 - (if at + 4 == n then pads else 0) <= n / 4 * 3 - pads
    ensures At(n, pads, at + 4, pos + 3 - if at + 4 == n then pads else 0)
  {
  }

  lemma AtEnds(n: nat, pads: nat)
    requires n > 0 && n % 4 == 0
    ensures At(n, pads, 0, 0)
    ensures forall pos :: At(n, pads, n, pos) <==> pos == n / 4 * 3 - pads
  {
  }

  /** What has been decoded before `at`, if the rest can be decoded too. */
  ghost predicate Decoded(src: string, at: nat, got: seq<byte>)
    requires |src| % 4 == 0 && at % 4 == 0 && at <= |src|
  {
    Symbols(src[..at]) && (Symbols(src) ==> got + Rest(src, at) == Bytes(src))
  }

  lemma DecodedStarts(src: string)
    requires |src| % 4 == 0
    ensures Decoded(src, 0, [])
  {
    hide Bytes, Rest;
    if Symbols(src) {
      RestAll(src);
      assert [] + Bytes(src) == Bytes(src);
    }
  }

  lemma SymbolsOn(src: string, at: nat)
    requires at + 4 <= |src| && Symbols(src[..at]) && Symbols(src[at..at + 4])
    ensures Symbols(src[..at + 4])
  {
    hide IsSymbol;
    assert src[..at + 4] == src[..at] + src[at..at + 4];
  }

  lemma DecodedMeans(src: string, at: nat, got: seq<byte>)
    requires |src| % 4 == 0 && at % 4 == 0 && at <= |src| && Decoded(src, at, got)
    ensures Symbols(src[..at])
    ensures Symbols(src) ==> got + Rest(src, at) == Bytes(src)
  {
  }

  lemma DecodedIf(src: string, at: nat, got: seq<byte>)
    requires |src| % 4 == 0 && at % 4 == 0 && at <= |src| && Symbols(src[..at])
    requires Symbols(src) ==> got + Rest(src, at) == Bytes(src)
    ensures Decoded(src, at, got)
  {
  }

  lemma DecodedOn(src: string, at: nat, got: seq<byte>, group: seq<byte>)
    requires |src| % 4 == 0 && at % 4 == 0 && at + 4 <= |src| && Decoded(src, at, got)
    requires Symbols(src[at..at + 4]) && group == Group(src[at..at + 4])
    ensures Decoded(src, at + 4, got + group)
  {
    hide *;
    DecodedMeans(src, at, got);
    SymbolsOn(src, at);
    if Symbols(src) {
      RestStep(src, at);
      Regroup(got, group, Rest(src, at + 4));
    }
    DecodedIf(src, at + 4, got + group);
  }

  lemma DecodedEnds(src: string, got: seq<byte>)
    requires |src| % 4 == 0 && Decoded(src, |src|, got)
    ensures Symbols(src) && got == Bytes(src)
  {
    hide Bytes, Rest;
    assert src[..|src|] == src;
    RestAll(src);
    assert got + [] == got;
  }

  /** Decodes the groups into a buffer of the decoded size and one more. */
  method DecodeGroups(src: string, newstr: array<byte>) returns (ok: bool)
    requires src != "" && |src| % 4 == 0 && PadsLast(src) && newstr.Length == |src| / 4 * 3 - Pads(src) + 1
    modifies newstr
    ensures ok == Symbols(src)
    ensures ok ==> newstr[..newstr.Length - 1] == Bytes(src)
  {
    hide Symbols, Bytes, Pads, Group, PadsLast, At, Decoded;
    ghost var n, pads := |src|, Pads(src);
    var pos, at := 0, 0;
    DecodedStarts(src);
    AtEnds(n, pads);
    while at < |src|
      invariant at % 4 == 0 && at <= n && At(n, pads, at, pos)
      invariant 0 <= pos < newstr.Length && Decoded(src, at, newstr[..pos])
      decreases n - at
    {
      AtNext(n, pads, at, pos);
      GroupPads(src, at);
      var q := src[at..at + 4];
      ghost var got := newstr[..pos];
      var result := DecodeQuantum(newstr, pos, q);
      if result == 0 {
        NotSymbols(src, at);
        return false;
      }
      DecodedOn(src, at, got, Group(q));
      pos, at := pos + result, at + 4;
    }
    DecodedEnds(src, newstr[..pos]);
    newstr[pos] := 0;
    return true;
  }

  /** `Curl_base64_decode`: exactly the well-formed texts are accepted, and the bytes fill
      the buffer of the size computed beforehand, up to its terminating NUL. */
  method Decode(src: string) returns (r: Option<seq<byte>>)
    requires NoNul(src)
    ensures r.Some? <==> WellFormed(src)
    ensures r.Some? ==> Symbols(src) && r.value == Bytes(src) && |r.value| == |src| / 4 * 3 - Pads(src)
  {
    hide WellFormed, Symbols, Bytes, Pads, PadsLast;
    var padding := Check(src);
    if padding == None {
      if WellFormed(src) {
        WellFormedPads(src);
      }
      return None;
    }
    WellFormedIs(src);
    var numQuantums := |src| / 4;
    var rawlen := numQuantums * 3 - padding.value;
    var newstr := new byte[rawlen + 1];
    var ok := DecodeGroups(src, newstr);
    if !ok {
      return None;
    }
    return Some(newstr[..rawlen]);
  }

  lemma NotSymbols(s: string, at: nat)
    requires at + 4 <= |s| && !Symbols(s[at..at + 4])
    ensures !Symbols(s)
  {
    var i :| 0 <= i < 4 && !(IsSymbol(s[at..at + 4][i]) || s[at..at + 4][i] == '=');
    assert s[at + i] == s[at..at + 4][i];
  }

  // ------------------------------------------------------------ the URL-safe alphabet

  predicate Alike(c: char, d: char) {
    c == d || (!IsSymbol(c) && c != '=')
  }

  lemma SymbolsAlike(v: int)
    requires 0 <= v < 64
    ensures |ALPHABET| == 64 && |URL_ALPHABET| == 64 && Alike(URL_ALPHABET[v], ALPHABET[v])
  {
    AlphabetSize();
    SymbolAt("+/", v);
    SymbolAt("-_", v);
  }

  lemma QuadsAlike(a: byte, b: byte, c: byte)
    ensures |ALPHABET| == 64 && |URL_ALPHABET| == 64
    ensures var q, u := Quad(ALPHABET, a, b, c), Quad(URL_ALPHABET, a, b, c);
            Alike(u[0], q[0]) && Alike(u[1], q[1]) && Alike(u[2], q[2]) && Alike(u[3], q[3])
  {
    SymbolsAlike(Bits0(a));
    SymbolsAlike(Bits1(a, b));
    SymbolsAlike(Bits2(b, c));
    SymbolsAlike(Bits3(c));
    QuadIs(ALPHABET, a, b, c);
    QuadIs(URL_ALPHABET, a, b, c);
    hide *;
  }

  lemma {:induction false} EncodingsAlike(s: seq<byte>)
    ensures |ALPHABET| == 64 && |URL_ALPHABET| == 64
    ensures forall i | 0 <= i < |Encoded(ALPHABET, s)| :: Alike(Encoded(URL_ALPHABET, s)[i], Encoded(ALPHABET, s)[i])
    decreases |s|
  {
    AlphabetSize();
    hide ALPHABET, URL_ALPHABET, IsSymbol, Quad;
    if s != [] {
      QuadsAlike(s[0], if |s| > 1 then s[1] else 0, if |s| > 2 then s[2] else 0);
      if |s| > 2 {
        EncodingsAlike(s[3..]);
      }
    }
  }

  lemma SymbolsSame(v: int)
    requires 0 <= v < 64
    ensures |ALPHABET| == 64 && |URL_ALPHABET| == 64 && (URL_ALPHABET[v] == ALPHABET[v] <==> v < 62)
  {
    AlphabetSize();
    SymbolAt("+/", v);
    SymbolAt("-_", v);
  }

  lemma QuadsSame(a: byte, b: byte, c: byte)
    ensures |ALPHABET| == 64 && |URL_ALPHABET| == 64
    ensures var q, u := Quad(ALPHABET, a, b, c), Quad(URL_ALPHABET, a, b, c);
            && (u[0] == q[0] <==> Bits0(a) < 62) && (u[1] == q[1] <==> Bits1(a, b) < 62)
            && (u[2] == q[2] <==> Bits2(b, c) < 62) && (u[3] == q[3] <==> Bits3(c) < 62)
  {
    SymbolsSame(Bits0(a));
    SymbolsSame(Bits1(a, b));
    SymbolsSame(Bits2(b, c));
    SymbolsSame(Bits3(c));
    QuadIs(ALPHABET, a, b, c);
    QuadIs(URL_ALPHABET, a, b, c);
    hide *;
  }

  /** The groups of six bits that begin in the byte `k` are below 62; zeros follow the last byte. */
  predicate LowGroups(s: seq<byte>, k: nat)
    requires k < |s|
  {
    var next := if k + 1 < |s| then s[k + 1] else 0;
    if k % 3 == 0 then Bits0(s[k]) < 62 && Bits1(s[k], next) < 62
    else if k % 3 == 1 then Bits2(s[k], next) < 62
    else Bits3(s[k]) < 62
  }

  predicate AllLow(s: seq<byte>) {
    forall k | 0 <= k < |s| :: LowGroups(s, k)
  }

  lemma LowStep(s: seq<byte>)
    requires s != []
    ensures var b, c := if |s| > 1 then s[1] else 0, if |s| > 2 then s[2] else 0;
            AllLow(s) <==>
            Bits0(s[0]) < 62 && Bits1(s[0], b) < 62 && (|s| > 1 ==> Bits2(b, c) < 62) && (|s| > 2 ==> Bits3(c) < 62)
            && (|s| > 2 ==> AllLow(s[3..]))
  {
    hide Bits0, Bits1, Bits2, Bits3;
    assert LowGroups(s, 0) <==> Bits0(s[0]) < 62 && Bits1(s[0], if |s| > 1 then s[1] else 0) < 62;
    assert |s| > 1 ==> (LowGroups(s, 1) <==> Bits2(s[1], if |s| > 2 then s[2] else 0) < 62);
    assert |s| > 2 ==> (LowGroups(s, 2) <==> Bits3(s[2]) < 62);
    if |s| > 2 {
      forall k | 0 <= k < |s| - 3
        ensures LowGroups(s[3..], k) <==> LowGroups(s, k + 3)
      {
        assert (k + 3) % 3 == k % 3;
      }
      assert forall k | 3 <= k < |s| :: LowGroups(s, k) <==> LowGroups(s[3..], k - 3);
      hide LowGroups;
    }
  }

  lemma {:induction false} SameEncoding(s: seq<byte>)
    ensures |ALPHABET| == 64 && |URL_ALPHABET| == 64
    ensures Encoded(URL_ALPHABET, s) == Encoded(ALPHABET, s) <==> AllLow(s)
    decreases |s|
  {
    AlphabetSize();
    hide ALPHABET, URL_ALPHABET, Quad, Bits0, Bits1, Bits2, Bits3, AllLow;
    if s == [] {
      NothingHigh();
    } else {
      LowStep(s);
      QuadsSame(s[0], if |s| > 1 then s[1] else 0, if |s| > 2 then s[2] else 0);
      if |s| > 2 {
        SameEncoding(s[3..]);
        var q, u := Quad(ALPHABET, s[0], s[1], s[2]), Quad(URL_ALPHABET, s[0], s[1], s[2]);
        SameParts(u, Encoded(URL_ALPHABET, s[3..]), q, Encoded(ALPHABET, s[3..]));
      } else {
        SameFour(Encoded(URL_ALPHABET, s), Encoded(ALPHABET, s));
      }
    }
  }

  lemma NothingHigh()
    ensures AllLow([])
  {
  }

  lemma SameParts(a: string, b: string, c: string, d: string)
    requires |a| == |c| == 4
    ensures a + b == c + d <==> a[0] == c[0] && a[1] == c[1] && a[2] == c[2] && a[3] == c[3] && b == d
  {
    if a + b == c + d {
      assert a == (a + b)[..4] == (c + d)[..4] == c;
      assert b == (a + b)[4..] == (c + d)[4..] == d;
    } else if a[0] == c[0] && a[1] == c[1] && a[2] == c[2] && a[3] == c[3] {
      assert a == c;
    }
  }

  lemma UrlTextSame(s: seq<byte>)
    requires s != []
    ensures |ALPHABET| == 64 && |URL_ALPHABET| == 64
    ensures WellFormed(Encoded(URL_ALPHABET, s)) <==> Encoded(URL_ALPHABET, s) == Encoded(ALPHABET, s)
  {
    EncodedDecodes(s);
    EncodingsAlike(s);
    hide ALPHABET, URL_ALPHABET, Encoded, IsSymbol;
    var u, e := Encoded(URL_ALPHABET, s), Encoded(ALPHABET, s);
    if WellFormed(u) {
      WellFormedCut(u);
      assert forall i | 0 <= i < |u| :: u[i] == e[i];
    }
  }

  /** `Curl_base64_decode` accepts what `Curl_base64url_encode` writes exactly when no group
      of six bits of the input is 62 or 63, and then reads the input back. */
  lemma UrlTextAccepted(s: seq<byte>)
    requires s != []
    ensures |ALPHABET| == 64 && |URL_ALPHABET| == 64
    ensures WellFormed(Encoded(URL_ALPHABET, s)) <==> AllLow(s)
    ensures AllLow(s) ==> Symbols(Encoded(URL_ALPHABET, s)) && Bytes(Encoded(URL_ALPHABET, s)) == s
  {
    UrlTextSame(s);
    SameEncoding(s);
    EncodedDecodes(s);
    hide ALPHABET, URL_ALPHABET, Encoded, IsSymbol, WellFormed, Bytes, AllLow, Symbols;
  }
}
