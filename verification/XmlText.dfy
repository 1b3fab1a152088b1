/** TinyXML's text level in the fixed one-byte encoding and the C locale: character
    classes, names, entity references, the two ways of reading text, and the escaper.

    A `const char*` into a NUL-terminated buffer is the text from that place on; the
    text before the NUL holds no NUL itself, so the pointer is at the end exactly
    when that text is empty. */
module XmlText {

  datatype Ptr = Null | At(rest: string)

  // ------------------------------------------------------------- character classes

  /** The part of a buffer, or of a string, before its first NUL. */
  function CStr(v: string): string {
    if v == "" || v[0] as int == 0 then "" else [v[0]] + CStr(v[1..])
  }

  predicate IsWhiteSpace(c: char) {
    c == ' ' || 9 <= c as int <= 13
  }

  predicate IsAlpha(c: char) {
    'a' <= c <= 'z' || 'A' <= c <= 'Z' || c as int >= 127
  }

  predicate IsAlphaNum(c: char) {
    IsAlpha(c) || '0' <= c <= '9'
  }

  function ToLower(c: char): char {
    if 'A' <= c <= 'Z' then (c as int + 32) as char else c
  }

  predicate NameStart(c: char) {
    IsAlpha(c) || c == '_'
  }

  predicate NameChar(c: char) {
    IsAlphaNum(c) || c == '_' || c == '-' || c == '.' || c == ':'
  }

  /** `StringEqual`: the text at `p` begins with `tag`. */
  predicate StringEqual(p: string, tag: string) {
    p != "" && tag <= p
  }

  predicate StringEqualNoCase(p: string, tag: string) {
    p != "" && |tag| <= |p| && forall i | 0 <= i < |tag| :: ToLower(p[i]) == ToLower(tag[i])
  }

  // --------------------------------------------------------------- white space, names

  function SkipWS(p: string): (r: string)
    ensures |r| <= |p|
    ensures r != "" ==> !IsWhiteSpace(r[0])
  {
    if p != "" && IsWhiteSpace(p[0]) then SkipWS(p[1..]) else p
  }

  function SkipWhiteSpace(p: Ptr): (r: Ptr)
    ensures r.At? ==> p.At? && p.rest != "" && r.rest == SkipWS(p.rest)
  {
    if p.Null? || p.rest == "" then Null else At(SkipWS(p.rest))
  }

  function NameLength(p: string): (n: nat)
    ensures n <= |p|
  {
    if p != "" && NameChar(p[0]) then 1 + NameLength(p[1..]) else 0
  }

  /** The name at `p`, and the pointer past it. */
  function ReadName(p: Ptr): (r: (Ptr, string))
    ensures r.0.At? ==> p.At? && |r.0.rest| < |p.rest|
  {
    if p.At? && p.rest != "" && NameStart(p.rest[0]) then
      assert NameChar(p.rest[0]);
      (At(p.rest[NameLength(p.rest)..]), p.rest[..NameLength(p.rest)])
    else (Null, "")
  }

  // ----------------------------------------------------------------------- entities

  /** `strchr`: the first place at or after `i` that holds `c`, or the length. */
  function IndexOf(p: string, c: char, i: nat): (j: nat)
    requires i <= |p|
    ensures i <= j <= |p|
    ensures j < |p| ==> p[j] == c
    decreases |p| - i
  {
    if i == |p| || p[i] == c then i else IndexOf(p, c, i + 1)
  }

  const UINT := 0x1_0000_0000

  /** The value of a digit, or -1. */
  function Digit(c: char, base: int): int {
    if '0' <= c <= '9' then c as int - '0' as int
    else if base == 16 && 'a' <= c <= 'f' then c as int - 'a' as int + 10
    else if base == 16 && 'A' <= c <= 'F' then c as int - 'A' as int + 10
    else -1
  }

  /** Reads digits backwards from `q` down to the character `stop`; -1 for a stray character. */
  function Backwards(p: string, q: nat, stop: char, base: int, mult: int, ucs: int): int
    requires q < |p| && exists i | 0 <= i <= q :: p[i] == stop
  {
    if p[q] == stop then ucs
    else if Digit(p[q], base) < 0 then -1
    else
      Backwards(p, q - 1, stop, base, (mult * base) % UINT, (ucs + mult * Digit(p[q], base)) % UINT)
  }

  const ENTITIES := [("&amp;", '&'), ("&lt;", '<'), ("&gt;", '>'), ("&quot;", '\"'), ("&apos;", '\'')]

  /** The first of the named entities from `i` on that `p` begins with. */
  function Named(p: string, i: nat): (r: (Ptr, string))
    requires p != "" && i <= 5
    ensures r.0.At? && |r.0.rest| < |p|
    decreases 5 - i
  {
    if i == 5 then (At(p[1..]), "")
    else if ENTITIES[i].0 <= p then (At(p[|ENTITIES[i].0|..]), [ENTITIES[i].1])
    else Named(p, i + 1)
  }

  /** A character given by number: `semi` is the place of its semicolon. */
  function Numbered(p: string, semi: nat, stop: char, base: int): (r: (Ptr, string))
    requires 0 < semi <= |p| && exists i | 0 <= i < semi :: p[i] == stop
    ensures r.0.At? ==> |r.0.rest| < |p|
  {
    if semi == |p| then (Null, "")
    else
      var ucs := Backwards(p, semi - 1, stop, base, 1, 0);
      if ucs < 0 then (Null, "") else (At(p[semi + 1..]), [(ucs % 256) as char])
  }

  /** The character an entity stands for (none for an unknown one) and the pointer past it. */
  function GetEntity(p: string): (r: (Ptr, string))
    requires p != "" && p[0] == '&'
    ensures r.0.At? ==> |r.0.rest| < |p|
  {
    if |p| > 2 && p[1] == '#' then
      if p[2] == 'x' then
        if |p| == 3 then (Null, "") else Numbered(p, IndexOf(p, ';', 3), 'x', 16)
      else Numbered(p, IndexOf(p, ';', 2), '#', 10)
    else Named(p, 0)
  }

  /** One character of text, entities expanded. */
  function GetChar(p: string): (r: (Ptr, string))
    requires p != ""
    ensures r.0.At? ==> |r.0.rest| < |p|
  {
    if p[0] == '&' then GetEntity(p) else (At(p[1..]), [p[0]])
  }

  // -------------------------------------------------------------------- reading text

  /** Whether a reading loop stops at `p`: at nothing, at the end, or at the end tag. */
  predicate Stops(p: Ptr, endTag: string) {
    p.Null? || p.rest == "" || StringEqual(p.rest, endTag)
  }

  /** The first loop of `ReadText`: all white space is kept. */
  function Keep(p: Ptr, endTag: string): (r: (Ptr, string))
    ensures Stops(r.0, endTag)
    ensures r.0.At? ==> p.At? && |r.0.rest| <= |p.rest|
    decreases if p.At? then |p.rest| + 1 else 0
  {
    if Stops(p, endTag) then (p, "")
    else
      var (next, c) := GetChar(p.rest);
      var (end, text) := Keep(next, endTag);
      (end, c + text)
  }

  /** The second loop: a run of white space becomes one space before the next
      character, and `blank` says that such a run has been passed. */
  function Condense(p: Ptr, blank: bool, endTag: string): (r: (Ptr, string))
    ensures Stops(r.0, endTag)
    ensures r.0.At? ==> p.At? && |r.0.rest| <= |p.rest|
    decreases if p.At? then |p.rest| + 1 else 0
  {
    if Stops(p, endTag) then (p, "")
    else if IsWhiteSpace(p.rest[0]) then Condense(At(p.rest[1..]), true, endTag)
    else
      var (next, c) := GetChar(p.rest);
      var (end, text) := Condense(next, false, endTag);
      (end, (if blank then " " else "") + c + text)
  }

  /** Where `ReadText` stops, and the text it has read by then. */
  function ReadTo(p: Ptr, trim: bool, endTag: string): (r: (Ptr, string))
    ensures Stops(r.0, endTag)
    ensures r.0.At? ==> p.At? && |r.0.rest| <= |p.rest|
  {
    if trim then Condense(SkipWhiteSpace(p), false, endTag) else Keep(p, endTag)
  }

  /** The pointer past the end tag; null when it is missing or ends the buffer. */
  function PastTag(p: Ptr, endTag: string): (r: Ptr)
    requires Stops(p, endTag)
    ensures r.At? ==> p.At? && |r.rest| == |p.rest| - |endTag| && r.rest != ""
  {
    if p.At? && p.rest != "" && |p.rest| > |endTag| then At(p.rest[|endTag|..]) else Null
  }

  function ReadText(p: Ptr, trim: bool, endTag: string): (Ptr, string) {
    var (end, text) := ReadTo(p, trim, endTag);
    (PastTag(end, endTag), text)
  }

  // -------------------------------------------------------------------- the escaper

  function HexDigit(n: int): char
    requires 0 <= n < 16
  {
    "0123456789ABCDEF"[n]
  }

  /** How one character is written. */
  function EncodeChar(c: char): string {
    if c == '&' then "&amp;"
    else if c == '<' then "&lt;"
    else if c == '>' then "&gt;"
    else if c == '\"' then "&quot;"
    else if c == '\'' then "&apos;"
    else if c as int < 32 then ['&', '#', 'x', HexDigit(c as int / 16), HexDigit(c as int % 16), ';']
    else [c]
  }

  const HEX_PREFIX := "&#x"

  /** How much of a text that begins with a hexadecimal reference is passed through:
      up to the semicolon, or all but the last character. */
  function PassLength(v: string, n: nat): (r: nat)
    requires n < |v|
    ensures n <= r < |v|
    decreases |v| - n
  {
    if n >= |v| - 1 || (n > 0 && v[n] == ';') then n else PassLength(v, n + 1)
  }

  function Encode(v: string): string
    decreases |v|
  {
    if v == "" then ""
    else if HEX_PREFIX <= v then v[..PassLength(v, 1)] + Encode(v[PassLength(v, 1)..])
    else EncodeChar(v[0]) + Encode(v[1..])
  }

  /** No hexadecimal reference begins anywhere in `v`. */
  ghost predicate NoHex(v: string) {
    forall i | 0 <= i <= |v| :: !(HEX_PREFIX <= v[i..])
  }
}

