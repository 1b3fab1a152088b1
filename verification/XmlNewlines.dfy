/** The line end normalisation of `TiXmlDocument::LoadFile`, done in place with a read
    head and a write head. */
module XmlNewlines {
  import opened XmlText
  import opened XmlTextProofs

  const CR := 13 as char
  const LF := 10 as char

  /** CR LF and lone CR become LF. */
  function Normalize(s: string): (r: string)
    ensures |r| <= |s|
  {
    if s == "" then ""
    else if s[0] != CR then [s[0]] + Normalize(s[1..])
    else if |s| > 1 && s[1] == LF then [LF] + Normalize(s[2..])
    else [LF] + Normalize(s[1..])
  }

  lemma {:induction false} CStrOf(s: string, t: string)
    requires forall i | 0 <= i < |s| :: s[i] as int != 0
    requires t != "" && t[0] as int == 0
    ensures CStr(s + t) == s
  {
    if s == "" {
      assert s + t == t;
    } else {
      CStrOf(s[1..], t);
      assert (s + t)[1..] == s[1..] + t;
    }
  }

  lemma {:induction false} NormalizedKeepsNul(s: string)
    requires forall i | 0 <= i < |s| :: s[i] as int != 0
    ensures forall i | 0 <= i < |Normalize(s)| :: Normalize(s)[i] as int != 0
  {
    if s != "" {
      NormalizedKeepsNul(s[1..]);
      if s[0] == CR && |s| > 1 && s[1] == LF {
        NormalizedKeepsNul(s[2..]);
      }
    }
  }

  lemma NormalizeStep(text: string, p: nat)
    requires p < |text|
    ensures text[p] != CR ==> Normalize(text[p..]) == [text[p]] + Normalize(text[p + 1..])
    ensures text[p] == CR && p + 1 < |text| && text[p + 1] == LF ==>
              Normalize(text[p..]) == [LF] + Normalize(text[p + 2..])
    ensures text[p] == CR && !(p + 1 < |text| && text[p + 1] == LF) ==>
              Normalize(text[p..]) == [LF] + Normalize(text[p + 1..])
  {
    assert text[p..][1..] == text[p + 1..];
    assert p + 2 <= |text| ==> text[p..][2..] == text[p + 2..];
  }

  lemma MovedOver(done: string, c: char, rest: string, rest': string)
    requires rest == [c] + rest'
    ensures done + rest == done + [c] + rest'
  {
  }

  /** The two heads' loop over a buffer that holds `text` before its first NUL: the write
      head `q` never passes the read head, and in the end it is behind the normalised text. */
  method CopyHeads(buf: array<char>, ghost text: string) returns (q: nat)
    requires |text| < buf.Length && buf[|text|] as int == 0
    requires buf[..|text|] == text && forall i | 0 <= i < |text| :: text[i] as int != 0
    modifies buf
    ensures q <= |text| && buf[..q] == Normalize(text)
  {
    hide Normalize;
    ghost var n := |text|;
    var p := 0;
    q := 0;
    assert text[0..] == text && "" + Normalize(text) == Normalize(text);
    assert forall i | 0 <= i < n :: buf[i] == buf[..n][i];
    while buf[p] as int != 0
      invariant 0 <= q <= p <= n
      invariant buf[n] as int == 0 && forall i | p <= i < n :: buf[i] == text[i]
      invariant buf[..q] + Normalize(text[p..]) == Normalize(text)
      decreases n - p
    {
      NormalizeStep(text, p);
      ghost var done, rest := buf[..q], Normalize(text[p..]);
      if buf[p] == CR {
        buf[q] := LF;
        q, p := q + 1, p + 1;
        if buf[p] == LF {
          p := p + 1;
        }
        MovedOver(done, LF, rest, Normalize(text[p..]));
        assert buf[..q] == done + [LF];
      } else {
        ghost var c := buf[p];
        buf[q] := buf[p];
        q, p := q + 1, p + 1;
        MovedOver(done, c, rest, Normalize(text[p..]));
        assert buf[..q] == done + [c];
      }
    }
    assert text[p..] == "";
    NothingNormalized();
    assert buf[..q] + "" == buf[..q];
  }

  lemma NothingNormalized()
    ensures Normalize("") == ""
  {
  }

  /** The whole buffer, whose last place is for the terminating NUL: what stands before the
      first NUL is normalised. */
  method NormalizeInPlace(buf: array<char>)
    requires buf.Length > 0
    modifies buf
    ensures CStr(buf[..]) == Normalize(CStr(old(buf[..buf.Length - 1])))
  {
    hide Normalize, CStr;
    var length := buf.Length - 1;
    ghost var before := buf[..length];
    ghost var text := CStr(before);
    CStrShorter(before);
    buf[length] := 0 as char;
    assert forall i | 0 <= i < length :: buf[i] == before[i];
    assert buf[..|text|] == text;
    var q := CopyHeads(buf, text);
    buf[q] := 0 as char;
    NormalizedKeepsNul(text);
    assert buf[..] == Normalize(text) + buf[q..];
    CStrOf(Normalize(text), buf[q..]);
  }

  // ------------------------------------------------------------- what normalising means

  predicate NoCR(s: string) {
    forall i | 0 <= i < |s| :: s[i] != CR
  }

  /** No CR is left, and a text without CR is left alone, so normalising twice is
      normalising once. */
  lemma {:induction false} NormalizedHasNoCR(s: string)
    ensures NoCR(Normalize(s))
  {
    if s != "" {
      NormalizedHasNoCR(s[1..]);
      if s[0] == CR && |s| > 1 && s[1] == LF {
        NormalizedHasNoCR(s[2..]);
      }
    }
  }

  lemma {:induction false} NoCRStays(s: string)
    requires NoCR(s)
    ensures Normalize(s) == s
  {
    if s != "" {
      NoCRStays(s[1..]);
    }
  }

  lemma NormalizeIdempotent(s: string)
    ensures Normalize(Normalize(s)) == Normalize(s)
  {
    NormalizedHasNoCR(s);
    NoCRStays(Normalize(s));
  }

  lemma NormalizeEnd(end: string, more: string)
    requires end in {"\r\n", "\r", "\n"} && (end == "\r" ==> !("\n" <= more))
    ensures Normalize(end + more) == "\n" + Normalize(more)
  {
    assert (end + more)[|end|..] == more;
    if end == "\r" {
      assert more != "" ==> (end + more)[1] == more[0];
    } else if end == "\r\n" {
      assert (end + more)[1] == LF;
    }
  }

  /** Line by line: a text, one line end of any kind, and more text. */
  lemma {:induction false} NormalizeLines(line: string, end: string, more: string)
    requires NoCR(line) && end in {"\r\n", "\r", "\n"} && (end == "\r" ==> !("\n" <= more))
    ensures Normalize(line + (end + more)) == line + ("\n" + Normalize(more))
    decreases |line|
  {
    if line == "" {
      hide Normalize;
      NormalizeEnd(end, more);
      assert line + (end + more) == end + more;
      assert line + ("\n" + Normalize(more)) == "\n" + Normalize(more);
    } else {
      NormalizeLines(line[1..], end, more);
      ghost var rest := end + more;
      assert (line + rest)[1..] == line[1..] + rest;
      MovedOver("", line[0], [line[0]] + (line[1..] + ("\n" + Normalize(more))), line[1..] + ("\n" + Normalize(more)));
      assert [line[0]] + line[1..] == line;
    }
  }
}
