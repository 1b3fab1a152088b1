/** What reading makes of text as it stands, without references: kept whole, or its words
    with single spaces between them. */
module XmlReading {
  import opened Basics
  import opened XmlText
  import opened XmlTextProofs

  /** Text in which neither a reference nor the end tag begins. */
  ghost predicate Raw(v: string, endTag: string)
    requires endTag != ""
  {
    forall i | 0 <= i < |v| :: v[i] != '&' && v[i] != endTag[0]
  }

  ghost predicate Word(v: string, endTag: string)
    requires endTag != ""
  {
    v != "" && Raw(v, endTag) && forall i | 0 <= i < |v| :: !IsWhiteSpace(v[i])
  }

  /** When white space is kept, text is read as it stands, up to the end tag. */
  lemma {:induction false} RawIsKept(v: string, end: string, endTag: string)
    requires endTag != "" && Raw(v, endTag) && StringEqual(end, endTag)
    ensures Keep(At(v + end), endTag) == (At(end), v)
    decreases |v|
  {
    var p := v + end;
    if v == "" {
      assert p == end;
    } else {
      RawTail(v, endTag);
      RawStep(v, end, endTag);
      RawIsKept(v[1..], end, endTag);
      hide Raw, GetChar;
      assert v == [v[0]] + v[1..];
    }
  }

  lemma RawTail(v: string, endTag: string)
    requires endTag != "" && v != "" && Raw(v, endTag)
    ensures Raw(v[1..], endTag)
    ensures Word(v, endTag) && |v| > 1 ==> Word(v[1..], endTag)
  {
    hide IsWhiteSpace;
  }

  lemma RawStep(v: string, x: string, endTag: string)
    requires endTag != "" && v != "" && Raw(v, endTag)
    ensures !StringEqual(v + x, endTag) && GetChar(v + x) == (At(v[1..] + x), [v[0]])
    ensures (v + x)[0] == v[0]
  {
    var p := v + x;
    assert p[1..] == v[1..] + x && p[0] == v[0];
    assert v[0] != '&' && v[0] != endTag[0];
    BeginsAlike(p, endTag);
    hide Raw;
  }

  lemma BeginsAlike(p: string, tag: string)
    requires tag != "" && p != ""
    ensures tag <= p ==> p[0] == tag[0]
  {
  }

  // --------------------------------------------------------------------------- condensing

  lemma {:induction false} WordCondensed(v: string, x: string, blank: bool, endTag: string)
    requires endTag != "" && Word(v, endTag)
    ensures var (end, text) := Condense(At(x), false, endTag);
            Condense(At(v + x), blank, endTag) == (end, Spaced(blank, v + text))
    decreases |v|
  {
    hide *;
    var text := Condense(At(x), false, endTag).1;
    WordIsRaw(v, endTag);
    RawTail(v, endTag);
    RawStep(v, x, endTag);
    NextCondensed(v + x, v[1..] + x, blank, endTag);
    if |v| == 1 {
      assert v[1..] + x == x && v == [v[0]];
    } else {
      WordCondensed(v[1..], x, false, endTag);
      SpacedIs(false, v[1..] + text);
      assert [v[0]] + (v[1..] + text) == v + text;
    }
  }

  lemma WordIsRaw(v: string, endTag: string)
    requires endTag != "" && Word(v, endTag)
    ensures v != "" && Raw(v, endTag) && !IsWhiteSpace(v[0])
  {
    hide Raw, IsWhiteSpace;
  }

  lemma SpacedIs(blank: bool, v: string)
    ensures Spaced(blank, v) == if blank then " " + v else v
  {
  }

  lemma NextCondensed(p: string, next: string, blank: bool, endTag: string)
    requires p != "" && endTag != "" && !StringEqual(p, endTag) && !IsWhiteSpace(p[0])
    requires GetChar(p) == (At(next), [p[0]])
    ensures var (end, text) := Condense(At(next), false, endTag);
            Condense(At(p), blank, endTag) == (end, Spaced(blank, [p[0]] + text))
  {
    hide StringEqual, IsWhiteSpace, GetChar;
    var text := Condense(At(next), false, endTag).1;
    assert " " + [p[0]] + text == " " + ([p[0]] + text);
    assert "" + [p[0]] + text == [p[0]] + text;
  }

  /** A run of white space, however long, is as good as the one space still to be written. */
  lemma {:induction false} GapCondensed(w: string, x: string, blank: bool, endTag: string)
    requires endTag != "" && !IsWhiteSpace(endTag[0]) && AllWhite(w) && w != ""
    ensures Condense(At(w + x), blank, endTag) == Condense(At(x), true, endTag)
    decreases |w|
  {
    var p := w + x;
    assert p[0] == w[0] && p[1..] == w[1..] + x;
    if |w| == 1 {
      assert w[1..] + x == x;
    } else {
      GapCondensed(w[1..], x, true, endTag);
    }
  }

  // -------------------------------------------------------------------------------- words

  /** Each word with the white space behind it. */
  function Spread(words: seq<string>, gaps: seq<string>): string
    requires |words| == |gaps|
  {
    if words == [] then "" else words[0] + (gaps[0] + Spread(words[1..], gaps[1..]))
  }

  /** The words with one space between each two. */
  function Sentence(words: seq<string>): string {
    if words == [] then ""
    else if |words| == 1 then words[0]
    else words[0] + " " + Sentence(words[1..])
  }

  /** There is white space between any two words. */
  ghost predicate AreWords(words: seq<string>, gaps: seq<string>, endTag: string)
    requires endTag != "" && |words| == |gaps|
  {
    forall i | 0 <= i < |words| ::
      Word(words[i], endTag) && AllWhite(gaps[i]) && (i + 1 < |words| ==> gaps[i] != "")
  }

  /** Condensing leaves the words, with one space between them and none around them, whatever
      white space is there. */
  lemma WordsRead(lead: string, words: seq<string>, gaps: seq<string>, end: string, endTag: string)
    requires endTag != "" && !IsWhiteSpace(endTag[0]) && StringEqual(end, endTag)
    requires AllWhite(lead) && |words| == |gaps| && AreWords(words, gaps, endTag)
    ensures ReadTo(At(lead + (Spread(words, gaps) + end)), true, endTag) == (At(end), Sentence(words))
  {
    hide *;
    var text := Spread(words, gaps) + end;
    WordsBegin(words, gaps, end, endTag);
    LeadSkipped(lead, text);
    WordsCondensed(words, gaps, end, false, endTag);
    SpacedIs(false, Sentence(words));
    SentenceIs(words);
    ReadTrimmed(lead + text, endTag);
  }

  lemma ReadTrimmed(p: string, endTag: string)
    ensures ReadTo(At(p), true, endTag) == Condense(SkipWhiteSpace(At(p)), false, endTag)
  {
    hide Condense, SkipWhiteSpace;
  }

  lemma WordsBegin(words: seq<string>, gaps: seq<string>, end: string, endTag: string)
    requires endTag != "" && !IsWhiteSpace(endTag[0]) && StringEqual(end, endTag)
    requires |words| == |gaps| && AreWords(words, gaps, endTag)
    ensures var text := Spread(words, gaps) + end; text != "" && !IsWhiteSpace(text[0])
  {
    hide IsWhiteSpace;
    if words == [] {
      assert end[0] == endTag[0] && Spread(words, gaps) + end == end;
    } else {
      assert Word(words[0], endTag);
    }
  }

  lemma {:induction false} LeadSkipped(w: string, x: string)
    requires AllWhite(w) && x != "" && !IsWhiteSpace(x[0])
    ensures SkipWhiteSpace(At(w + x)) == At(x)
    decreases |w|
  {
    if w == "" {
      assert w + x == x;
    } else {
      assert (w + x)[0] == w[0] && (w + x)[1..] == w[1..] + x;
      LeadSkipped(w[1..], x);
    }
  }

  lemma {:induction false} WordsCondensed(words: seq<string>, gaps: seq<string>, end: string, blank: bool,
                                          endTag: string)
    requires endTag != "" && !IsWhiteSpace(endTag[0]) && StringEqual(end, endTag)
    requires |words| == |gaps| && AreWords(words, gaps, endTag)
    ensures Condense(At(Spread(words, gaps) + end), blank, endTag) ==
            (At(end), if words == [] then "" else Spaced(blank, Sentence(words)))
    decreases |words|
  {
    hide *;
    if words == [] {
      NothingSpread(end);
      EndsThere(end, blank, endTag);
    } else {
      var more, later := words[1..], gaps[1..];
      FirstWord(words, gaps, endTag);
      var x := Spread(more, later) + end;
      assert words[0] + (gaps[0] + Spread(more, later)) + end == words[0] + (gaps[0] + x);
      WordCondensed(words[0], gaps[0] + x, blank, endTag);
      WordsCondensed(more, later, end, gaps[0] != "", endTag);
      if gaps[0] == "" {
        assert gaps[0] + x == x;
      } else {
        GapCondensed(gaps[0], x, false, endTag);
      }
      SentenceIs(words);
    }
  }

  lemma NothingSpread(end: string)
    ensures Spread([], []) + end == end
  {
  }

  lemma EndsThere(end: string, blank: bool, endTag: string)
    requires StringEqual(end, endTag)
    ensures Condense(At(end), blank, endTag) == (At(end), "")
  {
  }

  lemma FirstWord(words: seq<string>, gaps: seq<string>, endTag: string)
    requires endTag != "" && words != [] && |words| == |gaps| && AreWords(words, gaps, endTag)
    ensures Word(words[0], endTag) && AllWhite(gaps[0]) && (|words| > 1 ==> gaps[0] != "")
    ensures AreWords(words[1..], gaps[1..], endTag)
    ensures Spread(words, gaps) == words[0] + (gaps[0] + Spread(words[1..], gaps[1..]))
  {
    hide Word, AllWhite;
  }

  lemma SentenceIs(words: seq<string>)
    ensures words == [] ==> Sentence(words) == ""
    ensures |words| == 1 ==> words[1..] == [] && Sentence(words) == words[0] == words[0] + ""
    ensures |words| > 1 ==> Sentence(words) == words[0] + Spaced(true, Sentence(words[1..]))
  {
    if |words| == 1 {
      assert words[1..] == [] && words[0] + "" == words[0];
    } else if |words| > 1 {
      Regroup(words[0], " ", Sentence(words[1..]));
    }
  }
}
