/** Printing a clone: when it prints what its original prints, for every tree. The two texts
    are compared by a weight that every loss makes smaller. */
module XmlClonePrint {
  import opened Basics
  import opened XmlText
  import opened XmlTextProofs
  import opened XmlParser
  import opened XmlPrinter
  import opened XmlAttributes
  import opened XmlContent

  /** No plain text with a NUL is printed, and no element whose visited attributes hold a NUL
      or a name twice. */
  ghost predicate PrintsAlike(t: Content) {
    match t.kind
    case TextType => t.cdata || NoNul(t.value)
    case ElementType =>
      Unique(Visited(t.attributes)) && NulFree(Visited(t.attributes))
      && forall i | 0 <= i < |t.children| :: PrintsAlike(t.children[i])
    case DocumentType => forall i | 0 <= i < |t.children| :: PrintsAlike(t.children[i])
    case _ => true
  }

  // ---------------------------------------------------------------------- weight of a text

  /** The length, a NUL counting for ten. */
  function Weight(s: string): nat {
    if s == "" then 0 else (if s[0] as int == 0 then 10 else 1) + Weight(s[1..])
  }

  lemma {:induction false} WeightSum(a: string, b: string)
    ensures Weight(a + b) == Weight(a) + Weight(b)
  {
    if a == "" {
      assert a + b == b;
    } else {
      assert (a + b)[1..] == a[1..] + b;
      WeightSum(a[1..], b);
    }
  }

  lemma {:induction false} WeightOfNulFree(s: string)
    requires NoNul(s)
    ensures Weight(s) == |s|
  {
    if s != "" {
      WeightOfNulFree(s[1..]);
    }
  }

  lemma {:induction false} WeightWithNul(s: string, z: nat)
    requires z < |s| && s[z] as int == 0
    ensures Weight(s) >= |s| + 9
  {
    if z > 0 {
      WeightWithNul(s[1..], z - 1);
    } else {
      WeightAtLeast(s[1..]);
    }
  }

  lemma {:induction false} WeightAtLeast(s: string)
    ensures Weight(s) >= |s|
  {
    if s != "" {
      WeightAtLeast(s[1..]);
    }
  }

  // ------------------------------------------------------------------- escaping a cut text

  lemma EscapedWeight(c: char)
    ensures 1 <= Weight(EncodeChar(c)) <= 6
    ensures c as int == 0 ==> Weight(EncodeChar(c)) == 6
  {
    hide HexDigit;
    EscapeLength(c);
    WeightOfNulFree(EncodeChar(c));
  }

  lemma EscapeLength(c: char)
    ensures 1 <= |EncodeChar(c)| <= 6 && NoNul(EncodeChar(c)) && (c as int == 0 ==> |EncodeChar(c)| == 6)
  {
    assert c as int < 32 ==> HexDigit(c as int / 16) as int != 0 && HexDigit(c as int % 16) as int != 0 by {
      if c as int < 32 {
        HexIsVisible(c as int / 16);
        HexIsVisible(c as int % 16);
      }
    }
    hide HexDigit;
  }

  lemma HexIsVisible(n: int)
    requires 0 <= n < 16
    ensures HexDigit(n) as int != 0
  {
  }

  /** A reference that is passed through ends in the cut text where it ends in the whole one,
      or else at the last character before the cut. */
  lemma {:induction false} PassCut(v: string, z: nat, n: nat)
    requires 0 < n < z < |v|
    ensures PassLength(v[..z], n) == PassLength(v, n) < z || (PassLength(v[..z], n) == z - 1 && z <= PassLength(v, n))
    decreases z - n
  {
    if n < z - 1 && v[n] != ';' {
      PassCut(v, z, n + 1);
    } else if v[n] != ';' {
      assert PassLength(v, n) == PassLength(v, n + 1) >= n + 1;
    }
  }

  lemma EncodeStarts(v: string)
    requires v != ""
    ensures HEX_PREFIX <= v ==> var k := PassLength(v, 1); 0 < k <= |v| && Encode(v) == v[..k] + Encode(v[k..])
    ensures !(HEX_PREFIX <= v) ==> Encode(v) == EncodeChar(v[0]) + Encode(v[1..])
  {
    hide EncodeChar;
  }

  lemma {:induction false} CutRest(v: string, k: nat)
    requires k <= |CStr(v)|
    ensures k <= |v| && CStr(v[k..]) == CStr(v)[k..] && v[..k] == CStr(v)[..k]
  {
    if k > 0 {
      CutRest(v[1..], k - 1);
      assert v[k..] == v[1..][k - 1..] && CStr(v)[k..] == CStr(v)[1..][k - 1..];
      assert v[..k] == [v[0]] + v[1..][..k - 1];
    }
  }

  lemma OneChar(c: char)
    ensures Encode([c]) == EncodeChar(c)
  {
    EncodeStarts([c]);
    hide EncodeChar;
    assert [c][1..] == "" && Encode("") == "";
    assert EncodeChar(c) + "" == EncodeChar(c);
  }

  lemma NulFirst(v: string)
    requires v != "" && v[0] as int == 0
    ensures Weight(Encode(v)) >= 6
  {
    EncodeStarts(v);
    EscapedWeight(v[0]);
    hide EncodeChar, Encode;
    WeightSum(EncodeChar(v[0]), Encode(v[1..]));
  }

  /** A reference that the cut goes through weighs less without the NUL. */
  lemma ReferenceCut(v: string, z: nat)
    requires HEX_PREFIX <= v && 1 < z < |v| && v[z] as int == 0 && NoNul(v[..z]) && HEX_PREFIX <= v[..z]
    requires PassLength(v[..z], 1) == z - 1 && z <= PassLength(v, 1)
    ensures Weight(Encode(v[..z])) < Weight(Encode(v))
  {
    var c, k := v[..z], PassLength(v, 1);
    EncodeStarts(c);
    EncodeStarts(v);
    hide PassLength, Encode, EncodeChar, CStr;
    assert c[z - 1..] == [c[z - 1]];
    OneChar(c[z - 1]);
    EscapedWeight(c[z - 1]);
    WeightSum(c[..z - 1], EncodeChar(c[z - 1]));
    WeightOfNulFree(c[..z - 1]);
    WeightSum(v[..k], Encode(v[k..]));
    if k > z {
      assert v[..k][z] == v[z];
      WeightWithNul(v[..k], z);
    } else {
      WeightAtLeast(v[..k]);
      NulFirst(v[k..]);
    }
  }

  lemma SameStart(a: string, b: string, c: string)
    requires Weight(b) <= Weight(c)
    ensures Weight(a + b) <= Weight(a + c) && (Weight(a + b) == Weight(a + c) <==> Weight(b) == Weight(c))
  {
    WeightSum(a, b);
    WeightSum(a, c);
  }

  /** An escaped text weighs less if it is cut at a NUL before. */
  lemma {:induction false} EncodeCut(v: string)
    ensures Weight(Encode(CStr(v))) <= Weight(Encode(v))
    ensures Weight(Encode(CStr(v))) == Weight(Encode(v)) ==> NoNul(v)
    decreases |v|, 1
  {
    CStrCut(v);
    CStrShorter(v);
    hide *;
    NothingWeighs();
    if CStr(v) == "" && v != "" {
      NulFirst(v);
    } else if CStr(v) != v {
      EncodeCutLater(v);
    }
  }

  lemma {:induction false} EncodeCutLater(v: string)
    requires "" < CStr(v) < v
    ensures Weight(Encode(CStr(v))) < Weight(Encode(v))
    decreases |v|, 0
  {
    var c, z := CStr(v), |CStr(v)|;
    CStrShorter(v);
    CStrCut(v);
    EncodeStarts(v);
    EncodeStarts(c);
    hide CStr, Encode, EncodeChar, PassLength, Weight;
    if HEX_PREFIX <= v {
      assert v[0] == '&' && v[1] == '#' && v[2] == 'x';
      assert z > 2 && HEX_PREFIX == v[..3] == c[..3];
      PassCut(v, z, 1);
      var k := PassLength(v, 1);
      if PassLength(c, 1) == k {
        RestCut(v, k);
        SameStart(v[..k], Encode(c[k..]), Encode(v[k..]));
      } else {
        ReferenceCut(v, z);
      }
    } else {
      RestCut(v, 1);
      SameStart(EncodeChar(v[0]), Encode(c[1..]), Encode(v[1..]));
    }
  }

  lemma {:induction false} RestCut(v: string, k: nat)
    requires 0 < k <= |CStr(v)| < |v|
    ensures v[..k] == CStr(v)[..k] && v[0] == CStr(v)[0]
    ensures Weight(Encode(CStr(v)[k..])) < Weight(Encode(v[k..]))
    decreases |v| - k, 2
  {
    CStrShorter(v);
    CutRest(v, k);
    hide *;
    var z := |CStr(v)|;
    assert v[k..][z - k] == v[z];
    EncodeCut(v[k..]);
    HasNul(v[k..], z - k);
  }

  lemma HasNul(v: string, i: nat)
    requires i < |v| && v[i] as int == 0
    ensures !NoNul(v)
  {
  }

  lemma NothingWeighs()
    ensures Encode("") == "" && Weight("") == 0
  {
  }

  // ------------------------------------------------------------------- copied attributes

  function AttributeWeight(a: Attribute): nat {
    4 + Weight(Encode(a.name)) + Weight(Encode(a.value))
  }

  function AttributesWeight(c: seq<Attribute>): nat {
    if c == [] then 0 else AttributeWeight(c[0]) + AttributesWeight(c[1..])
  }

  lemma Weight5(a: string, b: string, c: string, d: string, e: string)
    ensures Weight(a + b + c + d + e) == Weight(a) + Weight(b) + Weight(c) + Weight(d) + Weight(e)
  {
    WeightSum(a, b);
    WeightSum(a + b, c);
    WeightSum(a + b + c, d);
    WeightSum(a + b + c + d, e);
  }

  lemma WeightOfOne(s: string)
    requires s == "=" || s == "'" || s == "\"" || s == " "
    ensures Weight(s) == 1
  {
    assert s[1..] == "";
  }

  lemma PrintedWeight(a: Attribute)
    ensures Weight(" " + PrintAttribute(a)) == AttributeWeight(a)
  {
    hide Encode, Weight, HasQuote;
    var quote := if HasQuote(a.value) then "'" else "\"";
    WeightSum(" ", PrintAttribute(a));
    Weight5(Encode(a.name), "=", quote, Encode(a.value), quote);
    WeightOfOne(" ");
    WeightOfOne("=");
    WeightOfOne(quote);
  }

  lemma {:induction false} AllPrintedWeight(c: seq<Attribute>)
    ensures Weight(PrintAttributes(c)) == AttributesWeight(c)
  {
    hide PrintAttribute, AttributeWeight;
    if c != [] {
      PrintedWeight(c[0]);
      AllPrintedWeight(c[1..]);
      WeightSum(" " + PrintAttribute(c[0]), PrintAttributes(c[1..]));
    }
  }

  lemma {:induction false} AttributesSum(a: seq<Attribute>, b: seq<Attribute>)
    ensures AttributesWeight(a + b) == AttributesWeight(a) + AttributesWeight(b)
  {
    hide AttributeWeight;
    if a == [] {
      assert a + b == b;
    } else {
      assert (a + b)[1..] == a[1..] + b;
      AttributesSum(a[1..], b);
    }
  }

  lemma OneAttribute(a: Attribute)
    ensures AttributesWeight([a]) == AttributeWeight(a)
  {
    hide AttributeWeight;
    assert [a][1..] == [];
  }

  lemma AttributeChanged(c: seq<Attribute>, i: nat, a: Attribute)
    requires i < |c|
    ensures AttributesWeight(c[i := a]) + AttributeWeight(c[i]) == AttributesWeight(c) + AttributeWeight(a)
  {
    hide *;
    assert c == c[..i] + ([c[i]] + c[i + 1..]) && c[i := a] == c[..i] + ([a] + c[i + 1..]);
    AttributesSum(c[..i], [c[i]] + c[i + 1..]);
    AttributesSum([c[i]], c[i + 1..]);
    AttributesSum(c[..i], [a] + c[i + 1..]);
    AttributesSum([a], c[i + 1..]);
    OneAttribute(a);
    OneAttribute(c[i]);
  }

  lemma CutAttribute(name: string, value: string)
    ensures AttributeWeight(Attribute(CStr(name), CStr(value))) <= AttributeWeight(Attribute(name, value))
    ensures AttributeWeight(Attribute(CStr(name), CStr(value))) == AttributeWeight(Attribute(name, value)) ==>
              CStr(name) == name && CStr(value) == value
  {
    EncodeCut(name);
    EncodeCut(value);
    CStrCut(name);
    CStrCut(value);
    hide Weight, Encode, CStr;
  }

  /** Setting an attribute adds at most its weight, and less unless it is appended whole. */
  lemma PutWeight(c: seq<Attribute>, name: string, value: string)
    ensures AttributesWeight(Put(c, name, value)) <= AttributesWeight(c) + AttributeWeight(Attribute(name, value))
    ensures AttributesWeight(Put(c, name, value)) == AttributesWeight(c) + AttributeWeight(Attribute(name, value)) ==>
              Put(c, name, value) == c + [Attribute(name, value)]
  {
    hide AttributesWeight, CStr, Weight, Encode;
    var i := Index(c, name);
    if i < |c| {
      AttributeChanged(c, i, Attribute(c[i].name, CStr(value)));
      EncodeCut(value);
    } else {
      CutAttribute(name, value);
      AttributesSum(c, [Attribute(CStr(name), CStr(value))]);
      OneAttribute(Attribute(CStr(name), CStr(value)));
    }
  }

  lemma {:induction false} PutAllWeight(c: seq<Attribute>, more: seq<Attribute>)
    ensures AttributesWeight(PutAll(c, more)) <= AttributesWeight(c) + AttributesWeight(more)
    ensures AttributesWeight(PutAll(c, more)) == AttributesWeight(c) + AttributesWeight(more) ==>
              PutAll(c, more) == c + more
    decreases |more|
  {
    hide Put, AttributeWeight;
    if more == [] {
      assert c + more == c;
    } else {
      var a := more[0];
      PutWeight(c, a.name, a.value);
      PutAllWeight(Put(c, a.name, a.value), more[1..]);
      assert more == [a] + more[1..] && a == Attribute(a.name, a.value);
      assert c + [a] + more[1..] == c + more;
    }
  }

  lemma {:induction false} VisitedTwice(c: seq<Attribute>)
    ensures Visited(Visited(c)) == Visited(c)
  {
    if c != [] {
      BeforeNamelessTwice(c[1..]);
      assert Visited(c)[1..] == BeforeNameless(c[1..]);
    }
  }

  lemma {:induction false} BeforeNamelessTwice(c: seq<Attribute>)
    ensures BeforeNameless(BeforeNameless(c)) == BeforeNameless(c)
  {
    if c != [] && !Nameless(c[0]) {
      BeforeNamelessTwice(c[1..]);
    }
  }

  /** What the printer visits of copied attributes. */
  lemma AttributesCut(c: seq<Attribute>)
    ensures Weight(PrintVisited(PutAll([], Visited(c)))) <= Weight(PrintVisited(c))
    ensures Weight(PrintVisited(PutAll([], Visited(c)))) == Weight(PrintVisited(c)) ==>
              Unique(Visited(c)) && NulFree(Visited(c))
    ensures Unique(Visited(c)) && NulFree(Visited(c)) ==> PrintVisited(PutAll([], Visited(c))) == PrintVisited(c)
  {
    var v := Visited(c);
    var p := PutAll([], v);
    var rest := p[|Visited(p)|..];
    assert p == Visited(p) + rest && [] + v == v;
    VisitedTwice(c);
    SetAttributes(v);
    hide *;
    PutAllWeight([], v);
    AttributesSum(Visited(p), rest);
    AllPrintedWeight(Visited(p));
    AllPrintedWeight(v);
    NoAttributes();
    PrintVisitedIs(p);
    PrintVisitedIs(c);
  }

  lemma NoAttributes()
    ensures AttributesWeight([]) == 0
  {
  }

  lemma PrintVisitedIs(c: seq<Attribute>)
    ensures PrintVisited(c) == PrintAttributes(Visited(c))
  {
  }

  // ------------------------------------------------------------------------- whole trees

  /** `a` weighs at most as much as `b`, and as much only if they are the `same`. */
  ghost predicate Lighter(a: string, b: string, same: bool) {
    Weight(a) <= Weight(b) && (Weight(a) == Weight(b) ==> same) && (same ==> a == b)
  }

  lemma LighterSame(a: string)
    ensures Lighter(a, a, true)
  {
  }

  lemma LighterSum(a: string, b: string, same: bool, c: string, d: string, also: bool)
    requires Lighter(a, b, same) && Lighter(c, d, also)
    ensures Lighter(a + c, b + d, same && also)
  {
    hide Weight;
    WeightSum(a, c);
    WeightSum(b, d);
  }

  lemma LighterInside(before: string, a: string, b: string, same: bool, behind: string)
    requires Lighter(a, b, same)
    ensures Lighter(before + a + behind, before + b + behind, same)
  {
    hide *;
    LighterSame(before);
    LighterSame(behind);
    LighterSum(before, before, true, a, b, same);
    LighterSum(before + a, before + b, same, behind, behind, true);
  }

  lemma {:induction false} AllClonedAt(list: seq<Content>, i: nat)
    requires i < |list|
    ensures AllCloned(list)[i] == Cloned(list[i])
    decreases |list|
  {
    hide Cloned;
    if i < |list| - 1 {
      AllClonedAt(list[..|list| - 1], i);
    }
  }

  lemma AllClonedFirst(list: seq<Content>)
    requires list != []
    ensures AllCloned(list)[0] == Cloned(list[0]) && AllCloned(list)[1..] == AllCloned(list[1..])
  {
    hide Cloned, AllCloned;
    AllClonedAt(list, 0);
    forall i | 0 <= i < |list| - 1
      ensures AllCloned(list)[1..][i] == AllCloned(list[1..])[i]
    {
      AllClonedAt(list, i + 1);
      AllClonedAt(list[1..], i);
    }
  }

  lemma {:induction false} CloneIsProper(t: Content)
    requires Proper(t)
    ensures Proper(Cloned(t)) && Cloned(t).kind == t.kind
    decreases t
  {
    ClonedIs(t);
    forall i | 0 <= i < |t.children|
      ensures Proper(AllCloned(t.children)[i]) && AllCloned(t.children)[i].kind == t.children[i].kind
    {
      AllClonedAt(t.children, i);
      CloneIsProper(t.children[i]);
    }
    hide Cloned, AllCloned;
  }

  ghost predicate AllAlike(list: seq<Content>) {
    forall i | 0 <= i < |list| :: PrintsAlike(list[i])
  }

  lemma ClonesAreProper(list: seq<Content>)
    requires AllProper(list)
    ensures AllProper(AllCloned(list))
  {
    hide AllCloned, Cloned, Proper;
    forall i | 0 <= i < |list|
      ensures AllCloned(list)[i].kind != DocumentType && Proper(AllCloned(list)[i])
    {
      AllClonedAt(list, i);
      CloneIsProper(list[i]);
    }
  }

  lemma AllAlikeFirst(list: seq<Content>)
    requires list != []
    ensures AllAlike(list) <==> PrintsAlike(list[0]) && AllAlike(list[1..])
  {
    hide PrintsAlike;
    assert list == [list[0]] + list[1..];
  }

  lemma AsNodesFirst(list: seq<Content>)
    requires AllProper(list) && list != []
    ensures AllProper(list[1..]) && AsNodes(list) == [AsNode(list[0])] + AsNodes(list[1..])
  {
    hide AsNode;
  }

  lemma PrintFirst(style: Style, depth: nat, node: Node, nodes: seq<Node>, before: string, behind: string)
    ensures PrintNodes(style, depth, [node] + nodes, before, behind) ==
            before + Core(style, depth, node) + behind + PrintNodes(style, depth, nodes, before, behind)
  {
    hide Core;
    assert ([node] + nodes)[1..] == nodes;
  }

  lemma PrintNone(style: Style, depth: nat, before: string, behind: string)
    ensures PrintNodes(style, depth, [], before, behind) == "" && AsNodes([]) == [] && AllCloned([]) == []
  {
  }

  lemma {:induction false} NodesCut(style: Style, depth: nat, list: seq<Content>, before: string, behind: string)
    requires AllProper(list)
    ensures AllProper(AllCloned(list))
    ensures Lighter(PrintNodes(style, depth, AsNodes(AllCloned(list)), before, behind),
                    PrintNodes(style, depth, AsNodes(list), before, behind), AllAlike(list))
    decreases list, 1
  {
    hide *;
    ClonesAreProper(list);
    PrintNone(style, depth, before, behind);
    if list == [] {
      LighterSame("");
      NothingAlike();
    } else {
      AllProperMeans(list);
      AllClonedFirst(list);
      AllAlikeFirst(list);
      AsNodesFirst(list);
      AsNodesFirst(AllCloned(list));
      NodeCut(style, depth, list[0]);
      NodesCut(style, depth, list[1..], before, behind);
      var first, clone := AsNode(list[0]), AsNode(Cloned(list[0]));
      PrintFirst(style, depth, first, AsNodes(list[1..]), before, behind);
      PrintFirst(style, depth, clone, AsNodes(AllCloned(list[1..])), before, behind);
      LighterInside(before, Core(style, depth, clone), Core(style, depth, first), PrintsAlike(list[0]), behind);
      LighterSum(before + Core(style, depth, clone) + behind, before + Core(style, depth, first) + behind,
                 PrintsAlike(list[0]), PrintNodes(style, depth, AsNodes(AllCloned(list[1..])), before, behind),
                 PrintNodes(style, depth, AsNodes(list[1..]), before, behind), AllAlike(list[1..]));
    }
  }

  lemma NothingAlike()
    ensures AllAlike([])
  {
  }

  lemma AllProperMeans(list: seq<Content>)
    requires AllProper(list) && list != []
    ensures list[0].kind != DocumentType && Proper(list[0])
  {
  }

  lemma {:induction false} NodeCut(style: Style, depth: nat, t: Content)
    requires Proper(t) && t.kind != DocumentType
    ensures Proper(Cloned(t)) && Cloned(t).kind != DocumentType
    ensures Lighter(Core(style, depth, AsNode(Cloned(t))), Core(style, depth, AsNode(t)), PrintsAlike(t))
    decreases t, 0
  {
    hide *;
    CloneIsProper(t);
    if t.kind == ElementType {
      ElementCut(style, depth, t);
    } else {
      LeafCut(style, depth, t);
    }
  }

  /** Everything but an element: only a plain text can print less. */
  lemma LeafCut(style: Style, depth: nat, t: Content)
    requires Proper(t) && t.kind != DocumentType && t.kind != ElementType && Proper(Cloned(t))
             && Cloned(t).kind == t.kind
    ensures Lighter(Core(style, depth, AsNode(Cloned(t))), Core(style, depth, AsNode(t)), PrintsAlike(t))
  {
    ClonedIs(t);
    CStrCut(t.value);
    EncodeCut(t.value);
    hide Cloned, CStr, Encode, Weight, NoNul, PrintDeclaration;
  }

  lemma SimpleClones(list: seq<Content>)
    requires AllProper(list) && AllProper(AllCloned(list))
    ensures Simple(AsNodes(AllCloned(list))) <==> Simple(AsNodes(list))
  {
    if |list| == 1 {
      AllClonedAt(list, 0);
      ClonedIs(list[0]);
      hide Cloned, AllCloned;
    }
  }

  lemma BodyCut(style: Style, depth: nat, list: seq<Content>)
    requires AllProper(list) && AllProper(AllCloned(list))
    requires Lighter(PrintNodes(style, depth + 1, AsNodes(AllCloned(list)), "", ""),
                     PrintNodes(style, depth + 1, AsNodes(list), "", ""), AllAlike(list))
    requires var indent := Indent(style, depth + 1);
             Lighter(PrintNodes(style, depth + 1, AsNodes(AllCloned(list)), indent, style.lineBreak),
                     PrintNodes(style, depth + 1, AsNodes(list), indent, style.lineBreak), AllAlike(list))
    ensures Lighter(Body(style, depth, AsNodes(AllCloned(list))), Body(style, depth, AsNodes(list)), AllAlike(list))
  {
    hide *;
    SimpleClones(list);
    var indent, clones, nodes := Indent(style, depth + 1), AsNodes(AllCloned(list)), AsNodes(list);
    LighterInside(style.lineBreak, PrintNodes(style, depth + 1, clones, indent, style.lineBreak),
                  PrintNodes(style, depth + 1, nodes, indent, style.lineBreak), AllAlike(list), Indent(style, depth));
    BodyIs(style, depth, clones);
    BodyIs(style, depth, nodes);
  }

  lemma BodyIs(style: Style, depth: nat, nodes: seq<Node>)
    ensures Body(style, depth, nodes) ==
            if Simple(nodes) then PrintNodes(style, depth + 1, nodes, "", "")
            else style.lineBreak + PrintNodes(style, depth + 1, nodes, Indent(style, depth + 1), style.lineBreak)
                 + Indent(style, depth)
  {
  }

  lemma ElementCut(style: Style, depth: nat, t: Content)
    requires Proper(t) && t.kind == ElementType && Proper(Cloned(t)) && Cloned(t).kind == ElementType
    ensures Lighter(Core(style, depth, AsNode(Cloned(t))), Core(style, depth, AsNode(t)), PrintsAlike(t))
    decreases t.children, 2
  {
    hide *;
    ClonedIs(t);
    CStrCut(t.value);
    AttributesCut(t.attributes);
    ProperChildren(t);
    ClonesAreProper(t.children);
    NodesCut(style, depth + 1, t.children, "", "");
    NodesCut(style, depth + 1, t.children, Indent(style, depth + 1), style.lineBreak);
    BodyCut(style, depth, t.children);
    var name, a, b := CStr(t.value), PrintVisited(Cloned(t).attributes), PrintVisited(t.attributes);
    var same := Unique(Visited(t.attributes)) && NulFree(Visited(t.attributes));
    LighterIf(a, b, same);
    ElementPrints(style, depth, t);
    ElementPrints(style, depth, Cloned(t));
    ElementAlike(t);
    LighterSame("<" + name);
    LighterSum("<" + name, "<" + name, true, a, b, same);
    var c, d := Tail(style, depth, name, AsNodes(AllCloned(t.children))), Tail(style, depth, name, AsNodes(t.children));
    TailCut(style, depth, name, t.children);
    LighterSum("<" + name + a, "<" + name + b, same, c, d, AllAlike(t.children));
  }

  lemma LighterIf(a: string, b: string, same: bool)
    requires Weight(a) <= Weight(b) && (Weight(a) == Weight(b) ==> same) && (same ==> a == b)
    ensures Lighter(a, b, same)
  {
  }

  lemma ProperChildren(t: Content)
    requires Proper(t)
    ensures AllProper(t.children)
  {
  }

  lemma ElementAlike(t: Content)
    requires t.kind == ElementType
    ensures PrintsAlike(t) <==> Unique(Visited(t.attributes)) && NulFree(Visited(t.attributes)) && AllAlike(t.children)
  {
    hide Unique, NulFree, Visited;
  }

  /** What an element prints behind its attributes. */
  function Tail(style: Style, depth: nat, name: string, children: seq<Node>): string {
    if children == [] then " />" else ">" + Body(style, depth, children) + ("</" + name + ">")
  }

  lemma ElementPrints(style: Style, depth: nat, t: Content)
    requires Proper(t) && AllProper(t.children) && t.kind == ElementType
    ensures Core(style, depth, AsNode(t)) ==
            "<" + CStr(t.value) + PrintVisited(t.attributes) + Tail(style, depth, CStr(t.value), AsNodes(t.children))
  {
    hide CStr, PrintVisited, Body, Proper;
    var body, name := Body(style, depth, AsNodes(t.children)), CStr(t.value);
    assert ">" + body + "</" + name + ">" == ">" + body + ("</" + name + ">");
  }

  lemma TailCut(style: Style, depth: nat, name: string, list: seq<Content>)
    requires AllProper(list) && AllProper(AllCloned(list))
    requires Lighter(Body(style, depth, AsNodes(AllCloned(list))), Body(style, depth, AsNodes(list)), AllAlike(list))
    ensures Lighter(Tail(style, depth, name, AsNodes(AllCloned(list))),
                    Tail(style, depth, name, AsNodes(list)), AllAlike(list))
  {
    LighterInside(">", Body(style, depth, AsNodes(AllCloned(list))), Body(style, depth, AsNodes(list)), AllAlike(list),
                  "</" + name + ">");
    LighterSame(" />");
    hide Lighter, Body, AsNodes, AllCloned, AllProper;
    if list == [] {
      NothingAlike();
    }
  }

  /** A whole document, or another node at `depth`, as the printer writes it. */
  function Printed(style: Style, depth: nat, t: Content): string
    requires Proper(t)
  {
    if t.kind == DocumentType then PrintDocument(style, AsNodes(t.children)) else Core(style, depth, AsNode(t))
  }

  /** A clone prints what its original prints exactly if no plain text holds a NUL and no
      element's visited attributes hold a NUL or a name twice. */
  lemma ClonePrints(style: Style, depth: nat, t: Content)
    requires Proper(t)
    ensures Proper(Cloned(t))
    ensures Printed(style, depth, Cloned(t)) == Printed(style, depth, t) <==> PrintsAlike(t)
  {
    CloneIsProper(t);
    if t.kind == DocumentType {
      ProperChildren(t);
      ClonedIs(t);
      NodesCut(style, 0, t.children, "", style.lineBreak);
    } else {
      NodeCut(style, depth, t);
    }
    hide Cloned, AllCloned, Core, PrintNodes, AsNode, AsNodes, Proper, Weight, Unique, NulFree, Visited;
  }
}
