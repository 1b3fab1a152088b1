/** What a tree of nodes holds, as a value, and what cloning keeps of it. */
module XmlContent {
  import opened Basics
  import opened XmlText
  import opened XmlTextProofs
  import opened XmlParser
  import opened XmlAttributes

  datatype NodeType = DocumentType | ElementType | CommentType | UnknownType | TextType | DeclarationType

  /** What a tree of nodes holds. */
  datatype Content = Content(kind: NodeType, value: string, cdata: bool,
                             version: string, encoding: string, standalone: string,
                             attributes: seq<Attribute>, children: seq<Content>)

  /** Copied by cloning: the value is cut at its first NUL; only elements and documents pass
      on their children, and elements the attributes that are visited. */
  function Cloned(t: Content): Content {
    t.(value := CStr(t.value),
       attributes := if t.kind == ElementType then PutAll([], Visited(t.attributes)) else [],
       children := if t.kind == ElementType || t.kind == DocumentType then AllCloned(t.children) else [])
  }

  function AllCloned(list: seq<Content>): (r: seq<Content>)
    ensures |r| == |list|
  {
    if list == [] then [] else AllCloned(list[..|list| - 1]) + [Cloned(list[|list| - 1])]
  }

  /** Nothing that cloning loses: no NUL in a value or an attribute, no two attributes of a
      name, no element with an attribute without name and value behind another, and neither
      attributes nor children where there should be none. */
  ghost predicate Lossless(t: Content) {
    && NoNul(t.value)
    && (if t.kind == ElementType then
          Unique(t.attributes) && NulFree(t.attributes)
            && forall i | 1 <= i < |t.attributes| :: !Nameless(t.attributes[i])
        else t.attributes == [])
    && (t.kind != ElementType && t.kind != DocumentType ==> t.children == [])
    && forall i | 0 <= i < |t.children| :: Lossless(t.children[i])
  }

  /** A clone is equal to its original at every depth exactly if nothing is lossy there. */
  lemma {:induction false} CloneIsEqual(t: Content)
    ensures Cloned(t) == t <==> Lossless(t)
    decreases t, 1
  {
    ClonedIs(t);
    CStrCut(t.value);
    CopiedAttributes(t.attributes);
    hide Cloned, PutAll, Visited, Unique, NulFree, NoNul, CStr, Nameless;
    ClonesAreEqual(t.children);
  }

  lemma {:induction false} ClonesAreEqual(list: seq<Content>)
    ensures AllCloned(list) == list <==> forall i | 0 <= i < |list| :: Lossless(list[i])
    decreases list, 0
  {
    hide Cloned, Lossless;
    if list != [] {
      var n := |list| - 1;
      assert list == list[..n] + [list[n]];
      CloneIsEqual(list[n]);
      ClonesAreEqual(list[..n]);
      assert AllCloned(list) == AllCloned(list[..n]) + [Cloned(list[n])];
    }
  }

  /** The attributes of every node have different names, without NUL. */
  ghost predicate UniqueNames(t: Content) {
    Unique(t.attributes) && NulFree(t.attributes) && forall i | 0 <= i < |t.children| :: UniqueNames(t.children[i])
  }

  /** As setting an attribute ensures, clones have it whatever the original is like. */
  lemma {:induction false} CloneHasUniqueNames(t: Content)
    ensures UniqueNames(Cloned(t))
    decreases t, 1
  {
    ClonedIs(t);
    PutAllKeeps([], Visited(t.attributes));
    hide Cloned, PutAll, Visited, CStr, NoNul;
    ClonesHaveUniqueNames(t.children);
  }

  lemma {:induction false} ClonesHaveUniqueNames(list: seq<Content>)
    ensures forall i | 0 <= i < |list| :: UniqueNames(AllCloned(list)[i])
    decreases list, 0
  {
    hide Cloned, UniqueNames;
    if list != [] {
      CloneHasUniqueNames(list[|list| - 1]);
      ClonesHaveUniqueNames(list[..|list| - 1]);
    }
  }

  /** What a plain text node holds. */
  function TextContent(value: string): Content {
    Content(TextType, value, false, "", "", "", [], [])
  }

  lemma NulIsRead()
    ensures GetChar("&#0;y</a>") == (At("y</a>"), [0 as char])
  {
    var p := "&#0;y</a>";
    assert IndexOf(p, ';', 3) == 3;
    assert IndexOf(p, ';', 2) == 3;
    assert p[1] == '#' && p[2] == '0';
    assert Backwards(p, 1, '#', 10, 10, 0) == 0;
    assert Backwards(p, 2, '#', 10, 1, 0) == 0;
    assert p[4..] == "y</a>";
  }

  lemma CondenseStep(p: string, next: Ptr, c: string, end: Ptr, text: string)
    requires p != "" && p[0] != '<' && !IsWhiteSpace(p[0]) && GetChar(p) == (next, c)
    requires Condense(next, false, "<") == (end, text)
    ensures Condense(At(p), false, "<") == (end, c + text)
  {
    assert "" + c + text == c + text;
    hide GetChar;
  }

  lemma NulIsKept()
    ensures Condense(At("x&#0;y</a>"), false, "<") == (At("</a>"), ['x', 0 as char, 'y'])
  {
    NulIsRead();
    var tail, v := "</a>", ['x', 0 as char, 'y'];
    assert Condense(At(tail), false, "<") == (At(tail), "");
    assert "y</a>"[1..] == tail && "x&#0;y</a>"[1..] == "&#0;y</a>";
    assert GetChar("y</a>") == (At(tail), "y") && GetChar("x&#0;y</a>") == (At("&#0;y</a>"), "x");
    hide Condense, GetChar;
    CondenseStep("y</a>", At(tail), "y", At(tail), "");
    assert "y" + "" == "y" && "x" + ([0 as char] + "y") == v;
    CondenseStep("&#0;y</a>", At("y</a>"), [0 as char], At(tail), "y");
    CondenseStep("x&#0;y</a>", At("&#0;y</a>"), "x", At(tail), [0 as char] + "y");
  }

  /** The parser reads a NUL out of a numbered reference, and the clone of that text ends
      before it. */
  lemma CloneLosesNul()
    ensures ParseText(At("x&#0;y</a>")) == (At("</a>"), ['x', 0 as char, 'y'])
    ensures Cloned(TextContent(['x', 0 as char, 'y'])) == TextContent("x")
  {
    NulIsKept();
    hide Condense;
    var v := ['x', 0 as char, 'y'];
    assert v[1..] == [0 as char, 'y'] && CStr(v[1..]) == "";
  }

  lemma ClonedIs(t: Content)
    ensures Cloned(t) == t.(value := CStr(t.value),
                            attributes := if t.kind == ElementType then PutAll([], Visited(t.attributes)) else [],
                            children := if t.kind == ElementType || t.kind == DocumentType
                                        then AllCloned(t.children) else [])
  {
  }

  lemma AllClonedMore(list: seq<Content>, i: nat)
    ensures AllCloned(list[..0]) == [] && list[..|list|] == list
    ensures i < |list| ==> AllCloned(list[..i + 1]) == AllCloned(list[..i]) + [Cloned(list[i])]
  {
    if i < |list| {
      assert list[..i + 1][..i] == list[..i];
    }
  }

  /** There is a node at the end of `at`, which says which child to take at each level. */
  predicate Has(t: Content, at: seq<nat>) {
    at == [] || (at[0] < |t.children| && Has(t.children[at[0]], at[1..]))
  }

  /** The tree `t` with `s` in place of what is at `at`, and everything else as it was. */
  function Graft(t: Content, at: seq<nat>, s: Content): Content
    requires Has(t, at)
    decreases |at|
  {
    if at == [] then s else t.(children := t.children[at[0] := Graft(t.children[at[0]], at[1..], s)])
  }

  /** What is at `at`. */
  function Sub(t: Content, at: seq<nat>): Content
    requires Has(t, at)
    decreases |at|
  {
    if at == [] then t else Sub(t.children[at[0]], at[1..])
  }

  lemma {:induction false} GraftSame(t: Content, at: seq<nat>)
    requires Has(t, at)
    ensures Graft(t, at, Sub(t, at)) == t
    decreases |at|
  {
    if at != [] {
      GraftSame(t.children[at[0]], at[1..]);
    }
  }

  /** After a graft the new subtree is in its place, and whatever is not on the way to it is
      as it was. */
  lemma {:induction false} GraftKeeps(t: Content, at: seq<nat>, s: Content, other: seq<nat>)
    requires Has(t, at)
    ensures Has(Graft(t, at, s), at) && Sub(Graft(t, at, s), at) == s
    ensures Has(t, other) && !(at <= other) && !(other <= at) ==>
              Has(Graft(t, at, s), other) && Sub(Graft(t, at, s), other) == Sub(t, other)
    decreases |at|
  {
    if at != [] {
      var i := at[0];
      if other != [] && other[0] == i {
        assert at == [i] + at[1..] && other == [i] + other[1..];
        GraftKeeps(t.children[i], at[1..], s, other[1..]);
      } else {
        GraftKeeps(t.children[i], at[1..], s, []);
      }
    }
  }

  /** Grafting keeps the attributes of every node different. */
  lemma {:induction false} GraftKeepsUniqueNames(t: Content, at: seq<nat>, s: Content)
    requires Has(t, at) && UniqueNames(t) && UniqueNames(s)
    ensures UniqueNames(Graft(t, at, s))
    decreases |at|
  {
    hide Unique, NulFree;
    if at != [] {
      GraftKeepsUniqueNames(t.children[at[0]], at[1..], s);
    }
  }

  // ---------------------------------------------------- trees as the printer visits them

  /** A document is never below another node. */
  predicate Proper(t: Content) {
    forall i | 0 <= i < |t.children| :: t.children[i].kind != DocumentType && Proper(t.children[i])
  }

  predicate AllProper(list: seq<Content>) {
    forall i | 0 <= i < |list| :: list[i].kind != DocumentType && Proper(list[i])
  }

  function AsNode(t: Content): Node
    requires Proper(t) && t.kind != DocumentType
    decreases t, 0
  {
    match t.kind
    case ElementType => Element(t.value, t.attributes, AsNodes(t.children))
    case TextType => Text(t.value, t.cdata)
    case CommentType => Comment(t.value)
    case UnknownType => Unknown(t.value)
    case DeclarationType => Declaration(t.version, t.encoding, t.standalone)
  }

  function AsNodes(list: seq<Content>): (r: seq<Node>)
    requires AllProper(list)
    ensures |r| == |list|
    decreases list, 1
  {
    if list == [] then [] else [AsNode(list[0])] + AsNodes(list[1..])
  }
}
