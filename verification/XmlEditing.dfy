/** Edits of a node deep in a tree. An edit brings only the edited node's own footprint and
    contents up to date; here the levels above it are opened before the edit and closed
    behind it, so that the whole tree is a tree again and holds the new subtree. */
module XmlEditing {
  import opened XmlAttributes
  import opened XmlContent
  import opened XmlTree

  /** `path` leads from `n` to `e`, through the children at `at`. */
  ghost predicate Path(n: XmlNode, path: seq<XmlNode>, at: seq<nat>, e: XmlNode)
    reads n, n.below
    decreases |at|
  {
    && n.Valid()
    && if at == [] then path == [] && e == n
       else path != [] && path[0] == n && at[0] < |n.children| && Path(n.children[at[0]], path[1..], at[1..], e)
  }

  /** The children without the one at `i`. */
  function Others(list: seq<XmlNode>, i: nat): seq<XmlNode>
    requires i < |list|
  {
    Spliced(list, i, i + 1, [])
  }

  /** A tree but for its child `c` at `i`, which is in the list, while `kids` and `below` do
      without it. */
  ghost predicate Lacks(n: XmlNode, i: nat, c: XmlNode)
    reads n`children, n`firstChild, n`lastChild, n`kids, n`below, n.below, c`parent, c`prev, c`next
  {
    && i < |n.children| && n.children[i] == c && n !in n.below && c !in n.below && c != n
    && (forall d | d in n.children :: d == c || d in n.below) && n.Listed()
    && n.attributeSet in n.below && n.attributeSet.repr <= n.below && n.AttributesIn(n.below)
    && var was := Others(n.children, i);
       && (forall d | d in was :: d in n.below) && n.OwnsIn(was, n.below)
       && n.Hold(was, n.kids) && forall d | d in was :: d.Valid()
  }

  lemma OthersIn(list: seq<XmlNode>, i: nat)
    requires NoTwice(list) && i < |list|
    ensures list[i] !in Others(list, i) && list == Spliced(Others(list, i), i, i, [list[i]])
    ensures |Others(list, i)| == |list| - 1
    ensures forall d | d in Others(list, i) :: d in list
    ensures forall d | d in list && d != list[i] :: d in Others(list, i)
  {
    var was := Others(list, i);
    Alone(list, i);
    forall d | d in list && d != list[i]
      ensures d in was
    {
      var k :| 0 <= k < |list| && list[k] == d;
      assert d == was[if k < i then k else k - 1];
    }
  }

  lemma OwnedChild(n: XmlNode, c: XmlNode)
    requires n.OwnsIn(n.children, n.below) && c in n.children
    ensures c in n.below && c.below < n.below && c !in c.below && c.kind != DocumentType
    ensures n.attributeSet !in c.below && n.attributeSet.repr !! c.below
  {
  }

  lemma OwnedPair(n: XmlNode, c: XmlNode, d: XmlNode)
    requires n.OwnsIn(n.children, n.below) && c in n.children && d in n.children && c != d
    ensures c !in d.below && c.below !! d.below
  {
    assert n.Disjoint(n.children);
  }

  /** What is below a child is apart from the other children and from the attributes. */
  lemma ChildApart(n: XmlNode, i: nat)
    requires n.Valid() && i < |n.children|
    ensures var c, was := n.children[i], Others(n.children, i);
            && c in n.below && c.below < n.below && c !in c.below && n !in c.below && c != n && c.kind != DocumentType
            && c.Valid() && n.attributeSet !in c.below && n.attributeSet.repr !! c.below
            && (forall d | d in was ::
                  d != c && d !in c.below && c !in d.below && d.below !! c.below && d.below < n.below)
            && (forall d | d in was :: d.attributeSet in d.below)
  {
    hide *;
    n.Parts();
    n.ListedMeans();
    OthersIn(n.children, i);
    var c, was := n.children[i], Others(n.children, i);
    c.Parts();
    OwnedChild(n, c);
    forall d | d in was
      ensures d != c && d !in c.below && c !in d.below && d.below !! c.below && d.below < n.below
              && d.attributeSet in d.below
    {
      OwnedChild(n, d);
      OwnedPair(n, c, d);
      OwnedPair(n, d, c);
      d.Parts();
    }
  }

  lemma OwnsWithout(n: XmlNode, was: seq<XmlNode>, c: XmlNode, b: set<object>)
    requires n.OwnsIn(was, b)
    requires forall d | d in was :: d != c && d !in c.below && c !in d.below && d.below !! c.below
    requires forall d | d in was :: d.attributeSet in d.below
    ensures n.OwnsIn(was, b - {c} - c.below)
    ensures forall d | d in was :: d in b - {c} - c.below
  {
    var less := b - {c} - c.below;
    assert n.Disjoint(was) && forall i, j | 0 <= i < |was| && 0 <= j < |was| :: was[i] !in was[j].below;
    forall i | 0 <= i < |was|
      ensures was[i] in less && was[i].attributeSet in less && was[i].below < less && was[i].kind != DocumentType
    {
      assert was[i] in was && was[i] in b && was[i] !in was[i].below && was[i].below <= less;
    }
    hide *;
    n.OwnsIf(was, less);
  }

  lemma AttributesWithout(n: XmlNode, c: XmlNode, b: set<object>)
    requires n.AttributesIn(b) && n.attributeSet !in c.below && n.attributeSet.repr !! c.below
    ensures n.AttributesIn(b - {c} - c.below)
    ensures n.attributeSet in b - {c} - c.below && n.attributeSet.repr <= b - {c} - c.below
  {
  }

  lemma LacksIf(n: XmlNode, i: nat, c: XmlNode)
    requires i < |n.children| && n.children[i] == c && n !in n.below && c !in n.below && c != n && n.Listed()
    requires n.attributeSet in n.below && n.attributeSet.repr <= n.below && n.AttributesIn(n.below)
    requires n.OwnsIn(Others(n.children, i), n.below) && n.Hold(Others(n.children, i), n.kids)
    requires forall d | d in Others(n.children, i) :: d in n.below && d.Valid()
    requires forall d | d in n.children && d != c :: d in Others(n.children, i)
    ensures Lacks(n, i, c)
  {
  }

  /** Opens a tree at the child `i`: `kids` and `below` do without it. */
  ghost method SetAside(n: XmlNode, i: nat)
    requires n.Valid() && i < |n.children|
    modifies n`kids, n`below
    ensures Lacks(n, i, n.children[i]) && n.below == old(n.below) - {n.children[i]} - n.children[i].below
    ensures |old(n.kids)| == |n.children| && old(n.kids)[i] == n.children[i].Tree()
    ensures n.kids == old(n.kids)[..i] + old(n.kids)[i + 1..]
    ensures n.children[i].Valid() && n.children[i].below == old(n.children[i].below)
  {
    hide *;
    var c, was := n.children[i], Others(n.children, i);
    n.Parts();
    n.ListedMeans();
    n.ChildAt(i);
    ChildApart(n, i);
    OthersIn(n.children, i);
    OthersOwned(n, i);
    OwnsWithout(n, was, c, n.below);
    AttributesWithout(n, c, n.below);
    n.kids := n.kids[..i] + n.kids[i + 1..];
    n.below := n.below - {c} - c.below;
    LacksIf(n, i, c);
  }

  lemma OthersOwned(n: XmlNode, i: nat)
    requires i < |n.children| && n.OwnsIn(n.children, n.below) && n.Hold(n.children, n.kids) && |n.kids| == |n.children|
    ensures n.OwnsIn(Others(n.children, i), n.below)
    ensures n.Hold(Others(n.children, i), n.kids[..i] + n.kids[i + 1..])
  {
    n.OwnsFewer(n.children, i, i + 1, n.below);
    n.HoldsSpliced(n.children, i, i + 1, [], n.kids);
    hide *;
    assert n.kids[..i] + [] + n.kids[i + 1..] == n.kids[..i] + n.kids[i + 1..];
  }

  /** Closes it again with what the child is by then. */
  ghost method PutBack(n: XmlNode, i: nat, c: XmlNode)
    requires Lacks(n, i, c) && c.Valid() && n.Apart(c) && c.kind != DocumentType
    modifies n`kids, n`below
    ensures n.Valid() && i <= |old(n.kids)| && n.kids == old(n.kids)[..i] + [c.Tree()] + old(n.kids)[i..]
    ensures n.below == old(n.below) + {c} + c.below
  {
    LacksMeans(n, i, c);
    hide *;
    n.Settle(Others(n.children, i), i, i, c);
  }

  lemma LacksMeans(n: XmlNode, i: nat, c: XmlNode)
    requires Lacks(n, i, c)
    ensures i < |n.children| && n.Listed() && n.AttributesIn(n.below) && |n.kids| == |n.children| - 1
    ensures var was := Others(n.children, i);
            && |was| == |n.kids| && n.children == Spliced(was, i, i, [c])
            && n.OwnsIn(was, n.below) && n.Hold(was, n.kids) && forall d | d in was :: d.Valid()
  {
    n.ListedMeans();
    OthersIn(n.children, i);
  }

  /** The tree around `e`, opened along `path` at every level; `context` is all of it, and `t`
      is what the tree held before. */
  ghost predicate Around(n: XmlNode, path: seq<XmlNode>, at: seq<nat>, e: XmlNode, context: set<object>, t: Content)
    reads context, e`parent, e`prev, e`next
    decreases |at|
  {
    && e !in context
    && if at == [] then path == [] && n == e && context == {}
       else
         && path != [] && path[0] == n && n in context && n.below <= context && n !in n.below
         && at[0] < |n.children| && at[0] < |t.children|
         && var i, c, rest := at[0], n.children[at[0]], context - {n} - n.below;
            && (c == e || c in rest) && c.kind != DocumentType
            && Around(c, path[1..], at[1..], e, rest, t.children[i])
            && Lacks(n, i, c)
            && n.Tree() == t.(children := t.children[..i] + t.children[i + 1..])
  }

  lemma PathMeans(n: XmlNode, path: seq<XmlNode>, at: seq<nat>, e: XmlNode)
    requires Path(n, path, at, e)
    ensures n.Valid()
    ensures at == [] ==> path == [] && e == n
    ensures at != [] ==> path != [] && path == [n] + path[1..] && at[0] < |n.children|
                         && Path(n.children[at[0]], path[1..], at[1..], e)
  {
    hide n.Valid;
  }

  /** Where the nodes of a path are. */
  lemma {:induction false} PathInside(n: XmlNode, path: seq<XmlNode>, at: seq<nat>, e: XmlNode)
    requires Path(n, path, at, e)
    ensures e.Valid() && |path| == |at| && e !in path
    ensures at == [] ==> n == e && path == []
    ensures at != [] ==> e in n.below && e.below < n.below && e.kind != DocumentType && n !in n.below && n != e
    ensures forall d | d in path :: d == n || d in n.below
    decreases |at|
  {
    hide *;
    PathMeans(n, path, at, e);
    if at != [] {
      var c := n.children[at[0]];
      n.Parts();
      ChildApart(n, at[0]);
      PathInside(c, path[1..], at[1..], e);
    }
  }

  lemma RestIs(n: object, b: set<object>, c: object, cb: set<object>, e: object, eb: set<object>)
    requires n !in b && c in b && cb <= b
    ensures b + {n} - {e} - eb - {n} - (b - {c} - cb) == cb + {c} - {e} - eb
  {
  }

  lemma AroundNothing(n: XmlNode, t: Content)
    ensures Around(n, [], [], n, {}, t) && Has(t, [])
  {
  }

  lemma AroundIf(n: XmlNode, path: seq<XmlNode>, at: seq<nat>, e: XmlNode, context: set<object>, t: Content)
    requires at != [] && path != [] && path[0] == n && n in context && n.below <= context && n !in n.below
             && e !in context
    requires at[0] < |n.children| && at[0] < |t.children|
    requires var i, c, rest := at[0], n.children[at[0]], context - {n} - n.below;
             && (c == e || c in rest) && c.kind != DocumentType
             && Around(c, path[1..], at[1..], e, rest, t.children[i]) && Lacks(n, i, c)
             && n.Tree() == t.(children := t.children[..i] + t.children[i + 1..])
    ensures Around(n, path, at, e, context, t)
  {
    hide Lacks, n.Tree;
  }

  lemma HasNothing(t: Content)
    ensures Has(t, []) && Sub(t, []) == t
  {
  }

  lemma HasIf(t: Content, at: seq<nat>)
    requires at != [] && at[0] < |t.children| && Has(t.children[at[0]], at[1..])
    ensures Has(t, at) && Sub(t, at) == Sub(t.children[at[0]], at[1..])
  {
  }

  /** Opens every level above `e`, from the top down. */
  ghost method Open(n: XmlNode, path: seq<XmlNode>, at: seq<nat>, e: XmlNode)
    requires Path(n, path, at, e)
    modifies path`kids, path`below
    ensures Around(n, path, at, e, old(n.below) + {n} - {e} - e.below, old(n.Tree())) && Has(old(n.Tree()), at)
    ensures e.Valid() && e !in path && Sub(old(n.Tree()), at) == e.Tree()
    decreases |at|
  {
    hide *;
    PathMeans(n, path, at, e);
    PathInside(n, path, at, e);
    var t, b := n.Tree(), n.below;
    n.TreeIs();
    if at == [] {
      n.Parts();
      assert n.below + {n} - {e} - e.below == {};
      AroundNothing(n, t);
      HasNothing(t);
    } else {
      var i, c := at[0], n.children[at[0]];
      PathInside(c, path[1..], at[1..], e);
      ChildApart(n, i);
      assert n in path && forall d | d in path[1..] :: d in path;
      SetAside(n, i);
      var cb := c.below;
      Open(c, path[1..], at[1..], e);
      RestIs(n, b, c, cb, e, e.below);
      n.TreeIs();
      AroundIf(n, path, at, e, b + {n} - {e} - e.below, t);
      HasIf(t, at);
    }
  }

  lemma AroundMeans(n: XmlNode, path: seq<XmlNode>, at: seq<nat>, e: XmlNode, context: set<object>, t: Content)
    requires Around(n, path, at, e, context, t)
    ensures e !in context
    ensures at == [] ==> path == [] && n == e && context == {}
    ensures at != [] ==>
              && path != [] && path == [n] + path[1..] && n in context && n.below <= context && n !in n.below
              && at[0] < |n.children| && at[0] < |t.children|
    ensures at != [] ==>
              var i, c, rest := at[0], n.children[at[0]], context - {n} - n.below;
              && (c == e || c in rest) && c.kind != DocumentType
              && Around(c, path[1..], at[1..], e, rest, t.children[i]) && Lacks(n, i, c)
              && n.Tree() == t.(children := t.children[..i] + t.children[i + 1..])
  {
    hide Lacks, n.Tree;
  }

  lemma {:induction false} AroundInside(n: XmlNode, path: seq<XmlNode>, at: seq<nat>, e: XmlNode,
                                        context: set<object>, t: Content)
    requires Around(n, path, at, e, context, t)
    ensures forall d | d in path :: d in context
    decreases |at|
  {
    hide *;
    AroundMeans(n, path, at, e, context, t);
    if at != [] {
      AroundInside(n.children[at[0]], path[1..], at[1..], e, context - {n} - n.below, t.children[at[0]]);
    }
  }

  lemma PathIf(n: XmlNode, path: seq<XmlNode>, at: seq<nat>, e: XmlNode)
    requires n.Valid()
    requires if at == [] then path == [] && e == n
             else path != [] && path[0] == n && at[0] < |n.children| && Path(n.children[at[0]], path[1..], at[1..], e)
    ensures Path(n, path, at, e)
  {
    hide n.Valid;
  }

  lemma GraftIs(t: Content, at: seq<nat>, s: Content)
    requires Has(t, at)
    ensures at == [] ==> Graft(t, at, s) == s
    ensures at != [] ==> at[0] < |t.children| && Has(t.children[at[0]], at[1..])
                         && Graft(t, at, s) == t.(children := t.children[at[0] := Graft(t.children[at[0]], at[1..], s)])
  {
  }

  lemma Reinserted(list: seq<Content>, i: nat, s: Content)
    requires i < |list|
    ensures var less := list[..i] + list[i + 1..]; less[..i] + [s] + less[i..] == list[i := s]
  {
  }

  lemma LevelApart(n: object, b: set<object>, c: object, cb: set<object>, e: object, eb: set<object>,
                   context: set<object>)
    requires n in context && b <= context && n !in b && e !in context && eb !! context
    requires cb + {c} == context - {n} - b + {e} + eb
    ensures c !in b && cb !! b && n !in cb && n != c
    ensures b + {c} + cb + {n} == context + {e} + eb
  {
    assert c in cb + {c};
    assert forall x | x in cb :: x in cb + {c};
  }

  /** Closes the level of `n` around its child, which holds `s`. */
  ghost method CloseLevel(n: XmlNode, path: seq<XmlNode>, at: seq<nat>, e: XmlNode, t: Content, cb: set<object>,
                          s: Content)
    requires path != [] && path[0] == n && n != e && at != [] && at[0] < |n.children| && at[0] < |t.children|
    requires var i, c := at[0], n.children[at[0]];
             && n.Tree() == t.(children := t.children[..i] + t.children[i + 1..]) && c.Tree() == s && c.below == cb
             && Lacks(n, i, c) && n.Apart(c) && c.kind != DocumentType && Path(c, path[1..], at[1..], e)
    modifies n`kids, n`below
    ensures Path(n, path, at, e) && n.Tree() == t.(children := t.children[at[0] := s])
    ensures n.below == old(n.below) + {n.children[at[0]]} + cb && n !in n.below
    ensures e.Tree() == old(e.Tree())
  {
    hide *;
    var i, c := at[0], n.children[at[0]];
    PathMeans(c, path[1..], at[1..], e);
    n.TreeIs();
    e.TreeIs();
    n.ApartMeans(c);
    assert n.kids == t.children[..i] + t.children[i + 1..] && i <= |n.kids|;
    PutBack(n, i, c);
    Reinserted(t.children, i, s);
    assert n.kids == t.children[i := s];
    n.TreeIs();
    e.TreeIs();
    n.Parts();
    PathIf(n, path, at, e);
  }

  /** Closes every level above `e`, from the bottom up, around what `e` is by then. */
  ghost method Close(n: XmlNode, path: seq<XmlNode>, at: seq<nat>, e: XmlNode, context: set<object>, t: Content)
    requires Around(n, path, at, e, context, t) && Has(t, at) && e.Valid() && e.below !! context
    modifies path`kids, path`below
    ensures Path(n, path, at, e) && n.Tree() == Graft(t, at, old(e.Tree()))
    ensures n.below + {n} == context + {e} + old(e.below) && n !in n.below
    ensures e.below == old(e.below) && e.Tree() == old(e.Tree())
    decreases |at|
  {
    hide *;
    var s := e.Tree();
    AroundMeans(n, path, at, e, context, t);
    GraftIs(t, at, s);
    if at == [] {
      PathIf(n, path, at, e);
      n.Parts();
    } else {
      var c, rest, b := n.children[at[0]], context - {n} - n.below, n.below;
      assert n in path && forall d | d in path[1..] :: d in path;
      AroundInside(c, path[1..], at[1..], e, rest, t.children[at[0]]);
      assert n !in rest && n !in path[1..] && e !in rest && e !in path[1..];
      Close(c, path[1..], at[1..], e, rest, t.children[at[0]]);
      LevelApart(n, b, c, c.below, e, e.below, context);
      n.ApartIf(c);
      CloseLevel(n, path, at, e, t, c.below, c.Tree());
    }
  }

  // ----------------------------------------------------------------- the edits

  /** Every node of a tree is at some path, and holds what the tree holds there. */
  lemma {:induction false} PathTo(n: XmlNode, at: seq<nat>) returns (path: seq<XmlNode>, e: XmlNode)
    requires n.Valid() && Has(n.Tree(), at)
    ensures Path(n, path, at, e)
    decreases |at|
  {
    n.TreeIs();
    if at == [] {
      path, e := [], n;
    } else {
      n.ChildAt(at[0]);
      var rest;
      rest, e := PathTo(n.children[at[0]], at[1..]);
      path := [n] + rest;
    }
    hide *;
    PathIf(n, path, at, e);
  }

  lemma PathNothing(n: XmlNode)
    requires n.Valid()
    ensures Path(n, [], [], n)
  {
    hide n.Valid;
  }

  /** A path goes on to any child of its end. */
  lemma {:induction false} PathDown(n: XmlNode, path: seq<XmlNode>, at: seq<nat>, e: XmlNode, i: nat)
    requires Path(n, path, at, e) && i < |e.children|
    ensures Path(n, path + [e], at + [i], e.children[i])
    decreases |at|
  {
    hide *;
    PathMeans(n, path, at, e);
    var c := if at == [] then n.children[i] else n.children[at[0]];
    if at == [] {
      n.ChildAt(i);
      PathNothing(c);
      assert (path + [e])[1..] == [] && (at + [i])[1..] == [];
    } else {
      PathDown(c, path[1..], at[1..], e, i);
      assert (path + [e])[1..] == path[1..] + [e] && (at + [i])[1..] == at[1..] + [i];
    }
    PathIf(n, path + [e], at + [i], e.children[i]);
  }

  lemma {:induction false} PathHolds(n: XmlNode, path: seq<XmlNode>, at: seq<nat>, e: XmlNode)
    requires Path(n, path, at, e)
    ensures Has(n.Tree(), at) && Sub(n.Tree(), at) == e.Tree() && Graft(n.Tree(), at, e.Tree()) == n.Tree()
    decreases |at|
  {
    hide *;
    PathMeans(n, path, at, e);
    n.TreeIs();
    if at == [] {
      HasNothing(n.Tree());
    } else {
      n.ChildAt(at[0]);
      PathHolds(n.children[at[0]], path[1..], at[1..], e);
      HasIf(n.Tree(), at);
    }
    GraftSame(n.Tree(), at);
  }

  /** The whole is a tree with `self` at `at`, and holds `t` but for the children of `self`. */
  ghost predicate Regrown(root: XmlNode, path: seq<XmlNode>, at: seq<nat>, self: XmlNode, t: Content)
    reads root, root.below, self, self.attributeSet, root.attributeSet
  {
    && Path(root, path, at, self) && Has(t, at) && root.Tree() == Graft(t, at, self.Tree())
    && self.Tree() == Sub(t, at).(children := self.kids)
  }

  lemma RegrownIf(root: XmlNode, path: seq<XmlNode>, at: seq<nat>, self: XmlNode, t: Content)
    requires Path(root, path, at, self) && Has(t, at) && root.Tree() == Graft(t, at, self.Tree())
    requires self.Tree() == Sub(t, at).(children := self.kids)
    ensures Regrown(root, path, at, self, t)
  {
  }

  /** Where an opened tree and what is inside it are, before an edit. */
  lemma OpenedInside(root: XmlNode, path: seq<XmlNode>, at: seq<nat>, self: XmlNode)
    requires Path(root, path, at, self)
    ensures self.Valid() && self.below <= root.below && (self == root || self in root.below) && self !in path
    ensures var context := root.below + {root} - {self} - self.below;
            forall i | 0 <= i < |self.children| :: self.children[i] !in context && self.children[i] != self
  {
    PathInside(root, path, at, self);
    self.ChildAt(0);
    hide *;
  }

  /** Likewise for an edit with a new node. */
  lemma OpenedApart(root: XmlNode, path: seq<XmlNode>, at: seq<nat>, self: XmlNode, node: XmlNode)
    requires Path(root, path, at, self) && root.Apart(node)
    ensures self.Valid() && self.below <= root.below && (self == root || self in root.below) && self !in path
    ensures self.Apart(node) && node != self && node !in path && forall d | d in path :: d != node && d !in node.below
    ensures var context := root.below + {root} - {self} - self.below;
            && node !in context && node.below !! context
            && forall i | 0 <= i < |self.children| :: self.children[i] !in context && self.children[i] != self
  {
    OpenedInside(root, path, at, self);
    root.ApartMeans(node);
    PathInside(root, path, at, self);
    hide *;
    self.ApartIf(node);
  }

  lemma Within(n: object, b: set<object>, e: object, eb: set<object>, more: set<object>, eNow: set<object>,
               now: set<object>)
    requires eb <= b && (e == n || e in b) && n !in now && eNow <= eb + more
    requires now + {n} == b + {n} - {e} - eb + {e} + eNow
    ensures now <= b + more
  {
    forall o | o in now
      ensures o in b + more
    {
      assert o in now + {n} && o != n;
    }
  }

  /** Closes the tree around `self` after an edit that has changed its children. */
  ghost method Reclose(root: XmlNode, path: seq<XmlNode>, at: seq<nat>, self: XmlNode, t: Content,
                       b: set<object>, below: set<object>, more: set<object>)
    requires below <= b && (self == root || self in b) && self.below <= below + more && self.Valid()
    requires Around(root, path, at, self, b + {root} - {self} - below, t) && Has(t, at)
    requires self.below !! b + {root} - {self} - below && self.Tree() == Sub(t, at).(children := self.kids)
    modifies path`kids, path`below
    ensures Regrown(root, path, at, self, t) && root.below <= b + more && self.below == old(self.below)
  {
    hide *;
    self.TreeIs();
    Close(root, path, at, self, b + {root} - {self} - below, t);
    self.TreeIs();
    RegrownIf(root, path, at, self, t);
    Within(root, b, self, below, more, self.below, root.below);
  }

  /** `LinkEndChild` in a tree: `self` is at `at`. A document is refused; the node must not
      be in the tree already. */
  method LinkEndChild(self: XmlNode, node: XmlNode, ghost root: XmlNode, ghost path: seq<XmlNode>, ghost at: seq<nat>)
      returns (r: XmlNode?)
    requires Path(root, path, at, self) && node.Valid() && root.Apart(node)
    modifies path`kids, path`below, self`children, self`kids, self`below, self`firstChild, self`lastChild,
             self.children`next, node`parent, node`prev, node`next
    ensures Regrown(root, path, at, self, old(root.Tree())) && node.Valid()
            && root.below <= old(root.below) + {node} + node.below
    ensures node.kind == DocumentType ==>
              r == null && self.children == old(self.children) && self.kids == old(self.kids)
    ensures node.kind != DocumentType ==>
              r == node && self.children == old(self.children) + [node] && self.kids == old(self.kids) + [node.Tree()]
  {
    hide *;
    ghost var t, b, below := root.Tree(), root.below, self.below;
    ghost var context := b + {root} - {self} - below;
    OpenedApart(root, path, at, self, node);
    Open(root, path, at, self);
    self.TreeIs();
    r := self.LinkEndChild(node);
    assert Around(root, path, at, self, context, t);
    self.TreeIs();
    Reclose(root, path, at, self, t, b, below, {node} + node.below);
  }

  /** A new node in front of a child of `self`, and the tree around it closed again. */
  method PutBefore(self: XmlNode, beforeThis: XmlNode, node: XmlNode, ghost p: nat,
                   ghost root: XmlNode, ghost path: seq<XmlNode>, ghost at: seq<nat>)
    requires Path(root, path, at, self) && node.Valid() && root.Apart(node) && node.kind != DocumentType
    requires p < |self.children| && self.children[p] == beforeThis
    modifies path`kids, path`below, self`children, self`kids, self`below, self`firstChild,
             self.children`next, self.children`prev, node`parent, node`prev, node`next
    ensures Regrown(root, path, at, self, old(root.Tree())) && root.below <= old(root.below) + {node} + node.below
    ensures node.below == old(node.below)
    ensures self.children == Spliced(old(self.children), p, p, [node]) && |old(self.kids)| == |old(self.children)|
    ensures self.kids == old(self.kids)[..p] + [node.Tree()] + old(self.kids)[p..]
  {
    hide *;
    ghost var t, b, below := root.Tree(), root.below, self.below;
    ghost var context := b + {root} - {self} - below;
    OpenedApart(root, path, at, self, node);
    Open(root, path, at, self);
    self.TreeIs();
    self.PlaceBefore(beforeThis, node, p);
    assert Around(root, path, at, self, context, t);
    self.TreeIs();
    Reclose(root, path, at, self, t, b, below, {node} + node.below);
  }

  /** Likewise behind a child. */
  method PutAfter(self: XmlNode, afterThis: XmlNode, node: XmlNode, ghost p: nat,
                  ghost root: XmlNode, ghost path: seq<XmlNode>, ghost at: seq<nat>)
    requires Path(root, path, at, self) && node.Valid() && root.Apart(node) && node.kind != DocumentType
    requires p < |self.children| && self.children[p] == afterThis
    modifies path`kids, path`below, self`children, self`kids, self`below, self`lastChild,
             self.children`next, self.children`prev, node`parent, node`prev, node`next
    ensures Regrown(root, path, at, self, old(root.Tree())) && root.below <= old(root.below) + {node} + node.below
    ensures node.below == old(node.below)
    ensures self.children == Spliced(old(self.children), p + 1, p + 1, [node])
            && |old(self.kids)| == |old(self.children)|
    ensures self.kids == old(self.kids)[..p + 1] + [node.Tree()] + old(self.kids)[p + 1..]
  {
    hide *;
    ghost var t, b, below := root.Tree(), root.below, self.below;
    ghost var context := b + {root} - {self} - below;
    OpenedApart(root, path, at, self, node);
    Open(root, path, at, self);
    self.TreeIs();
    self.PlaceAfter(afterThis, node, p);
    assert Around(root, path, at, self, context, t);
    self.TreeIs();
    Reclose(root, path, at, self, t, b, below, {node} + node.below);
  }

  /** Likewise in place of a child. */
  method PutInstead(self: XmlNode, replaceThis: XmlNode, node: XmlNode, ghost p: nat,
                    ghost root: XmlNode, ghost path: seq<XmlNode>, ghost at: seq<nat>)
    requires Path(root, path, at, self) && node.Valid() && root.Apart(node) && node.kind != DocumentType
    requires p < |self.children| && self.children[p] == replaceThis
    modifies path`kids, path`below, self`children, self`kids, self`below, self`firstChild, self`lastChild,
             self.children`next, self.children`prev, node`parent, node`prev, node`next
    ensures Regrown(root, path, at, self, old(root.Tree())) && root.below <= old(root.below) + {node} + node.below
    ensures node.below == old(node.below)
    ensures self.children == Spliced(old(self.children), p, p + 1, [node]) && |old(self.kids)| == |old(self.children)|
    ensures self.kids == old(self.kids)[..p] + [node.Tree()] + old(self.kids)[p + 1..]
  {
    hide *;
    ghost var t, b, below := root.Tree(), root.below, self.below;
    ghost var context := b + {root} - {self} - below;
    OpenedApart(root, path, at, self, node);
    Open(root, path, at, self);
    self.TreeIs();
    self.PlaceInstead(replaceThis, node, p);
    assert Around(root, path, at, self, context, t);
    self.TreeIs();
    Reclose(root, path, at, self, t, b, below, {node} + node.below);
  }

  /** `InsertEndChild`: a clone of `addThis` goes behind the last child. `addThis` may be any
      tree, also one with this tree in it. */
  method InsertEndChild(self: XmlNode, addThis: XmlNode, ghost root: XmlNode, ghost path: seq<XmlNode>,
                        ghost at: seq<nat>)
      returns (node: XmlNode?)
    requires Path(root, path, at, self) && addThis.Valid()
    modifies path`kids, path`below, self`children, self`kids, self`below, self`firstChild, self`lastChild,
             self.children`next
    ensures Regrown(root, path, at, self, old(root.Tree())) && fresh(root.below - old(root.below))
    ensures node != null <==> addThis.kind != DocumentType
    ensures node == null ==> self.children == old(self.children) && self.kids == old(self.kids)
    ensures node != null ==> fresh(node) && self.children == old(self.children) + [node]
                             && self.kids == old(self.kids) + [Cloned(old(addThis.Tree()))]
  {
    hide *;
    if addThis.kind == DocumentType {
      PathHolds(root, path, at, self);
      self.TreeIs();
      RegrownIf(root, path, at, self, root.Tree());
      return null;
    }
    var clone := addThis.Clone();
    root.ApartIf(clone);
    node := LinkEndChild(self, clone, root, path, at);
  }

  /** `InsertBeforeChild`: a clone of `addThis` goes in front of a child; nothing happens if there
      is no such child, or for a document. */
  method InsertBeforeChild(self: XmlNode, beforeThis: XmlNode?, addThis: XmlNode, ghost p: nat,
                           ghost root: XmlNode, ghost path: seq<XmlNode>, ghost at: seq<nat>) returns (node: XmlNode?)
    requires Path(root, path, at, self) && addThis.Valid()
    requires beforeThis != null && beforeThis.parent == self ==> p < |self.children| && self.children[p] == beforeThis
    modifies path`kids, path`below, self`children, self`kids, self`below, self`firstChild,
             self.children`next, self.children`prev
    ensures Regrown(root, path, at, self, old(root.Tree())) && fresh(root.below - old(root.below))
    ensures node != null <==> beforeThis != null && old(beforeThis.parent) == self && addThis.kind != DocumentType
    ensures node == null ==> self.children == old(self.children) && self.kids == old(self.kids)
    ensures node != null ==> fresh(node) && self.children == Spliced(old(self.children), p, p, [node])
                             && |old(self.kids)| == |old(self.children)|
                             && self.kids == old(self.kids)[..p] + [Cloned(old(addThis.Tree()))] + old(self.kids)[p..]
  {
    hide *;
    PathHolds(root, path, at, self);
    self.TreeIs();
    RegrownIf(root, path, at, self, root.Tree());
    if beforeThis == null || beforeThis.parent != self {
      return null;
    }
    if addThis.kind == DocumentType {
      return null;
    }
    var clone := addThis.Clone();
    root.ApartIf(clone);
    PutBefore(self, beforeThis, clone, p, root, path, at);
    return clone;
  }

  /** `InsertAfterChild`: likewise behind the child. */
  method InsertAfterChild(self: XmlNode, afterThis: XmlNode?, addThis: XmlNode, ghost p: nat,
                          ghost root: XmlNode, ghost path: seq<XmlNode>, ghost at: seq<nat>) returns (node: XmlNode?)
    requires Path(root, path, at, self) && addThis.Valid()
    requires afterThis != null && afterThis.parent == self ==> p < |self.children| && self.children[p] == afterThis
    modifies path`kids, path`below, self`children, self`kids, self`below, self`lastChild,
             self.children`next, self.children`prev
    ensures Regrown(root, path, at, self, old(root.Tree())) && fresh(root.below - old(root.below))
    ensures node != null <==> afterThis != null && old(afterThis.parent) == self && addThis.kind != DocumentType
    ensures node == null ==> self.children == old(self.children) && self.kids == old(self.kids)
    ensures node != null ==> fresh(node) && self.children == Spliced(old(self.children), p + 1, p + 1, [node])
                             && |old(self.kids)| == |old(self.children)|
                             && self.kids ==
                             old(self.kids)[..p + 1] + [Cloned(old(addThis.Tree()))] + old(self.kids)[p + 1..]
  {
    hide *;
    PathHolds(root, path, at, self);
    self.TreeIs();
    RegrownIf(root, path, at, self, root.Tree());
    if afterThis == null || afterThis.parent != self {
      return null;
    }
    if addThis.kind == DocumentType {
      return null;
    }
    var clone := addThis.Clone();
    root.ApartIf(clone);
    PutAfter(self, afterThis, clone, p, root, path, at);
    return clone;
  }

  /** `ReplaceChild`: a clone of `withThis` takes the place of the child. */
  method ReplaceChild(self: XmlNode, replaceThis: XmlNode?, withThis: XmlNode, ghost p: nat,
                      ghost root: XmlNode, ghost path: seq<XmlNode>, ghost at: seq<nat>) returns (node: XmlNode?)
    requires Path(root, path, at, self) && withThis.Valid()
    requires replaceThis != null && replaceThis.parent == self ==>
               p < |self.children| && self.children[p] == replaceThis
    modifies path`kids, path`below, self`children, self`kids, self`below, self`firstChild, self`lastChild,
             self.children`next, self.children`prev
    ensures Regrown(root, path, at, self, old(root.Tree())) && fresh(root.below - old(root.below))
    ensures node != null <==> replaceThis != null && old(replaceThis.parent) == self && withThis.kind != DocumentType
    ensures node == null ==> self.children == old(self.children) && self.kids == old(self.kids)
    ensures node != null ==> fresh(node) && self.children == Spliced(old(self.children), p, p + 1, [node])
                             && |old(self.kids)| == |old(self.children)|
                             && self.kids ==
                             old(self.kids)[..p] + [Cloned(old(withThis.Tree()))] + old(self.kids)[p + 1..]
  {
    hide *;
    PathHolds(root, path, at, self);
    self.TreeIs();
    RegrownIf(root, path, at, self, root.Tree());
    if replaceThis == null {
      return null;
    }
    if replaceThis.parent != self {
      return null;
    }
    if withThis.kind == DocumentType {
      return null;
    }
    var clone := withThis.Clone();
    root.ApartIf(clone);
    PutInstead(self, replaceThis, clone, p, root, path, at);
    return clone;
  }

  /** `RemoveChild`: the child goes, and everything else stays. */
  method RemoveChild(self: XmlNode, removeThis: XmlNode?, ghost p: nat,
                     ghost root: XmlNode, ghost path: seq<XmlNode>, ghost at: seq<nat>) returns (done: bool)
    requires Path(root, path, at, self)
    requires removeThis != null && removeThis.parent == self ==> p < |self.children| && self.children[p] == removeThis
    modifies path`kids, path`below, self`children, self`kids, self`firstChild, self`lastChild,
             self.children`next, self.children`prev
    ensures Regrown(root, path, at, self, old(root.Tree())) && root.below <= old(root.below)
    ensures done <==> removeThis != null && old(removeThis.parent) == self
    ensures !done ==> self.children == old(self.children) && self.kids == old(self.kids)
    ensures done ==>
              self.children == Spliced(old(self.children), p, p + 1, []) && |old(self.kids)| == |old(self.children)|
                     && self.kids == old(self.kids)[..p] + old(self.kids)[p + 1..]
  {
    hide *;
    PathHolds(root, path, at, self);
    self.TreeIs();
    RegrownIf(root, path, at, self, root.Tree());
    if removeThis == null {
      return false;
    }
    if removeThis.parent != self {
      return false;
    }
    ghost var t, b, below := root.Tree(), root.below, self.below;
    ghost var context := b + {root} - {self} - below;
    OpenedInside(root, path, at, self);
    Open(root, path, at, self);
    self.TreeIs();
    self.TakeOut(removeThis, p);
    assert Around(root, path, at, self, context, t);
    self.TreeIs();
    Reclose(root, path, at, self, t, b, below, {});
    return true;
  }
}
