/** `TiXmlNode`: a node's children as a doubly linked list, the operations that edit it, and
    the cloning of whole trees. */
module XmlTree {
  import XmlText
  import opened XmlParser
  import opened XmlAttributes
  import opened XmlContent

  // ------------------------------------------------------------ neighbours in a list

  function Following(list: seq<XmlNode>, i: nat): XmlNode?
    requires i < |list|
  {
    if i + 1 < |list| then list[i + 1] else null
  }

  function Previous(list: seq<XmlNode>, i: nat): XmlNode?
    requires i < |list|
  {
    if i > 0 then list[i - 1] else null
  }

  ghost predicate NoTwice(list: seq<XmlNode>) {
    forall i, j | 0 <= i < j < |list| :: list[i] != list[j]
  }

  lemma Alone(list: seq<XmlNode>, k: nat)
    requires NoTwice(list) && k < |list|
    ensures forall i | 0 <= i < |list| && i != k :: list[i] != list[k]
  {
  }

  /** The list with the nodes from `p` to `q` replaced by `mid`. */
  function Spliced(list: seq<XmlNode>, p: nat, q: nat, mid: seq<XmlNode>): seq<XmlNode>
    requires p <= q <= |list|
  {
    list[..p] + mid + list[q..]
  }

  lemma SplicedAt(list: seq<XmlNode>, p: nat, q: nat, mid: seq<XmlNode>, i: nat)
    requires p <= q <= |list| && i < |Spliced(list, p, q, mid)|
    ensures Spliced(list, p, q, mid)[i] ==
            if i < p then list[i] else if i < p + |mid| then mid[i - p] else list[i - p - |mid| + q]
  {
  }

  lemma SplicedSize(list: seq<XmlNode>, p: nat, q: nat, mid: seq<XmlNode>)
    requires p <= q <= |list|
    ensures |Spliced(list, p, q, mid)| == p + |mid| + |list| - q
  {
  }

  lemma SplicedNoTwice(list: seq<XmlNode>, p: nat, q: nat, mid: seq<XmlNode>)
    requires NoTwice(list) && p <= q <= |list| && |mid| <= 1 && (mid != [] ==> mid[0] !in list)
    ensures NoTwice(Spliced(list, p, q, mid))
    ensures forall i | p <= i < q :: list[i] !in Spliced(list, p, q, mid)
    ensures forall n | n in Spliced(list, p, q, mid) :: n in list || n in mid
  {
    var r := Spliced(list, p, q, mid);
    forall i, j | 0 <= i < j < |r|
      ensures r[i] != r[j]
    {
      SplicedAt(list, p, q, mid, i);
      SplicedAt(list, p, q, mid, j);
    }
    forall k, i | p <= k < q && 0 <= i < |r|
      ensures list[k] != r[i]
    {
      SplicedAt(list, p, q, mid, i);
    }
  }

  /** Left of a splice only the last node has a new successor, right of it only the first
      node a new predecessor. */
  lemma SplicedLeft(list: seq<XmlNode>, p: nat, q: nat, mid: seq<XmlNode>, i: nat)
    requires NoTwice(list) && p <= q <= |list| && i < p
    ensures var r := Spliced(list, p, q, mid);
            r[i] == list[i] && Previous(r, i) == Previous(list, i)
            && (i < p - 1 ==> Following(r, i) == Following(list, i) && list[i] != list[p - 1])
            && (i == p - 1 ==> Following(r, i) == if mid != [] then mid[0] else if q < |list| then list[q] else null)
    ensures forall k | p <= k < |list| :: list[i] != list[k]
  {
  }

  lemma SplicedRight(list: seq<XmlNode>, p: nat, q: nat, mid: seq<XmlNode>, i: nat)
    requires NoTwice(list) && p <= q <= i < |list|
    ensures var r, k := Spliced(list, p, q, mid), i - q + p + |mid|;
            r[k] == list[i] && Following(r, k) == Following(list, i)
            && (i > q ==> Previous(r, k) == Previous(list, i) && list[i] != list[q])
            && (i == q ==> Previous(r, k) == if mid != [] then mid[|mid| - 1] else if p > 0 then list[p - 1] else null)
    ensures forall k | 0 <= k < q :: list[i] != list[k]
  {
  }

  lemma SplicedMiddle(list: seq<XmlNode>, p: nat, q: nat, n: XmlNode)
    requires p <= q <= |list|
    ensures var r := Spliced(list, p, q, [n]);
            r[p] == n && Previous(r, p) == (if p > 0 then list[p - 1] else null)
            && Following(r, p) == if q < |list| then list[q] else null
  {
  }

  class XmlNode {
    const kind: NodeType
    const attributeSet: AttributeSet
    var value: string
    var cdata: bool
    var version: string
    var encoding: string
    var standalone: string
    var parent: XmlNode?
    var firstChild: XmlNode?
    var lastChild: XmlNode?
    var prev: XmlNode?
    var next: XmlNode?
    ghost var children: seq<XmlNode>
    ghost var kids: seq<Content>
    ghost var below: set<object>

    constructor (kind: NodeType, value: string)
      ensures Valid() && children == [] && attributeSet.contents == [] && fresh(below) && parent == null
      ensures this.kind == kind && this.value == XmlText.CStr(value) && !cdata && version == "" && encoding == ""
              && standalone == ""
    {
      var attributes := new AttributeSet();
      this.kind, this.value, attributeSet := kind, XmlText.CStr(value), attributes;
      cdata, version, encoding, standalone := false, "", "", "";
      parent, firstChild, lastChild, prev, next := null, null, null, null, null;
      children, kids, below := [], [], {attributes} + attributes.repr;
    }

    ghost function Tree(): Content
      reads `value, `cdata, `version, `encoding, `standalone, `kids, attributeSet`contents
    {
      Content(kind, value, cdata, version, encoding, standalone, attributeSet.contents, kids)
    }

    /** The nodes of `list`, and what is below them, are in `b`, and none is below another. */
    ghost predicate OwnsIn(list: seq<XmlNode>, b: set<object>)
      reads list`below, attributeSet`repr
    {
      (forall i | 0 <= i < |list| :: list[i] in b && list[i].attributeSet in b && list[i].below < b
        && list[i].kind != DocumentType)
      && (forall i, j | 0 <= i < |list| && 0 <= j < |list| :: list[i] !in list[j].below)
      && Disjoint(list)
    }

    /** What is below the nodes of `list` is apart, from each other and from this node's attributes. */
    ghost predicate Disjoint(list: seq<XmlNode>)
      reads list`below, attributeSet`repr
    {
      (forall c, d | c in list && d in list && c != d :: c.below !! d.below)
      && forall c | c in list :: attributeSet !in c.below && attributeSet.repr !! c.below
    }

    ghost predicate AttributesIn(b: set<object>)
      reads attributeSet, attributeSet.repr
    {
      this !in b && attributeSet in b && attributeSet.repr <= b && attributeSet.Valid()
    }

    /** `contents` is what the trees of `list` hold. */
    ghost predicate Hold(list: seq<XmlNode>, contents: seq<Content>)
      reads list`value, list`cdata, list`version, list`encoding, list`standalone, list`kids
      reads (set c | c in list :: c.attributeSet)`contents
    {
      |contents| == |list| && forall i | 0 <= i < |list| :: contents[i] == list[i].Tree()
    }

    /** A tree: the children are listed and are trees themselves, `kids` is what they hold,
        and everything below this node is in `below`. */
    ghost predicate Valid()
      reads `children, `firstChild, `lastChild, `kids, `below, below
      decreases below
    {
      && attributeSet in below && attributeSet.repr <= below && AttributesIn(below)
      && (forall c | c in children :: c in below) && OwnsIn(children, below)
      && Listed()
      && Hold(children, kids)
      && forall i | 0 <= i < |children| :: children[i].Valid()
    }

    /** `list` is linked both ways under this node. */
    ghost predicate Linked(list: seq<XmlNode>)
      reads list`parent, list`prev, list`next
    {
      NextLinked(list) && PrevLinked(list) && forall i | 0 <= i < |list| :: list[i].parent == this
    }

    /** Walking `next` from the first child, or `prev` from the last, meets `children`. */
    ghost predicate Listed()
      reads `children, `firstChild, `lastChild, children`parent, children`prev, children`next
    {
      && this !in children && NoTwice(children)
      && firstChild == (if children == [] then null else children[0])
      && lastChild == (if children == [] then null else children[|children| - 1])
      && Linked(children)
    }

    /** After the pointer changes of a splice, before `children` is updated. */
    ghost predicate Changed(list: seq<XmlNode>, p: nat, q: nat, mid: seq<XmlNode>)
      requires p <= q <= |list|
      reads `firstChild, `lastChild, list`next, list`prev, list`parent, mid`next, mid`prev, mid`parent
    {
      && NextChanged(list, p, q, mid) && PrevChanged(list, p, q, mid)
      && (forall i | 0 <= i < |list| :: list[i].parent == this)
      && (mid != [] ==> mid[0].parent == this)
      && firstChild == (if p > 0 then list[0] else Onwards(list, q, mid))
      && lastChild == if q < |list| then list[|list| - 1] else Backwards(list, p, mid)
    }

    lemma Relisted(list: seq<XmlNode>, p: nat, q: nat, mid: seq<XmlNode>)
      requires NoTwice(list) && this !in list && p <= q <= |list| && |mid| <= 1
      requires mid != [] ==> mid[0] !in list && mid[0] != this
      requires Changed(list, p, q, mid) && children == Spliced(list, p, q, mid)
      ensures Listed()
    {
      hide *;
      ChangedMeans(list, p, q, mid);
      SplicedNoTwice(list, p, q, mid);
      NextRelinked(list, p, q, mid);
      PrevRelinked(list, p, q, mid);
      SplicedFirst(list, p, q, mid);
      SplicedLast(list, p, q, mid);
      SplicedParents(list, p, q, mid);
      ListedIf();
    }

    lemma ChangedMeans(list: seq<XmlNode>, p: nat, q: nat, mid: seq<XmlNode>)
      requires p <= q <= |list| && Changed(list, p, q, mid)
      ensures NextChanged(list, p, q, mid) && PrevChanged(list, p, q, mid)
      ensures (forall i | 0 <= i < |list| :: list[i].parent == this) && (mid != [] ==> mid[0].parent == this)
      ensures firstChild == (if p > 0 then list[0] else Onwards(list, q, mid))
      ensures lastChild == if q < |list| then list[|list| - 1] else Backwards(list, p, mid)
    {
      hide NextChanged, PrevChanged, Onwards, Backwards;
    }

    lemma ListedIf()
      requires this !in children && NoTwice(children) && NextLinked(children) && PrevLinked(children)
      requires forall i | 0 <= i < |children| :: children[i].parent == this
      requires firstChild == if children == [] then null else children[0]
      requires lastChild == if children == [] then null else children[|children| - 1]
      ensures Listed()
    {
      hide NoTwice, NextLinked, PrevLinked;
    }

    lemma SplicedParents(list: seq<XmlNode>, p: nat, q: nat, mid: seq<XmlNode>)
      requires p <= q <= |list| && (forall i | 0 <= i < |list| :: list[i].parent == this)
      requires |mid| <= 1 && (mid != [] ==> mid[0].parent == this)
      ensures forall i | 0 <= i < |Spliced(list, p, q, mid)| :: Spliced(list, p, q, mid)[i].parent == this
    {
    }

    lemma Neighbours(p: nat)
      requires Listed() && p < |children|
      ensures children[p].prev == (if p > 0 then children[p - 1] else null)
      ensures children[p].next == if p + 1 < |children| then children[p + 1] else null
    {
    }

    method ChangeEnd(node: XmlNode)
      requires Listed() && node !in children && node != this
      modifies `firstChild, `lastChild, children`next, node`parent, node`prev, node`next
      ensures Changed(children, |children|, |children|, [node])
    {
      hide NoTwice, Following, Previous;
      ghost var n := |children|;
      if n > 0 {
        Alone(children, n - 1);
      }
      node.parent := this;
      node.prev := lastChild;
      node.next := null;
      if lastChild != null {
        lastChild.next := node;
      } else {
        firstChild := node;
      }
      lastChild := node;
    }

    method LinkEnd(node: XmlNode)
      requires Listed() && node !in children && node != this
      modifies `children, `firstChild, `lastChild, children`next, node`parent, node`prev, node`next
      ensures Listed() && children == old(children) + [node]
    {
      ListedMeans();
      hide *;
      ghost var was, n := children, |children|;
      ChangeEnd(node);
      children := Spliced(was, n, n, [node]);
      Relisted(was, n, n, [node]);
      SplicedAtEnd(was, node);
    }

    lemma ListedMeans()
      requires Listed()
      ensures NoTwice(children) && this !in children
    {
    }

    method ChangeBefore(beforeThis: XmlNode, node: XmlNode, ghost p: nat)
      requires Listed() && node !in children && node != this && p < |children| && children[p] == beforeThis
      modifies `firstChild, children`next, children`prev, node`parent, node`prev, node`next
      ensures Changed(children, p, p, [node])
    {
      hide NoTwice, Following, Previous;
      Neighbours(p);
      Alone(children, p);
      if p > 0 {
        Alone(children, p - 1);
      }
      node.parent := this;
      node.next := beforeThis;
      node.prev := beforeThis.prev;
      if beforeThis.prev != null {
        beforeThis.prev.next := node;
      } else {
        firstChild := node;
      }
      beforeThis.prev := node;
    }

    method LinkBefore(beforeThis: XmlNode, node: XmlNode, ghost p: nat)
      requires Listed() && node !in children && node != this && p < |children| && children[p] == beforeThis
      modifies `children, `firstChild, children`next, children`prev, node`parent, node`prev, node`next
      ensures Listed() && children == Spliced(old(children), p, p, [node])
    {
      hide *;
      ListedMeans();
      ghost var was := children;
      ChangeBefore(beforeThis, node, p);
      children := Spliced(was, p, p, [node]);
      Relisted(was, p, p, [node]);
    }

    method ChangeAfter(afterThis: XmlNode, node: XmlNode, ghost p: nat)
      requires Listed() && node !in children && node != this && p < |children| && children[p] == afterThis
      modifies `lastChild, children`next, children`prev, node`parent, node`prev, node`next
      ensures Changed(children, p + 1, p + 1, [node])
    {
      hide NoTwice, Following, Previous;
      Neighbours(p);
      Alone(children, p);
      if p + 1 < |children| {
        Alone(children, p + 1);
      }
      node.parent := this;
      node.prev := afterThis;
      node.next := afterThis.next;
      if afterThis.next != null {
        afterThis.next.prev := node;
      } else {
        lastChild := node;
      }
      afterThis.next := node;
    }

    method LinkAfter(afterThis: XmlNode, node: XmlNode, ghost p: nat)
      requires Listed() && node !in children && node != this && p < |children| && children[p] == afterThis
      modifies `children, `lastChild, children`next, children`prev, node`parent, node`prev, node`next
      ensures Listed() && children == Spliced(old(children), p + 1, p + 1, [node])
    {
      hide *;
      ListedMeans();
      ghost var was := children;
      ChangeAfter(afterThis, node, p);
      children := Spliced(was, p + 1, p + 1, [node]);
      Relisted(was, p + 1, p + 1, [node]);
    }

    method ChangeReplaced(replaceThis: XmlNode, node: XmlNode, ghost p: nat)
      requires Listed() && node !in children && node != this && p < |children| && children[p] == replaceThis
      modifies `firstChild, `lastChild, children`next, children`prev, node`parent, node`prev, node`next
      ensures Changed(children, p, p + 1, [node])
    {
      hide NoTwice, Following, Previous;
      Neighbours(p);
      if p > 0 {
        Alone(children, p - 1);
      }
      if p + 1 < |children| {
        Alone(children, p + 1);
      }
      node.next := replaceThis.next;
      node.prev := replaceThis.prev;
      if replaceThis.next != null {
        replaceThis.next.prev := node;
      } else {
        lastChild := node;
      }
      if replaceThis.prev != null {
        replaceThis.prev.next := node;
      } else {
        firstChild := node;
      }
      node.parent := this;
    }

    method Exchange(replaceThis: XmlNode, node: XmlNode, ghost p: nat)
      requires Listed() && node !in children && node != this && p < |children| && children[p] == replaceThis
      modifies `children, `firstChild, `lastChild, children`next, children`prev, node`parent, node`prev, node`next
      ensures Listed() && children == Spliced(old(children), p, p + 1, [node])
    {
      hide *;
      ListedMeans();
      ghost var was := children;
      ChangeReplaced(replaceThis, node, p);
      children := Spliced(was, p, p + 1, [node]);
      Relisted(was, p, p + 1, [node]);
    }

    method ChangeRemoved(removeThis: XmlNode, ghost p: nat)
      requires Listed() && p < |children| && children[p] == removeThis
      modifies `firstChild, `lastChild, children`next, children`prev
      ensures Changed(children, p, p + 1, [])
    {
      hide NoTwice, Following, Previous;
      Neighbours(p);
      if p > 0 {
        Alone(children, p - 1);
      }
      if p + 1 < |children| {
        Alone(children, p + 1);
      }
      if removeThis.next != null {
        removeThis.next.prev := removeThis.prev;
      } else {
        lastChild := removeThis.prev;
      }
      if removeThis.prev != null {
        removeThis.prev.next := removeThis.next;
      } else {
        firstChild := removeThis.next;
      }
    }

    method Unlink(removeThis: XmlNode, ghost p: nat)
      requires Listed() && p < |children| && children[p] == removeThis
      modifies `children, `firstChild, `lastChild, children`next, children`prev
      ensures Listed() && children == Spliced(old(children), p, p + 1, [])
    {
      hide *;
      ListedMeans();
      ghost var was := children;
      ChangeRemoved(removeThis, p);
      children := Spliced(was, p, p + 1, []);
      Relisted(was, p, p + 1, []);
    }

    lemma Parts()
      requires Valid()
      ensures AttributesIn(below) && OwnsIn(children, below) && Listed() && Hold(children, kids)
      ensures this !in below && this !in children && attributeSet in below
      ensures forall c | c in children :: c in below && c.Valid()
    {
    }

    lemma RingIs()
      requires Valid()
      ensures attributeSet.Valid()
    {
      Parts();
    }

    lemma Ends()
      requires Valid()
      ensures |kids| == |children| && firstChild == (if children == [] then null else children[0])
      ensures lastChild == (if children == [] then null else children[|children| - 1])
      ensures |children| > 1 ==> children[0] != children[|children| - 1]
    {
    }

    lemma Whole()
      requires AttributesIn(below) && OwnsIn(children, below) && Listed() && Hold(children, kids)
      requires forall c | c in children :: c.Valid()
      ensures Valid()
    {
    }

    /** This tree and another have nothing in common. */
    ghost predicate Apart(node: XmlNode)
      reads `below, node`below
    {
      node != this && node !in below && this !in node.below && node.below !! below
    }

    lemma ApartMeans(node: XmlNode)
      requires Apart(node)
      ensures node != this && node !in below && this !in node.below && node.below !! below
    {
    }

    lemma ApartIf(node: XmlNode)
      requires node != this && node !in below && this !in node.below && node.below !! below
      ensures Apart(node)
    {
    }

    /** `LinkEnd` disturbs no tree. */
    method LinkLast(node: XmlNode)
      requires Valid() && node.Valid() && Apart(node)
      modifies `children, `firstChild, `lastChild, children`next, node`parent, node`prev, node`next
      ensures Listed() && children == old(children) + [node]
      ensures node.Valid() && forall c | c in old(children) :: c.Valid()
      ensures AttributesIn(below) && OwnsIn(old(children), below) && Hold(old(children), kids)
    {
      hide *;
      Parts();
      node.Parts();
      ApartMeans(node);
      ghost var was := children;
      LinkEnd(node);
      forall c | c in was
        ensures c.Valid()
      {
      }
    }

    /** `LinkEndChild` for a node that is no part of a larger tree. A document is refused. */
    method LinkEndChild(node: XmlNode) returns (r: XmlNode?)
      requires Valid() && node.Valid() && Apart(node)
      modifies `children, `kids, `below, `firstChild, `lastChild, children`next, node`parent, node`prev, node`next
      ensures Valid() && node.Valid()
      ensures node.kind == DocumentType ==>
                r == null && children == old(children) && kids == old(kids) && below == old(below)
      ensures node.kind != DocumentType ==>
                r == node && children == old(children) + [node] && kids == old(kids) + [node.Tree()]
                && below == old(below) + {node} + node.below
    {
      hide *;
      if node.kind == DocumentType {
        return null;
      }
      ApartMeans(node);
      ghost var was, n := children, |children|;
      ChildAt(0);
      LinkLast(node);
      SplicedAtEnd(was, node);
      ApartIf(node);
      ghost var contents := kids;
      Settle(was, n, n, node);
      assert contents[..n] == contents && contents[n..] == [];
      return node;
    }

    method KeepBefore(beforeThis: XmlNode, node: XmlNode, ghost p: nat)
      requires Valid() && node.Valid() && Apart(node) && p < |children| && children[p] == beforeThis
      modifies `children, `firstChild, children`next, children`prev, node`parent, node`prev, node`next
      ensures Listed() && children == Spliced(old(children), p, p, [node])
      ensures node.Valid() && forall c | c in old(children) :: c.Valid()
      ensures AttributesIn(below) && OwnsIn(old(children), below) && Hold(old(children), kids)
    {
      hide *;
      Parts();
      node.Parts();
      ApartMeans(node);
      ghost var was := children;
      LinkBefore(beforeThis, node, p);
      forall c | c in was
        ensures c.Valid()
      {
      }
    }

    method KeepAfter(afterThis: XmlNode, node: XmlNode, ghost p: nat)
      requires Valid() && node.Valid() && Apart(node) && p < |children| && children[p] == afterThis
      modifies `children, `lastChild, children`next, children`prev, node`parent, node`prev, node`next
      ensures Listed() && children == Spliced(old(children), p + 1, p + 1, [node])
      ensures node.Valid() && forall c | c in old(children) :: c.Valid()
      ensures AttributesIn(below) && OwnsIn(old(children), below) && Hold(old(children), kids)
    {
      hide *;
      Parts();
      node.Parts();
      ApartMeans(node);
      ghost var was := children;
      LinkAfter(afterThis, node, p);
      forall c | c in was
        ensures c.Valid()
      {
      }
    }

    method KeepReplaced(replaceThis: XmlNode, node: XmlNode, ghost p: nat)
      requires Valid() && node.Valid() && Apart(node) && p < |children| && children[p] == replaceThis
      modifies `children, `firstChild, `lastChild, children`next, children`prev, node`parent, node`prev, node`next
      ensures Listed() && children == Spliced(old(children), p, p + 1, [node])
      ensures node.Valid() && forall c | c in old(children) :: c.Valid()
      ensures AttributesIn(below) && OwnsIn(old(children), below) && Hold(old(children), kids)
    {
      hide *;
      Parts();
      node.Parts();
      ApartMeans(node);
      ghost var was := children;
      Exchange(replaceThis, node, p);
      forall c | c in was
        ensures c.Valid()
      {
      }
    }

    method KeepRemoved(removeThis: XmlNode, ghost p: nat)
      requires Valid() && p < |children| && children[p] == removeThis
      modifies `children, `firstChild, `lastChild, children`next, children`prev
      ensures Listed() && children == Spliced(old(children), p, p + 1, [])
      ensures forall c | c in old(children) :: c.Valid()
      ensures AttributesIn(below) && OwnsIn(old(children), below) && Hold(old(children), kids)
    {
      hide *;
      Parts();
      ghost var was := children;
      Unlink(removeThis, p);
      forall c | c in was
        ensures c.Valid()
      {
      }
    }

    lemma OwnsSpliced(list: seq<XmlNode>, p: nat, q: nat, node: XmlNode, b: set<object>)
      requires p <= q <= |list| && AttributesIn(b) && OwnsIn(list, b)
      requires node !in b && node.below !! b && node.Valid() && node.kind != DocumentType
      ensures OwnsIn(Spliced(list, p, q, [node]), b + {node} + node.below)
    {
      OwnsMore(list, node, b);
      var r := Spliced(list, p, q, [node]);
      forall i | 0 <= i < |r|
        ensures r[i] in list + [node]
      {
        SplicedAt(list, p, q, [node], i);
      }
      hide Spliced;
      OwnsSome(list + [node], r, b + {node} + node.below);
    }

    lemma OwnsSome(list: seq<XmlNode>, some: seq<XmlNode>, b: set<object>)
      requires OwnsIn(list, b) && forall i | 0 <= i < |some| :: some[i] in list
      ensures OwnsIn(some, b)
    {
      forall c | c in some
        ensures c in list
      {
      }
      assert Disjoint(some);
      hide Disjoint;
    }

    lemma OwnsFewer(list: seq<XmlNode>, p: nat, q: nat, b: set<object>)
      requires p <= q <= |list| && OwnsIn(list, b)
      ensures OwnsIn(Spliced(list, p, q, []), b)
    {
      var r := Spliced(list, p, q, []);
      forall i | 0 <= i < |r|
        ensures r[i] in list
      {
        SplicedAt(list, p, q, [], i);
      }
      hide Spliced;
      OwnsSome(list, r, b);
    }

    lemma HoldsSpliced(list: seq<XmlNode>, p: nat, q: nat, mid: seq<XmlNode>, contents: seq<Content>)
      requires p <= q <= |list| && Hold(list, contents) && |mid| <= 1
      ensures Hold(Spliced(list, p, q, mid),
                   contents[..p] + (if mid == [] then [] else [mid[0].Tree()]) + contents[q..])
    {
    }

    lemma ValidSpliced(list: seq<XmlNode>, p: nat, q: nat, mid: seq<XmlNode>, b: set<object>)
      requires p <= q <= |list| && AttributesIn(b) && OwnsIn(list, b)
      requires (forall c | c in list :: c.Valid()) && forall c | c in mid :: c.Valid() && this !in c.below
      ensures forall c | c in Spliced(list, p, q, mid) :: c.Valid() && this !in c.below
    {
      hide Valid;
    }

    /** Brings `kids` and `below` up to date with a node put in place of the children from
        `p` to `q` of the list `was`. */
    ghost method Settle(was: seq<XmlNode>, p: nat, q: nat, node: XmlNode)
      requires p <= q <= |was| && Listed() && children == Spliced(was, p, q, [node])
      requires AttributesIn(below) && OwnsIn(was, below) && Hold(was, kids) && |kids| == |was|
      requires (forall c | c in was :: c.Valid()) && node.Valid() && Apart(node) && node.kind != DocumentType
      modifies `kids, `below
      ensures Valid() && kids == old(kids)[..p] + [node.Tree()] + old(kids)[q..]
      ensures below == old(below) + {node} + node.below
    {
      hide *;
      ApartMeans(node);
      ListedMeans();
      OwnsSpliced(was, p, q, node, below);
      HoldsSpliced(was, p, q, [node], kids);
      AttributesMore(below, node);
      ValidSpliced(was, p, q, [node], below);
      kids := kids[..p] + [node.Tree()] + kids[q..];
      below := below + {node} + node.below;
      Whole();
    }

    ghost method SettleRemoved(was: seq<XmlNode>, p: nat, q: nat)
      requires p <= q <= |was| && Listed() && children == Spliced(was, p, q, [])
      requires AttributesIn(below) && OwnsIn(was, below) && Hold(was, kids) && |kids| == |was|
      requires forall c | c in was :: c.Valid()
      modifies `kids
      ensures Valid() && kids == old(kids)[..p] + old(kids)[q..]
    {
      hide *;
      ListedMeans();
      OwnsFewer(was, p, q, below);
      HoldsSpliced(was, p, q, [], kids);
      ValidSpliced(was, p, q, [], below);
      assert kids[..p] + [] + kids[q..] == kids[..p] + kids[q..];
      kids := kids[..p] + kids[q..];
      Whole();
    }

    /** Links a node in front of a child. */
    method PlaceBefore(beforeThis: XmlNode, node: XmlNode, ghost p: nat)
      requires Valid() && p < |children| && children[p] == beforeThis
      requires node.Valid() && Apart(node) && node.kind != DocumentType
      modifies `children, `kids, `below, `firstChild, children`next, children`prev, node`parent, node`prev, node`next
      ensures Valid() && children == Spliced(old(children), p, p, [node]) && below == old(below) + {node} + node.below
      ensures |old(kids)| == |old(children)| && kids == old(kids)[..p] + [node.Tree()] + old(kids)[p..]
    {
      hide *;
      ChildAt(p);
      ApartMeans(node);
      ghost var was := children;
      KeepBefore(beforeThis, node, p);
      ApartIf(node);
      Settle(was, p, p, node);
    }

    /** Links a node behind a child. */
    method PlaceAfter(afterThis: XmlNode, node: XmlNode, ghost p: nat)
      requires Valid() && p < |children| && children[p] == afterThis
      requires node.Valid() && Apart(node) && node.kind != DocumentType
      modifies `children, `kids, `below, `lastChild, children`next, children`prev, node`parent, node`prev, node`next
      ensures Valid() && children == Spliced(old(children), p + 1, p + 1, [node])
              && below == old(below) + {node} + node.below
      ensures |old(kids)| == |old(children)| && kids == old(kids)[..p + 1] + [node.Tree()] + old(kids)[p + 1..]
    {
      hide *;
      ChildAt(p);
      ApartMeans(node);
      ghost var was := children;
      KeepAfter(afterThis, node, p);
      ApartIf(node);
      Settle(was, p + 1, p + 1, node);
    }

    /** Links a node in place of a child. */
    method PlaceInstead(replaceThis: XmlNode, node: XmlNode, ghost p: nat)
      requires Valid() && p < |children| && children[p] == replaceThis
      requires node.Valid() && Apart(node) && node.kind != DocumentType
      modifies `children, `kids, `below, `firstChild, `lastChild, children`next, children`prev, node`parent,
               node`prev, node`next
      ensures Valid() && children == Spliced(old(children), p, p + 1, [node])
              && below == old(below) + {node} + node.below
      ensures |old(kids)| == |old(children)| && kids == old(kids)[..p] + [node.Tree()] + old(kids)[p + 1..]
    {
      hide *;
      ChildAt(p);
      ApartMeans(node);
      ghost var was := children;
      KeepReplaced(replaceThis, node, p);
      ApartIf(node);
      Settle(was, p, p + 1, node);
    }

    /** Takes a child out of the list. */
    method TakeOut(removeThis: XmlNode, ghost p: nat)
      requires Valid() && p < |children| && children[p] == removeThis
      modifies `children, `kids, `firstChild, `lastChild, children`next, children`prev
      ensures Valid() && children == Spliced(old(children), p, p + 1, [])
      ensures |old(kids)| == |old(children)| && kids == old(kids)[..p] + old(kids)[p + 1..]
    {
      hide *;
      ChildAt(p);
      ghost var was := children;
      KeepRemoved(removeThis, p);
      SettleRemoved(was, p, p + 1);
    }

    lemma ChildAt(i: nat)
      requires Valid()
      ensures |kids| == |children| && firstChild == (if children == [] then null else children[0])
      ensures this !in below && forall c | c in children :: c in below
      ensures i < |children| ==> children[i].next == (if i + 1 < |children| then children[i + 1] else null)
      ensures i < |children| ==> children[i].Valid()
                                 && children[i].below < below && children[i].kind != DocumentType
                                 && kids[i] == children[i].Tree()
    {
    }

    /** The first half of `TiXmlElement::CopyTo`, for a target without attributes and children. */
    method CopyAttributes(target: XmlNode)
      requires Valid() && target.Valid() && Apart(target) && target.children == [] && target.attributeSet.contents == []
      modifies target`below, target.attributeSet, target.attributeSet.repr
      ensures target.Valid() && fresh(target.below - old(target.below))
      ensures target.attributeSet.contents == PutAll([], Visited(attributeSet.contents))
    {
      hide *;
      AttributesApart(target);
      target.Childless();
      attributeSet.CopyTo(target.attributeSet);
      target.below := target.below + target.attributeSet.repr;
      target.ChildlessValid();
    }

    lemma AttributesApart(target: XmlNode)
      requires Valid() && target.Valid() && Apart(target)
      ensures attributeSet.Valid() && target.attributeSet.Valid() && target.attributeSet != attributeSet
      ensures target.attributeSet.repr !! attributeSet.repr
    {
      Parts();
      target.Parts();
    }

    lemma Childless()
      requires Valid() && children == []
      ensures kids == [] && firstChild == null && lastChild == null && attributeSet.repr <= below
      ensures this !in below && attributeSet in below
    {
    }

    lemma ChildlessValid()
      requires children == [] && kids == [] && firstChild == null && lastChild == null && attributeSet.Valid()
      requires this !in below && attributeSet in below && attributeSet.repr <= below
      ensures Valid()
    {
    }

    /** `Clone`: a new tree that shares nothing with the old one and holds the same. */
    method Clone() returns (r: XmlNode)
      requires Valid()
      ensures fresh(r) && fresh(r.below) && r.Valid() && r.kind == kind && r.Tree() == Cloned(Tree())
      decreases below, 1
    {
      hide *;
      TreeIs();
      ghost var t := Tree();
      ClonedIs(t);
      r := new XmlNode(kind, value);
      r.Childless();
      r.cdata, r.version, r.encoding, r.standalone := cdata, version, encoding, standalone;
      if kind == ElementType {
        ApartIf(r);
        CopyAttributes(r);
      }
      if kind == ElementType || kind == DocumentType {
        ApartIf(r);
        CloneChildren(r);
      }
      r.TreeIs();
      assert Tree() == t;
    }

    lemma TreeIs()
      ensures Tree() == Content(kind, value, cdata, version, encoding, standalone, attributeSet.contents, kids)
    {
    }

    /** The second half of `CopyTo`. */
    method CloneChildren(target: XmlNode)
      requires Valid() && target.Valid() && Apart(target) && target.children == [] && target.kids == []
      modifies target`children, target`kids, target`below, target`firstChild, target`lastChild
      ensures target.Valid() && fresh(target.below - old(target.below)) && target.kids == AllCloned(kids)
      decreases below, 0
    {
      hide *;
      ChildAt(0);
      ApartMeans(target);
      AllClonedMore(kids, 0);
      var node := firstChild;
      ghost var i := 0;
      while node != null
        invariant i <= |children| && node == (if i < |children| then children[i] else null) && |kids| == |children|
        invariant Valid() && target.Valid() && fresh(target.below - old(target.below))
        invariant target !in below && this !in target.below && target.below !! below
        invariant target.kids == AllCloned(kids[..i])
        invariant forall k | 0 <= k < |target.children| :: fresh(target.children[k])
        decreases |children| - i
      {
        ChildAt(i);
        var clone := node.Clone();
        target.ApartIf(clone);
        AllClonedMore(kids, i);
        var linked := target.LinkEndChild(clone);
        node := node.next;
        i := i + 1;
      }
    }

    lemma OwnsMore(list: seq<XmlNode>, node: XmlNode, b: set<object>)
      requires AttributesIn(b) && OwnsIn(list, b)
      requires node !in b && node.below !! b && node.Valid() && node.kind != DocumentType
      ensures OwnsIn(list + [node], b + {node} + node.below)
    {
      hide *;
      node.Parts();
      OwnsAlso(list, node, b);
      DisjointMore(list, node, b);
      BelowApart(list, node, b);
      OwnsIf(list + [node], b + {node} + node.below);
    }

    lemma OwnsIf(list: seq<XmlNode>, b: set<object>)
      requires forall i | 0 <= i < |list| :: list[i] in b && list[i].attributeSet in b && list[i].below < b
                                             && list[i].kind != DocumentType
      requires forall i, j | 0 <= i < |list| && 0 <= j < |list| :: list[i] !in list[j].below
      requires Disjoint(list)
      ensures OwnsIn(list, b)
    {
    }

    lemma OwnsAlso(list: seq<XmlNode>, node: XmlNode, b: set<object>)
      requires OwnsIn(list, b) && node !in node.below && node.attributeSet in node.below && node.kind != DocumentType
      ensures var more, all := list + [node], b + {node} + node.below;
              forall i | 0 <= i < |more| :: more[i] in all && more[i].attributeSet in all && more[i].below < all
                                            && more[i].kind != DocumentType
    {
      hide Disjoint;
      var more, all := list + [node], b + {node} + node.below;
      forall i | 0 <= i < |more|
        ensures more[i] in all && more[i].attributeSet in all && more[i].below < all && more[i].kind != DocumentType
      {
        if i == |list| {
          assert more[i] == node && node in all;
        } else {
          assert more[i] == list[i] && list[i].below < b <= all;
        }
      }
    }

    lemma BelowApart(list: seq<XmlNode>, node: XmlNode, b: set<object>)
      requires OwnsIn(list, b) && node !in b && node !in node.below && node.below !! b
      ensures var more := list + [node];
              forall i, j | 0 <= i < |more| && 0 <= j < |more| :: more[i] !in more[j].below
    {
      hide Disjoint;
      var more := list + [node];
      forall i, j | 0 <= i < |more| && 0 <= j < |more|
        ensures more[i] !in more[j].below
      {
        assert i < |list| ==> more[i] == list[i] && more[i] in b;
        assert j < |list| ==> more[j] == list[j] && more[j].below < b;
      }
    }

    lemma DisjointMore(list: seq<XmlNode>, node: XmlNode, b: set<object>)
      requires AttributesIn(b) && OwnsIn(list, b) && node.below !! b
      ensures Disjoint(list + [node])
    {
    }

    lemma AttributesMore(b: set<object>, node: XmlNode)
      requires AttributesIn(b) && node != this && this !in node.below
      ensures AttributesIn(b + {node} + node.below)
    {
    }
  }

  ghost predicate NextLinked(list: seq<XmlNode>)
    reads list`next
  {
    forall i | 0 <= i < |list| :: list[i].next == Following(list, i)
  }

  ghost predicate PrevLinked(list: seq<XmlNode>)
    reads list`prev
  {
    forall i | 0 <= i < |list| :: list[i].prev == Previous(list, i)
  }

  /** The node where a splice goes on. */
  function Onwards(list: seq<XmlNode>, q: nat, mid: seq<XmlNode>): XmlNode? {
    if mid != [] then mid[0] else if q < |list| then list[q] else null
  }

  function Backwards(list: seq<XmlNode>, p: nat, mid: seq<XmlNode>): XmlNode?
    requires p <= |list|
  {
    if mid != [] then mid[0] else if p > 0 then list[p - 1] else null
  }

  lemma SplicedFirst(list: seq<XmlNode>, p: nat, q: nat, mid: seq<XmlNode>)
    requires p <= q <= |list|
    ensures var r := Spliced(list, p, q, mid);
            (if r == [] then null else r[0]) == if p > 0 then list[0] else Onwards(list, q, mid)
  {
  }

  lemma SplicedLast(list: seq<XmlNode>, p: nat, q: nat, mid: seq<XmlNode>)
    requires p <= q <= |list| && |mid| <= 1
    ensures var r := Spliced(list, p, q, mid);
            (if r == [] then null else r[|r| - 1]) ==
            if q < |list| then list[|list| - 1] else Backwards(list, p, mid)
  {
  }

  lemma SplicedAtEnd(list: seq<XmlNode>, n: XmlNode)
    ensures Spliced(list, |list|, |list|, [n]) == list + [n]
  {
  }

  ghost predicate NextChanged(list: seq<XmlNode>, p: nat, q: nat, mid: seq<XmlNode>)
    reads list`next, mid`next
  {
    p <= q <= |list|
    && (forall i | 0 <= i < |list| && (i < p - 1 || q <= i) :: list[i].next == Following(list, i))
    && (p > 0 ==> list[p - 1].next == Onwards(list, q, mid))
    && (mid != [] ==> mid[0].next == Onwards(list, q, []))
  }

  ghost predicate PrevChanged(list: seq<XmlNode>, p: nat, q: nat, mid: seq<XmlNode>)
    reads list`prev, mid`prev
  {
    p <= q <= |list|
    && (forall i | 0 <= i < |list| && (i < p || q < i) :: list[i].prev == Previous(list, i))
    && (q < |list| ==> list[q].prev == Backwards(list, p, mid))
    && (mid != [] ==> mid[0].prev == Backwards(list, p, []))
  }

  lemma NextChangedMeans(list: seq<XmlNode>, p: nat, q: nat, mid: seq<XmlNode>)
    requires NextChanged(list, p, q, mid)
    ensures p <= q <= |list|
    ensures forall i | 0 <= i < |list| && (i < p - 1 || q <= i) :: list[i].next == Following(list, i)
    ensures p > 0 ==> list[p - 1].next == if mid != [] then mid[0] else if q < |list| then list[q] else null
    ensures mid != [] ==> mid[0].next == if q < |list| then list[q] else null
  {
    hide Following;
  }

  lemma PrevChangedMeans(list: seq<XmlNode>, p: nat, q: nat, mid: seq<XmlNode>)
    requires PrevChanged(list, p, q, mid)
    ensures p <= q <= |list|
    ensures forall i | 0 <= i < |list| && (i < p || q < i) :: list[i].prev == Previous(list, i)
    ensures q < |list| ==> list[q].prev == if mid != [] then mid[0] else if p > 0 then list[p - 1] else null
    ensures mid != [] ==> mid[0].prev == if p > 0 then list[p - 1] else null
  {
    hide Previous;
  }

  /** A splice needs two changes of `next`: in the node before it, and in the new node. */
  lemma NextRelinked(list: seq<XmlNode>, p: nat, q: nat, mid: seq<XmlNode>)
    requires NoTwice(list) && p <= q <= |list| && |mid| <= 1 && NextChanged(list, p, q, mid)
    ensures NextLinked(Spliced(list, p, q, mid))
  {
    hide *;
    NextChangedMeans(list, p, q, mid);
    SplicedSize(list, p, q, mid);
    var r := Spliced(list, p, q, mid);
    forall i | 0 <= i < |r|
      ensures r[i].next == Following(r, i)
    {
      SplicedAt(list, p, q, mid, i);
      if i < p {
        SplicedLeft(list, p, q, mid, i);
      } else if i < p + |mid| {
        assert mid == [mid[0]];
        SplicedMiddle(list, p, q, mid[0]);
      } else {
        SplicedRight(list, p, q, mid, i - p - |mid| + q);
      }
    }
    NextLinkedIf(r);
  }

  lemma NextLinkedIf(list: seq<XmlNode>)
    requires forall i | 0 <= i < |list| :: list[i].next == Following(list, i)
    ensures NextLinked(list)
  {
    hide Following;
  }

  lemma PrevLinkedIf(list: seq<XmlNode>)
    requires forall i | 0 <= i < |list| :: list[i].prev == Previous(list, i)
    ensures PrevLinked(list)
  {
    hide Previous;
  }

  lemma PrevRelinked(list: seq<XmlNode>, p: nat, q: nat, mid: seq<XmlNode>)
    requires NoTwice(list) && p <= q <= |list| && |mid| <= 1 && PrevChanged(list, p, q, mid)
    ensures PrevLinked(Spliced(list, p, q, mid))
  {
    hide *;
    PrevChangedMeans(list, p, q, mid);
    SplicedSize(list, p, q, mid);
    var r := Spliced(list, p, q, mid);
    forall i | 0 <= i < |r|
      ensures r[i].prev == Previous(r, i)
    {
      SplicedAt(list, p, q, mid, i);
      if i < p {
        SplicedLeft(list, p, q, mid, i);
      } else if i < p + |mid| {
        assert mid == [mid[0]];
        SplicedMiddle(list, p, q, mid[0]);
      } else {
        SplicedRight(list, p, q, mid, i - p - |mid| + q);
      }
    }
    PrevLinkedIf(r);
  }

  /** Every linked tree is one that the printer can visit. */
  lemma {:induction false} TreeIsProper(n: XmlNode)
    requires n.Valid()
    ensures Proper(n.Tree())
    decreases n.below
  {
    n.TreeIs();
    n.ChildAt(0);
    forall i | 0 <= i < |n.kids|
      ensures n.kids[i].kind != DocumentType && Proper(n.kids[i])
    {
      n.ChildAt(i);
      n.children[i].TreeIs();
      TreeIsProper(n.children[i]);
    }
    hide n.Valid;
  }
}
