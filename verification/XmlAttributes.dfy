/** `TiXmlAttributeSet`: an element's attributes in a doubly linked ring around a sentinel
    that has neither a name nor a value. */
module XmlAttributes {
  import opened Basics
  import opened XmlText
  import opened XmlTextProofs
  import opened XmlParser

  class AttributeNode {
    var name: string
    var value: string
    var prev: AttributeNode?
    var next: AttributeNode?

    constructor ()
      ensures name == "" && value == "" && prev == null && next == null
    {
      name, value, prev, next := "", "", null, null;
    }
  }

  // ------------------------------------------------------- attributes in their order

  /** Where an attribute of this name is, or the length. Names are compared, and names and
      values set, as C strings: what stands behind a NUL does not matter, and gets lost. */
  function Index(c: seq<Attribute>, name: string): (i: nat)
    ensures i <= |c| && (i < |c| ==> CStr(c[i].name) == CStr(name))
    ensures forall j | 0 <= j < i :: CStr(c[j].name) != CStr(name)
  {
    if c == [] || CStr(c[0].name) == CStr(name) then 0 else 1 + Index(c[1..], name)
  }

  lemma IndexIs(c: seq<Attribute>, name: string, i: nat)
    requires i <= |c| && (i < |c| ==> CStr(c[i].name) == CStr(name))
    requires forall j | 0 <= j < i :: CStr(c[j].name) != CStr(name)
    ensures Index(c, name) == i
  {
  }

  /** Setting an attribute: in its place if there is one of that name, else at the end. */
  function Put(c: seq<Attribute>, name: string, value: string): seq<Attribute> {
    var i := Index(c, name);
    if i < |c| then c[i := Attribute(c[i].name, CStr(value))] else c + [Attribute(CStr(name), CStr(value))]
  }

  lemma PutIs(c: seq<Attribute>, name: string, value: string)
    ensures var i := Index(c, name);
            Put(c, name, value) ==
            if i < |c| then c[i := Attribute(c[i].name, CStr(value))]
            else (c + [Attribute(CStr(name), "")])[i := Attribute(CStr(name), CStr(value))]
  {
  }

  /** The value of the first attribute of this name. */
  function Value(c: seq<Attribute>, name: string): Option<string> {
    if c == [] then None else if CStr(c[0].name) == CStr(name) then Some(c[0].value) else Value(c[1..], name)
  }

  lemma {:induction false} ValueIs(c: seq<Attribute>, name: string)
    ensures Value(c, name) == var i := Index(c, name); if i < |c| then Some(c[i].value) else None
  {
    hide CStr;
    if c != [] && CStr(c[0].name) != CStr(name) {
      ValueIs(c[1..], name);
    }
  }

  /** After setting an attribute it has that value and every other name has the value it had;
      what was there keeps its name, its place and, but for that name, its value. */
  lemma PutSets(c: seq<Attribute>, name: string, value: string, other: string)
    ensures Value(Put(c, name, value), other) ==
            if CStr(other) == CStr(name) then Some(CStr(value)) else Value(c, other)
    ensures |Put(c, name, value)| == |c| + if Value(c, name).None? then 1 else 0
    ensures forall i | 0 <= i < |c| ::
              && Put(c, name, value)[i].name == c[i].name
              && (CStr(c[i].name) != CStr(name) ==> Put(c, name, value)[i] == c[i])
  {
    var d := Put(c, name, value);
    ValueIs(c, name);
    ValueIs(c, other);
    ValueIs(d, other);
    CStrCut(name);
    hide CStr;
    IndexIs(d, other, if CStr(other) == CStr(name) then Index(c, name) else
                      if Index(c, other) < |c| then Index(c, other) else |d|);
  }

  ghost predicate Unique(c: seq<Attribute>) {
    forall i, j | 0 <= i < j < |c| :: CStr(c[i].name) != CStr(c[j].name)
  }

  /** No name and no value holds a NUL. */
  ghost predicate NulFree(c: seq<Attribute>) {
    forall i | 0 <= i < |c| :: NoNul(c[i].name) && NoNul(c[i].value)
  }

  lemma PutKeepsUnique(c: seq<Attribute>, name: string, value: string)
    requires Unique(c)
    ensures Unique(Put(c, name, value))
  {
    CStrCut(name);
    hide CStr;
  }

  lemma PutKeepsNulFree(c: seq<Attribute>, name: string, value: string)
    requires NulFree(c)
    ensures NulFree(Put(c, name, value)) && |Put(c, name, value)| <= |c| + 1
  {
    CStrCut(name);
    CStrCut(value);
    hide CStr, NoNul;
  }

  predicate Nameless(a: Attribute) {
    a.name == "" && a.value == ""
  }

  /** The attributes before the first that looks like the sentinel. */
  function BeforeNameless(c: seq<Attribute>): (r: seq<Attribute>)
    ensures r <= c
  {
    if c == [] || Nameless(c[0]) then [] else [c[0]] + BeforeNameless(c[1..])
  }

  /** The attributes that `First` and `Next` visit: `Next` takes an attribute without name
      and value for the sentinel. */
  function Visited(c: seq<Attribute>): (r: seq<Attribute>)
    ensures r <= c
  {
    if c == [] then [] else [c[0]] + BeforeNameless(c[1..])
  }

  lemma {:induction false} NoneNameless(c: seq<Attribute>)
    ensures BeforeNameless(c) == c <==> forall i | 0 <= i < |c| :: !Nameless(c[i])
  {
    if c != [] && !Nameless(c[0]) {
      NoneNameless(c[1..]);
      assert forall i | 1 <= i < |c| :: c[i] == c[1..][i - 1];
    }
  }

  /** Every attribute is visited exactly if none but the first is without name and value. */
  lemma VisitsAll(c: seq<Attribute>)
    ensures Visited(c) == c <==> forall i | 1 <= i < |c| :: !Nameless(c[i])
  {
    if c != [] {
      NoneNameless(c[1..]);
      assert forall i | 1 <= i < |c| :: c[i] == c[1..][i - 1];
    }
  }

  function PutAll(c: seq<Attribute>, more: seq<Attribute>): seq<Attribute>
    decreases |more|
  {
    if more == [] then c else PutAll(Put(c, more[0].name, more[0].value), more[1..])
  }

  /** Whatever is set in a set of different names, cut strings and different names come out. */
  lemma {:induction false} PutAllKeeps(c: seq<Attribute>, more: seq<Attribute>)
    requires Unique(c) && NulFree(c)
    ensures Unique(PutAll(c, more)) && NulFree(PutAll(c, more)) && |PutAll(c, more)| <= |c| + |more|
    decreases |more|
  {
    hide Put, Unique, NulFree;
    if more != [] {
      PutKeepsUnique(c, more[0].name, more[0].value);
      PutKeepsNulFree(c, more[0].name, more[0].value);
      PutAllKeeps(Put(c, more[0].name, more[0].value), more[1..]);
    }
  }

  /** Setting attributes of different names without NUL keeps them and their order. */
  lemma {:induction false} PutAllAppends(c: seq<Attribute>, more: seq<Attribute>)
    requires Unique(c + more) && NulFree(more)
    ensures PutAll(c, more) == c + more
    decreases |more|
  {
    if more != [] {
      var a := more[0];
      CStrCut(a.name);
      CStrCut(a.value);
      hide CStr, NoNul;
      forall i | 0 <= i < |c|
        ensures CStr(c[i].name) != CStr(a.name)
      {
        assert CStr((c + more)[i].name) != CStr((c + more)[|c|].name);
      }
      IndexIs(c, a.name, |c|);
      assert c + more == c + [a] + more[1..];
      PutAllAppends(c + [a], more[1..]);
    }
  }

  /** Setting attributes in an empty set keeps them exactly if their names are different and
      neither names nor values hold a NUL. */
  lemma SetAttributes(c: seq<Attribute>)
    ensures PutAll([], c) == c <==> Unique(c) && NulFree(c)
  {
    PutAllKeeps([], c);
    if Unique(c) && NulFree(c) {
      assert [] + c == c;
      PutAllAppends([], c);
    }
  }

  /** Copying keeps all attributes exactly if, besides, none but the first is without name
      and value. */
  lemma CopiedAttributes(c: seq<Attribute>)
    ensures PutAll([], Visited(c)) == c <==>
            Unique(c) && NulFree(c) && forall i | 1 <= i < |c| :: !Nameless(c[i])
  {
    PutAllKeeps([], Visited(c));
    VisitsAll(c);
    SetAttributes(c);
    hide Unique, NulFree, Nameless, PutAll;
  }

  // ------------------------------------------------------------------------- the ring

  /** The neighbours in the ring. */
  function Succ(sentinel: AttributeNode, ring: seq<AttributeNode>, i: nat): AttributeNode
    requires i < |ring|
  {
    if i + 1 < |ring| then ring[i + 1] else sentinel
  }

  function Pred(sentinel: AttributeNode, ring: seq<AttributeNode>, i: nat): AttributeNode
    requires i < |ring|
  {
    if i > 0 then ring[i - 1] else sentinel
  }

  /** No node twice, and not the sentinel. */
  ghost predicate Distinct(sentinel: AttributeNode, ring: seq<AttributeNode>) {
    sentinel !in ring && forall i, j | 0 <= i < j < |ring| :: ring[i] != ring[j]
  }

  lemma AppendedDistinct(sentinel: AttributeNode, ring: seq<AttributeNode>, a: AttributeNode)
    requires Distinct(sentinel, ring) && a !in ring && a != sentinel
    ensures Distinct(sentinel, ring + [a])
  {
  }

  /** In a ring with `a` appended only the old last node and `a` itself have new neighbours. */
  lemma AppendedNeighbours(sentinel: AttributeNode, ring: seq<AttributeNode>, a: AttributeNode, i: nat)
    requires Distinct(sentinel, ring) && a !in ring && a != sentinel && i <= |ring|
    ensures i == |ring| ==> (ring + [a])[i] == a && Succ(sentinel, ring + [a], i) == sentinel
                            && Pred(sentinel, ring + [a], i) == if ring == [] then sentinel else ring[|ring| - 1]
    ensures i < |ring| ==> (ring + [a])[i] == ring[i] != a && ring[i] != sentinel
                           && Pred(sentinel, ring + [a], i) == Pred(sentinel, ring, i)
    ensures i < |ring| ==> Succ(sentinel, ring + [a], i) == if i == |ring| - 1 then a else Succ(sentinel, ring, i)
    ensures i < |ring| - 1 ==> ring[i] != ring[|ring| - 1]
  {
  }

  /** In a ring without its node `k` only the neighbours of `k` have new neighbours. */
  lemma RemovedNeighbours(sentinel: AttributeNode, ring: seq<AttributeNode>, k: nat, i: nat)
    requires Distinct(sentinel, ring) && k < |ring| && i < |ring| - 1
    ensures var r, j := ring[..k] + ring[k + 1..], if i < k then i else i + 1;
            && r[i] == ring[j] && ring[j] != ring[k] && ring[j] != sentinel
            && Succ(sentinel, r, i) == (if i == k - 1 then Succ(sentinel, ring, k) else Succ(sentinel, ring, j))
            && Pred(sentinel, r, i) == (if i == k then Pred(sentinel, ring, k) else Pred(sentinel, ring, j))
            && (ring[j] == Pred(sentinel, ring, k) <==> i == k - 1)
            && (ring[j] == Succ(sentinel, ring, k) <==> i == k)
  {
  }

  /** Which nodes are neighbours of the node `k`. */
  lemma NeighboursOf(sentinel: AttributeNode, ring: seq<AttributeNode>, k: nat)
    requires Distinct(sentinel, ring) && k < |ring|
    ensures var p, n := Pred(sentinel, ring, k), Succ(sentinel, ring, k);
            && p == (if k == 0 then sentinel else ring[k - 1])
            && n == (if k == |ring| - 1 then sentinel else ring[k + 1])
            && ring[k] != p && ring[k] != n && (p == sentinel <==> k == 0) && (n == sentinel <==> k == |ring| - 1)
            && forall i | 0 <= i < |ring| :: (ring[i] == p <==> i == k - 1) && (ring[i] == n <==> i == k + 1)
                                             && (ring[i] == ring[k] <==> i == k)
  {
  }

  lemma RemovedDistinct(sentinel: AttributeNode, ring: seq<AttributeNode>, k: nat)
    requires Distinct(sentinel, ring) && k < |ring|
    ensures var r := ring[..k] + ring[k + 1..]; Distinct(sentinel, r) && ring[k] !in r
  {
    var r := ring[..k] + ring[k + 1..];
    forall i | 0 <= i < |r|
      ensures r[i] != ring[k] && r[i] != sentinel
    {
      RemovedNeighbours(sentinel, ring, k, i);
    }
    assert forall i, j | 0 <= i < j < |r| ::
        r[i] == ring[if i < k then i else i + 1] && r[j] == ring[if j < k then j else j + 1];
  }

  class AttributeSet {
    const sentinel: AttributeNode
    ghost var ring: seq<AttributeNode>
    ghost var contents: seq<Attribute>
    ghost var repr: set<AttributeNode>

    ghost predicate Covered()
      reads `ring, `repr
    {
      sentinel in repr && forall i | 0 <= i < |ring| :: ring[i] in repr
    }

    ghost predicate Linked()
      reads `ring, sentinel`next, sentinel`prev, ring`next, ring`prev
    {
      && sentinel.next == (if ring == [] then sentinel else ring[0])
      && sentinel.prev == (if ring == [] then sentinel else ring[|ring| - 1])
      && (forall i | 0 <= i < |ring| :: ring[i].next == Succ(sentinel, ring, i))
      && (forall i | 0 <= i < |ring| :: ring[i].prev == Pred(sentinel, ring, i))
    }

    ghost predicate Holds()
      reads `ring, `contents, sentinel`name, sentinel`value, ring`name, ring`value
    {
      && sentinel.name == "" && sentinel.value == ""
      && |contents| == |ring|
      && forall i | 0 <= i < |ring| :: ring[i].name == contents[i].name && ring[i].value == contents[i].value
    }

    /** Walking the ring either way from the sentinel meets the nodes of `ring`, each once,
        and they hold the attributes of `contents`. */
    ghost predicate Valid()
      reads this, repr
    {
      Covered() && Distinct(sentinel, ring) && Linked() && Holds()
    }

    constructor ()
      ensures Valid() && contents == [] && fresh(repr)
    {
      var s := new AttributeNode();
      sentinel, ring, contents, repr := s, [], [], {s};
      new;
      sentinel.next := sentinel;
      sentinel.prev := sentinel;
    }

    method First() returns (a: AttributeNode?)
      requires Valid()
      ensures a == if ring == [] then null else ring[0]
    {
      a := if sentinel.next == sentinel then null else sentinel.next;
    }

    /** `TiXmlAttribute::Next` of the attribute at `i`. */
    method Next(a: AttributeNode, ghost i: nat) returns (n: AttributeNode?)
      requires Valid() && i < |ring| && a == ring[i]
      ensures n == if i + 1 < |ring| && !Nameless(contents[i + 1]) then ring[i + 1] else null
    {
      assert a.next == Succ(sentinel, ring, i);
      if a.next.value == "" && a.next.name == "" {
        return null;
      }
      return a.next;
    }

    method Link(addMe: AttributeNode)
      requires Distinct(sentinel, ring) && Linked() && addMe !in ring && addMe != sentinel
      modifies `ring, sentinel`next, sentinel`prev, ring`next, ring`prev, addMe`next, addMe`prev
      ensures Distinct(sentinel, ring) && Linked() && ring == old(ring) + [addMe]
    {
      ghost var was := ring;
      AppendedDistinct(sentinel, was, addMe);
      addMe.next := sentinel;
      addMe.prev := sentinel.prev;
      sentinel.prev.next := addMe;
      sentinel.prev := addMe;
      ring := was + [addMe];
      forall i | 0 <= i < |ring|
        ensures ring[i].next == Succ(sentinel, ring, i) && ring[i].prev == Pred(sentinel, ring, i)
      {
        AppendedNeighbours(sentinel, was, addMe, i);
        hide Distinct, Succ, Pred;
      }
      hide Distinct, Succ, Pred;
    }

    method Add(addMe: AttributeNode)
      requires Valid() && addMe !in ring && addMe != sentinel
      modifies `ring, `contents, `repr, sentinel`next, sentinel`prev, ring`next, ring`prev, addMe`next, addMe`prev
      ensures Valid() && ring == old(ring) + [addMe] && repr == old(repr) + {addMe}
      ensures contents == old(contents) + [Attribute(addMe.name, addMe.value)]
    {
      hide Distinct, Linked;
      Link(addMe);
      repr := repr + {addMe};
      contents := contents + [Attribute(addMe.name, addMe.value)];
    }

    /** The first attribute of this name. */
    method Find(name: string) returns (a: AttributeNode?, ghost i: nat)
      requires Valid()
      ensures i == Index(contents, name)
      ensures a == if Index(contents, name) < |ring| then ring[Index(contents, name)] else null
    {
      var node := sentinel.next;
      i := 0;
      while node != sentinel
        invariant 0 <= i <= |ring| && node == if i < |ring| then ring[i] else sentinel
        invariant forall j | 0 <= j < i :: CStr(contents[j].name) != CStr(name)
        decreases |ring| - i
      {
        if CStr(node.name) == CStr(name) {
          IndexIs(contents, name, i);
          return node, i;
        }
        assert node.next == Succ(sentinel, ring, i);
        node, i := node.next, i + 1;
      }
      IndexIs(contents, name, i);
      a := null;
    }

    method SetName(a: AttributeNode, name: string, ghost i: nat)
      requires Valid() && i < |ring| && ring[i] == a
      modifies `contents, a`name
      ensures Valid() && contents == old(contents)[i := Attribute(CStr(name), old(contents)[i].value)]
    {
      hide Linked, CStr;
      a.name := CStr(name);
      contents := contents[i := Attribute(a.name, contents[i].value)];
    }

    method SetValue(a: AttributeNode, value: string, ghost i: nat)
      requires Valid() && i < |ring| && ring[i] == a
      modifies `contents, a`value
      ensures Valid() && contents == old(contents)[i := Attribute(old(contents)[i].name, CStr(value))]
    {
      hide Linked, CStr;
      a.value := CStr(value);
      contents := contents[i := Attribute(contents[i].name, a.value)];
    }

    /** A new attribute of this name at the end of the ring. */
    method Create(name: string) returns (attrib: AttributeNode)
      requires Valid()
      modifies this, repr
      ensures Valid() && ring == old(ring) + [attrib] && fresh(attrib) && repr == old(repr) + {attrib}
      ensures contents == old(contents) + [Attribute(CStr(name), "")]
    {
      hide *;
      Entries();
      attrib := new AttributeNode();
      ghost var n := |ring|;
      Add(attrib);
      SetName(attrib, name, n);
    }

    /** The attribute of this name, appended without a value if there is none. */
    method FindOrCreate(name: string) returns (attrib: AttributeNode, ghost i: nat)
      requires Valid()
      modifies this, repr
      ensures Valid() && i < |ring| && attrib == ring[i] && i == Index(old(contents), name) && fresh(repr - old(repr))
      ensures if i < |old(contents)| then ring == old(ring) && contents == old(contents)
              else
                ring == old(ring) + [attrib] && fresh(attrib)
                && contents == old(contents) + [Attribute(CStr(name), "")]
    {
      hide *;
      Entries();
      var found;
      found, i := Find(name);
      if found == null {
        attrib := Create(name);
      } else {
        attrib := found;
      }
    }

    /** `TiXmlElement::SetAttribute`. */
    method SetAttribute(name: string, value: string)
      requires Valid()
      modifies this, repr
      ensures Valid() && contents == Put(old(contents), name, value) && fresh(repr - old(repr))
      ensures Unique(old(contents)) && NulFree(old(contents)) ==> Unique(contents) && NulFree(contents)
    {
      hide *;
      ghost var was := contents;
      var attrib, i := FindOrCreate(name);
      Entries();
      SetValue(attrib, value, i);
      PutIs(was, name, value);
      if Unique(was) && NulFree(was) {
        PutKeepsUnique(was, name, value);
        PutKeepsNulFree(was, name, value);
      }
    }

    method BridgeNext(node: AttributeNode, ghost k: nat)
      requires Distinct(sentinel, ring) && Linked() && k < |ring| && ring[k] == node
      modifies sentinel`next, ring`next
      ensures sentinel.next == if k == 0 then Succ(sentinel, ring, k) else ring[0]
      ensures forall i | 0 <= i < |ring| :: ring[i].next == Succ(sentinel, ring, if i == k - 1 then k else i)
    {
      NeighboursOf(sentinel, ring, k);
      hide Distinct, Succ, Pred;
      assert node.next == Succ(sentinel, ring, k) && node.prev == Pred(sentinel, ring, k);
      node.prev.next := node.next;
    }

    method BridgePrev(node: AttributeNode, ghost k: nat)
      requires Distinct(sentinel, ring) && k < |ring| && ring[k] == node && node.next == Succ(sentinel, ring, k)
      requires sentinel.prev == ring[|ring| - 1]
               && forall i | 0 <= i < |ring| :: ring[i].prev == Pred(sentinel, ring, i)
      modifies sentinel`prev, ring`prev
      ensures sentinel.prev == if k == |ring| - 1 then Pred(sentinel, ring, k) else ring[|ring| - 1]
      ensures forall i | 0 <= i < |ring| :: ring[i].prev == Pred(sentinel, ring, if i == k + 1 then k else i)
    {
      NeighboursOf(sentinel, ring, k);
      hide Distinct, Succ, Pred;
      node.next.prev := node.prev;
    }

    lemma Relinked(was: seq<AttributeNode>, k: nat)
      requires Distinct(sentinel, was) && k < |was| && ring == was[..k] + was[k + 1..]
      requires sentinel.next == if k == 0 then Succ(sentinel, was, k) else was[0]
      requires sentinel.prev == if k == |was| - 1 then Pred(sentinel, was, k) else was[|was| - 1]
      requires forall i | 0 <= i < |was| && i != k :: was[i].next == Succ(sentinel, was, if i == k - 1 then k else i)
      requires forall i | 0 <= i < |was| && i != k :: was[i].prev == Pred(sentinel, was, if i == k + 1 then k else i)
      ensures Linked()
    {
      forall i | 0 <= i < |ring|
        ensures ring[i].next == Succ(sentinel, ring, i) && ring[i].prev == Pred(sentinel, ring, i)
      {
        RemovedNeighbours(sentinel, was, k, i);
        hide Distinct, Succ, Pred;
      }
    }

    lemma LinkedMeans(k: nat)
      requires Distinct(sentinel, ring) && Linked() && k < |ring|
      ensures sentinel.prev == ring[|ring| - 1] && forall i | 0 <= i < |ring| :: ring[i].prev == Pred(sentinel, ring, i)
      ensures ring[k] != sentinel && forall i | 0 <= i < |ring| && i != k :: ring[i] != ring[k]
    {
    }

    method Unlink(node: AttributeNode, ghost k: nat)
      requires Distinct(sentinel, ring) && Linked() && k < |ring| && ring[k] == node
      modifies `ring, sentinel`next, sentinel`prev, ring`next, ring`prev
      ensures Distinct(sentinel, ring) && Linked() && ring == old(ring[..k] + ring[k + 1..])
      ensures node !in ring && node.next == null && node.prev == null
    {
      hide *;
      ghost var was := ring;
      RemovedDistinct(sentinel, was, k);
      LinkedMeans(k);
      BridgeNext(node, k);
      BridgePrev(node, k);
      node.next := null;
      node.prev := null;
      ring := was[..k] + was[k + 1..];
      Relinked(was, k);
    }

    method RemoveAt(node: AttributeNode, ghost k: nat)
      requires Valid() && k < |ring| && ring[k] == node
      modifies this, repr
      ensures Valid() && node !in ring && node.next == null && node.prev == null && repr == old(repr)
      ensures ring == old(ring[..k] + ring[k + 1..]) && contents == old(contents[..k] + contents[k + 1..])
    {
      hide Linked, Distinct;
      Unlink(node, k);
      contents := contents[..k] + contents[k + 1..];
    }

    /** The search for a node; it ends at the sentinel if the node is not in the ring. */
    method Walk(removeMe: AttributeNode, ghost k: nat) returns (node: AttributeNode)
      requires Valid() && k <= |ring| && (if k < |ring| then ring[k] == removeMe else removeMe !in ring)
      ensures node == if k < |ring| then ring[k] else sentinel
    {
      hide Holds;
      node := sentinel.next;
      ghost var i := 0;
      while node != sentinel
        invariant 0 <= i <= k && node == if i < |ring| then ring[i] else sentinel
        decreases |ring| - i
      {
        if node == removeMe {
          return;
        }
        assert node.next == Succ(sentinel, ring, i);
        node, i := node.next, i + 1;
      }
    }

    /** Takes an attribute out of the ring, and does nothing if it is not in it. */
    method Remove(removeMe: AttributeNode, ghost k: nat)
      requires Valid() && k <= |ring| && (if k < |ring| then ring[k] == removeMe else removeMe !in ring)
      modifies this, repr
      ensures Valid() && removeMe !in ring && repr == old(repr)
      ensures if k < |old(ring)| then
                ring == old(ring[..k] + ring[k + 1..]) && contents == old(contents[..k] + contents[k + 1..])
                && removeMe.next == null && removeMe.prev == null
              else ring == old(ring) && contents == old(contents)
    {
      assert |ring| == |contents| && sentinel !in ring;
      hide Linked, Holds, Distinct, CStr;
      var node := Walk(removeMe, k);
      if node != sentinel {
        RemoveAt(node, k);
      }
    }

    lemma Entries()
      requires Valid()
      ensures |ring| == |contents| && sentinel in repr && sentinel !in ring && forall n | n in ring :: n in repr
      ensures forall i | 0 <= i < |ring| :: ring[i].name == contents[i].name && ring[i].value == contents[i].value
    {
    }

    /** The copying of attributes in `TiXmlElement::CopyTo`. */
    method CopyTo(target: AttributeSet)
      requires Valid() && target.Valid() && target != this && target.repr !! repr
      modifies target, target.repr
      ensures Valid() && target.Valid() && target.contents == PutAll(old(target.contents), Visited(contents))
      ensures fresh(target.repr - old(target.repr))
    {
      hide *;
      Entries();
      var attribute := First();
      ghost var i := 0;
      ghost var whole := PutAll(target.contents, Visited(contents));
      VisitFirst(contents);
      while attribute != null
        invariant attribute != null ==> i < |ring| && attribute == ring[i]
        invariant Valid() && target.Valid() && fresh(target.repr - old(target.repr))
        invariant whole == PutAll(target.contents, if attribute == null then [] else ToVisit(contents, i))
        decreases attribute != null, |ring| - i
      {
        PutFirst(target.contents, ToVisit(contents, i));
        VisitNext(contents, i);
        Entries();
        target.SetAttribute(attribute.name, attribute.value);
        attribute := Next(attribute, i);
        i := i + 1;
      }
      PutFirst(target.contents, []);
    }
  }

  /** The attributes that are visited from `i` on. */
  function ToVisit(c: seq<Attribute>, i: nat): seq<Attribute>
    requires i < |c|
  {
    [c[i]] + BeforeNameless(c[i + 1..])
  }

  lemma VisitFirst(c: seq<Attribute>)
    ensures Visited(c) == if c == [] then [] else ToVisit(c, 0)
  {
  }

  lemma VisitNext(c: seq<Attribute>, i: nat)
    requires i < |c|
    ensures ToVisit(c, i) != [] && ToVisit(c, i)[0] == c[i]
    ensures ToVisit(c, i)[1..] == if i + 1 < |c| && !Nameless(c[i + 1]) then ToVisit(c, i + 1) else []
  {
    var rest := c[i + 1..];
    assert ToVisit(c, i)[1..] == BeforeNameless(rest);
    if i + 1 < |c| {
      assert rest[0] == c[i + 1] && rest[1..] == c[i + 2..];
    }
  }

  lemma PutFirst(c: seq<Attribute>, more: seq<Attribute>)
    ensures PutAll(c, more) == if more == [] then c else PutAll(Put(c, more[0].name, more[0].value), more[1..])
  {
  }
}
