/** The element arena: records addressed by index, linked by first-child and next-sibling
    handles, with the synthetic root at index 0. */
module Dom {
  import opened XmlTypes

  /** One element record. A record with an empty name is a text node (character data of an
      element with mixed content); the root at index 0 has no name either. `parent` is the
      index of the element whose children list holds this record. */
  datatype Node = Node(
    name: Span,
    text: Span,
    attrStart: nat,
    attrCount: nat,
    firstChild: Option<nat>,
    next: Option<nat>,
    parent: nat)
  {
    predicate IsTagged() { name.length > 0 }
  }

  /** The records of one parsed document: the element arena and the attribute arena. The
      attributes of an element are attrs[attrStart .. attrStart + attrCount]. */
  datatype Dom = Dom(nodes: seq<Node>, attrs: seq<XmlAttribute>)

  const ROOT: nat := 0
  const ROOT_NODE: Node := Node(NO_SPAN, NO_SPAN, 0, 0, None, None, ROOT)

  /** The first-child handle of p names its earliest child, or is absent when p has none. */
  ghost predicate FirstChildOk(nodes: seq<Node>, p: nat)
    requires p < |nodes|
  {
    match nodes[p].firstChild
    case None => forall k :: 1 <= k < |nodes| ==> nodes[k].parent != p
    case Some(c) =>
      1 <= c < |nodes| && nodes[c].parent == p && forall k :: 1 <= k < c ==> nodes[k].parent != p
  }

  /** The next handle of i names the following child of the same parent, or is absent when
      i is the last one. */
  ghost predicate NextOk(nodes: seq<Node>, i: nat)
    requires 1 <= i < |nodes|
  {
    match nodes[i].next
    case None => forall k :: i < k < |nodes| ==> nodes[k].parent != nodes[i].parent
    case Some(j) =>
      i < j < |nodes| && nodes[j].parent == nodes[i].parent &&
      forall k :: i < k < j ==> nodes[k].parent != nodes[i].parent
  }

  /** The links of the arena: following firstChild and then next from an element visits
      exactly its children, in increasing arena order. */
  ghost predicate Links(nodes: seq<Node>) {
    && |nodes| >= 1
    && nodes[ROOT].next == None
    && (forall i :: 1 <= i < |nodes| ==> nodes[i].parent < i)
    && (forall p :: 0 <= p < |nodes| ==> FirstChildOk(nodes, p))
    && (forall i :: 1 <= i < |nodes| ==> NextOk(nodes, i))
  }

  /** `last` is the last child of p so far (absent when p has no child yet). */
  ghost predicate LastOk(nodes: seq<Node>, p: nat, last: Option<nat>) {
    match last
    case None => forall k :: 1 <= k < |nodes| ==> nodes[k].parent != p
    case Some(l) => 1 <= l < |nodes| && nodes[l].parent == p && nodes[l].next == None
  }

  /** Appends n to the arena as the new last child of p, whose current last child is `last`. */
  function AppendChild(nodes: seq<Node>, p: nat, last: Option<nat>, n: Node): (r: seq<Node>)
    requires p < |nodes|
    requires last.Some? ==> last.value < |nodes|
    ensures |r| == |nodes| + 1 && r[|nodes|] == n
    ensures forall i :: 0 <= i < |nodes| ==>
      r[i].name == nodes[i].name && r[i].text == nodes[i].text &&
      r[i].attrStart == nodes[i].attrStart && r[i].attrCount == nodes[i].attrCount &&
      r[i].parent == nodes[i].parent
  {
    var k := |nodes|;
    var linked :=
      if last.None? then nodes[p := nodes[p].(firstChild := Some(k))]
      else nodes[last.value := nodes[last.value].(next := Some(k))];
    linked + [n]
  }

  /** Appending keeps the links, and the new record becomes p's last child. */
  lemma AppendChildLinks(nodes: seq<Node>, p: nat, last: Option<nat>, n: Node)
    requires Links(nodes) && p < |nodes| && LastOk(nodes, p, last)
    requires n.parent == p && n.firstChild == None && n.next == None
    ensures Links(AppendChild(nodes, p, last, n))
    ensures LastOk(AppendChild(nodes, p, last, n), p, Some(|nodes|))
  {
    var r := AppendChild(nodes, p, last, n);
    var k := |nodes|;
    assert r[ROOT].next == None;
    forall q | 0 <= q < |r|
      ensures FirstChildOk(r, q)
    {
      if q == k {
      } else if q == p && last.None? {
        assert r[p].firstChild == Some(k);
      } else if q == p {
        assert FirstChildOk(nodes, p);
        assert r[p].firstChild == nodes[p].firstChild;
      } else {
        assert FirstChildOk(nodes, q);
        assert r[q].firstChild == nodes[q].firstChild;
      }
    }
    forall i | 1 <= i < |r|
      ensures NextOk(r, i)
    {
      if i == k {
      } else if last == Some(i) {
        assert NextOk(nodes, i);
        assert r[i].next == Some(k);
      } else {
        assert NextOk(nodes, i);
        assert r[i].next == nodes[i].next;
        if last.Some? {
          assert NextOk(nodes, last.value);
        }
        if nodes[i].next.None? && nodes[i].parent == p {
          assert false;
        }
      }
    }
  }

  /** Appending a child of p keeps what every other element q knows about its last child. */
  lemma AppendChildKeepsLast(nodes: seq<Node>, p: nat, last: Option<nat>, n: Node, q: nat, lq: Option<nat>)
    requires Links(nodes) && p < |nodes| && LastOk(nodes, p, last)
    requires n.parent == p && q != p && LastOk(nodes, q, lq)
    ensures LastOk(AppendChild(nodes, p, last, n), q, lq)
  {
    var r := AppendChild(nodes, p, last, n);
    match lq
    case None =>
      assert forall k :: 1 <= k < |r| ==> r[k].parent != q by {
        forall k | 1 <= k < |r| ensures r[k].parent != q {
          if k < |nodes| { assert r[k].parent == nodes[k].parent; }
        }
      }
    case Some(l) =>
      assert last.Some? ==> last.value != l;
      assert r[l] == nodes[l] || (last.None? && l == p);
  }

  /** An element that had a child, and the parent appended to, have a first child after it. */
  lemma AppendChildFirst(nodes: seq<Node>, p: nat, last: Option<nat>, n: Node, q: nat)
    requires Links(nodes) && p < |nodes| && LastOk(nodes, p, last) && q < |nodes|
    ensures var r := AppendChild(nodes, p, last, n);
      (nodes[q].firstChild.Some? || q == p) ==> r[q].firstChild.Some?
  {
    if last.Some? {
      assert FirstChildOk(nodes, p);
    }
  }

  /** Two arenas with the same links fields. */
  ghost predicate SameShape(a: seq<Node>, b: seq<Node>) {
    && |a| == |b|
    && forall i :: 0 <= i < |a| ==>
         a[i].parent == b[i].parent && a[i].firstChild == b[i].firstChild && a[i].next == b[i].next
  }

  /** Changing the name, text or attribute fields of records leaves the links intact. */
  lemma SameShapeLinks(a: seq<Node>, b: seq<Node>)
    requires Links(a) && SameShape(a, b)
    ensures Links(b)
  {
    forall p | 0 <= p < |b| ensures FirstChildOk(b, p) {
      assert FirstChildOk(a, p);
    }
    forall i | 1 <= i < |b| ensures NextOk(b, i) {
      assert NextOk(a, i);
    }
  }

  lemma SameShapeLast(a: seq<Node>, b: seq<Node>, p: nat, last: Option<nat>)
    requires SameShape(a, b) && LastOk(a, p, last)
    ensures LastOk(b, p, last)
  {
  }

  /** The records reached from c by following next handles. */
  ghost function Siblings(nodes: seq<Node>, c: Option<nat>): seq<nat>
    requires Links(nodes)
    requires c.Some? ==> 1 <= c.value < |nodes|
    decreases if c.Some? then |nodes| - c.value else 0
  {
    match c
    case None => []
    case Some(i) =>
      assert NextOk(nodes, i);
      [i] + Siblings(nodes, nodes[i].next)
  }

  /** The records a caller visits from p's first-child handle along the next handles. */
  ghost function Children(nodes: seq<Node>, p: nat): seq<nat>
    requires Links(nodes) && p < |nodes|
  {
    assert FirstChildOk(nodes, p);
    Siblings(nodes, nodes[p].firstChild)
  }

  ghost predicate Increasing(s: seq<nat>) {
    forall a, b :: 0 <= a < b < |s| ==> s[a] < s[b]
  }

  /** From a child i of p, the next handles visit exactly the later children of p, in order. */
  lemma {:induction false} SiblingsExact(nodes: seq<Node>, i: nat)
    requires Links(nodes) && 1 <= i < |nodes|
    ensures var s := Siblings(nodes, Some(i));
      Increasing(s) && |s| >= 1 && s[0] == i &&
      forall k :: k in s <==> i <= k < |nodes| && nodes[k].parent == nodes[i].parent
    decreases |nodes| - i
  {
    assert NextOk(nodes, i);
    var s := Siblings(nodes, Some(i));
    match nodes[i].next
    case None =>
      assert Siblings(nodes, None) == [];
      assert s == [i];
    case Some(j) =>
      SiblingsExact(nodes, j);
      var t := Siblings(nodes, Some(j));
      assert s == [i] + t;
      forall a, b | 0 <= a < b < |s| ensures s[a] < s[b] {
        if a == 0 {
          assert s[b] in t;
        } else {
          assert s[a] == t[a - 1] && s[b] == t[b - 1];
        }
      }
  }

  /** Following the links from p visits exactly the records whose parent is p, in arena
      order: the children list of every element is complete and ordered. */
  lemma ChildrenExact(nodes: seq<Node>, p: nat)
    requires Links(nodes) && p < |nodes|
    ensures Increasing(Children(nodes, p))
    ensures forall k :: k in Children(nodes, p) <==> 1 <= k < |nodes| && nodes[k].parent == p
  {
    assert FirstChildOk(nodes, p);
    if nodes[p].firstChild.Some? {
      SiblingsExact(nodes, nodes[p].firstChild.value);
    }
  }
}
