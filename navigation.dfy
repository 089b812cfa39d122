/** Navigation over a parsed document (mdz_xml_getRootElement, mdz_xml_getElement,
    mdz_xml_getAttribute). A document is `Some(d)` after a successful parse and `None` otherwise;
    handles are arena indices, and a NULL argument is an absent handle or destination. */
module Navigation {
  import opened XmlTypes
  import opened Dom
  import opened Properties
  import Nesting

  /** The record written to the caller for the element at index i. */
  function View(nodes: seq<Node>, i: nat): XmlElement
    requires i < |nodes|
  {
    var n := nodes[i];
    XmlElement(n.text, n.name, n.attrCount, n.firstChild, n.next, i)
  }

  /** The snapshot `e` describes record i of the arena. */
  ghost predicate Describes(nodes: seq<Node>, i: nat, e: XmlElement) {
    && i < |nodes| && e.self == i
    && e.name == nodes[i].name && e.text == nodes[i].text && e.attributes == nodes[i].attrCount
    && e.firstChild == nodes[i].firstChild && e.next == nodes[i].next
  }

  /** mdz_xml_getRootElement; `hasDest` is false when pRootElement is NULL. */
  function GetRootElement(doc: Option<Dom>, hasDest: bool): (r: Result<XmlElement>)
    ensures !hasDest ==> r == Fail(Param)
    ensures hasDest && doc.None? ==> r == Fail(Error.Parse)
    ensures r.Ok? <==> hasDest && doc.Some? && |doc.value.nodes| > 0
    ensures r.Ok? ==> Describes(doc.value.nodes, ROOT, r.value)
  {
    if !hasDest then Fail(Param)
    else if doc.None? || |doc.value.nodes| == 0 then Fail(Error.Parse)
    else Ok(View(doc.value.nodes, ROOT))
  }

  /** mdz_xml_getElement; `where` is absent when pWhereElement is NULL. */
  function GetElement(doc: Option<Dom>, where: Option<nat>, hasDest: bool): (r: Result<XmlElement>)
    ensures !hasDest || where.None? ==> r == Fail(Param)
    ensures hasDest && where.Some? && doc.None? ==> r == Fail(Error.Parse)
    ensures hasDest && where.Some? && doc.Some? && where.value >= |doc.value.nodes| ==> r == Fail(Element)
    ensures r.Ok? <==> hasDest && where.Some? && doc.Some? && where.value < |doc.value.nodes|
    ensures r.Ok? ==> Describes(doc.value.nodes, where.value, r.value)
  {
    if !hasDest || where.None? then Fail(Param)
    else if doc.None? then Fail(Error.Parse)
    else if where.value >= |doc.value.nodes| then Fail(Element)
    else Ok(View(doc.value.nodes, where.value))
  }

  /** mdz_xml_getAttribute: the attribute at 0-based position idx of element `where`. */
  function GetAttribute(doc: Option<Dom>, where: Option<nat>, idx: nat, hasDest: bool): (r: Result<XmlAttribute>)
    ensures !hasDest || where.None? ==> r == Fail(Param)
    ensures hasDest && where.Some? && doc.None? ==> r == Fail(Error.Parse)
    ensures hasDest && where.Some? && doc.Some? && where.value >= |doc.value.nodes| ==> r == Fail(Element)
    ensures r.Ok? ==>
      var n := doc.value.nodes[where.value];
      idx < n.attrCount && n.attrStart + idx < |doc.value.attrs| && r.value == doc.value.attrs[n.attrStart + idx]
    ensures r == Fail(Index) <==>
      hasDest && where.Some? && doc.Some? && where.value < |doc.value.nodes| &&
      idx >= doc.value.nodes[where.value].attrCount
  {
    if !hasDest || where.None? then Fail(Param)
    else if doc.None? then Fail(Error.Parse)
    else
      var d := doc.value;
      if where.value >= |d.nodes| then Fail(Element)
      else
        var n := d.nodes[where.value];
        if idx >= n.attrCount then Fail(Index)
        else if n.attrStart + idx >= |d.attrs| then Fail(Memory)
        else Ok(d.attrs[n.attrStart + idx])
  }

  /** Without a parsed document every navigation call with non-NULL arguments fails with PARSE. */
  lemma NoDocumentNavigation(where: nat, idx: nat)
    ensures GetRootElement(None, true) == Fail(Error.Parse)
    ensures GetElement(None, Some(where), true) == Fail(Error.Parse)
    ensures GetAttribute(None, Some(where), idx, true) == Fail(Error.Parse)
  {
  }

  /** On a parsed document the root exists, and it has at least one child; its children, reached
      through the first-child and next handles, are exactly the top-level elements, in document
      order. */
  lemma RootChildren(text: seq<byte>, trim: bool, tbl: Classifier.Table, d: Dom)
    requires DomOk(text, trim, tbl, d)
    ensures GetRootElement(Some(d), true).Ok?
    ensures GetRootElement(Some(d), true).value.firstChild.Some?
    ensures var c := Children(d.nodes, ROOT);
      && |c| >= 1 && Increasing(c)
      && (forall k :: k in c <==> 1 <= k < |d.nodes| && d.nodes[k].parent == ROOT)
      && (forall k :: k in c ==> d.nodes[k].IsTagged())
  {
    ChildrenExact(d.nodes, ROOT);
    var c := Children(d.nodes, ROOT);
    assert FirstChildOk(d.nodes, ROOT);
    var f := d.nodes[ROOT].firstChild.value;
    assert f in c;
    forall k | k in c ensures d.nodes[k].IsTagged() {
      assert ParentOk(d.nodes, k);
    }
  }

  /** Read against the text, the children of the root are exactly the elements around which
      no other element stands. */
  lemma TopLevelElements(text: seq<byte>, trim: bool, tbl: Classifier.Table, d: Dom, ends: seq<Option<nat>>)
    requires DomOk(text, trim, tbl, d) && Nesting.NestedDom(text, tbl, d.nodes, ends)
    ensures forall k :: k in Children(d.nodes, ROOT) <==>
      && 1 <= k < |d.nodes| && d.nodes[k].IsTagged()
      && forall i :: 1 <= i < |d.nodes| && i != k ==> !Nesting.Encloses(d.nodes, ends, i, Key(d.nodes[k]))
  {
    ChildrenExact(d.nodes, ROOT);
    forall k | 1 <= k < |d.nodes|
      ensures d.nodes[k].parent == ROOT <==>
        && d.nodes[k].IsTagged()
        && forall i :: 1 <= i < |d.nodes| && i != k ==> !Nesting.Encloses(d.nodes, ends, i, Key(d.nodes[k]))
    {
      assert ParentOk(d.nodes, k);
      assert Nesting.Innermost(d.nodes, ends, k);
    }
  }

  /** Every handle a record hands out (first child, next) is one getElement accepts. */
  lemma HandlesValid(text: seq<byte>, trim: bool, tbl: Classifier.Table, d: Dom, w: nat)
    requires DomOk(text, trim, tbl, d) && w < |d.nodes|
    ensures var e := GetElement(Some(d), Some(w), true).value;
      && (e.firstChild.Some? ==> GetElement(Some(d), e.firstChild, true).Ok?)
      && (e.next.Some? ==> GetElement(Some(d), e.next, true).Ok?)
  {
    assert FirstChildOk(d.nodes, w);
    if w >= 1 {
      assert NextOk(d.nodes, w);
    }
  }

  /** A text node has no attributes and no children. */
  lemma TextNodeLeaf(text: seq<byte>, trim: bool, tbl: Classifier.Table, d: Dom, w: nat)
    requires DomOk(text, trim, tbl, d) && 1 <= w < |d.nodes| && !d.nodes[w].IsTagged()
    ensures var e := GetElement(Some(d), Some(w), true).value;
      e.name.length == 0 && e.attributes == 0 && e.firstChild == None
  {
    assert NodeOk(text, trim, tbl, d.nodes[w]);
    forall k | 1 <= k < |d.nodes| ensures d.nodes[k].parent != w {
      assert ParentOk(d.nodes, k);
    }
    assert FirstChildOk(d.nodes, w);
  }

  /** On a parsed document getAttribute fails with INDEX exactly when idx is not below the
      element's attribute count, returns the attribute at that position otherwise, and never
      reports a memory problem. */
  lemma AttributeLookup(text: seq<byte>, trim: bool, tbl: Classifier.Table, d: Dom, w: nat, idx: nat)
    requires DomOk(text, trim, tbl, d) && w < |d.nodes|
    ensures var r := GetAttribute(Some(d), Some(w), idx, true); var n := d.nodes[w];
      && (r == Fail(Index) <==> idx >= n.attrCount)
      && (idx < n.attrCount ==> r == Ok(d.attrs[n.attrStart + idx]))
      && r != Fail(Memory)
  {
    assert BlocksOk(d.nodes, |d.attrs|);
    assert d.nodes[w].attrStart + d.nodes[w].attrCount <= |d.attrs|;
  }
}
