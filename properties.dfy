/** What a parsed document looks like, and the proof that every successful parse builds one:
    an invariant of the scanner state that each Step keeps. */
module Properties {
  import opened XmlTypes
  import opened Classifier
  import opened Scan
  import opened Dom
  import opened Grammar

  /** A non-empty name whose first byte is allowed in text type `first` and the others in `rest`. */
  ghost predicate NameOk(text: seq<byte>, tbl: Table, sp: Span, first: TextType, rest: TextType) {
    && 0 < sp.length && sp.End() <= |text|
    && Allowed(tbl, first, text[sp.start])
    && forall k :: sp.start < k < sp.End() ==> Allowed(tbl, rest, text[k])
  }

  /** Character data: non-empty, free of '<', made of element-text bytes; trimmed, it neither
      starts nor ends with a space byte; untrimmed, it is everything between a '>' and a '<'. */
  ghost predicate TextOk(text: seq<byte>, trim: bool, tbl: Table, sp: Span) {
    && 0 < sp.length && 1 <= sp.start && sp.End() < |text|
    && (forall k :: sp.start <= k < sp.End() ==> text[k] != LT && Allowed(tbl, ELEMENT_TEXT, text[k]))
    && (trim ==> !IsSpace(tbl, text[sp.start]) && !IsSpace(tbl, text[sp.End() - 1]))
    && (!trim ==> text[sp.start - 1] == GT && text[sp.End()] == LT)
  }

  /** name="value" or name='value': the value lies between two equal quotes and holds neither
      that quote nor a byte outside the attribute-value type. */
  ghost predicate AttributeOk(text: seq<byte>, tbl: Table, a: XmlAttribute) {
    var eq := a.name.End();
    && NameOk(text, tbl, a.name, ATTRIBUTE_NAME_START, ATTRIBUTE_NAME_NON_START)
    && a.value.start == eq + 2 && a.value.End() < |text|
    && text[eq] == EQUALS && (text[eq + 1] == DQUOTE || text[eq + 1] == SQUOTE)
    && text[a.value.End()] == text[eq + 1]
    && forall k :: a.value.start <= k < a.value.End() ==>
         text[k] != text[eq + 1] && Allowed(tbl, ATTRIBUTE_VALUE, text[k])
  }

  /** An element record names an opening tag that is neither a comment, a processing
      instruction nor a closing tag; a text node has no attributes. */
  ghost predicate NodeOk(text: seq<byte>, trim: bool, tbl: Table, n: Node) {
    if n.IsTagged() then
      && NameOk(text, tbl, n.name, ELEMENT_NAME_START, ELEMENT_NAME_NON_START)
      && 1 <= n.name.start && text[n.name.start - 1] == LT
      && text[n.name.start] != QUESTION && text[n.name.start] != BANG && text[n.name.start] != SLASH
      && (n.text.length > 0 ==> TextOk(text, trim, tbl, n.text))
    else
      n.attrCount == 0 && TextOk(text, trim, tbl, n.text)
  }

  /** The document position a record stands for. */
  function Key(n: Node): nat {
    if n.IsTagged() then n.name.start else n.text.start
  }

  /** The root record is empty and every other record is well formed. */
  ghost predicate RecordsOk(text: seq<byte>, trim: bool, tbl: Table, nodes: seq<Node>) {
    && |nodes| >= 1
    && nodes[ROOT].name.length == 0 && nodes[ROOT].text.length == 0 && nodes[ROOT].attrCount == 0
    && forall i {:trigger NodeOk(text, trim, tbl, nodes[i])} ::
         1 <= i < |nodes| ==> NodeOk(text, trim, tbl, nodes[i])
  }

  /** The records are in document order. */
  ghost predicate KeysOrdered(nodes: seq<Node>) {
    forall i, j {:trigger Key(nodes[i]), Key(nodes[j])} :: 1 <= i < j < |nodes| ==> Key(nodes[i]) < Key(nodes[j])
  }

  /** The attribute block of every record lies in the attribute arena. */
  ghost predicate BlocksOk(nodes: seq<Node>, attrCount: nat) {
    forall i {:trigger nodes[i].attrCount} ::
      0 <= i < |nodes| ==> nodes[i].attrStart + nodes[i].attrCount <= attrCount
  }

  /** Every attribute is well formed, and the attributes are in document order. */
  ghost predicate AttrsOk(text: seq<byte>, tbl: Table, attrs: seq<XmlAttribute>) {
    && (forall a {:trigger AttributeOk(text, tbl, attrs[a])} :: 0 <= a < |attrs| ==> AttributeOk(text, tbl, attrs[a]))
    && (forall a, b {:trigger attrs[a].name, attrs[b].name} ::
          0 <= a < b < |attrs| ==> attrs[a].name.start < attrs[b].name.start)
  }

  /** The attributes of an element come after its name. */
  ghost predicate Owned(nodes: seq<Node>, attrs: seq<XmlAttribute>) {
    forall i, a {:trigger Key(nodes[i]), attrs[a]} ::
      1 <= i < |nodes| && nodes[i].attrStart <= a < nodes[i].attrStart + nodes[i].attrCount && a < |attrs| ==>
      Key(nodes[i]) < attrs[a].name.start
  }

  /** The payload of the arenas. */
  ghost predicate ArenaOk(text: seq<byte>, trim: bool, tbl: Table, nodes: seq<Node>, attrs: seq<XmlAttribute>) {
    && RecordsOk(text, trim, tbl, nodes)
    && KeysOrdered(nodes)
    && BlocksOk(nodes, |attrs|)
    && AttrsOk(text, tbl, attrs)
    && Owned(nodes, attrs)
  }

  /** The newest record and the newest attribute stand for positions before `bound`. */
  ghost predicate Before(nodes: seq<Node>, attrs: seq<XmlAttribute>, bound: nat) {
    && (|nodes| > 1 ==> Key(nodes[|nodes| - 1]) < bound)
    && (|attrs| > 0 ==> attrs[|attrs| - 1].name.start < bound)
  }

  /** b starts with records that stand where a's do and own the same attribute blocks. */
  ghost predicate KeysAgree(a: seq<Node>, b: seq<Node>) {
    && |a| <= |b|
    && forall i :: 0 <= i < |a| ==>
         Key(b[i]) == Key(a[i]) && b[i].attrStart == a[i].attrStart && b[i].attrCount == a[i].attrCount
  }

  /** Children of the root are elements, and only elements have children. */
  ghost predicate ParentOk(nodes: seq<Node>, i: nat)
    requires 1 <= i < |nodes|
  {
    var p := nodes[i].parent;
    p < i && if p == ROOT then nodes[i].IsTagged() else nodes[p].IsTagged()
  }

  ghost predicate TreeOk(nodes: seq<Node>) {
    && Links(nodes)
    && forall i :: 1 <= i < |nodes| ==> ParentOk(nodes, i)
  }

  /** The open elements: the root at the base, strictly deeper records upwards, each with its
      last child so far, each (but the root) an element whose '<' is at the frame's tagPos. */
  ghost predicate StackOk(nodes: seq<Node>, stack: seq<Frame>) {
    && |stack| >= 1 && stack[0].node == ROOT
    && (forall i :: 0 <= i < |stack| ==> stack[i].node < |nodes| && LastOk(nodes, stack[i].node, stack[i].last))
    && (forall i, j :: 0 <= i < j < |stack| ==> stack[i].node < stack[j].node)
    && (forall i :: 1 <= i < |stack| ==>
          stack[i].node < |nodes| && nodes[stack[i].node].IsTagged() &&
          nodes[stack[i].node].name.start == stack[i].tagPos + 1)
  }

  /** Inside an opening tag: the newest record is the element being opened, the last child
      of the innermost open element, and owns the newest attributes. */
  ghost predicate OpenTagOk(s: State)
    requires |s.nodes| >= 1 && |s.stack| >= 1 && s.mode.InTag?
  {
    var k := |s.nodes| - 1;
    var n := s.nodes[k];
    && k >= 1 && n.IsTagged()
    && n.name.start == s.mode.tagPos + 1 && n.name.End() <= s.pos
    && n.attrStart + n.attrCount == |s.attrs|
    && n.parent == Top(s).node && Top(s).last == Some(k)
  }

  /** The scanner invariant. */
  ghost predicate Good(text: seq<byte>, trim: bool, tbl: Table, s: State) {
    && WF(text, s)
    && ArenaOk(text, trim, tbl, s.nodes, s.attrs)
    && Before(s.nodes, s.attrs, s.pos)
    && TreeOk(s.nodes)
    && StackOk(s.nodes, s.stack)
    && (s.seenTop ==> s.nodes[ROOT].firstChild.Some?)
    && (s.mode == Content && |s.stack| > 1 && s.pos < |text| && text[s.pos] != LT ==>
          1 <= s.pos && text[s.pos - 1] == GT)
    && (s.mode.InTag? ==> OpenTagOk(s))
  }

  /** A parsed document: the arenas describe the whole text, the links form a tree whose
      root has at least one child. */
  ghost predicate DomOk(text: seq<byte>, trim: bool, tbl: Table, d: Dom) {
    && ArenaOk(text, trim, tbl, d.nodes, d.attrs)
    && TreeOk(d.nodes)
    && d.nodes[ROOT].firstChild.Some?
  }

  // ---- The arena payload under the three ways a step changes it ----

  lemma OrderSame(a: seq<Node>, b: seq<Node>, attrs: seq<XmlAttribute>)
    requires KeysAgree(a, b) && |a| == |b|
    requires KeysOrdered(a) && BlocksOk(a, |attrs|) && Owned(a, attrs)
    ensures KeysOrdered(b) && BlocksOk(b, |attrs|) && Owned(b, attrs)
  {
    forall i, j | 1 <= i < j < |b| ensures Key(b[i]) < Key(b[j]) {
      assert Key(a[i]) < Key(a[j]);
    }
  }

  lemma OrderAppend(a: seq<Node>, b: seq<Node>, attrs: seq<XmlAttribute>, bound: nat)
    requires KeysAgree(a, b) && |b| == |a| + 1 && |a| >= 1
    requires KeysOrdered(a) && BlocksOk(a, |attrs|) && Owned(a, attrs) && Before(a, attrs, bound)
    requires bound <= Key(b[|a|]) && b[|a|].attrStart == |attrs| && b[|a|].attrCount == 0
    ensures KeysOrdered(b) && BlocksOk(b, |attrs|) && Owned(b, attrs)
  {
    var k := |a|;
    forall i, j | 1 <= i < j < |b| ensures Key(b[i]) < Key(b[j]) {
      if j < k {
        assert Key(a[i]) < Key(a[j]);
      } else if i < k - 1 {
        assert Key(a[i]) < Key(a[k - 1]);
      }
    }
  }

  lemma RecordsAppend(text: seq<byte>, trim: bool, tbl: Table, nodes: seq<Node>, p: nat, last: Option<nat>, n: Node)
    requires RecordsOk(text, trim, tbl, nodes) && NodeOk(text, trim, tbl, n)
    requires p < |nodes| && (last.Some? ==> 1 <= last.value < |nodes|)
    ensures RecordsOk(text, trim, tbl, AppendChild(nodes, p, last, n))
    ensures KeysAgree(nodes, AppendChild(nodes, p, last, n))
  {
    var r := AppendChild(nodes, p, last, n);
    forall i | 1 <= i < |r| ensures NodeOk(text, trim, tbl, r[i]) {
      if i < |nodes| {
        assert NodeOk(text, trim, tbl, nodes[i]);
        assert r[i].name == nodes[i].name && r[i].text == nodes[i].text;
      }
    }
  }

  lemma ArenaAppend(text: seq<byte>, trim: bool, tbl: Table, nodes: seq<Node>, attrs: seq<XmlAttribute>,
                    b: nat, p: nat, last: Option<nat>, n: Node, b': nat)
    requires ArenaOk(text, trim, tbl, nodes, attrs) && Before(nodes, attrs, b)
    requires p < |nodes| && (last.Some? ==> 1 <= last.value < |nodes|)
    requires NodeOk(text, trim, tbl, n) && n.attrStart == |attrs| && n.attrCount == 0
    requires b <= Key(n) < b'
    ensures ArenaOk(text, trim, tbl, AppendChild(nodes, p, last, n), attrs)
    ensures Before(AppendChild(nodes, p, last, n), attrs, b')
  {
    RecordsAppend(text, trim, tbl, nodes, p, last, n);
    OrderAppend(nodes, AppendChild(nodes, p, last, n), attrs, b);
  }

  lemma ArenaSetText(text: seq<byte>, trim: bool, tbl: Table, nodes: seq<Node>, attrs: seq<XmlAttribute>,
                     b: nat, x: nat, sp: Span, b': nat)
    requires ArenaOk(text, trim, tbl, nodes, attrs) && Before(nodes, attrs, b)
    requires 1 <= x < |nodes| && nodes[x].IsTagged() && TextOk(text, trim, tbl, sp) && b <= b'
    ensures ArenaOk(text, trim, tbl, nodes[x := nodes[x].(text := sp)], attrs)
    ensures Before(nodes[x := nodes[x].(text := sp)], attrs, b')
  {
    var r := nodes[x := nodes[x].(text := sp)];
    assert NodeOk(text, trim, tbl, nodes[x]);
    assert NodeOk(text, trim, tbl, r[x]);
    assert KeysAgree(nodes, r);
    OrderSame(nodes, r, attrs);
  }

  lemma ArenaAddAttribute(text: seq<byte>, trim: bool, tbl: Table, nodes: seq<Node>, attrs: seq<XmlAttribute>,
                          b: nat, a: XmlAttribute, b': nat)
    requires ArenaOk(text, trim, tbl, nodes, attrs) && Before(nodes, attrs, b)
    requires |nodes| >= 2 && nodes[|nodes| - 1].IsTagged()
    requires nodes[|nodes| - 1].attrStart + nodes[|nodes| - 1].attrCount == |attrs|
    requires AttributeOk(text, tbl, a) && Key(nodes[|nodes| - 1]) < a.name.start
    requires b <= a.name.start < b'
    ensures var k := |nodes| - 1;
      ArenaOk(text, trim, tbl, nodes[k := nodes[k].(attrCount := nodes[k].attrCount + 1)], attrs + [a])
    ensures var k := |nodes| - 1;
      Before(nodes[k := nodes[k].(attrCount := nodes[k].attrCount + 1)], attrs + [a], b')
  {
    var k := |nodes| - 1;
    var r := nodes[k := nodes[k].(attrCount := nodes[k].attrCount + 1)];
    assert RecordsOk(text, trim, tbl, r) && KeysOrdered(r) && BlocksOk(r, |attrs| + 1) by {
      RecordsCount(text, trim, tbl, nodes, |attrs|);
    }
    assert AttrsOk(text, tbl, attrs + [a]) by {
      AttrsAppend(text, tbl, attrs, a);
    }
    assert Owned(r, attrs + [a]) by {
      OwnedAddAttribute(nodes, attrs, a);
    }
  }

  /** Counting one more attribute for the newest element keeps the records and their order. */
  lemma RecordsCount(text: seq<byte>, trim: bool, tbl: Table, nodes: seq<Node>, count: nat)
    requires RecordsOk(text, trim, tbl, nodes) && KeysOrdered(nodes) && BlocksOk(nodes, count)
    requires |nodes| >= 2 && nodes[|nodes| - 1].IsTagged()
    requires nodes[|nodes| - 1].attrStart + nodes[|nodes| - 1].attrCount == count
    ensures var k := |nodes| - 1; var r := nodes[k := nodes[k].(attrCount := nodes[k].attrCount + 1)];
      RecordsOk(text, trim, tbl, r) && KeysOrdered(r) && BlocksOk(r, count + 1)
  {
    var k := |nodes| - 1;
    var r := nodes[k := nodes[k].(attrCount := nodes[k].attrCount + 1)];
    assert NodeOk(text, trim, tbl, nodes[k]);
    assert NodeOk(text, trim, tbl, r[k]);
    forall i, j | 1 <= i < j < |r| ensures Key(r[i]) < Key(r[j]) {
      assert Key(nodes[i]) < Key(nodes[j]);
    }
  }

  /** An attribute after the last one keeps the attribute arena well formed and ordered. */
  lemma AttrsAppend(text: seq<byte>, tbl: Table, attrs: seq<XmlAttribute>, a: XmlAttribute)
    requires AttrsOk(text, tbl, attrs) && AttributeOk(text, tbl, a)
    requires |attrs| > 0 ==> attrs[|attrs| - 1].name.start < a.name.start
    ensures AttrsOk(text, tbl, attrs + [a])
  {
    var attrs' := attrs + [a];
    assert AttributeOk(text, tbl, attrs'[|attrs|]);
    forall c | 0 <= c < |attrs| ensures AttributeOk(text, tbl, attrs'[c]) {
      assert AttributeOk(text, tbl, attrs[c]);
    }
    forall c, d | 0 <= c < d < |attrs'| ensures attrs'[c].name.start < attrs'[d].name.start {
      if d == |attrs| && c < |attrs| - 1 {
        assert attrs[c].name.start < attrs[|attrs| - 1].name.start;
      }
    }
  }

  lemma OwnedAddAttribute(nodes: seq<Node>, attrs: seq<XmlAttribute>, a: XmlAttribute)
    requires |nodes| >= 2 && BlocksOk(nodes, |attrs|) && Owned(nodes, attrs)
    requires nodes[|nodes| - 1].attrStart + nodes[|nodes| - 1].attrCount == |attrs|
    requires Key(nodes[|nodes| - 1]) < a.name.start
    ensures var k := |nodes| - 1;
      Owned(nodes[k := nodes[k].(attrCount := nodes[k].attrCount + 1)], attrs + [a])
  {
    var k := |nodes| - 1;
    var r := nodes[k := nodes[k].(attrCount := nodes[k].attrCount + 1)];
    var attrs' := attrs + [a];
    forall i, c | 1 <= i < |r| && r[i].attrStart <= c < r[i].attrStart + r[i].attrCount && c < |attrs'|
      ensures Key(r[i]) < attrs'[c].name.start
    {
      if i < k {
        assert c < |attrs|;
      } else if c < |attrs| {
        assert Key(nodes[k]) < attrs[c].name.start;
      }
    }
  }

  // ---- The links under appending and under payload updates ----

  ghost predicate SameTree(a: seq<Node>, b: seq<Node>) {
    SameShape(a, b) && forall i :: 0 <= i < |a| ==> a[i].name == b[i].name
  }

  lemma TreeAppend(nodes: seq<Node>, p: nat, last: Option<nat>, n: Node)
    requires TreeOk(nodes) && p < |nodes| && LastOk(nodes, p, last)
    requires n.parent == p && n.firstChild == None && n.next == None
    requires if p == ROOT then n.IsTagged() else nodes[p].IsTagged()
    ensures TreeOk(AppendChild(nodes, p, last, n))
    ensures LastOk(AppendChild(nodes, p, last, n), p, Some(|nodes|))
  {
    AppendChildLinks(nodes, p, last, n);
    var r := AppendChild(nodes, p, last, n);
    forall i | 1 <= i < |r| ensures ParentOk(r, i) {
      if i < |nodes| {
        assert ParentOk(nodes, i);
      }
    }
  }

  lemma StackAppend(nodes: seq<Node>, stack: seq<Frame>, n: Node)
    requires Links(nodes) && StackOk(nodes, stack)
    requires |stack| >= 1 && n.parent == stack[|stack| - 1].node
    requires n.firstChild == None && n.next == None
    requires var top := stack[|stack| - 1]; top.last.Some? ==> 1 <= top.last.value < |nodes|
    ensures var top := stack[|stack| - 1];
      StackOk(AppendChild(nodes, top.node, top.last, n), SetTopLast(stack, |nodes|))
  {
    var t := |stack| - 1;
    var top := stack[t];
    var r := AppendChild(nodes, top.node, top.last, n);
    var stack' := SetTopLast(stack, |nodes|);
    AppendChildLinks(nodes, top.node, top.last, n);
    forall i | 0 <= i < |stack'|
      ensures stack'[i].node < |r| && LastOk(r, stack'[i].node, stack'[i].last)
    {
      if i < t {
        AppendChildKeepsLast(nodes, top.node, top.last, n, stack[i].node, stack[i].last);
      }
    }
  }

  lemma SameTreeOk(a: seq<Node>, b: seq<Node>, stack: seq<Frame>)
    requires TreeOk(a) && StackOk(a, stack) && SameTree(a, b)
    ensures TreeOk(b) && StackOk(b, stack)
  {
    SameShapeLinks(a, b);
    forall i | 1 <= i < |b| ensures ParentOk(b, i) {
      assert ParentOk(a, i);
    }
    forall i | 0 <= i < |stack| ensures LastOk(b, stack[i].node, stack[i].last) {
      SameShapeLast(a, b, stack[i].node, stack[i].last);
    }
  }

  // ---- Each kind of step keeps the invariant ----

  lemma InitialGood(text: seq<byte>, trim: bool, tbl: Table)
    requires 0 < |text|
    ensures Good(text, trim, tbl, Initial())
  {
    StartGood(text, trim, tbl, Initial());
  }

  /** The state before the first byte: only the root, open, with no child. */
  lemma StartGood(text: seq<byte>, trim: bool, tbl: Table, s: State)
    requires 0 < |text| && s.mode == Content && s.pos == 0 && !s.seenTop
    requires |s.stack| == 1 && s.stack[0] == Frame(ROOT, None, 0)
    requires |s.nodes| == 1 && s.nodes[ROOT] == ROOT_NODE && |s.attrs| == 0
    ensures Good(text, trim, tbl, s)
  {
    assert WF(text, s) by {
      assert FrameWF(text, s.nodes, s.stack[0]);
    }
    assert ArenaOk(text, trim, tbl, s.nodes, s.attrs) && Before(s.nodes, s.attrs, s.pos);
    assert TreeOk(s.nodes) by {
      assert FirstChildOk(s.nodes, ROOT);
    }
    assert StackOk(s.nodes, s.stack) by {
      assert LastOk(s.nodes, ROOT, None);
    }
  }

  /** Moving over bytes that produce nothing. */
  lemma SkipGood(text: seq<byte>, trim: bool, tbl: Table, s: State, q: nat)
    requires Good(text, trim, tbl, s) && s.mode == Content && s.pos <= q <= |text|
    requires |s.stack| > 1 && q < |text| && text[q] != LT ==> 1 <= q && text[q - 1] == GT
    ensures Good(text, trim, tbl, s.(pos := q))
  {
    var s' := s.(pos := q);
    assert s'.mode == Content && |s'.stack| > 1 && s'.pos < |text| && text[s'.pos] != LT ==>
      1 <= s'.pos && text[s'.pos - 1] == GT;
    assert WF(text, s') by {
      assert forall i :: 0 <= i < |s.stack| ==> FrameWF(text, s'.nodes, s'.stack[i]);
    }
    assert Before(s.nodes, s.attrs, q);
  }

  lemma AddTextGood(text: seq<byte>, trim: bool, tbl: Table, s: State, q: nat)
    requires Good(text, trim, tbl, s) && s.mode == Content && |s.stack| > 1
    requires s.pos < q < |text| && text[q] == LT && text[s.pos] != LT
    requires forall k :: s.pos <= k < q ==> text[k] != LT && Allowed(tbl, ELEMENT_TEXT, text[k])
    ensures Good(text, trim, tbl, AddText(text, trim, tbl, s, q))
  {
    var sp := RunSpan(text, trim, tbl, s.pos, q);
    var top := Top(s);
    if sp.length == 0 {
      SkipGood(text, trim, tbl, s, q);
    } else {
      assert TextOk(text, trim, tbl, sp);
      if top.last.None? && q + 1 < |text| && text[q + 1] == SLASH {
        SetTextNext(text, trim, tbl, s, q, sp, AddText(text, trim, tbl, s, q));
      } else {
        AppendTextNext(text, trim, tbl, s, q, sp, AddText(text, trim, tbl, s, q));
      }
    }
  }

  /** Character data that is all an element holds becomes that element's text. */
  lemma SetTextNext(text: seq<byte>, trim: bool, tbl: Table, s: State, q: nat, sp: Span, s': State)
    requires Good(text, trim, tbl, s) && s.mode == Content && |s.stack| > 1 && s.pos <= q < |text| && text[q] == LT
    requires TextOk(text, trim, tbl, sp) && s.pos <= sp.start
    requires s'.mode == Content && s'.pos == q && s'.stack == s.stack && s'.attrs == s.attrs && s'.seenTop == s.seenTop
    requires s'.nodes == s.nodes[Top(s).node := s.nodes[Top(s).node].(text := sp)]
    ensures Good(text, trim, tbl, s')
  {
    var x := Top(s).node;
    assert s.stack[0].node < x;
    assert WF(text, s') by {
      forall i | 0 <= i < |s'.stack| ensures FrameWF(text, s'.nodes, s'.stack[i]) {
        assert FrameWF(text, s.nodes, s.stack[i]);
      }
    }
    ArenaSetText(text, trim, tbl, s.nodes, s.attrs, s.pos, x, sp, q);
    SameTreeOk(s.nodes, s'.nodes, s.stack);
  }

  /** Character data beside child elements becomes a text node, the newest child of the
      innermost open element. */
  lemma AppendTextNext(text: seq<byte>, trim: bool, tbl: Table, s: State, q: nat, sp: Span, s': State)
    requires Good(text, trim, tbl, s) && s.mode == Content && |s.stack| > 1 && s.pos <= q < |text| && text[q] == LT
    requires TextOk(text, trim, tbl, sp) && s.pos <= sp.start < q
    requires s'.mode == Content && s'.pos == q && s'.attrs == s.attrs && s'.seenTop == s.seenTop
    requires s'.stack == SetTopLast(s.stack, |s.nodes|)
    requires s'.nodes == AppendChild(s.nodes, Top(s).node, Top(s).last, Node(NO_SPAN, sp, |s.attrs|, 0, None, None, Top(s).node))
    ensures Good(text, trim, tbl, s')
  {
    var top := Top(s);
    var n := Node(NO_SPAN, sp, |s.attrs|, 0, None, None, top.node);
    assert s.stack[0].node < top.node;
    assert WF(text, s') by {
      forall i | 0 <= i < |s'.stack| ensures FrameWF(text, s'.nodes, s'.stack[i]) {
        assert FrameWF(text, s.nodes, s.stack[i]);
      }
    }
    assert ArenaOk(text, trim, tbl, s'.nodes, s'.attrs) && Before(s'.nodes, s'.attrs, s'.pos) by {
      ArenaAppend(text, trim, tbl, s.nodes, s.attrs, s.pos, top.node, top.last, n, q);
    }
    assert TreeOk(s'.nodes) by {
      TreeAppend(s.nodes, top.node, top.last, n);
    }
    assert StackOk(s'.nodes, s'.stack) by {
      StackAppend(s.nodes, s.stack, n);
    }
    assert s'.seenTop ==> s'.nodes[ROOT].firstChild.Some? by {
      AppendChildFirst(s.nodes, top.node, top.last, n, ROOT);
    }
  }

  lemma TextGood(text: seq<byte>, trim: bool, tbl: Table, s: State)
    requires Good(text, trim, tbl, s) && s.mode == Content && s.pos < |text| && text[s.pos] != LT
    ensures var o := TextStep(text, trim, tbl, s); o.Next? ==> Good(text, trim, tbl, o.state)
  {
    if |s.stack| == 1 {
      var q := RunEnd(text, s.pos, tbl, SPACE, LT);
      SkipGood(text, trim, tbl, s, q);
    } else {
      var q := RunEnd(text, s.pos, tbl, ELEMENT_TEXT, LT);
      RunEndBytes(text, s.pos, tbl, ELEMENT_TEXT, LT);
      if q < |text| && text[q] == LT {
        AddTextGood(text, trim, tbl, s, q);
      }
    }
  }

  lemma CloseGood(text: seq<byte>, trim: bool, tbl: Table, s: State)
    requires Good(text, trim, tbl, s) && s.mode == Content && s.pos + 1 < |text|
    requires text[s.pos] == LT && text[s.pos + 1] == SLASH
    ensures var o := CloseStep(text, tbl, s); o.Next? ==> Good(text, trim, tbl, o.state)
  {
    var o := CloseStep(text, tbl, s);
    if o.Next? {
      var s' := o.state;
      assert s'.stack == s.stack[..|s.stack| - 1];
      assert text[s'.pos - 1] == GT;
    }
  }

  lemma OpenGood(text: seq<byte>, trim: bool, tbl: Table, s: State)
    requires Good(text, trim, tbl, s) && s.mode == Content && s.pos + 1 < |text| && text[s.pos] == LT
    requires text[s.pos + 1] != QUESTION && text[s.pos + 1] != BANG && text[s.pos + 1] != SLASH
    ensures var o := OpenStep(text, tbl, s); o.Next? ==> Good(text, trim, tbl, o.state)
  {
    var p := s.pos;
    var top := Top(s);
    assert FrameWF(text, s.nodes, top);
    if Allowed(tbl, ELEMENT_NAME_START, text[p + 1]) {
      var e := RunEnd(text, p + 2, tbl, ELEMENT_NAME_NON_START, NO_STOP);
      var n := Node(Span(p + 1, e - (p + 1)), NO_SPAN, |s.attrs|, 0, None, None, top.node);
      var s' := State(InTag(p), e, SetTopLast(s.stack, |s.nodes|), AppendChild(s.nodes, top.node, top.last, n),
                      s.attrs, s.seenTop || |s.stack| == 1);
      assert OpenStep(text, tbl, s) == Next(s');
      OpenNext(text, trim, tbl, s, n, s');
    }
  }

  /** The state after an opening tag's name: the new element is the last child of the
      innermost open element. */
  lemma OpenNext(text: seq<byte>, trim: bool, tbl: Table, s: State, n: Node, s': State)
    requires Good(text, trim, tbl, s) && s.mode == Content && s.pos + 1 < |text| && text[s.pos] == LT
    requires text[s.pos + 1] != QUESTION && text[s.pos + 1] != BANG && text[s.pos + 1] != SLASH
    requires Allowed(tbl, ELEMENT_NAME_START, text[s.pos + 1])
    requires s'.pos == RunEnd(text, s.pos + 2, tbl, ELEMENT_NAME_NON_START, NO_STOP)
    requires n == Node(Span(s.pos + 1, s'.pos - (s.pos + 1)), NO_SPAN, |s.attrs|, 0, None, None, Top(s).node)
    requires s'.mode == InTag(s.pos) && s'.stack == SetTopLast(s.stack, |s.nodes|)
    requires s'.nodes == AppendChild(s.nodes, Top(s).node, Top(s).last, n)
    requires s'.attrs == s.attrs && s'.seenTop == (s.seenTop || |s.stack| == 1)
    ensures Good(text, trim, tbl, s')
  {
    var top := Top(s);
    OpenedWF(text, s, n, s');
    OpenedNode(text, trim, tbl, s.pos, s'.pos, n);
    OpenedArena(text, trim, tbl, s, n, s');
    OpenedTree(s, n, s');
    assert s'.seenTop ==> s'.nodes[ROOT].firstChild.Some? by {
      AppendChildFirst(s.nodes, top.node, top.last, n, ROOT);
    }
    assert OpenTagOk(s');
  }

  lemma OpenedWF(text: seq<byte>, s: State, n: Node, s': State)
    requires WF(text, s) && s.pos < s'.pos <= |text| && n.name.End() <= |text|
    requires s'.mode == InTag(s.pos) && s'.stack == SetTopLast(s.stack, |s.nodes|)
    requires s'.nodes == AppendChild(s.nodes, Top(s).node, Top(s).last, n)
    ensures WF(text, s')
  {
    forall i | 0 <= i < |s'.stack| ensures FrameWF(text, s'.nodes, s'.stack[i]) {
      assert FrameWF(text, s.nodes, s.stack[i]);
    }
  }

  /** The record of an element whose name starts just after a '<'. */
  lemma OpenedNode(text: seq<byte>, trim: bool, tbl: Table, p: nat, e: nat, n: Node)
    requires p + 1 < |text| && text[p] == LT
    requires text[p + 1] != QUESTION && text[p + 1] != BANG && text[p + 1] != SLASH
    requires Allowed(tbl, ELEMENT_NAME_START, text[p + 1])
    requires e == RunEnd(text, p + 2, tbl, ELEMENT_NAME_NON_START, NO_STOP)
    requires n.name == Span(p + 1, e - (p + 1)) && n.text == NO_SPAN
    ensures NodeOk(text, trim, tbl, n) && Key(n) == p + 1 && n.name.End() == e
  {
    RunEndBytes(text, p + 2, tbl, ELEMENT_NAME_NON_START, NO_STOP);
  }

  lemma OpenedArena(text: seq<byte>, trim: bool, tbl: Table, s: State, n: Node, s': State)
    requires ArenaOk(text, trim, tbl, s.nodes, s.attrs) && Before(s.nodes, s.attrs, s.pos)
    requires |s.stack| >= 1 && Top(s).node < |s.nodes|
    requires Top(s).last.Some? ==> 1 <= Top(s).last.value < |s.nodes|
    requires NodeOk(text, trim, tbl, n) && n.attrStart == |s.attrs| && n.attrCount == 0
    requires s.pos <= Key(n) < s'.pos
    requires s'.nodes == AppendChild(s.nodes, Top(s).node, Top(s).last, n) && s'.attrs == s.attrs
    ensures ArenaOk(text, trim, tbl, s'.nodes, s'.attrs) && Before(s'.nodes, s'.attrs, s'.pos)
  {
    ArenaAppend(text, trim, tbl, s.nodes, s.attrs, s.pos, Top(s).node, Top(s).last, n, s'.pos);
  }

  lemma OpenedTree(s: State, n: Node, s': State)
    requires TreeOk(s.nodes) && StackOk(s.nodes, s.stack)
    requires n.parent == Top(s).node && n.firstChild == None && n.next == None && n.IsTagged()
    requires s'.stack == SetTopLast(s.stack, |s.nodes|)
    requires s'.nodes == AppendChild(s.nodes, Top(s).node, Top(s).last, n)
    ensures TreeOk(s'.nodes) && StackOk(s'.nodes, s'.stack)
  {
    var top := Top(s);
    if top.node != ROOT {
      assert |s.stack| > 1;
    }
    TreeAppend(s.nodes, top.node, top.last, n);
    StackAppend(s.nodes, s.stack, n);
  }

  lemma MarkupGood(text: seq<byte>, trim: bool, tbl: Table, s: State)
    requires Good(text, trim, tbl, s) && s.mode == Content && s.pos < |text| && text[s.pos] == LT
    ensures var o := MarkupStep(text, tbl, s); o.Next? ==> Good(text, trim, tbl, o.state)
  {
    var p := s.pos;
    if p + 1 == |text| {
    } else if text[p + 1] == QUESTION || text[p + 1] == BANG {
      assert MarkupStep(text, tbl, s) == SkipStep(text, s);
      SkippedGood(text, trim, tbl, s);
    } else if text[p + 1] == SLASH {
      assert MarkupStep(text, tbl, s) == CloseStep(text, tbl, s);
      CloseGood(text, trim, tbl, s);
    } else {
      assert MarkupStep(text, tbl, s) == OpenStep(text, tbl, s);
      OpenGood(text, trim, tbl, s);
    }
  }

  /** A processing instruction or a comment is passed over and builds nothing. */
  lemma SkippedGood(text: seq<byte>, trim: bool, tbl: Table, s: State)
    requires Good(text, trim, tbl, s) && s.mode == Content && s.pos + 1 < |text| && text[s.pos] == LT
    requires text[s.pos + 1] == QUESTION || text[s.pos + 1] == BANG
    ensures var o := SkipStep(text, s); o.Next? ==> Good(text, trim, tbl, o.state)
  {
    var o := SkipStep(text, s);
    if o.Next? {
      SkipGood(text, trim, tbl, s, o.state.pos);
    }
  }

  lemma AttributeGood(text: seq<byte>, trim: bool, tbl: Table, s: State, q: nat)
    requires Good(text, trim, tbl, s) && s.mode.InTag? && s.pos <= q < |text|
    ensures var o := AttributeStep(text, tbl, s, q); o.Next? ==> Good(text, trim, tbl, o.state)
  {
    var o := AttributeStep(text, tbl, s, q);
    var a := AttributeAdded(text, tbl, s, q);
    if o.Next? {
      AttributeNext(text, trim, tbl, s, a, o.state);
    }
  }

  /** The attribute an attribute step appends: a well-formed one from q on, before the new
      position; nothing else but the newest record's count changes. */
  lemma AttributeAdded(text: seq<byte>, tbl: Table, s: State, q: nat) returns (a: XmlAttribute)
    requires WF(text, s) && s.mode.InTag? && s.pos <= q < |text|
    ensures var o := AttributeStep(text, tbl, s, q); o.Next? ==>
      && AttributeOk(text, tbl, a) && s.pos <= a.name.start < o.state.pos <= |text|
      && o.state.mode == s.mode && o.state.stack == s.stack && o.state.seenTop == s.seenTop
      && o.state.attrs == s.attrs + [a]
      && var k := |s.nodes| - 1;
         o.state.nodes == s.nodes[k := s.nodes[k].(attrCount := s.nodes[k].attrCount + 1)]
  {
    a := XmlAttribute(NO_SPAN, NO_SPAN);
    if AttributeStep(text, tbl, s, q).Next? {
      var e := RunEnd(text, q + 1, tbl, ATTRIBUTE_NAME_NON_START, NO_STOP);
      var v := RunEnd(text, e + 2, tbl, ATTRIBUTE_VALUE, text[e + 1]);
      a := XmlAttribute(Span(q, e - q), Span(e + 2, v - (e + 2)));
      RunEndBytes(text, q + 1, tbl, ATTRIBUTE_NAME_NON_START, NO_STOP);
      RunEndBytes(text, e + 2, tbl, ATTRIBUTE_VALUE, text[e + 1]);
      assert AttributeOk(text, tbl, a);
    }
  }

  /** An attribute is appended to the attribute arena and counted by the element being opened. */
  lemma AttributeNext(text: seq<byte>, trim: bool, tbl: Table, s: State, a: XmlAttribute, s': State)
    requires Good(text, trim, tbl, s) && s.mode.InTag?
    requires AttributeOk(text, tbl, a) && s.pos <= a.name.start < s'.pos <= |text|
    requires s'.mode == s.mode && s'.stack == s.stack && s'.seenTop == s.seenTop && s'.attrs == s.attrs + [a]
    requires var k := |s.nodes| - 1; s'.nodes == s.nodes[k := s.nodes[k].(attrCount := s.nodes[k].attrCount + 1)]
    ensures Good(text, trim, tbl, s')
  {
    CountedWF(text, s, s');
    CountedOpenTag(s, a, s');
    CountedArena(text, trim, tbl, s, a, s');
    CountedTree(s, s');
  }

  lemma CountedArena(text: seq<byte>, trim: bool, tbl: Table, s: State, a: XmlAttribute, s': State)
    requires ArenaOk(text, trim, tbl, s.nodes, s.attrs) && Before(s.nodes, s.attrs, s.pos)
    requires |s.nodes| >= 1 && |s.stack| >= 1 && s.mode.InTag? && OpenTagOk(s)
    requires AttributeOk(text, tbl, a) && s.pos <= a.name.start < s'.pos
    requires s'.attrs == s.attrs + [a]
    requires var k := |s.nodes| - 1; s'.nodes == s.nodes[k := s.nodes[k].(attrCount := s.nodes[k].attrCount + 1)]
    ensures ArenaOk(text, trim, tbl, s'.nodes, s'.attrs) && Before(s'.nodes, s'.attrs, s'.pos)
  {
    assert NodeOk(text, trim, tbl, s.nodes[|s.nodes| - 1]);
    ArenaAddAttribute(text, trim, tbl, s.nodes, s.attrs, s.pos, a, s'.pos);
  }

  lemma CountedTree(s: State, s': State)
    requires TreeOk(s.nodes) && StackOk(s.nodes, s.stack) && |s.nodes| >= 1
    requires s'.stack == s.stack
    requires var k := |s.nodes| - 1; s'.nodes == s.nodes[k := s.nodes[k].(attrCount := s.nodes[k].attrCount + 1)]
    ensures TreeOk(s'.nodes) && StackOk(s'.nodes, s'.stack)
  {
    SameTreeOk(s.nodes, s'.nodes, s.stack);
  }

  /** Counting one more attribute on the newest record keeps the state well formed. */
  lemma CountedWF(text: seq<byte>, s: State, s': State)
    requires WF(text, s) && s.mode.InTag? && s'.pos <= |text|
    requires s'.mode == s.mode && s'.stack == s.stack
    requires var k := |s.nodes| - 1; s'.nodes == s.nodes[k := s.nodes[k].(attrCount := s.nodes[k].attrCount + 1)]
    ensures WF(text, s')
  {
    forall i | 0 <= i < |s'.stack| ensures FrameWF(text, s'.nodes, s'.stack[i]) {
      assert FrameWF(text, s.nodes, s.stack[i]);
    }
  }

  /** ... and keeps the newest record the element being opened, owning the newest attributes. */
  lemma CountedOpenTag(s: State, a: XmlAttribute, s': State)
    requires |s.nodes| >= 1 && |s.stack| >= 1 && s.mode.InTag? && OpenTagOk(s) && s.pos <= s'.pos
    requires s'.mode == s.mode && s'.stack == s.stack && s'.attrs == s.attrs + [a]
    requires var k := |s.nodes| - 1; s'.nodes == s.nodes[k := s.nodes[k].(attrCount := s.nodes[k].attrCount + 1)]
    ensures OpenTagOk(s')
  {
  }

  lemma TagGood(text: seq<byte>, trim: bool, tbl: Table, s: State)
    requires Good(text, trim, tbl, s) && s.mode.InTag?
    ensures var o := TagStep(text, tbl, s); o.Next? ==> Good(text, trim, tbl, o.state)
  {
    var q := RunEnd(text, s.pos, tbl, SPACE, NO_STOP);
    var o := TagStep(text, tbl, s);
    if q == |text| {
    } else if text[q] == GT {
      assert o == Next(s.(mode := Content, pos := q + 1, stack := s.stack + [Frame(|s.nodes| - 1, None, s.mode.tagPos)]));
      TagEndNext(text, trim, tbl, s, q + 1, o.state);
    } else if text[q] == SLASH {
      if o.Next? {
        assert o == Next(s.(mode := Content, pos := q + 2));
        EmptyTagNext(text, trim, tbl, s, q + 2, o.state);
      }
    } else {
      AttributeGood(text, trim, tbl, s, q);
    }
  }

  /** After '>' the element being opened becomes the innermost open element. */
  lemma TagEndNext(text: seq<byte>, trim: bool, tbl: Table, s: State, q: nat, s': State)
    requires Good(text, trim, tbl, s) && s.mode.InTag? && s.pos < q <= |text| && text[q - 1] == GT
    requires s'.mode == Content && s'.pos == q && s'.nodes == s.nodes && s'.attrs == s.attrs && s'.seenTop == s.seenTop
    requires s'.stack == s.stack + [Frame(|s.nodes| - 1, None, s.mode.tagPos)]
    ensures Good(text, trim, tbl, s')
  {
    var k := |s.nodes| - 1;
    assert s.nodes[k].parent < k;
    assert LastOk(s.nodes, k, None);
    assert WF(text, s') by {
      forall i | 0 <= i < |s'.stack| ensures FrameWF(text, s'.nodes, s'.stack[i]) {
        if i < |s.stack| {
          assert FrameWF(text, s.nodes, s.stack[i]);
        }
      }
    }
    assert Before(s'.nodes, s'.attrs, q);
    forall i, j | 0 <= i < j < |s'.stack| ensures s'.stack[i].node < s'.stack[j].node {
      if j == |s.stack| && i < |s.stack| - 1 {
        assert s.stack[i].node < Top(s).node;
      }
    }
  }

  /** After '/>' the element stays closed, with no children. */
  lemma EmptyTagNext(text: seq<byte>, trim: bool, tbl: Table, s: State, q: nat, s': State)
    requires Good(text, trim, tbl, s) && s.mode.InTag? && s.pos < q <= |text| && text[q - 1] == GT
    requires s' == s.(mode := Content, pos := q)
    ensures Good(text, trim, tbl, s')
  {
    assert WF(text, s') by {
      forall i | 0 <= i < |s'.stack| ensures FrameWF(text, s'.nodes, s'.stack[i]) {
        assert FrameWF(text, s.nodes, s.stack[i]);
      }
    }
    assert Before(s'.nodes, s'.attrs, q);
  }

  lemma StepGood(text: seq<byte>, trim: bool, tbl: Table, s: State)
    requires Good(text, trim, tbl, s)
    ensures var o := Step(text, trim, tbl, s); !o.Reject? ==> Good(text, trim, tbl, o.state)
  {
    match s.mode
    case InTag(_) => TagGood(text, trim, tbl, s);
    case Content =>
      if s.pos == |text| {
      } else if text[s.pos] == LT {
        MarkupGood(text, trim, tbl, s);
      } else {
        TextGood(text, trim, tbl, s);
      }
  }

  lemma {:induction false} RunGood(text: seq<byte>, trim: bool, tbl: Table, s: State)
    requires Good(text, trim, tbl, s)
    ensures var r := Run(text, trim, tbl, s); r.Accepted? ==> Good(text, trim, tbl, r.state)
    decreases |text| - s.pos
  {
    StepGood(text, trim, tbl, s);
    match Step(text, trim, tbl, s)
    case Next(s') => RunGood(text, trim, tbl, s');
    case Accept(_) =>
    case Reject(_) =>
  }

  /** Every document a parse accepts is well formed in the sense of DomOk. */
  lemma ParsedDomOk(text: seq<byte>, trim: bool, tbl: Table)
    ensures var r := ParseDocument(text, trim, tbl); r.Parsed? ==> DomOk(text, trim, tbl, r.dom)
  {
    if |text| > 0 {
      InitialGood(text, trim, tbl);
      RunGood(text, trim, tbl, Initial());
    }
  }
}
