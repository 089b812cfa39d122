/** The tree a parse builds, read against the text: every element record ends at a '>' that
    closes it (the '/>' of its opening tag, or a closing tag repeating its name), elements nest
    like intervals, and the parent of every record is the innermost element around it. The
    scanner keeps this as a second invariant, beside Good, over the ends of the elements it
    has closed so far. */
module Nesting {
  import opened XmlTypes
  import opened Classifier
  import opened Scan
  import opened Dom
  import opened Grammar
  import opened Properties
  import opened Tokens
  import opened Lexing

  /** The position of the '<' that opens an element record. */
  function Lt(n: Node): int {
    n.name.start as int - 1
  }

  /** The opening tag of n ends with '/>' just before e. */
  ghost predicate EmptyClose(text: seq<byte>, n: Node, e: nat)
    requires e <= |text|
  {
    n.name.End() + 2 <= e && text[e - 2] == SLASH
  }

  /** A closing tag `</name>` repeating n's name ends just before e. */
  ghost predicate EndTag(text: seq<byte>, n: Node, e: nat)
    requires n.name.End() < e <= |text|
  {
    var c := e - n.name.length - 3;
    && n.name.End() < c && text[c] == LT && text[c + 1] == SLASH
    && text[c + 2..e - 1] == NameBytes(text, n.name)
  }

  /** The element record n ends at e, just past a '>': an element with own text by a closing
      tag, after that text; one without by either form. */
  ghost predicate ClosedAt(text: seq<byte>, n: Node, e: nat) {
    && n.name.End() < e <= |text| && text[e - 1] == GT
    && if n.text.length == 0 then EmptyClose(text, n, e) || EndTag(text, n, e)
       else EndTag(text, n, e) && n.name.End() < n.text.start && n.text.End() <= e - n.name.length - 3
  }

  /** Position k lies inside element record i: after its '<' and, once it is closed, before
      its end. */
  ghost predicate Encloses(nodes: seq<Node>, ends: seq<Option<nat>>, i: nat, k: int)
    requires i < |nodes| == |ends|
  {
    nodes[i].IsTagged() && Lt(nodes[i]) < k && (ends[i].None? || k < ends[i].value)
  }

  /** Two elements are disjoint or the later one lies inside the earlier one. */
  ghost predicate Laminar(nodes: seq<Node>, ends: seq<Option<nat>>)
    requires |nodes| == |ends|
  {
    forall i, j {:trigger ends[i], ends[j]} ::
      1 <= i < j < |nodes| && nodes[i].IsTagged() && nodes[j].IsTagged() && ends[i].Some? ==>
      ends[i].value <= Lt(nodes[j]) || (ends[j].Some? && ends[j].value < ends[i].value)
  }

  /** The parent of record j is the innermost element around j's position, or the root when
      no element is around it. */
  ghost predicate Innermost(nodes: seq<Node>, ends: seq<Option<nat>>, j: nat)
    requires 1 <= j < |nodes| == |ends|
  {
    var p := nodes[j].parent;
    && p < |nodes|
    && (p == ROOT || Encloses(nodes, ends, p, Key(nodes[j])))
    && forall i :: 1 <= i < |nodes| && i != j && Encloses(nodes, ends, i, Key(nodes[j])) ==> i <= p
  }

  /** Element record i is still open: on the stack, or the element whose opening tag is read. */
  ghost predicate OpenAt(s: State, i: nat) {
    || (exists k :: 1 <= k < |s.stack| && s.stack[k].node == i)
    || (s.mode.InTag? && i == |s.nodes| - 1)
  }

  /** Element record i: closed at its end, before the scanner position, or still open. */
  ghost predicate EndKnown(text: seq<byte>, s: State, ends: seq<Option<nat>>, i: nat)
    requires i < |s.nodes| == |ends|
  {
    match ends[i]
    case Some(e) => ClosedAt(text, s.nodes[i], e) && e <= s.pos
    case None => OpenAt(s, i)
  }

  /** An open element on the stack: its name, and its own text if any, lie before the
      scanner position. */
  ghost predicate StackOpen(s: State, ends: seq<Option<nat>>, k: nat)
    requires 1 <= k < |s.stack| && |s.nodes| == |ends|
  {
    var x := s.stack[k].node;
    && x < |s.nodes| && ends[x].None? && s.nodes[x].name.End() < s.pos
    && (s.nodes[x].text.length > 0 ==> s.nodes[x].name.End() < s.nodes[x].text.start)
  }

  /** What the scanner knows about where elements end: closed ones at their end, before the
      scanner position; open ones on the stack or being opened. */
  ghost predicate EndsOk(text: seq<byte>, s: State, ends: seq<Option<nat>>) {
    && |ends| == |s.nodes| && s.pos <= |text|
    && (forall i :: 1 <= i < |s.nodes| ==> s.nodes[i].text.End() <= s.pos)
    && (forall i :: 1 <= i < |s.nodes| && s.nodes[i].IsTagged() ==> EndKnown(text, s, ends, i))
    && (forall k :: 1 <= k < |s.stack| ==> StackOpen(s, ends, k))
    && (s.mode.InTag? ==> |s.nodes| >= 2 && ends[|s.nodes| - 1].None? && s.nodes[|s.nodes| - 1].text.length == 0)
  }

  ghost predicate ParentsInnermost(nodes: seq<Node>, ends: seq<Option<nat>>)
    requires |nodes| == |ends|
  {
    forall j :: 1 <= j < |nodes| ==> Innermost(nodes, ends, j)
  }

  /** The nesting invariant of the scanner, over the ends of the elements closed so far. */
  ghost predicate Nested(text: seq<byte>, s: State, ends: seq<Option<nat>>) {
    && EndsOk(text, s, ends)
    && Laminar(s.nodes, ends)
    && ParentsInnermost(s.nodes, ends)
  }

  // ---- Elements against the tokens of the text ----

  /** The element named nm opens with a name token at a token boundary of the text: its '<'
      is not inside a comment, a processing instruction, an attribute value or a run of
      character data. */
  ghost predicate NameToken(text: seq<byte>, tbl: Table, nm: Span) {
    && 1 <= nm.start <= |text|
    && Reached(text, tbl, nm.start - 1, Between)
    && TokenAt(text, tbl, Between, nm.start - 1) == Some(Token(OpenName, nm.End()))
  }

  /** The opening tag of the element named nm ended with '>', before pos. */
  ghost predicate TagOpened(text: seq<byte>, tbl: Table, nm: Span, pos: nat) {
    && nm.End() <= |text|
    && var t := TagClose(text, tbl, nm.End());
       t.Some? && t.value.kind == TagEnd && t.value.end <= pos
  }

  /** The element named nm ends at e in the token structure of the text: at the '/>' that ends
      its own opening tag, or, when that tag ends with '>', at the end of a closing-tag token
      that starts at a token boundary after it. */
  ghost predicate EndToken(text: seq<byte>, tbl: Table, nm: Span, e: nat) {
    && nm.End() <= |text|
    && match TagClose(text, tbl, nm.End())
       case None => false
       case Some(t) =>
         if t.kind == EmptyEnd then e == t.end
         else
           var c := e - nm.length - 3;
           && t.end <= c < |text| && Reached(text, tbl, c, Between)
           && TokenAt(text, tbl, Between, c) == Some(Token(CloseTag, e))
  }

  /** Element record n, closed at e, against the tokens of the text. */
  ghost predicate ElementTokens(text: seq<byte>, tbl: Table, n: Node, e: nat) {
    NameToken(text, tbl, n.name) && EndToken(text, tbl, n.name, e)
  }

  /** The scanner against the tokens: it stands at a token boundary; each element record
      opened at one, and each closed one ends as EndToken says; the open elements' tags ended
      with '>'; and the tag being read ends where the tag of its newest record does. */
  ghost predicate Lexed(text: seq<byte>, tbl: Table, s: State, ends: seq<Option<nat>>) {
    && Reached(text, tbl, s.pos, PlaceOf(s.mode))
    && NamesOnTokens(text, tbl, s.nodes)
    && EndsOnTokens(text, tbl, s.nodes, ends)
    && OpenTagsEnded(text, tbl, s)
    && TagOnTokens(text, tbl, s)
  }

  /** Every element record opened with a name token at a boundary. */
  ghost predicate NamesOnTokens(text: seq<byte>, tbl: Table, nodes: seq<Node>) {
    forall i :: 1 <= i < |nodes| && nodes[i].IsTagged() ==> NameToken(text, tbl, nodes[i].name)
  }

  /** Every element record closed so far ends as EndToken says. */
  ghost predicate EndsOnTokens(text: seq<byte>, tbl: Table, nodes: seq<Node>, ends: seq<Option<nat>>) {
    && |ends| == |nodes|
    && forall i :: 1 <= i < |nodes| && nodes[i].IsTagged() && ends[i].Some? ==>
         EndToken(text, tbl, nodes[i].name, ends[i].value)
  }

  /** The tags of the open elements ended with '>' before the scanner position. */
  ghost predicate OpenTagsEnded(text: seq<byte>, tbl: Table, s: State) {
    forall k :: 1 <= k < |s.stack| ==>
      s.stack[k].node < |s.nodes| && TagOpened(text, tbl, s.nodes[s.stack[k].node].name, s.pos)
  }

  /** The tag being read ends where the tag of its newest record does. */
  ghost predicate TagOnTokens(text: seq<byte>, tbl: Table, s: State) {
    s.mode.InTag? ==>
      && |s.nodes| >= 2 && s.nodes[|s.nodes| - 1].name.End() <= s.pos <= |text|
      && TagClose(text, tbl, s.nodes[|s.nodes| - 1].name.End()) == TagClose(text, tbl, s.pos)
  }

  /** A parsed arena against its text: every element is closed at ends[i], where the tokens
      of the text put its end, elements nest, and every parent is the innermost element around
      its child. */
  ghost predicate NestedDom(text: seq<byte>, tbl: Table, nodes: seq<Node>, ends: seq<Option<nat>>) {
    && |ends| == |nodes|
    && (forall i :: 1 <= i < |nodes| && nodes[i].IsTagged() ==>
          && ends[i].Some? && ClosedAt(text, nodes[i], ends[i].value)
          && ElementTokens(text, tbl, nodes[i], ends[i].value))
    && Laminar(nodes, ends)
    && ParentsInnermost(nodes, ends)
  }

  ghost predicate WellNested(text: seq<byte>, tbl: Table, nodes: seq<Node>) {
    exists ends :: NestedDom(text, tbl, nodes, ends)
  }

  /** What the nesting proofs use of Good. */
  ghost predicate Shape(s: State) {
    && |s.nodes| >= 1 && |s.stack| >= 1 && s.stack[0].node == ROOT
    && (forall k :: 0 <= k < |s.stack| ==>
          s.stack[k].node < |s.nodes| && (s.stack[k].last.Some? ==> s.stack[k].last.value < |s.nodes|))
    && (forall k, l :: 0 <= k < l < |s.stack| ==> s.stack[k].node < s.stack[l].node)
    && (forall k :: 1 <= k < |s.stack| ==> s.nodes[s.stack[k].node].IsTagged())
    && (forall j :: 1 <= j < |s.nodes| ==> Key(s.nodes[j]) < s.pos && s.nodes[j].parent < j)
    && (forall j :: 1 <= j < |s.nodes| - 1 ==> Key(s.nodes[j]) < Key(s.nodes[|s.nodes| - 1]))
    && (s.mode.InTag? ==> OpenTagOk(s))
  }

  lemma GoodShape(text: seq<byte>, trim: bool, tbl: Table, s: State)
    requires Good(text, trim, tbl, s)
    ensures Shape(s)
  {
    var z := |s.nodes| - 1;
    forall j | 1 <= j < |s.nodes| ensures Key(s.nodes[j]) < s.pos {
      if j < z {
        assert Key(s.nodes[j]) < Key(s.nodes[z]);
      }
    }
    forall k | 0 <= k < |s.stack| ensures s.stack[k].last.Some? ==> s.stack[k].last.value < |s.nodes| {
      assert FrameWF(text, s.nodes, s.stack[k]);
    }
  }

  /** Records that keep their names, parents and positions. */
  ghost predicate SameMarks(a: seq<Node>, b: seq<Node>) {
    && |a| == |b|
    && forall i :: 0 <= i < |a| ==> a[i].name == b[i].name && a[i].parent == b[i].parent && Key(a[i]) == Key(b[i])
  }

  /** Nesting depends only on names, parents and positions. */
  lemma SameMarksNesting(a: seq<Node>, b: seq<Node>, ends: seq<Option<nat>>)
    requires SameMarks(a, b) && |ends| == |a|
    ensures Laminar(a, ends) ==> Laminar(b, ends)
    ensures ParentsInnermost(a, ends) ==> ParentsInnermost(b, ends)
  {
    if ParentsInnermost(a, ends) {
      forall j | 1 <= j < |b| ensures Innermost(b, ends, j) {
        assert Innermost(a, ends, j);
        forall i | 1 <= i < |a| ensures Encloses(b, ends, i, Key(b[j])) == Encloses(a, ends, i, Key(a[j])) {
        }
      }
    }
  }

  // ---- Each kind of step keeps the nesting invariant ----

  lemma InitialNested(text: seq<byte>)
    requires 0 < |text|
    ensures Nested(text, Initial(), [None])
  {
  }

  /** Steps that change neither the stack, the mode nor the names, texts and parents of the
      records, and move the position forward. */
  lemma KeepNested(text: seq<byte>, s: State, ends: seq<Option<nat>>, s': State)
    requires Nested(text, s, ends)
    requires s'.mode == s.mode && s.pos <= s'.pos <= |text| && |s'.stack| == |s.stack|
    requires forall k :: 0 <= k < |s.stack| ==> s'.stack[k].node == s.stack[k].node
    requires |s'.nodes| == |s.nodes|
    requires forall i :: 0 <= i < |s.nodes| ==>
      s'.nodes[i].name == s.nodes[i].name && s'.nodes[i].text == s.nodes[i].text && s'.nodes[i].parent == s.nodes[i].parent
    ensures Nested(text, s', ends)
  {
    KeepEnds(text, s, ends, s');
    SameMarksNesting(s.nodes, s'.nodes, ends);
  }

  lemma KeepEnds(text: seq<byte>, s: State, ends: seq<Option<nat>>, s': State)
    requires EndsOk(text, s, ends)
    requires s'.mode == s.mode && s.pos <= s'.pos <= |text| && |s'.stack| == |s.stack|
    requires forall k :: 0 <= k < |s.stack| ==> s'.stack[k].node == s.stack[k].node
    requires |s'.nodes| == |s.nodes|
    requires forall i :: 0 <= i < |s.nodes| ==>
      s'.nodes[i].name == s.nodes[i].name && s'.nodes[i].text == s.nodes[i].text && s'.nodes[i].parent == s.nodes[i].parent
    ensures EndsOk(text, s', ends)
  {
    forall i | 1 <= i < |s.nodes| && s.nodes[i].IsTagged() ensures EndKnown(text, s', ends, i) {
      assert EndKnown(text, s, ends, i);
      if ends[i].None? && !(s.mode.InTag? && i == |s.nodes| - 1) {
        var k :| 1 <= k < |s.stack| && s.stack[k].node == i;
        assert s'.stack[k].node == i;
      }
    }
    forall k | 1 <= k < |s'.stack| ensures StackOpen(s', ends, k) {
      assert StackOpen(s, ends, k);
    }
  }

  /** Own text of the innermost open element, read at positions from s.pos on. */
  lemma OwnTextNested(text: seq<byte>, s: State, ends: seq<Option<nat>>, sp: Span, q: nat)
    requires Shape(s) && Nested(text, s, ends) && s.mode == Content && |s.stack| > 1
    requires s.pos <= sp.start && sp.End() <= q <= |text|
    ensures Nested(text, s.(pos := q, nodes := s.nodes[Top(s).node := s.nodes[Top(s).node].(text := sp)]), ends)
  {
    var x := Top(s).node;
    var s' := s.(pos := q, nodes := s.nodes[x := s.nodes[x].(text := sp)]);
    assert StackOpen(s, ends, |s.stack| - 1);
    forall i | 1 <= i < |s.nodes| && s.nodes[i].IsTagged() ensures EndKnown(text, s', ends, i) {
      assert EndKnown(text, s, ends, i);
    }
    forall k | 1 <= k < |s'.stack| ensures StackOpen(s', ends, k) {
      assert StackOpen(s, ends, k);
    }
    assert SameMarks(s.nodes, s'.nodes);
    SameMarksNesting(s.nodes, s'.nodes, ends);
  }

  /** b is a with n appended, the names, texts and parents of a's records kept. */
  ghost predicate Extends(a: seq<Node>, b: seq<Node>, n: Node) {
    && |b| == |a| + 1 && b[|a|] == n
    && forall i :: 0 <= i < |a| ==> b[i].name == a[i].name && b[i].text == a[i].text && b[i].parent == a[i].parent
  }

  /** The stack t holds the same elements as the stack of s. */
  ghost predicate SameElements(s: State, t: seq<Frame>) {
    |t| == |s.stack| && forall k :: 0 <= k < |t| ==> t[k].node == s.stack[k].node
  }

  lemma AppendChildExtends(nodes: seq<Node>, p: nat, last: Option<nat>, n: Node)
    requires p < |nodes| && (last.Some? ==> last.value < |nodes|)
    ensures Extends(nodes, AppendChild(nodes, p, last, n), n)
  {
  }

  lemma SetTopLastSame(s: State, k: nat)
    requires |s.stack| >= 1
    ensures SameElements(s, SetTopLast(s.stack, k))
  {
  }

  /** A new record appended as the last child of the innermost open element, standing for a
      position from s.pos on; an element record stays open. */
  lemma AppendNested(text: seq<byte>, s: State, ends: seq<Option<nat>>, n: Node, s': State)
    requires Shape(s) && Nested(text, s, ends) && s.mode == Content
    requires n.parent == Top(s).node && s.pos <= Key(n) && n.text.End() <= s'.pos
    requires n.IsTagged() ==> n.text.length == 0 && Key(n) == s.pos + 1
    requires s.pos <= s'.pos <= |text| && SameElements(s, s'.stack) && Extends(s.nodes, s'.nodes, n)
    requires s'.mode == (if n.IsTagged() then InTag(s.pos) else Content)
    ensures Nested(text, s', ends + [None])
  {
    AppendEnds(text, s, ends, n, s');
    AppendLaminar(text, s, ends, n, s'.nodes);
    AppendOldInnermost(s.nodes, s'.nodes, ends, n, s.pos);
    AppendNewInnermost(text, s, ends, n, s'.nodes);
  }

  lemma AppendEnds(text: seq<byte>, s: State, ends: seq<Option<nat>>, n: Node, s': State)
    requires EndsOk(text, s, ends) && s.mode == Content && |s.nodes| >= 1
    requires n.IsTagged() ==> n.text.length == 0
    requires n.text.End() <= s'.pos
    requires s.pos <= s'.pos <= |text| && SameElements(s, s'.stack) && Extends(s.nodes, s'.nodes, n)
    requires s'.mode == (if n.IsTagged() then InTag(s.pos) else Content)
    ensures EndsOk(text, s', ends + [None])
  {
    var ends' := ends + [None];
    var m := |s.nodes|;
    forall i | 1 <= i < m && s'.nodes[i].IsTagged() ensures EndKnown(text, s', ends', i) {
      assert EndKnown(text, s, ends, i);
      AppendKeepsKnown(text, s, ends, n, s', i);
    }
    forall k | 1 <= k < |s'.stack| ensures StackOpen(s', ends', k) {
      assert StackOpen(s, ends, k);
    }
  }

  /** What is known about where an element ends survives appending a record. */
  lemma AppendKeepsKnown(text: seq<byte>, s: State, ends: seq<Option<nat>>, n: Node, s': State, i: nat)
    requires i < |s.nodes| == |ends| && EndKnown(text, s, ends, i)
    requires s.mode == Content && s.pos <= s'.pos && SameElements(s, s'.stack) && Extends(s.nodes, s'.nodes, n)
    ensures EndKnown(text, s', ends + [None], i)
  {
    if ends[i].None? {
      var k :| 1 <= k < |s.stack| && s.stack[k].node == i;
      assert s'.stack[k].node == i;
    }
  }

  lemma AppendLaminar(text: seq<byte>, s: State, ends: seq<Option<nat>>, n: Node, b: seq<Node>)
    requires EndsOk(text, s, ends) && Laminar(s.nodes, ends)
    requires n.IsTagged() ==> Lt(n) == s.pos
    requires Extends(s.nodes, b, n)
    ensures Laminar(b, ends + [None])
  {
    var ends' := ends + [None];
    var m := |s.nodes|;
    forall i, j | 1 <= i < j < |b| && b[i].IsTagged() && b[j].IsTagged() && ends'[i].Some?
      ensures ends'[i].value <= Lt(b[j]) || (ends'[j].Some? && ends'[j].value < ends'[i].value)
    {
      if j == m {
        assert EndKnown(text, s, ends, i);
      } else {
        assert ends[i] == ends'[i] && ends[j] == ends'[j];
      }
    }
  }

  /** The records already there keep their innermost parents: the new one comes after them. */
  lemma AppendOldInnermost(a: seq<Node>, b: seq<Node>, ends: seq<Option<nat>>, n: Node, pos: nat)
    requires |ends| == |a| && ParentsInnermost(a, ends) && Extends(a, b, n)
    requires forall j :: 1 <= j < |a| ==> Key(a[j]) < pos
    requires n.IsTagged() ==> pos <= Lt(n)
    ensures forall j :: 1 <= j < |a| ==> Innermost(b, ends + [None], j)
  {
    var ends' := ends + [None];
    var m := |a|;
    forall j | 1 <= j < m ensures Innermost(b, ends', j) {
      assert Innermost(a, ends, j);
      assert Key(b[j]) == Key(a[j]);
      forall i | 1 <= i < |b| && i != j && Encloses(b, ends', i, Key(b[j])) ensures i <= b[j].parent {
        if i < m {
          assert Encloses(a, ends, i, Key(a[j]));
        }
      }
    }
  }

  /** The new record's parent, the innermost open element, is the innermost element around
      it: the elements already closed end before it. */
  lemma AppendNewInnermost(text: seq<byte>, s: State, ends: seq<Option<nat>>, n: Node, b: seq<Node>)
    requires Shape(s) && EndsOk(text, s, ends) && s.mode == Content
    requires n.parent == Top(s).node && s.pos <= Key(n) && Extends(s.nodes, b, n)
    ensures Innermost(b, ends + [None], |s.nodes|)
  {
    var ends' := ends + [None];
    var m := |s.nodes|;
    var top := Top(s).node;
    if top != ROOT {
      assert StackOpen(s, ends, |s.stack| - 1);
      assert Encloses(b, ends', top, Key(n));
    }
    forall i | 1 <= i < |b| && i != m && Encloses(b, ends', i, Key(n)) ensures i <= top {
      assert EndKnown(text, s, ends, i);
      if ends[i].None? {
        var k :| 1 <= k < |s.stack| && s.stack[k].node == i;
        if k < |s.stack| - 1 {
          assert s.stack[k].node < s.stack[|s.stack| - 1].node;
        }
      }
    }
  }

  /** After '>' the element being opened is pushed, still open. */
  lemma TagEndNested(text: seq<byte>, s: State, ends: seq<Option<nat>>, q: nat)
    requires Shape(s) && Nested(text, s, ends) && s.mode.InTag? && s.pos <= q < |text|
    ensures Nested(text, s.(mode := Content, pos := q + 1, stack := s.stack + [Frame(|s.nodes| - 1, None, s.mode.tagPos)]), ends)
  {
    TagEndEnds(text, s, ends, q);
  }

  lemma TagEndEnds(text: seq<byte>, s: State, ends: seq<Option<nat>>, q: nat)
    requires EndsOk(text, s, ends) && s.mode.InTag? && s.pos <= q < |text|
    requires |s.stack| >= 1 && |s.nodes| >= 2 && s.nodes[|s.nodes| - 1].name.End() <= s.pos
    ensures EndsOk(text, s.(mode := Content, pos := q + 1, stack := s.stack + [Frame(|s.nodes| - 1, None, s.mode.tagPos)]), ends)
  {
    var k := |s.nodes| - 1;
    var s' := s.(mode := Content, pos := q + 1, stack := s.stack + [Frame(k, None, s.mode.tagPos)]);
    forall i | 1 <= i < |s.nodes| && s.nodes[i].IsTagged() ensures EndKnown(text, s', ends, i) {
      assert EndKnown(text, s, ends, i);
      if ends[i].None? {
        if i == k {
          assert s'.stack[|s.stack|].node == i;
        } else {
          var j :| 1 <= j < |s.stack| && s.stack[j].node == i;
          assert s'.stack[j].node == i;
        }
      }
    }
    forall j | 1 <= j < |s'.stack| ensures StackOpen(s', ends, j) {
      if j < |s.stack| {
        assert StackOpen(s, ends, j);
      }
    }
  }

  /** After '/>' the element being opened is closed there. */
  lemma EmptyTagNested(text: seq<byte>, s: State, ends: seq<Option<nat>>, q: nat)
    requires Shape(s) && Nested(text, s, ends) && s.mode.InTag? && s.pos <= q && q + 1 < |text|
    requires text[q] == SLASH && text[q + 1] == GT
    ensures Nested(text, s.(mode := Content, pos := q + 2), ends[|s.nodes| - 1 := Some(q + 2)])
  {
    EmptyTagEnds(text, s, ends, q);
    EmptyTagLaminar(text, s, ends, q);
    EmptyTagInnermost(s, ends, q + 2);
  }

  /** What is known about where any other element ends survives closing an empty tag. */
  lemma EmptyKeepsKnown(text: seq<byte>, s: State, ends: seq<Option<nat>>, q: nat, i: nat)
    requires s.mode.InTag? && |s.nodes| >= 1 && i < |s.nodes| == |ends| && s.pos <= q
    requires i != |s.nodes| - 1 && EndKnown(text, s, ends, i)
    ensures EndKnown(text, s.(mode := Content, pos := q + 2), ends[|s.nodes| - 1 := Some(q + 2)], i)
  {
    if ends[i].None? {
      var j :| 1 <= j < |s.stack| && s.stack[j].node == i;
      assert s.(mode := Content, pos := q + 2).stack[j].node == i;
    }
  }

  lemma EmptyTagEnds(text: seq<byte>, s: State, ends: seq<Option<nat>>, q: nat)
    requires Shape(s) && EndsOk(text, s, ends) && s.mode.InTag? && s.pos <= q && q + 1 < |text|
    requires text[q] == SLASH && text[q + 1] == GT
    ensures EndsOk(text, s.(mode := Content, pos := q + 2), ends[|s.nodes| - 1 := Some(q + 2)])
  {
    var k := |s.nodes| - 1;
    var s' := s.(mode := Content, pos := q + 2);
    var ends' := ends[k := Some(q + 2)];
    assert ClosedAt(text, s.nodes[k], q + 2) by {
      assert EmptyClose(text, s.nodes[k], q + 2);
    }
    forall i | 1 <= i < |s.nodes| && s.nodes[i].IsTagged() ensures EndKnown(text, s', ends', i) {
      if i != k {
        assert EndKnown(text, s, ends, i);
        EmptyKeepsKnown(text, s, ends, q, i);
      }
    }
    forall j | 1 <= j < |s'.stack| ensures StackOpen(s', ends', j) {
      assert StackOpen(s, ends, j);
      if j < |s.stack| - 1 {
        assert s.stack[j].node < Top(s).node;
      }
    }
  }

  lemma EmptyTagLaminar(text: seq<byte>, s: State, ends: seq<Option<nat>>, q: nat)
    requires Shape(s) && EndsOk(text, s, ends) && Laminar(s.nodes, ends) && s.mode.InTag?
    ensures Laminar(s.nodes, ends[|s.nodes| - 1 := Some(q + 2)])
  {
    var k := |s.nodes| - 1;
    var ends' := ends[k := Some(q + 2)];
    forall i, j | 1 <= i < j < |s.nodes| && s.nodes[i].IsTagged() && s.nodes[j].IsTagged() && ends'[i].Some?
      ensures ends'[i].value <= Lt(s.nodes[j]) || (ends'[j].Some? && ends'[j].value < ends'[i].value)
    {
      assert ends[i] == ends'[i];
    }
  }

  /** Closing the newest record leaves every parent innermost: no earlier record lies inside it. */
  lemma EmptyTagInnermost(s: State, ends: seq<Option<nat>>, e: nat)
    requires Shape(s) && |s.nodes| == |ends| && ParentsInnermost(s.nodes, ends) && s.mode.InTag?
    ensures ParentsInnermost(s.nodes, ends[|s.nodes| - 1 := Some(e)])
  {
    var k := |s.nodes| - 1;
    var ends' := ends[k := Some(e)];
    forall j | 1 <= j < |s.nodes| ensures Innermost(s.nodes, ends', j) {
      assert Innermost(s.nodes, ends, j);
      forall i | 1 <= i < |s.nodes| && i != j && Encloses(s.nodes, ends', i, Key(s.nodes[j]))
        ensures i <= s.nodes[j].parent
      {
        assert i != k;
        assert Encloses(s.nodes, ends, i, Key(s.nodes[j]));
      }
      var p := s.nodes[j].parent;
      if p != ROOT {
        assert p != k;
      }
    }
  }

  /** A closing tag closes the innermost open element at the '>' after its name. */
  lemma CloseNested(text: seq<byte>, tbl: Table, s: State, ends: seq<Option<nat>>)
    requires Shape(s) && Nested(text, s, ends) && WF(text, s) && s.mode == Content && s.pos + 1 < |text|
    requires text[s.pos] == LT && text[s.pos + 1] == SLASH
    ensures var o := CloseStep(text, tbl, s);
      o.Next? ==> |s.stack| > 1 && Nested(text, o.state, ends[Top(s).node := Some(o.state.pos)])
  {
    var o := CloseStep(text, tbl, s);
    if o.Next? {
      var x := Top(s).node;
      var e := o.state.pos;
      assert s.stack[0].node < x;
      assert StackOpen(s, ends, |s.stack| - 1);
      var n := s.nodes[x];
      assert |text[s.pos + 2..e - 1]| == |NameBytes(text, n.name)|;
      assert ClosedAt(text, n, e) by {
        assert EndTag(text, n, e);
      }
      CloseEnds(text, s, ends, o.state);
      CloseLaminar(text, s, ends, e);
      CloseInnermost(s, ends, e);
    }
  }

  lemma CloseEnds(text: seq<byte>, s: State, ends: seq<Option<nat>>, s': State)
    requires Shape(s) && EndsOk(text, s, ends) && s.mode == Content && |s.stack| > 1
    requires s'.mode == Content && s.pos < s'.pos <= |text| && s'.nodes == s.nodes
    requires s'.stack == s.stack[..|s.stack| - 1]
    requires ClosedAt(text, s.nodes[Top(s).node], s'.pos)
    ensures EndsOk(text, s', ends[Top(s).node := Some(s'.pos)])
  {
    var x := Top(s).node;
    var ends' := ends[x := Some(s'.pos)];
    forall i | 1 <= i < |s.nodes| && s.nodes[i].IsTagged() ensures EndKnown(text, s', ends', i) {
      if i != x {
        assert EndKnown(text, s, ends, i);
        CloseKeepsKnown(text, s, ends, s', i);
      }
    }
    forall j | 1 <= j < |s'.stack| ensures StackOpen(s', ends', j) {
      assert StackOpen(s, ends, j);
      assert s.stack[j].node < x;
    }
  }

  /** What is known about where any other element ends survives closing the innermost one. */
  lemma CloseKeepsKnown(text: seq<byte>, s: State, ends: seq<Option<nat>>, s': State, i: nat)
    requires |s.stack| > 1 && Top(s).node < |s.nodes| && i < |s.nodes| == |ends|
    requires i != Top(s).node && EndKnown(text, s, ends, i)
    requires s.mode == Content && s'.mode == Content && s.pos < s'.pos && s'.nodes == s.nodes
    requires s'.stack == s.stack[..|s.stack| - 1]
    ensures EndKnown(text, s', ends[Top(s).node := Some(s'.pos)], i)
  {
    if ends[i].None? {
      var j :| 1 <= j < |s.stack| && s.stack[j].node == i;
      assert s'.stack[j].node == i;
    }
  }

  lemma CloseLaminar(text: seq<byte>, s: State, ends: seq<Option<nat>>, e: nat)
    requires Shape(s) && EndsOk(text, s, ends) && Laminar(s.nodes, ends) && s.mode == Content
    requires |s.stack| > 1 && s.pos < e
    ensures Laminar(s.nodes, ends[Top(s).node := Some(e)])
  {
    var x := Top(s).node;
    var ends' := ends[x := Some(e)];
    assert StackOpen(s, ends, |s.stack| - 1);
    forall k | 0 <= k < |s.stack| ensures s.stack[k].node <= x {
      if k < |s.stack| - 1 {
        assert s.stack[k].node < x;
      }
    }
    forall i, j | 1 <= i < j < |s.nodes| && s.nodes[i].IsTagged() && s.nodes[j].IsTagged() && ends'[i].Some?
      ensures ends'[i].value <= Lt(s.nodes[j]) || (ends'[j].Some? && ends'[j].value < ends'[i].value)
    {
      if i == x {
        assert EndKnown(text, s, ends, j);
      } else if j == x {
        assert ends[i] == ends'[i];
      } else {
        assert ends[i] == ends'[i] && ends[j] == ends'[j];
      }
    }
  }

  /** Every record so far stands before the closing tag, so closing the innermost open element
      there changes no enclosure. */
  lemma CloseInnermost(s: State, ends: seq<Option<nat>>, e: nat)
    requires Shape(s) && |s.nodes| == |ends| && ParentsInnermost(s.nodes, ends) && s.pos < e
    requires ends[Top(s).node].None?
    ensures ParentsInnermost(s.nodes, ends[Top(s).node := Some(e)])
  {
    var x := Top(s).node;
    var ends' := ends[x := Some(e)];
    forall j | 1 <= j < |s.nodes| ensures Innermost(s.nodes, ends', j) {
      assert Innermost(s.nodes, ends, j);
      assert Key(s.nodes[j]) < s.pos;
      forall i | 1 <= i < |s.nodes| ensures Encloses(s.nodes, ends', i, Key(s.nodes[j])) == Encloses(s.nodes, ends, i, Key(s.nodes[j])) {
      }
    }
  }

  // ---- A '/>' inside a comment ends nothing ----

  /** `<a/><b/><!--/>-->`: the '/>' inside the comment follows a's name. */
  const STRAY_CLOSE: seq<byte> :=
    [LT, 0x61, SLASH, GT, LT, 0x62, SLASH, GT, LT, BANG, DASH, DASH, SLASH, GT, DASH, DASH, GT]

  /** The bytes alone would let a record named a end after the '/>' inside the comment; its
      tokens end it at its own '/>', so no arena that ends it there nests. */
  lemma StrayEmptyClose(tbl: Table, nodes: seq<Node>, ends: seq<Option<nat>>)
    requires !IsSpace(tbl, SLASH)
    requires 2 <= |nodes| == |ends| && nodes[1].IsTagged() && nodes[1].name == Span(1, 1) && nodes[1].text.length == 0
    requires ends[1] == Some(14)
    ensures ClosedAt(STRAY_CLOSE, nodes[1], 14)
    ensures EndToken(STRAY_CLOSE, tbl, nodes[1].name, 4) && !EndToken(STRAY_CLOSE, tbl, nodes[1].name, 14)
    ensures !NestedDom(STRAY_CLOSE, tbl, nodes, ends)
  {
    assert RunEnd(STRAY_CLOSE, 2, tbl, SPACE, NO_STOP) == 2;
    assert TagClose(STRAY_CLOSE, tbl, 2) == Some(Token(EmptyEnd, 4));
  }

  /** `<a></a><b/><!--</a>-->`: the comment repeats a's closing tag. */
  const STRAY_END_TAG: seq<byte> :=
    [LT, 0x61, GT, LT, SLASH, 0x61, GT, LT, 0x62, SLASH, GT,
     LT, BANG, DASH, DASH, LT, SLASH, 0x61, GT, DASH, DASH, GT]

  /** The bytes alone would let a record named a end after the closing tag inside the
      comment; that '<' is inside a comment token, so no arena that ends a there nests. */
  lemma StrayEndTag(tbl: Table, nodes: seq<Node>, ends: seq<Option<nat>>)
    requires Allowed(tbl, ELEMENT_NAME_START, 0x61) && Allowed(tbl, ELEMENT_NAME_START, 0x62)
    requires !Allowed(tbl, ELEMENT_NAME_NON_START, GT) && !Allowed(tbl, ELEMENT_NAME_NON_START, SLASH)
    requires !IsSpace(tbl, GT) && !IsSpace(tbl, SLASH)
    requires 2 <= |nodes| == |ends| && nodes[1].IsTagged() && nodes[1].name == Span(1, 1) && nodes[1].text.length == 0
    requires ends[1] == Some(19)
    ensures ClosedAt(STRAY_END_TAG, nodes[1], 19)
    ensures !EndToken(STRAY_END_TAG, tbl, nodes[1].name, 19)
    ensures !NestedDom(STRAY_END_TAG, tbl, nodes, ends)
  {
    var text := STRAY_END_TAG;
    StrayTokens(tbl);
    assert TagClose(text, tbl, 2) == Some(Token(TagEnd, 3));
    assert NameBytes(text, nodes[1].name) == [0x61];
    assert text[17..18] == [0x61];
    StrayPrefix(tbl);
    StrayComment(tbl);
    TokensDisjoint(text, tbl, 11, Between, 15, Between);
  }

  /** The tokens of `<a></a><b/>` lead to the comment. */
  lemma StrayPrefix(tbl: Table)
    requires Allowed(tbl, ELEMENT_NAME_START, 0x61) && Allowed(tbl, ELEMENT_NAME_START, 0x62)
    requires !Allowed(tbl, ELEMENT_NAME_NON_START, GT) && !Allowed(tbl, ELEMENT_NAME_NON_START, SLASH)
    requires !IsSpace(tbl, GT) && !IsSpace(tbl, SLASH)
    ensures Reached(STRAY_END_TAG, tbl, 11, Between)
  {
    var text := STRAY_END_TAG;
    StrayTokens(tbl);
    ReachesNext(text, tbl, 0, Between, 0, Between);
    ReachesNext(text, tbl, 0, Between, 2, Inside);
    ReachesNext(text, tbl, 0, Between, 3, Between);
    ReachesNext(text, tbl, 0, Between, 7, Between);
    ReachesNext(text, tbl, 0, Between, 9, Inside);
  }

  /** `<a`, `>`, `</a>`, `<b` and `/>`. */
  lemma StrayTokens(tbl: Table)
    requires Allowed(tbl, ELEMENT_NAME_START, 0x61) && Allowed(tbl, ELEMENT_NAME_START, 0x62)
    requires !Allowed(tbl, ELEMENT_NAME_NON_START, GT) && !Allowed(tbl, ELEMENT_NAME_NON_START, SLASH)
    requires !IsSpace(tbl, GT) && !IsSpace(tbl, SLASH)
    ensures TokenAt(STRAY_END_TAG, tbl, Between, 0) == Some(Token(OpenName, 2))
    ensures TokenAt(STRAY_END_TAG, tbl, Inside, 2) == Some(Token(TagEnd, 3))
    ensures TokenAt(STRAY_END_TAG, tbl, Between, 3) == Some(Token(CloseTag, 7))
    ensures TokenAt(STRAY_END_TAG, tbl, Between, 7) == Some(Token(OpenName, 9))
    ensures TokenAt(STRAY_END_TAG, tbl, Inside, 9) == Some(Token(EmptyEnd, 11))
  {
    var text := STRAY_END_TAG;
    assert RunEnd(text, 2, tbl, SPACE, NO_STOP) == 2 && RunEnd(text, 9, tbl, SPACE, NO_STOP) == 9;
    assert RunEnd(text, 2, tbl, ELEMENT_NAME_NON_START, NO_STOP) == 2;
    assert RunEnd(text, 6, tbl, ELEMENT_NAME_NON_START, NO_STOP) == 6;
    assert RunEnd(text, 9, tbl, ELEMENT_NAME_NON_START, NO_STOP) == 9;
  }

  /** The comment runs to the end of the text, over the closing tag inside it. */
  lemma StrayComment(tbl: Table)
    ensures TokenAt(STRAY_END_TAG, tbl, Between, 11) == Some(Token(Comment, 22))
  {
    var text := STRAY_END_TAG;
    assert text[19..22] == COMMENT_MARK;
    assert text[18..21] != COMMENT_MARK by { assert text[18..21][0] == text[18]; }
    assert text[17..20] != COMMENT_MARK by { assert text[17..20][0] == text[17]; }
    assert text[16..19] != COMMENT_MARK by { assert text[16..19][0] == text[16]; }
    assert text[15..18] != COMMENT_MARK by { assert text[15..18][0] == text[15]; }
    assert Find(text, 19, COMMENT_MARK) == Some(19);
    assert Find(text, 18, COMMENT_MARK) == Some(19);
    assert Find(text, 17, COMMENT_MARK) == Some(19);
    assert Find(text, 16, COMMENT_MARK) == Some(19);
    assert Find(text, 15, COMMENT_MARK) == Some(19);
  }

  // ---- Each kind of step keeps the scanner on the tokens ----

  lemma InitialLexed(text: seq<byte>, tbl: Table)
    requires 0 < |text|
    ensures Lexed(text, tbl, Initial(), [None])
  {
  }

  /** A step to the next boundary that opens and closes no element keeps the names of the
      records and the open elements, and adds only text records. */
  lemma StepLexed(text: seq<byte>, tbl: Table, s: State, ends: seq<Option<nat>>, s': State, ends': seq<Option<nat>>)
    requires Lexed(text, tbl, s, ends) && s.pos <= s'.pos <= |text| && Reached(text, tbl, s'.pos, PlaceOf(s'.mode))
    requires SameElements(s, s'.stack)
    requires |s.nodes| <= |s'.nodes| == |ends'| && ends'[..|s.nodes|] == ends
    requires forall i :: 0 <= i < |s.nodes| ==> s'.nodes[i].name == s.nodes[i].name
    requires forall i :: |s.nodes| <= i < |s'.nodes| ==> !s'.nodes[i].IsTagged()
    requires s'.mode.InTag? ==> s.mode.InTag? && |s'.nodes| == |s.nodes| && TagClose(text, tbl, s.pos) == TagClose(text, tbl, s'.pos)
    ensures Lexed(text, tbl, s', ends')
  {
    KeptNames(text, tbl, s.nodes, s'.nodes);
    KeptEndsStack(text, tbl, s, ends, s', ends');
    KeptTag(text, tbl, s, s');
  }

  /** A step inside a tag that leaves the tag where it ends keeps it the newest record's. */
  lemma KeptTag(text: seq<byte>, tbl: Table, s: State, s': State)
    requires TagOnTokens(text, tbl, s) && s.pos <= s'.pos <= |text| && |s.nodes| <= |s'.nodes|
    requires forall i :: 0 <= i < |s.nodes| ==> s'.nodes[i].name == s.nodes[i].name
    requires s'.mode.InTag? ==> s.mode.InTag? && |s'.nodes| == |s.nodes| && TagClose(text, tbl, s.pos) == TagClose(text, tbl, s'.pos)
    ensures TagOnTokens(text, tbl, s')
  {
    if s'.mode.InTag? {
      var a := s.nodes[|s.nodes| - 1].name.End();
      assert s'.nodes[|s'.nodes| - 1].name.End() == a;
      SameTagClose(text, tbl, a, s.pos, s'.pos);
    }
  }

  /** The boundary after the token at a boundary. */
  lemma NextReached(text: seq<byte>, tbl: Table, p: nat, pl: Place, t: Token)
    requires Reached(text, tbl, p, pl) && p < |text| && TokenAt(text, tbl, pl, p) == Some(t)
    ensures Reached(text, tbl, t.end, After(t.kind))
  {
    ReachesNext(text, tbl, 0, Between, p, pl);
  }

  /** The tag a step keeps ends where it did. */
  lemma {:induction false} SameTagClose(text: seq<byte>, tbl: Table, a: nat, b: nat, c: nat)
    requires a <= |text| && b <= |text| && c <= |text|
    requires TagClose(text, tbl, a) == TagClose(text, tbl, b) && TagClose(text, tbl, b) == TagClose(text, tbl, c)
    ensures TagClose(text, tbl, a) == TagClose(text, tbl, c)
  {
  }

  /** Records added with their own name tokens keep every record's name token. */
  lemma KeptNames(text: seq<byte>, tbl: Table, a: seq<Node>, b: seq<Node>)
    requires |a| <= |b| && forall i :: 0 <= i < |a| ==> b[i].name == a[i].name
    requires NamesOnTokens(text, tbl, a)
    requires forall i :: |a| <= i < |b| && b[i].IsTagged() ==> NameToken(text, tbl, b[i].name)
    ensures NamesOnTokens(text, tbl, b)
  {
    forall i | 1 <= i < |b| && b[i].IsTagged() ensures NameToken(text, tbl, b[i].name) {
      if i < |a| {
        assert b[i].name == a[i].name;
      }
    }
  }

  /** A step that keeps the names, the ends and the open elements, and adds no closed element,
      keeps the ends and the tags of the open elements on the tokens. */
  lemma KeptEndsStack(text: seq<byte>, tbl: Table, s: State, ends: seq<Option<nat>>, s': State, ends': seq<Option<nat>>)
    requires |ends| == |s.nodes| <= |s'.nodes| == |ends'| && ends'[..|s.nodes|] == ends && s.pos <= s'.pos
    requires forall i :: 0 <= i < |s.nodes| ==> s'.nodes[i].name == s.nodes[i].name
    requires forall i :: |s.nodes| <= i < |s'.nodes| ==> ends'[i].None? || !s'.nodes[i].IsTagged()
    requires SameElements(s, s'.stack)
    requires EndsOnTokens(text, tbl, s.nodes, ends) && OpenTagsEnded(text, tbl, s)
    ensures EndsOnTokens(text, tbl, s'.nodes, ends') && OpenTagsEnded(text, tbl, s')
  {
    forall i | 1 <= i < |s'.nodes| && s'.nodes[i].IsTagged() && ends'[i].Some?
      ensures EndToken(text, tbl, s'.nodes[i].name, ends'[i].value)
    {
      assert i < |s.nodes| && ends'[i] == ends[i] && s'.nodes[i].name == s.nodes[i].name;
    }
    forall k | 1 <= k < |s'.stack|
      ensures s'.stack[k].node < |s'.nodes| && TagOpened(text, tbl, s'.nodes[s'.stack[k].node].name, s'.pos)
    {
      assert s'.stack[k].node == s.stack[k].node;
      assert s'.nodes[s.stack[k].node].name == s.nodes[s.stack[k].node].name;
    }
  }

  /** An attribute is one token inside the tag, which then ends where it did before. */
  lemma AttributeLexed(text: seq<byte>, tbl: Table, s: State, ends: seq<Option<nat>>, s': State)
    requires Lexed(text, tbl, s, ends) && s.mode.InTag? && s.pos < |text|
    requires TokenAt(text, tbl, Inside, s.pos) == Some(Token(Attribute, s'.pos))
    requires s'.mode == s.mode && s'.stack == s.stack && |s'.nodes| == |s.nodes|
    requires forall i :: 0 <= i < |s.nodes| ==> s'.nodes[i].name == s.nodes[i].name
    ensures Lexed(text, tbl, s', ends)
  {
    assert ends[..|s.nodes|] == ends;
    NextReached(text, tbl, s.pos, Inside, Token(Attribute, s'.pos));
    StepLexed(text, tbl, s, ends, s', ends);
  }

  /** The '>' of an opening tag: the element being opened is pushed, its tag ended by '>'. */
  lemma TagEndLexed(text: seq<byte>, tbl: Table, s: State, ends: seq<Option<nat>>, e: nat)
    requires Lexed(text, tbl, s, ends) && s.mode.InTag? && s.pos < |text|
    requires TokenAt(text, tbl, Inside, s.pos) == Some(Token(TagEnd, e))
    ensures Lexed(text, tbl, s.(mode := Content, pos := e, stack := s.stack + [Frame(|s.nodes| - 1, None, s.mode.tagPos)]), ends)
  {
    var s' := s.(mode := Content, pos := e, stack := s.stack + [Frame(|s.nodes| - 1, None, s.mode.tagPos)]);
    var nm := s.nodes[|s.nodes| - 1].name;
    ReachesNext(text, tbl, 0, Between, s.pos, Inside);
    TagCloseHere(text, tbl, nm.End(), s.pos, Token(TagEnd, e));
    PushedStack(text, tbl, s, s');
  }

  /** The token read inside a tag that is not an attribute ends the tag, for whichever name or
      attribute the tag's end was first sought from. */
  lemma TagCloseHere(text: seq<byte>, tbl: Table, a: nat, p: nat, t: Token)
    requires a <= p < |text| && TagClose(text, tbl, a) == TagClose(text, tbl, p)
    requires TokenAt(text, tbl, Inside, p) == Some(t) && t.kind != Attribute
    ensures TagClose(text, tbl, a) == Some(t)
  {
  }

  /** Pushing the element whose tag just ended with '>' keeps the open elements' tags. */
  lemma PushedStack(text: seq<byte>, tbl: Table, s: State, s': State)
    requires 1 <= |s.nodes| && s'.nodes == s.nodes && s.pos <= s'.pos
    requires |s'.stack| == |s.stack| + 1 && s'.stack[..|s.stack|] == s.stack && s'.stack[|s.stack|].node == |s.nodes| - 1
    requires TagOpened(text, tbl, s.nodes[|s.nodes| - 1].name, s'.pos)
    requires OpenTagsEnded(text, tbl, s)
    ensures OpenTagsEnded(text, tbl, s')
  {
    forall k | 1 <= k < |s'.stack|
      ensures s'.stack[k].node < |s'.nodes| && TagOpened(text, tbl, s'.nodes[s'.stack[k].node].name, s'.pos)
    {
      if k < |s.stack| {
        assert s'.stack[k] == s.stack[k];
      }
    }
  }

  /** The '/>' of an opening tag closes the element being opened there. */
  lemma EmptyTagLexed(text: seq<byte>, tbl: Table, s: State, ends: seq<Option<nat>>, e: nat)
    requires Lexed(text, tbl, s, ends) && s.mode.InTag? && s.pos < |text|
    requires TokenAt(text, tbl, Inside, s.pos) == Some(Token(EmptyEnd, e))
    ensures Lexed(text, tbl, s.(mode := Content, pos := e), ends[|s.nodes| - 1 := Some(e)])
  {
    var k := |s.nodes| - 1;
    EmptyTagToken(text, tbl, s, e);
    ClosedEndsStack(text, tbl, s, ends, s.(mode := Content, pos := e), k);
  }

  /** The '/>' read inside the newest record's tag is a boundary and ends that record. */
  lemma EmptyTagToken(text: seq<byte>, tbl: Table, s: State, e: nat)
    requires Reached(text, tbl, s.pos, Inside) && s.pos < |text|
    requires |s.nodes| >= 2 && s.nodes[|s.nodes| - 1].name.End() <= s.pos
    requires TagClose(text, tbl, s.nodes[|s.nodes| - 1].name.End()) == TagClose(text, tbl, s.pos)
    requires TokenAt(text, tbl, Inside, s.pos) == Some(Token(EmptyEnd, e))
    ensures Reached(text, tbl, e, Between) && EndToken(text, tbl, s.nodes[|s.nodes| - 1].name, e)
  {
    var nm := s.nodes[|s.nodes| - 1].name;
    ReachesNext(text, tbl, 0, Between, s.pos, Inside);
    TagCloseHere(text, tbl, nm.End(), s.pos, Token(EmptyEnd, e));
  }

  /** Closing record x at the new position, with the open elements kept or the innermost popped,
      keeps the ends and the open elements' tags on the tokens. */
  lemma ClosedEndsStack(text: seq<byte>, tbl: Table, s: State, ends: seq<Option<nat>>, s': State, x: nat)
    requires |ends| == |s.nodes| && x < |s.nodes| && s'.nodes == s.nodes && s.pos <= s'.pos
    requires |s'.stack| <= |s.stack| && s'.stack == s.stack[..|s'.stack|]
    requires EndToken(text, tbl, s.nodes[x].name, s'.pos)
    requires EndsOnTokens(text, tbl, s.nodes, ends) && OpenTagsEnded(text, tbl, s)
    ensures EndsOnTokens(text, tbl, s'.nodes, ends[x := Some(s'.pos)]) && OpenTagsEnded(text, tbl, s')
  {
    var ends' := ends[x := Some(s'.pos)];
    forall i | 1 <= i < |s'.nodes| && s'.nodes[i].IsTagged() && ends'[i].Some?
      ensures EndToken(text, tbl, s'.nodes[i].name, ends'[i].value)
    {
      if i != x {
        assert ends'[i] == ends[i];
      }
    }
    forall k | 1 <= k < |s'.stack|
      ensures s'.stack[k].node < |s'.nodes| && TagOpened(text, tbl, s'.nodes[s'.stack[k].node].name, s'.pos)
    {
      assert s'.stack[k] == s.stack[k];
    }
  }

  /** A closing tag that closes the innermost open element is one closing-tag token at its '<',
      as long as that element's name and the three bytes `</` and `>`. */
  lemma ClosingToken(text: seq<byte>, tbl: Table, s: State)
    requires WF(text, s) && s.mode == Content && s.pos + 1 < |text| && text[s.pos] == LT && text[s.pos + 1] == SLASH
    ensures var o := CloseStep(text, tbl, s);
      o.Next? ==>
        && |s.stack| > 1 && o.state == s.(pos := o.state.pos, stack := s.stack[..|s.stack| - 1])
        && TokenAt(text, tbl, Between, s.pos) == Some(Token(CloseTag, o.state.pos))
        && s.pos == o.state.pos - s.nodes[Top(s).node].name.length - 3
  {
    var o := CloseStep(text, tbl, s);
    CloseToken(text, tbl, s);
    if o.Next? {
      assert |text[s.pos + 2..o.state.pos - 1]| == |NameBytes(text, s.nodes[Top(s).node].name)|;
    }
  }

  /** The closing-tag token at the scanner's boundary ends the innermost open element. */
  lemma ClosedLexed(text: seq<byte>, tbl: Table, s: State, ends: seq<Option<nat>>, e: nat)
    requires Shape(s) && Lexed(text, tbl, s, ends) && s.mode == Content && |s.stack| > 1 && s.pos < |text|
    requires TokenAt(text, tbl, Between, s.pos) == Some(Token(CloseTag, e))
    requires s.pos == e - s.nodes[Top(s).node].name.length - 3
    ensures Lexed(text, tbl, s.(pos := e, stack := s.stack[..|s.stack| - 1]), ends[Top(s).node := Some(e)])
  {
    var nm := s.nodes[Top(s).node].name;
    assert TagOpened(text, tbl, nm, s.pos);
    CloseTagToken(text, tbl, nm, s.pos, e);
    ClosedEndsStack(text, tbl, s, ends, s.(pos := e, stack := s.stack[..|s.stack| - 1]), Top(s).node);
  }

  /** A closing-tag token read after the '>' of nm's opening tag is a boundary and ends nm. */
  lemma CloseTagToken(text: seq<byte>, tbl: Table, nm: Span, p: nat, e: nat)
    requires Reached(text, tbl, p, Between) && p < |text| && TagOpened(text, tbl, nm, p)
    requires TokenAt(text, tbl, Between, p) == Some(Token(CloseTag, e)) && p == e - nm.length - 3
    ensures Reached(text, tbl, e, Between) && EndToken(text, tbl, nm, e)
  {
    ReachesNext(text, tbl, 0, Between, p, Between);
  }

  /** The name token at the scanner's boundary opens an element record, and the tag read from
      the end of its name is that record's. */
  lemma OpenedLexed(text: seq<byte>, tbl: Table, s: State, ends: seq<Option<nat>>, e: nat, s': State)
    requires Lexed(text, tbl, s, ends) && s.mode == Content && s.pos < |text| && 1 <= |s.nodes|
    requires TokenAt(text, tbl, Between, s.pos) == Some(Token(OpenName, e))
    requires |s'.nodes| == |s.nodes| + 1 && s'.pos == e && s'.mode == InTag(s.pos)
    requires s'.nodes[|s.nodes|].name.start == s.pos + 1 && s'.nodes[|s.nodes|].name.End() == e
    requires forall i :: 0 <= i < |s.nodes| ==> s'.nodes[i].name == s.nodes[i].name
    requires SameElements(s, s'.stack)
    ensures Lexed(text, tbl, s', ends + [None])
  {
    NameTokenHere(text, tbl, s.pos, s'.nodes[|s.nodes|].name);
    KeptNames(text, tbl, s.nodes, s'.nodes);
    assert (ends + [None])[..|s.nodes|] == ends;
    KeptEndsStack(text, tbl, s, ends, s', ends + [None]);
  }

  /** The name token at a boundary is the name of the record it opens, and the tag goes on
      after it. */
  lemma NameTokenHere(text: seq<byte>, tbl: Table, p: nat, nm: Span)
    requires Reached(text, tbl, p, Between) && p < |text|
    requires TokenAt(text, tbl, Between, p) == Some(Token(OpenName, nm.End())) && nm.start == p + 1
    ensures NameToken(text, tbl, nm) && Reached(text, tbl, nm.End(), Inside)
  {
    ReachesNext(text, tbl, 0, Between, p, Between);
  }

  /** The ends after a step from s to s': a new record is open; the '/>' of a tag closes the
      newest record, a closing tag the innermost open element, at the new position. */
  ghost function NewEnds(s: State, ends: seq<Option<nat>>, s': State): seq<Option<nat>> {
    if |s'.nodes| > |s.nodes| then ends + [None]
    else if s.mode.InTag? && s'.mode == Content && |s'.stack| == |s.stack| && 1 <= |s.nodes| == |ends| then
      ends[|s.nodes| - 1 := Some(s'.pos)]
    else if s.mode == Content && 1 < |s.stack| && |s'.stack| < |s.stack| && Top(s).node < |ends| then
      ends[Top(s).node := Some(s'.pos)]
    else ends
  }

  /** What reading token t at the scanner position does to the state s, giving s'. */
  ghost predicate Effect(s: State, t: Token, s': State) {
    && s'.pos == t.end
    && match t.kind
       case Chars =>
         && s'.mode == Content && SameElements(s, s'.stack) && |s.nodes| <= |s'.nodes| <= |s.nodes| + 1
         && (forall i :: 0 <= i < |s.nodes| ==> s'.nodes[i].name == s.nodes[i].name)
         && (forall i :: |s.nodes| <= i < |s'.nodes| ==> !s'.nodes[i].IsTagged())
       case Instruction => s' == s.(pos := t.end)
       case Comment => s' == s.(pos := t.end)
       case CloseTag =>
         && |s.stack| > 1 && Top(s).node < |s.nodes| && s' == s.(pos := t.end, stack := s.stack[..|s.stack| - 1])
         && s.pos == t.end - s.nodes[Top(s).node].name.length - 3
       case OpenName =>
         && |s'.nodes| == |s.nodes| + 1 && s'.mode == InTag(s.pos) && SameElements(s, s'.stack)
         && s'.nodes[|s.nodes|].name.start == s.pos + 1 && s'.nodes[|s.nodes|].name.End() == t.end
         && (forall i :: 0 <= i < |s.nodes| ==> s'.nodes[i].name == s.nodes[i].name)
       case Attribute =>
         && s'.mode == s.mode && s'.stack == s.stack && |s'.nodes| == |s.nodes|
         && (forall i :: 0 <= i < |s.nodes| ==> s'.nodes[i].name == s.nodes[i].name)
       case TagEnd =>
         s.mode.InTag? && |s.nodes| >= 1 && s' == s.(mode := Content, pos := t.end, stack := s.stack + [Frame(|s.nodes| - 1, None, s.mode.tagPos)])
       case EmptyEnd => s' == s.(mode := Content, pos := t.end)
  }

  /** Reading a token keeps the scanner on the tokens. */
  lemma TokenLexed(text: seq<byte>, tbl: Table, s: State, ends: seq<Option<nat>>, t: Token, s': State)
    requires Shape(s) && Lexed(text, tbl, s, ends) && s.pos < |text|
    requires TokenAt(text, tbl, PlaceOf(s.mode), s.pos) == Some(t) && Effect(s, t, s')
    ensures Lexed(text, tbl, s', NewEnds(s, ends, s'))
  {
    if t.kind.InTag() {
      InsideLexed(text, tbl, s, ends, t, s');
    } else if t.kind == OpenName {
      NameLexed(text, tbl, s, ends, t, s');
    } else if t.kind == CloseTag {
      ClosingLexed(text, tbl, s, ends, t, s');
    } else {
      OutsideLexed(text, tbl, s, ends, t, s');
    }
  }

  /** Character data, a processing instruction or a comment. */
  lemma OutsideLexed(text: seq<byte>, tbl: Table, s: State, ends: seq<Option<nat>>, t: Token, s': State)
    requires Shape(s) && Lexed(text, tbl, s, ends) && s.pos < |text|
    requires TokenAt(text, tbl, PlaceOf(s.mode), s.pos) == Some(t) && Effect(s, t, s')
    requires t.kind == Chars || t.kind == Instruction || t.kind == Comment
    ensures Lexed(text, tbl, s', NewEnds(s, ends, s'))
  {
    var ends' := NewEnds(s, ends, s');
    assert ends'[..|s.nodes|] == ends;
    NextReached(text, tbl, s.pos, Between, t);
    StepLexed(text, tbl, s, ends, s', ends');
  }

  /** An attribute, or the end of an opening tag. */
  lemma InsideLexed(text: seq<byte>, tbl: Table, s: State, ends: seq<Option<nat>>, t: Token, s': State)
    requires Shape(s) && Lexed(text, tbl, s, ends) && s.pos < |text|
    requires TokenAt(text, tbl, PlaceOf(s.mode), s.pos) == Some(t) && Effect(s, t, s')
    requires t.kind.InTag()
    ensures Lexed(text, tbl, s', NewEnds(s, ends, s'))
  {
    if t.kind == Attribute {
      AttributeLexed(text, tbl, s, ends, s');
    } else if t.kind == TagEnd {
      TagEndLexed(text, tbl, s, ends, t.end);
    } else {
      EmptyTagLexed(text, tbl, s, ends, t.end);
    }
  }

  /** The name of an opening tag. */
  lemma NameLexed(text: seq<byte>, tbl: Table, s: State, ends: seq<Option<nat>>, t: Token, s': State)
    requires Shape(s) && Lexed(text, tbl, s, ends) && s.pos < |text|
    requires TokenAt(text, tbl, PlaceOf(s.mode), s.pos) == Some(t) && Effect(s, t, s')
    requires t.kind == OpenName
    ensures Lexed(text, tbl, s', NewEnds(s, ends, s'))
  {
    OpenedLexed(text, tbl, s, ends, t.end, s');
  }

  /** A closing tag. */
  lemma ClosingLexed(text: seq<byte>, tbl: Table, s: State, ends: seq<Option<nat>>, t: Token, s': State)
    requires Shape(s) && Lexed(text, tbl, s, ends) && s.pos < |text|
    requires TokenAt(text, tbl, PlaceOf(s.mode), s.pos) == Some(t) && Effect(s, t, s')
    requires t.kind == CloseTag
    ensures Lexed(text, tbl, s', NewEnds(s, ends, s'))
  {
    ClosedLexed(text, tbl, s, ends, t.end);
  }

  /** Inside an opening tag, each step reads its token with its effect. */
  lemma TagEffect(text: seq<byte>, tbl: Table, s: State)
    requires WF(text, s) && s.mode.InTag?
    ensures var o := TagStep(text, tbl, s);
      o.Next? ==> s.pos < |text| && TokenAt(text, tbl, Inside, s.pos).Some? && Effect(s, TokenAt(text, tbl, Inside, s.pos).value, o.state)
  {
    var o := TagStep(text, tbl, s);
    var q := RunEnd(text, s.pos, tbl, SPACE, NO_STOP);
    TagToken(text, tbl, s);
    if o.Next? && q < |text| && text[q] != GT && text[q] != SLASH {
      assert o == AttributeStep(text, tbl, s, q);
      AttributeKeeps(text, tbl, s, q);
    }
  }

  /** Markup steps read their token with its effect. */
  lemma MarkupEffect(text: seq<byte>, tbl: Table, s: State)
    requires WF(text, s) && s.mode == Content && s.pos < |text| && text[s.pos] == LT
    ensures var o := MarkupStep(text, tbl, s);
      o.Next? ==> TokenAt(text, tbl, Between, s.pos).Some? && Effect(s, TokenAt(text, tbl, Between, s.pos).value, o.state)
  {
    var p := s.pos;
    var o := MarkupStep(text, tbl, s);
    if p + 1 == |text| {
    } else if text[p + 1] == QUESTION || text[p + 1] == BANG {
      assert o == SkipStep(text, s);
      SkipToken(text, tbl, s);
    } else if text[p + 1] == SLASH {
      assert o == CloseStep(text, tbl, s);
      ClosingToken(text, tbl, s);
    } else {
      assert o == OpenStep(text, tbl, s);
      OpenToken(text, tbl, s);
      OpenedElement(text, tbl, s);
    }
  }

  /** Character data reads its token with its effect. */
  lemma TextEffect(text: seq<byte>, trim: bool, tbl: Table, s: State)
    requires WF(text, s) && s.mode == Content && s.pos < |text| && text[s.pos] != LT
    ensures var o := TextStep(text, trim, tbl, s);
      o.Next? ==> TokenAt(text, tbl, Between, s.pos).Some? && Effect(s, TokenAt(text, tbl, Between, s.pos).value, o.state)
  {
    TextToken(text, trim, tbl, s);
    TextKeeps(text, trim, tbl, s);
  }

  /** Every step that does not fail reads the token at its position, with its effect. */
  lemma StepEffect(text: seq<byte>, trim: bool, tbl: Table, s: State)
    requires WF(text, s)
    ensures var o := Step(text, trim, tbl, s);
      o.Next? ==> s.pos < |text| && TokenAt(text, tbl, PlaceOf(s.mode), s.pos).Some? &&
                  Effect(s, TokenAt(text, tbl, PlaceOf(s.mode), s.pos).value, o.state)
  {
    match s.mode
    case InTag(_) =>
      TagEffect(text, tbl, s);
    case Content =>
      if s.pos == |text| {
      } else if text[s.pos] == LT {
        MarkupEffect(text, tbl, s);
      } else {
        TextEffect(text, trim, tbl, s);
      }
  }

  /** Every step that does not fail keeps the scanner on the tokens. */
  lemma StepLexedAll(text: seq<byte>, trim: bool, tbl: Table, s: State, ends: seq<Option<nat>>)
    requires WF(text, s) && Shape(s) && Lexed(text, tbl, s, ends)
    ensures var o := Step(text, trim, tbl, s); o.Next? ==> Lexed(text, tbl, o.state, NewEnds(s, ends, o.state))
  {
    StepEffect(text, trim, tbl, s);
    var o := Step(text, trim, tbl, s);
    if o.Next? {
      TokenLexed(text, tbl, s, ends, TokenAt(text, tbl, PlaceOf(s.mode), s.pos).value, o.state);
    }
  }

  // ---- The whole parse ----

  /** One step keeps the nesting invariant and the scanner on the tokens. */
  lemma StepNested(text: seq<byte>, trim: bool, tbl: Table, s: State, ends: seq<Option<nat>>) returns (ends': seq<Option<nat>>)
    requires Good(text, trim, tbl, s) && Nested(text, s, ends) && Lexed(text, tbl, s, ends)
    ensures var o := Step(text, trim, tbl, s); !o.Reject? ==> Nested(text, o.state, ends') && Lexed(text, tbl, o.state, ends')
  {
    GoodShape(text, trim, tbl, s);
    ends' := StepKeepsNested(text, trim, tbl, s, ends);
    StepLexedAll(text, trim, tbl, s, ends);
  }

  /** One step keeps the nesting invariant, with the ends that NewEnds gives. */
  lemma StepKeepsNested(text: seq<byte>, trim: bool, tbl: Table, s: State, ends: seq<Option<nat>>) returns (ends': seq<Option<nat>>)
    requires Good(text, trim, tbl, s) && Shape(s) && Nested(text, s, ends)
    ensures var o := Step(text, trim, tbl, s);
      && (o.Next? ==> Nested(text, o.state, ends') && ends' == NewEnds(s, ends, o.state))
      && (o.Accept? ==> o.state == s && ends' == ends)
  {
    ends' := ends;
    match s.mode
    case InTag(tp) =>
      ends' := TagNested(text, tbl, s, ends);
    case Content =>
      if s.pos == |text| {
      } else if text[s.pos] == LT {
        ends' := MarkupNested(text, tbl, s, ends);
      } else {
        ends' := TextNested(text, trim, tbl, s, ends);
      }
  }

  lemma TagNested(text: seq<byte>, tbl: Table, s: State, ends: seq<Option<nat>>) returns (ends': seq<Option<nat>>)
    requires WF(text, s) && Shape(s) && Nested(text, s, ends) && s.mode.InTag?
    ensures var o := TagStep(text, tbl, s); o.Next? ==> Nested(text, o.state, ends') && ends' == NewEnds(s, ends, o.state)
  {
    ends' := ends;
    var o := TagStep(text, tbl, s);
    var q := RunEnd(text, s.pos, tbl, SPACE, NO_STOP);
    if q == |text| {
    } else if text[q] == GT {
      assert o == Next(s.(mode := Content, pos := q + 1, stack := s.stack + [Frame(|s.nodes| - 1, None, s.mode.tagPos)]));
      TagEndNested(text, s, ends, q);
    } else if text[q] == SLASH {
      if o.Next? {
        assert o == Next(s.(mode := Content, pos := q + 2));
        ends' := ends[|s.nodes| - 1 := Some(q + 2)];
        EmptyTagNested(text, s, ends, q);
      }
    } else if o.Next? {
      assert o == AttributeStep(text, tbl, s, q);
      AttributeKeeps(text, tbl, s, q);
      KeepNested(text, s, ends, o.state);
    }
  }

  /** An attribute only moves the position and counts the attribute on the newest record. */
  lemma AttributeKeeps(text: seq<byte>, tbl: Table, s: State, q: nat)
    requires WF(text, s) && s.mode.InTag? && s.pos <= q < |text|
    ensures var o := AttributeStep(text, tbl, s, q); o.Next? ==>
      && o.state.mode == s.mode && s.pos <= o.state.pos <= |text| && o.state.stack == s.stack
      && |o.state.nodes| == |s.nodes|
      && forall i :: 0 <= i < |s.nodes| ==>
           o.state.nodes[i].name == s.nodes[i].name && o.state.nodes[i].text == s.nodes[i].text &&
           o.state.nodes[i].parent == s.nodes[i].parent
  {
  }

  lemma MarkupNested(text: seq<byte>, tbl: Table, s: State, ends: seq<Option<nat>>) returns (ends': seq<Option<nat>>)
    requires WF(text, s) && Shape(s) && Nested(text, s, ends)
    requires s.mode == Content && s.pos < |text| && text[s.pos] == LT
    ensures var o := MarkupStep(text, tbl, s); o.Next? ==> Nested(text, o.state, ends') && ends' == NewEnds(s, ends, o.state)
  {
    ends' := ends;
    var p := s.pos;
    var o := MarkupStep(text, tbl, s);
    if p + 1 == |text| {
    } else if text[p + 1] == QUESTION || text[p + 1] == BANG {
      assert o == SkipStep(text, s);
      if o.Next? {
        KeepNested(text, s, ends, o.state);
      }
    } else if text[p + 1] == SLASH {
      assert o == CloseStep(text, tbl, s);
      CloseNested(text, tbl, s, ends);
      if o.Next? {
        ends' := ends[Top(s).node := Some(o.state.pos)];
      }
    } else {
      assert o == OpenStep(text, tbl, s);
      ends' := OpenNested(text, tbl, s, ends);
    }
  }

  lemma OpenNested(text: seq<byte>, tbl: Table, s: State, ends: seq<Option<nat>>) returns (ends': seq<Option<nat>>)
    requires WF(text, s) && Shape(s) && Nested(text, s, ends)
    requires s.mode == Content && s.pos + 1 < |text| && text[s.pos] == LT
    ensures var o := OpenStep(text, tbl, s); o.Next? ==> Nested(text, o.state, ends') && ends' == NewEnds(s, ends, o.state)
  {
    ends' := ends + [None];
    var o := OpenStep(text, tbl, s);
    if o.Next? {
      OpenedElement(text, tbl, s);
      OpenedNested(text, s, ends, o.state);
    }
  }

  /** The state after an opening tag's name, as OpenedElement describes it, keeps the nesting
      invariant with the new record open. */
  lemma OpenedNested(text: seq<byte>, s: State, ends: seq<Option<nat>>, s': State)
    requires Shape(s) && Nested(text, s, ends) && s.mode == Content
    requires |s'.nodes| == |s.nodes| + 1
    requires var n := s'.nodes[|s.nodes|];
      && n.parent == Top(s).node && n.IsTagged() && n.text.length == 0 && Key(n) == s.pos + 1
      && n.text.End() <= s'.pos <= |text| && s.pos <= s'.pos
      && SameElements(s, s'.stack) && Extends(s.nodes, s'.nodes, n) && s'.mode == InTag(s.pos)
    ensures Nested(text, s', ends + [None]) && ends + [None] == NewEnds(s, ends, s')
  {
    AppendNested(text, s, ends, s'.nodes[|s.nodes|], s');
  }

  /** An opening tag appends an element record just after the '<' and keeps the open elements. */
  lemma OpenedElement(text: seq<byte>, tbl: Table, s: State)
    requires WF(text, s) && s.mode == Content && s.pos + 1 < |text| && text[s.pos] == LT
    ensures var o := OpenStep(text, tbl, s); o.Next? ==>
      && |o.state.nodes| == |s.nodes| + 1
      && var n := o.state.nodes[|s.nodes|];
      && n.parent == Top(s).node && n.IsTagged() && n.text.length == 0 && Key(n) == s.pos + 1
      && n.name.start == s.pos + 1 && n.name.End() == o.state.pos
      && n.text.End() <= o.state.pos <= |text| && s.pos <= o.state.pos
      && SameElements(s, o.state.stack) && Extends(s.nodes, o.state.nodes, n)
      && o.state.mode == InTag(s.pos)
  {
    var p := s.pos;
    var top := Top(s);
    assert FrameWF(text, s.nodes, top);
    if Allowed(tbl, ELEMENT_NAME_START, text[p + 1]) {
      var e := RunEnd(text, p + 2, tbl, ELEMENT_NAME_NON_START, NO_STOP);
      var n := Node(Span(p + 1, e - (p + 1)), NO_SPAN, |s.attrs|, 0, None, None, top.node);
      var s' := State(InTag(p), e, SetTopLast(s.stack, |s.nodes|), AppendChild(s.nodes, top.node, top.last, n),
                      s.attrs, s.seenTop || |s.stack| == 1);
      assert OpenStep(text, tbl, s) == Next(s');
      AppendChildExtends(s.nodes, top.node, top.last, n);
      SetTopLastSame(s, |s.nodes|);
    }
  }

  lemma TextNested(text: seq<byte>, trim: bool, tbl: Table, s: State, ends: seq<Option<nat>>) returns (ends': seq<Option<nat>>)
    requires WF(text, s) && Shape(s) && Nested(text, s, ends)
    requires s.mode == Content && s.pos < |text| && text[s.pos] != LT
    ensures var o := TextStep(text, trim, tbl, s); o.Next? ==> Nested(text, o.state, ends') && ends' == NewEnds(s, ends, o.state)
  {
    ends' := ends;
    var o := TextStep(text, trim, tbl, s);
    var q := RunEnd(text, s.pos, tbl, DataType(s), LT);
    if o.Next? {
      if |s.stack| == 1 {
        KeepNested(text, s, ends, o.state);
      } else {
        var sp := RunSpan(text, trim, tbl, s.pos, q);
        var x := Top(s).node;
        if sp.length == 0 {
          KeepNested(text, s, ends, o.state);
        } else if OwnText(text, s, q) {
          OwnTextNested(text, s, ends, sp, q);
        } else {
          ends' := ends + [None];
          AppendChildExtends(s.nodes, x, Top(s).last, o.state.nodes[|s.nodes|]);
          SetTopLastSame(s, |s.nodes|);
          AppendNested(text, s, ends, o.state.nodes[|s.nodes|], o.state);
        }
      }
    }
  }

  /** Character data keeps the open elements and the names of the records, and adds at most a
      text record. */
  lemma TextKeeps(text: seq<byte>, trim: bool, tbl: Table, s: State)
    requires WF(text, s) && s.mode == Content && s.pos < |text| && text[s.pos] != LT
    ensures var o := TextStep(text, trim, tbl, s); o.Next? ==>
      && o.state.mode == Content && SameElements(s, o.state.stack)
      && |s.nodes| <= |o.state.nodes| <= |s.nodes| + 1
      && (forall i :: 0 <= i < |s.nodes| ==> o.state.nodes[i].name == s.nodes[i].name)
      && (forall i :: |s.nodes| <= i < |o.state.nodes| ==> !o.state.nodes[i].IsTagged())
  {
    SetTopLastSame(s, |s.nodes|);
  }

  lemma {:induction false} RunNested(text: seq<byte>, trim: bool, tbl: Table, s: State, ends: seq<Option<nat>>)
    returns (ends': seq<Option<nat>>)
    requires Good(text, trim, tbl, s) && Nested(text, s, ends) && Lexed(text, tbl, s, ends)
    ensures var r := Run(text, trim, tbl, s); r.Accepted? ==> Nested(text, r.state, ends') && Lexed(text, tbl, r.state, ends')
    decreases |text| - s.pos
  {
    var e1 := StepNested(text, trim, tbl, s, ends);
    StepGood(text, trim, tbl, s);
    ends' := e1;
    match Step(text, trim, tbl, s)
    case Next(s') =>
      ends' := RunNested(text, trim, tbl, s', e1);
    case Accept(_) =>
    case Reject(_) =>
  }

  /** At the end of an accepted document every element is closed. */
  lemma FinalNested(text: seq<byte>, tbl: Table, s: State, ends: seq<Option<nat>>)
    requires Nested(text, s, ends) && Lexed(text, tbl, s, ends) && s.mode == Content && |s.stack| == 1
    ensures NestedDom(text, tbl, s.nodes, ends)
  {
    forall i | 1 <= i < |s.nodes| && s.nodes[i].IsTagged()
      ensures ends[i].Some? && ClosedAt(text, s.nodes[i], ends[i].value) && ElementTokens(text, tbl, s.nodes[i], ends[i].value)
    {
      assert EndKnown(text, s, ends, i);
    }
  }

  /** Every document a parse accepts nests as its text does. */
  lemma ParsedNested(text: seq<byte>, trim: bool, tbl: Table)
    ensures var r := ParseDocument(text, trim, tbl); r.Parsed? ==> WellNested(text, tbl, r.dom.nodes)
  {
    if |text| > 0 {
      InitialGood(text, trim, tbl);
      InitialNested(text);
      InitialLexed(text, tbl);
      var ends := RunNested(text, trim, tbl, Initial(), [None]);
      var r := Run(text, trim, tbl, Initial());
      if r.Accepted? {
        FinalNested(text, tbl, r.state, ends);
      }
    }
  }

  // ---- The tree against the text ----

  /** Record i is a proper ancestor of record j: it is reached from j by parent links. */
  ghost predicate Descends(nodes: seq<Node>, j: nat, i: nat)
    decreases j
  {
    && 1 <= j < |nodes| && nodes[j].parent < j
    && (nodes[j].parent == i || Descends(nodes, nodes[j].parent, i))
  }

  lemma DescendsBelow(nodes: seq<Node>, j: nat, i: nat)
    requires Descends(nodes, j, i)
    ensures i < j
    decreases j
  {
    if nodes[j].parent != i {
      DescendsBelow(nodes, nodes[j].parent, i);
    }
  }

  /** In a nested arena, i is an ancestor of j exactly when j's position lies inside i. */
  lemma {:induction false} AncestorInside(text: seq<byte>, tbl: Table, nodes: seq<Node>, ends: seq<Option<nat>>, i: nat, j: nat)
    requires NestedDom(text, tbl, nodes, ends) && KeysOrdered(nodes)
    requires forall k :: 1 <= k < |nodes| ==> nodes[k].parent < k
    requires 1 <= i < |nodes| && 1 <= j < |nodes| && i != j
    ensures Descends(nodes, j, i) <==> Encloses(nodes, ends, i, Key(nodes[j]))
    decreases j
  {
    var p := nodes[j].parent;
    assert Innermost(nodes, ends, j);
    if p == i {
    } else if p == ROOT {
      assert !Descends(nodes, p, i);
    } else {
      AncestorInside(text, tbl, nodes, ends, i, p);
      assert ClosedAt(text, nodes[p], ends[p].value);
      if Descends(nodes, p, i) {
        DescendsBelow(nodes, p, i);
        assert ends[i].Some? && ends[p].Some?;
      }
      if Encloses(nodes, ends, i, Key(nodes[j])) {
        assert i < p;
        assert Key(nodes[i]) < Key(nodes[p]);
        assert ends[i].Some? && ends[p].Some?;
      }
    }
  }

  /** Every parsed document: the descendants of an element are exactly the records standing
      between its '<' and its end. */
  lemma DescendantsInside(text: seq<byte>, trim: bool, tbl: Table, d: Dom, ends: seq<Option<nat>>)
    requires DomOk(text, trim, tbl, d) && NestedDom(text, tbl, d.nodes, ends)
    ensures forall i, j :: 1 <= i < |d.nodes| && 1 <= j < |d.nodes| && i != j ==>
      (Descends(d.nodes, j, i) <==> Encloses(d.nodes, ends, i, Key(d.nodes[j])))
  {
    forall i, j | 1 <= i < |d.nodes| && 1 <= j < |d.nodes| && i != j
      ensures Descends(d.nodes, j, i) <==> Encloses(d.nodes, ends, i, Key(d.nodes[j]))
    {
      AncestorInside(text, tbl, d.nodes, ends, i, j);
    }
  }
}
