/** Whole parses of small documents under the default classifier: the exact arenas an accepted
    document yields, with and without trimming, and the error of a mismatched closing tag.
    Each document is first treated for any text with its bytes and any table that classifies
    those bytes as the default one does; one lemma per construct follows the scanner from the
    state before it to the end of the document. */
module Documents {
  import opened XmlTypes
  import opened Classifier
  import opened Scan
  import opened Dom
  import opened Grammar

  /** What the default classifier says about the bytes of the documents below. */
  ghost predicate DefaultClasses(tbl: Table) {
    && Allowed(tbl, ELEMENT_NAME_START, 0x61) && Allowed(tbl, ELEMENT_NAME_START, 0x62)
    && !Allowed(tbl, ELEMENT_NAME_NON_START, GT) && !Allowed(tbl, ELEMENT_NAME_NON_START, SLASH)
    && !Allowed(tbl, ELEMENT_NAME_NON_START, 0x20)
    && Allowed(tbl, ATTRIBUTE_NAME_START, 0x78) && Allowed(tbl, ATTRIBUTE_NAME_START, 0x79)
    && Allowed(tbl, ATTRIBUTE_NAME_NON_START, 0x79) && !Allowed(tbl, ATTRIBUTE_NAME_NON_START, EQUALS)
    && Allowed(tbl, ATTRIBUTE_VALUE, 0x31) && Allowed(tbl, ATTRIBUTE_VALUE, 0x32) && Allowed(tbl, ATTRIBUTE_VALUE, 0x33)
    && IsSpace(tbl, 0x20) && !IsSpace(tbl, GT) && !IsSpace(tbl, SLASH)
    && !IsSpace(tbl, 0x78) && !IsSpace(tbl, 0x79)
    && (forall c :: c in TEXT_BYTES ==> Allowed(tbl, ELEMENT_TEXT, c))
    && (forall c :: c in TEXT_BYTES && c != 0x20 ==> !IsSpace(tbl, c))
  }

  /** The bytes of the character data below: ' ', 'e', 'h', 'i', 'm', 'o', 'r', 't', 'x'. */
  const TEXT_BYTES: set<byte> := {0x20, 0x65, 0x68, 0x69, 0x6D, 0x6F, 0x72, 0x74, 0x78}

  lemma DefaultTableClasses()
    ensures DefaultClasses(DefaultTable())
  {
  }

  /** A document ends accepted once only the root is open and an element was seen. */
  lemma EndAccepted(text: seq<byte>, trim: bool, tbl: Table, s: State)
    requires WF(text, s) && s.mode == Content && s.pos == |text| && |s.stack| == 1 && s.seenTop
    ensures Run(text, trim, tbl, s) == Accepted(s)
  {
  }

  /** `<a` at the start, its name ended by the next byte: the first step opens element 1,
      named `a`, as the root's only child. */
  lemma OpenedAt0(text: seq<byte>, trim: bool, tbl: Table, s: State) returns (s': State)
    requires AtStart(text, s) && DefaultClasses(tbl) && 2 < |text| && text[0] == LT && text[1] == 0x61
    requires text[2] == GT || text[2] == SLASH || text[2] == 0x20
    ensures WF(text, s) && WF(text, s') && Step(text, trim, tbl, s) == Next(s')
    ensures s'.mode == InTag(0) && s'.pos == 2 && s'.seenTop && s'.attrs == s.attrs && |s'.stack| == 1
    ensures s'.nodes == [s.nodes[ROOT].(firstChild := Some(1)), Node(Span(1, 1), NO_SPAN, 0, 0, None, None, ROOT)]
  {
    InitialWF(text, s);
    RunEndUnique(text, 2, tbl, ELEMENT_NAME_NON_START, NO_STOP, 2);
    var n := Node(Span(1, 1), NO_SPAN, 0, 0, None, None, ROOT);
    s' := State(InTag(0), 2, SetTopLast(s.stack, 1), AppendChild(s.nodes, ROOT, None, n), s.attrs, true);
    assert Step(text, trim, tbl, s) == OpenStep(text, tbl, s);
  }

  // ---- `<a/>` ----

  const EMPTY_ELEMENT: seq<byte> := [0x3C, 0x61, 0x2F, 0x3E]

  ghost predicate EmptyElementText(text: seq<byte>) {
    |text| == 4 && text[0] == LT && text[1] == 0x61 && text[2] == SLASH && text[3] == GT
  }

  lemma EmptyElementBytes()
    ensures EmptyElementText(EMPTY_ELEMENT)
  {
  }

  lemma EmptyElementAt2(text: seq<byte>, trim: bool, tbl: Table, s: State)
    requires WF(text, s) && EmptyElementText(text) && DefaultClasses(tbl)
    requires s.mode == InTag(0) && s.pos == 2 && |s.stack| == 1 && s.seenTop
    ensures Run(text, trim, tbl, s) == Accepted(s.(mode := Content, pos := 4))
  {
    var o := Step(text, trim, tbl, s);
    assert o == Next(s.(mode := Content, pos := 4)) by {
      assert RunEnd(text, 2, tbl, SPACE, NO_STOP) == 2;
    }
    EndAccepted(text, trim, tbl, o.state);
  }

  lemma EmptyElementAt0(text: seq<byte>, trim: bool, tbl: Table, s: State)
    requires AtStart(text, s) && EmptyElementText(text) && DefaultClasses(tbl)
    ensures WF(text, s)
    ensures var r := Run(text, trim, tbl, s);
      && r.Accepted? && r.state.attrs == s.attrs
      && r.state.nodes == [s.nodes[ROOT].(firstChild := Some(1)), Node(Span(1, 1), NO_SPAN, 0, 0, None, None, ROOT)]
  {
    var s' := OpenedAt0(text, trim, tbl, s);
    EmptyElementAt2(text, trim, tbl, s');
  }

  /** `<a/>`: the root and one element without text, attributes or children. */
  lemma EmptyElementParse(text: seq<byte>, trim: bool, tbl: Table)
    requires EmptyElementText(text) && DefaultClasses(tbl)
    ensures ParseDocument(text, trim, tbl) == Parsed(Dom(
      [Node(NO_SPAN, NO_SPAN, 0, 0, Some(1), None, ROOT), Node(Span(1, 1), NO_SPAN, 0, 0, None, None, ROOT)], []))
  {
    InitialAtStart(text);
    EmptyElementAt0(text, trim, tbl, Initial());
  }

  lemma EmptyElementDocument(trim: bool)
    ensures ParseDocument(EMPTY_ELEMENT, trim, DefaultTable()) == Parsed(Dom(
      [Node(NO_SPAN, NO_SPAN, 0, 0, Some(1), None, ROOT), Node(Span(1, 1), NO_SPAN, 0, 0, None, None, ROOT)], []))
  {
    DefaultTableClasses();
    EmptyElementBytes();
    EmptyElementParse(EMPTY_ELEMENT, trim, DefaultTable());
  }

  // ---- `<a><b>hi</b></a>` ----

  const NESTED: seq<byte> :=
    [0x3C, 0x61, 0x3E, 0x3C, 0x62, 0x3E, 0x68, 0x69, 0x3C, 0x2F, 0x62, 0x3E, 0x3C, 0x2F, 0x61, 0x3E]

  ghost predicate NestedText(text: seq<byte>) {
    && |text| == 16
    && text[0] == LT && text[1] == 0x61 && text[2] == GT && text[3] == LT && text[4] == 0x62 && text[5] == GT
    && text[6] == 0x68 && text[7] == 0x69 && text[8] == LT && text[9] == SLASH && text[10] == 0x62
    && text[11] == GT && text[12] == LT && text[13] == SLASH && text[14] == 0x61 && text[15] == GT
  }

  lemma NestedBytes()
    ensures NestedText(NESTED)
  {
  }

  lemma NestedAt12(text: seq<byte>, trim: bool, tbl: Table, s: State)
    requires WF(text, s) && NestedText(text) && DefaultClasses(tbl) && s.mode == Content && s.pos == 12 && s.seenTop
    requires |s.stack| == 2 && s.nodes[s.stack[1].node].name == Span(1, 1)
    ensures Run(text, trim, tbl, s) == Accepted(s.(pos := 16, stack := s.stack[..1]))
  {
    var o := Step(text, trim, tbl, s);
    assert o == Next(s.(pos := 16, stack := s.stack[..1])) by {
      assert RunEnd(text, 15, tbl, ELEMENT_NAME_NON_START, NO_STOP) == 15;
      assert o == CloseStep(text, tbl, s);
    }
    EndAccepted(text, trim, tbl, o.state);
  }

  lemma NestedAt8(text: seq<byte>, trim: bool, tbl: Table, s: State)
    requires WF(text, s) && NestedText(text) && DefaultClasses(tbl) && s.mode == Content && s.pos == 8 && s.seenTop
    requires |s.stack| == 3 && s.nodes[s.stack[1].node].name == Span(1, 1) && s.nodes[s.stack[2].node].name == Span(4, 1)
    ensures Run(text, trim, tbl, s) == Accepted(s.(pos := 16, stack := s.stack[..1]))
  {
    var o := Step(text, trim, tbl, s);
    assert o == Next(s.(pos := 12, stack := s.stack[..2])) by {
      assert RunEnd(text, 11, tbl, ELEMENT_NAME_NON_START, NO_STOP) == 11;
      assert o == CloseStep(text, tbl, s);
    }
    NestedAt12(text, trim, tbl, o.state);
  }

  lemma NestedAt6(text: seq<byte>, trim: bool, tbl: Table, s: State)
    requires WF(text, s) && NestedText(text) && DefaultClasses(tbl) && s.mode == Content && s.pos == 6 && s.seenTop
    requires |s.stack| == 3 && s.nodes[s.stack[1].node].name == Span(1, 1) && s.stack[2].node == 2
    requires |s.nodes| == 3 && s.nodes[2].name == Span(4, 1) && s.stack[2].last.None?
    ensures var r := Run(text, trim, tbl, s);
      r.Accepted? && r.state.nodes == s.nodes[2 := s.nodes[2].(text := Span(6, 2))] && r.state.attrs == s.attrs
  {
    var o := Step(text, trim, tbl, s);
    var s' := s.(pos := 8, nodes := s.nodes[2 := s.nodes[2].(text := Span(6, 2))]);
    assert o == Next(s') by {
      RunEndUnique(text, 6, tbl, ELEMENT_TEXT, LT, 8);
      assert RunSpan(text, trim, tbl, 6, 8) == Span(6, 2) by {
        assert TrimStart(text, 6, 8, tbl) == 6;
        assert TrimEnd(text, 6, 8, tbl) == 8;
      }
      assert o == TextStep(text, trim, tbl, s);
    }
    NestedAt8(text, trim, tbl, s');
  }

  lemma NestedAt5(text: seq<byte>, trim: bool, tbl: Table, s: State)
    requires WF(text, s) && NestedText(text) && DefaultClasses(tbl) && s.mode == InTag(3) && s.pos == 5 && s.seenTop
    requires |s.stack| == 2 && s.nodes[s.stack[1].node].name == Span(1, 1)
    requires |s.nodes| == 3 && s.nodes[2].name == Span(4, 1)
    ensures var r := Run(text, trim, tbl, s);
      r.Accepted? && r.state.nodes == s.nodes[2 := s.nodes[2].(text := Span(6, 2))] && r.state.attrs == s.attrs
  {
    var o := Step(text, trim, tbl, s);
    assert o == Next(s.(mode := Content, pos := 6, stack := s.stack + [Frame(2, None, 3)])) by {
      assert RunEnd(text, 5, tbl, SPACE, NO_STOP) == 5;
    }
    NestedAt6(text, trim, tbl, o.state);
  }

  lemma NestedAt3(text: seq<byte>, trim: bool, tbl: Table, s: State)
    requires WF(text, s) && NestedText(text) && DefaultClasses(tbl) && s.mode == Content && s.pos == 3 && s.seenTop
    requires |s.stack| == 2 && s.stack[1].node == 1 && s.stack[1].last.None?
    requires |s.nodes| == 2 && s.nodes[1].name == Span(1, 1) && |s.attrs| == 0
    ensures var r := Run(text, trim, tbl, s);
      && r.Accepted? && r.state.attrs == s.attrs
      && r.state.nodes == s.nodes[1 := s.nodes[1].(firstChild := Some(2))] + [Node(Span(4, 1), Span(6, 2), 0, 0, None, None, 1)]
  {
    var o := Step(text, trim, tbl, s);
    var n := Node(Span(4, 1), NO_SPAN, 0, 0, None, None, 1);
    assert o == Next(State(InTag(3), 5, SetTopLast(s.stack, 2), AppendChild(s.nodes, 1, None, n), s.attrs, true)) by {
      assert RunEnd(text, 5, tbl, ELEMENT_NAME_NON_START, NO_STOP) == 5;
      assert o == OpenStep(text, tbl, s);
    }
    NestedAt5(text, trim, tbl, o.state);
  }

  lemma NestedAt2(text: seq<byte>, trim: bool, tbl: Table, s: State)
    requires WF(text, s) && NestedText(text) && DefaultClasses(tbl) && s.mode == InTag(0) && s.pos == 2 && s.seenTop
    requires |s.stack| == 1 && |s.nodes| == 2 && s.nodes[1].name == Span(1, 1) && |s.attrs| == 0
    ensures var r := Run(text, trim, tbl, s);
      && r.Accepted? && r.state.attrs == s.attrs
      && r.state.nodes == s.nodes[1 := s.nodes[1].(firstChild := Some(2))] + [Node(Span(4, 1), Span(6, 2), 0, 0, None, None, 1)]
  {
    var o := Step(text, trim, tbl, s);
    assert o == Next(s.(mode := Content, pos := 3, stack := s.stack + [Frame(1, None, 0)])) by {
      assert RunEnd(text, 2, tbl, SPACE, NO_STOP) == 2;
    }
    NestedAt3(text, trim, tbl, o.state);
  }

  lemma NestedAt0(text: seq<byte>, trim: bool, tbl: Table, s: State)
    requires AtStart(text, s) && NestedText(text) && DefaultClasses(tbl)
    ensures WF(text, s)
    ensures var r := Run(text, trim, tbl, s);
      && r.Accepted? && r.state.attrs == s.attrs
      && r.state.nodes == [s.nodes[ROOT].(firstChild := Some(1)), Node(Span(1, 1), NO_SPAN, 0, 0, Some(2), None, ROOT),
                           Node(Span(4, 1), Span(6, 2), 0, 0, None, None, 1)]
  {
    var s' := OpenedAt0(text, trim, tbl, s);
    NestedAt2(text, trim, tbl, s');
  }

  /** `<a><b>hi</b></a>`: b is a's only child, and "hi", all that b holds, is b's own text. */
  lemma NestedParse(text: seq<byte>, trim: bool, tbl: Table)
    requires NestedText(text) && DefaultClasses(tbl)
    ensures ParseDocument(text, trim, tbl) == Parsed(Dom(
      [Node(NO_SPAN, NO_SPAN, 0, 0, Some(1), None, ROOT), Node(Span(1, 1), NO_SPAN, 0, 0, Some(2), None, ROOT),
       Node(Span(4, 1), Span(6, 2), 0, 0, None, None, 1)], []))
  {
    InitialAtStart(text);
    NestedAt0(text, trim, tbl, Initial());
  }

  lemma NestedDocument(trim: bool)
    ensures ParseDocument(NESTED, trim, DefaultTable()) == Parsed(Dom(
      [Node(NO_SPAN, NO_SPAN, 0, 0, Some(1), None, ROOT), Node(Span(1, 1), NO_SPAN, 0, 0, Some(2), None, ROOT),
       Node(Span(4, 1), Span(6, 2), 0, 0, None, None, 1)], []))
  {
    DefaultTableClasses();
    NestedBytes();
    NestedParse(NESTED, trim, DefaultTable());
  }

  // ---- `<a x="1" y="2"/>` ----

  const ATTRIBUTES: seq<byte> :=
    [0x3C, 0x61, 0x20, 0x78, 0x3D, 0x22, 0x31, 0x22, 0x20, 0x79, 0x3D, 0x22, 0x32, 0x22, 0x2F, 0x3E]

  ghost predicate AttributesText(text: seq<byte>) {
    && |text| == 16
    && text[0] == LT && text[1] == 0x61 && text[2] == 0x20 && text[3] == 0x78 && text[4] == EQUALS
    && text[5] == DQUOTE && text[6] == 0x31 && text[7] == DQUOTE && text[8] == 0x20 && text[9] == 0x79
    && text[10] == EQUALS && text[11] == DQUOTE && text[12] == 0x32 && text[13] == DQUOTE
    && text[14] == SLASH && text[15] == GT
  }

  lemma AttributesBytes()
    ensures AttributesText(ATTRIBUTES)
  {
  }

  lemma AttributesAt14(text: seq<byte>, trim: bool, tbl: Table, s: State)
    requires WF(text, s) && AttributesText(text) && DefaultClasses(tbl)
    requires s.mode == InTag(0) && s.pos == 14 && |s.stack| == 1 && s.seenTop
    ensures Run(text, trim, tbl, s) == Accepted(s.(mode := Content, pos := 16))
  {
    var o := Step(text, trim, tbl, s);
    assert o == Next(s.(mode := Content, pos := 16)) by {
      assert RunEnd(text, 14, tbl, SPACE, NO_STOP) == 14;
    }
    EndAccepted(text, trim, tbl, o.state);
  }

  lemma AttributesAt8(text: seq<byte>, trim: bool, tbl: Table, s: State)
    requires WF(text, s) && AttributesText(text) && DefaultClasses(tbl)
    requires s.mode == InTag(0) && s.pos == 8 && |s.stack| == 1 && s.seenTop && |s.nodes| == 2
    ensures var r := Run(text, trim, tbl, s);
      && r.Accepted?
      && r.state.nodes == s.nodes[1 := s.nodes[1].(attrCount := s.nodes[1].attrCount + 1)]
      && r.state.attrs == s.attrs + [XmlAttribute(Span(9, 1), Span(12, 1))]
  {
    var o := Step(text, trim, tbl, s);
    var s' := s.(pos := 14, nodes := s.nodes[1 := s.nodes[1].(attrCount := s.nodes[1].attrCount + 1)],
                 attrs := s.attrs + [XmlAttribute(Span(9, 1), Span(12, 1))]);
    assert o == Next(s') by {
      assert RunEnd(text, 8, tbl, SPACE, NO_STOP) == 9;
      assert RunEnd(text, 10, tbl, ATTRIBUTE_NAME_NON_START, NO_STOP) == 10;
      assert RunEnd(text, 12, tbl, ATTRIBUTE_VALUE, DQUOTE) == 13;
      assert o == AttributeStep(text, tbl, s, 9);
    }
    AttributesAt14(text, trim, tbl, s');
  }

  lemma AttributesAt2(text: seq<byte>, trim: bool, tbl: Table, s: State)
    requires WF(text, s) && AttributesText(text) && DefaultClasses(tbl)
    requires s.mode == InTag(0) && s.pos == 2 && |s.stack| == 1 && s.seenTop && |s.nodes| == 2
    ensures var r := Run(text, trim, tbl, s);
      && r.Accepted?
      && r.state.nodes == s.nodes[1 := s.nodes[1].(attrCount := s.nodes[1].attrCount + 2)]
      && r.state.attrs == s.attrs + [XmlAttribute(Span(3, 1), Span(6, 1)), XmlAttribute(Span(9, 1), Span(12, 1))]
  {
    var o := Step(text, trim, tbl, s);
    var s' := s.(pos := 8, nodes := s.nodes[1 := s.nodes[1].(attrCount := s.nodes[1].attrCount + 1)],
                 attrs := s.attrs + [XmlAttribute(Span(3, 1), Span(6, 1))]);
    assert o == Next(s') by {
      assert RunEnd(text, 2, tbl, SPACE, NO_STOP) == 3;
      assert RunEnd(text, 4, tbl, ATTRIBUTE_NAME_NON_START, NO_STOP) == 4;
      assert RunEnd(text, 6, tbl, ATTRIBUTE_VALUE, DQUOTE) == 7;
      assert o == AttributeStep(text, tbl, s, 3);
    }
    AttributesAt8(text, trim, tbl, s');
  }

  lemma AttributesAt0(text: seq<byte>, trim: bool, tbl: Table, s: State)
    requires AtStart(text, s) && AttributesText(text) && DefaultClasses(tbl)
    ensures WF(text, s)
    ensures var r := Run(text, trim, tbl, s);
      && r.Accepted?
      && r.state.nodes == [s.nodes[ROOT].(firstChild := Some(1)), Node(Span(1, 1), NO_SPAN, 0, 2, None, None, ROOT)]
      && r.state.attrs == [XmlAttribute(Span(3, 1), Span(6, 1)), XmlAttribute(Span(9, 1), Span(12, 1))]
  {
    var s' := OpenedAt0(text, trim, tbl, s);
    AttributesAt2(text, trim, tbl, s');
  }

  /** `<a x="1" y="2"/>`: one element owning the attribute block x="1", y="2", in order. */
  lemma AttributesParse(text: seq<byte>, trim: bool, tbl: Table)
    requires AttributesText(text) && DefaultClasses(tbl)
    ensures ParseDocument(text, trim, tbl) == Parsed(Dom(
      [Node(NO_SPAN, NO_SPAN, 0, 0, Some(1), None, ROOT), Node(Span(1, 1), NO_SPAN, 0, 2, None, None, ROOT)],
      [XmlAttribute(Span(3, 1), Span(6, 1)), XmlAttribute(Span(9, 1), Span(12, 1))]))
  {
    InitialAtStart(text);
    AttributesAt0(text, trim, tbl, Initial());
  }

  lemma AttributesDocument(trim: bool)
    ensures ParseDocument(ATTRIBUTES, trim, DefaultTable()) == Parsed(Dom(
      [Node(NO_SPAN, NO_SPAN, 0, 0, Some(1), None, ROOT), Node(Span(1, 1), NO_SPAN, 0, 2, None, None, ROOT)],
      [XmlAttribute(Span(3, 1), Span(6, 1)), XmlAttribute(Span(9, 1), Span(12, 1))]))
  {
    DefaultTableClasses();
    AttributesBytes();
    AttributesParse(ATTRIBUTES, trim, DefaultTable());
  }

  // ---- `<a xy="1" y="2" x="3"/>` ----

  const MANY_ATTRIBUTES: seq<byte> :=
    [0x3C, 0x61, 0x20, 0x78, 0x79, 0x3D, 0x22, 0x31, 0x22, 0x20, 0x79, 0x3D, 0x22, 0x32, 0x22, 0x20,
     0x78, 0x3D, 0x22, 0x33, 0x22, 0x2F, 0x3E]

  ghost predicate ManyAttributesText(text: seq<byte>) {
    && |text| == 23
    && text[0] == LT && text[1] == 0x61 && text[2] == 0x20 && text[3] == 0x78 && text[4] == 0x79
    && text[5] == EQUALS && text[6] == DQUOTE && text[7] == 0x31 && text[8] == DQUOTE && text[9] == 0x20
    && text[10] == 0x79 && text[11] == EQUALS && text[12] == DQUOTE && text[13] == 0x32 && text[14] == DQUOTE
    && text[15] == 0x20 && text[16] == 0x78 && text[17] == EQUALS && text[18] == DQUOTE && text[19] == 0x33
    && text[20] == DQUOTE && text[21] == SLASH && text[22] == GT
  }

  lemma ManyAttributesBytes()
    ensures ManyAttributesText(MANY_ATTRIBUTES)
  {
  }

  lemma ManyAttributesAt21(text: seq<byte>, trim: bool, tbl: Table, s: State)
    requires WF(text, s) && ManyAttributesText(text) && DefaultClasses(tbl)
    requires s.mode == InTag(0) && s.pos == 21 && |s.stack| == 1 && s.seenTop
    ensures Run(text, trim, tbl, s) == Accepted(s.(mode := Content, pos := 23))
  {
    var o := Step(text, trim, tbl, s);
    assert o == Next(s.(mode := Content, pos := 23)) by {
      assert RunEnd(text, 21, tbl, SPACE, NO_STOP) == 21;
    }
    EndAccepted(text, trim, tbl, o.state);
  }

  lemma ManyAttributesAt15(text: seq<byte>, trim: bool, tbl: Table, s: State)
    requires WF(text, s) && ManyAttributesText(text) && DefaultClasses(tbl)
    requires s.mode == InTag(0) && s.pos == 15 && |s.stack| == 1 && s.seenTop && |s.nodes| == 2
    ensures var r := Run(text, trim, tbl, s);
      && r.Accepted?
      && |r.state.nodes| == 2 && r.state.nodes[0] == s.nodes[0]
      && r.state.nodes[1] == s.nodes[1].(attrCount := s.nodes[1].attrCount + 1)
      && r.state.attrs == s.attrs + [XmlAttribute(Span(16, 1), Span(19, 1))]
  {
    var o := Step(text, trim, tbl, s);
    var s' := s.(pos := 21, nodes := s.nodes[1 := s.nodes[1].(attrCount := s.nodes[1].attrCount + 1)],
                 attrs := s.attrs + [XmlAttribute(Span(16, 1), Span(19, 1))]);
    assert o == Next(s') by {
      assert RunEnd(text, 15, tbl, SPACE, NO_STOP) == 16;
      assert RunEnd(text, 17, tbl, ATTRIBUTE_NAME_NON_START, NO_STOP) == 17;
      assert RunEnd(text, 19, tbl, ATTRIBUTE_VALUE, DQUOTE) == 20;
      assert o == AttributeStep(text, tbl, s, 16);
    }
    ManyAttributesAt21(text, trim, tbl, s');
  }

  lemma ManyAttributesAt9(text: seq<byte>, trim: bool, tbl: Table, s: State)
    requires WF(text, s) && ManyAttributesText(text) && DefaultClasses(tbl)
    requires s.mode == InTag(0) && s.pos == 9 && |s.stack| == 1 && s.seenTop && |s.nodes| == 2
    ensures var r := Run(text, trim, tbl, s);
      && r.Accepted?
      && |r.state.nodes| == 2 && r.state.nodes[0] == s.nodes[0]
      && r.state.nodes[1] == s.nodes[1].(attrCount := s.nodes[1].attrCount + 2)
      && r.state.attrs == s.attrs + [XmlAttribute(Span(10, 1), Span(13, 1)), XmlAttribute(Span(16, 1), Span(19, 1))]
  {
    var o := Step(text, trim, tbl, s);
    var s' := s.(pos := 15, nodes := s.nodes[1 := s.nodes[1].(attrCount := s.nodes[1].attrCount + 1)],
                 attrs := s.attrs + [XmlAttribute(Span(10, 1), Span(13, 1))]);
    assert o == Next(s') by {
      assert RunEnd(text, 9, tbl, SPACE, NO_STOP) == 10;
      assert RunEnd(text, 11, tbl, ATTRIBUTE_NAME_NON_START, NO_STOP) == 11;
      assert RunEnd(text, 13, tbl, ATTRIBUTE_VALUE, DQUOTE) == 14;
      assert o == AttributeStep(text, tbl, s, 10);
    }
    ManyAttributesAt15(text, trim, tbl, s');
  }

  /** The first name is two bytes long: the name run goes on past its first byte. */
  lemma ManyAttributesAt2(text: seq<byte>, trim: bool, tbl: Table, s: State)
    requires WF(text, s) && ManyAttributesText(text) && DefaultClasses(tbl)
    requires s.mode == InTag(0) && s.pos == 2 && |s.stack| == 1 && s.seenTop && |s.nodes| == 2
    ensures var r := Run(text, trim, tbl, s);
      && r.Accepted?
      && |r.state.nodes| == 2 && r.state.nodes[0] == s.nodes[0]
      && r.state.nodes[1] == s.nodes[1].(attrCount := s.nodes[1].attrCount + 3)
      && r.state.attrs == s.attrs + [XmlAttribute(Span(3, 2), Span(7, 1)), XmlAttribute(Span(10, 1), Span(13, 1)),
                                     XmlAttribute(Span(16, 1), Span(19, 1))]
  {
    var o := Step(text, trim, tbl, s);
    var s' := s.(pos := 9, nodes := s.nodes[1 := s.nodes[1].(attrCount := s.nodes[1].attrCount + 1)],
                 attrs := s.attrs + [XmlAttribute(Span(3, 2), Span(7, 1))]);
    assert o == Next(s') by {
      assert RunEnd(text, 2, tbl, SPACE, NO_STOP) == 3;
      assert RunEnd(text, 4, tbl, ATTRIBUTE_NAME_NON_START, NO_STOP) == 5;
      assert RunEnd(text, 7, tbl, ATTRIBUTE_VALUE, DQUOTE) == 8;
      assert o == AttributeStep(text, tbl, s, 3);
    }
    ManyAttributesAt9(text, trim, tbl, s');
  }

  lemma ManyAttributesAt0(text: seq<byte>, trim: bool, tbl: Table, s: State)
    requires AtStart(text, s) && ManyAttributesText(text) && DefaultClasses(tbl)
    ensures WF(text, s)
    ensures var r := Run(text, trim, tbl, s);
      && r.Accepted?
      && r.state.nodes == [s.nodes[ROOT].(firstChild := Some(1)), Node(Span(1, 1), NO_SPAN, 0, 3, None, None, ROOT)]
      && r.state.attrs == [XmlAttribute(Span(3, 2), Span(7, 1)), XmlAttribute(Span(10, 1), Span(13, 1)),
                           XmlAttribute(Span(16, 1), Span(19, 1))]
  {
    var s' := OpenedAt0(text, trim, tbl, s);
    ManyAttributesAt2(text, trim, tbl, s');
  }

  /** `<a xy="1" y="2" x="3"/>`: one element owning all three attributes, in order, the first
      named by both of its bytes. */
  lemma ManyAttributesParse(text: seq<byte>, trim: bool, tbl: Table)
    requires ManyAttributesText(text) && DefaultClasses(tbl)
    ensures ParseDocument(text, trim, tbl) == Parsed(Dom(
      [Node(NO_SPAN, NO_SPAN, 0, 0, Some(1), None, ROOT), Node(Span(1, 1), NO_SPAN, 0, 3, None, None, ROOT)],
      [XmlAttribute(Span(3, 2), Span(7, 1)), XmlAttribute(Span(10, 1), Span(13, 1)), XmlAttribute(Span(16, 1), Span(19, 1))]))
  {
    InitialAtStart(text);
    ManyAttributesAt0(text, trim, tbl, Initial());
  }

  lemma ManyAttributesDocument(trim: bool)
    ensures ParseDocument(MANY_ATTRIBUTES, trim, DefaultTable()) == Parsed(Dom(
      [Node(NO_SPAN, NO_SPAN, 0, 0, Some(1), None, ROOT), Node(Span(1, 1), NO_SPAN, 0, 3, None, None, ROOT)],
      [XmlAttribute(Span(3, 2), Span(7, 1)), XmlAttribute(Span(10, 1), Span(13, 1)), XmlAttribute(Span(16, 1), Span(19, 1))]))
  {
    DefaultTableClasses();
    ManyAttributesBytes();
    ManyAttributesParse(MANY_ATTRIBUTES, trim, DefaultTable());
  }

  // ---- `<a> text <b/> more </a>` ----

  const MIXED: seq<byte> :=
    [0x3C, 0x61, 0x3E, 0x20, 0x74, 0x65, 0x78, 0x74, 0x20, 0x3C, 0x62, 0x2F,
     0x3E, 0x20, 0x6D, 0x6F, 0x72, 0x65, 0x20, 0x3C, 0x2F, 0x61, 0x3E]

  ghost predicate MixedText(text: seq<byte>) {
    && |text| == 23
    && text[0] == LT && text[1] == 0x61 && text[2] == GT && text[3] == 0x20 && text[4] == 0x74
    && text[5] == 0x65 && text[6] == 0x78 && text[7] == 0x74 && text[8] == 0x20 && text[9] == LT
    && text[10] == 0x62 && text[11] == SLASH && text[12] == GT && text[13] == 0x20 && text[14] == 0x6D
    && text[15] == 0x6F && text[16] == 0x72 && text[17] == 0x65 && text[18] == 0x20 && text[19] == LT
    && text[20] == SLASH && text[21] == 0x61 && text[22] == GT
  }

  lemma MixedBytes()
    ensures MixedText(MIXED)
  {
  }

  /** The character data " text " and " more ", kept whole or trimmed. */
  function FirstRun(trim: bool): Span {
    if trim then Span(4, 4) else Span(3, 6)
  }

  function SecondRun(trim: bool): Span {
    if trim then Span(14, 4) else Span(13, 6)
  }

  lemma MixedAt19(text: seq<byte>, trim: bool, tbl: Table, s: State)
    requires WF(text, s) && MixedText(text) && DefaultClasses(tbl) && s.mode == Content && s.pos == 19 && s.seenTop
    requires |s.stack| == 2 && s.nodes[s.stack[1].node].name == Span(1, 1)
    ensures Run(text, trim, tbl, s) == Accepted(s.(pos := 23, stack := s.stack[..1]))
  {
    var o := Step(text, trim, tbl, s);
    assert o == Next(s.(pos := 23, stack := s.stack[..1])) by {
      assert RunEnd(text, 22, tbl, ELEMENT_NAME_NON_START, NO_STOP) == 22;
      assert o == CloseStep(text, tbl, s);
    }
    EndAccepted(text, trim, tbl, o.state);
  }

  /** The run ` more ` at 13 becomes the second text node, after the element b. */
  lemma MixedText13(text: seq<byte>, trim: bool, tbl: Table, s: State)
    requires WF(text, s) && MixedText(text) && DefaultClasses(tbl) && s.mode == Content && s.pos == 13
    requires |s.stack| == 2 && s.stack[1].node == 1 && s.stack[1].last == Some(3) && |s.nodes| == 4 && |s.attrs| == 0
    ensures Step(text, trim, tbl, s) ==
      Next(s.(pos := 19, stack := s.stack[1 := s.stack[1].(last := Some(4))],
              nodes := s.nodes[3 := s.nodes[3].(next := Some(4))] + [Node(NO_SPAN, SecondRun(trim), 0, 0, None, None, 1)]))
  {
    var o := Step(text, trim, tbl, s);
    var n := Node(NO_SPAN, SecondRun(trim), 0, 0, None, None, 1);
    RunEndUnique(text, 13, tbl, ELEMENT_TEXT, LT, 19);
    assert RunSpan(text, trim, tbl, 13, 19) == SecondRun(trim) by {
      if trim {
        assert TrimStart(text, 13, 19, tbl) == 14;
        assert TrimEnd(text, 14, 19, tbl) == 18;
      }
    }
    assert o == TextStep(text, trim, tbl, s);
    assert o == Next(s.(pos := 19, nodes := AppendChild(s.nodes, 1, Some(3), n), stack := SetTopLast(s.stack, 4)));
    assert SetTopLast(s.stack, 4) == s.stack[1 := s.stack[1].(last := Some(4))];
    assert AppendChild(s.nodes, 1, Some(3), n) == s.nodes[3 := s.nodes[3].(next := Some(4))] + [n];
  }

  lemma MixedAt13(text: seq<byte>, trim: bool, tbl: Table, s: State)
    requires WF(text, s) && MixedText(text) && DefaultClasses(tbl) && s.mode == Content && s.pos == 13 && s.seenTop
    requires |s.stack| == 2 && s.stack[1].node == 1 && s.stack[1].last == Some(3)
    requires |s.nodes| == 4 && s.nodes[1].name == Span(1, 1) && |s.attrs| == 0
    ensures var r := Run(text, trim, tbl, s);
      && r.Accepted? && r.state.attrs == s.attrs
      && r.state.nodes == s.nodes[3 := s.nodes[3].(next := Some(4))] + [Node(NO_SPAN, SecondRun(trim), 0, 0, None, None, 1)]
  {
    MixedText13(text, trim, tbl, s);
    var o := Step(text, trim, tbl, s);
    assert o.state.nodes[1].name == Span(1, 1);
    MixedAt19(text, trim, tbl, o.state);
  }

  lemma MixedAt11(text: seq<byte>, trim: bool, tbl: Table, s: State)
    requires WF(text, s) && MixedText(text) && DefaultClasses(tbl) && s.mode == InTag(9) && s.pos == 11 && s.seenTop
    requires |s.stack| == 2 && s.stack[1].node == 1 && s.stack[1].last == Some(3)
    requires |s.nodes| == 4 && s.nodes[1].name == Span(1, 1) && |s.attrs| == 0
    ensures var r := Run(text, trim, tbl, s);
      && r.Accepted? && r.state.attrs == s.attrs
      && r.state.nodes == s.nodes[3 := s.nodes[3].(next := Some(4))] + [Node(NO_SPAN, SecondRun(trim), 0, 0, None, None, 1)]
  {
    var o := Step(text, trim, tbl, s);
    assert o == Next(s.(mode := Content, pos := 13)) by {
      assert RunEnd(text, 11, tbl, SPACE, NO_STOP) == 11;
    }
    MixedAt13(text, trim, tbl, o.state);
  }

  lemma MixedAt9(text: seq<byte>, trim: bool, tbl: Table, s: State)
    requires WF(text, s) && MixedText(text) && DefaultClasses(tbl) && s.mode == Content && s.pos == 9 && s.seenTop
    requires |s.stack| == 2 && s.stack[1].node == 1 && s.stack[1].last == Some(2)
    requires |s.nodes| == 3 && s.nodes[1].name == Span(1, 1) && |s.attrs| == 0
    ensures var r := Run(text, trim, tbl, s);
      && r.Accepted? && r.state.attrs == s.attrs
      && r.state.nodes == s.nodes[2 := s.nodes[2].(next := Some(3))] +
           [Node(Span(10, 1), NO_SPAN, 0, 0, None, Some(4), 1), Node(NO_SPAN, SecondRun(trim), 0, 0, None, None, 1)]
  {
    var o := Step(text, trim, tbl, s);
    var n := Node(Span(10, 1), NO_SPAN, 0, 0, None, None, 1);
    assert o == Next(State(InTag(9), 11, SetTopLast(s.stack, 3), AppendChild(s.nodes, 1, Some(2), n), s.attrs, true)) by {
      assert RunEnd(text, 11, tbl, ELEMENT_NAME_NON_START, NO_STOP) == 11;
      assert o == OpenStep(text, tbl, s);
    }
    MixedAt11(text, trim, tbl, o.state);
  }

  /** The run ` text ` at 3 becomes the first child of a, a text node. */
  lemma MixedText3(text: seq<byte>, trim: bool, tbl: Table, s: State)
    requires WF(text, s) && MixedText(text) && DefaultClasses(tbl) && s.mode == Content && s.pos == 3
    requires |s.stack| == 2 && s.stack[1].node == 1 && s.stack[1].last.None? && |s.nodes| == 2 && |s.attrs| == 0
    ensures Step(text, trim, tbl, s) ==
      Next(s.(pos := 9, stack := s.stack[1 := s.stack[1].(last := Some(2))],
              nodes := s.nodes[1 := s.nodes[1].(firstChild := Some(2))] + [Node(NO_SPAN, FirstRun(trim), 0, 0, None, None, 1)]))
  {
    var o := Step(text, trim, tbl, s);
    var n := Node(NO_SPAN, FirstRun(trim), 0, 0, None, None, 1);
    RunEndUnique(text, 3, tbl, ELEMENT_TEXT, LT, 9);
    assert RunSpan(text, trim, tbl, 3, 9) == FirstRun(trim) by {
      if trim {
        assert TrimStart(text, 3, 9, tbl) == 4;
        assert TrimEnd(text, 4, 9, tbl) == 8;
      }
    }
    assert o == TextStep(text, trim, tbl, s);
    assert o == Next(s.(pos := 9, nodes := AppendChild(s.nodes, 1, None, n), stack := SetTopLast(s.stack, 2)));
    assert SetTopLast(s.stack, 2) == s.stack[1 := s.stack[1].(last := Some(2))];
    assert AppendChild(s.nodes, 1, None, n) == s.nodes[1 := s.nodes[1].(firstChild := Some(2))] + [n];
  }

  lemma MixedAt3(text: seq<byte>, trim: bool, tbl: Table, s: State)
    requires WF(text, s) && MixedText(text) && DefaultClasses(tbl) && s.mode == Content && s.pos == 3 && s.seenTop
    requires |s.stack| == 2 && s.stack[1].node == 1 && s.stack[1].last.None?
    requires |s.nodes| == 2 && s.nodes[1].name == Span(1, 1) && |s.attrs| == 0
    ensures var r := Run(text, trim, tbl, s);
      && r.Accepted? && r.state.attrs == s.attrs
      && r.state.nodes == s.nodes[1 := s.nodes[1].(firstChild := Some(2))] +
           [Node(NO_SPAN, FirstRun(trim), 0, 0, None, Some(3), 1), Node(Span(10, 1), NO_SPAN, 0, 0, None, Some(4), 1),
            Node(NO_SPAN, SecondRun(trim), 0, 0, None, None, 1)]
  {
    MixedText3(text, trim, tbl, s);
    var o := Step(text, trim, tbl, s);
    assert o.state.nodes[1].name == Span(1, 1);
    MixedAt9(text, trim, tbl, o.state);
  }

  lemma MixedAt2(text: seq<byte>, trim: bool, tbl: Table, s: State)
    requires WF(text, s) && MixedText(text) && DefaultClasses(tbl) && s.mode == InTag(0) && s.pos == 2 && s.seenTop
    requires |s.stack| == 1 && |s.nodes| == 2 && s.nodes[1].name == Span(1, 1) && |s.attrs| == 0
    ensures var r := Run(text, trim, tbl, s);
      && r.Accepted? && r.state.attrs == s.attrs
      && r.state.nodes == s.nodes[1 := s.nodes[1].(firstChild := Some(2))] +
           [Node(NO_SPAN, FirstRun(trim), 0, 0, None, Some(3), 1), Node(Span(10, 1), NO_SPAN, 0, 0, None, Some(4), 1),
            Node(NO_SPAN, SecondRun(trim), 0, 0, None, None, 1)]
  {
    var o := Step(text, trim, tbl, s);
    assert o == Next(s.(mode := Content, pos := 3, stack := s.stack + [Frame(1, None, 0)])) by {
      assert RunEnd(text, 2, tbl, SPACE, NO_STOP) == 2;
    }
    MixedAt3(text, trim, tbl, o.state);
  }

  lemma MixedAt0(text: seq<byte>, trim: bool, tbl: Table, s: State)
    requires AtStart(text, s) && MixedText(text) && DefaultClasses(tbl)
    ensures WF(text, s)
    ensures var r := Run(text, trim, tbl, s);
      && r.Accepted? && r.state.attrs == s.attrs
      && r.state.nodes ==
           [s.nodes[ROOT].(firstChild := Some(1)), Node(Span(1, 1), NO_SPAN, 0, 0, Some(2), None, ROOT),
            Node(NO_SPAN, FirstRun(trim), 0, 0, None, Some(3), 1), Node(Span(10, 1), NO_SPAN, 0, 0, None, Some(4), 1),
            Node(NO_SPAN, SecondRun(trim), 0, 0, None, None, 1)]
  {
    var s' := OpenedAt0(text, trim, tbl, s);
    MixedAt2(text, trim, tbl, s');
  }

  /** `<a> text <b/> more </a>`: a's children are a text node, b and a text node, in that
      order; the runs keep their spaces unless trimming is asked for. */
  lemma MixedParse(text: seq<byte>, trim: bool, tbl: Table)
    requires MixedText(text) && DefaultClasses(tbl)
    ensures ParseDocument(text, trim, tbl) == Parsed(Dom(
      [Node(NO_SPAN, NO_SPAN, 0, 0, Some(1), None, ROOT), Node(Span(1, 1), NO_SPAN, 0, 0, Some(2), None, ROOT),
       Node(NO_SPAN, FirstRun(trim), 0, 0, None, Some(3), 1), Node(Span(10, 1), NO_SPAN, 0, 0, None, Some(4), 1),
       Node(NO_SPAN, SecondRun(trim), 0, 0, None, None, 1)], []))
  {
    InitialAtStart(text);
    MixedAt0(text, trim, tbl, Initial());
  }

  lemma MixedDocument(trim: bool)
    ensures ParseDocument(MIXED, trim, DefaultTable()) == Parsed(Dom(
      [Node(NO_SPAN, NO_SPAN, 0, 0, Some(1), None, ROOT), Node(Span(1, 1), NO_SPAN, 0, 0, Some(2), None, ROOT),
       Node(NO_SPAN, FirstRun(trim), 0, 0, None, Some(3), 1), Node(Span(10, 1), NO_SPAN, 0, 0, None, Some(4), 1),
       Node(NO_SPAN, SecondRun(trim), 0, 0, None, None, 1)], []))
  {
    DefaultTableClasses();
    MixedBytes();
    MixedParse(MIXED, trim, DefaultTable());
  }

  // ---- `<a><b></a>` ----

  const MISMATCHED: seq<byte> := [0x3C, 0x61, 0x3E, 0x3C, 0x62, 0x3E, 0x3C, 0x2F, 0x61, 0x3E]

  ghost predicate MismatchedText(text: seq<byte>) {
    && |text| == 10
    && text[0] == LT && text[1] == 0x61 && text[2] == GT && text[3] == LT && text[4] == 0x62
    && text[5] == GT && text[6] == LT && text[7] == SLASH && text[8] == 0x61 && text[9] == GT
  }

  lemma MismatchedBytes()
    ensures MismatchedText(MISMATCHED)
  {
  }

  lemma MismatchedAt6(text: seq<byte>, trim: bool, tbl: Table, s: State)
    requires WF(text, s) && MismatchedText(text) && DefaultClasses(tbl) && s.mode == Content && s.pos == 6
    requires |s.stack| == 3 && s.nodes[s.stack[2].node].name == Span(4, 1)
    ensures Run(text, trim, tbl, s) == Rejected(6)
  {
    var o := Step(text, trim, tbl, s);
    assert o == Reject(6) by {
      assert RunEnd(text, 9, tbl, ELEMENT_NAME_NON_START, NO_STOP) == 9;
      assert text[8..9] != NameBytes(text, Span(4, 1)) by {
        assert text[8..9][0] != text[4..5][0];
      }
      assert o == CloseStep(text, tbl, s);
    }
  }

  lemma MismatchedAt5(text: seq<byte>, trim: bool, tbl: Table, s: State)
    requires WF(text, s) && MismatchedText(text) && DefaultClasses(tbl) && s.mode == InTag(3) && s.pos == 5
    requires |s.stack| == 2 && |s.nodes| == 3 && s.nodes[2].name == Span(4, 1)
    ensures Run(text, trim, tbl, s) == Rejected(6)
  {
    var o := Step(text, trim, tbl, s);
    assert o == Next(s.(mode := Content, pos := 6, stack := s.stack + [Frame(2, None, 3)])) by {
      assert RunEnd(text, 5, tbl, SPACE, NO_STOP) == 5;
    }
    MismatchedAt6(text, trim, tbl, o.state);
  }

  lemma MismatchedAt3(text: seq<byte>, trim: bool, tbl: Table, s: State)
    requires WF(text, s) && MismatchedText(text) && DefaultClasses(tbl) && s.mode == Content && s.pos == 3
    requires |s.stack| == 2 && |s.nodes| == 2 && s.stack[1].node == 1
    ensures Run(text, trim, tbl, s) == Rejected(6)
  {
    var o := Step(text, trim, tbl, s);
    var n := Node(Span(4, 1), NO_SPAN, |s.attrs|, 0, None, None, 1);
    assert o == Next(State(InTag(3), 5, SetTopLast(s.stack, 2), AppendChild(s.nodes, 1, s.stack[1].last, n), s.attrs, s.seenTop)) by {
      assert RunEnd(text, 5, tbl, ELEMENT_NAME_NON_START, NO_STOP) == 5;
      assert o == OpenStep(text, tbl, s);
    }
    MismatchedAt5(text, trim, tbl, o.state);
  }

  lemma MismatchedAt2(text: seq<byte>, trim: bool, tbl: Table, s: State)
    requires WF(text, s) && MismatchedText(text) && DefaultClasses(tbl) && s.mode == InTag(0) && s.pos == 2
    requires |s.stack| == 1 && |s.nodes| == 2
    ensures Run(text, trim, tbl, s) == Rejected(6)
  {
    var o := Step(text, trim, tbl, s);
    assert o == Next(s.(mode := Content, pos := 3, stack := s.stack + [Frame(1, None, 0)])) by {
      assert RunEnd(text, 2, tbl, SPACE, NO_STOP) == 2;
    }
    MismatchedAt3(text, trim, tbl, o.state);
  }

  lemma MismatchedAt0(text: seq<byte>, trim: bool, tbl: Table, s: State)
    requires AtStart(text, s) && MismatchedText(text) && DefaultClasses(tbl)
    ensures WF(text, s) && Run(text, trim, tbl, s) == Rejected(6)
  {
    var s' := OpenedAt0(text, trim, tbl, s);
    MismatchedAt2(text, trim, tbl, s');
  }

  /** `<a><b></a>`: the closing tag at 6 names a, while b is the innermost open element. */
  lemma MismatchedParse(text: seq<byte>, trim: bool, tbl: Table)
    requires MismatchedText(text) && DefaultClasses(tbl)
    ensures ParseDocument(text, trim, tbl) == Failed(Parse, 6)
  {
    InitialAtStart(text);
    MismatchedAt0(text, trim, tbl, Initial());
  }

  lemma MismatchedDocument(trim: bool)
    ensures ParseDocument(MISMATCHED, trim, DefaultTable()) == Failed(Parse, 6)
  {
    DefaultTableClasses();
    MismatchedBytes();
    MismatchedParse(MISMATCHED, trim, DefaultTable());
  }
}
