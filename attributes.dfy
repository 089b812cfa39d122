/** Where the attributes of a parsed document come from: every element owns, in order, exactly
    the attributes of the attribute tokens of its own opening tag, each named from its first
    byte after the spaces up to its '=' and valued by the bytes between its quotes. The
    scanner keeps this as an invariant of its own, beside Good. */
module Attributes {
  import opened XmlTypes
  import opened Classifier
  import opened Scan
  import opened Dom
  import opened Grammar
  import opened Properties
  import opened Tokens
  import opened Lexing

  /** The attribute an attribute token at p holds, the token ending at end: its name runs from
      the first byte after the spaces up to the '=', and its value lies between the quote
      after the '=' and the same quote just before end. */
  function TokenAttribute(text: seq<byte>, tbl: Table, p: nat, end: nat): (a: XmlAttribute)
    requires p < |text| && TokenAt(text, tbl, Inside, p) == Some(Token(Attribute, end))
    ensures p <= a.name.start && 0 < a.name.length && a.value.start == a.name.End() + 2
    ensures a.value.End() + 1 == end <= |text|
    ensures text[a.name.End()] == EQUALS && (text[a.name.End() + 1] == DQUOTE || text[a.name.End() + 1] == SQUOTE)
    ensures text[a.value.End()] == text[a.name.End() + 1]
  {
    var q := RunEnd(text, p, tbl, SPACE, NO_STOP);
    var e := RunEnd(text, q + 1, tbl, ATTRIBUTE_NAME_NON_START, NO_STOP);
    var v := Find(text, e + 2, [text[e + 1]]).value;
    assert MatchAt(text, v, [text[e + 1]]) && text[v..v + 1][0] == text[v];
    XmlAttribute(Span(q, e - q), Span(e + 2, v - (e + 2)))
  }

  /** The attributes of the opening tag whose name, or last attribute read, ends at p: one for
      each attribute token, in order, up to the token that ends the tag. */
  function TagAttributes(text: seq<byte>, tbl: Table, p: nat): seq<XmlAttribute>
    requires p <= |text|
    decreases |text| - p, 1
  {
    if p == |text| then [] else TokenAttributes(text, tbl, p)
  }

  /** The attributes of the tag being read from the token at p on. */
  function TokenAttributes(text: seq<byte>, tbl: Table, p: nat): seq<XmlAttribute>
    requires p < |text|
    decreases |text| - p, 0
  {
    match TokenAt(text, tbl, Inside, p)
    case Some(Token(Attribute, end)) => [TokenAttribute(text, tbl, p, end)] + TagAttributes(text, tbl, end)
    case _ => []
  }

  /** The attribute block of record n. */
  function Block(attrs: seq<XmlAttribute>, n: Node): seq<XmlAttribute>
    requires n.attrStart + n.attrCount <= |attrs|
  {
    attrs[n.attrStart..n.attrStart + n.attrCount]
  }

  /** Element n owns exactly the attributes of its tag's tokens. */
  ghost predicate Owns(text: seq<byte>, tbl: Table, attrs: seq<XmlAttribute>, n: Node) {
    && n.name.End() <= |text| && n.attrStart + n.attrCount <= |attrs|
    && Block(attrs, n) == TagAttributes(text, tbl, n.name.End())
  }

  /** Every element whose tag has ended owns exactly the attributes of its tag's tokens; the
      element whose tag is being read owns those read so far, and the rest of them are the
      ones from the scanner position on. */
  ghost predicate AttrsRead(text: seq<byte>, tbl: Table, s: State) {
    TagsOwned(text, tbl, s) && OpenTagRead(text, tbl, s)
  }

  /** Every element whose tag has ended owns exactly the attributes of its tag's tokens. */
  ghost predicate TagsOwned(text: seq<byte>, tbl: Table, s: State) {
    forall i {:trigger Owns(text, tbl, s.attrs, s.nodes[i])} ::
      1 <= i < |s.nodes| && s.nodes[i].IsTagged() && !(s.mode.InTag? && i == |s.nodes| - 1) ==> Owns(text, tbl, s.attrs, s.nodes[i])
  }

  /** The element whose tag is being read owns the attributes read so far, and the rest of
      its tag's attributes are the ones from the scanner position on. */
  ghost predicate OpenTagRead(text: seq<byte>, tbl: Table, s: State) {
    s.mode.InTag? && 1 <= |s.nodes| ==> ReadUpTo(text, tbl, s.attrs, s.nodes[|s.nodes| - 1], s.pos)
  }

  /** Element n owns the attributes of its tag's tokens up to p, and only those. */
  ghost predicate ReadUpTo(text: seq<byte>, tbl: Table, attrs: seq<XmlAttribute>, n: Node, p: nat) {
    && n.name.End() <= p <= |text| && n.attrStart + n.attrCount <= |attrs|
    && Block(attrs, n) + TagAttributes(text, tbl, p) == TagAttributes(text, tbl, n.name.End())
  }

  lemma InitialAttrs(text: seq<byte>, tbl: Table)
    ensures AttrsRead(text, tbl, Initial())
  {
  }

  /** A step between tags that keeps the attribute arena, and the names and attribute blocks
      of the records, and adds only text records, keeps the invariant. */
  lemma KeepAttrs(text: seq<byte>, tbl: Table, s: State, s': State)
    requires AttrsRead(text, tbl, s) && s.mode == Content && s'.mode == Content && s'.attrs == s.attrs
    requires |s.nodes| <= |s'.nodes|
    requires forall i :: 0 <= i < |s.nodes| ==>
      s'.nodes[i].name == s.nodes[i].name && s'.nodes[i].attrStart == s.nodes[i].attrStart &&
      s'.nodes[i].attrCount == s.nodes[i].attrCount
    requires forall i :: |s.nodes| <= i < |s'.nodes| ==> !s'.nodes[i].IsTagged()
    ensures AttrsRead(text, tbl, s')
  {
    forall i | 1 <= i < |s'.nodes| && s'.nodes[i].IsTagged() ensures Owns(text, tbl, s'.attrs, s'.nodes[i]) {
      assert i < |s.nodes| && Owns(text, tbl, s.attrs, s.nodes[i]);
    }
  }

  /** Appending an attribute leaves every earlier block as it was. */
  lemma BlockKept(attrs: seq<XmlAttribute>, a: XmlAttribute, n: Node)
    requires n.attrStart + n.attrCount <= |attrs|
    ensures Block(attrs + [a], n) == Block(attrs, n)
  {
  }

  /** The '>' or the '/>' of the tag being read: the tag holds no further attribute, so the
      newest element owns exactly those read. */
  lemma TagEndAttrs(text: seq<byte>, tbl: Table, s: State, s': State, k: Kind)
    requires AttrsRead(text, tbl, s) && s.mode.InTag? && 1 <= |s.nodes| && s.pos < |text|
    requires TokenAt(text, tbl, Inside, s.pos) == Some(Token(k, s'.pos)) && k != Attribute
    requires s'.mode == Content && s'.nodes == s.nodes && s'.attrs == s.attrs
    ensures AttrsRead(text, tbl, s')
  {
    assert TagAttributes(text, tbl, s.pos) == [];
    var n := s.nodes[|s.nodes| - 1];
    assert Block(s.attrs, n) + [] == Block(s.attrs, n);
  }

  /** An attribute of the tag being read: the attribute its token holds is appended to the
      newest element's block. */
  lemma AttributeAttrs(text: seq<byte>, tbl: Table, s: State, q: nat)
    requires WF(text, s) && s.mode.InTag? && OpenTagOk(s) && AttrsRead(text, tbl, s)
    requires BlocksOk(s.nodes, |s.attrs|)
    requires q == RunEnd(text, s.pos, tbl, SPACE, NO_STOP) && q < |text| && text[q] != GT && text[q] != SLASH
    ensures var o := AttributeStep(text, tbl, s, q); o.Next? ==> AttrsRead(text, tbl, o.state)
  {
    var o := AttributeStep(text, tbl, s, q);
    AttributeRecorded(text, tbl, s, q);
    if o.Next? {
      NextAttribute(text, tbl, s.pos, o.state.pos);
      AppendedAttrs(text, tbl, s, TokenAttribute(text, tbl, s.pos, o.state.pos), o.state);
    }
  }

  /** What an attribute step records: the attribute its token holds, appended to the arena and
      counted in the newest element's block, and nothing else. */
  lemma AttributeRecorded(text: seq<byte>, tbl: Table, s: State, q: nat)
    requires WF(text, s) && s.mode.InTag?
    requires q == RunEnd(text, s.pos, tbl, SPACE, NO_STOP) && q < |text| && text[q] != GT && text[q] != SLASH
    ensures var o := AttributeStep(text, tbl, s, q); o.Next? ==>
      && s.pos < |text| && TokenAt(text, tbl, Inside, s.pos) == Some(Token(Attribute, o.state.pos))
      && o.state.attrs == s.attrs + [TokenAttribute(text, tbl, s.pos, o.state.pos)]
      && o.state.mode == s.mode && |o.state.nodes| == |s.nodes|
      && o.state.nodes[|s.nodes| - 1] == s.nodes[|s.nodes| - 1].(attrCount := s.nodes[|s.nodes| - 1].attrCount + 1)
      && forall i :: 0 <= i < |s.nodes| - 1 ==> o.state.nodes[i] == s.nodes[i]
  {
    var o := AttributeStep(text, tbl, s, q);
    if o.Next? {
      AttributeToken(text, tbl, s, q);
      assert TokenAttribute(text, tbl, s.pos, o.state.pos) == o.state.attrs[|s.attrs|];
    }
  }

  /** An attribute token is followed by the rest of its tag's attributes. */
  lemma NextAttribute(text: seq<byte>, tbl: Table, p: nat, end: nat)
    requires p < |text| && TokenAt(text, tbl, Inside, p) == Some(Token(Attribute, end))
    ensures end <= |text|
    ensures TagAttributes(text, tbl, p) == [TokenAttribute(text, tbl, p, end)] + TagAttributes(text, tbl, end)
  {
  }

  /** Appending the attribute a that the token at the scanner position holds to the newest
      element's block. */
  lemma AppendedAttrs(text: seq<byte>, tbl: Table, s: State, a: XmlAttribute, s': State)
    requires s.mode.InTag? && |s.nodes| >= 2 && TagsOwned(text, tbl, s)
    requires ReadUpTo(text, tbl, s.attrs, s.nodes[|s.nodes| - 1], s.pos)
    requires s.nodes[|s.nodes| - 1].attrStart + s.nodes[|s.nodes| - 1].attrCount == |s.attrs|
    requires s.pos < s'.pos <= |text| && TagAttributes(text, tbl, s.pos) == [a] + TagAttributes(text, tbl, s'.pos)
    requires s'.mode == s.mode && s'.attrs == s.attrs + [a] && |s'.nodes| == |s.nodes|
    requires s'.nodes[|s.nodes| - 1] == s.nodes[|s.nodes| - 1].(attrCount := s.nodes[|s.nodes| - 1].attrCount + 1)
    requires forall i :: 0 <= i < |s.nodes| - 1 ==> s'.nodes[i] == s.nodes[i]
    ensures AttrsRead(text, tbl, s')
  {
    AppendedOpen(text, tbl, s.nodes[|s.nodes| - 1], s.attrs, a, s.pos, s'.pos, s'.nodes[|s'.nodes| - 1], s'.attrs);
    AppendedOwned(text, tbl, s, a, s');
  }

  /** The newest element's block grows by the attribute its tag's next token holds. */
  lemma AppendedOpen(text: seq<byte>, tbl: Table, n: Node, attrs: seq<XmlAttribute>, a: XmlAttribute, p: nat, p': nat,
                     n': Node, attrs': seq<XmlAttribute>)
    requires ReadUpTo(text, tbl, attrs, n, p) && p < p' <= |text| && n.attrStart + n.attrCount == |attrs|
    requires TagAttributes(text, tbl, p) == [a] + TagAttributes(text, tbl, p')
    requires n' == n.(attrCount := n.attrCount + 1) && attrs' == attrs + [a]
    ensures ReadUpTo(text, tbl, attrs', n', p')
  {
    BlockAppend(n, attrs, a, TagAttributes(text, tbl, p'), TagAttributes(text, tbl, n.name.End()));
  }

  /** The block a record owns, followed by the attributes still to come, after one of them
      moves into the block. */
  lemma BlockAppend(n: Node, attrs: seq<XmlAttribute>, a: XmlAttribute, rest: seq<XmlAttribute>, all: seq<XmlAttribute>)
    requires n.attrStart + n.attrCount == |attrs|
    requires Block(attrs, n) + ([a] + rest) == all
    ensures Block(attrs + [a], n.(attrCount := n.attrCount + 1)) + rest == all
  {
    var n' := n.(attrCount := n.attrCount + 1);
    assert Block(attrs + [a], n') == Block(attrs, n) + [a];
    assert Block(attrs + [a], n') + rest == Block(attrs, n) + ([a] + rest);
  }

  /** The elements whose tags have ended keep their blocks. */
  lemma AppendedOwned(text: seq<byte>, tbl: Table, s: State, a: XmlAttribute, s': State)
    requires s.mode.InTag? && TagsOwned(text, tbl, s) && |s.nodes| >= 2
    requires s'.mode == s.mode && s'.attrs == s.attrs + [a] && |s'.nodes| == |s.nodes|
    requires forall i :: 0 <= i < |s.nodes| - 1 ==> s'.nodes[i] == s.nodes[i]
    ensures TagsOwned(text, tbl, s')
  {
    forall i | 1 <= i < |s'.nodes| - 1 && s'.nodes[i].IsTagged() ensures Owns(text, tbl, s'.attrs, s'.nodes[i]) {
      OwnsKept(text, tbl, s.attrs, a, s.nodes[i]);
    }
  }

  lemma OwnsKept(text: seq<byte>, tbl: Table, attrs: seq<XmlAttribute>, a: XmlAttribute, n: Node)
    requires Owns(text, tbl, attrs, n)
    ensures Owns(text, tbl, attrs + [a], n)
  {
    BlockKept(attrs, a, n);
  }

  /** Inside an opening tag. */
  lemma TagAttrs(text: seq<byte>, tbl: Table, s: State)
    requires WF(text, s) && s.mode.InTag? && OpenTagOk(s) && BlocksOk(s.nodes, |s.attrs|) && AttrsRead(text, tbl, s)
    ensures var o := TagStep(text, tbl, s); o.Next? ==> AttrsRead(text, tbl, o.state)
  {
    var o := TagStep(text, tbl, s);
    var q := RunEnd(text, s.pos, tbl, SPACE, NO_STOP);
    TagToken(text, tbl, s);
    if o.Next? {
      if q < |text| && text[q] != GT && text[q] != SLASH {
        assert o == AttributeStep(text, tbl, s, q);
        AttributeAttrs(text, tbl, s, q);
      } else {
        TagEndAttrs(text, tbl, s, o.state, TokenAt(text, tbl, Inside, s.pos).value.kind);
      }
    }
  }

  /** The name of an opening tag: the new element owns no attribute yet, and all of its tag's
      attributes are still to come. */
  lemma OpenAttrs(text: seq<byte>, tbl: Table, s: State)
    requires WF(text, s) && s.mode == Content && s.pos + 1 < |text| && text[s.pos] == LT
    requires BlocksOk(s.nodes, |s.attrs|) && AttrsRead(text, tbl, s)
    ensures var o := OpenStep(text, tbl, s); o.Next? ==> AttrsRead(text, tbl, o.state)
  {
    var o := OpenStep(text, tbl, s);
    if o.Next? {
      var s' := o.state;
      var k := |s.nodes|;
      assert s'.nodes[k].attrStart == |s.attrs| && s'.nodes[k].attrCount == 0;
      assert Block(s'.attrs, s'.nodes[k]) == [];
      assert s'.nodes[k].name.End() == s'.pos;
      forall i | 1 <= i < k && s'.nodes[i].IsTagged() ensures Owns(text, tbl, s'.attrs, s'.nodes[i]) {
        assert Owns(text, tbl, s.attrs, s.nodes[i]);
      }
    }
  }

  /** Markup between tags. */
  lemma MarkupAttrs(text: seq<byte>, tbl: Table, s: State)
    requires WF(text, s) && s.mode == Content && s.pos < |text| && text[s.pos] == LT
    requires BlocksOk(s.nodes, |s.attrs|) && AttrsRead(text, tbl, s)
    ensures var o := MarkupStep(text, tbl, s); o.Next? ==> AttrsRead(text, tbl, o.state)
  {
    var p := s.pos;
    var o := MarkupStep(text, tbl, s);
    if p + 1 == |text| {
    } else if text[p + 1] == QUESTION || text[p + 1] == BANG {
      assert o == SkipStep(text, s);
    } else if text[p + 1] == SLASH {
      assert o == CloseStep(text, tbl, s);
    } else {
      assert o == OpenStep(text, tbl, s);
      OpenAttrs(text, tbl, s);
    }
  }

  /** Character data touches no attribute and adds only a text record. */
  lemma TextAttrs(text: seq<byte>, trim: bool, tbl: Table, s: State)
    requires WF(text, s) && s.mode == Content && s.pos < |text| && text[s.pos] != LT && AttrsRead(text, tbl, s)
    ensures var o := TextStep(text, trim, tbl, s); o.Next? ==> AttrsRead(text, tbl, o.state)
  {
    var o := TextStep(text, trim, tbl, s);
    var q := RunEnd(text, s.pos, tbl, DataType(s), LT);
    if o.Next? {
      if |s.stack| == 1 {
        KeepAttrs(text, tbl, s, o.state);
      } else {
        AddTextAttrs(text, trim, tbl, s, q);
      }
    }
  }

  /** A run inside an element sets an element's text or appends a text record. */
  lemma AddTextAttrs(text: seq<byte>, trim: bool, tbl: Table, s: State, q: nat)
    requires WF(text, s) && s.mode == Content && s.pos < q < |text| && AttrsRead(text, tbl, s)
    ensures AttrsRead(text, tbl, AddText(text, trim, tbl, s, q))
  {
    var s' := AddText(text, trim, tbl, s, q);
    var sp := RunSpan(text, trim, tbl, s.pos, q);
    if sp.length > 0 && !OwnText(text, s, q) {
      assert !s'.nodes[|s.nodes|].IsTagged();
    }
    KeepAttrs(text, tbl, s, s');
  }

  lemma StepAttrs(text: seq<byte>, trim: bool, tbl: Table, s: State)
    requires Good(text, trim, tbl, s) && AttrsRead(text, tbl, s)
    ensures var o := Step(text, trim, tbl, s); !o.Reject? ==> AttrsRead(text, tbl, o.state)
  {
    match s.mode
    case InTag(_) =>
      TagAttrs(text, tbl, s);
    case Content =>
      if s.pos == |text| {
      } else if text[s.pos] == LT {
        MarkupAttrs(text, tbl, s);
      } else {
        TextAttrs(text, trim, tbl, s);
      }
  }

  lemma {:induction false} RunAttrs(text: seq<byte>, trim: bool, tbl: Table, s: State)
    requires Good(text, trim, tbl, s) && AttrsRead(text, tbl, s)
    ensures var r := Run(text, trim, tbl, s); r.Accepted? ==> AttrsRead(text, tbl, r.state)
    decreases |text| - s.pos
  {
    StepAttrs(text, trim, tbl, s);
    StepGood(text, trim, tbl, s);
    match Step(text, trim, tbl, s)
    case Next(s') =>
      RunAttrs(text, trim, tbl, s');
    case Accept(_) =>
    case Reject(_) =>
  }

  /** In every document a parse accepts, each element owns, in order, exactly the attributes
      of its own opening tag, and a text node owns none. */
  lemma ParsedAttributes(text: seq<byte>, trim: bool, tbl: Table)
    ensures var r := ParseDocument(text, trim, tbl);
      r.Parsed? ==> forall i :: 1 <= i < |r.dom.nodes| ==>
        if r.dom.nodes[i].IsTagged() then Owns(text, tbl, r.dom.attrs, r.dom.nodes[i])
        else r.dom.nodes[i].attrCount == 0
  {
    if |text| > 0 {
      InitialGood(text, trim, tbl);
      InitialAttrs(text, tbl);
      RunAttrs(text, trim, tbl, Initial());
      RunGood(text, trim, tbl, Initial());
      var r := Run(text, trim, tbl, Initial());
      if r.Accepted? {
        AcceptedAttributes(text, trim, tbl, r.state);
      }
    }
  }

  /** The final state of an accepted run has read every tag to its end. */
  lemma AcceptedAttributes(text: seq<byte>, trim: bool, tbl: Table, s: State)
    requires Good(text, trim, tbl, s) && AttrsRead(text, tbl, s) && s.mode == Content
    ensures forall i :: 1 <= i < |s.nodes| ==>
      if s.nodes[i].IsTagged() then Owns(text, tbl, s.attrs, s.nodes[i]) else s.nodes[i].attrCount == 0
  {
    forall i | 1 <= i < |s.nodes| && !s.nodes[i].IsTagged() ensures s.nodes[i].attrCount == 0 {
      assert NodeOk(text, trim, tbl, s.nodes[i]);
    }
  }
}
