/** The scanner reads the text token by token: every step that does not fail consumes exactly
    the token the lexer finds at its position, so every position the scanner stands at is a
    token boundary of the whole text, and a document that parses is a whole sequence of
    tokens. */
module Lexing {
  import opened XmlTypes
  import opened Classifier
  import opened Scan
  import opened Tokens
  import opened Grammar

  /** The lexer's place for a scanner mode. */
  function PlaceOf(m: Mode): Place {
    if m.InTag? then Inside else Between
  }

  /** Character data ends at the next '<', or at the end of the text. */
  lemma TextToken(text: seq<byte>, trim: bool, tbl: Table, s: State)
    requires WF(text, s) && s.mode == Content && s.pos < |text| && text[s.pos] != LT
    ensures var o := TextStep(text, trim, tbl, s);
      o.Next? ==> TokenAt(text, tbl, Between, s.pos) == Some(Token(Chars, o.state.pos))
  {
    RunEndFind(text, s.pos, tbl, DataType(s), LT);
  }

  /** A processing instruction or a comment is one token. */
  lemma SkipToken(text: seq<byte>, tbl: Table, s: State)
    requires WF(text, s) && s.mode == Content && s.pos + 1 < |text| && text[s.pos] == LT
    requires text[s.pos + 1] == QUESTION || text[s.pos + 1] == BANG
    ensures var o := SkipStep(text, s); var k := if text[s.pos + 1] == QUESTION then Instruction else Comment;
      o.Next? ==> TokenAt(text, tbl, Between, s.pos) == Some(Token(k, o.state.pos))
  {
  }

  /** A closing tag is one token, whatever its name closes. */
  lemma CloseToken(text: seq<byte>, tbl: Table, s: State)
    requires WF(text, s) && s.mode == Content && s.pos + 1 < |text|
    requires text[s.pos] == LT && text[s.pos + 1] == SLASH
    ensures var o := CloseStep(text, tbl, s);
      o.Next? ==> TokenAt(text, tbl, Between, s.pos) == Some(Token(CloseTag, o.state.pos))
  {
  }

  /** The name of an opening tag is one token. */
  lemma OpenToken(text: seq<byte>, tbl: Table, s: State)
    requires WF(text, s) && s.mode == Content && s.pos + 1 < |text| && text[s.pos] == LT
    requires text[s.pos + 1] != QUESTION && text[s.pos + 1] != BANG && text[s.pos + 1] != SLASH
    ensures var o := OpenStep(text, tbl, s);
      o.Next? ==> TokenAt(text, tbl, Between, s.pos) == Some(Token(OpenName, o.state.pos))
  {
  }

  /** Inside an opening tag, an attribute, the '>' or the '/>' is one token. */
  lemma TagToken(text: seq<byte>, tbl: Table, s: State)
    requires WF(text, s) && s.mode.InTag?
    ensures var o := TagStep(text, tbl, s); var q := RunEnd(text, s.pos, tbl, SPACE, NO_STOP);
      var k := if q == |text| then Attribute else if text[q] == GT then TagEnd else if text[q] == SLASH then EmptyEnd else Attribute;
      o.Next? ==> s.pos < |text| && TokenAt(text, tbl, Inside, s.pos) == Some(Token(k, o.state.pos))
  {
    var o := TagStep(text, tbl, s);
    var q := RunEnd(text, s.pos, tbl, SPACE, NO_STOP);
    if o.Next? && q < |text| && text[q] != GT && text[q] != SLASH {
      assert o == AttributeStep(text, tbl, s, q);
      AttributeToken(text, tbl, s, q);
    }
  }

  /** An attribute is one token, up to the quote that closes its value. */
  lemma AttributeToken(text: seq<byte>, tbl: Table, s: State, q: nat)
    requires WF(text, s) && s.mode.InTag? && q == RunEnd(text, s.pos, tbl, SPACE, NO_STOP)
    requires q < |text| && text[q] != GT && text[q] != SLASH
    ensures var o := AttributeStep(text, tbl, s, q);
      o.Next? ==> s.pos < |text| && TokenAt(text, tbl, Inside, s.pos) == Some(Token(Attribute, o.state.pos))
  {
    var o := AttributeStep(text, tbl, s, q);
    if o.Next? {
      var e := RunEnd(text, q + 1, tbl, ATTRIBUTE_NAME_NON_START, NO_STOP);
      var v := RunEnd(text, e + 2, tbl, ATTRIBUTE_VALUE, text[e + 1]);
      assert && Allowed(tbl, ATTRIBUTE_NAME_START, text[q]) && e + 1 < |text| && text[e] == EQUALS
             && (text[e + 1] == DQUOTE || text[e + 1] == SQUOTE) && v < |text| && text[v] == text[e + 1]
             && o.state.pos == v + 1;
      AttributeBytes(text, tbl, s.pos, q, e, v);
    }
  }

  /** The bytes of `name="value"` after a run of spaces make one attribute token. */
  lemma AttributeBytes(text: seq<byte>, tbl: Table, p: nat, q: nat, e: nat, v: nat)
    requires p <= |text| && q == RunEnd(text, p, tbl, SPACE, NO_STOP)
    requires q < |text| && text[q] != GT && text[q] != SLASH && Allowed(tbl, ATTRIBUTE_NAME_START, text[q])
    requires e == RunEnd(text, q + 1, tbl, ATTRIBUTE_NAME_NON_START, NO_STOP)
    requires e + 1 < |text| && text[e] == EQUALS && (text[e + 1] == DQUOTE || text[e + 1] == SQUOTE)
    requires v == RunEnd(text, e + 2, tbl, ATTRIBUTE_VALUE, text[e + 1]) && v < |text| && text[v] == text[e + 1]
    ensures p < |text| && TokenAt(text, tbl, Inside, p) == Some(Token(Attribute, v + 1))
  {
    RunEndFind(text, e + 2, tbl, ATTRIBUTE_VALUE, text[e + 1]);
  }

  /** Every step that does not fail consumes exactly the token at its position. */
  lemma StepToken(text: seq<byte>, trim: bool, tbl: Table, s: State)
    requires WF(text, s)
    ensures var o := Step(text, trim, tbl, s);
      o.Next? ==>
        && s.pos < |text| && TokenAt(text, tbl, PlaceOf(s.mode), s.pos).Some?
        && var t := TokenAt(text, tbl, PlaceOf(s.mode), s.pos).value;
           t.end == o.state.pos && After(t.kind) == PlaceOf(o.state.mode)
  {
    var o := Step(text, trim, tbl, s);
    match s.mode
    case InTag(_) =>
      TagToken(text, tbl, s);
    case Content =>
      if s.pos == |text| {
      } else if text[s.pos] != LT {
        TextToken(text, trim, tbl, s);
      } else if s.pos + 1 < |text| {
        if text[s.pos + 1] == QUESTION || text[s.pos + 1] == BANG {
          SkipToken(text, tbl, s);
          assert o == SkipStep(text, s);
          if o.Next? {
            assert TokenAt(text, tbl, Between, s.pos).value.end == o.state.pos;
          }
        } else if text[s.pos + 1] == SLASH {
          CloseToken(text, tbl, s);
        } else {
          OpenToken(text, tbl, s);
        }
      }
  }

  /** A step from a token boundary stands at the next one. */
  lemma StepReaches(text: seq<byte>, trim: bool, tbl: Table, s: State)
    requires WF(text, s) && Reached(text, tbl, s.pos, PlaceOf(s.mode))
    ensures var o := Step(text, trim, tbl, s); o.Next? ==> Reached(text, tbl, o.state.pos, PlaceOf(o.state.mode))
  {
    var o := Step(text, trim, tbl, s);
    StepToken(text, trim, tbl, s);
    if o.Next? {
      ReachesNext(text, tbl, 0, Between, s.pos, PlaceOf(s.mode));
    }
  }

  /** The scanner stands at token boundaries up to the end of an accepted document. */
  lemma {:induction false} RunReaches(text: seq<byte>, trim: bool, tbl: Table, s: State)
    requires WF(text, s) && Reached(text, tbl, s.pos, PlaceOf(s.mode))
    ensures var r := Run(text, trim, tbl, s); r.Accepted? ==> Reached(text, tbl, |text|, Between)
    decreases |text| - s.pos
  {
    StepReaches(text, trim, tbl, s);
    match Step(text, trim, tbl, s)
    case Next(s') =>
      RunReaches(text, trim, tbl, s');
    case Accept(_) =>
    case Reject(_) =>
  }

  /** A document that parses is, from its first byte to its last, a sequence of tokens that
      ends between tags. */
  lemma ParsedTokens(text: seq<byte>, trim: bool, tbl: Table)
    ensures ParseDocument(text, trim, tbl).Parsed? ==> Reached(text, tbl, |text|, Between)
  {
    if |text| > 0 {
      InitialAtStart(text);
      InitialWF(text, Initial());
      RunReaches(text, trim, tbl, Initial());
    }
  }
}
