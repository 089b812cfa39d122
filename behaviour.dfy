/** Properties of single scanner steps and of small whole documents: what the markup forms
    `<?`, `<!--` and `<!` do, and two documents worked through the state machine. */
module Behaviour {
  import opened XmlTypes
  import opened Classifier
  import opened Scan
  import opened Dom
  import opened Grammar

  /** A processing instruction in content is skipped: the step moves past its `?>` and adds
      nothing to the arenas or the stack; an unterminated one is an error at its '<'. */
  lemma PiBuildsNothing(text: seq<byte>, trim: bool, tbl: Table, s: State)
    requires WF(text, s) && s.mode == Content && s.pos + 1 < |text|
    requires text[s.pos] == LT && text[s.pos + 1] == QUESTION
    ensures var o := Step(text, trim, tbl, s);
      && (o.Next? || o == Reject(s.pos))
      && (o.Next? ==> o.state == s.(pos := o.state.pos) && s.pos + 3 < o.state.pos && text[o.state.pos - 1] == GT)
  {
    match Find(text, s.pos + 2, PI_CLOSE)
    case None =>
    case Some(e) => MatchAtByte(text, e, PI_CLOSE, 1);
  }

  /** A comment in content is skipped: the step moves past its `-->` and adds nothing to the
      arenas or the stack; an unterminated one is an error at its '<'. */
  lemma CommentBuildsNothing(text: seq<byte>, trim: bool, tbl: Table, s: State)
    requires WF(text, s) && s.mode == Content && s.pos + 3 < |text| && text[s.pos] == LT
    requires text[s.pos + 1] == BANG && text[s.pos + 2] == DASH && text[s.pos + 3] == DASH
    ensures var o := Step(text, trim, tbl, s);
      && (o.Next? || o == Reject(s.pos))
      && (o.Next? ==> o.state == s.(pos := o.state.pos) && s.pos + 6 < o.state.pos && text[o.state.pos - 1] == GT)
  {
    match Find(text, s.pos + 4, COMMENT_CLOSE)
    case None =>
    case Some(e) => MatchAtByte(text, e, COMMENT_CLOSE, 2);
  }

  /** `<!` in content that does not open a comment (a CDATA section, a document type
      declaration) is a parse error at its '<'. */
  lemma BangWithoutCommentRejected(text: seq<byte>, trim: bool, tbl: Table, s: State)
    requires WF(text, s) && s.mode == Content && s.pos + 1 < |text|
    requires text[s.pos] == LT && text[s.pos + 1] == BANG
    requires !(s.pos + 3 < |text| && text[s.pos + 2] == DASH && text[s.pos + 3] == DASH)
    ensures Step(text, trim, tbl, s) == Reject(s.pos)
  {
  }

  /** `<a><![CDATA[x]]></a>` */
  const CDATA_DOCUMENT: seq<byte> :=
    [0x3C, 0x61, 0x3E, 0x3C, 0x21, 0x5B, 0x43, 0x44, 0x41, 0x54, 0x41, 0x5B,
     0x78, 0x5D, 0x5D, 0x3E, 0x3C, 0x2F, 0x61, 0x3E]

  /** The parse is rejected at 3 from `<!` at 3 that does not open a comment. */
  lemma BangAtThree(text: seq<byte>, trim: bool, tbl: Table, s: State)
    requires WF(text, s) && s.mode == Content && s.pos == 3 && 5 < |text|
    requires text[3] == LT && text[4] == BANG && text[5] != DASH
    ensures Run(text, trim, tbl, s) == Rejected(3)
  {
    BangWithoutCommentRejected(text, trim, tbl, s);
  }

  /** '>' at 2 ends the opening tag, and the `<!` after it rejects the parse. */
  lemma TagEndAtTwo(text: seq<byte>, trim: bool, tbl: Table, s: State)
    requires WF(text, s) && s.mode.InTag? && s.pos == 2 && 5 < |text|
    requires text[2] == GT && text[3] == LT && text[4] == BANG && text[5] != DASH
    requires !Allowed(tbl, SPACE, GT)
    ensures Run(text, trim, tbl, s) == Rejected(3)
  {
    var o := Step(text, trim, tbl, s);
    assert o.Next? && o.state.mode == Content && o.state.pos == 3 by {
      assert RunEnd(text, 2, tbl, SPACE, NO_STOP) == 2;
    }
    BangAtThree(text, trim, tbl, o.state);
  }

  /** `<n` with a one-byte name at 0 opens the element, and the rest rejects the parse. */
  lemma OpenAtZero(text: seq<byte>, trim: bool, tbl: Table, s: State)
    requires AtStart(text, s) && 5 < |text|
    requires text[0] == LT && text[2] == GT && text[3] == LT && text[4] == BANG && text[5] != DASH
    requires text[1] != QUESTION && text[1] != BANG && text[1] != SLASH
    requires Allowed(tbl, ELEMENT_NAME_START, text[1])
    requires !Allowed(tbl, ELEMENT_NAME_NON_START, GT) && !Allowed(tbl, SPACE, GT)
    ensures Run(text, trim, tbl, s) == Rejected(3)
  {
    InitialWF(text, s);
    var o := Step(text, trim, tbl, s);
    assert o.Next? && o.state.mode == InTag(0) && o.state.pos == 2 by {
      assert RunEnd(text, 2, tbl, ELEMENT_NAME_NON_START, NO_STOP) == 2;
      assert o == OpenStep(text, tbl, s);
    }
    TagEndAtTwo(text, trim, tbl, o.state);
  }

  /** A document that opens an element `<n>` with a one-byte name and continues with `<!` not
      followed by `-` fails the parse at the '<' of the `<!`. */
  lemma OpenThenBangRejected(text: seq<byte>, trim: bool, tbl: Table)
    requires 5 < |text| && text[0] == LT && text[2] == GT && text[3] == LT && text[4] == BANG && text[5] != DASH
    requires text[1] != QUESTION && text[1] != BANG && text[1] != SLASH
    requires Allowed(tbl, ELEMENT_NAME_START, text[1])
    requires !Allowed(tbl, ELEMENT_NAME_NON_START, GT) && !Allowed(tbl, SPACE, GT)
    ensures ParseDocument(text, trim, tbl) == Failed(Parse, 3)
  {
    InitialAtStart(text);
    OpenAtZero(text, trim, tbl, Initial());
  }

  /** With the default classifier, a CDATA section fails the parse at the '<' of `<![CDATA[`. */
  lemma CdataDocumentRejected(trim: bool)
    ensures ParseDocument(CDATA_DOCUMENT, trim, DefaultTable()) == Failed(Parse, 3)
  {
    var text, tbl := CDATA_DOCUMENT, DefaultTable();
    assert Allowed(tbl, ELEMENT_NAME_START, text[1]);
    assert !Allowed(tbl, ELEMENT_NAME_NON_START, GT) && !Allowed(tbl, SPACE, GT);
    OpenThenBangRejected(text, trim, tbl);
  }
}
