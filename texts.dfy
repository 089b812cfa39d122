/** Where the character data of a parsed document comes from: every element text and every
    text node is one whole run of element-text bytes, from just after a '>' up to the next
    '<', or exactly that run with its leading and trailing spaces trimmed. The scanner keeps
    this as an invariant of its own, beside Good. */
module Texts {
  import opened XmlTypes
  import opened Classifier
  import opened Scan
  import opened Dom
  import opened Grammar
  import opened Properties
  import opened Tokens
  import opened Lexing

  /** The run of element-text bytes that starts at a, just after a '>', reaches up to the next
      '<', and sp is that whole run (untrimmed) or exactly its trimmed part (trimmed). The run
      is one character-data token of the text, starting at a token boundary. */
  ghost predicate RunAt(text: seq<byte>, trim: bool, tbl: Table, a: nat, sp: Span) {
    && 1 <= a < |text| && text[a - 1] == GT
    && var b := RunEnd(text, a, tbl, ELEMENT_TEXT, LT);
       && b < |text| && text[b] == LT && sp == RunSpan(text, trim, tbl, a, b)
       && Reached(text, tbl, a, Between) && TokenAt(text, tbl, Between, a) == Some(Token(Chars, b))
  }

  ghost predicate FromRun(text: seq<byte>, trim: bool, tbl: Table, sp: Span) {
    exists a: nat :: a <= sp.start && RunAt(text, trim, tbl, a, sp)
  }

  /** Every non-empty text of a record comes from a run. */
  ghost predicate Runs(text: seq<byte>, trim: bool, tbl: Table, nodes: seq<Node>) {
    forall i :: 1 <= i < |nodes| && nodes[i].text.length > 0 ==> FromRun(text, trim, tbl, nodes[i].text)
  }

  /** b keeps the texts of a's records, and its further records have no text. */
  ghost predicate KeepsTexts(a: seq<Node>, b: seq<Node>) {
    && |a| <= |b|
    && (forall i :: 0 <= i < |a| ==> b[i].text == a[i].text)
    && (forall i :: |a| <= i < |b| ==> b[i].text.length == 0)
  }

  lemma KeepRuns(text: seq<byte>, trim: bool, tbl: Table, a: seq<Node>, b: seq<Node>)
    requires Runs(text, trim, tbl, a) && KeepsTexts(a, b)
    ensures Runs(text, trim, tbl, b)
  {
    forall i | 1 <= i < |b| && b[i].text.length > 0 ensures FromRun(text, trim, tbl, b[i].text) {
      assert i < |a| && b[i].text == a[i].text;
    }
  }

  /** The initial arena holds only the root, which has no text. */
  lemma InitialRuns(text: seq<byte>, trim: bool, tbl: Table)
    ensures Runs(text, trim, tbl, Initial().nodes)
  {
  }

  /** Steps inside an opening tag change no text and add no record. */
  lemma TagRuns(text: seq<byte>, trim: bool, tbl: Table, s: State)
    requires WF(text, s) && s.mode.InTag? && Runs(text, trim, tbl, s.nodes)
    ensures var o := TagStep(text, tbl, s); o.Next? ==> Runs(text, trim, tbl, o.state.nodes)
  {
    var o := TagStep(text, tbl, s);
    var q := RunEnd(text, s.pos, tbl, SPACE, NO_STOP);
    if o.Next? && q < |text| && text[q] != GT && text[q] != SLASH {
      assert o == AttributeStep(text, tbl, s, q);
      var k := |s.nodes| - 1;
      assert o.state.nodes == s.nodes[k := s.nodes[k].(attrCount := s.nodes[k].attrCount + 1)];
      KeepRuns(text, trim, tbl, s.nodes, o.state.nodes);
    }
  }

  /** Markup changes no text: skipped markup and closing tags keep the arena, and an opening
      tag appends a record without text. */
  lemma MarkupRuns(text: seq<byte>, trim: bool, tbl: Table, s: State)
    requires WF(text, s) && s.mode == Content && s.pos < |text| && text[s.pos] == LT
    requires Runs(text, trim, tbl, s.nodes)
    ensures var o := MarkupStep(text, tbl, s); o.Next? ==> Runs(text, trim, tbl, o.state.nodes)
  {
    var p := s.pos;
    var o := MarkupStep(text, tbl, s);
    if p + 1 == |text| {
    } else if text[p + 1] == QUESTION || text[p + 1] == BANG {
      assert o == SkipStep(text, s);
    } else if text[p + 1] == SLASH {
      assert o == CloseStep(text, tbl, s);
    } else if o.Next? {
      assert o == OpenStep(text, tbl, s);
      var top := Top(s);
      var e := RunEnd(text, p + 2, tbl, ELEMENT_NAME_NON_START, NO_STOP);
      var n := Node(Span(p + 1, e - (p + 1)), NO_SPAN, |s.attrs|, 0, None, None, top.node);
      assert o.state.nodes == AppendChild(s.nodes, top.node, top.last, n);
      KeepRuns(text, trim, tbl, s.nodes, o.state.nodes);
    }
  }

  /** Character data at top level builds nothing; inside an element, its run is added. */
  lemma TextRuns(text: seq<byte>, trim: bool, tbl: Table, s: State)
    requires WF(text, s) && s.mode == Content && s.pos < |text| && text[s.pos] != LT
    requires |s.stack| > 1 ==> 1 <= s.pos && text[s.pos - 1] == GT
    requires Runs(text, trim, tbl, s.nodes) && Reached(text, tbl, s.pos, Between)
    ensures var o := TextStep(text, trim, tbl, s); o.Next? ==> Runs(text, trim, tbl, o.state.nodes)
  {
    var q := RunEnd(text, s.pos, tbl, DataType(s), LT);
    if |s.stack| > 1 && q < |text| && text[q] == LT {
      AddTextRuns(text, trim, tbl, s, q);
    }
  }

  /** A run inside an element becomes a text that comes from that run: the scanner stands
      just after a '>' and the run reaches the next '<'. */
  lemma AddTextRuns(text: seq<byte>, trim: bool, tbl: Table, s: State, q: nat)
    requires WF(text, s) && 1 <= s.pos < q < |text| && text[s.pos - 1] == GT && text[q] == LT
    requires q == RunEnd(text, s.pos, tbl, ELEMENT_TEXT, LT)
    requires Runs(text, trim, tbl, s.nodes) && Reached(text, tbl, s.pos, Between)
    ensures Runs(text, trim, tbl, AddText(text, trim, tbl, s, q).nodes)
  {
    var sp := RunSpan(text, trim, tbl, s.pos, q);
    var s' := AddText(text, trim, tbl, s, q);
    if sp.length > 0 {
      RunEndFind(text, s.pos, tbl, ELEMENT_TEXT, LT);
      assert RunAt(text, trim, tbl, s.pos, sp);
      forall i | 1 <= i < |s'.nodes| && s'.nodes[i].text.length > 0
        ensures FromRun(text, trim, tbl, s'.nodes[i].text)
      {
        if i < |s.nodes| && s'.nodes[i].text != sp {
          assert s'.nodes[i].text == s.nodes[i].text;
        }
      }
    }
  }

  lemma StepRuns(text: seq<byte>, trim: bool, tbl: Table, s: State)
    requires Good(text, trim, tbl, s) && Runs(text, trim, tbl, s.nodes) && Reached(text, tbl, s.pos, PlaceOf(s.mode))
    ensures var o := Step(text, trim, tbl, s); !o.Reject? ==> Runs(text, trim, tbl, o.state.nodes)
  {
    match s.mode
    case InTag(_) =>
      TagRuns(text, trim, tbl, s);
    case Content =>
      if s.pos == |text| {
      } else if text[s.pos] == LT {
        MarkupRuns(text, trim, tbl, s);
      } else {
        TextRuns(text, trim, tbl, s);
      }
  }

  lemma {:induction false} RunRuns(text: seq<byte>, trim: bool, tbl: Table, s: State)
    requires Good(text, trim, tbl, s) && Runs(text, trim, tbl, s.nodes) && Reached(text, tbl, s.pos, PlaceOf(s.mode))
    ensures var r := Run(text, trim, tbl, s); r.Accepted? ==> Runs(text, trim, tbl, r.state.nodes)
    decreases |text| - s.pos
  {
    StepRuns(text, trim, tbl, s);
    StepGood(text, trim, tbl, s);
    StepReaches(text, trim, tbl, s);
    match Step(text, trim, tbl, s)
    case Next(s') =>
      RunRuns(text, trim, tbl, s');
    case Accept(_) =>
    case Reject(_) =>
  }

  /** In every document a parse accepts, each element text and each text node is a whole run
      of character data after a '>' and up to a '<', trimmed exactly when trimming is asked
      for. */
  lemma ParsedRuns(text: seq<byte>, trim: bool, tbl: Table)
    ensures var r := ParseDocument(text, trim, tbl); r.Parsed? ==> Runs(text, trim, tbl, r.dom.nodes)
  {
    if |text| > 0 {
      InitialGood(text, trim, tbl);
      InitialRuns(text, trim, tbl);
      RunRuns(text, trim, tbl, Initial());
    }
  }
}
