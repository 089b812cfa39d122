/** The scanner and tree builder as a state machine: one Step consumes one construct of the
    document (a text run, a comment, a processing instruction, an opening tag's name, one
    attribute, the end of an opening tag, a closing tag), and Run repeats it to the end. */
module Grammar {
  import opened XmlTypes
  import opened Classifier
  import opened Scan
  import opened Dom

  /** One open element: its arena index, its last child so far, and the position of the '<'
      of its opening tag. */
  datatype Frame = Frame(node: nat, last: Option<nat>, tagPos: nat)

  /** Content: between tags. InTag: inside the opening tag whose '<' is at tagPos, after its
      name or after an attribute; the element being opened is the newest arena record. */
  datatype Mode = Content | InTag(tagPos: nat)

  /** The scanner position, the explicit stack of open elements (the root at its base), and
      the two arenas built so far. seenTop records that a top-level element was opened. */
  datatype State = State(
    mode: Mode,
    pos: nat,
    stack: seq<Frame>,
    nodes: seq<Node>,
    attrs: seq<XmlAttribute>,
    seenTop: bool)

  datatype Outcome = Next(state: State) | Accept(state: State) | Reject(errorPos: nat)

  datatype Final = Accepted(state: State) | Rejected(errorPos: nat)

  /** The result of a whole parse: the document, or the error code and error position. */
  datatype ParseResult = Parsed(dom: Dom) | Failed(code: Error, pos: int)

  const COMMENT_CLOSE: seq<byte> := [DASH, DASH, GT]
  const PI_CLOSE: seq<byte> := [QUESTION, GT]

  function Initial(): State {
    State(Content, 0, [Frame(ROOT, None, 0)], [ROOT_NODE], [], false)
  }

  /** The state before the first byte of a non-empty text, field by field: Content mode at
      position 0, only the root open and without children, no attribute, no top-level element
      seen. */
  ghost predicate AtStart(text: seq<byte>, s: State) {
    && 0 < |text| && s.mode == Content && s.pos == 0 && !s.seenTop && |s.attrs| == 0
    && |s.stack| == 1 && s.stack[0].node == ROOT && s.stack[0].last.None? && s.stack[0].tagPos < |text|
    && |s.nodes| == 1 && s.nodes[ROOT].name.length == 0 && s.nodes[ROOT].name.start <= |text|
    && s.nodes[ROOT].text.length == 0 && s.nodes[ROOT].attrStart == 0 && s.nodes[ROOT].attrCount == 0
    && s.nodes[ROOT].firstChild.None? && s.nodes[ROOT].next.None?
  }

  lemma InitialAtStart(text: seq<byte>)
    requires 0 < |text|
    ensures AtStart(text, Initial())
  {
  }

  /** The state before the first byte is well formed. */
  lemma InitialWF(text: seq<byte>, s: State)
    requires AtStart(text, s)
    ensures WF(text, s)
  {
    assert FrameWF(text, s.nodes, s.stack[0]);
  }

  ghost predicate FrameWF(text: seq<byte>, nodes: seq<Node>, f: Frame) {
    && f.node < |nodes|
    && (f.last.Some? ==> f.last.value < |nodes|)
    && f.tagPos < |text|
    && nodes[f.node].name.End() <= |text|
  }

  /** What Step needs to be defined. */
  ghost predicate WF(text: seq<byte>, s: State) {
    && 0 < |text|
    && s.pos <= |text|
    && |s.nodes| >= 1
    && |s.stack| >= 1 && s.stack[0].node == ROOT
    && (forall i :: 0 <= i < |s.stack| ==> FrameWF(text, s.nodes, s.stack[i]))
    && (s.mode.InTag? ==>
          s.mode.tagPos < |text| && |s.nodes| >= 2 && s.nodes[|s.nodes| - 1].name.End() <= |text|)
  }

  function Top(s: State): Frame
    requires |s.stack| >= 1
  {
    s.stack[|s.stack| - 1]
  }

  /** The stack with its top element's last child set to k. */
  function SetTopLast(stack: seq<Frame>, k: nat): seq<Frame>
    requires |stack| >= 1
  {
    stack[|stack| - 1 := stack[|stack| - 1].(last := Some(k))]
  }

  ghost predicate Progress(text: seq<byte>, s: State, o: Outcome) {
    && (o.Next? ==> WF(text, o.state) && o.state.pos > s.pos)
    && (o.Reject? ==> o.errorPos < |text|)
    && (o.Accept? ==> o.state == s && |s.stack| == 1 && s.seenTop)
  }

  /** End of the document: every element must be closed and one must have been seen. An
      element left open is reported at its '<', a document without any element at 0. */
  function EndStep(text: seq<byte>, s: State): (o: Outcome)
    requires WF(text, s) && s.mode == Content && s.pos == |text|
    ensures Progress(text, s, o)
    ensures o.Accept? <==> |s.stack| == 1 && s.seenTop
    ensures |s.stack| > 1 ==> o == Reject(Top(s).tagPos)
    ensures |s.stack| == 1 && !s.seenTop ==> o == Reject(0)
  {
    if |s.stack| > 1 then Reject(Top(s).tagPos)
    else if !s.seenTop then Reject(0)
    else Accept(s)
  }

  /** The character data of the run [lo, hi): the run itself, or without its leading and
      trailing spaces when trimming is asked for. */
  function RunSpan(text: seq<byte>, trim: bool, tbl: Table, lo: nat, hi: nat): (sp: Span)
    requires lo <= hi <= |text|
    ensures lo <= sp.start && sp.End() <= hi
  {
    if trim then TrimSpan(text, lo, hi, tbl) else Span(lo, hi - lo)
  }

  /** The element text of a closing tag's element before any child; the test looks one byte
      past the '<' that ends the run. */
  predicate OwnText(text: seq<byte>, s: State, q: nat)
    requires |s.stack| >= 1
  {
    Top(s).last.None? && q + 1 < |text| && text[q + 1] == SLASH
  }

  /** The text run [s.pos, q) of an open element, materialized (after trimming if asked for):
      dropped when empty, the element's own text when the element has no child yet and its
      closing tag follows, and otherwise a text node appended to its children. */
  function AddText(text: seq<byte>, trim: bool, tbl: Table, s: State, q: nat): (s': State)
    requires WF(text, s) && s.pos < q < |text|
    ensures WF(text, s') && s'.pos == q
    ensures s'.mode == s.mode && s'.attrs == s.attrs && s'.seenTop == s.seenTop
    ensures var sp := RunSpan(text, trim, tbl, s.pos, q); var x := Top(s).node;
      && (sp.length == 0 ==> s' == s.(pos := q))
      && (sp.length > 0 && OwnText(text, s, q) ==>
            s'.stack == s.stack && s'.nodes == s.nodes[x := s.nodes[x].(text := sp)])
      && (sp.length > 0 && !OwnText(text, s, q) ==>
            && |s'.nodes| == |s.nodes| + 1
            && s'.nodes == AppendChild(s.nodes, x, Top(s).last, s'.nodes[|s.nodes|])
            && s'.nodes[|s.nodes|] == Node(NO_SPAN, sp, |s.attrs|, 0, None, None, x)
            && s'.stack == SetTopLast(s.stack, |s.nodes|))
  {
    var sp := RunSpan(text, trim, tbl, s.pos, q);
    var top := Top(s);
    if sp.length == 0 then s.(pos := q)
    else if OwnText(text, s, q) then
      s.(pos := q, nodes := s.nodes[top.node := s.nodes[top.node].(text := sp)])
    else
      var k := |s.nodes|;
      s.(pos := q,
         nodes := AppendChild(s.nodes, top.node, top.last, Node(NO_SPAN, sp, |s.attrs|, 0, None, None, top.node)),
         stack := SetTopLast(s.stack, k))
  }

  /** The text type of character data: only spaces at top level, element text inside an element. */
  function DataType(s: State): TextType {
    if |s.stack| == 1 then SPACE else ELEMENT_TEXT
  }

  /** Bytes up to the next '<': only spaces at top level; element text inside an element. The
      first byte before the next '<' that its text type does not allow is an error at that
      byte; a run that reaches the end inside an element is an error at the element's '<'. */
  function TextStep(text: seq<byte>, trim: bool, tbl: Table, s: State): (o: Outcome)
    requires WF(text, s) && s.mode == Content && s.pos < |text| && text[s.pos] != LT
    ensures Progress(text, s, o)
    ensures !o.Accept?
    ensures var q := RunEnd(text, s.pos, tbl, DataType(s), LT);
      && (q < |text| && text[q] != LT ==> o == Reject(q))
      && (q < |text| && text[q] == LT ==>
            o == Next(if |s.stack| == 1 then s.(pos := q) else AddText(text, trim, tbl, s, q)))
      && (q == |text| ==> o == if |s.stack| == 1 then Next(s.(pos := q)) else Reject(Top(s).tagPos))
  {
    if |s.stack| == 1 then
      var q := RunEnd(text, s.pos, tbl, SPACE, LT);
      if q < |text| && text[q] != LT then Reject(q) else Next(s.(pos := q))
    else
      var q := RunEnd(text, s.pos, tbl, ELEMENT_TEXT, LT);
      if q < |text| && text[q] != LT then Reject(q)
      else if q == |text| then Reject(Top(s).tagPos)
      else Next(AddText(text, trim, tbl, s, q))
  }

  /** The bytes of a name. */
  function NameBytes(text: seq<byte>, sp: Span): seq<byte>
    requires sp.End() <= |text|
  {
    text[sp.start..sp.End()]
  }

  /** The closing tag at s.pos closes the innermost open element: more than the root is open,
      a name run starts after `</`, it repeats that element's name byte for byte, and '>'
      follows it. */
  ghost predicate ClosesTop(text: seq<byte>, tbl: Table, s: State)
    requires WF(text, s) && s.pos + 1 < |text|
  {
    var n0 := s.pos + 2;
    && |s.stack| > 1 && n0 < |text| && Allowed(tbl, ELEMENT_NAME_START, text[n0])
    && var e := RunEnd(text, n0 + 1, tbl, ELEMENT_NAME_NON_START, NO_STOP);
       e < |text| && text[e] == GT && text[n0..e] == NameBytes(text, s.nodes[Top(s).node].name)
  }

  /** A closing tag at s.pos: its name must be that of the innermost open element, which it
      closes; nothing else changes. */
  function CloseStep(text: seq<byte>, tbl: Table, s: State): (o: Outcome)
    requires WF(text, s) && s.mode == Content && s.pos + 1 < |text|
    requires text[s.pos] == LT && text[s.pos + 1] == SLASH
    ensures Progress(text, s, o)
    ensures !o.Accept?
    ensures o.Next? <==> ClosesTop(text, tbl, s)
    ensures o.Next? ==>
      && o.state.mode == Content && text[o.state.pos - 1] == GT
      && text[s.pos + 2..o.state.pos - 1] == NameBytes(text, s.nodes[Top(s).node].name)
      && o.state.stack == s.stack[..|s.stack| - 1]
      && o.state.nodes == s.nodes && o.state.attrs == s.attrs && o.state.seenTop == s.seenTop
  {
    var p := s.pos;
    var n0 := p + 2;
    if |s.stack| == 1 then Reject(p)
    else if n0 == |text| then Reject(p)
    else if !Allowed(tbl, ELEMENT_NAME_START, text[n0]) then Reject(n0)
    else
      var e := RunEnd(text, n0 + 1, tbl, ELEMENT_NAME_NON_START, NO_STOP);
      var open := s.nodes[Top(s).node].name;
      if text[n0..e] != NameBytes(text, open) then Reject(p)
      else if e == |text| then Reject(p)
      else if text[e] != GT then Reject(e)
      else Next(s.(pos := e + 1, stack := s.stack[..|s.stack| - 1]))
  }

  /** The name of an opening tag at s.pos: a new element is appended as the last child of
      the innermost open element, and its attributes follow. */
  function OpenStep(text: seq<byte>, tbl: Table, s: State): (o: Outcome)
    requires WF(text, s) && s.mode == Content && s.pos + 1 < |text| && text[s.pos] == LT
    ensures Progress(text, s, o)
    ensures !o.Accept?
  {
    var p := s.pos;
    var n0 := p + 1;
    var top := Top(s);
    if !Allowed(tbl, ELEMENT_NAME_START, text[n0]) then Reject(n0)
    else
      var e := RunEnd(text, n0 + 1, tbl, ELEMENT_NAME_NON_START, NO_STOP);
      var n := Node(Span(n0, e - n0), NO_SPAN, |s.attrs|, 0, None, None, top.node);
      Next(State(InTag(p), e, SetTopLast(s.stack, |s.nodes|),
                 AppendChild(s.nodes, top.node, top.last, n), s.attrs,
                 s.seenTop || |s.stack| == 1))
  }

  /** '<' at s.pos: a processing instruction or a comment is skipped up to its terminator;
      any other '<!' (a CDATA section among them) is an error at the '<'. */
  function MarkupStep(text: seq<byte>, tbl: Table, s: State): (o: Outcome)
    requires WF(text, s) && s.mode == Content && s.pos < |text| && text[s.pos] == LT
    ensures Progress(text, s, o)
    ensures !o.Accept?
  {
    var p := s.pos;
    if p + 1 == |text| then Reject(p)
    else if text[p + 1] == QUESTION || text[p + 1] == BANG then SkipStep(text, s)
    else if text[p + 1] == SLASH then CloseStep(text, tbl, s)
    else OpenStep(text, tbl, s)
  }

  /** Markup opened by `<?` or `<!`: a processing instruction is passed over up to its `?>`
      and a comment up to its `-->`, and neither builds anything; an unterminated one fails at
      its '<', and so does any other `<!`. */
  function SkipStep(text: seq<byte>, s: State): (o: Outcome)
    requires WF(text, s) && s.mode == Content && s.pos + 1 < |text| && text[s.pos] == LT
    requires text[s.pos + 1] == QUESTION || text[s.pos + 1] == BANG
    ensures Progress(text, s, o)
    ensures o.Next? || o == Reject(s.pos)
    ensures o.Next? ==> o.state == s.(pos := o.state.pos) && text[o.state.pos - 1] == GT
  {
    var p := s.pos;
    if text[p + 1] == QUESTION then
      match Find(text, p + 2, PI_CLOSE)
      case None => Reject(p)
      case Some(e) => MatchAtByte(text, e, PI_CLOSE, 1); Next(s.(pos := e + 2))
    else if p + 3 < |text| && text[p + 2] == DASH && text[p + 3] == DASH then
      match Find(text, p + 4, COMMENT_CLOSE)
      case None => Reject(p)
      case Some(e) => MatchAtByte(text, e, COMMENT_CLOSE, 2); Next(s.(pos := e + 3))
    else Reject(p)
  }

  /** One attribute `name="value"` (or with single quotes) starting at q. */
  function AttributeStep(text: seq<byte>, tbl: Table, s: State, q: nat): (o: Outcome)
    requires WF(text, s) && s.mode.InTag? && s.pos <= q < |text|
    ensures Progress(text, s, o)
    ensures !o.Accept?
  {
    var tp := s.mode.tagPos;
    if !Allowed(tbl, ATTRIBUTE_NAME_START, text[q]) then Reject(q)
    else
      var e := RunEnd(text, q + 1, tbl, ATTRIBUTE_NAME_NON_START, NO_STOP);
      if e == |text| then Reject(tp)
      else if text[e] != EQUALS then Reject(e)
      else if e + 1 == |text| then Reject(tp)
      else if text[e + 1] != DQUOTE && text[e + 1] != SQUOTE then Reject(e + 1)
      else
        var v := RunEnd(text, e + 2, tbl, ATTRIBUTE_VALUE, text[e + 1]);
        if v == |text| then Reject(tp)
        else if text[v] != text[e + 1] then Reject(v)
        else
          var k := |s.nodes| - 1;
          Next(s.(pos := v + 1,
                  nodes := s.nodes[k := s.nodes[k].(attrCount := s.nodes[k].attrCount + 1)],
                  attrs := s.attrs + [XmlAttribute(Span(q, e - q), Span(e + 2, v - (e + 2)))]))
  }

  /** Inside an opening tag: after optional spaces, '>' opens the element, '/>' closes it at
      once, and anything else must be an attribute. */
  function TagStep(text: seq<byte>, tbl: Table, s: State): (o: Outcome)
    requires WF(text, s) && s.mode.InTag?
    ensures Progress(text, s, o)
    ensures !o.Accept?
  {
    var tp := s.mode.tagPos;
    var q := RunEnd(text, s.pos, tbl, SPACE, NO_STOP);
    if q == |text| then Reject(tp)
    else if text[q] == GT then
      Next(s.(mode := Content, pos := q + 1, stack := s.stack + [Frame(|s.nodes| - 1, None, tp)]))
    else if text[q] == SLASH then
      if q + 1 == |text| then Reject(tp)
      else if text[q + 1] != GT then Reject(q + 1)
      else Next(s.(mode := Content, pos := q + 2))
    else AttributeStep(text, tbl, s, q)
  }

  /** One construct. The document is accepted exactly at its end, with only the root open and
      a top-level element seen. */
  function Step(text: seq<byte>, trim: bool, tbl: Table, s: State): (o: Outcome)
    requires WF(text, s)
    ensures Progress(text, s, o)
    ensures o.Accept? <==> s.mode == Content && s.pos == |text| && |s.stack| == 1 && s.seenTop
  {
    match s.mode
    case InTag(_) => TagStep(text, tbl, s)
    case Content =>
      if s.pos == |text| then EndStep(text, s)
      else if text[s.pos] == LT then MarkupStep(text, tbl, s)
      else TextStep(text, trim, tbl, s)
  }

  /** Steps from s until the document is accepted or rejected. */
  function Run(text: seq<byte>, trim: bool, tbl: Table, s: State): (r: Final)
    requires WF(text, s)
    ensures r.Rejected? ==> r.errorPos < |text|
    ensures r.Accepted? ==> WF(text, r.state) && r.state.mode == Content && |r.state.stack| == 1 && r.state.seenTop
    ensures r.Accepted? ==> r.state.pos == |text|
    decreases |text| - s.pos
  {
    match Step(text, trim, tbl, s)
    case Next(s') => Run(text, trim, tbl, s')
    case Accept(s') => Accepted(s')
    case Reject(p) => Rejected(p)
  }

  /** mdz_xml_parse on a text of |text| bytes with the classifier settings tbl: an empty text is
      a parameter error with no position; a grammar violation is a parse error at the index of
      the offending byte. */
  function ParseDocument(text: seq<byte>, trim: bool, tbl: Table): (r: ParseResult)
    ensures |text| == 0 <==> r == Failed(Param, SIZE_MAX)
    ensures r.Failed? ==> r.code == Param || r.code == Parse
    ensures r.Failed? && r.code == Parse ==> 0 <= r.pos < |text|
  {
    if |text| == 0 then Failed(Param, SIZE_MAX)
    else
      assert WF(text, Initial()) by {
        InitialAtStart(text);
        InitialWF(text, Initial());
      }
      match Run(text, trim, tbl, Initial())
      case Accepted(f) => Parsed(Dom(f.nodes, f.attrs))
      case Rejected(p) => Failed(Parse, p)
  }
}
