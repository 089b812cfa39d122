/** The parser instance (struct mdz_Xml) and its two parse entry points. The scanner works with
    a position-advancing loop over an explicit stack of open elements; each construct is
    scanned by a method proved equal to the Step of module Grammar that specifies it. */
module Parser {
  import opened XmlTypes
  import opened Classifier
  import opened Scan
  import opened Dom
  import opened Grammar
  import opened Properties

  method ScanText(text: seq<byte>, trim: bool, tbl: Table, s: State) returns (o: Outcome)
    requires WF(text, s) && s.mode == Content && s.pos < |text| && text[s.pos] != LT
    ensures o == TextStep(text, trim, tbl, s)
  {
    if |s.stack| == 1 {
      var q := ScanRun(text, s.pos, tbl, SPACE, LT);
      if q < |text| && text[q] != LT {
        return Reject(q);
      }
      return Next(s.(pos := q));
    }
    var q := ScanRun(text, s.pos, tbl, ELEMENT_TEXT, LT);
    if q < |text| && text[q] != LT {
      return Reject(q);
    }
    if q == |text| {
      return Reject(Top(s).tagPos);
    }
    var s' := ScanAddText(text, trim, tbl, s, q);
    o := Next(s');
  }

  method ScanAddText(text: seq<byte>, trim: bool, tbl: Table, s: State, q: nat) returns (s': State)
    requires WF(text, s) && s.pos < q < |text|
    ensures s' == AddText(text, trim, tbl, s, q)
  {
    var top := Top(s);
    var sp := Span(s.pos, q - s.pos);
    if trim {
      sp := TrimRun(text, s.pos, q, tbl);
    }
    if sp.length == 0 {
      s' := s.(pos := q);
    } else if top.last.None? && q + 1 < |text| && text[q + 1] == SLASH {
      var element := s.nodes[top.node].(text := sp);
      s' := s.(pos := q, nodes := s.nodes[top.node := element]);
    } else {
      var k := |s.nodes|;
      var node := Node(NO_SPAN, sp, |s.attrs|, 0, None, None, top.node);
      s' := s.(pos := q, nodes := AppendChild(s.nodes, top.node, top.last, node),
               stack := SetTopLast(s.stack, k));
    }
  }

  method ScanClose(text: seq<byte>, tbl: Table, s: State) returns (o: Outcome)
    requires WF(text, s) && s.mode == Content && s.pos + 1 < |text|
    requires text[s.pos] == LT && text[s.pos + 1] == SLASH
    ensures o == CloseStep(text, tbl, s)
  {
    var p := s.pos;
    var n0 := p + 2;
    if |s.stack| == 1 || n0 == |text| {
      return Reject(p);
    }
    if !Allowed(tbl, ELEMENT_NAME_START, text[n0]) {
      return Reject(n0);
    }
    var e := ScanRun(text, n0 + 1, tbl, ELEMENT_NAME_NON_START, NO_STOP);
    var open := s.nodes[Top(s).node].name;
    if text[n0..e] != text[open.start..open.End()] || e == |text| {
      o := Reject(p);
    } else if text[e] != GT {
      o := Reject(e);
    } else {
      o := Next(s.(pos := e + 1, stack := s.stack[..|s.stack| - 1]));
    }
  }

  method ScanOpen(text: seq<byte>, tbl: Table, s: State) returns (o: Outcome)
    requires WF(text, s) && s.mode == Content && s.pos + 1 < |text| && text[s.pos] == LT
    ensures o == OpenStep(text, tbl, s)
  {
    var p := s.pos;
    var n0 := p + 1;
    if !Allowed(tbl, ELEMENT_NAME_START, text[n0]) {
      return Reject(n0);
    }
    var e := ScanRun(text, n0 + 1, tbl, ELEMENT_NAME_NON_START, NO_STOP);
    var top := Top(s);
    var node := Node(Span(n0, e - n0), NO_SPAN, |s.attrs|, 0, None, None, top.node);
    var nodes := AppendChild(s.nodes, top.node, top.last, node);
    o := Next(State(InTag(p), e, SetTopLast(s.stack, |s.nodes|), nodes, s.attrs,
                    s.seenTop || |s.stack| == 1));
  }

  method ScanMarkup(text: seq<byte>, tbl: Table, s: State) returns (o: Outcome)
    requires WF(text, s) && s.mode == Content && s.pos < |text| && text[s.pos] == LT
    ensures o == MarkupStep(text, tbl, s)
  {
    var p := s.pos;
    if p + 1 == |text| {
      o := Reject(p);
    } else if text[p + 1] == QUESTION || text[p + 1] == BANG {
      o := ScanSkipped(text, s);
    } else if text[p + 1] == SLASH {
      o := ScanClose(text, tbl, s);
    } else {
      o := ScanOpen(text, tbl, s);
    }
  }

  method ScanSkipped(text: seq<byte>, s: State) returns (o: Outcome)
    requires WF(text, s) && s.mode == Content && s.pos + 1 < |text| && text[s.pos] == LT
    requires text[s.pos + 1] == QUESTION || text[s.pos + 1] == BANG
    ensures o == SkipStep(text, s)
  {
    var p := s.pos;
    if text[p + 1] == QUESTION {
      var e := FindMarker(text, p + 2, PI_CLOSE);
      o := if e.Some? then Next(s.(pos := e.value + 2)) else Reject(p);
    } else if p + 3 < |text| && text[p + 2] == DASH && text[p + 3] == DASH {
      var e := FindMarker(text, p + 4, COMMENT_CLOSE);
      o := if e.Some? then Next(s.(pos := e.value + 3)) else Reject(p);
    } else {
      o := Reject(p);
    }
  }

  method ScanAttribute(text: seq<byte>, tbl: Table, s: State, q: nat) returns (o: Outcome)
    requires WF(text, s) && s.mode.InTag? && s.pos <= q < |text|
    ensures o == AttributeStep(text, tbl, s, q)
  {
    var tp := s.mode.tagPos;
    if !Allowed(tbl, ATTRIBUTE_NAME_START, text[q]) {
      return Reject(q);
    }
    var e := ScanRun(text, q + 1, tbl, ATTRIBUTE_NAME_NON_START, NO_STOP);
    if e == |text| {
      return Reject(tp);
    }
    if text[e] != EQUALS {
      return Reject(e);
    }
    if e + 1 == |text| {
      return Reject(tp);
    }
    var quote := text[e + 1];
    if quote != DQUOTE && quote != SQUOTE {
      return Reject(e + 1);
    }
    o := ScanValue(text, tbl, s, q, e);
  }

  /** The quoted value of the attribute whose name is [q, e). */
  method ScanValue(text: seq<byte>, tbl: Table, s: State, q: nat, e: nat) returns (o: Outcome)
    requires WF(text, s) && s.mode.InTag? && s.pos <= q < |text|
    requires Allowed(tbl, ATTRIBUTE_NAME_START, text[q])
    requires e == RunEnd(text, q + 1, tbl, ATTRIBUTE_NAME_NON_START, NO_STOP)
    requires e + 1 < |text| && text[e] == EQUALS && (text[e + 1] == DQUOTE || text[e + 1] == SQUOTE)
    ensures o == AttributeStep(text, tbl, s, q)
  {
    var tp := s.mode.tagPos;
    var quote := text[e + 1];
    var v := ScanRun(text, e + 2, tbl, ATTRIBUTE_VALUE, quote);
    if v == |text| {
      return Reject(tp);
    }
    if text[v] != quote {
      return Reject(v);
    }
    var k := |s.nodes| - 1;
    var element := s.nodes[k].(attrCount := s.nodes[k].attrCount + 1);
    var attribute := XmlAttribute(Span(q, e - q), Span(e + 2, v - (e + 2)));
    o := Next(s.(pos := v + 1, nodes := s.nodes[k := element], attrs := s.attrs + [attribute]));
  }

  method ScanTag(text: seq<byte>, tbl: Table, s: State) returns (o: Outcome)
    requires WF(text, s) && s.mode.InTag?
    ensures o == TagStep(text, tbl, s)
  {
    var tp := s.mode.tagPos;
    var q := ScanRun(text, s.pos, tbl, SPACE, NO_STOP);
    if q == |text| {
      o := Reject(tp);
    } else if text[q] == GT {
      o := Next(s.(mode := Content, pos := q + 1, stack := s.stack + [Frame(|s.nodes| - 1, None, tp)]));
    } else if text[q] == SLASH {
      if q + 1 == |text| {
        o := Reject(tp);
      } else if text[q + 1] != GT {
        o := Reject(q + 1);
      } else {
        o := Next(s.(mode := Content, pos := q + 2));
      }
    } else {
      o := ScanAttribute(text, tbl, s, q);
    }
  }

  method ScanStep(text: seq<byte>, trim: bool, tbl: Table, s: State) returns (o: Outcome)
    requires WF(text, s)
    ensures o == Step(text, trim, tbl, s)
  {
    if s.mode.InTag? {
      o := ScanTag(text, tbl, s);
    } else if s.pos == |text| {
      o := EndStep(text, s);
    } else if text[s.pos] == LT {
      o := ScanMarkup(text, tbl, s);
    } else {
      o := ScanText(text, trim, tbl, s);
    }
  }

  /** The whole scan: Step is repeated until the document is accepted or rejected. */
  method ScanDocument(text: seq<byte>, trim: bool, tbl: Table) returns (r: Final)
    requires 0 < |text|
    ensures r == Run(text, trim, tbl, Initial())
  {
    var s := Initial();
    assert WF(text, s) by {
      InitialAtStart(text);
      InitialWF(text, s);
    }
    var o := ScanStep(text, trim, tbl, s);
    while o.Next?
      invariant WF(text, s) && o == Step(text, trim, tbl, s)
      invariant Run(text, trim, tbl, s) == Run(text, trim, tbl, Initial())
      decreases |text| - s.pos
    {
      s := o.state;
      o := ScanStep(text, trim, tbl, s);
    }
    r := if o.Accept? then Accepted(o.state) else Rejected(o.errorPos);
  }

  /** struct mdz_Xml with the document it owns. */
  class Xml {
    /** Error position of the last parse; SIZE_MAX when no parse has failed with a position. */
    var errorPos: int
    var errorCode: Error
    /** The element and attribute arenas; present exactly when the last parse succeeded. */
    var dom: Option<Dom>
    /** The bytes the spans of `dom` index (the instance's byte source). */
    var source: seq<byte>
    ghost var trimmed: bool
    ghost var letters: Table

    ghost predicate Valid()
      reads this
    {
      && (dom.Some? ==> errorCode == NoError && errorPos == SIZE_MAX && DomOk(source, trimmed, letters, dom.value))
      && (errorCode == Error.Parse ==> 0 <= errorPos < |source|)
      && (errorCode == Error.Param ==> errorPos == SIZE_MAX)
    }

    /** mdz_xml_create: no parse started, no document. */
    constructor ()
      ensures Valid()
      ensures errorPos == SIZE_MAX && errorCode == NoError && dom == None
    {
      errorPos := SIZE_MAX;
      errorCode := NoError;
      dom := None;
      source := [];
      letters := DefaultTable();
    }

    /** mdz_xml_parse: parses a copy of text with the classifier settings in force now. Every
        call overwrites the error record and replaces or discards the previous document. */
    method Parse(text: seq<byte>, trim: bool, table: LetterTable) returns (ok: bool)
      requires table.Valid()
      modifies this
      ensures Valid()
      ensures ok <==> dom.Some?
      ensures ok <==> ErrorValue(errorCode) == 0
      ensures source == text && trimmed == trim && letters == table.Snapshot()
      ensures match ParseDocument(text, trim, table.Snapshot())
        case Parsed(d) => dom == Some(d) && errorCode == NoError && errorPos == SIZE_MAX
        case Failed(code, p) => dom == None && errorCode == code && errorPos == p
      ensures |text| == 0 ==> errorCode == Param && errorPos == SIZE_MAX && dom == None
      ensures errorCode == Error.Parse ==> errorPos < |text|
    {
      var tbl := table.Snapshot();
      source, trimmed, letters := text, trim, tbl;
      if |text| == 0 {
        errorCode, errorPos, dom := Param, SIZE_MAX, None;
        return false;
      }
      var r := ScanDocument(text, trim, tbl);
      match r
      case Accepted(f) =>
        ParsedDomOk(text, trim, tbl);
        errorCode, errorPos, dom := NoError, SIZE_MAX, Some(Dom(f.nodes, f.attrs));
        ok := true;
      case Rejected(p) =>
        errorCode, errorPos, dom := Error.Parse, p, None;
        ok := false;
    }

    /** mdz_xml_parseWritable: the same document as Parse on the buffer's bytes. */
    method ParseWritable(text: array<byte>, trim: bool, table: LetterTable) returns (ok: bool)
      requires table.Valid()
      modifies this
      ensures Valid()
      ensures ok <==> dom.Some?
      ensures ok <==> ErrorValue(errorCode) == 0
      ensures source == text[..] && trimmed == trim && letters == table.Snapshot()
      ensures match ParseDocument(text[..], trim, table.Snapshot())
        case Parsed(d) => dom == Some(d) && errorCode == NoError && errorPos == SIZE_MAX
        case Failed(code, p) => dom == None && errorCode == code && errorPos == p
    {
      ok := Parse(text[..], trim, table);
    }
  }
}
