/** The lexical structure of a document, apart from the tree: from the start of the text, one
    token follows another, each determined by where it starts. Between tags a token is a run
    of character data up to the next '<', a processing instruction up to its `?>`, a comment
    up to its `-->`, a closing tag or the name of an opening tag; inside an opening tag a token
    is one attribute, the '>' that ends the tag, or its '/>'. Character data and attribute
    values are not checked here against their text types: a byte they do not allow makes the
    parse fail, but never moves a token boundary of a document that parses. */
module Tokens {
  import opened XmlTypes
  import opened Classifier
  import opened Scan

  /** Where the lexer stands: between tags, or inside an opening tag after its name or one of
      its attributes. */
  datatype Place = Between | Inside

  datatype Kind = Chars | Instruction | Comment | CloseTag | OpenName | Attribute | TagEnd | EmptyEnd {
    /** The kinds read inside an opening tag. */
    predicate InTag() { this == Attribute || this == TagEnd || this == EmptyEnd }
  }

  /** A token: its kind and the index just past its last byte. */
  datatype Token = Token(kind: Kind, end: nat)

  /** Where the lexer stands after a token of kind k. */
  function After(k: Kind): Place {
    if k == OpenName || k == Attribute then Inside else Between
  }

  const LT_MARK: seq<byte> := [LT]
  const PI_MARK: seq<byte> := [QUESTION, GT]
  const COMMENT_MARK: seq<byte> := [DASH, DASH, GT]

  /** The token that starts at p, or None when none does (the text ends inside it, or the
      bytes there start no construct of the grammar). */
  function TokenAt(text: seq<byte>, tbl: Table, pl: Place, p: nat): (r: Option<Token>)
    requires p < |text|
    ensures r.Some? ==> p < r.value.end <= |text|
    ensures r.Some? ==> (r.value.kind.InTag() <==> pl == Inside)
  {
    match pl
    case Between =>
      if text[p] != LT then
        Some(Token(Chars, match Find(text, p, LT_MARK) case None => |text| case Some(e) => e))
      else if p + 1 == |text| then None
      else if text[p + 1] == QUESTION then
        match Find(text, p + 2, PI_MARK)
        case None => None
        case Some(e) => Some(Token(Instruction, e + 2))
      else if text[p + 1] == BANG then
        if p + 3 < |text| && text[p + 2] == DASH && text[p + 3] == DASH then
          match Find(text, p + 4, COMMENT_MARK)
          case None => None
          case Some(e) => Some(Token(Comment, e + 3))
        else None
      else if text[p + 1] == SLASH then
        if p + 2 < |text| && Allowed(tbl, ELEMENT_NAME_START, text[p + 2]) then
          var e := RunEnd(text, p + 3, tbl, ELEMENT_NAME_NON_START, NO_STOP);
          if e < |text| && text[e] == GT then Some(Token(CloseTag, e + 1)) else None
        else None
      else if Allowed(tbl, ELEMENT_NAME_START, text[p + 1]) then
        Some(Token(OpenName, RunEnd(text, p + 2, tbl, ELEMENT_NAME_NON_START, NO_STOP)))
      else None
    case Inside =>
      var q := RunEnd(text, p, tbl, SPACE, NO_STOP);
      if q == |text| then None
      else if text[q] == GT then Some(Token(TagEnd, q + 1))
      else if text[q] == SLASH then
        if q + 1 < |text| && text[q + 1] == GT then Some(Token(EmptyEnd, q + 2)) else None
      else if Allowed(tbl, ATTRIBUTE_NAME_START, text[q]) then
        var e := RunEnd(text, q + 1, tbl, ATTRIBUTE_NAME_NON_START, NO_STOP);
        if e + 1 < |text| && text[e] == EQUALS && (text[e + 1] == DQUOTE || text[e + 1] == SQUOTE) then
          match Find(text, e + 2, [text[e + 1]])
          case None => None
          case Some(v) => Some(Token(Attribute, v + 1))
        else None
      else None
  }

  /** Lexing from p0, standing at pl0, reaches the boundary p, standing at pl there. */
  ghost predicate Reaches(text: seq<byte>, tbl: Table, p0: nat, pl0: Place, p: nat, pl: Place)
    decreases p - p0
  {
    if p0 == p then pl0 == pl
    else
      && p0 < p && p0 < |text|
      && match TokenAt(text, tbl, pl0, p0)
         case None => false
         case Some(t) => t.end <= p && Reaches(text, tbl, t.end, After(t.kind), p, pl)
  }

  /** p is a token boundary of the whole text, lexed from its first byte. */
  ghost predicate Reached(text: seq<byte>, tbl: Table, p: nat, pl: Place) {
    Reaches(text, tbl, 0, Between, p, pl)
  }

  /** The token that ends the opening tag whose name or last attribute ends at p: its '>' or
      its '/>', after any number of attributes. */
  function TagClose(text: seq<byte>, tbl: Table, p: nat): (r: Option<Token>)
    requires p <= |text|
    ensures r.Some? ==> p < r.value.end <= |text| && (r.value.kind == TagEnd || r.value.kind == EmptyEnd)
    decreases |text| - p, 1
  {
    if p == |text| then None else TokenClose(text, tbl, p)
  }

  /** The same, from the token at p on. */
  function TokenClose(text: seq<byte>, tbl: Table, p: nat): (r: Option<Token>)
    requires p < |text|
    ensures r.Some? ==> p < r.value.end <= |text| && (r.value.kind == TagEnd || r.value.kind == EmptyEnd)
    decreases |text| - p, 0
  {
    match TokenAt(text, tbl, Inside, p)
    case None => None
    case Some(t) => if t.kind == Attribute then TagClose(text, tbl, t.end) else Some(t)
  }

  /** A boundary followed by a token is followed by the boundary after it. */
  lemma {:induction false} ReachesNext(text: seq<byte>, tbl: Table, p0: nat, pl0: Place, p: nat, pl: Place)
    requires Reaches(text, tbl, p0, pl0, p, pl) && p < |text| && TokenAt(text, tbl, pl, p).Some?
    ensures var t := TokenAt(text, tbl, pl, p).value; Reaches(text, tbl, p0, pl0, t.end, After(t.kind))
    decreases p - p0
  {
    var t := TokenAt(text, tbl, pl, p).value;
    if p0 == p {
      assert Reaches(text, tbl, t.end, After(t.kind), t.end, After(t.kind));
    } else {
      var u := TokenAt(text, tbl, pl0, p0).value;
      ReachesNext(text, tbl, u.end, After(u.kind), p, pl);
    }
  }

  /** Of two boundaries lexed from the same start, the later is lexed from the earlier. */
  lemma {:induction false} ReachesThrough(text: seq<byte>, tbl: Table, p0: nat, pl0: Place,
                                          p: nat, pl: Place, c: nat, pc: Place)
    requires Reaches(text, tbl, p0, pl0, p, pl) && Reaches(text, tbl, p0, pl0, c, pc) && p <= c
    ensures Reaches(text, tbl, p, pl, c, pc)
    decreases p - p0
  {
    if p0 != p {
      var u := TokenAt(text, tbl, pl0, p0).value;
      ReachesThrough(text, tbl, u.end, After(u.kind), p, pl, c, pc);
    }
  }

  /** No boundary of the text lies strictly inside one of its tokens: a '<' inside a comment,
      a processing instruction, an attribute value or a run of character data starts nothing. */
  lemma TokensDisjoint(text: seq<byte>, tbl: Table, p: nat, pl: Place, c: nat, pc: Place)
    requires Reached(text, tbl, p, pl) && p < |text| && TokenAt(text, tbl, pl, p).Some?
    requires p < c < TokenAt(text, tbl, pl, p).value.end
    ensures !Reached(text, tbl, c, pc)
  {
    if Reached(text, tbl, c, pc) {
      ReachesThrough(text, tbl, 0, Between, p, pl, c, pc);
    }
  }

  /** The lexer stands at one place at each boundary. */
  lemma {:induction false} ReachesPlace(text: seq<byte>, tbl: Table, p0: nat, pl0: Place, p: nat, pl: Place, pl': Place)
    requires Reaches(text, tbl, p0, pl0, p, pl) && Reaches(text, tbl, p0, pl0, p, pl')
    ensures pl == pl'
    decreases p - p0
  {
    if p0 != p {
      var u := TokenAt(text, tbl, pl0, p0).value;
      ReachesPlace(text, tbl, u.end, After(u.kind), p, pl, pl');
    }
  }

  /** A run that stops at the stop byte, or at the end of the text, ends where that byte is
      first found. */
  lemma RunEndFind(text: seq<byte>, pos: nat, tbl: Table, t: TextType, stop: byte)
    requires pos <= |text|
    ensures var q := RunEnd(text, pos, tbl, t, stop);
      && (q == |text| ==> Find(text, pos, [stop]).None?)
      && (q < |text| && text[q] == stop ==> Find(text, pos, [stop]) == Some(q))
  {
    var q := RunEnd(text, pos, tbl, t, stop);
    RunEndBytes(text, pos, tbl, t, stop);
    forall k | pos <= k < q ensures !MatchAt(text, k, [stop]) {
      assert text[k..k + 1][0] == text[k];
    }
    if q < |text| && text[q] == stop {
      assert text[q..q + 1] == [stop];
      assert MatchAt(text, q, [stop]);
    }
  }
}
