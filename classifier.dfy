/** The character classifier: for each of the seven text types, the set of bytes allowed in it. */
module Classifier {
  import opened XmlTypes

  type Row = r: seq<bool> | |r| == 256 witness seq(256, _ => false)

  /** A value of the classifier table: Table[t][c] says whether byte c is allowed in text type t. */
  type Table = t: seq<Row> | |t| == 7 witness seq(7, _ => seq(256, _ => false))

  predicate Allowed(tbl: Table, t: TextType, c: byte) {
    tbl[t][c]
  }

  predicate IsSpace(tbl: Table, c: byte) {
    Allowed(tbl, SPACE, c)
  }

  /** ':', '_', 'A'..'Z', 'a'..'z' */
  predicate NameStartByte(c: byte) {
    c == 0x3A || c == 0x5F || (0x41 <= c <= 0x5A) || (0x61 <= c <= 0x7A)
  }

  /** A name-start byte, or '-', '.', '0'..'9' */
  predicate NameByte(c: byte) {
    NameStartByte(c) || c == 0x2D || c == 0x2E || (0x30 <= c <= 0x39)
  }

  /** The settings the table has before any call of AllowLetter. */
  predicate DefaultAllowed(t: TextType, c: byte) {
    if t == SPACE then c == 0x0A || c == 0x0D || c == 0x09 || c == 0x20
    else if t == ELEMENT_NAME_START || t == ATTRIBUTE_NAME_START then NameStartByte(c)
    else if t == ELEMENT_NAME_NON_START || t == ATTRIBUTE_NAME_NON_START then NameByte(c)
    else if t == ELEMENT_TEXT then c != 0 && c != LT
    else c != 0
  }

  function DefaultTable(): (tbl: Table)
    ensures forall t: TextType, c: byte :: Allowed(tbl, t, c) == DefaultAllowed(t, c)
  {
    seq(7, t requires 0 <= t < 7 => seq(256, c requires 0 <= c < 256 => DefaultAllowed(t, c)))
  }

  /** The default attribute-name categories are those of element names, and the non-start
      categories extend the start ones by exactly '-', '.' and the digits. */
  lemma DefaultNameCategories(c: byte)
    ensures Allowed(DefaultTable(), ATTRIBUTE_NAME_START, c) == Allowed(DefaultTable(), ELEMENT_NAME_START, c)
    ensures Allowed(DefaultTable(), ATTRIBUTE_NAME_NON_START, c) == Allowed(DefaultTable(), ELEMENT_NAME_NON_START, c)
    ensures Allowed(DefaultTable(), ELEMENT_NAME_NON_START, c) <==>
      Allowed(DefaultTable(), ELEMENT_NAME_START, c) || c == 0x2D || c == 0x2E || (0x30 <= c <= 0x39)
  {
  }

  /** The process-wide table of mdz_xml_allowLetter / mdz_xml_isAllowedLetter:
      7 text types by 256 bytes, updated in place. */
  class LetterTable {
    const table: array2<bool>

    predicate Valid() {
      table.Length0 == 7 && table.Length1 == 256
    }

    /** The table with its documented defaults. */
    constructor ()
      ensures Valid() && fresh(table)
      ensures forall c: byte :: IsAllowedLetter(SPACE, c) <==> c == 0x0A || c == 0x0D || c == 0x09 || c == 0x20
      ensures forall c: byte :: IsAllowedLetter(ELEMENT_NAME_START, c) <==> NameStartByte(c)
      ensures forall c: byte :: IsAllowedLetter(ELEMENT_NAME_NON_START, c) <==> NameByte(c)
      ensures forall c: byte :: IsAllowedLetter(ATTRIBUTE_NAME_START, c) <==> NameStartByte(c)
      ensures forall c: byte :: IsAllowedLetter(ATTRIBUTE_NAME_NON_START, c) <==> NameByte(c)
      ensures forall c: byte :: IsAllowedLetter(ELEMENT_TEXT, c) <==> c != 0 && c != LT
      ensures forall c: byte :: IsAllowedLetter(ATTRIBUTE_VALUE, c) <==> c != 0
      ensures Snapshot() == DefaultTable()
    {
      table := new bool[7, 256]((t, c) => 0 <= t < 7 && 0 <= c < 256 && DefaultAllowed(t, c));
      new;
      forall t: TextType
        ensures Snapshot()[t] == DefaultTable()[t]
      {
        assert forall c: byte :: Snapshot()[t][c] == DefaultTable()[t][c];
      }
    }

    /** mdz_xml_isAllowedLetter: false for an out-of-range text type, else the table entry. */
    function IsAllowedLetter(t: int, c: byte): (r: bool)
      reads table
      ensures r ==> 0 <= t < TEXT_TYPES
      ensures Valid() && 0 <= t < TEXT_TYPES ==> r == table[t, c]
    {
      0 <= t < TEXT_TYPES && t < table.Length0 && c < table.Length1 && table[t, c]
    }

    /** The current settings as a value, as a parse sees them when it starts. */
    function Snapshot(): (tbl: Table)
      requires Valid()
      reads table
      ensures forall t: TextType, c: byte :: Allowed(tbl, t, c) == IsAllowedLetter(t, c)
    {
      seq(7, t requires 0 <= t < 7 reads table =>
        seq(256, c requires 0 <= c < 256 reads table => table[t, c]))
    }

    /** mdz_xml_allowLetter: sets one entry; an out-of-range text type fails and changes nothing. */
    method AllowLetter(t: int, c: byte, allow: bool) returns (ok: bool)
      requires Valid()
      modifies table
      ensures ok <==> 0 <= t < TEXT_TYPES
      ensures ok ==> IsAllowedLetter(t, c) == allow
      ensures forall t': TextType, c': byte :: t' != t || c' != c ==> table[t', c'] == old(table[t', c'])
    {
      if 0 <= t < TEXT_TYPES {
        table[t, c] := allow;
        ok := true;
      } else {
        ok := false;
      }
    }
  }
}
