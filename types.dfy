/** The enums and public records of the mdz_xml interface. */
module XmlTypes {

  /** One byte of the document: the parser reads single-byte (ANSI/ASCII) text. */
  type byte = b: int | 0 <= b < 256

  /** SIZE_MAX of a 64-bit size_t, the error record's "no position" value. */
  const SIZE_MAX: int := 0xFFFF_FFFF_FFFF_FFFF

  /** The text types of enum mdz_xml_text_type, by their C values. A caller may pass any
      value of the enum's underlying integer type, so operations take an `int`. */
  const SPACE: int := 0
  const ELEMENT_NAME_START: int := 1
  const ELEMENT_NAME_NON_START: int := 2
  const ATTRIBUTE_NAME_START: int := 3
  const ATTRIBUTE_NAME_NON_START: int := 4
  const ELEMENT_TEXT: int := 5
  const ATTRIBUTE_VALUE: int := 6
  /** Number of text types; a text type outside 0 .. TEXT_TYPES - 1 is out of range. */
  const TEXT_TYPES: int := 7

  type TextType = t: int | 0 <= t < 7

  /** enum mdz_xml_error, in declaration order. */
  datatype Error = NoError | License | Param | Memory | File | Parse | Element | Index

  /** The C value of each error code. */
  function ErrorValue(e: Error): (n: nat)
    ensures n < 8
    ensures n == 0 <==> e == NoError
  {
    match e
    case NoError => 0
    case License => 1
    case Param => 2
    case Memory => 3
    case File => 4
    case Parse => 5
    case Element => 6
    case Index => 7
  }

  datatype Option<T> = None | Some(value: T)

  /** The outcome of a navigation call: the record written to the caller, or the error code. */
  datatype Result<T> = Ok(value: T) | Fail(error: Error)

  /** An (offset, length) view into the parsed document; it stands for a pointer/length pair of
      the C records. */
  datatype Span = Span(start: nat, length: nat) {
    function End(): nat { start + length }
  }

  /** The span of an absent name or text (a NULL pointer with length 0). */
  const NO_SPAN: Span := Span(0, 0)

  /** struct mdz_XmlAttribute. An empty value has length 0. */
  datatype XmlAttribute = XmlAttribute(name: Span, value: Span)

  /** struct mdz_XmlElement: the snapshot of one element record. Handles are arena indices. */
  datatype XmlElement = XmlElement(
    text: Span,
    name: Span,
    attributes: nat,
    firstChild: Option<nat>,
    next: Option<nat>,
    self: nat)

  /** Bytes the grammar gives a meaning to. */
  const LT: byte := 0x3C        // '<'
  const GT: byte := 0x3E        // '>'
  const SLASH: byte := 0x2F     // '/'
  const QUESTION: byte := 0x3F  // '?'
  const BANG: byte := 0x21      // '!'
  const DASH: byte := 0x2D      // '-'
  const EQUALS: byte := 0x3D    // '='
  const DQUOTE: byte := 0x22    // '"'
  const SQUOTE: byte := 0x27    // '\''
}
