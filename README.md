# mdz_xml in Dafny

A model of mdz_xml, a C library that parses single-byte (ASCII/ANSI) XML documents into a
DOM. It covers the three parts of the library's interface `mdz_xml.h`:

- **The character classifier.** The process-wide table of 7 text types by 256 bytes says
  which bytes may appear in spaces, element and attribute names, element text and attribute
  values. `mdz_xml_allowLetter` and `mdz_xml_isAllowedLetter` read and update it. It is the
  class `Classifier.LetterTable`, over a two-dimensional array.
- **The parser and tree builder.** `mdz_xml_parse` and `mdz_xml_parseWritable` scan the text
  with a position-advancing loop and an explicit stack of open elements. They append element
  and attribute records to two arenas. Processing instructions and comments are skipped,
  CDATA sections are rejected, and element text can be trimmed of leading and trailing
  spaces. The parser instance (`struct mdz_Xml`) is the class `Parser.Xml`. Every parse
  overwrites its error code and error position.
  - The grammar is a state machine: `Grammar.Step` consumes one construct and `Grammar.Run`
    repeats it.
  - The scanner methods of module `Parser` are proved equal to it, construct by construct.
  - Module `Properties` proves an invariant of the scanner state that every step keeps. So
    every document a parse accepts is well formed (`Properties.DomOk`): names, texts and
    attribute values are made of the allowed bytes, records are in document order, and the
    links form a tree whose root has a child.
  - Module `Tokens` is a lexer of its own, apart from the tree. From the first byte, one token
    follows another, each fixed by where it starts. Between tags a token is character data up
    to the next `<`, a processing instruction up to its `?>`, a comment up to its `-->`, a
    closing tag, or an opening tag's `<name`. Inside an opening tag it is one attribute, the
    `>` or the `/>`. Module `Lexing` proves that every scanner step consumes exactly the token
    at its position, so a document that parses is one whole sequence of tokens.
  - Module `Nesting` reads the tree against those tokens. Every element opens with a name
    token at a token boundary. It ends at the `/>` that ends its own opening tag, or at a
    closing-tag token repeating its name that starts at a token boundary after its own tag's
    `>`. So a `/>` or `</name>` inside a comment, a processing instruction, an attribute value
    or character data never ends an element. Elements nest like intervals, and the parent of
    every record is the innermost element around it. So an element's descendants are exactly
    the records that stand between its `<` and its end.
  - Module `Texts` proves where character data goes. Every element text and text node comes
    from one character-data token: the run of element-text bytes from a token boundary just
    after a `>` up to the next `<`, kept whole or trimmed as asked.
  - Module `Attributes` proves what the attribute arena holds. An attribute token's attribute
    is named from its first byte after the spaces up to its `=`, and valued by the bytes
    between its quotes. Every element of an accepted document owns, as its block of
    `m_nAttributes` records, exactly the attributes of its own opening tag's tokens, in order.
    A text record owns none.
  - Module `Documents` gives the exact result of six small documents.
- **Navigation.** `mdz_xml_getRootElement`, `mdz_xml_getElement` and `mdz_xml_getAttribute`
  are pure functions over the document of the last parse. Handles are arena indices, and the
  records handed to the caller are snapshots of arena entries.

Names, texts and values are spans (offset, length) into the parsed bytes, standing for the C
pointer and length pairs. A document is `Some(d)` after a successful parse and `None`
otherwise.

The header fixes the character categories, the error codes and what is kept in the DOM, but
not every detail of the grammar. The model reads it as follows:
- A run of character data inside an element becomes the element's own text when two things
  hold: the element has no child yet, and the `<` that ends the run starts a closing tag. Any
  other non-empty run becomes a text node (the mixed content of `mdz_xml.h:16`).
  - So in `<a>hi<!--c--></a>` the run `hi` is a text node, although it comes before any
    child.
  - Trimming can change the shape of the tree, because an empty run builds nothing. In
    `<a> <!--c-->hi</a>` the parse keeps two text nodes, ` ` and `hi`. With trimming, the
    first run is dropped and `hi` becomes the text of `a`.
- Outside the top-level elements only space bytes may appear.
- Attributes are `name="value"` or `name='value'`, with no spaces around `=`. A closing tag
  is `</name>`, and its name must repeat the innermost open element's name byte for byte.
  An element with no content may be written `<name/>`.
- Spaces between attributes are optional: `<a x="1"y="2"/>` is accepted, although XML 1.0
  requires white space there.
- `<!` in content that does not start a comment is an error. This covers a CDATA section and a
  document type declaration. An XML declaration `<?xml ...?>` is a processing instruction and
  is skipped.
- A parse error is reported at the byte that breaks the grammar. When the text ends too
  early, it is reported at the `<` of the construct left open: the open tag, the comment or
  processing instruction, or the innermost unclosed element. A document without any element
  is an error at position 0. So the error position is always inside the text.
- `mdz_xml.h:25` says that the restrictions on element text also apply to attribute values,
  but the attribute-value category at `mdz_xml.h:77-80` allows every byte except 0. The model
  follows the category: a value may contain `<`, and the quote that opened it ends it.

## Model

| member | source | states |
|---|---|---|
| XmlTypes.ErrorValue | mdz_xml.h:83-124 | every error code has its C value below 8, and only NONE is 0 |
| Classifier.DefaultTable | mdz_xml.h:45-81 | the default table allows exactly the documented bytes in each of the seven text types: the four space bytes, the name bytes, every byte but 0 and `<` in element text, every byte but 0 in attribute values |
| Classifier.DefaultNameCategories | mdz_xml.h:20-22 | by default the attribute-name categories equal the element-name ones, and the non-start category adds exactly `-`, `.` and the digits to the start category |
| Classifier.LetterTable.constructor | mdz_xml.h:45-81 | a new table holds the documented default for every text type and byte |
| Classifier.LetterTable.IsAllowedLetter | mdz_xml.h:329-337 | false for an out-of-range text type, and otherwise the current table entry |
| Classifier.LetterTable.Snapshot | mdz_xml.h:317-319 | the settings a parse uses agree with IsAllowedLetter on every text type and byte |
| Classifier.LetterTable.AllowLetter | mdz_xml.h:317-327 | returns true exactly when the text type is in range; the entry then reads back as the given setting; every other entry is unchanged, and nothing changes when the type is out of range |
| Scan.RunEnd | mdz_xml.h:45-81 | the end of a run of bytes of one text type lies between the start and the end of the text, and any byte at it is the stop byte or one the type does not allow |
| Scan.RunEndBytes | mdz_xml.h:45-81 | every byte of a run is allowed by its text type and is not the stop byte |
| Scan.RunEndUnique | mdz_xml.h:45-81 | any index with the two properties of a run end is the run end |
| Scan.ScanRun | mdz_xml.h:265-279 | the scanning loop stops at the run end |
| Scan.Find | mdz_xml.h:14-15 | the first occurrence of a terminator (`?>`, `-->`) at or after a position, or none when there is no occurrence |
| Scan.FindMarker | mdz_xml.h:14-15 | the search loop finds that first occurrence |
| Scan.TrimSpan | mdz_xml.h:270 | trimming removes only space bytes, and only at the two ends; what remains neither starts nor ends with a space |
| Scan.TrimIdempotent | mdz_xml.h:270 | trimming a trimmed text changes nothing |
| Scan.TrimRun | mdz_xml.h:270 | the trimming loops compute TrimSpan |
| Dom.AppendChild | mdz_xml.h:182-192 | appending a record grows the arena by that record and keeps every existing record's name, text, attributes and parent |
| Dom.AppendChildLinks | mdz_xml.h:182-192 | appending a child keeps the first-child and next links exact, and makes the new record its parent's last child |
| Dom.SiblingsExact | mdz_xml.h:188-192 | the next links from a child visit exactly the later children of its parent, in increasing order |
| Dom.ChildrenExact | mdz_xml.h:182-192 | the first-child and next links of an element visit exactly the records whose parent it is, in document order |
| Grammar.EndStep | mdz_xml.h:276 | at the end of the text the parse is accepted exactly when only the root is open and an element was seen; with an element left open it fails at that element's `<`, and with no element at all at position 0 |
| Grammar.AddText | mdz_xml.h:155-186 | a text run (trimmed when asked) that is empty builds nothing. A non-empty one becomes the innermost element's own text when that element has no child yet and `</` follows the run; otherwise it is appended as exactly one text record, the element's new last child. The state stays well formed and moves to the end of the run |
| Grammar.TextStep | mdz_xml.h:24 | character data runs to the next `<` in its text type (spaces at top level, element text inside an element); a byte outside that type before the `<` fails at its own index; at top level the run builds nothing, inside an element it goes to AddText, and an element left open at the end of the text fails at its `<`; never ends the parse |
| Grammar.CloseStep | mdz_xml.h:276 | a closing tag succeeds exactly when more than the root is open, a name run starts after `</`, it repeats the innermost open element's name byte for byte, and `>` follows it; it then pops exactly that element, moves past the `>` and leaves the arenas unchanged; otherwise it fails inside the text |
| Grammar.OpenStep | mdz_xml.h:20-21 | an opening tag's name moves the scanner forward or fails inside the text |
| Grammar.MarkupStep | mdz_xml.h:14-27 | `<?`, `<!--`, `<!`, `</` and `<name` each move the scanner forward or fail inside the text |
| Grammar.SkipStep | mdz_xml.h:14-15 | a processing instruction or a comment only moves the position, to just past the `>` of its terminator, or fails at its `<` |
| Grammar.AttributeStep | mdz_xml.h:62-80 | an attribute moves the scanner forward or fails inside the text; what it records is stated by Attributes.AttributeRecorded |
| Grammar.TagStep | mdz_xml.h:276 | inside an opening tag the scanner moves forward or fails inside the text |
| Grammar.Step | mdz_xml.h:265-279 | each step moves forward keeping the state well formed, fails inside the text, or accepts; it accepts exactly at the end of the text, in content, with only the root open and an element seen |
| Grammar.Run | mdz_xml.h:265-279 | a parse run fails at a position inside the text, or accepts after consuming the whole text, with every element closed and an element seen |
| Grammar.ParseDocument | mdz_xml.h:274-276 | an empty text, and only an empty text, fails with PARAM at SIZE_MAX; any other failure is PARSE at a position inside the text (the Documents lemmas give the exact result for six texts) |
| Properties.InitialGood | mdz_xml.h:265-266 | the state before the first byte satisfies the scanner invariant |
| Properties.TextGood | mdz_xml.h:24-29 | a character-data step keeps the invariant: element texts and text nodes are non-empty, made of element-text bytes and contain no `<`; trimmed when asked, they neither start nor end with a space, and untrimmed they lie between a `>` and a `<` |
| Properties.CloseGood | mdz_xml.h:276 | a closing-tag step keeps the invariant |
| Properties.OpenGood | mdz_xml.h:20-21 | an opening-tag step keeps the invariant: the new record's name is made of element-name bytes and it becomes the last child of the innermost open element |
| Properties.MarkupGood | mdz_xml.h:14-27 | every markup step keeps the invariant |
| Properties.SkippedGood | mdz_xml.h:14-15 | skipping a processing instruction or a comment keeps the invariant |
| Properties.AttributeGood | mdz_xml.h:62-80 | an attribute step keeps the invariant: the attribute's name and value are made of the allowed bytes and it belongs to the element being opened |
| Properties.TagGood | mdz_xml.h:276 | every step inside an opening tag keeps the invariant |
| Properties.StepGood | mdz_xml.h:265-279 | every step keeps the scanner invariant |
| Properties.RunGood | mdz_xml.h:265-279 | an accepted run ends in a state that satisfies the invariant |
| Properties.ParsedDomOk | mdz_xml.h:126-199 | every document a parse builds is well formed: records and attributes are made of the allowed bytes and in document order, text nodes have no attributes, the links form a complete ordered tree, and the root has a child |
| Tokens.TokenAt | mdz_xml.h:14-27 | a token ends after its first byte and inside the text, and the attribute, `>` and `/>` tokens are exactly those read inside an opening tag |
| Tokens.TagClose | mdz_xml.h:62-80 | the token that ends an opening tag after any number of attributes is its `>` or its `/>`, after the position it starts from |
| Tokens.ReachesNext | mdz_xml.h:265-279 | a token boundary followed by a token is followed by the boundary after that token |
| Tokens.ReachesThrough | mdz_xml.h:265-279 | of two token boundaries of the text, the later one is lexed from the earlier |
| Tokens.TokensDisjoint | mdz_xml.h:14-15 | no token boundary lies strictly inside a token: a `<` inside a comment, a processing instruction, an attribute value or character data starts nothing |
| Tokens.ReachesPlace | mdz_xml.h:265-279 | at each token boundary the lexer stands at one place, between tags or inside an opening tag |
| Tokens.RunEndFind | mdz_xml.h:24 | a run that stops at its stop byte ends at the first occurrence of that byte, and one that reaches the end of the text meets no occurrence |
| Lexing.TextToken | mdz_xml.h:24 | character data is one token, up to the next `<` |
| Lexing.SkipToken | mdz_xml.h:14-15 | a processing instruction or a comment is one token, up to the `>` of its terminator |
| Lexing.CloseToken | mdz_xml.h:276 | a closing tag that succeeds is one closing-tag token |
| Lexing.OpenToken | mdz_xml.h:20-21 | an opening tag's `<name` is one name token |
| Lexing.TagToken | mdz_xml.h:62-80 | inside an opening tag an attribute, the `>` or the `/>` is one token |
| Lexing.StepToken | mdz_xml.h:265-279 | every non-failing step consumes exactly the token at its position and stands where the lexer stands after it |
| Lexing.StepReaches | mdz_xml.h:265-279 | a step from a token boundary stands at the next boundary |
| Lexing.RunReaches | mdz_xml.h:265-279 | an accepted run from a token boundary lexes the text to its end, between tags |
| Lexing.ParsedTokens | mdz_xml.h:265-279 | every document a parse accepts is, from its first byte to its last, one whole sequence of tokens that ends between tags |
| Nesting.CloseNested | mdz_xml.h:276 | a closing tag closes the innermost open element at the `>` of a closing tag that repeats its name, and keeps the nesting invariant |
| Nesting.StepNested | mdz_xml.h:265-279 | every non-failing step keeps the nesting invariant and the scanner on the tokens, with the element ends known after it |
| Nesting.RunNested | mdz_xml.h:265-279 | an accepted run ends in a state that satisfies the nesting invariant, on the tokens of the text |
| Nesting.ParsedNested | mdz_xml.h:10-16 | every document a parse accepts nests as its tokens do: each element opens with a name token at a token boundary and ends at the `/>` that ends its own opening tag, or at a closing-tag token repeating its name at a token boundary after its tag's `>`; elements nest like intervals, and each record's parent is the innermost element around it |
| Nesting.StepLexedAll | mdz_xml.h:265-279 | every non-failing step keeps the scanner on the tokens: it stands at a token boundary, every element record opened at a name token, every closed one ended at its own `/>` or at a closing-tag token after its `>`, and the open elements' tags ended with `>` |
| Nesting.TokenLexed | mdz_xml.h:14-27 | reading any one token from a token boundary, with the effect the grammar gives it, keeps the scanner on the tokens, with the new element ends given by NewEnds |
| Nesting.StepEffect | mdz_xml.h:265-279 | every non-failing step reads the token at its position and has that token's effect on the state: markup and attributes leave the tree alone, a name token appends a record named by it, `>` pushes it, `/>` and a closing tag close an element |
| Nesting.StrayEmptyClose | mdz_xml.h:15 | in `<a/><b/><!--/>-->` the bytes would let a end at the `/>` inside the comment, but its tokens end it at its own `/>`, so no arena that ends a inside the comment nests |
| Nesting.StrayEndTag | mdz_xml.h:15 | in `<a></a><b/><!--</a>-->` the bytes would let a end at the `</a>` inside the comment, but that `<` lies inside a comment token, so no arena that ends a there nests |
| Nesting.AncestorInside | mdz_xml.h:10 | in a nested arena one element is an ancestor of another record exactly when that record's position lies between the element's `<` and its end |
| Nesting.DescendantsInside | mdz_xml.h:10 | in every parsed document, with each element's end where its tokens put it, the descendants of an element are exactly the records standing between its `<` and its end |
| Texts.AddTextRuns | mdz_xml.h:24-29 | a run recorded at a token boundary just after a `>` is one character-data token, the whole run of element-text bytes up to the next `<`, or exactly its trimmed part |
| Texts.TextRuns | mdz_xml.h:24-29 | a character-data step records only such whole runs |
| Texts.MarkupRuns | mdz_xml.h:14-21 | markup steps record no text |
| Texts.TagRuns | mdz_xml.h:62-80 | steps inside an opening tag record no text |
| Texts.StepRuns | mdz_xml.h:265-279 | every step keeps every recorded text a whole run, or its trimmed part |
| Texts.RunRuns | mdz_xml.h:265-279 | an accepted run ends with every recorded text a whole run, or its trimmed part |
| Texts.ParsedRuns | mdz_xml.h:29 | in every parsed document each element text and text node is one character-data token: a whole run of element-text bytes from a token boundary just after a `>` to the next `<`, with its spaces preserved, or exactly that run trimmed when trimming is asked for |
| Parser.ScanText | mdz_xml.h:16-29 | the scan of character data computes TextStep |
| Parser.ScanAddText | mdz_xml.h:16-29 | the scan that records a text run computes AddText |
| Parser.ScanClose | mdz_xml.h:276 | the scan of a closing tag computes CloseStep |
| Parser.ScanOpen | mdz_xml.h:20-21 | the scan of an opening tag's name computes OpenStep |
| Parser.ScanMarkup | mdz_xml.h:14-27 | the scan at a `<` computes MarkupStep |
| Parser.ScanSkipped | mdz_xml.h:14-15 | the scan of `<?` or `<!` computes SkipStep |
| Parser.ScanAttribute | mdz_xml.h:62-80 | the scan of an attribute computes AttributeStep |
| Parser.ScanValue | mdz_xml.h:62-80 | the scan of an attribute's quoted value completes AttributeStep |
| Parser.ScanTag | mdz_xml.h:276 | the scan inside an opening tag computes TagStep |
| Parser.ScanStep | mdz_xml.h:265-279 | one scanner step computes Step |
| Parser.ScanDocument | mdz_xml.h:265-279 | the scanner loop computes Run from the initial state |
| Parser.Xml.constructor | mdz_xml.h:204-215 | a new instance has error position SIZE_MAX, no error and no document |
| Parser.Xml.Parse | mdz_xml.h:265-279 | returns true exactly when a document was built, and exactly when the C value of the error code is 0. The instance gets ParseDocument's result: the document with no error and position SIZE_MAX on success, and no document with the error code and position on failure; an empty text is PARAM at SIZE_MAX; a PARSE position is inside the text; the instance invariant holds |
| Parser.Xml.ParseWritable | mdz_xml.h:281-295 | the same result and outcome as Parse on the buffer's bytes |
| Navigation.GetRootElement | mdz_xml.h:343-354 | PARAM without a destination, PARSE without a parsed document, and otherwise the root record |
| Navigation.GetElement | mdz_xml.h:356-369 | PARAM without a handle or destination, PARSE without a document, ELEMENT for a handle outside the arena, and otherwise the record the handle names |
| Navigation.GetAttribute | mdz_xml.h:371-387 | PARAM, PARSE and ELEMENT as GetElement; INDEX exactly when the index is not below the element's attribute count; on success the attribute at that position |
| Navigation.NoDocumentNavigation | mdz_xml.h:351 | after a failed parse all three navigation calls fail with PARSE |
| Navigation.RootChildren | mdz_xml.h:344 | after a successful parse the root exists and has a first child; its children, followed through the links, are in increasing order and are exactly the records whose parent is the root, all of them elements |
| Navigation.TopLevelElements | mdz_xml.h:344 | read against the tokens of the text, with each element's end where they put it, the root's children are exactly the elements that no other element encloses |
| Navigation.HandlesValid | mdz_xml.h:183-192 | the first-child and next handles of every record are accepted by getElement |
| Navigation.TextNodeLeaf | mdz_xml.h:168-186 | a text node has no attributes and no first child |
| Navigation.AttributeLookup | mdz_xml.h:375-384 | on a parsed document getAttribute fails with INDEX exactly when the index is not below the attribute count, returns the attribute at that position otherwise, and never fails with MEMORY |
| Behaviour.PiBuildsNothing | mdz_xml.h:14 | a processing instruction is skipped past its `?>` and leaves the arenas and the stack unchanged; an unterminated one fails at its `<` |
| Attributes.TokenAttribute | mdz_xml.h:128-149 | the attribute an attribute token holds: its name is non-empty, starts at or after the token's start and ends at the `=`; a quote follows the `=`, the value starts after it and ends at the same quote, which is the token's last byte |
| Attributes.NextAttribute | mdz_xml.h:62-80 | the attributes of a tag from an attribute token on are that token's attribute followed by those from the token's end |
| Attributes.AttributeRecorded | mdz_xml.h:62-80 | a successful attribute step consumes exactly the attribute token at the scanner position and appends exactly that token's attribute to the arena; the newest element's count grows by one, and neither the mode nor any other record changes |
| Attributes.InitialAttrs | mdz_xml.h:265-266 | before the first byte no element owns an attribute |
| Attributes.KeepAttrs | mdz_xml.h:24-29 | a step between tags that keeps the arena, the names and blocks of the records, and adds only text records, keeps the attribute invariant |
| Attributes.TagEndAttrs | mdz_xml.h:276 | at the `>` or the `/>` of an opening tag no attribute is left, so the new element owns exactly those read |
| Attributes.AttributeAttrs | mdz_xml.h:62-80 | an attribute step keeps the attribute invariant: the element being opened owns the attributes read so far, and the rest of its tag's attributes are those from the new position |
| Attributes.TagAttrs | mdz_xml.h:276 | every step inside an opening tag keeps the attribute invariant |
| Attributes.OpenAttrs | mdz_xml.h:20-21 | an opening tag's name gives the new element an empty block and all of its tag's attributes still to come |
| Attributes.MarkupAttrs | mdz_xml.h:14-27 | every markup step keeps the attribute invariant |
| Attributes.TextAttrs | mdz_xml.h:24-29 | character data keeps the attribute invariant |
| Attributes.AddTextAttrs | mdz_xml.h:155-186 | a text run inside an element, as own text or as a new text record, keeps the attribute invariant |
| Attributes.StepAttrs | mdz_xml.h:265-279 | every step keeps the attribute invariant: each element whose tag has ended owns exactly its tag's attributes, in order |
| Attributes.RunAttrs | mdz_xml.h:265-279 | an accepted run ends in a state that keeps the attribute invariant |
| Attributes.AcceptedAttributes | mdz_xml.h:175-180 | in the final state of an accepted run each element owns exactly its tag's attributes and a text record owns none |
| Attributes.ParsedAttributes | mdz_xml.h:175-180 | in every document a parse accepts, each element's block of `m_nAttributes` records is exactly, in order, the attributes of its own opening tag's tokens, and a text record has no attribute |
| Behaviour.CommentBuildsNothing | mdz_xml.h:15 | a comment is skipped past its `-->` and leaves the arenas and the stack unchanged; an unterminated one fails at its `<` |
| Behaviour.BangWithoutCommentRejected | mdz_xml.h:27 | `<!` in content that does not start a comment, such as a CDATA section, fails at its `<` |
| Behaviour.OpenThenBangRejected | mdz_xml.h:27 | a document `<n>` followed by `<!` without `-` fails with PARSE at position 3 |
| Behaviour.CdataDocumentRejected | mdz_xml.h:27 | with the default classifier, `<a><![CDATA[x]]></a>` fails with PARSE at the `<` of the CDATA section |
| Documents.EmptyElementDocument | mdz_xml.h:265-279 | `<a/>` parses, with or without trimming, into the root and one element with no text, attributes or children |
| Documents.NestedDocument | mdz_xml.h:154-199 | `<a><b>hi</b></a>` parses into a, its only child b, and `hi` as b's own text |
| Documents.AttributesDocument | mdz_xml.h:62-80 | `<a x="1" y="2"/>` parses into one element owning the two attributes x="1" and y="2", in that order |
| Documents.ManyAttributesDocument | mdz_xml.h:128-149 | `<a xy="1" y="2" x="3"/>` parses into one element owning the three attributes xy="1", y="2" and x="3", in that order, the first named by both of its bytes |
| Documents.MixedDocument | mdz_xml.h:16 | `<a> text <b/> more </a>` parses into a with three children: a text node, b and a text node, whose texts are the runs ` text ` and ` more `, or `text` and `more` with trimming |
| Documents.MismatchedDocument | mdz_xml.h:276 | `<a><b></a>` fails with PARSE at 6, the `<` of the closing tag that does not name b |

## Left out

- `mdz_xml_init`, `mdz_xml_uninit` and the LICENSE error (`mdz_xml.h:226-240`): a license check over opaque hashes. The model assumes a valid license, so no operation returns LICENSE.
- `mdz_xml_create`, `mdz_xml_destroy` and MEMORY errors of a parse (`mdz_xml.h:246-259`, `275`): allocation and freeing are Dafny allocation. `Parser.Xml.constructor` stands for a successful create.
- A NULL instance pointer (`pXml == NULL`): a Dafny object reference is never null.
- `mdz_xml_parseFile` (`mdz_xml.h:297-311`): it is file I/O and the FILE error. Parsing the bytes read is `Parser.Xml.ParseWritable`.
- The rewriting of the buffer by `mdz_xml_parseWritable`, and pointer identity of names, texts and `m_pThis`: spans into the parsed bytes stand for pointers and arena indices stand for handles. `Parser.Xml.ParseWritable` builds the same document as `Parser.Xml.Parse`.
- A NULL text pointer and "nTextLength is too small" (`mdz_xml.h:274`): a text is a byte sequence, and only the empty one is too small.
- Thread safety of the process-wide table (`mdz_xml.h:319`): the table is one object that each parse takes as a parameter.
- Navigation does not write the instance's error record. Each navigation function returns the error code as its result rather than storing it.
- Navigation.GetElement: any arena index is a valid handle. The model does not capture how the library validates a foreign pointer.
- Navigation.GetRootElement: also fails with PARSE on an empty arena. A parsed document never has one.
- Navigation.GetAttribute: the MEMORY result stands for an attribute block outside the arena. Navigation.AttributeLookup proves that case impossible on a parsed document.
- Properties.ParsedDomOk: attribute blocks are shown to lie inside the attribute arena and to follow their element's name. That they are pairwise disjoint is not stated.
- Behaviour.BangWithoutCommentRejected: CDATA is rejected wherever the scanner meets `<!` in content. Inside a comment or an attribute value the same bytes are ordinary data.
- Properties.TextGood: untrimmed, a text is shown only to start after some `>` and end before a `<`; Texts.ParsedRuns gives the whole-run statement, pinned to a character-data token.
- Entity and character references (`&amp;`, `&#60;`) are not decoded: texts and values are the raw bytes between their delimiters.
