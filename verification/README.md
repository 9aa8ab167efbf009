# Verified models of the hard parts of NPD

A Dafny project beside the NPD sources. It models the code of two libraries that NPD keeps in its tree, pugixml and jsoncpp,
and NPD's own CRC32, and proves what that code is for. The configuration is the one shipped: bytes as characters, UTF-8 as
the native encoding, plain pointers, no compact mode; allocation succeeds.

`dafny verify dfyconfig.toml` checks everything.

## What is modelled

**JSON documents (`Json*.dfy`, `Places.dfy`, `Utf8.dfy`, `Decimal.dfy`).** `OurReader` and `FastWriter` are classes with
the cursor, the stack of open values and the output text as fields. Their methods are proved against pure readers and
writers, and those against the grammar of RFC 8259, given as trees that know nothing of the code: strings as pieces
(`JsonPieces`), values with white space wherever it may stand (`JsonSyntax`), digits by their place in an alphabet
(`Places`). Every text parses to what it stands for, for every setting; it is accepted exactly under conditions on the
text (`JsonAccepted`); and whatever parses is such a text (`JsonExact`). The writer writes texts of the standard, so
that a document written from any storable value parses back to it, and only nesting beyond the stack limit or strict
roots stop it (`JsonRoundTrip`). With the option that writes nulls as nothing, what comes back is described for every
setting of the reader, and when it is the value. Strings survive if and only if they are well-formed UTF-8, and a digit
string becomes an integer if and only if it fits 64 bits. Which texts the standard library's stream accepts as a
`double` is a parameter.

**CRC32 (`Crc32.dfy`, `CrcPolynomial.dfy`).** The table-driven loop on bit vectors, the division of polynomials over
GF(2) it stands for, and what follows from that: linearity, zero for codewords, detection of bursts.

**Text in place (`XmlChars.dfy`, `XmlText.dfy`, `XmlGap.dfy`, `XmlStrconv.dfy`, `XmlSyntax.dfy`).** The decoders
overwrite the buffer they read, with a `gap` between decoded and unread text. Each is proved to deliver what a pure
left-to-right decoder delivers, and that is what the units of the text stand for: ordinary bytes, line ends, white space
and references, of which every text consists.

**Text out (`XmlTranscode.dfy`, `XmlWriter.dfy`, `XmlEscape.dfy`, `XmlEscapeRoundTrip.dfy`).** The buffered writer is
invisible: after any sequence of calls the sink has the conversion of the concatenation. What the escaper writes is read
back by the decoders.

**Integers (`XmlIntegers.dfy`, `Arithmetic.dfy`).** Wrapping accumulation with the overflow tests of the code, clamping,
and writing undone by reading, at the widths the template admits: 32 and 64 bits, which the library uses, and 16, where
integer promotion spoils small negative numbers.

**The DOM (`XmlForest.dfy`, `XmlLinks.dfy`, `XmlDom.dfy`, `XmlDomRuns.dfy`).** Nodes are objects with four links. A
ghost forest (child lists, parents, and a rank that excludes cycles) says what they mean; every operation performs the
edit of the lists that its name says. The link updates are also given as functions on maps (`XmlLinks`), where the
proofs that one list changes and no other are made. Declarations and document types stand directly below a document, and
only documents and elements have children. There may be several documents, and whole runs of requests on them are
covered: an application names nodes by its handles, and handles to nodes that are removed become empty.

**Copying (`XmlCopyWalk.dfy`, `XmlCopy.dfy`).** `node_copy_tree` walks the source while it grows the copy, possibly
inside the source. The walk's invariants are stated on values; the method on linked nodes ends and leaves an isomorphic
copy of the source as it was before the destination was linked.

**The allocator (`XmlPages.dfy`, `XmlAllocator.dfy`).** Page lists as values with the blocks that are live on each, and
whole runs of requests; then the linked pages, the size accounting and the string headers of the code, proved to follow
them. Sizes are those of a 64-bit target. Where the system puts a new page is a parameter, and so are the contents of
pages except for string headers.

**XPath (`XPath*.dfy`).** A node is its path from the document, so that document order is defined without the code. On
top of that: order comparison by links (`XPathTree`) and by positions in the parse buffer (`XPathPositions`), walks and
axes (`XPathOrder`, `XPathAxes`, `XPathWalks`), node tests as the standard has them (`XPathNodeTests`), the quicksort
and the hash table (`XPathSort`, `XPathHash`), sorting and deduplicating node sets (`XPathNodeSet`, `XPathRepeats`),
expressions with a meaning as sets of nodes (`XPathAst`, `XPathMeaning`), the optimizer (`XPathOptimize`), the evaluator
with its early-exit modes and order tags (`XPathEval`), and queries (`XPathQuery`). The evaluator needs strings in the
buffer to be where `XPathPositions.ComparatorIsExact` asks. Scalar operations are an algebra over the values of their
arguments: the environment supplies them, and says of each argument whether it is used as a truth value, by its first
node or as a set.

**Operator precedence (`XPathGrammar.dfy`, `XPathParser.dfy`, `XPathPrecedence.dfy`, `XPathProductions.dfy`).** The
climbing parser with its depth counter, against the grammar in the comments beside it, on every token sequence: what it
accepts, how it groups, and when it gives up. The grammar stands twice, by precedence numbers and as the productions
with the operators of each level, and the two are proved the same.

## Where the code differs from what one would expect

- `document_order_comparator` compares addresses of strings where both nodes still have one in the parse buffer. An element
  that loses its name while its embedded value and an attribute stay in the buffer is then placed behind its attribute;
  apart from that, and from buffers of several documents that lie in another order than the documents, the comparator is
  document order on different nodes (`XPathPositions.ComparatorIsExact`, `XPathPositions.LostNameMisplaces`).
- An attribute without a string in the buffer comes before itself (`XPathPositions.ComparedWithItself`). Node sets of the
  application may repeat it, and `sort` then need not end: it ends for every arrangement of a list if and only if at most
  16 nodes stand at or before each such repeated attribute, or all nodes are the same (`XPathNodeSet.Sort`,
  `XPathRepeats.SortableIsNeeded`, and for an input `XPathRepeats.RepeatedAttributeNeverSorts`). The evaluator only sorts
  sets without repeats.
- In an object a comma behind the last member is accepted without `allowTrailingCommas` if the last key is empty, because the
  reader takes an empty key for none (`JsonAccepted.AcceptedIff`). A minus sign alone is the number 0, numbers may have
  leading zeros (`JsonSyntax.NumberIsDecoded`), and a NUL behind the value ends the document
  (`JsonSyntax.DocumentReads`).
- An ampersand that starts no well-formed reference is kept as it is (`XmlSyntax.StrayIsOrdinary`), and numeric references
  are taken modulo 2^32 (`XmlSyntax.NumericReference`).
- A written null that is dropped is not always taken for a null again: not alone in an array, and behind a last comma not by
  a reader that takes trailing commas but no dropped nulls (`JsonRoundTrip.DocumentReadsBack`).
- With a 16-bit type, `string_to_integer` gives the lower limit for every negative number
  (`XmlIntegers.StringToInteger`, `XmlIntegers.MinusFiveIsPromoted`).
- `utf8ToCodepoint` does not look at continuation bytes and accepts code points above U+10FFFF, so the string round trip
  holds exactly for well-formed UTF-8 (`JsonStrings.StringSurvivesIffWellFormed`).
- The parser with line-end normalization turns the carriage returns that character data may hold into line feeds
  (`XmlEscapeRoundTrip.CharacterDataSurvivesIff`).
- The rewrite of `//` steps needs positional invariance: `XPathQuery.PositionalStepsDoNotMerge` is a document on which the
  two forms differ.
- The comment on `parse_expression(7)` speaks of union expressions; it also takes further minuses, as the grammar does.

## Model

| member | source | states |
|---|---|---|
| JsonRoundTrip.DocumentRoundTrip | NPDThirdparty/JSON/jsoncpp.cpp:4409-4469 | with nulls written out, the reader's whole-document parse of what the writer wrote for any storable value (64-bit integers, well-formed UTF-8 text and keys, arrays, objects) gives back that value, throws exactly when the value is nested deeper than the stack limit, and fails exactly when strict roots refuse a scalar |
| JsonRoundTrip.DocumentReadsBack | NPDThirdparty/JSON/jsoncpp.cpp:4405-4469 | the same for every setting of writer and reader: what a value becomes whose nulls are written as nothing, item by item and member by member, with the order of failures and throws |
| JsonRoundTrip.DocumentComesBackIff | NPDThirdparty/JSON/jsoncpp.cpp:4405-4469 | for every setting the document parses back to the value if and only if it is not too deep, every null in it is written out or is taken by a reader of dropped nulls and not alone in its array, and the root may stand alone |
| JsonRoundTrip.WriterSyntax | NPDThirdparty/JSON/jsoncpp.cpp:4417-4469 | what is written is a text of RFC 8259 unless nulls are dropped, with no white space outside strings, and with the YAML option exactly one space behind the colon of each member |
| JsonSyntax.DocumentReads | NPDThirdparty/JSON/jsoncpp.cpp:1241-1283 | every text of the grammar of RFC 8259, widened by what the reader takes beside it, parses to what it stands for, with any white space in front, inside and behind; what stands behind it is refused exactly under `failIfExtra` and unless it begins with a NUL, and a root that is neither array nor object exactly under strict roots |
| JsonSyntax.ValueReads | NPDThirdparty/JSON/jsoncpp.cpp:1285-1375 | the same for a value anywhere in a document at any depth: null, booleans, numbers, strings, arrays and objects |
| JsonSyntax.ListReads | NPDThirdparty/JSON/jsoncpp.cpp:1726-1766 | an array of any items with any white space is read item by item; a value left out, and a comma at the end, as the settings say |
| JsonSyntax.RecordReads | NPDThirdparty/JSON/jsoncpp.cpp:1662-1724 | the same for an object: keys in any order, escaped in any way, a repeated key refused or overwritten as the settings say, a comma at the end accepted if trailing commas are allowed or the last key is empty |
| JsonSyntax.ItemsRead | NPDThirdparty/JSON/jsoncpp.cpp:1726-1766 | the element loop, entered before any item with any earlier items already read, finishes the array as expected of the rest |
| JsonSyntax.FieldsRead | NPDThirdparty/JSON/jsoncpp.cpp:1662-1724 | the member loop, entered before any member with any earlier ones already read, finishes the object as expected of the rest |
| JsonSyntax.AbsentReads | NPDThirdparty/JSON/jsoncpp.cpp:1349-1361 | where a value has been left out the reader gives a null in front of the next separator or closing bracket, or fails, and consumes nothing |
| JsonSyntax.NumberIsToken | NPDThirdparty/JSON/jsoncpp.cpp:1612-1637 | sign, digits, fraction and exponent are one token up to a byte that could not continue it |
| JsonSyntax.NumberIsDecoded | NPDThirdparty/JSON/jsoncpp.cpp:1768-1878 | a number is the integer that its digits denote by position if it fits 64 bits, and otherwise a real if the stream accepts it; nothing with a plus sign, a fraction or an exponent is an integer |
| JsonAccepted.AcceptedIff | NPDThirdparty/JSON/jsoncpp.cpp:1662-1766 | a text is accepted at a depth if and only if it meets the conditions on depth, strings, numbers, keys, values left out and trailing commas, written without the reader |
| JsonAccepted.DocumentAcceptedIff | NPDThirdparty/JSON/jsoncpp.cpp:1241-1283 | a document of a text with white space around it and whatever behind it, is accepted if and only if the text is, the root may stand alone and what is behind it may be there |
| JsonAccepted.StandardAcceptedIff | NPDThirdparty/JSON/jsoncpp.cpp:1285-1375 | for the texts of RFC 8259 only depth, strings, numbers and keys decide; the other settings do not matter |
| JsonAccepted.RecordHolds | NPDThirdparty/JSON/jsoncpp.cpp:1662-1724 | an accepted object is the map from its keys to their values, the last one where a key is repeated |
| JsonAccepted.ListHolds | NPDThirdparty/JSON/jsoncpp.cpp:1726-1766 | an accepted array holds the values of its items in order, without one left out at its end |
| JsonExact.ParsedIsText | NPDThirdparty/JSON/jsoncpp.cpp:1241-1375 | the converse: from every document that parses, a text can be read off that stands for the value and ends where the parse does, so nothing else is accepted |
| JsonExact.ItemsHere | NPDThirdparty/JSON/jsoncpp.cpp:1726-1766 | what the element loop has passed when it succeeds is items with commas between them and a closing bracket |
| JsonExact.FieldsHere | NPDThirdparty/JSON/jsoncpp.cpp:1662-1724 | what the member loop has passed when it succeeds is members with commas between them and a closing brace |
| JsonExact.PiecesHere | NPDThirdparty/JSON/jsoncpp.cpp:1891-1942 | a string that is decoded consists of bytes taken as they are, the eight short escapes and escapes of four hexadecimal digits |
| JsonPieces.StringIsRead | NPDThirdparty/JSON/jsoncpp.cpp:1638-1648 | every string of pieces between quotes, as in section 7 of RFC 8259, is found whole and decoded to what its pieces denote: bytes, the eight short escapes, four digits by their positional value, and surrogate pairs; a lead surrogate without an escape behind it denotes nothing |
| JsonPieces.FourDigitsRead | NPDThirdparty/JSON/jsoncpp.cpp:1969-1993 | four digits of either case give their positional value, a digit counting its place in 0123456789abcdef or 0123456789ABCDEF, and anything else gives nothing |
| JsonPieces.EscapeIsPlace | NPDThirdparty/JSON/jsoncpp.cpp:1903-1935 | the byte of a short escape stands at the place of its letter, and no other letter is one |
| JsonPieces.QuoteIsPieces | NPDThirdparty/JSON/jsoncpp.cpp:4308-4386 | a quoted string is a string of the standard, and its pieces denote the string if it is well-formed UTF-8 |
| JsonStrings.StringSurvivesIffWellFormed | NPDThirdparty/JSON/jsoncpp.cpp:4308-4386 | a quoted string is found whole by the tokenizer and decodes to itself if and only if it is well-formed UTF-8 (section 4 of RFC 3629) |
| JsonStrings.StepReadsBack | NPDThirdparty/JSON/jsoncpp.cpp:4263-4350 | each character the quoter writes, short escape, \\u escape or surrogate pair, is stepped over by the scan and decoded to the bytes it stands for |
| JsonStrings.PlainNeedsNoQuoting | NPDThirdparty/JSON/jsoncpp.cpp:4313-4314 | the shortcut for text without special characters writes what the general loop would write |
| JsonStrings.HexRoundTrip | NPDThirdparty/JSON/jsoncpp.cpp:4297-4306 | four written hexadecimal digits decode to the number they were written from and end neither the string nor the escape |
| JsonStrings.DecodePair | NPDThirdparty/JSON/jsoncpp.cpp:1944-1967 | a code point written as lead and trail surrogate escapes decodes to the encoding of that code point |
| JsonStrings.DecodeOutOfRange | NPDThirdparty/JSON/jsoncpp.cpp:4229-4278 | a four-byte sequence above U+10FFFF, which the quoter accepts, comes back as two three-byte sequences: this is why well-formedness is necessary |
| JsonStrings.MalformedIsReplaced | NPDThirdparty/JSON/jsoncpp.cpp:4229-4278 | what section 3 of RFC 3629 excludes is written as U+FFFD: a sequence cut off, a byte that begins none, an overlong form, a surrogate |
| Utf8.EncodeIsRow | NPDThirdparty/JSON/jsoncpp.cpp:125-153 | the bytes written for a code point are the row of the table in section 3 of RFC 3629, and no other bytes are |
| JsonNumbers.DecodeNumberIsExact | NPDThirdparty/JSON/jsoncpp.cpp:1778-1856 | an optionally signed digit string is an integer exactly when its value fits the signed or unsigned 64-bit type, and then it has that value; every other one goes to the floating-point decoder |
| JsonNumbers.NotDigitsToDouble | NPDThirdparty/JSON/jsoncpp.cpp:1824-1843 | a token with anything but digits after the sign never becomes an integer |
| JsonNumbers.NumberReadsBack | NPDThirdparty/JSON/jsoncpp.cpp:4132-4155 | the numeral of every 64-bit integer is scanned as one token and decoded to that integer, typed unsigned only above 2^63-1 |
| JsonValue.LessIsStrictTotalOrder | NPDThirdparty/JSON/jsoncpp.cpp:2687-2703 | key comparison is a strict total order on byte strings |
| JsonValue.LessIsLexicographic | NPDThirdparty/JSON/jsoncpp.cpp:2687-2703 | the first byte that differs decides, as unsigned numbers, and a key comes behind those it begins with |
| JsonValue.InsertIsMapUpdate | NPDThirdparty/JSON/jsoncpp.cpp:3448-3463 | storing a member keeps the object sorted and duplicate-free, binds that key and leaves every other key alone |
| Decimal.NumeralMeaning | NPDThirdparty/JSON/jsoncpp.cpp:167-173 | the digits written for a number are all digits and denote that number |
| JsonWriter.UintToString | NPDThirdparty/JSON/jsoncpp.cpp:167-173 | the buffer filled from its end holds exactly the decimal numeral, for zero as well |
| JsonWriter.IntToString | NPDThirdparty/JSON/jsoncpp.cpp:4132-4147 | the signed numeral of every 64-bit integer, the least one included |
| JsonWriter.IsAnyCharRequiredQuoting | NPDThirdparty/JSON/jsoncpp.cpp:4216-4227 | found if and only if some character of the string needs quoting |
| JsonWriter.ValueToQuotedString | NPDThirdparty/JSON/jsoncpp.cpp:4308-4386 | the result is the quoted form that the round trip is proved for |
| JsonWriter.FastWriter.WriteValue | NPDThirdparty/JSON/jsoncpp.cpp:4417-4469 | appends exactly the text of the value to the document and touches nothing before it, for every value and all three options |
| JsonWriter.FastWriter.Write | NPDThirdparty/JSON/jsoncpp.cpp:4409-4415 | the document is the text of the root with the line feed unless it is switched off, whatever was written before |
| JsonReader.OurReader.SkipSpaces | NPDThirdparty/JSON/jsoncpp.cpp:1495-1503 | the cursor stops at the first byte that is not white space |
| JsonReader.OurReader.Match | NPDThirdparty/JSON/jsoncpp.cpp:1505-1514 | the literal matches if and only if it stands at the cursor, which moves past it only then |
| JsonReader.OurReader.ReadNumber | NPDThirdparty/JSON/jsoncpp.cpp:1612-1637 | the cursor passes the longest digits, fraction and exponent |
| JsonReader.OurReader.ReadString | NPDThirdparty/JSON/jsoncpp.cpp:1638-1648 | the cursor passes the closing quote, which no escape hides, or the end if there is none |
| JsonReader.OurReader.ReadToken | NPDThirdparty/JSON/jsoncpp.cpp:1387-1493 | the token at the cursor, with its extent, for every document |
| JsonReader.OurReader.DecodeNumberToken | NPDThirdparty/JSON/jsoncpp.cpp:1768-1878 | the accumulator never leaves the unsigned 64-bit range, the value is the one the exactness lemma speaks about, and a text that is neither an integer nor accepted as a double fails |
| JsonReader.OurReader.DecodeString | NPDThirdparty/JSON/jsoncpp.cpp:1891-1942 | the decoded bytes, or failure exactly at a bad escape |
| JsonReader.OurReader.DecodeUnicodeCodePoint | NPDThirdparty/JSON/jsoncpp.cpp:1944-1967 | a lead surrogate takes the escape after it; anything else is one escape |
| JsonReader.OurReader.DecodeUnicodeEscapeSequence | NPDThirdparty/JSON/jsoncpp.cpp:1969-1993 | four hexadecimal digits of either case, or nothing |
| JsonReader.OurReader.ReadValue | NPDThirdparty/JSON/jsoncpp.cpp:1285-1375 | the innermost open value becomes the value at the cursor, the other open values are as they were, the cursor is just past it; failures and the stack limit are reported as such |
| JsonReader.OurReader.ReadArray | NPDThirdparty/JSON/jsoncpp.cpp:1726-1766 | the open value becomes the array, whose items are read on the value stack one at a time |
| JsonReader.OurReader.ReadObject | NPDThirdparty/JSON/jsoncpp.cpp:1662-1724 | the open value becomes the object; a key read twice, where allowed, overwrites the earlier value |
| JsonReader.OurReader.Parse | NPDThirdparty/JSON/jsoncpp.cpp:1241-1283 | the whole parse: value, trailing text and strict root, equal to the parse the document round trip is proved for |
| Crc32.CRC32 | LibNPDBase/NPDCommon.cpp:54-67 | the table-driven loop returns the register after all message bits and 32 zero bits have been shifted in |
| Crc32.TableIsExact | LibNPDBase/NPDCommon.cpp:18-52 | every one of the 256 table entries is its index shifted eight bits through the generator |
| CrcPolynomial.ByteStepIsEightSteps | LibNPDBase/NPDCommon.cpp:58-65 | one table look-up does the work of eight single-bit register steps |
| CrcPolynomial.StepPoly | LibNPDBase/NPDCommon.cpp:58-65 | one bit step multiplies by x, adds the message bit and subtracts the generator exactly when x^32 appears |
| CrcPolynomial.CrcIsTheRemainder | LibNPDBase/NPDCommon.cpp:54-67 | CRC32 is the remainder of M(x)·x^32 modulo 0x04C11DB7 of clause 3.2.9 of IEEE 802.3, and no other register value is |
| CrcPolynomial.CrcIsLinear | LibNPDBase/NPDCommon.cpp:54-67 | the checksum of the xor of two equally long messages is the xor of their checksums |
| CrcPolynomial.CrcOfCodeword | LibNPDBase/NPDCommon.cpp:54-67 | a message followed by its own big-endian checksum has checksum 0 |
| CrcPolynomial.BurstIsDetected | LibNPDBase/NPDCommon.cpp:54-67 | two messages of one length that differ only within 32 consecutive bits have different checksums |
| XmlChars.ClassIsExact | NPDThirdparty/XML/pugixml.cpp:1841-1897 | the 256-entry table assigns a byte to a class exactly when the class definition says so |
| XmlGap.ScanWhileUnroll | NPDThirdparty/XML/pugixml.cpp:2595 | the four-way unrolled scan stops where the plain scan stops, and passes only ordinary bytes |
| XmlGap.TextFits | NPDThirdparty/XML/pugixml.cpp:2405-2445 | decoded text plus gap is what has been read: the write position never passes the read position |
| XmlGap.CollapseState | NPDThirdparty/XML/pugixml.cpp:2417-2423 | moving the text behind the gap down leaves the decoded text in one piece and the unread bytes untouched |
| XmlGap.Gap.Push | NPDThirdparty/XML/pugixml.cpp:2415-2430 | opening a gap, after closing the previous one, keeps decoded text and unread input |
| XmlGap.Gap.Flush | NPDThirdparty/XML/pugixml.cpp:2433-2444 | the decoded text stands in one piece and ends at the returned position |
| XmlGap.Gap.StrconvEscape | NPDThirdparty/XML/pugixml.cpp:2447-2585 | a well-formed reference is replaced by its character, whose bytes fit in the text it replaces; anything else stays; for numeric references of any length, with wrap-around at 2^32 |
| XmlText.Reference | NPDThirdparty/XML/pugixml.cpp:2447-2585 | a reference ends behind the ampersand, and the UTF-8 encoding of its character takes no more bytes than the reference itself |
| XmlSyntax.NumericReference | NPDThirdparty/XML/pugixml.cpp:2453-2510 | for every non-empty string of digits the decimal and the hexadecimal reference deliver the UTF-8 of the positional value modulo 2^32, a digit counting its place in 0123456789abcdef or 0123456789ABCDEF |
| XmlSyntax.CaseOfDigitsIsIgnored | NPDThirdparty/XML/pugixml.cpp:2467-2470 | the same reference with capital digits delivers the same |
| XmlSyntax.NumberInUtf8 | NPDThirdparty/XML/pugixml.cpp:1474-1512 | the bytes are the row of RFC 3629 up to U+1FFFFF, and beyond it four bytes with the low 22 bits |
| XmlSyntax.NamedReference | NPDThirdparty/XML/pugixml.cpp:2512-2579 | the five names of section 4.6 of XML 1.0 deliver their characters |
| XmlSyntax.StrayIsOrdinary | NPDThirdparty/XML/pugixml.cpp:2447-2585 | an ampersand where no reference stands is an ordinary byte, so a malformed reference stays as it is in every decoder that takes references |
| XmlSyntax.TextRead | NPDThirdparty/XML/pugixml.cpp:2600-2875 | for every decoder and every text of units with an end behind it: comments, CDATA sections, character data and attribute values deliver what the units stand for, namely themselves, one line feed for a line end, one space for white space that is converted or normalized, and the characters of references; without an end they are refused, except character data |
| XmlSyntax.EveryTextIsUnits | NPDThirdparty/XML/pugixml.cpp:2600-2875 | every buffer is a text of units up to an end or the end of the buffer, so the statement above is about every input |
| XmlSyntax.EndIsExact | NPDThirdparty/XML/pugixml.cpp:2600-2875 | a decoder stops at the end of its text and nowhere else: the first closing mark, also with the last byte cut off, the first `<`, the quote in use |
| XmlSyntax.TrimmedIs | NPDThirdparty/XML/pugixml.cpp:2671-2682 | trimming takes away the white space at the end, all of it and nothing else |
| XmlSyntax.NormalizedIs | NPDThirdparty/XML/pugixml.cpp:2731-2781 | a normalized attribute is its words with one space between them and none around them, whatever white space was there |
| XmlStrconv.StrconvComment | NPDThirdparty/XML/pugixml.cpp:2600-2626 | the buffer delivers what the pure left-to-right comment decoder delivers, or reports the missing end |
| XmlStrconv.StrconvCdata | NPDThirdparty/XML/pugixml.cpp:2628-2654 | the same for CDATA sections |
| XmlStrconv.StrconvPcdata | NPDThirdparty/XML/pugixml.cpp:2658-2707 | the same for character data, for every combination of trimming, line ends and escapes, with everything outside the text untouched |
| XmlStrconv.ParseSimple | NPDThirdparty/XML/pugixml.cpp:2851-2875 | the same for attribute values taken as they are, with or without escapes |
| XmlStrconv.ParseEol | NPDThirdparty/XML/pugixml.cpp:2819-2849 | the same with line ends normalized |
| XmlStrconv.ParseWconv | NPDThirdparty/XML/pugixml.cpp:2783-2817 | the same with white space turned into spaces |
| XmlStrconv.ParseWnorm | NPDThirdparty/XML/pugixml.cpp:2731-2781 | the same with white space collapsed and trimmed at both ends |
| XmlEscape.TextOutputEscaped | NPDThirdparty/XML/pugixml.cpp:3907-3957 | the writer receives exactly the escaped text, for either mode, quote setting and control-character setting |
| XmlEscapeRoundTrip.EscapedIs | NPDThirdparty/XML/pugixml.cpp:3907-3957 | which bytes are escaped in which mode, by which reference; control characters by a decimal reference whose digits denote them, or not at all |
| XmlEscapeRoundTrip.AttributeByte | NPDThirdparty/XML/pugixml.cpp:3920-3956 | every escaped byte is read back by one step of every attribute decoder that does not normalize white space runs |
| XmlEscapeRoundTrip.AttributeRoundTrip | NPDThirdparty/XML/pugixml.cpp:2783-2875 | a NUL-free string, escaped in attribute mode and closed with its quote, decodes to itself with the simple, line-end and space-converting parsers, which stop just past the quote |
| XmlEscapeRoundTrip.PcdataRoundTrip | NPDThirdparty/XML/pugixml.cpp:2658-2707 | a string escaped as character data and followed by a tag or the end decodes to itself up to the line-end normalization of section 2.11 of XML 1.0 |
| XmlEscapeRoundTrip.CharacterDataSurvivesIff | NPDThirdparty/XML/pugixml.cpp:2658-2707 | the string comes back exactly when line ends are left alone or it holds no carriage return |
| XmlEscapeRoundTrip.NormalizeEolIdentity | NPDThirdparty/XML/pugixml.cpp:2683-2687 | line-end normalization changes a string exactly when it holds a carriage return |
| XmlEscapeRoundTrip.SkippingIsFiltering | NPDThirdparty/XML/pugixml.cpp:3935-3952 | with control characters skipped, the output is the escaped form of the string without them |
| XmlTranscode.GetValidLength | NPDThirdparty/XML/pugixml.cpp:3653-3667 | a chunk of well-formed text is cut on a code point boundary, with at most four bytes left over; chunks of fewer than five bytes are left whole for later |
| XmlTranscode.Process | NPDThirdparty/XML/pugixml.cpp:1620-1685 | the decoder feeds a writer the code points of the text, with the aligned four-byte fast path changing nothing |
| XmlTranscode.ConvertBufferOutput | NPDThirdparty/XML/pugixml.cpp:3669-3690 | a chunk becomes its text in the target encoding and byte order, within four bytes per input byte |
| XmlTranscode.TranscodeSplits | NPDThirdparty/XML/pugixml.cpp:3693-3767 | converting two pieces cut at a code point boundary and joining them is converting the whole |
| XmlTranscode.TranscodeIsExact | NPDThirdparty/XML/pugixml.cpp:1470-1618 | the converted text is the same sequence of scalar values in UTF-16, UTF-32 or Latin-1, in either byte order |
| XmlTranscode.EncodingIsStandard | NPDThirdparty/XML/pugixml.cpp:1530-1618 | read back from its bytes, each converted scalar value is the unit or the surrogate pair of RFC 2781 in its byte order, the UTF-32 number, or the Latin-1 byte with a question mark for what does not fit |
| XmlTranscode.HeadOfEncoded | NPDThirdparty/XML/pugixml.cpp:1620-1685 | the decoder reads back every encoded scalar value, whatever follows it |
| XmlWriter.Writer.FlushChunk | NPDThirdparty/XML/pugixml.cpp:3711-3727 | one chunk reaches the sink converted, and always fits the scratch area |
| XmlWriter.Writer.WriteDirect | NPDThirdparty/XML/pugixml.cpp:3729-3766 | text larger than the buffer reaches the sink in chunks that end between code points, the rest stays pending |
| XmlWriter.Writer.WriteBuffer | NPDThirdparty/XML/pugixml.cpp:3768-3781 | what has been written so far grows by exactly the argument |
| XmlWriter.Writer.WriteString | NPDThirdparty/XML/pugixml.cpp:3783-3806 | the same for a string copied up to the end of the buffer, with the step back to a code point boundary |
| XmlWriter.Writer.Write | NPDThirdparty/XML/pugixml.cpp:3808-3875 | the same for one to six bytes |
| XmlWriter.Output | NPDThirdparty/XML/pugixml.cpp:3693-3905 | after any sequence of writes and a final flush the sink holds the conversion of the concatenation, however the buffer filled |
| XPathTree.DocumentOrderIsStrictTotal | NPDThirdparty/XML/pugixml.cpp:8065-8106 | document order is a strict total order on the nodes of all documents |
| XPathTree.NodeIsBeforeSibling | NPDThirdparty/XML/pugixml.cpp:8041-8063 | of two different siblings, or documents, the walk in step along both chains decides which comes first |
| XPathTree.NodeIsBefore | NPDThirdparty/XML/pugixml.cpp:8065-8106 | climbing both chains at once decides pre-order position for any two different nodes; an ancestor comes before its descendants |
| XPathTree.NodeIsAncestor | NPDThirdparty/XML/pugixml.cpp:8108-8113 | true exactly for the node itself and its descendants |
| XPathTree.BeforeXIsStrictTotal | NPDThirdparty/XML/pugixml.cpp:8146-8198 | order with attributes, each after its element and before the children, is a strict total order |
| XPathPositions.DocumentOrderComparator | NPDThirdparty/XML/pugixml.cpp:8146-8198 | positions in the parse buffer decide where both nodes have one, the links otherwise |
| XPathPositions.ComparatorIsExact | NPDThirdparty/XML/pugixml.cpp:8115-8198 | for strings left in the order of parsing the comparator is document order on different nodes if and only if no element has lost its name while its embedded value and one of its attributes are still in the buffer, and the buffers lie in the order of the documents |
| XPathPositions.ComparedWithItself | NPDThirdparty/XML/pugixml.cpp:8146-8198 | a node counts as before itself if and only if it is an attribute without a position in the buffer |
| XPathPositions.LosingKeepsParserOrder | NPDThirdparty/XML/pugixml.cpp:8115-8144 | strings that leave the buffer or go away leave the others in the order of parsing |
| XPathPositions.LostNameMisplaces | NPDThirdparty/XML/pugixml.cpp:8150-8154 | the document `<a b="1">t</a>` with embedded text, before and after the name of `a` is set to the empty string: first in document order, then the attribute counts as before its element |
| XPathOrder.OrderIsExact | NPDThirdparty/XML/pugixml.cpp:9957-10148 | the pre-order list of a document holds every node once, in document order |
| XPathOrder.NextInOrder | NPDThirdparty/XML/pugixml.cpp:9994-10009 | one step of a walk reaches the next node in document order, or leaves the subtree |
| XPathAxes.EnumerationIsExact | NPDThirdparty/XML/pugixml.cpp:9957-10240 | a step enumerates exactly the nodes it selects, forward axes in document order and reverse axes in reverse order, none twice |
| XPathNodeTests.TypeTests | NPDThirdparty/XML/pugixml.cpp:9881-9955 | of the nodes on its axis, a step selects by `node()` all, by `comment()` the comments, by `text()` character data of either kind, by `processing-instruction()` the processing instructions, and by `*` the elements |
| XPathNodeTests.NameTests | NPDThirdparty/XML/pugixml.cpp:9881-9955 | a name selects the elements of that name, a named processing-instruction test those of that name, and `p:*` the elements whose names begin with the prefix |
| XPathNodeTests.EmptyNamesSelectNothing | NPDThirdparty/XML/pugixml.cpp:9889-9928 | a node without a name passes no test for a name, not even for the empty one |
| XPathNodeTests.AttributesSelected | NPDThirdparty/XML/pugixml.cpp:9842-9879 | an attribute is selected on the attribute axis of its element if the name fits and it declares no namespace, and on its own self axes by `node()` alone |
| XPathNodeTests.DeclarationsAreNoAttributes | NPDThirdparty/XML/pugixml.cpp:8655-8658 | the names left out are `xmlns` and those that begin with `xmlns:`, and no others |
| XPathNodeTests.NodeIsDisjointUnion | NPDThirdparty/XML/pugixml.cpp:9881-9955 | `node()` is the disjoint union of `*`, `text()`, `comment()`, `processing-instruction()` and the documents, declarations and document types |
| XPathNodeTests.RootIsTopAncestor | NPDThirdparty/XML/pugixml.cpp:10991-11001 | `/` is the ancestor of the context node, or the node itself, that has no parent |
| XPathAxes.AxesPartition | NPDThirdparty/XML/pugixml.cpp:9957-10148 | ancestor, descendant, self, following and preceding divide the nodes of a document among them (section 2.2 of XPath 1.0) |
| XPathAxes.WalksPartition | NPDThirdparty/XML/pugixml.cpp:9957-10148 | the five walks together visit every node of the document exactly once |
| XPathWalks.AttributeWalk | NPDThirdparty/XML/pugixml.cpp:9963-9970 | the attributes in their order, namespace declarations left out |
| XPathWalks.ChildWalk | NPDThirdparty/XML/pugixml.cpp:9972-9979 | the children in order |
| XPathWalks.FollowingSiblingWalk | NPDThirdparty/XML/pugixml.cpp:10013-10020 | the later siblings in order |
| XPathWalks.PrecedingSiblingWalk | NPDThirdparty/XML/pugixml.cpp:10022-10029 | the earlier siblings, nearest first, although the backward links are circular |
| XPathWalks.DescendantWalk | NPDThirdparty/XML/pugixml.cpp:9981-10011 | the subtree in document order, and the walk ends |
| XPathWalks.FollowingWalk | NPDThirdparty/XML/pugixml.cpp:10031-10066 | everything after the subtree, in document order |
| XPathWalks.PrecedingWalk | NPDThirdparty/XML/pugixml.cpp:10068-10108 | everything before that is not an ancestor, in reverse document order |
| XPathWalks.AncestorWalk | NPDThirdparty/XML/pugixml.cpp:10110-10128 | the chain of parents, nearest first |
| XPathWalks.StepFillNode | NPDThirdparty/XML/pugixml.cpp:9957-10148 | for every axis and test, the walk from a node pushes the enumeration of the axis, or its first hit when one is enough |
| XPathWalks.StepFillAttribute | NPDThirdparty/XML/pugixml.cpp:10150-10228 | the same from an attribute |
| XPathWalks.StepFill | NPDThirdparty/XML/pugixml.cpp:10231-10240 | the same for every context node |
| XPathSort.InsertionSort | NPDThirdparty/XML/pugixml.cpp:7486-7506 | the range becomes a sorted permutation of itself |
| XPathSort.Median3 | NPDThirdparty/XML/pugixml.cpp:7508-7518 | the three positions in the order of their elements |
| XPathSort.Partition3 | NPDThirdparty/XML/pugixml.cpp:7520-7545 | the range is permuted into less, equal and greater, with the equal elements in the middle even when they outnumber the smaller ones |
| XPathSort.MoveEqual | NPDThirdparty/XML/pugixml.cpp:7537-7544 | swapping equal elements towards the middle keeps the four groups although the two runs may cross |
| XPathSort.Sort | NPDThirdparty/XML/pugixml.cpp:7547-7575 | the range becomes a sorted permutation for every comparator that orders different elements, if at most 16 elements stand at or before any element that is repeated and counts as before itself (so for every strict total order), and the recursion is no deeper than the binary logarithm of its length |
| XPathSort.NoProgressIff | NPDThirdparty/XML/pugixml.cpp:7552-7570 | one turn leaves the range as it is if and only if its pivot counts as before itself and nothing in the range is behind it; the right part is always smaller |
| XPathSort.SparseIsNeeded | NPDThirdparty/XML/pugixml.cpp:7547-7575 | every list that breaks the condition of the sort can be arranged so that the sort does not end: the left group of the first turn is a range that no turn changes |
| XPathSort.Progress | NPDThirdparty/XML/pugixml.cpp:7552-7570 | under the condition both outer groups of a partition of more than 16 elements are smaller than the range, also when the middle group is empty |
| XPathSort.CopiesStay | NPDThirdparty/XML/pugixml.cpp:7508-7570 | one element behind 17 or more copies of an element that counts as before itself: whatever the pivot and the partition, the first turn leaves the copies as the left group, and no turn changes it |
| XPathRepeats.RepeatedAttributeNeverSorts | NPDThirdparty/XML/pugixml.cpp:8843-8880 | an input: the element `z` of `<a x=""><z/></a>` followed by 17 or more copies of the attribute, after its name and value have been set; the list is found unsorted and its sort does not end |
| XPathRepeats.SortableIsNeeded | NPDThirdparty/XML/pugixml.cpp:8859-8880 | every list with two different nodes that breaks the condition has an arrangement that is found unsorted and whose sort does not end |
| XPathRepeats.SameNodesAreOrdered | NPDThirdparty/XML/pugixml.cpp:8843-8857 | a list whose nodes are all the same is found ordered, so it never reaches the sort |
| XPathHash.TrianglesDiffer | NPDThirdparty/XML/pugixml.cpp:7593-7606 | triangular numbers below a power of two are different modulo that power |
| XPathHash.EverySlotProbed | NPDThirdparty/XML/pugixml.cpp:7593-7606 | the probes visit every slot of a power-of-two table exactly once |
| XPathHash.HashInsert | NPDThirdparty/XML/pugixml.cpp:7577-7610 | with a free slot the loop returns, says whether the key was new, and the table then holds exactly one more key; the full-table exit is not reached |
| XPathHash.DedupIsExact | NPDThirdparty/XML/pugixml.cpp:9003-9017 | keeping first occurrences loses nothing, keeps nothing twice and keeps the order |
| XPathHash.DedupByHash | NPDThirdparty/XML/pugixml.cpp:8993-9017 | in place, the set left behind is the first occurrence of each node in the original order, with a table of the size the code chooses |
| XPathHash.Unique | NPDThirdparty/XML/pugixml.cpp:7461-7484 | where equal nodes stand together, each is kept once |
| XPathHash.RemoveDuplicates | NPDThirdparty/XML/pugixml.cpp:8987-9023 | both branches leave the first occurrence of each node |
| XPathMeaning.PosinvIsInvariant | NPDThirdparty/XML/pugixml.cpp:11114-11143 | an expression that passes the test has one value at every context position and size |
| XPathMeaning.ConditionIsInvariant | NPDThirdparty/XML/pugixml.cpp:11145-11158 | a condition that passes the test holds at every position or at none |
| XPathMeaning.PredicateHolds | NPDThirdparty/XML/pugixml.cpp:9818-9830 | a predicate that is a number holds at that position, a string if it is not empty, a comparison if it is true, a node set if it holds a node (section 2.4 of XPath 1.0) |
| XPathMeaning.EqualNumbers | NPDThirdparty/XML/pugixml.cpp:7405-7411 | numbers are equal if they are the same real, and not-a-number equals nothing, not even itself |
| XPathMeaning.FalseValues | NPDThirdparty/XML/pugixml.cpp:8260-8263 | everything is true but zero, not-a-number, the empty string, false and no nodes (section 4.3 of XPath 1.0) |
| XPathMeaning.FromOneProperties | NPDThirdparty/XML/pugixml.cpp:10242-10287 | what one context node contributes is on the axis, in axis order, without repeats, for every predicate list |
| XPathMeaning.RankIsPlace | NPDThirdparty/XML/pugixml.cpp:10923-10940 | in a list in document order the position of a node is its place |
| XPathMeaning.FilterByList | NPDThirdparty/XML/pugixml.cpp:10923-10940 | a filter keeps exactly the nodes whose place in document order satisfies the predicate |
| XPathOptimize.MergedSelects | NPDThirdparty/XML/pugixml.cpp:11073-11087 | the merged axis selects what the two steps select, from nodes and from attributes |
| XPathOptimize.MergeKeepsMeaning | NPDThirdparty/XML/pugixml.cpp:11073-11087 | the replacement of `descendant-or-self::node()/axis::T[P]` by one step keeps the node set for every tree and context when every predicate is positionally invariant |
| XPathOptimize.OptimizePreserves | NPDThirdparty/XML/pugixml.cpp:11034-11087 | the optimizer keeps the node set and the value of every expression in every context |
| XPathOptimize.DoubleSlashMerges | NPDThirdparty/XML/pugixml.cpp:11073-11087 | `//test` with any number of predicates that are paths becomes one descendant step |
| XPathOptimize.PredPreserves | NPDThirdparty/XML/pugixml.cpp:11049-11072 | a predicate and its classification hold at the same positions as before |
| XPathQuery.PositionalStepsDoNotMerge | NPDThirdparty/XML/pugixml.cpp:11073-11087 | a concrete document on which `//a[1]` and `/descendant::a[1]` differ: the test is needed |
| XPathNodeSet.GetOrder | NPDThirdparty/XML/pugixml.cpp:8843-8857 | sorted where all neighbours compare as before, reverse where none does, unsorted otherwise; the tag is true of every list, with or without repeats |
| XPathNodeSet.Sort | NPDThirdparty/XML/pugixml.cpp:8859-8880 | the same nodes, each as often as before, in document order or in reverse, for sets of the application with repeats, under the exact condition of the sort |
| XPathNodeSet.SortDo | NPDThirdparty/XML/pugixml.cpp:8859-8880 | a set without repeats is put in document order with its nodes kept, whatever its tag; such sets always meet the condition of the sort |
| XPathNodeSet.FirstNode | NPDThirdparty/XML/pugixml.cpp:8882-8901 | the first node in document order, for every tag, with or without repeats |
| XPathNodeSet.MinElement | NPDThirdparty/XML/pugixml.cpp:7444-7453 | the member before all others |
| XPathEval.ApplyPredicateBoolean | NPDThirdparty/XML/pugixml.cpp:9738-9762 | the nodes whose condition holds at their position, or the first of them |
| XPathEval.ApplyPredicateNumber | NPDThirdparty/XML/pugixml.cpp:9764-9788 | the nodes whose position is the number, which may differ from node to node |
| XPathEval.ApplyPredicateNumberConst | NPDThirdparty/XML/pugixml.cpp:9790-9816 | one look finds the only node a constant number can keep, or none for fractions, zero and numbers past the end |
| XPathEval.ApplyPredicates | NPDThirdparty/XML/pugixml.cpp:9832-9840 | the nodes left by all predicates in turn, or the first of them where the last may stop early |
| XPathEval.EvalBoolean | NPDThirdparty/XML/pugixml.cpp:10339-10480 | the truth of the value; a node set is true exactly when the expression selects a node, although evaluation may stop at the first |
| XPathEval.EvalNodeSet | NPDThirdparty/XML/pugixml.cpp:10902-11032 | in each mode the result answers its question: all nodes, the first in document order, or emptiness; it is duplicate-free and its tag is true |
| XPathEval.EvalFilter | NPDThirdparty/XML/pugixml.cpp:10923-10940 | the same for filters, where `[1]` asks its operand for the first node only and invariant predicates skip the sort |
| XPathEval.StepDo | NPDThirdparty/XML/pugixml.cpp:10242-10287 | the same for steps, with early exit and without removing duplicates wherever that is allowed |
| XPathEval.CollectedGood | NPDThirdparty/XML/pugixml.cpp:10250-10284 | where duplicates are not removed there are none, and the tag kept while contexts are appended is true |
| XPathNodeSet.RemoveDuplicates | NPDThirdparty/XML/pugixml.cpp:8987-9023 | on a set with any true tag, the first occurrence of each node; sorted sets have equal nodes side by side |
| XPathQuery.EvaluateNodeSet | NPDThirdparty/XML/pugixml.cpp:12858-12878 | the public evaluation of the optimized query gives exactly the nodes of the query as written |
| XPathQuery.EvaluateNode | NPDThirdparty/XML/pugixml.cpp:12880-12900 | the first of them in document order, found by the evaluation that may stop early |
| XPathQuery.EvaluateScalar | NPDThirdparty/XML/pugixml.cpp:11034-11087 | the value of the optimized scalar query is the value of the query as written |
| XPathGrammar.BinaryOp | NPDThirdparty/XML/pugixml.cpp:11972-12021 | a lexeme is an operator exactly when it is the spelling of one |
| XPathGrammar.MinimalIsGrammatical | NPDThirdparty/XML/pugixml.cpp:12060-12077 | a tree printed with parentheses only where precedence and left associativity ask for them is a sentence of the grammar in the comments and stands for that tree |
| XPathGrammar.MinimalIsShortest | NPDThirdparty/XML/pugixml.cpp:12060-12077 | no sentence for the same tree is shorter |
| XPathParser.Parser.ParsePathOrUnaryExpression | NPDThirdparty/XML/pugixml.cpp:11892-11956 | an operand, a parenthesised expression or a minus before a union expression; the tree and the cursor are those of the pure parser |
| XPathParser.Parser.ParseExpressionRec | NPDThirdparty/XML/pugixml.cpp:12024-12058 | the two nested loops build the tree of the pure climber, or report its error |
| XPathParser.Parser.ParseExpression | NPDThirdparty/XML/pugixml.cpp:12078-12093 | one level deeper while it runs, and back afterwards |
| XPathParser.Parser.ParseQuery | NPDThirdparty/XML/pugixml.cpp:12099-12111 | the tree of the whole query with nothing left over, or the error |
| XPathPrecedence.ParseIsExact | NPDThirdparty/XML/pugixml.cpp:12024-12111 | for every depth limit, the parser accepts exactly the grammar's sentences that stay within it, consumes all of them and groups them as the grammar does; a sentence that exceeds the limit is refused for that reason |
| XPathProductions.ParserAcceptsOrExpr | NPDThirdparty/XML/pugixml.cpp:12024-12111 | the parser accepts exactly what the productions derive from OrExpr within the depth limit, and groups it as they do; a sentence beyond the limit is refused as too deep, and what is not derived is refused |
| XPathProductions.OrExprIff | NPDThirdparty/XML/pugixml.cpp:11971-12019 | the precedence numbers of the operators define the same grammar as the eight productions, from OrExpr to UnionExpr, that name the operators of each level |
| XPathProductions.OrExprIsUnambiguous | NPDThirdparty/XML/pugixml.cpp:12060-12077 | no text is derived from OrExpr in two ways |
| XPathPrecedence.GrammarIsUnambiguous | NPDThirdparty/XML/pugixml.cpp:12060-12077 | no sentence of the grammar can be grouped in two ways |
| XPathPrecedence.PrintedTreeParses | NPDThirdparty/XML/pugixml.cpp:12024-12111 | every typed tree of binary operators and minuses, printed with the fewest parentheses, is rebuilt, unless it exceeds the depth limit, which is decided exactly |
| XPathPrecedence.ShortTextsFit | NPDThirdparty/XML/pugixml.cpp:12030-12083 | a query of no more lexemes than the limit, 1024, is never refused as too deep |
| XPathPrecedence.ClimbFinds | NPDThirdparty/XML/pugixml.cpp:12024-12058 | started behind the first operand of a phrase, the climber comes to the state in which the whole phrase is its left operand |
| XPathPrecedence.ClimbSound | NPDThirdparty/XML/pugixml.cpp:12024-12058 | whatever the climber returns was written in the query, groups as the grammar does, and the next lexeme does not belong to it |
| XmlIntegers.DecimalOverflowIsExact | NPDThirdparty/XML/pugixml.cpp:4538-4565 | digit count, leading digit and top bit of the wrapped accumulator tell exactly whether a decimal number fits the type |
| XmlIntegers.HexOverflowIsExact | NPDThirdparty/XML/pugixml.cpp:4512-4537 | the same for hexadecimal numbers, from the digit count alone |
| XmlIntegers.StringToInteger | NPDThirdparty/XML/pugixml.cpp:4498-4578 | for every text the denoted number clamped to the limits of the type, always at 32 and 64 bits; at 16 bits if and only if not (signed limits, a minus sign, and a number above the lower limit), and then the lower limit, because the bound is computed in int |
| XmlIntegers.DenotedIs | NPDThirdparty/XML/pugixml.cpp:4500-4536 | white space, a plus or minus sign or none, `0x` or not, and digits denote the positional value of the digits with that sign, whatever follows them |
| XmlIntegers.MinusFiveIsPromoted | NPDThirdparty/XML/pugixml.cpp:4566-4575 | the text -5 with signed 16-bit limits is among the spoiled ones |
| XmlIntegers.IntegerToString | NPDThirdparty/XML/pugixml.cpp:4629-4647 | the numeral of the number, written backwards into a buffer that always has room |
| XmlIntegers.WrittenIsDenoted | NPDThirdparty/XML/pugixml.cpp:4629-4647 | a written numeral denotes the number it was written from |
| XmlIntegers.RoundTrip | NPDThirdparty/XML/pugixml.cpp:4498-4647 | reading undoes writing for every number of a 32- or 64-bit type, the most negative included, and for the numbers of a 16-bit type that are not negative; the negative ones come back as the least |
| XmlForest.AttachWellFormed | NPDThirdparty/XML/pugixml.cpp:1232-1303 | a detached node may be linked below any node that is not at or below it and the DOM stays a forest |
| XmlForest.NoCycles | NPDThirdparty/XML/pugixml.cpp:4366-4388 | two nodes that are above each other are one node: no parent chain is a cycle |
| XmlForest.MovedNode | NPDThirdparty/XML/pugixml.cpp:6013-6079 | unlinking a node and linking it elsewhere outside its subtree keeps the forest |
| XmlLinks.AppendShows | NPDThirdparty/XML/pugixml.cpp:1232-1251 | the link updates of an append are the list with the node at its end, and change no other list |
| XmlLinks.RemoveShows | NPDThirdparty/XML/pugixml.cpp:1305-1322 | the link updates of a removal are the list without the node, which is left without links |
| XmlDom.AppendNode | NPDThirdparty/XML/pugixml.cpp:1232-1251 | on nodes in memory: the child list of the parent gets the node at its end; every list is null-terminated forwards and circular backwards afterwards |
| XmlDom.PrependNode | NPDThirdparty/XML/pugixml.cpp:1253-1269 | the same at the front |
| XmlDom.InsertNodeAfter | NPDThirdparty/XML/pugixml.cpp:1271-1286 | the same behind a given child |
| XmlDom.InsertNodeBefore | NPDThirdparty/XML/pugixml.cpp:1288-1303 | the same before a given child |
| XmlDom.RemoveNode | NPDThirdparty/XML/pugixml.cpp:1305-1322 | the node leaves its list, the other children keep their order |
| XmlDom.AllowMove | NPDThirdparty/XML/pugixml.cpp:4366-4388 | allowed exactly when the kinds fit, both nodes belong to one document and the new parent is not at or below the moved node; the climb ends |
| XmlDom.AllowedIff | NPDThirdparty/XML/pugixml.cpp:4357-4364 | a document takes every kind but documents, an element takes elements, character data, comments and processing instructions, and nothing else takes any child |
| XmlDom.SameDocumentIff | NPDThirdparty/XML/pugixml.cpp:5627-5630 | two nodes have one root exactly if one document node is above both |
| XmlDom.NewDocument | NPDThirdparty/XML/pugixml.cpp:6990-7011 | a fresh document beside any others is one node, linked as the operations expect |
| XmlDom.AppendChild | NPDThirdparty/XML/pugixml.cpp:5837-5852 | a new last child, called xml if it is a declaration and nameless otherwise, or a refusal that changes nothing, decided by the kinds; every document stays one tree |
| XmlDom.PrependChild | NPDThirdparty/XML/pugixml.cpp:5854-5869 | the same at the front |
| XmlDom.InsertChildBefore | NPDThirdparty/XML/pugixml.cpp:5871-5887 | the same before a child; refused exactly when the given node is not a child |
| XmlDom.InsertChildAfter | NPDThirdparty/XML/pugixml.cpp:5889-5905 | the same behind a child |
| XmlDom.AppendMove | NPDThirdparty/XML/pugixml.cpp:6013-6027 | the moved node with its subtree becomes the last child, refused exactly when the move is not allowed; no cycle arises |
| XmlDom.PrependMove | NPDThirdparty/XML/pugixml.cpp:6029-6043 | the same at the front |
| XmlDom.InsertMoveAfter | NPDThirdparty/XML/pugixml.cpp:6045-6061 | the same behind a child, refused also when the node would be placed beside itself |
| XmlDom.InsertMoveBefore | NPDThirdparty/XML/pugixml.cpp:6063-6079 | the same before a child |
| XmlDom.RemoveChild | NPDThirdparty/XML/pugixml.cpp:6126-6137 | the child and everything below it leave the document, refused exactly when the node is not a child |
| XmlDomRuns.Run | NPDThirdparty/XML/pugixml.cpp:5837-6137 | for every list of requests to open documents, create, move, copy, remove and look around, with empty handles where a request was refused: at the end, and so after each request, the nodes in memory are the trees of the documents, only documents and elements have children, declarations and document types stand directly below a document, no handle leads to a node that is gone, and every request has done what it says or nothing |
| XmlDomRuns.PerformRemove | NPDThirdparty/XML/pugixml.cpp:6126-6137 | a removal empties exactly the handles to the node and to what is below it |
| XmlDomRuns.PerformVisit | NPDThirdparty/XML/pugixml.cpp:5566-5670 | parent, first child and next sibling as the forest has them |
| XmlCopy.NodeCopyContents | NPDThirdparty/XML/pugixml.cpp:4410-4425 | name, value and attributes, in order, are those of the source |
| XmlCopy.NextNode | NPDThirdparty/XML/pugixml.cpp:4459-4476 | the end of the loop body leads to the next node of the walk or out of it, with the destination cursor at the copy of its parent |
| XmlCopy.NodeCopyTree | NPDThirdparty/XML/pugixml.cpp:4427-4479 | terminates, and below the destination stands a copy of the source as it was before the destination was linked, made of new nodes of the document of the destination, also when the destination is at or below the source; every other list and parent is as it was |
| XmlCopyWalk.ExtendedPartial | NPDThirdparty/XML/pugixml.cpp:4443-4457 | copying the current node keeps the copies a copy of the visited part: only the list of its parent's copy grows, at the end |
| XmlCopyWalk.BackToParent | NPDThirdparty/XML/pugixml.cpp:4461-4476 | leaving a child list means it has been copied completely; leaving the root means everything has |
| XmlCopyWalk.CopyIsWhole | NPDThirdparty/XML/pugixml.cpp:4427-4479 | when every visited node is complete, every node of the source has been visited |
| XmlCopyWalk.IsomorphicTrees | NPDThirdparty/XML/pugixml.cpp:4427-4479 | the tree below the copy and the tree below the original are the same value, at every node and height |
| XmlCopy.AppendCopy | NPDThirdparty/XML/pugixml.cpp:5943-5958 | the copy becomes the last child, or nothing changes, decided by the kinds |
| XmlCopy.PrependCopy | NPDThirdparty/XML/pugixml.cpp:5960-5975 | the same at the front |
| XmlCopy.InsertCopyAfter | NPDThirdparty/XML/pugixml.cpp:5977-5993 | the same behind a child |
| XmlCopy.InsertCopyBefore | NPDThirdparty/XML/pugixml.cpp:5995-6011 | the same before a child |
| XmlCopy.CopyKeepsDom | NPDThirdparty/XML/pugixml.cpp:5943-6011 | copying, also from another document, keeps every document one tree of its own nodes |
| XmlPages.TakeSound | NPDThirdparty/XML/pugixml.cpp:542-555 | allocation, on the last page, on a new last page or on a page of its own, keeps the page list sound: freed bytes and live blocks make up the busy bytes of every page |
| XmlPages.TakeOutstanding | NPDThirdparty/XML/pugixml.cpp:708-744 | allocation adds one live block and changes no other, also when the page list is rearranged |
| XmlPages.TakeApart | NPDThirdparty/XML/pugixml.cpp:542-555 | the new block overlaps no live block |
| XmlPages.GiveSound | NPDThirdparty/XML/pugixml.cpp:594-636 | deallocation keeps the page list sound; only the last page may be without live blocks |
| XmlPages.GiveOutstanding | NPDThirdparty/XML/pugixml.cpp:594-636 | deallocation ends the life of that block and of no other |
| XmlPages.ShrunkSound | NPDThirdparty/XML/pugixml.cpp:601-604 | freed and busy sizes are equal exactly when the last live block of the page has been given back |
| XmlPages.PageLeavesExactly | NPDThirdparty/XML/pugixml.cpp:604-635 | a page is unlinked exactly when its last live block is freed and it is not the top page |
| XmlPages.LiveBlocksApart | NPDThirdparty/XML/pugixml.cpp:508-555 | live blocks lie inside pages that are on the list and never overlap |
| XmlPages.RunIsSafe | NPDThirdparty/XML/pugixml.cpp:508-744 | after every run of legal requests the page list is sound and its live blocks are exactly those given out and not given back |
| XmlAllocator.HeaderLeadsBack | NPDThirdparty/XML/pugixml.cpp:655-689 | the two 16-bit fields give back offset and size, sizes too large for them included |
| XmlAllocator.LinkBeforeLast | NPDThirdparty/XML/pugixml.cpp:730-740 | a page put in before the last one leaves the list chained in both directions |
| XmlAllocator.Unlink | NPDThirdparty/XML/pugixml.cpp:628-630 | so does a page taken out |
| XmlAllocator.Allocator.constructor | NPDThirdparty/XML/pugixml.cpp:6990-7011 | a fresh document has its sentinel page and no live block |
| XmlAllocator.Allocator.AllocateMemory | NPDThirdparty/XML/pugixml.cpp:542-555 | linked pages, sizes and the result follow the page-list allocation |
| XmlAllocator.Allocator.AllocateMemoryOob | NPDThirdparty/XML/pugixml.cpp:708-744 | the same when a page is added |
| XmlAllocator.Allocator.DeallocateMemory | NPDThirdparty/XML/pugixml.cpp:594-636 | the same for deallocation; the assertions of the source hold |
| XmlAllocator.Allocator.AllocateObject | NPDThirdparty/XML/pugixml.cpp:588-591 | one more live block on a page of the list, apart from all others |
| XmlAllocator.Allocator.AllocateString | NPDThirdparty/XML/pugixml.cpp:638-670 | one more live block with room for the text behind a header that leads back to it |
| XmlAllocator.Allocator.DeallocateString | NPDThirdparty/XML/pugixml.cpp:672-689 | from the text address alone, exactly the block of that string is released, of whatever size |

## Left out

- XPathPositions.DocumentOrderComparator: comparing pointers of different buffers is modelled by numbers, and where a buffer lies is a parameter; that a copy or a move sets the flags that take strings out of the comparison is read off the code, not derived from the operations of `XmlDom`.
- XPathEval.EvalNodeSet: documents whose strings lie as `XPathPositions.Faithful` says; elsewhere the comparator is not document order (`XPathPositions.ComparatorIsExact`), and neither are the sets that the code sorts by it.
- XPathOptimize.OptimizePreserves: the rewrites of `translate` with constant tables and of `@name = 'value'` are not modelled; they change scalar operations, which are abstract here.
- XPathOptimize.OptimizePreserves: the optimizer updates expression nodes in place; here it maps expressions to expressions, which leaves out sharing of subexpressions, which the parser does not create.
- XPathEval.EvalNodeSet: null context nodes, out-of-memory paths and the allocator of the evaluator are not modelled; numbers are reals with a separate not-a-number, so rounding of positions is not.
- XPathHash.HashInsert: the 32 low bits of a pointer are a function of the key; nothing is assumed about it.
- XPathPrecedence.ParseIsExact: operands are variables, literals, numbers, names and `*`; function calls, predicates in brackets, location paths of several steps and the lexer are not modelled. A name followed by a parenthesis is handed over to them.
- JsonSyntax.DocumentReads: the extensions that add tokens are not modelled: comments, single quotes, NaN and Infinity, numeric keys. Error messages and the recovery after an error do not change the result of a parse. Real numbers are kept as their text and take no part in the round trip (`JsonRoundTrip.DocumentRoundTrip`): what `snprintf` writes for a `double` is not modelled.
- JsonNumbers.DecodeNumberIsExact: the value that `decodeDouble` gives is not modelled, only that it is asked; whether it accepts the text is a parameter of the reader.
- JsonReader.OurReader.ReadArray: indices beyond the 32-bit array index and string lengths beyond 32 bits are not modelled.
- XmlEscapeRoundTrip.AttributeRoundTrip: the normalizing attribute parser, which collapses white space, is proved to decode in place but takes no part in the round trip.
- XmlWriter.Output: text that is not well-formed UTF-8 is modelled for the native encoding only, where it passes unchanged; the file and stream sinks are a byte sequence.
- XmlDom.AppendMove: the flag that switches the comparison of buffer positions off is not set here; `XPathPositions` has it as a parameter.
- XmlDom.RemoveChild: the nodes that leave are dropped from the forest; that their memory is given back is the subject of the allocator model alone.
- XmlDom.AppendNode: attributes are a sequence in the node; their linked list is not modelled.
- XmlCopy.NodeCopyContents: strings are values, so whether source and copy share a buffer is not visible.
- XmlAllocator.Allocator.AllocateMemory: a large block needs an ordinary page before it, as the assertion of the code says; the first allocation of a document is a node, which makes one.
- XmlAllocator.Allocator.DeallocateMemory: destroying a document, which frees all pages at once, is not modelled.
- Loading from files and streams, DOCTYPE, encoding detection, number formatting, `strtod` and variable storage: I/O and floating point.
- Device drivers, OLED drawing, sockets, database, logging and the message protocol of NPD: plumbing around hardware and foreign libraries.
