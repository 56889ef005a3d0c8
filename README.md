# pdfwriter core in Dafny

This project models the core of the pdfwriter C++ library in Dafny, and proves
properties of that model. The core is the part of the library that decides what
bytes end up in a PDF file or come out of an input filter:

- the indirect-object registry (`IndirectObjectsReferenceRegistry`);
- the objects context that writes dictionaries, indirect objects, streams and
  both kinds of cross-reference section (`ObjectsContext`), following sections
  7.5.4 and 7.5.8 of ISO 32000-1;
- the PDF object parser (`PDFObjectParser`) and the dictionary it fills
  (`PDFDictionary`), following sections 7.3.4, 7.3.5 and 7.3.10 of ISO 32000-1;
- UTF-8 and UTF-16 transcoding (`UnicodeString`), after section 3 of RFC 3629
  and sections 2 and 3.2 of RFC 2781;
- the glyph-encoding policy of written fonts (`AbstractWrittenFont`);
- the TrueType and CFF subset writers (`TrueTypeEmbeddedFontWriter`,
  `CFFEmbeddedFontWriter`), after the OpenType table directory rules and Adobe
  Technical Note #5176;
- three input-stream decorators (`InputBufferedStream`,
  `InputStreamSkipperStream`, `InputPredictorPNGOptimumStream`, the last after
  section 6 of RFC 2083);
- the RC4 keystream (`RC4`).

One Dafny module per source file; `common.dfy` holds the byte type, `Status`,
`Option` and a few sequence lemmas. Classes whose fields the C++ code updates in
place are Dafny classes with the same fields: the output stream is a
`seq<byte>` whose length is the write position, the RC4 permutation and the PNG
row buffers are arrays. Each method is specified against a function of the old
state, and the properties the library promises are lemmas about those functions.

Modelling decisions:

- **Output formats.** `PrimitiveWriter` and `DictionaryContext` are not part of
  this model. Their output is taken as follows:
  - an integer is its decimal digits followed by a space (or end-of-line where
    the caller asks for it);
  - the end-of-line is `\n`;
  - a keyword is its text then `\n`;
  - a dictionary key is `/Key `, a name value `/Name\n`;
  - dictionaries open with `<<\n` and close with `>>\n`.
- **Tokenizer.** The tokenizer is not modelled. Its output is an input sequence
  of lexemes, each a token and the stream position after it.
- **Encryption.** Encryption is an event log (object start, object end,
  pause/release) recording the calls the objects context makes.
- **Font files.** Font files are abstract tables: glyph component lists, the
  loca array, table bytes, and the CFF dictionaries and charstrings as the
  parsers would deliver them.
- **Embedding permission.** Whether the font's FSType allows embedding is a
  boolean parameter.
- **Virtual encoders.** `EncodeCIDGlyph` and `AddToANSIRepresentation` are
  virtual in the source. They are function parameters of the written font.
- **Integer width.** The source's integer widths are written out for the
  10-digit xref offset bound, the 16/32-bit big-endian fields, byte
  arithmetic modulo 256, and the unsigned loop bound of the UTF-16 decoders.
  Parsed integer values are unbounded (see "Left out"). The xref stream's
  `/W [1 8 8]` takes `long long` and `unsigned long` as 8 bytes each, as on
  LP64 platforms; where `unsigned long` is 4 bytes (LLP64) the source writes
  `/W [1 8 4]` and 4-byte generation fields.
- **Dictionary keys.** The parser casts every dictionary key to a name
  without checking its type. The model treats a key that is not a name as a
  parse failure instead of following the unchecked cast.

## Model

| member | source | states |
|---|---|---|
| Registry.IndirectObjectsReferenceRegistry.constructor | src/IndirectObjectsReferenceRegistry.cpp:37-52 | a new registry holds one record: object 0, free, dirty, unwritten, generation 65535 |
| Registry.IndirectObjectsReferenceRegistry.Reset | src/IndirectObjectsReferenceRegistry.cpp:300-305 | after a reset only the initial free record remains |
| Registry.IndirectObjectsReferenceRegistry.GetObjectsCount | src/IndirectObjectsReferenceRegistry.cpp:127-130 | the count is the number of records |
| Registry.IndirectObjectsReferenceRegistry.GetObjectWriteInformation | src/IndirectObjectsReferenceRegistry.cpp:105-120 | found exactly when the ID is below the count, and then the record of that ID |
| Registry.IndirectObjectsReferenceRegistry.AllocateNewObjectID | src/IndirectObjectsReferenceRegistry.cpp:56-68 | returns the old count and appends one used, unwritten, dirty, generation-0 record; earlier records are untouched |
| Registry.IndirectObjectsReferenceRegistry.MarkObjectAsWritten | src/IndirectObjectsReferenceRegistry.cpp:70-103 | succeeds iff the ID exists, is not yet written and the position fits 10 digits; then only dirty, position and written change; a failure changes nothing |
| Registry.IndirectObjectsReferenceRegistry.MarkObjectAsUpdated | src/IndirectObjectsReferenceRegistry.cpp:158-184 | succeeds iff the ID exists and the position fits; sets dirty, position and type Used, never the written flag |
| Registry.IndirectObjectsReferenceRegistry.DeleteObject | src/IndirectObjectsReferenceRegistry.cpp:132-156 | succeeds iff the ID exists and its generation is not 65535 (so object 0 is never deleted); then the generation grows by one, the position becomes 0 and the record becomes free and dirty |
| Registry.IndirectObjectsReferenceRegistry.AppendExistingItem | src/IndirectObjectsReferenceRegistry.cpp:307-321 | appends one clean record of the given type and generation, written iff used |
| Registry.ExistingItem | src/IndirectObjectsReferenceRegistry.cpp:307-321 | the appended record is clean, written iff used, and has position 0 when free |
| Registry.ImportedItems | src/IndirectObjectsReferenceRegistry.cpp:323-335 | one clean record per xref entry after entry 0; deleted entries become free with position 0; stream-object entries get generation 0 |
| Registry.IndirectObjectsReferenceRegistry.SetupXrefFromModifiedFile | src/IndirectObjectsReferenceRegistry.cpp:323-335 | appends exactly the imported records, skipping entry 0 |
| XrefFormat.DecimalValue | src/ObjectsContext.cpp:184-197 | the decimal text of a number reads back as that number |
| XrefFormat.PadDecimalExact | src/ObjectsContext.cpp:184-197 | a zero-padded field of width w holds exactly w digits whose value is the number, when the number has at most w digits |
| XrefFormat.XrefEntryLayout | src/ObjectsContext.cpp:184-197 | an xref table line is 20 bytes: 10-digit offset, space, 5-digit generation, space, kind, CR LF |
| XrefFormat.BigEndianValueOf | src/ObjectsContext.cpp:736-748 | the n bytes written are the value modulo 256^n, most significant first |
| XrefFormat.BigEndianRoundTrip | src/ObjectsContext.cpp:736-748 | a value below 256^n reads back unchanged from its n-byte form |
| XrefFormat.WriteXrefNumber | src/ObjectsContext.cpp:736-748 | the right-to-left fill produces the big-endian n-byte form of the value |
| XrefSections.RunEnd | src/ObjectsContext.cpp:156-181 | the subsection scan stops at the end or at the first clean record |
| XrefSections.NextDirty | src/ObjectsContext.cpp:233-238 | the skip stops at the end or at the next dirty record |
| XrefSections.RunsAreMaximalDirtyRuns | src/ObjectsContext.cpp:156-181 | the subsections are ordered, disjoint, all-dirty, each starts after a clean record, and together cover every dirty record |
| XrefSections.NextFreeFrom | src/ObjectsContext.cpp:207-227 | the free-list search returns 0 or the next dirty free record at or after its start |
| XrefSections.CursorWithFreeHead | src/ObjectsContext.cpp:207-227 | when record 0 is dirty and free, the free cursor at i is the first dirty free record at or after i |
| XrefSections.FreeListLinks | src/ObjectsContext.cpp:207-227 | when record 0 is dirty and free, each dirty free record points to the next higher dirty free record, and the last points to 0 |
| XrefSections.FirstFreeSelfLinkedWithoutFreeHead | src/ObjectsContext.cpp:207-227 | when record 0 is not a dirty free record, the first dirty free record points to itself |
| XrefSections.RenderOk | src/ObjectsContext.cpp:198-206 | the table renders without failure iff every item renders |
| XrefSections.RenderAppend | src/ObjectsContext.cpp:156-242 | rendering a concatenation after a successful prefix appends the bytes of the rest |
| XrefSections.TableEntriesAreDirtyRecords | src/ObjectsContext.cpp:156-242 | the table holds an entry line for a record iff that record is dirty |
| XrefSections.TableFailsIffUnwrittenUsed | src/ObjectsContext.cpp:198-206 | the xref table fails iff some dirty used record was never written |
| XrefSections.StreamRecordsLength | src/ObjectsContext.cpp:677-723 | a successful xref stream holds 17 bytes per dirty record |
| XrefSections.StreamFailsIffUnwrittenUsed | src/ObjectsContext.cpp:694-701 | the xref stream fails iff some dirty used record was never written |
| ObjectsContextModel.ObjectsContext.constructor | src/ObjectsContext.cpp:41-47 | empty output, empty dictionary stack, compression on, a fresh registry |
| ObjectsContextModel.ObjectsContext.GetCurrentPosition | src/ObjectsContext.cpp:146-152 | the position is the number of bytes written |
| ObjectsContextModel.ObjectsContext.StartDictionary | src/ObjectsContext.cpp:244-250 | pushes a fresh handle, writes the opening bytes, and leaves the rest of the state unchanged |
| ObjectsContextModel.ObjectsContext.EndDictionary | src/ObjectsContext.cpp:252-271 | succeeds iff the handle is on top; only then pops it and writes the closing bytes; a mismatch or an empty stack leaves the stack as it was |
| ObjectsContextModel.ObjectsContext.StartNewIndirectObject | src/ObjectsContext.cpp:314-328 | allocates the next ID, marks it written at the old position, and writes `id 0 obj` |
| ObjectsContextModel.ObjectsContext.StartNewIndirectObjectWithID | src/ObjectsContext.cpp:330-341 | marks the given ID written at the old position (with the registry's failure conditions) and writes its header |
| ObjectsContextModel.ObjectsContext.StartModifiedIndirectObject | src/ObjectsContext.cpp:343-354 | marks the ID updated at the old position iff it exists and the position fits, and writes its header |
| ObjectsContextModel.ObjectsContext.EndIndirectObject | src/ObjectsContext.cpp:357-365 | writes `endobj` and logs the end of the object to the encryption hook |
| ObjectsContextModel.ObjectsContext.StartPDFStream | src/ObjectsContext.cpp:393-438 | in direct mode writes the opening with no new ID; otherwise allocates exactly one ID for /Length, refers to it, and closes the dictionary before `stream` |
| ObjectsContextModel.ObjectsContext.WriteLengthReference | src/ObjectsContext.cpp:413-425 | the /Length value is a reference to the one ID allocated |
| ObjectsContextModel.ObjectsContext.EndPDFStream | src/ObjectsContext.cpp:471-505 | direct mode writes /Length as an integer into the open dictionary, then the data; indirect mode writes the data and then a separate object holding the length |
| ObjectsContextModel.ObjectsContext.WriteIndirectExtentStreamEnd | src/ObjectsContext.cpp:471-505 | the extent object is marked written where it starts, after the stream end |
| ObjectsContextModel.ObjectsContext.WriteDirectExtentStreamEnd | src/ObjectsContext.cpp:471-505 | /Length is written into the dictionary, which is then closed |
| ObjectsContextModel.ObjectsContext.WritePDFStreamEndWithoutExtent | src/ObjectsContext.cpp:507-511 | writes end-of-line and `endstream` |
| ObjectsContextModel.ObjectsContext.WritePDFStreamExtent | src/ObjectsContext.cpp:513-518 | writes the length object and marks it written at its start |
| ObjectsContextModel.ObjectsContext.WriteXrefTable | src/ObjectsContext.cpp:156-242 | returns the position before `xref`, writes the table body, and succeeds iff the body renders |
| ObjectsContextModel.ObjectsContext.WriteXrefStream | src/ObjectsContext.cpp:617-734 | writes the /Index pairs of the dirty runs, /W [1 8 8], the record stream, and succeeds iff every dirty record renders; the encryption log gains the pause, and on success the release and object end |
| ObjectsContextModel.XrefTableBody | src/ObjectsContext.cpp:156-242 | the loop over subsections produces exactly the table body and its success flag |
| ObjectsContextModel.FindRunEnd | src/ObjectsContext.cpp:163-167 | the loop finds the end of the dirty run |
| ObjectsContextModel.SkipCleanRecords | src/ObjectsContext.cpp:233-238 | skips to the next dirty record and keeps the free-list cursor |
| ObjectsContextModel.AdvanceFreeCursor | src/ObjectsContext.cpp:211-222 | the search finds the next dirty free record after the cursor, or 0 |
| ObjectsContextModel.XrefSubsection | src/ObjectsContext.cpp:160-240 | one subsection: header then one line per record of the run |
| ObjectsContextModel.XrefRunEntries | src/ObjectsContext.cpp:182-232 | the lines of a run, stopping at the first failure |
| ObjectsContextModel.XrefEntryLine | src/ObjectsContext.cpp:184-231 | one entry line: used records give their offset and `n`, free ones the next free record and `f`; fails iff used and unwritten |
| ObjectsContextModel.XrefStreamIndex | src/ObjectsContext.cpp:626-650 | the /Index array lists first ID and count of each dirty run |
| ObjectsContextModel.WriteXrefRecord | src/ObjectsContext.cpp:677-723 | a record is a 1-byte type and two 8-byte fields |
| ObjectsContextModel.XrefStreamRecords | src/ObjectsContext.cpp:677-723 | the loop writes one record per dirty record and fails iff the records fail |
| ObjectsContextModel.XrefStreamEntry | src/ObjectsContext.cpp:677-723 | one record per dirty record; free records link to the next free one |
| ObjectsContextModel.StreamFailurePersists | src/ObjectsContext.cpp:694-701 | once a record fails, every longer prefix fails too |
| PdfObjects.PDFDictionary.constructor | src/objects/PDFDictionary.cpp:23-25 | a new dictionary is empty |
| PdfObjects.PDFDictionary.QueryDirectObject | src/objects/PDFDictionary.cpp:27-38 | returns a value iff the key is present, and then the stored value |
| PdfObjects.PDFDictionary.Exists | src/objects/PDFDictionary.cpp:46-50 | true iff the lookup finds a value |
| PdfObjects.PDFDictionary.Insert | src/objects/PDFDictionary.cpp:40-44 | an existing key keeps its value; a new key is added; afterwards the key exists with the first value |
| PdfLexical.IsNumberIff | src/parsing/PDFObjectParser.cpp:485-517 | a token is a number iff it starts with a sign, dot or digit, continues with dots and digits, has at most one dot and is not a lone sign |
| PdfLexical.NumberTailIff | src/parsing/PDFObjectParser.cpp:496-517 | the scanning loop accepts the tail iff every remaining byte is a dot or digit and the token has at most one dot |
| PdfLexical.IntegerTextRoundTrip | src/parsing/PDFObjectParser.cpp:521-528 | the decimal text of every integer is an integer token whose value is that integer |
| PdfLexical.HexValue | src/parsing/PDFObjectParser.cpp:652-666 | a value exactly for hexadecimal digits of either case |
| PdfLexical.HexBytes | src/parsing/PDFObjectParser.cpp:368-406 | the output has ceil(number of hex digits / 2) bytes |
| PdfLexical.DecodeHexString | src/parsing/PDFObjectParser.cpp:368-406 | the loop computes the hex-string bytes: non-hex bytes skipped, digit pairs packed high then low, an odd last digit padded with 0 |
| PdfLexical.HexTextRoundTrip | src/parsing/PDFObjectParser.cpp:368-406 | decoding the hex text of any bytes gives them back |
| PdfLexical.Escape | src/parsing/PDFObjectParser.cpp:263-320 | an escape consumes at least one byte after the backslash and stays inside the token |
| PdfLexical.ParseLiteralString | src/parsing/PDFObjectParser.cpp:245-329 | the loop computes the literal's bytes, escapes decoded; a token not ending with `)` gives no result |
| PdfLexical.ReadCharacter | src/parsing/PDFObjectParser.cpp:259-325 | one step of the loop yields one byte and moves forward |
| PdfLexical.ReadEscape | src/parsing/PDFObjectParser.cpp:263-320 | the escape handling computes the escaped byte and the next index |
| PdfLexical.EscapeLiteralRoundTrip | src/parsing/PDFObjectParser.cpp:245-329 | parsing an escaped literal string of any bytes gives the bytes back |
| PdfLexical.ParseName | src/parsing/PDFObjectParser.cpp:421-478 | decodes `#hh` escapes; a `#` not followed by two hex digits gives no result |
| PdfLexical.EscapeNameRoundTrip | src/parsing/PDFObjectParser.cpp:421-478 | parsing the escaped name of any bytes gives the bytes back |
| PdfParser.NextToken | src/parsing/PDFObjectParser.cpp:201-223 | a pushed-back token is served first; otherwise the next token that is not a comment; taking a token shrinks what remains, and no token means nothing remains |
| PdfParser.Saved | src/parsing/PDFObjectParser.cpp:577-580 | saving a token adds exactly one pending token |
| PdfParser.Returned | src/parsing/PDFObjectParser.cpp:582-585 | returning a token adds exactly one pending token |
| PdfParser.ParseObject | src/parsing/PDFObjectParser.cpp:91-199 | parsing never grows the remaining input and consumes something when input remains |
| PdfParser.ParseArrayItems | src/parsing/PDFObjectParser.cpp:537-575 | a successful array parse yields an array |
| PdfParser.ReferenceParses | src/parsing/PDFObjectParser.cpp:117-162 | `N G R` with N > 0 and G >= 0 parses to the reference (N, G) and consumes the three tokens |
| PdfParser.ReferenceBacktracksOnVersion | src/parsing/PDFObjectParser.cpp:128-143 | a second token that is not a non-negative integer is pushed back and N stands alone |
| PdfParser.ReferenceBacktracksOnKeyword | src/parsing/PDFObjectParser.cpp:145-155 | a third token other than `R` is pushed back after the second, in order, and N stands alone |
| PdfParser.ReferenceCutShort | src/parsing/PDFObjectParser.cpp:145-148 | when the input ends after the second token, N stands alone and that token is not pushed back |
| PdfParser.DictionaryKeepsFirst | src/parsing/PDFObjectParser.cpp:594-644 | entries already collected keep their values in the result: the first of duplicate keys wins |
| PdfParser.ArrayKeepsOrder | src/parsing/PDFObjectParser.cpp:537-575 | items already parsed stay in order at the front of the array |
| PdfParser.EmptyDictionaryStream | src/parsing/PDFObjectParser.cpp:171-195 | `<< >> stream` is a stream object whose data starts after the keyword |
| PdfParser.PDFObjectParser.constructor | src/parsing/PDFObjectParser.cpp:62-75 | a new parser reads the given tokens with an empty push-back buffer |
| PdfParser.PDFObjectParser.SetReadStream | src/parsing/PDFObjectParser.cpp:62-75 | resets the input and clears the push-back buffer |
| PdfParser.PDFObjectParser.SaveTokenToBuffer | src/parsing/PDFObjectParser.cpp:577-580 | the new state is the saved-token state |
| PdfParser.PDFObjectParser.ReturnTokenToBuffer | src/parsing/PDFObjectParser.cpp:582-585 | the new state is the returned-token state |
| PdfParser.PDFObjectParser.GetNextToken | src/parsing/PDFObjectParser.cpp:201-223 | result and new state are those of the token function |
| PdfParser.PDFObjectParser.ParseNewObject | src/parsing/PDFObjectParser.cpp:91-199 | result and new state are those of the object grammar |
| PdfParser.PDFObjectParser.ParseTokenObject | src/parsing/PDFObjectParser.cpp:96-199 | dispatch on the first token as the grammar does |
| PdfParser.PDFObjectParser.ParseReferenceTail | src/parsing/PDFObjectParser.cpp:117-162 | the reference look-ahead as the grammar does |
| PdfParser.PDFObjectParser.ParseArray | src/parsing/PDFObjectParser.cpp:537-575 | the array loop as the grammar does |
| PdfParser.PDFObjectParser.ParseDictionaryOrStream | src/parsing/PDFObjectParser.cpp:171-195 | a dictionary, or a stream when `stream` follows |
| PdfParser.PDFObjectParser.ParseDictionary | src/parsing/PDFObjectParser.cpp:594-644 | the dictionary loop as the grammar does |
| Unicode.Utf8Bytes | src/encoding/UnicodeString.cpp:127-166 | a code point is encodable iff it is at most 0x10FFFF |
| Unicode.EncodeUtf8SucceedsIff | src/encoding/UnicodeString.cpp:127-166 | encoding succeeds iff every code point is at most 0x10FFFF |
| Unicode.Utf8RoundTrip | src/encoding/UnicodeString.cpp:58-166 | decoding the UTF-8 of code points up to 0x10FFFF gives them back |
| Unicode.Utf8AcceptsOverlong | src/encoding/UnicodeString.cpp:58-125 | the decoder accepts the overlong form C0 80+c and reads it as c |
| Unicode.UnitsFor | src/encoding/UnicodeString.cpp:328-434 | with the single-unit test corrected, a code point has UTF-16 units iff it is a Unicode scalar value |
| Unicode.UnitsForAsWritten | src/encoding/UnicodeString.cpp:340-362 | with the source's strict bounds, a code point has units iff it is a scalar value other than 0xD7FF, 0xE000 and 0xFFFF |
| Unicode.EncodeUnitsSucceedsIff | src/encoding/UnicodeString.cpp:406-434 | the corrected unit encoder succeeds iff every code point is a scalar value |
| Unicode.EncodeUnitsAsWrittenSucceedsIff | src/encoding/UnicodeString.cpp:406-434 | `ToUTF16UShort` as written succeeds iff every code point is a scalar value other than 0xD7FF, 0xE000 and 0xFFFF |
| Unicode.EncodeUnitsAsWrittenAgrees | src/encoding/UnicodeString.cpp:406-434 | on text without those three values the source's encoder and the corrected one give the same flag and units |
| Unicode.UnitsAsWrittenRoundTrip | src/encoding/UnicodeString.cpp:292-434 | whenever `ToUTF16UShort` succeeds, `FromUTF16UShort` of its units gives the text back |
| Unicode.UnitsRoundTrip | src/encoding/UnicodeString.cpp:292-326 | decoding the units of any encodable text gives it back |
| Unicode.UnitsOfBytes | src/encoding/UnicodeString.cpp:191-290 | reading units from the bytes of units, in the same byte order, gives them back |
| Unicode.BomRoundTrip | src/encoding/UnicodeString.cpp:173-184 | a leading BOM selects its byte order and is skipped |
| Unicode.Utf16RoundTrip | src/encoding/UnicodeString.cpp:173-404 | `FromUTF16` of the corrected big- or little-endian encoding with a BOM gives the text back |
| Unicode.Utf16AsWrittenRoundTrip | src/encoding/UnicodeString.cpp:173-404 | whenever `ToUTF16BE`/`LE` with a BOM succeed, `FromUTF16` of their bytes gives the text back |
| Unicode.BomOnlyWhenAsked | src/encoding/UnicodeString.cpp:334-338 | the BOM is prepended exactly when asked for; success does not depend on it |
| Unicode.UnicodeString.constructor | src/encoding/UnicodeString.cpp:30-33 | the string holds the given code points |
| Unicode.UnicodeString.FromUTF8 | src/encoding/UnicodeString.cpp:58-125 | success flag and code points are those of the UTF-8 decoder |
| Unicode.UnicodeString.ReadUtf8Sequence | src/encoding/UnicodeString.cpp:66-120 | one lead byte and its continuation bytes give one code point |
| Unicode.UnicodeString.ToUTF8 | src/encoding/UnicodeString.cpp:127-166 | bytes and flag are those of the UTF-8 encoder |
| Unicode.UnicodeString.FromUTF16 | src/encoding/UnicodeString.cpp:173-184 | no BOM (or fewer than two bytes) fails and changes nothing; otherwise decodes the rest in the BOM's order |
| Unicode.UnicodeString.FromUTF16BE | src/encoding/UnicodeString.cpp:191-237 | big-endian decoding: odd length or an unpaired high surrogate fails |
| Unicode.UnicodeString.FromUTF16LE | src/encoding/UnicodeString.cpp:244-290 | little-endian decoding with the same rules |
| Unicode.UnicodeString.FromUTF16Bytes | src/encoding/UnicodeString.cpp:191-290 | the shared loop decodes exactly the unit sequence of the bytes |
| Unicode.UnicodeString.ReadUnits | src/encoding/UnicodeString.cpp:200-235 | one unit, or a surrogate pair, gives one code point |
| Unicode.UnicodeString.FromUTF16UShort | src/encoding/UnicodeString.cpp:292-326 | success flag and code points are those of the unit decoder |
| Unicode.UnicodeString.ToUTF16BE | src/encoding/UnicodeString.cpp:328-365 | bytes and flag are those of the big-endian encoder as written, which fails on 0xD7FF, 0xE000 and 0xFFFF |
| Unicode.UnicodeString.ToUTF16LE | src/encoding/UnicodeString.cpp:367-404 | bytes and flag are those of the little-endian encoder as written, which fails on 0xD7FF, 0xE000 and 0xFFFF |
| Unicode.UnicodeString.ToUTF16Bytes | src/encoding/UnicodeString.cpp:328-404 | the shared loop, with the source's strict single-unit test, produces the encoder's bytes |
| Unicode.UnicodeString.ToUTF16UShort | src/encoding/UnicodeString.cpp:406-434 | units and flag are those of the unit encoder as written, which fails on 0xD7FF, 0xE000 and 0xFFFF |
| WrittenFont.WithGlyphsAdds | src/AbstractWrittenFont.cpp:140-156 | every new map entry carries the encoder's character for its glyph, and every key is an old key or one of the glyphs |
| WrittenFont.WithGlyphListsAdds | src/AbstractWrittenFont.cpp:267-290 | adding lists keeps the old entries and covers every glyph of every list |
| WrittenFont.CoversGrows | src/AbstractWrittenFont.cpp:110-130 | a covered text stays covered, with the same encoding, in an extended map |
| WrittenFont.CidAddedCovers | src/AbstractWrittenFont.cpp:132-160 | adding to a CID representation covers every glyph and keeps earlier entries; an empty map is seeded with glyph 0; one character per glyph |
| WrittenFont.AllocatesOnce | src/AbstractWrittenFont.cpp:50-108 | an ID is taken only while the representation's ID is 0, and it is the registry's next ID; an existing CID (or non-zero ANSI) ID never changes; two-byte output always has a font object ID |
| WrittenFont.CidIsSticky | src/AbstractWrittenFont.cpp:50-108 | once a CID representation exists the ANSI one never changes and the CID map only grows; single-byte output then happens only for text the ANSI map already covers |
| WrittenFont.MultiByteMeansCovered | src/AbstractWrittenFont.cpp:50-108 | two-byte output means the CID map covers every glyph and the output is their CID characters |
| WrittenFont.CoveredChangesNothing | src/AbstractWrittenFont.cpp:54-73 | text covered by an existing representation changes no representation, allocates nothing and yields one character per glyph |
| WrittenFont.ListsOnePerString | src/AbstractWrittenFont.cpp:182-229 | two-byte output of the list form means the CID map covers every list, with one output list per input string |
| WrittenFont.AbstractWrittenFont.constructor | src/AbstractWrittenFont.cpp:37-42 | a new font has no representation |
| WrittenFont.AbstractWrittenFont.CanEncodeWithIncludedChars | src/AbstractWrittenFont.cpp:110-130 | true iff every glyph is in the map; then the output is the mapped characters in order, else untouched |
| WrittenFont.AbstractWrittenFont.CanEncodeListsWithIncludedChars | src/AbstractWrittenFont.cpp:231-257 | the same for a list of strings, stopping at the first missing glyph |
| WrittenFont.AbstractWrittenFont.InsertGlyphs | src/AbstractWrittenFont.cpp:140-156 | the loop adds each missing glyph with the encoder's character and returns the encoded text |
| WrittenFont.AbstractWrittenFont.AddToCIDRepresentation | src/AbstractWrittenFont.cpp:132-160 | the CID map and output follow the CID policy; the object ID is allocated only if still 0 |
| WrittenFont.AbstractWrittenFont.AddToCIDRepresentationLists | src/AbstractWrittenFont.cpp:259-294 | the same for a list of strings |
| WrittenFont.AbstractWrittenFont.InsertGlyphLists | src/AbstractWrittenFont.cpp:267-290 | the loop adds the glyphs of every list and returns the encoded lists |
| WrittenFont.AbstractWrittenFont.AddToANSIRepresentation | src/AbstractWrittenFont.cpp:77-100 | on success the ANSI map becomes the encoder's map; on failure nothing changes |
| WrittenFont.AbstractWrittenFont.AddToANSIRepresentationLists | src/AbstractWrittenFont.cpp:199-222 | the same for a list of strings |
| WrittenFont.AbstractWrittenFont.AppendGlyphs | src/AbstractWrittenFont.cpp:50-108 | new state and output follow the policy: covered CID, covered ANSI, ANSI when no CID exists, else CID |
| WrittenFont.AbstractWrittenFont.AppendGlyphLists | src/AbstractWrittenFont.cpp:182-229 | the same policy for a list of strings |
| TrueTypeTables.ReadWrittenBe32 | src/text/truetype/TrueTypeEmbeddedFontWriter.cpp:439-448 | a 32-bit field reads back as its value modulo 2^32 |
| TrueTypeTables.WrittenReadBe32 | src/text/truetype/TrueTypeEmbeddedFontWriter.cpp:450-466 | four bytes read as a word and written back are unchanged |
| TrueTypeTables.Round4 | src/text/truetype/TrueTypeEmbeddedFontWriter.cpp:450-466 | the length rounded up to a multiple of 4, less than 4 more |
| TrueTypeTables.Padding | src/text/truetype/TrueTypeEmbeddedFontWriter.cpp:684-708 | fewer than four zero bytes that align the end to 4 |
| TrueTypeTables.WordSumPatch | src/text/truetype/TrueTypeEmbeddedFontWriter.cpp:657-667 | overwriting one aligned word changes the word sum by the difference |
| TrueTypeTables.AdjustmentMakesMagic | src/text/truetype/TrueTypeEmbeddedFontWriter.cpp:657-667 | writing 0xB1B0AFBA minus the file checksum into a zero word makes the file sum to 0xB1B0AFBA |
| TrueTypeTables.TagBytes | src/text/truetype/TrueTypeEmbeddedFontWriter.cpp:388-400 | a tag is its characters then spaces, four bytes |
| TrueTypeTables.EntryPatched | src/text/truetype/TrueTypeEmbeddedFontWriter.cpp:439-448 | patching a directory entry keeps the file length |
| TrueTypeTables.EntryReadsBack | src/text/truetype/TrueTypeEmbeddedFontWriter.cpp:439-448 | the patched entry reads back checksum, offset and length |
| TrueTypeTables.TableWritten | src/text/truetype/TrueTypeEmbeddedFontWriter.cpp:684-708 | a table adds its padded length and keeps the file aligned |
| TrueTypeTables.TableLayout | src/text/truetype/TrueTypeEmbeddedFontWriter.cpp:684-708 | the content sits at the old end, earlier bytes are kept, and the entry holds its corrected checksum, offset and length |
| TrueTypeTables.HeadContent | src/text/truetype/TrueTypeEmbeddedFontWriter.cpp:402-437 | head is copied with checkSumAdjustment zeroed and indexToLocFormat set to 1 |
| TrueTypeTables.HeadWordZero | src/text/truetype/TrueTypeEmbeddedFontWriter.cpp:402-437 | the written head holds zero at offset 8 |
| TrueTypeTables.MaxpContent | src/text/truetype/TrueTypeEmbeddedFontWriter.cpp:538-566 | maxp is copied with numGlyphs replaced by the subset glyph count |
| TrueTypeTables.HmtxLayout | src/text/truetype/TrueTypeEmbeddedFontWriter.cpp:502-536 | the first k glyphs get width and bearing, the rest bearing only, where k is the smaller of numberOfHMetrics and the glyph count |
| TrueTypeTables.LocaContentAt | src/text/truetype/TrueTypeEmbeddedFontWriter.cpp:633-655 | each loca entry is written as a 32-bit word |
| TrueType.Log2Floor | src/text/truetype/TrueTypeEmbeddedFontWriter.cpp:324-339 | the largest power of 2 not above n |
| TrueType.Log2Unique | src/text/truetype/TrueTypeEmbeddedFontWriter.cpp:324-339 | that exponent is unique |
| TrueType.EntryAt | src/text/truetype/TrueTypeEmbeddedFontWriter.cpp:359-385 | entry i of the directory is the i-th tag, padded with spaces to four bytes, followed by twelve zero bytes |
| TrueType.DirectoryLayout | src/text/truetype/TrueTypeEmbeddedFontWriter.cpp:341-379 | numTables is the number of entries; searchRange, entrySelector and rangeShift follow the OpenType rules |
| TrueType.GlyphBytes | src/text/truetype/TrueTypeEmbeddedFontWriter.cpp:583-631 | a present glyph is copied with its loca length; an empty one contributes nothing |
| TrueType.LocaStartsAtZero | src/text/truetype/TrueTypeEmbeddedFontWriter.cpp:583-631 | the new loca starts at 0 |
| TrueType.LocaMonotone | src/text/truetype/TrueTypeEmbeddedFontWriter.cpp:583-631 | the new loca never decreases and stays within glyf |
| TrueType.LocaSpan | src/text/truetype/TrueTypeEmbeddedFontWriter.cpp:583-631 | each loca span is the glyph's length when kept, and empty otherwise |
| TrueType.GlyphKeepsItsBytes | src/text/truetype/TrueTypeEmbeddedFontWriter.cpp:583-631 | a kept glyph's loca span in the new glyf holds exactly its original bytes |
| TrueType.ReachClosed | src/text/truetype/TrueTypeEmbeddedFontWriter.cpp:296-322 | the components of a reached composite glyph are reached one level deeper |
| TrueType.TrueTypeEmbeddedFontWriter.GetSmallerPower2 | src/text/truetype/TrueTypeEmbeddedFontWriter.cpp:324-339 | for n >= 1 returns r with 2^r <= n < 2^(r+1) |
| TrueType.TrueTypeEmbeddedFontWriter.GetTag | src/text/truetype/TrueTypeEmbeddedFontWriter.cpp:388-400 | packs up to four characters big-endian, padding with spaces |
| TrueType.TrueTypeEmbeddedFontWriter.WriteEmptyTableEntry | src/text/truetype/TrueTypeEmbeddedFontWriter.cpp:381-386 | writes the tag and 12 zero bytes and records where the entry's fields start |
| TrueType.TrueTypeEmbeddedFontWriter.WriteOffsetTable | src/text/truetype/TrueTypeEmbeddedFontWriter.cpp:350-358 | writes the offset-table header for the table count |
| TrueType.TrueTypeEmbeddedFontWriter.WriteTrueTypeHeader | src/text/truetype/TrueTypeEmbeddedFontWriter.cpp:341-379 | writes the directory, with one placeholder entry per table written and numTables the corrected entry count |
| TrueType.TrueTypeEmbeddedFontWriter.GetCheckSum | src/text/truetype/TrueTypeEmbeddedFontWriter.cpp:450-466 | the corrected loop sums every big-endian word of the padded table |
| TrueType.TrueTypeEmbeddedFontWriter.GetCheckSumAsWritten | src/text/truetype/TrueTypeEmbeddedFontWriter.cpp:450-466 | the loop as the source bounds it |
| TrueType.TrueTypeEmbeddedFontWriter.WriteTableEntryData | src/text/truetype/TrueTypeEmbeddedFontWriter.cpp:439-448 | patches the entry with the table's (corrected) checksum, offset and length |
| TrueType.TrueTypeEmbeddedFontWriter.CreateTableCopy | src/text/truetype/TrueTypeEmbeddedFontWriter.cpp:684-708 | appends the table, padded, and fills its entry |
| TrueType.TrueTypeEmbeddedFontWriter.WriteHead | src/text/truetype/TrueTypeEmbeddedFontWriter.cpp:402-437 | writes the adjusted head table and records where checkSumAdjustment lies |
| TrueType.TrueTypeEmbeddedFontWriter.WriteHHea | src/text/truetype/TrueTypeEmbeddedFontWriter.cpp:468-500 | writes hhea with numberOfHMetrics limited to the subset glyph count |
| TrueType.TrueTypeEmbeddedFontWriter.WriteMaxp | src/text/truetype/TrueTypeEmbeddedFontWriter.cpp:538-566 | writes maxp with the subset glyph count |
| TrueType.TrueTypeEmbeddedFontWriter.WriteHMtx | src/text/truetype/TrueTypeEmbeddedFontWriter.cpp:502-536 | writes hmtx for the subset glyph count |
| TrueType.TrueTypeEmbeddedFontWriter.FillSkipped | src/text/truetype/TrueTypeEmbeddedFontWriter.cpp:603-606 | skipped glyphs repeat the previous loca value; other cells are unchanged |
| TrueType.TrueTypeEmbeddedFontWriter.WriteGlyf | src/text/truetype/TrueTypeEmbeddedFontWriter.cpp:583-631 | copies the glyphs up to the first out-of-range ID, fails iff one exists, and on success fills the new loca |
| TrueType.TrueTypeEmbeddedFontWriter.WriteLoca | src/text/truetype/TrueTypeEmbeddedFontWriter.cpp:633-655 | writes the long-format loca table |
| TrueType.TrueTypeEmbeddedFontWriter.CreateHeadTableCheckSumAdjustment | src/text/truetype/TrueTypeEmbeddedFontWriter.cpp:657-667 | with the corrected checksum, after the patch the whole file sums to 0xB1B0AFBA modulo 2^32 |
| TrueType.TrueTypeEmbeddedFontWriter.AddComponentGlyphs | src/text/truetype/TrueTypeEmbeddedFontWriter.cpp:296-322 | reports whether the glyph is composite and adds every transitive component |
| TrueType.TrueTypeEmbeddedFontWriter.AddDependentGlyphs | src/text/truetype/TrueTypeEmbeddedFontWriter.cpp:272-294 | with a composite glyph, the sorted duplicate-free union of the IDs and their components; otherwise the IDs unchanged |
| TrueType.TrueTypeEmbeddedFontWriter.SubsetStaysValid | src/text/truetype/TrueTypeEmbeddedFontWriter.cpp:272-294 | the closed list is non-empty, increasing and in range |
| TrueType.TrueTypeEmbeddedFontWriter.CreateTrueTypeSubset | src/text/truetype/TrueTypeEmbeddedFontWriter.cpp:97-270 | refuses to embed only when OS/2 exists and embedding is not allowed; otherwise, with the corrected checksum and table count, the file sums to 0xB1B0AFBA |
| CFF.OffsetSize | src/text/cff/CFFEmbeddedFontWriter.cpp:346-358 | the offset size is 1 to 4 |
| CFF.OffsetSizeFits | src/text/cff/CFFEmbeddedFontWriter.cpp:346-358 | the smallest size whose range holds the offset |
| CFF.OffsetIsBigEndian | src/text/cff/CFFEmbeddedFontWriter.cpp:360-419 | an offset field is the big-endian form of its value |
| CFF.IntegerOperandRoundTrip | src/text/cff/CFFEmbeddedFontWriter.cpp:458-462 | the shortest DICT integer reads back as its value |
| CFF.DictInteger5RoundTrip | src/text/cff/CFFEmbeddedFontWriter.cpp:916-945 | the 5-byte DICT integer reads back as its value |
| CFF.IndexHeader | src/text/cff/CFFEmbeddedFontWriter.cpp:360-419 | an INDEX starts with its count and an offset size of 1 to 4, and has the expected length |
| CFF.IndexOffsetAt | src/text/cff/CFFEmbeddedFontWriter.cpp:360-419 | the i-th offset field holds the i-th cumulative offset |
| CFF.IndexItemAt | src/text/cff/CFFEmbeddedFontWriter.cpp:360-419 | the bytes between two offsets are the i-th item |
| CFF.KeptTopItemsMembers | src/text/cff/CFFEmbeddedFontWriter.cpp:445-451 | the copied items are exactly the original ones without the keys rewritten later |
| CFF.KeptTopItemsOrdered | src/text/cff/CFFEmbeddedFontWriter.cpp:445-451 | copying keeps the key order |
| CFF.FSTypeText | src/text/cff/CFFEmbeddedFontWriter.cpp:452-464 | the FSType PostScript is added iff there is no embedded PostScript and OS/2 exists |
| CFF.TopDictSlots | src/text/cff/CFFEmbeddedFontWriter.cpp:466-505 | each placeholder is 5 (private 10) bytes followed by its operator |
| CFF.TopDictLayout | src/text/cff/CFFEmbeddedFontWriter.cpp:466-505 | the placeholders of the top dict lie apart and in order, so patching one does not touch another |
| CFF.StringIndexWritten | src/text/cff/CFFEmbeddedFontWriter.cpp:507-556 | with an added string, the bytes written are the INDEX of the old strings plus the new one |
| CFFTables.EncodingRoundTrip | src/text/cff/CFFEmbeddedFontWriter.cpp:568-641 | the format-0 encoding written reads back as the subset's codes and supplements |
| CFFTables.CharsetRoundTrip | src/text/cff/CFFEmbeddedFontWriter.cpp:643-668 | the format-0 charset written reads back as the SIDs (or CIDs) of the glyphs after 0 |
| CFFTables.Programs | src/text/cff/CFFEmbeddedFontWriter.cpp:670-721 | one flattened charstring per glyph, in order |
| CFFTables.FullIndexWritten | src/text/cff/CFFEmbeddedFontWriter.cpp:670-721 | count, offset size, offsets and data make a complete INDEX |
| CFFTables.RankMap | src/text/cff/CFFEmbeddedFontWriter.cpp:755-770 | each used font dict gets its place in increasing order |
| CFFTables.RanksDistinct | src/text/cff/CFFEmbeddedFontWriter.cpp:755-770 | distinct font dicts get distinct indexes |
| CFFTables.FDSelectWritten | src/text/cff/CFFEmbeddedFontWriter.cpp:867-914 | the bytes written are a format-3 FDSelect with its range count and sentinel |
| CFFTables.RangesSelect | src/text/cff/CFFEmbeddedFontWriter.cpp:867-914 | the ranges select, for each glyph, its font dict index, and their starts increase |
| CFFTables.RangesStart | src/text/cff/CFFEmbeddedFontWriter.cpp:867-914 | a range starts exactly where the font dict index changes |
| CFFTables.SelectsFontDict | src/text/cff/CFFEmbeddedFontWriter.cpp:755-914 | the selected index names the glyph's own font dict in the new FDArray |
| CFFTables.TopDictUpdated | src/text/cff/CFFEmbeddedFontWriter.cpp:916-945 | the patches fit and afterwards every placeholder holds its table's offset |
| CFFTables.TopDictOperatorsKept | src/text/cff/CFFEmbeddedFontWriter.cpp:916-945 | patching keeps the operators after the placeholders |
| CFFSubset.WithGlyphZero | src/text/cff/CFFEmbeddedFontWriter.cpp:150-152 | the list starts with glyph 0, and its members are exactly 0 and the requested glyphs |
| CFFSubset.SubsetGlyphsComplete | src/text/cff/CFFEmbeddedFontWriter.cpp:150-154 | the closed list starts with 0 and holds exactly 0, the requested glyphs and their dependencies |
| CFFSubset.ClosureIsSubsetGlyphs | src/text/cff/CFFEmbeddedFontWriter.cpp:259-287 | any list that meets the closure method's contract is that closed list |
| CFFSubset.FDOrderIs | src/text/cff/CFFEmbeddedFontWriter.cpp:755-770 | the font dict order is the increasing list of used font dicts |
| CFFSubset.PatchedReadBack | src/text/cff/CFFEmbeddedFontWriter.cpp:202-247 | in the patched font every top dict placeholder holds its table's offset, the operators are intact, each table sits at that offset, and the bytes after the top dict are kept |
| CFFSubset.SubsetReadBack | src/text/cff/CFFEmbeddedFontWriter.cpp:111-257 | the same read-back for the whole subset of a glyph list whose charstrings all flatten |
| CFFSubset.ClosureDiscarded | src/text/cff/CFFEmbeddedFontWriter.cpp:150-154 | for a font whose glyph 1 is an accented character built from glyph 2, the request [0, 1] closes to [0, 1, 2], yet the charstrings written are those of 0 and 1 only |
| CFFGlyphs.ReachClosed | src/text/cff/CFFEmbeddedFontWriter.cpp:289-309 | the dependencies of a reached glyph are reached one level deeper |
| CFFWriter.CFFEmbeddedFontWriter.WriteCFFHeader | src/text/cff/CFFEmbeddedFontWriter.cpp:311-326 | copies the header |
| CFFWriter.CFFEmbeddedFontWriter.WriteName | src/text/cff/CFFEmbeddedFontWriter.cpp:328-344 | writes a one-item INDEX with the subset font name |
| CFFWriter.CFFEmbeddedFontWriter.WriteTopDictSegment | src/text/cff/CFFEmbeddedFontWriter.cpp:430-505 | builds the top dict with the kept items, FSType and placeholders, and records the placeholder positions |
| CFFWriter.CFFEmbeddedFontWriter.WriteTopIndex | src/text/cff/CFFEmbeddedFontWriter.cpp:360-419 | writes the top dict as a one-item INDEX, with placeholders moved to file positions |
| CFFWriter.CFFEmbeddedFontWriter.WriteStringIndex | src/text/cff/CFFEmbeddedFontWriter.cpp:507-556 | copies the strings, or rewrites them with the FSType string added |
| CFFWriter.CFFEmbeddedFontWriter.WriteGlobalSubrsIndex | src/text/cff/CFFEmbeddedFontWriter.cpp:558-563 | writes an empty INDEX |
| CFFWriter.CFFEmbeddedFontWriter.AddComponentGlyphs | src/text/cff/CFFEmbeddedFontWriter.cpp:289-309 | fails iff a dependency cannot be computed; on success adds every transitive dependency |
| CFFWriter.CFFEmbeddedFontWriter.AddDependentGlyphs | src/text/cff/CFFEmbeddedFontWriter.cpp:259-287 | with a dependency, the sorted duplicate-free closure; otherwise the IDs unchanged; the first failure stops |
| CFFWriter.CFFEmbeddedFontWriter.WriteEncodings | src/text/cff/CFFEmbeddedFontWriter.cpp:568-641 | nothing for CID fonts and standard encodings; otherwise the format-0 encoding and its position |
| CFFWriter.CFFEmbeddedFontWriter.WriteCharsets | src/text/cff/CFFEmbeddedFontWriter.cpp:643-668 | writes the format-0 charset and records its position |
| CFFWriter.CFFEmbeddedFontWriter.DetermineFDArrayIndexes | src/text/cff/CFFEmbeddedFontWriter.cpp:755-770 | ranks exactly the used font dicts |
| CFFWriter.CFFEmbeddedFontWriter.WriteFDSelect | src/text/cff/CFFEmbeddedFontWriter.cpp:867-914 | writes the format-3 FDSelect of the glyphs' font dict indexes |
| CFFWriter.CFFEmbeddedFontWriter.WriteCharStrings | src/text/cff/CFFEmbeddedFontWriter.cpp:670-721 | succeeds iff every glyph flattens; then writes their INDEX, otherwise nothing |
| CFFWriter.CFFEmbeddedFontWriter.WritePrivateDictionary | src/text/cff/CFFEmbeddedFontWriter.cpp:724-727 | writes the private dict body and records its size and position |
| CFFWriter.CFFEmbeddedFontWriter.WritePrivateDictionaryBody | src/text/cff/CFFEmbeddedFontWriter.cpp:729-749 | copies every private DICT entry except Subrs, and returns the body's size and position (both 0 without a private DICT) |
| CFFWriter.CFFEmbeddedFontWriter.WriteFDArray | src/text/cff/CFFEmbeddedFontWriter.cpp:772-865 | writes the private bodies, then the FDArray INDEX pointing to them |
| CFFWriter.CFFEmbeddedFontWriter.UpdateIndexesAtTopDict | src/text/cff/CFFEmbeddedFontWriter.cpp:916-945 | writes each recorded table position into its placeholder |
| CFFWriter.CFFEmbeddedFontWriter.WriteSubset | src/text/cff/CFFEmbeddedFontWriter.cpp:160-247 | succeeds iff every glyph flattens, and then the output is the subset font |
| CFFWriter.CFFEmbeddedFontWriter.CreateCFFSubsetAsWritten | src/text/cff/CFFEmbeddedFontWriter.cpp:111-257 | the source's flow: the closure decides success, but the font written is that of the requested glyphs |
| CFFWriter.CFFEmbeddedFontWriter.CreateCFFSubset | src/text/cff/CFFEmbeddedFontWriter.cpp:111-257 | refuses only without permission; otherwise writes the subset of the closed glyph list |
| Streams.InputStreamSkipperStream.constructor | src/io/InputStreamSkipperStream.cpp:23-26 | no source, nothing read |
| Streams.InputStreamSkipperStream.Assigned | src/io/InputStreamSkipperStream.cpp:34-37 | the given source, nothing read |
| Streams.InputStreamSkipperStream.Assign | src/io/InputStreamSkipperStream.cpp:39-43 | sets the source and zeroes the count |
| Streams.InputStreamSkipperStream.Read | src/io/InputStreamSkipperStream.cpp:45-51 | forwards to the source and adds what it returned to the count |
| Streams.InputStreamSkipperStream.NotEnded | src/io/InputStreamSkipperStream.cpp:53-56 | false with no source, else the source's answer |
| Streams.InputStreamSkipperStream.SkipAmount | src/io/InputStreamSkipperStream.cpp:72-81 | a skip never consumes more than asked, and nothing without a source |
| Streams.InputStreamSkipperStream.SkipBy | src/io/InputStreamSkipperStream.cpp:72-81 | count and source advance together by the bytes actually available |
| Streams.InputStreamSkipperStream.SkipTo | src/io/InputStreamSkipperStream.cpp:63-69 | a position behind the count is a no-op; otherwise reads up to the position or the source's end |
| Streams.InputStreamSkipperStream.Reset | src/io/InputStreamSkipperStream.cpp:83-86 | zeroes the count and keeps the source |
| Streams.Clamp | src/io/InputBufferedStream.cpp:135-145 | a position is clamped into the source |
| Streams.InputBufferedStream.constructor | src/io/InputBufferedStream.cpp:35-43 | an empty buffer of the given size whose pending bytes are the source's |
| Streams.InputBufferedStream.Assign | src/io/InputBufferedStream.cpp:45-49 | sets the source and resets the index |
| Streams.InputBufferedStream.Read | src/io/InputBufferedStream.cpp:51-107 | returns the next pending bytes in order, never more than asked, none without a source |
| Streams.InputBufferedStream.NotEnded | src/io/InputBufferedStream.cpp:109-112 | true iff the source has bytes or unread buffered bytes remain |
| Streams.InputBufferedStream.Skip | src/io/InputBufferedStream.cpp:121-133 | within the buffer only the index moves; otherwise drains the buffer and skips on the source |
| Streams.InputBufferedStream.SetPosition | src/io/InputBufferedStream.cpp:135-139 | empties the buffer and moves the source |
| Streams.InputBufferedStream.SetPositionFromEnd | src/io/InputBufferedStream.cpp:141-145 | empties the buffer and moves the source from its end |
| Streams.InputBufferedStream.GetCurrentPosition | src/io/InputBufferedStream.cpp:152-157 | the source position less the unread buffered bytes: where the pending bytes start |
| PngPredictor.Average | src/io/InputPredictorPNGOptimumStream.cpp:118-122 | the floor of the mean of left and up, as RFC 2083 defines it |
| PngPredictor.Paeth | src/io/InputPredictorPNGOptimumStream.cpp:152-164 | returns one of the three neighbours, the nearest to left + up - upLeft, preferring left on ties |
| PngPredictor.ReconstructFiltered | src/io/InputPredictorPNGOptimumStream.cpp:104-132 | reconstructing a filtered row gives the row back |
| PngPredictor.FilterReconstructed | src/io/InputPredictorPNGOptimumStream.cpp:104-132 | filtering a reconstructed row gives the raw row back |
| PngPredictor.DecodedRowIsReconstruction | src/io/InputPredictorPNGOptimumStream.cpp:72-132 | decoding a row in place in the buffer with the RFC 2083 predictors computes its reconstruction |
| PngPredictor.DecodesFilteredRow | src/io/InputPredictorPNGOptimumStream.cpp:72-132 | the decoder inverts the PNG filter of every row |
| PngPredictor.InputPredictorPNGOptimumStream.constructor | src/io/InputPredictorPNGOptimumStream.cpp:31-38 | no source and empty buffers |
| PngPredictor.InputPredictorPNGOptimumStream.Assign | src/io/InputPredictorPNGOptimumStream.cpp:134-150 | bytes per pixel and row size from the parameters, both rows zeroed |
| PngPredictor.InputPredictorPNGOptimumStream.DecodeNextByte | src/io/InputPredictorPNGOptimumStream.cpp:104-132 | stores the byte decoded with the RFC 2083 predictor at the cursor and advances by one |
| PngPredictor.InputPredictorPNGOptimumStream.StartRow | src/io/InputPredictorPNGOptimumStream.cpp:72-89 | copies the row up, reads a new one, takes byte 0 as the filter, or reports the source exhausted |
| PngPredictor.InputPredictorPNGOptimumStream.Read | src/io/InputPredictorPNGOptimumStream.cpp:60-97 | never more than asked; the bytes delivered are the next bytes of the RFC 2083 decoding of the rows |
| PngPredictor.InputPredictorPNGOptimumStream.NotEnded | src/io/InputPredictorPNGOptimumStream.cpp:99-102 | true iff the source has bytes or the row has undelivered bytes |
| Rc4.Swapped | src/encryption/RC4.cpp:69-74 | exactly two cells are exchanged |
| Rc4.SwappedPermutes | src/encryption/RC4.cpp:69-74 | a swap keeps the multiset of cells |
| Rc4.KeySchedulePermutes | src/encryption/RC4.cpp:53-67 | the key schedule keeps a permutation of 0..255 |
| Rc4.Initial | src/encryption/RC4.cpp:53-67 | after the key schedule the state is a permutation with i = j = 0 |
| Rc4.Step | src/encryption/RC4.cpp:76-83 | one keystream step keeps i, j in range and the cells a permutation |
| Rc4.CryptIsXor | src/encryption/RC4.cpp:76-88 | encrypting a run of bytes is combining it, place by place, with the keystream from the same state |
| Rc4.CryptTwice | src/encryption/RC4.cpp:85-88 | applying the keystream twice from the same state restores the data |
| Rc4.SameKeyRestores | src/encryption/RC4.cpp:85-88 | two instances reset with the same key restore the original bytes |
| Rc4.RC4.FromKey | src/encryption/RC4.cpp:26-29 | the state is the key schedule of the key |
| Rc4.RC4.Swap | src/encryption/RC4.cpp:69-74 | the buffer becomes the swapped buffer |
| Rc4.RC4.Init | src/encryption/RC4.cpp:53-67 | the state becomes the key schedule of the key |
| Rc4.RC4.FillIdentity | src/encryption/RC4.cpp:55-59 | the buffer holds 0..255 |
| Rc4.RC4.ScheduleKey | src/encryption/RC4.cpp:60-66 | the loop computes the 256 key-schedule steps |
| Rc4.RC4.Reset | src/encryption/RC4.cpp:31-41 | the byte-list reset is the same key schedule |
| Rc4.RC4.ResetFromBuffer | src/encryption/RC4.cpp:48-51 | the pointer reset is the same key schedule |
| Rc4.RC4.GetNextEncodingByte | src/encryption/RC4.cpp:76-83 | new state and byte are one keystream step |
| Rc4.RC4.DecodeNextByte | src/encryption/RC4.cpp:85-88 | returns the byte XOR the next keystream byte |
| Unicode.BomOnlyInputReadsPastEnd | src/encoding/UnicodeString.cpp:191-237 | with length 0 the source's loop test (length - 1 in unsigned arithmetic) passes, where the corrected test stops |
| Unicode.UnitLoopAgreesOnNonEmpty | src/encoding/UnicodeString.cpp:191-290 | for non-empty input the corrected loop test equals the source's |
| Unicode.BomOnlyIsEmpty | src/encoding/UnicodeString.cpp:173-184 | a BOM alone decodes to the empty text |
| Unicode.SingleUnitAsWrittenRejectsScalars | src/encoding/UnicodeString.cpp:340-362 | the source's strict bounds reject 0xD7FF, 0xE000 and 0xFFFF, which are single units |
| Unicode.SingleUnitAgreesElsewhere | src/encoding/UnicodeString.cpp:340-362 | on every other code point the source's bounds and the corrected ones agree |
| TrueTypeTables.CheckSumAsWrittenStopsEarly | src/text/truetype/TrueTypeEmbeddedFontWriter.cpp:450-466 | for lengths over 4 the source's loop reads fewer words than the table holds |
| TrueTypeTables.CheckSumAsWrittenMissesSecondWord | src/text/truetype/TrueTypeEmbeddedFontWriter.cpp:450-466 | an 8-byte table ending in 1 sums to 0 as written, 1 when every word counts |
| TrueType.TableCountAsWrittenCountsOs2 | src/text/truetype/TrueTypeEmbeddedFontWriter.cpp:345-349 | the count as written equals the entries only when OS/2 exists, and is one more otherwise |
| PngPredictor.PaethAsWrittenReturnsDistance | src/io/InputPredictorPNGOptimumStream.cpp:152-164 | for (20, 10, 10) the source's predictor gives 0, the PNG predictor 20 |
| PngPredictor.AverageAsWrittenLosesCarry | src/io/InputPredictorPNGOptimumStream.cpp:118-122 | for an odd v below 128 the source's average of (v, v) is v - 1 |
| PngPredictor.SubAsWrittenAddsCellToItself | src/io/InputPredictorPNGOptimumStream.cpp:104-141 | with 0 bytes per pixel, type 1 as written doubles each raw cell: row 5, 3 gives 10, 6 where one-byte pixels give 5, 8 |
| PngPredictor.LeftCellAsWrittenOutsideBuffer | src/io/InputPredictorPNGOptimumStream.cpp:104-127 | with 3 bytes per pixel, filter 1 at the first byte reads before the buffer, and filters 3 and 4 take the previous byte as "left" |

## Left out

- Floating point: the real branch of `ParseNumber` and `WriteDouble`. Real numbers are kept as their token text.
- The tokenizer (`PDFParserTokenizer`) is not part of this model. Its output is an input sequence of lexemes.
- `PrimitiveWriter`, `DictionaryContext`, `CFFPrimitiveWriter` and the OpenType reader are not part of this model. The first two write the formats described above. For `CFFPrimitiveWriter`, cff.dfy fixes the formats of Adobe Technical Note #5176: Card16 and offsets of OffSize bytes are big-endian; DICT integers take the shortest of the 1-, 2-, 3- and 5-byte forms of its table 3, placeholders the 5-byte form; operators are one byte, or 12 and a second byte.
- Encryption and decryption helpers: only the order of their start, end, pause and release calls is kept, as an event log.
- `OutputFlateEncodeStream` (zlib) is not part of this model. A compressed stream writes `/Filter /FlateDecode`, and the data is treated as given.
- `WriteState`/`ReadState` of the registry, the objects context and the written fonts are not modelled: they are checkpoint file I/O.
- The AES streams, `Log`, `InputStringBufferStream` and the page, form and catalog glue are not modelled: they are foreign calls, clocks or file I/O.
- Font file opening, FreeType, and reading FSType from OS/2 are not modelled. Embedding permission is a boolean parameter.
- `CharStringType2Flattener` and `CalculateDependenciesForCharIndex` are not modelled. Their results are input tables: an optional charstring and optional dependency list per glyph.
- `EncodeCIDGlyph` and the ANSI encoder are virtual and have no body here. They are function parameters.
- `StartUnfilteredPDFStream` is not modelled separately. It is `StartPDFStream` with compression off.
- TrueType.TrueTypeEmbeddedFontWriter.AddComponentGlyphs: the component walk takes a fuel bound (number of glyphs + 1) because the source has no cycle guard. A font whose components form a cycle, which the source would walk forever, is cut off there.
- CFFWriter.CFFEmbeddedFontWriter.AddComponentGlyphs: the same fuel bound for charstring dependencies.
- TrueType.TrueTypeEmbeddedFontWriter.CreateTrueTypeSubset: its ensures states the checksum invariant and the embedding decision. The table-by-table contents are stated by the writers it calls, not repeated there.
- Streams.InputBufferedStream.GetCurrentPosition: the position is only tied to the pending bytes when the buffer is coherent with the source (no `Assign` in between), because `Assign` keeps the old buffer length.
- PdfParser.ParseObject: the contract states termination and consumption; what each token kind parses to is stated by the lemmas beside it and by the class methods, not by the function's own ensures.
- PngPredictor.InputPredictorPNGOptimumStream.Read: with a source whose length is not a whole number of rows, the last partial row is dropped (as the source does); the ensures describes the output for the complete rows only. A row whose filter type is above 4 makes the source hand back whatever the caller's buffer held; from there on the ensures states only the length bound and that bytes past `readBytes` are untouched.
- TrueType.TrueTypeEmbeddedFontWriter.CreateTrueTypeSubset: requires a non-empty, increasing glyph list of glyphs the font has. In the source an empty list makes `back()` undefined, an out-of-range glyph is read past the end of the hmtx table before the glyf range check, and a list without composites is never sorted, so the loca table can be sized too small.
- CFFWriter.CFFEmbeddedFontWriter.CreateCFFSubset: requires at most 65534 glyphs, at most 254 font dicts, glyph 0 only in first place and, for a CID font with a mapping, a mapping that covers every glyph. These are the limits of the Card16 counts and the one-byte FD index; the source's truncated writes beyond them are not modelled.
- CFFWriter.CFFEmbeddedFontWriter.CreateCFFSubsetAsWritten: the same requirements as `CreateCFFSubset`, for the same reason.
- CFFWriter.CFFEmbeddedFontWriter.WriteSubset: the same requirements as `CreateCFFSubset`, for the same reason.
- Streams.InputBufferedStream.NotEnded: requires a source stream, because the source dereferences it without a null check.
- PdfLexical.IntegerValue: integer tokens take unbounded values. The source boxes them into a `long long`, and its conversion is not part of this model, so what it does with digits beyond 64 bits is not modelled.
- PdfLexical.IntegerTextRoundTrip: holds for every integer of the model; in the source only values inside the `long long` range are represented.
- PdfParser.ParseDictEntries: a key that is not a name makes the parse fail. The source casts any key to a name unchecked (undefined behaviour), which the model does not follow.
- PdfParser.PDFObjectParser.ParseDictionary: the same failure for a key that is not a name.
- TrueType.TrueTypeInput.WellFormed: requires every component glyph of a composite to be below numGlyphs. The source has no such check and reads whatever the glyph data names; the model does not cover fonts that name missing components.
- Unicode.UnitsFor: describes the corrected single-unit test (the corrected half of the UTF-16 Findings row). The class encoders use the source's strict test, `UnitsForAsWritten`.
- Unicode.EncodeUnitsSucceedsIff: states success for the corrected encoder; the source's encoder also fails on 0xD7FF, 0xE000 and 0xFFFF, as `EncodeUnitsAsWrittenSucceedsIff` states.
- Unicode.Utf16RoundTrip: about the corrected encoder; `Utf16AsWrittenRoundTrip` states the round trip for the source's encoder, which holds whenever it succeeds.
- TrueTypeTables.CheckSum: sums every word of the padded table, the corrected checksum of the Findings. The source sums only the words its early loop bound reaches (`CheckSumAsWritten`).
- TrueTypeTables.TableWritten: the entry it patches carries the corrected checksum, not the one the source computes.
- TrueTypeTables.TableLayout: "the entry holds its checksum" is the corrected checksum; the source writes its truncated sum there.
- TrueType.TrueTypeEmbeddedFontWriter.WriteTrueTypeHeader: writes numTables as the number of entries. The source writes 9 plus the optional cvt, prep and fpgm, one more than the entries when the font has no OS/2 table (`TableCountAsWritten`).
- TrueType.TrueTypeEmbeddedFontWriter.GetCheckSum: the corrected sum over every word; the source's loop is `GetCheckSumAsWritten`, which the class does not call.
- TrueType.TrueTypeEmbeddedFontWriter.WriteTableEntryData: patches the corrected checksum, so the entry bytes differ from the source's for tables longer than 4 bytes.
- TrueType.TrueTypeEmbeddedFontWriter.CreateTableCopy: the copied table's entry carries the corrected checksum.
- TrueType.TrueTypeEmbeddedFontWriter.WriteHead: the table body is the source's; its entry carries the corrected checksum.
- TrueType.TrueTypeEmbeddedFontWriter.WriteHHea: the table body is the source's; its entry carries the corrected checksum.
- TrueType.TrueTypeEmbeddedFontWriter.WriteMaxp: the table body is the source's; its entry carries the corrected checksum.
- TrueType.TrueTypeEmbeddedFontWriter.WriteHMtx: the table body is the source's; its entry carries the corrected checksum.
- TrueType.TrueTypeEmbeddedFontWriter.WriteGlyf: the glyph copy and its failure rule are the source's; the entry carries the corrected checksum.
- TrueType.TrueTypeEmbeddedFontWriter.WriteLoca: the table body is the source's; its entry carries the corrected checksum.
- TrueType.TrueTypeEmbeddedFontWriter.CreateHeadTableCheckSumAdjustment: writes 0xB1B0AFBA minus the corrected sum of the file. The source subtracts its truncated sum, so its file does not in general sum to 0xB1B0AFBA.
- TrueType.TrueTypeEmbeddedFontWriter.CreateTrueTypeSubset: the output bytes are those of the corrected program (checksums, head adjustment and numTables); the source's bytes differ in those fields, as the two TrueType Findings rows show.
- PngPredictor.InputPredictorPNGOptimumStream.DecodeNextByte: decodes with the RFC 2083 predictors, taking "left" one pixel back and a pixel as at least one byte. The source differs in four ways: type 3 adds signed-char halves, type 4 returns the distance `pLeft`, types 3 and 4 take the cell just before the cursor as "left", and with fewer than 8 bits per pixel type 1 adds the raw cell to itself. Each is a Findings row with its own as-written member.
- PngPredictor.InputPredictorPNGOptimumStream.Read: the bytes it is specified to deliver are the RFC 2083 decoding, with the same four differences from the source as `DecodeNextByte`.
- PngPredictor.DecodedRowIsReconstruction: relates the RFC 2083 in-place decoding to the reconstruction; the source's decoding differs for types 3 and 4 and for pixels under one byte, as the PNG Findings rows show.

## Findings

| source | as written | input that shows it | evidently intended | confidence | as-written member | corrected member |
|---|---|---|---|---|---|---|
| src/encoding/UnicodeString.cpp:191-290 | the decoding loop runs while `i < inLength - 1` on an unsigned length, which wraps for length 0 | `FromUTF16` of the two bytes FE FF: the BE decoder gets length 0 and reads past the end | a BOM alone decodes to the empty text | not executed | Unicode.BomOnlyInputReadsPastEnd | Unicode.BomOnlyIsEmpty |
| src/encoding/UnicodeString.cpp:328-434 | a single unit is emitted only for `c < 0xD7FF` or `0xE000 < c < 0xFFFF`, so the encoders fail on three scalar values | the code points 0xD7FF, 0xE000 and 0xFFFF | every scalar value up to 0xFFFF outside D800..DFFF is one unit | not executed | Unicode.SingleUnitAsWrittenRejectsScalars | Unicode.UnitsRoundTrip |
| src/text/truetype/TrueTypeEmbeddedFontWriter.cpp:450-466 | the checksum loop ends at offset + (rounded length)/4 but steps by 4, so it sums only about a quarter of the words | an 8-byte table 00 00 00 00 00 00 00 01 sums to 0 | the sum of every big-endian word of the padded table | not executed | TrueTypeTables.CheckSumAsWrittenMissesSecondWord | TrueTypeTables.AdjustmentMakesMagic |
| src/text/truetype/TrueTypeEmbeddedFontWriter.cpp:345-349 | numTables is 9 plus the optional cvt, prep and fpgm, counting OS/2 even when no OS/2 entry is written | any font without an OS/2 table: numTables is one more than the entries | numTables equals the number of directory entries | not executed | TrueType.TableCountAsWrittenCountsOs2 | TrueType.DirectoryLayout |
| src/text/cff/CFFEmbeddedFontWriter.cpp:150-154 | the glyph list with glyph 0 and the dependencies is built, then the writers get the caller's original list | a font whose glyph 1 is a seac of glyph 2, subset [0, 1]: the closure is [0, 1, 2], but only the charstrings of 0 and 1 are written | the writers receive the closed list | not executed | CFFSubset.ClosureDiscarded | CFFWriter.CFFEmbeddedFontWriter.CreateCFFSubset |
| src/io/InputPredictorPNGOptimumStream.cpp:152-164 | `PaethPredictor` returns the distance `pLeft` instead of the left byte when left is nearest | left 20, up 10, upLeft 10: returns 0 instead of 20 | the Paeth predictor of RFC 2083 returns the nearest neighbour's value | not executed | PngPredictor.PaethAsWrittenReturnsDistance | PngPredictor.Paeth |
| src/io/InputPredictorPNGOptimumStream.cpp:118-122 | the average filter adds the halves of left and up as signed chars, losing the carry of two odd halves and misreading bytes above 127 | left = up = 1: predicts 0 instead of 1 | floor((left + up) / 2) on unsigned bytes | not executed | PngPredictor.AverageAsWrittenLosesCarry | PngPredictor.Average |
| src/io/InputPredictorPNGOptimumStream.cpp:104-127 | filters 3 and 4 take the byte just before the cursor as "left"; filter 1 reads bytesPerPixel back even at the first pixel | 3 bytes per pixel: filter 1 at the first byte reads index -2; filters 3 and 4 at byte 4 use byte 3 | "left" is the byte one pixel back, 0 for the first pixel | not executed | PngPredictor.LeftCellAsWrittenOutsideBuffer | PngPredictor.DecodesFilteredRow |
| src/io/InputPredictorPNGOptimumStream.cpp:104-141 | bytes per pixel is colors * bitsPerComponent / 8, which is 0 below 8 bits per pixel, so type 1 adds the raw cell to itself | one colour of 1 bit, a type-1 row with data 5, 3: decodes to 10, 6 | a pixel counts as at least one byte (section 6 of RFC 2083), giving 5, 8 | not executed | PngPredictor.SubAsWrittenAddsCellToItself | PngPredictor.DecodesFilteredRow |
