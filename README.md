# borb text, font and writer core in Dafny

This project models five pieces of borb, a PDF library:

- **Text chunks** (`TextChunk`, text_chunk.dfy): a chunk of text registers its font in the page's `Resources/Font` dictionary under `F1`, `F2`, ... It encodes its text as a text-showing operator, either an array of hexadecimal strings for `TJ` or an escaped literal string for `Tj` (sections 7.3.4.2, 7.3.4.3 and 9.4.3 of ISO 32000-1). It also computes the rectangle the laid-out text occupies.
- **The font dictionary transformer** (`FontDictionary`, font_dictionary.dfy): it recognises `Type = Font` dictionaries and picks one of six font classes from `Subtype` (sections 9.6 and 9.7 of ISO 32000-1). It then sets the new font's parent, attaches the listeners, and copies every entry but `Parent`, as converted by the root transformer, dropping Null conversions.
- **The location filter** (`Location`, location.dfy): an event listener that forwards text and image render events to its own listeners only when their origin lies strictly inside a rectangle. It forwards every other event unconditionally.
- **The dictionary writer** (`WriteDictionary`, write_dictionary.dfy): it skips an object whose reference was already written. Otherwise it replaces referenceable composite values by their references and queues them. It writes `<<key value ...>>`, inside `obj`/`endobj` when the object starts an indirect object (section 7.3.10 of ISO 32000-1), then writes the queued values.
- **TrueType font construction** (`TrueTypeFont`, true_type_font.dfy, and `ToUnicodeCmap`, to_unicode_cmap.dfy), covering:
  - the reverse cmap;
  - the glyph order restricted to glyphs the cmap reaches;
  - the switch to a Type0 font at 256 glyphs;
  - `FirstChar`, `LastChar`, `Widths` and the `Differences` array of a simple font (section 9.6.6.1 of ISO 32000-1);
  - the base font name;
  - the FontFile2 stream;
  - the ToUnicode CMap of a Type0 font, with its `bfchar` blocks of at most 100 mappings (section 9.10.3 of ISO 32000-1).

Supporting modules:

- `Wrappers`: `Option` and `Result`.
- `Format`: Python's `hex(n)[2:]`, `oct(n)[2:]` and `"%d" % n`, each with the reading that inverts it.
- `Dict`: a Python `dict` as an insertion-ordered list of entries.
- `Geometry`: rectangles with exact rational coordinates.

Collaborators the core only calls are parameters of the model:

- the font's character-identifier map;
- GlyphLine's width;
- the root transformer;
- `get_reference`;
- the glyph advance widths;
- fontTools' `toUnicode`;
- zlib.

Calls to the root transformer, to `_start_object` and `_end_object`, and to listeners are recorded as traces. A failed `assert`, a `KeyError` and an attribute access on `None` are modelled as error outcomes (`Option`/`Result`), not as preconditions.

Where borb's intended design and its code disagree, the model follows the code in the two cases below. The two defects under "## Findings" are handled differently. There the code as written is modelled by its own members and shown wrong. The rest of the model, including `BuildPairs`, `PairsSpec`, `FontFromFile` and `TrueTypeFontFromFile`, uses the corrected values; "## Left out" lists each member this concerns.

- **Unknown font subtype.** The intended design treats an unknown font subtype as non-fatal: the node yields no typed object. In the code, the listener loop and the key-copy loop then call methods on `None` (ptext/tranform/font/default_font_dictionary_transformer.py:57-66). So the model's `Transform` fails as soon as there is a listener, or an entry other than `Parent` that converts to non-Null. It returns no font only when neither happens.
- **Missing `Subtype`.** A dictionary without a `Subtype` entry raises at line 34 of that file. The model returns the `MissingSubtype` error instead of requiring the entry.

## Model

| member | source | states |
|---|---|---|
| TextChunk.ChunkOfText.GetFontResourceName | borb/pdf/canvas/layout/text/chunk_of_text.py:91-107 | creates `Resources` and then `Resources/Font` when absent; the returned name and the new table are what registration gives on the old table, an absent one read as empty; the content stream is untouched |
| TextChunk.RegisterSpec | borb/pdf/canvas/layout/text/chunk_of_text.py:99-107 | afterwards the table maps the returned name to the font and keys stay unique; when an equal font is present the name is the key of its first occurrence and the table is unchanged, otherwise the name is `F(n+1)` for n entries before the call; every other key keeps its value |
| TextChunk.NamesOfFirst | borb/pdf/canvas/layout/text/chunk_of_text.py:99-103 | the list of names bound to the font is empty exactly when no entry holds an equal font, and its head is the key of the first entry that does |
| TextChunk.RegisterIdempotent | borb/pdf/canvas/layout/text/chunk_of_text.py:99-103 | registering the same font twice returns the same name and leaves the table as the first call left it |
| TextChunk.RegisterCanonical | borb/pdf/canvas/layout/text/chunk_of_text.py:104-107 | on a table holding `F1`..`Fn` in order, a new font is appended as `F(n+1)` and the table keeps that form |
| TextChunk.RegisterTwoFonts | borb/pdf/canvas/layout/text/chunk_of_text.py:104-107 | two distinct fonts registered on a fresh page get `F1` and then `F2` |
| TextChunk.ChunkOfText.WriteTextBytes | borb/pdf/canvas/layout/text/chunk_of_text.py:109-118 | the loop with its early exit returns the hex operator when some character's identifier differs from its code point, else the literal operator |
| TextChunk.ModeSelection | borb/pdf/canvas/layout/text/chunk_of_text.py:110-118 | hex mode is chosen exactly when some identifier differs from its code point, a missing one included; in literal mode every character's identifier is its own code point |
| TextChunk.ChunkOfText.WriteTextBytesInHex | borb/pdf/canvas/layout/text/chunk_of_text.py:120-132 | `[` + one `<hh>` group per character in order + `] TJ`, or the failed assertion (None) when some character has no identifier |
| TextChunk.EvenHexSpec | borb/pdf/canvas/layout/text/chunk_of_text.py:128-130 | each group has an even number, at least two, of hex digits and reads back as the identifier |
| TextChunk.HexGroupsRoundTrip | borb/pdf/canvas/layout/text/chunk_of_text.py:120-132 | reading the concatenated `<hh>` groups back yields the identifier sequence they were written from |
| TextChunk.ChunkOfText.WriteTextBytesInAscii | borb/pdf/canvas/layout/text/chunk_of_text.py:134-159 | `(` + the escape of each character in input order + `) Tj` |
| TextChunk.EscapeControl | borb/pdf/canvas/layout/text/chunk_of_text.py:152-155 | a control character without a named escape becomes a backslash and exactly three octal digits whose value is its code point |
| TextChunk.EscapePlain | borb/pdf/canvas/layout/text/chunk_of_text.py:156-157 | every character at or above 32 other than `(`, `)`, `\` is copied unchanged |
| TextChunk.UnescapeEscaped | borb/pdf/canvas/layout/text/chunk_of_text.py:134-159 | a reader that unescapes a literal string per Table 3 of ISO 32000-1 recovers exactly the original text |
| TextChunk.CharacterIdentifiers | borb/pdf/canvas/layout/text/chunk_of_text.py:188-190 | one identifier per character of the text |
| TextChunk.HexOperatorDecodes | borb/pdf/canvas/layout/text/chunk_of_text.py:120-132 | a `[<..><..>] TJ` operator reads back as exactly the identifiers it was written from |
| TextChunk.LiteralOperatorDecodes | borb/pdf/canvas/layout/text/chunk_of_text.py:134-159 | a `(..) Tj` operator reads back as exactly the code points of the text |
| TextChunk.LiteralIdentifiers | borb/pdf/canvas/layout/text/chunk_of_text.py:109-118 | when literal mode is chosen, the identifier sequence is the sequence of code points |
| TextChunk.ShowTextDecodesToMeasuredIdentifiers | borb/pdf/canvas/layout/text/chunk_of_text.py:109-132 | encoding fails exactly in hex mode with an unrepresentable character; otherwise the identifiers the operator selects, read back, are the sequence the layout measures |
| TextChunk.ChunkOfText.DoLayoutWithoutPadding | borb/pdf/canvas/layout/text/chunk_of_text.py:161-204 | the font is registered; on success exactly one fragment (resource name, size, origin, operator) is appended and the stored bounding box is the returned rectangle; on a failed encoding nothing is appended |
| TextChunk.LayoutRectangleTopAligned | borb/pdf/canvas/layout/text/chunk_of_text.py:191-198 | the rectangle starts at the box's x, its top is the box's top, and its height is the font size |
| FontDictionary.CanBeTransformedIff | ptext/tranform/font/default_font_dictionary_transformer.py:18-23 | a dictionary is accepted exactly when it has an entry `Type` whose value is the name `Font` |
| FontDictionary.KindOfSubtypeName | ptext/tranform/font/default_font_dictionary_transformer.py:37-48 | each of the six classes is selected by exactly its own `Subtype` name |
| FontDictionary.FirstNonNull | ptext/tranform/font/default_font_dictionary_transformer.py:61-66 | the index of the first child entry whose conversion is not Null: all before it convert to Null |
| FontDictionary.Font.constructor | ptext/tranform/font/default_font_dictionary_transformer.py:36-48 | a new font of the chosen class has no parent, no listeners and no attributes |
| FontDictionary.Font.SetParent | ptext/tranform/font/default_font_dictionary_transformer.py:53-54 | sets the parent and nothing else |
| FontDictionary.Font.AddEventListener | ptext/tranform/font/default_font_dictionary_transformer.py:57-58 | appends one listener and nothing else |
| FontDictionary.Font.Set | ptext/tranform/font/default_font_dictionary_transformer.py:65-66 | stores one attribute under its name and nothing else |
| FontDictionary.Transform | ptext/tranform/font/default_font_dictionary_transformer.py:25-69 | a missing or non-name `Subtype` fails before any conversion. A known subtype gives a fresh font of that class with the caller's parent and listeners in place before the first child is converted; each child is converted with the font as parent and no listeners; the attributes are the non-Null conversions of the entries other than `Parent`. An unknown subtype fails at the first listener or non-Null child, else returns None |
| FontDictionary.ConvertForNone | ptext/tranform/font/default_font_dictionary_transformer.py:61-66 | with the font None, the key loop converts children up to and including the first non-Null one and then raises |
| FontDictionary.CopiedAttributesSpec | ptext/tranform/font/default_font_dictionary_transformer.py:61-66 | the copied attributes have unique keys and no `Parent`; every other entry is present with its converted value exactly when that value is not Null |
| FontDictionary.CopiedKeysAreEarlierKeys | ptext/tranform/font/default_font_dictionary_transformer.py:61-66 | every copied key is a key of the input other than `Parent` |
| Location.LocationFilter.constructor | borb/toolkit/location/location_filter.py:22-24 | the filter holds the given rectangle and no listeners |
| Location.LocationFilter.AddListener | borb/toolkit/location/location_filter.py:26-31 | appends the listener at the end and returns the same filter |
| Location.LocationFilter.EventOccurred | borb/toolkit/location/location_filter.py:33-60 | fails exactly on a text event without a bounding box; otherwise the deliveries appended are those the filter forwards; the rectangle and listeners never change |
| Location.LocationFilter.NotifyAll | borb/toolkit/location/location_filter.py:59-60 | each listener receives the event once, in insertion order |
| Location.BroadcastEachOnceInOrder | borb/toolkit/location/location_filter.py:43-44 | the i-th delivery goes to the i-th listener, one per listener |
| Location.TextEventForwardedIff | borb/toolkit/location/location_filter.py:36-45 | a text event reaches every listener when its box origin is strictly inside the rectangle, and no listener otherwise |
| Location.EdgeIsOutside | borb/toolkit/location/location_filter.py:38-42 | an origin on any edge of the rectangle is not forwarded |
| Location.EmptyRectangleAdmitsNoPlacedEvent | borb/toolkit/location/location_filter.py:33-56 | a rectangle without positive width or height forwards no text or image event |
| Location.ImageEventForwardedIff | borb/toolkit/location/location_filter.py:48-56 | an image event is forwarded exactly when its position is strictly inside the rectangle |
| Location.OtherEventsPassThrough | borb/toolkit/location/location_filter.py:58-60 | any other event reaches every listener whatever the rectangle |
| Location.ChainedFilterDemo | borb/toolkit/location/location_filter.py:26-31 | chained `add_listener` calls build one filter whose listeners receive an inside event in the order added, and an edge event not at all |
| WriteDictionary.Transform | borb/io/write/object/write_dictionary_transformer.py:33-105 | the result, the tokens written and the resolved references are exactly those of the `Write` specification: the non-dictionary and missing-object-number failures, the skip of an already written reference, or the full output |
| WriteDictionary.CollectEntries | borb/io/write/object/write_dictionary_transformer.py:59-75 | the loop builds `out_value` and the queue given by their specifications |
| WriteDictionary.OutValueSpec | borb/io/write/object/write_dictionary_transformer.py:60-75 | `out_value` has the input's keys in their order; each maps to the reference of a referenceable composite value and to the input value otherwise |
| WriteDictionary.QueueSpec | borb/io/write/object/write_dictionary_transformer.py:63-75 | the queue holds exactly the referenceable values of the input, in key order (a subsequence of the values), each as often as entries hold it, and has at most one value per entry |
| WriteDictionary.RefusesExactlyWhatCannotBeTransformed | borb/io/write/object/write_dictionary_transformer.py:27-41 | `transform` fails with the not-a-dictionary error exactly when `can_be_transformed` is false, that is for a list, image, element or atomic value; it then writes nothing and resolves nothing |
| WriteDictionary.WriteDictionaryAt | borb/io/write/object/write_dictionary_transformer.py:86-95 | writes `<<`, the pairs separated by one space, and `>>` with a newline; the resolved references are untouched |
| WriteDictionary.ParsePairsTokens | borb/io/write/object/write_dictionary_transformer.py:88-94 | the pair tokens read back as the pairs, and are empty only for no pairs |
| WriteDictionary.DictionaryRoundTrip | borb/io/write/object/write_dictionary_transformer.py:86-95 | the written dictionary reads back as `out_value`, keys and values in order |
| WriteDictionary.WriteQueued | borb/io/write/object/write_dictionary_transformer.py:101-102 | hands each queued value to the root transformer, in order |
| WriteDictionary.SecondWriteIsSkipped | borb/io/write/object/write_dictionary_transformer.py:48-84 | after a write of an object with a reference, that reference is resolved and writing the object again writes nothing and returns None |
| WriteDictionary.WrittenDictionary | borb/io/write/object/write_dictionary_transformer.py:77-102 | the output is the dictionary tokens, between an object start and end exactly when the reference has no byte offset, followed by the queued values; it reads back as the result |
| ToUnicodeCmap.PadHex | borb/pdf/canvas/font/simple_font/true_type_font.py:227-231 | the padding loop prepends zeros up to four characters and keeps longer strings unchanged |
| ToUnicodeCmap.PaddedHex | borb/pdf/canvas/font/simple_font/true_type_font.py:229-231 | a padded glyph index is hex digits that read back as the index, and exactly four of them below 0x10000 |
| ToUnicodeCmap.UnicodeHexRoundTrip | borb/pdf/canvas/font/simple_font/true_type_font.py:222-228 | the corrected destination is groups of four hex digits that decode, as UTF-16BE, to the glyph's Unicode string |
| ToUnicodeCmap.AsWrittenAgreesOnOneBmpCharacter | borb/pdf/canvas/font/simple_font/true_type_font.py:223-228 | for one character below 0x10000 the destination as written equals the corrected one |
| ToUnicodeCmap.LigatureMisread | borb/pdf/canvas/font/simple_font/true_type_font.py:225-228 | as written, "fi" is mapped to `<6669>`, which decodes as U+6669 and not "fi"; the corrected `<00660069>` decodes as "fi" |
| ToUnicodeCmap.BuildPairs | borb/pdf/canvas/font/simple_font/true_type_font.py:217-232 | the loop over the glyph order yields the pair specification: glyphs with an empty Unicode string skipped, index and destination padded |
| ToUnicodeCmap.MappedGlyphsSpec | borb/pdf/canvas/font/simple_font/true_type_font.py:218-221 | the mapped glyphs are exactly those with a non-empty Unicode string, in increasing index order |
| ToUnicodeCmap.PairsSpec | borb/pdf/canvas/font/simple_font/true_type_font.py:217-232 | one mapping per mapped glyph in order; its code reads back as the glyph index, four digits when there are at most 0x10000 glyphs, and its destination decodes to the glyph's Unicode string |
| ToUnicodeCmap.BuildBlocks | borb/pdf/canvas/font/simple_font/true_type_font.py:234-242 | the block loop yields the blocks of the consecutive chunks of 100 mappings |
| ToUnicodeCmap.AppendBlock | borb/pdf/canvas/font/simple_font/true_type_font.py:238-242 | appends one block: its entry count and `beginbfchar`, one line per mapping, `endbfchar` |
| ToUnicodeCmap.ChunksSpec | borb/pdf/canvas/font/simple_font/true_type_font.py:235-238 | the blocks hold all mappings in order, each block 1 to 100 of them, every block but the last exactly 100, (n+99)/100 blocks for n mappings |
| TrueTypeFont.BuildReverseCmap | borb/pdf/canvas/font/simple_font/true_type_font.py:60-65 | the reverse cmap's keys are the glyphs the cmap reaches, each mapped to the smallest code point reaching it |
| TrueTypeFont.FilterGlyphOrderSpec | borb/pdf/canvas/font/simple_font/true_type_font.py:66-68 | the filtered glyph order holds exactly the glyphs of the font's order that the cmap reaches, as a subsequence in the original order, each as often as the order lists it |
| TrueTypeFont.BuildWidths | borb/pdf/canvas/font/simple_font/true_type_font.py:89-93 | one width per glyph, the i-th being glyph i's advance |
| TrueTypeFont.BuildDifferences | borb/pdf/canvas/font/simple_font/true_type_font.py:103-106 | the loop yields the code-then-name sequence starting at code 0 |
| TrueTypeFont.DifferencesLayout | borb/pdf/canvas/font/simple_font/true_type_font.py:103-106 | the array has 2n items: the code i at position 2i and glyph i's name at 2i+1 |
| TrueTypeFont.DifferencesEncodeGlyphs | borb/pdf/canvas/font/simple_font/true_type_font.py:101-106 | a reader applying the array assigns exactly the codes 0 to n-1, code i to glyph i |
| TrueTypeFont.PostScriptNameRecordSpec | borb/pdf/canvas/font/simple_font/true_type_font.py:182-187 | the record used is the first with platform 3, encoding 1, name 6; there is none exactly when no record matches |
| TrueTypeFont.FilterNameMembers | borb/pdf/canvas/font/simple_font/true_type_font.py:190-192 | the base font name holds exactly the ASCII letters and hyphens of the decoded name, in their order and each as often as the name holds it |
| TrueTypeFont.FilterNameIdempotent | borb/pdf/canvas/font/simple_font/true_type_font.py:190-192 | filtering the base font name again changes nothing |
| TrueTypeFont.BaseFontOfUtf16Name | borb/pdf/canvas/font/simple_font/true_type_font.py:181-192 | for a UTF-16BE record of Latin-1 characters, decoding it as latin1 and filtering gives the filtered name itself |
| TrueTypeFont.FontFileStream | borb/pdf/canvas/font/simple_font/true_type_font.py:116-126 | the stream has exactly the keys `Type`, `Subtype`, `Length`, `Length1`, `Filter`, `DecodedBytes`, `Bytes`, in that order; `Type` is Font and `Subtype` TrueType; `Length` and `Length1` are the font file's length, `DecodedBytes` is the file, `Bytes` its compression, `Filter` is FlateDecode |
| TrueTypeFont.FontFileStreamAssignments | borb/pdf/canvas/font/simple_font/true_type_font.py:116-126 | the seven assignments on a fresh Stream, each to a new key, append in order and build exactly the font file stream |
| TrueTypeFont.ToUnicodeStream | borb/pdf/canvas/font/simple_font/true_type_font.py:244-257 | the stream has unique keys; its decoded text is the fixed prefix, the blocks and the fixed suffix, `Length` is that text's length and `Filter` is FlateDecode |
| TrueTypeFont.BuildCustomCmap | borb/pdf/canvas/font/simple_font/true_type_font.py:195-257 | the ToUnicode stream is built from the blocks of the pairs of the whole glyph order |
| TrueTypeFont.TrueTypeFontFromFile | borb/pdf/canvas/font/simple_font/true_type_font.py:39-114 | after reading the file, the font built (or the empty-file, missing-cmap, missing-name or missing (3,1) subtable failure) is the one the font specification gives |
| TrueTypeFont.Type0Switch | borb/pdf/canvas/font/simple_font/true_type_font.py:70-79 | the Type0 path is taken exactly when the cmap reaches 256 glyphs or more |
| TrueTypeFont.SimpleFontSpec | borb/pdf/canvas/font/simple_font/true_type_font.py:78-111 | `FirstChar` is 0 and `LastChar` below 256, and below `FirstChar` exactly when the cmap reaches no glyph; `Widths` has `LastChar - FirstChar + 1` entries; the Differences assign exactly those codes to glyphs the cmap reaches, each with its glyph's width; the glyphs are a subsequence of the font's order; the font file's `Length1` is its length |
| TrueTypeFont.LastCharOverstated | borb/pdf/canvas/font/simple_font/true_type_font.py:87-93 | as written, `LastChar` is the glyph count, so `Widths` is one entry short of `LastChar - FirstChar + 1` |
| TrueTypeFont.Type0FontSpec | borb/pdf/canvas/font/simple_font/true_type_font.py:260-281 | the Type0 font has encoding Identity-H, a ToUnicode stream whose text is the prefix, the blocks and the suffix with its length, and a descendant whose base font and descriptor font name are the base font and whose font file reports its length; the font has a (3,1) cmap subtable |
| TrueTypeFont.Type0Failures | borb/pdf/canvas/font/simple_font/true_type_font.py:259-284 | with 256 glyphs or more, the font fails exactly when there is no PostScript name or no (3,1) cmap subtable, the latter failing with its own error |
| Format.FromBaseToBase | borb/pdf/canvas/layout/text/chunk_of_text.py:128 | `hex(n)[2:]`, `oct(n)[2:]` and `"%d" % n` read back as n |
| Format.ToBaseDigits | borb/pdf/canvas/layout/text/chunk_of_text.py:128 | the digits written are non-empty, digits of the base, without a leading zero unless the number is 0 |
| Format.OctalLength | borb/pdf/canvas/layout/text/chunk_of_text.py:152-155 | `oct` writes one digit below 8 and two digits from 8 to 63 |
| Format.DecimalInjective | borb/pdf/canvas/layout/text/chunk_of_text.py:105-107 | distinct numbers give distinct `F%d` names |
| Format.HexLength | borb/pdf/canvas/font/simple_font/true_type_font.py:229-231 | a number below 0x10000 has at most four hex digits, so the padded index is exactly four |

## Left out

- Fonts are modelled by their name and character-identifier map. `StandardType1Font` construction from a name is not part of this model.
- Colour handling (`to_rgb`, division by 255) is left out, and so is the `%f` formatting of the content fragment. A fragment records the resource name, font size, origin and operator instead.
- GlyphLine's `get_width_in_text_space` is a function parameter. Padding, margins and borders belong to `LayoutElement` and are not part of this model.
- `Decimal` coordinates and sizes are exact reals. Decimal's 28-digit rounding is not modelled.
- Font equality `v == font` is structural equality of the modelled font.
- TextChunk.Register: the name `F(n+1)` can already be a key when the table was not built by registration alone (for example `F1`, `F3`). The put then replaces that entry, as the source does. `RegisterCanonical` states the property on tables built by registration.
- The concrete font classes, the root transformer's `transform` and the listener implementations are not part of this model. The root transformer is a function parameter, and listeners, parents and events are identities. The `print` of an unsupported subtype is left out.
- `get_reference` is a function parameter, and references compare structurally. Allocating object numbers belongs to the write base class, which is not part of this model.
- `_start_object` and `_end_object` are recorded as tokens. The byte offset they set is not modelled, so the skip test relies on the reference being recorded as resolved.
- Writer output is a token sequence. The latin1 byte encoding is not modelled, nor is writing a key or value by the root transformer.
- WriteDictionary.Transform: the assertions that the context and its destination exist are not modelled. The context is always present.
- TrueTypeFont: reading the file, `.ttf` and path checks, and fontTools (`TTFont`, `getBestCmap`, `getGlyphSet`, `BoundsPen`, `toUnicode`) are not modelled. Their results are inputs: the file bytes, the best cmap as (code point, glyph name) items, the glyph order, the `name` records, whether the `cmap` table has a (3,1) subtable, the advance widths and the Unicode strings.
- zlib compression is a function parameter. The latin1 encoding of the CMap text is left out, so `Length` counts characters.
- ToUnicodeCmap.BuildPairs: computes the corrected destination, the UTF-16BE code units of the Unicode string in four hex digits each (`UnicodeHex`). borb/pdf/canvas/font/simple_font/true_type_font.py:223-228 instead writes the unpadded concatenation for two characters, `0000` for three or more, and five or six digits for one character outside the Basic Multilingual Plane; `UnicodeHexAsWritten` models that code and `LigatureMisread` shows the misreading.
- ToUnicodeCmap.PairsSpec: its claim that each destination decodes to the glyph's Unicode string holds for the corrected destination, not for the one borb/pdf/canvas/font/simple_font/true_type_font.py:223-228 writes.
- TrueTypeFont.BuildCustomCmap: its stream carries the corrected destinations of `BuildPairs`.
- TrueTypeFont.TrueTypeFontFromFile: builds the corrected `LastChar`, the glyph count minus one, where borb/pdf/canvas/font/simple_font/true_type_font.py:88 writes the glyph count; its Type0 ToUnicode stream carries the corrected destinations. The same holds for `FontFromFile` and `Type0FontSpec`.
- TrueTypeFont.SimpleFontSpec: states the corrected `LastChar`, the glyph count minus one, not the glyph count that borb/pdf/canvas/font/simple_font/true_type_font.py:88 writes (see `LastCharOverstated`). With no glyph reached by the cmap the corrected `LastChar` is -1, an empty range, where the code writes 0.
- TrueTypeFont.SimpleFontSpec: widths are the given advances. The division by `unitsPerEm`, the scaling to 1000 and `round(w, 2)` are not modelled.
- The font descriptor records only `FontName` and `FontFile2`. The constant entries (`FontStretch`, `FontWeight`, `Flags`, `StemV`) are not modelled. Neither are the FontBBox, CapHeight, ItalicAngle, Ascent and Descent computations, which use floating point and fontTools bounds.
- The Type0 descendant's `W` array and `DW` are not modelled. The glyph lookups that build them sit inside a bare `except`. The one step outside it, fetching the (3,1) cmap subtable (borb/pdf/canvas/font/simple_font/true_type_font.py:284), is modelled: without that subtable the font fails with `NoWindowsUnicodeCmap`.
- `__init__`, `_empty_copy` and `__deepcopy__` of `TrueTypeFont` are not modelled.
- borb/pdf/canvas/geometry/line_segment.py is not part of this model. Its length uses floating-point `sqrt`, and its transform calls a matrix type not shown.

## Findings

| source | as written | input that shows it | evidently intended | confidence | as-written member | corrected member |
|---|---|---|---|---|---|---|
| borb/pdf/canvas/font/simple_font/true_type_font.py:222-228 | Two problems in the ToUnicode destination. A two-character Unicode string becomes the concatenation of the unpadded hex of each character. A string of three or more characters becomes `0000`. | the ligature glyph `f_i` with Unicode string "fi" is mapped to `<6669>`, which a reader decodes as U+6669 | the UTF-16BE code units of the string, four hex digits each: `<00660069>` | not executed | ToUnicodeCmap.LigatureMisread | ToUnicodeCmap.UnicodeHexRoundTrip |
| borb/pdf/canvas/font/simple_font/true_type_font.py:87-93 | `LastChar` is the glyph count, with `FirstChar` 0 and one width per glyph | glyphs `a`, `b` give FirstChar 0, LastChar 2 and two widths, while Table 111 of ISO 32000-1 asks for `LastChar - FirstChar + 1` widths | `LastChar` is the glyph count minus one, the code of the last glyph | not executed | TrueTypeFont.LastCharOverstated | TrueTypeFont.SimpleFontSpec |
