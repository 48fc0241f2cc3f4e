# fonter core: the sfnt decoder, the short-key hash map and the UTF-8 helpers

This project is a Dafny model of the computational core of *fonter*, a small
OpenGL font viewer written in C. The project covers three pieces.

- **The TrueType/sfnt decoder** (`src/truetype.c`). It reads a font held in
  memory through a `struct ttf_reader` whose cursor moves forward over big-endian
  fields. It walks the table directory and validates `head`, `maxp` and `hhea`,
  taking their fields. It decodes `loca`, `hmtx` and the format 4 `cmap`
  subtable, and looks characters up in that subtable. It also decodes single
  glyph outlines from `glyf`: simple glyphs (run-length flags, then an X pass
  and a Y pass of deltas) and composite glyphs (children decoded recursively,
  their contour end points rebased). The table formats are those of
  ISO/IEC 14496-22 (Open Font Format).
- **The linear-probing hash map** (`src/shortmap.c`). It maps 16-bit keys to
  non-NULL values. Lookups and inserts probe from `key & (cap - 1)`, and the
  table doubles and re-inserts every entry once more than three quarters of it
  is in use.
- **The UTF-8 helpers** of `src/fonter.c`. `bmp_to_utf8` writes the 1- to
  3-byte form of a Basic Multilingual Plane code point (section 3 of RFC 3629).
  `utf8_codepoint` reads the code point at the start of a string.

Files and modules:

| file | module | contents |
|---|---|---|
| `wrappers.dfy` | `Wrappers` | `Option`, and `Outcome` (`OK`, `ERR`, `Undefined` for undefined behaviour, `Fatal` for `error(1, …)`, `DepthExceeded` for exhausted fuel) |
| `bits.dfy` | `Bits` | `&`, `\|` and shifts on naturals, bit by bit, and the mask lemmas the other modules use |
| `bytes.dfy` | `Bytes` | fixed-width integer types, big-endian 16/32/64-bit fields, `(int16_t)` conversion |
| `utf8.dfy` | `Utf8` | `bmp_to_utf8` (a method writing an array) and `utf8_codepoint` (a function), with the round trip |
| `cmap.dfy` | `Cmap` | `struct cmap_4`, `ttf_cmap_arrays`, `ttf_lookup_index` and a reference lookup |
| `glyph.dfy` | `Glyph` | glyph values, the flag and delta rules of simple glyphs, component records, composite assembly |
| `truetype.dfy` | `TrueType` | the class `TtfReader` (`struct ttf_reader`) with one method per parser, and the specifications they are proved against |
| `shortmap.dfy` | `ShortMap` | the class `ShortMap` (`shortmap_t`) over an `array` of buckets, and the probe lemmas |

How the C is represented:

- The font is an immutable `seq<byte>`. The cursor and every table pointer are
  byte offsets into it, `None` standing for NULL.
- Every read that could leave the font is checked. Where the C would read or
  write outside a buffer, the model returns `Undefined` and does not go on.
  The exceptions are the three defects under "## Findings": each is modelled
  twice, as written and corrected, and the composed decoder (`Parse`,
  `LoadTables` and the composite assembly) runs the corrected versions.
- The parsers are methods of `TtfReader` that move `cursor` and fill the
  reader's fields. Each method is proved against a function or predicate over
  the font bytes. Examples: `HeadAccepted`, `LocaEntries`, `Hmtx`, `Subtable`,
  `DecodeSimple` and `Compound`.
- The shortmap keeps its buckets in an `array` that `Insert` updates in place.
  The map it represents is `View`: each key with the value the probe of
  `shortmap_get` finds for it.

## Model

| member | source | states |
|---|---|---|
| Bytes.AsI16 | src/truetype.c:609-610 | `(int16_t) x` agrees with x modulo 65536 and is non-negative exactly when x < 0x8000 |
| Bytes.WordsSplit | src/truetype.c:455-456 | reading m + n consecutive words is reading m and then n more from where they end, so a loop that appends one word at a time builds the whole array |
| Bytes.U32AtBytes | src/truetype.c:71-77 | a 32-bit field is its four bytes, most significant first |
| Bytes.U64AtBytes | src/truetype.c:79-85 | a 64-bit date is its eight bytes, most significant first |
| Utf8.Utf8Encode | src/fonter.c:72-88 | the encoding has 1 byte for c ≤ 0x7F, 2 for c ≤ 0x7FF and 3 otherwise |
| Utf8.BmpToUtf8 | src/fonter.c:72-88 | the buffer starts with the encoding of c followed by a NUL; every byte after the NUL is unchanged |
| Utf8.EncodeForms | src/fonter.c:72-88 | ASCII is written as itself; 2-byte form 0xC0 + c/64, 0x80 + c mod 64; 3-byte form 0xE0 + c/4096, 0x80 + (c/64) mod 64, 0x80 + c mod 64 |
| Utf8.Encode2 | src/fonter.c:77-81 | `(c >> 6) \| 0xC0` and `(c & 0x3F) \| 0x80` are 0xC0 + c/64 and 0x80 + c mod 64 |
| Utf8.Encode3 | src/fonter.c:82-87 | the three bytes of the 3-byte form, as sums of their fixed prefixes and the code point's bit fields |
| Utf8.EncodeLeadLength | src/fonter.c:72-125 | the lead byte the encoder writes makes the decoder read exactly the bytes the encoder wrote |
| Utf8.LeadClasses | src/fonter.c:95-116 | the decoder's mask tests: `& 0x80 == 0` iff below 0x80, `& 0xE0 == 0xC0` iff in 0xC0..0xDF, `& 0xF0 == 0xE0` iff in 0xE0..0xEF, `& 0xF8 == 0xF0` iff in 0xF0..0xF7 |
| Utf8.Promote | src/fonter.c:93 | a `char` promoted under either signedness agrees with its byte modulo 256 |
| Utf8.CodepointForms | src/fonter.c:91-125 | an ASCII lead gives itself; a 110xxxxx lead gives 5 + 6 bits; a 1110xxxx lead gives 4 + 6 + 6 bits; continuation bytes are only masked, never checked; any other lead, 4-byte ones included, gives 0xFFFD |
| Utf8.Decode2 | src/fonter.c:98-105 | the 2-byte branch returns (b0 mod 32)·64 + b1 mod 64, so overlong forms are accepted |
| Utf8.Decode3 | src/fonter.c:107-114 | the 3-byte branch returns (b0 mod 16)·4096 + (b1 mod 64)·64 + b2 mod 64, so surrogates and overlong forms are accepted |
| Utf8.Shift6Value | src/fonter.c:101-102 | `codepoint <<= 6; codepoint \|= b & 0x3f` is cp·64 + b mod 64 while that fits 16 bits |
| Utf8.SignednessIrrelevant | src/fonter.c:91-125 | the code point does not depend on whether `char` is signed |
| Utf8.RoundTrip | src/fonter.c:72-125 | for every 16-bit c, decoding the NUL-terminated bytes `bmp_to_utf8` writes gives c back, under either signedness of `char` |
| Utf8.RoundTrip1 | src/fonter.c:73-76 | the round trip for the 1-byte form |
| Utf8.RoundTrip2 | src/fonter.c:77-81 | the round trip for the 2-byte form |
| Utf8.RoundTrip3 | src/fonter.c:82-87 | the round trip for the 3-byte form |
| Utf8.Decode2Of | src/fonter.c:98-105 | the decoder maps the explicit 2-byte form of c back to c |
| Utf8.Decode3Of | src/fonter.c:107-114 | the decoder maps the explicit 3-byte form of c back to c |
| Cmap.Arrays | src/truetype.c:230-244 | endCode at tail word 0, a pad word, then startCode, idDelta and idRangeOffset, segCount words apart, ending at word 4·segCount + 1 |
| Cmap.FirstCovering | src/truetype.c:372-385 | the first segment from i on that contains c, every earlier one not containing it; `None` iff no segment from i on contains c |
| Cmap.CoveringUnique | src/truetype.c:372-382 | in a sorted, disjoint subtable at most one segment contains a code |
| Cmap.LookupOwner | src/truetype.c:367-394 | in a sorted subtable the reference lookup answers with the glyph of the segment containing c, whichever segment that is (the glyph being (idDelta + c) mod 65536 with no range offset, else the tail word the range offset designates from the segment's own slot, with no idDelta added) |
| Cmap.SearchSegment | src/truetype.c:371-382 | for any tail: when every start and end code lies in the tail the search is defined; when defined it lands on a segment (−1 iff there are none); in a sorted subtable, if it is not one containing c then none is |
| Cmap.LookupIndex | src/truetype.c:367-394 | `ttf_lookup_index` for any tail: undefined with no segments; 0 when all start and end codes lie in the tail and no segment contains c, even if the tail is shorter than the four arrays; with the four arrays present, 0 or the glyph of a containing segment; in a sorted subtable exactly the reference lookup (the linear scan) |
| Cmap.ShortTailLookup | src/truetype.c:367-394 | a one-segment subtable of length 20, whose tail stops after the startCode word, answers 0 for a code past its only segment |
| Cmap.Example | src/truetype.c:367-394 | a two-segment subtable that satisfies the format's ordering |
| Cmap.ExampleLookups | src/truetype.c:367-394 | in the example, 'A' uses idDelta, 'B' and 'C' the glyph id array, and '@', in no segment, gives glyph 0 |
| Glyph.NumPoints | src/truetype.c:443-447 | `ttf_num_points` is at most 65536 and is 0 exactly when there are no contours |
| Glyph.Delta | src/truetype.c:429-439 | a short delta is ±byte, a long one an int16, and a "same" flag 0 |
| Glyph.Coords | src/truetype.c:422-440 | one coordinate per flag |
| Glyph.CoordsAccumulate | src/truetype.c:426-439 | each coordinate is the previous one (0 for the first point) plus that point's delta, the deltas read one after the other |
| Glyph.CoordsPrefix | src/truetype.c:422-440 | decoding a prefix of the flags gives the prefix of the coordinates |
| Glyph.AxisBytesPrefix | src/truetype.c:422-440 | the deltas of a prefix of the flags take no more bytes than all of them |
| Glyph.RepeatJoin | src/truetype.c:471-479 | two runs of the same flag make one run as long as both, so the repeat loop extends a run one copy at a time |
| Glyph.Flags | src/truetype.c:467-480 | the expanded flags stop once at least `want` exist, overshooting by at most 255, and never read past the font |
| Glyph.PrependJoin | src/truetype.c:467-480 | flag runs expanded one after another concatenate |
| Glyph.DecodePoints | src/truetype.c:465-486 | a successful decode yields exactly endpoint[last] + 1 points |
| Glyph.SimpleShape | src/truetype.c:449-490 | a decoded simple glyph has one end point per contour, read in order, `ttf_num_points` points, and is well decoded |
| Glyph.ExampleFlags | src/truetype.c:467-480 | a repeated flag expands to its copies, and the position after the flags is the one after the count byte |
| Glyph.ExampleBits | src/truetype.c:396-405 | the flag bits select one-byte, two-byte or no deltas per axis |
| Glyph.ExampleX | src/truetype.c:422-440 | the example's X pass: one short positive delta, then three "same" points |
| Glyph.ExampleY | src/truetype.c:422-440 | the example's Y pass: one int16 delta of −2, then three "same" points |
| Glyph.ExampleSimple | src/truetype.c:449-490 | the whole example glyph decodes to four on-curve points at (7, −2) |
| Glyph.F2Dot14 | src/truetype.c:66-69 | a 2.14 fixed-point value lies in [−2, 2) |
| Glyph.Round | src/truetype.c:499-500 | the rounding `+ 0.5` is meant to give: the nearest integer, halves upward, for either sign |
| Glyph.TransformIdentity | src/truetype.c:492-501 | the intended transform leaves every point fixed under the identity matrix |
| Glyph.TransformAsWrittenMoves | src/truetype.c:499-500 | as written, the identity matrix moves points: x takes y's value, y is never written, and a negative value goes up by one |
| Glyph.ComponentAt | src/truetype.c:534-570 | a component record exists iff it fits in the font; its size follows from its flags; byte-form arguments are unsigned bytes |
| Glyph.LowByte | src/truetype.c:547 | `both & 0xff` is below 256 |
| Glyph.PartsInit | src/truetype.c:532-624 | dropping the last part of decoded parts leaves decoded parts |
| Glyph.Placed | src/truetype.c:597-620 | a child contributes exactly its `ttf_num_points` points |
| Glyph.Rebased | src/truetype.c:580-592 | a child contributes exactly one end point per contour |
| Glyph.AssembledPoints | src/truetype.c:597-620 | a composite has as many points as its children have together |
| Glyph.AssembledEndpoints | src/truetype.c:580-592 | a composite has as many contours as its children have together |
| Glyph.PartsExtend | src/truetype.c:580-620 | one more child appends its end points, shifted by the points before it, and its placed points after those already assembled |
| Glyph.LastEndpoint | src/truetype.c:580-592 | the last rebased end point lies before the last point, and is exactly the last one while the total fits 16 bits |
| Glyph.NoContoursNoPoints | src/truetype.c:443-447 | children without contours contribute no points |
| Glyph.CompoundShape | src/truetype.c:503-631 | a composite is well decoded, its point count is the sum of its children's, and so is `ttf_num_points` while it fits 16 bits |
| TrueType.LastRecordIsLast | src/truetype.c:270-289 | no record has the tag iff the scan finds none; otherwise the one found has the tag and none after it does (a later record overwrites an earlier one) |
| TrueType.SubtableLayout | src/truetype.c:212-244 | the parallel arrays of a parsed subtable hold the words at the byte offsets the format gives, after the 14-byte header |
| TrueType.Hmtx | src/truetype.c:347-365 | one metric per glyph, and at least the explicit ones |
| TrueType.HmtxInherits | src/truetype.c:358-362 | a glyph past the explicit metrics takes the last explicit advance width and reads its own left side bearing |
| TrueType.LocaAsWrittenMissesLastEnd | src/truetype.c:154-163 | with `num_glyphs` entries stored, the last glyph has no end offset |
| TrueType.LocaBoundsEveryGlyph | src/truetype.c:650-651 | with `num_glyphs + 1` entries, every glyph has a start and end offset, 2·word (short) or the u32 (long) |
| TrueType.ChainExtend | src/truetype.c:532-624 | a record read where the chain of records ends extends the chain |
| TrueType.CompsExtend | src/truetype.c:532-624 | the components of one more part are the earlier ones plus its own |
| TrueType.ChainStep | src/truetype.c:532-624 | one more record, asked for by MORE_COMPONENTS of the one before, keeps the chain from the first record and the flags seen so far |
| TrueType.AppendContours | src/truetype.c:580-592 | the end points become the earlier ones followed by the child's, each plus the points before it, modulo 65536 |
| TrueType.AppendPlaced | src/truetype.c:597-620 | the points become the earlier ones followed by the child's, each placed by the component (with the corrected transform) |
| TrueType.AddPart | src/truetype.c:575-620 | contours past int16 are undefined; a record without ARGS_ARE_XY_VALUES ends the process; otherwise the parts assembled so far grow by this one (points placed with the corrected transform) |
| TrueType.Stored | src/truetype.c:426-427 | a coordinate pass sets the point's coordinate on its axis and its on-curve bit, and leaves the other coordinate alone |
| TrueType.AxisBytesStep | src/truetype.c:422-440 | each point of a pass takes its own delta bytes, after those of the earlier points |
| TrueType.TtfReader.constructor | src/fonter.c:209 | a reader over the font with the cursor on its first byte and every table field empty |
| TrueType.TtfReader.Read8 | src/truetype.c:53-56 | the byte at the cursor, which moves by 1 |
| TrueType.TtfReader.Read16 | src/truetype.c:58-64 | the big-endian word at the cursor, which moves by 2 |
| TrueType.TtfReader.Read32 | src/truetype.c:71-77 | the big-endian 32-bit value at the cursor, which moves by 4 |
| TrueType.TtfReader.ReadDate | src/truetype.c:79-85 | the big-endian 64-bit value at the cursor, which moves by 8 |
| TrueType.TtfReader.Skip | src/truetype.c:263-265 | the cursor moves past the fields that are skipped |
| TrueType.TtfReader.ReadF2Dot14 | src/truetype.c:66-69 | the word at the cursor as a signed 2.14 number; the cursor moves by 2 |
| TrueType.TtfReader.ReadBbox | src/truetype.c:87-95 | 8 bytes as x_min, y_min, x_max, y_max in that order, each as `int16_t` |
| TrueType.TtfReader.ParseHead | src/truetype.c:97-126 | ERR with no table, or iff the version is not 0x10000 or the magic is not 0x5F0F3CF5; on OK, units per em from byte 18, the location format from byte 50, and the cursor 52 bytes on |
| TrueType.TtfReader.ParseMaxp | src/truetype.c:128-144 | ERR with no table, or iff the version is not 0x00010000; on OK, num_glyphs from byte 4 |
| TrueType.TtfReader.ReadLocations | src/truetype.c:157-163 | `count` entries, 2·u16 for the short format and u32 for the long, and undefined iff they run past the font |
| TrueType.TtfReader.ParseLocaAsWritten | src/truetype.c:146-166 | as written: ERR iff there is no table; on OK, `num_glyphs` entries |
| TrueType.TtfReader.ParseLoca | src/truetype.c:146-166 | corrected: ERR iff there is no table; on OK, the `num_glyphs + 1` entries of the table |
| TrueType.TtfReader.FindSubtable | src/truetype.c:184-202 | the offset of the first encoding record whose platform and encoding word is 3, not found, or truncated |
| TrueType.TtfReader.ParseCmap | src/truetype.c:168-228 | ERR with no table, or iff the version is not 0, no BMP record exists, or the subtable is of another format; on OK, the parsed format 4 subtable |
| TrueType.TtfReader.ParseSubtable | src/truetype.c:204-227 | ERR iff the format is not 4; on OK, half of segCountX2 and the (length − 14)/2 words after the header |
| TrueType.TtfReader.ParseHhea | src/truetype.c:315-345 | ERR iff the version is not 0x10000; on OK, num_hmetrics from byte 34 and the cursor 36 bytes on |
| TrueType.TtfReader.ParseHmtxAsWritten | src/truetype.c:347-365 | as written: undefined whenever there are more glyphs than long metrics, because the buffer holds only `num_hmetrics` entries |
| TrueType.TtfReader.ParseHmtx | src/truetype.c:347-365 | corrected: one metric per glyph, as `Hmtx` states, undefined only where the font or the buffer runs out |
| TrueType.TtfReader.ReadLongMetrics | src/truetype.c:351-356 | the explicit advance and bearing pairs |
| TrueType.TtfReader.ReadShortMetrics | src/truetype.c:358-362 | the inherited advances, each with its own bearing |
| TrueType.TtfReader.ReadDirectory | src/truetype.c:270-289 | 16-byte records, checksum and length ignored; each table is the last record with its tag; undefined iff the records run past the font |
| TrueType.TtfReader.Parse | src/truetype.c:246-313 | OK exactly when `FontAccepted`: the directory lies in the font, the first word is 0x00010000 and every table parser accepts its table; ERR exactly when `FontRejected`: another first word (collections and 'OTTO' refused) or the first parser that refuses its table, a missing `head` included; Undefined otherwise; on OK every reader field comes from the table the directory names last, and `glyphs` is `glyf` (with the corrected parsers of "## Findings") |
| TrueType.TtfReader.ParseDirectory | src/truetype.c:261-312 | after a TrueType first word: OK exactly when `FontAccepted`, ERR exactly when the directory lies in the font and `TablesRejected` holds of the tables it names, ERR without `head`; on OK every field is loaded |
| TrueType.TtfReader.LoadTables | src/truetype.c:291-312 | the six parsers run in order: OK exactly when `TablesAccepted` (all six accept their tables), ERR exactly when `TablesRejected` (the first parser to stop refuses its table); on OK all their fields are loaded (`loca` and `hmtx` through the corrected parsers) |
| TrueType.TtfReader.LoadOutlineTables | src/truetype.c:291-299 | head, maxp and loca in order: OK exactly when all three are present, head and maxp accepted and the offsets fit; ERR exactly when head is missing or refused, or head is accepted and maxp is missing or refused, or both are accepted and loca is missing; on OK their fields are loaded (`loca` through the corrected `ParseLoca`) |
| TrueType.TtfReader.LoadMappingTables | src/truetype.c:301-308 | cmap, hhea and hmtx in order: OK exactly when cmap and hhea are accepted and the metrics fit; ERR exactly when cmap is missing or refused, or cmap is accepted and a present hhea is refused; on OK their fields are loaded (`hmtx` through the corrected `ParseHmtx`) |
| TrueType.TtfReader.ParseCoordinates | src/truetype.c:409-441 | undefined iff the deltas run past the font; on OK each point's coordinate on the axis is the one `Coords` gives, its on-curve bit is flag bit 0, and the other coordinate is kept |
| TrueType.TtfReader.StoreCoordinate | src/truetype.c:424-439 | one point of a pass: its coordinate stored, nothing else in the buffer changed, and the stored prefix of the pass grows by that point |
| TrueType.CoordinatePasses | src/truetype.c:484-486 | the X pass over points at the origin followed by the Y pass gives point i the coordinates (xs[i], ys[i]) and the on-curve bit of flag i |
| TrueType.TtfReader.ReadDelta | src/truetype.c:429-439 | the delta `Delta` gives, and the cursor past its bytes |
| TrueType.TtfReader.ReadFlags | src/truetype.c:467-480 | the expanded flags exactly as `Flags` gives them; undefined iff the bytes run out |
| TrueType.TtfReader.ParseSimpleGlyf | src/truetype.c:449-490 | OK iff `DecodeSimple` succeeds, with its end points and points; undefined for no contours, an overshooting flag run, or reads past the font |
| TrueType.TtfReader.ReadEndpoints | src/truetype.c:452-459 | the nc end points, then the instructions skipped by their length |
| TrueType.TtfReader.ReadPoints | src/truetype.c:465-486 | OK iff `DecodePoints` succeeds, with its points |
| TrueType.TtfReader.ReadCoordinates | src/truetype.c:484-486 | the X pass then the Y pass over one point per flag |
| TrueType.TtfReader.ParseCompoundGlyf | src/truetype.c:503-644 | on OK the glyph is the composite of its parts (contour and point counts the children's sums, end points rebased, header box kept), the records chain from the cursor, and all but the last ask for more (points placed with the corrected transform) |
| TrueType.TtfReader.ParseComponent | src/truetype.c:534-573 | the record at the cursor and a well-decoded child glyph |
| TrueType.TtfReader.ReadComponent | src/truetype.c:534-570 | the record read field by field is the record `ComponentAt` gives, and `None` iff it runs past the font |
| TrueType.TtfReader.ParseGlyf | src/truetype.c:646-685 | the cursor is restored on every path; equal offsets give the empty glyph without touching `glyf`; a missing end offset is undefined; otherwise the glyph at `glyf` + offset, and for a non-negative contour count there OK exactly when `DecodeSimple` succeeds, Undefined otherwise |
| TrueType.TtfReader.ParseGlyphAt | src/truetype.c:663-677 | never ERR; undefined when the 10-byte header runs past the font; for a non-negative contour count OK exactly when `DecodeSimple` succeeds; on OK the glyph is the one decoded at that position |
| TrueType.TtfReader.ParseGlyphHeader | src/truetype.c:667-677 | the contour count and box, then a simple glyph or, for a negative count, a composite; for a non-negative count OK exactly when `DecodeSimple` succeeds, Undefined otherwise |
| ShortMap.Count | src/shortmap.c:49 | the number of buckets in use, at most the table size |
| ShortMap.Start | src/shortmap.c:20-23 | the first bucket probed for a key is inside the table |
| ShortMap.Dist | src/shortmap.c:21-29 | how many probe steps reach a bucket: fewer than the table size, and that step lands on it |
| ShortMap.DistStep | src/shortmap.c:21-29 | distinct probe steps reach distinct buckets |
| ShortMap.MaskNext | src/shortmap.c:23-28 | `hash += 1; hash &= cap - 1` moves to the next bucket, wrapping to 0 after the last |
| ShortMap.ProbeNext | src/shortmap.c:55-62 | the bucket after the k-th of a probe is its (k + 1)-th |
| ShortMap.MaskIndex | src/shortmap.c:55 | masking leaves a bucket index unchanged |
| ShortMap.LookupFound | src/shortmap.c:18-31 | the probe returns the value of a bucket holding the key when every bucket before it is in use with another key |
| ShortMap.LookupMissing | src/shortmap.c:18-31 | the probe returns NULL when no remaining bucket on it holds the key |
| ShortMap.PlaceSame | src/shortmap.c:52-63 | after filling the first empty bucket of a key's probe, the key's lookup finds the earlier entry if there was one, the new value otherwise |
| ShortMap.PlaceOther | src/shortmap.c:52-63 | filling an empty bucket leaves the lookup of every other key unchanged |
| ShortMap.PlaceView | src/shortmap.c:52-63 | the map after an insert is the old map with the key added, unless the key was already there |
| ShortMap.PlaceReach | src/shortmap.c:52-63 | an insert keeps every stored key reachable by its probe |
| ShortMap.PlaceDistinct | src/shortmap.c:52-63 | inserting a key not already present keeps the keys distinct |
| ShortMap.PlaceEffect | src/shortmap.c:49-63 | an insert keeps the table invariant, adds one to the count and adds the key to the map |
| ShortMap.CountPlace | src/shortmap.c:56-60 | filling an empty bucket adds one to the count of buckets in use |
| ShortMap.EmptyExists | src/shortmap.c:53-63 | fewer buckets in use than buckets leaves an empty one, so the probe loop ends |
| ShortMap.EntriesHold | src/shortmap.c:18-31 | a key is among the entries iff a bucket in use holds it, and with distinct keys that bucket's value is its entry |
| ShortMap.PrefixStep | src/shortmap.c:43-45 | each old bucket in use adds one to the count and its pair to the entries re-inserted so far |
| ShortMap.ViewIsEntries | src/shortmap.c:36-47 | with distinct keys, the map the probe sees is the set of stored pairs, whatever the table size and order |
| ShortMap.AllEmpty | src/shortmap.c:4-16 | a zeroed table has count 0, keeps the invariant, and holds the empty map |
| ShortMap.ShortMap.constructor | src/shortmap.c:4-16 | cap is `initial_cap`, len 0, every bucket key 0 and value NULL; for a power-of-two size, the empty map |
| ShortMap.ShortMap.Get | src/shortmap.c:18-31 | the value of the first bucket of the probe holding the key, or NULL at the first empty bucket or after cap probes; nothing changes |
| ShortMap.ShortMap.Insert | src/shortmap.c:33-64 | len grows by one; cap doubles iff more than three quarters was in use; the pair is stored in the bucket returned; when no resize happens or the keys were distinct, the map gains the key unless it was already there (then `get` keeps the earlier value); nothing is stated about the map when a resize re-inserts duplicate keys |
| ShortMap.ShortMap.Place | src/shortmap.c:49-63 | the pair stored in the first empty bucket of the probe, and no other bucket changed |
| ShortMap.ShortMap.Rehash | src/shortmap.c:36-47 | cap doubled, a fresh table with the same len, fewer buckets in use than buckets, and, with distinct keys, the same map |
| ShortMap.ShortMap.Reinsert | src/shortmap.c:43-45 | re-inserting an old bucket never resizes again and adds that bucket's pair to the map |

## Left out

- `readall`, `checkStatus`, `compileShader`, `debugCallback` and `main` of `src/fonter.c` are file I/O, OpenGL and a window loop. The reader's initial state of `main` is the `TtfReader` constructor.
- Diagnostics (`printf`, `fprintf`, `error(0, …)`) are left out. `error(1, …)` at `src/truetype.c:595` ends the process, which is the outcome `Fatal`.
- Undefined behaviour is not reproduced. Every read or write past a buffer becomes the outcome `Undefined`. This covers the font's end, `contour_endpoints[-1]` for a simple glyph with no contours, a flag run that overshoots the points, an uninitialised `mid` with no cmap segments, a cmap tail shorter than the words the search reads, a range offset past the subtable, and a NULL table pointer.
- Floating point is modelled with reals. `read_f2dot14`, the component matrix and `apply_transform` are exact; `float` rounding error is not modelled. The conversion to `int` truncates toward zero in the as-written transform and rounds to nearest in the corrected one.
- `malloc`/`realloc` growth is not modelled. The buffers of `loca`, `hmtx`, the cmap tail, the flags and the composite's end points and points are sequences with the final length the C gives them.
- `reader->hmetrics` is a `void *` in `src/truetype.h`. It is modelled as a sequence of (advance width, left side bearing) word pairs, the layout `ttf_parse_hmtx` writes.
- The hinting bytecode is skipped by its length, as in the C. The commented-out instruction block of composites is dead code.
- TrueType.TtfReader.Parse: runs the corrected `loca` and `hmtx` parsers and the corrected transform of "## Findings", not the C's. A `loca` table whose `num_glyphs` entries end exactly at the font's end is `OK` in the C and `Undefined` here, since one more entry is read; `numberOfHMetrics` 1 with 2 glyphs is `OK` here where the C overflows its buffer.
- TrueType.TtfReader.LoadTables: runs `ParseLoca` and `ParseHmtx`, the corrected parsers, so it differs from the C on the two inputs given for `Parse`.
- TrueType.TtfReader.LoadOutlineTables: runs `ParseLoca`, which reads `num_glyphs + 1` entries where the C reads `num_glyphs`; a font whose `num_glyphs` entries end at its end is `OK` in the C and `Undefined` here.
- TrueType.TtfReader.LoadMappingTables: runs `ParseHmtx`, which sizes the buffer for every glyph; `numberOfHMetrics` 1 with 2 glyphs is `OK` here where the C writes past its buffer.
- TrueType.AppendPlaced: places the child's points with the corrected `ApplyTransform`; under the identity matrix the point (3, 7) is placed at (3, 7) here and at (7, 7) by the C.
- TrueType.AddPart: appends points placed by the corrected transform, so the assembled points differ from the C's as given for `AppendPlaced`.
- TrueType.TtfReader.ParseCompoundGlyf: its points are placed by the corrected transform, so they differ from the C's as given for `AppendPlaced`.
- TrueType.TtfReader.ParseCompoundGlyf: the children of a composite are only stated to be well decoded, not to be the glyphs their indices name, because the ghost parts are not tied to the recursive decode.
- TrueType.TtfReader.ParseGlyf: composite nesting is bounded by a `fuel` parameter (`DepthExceeded` when it runs out); the C has no limit and may not terminate on a cyclic font.
- TrueType.AddPart: a composite whose contours exceed 32767 is treated as `Undefined`, where the C wraps its `int16_t` counter in an implementation-defined way.
- `ttf_parse` does not check that a `glyf` table exists; neither does the model.
- Where the code and the format disagree, the model follows the code. Only a cmap encoding record whose 32-bit (platformID, encodingID) word equals 0x00000003 is used, which is the C's own test, not the format's rule for a BMP subtable. The range-offset path adds no idDelta. Byte-form component arguments are unsigned, not int8.
- ShortMap.ShortMap.Insert: duplicate keys are not detected; a second insert of a key stores a second bucket. Until the next resize `get` never reaches it; the resize re-inserts the buckets in index order, which can put the later duplicate first on the probe path, so the map after a resize is stated only for distinct keys. The requirement `cap <= 0x4000` before a resize comes from the 16-bit doubling of `cap`.
- ShortMap: values are `Option<V>` with `None` for NULL; `Insert` takes a non-NULL value, since the code's invariant (len equals the buckets in use) relies on it.

## Findings

| source | as written | input that shows it | evidently intended | confidence | as-written member | corrected member |
|---|---|---|---|---|---|---|
| src/truetype.c:157 | `ttf_parse_loca` reads `num_glyphs` entries into a buffer of `num_glyphs + 1` | any font, decoding the last glyph: `ttf_parse_glyf` reads `locations[num_glyphs]` (src/truetype.c:651), which was never written | read `num_glyphs + 1` entries, as the `loca` format stores them | not executed | TrueType.TtfReader.ParseLocaAsWritten, TrueType.LocaAsWrittenMissesLastEnd, TrueType.TtfReader.ParseGlyf (undefined once `index + 1` reaches the stored entries) | TrueType.TtfReader.ParseLoca, TrueType.LocaBoundsEveryGlyph |
| src/truetype.c:349 | the `hmtx` buffer holds `num_hmetrics` entries but is written up to `num_glyphs` (line 358) | any font with more glyphs than long metrics, e.g. `numberOfHMetrics` 1 and 2 glyphs | one entry per glyph | not executed | TrueType.TtfReader.ParseHmtxAsWritten | TrueType.TtfReader.ParseHmtx, TrueType.HmtxInherits |
| src/truetype.c:499-500 | `apply_transform` stores both results into `c[0]` and never writes `c[1]`; `(int)(r + 0.5)` truncates toward zero, so a negative r is rounded up | the identity matrix and the point (3, 7) give (7, 7); the point (−3, −3) gives (−2, −3) | x from the first row, y from the second, each rounded to the nearest integer | not executed | Glyph.ApplyTransformAsWritten, Glyph.TransformAsWrittenMoves | Glyph.ApplyTransform, Glyph.TransformIdentity |
