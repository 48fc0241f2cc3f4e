/** The sfnt reader: a font held in memory, a cursor into it, and the tables the
    parsers extract (the table directory, `head`, `maxp`, `loca`, `cmap`, `hhea`,
    `hmtx`) together with the decoding of single glyph outlines from `glyf`.
    Positions are byte offsets from the start of the font; a NULL pointer is
    `None`. */
module TrueType {
  import opened Bits
  import opened Bytes
  import opened Wrappers
  import opened Cmap
  import opened Glyph

  // Table tags and sfnt versions (truetype.c:29-50): four characters read as a
  // big-endian 32-bit word.
  const TagCmap: u32 := 0x636d6170
  const TagGlyf: u32 := 0x676c7966
  const TagHead: u32 := 0x68656164
  const TagHhea: u32 := 0x68686561
  const TagHmtx: u32 := 0x686d7478
  const TagLoca: u32 := 0x6c6f6361
  const TagMaxp: u32 := 0x6d617870
  const TagOtto: u32 := 0x4f54544f
  const TagTrueType: u32 := 0x0001_0000
  const TagTrueTypeCollection: u32 := 0x74746366

  /** One entry of the horizontal metrics. The element type of `hmetrics` is not
      declared in the source (it is a `void *`); both fields are kept as the words
      read. */
  datatype HMetric = HMetric(advanceWidth: u16, leftSideBearing: u16)

  // ---------------------------------------------------------------------------
  // The tables, stated on the bytes of the font

  /** The offset of the last of the first n table records at p whose tag is
      `tag`: every record overwrites what an earlier one with its tag set. */
  function LastRecord(d: seq<byte>, p: nat, n: nat, tag: u32): Option<nat>
    requires p + 16 * n <= |d|
  {
    if n == 0 then None
    else if U32At(d, p + 16 * (n - 1)) == tag then Some(U32At(d, p + 16 * (n - 1) + 8))
    else LastRecord(d, p, n - 1, tag)
  }

  /** `LastRecord` finds the offset of a record with the tag after which no
      record has it, and nothing when no record has it. */
  lemma {:induction false} LastRecordIsLast(d: seq<byte>, p: nat, n: nat, tag: u32)
    requires p + 16 * n <= |d|
    ensures LastRecord(d, p, n, tag).None? <==> forall j :: 0 <= j < n ==> U32At(d, p + 16 * j) != tag
    ensures LastRecord(d, p, n, tag).Some? ==>
      exists j :: 0 <= j < n && U32At(d, p + 16 * j) == tag && LastRecord(d, p, n, tag).value == U32At(d, p + 16 * j + 8)
        && forall k :: j < k < n ==> U32At(d, p + 16 * k) != tag
  {
    if n > 0 {
      LastRecordIsLast(d, p, n - 1, tag);
    }
  }

  /** The sfnt header at t and its n table records fit in the font. */
  predicate DirectoryFits(d: seq<byte>, t: nat)
  {
    t + 12 <= |d| && t + 12 + 16 * U16At(d, t + 4) <= |d|
  }

  /** The table the directory at t names last for `tag`. */
  function Table(d: seq<byte>, t: nat, tag: u32): Option<nat>
    requires DirectoryFits(d, t)
  {
    LastRecord(d, t + 12, U16At(d, t + 4), tag)
  }

  /** `head` at t: version 1.0 and the magic number; the reads span 52 bytes. */
  predicate HeadAccepted(d: seq<byte>, t: nat)
  {
    t + 52 <= |d| && U32At(d, t) == 0x1_0000 && U32At(d, t + 12) == 0x5F0F_3CF5
  }

  /** `head` at t has a wrong version or a wrong magic number, found before the
      reads run past the font. */
  predicate HeadRejected(d: seq<byte>, t: nat)
  {
    t + 4 <= |d| && (U32At(d, t) != 0x1_0000 || (t + 16 <= |d| && U32At(d, t + 12) != 0x5F0F_3CF5))
  }

  /** `maxp` at t: version 1.0 followed by the glyph count. */
  predicate MaxpAccepted(d: seq<byte>, t: nat)
  {
    t + 6 <= |d| && U32At(d, t) == 0x1_0000
  }

  predicate MaxpRejected(d: seq<byte>, t: nat)
  {
    t + 4 <= |d| && U32At(d, t) != 0x1_0000
  }

  /** `hhea` at t: version 1.0, and `numberOfHMetrics` at byte 34. */
  predicate HheaAccepted(d: seq<byte>, t: nat)
  {
    t + 36 <= |d| && U32At(d, t) == 0x1_0000
  }

  predicate HheaRejected(d: seq<byte>, t: nat)
  {
    t + 4 <= |d| && U32At(d, t) != 0x1_0000
  }

  /** Bytes of one `loca` entry. */
  function LocaSize(long: bool): nat
  {
    if long then 4 else 2
  }

  /** The first n `loca` entries at t: long entries are offsets, short ones
      halved offsets. */
  function LocaEntries(d: seq<byte>, t: nat, long: bool, n: nat): seq<u32>
    requires t + LocaSize(long) * n <= |d|
  {
    seq(n, i requires 0 <= i < n => if long then U32At(d, t + 4 * i) else 2 * U16At(d, t + 2 * i))
  }

  /** The outcome of searching the n cmap encoding records at p. */
  datatype Search = Found(offset: u32) | NotFound | Truncated

  /** The first encoding record whose platform and encoding ids, read together
      as one 32-bit word, are 3 (platform 0, encoding 3: Unicode BMP). */
  function FindBmp(d: seq<byte>, p: nat, n: nat): Search
    decreases n
  {
    if n == 0 then NotFound
    else if p + 8 > |d| then Truncated
    else if U32At(d, p) == 3 then Found(U32At(d, p + 4))
    else FindBmp(d, p + 8, n - 1)
  }

  /** The position of the subtable the BMP record of the `cmap` at t names. */
  function SubtableAt(d: seq<byte>, t: nat): nat
    requires t + 4 <= |d| && FindBmp(d, t + 4, U16At(d, t + 2)).Found?
  {
    t + FindBmp(d, t + 4, U16At(d, t + 2)).offset
  }

  /** A format 4 subtable at s, no shorter than its 14-byte header, whose words
      fit in the font. */
  predicate SubtableAccepted(d: seq<byte>, s: nat)
  {
    s + 14 <= |d| && U16At(d, s) == 4 && U16At(d, s + 2) >= 14 && s + 14 + 2 * ((U16At(d, s + 2) - 14) / 2) <= |d|
  }

  /** The subtable at s is of another format. */
  predicate SubtableRejected(d: seq<byte>, s: nat)
  {
    s + 2 <= |d| && U16At(d, s) != 4
  }

  /** What the decoder keeps of an accepted subtable: half of `segCountX2` and
      the words after the header, up to the subtable's length. */
  function Subtable(d: seq<byte>, s: nat): Cmap4
    requires SubtableAccepted(d, s)
  {
    Cmap4(U16At(d, s + 6) / 2, Words(d, s + 14, (U16At(d, s + 2) - 14) / 2))
  }

  /** `cmap` at t: version 0, a BMP record, and an accepted subtable. */
  predicate CmapAccepted(d: seq<byte>, t: nat)
  {
    t + 4 <= |d| && U16At(d, t) == 0 && FindBmp(d, t + 4, U16At(d, t + 2)).Found?
    && SubtableAccepted(d, SubtableAt(d, t))
  }

  /** `cmap` at t has a wrong version, no BMP record, or a subtable of another
      format, found before the reads run past the font. */
  predicate CmapRejected(d: seq<byte>, t: nat)
  {
    t + 2 <= |d|
    && (U16At(d, t) != 0
        || (t + 4 <= |d| && FindBmp(d, t + 4, U16At(d, t + 2)).NotFound?)
        || (t + 4 <= |d| && FindBmp(d, t + 4, U16At(d, t + 2)).Found? && SubtableRejected(d, SubtableAt(d, t))))
  }

  /** The parallel arrays of a parsed subtable sit where the format puts them:
      endCode at byte 14, startCode after the reserved pad, then idDelta and
      idRangeOffset. */
  lemma SubtableLayout(d: seq<byte>, s: nat, i: nat)
    requires SubtableAccepted(d, s) && HasArrays(Subtable(d, s)) && i < Subtable(d, s).segCount
    ensures var m := Subtable(d, s);
      && EndCode(m, i) == U16At(d, s + 14 + 2 * i)
      && StartCode(m, i) == U16At(d, s + 16 + 2 * m.segCount + 2 * i)
      && IdDelta(m, i) == U16At(d, s + 16 + 4 * m.segCount + 2 * i)
      && IdRangeOffset(m, i) == U16At(d, s + 16 + 6 * m.segCount + 2 * i)
  {
  }

  /** Long metrics once a negative count is taken as none. */
  function LongMetrics(numHmetrics: i16): nat
  {
    if numHmetrics > 0 then numHmetrics as nat else 0
  }

  /** Entries `hmtx` yields: one per glyph, and at least the long ones. */
  function MetricCount(n1: nat, numGlyphs: nat): nat
  {
    if numGlyphs > n1 then numGlyphs else n1
  }

  /** Bytes of `hmtx`: a word pair per long metric, then a word per other glyph. */
  function HmtxBytes(n1: nat, numGlyphs: nat): nat
  {
    4 * n1 + 2 * (MetricCount(n1, numGlyphs) - n1)
  }

  /** The metrics of `hmtx` at t: n1 explicit pairs, then, for every further
      glyph, the advance of the last pair with a bearing of its own. */
  function Hmtx(d: seq<byte>, t: nat, n1: nat, numGlyphs: nat): (r: seq<HMetric>)
    requires t + HmtxBytes(n1, numGlyphs) <= |d| && (numGlyphs > n1 ==> n1 > 0)
    ensures |r| == MetricCount(n1, numGlyphs)
  {
    seq(MetricCount(n1, numGlyphs), i requires 0 <= i < MetricCount(n1, numGlyphs) =>
      if i < n1 then HMetric(U16At(d, t + 4 * i), U16At(d, t + 4 * i + 2))
      else HMetric(U16At(d, t + 4 * (n1 - 1)), U16At(d, t + 4 * n1 + 2 * (i - n1))))
  }

  /** Glyphs after the long metrics share the advance of the last one and each
      reads its own bearing: with 2 long metrics and 5 glyphs, glyphs 2, 3 and 4
      advance like glyph 1. */
  lemma HmtxInherits(d: seq<byte>, t: nat, n1: nat, numGlyphs: nat, i: nat)
    requires t + HmtxBytes(n1, numGlyphs) <= |d| && 0 < n1 <= i < numGlyphs
    ensures Hmtx(d, t, n1, numGlyphs)[i].advanceWidth == Hmtx(d, t, n1, numGlyphs)[n1 - 1].advanceWidth
    ensures Hmtx(d, t, n1, numGlyphs)[i].leftSideBearing == U16At(d, t + 4 * n1 + 2 * (i - n1))
  {
  }

  /** What a successful `hmtx` parse leaves: nothing when no entry is due, else
      the table at the position the directory gave. */
  predicate HmtxLoaded(d: seq<byte>, t: Option<nat>, numHmetrics: i16, numGlyphs: u16, hm: seq<HMetric>)
  {
    var n1 := LongMetrics(numHmetrics);
    if MetricCount(n1, numGlyphs) == 0 then hm == []
    else (t.Some? && t.value + HmtxBytes(n1, numGlyphs) <= |d| && (numGlyphs > n1 ==> n1 > 0)
      && hm == Hmtx(d, t.value, n1, numGlyphs))
  }

  /** `ttf_parse_hmtx` does not run past its buffer or the font: some long
      metric exists when a glyph must inherit one, and the table fits when any
      entry is due. */
  predicate HmtxFits(d: seq<byte>, t: Option<nat>, numHmetrics: i16, numGlyphs: u16)
  {
    var n1 := LongMetrics(numHmetrics);
    && !(numGlyphs as int > n1 && n1 == 0)
    && (MetricCount(n1, numGlyphs) > 0 ==> t.Some? && t.value + HmtxBytes(n1, numGlyphs) <= |d|)
  }

  /** Tables where `head`, `maxp` and `loca` all succeed: both headers accepted
      and the numGlyphs + 1 `loca` entries, of the width `head` names, in the
      font. */
  predicate OutlineAccepted(d: seq<byte>, head: Option<nat>, maxp: Option<nat>, loca: Option<nat>)
  {
    && head.Some? && HeadAccepted(d, head.value)
    && maxp.Some? && MaxpAccepted(d, maxp.value)
    && loca.Some?
    && loca.value + LocaSize(U16At(d, head.value + 50) != 0) * (U16At(d, maxp.value + 4) as nat + 1) <= |d|
  }

  /** Tables where one of `head`, `maxp` and `loca` answers ERR, the ones before
      it having succeeded: a missing `head` or `maxp`, a wrong version or magic,
      or a missing `loca`. */
  predicate OutlineRejected(d: seq<byte>, head: Option<nat>, maxp: Option<nat>, loca: Option<nat>)
  {
    || head.None? || HeadRejected(d, head.value)
    || (HeadAccepted(d, head.value)
        && (maxp.None? || MaxpRejected(d, maxp.value) || (MaxpAccepted(d, maxp.value) && loca.None?)))
  }

  /** Tables where `cmap`, `hhea` and `hmtx` all succeed for numGlyphs glyphs. */
  predicate MappingAccepted(d: seq<byte>, cm: Option<nat>, hhea: Option<nat>, hmtx: Option<nat>, numGlyphs: u16)
  {
    && cm.Some? && CmapAccepted(d, cm.value)
    && hhea.Some? && HheaAccepted(d, hhea.value)
    && HmtxFits(d, hmtx, AsI16(U16At(d, hhea.value + 34)), numGlyphs)
  }

  /** Tables where `cmap` or `hhea` answers ERR (`hmtx` never does): a missing
      or rejected `cmap`, or a present `hhea` with a wrong version. */
  predicate MappingRejected(d: seq<byte>, cm: Option<nat>, hhea: Option<nat>)
  {
    || cm.None? || CmapRejected(d, cm.value)
    || (CmapAccepted(d, cm.value) && hhea.Some? && HheaRejected(d, hhea.value))
  }

  /** All six table parsers of `ttf_parse` succeed. */
  predicate TablesAccepted(d: seq<byte>, head: Option<nat>, maxp: Option<nat>, loca: Option<nat>,
                           cm: Option<nat>, hhea: Option<nat>, hmtx: Option<nat>)
  {
    OutlineAccepted(d, head, maxp, loca) && MappingAccepted(d, cm, hhea, hmtx, U16At(d, maxp.value + 4))
  }

  /** The first table parser of `ttf_parse` that does not succeed answers ERR. */
  predicate TablesRejected(d: seq<byte>, head: Option<nat>, maxp: Option<nat>, loca: Option<nat>,
                           cm: Option<nat>, hhea: Option<nat>)
  {
    OutlineRejected(d, head, maxp, loca) || (OutlineAccepted(d, head, maxp, loca) && MappingRejected(d, cm, hhea))
  }

  /** A font at t that `ttf_parse` accepts: a TrueType header, a directory in the
      font, and every table the directory names last accepted. */
  predicate FontAccepted(d: seq<byte>, t: nat)
  {
    && DirectoryFits(d, t) && U32At(d, t) == TagTrueType
    && TablesAccepted(d, Table(d, t, TagHead), Table(d, t, TagMaxp), Table(d, t, TagLoca),
                      Table(d, t, TagCmap), Table(d, t, TagHhea), Table(d, t, TagHmtx))
  }

  /** A font at t that `ttf_parse` refuses with ERR: another sfnt version, or a
      table the directory names found wrong before any read leaves the font. */
  predicate FontRejected(d: seq<byte>, t: nat)
  {
    t + 4 <= |d|
    && (U32At(d, t) != TagTrueType
        || (DirectoryFits(d, t)
            && TablesRejected(d, Table(d, t, TagHead), Table(d, t, TagMaxp), Table(d, t, TagLoca),
                              Table(d, t, TagCmap), Table(d, t, TagHhea))))
  }

  /** As written, `ttf_parse_loca` reads numGlyphs entries (truetype.c:157), so
      for the last glyph the end offset, entry numGlyphs, was never read: the
      entries read do not bound it. */
  lemma LocaAsWrittenMissesLastEnd(d: seq<byte>, t: nat, long: bool, numGlyphs: nat)
    requires numGlyphs > 0 && t + LocaSize(long) * numGlyphs <= |d|
    ensures var index := numGlyphs - 1; !(index + 1 < |LocaEntries(d, t, long, numGlyphs)|)
  {
  }

  /** With the numGlyphs + 1 entries the format stores, every glyph has both of
      its offsets, and a glyph is empty exactly when they are equal. */
  lemma LocaBoundsEveryGlyph(d: seq<byte>, t: nat, long: bool, numGlyphs: nat, index: nat)
    requires t + LocaSize(long) * (numGlyphs + 1) <= |d| && index < numGlyphs
    ensures index + 1 < |LocaEntries(d, t, long, numGlyphs + 1)|
    ensures var e := LocaEntries(d, t, long, numGlyphs + 1);
      e[index] == (if long then U32At(d, t + 4 * index) else 2 * U16At(d, t + 2 * index))
      && e[index + 1] == (if long then U32At(d, t + 4 * (index + 1)) else 2 * U16At(d, t + 2 * (index + 1)))
  {
  }

  /** The records of a composite glyph from p on, one after the other: the
      position after the last of `cs`, or `None` when they are not there. */
  function ChainEnd(d: seq<byte>, p: nat, cs: seq<Component>): Option<nat>
    decreases |cs|
  {
    if cs == [] then Some(p)
    else
      match ChainEnd(d, p, cs[..|cs| - 1])
      case None => None
      case Some(q) =>
        match ComponentAt(d, q)
        case None => None
        case Some((c, e)) => if c == cs[|cs| - 1] then Some(e) else None
  }

  /** A record read where the chain ends extends the chain. */
  lemma ChainExtend(d: seq<byte>, p: nat, cs: seq<Component>, q: nat, c: Component, e: nat)
    requires ChainEnd(d, p, cs) == Some(q) && ComponentAt(d, q) == Some((c, e))
    ensures ChainEnd(d, p, cs + [c]) == Some(e)
  {
    assert (cs + [c])[..|cs|] == cs;
  }

  /** The components of one more part are those before and its own. */
  lemma CompsExtend(parts: seq<Part>, part: Part)
    ensures Comps(parts + [part]) == Comps(parts) + [part.comp]
  {
  }

  function Comps(parts: seq<Part>): (r: seq<Component>)
    ensures |r| == |parts| && forall i :: 0 <= i < |parts| ==> r[i] == parts[i].comp
  {
    seq(|parts|, i requires 0 <= i < |parts| => parts[i].comp)
  }

  /** The records of a composite glyph: all but the last ask for more
      components, and every one gives its arguments as x and y offsets. */
  predicate ComponentsFlagged(parts: seq<Part>)
  {
    |parts| > 0
    && (forall i :: 0 <= i < |parts| - 1 ==> Has(parts[i].comp.flags, MoreComponents))
    && !Has(parts[|parts| - 1].comp.flags, MoreComponents)
    && (forall i :: 0 <= i < |parts| ==> Has(parts[i].comp.flags, ArgsAreXyValues))
  }

  /** What `parse_compound_glyf` knows after some records, its components'
      flags and the chain they form from p0 to q. */
  predicate ChainSoFar(d: seq<byte>, p0: nat, parts: seq<Part>, q: nat)
  {
    && ChainEnd(d, p0, Comps(parts)) == Some(q)
    && (parts != [] ==> q <= |d| && forall i :: 0 <= i < |parts| - 1 ==> Has(parts[i].comp.flags, MoreComponents))
    && (forall i :: 0 <= i < |parts| ==> Has(parts[i].comp.flags, ArgsAreXyValues))
  }

  /** One more record read where the chain ends, asked for by the one before,
      keeps the chain. */
  lemma ChainStep(d: seq<byte>, p0: nat, parts: seq<Part>, q: nat, c: Component, e: nat, child: Glyph)
    requires ChainSoFar(d, p0, parts, q) && ComponentAt(d, q) == Some((c, e))
    requires parts != [] ==> Has(parts[|parts| - 1].comp.flags, MoreComponents)
    requires Has(c.flags, ArgsAreXyValues)
    ensures ChainSoFar(d, p0, parts + [Part(c, child)], e)
  {
    var next := parts + [Part(c, child)];
    assert ChainEnd(d, p0, Comps(next)) == Some(e) by {
      ChainExtend(d, p0, Comps(parts), q, c, e);
      CompsExtend(parts, Part(c, child));
    }
    forall i | 0 <= i < |next| - 1
      ensures Has(next[i].comp.flags, MoreComponents)
    {
      assert next[i] == parts[i];
    }
    forall i | 0 <= i < |next|
      ensures Has(next[i].comp.flags, ArgsAreXyValues)
    {
      if i < |parts| {
        assert next[i] == parts[i];
      }
    }
  }

  /** What `ttf_parse_glyf` decodes from the glyph description at p: the
      box of its header, then for a non-negative contour count the simple
      outline after it, and for a negative one the composite of the parts
      whose records follow the header. */
  predicate GlyphAt(d: seq<byte>, p: nat, g: Glyph, parts: seq<Part>)
  {
    && p + 10 <= |d|
    && g.bbox == BBox(AsI16(U16At(d, p + 2)), AsI16(U16At(d, p + 4)), AsI16(U16At(d, p + 6)), AsI16(U16At(d, p + 8)))
    && var nc := AsI16(U16At(d, p));
    && (nc >= 0 ==>
          var s := DecodeSimple(d, p + 10, nc as nat);
          s.Some? && g == Glyph(nc, g.bbox, s.value.points, s.value.endpoints))
    && (nc < 0 ==>
          && PartsDecoded(parts) && ContourTotal(parts) < 0x8000 && g == Compound(g.bbox, parts)
          && ComponentsFlagged(parts) && ChainEnd(d, p + 10, Comps(parts)).Some?)
  }

  /** The outcome of decoding the glyph description at p, as far as the bytes
      fix it: `Undefined` when the 10-byte header is not in the font, and for a
      non-negative contour count `OK` exactly when `DecodeSimple` succeeds and
      `Undefined` otherwise. */
  predicate SimpleOutcome(d: seq<byte>, p: nat, r: Outcome)
  {
    && (p + 10 > |d| ==> r == Undefined)
    && (p + 10 <= |d| && AsI16(U16At(d, p)) >= 0 ==>
          (r == OK || r == Undefined) && (r == OK <==> DecodeSimple(d, p + 10, AsI16(U16At(d, p)) as nat).Some?))
  }

  // ---------------------------------------------------------------------------
  // The reader

  /** `struct ttf_reader`. */
  class TtfReader {
    const data: seq<byte>
    var cursor: Option<nat>
    var glyphs: Option<nat>
    var hmetrics: seq<HMetric>
    var cmap: Option<Cmap4>
    var locations: seq<u32>
    var numGlyphs: u16
    var numHmetrics: i16
    var unitsPerEm: u16

    /** `{ .data = data, .cursor = data }` (fonter.c:209): the cursor on the first
        byte, nothing parsed yet. */
    constructor (data: seq<byte>)
      ensures this.data == data && cursor == Some(0)
      ensures glyphs.None? && hmetrics == [] && cmap.None? && locations == []
      ensures numGlyphs == 0 && numHmetrics == 0 && unitsPerEm == 0
    {
      this.data := data;
      cursor := Some(0);
      glyphs := None;
      hmetrics := [];
      cmap := None;
      locations := [];
      numGlyphs := 0;
      numHmetrics := 0;
      unitsPerEm := 0;
    }

    /** The next n bytes are in the font. */
    predicate Fits(n: nat)
      reads this
    {
      cursor.Some? && cursor.value + n <= |data|
    }

    // --- Scalars, most significant byte first

    /** `read_8` */
    method Read8() returns (v: byte)
      requires Fits(1)
      modifies this`cursor
      ensures cursor == Some(old(cursor).value + 1)
      ensures v == data[old(cursor).value]
    {
      v := data[cursor.value];
      cursor := Some(cursor.value + 1);
    }

    /** `read_16`: `ms << 8 | ls`. */
    method Read16() returns (v: u16)
      requires Fits(2)
      modifies this`cursor
      ensures cursor == Some(old(cursor).value + 2)
      ensures v == U16At(data, old(cursor).value)
    {
      var ms := Read8();
      var ls := Read8();
      Pow2Shifts();
      OrDisjoint(ms, ls, 8);
      v := BitOr(ms as nat * 0x100, ls);
    }

    /** `read_32`: `ms << 16 | ls`. */
    method Read32() returns (v: u32)
      requires Fits(4)
      modifies this`cursor
      ensures cursor == Some(old(cursor).value + 4)
      ensures v == U32At(data, old(cursor).value)
    {
      var ms := Read16();
      var ls := Read16();
      Pow2Shifts();
      OrDisjoint(ms, ls, 16);
      v := BitOr(ms as nat * 0x1_0000, ls);
    }

    /** `read_date`: `ms << 32 | ls`. */
    method ReadDate() returns (v: u64)
      requires Fits(8)
      modifies this`cursor
      ensures cursor == Some(old(cursor).value + 8)
      ensures v == U64At(data, old(cursor).value)
    {
      var ms := Read32();
      var ls := Read32();
      Pow2Shifts();
      OrDisjoint(ms, ls, 32);
      v := BitOr(ms as nat * 0x1_0000_0000, ls);
    }

    /** Fields read and dropped. */
    method Skip(n: nat)
      requires Fits(n)
      modifies this`cursor
      ensures cursor == Some(old(cursor).value + n)
    {
      cursor := Some(cursor.value + n);
    }

    /** `read_f2dot14`: the word as a signed 2.14 number. */
    method ReadF2Dot14() returns (v: real)
      requires Fits(2)
      modifies this`cursor
      ensures cursor == Some(old(cursor).value + 2)
      ensures v == F2Dot14(U16At(data, old(cursor).value))
    {
      var w := Read16();
      v := AsI16(w) as real / 16384.0;
    }

    /** `read_bbox`: four words, converted to `int16_t`, in the order xMin, yMin,
        xMax, yMax. */
    method ReadBbox() returns (b: BBox)
      requires Fits(8)
      modifies this`cursor
      ensures cursor == Some(old(cursor).value + 8)
      ensures var t := old(cursor).value;
        b == BBox(AsI16(U16At(data, t)), AsI16(U16At(data, t + 2)), AsI16(U16At(data, t + 4)), AsI16(U16At(data, t + 6)))
    {
      var xMin := Read16();
      var yMin := Read16();
      var xMax := Read16();
      var yMax := Read16();
      b := BBox(AsI16(xMin), AsI16(yMin), AsI16(xMax), AsI16(yMax));
    }

    // --- Tables

    /** `ttf_parse_head`: checks version and magic number, keeps the units per
        em and passes the loca format out. */
    method ParseHead() returns (r: Outcome, locFormat: i16)
      modifies this`cursor, this`unitsPerEm
      ensures r == OK || r == ERR || r == Undefined
      ensures old(cursor).None? ==> r == ERR
      ensures old(cursor).Some? ==> (r == OK <==> HeadAccepted(data, old(cursor).value))
      ensures old(cursor).Some? ==> (r == ERR <==> HeadRejected(data, old(cursor).value))
      ensures r == OK ==> (cursor == Some(old(cursor).value + 52)
        && unitsPerEm == U16At(data, old(cursor).value + 18)
        && locFormat == AsI16(U16At(data, old(cursor).value + 50)))
      ensures r == ERR ==> unitsPerEm == old(unitsPerEm)
    {
      locFormat := 0;
      if cursor.None? {
        return ERR, locFormat;
      }
      if !Fits(4) {
        return Undefined, locFormat;
      }
      var version := Read32();
      if version != 0x1_0000 {
        return ERR, locFormat;
      }
      if !Fits(12) {
        return Undefined, locFormat;
      }
      Skip(8); // font revision, checksum adjustment
      var magic := Read32();
      if magic != 0x5F0F_3CF5 {
        return ERR, locFormat;
      }
      if !Fits(36) {
        return Undefined, locFormat;
      }
      Skip(2); // flags
      unitsPerEm := Read16();
      Skip(16 + 8 + 6); // the two dates, the bounding box, mac style, smallest PPEM, direction hint
      var w := Read16();
      locFormat := AsI16(w);
      r := OK;
    }

    /** `ttf_parse_maxp`: checks the version and keeps the glyph count. */
    method ParseMaxp() returns (r: Outcome)
      modifies this`cursor, this`numGlyphs
      ensures r == OK || r == ERR || r == Undefined
      ensures old(cursor).None? ==> r == ERR
      ensures old(cursor).Some? ==> (r == OK <==> MaxpAccepted(data, old(cursor).value))
      ensures old(cursor).Some? ==> (r == ERR <==> MaxpRejected(data, old(cursor).value))
      ensures r == OK ==> cursor == Some(old(cursor).value + 6) && numGlyphs == U16At(data, old(cursor).value + 4)
      ensures r != OK ==> numGlyphs == old(numGlyphs)
    {
      if cursor.None? {
        return ERR;
      }
      if !Fits(4) {
        return Undefined;
      }
      var version := Read32();
      if version != 0x1_0000 {
        return ERR;
      }
      if !Fits(2) {
        return Undefined;
      }
      numGlyphs := Read16();
      r := OK;
    }

    /** The loop of `ttf_parse_loca` over `count` entries. */
    method ReadLocations(long: bool, count: nat) returns (r: Outcome)
      requires cursor.Some?
      modifies this`cursor, this`locations
      ensures r == OK || r == Undefined
      ensures r == OK <==> old(cursor).value + LocaSize(long) * count <= |data|
      ensures r == OK ==> (cursor == Some(old(cursor).value + LocaSize(long) * count)
        && locations == LocaEntries(data, old(cursor).value, long, count))
    {
      ghost var t := cursor.value;
      if !Fits(LocaSize(long) * count) {
        return Undefined;
      }
      locations := [];
      var i := 0;
      while i < count
        invariant 0 <= i <= count
        invariant cursor == Some(t + LocaSize(long) * i)
        invariant locations == LocaEntries(data, t, long, i)
      {
        var e: u32;
        if !long {
          var w := Read16();
          e := w as int * 2;
        } else {
          e := Read32();
        }
        locations := locations + [e];
        i := i + 1;
      }
      r := OK;
    }

    /** `ttf_parse_loca` as written: numGlyphs entries. */
    method ParseLocaAsWritten(locFormat: u16) returns (r: Outcome)
      modifies this`cursor, this`locations
      ensures r == OK || r == ERR || r == Undefined
      ensures r == ERR <==> old(cursor).None?
      ensures r == OK ==> (old(cursor).value + LocaSize(locFormat != 0) * numGlyphs as nat <= |data|
        && locations == LocaEntries(data, old(cursor).value, locFormat != 0, numGlyphs as nat))
    {
      if cursor.None? {
        return ERR;
      }
      r := ReadLocations(locFormat != 0, numGlyphs as nat);
    }

    /** `ttf_parse_loca` reading the numGlyphs + 1 entries of the table, so that
        every glyph has an end offset: short entries doubled, long ones as they
        are. */
    method ParseLoca(locFormat: u16) returns (r: Outcome)
      modifies this`cursor, this`locations
      ensures r == OK || r == ERR || r == Undefined
      ensures r == ERR <==> old(cursor).None?
      ensures old(cursor).Some? ==>
        (r == OK <==> old(cursor).value + LocaSize(locFormat != 0) * (numGlyphs as nat + 1) <= |data|)
      ensures r == OK ==> (|locations| == numGlyphs as int + 1
        && locations == LocaEntries(data, old(cursor).value, locFormat != 0, numGlyphs as nat + 1))
    {
      if cursor.None? {
        return ERR;
      }
      r := ReadLocations(locFormat != 0, numGlyphs as nat + 1);
    }

    /** The encoding-record loop of `ttf_parse_cmap`: the first BMP record. */
    method FindSubtable(numTables: u16) returns (r: Search)
      requires cursor.Some?
      modifies this`cursor
      ensures r == FindBmp(data, old(cursor).value, numTables)
    {
      ghost var p := cursor.value;
      var i := 0;
      while i < numTables
        invariant 0 <= i <= numTables
        invariant cursor == Some(p + 8 * i)
        invariant FindBmp(data, p, numTables) == FindBmp(data, p + 8 * i, numTables - i)
      {
        if !Fits(8) {
          return Truncated;
        }
        var ids := Read32();
        var offset := Read32();
        if ids == 3 {
          return Found(offset);
        }
        i := i + 1;
      }
      r := NotFound;
    }

    /** `ttf_parse_cmap`: version 0, the first Unicode BMP record, then the
        subtable it names. */
    method ParseCmap() returns (r: Outcome)
      modifies this`cursor, this`cmap
      ensures r == OK || r == ERR || r == Undefined
      ensures old(cursor).None? ==> r == ERR
      ensures old(cursor).Some? ==> (r == OK <==> CmapAccepted(data, old(cursor).value))
      ensures old(cursor).Some? ==> (r == ERR <==> CmapRejected(data, old(cursor).value))
      ensures r == OK ==> cmap == Some(Subtable(data, SubtableAt(data, old(cursor).value)))
      ensures r != OK ==> cmap == old(cmap)
    {
      if cursor.None? {
        return ERR;
      }
      var start := cursor.value;
      if !Fits(2) {
        return Undefined;
      }
      var version := Read16();
      if version != 0 {
        return ERR;
      }
      if !Fits(2) {
        return Undefined;
      }
      var numTables := Read16();
      var found := FindSubtable(numTables);
      if found.Truncated? {
        return Undefined;
      }
      if found.NotFound? {
        return ERR;
      }
      cursor := Some(start + found.offset);
      r := ParseSubtable();
    }

    /** The format 4 part of `ttf_parse_cmap`, from the subtable on: its
        segment count and the words after its header. */
    method ParseSubtable() returns (r: Outcome)
      requires cursor.Some?
      modifies this`cursor, this`cmap
      ensures r == OK || r == ERR || r == Undefined
      ensures r == OK <==> SubtableAccepted(data, old(cursor).value)
      ensures r == ERR <==> SubtableRejected(data, old(cursor).value)
      ensures r == OK ==> cmap == Some(Subtable(data, old(cursor).value))
      ensures r != OK ==> cmap == old(cmap)
    {
      var subtable := cursor.value;
      if !Fits(2) {
        return Undefined;
      }
      var format := Read16();
      if format != 4 {
        return ERR;
      }
      if !Fits(12) {
        return Undefined;
      }
      var length := Read16();
      Skip(2); // language
      var segCountX2 := Read16();
      var segCount := segCountX2 / 2;
      Skip(6); // search range, entry selector, range shift
      if length < 14 {
        // subtable + length - cursor wraps around as a size_t
        return Undefined;
      }
      var tailLen := subtable + length - cursor.value;
      if !Fits(2 * (tailLen / 2)) {
        return Undefined;
      }
      var tail: seq<u16> := [];
      var i := 0;
      while i < tailLen / 2
        invariant 0 <= i <= tailLen / 2
        invariant cursor == Some(subtable + 14 + 2 * i)
        invariant tail == Words(data, subtable + 14, i)
      {
        var w := Read16();
        tail := tail + [w];
        i := i + 1;
      }
      cmap := Some(Cmap4(segCount, tail));
      r := OK;
    }

    /** `ttf_parse_hhea`: checks the version and keeps `numberOfHMetrics`, 34
        bytes in. The C does not test for a missing table. */
    method ParseHhea() returns (r: Outcome)
      modifies this`cursor, this`numHmetrics
      ensures r == OK || r == ERR || r == Undefined
      ensures old(cursor).None? ==> r == Undefined
      ensures old(cursor).Some? ==> (r == OK <==> HheaAccepted(data, old(cursor).value))
      ensures old(cursor).Some? ==> (r == ERR <==> HheaRejected(data, old(cursor).value))
      ensures r == OK ==> (cursor == Some(old(cursor).value + 36)
        && numHmetrics == AsI16(U16At(data, old(cursor).value + 34)))
      ensures r != OK ==> numHmetrics == old(numHmetrics)
    {
      if !Fits(4) {
        return Undefined;
      }
      var version := Read32();
      if version != 0x1_0000 {
        return ERR;
      }
      cursor := Some(cursor.value + 30);
      if !Fits(2) {
        return Undefined;
      }
      var w := Read16();
      numHmetrics := AsI16(w);
      r := OK;
    }

    /** `ttf_parse_hmtx` as written: the buffer holds numHmetrics entries, so
        every glyph past them is stored outside it. */
    method ParseHmtxAsWritten() returns (r: Outcome)
      modifies this`cursor, this`hmetrics
      ensures r == OK || r == Undefined
      ensures numGlyphs as int > LongMetrics(numHmetrics) ==> r == Undefined
      ensures r == OK ==> HmtxLoaded(data, old(cursor), numHmetrics, numGlyphs, hmetrics)
    {
      if numGlyphs as int > LongMetrics(numHmetrics) {
        return Undefined;
      }
      r := ParseHmtx();
    }

    /** `ttf_parse_hmtx` with a buffer of one entry per glyph: numHmetrics
        explicit pairs, then for each further glyph the previous advance and a
        bearing read from the table. */
    method ParseHmtx() returns (r: Outcome)
      modifies this`cursor, this`hmetrics
      ensures r == OK || r == Undefined
      ensures var n1 := LongMetrics(numHmetrics);
        r == Undefined <==>
          (numGlyphs as int > n1 && n1 == 0)
          || (MetricCount(n1, numGlyphs) > 0
              && (old(cursor).None? || old(cursor).value + HmtxBytes(n1, numGlyphs) > |data|))
      ensures r == OK ==> HmtxLoaded(data, old(cursor), numHmetrics, numGlyphs, hmetrics)
    {
      var n1 := LongMetrics(numHmetrics);
      if numGlyphs as int > n1 && n1 == 0 {
        // hmetrics[i - 1] with i == 0
        return Undefined;
      }
      if MetricCount(n1, numGlyphs) == 0 {
        hmetrics := [];
        return OK;
      }
      if !Fits(HmtxBytes(n1, numGlyphs)) {
        return Undefined;
      }
      ghost var t := cursor.value;
      hmetrics := [];
      ReadLongMetrics(n1, numGlyphs as nat);
      ReadShortMetrics(n1, numGlyphs as nat, t);
      r := OK;
    }

    /** The first loop of `ttf_parse_hmtx`: the n1 advance and bearing pairs. */
    method ReadLongMetrics(n1: nat, numGlyphs: nat)
      requires cursor.Some? && cursor.value + HmtxBytes(n1, numGlyphs) <= |data| && (numGlyphs > n1 ==> n1 > 0)
      requires hmetrics == []
      modifies this`cursor, this`hmetrics
      ensures cursor == Some(old(cursor).value + 4 * n1)
      ensures hmetrics == Hmtx(data, old(cursor).value, n1, numGlyphs)[..n1]
    {
      ghost var t := cursor.value;
      ghost var spec := Hmtx(data, t, n1, numGlyphs);
      var i := 0;
      while i < n1
        invariant 0 <= i <= n1
        invariant cursor == Some(t + 4 * i)
        invariant hmetrics == spec[..i]
      {
        var advanceWidth := Read16();
        var leftSideBearing := Read16();
        hmetrics := hmetrics + [HMetric(advanceWidth, leftSideBearing)];
        i := i + 1;
      }
    }

    /** The second loop of `ttf_parse_hmtx`: each further glyph takes the
        previous advance and reads its bearing. */
    method ReadShortMetrics(n1: nat, numGlyphs: nat, ghost t: nat)
      requires t + HmtxBytes(n1, numGlyphs) <= |data| && (numGlyphs > n1 ==> n1 > 0)
      requires cursor == Some(t + 4 * n1) && hmetrics == Hmtx(data, t, n1, numGlyphs)[..n1]
      modifies this`cursor, this`hmetrics
      ensures hmetrics == Hmtx(data, t, n1, numGlyphs)
    {
      ghost var spec := Hmtx(data, t, n1, numGlyphs);
      var i := n1;
      while i < numGlyphs
        invariant n1 <= i <= MetricCount(n1, numGlyphs)
        invariant cursor == Some(t + 4 * n1 + 2 * (i - n1))
        invariant hmetrics == spec[..i]
      {
        var leftSideBearing := Read16();
        hmetrics := hmetrics + [HMetric(hmetrics[i - 1].advanceWidth, leftSideBearing)];
        i := i + 1;
      }
      assert spec[..MetricCount(n1, numGlyphs)] == spec;
    }

    /** The record loop of `ttf_parse`: the last record of each table wins. */
    method ReadDirectory(numTables: u16)
      returns (r: Outcome, head: Option<nat>, maxp: Option<nat>, hhea: Option<nat>, hmtx: Option<nat>,
               cmapTable: Option<nat>, loca: Option<nat>, glyf: Option<nat>)
      requires cursor.Some?
      modifies this`cursor
      ensures r == OK || r == Undefined
      ensures r == OK <==> old(cursor).value + 16 * numTables <= |data|
      ensures r == OK ==>
        var p := old(cursor).value;
        && head == LastRecord(data, p, numTables, TagHead)
        && maxp == LastRecord(data, p, numTables, TagMaxp)
        && hhea == LastRecord(data, p, numTables, TagHhea)
        && hmtx == LastRecord(data, p, numTables, TagHmtx)
        && cmapTable == LastRecord(data, p, numTables, TagCmap)
        && loca == LastRecord(data, p, numTables, TagLoca)
        && glyf == LastRecord(data, p, numTables, TagGlyf)
    {
      head, maxp, hhea, hmtx, cmapTable, loca, glyf := None, None, None, None, None, None, None;
      ghost var p := cursor.value;
      if !Fits(16 * numTables) {
        return Undefined, head, maxp, hhea, hmtx, cmapTable, loca, glyf;
      }
      var i := 0;
      while i < numTables
        invariant 0 <= i <= numTables
        invariant cursor == Some(p + 16 * i)
        invariant head == LastRecord(data, p, i, TagHead)
        invariant maxp == LastRecord(data, p, i, TagMaxp)
        invariant hhea == LastRecord(data, p, i, TagHhea)
        invariant hmtx == LastRecord(data, p, i, TagHmtx)
        invariant cmapTable == LastRecord(data, p, i, TagCmap)
        invariant loca == LastRecord(data, p, i, TagLoca)
        invariant glyf == LastRecord(data, p, i, TagGlyf)
      {
        var tag := Read32();
        var _ := Read32(); // checksum
        var offset := Read32();
        var _ := Read32(); // length
        var table := Some(offset);
        if tag == TagHead { head := table; }
        else if tag == TagMaxp { maxp := table; }
        else if tag == TagHhea { hhea := table; }
        else if tag == TagHmtx { hmtx := table; }
        else if tag == TagCmap { cmapTable := table; }
        else if tag == TagLoca { loca := table; }
        else if tag == TagGlyf { glyf := table; }
        i := i + 1;
      }
      r := OK;
    }

    /** `ttf_parse`: the sfnt version (TrueType outlines only: a collection or a
        CFF font is refused), the table directory, then head, maxp, loca, cmap,
        hhea and hmtx in that order, stopping at the first that fails, and the
        position of glyf. */
    method Parse() returns (r: Outcome)
      modifies this
      ensures r == OK || r == ERR || r == Undefined
      ensures old(cursor).None? ==> r == Undefined
      ensures old(cursor).Some? && old(cursor).value + 4 <= |data| && U32At(data, old(cursor).value) != TagTrueType
        ==> r == ERR
      ensures (old(cursor).Some? && DirectoryFits(data, old(cursor).value) && U32At(data, old(cursor).value) == TagTrueType
        && Table(data, old(cursor).value, TagHead).None?) ==> r == ERR
      ensures old(cursor).Some? ==> (r == OK <==> FontAccepted(data, old(cursor).value))
      ensures old(cursor).Some? ==> (r == ERR <==> FontRejected(data, old(cursor).value))
      ensures r == OK ==> old(cursor).Some? && Loaded(old(cursor).value)
    {
      if !Fits(4) {
        return Undefined;
      }
      ghost var t := cursor.value;
      var magic := Read32();
      if magic != TagTrueType {
        // TAG_truetypecollection and every other tag
        return ERR;
      }
      r := ParseDirectory(t);
    }

    /** The rest of `ttf_parse` once the sfnt version of the font at t is
        TrueType: the table count, the directory, the table parsers, and the
        position of glyf. */
    method ParseDirectory(ghost t: nat) returns (r: Outcome)
      requires cursor == Some(t + 4) && t + 4 <= |data| && U32At(data, t) == TagTrueType
      modifies this
      ensures r == OK || r == ERR || r == Undefined
      ensures r == OK <==> FontAccepted(data, t)
      ensures r == ERR <==>
        (DirectoryFits(data, t)
         && TablesRejected(data, Table(data, t, TagHead), Table(data, t, TagMaxp), Table(data, t, TagLoca),
                           Table(data, t, TagCmap), Table(data, t, TagHhea)))
      ensures DirectoryFits(data, t) && Table(data, t, TagHead).None? ==> r == ERR
      ensures r == OK ==> Loaded(t)
    {
      if !Fits(8) {
        return Undefined;
      }
      var numTables := Read16();
      Skip(6); // search range, entry selector, range shift
      var dr, head, maxp, hhea, hmtx, cmapTable, loca, glyf := ReadDirectory(numTables);
      if dr != OK {
        return dr;
      }
      assert DirectoryFits(data, t);
      assert head == Table(data, t, TagHead) && maxp == Table(data, t, TagMaxp) && loca == Table(data, t, TagLoca);
      assert cmapTable == Table(data, t, TagCmap) && hhea == Table(data, t, TagHhea) && hmtx == Table(data, t, TagHmtx);
      r := LoadTables(head, maxp, loca, cmapTable, hhea, hmtx);
      if r != OK {
        return;
      }
      glyphs := glyf;
    }

    /** The table parsers of `ttf_parse` in order, each on the table the
        directory gave, stopping at the first that fails. */
    method LoadTables(head: Option<nat>, maxp: Option<nat>, loca: Option<nat>, cm: Option<nat>, hhea: Option<nat>, hmtx: Option<nat>)
      returns (r: Outcome)
      modifies this`cursor, this`unitsPerEm, this`numGlyphs, this`locations, this`cmap, this`numHmetrics, this`hmetrics
      ensures r == OK || r == ERR || r == Undefined
      ensures head.None? ==> r == ERR
      ensures r == OK <==> TablesAccepted(data, head, maxp, loca, cm, hhea, hmtx)
      ensures r == ERR <==> TablesRejected(data, head, maxp, loca, cm, hhea)
      ensures r == OK ==> TablesLoaded(head, maxp, loca, cm, hhea, hmtx)
    {
      r := LoadOutlineTables(head, maxp, loca);
      if r != OK {
        return;
      }
      r := LoadMappingTables(cm, hhea, hmtx);
    }

    /** head, maxp and loca: the first half of `ttf_parse`'s table parsers. */
    method LoadOutlineTables(head: Option<nat>, maxp: Option<nat>, loca: Option<nat>) returns (r: Outcome)
      modifies this`cursor, this`unitsPerEm, this`numGlyphs, this`locations
      ensures r == OK || r == ERR || r == Undefined
      ensures head.None? ==> r == ERR
      ensures r == OK <==> OutlineAccepted(data, head, maxp, loca)
      ensures r == ERR <==> OutlineRejected(data, head, maxp, loca)
      ensures r == OK ==> OutlineTablesLoaded(head, maxp, loca)
    {
      cursor := head;
      var hr, locFormat := ParseHead();
      if hr != OK {
        return hr;
      }
      cursor := maxp;
      r := ParseMaxp();
      if r != OK {
        return;
      }
      cursor := loca;
      r := ParseLoca(locFormat as int % 0x1_0000);
    }

    /** cmap, hhea and hmtx: the second half of `ttf_parse`'s table parsers. */
    method LoadMappingTables(cm: Option<nat>, hhea: Option<nat>, hmtx: Option<nat>) returns (r: Outcome)
      modifies this`cursor, this`cmap, this`numHmetrics, this`hmetrics
      ensures r == OK || r == ERR || r == Undefined
      ensures r == OK <==> MappingAccepted(data, cm, hhea, hmtx, numGlyphs)
      ensures r == ERR <==> MappingRejected(data, cm, hhea)
      ensures r == OK ==> MappingTablesLoaded(cm, hhea, hmtx)
    {
      cursor := cm;
      r := ParseCmap();
      if r != OK {
        return;
      }
      cursor := hhea;
      r := ParseHhea();
      if r != OK {
        return;
      }
      cursor := hmtx;
      r := ParseHmtx();
    }

    /** The fields the table parsers fill, each from its table. */
    ghost predicate TablesLoaded(head: Option<nat>, maxp: Option<nat>, loca: Option<nat>, cm: Option<nat>, hhea: Option<nat>, hmtx: Option<nat>)
      reads this`unitsPerEm, this`numGlyphs, this`locations, this`cmap, this`numHmetrics, this`hmetrics
    {
      OutlineTablesLoaded(head, maxp, loca) && MappingTablesLoaded(cm, hhea, hmtx)
    }

    /** The units per em, the glyph count and the glyph offsets, from head,
        maxp and loca. */
    ghost predicate OutlineTablesLoaded(head: Option<nat>, maxp: Option<nat>, loca: Option<nat>)
      reads this`unitsPerEm, this`numGlyphs, this`locations
    {
      && head.Some? && HeadAccepted(data, head.value) && unitsPerEm == U16At(data, head.value + 18)
      && maxp.Some? && MaxpAccepted(data, maxp.value) && numGlyphs == U16At(data, maxp.value + 4)
      && var long := U16At(data, head.value + 50) != 0;
      && loca.Some? && loca.value + LocaSize(long) * (numGlyphs as nat + 1) <= |data|
      && locations == LocaEntries(data, loca.value, long, numGlyphs as nat + 1)
    }

    /** The character map and the horizontal metrics, from cmap, hhea and hmtx. */
    ghost predicate MappingTablesLoaded(cm: Option<nat>, hhea: Option<nat>, hmtx: Option<nat>)
      reads this`numGlyphs, this`cmap, this`numHmetrics, this`hmetrics
    {
      && cm.Some? && CmapAccepted(data, cm.value) && cmap == Some(Subtable(data, SubtableAt(data, cm.value)))
      && hhea.Some? && HheaAccepted(data, hhea.value) && numHmetrics == AsI16(U16At(data, hhea.value + 34))
      && HmtxLoaded(data, hmtx, numHmetrics, numGlyphs, hmetrics)
    }

    /** The reader after a successful `ttf_parse` of the font whose header is at
        t: every field comes from the table the directory names last. */
    ghost predicate Loaded(t: nat)
      reads this
    {
      && DirectoryFits(data, t) && U32At(data, t) == TagTrueType
      && TablesLoaded(Table(data, t, TagHead), Table(data, t, TagMaxp), Table(data, t, TagLoca),
                      Table(data, t, TagCmap), Table(data, t, TagHhea), Table(data, t, TagHmtx))
      && glyphs == Table(data, t, TagGlyf)
    }

    // --- Glyph outlines

    /** `ttf_parse_coordinates`: one pass over the flags for one axis, storing
        each point's coordinate and on-curve bit and leaving the other axis. */
    method ParseCoordinates(fs: seq<byte>, a: Axis, out: array<ContourPoint>) returns (r: Outcome)
      requires cursor.Some? && out.Length == |fs|
      modifies this`cursor, out
      ensures r == OK || r == Undefined
      ensures r == OK <==> old(cursor).value + AxisBytes(fs, a) <= |data|
      ensures r == OK ==> (cursor == Some(old(cursor).value + AxisBytes(fs, a))
        && out[..] == StoredPass(old(out[..]), a, Coords(data, old(cursor).value, fs, a), fs))
    {
      ghost var t := cursor.value;
      if !Fits(AxisBytes(fs, a)) {
        return Undefined;
      }
      ghost var cs := Coords(data, t, fs, a);
      ghost var init := out[..];
      var i := 0;
      while i < |fs|
        invariant 0 <= i <= |fs|
        invariant cursor == Some(t + AxisBytes(fs[..i], a))
        invariant PassSoFar(out[..], init, a, cs, fs, i)
      {
        StoreCoordinate(fs, a, out, i, t, cs, init);
        i := i + 1;
      }
      assert fs[..|fs|] == fs;
      PassComplete(out[..], init, a, cs, fs);
      r := OK;
    }

    /** One point of a coordinate pass: its delta read and added to the
        previous point's coordinate. */
    method StoreCoordinate(fs: seq<byte>, a: Axis, out: array<ContourPoint>, i: nat, ghost t: nat, ghost cs: seq<int>,
                           ghost init: seq<ContourPoint>)
      requires t + AxisBytes(fs, a) <= |data| && i < |fs| == out.Length && cs == Coords(data, t, fs, a)
      requires cursor == Some(t + AxisBytes(fs[..i], a))
      requires PassSoFar(out[..], init, a, cs, fs, i)
      modifies this`cursor, out
      ensures cursor == Some(t + AxisBytes(fs[..i + 1], a))
      ensures out[i] == Stored(old(out[i]), a, cs[i], fs[i])
      ensures forall k :: 0 <= k < out.Length && k != i ==> out[k] == old(out[k])
      ensures PassSoFar(out[..], init, a, cs, fs, i + 1)
    {
      assert i > 0 ==> out[..][i - 1] == Stored(init[i - 1], a, cs[i - 1], fs[i - 1]);
      AxisBytesStep(data, t, fs, a, i);
      CoordsAccumulate(data, t, fs, a, i);
      var flag := fs[i];
      var v := if i == 0 then 0 else Coord(out[i - 1], a);
      var delta := ReadDelta(flag, a);
      out[i] := Stored(out[i], a, v + delta, flag);
    }

    /** The delta of one point on one axis: a byte with the sign the flag
        gives, a signed word, or nothing when the coordinate repeats. */
    method ReadDelta(flag: byte, a: Axis) returns (delta: int)
      requires Fits(DeltaSize(flag, a))
      modifies this`cursor
      ensures cursor == Some(old(cursor).value + DeltaSize(flag, a))
      ensures delta == Delta(data, old(cursor).value, flag, a)
    {
      delta := 0;
      if Has(flag, ShortVector(a)) {
        var b := Read8();
        var sign: int := if Has(flag, SameOrPositive(a)) then 1 else -1;
        delta := b * sign;
      } else if !Has(flag, SameOrPositive(a)) {
        var w := Read16();
        delta := AsI16(w);
      }
    }

    /** The flag loop of `parse_simple_glyf`: flags are read, each repeated as
        its count says, until there are at least `want`. */
    method ReadFlags(want: nat) returns (r: Outcome, flags: seq<byte>)
      requires cursor.Some?
      modifies this`cursor
      ensures r == OK || r == Undefined
      ensures r == OK <==> Flags(data, old(cursor).value, want).Some?
      ensures r == OK ==> cursor.Some? && Flags(data, old(cursor).value, want) == Some((flags, cursor.value))
    {
      ghost var p := cursor.value;
      flags := [];
      PrependJoin([], [], Flags(data, p, want));
      while |flags| < want
        invariant cursor.Some?
        invariant Flags(data, p, want) == Prepend(flags, Flags(data, cursor.value, Remaining(want, |flags|)))
        decreases Remaining(want, |flags|)
      {
        ghost var q := cursor.value;
        ghost var before := flags;
        if !Fits(1) {
          return Undefined, flags;
        }
        var flag := Read8();
        var repeats: byte := 0;
        if Has(flag, RepeatFlag) {
          if !Fits(1) {
            return Undefined, flags;
          }
          repeats := Read8();
        }
        ghost var run := 1 + repeats as int;
        flags := flags + [flag];
        assert Repeat(flag, 1) == [flag];
        while repeats > 0
          invariant flags == before + Repeat(flag, run - repeats)
        {
          assert Repeat(flag, run - repeats + 1) == Repeat(flag, run - repeats) + [flag];
          flags := flags + [flag];
          repeats := repeats - 1;
        }
        assert Flags(data, q, Remaining(want, |before|))
            == Prepend(Repeat(flag, run), Flags(data, cursor.value, Remaining(Remaining(want, |before|), run)));
        assert Remaining(Remaining(want, |before|), run) == Remaining(want, |flags|);
        PrependJoin(before, Repeat(flag, run), Flags(data, cursor.value, Remaining(want, |flags|)));
      }
      assert flags + [] == flags;
      r := OK;
    }

    /** `parse_simple_glyf`: the glyph description with nc contours from the
        cursor on, as `DecodeSimple` states it. */
    method ParseSimpleGlyf(nc: nat) returns (r: Outcome, endpoints: seq<u16>, points: seq<ContourPoint>)
      requires cursor.Some?
      modifies this`cursor
      ensures r == OK || r == Undefined
      ensures r == OK <==> DecodeSimple(data, old(cursor).value, nc).Some?
      ensures r == OK ==> DecodeSimple(data, old(cursor).value, nc) == Some(Simple(endpoints, points))
    {
      ghost var p := cursor.value;
      points := [];
      r, endpoints := ReadEndpoints(nc);
      if r != OK {
        return;
      }
      if nc == 0 {
        // contour_endpoints[-1]
        return Undefined, endpoints, points;
      }
      var numPoints := endpoints[nc - 1] as int + 1;
      r, points := ReadPoints(numPoints);
    }

    /** The contour end points of a simple glyph, then its instructions, which
        are skipped. */
    method ReadEndpoints(nc: nat) returns (r: Outcome, endpoints: seq<u16>)
      requires cursor.Some?
      modifies this`cursor
      ensures r == OK || r == Undefined
      ensures r == OK <==> old(cursor).value + 2 * nc + 2 <= |data|
      ensures r == OK ==> (endpoints == Words(data, old(cursor).value, nc)
        && cursor == Some(old(cursor).value + 2 * nc + 2 + U16At(data, old(cursor).value + 2 * nc)))
    {
      ghost var p := cursor.value;
      endpoints := [];
      if !Fits(2 * nc + 2) {
        return Undefined, endpoints;
      }
      var i := 0;
      while i < nc
        invariant 0 <= i <= nc
        invariant cursor == Some(p + 2 * i)
        invariant endpoints == Words(data, p, i)
      {
        var w := Read16();
        endpoints := endpoints + [w];
        i := i + 1;
      }
      var instructionLen := Read16();
      cursor := Some(cursor.value + instructionLen);
      r := OK;
    }

    /** The flags and both coordinate passes of a simple glyph with numPoints
        points, as `DecodePoints` states them. */
    method ReadPoints(numPoints: nat) returns (r: Outcome, points: seq<ContourPoint>)
      requires cursor.Some?
      modifies this`cursor
      ensures r == OK || r == Undefined
      ensures r == OK <==> DecodePoints(data, old(cursor).value, numPoints).Some?
      ensures r == OK ==> DecodePoints(data, old(cursor).value, numPoints) == Some(points)
    {
      points := [];
      var fr, flags := ReadFlags(numPoints);
      if fr != OK {
        return Undefined, points;
      }
      if |flags| > numPoints {
        // the x pass stores points past the end of the buffer
        return Undefined, points;
      }
      assert Flags(data, old(cursor).value, numPoints) == Some((flags, cursor.value));
      r, points := ReadCoordinates(flags);
    }

    /** Both coordinate passes over a buffer of one point per flag. */
    method ReadCoordinates(flags: seq<byte>) returns (r: Outcome, points: seq<ContourPoint>)
      requires cursor.Some?
      modifies this`cursor
      ensures r == OK || r == Undefined
      ensures var e := old(cursor).value;
        r == OK <==> e + AxisBytes(flags, X) + AxisBytes(flags, Y) <= |data|
      ensures r == OK ==>
        var e := old(cursor).value;
        var xs := Coords(data, e, flags, X);
        var ys := Coords(data, e + AxisBytes(flags, X), flags, Y);
        points == seq(|flags|, i requires 0 <= i < |flags| => ContourPoint(xs[i], ys[i], Has(flags[i], OnCurvePoint)))
    {
      ghost var e := cursor.value;
      points := [];
      var out := new ContourPoint[|flags|](_ => ContourPoint(0, 0, false));
      ghost var init := out[..];
      var xr := ParseCoordinates(flags, X, out);
      if xr != OK {
        return Undefined, points;
      }
      ghost var mid := out[..];
      ghost var ey := cursor.value;
      var yr := ParseCoordinates(flags, Y, out);
      if yr != OK {
        return Undefined, points;
      }
      points := out[..];
      CoordinatePasses(data, e, ey, flags, init, mid, points);
      r := OK;
    }

    /** `parse_compound_glyf`: component records until one without
        MORE_COMPONENTS; each child glyph is decoded, its contours appended
        rebased by the points so far, and its points placed. The part of each
        component is returned alongside. */
    method ParseCompoundGlyf(bbox: BBox, fuel: nat) returns (r: Outcome, g: Glyph, ghost parts: seq<Part>)
      requires cursor.Some?
      modifies this`cursor
      decreases fuel, 1
      ensures r != ERR
      ensures r == OK ==> PartsDecoded(parts) && ContourTotal(parts) < 0x8000 && g == Compound(bbox, parts)
      ensures r == OK ==> ComponentsFlagged(parts) && ChainEnd(data, old(cursor).value, Comps(parts)).Some?
    {
      ghost var p0 := cursor.value;
      parts := [];
      g := EmptyGlyph();
      var endpoints: seq<u16> := [];
      var points: seq<ContourPoint> := [];
      var numContours := 0;
      var more := true;
      while more
        invariant cursor.Some?
        invariant Assembled(parts, numContours, points, endpoints)
        invariant ChainSoFar(data, p0, parts, cursor.value)
        invariant more <==> (parts == [] || Has(parts[|parts| - 1].comp.flags, MoreComponents))
        decreases if cursor.value <= |data| then |data| - cursor.value + 1 else 0, more
      {
        ghost var q := cursor.value;
        var cr, c, child := ParseComponent(fuel);
        if cr != OK {
          // `goto fail`; what the child met is passed on
          return cr, g, parts;
        }
        var ar;
        ar, numContours, endpoints, points := AddPart(parts, numContours, endpoints, points, c, child);
        if ar != OK {
          return ar, g, parts;
        }
        ChainStep(data, p0, parts, q, c, cursor.value, child);
        parts := parts + [Part(c, child)];
        more := Has(c.flags, MoreComponents);
      }
      g := Glyph(numContours, bbox, points, endpoints);
      r := OK;
    }

    /** One component record and the glyph it names. */
    method ParseComponent(fuel: nat) returns (r: Outcome, c: Component, child: Glyph)
      requires cursor.Some?
      modifies this`cursor
      decreases fuel, 0
      ensures r != ERR
      ensures r == OK ==> cursor.Some? && ComponentAt(data, old(cursor).value) == Some((c, cursor.value)) && WellDecoded(child)
    {
      c, child := Component(0, 0, 0, 0, Identity()), EmptyGlyph();
      var comp := ReadComponent();
      if comp.None? {
        return Undefined, c, child;
      }
      c := comp.value;
      if fuel == 0 {
        return DepthExceeded, c, child;
      }
      ghost var childParts;
      r, child, childParts := ParseGlyf(c.glyphIndex, fuel - 1);
    }

    /** One component record, read field by field as `parse_compound_glyf` does. */
    method ReadComponent() returns (c: Option<Component>)
      requires cursor.Some?
      modifies this`cursor
      ensures c.None? <==> ComponentAt(data, old(cursor).value).None?
      ensures c.Some? ==> cursor.Some? && ComponentAt(data, old(cursor).value) == Some((c.value, cursor.value))
    {
      ghost var p := cursor.value;
      if !Fits(2) {
        return None;
      }
      var flags := Read16();
      if !Fits(RecordSize(flags) - 2) {
        return None;
      }
      var index := Read16();
      var arg1: u16, arg2: u16;
      if Has(flags, Arg1And2AreWords) {
        arg1 := Read16();
        arg2 := Read16();
      } else {
        var both := Read16();
        arg1 := both / 0x100;
        arg2 := LowByte(both);
      }
      var matrix := Identity();
      if Has(flags, WeHaveAScale) {
        var scale := ReadF2Dot14();
        matrix := Matrix(scale, 0.0, 0.0, scale);
      } else if Has(flags, WeHaveAnXAndYScale) {
        var sx := ReadF2Dot14();
        var sy := ReadF2Dot14();
        matrix := Matrix(sx, 0.0, 0.0, sy);
      } else if Has(flags, WeHaveATwoByTwo) {
        // stored column by column
        var m00 := ReadF2Dot14();
        var m10 := ReadF2Dot14();
        var m01 := ReadF2Dot14();
        var m11 := ReadF2Dot14();
        matrix := Matrix(m00, m01, m10, m11);
      }
      c := Some(Component(flags, index, arg1, arg2, matrix));
    }

    /** `ttf_parse_glyf`: the outline of glyph `index`, between its two `loca`
        offsets inside `glyf`. Equal offsets give the empty glyph without
        touching `glyf`; otherwise the header gives the contour count and box,
        and a negative count a composite. The cursor is put back. Composites
        may nest `fuel` levels deep. */
    method ParseGlyf(index: u16, fuel: nat) returns (r: Outcome, g: Glyph, ghost parts: seq<Part>)
      modifies this`cursor
      decreases fuel, 4
      ensures cursor == old(cursor)
      ensures r != ERR
      ensures r == OK ==> WellDecoded(g)
      ensures index as int + 1 >= |locations| ==> r == Undefined
      ensures index as int + 1 < |locations| && locations[index] == locations[index + 1] ==> r == OK && g == EmptyGlyph()
      ensures r == OK && locations[index] != locations[index + 1] ==>
        glyphs.Some? && GlyphAt(data, glyphs.value + locations[index], g, parts)
      ensures index as int + 1 < |locations| && locations[index] != locations[index + 1] ==>
        (glyphs.None? ==> r == Undefined) && (glyphs.Some? ==> SimpleOutcome(data, glyphs.value + locations[index], r))
    {
      parts := [];
      g := EmptyGlyph();
      if index as int + 1 >= |locations| {
        return Undefined, g, parts;
      }
      var offset := locations[index];
      var nextOffset := locations[index + 1];
      if offset == nextOffset {
        return OK, g, parts;
      }
      if glyphs.None? {
        // NULL + offset
        return Undefined, g, parts;
      }
      var oldCursor := cursor;
      var p := glyphs.value + offset;
      r, g, parts := ParseGlyphAt(p, fuel);
      cursor := oldCursor;
      assert p == glyphs.value + locations[index];
    }

    /** The part of `ttf_parse_glyf` once the glyph's position p inside `glyf`
        is known: its 10-byte header must be in the font, and a non-negative
        contour count is a simple glyph, decoded exactly when `DecodeSimple`
        succeeds. */
    method ParseGlyphAt(p: nat, fuel: nat) returns (r: Outcome, g: Glyph, ghost parts: seq<Part>)
      modifies this`cursor
      decreases fuel, 3
      ensures r != ERR
      ensures r == OK ==> WellDecoded(g) && GlyphAt(data, p, g, parts)
      ensures SimpleOutcome(data, p, r)
    {
      cursor := Some(p);
      if !Fits(10) {
        return Undefined, EmptyGlyph(), [];
      }
      r, g, parts := ParseGlyphHeader(fuel);
    }

    /** The glyph description at the cursor: the contour count and box, then a
        simple outline, or a composite for a negative count. */
    method ParseGlyphHeader(fuel: nat) returns (r: Outcome, g: Glyph, ghost parts: seq<Part>)
      requires Fits(10)
      modifies this`cursor
      decreases fuel, 2
      ensures r != ERR
      ensures r == OK ==> WellDecoded(g) && GlyphAt(data, old(cursor).value, g, parts)
      ensures var p := old(cursor).value; var nc := AsI16(U16At(data, p));
        nc >= 0 ==> (r == OK || r == Undefined) && (r == OK <==> DecodeSimple(data, p + 10, nc as nat).Some?)
    {
      var w := Read16();
      var numContours := AsI16(w);
      var bbox := ReadBbox();
      if numContours < 0 {
        r, g, parts := ParseCompoundGlyf(bbox, fuel);
        if r == OK {
          CompoundShape(bbox, parts);
        }
      } else {
        ghost var body := cursor.value;
        var endpoints, points;
        parts := [];
        r, endpoints, points := ParseSimpleGlyf(numContours as nat);
        g := Glyph(numContours, bbox, points, endpoints);
        if r == OK {
          SimpleShape(data, body, numContours as nat, bbox);
        }
      }
    }
  }

  /** The end-point loop of `parse_compound_glyf`: the child's contour end
      points appended, each moved past the `base` points before it. */
  method AppendContours(endpoints: seq<u16>, child: Glyph, base: nat) returns (r: seq<u16>)
    requires WellDecoded(child)
    ensures r == endpoints + Rebased(child, base)
  {
    r := endpoints;
    var i := 0;
    while i < child.numContours as int
      invariant 0 <= i <= child.numContours as int
      invariant r == endpoints + Rebased(child, base)[..i]
    {
      r := r + [(child.contourEndpoints[i] + base) % 0x1_0000];
      i := i + 1;
    }
    assert Rebased(child, base)[..i] == Rebased(child, base);
  }

  /** The point loop of `parse_compound_glyf`: the child's points appended, each
      moved by the component's offset and transformed, the offset going first
      when SCALED_COMPONENT_OFFSET is set. */
  method AppendPlaced(points: seq<ContourPoint>, c: Component, child: Glyph) returns (r: seq<ContourPoint>)
    requires WellDecoded(child)
    ensures r == points + Placed(c, child)
  {
    r := points;
    var childNp := NumPoints(child);
    var i := 0;
    while i < childNp
      invariant 0 <= i <= childNp
      invariant r == points + Placed(c, child)[..i]
    {
      var pt := child.points[i];
      if Has(c.flags, ScaledComponentOffset) {
        pt := pt.(x := pt.x + AsI16(c.arg1), y := pt.y + AsI16(c.arg2));
        pt := ApplyTransform(c.matrix, pt);
      } else {
        pt := ApplyTransform(c.matrix, pt);
        pt := pt.(x := pt.x + AsI16(c.arg1), y := pt.y + AsI16(c.arg2));
      }
      r := r + [pt];
      i := i + 1;
    }
    assert Placed(c, child)[..i] == Placed(c, child);
  }

  /** The glyph assembled so far from these parts: the contour count, the
      points and the contour end points. */
  predicate Assembled(parts: seq<Part>, numContours: int, points: seq<ContourPoint>, endpoints: seq<u16>)
  {
    && PartsDecoded(parts)
    && numContours == ContourTotal(parts) < 0x8000
    && points == AssembledPoints(parts)
    && endpoints == AssembledEndpoints(parts)
  }

  /** The body of the component loop of `parse_compound_glyf` after the child
      is decoded: its contours appended, unless the int16_t contour counter
      would wrap; then, unless the arguments are point numbers (`error(1, 0, ...)`),
      its points placed. */
  method AddPart(ghost parts: seq<Part>, numContours: int, endpoints: seq<u16>, points: seq<ContourPoint>, c: Component, child: Glyph)
    returns (r: Outcome, numContours': int, endpoints': seq<u16>, points': seq<ContourPoint>)
    requires Assembled(parts, numContours, points, endpoints) && WellDecoded(child)
    ensures numContours + child.numContours as int >= 0x8000 ==> r == Undefined
    ensures numContours + child.numContours as int < 0x8000 && !Has(c.flags, ArgsAreXyValues) ==> r == Fatal
    ensures numContours + child.numContours as int < 0x8000 && Has(c.flags, ArgsAreXyValues) ==>
      r == OK && Assembled(parts + [Part(c, child)], numContours', points', endpoints')
  {
    numContours', endpoints', points' := numContours, endpoints, points;
    if numContours + child.numContours as int >= 0x8000 {
      // the int16_t contour counter would wrap
      return Undefined, numContours', endpoints', points';
    }
    endpoints' := AppendContours(endpoints, child, |points|);
    numContours' := numContours + child.numContours as int;
    if !Has(c.flags, ArgsAreXyValues) {
      // error(1, 0, "TODO: contour point offset weirdness")
      return Fatal, numContours', endpoints', points';
    }
    points' := AppendPlaced(points, c, child);
    PartsExtend(parts, c, child);
    r := OK;
  }

  /** What a coordinate pass stores in a point: the coordinate on its axis and
      the on-curve bit of the point's flag. */
  function Stored(p: ContourPoint, a: Axis, v: int, flag: byte): (q: ContourPoint)
    ensures Coord(q, a) == v && q.onCurve == Has(flag, OnCurvePoint)
    ensures a == X ==> q.y == p.y
    ensures a == Y ==> q.x == p.x
  {
    WithCoord(p, a, v).(onCurve := Has(flag, OnCurvePoint))
  }

  /** The decoded points of a simple glyph are the X pass then the Y pass over
      the origin, the Y deltas following the X deltas. */
  lemma CoordinatePasses(d: seq<byte>, e: nat, ey: nat, flags: seq<byte>,
                         init: seq<ContourPoint>, mid: seq<ContourPoint>, fin: seq<ContourPoint>)
    requires ey == e + AxisBytes(flags, X) && e + AxisBytes(flags, X) + AxisBytes(flags, Y) <= |d|
    requires |init| == |flags| && forall k :: 0 <= k < |flags| ==> init[k] == ContourPoint(0, 0, false)
    requires mid == StoredPass(init, X, Coords(d, e, flags, X), flags)
    requires fin == StoredPass(mid, Y, Coords(d, ey, flags, Y), flags)
    ensures var xs := Coords(d, e, flags, X);
      var ys := Coords(d, e + AxisBytes(flags, X), flags, Y);
      fin == seq(|flags|, i requires 0 <= i < |flags| => ContourPoint(xs[i], ys[i], Has(flags[i], OnCurvePoint)))
  {
    CombinePasses(flags, Coords(d, e, flags, X), Coords(d, e + AxisBytes(flags, X), flags, Y), init, mid, fin);
  }

  /** A whole coordinate pass over the points ps: the i-th keeps its other
      coordinate and takes cs[i] and the on-curve bit of fs[i]. */
  function StoredPass(ps: seq<ContourPoint>, a: Axis, cs: seq<int>, fs: seq<byte>): (r: seq<ContourPoint>)
    requires |cs| == |ps| && |fs| == |ps|
    ensures |r| == |ps| && forall i :: 0 <= i < |ps| ==> r[i] == Stored(ps[i], a, cs[i], fs[i])
  {
    seq(|ps|, i requires 0 <= i < |ps| => Stored(ps[i], a, cs[i], fs[i]))
  }

  /** A coordinate pass that has stored the first i of the points init: those
      carry their coordinate from cs and the on-curve bit of fs, the others are
      as they were. */
  predicate PassSoFar(ps: seq<ContourPoint>, init: seq<ContourPoint>, a: Axis, cs: seq<int>, fs: seq<byte>, i: nat)
  {
    && |ps| == |init| == |cs| == |fs| && i <= |fs|
    && (forall k :: 0 <= k < i ==> ps[k] == Stored(init[k], a, cs[k], fs[k]))
    && (forall k :: i <= k < |ps| ==> ps[k] == init[k])
  }

  /** A pass that has stored every point is the whole pass. */
  lemma PassComplete(ps: seq<ContourPoint>, init: seq<ContourPoint>, a: Axis, cs: seq<int>, fs: seq<byte>)
    requires PassSoFar(ps, init, a, cs, fs, |fs|)
    ensures ps == StoredPass(init, a, cs, fs)
  {
  }

  /** The two coordinate passes over a buffer of points at the origin: the X
      pass, then the Y pass, leave each point with both coordinates and the
      on-curve bit of its flag. */
  lemma CombinePasses(flags: seq<byte>, xs: seq<int>, ys: seq<int>,
                      init: seq<ContourPoint>, mid: seq<ContourPoint>, fin: seq<ContourPoint>)
    requires |xs| == |flags| && |ys| == |flags| && |init| == |flags| && |mid| == |flags| && |fin| == |flags|
    requires forall k :: 0 <= k < |flags| ==> init[k] == ContourPoint(0, 0, false)
    requires mid == StoredPass(init, X, xs, flags) && fin == StoredPass(mid, Y, ys, flags)
    ensures fin == seq(|flags|, i requires 0 <= i < |flags| => ContourPoint(xs[i], ys[i], Has(flags[i], OnCurvePoint)))
  {
    forall k | 0 <= k < |flags|
      ensures fin[k] == ContourPoint(xs[k], ys[k], Has(flags[k], OnCurvePoint))
    {
      assert mid[k].y == 0;
    }
  }

  /** One step of a coordinate pass: the deltas of the first i + 1 flags end
      where those of the first i end plus the size of the next one. */
  lemma AxisBytesStep(d: seq<byte>, t: nat, fs: seq<byte>, a: Axis, i: nat)
    requires t + AxisBytes(fs, a) <= |d| && i < |fs|
    ensures AxisBytes(fs[..i + 1], a) == AxisBytes(fs[..i], a) + DeltaSize(fs[i], a)
    ensures t + AxisBytes(fs[..i + 1], a) <= |d|
  {
    var pre := fs[..i + 1];
    assert pre[..i] == fs[..i] && pre[i] == fs[i];
    AxisBytesPrefix(fs, a, i + 1);
  }
}
