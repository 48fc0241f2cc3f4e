/** The format 4 character map subtable ("segment mapping to delta values",
    section 5.2.1.3.4 of ISO/IEC 14496-22) as the decoder keeps it: the number
    of segments and the 16-bit words that follow the subtable's 14-byte header. */
module Cmap {
  import opened Bytes
  import opened Wrappers

  /** `struct cmap_4`: `seg_count` and the trailing words `tail`. */
  datatype Cmap4 = Cmap4(segCount: u16, tail: seq<u16>)

  /** `struct cmap_arrs`: the index in `tail` where each parallel array begins. */
  datatype CmapArrs = CmapArrs(endCode: nat, startCode: nat, idDelta: nat, idRangeOffset: nat)

  /** `ttf_cmap_arrays`: endCode first, then one reserved pad word, then
      startCode, idDelta and idRangeOffset, seg_count words each. */
  function Arrays(m: Cmap4): (r: CmapArrs)
    ensures r.endCode + m.segCount < r.startCode
    ensures r.startCode + m.segCount == r.idDelta && r.idDelta + m.segCount == r.idRangeOffset
    ensures r.idRangeOffset + m.segCount == 4 * m.segCount + 1
  {
    var i := 0;
    var endCode := i;
    var i := i + m.segCount + 1;
    var startCode := i;
    var i := i + m.segCount;
    var idDelta := i;
    var i := i + m.segCount;
    CmapArrs(endCode, startCode, idDelta, i)
  }

  /** The tail holds the four arrays in full. */
  predicate HasArrays(m: Cmap4)
  {
    4 * m.segCount + 1 <= |m.tail|
  }

  /** The startCode word of segment i, and so its endCode word, lies in the tail. */
  predicate SegmentFits(m: Cmap4, i: nat)
  {
    Arrays(m).startCode + i < |m.tail|
  }

  /** Every segment's startCode and endCode words lie in the tail. */
  predicate SegmentsFit(m: Cmap4)
  {
    forall i :: 0 <= i < m.segCount ==> SegmentFits(m, i)
  }

  function EndCode(m: Cmap4, i: nat): u16
    requires i < m.segCount && SegmentFits(m, i)
  {
    m.tail[Arrays(m).endCode + i]
  }

  function StartCode(m: Cmap4, i: nat): u16
    requires i < m.segCount && SegmentFits(m, i)
  {
    m.tail[Arrays(m).startCode + i]
  }

  function IdDelta(m: Cmap4, i: nat): u16
    requires HasArrays(m) && i < m.segCount
  {
    m.tail[Arrays(m).idDelta + i]
  }

  function IdRangeOffset(m: Cmap4, i: nat): u16
    requires HasArrays(m) && i < m.segCount
  {
    m.tail[Arrays(m).idRangeOffset + i]
  }

  /** Segment i contains the code c. */
  predicate Covers(m: Cmap4, i: nat, c: u16)
    requires i < m.segCount && SegmentFits(m, i)
  {
    StartCode(m, i) <= c <= EndCode(m, i)
  }

  /** What the format requires of the segments: each one is a range, and they are
      ascending and pairwise disjoint. */
  predicate Sorted(m: Cmap4)
  {
    HasArrays(m)
    && (forall i :: 0 <= i < m.segCount ==> StartCode(m, i) <= EndCode(m, i))
    && (forall i, j :: 0 <= i < j < m.segCount ==> EndCode(m, i) < StartCode(m, j))
  }

  /** The glyph that segment i gives c, the way `ttf_lookup_index` computes it:
      with no range offset, idDelta + c modulo 65536; otherwise the word the range
      offset designates, counted from the segment's own idRangeOffset slot, with no
      idDelta added. `None` when that word lies past the end of the subtable. */
  function SegmentGlyph(m: Cmap4, i: nat, c: u16): (r: Option<u16>)
    requires HasArrays(m) && i < m.segCount && Covers(m, i, c)
    ensures IdRangeOffset(m, i) == 0 ==> r == Some((IdDelta(m, i) + c) % 0x1_0000)
    ensures IdRangeOffset(m, i) != 0 ==>
      var k := 3 * m.segCount + 1 + i + IdRangeOffset(m, i) / 2 + (c - StartCode(m, i));
      r == if k < |m.tail| then Some(m.tail[k]) else None
  {
    if IdRangeOffset(m, i) == 0 then Some((IdDelta(m, i) + c) % 0x1_0000)
    else
      var k := Arrays(m).idRangeOffset + i + IdRangeOffset(m, i) / 2 + (c - StartCode(m, i));
      if k < |m.tail| then Some(m.tail[k]) else None
  }

  /** The first segment at or after i that contains c: the linear scan
      against which the binary search is judged. */
  function FirstCovering(m: Cmap4, c: u16, i: nat): (r: Option<nat>)
    requires HasArrays(m) && i <= m.segCount
    ensures r.Some? ==> (i <= r.value < m.segCount && Covers(m, r.value, c)
                         && forall j :: i <= j < r.value ==> !Covers(m, j, c))
    ensures r.None? <==> forall j :: i <= j < m.segCount ==> !Covers(m, j, c)
    decreases m.segCount - i
  {
    if i == m.segCount then None
    else if Covers(m, i, c) then Some(i)
    else FirstCovering(m, c, i + 1)
  }

  /** Reference lookup: the glyph of the first segment containing c, and glyph 0
      (`.notdef`) when no segment does. */
  function Lookup(m: Cmap4, c: u16): Option<u16>
    requires HasArrays(m)
  {
    match FirstCovering(m, c, 0)
    case None => Some(0)
    case Some(i) => SegmentGlyph(m, i, c)
  }

  /** In a well-formed subtable at most one segment contains a code. */
  lemma CoveringUnique(m: Cmap4, c: u16, i: nat, j: nat)
    requires Sorted(m) && i < m.segCount && j < m.segCount
    requires Covers(m, i, c) && Covers(m, j, c)
    ensures i == j
  {
  }

  /** In a well-formed subtable the reference lookup answers with the segment that
      contains c, whichever it is. */
  lemma LookupOwner(m: Cmap4, c: u16, i: nat)
    requires Sorted(m) && i < m.segCount && Covers(m, i, c)
    ensures Lookup(m, c) == SegmentGlyph(m, i, c)
  {
    var f := FirstCovering(m, c, 0);
    assert f.Some?;
    CoveringUnique(m, c, i, f.value);
  }

  /** The binary search of `ttf_lookup_index` over the end codes. It answers the
      last segment probed, or -1 when there is none (the C then reads `mid`
      uninitialised), and `None` when a probe reads past the end of the tail. In a
      well-formed subtable, when the probed segment does not contain c, no segment
      does. */
  method SearchSegment(m: Cmap4, c: u16) returns (r: Option<int>)
    ensures SegmentsFit(m) ==> r.Some?
    ensures r.Some? ==> (r.value == -1 <==> m.segCount == 0)
    ensures r.Some? ==> -1 <= r.value < m.segCount
    ensures Sorted(m) && r.Some? && 0 <= r.value && !Covers(m, r.value, c) ==>
      forall j :: 0 <= j < m.segCount ==> !Covers(m, j, c)
  {
    var arrs := Arrays(m);
    var a, b := 0, m.segCount as int;
    var mid := -1;
    while a < b
      invariant 0 <= a <= b <= m.segCount
      invariant mid == -1 ==> a == 0 && b == m.segCount
      invariant -1 <= mid < m.segCount
      invariant m.segCount > 0 ==> 0 <= mid || a < b
      invariant Sorted(m) ==> forall j :: 0 <= j < a ==> !Covers(m, j, c)
      invariant Sorted(m) ==> forall j :: b <= j < m.segCount ==> !Covers(m, j, c)
      decreases b - a
    {
      mid := (a + b) / 2;
      if arrs.endCode + mid >= |m.tail| {
        assert !SegmentFits(m, mid);
        return None;
      }
      if m.tail[arrs.endCode + mid] < c {
        if Sorted(m) {
          forall j | 0 <= j <= mid
            ensures !Covers(m, j, c)
          {
            if j < mid {
              assert EndCode(m, j) < StartCode(m, mid);
            }
          }
        }
        a := mid + 1;
      } else if arrs.startCode + mid >= |m.tail| {
        assert !SegmentFits(m, mid);
        return None;
      } else if m.tail[arrs.startCode + mid] <= c {
        assert Covers(m, mid, c);
        return Some(mid);
      } else {
        if Sorted(m) {
          forall j | mid <= j < m.segCount
            ensures !Covers(m, j, c)
          {
            if mid < j {
              assert EndCode(m, mid) < StartCode(m, j);
            }
          }
        }
        b := mid;
      }
    }
    return Some(mid);
  }

  /** `ttf_lookup_index`: the segment the search lands on, then its glyph, and
      glyph 0 when it does not contain c. `None` stands for the undefined corners
      of the C: with no segments `mid` is read uninitialised, a tail shorter than
      the four arrays is read past its end, and a range offset may designate a word
      past the subtable. A short tail is still answered in full as long as every
      word the C reads lies in it. */
  method LookupIndex(m: Cmap4, c: u16) returns (r: Option<u16>)
    ensures m.segCount == 0 ==> r.None?
    ensures m.segCount > 0 && SegmentsFit(m) && (forall i :: 0 <= i < m.segCount ==> !Covers(m, i, c)) ==>
      r == Some(0)
    ensures HasArrays(m) && m.segCount > 0 ==> (r == Some(0)
      || exists i :: 0 <= i < m.segCount && Covers(m, i, c) && r == SegmentGlyph(m, i, c))
    ensures Sorted(m) && m.segCount > 0 ==> r == Lookup(m, c)
  {
    var arrs := Arrays(m);
    var s := SearchSegment(m, c);
    if s.None? || s.value == -1 {
      return None;
    }
    var mid := s.value;
    if arrs.startCode + mid >= |m.tail| {
      assert !SegmentFits(m, mid);
      return None;
    }
    if c < m.tail[arrs.startCode + mid] || m.tail[arrs.endCode + mid] < c {
      return Some(0);
    }
    assert Covers(m, mid, c);
    if arrs.idRangeOffset + mid >= |m.tail| {
      return None;
    }
    if m.tail[arrs.idRangeOffset + mid] == 0 {
      r := Some((m.tail[arrs.idDelta + mid] + c) % 0x1_0000);
    } else {
      var k := arrs.idRangeOffset + mid + m.tail[arrs.idRangeOffset + mid] / 2 + (c - m.tail[arrs.startCode + mid]);
      r := if k < |m.tail| then Some(m.tail[k]) else None;
    }
    if HasArrays(m) {
      assert r == SegmentGlyph(m, mid, c);
      if Sorted(m) {
        LookupOwner(m, c, mid);
      }
    }
  }

  /** A subtable of one segment whose tail stops after the startCode word (a
      length of 20 bytes): endCode 'A', the pad, startCode 'A'. A code past 'A' is
      answered from the words that are there. */
  method ShortTailLookup() returns (r: Option<u16>)
    ensures r == Some(0)
  {
    var m := Cmap4(1, [0x41, 0, 0x41]);
    r := LookupIndex(m, 0x42);
  }

  /** The subtable of two segments, 'A' alone with idDelta 1 and 'B'..'Z' through
      the glyph id array [5, 6, ...]. */
  function Example(): (m: Cmap4)
    ensures Sorted(m)
  {
    Cmap4(2, [0x41, 0x5A, 0, 0x41, 0x42, 1, 0, 0, 2, 5, 6])
  }

  /** 'A' maps to 0x41 + 1, 'B' to the first word of the glyph id array, 'C' to
      the second, and '@', before every segment, to `.notdef`. */
  lemma ExampleLookups()
    ensures Lookup(Example(), 0x41) == Some(0x42)
    ensures Lookup(Example(), 0x42) == Some(5)
    ensures Lookup(Example(), 0x43) == Some(6)
    ensures Lookup(Example(), 0x40) == Some(0)
  {
    var m := Example();
    LookupOwner(m, 0x41, 0);
    LookupOwner(m, 0x42, 1);
    LookupOwner(m, 0x43, 1);
  }
}
