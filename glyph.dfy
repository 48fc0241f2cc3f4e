/** Glyph outlines of the `glyf` table (section 5.3.3 of ISO/IEC 14496-22) as the
    decoder produces them, and the decoding of their byte forms: the run-length
    coded point flags and per-axis deltas of a simple glyph, and the component
    records of a composite glyph together with the way their children's points
    and contours are put together. */
module Glyph {
  import opened Bits
  import opened Bytes
  import opened Wrappers

  /** `bbox_t` */
  datatype BBox = BBox(xMin: i16, yMin: i16, xMax: i16, yMax: i16)

  /** `contour_point_t`: `c[0]`, `c[1]` and `on_curve`. */
  datatype ContourPoint = ContourPoint(x: int, y: int, onCurve: bool)

  /** `struct ttf_glyph`; the two buffers become sequences. */
  datatype Glyph = Glyph(numContours: i16, bbox: BBox, points: seq<ContourPoint>, contourEndpoints: seq<u16>)

  /** The glyph of an empty outline: no contours, a zero box, no buffers. */
  function EmptyGlyph(): Glyph
  {
    Glyph(0, BBox(0, 0, 0, 0), [], [])
  }

  /** `flag & bit` is not zero. */
  predicate Has(flag: nat, bit: nat)
  {
    BitAnd(flag, bit) != 0
  }

  /** `ttf_num_points`: one past the end point of the last contour. */
  function NumPoints(g: Glyph): (n: nat)
    requires 0 <= g.numContours as int <= |g.contourEndpoints|
    ensures n <= 0x1_0000
    ensures n == 0 <==> g.numContours == 0
  {
    if g.numContours == 0 then 0 else g.contourEndpoints[g.numContours - 1] as int + 1
  }

  /** What every decoded glyph satisfies: one end point per contour, and at
      least as many points as `ttf_num_points` says, so that reading them back
      stays inside the buffer. */
  predicate WellDecoded(g: Glyph)
  {
    0 <= g.numContours as int == |g.contourEndpoints| && NumPoints(g) <= |g.points|
  }

  // ---------------------------------------------------------------------------
  // Simple glyphs

  // Point flags (truetype.c:396-405).
  const OnCurvePoint: byte := 0x01
  const XShortVector: byte := 0x02
  const YShortVector: byte := 0x04
  const RepeatFlag: byte := 0x08
  const XIsSameOrPositive: byte := 0x10
  const YIsSameOrPositive: byte := 0x20

  datatype Axis = X | Y

  function ShortVector(a: Axis): byte
  {
    if a == X then XShortVector else YShortVector
  }

  function SameOrPositive(a: Axis): byte
  {
    if a == X then XIsSameOrPositive else YIsSameOrPositive
  }

  function Coord(p: ContourPoint, a: Axis): int
  {
    if a == X then p.x else p.y
  }

  function WithCoord(p: ContourPoint, a: Axis, v: int): ContourPoint
  {
    if a == X then p.(x := v) else p.(y := v)
  }

  /** Bytes that the delta of a point with this flag takes on axis a: one for a
      short vector, two for a signed word, none when the coordinate repeats. */
  function DeltaSize(flag: byte, a: Axis): nat
  {
    if Has(flag, ShortVector(a)) then 1
    else if !Has(flag, SameOrPositive(a)) then 2
    else 0
  }

  /** The delta of a point with this flag whose bytes begin at p. */
  function Delta(d: seq<byte>, p: nat, flag: byte, a: Axis): (r: int)
    requires p + DeltaSize(flag, a) <= |d|
    ensures -0x8000 <= r < 0x8000
    ensures DeltaSize(flag, a) == 0 ==> r == 0
    ensures DeltaSize(flag, a) == 1 ==> (r == d[p] as int || r == -(d[p] as int))
  {
    if Has(flag, ShortVector(a)) then
      (if Has(flag, SameOrPositive(a)) then d[p] as int else -(d[p] as int))
    else if !Has(flag, SameOrPositive(a)) then AsI16(U16At(d, p)) as int
    else 0
  }

  /** Bytes all the deltas of one axis take. */
  function AxisBytes(fs: seq<byte>, a: Axis): nat
    decreases |fs|
  {
    if fs == [] then 0 else AxisBytes(fs[..|fs| - 1], a) + DeltaSize(fs[|fs| - 1], a)
  }

  /** The coordinates of one axis: each point's is its predecessor's (the
      origin's, for the first point) plus its own delta, the deltas being stored
      one after the other from byte p. */
  function Coords(d: seq<byte>, p: nat, fs: seq<byte>, a: Axis): (r: seq<int>)
    requires p + AxisBytes(fs, a) <= |d|
    ensures |r| == |fs|
    decreases |fs|
  {
    if fs == [] then []
    else
      var init := fs[..|fs| - 1];
      var prev := Coords(d, p, init, a);
      prev + [(if prev == [] then 0 else prev[|prev| - 1]) + Delta(d, p + AxisBytes(init, a), fs[|fs| - 1], a)]
  }

  function Repeat(flag: byte, n: nat): (r: seq<byte>)
    ensures |r| == n && forall i :: 0 <= i < n ==> r[i] == flag
  {
    seq(n, _ => flag)
  }

  /** Two runs of the same flag make one run as long as both. */
  lemma RepeatJoin(flag: byte, a: nat, b: nat)
    ensures Repeat(flag, a) + Repeat(flag, b) == Repeat(flag, a + b)
  {
  }

  /** Points still without a flag once n flags of the `want` exist. */
  function Remaining(want: nat, n: nat): nat
  {
    if n >= want then 0 else want - n
  }

  /** The flag bytes from p on, expanded, until at least `want` flags exist: a
      flag with the repeat bit is followed by a count and stands for 1 + count
      points. The flags and the position after them; `None` where the bytes run
      out. The last run may overshoot `want`, by at most 255. */
  function Flags(d: seq<byte>, p: nat, want: nat): (r: Option<(seq<byte>, nat)>)
    ensures r.Some? ==> want <= |r.value.0| && p <= r.value.1
    ensures r.Some? && want > 0 ==> r.value.1 <= |d|
    ensures r.Some? && want == 0 ==> r.value.0 == []
    ensures r.Some? && want > 0 ==> |r.value.0| <= want + 255
    decreases want
  {
    if want == 0 then Some(([], p))
    else if p + 1 > |d| || (Has(d[p], RepeatFlag) && p + 2 > |d|) then None
    else
      var run := if Has(d[p], RepeatFlag) then 1 + d[p + 1] as int else 1;
      var q := if Has(d[p], RepeatFlag) then p + 2 else p + 1;
      Prepend(Repeat(d[p], run), Flags(d, q, Remaining(want, run)))
  }

  function Prepend(fs: seq<byte>, r: Option<(seq<byte>, nat)>): Option<(seq<byte>, nat)>
  {
    match r
    case None => None
    case Some((rest, e)) => Some((fs + rest, e))
  }

  /** Prepending runs one after the other prepends them joined; prepending
      nothing changes nothing. */
  lemma PrependJoin(a: seq<byte>, b: seq<byte>, r: Option<(seq<byte>, nat)>)
    ensures Prepend(a, Prepend(b, r)) == Prepend(a + b, r)
    ensures Prepend([], r) == r
  {
    match r
    case None =>
    case Some((rest, e)) =>
      assert (a + b) + rest == a + (b + rest);
      assert [] + rest == rest;
  }

  /** A simple glyph's contour end points and points. */
  datatype Simple = Simple(endpoints: seq<u16>, points: seq<ContourPoint>)

  /** The np points of a simple glyph whose flags start at byte q: the flags,
      then all the x deltas, then all the y deltas. `None` where the C reads
      past the font or writes flags past the points (the last run overshoots). */
  function DecodePoints(d: seq<byte>, q: nat, np: nat): (r: Option<seq<ContourPoint>>)
    ensures r.Some? ==> |r.value| == np
  {
    match Flags(d, q, np)
    case None => None
    case Some((fs, e)) =>
      if |fs| > np || e + AxisBytes(fs, X) + AxisBytes(fs, Y) > |d| then None
      else
        var xs := Coords(d, e, fs, X);
        var ys := Coords(d, e + AxisBytes(fs, X), fs, Y);
        Some(seq(np, i requires 0 <= i < np => ContourPoint(xs[i], ys[i], Has(fs[i], OnCurvePoint))))
  }

  /** The description of a simple glyph with nc contours from byte p on (after
      the glyph header): the end points, the instructions (skipped), then the
      points. `None` where the C reads past the font, reads
      `contour_endpoints[-1]` (no contours), or the points fail. */
  function DecodeSimple(d: seq<byte>, p: nat, nc: nat): Option<Simple>
  {
    if nc == 0 || p + 2 * nc + 2 > |d| then None
    else
      var endpoints := Words(d, p, nc);
      var q := p + 2 * nc + 2 + U16At(d, p + 2 * nc);
      match DecodePoints(d, q, endpoints[nc - 1] as int + 1)
      case None => None
      case Some(points) => Some(Simple(endpoints, points))
  }

  /** The deltas of a prefix of the flags take no more bytes than all of them. */
  lemma {:induction false} AxisBytesPrefix(fs: seq<byte>, a: Axis, i: nat)
    requires i <= |fs|
    ensures AxisBytes(fs[..i], a) <= AxisBytes(fs, a)
    decreases |fs|
  {
    if i < |fs| {
      var init := fs[..|fs| - 1];
      assert init[..i] == fs[..i];
      AxisBytesPrefix(init, a, i);
    } else {
      assert fs[..i] == fs;
    }
  }

  /** Decoding a prefix of the flags gives a prefix of the coordinates. */
  lemma {:induction false} CoordsPrefix(d: seq<byte>, p: nat, fs: seq<byte>, a: Axis, i: nat)
    requires p + AxisBytes(fs, a) <= |d| && i <= |fs|
    ensures p + AxisBytes(fs[..i], a) <= |d|
    ensures Coords(d, p, fs[..i], a) == Coords(d, p, fs, a)[..i]
    decreases |fs|
  {
    AxisBytesPrefix(fs, a, i);
    if i < |fs| {
      var init := fs[..|fs| - 1];
      assert init[..i] == fs[..i];
      CoordsPrefix(d, p, init, a, i);
    } else {
      assert fs[..i] == fs;
    }
  }

  /** Coordinates accumulate: point i's is point i - 1's (0 for the first point)
      plus the delta stored after those of the points before it. */
  lemma CoordsAccumulate(d: seq<byte>, p: nat, fs: seq<byte>, a: Axis, i: nat)
    requires p + AxisBytes(fs, a) <= |d| && i < |fs|
    ensures p + AxisBytes(fs[..i], a) + DeltaSize(fs[i], a) <= |d|
    ensures Coords(d, p, fs, a)[i]
         == (if i == 0 then 0 else Coords(d, p, fs, a)[i - 1]) + Delta(d, p + AxisBytes(fs[..i], a), fs[i], a)
  {
    CoordsPrefix(d, p, fs, a, i + 1);
    var pre := fs[..i + 1];
    assert pre[..i] == fs[..i] && pre[i] == fs[i];
  }

  /** A decoded simple glyph has one end point per contour, those read from the
      font, and exactly `contourEnd[last] + 1` points, each with the on-curve bit
      of its flag. */
  lemma SimpleShape(d: seq<byte>, p: nat, nc: nat, bbox: BBox)
    requires nc < 0x8000
    requires DecodeSimple(d, p, nc).Some?
    ensures var s := DecodeSimple(d, p, nc).value;
      && p + 2 * nc <= |d| && s.endpoints == Words(d, p, nc)
      && var g := Glyph(nc, bbox, s.points, s.endpoints);
      WellDecoded(g) && NumPoints(g) == |s.points| == s.endpoints[nc - 1] as int + 1
  {
  }

  /** The bytes of a one-contour simple glyph: end point 3, no instructions,
      flags [on curve, x short and positive, y word] and [on curve, x same,
      y same, repeated twice], one x byte and one y word. */
  function ExampleBytes(): seq<byte>
  {
    [0, 3, 0, 0, 0x13, 0x39, 2, 7, 0xFF, 0xFE]
  }

  lemma ExampleFlags()
    ensures Flags(ExampleBytes(), 4, 4) == Some(([0x13, 0x39, 0x39, 0x39], 7))
  {
    var d := ExampleBytes();
    assert !Has(0x13, RepeatFlag) && Has(0x39, RepeatFlag);
    assert Repeat(0x39, 3) == [0x39, 0x39, 0x39] && Repeat(0x13, 1) == [0x13];
    assert d[4] == 0x13 && d[5] == 0x39 && d[6] == 2;
    assert Remaining(3, 3) == 0 && Remaining(4, 1) == 3;
    var run: seq<byte> := [0x39, 0x39, 0x39];
    var none: seq<byte> := [];
    assert run + none == run && [0x13] + run == [0x13, 0x39, 0x39, 0x39];
    assert Flags(d, 7, 0) == Some((none, 7));
    assert Flags(d, 5, 3) == Prepend(Repeat(0x39, 3), Flags(d, 7, 0));
    assert Flags(d, 4, 4) == Prepend(Repeat(0x13, 1), Flags(d, 5, 3));
  }

  lemma ExampleBits()
    ensures DeltaSize(0x13, X) == 1 && DeltaSize(0x39, X) == 0
    ensures DeltaSize(0x13, Y) == 2 && DeltaSize(0x39, Y) == 0
    ensures Has(0x13, XIsSameOrPositive) && Has(0x13, OnCurvePoint) && Has(0x39, OnCurvePoint)
  {
    assert Has(0x13, XShortVector) && Has(0x13, XIsSameOrPositive);
    assert !Has(0x13, YShortVector) && !Has(0x13, YIsSameOrPositive);
    assert !Has(0x39, XShortVector) && Has(0x39, XIsSameOrPositive);
    assert !Has(0x39, YShortVector) && Has(0x39, YIsSameOrPositive);
  }

  lemma ExampleX()
    ensures AxisBytes([0x13, 0x39, 0x39, 0x39], X) == 1
    ensures Coords(ExampleBytes(), 7, [0x13, 0x39, 0x39, 0x39], X) == [7, 7, 7, 7]
  {
    ExampleBits();
    var d := ExampleBytes();
    var f1: seq<byte> := [0x13];
    var f2: seq<byte> := [0x13, 0x39];
    var f3: seq<byte> := [0x13, 0x39, 0x39];
    var fs: seq<byte> := [0x13, 0x39, 0x39, 0x39];
    assert f1[..0] == [] && f2[..1] == f1 && f3[..2] == f2 && fs[..3] == f3;
    assert AxisBytes(f1, X) == 1;
    assert AxisBytes(f2, X) == 1;
    assert AxisBytes(f3, X) == 1;
    assert Delta(d, 7, 0x13, X) == 7;
    assert Coords(d, 7, f1, X) == [7];
    assert Coords(d, 7, f2, X) == [7, 7];
    assert Coords(d, 7, f3, X) == [7, 7, 7];
  }

  lemma ExampleY()
    ensures AxisBytes([0x13, 0x39, 0x39, 0x39], Y) == 2
    ensures Coords(ExampleBytes(), 8, [0x13, 0x39, 0x39, 0x39], Y) == [-2, -2, -2, -2]
  {
    ExampleBits();
    var d := ExampleBytes();
    var f1: seq<byte> := [0x13];
    var f2: seq<byte> := [0x13, 0x39];
    var f3: seq<byte> := [0x13, 0x39, 0x39];
    var fs: seq<byte> := [0x13, 0x39, 0x39, 0x39];
    assert f1[..0] == [] && f2[..1] == f1 && f3[..2] == f2 && fs[..3] == f3;
    assert AxisBytes(f1, Y) == 2;
    assert AxisBytes(f2, Y) == 2;
    assert AxisBytes(f3, Y) == 2;
    assert U16At(d, 8) == 0xFFFE;
    assert Delta(d, 8, 0x13, Y) == -2;
    assert Coords(d, 8, f1, Y) == [-2];
    assert Coords(d, 8, f2, Y) == [-2, -2];
    assert Coords(d, 8, f3, Y) == [-2, -2, -2];
  }

  /** The example decodes to four on-curve points, the first at (7, -2) and the
      three repeated ones left where it is. */
  lemma ExampleSimple()
    ensures DecodeSimple(ExampleBytes(), 0, 1)
         == Some(Simple([3], [ContourPoint(7, -2, true), ContourPoint(7, -2, true),
                              ContourPoint(7, -2, true), ContourPoint(7, -2, true)]))
  {
    var d := ExampleBytes();
    ExampleFlags();
    ExampleX();
    ExampleY();
    ExampleBits();
    assert Words(d, 0, 1) == [3];
    assert U16At(d, 2) == 0;
    var fs: seq<byte> := [0x13, 0x39, 0x39, 0x39];
    var xs := Coords(d, 7, fs, X);
    var ys := Coords(d, 8, fs, Y);
    var pts := seq(4, i requires 0 <= i < 4 => ContourPoint(xs[i], ys[i], Has(fs[i], OnCurvePoint)));
    assert forall i :: 0 <= i < 4 ==> pts[i] == ContourPoint(7, -2, true);
    assert pts == [ContourPoint(7, -2, true), ContourPoint(7, -2, true), ContourPoint(7, -2, true), ContourPoint(7, -2, true)];
    assert DecodePoints(d, 4, 4) == Some(pts);
    assert DecodeSimple(d, 0, 1) == Some(Simple([3], pts));
  }

  // ---------------------------------------------------------------------------
  // Component transforms

  /** `float matrix[2][2]`, row major: `m01` is `matrix[0][1]`. */
  datatype Matrix = Matrix(m00: real, m01: real, m10: real, m11: real)

  function Identity(): Matrix
  {
    Matrix(1.0, 0.0, 0.0, 1.0)
  }

  /** `read_f2dot14`: a signed 2.14 fixed-point number. */
  function F2Dot14(w: u16): (r: real)
    ensures -2.0 <= r < 2.0
  {
    AsI16(w) as real / 16384.0
  }

  /** The conversion of a floating-point value to `int`: toward zero. */
  function Trunc(r: real): int
  {
    if r >= 0.0 then r.Floor else -((-r).Floor)
  }

  /** `apply_transform` as written: both results are stored into `c[0]`, so x
      becomes the transformed y, rounded as `(int)(r + 0.5)`, and y is kept. */
  function ApplyTransformAsWritten(m: Matrix, p: ContourPoint): ContourPoint
  {
    var r1 := m.m10 * p.x as real + m.m11 * p.y as real;
    p.(x := Trunc(r1 + 0.5))
  }

  /** Rounding to the nearest integer, halves upward. */
  function Round(r: real): (n: int)
    ensures r - 0.5 < n as real <= r + 0.5
  {
    (r + 0.5).Floor
  }

  /** `apply_transform` as intended: both coordinates through the matrix, each
      rounded to the nearest integer. */
  function ApplyTransform(m: Matrix, p: ContourPoint): ContourPoint
  {
    p.(x := Round(m.m00 * p.x as real + m.m01 * p.y as real),
       y := Round(m.m10 * p.x as real + m.m11 * p.y as real))
  }

  /** The identity matrix leaves every point where it is. */
  lemma TransformIdentity(p: ContourPoint)
    ensures ApplyTransform(Identity(), p) == p
  {
    assert Round(p.x as real) == p.x;
    assert Round(p.y as real) == p.y;
  }

  /** As written, even the identity moves points: x takes the value of y, and
      a negative value goes up by one. */
  lemma TransformAsWrittenMoves()
    ensures ApplyTransformAsWritten(Identity(), ContourPoint(3, 7, true)) == ContourPoint(7, 7, true)
    ensures ApplyTransformAsWritten(Identity(), ContourPoint(-3, -3, true)) == ContourPoint(-2, -3, true)
  {
    assert Trunc(7.5) == 7;
    assert Trunc(-2.5) == -2;
  }

  // ---------------------------------------------------------------------------
  // Composite glyphs

  // Component flags (truetype.c:508-522).
  const Arg1And2AreWords: u16 := 0x0001
  const ArgsAreXyValues: u16 := 0x0002
  const WeHaveAScale: u16 := 0x0008
  const MoreComponents: u16 := 0x0020
  const WeHaveAnXAndYScale: u16 := 0x0040
  const WeHaveATwoByTwo: u16 := 0x0080
  const ScaledComponentOffset: u16 := 0x0800

  /** One component record: its flags, the child glyph, the two arguments and
      the matrix. */
  datatype Component = Component(flags: u16, glyphIndex: u16, arg1: u16, arg2: u16, matrix: Matrix)

  /** Bytes of a component record with these flags. */
  function RecordSize(flags: u16): nat
  {
    4 + (if Has(flags, Arg1And2AreWords) then 4 else 2)
      + (if Has(flags, WeHaveAScale) then 2
         else if Has(flags, WeHaveAnXAndYScale) then 4
         else if Has(flags, WeHaveATwoByTwo) then 8
         else 0)
  }

  /** The component record at p and the position after it; `None` where it runs
      past the font. Byte arguments are the two halves of one word, unsigned; the
      2x2 form is stored column by column. */
  function ComponentAt(d: seq<byte>, p: nat): (r: Option<(Component, nat)>)
    ensures r.Some? <==> p + 2 <= |d| && p + RecordSize(U16At(d, p)) <= |d|
    ensures r.Some? ==> r.value.1 == p + RecordSize(U16At(d, p)) && r.value.0.flags == U16At(d, p)
    ensures r.Some? && !Has(U16At(d, p), Arg1And2AreWords) ==> r.value.0.arg1 < 0x100 && r.value.0.arg2 < 0x100
  {
    if p + 2 > |d| || p + RecordSize(U16At(d, p)) > |d| then None
    else
      var flags := U16At(d, p);
      var index := U16At(d, p + 2);
      var both := U16At(d, p + 4);
      var arg1: u16 := if Has(flags, Arg1And2AreWords) then both else both / 0x100;
      var arg2: u16 := if Has(flags, Arg1And2AreWords) then U16At(d, p + 6) else LowByte(both);
      var m := p + (if Has(flags, Arg1And2AreWords) then 8 else 6);
      var matrix :=
        if Has(flags, WeHaveAScale) then Matrix(F2Dot14(U16At(d, m)), 0.0, 0.0, F2Dot14(U16At(d, m)))
        else if Has(flags, WeHaveAnXAndYScale) then Matrix(F2Dot14(U16At(d, m)), 0.0, 0.0, F2Dot14(U16At(d, m + 2)))
        else if Has(flags, WeHaveATwoByTwo) then
          Matrix(F2Dot14(U16At(d, m)), F2Dot14(U16At(d, m + 4)), F2Dot14(U16At(d, m + 2)), F2Dot14(U16At(d, m + 6)))
        else Identity();
      Some((Component(flags, index, arg1, arg2, matrix), p + RecordSize(flags)))
  }

  /** `w & 0xff` */
  function LowByte(w: u16): (r: u16)
    ensures r < 0x100
  {
    AndAtMost(w, 0xFF);
    BitAnd(w, 0xFF)
  }

  /** A child point placed by its component: translated by the arguments as
      signed words, before the transform when the offset is scaled and after it
      otherwise. */
  function Place(c: Component, p: ContourPoint): ContourPoint
  {
    var dx := AsI16(c.arg1) as int;
    var dy := AsI16(c.arg2) as int;
    if Has(c.flags, ScaledComponentOffset) then ApplyTransform(c.matrix, p.(x := p.x + dx, y := p.y + dy))
    else
      var t := ApplyTransform(c.matrix, p);
      t.(x := t.x + dx, y := t.y + dy)
  }

  /** A component with its decoded child glyph. */
  datatype Part = Part(comp: Component, child: Glyph)

  predicate PartsDecoded(parts: seq<Part>)
  {
    forall i :: 0 <= i < |parts| ==> WellDecoded(parts[i].child)
  }

  lemma PartsInit(parts: seq<Part>)
    requires PartsDecoded(parts) && |parts| > 0
    ensures PartsDecoded(parts[..|parts| - 1]) && WellDecoded(parts[|parts| - 1].child)
  {
    var init := parts[..|parts| - 1];
    assert forall i :: 0 <= i < |init| ==> init[i] == parts[i];
  }

  /** The contours of all children. */
  function ContourTotal(parts: seq<Part>): nat
    requires PartsDecoded(parts)
    decreases |parts|
  {
    if parts == [] then 0
    else
      PartsInit(parts);
      ContourTotal(parts[..|parts| - 1]) + parts[|parts| - 1].child.numContours as int
  }

  /** The points of all children, as `ttf_num_points` counts them. */
  function PointTotal(parts: seq<Part>): nat
    requires PartsDecoded(parts)
    decreases |parts|
  {
    if parts == [] then 0
    else
      PartsInit(parts);
      PointTotal(parts[..|parts| - 1]) + NumPoints(parts[|parts| - 1].child)
  }

  /** A child's points as its component places them. */
  function Placed(c: Component, child: Glyph): (r: seq<ContourPoint>)
    requires WellDecoded(child)
    ensures |r| == NumPoints(child)
  {
    seq(NumPoints(child), i requires 0 <= i < NumPoints(child) => Place(c, child.points[i]))
  }

  /** A child's contour end points moved past the `base` points before it, as
      16-bit words. */
  function Rebased(child: Glyph, base: nat): (r: seq<u16>)
    requires WellDecoded(child)
    ensures |r| == child.numContours as int
  {
    seq(|child.contourEndpoints|, i requires 0 <= i < |child.contourEndpoints| => (child.contourEndpoints[i] + base) % 0x1_0000)
  }

  /** The points of a composite glyph: every child's, placed, in order. */
  function AssembledPoints(parts: seq<Part>): (r: seq<ContourPoint>)
    requires PartsDecoded(parts)
    ensures |r| == PointTotal(parts)
    decreases |parts|
  {
    if parts == [] then []
    else
      PartsInit(parts);
      var last := parts[|parts| - 1];
      AssembledPoints(parts[..|parts| - 1]) + Placed(last.comp, last.child)
  }

  /** The contour end points of a composite glyph: every child's, rebased by the
      points of the children before it. */
  function AssembledEndpoints(parts: seq<Part>): (r: seq<u16>)
    requires PartsDecoded(parts)
    ensures |r| == ContourTotal(parts)
    decreases |parts|
  {
    if parts == [] then []
    else
      PartsInit(parts);
      var init := parts[..|parts| - 1];
      AssembledEndpoints(init) + Rebased(parts[|parts| - 1].child, PointTotal(init))
  }

  /** One more part adds its child's contours and points after those already
      assembled, its end points rebased by the points before it. */
  lemma PartsExtend(parts: seq<Part>, c: Component, child: Glyph)
    requires PartsDecoded(parts) && WellDecoded(child)
    ensures var next := parts + [Part(c, child)];
      && PartsDecoded(next)
      && ContourTotal(next) == ContourTotal(parts) + child.numContours as int
      && PointTotal(next) == PointTotal(parts) + NumPoints(child)
      && AssembledPoints(next) == AssembledPoints(parts) + Placed(c, child)
      && AssembledEndpoints(next) == AssembledEndpoints(parts) + Rebased(child, PointTotal(parts))
  {
    var next := parts + [Part(c, child)];
    assert next[..|next| - 1] == parts;
    assert forall i :: 0 <= i < |next| ==> next[i] == if i < |parts| then parts[i] else Part(c, child);
  }

  /** The composite glyph of these parts under its own bounding box. */
  function Compound(bbox: BBox, parts: seq<Part>): Glyph
    requires PartsDecoded(parts) && ContourTotal(parts) < 0x8000
  {
    Glyph(ContourTotal(parts), bbox, AssembledPoints(parts), AssembledEndpoints(parts))
  }

  /** The last end point of a composite glyph lies before its last point, and is
      exactly the last point while the points fit in 16 bits. */
  lemma {:induction false} LastEndpoint(parts: seq<Part>)
    requires PartsDecoded(parts) && ContourTotal(parts) > 0
    ensures AssembledEndpoints(parts)[ContourTotal(parts) - 1] < PointTotal(parts)
    ensures PointTotal(parts) <= 0x1_0000 ==> AssembledEndpoints(parts)[ContourTotal(parts) - 1] == PointTotal(parts) - 1
    decreases |parts|
  {
    PartsInit(parts);
    var init := parts[..|parts| - 1];
    var child := parts[|parts| - 1].child;
    if child.numContours == 0 {
      assert AssembledEndpoints(parts) == AssembledEndpoints(init) + [];
      LastEndpoint(init);
    } else {
      var base := PointTotal(init);
      var e := child.contourEndpoints[child.numContours - 1];
      assert AssembledEndpoints(parts)[ContourTotal(parts) - 1] == Rebased(child, base)[child.numContours - 1];
      assert Rebased(child, base)[child.numContours - 1] == (e + base) % 0x1_0000;
    }
  }

  /** Children without contours have no points. */
  lemma {:induction false} NoContoursNoPoints(parts: seq<Part>)
    requires PartsDecoded(parts) && ContourTotal(parts) == 0
    ensures PointTotal(parts) == 0
    decreases |parts|
  {
    if parts != [] {
      PartsInit(parts);
      NoContoursNoPoints(parts[..|parts| - 1]);
    }
  }

  /** A composite glyph is well decoded, and `ttf_num_points` of it is the sum
      of its children's point counts while that sum fits in 16 bits. */
  lemma CompoundShape(bbox: BBox, parts: seq<Part>)
    requires PartsDecoded(parts) && ContourTotal(parts) < 0x8000
    ensures WellDecoded(Compound(bbox, parts))
    ensures |Compound(bbox, parts).points| == PointTotal(parts)
    ensures PointTotal(parts) <= 0x1_0000 ==> NumPoints(Compound(bbox, parts)) == PointTotal(parts)
  {
    if ContourTotal(parts) > 0 {
      LastEndpoint(parts);
    } else {
      NoContoursNoPoints(parts);
    }
  }
}
