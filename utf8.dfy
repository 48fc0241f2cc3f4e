/** The UTF-8 helpers of the demo program (src/fonter.c): an encoder of one
    Basic Multilingual Plane code point into the 1- to 3-byte forms of
    section 3 of RFC 3629, and a decoder of the first code point of a string. */
module Utf8 {
  import opened Bits
  import opened Bytes

  /** `(char) x`: the low byte of x. */
  function Char(x: nat): byte
  {
    x % 0x100
  }

  /** The bytes `bmp_to_utf8` writes before its terminating NUL. */
  function Utf8Encode(c: u16): (r: seq<byte>)
    ensures |r| == (if c <= 0x7F then 1 else if c <= 0x7FF then 2 else 3)
  {
    if c <= 0x7F then
      [Char(c)]
    else if c <= 0x7FF then
      [Char(BitOr(c / 0x40, 0xC0)), Char(BitOr(BitAnd(c, 0x3F), 0x80))]
    else
      [Char(BitOr(c / 0x1000, 0xE0)), Char(BitOr(BitAnd(c / 0x40, 0x3F), 0x80)), Char(BitOr(BitAnd(c, 0x3F), 0x80))]
  }

  /** `bmp_to_utf8(c, s)`: writes the encoding of c and a NUL into the caller's buffer. */
  method BmpToUtf8(c: u16, s: array<byte>)
    requires |Utf8Encode(c)| < s.Length
    modifies s
    ensures s[..|Utf8Encode(c)| + 1] == Utf8Encode(c) + [0]
    ensures forall i :: |Utf8Encode(c)| < i < s.Length ==> s[i] == old(s[i])
  {
    if c <= 0x7F {
      s[0] := Char(c);
      s[1] := 0;
    } else if c <= 0x7FF {
      s[0] := Char(BitOr(c / 0x40, 0xC0));
      s[1] := Char(BitOr(BitAnd(c, 0x3F), 0x80));
      s[2] := 0;
    } else {
      s[0] := Char(BitOr(c / 0x1000, 0xE0));
      s[1] := Char(BitOr(BitAnd(c / 0x40, 0x3F), 0x80));
      s[2] := Char(BitOr(BitAnd(c, 0x3F), 0x80));
      s[3] := 0;
    }
  }

  /** The value of a `char` after the integer promotions; whether plain `char`
      is signed is the compiler's choice, so it is a parameter. */
  function Promote(b: byte, signedChar: bool): (r: int)
    ensures r % 0x100 == b
  {
    if signedChar && b >= 0x80 then b - 0x100 else b
  }

  /** `x & m` for an int x of either sign and a mask m below 0x100: only the
      low byte of x takes part, and in two's complement that is x mod 256. */
  function AndLow(x: int, m: byte): nat
  {
    BitAnd(x % 0x100, m)
  }

  /** Conversion to `uint16_t`. */
  function ToU16(x: int): u16
  {
    x % 0x1_0000
  }

  /** How many bytes `utf8_codepoint` reads for a given lead byte. */
  function LeadLength(b0: byte): nat
  {
    if BitAnd(b0, 0x80) == 0 then 1
    else if BitAnd(b0, 0xE0) == 0xC0 then 2
    else if BitAnd(b0, 0xF0) == 0xE0 then 3
    else if BitAnd(b0, 0xF8) == 0xF0 then 4
    else 1
  }

  /** One continuation step, `codepoint <<= 6; codepoint |= c[i] & 0x3f;`,
      both assignments converting back to `uint16_t`. */
  function Shift6(cp: u16, b: byte, signedChar: bool): u16
  {
    ToU16(BitOr(ToU16(cp * 0x40), AndLow(Promote(b, signedChar), 0x3F)))
  }

  /** `utf8_codepoint(c)`: the code point at the start of a byte string. */
  function Utf8Codepoint(s: seq<byte>, signedChar: bool): u16
    requires 1 <= |s| && LeadLength(s[0]) <= |s|
  {
    var c0 := Promote(s[0], signedChar);
    var cp := ToU16(c0);
    if AndLow(c0, 0x80) == 0 then
      cp
    else if AndLow(c0, 0xE0) == 0xC0 then
      Shift6(ToU16(BitAnd(cp, 0x1F)), s[1], signedChar)
    else if AndLow(c0, 0xF0) == 0xE0 then
      Shift6(Shift6(ToU16(BitAnd(cp, 0x0F)), s[1], signedChar), s[2], signedChar)
    else if AndLow(c0, 0xF8) == 0xF0 then
      // the value is assembled from s[1], s[2] and s[3] and then discarded
      var _ := Shift6(Shift6(Shift6(ToU16(BitAnd(cp, 0x07)), s[1], signedChar), s[2], signedChar), s[3], signedChar);
      0xFFFD
    else
      0xFFFD
  }

  /** `x & 0x3F` is `x mod 64`. */
  lemma Low6(x: nat)
    ensures BitAnd(x, 0x3F) == x % 0x40
  {
    var hi, lo := x / 0x40, x % 0x40;
    assert x == hi * 0x40 + lo && lo < 0x40;
    Pow2Small();
    AndBelowSplit(x, hi, lo, 6);
  }

  /** `x & 0x1F` is `x mod 32`. */
  lemma Low5(x: nat)
    ensures BitAnd(x, 0x1F) == x % 0x20
  {
    var hi, lo := x / 0x20, x % 0x20;
    assert x == hi * 0x20 + lo && lo < 0x20;
    Pow2Small();
    AndBelowSplit(x, hi, lo, 5);
  }

  /** `x & 0x0F` is `x mod 16`. */
  lemma Low4(x: nat)
    ensures BitAnd(x, 0x0F) == x % 0x10
  {
    var hi, lo := x / 0x10, x % 0x10;
    assert x == hi * 0x10 + lo && lo < 0x10;
    Pow2Small();
    AndBelowSplit(x, hi, lo, 4);
  }

  /** The lead-byte classes tested by the decoder, as value ranges:
      `b & 0x80` is 0 below 0x80, and `b & 0xE0`, `b & 0xF0`, `b & 0xF8`
      are b with its low 5, 4 and 3 bits cleared. */
  lemma LeadClasses(b: byte)
    ensures (BitAnd(b, 0x80) == 0) <==> b < 0x80
    ensures (BitAnd(b, 0xE0) == 0xC0) <==> 0xC0 <= b < 0xE0
    ensures (BitAnd(b, 0xF0) == 0xE0) <==> 0xE0 <= b < 0xF0
    ensures (BitAnd(b, 0xF8) == 0xF0) <==> 0xF0 <= b < 0xF8
  {
    Top1(b);
    Top3(b);
    Top4(b);
    Top5(b);
  }

  lemma Top1(b: byte)
    ensures (BitAnd(b, 0x80) == 0) <==> b < 0x80
  {
    var hi, lo := b / 0x80, b % 0x80;
    assert b == hi * 0x80 + lo && lo < 0x80;
    assert BitAnd(b, 0x80) == BitAnd(hi, 1) * 0x80 by { Pow2Small(); AndAboveSplit(b, hi, lo, 1, 7); }
    assert BitAnd(0, 1) == 0 && BitAnd(1, 1) == 1;
  }

  lemma Top3(b: byte)
    ensures (BitAnd(b, 0xE0) == 0xC0) <==> 0xC0 <= b < 0xE0
  {
    var hi, lo := b / 0x20, b % 0x20;
    assert b == hi * 0x20 + lo && lo < 0x20 && hi < 8;
    assert BitAnd(b, 0xE0) == BitAnd(hi, 7) * 0x20 by { Pow2Small(); AndAboveSplit(b, hi, lo, 7, 5); }
    assert BitAnd(hi, 7) == hi by { Pow2Small(); AndBelow(hi, 3); }
    assert hi * 0x20 == 0xC0 <==> hi == 6;
  }

  lemma Top4(b: byte)
    ensures (BitAnd(b, 0xF0) == 0xE0) <==> 0xE0 <= b < 0xF0
  {
    var hi, lo := b / 0x10, b % 0x10;
    assert b == hi * 0x10 + lo && lo < 0x10 && hi < 0x10;
    assert BitAnd(b, 0xF0) == BitAnd(hi, 15) * 0x10 by { Pow2Small(); AndAboveSplit(b, hi, lo, 15, 4); }
    assert BitAnd(hi, 15) == hi by { Pow2Small(); AndBelow(hi, 4); }
    assert hi * 0x10 == 0xE0 <==> hi == 14;
  }

  lemma Top5(b: byte)
    ensures (BitAnd(b, 0xF8) == 0xF0) <==> 0xF0 <= b < 0xF8
  {
    var hi, lo := b / 8, b % 8;
    assert b == hi * 8 + lo && lo < 8 && hi < 0x20;
    assert BitAnd(b, 0xF8) == BitAnd(hi, 31) * 8 by { Pow2Small(); AndAboveSplit(b, hi, lo, 31, 3); }
    assert BitAnd(hi, 31) == hi by { Pow2Small(); AndBelow(hi, 5); }
    assert hi * 8 == 0xF0 <==> hi == 30;
  }

  /** The lead byte of each form written by the encoder, per section 3 of RFC 3629:
      the value bits of c placed after the 0, 110, 1110 and 10 prefixes. */
  lemma EncodeForms(c: u16)
    ensures c <= 0x7F ==> Utf8Encode(c) == [c]
    ensures 0x80 <= c <= 0x7FF ==>
      Utf8Encode(c) == [0xC0 + c / 0x40, 0x80 + c % 0x40]
    ensures 0x800 <= c ==>
      Utf8Encode(c) == [0xE0 + c / 0x1000, 0x80 + (c / 0x40) % 0x40, 0x80 + c % 0x40]
  {
    if 0x80 <= c <= 0x7FF {
      Encode2(c);
    } else if 0x800 <= c {
      Encode3(c);
    }
  }

  /** `x & 0x3F | 0x80`: a continuation byte carrying the low 6 bits of x. */
  lemma Continuation(x: nat)
    ensures BitOr(BitAnd(x, 0x3F), 0x80) == 0x80 + x % 0x40
  {
    Pow2Small();
    Low6(x);
    OrDisjoint(2, x % 0x40, 6);
    OrComm(0x80, x % 0x40);
  }

  /** The continuation byte as a `char`. */
  lemma ContinuationByte(x: nat)
    ensures Char(BitOr(BitAnd(x, 0x3F), 0x80)) == 0x80 + x % 0x40
  {
    var y := x % 0x40;
    Continuation(x);
    assert 0x80 + y < 0x100;
  }

  /** `x | 0xC0` for x below 0x20: the 2-byte lead prefix 110 before 5 value bits. */
  lemma Lead2(x: nat)
    requires x < 0x20
    ensures BitOr(x, 0xC0) == 0xC0 + x
  {
    Pow2Small();
    OrDisjoint(6, x, 5);
    OrComm(0xC0, x);
  }

  /** `x | 0xE0` for x below 0x10: the 3-byte lead prefix 1110 before 4 value bits. */
  lemma Lead3(x: nat)
    requires x < 0x10
    ensures BitOr(x, 0xE0) == 0xE0 + x
  {
    Pow2Small();
    OrDisjoint(14, x, 4);
    OrComm(0xE0, x);
  }

  /** The 2-byte lead as a `char`. */
  lemma LeadByte2(x: nat)
    requires x < 0x20
    ensures Char(BitOr(x, 0xC0)) == 0xC0 + x
  {
    var y := BitOr(x, 0xC0);
    assert y == 0xC0 + x < 0x100 by { Lead2(x); }
  }

  /** The 3-byte lead as a `char`. */
  lemma LeadByte3(x: nat)
    requires x < 0x10
    ensures Char(BitOr(x, 0xE0)) == 0xE0 + x
  {
    var y := BitOr(x, 0xE0);
    assert y == 0xE0 + x < 0x100 by { Lead3(x); }
  }

  lemma Encode2(c: u16)
    requires 0x80 <= c <= 0x7FF
    ensures Utf8Encode(c) == [0xC0 + c / 0x40, 0x80 + c % 0x40]
  {
    var e := Utf8Encode(c);
    assert e[0] == 0xC0 + c / 0x40 by { LeadByte2(c / 0x40); }
    assert e[1] == 0x80 + c % 0x40 by { ContinuationByte(c); }
  }

  lemma Encode3(c: u16)
    requires 0x800 <= c
    ensures Utf8Encode(c) == [0xE0 + c / 0x1000, 0x80 + (c / 0x40) % 0x40, 0x80 + c % 0x40]
  {
    var e := Utf8Encode(c);
    assert e[0] == 0xE0 + c / 0x1000 by { LeadByte3(c / 0x1000); }
    assert e[1] == 0x80 + (c / 0x40) % 0x40 by { ContinuationByte(c / 0x40); }
    assert e[2] == 0x80 + c % 0x40 by { ContinuationByte(c); }
  }

  /** Bytes written by the encoder: 1 for c <= 0x7F, 2 for c <= 0x7FF, 3 otherwise,
      and the lead byte alone tells the decoder how many to take. */
  lemma EncodeLeadLength(c: u16)
    ensures LeadLength(Utf8Encode(c)[0]) == |Utf8Encode(c)|
  {
    EncodeForms(c);
    LeadClasses(Utf8Encode(c)[0]);
  }

  /** What the decoder computes from the lead byte and the continuation
      bytes. The continuation bytes are only masked with 0x3F: their 10
      prefix is not checked, and overlong forms and surrogates are accepted.
      A 4-byte lead, and every other lead, gives U+FFFD. None of it depends
      on whether `char` is signed. */
  lemma CodepointForms(s: seq<byte>, signedChar: bool)
    requires 1 <= |s| && LeadLength(s[0]) <= |s|
    ensures s[0] < 0x80 ==> Utf8Codepoint(s, signedChar) == s[0]
    ensures 0xC0 <= s[0] < 0xE0 && 2 <= |s| ==>
      Utf8Codepoint(s, signedChar) == (s[0] as int % 0x20) * 0x40 + s[1] % 0x40
    ensures 0xE0 <= s[0] < 0xF0 && 3 <= |s| ==>
      Utf8Codepoint(s, signedChar) == (s[0] as int % 0x10) * 0x1000 + (s[1] as int % 0x40) * 0x40 + s[2] % 0x40
    ensures (0x80 <= s[0] < 0xC0 || 0xF0 <= s[0]) ==> Utf8Codepoint(s, signedChar) == 0xFFFD
  {
    LeadClasses(s[0]);
    if 0xC0 <= s[0] < 0xE0 {
      Decode2(s, signedChar);
    } else if 0xE0 <= s[0] < 0xF0 {
      Decode3(s, signedChar);
    }
  }

  /** A value that fits is its own `uint16_t` conversion. */
  lemma SmallU16(x: int)
    requires 0 <= x < 0x1_0000
    ensures ToU16(x) == x
  {
  }

  /** `cp & m` for the promoted lead byte and a mask below 0x20: the sign
      extension that a signed `char` brings only touches bits 8 and up. */
  lemma LeadLow(b0: byte, signedChar: bool)
    ensures BitAnd(ToU16(Promote(b0, signedChar)), 0x1F) == b0 % 0x20
    ensures BitAnd(ToU16(Promote(b0, signedChar)), 0x0F) == b0 % 0x10
  {
    var cp := ToU16(Promote(b0, signedChar));
    assert cp == b0 || cp == b0 + 0xFF00;
    assert (b0 + 0xFF00) % 0x20 == b0 % 0x20 && (b0 + 0xFF00) % 0x10 == b0 % 0x10;
    Low5(cp);
    Low4(cp);
  }

  /** `(x << 6) | y` is `x * 64 + y` when y has at most 6 bits. */
  lemma ShiftOr(x: nat, y: nat)
    requires y < 0x40
    ensures BitOr(x * 0x40, y) == x * 0x40 + y
  {
    Pow2Small();
    OrDisjoint(x, y, 6);
  }

  /** A continuation step appends the low 6 bits of the byte, whatever its
      prefix, as long as nothing is shifted out of the 16 bits. */
  lemma Shift6Value(cp: u16, b: byte, signedChar: bool)
    requires cp < 0x400
    ensures Shift6(cp, b, signedChar) == cp * 0x40 + b % 0x40
  {
    var y: int := b % 0x40;
    assert ToU16(cp * 0x40) == cp * 0x40;
    assert AndLow(Promote(b, signedChar), 0x3F) == y by { Low6(b); }
    assert BitOr(cp * 0x40, y) == cp * 0x40 + y by { ShiftOr(cp, y); }
  }

  lemma Decode2(s: seq<byte>, signedChar: bool)
    requires 1 <= |s| && LeadLength(s[0]) <= |s| && 2 <= |s| && 0xC0 <= s[0] < 0xE0
    ensures Utf8Codepoint(s, signedChar) == (s[0] as int % 0x20) * 0x40 + s[1] % 0x40
  {
    var c0 := Promote(s[0], signedChar);
    var lead: int := s[0] % 0x20;
    assert AndLow(c0, 0x80) != 0 && AndLow(c0, 0xE0) == 0xC0 by { LeadClasses(s[0]); }
    assert ToU16(BitAnd(ToU16(c0), 0x1F)) == lead by {
      LeadLow(s[0], signedChar);
      SmallU16(lead);
    }
    assert Shift6(lead, s[1], signedChar) == lead * 0x40 + s[1] % 0x40 by {
      Shift6Value(lead, s[1], signedChar);
    }
  }

  lemma Decode3(s: seq<byte>, signedChar: bool)
    requires 1 <= |s| && LeadLength(s[0]) <= |s| && 3 <= |s| && 0xE0 <= s[0] < 0xF0
    ensures Utf8Codepoint(s, signedChar) == (s[0] as int % 0x10) * 0x1000 + (s[1] as int % 0x40) * 0x40 + s[2] % 0x40
  {
    var c0 := Promote(s[0], signedChar);
    var lead: int := s[0] % 0x10;
    assert AndLow(c0, 0x80) != 0 && AndLow(c0, 0xE0) != 0xC0 && AndLow(c0, 0xF0) == 0xE0 by {
      LeadClasses(s[0]);
    }
    assert ToU16(BitAnd(ToU16(c0), 0x0F)) == lead by {
      LeadLow(s[0], signedChar);
      SmallU16(lead);
    }
    var hi := lead * 0x40 + s[1] % 0x40;
    assert Shift6(lead, s[1], signedChar) == hi by { Shift6Value(lead, s[1], signedChar); }
    assert Shift6(hi, s[2], signedChar) == hi * 0x40 + s[2] % 0x40 by { Shift6Value(hi, s[2], signedChar); }
  }

  /** The decoder gives the same result whether `char` is signed or not. */
  lemma SignednessIrrelevant(s: seq<byte>)
    requires 1 <= |s| && LeadLength(s[0]) <= |s|
    ensures Utf8Codepoint(s, true) == Utf8Codepoint(s, false)
  {
    LeadClasses(s[0]);
    CodepointForms(s, true);
    CodepointForms(s, false);
  }

  /** Round trip: decoding the NUL-terminated bytes `bmp_to_utf8(c)` writes gives c back,
      for every 16-bit c. */
  lemma RoundTrip(c: u16, signedChar: bool)
    ensures LeadLength((Utf8Encode(c) + [0])[0]) <= |Utf8Encode(c) + [0]|
    ensures Utf8Codepoint(Utf8Encode(c) + [0], signedChar) == c
  {
    EncodeLeadLength(c);
    if c <= 0x7F {
      RoundTrip1(c, signedChar);
    } else if c <= 0x7FF {
      RoundTrip2(c, signedChar);
    } else {
      RoundTrip3(c, signedChar);
    }
  }

  lemma RoundTrip1(c: u16, signedChar: bool)
    requires c <= 0x7F
    ensures LeadLength(c) == 1
    ensures Utf8Codepoint([c, 0], signedChar) == c
    ensures Utf8Encode(c) + [0] == [c, 0]
  {
    LeadClasses(c);
    CodepointForms([c, 0], signedChar);
  }

  lemma RoundTrip2(c: u16, signedChar: bool)
    requires 0x80 <= c <= 0x7FF
    ensures LeadLength((Utf8Encode(c) + [0])[0]) <= |Utf8Encode(c) + [0]|
    ensures Utf8Codepoint(Utf8Encode(c) + [0], signedChar) == c
  {
    Encode2(c);
    Decode2Of(c, Utf8Encode(c) + [0], signedChar);
  }

  lemma RoundTrip3(c: u16, signedChar: bool)
    requires 0x800 <= c
    ensures LeadLength((Utf8Encode(c) + [0])[0]) <= |Utf8Encode(c) + [0]|
    ensures Utf8Codepoint(Utf8Encode(c) + [0], signedChar) == c
  {
    Encode3(c);
    Decode3Of(c, Utf8Encode(c) + [0], signedChar);
  }

  /** The decoder takes the encoder's 2-byte form back to c. */
  lemma Decode2Of(c: u16, e: seq<byte>, signedChar: bool)
    requires 0x80 <= c <= 0x7FF
    requires e == [0xC0 + c / 0x40, 0x80 + c % 0x40, 0]
    ensures LeadLength(e[0]) <= |e|
    ensures Utf8Codepoint(e, signedChar) == c
  {
    LeadClasses(e[0]);
    Decode2(e, signedChar);
    Join2(c);
  }

  /** The decoder takes the encoder's 3-byte form back to c. */
  lemma Decode3Of(c: u16, e: seq<byte>, signedChar: bool)
    requires 0x800 <= c
    requires e == [0xE0 + c / 0x1000, 0x80 + (c / 0x40) % 0x40, 0x80 + c % 0x40, 0]
    ensures LeadLength(e[0]) <= |e|
    ensures Utf8Codepoint(e, signedChar) == c
  {
    LeadClasses(e[0]);
    Decode3(e, signedChar);
    Join3(c);
  }

  /** The decoder's 2-byte formula undoes the encoder's 2-byte form. */
  lemma Join2(c: int)
    requires 0x80 <= c <= 0x7FF
    ensures ((0xC0 + c / 0x40) % 0x20) * 0x40 + (0x80 + c % 0x40) % 0x40 == c
  {
  }

  /** The decoder's 3-byte formula undoes the encoder's 3-byte form. */
  lemma Join3(c: int)
    requires 0x800 <= c < 0x1_0000
    ensures ((0xE0 + c / 0x1000) % 0x10) * 0x1000 + ((0x80 + (c / 0x40) % 0x40) % 0x40) * 0x40
          + (0x80 + c % 0x40) % 0x40 == c
  {
    var a := c / 0x40;
    assert c == a * 0x40 + c % 0x40;
    assert a / 0x40 == c / 0x1000;
  }
}
