/** Fixed-width integers and the big-endian scalar formats of the sfnt container
    (section 4.3 of ISO/IEC 14496-22: every multi-byte field is stored most
    significant byte first). The font file is a `seq<byte>`, never modified. */
module Bytes {

  type byte = x: int | 0 <= x < 0x100
  type u16 = x: int | 0 <= x < 0x1_0000
  type i16 = x: int | -0x8000 <= x < 0x8000
  type u32 = x: int | 0 <= x < 0x1_0000_0000
  type u64 = x: int | 0 <= x < 0x1_0000_0000_0000_0000

  /** Two bytes at p, most significant first (`read_16`: `ms << 8 | ls`). */
  function U16At(d: seq<byte>, p: nat): u16
    requires p + 2 <= |d|
  {
    (d[p] as int) * 0x100 + d[p + 1]
  }

  /** Two 16-bit halves, the one at p first (`read_32`: `ms << 16 | ls`). */
  function U32At(d: seq<byte>, p: nat): u32
    requires p + 4 <= |d|
  {
    U16At(d, p) * 0x1_0000 + U16At(d, p + 2)
  }

  /** Two 32-bit halves, the one at p first (`read_date`: `ms << 32 | ls`). */
  function U64At(d: seq<byte>, p: nat): u64
    requires p + 8 <= |d|
  {
    U32At(d, p) * 0x1_0000_0000 + U32At(d, p + 4)
  }

  /** The C conversion `(int16_t) x` of a 16-bit word (two's complement). */
  function AsI16(x: u16): (r: i16)
    ensures r % 0x1_0000 == x
    ensures 0 <= r <==> x < 0x8000
  {
    if x < 0x8000 then x else x - 0x1_0000
  }

  /** The 16-bit words at p, p + 2, ..., n of them. */
  function Words(d: seq<byte>, p: nat, n: nat): (r: seq<u16>)
    requires p + 2 * n <= |d|
    ensures |r| == n
    ensures forall i :: 0 <= i < n ==> r[i] == U16At(d, p + 2 * i)
  {
    seq(n, i requires 0 <= i < n => U16At(d, p + 2 * i))
  }

  /** Reading m + n words is reading m words and then n more from where they end. */
  lemma WordsSplit(d: seq<byte>, p: nat, m: nat, n: nat)
    requires p + 2 * (m + n) <= |d|
    ensures Words(d, p, m + n) == Words(d, p, m) + Words(d, p + 2 * m, n)
  {
  }

  /** A 32-bit field is its four bytes, most significant first. */
  lemma U32AtBytes(d: seq<byte>, p: nat)
    requires p + 4 <= |d|
    ensures U32At(d, p) == (d[p] as int) * 0x100_0000 + (d[p + 1] as int) * 0x1_0000 + (d[p + 2] as int) * 0x100 + d[p + 3]
  {
  }

  /** A 64-bit field is its eight bytes, most significant first. */
  lemma U64AtBytes(d: seq<byte>, p: nat)
    requires p + 8 <= |d|
    ensures U64At(d, p) == (d[p] as int) * 0x100_0000_0000_0000 + (d[p + 1] as int) * 0x1_0000_0000_0000
                         + (d[p + 2] as int) * 0x100_0000_0000 + (d[p + 3] as int) * 0x1_0000_0000
                         + (d[p + 4] as int) * 0x100_0000 + (d[p + 5] as int) * 0x1_0000
                         + (d[p + 6] as int) * 0x100 + d[p + 7]
  {
    U32AtBytes(d, p);
    U32AtBytes(d, p + 4);
  }
}
