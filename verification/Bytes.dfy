/** Machine integers, little-endian fields, and in-place overwriting of byte strings. */
module Bytes {

  type byte = x: int | 0 <= x < 256
  type u16 = x: int | 0 <= x < 0x1_0000
  type u32 = x: int | 0 <= x < 0x1_0000_0000
  type u64 = x: int | 0 <= x < 0x1_0000_0000_0000_0000
  type i64 = x: int | -0x8000_0000_0000_0000 <= x < 0x8000_0000_0000_0000

  const U16_MAX: u16 := 0xFFFF
  const U32_MAX: u32 := 0xFFFF_FFFF
  const U64_MAX: u64 := 0xFFFF_FFFF_FFFF_FFFF

  function Le16(v: u16): (b: seq<byte>)
    ensures |b| == 2
  {
    [v % 256, v / 256]
  }

  function Le32(v: u32): (b: seq<byte>)
    ensures |b| == 4
  {
    Le16(v % 0x1_0000) + Le16(v / 0x1_0000)
  }

  function Le64(v: u64): (b: seq<byte>)
    ensures |b| == 8
  {
    Le32(v % 0x1_0000_0000) + Le32(v / 0x1_0000_0000)
  }

  function U16At(b: seq<byte>, o: nat): u16
    requires o + 2 <= |b|
  {
    var low: int, high: int := b[o], b[o + 1];
    low + 256 * high
  }

  function U32At(b: seq<byte>, o: nat): u32
    requires o + 4 <= |b|
  {
    var low: int, high: int := U16At(b, o), U16At(b, o + 2);
    low + 0x1_0000 * high
  }

  function U64At(b: seq<byte>, o: nat): u64
    requires o + 8 <= |b|
  {
    var low: int, high: int := U32At(b, o), U32At(b, o + 4);
    low + 0x1_0000_0000 * high
  }

  function Zeros(n: nat): (z: seq<byte>)
    ensures |z| == n
  {
    seq(n, i => 0)
  }

  /** `b` with the bytes from `o` on overwritten by `src`; the length stays the same. */
  function Splice(b: seq<byte>, o: nat, src: seq<byte>): (r: seq<byte>)
    requires o + |src| <= |b|
    ensures |r| == |b|
    ensures forall i | 0 <= i < |r| :: r[i] == if o <= i < o + |src| then src[i - o] else b[i]
  {
    seq(|b|, i requires 0 <= i < |b| => if o <= i < o + |src| then src[i - o] else b[i])
  }

  lemma Le16RoundTrip(v: u16)
    ensures U16At(Le16(v), 0) == v
  {
  }

  lemma Le16Unique(b: seq<byte>, o: nat)
    requires o + 2 <= |b|
    ensures Le16(U16At(b, o)) == b[o..o + 2]
  {
  }

  lemma Le32RoundTrip(v: u32)
    ensures U32At(Le32(v), 0) == v
  {
    Le16RoundTrip(v % 0x1_0000);
    Le16RoundTrip(v / 0x1_0000);
  }

  lemma Le32Unique(b: seq<byte>, o: nat)
    requires o + 4 <= |b|
    ensures Le32(U32At(b, o)) == b[o..o + 4]
  {
    Le16Unique(b, o);
    Le16Unique(b, o + 2);
    var v := U32At(b, o);
    assert v % 0x1_0000 == U16At(b, o) && v / 0x1_0000 == U16At(b, o + 2);
  }

  lemma Le64RoundTrip(v: u64)
    ensures U64At(Le64(v), 0) == v
  {
    Le32RoundTrip(v % 0x1_0000_0000);
    Le32RoundTrip(v / 0x1_0000_0000);
    var b := Le64(v);
    U32Shift(b, 0, Le32(v % 0x1_0000_0000), 0);
    U32Shift(b, 4, Le32(v / 0x1_0000_0000), 0);
  }

  lemma Le64Unique(b: seq<byte>, o: nat)
    requires o + 8 <= |b|
    ensures Le64(U64At(b, o)) == b[o..o + 8]
  {
    Le32Unique(b, o);
    Le32Unique(b, o + 4);
    var v := U64At(b, o);
    assert v % 0x1_0000_0000 == U32At(b, o) && v / 0x1_0000_0000 == U32At(b, o + 4);
  }

  /** A field reads the same in any two strings that agree on its bytes. */
  lemma U32Shift(b: seq<byte>, o: nat, c: seq<byte>, p: nat)
    requires o + 4 <= |b| && p + 4 <= |c|
    requires b[o..o + 4] == c[p..p + 4]
    ensures U32At(b, o) == U32At(c, p)
  {
    assert b[o] == b[o..o + 4][0] && b[o + 1] == b[o..o + 4][1];
    assert b[o + 2] == b[o..o + 4][2] && b[o + 3] == b[o..o + 4][3];
  }

  lemma U64Shift(b: seq<byte>, o: nat, c: seq<byte>, p: nat)
    requires o + 8 <= |b| && p + 8 <= |c|
    requires b[o..o + 8] == c[p..p + 8]
    ensures U64At(b, o) == U64At(c, p)
  {
    assert b[o..o + 4] == b[o..o + 8][..4] == c[p..p + 4];
    assert b[o + 4..o + 8] == b[o..o + 8][4..] == c[p + 4..p + 8];
    U32Shift(b, o, c, p);
    U32Shift(b, o + 4, c, p + 4);
  }
}
