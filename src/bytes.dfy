/**
 * Machine integers and their byte encodings: `u8`, `u16`, `u32`, big-endian (`to_be_bytes`,
 * `from_be_bytes`) and little-endian (`to_le_bytes`, Python's `struct.pack('<I', ...)`).
 */
module Bytes {

  type byte = x: int | 0 <= x < 0x100
  type u16 = x: int | 0 <= x < 0x1_0000
  type u32 = x: int | 0 <= x < 0x1_0000_0000

  const U32_LIMIT: int := 0x1_0000_0000

  /** `[0u8; n]` */
  function Zeros(n: nat): (r: seq<byte>)
    ensures |r| == n
    ensures forall i :: 0 <= i < n ==> r[i] == 0
  {
    seq(n, _ => 0)
  }

  /** `x.to_be_bytes()` for a `u32`. */
  function BE32(x: u32): (r: seq<byte>)
    ensures |r| == 4
  {
    [x / 0x100_0000, (x / 0x1_0000) % 0x100, (x / 0x100) % 0x100, x % 0x100]
  }

  /** `u32::from_be_bytes` */
  function FromBE32(b: seq<byte>): (r: u32)
    requires |b| == 4
  {
    (b[0] as int) * 0x100_0000 + (b[1] as int) * 0x1_0000 + (b[2] as int) * 0x100 + b[3] as int
  }

  /** `x.to_le_bytes()` for a `u32`; also `struct.pack('<I', x)`. */
  function LE32(x: u32): (r: seq<byte>)
    ensures |r| == 4
  {
    [x % 0x100, (x / 0x100) % 0x100, (x / 0x1_0000) % 0x100, x / 0x100_0000]
  }

  /** `u32::from_le_bytes`, the way a little-endian reader (the RP2040, a UF2 loader) sees a word. */
  function FromLE32(b: seq<byte>): (r: u32)
    requires |b| == 4
  {
    (b[3] as int) * 0x100_0000 + (b[2] as int) * 0x1_0000 + (b[1] as int) * 0x100 + b[0] as int
  }

  lemma {:induction false} Split32(x: u32)
    ensures x == (x / 0x100_0000) * 0x100_0000 + ((x / 0x1_0000) % 0x100) * 0x1_0000
                 + ((x / 0x100) % 0x100) * 0x100 + x % 0x100
    ensures x / 0x100_0000 < 0x100
  {
    var a, b, c, d := x / 0x100_0000, (x / 0x1_0000) % 0x100, (x / 0x100) % 0x100, x % 0x100;
    assert x == (x / 0x100) * 0x100 + d;
    assert x / 0x100 == (x / 0x1_0000) * 0x100 + c;
    assert x / 0x1_0000 == a * 0x100 + b;
  }

  /** Decoding a big-endian encoding gives the number back. */
  lemma {:induction false} BE32RoundTrip(x: u32)
    ensures FromBE32(BE32(x)) == x
  {
    Split32(x);
  }

  /** Euclidean division by `d` recovers the quotient and remainder it was built from. */
  lemma DivModOf(q: int, r: int, d: int)
    requires d > 0 && 0 <= r < d
    ensures (q * d + r) / d == q && (q * d + r) % d == r
  {
    var z := q * d + r;
    var k := z / d - q;
    assert k * d == r - z % d;
  }

  /** Every 4 bytes are the big-endian encoding of exactly one number. */
  lemma {:induction false} BE32Onto(b: seq<byte>)
    requires |b| == 4
    ensures BE32(FromBE32(b)) == b
  {
    var x := FromBE32(b);
    var b0, b1, b2, b3 := b[0] as int, b[1] as int, b[2] as int, b[3] as int;
    var low := b2 * 0x100 + b3;
    DivModOf(b0 * 0x100 + b1, low, 0x1_0000);
    DivModOf(b0 * 0x1_0000 + b1 * 0x100 + b2, b3, 0x100);
    DivModOf(b0, b1 * 0x1_0000 + low, 0x100_0000);
    DivModOf(b0, b1, 0x100);
    DivModOf(b0 * 0x100 + b1, b2, 0x100);
  }

  /** Decoding a little-endian encoding gives the number back. */
  lemma {:induction false} LE32RoundTrip(x: u32)
    ensures FromLE32(LE32(x)) == x
  {
    Split32(x);
  }

  /** Every 4 bytes are the little-endian encoding of exactly one number. */
  lemma LE32Onto(b: seq<byte>)
    requires |b| == 4
    ensures LE32(FromLE32(b)) == b
  {
    var r := [b[3], b[2], b[1], b[0]];
    BE32Onto(r);
    assert FromLE32(b) == FromBE32(r);
  }

  /**
   * `a[at..at + src.len()].copy_from_slice(src)`: the sub-range takes the source bytes,
   * every other element keeps its value.
   */
  method CopyFromSlice(a: array<byte>, at: nat, src: seq<byte>)
    requires at + |src| <= a.Length
    modifies a
    ensures a[..] == old(a[..at]) + src + old(a[at + |src|..])
  {
    var i := 0;
    while i < |src|
      invariant 0 <= i <= |src|
      invariant forall k :: 0 <= k < a.Length ==> a[k] == if at <= k < at + i then src[k - at] else old(a[k])
    {
      a[at + i] := src[i];
      i := i + 1;
    }
    assert a[..] == old(a[..at]) + src + old(a[at + |src|..]);
  }
}
