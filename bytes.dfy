/**
 * Byte strings as Python's `bytes` sees them: clipping slices and the
 * little-endian unsigned 32-bit integer that `struct.unpack('<I', ...)` reads.
 */
module Bytes {

  /** One element of a Python `bytes` object. */
  type Byte = b: int | 0 <= b < 256

  const U32Limit: int := 0x1_0000_0000

  function Min(a: int, b: int): int { if a <= b then a else b }

  /**
   * Python's `s[lo:hi]` for non-negative bounds: it never raises; bounds past
   * the end are clipped to the end, so the result may be shorter than
   * `hi - lo`, or empty.
   */
  function Slice<T>(s: seq<T>, lo: nat, hi: nat): (r: seq<T>)
    requires lo <= hi
    ensures |r| == if lo >= |s| then 0 else Min(hi, |s|) - lo
    ensures forall i :: 0 <= i < |r| ==> r[i] == s[lo + i]
    ensures hi <= |s| ==> r == s[lo..hi]
  {
    if lo >= |s| then [] else s[lo..Min(hi, |s|)]
  }

  /** `struct.unpack('<I', b)[0]`: four bytes, least significant first. */
  function U32LE(b: seq<Byte>): (n: nat)
    requires |b| == 4
    ensures n < U32Limit
  {
    b[0] as int + 0x100 * b[1] as int + 0x1_0000 * b[2] as int + 0x100_0000 * b[3] as int
  }

  /** `struct.pack('<I', n)`: the inverse of U32LE. */
  function U32LEBytes(n: nat): (b: seq<Byte>)
    requires n < U32Limit
    ensures |b| == 4
  {
    [n % 0x100, (n / 0x100) % 0x100, (n / 0x1_0000) % 0x100, n / 0x100_0000]
  }

  lemma U32LERoundTrip(n: nat)
    requires n < U32Limit
    ensures U32LE(U32LEBytes(n)) == n
  {
    var b := U32LEBytes(n);
    assert n / 0x100_0000 == (n / 0x1_0000) / 0x100;
    assert n / 0x1_0000 == (n / 0x100) / 0x100;
  }

  lemma U32LEBytesRoundTrip(b: seq<Byte>)
    requires |b| == 4
    ensures U32LEBytes(U32LE(b)) == b
  {
    var n := U32LE(b);
    var m2 := b[2] as int + 0x100 * b[3] as int;
    var m1 := b[1] as int + 0x100 * m2;
    assert n == b[0] as int + 0x100 * m1;
    DivMod256(m1, b[0]);
    DivMod256(m2, b[1]);
    DivMod256(b[3], b[2]);
    assert n / 0x1_0000 == m2 by {
      assert n == (b[0] as int + 0x100 * b[1] as int) + 0x1_0000 * m2;
    }
    assert n / 0x100_0000 == b[3] by {
      assert n == (b[0] as int + 0x100 * b[1] as int + 0x1_0000 * b[2] as int) + 0x100_0000 * b[3] as int;
    }
  }

  /** Splitting off the low byte of a number. */
  lemma DivMod256(q: int, r: int)
    requires 0 <= q && 0 <= r < 0x100
    ensures (r + 0x100 * q) / 0x100 == q && (r + 0x100 * q) % 0x100 == r
  {
  }
}
