/** Fixed-width C++ integers and the little-endian byte layout that `memcpy`
    gives them on the little-endian hosts the library targets. Every width is
    written out: `uint8_t`, `uint32_t`, a 32-bit `int`. */
module Bytes {

  const TwoTo32: int := 0x1_0000_0000

  /** uint8_t */
  type byte = b: int | 0 <= b < 256

  /** uint32_t (also the bit pattern of a 32-bit `int`) */
  type u32 = n: int | 0 <= n < 0x1_0000_0000

  /** a 32-bit `int` */
  type i32 = n: int | -0x8000_0000 <= n < 0x8000_0000

  datatype Option<+T> = None | Some(value: T)

  /** The conversion `int -> uint32_t`: the value modulo 2^32. */
  function ToUnsigned(i: i32): (u: u32)
    ensures u % TwoTo32 == i % TwoTo32
    ensures 0 <= i ==> u == i
  {
    if i < 0 then i + TwoTo32 else i
  }

  /** The conversion `uint32_t -> int`: the 32-bit int with the same bit pattern. */
  function ToSigned(u: u32): (i: i32)
    ensures ToUnsigned(i) == u
    ensures u < 0x8000_0000 ==> i == u
  {
    if u < 0x8000_0000 then u else u - TwoTo32
  }

  /** The conversion `size_t -> uint32_t` of a non-negative size: truncation. */
  function Truncate32(n: nat): (u: u32)
    ensures n < TwoTo32 ==> u == n
    ensures (n - u) % TwoTo32 == 0
  {
    n % TwoTo32
  }

  /** The four bytes `memcpy` copies out of a uint32_t, least significant first. */
  function LE32(n: u32): (r: seq<byte>)
    ensures |r| == 4
    ensures FromLE32(r) == n
  {
    [n % 256, (n / 256) % 256, (n / 0x1_0000) % 256, n / 0x100_0000]
  }

  /** The uint32_t that `memcpy` rebuilds from four bytes. */
  function FromLE32(s: seq<byte>): u32
    requires |s| == 4
  {
    s[0] as int + 256 * (s[1] as int + 256 * (s[2] as int + 256 * s[3] as int))
  }

  /** The four bytes of a 32-bit `int` (two's complement). */
  function IntBytes(i: i32): (r: seq<byte>)
    ensures |r| == 4
    ensures ToSigned(FromLE32(r)) == i
  {
    LE32(ToUnsigned(i))
  }

  /** Arithmetic helper for LE32OfFromLE32: a byte plus a multiple of 256
      splits back into the byte and the multiple. */
  lemma DivMod256(a: int, q: int)
    requires 0 <= a < 256
    ensures (a + 256 * q) % 256 == a && (a + 256 * q) / 256 == q
  {
  }

  /** Every four-byte string is the layout of exactly one uint32_t. */
  lemma LE32OfFromLE32(s: seq<byte>)
    requires |s| == 4
    ensures LE32(FromLE32(s)) == s
  {
    var c := s[2] as int + 256 * s[3] as int;
    var b := s[1] as int + 256 * c;
    var n := FromLE32(s);
    DivMod256(s[0], b);
    DivMod256(s[1], c);
    DivMod256(s[2], s[3]);
    assert n / 0x1_0000 == (n / 256) / 256;
    assert n / 0x100_0000 == ((n / 256) / 256) / 256;
  }
}
