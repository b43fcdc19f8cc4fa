/** Bytes, fixed-width unsigned words in little-endian order, and the two libc
    routines (`memset`, `memcpy`) that the file system uses on its buffers. */
module Bytes {

  type byte = x: int | 0 <= x < 0x100
  type u16 = x: int | 0 <= x < 0x1_0000
  type u32 = x: int | 0 <= x < 0x1_0000_0000

  function Min(a: int, b: int): int { if a < b then a else b }

  // `s` cut to at most `n` elements.
  function Take<T>(s: seq<T>, n: nat): seq<T> { s[..Min(n, |s|)] }

  // `s` with `t` written over it at `at`.
  function Over(s: seq<byte>, at: nat, t: seq<byte>): (r: seq<byte>)
    requires at + |t| <= |s|
    ensures |r| == |s|
  {
    s[..at] + t + s[at + |t|..]
  }

  function Le16(lo: byte, hi: byte): u16 { lo + 0x100 * hi }

  function Le32(b0: byte, b1: byte, b2: byte, b3: byte): u32 {
    b0 + 0x100 * b1 + 0x1_0000 * b2 + 0x100_0000 * b3
  }

  function ToLe16(w: u16): seq<byte> { [w % 0x100, w / 0x100] }

  function ToLe32(w: u32): seq<byte> {
    [w % 0x100, w / 0x100 % 0x100, w / 0x1_0000 % 0x100, w / 0x100_0000]
  }

  lemma Le32RoundTrip(w: u32)
    ensures Le32(w % 0x100, w / 0x100 % 0x100, w / 0x1_0000 % 0x100, w / 0x100_0000) == w
  {
    assert w / 0x1_0000 == w / 0x100 / 0x100;
    assert w / 0x100_0000 == w / 0x1_0000 / 0x100;
  }

  // A two's-complement reading of a 32-bit word, as the cast `(int)` gives it.
  function AsInt32(w: u32): int { if w < 0x8000_0000 then w else w - 0x1_0000_0000 }

  /** libc/string.c: memset over `a[off..off+n]`. */
  method Memset(a: array<byte>, off: nat, c: byte, n: nat)
    requires off + n <= a.Length
    modifies a
    ensures a[..] == Over(old(a[..]), off, seq(n, _ => c))
  {
    for i := 0 to n
      invariant forall k :: off <= k < off + i ==> a[k] == c
      invariant forall k :: 0 <= k < a.Length && !(off <= k < off + i) ==> a[k] == old(a[k])
    {
      a[off + i] := c;
    }
  }

  /** libc/string.c: memcpy of `src[from..from+n]` over `dst[off..off+n]`. */
  method Memcpy(dst: array<byte>, off: nat, src: seq<byte>, from: nat, n: nat)
    requires off + n <= dst.Length && from + n <= |src|
    modifies dst
    ensures dst[..] == Over(old(dst[..]), off, src[from..from + n])
  {
    for i := 0 to n
      invariant forall k :: off <= k < off + i ==> dst[k] == src[from + (k - off)]
      invariant forall k :: 0 <= k < dst.Length && !(off <= k < off + i) ==> dst[k] == old(dst[k])
    {
      dst[off + i] := src[from + i];
    }
  }
}
