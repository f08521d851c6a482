/**
 Machine words and the byte-order macros of utils.h.

 The stack is written for a little-endian host (tcp.h:48, ip.h:17): a `u16` or `u32` field of a
 packed header is loaded and stored low byte first, and HTONS/HTONL turn that into network order.
 An IPv4 address is the little-endian word `iaddr` of the union in address.h:13-18.
 */
module Bytes {
  import opened Arithmetic

  type u8 = x: int | 0 <= x < 0x100
  type u16 = x: int | 0 <= x < 0x1_0000
  type u32 = x: int | 0 <= x < 0x1_0000_0000
  type bytes = seq<u8>

  datatype Option<+T> = None | Some(value: T)

  function Min(a: nat, b: nat): nat {
    if a < b then a else b
  }

  /** Unsigned 32-bit arithmetic. */
  function Wrap(n: nat): u32 {
    n % 0x1_0000_0000
  }

  lemma WrapSmall(n: nat)
    requires n < 0x1_0000_0000
    ensures Wrap(n) == n
  {
  }

  lemma WrapAdd(a: nat, b: nat)
    ensures Wrap(Wrap(a) + b) == Wrap(a + b)
  {
    DivMod(a, 0x1_0000_0000);
    ModShift(a % 0x1_0000_0000 + b, a / 0x1_0000_0000, 0x1_0000_0000);
  }

  /** The 16-bit number with the given high and low bytes. */
  function Pair(hi: u8, lo: u8): u16 {
    0x100 * (hi as int) + lo as int
  }

  /** Byte `i` of a word, the lowest first. */
  function Byte(n: u32, i: nat): u8
    requires i < 4
  {
    if i == 0 then Lo(n) else if i == 1 then Lo(Hi(n)) else if i == 2 then Lo(Hi(Hi(n))) else Hi(Hi(Hi(n)))
  }

  function Htons(n: u16): u16 {
    Pair(Lo(n), Hi(n))
  }

  function Htonl(n: u32): u32 {
    0x1_0000 * (Pair(Byte(n, 0), Byte(n, 1)) as int) + Pair(Byte(n, 2), Byte(n, 3)) as int
  }

  /** Storing an unsigned field in memory. */
  function Store16(n: u16): (b: bytes)
    ensures |b| == 2
  {
    [Lo(n), Hi(n)]
  }

  function Store32(n: u32): (b: bytes)
    ensures |b| == 4
  {
    [Byte(n, 0), Byte(n, 1), Byte(n, 2), Byte(n, 3)]
  }

  /** Loading the field that starts at offset `i`. */
  function Load16(b: bytes, i: nat): u16
    requires i + 2 <= |b|
  {
    Pair(b[i + 1], b[i])
  }

  function Load32(b: bytes, i: nat): u32
    requires i + 4 <= |b|
  {
    0x1_0000 * (Load16(b, i + 2) as int) + Load16(b, i) as int
  }

  function Zeros(n: nat): (z: bytes)
    ensures |z| == n
  {
    seq(n, _ => 0)
  }

  /** memcpy of `src` onto `b` at offset `at`. */
  function Splice(b: bytes, at: nat, src: bytes): (r: bytes)
    requires at + |src| <= |b|
    ensures |r| == |b|
  {
    b[..at] + src + b[at + |src|..]
  }

  /** A word is made of its bytes, in one way only. */
  lemma BytesOf(n: u32)
    ensures n == Byte(n, 0) as int + Byte(n, 1) as int * 0x100 + Byte(n, 2) as int * 0x1_0000 + Byte(n, 3) as int * 0x100_0000
  {
    HiLo(n);
    HiLo(Hi(n));
    HiLo(Hi(Hi(n)));
  }

  lemma BytesUnique(a: u8, b: u8, c: u8, d: u8)
    ensures var n := a as int + b as int * 0x100 + c as int * 0x1_0000 + d as int * 0x100_0000;
            Byte(n, 0) == a && Byte(n, 1) == b && Byte(n, 2) == c && Byte(n, 3) == d
  {
    HiLoUnique(b as int + c as int * 0x100 + d as int * 0x1_0000, a);
    HiLoUnique(c as int + d as int * 0x100, b);
    HiLoUnique(d, c);
  }

  lemma PairParts(hi: u8, lo: u8)
    ensures Lo(Pair(hi, lo)) == lo && Hi(Pair(hi, lo)) == hi
    ensures Htons(Pair(hi, lo)) == Pair(lo, hi)
  {
    HiLoUnique(hi, lo);
  }

  lemma PairOf(n: u16)
    ensures n == Pair(Hi(n), Lo(n))
  {
    HiLo(n);
  }

  lemma HtonsInvolution(n: u16)
    ensures Htons(Htons(n)) == n
  {
    PairOf(n);
    PairParts(Lo(n), Hi(n));
  }

  /** HTONL is its own inverse, and what it stores is the big-endian representation. */
  lemma HtonlInvolution(n: u32)
    ensures Htonl(Htonl(n)) == n
    ensures Store32(Htonl(n)) == [Byte(n, 3), Byte(n, 2), Byte(n, 1), Byte(n, 0)]
  {
    hide Byte;
    BytesOf(n);
    BytesUnique(Byte(n, 3), Byte(n, 2), Byte(n, 1), Byte(n, 0));
  }

  lemma LoadStore16(n: u16)
    ensures Load16(Store16(n), 0) == n
  {
    PairOf(n);
  }

  lemma NetworkOrder16(n: u16)
    ensures Store16(Htons(n)) == [Hi(n), Lo(n)]
  {
    PairParts(Lo(n), Hi(n));
  }

  lemma LoadStore32(n: u32)
    ensures Load32(Store32(n), 0) == n
  {
    hide Byte;
    BytesOf(n);
  }
}
