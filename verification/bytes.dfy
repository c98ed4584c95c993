/**
 Fixed-width unsigned integers and the 4-byte words the trace file is made of.

 The trace stores its header and program counters in network byte order
 (big-endian, the order `ntohl` converts from); the outcome word is read in
 the host's own order and only ever compared with zero.
 */
module Bytes {

  /** A file byte, `uint8_t`. */
  type byte = x: int | 0 <= x < 0x100

  /** The C++ `uint32_t`. */
  type uint32 = x: int | 0 <= x < 0x1_0000_0000

  /** Number of distinct `uint32_t` values; arithmetic on them is modulo this. */
  const UINT32_MODULUS: int := 0x1_0000_0000

  /** Size in bytes of one `fread` of a `uint32_t`. */
  const WORD_SIZE: nat := 4

  /** `x + 1` on a `uint32_t` counter: wraps to 0 past the largest value. */
  function Inc(x: uint32): (r: uint32)
    ensures x < 0xFFFF_FFFF ==> r == x + 1
    ensures x == 0xFFFF_FFFF ==> r == 0
  {
    (x + 1) % UINT32_MODULUS
  }

  /** Big-endian value of four bytes: what `ntohl` yields for a word read from the file. */
  function BE32(b: seq<byte>): (w: uint32)
    requires |b| == WORD_SIZE
    ensures w == 0 <==> forall i | 0 <= i < WORD_SIZE :: b[i] == 0
  {
    (((b[0] as int) * 0x100 + b[1] as int) * 0x100 + b[2] as int) * 0x100 + b[3] as int
  }

  /** Value of four bytes read as a `uint32_t` on a little-endian host (no `ntohl`). */
  function HostWord(b: seq<byte>): (w: uint32)
    requires |b| == WORD_SIZE
    ensures w == 0 <==> forall i | 0 <= i < WORD_SIZE :: b[i] == 0
  {
    (((b[3] as int) * 0x100 + b[2] as int) * 0x100 + b[1] as int) * 0x100 + b[0] as int
  }

  /** The four bytes that store `w` in network byte order, most significant first. */
  function EncodeBE32(w: uint32): (b: seq<byte>)
    ensures |b| == WORD_SIZE
    ensures BE32(b) == w
  {
    var w1 := w / 0x100;
    var w2 := w1 / 0x100;
    SplitByte(w);
    SplitByte(w1);
    SplitByte(w2);
    [w2 / 0x100, w2 % 0x100, w1 % 0x100, w % 0x100]
  }

  /** Any natural number splits into a quotient and a low byte. */
  lemma SplitByte(a: nat)
    ensures a == (a / 0x100) * 0x100 + a % 0x100
    ensures 0 <= a % 0x100 < 0x100
    ensures a < 0x1_0000_0000 ==> a / 0x100 < 0x100_0000
    ensures a < 0x100_0000 ==> a / 0x100 < 0x1_0000
    ensures a < 0x1_0000 ==> a / 0x100 < 0x100
  {
  }

  /** Division by 256 is determined by quotient and remainder. */
  lemma DivMod256(a: int, q: int, r: int)
    requires 0 <= r < 0x100
    requires a == q * 0x100 + r
    ensures a / 0x100 == q && a % 0x100 == r
  {
  }

  /** Big-endian decoding is injective: re-encoding a decoded word gives back its bytes. */
  lemma {:induction false} EncodeDecodeBE32(b: seq<byte>)
    requires |b| == WORD_SIZE
    ensures EncodeBE32(BE32(b)) == b
  {
    var w := BE32(b);
    var w2: int := (b[0] as int) * 0x100 + b[1];
    var w1: int := w2 * 0x100 + b[2];
    DivMod256(w, w1, b[3]);
    DivMod256(w1, w2, b[2]);
    DivMod256(w2, b[0], b[1]);
    var e := EncodeBE32(w);
    assert e[0] == b[0] && e[1] == b[1] && e[2] == b[2] && e[3] == b[3];
  }

  /** Whether a word is zero does not depend on the byte order it is read in. */
  lemma ZeroIndependentOfByteOrder(b: seq<byte>)
    requires |b| == WORD_SIZE
    ensures HostWord(b) == 0 <==> BE32(b) == 0
  {
  }
}
