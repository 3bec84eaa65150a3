/**
 * The wire format shared by the server and the client: every message travels as a
 * 4-byte little-endian unsigned length followed by that many payload bytes.
 */
module Wire {

  type Byte = b: int | 0 <= b < 256

  const U32_MODULUS: int := 0x1_0000_0000

  /** A 32-bit unsigned integer (`uint32_t`, `u32`). */
  type U32 = n: int | 0 <= n < U32_MODULUS

  const U64_MODULUS: int := 0x1_0000_0000_0000_0000

  /** An unsigned 64-bit integer, as window handles travel. */
  type U64 = n: int | 0 <= n < U64_MODULUS

  /** `static_cast<uint32_t>(size)` and Rust's `len as u32`: keep the low 32 bits. */
  function Truncate32(n: nat): (r: U32)
    ensures n < U32_MODULUS ==> r == n
    ensures (r - n) % U32_MODULUS == 0
  {
    n % U32_MODULUS
  }

  /** The four bytes of `n`, least significant first (`to_le_bytes`, `memcpy` on x86). */
  function LeBytes(n: U32): (b: seq<Byte>)
    ensures |b| == 4
  {
    [n % 256, n / 256 % 256, n / 256 / 256 % 256, n / 256 / 256 / 256]
  }

  /** The value of four bytes read least significant first (`from_le_bytes`). */
  function LeValue(b: seq<Byte>): U32
    requires |b| == 4
  {
    b[0] as int + 256 * (b[1] as int) + 65536 * (b[2] as int) + 16777216 * (b[3] as int)
  }

  /** Splitting off the low byte of `lo + 256 * hi`. */
  lemma DivMod256(x: int, lo: int, hi: int)
    requires 0 <= lo < 256 && x == lo + 256 * hi
    ensures x / 256 == hi && x % 256 == lo
  {
  }

  lemma LeValueOfLeBytes(n: U32)
    ensures |LeBytes(n)| == 4
    ensures LeValue(LeBytes(n)) == n
  {
    var b := LeBytes(n);
    assert n == b[0] + 256 * (n / 256);
    assert n / 256 == b[1] + 256 * (n / 256 / 256);
    assert n / 256 / 256 == b[2] as int + 256 * (b[3] as int);
  }

  lemma LeBytesOfLeValue(b: seq<Byte>)
    requires |b| == 4
    ensures LeBytes(LeValue(b)) == b
  {
    var n := LeValue(b);
    var h1 := b[1] as int + 256 * (b[2] as int) + 65536 * (b[3] as int);
    var h2 := b[2] as int + 256 * (b[3] as int);
    DivMod256(n, b[0], h1);
    DivMod256(h1, b[1], h2);
    DivMod256(h2, b[2], b[3]);
  }

  /** One frame on the wire: the truncated length of `payload`, then `payload`. */
  function Frame(payload: seq<Byte>): (f: seq<Byte>)
    ensures |f| == 4 + |payload| && f[4..] == payload
  {
    LeBytes(Truncate32(|payload|)) + payload
  }

  /** The frames of `payloads`, back to back. */
  function Frames(payloads: seq<seq<Byte>>): seq<Byte>
  {
    if payloads == [] then [] else Frame(payloads[0]) + Frames(payloads[1..])
  }

  /** Every payload fits the 32-bit length field. */
  predicate Framable(payloads: seq<seq<Byte>>)
  {
    forall i :: 0 <= i < |payloads| ==> |payloads[i]| < U32_MODULUS
  }

  /** The length declared by the first four bytes of `buf`. */
  function DeclaredLength(buf: seq<Byte>): U32
    requires |buf| >= 4
  {
    LeValue(buf[..4])
  }

  /** Re-prefixing the payload a buffer declares gives back the buffer's first frame. */
  lemma FrameOfDeclared(buf: seq<Byte>)
    requires |buf| >= 4 && |buf| >= 4 + DeclaredLength(buf)
    ensures Frame(buf[4..4 + DeclaredLength(buf)]) == buf[..4 + DeclaredLength(buf)]
  {
    var n: int := 4 + DeclaredLength(buf);
    var p := buf[4..n];
    LeBytesOfLeValue(buf[..4]);
    assert Truncate32(|p|) == DeclaredLength(buf);
    assert buf[..4] + p == buf[..n];
  }

  /** A frame for a payload that fits starts with that payload's length. */
  lemma {:induction false} FrameHeader(payload: seq<Byte>, rest: seq<Byte>)
    requires |payload| < U32_MODULUS
    ensures |Frame(payload) + rest| >= 4 + |payload|
    ensures DeclaredLength(Frame(payload) + rest) == |payload|
    ensures (Frame(payload) + rest)[4..4 + |payload|] == payload
    ensures (Frame(payload) + rest)[4 + |payload|..] == rest
  {
    LeValueOfLeBytes(|payload|);
    var buf := Frame(payload) + rest;
    assert buf[..4] == LeBytes(|payload|);
  }

  /** Concatenation is associative; stated so that proofs can regroup sequences explicitly. */
  lemma ConcatAssociates<T>(a: seq<T>, b: seq<T>, c: seq<T>)
    ensures a + (b + c) == (a + b) + c
  {
  }
}
