/**
 * Bytes as the encoder's buffers hold them, and the fixed-width integer
 * layouts it writes: `writeUInt32BE` (network byte order, as PNG uses) and
 * `writeUInt16LE` (as the stored deflate block header uses).
 */
module ByteCodec {
  import opened Arith

  type byte = x: int | 0 <= x < 256

  /** Values `writeUInt32BE` accepts are below this bound; larger ones throw a RangeError. */
  const UINT32_LIMIT: int := 0x1_0000_0000
  const UINT16_LIMIT: int := 0x1_0000

  /** `writeUInt32BE(n)`: most significant byte first. */
  function BE32(n: nat): (r: seq<byte>)
    requires n < UINT32_LIMIT
    ensures |r| == 4
  {
    [n / 0x100_0000, (n / 0x1_0000) % 0x100, (n / 0x100) % 0x100, n % 0x100]
  }

  /** Reads a big-endian unsigned 32-bit value from the first four bytes. */
  function ReadBE32(b: seq<byte>): (n: nat)
    requires |b| >= 4
    ensures n < UINT32_LIMIT
  {
    (b[0] as int) * 0x100_0000 + (b[1] as int) * 0x1_0000 + (b[2] as int) * 0x100 + (b[3] as int)
  }

  /** Reading back what `writeUInt32BE` wrote gives the value. */
  lemma BE32RoundTrip(n: nat)
    requires n < UINT32_LIMIT
    ensures ReadBE32(BE32(n)) == n
  {
    var q1, q2, q3 := n / 0x100, n / 0x1_0000, n / 0x100_0000;
    DivDiv(n, 0x100, 0x100);
    DivDiv(n, 0x1_0000, 0x100);
    assert n == q1 * 0x100 + n % 0x100;
    assert q1 == q2 * 0x100 + q1 % 0x100;
    assert q2 == q3 * 0x100 + q2 % 0x100;
  }

  /** Dividing twice is dividing by the product. */
  lemma DivDiv(n: nat, a: nat, b: nat)
    requires a > 0 && b > 0
    ensures (n / a) / b == n / (a * b)
  {
    var q, r := (n / a) / b, (n / a) % b;
    assert n / a == q * b + r;
    assert n == (q * b + r) * a + n % a;
    assert n == q * (a * b) + (r * a + n % a);
    assert r * a + n % a < a * b by {
      assert r <= b - 1;
      assert r * a <= (b - 1) * a;
    }
    DivModUnique(n, a * b, q, r * a + n % a);
  }

  /** Four bytes are the big-endian layout of the value they encode. */
  lemma BE32OfRead(b: seq<byte>)
    requires |b| == 4
    ensures BE32(ReadBE32(b)) == b
  {
    var n := ReadBE32(b);
    var (b0, b1, b2, b3) := (b[0] as int, b[1] as int, b[2] as int, b[3] as int);
    DivModUnique(n, 0x100_0000, b0, b1 * 0x1_0000 + b2 * 0x100 + b3);
    DivModUnique(n, 0x1_0000, b0 * 0x100 + b1, b2 * 0x100 + b3);
    DivModUnique(b0 * 0x100 + b1, 0x100, b0, b1);
    DivModUnique(n, 0x100, b0 * 0x1_0000 + b1 * 0x100 + b2, b3);
    DivModUnique(b0 * 0x1_0000 + b1 * 0x100 + b2, 0x100, b0 * 0x100 + b1, b2);
  }

  /** Quotient and remainder are determined by the division identity. */
  lemma DivModUnique(n: int, d: int, q: int, r: int)
    requires d > 0 && n == q * d + r && 0 <= r < d
    ensures n / d == q && n % d == r
  {
    var q', r' := n / d, n % d;
    assert (q' - q) * d == r - r' by {
      assert q' * d + r' == n;
    }
    if q' > q {
      MulMonotone(1, q' - q, d);
    } else if q' < q {
      MulMonotone(1, q - q', d);
    }
  }

  /** `writeUInt16LE(n)`: least significant byte first. */
  function LE16(n: nat): (r: seq<byte>)
    requires n < UINT16_LIMIT
    ensures |r| == 2
  {
    [n % 0x100, n / 0x100]
  }

  /** Reads a little-endian unsigned 16-bit value from the first two bytes. */
  function ReadLE16(b: seq<byte>): (n: nat)
    requires |b| >= 2
    ensures n < UINT16_LIMIT
  {
    (b[0] as int) + (b[1] as int) * 0x100
  }

  /** Reading back what `writeUInt16LE` wrote gives the value. */
  lemma LE16RoundTrip(n: nat)
    requires n < UINT16_LIMIT
    ensures ReadLE16(LE16(n)) == n
  {
  }

  /** `Buffer.concat` of a list of buffers. */
  function Flatten(bs: seq<seq<byte>>): seq<byte> {
    if bs == [] then [] else bs[0] + Flatten(bs[1..])
  }

  lemma FlattenCons(b: seq<byte>, bs: seq<seq<byte>>)
    ensures Flatten([b] + bs) == b + Flatten(bs)
  {
    assert ([b] + bs)[1..] == bs;
  }

  lemma {:induction false} FlattenAppend(bs: seq<seq<byte>>, cs: seq<seq<byte>>)
    ensures Flatten(bs + cs) == Flatten(bs) + Flatten(cs)
  {
    if bs == [] {
      assert bs + cs == cs;
    } else {
      assert (bs + cs)[1..] == bs[1..] + cs;
      FlattenAppend(bs[1..], cs);
    }
  }
}
