/**
 * The zlib stream the icon encoder puts in its IDAT chunk: the two-byte
 * header 0x78 0x01, the scanline bytes cut into "stored" (uncompressed)
 * deflate blocks of at most 65535 bytes, and the Adler-32 checksum of the
 * scanline bytes (RFC 1950 for the wrapper, section 3.2.4 of RFC 1951 for
 * stored blocks).  A decoder for exactly these streams is the partner the
 * round-trip lemmas use.
 */
module Zlib {
  import opened ByteCodec
  import opened Wrappers
  import opened Arith

  /** The largest payload of one stored block, the limit of its 16-bit LEN field. */
  const MAX_STORED: nat := 65535
  /** The Adler-32 modulus, the largest prime below 2^16. */
  const ADLER_MOD: nat := 65521

  /** CMF = 0x78 (deflate, 32K window) and FLG = 0x01 (no dictionary, fastest level). */
  const ZLIB_HEADER: seq<byte> := [0x78, 0x01]

  // ---------------------------------------------------------------------
  // Stored deflate blocks

  /**
   * The five header bytes of a stored block: BFINAL in bit 0 and BTYPE = 00,
   * then LEN and NLEN little-endian.  NLEN is `blockSize ^ 0xffff`, which for
   * a 16-bit value is its complement 0xFFFF - blockSize.
   */
  function BlockHeader(len: nat, last: bool): (r: seq<byte>)
    requires len <= MAX_STORED
    ensures |r| == 5 && r[0] == (if last then 1 else 0)
    ensures ReadLE16(r[1..3]) == len && ReadLE16(r[3..5]) + len == 0xFFFF
  {
    LE16RoundTrip(len);
    LE16RoundTrip(MAX_STORED - len);
    [if last then 1 else 0] + LE16(len) + LE16(MAX_STORED - len)
  }

  /** One block: its header, then the payload copied from the scanline bytes. */
  function StoredBlock(payload: seq<byte>, last: bool): (r: seq<byte>)
    requires |payload| <= MAX_STORED
    ensures |r| == 5 + |payload| && r[5..] == payload
  {
    BlockHeader(|payload|, last) + payload
  }

  lemma StoredBlockFields(payload: seq<byte>, last: bool)
    requires |payload| <= MAX_STORED
    ensures var b := StoredBlock(payload, last);
      b[0] == (if last then 1 else 0)
      && ReadLE16(b[1..3]) == |payload| && ReadLE16(b[3..5]) == 0xFFFF - |payload|
  {
    var b, h := StoredBlock(payload, last), BlockHeader(|payload|, last);
    assert b[1..3] == h[1..3] && b[3..5] == h[3..5];
  }

  /** The blocks the encoder's loop pushes for the bytes `rest`: none at all for no bytes. */
  function StoredBlocks(rest: seq<byte>): seq<seq<byte>>
    decreases |rest|
  {
    if rest == [] then []
    else
      var n := Min(MAX_STORED, |rest|);
      [StoredBlock(rest[..n], n == |rest|)] + StoredBlocks(rest[n..])
  }

  lemma StoredBlocksUnfold(raw: seq<byte>, offset: nat)
    requires offset < |raw|
    ensures var n := Min(MAX_STORED, |raw| - offset);
      StoredBlocks(raw[offset..])
        == [StoredBlock(raw[offset..offset + n], offset + n >= |raw|)] + StoredBlocks(raw[offset + n..])
  {
    var n := Min(MAX_STORED, |raw| - offset);
    assert raw[offset..][..n] == raw[offset..offset + n];
    assert raw[offset..][n..] == raw[offset + n..];
  }

  /** One loop iteration's `Buffer.alloc(5 + blockSize)`, header writes and `rawData.copy`. */
  method AllocBlock(raw: seq<byte>, offset: nat, size: nat, last: bool) returns (block: array<byte>)
    requires offset + size <= |raw| && size <= MAX_STORED
    ensures fresh(block)
    ensures block[..] == StoredBlock(raw[offset..offset + size], last)
  {
    block := new byte[5 + size];
    var header := BlockHeader(size, last);
    block[0], block[1], block[2], block[3], block[4] := header[0], header[1], header[2], header[3], header[4];
    for j := 0 to size
      invariant block[..5] == header
      invariant forall k :: 5 <= k < 5 + j ==> block[k] == raw[offset + k - 5]
    {
      block[5 + j] := raw[offset + j];
    }
    assert block[..] == header + raw[offset..offset + size] by {
      assert forall k :: 5 <= k < 5 + size ==> block[..][k] == raw[offset..offset + size][k - 5];
    }
  }

  /** The "simple deflate" loop: cut the bytes into stored blocks. */
  method DeflateStored(raw: seq<byte>) returns (blocks: seq<seq<byte>>)
    ensures blocks == StoredBlocks(raw)
  {
    blocks := [];
    var offset := 0;
    while offset < |raw|
      invariant 0 <= offset <= |raw|
      invariant blocks + StoredBlocks(raw[offset..]) == StoredBlocks(raw)
    {
      var blockSize := Min(MAX_STORED, |raw| - offset);
      var isLast := offset + blockSize >= |raw|;
      StoredBlocksUnfold(raw, offset);
      var block := AllocBlock(raw, offset, blockSize, isLast);
      blocks := blocks + [block[..]];
      offset := offset + blockSize;
    }
    assert raw[offset..] == [];
  }

  /** The payload of a block: what follows its five header bytes. */
  function Payload(block: seq<byte>): seq<byte> {
    if |block| < 5 then [] else block[5..]
  }

  function Payloads(blocks: seq<seq<byte>>): seq<seq<byte>> {
    seq(|blocks|, i requires 0 <= i < |blocks| => Payload(blocks[i]))
  }

  /**
   * Every block keeps to the stored-block format: a payload of 1 to 65535
   * bytes, LEN equal to its size, NLEN the complement of LEN, and BFINAL set
   * on the last block only.
   */
  lemma {:induction false} StoredBlocksWellFormed(raw: seq<byte>)
    ensures var blocks := StoredBlocks(raw);
      forall i :: 0 <= i < |blocks| ==>
        5 < |blocks[i]| <= 5 + MAX_STORED
        && ReadLE16(blocks[i][1..3]) == |blocks[i]| - 5
        && ReadLE16(blocks[i][3..5]) == 0xFFFF - ReadLE16(blocks[i][1..3])
        && blocks[i][0] == (if i == |blocks| - 1 then 1 else 0)
    decreases |raw|
  {
    if raw != [] {
      var n := Min(MAX_STORED, |raw|);
      var blocks, rest := StoredBlocks(raw), StoredBlocks(raw[n..]);
      StoredBlocksWellFormed(raw[n..]);
      StoredBlockFields(raw[..n], n == |raw|);
      assert blocks == [StoredBlock(raw[..n], n == |raw|)] + rest;
      if n == |raw| {
        assert raw[n..] == [];
      } else {
        assert rest != [];
        forall i | 0 <= i < |blocks|
          ensures 5 < |blocks[i]| <= 5 + MAX_STORED
          ensures ReadLE16(blocks[i][1..3]) == |blocks[i]| - 5
          ensures ReadLE16(blocks[i][3..5]) == 0xFFFF - ReadLE16(blocks[i][1..3])
          ensures blocks[i][0] == (if i == |blocks| - 1 then 1 else 0)
        {
          if i > 0 {
            assert blocks[i] == StoredBlocks(raw[n..])[i - 1];
          }
        }
      }
    }
  }

  /** The payloads of the blocks concatenate back to the bytes. */
  lemma {:induction false} StoredPayloadsConcat(raw: seq<byte>)
    ensures Flatten(Payloads(StoredBlocks(raw))) == raw
    decreases |raw|
  {
    if raw != [] {
      var n := Min(MAX_STORED, |raw|);
      StoredPayloadsConcat(raw[n..]);
      var blocks := StoredBlocks(raw);
      assert Payloads(blocks) == [raw[..n]] + Payloads(StoredBlocks(raw[n..]));
      FlattenCons(raw[..n], Payloads(StoredBlocks(raw[n..])));
      assert raw[..n] + raw[n..] == raw;
    }
  }

  /** As many blocks as 65535-byte pieces, rounding up. */
  lemma {:induction false} StoredBlocksCount(raw: seq<byte>)
    ensures |StoredBlocks(raw)| == (|raw| + MAX_STORED - 1) / MAX_STORED
    decreases |raw|
  {
    if raw != [] {
      var n := Min(MAX_STORED, |raw|);
      StoredBlocksCount(raw[n..]);
      if n < |raw| {
        assert (|raw| + MAX_STORED - 1) / MAX_STORED == (|raw[n..]| + MAX_STORED - 1) / MAX_STORED + 1;
      }
    }
  }

  /**
   * Decodes stored blocks up to and including the final one; gives the
   * concatenated payloads and the bytes after the final block.
   */
  function Inflate(s: seq<byte>): Option<(seq<byte>, seq<byte>)>
    decreases |s|
  {
    if |s| < 5 || (s[0] != 0 && s[0] != 1) then None
    else
      var len := ReadLE16(s[1..3]);
      if ReadLE16(s[3..5]) != 0xFFFF - len || |s| < 5 + len then None
      else if s[0] == 1 then Some((s[5..5 + len], s[5 + len..]))
      else match Inflate(s[5 + len..])
        case None => None
        case Some(r) => Some((s[5..5 + len] + r.0, r.1))
  }

  /** Decoding the encoder's blocks gives back the bytes and leaves what follows them. */
  lemma {:induction false} InflateStoredBlocks(raw: seq<byte>, tail: seq<byte>)
    requires raw != []
    ensures Inflate(Flatten(StoredBlocks(raw)) + tail) == Some((raw, tail))
    decreases |raw|
  {
    var n := Min(MAX_STORED, |raw|);
    var block := StoredBlock(raw[..n], n == |raw|);
    var rest := Flatten(StoredBlocks(raw[n..])) + tail;
    var s := Flatten(StoredBlocks(raw)) + tail;
    FlattenCons(block, StoredBlocks(raw[n..]));
    assert s == block + rest;
    assert s[1..3] == block[1..3] && s[3..5] == block[3..5];
    assert s[5..5 + n] == raw[..n];
    assert s[5 + n..] == rest;
    if n == |raw| {
      assert raw[n..] == [];
      assert rest == tail;
      assert raw[..n] == raw;
    } else {
      InflateStoredBlocks(raw[n..], tail);
      assert raw[..n] + raw[n..] == raw;
    }
  }

  /** For no bytes at all the loop emits no block, so there is no final block to decode. */
  lemma NoBytesNoBlocks(tail: seq<byte>)
    ensures StoredBlocks([]) == []
    ensures Inflate(Flatten(StoredBlocks([])) + tail) == Inflate(tail)
  {
    assert Flatten(StoredBlocks([])) + tail == tail;
  }

  // ---------------------------------------------------------------------
  // Adler-32

  /** The running sums `(a, b)` after the bytes `data`, each kept below the modulus. */
  function AdlerSums(data: seq<byte>): (r: (nat, nat))
    ensures r.0 < ADLER_MOD && r.1 < ADLER_MOD
  {
    if data == [] then (1, 0)
    else
      var (a, b) := AdlerSums(data[..|data| - 1]);
      var a' := (a + data[|data| - 1]) % ADLER_MOD;
      (a', (b + a') % ADLER_MOD)
  }

  /** The checksum `(b << 16) | a`: `a` fits in 16 bits, so the or is an addition. */
  function Adler32(data: seq<byte>): (n: nat)
    ensures n < UINT32_LIMIT
  {
    var (a, b) := AdlerSums(data);
    b * 0x1_0000 + a
  }

  /** The checksum loop over the scanline bytes. */
  method ComputeAdler32(raw: seq<byte>) returns (checksum: nat)
    ensures checksum == Adler32(raw)
  {
    var a, b := 1, 0;
    for i := 0 to |raw|
      invariant (a, b) == AdlerSums(raw[..i])
    {
      assert raw[..i + 1][..i] == raw[..i];
      a := (a + raw[i]) % ADLER_MOD;
      b := (b + a) % ADLER_MOD;
    }
    assert raw[..|raw|] == raw;
    checksum := b * 0x1_0000 + a;
  }

  /** The sum of the bytes. */
  function Sum(data: seq<byte>): nat {
    if data == [] then 0 else Sum(data[..|data| - 1]) + data[|data| - 1]
  }

  /** The sum, over every non-empty prefix, of one plus that prefix's byte sum. */
  function PrefixTotal(data: seq<byte>): nat {
    if data == [] then 0 else PrefixTotal(data[..|data| - 1]) + 1 + Sum(data)
  }

  lemma ModAddLeft(x: nat, y: nat, m: nat)
    requires m > 0
    ensures (x % m + y) % m == (x + y) % m
  {
    var t := x % m + y;
    assert x + y == (x / m + t / m) * m + t % m;
    DivModUnique(x + y, m, x / m + t / m, t % m);
  }

  /**
   * The reference definition of RFC 1950, section 8: A is one plus the sum
   * of the bytes, B the sum of the A values after each byte, both modulo
   * 65521.  The encoder's reduce-every-step loop computes exactly these.
   */
  lemma {:induction false} AdlerSumsClosedForm(data: seq<byte>)
    ensures AdlerSums(data) == ((1 + Sum(data)) % ADLER_MOD, PrefixTotal(data) % ADLER_MOD)
  {
    if data != [] {
      var init := data[..|data| - 1];
      var x := data[|data| - 1];
      AdlerSumsClosedForm(init);
      ModAddLeft(1 + Sum(init), x, ADLER_MOD);
      ModAddLeft(PrefixTotal(init), (1 + Sum(data)) % ADLER_MOD, ADLER_MOD);
      assert (PrefixTotal(init) + (1 + Sum(data)) % ADLER_MOD) % ADLER_MOD
          == ((1 + Sum(data)) % ADLER_MOD + PrefixTotal(init)) % ADLER_MOD;
      ModAddLeft(1 + Sum(data), PrefixTotal(init), ADLER_MOD);
    }
  }

  lemma AdlerOfNothing()
    ensures Adler32([]) == 1
  {
  }

  // ---------------------------------------------------------------------
  // The zlib wrapper

  /** `idatData`: header, blocks, and the big-endian checksum. */
  function ZlibStream(raw: seq<byte>): seq<byte> {
    ZLIB_HEADER + Flatten(StoredBlocks(raw)) + BE32(Adler32(raw))
  }

  /** The header the encoder writes is one a zlib reader accepts (RFC 1950, section 2.2). */
  lemma ZlibHeaderValid()
    ensures ZLIB_HEADER[0] % 16 == 8 && ZLIB_HEADER[0] / 16 <= 7
    ensures ((ZLIB_HEADER[0] as int) * 256 + ZLIB_HEADER[1]) % 31 == 0
    ensures (ZLIB_HEADER[1] / 32) % 2 == 0
  {
  }

  /**
   * A reader of the streams the encoder writes: the header checks of RFC 1950
   * (deflate method, check bits, no preset dictionary), stored blocks, and
   * the checksum, which must be all that follows the final block.
   */
  function ZlibDecode(s: seq<byte>): Option<seq<byte>> {
    if |s| < 2 || s[0] % 16 != 8 || ((s[0] as int) * 256 + s[1]) % 31 != 0 || (s[1] / 32) % 2 == 1 then None
    else match Inflate(s[2..])
      case None => None
      case Some(r) =>
        if |r.1| == 4 && ReadBE32(r.1) == Adler32(r.0) then Some(r.0) else None
  }

  /** A stream with the encoder's header, blocks that decode, and the matching checksum after them. */
  lemma DecodeAccepts(s: seq<byte>, data: seq<byte>, trailer: seq<byte>)
    requires |s| >= 2 && s[..2] == ZLIB_HEADER
    requires Inflate(s[2..]) == Some((data, trailer))
    requires |trailer| == 4 && ReadBE32(trailer) == Adler32(data)
    ensures ZlibDecode(s) == Some(data)
  {
    assert s[0] == s[..2][0] && s[1] == s[..2][1];
  }

  /** Reading the encoder's stream gives back the scanline bytes. */
  lemma ZlibRoundTrip(raw: seq<byte>)
    requires raw != []
    ensures ZlibDecode(ZlibStream(raw)) == Some(raw)
  {
    var trailer := BE32(Adler32(raw));
    var body := Flatten(StoredBlocks(raw)) + trailer;
    assert ZlibStream(raw) == ZLIB_HEADER + body;
    InflateStoredBlocks(raw, trailer);
    BE32RoundTrip(Adler32(raw));
    DecodeAccepts(ZLIB_HEADER + body, raw, trailer);
  }
}
