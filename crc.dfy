/**
 * The CRC-32 of the PNG chunk trailer (the reflected CRC with polynomial
 * 0xEDB88320, initial register 0xFFFFFFFF and final complement), computed
 * as the icon encoder does: through a 256-entry table built once.
 *
 * The register is a `bv32`, which is what the source's `>>> 0` coercions
 * keep it at after every step: no value leaves the 32-bit range.  The bytes
 * fed to it are `bv8` octets.
 */
module Crc {
  import opened ByteCodec

  /** One iteration of the table loop's inner body; 0xEDB88320 is the reflected polynomial. */
  function Step(c: bv32): bv32 {
    if c & 1 == 1 then 0xEDB8_8320 ^ (c >> 1) else c >> 1
  }

  /** `k` applications of `f`. */
  function Iterate<T>(f: T -> T, c: T, k: nat): T {
    if k == 0 then c else f(Iterate(f, c, k - 1))
  }

  /** `k` iterations of `Step`. */
  function Shift(c: bv32, k: nat): bv32 {
    Iterate(Step, c, k)
  }

  lemma ShiftSucc(c: bv32, k: nat)
    ensures Shift(c, k + 1) == Step(Shift(c, k))
  {
  }

  /**
   * The value `n` as a 32-bit register (the source's `let c = n`), built by
   * counting up from 0 so that its value is known bit by bit without a
   * conversion from an unbounded integer to a bit-vector.
   */
  function Register(n: nat): bv32
    requires n < 256
  {
    if n == 0 then 0 else Register(n - 1) + 1
  }

  lemma PredecessorValue(x: bv32)
    requires 0 < x < 256
    ensures (x - 1) as int == x as int - 1
  {
  }

  /** The register loaded with a small register's value holds that value. */
  lemma {:induction false} RegisterOfValue(x: bv32)
    requires x < 256
    ensures Register(x as int) == x
    decreases x as int
  {
    if x != 0 {
      PredecessorValue(x);
      RegisterOfValue(x - 1);
    }
  }

  /** Entry `n` of the table: eight register steps from `n`. */
  function TableEntry(n: nat): bv32
    requires n < 256
  {
    Shift(Register(n), 8)
  }

  predicate IsCrcTable(table: array<bv32>)
    reads table
  {
    table.Length == 256 && forall n :: 0 <= n < 256 ==> table[n] == TableEntry(n)
  }

  /** The inner loop of the table construction: eight steps from `n`. */
  method ComputeEntry(n: nat) returns (c: bv32)
    requires n < 256
    ensures c == TableEntry(n)
  {
    c := Register(n);
    for k := 0 to 8
      invariant c == Shift(Register(n), k)
    {
      ShiftSucc(Register(n), k);
      c := if c & 1 == 1 then 0xEDB8_8320 ^ (c >> 1) else c >> 1;
    }
  }

  /** Builds `crcTable` with the encoder's two nested loops. */
  method BuildTable() returns (table: array<bv32>)
    ensures IsCrcTable(table)
  {
    table := new bv32[256];
    for n := 0 to 256
      invariant forall m :: 0 <= m < n ==> table[m] == TableEntry(m)
    {
      var c := ComputeEntry(n);
      table[n] := c;
    }
  }

  /** The table slot the next byte selects: the low byte of `crc ^ b`. */
  function Slot(crc: bv32, b: bv8): (i: bv32)
    ensures i < 256
  {
    (crc ^ (b as bv32)) & 0xFF
  }

  /** One table-driven update of the register by the byte `b`, the table entry written out. */
  function Update(crc: bv32, b: bv8): bv32 {
    Shift(Slot(crc, b), 8) ^ (crc >> 8)
  }

  /** The register after feeding `data` in order. */
  function UpdateAll(crc: bv32, data: seq<bv8>): bv32 {
    if data == [] then crc else Update(UpdateAll(crc, data[..|data| - 1]), data[|data| - 1])
  }

  /** The register before the first byte, and the mask of the final complement. */
  const INITIAL: bv32 := 0xFFFF_FFFF

  /** `crc32(data)` of the encoder. */
  function Crc32(data: seq<bv8>): bv32 {
    UpdateAll(INITIAL, data) ^ INITIAL
  }

  /** The loop body of `crc32`: a lookup in a correct table is one register update. */
  method TableUpdate(table: array<bv32>, crc: bv32, b: bv8) returns (r: bv32)
    requires IsCrcTable(table)
    ensures r == Update(crc, b)
  {
    RegisterOfValue(Slot(crc, b));
    r := table[Slot(crc, b) as int] ^ (crc >> 8);
  }

  /** `crc32`: the loop over the bytes with a prebuilt table. */
  method ComputeCrc32(table: array<bv32>, data: seq<bv8>) returns (crc: bv32)
    requires IsCrcTable(table)
    ensures crc == Crc32(data)
  {
    crc := INITIAL;
    var i := 0;
    while i < |data|
      invariant 0 <= i <= |data|
      invariant crc == UpdateAll(INITIAL, data[..i])
    {
      assert data[..i + 1][..i] == data[..i];
      crc := TableUpdate(table, crc, data[i]);
      i := i + 1;
    }
    assert data[..i] == data;
    crc := crc ^ INITIAL;
  }

  /** The bytes of a buffer as octets. */
  function Octets(s: seq<byte>): (r: seq<bv8>)
    ensures |r| == |s|
  {
    seq(|s|, i requires 0 <= i < |s| => s[i] as bv8)
  }

  // ---------------------------------------------------------------------
  // Reference: the bit-at-a-time CRC, with no table.

  /** Feeding one byte bit by bit: xor it in, then eight register steps. */
  function BitwiseUpdate(crc: bv32, b: bv8): bv32 {
    Shift(crc ^ (b as bv32), 8)
  }

  function BitwiseUpdateAll(crc: bv32, data: seq<bv8>): bv32 {
    if data == [] then crc else BitwiseUpdate(BitwiseUpdateAll(crc, data[..|data| - 1]), data[|data| - 1])
  }

  function BitwiseCrc32(data: seq<bv8>): bv32 {
    BitwiseUpdateAll(INITIAL, data) ^ INITIAL
  }

  function Xor(x: bv32, y: bv32): bv32 {
    x ^ y
  }

  lemma ShiftRightXor(a: bv32, b: bv32)
    ensures (a ^ b) >> 1 == (a >> 1) ^ (b >> 1)
  {
  }

  lemma LowBitXor(a: bv32, b: bv32)
    ensures a & 1 == 1 && b & 1 == 1 ==> (a ^ b) & 1 == 0
    ensures a & 1 == 1 && b & 1 != 1 ==> (a ^ b) & 1 == 1
    ensures a & 1 != 1 && b & 1 == 1 ==> (a ^ b) & 1 == 1
    ensures a & 1 != 1 && b & 1 != 1 ==> (a ^ b) & 1 == 0
  {
  }

  lemma XorCancel(p: bv32, x: bv32, y: bv32)
    ensures (p ^ x) ^ (p ^ y) == x ^ y
  {
  }

  lemma XorRegroup(p: bv32, x: bv32, y: bv32)
    ensures (p ^ x) ^ y == p ^ (x ^ y)
    ensures x ^ (p ^ y) == p ^ (x ^ y)
  {
  }

  /** One register step is linear over xor. */
  lemma StepOfXor(z: bv32, x: bv32, y: bv32)
    requires z == x ^ y
    ensures Step(z) == Step(x) ^ Step(y)
  {
    ShiftRightXor(x, y);
    LowBitXor(x, y);
    if x & 1 == 1 && y & 1 == 1 {
      XorCancel(0xEDB8_8320, x >> 1, y >> 1);
    } else if x & 1 == 1 || y & 1 == 1 {
      XorRegroup(0xEDB8_8320, x >> 1, y >> 1);
    }
  }

  lemma StepDistributes()
    ensures forall x, y :: Step(Xor(x, y)) == Xor(Step(x), Step(y))
  {
    forall x, y
      ensures Step(Xor(x, y)) == Xor(Step(x), Step(y))
    {
      StepOfXor(x ^ y, x, y);
    }
  }

  /** Iterating a map that distributes over `g` distributes over `g`. */
  lemma {:induction false} IterateDistributes<T>(f: T -> T, g: (T, T) -> T, a: T, b: T, k: nat)
    requires forall x, y :: f(g(x, y)) == g(f(x), f(y))
    ensures Iterate(f, g(a, b), k) == g(Iterate(f, a, k), Iterate(f, b, k))
  {
    if k > 0 {
      IterateDistributes(f, g, a, b, k - 1);
    }
  }

  lemma IterateStepXor(a: bv32, b: bv32, k: nat)
    ensures Iterate(Step, Xor(a, b), k) == Xor(Iterate(Step, a, k), Iterate(Step, b, k))
  {
    StepDistributes();
    IterateDistributes(Step, Xor, a, b, k);
  }

  /** Any number of register steps is linear over xor. */
  lemma ShiftLinear(z: bv32, a: bv32, b: bv32, k: nat)
    requires z == Xor(a, b)
    ensures Shift(z, k) == Xor(Shift(a, k), Shift(b, k))
  {
    IterateStepXor(a, b, k);
  }

  lemma StepOfEven(c: bv32)
    requires c & 1 == 0
    ensures Step(c) == c >> 1
  {
  }

  lemma LowBitsOfHigh(h: bv32)
    requires h & 0xFF == 0
    ensures h & 1 == 0 && (h >> 1) & 1 == 0 && (h >> 2) & 1 == 0 && (h >> 3) & 1 == 0
    ensures (h >> 4) & 1 == 0 && (h >> 5) & 1 == 0 && (h >> 6) & 1 == 0 && (h >> 7) & 1 == 0
    ensures (h >> 1) >> 1 == h >> 2 && (h >> 2) >> 1 == h >> 3 && (h >> 3) >> 1 == h >> 4
    ensures (h >> 4) >> 1 == h >> 5 && (h >> 5) >> 1 == h >> 6 && (h >> 6) >> 1 == h >> 7
    ensures (h >> 7) >> 1 == h >> 8
  {
  }

  /** A register whose low byte is clear is only shifted by a byte's eight steps. */
  lemma ShiftHighByte(h: bv32)
    requires h & 0xFF == 0
    ensures Shift(h, 8) == h >> 8
  {
    LowBitsOfHigh(h);
    ShiftSucc(h, 0); StepOfEven(h);
    ShiftSucc(h, 1); StepOfEven(h >> 1);
    ShiftSucc(h, 2); StepOfEven(h >> 2);
    ShiftSucc(h, 3); StepOfEven(h >> 3);
    ShiftSucc(h, 4); StepOfEven(h >> 4);
    ShiftSucc(h, 5); StepOfEven(h >> 5);
    ShiftSucc(h, 6); StepOfEven(h >> 6);
    ShiftSucc(h, 7); StepOfEven(h >> 7);
  }

  lemma SplitLowByte(crc: bv32, b: bv32)
    requires b < 256
    ensures crc ^ b == ((crc ^ b) & 0xFF) ^ ((crc ^ b) & 0xFFFF_FF00)
    ensures ((crc ^ b) & 0xFFFF_FF00) & 0xFF == 0
    ensures ((crc ^ b) & 0xFFFF_FF00) >> 8 == crc >> 8
  {
  }

  /** Eight steps from `crc ^ b` split into the steps from its low byte and its shifted high bytes. */
  lemma BitwiseSplit(crc: bv32, b: bv8)
    ensures BitwiseUpdate(crc, b) == Xor(Shift(Slot(crc, b), 8), crc >> 8)
  {
    var x := crc ^ (b as bv32);
    var lo, hi := x & 0xFF, x & 0xFFFF_FF00;
    SplitLowByte(crc, b as bv32);
    ShiftLinear(x, lo, hi, 8);
    ShiftHighByte(hi);
  }

  /** The table-driven byte update is the bit-at-a-time one. */
  lemma UpdateIsBitwise(crc: bv32, b: bv8)
    ensures Update(crc, b) == BitwiseUpdate(crc, b)
  {
    BitwiseSplit(crc, b);
  }

  lemma {:induction false} UpdateAllIsBitwise(crc: bv32, data: seq<bv8>)
    ensures UpdateAll(crc, data) == BitwiseUpdateAll(crc, data)
  {
    if data != [] {
      UpdateAllIsBitwise(crc, data[..|data| - 1]);
      UpdateIsBitwise(UpdateAll(crc, data[..|data| - 1]), data[|data| - 1]);
    }
  }

  /** The encoder's CRC equals the reference bit-at-a-time CRC on every input. */
  lemma Crc32IsBitwise(data: seq<bv8>)
    ensures Crc32(data) == BitwiseCrc32(data)
  {
    UpdateAllIsBitwise(INITIAL, data);
  }

  /** Feeding a concatenation feeds the parts in turn. */
  lemma {:induction false} UpdateAllAppend(crc: bv32, a: seq<bv8>, b: seq<bv8>)
    ensures UpdateAll(crc, a + b) == UpdateAll(UpdateAll(crc, a), b)
  {
    if b == [] {
      assert a + b == a;
    } else {
      var b' := b[..|b| - 1];
      assert (a + b)[..|a + b| - 1] == a + b';
      UpdateAllAppend(crc, a, b');
    }
  }

  lemma UpdateAllSnoc(crc: bv32, data: seq<bv8>, b: bv8)
    ensures UpdateAll(crc, data + [b]) == Update(UpdateAll(crc, data), b)
  {
    assert (data + [b])[..|data|] == data;
  }

  /** Known entries of the standard table, and the CRC of no bytes. */
  lemma CrcTableExamples()
    ensures TableEntry(0) == 0
    ensures TableEntry(1) == 0x7707_3096
    ensures TableEntry(255) == 0x2D02_EF8D
    ensures Crc32([]) == 0
  {
    RegisterOfValue(0);
    RegisterOfValue(1);
    RegisterOfValue(255);
    assert Shift(0x01, 1) == 0xEDB8_8320;
    assert Shift(0x01, 2) == 0x76DC_4190;
    assert Shift(0x01, 3) == 0x3B6E_20C8;
    assert Shift(0x01, 4) == 0x1DB7_1064;
    assert Shift(0x01, 5) == 0x0EDB_8832;
    assert Shift(0x01, 6) == 0x076D_C419;
    assert Shift(0x01, 7) == 0xEE0E_612C;
    assert Shift(0xFF, 1) == 0xEDB8_835F;
    assert Shift(0xFF, 2) == 0x9B64_C28F;
    assert Shift(0xFF, 3) == 0xA00A_E267;
    assert Shift(0xFF, 4) == 0xBDBD_F213;
    assert Shift(0xFF, 5) == 0xB366_7A29;
    assert Shift(0xFF, 6) == 0xB40B_BE34;
    assert Shift(0xFF, 7) == 0x5A05_DF1A;
  }

  /** The CRC that ends every PNG: that of the chunk type "IEND" with no data. */
  lemma Crc32Iend()
    ensures Crc32([73, 69, 78, 68]) == 0xAE42_6082
  {
    UpdateI(); UpdateE(); UpdateN(); UpdateD();
    var s1: seq<bv8> := [73];
    var s2, s3, s4 := s1 + [69], s1 + [69] + [78], s1 + [69] + [78] + [68];
    UpdateAllSnoc(INITIAL, [], 73);
    assert [] + [73 as bv8] == s1;
    UpdateAllSnoc(INITIAL, s1, 69);
    UpdateAllSnoc(INITIAL, s2, 78);
    UpdateAllSnoc(INITIAL, s3, 68);
    assert s4 == [73, 69, 78, 68];
  }

  /** Feeding the byte 73 of "IEND" (entry 0xB6). */
  lemma UpdateI()
    ensures Update(INITIAL, 73) == 0x22FD_E946
  {
    assert Shift(0xB6, 1) == 0x0000_005B;
    assert Shift(0xB6, 2) == 0xEDB8_830D;
    assert Shift(0xB6, 3) == 0x9B64_C2A6;
    assert Shift(0xB6, 4) == 0x4DB2_6153;
    assert Shift(0xB6, 5) == 0xCB61_B389;
    assert Shift(0xB6, 6) == 0x8808_5AE4;
    assert Shift(0xB6, 7) == 0x4404_2D72;
  }

  /** Feeding the byte 69 of "IEND" (entry 0x03). */
  lemma UpdateE()
    ensures Update(0x22FD_E946, 69) == 0x992B_AC53
  {
    assert Shift(0x03, 1) == 0xEDB8_8321;
    assert Shift(0x03, 2) == 0x9B64_C2B0;
    assert Shift(0x03, 3) == 0x4DB2_6158;
    assert Shift(0x03, 4) == 0x26D9_30AC;
    assert Shift(0x03, 5) == 0x136C_9856;
    assert Shift(0x03, 6) == 0x09B6_4C2B;
    assert Shift(0x03, 7) == 0xE963_A535;
  }

  /** Feeding the byte 78 of "IEND" (entry 0x1D). */
  lemma UpdateN()
    ensures Update(0x992B_AC53, 78) == 0x639F_4775
  {
    assert Shift(0x1D, 1) == 0xEDB8_832E;
    assert Shift(0x1D, 2) == 0x76DC_4197;
    assert Shift(0x1D, 3) == 0xD6D6_A3EB;
    assert Shift(0x1D, 4) == 0x86D3_D2D5;
    assert Shift(0x1D, 5) == 0xAED1_6A4A;
    assert Shift(0x1D, 6) == 0x5768_B525;
    assert Shift(0x1D, 7) == 0xC60C_D9B2;
  }

  /** Feeding the byte 68 of "IEND" (entry 0x31). */
  lemma UpdateD()
    ensures Update(0x639F_4775, 68) == 0x51BD_9F7D
  {
    assert Shift(0x31, 1) == 0xEDB8_8338;
    assert Shift(0x31, 2) == 0x76DC_419C;
    assert Shift(0x31, 3) == 0x3B6E_20CE;
    assert Shift(0x31, 4) == 0x1DB7_1067;
    assert Shift(0x31, 5) == 0xE363_0B13;
    assert Shift(0x31, 6) == 0x9C09_06A9;
    assert Shift(0x31, 7) == 0xA3BC_0074;
  }
}
