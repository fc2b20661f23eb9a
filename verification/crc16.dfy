/** CRC-16/XMODEM (polynomial 0x1021, initial value 0, no reflection, no final
    xor), as YModemService.calculateCRC16 computes it.

    The reference definition works on a 16-bit register. The service works on a
    JavaScript number that the shift and xor operators treat as a 32-bit integer,
    and masks it to 16 bits only once, at the end; `CalculateCrc16` models that
    register as a `bv32` and is proved to agree with the reference. */
module Crc16 {
  import opened Bytes

  const Polynomial: bv16 := 0x1021

  /** One of the eight shift rounds per byte on the 16-bit register. */
  function Round(crc: bv16): bv16 {
    if crc & 0x8000 != 0 then (crc << 1) ^ Polynomial else crc << 1
  }

  /** `k` shift rounds. */
  function Rounds(crc: bv16, k: nat): bv16
    decreases k
  {
    if k == 0 then crc else Rounds(Round(crc), k - 1)
  }

  /** Folding one byte into the register: xor it into the high octet, then eight rounds. */
  function UpdateByte(crc: bv16, b: byte): bv16 {
    Rounds(crc ^ ((b as bv16) << 8), 8)
  }

  /** The CRC of `data`, folded byte by byte from the initial value 0. */
  function Crc(data: seq<byte>): bv16 {
    if |data| == 0 then 0 else UpdateByte(Crc(data[..|data| - 1]), data[|data| - 1])
  }

  lemma EightRounds(x: bv16)
    ensures Rounds(x, 8) == Round(Round(Round(Round(Round(Round(Round(Round(x))))))))
  {
  }

  /** Folding byte `b` into `crc`, given the register after each of the eight rounds. */
  lemma ByteStep(crc: bv16, b: byte, v: seq<bv16>)
    requires |v| == 9 && v[0] == crc ^ ((b as bv16) << 8)
    requires Round(v[0]) == v[1] && Round(v[1]) == v[2] && Round(v[2]) == v[3] && Round(v[3]) == v[4]
    requires Round(v[4]) == v[5] && Round(v[5]) == v[6] && Round(v[6]) == v[7] && Round(v[7]) == v[8]
    ensures UpdateByte(crc, b) == v[8]
  {
    EightRounds(v[0]);
  }

  /** Folding byte `b` into the CRC of `data`, given the register after each round. */
  lemma CrcStep(data: seq<byte>, b: byte, v: seq<bv16>)
    requires |v| == 9 && v[0] == Crc(data) ^ ((b as bv16) << 8)
    requires Round(v[0]) == v[1] && Round(v[1]) == v[2] && Round(v[2]) == v[3] && Round(v[3]) == v[4]
    requires Round(v[4]) == v[5] && Round(v[5]) == v[6] && Round(v[6]) == v[7] && Round(v[7]) == v[8]
    ensures Crc(data + [b]) == v[8]
  {
    assert (data + [b])[..|data|] == data;
    ByteStep(Crc(data), b, v);
  }

  /** The check value of CRC-16/XMODEM: the CRC of the ASCII string "123456789" is 0x31C3. */
  lemma CheckValue()
    ensures Crc([0x31, 0x32, 0x33, 0x34, 0x35, 0x36, 0x37, 0x38, 0x39]) == 0x31C3
  {
    var s0: seq<byte> := [];
    CrcStep(s0, 0x31, [0x3100, 0x6200, 0xc400, 0x9821, 0x2063, 0x40c6, 0x818c, 0x1339, 0x2672]);
    var s1 := s0 + [0x31];
    CrcStep(s1, 0x32, [0x1472, 0x28e4, 0x51c8, 0xa390, 0x5701, 0xae02, 0x4c25, 0x984a, 0x20b5]);
    var s2 := s1 + [0x32];
    CrcStep(s2, 0x33, [0x13b5, 0x276a, 0x4ed4, 0x9da8, 0x2b71, 0x56e2, 0xadc4, 0x4ba9, 0x9752]);
    var s3 := s2 + [0x33];
    CrcStep(s3, 0x34, [0xa352, 0x5685, 0xad0a, 0x4a35, 0x946a, 0x38f5, 0x71ea, 0xe3d4, 0xd789]);
    var s4 := s3 + [0x34];
    CrcStep(s4, 0x35, [0xe289, 0xd533, 0xba47, 0x64af, 0xc95e, 0x829d, 0x151b, 0x2a36, 0x546c]);
    var s5 := s4 + [0x35];
    CrcStep(s5, 0x36, [0x626c, 0xc4d8, 0x9991, 0x2303, 0x4606, 0x8c0c, 0x0839, 0x1072, 0x20e4]);
    var s6 := s5 + [0x36];
    CrcStep(s6, 0x37, [0x17e4, 0x2fc8, 0x5f90, 0xbf20, 0x6e61, 0xdcc2, 0xa9a5, 0x436b, 0x86d6]);
    var s7 := s6 + [0x37];
    CrcStep(s7, 0x38, [0xbed6, 0x6d8d, 0xdb1a, 0xa615, 0x5c0b, 0xb816, 0x600d, 0xc01a, 0x9015]);
    var s8 := s7 + [0x38];
    CrcStep(s8, 0x39, [0xa915, 0x420b, 0x8416, 0x180d, 0x301a, 0x6034, 0xc068, 0x90f1, 0x31c3]);
    assert s8 + [0x39] == [0x31, 0x32, 0x33, 0x34, 0x35, 0x36, 0x37, 0x38, 0x39];
  }

  /** One round on the 32-bit register as the service computes it. */
  function Round32(crc: bv32): bv32 {
    if crc & 0x8000 != 0 then (crc << 1) ^ 0x1021 else crc << 1
  }

  /** The low 16 bits of the 32-bit register. */
  function Low16(x: bv32): bv16 {
    (x & 0xFFFF) as bv16
  }

  /** Bits above bit 15 never flow down: a round on the wide register acts on its
      low half exactly as a round on the 16-bit register. */
  lemma Round32Low(x: bv32)
    ensures Low16(Round32(x)) == Round(Low16(x))
  {
    ShiftLow(x);
    TopBitLow(x);
    XorLow(x << 1, 0x1021);
  }

  lemma ShiftLow(x: bv32)
    ensures Low16(x << 1) == Low16(x) << 1
  {
  }

  lemma TopBitLow(x: bv32)
    ensures (x & 0x8000 != 0) == (Low16(x) & 0x8000 != 0)
  {
  }

  lemma XorLow(x: bv32, y: bv32)
    ensures Low16(x ^ y) == Low16(x) ^ Low16(y)
  {
  }

  lemma XorHighOctetLow(x: bv32, b: byte)
    ensures Low16(x ^ ((b as bv32) << 8)) == Low16(x) ^ ((b as bv16) << 8)
  {
    XorLow(x, (b as bv32) << 8);
  }

  /** The CRC of a prefix one byte longer folds in that byte. */
  lemma CrcPrefix(data: seq<byte>, i: nat)
    requires i < |data|
    ensures Crc(data[..i + 1]) == UpdateByte(Crc(data[..i]), data[i])
  {
    assert data[..i + 1][..i] == data[..i];
  }

  /** One pass of the outer loop on the 32-bit register: xor the byte into the high
      octet, then eight rounds. Its low half is the 16-bit fold of the byte. */
  method FoldByte(x: bv32, b: byte) returns (acc: bv32)
    ensures Low16(acc) == UpdateByte(Low16(x), b)
  {
    XorHighOctetLow(x, b);
    acc := x ^ ((b as bv32) << 8);
    for j := 0 to 8
      invariant Rounds(Low16(acc), 8 - j) == UpdateByte(Low16(x), b)
    {
      Round32Low(acc);
      acc := Round32(acc);
    }
  }

  /** A 16-bit register read as a number is below 2^16. */
  lemma Below16(x: bv16)
    ensures x as nat < 0x1_0000
  {
  }

  /** `calculateCRC16(data)`: the CRC of `data`, below 0x10000, with the unmasked
      32-bit register of the source. */
  method CalculateCrc16(data: seq<byte>) returns (crc: nat)
    ensures crc < 0x1_0000
    ensures crc == Crc(data) as nat
  {
    var acc: bv32 := 0;
    for i := 0 to |data|
      invariant Low16(acc) == Crc(data[..i])
    {
      acc := FoldByte(acc, data[i]);
      CrcPrefix(data, i);
    }
    assert data[..|data|] == data;
    crc := Low16(acc) as nat;
    Below16(Low16(acc));
  }
}
