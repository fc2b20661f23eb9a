/** Intel HEX records (Intel Hexadecimal Object File Format, revision A, 1988) as
    HexConverter reads them: one record per line, `:` followed by hexadecimal
    pairs for the byte count, the 16-bit address, the record type, the data and a
    two's-complement checksum. */
module IntelHexRecord {
  import opened JsText
  import opened JsNumber
  import opened Results
  import opened Bytes

  /** One parsed line: the 16-bit load offset, the record type and the data bytes. */
  datatype Record = Record(address: nat, rtype: byte, data: seq<byte>)

  datatype HexError =
    | MissingColon      // the line does not start with ':'
    | TooShort          // fewer than 10 characters follow the colon
    | BadDigit          // a field holds a character that is not a hexadecimal digit
    | Truncated         // the line ends before the data and checksum its byte count announces
    | ChecksumMismatch  // the trailing byte is not the two's complement of the record's sum
    | NoDataRecords     // no type-0 record in the whole file

  const Colon: CodeUnit := 0x3A

  /** A record a line can hold: 16-bit address, at most 255 data bytes. */
  predicate WellFormed(r: Record) {
    r.address < 0x1_0000 && |r.data| < 0x100
  }

  /** The two's-complement checksum over the byte count, both address bytes, the type
      and the data: `((~sum) + 1) & 0xFF`. The sum stays far below 2^31, so `~sum + 1`
      is `-sum` and masking with 0xFF keeps its residue modulo 256. */
  function Checksum(count: nat, address: nat, rtype: byte, data: seq<byte>): byte
  {
    ((-(count + address / 0x100 + address % 0x100 + rtype as int + Sum(data))) % 0x100) as byte
  }

  function Sum(data: seq<byte>): nat {
    if |data| == 0 then 0 else Sum(data[..|data| - 1]) + data[|data| - 1] as nat
  }

  /** `parseInt(d.substring(i, i + 2), 16)` on a field of two hexadecimal digits. */
  function ReadByte(d: JsString, i: nat): (r: Result<byte, HexError>)
    requires i + 2 <= |d|
    ensures r.Failure? ==> r.error == BadDigit
  {
    PairValue(d[i], d[i + 1])
  }

  /** The byte two hexadecimal digits spell, the high digit first. */
  function PairValue(high: CodeUnit, low: CodeUnit): (r: Result<byte, HexError>)
    ensures r.Failure? ==> r.error == BadDigit
  {
    if IsDigitIn(high, 16) && IsDigitIn(low, 16)
    then Success((DigitOf(high).value * 16 + DigitOf(low).value) as byte)
    else Failure(BadDigit)
  }

  /** The `n` hexadecimal pairs starting at `start`. */
  function ReadBytes(d: JsString, start: nat, n: nat): (r: Result<seq<byte>, HexError>)
    requires start + 2 * n <= |d|
    ensures r.Success? ==> |r.value| == n
    ensures r.Failure? ==> r.error == BadDigit
  {
    if n == 0 then Success([])
    else
      var init :- ReadBytes(d, start, n - 1);
      var last :- ReadByte(d, start + 2 * (n - 1));
      Success(init + [last])
  }

  /** The hexadecimal pairs of `d`, the text after the colon, spell out `rec`: its
      byte count, both address bytes, its type, its data and the checksum it must carry. */
  predicate Describes(d: JsString, rec: Record) {
    WellFormed(rec) && |d| >= 10 + 2 * |rec.data|
    && ReadByte(d, 0) == Success(|rec.data| as byte)
    && ReadByte(d, 2) == Success((rec.address / 0x100) as byte)
    && ReadByte(d, 4) == Success((rec.address % 0x100) as byte)
    && ReadByte(d, 6) == Success(rec.rtype)
    && ReadBytes(d, 8, |rec.data|) == Success(rec.data)
    && ReadByte(d, 8 + 2 * |rec.data|) == Success(RecordChecksum(rec))
  }

  /** `parseRecord(line)`: the record on a trimmed line, or why the line is rejected. */
  function ParseRecord(line: JsString): (r: Result<Record, HexError>)
    ensures r.Success? ==> WellFormed(r.value)
    ensures r.Success? ==> |line| >= 11 + 2 * |r.value.data| && Describes(line[1..], r.value)
    ensures |line| >= 1 && line[0] == Colon ==> forall rec :: Describes(line[1..], rec) ==> r == Success(rec)
    ensures (|line| == 0 || line[0] != Colon) <==> r == Failure(MissingColon)
    ensures (|line| >= 1 && line[0] == Colon && |line| < 11) <==> r == Failure(TooShort)
  {
    if |line| == 0 || line[0] != Colon then Failure(MissingColon)
    else if |line| < 11 then Failure(TooShort)
    else
      FrameComplete(line[1..]);
      ParseFrame(line[1..])
  }

  /** The fields after the colon: byte count, address, type, then data and checksum. */
  function ParseFrame(d: JsString): (r: Result<Record, HexError>)
    requires |d| >= 10
    ensures r.Success? ==> Describes(d, r.value)
    ensures r.Failure? ==> r.error !in {MissingColon, TooShort, NoDataRecords}
  {
    var count :- ReadByte(d, 0);
    var addressHigh :- ReadByte(d, 2);
    var addressLow :- ReadByte(d, 4);
    var rtype :- ReadByte(d, 6);
    if |d| < 10 + 2 * count as nat then Failure(Truncated)
    else
      AddressBytes(addressHigh, addressLow);
      ParsePayload(d, count as nat, addressHigh as nat * 0x100 + addressLow as nat, rtype)
  }

  /** The 16-bit address made of two bytes splits back into them. */
  lemma AddressBytes(high: byte, low: byte)
    ensures var address := high as nat * 0x100 + low as nat;
      address < 0x1_0000 && (address / 0x100) as byte == high && (address % 0x100) as byte == low
  {
  }

  /** The `count` data bytes and the checksum byte, which must match the record's sum. */
  function ParsePayload(d: JsString, count: nat, address: nat, rtype: byte): (r: Result<Record, HexError>)
    requires count < 0x100 && address < 0x1_0000 && 10 + 2 * count <= |d|
    ensures r.Success? <==> (ReadBytes(d, 8, count).Success?
      && ReadByte(d, 8 + 2 * count) == Success(Checksum(count, address, rtype, ReadBytes(d, 8, count).value)))
    ensures r.Success? ==> r.value == Record(address, rtype, ReadBytes(d, 8, count).value)
    ensures r.Failure? ==> r.error in {BadDigit, ChecksumMismatch}
  {
    var data :- ReadBytes(d, 8, count);
    var checksum :- ReadByte(d, 8 + 2 * count);
    if Checksum(count, address, rtype, data) != checksum then Failure(ChecksumMismatch)
    else Success(Record(address, rtype, data))
  }

  /** A frame whose pairs spell out a record is read as exactly that record. */
  lemma FrameComplete(d: JsString)
    requires |d| >= 10
    ensures forall rec :: Describes(d, rec) ==> ParseFrame(d) == Success(rec)
  {
    forall rec | Describes(d, rec) ensures ParseFrame(d) == Success(rec) {
      var high, low := (rec.address / 0x100) as byte, (rec.address % 0x100) as byte;
      assert high as nat * 0x100 + low as nat == rec.address;
      FrameFields(d, |rec.data| as byte, high, low, rec.rtype);
    }
  }

  /** Once the four header pairs are read, a long enough frame is its payload. */
  lemma FrameFields(d: JsString, count: byte, high: byte, low: byte, rtype: byte)
    requires |d| >= 10 + 2 * count as nat
    requires ReadByte(d, 0) == Success(count) && ReadByte(d, 2) == Success(high)
    requires ReadByte(d, 4) == Success(low) && ReadByte(d, 6) == Success(rtype)
    ensures ParseFrame(d) == ParsePayload(d, count as nat, high as nat * 0x100 + low as nat, rtype)
  {
  }

  // ---------------------------------------------------------------------------
  // Writing records: the inverse of ParseRecord, used to state what it accepts.

  function HexDigit(v: nat): (c: CodeUnit)
    requires v < 16
    ensures DigitOf(c) == Some(v)
  {
    if v < 10 then '0' as CodeUnit + v as CodeUnit else 'A' as CodeUnit + (v - 10) as CodeUnit
  }

  /** The two upper-case hexadecimal digits of `b`. */
  function Hex2(b: byte): (r: JsString)
    ensures |r| == 2
  {
    [HexDigit(b as nat / 16), HexDigit(b as nat % 16)]
  }

  /** The hexadecimal pairs of `bs`, in order. */
  function HexBytes(bs: seq<byte>): (r: JsString)
    ensures |r| == 2 * |bs|
  {
    if |bs| == 0 then [] else HexBytes(bs[..|bs| - 1]) + Hex2(bs[|bs| - 1])
  }

  /** The bytes of a line for record `r` with `checksum` as its trailing byte. */
  function RecordBytes(r: Record, checksum: byte): seq<byte>
    requires WellFormed(r)
  {
    [|r.data| as byte, (r.address / 0x100) as byte, (r.address % 0x100) as byte, r.rtype] + r.data + [checksum]
  }

  /** The line for record `r` with `checksum` as its trailing byte. */
  function EncodeRecord(r: Record, checksum: byte): JsString
    requires WellFormed(r)
  {
    [Colon] + HexBytes(RecordBytes(r, checksum))
  }

  /** The checksum a well-formed record must carry. */
  function RecordChecksum(r: Record): byte
    requires WellFormed(r)
  {
    Checksum(|r.data|, r.address, r.rtype, r.data)
  }

  /** Pair `i` of a hexadecimal string is the pair of byte `i`. */
  lemma {:induction false} HexPairAt(bs: seq<byte>, i: nat)
    requires i < |bs|
    ensures HexBytes(bs)[2 * i] == Hex2(bs[i])[0] && HexBytes(bs)[2 * i + 1] == Hex2(bs[i])[1]
    decreases |bs|
  {
    var n := |bs|;
    assert HexBytes(bs) == HexBytes(bs[..n - 1]) + Hex2(bs[n - 1]);
    if i < n - 1 {
      HexPairAt(bs[..n - 1], i);
    }
  }

  /** Pair `i` of a hexadecimal string reads as byte `i`. */
  lemma ReadHexPair(bs: seq<byte>, i: nat)
    requires i < |bs|
    ensures ReadByte(HexBytes(bs), 2 * i) == Success(bs[i])
  {
    HexPairAt(bs, i);
    ReadHex2(bs[i]);
  }

  /** Two digits written for `b` read back as `b`. */
  lemma ReadHex2(b: byte)
    ensures PairValue(Hex2(b)[0], Hex2(b)[1]) == Success(b)
  {
    var high, low := b as nat / 16, b as nat % 16;
    assert DigitOf(Hex2(b)[0]) == Some(high) && DigitOf(Hex2(b)[1]) == Some(low);
    assert high * 16 + low == b as nat;
  }

  /** The four header pairs of a hexadecimal string read as its first four bytes. */
  lemma HeaderPairs(fields: seq<byte>)
    requires |fields| >= 4
    ensures var d := HexBytes(fields);
      && ReadByte(d, 0) == Success(fields[0]) && ReadByte(d, 2) == Success(fields[1])
      && ReadByte(d, 4) == Success(fields[2]) && ReadByte(d, 6) == Success(fields[3])
  {
    ReadHexPair(fields, 0);
    ReadHexPair(fields, 1);
    ReadHexPair(fields, 2);
    ReadHexPair(fields, 3);
  }

  /** The `n` pairs from pair `start` of a hexadecimal string read as those bytes. */
  lemma {:induction false} ReadHexRun(bs: seq<byte>, start: nat, n: nat)
    requires start + n <= |bs|
    ensures ReadBytes(HexBytes(bs), 2 * start, n) == Success(bs[start..start + n])
    decreases n
  {
    if n > 0 {
      var d := HexBytes(bs);
      ReadHexRun(bs, start, n - 1);
      ReadHexPair(bs, start + n - 1);
      assert 2 * (start + n - 1) == 2 * start + 2 * (n - 1);
      assert ReadBytes(d, 2 * start, n)
        == Success(ReadBytes(d, 2 * start, n - 1).value + [ReadByte(d, 2 * start + 2 * (n - 1)).value]);
      assert bs[start..start + n] == bs[start..start + n - 1] + [bs[start + n - 1]];
    } else {
      assert bs[start..start + n] == [];
    }
  }

  /** A line whose fields read as the given bytes parses to the record they describe
      when the checksum byte matches, and is a checksum mismatch otherwise. */
  lemma LineFields(line: JsString, count: byte, high: byte, low: byte, rtype: byte, data: seq<byte>, checksum: byte)
    requires |line| >= 11 + 2 * |data| && line[0] == Colon && count as nat == |data|
    requires ReadByte(line[1..], 0) == Success(count) && ReadByte(line[1..], 2) == Success(high)
    requires ReadByte(line[1..], 4) == Success(low) && ReadByte(line[1..], 6) == Success(rtype)
    requires ReadBytes(line[1..], 8, |data|) == Success(data)
    requires ReadByte(line[1..], 8 + 2 * |data|) == Success(checksum)
    ensures var address := high as nat * 0x100 + low as nat;
      ParseRecord(line)
        == if Checksum(|data|, address, rtype, data) == checksum
           then Success(Record(address, rtype, data)) else Failure(ChecksumMismatch)
  {
    FrameFields(line[1..], count, high, low, rtype);
  }

  /** A written record reads back, whatever checksum byte it carries, exactly when
      that byte is the record's checksum; any other byte is a checksum mismatch. */
  lemma RecordRoundTrip(r: Record, checksum: byte)
    requires WellFormed(r)
    ensures ParseRecord(EncodeRecord(r, checksum))
      == if checksum == RecordChecksum(r) then Success(r) else Failure(ChecksumMismatch)
  {
    var bs := RecordBytes(r, checksum);
    var line := EncodeRecord(r, checksum);
    assert line[1..] == HexBytes(bs);
    HeaderPairs(bs);
    ReadHexRun(bs, 4, |r.data|);
    ReadHexPair(bs, |bs| - 1);
    assert bs[4..4 + |r.data|] == r.data;
    assert bs[1] as nat * 0x100 + bs[2] as nat == r.address;
    LineFields(line, bs[0], bs[1], bs[2], bs[3], r.data, checksum);
  }

  /** Altering the checksum byte of an accepted record by any non-zero amount
      (modulo 256) always gets the record rejected. */
  lemma ChecksumTamper(r: Record, delta: int)
    requires WellFormed(r) && delta % 0x100 != 0
    ensures ParseRecord(EncodeRecord(r, ((RecordChecksum(r) as int + delta) % 0x100) as byte))
      == Failure(ChecksumMismatch)
  {
    var tampered := ((RecordChecksum(r) as int + delta) % 0x100) as byte;
    assert tampered != RecordChecksum(r);
    RecordRoundTrip(r, tampered);
  }
}
