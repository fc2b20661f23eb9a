/** The packets YModemService writes: 128-byte SOH frames with a block number, its
    complement and a CRC-16 trailer (XMODEM/YMODEM Protocol Reference, section 4.2),
    the data blocks cut from the file and padded with SUB (0x1A), and the batch
    header, block 0, holding the file name, a NUL and the decimal file size
    (chapter 5 of the same reference). */
module YmodemFrame {
  import opened JsText
  import opened JsNumber
  import opened Results
  import opened Bytes
  import opened Crc16

  const SOH: byte := 0x01
  const EOT: byte := 0x04
  const ACK: byte := 0x06
  const CAN: byte := 0x18
  /** 'C': the receiver asks for CRC-16 checked blocks. */
  const CrcRequest: byte := 0x43
  const BlockSize: nat := 128
  /** The SUB character that pads the last data block. */
  const Pad: byte := 0x1A
  /** At most this many name bytes are copied into the header. */
  const NameLimit: nat := 64

  function Min(a: int, b: int): int {
    if a < b then a else b
  }

  // ---------------------------------------------------------------------------
  // Frames

  /** `(~n) & 0xFF`: the one's complement of the low octet of `n`. */
  function Complement(n: nat): (r: byte)
    ensures (n % 0x100) + r as int == 0xFF
  {
    ((-(n as int) - 1) % 0x100) as byte
  }

  /** `sendDataBlock(n, payload)`: SOH, `n & 0xFF`, its complement, the payload and the
      CRC of the payload, high byte first. */
  function Frame(n: nat, payload: seq<byte>): (r: seq<byte>)
    ensures |r| == 3 + |payload| + 2
    ensures r[0] == SOH && r[1] as int == n % 0x100 && r[1] as int + r[2] as int == 0xFF
    ensures r[3..3 + |payload|] == payload
    ensures r[3 + |payload|] as nat * 0x100 + r[4 + |payload|] as nat == Crc(payload) as nat
  {
    var crc := Crc(payload) as nat;
    [SOH, (n % 0x100) as byte, Complement(n)] + payload + [(crc / 0x100) as byte, (crc % 0x100) as byte]
  }

  /** What a receiver accepts as a frame: the block number and the payload, when the
      start byte, the complement and the CRC all check. */
  function ParseFrame(packet: seq<byte>): (r: Option<(byte, seq<byte>)>)
    ensures r.Some? ==> |r.value.1| + 5 == |packet|
  {
    if |packet| < 5 || packet[0] != SOH || packet[1] as int + packet[2] as int != 0xFF then None
    else
      var payload := packet[3..|packet| - 2];
      var crc := Crc(payload) as nat;
      if packet[|packet| - 2] as nat == crc / 0x100 && packet[|packet| - 1] as nat == crc % 0x100
      then Some((packet[1], payload))
      else None
  }

  /** Every frame is accepted, with the low octet of its number and its payload. */
  lemma FrameRoundTrip(n: nat, payload: seq<byte>)
    ensures ParseFrame(Frame(n, payload)) == Some(((n % 0x100) as byte, payload))
  {
  }

  /** Only frames are accepted: an accepted packet is the frame of what it carries. */
  lemma ParseFrameSound(packet: seq<byte>)
    requires ParseFrame(packet).Some?
    ensures Frame(ParseFrame(packet).value.0 as nat, ParseFrame(packet).value.1) == packet
  {
  }

  // ---------------------------------------------------------------------------
  // Data blocks

  /** `Math.ceil(len / 128)`. */
  function NumBlocks(len: nat): (r: nat)
    ensures r * 128 >= len
    ensures r == 0 <==> len == 0
    ensures r > 0 ==> (r - 1) * 128 < len
  {
    (len + 127) / 128
  }

  /** `blockNum & 0xFF`: the number block `k` carries, wrapping from 255 to 0. */
  function BlockNumber(k: nat): (r: nat)
    ensures r < 0x100
  {
    k % 0x100
  }

  lemma BlockNumberWraps(k: nat)
    ensures BlockNumber(k + 1) == (BlockNumber(k) + 1) % 0x100
    ensures BlockNumber(255) == 255 && BlockNumber(256) == 0 && BlockNumber(257) == 1
  {
  }

  /** `end` for block `k`: one past the last file byte it carries. */
  function BlockEnd(len: nat, k: nat): (r: nat)
    ensures r <= len
  {
    Min(k * 128, len)
  }

  /** The file bytes of block `k`, `fileData.slice((k - 1) * 128, end)`. */
  function BlockData(data: seq<byte>, k: nat): (r: seq<byte>)
    requires 1 <= k <= NumBlocks(|data|)
    ensures 0 < |r| <= BlockSize
  {
    data[(k - 1) * 128 .. BlockEnd(|data|, k)]
  }

  /** The payload of block `k`: its file bytes, padded with SUB to 128 bytes. */
  function DataPayload(data: seq<byte>, k: nat): (r: seq<byte>)
    requires 1 <= k <= NumBlocks(|data|)
    ensures |r| == BlockSize
    ensures r[..|BlockData(data, k)|] == BlockData(data, k)
    ensures forall i :: |BlockData(data, k)| <= i < BlockSize ==> r[i] == Pad
  {
    var r := Overwrite(Fill(BlockSize, Pad), 0, BlockData(data, k));
    assert r[..|BlockData(data, k)|] == BlockData(data, k);
    r
  }

  /** The frame of data block `k`. */
  function DataFrame(data: seq<byte>, k: nat): seq<byte>
    requires 1 <= k <= NumBlocks(|data|)
  {
    Frame(BlockNumber(k), DataPayload(data, k))
  }

  /** The payloads of blocks `1 .. k`, as a receiver stores them. */
  function Payloads(data: seq<byte>, k: nat): (r: seq<byte>)
    requires k <= NumBlocks(|data|)
    ensures |r| == k * 128
  {
    if k == 0 then [] else Payloads(data, k - 1) + DataPayload(data, k)
  }

  lemma {:induction false} PayloadsPrefix(data: seq<byte>, k: nat)
    requires k <= NumBlocks(|data|)
    ensures Payloads(data, k)[..BlockEnd(|data|, k)] == data[..BlockEnd(|data|, k)]
  {
    if k > 0 {
      PayloadsPrefix(data, k - 1);
      var before := Payloads(data, k - 1);
      var e := (k - 1) * 128;
      assert BlockEnd(|data|, k - 1) == e;
      assert before == data[..e];
      var block := BlockData(data, k);
      var payload := DataPayload(data, k);
      var f := BlockEnd(|data|, k);
      assert f == e + |block|;
      assert Payloads(data, k) == before + payload;
      ExtendPrefix(data, before, payload, e, f);
    }
  }

  /** A prefix of `data` followed by a chunk that starts with the next bytes of
      `data` is, cut at the end of those bytes, the longer prefix. */
  lemma ExtendPrefix(data: seq<byte>, before: seq<byte>, chunk: seq<byte>, e: nat, f: nat)
    requires e <= f <= |data| && f - e <= |chunk|
    requires before == data[..e] && chunk[..f - e] == data[e..f]
    ensures (before + chunk)[..f] == data[..f]
  {
    assert (before + chunk)[..f] == before + chunk[..f - e];
    assert data[..f] == data[..e] + data[e..f];
  }

  /** The blocks put back together and cut to the file size give the file back. */
  lemma PayloadsRebuild(data: seq<byte>)
    ensures Payloads(data, NumBlocks(|data|))[..|data|] == data
  {
    PayloadsPrefix(data, NumBlocks(|data|));
  }

  /** The progress counts grow strictly with the block and the last one is the file size. */
  lemma BlockEndIncreasing(len: nat, j: nat, k: nat)
    requires 1 <= j < k <= NumBlocks(len)
    ensures BlockEnd(len, j) < BlockEnd(len, k)
  {
  }

  lemma LastBlockEnd(len: nat)
    ensures BlockEnd(len, NumBlocks(len)) == len
  {
  }

  // ---------------------------------------------------------------------------
  // The header block

  /** The text `s` of ASCII characters as the bytes TextEncoder writes for it. */
  function Ascii(s: JsString): (r: seq<byte>)
    requires forall i :: 0 <= i < |s| ==> s[i] < 0x80
    ensures |r| == |s| && forall i :: 0 <= i < |s| ==> r[i] as int == s[i] as int
  {
    seq(|s|, i requires 0 <= i < |s| => s[i] as int as byte)
  }

  /** The bytes of `fileSize.toString()`. */
  function SizeBytes(size: nat): (r: seq<byte>)
    ensures |r| == |Decimal(size)|
    ensures forall i :: 0 <= i < |r| ==> r[i] as int == Decimal(size)[i] as int
  {
    Ascii(Decimal(size))
  }

  /** `sendHeaderBlock`'s payload for a name encoded as `nameBytes` and a file of
      `size` bytes: 128 zero bytes; unless the name is empty, the first 64 name bytes
      at the start and the decimal size after the full name and one NUL. `None` when
      the size does not fit, where the copy into the block throws. */
  function HeaderPayload(nameBytes: seq<byte>, size: nat): (r: Option<seq<byte>>)
    ensures r.None? <==> |nameBytes| > 0 && |nameBytes| + 1 + |SizeBytes(size)| > BlockSize
    ensures r.Some? ==> |r.value| == BlockSize
    ensures r.Some? ==> forall i :: 0 <= i < BlockSize ==>
      r.value[i] == (if i < Min(|nameBytes|, NameLimit) then nameBytes[i]
                     else if |nameBytes| > 0 && |nameBytes| + 1 <= i < |nameBytes| + 1 + |SizeBytes(size)|
                     then SizeBytes(size)[i - |nameBytes| - 1]
                     else 0)
  {
    var zeros := Fill(BlockSize, 0);
    if |nameBytes| == 0 then Some(zeros)
    else
      var named := Overwrite(zeros, 0, nameBytes[..Min(|nameBytes|, NameLimit)]);
      var sizeBytes := SizeBytes(size);
      if |nameBytes| + 1 + |sizeBytes| > BlockSize then None
      else Some(Overwrite(named, |nameBytes| + 1, sizeBytes))
  }

  /** The closing header `sendHeaderBlock('', 0)` sends is all zeros. */
  lemma EmptyHeader(size: nat)
    ensures HeaderPayload([], size) == Some(Fill(BlockSize, 0))
  {
  }

  /** The first NUL of `p`, or its length when there is none. */
  function NulIndex(p: seq<byte>): (k: nat)
    ensures k <= |p| && forall i :: 0 <= i < k ==> p[i] != 0
    ensures k < |p| ==> p[k] == 0
  {
    if |p| == 0 || p[0] == 0 then 0 else 1 + NulIndex(p[1..])
  }

  /** The bytes of `s` as code units, for reading digits. */
  function Text(s: seq<byte>): (r: JsString)
    ensures |r| == |s| && forall i :: 0 <= i < |s| ==> r[i] as int == s[i] as int
  {
    seq(|s|, i requires 0 <= i < |s| => s[i] as int as CodeUnit)
  }

  /** What a receiver reads from a header: the name up to the first NUL and the
      decimal length that follows it; `None` when no digit follows. */
  function HeaderFields(p: seq<byte>): Option<(seq<byte>, nat)>
  {
    var k := NulIndex(p);
    if k == |p| then None
    else
      match ReadDigits(Text(p[k + 1..]), 10)
      case None => None
      case Some(size) => Some((p[..k], size))
  }

  /** A digit run followed by the end or by a non-digit is read up to its end. */
  lemma {:induction false} DigitRunStops(d: JsString, tail: JsString)
    requires AllDigitsIn(d, 10)
    requires |tail| == 0 || !IsDigitIn(tail[0], 10)
    ensures DigitRun(d + tail, 10) == |d|
  {
    if |d| > 0 {
      assert (d + tail)[1..] == d[1..] + tail;
      DigitRunStops(d[1..], tail);
    }
  }

  /** A name of at most 64 bytes without NUL, followed by a size that fits, is read
      back from the header as that name and that size. */
  lemma HeaderRoundTrip(nameBytes: seq<byte>, size: nat)
    requires 0 < |nameBytes| <= NameLimit
    requires forall i :: 0 <= i < |nameBytes| ==> nameBytes[i] != 0
    requires HeaderPayload(nameBytes, size).Some?
    ensures HeaderFields(HeaderPayload(nameBytes, size).value) == Some((nameBytes, size))
  {
    var p := HeaderPayload(nameBytes, size).value;
    var n := |nameBytes|;
    var sz := SizeBytes(size);
    assert p[..n] == nameBytes;
    assert NulIndex(p) == n by {
      NulAt(p, n);
    }
    var rest := Text(p[n + 1..]);
    var d := Decimal(size);
    SizeThenNul(nameBytes, size);
    assert rest == d + rest[|d|..];
    DigitRunStops(d, rest[|d|..]);
    ToRadixValue(size, 10);
    assert rest[..|d|] == d;
  }

  /** After the name and its NUL, the header holds the decimal size and then NUL
      bytes or the end of the block. */
  lemma SizeThenNul(nameBytes: seq<byte>, size: nat)
    requires 0 < |nameBytes| <= NameLimit
    requires HeaderPayload(nameBytes, size).Some?
    ensures var rest := Text(HeaderPayload(nameBytes, size).value[|nameBytes| + 1..]);
      var d := Decimal(size);
      && |d| <= |rest| && rest[..|d|] == d
      && (|rest| == |d| || rest[|d|] == 0)
  {
    var p := HeaderPayload(nameBytes, size).value;
    var n := |nameBytes|;
    var rest := Text(p[n + 1..]);
    var d := Decimal(size);
    forall i | 0 <= i < |d| ensures rest[i] == d[i] {
      assert rest[i] as int == p[n + 1 + i] as int;
    }
    if |rest| > |d| {
      assert rest[|d|] as int == p[n + 1 + |d|] as int;
    }
  }

  /** The first NUL is at `k` when the bytes before it are not NUL and byte `k` is. */
  lemma {:induction false} NulAt(p: seq<byte>, k: nat)
    requires k < |p| && p[k] == 0
    requires forall i :: 0 <= i < k ==> p[i] != 0
    ensures NulIndex(p) == k
  {
    if k > 0 {
      NulAt(p[1..], k - 1);
    }
  }

  /** A name longer than 64 bytes is cut at 64 bytes, but the size is still written
      after the full name: between them lie only NUL bytes, so a receiver that reads
      the length after the first NUL finds none. */
  lemma LongNameHidesSize(nameBytes: seq<byte>, size: nat)
    requires |nameBytes| > NameLimit
    requires forall i :: 0 <= i < NameLimit ==> nameBytes[i] != 0
    requires HeaderPayload(nameBytes, size).Some?
    ensures HeaderFields(HeaderPayload(nameBytes, size).value) == None
  {
    var p := HeaderPayload(nameBytes, size).value;
    NulAt(p, NameLimit);
    var rest := Text(p[NameLimit + 1..]);
    assert rest[0] as int == 0;
    assert DigitRun(rest, 10) == 0;
  }
}
