/** HexConverter.hexToBinary and isValidHexFile: an Intel HEX document flattened
    into one contiguous memory image.

    Records are read in document order. A type-4 (extended linear address) or type-2
    (extended segment address) record sets the base address added to the 16-bit
    offset of every later data record; the image spans the lowest to the highest
    absolute address any type-0 record touches, holds the data of the last record
    covering each address, and 0xFF (erased flash) where no record does. */
module IntelHexImage {
  import opened JsText
  import opened Results
  import opened Bytes
  import opened IntelHexRecord

  /** The value of erased flash, which fills every address no record covers. */
  const Erased: byte := 0xFF

  // ---------------------------------------------------------------------------
  // Lines

  /** `content.split('\n').map(line => line.trim()).filter(line => line)`. */
  function Lines(content: JsString): seq<JsString>
  {
    NonBlank(Split(content, LineFeed))
  }

  function NonBlank(parts: seq<JsString>): (r: seq<JsString>)
    ensures forall k :: 0 <= k < |r| ==> |r[k]| > 0
  {
    if |parts| == 0 then []
    else
      var t := Trim(parts[0]);
      if |t| == 0 then NonBlank(parts[1..]) else [t] + NonBlank(parts[1..])
  }

  /** `lines.map(line => this.parseRecord(line))`: every line parsed, or the error of
      the first line that is rejected. */
  function ParseAll(lines: seq<JsString>): (r: Result<seq<Record>, HexError>)
    ensures r.Success? <==> forall i :: 0 <= i < |lines| ==> ParseRecord(lines[i]).Success?
    ensures r.Success? ==> (|r.value| == |lines|
      && forall i :: 0 <= i < |lines| ==> ParseRecord(lines[i]) == Success(r.value[i]))
    ensures r.Failure? ==> exists i :: (0 <= i < |lines| && ParseRecord(lines[i]) == Failure(r.error)
      && forall j :: 0 <= j < i ==> ParseRecord(lines[j]).Success?)
  {
    if |lines| == 0 then Success([])
    else
      var first :- ParseRecord(lines[0]);
      var rest :- ParseAll(lines[1..]);
      Success([first] + rest)
  }

  // ---------------------------------------------------------------------------
  // Base address, in document order

  /** Data byte `i` of `r` as the shift operators see it: a missing byte is
      `undefined`, which they convert to 0. */
  function DataAt(r: Record, i: nat): nat {
    if i < |r.data| then r.data[i] as nat else 0
  }

  /** `(d0 << 24) | (d1 << 16)` in 32-bit signed arithmetic: negative when d0 >= 0x80. */
  function LinearBase(d0: nat, d1: nat): int
    requires d0 < 0x100 && d1 < 0x100
  {
    var v := d0 * 0x100_0000 + d1 * 0x1_0000;
    if d0 >= 0x80 then v - 0x1_0000_0000 else v
  }

  /** `((d0 << 8) | d1) << 4`. */
  function SegmentBase(d0: nat, d1: nat): int
    requires d0 < 0x100 && d1 < 0x100
  {
    (d0 * 0x100 + d1) * 0x10
  }

  predicate IsData(r: Record) { r.rtype == 0 }

  predicate SetsBase(r: Record) { r.rtype == 4 || r.rtype == 2 }

  /** The base address a type-4 or type-2 record establishes. */
  function ExtensionBase(r: Record): int
    requires SetsBase(r)
  {
    if r.rtype == 4 then LinearBase(DataAt(r, 0), DataAt(r, 1)) else SegmentBase(DataAt(r, 0), DataAt(r, 1))
  }

  /** The base address after record `r`, given the one before it. */
  function NextBase(base: int, r: Record): int {
    if IsData(r) then base else if SetsBase(r) then ExtensionBase(r) else base
  }

  /** The base address in effect when record `n` is reached: 0 at the start. */
  function BaseBefore(rs: seq<Record>, n: nat): int
    requires n <= |rs|
  {
    if n == 0 then 0 else NextBase(BaseBefore(rs, n - 1), rs[n - 1])
  }

  /** The absolute address of record `i`. */
  function Abs(rs: seq<Record>, i: nat): int
    requires i < |rs|
  {
    BaseBefore(rs, i) + rs[i].address
  }

  /** One past the last absolute address of record `i`. */
  function End(rs: seq<Record>, i: nat): int
    requires i < |rs|
  {
    Abs(rs, i) + |rs[i].data|
  }

  /** Before any type-4 or type-2 record the base address is 0. */
  lemma {:induction false} BaseWithoutExtension(rs: seq<Record>, n: nat)
    requires n <= |rs|
    requires forall j :: 0 <= j < n ==> !SetsBase(rs[j])
    ensures BaseBefore(rs, n) == 0
  {
    if n > 0 {
      BaseWithoutExtension(rs, n - 1);
    }
  }

  /** After a type-4 or type-2 record, and up to the next one, the base address is the
      one that record establishes, whatever came before it. */
  lemma {:induction false} BaseFromLastExtension(rs: seq<Record>, n: nat, j: nat)
    requires j < n <= |rs| && SetsBase(rs[j])
    requires forall k :: j < k < n ==> !SetsBase(rs[k])
    ensures BaseBefore(rs, n) == ExtensionBase(rs[j])
  {
    if j < n - 1 {
      BaseFromLastExtension(rs, n - 1, j);
    }
  }

  // ---------------------------------------------------------------------------
  // First pass: the address range of the data records

  datatype Extent = Extent(lo: int, hi: int)

  predicate HasData(rs: seq<Record>, n: nat)
    requires n <= |rs|
  {
    exists j :: 0 <= j < n && IsData(rs[j])
  }

  /** The first pass over records `0 .. n`: `Math.min` of the data records' absolute
      addresses and `Math.max` of their ends, `None` while both are still infinite. */
  function ScanExtent(rs: seq<Record>, n: nat): (r: Option<Extent>)
    requires n <= |rs|
    ensures r.None? <==> !HasData(rs, n)
    ensures r.Some? ==> r.value.lo <= r.value.hi
    ensures r.Some? ==> forall j :: 0 <= j < n && IsData(rs[j]) ==> r.value.lo <= Abs(rs, j) && End(rs, j) <= r.value.hi
    ensures r.Some? ==> exists j :: 0 <= j < n && IsData(rs[j]) && Abs(rs, j) == r.value.lo
    ensures r.Some? ==> exists j :: 0 <= j < n && IsData(rs[j]) && End(rs, j) == r.value.hi
  {
    if n == 0 then None
    else
      var e := ScanExtent(rs, n - 1);
      if !IsData(rs[n - 1]) then e
      else
        var a := Abs(rs, n - 1);
        var b := End(rs, n - 1);
        match e
        case None => Some(Extent(a, b))
        case Some(x) => Some(Extent(if a < x.lo then a else x.lo, if b > x.hi then b else x.hi))
  }

  // ---------------------------------------------------------------------------
  // Second pass: writing the data

  /** Record `i` is a data record whose bytes cover absolute address `a`. */
  predicate Covers(rs: seq<Record>, i: nat, a: int)
    requires i < |rs|
  {
    IsData(rs[i]) && Abs(rs, i) <= a < End(rs, i)
  }

  /** The byte the last of records `0 .. n` covering address `a` holds there, if any. */
  function LastWrite(rs: seq<Record>, n: nat, a: int): Option<byte>
    requires n <= |rs|
  {
    if n == 0 then None
    else if Covers(rs, n - 1, a) then Some(rs[n - 1].data[a - Abs(rs, n - 1)])
    else LastWrite(rs, n - 1, a)
  }

  /** `LastWrite` finds nothing exactly when no record covers the address. */
  lemma {:induction false} LastWriteNone(rs: seq<Record>, n: nat, a: int)
    requires n <= |rs|
    ensures LastWrite(rs, n, a).None? <==> forall j :: 0 <= j < n ==> !Covers(rs, j, a)
  {
    if n > 0 {
      LastWriteNone(rs, n - 1, a);
    }
  }

  /** `LastWrite` finds the covering record that comes last in the document. */
  lemma {:induction false} LastWriteIsLast(rs: seq<Record>, n: nat, a: int, j: nat)
    requires j < n <= |rs| && Covers(rs, j, a)
    requires forall k :: j < k < n ==> !Covers(rs, k, a)
    ensures LastWrite(rs, n, a) == Some(rs[j].data[a - Abs(rs, j)])
  {
    if j < n - 1 {
      LastWriteIsLast(rs, n - 1, a, j);
    }
  }

  /** The second pass over records `0 .. n`: `binary.set(record.data, abs - lo)` for
      each data record, into a buffer that spans `lo .. lo + |buf|`. */
  function WriteRecords(rs: seq<Record>, n: nat, lo: int, buf: seq<byte>): (r: seq<byte>)
    requires n <= |rs|
    requires forall j :: 0 <= j < n && IsData(rs[j]) ==> lo <= Abs(rs, j) && End(rs, j) <= lo + |buf|
    ensures |r| == |buf|
    ensures forall k :: 0 <= k < |buf| ==> r[k] == LastWrite(rs, n, lo + k).GetOr(buf[k])
  {
    if n == 0 then buf
    else
      var before := WriteRecords(rs, n - 1, lo, buf);
      if IsData(rs[n - 1]) then
        assert lo <= Abs(rs, n - 1) && End(rs, n - 1) <= lo + |buf|;
        Overwrite(before, Abs(rs, n - 1) - lo, rs[n - 1].data)
      else before
  }

  // ---------------------------------------------------------------------------
  // The decoder

  /** Each byte of `image`, which starts at address `lo`, is what the last of the
      records covering that address writes there, or 0xFF when none does. */
  predicate ErasedImageOf(rs: seq<Record>, lo: int, image: seq<byte>) {
    forall k :: 0 <= k < |image| ==> image[k] == LastWrite(rs, |rs|, lo + k).GetOr(Erased)
  }

  /** The flattened image of parsed records: the data records' extent, filled with
      0xFF, then each data record written in document order. */
  function Image(rs: seq<Record>): (r: Result<seq<byte>, HexError>)
    ensures r.Success? <==> HasData(rs, |rs|)
    ensures r.Failure? ==> r.error == NoDataRecords
    ensures r.Success? ==>
      var e := ScanExtent(rs, |rs|).value;
      |r.value| == e.hi - e.lo && ErasedImageOf(rs, e.lo, r.value)
  {
    if ScanExtent(rs, |rs|).None? then Failure(NoDataRecords)
    else
      var e := ScanExtent(rs, |rs|).value;
      ErasedFill(rs, e.lo, e.hi - e.lo);
      Success(WriteRecords(rs, |rs|, e.lo, Fill(e.hi - e.lo, Erased)))
  }

  /** Written over erased flash, each byte is the last write to its address, or 0xFF. */
  lemma ErasedFill(rs: seq<Record>, lo: int, len: nat)
    requires forall j :: 0 <= j < |rs| && IsData(rs[j]) ==> lo <= Abs(rs, j) && End(rs, j) <= lo + len
    ensures ErasedImageOf(rs, lo, WriteRecords(rs, |rs|, lo, Fill(len, Erased)))
  {
  }

  /** `hexToBinary(content)`: every line is parsed before anything is built, so one
      bad record fails the whole decode with the error of the first such record; a
      document without a data record fails with NoDataRecords; otherwise the result
      is the image of the records. */
  function HexToBinary(content: JsString): (r: Result<seq<byte>, HexError>)
    ensures ParseAll(Lines(content)).Failure? ==> r == Failure(ParseAll(Lines(content)).error)
    ensures ParseAll(Lines(content)).Success? ==> r == Image(ParseAll(Lines(content)).value)
  {
    var rs :- ParseAll(Lines(content));
    Image(rs)
  }

  /** `isValidHexFile(content)`: a quick test of the first non-blank line only. */
  function IsValidHexFile(content: JsString): (r: bool)
    ensures r <==> |Lines(content)| > 0 && ParseRecord(Lines(content)[0]).Success?
  {
    var lines := Lines(content);
    if |lines| == 0 then false
    else if lines[0][0] != Colon then false
    else ParseRecord(lines[0]).Success?
  }

  /** Whatever decodes also passes the quick test. */
  lemma DecodableIsValid(content: JsString)
    requires HexToBinary(content).Success?
    ensures IsValidHexFile(content)
  {
    var rs := ParseAll(Lines(content)).value;
    assert HasData(rs, |rs|);
  }

  /** Content made only of white space and line breaks, the empty content included,
      has no lines and therefore fails with NoDataRecords. */
  lemma BlankContentFails(content: JsString)
    requires AllWhiteSpace(content)
    ensures Lines(content) == []
    ensures HexToBinary(content) == Failure(NoDataRecords)
  {
    var parts := Split(content, LineFeed);
    forall k | 0 <= k < |parts| ensures Trim(parts[k]) == [] {
      forall i | 0 <= i < |parts[k]| ensures IsWhiteSpace(parts[k][i]) {
        JoinContains(parts, LineFeed, k, i);
      }
      TrimEmpty(parts[k]);
    }
    AllBlank(parts);
  }

  lemma {:induction false} AllBlank(parts: seq<JsString>)
    requires forall k :: 0 <= k < |parts| ==> Trim(parts[k]) == []
    ensures NonBlank(parts) == []
  {
    if |parts| > 0 {
      AllBlank(parts[1..]);
    }
  }

  // ---------------------------------------------------------------------------
  // Contiguous data

  /** The data of records `0 .. n`, one after the other. */
  function Concat(rs: seq<Record>, n: nat): (r: seq<byte>)
    requires n <= |rs|
  {
    if n == 0 then [] else Concat(rs, n - 1) + rs[n - 1].data
  }

  /** Data records only, each starting where the previous one ended. */
  predicate Contiguous(rs: seq<Record>, start: nat) {
    forall i :: 0 <= i < |rs| ==> Follows(rs, start, i)
  }

  /** Record `i` is a data record that starts where the data of the records before it ends. */
  predicate Follows(rs: seq<Record>, start: nat, i: nat)
    requires i < |rs|
  {
    IsData(rs[i]) && rs[i].address == start + |Concat(rs, i)|
  }

  /** In contiguous records, record `i` spans `start + |Concat(rs, i)| .. start + |Concat(rs, i + 1)|`. */
  lemma ContiguousSpan(rs: seq<Record>, start: nat, i: nat)
    requires Contiguous(rs, start) && i < |rs|
    ensures IsData(rs[i])
    ensures Abs(rs, i) == start + |Concat(rs, i)|
    ensures End(rs, i) == start + |Concat(rs, i + 1)|
  {
    assert Follows(rs, start, i);
    forall j | 0 <= j < i ensures !SetsBase(rs[j]) {
      assert Follows(rs, start, j);
    }
    BaseWithoutExtension(rs, i);
  }

  lemma {:induction false} ContiguousExtent(rs: seq<Record>, start: nat, n: nat)
    requires Contiguous(rs, start) && 0 < n <= |rs|
    ensures ScanExtent(rs, n) == Some(Extent(start, start + |Concat(rs, n)|))
  {
    ContiguousSpan(rs, start, n - 1);
    var a := start + |Concat(rs, n - 1)|;
    var b := start + |Concat(rs, n)|;
    assert a <= b;
    if n == 1 {
      assert ScanExtent(rs, 0) == None;
    } else {
      ContiguousExtent(rs, start, n - 1);
      assert ScanExtent(rs, n - 1) == Some(Extent(start, a));
    }
  }

  lemma {:induction false} ContiguousWrites(rs: seq<Record>, start: nat, n: nat, k: nat)
    requires Contiguous(rs, start) && n <= |rs| && k < |Concat(rs, n)|
    ensures LastWrite(rs, n, start + k) == Some(Concat(rs, n)[k])
  {
    var before := Concat(rs, n - 1);
    ContiguousSpan(rs, start, n - 1);
    assert Concat(rs, n) == before + rs[n - 1].data;
    if k < |before| {
      assert !Covers(rs, n - 1, start + k);
      ContiguousWrites(rs, start, n - 1, k);
    } else {
      assert Covers(rs, n - 1, start + k);
    }
  }

  /** Data records laid end to end, without any address record, decode to the
      concatenation of their data. */
  lemma ContiguousImage(rs: seq<Record>, start: nat)
    requires Contiguous(rs, start) && |rs| > 0
    ensures Image(rs) == Success(Concat(rs, |rs|))
  {
    ContiguousShape(rs, start);
    ContiguousBytes(rs, start, Image(rs).value);
  }

  lemma ContiguousShape(rs: seq<Record>, start: nat)
    requires Contiguous(rs, start) && |rs| > 0
    ensures Image(rs).Success? && |Image(rs).value| == |Concat(rs, |rs|)|
    ensures forall k :: 0 <= k < |Image(rs).value| ==>
      Image(rs).value[k] == LastWrite(rs, |rs|, start + k).GetOr(Erased)
  {
    ContiguousExtent(rs, start, |rs|);
    assert Follows(rs, start, 0);
  }

  lemma ContiguousBytes(rs: seq<Record>, start: nat, img: seq<byte>)
    requires Contiguous(rs, start) && |img| == |Concat(rs, |rs|)|
    requires forall k :: 0 <= k < |img| ==> img[k] == LastWrite(rs, |rs|, start + k).GetOr(Erased)
    ensures img == Concat(rs, |rs|)
  {
    forall k | 0 <= k < |img| ensures img[k] == Concat(rs, |rs|)[k] {
      ContiguousWrites(rs, start, |rs|, k);
    }
  }

  // ---------------------------------------------------------------------------
  // Address records

  /** A type-4 record for 0x0001 moves a later data record at offset 0x0010 to 0x10010. */
  lemma LinearAddressExample(data: seq<byte>)
    requires 0 < |data|
    ensures var rs := [Record(0, 4, [0x00, 0x01]), Record(0x10, 0, data)];
      && Abs(rs, 1) == 0x1_0010
      && ScanExtent(rs, 2) == Some(Extent(0x1_0010, 0x1_0010 + |data|))
  {
  }

  /** A type-2 record for segment 0x1234 moves a later data record at offset 0x0010
      to 0x12340 + 0x10. */
  lemma SegmentAddressExample(data: seq<byte>)
    requires 0 < |data|
    ensures var rs := [Record(0, 2, [0x12, 0x34]), Record(0x10, 0, data)];
      && Abs(rs, 1) == 0x1_2350
      && Image(rs).Success? && |Image(rs).value| == |data|
  {
  }

  /** A type-4 record whose high byte is 0x80 or more gives a negative base: the
      shift works on signed 32-bit integers. */
  lemma SignedLinearBase()
    ensures LinearBase(0x80, 0x00) == -0x8000_0000
    ensures LinearBase(0xFF, 0xFF) == -0x1_0000
  {
  }
}
