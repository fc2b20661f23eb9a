/** Saving a PCR protocol: the text `protocolToCSV` writes, a header line and one
    line per stage, and the file name `saveProtocol` chooses. How a temperature (a
    JavaScript number) is written as text is a parameter. */
module ProtocolStorage {
  import opened JsText
  import opened JsNumber
  import opened PcrStore
  import opened Results

  /** Number-to-string conversion of a temperature. */
  type ShowNumber = real -> JsString

  function Header(): JsString {
    Lit("Stage,Temperature,TimeSec,Cycles")
  }

  lemma HeaderPlain()
    ensures LineFeed !in Header()
  {
    LitExcludes("Stage,Temperature,TimeSec,Cycles", LineFeed);
  }

  /** `${name},${temperature},${seconds},${cycles}`: seconds before cycles. */
  function StageLine(st: Stage, show: ShowNumber): JsString {
    Join([st.name, show(st.temperature), IntToString(st.seconds), IntToString(st.cycles)], Comma)
  }

  /** The header, then the stages in their fixed order. */
  function CsvLines(p: Protocol, show: ShowNumber): (lines: seq<JsString>)
    ensures |lines| == 6 && lines[0] == Header()
    ensures forall i :: 0 <= i < 5 ==> lines[i + 1] == StageLine(Stages(p)[i], show)
  {
    [Header(), StageLine(p.introDenaturing, show), StageLine(p.denaturing, show),
     StageLine(p.annealing, show), StageLine(p.extension, show), StageLine(p.finalExtension, show)]
  }

  /** `protocolToCSV(protocol)`: the lines joined with line feeds, none after the last. */
  function ProtocolToCsv(p: Protocol, show: ShowNumber): JsString {
    Join(CsvLines(p, show), LineFeed)
  }

  /** The first line of the file is the header, whatever the protocol holds. */
  lemma FirstLineIsHeader(p: Protocol, show: ShowNumber)
    ensures Split(ProtocolToCsv(p, show), LineFeed)[0] == Header()
  {
    var lines := CsvLines(p, show);
    HeaderPlain();
    assert ProtocolToCsv(p, show) == Header() + [LineFeed] + Join(lines[1..], LineFeed);
    SplitPrefix(Header(), Join(lines[1..], LineFeed), LineFeed);
  }

  /** When no stage name and no written temperature holds a line feed, the file reads
      back as exactly six lines: the header and the five stage lines in order. */
  lemma SixLines(p: Protocol, show: ShowNumber)
    requires forall i :: 0 <= i < 5 ==> LineFeed !in Stages(p)[i].name
    requires forall x :: LineFeed !in show(x)
    ensures Split(ProtocolToCsv(p, show), LineFeed) == CsvLines(p, show)
  {
    var lines := CsvLines(p, show);
    forall k | 0 <= k < 6 ensures LineFeed !in lines[k] {
      if k == 0 {
        HeaderPlain();
      } else {
        assert lines[k] == StageLine(Stages(p)[k - 1], show);
        LineFree(Stages(p)[k - 1], show);
      }
    }
    SplitJoin(lines, LineFeed);
  }

  lemma LineFree(st: Stage, show: ShowNumber)
    requires LineFeed !in st.name && LineFeed !in show(st.temperature)
    ensures LineFeed !in StageLine(st, show)
  {
    var fields := [st.name, show(st.temperature), IntToString(st.seconds), IntToString(st.cycles)];
    if LineFeed in Join(fields, Comma) {
      var j :| 0 <= j < |Join(fields, Comma)| && Join(fields, Comma)[j] == LineFeed;
      JoinMember(fields, Comma, j);
    }
  }

  /** A code unit of a joined string is the separator or comes from one of the pieces. */
  lemma {:induction false} JoinMember(parts: seq<JsString>, sep: CodeUnit, j: nat)
    requires j < |Join(parts, sep)|
    ensures Join(parts, sep)[j] == sep || exists k :: 0 <= k < |parts| && Join(parts, sep)[j] in parts[k]
    decreases |parts|
  {
    if |parts| == 1 {
      assert Join(parts, sep)[j] in parts[0];
    } else if |parts| > 1 {
      var joined := Join(parts, sep);
      if j < |parts[0]| {
        assert joined[j] == parts[0][j];
        assert joined[j] in parts[0];
      } else if j > |parts[0]| {
        var tail := Join(parts[1..], sep);
        assert joined[j] == tail[j - |parts[0]| - 1];
        JoinMember(parts[1..], sep, j - |parts[0]| - 1);
        if tail[j - |parts[0]| - 1] != sep {
          var k :| 0 <= k < |parts[1..]| && tail[j - |parts[0]| - 1] in parts[1..][k];
          assert parts[1..][k] == parts[k + 1];
        }
      }
    }
  }

  /** The file does not end with a line feed: its last code unit is the last digit of
      the final extension's cycles. */
  lemma NoTrailingLineFeed(p: Protocol, show: ShowNumber)
    ensures var csv := ProtocolToCsv(p, show);
      var cycles := IntToString(p.finalExtension.cycles);
      |csv| > 0 && IsDecimalDigit(csv[|csv| - 1]) && csv[|csv| - 1] == cycles[|cycles| - 1]
  {
    var lines := CsvLines(p, show);
    var last := StageLine(p.finalExtension, show);
    var cycles := IntToString(p.finalExtension.cycles);
    var front := [p.finalExtension.name, show(p.finalExtension.temperature), IntToString(p.finalExtension.seconds)];
    assert [p.finalExtension.name, show(p.finalExtension.temperature), IntToString(p.finalExtension.seconds), cycles]
      == front + [cycles];
    JoinSnoc(front, cycles, Comma);
    assert IsDecimalDigit(cycles[|cycles| - 1]);
    assert last[|last| - 1] == cycles[|cycles| - 1];
    assert lines == lines[..5] + [last];
    JoinSnoc(lines[..5], last, LineFeed);
  }

  /** A stage line splits at its commas into name, temperature, seconds and cycles,
      and the two counts read back with `parseInt`, when neither the name nor the
      written temperature holds a comma. */
  lemma StageLineFields(st: Stage, show: ShowNumber)
    requires Comma !in st.name && Comma !in show(st.temperature)
    ensures var fields := Split(StageLine(st, show), Comma);
      && fields == [st.name, show(st.temperature), IntToString(st.seconds), IntToString(st.cycles)]
      && ParseInt(fields[2]) == Some(st.seconds)
      && ParseInt(fields[3]) == Some(st.cycles)
  {
    var fields := [st.name, show(st.temperature), IntToString(st.seconds), IntToString(st.cycles)];
    assert forall k :: 0 <= k < 4 ==> Comma !in fields[k];
    SplitJoin(fields, Comma);
    ParseIntToString(st.seconds);
    ParseIntToString(st.cycles);
  }

  /** `${protocolName || 'protocol'}.txt`: the protocol's name, or `protocol` when the
      name is empty, with the extension `.txt`. */
  function FileName(p: Protocol): (r: JsString)
    ensures |r| >= 4 && r[|r| - 4..] == Lit(".txt")
  {
    var stem := if |p.protocolName| == 0 then Lit("protocol") else p.protocolName;
    stem + Lit(".txt")
  }

  /** The name part of a file name: everything before its four-character extension. */
  function Stem(fileName: JsString): JsString
    requires |fileName| >= 4
  {
    fileName[..|fileName| - 4]
  }

  /** A named protocol is saved under its own name, which the file name gives back. */
  lemma NamedFile(p: Protocol)
    requires |p.protocolName| > 0
    ensures Stem(FileName(p)) == p.protocolName
  {
  }

  /** A protocol without a name is saved as `protocol.txt`, the file a protocol
      named `protocol` gets too. */
  lemma UnnamedFile(p: Protocol, q: Protocol)
    requires |p.protocolName| == 0 && q.protocolName == Lit("protocol")
    ensures FileName(p) == FileName(q)
    ensures Stem(FileName(p)) == Lit("protocol")
  {
  }
}
