/** The line framing of the temperature plot's serial handler: each chunk is appended
    to a buffer, the buffer is split at line feeds, the last (incomplete) piece stays
    buffered and every complete line that reads as a Peltier and a lid temperature
    adds one reading to the temperature store.

    Recognising the two temperature patterns and `parseFloat` are a parameter, a
    `Reader`: it gives both temperatures for a trimmed line when both patterns match
    and both numbers parse, and nothing otherwise. */
module TemperaturePlot {
  import opened JsText
  import opened Results
  import TemperatureStore

  type Reader = JsString -> Option<(real, real)>

  /** The handler's state: the buffered partial line and the store it feeds. */
  datatype Plot = Plot(buffer: JsString, store: TemperatureStore.State)

  /** A fresh plot: nothing buffered, the store as the application starts. */
  function Initial(): (p: Plot)
    ensures p.buffer == [] && TemperatureStore.Valid(p.store)
  {
    Plot([], TemperatureStore.Initial())
  }

  /** One complete line: blank lines are skipped, a line that reads adds a reading. */
  function HandleLine(store: TemperatureStore.State, line: JsString, read: Reader): (r: TemperatureStore.State)
    ensures AllWhiteSpace(line) ==> r == store
  {
    TrimEmpty(line);
    var t := Trim(line);
    if |t| == 0 then store
    else match read(t)
      case None => store
      case Some(v) => TemperatureStore.AddDataPoint(store, v.0, v.1)
  }

  /** The complete lines in order. */
  function HandleLines(store: TemperatureStore.State, lines: seq<JsString>, read: Reader): (r: TemperatureStore.State)
    ensures r.isParsing == store.isParsing
    decreases |lines|
  {
    if |lines| == 0 then store
    else HandleLine(HandleLines(store, lines[..|lines| - 1], read), lines[|lines| - 1], read)
  }

  /** The temperatures of the lines that read, in order: what the lines contribute. */
  function Readings(lines: seq<JsString>, read: Reader): seq<(real, real)>
    decreases |lines|
  {
    if |lines| == 0 then []
    else
      var t := Trim(lines[|lines| - 1]);
      var init := Readings(lines[..|lines| - 1], read);
      if |t| > 0 && read(t).Some? then init + [read(t).value] else init
  }

  /** The complete lines of `text`: the pieces before its last line feed. */
  function Lines(text: JsString): (lines: seq<JsString>)
    ensures forall k :: 0 <= k < |lines| ==> LineFeed !in lines[k]
  {
    var parts := Split(text, LineFeed);
    parts[..|parts| - 1]
  }

  /** What follows the last line feed of `text`: the line still incomplete. */
  function Rest(text: JsString): (r: JsString)
    ensures LineFeed !in r
  {
    var parts := Split(text, LineFeed);
    parts[|parts| - 1]
  }

  /** `handleSerialData(chunk)`: the complete lines go to the store, the rest stays
      buffered. */
  function HandleSerialData(p: Plot, chunk: JsString, read: Reader): (r: Plot)
    ensures LineFeed !in r.buffer
    ensures r.store.isParsing == p.store.isParsing
  {
    var text := p.buffer + chunk;
    Plot(Rest(text), HandleLines(p.store, Lines(text), read))
  }

  /** `setIsParsing(true)` when the port connects; the buffer is left as it is. */
  function Connect(p: Plot): (r: Plot)
    ensures r.store.isParsing && r.store.data == p.store.data && r.buffer == p.buffer
  {
    p.(store := TemperatureStore.SetIsParsing(p.store, true))
  }

  /** The effect's cleanup on disconnect: parsing stops and the buffer is emptied;
      the readings stay. */
  function Cleanup(p: Plot): (r: Plot)
    ensures r.buffer == [] && !r.store.isParsing && r.store.data == p.store.data
  {
    Plot([], TemperatureStore.SetIsParsing(p.store, false))
  }

  // ---------------------------------------------------------------------------
  // Properties

  /** The lines add exactly their readings, one per line that reads, at the end of the
      series and stamped in order; nothing before them changes. */
  lemma {:induction false} HandleLinesAdds(store: TemperatureStore.State, lines: seq<JsString>, read: Reader)
    ensures var r := HandleLines(store, lines, read);
      var rs := Readings(lines, read);
      && |r.data| == |store.data| + |rs|
      && r.data[..|store.data|] == store.data
      && r.isParsing == store.isParsing
      && (forall k :: 0 <= k < |rs| ==> r.data[|store.data| + k].peltier == rs[k].0 && r.data[|store.data| + k].lid == rs[k].1)
      && (TemperatureStore.Valid(store) ==> TemperatureStore.Valid(r))
    decreases |lines|
  {
    if |lines| > 0 {
      var init := lines[..|lines| - 1];
      HandleLinesAdds(store, init, read);
      var mid := HandleLines(store, init, read);
      assert mid.data[..|store.data|] == store.data;
      var r := HandleLines(store, lines, read);
      assert r == HandleLine(mid, lines[|lines| - 1], read);
      if r != mid {
        assert r.data[..|mid.data|] == mid.data;
        assert r.data[..|store.data|] == mid.data[..|store.data|];
      }
    }
  }

  /** At most one reading per complete line. */
  lemma {:induction false} AtMostOnePerLine(lines: seq<JsString>, read: Reader)
    ensures |Readings(lines, read)| <= |lines|
    decreases |lines|
  {
    if |lines| > 0 {
      AtMostOnePerLine(lines[..|lines| - 1], read);
    }
  }

  /** A line that is empty after trimming, or that does not read, adds nothing. */
  lemma {:induction false} SilentLines(lines: seq<JsString>, read: Reader)
    requires forall k :: 0 <= k < |lines| ==> |Trim(lines[k])| == 0 || read(Trim(lines[k])).None?
    ensures Readings(lines, read) == []
    decreases |lines|
  {
    if |lines| > 0 {
      SilentLines(lines[..|lines| - 1], read);
    }
  }

  /** Nothing is lost or invented: the complete lines, a line feed after each, and
      the new buffer are exactly the old buffer followed by the chunk. */
  lemma Reconstruction(p: Plot, chunk: JsString, read: Reader)
    ensures var lines := Lines(p.buffer + chunk);
      Join(lines + [HandleSerialData(p, chunk, read).buffer], LineFeed) == p.buffer + chunk
    ensures var lines := Lines(p.buffer + chunk);
      |lines| > 0 ==> Join(lines, LineFeed) + [LineFeed] + HandleSerialData(p, chunk, read).buffer == p.buffer + chunk
  {
    var text := p.buffer + chunk;
    var parts := Split(text, LineFeed);
    assert Lines(text) + [Rest(text)] == parts;
    if |Lines(text)| > 0 {
      JoinSnoc(Lines(text), Rest(text), LineFeed);
    }
  }

  /** A chunk without a line feed, after a buffer without one, completes no line: it
      only extends the buffer. */
  lemma NoLineFeed(p: Plot, chunk: JsString, read: Reader)
    requires LineFeed !in p.buffer && LineFeed !in chunk
    ensures Lines(p.buffer + chunk) == []
    ensures HandleSerialData(p, chunk, read) == Plot(p.buffer + chunk, p.store)
  {
    SplitFree(p.buffer + chunk, LineFeed);
  }

  /** Where the serial stream is cut into chunks does not matter: two chunks handled
      one after the other leave the same buffer and the same store as their
      concatenation handled at once. */
  lemma ChunkBoundaries(p: Plot, a: JsString, b: JsString, read: Reader)
    ensures HandleSerialData(HandleSerialData(p, a, read), b, read) == HandleSerialData(p, a + b, read)
  {
    var text := p.buffer + a;
    assert p.buffer + (a + b) == text + b;
    LinesAfter(text, b);
    HandleLinesAppend(p.store, Lines(text), Lines(Rest(text) + b), read);
  }

  /** The text with `more` appended has the complete lines of `text`, then those that
      the incomplete line of `text` completes with `more`. */
  lemma LinesAfter(text: JsString, more: JsString)
    ensures Lines(text + more) == Lines(text) + Lines(Rest(text) + more)
    ensures Rest(text + more) == Rest(Rest(text) + more)
  {
    var parts := Split(text, LineFeed);
    var early := Lines(text);
    var last := Rest(text);
    var rest := Split(last + more, LineFeed);
    assert early + [last] == parts;
    if |early| == 0 {
      assert text == last;
      assert early + rest == rest;
    } else {
      JoinSnoc(early, last, LineFeed);
      SplitAfterLines(early, last, more);
      assert (early + rest)[..|early + rest| - 1] == early + rest[..|rest| - 1];
    }
  }

  /** Lines followed by a line feed and more text split into those lines, then the
      pieces of the text. */
  lemma SplitAfterLines(early: seq<JsString>, last: JsString, more: JsString)
    requires |early| > 0 && forall k :: 0 <= k < |early| ==> LineFeed !in early[k]
    ensures Split(Join(early, LineFeed) + [LineFeed] + last + more, LineFeed)
      == early + Split(last + more, LineFeed)
  {
    var rest := Split(last + more, LineFeed);
    JoinAppend(early, rest, LineFeed);
    assert Join(early, LineFeed) + [LineFeed] + last + more == Join(early + rest, LineFeed);
    forall k | 0 <= k < |early + rest| ensures LineFeed !in (early + rest)[k] {
      if k >= |early| {
        assert (early + rest)[k] == rest[k - |early|];
      }
    }
    SplitJoin(early + rest, LineFeed);
  }

  lemma {:induction false} HandleLinesAppend(store: TemperatureStore.State, a: seq<JsString>, b: seq<JsString>, read: Reader)
    ensures HandleLines(store, a + b, read) == HandleLines(HandleLines(store, a, read), b, read)
    decreases |b|
  {
    if |b| == 0 {
      assert a + b == a;
    } else {
      assert (a + b)[..|a + b| - 1] == a + b[..|b| - 1];
      assert (a + b)[|a + b| - 1] == b[|b| - 1];
      HandleLinesAppend(store, a, b[..|b| - 1], read);
    }
  }

  /** After a disconnect, a partial line from before never joins the data that comes
      after: the next chunk is framed on its own, as if the plot had just started. */
  lemma CleanupForgetsPartialLine(p: Plot, chunk: JsString, read: Reader)
    ensures HandleSerialData(Cleanup(p), chunk, read).buffer == HandleSerialData(Initial(), chunk, read).buffer
    ensures HandleSerialData(Cleanup(p), chunk, read).store == HandleLines(Cleanup(p).store, Lines(chunk), read)
  {
    assert Cleanup(p).buffer + chunk == chunk;
    assert Initial().buffer + chunk == chunk;
  }
}
