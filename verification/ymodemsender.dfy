/** YModemService.sendFile as a state machine over an abstract channel.

    The receiver's side of the channel is a sequence of events, each a byte that
    arrived or a silence that outlasted the wait (`waitForByte` throwing its timeout
    error). Every wait consumes the next event; once the events run out, every wait
    times out. A wait returns whatever byte arrives: only the first wait (for 'C')
    and the wait after each data block (for ACK) compare it with the byte they
    expect. Any failure writes CAN CAN once and ends the transfer. */
module YmodemSender {
  import opened JsText
  import opened Bytes
  import opened Results
  import opened YmodemFrame

  datatype Event = Received(b: byte) | Silence

  datatype Failure =
    | Timeout(expected: byte)  // a wait saw no byte; carries the byte it was waiting for
    | NoCrcRequest             // the first byte was not 'C'
    | BlockNotAcked(block: nat)
    | HeaderTooLong            // the size string did not fit into the header block

  datatype Outcome = Succeeded | Failed(reason: Failure)

  /** What the sender does to the outside world: a write to the port, or a call of
      the progress callback with (file index, file name, total bytes, bytes sent). */
  datatype Output =
    | Write(packet: Packet)
    | Progress(fileIndex: nat, fileName: JsString, total: nat, done: nat)

  /** What one write puts on the port: a block as `sendDataBlock(number, payload)`
      frames it, or control bytes as they are. */
  datatype Packet = Block(number: nat, payload: seq<byte>) | Raw(bytes: seq<byte>)

  /** The bytes of a packet on the wire. */
  function Wire(p: Packet): (r: seq<byte>)
    ensures p.Block? ==> |r| == 5 + |p.payload| && ParseFrame(r) == Some(((p.number % 0x100) as byte, p.payload))
    ensures p.Raw? ==> r == p.bytes
  {
    match p
    case Block(n, payload) => FrameRoundTrip(n, payload); Frame(n, payload)
    case Raw(bytes) => bytes
  }

  /** The file to send: its bytes, its name, and the name as TextEncoder encodes it. */
  datatype Transfer = Transfer(data: seq<byte>, name: JsString, nameBytes: seq<byte>)

  /** Where `sendFile` is: which wait comes next, or how the transfer ended. */
  datatype Phase =
    | AwaitCrcRequest
    | AwaitHeaderAck
    | AwaitDataCrc
    | AwaitBlockAck(block: nat)
    | AwaitEotAck
    | AwaitFinalCrc
    | AwaitFinalAck
    | Done(outcome: Outcome)

  const Cancel: seq<byte> := [CAN, CAN]

  function Blocks(t: Transfer): nat {
    NumBlocks(|t.data|)
  }

  predicate ValidPhase(t: Transfer, p: Phase) {
    p.AwaitBlockAck? ==> 1 <= p.block <= Blocks(t)
  }

  /** The catch block: CAN CAN, then the failure. */
  function Abort(f: Failure): (Phase, seq<Output>) {
    (Done(Failed(f)), [Write(Raw(Cancel))])
  }

  /** The loop moving on to block `k`: its frame, or EOT once every block is sent. */
  function StartBlock(t: Transfer, k: nat): (r: (Phase, seq<Output>))
    requires 1 <= k <= Blocks(t) + 1
    ensures ValidPhase(t, r.0)
  {
    if k <= Blocks(t) then (AwaitBlockAck(k), [Write(DataBlock(t, k))])
    else (AwaitEotAck, [Write(Raw([EOT]))])
  }

  /** The sealing empty header, `sendHeaderBlock('', 0)`. */
  function ClosingBlock(): Packet {
    EmptyHeader(0);
    Block(0, HeaderPayload([], 0).value)
  }

  /** Data block `k`: its number and its padded payload. */
  function DataBlock(t: Transfer, k: nat): Packet
    requires 1 <= k <= Blocks(t)
  {
    Block(BlockNumber(k), DataPayload(t.data, k))
  }

  /** One wait and what `sendFile` does with its result until the next wait. */
  function Step(t: Transfer, p: Phase, e: Event): (r: (Phase, seq<Output>))
    requires ValidPhase(t, p) && !p.Done?
    ensures ValidPhase(t, r.0)
    ensures e.Silence? ==> r.0.Done? && r.0.outcome.Failed?
    ensures r.0.Done? && r.0.outcome.Failed? ==> r.1 == [Write(Raw(Cancel))]
  {
    match p
    case AwaitCrcRequest =>
      if e.Silence? then Abort(Timeout(CrcRequest))
      else if e.b != CrcRequest then Abort(NoCrcRequest)
      else (
        match HeaderPayload(t.nameBytes, |t.data|)
        case None => Abort(HeaderTooLong)
        case Some(header) => (AwaitHeaderAck, [Write(Block(0, header))]))
    case AwaitHeaderAck =>
      if e.Silence? then Abort(Timeout(ACK)) else (AwaitDataCrc, [])
    case AwaitDataCrc =>
      if e.Silence? then Abort(Timeout(CrcRequest)) else StartBlock(t, 1)
    case AwaitBlockAck(k) =>
      if e.Silence? then Abort(Timeout(ACK))
      else if e.b != ACK then Abort(BlockNotAcked(k))
      else
        var next := StartBlock(t, k + 1);
        (next.0, [Progress(0, t.name, |t.data|, BlockEnd(|t.data|, k))] + next.1)
    case AwaitEotAck =>
      if e.Silence? then Abort(Timeout(ACK)) else (AwaitFinalCrc, [])
    case AwaitFinalCrc =>
      if e.Silence? then Abort(Timeout(CrcRequest)) else (AwaitFinalAck, [Write(ClosingBlock())])
    case AwaitFinalAck =>
      if e.Silence? then Abort(Timeout(ACK)) else (Done(Succeeded), [])
  }

  /** Runs the state machine from `p` over `events`. */
  function Drive(t: Transfer, p: Phase, events: seq<Event>): (Outcome, seq<Output>)
    requires ValidPhase(t, p)
    decreases |events|
  {
    if p.Done? then (p.outcome, [])
    else if |events| == 0 then
      var (q, out) := Step(t, p, Silence);
      (q.outcome, out)
    else
      var (q, out) := Step(t, p, events[0]);
      var (o, more) := Drive(t, q, events[1..]);
      (o, out + more)
  }

  /** `sendFile(fileData, fileName, callback)` against a channel producing `events`. */
  function SendFile(t: Transfer, events: seq<Event>): (Outcome, seq<Output>) {
    Drive(t, AwaitCrcRequest, events)
  }

  // ---------------------------------------------------------------------------
  // The transfer, slot by slot

  /** The waits of a complete transfer: 'C', header ACK, 'C', one ACK per block, the
      EOT ACK, 'C' and the ACK of the closing header. */
  function Slots(t: Transfer): nat {
    Blocks(t) + 6
  }

  /** The event wait `s` sees. */
  function EventAt(events: seq<Event>, s: nat): Event {
    if s < |events| then events[s] else Silence
  }

  /** The byte wait `s` is waiting for. */
  function ExpectedByte(t: Transfer, s: nat): byte {
    if s == 0 || s == 2 || s == Blocks(t) + 4 then CrcRequest else ACK
  }

  predicate IsBlockSlot(t: Transfer, s: nat) {
    3 <= s < 3 + Blocks(t)
  }

  predicate HeaderFits(t: Transfer) {
    HeaderPayload(t.nameBytes, |t.data|).Some?
  }

  /** Wait `s` lets the transfer go on: a byte arrived, the first one is 'C' (and the
      header can be built), and each data block is answered with ACK. */
  predicate Accepts(t: Transfer, s: nat, e: Event) {
    && e.Received?
    && (s == 0 ==> e.b == CrcRequest && HeaderFits(t))
    && (IsBlockSlot(t, s) ==> e.b == ACK)
  }

  /** Why wait `s` stops the transfer on `e`. */
  function Reason(t: Transfer, s: nat, e: Event): Failure
    requires !Accepts(t, s, e)
  {
    if e.Silence? then Timeout(ExpectedByte(t, s))
    else if s == 0 then (if e.b != CrcRequest then NoCrcRequest else HeaderTooLong)
    else BlockNotAcked(s - 2)
  }

  /** The write that sends block `k`, or EOT after the last block. */
  function SendBlock(t: Transfer, k: nat): seq<Output>
    requires 1 <= k <= Blocks(t) + 1
  {
    if k <= Blocks(t) then [Write(DataBlock(t, k))] else [Write(Raw([EOT]))]
  }

  function HeaderBlock(t: Transfer): Packet
    requires HeaderFits(t)
  {
    Block(0, HeaderPayload(t.nameBytes, |t.data|).value)
  }

  /** What `sendFile` does after wait `s` accepts, up to the next wait. */
  function SlotOutputs(t: Transfer, s: nat): seq<Output>
    requires s < Slots(t)
  {
    if s == 0 then (if HeaderFits(t) then [Write(HeaderBlock(t))] else [])
    else if s == 2 then SendBlock(t, 1)
    else if IsBlockSlot(t, s) then [Progress(0, t.name, |t.data|, BlockEnd(|t.data|, s - 2))] + SendBlock(t, s - 1)
    else if s == Blocks(t) + 4 then [Write(ClosingBlock())]
    else []
  }

  /** The outputs of every wait, by wait. */
  function SlotTable(t: Transfer): (r: seq<seq<Output>>)
    ensures |r| == Slots(t)
  {
    seq(Slots(t), s requires 0 <= s < Slots(t) => SlotOutputs(t, s))
  }

  /** `parts[s] + .. + parts[f - 1]`. */
  function Flatten(parts: seq<seq<Output>>, s: nat, f: nat): seq<Output>
    requires s <= f <= |parts|
    decreases f - s
  {
    if s == f then [] else parts[s] + Flatten(parts, s + 1, f)
  }

  /** What waits `s .. f` produce, all accepting. */
  function OutputsFrom(t: Transfer, s: nat, f: nat): seq<Output>
    requires s <= f <= Slots(t)
  {
    Flatten(SlotTable(t), s, f)
  }

  /** The first wait from `s` on that stops the transfer, or `Slots(t)` if none does. */
  function FirstRejected(t: Transfer, events: seq<Event>, s: nat): (f: nat)
    requires s <= Slots(t)
    ensures s <= f <= Slots(t)
    ensures forall i :: s <= i < f ==> Accepts(t, i, EventAt(events, i))
    ensures f < Slots(t) ==> !Accepts(t, f, EventAt(events, f))
    decreases Slots(t) - s
  {
    if s == Slots(t) || !Accepts(t, s, EventAt(events, s)) then s
    else FirstRejected(t, events, s + 1)
  }

  /** The transfer as a whole: every wait up to the first that stops it accepts, then
      CAN CAN and the reason; success when none stops it. */
  function ExpectedFrom(t: Transfer, events: seq<Event>, s: nat): (Outcome, seq<Output>)
    requires s <= Slots(t)
  {
    var f := FirstRejected(t, events, s);
    if f == Slots(t) then (Succeeded, OutputsFrom(t, s, f))
    else (Failed(Reason(t, f, EventAt(events, f))), OutputsFrom(t, s, f) + [Write(Raw(Cancel))])
  }

  /** The phase `sendFile` is in when it reaches wait `s`. */
  function PhaseAt(t: Transfer, s: nat): (p: Phase)
    requires s <= Slots(t)
    ensures ValidPhase(t, p)
    ensures p.Done? <==> s == Slots(t)
  {
    if s == 0 then AwaitCrcRequest
    else if s == 1 then AwaitHeaderAck
    else if s == 2 then AwaitDataCrc
    else if IsBlockSlot(t, s) then AwaitBlockAck(s - 2)
    else if s == Blocks(t) + 3 then AwaitEotAck
    else if s == Blocks(t) + 4 then AwaitFinalCrc
    else if s == Blocks(t) + 5 then AwaitFinalAck
    else Done(Succeeded)
  }

  /** Each wait either accepts and moves on to the next one with its outputs, or stops
      the transfer with CAN CAN. */
  lemma StepSlot(t: Transfer, s: nat, e: Event)
    requires s < Slots(t)
    ensures Step(t, PhaseAt(t, s), e)
      == if Accepts(t, s, e) then (PhaseAt(t, s + 1), SlotOutputs(t, s))
         else (Done(Failed(Reason(t, s, e))), [Write(Raw(Cancel))])
  {
  }

  lemma {:induction false} DriveFrom(t: Transfer, events: seq<Event>, s: nat)
    requires s <= Slots(t) && s <= |events|
    ensures Drive(t, PhaseAt(t, s), events[s..]) == ExpectedFrom(t, events, s)
    decreases Slots(t) - s
  {
    if s < Slots(t) {
      if Accepts(t, s, EventAt(events, s)) {
        DriveFrom(t, events, s + 1);
        DriveAccepted(t, events, s);
      } else {
        DriveRejected(t, events, s);
      }
    }
  }

  /** A wait that accepts adds its outputs in front of the rest of the transfer. */
  lemma DriveAccepted(t: Transfer, events: seq<Event>, s: nat)
    requires s < Slots(t) && s < |events| && Accepts(t, s, events[s])
    requires Drive(t, PhaseAt(t, s + 1), events[s + 1..]) == ExpectedFrom(t, events, s + 1)
    ensures Drive(t, PhaseAt(t, s), events[s..]) == ExpectedFrom(t, events, s)
  {
    var e := events[s];
    StepSlot(t, s, e);
    assert events[s..][0] == e;
    assert events[s..][1..] == events[s + 1..];
    var f := FirstRejected(t, events, s);
    assert f == FirstRejected(t, events, s + 1);
    var rest := Drive(t, PhaseAt(t, s + 1), events[s + 1..]);
    assert Drive(t, PhaseAt(t, s), events[s..]) == (rest.0, SlotOutputs(t, s) + rest.1);
    assert OutputsFrom(t, s, f) == SlotOutputs(t, s) + OutputsFrom(t, s + 1, f);
    if f < Slots(t) {
      assert SlotOutputs(t, s) + (OutputsFrom(t, s + 1, f) + [Write(Raw(Cancel))])
        == OutputsFrom(t, s, f) + [Write(Raw(Cancel))];
    }
  }

  /** A wait that does not accept ends the transfer with CAN CAN and its reason. */
  lemma DriveRejected(t: Transfer, events: seq<Event>, s: nat)
    requires s < Slots(t) && s <= |events| && !Accepts(t, s, EventAt(events, s))
    ensures Drive(t, PhaseAt(t, s), events[s..]) == ExpectedFrom(t, events, s)
  {
    var e := EventAt(events, s);
    StepSlot(t, s, e);
    assert FirstRejected(t, events, s) == s;
    assert OutputsFrom(t, s, s) + [Write(Raw(Cancel))] == [Write(Raw(Cancel))];
    assert ExpectedFrom(t, events, s) == (Failed(Reason(t, s, e)), [Write(Raw(Cancel))]);
    assert Step(t, PhaseAt(t, s), e) == (Done(Failed(Reason(t, s, e))), [Write(Raw(Cancel))]);
    if s < |events| {
      assert events[s..][0] == e;
      assert events[s..][1..] == events[s + 1..];
      var q := Step(t, PhaseAt(t, s), e);
      assert Drive(t, q.0, events[s + 1..]) == (q.0.outcome, []);
      assert Drive(t, PhaseAt(t, s), events[s..]) == (q.0.outcome, q.1 + []);
      assert q.1 + [] == [Write(Raw(Cancel))];
    }
  }

  /** The state machine and the slot-by-slot account of the transfer agree on every
      channel. */
  lemma SendFileIsExpected(t: Transfer, events: seq<Event>)
    ensures SendFile(t, events) == ExpectedFrom(t, events, 0)
  {
    DriveFrom(t, events, 0);
    assert events[0..] == events;
  }

  // ---------------------------------------------------------------------------
  // What a transfer writes

  /** Data blocks `k .. m - 1`, each frame followed by the progress call its ACK brings. */
  function DataTranscript(t: Transfer, k: nat, m: nat): seq<Output>
    requires 1 <= k <= m <= Blocks(t) + 1
    decreases m - k
  {
    if m == k then []
    else
      var block := [Write(DataBlock(t, m - 1)), Progress(0, t.name, |t.data|, BlockEnd(|t.data|, m - 1))];
      DataTranscript(t, k, m - 1) + block
  }

  /** The `done` arguments of the progress calls among `outs`, in order. */
  function Dones(outs: seq<Output>): seq<nat> {
    if |outs| == 0 then []
    else Dones(outs[..|outs| - 1]) + (if outs[|outs| - 1].Progress? then [outs[|outs| - 1].done] else [])
  }

  /** The progress counts of a complete transfer: the end of each block. */
  function ProgressCounts(t: Transfer): seq<nat> {
    seq(Blocks(t), i requires 0 <= i < Blocks(t) => BlockEnd(|t.data|, i + 1))
  }

  lemma {:induction false} FlattenSnoc(parts: seq<seq<Output>>, s: nat, f: nat)
    requires s <= f < |parts|
    ensures Flatten(parts, s, f + 1) == Flatten(parts, s, f) + parts[f]
    decreases f - s
  {
    if s == f {
      assert Flatten(parts, f, f + 1) == parts[f] + [];
    } else {
      FlattenSnoc(parts, s + 1, f);
      var middle := Flatten(parts, s + 1, f);
      assert Flatten(parts, s, f + 1) == parts[s] + (middle + parts[f]);
      assert parts[s] + (middle + parts[f]) == (parts[s] + middle) + parts[f];
    }
  }

  lemma OutputsSnoc(t: Transfer, s: nat, f: nat)
    requires s <= f < Slots(t)
    ensures OutputsFrom(t, s, f + 1) == OutputsFrom(t, s, f) + SlotOutputs(t, f)
  {
    FlattenSnoc(SlotTable(t), s, f);
  }

  /** Up to the frame of block `k`: the header, then blocks `1 .. k - 1` with their
      progress calls, then the frame of block `k`. */
  lemma {:induction false} HeaderAndBlocks(t: Transfer, k: nat)
    requires HeaderFits(t) && 1 <= k <= Blocks(t)
    ensures OutputsFrom(t, 0, k + 2)
      == [Write(HeaderBlock(t))] + DataTranscript(t, 1, k) + [Write(DataBlock(t, k))]
  {
    OutputsSnoc(t, 0, k + 1);
    var h := [Write(HeaderBlock(t))];
    if k == 1 {
      HeaderOutputs(t);
      assert SlotOutputs(t, 2) == [Write(DataBlock(t, 1))];
      assert DataTranscript(t, 1, 1) == [];
    } else {
      HeaderAndBlocks(t, k - 1);
      BlockSlotOutputs(t, k + 1);
      var frame := Write(DataBlock(t, k - 1));
      var progress := Progress(0, t.name, |t.data|, BlockEnd(|t.data|, k - 1));
      Regroup(h, DataTranscript(t, 1, k - 1), frame, progress, SendBlock(t, k));
    }
  }

  /** The ACK of block `s - 2`: its progress call, then the next block or EOT. */
  lemma BlockSlotOutputs(t: Transfer, s: nat)
    requires IsBlockSlot(t, s)
    ensures SlotOutputs(t, s) == [Progress(0, t.name, |t.data|, BlockEnd(|t.data|, s - 2))] + SendBlock(t, s - 1)
  {
  }

  lemma Regroup(h: seq<Output>, prev: seq<Output>, frame: Output, progress: Output, next: seq<Output>)
    ensures (h + prev + [frame]) + ([progress] + next) == h + (prev + [frame, progress]) + next
  {
  }

  /** The first two waits: the header frame, then nothing. */
  lemma HeaderOutputs(t: Transfer)
    requires HeaderFits(t)
    ensures OutputsFrom(t, 0, 2) == [Write(HeaderBlock(t))]
  {
    OutputsSnoc(t, 0, 1);
    OutputsSnoc(t, 0, 0);
    assert SlotOutputs(t, 0) == [Write(HeaderBlock(t))];
    assert SlotOutputs(t, 1) == [];
    assert OutputsFrom(t, 0, 1) == [Write(HeaderBlock(t))];
  }

  /** Up to EOT: the header, every data block with its progress call, then EOT. */
  lemma AllBlocks(t: Transfer)
    requires HeaderFits(t)
    ensures OutputsFrom(t, 0, Blocks(t) + 3)
      == [Write(HeaderBlock(t))] + DataTranscript(t, 1, Blocks(t) + 1) + [Write(Raw([EOT]))]
  {
    var n := Blocks(t);
    OutputsSnoc(t, 0, n + 2);
    var h := [Write(HeaderBlock(t))];
    var eot := Write(Raw([EOT]));
    if n == 0 {
      HeaderOutputs(t);
      assert SlotOutputs(t, 2) == [eot];
      assert DataTranscript(t, 1, 1) == [];
    } else {
      HeaderAndBlocks(t, n);
      BlockSlotOutputs(t, n + 2);
      var frame := Write(DataBlock(t, n));
      var progress := Progress(0, t.name, |t.data|, BlockEnd(|t.data|, n));
      Regroup(h, DataTranscript(t, 1, n), frame, progress, SendBlock(t, n + 1));
    }
  }

  /** The whole of a successful transfer. */
  lemma {:induction false} CompleteOutputs(t: Transfer)
    requires HeaderFits(t)
    ensures OutputsFrom(t, 0, Slots(t))
      == [Write(HeaderBlock(t))] + DataTranscript(t, 1, Blocks(t) + 1) + [Write(Raw([EOT])), Write(ClosingBlock())]
  {
    var n := Blocks(t);
    var blocks := OutputsFrom(t, 0, n + 3);
    AllBlocks(t);
    OutputsSnoc(t, 0, n + 3);
    assert SlotOutputs(t, n + 3) == [];
    OutputsSnoc(t, 0, n + 4);
    assert SlotOutputs(t, n + 4) == [Write(ClosingBlock())];
    OutputsSnoc(t, 0, n + 5);
    assert SlotOutputs(t, n + 5) == [];
    assert OutputsFrom(t, 0, Slots(t)) == blocks + [Write(ClosingBlock())];
  }

  lemma {:induction false} DonesAppend(a: seq<Output>, b: seq<Output>)
    ensures Dones(a + b) == Dones(a) + Dones(b)
    decreases |b|
  {
    if |b| > 0 {
      assert (a + b)[..|a + b| - 1] == a + b[..|b| - 1];
      DonesAppend(a, b[..|b| - 1]);
    } else {
      assert a + b == a;
    }
  }

  lemma {:induction false} DataTranscriptDones(t: Transfer, m: nat)
    requires 1 <= m <= Blocks(t) + 1
    ensures |Dones(DataTranscript(t, 1, m))| == m - 1
    ensures forall i :: 0 <= i < m - 1 ==> Dones(DataTranscript(t, 1, m))[i] == BlockEnd(|t.data|, i + 1)
  {
    if m > 1 {
      DataTranscriptDones(t, m - 1);
      var frame := Write(DataBlock(t, m - 1));
      var progress := Progress(0, t.name, |t.data|, BlockEnd(|t.data|, m - 1));
      DonesAppend(DataTranscript(t, 1, m - 1), [frame, progress]);
      DonesPair(frame, progress);
    } else {
      assert DataTranscript(t, 1, m) == [];
    }
  }

  /** A frame followed by a progress call reports that call's count. */
  lemma DonesPair(w: Output, p: Output)
    requires w.Write? && p.Progress?
    ensures Dones([w, p]) == [p.done]
  {
    assert [w, p][..1] == [w];
    assert [w][..0] == [];
    assert Dones([w]) == Dones([]) + [];
  }

  /** No write among `outs` is the two-byte CAN CAN packet. */
  predicate CancelFree(outs: seq<Output>) {
    forall i :: 0 <= i < |outs| && outs[i].Write? ==> Wire(outs[i].packet) != Cancel
  }

  lemma CancelFreeAppend(a: seq<Output>, b: seq<Output>)
    requires CancelFree(a) && CancelFree(b)
    ensures CancelFree(a + b)
  {
    forall i | 0 <= i < |a + b| && (a + b)[i].Write? ensures Wire((a + b)[i].packet) != Cancel {
      if i >= |a| {
        assert (a + b)[i] == b[i - |a|];
      }
    }
  }

  /** No write of the accepting waits, frame or EOT, is the two-byte CAN CAN packet. */
  lemma {:induction false} NoCancelBetween(t: Transfer, s: nat, f: nat)
    requires s <= f <= Slots(t)
    ensures CancelFree(OutputsFrom(t, s, f))
    decreases f - s
  {
    if s < f {
      NoCancelBetween(t, s + 1, f);
      NoCancelAt(t, s);
      assert OutputsFrom(t, s, f) == SlotOutputs(t, s) + OutputsFrom(t, s + 1, f);
      CancelFreeAppend(SlotOutputs(t, s), OutputsFrom(t, s + 1, f));
    } else {
      assert OutputsFrom(t, s, f) == [];
    }
  }

  lemma NoCancelAt(t: Transfer, s: nat)
    requires s < Slots(t)
    ensures CancelFree(SlotOutputs(t, s))
  {
  }

  // ---------------------------------------------------------------------------
  // Consequences

  /** The header fits, and the receiver answers every wait of a complete transfer:
      'C' first, some byte at every other wait, and ACK after each data block. */
  predicate CompleteChannel(t: Transfer, events: seq<Event>) {
    && HeaderFits(t)
    && |events| >= Slots(t)
    && events[0] == Received(CrcRequest)
    && (forall s :: 1 <= s < Slots(t) ==> events[s].Received?)
    && (forall s :: 3 <= s < 3 + Blocks(t) ==> events[s] == Received(ACK))
  }

  /** A transfer succeeds exactly when the first byte is 'C', the header can be
      built, every later wait sees some byte, and every data block is answered
      with ACK. */
  lemma SuccessCondition(t: Transfer, events: seq<Event>)
    ensures SendFile(t, events).0 == Succeeded <==> CompleteChannel(t, events)
  {
    SendFileIsExpected(t, events);
    var f := FirstRejected(t, events, 0);
    if f < Slots(t) {
      assert CompleteChannel(t, events) ==> Accepts(t, f, EventAt(events, f));
    } else {
      assert Accepts(t, 0, EventAt(events, 0));
      assert Accepts(t, Slots(t) - 1, EventAt(events, Slots(t) - 1));
      forall s | 1 <= s < Slots(t) ensures events[s].Received? {
        assert Accepts(t, s, EventAt(events, s));
      }
      forall s | 3 <= s < 3 + Blocks(t) ensures events[s] == Received(ACK) {
        assert Accepts(t, s, EventAt(events, s));
      }
    }
  }

  /** A successful transfer writes the header, every data block each followed by its
      progress call, EOT and the closing empty header, and nothing else. */
  lemma SuccessTranscript(t: Transfer, events: seq<Event>)
    requires SendFile(t, events).0 == Succeeded
    ensures HeaderFits(t)
    ensures SendFile(t, events).1
      == [Write(HeaderBlock(t))] + DataTranscript(t, 1, Blocks(t) + 1) + [Write(Raw([EOT])), Write(ClosingBlock())]
  {
    SendFileIsExpected(t, events);
    assert Accepts(t, 0, EventAt(events, 0));
    CompleteOutputs(t);
  }

  /** On success the progress callback is called once per block, with the end of
      each block in turn. */
  lemma ProgressOnSuccess(t: Transfer, events: seq<Event>)
    requires SendFile(t, events).0 == Succeeded
    ensures Dones(SendFile(t, events).1) == ProgressCounts(t)
  {
    SuccessTranscript(t, events);
    var dt := DataTranscript(t, 1, Blocks(t) + 1);
    DonesBetweenWrites(Write(HeaderBlock(t)), dt, Write(Raw([EOT])), Write(ClosingBlock()));
    DataTranscriptDones(t, Blocks(t) + 1);
    var pc := ProgressCounts(t);
    assert |Dones(dt)| == |pc|;
    assert forall i :: 0 <= i < |pc| ==> Dones(dt)[i] == pc[i];
  }

  /** Writes around `outs` add no progress count. */
  lemma DonesBetweenWrites(h: Output, outs: seq<Output>, a: Output, b: Output)
    requires h.Write? && a.Write? && b.Write?
    ensures Dones([h] + outs + [a, b]) == Dones(outs)
  {
    DonesAppend([h] + outs, [a, b]);
    DonesAppend([h], outs);
    assert [h][..0] == [];
    assert Dones([h]) == Dones([]) + [];
    assert [a, b][..1] == [a];
    assert [a][..0] == [];
    assert Dones([a]) == Dones([]) + [];
    assert Dones([a, b]) == Dones([a]) + [];
  }

  /** The progress counts grow strictly, and the last one is the file size. */
  lemma ProgressCountsIncrease(t: Transfer)
    ensures |ProgressCounts(t)| == Blocks(t)
    ensures forall i, j :: 0 <= i < j < |ProgressCounts(t)| ==> ProgressCounts(t)[i] < ProgressCounts(t)[j]
    ensures |t.data| > 0 ==> ProgressCounts(t)[|ProgressCounts(t)| - 1] == |t.data|
  {
    LastBlockEnd(|t.data|);
    var pc := ProgressCounts(t);
    forall i, j | 0 <= i < j < |pc| ensures pc[i] < pc[j] {
      BlockEndIncreasing(|t.data|, i + 1, j + 1);
    }
  }

  /** Every failure writes CAN CAN exactly once, as its last output; a success never
      writes it. */
  lemma CancelOnlyOnFailure(t: Transfer, events: seq<Event>)
    ensures var (outcome, outs) := SendFile(t, events);
      if outcome.Failed? then
        && |outs| > 0 && outs[|outs| - 1] == Write(Raw(Cancel))
        && CancelFree(outs[..|outs| - 1])
      else CancelFree(outs)
  {
    SendFileIsExpected(t, events);
    var f := FirstRejected(t, events, 0);
    NoCancelBetween(t, 0, f);
    var outs := OutputsFrom(t, 0, f) + [Write(Raw(Cancel))];
    assert outs[..|outs| - 1] == OutputsFrom(t, 0, f);
  }

  /** A data block answered with anything but ACK ends the transfer right after its
      frame: no later block, no EOT and no closing header are written. */
  lemma NakStopsTransfer(t: Transfer, events: seq<Event>, k: nat)
    requires SendFile(t, events).0 == Failed(BlockNotAcked(k))
    ensures HeaderFits(t) && 1 <= k <= Blocks(t)
    ensures SendFile(t, events).1
      == [Write(HeaderBlock(t))] + DataTranscript(t, 1, k) + [Write(DataBlock(t, k)), Write(Raw(Cancel))]
  {
    SendFileIsExpected(t, events);
    var f := FirstRejected(t, events, 0);
    assert f == k + 2 && IsBlockSlot(t, f);
    assert Accepts(t, 0, EventAt(events, 0));
    HeaderAndBlocks(t, k);
  }

  // ---------------------------------------------------------------------------
  // Channels

  /** A silent receiver: the first wait times out and the transfer ends with CAN CAN,
      before anything else is written. */
  lemma SilentChannel(t: Transfer)
    ensures SendFile(t, []) == (Failed(Timeout(CrcRequest)), [Write(Raw(Cancel))])
  {
  }

  /** A first byte other than 'C' is refused. */
  lemma NoCrcRequestFirst(t: Transfer, events: seq<Event>, b: byte)
    requires |events| > 0 && events[0] == Received(b) && b != CrcRequest
    ensures SendFile(t, events) == (Failed(NoCrcRequest), [Write(Raw(Cancel))])
  {
    assert Drive(t, Done(Failed(NoCrcRequest)), events[1..]) == (Failed(NoCrcRequest), []);
    assert [Write(Raw(Cancel))] + [] == [Write(Raw(Cancel))];
  }

  /** A size that does not fit into the header fails before any frame is written. */
  lemma HeaderTooLongFails(t: Transfer, events: seq<Event>)
    requires |events| > 0 && events[0] == Received(CrcRequest) && !HeaderFits(t)
    ensures SendFile(t, events) == (Failed(HeaderTooLong), [Write(Raw(Cancel))])
  {
    assert Drive(t, Done(Failed(HeaderTooLong)), events[1..]) == (Failed(HeaderTooLong), []);
    assert [Write(Raw(Cancel))] + [] == [Write(Raw(Cancel))];
  }

  /** The receiver of a complete transfer: 'C', ACK, 'C', an ACK per block, then ACK,
      'C', ACK. */
  function Cooperative(t: Transfer): seq<Event> {
    [Received(CrcRequest), Received(ACK), Received(CrcRequest)]
      + seq(Blocks(t), _ => Received(ACK))
      + [Received(ACK), Received(CrcRequest), Received(ACK)]
  }

  /** Against a cooperative receiver a transfer whose header fits succeeds. */
  lemma CooperativeSucceeds(t: Transfer)
    requires HeaderFits(t)
    ensures SendFile(t, Cooperative(t)).0 == Succeeded
  {
    var events := Cooperative(t);
    forall s | 3 <= s < 3 + Blocks(t) ensures events[s] == Received(ACK) {
    }
    SuccessCondition(t, events);
  }

  /** A receiver that acknowledges blocks `1 .. k` and then falls silent: the transfer
      times out waiting for the ACK of block `k + 1`, after writing its frame. */
  lemma SilenceAfterBlock(t: Transfer, k: nat)
    requires HeaderFits(t) && k < Blocks(t)
    ensures var events := [Received(CrcRequest), Received(ACK), Received(CrcRequest)] + seq(k, _ => Received(ACK));
      SendFile(t, events)
        == (Failed(Timeout(ACK)),
            [Write(HeaderBlock(t))] + DataTranscript(t, 1, k + 1) + [Write(DataBlock(t, k + 1)), Write(Raw(Cancel))])
  {
    var events := [Received(CrcRequest), Received(ACK), Received(CrcRequest)] + seq(k, _ => Received(ACK));
    assert |events| == k + 3;
    forall s | 0 <= s < k + 3 ensures Accepts(t, s, EventAt(events, s)) {
      if s >= 3 {
        assert events[s] == Received(ACK);
      }
    }
    assert EventAt(events, k + 3) == Silence;
    FirstRejectedAt(t, events, 0, k + 3);
    SendFileIsExpected(t, events);
    assert Reason(t, k + 3, Silence) == Timeout(ACK);
    HeaderAndBlocks(t, k + 1);
    AppendCancel([Write(HeaderBlock(t))] + DataTranscript(t, 1, k + 1), Write(DataBlock(t, k + 1)));
  }

  lemma AppendCancel(prefix: seq<Output>, w: Output)
    ensures prefix + [w] + [Write(Raw(Cancel))] == prefix + [w, Write(Raw(Cancel))]
  {
  }

  /** The first wait that does not accept, when all before it do. */
  lemma {:induction false} FirstRejectedAt(t: Transfer, events: seq<Event>, s: nat, f: nat)
    requires s <= f < Slots(t)
    requires forall i :: s <= i < f ==> Accepts(t, i, EventAt(events, i))
    requires !Accepts(t, f, EventAt(events, f))
    ensures FirstRejected(t, events, s) == f
    decreases f - s
  {
    if s < f {
      FirstRejectedAt(t, events, s + 1, f);
    }
  }
}
