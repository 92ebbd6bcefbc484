/**
 The guest's command loop: it polls the child's output and the host link, forwards output in
 frames with back-pressure, watches for the child's exit and answers with one final response.
 What the operating system contributes to each round is a `Tick`; every list of ticks is a
 possible schedule.
 */
module ExecLoop {
  import opened Common
  import opened Cbor
  import opened Framing
  import opened Protocol

  const MAX_BUFFERED: nat := 256 * 1024

  /** Length field, message around the data, data. */
  const MAX_OUTPUT_FRAME: nat := 4 + 51 + MAX_CHUNK

  /** Just below the back-pressure mark, plus one frame from each stream. */
  const PENDING_BOUND: nat := MAX_BUFFERED - 1 + 2 * MAX_OUTPUT_FRAME

  /** How a read from the child can fail; a terminal reports its end as an input/output error. */
  datatype Fault = NoFault | InputOutput | OtherFault

  /** One poll round: what is ready, what the reads, the stdin handler and waitpid give. */
  datatype Tick = Tick(outReady: bool, outChunk: nat, outFault: Fault,
                       errReady: bool, errChunk: nat, errFault: Fault,
                       writable: bool, readable: bool, stdinStays: bool,
                       hangup: bool, pollFails: bool, childStatus: Option<nat>)

  datatype Outcome = Finished | Failed | Unfinished

  // ----- Exit status -----

  datatype Termination = Termination(code: int, signal: Option<int>)

  function ParseStatus(status: nat): (t: Termination)
    ensures 0 <= t.code <= 255
    ensures t.signal.Some? <==> status % 128 != 0 && 0 < status % 65536 < 256
    ensures t.signal.Some? ==> t.code == 128 + t.signal.value && t.signal.value == status % 128
    ensures t.signal.None? ==> t.code == if status % 128 == 0 then status / 256 % 256 else 1
  {
    var sig, low := status % 128, status % 65536;
    var below := if low == 0 then 65535 else low - 1;
    if sig == 0 then Termination(status / 256 % 256, None)
    else if below < 255 then Termination(128 + sig, Some(sig))
    else Termination(1, None)
  }

  // ----- Transcripts -----

  ghost predicate AllOk(ms: seq<Message>) {
    forall i :: 0 <= i < |ms| ==> MessageOk(ms[i])
  }

  ghost function Payloads(ms: seq<Message>): (ps: seq<Payload>)
    requires AllOk(ms)
    ensures |ps| == |ms| && AllSmall(ps)
  {
    seq(|ms|, i requires 0 <= i < |ms| => EncodeMessage(ms[i]))
  }

  /** The data of one stream, in the order it was sent. */
  function StreamData(ms: seq<Message>, s: Stream): seq<Byte> {
    if ms == [] then []
    else
      var last := ms[|ms| - 1];
      StreamData(ms[..|ms| - 1], s) + if last.Output? && last.stream == s then last.data else []
  }

  /** Only output messages, all with the request's id. */
  ghost predicate Outputs(ms: seq<Message>, id: nat) {
    forall i :: 0 <= i < |ms| ==> ms[i].Output? && ms[i].id == id
  }

  /** Everything sent so far, and what is still buffered, is the transcript. */
  ghost predicate Emitted(writer: FrameWriter, wire: Wire, base: seq<Byte>, ms: seq<Message>)
    reads writer, wire
  {
    && writer.Valid() && wire.Valid() && AllOk(ms) && |base| <= |wire.sent|
    && wire.sent + writer.Pending() == base + EncodeFrames(Payloads(ms))
  }

  lemma OneMore(ms: seq<Message>, m: Message)
    requires AllOk(ms) && MessageOk(m)
    ensures AllOk(ms + [m])
    ensures EncodeFrames(Payloads(ms + [m])) == EncodeFrames(Payloads(ms)) + EncodeFrame(EncodeMessage(m))
    ensures forall s :: StreamData(ms + [m], s) == StreamData(ms, s) + if m.Output? && m.stream == s then m.data else []
  {
    assert Payloads(ms + [m]) == Payloads(ms) + [EncodeMessage(m)];
    EncodeFramesSnoc(Payloads(ms), EncodeMessage(m));
    assert (ms + [m])[..|ms|] == ms;
  }

  lemma Appended(sent: seq<Byte>, pending: seq<Byte>, base: seq<Byte>, done: seq<Byte>, more: seq<Byte>)
    requires sent + pending == base + done
    ensures sent + (pending + more) == base + (done + more)
  {
    assert sent + (pending + more) == (sent + pending) + more;
  }

  function Max(a: nat, b: nat): nat {
    if a < b then b else a
  }

  /** Puts one more message into the buffer. */
  method Buffer(writer: FrameWriter, ghost wire: Wire, payload: Payload, ghost m: Message, ghost base: seq<Byte>, ghost ms: seq<Message>)
    requires Emitted(writer, wire, base, ms) && MessageOk(m) && payload == EncodeMessage(m)
    modifies writer
    ensures Emitted(writer, wire, base, ms + [m])
    ensures |writer.Pending()| == old(|writer.Pending()|) + 4 + |payload|
    ensures writer.peak == Max(old(writer.peak), |writer.Pending()|)
  {
    OneMore(ms, m);
    Appended(wire.sent, writer.Pending(), base, EncodeFrames(Payloads(ms)), EncodeFrame(payload));
    hide EncodeMessage; hide Payloads; hide AllOk; hide EncodeFrames;
    writer.Enqueue(payload);
  }

  /** Buffers one message and pushes what the wire takes; it fails exactly if the wire does. */
  method Emit(writer: FrameWriter, wire: Wire, payload: Payload, ghost m: Message, ghost base: seq<Byte>, ghost ms: seq<Message>)
    returns (ok: bool)
    requires Emitted(writer, wire, base, ms) && MessageOk(m) && payload == EncodeMessage(m)
    modifies writer, wire
    ensures Emitted(writer, wire, base, ms + [m])
    ensures |writer.Pending()| <= old(|writer.Pending()|) + 4 + |payload|
    ensures writer.peak == Max(old(writer.peak), old(|writer.Pending()|) + 4 + |payload|)
    ensures wire.taken == old(wire.taken) && ok == (wire.faults == old(wire.faults)) && wire.faults >= old(wire.faults)
    ensures wire.writeBlocks >= old(wire.writeBlocks)
  {
    hide EncodeMessage; hide Payloads; hide AllOk; hide EncodeFrames; hide MessageOk;
    Buffer(writer, wire, payload, m, base, ms);
    ghost var sent, pending := wire.sent, writer.Pending();
    var flushed := writer.Flush(wire);
    assert |wire.sent| + |writer.Pending()| == |sent| + |pending|;
    ok := flushed.Ok?;
  }

  /** How many bytes a read returns: none only at the end of the stream. */
  function Chunk(left: nat, wanted: nat): (n: nat)
    ensures n <= left && n <= MAX_CHUNK && (n == 0 <==> left == 0)
  {
    var most := if left < MAX_CHUNK then left else MAX_CHUNK;
    if left == 0 then 0 else if wanted < 1 then 1 else if wanted > most then most else wanted
  }

  // ----- What the loop computes -----

  /** Nothing is left to poll for. */
  predicate NothingToPoll(stdoutOpen: bool, stderrOpen: bool, stdinOpen: bool, pending: nat) {
    var backpressure := pending >= MAX_BUFFERED;
    !(stdoutOpen && !backpressure) && !(stderrOpen && !backpressure) && !stdinOpen && pending == 0
  }

  predicate MayLeave(status: Option<nat>, stdoutOpen: bool, stderrOpen: bool, pending: nat) {
    status.Some? && !stdoutOpen && !stderrOpen && pending == 0
  }

  datatype ExecRequest = ExecRequest(id: nat, stdin: bool, pty: bool)

  /** The loop's variables, with the positions reached in the two streams and the transcript. */
  datatype Vars = Vars(stdoutOpen: bool, stderrOpen: bool, stdinOpen: bool, status: Option<nat>,
                       outPos: nat, errPos: nat, ms: seq<Message>)

  function InitialVars(req: ExecRequest): Vars {
    Vars(true, !req.pty, req.stdin || req.pty, None, 0, 0, [])
  }

  /** After stdout has been polled: a chunk becomes a message, its end closes it. A terminal takes stdin along. */
  function AfterStdout(req: ExecRequest, out: seq<Byte>, v: Vars, tick: Tick): Vars {
    if !tick.outReady || v.outPos > |out| then v
    else if tick.outFault != NoFault then v.(stdoutOpen := false, stdinOpen := false)
    else
      var n := Chunk(|out| - v.outPos, tick.outChunk);
      if n == 0 then v.(stdoutOpen := false, stdinOpen := v.stdinOpen && !req.pty)
      else v.(outPos := v.outPos + n, ms := v.ms + [Output(req.id, Stdout, out[v.outPos..v.outPos + n])])
  }

  function AfterStderr(req: ExecRequest, err: seq<Byte>, v: Vars, tick: Tick): Vars {
    if !tick.errReady || v.errPos > |err| then v
    else
      var n := Chunk(|err| - v.errPos, tick.errChunk);
      if n == 0 then v.(stderrOpen := false)
      else v.(errPos := v.errPos + n, ms := v.ms + [Output(req.id, Stderr, err[v.errPos..v.errPos + n])])
  }

  /** End of a round: the stdin handler's verdict and a look at the child. */
  function AfterWait(v: Vars, tick: Tick): Vars {
    var w := if v.stdinOpen && tick.readable then v.(stdinOpen := tick.stdinStays) else v;
    if w.status.None? then w.(status := tick.childStatus) else w
  }

  /** The variables after one round that meets no error. Under back-pressure the streams are not read. */
  function RoundVars(req: ExecRequest, out: seq<Byte>, err: seq<Byte>, v: Vars, backpressure: bool, tick: Tick): Vars {
    var a := if v.stdoutOpen && !backpressure then AfterStdout(req, out, v, tick) else v;
    var b := if v.stderrOpen && !backpressure then AfterStderr(req, err, a, tick) else a;
    AfterWait(b, tick)
  }

  predicate StdoutFaults(req: ExecRequest, tick: Tick) {
    tick.outReady && tick.outFault != NoFault && !(req.pty && tick.outFault == InputOutput)
  }

  /** Poll or a read fails in a way the loop does not accept. */
  predicate RoundFaults(req: ExecRequest, v: Vars, backpressure: bool, tick: Tick) {
    || tick.pollFails
    || (v.stdoutOpen && !backpressure && StdoutFaults(req, tick))
    || (v.stderrOpen && !backpressure && tick.errReady && tick.errFault != NoFault)
  }

  // ----- The course of the loop -----

  /** What the loop finds at its head: its variables, the bytes pending and sent, the ticks used. */
  datatype Head = Head(v: Vars, pending: nat, sent: nat, used: nat) {
    predicate Leaves() {
      MayLeave(v.status, v.stdoutOpen, v.stderrOpen, pending)
    }

    predicate Idle() {
      NothingToPoll(v.stdoutOpen, v.stderrOpen, v.stdinOpen, pending)
    }

    predicate Pressed() {
      pending >= MAX_BUFFERED
    }
  }

  /** A head with nothing to poll: the loop waits for the child and comes back to its head. */
  ghost predicate IdleTurn(h: Head, waited: nat, h': Head) {
    h.Idle() && !h.Leaves() && h' == h.(v := h.v.(status := Some(waited)))
  }

  /** A poll round without an error. */
  ghost predicate RoundTurn(req: ExecRequest, out: seq<Byte>, err: seq<Byte>, ticks: seq<Tick>, h: Head, h': Head) {
    && !h.Idle() && !h.Leaves() && h.used < |ticks| && !RoundFaults(req, h.v, h.Pressed(), ticks[h.used])
    && h'.used == h.used + 1 && h'.v == RoundVars(req, out, err, h.v, h.Pressed(), ticks[h.used])
  }

  /** Sent and pending bytes are those of the transcript so far. */
  ghost predicate HeadOk(h: Head, base: seq<Byte>) {
    && AllOk(h.v.ms) && h.pending <= PENDING_BOUND && h.sent >= |base|
    && h.sent + h.pending == |base| + |EncodeFrames(Payloads(h.v.ms))|
  }

  /** The heads of the loop from its start, one turn between each two. */
  ghost predicate Course(req: ExecRequest, out: seq<Byte>, err: seq<Byte>, waited: nat, ticks: seq<Tick>, base: seq<Byte>, heads: seq<Head>) {
    && heads != [] && heads[0] == Head(InitialVars(req), 0, |base|, 0)
    && (forall i :: 0 <= i < |heads| ==> HeadOk(heads[i], base))
    && (forall i :: 0 < i < |heads| ==>
          IdleTurn(heads[i - 1], waited, heads[i]) || RoundTurn(req, out, err, ticks, heads[i - 1], heads[i]))
  }

  function Last<T>(s: seq<T>): T
    requires s != []
  {
    s[|s| - 1]
  }

  /** When there is nothing to poll for, waiting for the child is all that keeps the loop going. */
  lemma NothingToPollLeaves(stdoutOpen: bool, stderrOpen: bool, stdinOpen: bool, pending: nat, status: nat)
    requires NothingToPoll(stdoutOpen, stderrOpen, stdinOpen, pending)
    ensures MayLeave(Some(status), stdoutOpen, stderrOpen, pending)
  {
  }

  /** A head with nothing to poll is the last but one: the next one leaves the loop. */
  lemma IdleThenLeaves(req: ExecRequest, out: seq<Byte>, err: seq<Byte>, waited: nat, ticks: seq<Tick>, base: seq<Byte>, heads: seq<Head>, i: nat)
    requires Course(req, out, err, waited, ticks, base, heads) && i + 1 < |heads| && heads[i].Idle()
    ensures i + 2 == |heads| && heads[i + 1].Leaves()
  {
    var h, h' := heads[i], heads[i + 1];
    assert i + 2 < |heads| ==>
             IdleTurn(heads[i + 1], waited, heads[i + 2]) || RoundTurn(req, out, err, ticks, heads[i + 1], heads[i + 2]);
    assert IdleTurn(h, waited, h');
    NothingToPollLeaves(h.v.stdoutOpen, h.v.stderrOpen, h.v.stdinOpen, h.pending, waited);
  }

  // ----- The course, told from the schedule alone -----

  /** The first report of the child's end among the ticks. */
  function FirstStatus(ticks: seq<Tick>): Option<nat> {
    if ticks == [] then None
    else
      var before := FirstStatus(ticks[..|ticks| - 1]);
      if before.Some? then before else ticks[|ticks| - 1].childStatus
  }

  /** What a head knows of the child and of stdin, as the ticks used so far determine it. */
  ghost predicate KnownAt(req: ExecRequest, waited: nat, ticks: seq<Tick>, h: Head) {
    && h.used <= |ticks| && (req.pty ==> !h.v.stderrOpen)
    && (h.v.status == FirstStatus(ticks[..h.used]) || (FirstStatus(ticks[..h.used]) == None && h.v.status == Some(waited)))
    && (h.v.stdinOpen <==>
          && (req.stdin || req.pty) && (req.pty ==> h.v.stdoutOpen)
          && forall i :: 0 <= i < h.used && ticks[i].readable ==> ticks[i].stdinStays)
  }

  lemma RoundKnows(req: ExecRequest, out: seq<Byte>, err: seq<Byte>, waited: nat, ticks: seq<Tick>, h: Head, h': Head)
    requires KnownAt(req, waited, ticks, h) && RoundTurn(req, out, err, ticks, h, h')
    requires h.v.status.Some? ==> h.v.status == FirstStatus(ticks[..h.used])
    ensures KnownAt(req, waited, ticks, h')
    ensures h'.v.status.Some? ==> h'.v.status == FirstStatus(ticks[..h'.used])
  {
    hide Chunk;
    assert ticks[..h'.used][..h.used] == ticks[..h.used];
  }

  /**
   At every head: the status is the first one the ticks reported, or, after a head with nothing
   to poll, the one waited for; stdin is open exactly if the request wants it, no tick has closed
   it and the terminal, if there is one, has not ended. With a terminal stderr is never read.
   */
  lemma {:induction false} CourseKnows(req: ExecRequest, out: seq<Byte>, err: seq<Byte>, waited: nat, ticks: seq<Tick>, base: seq<Byte>,
                                       heads: seq<Head>, i: nat)
    requires Course(req, out, err, waited, ticks, base, heads) && i < |heads|
    ensures KnownAt(req, waited, ticks, heads[i])
    ensures i + 1 < |heads| && heads[i].v.status.Some? ==> heads[i].v.status == FirstStatus(ticks[..heads[i].used])
  {
    hide HeadOk; hide RoundVars; hide RoundFaults; hide KnownAt;
    if i == 0 {
      StartKnows(req, waited, ticks, base);
    } else {
      CourseKnows(req, out, err, waited, ticks, base, heads, i - 1);
      assert IdleTurn(heads[i - 1], waited, heads[i]) || RoundTurn(req, out, err, ticks, heads[i - 1], heads[i]);
      if RoundTurn(req, out, err, ticks, heads[i - 1], heads[i]) {
        RoundKnows(req, out, err, waited, ticks, heads[i - 1], heads[i]);
      } else {
        IdleKnows(req, waited, ticks, heads[i - 1], heads[i]);
        IdleThenLeaves(req, out, err, waited, ticks, base, heads, i - 1);
      }
    }
  }

  lemma StartKnows(req: ExecRequest, waited: nat, ticks: seq<Tick>, base: seq<Byte>)
    ensures KnownAt(req, waited, ticks, Head(InitialVars(req), 0, |base|, 0))
  {
  }

  /** A head with nothing to poll has no status yet, and the next one has the status waited for. */
  lemma IdleKnows(req: ExecRequest, waited: nat, ticks: seq<Tick>, h: Head, h': Head)
    requires KnownAt(req, waited, ticks, h) && IdleTurn(h, waited, h')
    ensures h.v.status == None && KnownAt(req, waited, ticks, h')
  {
  }

  /** Rounds among the first used ones, counted from the heads, in which a stream is ready, open and not held back. */
  function Ready(stream: Stream, ticks: seq<Tick>, heads: seq<Head>): nat {
    if heads == [] then 0
    else
      var h := heads[|heads| - 1];
      Ready(stream, ticks, heads[..|heads| - 1])
      + if !h.Idle() && h.used < |ticks| && h.pending < 262144
           && (if stream == Stdout then h.v.stdoutOpen && ticks[h.used].outReady else h.v.stderrOpen && ticks[h.used].errReady)
        then 1 else 0
  }

  /**
   The loop gets ahead: every round that finds a stream open, ready and not held back reads at
   least one byte of it, or finds its end and closes it.
   */
  lemma {:induction false} CourseAdvances(req: ExecRequest, out: seq<Byte>, err: seq<Byte>, waited: nat, ticks: seq<Tick>, base: seq<Byte>,
                                          heads: seq<Head>, i: nat)
    requires Course(req, out, err, waited, ticks, base, heads) && i < |heads| && (req.pty ==> err == [])
    ensures var v := heads[i].v;
            && v.outPos <= |out| && v.errPos <= |err|
            && v.outPos + (if v.stdoutOpen then 0 else 1) >= Ready(Stdout, ticks, heads[..i])
            && v.errPos + (if v.stderrOpen then 0 else 1) >= Ready(Stderr, ticks, heads[..i])
  {
    hide HeadOk; hide RoundFaults; hide Ready; hide RoundVars;
    if i == 0 {
      ReadyNone(ticks, heads);
    } else {
      CourseAdvances(req, out, err, waited, ticks, base, heads, i - 1);
      ReadyOne(ticks, heads, i - 1);
      assert IdleTurn(heads[i - 1], waited, heads[i]) || RoundTurn(req, out, err, ticks, heads[i - 1], heads[i]);
      if RoundTurn(req, out, err, ticks, heads[i - 1], heads[i]) {
        RoundAdvances(req, out, err, heads[i - 1].v, heads[i - 1].Pressed(), ticks[heads[i - 1].used]);
      }
    }
  }

  lemma ReadyNone(ticks: seq<Tick>, heads: seq<Head>)
    ensures Ready(Stdout, ticks, heads[..0]) == 0 && Ready(Stderr, ticks, heads[..0]) == 0
  {
  }

  lemma ReadyOne(ticks: seq<Tick>, heads: seq<Head>, i: nat)
    requires i < |heads|
    ensures var h := heads[i];
            var polled := !h.Idle() && h.used < |ticks| && h.pending < 262144;
            && Ready(Stdout, ticks, heads[..i + 1]) == Ready(Stdout, ticks, heads[..i])
                 + (if polled && h.v.stdoutOpen && ticks[h.used].outReady then 1 else 0)
            && Ready(Stderr, ticks, heads[..i + 1]) == Ready(Stderr, ticks, heads[..i])
                 + (if polled && h.v.stderrOpen && ticks[h.used].errReady then 1 else 0)
  {
    assert heads[..i + 1][..i] == heads[..i];
  }

  lemma RoundAdvances(req: ExecRequest, out: seq<Byte>, err: seq<Byte>, v: Vars, pressed: bool, tick: Tick)
    requires v.outPos <= |out| && v.errPos <= |err|
    ensures var v' := RoundVars(req, out, err, v, pressed, tick);
            && v.outPos <= v'.outPos <= |out| && v.errPos <= v'.errPos <= |err|
            && (!v.stdoutOpen ==> !v'.stdoutOpen) && (!v.stderrOpen ==> !v'.stderrOpen)
            && (!pressed && v.stdoutOpen && tick.outReady ==> v'.outPos > v.outPos || !v'.stdoutOpen)
            && (!pressed && v.stderrOpen && tick.errReady ==> v'.errPos > v.errPos || !v'.stderrOpen)
            && (!(tick.outReady && tick.outFault != NoFault) && v.stdoutOpen && !v'.stdoutOpen ==> v'.outPos == |out|)
            && (v.stderrOpen && !v'.stderrOpen ==> v'.errPos == |err|)
  {
    hide Chunk;
  }

  /**
   A turn between two heads that has something to poll uses the next tick. Poll did not fail in
   it, and neither did a read, but for a terminal's input/output error, which ends stdout. From
   256 KiB pending on, the streams are left alone.
   */
  lemma RoundTold(req: ExecRequest, out: seq<Byte>, err: seq<Byte>, waited: nat, ticks: seq<Tick>, base: seq<Byte>, heads: seq<Head>, i: nat)
    requires Course(req, out, err, waited, ticks, base, heads) && i + 1 < |heads| && !Silent(heads[i]) && (req.pty ==> err == [])
    ensures var h, h' := heads[i], heads[i + 1];
            && h.used < |ticks| && h'.used == h.used + 1 && !ticks[h.used].pollFails
            && (h.pending >= 262144 ==>
                  && h'.v.ms == h.v.ms && h'.v.outPos == h.v.outPos && h'.v.errPos == h.v.errPos
                  && h'.v.stdoutOpen == h.v.stdoutOpen && h'.v.stderrOpen == h.v.stderrOpen)
            && (h.pending < 262144 && h.v.stderrOpen && ticks[h.used].errReady ==> ticks[h.used].errFault == NoFault)
            && (h.pending < 262144 && h.v.stdoutOpen && ticks[h.used].outReady && ticks[h.used].outFault != NoFault ==>
                  req.pty && ticks[h.used].outFault == InputOutput && !h'.v.stdoutOpen && h'.v.outPos == h.v.outPos)
  {
    hide HeadOk; hide Chunk; hide Ready;
    CourseAdvances(req, out, err, waited, ticks, base, heads, i);
    assert IdleTurn(heads[i], waited, heads[i + 1]) || RoundTurn(req, out, err, ticks, heads[i], heads[i + 1]);
  }

  // ----- The loop -----

  /** What holds of the variables at every point of the loop. */
  ghost predicate LoopOk(v: Vars, req: ExecRequest, out: seq<Byte>, err: seq<Byte>) {
    && Outputs(v.ms, req.id) && v.outPos <= |out| && v.errPos <= |err|
    && StreamData(v.ms, Stdout) == out[..v.outPos] && StreamData(v.ms, Stderr) == err[..v.errPos]
    && (!v.stdoutOpen && !req.pty ==> v.outPos == |out|)
    && (!v.stderrOpen ==> v.errPos == |err|)
  }

  /** Sends one chunk of a stream as a message. */
  method Pump(writer: FrameWriter, wire: Wire, id: nat, stream: Stream, data: seq<Byte>, ghost base: seq<Byte>, ms: seq<Message>)
    returns (ok: bool, ms': seq<Message>)
    requires Emitted(writer, wire, base, ms) && id < TWO_32 && |data| <= MAX_CHUNK
    modifies writer, wire
    ensures ms' == ms + [Output(id, stream, data)] && Emitted(writer, wire, base, ms')
    ensures |writer.Pending()| <= old(|writer.Pending()|) + MAX_OUTPUT_FRAME
    ensures writer.peak <= Max(old(writer.peak), old(|writer.Pending()|) + MAX_OUTPUT_FRAME)
    ensures wire.taken == old(wire.taken) && ok == (wire.faults == old(wire.faults)) && wire.faults >= old(wire.faults)
    ensures wire.writeBlocks >= old(wire.writeBlocks)
  {
    hide Payloads; hide AllOk; hide EncodeFrames; hide Encode; hide ToValue;
    ghost var m := Output(id, stream, data);
    MessageEncodes(m);
    var payload := EncodeExecOutput(id, stream, data);
    ok := Emit(writer, wire, payload, m, base, ms);
    ms' := ms + [Output(id, stream, data)];
  }

  lemma StdoutKeeps(req: ExecRequest, out: seq<Byte>, err: seq<Byte>, v: Vars, tick: Tick)
    requires LoopOk(v, req, out, err) && req.id < TWO_32 && !StdoutFaults(req, tick)
    ensures LoopOk(AfterStdout(req, out, v, tick), req, out, err)
  {
    hide StreamData; hide Chunk; hide Outputs;
    var n := Chunk(|out| - v.outPos, tick.outChunk);
    StreamGrows(v.ms, req.id, Stdout, out, v.outPos, n);
  }

  lemma StderrKeeps(req: ExecRequest, out: seq<Byte>, err: seq<Byte>, v: Vars, tick: Tick)
    requires LoopOk(v, req, out, err) && req.id < TWO_32
    ensures LoopOk(AfterStderr(req, err, v, tick), req, out, err)
  {
    hide StreamData; hide Chunk; hide Outputs;
    var n := Chunk(|err| - v.errPos, tick.errChunk);
    StreamGrows(v.ms, req.id, Stderr, err, v.errPos, n);
  }

  lemma StreamGrows(ms: seq<Message>, id: nat, stream: Stream, source: seq<Byte>, pos: nat, n: nat)
    requires pos + n <= |source| && StreamData(ms, stream) == source[..pos] && Outputs(ms, id)
    ensures var m := Output(id, stream, source[pos..pos + n]);
            && Outputs(ms + [m], id)
            && StreamData(ms + [m], stream) == source[..pos + n]
            && forall s :: s != stream ==> StreamData(ms + [m], s) == StreamData(ms, s)
  {
    var m := Output(id, stream, source[pos..pos + n]);
    assert (ms + [m])[..|ms|] == ms;
    assert source[..pos] + source[pos..pos + n] == source[..pos + n];
  }

  method ServeStdout(req: ExecRequest, writer: FrameWriter, wire: Wire, out: seq<Byte>, ghost err: seq<Byte>, v: Vars,
                     tick: Tick, ghost base: seq<Byte>)
    returns (ok: bool, v': Vars)
    requires Emitted(writer, wire, base, v.ms) && LoopOk(v, req, out, err) && req.id < TWO_32
    requires |writer.Pending()| < MAX_BUFFERED && writer.peak <= PENDING_BOUND
    modifies writer, wire
    ensures Emitted(writer, wire, base, v'.ms) && LoopOk(v', req, out, err)
    ensures |writer.Pending()| < MAX_BUFFERED + MAX_OUTPUT_FRAME && writer.peak <= PENDING_BOUND
    ensures wire.taken == old(wire.taken) && wire.faults >= old(wire.faults) && wire.writeBlocks >= old(wire.writeBlocks)
    ensures if ok then !StdoutFaults(req, tick) && wire.faults == old(wire.faults) && v' == AfterStdout(req, out, v, tick)
            else StdoutFaults(req, tick) || wire.faults > old(wire.faults)
  {
    hide LoopOk; hide Emitted;
    v', ok := v, true;
    if !tick.outReady {
      return;
    }
    if tick.outFault != NoFault {
      if !(req.pty && tick.outFault == InputOutput) {
        return false, v;
      }
      StdoutKeeps(req, out, err, v, tick);
      InBounds(v, req, out, err);
      return true, v.(stdoutOpen := false, stdinOpen := false);
    }
    InBounds(v, req, out, err);
    StdoutKeeps(req, out, err, v, tick);
    var n := Chunk(|out| - v.outPos, tick.outChunk);
    if n == 0 {
      return true, v.(stdoutOpen := false, stdinOpen := v.stdinOpen && !req.pty);
    }
    var ms;
    ok, ms := Pump(writer, wire, req.id, Stdout, out[v.outPos..v.outPos + n], base, v.ms);
    v' := v.(outPos := v.outPos + n, ms := ms);
  }

  method ServeStderr(req: ExecRequest, writer: FrameWriter, wire: Wire, ghost out: seq<Byte>, err: seq<Byte>, v: Vars,
                     tick: Tick, ghost base: seq<Byte>)
    returns (ok: bool, v': Vars)
    requires Emitted(writer, wire, base, v.ms) && LoopOk(v, req, out, err) && req.id < TWO_32
    requires |writer.Pending()| < MAX_BUFFERED + MAX_OUTPUT_FRAME && writer.peak <= PENDING_BOUND
    modifies writer, wire
    ensures Emitted(writer, wire, base, v'.ms) && LoopOk(v', req, out, err)
    ensures |writer.Pending()| <= PENDING_BOUND && writer.peak <= PENDING_BOUND
    ensures wire.taken == old(wire.taken) && wire.faults >= old(wire.faults) && wire.writeBlocks >= old(wire.writeBlocks)
    ensures var fault := tick.errReady && tick.errFault != NoFault;
            if ok then !fault && wire.faults == old(wire.faults) && v' == AfterStderr(req, err, v, tick)
            else fault || wire.faults > old(wire.faults)
  {
    hide LoopOk; hide Emitted;
    v', ok := v, true;
    if !tick.errReady {
      return;
    }
    if tick.errFault != NoFault {
      return false, v;
    }
    InBounds(v, req, out, err);
    StderrKeeps(req, out, err, v, tick);
    var n := Chunk(|err| - v.errPos, tick.errChunk);
    if n == 0 {
      return true, v.(stderrOpen := false);
    }
    var ms;
    ok, ms := Pump(writer, wire, req.id, Stderr, err[v.errPos..v.errPos + n], base, v.ms);
    v' := v.(errPos := v.errPos + n, ms := ms);
  }

  lemma InBounds(v: Vars, req: ExecRequest, out: seq<Byte>, err: seq<Byte>)
    requires LoopOk(v, req, out, err)
    ensures v.outPos <= |out| && v.errPos <= |err|
  {
  }

  lemma WaitKeeps(v: Vars, req: ExecRequest, out: seq<Byte>, err: seq<Byte>, tick: Tick, status: Option<nat>)
    requires LoopOk(v, req, out, err)
    ensures LoopOk(AfterWait(v, tick), req, out, err) && AfterWait(v, tick).ms == v.ms
    ensures LoopOk(v.(status := status), req, out, err)
  {
  }

  /** Pushes pending bytes if the wire was polled and takes some. */
  method PushPending(writer: FrameWriter, wire: Wire, ghost base: seq<Byte>, ghost ms: seq<Message>) returns (ok: bool)
    requires Emitted(writer, wire, base, ms)
    modifies writer, wire
    ensures Emitted(writer, wire, base, ms) && |writer.Pending()| <= old(|writer.Pending()|)
    ensures writer.peak == old(writer.peak) && wire.taken == old(wire.taken)
    ensures ok == (wire.faults == old(wire.faults)) && wire.faults >= old(wire.faults)
    ensures wire.writeBlocks >= old(wire.writeBlocks)
    ensures ok ==> writer.Pending() == [] || wire.writeBlocks > old(wire.writeBlocks)
  {
    hide Payloads; hide AllOk; hide EncodeFrames;
    ghost var sent, pending := wire.sent, writer.Pending();
    var flushed := writer.Flush(wire);
    assert |wire.sent| + |writer.Pending()| == |sent| + |pending|;
    ok := flushed.Ok?;
  }

  /** The part of a round that reads the two streams, below the back-pressure mark. */
  method ServeStreams(req: ExecRequest, writer: FrameWriter, wire: Wire, out: seq<Byte>, err: seq<Byte>, v: Vars,
                      tick: Tick, ghost base: seq<Byte>)
    returns (ok: bool, v': Vars)
    requires Emitted(writer, wire, base, v.ms) && LoopOk(v, req, out, err) && req.id < TWO_32
    requires writer.Valid() && |writer.Pending()| <= PENDING_BOUND && writer.peak <= PENDING_BOUND
    modifies writer, wire
    ensures Emitted(writer, wire, base, v'.ms) && LoopOk(v', req, out, err)
    ensures writer.Valid() && |writer.Pending()| <= PENDING_BOUND && writer.peak <= PENDING_BOUND
    ensures wire.taken == old(wire.taken) && wire.faults >= old(wire.faults) && wire.writeBlocks >= old(wire.writeBlocks)
    ensures var pressed := old(|writer.Pending()|) >= MAX_BUFFERED;
            var a := if v.stdoutOpen && !pressed then AfterStdout(req, out, v, tick) else v;
            if ok then
              && (tick.pollFails || !RoundFaults(req, v, pressed, tick)) && wire.faults == old(wire.faults)
              && v' == if v.stderrOpen && !pressed then AfterStderr(req, err, a, tick) else a
            else RoundFaults(req, v, pressed, tick) || wire.faults > old(wire.faults)
  {
    hide LoopOk; hide Emitted; hide StdoutFaults; hide AfterStdout; hide AfterStderr;
    v', ok := v, true;
    var backpressure := writer.PendingBytes() >= MAX_BUFFERED;
    if v.stdoutOpen && !backpressure {
      ok, v' := ServeStdout(req, writer, wire, out, err, v, tick, base);
      EmittedValid(writer, wire, base, v'.ms);
      if !ok {
        return;
      }
    }
    if v.stderrOpen && !backpressure {
      ok, v' := ServeStderr(req, writer, wire, out, err, v', tick, base);
      EmittedValid(writer, wire, base, v'.ms);
    }
  }

  /** One poll round. Streams are read only below the back-pressure mark. */
  method Round(req: ExecRequest, writer: FrameWriter, wire: Wire, out: seq<Byte>, err: seq<Byte>, v: Vars,
               tick: Tick, ghost base: seq<Byte>)
    returns (ok: bool, v': Vars)
    requires Emitted(writer, wire, base, v.ms) && LoopOk(v, req, out, err) && req.id < TWO_32
    requires writer.Valid() && |writer.Pending()| <= PENDING_BOUND && writer.peak <= PENDING_BOUND
    modifies writer, wire
    ensures Emitted(writer, wire, base, v'.ms) && LoopOk(v', req, out, err)
    ensures writer.Valid() && |writer.Pending()| <= PENDING_BOUND && writer.peak <= PENDING_BOUND
    ensures wire.taken == old(wire.taken) && wire.faults >= old(wire.faults) && wire.writeBlocks >= old(wire.writeBlocks)
    ensures var pressed := old(|writer.Pending()|) >= MAX_BUFFERED;
            if ok then
              !RoundFaults(req, v, pressed, tick) && wire.faults == old(wire.faults) && v' == RoundVars(req, out, err, v, pressed, tick)
            else RoundFaults(req, v, pressed, tick) || wire.faults > old(wire.faults)
  {
    hide LoopOk; hide Emitted; hide StdoutFaults; hide AfterStdout; hide AfterStderr;
    v', ok := v, true;
    if tick.pollFails {
      return false, v;
    }
    var polledWrite := writer.HasPending();
    ok, v' := ServeStreams(req, writer, wire, out, err, v, tick, base);
    if !ok {
      return;
    }
    if polledWrite && tick.writable {
      ok := PushPending(writer, wire, base, v'.ms);
      EmittedValid(writer, wire, base, v'.ms);
      if !ok {
        return;
      }
    }
    WaitKeeps(v', req, out, err, tick, None);
    if v'.stdinOpen && tick.readable {
      v' := v'.(stdinOpen := tick.stdinStays);
    }
    if v'.status.None? {
      v' := v'.(status := tick.childStatus);
    }
  }

  lemma EmittedValid(writer: FrameWriter, wire: Wire, base: seq<Byte>, ms: seq<Message>)
    requires Emitted(writer, wire, base, ms)
    ensures writer.Valid() && wire.Valid() && AllOk(ms) && |base| <= |wire.sent|
    ensures |wire.sent| + |writer.Pending()| == |base| + |EncodeFrames(Payloads(ms))|
  {
  }

  lemma StartOk(req: ExecRequest, out: seq<Byte>, err: seq<Byte>, writer: FrameWriter, wire: Wire, base: seq<Byte>)
    requires writer.Valid() && wire.Valid() && writer.Pending() == [] && wire.sent == base && (req.pty ==> err == [])
    ensures LoopOk(InitialVars(req), req, out, err) && Emitted(writer, wire, base, [])
  {
    assert base + [] == base;
  }

  /**
   The poll loop itself. `heads` is its course; it ends at a head that may leave, at one that
   needs a tick when there is none, or with a round that failed.
   */
  method RunLoop(req: ExecRequest, writer: FrameWriter, wire: Wire, out: seq<Byte>, err: seq<Byte>, waited: nat,
                 ticks: seq<Tick>, ghost base: seq<Byte>)
    returns (outcome: Outcome, v: Vars, t: nat, ghost heads: seq<Head>)
    requires writer.Valid() && wire.Valid() && writer.Pending() == [] && writer.peak == 0 && wire.sent == base
    requires req.id < TWO_32 && (req.pty ==> err == [])
    modifies writer, wire
    ensures Emitted(writer, wire, base, v.ms) && LoopOk(v, req, out, err)
    ensures writer.peak <= PENDING_BOUND && wire.faults >= old(wire.faults) && wire.writeBlocks >= old(wire.writeBlocks)
    ensures heads != [] && Course(req, out, err, waited, ticks, base, heads)
    ensures outcome == Finished ==>
              Last(heads).Leaves() && v == Last(heads).v && t == Last(heads).used <= |ticks|
              && wire.faults == old(wire.faults) && writer.Valid() && writer.Pending() == []
    ensures outcome == Unfinished ==>
              !Last(heads).Leaves() && !Last(heads).Idle() && v == Last(heads).v && Last(heads).used == |ticks|
              && wire.faults == old(wire.faults)
    ensures outcome == Failed ==>
              !Last(heads).Leaves() && !Last(heads).Idle() && Last(heads).used < |ticks|
              && (RoundFaults(req, Last(heads).v, Last(heads).Pressed(), ticks[Last(heads).used]) || wire.faults > old(wire.faults))
  {
    hide LoopOk; hide Emitted; hide HeadOk; hide RoundVars; hide RoundFaults; hide Course;
    v, t := InitialVars(req), 0;
    StartOk(req, out, err, writer, wire, base);
    heads := [Head(v, 0, |base|, 0)];
    HeadHolds(heads[0], writer, wire, base);
    CourseStarts(req, out, err, waited, ticks, base);
    while true
      invariant writer.Valid() && wire.Valid() && writer.peak <= PENDING_BOUND && |writer.Pending()| <= PENDING_BOUND
      invariant Emitted(writer, wire, base, v.ms) && LoopOk(v, req, out, err)
      invariant heads != [] && Course(req, out, err, waited, ticks, base, heads)
      invariant Last(heads) == Head(v, |writer.Pending()|, |wire.sent|, t) && t <= |ticks|
      invariant wire.faults == old(wire.faults) && wire.writeBlocks >= old(wire.writeBlocks)
      decreases |ticks| - t, if v.status.None? then 1 else 0
    {
      if MayLeave(v.status, v.stdoutOpen, v.stderrOpen, writer.PendingBytes()) {
        return Finished, v, t, heads;
      }
      if NothingToPoll(v.stdoutOpen, v.stderrOpen, v.stdinOpen, writer.PendingBytes()) {
        if v.status.None? {
          WaitKeeps(v, req, out, err, AnyTick(), Some(waited));
          v := v.(status := Some(waited));
        }
        ghost var h := Head(v, |writer.Pending()|, |wire.sent|, t);
        HeadHolds(h, writer, wire, base);
        CourseGrows(req, out, err, waited, ticks, base, heads, h);
        heads := heads + [h];
        continue;
      }
      if t == |ticks| {
        return Unfinished, v, t, heads;
      }
      var ok;
      ok, v := Round(req, writer, wire, out, err, v, ticks[t], base);
      if !ok {
        return Failed, v, t, heads;
      }
      t := t + 1;
      EmittedValid(writer, wire, base, v.ms);
      ghost var h := Head(v, |writer.Pending()|, |wire.sent|, t);
      HeadHolds(h, writer, wire, base);
      CourseGrows(req, out, err, waited, ticks, base, heads, h);
      heads := heads + [h];
    }
  }

  lemma CourseStarts(req: ExecRequest, out: seq<Byte>, err: seq<Byte>, waited: nat, ticks: seq<Tick>, base: seq<Byte>)
    requires HeadOk(Head(InitialVars(req), 0, |base|, 0), base)
    ensures Course(req, out, err, waited, ticks, base, [Head(InitialVars(req), 0, |base|, 0)])
  {
    hide HeadOk;
  }

  lemma CourseGrows(req: ExecRequest, out: seq<Byte>, err: seq<Byte>, waited: nat, ticks: seq<Tick>, base: seq<Byte>,
                    heads: seq<Head>, h: Head)
    requires Course(req, out, err, waited, ticks, base, heads) && HeadOk(h, base) && heads != []
    requires IdleTurn(Last(heads), waited, h) || RoundTurn(req, out, err, ticks, Last(heads), h)
    ensures Course(req, out, err, waited, ticks, base, heads + [h])
  {
    hide HeadOk; hide IdleTurn; hide RoundTurn;
  }

  function AnyTick(): Tick {
    Tick(false, 0, NoFault, false, 0, NoFault, false, false, false, false, false, None)
  }

  lemma HeadHolds(h: Head, writer: FrameWriter, wire: Wire, base: seq<Byte>)
    requires Emitted(writer, wire, base, h.v.ms) && |writer.Pending()| <= PENDING_BOUND
    requires h.pending == |writer.Pending()| && h.sent == |wire.sent|
    ensures HeadOk(h, base)
  {
    EmittedValid(writer, wire, base, h.v.ms);
  }

  /** The transcript of a completed run. */
  ghost predicate Complete(ms: seq<Message>, id: nat, status: nat) {
    && ms != []
    && Outputs(ms[..|ms| - 1], id)
    && ms[|ms| - 1] == Response(id, ParseStatus(status).code, ParseStatus(status).signal)
  }

  /** Both streams are at their end, stdin is closed and nothing is pending: only the child is waited for. */
  ghost predicate Silent(h: Head) {
    !h.v.stdoutOpen && !h.v.stderrOpen && !h.v.stdinOpen && h.pending == 0
  }

  /** The child has ended, both streams are at their end and nothing is pending. */
  ghost predicate Ended(h: Head) {
    h.v.status.Some? && !h.v.stdoutOpen && !h.v.stderrOpen && h.pending == 0
  }

  /**
   Runs the loop over a schedule. `out` and `err` are all the child will ever write; `waited` is
   the status a blocking wait returns. `ms` is the transcript, `writer` the buffer used, `heads`
   the course of the loop.

   Sent and pending bytes are exactly the transcript's; never more than 278637 bytes are pending.
   A course that leaves the loop has all of stdout and stderr behind it, in order, and then
   exactly one response is added, last; all messages carry the request's id. The response tells
   the status the schedule reported first, or the one waited for if it reported none. The call
   returns normally exactly with everything sent. Otherwise the schedule was too short (after
   the loop: in every round left that reported room the wire blocked), or a poll, a read, the
   wire or the host's end failed.
   */
  method HandleExec(req: ExecRequest, wire: Wire, out: seq<Byte>, err: seq<Byte>, waited: nat, ticks: seq<Tick>)
    returns (outcome: Outcome, ms: seq<Message>, writer: FrameWriter, ghost heads: seq<Head>)
    requires wire.Valid() && req.id < TWO_32 && (req.pty ==> err == [])
    modifies wire
    ensures fresh(writer) && Emitted(writer, wire, old(wire.sent), ms)
    ensures writer.peak <= 278637
    ensures Course(req, out, err, waited, ticks, old(wire.sent), heads)
    ensures forall i :: 0 <= i < |heads| - 1 && Silent(heads[i]) ==>
              i + 2 == |heads| && heads[i].v.status == None && heads[i + 1] == heads[i].(v := heads[i].v.(status := Some(waited)))
    ensures StreamData(ms, Stdout) <= out && StreamData(ms, Stderr) <= err
    ensures Last(heads).used <= |ticks|
    ensures if Ended(Last(heads)) then
              && Complete(ms, req.id, if FirstStatus(ticks[..Last(heads).used]).Some? then FirstStatus(ticks[..Last(heads).used]).value else waited)
              && ms[..|ms| - 1] == Last(heads).v.ms
              && (!req.pty ==> StreamData(ms, Stdout) == out) && StreamData(ms, Stderr) == err
            else Outputs(ms, req.id)
    ensures outcome == Finished ==>
              Ended(Last(heads)) && wire.sent == old(wire.sent) + EncodeFrames(Payloads(ms))
    ensures outcome == Unfinished ==>
              if Ended(Last(heads)) then
                writer.HasPending() && wire.writeBlocks >= old(wire.writeBlocks) + Writable(ticks[Last(heads).used..])
              else !Silent(Last(heads)) && Last(heads).used == |ticks|
    ensures outcome == Failed ==>
              || wire.faults > old(wire.faults)
              || (if Ended(Last(heads)) then exists i :: Last(heads).used <= i < |ticks| && (ticks[i].pollFails || ticks[i].hangup)
                  else
                    && Last(heads).used < |ticks|
                    && var tick := ticks[Last(heads).used];
                    || tick.pollFails
                    || (tick.outReady && tick.outFault != NoFault && !(req.pty && tick.outFault == InputOutput))
                    || (tick.errReady && tick.errFault != NoFault))
  {
    hide LoopOk; hide Emitted; hide Course; hide Complete; hide RoundFaults; hide Outputs; hide StreamData;
    writer := new FrameWriter();
    ghost var base := wire.sent;
    var t, v;
    outcome, v, t, heads := RunLoop(req, writer, wire, out, err, waited, ticks, base);
    ms := v.ms;
    CourseFacts(req, out, err, waited, ticks, base, heads);
    if outcome == Failed {
      FaultCause(req, Last(heads).v, Last(heads).Pressed(), ticks[Last(heads).used]);
    }
    LoopFacts(v, req, out, err);
    EmittedValid(writer, wire, base, ms);
    if outcome != Finished {
      return;
    }
    ms := Respond(req, writer, wire, v.status.value, base, ms);
    var used;
    outcome, used := FlushWriter(writer, wire, ticks[t..], base, ms);
    AllSent(writer, wire, base, ms);
    assert outcome == Failed && wire.faults == old(wire.faults) ==> t <= t + used - 1 < |ticks| && ticks[t..][used - 1] == ticks[t + used - 1];
  }

  lemma CourseFacts(req: ExecRequest, out: seq<Byte>, err: seq<Byte>, waited: nat, ticks: seq<Tick>, base: seq<Byte>, heads: seq<Head>)
    requires Course(req, out, err, waited, ticks, base, heads)
    ensures heads != [] && Last(heads).used <= |ticks|
    ensures Last(heads).Leaves() == Ended(Last(heads)) && Last(heads).Idle() == Silent(Last(heads))
    ensures forall i :: 0 <= i < |heads| - 1 && Silent(heads[i]) ==>
              i + 2 == |heads| && heads[i].v.status == None && heads[i + 1] == heads[i].(v := heads[i].v.(status := Some(waited)))
    ensures Ended(Last(heads)) ==>
              var known := FirstStatus(ticks[..Last(heads).used]);
              Last(heads).v.status == Some(if known.Some? then known.value else waited)
  {
    hide HeadOk; hide RoundTurn;
    CourseKnows(req, out, err, waited, ticks, base, heads, |heads| - 1);
    forall i | 0 <= i < |heads| - 1 && Silent(heads[i])
      ensures i + 2 == |heads| && heads[i].v.status == None && heads[i + 1] == heads[i].(v := heads[i].v.(status := Some(waited)))
    {
      assert heads[i].Idle();
      IdleThenLeaves(req, out, err, waited, ticks, base, heads, i);
      IdleTurnAt(req, out, err, waited, ticks, base, heads, i);
    }
  }

  lemma IdleTurnAt(req: ExecRequest, out: seq<Byte>, err: seq<Byte>, waited: nat, ticks: seq<Tick>, base: seq<Byte>, heads: seq<Head>, i: nat)
    requires Course(req, out, err, waited, ticks, base, heads) && i + 1 < |heads| && heads[i].Idle()
    ensures heads[i].v.status == None && heads[i + 1] == heads[i].(v := heads[i].v.(status := Some(waited)))
  {
    hide HeadOk; hide RoundVars; hide RoundFaults;
    assert IdleTurn(heads[i], waited, heads[i + 1]) || RoundTurn(req, out, err, ticks, heads[i], heads[i + 1]);
  }

  lemma FaultCause(req: ExecRequest, v: Vars, pressed: bool, tick: Tick)
    ensures RoundFaults(req, v, pressed, tick) ==>
              || tick.pollFails
              || (tick.outReady && tick.outFault != NoFault && !(req.pty && tick.outFault == InputOutput))
              || (tick.errReady && tick.errFault != NoFault)
  {
  }

  lemma LoopFacts(v: Vars, req: ExecRequest, out: seq<Byte>, err: seq<Byte>)
    requires LoopOk(v, req, out, err)
    ensures Outputs(v.ms, req.id) && StreamData(v.ms, Stdout) <= out && StreamData(v.ms, Stderr) <= err
    ensures !v.stdoutOpen && !req.pty ==> StreamData(v.ms, Stdout) == out
    ensures !v.stderrOpen ==> StreamData(v.ms, Stderr) == err
  {
    assert out[..|out|] == out && err[..|err|] == err;
  }

  lemma AllSent(writer: FrameWriter, wire: Wire, base: seq<Byte>, ms: seq<Message>)
    requires Emitted(writer, wire, base, ms)
    ensures writer.Valid() && AllOk(ms)
    ensures writer.Pending() == [] ==> wire.sent == base + EncodeFrames(Payloads(ms))
  {
    assert wire.sent + [] == wire.sent;
  }

  /** Buffers the final response behind the outputs. */
  method Respond(req: ExecRequest, writer: FrameWriter, ghost wire: Wire, status: nat, ghost base: seq<Byte>, ms: seq<Message>)
    returns (ms': seq<Message>)
    requires Emitted(writer, wire, base, ms) && Outputs(ms, req.id) && req.id < TWO_32
    requires writer.Valid() && writer.Pending() == [] && writer.peak <= PENDING_BOUND
    modifies writer
    ensures Emitted(writer, wire, base, ms') && Complete(ms', req.id, status) && ms'[..|ms'| - 1] == ms
    ensures forall s :: StreamData(ms', s) == StreamData(ms, s)
    ensures writer.peak <= PENDING_BOUND
  {
    hide Emitted; hide Encode; hide ToValue;
    var term := ParseStatus(status);
    ghost var m := Response(req.id, term.code, term.signal);
    var payload := EncodeExecResponse(req.id, term.code, term.signal);
    EmittedValid(writer, wire, base, ms);
    OneMore(ms, m);
    Buffer(writer, wire, payload, m, base, ms);
    ms' := ms + [Response(req.id, term.code, term.signal)];
    assert ms'[..|ms'| - 1] == ms;
  }

  /** The rounds of a schedule in which the wire reports room. */
  function Writable(ticks: seq<Tick>): nat {
    if ticks == [] then 0 else Writable(ticks[..|ticks| - 1]) + if ticks[|ticks| - 1].writable then 1 else 0
  }

  /** The final blocking flush. It stays unfinished only if the wire blocked whenever it had reported room. */
  method FlushWriter(writer: FrameWriter, wire: Wire, ticks: seq<Tick>, ghost base: seq<Byte>, ghost ms: seq<Message>)
    returns (outcome: Outcome, t: nat)
    requires Emitted(writer, wire, base, ms)
    modifies writer, wire
    ensures Emitted(writer, wire, base, ms) && writer.peak == old(writer.peak) && writer.Valid()
    ensures wire.faults >= old(wire.faults) && t <= |ticks|
    ensures outcome == Finished ==> writer.Pending() == [] && wire.faults == old(wire.faults)
    ensures outcome == Unfinished ==>
              && writer.HasPending() && t == |ticks| && wire.faults == old(wire.faults)
              && wire.writeBlocks >= old(wire.writeBlocks) + Writable(ticks)
    ensures outcome == Failed ==>
              wire.faults > old(wire.faults) || (t > 0 && (ticks[t - 1].pollFails || ticks[t - 1].hangup))
  {
    hide Emitted;
    t := 0;
    EmittedValid(writer, wire, base, ms);
    while writer.HasPending() && t < |ticks|
      invariant writer.Valid() && Emitted(writer, wire, base, ms) && t <= |ticks|
      invariant writer.peak == old(writer.peak) && wire.faults == old(wire.faults)
      invariant writer.HasPending() ==> wire.writeBlocks >= old(wire.writeBlocks) + Writable(ticks[..t])
      decreases |ticks| - t
    {
      var tick := ticks[t];
      assert ticks[..t + 1][..t] == ticks[..t];
      t := t + 1;
      if tick.pollFails {
        return Failed, t;
      }
      if tick.writable {
        var ok := PushPending(writer, wire, base, ms);
        EmittedValid(writer, wire, base, ms);
        if !ok {
          return Failed, t;
        }
      }
      if tick.hangup {
        return Failed, t;
      }
    }
    assert ticks[..|ticks|] == ticks;
    outcome := if writer.HasPending() then Unfinished else Finished;
  }

  /**
   What the host makes of a completed run: read off the wire frame by frame and decoded, the
   bytes are exactly the transcript, so there is one response, it comes last, and every
   message carries the request's id.
   */
  lemma HostReadsTranscript(ms: seq<Message>, delivered: seq<Payload>, k: nat)
    requires AllOk(ms) && AllSmall(delivered) && EncodeFrames(delivered) == EncodeFrames(Payloads(ms)) && k < |ms|
    ensures |delivered| == |ms|
    ensures var r := Decode(delivered[k], 0); r.Ok? && FromValue(r.value.item) == Some(ms[k])
  {
    FramesDetermined(Payloads(ms), delivered);
    MessageRoundTrip(ms[k], []);
    assert Payloads(ms)[k] == EncodeMessage(ms[k]);
    hide *;
    assert EncodeMessage(ms[k]) + [] == delivered[k];
  }

  lemma FramesDetermined(ps: seq<Payload>, qs: seq<Payload>)
    requires AllSmall(ps) && AllSmall(qs) && EncodeFrames(qs) == EncodeFrames(ps)
    ensures ps == qs
  {
    assert EncodeFrames(qs) + [] + [] == EncodeFrames(ps);
    DeliveredInOrder(ps, qs, [], []);
  }
}
