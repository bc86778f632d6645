/** Records reach the log in the order of their emission, as far as the writer keeps their order. */
module EmissionOrder {
  import opened Common
  import opened AuditSpec
  import opened Broker
  import opened Accounting

  // ---- from the emission to the writer --------------------------------------------------

  /** The record that step `st` hands to the writer. */
  function ReceivedBy(s: State, st: Step): Option<FetchEvent>
    requires Enabled(s, st)
  {
    if st.AuditTask? && st.step.Recv? then Some(s.audit.channel[0]) else None
  }

  /** The record that step `st` puts into the channel, which an open channel with room accepts. */
  function QueuedBy(s: State, st: Step): Option<FetchEvent>
    requires Enabled(s, st)
  {
    if s.audit.open && |s.audit.channel| < CHANNEL_CAP then EmittedBy(s, st) else None
  }

  function Received(ss: seq<State>, sts: seq<Step>, i: nat): seq<FetchEvent>
    requires Run(ss, sts) && i <= |sts|
  {
    if i == 0 then []
    else
      assert StepAt(ss, sts, i - 1);
      var e := ReceivedBy(ss[i - 1], sts[i - 1]);
      if e.Some? then Received(ss, sts, i - 1) + [e.value] else Received(ss, sts, i - 1)
  }

  /** The emitted records that were neither dropped nor discarded at the front door, in the order of their emission. */
  function Queued(ss: seq<State>, sts: seq<Step>, i: nat): seq<FetchEvent>
    requires Run(ss, sts) && i <= |sts|
  {
    if i == 0 then []
    else
      assert StepAt(ss, sts, i - 1);
      var e := QueuedBy(ss[i - 1], sts[i - 1]);
      if e.Some? then Queued(ss, sts, i - 1) + [e.value] else Queued(ss, sts, i - 1)
  }

  function Append(es: seq<FetchEvent>, e: Option<FetchEvent>): seq<FetchEvent> {
    if e.Some? then es + [e.value] else es
  }

  /** What has been received and what waits in the channel are together what was queued. */
  ghost predicate Fifo(p: Pipeline<FetchEvent>, received: seq<FetchEvent>, queued: seq<FetchEvent>) {
    received <= queued && (p.open ==> received + p.channel == queued)
  }

  lemma StepKeepsFifo(s: State, st: Step, received: seq<FetchEvent>, queued: seq<FetchEvent>)
    requires Enabled(s, st) && Fifo(s.audit, received, queued)
    ensures Fifo(Apply(s, st).audit, Append(received, ReceivedBy(s, st)), Append(queued, QueuedBy(s, st)))
  {
    AuditEffect(s, st);
    if EmittedBy(s, st).Some? {
      FifoRecord(s.audit, EmittedBy(s, st).value, received, queued);
    } else if st.AuditTask? {
      FifoWrite(s.audit, st.step, received, queued);
    }
  }

  lemma FifoRecord(p: Pipeline<FetchEvent>, e: FetchEvent, received: seq<FetchEvent>, queued: seq<FetchEvent>)
    requires Fifo(p, received, queued)
    ensures Fifo(Record(p, e), received, if p.open && |p.channel| < CHANNEL_CAP then queued + [e] else queued)
  {
  }

  lemma FifoWrite(p: Pipeline<FetchEvent>, w: WriterStep, received: seq<FetchEvent>, queued: seq<FetchEvent>)
    requires Fifo(p, received, queued) && CanWrite(p, w)
    ensures Fifo(RunWriter(p, w), if w.Recv? then received + [p.channel[0]] else received, queued)
  {
    if w.Recv? {
      assert p.channel == [p.channel[0]] + p.channel[1..];
      assert received + p.channel == (received + [p.channel[0]]) + p.channel[1..];
    }
  }

  /** First in, first out: in every run, as sequences, the records received by the writer followed by those in the
      channel are the queued ones, until the writer is gone; and always a prefix of them has been received. */
  lemma {:induction false} FifoDelivery(ss: seq<State>, sts: seq<Step>, i: nat)
    requires Run(ss, sts) && i <= |sts|
    ensures Fifo(ss[i].audit, Received(ss, sts, i), Queued(ss, sts, i))
  {
    if i > 0 {
      FifoDelivery(ss, sts, i - 1);
      assert StepAt(ss, sts, i - 1);
      StepKeepsFifo(ss[i - 1], sts[i - 1], Received(ss, sts, i - 1), Queued(ss, sts, i - 1));
    }
  }

  predicate Numbers(item: Item<FetchEvent>, received: seq<FetchEvent>) {
    item.seqNo < |received| && item.event == received[item.seqNo]
  }

  /** Receive numbers are positions among the received records. */
  ghost predicate Numbered(w: Writer<FetchEvent>, received: seq<FetchEvent>) {
    && w.received == |received|
    && (forall x :: 0 <= x < |w.log| ==> Numbers(w.log[x].item, received))
    && (forall x :: 0 <= x < |w.degraded| ==> Numbers(w.degraded[x], received))
    && (forall x :: 0 <= x < |w.evicted| ==> Numbers(w.evicted[x], received))
    && (!w.phase.Idle? ==> Numbers(w.phase.item, received))
  }

  lemma WriterKeepsNumbers(p: Pipeline<FetchEvent>, w: WriterStep, received: seq<FetchEvent>)
    requires CanWrite(p, w) && Numbered(p.writer, received)
    ensures Numbered(RunWriter(p, w).writer, if w.Recv? then received + [p.channel[0]] else received)
  {
  }

  lemma {:induction false} RunNumbers(ss: seq<State>, sts: seq<Step>, i: nat)
    requires Run(ss, sts) && i <= |sts|
    ensures Numbered(ss[i].audit.writer, Received(ss, sts, i))
  {
    if i > 0 {
      RunNumbers(ss, sts, i - 1);
      assert StepAt(ss, sts, i - 1);
      AuditEffect(ss[i - 1], sts[i - 1]);
      if sts[i - 1].AuditTask? {
        WriterKeepsNumbers(ss[i - 1].audit, sts[i - 1].step, Received(ss, sts, i - 1));
      }
    }
  }

  lemma {:induction false} QueuedHasStep(ss: seq<State>, sts: seq<Step>, i: nat, x: nat) returns (k: nat)
    requires Run(ss, sts) && i <= |sts| && x < |Queued(ss, sts, i)|
    ensures k < i && sts[k] == Emit(Queued(ss, sts, i)[x].get)
    ensures |Queued(ss, sts, k)| == x && |Queued(ss, sts, k + 1)| == x + 1
  {
    if x < |Queued(ss, sts, i - 1)| {
      k := QueuedHasStep(ss, sts, i - 1, x);
    } else {
      k := i - 1;
    }
  }

  lemma {:induction false} QueuedGrows(ss: seq<State>, sts: seq<Step>, i: nat, j: nat)
    requires Run(ss, sts) && i <= j <= |sts|
    ensures |Queued(ss, sts, i)| <= |Queued(ss, sts, j)|
    decreases j
  {
    if i < j {
      QueuedGrows(ss, sts, i, j - 1);
    }
  }

  /** Of two log lines that were both written directly, or both out of the retry buffer, the earlier one's record was
      emitted first: at the step that is the only emission of its get. */
  lemma LogInEmissionOrder(ss: seq<State>, sts: seq<Step>, i: nat, x: nat, y: nat) returns (j: nat, k: nat)
    requires Run(ss, sts) && i <= |sts| && x < y < |ss[i].audit.writer.log|
    requires ss[i].audit.writer.log[x].retried == ss[i].audit.writer.log[y].retried
    ensures j < k < i
    ensures sts[j] == Emit(ss[i].audit.writer.log[x].item.event.get)
    ensures sts[k] == Emit(ss[i].audit.writer.log[y].item.event.get)
  {
    var a, b := ss[i].audit.writer.log[x].item, ss[i].audit.writer.log[y].item;
    EndToEndAccounting(ss, sts, i);
    FifoDelivery(ss, sts, i);
    RunNumbers(ss, sts, i);
    assert Numbers(a, Received(ss, sts, i)) && Numbers(b, Received(ss, sts, i));
    j := QueuedHasStep(ss, sts, i, a.seqNo);
    k := QueuedHasStep(ss, sts, i, b.seqNo);
    if k <= j { QueuedGrows(ss, sts, k, j); }
  }

  // ---- the whole log -----------------------------------------------------------------------

  predicate EmitsAt(sts: seq<Step>, j: int, e: FetchEvent) { 0 <= j < |sts| && sts[j] == Emit(e.get) }

  /** The record of the one line was emitted before that of the other. */
  ghost predicate EmittedBefore(sts: seq<Step>, a: Line<FetchEvent>, b: Line<FetchEvent>) {
    forall j, k :: EmitsAt(sts, j, a.item.event) && EmitsAt(sts, k, b.item.event) ==> j < k
  }

  /** The log lists its records in the order of their emission. */
  ghost predicate InEmissionOrder(sts: seq<Step>, log: seq<Line<FetchEvent>>) {
    forall x, y :: 0 <= x < y < |log| ==> EmittedBefore(sts, log[x], log[y])
  }

  /** The one step that emitted a logged record; its place among the queued records is the receive number. */
  lemma LineEmission(ss: seq<State>, sts: seq<Step>, i: nat, x: nat) returns (j: nat)
    requires Run(ss, sts) && i <= |sts| && x < |ss[i].audit.writer.log|
    ensures var item := ss[i].audit.writer.log[x].item;
            && j < i && |Queued(ss, sts, j)| == item.seqNo && |Queued(ss, sts, j + 1)| == item.seqNo + 1
            && forall k :: EmitsAt(sts, k, item.event) <==> k == j
  {
    var item := ss[i].audit.writer.log[x].item;
    FifoDelivery(ss, sts, i);
    RunNumbers(ss, sts, i);
    assert Numbers(item, Received(ss, sts, i));
    j := QueuedHasStep(ss, sts, i, item.seqNo);
    forall k | EmitsAt(sts, k, item.event) ensures k == j {
      if k < j { EmitOnce(ss, sts, k, j, item.event.get); }
      if j < k { EmitOnce(ss, sts, j, k, item.event.get); }
    }
  }

  lemma EmissionIff(ss: seq<State>, sts: seq<Step>, i: nat, x: nat, y: nat)
    requires Run(ss, sts) && i <= |sts| && x < |ss[i].audit.writer.log| && y < |ss[i].audit.writer.log|
    ensures var log := ss[i].audit.writer.log;
            log[x].item.seqNo < log[y].item.seqNo <==> EmittedBefore(sts, log[x], log[y])
  {
    var log := ss[i].audit.writer.log;
    var j := LineEmission(ss, sts, i, x);
    var k := LineEmission(ss, sts, i, y);
    assert EmitsAt(sts, j, log[x].item.event) && EmitsAt(sts, k, log[y].item.event);
    if j < k { QueuedGrows(ss, sts, j + 1, k); } else { QueuedGrows(ss, sts, k, j); }
  }

  lemma AscendingIff(ss: seq<State>, sts: seq<Step>, i: nat)
    requires Run(ss, sts) && i <= |sts|
    ensures Ascending(Items(ss[i].audit.writer.log)) <==> InEmissionOrder(sts, ss[i].audit.writer.log)
  {
    var log := ss[i].audit.writer.log;
    forall x, y | 0 <= x < y < |log|
      ensures Items(log)[x].seqNo < Items(log)[y].seqNo <==> EmittedBefore(sts, log[x], log[y])
    {
      EmissionIff(ss, sts, i, x, y);
    }
  }

  // ---- the writer's part of a run ---------------------------------------------------------------

  predicate MovesWriter(st: Step) { st.AuditTask? && !st.step.Gone? }

  /** The step, taken in `s`, is move `m` of the writer, made in its state `w`. */
  predicate IsMove(s: State, st: Step, w: Writer<FetchEvent>, m: Move<FetchEvent>) {
    && MovesWriter(st) && w == s.audit.writer
    && (if st.step.Recv? then s.audit.channel != [] && m == Arrive(s.audit.channel[0]) else m == Write(st.step.ok))
  }

  /** The moves of the writer in the first `i` steps, made at the steps `at`, are a run of the writer machine. */
  ghost predicate Projects(ss: seq<State>, sts: seq<Step>, i: nat, ws: seq<Writer<FetchEvent>>,
                           ms: seq<Move<FetchEvent>>, at: seq<nat>)
    requires i <= |sts| < |ss|
  {
    && WriterRun(ws, ms) && |at| == |ms|
    && (forall k :: 0 <= k < |at| ==> at[k] < i && IsMove(ss[at[k]], sts[at[k]], ws[k], ms[k]))
    && (forall k, l :: 0 <= k < l < |at| ==> at[k] < at[l])
    && (forall k: nat :: k < i && MovesWriter(sts[k]) ==> k in at)
    && ws[|ms|].log == ss[i].audit.writer.log
    && (ss[i].audit.open ==> ws[|ms|] == ss[i].audit.writer)
  }

  /** What a step of a run does to the writer. */
  lemma MoveAt(ss: seq<State>, sts: seq<Step>, i: nat) returns (m: Move<FetchEvent>)
    requires Run(ss, sts) && i < |sts| && MovesWriter(sts[i])
    ensures IsMove(ss[i], sts[i], ss[i].audit.writer, m) && ss[i].audit.open && ss[i + 1].audit.open
    ensures CanMove(ss[i].audit.writer, m) && ss[i + 1].audit.writer == AuditSpec.Step(ss[i].audit.writer, m)
  {
    assert StepAt(ss, sts, i);
    AuditEffect(ss[i], sts[i]);
    m := if sts[i].step.Recv? then Arrive(ss[i].audit.channel[0]) else Write(sts[i].step.ok);
  }

  lemma NoMoveAt(ss: seq<State>, sts: seq<Step>, i: nat)
    requires Run(ss, sts) && i < |sts| && !MovesWriter(sts[i])
    ensures ss[i + 1].audit.writer.log == ss[i].audit.writer.log
    ensures ss[i + 1].audit.open ==> ss[i].audit.open && ss[i + 1].audit.writer == ss[i].audit.writer
  {
    assert StepAt(ss, sts, i);
    AuditEffect(ss[i], sts[i]);
  }

  lemma {:induction false} Projection(ss: seq<State>, sts: seq<Step>, i: nat)
    returns (ws: seq<Writer<FetchEvent>>, ms: seq<Move<FetchEvent>>, at: seq<nat>)
    requires Run(ss, sts) && i <= |sts|
    ensures Projects(ss, sts, i, ws, ms, at)
  {
    if i == 0 {
      ws, ms, at := [NewWriter()], [], [];
    } else {
      ws, ms, at := Projection(ss, sts, i - 1);
      if MovesWriter(sts[i - 1]) {
        ws, ms, at := ExtendProjection(ss, sts, i - 1, ws, ms, at);
      } else {
        NoMoveAt(ss, sts, i - 1);
      }
    }
  }

  lemma ExtendProjection(ss: seq<State>, sts: seq<Step>, i: nat, ws: seq<Writer<FetchEvent>>, ms: seq<Move<FetchEvent>>,
                         at: seq<nat>)
    returns (ws': seq<Writer<FetchEvent>>, ms': seq<Move<FetchEvent>>, at': seq<nat>)
    requires Run(ss, sts) && i < |sts| && Projects(ss, sts, i, ws, ms, at) && MovesWriter(sts[i])
    ensures Projects(ss, sts, i + 1, ws', ms', at')
  {
    var m := MoveAt(ss, sts, i);
    ws', ms' := ExtendWriterRun(ws, ms, m);
    at' := at + [i];
    forall k: nat | k < i + 1 && MovesWriter(sts[k]) ensures k in at' {
      if k < i { assert k in at; } else { assert at'[|at|] == k; }
    }
  }

  /** Step `j` logs a record past a non-empty retry buffer, and the later step `k` logs one out of the buffer that was
      received before it. */
  ghost predicate Swaps(ss: seq<State>, sts: seq<Step>, j: nat, k: nat)
    requires |sts| < |ss|
  {
    && j < k < |sts| && sts[j] == AuditTask(TryWrite(true)) == sts[k]
    && var w, w' := ss[j].audit.writer, ss[k].audit.writer;
    && w.phase.Fresh? && w.degraded != []
    && w'.phase.Retry? && w'.degraded != [] && w'.degraded[0].seqNo < w.phase.item.seqNo
  }

  lemma InversionSwaps(ss: seq<State>, sts: seq<Step>, i: nat, ws: seq<Writer<FetchEvent>>, ms: seq<Move<FetchEvent>>,
                       at: seq<nat>, a: nat, b: nat)
    requires i <= |sts| < |ss| && Projects(ss, sts, i, ws, ms, at) && Inverts(ws, ms, a, b)
    ensures at[b] < i && Swaps(ss, sts, at[a], at[b])
  {
    assert IsMove(ss[at[a]], sts[at[a]], ws[a], ms[a]);
    assert IsMove(ss[at[b]], sts[at[b]], ws[b], ms[b]);
  }

  lemma SwapInverts(ss: seq<State>, sts: seq<Step>, i: nat, ws: seq<Writer<FetchEvent>>, ms: seq<Move<FetchEvent>>,
                    at: seq<nat>, j: nat, k: nat)
    returns (a: nat, b: nat)
    requires i <= |sts| < |ss| && Projects(ss, sts, i, ws, ms, at) && k < i && Swaps(ss, sts, j, k)
    ensures Inverts(ws, ms, a, b)
  {
    a :| a < |at| && at[a] == j;
    b :| b < |at| && at[b] == k;
    assert a != b && !(b < a);
    assert IsMove(ss[at[a]], sts[at[a]], ws[a], ms[a]);
    assert IsMove(ss[at[b]], sts[at[b]], ws[b], ms[b]);
  }

  /** In every run of the broker and at every point: the log file lists its records in the order in which they were
      emitted if and only if no record that a fresh write overtook has been flushed out of the retry buffer later. */
  lemma LogInEmissionOrderIff(ss: seq<State>, sts: seq<Step>, i: nat)
    requires Run(ss, sts) && i <= |sts|
    ensures InEmissionOrder(sts, ss[i].audit.writer.log) <==> forall j: nat, k: nat :: k < i ==> !Swaps(ss, sts, j, k)
  {
    var ws, ms, at := Projection(ss, sts, i);
    FinalLogInOrderIff(ws, ms);
    AscendingIff(ss, sts, i);
    if a: nat, b: nat :| Inverts(ws, ms, a, b) {
      InversionSwaps(ss, sts, i, ws, ms, at, a, b);
    }
    if j: nat, k: nat :| k < i && Swaps(ss, sts, j, k) {
      var a, b := SwapInverts(ss, sts, i, ws, ms, at, j, k);
    }
  }
}
