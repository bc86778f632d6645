/** Every response has exactly one audit record, and every record is accounted for. */
module Accounting {
  import opened Common
  import opened AuditSpec
  import opened Broker
  import opened Effects
  import opened Provenance
  import opened Allowlist
  import opened Registration

  // ---- one record per response --------------------------------------------------

  /** The backend has answered get `g` before step `i`. */
  ghost predicate Answered(sts: seq<Step>, g: nat, i: nat) {
    exists k: nat :: k < i && AnswersGet(sts, k, g)
  }

  predicate AnswersGet(sts: seq<Step>, k: nat, g: nat) { k < |sts| && sts[k].Answer? && sts[k].get == g }

  /** The get is past the backend's answer. */
  predicate PastAnswer(pc: Pc) {
    pc.Fetched? || pc.Inserted? || (VerdictOf(pc).Some? && VerdictOf(pc).value.backend == Some(FromBackend))
  }

  /** A get that was not aborted is past the backend's answer exactly if there was one. In particular its record
      names the backend exactly if the backend answered, be it with a failure. */
  lemma {:induction false} PastAnswerIff(ss: seq<State>, sts: seq<Step>, i: nat, g: nat)
    requires Run(ss, sts) && i < |ss|
    ensures g in ss[i].gets ==> (PastAnswer(ss[i].gets[g].pc) <==> Answered(sts, g, i))
    ensures g !in ss[i].gets ==> !Answered(sts, g, i)
  {
    if i > 0 {
      PastAnswerIff(ss, sts, i - 1, g);
      PersistAt(ss, sts, i - 1);
      EnabledAt(ss, sts, i - 1);
      assert AnswersGet(sts, i - 1, g) ==> StepsGet(sts[i - 1], g);
      if g in ss[i].gets {
        GetAt(ss, sts, i - 1, g);
      }
      assert Answered(sts, g, i) <==> Answered(sts, g, i - 1) || AnswersGet(sts, i - 1, g);
    }
  }

  /** The fields of the record that a verdict leads to, and its response, tell the same story. */
  lemma VerdictMatches(ss: seq<State>, sts: seq<Step>, i: nat, g: nat)
    requires Run(ss, sts) && i < |ss| && g in ss[i].gets && VerdictOf(ss[i].gets[g].pc).Some?
    ensures var v := VerdictOf(ss[i].gets[g].pc).value;
            && (v.backend == Some(FromBackend) <==> Answered(sts, g, i))
            && forall project, name ::
                 Describes(FetchEvent(g, project, name, v.decision, v.outcome, v.backend, v.reason),
                           g, project, name, v.response, Answered(sts, g, i))
  {
    var j := VerdictOrigin(ss, sts, i, g);
    PastAnswerIff(ss, sts, i, g);
  }

  /** An abort strikes only while the backend is awaited, and is the end of the get: it takes no further step, so it
      is never recorded, answered or cached. */
  lemma AbortedIsFinal(ss: seq<State>, sts: seq<Step>, k: nat, g: nat, m: nat)
    requires Run(ss, sts) && k < |sts| && sts[k] == Abort(g) && m < |sts|
    ensures g in ss[k].gets && ss[k].gets[g].pc.Awaiting?
    ensures k < m ==> !StepsGet(sts[m], g)
    ensures sts[m] != Emit(g) && sts[m] != Respond(g) && !(sts[m].Store? && sts[m].get == g)
  {
    EnabledAt(ss, sts, k);
    if k < m {
      AfterAbort(ss, sts, k, g, m);
    } else if m < k {
      BeforeAbort(ss, sts, k, g, m);
    }
  }

  lemma AfterAbort(ss: seq<State>, sts: seq<Step>, k: nat, g: nat, m: nat)
    requires Run(ss, sts) && k < m < |sts| && sts[k] == Abort(g) && g in ss[k].gets
    ensures !StepsGet(sts[m], g)
  {
    PersistAt(ss, sts, k);
    GetAt(ss, sts, k, g);
    StaysAborted(ss, sts, g, k + 1, m);
    EnabledAt(ss, sts, m);
  }

  lemma BeforeAbort(ss: seq<State>, sts: seq<Step>, k: nat, g: nat, m: nat)
    requires Run(ss, sts) && m < k < |sts| && g in ss[k].gets && ss[k].gets[g].pc.Awaiting?
    ensures sts[m] != Emit(g) && sts[m] != Respond(g) && !(sts[m].Store? && sts[m].get == g)
  {
    if sts[m] == Emit(g) || sts[m] == Respond(g) || (sts[m].Store? && sts[m].get == g) {
      EnabledAt(ss, sts, m);
      PersistAt(ss, sts, m);
      GetAt(ss, sts, m, g);
      StaysPastAwait(ss, sts, g, m + 1, k);
    }
  }

  lemma {:induction false} StaysAborted(ss: seq<State>, sts: seq<Step>, g: nat, i: nat, j: nat)
    requires Run(ss, sts) && i <= j < |ss| && g in ss[i].gets && ss[i].gets[g].pc.Aborted?
    ensures g in ss[j].gets && ss[j].gets[g].pc.Aborted?
    decreases j
  {
    if i < j {
      StaysAborted(ss, sts, g, i, j - 1);
      PersistAt(ss, sts, j - 1);
      GetAt(ss, sts, j - 1, g);
    }
  }

  lemma {:induction false} StaysPastAwait(ss: seq<State>, sts: seq<Step>, g: nat, i: nat, j: nat)
    requires Run(ss, sts) && i <= j < |ss| && g in ss[i].gets
    requires ss[i].gets[g].pc.Inserted? || VerdictOf(ss[i].gets[g].pc).Some?
    ensures g in ss[j].gets && (ss[j].gets[g].pc.Inserted? || VerdictOf(ss[j].gets[g].pc).Some?)
    decreases j
  {
    if i < j {
      StaysPastAwait(ss, sts, g, i, j - 1);
      PersistAt(ss, sts, j - 1);
      GetAt(ss, sts, j - 1, g);
    }
  }

  predicate HasEmitted(pc: Pc) { pc.Responding? || pc.Done? }

  lemma {:induction false} EmitOrigin(ss: seq<State>, sts: seq<Step>, i: nat, g: nat) returns (j: nat)
    requires Run(ss, sts) && i < |ss| && g in ss[i].gets && HasEmitted(ss[i].gets[g].pc)
    ensures j < i && sts[j] == Emit(g) && g in ss[j].gets && ss[j].gets[g].pc == Emitting(ss[i].gets[g].pc.verdict)
  {
    assert i > 0;
    GetAt(ss, sts, i - 1, g);
    if g in ss[i - 1].gets && HasEmitted(ss[i - 1].gets[g].pc) {
      j := EmitOrigin(ss, sts, i - 1, g);
    } else {
      j := i - 1;
    }
  }

  lemma {:induction false} StaysEmitted(ss: seq<State>, sts: seq<Step>, g: nat, i: nat, j: nat)
    requires Run(ss, sts) && i <= j < |ss| && g in ss[i].gets && HasEmitted(ss[i].gets[g].pc)
    ensures g in ss[j].gets && HasEmitted(ss[j].gets[g].pc) && ss[j].gets[g].pc.verdict == ss[i].gets[g].pc.verdict
    decreases j
  {
    if i < j {
      StaysEmitted(ss, sts, g, i, j - 1);
      PersistAt(ss, sts, j - 1);
      GetAt(ss, sts, j - 1, g);
    }
  }

  lemma EmitOnce(ss: seq<State>, sts: seq<Step>, j: nat, k: nat, g: nat)
    requires Run(ss, sts) && j < k < |sts| && sts[j] == Emit(g)
    ensures sts[k] != Emit(g)
  {
    assert StepAt(ss, sts, j);
    PersistAt(ss, sts, j);
    GetAt(ss, sts, j, g);
    StaysEmitted(ss, sts, g, j + 1, k);
    EnabledAt(ss, sts, k);
  }

  /** A get that has responded emitted exactly one record, at step `j` before responding: record `e`, which names the
      get's project as it was registered, the secret asked for at the get's beginning `b`, and the decision,
      outcome, backend and reason that its response calls for. */
  lemma OneRecordPerResponse(ss: seq<State>, sts: seq<Step>, i: nat, g: nat) returns (b: nat, j: nat, e: FetchEvent)
    requires Run(ss, sts) && i < |ss| && g in ss[i].gets && ss[i].gets[g].pc.Done?
    ensures b < j < i && sts[b].Begin? && sts[b].get == g && sts[j] == Emit(g)
    ensures forall k :: 0 <= k < |sts| && sts[k] == Emit(g) ==> k == j
    ensures Emitted(ss, sts, j + 1) == Emitted(ss, sts, j) + [e]
    ensures sts[b].inc in ss[b].projects
    ensures Describes(e, g, ss[b].projects[sts[b].inc].name, sts[b].name, ss[i].gets[g].pc.verdict.response,
                      Answered(sts, g, i))
    ensures exists r: nat :: r < b && Registers(ss[r], sts[r], e.project) && sts[r].inc == sts[b].inc
  {
    j := EmitOrigin(ss, sts, i, g);
    b := BeginOrigin(ss, sts, j, g);
    VerdictMatches(ss, sts, i, g);
    forall k | 0 <= k < |sts| && sts[k] == Emit(g) ensures k == j {
      if k < j { EmitOnce(ss, sts, k, j, g); }
      if j < k { EmitOnce(ss, sts, j, k, g); }
    }
    e := EmittedAt(ss, sts, j, g);
    BeginAt(ss, sts, b);
    KeepsName(ss, sts, sts[b].inc, b, j);
    var r := IncarnationOrigin(ss, sts, b, sts[b].inc);
  }

  lemma EmittedAt(ss: seq<State>, sts: seq<Step>, j: nat, g: nat) returns (e: FetchEvent)
    requires Run(ss, sts) && j < |sts| && sts[j] == Emit(g)
    ensures g in ss[j].gets && ss[j].gets[g].pc.Emitting? && ss[j].gets[g].inc in ss[j].projects
    ensures Emitted(ss, sts, j + 1) == Emitted(ss, sts, j) + [e]
    ensures var call, v := ss[j].gets[g], ss[j].gets[g].pc.verdict;
            e == FetchEvent(g, ss[j].projects[call.inc].name, call.name, v.decision, v.outcome, v.backend, v.reason)
  {
    EnabledAt(ss, sts, j);
    e := EmittedBy(ss[j], sts[j]).value;
  }

  lemma {:induction false} KeepsName(ss: seq<State>, sts: seq<Step>, inc: nat, i: nat, j: nat)
    requires Run(ss, sts) && i <= j < |ss| && inc in ss[i].projects
    ensures inc in ss[j].projects && ss[j].projects[inc].name == ss[i].projects[inc].name
    decreases j
  {
    if i < j {
      KeepsName(ss, sts, inc, i, j - 1);
      NameAt(ss, sts, j - 1, inc);
    }
  }

  // ---- every record accounted for --------------------------------------------------

  /** The record that step `k` emits. */
  function EmittedBy(s: State, st: Step): Option<FetchEvent>
    requires Enabled(s, st)
  {
    if st.Emit?
    then Some(EventOf(st.get, s.projects[s.gets[st.get].inc].name, s.gets[st.get].name, s.gets[st.get].pc.verdict))
    else None
  }

  /** The records emitted by the first `i` steps, in order. */
  function Emitted(ss: seq<State>, sts: seq<Step>, i: nat): seq<FetchEvent>
    requires Run(ss, sts) && i <= |sts|
  {
    if i == 0 then []
    else
      assert StepAt(ss, sts, i - 1);
      var e := EmittedBy(ss[i - 1], sts[i - 1]);
      if e.Some? then Emitted(ss, sts, i - 1) + [e.value] else Emitted(ss, sts, i - 1)
  }

  lemma AuditEffect(s: State, st: Step)
    requires Enabled(s, st)
    ensures EmittedBy(s, st).Some? ==> Apply(s, st).audit == Record(s.audit, EmittedBy(s, st).value)
    ensures st.AuditTask? ==> CanWrite(s.audit, st.step) && Apply(s, st).audit == RunWriter(s.audit, st.step)
    ensures EmittedBy(s, st).None? && !st.AuditTask? ==> Apply(s, st).audit == s.audit
  {
  }

  /** What the pipeline keeps besides the events: the counter is right and the bounds hold. */
  ghost predicate PipelineInv(p: Pipeline<FetchEvent>) {
    p.dropped == |p.droppedEvents| && |p.channel| <= CHANNEL_CAP && WriterInv(p.writer)
  }

  lemma WriterTaskKeeps(p: Pipeline<FetchEvent>, w: WriterStep)
    requires PipelineInv(p) && CanWrite(p, w)
    ensures PipelineInv(RunWriter(p, w))
  {
    match w
    case Recv => ReceiveKeepsInv(p.writer, p.channel[0]);
    case TryWrite(ok) => AttemptKeepsInv(p.writer, ok);
    case Gone => AbandonKeepsInv(p.writer);
  }

  lemma AbandonKeepsInv<E>(w: Writer<E>)
    requires WriterInv(w)
    ensures WriterInv(w.(phase := Idle))
  {
  }

  lemma RecordKeeps(p: Pipeline<FetchEvent>, e: FetchEvent)
    requires PipelineInv(p)
    ensures PipelineInv(Record(p, e))
  {
  }

  ghost function Single(e: Option<FetchEvent>): multiset<FetchEvent> {
    if e.Some? then multiset{e.value} else multiset{}
  }

  lemma StepAccounts(s: State, st: Step)
    requires Enabled(s, st) && PipelineInv(s.audit)
    ensures Accounted(Apply(s, st).audit) == Accounted(s.audit) + Single(EmittedBy(s, st))
    ensures PipelineInv(Apply(s, st).audit)
  {
    AuditEffect(s, st);
    if EmittedBy(s, st).Some? {
      RecordAccounts(s.audit, EmittedBy(s, st).value);
      RecordKeeps(s.audit, EmittedBy(s, st).value);
    } else if st.AuditTask? {
      RunWriterAccounts(s.audit, st.step);
      WriterTaskKeeps(s.audit, st.step);
    }
  }

  /** End-to-end accounting: at every reachable state the records emitted so far are, as a multiset, exactly
      the log lines, the degraded buffer, the evictions, the one being written, the channel, the counted
      channel drops and what a gone writer discarded. */
  lemma {:induction false} EndToEndAccounting(ss: seq<State>, sts: seq<Step>, i: nat)
    requires Run(ss, sts) && i <= |sts|
    ensures multiset(Emitted(ss, sts, i)) == Accounted(ss[i].audit)
    ensures PipelineInv(ss[i].audit)
  {
    if i == 0 {
      FreshPipeline();
    } else {
      EndToEndAccounting(ss, sts, i - 1);
      assert StepAt(ss, sts, i - 1);
      StepAccounts(ss[i - 1], sts[i - 1]);
      EmittedGrows(ss, sts, i);
    }
  }

  lemma EmittedGrows(ss: seq<State>, sts: seq<Step>, i: nat)
    requires Run(ss, sts) && 0 < i <= |sts|
    ensures Enabled(ss[i - 1], sts[i - 1])
    ensures multiset(Emitted(ss, sts, i))
         == multiset(Emitted(ss, sts, i - 1)) + Single(EmittedBy(ss[i - 1], sts[i - 1]))
  {
    EnabledAt(ss, sts, i - 1);
  }

  lemma FreshPipeline()
    ensures Accounted(NewPipeline<FetchEvent>()) == multiset{}
    ensures PipelineInv(NewPipeline<FetchEvent>())
  {
    NewPipelineAccounts<FetchEvent>();
    assert WriterInv(NewWriter<FetchEvent>());
  }

  // ---- no duplicates ------------------------------------------------------------------

  lemma {:induction false} EmittedHasStep(ss: seq<State>, sts: seq<Step>, i: nat, x: nat) returns (k: nat)
    requires Run(ss, sts) && i <= |sts| && x < |Emitted(ss, sts, i)|
    ensures k < i && sts[k] == Emit(Emitted(ss, sts, i)[x].get)
    ensures x < |Emitted(ss, sts, k + 1)| && |Emitted(ss, sts, k)| == x
  {
    if x < |Emitted(ss, sts, i - 1)| {
      k := EmittedHasStep(ss, sts, i - 1, x);
    } else {
      k := i - 1;
    }
  }

  lemma EmittedDistinct(ss: seq<State>, sts: seq<Step>, i: nat)
    requires Run(ss, sts) && i <= |sts|
    ensures Distinct(Emitted(ss, sts, i))
  {
    var es := Emitted(ss, sts, i);
    forall x, y | 0 <= x < y < |es| ensures es[x] != es[y] {
      EmittedOnce(ss, sts, i, x, y);
    }
  }

  lemma EmittedOnce(ss: seq<State>, sts: seq<Step>, i: nat, x: nat, y: nat)
    requires Run(ss, sts) && i <= |sts| && x < y < |Emitted(ss, sts, i)|
    ensures Emitted(ss, sts, i)[x].get != Emitted(ss, sts, i)[y].get
  {
    var j := EmittedHasStep(ss, sts, i, x);
    var k := EmittedHasStep(ss, sts, i, y);
    var g := Emitted(ss, sts, i)[x].get;
    if sts[k] == Emit(g) {
      if j < k { EmitOnce(ss, sts, j, k, g); }
      if k < j { EmitOnce(ss, sts, k, j, g); }
    }
  }

  lemma {:induction false} DistinctOnce<E>(s: seq<E>, e: E)
    requires Distinct(s)
    ensures multiset(s)[e] <= 1
  {
    if s != [] {
      var t := s[..|s| - 1];
      assert s == t + [s[|s| - 1]];
      DistinctOnce(t, e);
      if e == s[|s| - 1] { assert e !in t; }
    }
  }

  /** No record is in two places, or twice in one. */
  lemma NoDuplicates(ss: seq<State>, sts: seq<Step>, i: nat, e: FetchEvent)
    requires Run(ss, sts) && i <= |sts|
    ensures Accounted(ss[i].audit)[e] <= 1
  {
    EndToEndAccounting(ss, sts, i);
    EmittedDistinct(ss, sts, i);
    DistinctOnce(Emitted(ss, sts, i), e);
  }
}
