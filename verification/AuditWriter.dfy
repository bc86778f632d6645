/** `src/audit.rs`: the audit file, the producer handle and `writer_loop` as they run. */
module AuditTasks {
  import opened Common
  import opened AuditSpec

  // ---- the loop as a function of the disk's behaviour -------------------------

  /** Write until the event in hand is dealt with; attempt number `k` succeeds when `disk(k)`. */
  function Finish<E>(w: Writer<E>, disk: nat -> bool, a: nat): (Writer<E>, nat)
    decreases match w.phase case Idle => 0 case Fresh(_) => 1 case Retry(_) => 2 + |w.degraded|
  {
    if w.phase.Idle? then (w, a) else Finish(Attempt(w, disk(a)), disk, a + 1)
  }

  /** The writer after receiving `events`, and the number of write attempts it has made. */
  function WriteAll<E>(events: seq<E>, disk: nat -> bool, a: nat): (r: (Writer<E>, nat))
    ensures r.0.phase.Idle?
  {
    if events == [] then (NewWriter(), a)
    else
      var (w, b) := WriteAll(events[..|events| - 1], disk, a);
      FinishIsIdle(Receive(w, events[|events| - 1]), disk, b);
      Finish(Receive(w, events[|events| - 1]), disk, b)
  }

  lemma {:induction false} FinishIsIdle<E>(w: Writer<E>, disk: nat -> bool, a: nat)
    ensures Finish(w, disk, a).0.phase.Idle?
    decreases match w.phase case Idle => 0 case Fresh(_) => 1 case Retry(_) => 2 + |w.degraded|
  {
    if !w.phase.Idle? {
      FinishIsIdle(Attempt(w, disk(a)), disk, a + 1);
    }
  }

  // ---- the running code -----------------------------------------------------------

  /** Open-per-write log file; `disk` is the environment's verdict on each attempt. */
  class AuditFile<E> {
    const disk: nat -> bool
    var lines: seq<E>
    var attempts: nat

    constructor (disk: nat -> bool)
      ensures this.disk == disk && lines == [] && attempts == 0
    {
      this.disk := disk;
      lines := [];
      attempts := 0;
    }

    method WriteEvent(event: E) returns (ok: bool)
      modifies this
      ensures ok == disk(old(attempts)) && attempts == old(attempts) + 1
      ensures lines == if ok then old(lines) + [event] else old(lines)
    {
      ok := disk(attempts);
      attempts := attempts + 1;
      if ok {
        lines := lines + [event];
      }
    }
  }

  /** The producer handle: the shared channel and the dropped-event counter. */
  class AuditWriter<E> {
    var channel: seq<E>
    var open: bool
    var dropped: nat

    /** `record` does what the pipeline's front door does, and returns at once whatever the writer is doing. */
    method Record(event: E, ghost p: Pipeline<E>)
      requires channel == p.channel && open == p.open && dropped == p.dropped
      modifies this`channel, this`dropped
      ensures channel == AuditSpec.Record(p, event).channel
      ensures dropped == AuditSpec.Record(p, event).dropped
      ensures channel == if open && |old(channel)| < 1_000 then old(channel) + [event] else old(channel)
      ensures dropped == if open && |old(channel)| >= 1_000 then old(dropped) + 1 else old(dropped)
    {
      if open {
        if |channel| < CHANNEL_CAP {
          channel := channel + [event];
        } else {
          dropped := dropped + 1;
        }
      }
    }
  }

  /** The inner `while let` of the loop: retry from the front, stop at the first failure. */
  method DrainDegraded<E>(file: AuditFile<E>, buffered: seq<E>, ghost w: Writer<E>)
    returns (degraded: seq<E>, drained: nat, ghost w': Writer<E>)
    requires !w.phase.Idle? && w.phase == AtWrite(w.phase.item, w.degraded)
    requires buffered == Events(w.degraded)
    modifies file
    ensures w'.phase == Fresh(w.phase.item) && degraded == Events(w'.degraded)
    ensures Finish(w', file.disk, file.attempts) == Finish(w, file.disk, old(file.attempts))
    ensures |w'.log| == |w.log| + drained && w.log <= w'.log
    ensures file.lines == old(file.lines) + Events(Items(w'.log[|w.log|..]))
    ensures w'.received == w.received && w'.evicted == w.evicted
  {
    degraded, drained, w' := buffered, 0, w;
    while degraded != []
      invariant w'.phase == AtWrite(w.phase.item, w'.degraded)
      invariant degraded == Events(w'.degraded)
      invariant Finish(w', file.disk, file.attempts) == Finish(w, file.disk, old(file.attempts))
      invariant |w'.log| == |w.log| + drained && w.log <= w'.log
      invariant file.lines == old(file.lines) + Events(Items(w'.log[|w.log|..]))
      invariant w'.received == w.received && w'.evicted == w.evicted
      decreases |degraded|
    {
      var ok := file.WriteEvent(degraded[0]);
      ghost var next := Attempt(w', ok);
      if !ok {
        w' := next;
        return;
      }
      assert next.log[|w.log|..] == w'.log[|w.log|..] + [Line(w'.degraded[0], true)];
      LogAppendEvents(w'.log[|w.log|..], Line(w'.degraded[0], true));
      degraded, drained, w' := degraded[1..], drained + 1, next;
    }
  }

  /** One pass of the loop body: retry the buffer, then write the event or buffer it. */
  method HandleEvent<E>(file: AuditFile<E>, buffered: seq<E>, event: E, ghost w: Writer<E>)
    returns (degraded: seq<E>, wrote: nat, ghost w': Writer<E>)
    requires w.phase.Idle? && buffered == Events(w.degraded)
    modifies file
    ensures (w', file.attempts) == Finish(Receive(w, event), file.disk, old(file.attempts))
    ensures degraded == Events(w'.degraded)
    ensures |w'.log| == |w.log| + wrote && w.log <= w'.log
    ensures file.lines == old(file.lines) + Events(Items(w'.log[|w.log|..]))
  {
    ghost var mid;
    degraded, wrote, mid := DrainDegraded(file, buffered, Receive(w, event));
    var ok := file.WriteEvent(event);
    w' := Attempt(mid, ok);
    FinishAttempt(mid, file.disk, file.attempts - 1);
    if ok {
      wrote := wrote + 1;
      assert w'.log[|w.log|..] == mid.log[|w.log|..] + [Line(mid.phase.item, false)];
      LogAppendEvents(mid.log[|w.log|..], Line(mid.phase.item, false));
    } else {
      EventsOfBuffer(mid.degraded, mid.phase.item);
      if |degraded| == DEGRADED_BUFFER_CAP {
        degraded := degraded[1..];
      }
      degraded := degraded + [event];
    }
  }

  /** `writer_loop` over everything `recv` delivers before the channel closes: the log file, the
      buffer left over and the tally are those of the machine, for every behaviour of the disk. */
  method WriterLoop<E>(file: AuditFile<E>, events: seq<E>) returns (written: nat, degraded: seq<E>)
    modifies file
    ensures var (w, a) := WriteAll(events, file.disk, old(file.attempts));
            && file.lines == old(file.lines) + Events(Items(w.log))
            && degraded == Events(w.degraded)
            && written == |w.log|
            && file.attempts == a
  {
    degraded, written := [], 0;
    ghost var w: Writer<E> := NewWriter();
    for i := 0 to |events|
      invariant (w, file.attempts) == WriteAll(events[..i], file.disk, old(file.attempts))
      invariant degraded == Events(w.degraded) && written == |w.log|
      invariant file.lines == old(file.lines) + Events(Items(w.log))
    {
      assert events[..i + 1][..i] == events[..i];
      var wrote;
      ghost var w0 := w;
      degraded, wrote, w := HandleEvent(file, degraded, events[i], w0);
      LogSplit(w0.log, w.log);
      written := written + wrote;
    }
    assert events[..|events|] == events;
  }

  lemma FinishAttempt<E>(w: Writer<E>, disk: nat -> bool, a: nat)
    requires w.phase.Fresh?
    ensures Finish(w, disk, a) == (Attempt(w, disk(a)), a + 1)
  {
  }

  lemma LogSplit<E>(a: seq<Line<E>>, b: seq<Line<E>>)
    requires a <= b
    ensures Events(Items(b)) == Events(Items(a)) + Events(Items(b[|a|..]))
  {
  }

  lemma EventsOfBuffer<E>(degraded: seq<Item<E>>, item: Item<E>)
    ensures Events(degraded + [item]) == Events(degraded) + [item.event]
    ensures degraded != [] ==> Events(degraded[1..] + [item]) == Events(degraded)[1..] + [item.event]
  {
  }

  // ---- the loop is a run of the machine -----------------------------------------------

  lemma {:induction false} FinishIsRun<E(!new)>(ws: seq<Writer<E>>, ms: seq<Move<E>>, disk: nat -> bool, a: nat)
    returns (ws': seq<Writer<E>>, ms': seq<Move<E>>)
    requires WriterRun(ws, ms)
    ensures WriterRun(ws', ms') && ws <= ws' && ms <= ms'
    ensures ws'[|ws'| - 1] == Finish(ws[|ws| - 1], disk, a).0
    ensures Arrived(ms', |ms'|) == Arrived(ms, |ms|)
    decreases match ws[|ws| - 1].phase case Idle => 0 case Fresh(_) => 1 case Retry(_) => 2 + |ws[|ws| - 1].degraded|
  {
    ws', ms' := ws, ms;
    var w := ws[|ws| - 1];
    if !w.phase.Idle? {
      var ws1, ms1 := ws + [Attempt(w, disk(a))], ms + [Write(disk(a))];
      ArrivedPrefix(ms, ms1, |ms|);
      ws', ms' := FinishIsRun(ws1, ms1, disk, a + 1);
    }
  }

  lemma {:induction false} ArrivedPrefix<E>(ms: seq<Move<E>>, ms': seq<Move<E>>, i: nat)
    requires ms <= ms' && i <= |ms|
    ensures Arrived(ms, i) == Arrived(ms', i)
  {
    if i > 0 {
      ArrivedPrefix(ms, ms', i - 1);
    }
  }

  /** So every theorem about runs of the writer holds of the loop. */
  lemma {:induction false} LoopIsRun<E(!new)>(events: seq<E>, disk: nat -> bool, a: nat)
    returns (ws: seq<Writer<E>>, ms: seq<Move<E>>)
    ensures WriterRun(ws, ms) && ws[|ws| - 1] == WriteAll(events, disk, a).0
    ensures Arrived(ms, |ms|) == events
  {
    if events == [] {
      ws, ms := [NewWriter()], [];
    } else {
      var e := events[|events| - 1];
      var (w, b) := WriteAll(events[..|events| - 1], disk, a);
      ws, ms := LoopIsRun(events[..|events| - 1], disk, a);
      var ws1, ms1 := ws + [Receive(w, e)], ms + [Arrive(e)];
      ArrivedPrefix(ms, ms1, |ms|);
      ws, ms := FinishIsRun(ws1, ms1, disk, b);
    }
  }

  /** What an operator may rely on after any behaviour of the disk. */
  lemma LoopGuarantees<E(!new)>(events: seq<E>, disk: nat -> bool, a: nat)
    ensures var w := WriteAll(events, disk, a).0;
            && WriterInv(w) && w.received == |events|
            && multiset(events) == multiset(Events(Items(w.log))) + multiset(Events(w.degraded))
                                   + multiset(Events(w.evicted))
            && (|events| <= DEGRADED_BUFFER_CAP ==> w.evicted == [])
  {
    var ws, ms := LoopIsRun(events, disk, a);
    var w := ws[|ws| - 1];
    WriterOrder(ws, ms, |ms|);
    WriterConservation(ws, ms, |ms|);
    assert Events(InHand(w)) == [];
    if w.evicted != [] {
      assert w.evicted[0].seqNo + DEGRADED_BUFFER_CAP < w.received;
    }
  }

  // ---- a dead disk, and a disk that comes back ----------------------------------------

  function LastItems<E>(events: seq<E>, n: nat): (r: seq<Item<E>>)
    requires n <= |events|
    ensures |r| == n
  {
    seq(n, i requires 0 <= i < n => Item(|events| - n + i, events[|events| - n + i]))
  }

  /** If no write from attempt `a` on succeeds, the buffer is exactly the last `min(k, 1000)` of the `k` events. */
  lemma {:induction false} DeadDisk<E>(events: seq<E>, disk: nat -> bool, a: nat)
    requires forall k :: k >= a ==> !disk(k)
    ensures var (w, b) := WriteAll(events, disk, a);
            && w.degraded == LastItems(events, Min(|events|, DEGRADED_BUFFER_CAP))
            && w.log == [] && w.received == |events| && b >= a
  {
    if events != [] {
      var e0, e := events[..|events| - 1], events[|events| - 1];
      DeadDisk(e0, disk, a);
      var (w, b) := WriteAll(e0, disk, a);
      DeadDiskRound(w, e, disk, b);
      var n0, n := Min(|e0|, DEGRADED_BUFFER_CAP), Min(|events|, DEGRADED_BUFFER_CAP);
      var item := Item(|e0|, e);
      if |e0| >= DEGRADED_BUFFER_CAP {
        assert LastItems(events, n) == LastItems(e0, n0)[1..] + [item];
      } else {
        assert LastItems(events, n) == LastItems(e0, n0) + [item];
      }
    }
  }

  /** With such a disk the two tallies add up to at most 1000, so they miss events as soon as 1001 have arrived. */
  lemma DeadDiskTallies<E(!new)>(events: seq<E>, disk: nat -> bool, a: nat)
    requires forall k :: k >= a ==> !disk(k)
    ensures var w := WriteAll(events, disk, a).0;
            && |w.log| + |w.degraded| == Min(|events|, DEGRADED_BUFFER_CAP)
            && (|w.log| + |w.degraded| == |events| <==> |events| <= DEGRADED_BUFFER_CAP)
  {
    DeadDisk(events, disk, a);
  }

  /** A run of the writer whose tallies miss an event. */
  lemma TalliesMissOne<E(!new)>(e: E) returns (ws: seq<Writer<E>>, ms: seq<Move<E>>)
    ensures WriterRun(ws, ms) && ws[|ms|].phase.Idle? && ws[|ms|].received == 1001
    ensures |ws[|ms|].log| + |ws[|ms|].degraded| == 1000
  {
    var events := seq(1001, _ => e);
    ws, ms := LoopIsRun(events, _ => false, 0);
    DeadDisk(events, _ => false, 0);
  }

  lemma DeadDiskRound<E>(w: Writer<E>, event: E, disk: nat -> bool, a: nat)
    requires w.phase.Idle? && forall k :: k >= a ==> !disk(k)
    ensures var (w', b) := Finish(Receive(w, event), disk, a);
            && b >= a && w' == Buffer(w, Item(w.received, event)).(received := w.received + 1)
  {
    var got := Receive(w, event);
    assert !disk(a) && !disk(a + 1);
    if got.phase.Retry? {
      assert Attempt(got, disk(a)) == got.(phase := Fresh(got.phase.item));
      FinishAttempt(Attempt(got, disk(a)), disk, a + 1);
    } else {
      FinishAttempt(got, disk, a);
    }
  }

  /** One event received while every write succeeds empties the buffer, in order, and then logs the event. */
  lemma {:induction false} RecoveredDisk<E>(w: Writer<E>, disk: nat -> bool, a: nat)
    requires !w.phase.Idle? && w.phase == AtWrite(w.phase.item, w.degraded)
    requires forall k :: k >= a ==> disk(k)
    ensures var w' := Finish(w, disk, a).0;
            && w'.degraded == [] && w'.evicted == w.evicted
            && Items(w'.log) == Items(w.log) + w.degraded + [w.phase.item]
    decreases |w.degraded|
  {
    assert disk(a);
    var next := Attempt(w, disk(a));
    if w.degraded == [] {
      FinishAttempt(w, disk, a);
      assert Items(next.log) == Items(w.log) + [w.phase.item];
    } else {
      RecoveredDisk(next, disk, a + 1);
      assert Items(next.log) == Items(w.log) + [w.degraded[0]];
      assert Items(next.log) + next.degraded + [w.phase.item] == Items(w.log) + w.degraded + [w.phase.item];
    }
  }
}
