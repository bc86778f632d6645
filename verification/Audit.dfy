/** `src/audit.rs`: the bounded channel in front of the writer task, and the writer task itself
    as a machine whose every step is one attempted file write. */
module AuditSpec {
  const CHANNEL_CAP: nat := 1_000
  const DEGRADED_BUFFER_CAP: nat := 1_000

  /** An event together with its receive number, which is bookkeeping of the model. */
  datatype Item<+E> = Item(seqNo: nat, event: E)

  /** A line of the log file; `retried` says whether it came out of the degraded buffer. */
  datatype Line<+E> = Line(item: Item<E>, retried: bool)

  /** Where the writer loop stands: at `recv`, at the retry of the buffer's front, or at the fresh write. */
  datatype Phase<+E> = Idle | Retry(item: Item<E>) | Fresh(item: Item<E>)

  /** `evicted` is not kept by the source: it holds what the degraded buffer pushed out. */
  datatype Writer<+E> = Writer(
    received: nat,
    phase: Phase<E>,
    degraded: seq<Item<E>>,
    log: seq<Line<E>>,
    evicted: seq<Item<E>>)

  function NewWriter<E>(): Writer<E> { Writer(0, Idle, [], [], []) }

  function InHand<E>(w: Writer<E>): seq<Item<E>> { if w.phase.Idle? then [] else [w.phase.item] }

  function AtWrite<E>(item: Item<E>, degraded: seq<Item<E>>): Phase<E> {
    if degraded == [] then Fresh(item) else Retry(item)
  }

  /** `rx.recv()` returns an event. */
  function Receive<E>(w: Writer<E>, event: E): Writer<E>
    requires w.phase.Idle?
  {
    w.(received := w.received + 1, phase := AtWrite(Item(w.received, event), w.degraded))
  }

  /** Drop-oldest push into the degraded buffer. */
  function Buffer<E>(w: Writer<E>, item: Item<E>): Writer<E> {
    if |w.degraded| == DEGRADED_BUFFER_CAP
    then w.(degraded := w.degraded[1..] + [item], evicted := w.evicted + [w.degraded[0]])
    else w.(degraded := w.degraded + [item])
  }

  /** One `write_event` call that succeeds or fails. */
  function Attempt<E>(w: Writer<E>, ok: bool): Writer<E>
    requires !w.phase.Idle?
  {
    var item := w.phase.item;
    if w.phase.Retry? && w.degraded != [] && ok then
      w.(phase := AtWrite(item, w.degraded[1..]), degraded := w.degraded[1..],
         log := w.log + [Line(w.degraded[0], true)])
    else if w.phase.Retry? then w.(phase := Fresh(item))
    else if ok then w.(phase := Idle, log := w.log + [Line(item, false)])
    else Buffer(w.(phase := Idle), item)
  }

  // ---- what the writer keeps ------------------------------------------------

  function Items<E>(log: seq<Line<E>>): (r: seq<Item<E>>)
    ensures |r| == |log|
    ensures forall i :: 0 <= i < |log| ==> r[i] == log[i].item
  {
    seq(|log|, i requires 0 <= i < |log| => log[i].item)
  }

  ghost predicate Ascending<E>(s: seq<Item<E>>) {
    forall i, j :: 0 <= i < j < |s| ==> s[i].seqNo < s[j].seqNo
  }

  ghost predicate AllBelow<E>(s: seq<Item<E>>, bound: int) {
    forall i :: 0 <= i < |s| ==> s[i].seqNo < bound
  }

  /** The two sources of log lines, direct writes and retried writes, are each in receive order. */
  ghost predicate TwoOrderedStreams<E>(log: seq<Line<E>>) {
    forall i, j :: 0 <= i < j < |log| && log[i].retried == log[j].retried ==> log[i].item.seqNo < log[j].item.seqNo
  }

  /** No retried line is newer than anything still in the buffer. */
  ghost predicate RetriedBelow<E>(log: seq<Line<E>>, degraded: seq<Item<E>>) {
    forall i, j :: 0 <= i < |log| && log[i].retried && 0 <= j < |degraded| ==> log[i].item.seqNo < degraded[j].seqNo
  }

  ghost predicate WriterInv<E>(w: Writer<E>) {
    && |w.degraded| <= DEGRADED_BUFFER_CAP
    && (w.phase.Retry? ==> w.degraded != [])
    && (!w.phase.Idle? ==> w.phase.item.seqNo == w.received - 1)
    && Ascending(w.degraded)
    && AllBelow(w.degraded, Horizon(w))
    && (forall i :: 0 <= i < |w.log| ==> w.log[i].item.seqNo < Horizon(w))
    && TwoOrderedStreams(w.log)
    && RetriedBelow(w.log, w.degraded)
    && (forall i :: 0 <= i < |w.evicted| ==> w.evicted[i].seqNo + DEGRADED_BUFFER_CAP < w.received)
    && Ascending(w.evicted + w.degraded)
  }

  /** Receive number of the event in hand, or of the next one. */
  function Horizon<E>(w: Writer<E>): int {
    if w.phase.Idle? then w.received else w.received - 1
  }

  lemma ReceiveKeepsInv<E>(w: Writer<E>, event: E)
    requires WriterInv(w) && w.phase.Idle?
    ensures WriterInv(Receive(w, event))
  {
  }

  lemma {:induction false} AscendingGap<E>(s: seq<Item<E>>, i: nat, j: nat)
    requires Ascending(s) && i <= j < |s|
    ensures s[i].seqNo + (j - i) <= s[j].seqNo
    decreases j
  {
    if i < j {
      AscendingGap(s, i, j - 1);
    }
  }

  lemma BufferKeepsInv<E>(w: Writer<E>)
    requires WriterInv(w) && w.phase.Fresh?
    ensures WriterInv(Attempt(w, false))
  {
    var item, w' := w.phase.item, Attempt(w, false);
    if |w.degraded| == DEGRADED_BUFFER_CAP {
      AscendingGap(w.degraded, 0, |w.degraded| - 1);
      assert w'.evicted + w'.degraded == w.evicted + w.degraded + [item];
    } else {
      assert w'.evicted + w'.degraded == w.evicted + w.degraded + [item];
    }
  }

  lemma RetryKeepsInv<E>(w: Writer<E>, ok: bool)
    requires WriterInv(w) && w.phase.Retry?
    ensures WriterInv(Attempt(w, ok))
  {
    if ok {
      var w' := Attempt(w, ok);
      var s, t := w.evicted + w.degraded, w'.evicted + w'.degraded;
      forall i, j | 0 <= i < j < |t| ensures t[i].seqNo < t[j].seqNo {
        var i', j' := if i < |w.evicted| then i else i + 1, if j < |w.evicted| then j else j + 1;
        assert t[i] == s[i'] && t[j] == s[j'];
      }
    }
  }

  lemma AttemptKeepsInv<E>(w: Writer<E>, ok: bool)
    requires WriterInv(w) && !w.phase.Idle?
    ensures WriterInv(Attempt(w, ok))
  {
    if w.phase.Retry? {
      RetryKeepsInv(w, ok);
    } else if !ok {
      BufferKeepsInv(w);
    }
  }

  function Events<E>(items: seq<Item<E>>): (r: seq<E>)
    ensures |r| == |items|
    ensures forall i :: 0 <= i < |items| ==> r[i] == items[i].event
  {
    seq(|items|, i requires 0 <= i < |items| => items[i].event)
  }

  /** The events the writer has received, wherever they now are. */
  ghost function WriterEvents<E>(w: Writer<E>): multiset<E> {
    multiset(Events(Items(w.log))) + multiset(Events(w.degraded)) + multiset(Events(w.evicted))
    + multiset(Events(InHand(w)))
  }

  lemma EventsConcat<E>(a: seq<Item<E>>, b: seq<Item<E>>)
    ensures Events(a + b) == Events(a) + Events(b)
  {
  }

  lemma LogAppendEvents<E>(log: seq<Line<E>>, line: Line<E>)
    ensures Events(Items(log + [line])) == Events(Items(log)) + [line.item.event]
  {
  }

  lemma BufferEvents<E>(w: Writer<E>, item: Item<E>)
    ensures multiset(Events(Buffer(w, item).degraded)) + multiset(Events(Buffer(w, item).evicted))
         == multiset(Events(w.degraded)) + multiset(Events(w.evicted)) + multiset{item.event}
  {
    var b := Buffer(w, item);
    if |w.degraded| == DEGRADED_BUFFER_CAP {
      assert w.degraded == [w.degraded[0]] + w.degraded[1..];
      EventsConcat([w.degraded[0]], w.degraded[1..]);
      EventsConcat(w.degraded[1..], [item]);
      EventsConcat(w.evicted, [w.degraded[0]]);
      assert Events([w.degraded[0]]) == [w.degraded[0].event];
    } else {
      EventsConcat(w.degraded, [item]);
    }
    assert Events([item]) == [item.event];
  }

  lemma RetryEvents<E>(w: Writer<E>)
    requires w.phase.Retry? && w.degraded != []
    ensures WriterEvents(Attempt(w, true)) == WriterEvents(w)
  {
    assert w.degraded == [w.degraded[0]] + w.degraded[1..];
    EventsConcat([w.degraded[0]], w.degraded[1..]);
    assert Events([w.degraded[0]]) == [w.degraded[0].event];
    LogAppendEvents(w.log, Line(w.degraded[0], true));
    assert InHand(Attempt(w, true)) == InHand(w);
  }

  lemma AttemptEvents<E>(w: Writer<E>, ok: bool)
    requires !w.phase.Idle?
    ensures WriterEvents(Attempt(w, ok)) == WriterEvents(w)
  {
    var item := w.phase.item;
    if w.phase.Retry? && w.degraded != [] && ok {
      RetryEvents(w);
    } else if w.phase.Fresh? {
      assert Events(InHand(w)) == [item.event];
      assert InHand(Attempt(w, ok)) == [];
      if ok {
        LogAppendEvents(w.log, Line(item, false));
      } else {
        var w0 := w.(phase := Idle);
        BufferEvents(w0, item);
        assert Attempt(w, ok) == Buffer(w0, item);
        var b := Buffer(w0, item);
        assert WriterEvents(b) == multiset(Events(Items(w.log)))
                               + (multiset(Events(b.degraded)) + multiset(Events(b.evicted)));
        assert WriterEvents(w) == multiset(Events(Items(w.log)))
                               + (multiset(Events(w.degraded)) + multiset(Events(w.evicted)) + multiset{item.event});
      }
    } else {
      assert InHand(Attempt(w, ok)) == InHand(w);
    }
  }

  // ---- runs of the writer -----------------------------------------------------

  /** The environment of the writer: an event arrives, or the pending write succeeds or fails. */
  datatype Move<+E> = Arrive(event: E) | Write(ok: bool)

  predicate CanMove<E>(w: Writer<E>, m: Move<E>) { m.Arrive? <==> w.phase.Idle? }

  function Step<E>(w: Writer<E>, m: Move<E>): Writer<E>
    requires CanMove(w, m)
  {
    match m
    case Arrive(event) => Receive(w, event)
    case Write(ok) => Attempt(w, ok)
  }

  /** A run: `ws[0]` is the fresh writer and each move leads to the next state. */
  ghost predicate WriterRun<E(!new)>(ws: seq<Writer<E>>, ms: seq<Move<E>>) {
    && |ws| == |ms| + 1 && ws[0] == NewWriter()
    && forall i :: 0 <= i < |ms| ==> CanMove(ws[i], ms[i]) && ws[i + 1] == Step(ws[i], ms[i])
  }

  /** Whatever the disk does: the buffer stays in receive order and within its cap, the log is an
      interleaving of two receive-ordered streams, and an event is given up only after at least
      a full buffer of later events has arrived. */
  lemma {:induction false} WriterOrder<E(!new)>(ws: seq<Writer<E>>, ms: seq<Move<E>>, i: nat)
    requires WriterRun(ws, ms) && i < |ws|
    ensures WriterInv(ws[i])
  {
    if i > 0 {
      WriterOrder(ws, ms, i - 1);
      var w, m := ws[i - 1], ms[i - 1];
      assert CanMove(w, m) && ws[i] == Step(w, m);
      match m
      case Arrive(event) => ReceiveKeepsInv(w, event);
      case Write(ok) => AttemptKeepsInv(w, ok);
    }
  }

  /** The events that have arrived before position `i`. */
  function Arrived<E>(ms: seq<Move<E>>, i: nat): seq<E>
    requires i <= |ms|
  {
    if i == 0 then []
    else if ms[i - 1].Arrive? then Arrived(ms, i - 1) + [ms[i - 1].event]
    else Arrived(ms, i - 1)
  }

  /** Conservation: what arrived is what the log, the buffer, the evictions and the hand hold. */
  lemma {:induction false} WriterConservation<E(!new)>(ws: seq<Writer<E>>, ms: seq<Move<E>>, i: nat)
    requires WriterRun(ws, ms) && i < |ws|
    ensures ws[i].received == |Arrived(ms, i)|
    ensures multiset(Arrived(ms, i)) == WriterEvents(ws[i])
  {
    if i > 0 {
      WriterConservation(ws, ms, i - 1);
      var w, m := ws[i - 1], ms[i - 1];
      assert CanMove(w, m) && ws[i] == Step(w, m);
      match m
      case Write(ok) => AttemptEvents(w, ok);
      case Arrive(event) =>
        assert Events(InHand(w)) == [];
        assert Events(InHand(ws[i])) == [event];
    }
  }

  /** A failed fresh write that finds the buffer full. */
  predicate Evicts<E>(w: Writer<E>, m: Move<E>) {
    m.Write? && !m.ok && w.phase.Fresh? && |w.degraded| == DEGRADED_BUFFER_CAP
  }

  lemma {:induction false} EvictedIff<E(!new)>(ws: seq<Writer<E>>, ms: seq<Move<E>>, i: nat)
    requires WriterRun(ws, ms) && i < |ws|
    ensures ws[i].evicted == [] <==> forall k :: 0 <= k < i ==> !Evicts(ws[k], ms[k])
  {
    if i > 0 {
      EvictedIff(ws, ms, i - 1);
      assert CanMove(ws[i - 1], ms[i - 1]) && ws[i] == Step(ws[i - 1], ms[i - 1]);
    }
  }

  /** The two tallies of `WriterShutdown` account for every received event if and only if no fresh write ever failed
      while the buffer was full. */
  lemma TalliesMissEvictions<E(!new)>(ws: seq<Writer<E>>, ms: seq<Move<E>>, i: nat)
    requires WriterRun(ws, ms) && i < |ws| && ws[i].phase.Idle?
    ensures |ws[i].log| + |ws[i].degraded| + |ws[i].evicted| == ws[i].received
    ensures |ws[i].log| + |ws[i].degraded| == ws[i].received <==> forall k :: 0 <= k < i ==> !Evicts(ws[k], ms[k])
  {
    WriterConservation(ws, ms, i);
    EvictedIff(ws, ms, i);
    var w := ws[i];
    assert |multiset(Arrived(ms, i))| == |Arrived(ms, i)|;
    assert Events(InHand(w)) == [];
    assert |WriterEvents(w)| == |Events(Items(w.log))| + |Events(w.degraded)| + |Events(w.evicted)|;
  }

  // ---- when the log is in receive order -----------------------------------------

  /** Log, then buffer, then hand: one ascending sequence. */
  ghost predicate InOrder<E>(w: Writer<E>) {
    Ascending(Items(w.log) + w.degraded + InHand(w))
  }

  /** A fresh write that succeeds right after a retry failed. */
  predicate Overtakes<E>(w: Writer<E>, m: Move<E>) {
    m.Write? && m.ok && w.phase.Fresh? && w.degraded != []
  }

  lemma AscendingAppend<E>(s: seq<Item<E>>, item: Item<E>)
    requires Ascending(s) && AllBelow(s, item.seqNo)
    ensures Ascending(s + [item])
  {
  }

  lemma AscendingSplice<E>(a: seq<Item<E>>, x: Item<E>, b: seq<Item<E>>)
    requires Ascending(a + [x] + b)
    ensures Ascending(a + b)
  {
    var s, t := a + [x] + b, a + b;
    forall i, j | 0 <= i < j < |t| ensures t[i].seqNo < t[j].seqNo {
      var i', j' := if i < |a| then i else i + 1, if j < |a| then j else j + 1;
      assert t[i] == s[i'] && t[j] == s[j'];
    }
  }

  lemma OrderedMove<E>(w: Writer<E>, m: Move<E>)
    requires WriterInv(w) && CanMove(w, m) && InOrder(w) && !Overtakes(w, m)
    ensures InOrder(Step(w, m))
  {
    var w' := Step(w, m);
    var all := Items(w.log) + w.degraded + InHand(w);
    match m
    case Arrive(event) =>
      assert all == Items(w.log) + w.degraded;
      assert AllBelow(all, w.received);
      AscendingAppend(all, Item(w.received, event));
    case Write(ok) =>
      if w.phase.Retry? && ok {
        assert Items(w'.log) + w'.degraded + InHand(w') == all;
      } else if w.phase.Fresh? && ok {
        assert Items(w'.log) + w'.degraded + InHand(w') == all;
      } else if w.phase.Fresh? && |w.degraded| == DEGRADED_BUFFER_CAP {
        assert all == Items(w.log) + [w.degraded[0]] + (w.degraded[1..] + [w.phase.item]);
        AscendingSplice(Items(w.log), w.degraded[0], w.degraded[1..] + [w.phase.item]);
        assert Items(w'.log) + w'.degraded + InHand(w') == Items(w.log) + (w.degraded[1..] + [w.phase.item]);
      } else if w.phase.Fresh? {
        assert Items(w'.log) + w'.degraded + InHand(w') == all;
      }
  }

  lemma OvertakingBreaksOrder<E>(w: Writer<E>, m: Move<E>)
    requires WriterInv(w) && CanMove(w, m) && Overtakes(w, m)
    ensures !InOrder(Step(w, m))
  {
    var w' := Step(w, m);
    var s := Items(w'.log) + w'.degraded + InHand(w');
    assert s[|w.log|] == w.phase.item && s[|w.log| + 1] == w.degraded[0];
  }

  /** Log and buffer are in receive order throughout a run exactly when no fresh write ever
      succeeds while the buffer could not be emptied. */
  lemma {:induction false} LogInOrderIff<E(!new)>(ws: seq<Writer<E>>, ms: seq<Move<E>>)
    requires WriterRun(ws, ms)
    ensures (forall i :: 0 <= i < |ws| ==> InOrder(ws[i]))
       <==> (forall i :: 0 <= i < |ms| ==> !Overtakes(ws[i], ms[i]))
  {
    if forall i :: 0 <= i < |ms| ==> !Overtakes(ws[i], ms[i]) {
      forall i | 0 <= i < |ws| ensures InOrder(ws[i]) {
        NoOvertakingKeepsOrder(ws, ms, i);
      }
    } else {
      var i :| 0 <= i < |ms| && Overtakes(ws[i], ms[i]);
      WriterOrder(ws, ms, i);
      OvertakingBreaksOrder(ws[i], ms[i]);
      assert !InOrder(ws[i + 1]);
    }
  }

  lemma {:induction false} NoOvertakingKeepsOrder<E(!new)>(ws: seq<Writer<E>>, ms: seq<Move<E>>, i: nat)
    requires WriterRun(ws, ms) && i < |ws|
    requires forall k :: 0 <= k < |ms| ==> !Overtakes(ws[k], ms[k])
    ensures InOrder(ws[i])
  {
    if i > 0 {
      NoOvertakingKeepsOrder(ws, ms, i - 1);
      WriterOrder(ws, ms, i - 1);
      OrderedMove(ws[i - 1], ms[i - 1]);
    }
  }

  // ---- when the log file alone is in receive order --------------------------------

  /** A successful retry of an event received before number `seqNo`. */
  predicate FlushesOlder<E>(w: Writer<E>, m: Move<E>, seqNo: nat) {
    m.Write? && m.ok && w.phase.Retry? && w.degraded != [] && w.degraded[0].seqNo < seqNo
  }

  /** Move `i` logs an event past a non-empty buffer and the later move `j` logs an older one out of the buffer. */
  ghost predicate Inverts<E(!new)>(ws: seq<Writer<E>>, ms: seq<Move<E>>, i: nat, j: nat) {
    && i < j < |ms| < |ws|
    && Overtakes(ws[i], ms[i]) && FlushesOlder(ws[j], ms[j], ws[i].phase.item.seqNo)
  }

  lemma {:induction false} LogGrows<E(!new)>(ws: seq<Writer<E>>, ms: seq<Move<E>>, i: nat, j: nat)
    requires WriterRun(ws, ms) && i <= j < |ws|
    ensures ws[i].log <= ws[j].log && Horizon(ws[i]) <= Horizon(ws[j])
    decreases j
  {
    if i < j {
      LogGrows(ws, ms, i, j - 1);
      assert CanMove(ws[j - 1], ms[j - 1]) && ws[j] == Step(ws[j - 1], ms[j - 1]);
    }
  }

  /** The move that wrote a line which did not come out of the buffer. */
  lemma {:induction false} DirectOrigin<E(!new)>(ws: seq<Writer<E>>, ms: seq<Move<E>>, i: nat, x: nat) returns (k: nat)
    requires WriterRun(ws, ms) && i < |ws| && x < |ws[i].log| && !ws[i].log[x].retried
    ensures k < i && ws[k].phase == Fresh(ws[i].log[x].item) && ms[k] == Write(true)
  {
    assert i > 0;
    assert CanMove(ws[i - 1], ms[i - 1]) && ws[i] == Step(ws[i - 1], ms[i - 1]);
    if x < |ws[i - 1].log| {
      k := DirectOrigin(ws, ms, i - 1, x);
    } else {
      k := i - 1;
    }
  }

  /** What is in the buffer and was received before the horizon at `i` was already in the buffer at `i`. */
  lemma {:induction false} BufferedBefore<E(!new)>(ws: seq<Writer<E>>, ms: seq<Move<E>>, i: nat, j: nat, d: Item<E>)
    requires WriterRun(ws, ms) && i <= j < |ws| && d in ws[j].degraded && d.seqNo < Horizon(ws[i])
    ensures d in ws[i].degraded
    decreases j
  {
    if i < j {
      var w, m := ws[j - 1], ms[j - 1];
      assert CanMove(w, m) && ws[j] == Step(w, m);
      LogGrows(ws, ms, i, j - 1);
      WriterOrder(ws, ms, j - 1);
      BufferEffect(w, m, d);
      BufferedBefore(ws, ms, i, j - 1, d);
    }
  }

  lemma BufferEffect<E>(w: Writer<E>, m: Move<E>, d: Item<E>)
    requires WriterInv(w) && CanMove(w, m) && d in Step(w, m).degraded && d.seqNo < Horizon(w)
    ensures d in w.degraded
  {
  }

  lemma RetriedInOrder<E(!new)>(ws: seq<Writer<E>>, ms: seq<Move<E>>, k: nat, x: nat)
    requires WriterRun(ws, ms) && k < |ms| && x < |ws[k].log|
    requires ms[k] == Write(true) && ws[k].phase.Retry? && ws[k].degraded != []
    requires forall i: nat :: !Inverts(ws, ms, i, k)
    ensures ws[k].log[x].item.seqNo < ws[k].degraded[0].seqNo
  {
    var line, d := ws[k].log[x], ws[k].degraded[0];
    WriterOrder(ws, ms, k);
    if !line.retried && d.seqNo <= line.item.seqNo {
      var i := DirectOrigin(ws, ms, k, x);
      WriterOrder(ws, ms, i);
      assert CanMove(ws[i], ms[i]) && ws[i + 1] == Step(ws[i], ms[i]);
      BufferedBefore(ws, ms, i + 1, k, d);
      assert Inverts(ws, ms, i, k);
    }
  }

  lemma {:induction false} NoInversionKeepsOrder<E(!new)>(ws: seq<Writer<E>>, ms: seq<Move<E>>, k: nat)
    requires WriterRun(ws, ms) && k < |ws|
    requires forall i: nat, j: nat :: !Inverts(ws, ms, i, j)
    ensures Ascending(Items(ws[k].log))
  {
    if k > 0 {
      NoInversionKeepsOrder(ws, ms, k - 1);
      WriterOrder(ws, ms, k - 1);
      var w, m := ws[k - 1], ms[k - 1];
      assert CanMove(w, m) && ws[k] == Step(w, m);
      if |ws[k].log| > |w.log| {
        if w.phase.Retry? {
          forall x | 0 <= x < |w.log| ensures w.log[x].item.seqNo < w.degraded[0].seqNo {
            RetriedInOrder(ws, ms, k - 1, x);
          }
        }
        var added := ws[k].log[|w.log|].item;
        assert Items(ws[k].log) == Items(w.log) + [added];
        AscendingAppend(Items(w.log), added);
      }
    }
  }

  lemma InversionBreaksOrder<E(!new)>(ws: seq<Writer<E>>, ms: seq<Move<E>>, i: nat, j: nat)
    requires WriterRun(ws, ms) && Inverts(ws, ms, i, j)
    ensures !Ascending(Items(ws[j + 1].log))
  {
    assert CanMove(ws[i], ms[i]) && ws[i + 1] == Step(ws[i], ms[i]);
    assert CanMove(ws[j], ms[j]) && ws[j + 1] == Step(ws[j], ms[j]);
    LogGrows(ws, ms, i + 1, j);
    var s, x := Items(ws[j + 1].log), |ws[i].log|;
    assert s[x] == ws[i].phase.item && s[|ws[j].log|] == ws[j].degraded[0];
  }

  /** The log file is in receive order throughout a run if and only if no event that a fresh write overtook is
      ever flushed later. An overtaken event that is evicted, or still waits in the buffer, does no harm. */
  lemma LogFileInOrderIff<E(!new)>(ws: seq<Writer<E>>, ms: seq<Move<E>>)
    requires WriterRun(ws, ms)
    ensures (forall k :: 0 <= k < |ws| ==> Ascending(Items(ws[k].log)))
       <==> (forall i: nat, j: nat :: !Inverts(ws, ms, i, j))
  {
    if forall i: nat, j: nat :: !Inverts(ws, ms, i, j) {
      forall k | 0 <= k < |ws| ensures Ascending(Items(ws[k].log)) {
        NoInversionKeepsOrder(ws, ms, k);
      }
    } else {
      var i: nat, j: nat :| Inverts(ws, ms, i, j);
      InversionBreaksOrder(ws, ms, i, j);
    }
  }

  /** The same about the log at the end of a run. */
  lemma FinalLogInOrderIff<E(!new)>(ws: seq<Writer<E>>, ms: seq<Move<E>>)
    requires WriterRun(ws, ms)
    ensures Ascending(Items(ws[|ms|].log)) <==> forall i: nat, j: nat :: !Inverts(ws, ms, i, j)
  {
    LogFileInOrderIff(ws, ms);
    if Ascending(Items(ws[|ms|].log)) {
      forall k | 0 <= k < |ws| ensures Ascending(Items(ws[k].log)) {
        LogGrows(ws, ms, k, |ms|);
        assert Items(ws[k].log) <= Items(ws[|ms|].log);
      }
    }
  }

  lemma ExtendWriterRun<E(!new)>(ws: seq<Writer<E>>, ms: seq<Move<E>>, m: Move<E>)
    returns (ws': seq<Writer<E>>, ms': seq<Move<E>>)
    requires WriterRun(ws, ms) && CanMove(ws[|ms|], m)
    ensures WriterRun(ws', ms') && ws' == ws + [Step(ws[|ms|], m)] && ms' == ms + [m]
  {
    ws', ms' := ws + [Step(ws[|ms|], m)], ms + [m];
  }

  /** A run whose log is out of order: a write fails, a retry fails but the fresh write after it succeeds, and the next
      event flushes the first one behind the second. */
  lemma LogOutOfOrder<E(!new)>(e: E) returns (ws: seq<Writer<E>>, ms: seq<Move<E>>)
    ensures WriterRun(ws, ms) && ws[|ms|].log == [Line(Item(1, e), false), Line(Item(0, e), true)]
    ensures !Ascending(Items(ws[|ms|].log))
  {
    ws, ms := [NewWriter()], [];
    ws, ms := ExtendWriterRun(ws, ms, Arrive(e));
    ws, ms := ExtendWriterRun(ws, ms, Write(false));
    ws, ms := ExtendWriterRun(ws, ms, Arrive(e));
    ws, ms := ExtendWriterRun(ws, ms, Write(false));
    ws, ms := ExtendWriterRun(ws, ms, Write(true));
    ws, ms := ExtendWriterRun(ws, ms, Arrive(e));
    ws, ms := ExtendWriterRun(ws, ms, Write(true));
    assert Items(ws[|ms|].log)[0].seqNo == 1 && Items(ws[|ms|].log)[1].seqNo == 0;
  }

  // ---- the front door -----------------------------------------------------------

  /** The producer side and the writer together. `dropped` is the source's counter; `droppedEvents`
      and `discarded` say which events it lost track of. */
  datatype Pipeline<+E> = Pipeline(
    channel: seq<E>,
    open: bool,
    dropped: nat,
    droppedEvents: seq<E>,
    discarded: seq<E>,
    writer: Writer<E>)

  function NewPipeline<E>(): Pipeline<E> { Pipeline([], true, 0, [], [], NewWriter()) }

  /** `AuditWriter::record`: `try_send` on a bounded channel, never blocking. */
  function Record<E>(p: Pipeline<E>, event: E): Pipeline<E> {
    if !p.open then p.(discarded := p.discarded + [event])
    else if |p.channel| < CHANNEL_CAP then p.(channel := p.channel + [event])
    else p.(dropped := p.dropped + 1, droppedEvents := p.droppedEvents + [event])
  }

  /** Steps of the writer task; `Gone` is the task ending with whatever it has not received yet. */
  datatype WriterStep = Recv | TryWrite(ok: bool) | Gone

  predicate CanWrite<E>(p: Pipeline<E>, s: WriterStep) {
    && p.open
    && match s
       case Recv => p.writer.phase.Idle? && p.channel != []
       case TryWrite(_) => !p.writer.phase.Idle?
       case Gone => true
  }

  function RunWriter<E>(p: Pipeline<E>, s: WriterStep): Pipeline<E>
    requires CanWrite(p, s)
  {
    match s
    case Recv => p.(channel := p.channel[1..], writer := Receive(p.writer, p.channel[0]))
    case TryWrite(ok) => p.(writer := Attempt(p.writer, ok))
    case Gone =>
      p.(open := false, channel := [],
         discarded := p.discarded + Events(InHand(p.writer)) + p.channel,
         writer := p.writer.(phase := Idle))
  }

  /** The events that never reached the writer: queued, dropped by a full channel, or discarded. */
  ghost function Outside<E>(p: Pipeline<E>): multiset<E> {
    multiset(p.channel) + multiset(p.droppedEvents) + multiset(p.discarded)
  }

  /** All events the pipeline accounts for. */
  ghost function Accounted<E>(p: Pipeline<E>): multiset<E> {
    WriterEvents(p.writer) + Outside(p)
  }

  lemma NewPipelineAccounts<E>()
    ensures Accounted(NewPipeline<E>()) == multiset{}
  {
    var p := NewPipeline<E>();
    assert Items(p.writer.log) == [] && InHand(p.writer) == [];
  }

  lemma RecordOutside<E>(p: Pipeline<E>, event: E)
    ensures Outside(Record(p, event)) == Outside(p) + multiset{event}
  {
  }

  lemma RecordAccounts<E>(p: Pipeline<E>, event: E)
    ensures Accounted(Record(p, event)) == Accounted(p) + multiset{event}
  {
    RecordOutside(p, event);
    assert Record(p, event).writer == p.writer;
  }

  lemma ReceiveAccounts<E>(p: Pipeline<E>)
    requires CanWrite(p, Recv)
    ensures Accounted(RunWriter(p, Recv)) == Accounted(p)
  {
    assert p.channel == [p.channel[0]] + p.channel[1..];
    assert Events(InHand(RunWriter(p, Recv).writer)) == [p.channel[0]];
  }

  /** No writer step creates, duplicates or silently loses an event. */
  lemma RunWriterAccounts<E>(p: Pipeline<E>, s: WriterStep)
    requires CanWrite(p, s)
    ensures Accounted(RunWriter(p, s)) == Accounted(p)
  {
    match s
    case Recv => ReceiveAccounts(p);
    case TryWrite(ok) => AttemptEvents(p.writer, ok);
    case Gone =>
      assert InHand(RunWriter(p, Gone).writer) == [];
      assert Events<E>([]) == [];
  }
}
