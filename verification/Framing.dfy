/** The newline-delimited framing of both sockets (`src/server.rs` `read_line_capped` and the connection loops). */
module Framing {
  import opened Common

  const NEWLINE: byte := 10
  const MAX_MESSAGE_BYTES: nat := 65_536

  function Flatten(chunks: seq<seq<byte>>): seq<byte> {
    if chunks == [] then [] else chunks[0] + Flatten(chunks[1..])
  }

  // ---- what one read takes off the stream ----------------------------------------

  /** Length of the next line: up to and including the first newline among the first `max` bytes,
      or as far as the stream and the cap allow. */
  function LineLen(s: seq<byte>, max: nat): (n: nat)
    ensures n <= |s| && n <= max
    ensures s != [] && max > 0 ==> n > 0
    ensures forall i :: 0 <= i < n - 1 ==> s[i] != NEWLINE
    ensures n < max && n < |s| ==> n > 0 && s[n - 1] == NEWLINE
  {
    if s == [] || max == 0 then 0
    else if s[0] == NEWLINE then 1
    else 1 + LineLen(s[1..], max - 1)
  }

  predicate EndsLine(line: seq<byte>) { line != [] && line[|line| - 1] == NEWLINE }

  /** The read hits the cap before a newline. */
  predicate Oversized(s: seq<byte>, max: nat) {
    LineLen(s, max) == max && !EndsLine(s[..max])
  }

  /** A byte stream that arrives in chunks, behind a read buffer. */
  class Reader {
    var buffer: seq<byte>
    var pending: seq<seq<byte>>

    ghost function Stream(): seq<byte>
      reads this
    {
      buffer + Flatten(pending)
    }

    /** The peer sends non-empty chunks; no more pending chunks means end of stream. */
    ghost predicate Valid()
      reads this
    {
      forall i :: 0 <= i < |pending| ==> pending[i] != []
    }

    constructor (chunks: seq<seq<byte>>)
      requires forall i :: 0 <= i < |chunks| ==> chunks[i] != []
      ensures Valid() && Stream() == Flatten(chunks)
    {
      buffer, pending := [], chunks;
    }

    method FillBuf()
      requires Valid()
      modifies this
      ensures Valid() && Stream() == old(Stream())
      ensures buffer == [] ==> Stream() == []
    {
      if buffer == [] && pending != [] {
        buffer, pending := pending[0], pending[1..];
      }
    }

    method Consume(n: nat)
      requires Valid() && n <= |buffer|
      modifies this
      ensures Valid() && Stream() == old(Stream())[n..]
    {
      buffer := buffer[n..];
    }
  }

  method FindNewline(s: seq<byte>) returns (i: nat)
    ensures i <= |s|
    ensures forall k :: 0 <= k < i ==> s[k] != NEWLINE
    ensures i < |s| ==> s[i] == NEWLINE
  {
    i := 0;
    while i < |s| && s[i] != NEWLINE
      invariant i <= |s|
      invariant forall k :: 0 <= k < i ==> s[k] != NEWLINE
    {
      i := i + 1;
    }
  }

  lemma {:induction false} LineLenSplit(s: seq<byte>, max: nat, k: nat)
    requires k <= |s| && k <= max && forall i :: 0 <= i < k ==> s[i] != NEWLINE
    ensures LineLen(s, max) == k + LineLen(s[k..], max - k)
  {
    if k > 0 {
      LineLenSplit(s[1..], max - 1, k - 1);
      assert s[1..][k - 1..] == s[k..];
    } else {
      assert s[0..] == s;
    }
  }

  lemma PrefixExtend(s: seq<byte>, a: seq<byte>, b: seq<byte>)
    requires a <= s && b <= s[|a|..]
    ensures a + b <= s && s[|a|..][|b|..] == s[|a + b|..]
  {
    assert s == a + s[|a|..];
  }

  /** One turn of `take(limit).read_until`: what the buffer offers, up to a newline. */
  method ReadSome(reader: Reader, limit: nat) returns (got: seq<byte>, done: bool)
    requires reader.Valid() && limit > 0
    modifies reader
    ensures reader.Valid()
    ensures |got| <= limit && got <= old(reader.Stream()) && reader.Stream() == old(reader.Stream())[|got|..]
    ensures done ==> |got| == LineLen(old(reader.Stream()), limit)
    ensures !done ==> got != [] && forall i :: 0 <= i < |got| ==> got[i] != NEWLINE
  {
    ghost var s := reader.Stream();
    reader.FillBuf();
    var available := reader.buffer[..Min(|reader.buffer|, limit)];
    assert available <= s;
    var i := FindNewline(available);
    var n := if i < |available| then i + 1 else i;
    LineLenSplit(s, limit, i);
    if i < |available| {
      assert s[i..][0] == NEWLINE;
    }
    got := available[..n];
    done := i < |available| || available == [];
    reader.Consume(n);
  }

  /** `read_line_capped`: whatever the chunking, it takes exactly the next line off the stream, and fails exactly when
      the cap is reached first. */
  method ReadLineCapped(reader: Reader, max: nat) returns (line: seq<byte>, ok: bool)
    requires reader.Valid()
    modifies reader
    ensures reader.Valid()
    ensures var n := LineLen(old(reader.Stream()), max);
            line == old(reader.Stream())[..n] && reader.Stream() == old(reader.Stream())[n..]
    ensures ok <==> !Oversized(old(reader.Stream()), max)
  {
    line := [];
    ghost var s := reader.Stream();
    var done := false;
    while !done && |line| < max
      invariant reader.Valid() && |line| <= max
      invariant line <= s && reader.Stream() == s[|line|..]
      invariant done ==> |line| == LineLen(s, max)
      invariant !done ==> forall i :: 0 <= i < |line| ==> line[i] != NEWLINE
      decreases !done, max - |line|
    {
      LineLenSplit(s, max, |line|);
      var got;
      got, done := ReadSome(reader, max - |line|);
      PrefixExtend(s, line, got);
      line := line + got;
    }
    if !done {
      LineLenSplit(s, max, |line|);
    }
    ok := !(|line| == max && !EndsLine(line));
  }

  // ---- the connection loop ------------------------------------------------------------

  datatype End = Eof | TooLong

  /** The requests a connection is served and how it ends. */
  function Frames(s: seq<byte>): (r: (seq<seq<byte>>, End))
    decreases |s|
  {
    var n := LineLen(s, MAX_MESSAGE_BYTES);
    if Oversized(s, MAX_MESSAGE_BYTES) then ([], TooLong)
    else if n == 0 then ([], Eof)
    else
      var (fs, end) := Frames(s[n..]);
      ([s[..n]] + fs, end)
  }

  /** One response per request, in order. */
  ghost predicate Answers(responses: seq<seq<byte>>, frames: seq<seq<byte>>, dispatch: seq<byte> -> seq<byte>) {
    |responses| == |frames| && forall i :: 0 <= i < |frames| ==> responses[i] == dispatch(frames[i])
  }

  lemma FramesStep(s: seq<byte>)
    ensures var n := LineLen(s, MAX_MESSAGE_BYTES);
            Frames(s) == if Oversized(s, MAX_MESSAGE_BYTES) then ([], TooLong)
                         else if n == 0 then ([], Eof)
                         else ([s[..n]] + Frames(s[n..]).0, Frames(s[n..]).1)
  {
  }

  /** The next request of a connection, or its end. */
  method NextFrame(reader: Reader) returns (line: seq<byte>, end: Option<End>)
    requires reader.Valid()
    modifies reader
    ensures reader.Valid()
    ensures end.Some? ==> Frames(old(reader.Stream())) == ([], end.value)
    ensures end.None? ==>
              && |reader.Stream()| < |old(reader.Stream())|
              && Frames(old(reader.Stream())) == ([line] + Frames(reader.Stream()).0, Frames(reader.Stream()).1)
  {
    FramesStep(reader.Stream());
    var ok;
    line, ok := ReadLineCapped(reader, MAX_MESSAGE_BYTES);
    end := if !ok then Some(TooLong) else if |line| == 0 then Some(Eof) else None;
  }

  /** How a connection ends: as its stream does, or at a response that cannot be written. */
  datatype Closed = Ended(end: End) | WriteFailed

  /** The served part of a connection: all frames answered, or all up to the one whose response failed. */
  ghost predicate ServedUntil(s: seq<byte>, writes: nat -> bool, frames: seq<seq<byte>>, answered: nat, how: Closed) {
    && answered <= |frames| && (forall k :: 0 <= k < answered ==> writes(k))
    && match how
       case Ended(end) => Frames(s) == (frames, end) && answered == |frames|
       case WriteFailed => frames <= Frames(s).0 && |frames| == answered + 1 && !writes(answered)
  }

  /** The read loop of `handle_admin_connection` and `handle_project_connection`: one response per request, in order.
      A line over the cap ends the connection without a response, and so does a failed write; `writes(k)` says
      whether response `k` can be written. */
  method ServeConnection(reader: Reader, dispatch: seq<byte> -> seq<byte>, writes: nat -> bool)
    returns (frames: seq<seq<byte>>, responses: seq<seq<byte>>, how: Closed)
    requires reader.Valid()
    modifies reader
    ensures ServedUntil(old(reader.Stream()), writes, frames, |responses|, how)
    ensures Answers(responses, frames[..|responses|], dispatch)
  {
    frames, responses := [], [];
    ghost var all := Frames(reader.Stream());
    ghost var later := all;
    assert [] + later.0 == all.0;
    while true
      invariant reader.Valid() && later == Frames(reader.Stream())
      invariant Answers(responses, frames, dispatch)
      invariant all == (frames + later.0, later.1)
      invariant forall k :: 0 <= k < |responses| ==> writes(k)
      decreases |reader.Stream()|
    {
      var line, stop := NextFrame(reader);
      if stop.Some? {
        assert frames + [] == frames;
        return frames, responses, Ended(stop.value);
      }
      later := Frames(reader.Stream());
      assert frames + ([line] + later.0) == (frames + [line]) + later.0;
      frames := frames + [line];
      if !writes(|responses|) {
        return frames, responses, WriteFailed;
      }
      responses := responses + [dispatch(line)];
    }
  }

  // ---- round trip -------------------------------------------------------------------------

  /** A message a client may send: no newline inside, and within the cap with its newline. */
  predicate Sendable(m: seq<byte>) {
    |m| + 1 <= 65_536 && forall i :: 0 <= i < |m| ==> m[i] != 10
  }

  function Encode(ms: seq<seq<byte>>): seq<byte> {
    if ms == [] then [] else ms[0] + [NEWLINE] + Encode(ms[1..])
  }

  function Lines(ms: seq<seq<byte>>): seq<seq<byte>> {
    if ms == [] then [] else [ms[0] + [NEWLINE]] + Lines(ms[1..])
  }

  lemma LineLenFirst(m: seq<byte>, rest: seq<byte>)
    requires Sendable(m)
    ensures LineLen(m + [NEWLINE] + rest, MAX_MESSAGE_BYTES) == |m| + 1
    ensures !Oversized(m + [NEWLINE] + rest, MAX_MESSAGE_BYTES)
  {
    var s := m + [NEWLINE] + rest;
    LineLenSplit(s, MAX_MESSAGE_BYTES, |m|);
    assert s[|m|..][0] == NEWLINE;
    assert s[..|m| + 1][|m|] == NEWLINE;
  }

  /** Round trip: any sendable messages, followed by an unterminated tail shorter than the cap, come back as exactly
      those messages in order (the tail last, if there is one), and the connection then ends at end of stream. */
  lemma {:induction false} FramesOfEncoded(ms: seq<seq<byte>>, tail: seq<byte>)
    requires forall i :: 0 <= i < |ms| ==> Sendable(ms[i])
    requires Sendable(tail)
    ensures Frames(Encode(ms) + tail) == (Lines(ms) + (if tail == [] then [] else [tail]), Eof)
  {
    var s := Encode(ms) + tail;
    if ms == [] {
      assert s == tail;
      LineLenSplit(s, MAX_MESSAGE_BYTES, |s|);
      assert s[|s|..] == [] && s[..|s|] == s;
      assert Frames([]) == ([], Eof);
      assert Lines([]) + [tail] == [tail] + [] == [tail];
    } else {
      var rest := Encode(ms[1..]) + tail;
      assert s == ms[0] + [NEWLINE] + rest;
      LineLenFirst(ms[0], rest);
      FramesOfEncoded(ms[1..], tail);
      FramesStep(s);
      var last: seq<seq<byte>> := if tail == [] then [] else [tail];
      assert [ms[0] + [NEWLINE]] + (Lines(ms[1..]) + last) == ([ms[0] + [NEWLINE]] + Lines(ms[1..])) + last;
      assert s[..|ms[0]| + 1] == ms[0] + [NEWLINE] && s[|ms[0]| + 1..] == rest;
    }
  }

  // ---- arbitrary streams ---------------------------------------------------------------------

  lemma {:induction false} FlattenCons(f: seq<byte>, fs: seq<seq<byte>>)
    ensures Flatten([f] + fs) == f + Flatten(fs)
  {
    assert ([f] + fs)[1..] == fs;
  }

  /** The frames concatenate to a prefix of the stream, to all of it at end of stream, and no byte is served twice. */
  lemma {:induction false} FramesArePrefix(s: seq<byte>)
    ensures ServesPrefix(s, Frames(s).0, Frames(s).1)
    decreases |s|
  {
    var n := LineLen(s, MAX_MESSAGE_BYTES);
    FramesStep(s);
    if !Oversized(s, MAX_MESSAGE_BYTES) && n > 0 {
      FramesArePrefix(s[n..]);
      FirstFrame(s);
      FramesStep(s[n..]);
      PrefixCons(s, n, Frames(s[n..]).0, Frames(s[n..]).1);
    }
  }

  /** The frames are non-empty, within the cap, and concatenate to a prefix of the stream, which is all of it at
      end of stream; only the very last one may lack its newline. */
  ghost predicate ServesPrefix(s: seq<byte>, fs: seq<seq<byte>>, end: End) {
    && Flatten(fs) <= s
    && (end.Eof? ==> Flatten(fs) == s)
    && (forall i :: 0 <= i < |fs| ==> 0 < |fs[i]| <= MAX_MESSAGE_BYTES)
    && (forall i :: 0 <= i < |fs| && !EndsLine(fs[i]) ==> end.Eof? && i == |fs| - 1)
  }

  lemma FirstFrame(s: seq<byte>)
    requires !Oversized(s, MAX_MESSAGE_BYTES)
    ensures var n := LineLen(s, MAX_MESSAGE_BYTES); n <= MAX_MESSAGE_BYTES && (EndsLine(s[..n]) || n == |s|)
  {
  }

  lemma PrefixCons(s: seq<byte>, n: nat, fs: seq<seq<byte>>, end: End)
    requires 0 < n <= |s| && n <= MAX_MESSAGE_BYTES && ServesPrefix(s[n..], fs, end)
    requires EndsLine(s[..n]) || (n == |s| && fs == [] && end.Eof?)
    ensures ServesPrefix(s, [s[..n]] + fs, end)
  {
    FlattenCons(s[..n], fs);
    assert s == s[..n] + s[n..];
  }

  /** A line starts at `p` and runs to the cap without a newline. */
  ghost predicate LongLineAt(s: seq<byte>, p: nat) {
    && p + MAX_MESSAGE_BYTES <= |s|
    && (p == 0 || s[p - 1] == NEWLINE)
    && forall i :: p <= i < p + MAX_MESSAGE_BYTES ==> s[i] != NEWLINE
  }

  lemma OversizedIff(s: seq<byte>)
    ensures Oversized(s, MAX_MESSAGE_BYTES) <==> LongLineAt(s, 0)
  {
    if |s| >= MAX_MESSAGE_BYTES {
      assert s[..MAX_MESSAGE_BYTES][MAX_MESSAGE_BYTES - 1] == s[MAX_MESSAGE_BYTES - 1];
    }
    if LongLineAt(s, 0) {
      LineLenSplit(s, MAX_MESSAGE_BYTES, MAX_MESSAGE_BYTES);
    }
  }

  lemma LongLineShift(s: seq<byte>, n: nat, p: nat)
    requires 0 < n <= |s| && s[n - 1] == NEWLINE
    ensures LongLineAt(s[n..], p) ==> LongLineAt(s, n + p)
    ensures p >= n && LongLineAt(s, p) ==> LongLineAt(s[n..], p - n)
  {
    if LongLineAt(s[n..], p) {
      forall i | n + p <= i < n + p + MAX_MESSAGE_BYTES ensures s[i] != NEWLINE {
        assert s[n..][i - n] != NEWLINE;
      }
      if p > 0 { assert s[n..][p - 1] == s[n + p - 1]; }
    }
  }

  /** The connection is cut for size if and only if some line of the stream is longer than the cap allows, and then
      exactly where the first such line starts, after everything before it has been served. */
  lemma {:induction false} CutIffLongLine(s: seq<byte>)
    ensures Frames(s).1.TooLong? <==> exists p: nat :: LongLineAt(s, p)
    ensures Frames(s).1.TooLong? ==> LongLineAt(s, |Flatten(Frames(s).0)|)
    ensures forall p: nat :: LongLineAt(s, p) ==> p >= |Flatten(Frames(s).0)|
    decreases |s|
  {
    var n := LineLen(s, MAX_MESSAGE_BYTES);
    OversizedIff(s);
    FramesStep(s);
    if !Oversized(s, MAX_MESSAGE_BYTES) && n > 0 {
      var rest := Frames(s[n..]);
      CutIffLongLine(s[n..]);
      FlattenCons(s[..n], rest.0);
      if s[n - 1] == NEWLINE {
        LongLineShift(s, n, |Flatten(rest.0)|);
        forall p: nat | LongLineAt(s, p) ensures LongLineAt(s[n..], p - n) && p >= n + |Flatten(rest.0)| {
          assert p >= n;
          LongLineShift(s, n, p);
        }
      } else {
        NoLongLine(s, n);
        FramesStep(s[n..]);
      }
    }
  }

  /** Such an input: at least 65536 bytes without a newline. Nothing is served and nothing is answered. */
  lemma LongFirstLineIsCut(s: seq<byte>)
    requires |s| >= 65_536 && forall i :: 0 <= i < 65_536 ==> s[i] != 10
    ensures Frames(s) == ([], TooLong)
  {
    OversizedIff(s);
  }

  /** A stream that ends within its first, unterminated line has no long line. */
  lemma NoLongLine(s: seq<byte>, n: nat)
    requires n == LineLen(s, MAX_MESSAGE_BYTES) > 0 && s[n - 1] != NEWLINE && !Oversized(s, MAX_MESSAGE_BYTES)
    ensures n == |s| && s[n..] == [] && forall p: nat :: !LongLineAt(s, p)
  {
    assert s[..n][n - 1] == s[n - 1];
    OversizedIff(s);
  }
}
