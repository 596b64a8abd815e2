/**
  Phase 2 of `dual_phase_serial.py`: `_read_frames` and
  `_send_requests_and_collect`. Each request is written, flushed and
  announced, then `_read_frames` sleeps for the post-write delay (when it is
  not zero) and reads the configured number of response frames. A read that
  times out, or a negative delay (which `time.sleep` refuses), raises out of
  the phase, so no later request is sent.
 */
module ActivePhase {
  import opened Wrappers
  import opened HexText
  import opened DualPhase

  /** Why phase 2 stopped early: `TimeoutError` from a frame read, or `ValueError` from a negative sleep. */
  datatype Failure = FrameTimeout | NegativeSleep

  /** What a stretch of phase 2 did: its events, the read calls it got to, and how it stopped. */
  datatype SendResult = SendResult(events: seq<Event>, readCalls: nat, failure: Option<Failure>)

  /** `for idx in range(idx, count + 1)`: read a frame and print it under `heading`. */
  function ReadLoop(reader: nat -> ReadOutcome, heading: Label, idx: nat, count: int, r: nat): SendResult
    decreases if idx <= count then count + 1 - idx else 0
  {
    if idx > count then SendResult([], r, None)
    else
      match reader(r)
      case Timeout => SendResult([ReadAttempt(Timeout)], r + 1, Some(FrameTimeout))
      case Frame(b) =>
        var rest := ReadLoop(reader, heading, idx + 1, count, r + 1);
        rest.(events := [ReadAttempt(Frame(b)), FrameLine(heading, idx, FormatBytes(b))] + rest.events)
  }

  /** `_read_frames(ser, cfg, count, label=heading, after_write_delay=delay)` from read call `r`. */
  function Responses(reader: nat -> ReadOutcome, heading: Label, count: int, delay: int, r: nat): SendResult {
    if delay < 0 then SendResult([], r, Some(NegativeSleep))
    else
      var loop := ReadLoop(reader, heading, 1, count, r);
      loop.(events := (if delay != 0 then [Slept(delay)] else []) + loop.events)
  }

  /** One pass of the `enumerate(requests, start=1)` loop, for request number `i`. */
  function Exchange(reader: nat -> ReadOutcome, request: seq<byte>, i: nat, count: int, delay: int, r: nat): SendResult {
    var resp := Responses(reader, ResponseTo(i), count, delay, r);
    resp.(events := [Written(request), Flushed, SentLine(i, FormatBytes(request))] + resp.events)
  }

  /** `_send_requests_and_collect` for `requests`, the first of them numbered `i`. */
  function SendAll(reader: nat -> ReadOutcome, requests: seq<seq<byte>>, i: nat, count: int, delay: int, r: nat): SendResult
    decreases |requests|
  {
    if |requests| == 0 then SendResult([], r, None)
    else
      var x := Exchange(reader, requests[0], i, count, delay, r);
      if x.failure.Some? then x
      else
        var rest := SendAll(reader, requests[1..], i + 1, count, delay, x.readCalls);
        rest.(events := x.events + rest.events)
  }

  /** The part still to run, `here`, leads from the trace so far to the trace of the whole stretch. */
  ghost predicate Continues(here: SendResult, trace: seq<Event>, base: seq<Event>, whole: SendResult) {
    trace + here.events == base + whole.events &&
    here.readCalls == whole.readCalls && here.failure == whole.failure
  }

  lemma ReadTimeoutStep(reader: nat -> ReadOutcome, heading: Label, idx: nat, count: int, r: nat,
                        trace: seq<Event>, base: seq<Event>, whole: SendResult)
    requires idx <= count && reader(r) == Timeout
    requires Continues(ReadLoop(reader, heading, idx, count, r), trace, base, whole)
    ensures trace + [ReadAttempt(Timeout)] == base + whole.events
    ensures whole.readCalls == r + 1 && whole.failure == Some(FrameTimeout)
  {
  }

  lemma ReadFrameStep(reader: nat -> ReadOutcome, heading: Label, idx: nat, count: int, r: nat,
                      trace: seq<Event>, base: seq<Event>, whole: SendResult)
    requires idx <= count && reader(r).Frame?
    requires Continues(ReadLoop(reader, heading, idx, count, r), trace, base, whole)
    ensures var tr := trace + [ReadAttempt(reader(r))] + [FrameLine(heading, idx, FormatBytes(reader(r).bytes))];
            Continues(ReadLoop(reader, heading, idx + 1, count, r + 1), tr, base, whole)
  {
  }

  lemma ReadEndStep(reader: nat -> ReadOutcome, heading: Label, idx: nat, count: int, r: nat,
                    trace: seq<Event>, base: seq<Event>, whole: SendResult)
    requires idx > count
    requires Continues(ReadLoop(reader, heading, idx, count, r), trace, base, whole)
    ensures trace == base + whole.events && whole.readCalls == r && whole.failure == None
  {
    assert trace + [] == trace;
  }

  /** `_read_frames`: sleep unless the delay is zero, then read and print `count` frames. */
  method ReadFrames(link: Link, heading: Label, count: int, delay: int) returns (failure: Option<Failure>)
    modifies link
    ensures var spec := Responses(link.reader, heading, count, delay, old(link.readCalls));
            link.trace == old(link.trace) + spec.events && link.readCalls == spec.readCalls &&
            failure == spec.failure
    ensures link.clockCalls == old(link.clockCalls)
  {
    if delay != 0 {
      if delay < 0 {
        return Some(NegativeSleep);
      }
      link.Emit(Slept(delay));
    }
    ghost var base := link.trace;
    ghost var pre: seq<Event> := if delay != 0 then [Slept(delay)] else [];
    ghost var loop := ReadLoop(link.reader, heading, 1, count, link.readCalls);
    assert base == old(link.trace) + pre;
    failure := ReadResponses(link, heading, count);
    assert link.trace == old(link.trace) + (pre + loop.events);
  }

  /** The `for idx in range(1, count + 1)` loop of `_read_frames`. */
  method ReadResponses(link: Link, heading: Label, count: int) returns (failure: Option<Failure>)
    modifies link
    ensures var spec := ReadLoop(link.reader, heading, 1, count, old(link.readCalls));
            link.trace == old(link.trace) + spec.events && link.readCalls == spec.readCalls &&
            failure == spec.failure
    ensures link.clockCalls == old(link.clockCalls)
  {
    ghost var base := link.trace;
    ghost var whole := ReadLoop(link.reader, heading, 1, count, link.readCalls);
    var idx: nat := 1;
    var done := false;
    failure := None;
    while !done && idx <= count
      invariant link.clockCalls == old(link.clockCalls)
      invariant !done ==> failure == None
      invariant !done ==> Continues(ReadLoop(link.reader, heading, idx, count, link.readCalls), link.trace, base, whole)
      invariant done ==> link.trace == base + whole.events && link.readCalls == whole.readCalls &&
                         failure == whole.failure
      decreases !done, count + 1 - idx
    {
      ghost var trace0, r0 := link.trace, link.readCalls;
      var o := link.ReadFrame();
      if o.Timeout? {
        ReadTimeoutStep(link.reader, heading, idx, count, r0, trace0, base, whole);
        failure, done := Some(FrameTimeout), true;
      } else {
        link.Emit(FrameLine(heading, idx, FormatBytes(o.bytes)));
        ReadFrameStep(link.reader, heading, idx, count, r0, trace0, base, whole);
        idx := idx + 1;
      }
    }
    if !done {
      ReadEndStep(link.reader, heading, idx, count, link.readCalls, link.trace, base, whole);
    }
  }

  /** One request: write it, flush, announce it, then collect its responses. */
  method SendRequest(link: Link, request: seq<byte>, i: nat, count: int, delay: int) returns (failure: Option<Failure>)
    modifies link
    ensures var spec := Exchange(link.reader, request, i, count, delay, old(link.readCalls));
            link.trace == old(link.trace) + spec.events && link.readCalls == spec.readCalls &&
            failure == spec.failure
    ensures link.clockCalls == old(link.clockCalls)
  {
    link.Emit(Written(request));
    link.Emit(Flushed);
    link.Emit(SentLine(i, FormatBytes(request)));
    failure := ReadFrames(link, ResponseTo(i), count, delay);
  }

  lemma SendStep(reader: nat -> ReadOutcome, requests: seq<seq<byte>>, k: nat, count: int, delay: int, r: nat,
                 trace: seq<Event>, base: seq<Event>, whole: SendResult)
    requires k < |requests|
    requires Continues(SendAll(reader, requests[k..], k + 1, count, delay, r), trace, base, whole)
    ensures var x := Exchange(reader, requests[k], k + 1, count, delay, r);
            if x.failure.Some? then
              trace + x.events == base + whole.events && x.readCalls == whole.readCalls && x.failure == whole.failure
            else Continues(SendAll(reader, requests[k + 1..], k + 2, count, delay, x.readCalls), trace + x.events, base, whole)
  {
    assert requests[k..][0] == requests[k] && requests[k..][1..] == requests[k + 1..];
  }

  lemma SendEndStep(reader: nat -> ReadOutcome, requests: seq<seq<byte>>, count: int, delay: int, r: nat,
                    trace: seq<Event>, base: seq<Event>, whole: SendResult)
    requires Continues(SendAll(reader, requests[|requests|..], |requests| + 1, count, delay, r), trace, base, whole)
    ensures trace == base + whole.events && whole.readCalls == r && whole.failure == None
  {
    assert requests[|requests|..] == [];
    assert trace + [] == trace;
  }

  /** `_send_requests_and_collect`: the requests in order, numbered from 1, until one fails. */
  method SendRequests(link: Link, requests: seq<seq<byte>>, count: int, delay: int) returns (failure: Option<Failure>)
    modifies link
    ensures var spec := SendAll(link.reader, requests, 1, count, delay, old(link.readCalls));
            link.trace == old(link.trace) + spec.events && link.readCalls == spec.readCalls &&
            failure == spec.failure
    ensures link.clockCalls == old(link.clockCalls)
  {
    ghost var base := link.trace;
    ghost var whole := SendAll(link.reader, requests, 1, count, delay, link.readCalls);
    assert requests[0..] == requests;
    assert link.trace + whole.events == base + whole.events;
    var k := 0;
    failure := None;
    while k < |requests|
      invariant 0 <= k <= |requests|
      invariant link.clockCalls == old(link.clockCalls) && failure == None
      invariant Continues(SendAll(link.reader, requests[k..], k + 1, count, delay, link.readCalls), link.trace, base, whole)
    {
      ghost var trace0, r0 := link.trace, link.readCalls;
      SendStep(link.reader, requests, k, count, delay, r0, trace0, base, whole);
      var f := SendRequest(link, requests[k], k + 1, count, delay);
      if f.Some? {
        return f;
      }
      k := k + 1;
    }
    SendEndStep(link.reader, requests, count, delay, link.readCalls, link.trace, base, whole);
  }

  // ---------------------------------------------------------------------
  // What `_read_frames` does
  // ---------------------------------------------------------------------

  /** The views of a response frame followed by the rest of the loop. */
  lemma ResponseStepViews(b: seq<byte>, heading: Label, idx: nat, rest: seq<Event>)
    requires FrameLinesOf(rest) == Numbered(heading, idx + 1, FramesOf(rest))
    ensures var es := [ReadAttempt(Frame(b)), FrameLine(heading, idx, FormatBytes(b))] + rest;
            FramesOf(es) == [b] + FramesOf(rest) &&
            FrameLinesOf(es) == Numbered(heading, idx, FramesOf(es))
  {
    var e1, e2 := ReadAttempt(Frame(b)), FrameLine(heading, idx, FormatBytes(b));
    assert [e1, e2] + rest == [e1] + ([e2] + rest);
    assert FramesOf([e1] + ([e2] + rest)) == [b] + FramesOf(rest) by {
      FramesCons(e2, rest);
      FramesCons(e1, [e2] + rest);
    }
    assert FrameLinesOf([e1] + ([e2] + rest)) == [e2] + FrameLinesOf(rest) by {
      FrameLinesCons(e2, rest);
      FrameLinesCons(e1, [e2] + rest);
    }
    assert ([b] + FramesOf(rest))[0] == b;
    assert ([b] + FramesOf(rest))[1..] == FramesOf(rest);
  }

  /** The reads and the last event of a response frame followed by the rest of the loop. */
  lemma ReadStepViews(b: seq<byte>, heading: Label, idx: nat, rest: seq<Event>)
    ensures var es := [ReadAttempt(Frame(b)), FrameLine(heading, idx, FormatBytes(b))] + rest;
            ReadsOf(es) == [Frame(b)] + ReadsOf(rest) &&
            (Timeout in ReadsOf(es) <==> Timeout in ReadsOf(rest)) &&
            (|rest| > 0 ==> es[|es| - 1] == rest[|rest| - 1])
  {
    var e1, e2 := ReadAttempt(Frame(b)), FrameLine(heading, idx, FormatBytes(b));
    assert [e1, e2] + rest == [e1] + ([e2] + rest);
    ReadsCons(e2, rest);
    ReadsCons(e1, [e2] + rest);
  }

  /**
    The response loop reads exactly the reader's outcomes from call `r` on; it ends
    without failure exactly when no read timed out, and a timeout is its last event.
   */
  lemma {:induction false} ReadLoopReads(reader: nat -> ReadOutcome, heading: Label, idx: nat, count: int, r: nat)
    ensures var res := ReadLoop(reader, heading, idx, count, r);
            r <= res.readCalls &&
            ReadsOf(res.events) == Script(reader, r, res.readCalls) &&
            (res.failure == None <==> Timeout !in ReadsOf(res.events)) &&
            (res.failure.Some? ==> res.failure == Some(FrameTimeout) && |res.events| > 0 &&
                                   res.events[|res.events| - 1] == ReadAttempt(Timeout))
    decreases if idx <= count then count + 1 - idx else 0
  {
    if idx > count {
      assert Script(reader, r, r) == [];
    } else if reader(r).Timeout? {
      ViewsOne(ReadAttempt(Timeout));
      assert Script(reader, r + 1, r + 1) == [];
    } else {
      var b := reader(r).bytes;
      var rest := ReadLoop(reader, heading, idx + 1, count, r + 1);
      ReadLoopReads(reader, heading, idx + 1, count, r + 1);
      ReadStepViews(b, heading, idx, rest.events);
    }
  }

  /**
    The response loop prints one line per frame under `heading`, numbered on from
    `idx`, and, when no read timed out, it has read one frame for each remaining index.
   */
  lemma {:induction false} ReadLoopLines(reader: nat -> ReadOutcome, heading: Label, idx: nat, count: int, r: nat)
    ensures var res := ReadLoop(reader, heading, idx, count, r);
            var n := if idx <= count then count + 1 - idx else 0;
            FrameLinesOf(res.events) == Numbered(heading, idx, FramesOf(res.events)) &&
            (res.failure == None ==> res.readCalls == r + n && |FramesOf(res.events)| == n)
    decreases if idx <= count then count + 1 - idx else 0
  {
    if idx > count {
    } else if reader(r).Timeout? {
      ViewsOne(ReadAttempt(Timeout));
    } else {
      var b := reader(r).bytes;
      var rest := ReadLoop(reader, heading, idx + 1, count, r + 1);
      ReadLoopLines(reader, heading, idx + 1, count, r + 1);
      ResponseStepViews(b, heading, idx, rest.events);
    }
  }

  /** Only reads and frame lines under `heading`: nothing written, flushed, slept, sent or timed. */
  predicate OnlyReading(es: seq<Event>, heading: Label) {
    forall j :: 0 <= j < |es| ==> es[j].ReadAttempt? || (es[j].FrameLine? && es[j].heading == heading)
  }

  lemma {:induction false} ReadLoopOnlyReads(reader: nat -> ReadOutcome, heading: Label, idx: nat, count: int, r: nat)
    ensures OnlyReading(ReadLoop(reader, heading, idx, count, r).events, heading)
    decreases if idx <= count then count + 1 - idx else 0
  {
    if idx <= count && reader(r).Frame? {
      var b := reader(r).bytes;
      var rest := ReadLoop(reader, heading, idx + 1, count, r + 1);
      ReadLoopOnlyReads(reader, heading, idx + 1, count, r + 1);
      var es := [ReadAttempt(Frame(b)), FrameLine(heading, idx, FormatBytes(b))] + rest.events;
      forall j | 2 <= j < |es|
        ensures es[j] == rest.events[j - 2]
      {
      }
    }
  }

  /** A stretch of reading writes, sleeps and sends nothing. */
  lemma {:induction false} QuietReading(es: seq<Event>, heading: Label)
    requires OnlyReading(es, heading)
    ensures WrittenOf(es) == [] && SleepsOf(es) == [] && SentLinesOf(es) == []
  {
    if |es| > 0 {
      assert OnlyReading(es[1..], heading) by {
        forall j | 0 <= j < |es[1..]| ensures es[1..][j] == es[j + 1] { }
      }
      QuietReading(es[1..], heading);
    }
  }

  /**
    `_read_frames` with a negative delay fails before anything happens; otherwise
    it sleeps once exactly when the delay is positive. It never writes or announces.
   */
  lemma ResponsesSleep(reader: nat -> ReadOutcome, heading: Label, count: int, delay: int, r: nat)
    ensures var res := Responses(reader, heading, count, delay, r);
            (res.failure == Some(NegativeSleep) <==> delay < 0) &&
            (delay < 0 ==> res.events == [] && res.readCalls == r) &&
            SleepsOf(res.events) == (if delay > 0 then [delay] else []) &&
            WrittenOf(res.events) == [] && SentLinesOf(res.events) == []
  {
    if delay >= 0 {
      var loop := ReadLoop(reader, heading, 1, count, r);
      ReadLoopReads(reader, heading, 1, count, r);
      ReadLoopOnlyReads(reader, heading, 1, count, r);
      QuietReading(loop.events, heading);
      var pre: seq<Event> := if delay != 0 then [Slept(delay)] else [];
      SleepsConcat(pre, loop.events);
      WrittenConcat(pre, loop.events);
      SentLinesConcat(pre, loop.events);
      ViewsOne(Slept(delay));
    }
  }

  /**
    `_read_frames` reads exactly the reader's outcomes in order; it fails with a
    timeout exactly when a read timed out, and that read is its last event.
   */
  lemma ResponsesReads(reader: nat -> ReadOutcome, heading: Label, count: int, delay: int, r: nat)
    ensures var res := Responses(reader, heading, count, delay, r);
            r <= res.readCalls &&
            ReadsOf(res.events) == Script(reader, r, res.readCalls) &&
            (res.failure == Some(FrameTimeout) <==> Timeout in ReadsOf(res.events)) &&
            (res.failure == Some(FrameTimeout) ==> |res.events| > 0 && res.events[|res.events| - 1] == ReadAttempt(Timeout))
  {
    if delay < 0 {
      assert Script(reader, r, r) == [];
    } else {
      var loop := ReadLoop(reader, heading, 1, count, r);
      ReadLoopReads(reader, heading, 1, count, r);
      var pre: seq<Event> := if delay != 0 then [Slept(delay)] else [];
      ReadsConcat(pre, loop.events);
      ViewsOne(Slept(delay));
      assert ReadsOf(pre) == [];
      var es := pre + loop.events;
      assert loop.events != [] ==> es[|es| - 1] == loop.events[|loop.events| - 1];
    }
  }

  /**
    `_read_frames` prints the frames it reads numbered from 1 under `heading`, and,
    unless something failed, it has read `count` frames (none when `count` is not positive).
   */
  lemma ResponsesLines(reader: nat -> ReadOutcome, heading: Label, count: int, delay: int, r: nat)
    ensures var res := Responses(reader, heading, count, delay, r);
            var n := if count > 0 then count else 0;
            FrameLinesOf(res.events) == Numbered(heading, 1, FramesOf(res.events)) &&
            (res.failure == None ==> res.readCalls == r + n && |FramesOf(res.events)| == n)
  {
    if delay >= 0 {
      var loop := ReadLoop(reader, heading, 1, count, r);
      ReadLoopLines(reader, heading, 1, count, r);
      var pre: seq<Event> := if delay != 0 then [Slept(delay)] else [];
      FramesConcat(pre, loop.events);
      FrameLinesConcat(pre, loop.events);
      ViewsOne(Slept(delay));
      assert FramesOf(pre) == [] && FrameLinesOf(pre) == [];
      assert FramesOf(pre + loop.events) == FramesOf(loop.events);
      assert FrameLinesOf(pre + loop.events) == FrameLinesOf(loop.events);
    }
  }

  lemma ResponsesActive(reader: nat -> ReadOutcome, heading: Label, count: int, delay: int, r: nat)
    requires heading.ResponseTo?
    ensures OnlyActive(Responses(reader, heading, count, delay, r).events)
  {
    if delay >= 0 {
      var loop := ReadLoop(reader, heading, 1, count, r);
      ReadLoopOnlyReads(reader, heading, 1, count, r);
      assert OnlyActive(loop.events);
      var pre: seq<Event> := if delay != 0 then [Slept(delay)] else [];
      ActiveConcat(pre, loop.events);
    }
  }

  // ---------------------------------------------------------------------
  // What `_send_requests_and_collect` does
  // ---------------------------------------------------------------------

  /** One event of phase 2: a write, a flush, a sleep, an announcement, a read or a response line. */
  predicate IsActive(e: Event) {
    e.Written? || e.Flushed? || e.Slept? || e.SentLine? || e.ReadAttempt? ||
    (e.FrameLine? && e.heading.ResponseTo?)
  }

  /** Only phase-2 events: no clock readings, no `Okamzite` lines, nothing about the port or the parse. */
  predicate OnlyActive(es: seq<Event>) {
    forall j :: 0 <= j < |es| ==> IsActive(es[j])
  }

  lemma ActiveConcat(a: seq<Event>, b: seq<Event>)
    requires OnlyActive(a) && OnlyActive(b)
    ensures OnlyActive(a + b)
  {
    forall j | |a| <= j < |a + b|
      ensures (a + b)[j] == b[j - |a|]
    {
    }
  }

  /** The "Sent request" lines for `requests`, the first numbered `i`. */
  function Announced(i: nat, requests: seq<seq<byte>>): seq<Event>
    decreases |requests|
  {
    if |requests| == 0 then []
    else [SentLine(i, FormatBytes(requests[0]))] + Announced(i + 1, requests[1..])
  }

  /** One request is written first, written once and announced once; the rest is its responses. */
  lemma ExchangeWrites(reader: nat -> ReadOutcome, request: seq<byte>, i: nat, count: int, delay: int, r: nat)
    ensures var x := Exchange(reader, request, i, count, delay, r);
            var resp := Responses(reader, ResponseTo(i), count, delay, r);
            x.events[0] == Written(request) && x.events[1] == Flushed &&
            x.events[2] == SentLine(i, FormatBytes(request)) &&
            WrittenOf(x.events) == [request] &&
            SentLinesOf(x.events) == [SentLine(i, FormatBytes(request))] &&
            SleepsOf(x.events) == SleepsOf(resp.events) &&
            x.readCalls == resp.readCalls && x.failure == resp.failure
  {
    var resp := Responses(reader, ResponseTo(i), count, delay, r);
    ResponsesSleep(reader, ResponseTo(i), count, delay, r);
    AnnounceViews(request, i, resp.events);
  }

  /** The views of write, flush and announce, followed by `rest`. */
  lemma AnnounceViews(request: seq<byte>, i: nat, rest: seq<Event>)
    ensures var es := [Written(request), Flushed, SentLine(i, FormatBytes(request))] + rest;
            WrittenOf(es) == [request] + WrittenOf(rest) &&
            SentLinesOf(es) == [SentLine(i, FormatBytes(request))] + SentLinesOf(rest) &&
            SleepsOf(es) == SleepsOf(rest)
  {
    var e1, e2, e3 := Written(request), Flushed, SentLine(i, FormatBytes(request));
    ThreeCons(e1, e2, e3, rest);
    var t3 := [e3] + rest;
    var t2 := [e2] + t3;
    assert WrittenOf([e1] + t2) == [request] + WrittenOf(rest) by {
      WrittenCons(e3, rest);
      WrittenCons(e2, t3);
      WrittenCons(e1, t2);
    }
    assert SentLinesOf([e1] + t2) == [e3] + SentLinesOf(rest) by {
      SentLinesCons(e3, rest);
      SentLinesCons(e2, t3);
      SentLinesCons(e1, t2);
    }
    assert SleepsOf([e1] + t2) == SleepsOf(rest) by {
      SleepsCons(e3, rest);
      SleepsCons(e2, t3);
      SleepsCons(e1, t2);
    }
  }

  /**
    The reads of one request are those of its responses, printed as "Response to
    request `i`" numbered from 1, and phase 2 touches neither the clock nor the
    `Okamzite` lines.
   */
  lemma ExchangeReads(reader: nat -> ReadOutcome, request: seq<byte>, i: nat, count: int, delay: int, r: nat)
    ensures var x := Exchange(reader, request, i, count, delay, r);
            var resp := Responses(reader, ResponseTo(i), count, delay, r);
            ReadsOf(x.events) == ReadsOf(resp.events) &&
            FramesOf(x.events) == FramesOf(resp.events) &&
            FrameLinesOf(x.events) == Numbered(ResponseTo(i), 1, FramesOf(x.events)) &&
            (resp.events != [] ==> x.events[|x.events| - 1] == resp.events[|resp.events| - 1]) &&
            OnlyActive(x.events)
  {
    var resp := Responses(reader, ResponseTo(i), count, delay, r);
    ResponsesLines(reader, ResponseTo(i), count, delay, r);
    ResponsesActive(reader, ResponseTo(i), count, delay, r);
    PrefixViews(request, i, resp.events);
  }

  /** What write, flush and announce, put before `rest`, leave unchanged: the reads, the frames and the last event. */
  lemma PrefixViews(request: seq<byte>, i: nat, rest: seq<Event>)
    ensures var es := [Written(request), Flushed, SentLine(i, FormatBytes(request))] + rest;
            ReadsOf(es) == ReadsOf(rest) && FramesOf(es) == FramesOf(rest) && FrameLinesOf(es) == FrameLinesOf(rest) &&
            (rest != [] ==> es[|es| - 1] == rest[|rest| - 1]) &&
            (OnlyActive(rest) ==> OnlyActive(es))
  {
    var e1, e2, e3 := Written(request), Flushed, SentLine(i, FormatBytes(request));
    var h := [e1, e2, e3];
    ThreeCons(e1, e2, e3, rest);
    var t3 := [e3] + rest;
    var t2 := [e2] + t3;
    assert ReadsOf([e1] + t2) == ReadsOf(rest) by {
      ReadsCons(e3, rest);
      ReadsCons(e2, t3);
      ReadsCons(e1, t2);
    }
    assert FramesOf([e1] + t2) == FramesOf(rest) by {
      FramesCons(e3, rest);
      FramesCons(e2, t3);
      FramesCons(e1, t2);
    }
    assert FrameLinesOf([e1] + t2) == FrameLinesOf(rest) by {
      FrameLinesCons(e3, rest);
      FrameLinesCons(e2, t3);
      FrameLinesCons(e1, t2);
    }
    if OnlyActive(rest) {
      assert OnlyActive(h);
      ActiveConcat(h, rest);
    }
  }

  /** One request reads the reader's outcomes in order, and `count` frames of them when nothing failed. */
  lemma ExchangeScript(reader: nat -> ReadOutcome, request: seq<byte>, i: nat, count: int, delay: int, r: nat)
    ensures var x := Exchange(reader, request, i, count, delay, r);
            var n := if count > 0 then count else 0;
            r <= x.readCalls && ReadsOf(x.events) == Script(reader, r, x.readCalls) &&
            (x.failure == None ==> x.readCalls == r + n)
  {
    var resp := Responses(reader, ResponseTo(i), count, delay, r);
    assert r <= resp.readCalls && ReadsOf(resp.events) == Script(reader, r, resp.readCalls) by {
      ResponsesReads(reader, ResponseTo(i), count, delay, r);
    }
    assert var n := if count > 0 then count else 0; resp.failure == None ==> resp.readCalls == r + n by {
      ResponsesLines(reader, ResponseTo(i), count, delay, r);
    }
    PrefixViews(request, i, resp.events);
  }

  /** One request neither reads the clock nor prints an `Okamzite` line. */
  lemma ExchangeActive(reader: nat -> ReadOutcome, request: seq<byte>, i: nat, count: int, delay: int, r: nat)
    ensures OnlyActive(Exchange(reader, request, i, count, delay, r).events)
  {
    var resp := Responses(reader, ResponseTo(i), count, delay, r);
    ResponsesActive(reader, ResponseTo(i), count, delay, r);
    PrefixViews(request, i, resp.events);
  }

  /** One request ends with `FrameTimeout` exactly when one of its reads timed out, and that read is then its last event. */
  lemma ExchangeTimeout(reader: nat -> ReadOutcome, request: seq<byte>, i: nat, count: int, delay: int, r: nat)
    ensures var x := Exchange(reader, request, i, count, delay, r);
            (x.failure == Some(FrameTimeout) <==> Timeout in ReadsOf(x.events)) &&
            (x.failure == Some(FrameTimeout) ==> |x.events| > 0 && x.events[|x.events| - 1] == ReadAttempt(Timeout))
  {
    var resp := Responses(reader, ResponseTo(i), count, delay, r);
    ResponsesReads(reader, ResponseTo(i), count, delay, r);
    PrefixViews(request, i, resp.events);
  }

  /**
    The requests written are the first ones, in order: all of them when nothing
    failed, at least one when something did. A negative delay fails on the first request.
   */
  lemma {:induction false} SendAllPrefix(reader: nat -> ReadOutcome, requests: seq<seq<byte>>, i: nat, count: int, delay: int, r: nat)
    ensures var x := SendAll(reader, requests, i, count, delay, r);
            var w := WrittenOf(x.events);
            |w| <= |requests| && w == requests[..|w|] &&
            (x.failure == None ==> w == requests) &&
            (x.failure.Some? ==> |w| > 0) &&
            (x.failure == Some(NegativeSleep) <==> delay < 0 && |requests| > 0)
    decreases |requests|
  {
    if |requests| > 0 {
      var req := requests[0];
      var first := Exchange(reader, req, i, count, delay, r);
      ExchangeWrites(reader, req, i, count, delay, r);
      ResponsesSleep(reader, ResponseTo(i), count, delay, r);
      assert [req] == requests[..1];
      if first.failure == None {
        var rest := SendAll(reader, requests[1..], i + 1, count, delay, first.readCalls);
        SendAllPrefix(reader, requests[1..], i + 1, count, delay, first.readCalls);
        WrittenConcat(first.events, rest.events);
        var wr := WrittenOf(rest.events);
        assert [req] + wr == requests[..|wr| + 1];
      }
    }
  }

  /** Each written request is announced once, with its number, in order. */
  lemma {:induction false} SendAllAnnounced(reader: nat -> ReadOutcome, requests: seq<seq<byte>>, i: nat, count: int, delay: int, r: nat)
    ensures var x := SendAll(reader, requests, i, count, delay, r);
            SentLinesOf(x.events) == Announced(i, WrittenOf(x.events))
    decreases |requests|
  {
    if |requests| > 0 {
      var req := requests[0];
      var first := Exchange(reader, req, i, count, delay, r);
      ExchangeWrites(reader, req, i, count, delay, r);
      assert [req][1..] == requests[..0];
      if first.failure == None {
        var rest := SendAll(reader, requests[1..], i + 1, count, delay, first.readCalls);
        SendAllAnnounced(reader, requests[1..], i + 1, count, delay, first.readCalls);
        WrittenConcat(first.events, rest.events);
        SentLinesConcat(first.events, rest.events);
        var wr := WrittenOf(rest.events);
        assert ([req] + wr)[0] == req && ([req] + wr)[1..] == wr;
      }
    }
  }

  /** Each written request is followed by one sleep when the delay is positive, and by none otherwise. */
  lemma {:induction false} SendAllSleeps(reader: nat -> ReadOutcome, requests: seq<seq<byte>>, i: nat, count: int, delay: int, r: nat)
    ensures var x := SendAll(reader, requests, i, count, delay, r);
            SleepsOf(x.events) == (if delay > 0 then seq(|WrittenOf(x.events)|, _ => delay) else [])
    decreases |requests|
  {
    if |requests| > 0 {
      var req := requests[0];
      var first := Exchange(reader, req, i, count, delay, r);
      ExchangeWrites(reader, req, i, count, delay, r);
      ResponsesSleep(reader, ResponseTo(i), count, delay, r);
      assert delay > 0 ==> seq(1, _ => delay) == [delay];
      if first.failure == None {
        var rest := SendAll(reader, requests[1..], i + 1, count, delay, first.readCalls);
        SendAllSleeps(reader, requests[1..], i + 1, count, delay, first.readCalls);
        WrittenConcat(first.events, rest.events);
        SleepsConcat(first.events, rest.events);
        var k := |WrittenOf(rest.events)|;
        assert delay > 0 ==> [delay] + seq(k, _ => delay) == seq(k + 1, _ => delay);
      }
    }
  }

  /**
    Phase 2 reads exactly the reader's outcomes in order, and it ends without
    failure only after reading `count` frames for every request (none when `count`
    is not positive).
   */
  lemma {:induction false} SendAllScript(reader: nat -> ReadOutcome, requests: seq<seq<byte>>, i: nat, count: int, delay: int, r: nat)
    ensures var x := SendAll(reader, requests, i, count, delay, r);
            var n := if count > 0 then count else 0;
            r <= x.readCalls &&
            ReadsOf(x.events) == Script(reader, r, x.readCalls) &&
            (x.failure == None ==> x.readCalls == r + |requests| * n)
    decreases |requests|
  {
    if |requests| == 0 {
      assert Script(reader, r, r) == [];
    } else {
      var req := requests[0];
      var first := Exchange(reader, req, i, count, delay, r);
      ExchangeScript(reader, req, i, count, delay, r);
      if first.failure == None {
        var rest := SendAll(reader, requests[1..], i + 1, count, delay, first.readCalls);
        SendAllScript(reader, requests[1..], i + 1, count, delay, first.readCalls);
        ReadsConcat(first.events, rest.events);
        ScriptConcat(reader, r, first.readCalls, rest.readCalls);
        var n := if count > 0 then count else 0;
        assert (|requests| - 1) * n + n == |requests| * n;
      }
    }
  }

  /** Phase 2 ends with `FrameTimeout` exactly when a read timed out. */
  lemma {:induction false} SendAllTimeout(reader: nat -> ReadOutcome, requests: seq<seq<byte>>, i: nat, count: int, delay: int, r: nat)
    ensures var x := SendAll(reader, requests, i, count, delay, r);
            x.failure == Some(FrameTimeout) <==> Timeout in ReadsOf(x.events)
    decreases |requests|
  {
    if |requests| > 0 {
      var req := requests[0];
      var first := Exchange(reader, req, i, count, delay, r);
      ExchangeTimeout(reader, req, i, count, delay, r);
      if first.failure == None {
        var rest := SendAll(reader, requests[1..], i + 1, count, delay, first.readCalls);
        SendAllTimeout(reader, requests[1..], i + 1, count, delay, first.readCalls);
        ReadsConcat(first.events, rest.events);
      }
    }
  }

  /** When phase 2 ends with `FrameTimeout`, the read that timed out is its last event. */
  lemma {:induction false} SendAllTimeoutLast(reader: nat -> ReadOutcome, requests: seq<seq<byte>>, i: nat, count: int, delay: int, r: nat)
    ensures var x := SendAll(reader, requests, i, count, delay, r);
            x.failure == Some(FrameTimeout) ==> x.events[|x.events| - 1] == ReadAttempt(Timeout)
    decreases |requests|
  {
    if |requests| > 0 {
      var req := requests[0];
      var first := Exchange(reader, req, i, count, delay, r);
      ExchangeTimeout(reader, req, i, count, delay, r);
      if first.failure == None {
        var rest := SendAll(reader, requests[1..], i + 1, count, delay, first.readCalls);
        SendAllTimeoutLast(reader, requests[1..], i + 1, count, delay, first.readCalls);
        var es := first.events + rest.events;
        assert rest.failure == Some(FrameTimeout) ==> |rest.events| > 0 && es[|es| - 1] == rest.events[|rest.events| - 1];
      }
    }
  }

  /** Phase 2 never reads the clock, prints an `Okamzite` line or touches the port's opening or closing. */
  lemma {:induction false} SendAllActive(reader: nat -> ReadOutcome, requests: seq<seq<byte>>, i: nat, count: int, delay: int, r: nat)
    ensures OnlyActive(SendAll(reader, requests, i, count, delay, r).events)
    decreases |requests|
  {
    if |requests| > 0 {
      var req := requests[0];
      var first := Exchange(reader, req, i, count, delay, r);
      ExchangeActive(reader, req, i, count, delay, r);
      if first.failure == None {
        var rest := SendAll(reader, requests[1..], i + 1, count, delay, first.readCalls);
        SendAllActive(reader, requests[1..], i + 1, count, delay, first.readCalls);
        ActiveConcat(first.events, rest.events);
      }
    }
  }

  lemma {:induction false} ScriptConcat(reader: nat -> ReadOutcome, a: nat, b: nat, c: nat)
    requires a <= b <= c
    ensures Script(reader, a, c) == Script(reader, a, b) + Script(reader, b, c)
    decreases b - a
  {
    if a < b {
      ScriptConcat(reader, a + 1, b, c);
    } else {
      assert Script(reader, a, b) == [];
    }
  }
}
