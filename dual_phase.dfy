/**
  The two-phase acquisition of `dual_phase_serial.py`: a passive listen
  phase bounded by a clock deadline, then an active phase that writes each
  request and reads a fixed number of response frames, sequenced by `main`.

  The serial port, the console, `time.time()`, `time.sleep()` and the frame
  reader are one `Link` object whose `trace` records every interaction in
  order. The clock and the frame reader are scripts: the `k`-th reading of
  the clock is `clock(k)`, the `k`-th frame read returns `reader(k)`.
 */
module DualPhase {
  import opened Wrappers
  import opened HexText
  import opened HexParse
  import PyInt
  import opened Ticks

  // ---------------------------------------------------------------------
  // `_format_bytes`
  // ---------------------------------------------------------------------

  /** `", ".join(f"{b:02X}" for b in data)`. */
  function FormatBytes(data: seq<byte>): string {
    Join(data, ", ")
  }

  /** Empty data renders as "", `n` bytes as `4n - 2` characters: byte `i` at `4i`, ", " after it. */
  lemma FormatBytesShape(data: seq<byte>)
    ensures |data| == 0 ==> FormatBytes(data) == ""
    ensures |data| > 0 ==> |FormatBytes(data)| == 4 * |data| - 2
    ensures forall i :: 0 <= i < |data| ==> FormatBytes(data)[4 * i .. 4 * i + 2] == Hex2(data[i])
    ensures forall i :: 0 <= i < |data| - 1 ==> FormatBytes(data)[4 * i + 2 .. 4 * i + 4] == ", "
  {
    forall i | 0 <= i < |data|
      ensures FormatBytes(data)[4 * i .. 4 * i + 2] == Hex2(data[i])
      ensures i < |data| - 1 ==> FormatBytes(data)[4 * i + 2 .. 4 * i + 4] == ", "
    {
      FormatField(data, i);
    }
  }

  /** Byte `i` of the data at `4i`, and ", " after it unless it is the last. */
  lemma FormatField(data: seq<byte>, i: nat)
    requires i < |data|
    ensures 4 * i + 2 <= |FormatBytes(data)| && FormatBytes(data)[4 * i .. 4 * i + 2] == Hex2(data[i])
    ensures i + 1 < |data| ==> 4 * i + 4 <= |FormatBytes(data)| && FormatBytes(data)[4 * i + 2 .. 4 * i + 4] == ", "
  {
    var sep := ", ";
    assert |sep| == 2;
    JoinAt(data, sep, i);
    assert i * (2 + |sep|) == 4 * i;
  }

  /** Different data never render alike. */
  lemma FormatBytesInjective(a: seq<byte>, b: seq<byte>)
    requires FormatBytes(a) == FormatBytes(b)
    ensures a == b
  {
    JoinInjective(a, b, ", ");
  }

  /** The rendering does not parse back: its pairs are bare hexadecimal, read as decimal or refused. */
  lemma FormatBytesNotReparsed()
    ensures FormatBytes([0x7E, 0x14]) == "7E, 14"
    ensures ParseSpec(FormatBytes([0x7E, 0x14])).Err?
  {
    var data: seq<byte> := [0x7E, 0x14];
    assert Hex2(0x7E) == "7E" && Hex2(0x14) == "14";
    assert data[1..] == [0x14];
    assert FormatBytes(data) == "7E" + ", " + "14";
    FormatNotReparsedTokens();
    PyInt.RefusedExamples();
  }

  lemma FormatNotReparsedTokens()
    ensures Tokens("7E, 14") == ["7E", "14"]
  {
    var ws := ["7E", "14"];
    assert ws[1..] == ["14"];
    assert Unwords(ws) == "7E 14";
    NormalizeUnwords(ws);
    SplitUnwords(ws);
    var s, t := "7E, 14", "7E  14";
    forall i | 0 <= i < |s|
      ensures (IsSeparator(s[i]) <==> IsSeparator(t[i])) && (!IsSeparator(s[i]) ==> s[i] == t[i])
    {
    }
    TokensSameSeparators(s, t);
    TokensCollapse("7E", ' ', ' ', "14");
    assert "7E" + [' ', ' '] + "14" == t;
    assert "7E" + [' '] + "14" == "7E 14";
  }

  // ---------------------------------------------------------------------
  // The link and its trace
  // ---------------------------------------------------------------------

  /** What one call of the frame reader returns: a frame, or `TimeoutError`. */
  datatype ReadOutcome = Frame(bytes: seq<byte>) | Timeout

  /** The label of a printed frame line. */
  datatype Label = Okamzite | ResponseTo(request: nat)

  /** One interaction with the outside world, in the order it happens. */
  datatype Event =
    | ClockRead(time: int)                              // time.time()
    | ReadAttempt(outcome: ReadOutcome)                 // _read_one_frame_from_serial
    | FrameLine(heading: Label, index: nat, shown: string) // print: "<label> <index>: <bytes>"
    | NoFramesLine                                       // print: no frames captured
    | Written(data: seq<byte>)                          // ser.write
    | Flushed                                            // ser.flush
    | Slept(duration: int)                               // time.sleep
    | SentLine(index: nat, shown: string)                // print: "Sent request <index>: <bytes>"
    | NoRequestsLine                                     // print: no additional requests
    | ParseErrorLine(raw: string, error: ParseError)     // stderr: could not parse request
    | OpeningLine                                        // print: the "Opening" banner
    | PortOpened                                         // serial.Serial(...)
    | PortClosed                                         // leaving the `with` block

  /** The serial port, the console and the clock, as seen by the program. */
  class Link {
    const clock: nat -> int
    const reader: nat -> ReadOutcome
    var clockCalls: nat
    var readCalls: nat
    var trace: seq<Event>

    constructor (clock: nat -> int, reader: nat -> ReadOutcome)
      ensures this.clock == clock && this.reader == reader
      ensures clockCalls == 0 && readCalls == 0 && trace == []
    {
      this.clock := clock;
      this.reader := reader;
      clockCalls, readCalls, trace := 0, 0, [];
    }

    /** `time.time()`. */
    method Now() returns (t: int)
      modifies this
      ensures t == clock(old(clockCalls)) && clockCalls == old(clockCalls) + 1
      ensures readCalls == old(readCalls) && trace == old(trace) + [ClockRead(t)]
    {
      t := clock(clockCalls);
      clockCalls := clockCalls + 1;
      trace := trace + [ClockRead(t)];
    }

    /** `_read_one_frame_from_serial(ser, cfg)`. */
    method ReadFrame() returns (o: ReadOutcome)
      modifies this
      ensures o == reader(old(readCalls)) && readCalls == old(readCalls) + 1
      ensures clockCalls == old(clockCalls) && trace == old(trace) + [ReadAttempt(o)]
    {
      o := reader(readCalls);
      readCalls := readCalls + 1;
      trace := trace + [ReadAttempt(o)];
    }

    /** Any other interaction: a write, a flush, a sleep or a printed line. */
    method Emit(e: Event)
      modifies this
      ensures clockCalls == old(clockCalls) && readCalls == old(readCalls)
      ensures trace == old(trace) + [e]
    {
      trace := trace + [e];
    }
  }

  // ---------------------------------------------------------------------
  // Phase 1: `_listen_for_initial_values`
  // ---------------------------------------------------------------------

  /** What a stretch of the program did: its events, the clock and reader calls it got to, and its frame count. */
  datatype ListenResult = ListenResult(events: seq<Event>, clockCalls: nat, readCalls: nat, observed: nat)

  /** The `while time.time() < deadline` loop from clock call `c`, read call `r` and `observed` frames on. */
  function ListenLoop(clock: nat -> int, reader: nat -> ReadOutcome, deadline: int, c: nat, r: nat, observed: nat): ListenResult
    requires IsTicking(clock)
    decreases deadline - clock(c)
  {
    var t := clock(c);
    if t >= deadline then ListenResult([ClockRead(t)], c + 1, r, observed)
    else
      match reader(r)
      case Frame(b) =>
        var rest := ListenLoop(clock, reader, deadline, c + 1, r + 1, observed + 1);
        rest.(events := [ClockRead(t), ReadAttempt(Frame(b)), FrameLine(Okamzite, observed + 1, FormatBytes(b))] + rest.events)
      case Timeout =>
        var t2 := clock(c + 1);
        if t2 >= deadline then ListenResult([ClockRead(t), ReadAttempt(Timeout), ClockRead(t2)], c + 2, r + 1, observed)
        else
          assert clock(c + 1) < clock(c + 2);
          var rest := ListenLoop(clock, reader, deadline, c + 2, r + 1, observed);
          rest.(events := [ClockRead(t), ReadAttempt(Timeout), ClockRead(t2)] + rest.events)
  }

  /** The whole listen phase: read the clock for the deadline, loop, and report when nothing came. */
  function ListenPhase(clock: nat -> int, reader: nat -> ReadOutcome, seconds: int, c: nat, r: nat): ListenResult
    requires IsTicking(clock)
  {
    var deadline := clock(c) + seconds;
    var loop := ListenLoop(clock, reader, deadline, c + 1, r, 0);
    loop.(events := [ClockRead(clock(c))] + loop.events + (if loop.observed == 0 then [NoFramesLine] else []))
  }

  /** The loop still to run, `here`, leads from the trace so far to the trace of the whole loop. */
  ghost predicate Continues(here: ListenResult, trace: seq<Event>, base: seq<Event>, whole: ListenResult) {
    trace + here.events == base + whole.events &&
    here.clockCalls == whole.clockCalls && here.readCalls == whole.readCalls && here.observed == whole.observed
  }

  lemma ListenTimeoutStep(clock: nat -> int, reader: nat -> ReadOutcome, deadline: int, c: nat, r: nat, observed: nat,
                          trace: seq<Event>, base: seq<Event>, whole: ListenResult)
    requires IsTicking(clock) && clock(c) < deadline && reader(r) == Timeout
    requires Continues(ListenLoop(clock, reader, deadline, c, r, observed), trace, base, whole)
    ensures var tr := trace + [ClockRead(clock(c))] + [ReadAttempt(Timeout)] + [ClockRead(clock(c + 1))];
            if clock(c + 1) >= deadline then
              tr == base + whole.events && whole.clockCalls == c + 2 && whole.readCalls == r + 1 &&
              whole.observed == observed
            else Continues(ListenLoop(clock, reader, deadline, c + 2, r + 1, observed), tr, base, whole)
  {
    assert clock(c + 1) < clock(c + 2);
  }

  lemma ListenStopStep(clock: nat -> int, reader: nat -> ReadOutcome, deadline: int, c: nat, r: nat, observed: nat,
                       trace: seq<Event>, base: seq<Event>, whole: ListenResult)
    requires IsTicking(clock) && clock(c) >= deadline
    requires Continues(ListenLoop(clock, reader, deadline, c, r, observed), trace, base, whole)
    ensures trace + [ClockRead(clock(c))] == base + whole.events
    ensures whole.clockCalls == c + 1 && whole.readCalls == r && whole.observed == observed
  {
  }

  lemma ListenFrameStep(clock: nat -> int, reader: nat -> ReadOutcome, deadline: int, c: nat, r: nat, observed: nat,
                        trace: seq<Event>, base: seq<Event>, whole: ListenResult)
    requires IsTicking(clock) && clock(c) < deadline && reader(r).Frame?
    requires Continues(ListenLoop(clock, reader, deadline, c, r, observed), trace, base, whole)
    ensures var tr := trace + [ClockRead(clock(c))] + [ReadAttempt(reader(r))] + [FrameLine(Okamzite, observed + 1, FormatBytes(reader(r).bytes))];
            Continues(ListenLoop(clock, reader, deadline, c + 1, r + 1, observed + 1), tr, base, whole)
  {
  }

  /**
    One pass of the `while time.time() < deadline` loop: read the clock and stop at
    the deadline; otherwise read a frame and print it, or, on a timeout, read the
    clock again and stop if the deadline has passed.
   */
  method ListenAttempt(link: Link, deadline: int, observed: nat, ghost base: seq<Event>, ghost whole: ListenResult)
      returns (done: bool, seen: nat)
    requires IsTicking(link.clock)
    requires Continues(ListenLoop(link.clock, link.reader, deadline, link.clockCalls, link.readCalls, observed), link.trace, base, whole)
    modifies link
    ensures link.clockCalls > old(link.clockCalls)
    ensures !done ==> link.clock(old(link.clockCalls)) < deadline
    ensures done ==> link.trace == base + whole.events && seen == whole.observed
    ensures done ==> link.clockCalls == whole.clockCalls && link.readCalls == whole.readCalls
    ensures !done ==> Continues(ListenLoop(link.clock, link.reader, deadline, link.clockCalls, link.readCalls, seen), link.trace, base, whole)
  {
    ghost var c, r, tr := link.clockCalls, link.readCalls, link.trace;
    seen := observed;
    var t := link.Now();
    if t >= deadline {
      ListenStopStep(link.clock, link.reader, deadline, c, r, observed, tr, base, whole);
      return true, seen;
    }
    var outcome := link.ReadFrame();
    if outcome.Timeout? {
      var t2 := link.Now();
      ListenTimeoutStep(link.clock, link.reader, deadline, c, r, observed, tr, base, whole);
      return t2 >= deadline, seen;
    }
    ListenFrameStep(link.clock, link.reader, deadline, c, r, observed, tr, base, whole);
    seen := observed + 1;
    link.Emit(FrameLine(Okamzite, seen, FormatBytes(outcome.bytes)));
    return false, seen;
  }

  /** `_listen_for_initial_values(ser, cfg, initial_seconds)`. */
  method Listen(link: Link, seconds: int)
    requires IsTicking(link.clock)
    modifies link
    ensures var spec := ListenPhase(link.clock, link.reader, seconds, old(link.clockCalls), old(link.readCalls));
              link.trace == old(link.trace) + spec.events &&
              link.clockCalls == spec.clockCalls && link.readCalls == spec.readCalls
  {
    var start := link.Now();
    var deadline := start + seconds;
    ghost var whole := ListenLoop(link.clock, link.reader, deadline, link.clockCalls, link.readCalls, 0);
    ghost var base := link.trace;
    var observed := 0;
    var done := false;
    while !done
      invariant !done ==> Continues(ListenLoop(link.clock, link.reader, deadline, link.clockCalls, link.readCalls, observed), link.trace, base, whole)
      invariant done ==> link.trace == base + whole.events && observed == whole.observed
      invariant done ==> link.clockCalls == whole.clockCalls && link.readCalls == whole.readCalls
      decreases !done, deadline - link.clock(link.clockCalls)
    {
      done, observed := ListenAttempt(link, deadline, observed, base, whole);
    }
    ListenPhaseEnd(link.clock, link.reader, seconds, old(link.clockCalls), old(link.readCalls), old(link.trace), base, whole);
    if observed == 0 {
      link.Emit(NoFramesLine);
    }
  }

  lemma ListenPhaseEnd(clock: nat -> int, reader: nat -> ReadOutcome, seconds: int, c: nat, r: nat,
                       before: seq<Event>, base: seq<Event>, whole: ListenResult)
    requires IsTicking(clock)
    requires base == before + [ClockRead(clock(c))]
    requires whole == ListenLoop(clock, reader, clock(c) + seconds, c + 1, r, 0)
    ensures var spec := ListenPhase(clock, reader, seconds, c, r);
            (whole.observed == 0 ==> base + whole.events + [NoFramesLine] == before + spec.events) &&
            (whole.observed != 0 ==> base + whole.events == before + spec.events) &&
            spec.clockCalls == whole.clockCalls && spec.readCalls == whole.readCalls
  {
  }

  // ---------------------------------------------------------------------
  // Views of a trace
  // ---------------------------------------------------------------------

  /** The bytes of the frames the reader returned, in arrival order. */
  function FramesOf(es: seq<Event>): seq<seq<byte>> {
    if |es| == 0 then []
    else (if es[0].ReadAttempt? && es[0].outcome.Frame? then [es[0].outcome.bytes] else []) + FramesOf(es[1..])
  }

  /** The printed frame lines, in order. */
  function FrameLinesOf(es: seq<Event>): seq<Event> {
    if |es| == 0 then [] else (if es[0].FrameLine? then [es[0]] else []) + FrameLinesOf(es[1..])
  }

  /** What the frame reader returned, call by call. */
  function ReadsOf(es: seq<Event>): seq<ReadOutcome> {
    if |es| == 0 then [] else (if es[0].ReadAttempt? then [es[0].outcome] else []) + ReadsOf(es[1..])
  }

  /** What was written to the port, write by write. */
  function WrittenOf(es: seq<Event>): seq<seq<byte>> {
    if |es| == 0 then [] else (if es[0].Written? then [es[0].data] else []) + WrittenOf(es[1..])
  }

  /** The slept durations, in order. */
  function SleepsOf(es: seq<Event>): seq<int> {
    if |es| == 0 then [] else (if es[0].Slept? then [es[0].duration] else []) + SleepsOf(es[1..])
  }

  /** The printed "Sent request" lines, in order. */
  function SentLinesOf(es: seq<Event>): seq<Event> {
    if |es| == 0 then [] else (if es[0].SentLine? then [es[0]] else []) + SentLinesOf(es[1..])
  }

  lemma ViewsOne(e: Event)
    ensures FramesOf([e]) == (if e.ReadAttempt? && e.outcome.Frame? then [e.outcome.bytes] else [])
    ensures FrameLinesOf([e]) == (if e.FrameLine? then [e] else [])
    ensures ReadsOf([e]) == (if e.ReadAttempt? then [e.outcome] else [])
    ensures WrittenOf([e]) == (if e.Written? then [e.data] else [])
    ensures SleepsOf([e]) == (if e.Slept? then [e.duration] else [])
    ensures SentLinesOf([e]) == (if e.SentLine? then [e] else [])
  {
    assert [e][1..] == [];
  }

  /** The views of two events in a row. */
  lemma ViewsPair(e1: Event, e2: Event)
    ensures FramesOf([e1, e2]) == FramesOf([e1]) + FramesOf([e2])
    ensures FrameLinesOf([e1, e2]) == FrameLinesOf([e1]) + FrameLinesOf([e2])
    ensures ReadsOf([e1, e2]) == ReadsOf([e1]) + ReadsOf([e2])
    ensures WrittenOf([e1, e2]) == WrittenOf([e1]) + WrittenOf([e2])
    ensures SleepsOf([e1, e2]) == SleepsOf([e1]) + SleepsOf([e2])
    ensures SentLinesOf([e1, e2]) == SentLinesOf([e1]) + SentLinesOf([e2])
  {
    assert [e1, e2] == [e1] + [e2];
    ViewsConcat([e1], [e2]);
  }

  /** The views of three events in a row. */
  lemma ViewsThree(e1: Event, e2: Event, e3: Event)
    ensures FramesOf([e1, e2, e3]) == FramesOf([e1]) + FramesOf([e2]) + FramesOf([e3])
    ensures FrameLinesOf([e1, e2, e3]) == FrameLinesOf([e1]) + FrameLinesOf([e2]) + FrameLinesOf([e3])
    ensures ReadsOf([e1, e2, e3]) == ReadsOf([e1]) + ReadsOf([e2]) + ReadsOf([e3])
    ensures WrittenOf([e1, e2, e3]) == WrittenOf([e1]) + WrittenOf([e2]) + WrittenOf([e3])
    ensures SleepsOf([e1, e2, e3]) == SleepsOf([e1]) + SleepsOf([e2]) + SleepsOf([e3])
    ensures SentLinesOf([e1, e2, e3]) == SentLinesOf([e1]) + SentLinesOf([e2]) + SentLinesOf([e3])
  {
    assert [e1, e2, e3] == [e1] + [e2] + [e3];
    ViewsConcat([e1], [e2]);
    ViewsConcat([e1] + [e2], [e3]);
  }

  // One event in front of `rest`, view by view.

  lemma FramesCons(e: Event, rest: seq<Event>)
    ensures FramesOf([e] + rest) == (if e.ReadAttempt? && e.outcome.Frame? then [e.outcome.bytes] else []) + FramesOf(rest)
  {
    assert ([e] + rest)[0] == e && ([e] + rest)[1..] == rest;
  }

  lemma FrameLinesCons(e: Event, rest: seq<Event>)
    ensures FrameLinesOf([e] + rest) == (if e.FrameLine? then [e] else []) + FrameLinesOf(rest)
  {
    assert ([e] + rest)[0] == e && ([e] + rest)[1..] == rest;
  }

  lemma ReadsCons(e: Event, rest: seq<Event>)
    ensures ReadsOf([e] + rest) == (if e.ReadAttempt? then [e.outcome] else []) + ReadsOf(rest)
  {
    assert ([e] + rest)[0] == e && ([e] + rest)[1..] == rest;
  }

  lemma WrittenCons(e: Event, rest: seq<Event>)
    ensures WrittenOf([e] + rest) == (if e.Written? then [e.data] else []) + WrittenOf(rest)
  {
    assert ([e] + rest)[0] == e && ([e] + rest)[1..] == rest;
  }

  lemma SleepsCons(e: Event, rest: seq<Event>)
    ensures SleepsOf([e] + rest) == (if e.Slept? then [e.duration] else []) + SleepsOf(rest)
  {
    assert ([e] + rest)[0] == e && ([e] + rest)[1..] == rest;
  }

  lemma SentLinesCons(e: Event, rest: seq<Event>)
    ensures SentLinesOf([e] + rest) == (if e.SentLine? then [e] else []) + SentLinesOf(rest)
  {
    assert ([e] + rest)[0] == e && ([e] + rest)[1..] == rest;
  }

  /** Three events in front of `rest`, one at a time. */
  lemma ThreeCons(e1: Event, e2: Event, e3: Event, rest: seq<Event>)
    ensures [e1, e2, e3] + rest == [e1] + ([e2] + ([e3] + rest))
  {
  }

  lemma {:induction false} FramesConcat(a: seq<Event>, b: seq<Event>)
    ensures FramesOf(a + b) == FramesOf(a) + FramesOf(b)
  {
    if |a| == 0 {
      assert a + b == b;
    } else {
      var h: seq<seq<byte>> := if a[0].ReadAttempt? && a[0].outcome.Frame? then [a[0].outcome.bytes] else [];
      assert (a + b)[0] == a[0];
      assert (a + b)[1..] == a[1..] + b;
      assert FramesOf(a + b) == h + FramesOf(a[1..] + b);
      FramesConcat(a[1..], b);
      assert FramesOf(a) == h + FramesOf(a[1..]);
    }
  }

  lemma {:induction false} FrameLinesConcat(a: seq<Event>, b: seq<Event>)
    ensures FrameLinesOf(a + b) == FrameLinesOf(a) + FrameLinesOf(b)
  {
    if |a| == 0 {
      assert a + b == b;
    } else {
      var h: seq<Event> := if a[0].FrameLine? then [a[0]] else [];
      assert (a + b)[0] == a[0];
      assert (a + b)[1..] == a[1..] + b;
      assert FrameLinesOf(a + b) == h + FrameLinesOf(a[1..] + b);
      FrameLinesConcat(a[1..], b);
      assert FrameLinesOf(a) == h + FrameLinesOf(a[1..]);
    }
  }

  lemma {:induction false} ReadsConcat(a: seq<Event>, b: seq<Event>)
    ensures ReadsOf(a + b) == ReadsOf(a) + ReadsOf(b)
  {
    if |a| == 0 {
      assert a + b == b;
    } else {
      var h: seq<ReadOutcome> := if a[0].ReadAttempt? then [a[0].outcome] else [];
      assert (a + b)[0] == a[0];
      assert (a + b)[1..] == a[1..] + b;
      assert ReadsOf(a + b) == h + ReadsOf(a[1..] + b);
      ReadsConcat(a[1..], b);
      assert ReadsOf(a) == h + ReadsOf(a[1..]);
    }
  }

  lemma {:induction false} WrittenConcat(a: seq<Event>, b: seq<Event>)
    ensures WrittenOf(a + b) == WrittenOf(a) + WrittenOf(b)
  {
    if |a| == 0 {
      assert a + b == b;
    } else {
      var h: seq<seq<byte>> := if a[0].Written? then [a[0].data] else [];
      assert (a + b)[0] == a[0];
      assert (a + b)[1..] == a[1..] + b;
      assert WrittenOf(a + b) == h + WrittenOf(a[1..] + b);
      WrittenConcat(a[1..], b);
      assert WrittenOf(a) == h + WrittenOf(a[1..]);
    }
  }

  lemma {:induction false} SleepsConcat(a: seq<Event>, b: seq<Event>)
    ensures SleepsOf(a + b) == SleepsOf(a) + SleepsOf(b)
  {
    if |a| == 0 {
      assert a + b == b;
    } else {
      var h: seq<int> := if a[0].Slept? then [a[0].duration] else [];
      assert (a + b)[0] == a[0];
      assert (a + b)[1..] == a[1..] + b;
      assert SleepsOf(a + b) == h + SleepsOf(a[1..] + b);
      SleepsConcat(a[1..], b);
      assert SleepsOf(a) == h + SleepsOf(a[1..]);
    }
  }

  lemma {:induction false} SentLinesConcat(a: seq<Event>, b: seq<Event>)
    ensures SentLinesOf(a + b) == SentLinesOf(a) + SentLinesOf(b)
  {
    if |a| == 0 {
      assert a + b == b;
    } else {
      var h: seq<Event> := if a[0].SentLine? then [a[0]] else [];
      assert (a + b)[0] == a[0];
      assert (a + b)[1..] == a[1..] + b;
      assert SentLinesOf(a + b) == h + SentLinesOf(a[1..] + b);
      SentLinesConcat(a[1..], b);
      assert SentLinesOf(a) == h + SentLinesOf(a[1..]);
    }
  }

  /** Every view of a concatenation is the concatenation of the views. */
  lemma ViewsConcat(a: seq<Event>, b: seq<Event>)
    ensures FramesOf(a + b) == FramesOf(a) + FramesOf(b)
    ensures FrameLinesOf(a + b) == FrameLinesOf(a) + FrameLinesOf(b)
    ensures ReadsOf(a + b) == ReadsOf(a) + ReadsOf(b)
    ensures WrittenOf(a + b) == WrittenOf(a) + WrittenOf(b)
    ensures SleepsOf(a + b) == SleepsOf(a) + SleepsOf(b)
    ensures SentLinesOf(a + b) == SentLinesOf(a) + SentLinesOf(b)
  {
    FramesConcat(a, b);
    FrameLinesConcat(a, b);
    ReadsConcat(a, b);
    WrittenConcat(a, b);
    SleepsConcat(a, b);
    SentLinesConcat(a, b);
  }

  /** Frame lines under `heading`, numbered from `start`, one per frame. */
  function Numbered(heading: Label, start: nat, frames: seq<seq<byte>>): seq<Event>
    decreases |frames|
  {
    if |frames| == 0 then []
    else [FrameLine(heading, start, FormatBytes(frames[0]))] + Numbered(heading, start + 1, frames[1..])
  }

  /** The outcomes the reader script gives for calls `from` up to `to`. */
  function Script(reader: nat -> ReadOutcome, from: nat, to: nat): seq<ReadOutcome>
    decreases to - from
  {
    if from >= to then [] else [reader(from)] + Script(reader, from + 1, to)
  }

  /** Every read attempt directly follows a clock reading below the deadline. */
  predicate ReadsGuarded(es: seq<Event>, deadline: int) {
    forall j :: 0 <= j < |es| && es[j].ReadAttempt? ==> 0 < j && es[j - 1].ClockRead? && es[j - 1].time < deadline
  }

  /** Every clock reading is below the deadline. */
  predicate BeforeDeadline(es: seq<Event>, deadline: int) {
    forall j :: 0 <= j < |es| && es[j].ClockRead? ==> es[j].time < deadline
  }

  /** The last event is a clock reading at or past the deadline, and every earlier one is below it. */
  predicate EndsAtDeadline(es: seq<Event>, deadline: int) {
    |es| > 0 && es[|es| - 1].ClockRead? && es[|es| - 1].time >= deadline &&
    forall j :: 0 <= j < |es| - 1 && es[j].ClockRead? ==> es[j].time < deadline
  }

  /** Only clock readings, read attempts and `Okamzite` frame lines: nothing written, flushed, slept or sent. */
  predicate OnlyListening(es: seq<Event>) {
    forall j :: 0 <= j < |es| ==>
      es[j].ClockRead? || es[j].ReadAttempt? || (es[j].FrameLine? && es[j].heading == Okamzite)
  }

  lemma GuardsConcat(a: seq<Event>, b: seq<Event>, deadline: int)
    requires ReadsGuarded(a, deadline) && ReadsGuarded(b, deadline)
    requires OnlyListening(a) && OnlyListening(b)
    ensures ReadsGuarded(a + b, deadline) && OnlyListening(a + b)
  {
    forall j | |a| <= j < |a + b|
      ensures (a + b)[j] == b[j - |a|]
    {
    }
  }

  lemma EndsConcat(a: seq<Event>, b: seq<Event>, deadline: int)
    requires BeforeDeadline(a, deadline) && EndsAtDeadline(b, deadline)
    ensures EndsAtDeadline(a + b, deadline)
  {
    forall j | |a| <= j < |a + b|
      ensures (a + b)[j] == b[j - |a|]
    {
    }
  }

  // ---------------------------------------------------------------------
  // What the listen phase does
  // ---------------------------------------------------------------------

  /**
    The loop ends on a clock reading at or past the deadline, every earlier reading
    was below it (so a timeout ends the loop only once the deadline has passed), and
    every read starts right after a reading below the deadline. It writes nothing.
   */
  lemma {:induction false} ListenLoopDeadline(clock: nat -> int, reader: nat -> ReadOutcome, deadline: int, c: nat, r: nat, observed: nat)
    requires IsTicking(clock)
    ensures var res := ListenLoop(clock, reader, deadline, c, r, observed);
            EndsAtDeadline(res.events, deadline) && ReadsGuarded(res.events, deadline) &&
            OnlyListening(res.events) && res.events[0] == ClockRead(clock(c))
    decreases deadline - clock(c)
  {
    var t := clock(c);
    if t >= deadline {
    } else if reader(r).Frame? {
      var rest := ListenLoop(clock, reader, deadline, c + 1, r + 1, observed + 1);
      ListenLoopDeadline(clock, reader, deadline, c + 1, r + 1, observed + 1);
      StepGuards(ClockRead(t), ReadAttempt(reader(r)), FrameLine(Okamzite, observed + 1, FormatBytes(reader(r).bytes)), rest.events, deadline);
    } else if clock(c + 1) >= deadline {
      StepGuards(ClockRead(t), ReadAttempt(Timeout), ClockRead(clock(c + 1)), [], deadline);
      assert [ClockRead(t), ReadAttempt(Timeout), ClockRead(clock(c + 1))] + [] == [ClockRead(t), ReadAttempt(Timeout), ClockRead(clock(c + 1))];
    } else {
      assert clock(c + 1) < clock(c + 2);
      var rest := ListenLoop(clock, reader, deadline, c + 2, r + 1, observed);
      ListenLoopDeadline(clock, reader, deadline, c + 2, r + 1, observed);
      StepGuards(ClockRead(t), ReadAttempt(Timeout), ClockRead(clock(c + 1)), rest.events, deadline);
    }
  }

  /**
    A clock reading below the deadline, a read and then a frame line or a second
    clock reading, followed by a stretch that ends at the deadline (or, after a
    second reading at the deadline, by nothing), ends at the deadline with every
    read guarded.
   */
  lemma StepGuards(e1: Event, e2: Event, e3: Event, rest: seq<Event>, deadline: int)
    requires e1.ClockRead? && e1.time < deadline && e2.ReadAttempt?
    requires (e3.FrameLine? && e3.heading == Okamzite) || e3.ClockRead?
    requires ReadsGuarded(rest, deadline) && OnlyListening(rest)
    requires rest == [] ==> e3.ClockRead? && e3.time >= deadline
    requires rest != [] ==> EndsAtDeadline(rest, deadline) && (e3.ClockRead? ==> e3.time < deadline)
    requires rest != [] ==> !rest[0].ReadAttempt?
    ensures var es := [e1, e2, e3] + rest;
            EndsAtDeadline(es, deadline) && ReadsGuarded(es, deadline) && OnlyListening(es) && es[0] == e1
  {
    var es := [e1, e2, e3] + rest;
    forall j | 3 <= j < |es|
      ensures es[j] == rest[j - 3]
    {
    }
  }

  /** What a frame step followed by the rest of the loop reads. */
  lemma FrameStepReads(t: int, b: seq<byte>, observed: nat, rest: seq<Event>)
    ensures ReadsOf([ClockRead(t), ReadAttempt(Frame(b)), FrameLine(Okamzite, observed + 1, FormatBytes(b))] + rest)
            == [Frame(b)] + ReadsOf(rest)
  {
    var e1, e2, e3 := ClockRead(t), ReadAttempt(Frame(b)), FrameLine(Okamzite, observed + 1, FormatBytes(b));
    ThreeCons(e1, e2, e3, rest);
    ReadsCons(e3, rest);
    ReadsCons(e2, [e3] + rest);
    ReadsCons(e1, [e2] + ([e3] + rest));
  }

  /** The frames and frame lines of a frame step followed by the rest of the loop. */
  lemma FrameStepViews(t: int, b: seq<byte>, observed: nat, rest: seq<Event>)
    requires FrameLinesOf(rest) == Numbered(Okamzite, observed + 2, FramesOf(rest))
    ensures var es := [ClockRead(t), ReadAttempt(Frame(b)), FrameLine(Okamzite, observed + 1, FormatBytes(b))] + rest;
            FramesOf(es) == [b] + FramesOf(rest) &&
            FrameLinesOf(es) == Numbered(Okamzite, observed + 1, FramesOf(es))
  {
    var e1, e2, e3 := ClockRead(t), ReadAttempt(Frame(b)), FrameLine(Okamzite, observed + 1, FormatBytes(b));
    ThreeCons(e1, e2, e3, rest);
    var t3 := [e3] + rest;
    var t2 := [e2] + t3;
    assert FramesOf([e1] + t2) == [b] + FramesOf(rest) by {
      FramesCons(e3, rest);
      FramesCons(e2, t3);
      FramesCons(e1, t2);
    }
    assert FrameLinesOf([e1] + t2) == [e3] + FrameLinesOf(rest) by {
      FrameLinesCons(e3, rest);
      FrameLinesCons(e2, t3);
      FrameLinesCons(e1, t2);
    }
    assert ([b] + FramesOf(rest))[0] == b;
    assert ([b] + FramesOf(rest))[1..] == FramesOf(rest);
  }

  /** What a timeout step followed by the rest of the loop reads. */
  lemma TimeoutStepReads(t: int, t2: int, rest: seq<Event>)
    ensures ReadsOf([ClockRead(t), ReadAttempt(Timeout), ClockRead(t2)] + rest) == [Timeout] + ReadsOf(rest)
  {
    var e1, e2, e3 := ClockRead(t), ReadAttempt(Timeout), ClockRead(t2);
    ThreeCons(e1, e2, e3, rest);
    ReadsCons(e3, rest);
    ReadsCons(e2, [e3] + rest);
    ReadsCons(e1, [e2] + ([e3] + rest));
  }

  /** The frames and frame lines of a timeout step followed by the rest of the loop. */
  lemma TimeoutStepViews(t: int, t2: int, rest: seq<Event>)
    ensures var es := [ClockRead(t), ReadAttempt(Timeout), ClockRead(t2)] + rest;
            FramesOf(es) == FramesOf(rest) && FrameLinesOf(es) == FrameLinesOf(rest)
  {
    var e1, e2, e3 := ClockRead(t), ReadAttempt(Timeout), ClockRead(t2);
    ThreeCons(e1, e2, e3, rest);
    var u3 := [e3] + rest;
    var u2 := [e2] + u3;
    assert FramesOf([e1] + u2) == FramesOf(rest) by {
      FramesCons(e3, rest);
      FramesCons(e2, u3);
      FramesCons(e1, u2);
    }
    assert FrameLinesOf([e1] + u2) == FrameLinesOf(rest) by {
      FrameLinesCons(e3, rest);
      FrameLinesCons(e2, u3);
      FrameLinesCons(e1, u2);
    }
  }

  /** The loop reads exactly the reader's outcomes from call `r` on, in order. */
  lemma {:induction false} ListenLoopReads(clock: nat -> int, reader: nat -> ReadOutcome, deadline: int, c: nat, r: nat, observed: nat)
    requires IsTicking(clock)
    ensures var res := ListenLoop(clock, reader, deadline, c, r, observed);
            r <= res.readCalls && c < res.clockCalls &&
            ReadsOf(res.events) == Script(reader, r, res.readCalls)
    decreases deadline - clock(c)
  {
    var t := clock(c);
    if t >= deadline {
      assert ListenLoop(clock, reader, deadline, c, r, observed).events == [ClockRead(t)] + [];
      ReadsCons(ClockRead(t), []);
    } else if reader(r).Frame? {
      ListenLoopReads(clock, reader, deadline, c + 1, r + 1, observed + 1);
      FrameStepReads(t, reader(r).bytes, observed, ListenLoop(clock, reader, deadline, c + 1, r + 1, observed + 1).events);
    } else if clock(c + 1) >= deadline {
      TimeoutStepReads(t, clock(c + 1), []);
      assert [ClockRead(t), ReadAttempt(Timeout), ClockRead(clock(c + 1))] + [] == [ClockRead(t), ReadAttempt(Timeout), ClockRead(clock(c + 1))];
      assert Script(reader, r + 1, r + 1) == [];
    } else {
      assert clock(c + 1) < clock(c + 2);
      ListenLoopReads(clock, reader, deadline, c + 2, r + 1, observed);
      TimeoutStepReads(t, clock(c + 1), ListenLoop(clock, reader, deadline, c + 2, r + 1, observed).events);
    }
  }

  /**
    The loop prints one `Okamzite` line per frame, numbered on from
    `observed + 1` in arrival order; the final count is `observed` plus the
    number of frames.
   */
  lemma {:induction false} ListenLoopFrames(clock: nat -> int, reader: nat -> ReadOutcome, deadline: int, c: nat, r: nat, observed: nat)
    requires IsTicking(clock)
    ensures var res := ListenLoop(clock, reader, deadline, c, r, observed);
            FrameLinesOf(res.events) == Numbered(Okamzite, observed + 1, FramesOf(res.events)) &&
            res.observed == observed + |FramesOf(res.events)|
    decreases deadline - clock(c)
  {
    var t := clock(c);
    if t >= deadline {
      assert ListenLoop(clock, reader, deadline, c, r, observed).events == [ClockRead(t)] + [];
      FramesCons(ClockRead(t), []);
      FrameLinesCons(ClockRead(t), []);
    } else if reader(r).Frame? {
      ListenLoopFrames(clock, reader, deadline, c + 1, r + 1, observed + 1);
      FrameStepViews(t, reader(r).bytes, observed, ListenLoop(clock, reader, deadline, c + 1, r + 1, observed + 1).events);
    } else if clock(c + 1) >= deadline {
      TimeoutStepViews(t, clock(c + 1), []);
      assert [ClockRead(t), ReadAttempt(Timeout), ClockRead(clock(c + 1))] + [] == [ClockRead(t), ReadAttempt(Timeout), ClockRead(clock(c + 1))];
    } else {
      assert clock(c + 1) < clock(c + 2);
      ListenLoopFrames(clock, reader, deadline, c + 2, r + 1, observed);
      TimeoutStepViews(t, clock(c + 1), ListenLoop(clock, reader, deadline, c + 2, r + 1, observed).events);
    }
  }

  /**
    The listen phase reads the clock once for its deadline, then loops; it writes
    nothing, and it reports "no frames" exactly when it captured none, as its last event.
   */
  lemma ListenPhaseReport(clock: nat -> int, reader: nat -> ReadOutcome, seconds: int, c: nat, r: nat)
    requires IsTicking(clock)
    ensures var spec := ListenPhase(clock, reader, seconds, c, r);
            spec.events[0] == ClockRead(clock(c)) &&
            WrittenOf(spec.events) == [] && SleepsOf(spec.events) == [] && SentLinesOf(spec.events) == [] &&
            spec.observed == |FramesOf(spec.events)| &&
            (NoFramesLine in spec.events <==> spec.observed == 0) &&
            (spec.observed == 0 ==> spec.events[|spec.events| - 1] == NoFramesLine)
  {
    var deadline := clock(c) + seconds;
    var loop := ListenLoop(clock, reader, deadline, c + 1, r, 0);
    ListenLoopDeadline(clock, reader, deadline, c + 1, r, 0);
    ListenLoopFrames(clock, reader, deadline, c + 1, r, 0);
    PhaseViews(clock(c), loop.events, loop.observed);
  }

  /** The listen phase reads exactly the reader's outcomes from call `r` on, in order. */
  lemma ListenPhaseReads(clock: nat -> int, reader: nat -> ReadOutcome, seconds: int, c: nat, r: nat)
    requires IsTicking(clock)
    ensures var spec := ListenPhase(clock, reader, seconds, c, r);
            r <= spec.readCalls && ReadsOf(spec.events) == Script(reader, r, spec.readCalls)
  {
    var deadline := clock(c) + seconds;
    var loop := ListenLoop(clock, reader, deadline, c + 1, r, 0);
    ListenLoopReads(clock, reader, deadline, c + 1, r, 0);
    var tail: seq<Event> := if loop.observed == 0 then [NoFramesLine] else [];
    assert [ClockRead(clock(c))] + loop.events + tail == [ClockRead(clock(c))] + (loop.events + tail);
    assert ReadsOf(tail) == [] by {
      if loop.observed == 0 {
        assert tail == [NoFramesLine] + [];
        ReadsCons(NoFramesLine, []);
      }
    }
    ReadsConcat(loop.events, tail);
    ReadsCons(ClockRead(clock(c)), loop.events + tail);
  }

  /** The views of a listen phase built from a loop that only listened. */
  lemma PhaseViews(t: int, loop: seq<Event>, observed: nat)
    requires OnlyListening(loop) && observed == |FramesOf(loop)|
    ensures var es := [ClockRead(t)] + loop + (if observed == 0 then [NoFramesLine] else []);
            es[0] == ClockRead(t) &&
            WrittenOf(es) == [] && SleepsOf(es) == [] && SentLinesOf(es) == [] &&
            observed == |FramesOf(es)| &&
            (NoFramesLine in es <==> observed == 0) &&
            (observed == 0 ==> es[|es| - 1] == NoFramesLine)
  {
    var tail: seq<Event> := if observed == 0 then [NoFramesLine] else [];
    QuietListen(loop);
    ViewsConcat([ClockRead(t)], loop);
    ViewsConcat([ClockRead(t)] + loop, tail);
    ViewsOne(ClockRead(t));
    if observed == 0 {
      ViewsOne(NoFramesLine);
    } else {
      assert tail == [];
    }
    assert NoFramesLine !in loop;
  }

  /** A stretch of listening writes, sleeps and sends nothing. */
  lemma {:induction false} QuietListen(es: seq<Event>)
    requires OnlyListening(es)
    ensures WrittenOf(es) == [] && SleepsOf(es) == [] && SentLinesOf(es) == []
  {
    if |es| > 0 {
      assert OnlyListening(es[1..]) by {
        forall j | 0 <= j < |es[1..]| ensures es[1..][j] == es[j + 1] { }
      }
      QuietListen(es[1..]);
    }
  }
}
