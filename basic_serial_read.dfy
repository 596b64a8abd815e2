/**
  `basic_serial_read.py`: `render_bytes`, and the stop rule of the
  `read_forever` loop. With a positive duration the loop reads the monotonic
  clock before every `ser.read` and stops once the reading reaches
  `stop_at`; without one it only ends when interrupted. Every non-empty chunk
  is printed as one line of space-separated hexadecimal.
 */
module BasicSerialRead {
  import opened Wrappers
  import opened HexText
  import opened Ticks

  // ---------------------------------------------------------------------
  // `render_bytes`
  // ---------------------------------------------------------------------

  /** `" ".join(f"{b:02X}" for b in data)`. */
  function RenderBytes(data: seq<byte>): string {
    Join(data, " ")
  }

  /** Byte `i` of the data at `3i`, and a space after it unless it is the last. */
  lemma RenderField(data: seq<byte>, i: nat)
    requires i < |data|
    ensures 3 * i + 2 <= |RenderBytes(data)| && RenderBytes(data)[3 * i .. 3 * i + 2] == Hex2(data[i])
    ensures i + 1 < |data| ==> 3 * i + 3 <= |RenderBytes(data)| && RenderBytes(data)[3 * i + 2] == ' '
  {
    var sep := " ";
    assert |sep| == 1;
    JoinAt(data, sep, i);
    assert i * (2 + |sep|) == 3 * i;
    if i + 1 < |data| {
      assert RenderBytes(data)[3 * i + 2 .. 3 * i + 3][0] == RenderBytes(data)[3 * i + 2];
    }
  }

  /** Empty data renders as "", `n` bytes as `3n - 1` characters: byte `i` at `3i`, a space after it. */
  lemma RenderBytesShape(data: seq<byte>)
    ensures |data| == 0 ==> RenderBytes(data) == ""
    ensures |data| > 0 ==> |RenderBytes(data)| == 3 * |data| - 1
    ensures forall i :: 0 <= i < |data| ==> RenderBytes(data)[3 * i .. 3 * i + 2] == Hex2(data[i])
    ensures forall i :: 0 <= i < |data| - 1 ==> RenderBytes(data)[3 * i + 2] == ' '
  {
    forall i | 0 <= i < |data|
      ensures RenderBytes(data)[3 * i .. 3 * i + 2] == Hex2(data[i])
      ensures i < |data| - 1 ==> RenderBytes(data)[3 * i + 2] == ' '
    {
      RenderField(data, i);
    }
  }

  /** Only upper-case hexadecimal digits and single spaces: a space exactly at the positions `3i + 2`. */
  lemma RenderBytesAlphabet(data: seq<byte>)
    ensures var s := RenderBytes(data);
            forall k :: 0 <= k < |s| ==> (k % 3 == 2 ==> s[k] == ' ') && (k % 3 != 2 ==> IsUpperHexDigit(s[k]))
  {
    var s := RenderBytes(data);
    forall k | 0 <= k < |s|
      ensures (k % 3 == 2 ==> s[k] == ' ') && (k % 3 != 2 ==> IsUpperHexDigit(s[k]))
    {
      var i := k / 3;
      assert k == 3 * i + k % 3;
      assert i < |data|;
      RenderField(data, i);
      var h := Hex2(data[i]);
      if k % 3 != 2 {
        assert s[3 * i .. 3 * i + 2][k % 3] == s[k];
        assert h[k % 3] == s[k];
      }
    }
  }

  /** Leading zeros are kept and digits are upper case. */
  lemma RenderBytesExample()
    ensures RenderBytes([0x7E, 0x0A, 0x00]) == "7E 0A 00"
    ensures RenderBytes([0xFF]) == "FF"
  {
  }

  /** Different data never render alike. */
  lemma RenderBytesInjective(a: seq<byte>, b: seq<byte>)
    requires RenderBytes(a) == RenderBytes(b)
    ensures a == b
  {
    JoinInjective(a, b, " ");
  }

  // ---------------------------------------------------------------------
  // The stop rule of `read_forever`
  // ---------------------------------------------------------------------

  /** One interaction of the read loop. */
  datatype RawEvent =
    | Tick(time: int)            // time.monotonic()
    | Chunk(bytes: seq<byte>)    // ser.read(args.chunk_size)
    | HexLine(text: string)      // print(render_bytes(chunk))
    | Interrupted                // KeyboardInterrupt during a read, swallowed

  /** What the loop did, and the clock and read calls it got to. */
  datatype RawRun = RawRun(events: seq<RawEvent>, clockCalls: nat, readCalls: nat)

  /** `if chunk: print(render_bytes(chunk))`. */
  function Shown(chunk: seq<byte>): seq<RawEvent> {
    if |chunk| > 0 then [HexLine(RenderBytes(chunk))] else []
  }

  /**
    The `while True` loop from clock call `c` and read call `r`, with deadline
    `stopAt` (`None` when there is none); the user interrupts the read numbered
    `interruptAt`.
   */
  function Loop(clock: nat -> int, chunks: nat -> seq<byte>, stopAt: Option<int>, interruptAt: nat, c: nat, r: nat): RawRun
    requires IsTicking(clock)
    decreases if stopAt.Some? && clock(c) < stopAt.value then stopAt.value - clock(c) else 0,
              if r < interruptAt then interruptAt - r else 0
  {
    if stopAt.Some? && clock(c) >= stopAt.value then RawRun([Tick(clock(c))], c + 1, r)
    else
      var pre: seq<RawEvent> := if stopAt.Some? then [Tick(clock(c))] else [];
      var c' := if stopAt.Some? then c + 1 else c;
      if r >= interruptAt then RawRun(pre + [Interrupted], c', r)
      else
        assert stopAt.Some? ==> clock(c) < clock(c + 1);
        var rest := Loop(clock, chunks, stopAt, interruptAt, c', r + 1);
        rest.(events := pre + [Chunk(chunks(r))] + Shown(chunks(r)) + rest.events)
  }

  /** `read_forever` from line 81 on: choose `stop_at`, then loop. */
  function ReadForeverSpec(clock: nat -> int, chunks: nat -> seq<byte>, duration: int, interruptAt: nat, c: nat, r: nat): RawRun
    requires IsTicking(clock)
  {
    if duration > 0 then
      var loop := Loop(clock, chunks, Some(clock(c) + duration), interruptAt, c + 1, r);
      loop.(events := [Tick(clock(c))] + loop.events)
    else Loop(clock, chunks, None, interruptAt, c, r)
  }

  /** The serial port, the console and the monotonic clock of `read_forever`. */
  class Port {
    const clock: nat -> int
    const chunks: nat -> seq<byte>
    const interruptAt: nat
    var clockCalls: nat
    var readCalls: nat
    var trace: seq<RawEvent>

    constructor (clock: nat -> int, chunks: nat -> seq<byte>, interruptAt: nat)
      ensures this.clock == clock && this.chunks == chunks && this.interruptAt == interruptAt
      ensures clockCalls == 0 && readCalls == 0 && trace == []
    {
      this.clock := clock;
      this.chunks := chunks;
      this.interruptAt := interruptAt;
      clockCalls, readCalls, trace := 0, 0, [];
    }

    /** `time.monotonic()`. */
    method Monotonic() returns (t: int)
      modifies this
      ensures t == clock(old(clockCalls)) && clockCalls == old(clockCalls) + 1
      ensures readCalls == old(readCalls) && trace == old(trace) + [Tick(t)]
    {
      t := clock(clockCalls);
      clockCalls := clockCalls + 1;
      trace := trace + [Tick(t)];
    }

    /** `ser.read(args.chunk_size)`, or the interrupt that arrives during it. */
    method Read() returns (chunk: Option<seq<byte>>)
      modifies this
      ensures clockCalls == old(clockCalls)
      ensures old(readCalls) >= interruptAt ==>
                chunk == None && readCalls == old(readCalls) && trace == old(trace) + [Interrupted]
      ensures old(readCalls) < interruptAt ==>
                chunk == Some(chunks(old(readCalls))) && readCalls == old(readCalls) + 1 &&
                trace == old(trace) + [Chunk(chunk.value)]
    {
      if readCalls >= interruptAt {
        chunk := None;
        trace := trace + [Interrupted];
      } else {
        chunk := Some(chunks(readCalls));
        readCalls := readCalls + 1;
        trace := trace + [Chunk(chunk.value)];
      }
    }

    /** `print(...)`. */
    method Print(text: string)
      modifies this
      ensures clockCalls == old(clockCalls) && readCalls == old(readCalls)
      ensures trace == old(trace) + [HexLine(text)]
    {
      trace := trace + [HexLine(text)];
    }
  }

  /** The loop still to run, `here`, leads from the trace so far to the trace of the whole loop. */
  ghost predicate Continues(here: RawRun, trace: seq<RawEvent>, base: seq<RawEvent>, whole: RawRun) {
    trace + here.events == base + whole.events &&
    here.clockCalls == whole.clockCalls && here.readCalls == whole.readCalls
  }

  /** One pass stops: the clock reading `clock(c)` is at or past the deadline. */
  lemma StopStep(clock: nat -> int, chunks: nat -> seq<byte>, stopAt: Option<int>, interruptAt: nat, c: nat, r: nat,
                 trace: seq<RawEvent>, base: seq<RawEvent>, whole: RawRun)
    requires IsTicking(clock) && stopAt.Some? && clock(c) >= stopAt.value
    requires Continues(Loop(clock, chunks, stopAt, interruptAt, c, r), trace, base, whole)
    ensures trace + [Tick(clock(c))] == base + whole.events
    ensures whole.clockCalls == c + 1 && whole.readCalls == r
  {
  }

  /** The trace after the optional clock reading of one pass. */
  function Checked(trace: seq<RawEvent>, clock: nat -> int, stopAt: Option<int>, c: nat): seq<RawEvent> {
    if stopAt.Some? then trace + [Tick(clock(c))] else trace
  }

  /** One pass is interrupted during its read. */
  lemma InterruptStep(clock: nat -> int, chunks: nat -> seq<byte>, stopAt: Option<int>, interruptAt: nat, c: nat, r: nat,
                      trace: seq<RawEvent>, base: seq<RawEvent>, whole: RawRun)
    requires IsTicking(clock) && !(stopAt.Some? && clock(c) >= stopAt.value) && r >= interruptAt
    requires Continues(Loop(clock, chunks, stopAt, interruptAt, c, r), trace, base, whole)
    ensures Checked(trace, clock, stopAt, c) + [Interrupted] == base + whole.events
    ensures whole.clockCalls == (if stopAt.Some? then c + 1 else c) && whole.readCalls == r
  {
    var pre: seq<RawEvent> := if stopAt.Some? then [Tick(clock(c))] else [];
    assert Checked(trace, clock, stopAt, c) == trace + pre;
    assert trace + pre + [Interrupted] == trace + (pre + [Interrupted]);
  }

  /** One pass reads chunk `r` and prints it when it is non-empty. */
  lemma ChunkStep(clock: nat -> int, chunks: nat -> seq<byte>, stopAt: Option<int>, interruptAt: nat, c: nat, r: nat,
                  trace: seq<RawEvent>, base: seq<RawEvent>, whole: RawRun)
    requires IsTicking(clock) && !(stopAt.Some? && clock(c) >= stopAt.value) && r < interruptAt
    requires Continues(Loop(clock, chunks, stopAt, interruptAt, c, r), trace, base, whole)
    ensures Continues(Loop(clock, chunks, stopAt, interruptAt, if stopAt.Some? then c + 1 else c, r + 1),
                      Checked(trace, clock, stopAt, c) + [Chunk(chunks(r))] + Shown(chunks(r)), base, whole)
  {
    var pre: seq<RawEvent> := if stopAt.Some? then [Tick(clock(c))] else [];
    var rest := Loop(clock, chunks, stopAt, interruptAt, if stopAt.Some? then c + 1 else c, r + 1);
    var mid := [Chunk(chunks(r))] + Shown(chunks(r));
    assert Checked(trace, clock, stopAt, c) == trace + pre;
    assert Loop(clock, chunks, stopAt, interruptAt, c, r).events == pre + [Chunk(chunks(r))] + Shown(chunks(r)) + rest.events;
    assert pre + [Chunk(chunks(r))] + Shown(chunks(r)) + rest.events == pre + (mid + rest.events);
    assert trace + pre + [Chunk(chunks(r))] + Shown(chunks(r)) + rest.events == trace + (pre + (mid + rest.events));
  }

  /**
    `read_forever` from the choice of `stop_at` to the end of the `try`: the
    trace grows by exactly what the specification says, and the port's clock
    and read counters end where it says.
   */
  method ReadForever(port: Port, duration: int)
    requires IsTicking(port.clock)
    modifies port
    ensures var spec := ReadForeverSpec(port.clock, port.chunks, duration, port.interruptAt, old(port.clockCalls), old(port.readCalls));
            port.trace == old(port.trace) + spec.events &&
            port.clockCalls == spec.clockCalls && port.readCalls == spec.readCalls
  {
    var stopAt: Option<int> := None;
    if duration > 0 {
      var t := port.Monotonic();
      stopAt := Some(t + duration);
    }
    ghost var trace0 := port.trace;
    ghost var loop := Loop(port.clock, port.chunks, stopAt, port.interruptAt, port.clockCalls, port.readCalls);
    RunLoop(port, stopAt);
    if duration > 0 {
      assert trace0 + loop.events == old(port.trace) + ([Tick(port.clock(old(port.clockCalls)))] + loop.events);
    }
  }

  /** How far the clock reading `clock(c)` is still below the deadline (0 when there is none). */
  function ClockRoom(clock: nat -> int, stopAt: Option<int>, c: nat): nat {
    if stopAt.Some? && clock(c) < stopAt.value then stopAt.value - clock(c) else 0
  }

  /** How many reads are left before the interrupt. */
  function ReadRoom(interruptAt: nat, r: nat): nat {
    if r < interruptAt then interruptAt - r else 0
  }

  /** The `while True` loop under `stop_at`, as `Loop` specifies it. */
  method RunLoop(port: Port, stopAt: Option<int>)
    requires IsTicking(port.clock)
    modifies port
    ensures var spec := Loop(port.clock, port.chunks, stopAt, port.interruptAt, old(port.clockCalls), old(port.readCalls));
            port.trace == old(port.trace) + spec.events &&
            port.clockCalls == spec.clockCalls && port.readCalls == spec.readCalls
  {
    ghost var base := port.trace;
    ghost var whole := Loop(port.clock, port.chunks, stopAt, port.interruptAt, port.clockCalls, port.readCalls);
    var done := false;
    while !done
      invariant !done ==> Continues(Loop(port.clock, port.chunks, stopAt, port.interruptAt, port.clockCalls, port.readCalls),
                                    port.trace, base, whole)
      invariant done ==> port.trace == base + whole.events &&
                         port.clockCalls == whole.clockCalls && port.readCalls == whole.readCalls
      decreases !done, ClockRoom(port.clock, stopAt, port.clockCalls), ReadRoom(port.interruptAt, port.readCalls)
    {
      done := Pass(port, stopAt, base, whole);
    }
  }

  /** One pass of the loop: the optional deadline check, one read and, for a non-empty chunk, one line. */
  method Pass(port: Port, stopAt: Option<int>, ghost base: seq<RawEvent>, ghost whole: RawRun) returns (done: bool)
    requires IsTicking(port.clock)
    requires Continues(Loop(port.clock, port.chunks, stopAt, port.interruptAt, port.clockCalls, port.readCalls),
                       port.trace, base, whole)
    modifies port
    ensures !done ==> Continues(Loop(port.clock, port.chunks, stopAt, port.interruptAt, port.clockCalls, port.readCalls),
                                port.trace, base, whole)
    ensures done ==> port.trace == base + whole.events &&
                     port.clockCalls == whole.clockCalls && port.readCalls == whole.readCalls
    ensures !done ==> ClockRoom(port.clock, stopAt, port.clockCalls) < ClockRoom(port.clock, stopAt, old(port.clockCalls)) ||
                      (ClockRoom(port.clock, stopAt, port.clockCalls) == ClockRoom(port.clock, stopAt, old(port.clockCalls)) &&
                       ReadRoom(port.interruptAt, port.readCalls) < ReadRoom(port.interruptAt, old(port.readCalls)))
  {
    ghost var trace0, c0, r0 := port.trace, port.clockCalls, port.readCalls;
    var stop := false;
    if stopAt.Some? {
      var now := port.Monotonic();
      stop := now >= stopAt.value;
    }
    assert port.trace == Checked(trace0, port.clock, stopAt, c0);
    if stop {
      StopStep(port.clock, port.chunks, stopAt, port.interruptAt, c0, r0, trace0, base, whole);
      done := true;
    } else {
      ghost var trace1 := port.trace;
      var chunk := port.Read();
      if chunk.None? {
        InterruptStep(port.clock, port.chunks, stopAt, port.interruptAt, c0, r0, trace0, base, whole);
        done := true;
      } else {
        ChunkStep(port.clock, port.chunks, stopAt, port.interruptAt, c0, r0, trace0, base, whole);
        if |chunk.value| > 0 {
          port.Print(RenderBytes(chunk.value));
        }
        assert port.trace == trace1 + [Chunk(port.chunks(r0))] + Shown(port.chunks(r0));
        if stopAt.Some? {
          assert port.clock(c0) < port.clock(c0 + 1);
        }
        done := false;
      }
    }
  }

  // ---------------------------------------------------------------------
  // What the loop reads and prints
  // ---------------------------------------------------------------------

  /** The chunks read, in order. */
  function ChunksOf(es: seq<RawEvent>): seq<seq<byte>> {
    if |es| == 0 then [] else (if es[0].Chunk? then [es[0].bytes] else []) + ChunksOf(es[1..])
  }

  /** The lines printed, in order. */
  function LinesOf(es: seq<RawEvent>): seq<string> {
    if |es| == 0 then [] else (if es[0].HexLine? then [es[0].text] else []) + LinesOf(es[1..])
  }

  /** The chunks the port delivers to read calls `from` up to `to`. */
  function ChunkScript(chunks: nat -> seq<byte>, from: nat, to: nat): seq<seq<byte>>
    decreases to - from
  {
    if from >= to then [] else [chunks(from)] + ChunkScript(chunks, from + 1, to)
  }

  /** The rendering of every non-empty chunk, in order. */
  function Rendered(cs: seq<seq<byte>>): seq<string> {
    if |cs| == 0 then [] else (if |cs[0]| > 0 then [RenderBytes(cs[0])] else []) + Rendered(cs[1..])
  }

  lemma {:induction false} ChunksConcat(a: seq<RawEvent>, b: seq<RawEvent>)
    ensures ChunksOf(a + b) == ChunksOf(a) + ChunksOf(b)
  {
    if |a| == 0 {
      assert a + b == b;
    } else {
      var h: seq<seq<byte>> := if a[0].Chunk? then [a[0].bytes] else [];
      assert (a + b)[0] == a[0];
      assert (a + b)[1..] == a[1..] + b;
      assert ChunksOf(a + b) == h + ChunksOf(a[1..] + b);
      ChunksConcat(a[1..], b);
      assert ChunksOf(a) == h + ChunksOf(a[1..]);
    }
  }

  lemma {:induction false} LinesConcat(a: seq<RawEvent>, b: seq<RawEvent>)
    ensures LinesOf(a + b) == LinesOf(a) + LinesOf(b)
  {
    if |a| == 0 {
      assert a + b == b;
    } else {
      var h: seq<string> := if a[0].HexLine? then [a[0].text] else [];
      assert (a + b)[0] == a[0];
      assert (a + b)[1..] == a[1..] + b;
      assert LinesOf(a + b) == h + LinesOf(a[1..] + b);
      LinesConcat(a[1..], b);
      assert LinesOf(a) == h + LinesOf(a[1..]);
    }
  }

  lemma ChunksCons(e: RawEvent, rest: seq<RawEvent>)
    ensures ChunksOf([e] + rest) == (if e.Chunk? then [e.bytes] else []) + ChunksOf(rest)
  {
    assert ([e] + rest)[0] == e && ([e] + rest)[1..] == rest;
  }

  lemma LinesCons(e: RawEvent, rest: seq<RawEvent>)
    ensures LinesOf([e] + rest) == (if e.HexLine? then [e.text] else []) + LinesOf(rest)
  {
    assert ([e] + rest)[0] == e && ([e] + rest)[1..] == rest;
  }

  /** The views of one pass that reads `b`: the chunk, and its line when it is non-empty. */
  lemma PassViews(pre: seq<RawEvent>, b: seq<byte>, rest: seq<RawEvent>)
    requires pre == [] || (|pre| == 1 && pre[0].Tick?)
    ensures ChunksOf(pre + [Chunk(b)] + Shown(b) + rest) == [b] + ChunksOf(rest)
    ensures LinesOf(pre + [Chunk(b)] + Shown(b) + rest) == Rendered([b]) + LinesOf(rest)
  {
    var rest1 := Shown(b) + rest;
    var rest2 := [Chunk(b)] + rest1;
    assert pre + [Chunk(b)] + Shown(b) + rest == pre + rest2;
    assert ChunksOf(rest1) == ChunksOf(rest) && LinesOf(rest1) == Rendered([b]) + LinesOf(rest) by {
      if |b| > 0 {
        ChunksCons(HexLine(RenderBytes(b)), rest);
        LinesCons(HexLine(RenderBytes(b)), rest);
      } else {
        assert rest1 == rest;
      }
      assert Rendered([b]) == (if |b| > 0 then [RenderBytes(b)] else []) + Rendered([b][1..]);
      assert [b][1..] == [];
    }
    ChunksCons(Chunk(b), rest1);
    LinesCons(Chunk(b), rest1);
    if pre != [] {
      assert pre == [pre[0]];
      ChunksCons(pre[0], rest2);
      LinesCons(pre[0], rest2);
    } else {
      assert pre + rest2 == rest2;
    }
  }

  lemma RenderedCons(b: seq<byte>, cs: seq<seq<byte>>)
    ensures Rendered([b] + cs) == Rendered([b]) + Rendered(cs)
  {
    assert ([b] + cs)[0] == b;
    assert ([b] + cs)[1..] == cs;
  }

  /**
    The loop reads exactly the chunks the port delivers to its read calls, in
    order, and prints one line per non-empty chunk, rendered by `render_bytes`.
   */
  lemma {:induction false} LoopReads(clock: nat -> int, chunks: nat -> seq<byte>, stopAt: Option<int>, interruptAt: nat, c: nat, r: nat)
    requires IsTicking(clock)
    ensures var x := Loop(clock, chunks, stopAt, interruptAt, c, r);
            r <= x.readCalls && ChunksOf(x.events) == ChunkScript(chunks, r, x.readCalls)
    ensures var x := Loop(clock, chunks, stopAt, interruptAt, c, r);
            LinesOf(x.events) == Rendered(ChunksOf(x.events))
    decreases if stopAt.Some? && clock(c) < stopAt.value then stopAt.value - clock(c) else 0,
              if r < interruptAt then interruptAt - r else 0
  {
    var x := Loop(clock, chunks, stopAt, interruptAt, c, r);
    var pre: seq<RawEvent> := if stopAt.Some? then [Tick(clock(c))] else [];
    if stopAt.Some? && clock(c) >= stopAt.value {
      assert x.events == [Tick(clock(c))] + [];
      ChunksCons(Tick(clock(c)), []);
      LinesCons(Tick(clock(c)), []);
    } else if r >= interruptAt {
      ChunksConcat(pre, [Interrupted]);
      LinesConcat(pre, [Interrupted]);
    } else {
      var c' := if stopAt.Some? then c + 1 else c;
      if stopAt.Some? {
        assert clock(c) < clock(c + 1);
      }
      var rest := Loop(clock, chunks, stopAt, interruptAt, c', r + 1);
      LoopReads(clock, chunks, stopAt, interruptAt, c', r + 1);
      assert x.events == pre + [Chunk(chunks(r))] + Shown(chunks(r)) + rest.events;
      PassViews(pre, chunks(r), rest.events);
      RenderedCons(chunks(r), ChunksOf(rest.events));
    }
  }

  // ---------------------------------------------------------------------
  // The deadline
  // ---------------------------------------------------------------------

  /** Every read is started right after a clock reading below the deadline. */
  ghost predicate ReadsGuarded(es: seq<RawEvent>, deadline: int) {
    forall j :: 0 <= j < |es| && es[j].Chunk? ==> 0 < j && es[j - 1].Tick? && es[j - 1].time < deadline
  }

  /** A clock reading at or past the deadline is the last thing the loop does. */
  ghost predicate StopsAtDeadline(es: seq<RawEvent>, deadline: int) {
    forall j :: 0 <= j < |es| && es[j].Tick? && es[j].time >= deadline ==> j == |es| - 1
  }

  /** The loop ends either at a clock reading past the deadline or by an interrupt. */
  ghost predicate EndsProperly(es: seq<RawEvent>, deadline: int) {
    |es| > 0 && (es[|es| - 1] == Interrupted || (es[|es| - 1].Tick? && es[|es| - 1].time >= deadline))
  }

  /** `Shown` never holds a chunk or a clock reading. */
  lemma ShownKinds(b: seq<byte>)
    ensures forall j :: 0 <= j < |Shown(b)| ==> Shown(b)[j].HexLine?
  {
  }

  /** A pass that checks the clock below the deadline and reads: the guards carry over. */
  lemma PassGuards(t: int, b: seq<byte>, rest: seq<RawEvent>, deadline: int)
    requires t < deadline
    requires ReadsGuarded(rest, deadline) && StopsAtDeadline(rest, deadline) && EndsProperly(rest, deadline)
    ensures var es := [Tick(t)] + [Chunk(b)] + Shown(b) + rest;
            ReadsGuarded(es, deadline) && StopsAtDeadline(es, deadline) && EndsProperly(es, deadline)
  {
    var head := [Tick(t)] + [Chunk(b)] + Shown(b);
    var es := head + rest;
    var n := |head|;
    ShownKinds(b);
    forall j | 0 <= j < |es| && es[j].Chunk?
      ensures 0 < j && es[j - 1].Tick? && es[j - 1].time < deadline
    {
      if j >= n {
        assert es[j] == rest[j - n];
        assert es[j - 1] == rest[j - n - 1];
      } else {
        assert j == 1;
      }
    }
    forall j | 0 <= j < |es| && es[j].Tick? && es[j].time >= deadline
      ensures j == |es| - 1
    {
      if j >= n {
        assert es[j] == rest[j - n];
      }
    }
    assert es[|es| - 1] == rest[|rest| - 1];
  }

  /** A pass that checks the clock below the deadline and is interrupted. */
  lemma InterruptGuards(t: int, deadline: int)
    requires t < deadline
    ensures var es := [Tick(t)] + [Interrupted];
            ReadsGuarded(es, deadline) && StopsAtDeadline(es, deadline) && EndsProperly(es, deadline)
  {
  }

  /**
    Under a deadline the loop starts at a clock reading, starts no read except
    right after a reading below the deadline, stops at the first reading at or
    past it, and otherwise ends only by an interrupt.
   */
  lemma {:induction false} LoopDeadline(clock: nat -> int, chunks: nat -> seq<byte>, deadline: int, interruptAt: nat, c: nat, r: nat)
    requires IsTicking(clock)
    ensures var es := Loop(clock, chunks, Some(deadline), interruptAt, c, r).events;
            |es| > 0 && es[0] == Tick(clock(c)) && ReadsGuarded(es, deadline)
    ensures var es := Loop(clock, chunks, Some(deadline), interruptAt, c, r).events;
            StopsAtDeadline(es, deadline) && EndsProperly(es, deadline)
    decreases if clock(c) < deadline then deadline - clock(c) else 0, if r < interruptAt then interruptAt - r else 0
  {
    var x := Loop(clock, chunks, Some(deadline), interruptAt, c, r);
    if clock(c) >= deadline {
    } else if r >= interruptAt {
      InterruptGuards(clock(c), deadline);
    } else {
      assert clock(c) < clock(c + 1);
      var rest := Loop(clock, chunks, Some(deadline), interruptAt, c + 1, r + 1);
      LoopDeadline(clock, chunks, deadline, interruptAt, c + 1, r + 1);
      assert x.events == [Tick(clock(c))] + [Chunk(chunks(r))] + Shown(chunks(r)) + rest.events;
      PassGuards(clock(c), chunks(r), rest.events, deadline);
    }
  }

  /** Without a deadline the loop never reads the clock and ends only by the interrupt. */
  lemma {:induction false} LoopUnbounded(clock: nat -> int, chunks: nat -> seq<byte>, interruptAt: nat, c: nat, r: nat)
    requires IsTicking(clock)
    ensures var x := Loop(clock, chunks, None, interruptAt, c, r);
            x.clockCalls == c && forall j :: 0 <= j < |x.events| ==> !x.events[j].Tick?
    ensures var x := Loop(clock, chunks, None, interruptAt, c, r);
            |x.events| > 0 && x.events[|x.events| - 1] == Interrupted &&
            x.readCalls == (if r < interruptAt then interruptAt else r)
    decreases if r < interruptAt then interruptAt - r else 0
  {
    var x := Loop(clock, chunks, None, interruptAt, c, r);
    if r < interruptAt {
      var rest := Loop(clock, chunks, None, interruptAt, c, r + 1);
      LoopUnbounded(clock, chunks, interruptAt, c, r + 1);
      var head := [] + [Chunk(chunks(r))] + Shown(chunks(r));
      assert x.events == head + rest.events;
      ShownKinds(chunks(r));
      forall j | 0 <= j < |x.events|
        ensures !x.events[j].Tick?
      {
        if j >= |head| {
          assert x.events[j] == rest.events[j - |head|];
        }
      }
      assert x.events[|x.events| - 1] == rest.events[|rest.events| - 1];
    }
  }

  // ---------------------------------------------------------------------
  // `read_forever` as a whole
  // ---------------------------------------------------------------------

  /** A non-positive duration sets no deadline: no clock reading, and only the interrupt ends the run. */
  lemma ReadForeverUnbounded(clock: nat -> int, chunks: nat -> seq<byte>, duration: int, interruptAt: nat, c: nat, r: nat)
    requires IsTicking(clock) && duration <= 0
    ensures var x := ReadForeverSpec(clock, chunks, duration, interruptAt, c, r);
            x.clockCalls == c && forall j :: 0 <= j < |x.events| ==> !x.events[j].Tick?
    ensures var x := ReadForeverSpec(clock, chunks, duration, interruptAt, c, r);
            |x.events| > 0 && x.events[|x.events| - 1] == Interrupted &&
            x.readCalls == (if r < interruptAt then interruptAt else r)
  {
    LoopUnbounded(clock, chunks, interruptAt, c, r);
  }

  /**
    A positive duration sets the deadline one reading plus the duration: the
    run takes that reading, checks the clock again at once, starts no read
    except right after a reading below the deadline, and ends at the first
    reading at or past it unless interrupted first.
   */
  lemma ReadForeverDeadline(clock: nat -> int, chunks: nat -> seq<byte>, duration: int, interruptAt: nat, c: nat, r: nat)
    requires IsTicking(clock) && duration > 0
    ensures var es := ReadForeverSpec(clock, chunks, duration, interruptAt, c, r).events;
            |es| > 1 && es[0] == Tick(clock(c)) && es[1] == Tick(clock(c + 1))
    ensures var es := ReadForeverSpec(clock, chunks, duration, interruptAt, c, r).events;
            ReadsGuarded(es, clock(c) + duration) && StopsAtDeadline(es, clock(c) + duration)
    ensures var es := ReadForeverSpec(clock, chunks, duration, interruptAt, c, r).events;
            EndsProperly(es, clock(c) + duration)
  {
    var deadline := clock(c) + duration;
    var rest := Loop(clock, chunks, Some(deadline), interruptAt, c + 1, r).events;
    LoopDeadline(clock, chunks, deadline, interruptAt, c + 1, r);
    var es := [Tick(clock(c))] + rest;
    forall j | 0 <= j < |es| && es[j].Chunk?
      ensures 0 < j && es[j - 1].Tick? && es[j - 1].time < deadline
    {
      assert es[j] == rest[j - 1];
      if j > 1 {
        assert es[j - 1] == rest[j - 2];
      }
    }
    forall j | 0 <= j < |es| && es[j].Tick? && es[j].time >= deadline
      ensures j == |es| - 1
    {
      if j > 0 {
        assert es[j] == rest[j - 1];
      }
    }
    assert es[|es| - 1] == rest[|rest| - 1];
  }

  /** The run reads exactly the chunks the port delivers and prints one line per non-empty chunk. */
  lemma ReadForeverReads(clock: nat -> int, chunks: nat -> seq<byte>, duration: int, interruptAt: nat, c: nat, r: nat)
    requires IsTicking(clock)
    ensures var x := ReadForeverSpec(clock, chunks, duration, interruptAt, c, r);
            r <= x.readCalls && ChunksOf(x.events) == ChunkScript(chunks, r, x.readCalls)
    ensures var x := ReadForeverSpec(clock, chunks, duration, interruptAt, c, r);
            LinesOf(x.events) == Rendered(ChunksOf(x.events))
  {
    if duration > 0 {
      var loop := Loop(clock, chunks, Some(clock(c) + duration), interruptAt, c + 1, r);
      LoopReads(clock, chunks, Some(clock(c) + duration), interruptAt, c + 1, r);
      ChunksConcat([Tick(clock(c))], loop.events);
      LinesConcat([Tick(clock(c))], loop.events);
    } else {
      LoopReads(clock, chunks, None, interruptAt, c, r);
    }
  }
}
