/**
  `main` of `dual_phase_serial.py`: every `--request` argument is parsed
  before the port is opened, and the first that fails is reported on stderr
  with exit code 2. Otherwise the port is opened, phase 1 listens, phase 2
  sends the requests (or a line says there are none) and the port is closed
  on the way out, also when phase 2 raised.
 */
module Session {
  import opened Wrappers
  import opened HexText
  import opened HexParse
  import opened DualPhase
  import opened ActivePhase
  import opened Ticks

  /** A `--request` argument that does not parse, and why. */
  datatype BadRequest = BadRequest(raw: string, error: ParseError)

  /** How `main` ends: a return code, or an exception raised out of phase 2. */
  datatype Exit = Code(code: int) | Raised(failure: Failure)

  /** Everything `main` did, and how it ended. */
  datatype Outcome = Outcome(events: seq<Event>, exit: Exit)

  /** The loop over `args.requests`: the parsed requests in order, or the first argument that fails. */
  function ParseAll(raws: seq<string>): Result<seq<seq<byte>>, BadRequest>
    decreases |raws|
  {
    if |raws| == 0 then Ok([])
    else
      match ParseSpec(raws[0])
      case Err(e) => Err(BadRequest(raws[0], e))
      case Ok(b) => PrependRequests([b], ParseAll(raws[1..]))
  }

  function PrependRequests(done: seq<seq<byte>>, r: Result<seq<seq<byte>>, BadRequest>): Result<seq<seq<byte>>, BadRequest> {
    match r
    case Ok(rest) => Ok(done + rest)
    case Err(bad) => Err(bad)
  }

  /** The sequence `main` runs, from clock call `c` and read call `r`. */
  function Run(clock: nat -> int, reader: nat -> ReadOutcome, raws: seq<string>,
               seconds: int, count: int, delay: int, c: nat, r: nat): Outcome
    requires IsTicking(clock)
  {
    match ParseAll(raws)
    case Err(bad) => Outcome([ParseErrorLine(bad.raw, bad.error)], Code(2))
    case Ok(requests) => Connected(clock, reader, requests, seconds, count, delay, c, r)
  }

  /** The `with serial.Serial(...)` block and the banner before it, for parsed `requests`. */
  function Connected(clock: nat -> int, reader: nat -> ReadOutcome, requests: seq<seq<byte>>,
                     seconds: int, count: int, delay: int, c: nat, r: nat): Outcome
    requires IsTicking(clock)
  {
    var listen := ListenPhase(clock, reader, seconds, c, r);
    var active := Phase2(reader, requests, count, delay, listen.readCalls);
    Outcome([OpeningLine, PortOpened] + listen.events + active.events + [PortClosed],
            if active.failure.Some? then Raised(active.failure.value) else Code(0))
  }

  /** `if requests: _send_requests_and_collect(...) else: print(...)`. */
  function Phase2(reader: nat -> ReadOutcome, requests: seq<seq<byte>>, count: int, delay: int, r: nat): SendResult {
    if |requests| > 0 then SendAll(reader, requests, 1, count, delay, r)
    else SendResult([NoRequestsLine], r, None)
  }

  /** The request-parsing loop of `main`. */
  method ParseRequests(raws: seq<string>) returns (result: Result<seq<seq<byte>>, BadRequest>)
    ensures result == ParseAll(raws)
  {
    var requests: seq<seq<byte>> := [];
    assert raws[0..] == raws;
    PrependNone(ParseAll(raws));
    for i := 0 to |raws|
      invariant ParseAll(raws) == PrependRequests(requests, ParseAll(raws[i..]))
    {
      assert raws[i..][0] == raws[i] && raws[i..][1..] == raws[i + 1..];
      var parsed := ParseHexSequence(raws[i]);
      if parsed.Err? {
        return Err(BadRequest(raws[i], parsed.error));
      }
      PrependTwice(requests, [parsed.value], ParseAll(raws[i + 1..]));
      requests := requests + [parsed.value];
    }
    assert raws[|raws|..] == [];
    assert requests + [] == requests;
    return Ok(requests);
  }

  lemma PrependNone(r: Result<seq<seq<byte>>, BadRequest>)
    ensures PrependRequests([], r) == r
  {
    if r.Ok? {
      assert [] + r.value == r.value;
    }
  }

  lemma PrependTwice(a: seq<seq<byte>>, b: seq<seq<byte>>, r: Result<seq<seq<byte>>, BadRequest>)
    ensures PrependRequests(a, PrependRequests(b, r)) == PrependRequests(a + b, r)
  {
    if r.Ok? {
      assert a + (b + r.value) == a + b + r.value;
    }
  }

  /** `Run` when a request does not parse. */
  lemma RunRejected(clock: nat -> int, reader: nat -> ReadOutcome, raws: seq<string>,
                    seconds: int, count: int, delay: int, c: nat, r: nat, bad: BadRequest)
    requires IsTicking(clock) && ParseAll(raws) == Err(bad)
    ensures Run(clock, reader, raws, seconds, count, delay, c, r) == Outcome([ParseErrorLine(bad.raw, bad.error)], Code(2))
  {
  }

  /** `main`: parse every request, then open the port, listen, send and close. */
  method RunMain(link: Link, raws: seq<string>, seconds: int, count: int, delay: int) returns (exit: Exit)
    requires IsTicking(link.clock)
    modifies link
    ensures var o := Run(link.clock, link.reader, raws, seconds, count, delay, old(link.clockCalls), old(link.readCalls));
            link.trace == old(link.trace) + o.events && exit == o.exit
  {
    var parsed := ParseRequests(raws);
    if parsed.Err? {
      link.Emit(ParseErrorLine(parsed.error.raw, parsed.error.error));
      RunRejected(link.clock, link.reader, raws, seconds, count, delay, old(link.clockCalls), old(link.readCalls), parsed.error);
      return Code(2);
    }
    exit := OpenAndRun(link, parsed.value, seconds, count, delay);
  }

  /** The banner, then the `with` block: open, listen, send or say there is nothing to send, close. */
  method OpenAndRun(link: Link, requests: seq<seq<byte>>, seconds: int, count: int, delay: int) returns (exit: Exit)
    requires IsTicking(link.clock)
    modifies link
    ensures var o := Connected(link.clock, link.reader, requests, seconds, count, delay, old(link.clockCalls), old(link.readCalls));
            link.trace == old(link.trace) + o.events && exit == o.exit
  {
    ghost var start := link.trace;
    ghost var listen := ListenPhase(link.clock, link.reader, seconds, link.clockCalls, link.readCalls);
    link.Emit(OpeningLine);
    link.Emit(PortOpened);
    ghost var afterOpen := link.trace;
    Listen(link, seconds);
    assert link.trace == afterOpen + listen.events && link.readCalls == listen.readCalls;
    ghost var listened := link.trace;
    ghost var active := Phase2(link.reader, requests, count, delay, link.readCalls);
    var failure := SecondPhase(link, requests, count, delay);
    link.Emit(PortClosed);
    assert link.trace == start + [OpeningLine] + [PortOpened] + listen.events + active.events + [PortClosed];
    Assemble(start, listen.events, active.events);
    exit := if failure.Some? then Raised(failure.value) else Code(0);
  }

  /** The trace of `OpenAndRun`, event by event, is the connected session after what came before. */
  lemma Assemble(start: seq<Event>, listen: seq<Event>, active: seq<Event>)
    ensures start + [OpeningLine] + [PortOpened] + listen + active + [PortClosed] ==
            start + ([OpeningLine, PortOpened] + listen + active + [PortClosed])
  {
    assert [OpeningLine] + [PortOpened] == [OpeningLine, PortOpened];
  }

  /** `if requests: _send_requests_and_collect(...) else: print(...)`. */
  method SecondPhase(link: Link, requests: seq<seq<byte>>, count: int, delay: int) returns (failure: Option<Failure>)
    modifies link
    ensures var spec := Phase2(link.reader, requests, count, delay, old(link.readCalls));
            link.trace == old(link.trace) + spec.events && failure == spec.failure &&
            link.readCalls == spec.readCalls
  {
    if |requests| > 0 {
      failure := SendRequests(link, requests, count, delay);
    } else {
      link.Emit(NoRequestsLine);
      failure := None;
    }
  }

  // ---------------------------------------------------------------------
  // What `main` does
  // ---------------------------------------------------------------------

  /** The loop over the requests succeeds exactly when every one parses, and then keeps them all, in order. */
  lemma {:induction false} ParseAllOk(raws: seq<string>)
    ensures ParseAll(raws).Ok? <==> forall i :: 0 <= i < |raws| ==> ParseSpec(raws[i]).Ok?
    ensures ParseAll(raws).Ok? ==>
              |ParseAll(raws).value| == |raws| &&
              forall i :: 0 <= i < |raws| ==> ParseAll(raws).value[i] == ParseSpec(raws[i]).value
    decreases |raws|
  {
    if |raws| > 0 {
      ParseAllOk(raws[1..]);
      forall i | 1 <= i < |raws|
        ensures raws[1..][i - 1] == raws[i]
      {
      }
    }
  }

  /** A failing loop reports the first request that does not parse, with its own error. */
  lemma {:induction false} ParseAllFirstBad(raws: seq<string>)
    requires ParseAll(raws).Err?
    ensures exists i :: 0 <= i < |raws| && ParseSpec(raws[i]).Err? &&
                        ParseAll(raws).error == BadRequest(raws[i], ParseSpec(raws[i]).error) &&
                        forall j :: 0 <= j < i ==> ParseSpec(raws[j]).Ok?
    decreases |raws|
  {
    if ParseSpec(raws[0]).Err? {
      assert raws[0] == raws[0];
    } else {
      ParseAllFirstBad(raws[1..]);
      var i :| 0 <= i < |raws[1..]| && ParseSpec(raws[1..][i]).Err? &&
               ParseAll(raws[1..]).error == BadRequest(raws[1..][i], ParseSpec(raws[1..][i]).error) &&
               forall j :: 0 <= j < i ==> ParseSpec(raws[1..][j]).Ok?;
      assert raws[1..][i] == raws[i + 1];
      forall j | 1 <= j < i + 1
        ensures ParseSpec(raws[j]).Ok?
      {
        assert raws[1..][j - 1] == raws[j];
      }
    }
  }

  /**
    A request that does not parse ends `main` with code 2 before the port is opened:
    one stderr line, nothing written, nothing read. Exit code 2 means exactly that.
   */
  lemma RunRejectsBadRequest(clock: nat -> int, reader: nat -> ReadOutcome, raws: seq<string>,
                             seconds: int, count: int, delay: int, c: nat, r: nat)
    requires IsTicking(clock)
    ensures var o := Run(clock, reader, raws, seconds, count, delay, c, r);
            (ParseAll(raws).Err? <==> o.exit == Code(2)) &&
            (o.exit == Code(2) ==>
               o.events == [ParseErrorLine(ParseAll(raws).error.raw, ParseAll(raws).error.error)] &&
               PortOpened !in o.events && WrittenOf(o.events) == [] && ReadsOf(o.events) == [])
  {
    var o := Run(clock, reader, raws, seconds, count, delay, c, r);
    if ParseAll(raws).Err? {
      ViewsOne(o.events[0]);
    }
  }

  /** An event of phase 1. */
  predicate ListenKind(e: Event) {
    e.ClockRead? || e.ReadAttempt? || e.NoFramesLine? || (e.FrameLine? && e.heading == Okamzite)
  }

  /** An event of phase 2. */
  predicate ActiveKind(e: Event) {
    IsActive(e) || e.NoRequestsLine?
  }

  lemma ListenPhaseKinds(clock: nat -> int, reader: nat -> ReadOutcome, seconds: int, c: nat, r: nat)
    requires IsTicking(clock)
    ensures var es := ListenPhase(clock, reader, seconds, c, r).events;
            forall j :: 0 <= j < |es| ==> ListenKind(es[j])
  {
    var loop := ListenLoop(clock, reader, clock(c) + seconds, c + 1, r, 0);
    ListenLoopDeadline(clock, reader, clock(c) + seconds, c + 1, r, 0);
    var es := ListenPhase(clock, reader, seconds, c, r).events;
    forall j | 1 <= j < 1 + |loop.events|
      ensures es[j] == loop.events[j - 1]
    {
    }
  }

  lemma Phase2Kinds(reader: nat -> ReadOutcome, requests: seq<seq<byte>>, count: int, delay: int, r: nat)
    ensures var es := Phase2(reader, requests, count, delay, r).events;
            forall j :: 0 <= j < |es| ==> ActiveKind(es[j])
  {
    if |requests| > 0 {
      SendAllActive(reader, requests, 1, count, delay, r);
    }
  }

  /** The layout of a connected session: banner, open, phase 1, phase 2, close. */
  lemma ConnectedLayout(clock: nat -> int, reader: nat -> ReadOutcome, requests: seq<seq<byte>>,
                        seconds: int, count: int, delay: int, c: nat, r: nat)
    requires IsTicking(clock)
    ensures var es := Connected(clock, reader, requests, seconds, count, delay, c, r).events;
            var n := |ListenPhase(clock, reader, seconds, c, r).events|;
            2 < 2 + n < |es| && es[0] == OpeningLine && es[1] == PortOpened && es[|es| - 1] == PortClosed &&
            (forall k :: 2 <= k < 2 + n ==> ListenKind(es[k])) &&
            (forall k :: 2 + n <= k < |es| - 1 ==> ActiveKind(es[k]))
  {
    var listen := ListenPhase(clock, reader, seconds, c, r);
    var active := Phase2(reader, requests, count, delay, listen.readCalls);
    ListenPhaseReport(clock, reader, seconds, c, r);
    ListenPhaseKinds(clock, reader, seconds, c, r);
    Phase2Kinds(reader, requests, count, delay, listen.readCalls);
    Layout(listen.events, active.events);
  }

  lemma Layout(listen: seq<Event>, active: seq<Event>)
    requires |listen| > 0
    requires forall j :: 0 <= j < |listen| ==> ListenKind(listen[j])
    requires forall j :: 0 <= j < |active| ==> ActiveKind(active[j])
    ensures var es := [OpeningLine, PortOpened] + listen + active + [PortClosed];
            var n := |listen|;
            2 < 2 + n < |es| && es[0] == OpeningLine && es[1] == PortOpened && es[|es| - 1] == PortClosed &&
            (forall k :: 2 <= k < 2 + n ==> ListenKind(es[k])) &&
            (forall k :: 2 + n <= k < |es| - 1 ==> ActiveKind(es[k]))
  {
    var n := |listen|;
    var es := [OpeningLine, PortOpened] + listen + active + [PortClosed];
    forall k | 2 <= k < 2 + n
      ensures es[k] == listen[k - 2]
    {
    }
    forall k | 2 + n <= k < |es| - 1
      ensures es[k] == active[k - 2 - n]
    {
    }
  }

  /** A clock reading, an `Okamzite` line or the "no frames" line: what only phase 1 does. */
  predicate IsListening(e: Event) {
    e.ClockRead? || e.NoFramesLine? || (e.FrameLine? && e.heading == Okamzite)
  }

  lemma LayoutOrders(es: seq<Event>, n: nat)
    requires 2 < 2 + n < |es| && es[0] == OpeningLine && es[1] == PortOpened && es[|es| - 1] == PortClosed
    requires forall k :: 2 <= k < 2 + n ==> ListenKind(es[k])
    requires forall k :: 2 + n <= k < |es| - 1 ==> ActiveKind(es[k])
    ensures forall i, j :: 0 <= i < |es| && 0 <= j < |es| && es[i].Written? && IsListening(es[j]) ==> j < i
    ensures forall i :: 0 <= i < |es| && es[i].Written? ==> 2 + n <= i
    ensures forall j :: 0 <= j < |es| && es[j] == PortOpened ==> j == 1
    ensures forall j :: 0 <= j < |es| && es[j] == PortClosed ==> j == |es| - 1
  {
  }

  /**
    The port is opened once, right after the banner, and closed once, as the last
    event, whether phase 2 ended normally or raised; every write comes after the
    whole of phase 1: phase 1 fills the `n` events after the opening, and no
    write comes before their end; in particular every write follows every clock
    reading, every `Okamzite` line and the "no frames" line.
   */
  lemma ConnectedOrder(clock: nat -> int, reader: nat -> ReadOutcome, requests: seq<seq<byte>>,
                       seconds: int, count: int, delay: int, c: nat, r: nat)
    requires IsTicking(clock)
    ensures var es := Connected(clock, reader, requests, seconds, count, delay, c, r).events;
            es[0] == OpeningLine && es[1] == PortOpened && es[|es| - 1] == PortClosed &&
            (forall j :: 0 <= j < |es| && es[j] == PortOpened ==> j == 1) &&
            (forall j :: 0 <= j < |es| && es[j] == PortClosed ==> j == |es| - 1) &&
            (forall i, j :: 0 <= i < |es| && 0 <= j < |es| && es[i].Written? && IsListening(es[j]) ==> j < i)
    ensures var es := Connected(clock, reader, requests, seconds, count, delay, c, r).events;
            var n := |ListenPhase(clock, reader, seconds, c, r).events|;
            2 + n < |es| && es[2..2 + n] == ListenPhase(clock, reader, seconds, c, r).events &&
            (forall i :: 0 <= i < |es| && es[i].Written? ==> 2 + n <= i)
  {
    var listen := ListenPhase(clock, reader, seconds, c, r);
    var active := Phase2(reader, requests, count, delay, listen.readCalls);
    assert Connected(clock, reader, requests, seconds, count, delay, c, r).events[2..2 + |listen.events|] == listen.events by {
      var front := [OpeningLine, PortOpened];
      assert front + listen.events + active.events + [PortClosed] == front + listen.events + (active.events + [PortClosed]);
    }
    ConnectedLayout(clock, reader, requests, seconds, count, delay, c, r);
    LayoutOrders(Connected(clock, reader, requests, seconds, count, delay, c, r).events,
                 |ListenPhase(clock, reader, seconds, c, r).events|);
  }

  /** The writes of a connected session are those of its two phases. */
  lemma ConnectedWrittenViews(listen: seq<Event>, active: seq<Event>)
    ensures WrittenOf([OpeningLine, PortOpened] + listen + active + [PortClosed]) == WrittenOf(listen) + WrittenOf(active)
  {
    var e1, e2, e3 := OpeningLine, PortOpened, PortClosed;
    var x := active + [e3];
    var y := listen + x;
    var z := [e2] + y;
    assert [e1, e2] + listen + active + [e3] == [e1] + z;
    assert [e3] == [e3] + [];
    WrittenCons(e3, []);
    WrittenConcat(active, [e3]);
    WrittenConcat(listen, x);
    WrittenCons(e2, y);
    WrittenCons(e1, z);
  }


  /** The reads of a connected session are those of its two phases. */
  lemma ConnectedReadViews(listen: seq<Event>, active: seq<Event>)
    ensures ReadsOf([OpeningLine, PortOpened] + listen + active + [PortClosed]) == ReadsOf(listen) + ReadsOf(active)
  {
    var e1, e2, e3 := OpeningLine, PortOpened, PortClosed;
    var x := active + [e3];
    var y := listen + x;
    var z := [e2] + y;
    assert [e1, e2] + listen + active + [e3] == [e1] + z;
    assert [e3] == [e3] + [];
    ReadsCons(e3, []);
    ReadsConcat(active, [e3]);
    ReadsConcat(listen, x);
    ReadsCons(e2, y);
    ReadsCons(e1, z);
  }


  /**
    A connected session writes the first requests, in order: all of them when it
    returns 0, at least one when it raised. It raises `NegativeSleep` exactly when
    there are requests and the delay is negative. With no requests it writes
    nothing, says so just before closing, and returns 0.
   */
  lemma ConnectedWrites(clock: nat -> int, reader: nat -> ReadOutcome, requests: seq<seq<byte>>,
                        seconds: int, count: int, delay: int, c: nat, r: nat)
    requires IsTicking(clock)
    ensures var o := Connected(clock, reader, requests, seconds, count, delay, c, r);
            var w := WrittenOf(o.events);
            |w| <= |requests| && w == requests[..|w|] &&
            (o.exit == Code(0) || o.exit.Raised?) &&
            (o.exit == Code(0) ==> w == requests) &&
            (o.exit.Raised? ==> |w| > 0) &&
            (o.exit == Raised(NegativeSleep) <==> delay < 0 && |requests| > 0) &&
            (|requests| == 0 ==> o.exit == Code(0) && o.events[|o.events| - 2] == NoRequestsLine)
  {
    var listen := ListenPhase(clock, reader, seconds, c, r);
    var active := Phase2(reader, requests, count, delay, listen.readCalls);
    var o := Connected(clock, reader, requests, seconds, count, delay, c, r);
    assert WrittenOf(o.events) == WrittenOf(active.events) by {
      ListenPhaseReport(clock, reader, seconds, c, r);
      ConnectedWrittenViews(listen.events, active.events);
    }
    if |requests| > 0 {
      SendAllPrefix(reader, requests, 1, count, delay, listen.readCalls);
    } else {
      assert active.events == [NoRequestsLine] + [];
      WrittenCons(NoRequestsLine, []);
      var front := [OpeningLine, PortOpened] + listen.events;
      assert o.events == front + [NoRequestsLine, PortClosed];
      LastTwo(front, NoRequestsLine, PortClosed);
    }
  }

  lemma LastTwo(front: seq<Event>, e1: Event, e2: Event)
    ensures var es := front + [e1, e2]; es[|es| - 2] == e1 && es[|es| - 1] == e2
  {
  }

  /**
    A connected session reads exactly the reader's outcomes in order; when it returns
    0 it has read `count` response frames per request after phase 1 (none when
    `count` is not positive); when it raised on a timeout, that read is the last
    event before the port is closed.
   */
  lemma ConnectedReads(clock: nat -> int, reader: nat -> ReadOutcome, requests: seq<seq<byte>>,
                       seconds: int, count: int, delay: int, c: nat, r: nat)
    requires IsTicking(clock)
    ensures var o := Connected(clock, reader, requests, seconds, count, delay, c, r);
            var listen := ListenPhase(clock, reader, seconds, c, r);
            var total := Phase2(reader, requests, count, delay, listen.readCalls).readCalls;
            var n := if count > 0 then count else 0;
            ReadsOf(o.events) == Script(reader, r, total) &&
            (o.exit == Code(0) ==> total == listen.readCalls + |requests| * n) &&
            (o.exit == Raised(FrameTimeout) ==> o.events[|o.events| - 2] == ReadAttempt(Timeout))
  {
    var listen := ListenPhase(clock, reader, seconds, c, r);
    var active := Phase2(reader, requests, count, delay, listen.readCalls);
    ListenPhaseReads(clock, reader, seconds, c, r);
    ConnectedReadViews(listen.events, active.events);
    if |requests| > 0 {
      SendAllScript(reader, requests, 1, count, delay, listen.readCalls);
      SendAllTimeoutLast(reader, requests, 1, count, delay, listen.readCalls);
      SendAllTimeout(reader, requests, 1, count, delay, listen.readCalls);
    } else {
      ViewsOne(NoRequestsLine);
      assert Script(reader, listen.readCalls, listen.readCalls) == [];
    }
    ScriptConcat(reader, r, listen.readCalls, active.readCalls);
    var es := [OpeningLine, PortOpened] + listen.events + active.events + [PortClosed];
    assert active.failure == Some(FrameTimeout) ==> |active.events| > 0 && es[|es| - 2] == active.events[|active.events| - 1];
  }
}
