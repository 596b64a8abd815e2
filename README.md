# Dual-phase serial helper, modelled in Dafny

This project models the logic of two helper scripts for a bed control unit that
talks over a serial link.

- `dual_phase_serial.py` does the following:
  - it parses the hexadecimal request texts given on the command line;
  - it opens the port and passively listens for the periodically streamed
    "Okamzite hodnoty" frames until a deadline;
  - it then writes each request, flushes it, announces it and collects a fixed
    number of response frames;
  - it prints every frame as comma-separated upper-case hexadecimal.
- `basic_serial_read.py` dumps raw chunks as space-separated hexadecimal. Only
  its renderer and the stop-deadline rule of its read loop are modelled.

The outside world becomes three abstractions:

- **a scripted clock.** `clock: nat -> int` gives the reading returned by the
  n-th call of `time.time()` / `time.monotonic()`, in integer ticks. It is
  required to be strictly increasing (`Ticks.IsTicking`).
- **a scripted frame reader.** `reader: nat -> ReadOutcome` gives what the n-th
  call of the frame reader returns: `Frame(bytes)` or `Timeout`. For the raw
  dump, `chunks: nat -> seq<byte>` gives what the n-th `ser.read` returns.
- **an output trace.** Every interaction is logged in order: clock readings,
  read attempts, writes, flushes, sleeps, printed lines, and opening and
  closing the port.

Each loop of the source that talks to the port or the clock is a `method` with a
`while` or `for` loop over a `class` (`DualPhase.Link`, `BasicSerialRead.Port`)
whose fields are the trace and the call counters; the two parsing loops
(`HexParse.ParseHexSequence`, `Session.ParseRequests`) are methods over plain values. Each method is proved to extend the trace by exactly what a recursive
specification function says. The properties of the program are lemmas about those
functions.

Modules:

- `Ticks`, `Wrappers`: the clock assumption, and `Option` / `Result`.
- `HexText`: two-digit upper-case hex and the separator join shared by both renderers.
- `PyInt`: the part of Python's `int(token, 0)` that request tokens use.
- `HexParse`: `_parse_hex_sequence`.
- `DualPhase`: `_format_bytes`, the `Link`, the event trace and its views, and `_listen_for_initial_values`.
- `ActivePhase`: `_read_frames` and `_send_requests_and_collect`.
- `Session`: the request validation and phase sequencing of `main`.
- `BasicSerialRead`: `render_bytes` and the `stop_at` rule of `read_forever`.

Points where the code does something other than its own docstrings suggest:

- **Request examples.** The docstrings (`dual_phase_serial.py:20`, `:50`, `:176`)
  present `"7E 14,17 00"` as a hex request. But each
  token goes through `int(token, 0)` (`dual_phase_serial.py:70`): a bare token
  is decimal, and `7E` or `07` is refused. `HexParse.UnprefixedExample` proves
  that this text is rejected, at `"7E"`. Only `0x`/`0X` tokens give hex values
  (`HexParse.PrefixedExample`). As a consequence, `_format_bytes` output does not
  parse back (`DualPhase.FormatBytesNotReparsed`), so no round trip between the
  two is claimed.

Points worth knowing about the code:

- **Settling delay.** The post-write sleep runs only when the delay is non-zero
  (`dual_phase_serial.py:90-91`).
- **Bad requests.** Only the first bad request is reported; `main` returns 2 at
  once (`dual_phase_serial.py:204-209`).

## Model

| member | source | states |
|---|---|---|
| HexText.Hex2 | dual_phase_serial.py:46 | `f"{b:02X}"`: two upper-case hex digits whose value is the byte |
| HexText.Hex2Injective | dual_phase_serial.py:46 | two bytes with the same two-digit rendering are equal |
| HexText.Join | dual_phase_serial.py:46 | the join of byte renderings is empty iff there are no bytes; n bytes give n·(2+\|sep\|)−\|sep\| characters |
| HexText.JoinAt | dual_phase_serial.py:46 | element i of the join is the hex of byte i, followed by the separator unless it is the last |
| HexText.JoinInjective | dual_phase_serial.py:46 | equal joins come from equal byte sequences |
| DualPhase.FormatField | dual_phase_serial.py:46 | byte i's hex is at 4i, followed by ", " unless it is the last byte |
| DualPhase.FormatBytesShape | dual_phase_serial.py:43-46 | empty input gives ""; n ≥ 1 bytes give 4n−2 characters; byte i's hex is at 4i, followed by ", " except after the last |
| DualPhase.FormatBytesInjective | dual_phase_serial.py:43-46 | `_format_bytes` is injective |
| DualPhase.FormatBytesNotReparsed | dual_phase_serial.py:43-77 | the rendering "7E, 14" of [0x7E, 0x14] is rejected by `_parse_hex_sequence` |
| PyInt.DigitValue | dual_phase_serial.py:70 | a character's digit value, which agrees with the hex digit value on 0-9 and A-F |
| PyInt.HexDigitsValue | dual_phase_serial.py:69-72 | `0x` or `0X` followed by any non-empty run of hex digits, upper or lower case, parses to their base-16 value |
| PyInt.HexTokenValue | dual_phase_serial.py:69-72 | `0x` or `0X` followed by any two hex digits, upper or lower case, parses to 16·d1 + d2 |
| PyInt.HexByteToken | dual_phase_serial.py:69-72 | `0x` or `0X` followed by the two upper-case digits `{b:02X}` renders for a byte parses to that byte |
| PyInt.DecimalText | dual_phase_serial.py:70 | the decimal numeral of n is non-empty, all digits, and has no leading zero when n > 0 |
| PyInt.DecimalTextValue | dual_phase_serial.py:70 | the decimal numeral of n has value n |
| PyInt.DecimalTokenValue | dual_phase_serial.py:69-72 | a bare decimal numeral without leading zeros parses as decimal |
| PyInt.BareHexRefused | dual_phase_serial.py:69-72 | a bare token of hex digits that contains a letter and does not start with 0 is refused |
| PyInt.LeadingZeroRefused | dual_phase_serial.py:69-72 | a decimal token with a leading zero and a non-zero digit is refused |
| PyInt.HexExamples | dual_phase_serial.py:69-72 | `0x7E`, `0X7E` and `0x7e` give 126 |
| PyInt.WideHexExample | dual_phase_serial.py:69-72 | `0x100` gives 256, which is left for the byte-range check |
| PyInt.DecimalExamples | dual_phase_serial.py:69-72 | `14` gives 14 and `256` gives 256 |
| PyInt.SmallExamples | dual_phase_serial.py:69-72 | `0` and `00` give 0; `-1` gives −1 |
| PyInt.RefusedExamples | dual_phase_serial.py:69-72 | `7E`, `07` and `ZZ` are refused |
| HexParse.Normalize | dual_phase_serial.py:61 | replacing `,` and `;` keeps the length, makes exactly the separators whitespace, and keeps every other character |
| HexParse.SplitWords | dual_phase_serial.py:61-63 | `str.split()` yields only non-empty words without whitespace |
| HexParse.SplitEmptyIff | dual_phase_serial.py:61-64 | `str.split()` yields nothing iff the text is all whitespace |
| HexParse.SplitUnwords | dual_phase_serial.py:61 | splitting words joined by spaces gives the words back |
| HexParse.TokensEmptyIff | dual_phase_serial.py:60-64 | there are no tokens iff every character is whitespace, a comma or a semicolon |
| HexParse.TokensSameSeparators | dual_phase_serial.py:60-63 | texts that differ only in which separator stands where give the same tokens |
| HexParse.TokensCollapse | dual_phase_serial.py:60-63 | two adjacent separators tokenize like one |
| HexParse.ParseHexSequence | dual_phase_serial.py:49-77 | the two append loops and early raises compute exactly the specified parse |
| HexParse.ParseTokensOk | dual_phase_serial.py:67-77 | the token loop succeeds iff every token is an integer in 0..255; then there is one byte per token, in order, equal to its value |
| HexParse.ParseTokensFirstError | dual_phase_serial.py:67-75 | a failing token loop reports the first bad token: not an integer, or out of range with its value |
| HexParse.ParseNoTokens | dual_phase_serial.py:57-65 | the empty text is rejected as empty; a non-empty text is rejected for having no tokens iff it is made only of separators |
| HexParse.ParseOk | dual_phase_serial.py:57-77 | the parse succeeds iff the text is non-empty, has a token and every token is a byte value; then byte i is token i's value |
| HexParse.ParseSameSeparators | dual_phase_serial.py:60-77 | commas, semicolons and whitespace are interchangeable |
| HexParse.ParseCollapse | dual_phase_serial.py:60-77 | a run of separators acts as one |
| HexParse.PrefixedHexRoundTrip | dual_phase_serial.py:49-77 | any non-empty bytes written as `0x..` tokens joined by spaces parse back to themselves |
| HexParse.UnprefixedExample | dual_phase_serial.py:49-77 | "7E 14,17 00" is rejected because `7E` is not an integer |
| HexParse.PrefixedExample | dual_phase_serial.py:49-77 | "0x7E,0x14,0x17,0x00" gives [0x7E, 0x14, 0x17, 0x00] |
| HexParse.SeparatorsExample | dual_phase_serial.py:57-65 | " , ; " is rejected for having no tokens |
| HexParse.WideTextExample | dual_phase_serial.py:73-74 | "0x100" is rejected as out of range, with value 256 |
| HexParse.NegativeTextExample | dual_phase_serial.py:73-74 | "-1" is rejected as out of range, with value −1 |
| HexParse.NonNumberTextExample | dual_phase_serial.py:69-72 | "ZZ" is rejected as not an integer |
| DualPhase.Link.Now | dual_phase_serial.py:105-112 | `time.time()` returns the next scripted reading and logs it |
| DualPhase.Link.ReadFrame | dual_phase_serial.py:109 | the frame reader returns the next scripted outcome and logs it |
| DualPhase.Link.Emit | dual_phase_serial.py:132-134 | a write, flush, sleep or printed line is appended to the trace, and no counter moves |
| DualPhase.Listen | dual_phase_serial.py:98-119 | the listen method extends the trace by exactly the listen-phase specification and ends at its clock and read counts |
| DualPhase.ListenAttempt | dual_phase_serial.py:107-116 | one pass of the loop: it either ends the loop where the specification ends, or continues it after a clock reading below the deadline |
| DualPhase.ListenLoopDeadline | dual_phase_serial.py:105-116 | the loop starts with a clock reading; every read directly follows a reading below the deadline; every reading but the last is below the deadline and the last is at or past it, so a timeout ends the loop only once the deadline has passed; nothing is written, flushed, slept or sent |
| DualPhase.ListenLoopReads | dual_phase_serial.py:105-116 | the reads are the reader's script in order, with no read call skipped or repeated |
| DualPhase.ListenLoopFrames | dual_phase_serial.py:105-116 | frame lines are numbered consecutively from observed+1 in arrival order; the count grows by the number of frames read |
| DualPhase.ListenPhaseReport | dual_phase_serial.py:105-119 | `observed` is the number of frames read; nothing is written; the "no frames" line appears iff observed = 0, and then it is the last event |
| DualPhase.ListenPhaseReads | dual_phase_serial.py:105-116 | the listen phase reads exactly the reader's outcomes from its first call on |
| ActivePhase.ReadFrames | dual_phase_serial.py:80-95 | the `_read_frames` method extends the trace by exactly `Responses` and reports its failure; the clock is not touched |
| ActivePhase.ReadResponses | dual_phase_serial.py:93-95 | the `for` loop of `count` reads extends the trace by exactly `ReadLoop` from index 1, stops at the first timeout and leaves the clock alone |
| ActivePhase.SendRequest | dual_phase_serial.py:131-141 | one request is carried out exactly as `Exchange` says |
| ActivePhase.SendRequests | dual_phase_serial.py:122-141 | the request loop extends the trace by exactly `SendAll` and stops at the first failure |
| ActivePhase.ReadLoopReads | dual_phase_serial.py:93-95 | the response loop reads the reader's script; it fails iff a read timed out, and then with a timeout as its last event |
| ActivePhase.ReadLoopLines | dual_phase_serial.py:93-95 | response lines are numbered on from the first index, one per frame; with no failure, one frame is read per remaining index |
| ActivePhase.ResponsesSleep | dual_phase_serial.py:90-91 | a negative delay fails with no event; a positive one sleeps once; a zero delay does not sleep; nothing is written or announced |
| ActivePhase.ResponsesReads | dual_phase_serial.py:80-95 | `_read_frames` reads the reader's script, fails with a timeout iff a read timed out, and that read is then its last event |
| ActivePhase.ResponsesLines | dual_phase_serial.py:93-95 | the frames are printed numbered 1..N; with no failure exactly N = max(count, 0) frames are read |
| ActivePhase.ExchangeWrites | dual_phase_serial.py:131-141 | request i is written, then flushed, then announced as "Sent request i"; it is the only request written and announced; the sleeps, reads and failure are those of its responses |
| ActivePhase.ExchangeReads | dual_phase_serial.py:131-141 | the responses to request i are read from the script and labelled "Response to request i", numbered from 1 |
| ActivePhase.SendAllPrefix | dual_phase_serial.py:131-141 | the written requests are a prefix of the requests, in order: all of them when nothing failed, so a failure means no later request is written; a negative delay fails iff there is a request |
| ActivePhase.SendAllAnnounced | dual_phase_serial.py:131-134 | each written request is announced once with its 1-based number, in order |
| ActivePhase.SendAllSleeps | dual_phase_serial.py:122-141 | one sleep per written request when the delay is positive, none otherwise |
| ActivePhase.SendAllScript | dual_phase_serial.py:131-141 | phase 2 reads the reader's script; with no failure it has read N frames per request |
| ActivePhase.SendAllTimeout | dual_phase_serial.py:122-141 | phase 2 ends with a timeout iff some read timed out |
| ActivePhase.SendAllTimeoutLast | dual_phase_serial.py:122-141 | a timeout propagates at once: the timed-out read is the last event of phase 2 |
| ActivePhase.SendAllActive | dual_phase_serial.py:122-141 | phase 2 never reads the clock and never prints an Okamzite line |
| Session.ParseRequests | dual_phase_serial.py:203-209 | the request loop of `main` computes exactly `ParseAll` |
| Session.ParseAllOk | dual_phase_serial.py:203-209 | validation succeeds iff every request text parses; then the requests are the parsed texts, in order |
| Session.ParseAllFirstBad | dual_phase_serial.py:203-209 | a failure names the first request text that does not parse, with its error |
| Session.RunMain | dual_phase_serial.py:200-247 | `main` extends the trace by exactly `Run` and exits as `Run` says |
| Session.OpenAndRun | dual_phase_serial.py:219-247 | the banner, then the `with` block: open, listen, phase 2, close, exactly as `Connected` says |
| Session.SecondPhase | dual_phase_serial.py:236-245 | requests are sent when there are any; otherwise only the "no additional requests" line is printed |
| Session.RunRejectsBadRequest | dual_phase_serial.py:203-209 | exit code 2 iff validation fails; then the only event is the error line: the port is not opened, nothing is written or read |
| Session.ConnectedLayout | dual_phase_serial.py:228-247 | a connected session is the banner, the port opening, then only phase-1 events, then only phase-2 events, then the closing |
| Session.ConnectedOrder | dual_phase_serial.py:228-247 | the port is opened once, right after the banner, and closed once, as the last event; the listen phase fills the events right after the opening and every write comes after all of them, so after every clock reading, read attempt, `Okamzite` line and the no-frames line of phase 1 |
| Session.ConnectedWrites | dual_phase_serial.py:228-247 | the requests written are a prefix in order; the exit is 0 or a raised failure; exit 0 means every request was written; a negative delay raises iff there is a request; with no requests the exit is 0 and the "no additional requests" line comes just before closing |
| Session.ConnectedReads | dual_phase_serial.py:228-247 | the whole run reads the reader's script; exit 0 means reads = listen reads + N per request; a timeout exit means the timed-out read is the last event before closing |
| BasicSerialRead.RenderField | basic_serial_read.py:16 | byte i's hex is at 3i, followed by a space unless it is the last byte |
| BasicSerialRead.RenderBytesShape | basic_serial_read.py:13-16 | empty input gives ""; n ≥ 1 bytes give 3n−1 characters; byte i's hex is at 3i, followed by a space except after the last |
| BasicSerialRead.RenderBytesAlphabet | basic_serial_read.py:16 | only upper-case hex digits and spaces occur, with a space exactly at every position ≡ 2 (mod 3) |
| BasicSerialRead.RenderBytesExample | basic_serial_read.py:16 | [0x7E, 0x0A, 0x00] gives "7E 0A 00": leading zeros are kept |
| BasicSerialRead.RenderBytesInjective | basic_serial_read.py:13-16 | `render_bytes` is injective |
| BasicSerialRead.Port.Monotonic | basic_serial_read.py:88 | `time.monotonic()` returns the next scripted reading and logs it |
| BasicSerialRead.Port.Read | basic_serial_read.py:91 | `ser.read` returns the next scripted chunk, or is interrupted at the scripted read |
| BasicSerialRead.Port.Print | basic_serial_read.py:92-93 | a printed line is appended to the trace |
| BasicSerialRead.ReadForever | basic_serial_read.py:81-95 | `read_forever` from the choice of `stop_at` on extends the trace by exactly its specification |
| BasicSerialRead.RunLoop | basic_serial_read.py:86-95 | the `while True` loop extends the trace by exactly `Loop` |
| BasicSerialRead.Pass | basic_serial_read.py:87-93 | one pass checks the clock against the deadline when there is one, reads once and prints a non-empty chunk; it either ends the loop where `Loop` ends or leaves the rest of `Loop` still to run, with less time or fewer reads left |
| BasicSerialRead.LoopDeadline | basic_serial_read.py:87-91 | under a deadline every pass starts with a clock reading; a read only starts right after a reading below the deadline; a reading at or past it is the last event; otherwise only the interrupt ends the loop |
| BasicSerialRead.LoopUnbounded | basic_serial_read.py:87-91 | without a deadline the loop never reads the clock and ends only by the interrupt |
| BasicSerialRead.LoopReads | basic_serial_read.py:87-93 | the loop reads the port's chunks in order and prints exactly one rendered line per non-empty chunk |
| BasicSerialRead.ReadForeverUnbounded | basic_serial_read.py:81-91 | a non-positive duration sets no deadline: no clock reading, and only the interrupt ends the run |
| BasicSerialRead.ReadForeverDeadline | basic_serial_read.py:81-91 | a positive duration sets the deadline at monotonic() + duration; the clock is checked before the first read; no read starts unless the reading before it is below the deadline; the run ends at the first reading at or past it unless interrupted first |
| BasicSerialRead.ReadForeverReads | basic_serial_read.py:81-93 | the run reads the port's chunks in order and prints one line per non-empty chunk, rendered by `render_bytes` |

## Left out

- The serial port itself is not modelled. Opening it, `write`, `flush`, `read` and closing it are trace events only. pyserial and its buffering are not part of this model.
- The frame reader is not modelled. `_read_one_frame_from_serial`, `ReadConfig`, framing, escaping, CRC and the frame status it returns are not part of this model. The frame reader is an oracle that returns a frame or a timeout, indexed by call count.
- Real time is not modelled. The clocks are scripted integer ticks and must strictly increase (`Ticks.IsTicking`), so repeated or backward readings are excluded. The termination of `ListenLoop` and `Loop` rests on this. On a real clock that stalls or goes back below the deadline, `_listen_for_initial_values` (`dual_phase_serial.py:107-114`) would spin while the reader keeps timing out, and `read_forever` (`basic_serial_read.py:87-93`) while chunks keep coming empty. Float seconds, the length of the sleeps and any bound on elapsed wall time are left out.
- `ser.read(args.chunk_size)` is not bounded: the scripted chunks may have any length.
- `parse_args` and argparse are not modelled, in either script. Command-line values arrive as parameters. Default port, listing ports and `parser.error` are left out.
- The printed texts are opaque events. The "Opening … baud" banner, the "Opened …" message of `basic_serial_read.py` and the wording of the stderr error line are not reproduced.
- The interrupt in `read_forever` (lines 94-95) is modelled only as arriving during a scripted read call. A signal that arrives elsewhere, for example during `print` or `time.monotonic()`, is left out.
- PyInt.IntLiteral covers an ASCII subset of `int(token, 0)`: an optional sign; `0x`/`0o`/`0b` prefixes in either case; decimal without leading zeros, or all zeros; single underscores between digits and after a prefix. Non-ASCII digits are refused, while Python would accept them. Tokens never hold whitespace, so Python's stripping of whitespace does not arise.
- PyInt.IntLiteral does not model CPython's limit on the length of integer strings (`sys.get_int_max_str_digits()`, 4300 by default). For a base that is not a power of two, here decimal, Python raises `ValueError` on a literal with more digits than that, leading zeros included. The model reads such a token by its value instead. A run of 4301 `0`s therefore parses to the byte 0 here, while Python reports "Could not parse request" and `main` returns 2. A 4301-digit decimal token gives `OutOfByteRange` here, while Python fails at `int` (`NotAnInteger`). The limit is interpreter configuration, not part of the source.
- Apart from a frame-read `TimeoutError` and the `ValueError` of a negative sleep, no exception is modelled: serial errors and a `KeyboardInterrupt` in `dual_phase_serial.py` are left out. Both modelled failures propagate out of `main` after the port is closed.
- Only `time.sleep`'s rejection of negative delays is modelled; NaN delays are left out.
