# aether-throughput probe core, in Dafny

A model of the UDP round-trip probe in `src/main.rs`. The probe sweeps
nine configurations: rates 4, 8 and 16 Hz crossed with payloads of 50, 100
and 200 bytes. Each configuration runs 100 round trips, and the probe counts
per configuration how many messages it sent and how many it missed.

The model is split into modules that follow the parts of the program:

- `LittleEndian` (`little_endian.dfy`): bytes, 64-bit `usize`, and the
  little-endian conversions `to_le_bytes` and `from_le_bytes`.
- `Wire` (`wire.dfy`): the datagram built in `send_msg`, as
  - the function `Message`,
  - the push loop `BuildMessage`;
  and the `send_recv` exchange:
  - `ReadPrefix` is the zeroed 8-byte receive buffer;
  - `Exchange` is the send/receive/compare block.
- `RaceLoop` (`race.dfy`): the `select!` loop as a method `Race` over a trace
  of events, where each event is "timer fired" or "exchange completed with
  Ok/Err". `SendMsg` composes building the message, handing it to the network
  and the race.
- `Probe` (`probe.dfy`):
  - `Run` and `Run::new`;
  - the reference sweep;
  - `Run::start` as the counted loop `Start`;
  - three synthetic peers: echoing, silent, and answering with the wrong
    sequence number.
- `Stats` (`stats.dfy`): `Stat`, and the table `HashMap<usize, Stat>` as the
  class `StatTable`, with a map field updated in place by `Record` (one loop
  body) and `Consume` (the `while let Some(Ok(msg))` loop).
- `Sweep` (`sweep.dfy`): the outer loop of `main` over the runs, in index
  order.

The network and the timer are a parameter: a `Network` maps the sequence
number and the bytes sent to the trace of events the select loop observes.
The timer always fires, so every trace a run uses must contain a timer event
(`HasTimer`, `Timely`).

The model follows what the code does, also where that differs from what a
loss probe is usually meant to do:

- The select arm `_ = &mut send_recv` discards the exchange's result.
  Any completion therefore sets `recv`: a reply carrying another sequence
  number (the `bail!` at src/main.rs:119-120) counts as received, and so
  does a `send_to` or `recv` error. See `MismatchCountsAsReceived`,
  `TransportErrorCountsAsReceived`, `OffByOnePeerAllReceived` and
  `OffByOneSweepNoMisses`. A mismatch is therefore not counted as a miss.
- `send_msg` never returns `Err`. `Race` ensures `r.Ok?`. A transport failure
  therefore never ends a run early. `Consume` still models the `Err` exit of
  `while let Some(Ok(msg))`: the run's stream stops at its first error, the
  other runs go on, and a run whose stream starts with an error never gets
  an entry in the table.
- A correct echo does not end the round trip; only the timer does
  (`Race`: `consumed == FirstTimer(events) + 1`).

## Model

| member | source | states |
|---|---|---|
| LittleEndian.FromLe | src/main.rs:118 | the value of a little-endian byte string is below 256^length |
| LittleEndian.FromLeBytes | src/main.rs:118 | `from_le_bytes` on the 8-byte buffer yields a 64-bit value whose encoding is that buffer |
| LittleEndian.LeBytes | src/main.rs:109 | `to_le_bytes` yields exactly eight bytes |
| LittleEndian.FromLeToLe | src/main.rs:109-118 | reading back k bytes written from n gives n whenever n fits in k bytes |
| LittleEndian.ToLeFromLe | src/main.rs:118 | writing back the value of any byte string gives the same bytes |
| LittleEndian.DecodeEncode | src/main.rs:109-118 | `from_le_bytes(to_le_bytes(n)) == n` for every 64-bit n |
| LittleEndian.EncodeDecode | src/main.rs:118 | `to_le_bytes(from_le_bytes(b)) == b` for every 8-byte array |
| LittleEndian.LeBytesInjective | src/main.rs:109 | different sequence numbers have different encodings |
| Wire.Padding | src/main.rs:110-111 | k padding bytes, all 0xff |
| Wire.Message | src/main.rs:108-112 | for byte_size >= 8 the message has length byte_size, starts with the LE bytes of num, and is 0xff from index 8 on |
| Wire.MessageRoundTrip | src/main.rs:109-118 | decoding the first 8 bytes of the message gives num back |
| Wire.MessagesDistinct | src/main.rs:109 | messages for different numbers differ in their first 8 bytes |
| Wire.BuildMessage | src/main.rs:108-112 | the push loop builds exactly `Message(num, byteSize)`: the length, prefix and padding are stated directly too |
| Wire.ReadPrefix | src/main.rs:116-118 | the receive buffer holds the reply's byte i for i < its length and 0 after, always 8 bytes |
| Wire.Exchange | src/main.rs:114-123 | Ok iff a reply arrived whose prefix decodes to num, and then the value is num; Mismatch iff the prefix decodes to another number; Transport on a send or receive error |
| Wire.EchoExchange | src/main.rs:114-123 | an echo of the full message makes the exchange return Ok(num) |
| Wire.ForeignReplyExchange | src/main.rs:118-121 | a reply starting with another number's encoding fails with Mismatch, whatever follows |
| Wire.EmptyReplyMatchesZero | src/main.rs:116-121 | an empty reply reads as zeros: it matches sequence number 0 and no other |
| RaceLoop.FirstTimer | src/main.rs:128-131 | the index of the first timer event: every earlier event is a completion |
| RaceLoop.HasTimerIff | src/main.rs:106 | a trace has a timer event iff some event in it is a timer event |
| RaceLoop.RecvAfterIff | src/main.rs:127-136 | after k events `recv` is true iff one of them was a completion, Ok or Err |
| RaceLoop.RecvAfterMonotone | src/main.rs:133-135 | once `recv` is true it stays true |
| RaceLoop.ReceivedIff | src/main.rs:127-137 | the returned flag is true iff a completion came before the first timer event |
| RaceLoop.Race | src/main.rs:126-137 | the loop returns exactly at the first timer event, always Ok, with recv true iff a completion came earlier |
| RaceLoop.SendMsg | src/main.rs:99-138 | `send_msg` returns Ok(flag), where flag is what the race reports for the trace the network gives to the encoded message |
| RaceLoop.MismatchCountsAsReceived | src/main.rs:119-135 | a completion failing with a mismatch still makes the round trip report received |
| RaceLoop.TransportErrorCountsAsReceived | src/main.rs:114-135 | a send or receive error is a completion and counts as received |
| RaceLoop.CompletionThenTimer | src/main.rs:129-135 | one completion of any result, then the timer, gives received |
| RaceLoop.LateReplyIsMissed | src/main.rs:129-131 | a completion after the timer does not count |
| Probe.NewRun | src/main.rs:79-88 | `Run::new` keeps rate and size; the timeout is positive with timeout * hertz == 1 |
| Probe.ReferenceTimeouts | src/main.rs:80 | timeouts of 0.25 s, 0.125 s and 0.0625 s for 4, 8 and 16 Hz |
| Probe.ReferenceRuns | src/main.rs:147-157 | nine runs, rate-major over {4, 8, 16} Hz x {50, 100, 200} bytes, each with byte_size >= 8 |
| Probe.Outcomes | src/main.rs:89-96 | one result per round trip, 100 in all |
| Probe.Start | src/main.rs:89-96 | exactly 100 items; item i is `send_msg` for sequence number i, so the numbers go 0..99 in order; no item is Err |
| Probe.EchoPeerAllReceived | src/main.rs:114-137 | against an echoing peer every exchange is Ok(i) and every round trip is received |
| Probe.SilentPeerAllMissed | src/main.rs:128-131 | against a silent peer every round trip is missed |
| Probe.OffByOnePeerAllReceived | src/main.rs:118-135 | against a peer that answers with i - 1 every exchange fails with Mismatch and yet every round trip is received |
| Stats.Lookup | src/main.rs:184 | `entry(idx).or_default()` reads the present entry, or a zero `Stat` for an absent id |
| Stats.Recorded | src/main.rs:184-188 | after one result the id is present, sent is one more, missed is one more iff not received, other entries are unchanged |
| Stats.RecordedConsistent | src/main.rs:184-188 | one update keeps missed <= sent for every id |
| Stats.Misses | src/main.rs:185-187 | the number of misses never exceeds the number of results |
| Stats.MissesNoneIff | src/main.rs:185-187 | no misses iff every result was received |
| Stats.MissesAllIff | src/main.rs:185-187 | misses equal results iff none was received |
| Stats.RecordAllEffect | src/main.rs:183-188 | recording a run adds its result count to sent and its misses to missed, creates the entry iff some result was recorded, and leaves other ids alone |
| Stats.RecordAllConsistent | src/main.rs:183-188 | missed <= sent survives any number of updates |
| Stats.Accepted | src/main.rs:183 | `while let Some(Ok(msg))` takes every result before the first Err and none after |
| Stats.AcceptedAllOk | src/main.rs:183 | a stream without errors is taken whole |
| Stats.AcceptedStopsAtError | src/main.rs:183 | nothing after the first Err is taken |
| Stats.StatTable.constructor | src/main.rs:178 | the table starts empty |
| Stats.StatTable.Record | src/main.rs:184-188 | the loop body updates the map field to `Recorded(old, idx, msg)` and keeps missed <= sent |
| Stats.StatTable.Consume | src/main.rs:183-192 | the stream loop applies `Record` to exactly the results before the first Err, in order, and keeps missed <= sent at every step |
| Sweep.FinalStat | src/main.rs:180-193 | a completed run has sent == 100 and missed <= sent |
| Sweep.SweepStep | src/main.rs:180-193 | consuming run n into a table holding runs 0..n-1 adds run n and leaves the others |
| Sweep.MidRunBounded | src/main.rs:180-192 | during run n, after any k <= 100 of its results, every entry of the table rendered has missed <= sent <= 100 |
| Sweep.RunSweep | src/main.rs:178-193 | after the sweep the ids are exactly 0..|runs|-1; id idx has sent == 100 and missed == the number of round trips of run idx that reported no reply; missed <= sent <= 100 for every id |
| Sweep.EchoSweepNoMisses | src/main.rs:114-193 | with an echoing peer a run ends at Stat(100, 0) |
| Sweep.SilentSweepAllMissed | src/main.rs:128-193 | with a silent peer a run ends at Stat(100, 100) |
| Sweep.OffByOneSweepNoMisses | src/main.rs:118-193 | with a peer that answers with the wrong number a run still ends at Stat(100, 0) |
| Sweep.ReferenceEchoSweep | src/main.rs:147-193 | the nine reference runs against an echoing peer are runnable and each ends at Stat(100, 0) |

## Left out

- Sockets: `UdpSocket::bind`, `send_to` and `recv` are network I/O. Their effect is the `Io` value of one exchange, and the order of completions and the timer is the `Network` parameter.
- Receive truncation follows Linux: the 8-byte buffer takes the first 8 bytes of a longer datagram. Platforms that report an error for an oversized datagram are not modelled.
- tokio `select!`, `time::sleep`, pinning and fusing are async concurrency and real time. The event trace replaces them. Fusing keeps the exchange from completing twice; a trace with several completions gives the same flag.
- Random branch choice: when both futures are ready at once, `select!` picks a branch at random. The trace fixes the order instead.
- Probe.NewRun: the timeout is the exact real 1/hertz. The `f32` division and `Duration::from_secs_f32` rounding are not modelled. The timer's duration is not used by the model, since timing lives in the trace. `requires hertz > 0.0` also leaves out the panic of `Duration::from_secs_f32` on a negative, infinite or NaN 1/hertz; every call site (src/main.rs:148-156) passes 4.0, 8.0 or 16.0, so no caller is excluded.
- Wire.Message: byte_size < 8 is a precondition. In the source, `byte_size - 8` panics in a debug build and wraps in a release build; neither is modelled.
- Counter overflow: `usize` counters cannot overflow, because every id's `sent` stays at most 100. The model uses `nat`.
- Terminal rendering: `RunComponent::draw_unchecked`, `SuperConsole::new` and `console.render` after each update, and the "Not a TTY" error, are terminal UI.
- Argument parsing with `argh` is a library wrapper.
- `Arc` sharing of the socket is an ownership concern only.
- `main`'s exit status is not modelled.
