# udpperf in Dafny

A model of the measuring core of `udpperf`, a UDP throughput and loss probe:

- **Bandwidth flag parser** (`bandwidth.dfy`, module `Bandwidth`). `parseBytes` is a pure function
  over strings. It rests on a specification of `strconv.ParseInt(s, 10, 64)`: an optional sign, a
  left-to-right digit scan with the uint64 overflow check of `ParseUint`, then the int64 range check.
  A reference definition (`IsDecimal`/`DecimalInt`) says what a signed decimal denotes.
- **Collector** (`collector.dfy`, module `Collector`). This is the `runServer` loop. `Step` is one
  pass of the gap detector and `Detect` folds it over the decoded packet numbers. `RunServer` is the
  loop itself: it reads each datagram into a 4096-byte array, decodes `b[:8]` and updates `highest`.
- **Emitter** (`emitter.dfy`, module `Emitter`). This is the `runClient` loop:
  - the `pn` counter and the `highestReported` baseline;
  - one reusable `packetSize`-byte buffer whose first eight bytes are overwritten in place.

  It is driven by an arbitrary sequence of `select` events (reporter tick, deadline, pacing tick with
  the outcome of the write). `Run` is its specification function and `RunClient` the loop.
- **Wire encoding** (`big_endian.dfy`, module `BigEndian`): `binary.BigEndian.PutUint64` and
  `Uint64`.
- **Integers** (`bounded_int.dfy`, module `BoundedInt`): Go's uint64 and int64 arithmetic, with
  wrap-around written out.
- **End to end** (`probe.dfy`, module `Probe`): the emitter's datagrams fed to the collector.

Go's uint64 arithmetic (`pn++`, `highest+1`, `pn-highest`, `pn-highestReported`) is modelled modulo
2^64. The int64 shift in `parseBytes` is modelled as two's-complement truncation.

Two behaviours of the code differ from what a reader of the tool would expect. In both, the model
follows the code:

- One would expect the deadline to win over a pacing or report tick that is ready at the same time.
  The code's `select` (main.go:160-168) picks among ready cases at random. The model therefore takes
  the events in any order. Its guarantee is the one the code gives: nothing is written once the
  deadline case has been taken.
- One would expect every datagram to carry its eight-byte packet number. In the code, `b[:8]` after
  `b = b[:n]` reslices within the buffer's capacity, so a datagram shorter than eight bytes is
  decoded from its own bytes followed by whatever earlier reads left in the buffer. The model keeps
  that behaviour.

## Model

| member | source | states |
|---|---|---|
| BoundedInt.WrapInt64 | main.go:30-34 | an int64 shift result agrees with the exact product modulo 2^64, and equals it when the product fits in int64 |
| BoundedInt.ShiftLeft64 | main.go:30-34 | Go's `num << k` on int64: the product with 2^k truncated to 64 bits (its properties are those of `WrapInt64`) |
| BigEndian.PutUint64 | main.go:170 | `binary.BigEndian.PutUint64`: the eight bytes of v, most significant first |
| BigEndian.Uint64 | main.go:118 | `binary.BigEndian.Uint64`: the first eight bytes read most significant first, a value below 2^64 |
| BigEndian.DecodeEncode | main.go:118 | decoding the k-byte big-endian encoding of n gives n modulo 256^k |
| BigEndian.EncodeDecode | main.go:118 | re-encoding a decoded byte string gives the same bytes |
| BigEndian.Uint64PutUint64 | main.go:118 | `Uint64` of `PutUint64(v)` is v, for every uint64 v |
| BigEndian.PutUint64Uint64 | main.go:118 | `PutUint64` of the decoded value reproduces the first eight bytes |
| BigEndian.PutUint64At | main.go:170 | byte i of `PutUint64(v)` is `v >> (56 - 8*i)` truncated to a byte |
| BigEndian.PutUint64Into | main.go:170 | writing into `b[:8]` in place sets the first eight bytes to the encoding and leaves bytes 8 and up untouched |
| Bandwidth.ScanUint | main.go:22-24 | the digit loop of `strconv.ParseUint`: the first non-digit is a syntax error, the first digit that passes 2^64 - 1 a range error |
| Bandwidth.ParseUint64 | main.go:22-24 | `strconv.ParseUint(s, 10, 64)`: the empty string is a syntax error, otherwise the digit loop |
| Bandwidth.ParseInt64 | main.go:22-24 | `strconv.ParseInt(s, 10, 64)`: optional sign, the unsigned parse of the rest, then the int64 range check on the magnitude |
| Bandwidth.ScanDigits | main.go:22 | on an all-digit string the ParseUint scan gives the decimal value when it fits in uint64, else a range error |
| Bandwidth.ScanNonDigit | main.go:22 | a string with a non-digit never scans to a value |
| Bandwidth.ParseInt64Spec | main.go:22 | `ParseInt` succeeds exactly on signed decimals whose value fits in int64 and returns that value; a well-formed out-of-range string is a range error |
| Bandwidth.ParseBytes | main.go:19-38 | `parseBytes` as written: the whole string parsed when the last character is not a unit, else the prefix parsed, its error returned, or its value shifted by 10, 20 or 30 bits |
| Bandwidth.ParseBytesPlain | main.go:20-22 | without a unit, `parseBytes` succeeds iff the whole string is an in-range signed decimal, and returns its value |
| Bandwidth.ParseBytesWithUnit | main.go:24-34 | with a unit, it succeeds iff the prefix is an in-range signed decimal; the value matches prefix times 2^10/2^20/2^30 modulo 2^64 and equals it when the product fits; on failure it is the prefix's parse error |
| Bandwidth.ParseBytesExamples | main.go:19-38 | "1k" is 1024, "2m" is 2097152, "3g" is 3221225472 and "500" is 500 |
| Bandwidth.ParseBytesRejects | main.go:24-27 | "1.5m", "k" and "-" are syntax errors and give no value |
| Bandwidth.ParseBytesWraps | main.go:33-34 | as written, "17179869185g" gives 1073741824, the same value as "1g" |
| Bandwidth.ParseBytesChecked | main.go:28-34 | the corrected parser: as `parseBytes`, but a product with the unit outside int64 is a range error |
| Bandwidth.ParseBytesCheckedSpec | main.go:28-34 | the corrected parser succeeds iff the prefix is a signed decimal whose product with the unit fits in int64, and returns that product |
| Bandwidth.ParseBytesCheckedRejectsWrap | main.go:33-34 | the corrected parser rejects "17179869185g" with a range error |
| Bandwidth.ParseBytesCheckedExample | main.go:33-34 | the corrected parser reads "3g" as 3221225472 |
| Collector.Step | main.go:119-131 | stale or repeated pn: mark and output unchanged; otherwise the mark becomes pn and the report is none for highest+1, a single packet for highest+2, or the range highest+1..pn-1; a report names exactly the numbers strictly between mark and pn |
| Collector.StepBranches | main.go:119-131 | the branch table in plain integers: stale pn keeps the mark with no report; pn = highest+1 gives no report, pn = highest+2 the single packet highest+1, a larger pn the range highest+1..pn-1, and the mark becomes pn; the uint64 `highest+1` and `pn-highest` never wrap |
| Collector.Detect | main.go:110-132 | the mark and the reports after the packet numbers in order, from a starting mark, one `Step` each, keeping only the reports that print something |
| Collector.GapExamples | main.go:119-131 | concrete instances of the in-order, single-loss, range-loss and stale branches |
| Collector.HighestIsMax | main.go:110-131 | the mark after a sequence is at least its start and every packet number, and is the start or one of them |
| Collector.HighestAfterEach | main.go:131 | after each packet the mark is the larger of the previous mark and that packet's number |
| Collector.HighestNeverDecreases | main.go:110-131 | the mark over a prefix is no higher than over any longer prefix |
| Collector.StaleIsNoOp | main.go:119-122 | appending any number of packet numbers no higher than the mark changes neither the mark nor the reports |
| Collector.ReportsAreGaps | main.go:123-131 | a number is reported lost iff it lies above the start and at most the final mark and never raised the mark; numbers that raised the mark lie in that interval |
| Collector.ReportsAscend | main.go:123-131 | every reported number lies strictly between the start and the final mark, and reports come in increasing, non-overlapping order |
| Collector.LossScenario | main.go:110-132 | the numbers 1, 2, 3, 6, 7 give exactly one report, the range 4 to 5, and the mark ends at 7 |
| Collector.InOrderNoLoss | main.go:110-132 | the numbers 1 to n in order give no report and end with the mark at n |
| Collector.HeaderAfter | main.go:112-118 | the eight bytes `b[:8]` after one read: the datagram's first eight, or its bytes followed by the previous header bytes past its end |
| Collector.LastHeader | main.go:109-118 | the eight header bytes after each read in turn, starting from the zeroed buffer |
| Collector.PacketNumbers | main.go:117-118 | the packet number decoded after each read, one per datagram |
| Collector.AfterRead | main.go:113 | the whole buffer after one read: the datagram truncated to the buffer at the front, the rest unchanged |
| Collector.Buffer | main.go:108-117 | the whole 4096-byte buffer after each read in turn, starting zeroed |
| Collector.HeaderOfRead | main.go:112-118 | the first eight bytes of the buffer after a read are `HeaderAfter` of the eight before |
| Collector.BufferHeader | main.go:108-118 | the header the loop decodes is the front of the whole buffer after all reads so far |
| Collector.PacketNumbersOfFullDatagrams | main.go:117-118 | each datagram of eight bytes or more is decoded from its own first eight bytes |
| Collector.ReadFrom | main.go:113 | the datagram, truncated to the buffer, is copied to the front of the buffer and the rest is kept |
| Collector.ReadPacketNumber | main.go:112-118 | after a read the whole buffer is `AfterRead` of the buffer before; its first eight bytes are the datagram's, padded with the previous bytes when it is short, and pn is their big-endian value |
| Collector.RunServer | main.go:108-132 | the loop keeps the whole buffer equal to `Buffer` of the reads so far and ends with the mark and reports that `Detect` gives over the decoded packet numbers |
| Emitter.PacketsPerSecond | main.go:137 | pps is bandwidth over packet size, rounded toward zero: floor for non-negative bandwidth, ceiling for negative |
| Emitter.ValidRate | main.go:137-154 | the configurations the loop can start with: at least eight bytes per packet, at least one packet per second, and a positive ticker interval |
| Emitter.Datagram | main.go:153-170 | the datagram for packet number n: the eight big-endian bytes of n followed by the zero bytes `make` left |
| Emitter.DatagramDecodes | main.go:153-171 | each datagram is packetSize bytes, decodes to its packet number, and is zero past byte 8 |
| Emitter.Handle | main.go:159-174 | one pass of the loop: a report prints pn - highestReported and moves the baseline; the deadline returns; a pacing tick increments pn modulo 2^64, writes it, and returns if the write fails |
| Emitter.Run | main.go:157-174 | the loop state after the events in order, from zero counters, ignoring the events after it returns |
| Emitter.StoppedStaysStopped | main.go:165-173 | once the loop has returned, later events change nothing |
| Emitter.AfterDeadlineNothingSent | main.go:165-166 | after the deadline event nothing more is written, and a still-running loop stops with `Deadline` |
| Emitter.ReportStep | main.go:161-164 | a report prints pn - highestReported and moves the baseline to pn, leaving pn and the sent packets unchanged |
| Emitter.PnCountsSent | main.go:169-171 | pn is the number of packets written, modulo 2^64 |
| Emitter.SentAreConsecutive | main.go:169-171 | the i-th packet written carries the number i + 1 modulo 2^64 |
| Emitter.SentIsOneToPn | main.go:157-174 | short of 2^64 packets, the packets written are exactly 1, 2, ..., pn |
| Emitter.BaselineIsReportTotal | main.go:161-164 | the baseline is the total printed so far, modulo 2^64 |
| Emitter.BaselineStep | main.go:161-164 | one loop pass keeps the baseline equal to the printed total modulo 2^64 |
| Emitter.CountStep | main.go:161-171 | one loop pass keeps the printed total equal to the baseline, at most pn, and pn equal to the packets written |
| Emitter.CountedRun | main.go:157-174 | short of 2^64 packets, the printed total equals the baseline, which is at most pn, the packets written |
| Emitter.ReportsCountSent | main.go:157-174 | short of 2^64 packets, the printed reports plus the pending pn - highestReported add up to pn, the packets written |
| Emitter.RunClient | main.go:153-174 | the loop ends in the state `Run` gives, and its i-th write is the full buffer holding the i-th packet number |
| Probe.NumberedDatagrams | main.go:118-170 | datagrams carrying 1 to j decode, on the collector's side, to exactly 1 to j |
| Probe.DeliveredPrefixReportsNothing | main.go:118-170 | the first j datagrams of a run received in order give no report and a mark of j |
| Probe.InOrderDeliveryReportsNothing | main.go:118-170 | all datagrams of a run received in order give no report and a mark equal to the emitter's pn |

## Left out

- `humanizeBytes`, `humanizeBits`, `humanateBytes` (main.go:70-93): floating-point logarithms and `Sprintf` formatting, never called.
- `main` (main.go:40-68): flag parsing and the choice of role are wiring between the parts modelled here.
- Sockets: `ResolveUDPAddr`, `ListenUDP`, `DialUDP` and their errors are left out. A receive is a datagram taken from the input sequence, and a failing `ReadFrom` is the end of that sequence. A failed `conn.Write` is the `sendFails` flag of a pacing event, which stops the loop. The error values themselves are not modelled.
- Timers: the ticker and timer intervals and real-time pacing are not modelled; the events they deliver are an input in any order.
- Console output: the `Printf` lines are modelled as `Report` values (collector) and printed counts (emitter), not as strings.
- `strconv.ParseInt` internals beyond base 10, bit size 64: the model has no other bases and no underscores. The `*NumError` wrapping is not modelled; only the kind of error is.
- Bandwidth.ParseBytes: requires a non-empty string; Go's `s[len(s)-1]` (main.go:20) panics on the empty string, and the panic is not modelled.
- Bandwidth.ParseBytes: on a range error without a unit, Go also returns `ParseInt`'s clamped value with the error; the model returns only the error, which is all `main` uses.
- Emitter.RunClient: requires packetSize >= 8 from the start, although Go panics on a shorter buffer only at the first pacing tick; runs with a short buffer and no pacing tick are not covered.
- Emitter.RunClient: requires pps >= 1 and time.Second / pps > 0, the conditions for `time.NewTicker` not to panic (pps = 0 divides by zero, a non-positive interval panics). The panics themselves are not modelled.
- The unreachable `default: panic` of the unit switch (main.go:35-36) is absent because the unit is one of three characters there.

## Findings

| source | as written | input that shows it | evidently intended | confidence | as-written member | corrected member |
|---|---|---|---|---|---|---|
| main.go:30-34 | `num * 1 << k` shifts an int64 and silently drops the high bits | "17179869185g" (2^34 + 1 gibibytes) parses to 1073741824, the same as "1g" | a bandwidth whose product with the unit does not fit in int64 is rejected with a range error | not executed; the wrap follows from Go's shift semantics | Bandwidth.ParseBytesWraps | Bandwidth.ParseBytesCheckedSpec |
