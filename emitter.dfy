/**
 * The send side (`runClient`): a packet counter, a report baseline and one reusable datagram buffer,
 * driven by the pacing ticker, the one-second reporter and the deadline timer. The timers are not
 * modelled: the events they deliver, in whatever order `select` takes them, are the input.
 */
module Emitter {
  import opened BoundedInt
  import opened BigEndian

  /** A `select` case taken: the reporter, the deadline timer, or the pacing ticker (with whether the
    * `conn.Write` that follows it fails). */
  datatype Event = ReportTick | DeadlineTick | PaceTick(sendFails: bool)

  /** Why the loop stopped, if it did: `return nil` at the deadline or `return err` after a failed write. */
  datatype Stop = Running | Deadline | SendFailed

  /** `time.Second`, in nanoseconds. */
  const SECOND: int := 1_000_000_000

  /** Go's `/` on integers, which truncates toward zero. */
  function Quot(a: int, b: int): int
    requires b != 0
  {
    if a >= 0 then (if b > 0 then a / b else -(a / -b))
    else (if b > 0 then -((-a) / b) else (-a) / (-b))
  }

  /** `pps := bandwidth / int64(packetSize)`: whole packets per second, rounded toward zero. */
  function PacketsPerSecond(bandwidth: int64, packetSize: int): (pps: int)
    requires packetSize > 0
    ensures bandwidth >= 0 ==> pps * packetSize <= bandwidth < (pps + 1) * packetSize
    ensures bandwidth < 0 ==> (pps - 1) * packetSize < bandwidth <= pps * packetSize
  {
    Quot(bandwidth, packetSize)
  }

  /**
   * A configuration `runClient` can start with: `make([]byte, packetSize)` and `b[:8]` need at least
   * eight bytes, and `time.NewTicker(time.Second / time.Duration(pps))` needs a positive interval.
   */
  predicate ValidRate(bandwidth: int64, packetSize: int)
  {
    8 <= packetSize < TWO_63 &&
    PacketsPerSecond(bandwidth, packetSize) >= 1 &&
    SECOND / PacketsPerSecond(bandwidth, packetSize) > 0
  }

  /** The datagram sent for packet number `n`: `n` big-endian, then the zero bytes `make` left. */
  function Datagram(n: uint64, packetSize: nat): seq<byte>
    requires packetSize >= 8
  {
    PutUint64(n) + Zeros(packetSize - 8)
  }

  /** A datagram is `packetSize` bytes long and the collector decodes its packet number from it. */
  lemma DatagramDecodes(n: uint64, packetSize: nat)
    requires packetSize >= 8
    ensures |Datagram(n, packetSize)| == packetSize
    ensures Uint64(Datagram(n, packetSize)) == n
    ensures forall i :: 8 <= i < packetSize ==> Datagram(n, packetSize)[i] == 0
  {
    Uint64PutUint64(n);
    assert Datagram(n, packetSize)[..8] == PutUint64(n);
    assert PutUint64(n)[..8] == PutUint64(n);
  }

  // ---------------------------------------------------------------------------
  // The loop as a function of the events.

  /** The loop's variables, what it has printed, the packet numbers it has written, and whether it stopped. */
  datatype EmitterState = EmitterState(
    pn: uint64,
    highestReported: uint64,
    printed: seq<uint64>,
    sent: seq<uint64>,
    stop: Stop)

  const START: EmitterState := EmitterState(0, 0, [], [], Running)

  /** One pass of the loop body on event `e`. */
  function Handle(s: EmitterState, e: Event): EmitterState
  {
    match e
    case ReportTick =>
      s.(printed := s.printed + [Sub64(s.pn, s.highestReported)], highestReported := s.pn)
    case DeadlineTick =>
      s.(stop := Deadline)
    case PaceTick(fails) =>
      var pn := Add64(s.pn, 1);
      s.(pn := pn, sent := s.sent + [pn], stop := if fails then SendFailed else Running)
  }

  /** The state after the loop has taken the events in order; a stopped loop takes no more. */
  function Run(events: seq<Event>): EmitterState
  {
    if events == [] then START
    else
      var s := Run(events[..|events| - 1]);
      if s.stop == Running then Handle(s, events[|events| - 1]) else s
  }

  lemma RunSnoc(events: seq<Event>, e: Event)
    ensures Run(events + [e]) == if Run(events).stop == Running then Handle(Run(events), e) else Run(events)
  {
    assert (events + [e])[..|events|] == events;
  }

  /** Once the loop has returned, later events change nothing. */
  lemma {:induction false} StoppedStaysStopped(a: seq<Event>, b: seq<Event>)
    requires Run(a).stop != Running
    ensures Run(a + b) == Run(a)
  {
    if b == [] {
      assert a + b == a;
    } else {
      var n := |b| - 1;
      StoppedStaysStopped(a, b[..n]);
      assert a + b == (a + b[..n]) + [b[n]];
      RunSnoc(a + b[..n], b[n]);
    }
  }

  /** Nothing is written after the deadline fires, whatever events follow it. */
  lemma AfterDeadlineNothingSent(a: seq<Event>, b: seq<Event>)
    ensures Run(a + [DeadlineTick] + b).sent == Run(a).sent
    ensures Run(a).stop == Running ==> Run(a + [DeadlineTick] + b).stop == Deadline
  {
    RunSnoc(a, DeadlineTick);
    StoppedStaysStopped(a + [DeadlineTick], b);
  }

  /** A report prints the packets sent since the last one and moves the baseline; it sends nothing. */
  lemma ReportStep(events: seq<Event>)
    requires Run(events).stop == Running
    ensures var s, t := Run(events), Run(events + [ReportTick]);
      && t.printed == s.printed + [Sub64(s.pn, s.highestReported)]
      && t.highestReported == s.pn
      && t.pn == s.pn && t.sent == s.sent && t.stop == Running
  {
    RunSnoc(events, ReportTick);
  }

  lemma AddOneMod(n: nat)
    ensures Add64(n % TWO_64, 1) == (n + 1) % TWO_64
  {
  }

  /** `pn` counts the packets written, modulo 2^64. */
  lemma {:induction false} PnCountsSent(events: seq<Event>)
    ensures Run(events).pn == |Run(events).sent| % TWO_64
  {
    if events != [] {
      var n := |events| - 1;
      PnCountsSent(events[..n]);
      assert events == events[..n] + [events[n]];
      RunSnoc(events[..n], events[n]);
      var s := Run(events[..n]);
      if s.stop == Running && events[n].PaceTick? {
        AddOneMod(|s.sent|);
      }
    }
  }

  /** The i-th packet written carries the number i + 1 (modulo 2^64). */
  lemma {:induction false} SentAreConsecutive(events: seq<Event>)
    ensures forall i :: 0 <= i < |Run(events).sent| ==> Run(events).sent[i] == (i + 1) % TWO_64
  {
    if events != [] {
      var n := |events| - 1;
      SentAreConsecutive(events[..n]);
      PnCountsSent(events[..n]);
      assert events == events[..n] + [events[n]];
      RunSnoc(events[..n], events[n]);
      var s := Run(events[..n]);
      if s.stop == Running && events[n].PaceTick? {
        AddOneMod(|s.sent|);
        var t := Run(events);
        assert t.sent == s.sent + [Add64(s.pn, 1)];
        assert forall i :: 0 <= i < |s.sent| ==> t.sent[i] == s.sent[i];
      }
    }
  }

  /** Short of 2^64 packets, the packets written are exactly 1, 2, ..., pn. */
  lemma SentIsOneToPn(events: seq<Event>)
    requires |Run(events).sent| < TWO_64
    ensures var s := Run(events); s.pn == |s.sent| && s.sent == seq(s.pn, i requires 0 <= i < s.pn => i + 1)
  {
    PnCountsSent(events);
    SentAreConsecutive(events);
  }

  function Sum(xs: seq<uint64>): int
  {
    if xs == [] then 0 else Sum(xs[..|xs| - 1]) + xs[|xs| - 1]
  }

  lemma SumSnoc(xs: seq<uint64>, x: uint64)
    ensures Sum(xs + [x]) == Sum(xs) + x
  {
    assert (xs + [x])[..|xs|] == xs;
  }

  lemma AddSubMod(total: int, pn: uint64, hr: uint64)
    requires total % TWO_64 == hr
    ensures (total + Sub64(pn, hr)) % TWO_64 == pn
  {
    var q := total / TWO_64;
    var c := if pn >= hr then 0 else 1;
    assert Sub64(pn, hr) == pn - hr + c * TWO_64;
    assert total + Sub64(pn, hr) == TWO_64 * (q + c) + pn;
    DivModUnique(total + Sub64(pn, hr), TWO_64, q + c, pn);
  }

  /** The baseline is the total of all printed reports, modulo 2^64. */
  lemma {:induction false} BaselineIsReportTotal(events: seq<Event>)
    ensures Run(events).highestReported == Sum(Run(events).printed) % TWO_64
  {
    if events != [] {
      var n := |events| - 1;
      BaselineIsReportTotal(events[..n]);
      assert events == events[..n] + [events[n]];
      RunSnoc(events[..n], events[n]);
      var s := Run(events[..n]);
      if s.stop == Running {
        BaselineStep(s, events[n]);
      }
    }
  }

  lemma BaselineStep(s: EmitterState, e: Event)
    requires s.highestReported == Sum(s.printed) % TWO_64
    ensures Handle(s, e).highestReported == Sum(Handle(s, e).printed) % TWO_64
  {
    if e == ReportTick {
      SumSnoc(s.printed, Sub64(s.pn, s.highestReported));
      AddSubMod(Sum(s.printed), s.pn, s.highestReported);
    }
  }

  /** The reports printed so far add up to the baseline, which is at most `pn` = the packets written. */
  predicate Counted(s: EmitterState)
  {
    Sum(s.printed) == s.highestReported <= s.pn == |s.sent|
  }

  /** One event keeps the state `Counted` while fewer than 2^64 packets have been written. */
  lemma CountStep(s: EmitterState, e: Event)
    requires Counted(s)
    requires |Handle(s, e).sent| < TWO_64
    ensures Counted(Handle(s, e))
  {
    if e == ReportTick {
      SumSnoc(s.printed, Sub64(s.pn, s.highestReported));
    }
  }

  lemma {:induction false} CountedRun(events: seq<Event>)
    requires |Run(events).sent| < TWO_64
    ensures Counted(Run(events))
  {
    if events != [] {
      var n := |events| - 1;
      assert events == events[..n] + [events[n]];
      RunSnoc(events[..n], events[n]);
      var s := Run(events[..n]);
      assert |s.sent| <= |Run(events).sent|;
      CountedRun(events[..n]);
      if s.stop == Running {
        CountStep(s, events[n]);
      }
    }
  }

  /**
   * Short of 2^64 packets, every packet written is counted once: the printed reports add up to the
   * baseline, and the packets since then are pn - highestReported, so together they are `pn`.
   */
  lemma ReportsCountSent(events: seq<Event>)
    requires |Run(events).sent| < TWO_64
    ensures var s := Run(events);
      && Sum(s.printed) == s.highestReported <= s.pn
      && Sum(s.printed) + Sub64(s.pn, s.highestReported) == s.pn == |s.sent|
  {
    CountedRun(events);
  }

  // ---------------------------------------------------------------------------
  // The loop itself.

  /**
   * The `runClient` loop over the events it receives: it ends in the state `Run` gives, and the
   * datagrams it writes are the packet numbers of `Run(events).sent`, each in the full buffer.
   */
  method RunClient(bandwidth: int64, packetSize: int, events: seq<Event>)
    returns (pn: uint64, highestReported: uint64, printed: seq<uint64>, written: seq<seq<byte>>, stop: Stop)
    requires ValidRate(bandwidth, packetSize)
    ensures pn == Run(events).pn && highestReported == Run(events).highestReported
    ensures printed == Run(events).printed && stop == Run(events).stop
    ensures |written| == |Run(events).sent|
    ensures forall i :: 0 <= i < |written| ==> written[i] == Datagram(Run(events).sent[i], packetSize)
  {
    var b := new byte[packetSize](_ => 0);
    pn, highestReported, printed, written, stop := 0, 0, [], [], Running;
    ghost var sent: seq<uint64> := [];
    assert b[..] == Datagram(0, packetSize) by {
      assert PutUint64(0) == Zeros(8);
    }
    var i := 0;
    while i < |events| && stop == Running
      invariant 0 <= i <= |events|
      invariant b.Length == packetSize
      invariant b[..] == Datagram(pn, packetSize)
      invariant Run(events[..i]) == EmitterState(pn, highestReported, printed, sent, stop)
      invariant |written| == |sent|
      invariant forall j :: 0 <= j < |written| ==> written[j] == Datagram(sent[j], packetSize)
    {
      RunSnoc(events[..i], events[i]);
      assert events[..i + 1] == events[..i] + [events[i]];
      match events[i] {
        case ReportTick =>
          printed := printed + [Sub64(pn, highestReported)];
          highestReported := pn;
        case DeadlineTick =>
          stop := Deadline;
        case PaceTick(fails) =>
          pn := Add64(pn, 1);
          PutUint64Into(b, pn);
          written := written + [b[..]];
          sent := sent + [pn];
          if fails {
            stop := SendFailed;
          }
      }
      i := i + 1;
    }
    if stop != Running {
      StoppedStaysStopped(events[..i], events[i..]);
      assert events[..i] + events[i..] == events;
    } else {
      assert events[..i] == events;
    }
  }
}
