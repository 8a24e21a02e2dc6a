/** The two roles together: what the collector makes of an emitter's datagrams. */
module Probe {
  import opened BoundedInt
  import opened BigEndian
  import Emitter
  import Collector

  /**
   * The datagrams one emitter run writes, received complete and in order: the collector reports no
   * loss and its mark ends at the emitter's last packet number.
   */
  lemma InOrderDeliveryReportsNothing(events: seq<Emitter.Event>, packetSize: nat)
    requires packetSize >= 8
    requires |Emitter.Run(events).sent| < TWO_64
    ensures var sent := Emitter.Run(events).sent;
      var ds := seq(|sent|, i requires 0 <= i < |sent| => Emitter.Datagram(sent[i], packetSize));
      Collector.Detect(0, Collector.PacketNumbers(ds)) == (Emitter.Run(events).pn, [])
  {
    Emitter.SentIsOneToPn(events);
    DeliveredPrefixReportsNothing(events, packetSize, |Emitter.Run(events).sent|);
  }

  /**
   * The first `j` datagrams of a run, received in order: no report, and the mark is `j`. Losing the
   * datagrams after them is therefore never reported, since no later packet number arrives.
   */
  lemma DeliveredPrefixReportsNothing(events: seq<Emitter.Event>, packetSize: nat, j: nat)
    requires packetSize >= 8
    requires |Emitter.Run(events).sent| < TWO_64
    requires j <= |Emitter.Run(events).sent|
    ensures var sent := Emitter.Run(events).sent;
      var ds := seq(j, i requires 0 <= i < j => Emitter.Datagram(sent[i], packetSize));
      Collector.Detect(0, Collector.PacketNumbers(ds)) == (j, [])
  {
    var s := Emitter.Run(events);
    Emitter.SentIsOneToPn(events);
    NumberedDatagrams(s.sent, packetSize, j);
    Collector.InOrderNoLoss(j);
  }

  /** Datagrams carrying the numbers 1 to `j` decode to exactly those numbers. */
  lemma NumberedDatagrams(sent: seq<uint64>, packetSize: nat, j: nat)
    requires packetSize >= 8
    requires j <= |sent|
    requires forall i :: 0 <= i < |sent| ==> sent[i] == i + 1
    ensures var ds := seq(j, i requires 0 <= i < j => Emitter.Datagram(sent[i], packetSize));
      Collector.PacketNumbers(ds) == seq(j, i requires 0 <= i < j => i + 1)
  {
    var ds := seq(j, i requires 0 <= i < j => Emitter.Datagram(sent[i], packetSize));
    forall i | 0 <= i < j
      ensures |ds[i]| >= 8 && Uint64(ds[i]) == i + 1
    {
      Emitter.DatagramDecodes(sent[i], packetSize);
    }
    DecodedNumbers(ds);
  }

  /** Datagrams of eight bytes or more whose numbers are 1 to |ds| decode to exactly 1 to |ds|. */
  lemma DecodedNumbers(ds: seq<seq<byte>>)
    requires forall i :: 0 <= i < |ds| ==> |ds[i]| >= 8 && Uint64(ds[i]) == i + 1
    ensures Collector.PacketNumbers(ds) == seq(|ds|, i requires 0 <= i < |ds| => i + 1)
  {
    Collector.PacketNumbersOfFullDatagrams(ds);
  }
}
