/**
 * The receive side (`runServer`): a single high-water mark over the packet numbers read from the
 * datagrams, and a report of every gap it jumps over.
 */
module Collector {
  import opened BoundedInt
  import opened BigEndian

  /** What one datagram makes the collector print. */
  datatype Report =
    | NoLoss                                 // nothing is printed
    | LostPacket(n: uint64)                  // "Lost packet n"
    | LostRange(lo: uint64, hi: uint64)      // "Lost packets between lo and hi"

  /** The report names `k` as lost. */
  predicate Names(r: Report, k: int)
  {
    match r
    case NoLoss => false
    case LostPacket(n) => k == n
    case LostRange(lo, hi) => lo <= k <= hi
  }

  function Max(a: uint64, b: uint64): uint64 { if a < b then b else a }

  /**
   * One datagram with packet number `pn` against the high-water mark `highest`: the new mark is the
   * larger of the two, the report names exactly the numbers strictly between them, and the range form
   * is used only for two or more numbers.
   */
  function Step(highest: uint64, pn: uint64): (res: (uint64, Report))
    ensures res.0 == Max(highest, pn)
    ensures forall k :: Names(res.1, k) <==> highest < k < pn
    ensures res.1.LostRange? ==> res.1.lo < res.1.hi
  {
    if pn <= highest then (highest, NoLoss)
    else if pn != Add64(highest, 1) then
      if Sub64(pn, highest) > 2 then (pn, LostRange(Add64(highest, 1), Sub64(pn, 1)))
      else (pn, LostPacket(Add64(highest, 1)))
    else (pn, NoLoss)
  }

  /**
   * The branches of one step in plain integers: the uint64 `highest+1` and `pn-highest` never wrap,
   * since they are evaluated only when `pn > highest`.
   */
  lemma StepBranches(highest: uint64, pn: uint64)
    ensures pn <= highest ==> Step(highest, pn) == (highest, NoLoss)
    ensures pn == highest + 1 ==> Step(highest, pn) == (pn, NoLoss)
    ensures pn == highest + 2 ==> Step(highest, pn) == (pn, LostPacket(highest + 1))
    ensures pn > highest + 2 ==> Step(highest, pn) == (pn, LostRange(highest + 1, pn - 1))
  {
  }

  /** The mark and the printed reports after the packet numbers `pns`, starting from the mark `h0`. */
  function Detect(h0: uint64, pns: seq<uint64>): (uint64, seq<Report>)
  {
    if pns == [] then (h0, [])
    else
      var (h, rs) := Detect(h0, pns[..|pns| - 1]);
      var (h', r) := Step(h, pns[|pns| - 1]);
      (h', if r == NoLoss then rs else rs + [r])
  }

  /** Some report in `rs` names `k` as lost. */
  predicate ReportedLost(rs: seq<Report>, k: int)
  {
    exists i :: 0 <= i < |rs| && Names(rs[i], k)
  }

  /** `k` is one of the packet numbers in `pns` that raised the mark when it arrived. */
  predicate Accepted(h0: uint64, pns: seq<uint64>, k: int)
  {
    pns != [] &&
    (Accepted(h0, pns[..|pns| - 1], k) ||
     (k == pns[|pns| - 1] && pns[|pns| - 1] > Detect(h0, pns[..|pns| - 1]).0))
  }

  lemma GapExamples()
    ensures Step(5, 6) == (6, NoLoss)
    ensures Step(5, 7) == (7, LostPacket(6))
    ensures Step(5, 10) == (10, LostRange(6, 9))
    ensures Step(5, 5) == (5, NoLoss) && Step(5, 2) == (5, NoLoss)
  {
  }

  /** The mark is never below where it started nor below any packet number, and it is one of them. */
  lemma {:induction false} HighestIsMax(h0: uint64, pns: seq<uint64>)
    ensures Detect(h0, pns).0 >= h0
    ensures forall i :: 0 <= i < |pns| ==> pns[i] <= Detect(h0, pns).0
    ensures Detect(h0, pns).0 == h0 || exists i :: 0 <= i < |pns| && Detect(h0, pns).0 == pns[i]
  {
    if pns != [] {
      var n := |pns| - 1;
      HighestIsMax(h0, pns[..n]);
      assert forall i :: 0 <= i < n ==> pns[..n][i] == pns[i];
      var h := Detect(h0, pns[..n]).0;
      if h != h0 && pns[n] <= h {
        var i :| 0 <= i < n && h == pns[..n][i];
        assert h == pns[i];
      }
    }
  }

  /** After each packet the mark is the larger of the mark before and that packet's number. */
  lemma HighestAfterEach(h0: uint64, pns: seq<uint64>, i: nat)
    requires i < |pns|
    ensures Detect(h0, pns[..i + 1]).0 == Max(Detect(h0, pns[..i]).0, pns[i])
  {
    assert pns[..i + 1] == pns[..i] + [pns[i]];
    DetectSnoc(h0, pns[..i], pns[i]);
  }

  /** The mark never decreases: over a longer prefix it is at least as high. */
  lemma {:induction false} HighestNeverDecreases(h0: uint64, pns: seq<uint64>, i: nat, j: nat)
    requires i <= j <= |pns|
    ensures Detect(h0, pns[..i]).0 <= Detect(h0, pns[..j]).0
  {
    if i < j {
      HighestNeverDecreases(h0, pns, i, j - 1);
      HighestAfterEach(h0, pns, j - 1);
    }
  }

  /** Packet numbers no higher than the mark, however many and however repeated, change nothing. */
  lemma {:induction false} StaleIsNoOp(h0: uint64, pns: seq<uint64>, stale: seq<uint64>)
    requires forall i :: 0 <= i < |stale| ==> stale[i] <= Detect(h0, pns).0
    ensures Detect(h0, pns + stale) == Detect(h0, pns)
  {
    if stale != [] {
      var n := |stale| - 1;
      assert forall i :: 0 <= i < n ==> stale[..n][i] == stale[i];
      StaleIsNoOp(h0, pns, stale[..n]);
      assert Step(Detect(h0, pns).0, stale[n]) == (Detect(h0, pns).0, NoLoss);
      assert pns + stale == (pns + stale[..n]) + [stale[n]];
      DetectSnoc(h0, pns + stale[..n], stale[n]);
    } else {
      assert pns + stale == pns;
    }
  }

  /** One more report adds what it names to what is reported. */
  lemma ReportedLostSnoc(rs: seq<Report>, r: Report, k: int)
    ensures ReportedLost(rs + [r], k) <==> ReportedLost(rs, k) || Names(r, k)
  {
    var rs' := rs + [r];
    if ReportedLost(rs', k) {
      var i :| 0 <= i < |rs'| && Names(rs'[i], k);
      if i < |rs| { assert Names(rs[i], k); }
    }
    if Names(r, k) { assert Names(rs'[|rs|], k); }
    if ReportedLost(rs, k) {
      var i :| 0 <= i < |rs| && Names(rs[i], k);
      assert Names(rs'[i], k);
    }
  }

  /**
   * The reports name exactly the numbers above the starting mark, up to the final mark, that never
   * raised the mark: every gap is reported, and nothing that arrived in order is.
   */
  lemma {:induction false} ReportsAreGaps(h0: uint64, pns: seq<uint64>, k: int)
    ensures Accepted(h0, pns, k) ==> h0 < k <= Detect(h0, pns).0
    ensures ReportedLost(Detect(h0, pns).1, k) <==>
      h0 < k <= Detect(h0, pns).0 && !Accepted(h0, pns, k)
  {
    if pns != [] {
      var n := |pns| - 1;
      var init, p := pns[..n], pns[n];
      assert pns == init + [p];
      ReportsAreGaps(h0, init, k);
      HighestIsMax(h0, init);
      DetectSnoc(h0, init, p);
      var (h, rs) := Detect(h0, init);
      var (h', r) := Step(h, p);
      if r != NoLoss {
        ReportedLostSnoc(rs, r, k);
      }
    }
  }

  /** Each lost number is reported once: the reports come in increasing order and do not overlap. */
  lemma {:induction false} ReportsAscend(h0: uint64, pns: seq<uint64>)
    ensures var (h, rs) := Detect(h0, pns);
      && (forall i, k :: 0 <= i < |rs| && Names(rs[i], k) ==> h0 < k < h)
      && (forall i, j, k, k' :: 0 <= i < j < |rs| && Names(rs[i], k) && Names(rs[j], k') ==> k < k')
  {
    if pns != [] {
      var n := |pns| - 1;
      var init, p := pns[..n], pns[n];
      assert pns == init + [p];
      ReportsAscend(h0, init);
      HighestIsMax(h0, init);
      DetectSnoc(h0, init, p);
    }
  }

  /** The loss scenario 1, 2, 3, 6, 7: one report, of the range 4 to 5, and the mark ends at 7. */
  lemma LossScenario()
    ensures Detect(0, [1, 2, 3, 6, 7]) == (7, [LostRange(4, 5)])
  {
    DetectSnoc(0, [], 1);
    assert Detect(0, [1]) == (1, []);
    DetectSnoc(0, [1], 2);
    assert Detect(0, [1, 2]) == (2, []);
    DetectSnoc(0, [1, 2], 3);
    assert Detect(0, [1, 2, 3]) == (3, []);
    assert Step(3, 6) == (6, LostRange(4, 5));
    assert [1, 2, 3] + [6] == [1, 2, 3, 6];
    DetectSnoc(0, [1, 2, 3], 6);
    assert Detect(0, [1, 2, 3, 6]).1 == [] + [LostRange(4, 5)] == [LostRange(4, 5)];
    assert [1, 2, 3, 6] + [7] == [1, 2, 3, 6, 7];
    DetectSnoc(0, [1, 2, 3, 6], 7);
    assert Detect(0, [1, 2, 3, 6, 7]).0 == 7;
    assert Detect(0, [1, 2, 3, 6, 7]).1 == [LostRange(4, 5)];
  }

  /** The numbers 1 to n received in order: no report, and the mark ends at n. */
  lemma {:induction false} InOrderNoLoss(n: nat)
    requires n < TWO_64
    ensures Detect(0, seq(n, i requires 0 <= i < n => i + 1)) == (n, [])
  {
    if n > 0 {
      InOrderNoLoss(n - 1);
      var s := seq(n, i requires 0 <= i < n => i + 1);
      assert s[..n - 1] == seq(n - 1, i requires 0 <= i < n - 1 => i + 1);
    }
  }

  // ---------------------------------------------------------------------------
  // The receive buffer.

  /** `const bufSize = 4 * 1 << 10`, which Go groups as `(4 * 1) << 10`. */
  const BUF_SIZE: nat := 4 * 1024

  /**
   * The first eight bytes of the buffer after a read of `d` into it, when they were `prev` before.
   * `b[:8]` reslices within the buffer's capacity, so a datagram shorter than eight bytes leaves the
   * bytes past its end as the previous reads left them.
   */
  function HeaderAfter(prev: seq<byte>, d: seq<byte>): (h: seq<byte>)
    requires |prev| == 8
    ensures |h| == 8
  {
    if |d| >= 8 then d[..8] else d + prev[|d|..]
  }

  /** The first eight bytes of the buffer after reading each of `ds` in turn. */
  function LastHeader(ds: seq<seq<byte>>): (h: seq<byte>)
    ensures |h| == 8
  {
    if ds == [] then Zeros(8) else HeaderAfter(LastHeader(ds[..|ds| - 1]), ds[|ds| - 1])
  }

  /** The packet number decoded after each read. */
  function PacketNumbers(ds: seq<seq<byte>>): (pns: seq<uint64>)
    ensures |pns| == |ds|
  {
    if ds == [] then [] else PacketNumbers(ds[..|ds| - 1]) + [Uint64(LastHeader(ds))]
  }

  /** A datagram of at least eight bytes is decoded from its own first eight bytes. */
  lemma {:induction false} PacketNumbersOfFullDatagrams(ds: seq<seq<byte>>)
    requires forall i :: 0 <= i < |ds| ==> |ds[i]| >= 8
    ensures forall i :: 0 <= i < |ds| ==> PacketNumbers(ds)[i] == Uint64(ds[i])
  {
    if ds != [] {
      var n := |ds| - 1;
      PacketNumbersOfFullDatagrams(ds[..n]);
      assert LastHeader(ds) == ds[n][..8];
      assert ds[n][..8][..8] == ds[n][..8];
      assert forall i :: 0 <= i < n ==> ds[..n][i] == ds[i];
      assert PacketNumbers(ds) == PacketNumbers(ds[..n]) + [Uint64(ds[n])];
    }
  }

  /** `conn.ReadFrom(b)`: the datagram `d`, truncated to the buffer, is copied to the buffer's front. */
  method ReadFrom(b: array<byte>, d: seq<byte>) returns (n: nat)
    modifies b
    ensures n == if |d| < b.Length then |d| else b.Length
    ensures b[..n] == d[..n] && b[n..] == old(b[n..])
  {
    n := if |d| < b.Length then |d| else b.Length;
    forall i | 0 <= i < n {
      b[i] := d[i];
    }
  }

  /**
   * The buffer after a read of the datagram `d` into the buffer `before`: the datagram, truncated to
   * the buffer, at the front, and the bytes past its end as they were.
   */
  function AfterRead(before: seq<byte>, d: seq<byte>): (after: seq<byte>)
    ensures |after| == |before|
  {
    var n := if |d| < |before| then |d| else |before|;
    d[..n] + before[n..]
  }

  /** The first eight bytes of a buffer after a read, from the first eight before it. */
  lemma HeaderOfRead(before: seq<byte>, d: seq<byte>)
    requires |before| >= 8
    ensures AfterRead(before, d)[..8] == HeaderAfter(before[..8], d)
  {
    var n := if |d| < |before| then |d| else |before|;
    if |d| < 8 {
      assert AfterRead(before, d)[..8] == d + before[..8][n..];
    } else {
      assert AfterRead(before, d)[..8] == d[..8];
    }
  }

  /** The whole receive buffer after reading each of `ds` in turn into `make([]byte, bufSize)`. */
  function Buffer(ds: seq<seq<byte>>): (buf: seq<byte>)
    ensures |buf| == BUF_SIZE
  {
    if ds == [] then Zeros(BUF_SIZE) else AfterRead(Buffer(ds[..|ds| - 1]), ds[|ds| - 1])
  }

  /** The header the decoder sees is the front of the whole buffer. */
  lemma {:induction false} BufferHeader(ds: seq<seq<byte>>)
    ensures Buffer(ds)[..8] == LastHeader(ds)
  {
    if ds != [] {
      var n := |ds| - 1;
      BufferHeader(ds[..n]);
      HeaderOfRead(Buffer(ds[..n]), ds[n]);
    }
  }

  /** A read into the receive buffer followed by `b = b[:n]` and `binary.BigEndian.Uint64(b[:8])`. */
  method ReadPacketNumber(b: array<byte>, d: seq<byte>) returns (pn: uint64)
    requires b.Length == BUF_SIZE
    modifies b
    ensures b[..] == AfterRead(old(b[..]), d)
    ensures b[..8] == HeaderAfter(old(b[..8]), d)
    ensures pn == Uint64(b[..8])
  {
    ghost var before := b[..];
    var n := ReadFrom(b, d);
    assert b[..] == b[..n] + b[n..];
    HeaderOfRead(before, d);
    assert b[..][..8] == b[..8];
    pn := Uint64(b[..8]);
  }

  /** After one more datagram, the mark and reports are those of one more `Step`. */
  lemma DetectAfterRead(ds: seq<seq<byte>>, d: seq<byte>)
    ensures PacketNumbers(ds + [d]) == PacketNumbers(ds) + [Uint64(HeaderAfter(LastHeader(ds), d))]
    ensures LastHeader(ds + [d]) == HeaderAfter(LastHeader(ds), d)
  {
    assert (ds + [d])[..|ds|] == ds;
  }

  /** Feeding one more packet number is one more `Step` from the mark reached so far. */
  lemma DetectSnoc(h0: uint64, pns: seq<uint64>, pn: uint64)
    ensures Detect(h0, pns + [pn]).0 == Step(Detect(h0, pns).0, pn).0
    ensures Detect(h0, pns + [pn]).1 ==
      var r := Step(Detect(h0, pns).0, pn).1;
      if r == NoLoss then Detect(h0, pns).1 else Detect(h0, pns).1 + [r]
  {
    assert (pns + [pn])[..|pns|] == pns;
  }

  /**
   * The `runServer` loop over the datagrams it reads before the read that fails: the mark it ends
   * with and the reports it prints are those of `Detect` from 0 over the decoded packet numbers.
   */
  method RunServer(datagrams: seq<seq<byte>>) returns (highest: uint64, reports: seq<Report>)
    ensures (highest, reports) == Detect(0, PacketNumbers(datagrams))
  {
    var b := new byte[BUF_SIZE](_ => 0);
    assert b[..] == Zeros(BUF_SIZE);
    highest, reports := 0, [];
    var i := 0;
    while i < |datagrams|
      invariant 0 <= i <= |datagrams|
      invariant b.Length == BUF_SIZE
      invariant b[..] == Buffer(datagrams[..i])
      invariant highest == Detect(0, PacketNumbers(datagrams[..i])).0
      invariant reports == Detect(0, PacketNumbers(datagrams[..i])).1
    {
      ghost var pns := PacketNumbers(datagrams[..i]);
      BufferHeader(datagrams[..i]);
      assert b[..8] == b[..][..8];
      DetectAfterRead(datagrams[..i], datagrams[i]);
      assert datagrams[..i + 1] == datagrams[..i] + [datagrams[i]];
      var pn := ReadPacketNumber(b, datagrams[i]);
      assert b[..] == Buffer(datagrams[..i + 1]);
      assert PacketNumbers(datagrams[..i + 1]) == pns + [pn];
      DetectSnoc(0, pns, pn);
      i := i + 1;
      if pn <= highest {
        continue;
      }
      if pn != Add64(highest, 1) {
        if Sub64(pn, highest) > 2 {
          reports := reports + [LostRange(Add64(highest, 1), Sub64(pn, 1))];
        } else {
          reports := reports + [LostPacket(Add64(highest, 1))];
        }
      }
      highest := pn;
    }
    assert datagrams[..i] == datagrams;
  }
}
