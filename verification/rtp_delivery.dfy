/**
 What a UDP socket over IPv4 takes of a stream. `RTP_MAX_DATA_SIZE` leaves room
 for an IP and a UDP header in 65536 bytes, but the total length of an IPv4
 datagram (section 3.1 of RFC 791) is at most 65535, so every full fragment is one
 byte too long. `sendto` refuses it and `pushStream` goes on with the next.
 */
module RtpDelivery {
  import opened AnnexB
  import opened RtpPackets
  import opened RtpStreams
  import opened RtpSender

  const MAX_IPV4_UDP_PAYLOAD: nat := 65535 - 20 - 8

  predicate Fits(packetSize: nat) {
    packetSize <= MAX_IPV4_UDP_PAYLOAD
  }

  // ---------- packets ----------

  lemma FragmentLength(nal: Bytes, k: nat)
    requires 1 < |nal| && k < |Fragments(nal, 1)|
    ensures 1 + k * RTP_MAX_DATA_SIZE < |nal|
    ensures |Fragments(nal, 1)[k]| == FU_SIZE + FragmentSize(nal, 1 + k * RTP_MAX_DATA_SIZE)
  {
    NthFragment(nal, 1, k);
    FragmentBits(nal, 1 + k * RTP_MAX_DATA_SIZE);
  }

  /** Which packets of a unit a socket takes: the one of a unit that needs no
      fragments, else only a last fragment that is not full. */
  lemma PacketFitsIff(nal: Bytes, k: nat)
    requires k < |Payloads(nal)|
    ensures Fits(RTP_HEADER_SIZE + |Payloads(nal)[k]|) <==>
            |nal| <= RTP_MAX_DATA_SIZE
            || (k == |Payloads(nal)| - 1 && (|nal| - 1) % RTP_MAX_DATA_SIZE != 0)
  {
    if RTP_MAX_DATA_SIZE < |nal| {
      FragmentCount(nal, 1);
      FragmentLength(nal, k);
      LastByRemainder(|nal| - 1, k, |Payloads(nal)|);
    }
  }

  /** All packets of a unit fit exactly when it needs no fragments. */
  lemma AllPacketsFitIff(nal: Bytes)
    ensures (forall k :: 0 <= k < |Payloads(nal)| ==> Fits(RTP_HEADER_SIZE + |Payloads(nal)[k]|)) <==>
            |nal| <= RTP_MAX_DATA_SIZE
  {
    if RTP_MAX_DATA_SIZE < |nal| {
      assert Payloads(nal)[0] == Fragment(nal, 1);
      FragmentBits(nal, 1);
    }
  }

  /** A unit one byte longer than a packet holds: it is sent as one full fragment,
      and nothing of it gets through. */
  lemma OneByteTooLong(nal: Bytes)
    requires |nal| == 65495
    ensures |Payloads(nal)| == 1 && RTP_HEADER_SIZE + |Payloads(nal)[0]| == 65508
    ensures !Fits(65508) && FitPayloads(Payloads(nal)) == []
  {
    FragmentCount(nal, 1);
    assert Payloads(nal)[0] == Fragment(nal, 1);
    FragmentBits(nal, 1);
  }

  // ---------- streams ----------

  /** What a socket takes of the packets given to it. */
  function Accepted(packets: seq<Bytes>): seq<Bytes> {
    if packets == [] then []
    else (if Fits(|packets[0]|) then [packets[0]] else []) + Accepted(packets[1..])
  }

  function FitDatagrams(ds: seq<Datagram>): seq<Datagram> {
    if ds == [] then []
    else (if Fits(RTP_HEADER_SIZE + |ds[0].payload|) then [ds[0]] else []) + FitDatagrams(ds[1..])
  }

  function FitPayloads(payloads: seq<Bytes>): seq<Bytes> {
    if payloads == [] then []
    else (if Fits(RTP_HEADER_SIZE + |payloads[0]|) then [payloads[0]] else []) + FitPayloads(payloads[1..])
  }

  function FitUnits(units: seq<seq<Bytes>>): (fit: seq<seq<Bytes>>)
    ensures |fit| == |units| && forall i :: 0 <= i < |units| ==> fit[i] == FitPayloads(units[i])
  {
    seq(|units|, i requires 0 <= i < |units| => FitPayloads(units[i]))
  }

  lemma {:induction false} AcceptedWire(ds: seq<Datagram>)
    ensures Accepted(WireAll(ds)) == WireAll(FitDatagrams(ds))
  {
    if ds != [] {
      AcceptedWire(ds[1..]);
      assert WireAll(ds)[1..] == WireAll(ds[1..]);
      assert |Wire(ds[0])| == RTP_HEADER_SIZE + |ds[0].payload|;
    }
  }

  lemma {:induction false} FitSplits(a: seq<Datagram>, b: seq<Datagram>)
    ensures FitDatagrams(a + b) == FitDatagrams(a) + FitDatagrams(b)
  {
    if a == [] {
      assert a + b == b;
    } else {
      var one := if Fits(RTP_HEADER_SIZE + |a[0].payload|) then [a[0]] else [];
      FitSplits(a[1..], b);
      assert (a + b)[0] == a[0] && (a + b)[1..] == a[1..] + b;
      assert one + (FitDatagrams(a[1..]) + FitDatagrams(b)) == one + FitDatagrams(a[1..]) + FitDatagrams(b);
    }
  }

  lemma {:induction false} FitKeepsPayloads(ds: seq<Datagram>)
    ensures PayloadsOf(FitDatagrams(ds)) == FitPayloads(PayloadsOf(ds))
    ensures forall d :: d in FitDatagrams(ds) ==> d in ds
  {
    if ds != [] {
      FitKeepsPayloads(ds[1..]);
      assert PayloadsOf(ds)[1..] == PayloadsOf(ds[1..]);
    }
  }

  /** What a socket takes of a stream is a stream of what it takes of each unit. */
  lemma {:induction false} FitCarries(ds: seq<Datagram>, units: seq<seq<Bytes>>, timestamp: Word)
    requires Carries(ds, units, timestamp)
    ensures Carries(FitDatagrams(ds), FitUnits(units), timestamp)
    decreases |units|
  {
    if units != [] {
      var n := |units[0]|;
      var run, later := ds[..n], ds[n..];
      FitCarries(later, units[1..], NextStamp(timestamp));
      assert ds == run + later;
      FitSplits(run, later);
      FitKeepsPayloads(run);
      var fit, m := FitDatagrams(ds), |FitDatagrams(run)|;
      assert fit[..m] == FitDatagrams(run) && fit[m..] == FitDatagrams(later);
      assert FitUnits(units)[1..] == FitUnits(units[1..]);
    }
  }

  // ---------- receiving ----------

  /** How many units have a datagram. */
  function Heard(units: seq<seq<Bytes>>): (n: nat)
    ensures n <= |units|
    ensures n == |units| <==> forall i :: 0 <= i < |units| ==> units[i] != []
  {
    if units == [] then 0 else (if units[0] == [] then 0 else 1) + Heard(units[1..])
  }

  /** No receiver makes more units than it heard of. */
  lemma {:induction false} ReceiveAtMost(ds: seq<Datagram>, units: seq<seq<Bytes>>, timestamp: Word)
    requires Carries(ds, units, timestamp)
    ensures |Receive(ds)| <= Heard(units)
    decreases |units|
  {
    if units != [] {
      var n, t := |units[0]|, NextStamp(timestamp);
      ReceiveAtMost(ds[n..], units[1..], t);
      if n == 0 {
        assert ds[0..] == ds;
      } else {
        SkipRun(ds, n, t);
      }
    }
  }

  /** A run of equal timestamps makes at most one unit. */
  lemma SkipRun(ds: seq<Datagram>, n: nat, timestamp: Word)
    requires 0 < n <= |ds| && forall d :: d in ds[..n] ==> d.header.timestamp == timestamp
    ensures |Receive(ds)| <= 1 + |Receive(ds[n..])|
  {
    RunPast(ds, n, timestamp);
    assert ds[0] in ds[..n];
    var m := RunLength(ds, timestamp);
    if n < m {
      assert ds[n..][m - n..] == ds[m..];
    }
  }

  lemma {:induction false} RunPast(ds: seq<Datagram>, n: nat, timestamp: Word)
    requires n <= |ds| && forall d :: d in ds[..n] ==> d.header.timestamp == timestamp
    ensures RunLength(ds, timestamp) == n + RunLength(ds[n..], timestamp)
    decreases n
  {
    if n == 0 {
      assert ds[0..] == ds;
    } else {
      assert ds[0] in ds[..n] && forall d :: d in ds[1..][..n - 1] ==> d in ds[..n];
      RunPast(ds[1..], n - 1, timestamp);
      assert ds[1..][n - 1..] == ds[n..];
    }
  }

  // ---------- units ----------

  /** Of the fragments of a unit less than a full one's bytes get through. */
  lemma {:induction false} FitFragments(nal: Bytes, pos: nat)
    requires 0 < pos <= |nal|
    ensures var fit := FitPayloads(Fragments(nal, pos));
            && |FragmentBytes(fit)| < RTP_MAX_DATA_SIZE
            && forall p :: p in fit ==> FU_SIZE <= |p| && TypeBits(p[0]) == FU_A
    decreases |nal| - pos
  {
    if pos < |nal| {
      var p, later := Fragment(nal, pos), Fragments(nal, pos + FragmentSize(nal, pos));
      FragmentBits(nal, pos);
      assert Fragments(nal, pos)[1..] == later;
      if RTP_MAX_DATA_SIZE <= |nal| - pos {
        FitFragments(nal, pos + RTP_MAX_DATA_SIZE);
        assert FitPayloads(Fragments(nal, pos)) == FitPayloads(later);
      } else {
        assert later == [] && FitPayloads(Fragments(nal, pos)) == [p];
        var one: seq<Bytes> := [p];
        assert one[1..] == [] && FragmentBytes(one) == p[FU_SIZE..] + [];
      }
    }
  }

  /** A unit gets through, so that a receiver has it again, exactly when it needs no
      fragments; of any other nothing comes or something else. */
  lemma UnitGetsThroughIff(nal: Bytes)
    requires Carried(nal)
    ensures var fit := FitPayloads(Payloads(nal));
            |nal| <= RTP_MAX_DATA_SIZE <==> fit != [] && Rebuild(fit) == nal
  {
    if |nal| <= RTP_MAX_DATA_SIZE {
      assert FitPayloads([nal]) == [nal] + FitPayloads([]) == [nal];
      PayloadsRoundTrip(nal);
    } else {
      FitFragments(nal, 1);
    }
  }

  /** What a socket takes of a stream gives a receiver all its units exactly when
      none needs fragments. */
  lemma ReceiveFitIff(ds: seq<Datagram>, units: seq<seq<Bytes>>, nals: seq<Bytes>, timestamp: Word)
    requires Carries(ds, units, timestamp) && |nals| == |units|
    requires forall i :: 0 <= i < |nals| ==> units[i] == Payloads(nals[i]) && Carried(nals[i])
    ensures Receive(FitDatagrams(ds)) == nals <==> forall i :: 0 <= i < |nals| ==> |nals[i]| <= RTP_MAX_DATA_SIZE
  {
    var fit := FitUnits(units);
    FitCarries(ds, units, timestamp);
    ReceiveAtMost(FitDatagrams(ds), fit, timestamp);
    forall i | 0 <= i < |nals|
      ensures |nals[i]| <= RTP_MAX_DATA_SIZE <==> fit[i] != [] && Rebuild(fit[i]) == nals[i]
    {
      UnitGetsThroughIff(nals[i]);
    }
    if Heard(fit) == |fit| {
      ReceiveCarried(FitDatagrams(ds), fit, timestamp);
    }
  }
}
