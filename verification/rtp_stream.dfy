/**
 The packets of a whole stream (code/rtp/rtp.cpp), and a receiver for them.
 */
module RtpStreams {
  import opened AnnexB
  import opened CppInts
  import opened RtpPackets

  const TIMESTAMP_STEP: nat := 3600

  /** `m_seq++` on 16 bits. */
  function NextSeq(seqNo: HalfWord): HalfWord {
    if seqNo == 0xFFFF then 0 else seqNo + 1
  }

  /** `m_timestamp += 3600` on 32 bits. */
  function NextStamp(timestamp: Word): Word {
    if timestamp + TIMESTAMP_STEP < 0x1_0000_0000 then timestamp + TIMESTAMP_STEP
    else timestamp + TIMESTAMP_STEP - 0x1_0000_0000
  }

  /** The sequence number `k` packets on. */
  function After(seqNo: HalfWord, k: nat): HalfWord {
    if k == 0 then seqNo else NextSeq(After(seqNo, k - 1))
  }

  /** The timestamp `n` NAL units on. */
  function Stamp(timestamp: Word, n: nat): Word {
    if n == 0 then timestamp else NextStamp(Stamp(timestamp, n - 1))
  }

  lemma {:induction false} AfterModulo(seqNo: HalfWord, k: nat)
    ensures After(seqNo, k) == (seqNo + k) % 0x1_0000
  {
    if k != 0 {
      AfterModulo(seqNo, k - 1);
      AddModulo(seqNo + k - 1, 1, 0x1_0000);
    }
  }

  lemma {:induction false} StampModulo(timestamp: Word, n: nat)
    ensures Stamp(timestamp, n) == (timestamp + n * 3600) % 0x1_0000_0000
  {
    if n != 0 {
      StampModulo(timestamp, n - 1);
      AddModulo(timestamp + (n - 1) * TIMESTAMP_STEP, TIMESTAMP_STEP, 0x1_0000_0000);
    }
  }

  /** One datagram for each payload, numbered on from `seqNo`. */
  function Numbered(payloads: seq<Bytes>, seqNo: HalfWord, timestamp: Word, ssrc: Word): (ds: seq<Datagram>)
    ensures |ds| == |payloads|
    ensures forall k :: 0 <= k < |ds| ==>
              ds[k] == Datagram(StreamHeader(After(seqNo, k + 1), timestamp, ssrc), payloads[k])
  {
    seq(|payloads|, k requires 0 <= k < |payloads| =>
      Datagram(StreamHeader(After(seqNo, k + 1), timestamp, ssrc), payloads[k]))
  }

  /** What is sent for a list of NAL units, each given by its payloads. */
  function StreamOf(units: seq<seq<Bytes>>, seqNo: HalfWord, timestamp: Word, ssrc: Word): seq<Datagram> {
    if units == [] then []
    else
      Numbered(units[0], seqNo, NextStamp(timestamp), ssrc)
      + StreamOf(units[1..], After(seqNo, |units[0]|), NextStamp(timestamp), ssrc)
  }

  // ---------- counters ----------

  lemma {:induction false} AfterAdds(seqNo: HalfWord, j: nat, k: nat)
    ensures After(After(seqNo, j), k) == After(seqNo, j + k)
  {
    if k != 0 {
      AfterAdds(seqNo, j, k - 1);
    }
  }

  lemma {:induction false} StampAdds(timestamp: Word, j: nat, k: nat)
    ensures Stamp(Stamp(timestamp, j), k) == Stamp(timestamp, j + k)
  {
    if k != 0 {
      StampAdds(timestamp, j, k - 1);
    }
  }

  /** Over a whole stream the packets are numbered without a gap, modulo 2^16; all
      are version 2 of one source, and the marker bit is never set. */
  lemma {:induction false} NumberedOn(units: seq<seq<Bytes>>, seqNo: HalfWord, timestamp: Word, ssrc: Word, k: nat)
    requires k < |StreamOf(units, seqNo, timestamp, ssrc)|
    ensures var h := StreamOf(units, seqNo, timestamp, ssrc)[k].header;
            h == StreamHeader(After(seqNo, k + 1), h.timestamp, ssrc)
    decreases |units|
  {
    var n := |units[0]|;
    if n <= k {
      AfterAdds(seqNo, n, k - n + 1);
      NumberedOn(units[1..], After(seqNo, n), NextStamp(timestamp), ssrc, k - n);
    }
  }

  /** The same, field by field. */
  lemma PacketHeader(units: seq<seq<Bytes>>, seqNo: HalfWord, timestamp: Word, ssrc: Word, k: nat)
    requires k < |StreamOf(units, seqNo, timestamp, ssrc)|
    ensures var h := StreamOf(units, seqNo, timestamp, ssrc)[k].header;
            && h.version == 2 && h.padding == h.extension == h.csrcCount == h.marker == 0 && h.payloadType == 96
            && h.ssrc == ssrc && h.seqNo == (seqNo + k + 1) % 65536
  {
    NumberedOn(units, seqNo, timestamp, ssrc, k);
    AfterModulo(seqNo, k + 1);
  }

  /** The stream is, NAL unit by NAL unit, the packets of that unit: the n-th
      unit's carry the timestamp n + 1 steps on, modulo 2^32. */
  lemma {:induction false} StreamSplits(units: seq<seq<Bytes>>, seqNo: HalfWord, timestamp: Word, ssrc: Word, n: nat)
    requires n < |units|
    ensures var before := StreamOf(units[..n], seqNo, timestamp, ssrc);
            before + Numbered(units[n], After(seqNo, |before|), Stamp(timestamp, n + 1), ssrc)
            <= StreamOf(units, seqNo, timestamp, ssrc)
    decreases n
  {
    if n > 0 {
      var ds := Numbered(units[0], seqNo, NextStamp(timestamp), ssrc);
      var seqNo', timestamp', later := After(seqNo, |ds|), NextStamp(timestamp), units[1..];
      StreamSplits(later, seqNo', timestamp', ssrc, n - 1);
      StreamPrefix(units, seqNo, timestamp, ssrc, n);
      var before' := StreamOf(later[..n - 1], seqNo', timestamp', ssrc);
      AfterAdds(seqNo, |ds|, |before'|);
      StampAdds(timestamp, 1, n);
      var unit := Numbered(units[n], After(seqNo', |before'|), Stamp(timestamp', n), ssrc);
      PrefixShift(ds, before', unit, StreamOf(later, seqNo', timestamp', ssrc));
    }
  }

  /** The stream of the first n units begins with the first unit. */
  lemma StreamPrefix(units: seq<seq<Bytes>>, seqNo: HalfWord, timestamp: Word, ssrc: Word, n: nat)
    requires 0 < n <= |units|
    ensures StreamOf(units[..n], seqNo, timestamp, ssrc)
            == Numbered(units[0], seqNo, NextStamp(timestamp), ssrc)
               + StreamOf(units[1..][..n - 1], After(seqNo, |units[0]|), NextStamp(timestamp), ssrc)
  {
    assert units[..n][1..] == units[1..][..n - 1];
  }

  lemma PrefixShift(ds: seq<Datagram>, before: seq<Datagram>, unit: seq<Datagram>, whole: seq<Datagram>)
    requires before + unit <= whole
    ensures ds + before + unit <= ds + whole
  {
  }

  // ---------- receiving ----------

  /** How many datagrams at the front carry `timestamp`. */
  function RunLength(ds: seq<Datagram>, timestamp: Word): (n: nat)
    ensures n <= |ds|
  {
    if ds == [] || ds[0].header.timestamp != timestamp then 0 else 1 + RunLength(ds[1..], timestamp)
  }

  function PayloadsOf(ds: seq<Datagram>): (payloads: seq<Bytes>)
    ensures |payloads| == |ds| && forall k :: 0 <= k < |ds| ==> payloads[k] == ds[k].payload
  {
    seq(|ds|, k requires 0 <= k < |ds| => ds[k].payload)
  }

  /** A receiver: consecutive datagrams with one timestamp make one NAL unit. */
  function Receive(ds: seq<Datagram>): seq<Bytes> {
    if ds == [] then []
    else
      var n := RunLength(ds, ds[0].header.timestamp);
      [Rebuild(PayloadsOf(ds[..n]))] + Receive(ds[n..])
  }

  lemma {:induction false} RunEnds(run: seq<Datagram>, later: seq<Datagram>, timestamp: Word)
    requires forall d :: d in run ==> d.header.timestamp == timestamp
    requires later == [] || later[0].header.timestamp != timestamp
    ensures RunLength(run + later, timestamp) == |run|
  {
    if run == [] {
      assert run + later == later;
    } else {
      assert (run + later)[1..] == run[1..] + later;
      RunEnds(run[1..], later, timestamp);
    }
  }

  /** The datagrams are those of `units`, unit by unit, each unit one timestamp step
      on; sequence numbers may have gaps, and a unit may have no datagram at all. */
  ghost predicate Carries(ds: seq<Datagram>, units: seq<seq<Bytes>>, timestamp: Word)
    decreases |units|
  {
    if units == [] then ds == []
    else
      var n, t := |units[0]|, NextStamp(timestamp);
      && n <= |ds| && PayloadsOf(ds[..n]) == units[0]
      && (forall d :: d in ds[..n] ==> d.header.timestamp == t)
      && Carries(ds[n..], units[1..], t)
  }

  lemma {:induction false} StreamCarries(units: seq<seq<Bytes>>, seqNo: HalfWord, timestamp: Word, ssrc: Word)
    ensures Carries(StreamOf(units, seqNo, timestamp, ssrc), units, timestamp)
    decreases |units|
  {
    if units != [] {
      var n, t := |units[0]|, NextStamp(timestamp);
      var run, later := Numbered(units[0], seqNo, t, ssrc), StreamOf(units[1..], After(seqNo, n), t, ssrc);
      StreamCarries(units[1..], After(seqNo, n), t, ssrc);
      assert (run + later)[..n] == run && (run + later)[n..] == later;
      assert PayloadsOf(run) == units[0];
    }
  }

  /** A receiver of a datagram from every unit rebuilds each from what came of it. */
  lemma {:induction false} ReceiveCarried(ds: seq<Datagram>, units: seq<seq<Bytes>>, timestamp: Word)
    requires Carries(ds, units, timestamp) && forall i :: 0 <= i < |units| ==> units[i] != []
    ensures |Receive(ds)| == |units| && forall i :: 0 <= i < |units| ==> Receive(ds)[i] == Rebuild(units[i])
    decreases |units|
  {
    if units != [] {
      var n, t := |units[0]|, NextStamp(timestamp);
      ReceiveCarried(ds[n..], units[1..], t);
      assert ds[n..] != [] ==> ds[n..][0] in ds[n..][..|units[1]|];
      RunEnds(ds[..n], ds[n..], t);
      assert ds == ds[..n] + ds[n..] && ds[0] in ds[..n];
    }
  }

  /** The receiver tells the NAL units of a stream apart: it rebuilds each from
      exactly its own payloads. */
  lemma ReceiveStream(units: seq<seq<Bytes>>, seqNo: HalfWord, timestamp: Word, ssrc: Word)
    requires forall i :: 0 <= i < |units| ==> units[i] != []
    ensures var nals := Receive(StreamOf(units, seqNo, timestamp, ssrc));
            |nals| == |units| && forall i :: 0 <= i < |units| ==> nals[i] == Rebuild(units[i])
  {
    StreamCarries(units, seqNo, timestamp, ssrc);
    ReceiveCarried(StreamOf(units, seqNo, timestamp, ssrc), units, timestamp);
  }
}
