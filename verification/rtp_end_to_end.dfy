/**
 From the video file to the receiver: `H264Parser` and `RTP` together, as
 `RtspReponse` uses them.
 */
module RtpEndToEnd {
  import opened AnnexB
  import opened RtpPackets
  import opened RtpStreams
  import opened RtpSender
  import opened RtpDelivery
  import opened RtpFlags
  import opened Options

  /** A receiver's reading of what arrived. */
  function ParseAll(packets: seq<Bytes>): (ds: seq<Datagram>)
    requires forall k :: 0 <= k < |packets| ==> RTP_HEADER_SIZE <= |packets[k]|
    ensures |ds| == |packets| && forall k :: 0 <= k < |ds| ==> ds[k] == Parse(packets[k])
  {
    seq(|packets|, k requires 0 <= k < |packets| => Parse(packets[k]))
  }

  lemma NalBehindCode(u: Unit)
    ensures 3 <= |UnitBytes(u)| && NalOf(UnitBytes(u)) == u.nal
  {
  }

  lemma Parses(ds: seq<Datagram>)
    requires forall d :: d in ds ==> d.header == Fitted(d.header)
    ensures forall k :: 0 <= k < |ds| ==> RTP_HEADER_SIZE <= |WireAll(ds)[k]|
    ensures ParseAll(WireAll(ds)) == ds
  {
    forall k | 0 <= k < |ds| ensures RTP_HEADER_SIZE <= |WireAll(ds)[k]| && Parse(WireAll(ds)[k]) == ds[k] {
      WireRoundTrip(ds[k]);
    }
  }

  lemma HeadersFit(units: seq<seq<Bytes>>, seqNo: HalfWord, timestamp: Word, ssrc: Word)
    ensures forall d :: d in StreamOf(units, seqNo, timestamp, ssrc) ==> d.header == Fitted(d.header)
  {
    var ds := StreamOf(units, seqNo, timestamp, ssrc);
    forall k | 0 <= k < |ds| ensures ds[k].header == Fitted(ds[k].header) {
      NumberedOn(units, seqNo, timestamp, ssrc, k);
    }
  }

  /** Packets numbered on from `first`, of one source. */
  ghost predicate AllBegin(sent: seq<Bytes>, first: int, ssrc: int) {
    forall k :: 0 <= k < |sent| ==>
      RTP_HEADER_SIZE <= |sent[k]| && BeginsStream(sent[k], (first + k) % 65536, ssrc)
  }

  /** How the packets of a stream begin. */
  lemma PacketsBegin(units: seq<seq<Bytes>>, seqNo: HalfWord, timestamp: Word, ssrc: Word)
    ensures AllBegin(WireAll(StreamOf(units, seqNo, timestamp, ssrc)), seqNo + 1, ssrc)
  {
    var ds := StreamOf(units, seqNo, timestamp, ssrc);
    forall k | 0 <= k < |ds|
      ensures RTP_HEADER_SIZE <= |Wire(ds[k])| && BeginsStream(Wire(ds[k]), (seqNo + 1 + k) % 65536, ssrc)
    {
      NumberedOn(units, seqNo, timestamp, ssrc, k);
      AfterModulo(seqNo, k + 1);
      WireBegins(ds[k], (seqNo + k + 1) % 65536, ds[k].header.timestamp, ssrc);
    }
  }

  lemma WireBegins(d: Datagram, seqNo: HalfWord, timestamp: Word, ssrc: Word)
    requires d.header == StreamHeader(seqNo, timestamp, ssrc)
    ensures RTP_HEADER_SIZE <= |Wire(d)| && BeginsStream(Wire(d), seqNo, ssrc)
  {
    StreamHeaderBytes(seqNo, timestamp, ssrc);
    assert Wire(d)[..RTP_HEADER_SIZE] == Encode(d.header);
    assert forall i :: 0 <= i < RTP_HEADER_SIZE ==> Wire(d)[i] == Encode(d.header)[i];
  }

  /** A receiver parses a stream's bytes to the datagrams that were sent. */
  lemma StreamParses(units: seq<seq<Bytes>>, seqNo: HalfWord, timestamp: Word, ssrc: Word)
    ensures var ds := StreamOf(units, seqNo, timestamp, ssrc);
            && (forall k :: 0 <= k < |ds| ==> RTP_HEADER_SIZE <= |WireAll(ds)[k]|)
            && ParseAll(WireAll(ds)) == ds
  {
    HeadersFit(units, seqNo, timestamp, ssrc);
    Parses(StreamOf(units, seqNo, timestamp, ssrc));
  }

  /** The file is an Annex B stream of NAL units that a receiver can tell from
      fragments, the last of them not empty. */
  ghost predicate Streamable(units: seq<Unit>) {
    && units != [] && units[|units| - 1].nal != []
    && forall i :: 0 <= i < |units| ==> Plain(units[i].nal) && Carried(units[i].nal)
  }

  function NalsButLast(units: seq<Unit>): (nals: seq<Bytes>)
    requires units != []
    ensures |nals| == |units| - 1 && forall i :: 0 <= i < |nals| ==> nals[i] == units[i].nal
  {
    seq(|units| - 1, i requires 0 <= i < |units| - 1 => units[i].nal)
  }

  /** A receiver of `ds` has every NAL unit but the last, in order and nothing else. */
  ghost predicate Recovers(ds: seq<Datagram>, units: seq<Unit>)
    requires units != []
  {
    Receive(ds) == NalsButLast(units)
  }

  /** What is sent for each of these units. */
  lemma PayloadsSent(units: seq<Unit>, slack: Bytes)
    requires Streamable(units) && |slack| == 3
    ensures var payloads := UnitsOf(Frames(Stream(units), slack));
            |payloads| == |units| - 1 && forall i :: 0 <= i < |payloads| ==> payloads[i] == Payloads(units[i].nal)
  {
    AnnexBRoundTrip(units, slack);
    var frames := Frames(Stream(units), slack);
    forall i | 0 <= i < |frames| ensures NalOf(frames[i]) == units[i].nal {
      NalBehindCode(units[i]);
    }
  }

  /** Whatever the start codes and the counters: a receiver recovers every NAL unit
      of the file but the last, byte for byte and in order. */
  lemma EndToEnd(units: seq<Unit>, slack: Bytes, seqNo: HalfWord, timestamp: Word, ssrc: Word)
    requires Streamable(units) && |slack| == 3
    ensures Recovers(StreamOf(UnitsOf(Frames(Stream(units), slack)), seqNo, timestamp, ssrc), units)
  {
    PayloadsSent(units, slack);
    var payloads := UnitsOf(Frames(Stream(units), slack));
    forall i | 0 <= i < |payloads| ensures payloads[i] != [] && Rebuild(payloads[i]) == units[i].nal {
      PayloadsRoundTrip(units[i].nal);
    }
    ReceiveStream(payloads, seqNo, timestamp, ssrc);
  }

  /** The same, from the bytes on the wire. */
  lemma WireToNals(units: seq<Unit>, slack: Bytes, seqNo: HalfWord, timestamp: Word, ssrc: Word)
    requires Streamable(units) && |slack| == 3
    ensures var sent := WireAll(StreamOf(UnitsOf(Frames(Stream(units), slack)), seqNo, timestamp, ssrc));
            && (forall k :: 0 <= k < |sent| ==> RTP_HEADER_SIZE <= |sent[k]|)
            && Recovers(ParseAll(sent), units)
  {
    StreamParses(UnitsOf(Frames(Stream(units), slack)), seqNo, timestamp, ssrc);
    EndToEnd(units, slack, seqNo, timestamp, ssrc);
  }

  /** No unit before the last needs fragments. */
  predicate Deliverable(units: seq<Unit>) {
    forall i :: 0 <= i < |units| - 1 ==> |units[i].nal| <= RTP_MAX_DATA_SIZE
  }

  /** Behind a socket over IPv4 the receiver recovers the units exactly when none of
      them needs fragments. */
  lemma DeliveredIff(units: seq<Unit>, slack: Bytes, seqNo: HalfWord, timestamp: Word, ssrc: Word)
    requires Streamable(units) && |slack| == 3
    ensures var ds := StreamOf(UnitsOf(Frames(Stream(units), slack)), seqNo, timestamp, ssrc);
            Recovers(FitDatagrams(ds), units) <==> Deliverable(units)
  {
    PayloadsSent(units, slack);
    var payloads := UnitsOf(Frames(Stream(units), slack));
    StreamCarries(payloads, seqNo, timestamp, ssrc);
    ReceiveFitIff(StreamOf(payloads, seqNo, timestamp, ssrc), payloads, NalsButLast(units), timestamp);
  }

  /** A receiver that goes by S and E, on a network that takes every packet, gets of
      these units exactly those that need no fragments; so all of them exactly when
      none does. */
  lemma FlagsRecoverIff(units: seq<Unit>, slack: Bytes, seqNo: HalfWord, timestamp: Word, ssrc: Word)
    requires Streamable(units) && |slack| == 3
    ensures var payloads := PayloadsOf(StreamOf(UnitsOf(Frames(Stream(units), slack)), seqNo, timestamp, ssrc));
            var nals := NalsButLast(units);
            ByFlags(payloads, None) == Whole(nals) && (Whole(nals) == nals <==> Deliverable(units))
  {
    PayloadsSent(units, slack);
    var nals := NalsButLast(units);
    StreamPayloads(UnitsOf(Frames(Stream(units), slack)), nals, seqNo, timestamp, ssrc);
    ByFlagsGetsWhole(nals);
    WholeIff(nals);
  }

  /** The same, from the bytes the socket takes. */
  lemma AcceptedToNals(units: seq<Unit>, slack: Bytes, seqNo: HalfWord, timestamp: Word, ssrc: Word)
    requires Streamable(units) && |slack| == 3
    ensures var taken := Accepted(WireAll(StreamOf(UnitsOf(Frames(Stream(units), slack)), seqNo, timestamp, ssrc)));
            && (forall k :: 0 <= k < |taken| ==> RTP_HEADER_SIZE <= |taken[k]|)
            && (Recovers(ParseAll(taken), units) <==> Deliverable(units))
  {
    var payloads := UnitsOf(Frames(Stream(units), slack));
    var ds := StreamOf(payloads, seqNo, timestamp, ssrc);
    HeadersFit(payloads, seqNo, timestamp, ssrc);
    AcceptedWire(ds);
    FitKeepsPayloads(ds);
    Parses(FitDatagrams(ds));
    DeliveredIff(units, slack, seqNo, timestamp, ssrc);
  }

  /** A session's packets, from the counters that `init` sets. */
  method Push(file: Bytes, slack: Bytes, sockFd: int) returns (result: int, sent: seq<Bytes>)
    requires file != [] && |slack| == 3 && 0 < sockFd
    ensures result == if Ending(file, slack).Malformed? then -1 else 0
    ensures sent == WireAll(StreamOf(UnitsOf(Frames(file, slack)), 100, 100, 0x5f4d_f327))
  {
    var parser := new H264Parser(file, slack);
    var rtp := new RTP(parser);
    rtp.Init(sockFd);
    ghost var ds := StreamOf(UnitsOf(Frames(file, slack)), 100, 100, 0x5f4d_f327);
    result := rtp.PushStream();
    assert rtp.log == rtp.Open(ds) == ds;
    sent := rtp.sent;
  }

  /** `sendRTPPacket`: plays a file to one client. The packets given to `sendto` hold
      every unit but the last; those that a socket over IPv4 takes do exactly when
      none of these units needs fragments. */
  method SendRTPPacket(file: Bytes, slack: Bytes, sockFd: int, ghost units: seq<Unit>)
    returns (result: int, sent: seq<Bytes>)
    requires |slack| == 3 && 0 < sockFd && Streamable(units) && file == Stream(units)
    ensures result == 0
    ensures AllBegin(sent, 101, 0x5f4d_f327)
    ensures Recovers(ParseAll(sent), units)
    ensures forall k :: 0 <= k < |Accepted(sent)| ==> RTP_HEADER_SIZE <= |Accepted(sent)[k]|
    ensures Recovers(ParseAll(Accepted(sent)), units) <==> Deliverable(units)
  {
    LastUnitUnread(units, slack);
    assert |UnitBytes(units[0])| <= |file|;
    result, sent := Push(file, slack, sockFd);
    WireToNals(units, slack, 100, 100, 0x5f4d_f327);
    AcceptedToNals(units, slack, 100, 100, 0x5f4d_f327);
    PacketsBegin(UnitsOf(Frames(Stream(units), slack)), 100, 100, 0x5f4d_f327);
  }
}
