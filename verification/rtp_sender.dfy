/**
 `RTP::packRTP` and `RTP::pushStream` (code/rtp/rtp.cpp): reading frames from the
 parser, filling the packet buffer and sending it. `sendto` is modelled by the
 list of datagrams it was given.
 */
module RtpSender {
  import opened AnnexB
  import opened CppInts
  import opened RtpPackets
  import opened RtpStreams

  /** A frame's bytes behind its start code. */
  function NalOf(frame: Bytes): Bytes
    requires 3 <= |frame|
  {
    if FourAt(frame, 0) then frame[4..] else frame[3..]
  }

  function UnitsOf(frames: seq<Bytes>): (units: seq<seq<Bytes>>)
    requires forall f :: f in frames ==> 3 <= |f|
    ensures |units| == |frames|
    ensures forall i :: 0 <= i < |units| ==> units[i] == Payloads(NalOf(frames[i]))
  {
    seq(|frames|, i requires 0 <= i < |frames| => Payloads(NalOf(frames[i])))
  }

  function WireAll(ds: seq<Datagram>): (packets: seq<Bytes>)
    ensures |packets| == |ds| && forall k :: 0 <= k < |ds| ==> packets[k] == Wire(ds[k])
  {
    seq(|ds|, k requires 0 <= k < |ds| => Wire(ds[k]))
  }

  /** Numbering one payload more. */
  lemma NumberMore(payloads: seq<Bytes>, p: Bytes, seqNo: HalfWord, timestamp: Word, ssrc: Word)
    ensures Numbered(payloads + [p], seqNo, timestamp, ssrc)
            == Numbered(payloads, seqNo, timestamp, ssrc)
               + [Datagram(StreamHeader(NextSeq(After(seqNo, |payloads|)), timestamp, ssrc), p)]
  {
  }

  /** With `rest` of the file unread, `frames` are to come, and the end is the same. */
  ghost predicate Ahead(file: Bytes, rest: Bytes, slack: Bytes, frames: seq<Bytes>) {
    frames == Frames(rest, slack) && Unread(rest, slack) == Unread(file, slack)
    && Ending(rest, slack) == Ending(file, slack)
  }

  /** The stream of a list of frames begins with the packets of the first. */
  lemma StreamStep(frames: seq<Bytes>, seqNo: HalfWord, timestamp: Word, ssrc: Word)
    requires frames != [] && forall f :: f in frames ==> 3 <= |f|
    ensures var payloads := Payloads(NalOf(frames[0]));
            StreamOf(UnitsOf(frames), seqNo, timestamp, ssrc)
            == Numbered(payloads, seqNo, NextStamp(timestamp), ssrc)
               + StreamOf(UnitsOf(frames[1..]), After(seqNo, |payloads|), NextStamp(timestamp), ssrc)
  {
    assert UnitsOf(frames)[1..] == UnitsOf(frames[1..]);
  }

  /** Storing over the two zero bytes in front of `src`. */
  lemma OverwriteFu(h: Header, src: Bytes, fu: Bytes)
    requires |fu| == FU_SIZE
    ensures var packed := Wire(Datagram(h, [0, 0] + src));
            packed[..RTP_HEADER_SIZE] + fu + packed[RTP_HEADER_SIZE + FU_SIZE..] == Wire(Datagram(h, fu + src))
  {
  }

  class RTP {
    var rtpSockFd: int
    var seqNo: HalfWord
    var timestamp: Word
    var ssrc: Word
    const parser: H264Parser
    /** What `sendto` was given, in order, and the datagrams those bytes are. */
    var sent: seq<Bytes>
    ghost var log: seq<Datagram>

    ghost predicate Valid()
      reads this
    {
      sent == WireAll(log)
    }

    constructor (parser: H264Parser)
      ensures this.parser == parser && Valid() && log == []
    {
      rtpSockFd, seqNo, timestamp, ssrc, sent, log := -1, 0, 0, 0, [], [];
      this.parser := parser;
    }

    /** `init`, whose socket call is the parameter. */
    method Init(sockFd: int)
      requires Valid()
      modifies this
      ensures rtpSockFd == sockFd && seqNo == 100 && timestamp == 100 && ssrc == 0x5f4d_f327
      ensures Valid() && log == old(log)
    {
      rtpSockFd := sockFd;
      seqNo := 100;
      timestamp := 100;
      ssrc := 0x5f4d_f327;
    }

    /** `ds`, if there is an open socket to send it on. */
    ghost function Open(ds: seq<Datagram>): seq<Datagram>
      reads this`rtpSockFd
    {
      if rtpSockFd > 0 then ds else []
    }

    lemma LogMore(was: seq<Datagram>, a: seq<Datagram>, b: seq<Datagram>)
      ensures was + Open(a) + Open(b) == was + Open(a + b)
    {
    }

    /** `sendto`; without an open socket nothing goes out. */
    method SendTo(data: Bytes, ghost d: Datagram)
      requires Valid() && data == Wire(d)
      modifies this`sent, this`log
      ensures Valid() && log == old(log) + Open([d])
    {
      if rtpSockFd > 0 {
        sent := sent + [data];
        log := log + [d];
      }
    }

    /** `makeRtpHeader`: packs the fields into three words and stores them. */
    method MakeRtpHeader(h: Header, rtpData: array<Byte>) returns (size: nat)
      requires RTP_HEADER_SIZE <= rtpData.Length
      modifies rtpData
      ensures size == RTP_HEADER_SIZE && rtpData[..size] == Encode(h)
      ensures rtpData[size..] == old(rtpData[size..])
    {
      var header: int := 0;
      header := header * 4;
      header := header + h.version % 4;
      header := header * 2;
      header := header + h.padding % 2;
      header := header * 2;
      header := header + h.extension % 2;
      header := header * 16;
      header := header + h.csrcCount % 16;
      header := header * 2;
      header := header + h.marker % 2;
      header := header * 128;
      header := header + h.payloadType % 128;
      header := header * 0x1_0000;
      header := header + h.seqNo;
      assert header == FirstWord(h);
      StoreWord(rtpData, 0, header);
      StoreWord(rtpData, 4, h.timestamp);
      StoreWord(rtpData, 8, h.ssrc);
      size := 12;
      assert rtpData[..12] == rtpData[..4] + rtpData[4..8] + rtpData[8..12];
    }

    /** `htonl` and a four-byte `memmove`. */
    method StoreWord(rtpData: array<Byte>, at: nat, w: Word)
      requires at + 4 <= rtpData.Length
      modifies rtpData
      ensures rtpData[..at] == old(rtpData[..at]) && rtpData[at + 4..] == old(rtpData[at + 4..])
      ensures rtpData[at..at + 4] == WordBytes(w)
    {
      var b := WordBytes(w);
      rtpData[at] := b[0];
      rtpData[at + 1] := b[1];
      rtpData[at + 2] := b[2];
      rtpData[at + 3] := b[3];
    }

    /** Fills the front of `dest` with one packet: the bytes there before do not
        matter. In a group the two FU bytes are left zero. */
    method PackRTP(dest: array<Byte>, src: Bytes, isGroup: bool) returns (size: nat)
      requires dest.Length == RTP_MAX_PACKET_LEN && |src| <= RTP_MAX_DATA_SIZE
      modifies this`seqNo, dest
      ensures seqNo == NextSeq(old(seqNo))
      ensures size == RTP_HEADER_SIZE + (if isGroup then FU_SIZE else 0) + |src| <= dest.Length
      ensures dest[..size]
              == Wire(Datagram(StreamHeader(seqNo, timestamp, ssrc), if isGroup then [0, 0] + src else src))
    {
      seqNo := NextSeq(seqNo);
      size := MakeRtpHeader(StreamHeader(seqNo, timestamp, ssrc), dest);
      ghost var header := dest[..RTP_HEADER_SIZE];
      if !isGroup {
        CopyTo(dest, size, src);
        return size + |src|;
      }
      dest[size] := 0;
      dest[size + 1] := 0;
      size := size + FU_SIZE;
      assert dest[..size] == header + [0, 0];
      CopyTo(dest, size, src);
      size := size + |src|;
      assert dest[..size] == header + ([0, 0] + src);
    }

    /** `memcpy`. */
    method CopyTo(dest: array<Byte>, at: nat, src: Bytes)
      requires at + |src| <= dest.Length
      modifies dest
      ensures dest[..at + |src|] == old(dest[..at]) + src
    {
      var i := 0;
      while i < |src|
        invariant 0 <= i <= |src|
        invariant dest[..at + i] == old(dest[..at]) + src[..i]
      {
        dest[at + i] := src[i];
        i := i + 1;
      }
    }

    /** The two stores of `temData`, after the flag the source sets first, if any. */
    method StoreFu(rtpData: array<Byte>, first: Byte, early: Byte, full: bool)
      requires RTP_HEADER_SIZE + FU_SIZE <= rtpData.Length
      modifies rtpData
      ensures rtpData[..] == old(rtpData[..RTP_HEADER_SIZE]) + FuBytes(first, full)
                             + old(rtpData[RTP_HEADER_SIZE + FU_SIZE..])
    {
      rtpData[RTP_HEADER_SIZE + 1] := early;
      rtpData[RTP_HEADER_SIZE] := HighBits(first) + FU_A;
      rtpData[RTP_HEADER_SIZE + 1] := TypeBits(first) + if full then 0 else FU_E_MASK;
    }

    /** Packs one fragment and gives it its FU bytes. */
    method FillFragment(rtpData: array<Byte>, first: Byte, src: Bytes, early: Byte, full: bool) returns (size: nat)
      requires rtpData.Length == RTP_MAX_PACKET_LEN && |src| <= RTP_MAX_DATA_SIZE
      modifies this`seqNo, rtpData
      ensures seqNo == NextSeq(old(seqNo)) && size <= rtpData.Length
      ensures rtpData[..size] == Wire(Datagram(StreamHeader(seqNo, timestamp, ssrc), FuBytes(first, full) + src))
    {
      size := PackRTP(rtpData, src, true);
      ghost var packed := rtpData[..size];
      StoreFu(rtpData, first, early, full);
      OverwriteFu(StreamHeader(seqNo, timestamp, ssrc), src, FuBytes(first, full));
      assert rtpData[..size] == packed[..RTP_HEADER_SIZE] + FuBytes(first, full) + packed[RTP_HEADER_SIZE + FU_SIZE..];
    }

    /** One fragment: packed, sent, and wiped from the buffer. It is the next behind
        the payloads `before`, which have been sent since the log was `log0`. */
    method SendFragment(rtpData: array<Byte>, first: Byte, src: Bytes, early: Byte, full: bool,
                        ghost before: seq<Bytes>, ghost seqNo0: HalfWord, ghost log0: seq<Datagram>)
      requires Valid() && rtpData.Length == RTP_MAX_PACKET_LEN && |src| <= RTP_MAX_DATA_SIZE
      requires seqNo == After(seqNo0, |before|) && log == log0 + Open(Numbered(before, seqNo0, timestamp, ssrc))
      modifies this`seqNo, this`sent, this`log, rtpData
      ensures Valid() && seqNo == After(seqNo0, |before| + 1)
      ensures log == log0 + Open(Numbered(before + [FuBytes(first, full) + src], seqNo0, timestamp, ssrc))
    {
      ghost var p := FuBytes(first, full) + src;
      NumberMore(before, p, seqNo0, timestamp, ssrc);
      var size := FillFragment(rtpData, first, src, early, full);
      ghost var d := Datagram(StreamHeader(seqNo, timestamp, ssrc), p);
      if rtpSockFd > 0 {
        SendTo(rtpData[..size], d);
        forall i | 0 <= i < rtpData.Length {
          rtpData[i] := 0;
        }
      }
      LogMore(log0, Numbered(before, seqNo0, timestamp, ssrc), [d]);
    }

    /** Turn `i` of the fragment loop, `pos` bytes into the unit. */
    method SendTurn(rtpData: array<Byte>, nal: Bytes, i: nat, pos: nat, packetNum: nat, remain: nat,
                    ghost seqNo0: HalfWord, ghost log0: seq<Datagram>)
      requires Valid() && rtpData.Length == RTP_MAX_PACKET_LEN
      requires i < packetNum && pos == 1 + i * RTP_MAX_DATA_SIZE && pos + RTP_MAX_DATA_SIZE <= |nal|
      requires seqNo == After(seqNo0, i)
      requires log == log0 + Open(Numbered(FullFragments(nal, i), seqNo0, timestamp, ssrc))
      modifies this`seqNo, this`sent, this`log, rtpData
      ensures Valid() && seqNo == After(seqNo0, i + 1)
      ensures log == log0 + Open(Numbered(FullFragments(nal, i + 1), seqNo0, timestamp, ssrc))
    {
      var early := if i == 0 then FU_S_MASK else if i == packetNum - 1 && remain == 0 then FU_E_MASK else 0;
      var src := nal[pos..pos + RTP_MAX_DATA_SIZE];
      ghost var before := FullFragments(nal, i);
      assert FullFragments(nal, i + 1) == before + [FuBytes(nal[0], true) + src];
      SendFragment(rtpData, nal[0], src, early, true, before, seqNo0, log0);
    }

    /** The fragment loop of `pushStream`. */
    method SendFullFragments(rtpData: array<Byte>, nal: Bytes, packetNum: nat, remain: nat)
      requires Valid() && rtpData.Length == RTP_MAX_PACKET_LEN
      requires |nal| - 1 == packetNum * RTP_MAX_DATA_SIZE + remain
      modifies this`seqNo, this`sent, this`log, rtpData
      ensures Valid() && seqNo == After(old(seqNo), packetNum)
      ensures log == old(log) + Open(Numbered(FullFragments(nal, packetNum), old(seqNo), timestamp, ssrc))
    {
      var i, pos := 0, 1;
      while i < packetNum
        invariant 0 <= i <= packetNum && pos == 1 + i * RTP_MAX_DATA_SIZE
        invariant Valid() && seqNo == After(old(seqNo), i)
        invariant log == old(log) + Open(Numbered(FullFragments(nal, i), old(seqNo), timestamp, ssrc))
      {
        SendTurn(rtpData, nal, i, pos, packetNum, remain, old(seqNo), old(log));
        pos := pos + RTP_MAX_DATA_SIZE;
        i := i + 1;
      }
    }

    /** A unit that needs fragments: full ones, then what remains. */
    method SendFragmented(rtpData: array<Byte>, nal: Bytes, packetNum: nat, remain: nat)
      requires Valid() && rtpData.Length == RTP_MAX_PACKET_LEN && 0 < packetNum && remain < RTP_MAX_DATA_SIZE
      requires |nal| - 1 == packetNum * RTP_MAX_DATA_SIZE + remain
      modifies this`seqNo, this`sent, this`log, rtpData
      ensures Valid() && seqNo == After(old(seqNo), |Fragments(nal, 1)|)
      ensures log == old(log) + Open(Numbered(Fragments(nal, 1), old(seqNo), timestamp, ssrc))
    {
      var pos := 1 + packetNum * RTP_MAX_DATA_SIZE;
      FragmentsByTurns(nal, packetNum, pos);
      LastFragment(nal, pos);
      SendFullFragments(rtpData, nal, packetNum, remain);
      ghost var full := FullFragments(nal, packetNum);
      if remain > 0 {
        SendFragment(rtpData, nal[0], nal[pos..], 0, false, full, old(seqNo), old(log));
      } else {
        assert full + [] == full;
      }
    }

    /** The body of `pushStream`'s loop for one NAL unit: a single packet or fragments. */
    method SendNal(nal: Bytes)
      requires Valid()
      modifies this`seqNo, this`timestamp, this`sent, this`log
      ensures Valid() && timestamp == NextStamp(old(timestamp))
      ensures seqNo == After(old(seqNo), |Payloads(nal)|)
      ensures log == old(log) + Open(Numbered(Payloads(nal), old(seqNo), timestamp, ssrc))
    {
      var rtpData := new Byte[RTP_MAX_PACKET_LEN](_ => 0);
      var packetNum := TruncDiv(|nal| - 1, RTP_MAX_DATA_SIZE);
      var remain := TruncRem(|nal| - 1, RTP_MAX_DATA_SIZE);
      timestamp := NextStamp(timestamp);
      assert packetNum == 0 <==> |nal| <= RTP_MAX_DATA_SIZE;
      if packetNum == 0 {
        NumberMore([], nal, seqNo, timestamp, ssrc);
        var size := PackRTP(rtpData, nal, packetNum > 0);
        SendTo(rtpData[..size], Datagram(StreamHeader(seqNo, timestamp, ssrc), nal));
      } else {
        SendFragmented(rtpData, nal, packetNum, remain);
      }
    }

    /** The loop body of `pushStream` for the first of the frames to come: what is
        in the log and what is still to be sent stay the same together. */
    method SendFrame(frame: Bytes, ghost frames: seq<Bytes>)
      requires Valid() && (forall f :: f in frames ==> 3 <= |f|) && frames != [] && frame == frames[0]
      modifies this`seqNo, this`timestamp, this`sent, this`log
      ensures Valid()
      ensures log + Open(StreamOf(UnitsOf(frames[1..]), seqNo, timestamp, ssrc))
              == old(log) + Open(StreamOf(UnitsOf(frames), old(seqNo), old(timestamp), ssrc))
    {
      StreamStep(frames, seqNo, timestamp, ssrc);
      ghost var ds := Numbered(Payloads(NalOf(frame)), seqNo, NextStamp(timestamp), ssrc);
      SendNal(NalOf(frame));
      LogMore(old(log), ds, StreamOf(UnitsOf(frames[1..]), seqNo, timestamp, ssrc));
    }

    /** One call of the parser: the next frame, or how the file ends. */
    method NextFrame(ghost file: Bytes, ghost frames: seq<Bytes>) returns (size: int, frame: Bytes)
      requires parser.Valid() && Ahead(file, parser.Rest(), parser.Slack(), frames)
      modifies parser
      ensures parser.Valid() && parser.Slack() == old(parser.Slack())
      ensures 0 < size ==> frames != [] && frame == frames[0]
      ensures 0 < size ==> Ahead(file, parser.Rest(), parser.Slack(), frames[1..])
      ensures 0 < size ==> |parser.Rest()| < old(|parser.Rest()|)
      ensures size <= 0 ==> frames == [] && parser.Rest() == Unread(file, parser.Slack())
      ensures size <= 0 ==> (size < 0 <==> Ending(file, parser.Slack()).Malformed?)
    {
      ghost var was := parser.Rest();
      var start;
      start, size := parser.GetNextFrame();
      frame := [];
      if 0 < size {
        frame := parser.mem[start..start + size];
        FramesStep(was, parser.Slack(), size);
      }
    }

    /** Sends frame after frame until the parser has no more. */
    method PushStream() returns (result: int)
      requires Valid() && parser.Valid()
      modifies this`seqNo, this`timestamp, this`sent, this`log, parser
      ensures Valid() && parser.Valid() && parser.Slack() == old(parser.Slack())
      ensures var frames := Frames(old(parser.Rest()), parser.Slack());
              log == old(log) + Open(StreamOf(UnitsOf(frames), old(seqNo), old(timestamp), ssrc))
      ensures parser.Rest() == Unread(old(parser.Rest()), parser.Slack())
      ensures result == if Ending(old(parser.Rest()), parser.Slack()).Malformed? then -1 else 0
    {
      ghost var file := parser.Rest();
      ghost var frames := Frames(file, parser.Slack());
      ghost var goal := log + Open(StreamOf(UnitsOf(frames), seqNo, timestamp, ssrc));
      while true
        invariant Valid() && parser.Valid() && parser.Slack() == old(parser.Slack())
        invariant Ahead(file, parser.Rest(), parser.Slack(), frames)
        invariant log + Open(StreamOf(UnitsOf(frames), seqNo, timestamp, ssrc)) == goal
        decreases |parser.Rest()|
      {
        var size, frame := NextFrame(file, frames);
        if size <= 0 {
          return if size < 0 then -1 else 0;
        }
        SendFrame(frame, frames);
        frames := frames[1..];
      }
    }
  }
}
