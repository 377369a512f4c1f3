/**
 code/rtp/rtp.cpp and code/rtp/rtp.h: the RTP fixed header (section 5.1 of
 RFC 3550) and the packets that carry one NAL unit (sections 5.6 and 5.8 of
 RFC 6184).

 Bytes and words are integers within their range. A left shift by n is a
 multiplication by 2^n, a mask of low bits is a remainder, and the source's `|=`
 into bits that a shift or a mask has cleared is an addition.
 */
module RtpPackets {
  import opened AnnexB
  import opened CppInts

  const RTP_VERSION: Byte := 2
  const RTP_HEADER_SIZE: nat := 12
  const RTP_PAYLOAD_TYPE_H264: Byte := 96
  const FU_SIZE: nat := 2
  const MAX_UDP_PACKET_SIZE: nat := 65536
  const RTP_MAX_DATA_SIZE: nat := MAX_UDP_PACKET_SIZE - 8 - 20 - RTP_HEADER_SIZE - FU_SIZE
  const RTP_MAX_PACKET_LEN: nat := RTP_MAX_DATA_SIZE + RTP_HEADER_SIZE + FU_SIZE

  type Word = w: int | 0 <= w < 0x1_0000_0000
  type HalfWord = w: int | 0 <= w < 0x1_0000

  datatype Header = Header(version: Byte, padding: Byte, extension: Byte, csrcCount: Byte, marker: Byte,
                           payloadType: Byte, seqNo: HalfWord, timestamp: Word, ssrc: Word)

  /** The bits of each field that the wire format has room for. */
  function Fitted(h: Header): Header {
    h.(version := h.version % 4, padding := h.padding % 2, extension := h.extension % 2,
       csrcCount := h.csrcCount % 16, marker := h.marker % 2, payloadType := h.payloadType % 128)
  }

  /** The bytes of a word in memory after `htonl`. */
  function WordBytes(w: Word): (b: Bytes)
    ensures |b| == 4
  {
    [w / 256 / 256 / 256, w / 256 / 256 % 256, w / 256 % 256, w % 256]
  }

  function WordOf(b: Bytes): Word
    requires |b| == 4
  {
    var high, low := b[0] as int * 256 + b[1], b[2] as int * 256 + b[3];
    high * 0x1_0000 + low
  }

  /** The fields of the fixed header, as RFC 3550 draws them on three words: the
      low half of the first is the sequence number; the flags are read upwards. */
  function FieldsOf(w: Word, timestamp: Word, ssrc: Word): Header {
    var flags := w / 0x1_0000;
    var aboveType := flags / 128;
    var aboveMarker := aboveType / 2;
    var aboveCount := aboveMarker / 16;
    var aboveExtension := aboveCount / 2;
    Header(aboveExtension / 2, aboveExtension % 2, aboveCount % 2, aboveMarker % 16, aboveType % 2, flags % 128,
           w % 0x1_0000, timestamp, ssrc)
  }

  /** A receiver's reading of the fixed header. */
  function Decode(b: Bytes): Header
    requires |b| == RTP_HEADER_SIZE
  {
    FieldsOf(WordOf(b[..4]), WordOf(b[4..8]), WordOf(b[8..]))
  }

  /** The first word, packed the way `makeRtpHeader` packs it. */
  function FirstWord(h: Header): Word {
    var w := h.version % 4;
    var w := w * 2 + h.padding % 2;
    var w := w * 2 + h.extension % 2;
    var w := w * 16 + h.csrcCount % 16;
    var w := w * 2 + h.marker % 2;
    var w := w * 128 + h.payloadType % 128;
    w * 0x1_0000 + h.seqNo
  }

  function Encode(h: Header): (b: Bytes)
    ensures |b| == RTP_HEADER_SIZE
  {
    WordBytes(FirstWord(h)) + WordBytes(h.timestamp) + WordBytes(h.ssrc)
  }

  lemma FieldsRoundTrip(h: Header)
    ensures FieldsOf(FirstWord(h), h.timestamp, h.ssrc) == Fitted(h)
  {
    var f := Fitted(h);
    var toExtension := (f.version * 2 + f.padding) * 2 + f.extension;
    var toType := ((toExtension * 16 + f.csrcCount) * 2 + f.marker) * 128 + f.payloadType;
    LowFields(FirstWord(h), toExtension, f.csrcCount, f.marker, f.payloadType, h.seqNo);
    DivMod(toExtension, f.version * 2 + f.padding, f.extension, 2);
    DivMod(f.version * 2 + f.padding, f.version, f.padding, 2);
  }

  lemma LowFields(w: int, high: int, count: int, marker: int, payloadType: int, seqNo: int)
    requires 0 <= count < 16 && 0 <= marker < 2 && 0 <= payloadType < 128 && 0 <= seqNo < 0x1_0000
    requires w == (((high * 16 + count) * 2 + marker) * 128 + payloadType) * 0x1_0000 + seqNo
    ensures w % 0x1_0000 == seqNo && w / 0x1_0000 % 128 == payloadType && w / 0x1_0000 / 128 % 2 == marker
    ensures w / 0x1_0000 / 128 / 2 % 16 == count && w / 0x1_0000 / 128 / 2 / 16 == high
  {
  }

  lemma ThreeWords(w: Word, timestamp: Word, ssrc: Word)
    ensures Decode(WordBytes(w) + WordBytes(timestamp) + WordBytes(ssrc)) == FieldsOf(w, timestamp, ssrc)
  {
  }

  /** A receiver reads back every field of the header. */
  lemma HeaderRoundTrip(h: Header)
    ensures Decode(Encode(h)) == Fitted(h)
  {
    ThreeWords(FirstWord(h), h.timestamp, h.ssrc);
    FieldsRoundTrip(h);
  }

  /** The header `packRTP` puts in front of every packet. */
  function StreamHeader(seqNo: HalfWord, timestamp: Word, ssrc: Word): Header {
    Header(RTP_VERSION, 0, 0, 0, 0, RTP_PAYLOAD_TYPE_H264, seqNo, timestamp, ssrc)
  }

  /** Four bytes from position i on, the high one first. */
  predicate WordAt(b: Bytes, i: nat, w: int)
    requires i + 4 <= |b|
  {
    b[i] as int * 0x100_0000 + b[i + 1] as int * 0x1_0000 + b[i + 2] as int * 0x100 + b[i + 3] == w
  }

  lemma WordBytesAre(w: Word)
    ensures WordAt(WordBytes(w), 0, w)
  {
  }

  /** How a packet of a stream begins: version 2 without padding, extension or sources,
      no marker and payload type 96; the sequence number; the source. */
  predicate BeginsStream(b: Bytes, seqNo: int, ssrc: int)
    requires RTP_HEADER_SIZE <= |b|
  {
    b[0] == 0x80 && b[1] == 0x60 && b[2] as int * 256 + b[3] == seqNo && WordAt(b, 8, ssrc)
  }

  lemma FirstBytes(b: Bytes, seqNo: HalfWord)
    requires 4 <= |b| && WordAt(b, 0, 0x8060_0000 + seqNo)
    ensures b[0] == 0x80 && b[1] == 0x60 && b[2] as int * 256 + b[3] == seqNo
  {
  }

  lemma StreamFirstWord(seqNo: HalfWord, timestamp: Word, ssrc: Word)
    ensures FirstWord(StreamHeader(seqNo, timestamp, ssrc)) == 0x8060_0000 + seqNo
  {
  }

  lemma StreamHeaderBytes(seqNo: HalfWord, timestamp: Word, ssrc: Word)
    ensures var b := Encode(StreamHeader(seqNo, timestamp, ssrc));
            BeginsStream(b, seqNo, ssrc) && WordAt(b, 4, timestamp)
  {
    var h := StreamHeader(seqNo, timestamp, ssrc);
    var u, v, w := WordBytes(FirstWord(h)), WordBytes(timestamp), WordBytes(ssrc);
    StreamFirstWord(seqNo, timestamp, ssrc);
    WordBytesAre(FirstWord(h));
    WordBytesAre(timestamp);
    WordBytesAre(ssrc);
    FirstBytes(u, seqNo);
    var b := Encode(h);
    assert b[0] == u[0] && b[1] == u[1] && b[2] == u[2] && b[3] == u[3];
    assert b[4] == v[0] && b[5] == v[1] && b[6] == v[2] && b[7] == v[3];
    assert b[8] == w[0] && b[9] == w[1] && b[10] == w[2] && b[11] == w[3];
  }

  datatype Datagram = Datagram(header: Header, payload: Bytes)

  /** The bytes that go to `sendto`. */
  function Wire(d: Datagram): Bytes {
    Encode(d.header) + d.payload
  }

  /** A receiver's reading of a datagram. */
  function Parse(b: Bytes): Datagram
    requires RTP_HEADER_SIZE <= |b|
  {
    Datagram(Decode(b[..RTP_HEADER_SIZE]), b[RTP_HEADER_SIZE..])
  }

  lemma WireRoundTrip(d: Datagram)
    requires d.header == Fitted(d.header)
    ensures |Wire(d)| == RTP_HEADER_SIZE + |d.payload| && Parse(Wire(d)) == d
  {
    HeaderRoundTrip(d.header);
    assert Wire(d)[..RTP_HEADER_SIZE] == Encode(d.header);
  }

  // The NAL unit header byte: F and NRI in the high three bits, the type in the
  // low five. FU-A packets carry type 28 in the FU indicator and the unit's own
  // type in the FU header, under the S, E and R bits.

  const FU_A: Byte := 28
  const FU_S_MASK: Byte := 0x80
  const FU_E_MASK: Byte := 0x40

  function HighBits(b: Byte): Byte {
    b / 32 * 32
  }

  function TypeBits(b: Byte): Byte {
    b % 32
  }

  /** The arithmetic above is what the source's masks 0xE0, 0x1F, 0x1C and 0x40 do. */
  lemma MasksAreArithmetic(b: bv8, c: bv8)
    ensures ((b & 0xE0) | 0x1C) as int == HighBits(b as int) + FU_A
    ensures ((b & 0x1F) | 0x40) as int == TypeBits(b as int) + FU_E_MASK
    ensures ((b & 0xE0) | (c & 0x1F)) as int == HighBits(b as int) + TypeBits(c as int)
  {
  }

  predicate HasS(fuHeader: Byte) {
    fuHeader / 128 == 1
  }

  predicate HasE(fuHeader: Byte) {
    fuHeader / 64 % 2 == 1
  }

  function FragmentSize(nal: Bytes, pos: nat): nat
    requires pos <= |nal|
  {
    if |nal| - pos < RTP_MAX_DATA_SIZE then |nal| - pos else RTP_MAX_DATA_SIZE
  }

  /** The FU indicator and the FU header. The S and E bits that the fragment loop
      sets are overwritten right after, so only the fragment sent behind the loop,
      the one that is not full, has a bit left: E. */
  function FuBytes(first: Byte, full: bool): (fu: Bytes)
    ensures |fu| == FU_SIZE
  {
    [HighBits(first) + FU_A, TypeBits(first) + (if full then 0 else FU_E_MASK)]
  }

  /** The payload of the fragment at `pos`. */
  function Fragment(nal: Bytes, pos: nat): Bytes
    requires 0 < pos < |nal|
  {
    FuBytes(nal[0], RTP_MAX_DATA_SIZE <= |nal| - pos) + nal[pos..pos + FragmentSize(nal, pos)]
  }

  function Fragments(nal: Bytes, pos: nat): seq<Bytes>
    requires 0 < pos <= |nal|
    decreases |nal| - pos
  {
    if pos == |nal| then [] else [Fragment(nal, pos)] + Fragments(nal, pos + FragmentSize(nal, pos))
  }

  /** The payloads that carry one NAL unit. */
  function Payloads(nal: Bytes): seq<Bytes> {
    if |nal| <= RTP_MAX_DATA_SIZE then [nal] else Fragments(nal, 1)
  }

  // ---------- what the fragments amount to ----------

  /** The NAL unit that consecutive payloads carry, put together as section 5.8 of
      RFC 6184 says, but going by the packets' grouping and not by S and E. */
  function Rebuild(payloads: seq<Bytes>): Bytes
    requires payloads != []
  {
    if |payloads[0]| < FU_SIZE || TypeBits(payloads[0][0]) != FU_A then payloads[0]
    else [HighBits(payloads[0][0]) + TypeBits(payloads[0][1])] + FragmentBytes(payloads)
  }

  function FragmentBytes(payloads: seq<Bytes>): Bytes {
    if payloads == [] then []
    else (if |payloads[0]| < FU_SIZE then [] else payloads[0][FU_SIZE..]) + FragmentBytes(payloads[1..])
  }

  /** A NAL unit a receiver can tell from a fragment: it is sent as fragments, or
      its type is not FU-A's own. */
  predicate Carried(nal: Bytes) {
    |nal| > RTP_MAX_DATA_SIZE || |nal| < FU_SIZE || TypeBits(nal[0]) != FU_A
  }

  lemma {:induction false} FragmentsTile(nal: Bytes, pos: nat)
    requires 0 < pos <= |nal|
    ensures FragmentBytes(Fragments(nal, pos)) == nal[pos..]
    decreases |nal| - pos
  {
    if pos < |nal| {
      var n := FragmentSize(nal, pos);
      var later := Fragments(nal, pos + n);
      FragmentsTile(nal, pos + n);
      assert ([Fragment(nal, pos)] + later)[1..] == later;
      assert Fragment(nal, pos)[FU_SIZE..] == nal[pos..pos + n];
      assert nal[pos..] == nal[pos..pos + n] + nal[pos + n..];
    }
  }

  /** Taking a NAL unit apart and putting it together gives it back, header byte
      included, exactly when it can be told from a fragment. */
  lemma PayloadsRoundTrip(nal: Bytes)
    ensures Payloads(nal) != []
    ensures Carried(nal) <==> Rebuild(Payloads(nal)) == nal
  {
    if |nal| > RTP_MAX_DATA_SIZE {
      FragmentsRoundTrip(nal);
    } else if !Carried(nal) {
      MistakenForFragment(nal);
    }
  }

  lemma FragmentsRoundTrip(nal: Bytes)
    requires 1 < |nal|
    ensures Fragments(nal, 1) != [] && Rebuild(Fragments(nal, 1)) == nal
  {
    FragmentsTile(nal, 1);
    FirstFragment(nal);
    RebuildFrom(Fragments(nal, 1), nal[0], nal[1..]);
    assert nal == [nal[0]] + nal[1..];
  }

  lemma FirstFragment(nal: Bytes)
    requires 1 < |nal|
    ensures var ps := Fragments(nal, 1);
            && ps != [] && FU_SIZE <= |ps[0]| && TypeBits(ps[0][0]) == FU_A
            && HighBits(ps[0][0]) == HighBits(nal[0]) && TypeBits(ps[0][1]) == TypeBits(nal[0])
  {
  }

  lemma RebuildFrom(payloads: seq<Bytes>, first: Byte, tail: Bytes)
    requires payloads != [] && FU_SIZE <= |payloads[0]| && TypeBits(payloads[0][0]) == FU_A
    requires HighBits(payloads[0][0]) == HighBits(first) && TypeBits(payloads[0][1]) == TypeBits(first)
    requires FragmentBytes(payloads) == tail
    ensures Rebuild(payloads) == [first] + tail
  {
  }

  /** A whole NAL unit of type 28 comes out one byte short. */
  lemma MistakenForFragment(nal: Bytes)
    requires FU_SIZE <= |nal| && TypeBits(nal[0]) == FU_A
    ensures |Rebuild([nal])| == |nal| - 1
  {
    assert [nal][1..] == [];
    assert FragmentBytes([nal]) == nal[FU_SIZE..] + [];
  }

  /** Fragment `k` of a unit begins k full fragments behind its header byte. */
  lemma {:induction false} NthFragment(nal: Bytes, pos: nat, k: nat)
    requires 0 < pos <= |nal| && k < |Fragments(nal, pos)|
    ensures pos + k * RTP_MAX_DATA_SIZE < |nal|
    ensures Fragments(nal, pos)[k] == Fragment(nal, pos + k * RTP_MAX_DATA_SIZE)
    decreases k
  {
    if k > 0 {
      var next := pos + FragmentSize(nal, pos);
      assert Fragments(nal, pos)[k] == Fragments(nal, next)[k - 1];
      NthFragment(nal, next, k - 1);
      assert next == pos + RTP_MAX_DATA_SIZE;
    }
  }

  lemma {:induction false} FragmentCount(nal: Bytes, pos: nat)
    requires 0 < pos <= |nal|
    ensures |Fragments(nal, pos)| == (|nal| - pos + RTP_MAX_DATA_SIZE - 1) / RTP_MAX_DATA_SIZE
    decreases |nal| - pos
  {
    if pos < |nal| {
      FragmentCount(nal, pos + FragmentSize(nal, pos));
    }
  }

  /** The fragment that turn `k` of `pushStream`'s loop sends. */
  function FullFragment(nal: Bytes, k: nat): Bytes
    requires (k + 1) * RTP_MAX_DATA_SIZE < |nal|
  {
    FuBytes(nal[0], true) + nal[1 + k * RTP_MAX_DATA_SIZE..1 + (k + 1) * RTP_MAX_DATA_SIZE]
  }

  function FullFragments(nal: Bytes, n: nat): (payloads: seq<Bytes>)
    requires n * RTP_MAX_DATA_SIZE < |nal|
    ensures |payloads| == n
  {
    if n == 0 then [] else FullFragments(nal, n - 1) + [FullFragment(nal, n - 1)]
  }

  /** The loop's full fragments, and the rest behind them, are the fragments. */
  lemma {:induction false} FragmentsByTurns(nal: Bytes, k: nat, pos: nat)
    requires pos == 1 + k * RTP_MAX_DATA_SIZE && pos <= |nal|
    ensures Fragments(nal, 1) == FullFragments(nal, k) + Fragments(nal, pos)
    decreases k
  {
    if k > 0 {
      var before := pos - RTP_MAX_DATA_SIZE;
      FragmentsByTurns(nal, k - 1, before);
      FullStep(nal, k - 1, before);
    }
  }

  lemma FullStep(nal: Bytes, k: nat, pos: nat)
    requires pos == 1 + k * RTP_MAX_DATA_SIZE && pos + RTP_MAX_DATA_SIZE <= |nal|
    ensures FullFragments(nal, k) + Fragments(nal, pos)
            == FullFragments(nal, k + 1) + Fragments(nal, pos + RTP_MAX_DATA_SIZE)
  {
  }

  /** What remains behind them is sent as one more. */
  lemma LastFragment(nal: Bytes, pos: nat)
    requires 0 < pos <= |nal| && |nal| - pos < RTP_MAX_DATA_SIZE
    ensures Fragments(nal, pos) == if pos == |nal| then [] else [FuBytes(nal[0], false) + nal[pos..]]
  {
    if pos < |nal| {
      assert nal[pos..|nal|] == nal[pos..];
    }
  }

  lemma FragmentBits(nal: Bytes, pos: nat)
    requires 0 < pos < |nal|
    ensures var p := Fragment(nal, pos);
            && |p| == FU_SIZE + FragmentSize(nal, pos)
            && p[0] == nal[0] / 32 * 32 + 28
            && p[1] == nal[0] % 32 + (if |nal| - pos < RTP_MAX_DATA_SIZE then 0x40 else 0)
            && HighBits(p[0]) == HighBits(nal[0]) && TypeBits(p[0]) == FU_A && TypeBits(p[1]) == TypeBits(nal[0])
            && !HasS(p[1]) && (HasE(p[1]) <==> |nal| - pos < RTP_MAX_DATA_SIZE)
  {
  }

  /** The fragments of a unit: as many as its bytes behind the header byte need,
      each carrying at least one byte and fitting the packet buffer, all but the
      last full. No fragment has S; the last one has E exactly when it is not
      full, and no other has it. So S and E never mark the first and the last
      fragment the way section 5.8 of RFC 6184 asks. */
  lemma FragmentFlags(nal: Bytes, k: nat)
    requires RTP_MAX_DATA_SIZE < |nal| && k < |Payloads(nal)|
    ensures |Payloads(nal)| == (|nal| - 1 + RTP_MAX_DATA_SIZE - 1) / RTP_MAX_DATA_SIZE
    ensures var p := Payloads(nal)[k];
            var last := k == |Payloads(nal)| - 1;
            && FU_SIZE < |p| && RTP_HEADER_SIZE + |p| <= RTP_MAX_PACKET_LEN
            && (!last ==> |p| == FU_SIZE + RTP_MAX_DATA_SIZE)
            && p[0] == nal[0] / 32 * 32 + 28
            && p[1] == nal[0] % 32 + (if last && (|nal| - 1) % RTP_MAX_DATA_SIZE != 0 then 0x40 else 0)
            && HighBits(p[0]) == HighBits(nal[0]) && TypeBits(p[0]) == FU_A && TypeBits(p[1]) == TypeBits(nal[0])
            && !HasS(p[1])
            && (HasE(p[1]) <==> last && (|nal| - 1) % RTP_MAX_DATA_SIZE != 0)
  {
    FragmentCount(nal, 1);
    NthFragment(nal, 1, k);
    var pos := 1 + k * RTP_MAX_DATA_SIZE;
    FragmentBits(nal, pos);
    LastByRemainder(|nal| - 1, k, |Payloads(nal)|);
  }

  /** A unit of up to 65494 bytes is one packet, and it is the unit; a longer one takes
      a packet for every 65494 bytes behind its first. */
  lemma PayloadCount(nal: Bytes)
    ensures |nal| <= 65494 ==> Payloads(nal) == [nal]
    ensures |nal| > 65494 ==> |Payloads(nal)| == (|nal| - 1 + 65493) / 65494
  {
    if |nal| > 65494 {
      FragmentCount(nal, 1);
    }
  }

  lemma LastByRemainder(size: nat, k: nat, count: nat)
    requires count == (size + RTP_MAX_DATA_SIZE - 1) / RTP_MAX_DATA_SIZE && k < count
    ensures size - k * RTP_MAX_DATA_SIZE < RTP_MAX_DATA_SIZE
            <==> k == count - 1 && size % RTP_MAX_DATA_SIZE != 0
    ensures k < count - 1 ==> RTP_MAX_DATA_SIZE <= size - k * RTP_MAX_DATA_SIZE
  {
  }
}
