/**
 A receiver that goes by the S and E bits of the FU headers, as section 5.8 of
 RFC 6184 has it: a fragmented unit begins at S and is complete at E. `pushStream`
 never sends S, so such a receiver gets the units that need no fragments, and no
 others.
 */
module RtpFlags {
  import opened Options
  import opened AnnexB
  import opened RtpPackets
  import opened RtpStreams

  predicate IsFragment(payload: Bytes) {
    FU_SIZE <= |payload| && TypeBits(payload[0]) == FU_A
  }

  /** The units made of these payloads; `partial` is the one being collected. */
  function ByFlags(payloads: seq<Bytes>, partial: Option<Bytes>): seq<Bytes>
    decreases |payloads|
  {
    if payloads == [] then []
    else
      var p, later := payloads[0], payloads[1..];
      if !IsFragment(p) then [p] + ByFlags(later, None)
      else
        var begun: Option<Bytes> := if HasS(p[1]) then Some([HighBits(p[0]) + TypeBits(p[1])]) else partial;
        match begun
        case None => ByFlags(later, None)
        case Some(nal) =>
          var nal' := nal + p[FU_SIZE..];
          if HasE(p[1]) then [nal'] + ByFlags(later, None) else ByFlags(later, Some(nal'))
  }

  /** Fragments as section 5.8 asks for them: S on the first, E on the last. */
  function Flagged(first: Byte, chunks: seq<Bytes>, start: bool): seq<Bytes> {
    if chunks == [] then []
    else
      var fu := first % 32 + (if start then 0x80 else 0) + (if |chunks| == 1 then 0x40 else 0);
      [[first / 32 * 32 + 28, fu] + chunks[0]] + Flagged(first, chunks[1..], false)
  }

  lemma FlaggedFirst(first: Byte, chunks: seq<Bytes>, start: bool)
    requires chunks != []
    ensures var p := Flagged(first, chunks, start)[0];
            && IsFragment(p) && HighBits(p[0]) + TypeBits(p[1]) == first && p[FU_SIZE..] == chunks[0]
            && (HasS(p[1]) <==> start) && (HasE(p[1]) <==> |chunks| == 1)
    ensures Flagged(first, chunks, start)[1..] == Flagged(first, chunks[1..], false)
  {
  }

  lemma {:induction false} FlaggedGoesOn(first: Byte, chunks: seq<Bytes>, partial: Bytes)
    requires chunks != []
    ensures ByFlags(Flagged(first, chunks, false), Some(partial)) == [partial + Concat(chunks)]
    decreases |chunks|
  {
    FlaggedFirst(first, chunks, false);
    ConcatFirst(chunks);
    if |chunks| == 1 {
      assert chunks[1..] == [] && Concat(chunks[1..]) == [];
      assert partial + chunks[0] == partial + Concat(chunks);
    } else {
      FlaggedGoesOn(first, chunks[1..], partial + chunks[0]);
      assert partial + chunks[0] + Concat(chunks[1..]) == partial + Concat(chunks);
    }
  }

  /** Of fragments flagged like that the receiver does make the unit. */
  lemma FlaggedIsReceived(first: Byte, chunks: seq<Bytes>, partial: Option<Bytes>)
    requires 2 <= |chunks|
    ensures ByFlags(Flagged(first, chunks, true), partial) == [[first] + Concat(chunks)]
  {
    FlaggedFirst(first, chunks, true);
    FlaggedGoesOn(first, chunks[1..], [first] + chunks[0]);
    ConcatFirst(chunks);
    assert [first] + chunks[0] + Concat(chunks[1..]) == [first] + Concat(chunks);
  }

  /** All payloads of a list of units, and those of the units that need no fragments. */
  function All(nals: seq<Bytes>): seq<Bytes> {
    if nals == [] then [] else Payloads(nals[0]) + All(nals[1..])
  }

  function Whole(nals: seq<Bytes>): seq<Bytes> {
    if nals == [] then []
    else (if |nals[0]| <= RTP_MAX_DATA_SIZE then [nals[0]] else []) + Whole(nals[1..])
  }

  lemma {:induction false} FragmentsSkipped(fragments: seq<Bytes>, later: seq<Bytes>)
    requires forall p :: p in fragments ==> IsFragment(p) && !HasS(p[1])
    ensures ByFlags(fragments + later, None) == ByFlags(later, None)
    decreases |fragments|
  {
    if fragments == [] {
      assert fragments + later == later;
    } else {
      assert (fragments + later)[0] == fragments[0] && (fragments + later)[1..] == fragments[1..] + later;
      FragmentsSkipped(fragments[1..], later);
    }
  }

  lemma NoneStarts(nal: Bytes)
    requires RTP_MAX_DATA_SIZE < |nal|
    ensures forall p :: p in Payloads(nal) ==> IsFragment(p) && !HasS(p[1])
  {
    forall k | 0 <= k < |Payloads(nal)| ensures IsFragment(Payloads(nal)[k]) && !HasS(Payloads(nal)[k][1]) {
      FragmentFlags(nal, k);
    }
  }

  /** Such a receiver gets exactly the units that need no fragments. */
  lemma {:induction false} ByFlagsGetsWhole(nals: seq<Bytes>)
    requires forall nal :: nal in nals ==> Carried(nal)
    ensures ByFlags(All(nals), None) == Whole(nals)
    decreases |nals|
  {
    if nals != [] {
      var nal, later := nals[0], All(nals[1..]);
      ByFlagsGetsWhole(nals[1..]);
      if |nal| <= RTP_MAX_DATA_SIZE {
        assert All(nals) == [nal] + later && ([nal] + later)[1..] == later;
        assert nal in nals;
      } else {
        NoneStarts(nal);
        FragmentsSkipped(Payloads(nal), later);
      }
    }
  }

  /** So it gets them all exactly when none needs fragments. */
  lemma {:induction false} WholeIff(nals: seq<Bytes>)
    ensures |Whole(nals)| <= |nals|
    ensures Whole(nals) == nals <==> forall i :: 0 <= i < |nals| ==> |nals[i]| <= RTP_MAX_DATA_SIZE
  {
    if nals != [] {
      WholeIff(nals[1..]);
      assert nals == [nals[0]] + nals[1..];
      if RTP_MAX_DATA_SIZE < |nals[0]| {
        assert |Whole(nals)| < |nals|;
      } else {
        assert Whole(nals)[1..] == Whole(nals[1..]);
        assert forall i :: 1 <= i < |nals| ==> nals[i] == nals[1..][i - 1];
      }
    }
  }

  lemma PayloadsSplit(a: seq<Datagram>, b: seq<Datagram>)
    ensures PayloadsOf(a + b) == PayloadsOf(a) + PayloadsOf(b)
  {
  }

  /** The payloads of a stream are those of its units, in order. */
  lemma {:induction false} StreamPayloads(units: seq<seq<Bytes>>, nals: seq<Bytes>, seqNo: HalfWord, timestamp: Word,
                                          ssrc: Word)
    requires |units| == |nals| && forall i :: 0 <= i < |nals| ==> units[i] == Payloads(nals[i])
    ensures PayloadsOf(StreamOf(units, seqNo, timestamp, ssrc)) == All(nals)
    decreases |units|
  {
    if units != [] {
      var t, n := NextStamp(timestamp), |units[0]|;
      StreamPayloads(units[1..], nals[1..], After(seqNo, n), t, ssrc);
      var run, later := Numbered(units[0], seqNo, t, ssrc), StreamOf(units[1..], After(seqNo, n), t, ssrc);
      assert PayloadsOf(run) == units[0];
      PayloadsSplit(run, later);
    }
  }
}
