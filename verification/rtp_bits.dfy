/**
 The shifts, masks and `|=` of `makeRtpHeader` (code/rtp/rtp.cpp) on machine words,
 and the integers that the rest of the model computes with.
 */
module RtpBits {
  import opened RtpPackets

  /** The flags of the header, in the high half of the source's word. */
  function PackedFlags(version: bv8, padding: bv8, extension: bv8, csrcCount: bv8, marker: bv8, payloadType: bv8): bv16 {
    var w := (version & 0x3) as bv16;
    var w := (w << 1) | ((padding & 0x1) as bv16);
    var w := (w << 1) | ((extension & 0x1) as bv16);
    var w := (w << 4) | ((csrcCount & 0xF) as bv16);
    var w := (w << 1) | ((marker & 0x1) as bv16);
    (w << 7) | ((payloadType & 0x7F) as bv16)
  }

  lemma MaskIs4(c: bv8)
    ensures (c & 0x3) as int == c as int % 4
  {
  }

  lemma MaskIs2(c: bv8)
    ensures (c & 0x1) as int == c as int % 2
  {
  }

  lemma MaskIs16(c: bv8)
    ensures (c & 0xF) as int == c as int % 16
  {
  }

  lemma MaskIs128(c: bv8)
    ensures (c & 0x7F) as int == c as int % 128
  {
  }

  lemma ShiftIs2(w: bv16, x: bv8)
    requires w < 0x100 && x < 2
    ensures ((w << 1) | (x as bv16)) as int == w as int * 2 + x as int
  {
  }

  lemma ShiftIs16(w: bv16, x: bv8)
    requires w < 0x1000 && x < 16
    ensures ((w << 4) | (x as bv16)) as int == w as int * 16 + x as int
  {
  }

  lemma ShiftIs128(w: bv16, x: bv8)
    requires w < 0x200 && x < 128
    ensures ((w << 7) | (x as bv16)) as int == w as int * 128 + x as int
  {
  }

  lemma ShiftIs65536(h: bv16, l: bv16)
    ensures (((h as bv32) << 16) | (l as bv32)) as int == h as int * 0x1_0000 + l as int
  {
  }

  lemma FlagsToExtension(version: bv8, padding: bv8, extension: bv8) returns (w: bv16)
    ensures var v := (version & 0x3) as bv16;
            w == (((v << 1) | ((padding & 0x1) as bv16)) << 1) | ((extension & 0x1) as bv16)
    ensures w < 16 && w as int == (version as int % 4 * 2 + padding as int % 2) * 2 + extension as int % 2
  {
    var v := (version & 0x3) as bv16;
    MaskIs4(version);
    MaskIs2(padding);
    MaskIs2(extension);
    ShiftIs2(v, padding & 0x1);
    var u := (v << 1) | ((padding & 0x1) as bv16);
    ShiftIs2(u, extension & 0x1);
    w := (u << 1) | ((extension & 0x1) as bv16);
  }

  lemma FlagsToMarker(e: bv16, csrcCount: bv8, marker: bv8) returns (w: bv16)
    requires e < 16
    ensures w == (((e << 4) | ((csrcCount & 0xF) as bv16)) << 1) | ((marker & 0x1) as bv16)
    ensures w < 512 && w as int == (e as int * 16 + csrcCount as int % 16) * 2 + marker as int % 2
  {
    MaskIs16(csrcCount);
    MaskIs2(marker);
    ShiftIs16(e, csrcCount & 0xF);
    var u := (e << 4) | ((csrcCount & 0xF) as bv16);
    ShiftIs2(u, marker & 0x1);
    w := (u << 1) | ((marker & 0x1) as bv16);
  }

  lemma FlagsAreArithmetic(version: bv8, padding: bv8, extension: bv8, csrcCount: bv8, marker: bv8, payloadType: bv8)
    ensures PackedFlags(version, padding, extension, csrcCount, marker, payloadType) as int
            == ((((version as int % 4 * 2 + padding as int % 2) * 2 + extension as int % 2) * 16
                 + csrcCount as int % 16) * 2 + marker as int % 2) * 128 + payloadType as int % 128
  {
    var e := FlagsToExtension(version, padding, extension);
    var m := FlagsToMarker(e, csrcCount, marker);
    MaskIs128(payloadType);
    ShiftIs128(m, payloadType & 0x7F);
  }

  /** The source's 32-bit word for the fields of a header. */
  function PackedWord(version: bv8, padding: bv8, extension: bv8, csrcCount: bv8, marker: bv8, payloadType: bv8,
                      seqNo: bv16): bv32 {
    var w := 0 as bv32;
    var w := (w << 2) | ((version & 0x3) as bv32);
    var w := (w << 1) | ((padding & 0x1) as bv32);
    var w := (w << 1) | ((extension & 0x1) as bv32);
    var w := (w << 4) | ((csrcCount & 0xF) as bv32);
    var w := (w << 1) | ((marker & 0x1) as bv32);
    var w := (w << 7) | ((payloadType & 0x7F) as bv32);
    (w << 16) | ((seqNo & 0xFFFF) as bv32)
  }

  lemma SplitWord(version: bv8, padding: bv8, extension: bv8, csrcCount: bv8, marker: bv8, payloadType: bv8,
                  seqNo: bv16)
    returns (word: bv32, flags: bv16)
    ensures word == PackedWord(version, padding, extension, csrcCount, marker, payloadType, seqNo)
    ensures flags == PackedFlags(version, padding, extension, csrcCount, marker, payloadType)
    ensures word == ((flags as bv32) << 16) | (seqNo as bv32)
  {
    word := PackedWord(version, padding, extension, csrcCount, marker, payloadType, seqNo);
    flags := PackedFlags(version, padding, extension, csrcCount, marker, payloadType);
  }

  lemma WordAsInt(version: bv8, padding: bv8, extension: bv8, csrcCount: bv8, marker: bv8, payloadType: bv8,
                  seqNo: bv16, flags: bv16)
    returns (word: bv32)
    requires flags == PackedFlags(version, padding, extension, csrcCount, marker, payloadType)
    ensures word == PackedWord(version, padding, extension, csrcCount, marker, payloadType, seqNo)
    ensures word as int == flags as int * 0x1_0000 + seqNo as int
  {
    var f;
    word, f := SplitWord(version, padding, extension, csrcCount, marker, payloadType, seqNo);
    ShiftIs65536(f, seqNo);
  }

  lemma FirstWordIs(h: Header)
    ensures FirstWord(h)
            == (((((h.version % 4 * 2 + h.padding % 2) * 2 + h.extension % 2) * 16 + h.csrcCount % 16) * 2
                 + h.marker % 2) * 128 + h.payloadType % 128) * 0x1_0000 + h.seqNo
  {
  }

  lemma FlagsAndFirstWord(version: bv8, padding: bv8, extension: bv8, csrcCount: bv8, marker: bv8, payloadType: bv8,
                          seqNo: bv16, h: Header)
    returns (flags: bv16)
    requires h == Header(version as int, padding as int, extension as int, csrcCount as int, marker as int,
                         payloadType as int, seqNo as int, 0, 0)
    ensures flags == PackedFlags(version, padding, extension, csrcCount, marker, payloadType)
    ensures flags as int * 0x1_0000 + seqNo as int == FirstWord(h)
  {
    flags := PackedFlags(version, padding, extension, csrcCount, marker, payloadType);
    FlagsAreArithmetic(version, padding, extension, csrcCount, marker, payloadType);
    FirstWordIs(h);
  }

  /** The word that the source shifts together is the one of the model. */
  lemma PackedIsFirstWord(version: bv8, padding: bv8, extension: bv8, csrcCount: bv8, marker: bv8, payloadType: bv8,
                          seqNo: bv16, h: Header)
    requires h == Header(version as int, padding as int, extension as int, csrcCount as int, marker as int,
                         payloadType as int, seqNo as int, 0, 0)
    ensures PackedWord(version, padding, extension, csrcCount, marker, payloadType, seqNo) as int == FirstWord(h)
  {
    var flags := FlagsAndFirstWord(version, padding, extension, csrcCount, marker, payloadType, seqNo, h);
    var word := WordAsInt(version, padding, extension, csrcCount, marker, payloadType, seqNo, flags);
  }
}
