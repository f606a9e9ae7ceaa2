/** The packet facts of a metadata record: bytes 88..96 and 96..120. */
module RxPacketProofs {
  import opened Wire
  import opened CsiLayoutProofs
  import opened RxRecords
  import opened RxRecordReader

  /** Field by field, what it takes for a record to hold the packet facts. */
  predicate PacketFields(record: bytes, p: RxPacket)
    requires |record| == 256
  {
    && U16(record, 88) == p.frameControl.GetOr(0) && U16(record, 90) == p.durationId.GetOr(0)
    && U16(record, 92) == p.sequenceControl.GetOr(0) && U16(record, 94) == p.qosControl.GetOr(0)
    && record[96] == PacketTypeCode(p.kind) && record[97] as int == p.subtype.GetOr(255)
    && record[98] == FcsCode(p.fcs) && record[99] == CaptureModeCode(p.captureMode)
    && U16(record, 100) == p.headerLength && AllZero(record[102..104])
    && U32(record, 104) == p.driverPayload.GetOr(0) && U32(record, 108) == p.driverPacket.GetOr(0)
    && U32(record, 112) == p.capturedLength
    && Flags32(record, 116) == PacketFlags(p)
  }

  lemma HeaderWordSlices(record: bytes, p: RxPacket)
    requires |record| == 256 && PacketFits(p)
    ensures record[88..96] == HeaderWordBytes(p) <==>
            && U16(record, 88) == p.frameControl.GetOr(0) && U16(record, 90) == p.durationId.GetOr(0)
            && U16(record, 92) == p.sequenceControl.GetOr(0) && U16(record, 94) == p.qosControl.GetOr(0)
  {
    hide U16, Put16;
    var f, d := Put16(p.frameControl.GetOr(0)), Put16(p.durationId.GetOr(0));
    var s, q := Put16(p.sequenceControl.GetOr(0)), Put16(p.qosControl.GetOr(0));
    SliceSplit(record, 88, 96, f, d + (s + q));
    SliceSplit(record, 90, 96, d, s + q);
    SliceSplit(record, 92, 96, s, q);
    Word16(record, 88, p.frameControl.GetOr(0));
    Word16(record, 90, p.durationId.GetOr(0));
    Word16(record, 92, p.sequenceControl.GetOr(0));
    Word16(record, 94, p.qosControl.GetOr(0));
  }

  lemma EnumSlices(record: bytes, p: RxPacket)
    requires |record| == 256 && PacketFits(p)
    ensures record[96..100] == PacketEnumBytes(p) <==>
            && record[96] == PacketTypeCode(p.kind) && record[97] as int == p.subtype.GetOr(255)
            && record[98] == FcsCode(p.fcs) && record[99] == CaptureModeCode(p.captureMode)
  {
    hide PacketTypeCode, FcsCode, CaptureModeCode;
    var b := record[96..100];
    assert b[0] == record[96] && b[1] == record[97] && b[2] == record[98] && b[3] == record[99];
  }

  lemma ReportSlices(record: bytes, p: RxPacket)
    requires |record| == 256 && PacketFits(p)
    ensures record[104..120] == Put32(p.driverPayload.GetOr(0))
                                + (Put32(p.driverPacket.GetOr(0)) + (Put32(p.capturedLength) + PutFlags32(PacketFlags(p))))
            <==>
            && U32(record, 104) == p.driverPayload.GetOr(0) && U32(record, 108) == p.driverPacket.GetOr(0)
            && U32(record, 112) == p.capturedLength && Flags32(record, 116) == PacketFlags(p)
  {
    hide U32, Put32, Flags32, PutFlags32, PacketFlags;
    var a, b, c := Put32(p.driverPayload.GetOr(0)), Put32(p.driverPacket.GetOr(0)), Put32(p.capturedLength);
    var f := PutFlags32(PacketFlags(p));
    SliceSplit(record, 104, 120, a, b + (c + f));
    SliceSplit(record, 108, 120, b, c + f);
    SliceSplit(record, 112, 120, c, f);
    Word32(record, 104, p.driverPayload.GetOr(0));
    Word32(record, 108, p.driverPacket.GetOr(0));
    Word32(record, 112, p.capturedLength);
    FlagWord32(record, 116, PacketFlags(p));
  }

  lemma PacketSlices(record: bytes, p: RxPacket)
    requires |record| == 256 && PacketFits(p)
    ensures record[88..96] == HeaderWordBytes(p) && record[96..120] == PacketBytes(p) <==> PacketFields(record, p)
  {
    hide U16, U32, Put16, Put32, Flags32, PutFlags32, PacketFlags, PacketEnumBytes, HeaderWordBytes, AllZero;
    var tail := Put32(p.driverPayload.GetOr(0))
                + (Put32(p.driverPacket.GetOr(0)) + (Put32(p.capturedLength) + PutFlags32(PacketFlags(p))));
    SliceSplit(record, 96, 120, PacketEnumBytes(p), Put16(p.headerLength) + (Zeros(2) + tail));
    SliceSplit(record, 100, 120, Put16(p.headerLength), Zeros(2) + tail);
    SliceSplit(record, 102, 120, Zeros(2), tail);
    Word16(record, 100, p.headerLength);
    ZeroSlice(record, 102, 104);
    HeaderWordSlices(record, p);
    EnumSlices(record, p);
    ReportSlices(record, p);
  }

  // ------------------------------------------------------------------- flag word

  predicate PacketFlagsListed(pf: seq<bool>, p: RxPacket)
    requires |pf| == 32
  {
    && pf[0] == p.capture.present && pf[1] == p.capture.headerOnly && pf[2] == p.capture.truncated
    && pf[3] == p.capture.pointerValid && pf[4] == p.capture.parseValid
    && pf[5..13] == MacFlagBits(p.macFlags)
    && pf[13] == p.sequenceControl.Some? && pf[14] == p.qosControl.Some? && pf[15] == p.frameControl.Some?
    && pf[16] == p.durationId.Some? && pf[17] == p.driverPayload.Some? && pf[18] == p.driverPacket.Some?
    && forall i :: 19 <= i < 32 ==> !pf[i]
  }

  lemma PacketFlagsSound(pf: seq<bool>, p: RxPacket)
    requires |pf| == 32 && pf == PacketFlags(p)
    ensures PacketFlagsListed(pf, p)
  {
    hide MacFlagBits;
  }

  lemma PacketFlagsComplete(pf: seq<bool>, p: RxPacket)
    requires |pf| == 32 && PacketFlagsListed(pf, p)
    ensures pf == PacketFlags(p)
  {
    hide MacFlagBits;
    var f := PacketFlags(p);
    assert f[0..5] == pf[0..5];
    assert f[5..13] == pf[5..13];
    assert f[13..19] == pf[13..19];
    assert f[19..32] == pf[19..32];
    assert f == f[0..5] + f[5..13] + f[13..19] + f[19..32];
    assert pf == pf[0..5] + pf[5..13] + pf[13..19] + pf[19..32];
  }

  lemma MacFlagsRead(bs: seq<bool>, f: MacFlags)
    requires |bs| == 8
    ensures MacFlagsOf(bs) == f <==> bs == MacFlagBits(Some(f))
  {
    var w := MacFlagBits(Some(f));
    EightFlags(w, f);
    if MacFlagsOf(bs) == f {
      EightFlags(bs, f);
    }
  }

  lemma EightFlags(bs: seq<bool>, f: MacFlags)
    requires |bs| == 8
    ensures MacFlagsOf(bs) == f <==>
            bs == [f.toDs, f.fromDs, f.moreFragments, f.retry, f.powerManagement, f.moreData, f.protectedFrame, f.order]
  {
    assert bs == [bs[0], bs[1], bs[2], bs[3], bs[4], bs[5], bs[6], bs[7]];
  }

  lemma PacketCodes(record: bytes, p: RxPacket)
    requires |record| == 256
    ensures record[96] == PacketTypeCode(p.kind) <==> record[96] <= 4 && PACKET_TYPES[record[96]] == p.kind
    ensures record[98] == FcsCode(p.fcs) <==> record[98] <= 3 && FCS_STATES[record[98]] == p.fcs
    ensures record[99] == CaptureModeCode(p.captureMode) <==> record[99] <= 2 && CAPTURE_MODES[record[99]] == p.captureMode
  {
  }

  lemma Captures(rf: seq<bool>, c: CaptureFlags)
    requires |rf| == 16
    ensures rf == RecordFlags(c) <==> CaptureOf(rf) == c && forall i :: 5 <= i < 16 ==> !rf[i]
  {
  }

  lemma ClearMacFlags(pf: seq<bool>)
    requires |pf| == 32
    ensures pf[5..13] == MacFlagBits(None) <==> forall i :: 5 <= i < 13 ==> !pf[i]
  {
    assert forall i :: 5 <= i < 13 ==> pf[i] == pf[5..13][i - 5];
  }

  lemma PacketOfSound(record: bytes, d: Directory, p: RxPacket)
    requires |record| == 256 && |d.flags| == 16 && AllZero(record[102..104])
    requires FlagChecks(Flags32(record, 116), d.flags) && PacketEnumsKnown(record)
    requires WordChecks(record, d) && ReportChecks(record, d) && p == PacketOf(record, d.flags)
    ensures PacketFits(p) && PacketFields(record, p)
  {
    hide U16, U32, Flags32, MacFlagBits, MacFlagsOf, PacketFlags, PacketTypeCode, FcsCode, CaptureModeCode, AllZero, ToBits;
    var pf := Flags32(record, 116);
    PacketCodes(record, p);
    ClearMacFlags(pf);
    if pf[15] {
      MacFlagsRead(pf[5..13], p.macFlags.value);
    }
    PacketFlagsComplete(pf, p);
  }

  lemma PacketOfComplete(record: bytes, d: Directory, p: RxPacket)
    requires |record| == 256 && |d.flags| == 16
    requires PacketFits(p) && PacketFields(record, p) && d.flags == RecordFlags(p.capture)
    ensures FlagChecks(Flags32(record, 116), d.flags) && PacketEnumsKnown(record)
    ensures p == PacketOf(record, d.flags)
  {
    hide U16, U32, Flags32, MacFlagBits, MacFlagsOf, PacketFlags, PacketTypeCode, FcsCode, CaptureModeCode, AllZero, RecordFlags;
    var pf := Flags32(record, 116);
    PacketCodes(record, p);
    PacketFlagsSound(pf, p);
    Captures(d.flags, p.capture);
    if pf[15] {
      MacFlagsRead(pf[5..13], p.macFlags.value);
    }
  }

  // ---------------------------------------------- checks and what they establish

  /** The word checks say that frame control, subtype, flag byte and header words agree. */
  lemma WordsRead(record: bytes, d: Directory, p: RxPacket)
    requires |record| == 256 && |d.flags| == 16 && PacketFits(p) && PacketFields(record, p)
    requires p.capture == CaptureOf(d.flags)
    ensures WordChecks(record, d) <==> FrameControlValid(p, d.readable) && HeaderWordsValid(p, d.readable)
  {
    hide U16, U32, Flags32, MacFlagBits, MacFlagsOf, PacketFlags, PacketTypeCode, FcsCode, CaptureModeCode, AllZero, ToBits;
    var pf := Flags32(record, 116);
    PacketFlagsSound(pf, p);
    ClearMacFlags(pf);
    if pf[15] {
      var bs := ToBits(p.frameControl.value / 256, 8);
      MacFlagsRead(pf[5..13], p.macFlags.value);
      MacFlagsRead(bs, p.macFlags.value);
    }
  }

  lemma ParsedRead(record: bytes, d: Directory, p: RxPacket)
    requires |record| == 256 && |d.flags| == 16 && PacketFits(p) && PacketFields(record, p)
    requires p.capture == CaptureOf(d.flags)
    ensures ParsedChecks(record, d) && (p.capture.parseValid ==> p.capture.pointerValid) <==> ParsedValid(p, d.readable)
  {
    hide U16, U32, Flags32, MacFlagBits, PacketFlags, FcsCode, CaptureModeCode, AllZero, ToBits;
    PacketFlagsSound(Flags32(record, 116), p);
  }

  lemma CaptureRead(record: bytes, d: Directory, p: RxPacket)
    requires |record| == 256 && |d.flags| == 16 && PacketFits(p) && PacketFields(record, p)
    requires p.capture == CaptureOf(d.flags)
    ensures LengthChecks(record, d) && PresenceChecks(record, d) && ReportChecks(record, d) <==>
            && CaptureValid(p, d.readable) && (p.capture.parseValid ==> p.capture.pointerValid)
            && d.captured == p.capturedLength && d.headerPrefix == HeaderPrefix(p)
            && d.payloadReport == p.driverPayload.GetOr(0)
  {
    hide U16, U32, Flags32, MacFlagBits, PacketFlags, FcsCode, PacketTypeCode, AllZero, ToBits;
    PacketFlagsSound(Flags32(record, 116), p);
  }

  predicate PacketAgrees(d: Directory, p: RxPacket) {
    && d.captured == p.capturedLength && d.headerPrefix == HeaderPrefix(p)
    && d.flags == RecordFlags(p.capture) && d.payloadReport == p.driverPayload.GetOr(0)
  }

  lemma PacketSound(record: bytes, d: Directory, p: RxPacket)
    requires |record| == 256 && |d.flags| == 16 && IsU32(d.readable) && AllZero(record[102..104])
    requires (forall i :: 5 <= i < 16 ==> !d.flags[i]) && ReadPacket(record, d) == Ok(p)
    ensures PacketValid(p, d.readable) && PacketFields(record, p) && PacketAgrees(d, p)
  {
    hide FlagChecks, PacketEnumsKnown, LengthChecks, PresenceChecks, WordChecks, ParsedChecks, ReportChecks;
    hide FrameControlValid, HeaderWordsValid, ParsedValid, CaptureValid, PacketFields, PacketFits, Flags32, RecordFlags, AllZero;
    PacketOfSound(record, d, p);
    WordsRead(record, d, p);
    CaptureRead(record, d, p);
    ParsedRead(record, d, p);
    Captures(d.flags, p.capture);
  }

  lemma PacketComplete(record: bytes, d: Directory, p: RxPacket)
    requires |record| == 256 && |d.flags| == 16
    requires PacketValid(p, d.readable) && PacketFields(record, p) && PacketAgrees(d, p)
    ensures ReadPacket(record, d) == Ok(p)
  {
    hide FlagChecks, PacketEnumsKnown, LengthChecks, PresenceChecks, WordChecks, ParsedChecks, ReportChecks;
    hide FrameControlValid, HeaderWordsValid, CaptureValid, PacketFields, PacketFits, Flags32, RecordFlags, PacketOf;
    PacketOfComplete(record, d, p);
    Captures(d.flags, p.capture);
    WordsRead(record, d, p);
    CaptureRead(record, d, p);
    ParsedRead(record, d, p);
  }
}
