/** The host accepts nothing that the firmware's wire encoder could not have produced: for
    every decoded record there is metadata from which the encoder writes exactly its bytes. */
module DeviceConverse {
  import opened Wire
  import opened CsiLayouts
  import opened CsiLayoutProofs
  import opened RxRecords
  import opened RxRecordReader
  import opened RxRecordProofs
  import opened RxPacketProofs
  import opened DeviceWriter
  import opened DeviceMetadata

  // ------------------------------------------------------- what the firmware is given

  function WireSegmentOf(s: CsiSegment): WireSegment {
    WireSegment(SegmentCode(s.kind) as nat, s.offsetBytes, s.lengthBytes, s.iqPairs, s.ranges, s.nulls)
  }

  function WireSegmentsOf(segs: seq<CsiSegment>): (ws: seq<WireSegment>)
    ensures |ws| == |segs|
  {
    if segs == [] then [] else WireSegmentsOf(segs[..|segs| - 1]) + [WireSegmentOf(segs[|segs| - 1])]
  }

  function WireLayoutOf(l: CsiLayout): Option<WireLayout> {
    if l.byteLength == 0 then None
    else Some(WireLayout(SchemaCode(l.schema) as nat, EncodingCode(l.encoding) as nat, SampleBits(l.encoding), l.byteLength,
                         l.iqPairs, l.padding, l.known, WireSegmentsOf(l.segments)))
  }

  function WireOf(m: RxMetadata): WireMetadata
    requires MetadataFits(m)
  {
    var i, a, r, p := m.identity, m.addresses, m.radio, m.packet;
    WireMetadata(i.timestampUs, i.rxSequence.GetOr(U32_MAX), i.generation, i.radioGeneration,
                 seq(5, k requires 0 <= k < 5 => AddressBytes(a[k])), seq(8, k requires 0 <= k < 8 => k < 5 && a[k].Some?),
                 r.rssi, r.noiseFloor.GetOr(0), r.channel, SecondaryCode(r.secondary), r.antenna.GetOr(255), PhyCode(r.phy),
                 r.bandwidthMhz.GetOr(0), r.mcs.GetOr(255), RadioFlags(r), WireLayoutOf(m.layout), m.csiDataValid,
                 m.firstWordInvalid, AccuracyCode(m.accuracy), p.frameControl, p.durationId, p.sequenceControl, p.qosControl,
                 p.headerLength, PacketTypeCode(p.kind), FcsCode(p.fcs), CaptureModeCode(p.captureMode), p.driverPayload.Some?,
                 p.driverPacket.Some?, p.driverPacket.GetOr(0), RawScalarBytes(m.rawScalars), r.guardIntervalNs.GetOr(0),
                 r.heLtfSize.GetOr(0))
  }

  lemma LayoutWireTyped(l: CsiLayout)
    requires LayoutFits(l) && WireLayoutOf(l).Some?
    ensures LayoutTyped(WireLayoutOf(l).value) && SlotsFit(WireSegmentsOf(l.segments))
  {
    SegmentsWireFit(l.segments);
  }

  lemma {:induction false} SegmentsWireFit(segs: seq<CsiSegment>)
    requires CsiLayouts.AllFit(segs)
    ensures SlotsFit(WireSegmentsOf(segs))
  {
    hide SegmentTyped, SegmentFits;
    if segs != [] {
      var before, last := segs[..|segs| - 1], segs[|segs| - 1];
      SegmentsWireFit(before);
      SegmentWireFits(last);
    }
  }

  lemma SegmentWireFits(s: CsiSegment)
    requires SegmentFits(s)
    ensures var w := WireSegmentOf(s); SegmentTyped(w) && w.kind <= 7 && |w.ranges| <= 2 && |w.nulls| <= 3
  {
  }

  lemma WireIsTyped(m: RxMetadata)
    requires MetadataFits(m)
    ensures Typed(WireOf(m))
  {
    hide LayoutTyped, LayoutFits, Zeros, RadioFlag;
    if WireLayoutOf(m.layout).Some? {
      LayoutWireTyped(m.layout);
    }
  }

  // ------------------------------------------------------------------------ radio

  lemma KnownBack(o: Option<bool>)
    ensures Known(o.Some?, IsTrue(o)) == o && (IsTrue(o) ==> o.Some?)
  {
  }

  lemma RadioBack(m: RxMetadata)
    requires MetadataFits(m) && Typed(WireOf(m)) && SignalAccepted(WireOf(m))
    ensures RadioFacts(WireOf(m)) == m.radio
  {
    hide RadioFlags, SecondaryOf, PhyOf, SecondaryCode, PhyCode, IsTrue, LayoutFits, PacketFits, WireLayoutOf, AddressBytes;
    hide SignalAccepted;
    var r, f := m.radio, RadioFlags(m.radio);
    FlagsSound(f, r);
    SecondaryCodes(SecondaryCode(r.secondary), r.secondary);
    PhyCodes(PhyCode(r.phy), r.phy);
    KnownBack(r.stbc);
    KnownBack(r.smoothing);
    KnownBack(r.sounding);
    KnownBack(r.aggregation);
    KnownBack(r.ldpc);
    KnownBack(r.shortGi);
    KnownBack(r.channelEstimateValid);
    KnownBack(r.dcm);
  }

  lemma CodeRanges(s: Secondary, p: Phy, a: Accuracy)
    ensures (SecondaryCode(s) <= 2 || SecondaryCode(s) == 255) && (PhyCode(p) <= 6 || PhyCode(p) == 255)
    ensures AccuracyCode(a) <= 2 && (3 <= PhyCode(p) <= 6 <==> IsHe(p)) && (PhyCode(p) == 1 || PhyCode(p) == 2 <==> p in {Ht, Vht})
  {
  }

  /** Short guard intervals as the firmware's preflight reads them. */
  lemma GuardBack(r: Radio)
    requires RadioValid(r) && r.guardIntervalNs.Some?
    ensures r.guardIntervalNs.value in {400, 800, 1600, 3200}
    ensures if IsHe(r.phy) then r.guardIntervalNs.value != 400 else r.phy in {Ht, Vht} && r.guardIntervalNs.value <= 800
    ensures r.shortGi.Some? ==> r.guardIntervalNs.value == if IsTrue(r.shortGi) then 400 else 800
  {
  }

  lemma SignalBack(m: RxMetadata)
    requires MetadataFits(m) && Typed(WireOf(m))
    ensures SignalAccepted(WireOf(m))
  {
    hide RadioFlags, SecondaryCode, PhyCode, AccuracyCode, IsTrue, LayoutFits, PacketFits, WireLayoutOf, AddressBytes, IsHe;
    var r, f := m.radio, RadioFlags(m.radio);
    FlagsSound(f, r);
    CodeRanges(r.secondary, r.phy, m.accuracy);
    if r.guardIntervalNs.Some? {
      GuardBack(r);
    }
    KnownBack(r.stbc);
    KnownBack(r.smoothing);
    KnownBack(r.sounding);
    KnownBack(r.aggregation);
    KnownBack(r.ldpc);
    KnownBack(r.shortGi);
    KnownBack(r.channelEstimateValid);
    KnownBack(r.dcm);
  }

  // ----------------------------------------------------------------------- layout

  lemma {:induction false} SlotsOfPrefix(segs: seq<WireSegment>, k: nat, n: nat, length: nat, encoding: nat, known: bool)
    requires k <= n <= |segs| && encoding <= 3
    ensures SlotsAccepted(segs[..n], k, length, encoding, known) == SlotsAccepted(segs, k, length, encoding, known)
  {
    hide SegmentAccepted;
    if k > 0 {
      SlotsOfPrefix(segs, k - 1, n, length, encoding, known);
      assert segs[..n][..k - 1] == segs[..k - 1] && segs[..n][k - 1] == segs[k - 1];
    }
  }

  lemma EncodingRange(e: Encoding)
    ensures EncodingCode(e) <= 3 && Bytes(EncodingCode(e) as nat) == BytesPerPair(e)
    ensures (EncodingCode(e) == 0 <==> e == UnknownEncoding) && ENCODINGS[EncodingCode(e)] == e
    ensures SampleBits(e) == [0, 8, 12, 12][EncodingCode(e)]
  {
  }

  lemma SchemaRange(s: Schema)
    ensures SchemaCode(s) <= 2 && (SchemaCode(s) == 0 <==> s == UnknownSchema) && SCHEMAS[SchemaCode(s)] == s
  {
  }

  lemma SegmentBack(s: CsiSegment, offset: nat, pairs: nat, length: nat, encoding: Encoding, known: bool)
    requires SegmentValid(s, encoding, known) && s.offsetBytes == offset
    requires offset + s.lengthBytes <= length && pairs + s.iqPairs <= U32_MAX
    ensures EncodingCode(encoding) <= 3
    ensures SegmentAccepted(WireSegmentOf(s), offset, pairs, length, EncodingCode(encoding) as nat, known)
    ensures WireSegmentOf(s).kind <= 7 && SegmentFacts(WireSegmentOf(s)) == s
  {
    hide EncodingCode, BytesPerPair, Bytes;
    EncodingRange(encoding);
    SegmentTypeCode(s.kind, SegmentCode(s.kind));
  }

  lemma {:induction false} SegmentsFactsBack(segs: seq<CsiSegment>)
    requires CsiLayouts.AllFit(segs) && SlotsFit(WireSegmentsOf(segs))
    ensures SegmentsFacts(WireSegmentsOf(segs)) == segs
  {
    hide SegmentFits, SegmentTyped, SegmentCode, SlotsFit, CsiLayouts.AllFit;
    if segs != [] {
      var before, last, ws := segs[..|segs| - 1], segs[|segs| - 1], WireSegmentsOf(segs);
      AllFitBefore(segs);
      SegmentsWireFit(before);
      SegmentsFactsBack(before);
      assert ws[..|ws| - 1] == WireSegmentsOf(before) && ws[|ws| - 1] == WireSegmentOf(last);
      SegmentTypeCode(last.kind, SegmentCode(last.kind));
      assert SegmentFacts(ws[|ws| - 1]) == last;
    }
  }

  lemma {:induction false} TotalsBack(segs: seq<CsiSegment>)
    ensures WireLength(WireSegmentsOf(segs)) == LengthTotal(segs) && WirePairs(WireSegmentsOf(segs)) == PairTotal(segs)
  {
    if segs != [] {
      var before, last := segs[..|segs| - 1], segs[|segs| - 1];
      TotalsBack(before);
      assert WireSegmentsOf(segs) == WireSegmentsOf(before) + [WireSegmentOf(last)];
    }
  }

  lemma {:induction false} SegmentsBack(segs: seq<CsiSegment>, length: nat, encoding: Encoding, known: bool)
    requires SegmentsValid(segs, encoding, known) && LengthTotal(segs) <= length && PairTotal(segs) <= U32_MAX
    ensures EncodingCode(encoding) <= 3
    ensures SlotsAccepted(WireSegmentsOf(segs), |segs|, length, EncodingCode(encoding) as nat, known)
  {
    hide EncodingCode, SegmentValid, SegmentAccepted, WireLength, WirePairs, WireSegmentOf;
    EncodingRange(encoding);
    if segs != [] {
      var before, last, ws := segs[..|segs| - 1], segs[|segs| - 1], WireSegmentsOf(segs);
      SegmentsBack(before, length, encoding, known);
      TotalsBack(before);
      assert ws[..|ws| - 1] == WireSegmentsOf(before) && ws[|ws| - 1] == WireSegmentOf(last);
      SlotsOfPrefix(ws, |ws| - 1, |ws| - 1, length, EncodingCode(encoding) as nat, known);
      SegmentBack(last, LengthTotal(before), PairTotal(before), length, encoding, known);
    }
  }

  lemma AllFitBefore(segs: seq<CsiSegment>)
    requires CsiLayouts.AllFit(segs) && segs != []
    ensures CsiLayouts.AllFit(segs[..|segs| - 1])
  {
    hide SegmentFits;
  }

  lemma LayoutBack(l: CsiLayout, firstWordInvalid: bool, dataValid: bool)
    requires LayoutValid(l, firstWordInvalid, dataValid) && LayoutFits(l)
    ensures LayoutAccepted(WireLayoutOf(l), l.byteLength)
    ensures WireLayoutOf(l).None? ==> !dataValid && !firstWordInvalid
  {
    hide EncodingCode, SchemaCode, SampleBits, SegmentsValid, LayoutFits, SlotsAccepted, WireLength, WirePairs;
    if l.byteLength != 0 {
      EncodingRange(l.encoding);
      SchemaRange(l.schema);
      TotalsBack(l.segments);
      SegmentsBack(l.segments, l.byteLength, l.encoding, l.known);
    }
  }

  lemma LayoutFactsBack(l: CsiLayout, firstWordInvalid: bool, dataValid: bool)
    requires LayoutValid(l, firstWordInvalid, dataValid) && LayoutFits(l) && LayoutAccepted(WireLayoutOf(l), l.byteLength)
    ensures WireLayoutOf(l).Some? ==> LayoutTyped(WireLayoutOf(l).value)
    ensures LayoutFacts(WireLayoutOf(l), l.byteLength) == l
  {
    hide EncodingCode, SchemaCode, SampleBits, SegmentsValid, LayoutTyped, LayoutAccepted, CsiLayouts.AllFit, SlotsFit;
    if l.byteLength != 0 {
      EncodingRange(l.encoding);
      SchemaRange(l.schema);
      LayoutWireTyped(l);
      SegmentsFactsBack(l.segments);
    }
  }

  // ----------------------------------------------------------------------- packet

  lemma PacketCodesBack(p: RxPacket)
    ensures PacketTypeCode(p.kind) <= 4 && PACKET_TYPES[PacketTypeCode(p.kind)] == p.kind
    ensures (1 <= PacketTypeCode(p.kind) <= 3 <==> p.kind in {Management, Control, Data})
    ensures FcsCode(p.fcs) <= 3 && FCS_STATES[FcsCode(p.fcs)] == p.fcs
    ensures CaptureModeCode(p.captureMode) <= 2 && CAPTURE_MODES[CaptureModeCode(p.captureMode)] == p.captureMode
    ensures (CaptureModeCode(p.captureMode) == 0 <==> p.captureMode == NoCapture)
    ensures (CaptureModeCode(p.captureMode) == 1 <==> p.captureMode == HeaderCapture)
  {
  }

  lemma PacketAcceptedBack(d: Directory, m: RxMetadata)
    requires d.Fits() && MetadataFits(m) && Typed(WireOf(m)) && PacketValid(m.packet, d.readable) && DirectoryMatches(d, m)
    ensures PacketAccepted(d, WireOf(m))
  {
    hide IdentityValid, AddressesValid, RadioValid, RawScalarsValid, LayoutFits, RadioFlags, WireLayoutOf, AddressBytes;
    hide RawScalarBytes, RecordFlags, PacketTypeCode, FcsCode, CaptureModeCode, MacFlagsOf, ToBits, Typed;
    PacketCodesBack(m.packet);
    Captures(d.flags, m.packet.capture);
  }

  lemma PacketBack(d: Directory, m: RxMetadata)
    requires d.Fits() && MetadataFits(m) && Typed(WireOf(m)) && PacketValid(m.packet, d.readable) && DirectoryMatches(d, m)
    requires PacketAccepted(d, WireOf(m))
    ensures PacketFacts(d, WireOf(m)) == m.packet
  {
    hide IdentityValid, AddressesValid, RadioValid, RawScalarsValid, LayoutFits, RadioFlags, WireLayoutOf, AddressBytes;
    hide RawScalarBytes, RecordFlags, PacketTypeCode, FcsCode, CaptureModeCode, MacFlagsOf, ToBits, PacketAccepted;
    hide HeaderWordsValid, ParsedValid, CaptureValid;
    PacketCodesBack(m.packet);
    Captures(d.flags, m.packet.capture);
  }

  // ------------------------------------------------------------------- the record

  lemma IdentityBack(d: Directory, m: RxMetadata)
    requires MetadataFits(m) && d.sequence == m.identity.sequence
    ensures IdentityFacts(d, WireOf(m)) == m.identity
  {
    hide AddressesValid, RadioValid, RawScalarsValid, LayoutFits, PacketFits, RadioFlags, WireLayoutOf, AddressBytes, RawScalarBytes;
  }

  lemma AddressesBack(m: RxMetadata)
    requires MetadataFits(m) && Typed(WireOf(m))
    ensures AddressFacts(WireOf(m)) == m.addresses
  {
    hide IdentityValid, RadioValid, RawScalarsValid, LayoutFits, PacketFits, RadioFlags, WireLayoutOf, RawScalarBytes, Typed;
  }

  lemma ScalarsBack(m: RxMetadata)
    requires MetadataFits(m) && Typed(WireOf(m))
    ensures ScalarFacts(WireOf(m)) == m.rawScalars
  {
    hide IdentityValid, AddressesValid, RadioValid, LayoutFits, PacketFits, RadioFlags, WireLayoutOf, AddressBytes, Typed;
  }

  lemma EstimateBack(m: RxMetadata)
    requires MetadataFits(m) && m.radio.channelEstimateValid.None?
    ensures !WireOf(m).rxFlags[15] && !WireOf(m).rxFlags[16]
  {
    hide IsTrue, RadioFlags, LayoutFits, PacketFits, WireLayoutOf, AddressBytes, RawScalarBytes;
    FlagsSound(RadioFlags(m.radio), m.radio);
    KnownBack(m.radio.channelEstimateValid);
  }

  /** The firmware accepts what it needs for any valid facts, ... */
  lemma AcceptedBack(kind: Kind, d: Directory, m: RxMetadata)
    requires d.Fits() && MetadataValid(m, kind, d.readable) && MetadataFits(m) && DirectoryMatches(d, m)
    requires FramesTyped([d]) && Writable(kind, [d])
    ensures Typed(WireOf(m)) && MetadataAccepted(kind, d, WireOf(m))
  {
    hide IdentityValid, AddressesValid, RadioValid, RawScalarsValid, LayoutFits, PacketFits, LayoutValid, PacketValid, RadioFlags;
    hide WireLayoutOf, AddressBytes, RawScalarBytes, Typed, SignalAccepted, LayoutAccepted, PacketAccepted, RecordFlags, HeaderPrefix;
    hide Writable, FramesTyped;
    WireIsTyped(m);
    SignalBack(m);
    LayoutBack(m.layout, m.firstWordInvalid, m.csiDataValid);
    PacketAcceptedBack(d, m);
    if kind == Monitor {
      EstimateBack(m);
    }
  }

  /** ... and what the host should read of it are these facts. */
  lemma FactsBack(kind: Kind, d: Directory, m: RxMetadata)
    requires d.Fits() && MetadataValid(m, kind, d.readable) && MetadataFits(m) && DirectoryMatches(d, m)
    requires Typed(WireOf(m)) && MetadataAccepted(kind, d, WireOf(m))
    ensures Facts(kind, d, WireOf(m)) == m
  {
    hide IdentityValid, AddressesValid, RadioValid, RawScalarsValid, LayoutFits, PacketFits, LayoutValid, PacketValid, RadioFlags;
    hide WireLayoutOf, AddressBytes, RawScalarBytes, Typed, SignalAccepted, LayoutAccepted, PacketAccepted, RecordFlags, HeaderPrefix;
    hide Writable, FramesTyped, LayoutFacts, RadioFacts, PacketFacts, AddressFacts, IdentityFacts, ScalarFacts, AccuracyCode;
    IdentityBack(d, m);
    AddressesBack(m);
    RadioBack(m);
    ScalarsBack(m);
    LayoutFactsBack(m.layout, m.firstWordInvalid, m.csiDataValid);
    PacketBack(d, m);
    AccuracyBack(m.accuracy);
  }

  lemma AccuracyBack(a: Accuracy)
    ensures AccuracyCode(a) <= 2 && ACCURACIES[AccuracyCode(a)] == a
  {
  }
}
