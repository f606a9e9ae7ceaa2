/** Every metadata record the firmware writes is the canonical encoding of the facts it
    was given, so the host reads exactly those facts back. */
module DeviceRecords {
  import opened Wire
  import opened CsiLayouts
  import opened CsiLayoutProofs
  import opened RxRecords
  import opened RxRecordReader
  import opened RxRecordProofs
  import opened RxPacketProofs
  import opened RxMetadataProofs
  import opened RxBatches
  import opened DeviceWriter
  import opened DeviceMetadata

  // ------------------------------------------------------------------- addresses

  lemma AddressKnown(m: WireMetadata, i: nat)
    requires Typed(m) && i < 5
    ensures AddressFacts(m)[i].Some? == m.addressMask[i] && (m.addressMask[i] ==> |AddressFacts(m)[i].value| == 6)
    ensures (m.addressMask[i] ==> |m.addresses[i]| == 6) && AddressBytes(AddressFacts(m)[i]) == AddressSlot(m, i)
  {
    hide Zeros;
    assert m.addresses[i] in m.addresses;
  }

  lemma AddressesAgree(m: WireMetadata)
    requires Typed(m) && forall i :: 5 <= i < 8 ==> !m.addressMask[i]
    ensures AddressesValid(AddressFacts(m)) && AddressesBytes(AddressFacts(m)) == AddressSlots(m)
  {
    hide Zeros, AddressBytes, AddressSlot, PutFlags16, Typed, AddressFacts;
    AddressKnown(m, 0);
    AddressKnown(m, 1);
    AddressKnown(m, 2);
    AddressKnown(m, 3);
    AddressKnown(m, 4);
    MaskAgrees(m);
  }

  lemma MaskAgrees(m: WireMetadata)
    requires Typed(m) && forall i :: 5 <= i < 8 ==> !m.addressMask[i]
    ensures AddressMask(AddressFacts(m)) == m.addressMask + seq(8, _ => false)
  {
  }

  // ----------------------------------------------------------------------- radio

  lemma SecondaryTrip(c: byte)
    requires c <= 2 || c == 255
    ensures SecondaryOf(c).Some? && SecondaryCode(SecondaryOf(c).value) == c
  {
  }

  lemma PhyTrip(c: byte)
    requires c <= 6 || c == 255
    ensures PhyOf(c).Some? && PhyCode(PhyOf(c).value) == c
    ensures (IsHe(PhyOf(c).value) <==> 3 <= c <= 6) && (PhyOf(c).value in {Ht, Vht} <==> c == 1 || c == 2)
  {
  }

  lemma RadioAgrees(m: WireMetadata)
    requires Typed(m) && SignalAccepted(m)
    ensures RadioValid(RadioFacts(m))
  {
    hide SecondaryOf, PhyOf, IsHe;
    SecondaryTrip(m.secondary);
    PhyTrip(m.phy);
    if m.guardInterval != 0 {
      GuardAgrees(m.guardInterval, PhyOf(m.phy).value, Known(m.rxFlags[13], m.rxFlags[14]));
    }
  }

  lemma GuardAgrees(gi: nat, phy: Phy, shortGi: Option<bool>)
    requires gi in {400, 800, 1600, 3200}
    requires if IsHe(phy) then gi != 400 else phy in {Ht, Vht} && gi <= 800
    requires shortGi.Some? ==> gi == if shortGi.value then 400 else 800
    ensures GuardIntervalValid(gi, phy, shortGi)
  {
  }

  lemma RadioBytesAgree(m: WireMetadata)
    requires Typed(m) && SignalAccepted(m) && RadioValid(RadioFacts(m))
    ensures RadioBytes(RadioFacts(m)) == RadioSlot(m)
    ensures SymbolBytes(RadioFacts(m)) == SymbolSlot(m)
  {
    hide SecondaryOf, PhyOf, SecondaryCode, PhyCode, RadioValid, Put16;
    SecondaryTrip(m.secondary);
    PhyTrip(m.phy);
    var r := RadioFacts(m);
    assert r.noiseFloor == Known(m.rxFlags[0], m.noiseFloor) && r.antenna == Known(m.rxFlags[1], m.antenna as int);
    assert r.bandwidthMhz == Known(m.rxFlags[3], m.bandwidth as int) && r.mcs == Known(m.rxFlags[2], m.mcs as int);
  }

  /** An optional bit as the flag word holds it: never a value without its availability. */
  predicate Held(o: Option<bool>, available: bool, value: bool) {
    o.Some? == available && IsTrue(o) == value
  }

  lemma FirstFlagsHeld(m: WireMetadata)
    requires Typed(m) && SignalAccepted(m)
    ensures Held(RadioFacts(m).stbc, m.rxFlags[4], m.rxFlags[5])
    ensures Held(RadioFacts(m).smoothing, m.rxFlags[17], m.rxFlags[6])
    ensures Held(RadioFacts(m).sounding, m.rxFlags[7], m.rxFlags[8])
    ensures Held(RadioFacts(m).aggregation, m.rxFlags[9], m.rxFlags[10])
  {
    hide SecondaryOf, PhyOf, NonzeroOption;
  }

  lemma LastFlagsHeld(m: WireMetadata)
    requires Typed(m) && SignalAccepted(m)
    ensures Held(RadioFacts(m).ldpc, m.rxFlags[11], m.rxFlags[12])
    ensures Held(RadioFacts(m).shortGi, m.rxFlags[13], m.rxFlags[14])
    ensures Held(RadioFacts(m).channelEstimateValid, m.rxFlags[15], m.rxFlags[16])
    ensures Held(RadioFacts(m).dcm, m.rxFlags[18], m.rxFlags[19])
  {
    hide SecondaryOf, PhyOf, NonzeroOption;
  }

  lemma RadioFlagsAgree(m: WireMetadata)
    requires Typed(m) && SignalAccepted(m)
    ensures RadioFlags(RadioFacts(m)) == m.rxFlags
  {
    hide IsTrue, SecondaryOf, PhyOf, RadioFlags;
    FirstFlagsHeld(m);
    LastFlagsHeld(m);
    FlagsComplete(m.rxFlags, RadioFacts(m));
  }

  // ---------------------------------------------------------------------- layout

  lemma SegmentAgrees(s: WireSegment)
    requires SegmentTyped(s) && s.kind <= 7 && |s.ranges| <= 2 && |s.nulls| <= 3
    ensures SegmentFits(SegmentFacts(s)) && SegmentBytes(SegmentFacts(s)) == SegmentSlot(s)
  {
    SegmentTypeCode(SEGMENTS[s.kind], s.kind);
  }

  lemma {:induction false} SegmentsAgree(segs: seq<WireSegment>)
    requires SlotsFit(segs)
    ensures CsiLayouts.AllFit(SegmentsFacts(segs)) && SegmentsBytes(SegmentsFacts(segs)) == SegmentSlots(segs)
    ensures LengthTotal(SegmentsFacts(segs)) == WireLength(segs) && PairTotal(SegmentsFacts(segs)) == WirePairs(segs)
  {
    hide SegmentSlot, SegmentBytes, SegmentFits;
    if segs != [] {
      var before, last := segs[..|segs| - 1], segs[|segs| - 1];
      SegmentsAgree(before);
      SegmentAgrees(last);
      AllFitAppend(SegmentsFacts(before), SegmentFacts(last));
    }
  }

  lemma SegmentChecked(s: WireSegment, offset: nat, pairs: nat, length: nat, encoding: nat, known: bool)
    requires SegmentTyped(s) && encoding <= 3 && SegmentAccepted(s, offset, pairs, length, encoding, known)
    ensures SegmentValid(SegmentFacts(s), ENCODINGS[encoding], known) && SegmentFacts(s).offsetBytes == offset
  {
    SegmentTypeCode(SEGMENTS[s.kind], s.kind);
    assert BytesPerPair(ENCODINGS[encoding]) == Bytes(encoding);
  }

  lemma {:induction false} SegmentsChecked(segs: seq<WireSegment>, n: nat, length: nat, encoding: nat, known: bool)
    requires n <= |segs| && encoding <= 3 && SlotsAccepted(segs, n, length, encoding, known)
    requires (forall s :: s in segs ==> SegmentTyped(s)) && SlotsFit(segs[..n])
    ensures SegmentsValid(SegmentsFacts(segs[..n]), ENCODINGS[encoding], known)
  {
    hide SegmentAccepted, SegmentValid, SegmentTyped, SegmentFits;
    if n > 0 {
      var before := segs[..n - 1];
      assert segs[..n][..n - 1] == before && segs[..n][n - 1] == segs[n - 1];
      assert forall s :: s in before ==> s in segs[..n];
      SegmentsChecked(segs, n - 1, length, encoding, known);
      SegmentsAgree(before);
      SegmentChecked(segs[n - 1], WireLength(before), WirePairs(before), length, encoding, known);
      assert SegmentsFacts(segs[..n])[..n - 1] == SegmentsFacts(before);
    }
  }

  lemma EncodingBits(c: nat, bits: byte)
    requires c <= 3 && bits == [0, 8, 12, 12][c]
    ensures EncodingCode(ENCODINGS[c]) == c && SampleBits(ENCODINGS[c]) == bits
    ensures ENCODINGS[c] == UnknownEncoding <==> c == 0
  {
  }

  lemma SchemaTrip(c: nat)
    requires c <= 2
    ensures SchemaCode(SCHEMAS[c]) == c && (SCHEMAS[c] == UnknownSchema <==> c == 0)
  {
  }

  lemma LayoutIsValid(l: WireLayout, length: nat, firstWordInvalid: bool, dataValid: bool)
    requires LayoutTyped(l) && LayoutAccepted(Some(l), length) && LayoutStored(l)
    ensures LayoutValid(StoredFacts(l), firstWordInvalid, dataValid) && LayoutFits(StoredFacts(l))
    ensures l.byteLength == length
  {
    hide SlotsAccepted, SegmentTyped, SegmentsValid, CsiLayouts.AllFit, SampleBits, SlotsFit;
    assert l.segments[..|l.segments|] == l.segments;
    SegmentsChecked(l.segments, |l.segments|, length, l.encoding, l.known);
    SegmentsAgree(l.segments);
    EncodingBits(l.encoding, l.sampleBits);
    SchemaTrip(l.schema);
  }

  lemma LayoutBytes(l: WireLayout, length: nat, firstWordInvalid: bool, dataValid: bool)
    requires LayoutTyped(l) && IsU32(length) && DimensionsAccepted(l, length) && LayoutStored(l) && LayoutFits(StoredFacts(l))
    ensures DimensionBytes(StoredFacts(l), firstWordInvalid, dataValid) == LayoutWords(l, length, firstWordInvalid, dataValid)
  {
    hide SegmentTyped, LayoutFits, SampleBits, SlotsFit, Put32, Put16, PutFlags32, EncodingCode, SchemaCode;
    EncodingBits(l.encoding, l.sampleBits);
    SchemaTrip(l.schema);
    assert CsiFlags(StoredFacts(l), firstWordInvalid, dataValid) == [firstWordInvalid, dataValid, l.known] + seq(29, _ => false);
  }

  lemma LayoutSlots(l: WireLayout)
    requires LayoutStored(l) && LayoutFits(StoredFacts(l))
    ensures SlotBytes(StoredFacts(l)) == SegmentSlots(l.segments) + Zeros(120 - 40 * |l.segments|)
  {
    hide SlotsFit, CsiLayouts.AllFit, Zeros, SegmentSlots, SegmentsBytes;
    SegmentsAgree(l.segments);
  }

  lemma NoLayoutBytes(l: CsiLayout)
    requires l == NO_LAYOUT && LayoutFits(l)
    ensures DimensionBytes(l, false, false) == Zeros(19)
  {
    hide PutFlags32, LayoutFits;
    ZeroFlags();
    assert CsiFlags(l, false, false) == seq(32, _ => false);
    EmptySample();
  }

  lemma ZeroFlags()
    ensures PutFlags32(seq(32, _ => false)) == Zeros(4)
  {
    ZeroBits(32);
  }

  lemma NoLayoutFits(l: CsiLayout)
    requires l == NO_LAYOUT
    ensures LayoutFits(l) && LayoutValid(l, false, false) && SlotBytes(l) == Zeros(120)
  {
  }

  lemma LayoutAgrees(d: Directory, m: WireMetadata)
    requires d.Fits() && Typed(m) && LayoutAccepted(m.layout, d.csiLength)
    requires m.layout.None? ==> !m.csiDataValid && !m.firstWordInvalid
    ensures var l := LayoutFacts(m.layout, d.csiLength);
            && LayoutValid(l, m.firstWordInvalid, m.csiDataValid) && LayoutFits(l) && l.byteLength == d.csiLength
            && DimensionBytes(l, m.firstWordInvalid, m.csiDataValid) == LayoutSlot(d, m)
            && SlotBytes(l) == SlotsSlot(m, d.csiLength)
  {
    hide LayoutValid, LayoutFits, DimensionBytes, SlotBytes, LayoutTyped, SlotsAccepted, DimensionsAccepted, LayoutStored, Zeros;
    hide LayoutWords, SegmentSlots;
    if m.layout.None? {
      NoLayoutFits(NO_LAYOUT);
      NoLayoutBytes(NO_LAYOUT);
    } else {
      AcceptedStored(m.layout.value, d.csiLength);
      LayoutIsValid(m.layout.value, d.csiLength, m.firstWordInvalid, m.csiDataValid);
      LayoutBytes(m.layout.value, d.csiLength, m.firstWordInvalid, m.csiDataValid);
      LayoutSlots(m.layout.value);
    }
  }

  // ---------------------------------------------------------------------- packet

  lemma PacketCodesTrip(m: WireMetadata)
    requires m.packetType <= 4 && m.fcs <= 3 && m.captureMode <= 2
    ensures PacketTypeCode(PACKET_TYPES[m.packetType]) == m.packetType && FcsCode(FCS_STATES[m.fcs]) == m.fcs
    ensures CaptureModeCode(CAPTURE_MODES[m.captureMode]) == m.captureMode
  {
  }

  lemma MacBits(bs: seq<bool>)
    requires |bs| == 8
    ensures MacFlagBits(Some(MacFlagsOf(bs))) == bs
  {
  }

  lemma PacketIsValid(kind: Kind, d: Directory, m: WireMetadata)
    requires d.Fits() && Typed(m) && PacketAccepted(d, m) && FrameAccepted(kind, d)
    ensures PacketValid(PacketFacts(d, m), d.readable)
    ensures RecordFlags(PacketFacts(d, m).capture) == d.flags
    ensures HeaderPrefix(PacketFacts(d, m)) == d.headerPrefix
    ensures PacketFacts(d, m).driverPayload.GetOr(0) == d.payloadReport
  {
    hide RecordFlags, MacFlagsOf, ToBits;
    PacketCodesTrip(m);
    Captures(d.flags, CaptureOf(d.flags));
  }

  lemma MacBitsAbsent()
    ensures MacFlagBits(None) == seq(8, _ => false)
  {
  }

  lemma PacketWordAgrees(d: Directory, m: WireMetadata)
    requires d.Fits() && Typed(m) && PacketAccepted(d, m)
    ensures PacketFlags(PacketFacts(d, m)) == PacketWord(d, m)
  {
    hide MacFlagsOf, MacFlagBits, ToBits;
    MacBitsAbsent();
    if m.frameControl.Some? {
      MacBits(ToBits(m.frameControl.value / 256, 8));
    }
  }

  lemma PacketBytesAgree(d: Directory, m: WireMetadata)
    requires d.Fits() && Typed(m) && PacketAccepted(d, m) && PacketFits(PacketFacts(d, m))
    ensures PacketBytes(PacketFacts(d, m)) == PacketSlot(d, m)
    ensures HeaderWordBytes(PacketFacts(d, m)) == WordSlot(m)
  {
    hide Put16, Put32, PutFlags32, PacketFlags, PacketWord, Zeros, PacketTypeCode, FcsCode, CaptureModeCode, MacFlagsOf, ToBits;
    PacketCodesTrip(m);
    PacketWordAgrees(d, m);
  }

  // ------------------------------------------------------------------- the record

  lemma AccuracyTrip(c: byte)
    requires c <= 2
    ensures AccuracyCode(ACCURACIES[c]) == c
  {
  }

  lemma IdentityAgrees(d: Directory, m: WireMetadata)
    requires d.Fits() && Typed(m)
    ensures var i := IdentityFacts(d, m);
            IdentityValid(i) && IdentityBytes(i) == IdentitySlot(d, m)
  {
    hide Put32, Put64;
  }

  lemma ScalarsAgree(m: WireMetadata)
    requires Typed(m)
    ensures RawScalarsValid(ScalarFacts(m)) && RawScalarBytes(ScalarFacts(m)) == m.rawScalars
  {
  }

  /** The parts of an accepted frame's checks. */
  lemma AcceptedParts(kind: Kind, d: Directory, m: WireMetadata)
    requires d.Fits() && Typed(m) && MetadataAccepted(kind, d, m)
    ensures FrameAccepted(kind, d) && SignalAccepted(m) && LayoutAccepted(m.layout, d.csiLength) && PacketAccepted(d, m)
    ensures m.layout.None? ==> !m.csiDataValid && !m.firstWordInvalid
    ensures kind == Monitor ==> d.csiLength == 0 && !m.rxFlags[15]
  {
    hide PayloadFrom, SignalAccepted, LayoutAccepted, PacketAccepted;
    assert d in [d];
  }

  lemma NoAddressPast(m: WireMetadata)
    requires Typed(m) && SignalAccepted(m)
    ensures (forall i :: 5 <= i < 8 ==> !m.addressMask[i]) && m.accuracy <= 2
  {
  }

  lemma EstimateKnown(m: WireMetadata)
    requires Typed(m) && SignalAccepted(m)
    ensures RadioFacts(m).channelEstimateValid.Some? == m.rxFlags[15]
  {
  }

  /** Every record the firmware accepts states facts the host accepts. */
  lemma FactsValid(kind: Kind, d: Directory, m: WireMetadata)
    requires d.Fits() && Typed(m) && MetadataAccepted(kind, d, m)
    ensures MetadataValid(Facts(kind, d, m), kind, d.readable) && MetadataFits(Facts(kind, d, m))
    ensures DirectoryMatches(d, Facts(kind, d, m))
  {
    hide Typed, SignalAccepted, LayoutAccepted, PacketAccepted, FrameAccepted, IdentityValid, AddressesValid, RadioValid;
    hide RawScalarsValid, LayoutValid, LayoutFits, PacketFits, RecordFlags, RadioFacts, PacketFacts, LayoutFacts, MetadataAccepted;
    hide FrameControlValid, HeaderWordsValid, ParsedValid, CaptureValid, HeaderPrefix, AddressFacts, IdentityFacts, ScalarFacts;
    AcceptedParts(kind, d, m);
    IdentityAgrees(d, m);
    NoAddressPast(m);
    AddressesAgree(m);
    RadioAgrees(m);
    EstimateKnown(m);
    ScalarsAgree(m);
    LayoutAgrees(d, m);
    PacketIsValid(kind, d, m);
    PacketCarries(d, m);
  }

  lemma PacketCarries(d: Directory, m: WireMetadata)
    requires d.Fits() && Typed(m) && PacketAccepted(d, m)
    ensures PacketFacts(d, m).capturedLength == d.captured && IdentityFacts(d, m).sequence == d.sequence
  {
  }

  /** Byte for byte, the firmware writes the one encoding of the facts. */
  lemma RecordAgrees(kind: Kind, d: Directory, m: WireMetadata)
    requires d.Fits() && Typed(m) && MetadataAccepted(kind, d, m) && MetadataFits(Facts(kind, d, m))
    ensures DeviceRecord(kind, d, m) == RecordBytes(Facts(kind, d, m))
  {
    hide Typed, SignalAccepted, LayoutAccepted, PacketAccepted, FrameAccepted, IdentityValid, AddressesValid, RadioValid;
    hide RawScalarsValid, LayoutValid, LayoutFits, PacketFits, RadioFacts, PacketFacts, LayoutFacts, MetadataAccepted;
    hide IdentityBytes, RadioBytes, RadioFlags, PutFlags32, PutFlags16, DimensionBytes, AccuracyCode, HeaderWordBytes, PacketBytes;
    hide RawScalarBytes, SymbolBytes, SlotBytes, AddressesBytes, AddressSlots, AddressFacts, RadioSlot, LayoutSlot, PacketSlot, SlotsSlot;
    hide Put16, Put32, Put64, Zeros, IdentityFacts, ScalarFacts, IdentitySlot, WordSlot, SymbolSlot;
    AcceptedParts(kind, d, m);
    IdentityAgrees(d, m);
    NoAddressPast(m);
    AddressesAgree(m);
    RadioBytesAgree(m);
    RadioFlagsAgree(m);
    ScalarsAgree(m);
    LayoutAgrees(d, m);
    PacketBytesAgree(d, m);
    AccuracyTrip(m.accuracy);
  }

  /** So the host reads exactly the facts back from it. */
  lemma RecordReadBack(kind: Kind, d: Directory, m: WireMetadata)
    requires d.Fits() && Typed(m) && MetadataAccepted(kind, d, m)
    ensures ReadMetadata(DeviceRecord(kind, d, m), kind, d) == Ok(Facts(kind, d, m))
  {
    hide Typed, MetadataAccepted, MetadataValid, MetadataFits, DirectoryMatches, DeviceRecord, Facts, RecordBytes, ReadMetadata;
    FactsValid(kind, d, m);
    RecordAgrees(kind, d, m);
    MetadataComplete(DeviceRecord(kind, d, m), kind, d, Facts(kind, d, m));
  }
}
