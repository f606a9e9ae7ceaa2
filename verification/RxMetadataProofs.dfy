/** The whole metadata record: `ReadMetadata` accepts a record exactly when it is the
    encoding of valid metadata, and returns that metadata. */
module RxMetadataProofs {
  import opened Wire
  import opened CsiLayouts
  import opened CsiLayoutProofs
  import opened RxRecords
  import opened RxRecordReader
  import opened RxRecordProofs
  import opened RxPacketProofs

  /** A record is the encoding of `m` when each of its regions is. */
  predicate RecordRegions(record: bytes, m: RxMetadata)
    requires |record| == 256 && MetadataFits(m)
  {
    && record[0..24] == IdentityBytes(m.identity)
    && record[24..56] == AddressesBytes(m.addresses)
    && record[56..64] == RadioBytes(m.radio)
    && record[64..68] == PutFlags32(RadioFlags(m.radio))
    && record[68..87] == DimensionBytes(m.layout, m.firstWordInvalid, m.csiDataValid)
    && record[87] == AccuracyCode(m.accuracy)
    && record[88..96] == HeaderWordBytes(m.packet)
    && record[96..120] == PacketBytes(m.packet)
    && record[120..124] == RawScalarBytes(m.rawScalars)
    && record[124..128] == SymbolBytes(m.radio)
    && record[128..248] == SlotBytes(m.layout)
    && AllZero(record[248..256])
  }

  lemma FirstRegions(record: bytes, a: bytes, b: bytes, c: bytes, d: bytes, rest: bytes)
    requires |record| == 256 && |a| == 24 && |b| == 32 && |c| == 8 && |d| == 4 && |rest| == 188
    ensures record == a + (b + (c + (d + rest))) <==>
            record[0..24] == a && record[24..56] == b && record[56..64] == c && record[64..68] == d
            && record[68..256] == rest
  {
    assert record == record[0..256];
    SliceSplit(record, 0, 256, a, b + (c + (d + rest)));
    SliceSplit(record, 24, 256, b, c + (d + rest));
    SliceSplit(record, 56, 256, c, d + rest);
    SliceSplit(record, 64, 256, d, rest);
  }

  lemma MiddleRegions(record: bytes, e: bytes, f: byte, g: bytes, h: bytes, rest: bytes)
    requires |record| == 256 && |e| == 19 && |g| == 8 && |h| == 24 && |rest| == 136
    ensures record[68..256] == e + ([f] + (g + (h + rest))) <==>
            record[68..87] == e && record[87] == f && record[88..96] == g && record[96..120] == h
            && record[120..256] == rest
  {
    SliceSplit(record, 68, 256, e, [f] + (g + (h + rest)));
    SliceSplit(record, 87, 256, [f], g + (h + rest));
    SliceSplit(record, 88, 256, g, h + rest);
    SliceSplit(record, 96, 256, h, rest);
    assert record[87..88] == [record[87]];
  }

  lemma LastRegions(record: bytes, i: bytes, j: bytes, k: bytes)
    requires |record| == 256 && |i| == 4 && |j| == 4 && |k| == 120
    ensures record[120..256] == i + (j + (k + Zeros(8))) <==>
            record[120..124] == i && record[124..128] == j && record[128..248] == k && AllZero(record[248..256])
  {
    SliceSplit(record, 120, 256, i, j + (k + Zeros(8)));
    SliceSplit(record, 124, 256, j, k + Zeros(8));
    SliceSplit(record, 128, 256, k, Zeros(8));
    ZeroSlice(record, 248, 256);
  }

  lemma RecordSplit(record: bytes, m: RxMetadata)
    requires |record| == 256 && MetadataFits(m)
    ensures record == RecordBytes(m) <==> RecordRegions(record, m)
  {
    hide IdentityBytes, AddressesBytes, RadioBytes, PutFlags32, RadioFlags, DimensionBytes, HeaderWordBytes, PacketBytes;
    hide RawScalarBytes, SymbolBytes, SlotBytes, AllZero, AccuracyCode;
    hide IdentityValid, AddressesValid, RadioValid, RawScalarsValid, LayoutFits, PacketFits;
    var tail := TailBytes(m);
    var dims := DimensionBytes(m.layout, m.firstWordInvalid, m.csiDataValid);
    var middle := dims + ([AccuracyCode(m.accuracy)] + (HeaderWordBytes(m.packet) + (PacketBytes(m.packet) + tail)));
    FirstRegions(record, IdentityBytes(m.identity), AddressesBytes(m.addresses), RadioBytes(m.radio),
                 PutFlags32(RadioFlags(m.radio)), middle);
    MiddleRegions(record, dims, AccuracyCode(m.accuracy), HeaderWordBytes(m.packet), PacketBytes(m.packet), tail);
    LastRegions(record, RawScalarBytes(m.rawScalars), SymbolBytes(m.radio), SlotBytes(m.layout));
  }

  lemma AccuracyCodes(c: byte, a: Accuracy)
    ensures AccuracyCode(a) == c <==> c <= 2 && ACCURACIES[c] == a
  {
  }

  function RawScalarsOf(record: bytes): RawScalars
    requires |record| == 256
  {
    [RawScalar(record[120]), RawScalar(record[121]), RawScalar(record[122]), RawScalar(record[123])]
  }

  lemma RawScalarsRead(record: bytes, s: RawScalars)
    requires |record| == 256
    ensures RawScalarsValid(s) && record[120..124] == RawScalarBytes(s) <==> RawScalarsOf(record) == s
  {
    var b := record[120..124];
    assert b[0] == record[120] && b[1] == record[121] && b[2] == record[122] && b[3] == record[123];
    if RawScalarsOf(record) == s {
      assert s[0] == RawScalar(record[120]) && s[1] == RawScalar(record[121]);
      assert s[2] == RawScalar(record[122]) && s[3] == RawScalar(record[123]);
    }
  }

  /** What the source's final checks establish, with the layout and addresses in hand. */
  lemma FinishSound(record: bytes, kind: Kind, d: Directory, layout: CsiLayout, addresses: Addresses, m: RxMetadata)
    requires |record| == 256 && |d.flags| == 16 && IsU32(d.readable)
    requires (forall i :: 5 <= i < 16 ==> !d.flags[i]) && AllZero(record[102..104]) && record[127] == 0
    requires FinishMetadata(record, kind, d, layout, addresses) == Ok(m)
    ensures m.identity == ReadIdentity(record) && record[87] == AccuracyCode(m.accuracy)
    ensures m.addresses == addresses && m.layout == layout && m.rawScalars == RawScalarsOf(record)
    ensures m.firstWordInvalid == Flags32(record, 68)[0] && m.csiDataValid == Flags32(record, 68)[1]
    ensures RadioHeld(record, m.radio)
    ensures PacketValid(m.packet, d.readable) && PacketFields(record, m.packet) && PacketAgrees(d, m.packet)
    ensures kind == Monitor ==> d.csiLength == 0 && m.radio.channelEstimateValid.None?
  {
    hide ReadRadio, ReadPacket, RadioHeld, PacketValid, PacketFields, PacketAgrees, Flags32, ReadIdentity, AccuracyCode, RawScalar;
    AccuracyCodes(record[87], m.accuracy);
    RadioSound(record, m.radio);
    PacketSound(record, d, m.packet);
    EstimateBit(record, m.radio);
  }

  lemma EstimateBit(record: bytes, r: Radio)
    requires |record| == 256 && RadioHeld(record, r)
    ensures RadioValid(r) && record[56..64] == RadioBytes(r) && record[124..128] == SymbolBytes(r)
    ensures record[64..68] == PutFlags32(RadioFlags(r))
    ensures !Flags32(record, 64)[15] && !Flags32(record, 64)[16] <==> r.channelEstimateValid.None?
  {
    hide Flags32, PutFlags32, RadioFlags, RadioBytes, SymbolBytes, RadioValid, IsTrue;
    FlagWord32(record, 64, RadioFlags(r));
    FlagsSound(Flags32(record, 64), r);
    NotTrue(r.channelEstimateValid);
  }

  lemma NotTrue(o: Option<bool>)
    ensures IsTrue(o) ==> o.Some?
  {
  }

  lemma MetadataSound(record: bytes, kind: Kind, d: Directory, m: RxMetadata)
    requires |record| == 256 && d.Fits() && ReadMetadata(record, kind, d) == Ok(m)
    ensures MetadataValid(m, kind, d.readable) && DirectoryMatches(d, m) && MetadataFits(m)
    ensures RecordBytes(m) == record
  {
    hide ReadLayout, ReadAddresses, FinishMetadata, Flags32, RecordBytes, AddressesBytes, AddressesValid;
    hide IdentityBytes, IdentityValid, RadioHeld, PacketFields, PacketBytes, HeaderWordBytes, RawScalarBytes;
    hide RawScalarsValid, RecordFlags, HeaderPrefix, LayoutValid, LayoutFits, DimensionBytes, SlotBytes, AllZero;
    hide FrameControlValid, HeaderWordsValid, ParsedValid, CaptureValid, PacketFits, RadioValid, RadioBytes, SymbolBytes;
    var layout, addresses := ReadLayout(record).value, ReadAddresses(record).value;
    ReservedZero(record);
    FinishSound(record, kind, d, layout, addresses, m);
    LayoutSound(record, layout);
    AddressesSoundAll(record, addresses);
    IdentityRead(record, m.identity);
    SequenceRead(record);
    RawScalarsRead(record, m.rawScalars);
    PacketSlices(record, m.packet);
    EstimateBit(record, m.radio);
    RecordSplit(record, m);
  }

  lemma ReservedZero(record: bytes)
    requires |record| == 256 && AllZero(record[127..128])
    ensures record[127] == 0
  {
    assert record[127..128][0] == record[127];
  }

  lemma SequenceRead(record: bytes)
    requires |record| == 256
    ensures ReadIdentity(record).sequence == U32(record, 0)
  {
  }

  lemma MetadataComplete(record: bytes, kind: Kind, d: Directory, m: RxMetadata)
    requires |record| == 256 && d.Fits()
    requires MetadataValid(m, kind, d.readable) && DirectoryMatches(d, m) && MetadataFits(m)
    requires RecordBytes(m) == record
    ensures ReadMetadata(record, kind, d) == Ok(m)
  {
    hide ReadLayout, ReadAddresses, FinishMetadata, Flags32, RecordBytes, AddressesBytes, AddressesValid;
    hide IdentityBytes, IdentityValid, RadioHeld, PacketFields, PacketBytes, HeaderWordBytes, RawScalarBytes;
    hide RawScalarsValid, RecordFlags, HeaderPrefix, LayoutValid, LayoutFits, DimensionBytes, SlotBytes, AllZero;
    hide FrameControlValid, HeaderWordsValid, ParsedValid, CaptureValid, PacketFits, RadioValid, RadioBytes, SymbolBytes;
    RecordSplit(record, m);
    PacketSlices(record, m.packet);
    LayoutComplete(record, m.layout, m.firstWordInvalid, m.csiDataValid);
    AddressesCompleteAll(record, m.addresses);
    IdentityRead(record, m.identity);
    SequenceRead(record);
    FinishComplete(record, kind, d, m);
    Captures(d.flags, m.packet.capture);
  }

  lemma FinishComplete(record: bytes, kind: Kind, d: Directory, m: RxMetadata)
    requires |record| == 256 && d.Fits()
    requires MetadataValid(m, kind, d.readable) && DirectoryMatches(d, m) && MetadataFits(m)
    requires RecordRegions(record, m) && ReadIdentity(record) == m.identity
    requires m.firstWordInvalid == Flags32(record, 68)[0] && m.csiDataValid == Flags32(record, 68)[1]
    ensures FinishMetadata(record, kind, d, m.layout, m.addresses) == Ok(m)
    ensures AllZero(record[102..104]) && AllZero(record[127..128]) && AllZero(record[248..256])
  {
    hide ReadRadio, ReadPacket, AccuracyCode, Flags32, IdentityBytes, AddressesBytes, AddressesValid, IdentityValid, ReadIdentity;
    hide RadioBytes, SymbolBytes, RadioValid, PutFlags32, RadioFlags, DimensionBytes, HeaderWordBytes, PacketBytes, RawScalar;
    hide RawScalarBytes, RawScalarsValid, SlotBytes, RecordFlags, HeaderPrefix, LayoutValid, LayoutFits, PacketFits;
    hide FrameControlValid, HeaderWordsValid, ParsedValid, CaptureValid;
    AccuracyCodes(record[87], m.accuracy);
    RawScalarsRead(record, m.rawScalars);
    FlagWord32(record, 64, RadioFlags(m.radio));
    assert RadioHeld(record, m.radio);
    RadioComplete(record, m.radio);
    EstimateBit(record, m.radio);
    PacketSlices(record, m.packet);
    PacketComplete(record, d, m.packet);
    assert record[127..128] == [record[127]];
  }
}
