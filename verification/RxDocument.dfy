/** The wire format as docs/api/wifi-csi-protocol.md tabulates it: little-endian words and
    numbered bits at byte offsets. Whatever the decoder accepts says, field by field, what
    the tables say of its bytes. */
module RxDocument {
  import opened Wire
  import opened CsiLayouts
  import opened CsiLayoutProofs
  import opened RxRecords
  import opened RxRecordReader
  import opened RxMetadataProofs
  import opened RxBatches
  import opened RxBatchProofs
  import opened RxCanonical
  import opened RxProperties

  /** The little-endian number in `n` bytes. */
  function Le(s: bytes, o: nat, n: nat): nat
    requires o + n <= |s|
    decreases n
  {
    if n == 0 then 0 else s[o] as nat + 0x100 * Le(s, o + 1, n - 1)
  }

  /** Bit `k` of a number, counted from the least significant one. */
  predicate Bit(v: nat, k: nat) {
    if k == 0 then v % 2 == 1 else Bit(v / 2, k - 1)
  }

  /** A byte in two's complement. */
  function Signed(b: byte): int {
    if b >= 0x80 then b as int - 0x100 else b as int
  }

  function SignedLe(s: bytes, o: nat): int
    requires o + 2 <= |s|
  {
    if Le(s, o, 2) >= 0x8000 then Le(s, o, 2) - 0x1_0000 else Le(s, o, 2)
  }

  function When<T>(available: bool, v: T): Option<T> {
    if available then Some(v) else None
  }

  lemma LeWords(s: bytes, o: nat)
    ensures o + 2 <= |s| ==> Le(s, o, 2) == U16(s, o)
    ensures o + 4 <= |s| ==> Le(s, o, 4) == U32(s, o)
  {
    if o + 2 <= |s| {
      assert Le(s, o, 2) == s[o] as nat + 0x100 * Le(s, o + 1, 1);
      assert Le(s, o + 1, 1) == s[o + 1] as nat + 0x100 * Le(s, o + 2, 0);
    }
    if o + 4 <= |s| {
      assert Le(s, o, 4) == s[o] as nat + 0x100 * Le(s, o + 1, 3);
      assert Le(s, o + 1, 3) == s[o + 1] as nat + 0x100 * Le(s, o + 2, 2);
      assert Le(s, o + 2, 2) == s[o + 2] as nat + 0x100 * Le(s, o + 3, 1);
      assert Le(s, o + 3, 1) == s[o + 3] as nat + 0x100 * Le(s, o + 4, 0);
    }
  }

  lemma LeSplit(s: bytes, o: nat)
    requires o + 8 <= |s|
    ensures Le(s, o, 8) == U64(s, o)
  {
    LeWords(s, o);
    LeWords(s, o + 4);
    hide U32;
    assert Le(s, o, 8) == s[o] as nat + 0x100 * Le(s, o + 1, 7);
    assert Le(s, o + 1, 7) == s[o + 1] as nat + 0x100 * Le(s, o + 2, 6);
    assert Le(s, o + 2, 6) == s[o + 2] as nat + 0x100 * Le(s, o + 3, 5);
    assert Le(s, o + 3, 5) == s[o + 3] as nat + 0x100 * Le(s, o + 4, 4);
    assert Le(s, o, 4) == s[o] as nat + 0x100 * Le(s, o + 1, 3);
    assert Le(s, o + 1, 3) == s[o + 1] as nat + 0x100 * Le(s, o + 2, 2);
    assert Le(s, o + 2, 2) == s[o + 2] as nat + 0x100 * Le(s, o + 3, 1);
    assert Le(s, o + 3, 1) == s[o + 3] as nat + 0x100 * Le(s, o + 4, 0);
  }

  lemma {:induction false} BitsAre(v: nat, n: nat, k: nat)
    requires k < n
    ensures ToBits(v, n)[k] == Bit(v, k)
  {
    if k > 0 {
      BitsAre(v / 2, n - 1, k - 1);
    }
  }

  lemma FlagBits(s: bytes, o: nat, k: nat)
    ensures o + 2 <= |s| && k < 16 ==> Flags16(s, o)[k] == Bit(Le(s, o, 2), k)
    ensures o + 4 <= |s| && k < 32 ==> Flags32(s, o)[k] == Bit(Le(s, o, 4), k)
  {
    LeWords(s, o);
    if o + 2 <= |s| && k < 16 {
      BitsAre(U16(s, o), 16, k);
    }
    if o + 4 <= |s| && k < 32 {
      BitsAre(U32(s, o), 32, k);
    }
  }

  // ------------------------------------------------------------- the metadata table

  predicate IdentitySaid(record: bytes, i: Identity)
    requires |record| == 256
  {
    && i.sequence == Le(record, 0, 4) && i.timestampUs == Le(record, 4, 8)
    && i.rxSequence == When(Le(record, 12, 4) != 0xFFFF_FFFF, Le(record, 12, 4))
    && i.generation == Le(record, 16, 4) && i.radioGeneration == Le(record, 20, 4)
  }

  lemma IdentitySays(record: bytes)
    requires |record| == 256
    ensures IdentitySaid(record, ReadIdentity(record))
  {
    hide U32, U64, Le;
    LeWords(record, 0);
    LeSplit(record, 4);
    LeWords(record, 12);
    LeWords(record, 16);
    LeWords(record, 20);
  }

  predicate AddressesSaid(record: bytes, a: Addresses)
    requires |record| == 256
  {
    |a| == 5 && forall i :: 0 <= i < 5 ==> a[i] == When(Bit(Le(record, 54, 2), i), record[24 + 6 * i..30 + 6 * i])
  }

  lemma {:induction false} AddressesSay(record: bytes, n: nat, a: Addresses)
    requires |record| == 256 && n <= 5 && AddressesTo(record, n) == Ok(a)
    ensures |a| == n && forall i :: 0 <= i < n ==> a[i] == When(Bit(Le(record, 54, 2), i), record[24 + 6 * i..30 + 6 * i])
  {
    hide Flags16, Le, Bit, AllZero;
    if n > 0 {
      AddressesSay(record, n - 1, AddressesTo(record, n - 1).value);
      FlagBits(record, 54, n - 1);
    }
  }

  predicate RadioBytesSaid(record: bytes, r: Radio)
    requires |record| == 256
  {
    var flags := Le(record, 64, 4);
    && r.rssi == Signed(record[56]) && r.noiseFloor == When(Bit(flags, 0), Signed(record[57])) && r.channel == record[58]
    && (match record[59]
        case 0 => r.secondary == NoSecondary
        case 1 => r.secondary == Above
        case 2 => r.secondary == Below
        case b => b == 255 && r.secondary == UnknownSecondary)
    && r.antenna == When(Bit(flags, 1), record[60] as int)
    && (match record[61]
        case 0 => r.phy == Legacy
        case 1 => r.phy == Ht
        case 2 => r.phy == Vht
        case 3 => r.phy == HeSu
        case 4 => r.phy == HeMu
        case 5 => r.phy == HeErSu
        case 6 => r.phy == HeTb
        case b => b == 255 && r.phy == UnknownPhy)
    && r.bandwidthMhz == When(Bit(flags, 3), record[62] as int) && r.mcs == When(Bit(flags, 2), record[63] as int)
    && r.guardIntervalNs == When(Le(record, 124, 2) != 0, Le(record, 124, 2))
    && r.heLtfSize == When(record[126] != 0, record[126] as nat)
  }

  predicate RadioBitsSaid(record: bytes, r: Radio)
    requires |record| == 256
  {
    var flags := Le(record, 64, 4);
    && r.stbc == When(Bit(flags, 4), Bit(flags, 5)) && r.smoothing == When(Bit(flags, 17), Bit(flags, 6))
    && r.sounding == When(Bit(flags, 7), Bit(flags, 8)) && r.aggregation == When(Bit(flags, 9), Bit(flags, 10))
    && r.ldpc == When(Bit(flags, 11), Bit(flags, 12)) && r.shortGi == When(Bit(flags, 13), Bit(flags, 14))
    && r.channelEstimateValid == When(Bit(flags, 15), Bit(flags, 16)) && r.dcm == When(Bit(flags, 18), Bit(flags, 19))
  }

  lemma RadioBytesSay(record: bytes, r: Radio)
    requires |record| == 256 && ReadRadio(record) == Ok(r)
    ensures RadioBytesSaid(record, r)
  {
    hide ReadRadioBits, SymbolChecks, Flags32, U16, Le, Bit;
    FlagBits(record, 64, 0);
    FlagBits(record, 64, 1);
    FlagBits(record, 64, 2);
    FlagBits(record, 64, 3);
    LeWords(record, 124);
  }

  lemma RadioBitsRead(rx: seq<bool>, bits: RadioBits)
    requires |rx| == 32 && ReadRadioBits(rx) == Ok(bits)
    ensures bits.stbc == When(rx[4], rx[5]) && bits.smoothing == When(rx[17], rx[6]) && bits.sounding == When(rx[7], rx[8])
    ensures bits.aggregation == When(rx[9], rx[10]) && bits.ldpc == When(rx[11], rx[12]) && bits.shortGi == When(rx[13], rx[14])
    ensures bits.channelEstimateValid == When(rx[15], rx[16]) && bits.dcm == When(rx[18], rx[19])
  {
  }

  lemma RadioBitsSay(record: bytes, r: Radio)
    requires |record| == 256 && ReadRadio(record) == Ok(r)
    ensures RadioBitsSaid(record, r)
  {
    hide ReadRadioBits, SymbolChecks, Flags32, U16, Le, Bit, PhyOf, SecondaryOf, Scalar, I8;
    var rx := Flags32(record, 64);
    forall k | 4 <= k < 20
      ensures rx[k] == Bit(Le(record, 64, 4), k)
    {
      FlagBits(record, 64, k);
    }
    RadioBitsRead(rx, ReadRadioBits(rx).value);
  }

  predicate PacketSaid(record: bytes, p: RxPacket)
    requires |record| == 256
  {
    var flags := Le(record, 116, 4);
    && record[96] <= 4 && p.kind == [UnknownPacket, Management, Control, Data, Misc][record[96]]
    && p.subtype == When(Bit(flags, 15), record[97] as nat)
    && record[98] <= 3 && p.fcs == [UnknownFcs, AbsentFcs, PresentValid, PresentInvalid][record[98]]
    && record[99] <= 2 && p.captureMode == [NoCapture, HeaderCapture, FullCapture][record[99]]
    && p.headerLength == Le(record, 100, 2) && p.capturedLength == Le(record, 112, 4)
    && p.driverPayload == When(Bit(flags, 17), Le(record, 104, 4)) && p.driverPacket == When(Bit(flags, 18), Le(record, 108, 4))
    && p.frameControl == When(Bit(flags, 15), Le(record, 88, 2)) && p.durationId == When(Bit(flags, 16), Le(record, 90, 2))
    && p.sequenceControl == When(Bit(flags, 13), Le(record, 92, 2)) && p.qosControl == When(Bit(flags, 14), Le(record, 94, 2))
    && p.macFlags == When(Bit(flags, 15),
                          MacFlags(Bit(flags, 5), Bit(flags, 6), Bit(flags, 7), Bit(flags, 8), Bit(flags, 9), Bit(flags, 10),
                                   Bit(flags, 11), Bit(flags, 12)))
    && p.capture == CaptureFlags(Bit(flags, 0), Bit(flags, 2), Bit(flags, 1), Bit(flags, 4), Bit(flags, 3))
  }

  lemma PacketSays(record: bytes, d: Directory, p: RxPacket)
    requires |record| == 256 && |d.flags| == 16 && ReadPacket(record, d) == Ok(p)
    ensures PacketSaid(record, p)
    ensures p.capture == CaptureFlags(d.flags[0], d.flags[1], d.flags[2], d.flags[3], d.flags[4])
  {
    hide LengthChecks, PresenceChecks, WordChecks, ParsedChecks, ReportChecks, Flags32, U16, U32, Le, Bit;
    forall k | 0 <= k < 19
      ensures Flags32(record, 116)[k] == Bit(Le(record, 116, 4), k)
    {
      FlagBits(record, 116, k);
    }
    PacketWords(record);
  }

  lemma PacketWords(record: bytes)
    requires |record| == 256
    ensures Le(record, 88, 2) == U16(record, 88) && Le(record, 90, 2) == U16(record, 90)
    ensures Le(record, 92, 2) == U16(record, 92) && Le(record, 94, 2) == U16(record, 94)
    ensures Le(record, 100, 2) == U16(record, 100) && Le(record, 104, 4) == U32(record, 104)
    ensures Le(record, 108, 4) == U32(record, 108) && Le(record, 112, 4) == U32(record, 112)
  {
    hide U16, U32, Le;
    LeWords(record, 88);
    LeWords(record, 90);
    LeWords(record, 92);
    LeWords(record, 94);
    LeWords(record, 100);
    LeWords(record, 104);
    LeWords(record, 108);
    LeWords(record, 112);
  }

  /** A 40-byte segment slot. */
  predicate SegmentSaid(slot: bytes, seg: CsiSegment)
    requires |slot| == 40
  {
    && slot[0] <= 7 && seg.kind == [UnknownSegment, Lltf, HtLtf, StbcHtLtf2, VhtLtf, HeLtf1, HeLtf2, Mixed][slot[0]]
    && seg.offsetBytes == Le(slot, 4, 4) && seg.lengthBytes == Le(slot, 8, 4) && seg.iqPairs == Le(slot, 12, 4)
    && slot[1] <= 2 && |seg.ranges| == slot[1] as nat
    && (forall i :: 0 <= i < |seg.ranges| ==>
                      seg.ranges[i] == CsiRange(SignedLe(slot, 16 + 4 * i), SignedLe(slot, 18 + 4 * i)))
    && slot[2] <= 3 && |seg.nulls| == slot[2] as nat
    && (forall i :: 0 <= i < |seg.nulls| ==> seg.nulls[i] == SignedLe(slot, 24 + 2 * i))
  }

  lemma SignedWord(s: bytes, o: nat)
    requires o + 2 <= |s|
    ensures I16(s, o) == SignedLe(s, o)
  {
    LeWords(s, o);
  }

  lemma SegmentSays(slot: bytes, offset: nat, length: nat, encoding: Encoding, known: bool, seg: CsiSegment)
    requires |slot| == 40 && ReadSegment(slot, offset, length, encoding, known) == Ok(seg)
    ensures SegmentSaid(slot, seg)
  {
    hide AllZero, Distinct, Disjoint, RangeTotal, BytesPerPair, I16, SignedLe, U32, Le;
    LeWords(slot, 4);
    LeWords(slot, 8);
    LeWords(slot, 12);
    forall o | 16 <= o < 30
      ensures I16(slot, o) == SignedLe(slot, o)
    {
      SignedWord(slot, o);
    }
  }

  predicate LayoutSaid(record: bytes, l: CsiLayout)
    requires |record| == 256
  {
    && l.known == Bit(Le(record, 68, 4), 2)
    && record[72] <= 3 && l.encoding == [UnknownEncoding, SignedInt8, SignedInt12Le, SignedInt12Packed][record[72]]
    && record[73] == [0, 8, 12, 12][record[72]] && l.sampleBits == When(record[73] != 0, record[73] as nat)
    && record[74] <= 2 && l.schema == [UnknownSchema, LegacyLayout, HeLayout][record[74]] && record[75] == 0
    && l.byteLength == Le(record, 76, 4) && l.iqPairs == Le(record, 80, 4) && l.padding == Le(record, 84, 2)
    && record[86] <= 3 && |l.segments| == record[86] as nat
    && forall k :: 0 <= k < |l.segments| ==> SegmentSaid(record[128 + 40 * k..168 + 40 * k], l.segments[k])
  }

  lemma {:induction false} SegmentsSay(record: bytes, n: nat, length: nat, encoding: Encoding, known: bool, scan: Scan)
    requires |record| == 256 && n <= 3 && ScanTo(record, n, length, encoding, known) == Ok(scan)
    ensures |scan.segments| == n
    ensures forall k :: 0 <= k < n ==> SegmentSaid(record[128 + 40 * k..168 + 40 * k], scan.segments[k])
  {
    hide ReadSegment, SegmentSaid;
    if n > 0 {
      var before := ScanTo(record, n - 1, length, encoding, known).value;
      SegmentsSay(record, n - 1, length, encoding, known, before);
      SegmentSays(Slot(record, n - 1), before.offset, length, encoding, known, scan.segments[n - 1]);
    }
  }

  lemma DimensionsSay(record: bytes, d: Dimensions)
    requires |record| == 256 && ReadDimensions(record) == Ok(d)
    ensures d.known == Bit(Le(record, 68, 4), 2)
    ensures record[72] <= 3 && d.encoding == [UnknownEncoding, SignedInt8, SignedInt12Le, SignedInt12Packed][record[72]]
    ensures record[73] == [0, 8, 12, 12][record[72]] && record[73] == SampleBits(d.encoding)
    ensures record[74] <= 2 && d.schema == [UnknownSchema, LegacyLayout, HeLayout][record[74]] && record[75] == 0
    ensures d.length == Le(record, 76, 4) && d.iq == Le(record, 80, 4) && d.padding == Le(record, 84, 2)
    ensures record[86] <= 3 && d.count == record[86] as nat
  {
    hide AllZero, Flags32, U16, U32, Le, Bit;
    FlagBits(record, 68, 2);
    LeWords(record, 76);
    LeWords(record, 80);
    LeWords(record, 84);
  }

  lemma LayoutSays(record: bytes, l: CsiLayout)
    requires |record| == 256 && ReadLayout(record) == Ok(l)
    ensures LayoutSaid(record, l)
  {
    hide AllZero, ReadDimensions, ScanTo, SegmentSaid, Le, Bit;
    var d := ReadDimensions(record).value;
    DimensionsSay(record, d);
    SegmentsSay(record, d.count, d.length, d.encoding, d.known, ScanTo(record, d.count, d.length, d.encoding, d.known).value);
  }

  /** The metadata record, as section "RX metadata (256 bytes)" lists it. */
  predicate RecordSaid(record: bytes, m: RxMetadata)
    requires |record| == 256
  {
    && IdentitySaid(record, m.identity) && AddressesSaid(record, m.addresses)
    && RadioBytesSaid(record, m.radio) && RadioBitsSaid(record, m.radio)
    && m.firstWordInvalid == Bit(Le(record, 68, 4), 0) && m.csiDataValid == Bit(Le(record, 68, 4), 1)
    && LayoutSaid(record, m.layout) && PacketSaid(record, m.packet)
    && record[87] <= 2 && m.accuracy == [NormalTime, PowerSaveDependent, CallbackTime][record[87]]
    && |m.rawScalars| == 4
    && forall k :: 0 <= k < 4 ==> m.rawScalars[k] == When(record[120 + k] != 255, record[120 + k] as nat)
  }

  lemma RecordSays(record: bytes, kind: Kind, d: Directory, m: RxMetadata)
    requires |record| == 256 && |d.flags| == 16 && ReadMetadata(record, kind, d) == Ok(m)
    ensures RecordSaid(record, m)
  {
    hide AllZero, ReadLayout, ReadIdentity, AddressesTo, ReadRadio, ReadPacket, Flags32, U32, Le, Bit;
    hide IdentitySaid, AddressesSaid, RadioBytesSaid, RadioBitsSaid, LayoutSaid, PacketSaid;
    IdentitySays(record);
    AddressesFive(record, m.addresses);
    RadioBytesSay(record, m.radio);
    RadioBitsSay(record, m.radio);
    LayoutSays(record, m.layout);
    PacketSays(record, d, m.packet);
    FlagBits(record, 68, 0);
    FlagBits(record, 68, 1);
  }

  lemma AddressesFive(record: bytes, a: Addresses)
    requires |record| == 256 && AddressesTo(record, 5) == Ok(a)
    ensures AddressesSaid(record, a)
  {
    hide Le, Bit;
    AddressesSay(record, 5, a);
  }

  // ------------------------------------------------------- the header and directory tables

  /** The header of a batch of `count` frames in `total` bytes. */
  predicate HeaderSaid(view: bytes, kind: Kind, count: nat, total: nat) {
    && |view| >= 32 && view[0..8] == Ascii(if kind == Csi then "E32QCSI1" else "E32QMON1")
    && Le(view, 8, 2) == 1 && Le(view, 10, 2) == 32 && Le(view, 12, 4) == count
    && Le(view, 16, 2) == (if kind == Csi then 40 else 24) && Le(view, 18, 2) == 256
    && Le(view, 20, 4) == 1 && Le(view, 24, 4) == total && Le(view, 28, 4) == 0
  }

  /** Where row `i` of the directory starts, and where the directory of `i` frames ends. */
  function RowAt(kind: Kind, i: nat): nat {
    if kind == Csi then 32 + 40 * i else 32 + 24 * i
  }

  /** A length rounded up to whole words. */
  function Words(n: nat): nat {
    (n + 3) / 4 * 4
  }

  /** A directory row for a record at `place` and spans from `start` on: an absent span
      has offset zero, a present one stands at the cursor. */
  predicate RowSaid(kind: Kind, row: bytes, place: nat, start: nat, d: Directory)
  {
    var csiOffset := if d.csiLength == 0 then 0 else start;
    var packetOffset := if d.captured == 0 then 0 else start + Words(d.csiLength);
    && |row| == (if kind == Csi then 40 else 24) && |d.flags| == 16
    && Le(row, 0, 4) == place && Le(row, 20, 2) == d.headerPrefix && FlagsSaid(row, d.flags)
    && if kind == Csi then
         && Le(row, 4, 4) == csiOffset && Le(row, 8, 4) == d.csiLength
         && Le(row, 12, 4) == packetOffset && Le(row, 16, 4) == d.captured
         && Le(row, 24, 4) == d.payloadReport && Le(row, 28, 4) == d.readable
         && Le(row, 32, 4) == d.sequence && Le(row, 36, 4) == 0
       else
         && Le(row, 4, 4) == packetOffset && Le(row, 8, 4) == d.captured
         && Le(row, 12, 4) == d.payloadReport && Le(row, 16, 4) == d.readable
  }

  predicate FlagsSaid(row: bytes, flags: seq<bool>)
    requires |row| >= 24 && |flags| == 16
  {
    forall k :: 0 <= k < 16 ==> flags[k] == Bit(Le(row, 22, 2), k)
  }

  lemma HeaderSays(view: bytes, kind: Kind, count: nat, total: nat)
    requires 32 <= |view| && count <= 128 && IsU32(total) && view[0..32] == HeaderBytes(kind, count, total)
    ensures HeaderSaid(view, kind, count, total)
  {
    hide U16, U32, Le, HeaderBytes;
    HeaderSlices(view, kind, count, total);
    LeWords(view, 8);
    LeWords(view, 10);
    LeWords(view, 12);
    LeWords(view, 16);
    LeWords(view, 18);
    LeWords(view, 20);
    LeWords(view, 24);
    LeWords(view, 28);
  }

  lemma RowFlagsSay(row: bytes, flags: seq<bool>)
    requires |row| >= 24 && Flags16(row, 22) == flags
    ensures FlagsSaid(row, flags)
  {
    hide Flags16, Le, Bit;
    forall k | 0 <= k < 16
      ensures flags[k] == Bit(Le(row, 22, 2), k)
    {
      FlagBits(row, 22, k);
    }
  }

  lemma CsiRowSays(place: nat, start: nat, csiOffset: nat, packetOffset: nat, d: Directory)
    requires IsU32(place) && IsU32(csiOffset) && IsU32(packetOffset) && d.Fits()
    requires csiOffset == if d.csiLength == 0 then 0 else start
    requires packetOffset == if d.captured == 0 then 0 else start + Words(d.csiLength)
    ensures RowSaid(Csi, CsiRow(place, csiOffset, packetOffset, d), place, start, d)
  {
    hide U16, U32, Le, Flags16, CsiRow, Words, FlagsSaid;
    var row := CsiRow(place, csiOffset, packetOffset, d);
    CsiRowSlices(row, place, csiOffset, packetOffset, d);
    RowFlagsSay(row, d.flags);
    LeWords(row, 0);
    LeWords(row, 4);
    LeWords(row, 8);
    LeWords(row, 12);
    LeWords(row, 16);
    LeWords(row, 20);
    LeWords(row, 24);
    LeWords(row, 28);
    LeWords(row, 32);
    LeWords(row, 36);
  }

  lemma MonitorRowSays(place: nat, start: nat, packetOffset: nat, d: Directory)
    requires IsU32(place) && IsU32(packetOffset) && d.Fits()
    requires packetOffset == if d.captured == 0 then 0 else start + Words(d.csiLength)
    ensures RowSaid(Monitor, MonitorRow(place, packetOffset, d), place, start, d)
  {
    hide U16, U32, Le, Flags16, MonitorRow, Words, FlagsSaid;
    var row := MonitorRow(place, packetOffset, d);
    MonitorRowSlices(row, place, packetOffset, d);
    RowFlagsSay(row, d.flags);
    LeWords(row, 0);
    LeWords(row, 4);
    LeWords(row, 8);
    LeWords(row, 12);
    LeWords(row, 16);
    LeWords(row, 20);
  }

  /** What the directory says of a frame. The header prefix is the part of the captured
      bytes that belongs to the MAC header. */
  function DirectoryFacts(f: RxFrame): (d: Directory)
    ensures |d.flags| == 16
  {
    var p, c := f.metadata.packet, f.metadata.packet.capture;
    Directory(|f.csi|, |f.packet|, f.readable, if p.headerLength < |f.packet| then p.headerLength else |f.packet|,
              [c.present, c.truncated, c.headerOnly, c.parseValid, c.pointerValid] + seq(11, _ => false),
              if p.driverPayload.Some? then p.driverPayload.value else 0, f.metadata.identity.sequence)
  }

  lemma PaddedWords(s: bytes)
    ensures |Padded(s)| == Words(|s|)
  {
  }

  lemma RowSays(kind: Kind, f: RxFrame, place: nat, start: nat)
    requires RowFits(f, place, start) && FrameValid(kind, f)
    ensures RowSaid(kind, RowBytes(kind, f, place, start), place, start, DirectoryFacts(f))
  {
    hide Padded, Words, RowSaid, CsiRow, MonitorRow, MetadataValid;
    PaddedWords(f.csi);
    MonitorHasNoCsi(f.metadata, kind, f.readable);
    if kind == Csi {
      CsiRowSays(place, start, SpanOffset(start, |f.csi|), SpanOffset(start + |Padded(f.csi)|, |f.packet|), DirectoryFacts(f));
    } else {
      MonitorRowSays(place, start, SpanOffset(start + |Padded(f.csi)|, |f.packet|), DirectoryFacts(f));
    }
  }

  // ----------------------------------------------------------------- accepted inputs

  /** Row and record of frame `i`, whose spans start at `start`. */
  predicate FrameSaid(view: bytes, kind: Kind, count: nat, i: nat, start: nat, f: RxFrame)
    requires i < count && RowAt(kind, count) + 256 * count <= |view|
  {
    var place := RowAt(kind, count) + 256 * i;
    && RowSaid(kind, view[RowAt(kind, i)..RowAt(kind, i + 1)], place, start, DirectoryFacts(f))
    && RecordSaid(view[place..place + 256], f.metadata)
  }

  lemma HeldSays(view: bytes, kind: Kind, count: nat, i: nat, start: nat, f: RxFrame)
    requires i < count <= 128 && ControlEnd(kind, count) <= |view| <= U32_MAX && start <= |view|
    requires FrameHeld(view, kind, count, i, start, f)
    ensures FrameSaid(view, kind, count, i, start, f)
  {
    hide FrameValid, MetadataFits, RowFits, RowBytes, RecordBytes, FramePayload, RowSaid, RecordSaid, DirectoryFacts;
    RowSays(kind, f, MetadataBase(kind, count) + 256 * i, start);
    HeldRecord(RecordSlice(view, kind, count, i), kind, f);
  }

  lemma HeldRecord(record: bytes, kind: Kind, f: RxFrame)
    requires |record| == 256 && FrameValid(kind, f) && MetadataFits(f.metadata) && record == RecordBytes(f.metadata)
    ensures RecordSaid(record, f.metadata)
  {
    hide MetadataValid, MetadataFits, RecordBytes, RecordSaid, ReadMetadata, RecordFlags;
    FrameFits(kind, f);
    MonitorHasNoCsi(f.metadata, kind, f.readable);
    ValidFits(f.metadata, kind, f.readable);
    var d := Directory(|f.csi|, |f.packet|, f.readable, f.headerPrefix, RecordFlags(f.metadata.packet.capture),
                       f.metadata.packet.driverPayload.GetOr(0), f.metadata.identity.sequence);
    MetadataComplete(record, kind, d, f.metadata);
    RecordSays(record, kind, d, f.metadata);
  }

  lemma ValidFits(m: RxMetadata, kind: Kind, readable: nat)
    requires MetadataValid(m, kind, readable)
    ensures PacketFits(m.packet)
  {
    hide IdentityValid, AddressesValid, RadioValid, RawScalarsValid, LayoutValid, LayoutFits;
    hide FrameControlValid, HeaderWordsValid, ParsedValid, CaptureValid, PacketFits;
  }

  /** Whatever is accepted says what the wire format's tables say of its bytes: the header,
      and for every frame the directory row and the metadata record. The spans of a frame
      start where the ones before it, rounded up to words, end. */
  lemma AcceptedSays(view: bytes, kind: Kind, b: RxBatch, i: nat)
    requires ReadBatch(view, kind) == Ok(b) && i < |b.frames|
    ensures HeaderSaid(view, kind, |b.frames|, |view|)
    ensures PayloadStart(b, 0) == RowAt(kind, |b.frames|) + 256 * |b.frames| <= |view|
    ensures PayloadStart(b, i + 1) == PayloadStart(b, i) + Words(|b.frames[i].csi|) + Words(|b.frames[i].packet|)
    ensures FrameSaid(view, kind, |b.frames|, i, PayloadStart(b, i), b.frames[i])
  {
    hide ReadBatch, Held, FrameHeld, FramePayload, PayloadBytes, CsiTotal, PacketTotal, HeaderSaid, FrameSaid;
    hide HeaderBytes, Words;
    var n := |b.frames|;
    BatchHeldOf(view, kind, b);
    AcceptedHeader(view, kind, b);
    HeaderSays(view, kind, n, |view|);
    FrameAt(view, kind, n, n, Progress(b.frames, |view|, b.csiBytes, b.packetBytes), i);
    StartsStep(b, i);
    PayloadSize(b.frames[i]);
    PaddedWords(b.frames[i].csi);
    PaddedWords(b.frames[i].packet);
    HeldSays(view, kind, n, i, PayloadStart(b, i), b.frames[i]);
  }

  lemma AcceptedHeader(view: bytes, kind: Kind, b: RxBatch)
    requires ReadBatch(view, kind) == Ok(b)
    ensures 32 <= |view| <= U32_MAX && |b.frames| <= 128 && view[0..32] == HeaderBytes(kind, |b.frames|, |view|)
  {
    hide ReadHeader, FramesTo, HeaderBytes, ControlEnd;
    var count := ReadHeader(view, kind).value;
    HeaderRead(view, kind, count);
    FramesCount(view, kind, count, count, FramesTo(view, kind, count, count).value);
  }

  lemma {:induction false} FramesCount(view: bytes, kind: Kind, count: nat, n: nat, p: Progress)
    requires n <= count && ControlEnd(kind, count) <= |view| && FramesTo(view, kind, count, n) == Ok(p)
    ensures |p.frames| == n
  {
    hide ReadFrame, ControlEnd;
    if n > 0 {
      FramesCount(view, kind, count, n - 1, FramesTo(view, kind, count, n - 1).value);
    }
  }

  /** The offset words of the directory: an absent span says 0, a present one says where
      its bytes start. */
  lemma OffsetWords(view: bytes, kind: Kind, b: RxBatch, i: nat)
    requires ReadBatch(view, kind) == Ok(b) && i < |b.frames|
    ensures PayloadStart(b, i) + Words(|b.frames[i].csi|) + |b.frames[i].packet| <= |view|
    ensures var f, start := b.frames[i], PayloadStart(b, i);
            var packetStart := start + Words(|f.csi|);
            && RowAt(kind, i) + 16 <= |view|
            && view[start..start + |f.csi|] == f.csi && view[packetStart..packetStart + |f.packet|] == f.packet
            && if kind == Csi then
                 && Le(view, 32 + 40 * i + 4, 4) == (if f.csi == [] then 0 else start)
                 && Le(view, 32 + 40 * i + 12, 4) == (if f.packet == [] then 0 else packetStart)
               else
                 && f.csi == [] && Le(view, 32 + 24 * i + 4, 4) == (if f.packet == [] then 0 else packetStart)
  {
    hide ReadBatch, PayloadStart, ControlEnd, HeaderSaid, FrameSaid, SpansSaid, Le, AllZero, Words, Padding, MetadataValid;
    AcceptedSays(view, kind, b, i);
    PayloadTiling(view, kind, b, i);
    WordsPadding(|b.frames[i].csi|);
    WordsPadding(|b.frames[i].packet|);
    AcceptedFrame(view, kind, b, i);
    MonitorHasNoCsi(b.frames[i].metadata, kind, b.frames[i].readable);
    SpansOf(view, kind, |b.frames|, i, PayloadStart(b, i), b.frames[i]);
    OffsetsSaid(view, kind, i, PayloadStart(b, i), b.frames[i]);
  }

  /** The two offset words of row `i`. */
  predicate OffsetsAt(view: bytes, kind: Kind, i: nat, start: nat, f: RxFrame)
    requires RowAt(kind, i + 1) <= |view|
  {
    var packetStart := start + Words(|f.csi|);
    if kind == Csi then
      && Le(view, 32 + 40 * i + 4, 4) == (if f.csi == [] then 0 else start)
      && Le(view, 32 + 40 * i + 12, 4) == (if f.packet == [] then 0 else packetStart)
    else
      && f.csi == [] && Le(view, 32 + 24 * i + 4, 4) == (if f.packet == [] then 0 else packetStart)
  }

  lemma OffsetsSaid(view: bytes, kind: Kind, i: nat, start: nat, f: RxFrame)
    requires RowAt(kind, i + 1) <= |view|
    requires SpansSaid(view[RowAt(kind, i)..RowAt(kind, i + 1)], kind, start, f)
    ensures OffsetsAt(view, kind, i, start, f)
  {
    hide Le, Words;
    SliceWord(view, RowAt(kind, i), RowAt(kind, i + 1), 4);
    SliceWord(view, RowAt(kind, i), RowAt(kind, i + 1), 12);
  }

  predicate SpansSaid(row: bytes, kind: Kind, start: nat, f: RxFrame)
    requires |row| == if kind == Csi then 40 else 24
  {
    var packetOffset := if f.packet == [] then 0 else start + Words(|f.csi|);
    if kind == Csi then Le(row, 4, 4) == (if f.csi == [] then 0 else start) && Le(row, 12, 4) == packetOffset
    else f.csi == [] && Le(row, 4, 4) == packetOffset
  }

  lemma SpansOf(view: bytes, kind: Kind, count: nat, i: nat, start: nat, f: RxFrame)
    requires i < count && RowAt(kind, count) + 256 * count <= |view|
    requires FrameSaid(view, kind, count, i, start, f) && (kind == Monitor ==> f.csi == [])
    ensures RowAt(kind, i + 1) <= |view| && SpansSaid(view[RowAt(kind, i)..RowAt(kind, i + 1)], kind, start, f)
  {
    hide RecordSaid, FlagsSaid, Le, Words;
  }

  lemma WordsPadding(n: nat)
    ensures Words(n) == n + Padding(n)
  {
  }

  lemma SliceWord(s: bytes, from: nat, to: nat, o: nat)
    requires from + o + 4 <= to <= |s|
    ensures Le(s[from..to], o, 4) == Le(s, from + o, 4)
  {
    hide Le;
    LeWords(s, from + o);
    LeWords(s[from..to], o);
  }
}
