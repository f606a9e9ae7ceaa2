/** The firmware's metadata records: what its preflight accepts and the 256 bytes it writes
    (components/esp32_mquickjs/src/modules/wifi_common/esp32_mquickjs_wifi_rx_wire_metadata.c),
    against what the host decodes. */
module DeviceMetadata {
  import opened Wire
  import opened CsiLayouts
  import opened RxRecords
  import opened RxRecordReader
  import opened RxBatches
  import opened DeviceWriter

  // -------------------------------------------------------------- the firmware's types

  /** A segment slot: enum value, words, and as many ranges and nulls as its counts say. */
  datatype WireSegment = WireSegment(kind: nat, offsetBytes: nat, lengthBytes: nat, iqPairs: nat,
                                     ranges: seq<CsiRange>, nulls: seq<int>)

  datatype WireLayout = WireLayout(schema: nat, encoding: nat, sampleBits: byte, byteLength: nat, iqPairs: nat,
                                   padding: nat, known: bool, segments: seq<WireSegment>)

  /** `esp32_mquickjs_wifi_rx_wire_metadata_t`; masks are given bit by bit, and a header word
      that is not available is `None`. */
  datatype WireMetadata = WireMetadata(
    timestampUs: nat, rxSequence: nat, sessionGeneration: nat, radioGeneration: nat,
    addresses: seq<bytes>, addressMask: seq<bool>,
    rssi: int, noiseFloor: int, primary: byte, secondary: byte, antenna: byte, phy: byte, bandwidth: byte, mcs: byte,
    rxFlags: seq<bool>, layout: Option<WireLayout>, csiDataValid: bool, firstWordInvalid: bool, accuracy: byte,
    frameControl: Option<nat>, durationId: Option<nat>, sequenceControl: Option<nat>, qosControl: Option<nat>,
    headerLength: nat, packetType: byte, fcs: byte, captureMode: byte, payloadKnown: bool, packetKnown: bool,
    driverPacketLength: nat, rawScalars: seq<byte>, guardInterval: nat, heLtf: byte)

  predicate SegmentTyped(s: WireSegment) {
    && IsU32(s.offsetBytes) && IsU32(s.lengthBytes) && IsU32(s.iqPairs)
    && (forall r :: r in s.ranges ==> IsI16(r.start) && IsI16(r.end)) && (forall n :: n in s.nulls ==> IsI16(n))
  }

  predicate LayoutTyped(l: WireLayout) {
    IsU32(l.byteLength) && IsU32(l.iqPairs) && IsU16(l.padding) && forall s :: s in l.segments ==> SegmentTyped(s)
  }

  predicate WordTyped(w: Option<nat>) {
    w.Some? ==> IsU16(w.value)
  }

  /** Every field has a value of its C type. */
  predicate Typed(m: WireMetadata) {
    && IsU64(m.timestampUs) && IsU32(m.rxSequence) && IsU32(m.sessionGeneration) && IsU32(m.radioGeneration)
    && |m.addresses| == 5 && (forall a :: a in m.addresses ==> |a| == 6) && |m.addressMask| == 8
    && IsI8(m.rssi) && IsI8(m.noiseFloor) && |m.rxFlags| == 32 && (m.layout.Some? ==> LayoutTyped(m.layout.value))
    && WordTyped(m.frameControl) && WordTyped(m.durationId) && WordTyped(m.sequenceControl) && WordTyped(m.qosControl)
    && IsU16(m.headerLength) && IsU32(m.driverPacketLength) && |m.rawScalars| == 4 && IsU16(m.guardInterval)
  }

  // ------------------------------------------------------------------- the preflight

  /** `rx_meta_signal_valid` */
  predicate SignalAccepted(m: WireMetadata)
    requires Typed(m)
  {
    var f := m.rxFlags;
    var he := 3 <= m.phy <= 6;
    && (forall i :: 5 <= i < 8 ==> !m.addressMask[i]) && (m.secondary <= 2 || m.secondary == 255)
    && (m.phy <= 6 || m.phy == 255) && m.accuracy <= 2 && (forall i :: 20 <= i < 32 ==> !f[i])
    && (f[5] ==> f[4]) && (f[6] ==> f[17]) && (f[8] ==> f[7]) && (f[10] ==> f[9]) && (f[12] ==> f[11])
    && (f[14] ==> f[13]) && (f[19] ==> f[18]) && (f[16] ==> f[15])
    && (f[1] ==> m.antenna != 255) && (f[2] ==> m.mcs != 255)
    && (f[3] ==> m.bandwidth in {20, 40, 80, 160})
    && m.guardInterval in {0, 400, 800, 1600, 3200} && m.heLtf in {0, 1, 2, 4}
    && (m.heLtf != 0 || f[18] ==> he)
    && (m.guardInterval != 0 ==>
          && (if he then m.guardInterval != 400 else (m.phy == 1 || m.phy == 2) && m.guardInterval <= 800)
          && (f[13] ==> m.guardInterval == if f[14] then 400 else 800))
  }

  function Bytes(encoding: nat): nat
    requires encoding <= 3
  {
    [0, 2, 4, 3][encoding]
  }

  /** The checks of the segment loop at one slot, given what the slots before add up to. */
  predicate SegmentAccepted(s: WireSegment, offset: nat, pairs: nat, length: nat, encoding: nat, known: bool)
    requires encoding <= 3
  {
    && s.kind <= 7 && |s.ranges| <= 2 && |s.nulls| <= 3 && s.offsetBytes == offset && s.lengthBytes != 0
    && offset + s.lengthBytes <= length && pairs + s.iqPairs <= U32_MAX
    && (encoding != 0 ==> s.iqPairs * Bytes(encoding) == s.lengthBytes)
    && (forall r :: r in s.ranges ==> r.start <= r.end)
    && (|s.ranges| == 2 ==> !(s.ranges[0].start <= s.ranges[1].end && s.ranges[1].start <= s.ranges[0].end))
    && (known ==> s.kind != 0 && RangeTotal(s.ranges) == s.iqPairs)
    && Distinct(s.nulls)
  }

  function WireLength(segs: seq<WireSegment>): nat {
    if segs == [] then 0 else WireLength(segs[..|segs| - 1]) + segs[|segs| - 1].lengthBytes
  }

  function WirePairs(segs: seq<WireSegment>): nat {
    if segs == [] then 0 else WirePairs(segs[..|segs| - 1]) + segs[|segs| - 1].iqPairs
  }

  /** The segment loop up to slot `n`. */
  predicate SlotsAccepted(segs: seq<WireSegment>, n: nat, length: nat, encoding: nat, known: bool)
    requires n <= |segs| && encoding <= 3
  {
    n > 0 ==>
      && SlotsAccepted(segs, n - 1, length, encoding, known)
      && SegmentAccepted(segs[n - 1], WireLength(segs[..n - 1]), WirePairs(segs[..n - 1]), length, encoding, known)
  }

  /** What `rx_meta_layout_valid` checks before its loop. */
  predicate DimensionsAccepted(l: WireLayout, length: nat) {
    && length != 0 && l.byteLength == length && l.schema <= 2 && l.encoding <= 3 && 1 <= |l.segments| <= 3 && l.padding <= 3
    && l.sampleBits == [0, 8, 12, 12][l.encoding] && (l.known ==> l.encoding != 0 && l.schema != 0)
  }

  /** `rx_meta_layout_valid` */
  predicate LayoutAccepted(l: Option<WireLayout>, length: nat) {
    if l.None? then length == 0
    else
      var v := l.value;
      && DimensionsAccepted(v, length)
      && SlotsAccepted(v.segments, |v.segments|, length, v.encoding, v.known)
      && WireLength(v.segments) + v.padding == length && WirePairs(v.segments) == v.iqPairs
  }

  /** The loop of `rx_meta_layout_valid`, with its running sums. */
  method CheckLayout(l: Option<WireLayout>, length: nat) returns (ok: bool)
    ensures ok == LayoutAccepted(l, length)
  {
    hide SegmentAccepted, DimensionsAccepted;
    if l.None? {
      return length == 0;
    }
    var v := l.value;
    if !DimensionsAccepted(v, length) {
      return false;
    }
    DimensionsBound(v, length);
    var offset, pairs := 0, 0;
    for i := 0 to |v.segments|
      invariant SlotsAccepted(v.segments, i, length, v.encoding, v.known)
      invariant offset == WireLength(v.segments[..i]) && pairs == WirePairs(v.segments[..i])
    {
      var s := v.segments[i];
      if !SegmentAccepted(s, offset, pairs, length, v.encoding, v.known) {
        SlotsStop(v.segments, i + 1, |v.segments|, length, v.encoding, v.known);
        return false;
      }
      assert v.segments[..i + 1][..i] == v.segments[..i];
      offset, pairs := offset + s.lengthBytes, pairs + s.iqPairs;
    }
    assert v.segments[..|v.segments|] == v.segments;
    return offset + v.padding == length && pairs == v.iqPairs;
  }

  lemma DimensionsBound(l: WireLayout, length: nat)
    requires DimensionsAccepted(l, length)
    ensures l.encoding <= 3
  {
  }

  lemma {:induction false} SlotsStop(segs: seq<WireSegment>, m: nat, n: nat, length: nat, encoding: nat, known: bool)
    requires m <= n <= |segs| && encoding <= 3 && !SlotsAccepted(segs, m, length, encoding, known)
    ensures !SlotsAccepted(segs, n, length, encoding, known)
    decreases n
  {
    hide SegmentAccepted;
    if m < n {
      SlotsStop(segs, m, n - 1, length, encoding, known);
    }
  }

  /** `rx_meta_packet_valid` */
  predicate PacketAccepted(d: Directory, m: WireMetadata)
    requires d.Fits() && Typed(m)
  {
    var truncated, headerOnly, parsed, pointer := d.flags[1], d.flags[2], d.flags[3], d.flags[4];
    && m.packetType <= 4 && m.fcs <= 3 && m.captureMode <= 2
    && (!m.payloadKnown ==> d.payloadReport == 0) && (!m.packetKnown ==> m.driverPacketLength == 0)
    && d.headerPrefix == (if m.headerLength < d.captured then m.headerLength else d.captured)
    && (m.frameControl.Some? ==> pointer && d.readable >= 2)
    && (m.durationId.Some? ==> m.frameControl.Some? && d.readable >= 4)
    && (m.sequenceControl.Some? ==> d.readable >= 24) && (m.qosControl.Some? ==> d.readable >= 26)
    && (m.sequenceControl.Some? || m.qosControl.Some? || m.headerLength != 0 ==> m.frameControl.Some?)
    && (parsed ==>
          && m.frameControl.Some? && m.durationId.Some? && 0 < m.headerLength <= d.readable
          && m.frameControl.value % 4 == 0 && 1 <= m.packetType <= 3
          && m.packetType as int == m.frameControl.value / 4 % 4 + 1)
    && (d.captured != 0 ==> m.captureMode != 0 && headerOnly == (m.captureMode == 1))
    && (headerOnly ==> m.headerLength == d.captured)
    && (m.packetKnown ==> d.readable <= m.driverPacketLength)
    && (d.captured != 0 && !headerOnly ==>
          truncated == (d.captured < if m.packetKnown then m.driverPacketLength else d.readable))
  }

  /** `esp32_mquickjs_wifi_rx_wire_metadata_valid` */
  predicate MetadataAccepted(kind: Kind, d: Directory, m: WireMetadata)
    requires d.Fits() && Typed(m)
  {
    && FramesTyped([d]) && Writable(kind, [d]) && SignalAccepted(m) && LayoutAccepted(m.layout, d.csiLength) && PacketAccepted(d, m)
    && (m.layout.None? ==> !m.csiDataValid && !m.firstWordInvalid)
    && (kind == Monitor ==> !m.rxFlags[15] && !m.rxFlags[16])
  }

  // ------------------------------------------------------------------- the record

  function SegmentSlot(s: WireSegment): (b: bytes)
    requires SegmentTyped(s) && s.kind <= 7 && |s.ranges| <= 2 && |s.nulls| <= 3
    ensures |b| == 40
  {
    [s.kind, |s.ranges|, |s.nulls|, 0]
    + (Put32(s.offsetBytes)
       + (Put32(s.lengthBytes) + (Put32(s.iqPairs) + (RangeBytes(s.ranges) + (NullBytes(s.nulls) + Zeros(10))))))
  }

  predicate SlotsFit(segs: seq<WireSegment>) {
    forall s :: s in segs ==> SegmentTyped(s) && s.kind <= 7 && |s.ranges| <= 2 && |s.nulls| <= 3
  }

  function SegmentSlots(segs: seq<WireSegment>): (b: bytes)
    requires SlotsFit(segs)
    ensures |b| == 40 * |segs|
  {
    if segs == [] then [] else SegmentSlots(segs[..|segs| - 1]) + SegmentSlot(segs[|segs| - 1])
  }

  function AddressSlot(m: WireMetadata, i: nat): (b: bytes)
    requires Typed(m) && i < 5
    ensures |b| == 6
  {
    if m.addressMask[i] then m.addresses[i] else Zeros(6)
  }

  function RadioSlot(m: WireMetadata): (b: bytes)
    requires Typed(m)
    ensures |b| == 8
  {
    [PutI8(m.rssi), if m.rxFlags[0] then PutI8(m.noiseFloor) else 0, m.primary, m.secondary,
     if m.rxFlags[1] then m.antenna else 255, m.phy, if m.rxFlags[3] then m.bandwidth else 0, if m.rxFlags[2] then m.mcs else 255]
  }

  function LayoutWords(l: WireLayout, length: nat, firstWordInvalid: bool, dataValid: bool): (b: bytes)
    requires LayoutTyped(l) && IsU32(length) && DimensionsAccepted(l, length)
    ensures |b| == 19
  {
    hide Put32, Put16, PutFlags32;
    PutFlags32([firstWordInvalid, dataValid, l.known] + seq(29, _ => false))
    + ([l.encoding, l.sampleBits, l.schema, 0]
       + (Put32(length) + (Put32(l.iqPairs) + (Put16(l.padding) + [|l.segments|]))))
  }

  /** Bytes 68..87: zero without a layout. */
  function LayoutSlot(d: Directory, m: WireMetadata): (b: bytes)
    requires d.Fits() && Typed(m) && LayoutAccepted(m.layout, d.csiLength)
    ensures |b| == 19
  {
    hide SlotsAccepted, DimensionsAccepted, LayoutTyped;
    if m.layout.None? then Zeros(19) else LayoutWords(m.layout.value, d.csiLength, m.firstWordInvalid, m.csiDataValid)
  }

  lemma {:induction false} AcceptedSlots(segs: seq<WireSegment>, n: nat, length: nat, encoding: nat, known: bool)
    requires n <= |segs| && encoding <= 3 && SlotsAccepted(segs, n, length, encoding, known)
    requires forall s :: s in segs ==> SegmentTyped(s)
    ensures SlotsFit(segs[..n])
  {
    if n > 0 {
      AcceptedSlots(segs, n - 1, length, encoding, known);
      assert segs[..n] == segs[..n - 1] + [segs[n - 1]];
    }
  }

  /** What an accepted layout's own fields satisfy. */
  predicate LayoutStored(l: WireLayout) {
    l.schema <= 2 && l.encoding <= 3 && |l.segments| <= 3 && SlotsFit(l.segments)
  }

  lemma AcceptedStored(l: WireLayout, length: nat)
    requires LayoutTyped(l) && LayoutAccepted(Some(l), length)
    ensures LayoutStored(l)
  {
    hide SegmentTyped, SlotsAccepted, SlotsFit;
    AcceptedSlots(l.segments, |l.segments|, length, l.encoding, l.known);
    assert l.segments[..|l.segments|] == l.segments;
  }

  /** Bytes 128..248: the used slots, then zeros. */
  function SlotsSlot(m: WireMetadata, length: nat): (b: bytes)
    requires Typed(m) && LayoutAccepted(m.layout, length)
    ensures |b| == 120
  {
    hide LayoutTyped, LayoutAccepted, SlotsFit;
    if m.layout.None? then Zeros(120)
    else
      AcceptedStored(m.layout.value, length);
      SegmentSlots(m.layout.value.segments) + Zeros(120 - 40 * |m.layout.value.segments|)
  }

  /** The packet flags: the five record flags in record order, the frame control's flag
      byte, and what is available. */
  function PacketWord(d: Directory, m: WireMetadata): (bs: seq<bool>)
    requires d.Fits() && Typed(m)
    ensures |bs| == 32
  {
    [d.flags[0], d.flags[2], d.flags[1], d.flags[4], d.flags[3]]
    + (if m.frameControl.Some? then ToBits(m.frameControl.value / 256, 8) else seq(8, _ => false))
    + [m.sequenceControl.Some?, m.qosControl.Some?, m.frameControl.Some?, m.durationId.Some?, m.payloadKnown, m.packetKnown]
    + seq(13, _ => false)
  }

  function PacketSlot(d: Directory, m: WireMetadata): (b: bytes)
    requires d.Fits() && Typed(m)
    ensures |b| == 24
  {
    hide PacketWord, Put32, Put16, PutFlags32;
    [m.packetType, if m.frameControl.Some? then m.frameControl.value / 16 % 16 else 255, m.fcs, m.captureMode]
    + (Put16(m.headerLength)
       + (Zeros(2)
          + (Put32(d.payloadReport) + (Put32(m.driverPacketLength) + (Put32(d.captured) + PutFlags32(PacketWord(d, m)))))))
  }

  function IdentitySlot(d: Directory, m: WireMetadata): (b: bytes)
    requires d.Fits() && Typed(m)
    ensures |b| == 24
  {
    hide Put32, Put64;
    Put32(d.sequence)
    + (Put64(m.timestampUs) + (Put32(m.rxSequence) + (Put32(m.sessionGeneration) + Put32(m.radioGeneration))))
  }

  function AddressSlots(m: WireMetadata): (b: bytes)
    requires Typed(m)
    ensures |b| == 32
  {
    hide PutFlags16, AddressSlot;
    AddressSlot(m, 0)
    + (AddressSlot(m, 1)
       + (AddressSlot(m, 2) + (AddressSlot(m, 3) + (AddressSlot(m, 4) + PutFlags16(m.addressMask + seq(8, _ => false))))))
  }

  function WordSlot(m: WireMetadata): (b: bytes)
    requires Typed(m)
    ensures |b| == 8
  {
    hide Put16;
    Put16(m.frameControl.GetOr(0))
    + (Put16(m.durationId.GetOr(0)) + (Put16(m.sequenceControl.GetOr(0)) + Put16(m.qosControl.GetOr(0))))
  }

  function SymbolSlot(m: WireMetadata): (b: bytes)
    requires Typed(m)
    ensures |b| == 4
  {
    hide Put16;
    Put16(m.guardInterval) + [m.heLtf, 0]
  }

  /** `esp32_mquickjs_wifi_rx_wire_write_metadata`: the record, region by region. */
  function DeviceRecord(kind: Kind, d: Directory, m: WireMetadata): (b: bytes)
    requires d.Fits() && Typed(m) && MetadataAccepted(kind, d, m)
    ensures |b| == 256
  {
    hide PutFlags32, Writable, FramesTyped, SignalAccepted, PacketAccepted, LayoutAccepted, IdentitySlot, AddressSlots;
    hide RadioSlot, LayoutSlot, WordSlot, PacketSlot, SymbolSlot, SlotsSlot;
    IdentitySlot(d, m)
    + (AddressSlots(m)
       + (RadioSlot(m)
          + (PutFlags32(m.rxFlags)
             + (LayoutSlot(d, m)
                + ([m.accuracy]
                   + (WordSlot(m)
                      + (PacketSlot(d, m)
                         + (m.rawScalars + (SymbolSlot(m) + (SlotsSlot(m, d.csiLength) + Zeros(8)))))))))))
  }

  // -------------------------------------------------------------- the facts it carries

  function SegmentFacts(s: WireSegment): CsiSegment
    requires s.kind <= 7
  {
    CsiSegment(SEGMENTS[s.kind], s.offsetBytes, s.lengthBytes, s.iqPairs, s.ranges, s.nulls)
  }

  function SegmentsFacts(segs: seq<WireSegment>): (cs: seq<CsiSegment>)
    requires SlotsFit(segs)
    ensures |cs| == |segs|
  {
    if segs == [] then [] else SegmentsFacts(segs[..|segs| - 1]) + [SegmentFacts(segs[|segs| - 1])]
  }

  function StoredFacts(l: WireLayout): CsiLayout
    requires LayoutStored(l)
  {
    CsiLayout(SCHEMAS[l.schema], ENCODINGS[l.encoding], if l.encoding == 0 then None else Some(l.sampleBits as nat),
              l.byteLength, l.iqPairs, l.padding, l.known, SegmentsFacts(l.segments))
  }

  const NO_LAYOUT := CsiLayout(UnknownSchema, UnknownEncoding, None, 0, 0, 0, false, [])

  function LayoutFacts(l: Option<WireLayout>, length: nat): CsiLayout
    requires LayoutAccepted(l, length) && (l.Some? ==> LayoutTyped(l.value))
  {
    hide LayoutTyped, LayoutAccepted, LayoutStored;
    if l.None? then NO_LAYOUT
    else
      AcceptedStored(l.value, length);
      StoredFacts(l.value)
  }

  function Known<T>(known: bool, v: T): Option<T> {
    if known then Some(v) else None
  }

  function RadioFacts(m: WireMetadata): Radio
    requires Typed(m) && SignalAccepted(m)
  {
    var f := m.rxFlags;
    Radio(m.rssi, Known(f[0], m.noiseFloor), m.primary, SecondaryOf(m.secondary).value, Known(f[1], m.antenna as int),
          PhyOf(m.phy).value, Known(f[3], m.bandwidth as int), Known(f[2], m.mcs as int),
          Known(f[4], f[5]), Known(f[17], f[6]), Known(f[7], f[8]), Known(f[9], f[10]), Known(f[11], f[12]),
          Known(f[13], f[14]), Known(f[15], f[16]), Known(f[18], f[19]),
          NonzeroOption(m.guardInterval), NonzeroOption(m.heLtf))
  }

  function PacketFacts(d: Directory, m: WireMetadata): RxPacket
    requires d.Fits() && Typed(m) && PacketAccepted(d, m)
  {
    var fc := m.frameControl;
    RxPacket(PACKET_TYPES[m.packetType], if fc.Some? then Some(fc.value / 16 % 16) else None, FCS_STATES[m.fcs],
             CAPTURE_MODES[m.captureMode], m.headerLength, Known(m.payloadKnown, d.payloadReport),
             Known(m.packetKnown, m.driverPacketLength), d.captured, fc, m.durationId, m.sequenceControl, m.qosControl,
             if fc.Some? then Some(MacFlagsOf(ToBits(fc.value / 256, 8))) else None, CaptureOf(d.flags))
  }

  function IdentityFacts(d: Directory, m: WireMetadata): Identity {
    Identity(d.sequence, m.timestampUs, if m.rxSequence == U32_MAX then None else Some(m.rxSequence),
             m.sessionGeneration, m.radioGeneration)
  }

  function AddressFacts(m: WireMetadata): (a: Addresses)
    requires Typed(m)
    ensures |a| == 5
  {
    seq(5, i requires 0 <= i < 5 => Known(m.addressMask[i], m.addresses[i]))
  }

  function ScalarFacts(m: WireMetadata): RawScalars
    requires Typed(m)
  {
    [RawScalar(m.rawScalars[0]), RawScalar(m.rawScalars[1]), RawScalar(m.rawScalars[2]), RawScalar(m.rawScalars[3])]
  }

  /** What the host should read from the firmware's record. */
  function Facts(kind: Kind, d: Directory, m: WireMetadata): RxMetadata
    requires d.Fits() && Typed(m) && MetadataAccepted(kind, d, m)
  {
    RxMetadata(IdentityFacts(d, m), ACCURACIES[m.accuracy], AddressFacts(m), RadioFacts(m), m.firstWordInvalid, m.csiDataValid,
               ScalarFacts(m), LayoutFacts(m.layout, d.csiLength), PacketFacts(d, m))
  }
}
