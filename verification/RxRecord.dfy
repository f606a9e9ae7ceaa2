/** One 256-byte RX metadata record and the facts it carries
    (scripts/capture/rx.py `_metadata`; docs/api/wifi-csi-protocol.md). */
module RxRecords {
  import opened Wire
  import opened CsiLayouts

  datatype Kind = Csi | Monitor

  datatype Phy = Legacy | Ht | Vht | HeSu | HeMu | HeErSu | HeTb | UnknownPhy
  datatype Secondary = NoSecondary | Above | Below | UnknownSecondary
  datatype Accuracy = NormalTime | PowerSaveDependent | CallbackTime
  datatype PacketType = UnknownPacket | Management | Control | Data | Misc
  datatype Fcs = UnknownFcs | AbsentFcs | PresentValid | PresentInvalid
  datatype CaptureMode = NoCapture | HeaderCapture | FullCapture

  function PhyOf(code: byte): Option<Phy> {
    match code
    case 0 => Some(Legacy)
    case 1 => Some(Ht)
    case 2 => Some(Vht)
    case 3 => Some(HeSu)
    case 4 => Some(HeMu)
    case 5 => Some(HeErSu)
    case 6 => Some(HeTb)
    case 255 => Some(UnknownPhy)
    case _ => None
  }

  function PhyCode(p: Phy): byte {
    match p
    case Legacy => 0
    case Ht => 1
    case Vht => 2
    case HeSu => 3
    case HeMu => 4
    case HeErSu => 5
    case HeTb => 6
    case UnknownPhy => 255
  }

  predicate IsHe(p: Phy) {
    p in {HeSu, HeMu, HeErSu, HeTb}
  }

  function SecondaryOf(code: byte): Option<Secondary> {
    match code
    case 0 => Some(NoSecondary)
    case 1 => Some(Above)
    case 2 => Some(Below)
    case 255 => Some(UnknownSecondary)
    case _ => None
  }

  function SecondaryCode(s: Secondary): byte {
    match s
    case NoSecondary => 0
    case Above => 1
    case Below => 2
    case UnknownSecondary => 255
  }

  const ACCURACIES := [NormalTime, PowerSaveDependent, CallbackTime]
  const PACKET_TYPES := [UnknownPacket, Management, Control, Data, Misc]
  const FCS_STATES := [UnknownFcs, AbsentFcs, PresentValid, PresentInvalid]
  const CAPTURE_MODES := [NoCapture, HeaderCapture, FullCapture]

  function AccuracyCode(a: Accuracy): byte {
    match a
    case NormalTime => 0
    case PowerSaveDependent => 1
    case CallbackTime => 2
  }

  function PacketTypeCode(t: PacketType): byte {
    match t
    case UnknownPacket => 0
    case Management => 1
    case Control => 2
    case Data => 3
    case Misc => 4
  }

  function FcsCode(f: Fcs): byte {
    match f
    case UnknownFcs => 0
    case AbsentFcs => 1
    case PresentValid => 2
    case PresentInvalid => 3
  }

  function CaptureModeCode(m: CaptureMode): byte {
    match m
    case NoCapture => 0
    case HeaderCapture => 1
    case FullCapture => 2
  }

  // ------------------------------------------------------------------ facts

  /** Sequence, clock and generations: record bytes 0..24 and 87. */
  datatype Identity = Identity(sequence: nat, timestampUs: nat, rxSequence: Option<nat>, generation: nat,
                               radioGeneration: nat)

  /** Source, destination, transmitter, receiver and BSSID, in that order. */
  type Addresses = seq<Option<bytes>>

  /** What the radio reported: record bytes 56..68 and 124..127. */
  datatype Radio = Radio(rssi: int, noiseFloor: Option<int>, channel: byte, secondary: Secondary, antenna: Option<int>,
                         phy: Phy, bandwidthMhz: Option<int>, mcs: Option<int>,
                         stbc: Option<bool>, smoothing: Option<bool>, sounding: Option<bool>,
                         aggregation: Option<bool>, ldpc: Option<bool>, shortGi: Option<bool>,
                         channelEstimateValid: Option<bool>, dcm: Option<bool>,
                         guardIntervalNs: Option<nat>, heLtfSize: Option<nat>)

  /** The frame-control flag byte, one optional value per name. */
  datatype MacFlags = MacFlags(toDs: bool, fromDs: bool, moreFragments: bool, retry: bool, powerManagement: bool,
                               moreData: bool, protectedFrame: bool, order: bool)

  datatype CaptureFlags = CaptureFlags(present: bool, truncated: bool, headerOnly: bool, parseValid: bool,
                                       pointerValid: bool)

  datatype RxPacket = RxPacket(kind: PacketType, subtype: Option<nat>, fcs: Fcs, captureMode: CaptureMode,
                               headerLength: nat, driverPayload: Option<nat>, driverPacket: Option<nat>,
                               capturedLength: nat, frameControl: Option<nat>, durationId: Option<nat>,
                               sequenceControl: Option<nat>, qosControl: Option<nat>,
                               macFlags: Option<MacFlags>, capture: CaptureFlags)

  /** Legacy rate, signal mode, AMPDU count and RX state. */
  type RawScalars = seq<Option<nat>>

  datatype RxMetadata = RxMetadata(identity: Identity, accuracy: Accuracy, addresses: Addresses, radio: Radio,
                                   firstWordInvalid: bool, csiDataValid: bool, rawScalars: RawScalars,
                                   layout: CsiLayout, packet: RxPacket)

  /** What a directory row says about its frame. */
  datatype Directory = Directory(csiLength: nat, captured: nat, readable: nat, headerPrefix: nat, flags: seq<bool>,
                                 payloadReport: nat, sequence: nat) {
    predicate Fits() {
      && IsU32(csiLength) && IsU32(captured) && IsU32(readable) && IsU16(headerPrefix)
      && |flags| == 16 && IsU32(payloadReport) && IsU32(sequence)
    }
  }

  // ------------------------------------------------------- when facts are valid

  predicate IdentityValid(i: Identity) {
    && IsU32(i.sequence) && IsU64(i.timestampUs) && IsU32(i.generation) && IsU32(i.radioGeneration)
    && (i.rxSequence.Some? ==> i.rxSequence.value < U32_MAX)
  }

  predicate AddressesValid(a: Addresses) {
    |a| == 5 && forall i :: 0 <= i < 5 ==> a[i].Some? ==> |a[i].value| == 6
  }

  predicate RadioValid(r: Radio) {
    && IsI8(r.rssi)
    && (r.noiseFloor.Some? ==> IsI8(r.noiseFloor.value))
    && (r.antenna.Some? ==> 0 <= r.antenna.value < 255)
    && (r.mcs.Some? ==> 0 <= r.mcs.value < 255)
    && (r.bandwidthMhz.Some? ==> r.bandwidthMhz.value in {20, 40, 80, 160})
    && (r.guardIntervalNs.Some? ==> GuardIntervalValid(r.guardIntervalNs.value, r.phy, r.shortGi))
    && (r.heLtfSize.Some? ==> r.heLtfSize.value in {1, 2, 4})
    && (r.heLtfSize.Some? || r.dcm.Some? ==> IsHe(r.phy))
  }

  /** HT and VHT allow 400 and 800 ns, HE allows 800, 1600 and 3200 ns, and a known
      short-GI bit has to agree. */
  predicate GuardIntervalValid(ns: nat, phy: Phy, shortGi: Option<bool>) {
    && (if phy in {Ht, Vht} then ns in {400, 800} else IsHe(phy) && ns in {800, 1600, 3200})
    && (shortGi == Some(true) ==> ns == 400)
    && (shortGi == Some(false) ==> ns == 800)
  }

  predicate RawScalarsValid(s: RawScalars) {
    |s| == 4 && forall i :: 0 <= i < 4 ==> s[i].Some? ==> s[i].value < 255
  }

  /** The packet facts on their own, before any length outside the record. */
  predicate PacketFits(p: RxPacket) {
    && IsU16(p.headerLength) && IsU32(p.capturedLength)
    && (p.driverPayload.Some? ==> IsU32(p.driverPayload.value))
    && (p.driverPacket.Some? ==> IsU32(p.driverPacket.value))
    && (p.frameControl.Some? ==> IsU16(p.frameControl.value))
    && (p.durationId.Some? ==> IsU16(p.durationId.value))
    && (p.sequenceControl.Some? ==> IsU16(p.sequenceControl.value))
    && (p.qosControl.Some? ==> IsU16(p.qosControl.value))
    && (p.subtype.Some? ==> p.subtype.value < 16)
    && (p.frameControl.Some? <==> p.subtype.Some?) && (p.frameControl.Some? <==> p.macFlags.Some?)
  }

  /** Subtype and flag byte are the ones the frame control holds; without one,
      nothing decoded from it is known. */
  predicate FrameControlValid(p: RxPacket, readable: nat) {
    if p.frameControl.Some? then
      && p.capture.pointerValid && readable >= 2
      && p.subtype == Some(p.frameControl.value / 16 % 16)
      && p.macFlags == Some(MacFlagsOf(ToBits(p.frameControl.value / 256, 8)))
    else
      p.subtype.None? && p.macFlags.None? && p.headerLength == 0
  }

  predicate HeaderWordsValid(p: RxPacket, readable: nat) {
    && (p.durationId.Some? ==> p.frameControl.Some? && readable >= 4)
    && (p.sequenceControl.Some? ==> p.frameControl.Some? && readable >= 24)
    && (p.qosControl.Some? ==> p.frameControl.Some? && readable >= 26)
  }

  predicate ParsedValid(p: RxPacket, readable: nat) {
    p.capture.parseValid ==>
      && p.capture.pointerValid && p.frameControl.Some? && p.durationId.Some?
      && 0 < p.headerLength <= readable
      && p.frameControl.value % 4 == 0
      && p.kind in {Management, Control, Data}
      && PacketTypeCode(p.kind) == p.frameControl.value / 4 % 4 + 1
  }

  /** How captured, readable, header and reported lengths and the capture flags agree. */
  predicate CaptureValid(p: RxPacket, readable: nat) {
    && (p.capture.present <==> p.capturedLength > 0)
    && p.capturedLength <= readable
    && (p.driverPacket.Some? ==> readable <= p.driverPacket.value)
    && if p.capture.present then
         && p.capture.pointerValid && p.captureMode != NoCapture
         && (p.capture.headerOnly <==> p.captureMode == HeaderCapture)
         && if p.capture.headerOnly
            then p.capture.parseValid && !p.capture.truncated && p.capturedLength == p.headerLength
            else p.capture.truncated == (p.capturedLength < p.driverPacket.GetOr(readable))
       else
         !p.capture.truncated && !p.capture.headerOnly
  }

  predicate PacketValid(p: RxPacket, readable: nat) {
    && PacketFits(p) && IsU32(readable)
    && FrameControlValid(p, readable) && HeaderWordsValid(p, readable) && ParsedValid(p, readable)
    && CaptureValid(p, readable)
  }

  /** Everything an accepted record satisfies, given the proven readable span. */
  predicate MetadataValid(m: RxMetadata, kind: Kind, readable: nat) {
    && IdentityValid(m.identity) && AddressesValid(m.addresses) && RadioValid(m.radio)
    && RawScalarsValid(m.rawScalars)
    && LayoutValid(m.layout, m.firstWordInvalid, m.csiDataValid) && LayoutFits(m.layout)
    && PacketValid(m.packet, readable)
    && (kind == Monitor ==> m.layout.byteLength == 0 && m.radio.channelEstimateValid.None?)
  }

  /** The part of a captured packet that is header. */
  function HeaderPrefix(p: RxPacket): nat {
    if p.headerLength <= p.capturedLength then p.headerLength else p.capturedLength
  }

  function RecordFlags(c: CaptureFlags): (bs: seq<bool>)
    ensures |bs| == 16
  {
    [c.present, c.truncated, c.headerOnly, c.parseValid, c.pointerValid] + seq(11, _ => false)
  }

  /** The directory row that goes with a record. */
  predicate DirectoryMatches(d: Directory, m: RxMetadata) {
    && d.csiLength == m.layout.byteLength
    && d.captured == m.packet.capturedLength
    && d.headerPrefix == HeaderPrefix(m.packet)
    && d.flags == RecordFlags(m.packet.capture)
    && d.payloadReport == m.packet.driverPayload.GetOr(0)
    && d.sequence == m.identity.sequence
  }

  // ---------------------------------------------------------- how they are written

  function IdentityBytes(i: Identity): (s: bytes)
    requires IdentityValid(i)
    ensures |s| == 24
  {
    Put32(i.sequence)
    + (Put64(i.timestampUs)
       + (Put32(i.rxSequence.GetOr(U32_MAX)) + (Put32(i.generation) + Put32(i.radioGeneration))))
  }

  function AddressBytes(a: Option<bytes>): (s: bytes)
    requires a.Some? ==> |a.value| == 6
    ensures |s| == 6
  {
    a.GetOr(Zeros(6))
  }

  function AddressMask(a: Addresses): (bs: seq<bool>)
    requires |a| == 5
    ensures |bs| == 16
  {
    [a[0].Some?, a[1].Some?, a[2].Some?, a[3].Some?, a[4].Some?] + seq(11, _ => false)
  }

  /** Record bytes 24..56. */
  function AddressesBytes(a: Addresses): (s: bytes)
    requires AddressesValid(a)
    ensures |s| == 32
  {
    AddressBytes(a[0])
    + (AddressBytes(a[1])
       + (AddressBytes(a[2]) + (AddressBytes(a[3]) + (AddressBytes(a[4]) + PutFlags16(AddressMask(a))))))
  }

  /** Record bytes 56..64. */
  function RadioBytes(r: Radio): (s: bytes)
    requires RadioValid(r)
    ensures |s| == 8
  {
    [PutI8(r.rssi), PutI8(r.noiseFloor.GetOr(0)), r.channel, SecondaryCode(r.secondary), r.antenna.GetOr(255),
     PhyCode(r.phy), r.bandwidthMhz.GetOr(0), r.mcs.GetOr(255)]
  }

  function RadioFlag(r: Radio, i: nat): bool {
    match i
    case 0 => r.noiseFloor.Some?
    case 1 => r.antenna.Some?
    case 2 => r.mcs.Some?
    case 3 => r.bandwidthMhz.Some?
    case 4 => r.stbc.Some?
    case 5 => IsTrue(r.stbc)
    case 6 => IsTrue(r.smoothing)
    case 7 => r.sounding.Some?
    case 8 => IsTrue(r.sounding)
    case 9 => r.aggregation.Some?
    case 10 => IsTrue(r.aggregation)
    case 11 => r.ldpc.Some?
    case 12 => IsTrue(r.ldpc)
    case 13 => r.shortGi.Some?
    case 14 => IsTrue(r.shortGi)
    case 15 => r.channelEstimateValid.Some?
    case 16 => IsTrue(r.channelEstimateValid)
    case 17 => r.smoothing.Some?
    case 18 => r.dcm.Some?
    case 19 => IsTrue(r.dcm)
    case _ => false
  }

  /** Record bytes 64..68, least significant bit first. */
  function RadioFlags(r: Radio): (bs: seq<bool>)
    ensures |bs| == 32
  {
    seq(32, i requires 0 <= i < 32 => RadioFlag(r, i))
  }

  /** Record bytes 124..128. */
  function SymbolBytes(r: Radio): (s: bytes)
    requires RadioValid(r)
    ensures |s| == 4
  {
    Put16(r.guardIntervalNs.GetOr(0)) + [r.heLtfSize.GetOr(0), 0]
  }

  /** Record bytes 88..96. */
  function HeaderWordBytes(p: RxPacket): (s: bytes)
    requires PacketFits(p)
    ensures |s| == 8
  {
    Put16(p.frameControl.GetOr(0))
    + (Put16(p.durationId.GetOr(0)) + (Put16(p.sequenceControl.GetOr(0)) + Put16(p.qosControl.GetOr(0))))
  }

  function PacketEnumBytes(p: RxPacket): (s: bytes)
    requires PacketFits(p)
    ensures |s| == 4
  {
    [PacketTypeCode(p.kind), p.subtype.GetOr(255), FcsCode(p.fcs), CaptureModeCode(p.captureMode)]
  }

  /** Record bytes 96..120. */
  function PacketBytes(p: RxPacket): (s: bytes)
    requires PacketFits(p)
    ensures |s| == 24
  {
    PacketEnumBytes(p)
    + (Put16(p.headerLength)
       + (Zeros(2)
          + (Put32(p.driverPayload.GetOr(0))
             + (Put32(p.driverPacket.GetOr(0)) + (Put32(p.capturedLength) + PutFlags32(PacketFlags(p)))))))
  }

  function MacFlagsOf(bs: seq<bool>): MacFlags
    requires |bs| == 8
  {
    MacFlags(bs[0], bs[1], bs[2], bs[3], bs[4], bs[5], bs[6], bs[7])
  }

  function MacFlagBits(f: Option<MacFlags>): (bs: seq<bool>)
    ensures |bs| == 8
  {
    if f.None? then seq(8, _ => false)
    else
      var v := f.value;
      [v.toDs, v.fromDs, v.moreFragments, v.retry, v.powerManagement, v.moreData, v.protectedFrame, v.order]
  }

  /** Record bytes 116..120, bit by bit. The five capture flags stand in another order
      than in the directory. */
  function PacketFlags(p: RxPacket): (bs: seq<bool>)
    ensures |bs| == 32
  {
    var c := p.capture;
    [c.present, c.headerOnly, c.truncated, c.pointerValid, c.parseValid]
    + MacFlagBits(p.macFlags)
    + [p.sequenceControl.Some?, p.qosControl.Some?, p.frameControl.Some?, p.durationId.Some?,
       p.driverPayload.Some?, p.driverPacket.Some?]
    + seq(13, _ => false)
  }

  /** Record bytes 120..124. */
  function RawScalarBytes(s: RawScalars): (b: bytes)
    requires RawScalarsValid(s)
    ensures |b| == 4
  {
    [s[0].GetOr(255), s[1].GetOr(255), s[2].GetOr(255), s[3].GetOr(255)]
  }

  function TailBytes(m: RxMetadata): (s: bytes)
    requires RadioValid(m.radio) && RawScalarsValid(m.rawScalars) && LayoutFits(m.layout)
    ensures |s| == 136
  {
    RawScalarBytes(m.rawScalars) + (SymbolBytes(m.radio) + (SlotBytes(m.layout) + Zeros(8)))
  }

  predicate MetadataFits(m: RxMetadata) {
    && IdentityValid(m.identity) && AddressesValid(m.addresses) && RadioValid(m.radio)
    && RawScalarsValid(m.rawScalars) && LayoutFits(m.layout) && PacketFits(m.packet)
  }

  /** The whole record. */
  function RecordBytes(m: RxMetadata): (s: bytes)
    requires MetadataFits(m)
    ensures |s| == 256
  {
    IdentityBytes(m.identity)
    + (AddressesBytes(m.addresses)
       + (RadioBytes(m.radio)
          + (PutFlags32(RadioFlags(m.radio))
             + (DimensionBytes(m.layout, m.firstWordInvalid, m.csiDataValid)
                + ([AccuracyCode(m.accuracy)]
                   + (HeaderWordBytes(m.packet) + (PacketBytes(m.packet) + TailBytes(m))))))))
  }
}
