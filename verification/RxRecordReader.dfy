/** How a metadata record is decoded (scripts/capture/rx.py `_metadata`). Every check
    of the source is a `Require`; all failures are the one RxProtocolError. */
module RxRecordReader {
  import opened Wire
  import opened CsiLayouts
  import opened RxRecords

  function ReadIdentity(record: bytes): Identity
    requires |record| == 256
  {
    var rxSequence := U32(record, 12);
    Identity(U32(record, 0), U64(record, 4), if rxSequence == U32_MAX then None else Some(rxSequence),
             U32(record, 16), U32(record, 20))
  }

  function Mac(record: bytes, i: nat): (s: bytes)
    requires |record| == 256 && i < 5
    ensures |s| == 6
  {
    record[24 + i * 6..30 + i * 6]
  }

  function ReadAddress(record: bytes, i: nat): Result<Option<bytes>>
    requires |record| == 256 && i < 5
  {
    if Flags16(record, 54)[i] then Ok(Some(Mac(record, i)))
    else
      :- Require(AllZero(Mac(record, i)));
      Ok(None)
  }

  /** The address list after its first `n` entries. */
  function AddressesTo(record: bytes, n: nat): Result<Addresses>
    requires |record| == 256 && n <= 5
  {
    if n == 0 then Ok([])
    else
      var before :- AddressesTo(record, n - 1);
      var last :- ReadAddress(record, n - 1);
      Ok(before + [last])
  }

  function ReadAddresses(record: bytes): Result<Addresses>
    requires |record| == 256
  {
    var mask := Flags16(record, 54);
    :- Require(forall i :: 5 <= i < 16 ==> !mask[i]);
    AddressesTo(record, 5)
  }

  /** `optional_bool` */
  function OptionalBool(rx: seq<bool>, value: nat, available: nat): Result<Option<bool>>
    requires value < |rx| && available < |rx|
  {
    if rx[value] && !rx[available] then Err
    else Ok(if rx[available] then Some(rx[value]) else None)
  }

  /** `scalar` */
  function Scalar(available: bool, value: int, sentinel: int): Result<Option<int>> {
    if available then
      :- Require(sentinel == 0 || value != sentinel);
      Ok(Some(value))
    else
      :- Require(value == sentinel);
      Ok(None)
  }

  datatype RadioBits = RadioBits(stbc: Option<bool>, smoothing: Option<bool>, sounding: Option<bool>,
                                 aggregation: Option<bool>, ldpc: Option<bool>, shortGi: Option<bool>,
                                 channelEstimateValid: Option<bool>, dcm: Option<bool>)

  function ReadRadioBits(rx: seq<bool>): Result<RadioBits>
    requires |rx| == 32
  {
    if exists i :: 20 <= i < 32 && rx[i] then Err
    else
      var stbc :- OptionalBool(rx, 5, 4);
      var smoothing :- OptionalBool(rx, 6, 17);
      var sounding :- OptionalBool(rx, 8, 7);
      var aggregation :- OptionalBool(rx, 10, 9);
      var ldpc :- OptionalBool(rx, 12, 11);
      var shortGi :- OptionalBool(rx, 14, 13);
      var estimate :- OptionalBool(rx, 16, 15);
      var dcm :- OptionalBool(rx, 19, 18);
      Ok(RadioBits(stbc, smoothing, sounding, aggregation, ldpc, shortGi, estimate, dcm))
  }

  /** Guard interval and HE-LTF size against the PHY and the radio bits. */
  predicate SymbolChecks(gi: nat, ltf: nat, phy: byte, bits: RadioBits) {
    var he := 3 <= phy <= 6;
    && gi in {0, 400, 800, 1600, 3200} && ltf in {0, 1, 2, 4}
    && (!(ltf != 0 || bits.dcm.Some?) || he)
    && (gi != 0 ==>
          && ((he && gi != 400) || (phy in {1, 2} && gi <= 800))
          && (bits.shortGi.None? || gi == if bits.shortGi.value then 400 else 800))
  }

  function ReadRadio(record: bytes): Result<Radio>
    requires |record| == 256
  {
    var secondary, phy := SecondaryOf(record[59]), PhyOf(record[61]);
    :- Require(secondary.Some? && phy.Some?);
    var rx := Flags32(record, 64);
    var bits :- ReadRadioBits(rx);
    var gi, ltf := U16(record, 124), record[126];
    :- Require(SymbolChecks(gi, ltf, record[61], bits));
    var noise :- Scalar(rx[0], I8(record[57]), 0);
    var antenna :- Scalar(rx[1], record[60], 255);
    var mcs :- Scalar(rx[2], record[63], 255);
    var bandwidth :- Scalar(rx[3], record[62], 0);
    :- Require(bandwidth.None? || bandwidth.value in {20, 40, 80, 160});
    Ok(Radio(I8(record[56]), noise, record[58], secondary.value, antenna, phy.value, bandwidth,
             mcs, bits.stbc, bits.smoothing, bits.sounding, bits.aggregation, bits.ldpc, bits.shortGi,
             bits.channelEstimateValid, bits.dcm, NonzeroOption(gi), NonzeroOption(ltf)))
  }

  /** Python's `value or None`. */
  function NonzeroOption(v: nat): Option<nat> {
    if v == 0 then None else Some(v)
  }

  // ---------------------------------------------------------------- packet facts

  function Word(available: bool, value: nat): Option<nat> {
    if available then Some(value) else None
  }

  function CaptureOf(rf: seq<bool>): CaptureFlags
    requires |rf| == 16
  {
    CaptureFlags(rf[0], rf[1], rf[2], rf[3], rf[4])
  }

  predicate PacketEnumsKnown(record: bytes)
    requires |record| == 256
  {
    record[96] <= 4 && record[98] <= 3 && record[99] <= 2
  }

  /** The packet facts a record spells out, before they are checked against each other. */
  function PacketOf(record: bytes, rf: seq<bool>): RxPacket
    requires |record| == 256 && |rf| == 16 && PacketEnumsKnown(record)
  {
    var pf := Flags32(record, 116);
    RxPacket(PACKET_TYPES[record[96]], Word(pf[15], record[97]), FCS_STATES[record[98]], CAPTURE_MODES[record[99]],
             U16(record, 100), Word(pf[17], U32(record, 104)), Word(pf[18], U32(record, 108)), U32(record, 112),
             Word(pf[15], U16(record, 88)), Word(pf[16], U16(record, 90)),
             Word(pf[13], U16(record, 92)), Word(pf[14], U16(record, 94)),
             if pf[15] then Some(MacFlagsOf(pf[5..13])) else None, CaptureOf(rf))
  }

  /** The directory's five flags repeated in metadata order, nothing above bit 18. */
  predicate FlagChecks(pf: seq<bool>, rf: seq<bool>)
    requires |pf| == 32 && |rf| == 16
  {
    && (forall i :: 19 <= i < 32 ==> !pf[i])
    && pf[0] == rf[0] && pf[1] == rf[2] && pf[2] == rf[1] && pf[3] == rf[4] && pf[4] == rf[3]
  }

  predicate LengthChecks(record: bytes, d: Directory)
    requires |record| == 256
  {
    var header := U16(record, 100);
    && d.headerPrefix == (if header <= d.captured then header else d.captured)
    && d.captured == U32(record, 112) && d.captured <= d.readable
    && d.payloadReport == U32(record, 104)
  }

  predicate PresenceChecks(record: bytes, d: Directory)
    requires |record| == 256 && |d.flags| == 16
  {
    var c, mode := CaptureOf(d.flags), record[99];
    && c.present == (d.captured != 0) && (!c.parseValid || c.pointerValid)
    && (!c.present || c.pointerValid)
    && if c.present then
         && mode != 0 && c.headerOnly == (mode == 1)
         && if c.headerOnly then c.parseValid && !c.truncated && d.captured == U16(record, 100)
            else d.captured >= d.readable || c.truncated
       else
         !c.truncated && !c.headerOnly && d.headerPrefix == 0
  }

  predicate WordChecks(record: bytes, d: Directory)
    requires |record| == 256 && |d.flags| == 16
  {
    var pf := Flags32(record, 116);
    var fc := U16(record, 88);
    && (pf[15] || U16(record, 88) == 0) && (pf[16] || U16(record, 90) == 0)
    && (pf[13] || U16(record, 92) == 0) && (pf[14] || U16(record, 94) == 0)
    && (if pf[15] then
          && CaptureOf(d.flags).pointerValid && d.readable >= 2 && record[97] as int == fc / 16 % 16
          && pf[5..13] == ToBits(fc / 256, 8)
        else
          record[97] == 255 && (forall i :: 5 <= i < 13 ==> !pf[i]) && U16(record, 100) == 0)
    && (!pf[16] || (pf[15] && d.readable >= 4))
    && (!pf[13] || (pf[15] && d.readable >= 24))
    && (!pf[14] || (pf[15] && d.readable >= 26))
  }

  predicate ParsedChecks(record: bytes, d: Directory)
    requires |record| == 256 && |d.flags| == 16
  {
    var pf, fc, header := Flags32(record, 116), U16(record, 88), U16(record, 100);
    CaptureOf(d.flags).parseValid ==>
      && pf[15] && pf[16] && 0 < header <= d.readable && fc % 4 == 0
      && 1 <= record[96] <= 3 && record[96] as int == fc / 4 % 4 + 1
  }

  predicate ReportChecks(record: bytes, d: Directory)
    requires |record| == 256 && |d.flags| == 16
  {
    var pf, c := Flags32(record, 116), CaptureOf(d.flags);
    var report := Word(pf[18], U32(record, 108));
    && (pf[17] || U32(record, 104) == 0)
    && (pf[18] || U32(record, 108) == 0)
    && (report.None? || d.readable <= report.value)
    && (c.present && !c.headerOnly ==> c.truncated == (d.captured < report.GetOr(d.readable)))
  }

  function ReadPacket(record: bytes, d: Directory): Result<RxPacket>
    requires |record| == 256 && |d.flags| == 16
  {
    if !FlagChecks(Flags32(record, 116), d.flags) then Err
    else
      :- Require(PacketEnumsKnown(record));
      :- Require(LengthChecks(record, d));
      :- Require(PresenceChecks(record, d));
      :- Require(WordChecks(record, d));
      :- Require(ParsedChecks(record, d));
      :- Require(ReportChecks(record, d));
      Ok(PacketOf(record, d.flags))
  }

  function RawScalar(b: byte): Option<nat> {
    if b == 255 then None else Some(b as int)
  }

  function ReadMetadata(record: bytes, kind: Kind, d: Directory): Result<RxMetadata>
    requires |record| == 256 && |d.flags| == 16
  {
    if exists i :: 5 <= i < 16 && d.flags[i] then Err
    else
      :- Require(AllZero(record[102..104]) && AllZero(record[127..128]) && AllZero(record[248..256]));
      var layout :- ReadLayout(record);
      :- Require(layout.byteLength == d.csiLength);
      :- Require(U32(record, 0) == d.sequence);
      var addresses :- ReadAddresses(record);
      FinishMetadata(record, kind, d, layout, addresses)
  }

  /** Everything after the layout and the address list. */
  function FinishMetadata(record: bytes, kind: Kind, d: Directory, layout: CsiLayout, addresses: Addresses): Result<RxMetadata>
    requires |record| == 256 && |d.flags| == 16
  {
    var radio :- ReadRadio(record);
    :- Require(record[87] <= 2);
    var packet :- ReadPacket(record, d);
    :- Require(kind == Monitor ==>
                 d.csiLength == 0 && !Flags32(record, 64)[15] && !Flags32(record, 64)[16]);
    Ok(RxMetadata(ReadIdentity(record), ACCURACIES[record[87]], addresses, radio,
                  Flags32(record, 68)[0], Flags32(record, 68)[1],
                  [RawScalar(record[120]), RawScalar(record[121]), RawScalar(record[122]), RawScalar(record[123])],
                  layout, packet))
  }
}
