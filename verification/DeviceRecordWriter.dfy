/** The firmware's metadata writer, store by store, into a zeroed record
    (components/esp32_mquickjs/src/modules/wifi_common/esp32_mquickjs_wifi_rx_wire_metadata.c).
    Stores go in address order; the source makes a few of them out of it. */
module DeviceRecordWriter {
  import opened Wire
  import opened CsiLayouts
  import opened RxRecords
  import opened DeviceWriter
  import opened DeviceMetadata

  // --------------------------------------------------------- filling a zeroed buffer

  ghost predicate Zeroed(rec: bytes, o: nat, n: nat) {
    o + n <= |rec| && forall i :: o <= i < o + n ==> rec[i] == 0
  }

  /** `rec` becomes `goal` once `rest` is stored at `o`, where there are still zeros. */
  ghost predicate Filling(rec: bytes, o: nat, rest: bytes, goal: bytes) {
    Zeroed(rec, o, |rest|) && Write(rec, o, rest) == goal
  }

  lemma FillStep(before: bytes, after: bytes, o: nat, s: bytes, rest: bytes, goal: bytes)
    requires Filling(before, o, s + rest, goal) && after == Write(before, o, s)
    ensures Filling(after, o + |s|, rest, goal)
  {
    WriteParts(before, o, s, rest);
  }

  /** Zeros need not be stored. */
  lemma FillSkip(rec: bytes, o: nat, n: nat, rest: bytes, goal: bytes)
    requires Filling(rec, o, Zeros(n) + rest, goal)
    ensures Filling(rec, o + n, rest, goal)
  {
    assert Write(rec, o, Zeros(n)) == rec;
    FillStep(rec, rec, o, Zeros(n), rest, goal);
  }

  lemma FillDone(rec: bytes, o: nat, goal: bytes)
    requires Filling(rec, o, [], goal)
    ensures rec == goal
  {
    WriteNothing(rec, o);
  }

  method Store16(record: array<byte>, o: nat, v: nat, ghost rest: bytes, ghost goal: bytes)
    requires IsU16(v) && Filling(record[..], o, Put16(v) + rest, goal)
    modifies record
    ensures Filling(record[..], o + 2, rest, goal)
  {
    hide Put16, Write;
    ghost var before := record[..];
    PutU16(record, o, v, rest);
    FillStep(before, record[..], o, Put16(v), rest, goal);
  }

  method Store32(record: array<byte>, o: nat, v: nat, ghost rest: bytes, ghost goal: bytes)
    requires IsU32(v) && Filling(record[..], o, Put32(v) + rest, goal)
    modifies record
    ensures Filling(record[..], o + 4, rest, goal)
  {
    hide Put32, Write;
    ghost var before := record[..];
    PutU32(record, o, v, rest);
    FillStep(before, record[..], o, Put32(v), rest, goal);
  }

  method Store(record: array<byte>, o: nat, s: bytes, ghost rest: bytes, ghost goal: bytes)
    requires Filling(record[..], o, s + rest, goal)
    modifies record
    ensures Filling(record[..], o + |s|, rest, goal)
  {
    hide Write;
    ghost var before := record[..];
    PutBytes(record, o, s, rest);
    FillStep(before, record[..], o, s, rest, goal);
  }

  // ------------------------------------------------------------------ the regions

  method StoreIdentity(record: array<byte>, d: Directory, m: WireMetadata)
    requires d.Fits() && Typed(m) && Zeroed(record[..], 0, 24)
    modifies record
    ensures record[..] == Write(old(record[..]), 0, IdentitySlot(d, m))
  {
    hide Put32, Filling, Write;
    ghost var goal := Write(record[..], 0, IdentitySlot(d, m));
    ghost var radio := Put32(m.radioGeneration);
    ghost var tail := Put32(m.rxSequence) + (Put32(m.sessionGeneration) + radio);
    var low, high := m.timestampUs % 0x1_0000_0000, m.timestampUs / 0x1_0000_0000;
    IdentityParts(record[..], d, m, goal);
    Store32(record, 0, d.sequence, Put32(low) + (Put32(high) + tail), goal);
    Store32(record, 4, low, Put32(high) + tail, goal);
    Store32(record, 8, high, tail, goal);
    Store32(record, 12, m.rxSequence, Put32(m.sessionGeneration) + radio, goal);
    Store32(record, 16, m.sessionGeneration, radio, goal);
    assert radio + [] == radio;
    Store32(record, 20, m.radioGeneration, [], goal);
    FillDone(record[..], 24, goal);
  }

  lemma IdentityParts(rec: bytes, d: Directory, m: WireMetadata, goal: bytes)
    requires d.Fits() && Typed(m) && Zeroed(rec, 0, 24) && goal == Write(rec, 0, IdentitySlot(d, m))
    ensures IsU32(m.timestampUs / 0x1_0000_0000)
    ensures Filling(rec, 0, Put32(d.sequence)
                            + (Put32(m.timestampUs % 0x1_0000_0000)
                               + (Put32(m.timestampUs / 0x1_0000_0000)
                                  + (Put32(m.rxSequence) + (Put32(m.sessionGeneration) + Put32(m.radioGeneration))))), goal)
  {
    hide Put32, Write;
    Regroup(Put32(m.timestampUs % 0x1_0000_0000), Put32(m.timestampUs / 0x1_0000_0000),
            Put32(m.rxSequence) + (Put32(m.sessionGeneration) + Put32(m.radioGeneration)));
  }

  /** An unavailable address is left zero. */
  method StoreAddress(record: array<byte>, m: WireMetadata, i: nat, ghost rest: bytes, ghost goal: bytes)
    requires Typed(m) && i < 5 && Filling(record[..], 24 + 6 * i, AddressSlot(m, i) + rest, goal)
    modifies record
    ensures Filling(record[..], 24 + 6 * (i + 1), rest, goal)
  {
    hide Filling;
    assert m.addresses[i] in m.addresses;
    if m.addressMask[i] {
      Store(record, 24 + i * 6, m.addresses[i], rest, goal);
    } else {
      FillSkip(record[..], 24 + 6 * i, 6, rest, goal);
    }
  }

  /** The address slots from slot `i` on, and the mask. */
  ghost function AddressesFrom(m: WireMetadata, i: nat): (s: bytes)
    requires Typed(m) && i <= 5
    ensures |s| == 6 * (5 - i) + 2
    decreases 5 - i
  {
    if i == 5 then PutFlags16(m.addressMask + seq(8, _ => false)) else AddressSlot(m, i) + AddressesFrom(m, i + 1)
  }

  lemma AddressesFromStart(m: WireMetadata)
    requires Typed(m)
    ensures AddressesFrom(m, 0) == AddressSlots(m)
  {
    hide AddressSlot, PutFlags16;
    assert AddressesFrom(m, 3) == AddressSlot(m, 3) + (AddressSlot(m, 4) + AddressesFrom(m, 5));
  }

  method StoreAddresses(record: array<byte>, m: WireMetadata)
    requires Typed(m) && Zeroed(record[..], 24, 32)
    modifies record
    ensures record[..] == Write(old(record[..]), 24, AddressSlots(m))
  {
    hide Filling, Write, AddressSlot, PutFlags16, AddressSlots, Put16;
    ghost var before, goal := record[..], Write(record[..], 24, AddressSlots(m));
    FillStart(before, 24, AddressSlots(m));
    AddressesFromStart(m);
    for i := 0 to 5
      invariant Filling(record[..], 24 + 6 * i, AddressesFrom(m, i), goal)
    {
      StoreAddress(record, m, i, AddressesFrom(m, i + 1), goal);
    }
    var mask := m.addressMask + seq(8, _ => false);
    FlagsWord(mask);
    assert Put16(FromBits(mask)) + [] == Put16(FromBits(mask));
    Store16(record, 54, FromBits(mask), [], goal);
    FillDone(record[..], 56, goal);
  }

  lemma FillStart(rec: bytes, o: nat, s: bytes)
    requires Zeroed(rec, o, |s|)
    ensures Filling(rec, o, s, Write(rec, o, s))
  {
  }

  method StoreRadio(record: array<byte>, m: WireMetadata)
    requires Typed(m) && record.Length == 256
    modifies record
    ensures record[..] == Write(old(record[..]), 56, RadioSlot(m))
  {
    hide PutI8;
    ghost var before := record[..];
    var r := m.rxFlags;
    var noise, antenna := if r[0] then PutI8(m.noiseFloor) else 0, if r[1] then m.antenna else 255;
    var bandwidth, mcs := if r[3] then m.bandwidth else 0, if r[2] then m.mcs else 255;
    record[56], record[57], record[58], record[59] := PutI8(m.rssi), noise, m.primary, m.secondary;
    record[60], record[61], record[62], record[63] := antenna, m.phy, bandwidth, mcs;
    RadioIs(m, noise, antenna, bandwidth, mcs);
    assert record[..] == Write(before, 56, [PutI8(m.rssi), noise, m.primary, m.secondary, antenna, m.phy, bandwidth, mcs]);
  }

  lemma RadioIs(m: WireMetadata, noise: byte, antenna: byte, bandwidth: byte, mcs: byte)
    requires Typed(m) && noise == if m.rxFlags[0] then PutI8(m.noiseFloor) else 0
    requires antenna == (if m.rxFlags[1] then m.antenna else 255) && bandwidth == if m.rxFlags[3] then m.bandwidth else 0
    requires mcs == if m.rxFlags[2] then m.mcs else 255
    ensures RadioSlot(m) == [PutI8(m.rssi), noise, m.primary, m.secondary, antenna, m.phy, bandwidth, mcs]
  {
    hide PutI8;
  }

  method StoreWords(record: array<byte>, m: WireMetadata)
    requires Typed(m) && Zeroed(record[..], 88, 8)
    modifies record
    ensures record[..] == Write(old(record[..]), 88, WordSlot(m))
  {
    hide Put16, Filling, Write;
    ghost var goal := Write(record[..], 88, WordSlot(m));
    FillStart(record[..], 88, WordSlot(m));
    ghost var qos := Put16(m.qosControl.GetOr(0));
    ghost var sequence := Put16(m.sequenceControl.GetOr(0)) + qos;
    StoreWord(record, 88, m.frameControl, Put16(m.durationId.GetOr(0)) + sequence, goal);
    StoreWord(record, 90, m.durationId, sequence, goal);
    StoreWord(record, 92, m.sequenceControl, qos, goal);
    assert qos + [] == qos;
    StoreWord(record, 94, m.qosControl, [], goal);
    FillDone(record[..], 96, goal);
  }

  /** An unavailable header word is left zero. */
  method StoreWord(record: array<byte>, o: nat, w: Option<nat>, ghost rest: bytes, ghost goal: bytes)
    requires WordTyped(w) && Filling(record[..], o, Put16(w.GetOr(0)) + rest, goal)
    modifies record
    ensures Filling(record[..], o + 2, rest, goal)
  {
    hide Filling;
    if w.Some? {
      Store16(record, o, w.value, rest, goal);
    } else {
      assert Put16(0) == Zeros(2);
      FillSkip(record[..], o, 2, rest, goal);
    }
  }

  method StoreFlags(record: array<byte>, o: nat, flags: seq<bool>, ghost rest: bytes, ghost goal: bytes)
    requires |flags| == 32 && Filling(record[..], o, PutFlags32(flags) + rest, goal)
    modifies record
    ensures Filling(record[..], o + 4, rest, goal)
  {
    hide Filling, Put32;
    FlagsWord32(flags);
    Store32(record, o, FromBits(flags), rest, goal);
  }

  lemma FlagsWord32(flags: seq<bool>)
    requires |flags| == 32
    ensures IsU32(FromBits(flags)) && PutFlags32(flags) == Put32(FromBits(flags))
  {
    FromBitsBound(flags);
    Pow2Words();
  }

  /** The dimensions of a layout; the slot count is the last of their bytes. */
  method StoreDimensions(record: array<byte>, l: WireLayout, length: nat, firstWordInvalid: bool, dataValid: bool)
    requires LayoutTyped(l) && IsU32(length) && DimensionsAccepted(l, length) && Zeroed(record[..], 68, 19)
    modifies record
    ensures record[..] == Write(old(record[..]), 68, LayoutWords(l, length, firstWordInvalid, dataValid))
  {
    hide Put16, Put32, PutFlags32, Filling, Write, LayoutTyped;
    DimensionWords(l, length);
    ghost var goal := Write(record[..], 68, LayoutWords(l, length, firstWordInvalid, dataValid));
    FillStart(record[..], 68, LayoutWords(l, length, firstWordInvalid, dataValid));
    ghost var last := Put16(l.padding) + [|l.segments|];
    ghost var tail := Put32(length) + (Put32(l.iqPairs) + last);
    StoreFlags(record, 68, [firstWordInvalid, dataValid, l.known] + seq(29, _ => false), [l.encoding, l.sampleBits, l.schema, 0] + tail, goal);
    Store(record, 72, [l.encoding, l.sampleBits, l.schema, 0], tail, goal);
    Store32(record, 76, length, Put32(l.iqPairs) + last, goal);
    Store32(record, 80, l.iqPairs, last, goal);
    Store16(record, 84, l.padding, [|l.segments|], goal);
    assert [|l.segments| as byte] + [] == [|l.segments| as byte];
    Store(record, 86, [|l.segments|], [], goal);
    FillDone(record[..], 87, goal);
  }

  lemma DimensionWords(l: WireLayout, length: nat)
    requires LayoutTyped(l) && DimensionsAccepted(l, length)
    ensures IsU32(l.iqPairs) && IsU16(l.padding)
  {
  }

  // ----------------------------------------------------------------------- packet

  /** Sets a bit that is still clear. */
  function WithBit(flags: seq<bool>, i: nat, on: bool): (r: seq<bool>)
    requires i < |flags| && !flags[i]
    ensures r == flags[i := on]
  {
    if on then flags[i := true] else flags
  }

  /** The five capture flags change places on their way from the row to the record. */
  method MakeCaptureFlags(d: Directory) returns (flags: seq<bool>)
    requires d.Fits()
    ensures flags == [d.flags[0], d.flags[2], d.flags[1], d.flags[4], d.flags[3]] + seq(27, _ => false)
  {
    hide WithBit;
    flags := seq(32, _ => false);
    flags := WithBit(flags, 0, d.flags[0]);
    flags := WithBit(flags, 1, d.flags[2]);
    flags := WithBit(flags, 2, d.flags[1]);
    flags := WithBit(flags, 3, d.flags[4]);
    flags := WithBit(flags, 4, d.flags[3]);
  }

  method MarkAvailable(before: seq<bool>, m: WireMetadata) returns (flags: seq<bool>)
    requires |before| == 32 && forall i :: 13 <= i < 32 ==> !before[i]
    ensures flags == before[..13]
                     + [m.sequenceControl.Some?, m.qosControl.Some?, m.frameControl.Some?, m.durationId.Some?, m.payloadKnown, m.packetKnown]
                     + seq(13, _ => false)
  {
    hide WithBit;
    flags := WithBit(before, 15, m.frameControl.Some?);
    flags := WithBit(flags, 16, m.durationId.Some?);
    flags := WithBit(flags, 13, m.sequenceControl.Some?);
    flags := WithBit(flags, 14, m.qosControl.Some?);
    flags := WithBit(flags, 17, m.payloadKnown);
    flags := WithBit(flags, 18, m.packetKnown);
  }

  method MakePacketFlags(d: Directory, m: WireMetadata) returns (flags: seq<bool>)
    requires d.Fits() && Typed(m)
    ensures flags == PacketWord(d, m)
  {
    hide ToBits, Typed;
    var capture := MakeCaptureFlags(d);
    var mac := seq(8, _ => false);
    if m.frameControl.Some? {
      mac := ToBits(m.frameControl.value / 256, 8);
    }
    flags := MarkAvailable(capture[..5] + mac + capture[13..], m);
  }

  method StorePacket(record: array<byte>, d: Directory, m: WireMetadata)
    requires d.Fits() && Typed(m) && Zeroed(record[..], 96, 24)
    modifies record
    ensures record[..] == Write(old(record[..]), 96, PacketSlot(d, m))
  {
    hide Put16, Put32, PutFlags32, Filling, Write, PacketWord, Zeros;
    var flags := MakePacketFlags(d, m);
    ghost var goal := Write(record[..], 96, PacketSlot(d, m));
    FillStart(record[..], 96, PacketSlot(d, m));
    ghost var word := PutFlags32(flags);
    ghost var reports := Put32(d.payloadReport) + (Put32(m.driverPacketLength) + (Put32(d.captured) + word));
    var enums := [m.packetType, if m.frameControl.Some? then m.frameControl.value / 16 % 16 else 255, m.fcs, m.captureMode];
    Store(record, 96, enums, Put16(m.headerLength) + (Zeros(2) + reports), goal);
    Store16(record, 100, m.headerLength, Zeros(2) + reports, goal);
    FillSkip(record[..], 102, 2, reports, goal);
    Store32(record, 104, d.payloadReport, Put32(m.driverPacketLength) + (Put32(d.captured) + word), goal);
    Store32(record, 108, m.driverPacketLength, Put32(d.captured) + word, goal);
    Store32(record, 112, d.captured, word, goal);
    assert word + [] == word;
    StoreFlags(record, 116, flags, [], goal);
    FillDone(record[..], 120, goal);
  }

  method StoreSymbol(record: array<byte>, m: WireMetadata)
    requires Typed(m) && Zeroed(record[..], 124, 4)
    modifies record
    ensures record[..] == Write(old(record[..]), 124, SymbolSlot(m))
  {
    hide Put16, Filling, Write;
    ghost var goal := Write(record[..], 124, SymbolSlot(m));
    FillStart(record[..], 124, SymbolSlot(m));
    Store16(record, 124, m.guardInterval, [m.heLtf, 0], goal);
    assert [m.heLtf, 0] + [] == [m.heLtf, 0];
    Store(record, 126, [m.heLtf, 0], [], goal);
    FillDone(record[..], 128, goal);
  }

  // --------------------------------------------------------------------- segments

  /** A cast to `uint16_t`. */
  method StoreI16(record: array<byte>, o: nat, v: int, ghost rest: bytes, ghost goal: bytes)
    requires IsI16(v) && Filling(record[..], o, PutI16(v) + rest, goal)
    modifies record
    ensures Filling(record[..], o + 2, rest, goal)
  {
    hide Filling;
    Store16(record, o, if v >= 0 then v else v + 0x1_0000, rest, goal);
  }

  /** The ranges from `j` on, then zeros. */
  ghost function RangesFrom(rs: seq<CsiRange>, j: nat): (s: bytes)
    requires j <= |rs| <= 2 && forall r :: r in rs ==> IsI16(r.start) && IsI16(r.end)
    ensures |s| == 8 - 4 * j
    decreases |rs| - j
  {
    if j == |rs| then Zeros(8 - 4 * j) else PutI16(rs[j].start) + (PutI16(rs[j].end) + RangesFrom(rs, j + 1))
  }

  lemma RangesFromStart(rs: seq<CsiRange>)
    requires |rs| <= 2 && forall r :: r in rs ==> IsI16(r.start) && IsI16(r.end)
    ensures RangesFrom(rs, 0) == RangeBytes(rs)
  {
    hide PutI16;
    if |rs| == 1 {
      assert RangesFrom(rs, 1) == Zeros(4);
    } else if |rs| == 2 {
      assert RangesFrom(rs, 2) == [];
      assert PutI16(rs[1].end) + [] == PutI16(rs[1].end);
      assert RangesFrom(rs, 1) == PutI16(rs[1].start) + PutI16(rs[1].end);
    }
  }

  method StoreRanges(record: array<byte>, o: nat, rs: seq<CsiRange>, ghost rest: bytes, ghost goal: bytes)
    requires |rs| <= 2 && (forall r :: r in rs ==> IsI16(r.start) && IsI16(r.end))
    requires Filling(record[..], o, RangeBytes(rs) + rest, goal)
    modifies record
    ensures Filling(record[..], o + 8, rest, goal)
  {
    hide Filling, PutI16, RangeBytes;
    RangesFromStart(rs);
    for j := 0 to |rs|
      invariant Filling(record[..], o + 4 * j, RangesFrom(rs, j) + rest, goal)
    {
      ghost var after := RangesFrom(rs, j + 1);
      Regroup(PutI16(rs[j].start), PutI16(rs[j].end) + after, rest);
      Regroup(PutI16(rs[j].end), after, rest);
      StoreI16(record, o + j * 4, rs[j].start, PutI16(rs[j].end) + (after + rest), goal);
      StoreI16(record, o + 2 + j * 4, rs[j].end, after + rest, goal);
    }
    FillSkip(record[..], o + 4 * |rs|, 8 - 4 * |rs|, rest, goal);
  }

  /** The nulls from `j` on, then zeros. */
  ghost function NullsFrom(ns: seq<int>, j: nat): (s: bytes)
    requires j <= |ns| <= 3 && forall n :: n in ns ==> IsI16(n)
    ensures |s| == 6 - 2 * j
    decreases |ns| - j
  {
    if j == |ns| then Zeros(6 - 2 * j) else PutI16(ns[j]) + NullsFrom(ns, j + 1)
  }

  lemma NullsFromStart(ns: seq<int>)
    requires |ns| <= 3 && forall n :: n in ns ==> IsI16(n)
    ensures NullsFrom(ns, 0) == NullBytes(ns)
  {
    hide PutI16;
    if |ns| == 1 {
      assert NullsFrom(ns, 1) == Zeros(4);
    } else if |ns| == 2 {
      assert NullsFrom(ns, 1) == PutI16(ns[1]) + Zeros(2);
    } else if |ns| == 3 {
      assert NullsFrom(ns, 3) == [];
      assert PutI16(ns[2]) + [] == PutI16(ns[2]);
      assert NullsFrom(ns, 2) == PutI16(ns[2]);
      assert NullsFrom(ns, 1) == PutI16(ns[1]) + PutI16(ns[2]);
    }
  }

  method StoreNulls(record: array<byte>, o: nat, ns: seq<int>, ghost rest: bytes, ghost goal: bytes)
    requires |ns| <= 3 && (forall n :: n in ns ==> IsI16(n)) && Filling(record[..], o, NullBytes(ns) + rest, goal)
    modifies record
    ensures Filling(record[..], o + 6, rest, goal)
  {
    hide Filling, PutI16, NullBytes;
    NullsFromStart(ns);
    for j := 0 to |ns|
      invariant Filling(record[..], o + 2 * j, NullsFrom(ns, j) + rest, goal)
    {
      Regroup(PutI16(ns[j]), NullsFrom(ns, j + 1), rest);
      StoreI16(record, o + j * 2, ns[j], NullsFrom(ns, j + 1) + rest, goal);
    }
    FillSkip(record[..], o + 2 * |ns|, 6 - 2 * |ns|, rest, goal);
  }

  method StoreSegment(record: array<byte>, o: nat, s: WireSegment)
    requires SegmentTyped(s) && s.kind <= 7 && |s.ranges| <= 2 && |s.nulls| <= 3 && Zeroed(record[..], o, 40)
    modifies record
    ensures record[..] == Write(old(record[..]), o, SegmentSlot(s))
  {
    hide Put32, RangeBytes, NullBytes, Filling, Write, Zeros;
    ghost var goal := Write(record[..], o, SegmentSlot(s));
    FillStart(record[..], o, SegmentSlot(s));
    ghost var lists := RangeBytes(s.ranges) + (NullBytes(s.nulls) + Zeros(10));
    ghost var sizes := Put32(s.lengthBytes) + (Put32(s.iqPairs) + lists);
    Store(record, o, [s.kind, |s.ranges|, |s.nulls|, 0], Put32(s.offsetBytes) + sizes, goal);
    Store32(record, o + 4, s.offsetBytes, sizes, goal);
    Store32(record, o + 8, s.lengthBytes, Put32(s.iqPairs) + lists, goal);
    Store32(record, o + 12, s.iqPairs, lists, goal);
    StoreRanges(record, o + 16, s.ranges, NullBytes(s.nulls) + Zeros(10), goal);
    StoreNulls(record, o + 24, s.nulls, Zeros(10), goal);
    assert Zeros(10) + [] == Zeros(10);
    FillSkip(record[..], o + 30, 10, [], goal);
    FillDone(record[..], o + 40, goal);
  }

  /** Storing elsewhere leaves zeros alone. */
  lemma StillZeroed(before: bytes, o: nat, s: bytes, p: nat, n: nat)
    requires o + |s| <= p && p + n <= |before| && Zeroed(before, p, n)
    ensures Zeroed(Write(before, o, s), p, n)
  {
  }

  method StoreSlots(record: array<byte>, segs: seq<WireSegment>)
    requires SlotsFit(segs) && |segs| <= 3 && Zeroed(record[..], 128, 120)
    modifies record
    ensures record[..] == Write(old(record[..]), 128, SegmentSlots(segs) + Zeros(120 - 40 * |segs|))
  {
    hide Write, SegmentSlot, SegmentTyped, Zeros;
    ghost var before := record[..];
    WriteNothing(before, 128);
    for i := 0 to |segs|
      invariant record[..] == Write(before, 128, SegmentSlots(segs[..i]))
      invariant Zeroed(record[..], 128 + 40 * i, 120 - 40 * i)
    {
      ghost var done, reached := segs[..i], record[..];
      assert segs[..i + 1][..i] == done && segs[..i + 1][i] == segs[i];
      assert segs[i] in segs;
      StoreSegment(record, 128 + i * 40, segs[i]);
      StillZeroed(reached, 128 + 40 * i, SegmentSlot(segs[i]), 128 + 40 * (i + 1), 80 - 40 * i);
      WriteParts(before, 128, SegmentSlots(done), SegmentSlot(segs[i]));
    }
    assert segs[..|segs|] == segs;
    ghost var left := 120 - 40 * |segs|;
    WriteParts(before, 128, SegmentSlots(segs), Zeros(left));
    WriteZeros(record[..], 128 + 40 * |segs|, left);
  }

  lemma WriteZeros(rec: bytes, o: nat, n: nat)
    requires Zeroed(rec, o, n)
    ensures Write(rec, o, Zeros(n)) == rec
  {
  }

  // ------------------------------------------------------------------- the record

  method StoreLayout(record: array<byte>, d: Directory, m: WireMetadata)
    requires d.Fits() && Typed(m) && LayoutAccepted(m.layout, d.csiLength) && Zeroed(record[..], 68, 19)
    modifies record
    ensures record[..] == Write(old(record[..]), 68, LayoutSlot(d, m))
  {
    hide Write, LayoutTyped, SlotsAccepted, DimensionsAccepted, LayoutWords, Zeros;
    if m.layout.Some? {
      StoreDimensions(record, m.layout.value, d.csiLength, m.firstWordInvalid, m.csiDataValid);
    } else {
      WriteZeros(record[..], 68, 19);
    }
  }

  method StoreSegments(record: array<byte>, d: Directory, m: WireMetadata)
    requires d.Fits() && Typed(m) && LayoutAccepted(m.layout, d.csiLength) && Zeroed(record[..], 128, 120)
    modifies record
    ensures record[..] == Write(old(record[..]), 128, SlotsSlot(m, d.csiLength))
  {
    hide Write, LayoutTyped, SlotsAccepted, DimensionsAccepted, SlotsFit, SegmentSlots, Zeros;
    if m.layout.Some? {
      AcceptedStored(m.layout.value, d.csiLength);
      StoreSlots(record, m.layout.value.segments);
    } else {
      WriteZeros(record[..], 128, 120);
    }
  }

  lemma FillZeroed(rec: bytes, o: nat, s: bytes, rest: bytes, goal: bytes)
    requires Filling(rec, o, s + rest, goal)
    ensures Zeroed(rec, o, |s|)
  {
  }

  /** Bytes 0..68. */
  method StoreFront(record: array<byte>, d: Directory, m: WireMetadata, ghost rest: bytes, ghost goal: bytes)
    requires d.Fits() && Typed(m) && record.Length == 256
    requires Filling(record[..], 0, IdentitySlot(d, m) + (AddressSlots(m) + (RadioSlot(m) + (PutFlags32(m.rxFlags) + rest))), goal)
    modifies record
    ensures Filling(record[..], 68, rest, goal)
  {
    hide Filling, Write, IdentitySlot, AddressSlots, RadioSlot, PutFlags32, Zeroed;
    ghost var flags := PutFlags32(m.rxFlags) + rest;
    ghost var start := record[..];
    FillZeroed(start, 0, IdentitySlot(d, m), AddressSlots(m) + (RadioSlot(m) + flags), goal);
    StoreIdentity(record, d, m);
    ghost var identified := record[..];
    FillStep(start, identified, 0, IdentitySlot(d, m), AddressSlots(m) + (RadioSlot(m) + flags), goal);
    FillZeroed(identified, 24, AddressSlots(m), RadioSlot(m) + flags, goal);
    StoreAddresses(record, m);
    ghost var addressed := record[..];
    FillStep(identified, addressed, 24, AddressSlots(m), RadioSlot(m) + flags, goal);
    StoreRadio(record, m);
    FillStep(addressed, record[..], 56, RadioSlot(m), flags, goal);
    StoreFlags(record, 64, m.rxFlags, rest, goal);
  }

  /** Bytes 68..120. */
  method StoreMiddle(record: array<byte>, d: Directory, m: WireMetadata, ghost rest: bytes, ghost goal: bytes)
    requires d.Fits() && Typed(m) && LayoutAccepted(m.layout, d.csiLength) && record.Length == 256
    requires Filling(record[..], 68, LayoutSlot(d, m) + ([m.accuracy] + (WordSlot(m) + (PacketSlot(d, m) + rest))), goal)
    modifies record
    ensures Filling(record[..], 120, rest, goal)
  {
    hide Filling, Write, LayoutSlot, WordSlot, PacketSlot, Zeroed, LayoutAccepted;
    ghost var words := WordSlot(m) + (PacketSlot(d, m) + rest);
    ghost var start := record[..];
    FillZeroed(start, 68, LayoutSlot(d, m), [m.accuracy] + words, goal);
    StoreLayout(record, d, m);
    FillStep(start, record[..], 68, LayoutSlot(d, m), [m.accuracy] + words, goal);
    Store(record, 87, [m.accuracy], words, goal);
    ghost var timed := record[..];
    FillZeroed(timed, 88, WordSlot(m), PacketSlot(d, m) + rest, goal);
    StoreWords(record, m);
    ghost var worded := record[..];
    FillStep(timed, worded, 88, WordSlot(m), PacketSlot(d, m) + rest, goal);
    FillZeroed(worded, 96, PacketSlot(d, m), rest, goal);
    StorePacket(record, d, m);
    FillStep(worded, record[..], 96, PacketSlot(d, m), rest, goal);
  }

  /** Bytes 120..248; the last eight stay zero. */
  method StoreBack(record: array<byte>, d: Directory, m: WireMetadata, ghost goal: bytes)
    requires d.Fits() && Typed(m) && LayoutAccepted(m.layout, d.csiLength) && record.Length == 256
    requires Filling(record[..], 120, m.rawScalars + (SymbolSlot(m) + (SlotsSlot(m, d.csiLength) + Zeros(8))), goal)
    modifies record
    ensures record[..] == goal
  {
    hide Filling, Write, SymbolSlot, SlotsSlot, Zeroed, LayoutAccepted, Zeros;
    ghost var slots := SlotsSlot(m, d.csiLength);
    Store(record, 120, m.rawScalars, SymbolSlot(m) + (slots + Zeros(8)), goal);
    ghost var start := record[..];
    FillZeroed(start, 124, SymbolSlot(m), slots + Zeros(8), goal);
    StoreSymbol(record, m);
    ghost var timed := record[..];
    FillStep(start, timed, 124, SymbolSlot(m), slots + Zeros(8), goal);
    FillZeroed(timed, 128, slots, Zeros(8), goal);
    StoreSegments(record, d, m);
    FillStep(timed, record[..], 128, slots, Zeros(8), goal);
    assert Zeros(8) + [] == Zeros(8);
    FillSkip(record[..], 248, 8, [], goal);
    FillDone(record[..], 256, goal);
  }

  lemma FreshFilling(goal: bytes)
    requires |goal| == 256
    ensures Filling(Zeros(256), 0, goal, goal)
  {
  }

  /** `esp32_mquickjs_wifi_rx_wire_write_metadata` at offset `o` of a buffer: nothing is
      changed on failure; on success exactly the record's 256 bytes are. */
  method WriteMetadata(kind: Kind, d: Directory, m: WireMetadata, output: array<byte>, o: nat) returns (ok: bool)
    requires d.Fits() && Typed(m)
    modifies output
    ensures ok <==> o + 256 <= output.Length && MetadataAccepted(kind, d, m)
    ensures !ok ==> output[..] == old(output[..])
    ensures ok ==> output[..] == Write(old(output[..]), o, DeviceRecord(kind, d, m))
  {
    hide Filling, Write, MetadataAccepted, DeviceRecord, Typed;
    if o + 256 > output.Length {
      return false;
    }
    ok := CheckMetadata(kind, d, m);
    if ok {
      var record := FillRecord(kind, d, m);
      PutBytes(output, o, record[..], []);
    }
  }

  /** The local buffer, filled. */
  method FillRecord(kind: Kind, d: Directory, m: WireMetadata) returns (record: array<byte>)
    requires d.Fits() && Typed(m) && MetadataAccepted(kind, d, m)
    ensures fresh(record) && record[..] == DeviceRecord(kind, d, m)
  {
    hide Filling, Write, IdentitySlot, AddressSlots, RadioSlot, PutFlags32, LayoutSlot, WordSlot, PacketSlot, SymbolSlot, SlotsSlot;
    hide Typed, LayoutAccepted, SignalAccepted, PacketAccepted, FramesTyped, Writable, Zeros;
    ghost var goal := DeviceRecord(kind, d, m);
    record := new byte[256](_ => 0);
    ClearedIs(record[..]);
    FreshFilling(goal);
    ghost var back := m.rawScalars + (SymbolSlot(m) + (SlotsSlot(m, d.csiLength) + Zeros(8)));
    ghost var middle := LayoutSlot(d, m) + ([m.accuracy] + (WordSlot(m) + (PacketSlot(d, m) + back)));
    StoreFront(record, d, m, middle, goal);
    StoreMiddle(record, d, m, back, goal);
    StoreBack(record, d, m, goal);
  }

  lemma ClearedIs(s: bytes)
    requires |s| == 256 && forall i :: 0 <= i < 256 ==> s[i] == 0
    ensures s == Zeros(256)
  {
  }

  /** `esp32_mquickjs_wifi_rx_wire_metadata_valid`; the envelope of one frame is laid out first. */
  method CheckMetadata(kind: Kind, d: Directory, m: WireMetadata) returns (ok: bool)
    requires d.Fits() && Typed(m)
    ensures ok == MetadataAccepted(kind, d, m)
  {
    hide Writable, SignalAccepted, LayoutAccepted, PacketAccepted;
    var envelope := MakeLayout(kind, [d]);
    if envelope.None? || !SignalAccepted(m) {
      return false;
    }
    var layoutOk := CheckLayout(m.layout, d.csiLength);
    if !layoutOk || !PacketAccepted(d, m) {
      return false;
    }
    return !((m.layout.None? && (m.csiDataValid || m.firstWordInvalid)) || (kind == Monitor && (m.rxFlags[15] || m.rxFlags[16])));
  }
}
