/** The Radiotap header put in front of every exported packet (scripts/capture/pcapng.py
    `_radiotap`), and a reader that follows the Radiotap rules only: fields stand in
    bit-number order, and the present mask alone says which ones are there. */
module Radiotap {
  import opened Wire
  import opened RxRecords
  import opened RxBatches

  /** One present field: its bit number and its bytes. */
  datatype Field = Field(bit: nat, data: bytes)

  // ---------------------------------------------------------------- the reader

  type Alignment = a: nat | a > 0 witness 1

  datatype Shape = Shape(size: nat, align: Alignment)

  /** Sizes and alignments of the defined Radiotap fields with bits 0 to 22. */
  function FieldShape(bit: nat): Option<Shape> {
    match bit
    case 0 => Some(Shape(8, 8))
    case 1 => Some(Shape(1, 1))
    case 2 => Some(Shape(1, 1))
    case 3 => Some(Shape(4, 2))
    case 4 => Some(Shape(2, 1))
    case 5 => Some(Shape(1, 1))
    case 6 => Some(Shape(1, 1))
    case 7 => Some(Shape(2, 2))
    case 8 => Some(Shape(2, 2))
    case 9 => Some(Shape(2, 2))
    case 10 => Some(Shape(1, 1))
    case 11 => Some(Shape(1, 1))
    case 12 => Some(Shape(1, 1))
    case 13 => Some(Shape(1, 1))
    case 14 => Some(Shape(2, 2))
    case 15 => Some(Shape(2, 2))
    case 16 => Some(Shape(1, 1))
    case 17 => Some(Shape(1, 1))
    case 18 => Some(Shape(8, 4))
    case 19 => Some(Shape(3, 1))
    case 20 => Some(Shape(8, 4))
    case 21 => Some(Shape(12, 2))
    case 22 => Some(Shape(12, 8))
    case _ => None
  }

  function AlignUp(offset: nat, align: nat): nat
    requires align > 0
  {
    (offset + align - 1) / align * align
  }

  /** The fields from bit number `bit` on; they have to end exactly at the end of the header. */
  function ReadFields(header: bytes, mask: seq<bool>, bit: nat, offset: nat): Option<seq<Field>>
    requires |mask| == 32 && bit <= 32
    decreases 32 - bit
  {
    if bit == 32 then (if offset == |header| then Some([]) else None)
    else if !mask[bit] then ReadFields(header, mask, bit + 1, offset)
    else
      match FieldShape(bit)
      case None => None
      case Some(shape) =>
        var start := AlignUp(offset, shape.align);
        if start + shape.size > |header| then None
        else
          match ReadFields(header, mask, bit + 1, start + shape.size)
          case None => None
          case Some(rest) => Some([Field(bit, header[start..start + shape.size])] + rest)
  }

  datatype Header = Header(length: nat, fields: seq<Field>)

  /** The header at the front of `data`: version 0, its own length, the mask, then the fields. */
  function ReadRadiotap(data: bytes): Option<Header> {
    if |data| < 8 || data[0] != 0 then None
    else
      var length := U16(data, 2);
      if length < 8 || length > |data| then None
      else
        match ReadFields(data[..length], Flags32(data, 4), 0, 8)
        case None => None
        case Some(fields) => Some(Header(length, fields))
  }

  // ------------------------------------------------------ what the fields mean

  datatype FlagsView = FlagsView(fcsAtEnd: bool, badFcs: bool)

  /** Bandwidth is the two-bit code of the MCS field: 0 is 20 MHz, 1 is 40 MHz. */
  datatype McsView = McsView(bandwidth: Option<nat>, index: Option<nat>, shortGi: Option<bool>, ldpc: Option<bool>,
                             stbcStreams: Option<nat>)

  datatype View = View(flags: Option<FlagsView>, signal: Option<int>, noise: Option<int>, antenna: Option<nat>,
                       mcs: Option<McsView>)

  function Find(fields: seq<Field>, bit: nat): Option<bytes> {
    if fields == [] then None
    else if fields[0].bit == bit then Some(fields[0].data)
    else Find(fields[1..], bit)
  }

  function ReadFlags(data: bytes): FlagsView
    requires |data| == 1
  {
    var bs := ToBits(data[0], 8);
    FlagsView(bs[4], bs[6])
  }

  function ReadMcs(data: bytes): McsView
    requires |data| == 3
  {
    var known, flags := ToBits(data[0], 8), ToBits(data[1], 8);
    McsView(if known[0] then Some(FromBits(flags[0..2])) else None,
            if known[1] then Some(data[2] as nat) else None,
            if known[2] then Some(flags[2]) else None,
            if known[4] then Some(flags[4]) else None,
            if known[5] then Some(FromBits(flags[5..7])) else None)
  }

  /** The facts a Radiotap consumer takes from a field list. */
  function ViewOf(fields: seq<Field>): View {
    var flags, signal, noise := Find(fields, 1), Find(fields, 5), Find(fields, 6);
    var antenna, mcs := Find(fields, 11), Find(fields, 19);
    View(if flags.Some? && |flags.value| == 1 then Some(ReadFlags(flags.value)) else None,
         if signal.Some? && |signal.value| == 1 then Some(I8(signal.value[0])) else None,
         if noise.Some? && |noise.value| == 1 then Some(I8(noise.value[0])) else None,
         if antenna.Some? && |antenna.value| == 1 then Some(antenna.value[0] as nat) else None,
         if mcs.Some? && |mcs.value| == 3 then Some(ReadMcs(mcs.value)) else None)
  }

  // ------------------------------------------------- what the exporter writes

  /** The capture ends with the frame's FCS: reported present, nothing cut off. */
  predicate FcsCaptured(f: RxFrame) {
    var p := f.metadata.packet;
    && p.fcs in {PresentValid, PresentInvalid} && !p.capture.truncated && p.captureMode == FullCapture
  }

  /** The one thing that makes a header impossible. */
  predicate Encodable(f: RxFrame) {
    FcsCaptured(f) ==> |f.packet| >= 4
  }

  function FlagBits(f: RxFrame): (bs: seq<bool>)
    ensures |bs| == 8
  {
    var included := FcsCaptured(f);
    [false, false, false, false, included, false, included && f.metadata.packet.fcs == PresentInvalid, false]
  }

  function FlagsField(f: RxFrame): seq<Field> {
    if f.metadata.packet.fcs == UnknownFcs then [] else [Field(1, [ByteOf(FlagBits(f))])]
  }

  function SignalField(r: Radio): seq<Field>
    requires RadioValid(r)
  {
    [Field(5, [PutI8(r.rssi)])]
  }

  function NoiseField(r: Radio): seq<Field>
    requires RadioValid(r)
  {
    if r.noiseFloor.None? then [] else [Field(6, [PutI8(r.noiseFloor.value)])]
  }

  function AntennaField(r: Radio): seq<Field>
    requires RadioValid(r)
  {
    if r.antenna.None? then [] else [Field(11, [r.antenna.value])]
  }

  predicate BandwidthKnown(r: Radio) {
    r.bandwidthMhz.Some? && r.bandwidthMhz.value in {20, 40}
  }

  predicate IndexKnown(r: Radio) {
    r.mcs.Some? && 0 <= r.mcs.value <= 76
  }

  predicate NoStbc(r: Radio) {
    r.stbc.Some? && !r.stbc.value
  }

  function McsKnownBits(r: Radio): (bs: seq<bool>)
    ensures |bs| == 8
  {
    [BandwidthKnown(r), IndexKnown(r), r.shortGi.Some?, false, r.ldpc.Some?, NoStbc(r), false, false]
  }

  function McsFlagBits(r: Radio): (bs: seq<bool>)
    ensures |bs| == 8
  {
    [BandwidthKnown(r) && r.bandwidthMhz.value == 40, false, IsTrue(r.shortGi), false, IsTrue(r.ldpc), false, false, false]
  }

  function McsIndex(r: Radio): byte {
    if IndexKnown(r) then r.mcs.value else 0
  }

  predicate AnyMcs(r: Radio) {
    r.phy == Ht && (BandwidthKnown(r) || IndexKnown(r) || r.shortGi.Some? || r.ldpc.Some? || NoStbc(r))
  }

  function McsField(r: Radio): seq<Field> {
    if AnyMcs(r) then [Field(19, [ByteOf(McsKnownBits(r)), ByteOf(McsFlagBits(r)), McsIndex(r)])] else []
  }

  /** Exactly the fields of a frame, in bit-number order. */
  function FieldsOf(f: RxFrame): seq<Field>
    requires RadioValid(f.metadata.radio)
  {
    var r := f.metadata.radio;
    FlagsField(f) + SignalField(r) + NoiseField(r) + AntennaField(r) + McsField(r)
  }

  function Join(fields: seq<Field>): bytes {
    if fields == [] then [] else fields[0].data + Join(fields[1..])
  }

  predicate HasBit(fields: seq<Field>, bit: nat) {
    fields != [] && (fields[0].bit == bit || HasBit(fields[1..], bit))
  }

  function MaskOf(fields: seq<Field>): (mask: seq<bool>)
    ensures |mask| == 32
  {
    seq(32, i requires 0 <= i < 32 => HasBit(fields, i))
  }

  /** Version 0, pad 0, length, mask, fields. */
  function HeaderOf(fields: seq<Field>): (s: bytes)
    requires |Join(fields)| <= 100
    ensures |s| == 8 + |Join(fields)|
  {
    [0, 0] + (Put16(8 + |Join(fields)|) + (PutFlags32(MaskOf(fields)) + Join(fields)))
  }

  // ------------------------------------------------------------ reading it back

  /** Fields in strictly ascending bit order, each with its defined size and no alignment gap. */
  predicate Ascending(fields: seq<Field>, from: nat) {
    fields != [] ==>
      && from <= fields[0].bit < 32
      && FieldShape(fields[0].bit) == Some(Shape(|fields[0].data|, 1))
      && Ascending(fields[1..], fields[0].bit + 1)
  }

  lemma {:induction false} BitsAbove(fields: seq<Field>, from: nat, bit: nat)
    requires Ascending(fields, from) && bit < from
    ensures !HasBit(fields, bit)
  {
    if fields != [] {
      BitsAbove(fields[1..], fields[0].bit + 1, bit);
    }
  }

  lemma AlignOne(offset: nat)
    ensures AlignUp(offset, 1) == offset
  {
  }

  lemma JoinNone()
    ensures Join([]) == []
  {
  }

  lemma TakeField(header: bytes, offset: nat, fields: seq<Field>)
    requires offset <= |header| && fields != [] && header[offset..] == Join(fields)
    ensures var end := offset + |fields[0].data|;
            end <= |header| && header[offset..end] == fields[0].data && header[end..] == Join(fields[1..])
  {
    var size := |fields[0].data|;
    SplitAt(header[offset..], fields[0].data, Join(fields[1..]));
    assert header[offset..][..size] == header[offset..offset + size];
    assert header[offset..][size..] == header[offset + size..];
  }

  /** The mask-driven reader takes any ascending field list back out of its bytes. */
  lemma {:induction false} FieldsReadBack(header: bytes, mask: seq<bool>, bit: nat, offset: nat, fields: seq<Field>)
    requires |mask| == 32 && bit <= 32 && offset <= |header|
    requires Ascending(fields, bit) && header[offset..] == Join(fields)
    requires forall i :: bit <= i < 32 ==> mask[i] == HasBit(fields, i)
    ensures ReadFields(header, mask, bit, offset) == Some(fields)
    decreases 32 - bit
  {
    hide Join, AlignUp;
    if bit == 32 {
      JoinNone();
    } else {
      if fields != [] && fields[0].bit == bit {
        var size := |fields[0].data|;
        TakeField(header, offset, fields);
        AlignOne(offset);
        FieldsReadBack(header, mask, bit + 1, offset + size, fields[1..]);
        assert fields[0] == Field(bit, header[offset..offset + size]);
        assert fields == [fields[0]] + fields[1..];
      } else {
        if fields != [] {
          BitsAbove(fields[1..], fields[0].bit + 1, bit);
        }
        FieldsReadBack(header, mask, bit + 1, offset, fields);
      }
    }
  }

  lemma HeaderReadBack(fields: seq<Field>, rest: bytes)
    requires |Join(fields)| <= 100 && Ascending(fields, 0)
    ensures ReadRadiotap(HeaderOf(fields) + rest) == Some(Header(8 + |Join(fields)|, fields))
  {
    hide Put16, PutFlags32, U16, Flags32;
    var h := HeaderOf(fields);
    var data := h + rest;
    var length := 8 + |Join(fields)|;
    assert data[..length] == h;
    assert data[2..4] == Put16(length);
    Word16(data, 2, length);
    assert data[4..8] == PutFlags32(MaskOf(fields));
    FlagWord32(data, 4, MaskOf(fields));
    assert h[8..] == Join(fields);
    FieldsReadBack(h, MaskOf(fields), 0, 8, fields);
  }

  lemma {:induction false} JoinAppend(a: seq<Field>, b: seq<Field>)
    ensures Join(a + b) == Join(a) + Join(b)
  {
    if a == [] {
      assert a + b == b;
    } else {
      JoinAppend(a[1..], b);
      assert (a + b)[1..] == a[1..] + b;
      Regroup(a[0].data, Join(a[1..]), Join(b));
    }
  }

  lemma Regroup(x: bytes, y: bytes, z: bytes)
    ensures x + (y + z) == (x + y) + z
  {
  }

  lemma {:induction false} HasBitAppend(a: seq<Field>, b: seq<Field>, bit: nat)
    ensures HasBit(a + b, bit) <==> HasBit(a, bit) || HasBit(b, bit)
  {
    if a == [] {
      assert a + b == b;
    } else {
      HasBitAppend(a[1..], b, bit);
      assert (a + b)[1..] == a[1..] + b;
    }
  }

  /** Adding a field sets its bit of the mask and appends its bytes. */
  lemma AddField(fields: seq<Field>, f: Field)
    requires f.bit < 32
    ensures Join(fields + [f]) == Join(fields) + f.data
    ensures MaskOf(fields + [f]) == MaskOf(fields)[f.bit := true]
  {
    JoinAppend(fields, [f]);
    assert Join([f]) == f.data + Join([]) == f.data;
    forall i: nat | i < 32
      ensures HasBit(fields + [f], i) <==> HasBit(fields, i) || i == f.bit
    {
      HasBitAppend(fields, [f], i);
    }
  }

  lemma {:induction false} AscendingAppend(a: seq<Field>, from: nat, mid: nat, b: seq<Field>)
    requires Ascending(a, from) && Ascending(b, mid) && from <= mid && forall f :: f in a ==> f.bit < mid
    ensures Ascending(a + b, from)
  {
    hide FieldShape;
    if a == [] {
      assert a + b == b;
    } else {
      AscendingAppend(a[1..], a[0].bit + 1, mid, b);
      assert (a + b)[1..] == a[1..] + b;
    }
  }

  lemma FieldsAscend(f: RxFrame)
    requires RadioValid(f.metadata.radio)
    ensures Ascending(FieldsOf(f), 0) && |Join(FieldsOf(f))| <= 7
  {
    hide RadioValid, FlagsField, SignalField, NoiseField, AntennaField, McsField, Join, Ascending;
    var r := f.metadata.radio;
    var a, b, c, d, e := FlagsField(f), SignalField(r), NoiseField(r), AntennaField(r), McsField(r);
    FieldSizes(f);
    FieldBits(f);
    AscendingAppend(a, 0, 5, b);
    AscendingAppend(a + b, 0, 6, c);
    AscendingAppend(a + b + c, 0, 11, d);
    AscendingAppend(a + b + c + d, 0, 19, e);
    JoinAppend(a, b);
    JoinAppend(a + b, c);
    JoinAppend(a + b + c, d);
    JoinAppend(a + b + c + d, e);
  }

  lemma FieldSizes(f: RxFrame)
    requires RadioValid(f.metadata.radio)
    ensures var r := f.metadata.radio;
            && Ascending(FlagsField(f), 0) && Ascending(SignalField(r), 5) && Ascending(NoiseField(r), 6)
            && Ascending(AntennaField(r), 11) && Ascending(McsField(r), 19)
            && |Join(FlagsField(f))| <= 1 && |Join(SignalField(r))| == 1 && |Join(NoiseField(r))| <= 1
            && |Join(AntennaField(r))| <= 1 && |Join(McsField(r))| <= 3
  {
    hide RadioValid, ByteOf, FlagBits, McsKnownBits, McsFlagBits, AnyMcs, McsIndex;
  }

  lemma FieldBits(f: RxFrame)
    requires RadioValid(f.metadata.radio)
    ensures var r := f.metadata.radio;
            && (forall x :: x in FlagsField(f) ==> x.bit == 1) && (forall x :: x in SignalField(r) ==> x.bit == 5)
            && (forall x :: x in NoiseField(r) ==> x.bit == 6) && (forall x :: x in AntennaField(r) ==> x.bit == 11)
  {
    hide RadioValid, ByteOf, FlagBits;
  }

  /** The header of a frame. */
  function RadiotapBytes(f: RxFrame): (s: bytes)
    requires RadioValid(f.metadata.radio)
    ensures 8 <= |s| <= 15
  {
    FieldsAscend(f);
    HeaderOf(FieldsOf(f))
  }

  /** Radiotap round trip: whatever follows it, the header is consumed to exactly its
      declared length and gives back exactly the fields that were written. */
  lemma RadiotapReadBack(f: RxFrame, rest: bytes)
    requires RadioValid(f.metadata.radio)
    ensures |RadiotapBytes(f)| >= 8 && RadiotapBytes(f)[..2] == [0, 0]
    ensures ReadRadiotap(RadiotapBytes(f) + rest) == Some(Header(|RadiotapBytes(f)|, FieldsOf(f)))
  {
    hide FieldsOf, RadioValid;
    FieldsAscend(f);
    HeaderReadBack(FieldsOf(f), rest);
  }

  // ------------------------------------------------------------- meaning is kept

  /** What a consumer should learn about a frame, from the facts of its record: FCS flags only
      for a whole frame that ends with one, MCS facts only for HT, bandwidths 20 and 40 MHz,
      indices up to 76, and STBC only when it is known to be absent, as its presence does not
      say how many streams there were. */
  function Expected(f: RxFrame): View {
    var r, p := f.metadata.radio, f.metadata.packet;
    var whole := p.captureMode == FullCapture && !p.capture.truncated && (p.fcs == PresentValid || p.fcs == PresentInvalid);
    var bandwidth, index := r.bandwidthMhz in {Some(20), Some(40)}, r.mcs.Some? && 0 <= r.mcs.value <= 76;
    var mcs := r.phy == Ht && (bandwidth || index || r.shortGi.Some? || r.ldpc.Some? || r.stbc == Some(false));
    View(if p.fcs == UnknownFcs then None else Some(FlagsView(whole, whole && p.fcs == PresentInvalid)),
         Some(r.rssi), r.noiseFloor,
         if r.antenna.Some? && r.antenna.value >= 0 then Some(r.antenna.value) else None,
         if mcs
         then Some(McsView(if r.bandwidthMhz == Some(20) then Some(0) else if r.bandwidthMhz == Some(40) then Some(1) else None,
                           if index then Some(r.mcs.value) else None, r.shortGi, r.ldpc,
                           if r.stbc == Some(false) then Some(0) else None))
         else None)
  }

  function ExpectedMcs(r: Radio): McsView {
    McsView(if r.bandwidthMhz == Some(20) then Some(0) else if r.bandwidthMhz == Some(40) then Some(1) else None,
            if IndexKnown(r) then Some(r.mcs.value) else None,
            r.shortGi, r.ldpc, if NoStbc(r) then Some(0) else None)
  }

  lemma ExpectedParts(f: RxFrame)
    ensures var r := f.metadata.radio;
            Expected(f).mcs == if AnyMcs(r) then Some(ExpectedMcs(r)) else None
    ensures Expected(f).flags
            == if f.metadata.packet.fcs == UnknownFcs then None
               else Some(FlagsView(FcsCaptured(f), FcsCaptured(f) && f.metadata.packet.fcs == PresentInvalid))
  {
  }

  lemma ByteBits(bs: seq<bool>)
    requires |bs| == 8
    ensures ToBits(ByteOf(bs), 8) == bs
  {
    ToFromBits(bs);
  }

  lemma TwoBits(a: bool, b: bool)
    ensures FromBits([a, b]) == (if a then 1 else 0) + (if b then 2 else 0)
  {
    assert [a, b][1..] == [b];
    assert FromBits([b]) == (if b then 1 else 0) + 2 * FromBits([b][1..]);
  }

  lemma McsMeaning(r: Radio)
    requires RadioValid(r) && AnyMcs(r)
    ensures |McsField(r)| == 1 && |McsField(r)[0].data| == 3
    ensures ReadMcs(McsField(r)[0].data) == ExpectedMcs(r)
  {
    hide ByteOf, ToBits, FromBits;
    var known, flags := McsKnownBits(r), McsFlagBits(r);
    ByteBits(known);
    ByteBits(flags);
    assert flags[0..2] == [flags[0], flags[1]];
    assert flags[5..7] == [flags[5], flags[6]];
    TwoBits(flags[0], flags[1]);
    TwoBits(flags[5], flags[6]);
  }

  lemma FlagsMeaning(f: RxFrame)
    requires f.metadata.packet.fcs != UnknownFcs
    ensures |FlagsField(f)| == 1 && |FlagsField(f)[0].data| == 1
    ensures ReadFlags(FlagsField(f)[0].data) == Expected(f).flags.value
  {
    hide ByteOf, ToBits, Expected;
    ExpectedParts(f);
    ByteBits(FlagBits(f));
  }

  lemma SignedByte(v: int)
    requires IsI8(v)
    ensures I8(PutI8(v)) == v
  {
  }

  lemma {:induction false} FindAppend(a: seq<Field>, b: seq<Field>, bit: nat)
    ensures Find(a + b, bit) == if HasBit(a, bit) then Find(a, bit) else Find(b, bit)
  {
    if a == [] {
      assert a + b == b;
    } else {
      FindAppend(a[1..], b, bit);
      assert (a + b)[1..] == a[1..] + b;
    }
  }

  /** A field list found by bit number is the matching one of its five parts. */
  lemma FindIn(f: RxFrame, bit: nat)
    requires RadioValid(f.metadata.radio)
    ensures var r := f.metadata.radio;
            Find(FieldsOf(f), bit)
            == if bit == 1 then Find(FlagsField(f), 1) else if bit == 5 then Find(SignalField(r), 5)
               else if bit == 6 then Find(NoiseField(r), 6) else if bit == 11 then Find(AntennaField(r), 11)
               else if bit == 19 then Find(McsField(r), 19) else None
  {
    hide ByteOf, FlagBits, McsKnownBits, McsFlagBits, AnyMcs, McsIndex, RadioValid;
    var r := f.metadata.radio;
    var a, b, c, d, e := FlagsField(f), SignalField(r), NoiseField(r), AntennaField(r), McsField(r);
    FindAppend(a + b + c + d, e, bit);
    FindAppend(a + b + c, d, bit);
    FindAppend(a + b, c, bit);
    FindAppend(a, b, bit);
    HasBitAppend(a + b + c, d, bit);
    HasBitAppend(a + b, c, bit);
    HasBitAppend(a, b, bit);
  }

  /** A consumer learns exactly what the record says: FCS flags, signal, noise, antenna
      and HT MCS facts, and nothing that the record does not say. */
  lemma MeaningKept(f: RxFrame)
    requires RadioValid(f.metadata.radio)
    ensures ViewOf(FieldsOf(f)) == Expected(f)
  {
    hide ByteOf, FlagBits, McsKnownBits, McsFlagBits, AnyMcs, McsIndex, FieldsOf, ReadMcs, ReadFlags, ExpectedMcs, I8, PutI8;
    hide GuardIntervalValid, FcsCaptured, IndexKnown, NoStbc;
    var r := f.metadata.radio;
    ExpectedParts(f);
    FindIn(f, 1);
    FindIn(f, 5);
    FindIn(f, 6);
    FindIn(f, 11);
    FindIn(f, 19);
    SignedByte(r.rssi);
    if r.noiseFloor.Some? {
      SignedByte(r.noiseFloor.value);
    }
    if f.metadata.packet.fcs != UnknownFcs {
      FlagsMeaning(f);
    }
    if AnyMcs(r) {
      McsMeaning(r);
    }
  }

  /** The bytes of the HT MCS field: known bits 0, 1, 2, 4 and 5, flag bits 0, 2 and 4. */
  lemma McsOnWire(f: RxFrame)
    requires RadioValid(f.metadata.radio) && Expected(f).mcs.Some?
    ensures var r := f.metadata.radio;
            Find(FieldsOf(f), 19)
            == Some([(if r.bandwidthMhz in {Some(20), Some(40)} then 0x01 else 0)
                     + (if r.mcs.Some? && 0 <= r.mcs.value <= 76 then 0x02 else 0)
                     + (if r.shortGi.Some? then 0x04 else 0) + (if r.ldpc.Some? then 0x10 else 0)
                     + (if r.stbc == Some(false) then 0x20 else 0),
                     (if r.bandwidthMhz == Some(40) then 0x01 else 0) + (if r.shortGi == Some(true) then 0x04 else 0)
                     + (if r.ldpc == Some(true) then 0x10 else 0),
                     if r.mcs.Some? && 0 <= r.mcs.value <= 76 then r.mcs.value else 0])
  {
    hide RadioValid, FromBits, FieldsOf, ByteOf;
    ExpectedParts(f);
    FindIn(f, 19);
    EightBits(McsKnownBits(f.metadata.radio));
    EightBits(McsFlagBits(f.metadata.radio));
  }

  lemma EightBits(bs: seq<bool>)
    requires |bs| == 8
    ensures ByteOf(bs) as int
            == (if bs[0] then 0x01 else 0) + (if bs[1] then 0x02 else 0) + (if bs[2] then 0x04 else 0) + (if bs[3] then 0x08 else 0)
               + (if bs[4] then 0x10 else 0) + (if bs[5] then 0x20 else 0) + (if bs[6] then 0x40 else 0) + (if bs[7] then 0x80 else 0)
  {
    HalfBits(bs, 4);
    HalfBits(bs[4..], 4);
    assert bs[4..][4..] == [];
  }

  lemma HalfBits(bs: seq<bool>, n: nat)
    requires n == 4 <= |bs|
    ensures FromBits(bs) == (if bs[0] then 1 else 0) + (if bs[1] then 2 else 0) + (if bs[2] then 4 else 0) + (if bs[3] then 8 else 0)
                            + 16 * FromBits(bs[4..])
  {
    assert bs[1..][1..] == bs[2..] && bs[2..][1..] == bs[3..] && bs[3..][1..] == bs[4..];
  }

  /** The flags byte: 0x10 for an FCS at the end, 0x40 for a bad one; signal and noise are
      two's complement bytes. */
  lemma LevelsOnWire(f: RxFrame)
    requires RadioValid(f.metadata.radio)
    ensures var r, v := f.metadata.radio, Expected(f);
            && (v.flags.Some? ==>
                  Find(FieldsOf(f), 1) == Some([(if v.flags.value.fcsAtEnd then 0x10 else 0) + (if v.flags.value.badFcs then 0x40 else 0)]))
            && IsI8(r.rssi) && Find(FieldsOf(f), 5) == Some([if r.rssi < 0 then 0x100 + r.rssi else r.rssi])
            && (r.noiseFloor.Some? ==>
                  && IsI8(r.noiseFloor.value)
                  && Find(FieldsOf(f), 6) == Some([if r.noiseFloor.value < 0 then 0x100 + r.noiseFloor.value else r.noiseFloor.value]))
  {
    hide FromBits, FieldsOf, ByteOf, Expected, FcsCaptured, McsField, RadioValid;
    RadioBytesFit(f.metadata.radio);
    ExpectedParts(f);
    FindIn(f, 1);
    FindIn(f, 5);
    FindIn(f, 6);
    EightBits(FlagBits(f));
  }

  // -------------------------------------------------------- in the source's form

  /** `_radiotap`: fails exactly when a complete capture is too short for the FCS it is
      reported to contain. */
  method MakeRadiotap(f: RxFrame) returns (r: Result<bytes>)
    requires RadioValid(f.metadata.radio)
    ensures r.Ok? <==> Encodable(f)
    ensures r.Ok? ==> r.value == RadiotapBytes(f)
  {
    hide RadioValid, Join, MaskOf, Ascending, McsField, AnyMcs, RadiotapBytes, FlagBits, ByteOf, SignalField, NoiseField, AntennaField;
    var m := f.metadata;
    var present, fields: bytes := seq(32, _ => false), [];
    ghost var written: seq<Field> := [];
    NothingWritten();
    if m.packet.fcs != UnknownFcs {
      var flags := seq(8, _ => false);
      if m.packet.fcs in {PresentValid, PresentInvalid} && !m.packet.capture.truncated && m.packet.captureMode == FullCapture {
        if |f.packet| < 4 {
          return Err;
        }
        flags := flags[4 := true][6 := m.packet.fcs == PresentInvalid];
      }
      FlagsAre(f, flags);
      AddField(written, Field(1, [ByteOf(flags)]));
      present, fields, written := present[1 := true], fields + [ByteOf(flags)], written + [Field(1, [ByteOf(flags)])];
    }
    assert written == FlagsField(f);
    present, fields := AddRadioFields(m.radio, present, fields, written);
    written := written + SignalField(m.radio) + NoiseField(m.radio) + AntennaField(m.radio) + McsField(m.radio);
    assert written == FieldsOf(f);
    HeaderIs(f);
    return Ok([0, 0] + (Put16(8 + |fields|) + (PutFlags32(present) + fields)));
  }

  lemma FlagsAre(f: RxFrame, flags: seq<bool>)
    requires var p := f.metadata.packet;
             flags == (if p.fcs in {PresentValid, PresentInvalid} && !p.capture.truncated && p.captureMode == FullCapture
                       then seq(8, _ => false)[4 := true][6 := p.fcs == PresentInvalid] else seq(8, _ => false))
    ensures flags == FlagBits(f)
  {
  }

  lemma NothingWritten()
    ensures Join([]) == [] && MaskOf([]) == seq(32, _ => false)
  {
  }

  lemma HeaderIs(f: RxFrame)
    requires RadioValid(f.metadata.radio)
    ensures |Join(FieldsOf(f))| <= 7 && RadiotapBytes(f) == HeaderOf(FieldsOf(f))
  {
    hide FieldsOf, RadioValid;
    FieldsAscend(f);
  }

  /** The part of `_radiotap` that depends on the radio facts alone. */
  method AddRadioFields(r: Radio, present0: seq<bool>, fields0: bytes, ghost written0: seq<Field>)
    returns (present: seq<bool>, fields: bytes)
    requires RadioValid(r) && present0 == MaskOf(written0) && fields0 == Join(written0)
    ensures present == MaskOf(written0 + SignalField(r) + NoiseField(r) + AntennaField(r) + McsField(r))
    ensures fields == Join(written0 + SignalField(r) + NoiseField(r) + AntennaField(r) + McsField(r))
  {
    hide Join, MaskOf, McsField, RadioValid;
    ghost var written;
    RadioBytesFit(r);
    AddField(written0, Field(5, [PutI8(r.rssi)]));
    present, fields, written := present0[5 := true], fields0 + [PutI8(r.rssi)], written0 + SignalField(r);
    if r.noiseFloor.Some? {
      AddField(written, Field(6, [PutI8(r.noiseFloor.value)]));
      present, fields, written := present[6 := true], fields + [PutI8(r.noiseFloor.value)], written + NoiseField(r);
    }
    assert written == written0 + SignalField(r) + NoiseField(r);
    if r.antenna.Some? {
      AddField(written, Field(11, [r.antenna.value]));
      present, fields, written := present[11 := true], fields + [r.antenna.value], written + AntennaField(r);
    }
    assert written == written0 + SignalField(r) + NoiseField(r) + AntennaField(r);
    present, fields := AddMcsField(r, present, fields, written);
  }

  lemma RadioBytesFit(r: Radio)
    requires RadioValid(r)
    ensures IsI8(r.rssi) && (r.noiseFloor.Some? ==> IsI8(r.noiseFloor.value))
    ensures r.antenna.Some? ==> 0 <= r.antenna.value < 256
  {
  }

  /** The three bytes of the HT MCS field: what is known, its flags, and the index. */
  method McsBytes(r: Radio) returns (known: seq<bool>, flags: seq<bool>, index: byte)
    ensures known == McsKnownBits(r) && flags == McsFlagBits(r) && index == McsIndex(r)
  {
    known, flags, index := seq(8, _ => false), seq(8, _ => false), 0;
    if r.bandwidthMhz.Some? && r.bandwidthMhz.value in {20, 40} {
      known, flags := known[0 := true], flags[0 := r.bandwidthMhz.value == 40];
    }
    if r.mcs.Some? && 0 <= r.mcs.value <= 76 {
      known, index := known[1 := true], r.mcs.value;
    }
    if r.shortGi.Some? {
      known, flags := known[2 := true], flags[2 := r.shortGi.value];
    }
    if r.ldpc.Some? {
      known, flags := known[4 := true], flags[4 := r.ldpc.value];
    }
    if r.stbc.Some? && !r.stbc.value {
      known := known[5 := true];
    }
  }

  /** The HT MCS field of `_radiotap`. */
  method AddMcsField(r: Radio, present0: seq<bool>, fields0: bytes, ghost written0: seq<Field>)
    returns (present: seq<bool>, fields: bytes)
    requires present0 == MaskOf(written0) && fields0 == Join(written0)
    ensures present == MaskOf(written0 + McsField(r)) && fields == Join(written0 + McsField(r))
  {
    hide Join, MaskOf, ByteOf;
    ghost var written := written0;
    present, fields := present0, fields0;
    if r.phy == Ht {
      var known, flags, index := McsBytes(r);
      if exists i :: 0 <= i < 8 && known[i] {
        assert AnyMcs(r);
        var data: bytes := [ByteOf(known), ByteOf(flags), index];
        AddField(written, Field(19, data));
        present, fields, written := present[19 := true], fields + data, written + [Field(19, data)];
      } else {
        assert !known[0] && !known[1] && !known[2] && !known[4] && !known[5];
        assert !AnyMcs(r);
      }
    }
    assert written == written0 + McsField(r);
  }
}
