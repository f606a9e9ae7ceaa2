/** The CSI section of a metadata record: dimensions at offsets 68..87 and up to
    three 40-byte segment slots at offsets 128..248 (scripts/capture/rx.py `_layout`). */
module CsiLayouts {
  import opened Wire

  // Slots are 40 bytes each and fill record bytes 128..248. The numbers are written out
  // below, so that products with them stay linear for the solver.

  datatype Encoding = UnknownEncoding | SignedInt8 | SignedInt12Le | SignedInt12Packed
  datatype Schema = UnknownSchema | LegacyLayout | HeLayout
  datatype SegmentType = UnknownSegment | Lltf | HtLtf | StbcHtLtf2 | VhtLtf | HeLtf1 | HeLtf2 | Mixed

  const ENCODINGS := [UnknownEncoding, SignedInt8, SignedInt12Le, SignedInt12Packed]
  const SCHEMAS := [UnknownSchema, LegacyLayout, HeLayout]
  const SEGMENTS := [UnknownSegment, Lltf, HtLtf, StbcHtLtf2, VhtLtf, HeLtf1, HeLtf2, Mixed]

  function EncodingCode(e: Encoding): byte {
    match e
    case UnknownEncoding => 0
    case SignedInt8 => 1
    case SignedInt12Le => 2
    case SignedInt12Packed => 3
  }

  function SchemaCode(s: Schema): byte {
    match s
    case UnknownSchema => 0
    case LegacyLayout => 1
    case HeLayout => 2
  }

  function SegmentCode(t: SegmentType): byte {
    match t
    case UnknownSegment => 0
    case Lltf => 1
    case HtLtf => 2
    case StbcHtLtf2 => 3
    case VhtLtf => 4
    case HeLtf1 => 5
    case HeLtf2 => 6
    case Mixed => 7
  }

  function SampleBits(e: Encoding): byte {
    match e
    case UnknownEncoding => 0
    case SignedInt8 => 8
    case SignedInt12Le => 12
    case SignedInt12Packed => 12
  }

  function BytesPerPair(e: Encoding): nat {
    match e
    case UnknownEncoding => 0
    case SignedInt8 => 2
    case SignedInt12Le => 4
    case SignedInt12Packed => 3
  }

  datatype CsiRange = CsiRange(start: int, end: int) {
    function Size(): int { end - start + 1 }
  }

  datatype CsiSegment = CsiSegment(kind: SegmentType, offsetBytes: nat, lengthBytes: nat, iqPairs: nat,
                                   ranges: seq<CsiRange>, nulls: seq<int>)

  /** `component_order` has one legal value and is not stored. */
  datatype CsiLayout = CsiLayout(schema: Schema, encoding: Encoding, sampleBits: Option<nat>, byteLength: nat,
                                 iqPairs: nat, padding: nat, known: bool, segments: seq<CsiSegment>)

  // ------------------------------------------------------- what a layout means

  /** The sizes of all ranges together. */
  function RangeTotal(ranges: seq<CsiRange>): int {
    if |ranges| == 0 then 0 else RangeTotal(ranges[..|ranges| - 1]) + ranges[|ranges| - 1].Size()
  }

  predicate Disjoint(a: CsiRange, b: CsiRange) {
    a.end < b.start || b.end < a.start
  }

  predicate Distinct<T(==)>(s: seq<T>) {
    forall i, j :: 0 <= i < j < |s| ==> s[i] != s[j]
  }

  predicate SegmentValid(seg: CsiSegment, encoding: Encoding, known: bool) {
    && IsU32(seg.offsetBytes) && IsU32(seg.lengthBytes) && IsU32(seg.iqPairs)
    && seg.lengthBytes > 0
    && (encoding != UnknownEncoding ==> seg.iqPairs * BytesPerPair(encoding) == seg.lengthBytes)
    && |seg.ranges| <= 2
    && (forall r :: r in seg.ranges ==> IsI16(r.start) && IsI16(r.end) && r.start <= r.end)
    && (|seg.ranges| == 2 ==> Disjoint(seg.ranges[0], seg.ranges[1]))
    && (known ==> seg.kind != UnknownSegment && RangeTotal(seg.ranges) == seg.iqPairs)
    && |seg.nulls| <= 3
    && (forall n :: n in seg.nulls ==> IsI16(n))
    && Distinct(seg.nulls)
  }

  function LengthTotal(segs: seq<CsiSegment>): nat {
    if segs == [] then 0 else LengthTotal(segs[..|segs| - 1]) + segs[|segs| - 1].lengthBytes
  }

  function PairTotal(segs: seq<CsiSegment>): nat {
    if segs == [] then 0 else PairTotal(segs[..|segs| - 1]) + segs[|segs| - 1].iqPairs
  }

  /** Each segment is valid and starts where the ones before it end. */
  predicate SegmentsValid(segs: seq<CsiSegment>, encoding: Encoding, known: bool) {
    segs == [] ||
    var init, last := segs[..|segs| - 1], segs[|segs| - 1];
    && SegmentsValid(init, encoding, known)
    && SegmentValid(last, encoding, known)
    && last.offsetBytes == LengthTotal(init)
  }

  predicate LayoutValid(l: CsiLayout, firstWordInvalid: bool, dataValid: bool) {
    && IsU32(l.byteLength) && IsU32(l.iqPairs)
    && l.sampleBits == (if l.encoding == UnknownEncoding then None else Some(SampleBits(l.encoding) as nat))
    && l.padding <= 3 && |l.segments| <= 3
    && (l.known ==> l.encoding != UnknownEncoding && l.schema != UnknownSchema)
    && SegmentsValid(l.segments, l.encoding, l.known)
    && l.byteLength == LengthTotal(l.segments) + l.padding
    && l.iqPairs == PairTotal(l.segments)
    && if l.byteLength == 0
       then !firstWordInvalid && !dataValid && l == CsiLayout(UnknownSchema, UnknownEncoding, None, 0, 0, 0, false, [])
       else l.segments != []
  }

  // ------------------------------------------------------------ how it is written

  function RangeBytes(rs: seq<CsiRange>): (s: bytes)
    requires |rs| <= 2 && forall r :: r in rs ==> IsI16(r.start) && IsI16(r.end)
    ensures |s| == 8
  {
    if |rs| == 0 then Zeros(8)
    else if |rs| == 1 then PutI16(rs[0].start) + (PutI16(rs[0].end) + Zeros(4))
    else PutI16(rs[0].start) + (PutI16(rs[0].end) + (PutI16(rs[1].start) + PutI16(rs[1].end)))
  }

  function NullBytes(ns: seq<int>): (s: bytes)
    requires |ns| <= 3 && forall n :: n in ns ==> IsI16(n)
    ensures |s| == 6
  {
    if |ns| == 0 then Zeros(6)
    else if |ns| == 1 then PutI16(ns[0]) + Zeros(4)
    else if |ns| == 2 then PutI16(ns[0]) + (PutI16(ns[1]) + Zeros(2))
    else PutI16(ns[0]) + (PutI16(ns[1]) + PutI16(ns[2]))
  }

  function SegmentHead(seg: CsiSegment): (s: bytes)
    requires |seg.ranges| <= 2 && |seg.nulls| <= 3
    ensures |s| == 4
  {
    [SegmentCode(seg.kind), |seg.ranges|, |seg.nulls|, 0]
  }

  predicate SegmentFits(seg: CsiSegment) {
    && IsU32(seg.offsetBytes) && IsU32(seg.lengthBytes) && IsU32(seg.iqPairs)
    && |seg.ranges| <= 2 && (forall r :: r in seg.ranges ==> IsI16(r.start) && IsI16(r.end))
    && |seg.nulls| <= 3 && (forall n :: n in seg.nulls ==> IsI16(n))
  }

  function SegmentBytes(seg: CsiSegment): (s: bytes)
    requires SegmentFits(seg)
    ensures |s| == 40
  {
    SegmentHead(seg)
    + (Put32(seg.offsetBytes)
       + (Put32(seg.lengthBytes)
          + (Put32(seg.iqPairs) + (RangeBytes(seg.ranges) + (NullBytes(seg.nulls) + Zeros(10))))))
  }

  predicate AllFit(segs: seq<CsiSegment>) {
    forall seg :: seg in segs ==> SegmentFits(seg)
  }

  function SegmentsBytes(segs: seq<CsiSegment>): (s: bytes)
    requires AllFit(segs)
    ensures |s| == 40 * |segs|
  {
    if segs == [] then [] else SegmentsBytes(segs[..|segs| - 1]) + SegmentBytes(segs[|segs| - 1])
  }

  predicate LayoutFits(l: CsiLayout) {
    && IsU32(l.byteLength) && IsU32(l.iqPairs) && l.padding <= 3 && |l.segments| <= 3
    && AllFit(l.segments)
  }

  function CsiFlags(l: CsiLayout, firstWordInvalid: bool, dataValid: bool): (bs: seq<bool>)
    ensures |bs| == 32
  {
    [firstWordInvalid, dataValid, l.known] + seq(29, _ => false)
  }

  function SampleBytes(l: CsiLayout): (s: bytes)
    ensures |s| == 4
  {
    [EncodingCode(l.encoding), SampleBits(l.encoding), SchemaCode(l.schema), 0]
  }

  /** Record bytes 68..87. */
  function DimensionBytes(l: CsiLayout, firstWordInvalid: bool, dataValid: bool): (s: bytes)
    requires LayoutFits(l)
    ensures |s| == 19
  {
    PutFlags32(CsiFlags(l, firstWordInvalid, dataValid))
    + (SampleBytes(l) + (Put32(l.byteLength) + (Put32(l.iqPairs) + (Put16(l.padding) + [|l.segments|]))))
  }

  /** Record bytes 128..248: the used slots, then zeros. */
  function SlotBytes(l: CsiLayout): (s: bytes)
    requires LayoutFits(l)
    ensures |s| == 120
  {
    SegmentsBytes(l.segments) + Zeros(120 - 40 * |l.segments|)
  }

  // ------------------------------------------------------------- how it is read

  function ReadRanges(seg: bytes, count: nat): (rs: seq<CsiRange>)
    requires |seg| == 40 && count <= 2
    ensures |rs| == count
  {
    seq(count, i requires 0 <= i < count => CsiRange(I16(seg, 16 + 4 * i), I16(seg, 18 + 4 * i)))
  }

  function ReadNulls(seg: bytes, count: nat): (ns: seq<int>)
    requires |seg| == 40 && count <= 3
    ensures |ns| == count
  {
    seq(count, i requires 0 <= i < count => I16(seg, 24 + 2 * i))
  }

  /** One slot, given what the slots before it add up to. */
  function ReadSegment(seg: bytes, offset: nat, length: nat, encoding: Encoding, known: bool): Result<CsiSegment>
    requires |seg| == 40
  {
    var typ, rangeCount, nullCount := seg[0], seg[1], seg[2];
    :- Require(typ as int < |SEGMENTS|);
    :- Require(rangeCount <= 2 && nullCount <= 3);
    :- Require(AllZero(seg[3..4]) && AllZero(seg[30..40]));
    var start, size, pairs := U32(seg, 4), U32(seg, 8), U32(seg, 12);
    :- Require(start == offset);
    :- Require(size > 0);
    :- Require(offset + size <= U32_MAX);
    :- Require(offset + size <= length);
    :- Require(encoding == UnknownEncoding || pairs * BytesPerPair(encoding) == size);
    var ranges := ReadRanges(seg, rangeCount);
    :- Require(forall r :: r in ranges ==> r.start <= r.end);
    :- Require(|ranges| == 2 ==> Disjoint(ranges[0], ranges[1]));
    :- Require(!known || (typ != 0 && RangeTotal(ranges) == pairs));
    var nulls := ReadNulls(seg, nullCount);
    :- Require(Distinct(nulls));
    :- Require(AllZero(seg[16 + rangeCount as int * 4..24]));
    :- Require(AllZero(seg[24 + nullCount as int * 2..30]));
    Ok(CsiSegment(SEGMENTS[typ], start, size, pairs, ranges, nulls))
  }

  datatype Scan = Scan(offset: nat, pairs: nat, segments: seq<CsiSegment>)

  function Slot(record: bytes, index: nat): (s: bytes)
    requires |record| == 256 && index < 3
    ensures |s| == 40
  {
    record[128 + index * 40..128 + (index + 1) * 40]
  }

  /** The loop state of `_layout` after its first `n` slots. */
  function ScanTo(record: bytes, n: nat, length: nat, encoding: Encoding, known: bool): Result<Scan>
    requires |record| == 256 && n <= 3
  {
    if n == 0 then Ok(Scan(0, 0, []))
    else
      var before :- ScanTo(record, n - 1, length, encoding, known);
      var seg :- ReadSegment(Slot(record, n - 1), before.offset, length, encoding, known);
      :- Require(before.pairs + seg.iqPairs <= U32_MAX);
      Ok(Scan(before.offset + seg.lengthBytes, before.pairs + seg.iqPairs, before.segments + [seg]))
  }

  datatype Dimensions = Dimensions(encoding: Encoding, schema: Schema, length: nat, iq: nat, padding: nat,
                                   count: nat, known: bool)

  /** The checks of `_layout` before its loop. */
  function ReadDimensions(record: bytes): (r: Result<Dimensions>)
    requires |record| == 256
    ensures r.Ok? ==> r.value.count <= 3 && r.value.padding <= 3 && IsU32(r.value.length) && IsU32(r.value.iq)
  {
    var flags := Flags32(record, 68);
    :- Require(forall i :: 3 <= i < 32 ==> !flags[i]);
    var encoding, bits, schema, order := record[72], record[73], record[74], record[75];
    :- Require(encoding as int < |ENCODINGS|);
    :- Require(schema as int < |SCHEMAS| && order == 0);
    :- Require(bits == SampleBits(ENCODINGS[encoding]));
    var length, iq, padding, count := U32(record, 76), U32(record, 80), U16(record, 84), record[86];
    :- Require(count <= 3 && padding <= 3);
    :- Require(if length == 0 then AllZero(record[68..87]) else count > 0);
    var known := flags[2];
    :- Require(!known || (encoding != 0 && schema != 0));
    Ok(Dimensions(ENCODINGS[encoding], SCHEMAS[schema], length, iq, padding, count, known))
  }

  function LayoutOf(d: Dimensions, segments: seq<CsiSegment>): CsiLayout {
    CsiLayout(d.schema, d.encoding, if d.encoding == UnknownEncoding then None else Some(SampleBits(d.encoding) as nat),
              d.length, d.iq, d.padding, d.known, segments)
  }

  /** The checks of `_layout` after its loop. */
  function FinishLayout(record: bytes, d: Dimensions, scan: Scan): Result<CsiLayout>
    requires |record| == 256 && d.count <= 3
  {
    if !AllZero(record[128 + d.count * 40..248]) then Err
    else
      :- Require(scan.offset + d.padding <= U32_MAX);
      :- Require(scan.offset + d.padding == d.length && scan.pairs == d.iq);
      Ok(LayoutOf(d, scan.segments))
  }

  function ReadLayout(record: bytes): Result<CsiLayout>
    requires |record| == 256
  {
    var d :- ReadDimensions(record);
    var scan :- ScanTo(record, d.count, d.length, d.encoding, d.known);
    FinishLayout(record, d, scan)
  }
}
