/** Reading a CSI layout is the exact inverse of writing a valid one. */
module CsiLayoutProofs {
  import opened Wire
  import opened CsiLayouts

  lemma ZeroSlice(s: bytes, o: nat, e: nat)
    requires o <= e <= |s|
    ensures s[o..e] == Zeros(e - o) <==> AllZero(s[o..e])
  {
    AllZeroIsZeros(s[o..e]);
  }

  predicate RangesFit(rs: seq<CsiRange>) {
    |rs| <= 2 && forall r :: r in rs ==> IsI16(r.start) && IsI16(r.end)
  }

  predicate NullsFit(ns: seq<int>) {
    |ns| <= 3 && forall n :: n in ns ==> IsI16(n)
  }

  lemma OneRange(seg: bytes, r: CsiRange)
    requires |seg| == 40 && IsI16(r.start) && IsI16(r.end)
    ensures seg[16..24] == PutI16(r.start) + (PutI16(r.end) + Zeros(4))
            <==> I16(seg, 16) == r.start && I16(seg, 18) == r.end && AllZero(seg[20..24])
  {
    hide PutI16, I16;
    SliceSplit(seg, 16, 24, PutI16(r.start), PutI16(r.end) + Zeros(4));
    SliceSplit(seg, 18, 24, PutI16(r.end), Zeros(4));
    Word16Signed(seg, 16, r.start);
    Word16Signed(seg, 18, r.end);
    ZeroSlice(seg, 20, 24);
  }

  lemma TwoRanges(seg: bytes, r: CsiRange, q: CsiRange)
    requires |seg| == 40 && IsI16(r.start) && IsI16(r.end) && IsI16(q.start) && IsI16(q.end)
    ensures seg[16..24] == PutI16(r.start) + (PutI16(r.end) + (PutI16(q.start) + PutI16(q.end)))
            <==> I16(seg, 16) == r.start && I16(seg, 18) == r.end && I16(seg, 20) == q.start && I16(seg, 22) == q.end
  {
    hide PutI16, I16;
    SliceSplit(seg, 16, 24, PutI16(r.start), PutI16(r.end) + (PutI16(q.start) + PutI16(q.end)));
    SliceSplit(seg, 18, 24, PutI16(r.end), PutI16(q.start) + PutI16(q.end));
    SliceSplit(seg, 20, 24, PutI16(q.start), PutI16(q.end));
    Word16Signed(seg, 16, r.start);
    Word16Signed(seg, 18, r.end);
    Word16Signed(seg, 20, q.start);
    Word16Signed(seg, 22, q.end);
  }

  lemma RangesRead(seg: bytes, rs: seq<CsiRange>)
    requires |seg| == 40 && RangesFit(rs)
    ensures seg[16..24] == RangeBytes(rs) <==> ReadRanges(seg, |rs|) == rs && AllZero(seg[16 + 4 * |rs|..24])
  {
    hide PutI16, I16, AllZero, Zeros;
    if |rs| == 0 {
      ZeroSlice(seg, 16, 24);
    } else if |rs| == 1 {
      OneRange(seg, rs[0]);
    } else {
      TwoRanges(seg, rs[0], rs[1]);
      NothingLeft(seg, 24);
    }
  }

  lemma NothingLeft(seg: bytes, o: nat)
    requires o <= |seg|
    ensures AllZero(seg[o..o])
  {
  }

  lemma OneNull(seg: bytes, n: int)
    requires |seg| == 40 && IsI16(n)
    ensures seg[24..30] == PutI16(n) + Zeros(4) <==> I16(seg, 24) == n && AllZero(seg[26..30])
  {
    hide PutI16, I16;
    Word16Signed(seg, 24, n);
    SliceSplit(seg, 24, 30, PutI16(n), Zeros(4));
    ZeroSlice(seg, 26, 30);
  }

  lemma TwoNulls(seg: bytes, n: int, o: int)
    requires |seg| == 40 && IsI16(n) && IsI16(o)
    ensures seg[24..30] == PutI16(n) + (PutI16(o) + Zeros(2)) <==> I16(seg, 24) == n && I16(seg, 26) == o && AllZero(seg[28..30])
  {
    hide PutI16, I16;
    Word16Signed(seg, 24, n);
    Word16Signed(seg, 26, o);
    SliceSplit(seg, 24, 30, PutI16(n), PutI16(o) + Zeros(2));
    SliceSplit(seg, 26, 30, PutI16(o), Zeros(2));
    ZeroSlice(seg, 28, 30);
  }

  lemma ThreeNulls(seg: bytes, n: int, o: int, p: int)
    requires |seg| == 40 && IsI16(n) && IsI16(o) && IsI16(p)
    ensures seg[24..30] == PutI16(n) + (PutI16(o) + PutI16(p)) <==> I16(seg, 24) == n && I16(seg, 26) == o && I16(seg, 28) == p
  {
    hide PutI16, I16;
    Word16Signed(seg, 24, n);
    Word16Signed(seg, 26, o);
    Word16Signed(seg, 28, p);
    SliceSplit(seg, 24, 30, PutI16(n), PutI16(o) + PutI16(p));
    SliceSplit(seg, 26, 30, PutI16(o), PutI16(p));
  }

  lemma NullsRead(seg: bytes, ns: seq<int>)
    requires |seg| == 40 && NullsFit(ns)
    ensures seg[24..30] == NullBytes(ns) <==> ReadNulls(seg, |ns|) == ns && AllZero(seg[24 + 2 * |ns|..30])
  {
    hide PutI16, I16, AllZero, Zeros;
    if |ns| == 0 {
      ZeroSlice(seg, 24, 30);
    } else if |ns| == 1 {
      OneNull(seg, ns[0]);
    } else if |ns| == 2 {
      TwoNulls(seg, ns[0], ns[1]);
    } else {
      ThreeNulls(seg, ns[0], ns[1], ns[2]);
      NothingLeft(seg, 30);
    }
  }

  /** Field by field, what it takes for a slot to hold a segment. */
  lemma SegmentSlices(seg: bytes, v: CsiSegment)
    requires |seg| == 40 && SegmentFits(v)
    ensures seg == SegmentBytes(v) <==>
            && seg[0..4] == SegmentHead(v)
            && U32(seg, 4) == v.offsetBytes && U32(seg, 8) == v.lengthBytes && U32(seg, 12) == v.iqPairs
            && seg[16..24] == RangeBytes(v.ranges) && seg[24..30] == NullBytes(v.nulls)
            && AllZero(seg[30..40])
  {
    var tail := NullBytes(v.nulls) + Zeros(10);
    assert seg == seg[0..40];
    SliceSplit(seg, 0, 40, SegmentHead(v),
               Put32(v.offsetBytes) + (Put32(v.lengthBytes) + (Put32(v.iqPairs) + (RangeBytes(v.ranges) + tail))));
    SliceSplit(seg, 4, 40, Put32(v.offsetBytes), Put32(v.lengthBytes) + (Put32(v.iqPairs) + (RangeBytes(v.ranges) + tail)));
    SliceSplit(seg, 8, 40, Put32(v.lengthBytes), Put32(v.iqPairs) + (RangeBytes(v.ranges) + tail));
    SliceSplit(seg, 12, 40, Put32(v.iqPairs), RangeBytes(v.ranges) + tail);
    SliceSplit(seg, 16, 40, RangeBytes(v.ranges), tail);
    SliceSplit(seg, 24, 40, NullBytes(v.nulls), Zeros(10));
    Word32(seg, 4, v.offsetBytes);
    Word32(seg, 8, v.lengthBytes);
    Word32(seg, 12, v.iqPairs);
    ZeroSlice(seg, 30, 40);
  }

  lemma HeadRead(seg: bytes, v: CsiSegment)
    requires |seg| == 40 && |v.ranges| <= 2 && |v.nulls| <= 3
    ensures seg[0..4] == SegmentHead(v) <==>
            seg[0] == SegmentCode(v.kind) && seg[1] as int == |v.ranges| && seg[2] as int == |v.nulls| && seg[3] == 0
  {
    var h := seg[0..4];
    assert h[0] == seg[0] && h[1] == seg[1] && h[2] == seg[2] && h[3] == seg[3];
  }

  lemma SegmentTypeCode(t: SegmentType, c: byte)
    ensures SegmentCode(t) == c <==> c as int < |SEGMENTS| && SEGMENTS[c] == t
  {
  }

  lemma EncodingCodes(e: Encoding, c: byte)
    ensures EncodingCode(e) == c <==> c as int < |ENCODINGS| && ENCODINGS[c] == e
  {
  }

  lemma SchemaCodes(s: Schema, c: byte)
    ensures SchemaCode(s) == c <==> c as int < |SCHEMAS| && SCHEMAS[c] == s
  {
  }

  lemma SegmentSound(seg: bytes, offset: nat, length: nat, encoding: Encoding, known: bool, v: CsiSegment)
    requires |seg| == 40
    requires ReadSegment(seg, offset, length, encoding, known) == Ok(v)
    ensures SegmentValid(v, encoding, known) && v.offsetBytes == offset
    ensures offset + v.lengthBytes <= length && seg == SegmentBytes(v)
  {
    hide SegmentCode, SegmentBytes, RangeBytes, NullBytes, U32;
    SegmentTypeCode(v.kind, seg[0]);
    SegmentTypeCode(UnknownSegment, seg[0]);
    assert SegmentCode(UnknownSegment) == 0 by { SegmentTypeCode(UnknownSegment, 0); }
    HeadRead(seg, v);
    RangesRead(seg, v.ranges);
    NullsRead(seg, v.nulls);
    SegmentSlices(seg, v);
    assert seg[3..4][0] == seg[3];
  }

  lemma SegmentComplete(seg: bytes, offset: nat, length: nat, encoding: Encoding, known: bool, v: CsiSegment)
    requires |seg| == 40 && offset <= U32_MAX && IsU32(length)
    requires SegmentValid(v, encoding, known) && v.offsetBytes == offset
    requires offset + v.lengthBytes <= length && seg == SegmentBytes(v)
    ensures ReadSegment(seg, offset, length, encoding, known) == Ok(v)
  {
    hide SegmentCode, SegmentBytes, RangeBytes, NullBytes, U32;
    SegmentTypeCode(v.kind, seg[0]);
    SegmentTypeCode(UnknownSegment, seg[0]);
    assert SegmentCode(UnknownSegment) == 0 by { SegmentTypeCode(UnknownSegment, 0); }
    HeadRead(seg, v);
    RangesRead(seg, v.ranges);
    NullsRead(seg, v.nulls);
    SegmentSlices(seg, v);
    assert seg[3..4] == [seg[3]];
  }

  lemma AllFitAppend(before: seq<CsiSegment>, last: CsiSegment)
    ensures AllFit(before + [last]) <==> AllFit(before) && SegmentFits(last)
  {
    hide SegmentFits;
    assert last in before + [last];
    assert forall seg :: seg in before ==> seg in before + [last];
  }

  lemma SegmentsUnfold(before: seq<CsiSegment>, last: CsiSegment)
    requires AllFit(before + [last]) && AllFit(before) && SegmentFits(last)
    ensures SegmentsBytes(before + [last]) == SegmentsBytes(before) + SegmentBytes(last)
  {
    hide SegmentBytes, SegmentFits;
    assert (before + [last])[..|before|] == before;
  }

  lemma SlotSplit(record: bytes, n: nat, whole: bytes, a: bytes, b: bytes)
    requires |record| == 256 && 0 < n <= 3 && |a| == 40 * (n - 1) && |b| == 40 && whole == a + b
    ensures record[128..128 + n * 40] == whole <==> record[128..128 + (n - 1) * 40] == a && Slot(record, n - 1) == b
  {
    SliceSplit(record, 128, 128 + n * 40, a, b);
  }

  lemma SlotExtends(record: bytes, n: nat, before: seq<CsiSegment>, last: CsiSegment)
    requires |record| == 256 && 0 < n <= 3 && |before| == n - 1
    requires AllFit(before + [last]) && AllFit(before) && SegmentFits(last)
    ensures record[128..128 + n * 40] == SegmentsBytes(before + [last])
            <==> record[128..128 + (n - 1) * 40] == SegmentsBytes(before) && Slot(record, n - 1) == SegmentBytes(last)
  {
    hide SegmentBytes, SegmentFits, SegmentsBytes, AllFit, Slot;
    SegmentsUnfold(before, last);
    SlotSplit(record, n, SegmentsBytes(before + [last]), SegmentsBytes(before), SegmentBytes(last));
  }

  /** The slots read so far are the bytes of the segments collected so far. */
  predicate Scanned(record: bytes, n: nat, length: nat, encoding: Encoding, known: bool, s: Scan)
    requires |record| == 256 && n <= 3
  {
    && |s.segments| == n
    && SegmentsValid(s.segments, encoding, known)
    && AllFit(s.segments)
    && s.offset == LengthTotal(s.segments) <= length
    && s.pairs == PairTotal(s.segments) <= U32_MAX
    && record[128..128 + n * 40] == SegmentsBytes(s.segments)
  }

  lemma ValidFits(seg: CsiSegment, encoding: Encoding, known: bool)
    requires SegmentValid(seg, encoding, known)
    ensures SegmentFits(seg)
  {
  }

  /** Reading one more slot and collecting one more segment are the same step. */
  lemma ScanStep(record: bytes, n: nat, length: nat, encoding: Encoding, known: bool, before: Scan, seg: CsiSegment)
    requires |record| == 256 && 0 < n <= 3 && |before.segments| == n - 1 && SegmentFits(seg)
    ensures Scanned(record, n, length, encoding, known,
                    Scan(before.offset + seg.lengthBytes, before.pairs + seg.iqPairs, before.segments + [seg]))
            && before.offset == LengthTotal(before.segments) && before.pairs == PairTotal(before.segments)
            <==>
            && Scanned(record, n - 1, length, encoding, known, before)
            && SegmentValid(seg, encoding, known) && seg.offsetBytes == before.offset
            && before.offset + seg.lengthBytes <= length && before.pairs + seg.iqPairs <= U32_MAX
            && Slot(record, n - 1) == SegmentBytes(seg)
  {
    hide SegmentBytes, SegmentFits, SegmentValid, AllFit;
    var segs := before.segments + [seg];
    assert segs[..n - 1] == before.segments && segs[n - 1] == seg;
    AllFitAppend(before.segments, seg);
    if AllFit(before.segments) {
      SlotExtends(record, n, before.segments, seg);
    }
  }

  lemma {:induction false} ScanSound(record: bytes, n: nat, length: nat, encoding: Encoding, known: bool, s: Scan)
    requires |record| == 256 && n <= 3
    requires ScanTo(record, n, length, encoding, known) == Ok(s)
    ensures Scanned(record, n, length, encoding, known, s)
  {
    hide SegmentBytes, ReadSegment, SegmentValid, SegmentFits, AllFit, Slot, Scanned;
    if n == 0 {
      ScannedNone(record, length, encoding, known);
    } else {
      var b := ScanTo(record, n - 1, length, encoding, known).value;
      ScanSound(record, n - 1, length, encoding, known, b);
      var seg := ReadSegment(Slot(record, n - 1), b.offset, length, encoding, known).value;
      SegmentSound(Slot(record, n - 1), b.offset, length, encoding, known, seg);
      ValidFits(seg, encoding, known);
      ScannedSize(record, n - 1, length, encoding, known, b);
      ScanStep(record, n, length, encoding, known, b, seg);
    }
  }

  lemma ScannedNone(record: bytes, length: nat, encoding: Encoding, known: bool)
    requires |record| == 256
    ensures Scanned(record, 0, length, encoding, known, Scan(0, 0, []))
  {
  }

  lemma ScannedSize(record: bytes, n: nat, length: nat, encoding: Encoding, known: bool, s: Scan)
    requires |record| == 256 && n <= 3 && Scanned(record, n, length, encoding, known, s)
    ensures |s.segments| == n && AllFit(s.segments)
    ensures s.offset == LengthTotal(s.segments) <= length && s.pairs == PairTotal(s.segments)
  {
  }

  lemma ScannedInit(record: bytes, n: nat, length: nat, encoding: Encoding, known: bool, s: Scan) returns (b: Scan, seg: CsiSegment)
    requires |record| == 256 && 0 < n <= 3 && Scanned(record, n, length, encoding, known, s)
    ensures s == Scan(b.offset + seg.lengthBytes, b.pairs + seg.iqPairs, b.segments + [seg])
    ensures |b.segments| == n - 1 && SegmentFits(seg) && b.offset == LengthTotal(b.segments) && b.pairs == PairTotal(b.segments)
  {
    hide SegmentFits, SegmentsValid, SegmentsBytes;
    var before := s.segments[..n - 1];
    seg := s.segments[n - 1];
    assert s.segments == before + [seg];
    b := Scan(LengthTotal(before), PairTotal(before), before);
  }

  lemma {:induction false} ScanComplete(record: bytes, n: nat, length: nat, encoding: Encoding, known: bool, s: Scan)
    requires |record| == 256 && n <= 3 && IsU32(length)
    requires Scanned(record, n, length, encoding, known, s)
    ensures ScanTo(record, n, length, encoding, known) == Ok(s)
  {
    hide SegmentBytes, ReadSegment, SegmentValid, SegmentFits, Scanned, Slot, AllFit, LengthTotal, PairTotal;
    ScannedSize(record, n, length, encoding, known, s);
    if n != 0 {
      var b, seg := ScannedInit(record, n, length, encoding, known, s);
      ScanStep(record, n, length, encoding, known, b, seg);
      ScanComplete(record, n - 1, length, encoding, known, b);
      SegmentComplete(Slot(record, n - 1), b.offset, length, encoding, known, seg);
    } else {
      NoTotals(s);
    }
  }

  lemma NoTotals(s: Scan)
    requires s.segments == []
    ensures LengthTotal(s.segments) == 0 && PairTotal(s.segments) == 0
  {
  }

  /** Field by field, what it takes for record bytes 68..87 to hold the dimensions. */
  lemma DimensionSlices(record: bytes, l: CsiLayout, firstWordInvalid: bool, dataValid: bool)
    requires |record| == 256 && LayoutFits(l)
    ensures record[68..87] == DimensionBytes(l, firstWordInvalid, dataValid) <==>
            && Flags32(record, 68) == CsiFlags(l, firstWordInvalid, dataValid)
            && record[72] == EncodingCode(l.encoding) && record[73] == SampleBits(l.encoding)
            && record[74] == SchemaCode(l.schema) && record[75] == 0
            && U32(record, 76) == l.byteLength && U32(record, 80) == l.iqPairs
            && U16(record, 84) == l.padding && record[86] as int == |l.segments|
  {
    var flags := CsiFlags(l, firstWordInvalid, dataValid);
    var count: bytes := [|l.segments|];
    SliceSplit(record, 68, 87, PutFlags32(flags),
               SampleBytes(l) + (Put32(l.byteLength) + (Put32(l.iqPairs) + (Put16(l.padding) + count))));
    SliceSplit(record, 72, 87, SampleBytes(l), Put32(l.byteLength) + (Put32(l.iqPairs) + (Put16(l.padding) + count)));
    SliceSplit(record, 76, 87, Put32(l.byteLength), Put32(l.iqPairs) + (Put16(l.padding) + count));
    SliceSplit(record, 80, 87, Put32(l.iqPairs), Put16(l.padding) + count);
    SliceSplit(record, 84, 87, Put16(l.padding), count);
    FlagWord32(record, 68, flags);
    Word32(record, 76, l.byteLength);
    Word32(record, 80, l.iqPairs);
    Word16(record, 84, l.padding);
    var sample := record[72..76];
    assert sample[0] == record[72] && sample[1] == record[73] && sample[2] == record[74] && sample[3] == record[75];
    assert record[86..87][0] == record[86];
  }

  lemma FlagsRead(flags: seq<bool>, l: CsiLayout, firstWordInvalid: bool, dataValid: bool)
    requires |flags| == 32
    ensures flags == CsiFlags(l, firstWordInvalid, dataValid) <==>
            && flags[0] == firstWordInvalid && flags[1] == dataValid && flags[2] == l.known
            && forall i :: 3 <= i < 32 ==> !flags[i]
  {
  }

  lemma FlagsClear(flags: seq<bool>)
    requires |flags| == 32
    ensures flags == seq(32, _ => false)
            <==> !flags[0] && !flags[1] && !flags[2] && forall i :: 3 <= i < 32 ==> !flags[i]
  {
  }

  /** With no CSI bytes, every dimension byte is zero. */
  lemma EmptyDimensions(record: bytes)
    requires |record| == 256
    ensures AllZero(record[68..87]) <==>
            && Flags32(record, 68) == seq(32, _ => false)
            && record[72] == record[73] == record[74] == record[75] == record[86] == 0
            && U32(record, 76) == U32(record, 80) == U16(record, 84) == 0
  {
    var l := CsiLayout(UnknownSchema, UnknownEncoding, None, 0, 0, 0, false, []);
    DimensionSlices(record, l, false, false);
    assert CsiFlags(l, false, false) == seq(32, _ => false);
    var z := PutFlags32(CsiFlags(l, false, false));
    assert z == Zeros(4) by { ZeroBits(32); }
    assert DimensionBytes(l, false, false) == Zeros(19);
    ZeroSlice(record, 68, 87);
  }

  lemma {:induction false} ZeroBits(n: nat)
    ensures FromBits(seq(n, _ => false)) == 0
  {
    if n != 0 {
      ZeroBits(n - 1);
      assert seq(n, _ => false)[1..] == seq(n - 1, _ => false);
    }
  }

  lemma SlotSlices(record: bytes, l: CsiLayout)
    requires |record| == 256 && LayoutFits(l)
    ensures record[128..248] == SlotBytes(l) <==>
            && record[128..128 + |l.segments| * 40] == SegmentsBytes(l.segments)
            && AllZero(record[128 + |l.segments| * 40..248])
  {
    var used := 40 * |l.segments|;
    SliceSplit(record, 128, 248, SegmentsBytes(l.segments), Zeros(120 - used));
    ZeroSlice(record, 128 + used, 248);
  }

  predicate LayoutHeld(record: bytes, l: CsiLayout, firstWordInvalid: bool, dataValid: bool)
    requires |record| == 256
  {
    && LayoutValid(l, firstWordInvalid, dataValid) && LayoutFits(l)
    && record[68..87] == DimensionBytes(l, firstWordInvalid, dataValid)
    && record[128..248] == SlotBytes(l)
  }

  lemma DimensionCodes(record: bytes, encoding: Encoding, schema: Schema)
    requires |record| == 256
    ensures record[72] == EncodingCode(encoding)
            <==> record[72] as int < |ENCODINGS| && ENCODINGS[record[72]] == encoding
    ensures record[74] == SchemaCode(schema) <==> record[74] as int < |SCHEMAS| && SCHEMAS[record[74]] == schema
    ensures record[72] == EncodingCode(encoding) ==> (encoding == UnknownEncoding <==> record[72] == 0)
    ensures record[74] == SchemaCode(schema) ==> (schema == UnknownSchema <==> record[74] == 0)
  {
    EncodingCodes(encoding, record[72]);
    SchemaCodes(schema, record[74]);
  }

  /** What the dimension bytes of an accepted layout are. */
  lemma DimensionsSound(record: bytes, d: Dimensions, l: CsiLayout)
    requires |record| == 256 && ReadDimensions(record) == Ok(d)
    requires LayoutFits(l) && |l.segments| == d.count && l == LayoutOf(d, l.segments)
    ensures record[68..87] == DimensionBytes(l, Flags32(record, 68)[0], Flags32(record, 68)[1])
    ensures d.length == 0 ==> d == Dimensions(UnknownEncoding, UnknownSchema, 0, 0, 0, 0, false)
                              && !Flags32(record, 68)[0] && !Flags32(record, 68)[1]
    ensures d.length != 0 ==> d.count > 0
    ensures d.known ==> d.encoding != UnknownEncoding && d.schema != UnknownSchema
    ensures d.padding <= 3
  {
    hide DimensionBytes, Flags32, U32, U16, EncodingCode, SchemaCode, SampleBits, AllFit, SegmentsBytes, CsiFlags;
    var flags := Flags32(record, 68);
    DimensionCodes(record, d.encoding, d.schema);
    FlagsRead(flags, l, flags[0], flags[1]);
    DimensionSlices(record, l, flags[0], flags[1]);
    if d.length == 0 {
      FlagsClear(flags);
      EmptyDimensions(record);
      DimensionCodes(record, UnknownEncoding, UnknownSchema);
    }
  }

  lemma LayoutSound(record: bytes, l: CsiLayout)
    requires |record| == 256 && ReadLayout(record) == Ok(l)
    ensures LayoutHeld(record, l, Flags32(record, 68)[0], Flags32(record, 68)[1])
  {
    hide DimensionBytes, SlotBytes, ScanTo, SegmentsBytes, ReadDimensions, Flags32, AllFit;
    var d := ReadDimensions(record).value;
    var s := ScanTo(record, d.count, d.length, d.encoding, d.known).value;
    ScanSound(record, d.count, d.length, d.encoding, d.known, s);
    DimensionsSound(record, d, l);
    SlotSlices(record, l);
  }

  lemma ReadEmpty(record: bytes)
    requires |record| == 256 && AllZero(record[68..87])
    ensures !Flags32(record, 68)[0] && !Flags32(record, 68)[1]
    ensures ReadDimensions(record) == Ok(Dimensions(UnknownEncoding, UnknownSchema, 0, 0, 0, 0, false))
  {
    hide Flags32, U32, U16, EncodingCode, SchemaCode, SampleBits;
    EmptyDimensions(record);
    FlagsClear(Flags32(record, 68));
    DimensionCodes(record, UnknownEncoding, UnknownSchema);
    EmptySample();
  }

  lemma EmptyHeld(record: bytes, l: CsiLayout)
    requires |record| == 256 && l == CsiLayout(UnknownSchema, UnknownEncoding, None, 0, 0, 0, false, [])
    ensures LayoutFits(l)
    ensures record[68..87] == DimensionBytes(l, false, false) ==> AllZero(record[68..87])
  {
    hide Flags32, U32, U16, DimensionBytes;
    if record[68..87] == DimensionBytes(l, false, false) {
      DimensionSlices(record, l, false, false);
      FlagsRead(Flags32(record, 68), l, false, false);
      FlagsClear(Flags32(record, 68));
      EmptyDimensions(record);
    }
  }

  lemma ReadNonempty(record: bytes, l: CsiLayout, firstWordInvalid: bool, dataValid: bool)
    requires |record| == 256 && LayoutFits(l)
    requires record[68..87] == DimensionBytes(l, firstWordInvalid, dataValid)
    requires l.known ==> l.encoding != UnknownEncoding && l.schema != UnknownSchema
    requires l.byteLength != 0 && l.segments != []
    ensures Flags32(record, 68)[0] == firstWordInvalid && Flags32(record, 68)[1] == dataValid
    ensures ReadDimensions(record)
            == Ok(Dimensions(l.encoding, l.schema, l.byteLength, l.iqPairs, l.padding, |l.segments|, l.known))
  {
    hide DimensionBytes, AllFit, SampleBits, CsiFlags, Flags32, U32, U16, EncodingCode, SchemaCode;
    DimensionSlices(record, l, firstWordInvalid, dataValid);
    FlagsRead(Flags32(record, 68), l, firstWordInvalid, dataValid);
    DimensionCodes(record, l.encoding, l.schema);
  }

  lemma DimensionsComplete(record: bytes, l: CsiLayout, firstWordInvalid: bool, dataValid: bool)
    requires |record| == 256 && LayoutHeld(record, l, firstWordInvalid, dataValid)
    ensures Flags32(record, 68)[0] == firstWordInvalid && Flags32(record, 68)[1] == dataValid
    ensures ReadDimensions(record)
            == Ok(Dimensions(l.encoding, l.schema, l.byteLength, l.iqPairs, l.padding, |l.segments|, l.known))
  {
    hide ReadDimensions, DimensionBytes, SlotBytes, SegmentsValid, AllFit, Flags32, AllZero;
    if l.byteLength == 0 {
      EmptyHeld(record, l);
      ReadEmpty(record);
    } else {
      ReadNonempty(record, l, firstWordInvalid, dataValid);
    }
  }

  lemma EmptySample()
    ensures SampleBits(UnknownEncoding) == 0
  {
  }

  lemma LayoutComplete(record: bytes, l: CsiLayout, firstWordInvalid: bool, dataValid: bool)
    requires |record| == 256 && LayoutHeld(record, l, firstWordInvalid, dataValid)
    ensures ReadLayout(record) == Ok(l)
    ensures Flags32(record, 68)[0] == firstWordInvalid && Flags32(record, 68)[1] == dataValid
  {
    hide DimensionBytes, SlotBytes, ScanTo, SegmentsBytes, ReadDimensions, Flags32, LengthTotal, PairTotal, AllFit;
    DimensionsComplete(record, l, firstWordInvalid, dataValid);
    SlotSlices(record, l);
    var s := Scan(LengthTotal(l.segments), PairTotal(l.segments), l.segments);
    ScanComplete(record, |l.segments|, l.byteLength, l.encoding, l.known, s);
  }
}
