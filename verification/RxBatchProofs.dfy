/** `ReadBatch` accepts exactly the encodings of valid batches: the decoder and the
    writer are inverse to each other. */
module RxBatchProofs {
  import opened Wire
  import opened CsiLayouts
  import opened CsiLayoutProofs
  import opened RxRecords
  import opened RxRecordReader
  import opened RxMetadataProofs
  import opened RxBatches

  // ------------------------------------------------------------------- header

  lemma HeaderSlices(view: bytes, kind: Kind, count: nat, total: nat)
    requires 32 <= |view| && count <= 128 && IsU32(total)
    ensures view[0..32] == HeaderBytes(kind, count, total) <==>
            && view[0..8] == Magic(kind) && U16(view, 8) == 1 && U16(view, 10) == 32 && U32(view, 12) == count
            && U16(view, 16) == RowSize(kind) && U16(view, 18) == 256 && U32(view, 20) == 1
            && U32(view, 24) == total && U32(view, 28) == 0
  {
    hide Put16, Put32, U16, U32, Magic;
    var tail := HeaderTail(kind, total);
    SliceSplit(view, 0, 32, Magic(kind), Put16(1) + (Put16(32) + (Put32(count) + tail)));
    SliceSplit(view, 8, 32, Put16(1), Put16(32) + (Put32(count) + tail));
    SliceSplit(view, 10, 32, Put16(32), Put32(count) + tail);
    SliceSplit(view, 12, 32, Put32(count), tail);
    Word16(view, 8, 1);
    Word16(view, 10, 32);
    Word32(view, 12, count);
    TailSlices(view, kind, total);
  }

  function HeaderTail(kind: Kind, total: nat): (s: bytes)
    requires IsU32(total)
    ensures |s| == 16
  {
    Put16(RowSize(kind)) + (Put16(256) + (Put32(1) + (Put32(total) + Put32(0))))
  }

  lemma TailSlices(view: bytes, kind: Kind, total: nat)
    requires 32 <= |view| && IsU32(total)
    ensures view[16..32] == HeaderTail(kind, total) <==>
            && U16(view, 16) == RowSize(kind) && U16(view, 18) == 256 && U32(view, 20) == 1
            && U32(view, 24) == total && U32(view, 28) == 0
  {
    hide Put16, Put32, U16, U32;
    var e := Put32(total) + Put32(0);
    SliceSplit(view, 16, 32, Put16(RowSize(kind)), Put16(256) + (Put32(1) + e));
    SliceSplit(view, 18, 32, Put16(256), Put32(1) + e);
    SliceSplit(view, 20, 32, Put32(1), e);
    SliceSplit(view, 24, 32, Put32(total), Put32(0));
    Word16(view, 16, RowSize(kind));
    Word16(view, 18, 256);
    Word32(view, 20, 1);
    Word32(view, 24, total);
    Word32(view, 28, 0);
  }

  lemma HeaderRead(view: bytes, kind: Kind, count: nat)
    ensures ReadHeader(view, kind) == Ok(count) <==>
            && 32 <= |view| <= U32_MAX && 1 <= count <= 128 && ControlEnd(kind, count) <= |view|
            && view[0..32] == HeaderBytes(kind, count, |view|)
  {
    hide U16, U32, Magic, HeaderBytes;
    if 32 <= |view| <= U32_MAX && count <= 128 {
      HeaderSlices(view, kind, count, |view|);
    }
  }

  // --------------------------------------------------------------------- rows

  lemma CsiRowSlices(row: bytes, metaOffset: nat, csiOffset: nat, packetOffset: nat, d: Directory)
    requires |row| == 40 && IsU32(metaOffset) && IsU32(csiOffset) && IsU32(packetOffset) && d.Fits()
    ensures row == CsiRow(metaOffset, csiOffset, packetOffset, d) <==>
            && U32(row, 0) == metaOffset && U32(row, 4) == csiOffset && U32(row, 8) == d.csiLength
            && U32(row, 12) == packetOffset && U32(row, 16) == d.captured && U16(row, 20) == d.headerPrefix
            && Flags16(row, 22) == d.flags && U32(row, 24) == d.payloadReport && U32(row, 28) == d.readable
            && U32(row, 32) == d.sequence && U32(row, 36) == 0
  {
    hide Put16, Put32, U16, U32, PutFlags16, Flags16;
    assert row == row[0..40];
    var tail := RowTail(d);
    var e := Put32(d.csiLength) + (Put32(packetOffset) + (Put32(d.captured) + tail));
    SliceSplit(row, 0, 40, Put32(metaOffset), Put32(csiOffset) + e);
    SliceSplit(row, 4, 40, Put32(csiOffset), e);
    SliceSplit(row, 8, 40, Put32(d.csiLength), Put32(packetOffset) + (Put32(d.captured) + tail));
    SliceSplit(row, 12, 40, Put32(packetOffset), Put32(d.captured) + tail);
    SliceSplit(row, 16, 40, Put32(d.captured), tail);
    Word32(row, 0, metaOffset);
    Word32(row, 4, csiOffset);
    Word32(row, 8, d.csiLength);
    Word32(row, 12, packetOffset);
    Word32(row, 16, d.captured);
    RowTailSlices(row, d);
  }

  /** The second half of a CSI row. */
  function RowTail(d: Directory): (s: bytes)
    requires d.Fits()
    ensures |s| == 20
  {
    Put16(d.headerPrefix)
    + (PutFlags16(d.flags) + (Put32(d.payloadReport) + (Put32(d.readable) + (Put32(d.sequence) + Put32(0)))))
  }

  lemma RowTailSlices(row: bytes, d: Directory)
    requires |row| == 40 && d.Fits()
    ensures row[20..40] == RowTail(d) <==>
            && U16(row, 20) == d.headerPrefix && Flags16(row, 22) == d.flags && U32(row, 24) == d.payloadReport
            && U32(row, 28) == d.readable && U32(row, 32) == d.sequence && U32(row, 36) == 0
  {
    hide Put16, Put32, U16, U32, PutFlags16, Flags16;
    var h := Put32(d.readable) + (Put32(d.sequence) + Put32(0));
    SliceSplit(row, 20, 40, Put16(d.headerPrefix), PutFlags16(d.flags) + (Put32(d.payloadReport) + h));
    SliceSplit(row, 22, 40, PutFlags16(d.flags), Put32(d.payloadReport) + h);
    SliceSplit(row, 24, 40, Put32(d.payloadReport), h);
    SliceSplit(row, 28, 40, Put32(d.readable), Put32(d.sequence) + Put32(0));
    SliceSplit(row, 32, 40, Put32(d.sequence), Put32(0));
    Word16(row, 20, d.headerPrefix);
    FlagWord16(row, 22, d.flags);
    Word32(row, 24, d.payloadReport);
    Word32(row, 28, d.readable);
    Word32(row, 32, d.sequence);
    Word32(row, 36, 0);
  }

  lemma MonitorRowSlices(row: bytes, metaOffset: nat, packetOffset: nat, d: Directory)
    requires |row| == 24 && IsU32(metaOffset) && IsU32(packetOffset) && d.Fits()
    ensures row == MonitorRow(metaOffset, packetOffset, d) <==>
            && U32(row, 0) == metaOffset && U32(row, 4) == packetOffset && U32(row, 8) == d.captured
            && U32(row, 12) == d.payloadReport && U32(row, 16) == d.readable && U16(row, 20) == d.headerPrefix
            && Flags16(row, 22) == d.flags
  {
    hide Put16, Put32, U16, U32, PutFlags16, Flags16;
    assert row == row[0..24];
    var g := Put16(d.headerPrefix) + PutFlags16(d.flags);
    var f := Put32(d.payloadReport) + (Put32(d.readable) + g);
    SliceSplit(row, 0, 24, Put32(metaOffset), Put32(packetOffset) + (Put32(d.captured) + f));
    SliceSplit(row, 4, 24, Put32(packetOffset), Put32(d.captured) + f);
    SliceSplit(row, 8, 24, Put32(d.captured), f);
    SliceSplit(row, 12, 24, Put32(d.payloadReport), Put32(d.readable) + g);
    SliceSplit(row, 16, 24, Put32(d.readable), g);
    SliceSplit(row, 20, 24, Put16(d.headerPrefix), PutFlags16(d.flags));
    Word32(row, 0, metaOffset);
    Word32(row, 4, packetOffset);
    Word32(row, 8, d.captured);
    Word32(row, 12, d.payloadReport);
    Word32(row, 16, d.readable);
    Word16(row, 20, d.headerPrefix);
    FlagWord16(row, 22, d.flags);
  }

  /** The row of a frame, as `ReadRow` gives it back. */
  function RowOf(kind: Kind, f: RxFrame, metaOffset: nat, cursor: nat): Row {
    var packetOffset := SpanOffset(cursor + |Padded(f.csi)|, |f.packet|);
    var d := Directory(if kind == Csi then |f.csi| else 0, |f.packet|, f.readable, f.headerPrefix,
                       RecordFlags(f.metadata.packet.capture), f.metadata.packet.driverPayload.GetOr(0),
                       f.metadata.identity.sequence);
    Row(metaOffset, if kind == Csi then SpanOffset(cursor, |f.csi|) else 0, packetOffset, 0, d)
  }

  lemma RowRead(row: bytes, kind: Kind, record: bytes, f: RxFrame, metaOffset: nat, cursor: nat)
    requires |row| == RowSize(kind) && |record| == 256 && RowFits(f, metaOffset, cursor)
    requires kind == Monitor ==> U32(record, 0) == f.metadata.identity.sequence
    ensures row == RowBytes(kind, f, metaOffset, cursor) <==> ReadRow(row, kind, record) == RowOf(kind, f, metaOffset, cursor)
  {
    hide U32, U16, Flags16, CsiRow, MonitorRow, RecordFlags;
    var r := RowOf(kind, f, metaOffset, cursor);
    if kind == Csi {
      CsiRowSlices(row, metaOffset, r.csiOffset, r.packetOffset, r.directory);
    } else {
      MonitorRowSlices(row, metaOffset, r.packetOffset, r.directory);
    }
  }

  // -------------------------------------------------------------------- spans

  lemma SpanSound(view: bytes, cursor: nat, offset: nat, s: Span)
    requires cursor <= |view| <= U32_MAX && cursor % 4 == 0
    requires ReadSpan(view, cursor, offset, |s.contents|) == Ok(s)
    ensures offset == SpanOffset(cursor, |s.contents|)
    ensures s.next == cursor + |Padded(s.contents)| <= |view| && view[cursor..s.next] == Padded(s.contents)
  {
    hide SpanOffset, Padding;
    var end := cursor + |s.contents|;
    SamePadding(cursor, |s.contents|);
    SliceSplit(view, cursor, s.next, s.contents, Zeros(Padding(|s.contents|)));
    ZeroSlice(view, end, s.next);
  }

  lemma SpanComplete(view: bytes, cursor: nat, offset: nat, s: Span)
    requires cursor <= |view| <= U32_MAX && cursor % 4 == 0
    requires offset == SpanOffset(cursor, |s.contents|)
    requires s.next == cursor + |Padded(s.contents)| <= |view| && view[cursor..s.next] == Padded(s.contents)
    ensures ReadSpan(view, cursor, offset, |s.contents|) == Ok(s)
  {
    hide SpanOffset, Padding;
    var end := cursor + |s.contents|;
    SamePadding(cursor, |s.contents|);
    SliceSplit(view, cursor, s.next, s.contents, Zeros(Padding(|s.contents|)));
    ZeroSlice(view, end, s.next);
  }

  lemma SamePadding(cursor: nat, n: nat)
    requires cursor % 4 == 0
    ensures Padding(cursor + n) == Padding(n)
  {
  }

  lemma PaddedPair(view: bytes, cursor: nat, f: RxFrame)
    requires cursor + |FramePayload(f)| <= |view|
    ensures view[cursor..cursor + |FramePayload(f)|] == FramePayload(f) <==>
            && view[cursor..cursor + |Padded(f.csi)|] == Padded(f.csi)
            && view[cursor + |Padded(f.csi)|..cursor + |FramePayload(f)|] == Padded(f.packet)
  {
    hide Padded;
    SliceSplit(view, cursor, cursor + |FramePayload(f)|, Padded(f.csi), Padded(f.packet));
  }

  lemma PayloadAligned(f: RxFrame, cursor: nat)
    requires cursor % 4 == 0
    ensures (cursor + |Padded(f.csi)|) % 4 == 0 && (cursor + |FramePayload(f)|) % 4 == 0
  {
    hide Padded;
    AlignedSum(cursor, |Padded(f.csi)|);
    AlignedSum(cursor + |Padded(f.csi)|, |Padded(f.packet)|);
  }

  lemma AlignedSum(a: nat, b: nat)
    requires a % 4 == 0 && b % 4 == 0
    ensures (a + b) % 4 == 0
  {
  }

  // -------------------------------------------------------------------- frames

  lemma {:induction false} FramesAligned(fs: seq<RxFrame>)
    ensures |PayloadBytes(fs)| % 4 == 0
  {
    hide FramePayload;
    if fs != [] {
      FramesAligned(fs[..|fs| - 1]);
      PayloadAligned(fs[|fs| - 1], |PayloadBytes(fs[..|fs| - 1])|);
    }
  }

  /** What one turn of the loop reads. */
  predicate FrameHeld(view: bytes, kind: Kind, count: nat, i: nat, cursor: nat, f: RxFrame)
    requires i < count && ControlEnd(kind, count) <= |view| <= U32_MAX && cursor <= |view|
  {
    && FrameValid(kind, f) && MetadataFits(f.metadata)
    && cursor + |FramePayload(f)| <= |view|
    && RowFits(f, MetadataBase(kind, count) + 256 * i, cursor)
    && view[cursor..cursor + |FramePayload(f)|] == FramePayload(f)
    && RowSlice(view, kind, count, i) == RowBytes(kind, f, MetadataBase(kind, count) + 256 * i, cursor)
    && RecordSlice(view, kind, count, i) == RecordBytes(f.metadata)
  }

  lemma RecordSequence(record: bytes, m: RxMetadata)
    requires |record| == 256 && MetadataFits(m) && RecordBytes(m) == record
    ensures U32(record, 0) == m.identity.sequence
  {
    hide RecordBytes, IdentityBytes, AddressesBytes, RadioBytes, U32, AddressesValid, RadioValid, RawScalarsValid;
    hide LayoutFits, PacketFits, IdentityValid;
    RecordSplit(record, m);
    IdentityFits(m.identity);
    FirstWord(record, m.identity);
  }

  lemma FirstWord(record: bytes, i: Identity)
    requires |record| == 256 && IdentityValid(i) && record[0..24] == IdentityBytes(i)
    ensures U32(record, 0) == i.sequence
  {
    hide U32;
    var head := record[0..24];
    assert head[0..4] == Put32(i.sequence);
    assert record[0..4] == head[0..4];
    Word32(record, 0, i.sequence);
  }

  lemma MonitorHasNoCsi(m: RxMetadata, kind: Kind, readable: nat)
    requires MetadataValid(m, kind, readable)
    ensures kind == Monitor ==> m.layout.byteLength == 0
    ensures IsU32(m.layout.byteLength)
  {
  }

  /** The two spans of a frame, read one after the other, are its padded payload. */
  lemma PayloadSound(view: bytes, cursor: nat, row: Row, csi: Span, packet: Span, f: RxFrame)
    requires cursor <= |view| <= U32_MAX && cursor % 4 == 0 && f.csi == csi.contents && f.packet == packet.contents
    requires ReadSpan(view, cursor, row.csiOffset, row.directory.csiLength) == Ok(csi)
    requires ReadSpan(view, csi.next, row.packetOffset, row.directory.captured) == Ok(packet)
    ensures |f.csi| == row.directory.csiLength && |f.packet| == row.directory.captured
    ensures row.csiOffset == SpanOffset(cursor, |f.csi|) && row.packetOffset == SpanOffset(cursor + |Padded(f.csi)|, |f.packet|)
    ensures packet.next == cursor + |FramePayload(f)| <= |view| && view[cursor..packet.next] == FramePayload(f)
  {
    hide ReadSpan, SpanOffset, Padded;
    SpanLength(view, cursor, row.csiOffset, row.directory.csiLength, csi);
    SpanLength(view, csi.next, row.packetOffset, row.directory.captured, packet);
    SpanSound(view, cursor, row.csiOffset, csi);
    PayloadAligned(f, cursor);
    SpanSound(view, csi.next, row.packetOffset, packet);
    PaddedPair(view, cursor, f);
  }

  lemma PayloadComplete(view: bytes, cursor: nat, f: RxFrame)
    requires cursor <= |view| <= U32_MAX && cursor % 4 == 0
    requires cursor + |FramePayload(f)| <= |view| && view[cursor..cursor + |FramePayload(f)|] == FramePayload(f)
    ensures cursor + |Padded(f.csi)| <= |view|
    ensures ReadSpan(view, cursor, SpanOffset(cursor, |f.csi|), |f.csi|) == Ok(Span(f.csi, cursor + |Padded(f.csi)|))
    ensures ReadSpan(view, cursor + |Padded(f.csi)|, SpanOffset(cursor + |Padded(f.csi)|, |f.packet|), |f.packet|)
            == Ok(Span(f.packet, cursor + |FramePayload(f)|))
  {
    hide ReadSpan, SpanOffset, Padded;
    PaddedPair(view, cursor, f);
    PayloadAligned(f, cursor);
    SpanComplete(view, cursor, SpanOffset(cursor, |f.csi|), Span(f.csi, cursor + |Padded(f.csi)|));
    SpanComplete(view, cursor + |Padded(f.csi)|, SpanOffset(cursor + |Padded(f.csi)|, |f.packet|),
                 Span(f.packet, cursor + |FramePayload(f)|));
  }

  lemma FrameSound(view: bytes, kind: Kind, count: nat, i: nat, cursor: nat, step: Step)
    requires i < count <= 128 && ControlEnd(kind, count) <= |view| <= U32_MAX && cursor <= |view| && cursor % 4 == 0
    requires ReadFrame(view, kind, count, i, cursor) == Ok(step)
    ensures FrameHeld(view, kind, count, i, cursor, step.frame) && step.next == cursor + |FramePayload(step.frame)|
  {
    hide ReadMetadata, ReadSpan, ReadRow, MetadataValid, MetadataFits, RowBytes, RecordBytes, Padded, SpanOffset, HeaderPrefix;
    hide RecordFlags, RowSlice, RecordSlice, U32, FramePayload;
    var f := step.frame;
    var record := RecordSlice(view, kind, count, i);
    var row := ReadRow(RowSlice(view, kind, count, i), kind, record);
    MetadataSound(record, kind, row.directory, f.metadata);
    RecordSequence(record, f.metadata);
    MonitorHasNoCsi(f.metadata, kind, f.readable);
    var csi := ReadSpan(view, cursor, row.csiOffset, row.directory.csiLength).value;
    var packet := ReadSpan(view, csi.next, row.packetOffset, row.directory.captured).value;
    PayloadSound(view, cursor, row, csi, packet, f);
    FrameFits(kind, f);
    SpanOffsetFits(cursor, |f.csi|);
    RowShape(row, kind, record, RowSlice(view, kind, count, i));
    RowRead(RowSlice(view, kind, count, i), kind, record, f, MetadataBase(kind, count) + 256 * i, cursor);
  }

  lemma RowShape(row: Row, kind: Kind, record: bytes, raw: bytes)
    requires |raw| == RowSize(kind) && |record| == 256 && row == ReadRow(raw, kind, record)
    ensures kind == Monitor ==> row.csiOffset == 0 && row.directory.csiLength == 0
    ensures kind == Monitor ==> row.directory.sequence == U32(record, 0)
  {
    hide U32, U16, Flags16;
  }

  lemma SpanOffsetFits(cursor: nat, n: nat)
    ensures SpanOffset(cursor, n) <= cursor && (n == 0 ==> SpanOffset(cursor, n) == 0)
  {
  }

  lemma SpanLength(view: bytes, cursor: nat, offset: nat, length: nat, s: Span)
    requires cursor <= |view| && ReadSpan(view, cursor, offset, length) == Ok(s)
    ensures |s.contents| == length
  {
  }

  lemma FrameComplete(view: bytes, kind: Kind, count: nat, i: nat, cursor: nat, f: RxFrame)
    requires i < count <= 128 && ControlEnd(kind, count) <= |view| <= U32_MAX && cursor <= |view| && cursor % 4 == 0
    requires FrameHeld(view, kind, count, i, cursor, f)
    ensures ReadFrame(view, kind, count, i, cursor) == Ok(Step(f, cursor + |FramePayload(f)|))
  {
    hide ReadMetadata, ReadSpan, ReadRow, MetadataValid, MetadataFits, RowBytes, RecordBytes, Padded, HeaderPrefix;
    hide RecordFlags, RowSlice, RecordSlice, U32, FramePayload;
    var record := RecordSlice(view, kind, count, i);
    var raw := RowSlice(view, kind, count, i);
    var metaOffset := MetadataBase(kind, count) + 256 * i;
    RecordSequence(record, f.metadata);
    RowRead(raw, kind, record, f, metaOffset, cursor);
    var row := RowOf(kind, f, metaOffset, cursor);
    MonitorHasNoCsi(f.metadata, kind, f.readable);
    MetadataComplete(record, kind, row.directory, f.metadata);
    PayloadComplete(view, cursor, f);
  }
}
