/** The batch envelope: a 32-byte header, directory rows, metadata records, then each
    frame's CSI and packet bytes (scripts/capture/rx.py `parse_rx_batch`). */
module RxBatches {
  import opened Wire
  import opened RxRecords
  import opened RxRecordReader

  datatype RxFrame = RxFrame(metadata: RxMetadata, csi: bytes, packet: bytes, readable: nat, headerPrefix: nat)

  datatype RxBatch = RxBatch(kind: Kind, frames: seq<RxFrame>, metadataBytes: nat, csiBytes: nat, packetBytes: nat,
                             totalBytes: nat)

  function RowSize(kind: Kind): nat {
    if kind == Csi then 40 else 24
  }

  function RowsSize(kind: Kind, n: nat): nat {
    if kind == Csi then 40 * n else 24 * n
  }

  function MetadataBase(kind: Kind, count: nat): nat {
    32 + RowsSize(kind, count)
  }

  function ControlEnd(kind: Kind, count: nat): nat {
    MetadataBase(kind, count) + 256 * count
  }

  // ------------------------------------------------------------- what is valid

  /** A frame whose spans have the lengths its metadata states. */
  predicate FrameValid(kind: Kind, f: RxFrame) {
    && MetadataValid(f.metadata, kind, f.readable)
    && |f.csi| == f.metadata.layout.byteLength
    && |f.packet| == f.metadata.packet.capturedLength
    && f.headerPrefix == HeaderPrefix(f.metadata.packet)
  }

  predicate FramesValid(kind: Kind, fs: seq<RxFrame>) {
    fs == [] || (FramesValid(kind, fs[..|fs| - 1]) && FrameValid(kind, fs[|fs| - 1]))
  }

  function CsiTotal(fs: seq<RxFrame>): nat {
    if fs == [] then 0 else CsiTotal(fs[..|fs| - 1]) + |fs[|fs| - 1].csi|
  }

  function PacketTotal(fs: seq<RxFrame>): nat {
    if fs == [] then 0 else PacketTotal(fs[..|fs| - 1]) + |fs[|fs| - 1].packet|
  }

  predicate BatchValid(b: RxBatch) {
    && 1 <= |b.frames| <= 128
    && FramesValid(b.kind, b.frames)
    && b.metadataBytes == 256 * |b.frames|
    && b.csiBytes == CsiTotal(b.frames) && b.packetBytes == PacketTotal(b.frames)
    && b.totalBytes == ControlEnd(b.kind, |b.frames|) + |PayloadBytes(b.frames)| <= U32_MAX
  }

  // -------------------------------------------------------------- how it is written

  /** CSI bytes, then packet bytes, each zero-filled to a multiple of four. */
  function FramePayload(f: RxFrame): bytes {
    Padded(f.csi) + Padded(f.packet)
  }

  function PayloadBytes(fs: seq<RxFrame>): bytes {
    if fs == [] then [] else PayloadBytes(fs[..|fs| - 1]) + FramePayload(fs[|fs| - 1])
  }

  /** An absent span has offset zero. */
  function SpanOffset(cursor: nat, length: nat): nat {
    if length == 0 then 0 else cursor
  }

  predicate RowFits(f: RxFrame, metaOffset: nat, cursor: nat) {
    && IsU32(metaOffset) && IsU32(cursor + |FramePayload(f)|) && IsU32(f.readable)
    && IsU16(f.headerPrefix) && IsU32(f.metadata.packet.driverPayload.GetOr(0)) && IsU32(f.metadata.identity.sequence)
  }

  /** The directory row of a frame whose payload starts at `cursor`. */
  function RowBytes(kind: Kind, f: RxFrame, metaOffset: nat, cursor: nat): (s: bytes)
    requires RowFits(f, metaOffset, cursor)
    ensures |s| == RowSize(kind)
  {
    var report, sequence := f.metadata.packet.driverPayload.GetOr(0), f.metadata.identity.sequence;
    var flags := RecordFlags(f.metadata.packet.capture);
    var packetOffset := SpanOffset(cursor + |Padded(f.csi)|, |f.packet|);
    if kind == Csi then
      CsiRow(metaOffset, SpanOffset(cursor, |f.csi|), packetOffset,
             Directory(|f.csi|, |f.packet|, f.readable, f.headerPrefix, flags, report, sequence))
    else
      MonitorRow(metaOffset, packetOffset,
                 Directory(0, |f.packet|, f.readable, f.headerPrefix, flags, report, sequence))
  }

  function CsiRow(metaOffset: nat, csiOffset: nat, packetOffset: nat, d: Directory): (s: bytes)
    requires IsU32(metaOffset) && IsU32(csiOffset) && IsU32(packetOffset) && d.Fits()
    ensures |s| == 40
  {
    Put32(metaOffset)
    + (Put32(csiOffset)
       + (Put32(d.csiLength)
          + (Put32(packetOffset)
             + (Put32(d.captured)
                + (Put16(d.headerPrefix)
                   + (PutFlags16(d.flags)
                      + (Put32(d.payloadReport) + (Put32(d.readable) + (Put32(d.sequence) + Put32(0))))))))))
  }

  function MonitorRow(metaOffset: nat, packetOffset: nat, d: Directory): (s: bytes)
    requires IsU32(metaOffset) && IsU32(packetOffset) && d.Fits()
    ensures |s| == 24
  {
    Put32(metaOffset)
    + (Put32(packetOffset)
       + (Put32(d.captured)
          + (Put32(d.payloadReport) + (Put32(d.readable) + (Put16(d.headerPrefix) + PutFlags16(d.flags))))))
  }

  /** `fs` are the first frames of a batch of `count` frames whose bytes fit a uint32. */
  predicate FramesFit(kind: Kind, count: nat, fs: seq<RxFrame>) {
    && |fs| <= count <= 128 && FramesValid(kind, fs)
    && ControlEnd(kind, count) + |PayloadBytes(fs)| <= U32_MAX
  }

  lemma FrameFits(kind: Kind, f: RxFrame)
    requires FrameValid(kind, f)
    ensures MetadataFits(f.metadata) && IsU32(f.readable) && IsU16(f.headerPrefix)
    ensures IsU32(f.metadata.packet.driverPayload.GetOr(0)) && IsU32(f.metadata.identity.sequence)
  {
    hide IdentityValid, AddressesValid, RadioValid, RawScalarsValid, FrameControlValid, HeaderWordsValid, ParsedValid;
    IdentityFits(f.metadata.identity);
  }

  lemma IdentityFits(i: Identity)
    requires IdentityValid(i)
    ensures IsU32(i.sequence)
  {
  }

  lemma FitsBefore(kind: Kind, count: nat, fs: seq<RxFrame>)
    requires FramesFit(kind, count, fs) && fs != []
    ensures FramesFit(kind, count, fs[..|fs| - 1]) && FrameValid(kind, fs[|fs| - 1])
    ensures RowFits(fs[|fs| - 1], MetadataBase(kind, count) + 256 * (|fs| - 1),
                    ControlEnd(kind, count) + |PayloadBytes(fs[..|fs| - 1])|)
    ensures MetadataFits(fs[|fs| - 1].metadata)
  {
    hide FrameValid, FramePayload, MetadataFits;
    FrameFits(kind, fs[|fs| - 1]);
  }

  /** Where the payload of the last of `fs` starts. */
  function LastCursor(kind: Kind, count: nat, fs: seq<RxFrame>): nat
    requires fs != []
  {
    ControlEnd(kind, count) + |PayloadBytes(fs[..|fs| - 1])|
  }

  /** The row of the last of `fs`. */
  function LastRow(kind: Kind, count: nat, fs: seq<RxFrame>): (s: bytes)
    requires FramesFit(kind, count, fs) && fs != []
    ensures |s| == RowSize(kind)
  {
    hide FramesFit, RowFits, RowBytes, FrameValid, MetadataFits, PayloadBytes;
    FitsBefore(kind, count, fs);
    RowBytes(kind, fs[|fs| - 1], MetadataBase(kind, count) + 256 * (|fs| - 1), LastCursor(kind, count, fs))
  }

  function RowsBytes(kind: Kind, count: nat, fs: seq<RxFrame>): (s: bytes)
    requires FramesFit(kind, count, fs)
    ensures |s| == RowsSize(kind, |fs|)
  {
    hide FramesFit, LastRow, RowFits, FrameValid, MetadataFits;
    if fs == [] then []
    else
      FitsBefore(kind, count, fs);
      RowsBytes(kind, count, fs[..|fs| - 1]) + LastRow(kind, count, fs)
  }

  function RecordsBytes(kind: Kind, count: nat, fs: seq<RxFrame>): (s: bytes)
    requires FramesFit(kind, count, fs)
    ensures |s| == 256 * |fs|
  {
    hide FramesFit, RowFits, RecordBytes, FrameValid, MetadataFits;
    if fs == [] then []
    else
      FitsBefore(kind, count, fs);
      RecordsBytes(kind, count, fs[..|fs| - 1]) + RecordBytes(fs[|fs| - 1].metadata)
  }

  const CSI_MAGIC: bytes := [0x45, 0x33, 0x32, 0x51, 0x43, 0x53, 0x49, 0x31] // "E32QCSI1"
  const MONITOR_MAGIC: bytes := [0x45, 0x33, 0x32, 0x51, 0x4D, 0x4F, 0x4E, 0x31] // "E32QMON1"

  function Magic(kind: Kind): (s: bytes)
    ensures |s| == 8
  {
    if kind == Csi then CSI_MAGIC else MONITOR_MAGIC
  }

  function HeaderBytes(kind: Kind, count: nat, total: nat): (s: bytes)
    requires count <= 128 && IsU32(total)
    ensures |s| == 32
  {
    Magic(kind)
    + (Put16(1)
       + (Put16(32)
          + (Put32(count)
             + (Put16(RowSize(kind)) + (Put16(256) + (Put32(1) + (Put32(total) + Put32(0))))))))
  }

  /** The one byte string that encodes a valid batch. */
  function BatchBytes(b: RxBatch): (s: bytes)
    requires BatchValid(b)
    ensures |s| == b.totalBytes
  {
    hide HeaderBytes, RowsBytes, RecordsBytes, PayloadBytes, FramesValid, CsiTotal, PacketTotal;
    var count := |b.frames|;
    HeaderBytes(b.kind, count, b.totalBytes)
    + (RowsBytes(b.kind, count, b.frames) + (RecordsBytes(b.kind, count, b.frames) + PayloadBytes(b.frames)))
  }

  // ----------------------------------------------------------------- how it is read

  /** The header checks; gives the frame count. */
  function ReadHeader(view: bytes, kind: Kind): (r: Result<nat>)
    ensures r.Ok? ==> 32 <= |view| <= U32_MAX && 1 <= r.value <= 128 && ControlEnd(kind, r.value) <= |view|
  {
    if !(32 <= |view| <= U32_MAX) then Err
    else
      :- Require(view[0..8] == Magic(kind));
      :- Require(U16(view, 8) == 1 && U16(view, 10) == 32 && U16(view, 18) == 256);
      :- Require(U16(view, 16) == RowSize(kind));
      :- Require(U32(view, 20) == 1 && U32(view, 28) == 0);
      var count := U32(view, 12);
      :- Require(1 <= count <= 128);
      :- Require(U32(view, 24) == |view|);
      :- Require(ControlEnd(kind, count) <= U32_MAX && ControlEnd(kind, count) <= |view|);
      Ok(count)
  }

  datatype Row = Row(metaOffset: nat, csiOffset: nat, packetOffset: nat, reserved: nat, directory: Directory)

  function ReadRow(row: bytes, kind: Kind, record: bytes): (r: Row)
    requires |row| == RowSize(kind) && |record| == 256
    ensures r.directory.Fits()
  {
    if kind == Csi then
      Row(U32(row, 0), U32(row, 4), U32(row, 12), U32(row, 36),
          Directory(U32(row, 8), U32(row, 16), U32(row, 28), U16(row, 20), Flags16(row, 22), U32(row, 24), U32(row, 32)))
    else
      Row(U32(row, 0), 0, U32(row, 4), 0,
          Directory(0, U32(row, 8), U32(row, 16), U16(row, 20), Flags16(row, 22), U32(row, 12), U32(record, 0)))
  }

  datatype Span = Span(contents: bytes, next: nat)

  /** One payload span: canonical offset, in bounds, zero padding up to the next multiple of four. */
  function ReadSpan(view: bytes, cursor: nat, offset: nat, length: nat): (r: Result<Span>)
    requires cursor <= |view|
    ensures r.Ok? ==> cursor <= r.value.next <= |view|
  {
    if offset != SpanOffset(cursor, length) then Err
    else
      var end := cursor + length;
      :- Require(end <= U32_MAX);
      var aligned := end + Padding(end);
      :- Require(aligned <= U32_MAX);
      :- Require(aligned <= |view|);
      :- Require(AllZero(view[end..aligned]));
      Ok(Span(view[cursor..end], aligned))
  }

  function RowSlice(view: bytes, kind: Kind, count: nat, i: nat): (s: bytes)
    requires i < count && ControlEnd(kind, count) <= |view|
    ensures |s| == RowSize(kind)
  {
    view[32 + RowsSize(kind, i)..32 + RowsSize(kind, i + 1)]
  }

  function RecordSlice(view: bytes, kind: Kind, count: nat, i: nat): (s: bytes)
    requires i < count && ControlEnd(kind, count) <= |view|
    ensures |s| == 256
  {
    view[MetadataBase(kind, count) + 256 * i..MetadataBase(kind, count) + 256 * (i + 1)]
  }

  datatype Step = Step(frame: RxFrame, next: nat)

  /** One turn of the frame loop. */
  function ReadFrame(view: bytes, kind: Kind, count: nat, i: nat, cursor: nat): (r: Result<Step>)
    requires i < count && ControlEnd(kind, count) <= |view| && cursor <= |view|
    ensures r.Ok? ==> cursor <= r.value.next <= |view|
  {
    var record := RecordSlice(view, kind, count, i);
    var row := ReadRow(RowSlice(view, kind, count, i), kind, record);
    var d := row.directory;
    :- Require(row.metaOffset == MetadataBase(kind, count) + 256 * i);
    :- Require(row.reserved == 0);
    var metadata :- ReadMetadata(record, kind, d);
    var csi :- ReadSpan(view, cursor, row.csiOffset, d.csiLength);
    var packet :- ReadSpan(view, csi.next, row.packetOffset, d.captured);
    Ok(Step(RxFrame(metadata, csi.contents, packet.contents, d.readable, d.headerPrefix), packet.next))
  }

  datatype Progress = Progress(frames: seq<RxFrame>, cursor: nat, csiTotal: nat, packetTotal: nat)

  /** The loop state of `parse_rx_batch` after its first `n` frames. */
  function FramesTo(view: bytes, kind: Kind, count: nat, n: nat): (r: Result<Progress>)
    requires n <= count && ControlEnd(kind, count) <= |view|
    ensures r.Ok? ==> r.value.cursor <= |view|
  {
    if n == 0 then Ok(Progress([], ControlEnd(kind, count), 0, 0))
    else
      var before :- FramesTo(view, kind, count, n - 1);
      var step :- ReadFrame(view, kind, count, n - 1, before.cursor);
      :- Require(before.csiTotal + |step.frame.csi| <= U32_MAX);
      :- Require(before.packetTotal + |step.frame.packet| <= U32_MAX);
      Ok(Progress(before.frames + [step.frame], step.next,
                  before.csiTotal + |step.frame.csi|, before.packetTotal + |step.frame.packet|))
  }

  function FinishBatch(view: bytes, kind: Kind, count: nat, p: Progress): Result<RxBatch> {
    if p.cursor != |view| then Err
    else Ok(RxBatch(kind, p.frames, 256 * count, p.csiTotal, p.packetTotal, |view|))
  }

  /** `parse_rx_batch` as a function of the input bytes. */
  function ReadBatch(view: bytes, kind: Kind): Result<RxBatch> {
    var count :- ReadHeader(view, kind);
    var p :- FramesTo(view, kind, count, count);
    FinishBatch(view, kind, count, p)
  }
}
