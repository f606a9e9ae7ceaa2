/** Firmware and host agree on header and directory: for every valid batch the control
    writer emits the bytes that start the batch's encoding. */
module DeviceAgreement {
  import opened Wire
  import opened RxRecords
  import opened RxBatches
  import opened RxBatchProofs
  import opened RxCanonical
  import opened RxProperties
  import opened DeviceWriter

  /** What the firmware knows about a frame when it writes the frame's row. */
  function DirectoryOf(f: RxFrame): Directory {
    Directory(|f.csi|, |f.packet|, f.readable, f.headerPrefix, RecordFlags(f.metadata.packet.capture),
              f.metadata.packet.driverPayload.GetOr(0), f.metadata.identity.sequence)
  }

  function Directories(fs: seq<RxFrame>): (ds: seq<Directory>)
    ensures |ds| == |fs|
  {
    seq(|fs|, i requires 0 <= i < |fs| => DirectoryOf(fs[i]))
  }

  lemma ValidAccepted(kind: Kind, f: RxFrame)
    requires FrameValid(kind, f)
    ensures DirectoryOf(f).Fits() && FrameAccepted(kind, DirectoryOf(f))
  {
    hide MetadataValid, MetadataFits, FrameAccepted, CaptureValid, RecordFlags;
    FrameFits(kind, f);
    MonitorHasNoCsi(f.metadata, kind, f.readable);
    ValidCapture(f.metadata, kind, f.readable);
    CaptureAccepted(kind, f.metadata.packet, f.readable, DirectoryOf(f));
  }

  lemma ValidCapture(m: RxMetadata, kind: Kind, readable: nat)
    requires MetadataValid(m, kind, readable)
    ensures IsU32(m.packet.capturedLength) && CaptureValid(m.packet, readable)
    ensures m.packet.capture.parseValid ==> m.packet.capture.pointerValid
  {
    hide IdentityValid, AddressesValid, RadioValid, RawScalarsValid, FrameControlValid, HeaderWordsValid, CaptureValid;
  }

  lemma CaptureAccepted(kind: Kind, p: RxPacket, readable: nat, d: Directory)
    requires CaptureValid(p, readable) && (p.capture.parseValid ==> p.capture.pointerValid)
    requires d.Fits() && d.flags == RecordFlags(p.capture) && d.readable == readable && d.captured == p.capturedLength
    requires d.headerPrefix == HeaderPrefix(p) && (kind == Monitor ==> d.csiLength == 0)
    ensures FrameAccepted(kind, d)
  {
  }

  /** Packet facts whose capture state a directory row shows. */
  predicate Shows(d: Directory, p: RxPacket) {
    && d.flags == RecordFlags(p.capture) && d.captured == p.capturedLength && d.headerPrefix == HeaderPrefix(p)
    && (p.capture.parseValid ==> p.capture.pointerValid) && CaptureValid(p, d.readable)
  }

  /** The firmware's preflight accepts exactly the rows that show a valid capture. */
  lemma AcceptedMeans(kind: Kind, d: Directory)
    requires d.Fits()
    ensures FrameAccepted(kind, d) <==> (kind == Monitor ==> d.csiLength == 0) && exists p :: Shows(d, p)
  {
    if FrameAccepted(kind, d) {
      var c := CaptureFlags(d.flags[0], d.flags[1], d.flags[2], d.flags[3], d.flags[4]);
      var mode := if !c.present then NoCapture else if c.headerOnly then HeaderCapture else FullCapture;
      var report := if c.truncated then Some(d.readable + 1) else None;
      var p := RxPacket(UnknownPacket, None, UnknownFcs, mode, d.headerPrefix, None, report, d.captured,
                        None, None, None, None, None, c);
      assert d.flags == RecordFlags(c);
      assert Shows(d, p);
    }
  }

  lemma {:induction false} FramesAccepted(kind: Kind, fs: seq<RxFrame>, d: Directory)
    requires FramesValid(kind, fs) && d in Directories(fs)
    ensures d.Fits() && FrameAccepted(kind, d)
  {
    hide FrameValid, FrameAccepted, DirectoryOf;
    var i :| 0 <= i < |fs| && Directories(fs)[i] == d;
    FramesEach(kind, fs, i);
    ValidAccepted(kind, fs[i]);
  }

  /** Both sides put the payload of each frame at the same place. */
  lemma {:induction false} SamePayload(kind: Kind, fs: seq<RxFrame>, n: nat)
    requires n <= |fs|
    ensures PayloadFrom(kind, Directories(fs), n) == ControlEnd(kind, |fs|) + |PayloadBytes(fs[..n])|
  {
    hide Padded, Aligned;
    if n > 0 {
      SamePayload(kind, fs, n - 1);
      assert fs[..n][..n - 1] == fs[..n - 1];
      PaddedWords(fs[n - 1]);
      PayloadNext(kind, Directories(fs), n - 1);
    }
  }

  lemma PaddedWords(f: RxFrame)
    ensures |FramePayload(f)| == Aligned(|f.csi|) + Aligned(|f.packet|)
    ensures |Padded(f.csi)| == Aligned(|f.csi|)
  {
    AlignedIs(|f.csi|);
    AlignedIs(|f.packet|);
  }

  lemma ValidWritable(b: RxBatch)
    requires BatchValid(b)
    ensures FramesTyped(Directories(b.frames)) && Writable(b.kind, Directories(b.frames))
    ensures PayloadFrom(b.kind, Directories(b.frames), |b.frames|) == b.totalBytes
  {
    hide FrameAccepted, FramesValid, PayloadFrom, PayloadBytes, Directories, CsiTotal, PacketTotal;
    forall d | d in Directories(b.frames)
      ensures d.Fits() && FrameAccepted(b.kind, d)
    {
      FramesAccepted(b.kind, b.frames, d);
    }
    SamePayload(b.kind, b.frames, |b.frames|);
    assert b.frames[..|b.frames|] == b.frames;
  }

  lemma NoMonitorCsi(b: RxBatch, i: nat)
    requires BatchValid(b) && i < |b.frames|
    ensures b.kind == Monitor ==> b.frames[i].csi == []
  {
    hide FramesValid, MetadataValid, PayloadBytes, CsiTotal, PacketTotal;
    FramesEach(b.kind, b.frames, i);
    MonitorHasNoCsi(b.frames[i].metadata, b.kind, b.frames[i].readable);
  }

  /** The host's row of a frame, from what the firmware knows about it. */
  lemma RowIs(kind: Kind, f: RxFrame, metaOffset: nat, cursor: nat, d: Directory, packetOffset: nat)
    requires RowFits(f, metaOffset, cursor) && d.Fits() && d == DirectoryOf(f) && (kind == Monitor ==> f.csi == [])
    requires packetOffset == SpanOffset(cursor + Aligned(d.csiLength), d.captured)
    requires IsU32(metaOffset) && IsU32(SpanOffset(cursor, d.csiLength)) && IsU32(packetOffset)
    ensures RowBytes(kind, f, metaOffset, cursor)
            == if kind == Csi then CsiRow(metaOffset, SpanOffset(cursor, d.csiLength), packetOffset, d)
               else MonitorRow(metaOffset, packetOffset, d)
  {
    hide Padded, Aligned, CsiRow, MonitorRow, RecordFlags, RowFits;
    PaddedWords(f);
  }

  /** Both sides write the same row. */
  lemma SameRow(b: RxBatch, n: nat, ds: seq<Directory>)
    requires BatchValid(b) && 0 < n <= |b.frames| && ds == Directories(b.frames)
    requires FramesTyped(ds) && Writable(b.kind, ds) && FramesFit(b.kind, |b.frames|, b.frames[..n])
    ensures FrameRow(b.kind, ds, n - 1) == LastRow(b.kind, |b.frames|, b.frames[..n])
  {
    hide PayloadFrom, PayloadBytes, RowFits, RowBytes, CsiRow, MonitorRow, Aligned, Writable, FramesFit, BatchValid, FramesTyped;
    hide FrameValid, MetadataFits, DirectoryOf, LastRow;
    var fs, f := b.frames[..n], b.frames[n - 1];
    assert fs[..n - 1] == b.frames[..n - 1] && fs[n - 1] == f;
    LastRowIs(b.kind, |b.frames|, fs);
    SamePayload(b.kind, b.frames, n - 1);
    NoMonitorCsi(b, n - 1);
    RowBounds(b.kind, ds, n - 1);
    var metaOffset, cursor := MetadataBase(b.kind, |b.frames|) + 256 * (n - 1), PayloadFrom(b.kind, ds, n - 1);
    RowIs(b.kind, f, metaOffset, cursor, ds[n - 1], SpanOffset(cursor + Aligned(ds[n - 1].csiLength), ds[n - 1].captured));
  }

  lemma {:induction false} PrefixFits(kind: Kind, count: nat, fs: seq<RxFrame>, n: nat)
    requires FramesFit(kind, count, fs) && n <= |fs|
    ensures FramesFit(kind, count, fs[..n])
    decreases |fs|
  {
    hide FramesFit, FrameValid, RowFits, MetadataFits;
    if n < |fs| {
      FitsBefore(kind, count, fs);
      PrefixFits(kind, count, fs[..|fs| - 1], n);
      assert fs[..|fs| - 1][..n] == fs[..n];
    } else {
      assert fs[..n] == fs;
    }
  }

  lemma {:induction false} SameRows(b: RxBatch, n: nat, ds: seq<Directory>)
    requires BatchValid(b) && n <= |b.frames| && ds == Directories(b.frames)
    requires FramesTyped(ds) && Writable(b.kind, ds) && FramesFit(b.kind, |b.frames|, b.frames[..n])
    ensures FrameRows(b.kind, ds, n) == RowsBytes(b.kind, |b.frames|, b.frames[..n])
  {
    hide FrameRow, LastRow, Writable, FramesFit, BatchValid, FramesTyped, DirectoryOf;
    if n > 0 {
      PrefixFits(b.kind, |b.frames|, b.frames[..n], n - 1);
      assert b.frames[..n][..n - 1] == b.frames[..n - 1];
      SameRows(b, n - 1, ds);
      SameRow(b, n, ds);
    }
  }

  /** The firmware accepts the frames of every valid batch, and the control bytes it
      writes for them start the one encoding of the batch. */
  lemma DeviceWritesBatch(b: RxBatch)
    requires BatchValid(b)
    ensures FramesFit(b.kind, |b.frames|, b.frames)
    ensures FramesTyped(Directories(b.frames)) && Writable(b.kind, Directories(b.frames))
    ensures BatchBytes(b) == ControlBytes(b.kind, Directories(b.frames))[..MetadataBase(b.kind, |b.frames|)]
                             + (RecordsBytes(b.kind, |b.frames|, b.frames) + PayloadBytes(b.frames))
  {
    hide FramesFit, BatchValid, Writable, FramesTyped, DirectoryOf, HeaderBytes, RowsBytes, RecordsBytes, PayloadBytes, FrameRows;
    hide PayloadFrom, Directories;
    var ds := Directories(b.frames);
    BatchFits(b);
    ValidWritable(b);
    WritableCount(b.kind, ds);
    assert b.frames[..|b.frames|] == b.frames;
    SameRows(b, |b.frames|, ds);
    var header, rows := HeaderBytes(b.kind, |b.frames|, b.totalBytes), FrameRows(b.kind, ds, |b.frames|);
    ControlParts(header, rows, Zeros(256 * |b.frames|));
    Regroup(header, rows, RecordsBytes(b.kind, |b.frames|, b.frames) + PayloadBytes(b.frames));
  }

  lemma ControlParts(header: bytes, rows: bytes, zeros: bytes)
    ensures (header + rows + zeros)[..|header| + |rows|] == header + rows
  {
  }
}
