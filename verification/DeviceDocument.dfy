/** What the firmware's control writer puts on the wire, in the terms of the wire format's
    tables (docs/api/wifi-csi-protocol.md, docs/api/wifi-monitor.md). */
module DeviceDocument {
  import opened Wire
  import opened RxRecords
  import opened RxBatches
  import opened DeviceWriter
  import opened RxDocument

  /** Where payloads start: after the metadata slots, then each frame's two spans rounded
      up to words. */
  lemma PayloadSteps(kind: Kind, frames: seq<Directory>, i: nat)
    requires i < |frames|
    ensures PayloadFrom(kind, frames, 0) == RowAt(kind, |frames|) + 256 * |frames|
    ensures PayloadFrom(kind, frames, i + 1)
            == PayloadFrom(kind, frames, i) + Words(frames[i].csiLength) + Words(frames[i].captured)
  {
    AlignedWords(frames[i].csiLength);
    AlignedWords(frames[i].captured);
  }

  lemma AlignedWords(n: nat)
    ensures Aligned(n) == Words(n)
  {
  }

  lemma FrameRowSays(kind: Kind, frames: seq<Directory>, i: nat)
    requires FramesTyped(frames) && Writable(kind, frames) && i < |frames|
    ensures RowSaid(kind, FrameRow(kind, frames, i), RowAt(kind, |frames|) + 256 * i, PayloadFrom(kind, frames, i), frames[i])
  {
    hide PayloadFrom, Aligned, Words, CsiRow, MonitorRow, RowSaid, Writable;
    var d, start, place := frames[i], PayloadFrom(kind, frames, i), MetadataBase(kind, |frames|) + 256 * i;
    RowBounds(kind, frames, i);
    AlignedWords(d.csiLength);
    if kind == Csi {
      CsiRowSays(place, start, SpanOffset(start, d.csiLength), SpanOffset(start + Aligned(d.csiLength), d.captured), d);
    } else {
      MonitorRowSays(place, start, SpanOffset(start + Aligned(d.csiLength), d.captured), d);
    }
  }

  lemma {:induction false} RowOfRows(kind: Kind, frames: seq<Directory>, n: nat, i: nat)
    requires FramesTyped(frames) && Writable(kind, frames) && i < n <= |frames|
    ensures FrameRows(kind, frames, n)[RowsSize(kind, i)..RowsSize(kind, i + 1)] == FrameRow(kind, frames, i)
  {
    hide FrameRow, Writable, FramesTyped;
    if i < n - 1 {
      RowOfRows(kind, frames, n - 1, i);
    }
  }

  lemma ControlSlices(header: bytes, rows: bytes, zeros: bytes, from: nat, to: nat)
    requires from <= to <= |rows|
    ensures (header + rows + zeros)[0..|header|] == header
    ensures (header + rows + zeros)[|header| + from..|header| + to] == rows[from..to]
    ensures (header + rows + zeros)[|header| + |rows|..] == zeros
  {
  }

  /** The control bytes are the header, a row for each frame and zeroed metadata slots. The
      row of a frame says its lengths and where its spans stand. */
  lemma ControlSays(kind: Kind, frames: seq<Directory>, i: nat)
    requires FramesTyped(frames) && Writable(kind, frames) && i < |frames|
    ensures var control := ControlBytes(kind, frames);
            && |control| == RowAt(kind, |frames|) + 256 * |frames|
            && HeaderSaid(control, kind, |frames|, PayloadFrom(kind, frames, |frames|))
            && RowSaid(kind, control[RowAt(kind, i)..RowAt(kind, i + 1)], RowAt(kind, |frames|) + 256 * i,
                       PayloadFrom(kind, frames, i), frames[i])
            && AllZero(control[RowAt(kind, |frames|)..])
  {
    hide FrameRow, FrameRows, HeaderBytes, PayloadFrom, Writable, FramesTyped, HeaderSaid, RowSaid;
    var control, total := ControlBytes(kind, frames), PayloadFrom(kind, frames, |frames|);
    WritableCount(kind, frames);
    ControlSlices(HeaderBytes(kind, |frames|, total), FrameRows(kind, frames, |frames|), Zeros(256 * |frames|),
                  RowsSize(kind, i), RowsSize(kind, i + 1));
    HeaderSays(control, kind, |frames|, total);
    RowOfRows(kind, frames, |frames|, i);
    FrameRowSays(kind, frames, i);
  }

  /** The offset words: an absent span says 0, a present one says where its bytes go. */
  lemma OffsetsWritten(kind: Kind, frames: seq<Directory>, i: nat)
    requires FramesTyped(frames) && Writable(kind, frames) && i < |frames|
    ensures var control, d, start := ControlBytes(kind, frames), frames[i], PayloadFrom(kind, frames, i);
            var packetOffset := if d.captured == 0 then 0 else start + Words(d.csiLength);
            && RowAt(kind, i) + 16 <= |control|
            && if kind == Csi then
                 && Le(control, 32 + 40 * i + 4, 4) == (if d.csiLength == 0 then 0 else start)
                 && Le(control, 32 + 40 * i + 12, 4) == packetOffset
               else
                 Le(control, 32 + 24 * i + 4, 4) == packetOffset
  {
    hide Writable, FramesTyped, PayloadFrom, ControlBytes, HeaderSaid, FlagsSaid, AllZero, Le, Words;
    ControlSays(kind, frames, i);
    var control := ControlBytes(kind, frames);
    SliceWord(control, RowAt(kind, i), RowAt(kind, i + 1), 4);
    SliceWord(control, RowAt(kind, i), RowAt(kind, i + 1), 12);
  }
}
