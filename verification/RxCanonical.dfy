/** The main results about the RX wire format. */
module RxCanonical {
  import opened Wire
  import opened RxRecords
  import opened RxBatches
  import opened RxBatchProofs

  predicate RowsHeld(view: bytes, kind: Kind, count: nat, fs: seq<RxFrame>)
    requires FramesFit(kind, count, fs) && ControlEnd(kind, count) <= |view|
  {
    view[32..32 + RowsSize(kind, |fs|)] == RowsBytes(kind, count, fs)
  }

  predicate RecordsHeld(view: bytes, kind: Kind, count: nat, fs: seq<RxFrame>)
    requires FramesFit(kind, count, fs) && ControlEnd(kind, count) <= |view|
  {
    view[MetadataBase(kind, count)..MetadataBase(kind, count) + 256 * |fs|] == RecordsBytes(kind, count, fs)
  }

  predicate PayloadHeld(view: bytes, start: nat, fs: seq<RxFrame>)
    requires start + |PayloadBytes(fs)| <= |view|
  {
    view[start..start + |PayloadBytes(fs)|] == PayloadBytes(fs)
  }

  /** After `n` frames, the three regions read so far are the encodings of the frames collected. */
  predicate Held(view: bytes, kind: Kind, count: nat, n: nat, p: Progress)
    requires n <= count <= 128 && ControlEnd(kind, count) <= |view| <= U32_MAX
  {
    && |p.frames| == n && FramesFit(kind, count, p.frames)
    && p.cursor == ControlEnd(kind, count) + |PayloadBytes(p.frames)| <= |view|
    && RowsHeld(view, kind, count, p.frames) && RecordsHeld(view, kind, count, p.frames)
    && PayloadHeld(view, ControlEnd(kind, count), p.frames)
    && p.csiTotal == CsiTotal(p.frames) && p.packetTotal == PacketTotal(p.frames)
  }

  lemma RowsUnfold(kind: Kind, count: nat, fs: seq<RxFrame>)
    requires fs != [] && FramesFit(kind, count, fs)
    ensures FramesFit(kind, count, fs[..|fs| - 1]) && MetadataFits(fs[|fs| - 1].metadata)
    ensures RowsBytes(kind, count, fs) == RowsBytes(kind, count, fs[..|fs| - 1]) + LastRow(kind, count, fs)
    ensures RecordsBytes(kind, count, fs)
            == RecordsBytes(kind, count, fs[..|fs| - 1]) + RecordBytes(fs[|fs| - 1].metadata)
  {
    hide FramesFit, LastRow, RecordBytes, MetadataFits, FrameValid, RowFits;
    FitsBefore(kind, count, fs);
  }

  /** A slice matches a concatenation when its two parts do. */
  lemma SliceExtend(view: bytes, o: nat, whole: bytes, a: bytes, b: bytes)
    requires whole == a + b && o + |whole| <= |view|
    ensures view[o..o + |whole|] == whole <==> view[o..o + |a|] == a && view[o + |a|..o + |whole|] == b
  {
    SliceSplit(view, o, o + |whole|, a, b);
  }

  // The next three take the byte strings as parameters: it keeps the solver from
  // comparing them element by element.

  lemma RowsExtend(view: bytes, kind: Kind, count: nat, fs: seq<RxFrame>, whole: bytes, a: bytes, b: bytes)
    requires |fs| <= count <= 128 && ControlEnd(kind, count) <= |view| && fs != [] && FramesFit(kind, count, fs)
    requires FramesFit(kind, count, fs[..|fs| - 1])
    requires whole == RowsBytes(kind, count, fs) && a == RowsBytes(kind, count, fs[..|fs| - 1])
    requires b == LastRow(kind, count, fs)
    ensures view[32..32 + RowsSize(kind, |fs|)] == whole <==>
            view[32..32 + RowsSize(kind, |fs| - 1)] == a && RowSlice(view, kind, count, |fs| - 1) == b
  {
    hide FramesFit, LastRow, RowsBytes, RecordsBytes, RecordBytes, MetadataFits;
    RowsUnfold(kind, count, fs);
    SliceExtend(view, 32, whole, a, b);
  }

  lemma RecordsExtend(view: bytes, kind: Kind, count: nat, fs: seq<RxFrame>, whole: bytes, a: bytes, b: bytes)
    requires |fs| <= count <= 128 && ControlEnd(kind, count) <= |view| && fs != [] && FramesFit(kind, count, fs)
    requires FramesFit(kind, count, fs[..|fs| - 1]) && MetadataFits(fs[|fs| - 1].metadata)
    requires whole == RecordsBytes(kind, count, fs) && a == RecordsBytes(kind, count, fs[..|fs| - 1])
    requires b == RecordBytes(fs[|fs| - 1].metadata)
    ensures view[MetadataBase(kind, count)..MetadataBase(kind, count) + 256 * |fs|] == whole <==>
            && view[MetadataBase(kind, count)..MetadataBase(kind, count) + 256 * (|fs| - 1)] == a
            && RecordSlice(view, kind, count, |fs| - 1) == b
  {
    hide FramesFit, LastRow, RowsBytes, RecordsBytes, RecordBytes, MetadataFits, MetadataBase;
    RowsUnfold(kind, count, fs);
    SliceExtend(view, MetadataBase(kind, count), whole, a, b);
  }

  lemma PayloadUnfold(fs: seq<RxFrame>)
    requires fs != []
    ensures PayloadBytes(fs) == PayloadBytes(fs[..|fs| - 1]) + FramePayload(fs[|fs| - 1])
  {
    hide FramePayload;
  }

  lemma PayloadExtend(view: bytes, start: nat, fs: seq<RxFrame>, whole: bytes, a: bytes, b: bytes)
    requires start + |PayloadBytes(fs)| <= |view| && fs != []
    requires whole == PayloadBytes(fs) && a == PayloadBytes(fs[..|fs| - 1]) && b == FramePayload(fs[|fs| - 1])
    ensures |whole| == |a| + |b|
    ensures view[start..start + |whole|] == whole <==> view[start..start + |a|] == a && view[start + |a|..start + |whole|] == b
  {
    hide FramePayload, PayloadBytes;
    PayloadUnfold(fs);
    SliceExtend(view, start, whole, a, b);
  }

  lemma FitsAppend(kind: Kind, count: nat, before: seq<RxFrame>, f: RxFrame)
    requires |before| < count <= 128
    requires ControlEnd(kind, count) + |PayloadBytes(before)| + |FramePayload(f)| <= U32_MAX
    ensures PayloadBytes(before + [f]) == PayloadBytes(before) + FramePayload(f)
    ensures FramesFit(kind, count, before + [f]) <==> FramesFit(kind, count, before) && FrameValid(kind, f)
  {
    hide FramePayload, FrameValid;
    assert (before + [f])[..|before|] == before;
  }

  /** One more frame fills one more row, one more record and more of the payload. */
  lemma RowsHeldExtend(view: bytes, kind: Kind, count: nat, before: seq<RxFrame>, f: RxFrame, row: bytes)
    requires |before| < count <= 128 && FramesFit(kind, count, before) && FramesFit(kind, count, before + [f])
    requires ControlEnd(kind, count) <= |view| && row == LastRow(kind, count, before + [f])
    ensures RowsHeld(view, kind, count, before + [f]) <==>
            RowsHeld(view, kind, count, before) && RowSlice(view, kind, count, |before|) == row
  {
    hide FramesFit, FrameValid, RowsBytes, RowBytes, RowFits, RowSlice, PayloadBytes;
    var fs := before + [f];
    assert fs[..|before|] == before && fs[|before|] == f;
    FitsBefore(kind, count, fs);
    RowsExtend(view, kind, count, fs, RowsBytes(kind, count, fs), RowsBytes(kind, count, before), row);
  }

  lemma RecordsHeldExtend(view: bytes, kind: Kind, count: nat, before: seq<RxFrame>, f: RxFrame)
    requires |before| < count <= 128 && FramesFit(kind, count, before) && FramesFit(kind, count, before + [f])
    requires ControlEnd(kind, count) <= |view|
    ensures MetadataFits(f.metadata)
    ensures RecordsHeld(view, kind, count, before + [f]) <==>
            RecordsHeld(view, kind, count, before) && RecordSlice(view, kind, count, |before|) == RecordBytes(f.metadata)
  {
    hide FramesFit, FrameValid, RecordsBytes, RecordBytes, MetadataFits, RecordSlice, PayloadBytes;
    var fs := before + [f];
    assert fs[..|before|] == before && fs[|before|] == f;
    FitsBefore(kind, count, fs);
    RecordsExtend(view, kind, count, fs, RecordsBytes(kind, count, fs), RecordsBytes(kind, count, before),
                  RecordBytes(f.metadata));
  }

  lemma PayloadHeldExtend(view: bytes, start: nat, before: seq<RxFrame>, f: RxFrame)
    requires start + |PayloadBytes(before)| + |FramePayload(f)| <= |view|
    ensures PayloadBytes(before + [f]) == PayloadBytes(before) + FramePayload(f)
    ensures var cursor := start + |PayloadBytes(before)|;
            PayloadHeld(view, start, before + [f]) <==>
            PayloadHeld(view, start, before) && view[cursor..cursor + |FramePayload(f)|] == FramePayload(f)
  {
    hide FramePayload, PayloadBytes;
    var fs := before + [f];
    assert fs[..|before|] == before && fs[|before|] == f;
    PayloadUnfold(fs);
    PayloadExtend(view, start, fs, PayloadBytes(fs), PayloadBytes(before), FramePayload(f));
  }

  /** Collecting one more frame and reading one more frame are the same step. */
  lemma HeldExtends(view: bytes, kind: Kind, count: nat, n: nat, before: Progress, f: RxFrame)
    requires 0 < n <= count <= 128 && ControlEnd(kind, count) <= |view| <= U32_MAX && |before.frames| == n - 1
    requires before.cursor == ControlEnd(kind, count) + |PayloadBytes(before.frames)| <= |view|
    requires before.cursor + |FramePayload(f)| <= |view|
    ensures Held(view, kind, count, n,
                 Progress(before.frames + [f], before.cursor + |FramePayload(f)|,
                          before.csiTotal + |f.csi|, before.packetTotal + |f.packet|))
            <==> Held(view, kind, count, n - 1, before) && FrameHeld(view, kind, count, n - 1, before.cursor, f)
  {
    hide FramesFit, FrameValid, FramePayload, RecordBytes, RowBytes, RowFits, MetadataFits, ControlEnd, RowSlice, RecordSlice;
    hide RowsHeld, RecordsHeld, PayloadHeld, PayloadBytes, CsiTotal, PacketTotal;
    PayloadHeldExtend(view, ControlEnd(kind, count), before.frames, f);
    FitsAppend(kind, count, before.frames, f);
    TotalsExtend(before.frames, f);
    if FramesFit(kind, count, before.frames + [f]) {
      FitsBefore(kind, count, before.frames + [f]);
      assert (before.frames + [f])[..n - 1] == before.frames;
      LastRowIs(kind, count, before.frames + [f]);
      RowsHeldExtend(view, kind, count, before.frames, f, LastRow(kind, count, before.frames + [f]));
      RecordsHeldExtend(view, kind, count, before.frames, f);
    }
  }

  lemma LastRowIs(kind: Kind, count: nat, fs: seq<RxFrame>)
    requires FramesFit(kind, count, fs) && fs != []
    ensures RowFits(fs[|fs| - 1], MetadataBase(kind, count) + 256 * (|fs| - 1), LastCursor(kind, count, fs))
    ensures LastRow(kind, count, fs)
            == RowBytes(kind, fs[|fs| - 1], MetadataBase(kind, count) + 256 * (|fs| - 1), LastCursor(kind, count, fs))
  {
    hide FramesFit, RowFits, RowBytes, FrameValid, MetadataFits;
    FitsBefore(kind, count, fs);
  }

  lemma TotalsExtend(before: seq<RxFrame>, f: RxFrame)
    ensures CsiTotal(before + [f]) == CsiTotal(before) + |f.csi|
    ensures PacketTotal(before + [f]) == PacketTotal(before) + |f.packet|
  {
    assert (before + [f])[..|before|] == before;
  }

  /** Byte totals never exceed the payload, so their overflow checks cannot fire. */
  lemma {:induction false} TotalsBounded(fs: seq<RxFrame>)
    ensures CsiTotal(fs) + PacketTotal(fs) <= |PayloadBytes(fs)|
  {
    if fs != [] {
      TotalsBounded(fs[..|fs| - 1]);
    }
  }

  lemma HeldNone(view: bytes, kind: Kind, count: nat)
    requires count <= 128 && ControlEnd(kind, count) <= |view| <= U32_MAX
    ensures Held(view, kind, count, 0, Progress([], ControlEnd(kind, count), 0, 0))
  {
  }

  lemma HeldCursor(view: bytes, kind: Kind, count: nat, n: nat, p: Progress)
    requires n <= count <= 128 && ControlEnd(kind, count) <= |view| <= U32_MAX && Held(view, kind, count, n, p)
    ensures |p.frames| == n
    ensures p.cursor == ControlEnd(kind, count) + |PayloadBytes(p.frames)| <= |view|
    ensures p.cursor % 4 == 0
    ensures p.csiTotal == CsiTotal(p.frames) && p.packetTotal == PacketTotal(p.frames)
    ensures p.csiTotal + p.packetTotal <= U32_MAX
  {
    hide PayloadBytes, FramesFit, RowsHeld, RecordsHeld, PayloadHeld, CsiTotal, PacketTotal;
    FramesAligned(p.frames);
    TotalsBounded(p.frames);
  }

  lemma {:induction false} FramesSound(view: bytes, kind: Kind, count: nat, n: nat, p: Progress)
    requires n <= count <= 128 && ControlEnd(kind, count) <= |view| <= U32_MAX
    requires FramesTo(view, kind, count, n) == Ok(p)
    ensures Held(view, kind, count, n, p)
  {
    hide Held, ReadFrame, FramePayload, FrameHeld, ControlEnd, PayloadBytes, FramesTo, CsiTotal, PacketTotal;
    if n == 0 {
      FramesNone(view, kind, count, p);
      HeldNone(view, kind, count);
    } else {
      var b, step := FramesLast(view, kind, count, n, p);
      FramesSound(view, kind, count, n - 1, b);
      HeldCursor(view, kind, count, n - 1, b);
      FrameSound(view, kind, count, n - 1, b.cursor, step);
      HeldExtends(view, kind, count, n, b, step.frame);
    }
  }

  lemma FramesNone(view: bytes, kind: Kind, count: nat, p: Progress)
    requires ControlEnd(kind, count) <= |view| && FramesTo(view, kind, count, 0) == Ok(p)
    ensures p == Progress([], ControlEnd(kind, count), 0, 0)
  {
  }

  lemma FramesLast(view: bytes, kind: Kind, count: nat, n: nat, p: Progress) returns (b: Progress, step: Step)
    requires 0 < n <= count && ControlEnd(kind, count) <= |view| && FramesTo(view, kind, count, n) == Ok(p)
    ensures FramesTo(view, kind, count, n - 1) == Ok(b) && b.cursor <= |view|
    ensures ReadFrame(view, kind, count, n - 1, b.cursor) == Ok(step)
    ensures p == Progress(b.frames + [step.frame], step.next, b.csiTotal + |step.frame.csi|, b.packetTotal + |step.frame.packet|)
  {
    hide ReadFrame, ControlEnd;
    b := FramesTo(view, kind, count, n - 1).value;
    step := ReadFrame(view, kind, count, n - 1, b.cursor).value;
  }

  lemma HeldInit(view: bytes, kind: Kind, count: nat, n: nat, p: Progress)
    requires 0 < n <= count <= 128 && ControlEnd(kind, count) <= |view| <= U32_MAX && Held(view, kind, count, n, p)
    ensures var before, f := p.frames[..n - 1], p.frames[n - 1];
            && p.frames == before + [f]
            && p.cursor == ControlEnd(kind, count) + |PayloadBytes(before)| + |FramePayload(f)|
            && p.csiTotal == CsiTotal(before) + |f.csi| && p.packetTotal == PacketTotal(before) + |f.packet|
  {
    hide FramePayload, FramesFit, RowsHeld, RecordsHeld;
    assert p.frames == p.frames[..n - 1] + [p.frames[n - 1]];
  }

  lemma {:induction false} FramesComplete(view: bytes, kind: Kind, count: nat, n: nat, p: Progress)
    requires n <= count <= 128 && ControlEnd(kind, count) <= |view| <= U32_MAX
    requires Held(view, kind, count, n, p)
    ensures FramesTo(view, kind, count, n) == Ok(p)
  {
    hide Held, ReadFrame, FramePayload, FrameHeld, ControlEnd, PayloadBytes, CsiTotal, PacketTotal;
    HeldCursor(view, kind, count, n, p);
    if n == 0 {
      EmptyProgress(kind, count, p);
    } else {
      HeldInit(view, kind, count, n, p);
      var before, f := p.frames[..n - 1], p.frames[n - 1];
      var b := Progress(before, ControlEnd(kind, count) + |PayloadBytes(before)|, CsiTotal(before), PacketTotal(before));
      HeldExtends(view, kind, count, n, b, f);
      FramesComplete(view, kind, count, n - 1, b);
      HeldCursor(view, kind, count, n - 1, b);
      FrameComplete(view, kind, count, n - 1, b.cursor, f);
    }
  }

  lemma EmptyProgress(kind: Kind, count: nat, p: Progress)
    requires p.frames == [] && p.cursor == ControlEnd(kind, count) + |PayloadBytes(p.frames)|
    requires p.csiTotal == CsiTotal(p.frames) && p.packetTotal == PacketTotal(p.frames)
    ensures p == Progress([], ControlEnd(kind, count), 0, 0)
  {
  }

  // -------------------------------------------------------------- main theorems

  lemma BatchFits(b: RxBatch)
    requires BatchValid(b)
    ensures FramesFit(b.kind, |b.frames|, b.frames)
    ensures 32 <= ControlEnd(b.kind, |b.frames|) <= b.totalBytes <= U32_MAX
    ensures b.totalBytes == ControlEnd(b.kind, |b.frames|) + |PayloadBytes(b.frames)|
  {
    hide PayloadBytes, FramesValid, CsiTotal, PacketTotal;
  }

  /** Header and frame regions hold what the writer would put there. */
  predicate BatchHeld(view: bytes, b: RxBatch)
    requires |b.frames| <= 128 && ControlEnd(b.kind, |b.frames|) <= |view| <= U32_MAX
  {
    && view[0..32] == HeaderBytes(b.kind, |b.frames|, |view|)
    && Held(view, b.kind, |b.frames|, |b.frames|, Progress(b.frames, |view|, b.csiBytes, b.packetBytes))
  }

  lemma BatchSplit(view: bytes, b: RxBatch)
    requires |b.frames| <= 128 && ControlEnd(b.kind, |b.frames|) <= |view| <= U32_MAX
    requires BatchValid(b) && |view| == b.totalBytes
    ensures view == BatchBytes(b) <==> BatchHeld(view, b)
  {
    hide HeaderBytes, RowsBytes, RecordsBytes, PayloadBytes, FramesValid, CsiTotal, PacketTotal;
    var n := |b.frames|;
    BatchFits(b);
    var rows, records, payload := RowsBytes(b.kind, n, b.frames), RecordsBytes(b.kind, n, b.frames), PayloadBytes(b.frames);
    FourParts(view, 32 + |rows|, HeaderBytes(b.kind, n, b.totalBytes), rows, records, payload);
  }

  lemma FourParts(view: bytes, m: nat, header: bytes, rows: bytes, records: bytes, payload: bytes)
    requires |header| == 32 && m == 32 + |rows| && |view| == m + |records| + |payload|
    ensures view == header + (rows + (records + payload)) <==>
            && view[0..32] == header && view[32..m] == rows
            && view[m..m + |records|] == records && view[m + |records|..|view|] == payload
  {
    assert view == view[0..|view|];
    SliceSplit(view, 0, |view|, header, rows + (records + payload));
    SliceSplit(view, 32, |view|, rows, records + payload);
    SliceSplit(view, m, |view|, records, payload);
  }

  /** Every accepted input is the encoding of the valid batch it decodes to. */
  lemma ReadSound(view: bytes, kind: Kind, b: RxBatch)
    requires ReadBatch(view, kind) == Ok(b)
    ensures BatchValid(b) && b.kind == kind && BatchBytes(b) == view
  {
    hide ReadHeader, FramesTo, HeaderBytes, BatchBytes, Held, BatchValid, FramesFit, ControlEnd, PayloadBytes;
    var count := ReadHeader(view, kind).value;
    var p := FramesTo(view, kind, count, count).value;
    HeaderRead(view, kind, count);
    FramesSound(view, kind, count, count, p);
    HeldCursor(view, kind, count, count, p);
    HeldBatch(view, kind, count, p, b);
    BatchFits(b);
    BatchSplit(view, b);
  }

  lemma HeldBatch(view: bytes, kind: Kind, count: nat, p: Progress, b: RxBatch)
    requires 1 <= count <= 128 && ControlEnd(kind, count) <= |view| <= U32_MAX
    requires Held(view, kind, count, count, p) && FinishBatch(view, kind, count, p) == Ok(b)
    ensures BatchValid(b) && |view| == b.totalBytes
  {
    hide RowsBytes, RecordsBytes, PayloadBytes, FramesValid, CsiTotal, PacketTotal;
  }

  /** Every encoding of a valid batch is accepted and gives that batch back. */
  lemma ReadComplete(b: RxBatch)
    requires BatchValid(b)
    ensures ReadBatch(BatchBytes(b), b.kind) == Ok(b)
  {
    hide ReadHeader, FramesTo, HeaderBytes, BatchBytes, Held, FramesValid, PayloadBytes, CsiTotal, PacketTotal, FramesFit, ControlEnd;
    var view, count := BatchBytes(b), |b.frames|;
    BatchFits(b);
    BatchSplit(view, b);
    HeaderRead(view, b.kind, count);
    FramesComplete(view, b.kind, count, count, Progress(b.frames, |view|, b.csiBytes, b.packetBytes));
  }

  /** The decoder is the exact inverse of the writer on valid batches: it accepts an
      input and returns `b` if and only if the input is the one encoding of `b`. */
  lemma DecodingIsInverse(view: bytes, kind: Kind, b: RxBatch)
    ensures ReadBatch(view, kind) == Ok(b) <==> BatchValid(b) && b.kind == kind && BatchBytes(b) == view
  {
    hide ReadBatch, BatchBytes, BatchValid;
    if ReadBatch(view, kind) == Ok(b) {
      ReadSound(view, kind, b);
    }
    if BatchValid(b) {
      ReadComplete(b);
    }
  }

  /** Canonical wire format: inputs that decode to the same batch are byte-identical. */
  lemma Canonical(first: bytes, second: bytes, kind: Kind)
    requires ReadBatch(first, kind).Ok? && ReadBatch(first, kind) == ReadBatch(second, kind)
    ensures first == second
  {
    hide ReadBatch, BatchBytes, BatchValid;
    ReadSound(first, kind, ReadBatch(first, kind).value);
    ReadSound(second, kind, ReadBatch(second, kind).value);
  }

  /** No input is accepted as both kinds. */
  lemma KindsExclusive(view: bytes)
    ensures !(ReadBatch(view, Csi).Ok? && ReadBatch(view, Monitor).Ok?)
  {
    hide FramesTo;
    assert CSI_MAGIC[4] != MONITOR_MAGIC[4];
  }
}
