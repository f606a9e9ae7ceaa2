/** End to end: what the firmware is given as frames, the host reads back as facts. */
module DeviceTheorems {
  import opened Wire
  import opened RxRecords
  import opened RxRecordReader
  import opened RxBatches
  import opened RxCanonical
  import opened DeviceWriter
  import opened DeviceMetadata
  import opened DeviceRecords
  import opened DeviceSource
  import opened DeviceStreams
  import opened DeviceAgreement

  /** What the host should read of a frame. */
  function FrameFacts(kind: Kind, f: DeviceFrame): RxFrame
    requires FrameTyped(kind, f) && FrameSendable(kind, f)
  {
    hide MetadataAccepted, Typed;
    RxFrame(Facts(kind, f.directory, f.metadata), f.csi, f.packet, f.directory.readable, f.directory.headerPrefix)
  }

  function FramesFacts(kind: Kind, frames: seq<DeviceFrame>): (fs: seq<RxFrame>)
    requires AllTyped(kind, frames) && AllSendable(kind, frames)
    ensures |fs| == |frames|
  {
    hide AllTyped, AllSendable, FrameTyped, FrameSendable, FrameFacts;
    if frames == [] then []
    else
      Before(kind, frames, |frames| - 1);
      Each(kind, frames, |frames| - 1);
      FramesFacts(kind, frames[..|frames| - 1]) + [FrameFacts(kind, frames[|frames| - 1])]
  }

  /** The batch the host should read. */
  function BatchFacts(kind: Kind, frames: seq<DeviceFrame>): RxBatch
    requires AllTyped(kind, frames) && AllSendable(kind, frames)
  {
    hide AllTyped, AllSendable;
    var fs := FramesFacts(kind, frames);
    RxBatch(kind, fs, 256 * |fs|, CsiTotal(fs), PacketTotal(fs), PayloadFrom(kind, Rows(frames), |frames|))
  }

  lemma FrameAgrees(kind: Kind, f: DeviceFrame)
    requires FrameTyped(kind, f) && FrameSendable(kind, f)
    ensures FrameValid(kind, FrameFacts(kind, f)) && DirectoryOf(FrameFacts(kind, f)) == f.directory
    ensures MetadataFits(FrameFacts(kind, f).metadata) && RecordBytes(FrameFacts(kind, f).metadata) == FrameRecord(kind, f)
  {
    hide Typed, MetadataAccepted, MetadataValid, MetadataFits, DeviceRecord, Facts, RecordBytes, RecordFlags, HeaderPrefix;
    FactsValid(kind, f.directory, f.metadata);
    RecordAgrees(kind, f.directory, f.metadata);
  }

  lemma FactsBefore(kind: Kind, frames: seq<DeviceFrame>)
    requires AllTyped(kind, frames) && AllSendable(kind, frames) && frames != []
    ensures var before, last := frames[..|frames| - 1], frames[|frames| - 1];
            && AllTyped(kind, before) && AllSendable(kind, before) && FrameTyped(kind, last) && FrameSendable(kind, last)
            && FramesFacts(kind, frames) == FramesFacts(kind, before) + [FrameFacts(kind, last)]
  {
    hide AllTyped, AllSendable, FrameTyped, FrameSendable, FrameFacts;
    Before(kind, frames, |frames| - 1);
    Each(kind, frames, |frames| - 1);
  }

  lemma {:induction false} FramesAgree(kind: Kind, frames: seq<DeviceFrame>)
    requires AllTyped(kind, frames) && AllSendable(kind, frames)
    ensures FramesValid(kind, FramesFacts(kind, frames))
  {
    hide AllTyped, AllSendable, FrameTyped, FrameSendable, FrameFacts, FrameValid;
    if frames != [] {
      var fs := FramesFacts(kind, frames);
      FactsBefore(kind, frames);
      FramesAgree(kind, frames[..|frames| - 1]);
      FrameAgrees(kind, frames[|frames| - 1]);
      assert fs[..|fs| - 1] == FramesFacts(kind, frames[..|frames| - 1]);
    }
  }

  lemma {:induction false} FactsAt(kind: Kind, frames: seq<DeviceFrame>, i: nat)
    requires AllTyped(kind, frames) && AllSendable(kind, frames) && i < |frames|
    ensures FrameTyped(kind, frames[i]) && FrameSendable(kind, frames[i])
    ensures FramesFacts(kind, frames)[i] == FrameFacts(kind, frames[i])
    decreases |frames|
  {
    hide AllTyped, AllSendable, FrameTyped, FrameSendable, FramesFacts, FrameFacts;
    FactsBefore(kind, frames);
    if i < |frames| - 1 {
      FactsAt(kind, frames[..|frames| - 1], i);
    }
  }

  lemma RowsAgree(kind: Kind, frames: seq<DeviceFrame>)
    requires AllTyped(kind, frames) && AllSendable(kind, frames)
    ensures Directories(FramesFacts(kind, frames)) == Rows(frames)
  {
    hide AllTyped, AllSendable, FrameTyped, FrameSendable, FramesFacts, FrameFacts, DirectoryOf;
    forall i | 0 <= i < |frames|
      ensures Directories(FramesFacts(kind, frames))[i] == Rows(frames)[i]
    {
      FactsAt(kind, frames, i);
      FrameAgrees(kind, frames[i]);
    }
  }

  lemma {:induction false} RecordsAgree(kind: Kind, count: nat, frames: seq<DeviceFrame>)
    requires AllTyped(kind, frames) && AllSendable(kind, frames) && FramesFit(kind, count, FramesFacts(kind, frames))
    ensures RecordsBytes(kind, count, FramesFacts(kind, frames)) == Records(kind, frames)
  {
    hide AllTyped, AllSendable, FrameTyped, FrameSendable, FrameFacts, FramesFit, RecordBytes, FrameRecord, MetadataFits;
    if frames != [] {
      var before, last, fs := frames[..|frames| - 1], frames[|frames| - 1], FramesFacts(kind, frames);
      Before(kind, frames, |frames| - 1);
      Each(kind, frames, |frames| - 1);
      assert fs[..|fs| - 1] == FramesFacts(kind, before) && fs[|fs| - 1] == FrameFacts(kind, last);
      RowsUnfold(kind, count, fs);
      RecordsAgree(kind, count, before);
      FrameAgrees(kind, last);
    }
  }

  lemma SameContents(kind: Kind, f: DeviceFrame)
    requires FrameTyped(kind, f) && FrameSendable(kind, f)
    ensures FrameFacts(kind, f).csi == f.csi && FrameFacts(kind, f).packet == f.packet
  {
    hide Typed, MetadataAccepted;
  }

  /** The emitted spans from frame `i` on complete the payload. */
  lemma {:induction false} PayloadAgrees(kind: Kind, frames: seq<DeviceFrame>, i: nat)
    requires AllTyped(kind, frames) && AllSendable(kind, frames) && i <= |frames|
    ensures PayloadBytes(FramesFacts(kind, frames)) == PayloadBytes(FramesFacts(kind, frames)[..i]) + PayloadLeft(frames, i, false)
    decreases |frames| - i
  {
    hide AllTyped, AllSendable, FrameTyped, FrameSendable, FramesFacts, FrameFacts, Padded;
    var fs := FramesFacts(kind, frames);
    if i == |frames| {
      assert fs[..i] == fs && PayloadLeft(frames, i, false) == [];
    } else {
      PayloadAgrees(kind, frames, i + 1);
      FactsAt(kind, frames, i);
      SameContents(kind, frames[i]);
      PayloadUnfold(fs[..i + 1]);
      assert fs[..i + 1][..i] == fs[..i];
      Regroup(PayloadBytes(fs[..i]), FramePayload(fs[i]), PayloadLeft(frames, i + 1, false));
      Regroup(Padded(frames[i].csi), Padded(frames[i].packet), PayloadLeft(frames, i + 1, false));
    }
  }

  lemma BatchFactsValid(kind: Kind, frames: seq<DeviceFrame>)
    requires AllTyped(kind, frames) && Sendable(kind, frames)
    ensures AllSendable(kind, frames) && BatchValid(BatchFacts(kind, frames))
    ensures Directories(FramesFacts(kind, frames)) == Rows(frames)
  {
    hide AllTyped, AllSendable, FrameAccepted, PayloadFrom, PayloadBytes, FramesValid, CsiTotal, PacketTotal, FramesFacts;
    RowsTyped(kind, frames);
    FramesAgree(kind, frames);
    RowsAgree(kind, frames);
    var fs := FramesFacts(kind, frames);
    SamePayload(kind, fs, |fs|);
    assert fs[..|fs|] == fs;
  }

  /** What the firmware sends for a batch of frames. */
  function Stream(kind: Kind, frames: seq<DeviceFrame>): bytes
    requires AllTyped(kind, frames) && Sendable(kind, frames)
  {
    ControlBuffer(kind, frames) + PayloadLeft(frames, 0, false)
  }

  /** It is the one encoding of the batch of facts, and the host reads exactly those facts. */
  lemma StreamDecodes(kind: Kind, frames: seq<DeviceFrame>)
    requires AllTyped(kind, frames) && Sendable(kind, frames)
    ensures AllSendable(kind, frames) && BatchValid(BatchFacts(kind, frames))
    ensures Stream(kind, frames) == BatchBytes(BatchFacts(kind, frames))
    ensures ReadBatch(Stream(kind, frames), kind) == Ok(BatchFacts(kind, frames))
  {
    hide AllTyped, AllSendable, Sendable, BatchValid, FramesFacts, ControlBytes, Records, RecordsBytes, PayloadBytes, PayloadLeft;
    hide Writable, FramesFit, BatchBytes, ReadBatch, Directories, Rows, FramesTyped;
    RowsTyped(kind, frames);
    BatchFactsValid(kind, frames);
    var b := BatchFacts(kind, frames);
    DeviceWritesBatch(b);
    RecordsAgree(kind, |frames|, frames);
    PayloadAgrees(kind, frames, 0);
    NothingBefore(b.frames, PayloadLeft(frames, 0, false));
    Regroup(ControlBytes(kind, Rows(frames))[..MetadataBase(kind, |frames|)], Records(kind, frames), PayloadLeft(frames, 0, false));
    DecodingIsInverse(BatchBytes(b), kind, b);
  }

  lemma NothingBefore(fs: seq<RxFrame>, s: bytes)
    ensures PayloadBytes(fs[..0]) + s == s
  {
  }

  lemma {:induction false} PacketsAreAll(frames: seq<DeviceFrame>, i: nat)
    requires AllTyped(Monitor, frames) && AllSendable(Monitor, frames) && i <= |frames|
    ensures PacketsLeft(frames, i) == PayloadLeft(frames, i, false)
    decreases |frames| - i
  {
    hide AllTyped, AllSendable, Typed, MetadataAccepted, Padded;
    if i < |frames| {
      Each(Monitor, frames, i);
      AcceptedParts(Monitor, frames[i].directory, frames[i].metadata);
      EmptySpan(PayloadLeft(frames, i, true));
      PacketsAreAll(frames, i + 1);
    }
  }

  /** From retained frames to the last span: a stream comes out exactly when the preflight
      accepts every frame, and then the host decodes it to the facts of those frames. */
  method SendCsi(frames: seq<DeviceFrame>) returns (sent: Option<bytes>)
    requires AllTyped(Csi, frames)
    ensures sent.Some? <==> Sendable(Csi, frames)
    ensures sent.Some? ==> AllSendable(Csi, frames) && ReadBatch(sent.value, Csi) == Ok(BatchFacts(Csi, frames))
  {
    hide AllTyped, AllSendable, Sendable, ControlBuffer, PayloadLeft, ReadBatch, BatchFacts, BatchValid, BatchBytes;
    var control := BuildControl(Csi, frames);
    if control.None? {
      return None;
    }
    var source := new CsiSource(control.value[..], frames);
    var all := CollectCsi(source);
    StreamDecodes(Csi, frames);
    return Some(all);
  }

  method SendMonitor(frames: seq<DeviceFrame>) returns (sent: Option<bytes>)
    requires AllTyped(Monitor, frames)
    ensures sent.Some? <==> Sendable(Monitor, frames)
    ensures sent.Some? ==> AllSendable(Monitor, frames) && ReadBatch(sent.value, Monitor) == Ok(BatchFacts(Monitor, frames))
  {
    hide AllTyped, AllSendable, Sendable, ControlBuffer, PayloadLeft, PacketsLeft, ReadBatch, BatchFacts, BatchValid, BatchBytes;
    var control := BuildControl(Monitor, frames);
    if control.None? {
      return None;
    }
    var source := new MonitorSource(control.value[..], frames);
    var all := CollectMonitor(source);
    StreamDecodes(Monitor, frames);
    PacketsAreAll(frames, 0);
    return Some(all);
  }
}
