/** The two ends of the RX format have the same language: the host accepts a byte string
    exactly when the firmware's wire encoder can produce it, for some rows and metadata that
    the encoder accepts. What the adapters in front of it fill in is a part of these. */
module DeviceLanguage {
  import opened Wire
  import opened RxRecords
  import opened RxBatches
  import opened RxCanonical
  import opened RxProperties
  import opened DeviceWriter
  import opened DeviceMetadata
  import opened DeviceSource
  import opened DeviceAgreement
  import opened DeviceConverse
  import opened DeviceTheorems

  /** A frame from which the firmware would send `f`. */
  function DeviceOf(f: RxFrame): DeviceFrame
    requires MetadataFits(f.metadata)
  {
    DeviceFrame(DirectoryOf(f), WireOf(f.metadata), f.csi, f.packet)
  }

  /** One frame of a fitting batch fits a batch of its own. */
  lemma {:induction false} AloneFits(kind: Kind, ds: seq<Directory>, i: nat)
    requires FramesTyped(ds) && Writable(kind, ds) && i < |ds|
    ensures FramesTyped([ds[i]]) && Writable(kind, [ds[i]])
  {
    hide FrameAccepted, Aligned, PayloadFrom;
    assert ds[i] in ds;
    PayloadGrows(kind, ds, 0, i);
    PayloadNext(kind, ds, i);
    PayloadGrows(kind, ds, i + 1, |ds|);
    PayloadFirst(kind, ds);
    PayloadFirst(kind, [ds[i]]);
    PayloadNext(kind, [ds[i]], 0);
  }

  lemma PayloadFirst(kind: Kind, ds: seq<Directory>)
    ensures PayloadFrom(kind, ds, 0) == ControlEnd(kind, |ds|)
    ensures |ds| > 0 ==> ControlEnd(kind, 1) <= ControlEnd(kind, |ds|)
  {
  }

  lemma RowMatches(kind: Kind, f: RxFrame)
    requires FrameValid(kind, f)
    ensures DirectoryOf(f).Fits() && DirectoryOf(f).readable == f.readable && DirectoryMatches(DirectoryOf(f), f.metadata)
    ensures MetadataValid(f.metadata, kind, f.readable) && MetadataFits(f.metadata)
  {
    hide MetadataValid, MetadataFits, RecordFlags, HeaderPrefix, FrameAccepted;
    FrameFits(kind, f);
    ValidAccepted(kind, f);
  }

  lemma FrameBack(kind: Kind, f: RxFrame)
    requires FrameValid(kind, f) && MetadataFits(f.metadata) && DirectoryOf(f).Fits()
    requires FramesTyped([DirectoryOf(f)]) && Writable(kind, [DirectoryOf(f)])
    ensures FrameTyped(kind, DeviceOf(f)) && FrameSendable(kind, DeviceOf(f))
    ensures FrameFacts(kind, DeviceOf(f)) == f
  {
    hide MetadataValid, MetadataFits, WireOf, MetadataAccepted, Facts, Typed, Writable, FramesTyped, RecordFlags, HeaderPrefix;
    RowMatches(kind, f);
    AcceptedBack(kind, DirectoryOf(f), f.metadata);
    FactsBack(kind, DirectoryOf(f), f.metadata);
  }

  predicate EachFits(fs: seq<RxFrame>) {
    forall f :: f in fs ==> MetadataFits(f.metadata)
  }

  function Devices(fs: seq<RxFrame>): (ds: seq<DeviceFrame>)
    requires EachFits(fs)
    ensures |ds| == |fs|
  {
    hide MetadataFits, DeviceOf;
    if fs == [] then [] else Devices(fs[..|fs| - 1]) + [DeviceOf(fs[|fs| - 1])]
  }

  lemma {:induction false} DevicesAt(fs: seq<RxFrame>, i: nat)
    requires EachFits(fs) && i < |fs|
    ensures MetadataFits(fs[i].metadata) && Devices(fs)[i] == DeviceOf(fs[i])
    decreases |fs|
  {
    hide MetadataFits, DeviceOf;
    assert fs[i] in fs;
    if i < |fs| - 1 {
      DevicesAt(fs[..|fs| - 1], i);
    }
  }

  lemma DeviceRows(fs: seq<RxFrame>)
    requires EachFits(fs)
    ensures Rows(Devices(fs)) == Directories(fs)
  {
    hide MetadataFits, Devices, WireOf, DirectoryOf;
    forall i | 0 <= i < |fs|
      ensures Rows(Devices(fs))[i] == Directories(fs)[i]
    {
      DevicesAt(fs, i);
    }
  }

  /** Every frame of a valid batch comes back from its device frame. */
  lemma FrameOfBatch(b: RxBatch, i: nat)
    requires BatchValid(b) && i < |b.frames|
    ensures MetadataFits(b.frames[i].metadata)
    ensures FrameTyped(b.kind, DeviceOf(b.frames[i])) && FrameSendable(b.kind, DeviceOf(b.frames[i]))
    ensures FrameFacts(b.kind, DeviceOf(b.frames[i])) == b.frames[i]
  {
    hide FrameTyped, FrameSendable, FrameFacts, DeviceOf, FrameValid, MetadataFits, FramesTyped, Writable, DirectoryOf, FramesValid;
    hide PayloadBytes, CsiTotal, PacketTotal;
    ValidWritable(b);
    FramesEach(b.kind, b.frames, i);
    RowMatches(b.kind, b.frames[i]);
    AloneFits(b.kind, Directories(b.frames), i);
    FrameBack(b.kind, b.frames[i]);
  }

  lemma BatchFitsEach(b: RxBatch)
    requires BatchValid(b)
    ensures EachFits(b.frames)
  {
    hide BatchValid, MetadataFits, FrameTyped, FrameSendable, DeviceOf, FrameFacts;
    forall f | f in b.frames
      ensures MetadataFits(f.metadata)
    {
      var i :| 0 <= i < |b.frames| && b.frames[i] == f;
      FrameOfBatch(b, i);
    }
  }

  lemma DevicesSendable(b: RxBatch)
    requires BatchValid(b) && EachFits(b.frames)
    ensures AllTyped(b.kind, Devices(b.frames)) && Sendable(b.kind, Devices(b.frames))
  {
    hide BatchValid, FrameTyped, FrameSendable, DeviceOf, Devices, FramesTyped, Writable, EachFits;
    var ds := Devices(b.frames);
    forall d | d in ds
      ensures FrameTyped(b.kind, d) && FrameSendable(b.kind, d)
    {
      var i :| 0 <= i < |ds| && ds[i] == d;
      DevicesAt(b.frames, i);
      FrameOfBatch(b, i);
    }
    ValidWritable(b);
    DeviceRows(b.frames);
  }

  lemma {:induction false} FactsOfDevices(b: RxBatch, n: nat)
    requires BatchValid(b) && n <= |b.frames| && EachFits(b.frames[..n])
    requires AllTyped(b.kind, Devices(b.frames[..n])) && AllSendable(b.kind, Devices(b.frames[..n]))
    ensures FramesFacts(b.kind, Devices(b.frames[..n])) == b.frames[..n]
  {
    hide BatchValid, FrameTyped, FrameSendable, DeviceOf, AllTyped, AllSendable, FrameFacts, EachFits;
    if n > 0 {
      var ds := Devices(b.frames[..n]);
      assert b.frames[..n][..n - 1] == b.frames[..n - 1];
      FitsPrefix(b.frames, n);
      assert ds[..n - 1] == Devices(b.frames[..n - 1]);
      Before(b.kind, ds, n - 1);
      FactsOfDevices(b, n - 1);
      FrameOfBatch(b, n - 1);
    }
  }

  lemma FitsPrefix(fs: seq<RxFrame>, n: nat)
    requires 0 < n <= |fs| && EachFits(fs[..n])
    ensures EachFits(fs[..n - 1])
  {
    hide MetadataFits;
    assert forall f :: f in fs[..n - 1] ==> f in fs[..n];
  }

  /** For whatever the host decodes there are frames from which the firmware sends it. */
  lemma DecodedIsSent(view: bytes, kind: Kind, b: RxBatch)
    requires ReadBatch(view, kind) == Ok(b)
    ensures EachFits(b.frames)
    ensures AllTyped(kind, Devices(b.frames)) && Sendable(kind, Devices(b.frames))
    ensures Stream(kind, Devices(b.frames)) == view
  {
    hide BatchValid, BatchBytes, EachFits, AllTyped, AllSendable, Sendable, Devices, Stream, ReadBatch, FramesFacts;
    DecodingIsInverse(view, kind, b);
    BatchFitsEach(b);
    DevicesSendable(b);
    StreamDecodes(kind, Devices(b.frames));
    assert b.frames[..|b.frames|] == b.frames;
    FactsOfDevices(b, |b.frames|);
    SameFacts(b);
  }

  lemma SameFacts(b: RxBatch)
    requires BatchValid(b) && EachFits(b.frames) && AllTyped(b.kind, Devices(b.frames)) && AllSendable(b.kind, Devices(b.frames))
    requires FramesFacts(b.kind, Devices(b.frames)) == b.frames
    ensures BatchFacts(b.kind, Devices(b.frames)) == b
  {
    hide EachFits, AllTyped, AllSendable, Devices, PayloadFrom, PayloadBytes, FramesValid, CsiTotal, PacketTotal, FramesTyped, Writable;
    ValidWritable(b);
    DeviceRows(b.frames);
  }

  /** The host accepts exactly what the wire encoder can produce. */
  lemma SameLanguage(view: bytes, kind: Kind)
    ensures ReadBatch(view, kind).Ok?
            <==> exists frames :: AllTyped(kind, frames) && Sendable(kind, frames) && Stream(kind, frames) == view
  {
    hide AllTyped, Sendable, Stream, ReadBatch, BatchFacts, BatchBytes, BatchValid, EachFits, AllSendable;
    if ReadBatch(view, kind).Ok? {
      var b := ReadBatch(view, kind).value;
      DecodedIsSent(view, kind, b);
    }
    if frames :| AllTyped(kind, frames) && Sendable(kind, frames) && Stream(kind, frames) == view {
      StreamDecodes(kind, frames);
    }
  }
}
