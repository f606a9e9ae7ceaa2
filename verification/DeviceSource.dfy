/** The firmware's byte source for a batch: the control buffer it builds and the spans it
    hands out one by one (components/esp32_mquickjs/src/modules/wifi_csi/esp32_mquickjs_wifi_csi.c,
    components/esp32_mquickjs/src/modules/wifi_monitor/esp32_mquickjs_wifi_monitor.c). */
module DeviceSource {
  import opened Wire
  import opened RxRecords
  import opened RxBatches
  import opened DeviceWriter
  import opened DeviceMetadata
  import opened DeviceRecordWriter

  /** A retained slot: its wire row and metadata snapshot, its CSI bytes and packet bytes. */
  datatype DeviceFrame = DeviceFrame(directory: Directory, metadata: WireMetadata, csi: bytes, packet: bytes)

  /** The snapshots take every length but that of a Monitor packet from the slot itself. */
  predicate FrameTyped(kind: Kind, f: DeviceFrame) {
    && f.directory.Fits() && Typed(f.metadata) && |f.csi| == f.directory.csiLength
    && (kind == Csi ==> |f.packet| == f.directory.captured)
  }

  predicate AllTyped(kind: Kind, frames: seq<DeviceFrame>) {
    forall f :: f in frames ==> FrameTyped(kind, f)
  }

  function Rows(frames: seq<DeviceFrame>): (ds: seq<Directory>)
    ensures |ds| == |frames|
  {
    seq(|frames|, i requires 0 <= i < |frames| => frames[i].directory)
  }

  lemma RowsTyped(kind: Kind, frames: seq<DeviceFrame>)
    requires AllTyped(kind, frames)
    ensures FramesTyped(Rows(frames))
  {
    hide Typed;
    assert forall i :: 0 <= i < |frames| ==> frames[i] in frames;
  }

  predicate FrameSendable(kind: Kind, f: DeviceFrame)
    requires FrameTyped(kind, f)
  {
    |f.packet| == f.directory.captured && MetadataAccepted(kind, f.directory, f.metadata)
  }

  predicate AllSendable(kind: Kind, frames: seq<DeviceFrame>)
    requires AllTyped(kind, frames)
  {
    hide FrameSendable, FrameTyped;
    forall f :: f in frames ==> FrameSendable(kind, f)
  }

  /** What the source is built from without failing. */
  predicate Sendable(kind: Kind, frames: seq<DeviceFrame>)
    requires AllTyped(kind, frames)
  {
    hide AllSendable, Writable, AllTyped;
    RowsTyped(kind, frames);
    Writable(kind, Rows(frames)) && AllSendable(kind, frames)
  }

  function FrameRecord(kind: Kind, f: DeviceFrame): (s: bytes)
    requires FrameTyped(kind, f) && FrameSendable(kind, f)
    ensures |s| == 256
  {
    hide MetadataAccepted, Typed, DeviceRecord;
    DeviceRecord(kind, f.directory, f.metadata)
  }

  lemma Before(kind: Kind, frames: seq<DeviceFrame>, n: nat)
    requires AllTyped(kind, frames) && AllSendable(kind, frames) && n <= |frames|
    ensures AllTyped(kind, frames[..n]) && AllSendable(kind, frames[..n])
  {
    hide FrameTyped, FrameSendable;
  }

  lemma Each(kind: Kind, frames: seq<DeviceFrame>, i: nat)
    requires AllTyped(kind, frames) && AllSendable(kind, frames) && i < |frames|
    ensures FrameTyped(kind, frames[i]) && FrameSendable(kind, frames[i])
  {
    hide FrameTyped, FrameSendable;
    assert frames[i] in frames;
  }

  function Records(kind: Kind, frames: seq<DeviceFrame>): (s: bytes)
    requires AllTyped(kind, frames) && AllSendable(kind, frames)
    ensures |s| == 256 * |frames|
  {
    hide AllTyped, AllSendable, FrameTyped, FrameSendable, FrameRecord;
    if frames == [] then []
    else
      Before(kind, frames, |frames| - 1);
      Each(kind, frames, |frames| - 1);
      Records(kind, frames[..|frames| - 1]) + FrameRecord(kind, frames[|frames| - 1])
  }

  /** The finished control buffer. */
  function ControlBuffer(kind: Kind, frames: seq<DeviceFrame>): (s: bytes)
    requires AllTyped(kind, frames) && Sendable(kind, frames)
    ensures |s| == ControlEnd(kind, |frames|)
  {
    hide AllSendable, Writable, AllTyped, ControlBytes;
    RowsTyped(kind, frames);
    ControlBytes(kind, Rows(frames))[..MetadataBase(kind, |frames|)] + Records(kind, frames)
  }

  lemma FillTail(a: bytes, n: nat, s: bytes)
    requires |s| <= n
    ensures Write(a + Zeros(n), |a|, s) == a + s + Zeros(n - |s|)
  {
    ZerosSplit(|s|, n - |s|);
  }

  lemma ControlZeros(kind: Kind, rows: seq<Directory>)
    requires FramesTyped(rows) && Writable(kind, rows)
    ensures ControlBytes(kind, rows) == ControlBytes(kind, rows)[..MetadataBase(kind, |rows|)] + Zeros(256 * |rows|)
  {
    hide FrameRows, HeaderBytes, Writable, FramesTyped, PayloadFrom;
  }

  /** The length check `monitor_wire_source_create` makes while it retains the packets. */
  method CheckPackets(kind: Kind, frames: seq<DeviceFrame>) returns (ok: bool)
    requires AllTyped(kind, frames)
    ensures ok <==> forall k :: 0 <= k < |frames| ==> |frames[k].packet| == frames[k].directory.captured
  {
    hide AllTyped;
    for i := 0 to |frames|
      invariant forall k :: 0 <= k < i ==> |frames[k].packet| == frames[k].directory.captured
    {
      if |frames[i].packet| != frames[i].directory.captured {
        return false;
      }
    }
    return true;
  }

  lemma TypedBefore(kind: Kind, frames: seq<DeviceFrame>, n: nat)
    requires AllTyped(kind, frames) && n <= |frames|
    ensures AllTyped(kind, frames[..n]) && (n < |frames| ==> FrameTyped(kind, frames[n]))
  {
    hide FrameTyped;
  }

  /** The records written so far, then the zeros of those still to come. */
  ghost predicate Written(kind: Kind, frames: seq<DeviceFrame>, i: nat, base: bytes, output: bytes)
    requires i <= |frames| && AllTyped(kind, frames)
  {
    hide AllTyped, AllSendable, Records, Zeros;
    TypedBefore(kind, frames, i);
    AllSendable(kind, frames[..i]) && output == base + Records(kind, frames[..i]) + Zeros(256 * (|frames| - i))
  }

  lemma WrittenNone(kind: Kind, frames: seq<DeviceFrame>, base: bytes)
    requires AllTyped(kind, frames)
    ensures Written(kind, frames, 0, base, base + Zeros(256 * |frames|))
  {
    hide FrameTyped, Zeros;
    assert base + [] == base;
  }

  lemma WrittenAll(kind: Kind, frames: seq<DeviceFrame>, base: bytes, output: bytes)
    requires AllTyped(kind, frames) && Written(kind, frames, |frames|, base, output)
    ensures AllSendable(kind, frames) && output == base + Records(kind, frames)
  {
    hide AllTyped, AllSendable, Records;
    assert frames[..|frames|] == frames;
  }

  lemma SendableAppend(kind: Kind, frames: seq<DeviceFrame>, i: nat)
    requires AllTyped(kind, frames) && i < |frames| && AllTyped(kind, frames[..i]) && AllTyped(kind, frames[..i + 1])
    requires AllSendable(kind, frames[..i]) && FrameTyped(kind, frames[i]) && FrameSendable(kind, frames[i])
    ensures AllSendable(kind, frames[..i + 1])
    ensures Records(kind, frames[..i + 1]) == Records(kind, frames[..i]) + FrameRecord(kind, frames[i])
  {
    hide FrameTyped, FrameSendable, FrameRecord;
    assert frames[..i + 1][..i] == frames[..i] && frames[..i + 1][i] == frames[i];
  }

  lemma WrittenNext(kind: Kind, frames: seq<DeviceFrame>, i: nat, base: bytes, before: bytes, after: bytes)
    requires AllTyped(kind, frames) && i < |frames| && Written(kind, frames, i, base, before)
    requires FrameTyped(kind, frames[i]) && FrameSendable(kind, frames[i]) && |base| + 256 * |frames| == |before|
    requires after == Write(before, |base| + 256 * i, FrameRecord(kind, frames[i]))
    ensures Written(kind, frames, i + 1, base, after)
  {
    hide AllTyped, AllSendable, FrameTyped, FrameSendable, FrameRecord, Write, Zeros, Records;
    TypedBefore(kind, frames, i);
    TypedBefore(kind, frames, i + 1);
    var done, record := Records(kind, frames[..i]), FrameRecord(kind, frames[i]);
    SendableAppend(kind, frames, i);
    FillTail(base + done, 256 * (|frames| - i), record);
    Regroup(base, done, record);
  }

  lemma Unsendable(kind: Kind, frames: seq<DeviceFrame>, i: nat)
    requires AllTyped(kind, frames) && i < |frames| && FrameTyped(kind, frames[i]) && !FrameSendable(kind, frames[i])
    ensures !AllSendable(kind, frames)
  {
    hide FrameTyped, FrameSendable;
  }

  /** One turn of the loop that has every record written into its slot. */
  method WriteRecord(kind: Kind, frames: seq<DeviceFrame>, i: nat, output: array<byte>, metadataBase: nat, ghost base: bytes)
    returns (ok: bool)
    requires AllTyped(kind, frames) && i < |frames| && |frames[i].packet| == frames[i].directory.captured
    requires |base| == metadataBase && output.Length == metadataBase + 256 * |frames| && Written(kind, frames, i, base, output[..])
    modifies output
    ensures ok ==> Written(kind, frames, i + 1, base, output[..])
    ensures !ok ==> !AllSendable(kind, frames)
  {
    hide AllTyped, AllSendable, Typed, MetadataAccepted, Written, Write, DeviceRecord;
    TypedBefore(kind, frames, i);
    var f := frames[i];
    ghost var before := output[..];
    ok := WriteMetadata(kind, f.directory, f.metadata, output, metadataBase + i * 256);
    if ok {
      WrittenNext(kind, frames, i, base, before, output[..]);
    } else {
      Unsendable(kind, frames, i);
    }
  }

  lemma UnsizedUnsendable(kind: Kind, frames: seq<DeviceFrame>, k: nat)
    requires AllTyped(kind, frames) && k < |frames| && |frames[k].packet| != frames[k].directory.captured
    ensures !AllSendable(kind, frames)
  {
    hide FrameTyped, MetadataAccepted;
    assert frames[k] in frames;
  }

  /** A zeroed buffer of the right size with header and rows in front. */
  method StartBuffer(kind: Kind, frames: seq<DeviceFrame>, layout: Layout) returns (output: array<byte>)
    requires AllTyped(kind, frames) && FramesTyped(Rows(frames)) && Writable(kind, Rows(frames)) && layout == LayoutOf(kind, Rows(frames))
    ensures fresh(output) && output.Length == layout.metadataBase + 256 * |frames|
    ensures Written(kind, frames, 0, ControlBytes(kind, Rows(frames))[..layout.metadataBase], output[..])
  {
    hide Writable, ControlBytes, AllTyped, FramesTyped, Written, Zeros;
    output := new byte[layout.controlBytes](_ => 0);
    var ok := WriteControl(kind, Rows(frames), output);
    ControlZeros(kind, Rows(frames));
    WrittenNone(kind, frames, ControlBytes(kind, Rows(frames))[..layout.metadataBase]);
    assert output[..] == ControlBytes(kind, Rows(frames));
  }

  /** `wifi_csi_wire_source_build_control`, and the same steps in `monitor_wire_source_create`. */
  method BuildControl(kind: Kind, frames: seq<DeviceFrame>) returns (control: Option<array<byte>>)
    requires AllTyped(kind, frames)
    ensures control.Some? <==> Sendable(kind, frames)
    ensures control.Some? ==> fresh(control.value) && control.value[..] == ControlBuffer(kind, frames)
  {
    hide AllTyped, AllSendable, ControlBytes, Writable, FramesTyped, Written, Rows, Records;
    RowsTyped(kind, frames);
    var sized := CheckPackets(kind, frames);
    if !sized {
      ghost var k :| 0 <= k < |frames| && |frames[k].packet| != frames[k].directory.captured;
      UnsizedUnsendable(kind, frames, k);
      return None;
    }
    var layout := MakeLayout(kind, Rows(frames));
    if layout.None? {
      return None;
    }
    var output := StartBuffer(kind, frames, layout.value);
    ghost var base := ControlBytes(kind, Rows(frames))[..layout.value.metadataBase];
    for i := 0 to |frames|
      invariant Written(kind, frames, i, base, output[..])
    {
      var ok := WriteRecord(kind, frames, i, output, layout.value.metadataBase, base);
      if !ok {
        return None;
      }
    }
    WrittenAll(kind, frames, base, output[..]);
    return Some(output);
  }
}
