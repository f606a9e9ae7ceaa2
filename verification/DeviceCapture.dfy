/** From the radio to the capture file: what a Monitor frame of the firmware becomes in the
    exported PCAPNG stream. */
module DeviceCapture {
  import opened Wire
  import opened RxRecords
  import opened RxBatches
  import opened PcapBlocks
  import opened PcapReader
  import opened PcapExport
  import opened PcapEncoder
  import opened DeviceWriter
  import PcapTheorems
  import Radiotap
  import opened DeviceMetadata
  import opened DeviceSource
  import DeviceTheorems

  function Sent(frames: seq<DeviceFrame>): nat {
    if frames == [] then 0 else Sent(frames[..|frames| - 1]) + if frames[|frames| - 1].packet == [] then 0 else 1
  }

  lemma {:induction false} SentIsCount(frames: seq<DeviceFrame>, fs: seq<RxFrame>, n: nat)
    requires |fs| == |frames| && (forall i :: 0 <= i < |fs| ==> fs[i].packet == frames[i].packet) && n <= |fs|
    ensures PacketCount(fs[..n]) == Sent(frames[..n])
  {
    if n > 0 {
      SentIsCount(frames, fs, n - 1);
      assert fs[..n][..n - 1] == fs[..n - 1] && frames[..n][..n - 1] == frames[..n - 1];
    }
  }

  lemma FactsSay(f: DeviceFrame)
    requires FrameTyped(Monitor, f) && FrameSendable(Monitor, f)
    ensures var r, m := DeviceTheorems.FrameFacts(Monitor, f), f.metadata;
            && r.packet == f.packet && r.readable == f.directory.readable
            && IdentityOf(r) == (m.sessionGeneration, m.radioGeneration) && r.metadata.identity.timestampUs == m.timestampUs
            && r.metadata.radio.rssi == m.rssi && r.metadata.radio.noiseFloor == Known(m.rxFlags[0], m.noiseFloor)
            && r.metadata.radio.antenna == Known(m.rxFlags[1], m.antenna as int)
  {
    hide Writable, FramesTyped, LayoutAccepted, PacketAccepted, LayoutFacts, PacketFacts, AddressFacts, ScalarFacts;
    hide SecondaryOf, PhyOf;
  }

  lemma ViewSays(f: RxFrame)
    requires f.metadata.radio.antenna.Some? ==> f.metadata.radio.antenna.value >= 0
    ensures var v := Radiotap.Expected(f);
            && v.signal == Some(f.metadata.radio.rssi) && v.noise == f.metadata.radio.noiseFloor
            && v.antenna == f.metadata.radio.antenna
  {
  }

  /** With anchors, a frame's time is mapped from the monotonic to the UTC one; else it is the
      distance to the earliest frame. */
  ghost predicate TimeOf(q: Request, frames: seq<DeviceFrame>, t: int, stamp: int) {
    if q.relative then
      && (forall j :: 0 <= j < |frames| ==> frames[j].metadata.timestampUs >= t - stamp)
      && (exists j :: 0 <= j < |frames| && frames[j].metadata.timestampUs == t - stamp)
    else q.utc.Some? && q.monotonic.Some? && stamp == q.utc.value + t - q.monotonic.value
  }

  /** Packet `k` of a capture is frame `i`: its very bytes, its time, its session, its length
      on air and its levels. */
  ghost predicate Shows(c: Capture, k: nat, q: Request, frames: seq<DeviceFrame>, i: nat)
    requires i < |frames| && FrameTyped(Monitor, frames[i])
  {
    hide InterfaceName, Radiotap.ViewOf;
    var f, m := frames[i], frames[i].metadata;
    && k < |c.packets|
    && var p := c.packets[k];
       && p.packet == f.packet && TimeOf(q, frames, m.timestampUs, p.timestamp)
       && p.interface < |c.interfaces|
       && c.interfaces[p.interface].Name() == InterfaceName((m.sessionGeneration, m.radioGeneration))
       && p.captured == p.radiotap.length + |f.packet| && p.original == p.radiotap.length + f.directory.readable
       && var v := Radiotap.ViewOf(p.radiotap.fields);
          && v.signal == Some(m.rssi) && v.noise == Known(m.rxFlags[0], m.noiseFloor)
          && v.antenna == Known(m.rxFlags[1], m.antenna as int)
  }

  lemma SameTimes(q: Request, fs: seq<RxFrame>, frames: seq<DeviceFrame>, t: int, stamp: int)
    requires |fs| == |frames| && PcapTheorems.Stamped(q, fs, t, stamp)
    requires forall k :: 0 <= k < |fs| ==> fs[k].metadata.identity.timestampUs == frames[k].metadata.timestampUs
    ensures TimeOf(q, frames, t, stamp)
  {
  }

  /** A reader of the exported file finds every frame that has a packet, at its place among
      those frames. */
  lemma FrameInCapture(frames: seq<DeviceFrame>, q: Request, json: Json, bs: seq<Block>, i: nat)
    requires AllTyped(Monitor, frames) && Sendable(Monitor, frames) && i < |frames| && frames[i].packet != []
    requires ExportOf(DeviceTheorems.Stream(Monitor, frames), q, json) == Ok(bs)
    ensures BlocksFit(bs) && ReadCapture(Stream(bs)).Some? && PlanExport(DeviceTheorems.Stream(Monitor, frames), q).Ok?
    ensures FrameTyped(Monitor, frames[i]) && |ReadCapture(Stream(bs)).value.packets| == Sent(frames)
    ensures Shows(ReadCapture(Stream(bs)).value, Sent(frames[..i]), q, frames, i)
  {
    hide ExportOf, PlanExport, ReadCapture, Stream, BlocksFit, AllTyped, AllSendable, Sendable, FrameTyped, FrameSendable;
    hide DeviceTheorems.Stream, DeviceTheorems.FramesFacts, DeviceTheorems.FrameFacts, ReadBatch, BatchValid, BatchBytes;
    hide InterfaceName, Radiotap.ViewOf, Radiotap.Expected, PacketCount, RadioValid, TimeOf, PcapTheorems.Stamped;
    var view := DeviceTheorems.Stream(Monitor, frames);
    DeviceTheorems.StreamDecodes(Monitor, frames);
    var fs := DeviceTheorems.BatchFacts(Monitor, frames).frames;
    forall k | 0 <= k < |frames|
      ensures fs[k].packet == frames[k].packet && fs[k].metadata.identity.timestampUs == frames[k].metadata.timestampUs
    {
      DeviceTheorems.FactsAt(Monitor, frames, k);
      FactsSay(frames[k]);
    }
    SentIsCount(frames, fs, i);
    SentIsCount(frames, fs, |fs|);
    assert fs[..|fs|] == fs && frames[..|frames|] == frames;
    DeviceTheorems.FactsAt(Monitor, frames, i);
    FactsSay(frames[i]);
    PcapTheorems.ExportReadBack(view, q, json, bs, i);
    ViewSays(fs[i]);
    var p := ReadCapture(Stream(bs)).value.packets[PacketCount(fs[..i])];
    SameTimes(q, fs, frames, frames[i].metadata.timestampUs, p.timestamp);
  }
}
