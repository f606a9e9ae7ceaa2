/** How the firmware hands a batch out: one span per call, never copying a payload
    (`wifi_csi_wire_source_next`, `monitor_wire_source_next`). */
module DeviceStreams {
  import opened Wire
  import opened RxRecords
  import opened RxBatches
  import opened DeviceSource

  /** The payload of the frames from `i` on; `packetOnly` if the CSI span of the first is gone. */
  function PayloadLeft(frames: seq<DeviceFrame>, i: nat, packetOnly: bool): (s: bytes)
    requires i <= |frames| && (packetOnly ==> i < |frames|)
    decreases |frames| - i, !packetOnly
  {
    if i == |frames| then []
    else if packetOnly then Padded(frames[i].packet) + PayloadLeft(frames, i + 1, false)
    else Padded(frames[i].csi) + PayloadLeft(frames, i, true)
  }

  /** The packets of the frames from `i` on. */
  function PacketsLeft(frames: seq<DeviceFrame>, i: nat): (s: bytes)
    requires i <= |frames|
    decreases |frames| - i
  {
    if i == |frames| then [] else Padded(frames[i].packet) + PacketsLeft(frames, i + 1)
  }

  lemma ZerosNone(s: bytes)
    ensures Zeros(0) + s == s
  {
  }

  lemma SpanThenPadding(s: bytes, rest: bytes)
    ensures Padding(|s|) <= 3 && Padded(s) + rest == s + (Zeros(Padding(|s|)) + rest)
  {
  }

  lemma EmptySpan(rest: bytes)
    ensures Padded([]) + rest == rest
  {
    assert Padded([]) == [];
  }

  /** `wifi_csi_wire_source_t`: control first, then CSI and packet of each frame, each with
      its padding; `packetPending` says which of the two comes next. */
  class CsiSource {
    const control: bytes
    const frames: seq<DeviceFrame>
    var controlEmitted: bool
    var paddingPending: nat
    var payloadIndex: nat
    var packetPending: bool

    constructor (control: bytes, frames: seq<DeviceFrame>)
      ensures this.control == control && this.frames == frames
      ensures Valid() && Remaining() == control + PayloadLeft(frames, 0, false)
    {
      this.control := control;
      this.frames := frames;
      controlEmitted, paddingPending, payloadIndex, packetPending := false, 0, 0, false;
    }

    ghost predicate Valid()
      reads this
    {
      && payloadIndex <= |frames| && (packetPending ==> payloadIndex < |frames|) && paddingPending <= 3
      && (!controlEmitted ==> paddingPending == 0 && payloadIndex == 0 && !packetPending)
    }

    /** What has not been handed out yet. */
    ghost function Remaining(): bytes
      requires Valid()
      reads this
    {
      if controlEmitted then Zeros(paddingPending) + PayloadLeft(frames, payloadIndex, packetPending)
      else control + PayloadLeft(frames, 0, false)
    }

    /** An upper bound on the calls still to come. */
    ghost function Calls(): nat
      requires Valid()
      reads this
    {
      (if controlEmitted then 0 else 1) + (if paddingPending > 0 then 1 else 0) + 4 * (|frames| - payloadIndex)
      - (if packetPending then 2 else 0)
    }

    /** Nothing is lost, repeated or reordered by a call, and the calls come to an end. A call
        fails only at a slot that is gone, and then hands out nothing. */
    method Next(live: nat -> bool) returns (r: Result<Option<bytes>>)
      requires Valid()
      modifies this
      ensures Valid() && Calls() <= old(Calls())
      ensures r.Ok? && r.value.Some? ==> old(Remaining()) == r.value.value + Remaining() && Calls() < old(Calls())
      ensures r.Ok? && r.value.None? ==> old(Remaining()) == [] && Remaining() == []
      ensures r.Err? ==> Remaining() == old(Remaining()) && exists i :: 0 <= i < |frames| && !live(i)
    {
      hide Zeros, PayloadLeft;
      ZerosNone(PayloadLeft(frames, payloadIndex, packetPending));
      if !controlEmitted {
        controlEmitted := true;
        return Ok(Some(control));
      }
      if paddingPending != 0 {
        var padding := Zeros(paddingPending);
        paddingPending := 0;
        return Ok(Some(padding));
      }
      r := NextPayload(live);
    }

    /** The loop of `Next`; an empty packet has no span. */
    method NextPayload(live: nat -> bool) returns (r: Result<Option<bytes>>)
      requires Valid() && controlEmitted && paddingPending == 0
      modifies this`paddingPending, this`payloadIndex, this`packetPending
      ensures Valid() && Calls() <= old(Calls())
      ensures r.Ok? && r.value.Some? ==> old(Remaining()) == r.value.value + Remaining() && Calls() < old(Calls())
      ensures r.Ok? && r.value.None? ==> old(Remaining()) == [] && Remaining() == []
      ensures r.Err? ==> Remaining() == old(Remaining()) && exists i :: 0 <= i < |frames| && !live(i)
    {
      hide Zeros, Padded;
      ghost var left := PayloadLeft(frames, payloadIndex, packetPending);
      ZerosNone(left);
      while payloadIndex < |frames|
        invariant Valid() && paddingPending == 0 && Calls() <= old(Calls())
        invariant PayloadLeft(frames, payloadIndex, packetPending) == left
        decreases |frames| - payloadIndex, !packetPending
      {
        if !live(payloadIndex) {
          return Err;
        }
        var contents := if packetPending then frames[payloadIndex].packet else frames[payloadIndex].csi;
        if !packetPending {
          packetPending := true;
        } else {
          payloadIndex := payloadIndex + 1;
          packetPending := false;
          if contents == [] {
            EmptySpan(PayloadLeft(frames, payloadIndex, false));
            continue;
          }
        }
        paddingPending := Padding(|contents|);
        SpanThenPadding(contents, PayloadLeft(frames, payloadIndex, packetPending));
        return Ok(Some(contents));
      }
      ZerosNone([]);
      return Ok(None);
    }
  }

  /** `monitor_wire_source_t`: control first, then the nonempty packets with their padding. */
  class MonitorSource {
    const control: bytes
    const frames: seq<DeviceFrame>
    var controlEmitted: bool
    var paddingPending: nat
    var index: nat

    constructor (control: bytes, frames: seq<DeviceFrame>)
      ensures this.control == control && this.frames == frames
      ensures Valid() && Remaining() == control + PacketsLeft(frames, 0)
    {
      this.control := control;
      this.frames := frames;
      controlEmitted, paddingPending, index := false, 0, 0;
    }

    ghost predicate Valid()
      reads this
    {
      index <= |frames| && paddingPending <= 3 && (!controlEmitted ==> paddingPending == 0 && index == 0)
    }

    ghost function Remaining(): bytes
      requires Valid()
      reads this
    {
      if controlEmitted then Zeros(paddingPending) + PacketsLeft(frames, index) else control + PacketsLeft(frames, 0)
    }

    ghost function Calls(): nat
      requires Valid()
      reads this
    {
      (if controlEmitted then 0 else 1) + (if paddingPending > 0 then 1 else 0) + 2 * (|frames| - index)
    }

    method Next(live: nat -> bool) returns (r: Result<Option<bytes>>)
      requires Valid()
      modifies this
      ensures Valid() && Calls() <= old(Calls())
      ensures r.Ok? && r.value.Some? ==> old(Remaining()) == r.value.value + Remaining() && Calls() < old(Calls())
      ensures r.Ok? && r.value.None? ==> old(Remaining()) == [] && Remaining() == []
      ensures r.Err? ==> Remaining() == old(Remaining()) && exists i :: 0 <= i < |frames| && !live(i)
    {
      hide Zeros, PacketsLeft;
      ZerosNone(PacketsLeft(frames, index));
      if !controlEmitted {
        controlEmitted := true;
        return Ok(Some(control));
      }
      if paddingPending != 0 {
        var padding := Zeros(paddingPending);
        paddingPending := 0;
        return Ok(Some(padding));
      }
      r := NextPacket(live);
    }

    /** The loop of `Next`; a record without a packet has no span. */
    method NextPacket(live: nat -> bool) returns (r: Result<Option<bytes>>)
      requires Valid() && controlEmitted && paddingPending == 0
      modifies this`paddingPending, this`index
      ensures Valid() && Calls() <= old(Calls())
      ensures r.Ok? && r.value.Some? ==> old(Remaining()) == r.value.value + Remaining() && Calls() < old(Calls())
      ensures r.Ok? && r.value.None? ==> old(Remaining()) == [] && Remaining() == []
      ensures r.Err? ==> Remaining() == old(Remaining()) && exists i :: 0 <= i < |frames| && !live(i)
    {
      hide Zeros, Padded;
      ZerosNone(PacketsLeft(frames, index));
      while index < |frames|
        invariant Valid() && paddingPending == 0 && Calls() <= old(Calls())
        invariant PacketsLeft(frames, index) == old(PacketsLeft(frames, index))
      {
        if !live(index) {
          return Err;
        }
        var contents := frames[index].packet;
        index := index + 1;
        if contents == [] {
          EmptySpan(PacketsLeft(frames, index));
          continue;
        }
        paddingPending := Padding(|contents|);
        SpanThenPadding(contents, PacketsLeft(frames, index));
        return Ok(Some(contents));
      }
      ZerosNone([]);
      return Ok(None);
    }
  }

  // ------------------------------------------------------------- the whole stream

  lemma Grouped(a: bytes, b: bytes, c: bytes)
    ensures a + (b + c) == (a + b) + c
  {
  }

  /** Everything the source has left, span after span, while every slot is there. */
  method CollectCsi(source: CsiSource) returns (all: bytes)
    requires source.Valid()
    modifies source
    ensures all == old(source.Remaining())
  {
    hide PayloadLeft, Zeros, Padded, CsiSource.Remaining;
    all := [];
    var more := true;
    while more
      invariant source.Valid() && old(source.Remaining()) == all + source.Remaining()
      invariant !more ==> source.Remaining() == []
      decreases source.Calls(), more
    {
      var span := source.Next(_ => true);
      match span.value
      case Some(contents) =>
        Grouped(all, contents, source.Remaining());
        all := all + contents;
      case None =>
        more := false;
    }
  }

  method CollectMonitor(source: MonitorSource) returns (all: bytes)
    requires source.Valid()
    modifies source
    ensures all == old(source.Remaining())
  {
    hide PacketsLeft, Zeros, Padded, MonitorSource.Remaining;
    all := [];
    var more := true;
    while more
      invariant source.Valid() && old(source.Remaining()) == all + source.Remaining()
      invariant !more ==> source.Remaining() == []
      decreases source.Calls(), more
    {
      var span := source.Next(_ => true);
      match span.value
      case Some(contents) =>
        Grouped(all, contents, source.Remaining());
        all := all + contents;
      case None =>
        more := false;
    }
  }
}
