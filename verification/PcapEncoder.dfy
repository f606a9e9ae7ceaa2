/** `encode_monitor_pcapng` in the source's own form, and what holds of every capture it
    returns (scripts/capture/pcapng.py). */
module PcapEncoder {
  import opened Wire
  import opened RxRecords
  import opened RxBatches
  import opened RxCanonical
  import opened RxProperties
  import opened RxDecoder
  import opened PcapBlocks
  import opened PcapExport
  import opened PcapReadback
  import Radiotap

  // -------------------------------------------------------------- as a function

  lemma FrameRadio(kind: Kind, f: RxFrame)
    requires FrameValid(kind, f)
    ensures RadioValid(f.metadata.radio)
  {
  }

  lemma BatchReady(view: bytes, b: RxBatch)
    requires ReadBatch(view, Monitor) == Ok(b)
    ensures 1 <= |b.frames| <= 128
    ensures forall i :: 0 <= i < |b.frames| ==> FrameValid(Monitor, b.frames[i]) && RadioValid(b.frames[i].metadata.radio)
  {
    hide ReadBatch, FrameValid, RadioValid, FramesValid;
    ReadSound(view, Monitor, b);
    forall i | 0 <= i < |b.frames|
      ensures FrameValid(Monitor, b.frames[i]) && RadioValid(b.frames[i].metadata.radio)
    {
      FramesEach(Monitor, b.frames, i);
      FrameRadio(Monitor, b.frames[i]);
    }
  }

  datatype Request = Request(boot: Text, relative: bool, utc: Option<int>, monotonic: Option<int>)

  datatype Plan = Plan(clock: Clock, frames: seq<RxFrame>)

  /** Everything that is decided before the first byte of output. */
  function PlanExport(view: bytes, q: Request): (r: Result<Plan>)
    ensures r.Ok? ==> 1 <= |r.value.frames| <= 128 && ExportReady(r.value.clock, r.value.frames)
    ensures r.Ok? ==> ReadBatch(view, Monitor).Ok? && r.value.frames == ReadBatch(view, Monitor).value.frames
  {
    hide ReadBatch, RadioValid, FrameValid, Timestamp;
    :- Require(BootIdValid(q.boot));
    var mode :- ChooseClock(q.relative, q.utc, q.monotonic);
    var batch :- ReadBatch(view, Monitor);
    BatchReady(view, batch);
    var clock := ClockFor(mode, q.boot, batch.frames);
    :- Require(TimestampsFit(clock, batch.frames));
    Ok(Plan(clock, batch.frames))
  }

  function ExportOf(view: bytes, q: Request, json: Json): Result<seq<Block>> {
    var plan :- PlanExport(view, q);
    CaptureBlocks(json, plan.clock, plan.frames)
  }

  // ------------------------------------------------------- in the source's form

  /** The `interfaces` dictionary numbers identities by first appearance. */
  ghost predicate Numbered(interfaces: map<(nat, nat), nat>, ids: Identities) {
    && |interfaces| == |ids|
    && (forall id :: id in interfaces <==> id in ids)
    && (forall id :: id in ids ==> interfaces[id] == IndexOf(ids, id))
  }

  lemma {:induction false} IndexAppend(ids: Identities, new_: (nat, nat), id: (nat, nat))
    requires new_ !in ids && id in ids + [new_]
    ensures IndexOf(ids + [new_], id) == if id == new_ then |ids| else IndexOf(ids, id)
  {
    if ids != [] && ids[0] != id {
      assert (ids + [new_])[1..] == ids[1..] + [new_];
      IndexAppend(ids[1..], new_, id);
    }
  }

  lemma NumberedAppend(interfaces: map<(nat, nat), nat>, ids: Identities, id: (nat, nat))
    requires Numbered(interfaces, ids) && id !in ids
    ensures Numbered(interfaces[id := |interfaces|], ids + [id])
  {
    var after, all := interfaces[id := |interfaces|], ids + [id];
    assert after.Keys == interfaces.Keys + {id};
    forall x | x in all
      ensures after[x] == IndexOf(all, x)
    {
      IndexAppend(ids, id, x);
    }
  }

  method MappedTimestamps(clock: Clock, fs: seq<RxFrame>) returns (r: Result<seq<nat>>)
    ensures r.Ok? <==> TimestampsFit(clock, fs)
    ensures r.Ok? ==> |r.value| == |fs| && forall i :: 0 <= i < |fs| ==> r.value[i] == Timestamp(clock, fs[i])
  {
    var timestamps: seq<nat> := [];
    for i := 0 to |fs|
      invariant |timestamps| == i
      invariant forall k :: 0 <= k < i ==> timestamps[k] == Timestamp(clock, fs[k]) && IsU64(timestamps[k])
    {
      var mapped := Timestamp(clock, fs[i]);
      if !IsU64(mapped) {
        return Err;
      }
      timestamps := timestamps + [mapped];
    }
    return Ok(timestamps);
  }

  lemma OptionsAppend(a: seq<PcapOption>, o: PcapOption)
    requires OptionsFit(a) && OptionFits(o)
    ensures OptionsFit(a + [o]) && OptionsBytes(a + [o]) == OptionsBytes(a) + OptionBytes(o)
    decreases |a|
  {
    hide OptionBytes;
    if a == [] {
      assert [o][1..] == [];
      assert OptionsBytes([o]) == OptionBytes(o) + OptionsBytes([]);
      assert a + [o] == [o];
    } else {
      OptionsAppend(a[1..], o);
      assert (a + [o])[1..] == a[1..] + [o];
    }
  }

  /** The section's comments: one for the capture, one for every frame without a packet. */
  method SectionComments(json: Json, clock: Clock, fs: seq<RxFrame>) returns (r: Result<bytes>)
    ensures r.Ok? <==> OptionsFit(SectionOptions(json, clock, fs, |fs|))
    ensures r.Ok? ==> r.value == OptionsBytes(SectionOptions(json, clock, fs, |fs|))
  {
    hide OptionBytes, PacketCount, Observe, OptionsBytes;
    var first := CommentOption(json, SectionComment(clock, |fs|, PacketCount(fs)));
    assert SectionOptions(json, clock, fs, 0) == [first];
    if |first.data| > 65535 {
      CommentTooLong(json, clock, fs, 0, |fs|, first);
      return Err;
    }
    NoOptions();
    OptionsAppend([], first);
    assert [] + [first] == [first];
    var options: bytes := OptionBytes(first);
    for i := 0 to |fs|
      invariant OptionsFit(SectionOptions(json, clock, fs, i))
      invariant options == OptionsBytes(SectionOptions(json, clock, fs, i))
    {
      if fs[i].packet == [] {
        var o := CommentOption(json, MetadataOnly(Observe(clock, fs, i)));
        assert SectionOptions(json, clock, fs, i + 1) == SectionOptions(json, clock, fs, i) + [o];
        if |o.data| > 65535 {
          CommentTooLong(json, clock, fs, i + 1, |fs|, o);
          return Err;
        }
        OptionsAppend(SectionOptions(json, clock, fs, i), o);
        options := options + OptionBytes(o);
      } else {
        assert SectionOptions(json, clock, fs, i + 1) == SectionOptions(json, clock, fs, i);
      }
    }
    return Ok(options);
  }

  lemma NoOptions()
    ensures OptionsBytes([]) == []
  {
  }

  lemma {:induction false} CommentTooLong(json: Json, clock: Clock, fs: seq<RxFrame>, m: nat, n: nat, o: PcapOption)
    requires m <= n <= |fs| && o in SectionOptions(json, clock, fs, m) && |o.data| > 65535
    ensures o in SectionOptions(json, clock, fs, n) && !OptionsFit(SectionOptions(json, clock, fs, n))
  {
    hide CommentOption, PacketCount, Observe;
    if m < n {
      CommentTooLong(json, clock, fs, m, n - 1, o);
    }
  }

  lemma {:induction false} EmissionStuck(json: Json, clock: Clock, fs: seq<RxFrame>, m: nat, n: nat)
    requires m <= n <= |fs| <= 128 && ExportReady(clock, fs) && EmittedTo(json, clock, fs, m).Err?
    ensures EmittedTo(json, clock, fs, n).Err?
  {
    hide EmitFrame, ExportReady;
    if m < n {
      EmissionStuck(json, clock, fs, m, n - 1);
    }
  }

  lemma StreamExtend(a: seq<Block>, b: Block)
    requires BlocksFit(a) && BlockFits(b)
    ensures BlocksFit(a + [b]) && Stream(a + [b]) == Stream(a) + BlockBytes(b)
  {
    hide BlockBytes, Stream, BlockFits;
    StreamAppend(a, [b]);
    StreamOne(b);
  }

  /** The interface a packet uses; described first if its identity is new. */
  method Introduce(json: Json, clock: Clock, f: RxFrame, interfaces: map<(nat, nat), nat>, ghost ids: Identities)
    returns (r: Result<bytes>, after: map<(nat, nat), nat>)
    requires Numbered(interfaces, ids) && f.packet != []
    ensures r.Ok? <==> InterfaceBlocks(json, clock, ids, f).Ok?
    ensures r.Ok? ==> var introduced := InterfaceBlocks(json, clock, ids, f).value;
                      BlocksFit(introduced) && r.value == Stream(introduced)
    ensures r.Ok? ==> Numbered(after, IdsAfter(ids, f)) && IdentityOf(f) in after
  {
    hide InterfaceOptions, BlockBytes, Numbered, InterfaceBody;
    var id := IdentityOf(f);
    after := interfaces;
    NumberedKeys(interfaces, ids, id);
    if id in interfaces {
      return Ok([]), after;
    }
    after := interfaces[id := |interfaces|];
    NumberedAppend(interfaces, ids, id);
    NumberedKeys(after, ids + [id], id);
    var os := InterfaceOptions(json, clock, id);
    if exists k :: 0 <= k < |os| && !OptionFits(os[k]) {
      return Err, after;
    }
    var body := InterfaceBody(json, clock, id);
    if |body| + 12 > U32_MAX {
      return Err, after;
    }
    StreamOne(Block(IDB, body));
    return Ok(BlockBytes(Block(IDB, body))), after;
  }

  lemma NumberedKeys(interfaces: map<(nat, nat), nat>, ids: Identities, id: (nat, nat))
    requires Numbered(interfaces, ids)
    ensures id in interfaces <==> id in ids
    ensures id in ids ==> interfaces[id] == IndexOf(ids, id)
  {
  }

  /** The block of one packet. */
  method PacketBytesOf(json: Json, clock: Clock, fs: seq<RxFrame>, i: nat, interface: nat, timestamp: nat)
    returns (r: Result<bytes>)
    requires i < |fs| && RadioValid(fs[i].metadata.radio) && IsU64(timestamp) && timestamp == Timestamp(clock, fs[i])
    requires IsU32(interface)
    ensures r.Ok? <==> PacketBlock(json, clock, fs, i, interface).Ok?
    ensures r.Ok? ==> var b := PacketBlock(json, clock, fs, i, interface).value; BlockFits(b) && r.value == BlockBytes(b)
  {
    hide PacketOptions, BlockBytes, RadioValid, Radiotap.RadiotapBytes, PacketHead, OptionsBytes, Padded, Timestamp;
    hide Radiotap.Encodable;
    var f := fs[i];
    var radiotap := Radiotap.MakeRadiotap(f);
    if radiotap.Err? {
      return Err;
    }
    var captured, original := |radiotap.value| + |f.packet|, |radiotap.value| + f.readable;
    if captured > U32_MAX || original > U32_MAX {
      return Err;
    }
    var os := PacketOptions(json, clock, fs, i);
    if exists k :: 0 <= k < |os| && !OptionFits(os[k]) {
      return Err;
    }
    var payload := radiotap.value + f.packet;
    var body := PacketHead(interface, timestamp, captured, original) + (Padded(payload) + (OptionsBytes(os) + END_MARK));
    assert body == PacketBody(json, clock, fs, i, interface, payload, original);
    if |body| + 12 > U32_MAX {
      return Err;
    }
    return Ok(BlockBytes(Block(EPB, body)));
  }

  lemma EmissionStep(json: Json, clock: Clock, fs: seq<RxFrame>, i: nat, before: Emission)
    requires i < |fs| <= 128 && ExportReady(clock, fs) && |before.ids| <= i && EmittedTo(json, clock, fs, i) == Ok(before)
    ensures EmittedTo(json, clock, fs, i + 1) == EmitFrame(json, clock, fs, i, before)
  {
    hide EmitFrame, ExportReady;
  }

  /** The main loop: blocks appended to the result, interfaces numbered on the way. */
  method PacketStream(json: Json, clock: Clock, fs: seq<RxFrame>, timestamps: seq<nat>) returns (r: Result<bytes>)
    requires |fs| <= 128 && ExportReady(clock, fs)
    requires |timestamps| == |fs| && forall i :: 0 <= i < |fs| ==> timestamps[i] == Timestamp(clock, fs[i])
    ensures r.Ok? <==> EmittedTo(json, clock, fs, |fs|).Ok?
    ensures r.Ok? ==> var bs := EmittedTo(json, clock, fs, |fs|).value.blocks; BlocksFit(bs) && r.value == Stream(bs)
  {
    hide EmittedTo, ExportReady, InterfaceBlocks, PacketBlock, Numbered, Stream, BlockBytes, RadioValid, Timestamp, BlockFits;
    var result: bytes := [];
    var interfaces: map<(nat, nat), nat> := map[];
    ghost var e := Emission([], []);
    StartOfStream(json, clock, fs);
    for i := 0 to |fs|
      invariant |e.ids| <= i && Numbered(interfaces, e.ids)
      invariant EmittedTo(json, clock, fs, i) == Ok(e)
      invariant BlocksFit(e.blocks) && result == Stream(e.blocks)
    {
      EmissionStep(json, clock, fs, i, e);
      if fs[i].packet == [] {
        continue;
      }
      ReadyAt(clock, fs, i);
      var introduced, after := Introduce(json, clock, fs[i], interfaces, e.ids);
      if introduced.Err? {
        EmissionStuck(json, clock, fs, i + 1, |fs|);
        return Err;
      }
      NumberedKeys(after, IdsAfter(e.ids, fs[i]), IdentityOf(fs[i]));
      var packet := PacketBytesOf(json, clock, fs, i, after[IdentityOf(fs[i])], timestamps[i]);
      if packet.Err? {
        EmissionStuck(json, clock, fs, i + 1, |fs|);
        return Err;
      }
      ghost var blocks := InterfaceBlocks(json, clock, e.ids, fs[i]).value;
      ghost var block := PacketBlock(json, clock, fs, i, after[IdentityOf(fs[i])]).value;
      StreamBoth(e.blocks, blocks, block);
      result := result + introduced.value + packet.value;
      interfaces := after;
      e := EmitFrame(json, clock, fs, i, e).value;
    }
    return Ok(result);
  }

  lemma StartOfStream(json: Json, clock: Clock, fs: seq<RxFrame>)
    requires |fs| <= 128 && ExportReady(clock, fs)
    ensures EmittedTo(json, clock, fs, 0) == Ok(Emission([], []))
    ensures Numbered(map[], []) && Stream([]) == []
  {
    hide ExportReady;
  }

  lemma StreamBoth(a: seq<Block>, b: seq<Block>, c: Block)
    requires BlocksFit(a) && BlocksFit(b) && BlockFits(c)
    ensures BlocksFit(a + b + [c]) && Stream(a + b + [c]) == Stream(a) + Stream(b) + BlockBytes(c)
  {
    hide BlockBytes, Stream, BlockFits;
    StreamAppend(a, b);
    StreamExtend(a + b, c);
  }

  /** `encode_monitor_pcapng`: no partial output; the bytes are exactly the blocks of the export. */
  method EncodeMonitorPcapng(data: array<byte>, q: Request, json: Json) returns (r: Result<bytes>)
    ensures r.Ok? <==> ExportOf(data[..], q, json).Ok?
    ensures r.Ok? ==> var bs := ExportOf(data[..], q, json).value; BlocksFit(bs) && r.value == Stream(bs)
  {
    hide EmittedTo, Stream, BlockBytes, BootIdValid, ReadBatch, RadioValid, BatchValid, BatchBytes, FrameValid, SectionOptions;
    hide OptionsBytes, ExportReady, TimestampsFit, Timestamp, BlockFits;
    if !BootIdValid(q.boot) {
      return Err;
    }
    if q.relative {
      if q.utc.Some? || q.monotonic.Some? {
        return Err;
      }
    } else if q.utc.None? || q.monotonic.None? {
      return Err;
    } else if !IsU64(q.utc.value) || !IsU64(q.monotonic.value) {
      return Err;
    }
    var parsed := ParseRxBatch(data, Monitor);
    if parsed.Err? {
      return Err;
    }
    var frames := parsed.value.frames;
    BatchReady(data[..], parsed.value);
    var clock := if q.relative then Clock(Relative, q.boot, Earliest(frames))
                 else Clock(Anchored(q.utc.value, q.monotonic.value), q.boot, q.monotonic.value);
    var timestamps := MappedTimestamps(clock, frames);
    if timestamps.Err? {
      return Err;
    }
    assert PlanExport(data[..], q) == Ok(Plan(clock, frames));
    r := AllBlocks(json, clock, frames, timestamps.value);
  }

  /** Section header block, then the packet stream. */
  method AllBlocks(json: Json, clock: Clock, fs: seq<RxFrame>, timestamps: seq<nat>) returns (r: Result<bytes>)
    requires |fs| <= 128 && ExportReady(clock, fs)
    requires |timestamps| == |fs| && forall i :: 0 <= i < |fs| ==> timestamps[i] == Timestamp(clock, fs[i])
    ensures r.Ok? <==> CaptureBlocks(json, clock, fs).Ok?
    ensures r.Ok? ==> var bs := CaptureBlocks(json, clock, fs).value; BlocksFit(bs) && r.value == Stream(bs)
  {
    hide EmittedTo, BlockBytes, SectionOptions, OptionsBytes, ExportReady, Timestamp, Stream;
    var comments := SectionComments(json, clock, fs);
    if comments.Err? {
      return Err;
    }
    var body := SHB_HEAD + (comments.value + END_MARK);
    assert body == SectionBody(json, clock, fs);
    if |body| + 12 > U32_MAX {
      return Err;
    }
    var packets := PacketStream(json, clock, fs, timestamps);
    if packets.Err? {
      return Err;
    }
    ghost var e := EmittedTo(json, clock, fs, |fs|).value;
    StreamAppend([Block(SHB, body)], e.blocks);
    StreamOne(Block(SHB, body));
    return Ok(BlockBytes(Block(SHB, body)) + packets.value);
  }
}
