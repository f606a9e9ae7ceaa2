/** The main results about exported captures. */
module PcapTheorems {
  import opened Wire
  import opened RxRecords
  import opened RxBatches
  import opened PcapBlocks
  import opened PcapReader
  import opened PcapExport
  import opened PcapReadback
  import opened PcapEncoder
  import Radiotap

  // -------------------------------------------------------------------- timelines

  /** The relative timeline always fits, starts at zero with the earliest observation
      (metadata-only ones included) and keeps every distance between frames. */
  lemma RelativeTimeline(boot: Text, fs: seq<RxFrame>)
    requires fs != [] && forall i :: 0 <= i < |fs| ==> IsU64(fs[i].metadata.identity.timestampUs)
    ensures var clock := ClockFor(Relative, boot, fs);
            && TimestampsFit(clock, fs)
            && (exists i :: 0 <= i < |fs| && Timestamp(clock, fs[i]) == 0)
            && forall i, j :: 0 <= i < |fs| && 0 <= j < |fs| ==>
                 Timestamp(clock, fs[i]) - Timestamp(clock, fs[j])
                 == fs[i].metadata.identity.timestampUs - fs[j].metadata.identity.timestampUs
  {
    var clock := ClockFor(Relative, boot, fs);
    var i :| 0 <= i < |fs| && fs[i].metadata.identity.timestampUs == Earliest(fs);
    assert Timestamp(clock, fs[i]) == 0;
  }

  /** The clock arguments a caller may give: none for relative time, else two uint64 anchors. */
  predicate ClockArguments(q: Request) {
    if q.relative then q.utc.None? && q.monotonic.None?
    else
      && q.utc.Some? && 0 <= q.utc.value <= 0xFFFF_FFFF_FFFF_FFFF
      && q.monotonic.Some? && 0 <= q.monotonic.value <= 0xFFFF_FFFF_FFFF_FFFF
  }

  /** What a frame observed at `t` is stamped with: with anchors, the UTC anchor plus the
      distance from the monotonic one; else the distance from the earliest of all frames. */
  ghost predicate Stamped(q: Request, fs: seq<RxFrame>, t: int, stamp: int) {
    if q.relative then
      && (forall j :: 0 <= j < |fs| ==> fs[j].metadata.identity.timestampUs >= t - stamp)
      && (exists j :: 0 <= j < |fs| && fs[j].metadata.identity.timestampUs == t - stamp)
    else q.utc.Some? && q.monotonic.Some? && stamp == q.utc.value + t - q.monotonic.value
  }

  lemma ArgumentsChosen(q: Request, fs: seq<RxFrame>)
    requires fs != []
    ensures var mode := ChooseClock(q.relative, q.utc, q.monotonic);
            && (mode.Ok? <==> ClockArguments(q))
            && (mode.Ok? ==>
                  var clock := ClockFor(mode.value, q.boot, fs);
                  && clock.boot == q.boot && (clock.mode.Relative? <==> q.relative)
                  && (!q.relative ==> clock == Clock(Anchored(q.utc.value, q.monotonic.value), q.boot, q.monotonic.value))
                  && forall i :: 0 <= i < |fs| ==> Stamped(q, fs, fs[i].metadata.identity.timestampUs, Timestamp(clock, fs[i])))
  {
    var j :| 0 <= j < |fs| && fs[j].metadata.identity.timestampUs == Earliest(fs);
  }

  // --------------------------------------------------------- when an export succeeds

  /** What one frame needs for its packet to be exported. */
  predicate PacketExports(json: Json, clock: Clock, fs: seq<RxFrame>, i: nat)
    requires i < |fs| && RadioValid(fs[i].metadata.radio)
  {
    var f, p := fs[i], fs[i].metadata.packet;
    f.packet != [] ==>
      var header := |Radiotap.RadiotapBytes(f)|;
      var comment := json(PacketComment(Observe(clock, fs, i)));
      && ((p.fcs == PresentValid || p.fcs == PresentInvalid) && p.captureMode == FullCapture && !p.capture.truncated ==> |f.packet| >= 4)
      && header + f.readable <= U32_MAX
      && |comment| <= 65535
      && |json(InterfaceComment(clock, IdentityOf(f).0, IdentityOf(f).1))| <= 65535
      && header + |f.packet| + Padding(header + |f.packet|) + |comment| + Padding(|comment|) + 40 <= U32_MAX
  }

  lemma {:induction false} DecimalSize(n: nat, digits: nat)
    requires digits >= 1 && n < Pow10(digits)
    ensures |Decimal(n)| <= digits
  {
    if n >= 10 {
      DecimalSize(n / 10, digits - 1);
    }
  }

  function Pow10(n: nat): nat {
    if n == 0 then 1 else 10 * Pow10(n - 1)
  }

  lemma NameSize(id: (nat, nat))
    requires IsU32(id.0) && IsU32(id.1)
    ensures |InterfaceName(id)| <= 52
  {
    hide Decimal;
    assert Pow10(10) == 10 * (10 * (10 * (10 * (10 * Pow10(5)))));
    assert Pow10(5) == 100000;
    DecimalSize(id.0, 10);
    DecimalSize(id.1, 10);
  }

  lemma {:induction false} OptionsSize(os: seq<PcapOption>)
    requires OptionsFit(os)
    ensures |OptionsBytes(os)| <= 65542 * |os|
  {
    hide OptionBytes;
    if os != [] {
      OptionsSize(os[1..]);
      assert OptionFits(os[0]);
    }
  }

  lemma InterfaceIntroduced(json: Json, clock: Clock, ids: Identities, f: RxFrame)
    requires f.packet != [] && IsU32(IdentityOf(f).0) && IsU32(IdentityOf(f).1)
    ensures InterfaceBlocks(json, clock, ids, f).Ok? <==>
            IdentityOf(f) in ids || |json(InterfaceComment(clock, IdentityOf(f).0, IdentityOf(f).1))| <= 65535
  {
    hide InterfaceName, OptionsBytes;
    var id := IdentityOf(f);
    NameSize(id);
    var os := InterfaceOptions(json, clock, id);
    assert os[0].code == 2 && os[1].code == 9 && os[2].code == 1;
    if |json(InterfaceComment(clock, id.0, id.1))| <= 65535 {
      OptionsSize(os);
    } else {
      assert os[2] in os && !OptionFits(os[2]);
    }
  }

  lemma SingleOption(o: PcapOption)
    ensures OptionsFit([o]) <==> OptionFits(o)
    ensures OptionsFit([o]) ==> |OptionsBytes([o])| == 4 + |o.data| + Padding(|o.data|)
  {
    assert o in [o];
    if OptionsFit([o]) {
      assert OptionsBytes([o]) == OptionBytes(o) + OptionsBytes([o][1..]);
    }
  }

  lemma PacketSucceeds(json: Json, clock: Clock, fs: seq<RxFrame>, i: nat, interface: nat)
    requires i < |fs| && RadioValid(fs[i].metadata.radio) && IsU64(Timestamp(clock, fs[i])) && IsU32(interface)
    requires fs[i].packet != [] && |fs[i].packet| <= fs[i].readable
    ensures PacketBlock(json, clock, fs, i, interface).Ok?
            && |json(InterfaceComment(clock, IdentityOf(fs[i]).0, IdentityOf(fs[i]).1))| <= 65535
            <==> PacketExports(json, clock, fs, i)
  {
    hide RadioValid, Radiotap.RadiotapBytes, OptionsBytes, Observe, PacketHead, OptionsFit, Timestamp, Padding;
    var o := PacketOptions(json, clock, fs, i)[0];
    assert PacketOptions(json, clock, fs, i) == [o];
    SingleOption(o);
  }

  /** Frames whose identities already have an interface had an acceptable interface comment. */
  lemma {:induction false} EmissionSucceeds(json: Json, clock: Clock, fs: seq<RxFrame>, n: nat)
    requires n <= |fs| <= 128 && ExportReady(clock, fs)
    requires forall i :: 0 <= i < |fs| ==> FrameValid(Monitor, fs[i])
    ensures EmittedTo(json, clock, fs, n).Ok? <==> forall i :: 0 <= i < n ==> PacketExports(json, clock, fs, i)
    ensures EmittedTo(json, clock, fs, n).Ok? ==>
              forall id :: id in EmittedTo(json, clock, fs, n).value.ids ==> |json(InterfaceComment(clock, id.0, id.1))| <= 65535
  {
    hide FrameValid, EmitFrame, PacketExports, ExportReady;
    if n != 0 {
      EmissionSucceeds(json, clock, fs, n - 1);
      ReadyAt(clock, fs, n - 1);
      if EmittedTo(json, clock, fs, n - 1).Ok? {
        FrameSucceeds(json, clock, fs, n - 1, EmittedTo(json, clock, fs, n - 1).value);
      }
    }
  }

  lemma GenerationsFit(f: RxFrame, kind: Kind)
    requires FrameValid(kind, f)
    ensures IsU32(IdentityOf(f).0) && IsU32(IdentityOf(f).1)
  {
    hide AddressesValid, RadioValid, RawScalarsValid, PacketFits, FrameControlValid, HeaderWordsValid, ParsedValid, CaptureValid;
  }

  lemma FrameSucceeds(json: Json, clock: Clock, fs: seq<RxFrame>, i: nat, before: Emission)
    requires i < |fs| <= 128 && ExportReady(clock, fs) && |before.ids| <= i && FrameValid(Monitor, fs[i])
    requires RadioValid(fs[i].metadata.radio)
    requires forall id :: id in before.ids ==> |json(InterfaceComment(clock, id.0, id.1))| <= 65535
    ensures EmitFrame(json, clock, fs, i, before).Ok? <==> PacketExports(json, clock, fs, i)
    ensures EmitFrame(json, clock, fs, i, before).Ok? ==>
              forall id :: id in EmitFrame(json, clock, fs, i, before).value.ids ==>
                |json(InterfaceComment(clock, id.0, id.1))| <= 65535
  {
    hide FrameValid, PacketBlock, InterfaceBlocks, RadioValid, Timestamp;
    if fs[i].packet != [] {
      var id := IdentityOf(fs[i]);
      var ids := IdsAfter(before.ids, fs[i]);
      assert id in ids;
      ReadyAt(clock, fs, i);
      GenerationsFit(fs[i], Monitor);
      ReadableCovers(Monitor, fs[i]);
      InterfaceIntroduced(json, clock, before.ids, fs[i]);
      PacketSucceeds(json, clock, fs, i, IndexOf(ids, id));
    }
  }

  /** An export succeeds exactly when the boot identity, clock arguments and batch are
      valid, every mapped timestamp fits, every comment fits an option, and every packet
      can be given a header and stays within a block. */
  lemma ExportSucceedsExactlyWhen(view: bytes, q: Request, json: Json)
    ensures ExportOf(view, q, json).Ok? <==>
            && PlanExport(view, q).Ok?
            && var plan := PlanExport(view, q).value;
               && OptionsFit(SectionOptions(json, plan.clock, plan.frames, |plan.frames|))
               && forall i :: 0 <= i < |plan.frames| ==> PacketExports(json, plan.clock, plan.frames, i)
    ensures PlanExport(view, q).Ok? <==>
            && BootIdValid(q.boot) && ClockArguments(q) && ReadBatch(view, Monitor).Ok?
            && var fs := ReadBatch(view, Monitor).value.frames;
               q.relative || forall i :: 0 <= i < |fs| ==>
                 0 <= q.utc.value + fs[i].metadata.identity.timestampUs - q.monotonic.value <= 0xFFFF_FFFF_FFFF_FFFF
  {
    hide ReadBatch, BootIdValid, ChooseClock, ClockFor, Timestamp, RadioValid, FrameValid, PacketExports, EmittedTo, SectionOptions;
    hide OptionsBytes, ClockArguments;
    if ReadBatch(view, Monitor).Ok? {
      BatchReady(view, ReadBatch(view, Monitor).value);
      var fs := ReadBatch(view, Monitor).value.frames;
      ArgumentsChosen(q, fs);
      RelativeFits(q, fs);
    }
    if PlanExport(view, q).Ok? {
      var plan := PlanExport(view, q).value;
      EmissionSucceeds(json, plan.clock, plan.frames, |plan.frames|);
      if OptionsFit(SectionOptions(json, plan.clock, plan.frames, |plan.frames|)) {
        SectionFits(json, plan.clock, plan.frames);
      }
    }
  }

  lemma ObservedU64(f: RxFrame, kind: Kind)
    requires FrameValid(kind, f)
    ensures IsU64(f.metadata.identity.timestampUs)
  {
    hide AddressesValid, RadioValid, RawScalarsValid, PacketFits, FrameControlValid, HeaderWordsValid, ParsedValid, CaptureValid;
  }

  /** Relative time always fits. */
  lemma RelativeFits(q: Request, fs: seq<RxFrame>)
    requires fs != [] && forall i :: 0 <= i < |fs| ==> FrameValid(Monitor, fs[i])
    ensures q.relative && ClockArguments(q) ==>
              && ChooseClock(q.relative, q.utc, q.monotonic).Ok?
              && TimestampsFit(ClockFor(ChooseClock(q.relative, q.utc, q.monotonic).value, q.boot, fs), fs)
  {
    hide FrameValid;
    forall i | 0 <= i < |fs|
      ensures IsU64(fs[i].metadata.identity.timestampUs)
    {
      ObservedU64(fs[i], Monitor);
    }
  }

  lemma SectionFits(json: Json, clock: Clock, fs: seq<RxFrame>)
    requires |fs| <= 128 && OptionsFit(SectionOptions(json, clock, fs, |fs|))
    ensures |SectionBody(json, clock, fs)| + 12 <= U32_MAX
  {
    OptionsSize(SectionOptions(json, clock, fs, |fs|));
  }

  // ------------------------------------------------------------------ end to end

  /** From wire bytes to capture and back: for every accepted Monitor batch that exports,
      an independent reader finds one packet per frame that carries bytes, in frame order,
      and each packet gives back what the decoder found in its frame. */
  lemma ExportReadBack(view: bytes, q: Request, json: Json, bs: seq<Block>, i: nat)
    requires ExportOf(view, q, json) == Ok(bs)
    requires ReadBatch(view, Monitor).Ok? && i < |ReadBatch(view, Monitor).value.frames|
    requires ReadBatch(view, Monitor).value.frames[i].packet != []
    ensures BlocksFit(bs) && ReadCapture(Stream(bs)).Some? && PlanExport(view, q).Ok?
    ensures RadioValid(ReadBatch(view, Monitor).value.frames[i].metadata.radio)
    ensures var c, fs, clock := ReadCapture(Stream(bs)).value, ReadBatch(view, Monitor).value.frames, PlanExport(view, q).value.clock;
            var f, k := fs[i], PacketCount(fs[..i]);
            && |c.packets| == PacketCount(fs) && k < |c.packets|
            && var p := c.packets[k];
               && p.interface < |c.interfaces| && c.interfaces[p.interface].Name() == InterfaceName(IdentityOf(f))
               && p.timestamp == Timestamp(clock, f) && p.packet == f.packet
               && Radiotap.ViewOf(p.radiotap.fields) == Radiotap.Expected(f)
               && p.captured == p.radiotap.length + |f.packet| && p.original == p.radiotap.length + f.readable
               && p.captured <= p.original
               && Stamped(q, fs, f.metadata.identity.timestampUs, p.timestamp)
  {
    hide CaptureBlocks, ReadCapture, ReadBatch, Stream, PacketCount, FrameValid, RadioValid, InterfaceName, TimestampsFit;
    hide Radiotap.ViewOf, Radiotap.Expected, BlockFits, ExportReady, Stamped, ChooseClock, ClockFor, Timestamp, BootIdValid;
    var plan := PlanExport(view, q).value;
    BatchReady(view, ReadBatch(view, Monitor).value);
    ArgumentsChosen(q, plan.frames);
    FrameReadBack(json, plan.clock, plan.frames, bs, Monitor, i);
  }

  /** Frames without packet bytes are reported in the section header, never as packets. */
  lemma MetadataOnlyReported(view: bytes, q: Request, json: Json, bs: seq<Block>, i: nat)
    requires ExportOf(view, q, json) == Ok(bs) && i < |PlanExport(view, q).value.frames|
    requires PlanExport(view, q).value.frames[i].packet == []
    ensures BlocksFit(bs) && ReadCapture(Stream(bs)).Some?
    ensures var plan := PlanExport(view, q).value;
            CommentOption(json, MetadataOnly(Observe(plan.clock, plan.frames, i))) in ReadCapture(Stream(bs)).value.section
  {
    hide CaptureBlocks, ReadCapture, ReadBatch, Stream, PacketCount, FrameValid, RadioValid, TimestampsFit, Observe, BlockFits;
    hide ExportReady, PlanExport;
    var plan := PlanExport(view, q).value;
    CaptureReadBack(json, plan.clock, plan.frames, bs);
    CommentListed(json, plan.clock, plan.frames, |plan.frames|, i);
  }

  lemma {:induction false} CommentListed(json: Json, clock: Clock, fs: seq<RxFrame>, n: nat, i: nat)
    requires i < n <= |fs| && fs[i].packet == []
    ensures CommentOption(json, MetadataOnly(Observe(clock, fs, i))) in SectionOptions(json, clock, fs, n)
  {
    hide Observe, PacketCount;
    if i < n - 1 {
      CommentListed(json, clock, fs, n - 1, i);
    }
  }
}
