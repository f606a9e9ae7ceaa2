/** The exporter of scripts/capture/pcapng.py `encode_monitor_pcapng`: one section header,
    one interface per distinct (generation, radio generation) at its first packet, one
    enhanced packet block per frame that carries packet bytes. */
module PcapExport {
  import opened Wire
  import opened RxRecords
  import opened RxBatches
  import opened RxDecoder
  import opened Radiotap
  import opened PcapBlocks

  // ------------------------------------------------------------------ arguments

  /** A Python string as its code points. */
  type Text = seq<nat>

  /** UTF-8 size of a code point; surrogates cannot be encoded. */
  function Utf8Size(c: nat): Option<nat> {
    if 0xD800 <= c < 0xE000 || c > 0x10_FFFF then None
    else if c < 0x80 then Some(1)
    else if c < 0x800 then Some(2)
    else if c < 0x1_0000 then Some(3)
    else Some(4)
  }

  function Utf8Length(t: Text): Option<nat> {
    if t == [] then Some(0)
    else
      var head, tail := Utf8Size(t[0]), Utf8Length(t[1..]);
      if head.None? || tail.None? then None else Some(head.value + tail.value)
  }

  predicate BootIdValid(boot: Text) {
    && Utf8Length(boot).Some? && 1 <= Utf8Length(boot).value <= 256
    && forall i :: 0 <= i < |boot| ==> boot[i] >= 32 && boot[i] != 127
  }

  datatype ClockMode = Relative | Anchored(utc: nat, monotonic: nat)

  /** Relative time and anchors exclude each other; anchors come in pairs and are uint64. */
  function ChooseClock(relative: bool, utc: Option<int>, monotonic: Option<int>): Result<ClockMode> {
    if relative then
      :- Require(utc.None? && monotonic.None?);
      Ok(Relative)
    else
      :- Require(utc.Some? && monotonic.Some?);
      :- Require(IsU64(utc.value));
      :- Require(IsU64(monotonic.value));
      Ok(Anchored(utc.value, monotonic.value))
  }

  datatype Clock = Clock(mode: ClockMode, boot: Text, origin: nat) {
    function Base(): nat { if mode.Relative? then 0 else mode.utc }
  }

  function Earliest(fs: seq<RxFrame>): (t: nat)
    requires fs != []
    ensures exists i :: 0 <= i < |fs| && fs[i].metadata.identity.timestampUs == t
    ensures forall i :: 0 <= i < |fs| ==> t <= fs[i].metadata.identity.timestampUs
  {
    var last := fs[|fs| - 1].metadata.identity.timestampUs;
    if |fs| == 1 then last
    else
      var before := Earliest(fs[..|fs| - 1]);
      if before <= last then before else last
  }

  function ClockFor(mode: ClockMode, boot: Text, fs: seq<RxFrame>): Clock
    requires fs != []
  {
    Clock(mode, boot, if mode.Relative? then Earliest(fs) else mode.monotonic)
  }

  /** The mapped timestamp; it has to fit a uint64. */
  function Timestamp(clock: Clock, f: RxFrame): int {
    clock.Base() + f.metadata.identity.timestampUs - clock.origin
  }

  predicate TimestampsFit(clock: Clock, fs: seq<RxFrame>) {
    forall i :: 0 <= i < |fs| ==> IsU64(Timestamp(clock, fs[i]))
  }

  // ------------------------------------------------------------------- comments

  datatype Observation = Observation(index: nat, clock: Clock, timestampUs: int, metadata: RxMetadata,
                                     packetBytes: nat, readable: nat, headerPrefix: nat)

  /** The values the source serialises with `json.dumps`. */
  datatype Comment =
    | SectionComment(clock: Clock, observations: nat, packets: nat)
    | MetadataOnly(observation: Observation)
    | InterfaceComment(clock: Clock, generation: nat, radioGeneration: nat)
    | PacketComment(observation: Observation)

  /** JSON text is opaque here: any function from comments to bytes. */
  type Json = Comment -> bytes

  function Observe(clock: Clock, fs: seq<RxFrame>, i: nat): Observation
    requires i < |fs|
  {
    var f := fs[i];
    Observation(i, clock, Timestamp(clock, f), f.metadata, |f.packet|, f.readable, f.headerPrefix)
  }

  function CommentOption(json: Json, c: Comment): PcapOption {
    PcapOption(1, json(c))
  }

  function PacketCount(fs: seq<RxFrame>): nat {
    if fs == [] then 0 else PacketCount(fs[..|fs| - 1]) + if fs[|fs| - 1].packet == [] then 0 else 1
  }

  /** One comment for each of the first `n` frames that carries no packet. */
  function MetadataOnlyOptions(json: Json, clock: Clock, fs: seq<RxFrame>, n: nat): (os: seq<PcapOption>)
    requires n <= |fs|
    ensures |os| <= n
  {
    if n == 0 then []
    else
      MetadataOnlyOptions(json, clock, fs, n - 1)
      + if fs[n - 1].packet == [] then [CommentOption(json, MetadataOnly(Observe(clock, fs, n - 1)))] else []
  }

  function SectionOptions(json: Json, clock: Clock, fs: seq<RxFrame>, n: nat): seq<PcapOption>
    requires n <= |fs|
  {
    [CommentOption(json, SectionComment(clock, |fs|, PacketCount(fs)))] + MetadataOnlyOptions(json, clock, fs, n)
  }

  // ---------------------------------------------------------------------- blocks

  const SHB := 0x0A0D_0D0A
  const IDB := 1
  const EPB := 6

  /** Byte-order magic, version 1.0, unknown section length. */
  const SHB_HEAD: bytes := [0x4D, 0x3C, 0x2B, 0x1A, 1, 0, 0, 0, 0xFF, 0xFF, 0xFF, 0xFF, 0xFF, 0xFF, 0xFF, 0xFF]

  /** Link type 127 (IEEE 802.11 with Radiotap), reserved zero, no snap length. */
  const IDB_HEAD: bytes := [127, 0, 0, 0, 0, 0, 0, 0]

  type Identities = seq<(nat, nat)>

  function IdentityOf(f: RxFrame): (nat, nat) {
    (f.metadata.identity.generation, f.metadata.identity.radioGeneration)
  }

  /** ASCII codes of "esp32qjs-monitor/session-". */
  const NAME_HEAD: bytes := [0x65, 0x73, 0x70, 0x33, 0x32, 0x71, 0x6A, 0x73, 0x2D, 0x6D, 0x6F, 0x6E, 0x69, 0x74, 0x6F,
                             0x72, 0x2F, 0x73, 0x65, 0x73, 0x73, 0x69, 0x6F, 0x6E, 0x2D]

  /** ASCII codes of "/radio-". */
  const NAME_MIDDLE: bytes := [0x2F, 0x72, 0x61, 0x64, 0x69, 0x6F, 0x2D]

  /** Decimal digits of `n`. */
  function Decimal(n: nat): (s: bytes)
    ensures if n < 10 then |s| == 1 else |s| >= 2
    ensures forall d :: d in s ==> 0x30 <= d <= 0x39
  {
    if n < 10 then [0x30 + n] else Decimal(n / 10) + [0x30 + n % 10]
  }

  function InterfaceName(id: (nat, nat)): bytes {
    NAME_HEAD + (Decimal(id.0) + (NAME_MIDDLE + Decimal(id.1)))
  }

  /** Interface name, microsecond resolution, comment. */
  function InterfaceOptions(json: Json, clock: Clock, id: (nat, nat)): seq<PcapOption> {
    [PcapOption(2, InterfaceName(id)), PcapOption(9, [6]), CommentOption(json, InterfaceComment(clock, id.0, id.1))]
  }

  /** Fixed fields, options, and the end-of-options mark. */
  function Described(head: bytes, options: bytes): (s: bytes)
    requires |head| % 4 == 0 && |options| % 4 == 0
    ensures |s| % 4 == 0
  {
    SumMultiple(|head|, |options|);
    SumMultiple(|head| + |options|, 4);
    head + (options + END_MARK)
  }

  function InterfaceBody(json: Json, clock: Clock, id: (nat, nat)): (s: bytes)
    requires OptionsFit(InterfaceOptions(json, clock, id))
    ensures |s| % 4 == 0
  {
    hide OptionsBytes, InterfaceOptions, OptionsFit;
    Described(IDB_HEAD, OptionsBytes(InterfaceOptions(json, clock, id)))
  }

  /** Interface, timestamp halves, captured and original length. */
  function PacketHead(interface: nat, timestamp: nat, captured: nat, original: nat): (s: bytes)
    requires IsU32(interface) && IsU64(timestamp) && IsU32(captured) && IsU32(original)
    ensures |s| == 20
  {
    Put32(interface)
    + (Put32(timestamp / 0x1_0000_0000) + (Put32(timestamp % 0x1_0000_0000) + (Put32(captured) + Put32(original))))
  }

  function PacketOptions(json: Json, clock: Clock, fs: seq<RxFrame>, i: nat): seq<PcapOption>
    requires i < |fs|
  {
    [CommentOption(json, PacketComment(Observe(clock, fs, i)))]
  }

  function IndexOf(ids: Identities, id: (nat, nat)): (k: nat)
    requires id in ids
    ensures k < |ids| && ids[k] == id
  {
    if ids[0] == id then 0 else 1 + IndexOf(ids[1..], id)
  }

  datatype Emission = Emission(blocks: seq<Block>, ids: Identities)

  /** Identities after frame `f`: a packet's identity is added at its first packet. */
  function IdsAfter(ids: Identities, f: RxFrame): Identities {
    if f.packet == [] || IdentityOf(f) in ids then ids else ids + [IdentityOf(f)]
  }

  /** The interface block that frame `f` introduces, if any. */
  function InterfaceBlocks(json: Json, clock: Clock, ids: Identities, f: RxFrame): Result<seq<Block>> {
    if f.packet == [] || IdentityOf(f) in ids then Ok([])
    else
      :- Require(OptionsFit(InterfaceOptions(json, clock, IdentityOf(f))));
      var body := InterfaceBody(json, clock, IdentityOf(f));
      :- Require(|body| + 12 <= U32_MAX);
      Ok([Block(IDB, body)])
  }

  /** The packet block of frame `i`, whose interface number is already known. */
  function PacketBlock(json: Json, clock: Clock, fs: seq<RxFrame>, i: nat, interface: nat): Result<Block>
    requires i < |fs| && RadioValid(fs[i].metadata.radio) && IsU64(Timestamp(clock, fs[i])) && IsU32(interface)
  {
    var f := fs[i];
    :- Require(Encodable(f));
    var radiotap := RadiotapBytes(f);
    var captured, original := |radiotap| + |f.packet|, |radiotap| + f.readable;
    :- Require(captured <= U32_MAX);
    :- Require(original <= U32_MAX);
    :- Require(OptionsFit(PacketOptions(json, clock, fs, i)));
    var body := PacketBody(json, clock, fs, i, interface, radiotap + f.packet, original);
    :- Require(|body| + 12 <= U32_MAX);
    Ok(Block(EPB, body))
  }

  function PacketBody(json: Json, clock: Clock, fs: seq<RxFrame>, i: nat, interface: nat, payload: bytes, original: nat)
    : (s: bytes)
    requires i < |fs| && IsU64(Timestamp(clock, fs[i])) && IsU32(interface) && IsU32(|payload|) && IsU32(original)
    requires OptionsFit(PacketOptions(json, clock, fs, i))
    ensures |s| % 4 == 0
  {
    hide PacketOptions, OptionsBytes, Padded, PacketHead;
    SumMultiple(|OptionsBytes(PacketOptions(json, clock, fs, i))|, 4);
    SumMultiple(|Padded(payload)|, |OptionsBytes(PacketOptions(json, clock, fs, i))| + 4);
    SumMultiple(20, |Padded(payload)| + |OptionsBytes(PacketOptions(json, clock, fs, i))| + 4);
    PacketHead(interface, Timestamp(clock, fs[i]), |payload|, original)
    + (Padded(payload) + (OptionsBytes(PacketOptions(json, clock, fs, i)) + END_MARK))
  }

  predicate ExportReady(clock: Clock, fs: seq<RxFrame>) {
    TimestampsFit(clock, fs) && forall i :: 0 <= i < |fs| ==> RadioValid(fs[i].metadata.radio)
  }

  /** Blocks and identities after the first `n` frames. */
  function EmittedTo(json: Json, clock: Clock, fs: seq<RxFrame>, n: nat): (r: Result<Emission>)
    requires n <= |fs| <= 128 && ExportReady(clock, fs)
    ensures r.Ok? ==> |r.value.ids| <= n
  {
    if n == 0 then Ok(Emission([], []))
    else
      var before :- EmittedTo(json, clock, fs, n - 1);
      EmitFrame(json, clock, fs, n - 1, before)
  }

  function EmitFrame(json: Json, clock: Clock, fs: seq<RxFrame>, i: nat, before: Emission): (r: Result<Emission>)
    requires i < |fs| <= 128 && ExportReady(clock, fs) && |before.ids| <= i
    ensures r.Ok? ==> |r.value.ids| <= i + 1
  {
    var f := fs[i];
    if f.packet == [] then Ok(before)
    else
      var introduced :- InterfaceBlocks(json, clock, before.ids, f);
      var ids := IdsAfter(before.ids, f);
      var packet :- PacketBlock(json, clock, fs, i, IndexOf(ids, IdentityOf(f)));
      Ok(Emission(before.blocks + introduced + [packet], ids))
  }

  function SectionBody(json: Json, clock: Clock, fs: seq<RxFrame>): (s: bytes)
    requires OptionsFit(SectionOptions(json, clock, fs, |fs|))
    ensures |s| % 4 == 0
  {
    hide OptionsBytes, SectionOptions, OptionsFit;
    Described(SHB_HEAD, OptionsBytes(SectionOptions(json, clock, fs, |fs|)))
  }

  /** All blocks of a capture. */
  function CaptureBlocks(json: Json, clock: Clock, fs: seq<RxFrame>): Result<seq<Block>>
    requires |fs| <= 128 && ExportReady(clock, fs)
  {
    if !OptionsFit(SectionOptions(json, clock, fs, |fs|)) then Err
    else
      var body := SectionBody(json, clock, fs);
      :- Require(|body| + 12 <= U32_MAX);
      var e :- EmittedTo(json, clock, fs, |fs|);
      Ok([Block(SHB, body)] + e.blocks)
  }
}
