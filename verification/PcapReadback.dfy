/** Reading an exported capture back gives exactly what the batch said. */
module PcapReadback {
  import opened Wire
  import opened RxRecords
  import opened RxBatches
  import opened PcapBlocks
  import opened PcapReader
  import opened PcapExport
  import Radiotap

  // --------------------------------------------------------- what should be read

  function InterfaceViewOf(json: Json, clock: Clock, id: (nat, nat)): InterfaceView {
    InterfaceView(127, 0, InterfaceOptions(json, clock, id))
  }

  function InterfaceViews(json: Json, clock: Clock, ids: Identities): (vs: seq<InterfaceView>)
    ensures |vs| == |ids|
  {
    seq(|ids|, k requires 0 <= k < |ids| => InterfaceViewOf(json, clock, ids[k]))
  }

  /** The distinct identities of packets among the first `n` frames, by first appearance. */
  function IdsTo(fs: seq<RxFrame>, n: nat): Identities
    requires n <= |fs|
  {
    if n == 0 then [] else IdsAfter(IdsTo(fs, n - 1), fs[n - 1])
  }

  /** What a reader should see of frame `i`. */
  function ExpectedPacket(json: Json, clock: Clock, fs: seq<RxFrame>, i: nat): PacketView
    requires i < |fs| && RadioValid(fs[i].metadata.radio) && fs[i].packet != [] && Timestamp(clock, fs[i]) >= 0
    requires IdentityOf(fs[i]) in IdsTo(fs, i + 1)
  {
    var f := fs[i];
    var header := |Radiotap.RadiotapBytes(f)|;
    PacketView(IndexOf(IdsTo(fs, i + 1), IdentityOf(f)), Timestamp(clock, f), header + |f.packet|, header + f.readable,
               Radiotap.Header(header, Radiotap.FieldsOf(f)), f.packet, PacketOptions(json, clock, fs, i))
  }

  lemma {:induction false} IdKnown(fs: seq<RxFrame>, i: nat)
    requires i < |fs| && fs[i].packet != []
    ensures IdentityOf(fs[i]) in IdsTo(fs, i + 1)
  {
    var before := IdsTo(fs, i);
    assert IdsTo(fs, i + 1) == IdsAfter(before, fs[i]);
    assert IdentityOf(fs[i]) in before + [IdentityOf(fs[i])];
  }

  /** One packet for each of the first `n` frames that carries bytes, in frame order. */
  function ExpectedPackets(json: Json, clock: Clock, fs: seq<RxFrame>, n: nat): seq<PacketView>
    requires n <= |fs| && ExportReady(clock, fs)
  {
    if n == 0 then []
    else
      ExpectedPackets(json, clock, fs, n - 1)
      + if fs[n - 1].packet == [] then [] else
          (IdKnown(fs, n - 1); [ExpectedPacket(json, clock, fs, n - 1)])
  }

  // -------------------------------------------------------------- single blocks

  lemma InterfaceRead(json: Json, clock: Clock, id: (nat, nat))
    requires OptionsFit(InterfaceOptions(json, clock, id))
    ensures ReadInterface(InterfaceBody(json, clock, id)) == Some(InterfaceViewOf(json, clock, id))
  {
    hide OptionsBytes, ReadOptions, InterfaceOptions;
    var os := InterfaceOptions(json, clock, id);
    var body := InterfaceBody(json, clock, id);
    OptionsReadBack(os);
    assert body[8..] == OptionsBytes(os) + END_MARK;
    assert U16(body, 0) == 127 && U32(body, 4) == 0;
  }

  lemma SectionRead(json: Json, clock: Clock, fs: seq<RxFrame>)
    requires OptionsFit(SectionOptions(json, clock, fs, |fs|))
    ensures ReadSection(Block(SHB, SectionBody(json, clock, fs))) == Some(SectionOptions(json, clock, fs, |fs|))
  {
    hide OptionsBytes, ReadOptions, SectionOptions;
    var os := SectionOptions(json, clock, fs, |fs|);
    var body := SectionBody(json, clock, fs);
    OptionsReadBack(os);
    assert body[16..] == OptionsBytes(os) + END_MARK;
    assert U32(body, 0) == 0x1A2B_3C4D && U16(body, 4) == 1 && U16(body, 6) == 0;
  }

  lemma FiveWords(h: bytes, a: bytes, b: bytes, c: bytes, d: bytes, e: bytes)
    requires |a| == |b| == |c| == |d| == |e| == 4 && h == a + (b + (c + (d + e)))
    ensures h[0..4] == a && h[4..8] == b && h[8..12] == c && h[12..16] == d && h[16..20] == e
  {
    assert h[4..20] == b + (c + (d + e)) && h[8..20] == c + (d + e) && h[12..20] == d + e;
    assert h[4..8] == h[4..20][..4] && h[8..12] == h[8..20][..4] && h[12..16] == h[12..20][..4];
  }

  lemma PacketHeadRead(body: bytes, interface: nat, timestamp: nat, captured: nat, original: nat)
    requires IsU32(interface) && IsU64(timestamp) && IsU32(captured) && IsU32(original)
    requires |body| >= 20 && body[..20] == PacketHead(interface, timestamp, captured, original)
    ensures U32(body, 0) == interface && 0x1_0000_0000 * U32(body, 4) + U32(body, 8) == timestamp
    ensures U32(body, 12) == captured && U32(body, 16) == original
  {
    hide U32, Put32;
    var high, low := timestamp / 0x1_0000_0000, timestamp % 0x1_0000_0000;
    FiveWords(body[..20], Put32(interface), Put32(high), Put32(low), Put32(captured), Put32(original));
    assert body[0..4] == body[..20][0..4] && body[4..8] == body[..20][4..8];
    assert body[8..12] == body[..20][8..12] && body[12..16] == body[..20][12..16];
    assert body[16..20] == body[..20][16..20];
    Word32(body, 0, interface);
    Word32(body, 4, high);
    Word32(body, 8, low);
    Word32(body, 12, captured);
    Word32(body, 16, original);
  }

  lemma SameEndPadding(n: nat)
    ensures Padding(20 + n) == Padding(n)
  {
  }

  /** The parts of a packet block body. */
  lemma PacketParts(body: bytes, head: bytes, payload: bytes, options: bytes)
    requires |head| == 20 && body == head + (Padded(payload) + options)
    ensures var end := 20 + |payload|;
            && end + Padding(end) <= |body| && body[..20] == head && body[20..end] == payload
            && AllZero(body[end..end + Padding(end)]) && body[end + Padding(end)..] == options
  {
    SameEndPadding(|payload|);
    var end := 20 + |payload|;
    assert Padded(payload)[..|payload|] == payload;
    assert body[20..end] == payload;
    assert body[end..end + Padding(end)] == Zeros(Padding(end));
  }

  lemma PacketRead(json: Json, clock: Clock, fs: seq<RxFrame>, i: nat, interface: nat, b: Block)
    requires i < |fs| && RadioValid(fs[i].metadata.radio) && IsU64(Timestamp(clock, fs[i])) && IsU32(interface)
    requires PacketBlock(json, clock, fs, i, interface) == Ok(b)
    ensures b.kind == EPB && BlockFits(b)
    ensures var f, header := fs[i], |Radiotap.RadiotapBytes(fs[i])|;
            ReadPacket(b.body)
            == Some(PacketView(interface, Timestamp(clock, f), header + |f.packet|, header + f.readable,
                               Radiotap.Header(header, Radiotap.FieldsOf(f)), f.packet, PacketOptions(json, clock, fs, i)))
  {
    hide OptionsBytes, ReadOptions, PacketOptions, Radiotap.RadiotapBytes, Radiotap.FieldsOf, Radiotap.ReadRadiotap;
    hide RadioValid, PacketHead, U32, Padded, AllZero, Timestamp;
    var f := fs[i];
    var radiotap := Radiotap.RadiotapBytes(f);
    var payload := radiotap + f.packet;
    var original := |radiotap| + f.readable;
    var os := PacketOptions(json, clock, fs, i);
    var head := PacketHead(interface, Timestamp(clock, f), |payload|, original);
    PacketParts(b.body, head, payload, OptionsBytes(os) + END_MARK);
    PacketHeadRead(b.body, interface, Timestamp(clock, f), |payload|, original);
    OptionsReadBack(os);
    Radiotap.RadiotapReadBack(f, f.packet);
    assert b.body[20 + |radiotap|..20 + |payload|] == b.body[20..20 + |payload|][|radiotap|..] == f.packet;
  }

  // -------------------------------------------------------------- whole capture

  lemma {:induction false} IdsAgree(json: Json, clock: Clock, fs: seq<RxFrame>, n: nat)
    requires n <= |fs| <= 128 && ExportReady(clock, fs) && EmittedTo(json, clock, fs, n).Ok?
    ensures EmittedTo(json, clock, fs, n).value.ids == IdsTo(fs, n)
  {
    hide InterfaceBlocks, PacketBlock, ExportReady;
    if n != 0 {
      IdsAgree(json, clock, fs, n - 1);
    }
  }

  /** The reader's state after the section block and the given emission. */
  predicate Reads(section: Block, os: seq<PcapOption>, json: Json, clock: Clock, fs: seq<RxFrame>, n: nat, e: Emission)
    requires n <= |fs| && ExportReady(clock, fs)
  {
    && BlocksFit(e.blocks)
    && ReadTo([section] + e.blocks, 1 + |e.blocks|)
       == Some(Capture(os, InterfaceViews(json, clock, e.ids), ExpectedPackets(json, clock, fs, n)))
  }

  lemma {:induction false} ReadToPrefix(a: seq<Block>, b: seq<Block>, n: nat)
    requires 1 <= n <= |a|
    ensures ReadTo(a + b, n) == ReadTo(a, n)
  {
    hide ReadBlock, ReadSection;
    if n > 1 {
      ReadToPrefix(a, b, n - 1);
    }
    assert (a + b)[n - 1] == a[n - 1];
  }

  /** Reading one more block. */
  lemma ReadOneMore(bs: seq<Block>, b: Block)
    requires |bs| >= 1
    ensures ReadTo(bs + [b], |bs| + 1)
            == match ReadTo(bs, |bs|) case None => None case Some(before) => ReadBlock(before, b)
  {
    hide ReadBlock, ReadSection;
    ReadToPrefix(bs, [b], |bs|);
    assert (bs + [b])[|bs|] == b;
  }

  lemma ViewsExtend(json: Json, clock: Clock, ids: Identities, id: (nat, nat))
    ensures InterfaceViews(json, clock, ids + [id]) == InterfaceViews(json, clock, ids) + [InterfaceViewOf(json, clock, id)]
  {
    hide InterfaceViewOf;
  }

  /** The interface block, if the frame introduces one, adds its identity. */
  lemma InterfaceStep(bs: seq<Block>, before: Capture, json: Json, clock: Clock, ids: Identities, f: RxFrame, introduced: seq<Block>)
    requires |bs| >= 1 && ReadTo(bs, |bs|) == Some(before) && before.interfaces == InterfaceViews(json, clock, ids)
    requires f.packet != [] && InterfaceBlocks(json, clock, ids, f) == Ok(introduced)
    ensures BlocksFit(introduced)
    ensures ReadTo(bs + introduced, |bs + introduced|)
            == Some(before.(interfaces := InterfaceViews(json, clock, IdsAfter(ids, f))))
  {
    hide ReadTo, InterfaceViews, InterfaceBody, InterfaceOptions, ReadInterface;
    var id := IdentityOf(f);
    if id in ids {
      assert bs + introduced == bs;
    } else {
      InterfaceRead(json, clock, id);
      ReadOneMore(bs, introduced[0]);
      assert bs + introduced == bs + [introduced[0]];
      ViewsExtend(json, clock, ids, id);
    }
  }

  lemma FrameReads(section: Block, os: seq<PcapOption>, json: Json, clock: Clock, fs: seq<RxFrame>, i: nat, b: Emission, e: Emission)
    requires i < |fs| <= 128 && ExportReady(clock, fs) && |b.ids| <= i && b.ids == IdsTo(fs, i)
    requires Reads(section, os, json, clock, fs, i, b) && EmitFrame(json, clock, fs, i, b) == Ok(e)
    ensures Reads(section, os, json, clock, fs, i + 1, e)
  {
    hide InterfaceBlocks, PacketBlock, ReadTo, InterfaceViews, IdsAfter, ReadPacket, PacketOptions, Radiotap.FieldsOf;
    hide Radiotap.RadiotapBytes, RadioValid, BlockFits, TimestampsFit;
    var f := fs[i];
    if f.packet != [] {
      ReadyAt(clock, fs, i);
      IdKnown(fs, i);
      var introduced := InterfaceBlocks(json, clock, b.ids, f).value;
      var ids := IdsAfter(b.ids, f);
      var interface := IndexOf(ids, IdentityOf(f));
      var packet := PacketBlock(json, clock, fs, i, interface).value;
      var bs := [section] + b.blocks;
      var before := ReadTo(bs, |bs|).value;
      InterfaceStep(bs, before, json, clock, b.ids, f, introduced);
      PacketRead(json, clock, fs, i, interface, packet);
      ReadOneMore(bs + introduced, packet);
      BlocksAppend(b.blocks, introduced, packet);
      assert [section] + e.blocks == bs + introduced + [packet];
      var seen := ReadTo(bs + introduced, |bs + introduced|).value;
      assert ReadBlock(seen, packet) == Some(seen.(packets := seen.packets + [ExpectedPacket(json, clock, fs, i)]));
      assert ExpectedPackets(json, clock, fs, i + 1)
          == ExpectedPackets(json, clock, fs, i) + [ExpectedPacket(json, clock, fs, i)];
    } else {
      assert ExpectedPackets(json, clock, fs, i + 1) == ExpectedPackets(json, clock, fs, i);
    }
  }

  lemma BlocksAppend(a: seq<Block>, b: seq<Block>, c: Block)
    requires BlocksFit(a) && BlocksFit(b) && BlockFits(c)
    ensures BlocksFit(a + b + [c])
  {
    hide BlockFits;
  }

  lemma ReadyAt(clock: Clock, fs: seq<RxFrame>, i: nat)
    requires i < |fs| && ExportReady(clock, fs)
    ensures RadioValid(fs[i].metadata.radio) && IsU64(Timestamp(clock, fs[i]))
  {
    hide RadioValid, Timestamp;
  }

  lemma {:induction false} EmissionReads(section: Block, os: seq<PcapOption>, json: Json, clock: Clock, fs: seq<RxFrame>, n: nat, e: Emission)
    requires n <= |fs| <= 128 && ExportReady(clock, fs) && ReadSection(section) == Some(os)
    requires EmittedTo(json, clock, fs, n) == Ok(e)
    ensures Reads(section, os, json, clock, fs, n, e)
  {
    hide EmitFrame, ExportReady, ReadSection;
    if n == 0 {
      assert [section] + e.blocks == [section];
      assert InterfaceViews(json, clock, []) == [];
    } else {
      hide Reads;
      var b := EmittedTo(json, clock, fs, n - 1).value;
      EmissionReads(section, os, json, clock, fs, n - 1, b);
      IdsAgree(json, clock, fs, n - 1);
      FrameReads(section, os, json, clock, fs, n - 1, b, e);
    }
  }

  /** PCAPNG read-back: a reader of the block grammar recovers, in order, exactly one
      packet per frame that carries bytes, with its Radiotap fields, packet bytes, mapped
      timestamp, lengths, comment, and an interface described before it. */
  lemma CaptureReadBack(json: Json, clock: Clock, fs: seq<RxFrame>, bs: seq<Block>)
    requires |fs| <= 128 && ExportReady(clock, fs) && CaptureBlocks(json, clock, fs) == Ok(bs)
    ensures BlocksFit(bs)
    ensures ReadCapture(Stream(bs))
            == Some(Capture(SectionOptions(json, clock, fs, |fs|), InterfaceViews(json, clock, IdsTo(fs, |fs|)),
                            ExpectedPackets(json, clock, fs, |fs|)))
  {
    hide EmittedTo, ReadSection, SectionBody, SectionOptions, ReadTo, Stream, ReadBlocks, ExportReady, ExpectedPackets;
    hide InterfaceViews, IdsTo;
    var section := Block(SHB, SectionBody(json, clock, fs));
    var e := EmittedTo(json, clock, fs, |fs|).value;
    SectionRead(json, clock, fs);
    EmissionReads(section, SectionOptions(json, clock, fs, |fs|), json, clock, fs, |fs|, e);
    IdsAgree(json, clock, fs, |fs|);
    assert bs == [section] + e.blocks;
    ForwardWalk(bs);
  }

  /** Traversal in both directions: the forward walk ends exactly at the end of file, and
      the backward walk from the end visits the same blocks in reverse. */
  lemma TwoWayWalk(json: Json, clock: Clock, fs: seq<RxFrame>, bs: seq<Block>)
    requires |fs| <= 128 && ExportReady(clock, fs) && CaptureBlocks(json, clock, fs) == Ok(bs)
    ensures BlocksFit(bs) && ReadBlocks(Stream(bs)) == Some(bs) && ReadBackward(Stream(bs)) == Some(Reverse(bs))
    ensures forall b :: b in bs ==> BlockFits(b) && |BlockBytes(b)| >= 12 && |BlockBytes(b)| % 4 == 0
  {
    hide CaptureBlocks, ReadCapture, Stream, ReadBlocks, ReadBackward, ExportReady, BlockBytes, BlockFits, Reverse;
    CaptureReadBack(json, clock, fs, bs);
    ForwardWalk(bs);
    BackwardWalk(bs);
    forall b | b in bs
      ensures BlockFits(b) && |BlockBytes(b)| >= 12 && |BlockBytes(b)| % 4 == 0
    {
      BlockSize(b);
    }
  }

  lemma BlockSize(b: Block)
    requires BlockFits(b)
    ensures |BlockBytes(b)| >= 12 && |BlockBytes(b)| % 4 == 0
  {
    hide BlockBytes;
    SumMultiple(|b.body|, 12);
  }

  // ------------------------------------------------------------------ interfaces

  predicate AllDistinct(ids: Identities) {
    forall i, j :: 0 <= i < j < |ids| ==> ids[i] != ids[j]
  }

  /** One interface per distinct identity, and only for identities that have packets. */
  lemma {:induction false} OneInterfaceEach(fs: seq<RxFrame>, n: nat)
    requires n <= |fs|
    ensures AllDistinct(IdsTo(fs, n))
    ensures forall id :: id in IdsTo(fs, n) <==> exists i :: 0 <= i < n && fs[i].packet != [] && IdentityOf(fs[i]) == id
  {
    if n != 0 {
      OneInterfaceEach(fs, n - 1);
      var before, after := IdsTo(fs, n - 1), IdsTo(fs, n);
      assert after == IdsAfter(before, fs[n - 1]);
      forall id
        ensures id in after <==> exists i :: 0 <= i < n && fs[i].packet != [] && IdentityOf(fs[i]) == id
      {
        if id in after && id !in before {
          assert fs[n - 1].packet != [] && IdentityOf(fs[n - 1]) == id;
        }
        if i :| 0 <= i < n && fs[i].packet != [] && IdentityOf(fs[i]) == id {
          if i < n - 1 {
            assert id in before;
          }
        }
      }
    }
  }

  lemma {:induction false} DecimalInjective(a: nat, b: nat)
    requires Decimal(a) == Decimal(b)
    ensures a == b
    decreases a
  {
    var s := Decimal(a);
    if a >= 10 {
      assert s[..|s| - 1] == Decimal(a / 10) && s[..|s| - 1] == Decimal(b / 10);
      DecimalInjective(a / 10, b / 10);
      assert s[|s| - 1] as int == 0x30 + a % 10 == 0x30 + b % 10;
    }
  }

  /** The text before the first slash is determined by the whole. */
  lemma SplitAtSlash(a: bytes, b: bytes, c: bytes, d: bytes)
    requires a + ([0x2F] + b) == c + ([0x2F] + d) && 0x2F !in a && 0x2F !in c
    ensures a == c && b == d
  {
    var s := a + ([0x2F] + b);
    assert s[|a|] == 0x2F && s[|c|] == 0x2F;
    assert |a| == |c|;
    assert s[..|a|] == a && s[..|c|] == c;
    assert s[|a| + 1..] == b && s[|c| + 1..] == d;
  }

  /** The interface name alone identifies the session and radio generation. */
  lemma NameInjective(x: (nat, nat), y: (nat, nat))
    requires InterfaceName(x) == InterfaceName(y)
    ensures x == y
  {
    hide Decimal;
    var tail: bytes := NAME_MIDDLE[1..];
    assert NAME_MIDDLE == [0x2F] + tail;
    var a, b, c, d := Decimal(x.0), Decimal(x.1), Decimal(y.0), Decimal(y.1);
    assert InterfaceName(x)[|NAME_HEAD|..] == a + (NAME_MIDDLE + b);
    assert InterfaceName(y)[|NAME_HEAD|..] == c + (NAME_MIDDLE + d);
    assert NAME_MIDDLE + b == [0x2F] + (tail + b) && NAME_MIDDLE + d == [0x2F] + (tail + d);
    SplitAtSlash(a, tail + b, c, tail + d);
    assert (tail + b)[|tail|..] == b && (tail + d)[|tail|..] == d;
    DecimalInjective(x.0, y.0);
    DecimalInjective(x.1, y.1);
  }

  lemma {:induction false} IdsGrow(fs: seq<RxFrame>, m: nat, n: nat)
    requires m <= n <= |fs|
    ensures IdsTo(fs, m) <= IdsTo(fs, n)
  {
    if m < n {
      IdsGrow(fs, m, n - 1);
    }
  }

  lemma {:induction false} PacketsGrow(json: Json, clock: Clock, fs: seq<RxFrame>, m: nat, n: nat)
    requires m <= n <= |fs| && ExportReady(clock, fs)
    ensures ExpectedPackets(json, clock, fs, m) <= ExpectedPackets(json, clock, fs, n)
  {
    hide ExpectedPacket, ExportReady;
    if m < n {
      PacketsGrow(json, clock, fs, m, n - 1);
    }
  }

  lemma PacketLast(json: Json, clock: Clock, fs: seq<RxFrame>, i: nat)
    requires i < |fs| && ExportReady(clock, fs) && fs[i].packet != []
    ensures RadioValid(fs[i].metadata.radio) && Timestamp(clock, fs[i]) >= 0 && IdentityOf(fs[i]) in IdsTo(fs, i + 1)
    ensures ExpectedPackets(json, clock, fs, i + 1)
            == ExpectedPackets(json, clock, fs, i) + [ExpectedPacket(json, clock, fs, i)]
  {
    hide ExpectedPacket, ExportReady;
    ReadyAt(clock, fs, i);
    IdKnown(fs, i);
  }

  lemma {:induction false} PacketPosition(json: Json, clock: Clock, fs: seq<RxFrame>, n: nat, i: nat)
    requires i < n <= |fs| && ExportReady(clock, fs) && fs[i].packet != []
    ensures RadioValid(fs[i].metadata.radio) && Timestamp(clock, fs[i]) >= 0 && IdentityOf(fs[i]) in IdsTo(fs, i + 1)
    ensures |ExpectedPackets(json, clock, fs, n)| == PacketCount(fs[..n])
    ensures PacketCount(fs[..i]) < PacketCount(fs[..n])
    ensures ExpectedPackets(json, clock, fs, n)[PacketCount(fs[..i])] == ExpectedPacket(json, clock, fs, i)
  {
    hide ExpectedPacket, ExportReady, ExpectedPackets, PacketCount, IdsTo;
    PacketLast(json, clock, fs, i);
    PacketsCounted(json, clock, fs, i);
    PacketsCounted(json, clock, fs, i + 1);
    PacketsCounted(json, clock, fs, n);
    PacketsGrow(json, clock, fs, i + 1, n);
  }

  lemma {:induction false} PacketsCounted(json: Json, clock: Clock, fs: seq<RxFrame>, n: nat)
    requires n <= |fs| && ExportReady(clock, fs)
    ensures |ExpectedPackets(json, clock, fs, n)| == PacketCount(fs[..n])
  {
    hide ExpectedPacket, ExportReady;
    if n != 0 {
      PacketsCounted(json, clock, fs, n - 1);
      assert fs[..n][..n - 1] == fs[..n - 1];
    }
  }

  /** What the capture says about one frame with a packet: its block is in the frame's
      place, names the frame's interface by name, and carries the frame's facts. */
  lemma FrameReadBack(json: Json, clock: Clock, fs: seq<RxFrame>, bs: seq<Block>, kind: Kind, i: nat)
    requires |fs| <= 128 && ExportReady(clock, fs) && CaptureBlocks(json, clock, fs) == Ok(bs)
    requires i < |fs| && fs[i].packet != [] && FrameValid(kind, fs[i])
    ensures BlocksFit(bs) && ReadCapture(Stream(bs)).Some?
    ensures RadioValid(fs[i].metadata.radio)
    ensures var c, k, f := ReadCapture(Stream(bs)).value, PacketCount(fs[..i]), fs[i];
            && |c.packets| == PacketCount(fs) && k < |c.packets|
            && var p := c.packets[k];
               && p.interface < |c.interfaces| && c.interfaces[p.interface].Name() == InterfaceName(IdentityOf(f))
               && p.timestamp == Timestamp(clock, f) && p.packet == f.packet
               && p.radiotap.fields == Radiotap.FieldsOf(f)
               && Radiotap.ViewOf(p.radiotap.fields) == Radiotap.Expected(f)
               && p.captured == p.radiotap.length + |f.packet| && p.original == p.radiotap.length + f.readable
               && p.captured <= p.original
  {
    hide CaptureBlocks, ReadCapture, Stream, ExportReady, ExpectedPackets, FrameValid, PacketCount, IdsTo;
    hide SectionOptions, PacketOptions, Radiotap.FieldsOf, Radiotap.ViewOf, Radiotap.Expected, Radiotap.RadiotapBytes;
    hide InterfaceName, RadioValid;
    CaptureReadBack(json, clock, fs, bs);
    PacketPosition(json, clock, fs, |fs|, i);
    assert fs[..|fs|] == fs;
    IdsGrow(fs, i + 1, |fs|);
    Radiotap.MeaningKept(fs[i]);
    ReadableCovers(kind, fs[i]);
  }

  lemma ReadableCovers(kind: Kind, f: RxFrame)
    requires FrameValid(kind, f)
    ensures |f.packet| <= f.readable
  {
    hide IdentityValid, AddressesValid, RadioValid, RawScalarsValid, PacketFits, FrameControlValid, HeaderWordsValid, ParsedValid;
  }
}
