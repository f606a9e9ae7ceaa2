/** What stands in an exported capture besides the packets: interface descriptions, comments
    and names, in terms of the batch and the caller's arguments. */
module PcapMeaning {
  import opened Wire
  import opened RxRecords
  import opened RxBatches
  import opened PcapBlocks
  import opened PcapReader
  import opened PcapExport
  import opened PcapReadback
  import opened PcapEncoder
  import opened PcapTheorems
  import ContextDigest
  import Radiotap

  // ------------------------------------------------------------------------ names

  /** The number that decimal digits stand for. */
  function ReadDecimal(s: bytes): int {
    if s == [] then 0 else 10 * ReadDecimal(s[..|s| - 1]) + s[|s| - 1] as int - '0' as int
  }

  lemma {:induction false} DecimalReads(n: nat)
    ensures ReadDecimal(Decimal(n)) == n && (n > 0 ==> Decimal(n)[0] != '0' as byte)
  {
    var s := Decimal(n);
    if n >= 10 {
      DecimalReads(n / 10);
      assert s[..|s| - 1] == Decimal(n / 10);
      assert s[0] == Decimal(n / 10)[0];
    } else {
      assert s[..|s| - 1] == [];
    }
  }

  /** The name spells out session and radio generation, in this order and in decimal. */
  lemma NameSpells(id: (nat, nat))
    ensures InterfaceName(id)
            == Ascii("esp32qjs-monitor/session-") + (Decimal(id.0) + (Ascii("/radio-") + Decimal(id.1)))
    ensures ReadDecimal(Decimal(id.0)) == id.0 && ReadDecimal(Decimal(id.1)) == id.1
  {
    hide Decimal;
    DecimalReads(id.0);
    DecimalReads(id.1);
    assert NAME_HEAD == Ascii("esp32qjs-monitor/session-");
    assert NAME_MIDDLE == Ascii("/radio-");
  }

  // ------------------------------------------------------------- the boot identity

  /** A character counts as many bytes as its UTF-8 form has; surrogates have none. */
  lemma Utf8SizeIs(c: char, n: nat)
    ensures Utf8Size(c as nat) == Some(|ContextDigest.Utf8Char(c)|)
    ensures Utf8Size(n).None? <==> 0xD800 <= n <= 0xDFFF || n > 0x10_FFFF
  {
  }

  lemma {:induction false} Utf8LengthIs(boot: Text, s: string)
    requires |s| == |boot| && forall i :: 0 <= i < |s| ==> s[i] as nat == boot[i]
    ensures Utf8Length(boot) == Some(|ContextDigest.Utf8(s)|)
  {
    hide Utf8Size, ContextDigest.Utf8Char;
    if s != "" {
      Utf8SizeIs(s[0], boot[0]);
      Utf8LengthIs(boot[1..], s[1..]);
    }
  }

  lemma {:induction false} Utf8Characters(boot: Text)
    requires Utf8Length(boot).Some?
    ensures forall i :: 0 <= i < |boot| ==> boot[i] <= 0x10_FFFF && !(0xD800 <= boot[i] <= 0xDFFF)
  {
    if boot != [] {
      Utf8Characters(boot[1..]);
      forall i | 0 <= i < |boot|
        ensures boot[i] <= 0x10_FFFF && !(0xD800 <= boot[i] <= 0xDFFF)
      {
        if i > 0 {
          assert boot[i] == boot[1..][i - 1];
        }
      }
    }
  }

  /** A boot identity is a text of 1 to 256 UTF-8 bytes without control characters. */
  lemma BootIdentityIs(boot: Text)
    ensures BootIdValid(boot) <==> exists s: string :: Spells(s, boot)
  {
    hide Utf8Length, ContextDigest.Utf8;
    if BootIdValid(boot) {
      Utf8Characters(boot);
      var s := seq(|boot|, i requires 0 <= i < |boot| => boot[i] as char);
      Utf8LengthIs(boot, s);
      assert forall c :: c in s ==> ' ' <= c && c != '\U{7F}';
      assert Spells(s, boot);
    }
    if s: string :| Spells(s, boot) {
      Utf8LengthIs(boot, s);
      assert forall i :: 0 <= i < |s| ==> s[i] in s;
    }
  }

  predicate Spells(s: string, boot: Text) {
    && |s| == |boot| && (forall i :: 0 <= i < |s| ==> s[i] as nat == boot[i])
    && 1 <= |ContextDigest.Utf8(s)| <= 256 && (forall c :: c in s ==> ' ' <= c && c != '\U{7F}')
  }

  // ------------------------------------------------------------------- descriptions

  /** Interface and packet of a frame as a reader finds them: link type 127 without a snap
      length, the interface's name, microseconds and comment, and the packet's comment. */
  lemma ExportDetails(view: bytes, q: Request, json: Json, bs: seq<Block>, i: nat)
    requires ExportOf(view, q, json) == Ok(bs) && PlanExport(view, q).Ok?
    requires i < |PlanExport(view, q).value.frames| && PlanExport(view, q).value.frames[i].packet != []
    ensures BlocksFit(bs) && ReadCapture(Stream(bs)).Some?
    ensures var c, fs, clock := ReadCapture(Stream(bs)).value, PlanExport(view, q).value.frames, PlanExport(view, q).value.clock;
            var f, m, k := fs[i], fs[i].metadata, PacketCount(fs[..i]);
            && k < |c.packets| && c.packets[k].interface < |c.interfaces|
            && var p := c.packets[k];
               && c.interfaces[p.interface]
                  == InterfaceView(127, 0, [PcapOption(2, InterfaceName((m.identity.generation, m.identity.radioGeneration))),
                                            PcapOption(9, [6]),
                                            PcapOption(1, json(InterfaceComment(clock, m.identity.generation, m.identity.radioGeneration)))])
               && p.options
                  == [PcapOption(1, json(PacketComment(Observation(i, clock, p.timestamp, m, |f.packet|, f.readable, f.headerPrefix))))]
  {
    hide CaptureBlocks, ReadCapture, ReadBatch, Stream, PacketCount, FrameValid, RadioValid, TimestampsFit, BlockFits, ExportReady;
    hide InterfaceName, Timestamp, PlanExport, IdsTo, ExpectedPackets, SectionOptions, Radiotap.RadiotapBytes, Radiotap.FieldsOf;
    var fs, clock := PlanExport(view, q).value.frames, PlanExport(view, q).value.clock;
    CaptureReadBack(json, clock, fs, bs);
    PacketPosition(json, clock, fs, |fs|, i);
    assert fs[..|fs|] == fs;
    PacketsCounted(json, clock, fs, |fs|);
    IdsGrow(fs, i + 1, |fs|);
  }

  /** What the section header says: the counts of observations and packets, then one comment
      for each frame without a packet. */
  lemma SectionSays(view: bytes, q: Request, json: Json, bs: seq<Block>, i: nat)
    requires ExportOf(view, q, json) == Ok(bs) && PlanExport(view, q).Ok? && i < |PlanExport(view, q).value.frames|
    ensures BlocksFit(bs) && ReadCapture(Stream(bs)).Some?
    ensures var c, fs, clock := ReadCapture(Stream(bs)).value, PlanExport(view, q).value.frames, PlanExport(view, q).value.clock;
            && c.section != [] && c.section[0] == PcapOption(1, json(SectionComment(clock, |fs|, |c.packets|)))
            && |c.section| + |c.packets| == 1 + |fs|
            && (fs[i].packet == [] ==>
                  PcapOption(1, json(MetadataOnly(Observation(i, clock, Timestamp(clock, fs[i]), fs[i].metadata, 0, fs[i].readable,
                                                              fs[i].headerPrefix)))) in c.section)
  {
    hide CaptureBlocks, ReadCapture, ReadBatch, Stream, PacketCount, FrameValid, RadioValid, TimestampsFit, BlockFits, ExportReady;
    hide Timestamp, PlanExport, IdsTo, ExpectedPackets, MetadataOnlyOptions;
    var fs, clock := PlanExport(view, q).value.frames, PlanExport(view, q).value.clock;
    CaptureReadBack(json, clock, fs, bs);
    PacketsCounted(json, clock, fs, |fs|);
    assert fs[..|fs|] == fs;
    CommentsCounted(json, clock, fs, |fs|);
    if fs[i].packet == [] {
      CommentListed(json, clock, fs, |fs|, i);
    }
  }

  lemma {:induction false} CommentsCounted(json: Json, clock: Clock, fs: seq<RxFrame>, n: nat)
    requires n <= |fs|
    ensures |MetadataOnlyOptions(json, clock, fs, n)| + PacketCount(fs[..n]) == n
  {
    hide Observe;
    if n > 0 {
      CommentsCounted(json, clock, fs, n - 1);
      assert fs[..n][..n - 1] == fs[..n - 1];
    }
  }
}
