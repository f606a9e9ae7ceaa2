/** The firmware's side of the RX wire format: the control writer in
    components/esp32_mquickjs/src/modules/wifi_common/esp32_mquickjs_wifi_rx_wire.c. */
module DeviceWriter {
  import opened Wire
  import opened RxRecords
  import opened RxBatches
  import opened RxBatchProofs

  // ------------------------------------------------------------------- preflight

  /** `rx_wire_frame_valid` */
  predicate FrameAccepted(kind: Kind, d: Directory)
    requires d.Fits()
  {
    var present, truncated, headerOnly, parsed, pointerValid := d.flags[0], d.flags[1], d.flags[2], d.flags[3], d.flags[4];
    && (forall i :: 5 <= i < 16 ==> !d.flags[i])
    && d.headerPrefix <= d.captured <= d.readable
    && (kind == Monitor ==> d.csiLength == 0)
    && present == (d.captured != 0)
    && (parsed ==> pointerValid)
    && if !present then !headerOnly && !truncated && d.headerPrefix == 0
       else
         && pointerValid
         && if headerOnly then !truncated && d.headerPrefix == d.captured && parsed
            else d.captured < d.readable ==> truncated
  }

  /** `rx_wire_add`: no sum beyond a uint32. */
  function Add(left: nat, right: nat): (r: Option<nat>)
    ensures r.Some? <==> left + right <= U32_MAX
    ensures r.Some? ==> r.value == left + right
  {
    if left > U32_MAX - right then None else Some(left + right)
  }

  function Align(offset: nat): Option<nat> {
    Add(offset, Padding(offset))
  }

  /** A length rounded up to whole words. */
  function Aligned(n: nat): nat {
    4 * ((n + 3) / 4)
  }

  datatype Offsets = Offsets(csi: nat, packet: nat, end: nat)

  /** `rx_wire_advance` */
  function Advance(d: Directory, cursor: nat): Option<Offsets> {
    var csiOffset := SpanOffset(cursor, d.csiLength);
    match Add(cursor, d.csiLength)
    case None => None
    case Some(csiEnd) =>
      match Align(csiEnd)
      case None => None
      case Some(packetStart) =>
        var packetOffset := SpanOffset(packetStart, d.captured);
        match Add(packetStart, d.captured)
        case None => None
        case Some(packetEnd) =>
          match Align(packetEnd)
          case None => None
          case Some(end) => Some(Offsets(csiOffset, packetOffset, end))
  }

  lemma AlignedIs(n: nat)
    ensures n + Padding(n) == Aligned(n) && n <= Aligned(n)
  {
  }

  lemma AlignedCursor(words: nat, n: nat)
    ensures 4 * words + n + Padding(4 * words + n) == 4 * words + Aligned(n)
  {
    AlignedIs(4 * words + n);
    assert (4 * words + n + 3) / 4 == words + (n + 3) / 4;
  }

  /** From an aligned cursor, the checked sums are the padded lengths. */
  lemma AdvanceIs(d: Directory, cursor: nat, words: nat)
    requires cursor == 4 * words
    ensures var end := cursor + Aligned(d.csiLength) + Aligned(d.captured);
            && (Advance(d, cursor).Some? <==> end <= U32_MAX)
            && (Advance(d, cursor).Some? ==>
                  Advance(d, cursor).value
                  == Offsets(SpanOffset(cursor, d.csiLength), SpanOffset(cursor + Aligned(d.csiLength), d.captured), end))
  {
    hide Padding, SpanOffset;
    AlignedCursor(words, d.csiLength);
    AlignedCursor(words + (d.csiLength + 3) / 4, d.captured);
  }

  predicate FramesTyped(frames: seq<Directory>) {
    forall d :: d in frames ==> d.Fits()
  }

  /** Where the payload of frame `n` starts. */
  function PayloadFrom(kind: Kind, frames: seq<Directory>, n: nat): nat
    requires n <= |frames|
  {
    if n == 0 then ControlEnd(kind, |frames|)
    else PayloadFrom(kind, frames, n - 1) + Aligned(frames[n - 1].csiLength) + Aligned(frames[n - 1].captured)
  }

  lemma {:induction false} PayloadWords(kind: Kind, frames: seq<Directory>, n: nat) returns (words: nat)
    requires n <= |frames|
    ensures PayloadFrom(kind, frames, n) == 4 * words
  {
    if n == 0 {
      words := if kind == Csi then 8 + 74 * |frames| else 8 + 70 * |frames|;
    } else {
      var before := PayloadWords(kind, frames, n - 1);
      words := before + (frames[n - 1].csiLength + 3) / 4 + (frames[n - 1].captured + 3) / 4;
    }
  }

  lemma {:induction false} PayloadGrows(kind: Kind, frames: seq<Directory>, m: nat, n: nat)
    requires m <= n <= |frames|
    ensures PayloadFrom(kind, frames, m) <= PayloadFrom(kind, frames, n)
  {
    hide Aligned, ControlEnd;
    if m < n {
      PayloadGrows(kind, frames, m, n - 1);
    }
  }

  datatype Layout = Layout(frameCount: nat, directoryBytes: nat, metadataBase: nat, controlBytes: nat, totalBytes: nat)

  predicate Writable(kind: Kind, frames: seq<Directory>)
    requires FramesTyped(frames)
  {
    && 1 <= |frames| <= 128 && (forall d :: d in frames ==> FrameAccepted(kind, d))
    && PayloadFrom(kind, frames, |frames|) <= U32_MAX
  }

  function LayoutOf(kind: Kind, frames: seq<Directory>): Layout {
    Layout(|frames|, RowSize(kind), MetadataBase(kind, |frames|), ControlEnd(kind, |frames|), PayloadFrom(kind, frames, |frames|))
  }

  /** `esp32_mquickjs_wifi_rx_wire_layout` */
  method MakeLayout(kind: Kind, frames: seq<Directory>) returns (r: Option<Layout>)
    requires FramesTyped(frames)
    ensures r == if Writable(kind, frames) then Some(LayoutOf(kind, frames)) else None
  {
    hide Advance, FrameAccepted, PayloadFrom, Aligned;
    if |frames| == 0 || |frames| > 128 {
      return None;
    }
    var cursor := ControlEnd(kind, |frames|);
    PayloadStarts(kind, frames);
    for i := 0 to |frames|
      invariant cursor == PayloadFrom(kind, frames, i) <= U32_MAX
      invariant forall k :: 0 <= k < i ==> FrameAccepted(kind, frames[k])
    {
      assert frames[i] in frames;
      if !FrameAccepted(kind, frames[i]) {
        return None;
      }
      ghost var words := PayloadWords(kind, frames, i);
      AdvanceIs(frames[i], cursor, words);
      PayloadNext(kind, frames, i);
      var offsets := Advance(frames[i], cursor);
      if offsets.None? {
        PayloadGrows(kind, frames, i + 1, |frames|);
        return None;
      }
      cursor := offsets.value.end;
    }
    return Some(Layout(|frames|, RowSize(kind), MetadataBase(kind, |frames|), ControlEnd(kind, |frames|), cursor));
  }

  lemma PayloadStarts(kind: Kind, frames: seq<Directory>)
    requires |frames| <= 128
    ensures PayloadFrom(kind, frames, 0) == ControlEnd(kind, |frames|) <= U32_MAX
  {
  }

  lemma PayloadNext(kind: Kind, frames: seq<Directory>, i: nat)
    requires i < |frames|
    ensures PayloadFrom(kind, frames, i + 1)
            == PayloadFrom(kind, frames, i) + Aligned(frames[i].csiLength) + Aligned(frames[i].captured)
  {
    hide Aligned, ControlEnd;
  }

  // --------------------------------------------------------------------- writing

  /** A buffer with `s` written at `o`. */
  function Write(before: bytes, o: nat, s: bytes): (after: bytes)
    requires o + |s| <= |before|
    ensures |after| == |before|
  {
    before[..o] + s + before[o + |s|..]
  }

  /** Writing a string is writing its parts one after the other. */
  lemma WriteParts(before: bytes, o: nat, s: bytes, rest: bytes)
    requires o + |s| + |rest| <= |before|
    ensures Write(before, o, s + rest) == Write(Write(before, o, s), o + |s|, rest)
  {
  }

  lemma WriteNothing(before: bytes, o: nat)
    requires o <= |before|
    ensures Write(before, o, []) == before
  {
  }

  /** `rx_wire_u16` */
  method PutU16(output: array<byte>, o: nat, v: nat, ghost rest: bytes)
    requires IsU16(v) && o + 2 + |rest| <= output.Length
    modifies output
    ensures output[..] == Write(old(output[..]), o, Put16(v))
    ensures Write(old(output[..]), o, Put16(v) + rest) == Write(output[..], o + 2, rest)
  {
    ghost var before := output[..];
    output[o], output[o + 1] := v % 0x100, v / 0x100;
    assert output[..] == Write(before, o, Put16(v));
    WriteParts(before, o, Put16(v), rest);
  }

  /** `rx_wire_u32` */
  method PutU32(output: array<byte>, o: nat, v: nat, ghost rest: bytes)
    requires IsU32(v) && o + 4 + |rest| <= output.Length
    modifies output
    ensures output[..] == Write(old(output[..]), o, Put32(v))
    ensures Write(old(output[..]), o, Put32(v) + rest) == Write(output[..], o + 4, rest)
  {
    ghost var before := output[..];
    output[o], output[o + 1], output[o + 2], output[o + 3] := v % 0x100, v / 0x100 % 0x100, v / 0x1_0000 % 0x100, v / 0x100_0000;
    assert output[..] == Write(before, o, Put32(v));
    WriteParts(before, o, Put32(v), rest);
  }

  /** A CSI row without its reserved last word. */
  function CsiRowHead(metaOffset: nat, csiOffset: nat, packetOffset: nat, d: Directory): (s: bytes)
    requires IsU32(metaOffset) && IsU32(csiOffset) && IsU32(packetOffset) && d.Fits()
    ensures |s| == 36
  {
    Put32(metaOffset)
    + (Put32(csiOffset) + (Put32(d.csiLength) + (Put32(packetOffset) + (Put32(d.captured) + CsiRowEnd(d)))))
  }

  function CsiRowEnd(d: Directory): (s: bytes)
    requires d.Fits()
    ensures |s| == 16
  {
    Put16(d.headerPrefix) + (PutFlags16(d.flags) + (Put32(d.payloadReport) + (Put32(d.readable) + Put32(d.sequence))))
  }

  lemma Regroup(a: bytes, b: bytes, c: bytes)
    ensures a + (b + c) == (a + b) + c
  {
  }

  lemma CsiRowEnds(d: Directory)
    requires d.Fits()
    ensures RowTail(d) == CsiRowEnd(d) + Put32(0)
  {
    hide Put32, Put16, PutFlags16;
    var z, j, i, h, g := Put32(0), Put32(d.sequence), Put32(d.readable), Put32(d.payloadReport), PutFlags16(d.flags);
    Regroup(i, j, z);
    Regroup(h, i + j, z);
    Regroup(g, h + (i + j), z);
    Regroup(Put16(d.headerPrefix), g + (h + (i + j)), z);
  }

  lemma CsiRowIs(metaOffset: nat, csiOffset: nat, packetOffset: nat, d: Directory)
    requires IsU32(metaOffset) && IsU32(csiOffset) && IsU32(packetOffset) && d.Fits()
    ensures CsiRow(metaOffset, csiOffset, packetOffset, d) == CsiRowHead(metaOffset, csiOffset, packetOffset, d) + Zeros(4)
  {
    hide Put32, Put16, PutFlags16, RowTail, CsiRowEnd;
    CsiRowEnds(d);
    CsiRowTail(metaOffset, csiOffset, packetOffset, d);
    ZeroWord();
    var z, e := Put32(0), Put32(d.captured) + CsiRowEnd(d);
    Regroup(Put32(d.captured), CsiRowEnd(d), z);
    Regroup(Put32(packetOffset), e, z);
    Regroup(Put32(d.csiLength), Put32(packetOffset) + e, z);
    Regroup(Put32(csiOffset), Put32(d.csiLength) + (Put32(packetOffset) + e), z);
    Regroup(Put32(metaOffset), Put32(csiOffset) + (Put32(d.csiLength) + (Put32(packetOffset) + e)), z);
  }

  lemma CsiRowTail(metaOffset: nat, csiOffset: nat, packetOffset: nat, d: Directory)
    requires IsU32(metaOffset) && IsU32(csiOffset) && IsU32(packetOffset) && d.Fits()
    ensures CsiRow(metaOffset, csiOffset, packetOffset, d)
            == Put32(metaOffset)
               + (Put32(csiOffset) + (Put32(d.csiLength) + (Put32(packetOffset) + (Put32(d.captured) + RowTail(d)))))
  {
    hide Put32, Put16, PutFlags16;
  }

  lemma ZeroWord()
    ensures Put32(0) == Zeros(4)
  {
  }

  method WriteCsiRow(output: array<byte>, o: nat, metaOffset: nat, csiOffset: nat, packetOffset: nat, d: Directory)
    requires o + 36 <= output.Length
    requires IsU32(metaOffset) && IsU32(csiOffset) && IsU32(packetOffset) && d.Fits()
    modifies output
    ensures output[..] == Write(old(output[..]), o, CsiRowHead(metaOffset, csiOffset, packetOffset, d))
  {
    hide Put32, Put16, PutFlags16, Write;
    ghost var h := Put32(d.readable) + Put32(d.sequence);
    ghost var g := Put32(d.payloadReport) + h;
    ghost var e := CsiRowEnd(d);
    ghost var f := Put32(packetOffset) + (Put32(d.captured) + e);
    PutU32(output, o, metaOffset, Put32(csiOffset) + (Put32(d.csiLength) + f));
    PutU32(output, o + 4, csiOffset, Put32(d.csiLength) + f);
    PutU32(output, o + 8, d.csiLength, f);
    PutU32(output, o + 12, packetOffset, Put32(d.captured) + e);
    PutU32(output, o + 16, d.captured, e);
    FlagsWord(d.flags);
    PutU16(output, o + 20, d.headerPrefix, PutFlags16(d.flags) + g);
    PutU16(output, o + 22, FromBits(d.flags), g);
    PutU32(output, o + 24, d.payloadReport, h);
    PutU32(output, o + 28, d.readable, Put32(d.sequence));
    assert Put32(d.sequence) + [] == Put32(d.sequence);
    PutU32(output, o + 32, d.sequence, []);
    WriteNothing(output[..], o + 36);
  }

  lemma FlagsWord(flags: seq<bool>)
    requires |flags| == 16
    ensures IsU16(FromBits(flags)) && PutFlags16(flags) == Put16(FromBits(flags))
  {
    FromBitsBound(flags);
    Pow2Words();
  }

  method WriteMonitorRow(output: array<byte>, o: nat, metaOffset: nat, packetOffset: nat, d: Directory)
    requires o + 24 <= output.Length
    requires IsU32(metaOffset) && IsU32(packetOffset) && d.Fits()
    modifies output
    ensures output[..] == Write(old(output[..]), o, MonitorRow(metaOffset, packetOffset, d))
  {
    hide Put32, Put16, PutFlags16, Write;
    ghost var g := Put16(d.headerPrefix) + PutFlags16(d.flags);
    ghost var f := Put32(d.payloadReport) + (Put32(d.readable) + g);
    PutU32(output, o, metaOffset, Put32(packetOffset) + (Put32(d.captured) + f));
    PutU32(output, o + 4, packetOffset, Put32(d.captured) + f);
    PutU32(output, o + 8, d.captured, f);
    PutU32(output, o + 12, d.payloadReport, Put32(d.readable) + g);
    PutU32(output, o + 16, d.readable, g);
    FlagsWord(d.flags);
    PutU16(output, o + 20, d.headerPrefix, PutFlags16(d.flags));
    assert PutFlags16(d.flags) + [] == PutFlags16(d.flags);
    PutU16(output, o + 22, FromBits(d.flags), []);
    WriteNothing(output[..], o + 24);
  }

  // ----------------------------------------------------------------- all of control

  lemma RowBounds(kind: Kind, frames: seq<Directory>, i: nat)
    requires FramesTyped(frames) && Writable(kind, frames) && i < |frames|
    ensures frames[i].Fits() && IsU32(MetadataBase(kind, |frames|) + 256 * i)
    ensures PayloadFrom(kind, frames, i) + Aligned(frames[i].csiLength) + Aligned(frames[i].captured) <= U32_MAX
  {
    hide Aligned, PayloadFrom, FrameAccepted;
    assert frames[i] in frames;
    PayloadNext(kind, frames, i);
    PayloadGrows(kind, frames, i + 1, |frames|);
  }

  /** The directory row of frame `i`. */
  function FrameRow(kind: Kind, frames: seq<Directory>, i: nat): (s: bytes)
    requires FramesTyped(frames) && Writable(kind, frames) && i < |frames|
    ensures |s| == RowSize(kind)
  {
    hide PayloadFrom, Aligned, CsiRow, MonitorRow, Writable;
    RowBounds(kind, frames, i);
    var d, cursor, metaOffset := frames[i], PayloadFrom(kind, frames, i), MetadataBase(kind, |frames|) + 256 * i;
    var packetOffset := SpanOffset(cursor + Aligned(d.csiLength), d.captured);
    if kind == Csi then CsiRow(metaOffset, SpanOffset(cursor, d.csiLength), packetOffset, d)
    else MonitorRow(metaOffset, packetOffset, d)
  }

  function FrameRows(kind: Kind, frames: seq<Directory>, n: nat): (s: bytes)
    requires FramesTyped(frames) && Writable(kind, frames) && n <= |frames|
    ensures |s| == RowsSize(kind, n)
  {
    hide Writable, FrameRow;
    if n == 0 then [] else FrameRows(kind, frames, n - 1) + FrameRow(kind, frames, n - 1)
  }

  lemma ZerosSplit(m: nat, n: nat)
    ensures Zeros(m + n) == Zeros(m) + Zeros(n)
  {
  }

  /** Writing into the zeroed part of a buffer. */
  lemma FillZeros(before: bytes, a: bytes, m: nat, s: bytes)
    requires |a| + m <= |before| && |s| <= m
    ensures Write(Write(before, 0, a + Zeros(m)), |a|, s) == Write(before, 0, a + s + Zeros(m - |s|))
  {
    ZerosSplit(|s|, m - |s|);
    var x, y := Write(Write(before, 0, a + Zeros(m)), |a|, s), Write(before, 0, a + s + Zeros(m - |s|));
    assert |x| == |y| == |before|;
    forall i | 0 <= i < |before|
      ensures x[i] == y[i]
    {
    }
  }

  /** The header without its reserved last word. */
  function HeaderHead(kind: Kind, count: nat, total: nat): (s: bytes)
    requires count <= 128 && IsU32(total)
    ensures |s| == 28
  {
    Magic(kind) + (Put16(1) + (Put16(32) + (Put32(count) + HeaderRest(kind, total))))
  }

  function HeaderRest(kind: Kind, total: nat): (s: bytes)
    requires IsU32(total)
    ensures |s| == 12
  {
    Put16(RowSize(kind)) + (Put16(256) + (Put32(1) + Put32(total)))
  }

  lemma HeaderIs(kind: Kind, count: nat, total: nat)
    requires count <= 128 && IsU32(total)
    ensures HeaderBytes(kind, count, total) == HeaderHead(kind, count, total) + Zeros(4)
  {
    hide Put32, Put16, Magic;
    ZeroWord();
    var z, rest := Put32(0), HeaderRest(kind, total);
    Regroup(Put32(1), Put32(total), z);
    Regroup(Put16(256), Put32(1) + Put32(total), z);
    Regroup(Put16(RowSize(kind)), Put16(256) + (Put32(1) + Put32(total)), z);
    Regroup(Put32(count), rest, z);
    Regroup(Put16(32), Put32(count) + rest, z);
    Regroup(Put16(1), Put16(32) + (Put32(count) + rest), z);
    Regroup(Magic(kind), Put16(1) + (Put16(32) + (Put32(count) + rest)), z);
  }

  /** `memset` and `memcpy` */
  method PutBytes(output: array<byte>, o: nat, s: bytes, ghost rest: bytes)
    requires o + |s| + |rest| <= output.Length
    modifies output
    ensures output[..] == Write(old(output[..]), o, s)
    ensures Write(old(output[..]), o, s + rest) == Write(output[..], o + |s|, rest)
  {
    ghost var before := output[..];
    var i := 0;
    while i < |s|
      invariant 0 <= i <= |s|
      invariant forall k :: o <= k < o + i ==> output[k] == s[k - o]
      invariant forall k :: 0 <= k < output.Length && !(o <= k < o + i) ==> output[k] == before[k]
    {
      output[o + i] := s[i];
      i := i + 1;
    }
    assert output[..] == Write(before, o, s);
    WriteParts(before, o, s, rest);
  }

  method WriteHeader(output: array<byte>, kind: Kind, count: nat, total: nat)
    requires 28 <= output.Length && count <= 128 && IsU32(total)
    modifies output
    ensures output[..] == Write(old(output[..]), 0, HeaderHead(kind, count, total))
  {
    hide Put32, Put16, Magic, Write;
    ghost var rest := HeaderRest(kind, total);
    PutBytes(output, 0, Magic(kind), Put16(1) + (Put16(32) + (Put32(count) + rest)));
    PutU16(output, 8, 1, Put16(32) + (Put32(count) + rest));
    PutU16(output, 10, 32, Put32(count) + rest);
    PutU32(output, 12, count, rest);
    PutU16(output, 16, RowSize(kind), Put16(256) + (Put32(1) + Put32(total)));
    PutU16(output, 18, 256, Put32(1) + Put32(total));
    PutU32(output, 20, 1, Put32(total));
    assert Put32(total) + [] == Put32(total);
    PutU32(output, 24, total, []);
    WriteNothing(output[..], 28);
  }

  /** Header, directory rows and zeroed metadata slots. */
  function ControlBytes(kind: Kind, frames: seq<Directory>): (s: bytes)
    requires FramesTyped(frames) && Writable(kind, frames)
    ensures |s| == ControlEnd(kind, |frames|)
  {
    hide FrameRows, HeaderBytes;
    HeaderBytes(kind, |frames|, PayloadFrom(kind, frames, |frames|)) + FrameRows(kind, frames, |frames|) + Zeros(256 * |frames|)
  }

  method WriteRow(output: array<byte>, kind: Kind, frames: seq<Directory>, i: nat, layout: Layout, cursor: nat,
                  ghost before: bytes, ghost done: bytes, ghost left: nat) returns (end: nat)
    requires FramesTyped(frames) && Writable(kind, frames) && i < |frames| && layout == LayoutOf(kind, frames)
    requires cursor == PayloadFrom(kind, frames, i)
    requires |done| == 32 + RowsSize(kind, i) && |done| + left <= output.Length == |before| && RowSize(kind) <= left
    requires output[..] == Write(before, 0, done + Zeros(left))
    modifies output
    ensures end == PayloadFrom(kind, frames, i + 1)
    ensures output[..] == Write(before, 0, done + FrameRow(kind, frames, i) + Zeros(left - RowSize(kind)))
  {
    hide PayloadFrom, Aligned, Advance, Write, CsiRow, MonitorRow, CsiRowHead, Zeros, Writable, FramesTyped;
    var d := frames[i];
    RowBounds(kind, frames, i);
    ghost var words := PayloadWords(kind, frames, i);
    AdvanceIs(d, cursor, words);
    PayloadNext(kind, frames, i);
    var offsets := Advance(d, cursor).value;
    end := offsets.end;
    var directory := 32 + i * layout.directoryBytes;
    RowPlace(kind, i);
    var metaOffset := layout.metadataBase + i * 256;
    if kind == Csi {
      WriteCsiRow(output, directory, metaOffset, offsets.csi, offsets.packet, d);
      FillZeros(before, done, left, CsiRowHead(metaOffset, offsets.csi, offsets.packet, d));
      CsiRowIs(metaOffset, offsets.csi, offsets.packet, d);
      ReservedZeros(done, CsiRowHead(metaOffset, offsets.csi, offsets.packet, d), 4, left - 40);
    } else {
      WriteMonitorRow(output, directory, metaOffset, offsets.packet, d);
      FillZeros(before, done, left, MonitorRow(metaOffset, offsets.packet, d));
    }
  }

  lemma RowPlace(kind: Kind, i: nat)
    ensures i * RowSize(kind) == RowsSize(kind, i)
  {
  }

  lemma ReservedZeros(a: bytes, s: bytes, m: nat, n: nat)
    ensures a + s + Zeros(m + n) == a + (s + Zeros(m)) + Zeros(n)
  {
    ZerosSplit(m, n);
  }

  /** The zeroed control region with its header. */
  method StartControl(output: array<byte>, kind: Kind, count: nat, layout: Layout)
    requires 1 <= count <= 128 && IsU32(layout.totalBytes) && 32 <= layout.controlBytes <= output.Length
    modifies output
    ensures output[..]
            == Write(old(output[..]), 0, HeaderBytes(kind, count, layout.totalBytes) + Zeros(layout.controlBytes - 32))
  {
    hide Write, HeaderBytes, HeaderHead, Zeros;
    ghost var before, head := output[..], HeaderHead(kind, count, layout.totalBytes);
    PutBytes(output, 0, Zeros(layout.controlBytes), []);
    WriteHeader(output, kind, count, layout.totalBytes);
    assert [] + Zeros(layout.controlBytes) == Zeros(layout.controlBytes);
    FillZeros(before, [], layout.controlBytes, head);
    HeaderIs(kind, count, layout.totalBytes);
    ReservedZeros([], head, 4, layout.controlBytes - 32);
    assert [] + head == head && [] + (head + Zeros(4)) == head + Zeros(4);
  }

  /** `esp32_mquickjs_wifi_rx_wire_write_control`: nothing is changed on failure; on
      success exactly the control region is, and it holds header, rows and zeros. */
  method WriteControl(kind: Kind, frames: seq<Directory>, output: array<byte>) returns (ok: bool)
    requires FramesTyped(frames)
    modifies output
    ensures ok <==> Writable(kind, frames) && ControlEnd(kind, |frames|) <= output.Length
    ensures !ok ==> output[..] == old(output[..])
    ensures ok ==> output[..] == Write(old(output[..]), 0, ControlBytes(kind, frames))
  {
    hide Writable, FramesTyped, PayloadFrom, Write, FrameRow, HeaderBytes, HeaderHead, Zeros;
    var made := MakeLayout(kind, frames);
    if made.None? || output.Length < made.value.controlBytes {
      return false;
    }
    var layout := made.value;
    WritableCount(kind, frames);
    ghost var before, header := output[..], HeaderBytes(kind, |frames|, layout.totalBytes);
    StartControl(output, kind, |frames|, layout);
    var cursor := layout.controlBytes;
    PayloadStarts(kind, frames);
    assert header + FrameRows(kind, frames, 0) == header;
    for i := 0 to |frames|
      invariant cursor == PayloadFrom(kind, frames, i)
      invariant output[..] == Write(before, 0, header + FrameRows(kind, frames, i) + Zeros(layout.controlBytes - 32 - RowsSize(kind, i)))
    {
      cursor := WriteRow(output, kind, frames, i, layout, cursor, before, header + FrameRows(kind, frames, i),
                         layout.controlBytes - 32 - RowsSize(kind, i));
      Regroup(header, FrameRows(kind, frames, i), FrameRow(kind, frames, i));
    }
    return true;
  }

  lemma WritableCount(kind: Kind, frames: seq<Directory>)
    requires FramesTyped(frames) && Writable(kind, frames)
    ensures 1 <= |frames| <= 128 && PayloadFrom(kind, frames, |frames|) <= U32_MAX
  {
    hide FrameAccepted, PayloadFrom;
  }
}
