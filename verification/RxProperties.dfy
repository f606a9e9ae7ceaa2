/** What the decoder guarantees about every batch it accepts. */
module RxProperties {
  import opened Wire
  import opened CsiLayouts
  import opened RxRecords
  import opened RxBatches
  import opened RxBatchProofs
  import opened RxCanonical

  // ------------------------------------------------------------------- tiling

  /** Where frame `i`'s payload starts. */
  function PayloadStart(b: RxBatch, i: nat): nat
    requires i <= |b.frames|
  {
    ControlEnd(b.kind, |b.frames|) + |PayloadBytes(b.frames[..i])|
  }

  lemma {:induction false} FrameAt(view: bytes, kind: Kind, count: nat, n: nat, p: Progress, i: nat)
    requires i < n <= count <= 128 && ControlEnd(kind, count) <= |view| <= U32_MAX && Held(view, kind, count, n, p)
    ensures |p.frames| == n && ControlEnd(kind, count) + |PayloadBytes(p.frames[..i])| <= |view|
    ensures FrameHeld(view, kind, count, i, ControlEnd(kind, count) + |PayloadBytes(p.frames[..i])|, p.frames[i])
  {
    hide Held, FrameHeld, FramePayload, PayloadBytes, ControlEnd, CsiTotal, PacketTotal;
    HeldCursor(view, kind, count, n, p);
    HeldInit(view, kind, count, n, p);
    var before, f := p.frames[..n - 1], p.frames[n - 1];
    var b := Progress(before, ControlEnd(kind, count) + |PayloadBytes(before)|, CsiTotal(before), PacketTotal(before));
    HeldExtends(view, kind, count, n, b, f);
    if i < n - 1 {
      FrameAt(view, kind, count, n - 1, b, i);
      assert p.frames[..i] == before[..i];
    }
  }

  lemma BatchHeldOf(view: bytes, kind: Kind, b: RxBatch)
    requires ReadBatch(view, kind) == Ok(b)
    ensures b.kind == kind && 1 <= |b.frames| <= 128 && ControlEnd(kind, |b.frames|) <= |view| <= U32_MAX
    ensures Held(view, kind, |b.frames|, |b.frames|, Progress(b.frames, |view|, b.csiBytes, b.packetBytes))
  {
    hide ReadHeader, FramesTo, Held, ControlEnd, PayloadBytes;
    var count := ReadHeader(view, kind).value;
    var p := FramesTo(view, kind, count, count).value;
    FramesSound(view, kind, count, count, p);
    HeldCursor(view, kind, count, count, p);
  }

  /** Payloads tile the input: frame `i`'s CSI bytes, zero fill, packet bytes and zero
      fill stand exactly between its start and the next frame's start; the starts are
      4-aligned, begin where the control regions end and finish at the end of input. */
  lemma PayloadTiling(view: bytes, kind: Kind, b: RxBatch, i: nat)
    requires ReadBatch(view, kind) == Ok(b) && i < |b.frames|
    ensures PayloadStart(b, 0) == ControlEnd(kind, |b.frames|) && PayloadStart(b, |b.frames|) == |view|
    ensures PayloadStart(b, i) % 4 == 0
    ensures var f, start := b.frames[i], PayloadStart(b, i);
            var packetStart := start + |f.csi| + Padding(|f.csi|);
            var next := packetStart + |f.packet| + Padding(|f.packet|);
            && PayloadStart(b, i + 1) == next <= |view| <= U32_MAX
            && view[start..start + |f.csi|] == f.csi && AllZero(view[start + |f.csi|..packetStart])
            && view[packetStart..packetStart + |f.packet|] == f.packet
            && AllZero(view[packetStart + |f.packet|..next])
  {
    hide ReadBatch, Held, FramesFit, FrameHeld, ControlEnd, FramePayload, PayloadBytes, CsiTotal, PacketTotal;
    var n := |b.frames|;
    var p := Progress(b.frames, |view|, b.csiBytes, b.packetBytes);
    BatchHeldOf(view, kind, b);
    HeldCursor(view, kind, n, n, p);
    FrameAt(view, kind, n, n, p, i);
    HeldPayload(view, kind, n, i, PayloadStart(b, i), b.frames[i]);
    HeldSpans(view, PayloadStart(b, i), b.frames[i]);
    StartsStep(b, i);
  }

  lemma StartsStep(b: RxBatch, i: nat)
    requires i < |b.frames|
    ensures PayloadStart(b, 0) == ControlEnd(b.kind, |b.frames|)
    ensures PayloadStart(b, |b.frames|) == ControlEnd(b.kind, |b.frames|) + |PayloadBytes(b.frames)|
    ensures PayloadStart(b, i + 1) == PayloadStart(b, i) + |FramePayload(b.frames[i])|
    ensures PayloadStart(b, i) % 4 == 0
  {
    hide FramePayload;
    assert b.frames[..|b.frames|] == b.frames;
    assert b.frames[..i + 1][..i] == b.frames[..i];
    FramesAligned(b.frames[..i]);
  }

  lemma PaddedSize(s: bytes)
    ensures |Padded(s)| == |s| + Padding(|s|)
  {
  }

  lemma HeldSpans(view: bytes, start: nat, f: RxFrame)
    requires start + |FramePayload(f)| <= |view| && view[start..start + |FramePayload(f)|] == FramePayload(f)
    ensures var packetStart := start + |f.csi| + Padding(|f.csi|);
            var next := packetStart + |f.packet| + Padding(|f.packet|);
            && start + |FramePayload(f)| == next <= |view|
            && view[start..start + |f.csi|] == f.csi && AllZero(view[start + |f.csi|..packetStart])
            && view[packetStart..packetStart + |f.packet|] == f.packet
            && AllZero(view[packetStart + |f.packet|..next])
  {
    hide FramePayload, Padded, Padding, AllZero;
    PaddedPair(view, start, f);
    PayloadSize(f);
    PaddedSize(f.csi);
    PaddedSize(f.packet);
    PaddedSlice(view, start, f.csi);
    PaddedSlice(view, start + |Padded(f.csi)|, f.packet);
  }

  lemma HeldPayload(view: bytes, kind: Kind, count: nat, i: nat, start: nat, f: RxFrame)
    requires i < count && ControlEnd(kind, count) <= |view| <= U32_MAX && start <= |view|
    requires FrameHeld(view, kind, count, i, start, f)
    ensures start + |FramePayload(f)| <= |view| && view[start..start + |FramePayload(f)|] == FramePayload(f)
  {
    hide FrameValid, MetadataFits, RowFits, RowBytes, RecordBytes, RowSlice, RecordSlice, FramePayload;
  }

  lemma PayloadSize(f: RxFrame)
    ensures |FramePayload(f)| == |Padded(f.csi)| + |Padded(f.packet)|
  {
  }

  lemma PaddedSlice(view: bytes, o: nat, s: bytes)
    requires o + |Padded(s)| <= |view| && view[o..o + |Padded(s)|] == Padded(s)
    ensures view[o..o + |s|] == s && AllZero(view[o + |s|..o + |s| + Padding(|s|)])
  {
    SliceSplit(view, o, o + |Padded(s)|, s, Zeros(Padding(|s|)));
  }

  /** The byte totals a batch reports are the sums of its span lengths, and offsets stay in a uint32. */
  lemma TotalsAreSums(view: bytes, kind: Kind, b: RxBatch)
    requires ReadBatch(view, kind) == Ok(b)
    ensures b.csiBytes == CsiTotal(b.frames) && b.packetBytes == PacketTotal(b.frames)
    ensures b.metadataBytes == 256 * |b.frames| && b.totalBytes == |view|
    ensures b.csiBytes + b.packetBytes <= |view| - ControlEnd(kind, |b.frames|)
  {
    hide ReadBatch, FramesValid, CsiTotal, PacketTotal;
    ReadSound(view, kind, b);
    TotalsBounded(b.frames);
  }

  // ---------------------------------------------------------------- packet lengths

  lemma {:induction false} FramesEach(kind: Kind, fs: seq<RxFrame>, i: nat)
    requires FramesValid(kind, fs) && i < |fs|
    ensures FrameValid(kind, fs[i])
  {
    hide FrameValid;
    if i < |fs| - 1 {
      FramesEach(kind, fs[..|fs| - 1], i);
    }
  }

  lemma AcceptedFrame(view: bytes, kind: Kind, b: RxBatch, i: nat)
    requires ReadBatch(view, kind) == Ok(b) && i < |b.frames|
    ensures FrameValid(kind, b.frames[i])
  {
    hide ReadBatch, FrameValid;
    ReadSound(view, kind, b);
    FramesEach(kind, b.frames, i);
  }

  /** In every accepted frame the captured bytes, the proven readable span, the driver's
      report and the capture flags tell one consistent story. */
  lemma PacketLengths(view: bytes, kind: Kind, b: RxBatch, i: nat)
    requires ReadBatch(view, kind) == Ok(b) && i < |b.frames|
    ensures var f := b.frames[i];
            var p, c := f.metadata.packet, f.metadata.packet.capture;
            && (c.present <==> f.packet != []) && |f.packet| <= f.readable
            && (p.driverPacket.Some? ==> f.readable <= p.driverPacket.value)
            && (c.present && !c.headerOnly && !c.truncated ==>
                  |f.packet| == f.readable && (p.driverPacket.Some? ==> f.readable == p.driverPacket.value))
            && (c.headerOnly ==> c.present && c.parseValid && |f.packet| == p.headerLength == f.headerPrefix
                                 && p.captureMode == HeaderCapture)
            && (c.truncated ==> c.present && |f.packet| < p.driverPacket.GetOr(f.readable))
            && f.headerPrefix <= |f.packet|
  {
    hide ReadBatch, IdentityValid, AddressesValid, RadioValid, RawScalarsValid, LayoutValid, LayoutFits;
    hide PacketFits, FrameControlValid, HeaderWordsValid;
    AcceptedFrame(view, kind, b, i);
  }

  // ------------------------------------------------------------------- CSI layout

  lemma {:induction false} SegmentsEach(segs: seq<CsiSegment>, encoding: Encoding, known: bool, i: nat)
    requires SegmentsValid(segs, encoding, known) && i < |segs|
    ensures SegmentValid(segs[i], encoding, known) && segs[i].offsetBytes == LengthTotal(segs[..i])
    ensures LengthTotal(segs[..i + 1]) == segs[i].offsetBytes + segs[i].lengthBytes
  {
    hide SegmentValid;
    var n := |segs| - 1;
    if i < n {
      SegmentsEach(segs[..n], encoding, known, i);
      assert segs[..n][..i] == segs[..i] && segs[..n][..i + 1] == segs[..i + 1];
    } else {
      assert segs[..i + 1] == segs;
    }
  }

  lemma {:induction false} PairsTimesWidth(segs: seq<CsiSegment>, encoding: Encoding, known: bool)
    requires SegmentsValid(segs, encoding, known) && encoding != UnknownEncoding
    ensures LengthTotal(segs) == PairTotal(segs) * BytesPerPair(encoding)
  {
    if segs != [] {
      PairsTimesWidth(segs[..|segs| - 1], encoding, known);
    }
  }

  function Interval(start: int, end: int): (s: set<int>)
    requires start <= end + 1
    ensures forall k :: k in s <==> start <= k <= end
    ensures |s| == end - start + 1
    decreases end - start + 1
  {
    if start == end + 1 then {} else Interval(start, end - 1) + {end}
  }

  /** The subcarriers a segment names. */
  function Subcarriers(ranges: seq<CsiRange>): set<int>
    requires forall r :: r in ranges ==> r.start <= r.end
  {
    if ranges == [] then {}
    else
      var r := ranges[|ranges| - 1];
      Subcarriers(ranges[..|ranges| - 1]) + Interval(r.start, r.end)
  }

  lemma SubcarrierCount(ranges: seq<CsiRange>)
    requires |ranges| <= 2 && (forall r :: r in ranges ==> r.start <= r.end)
    requires |ranges| == 2 ==> Disjoint(ranges[0], ranges[1])
    ensures |Subcarriers(ranges)| == RangeTotal(ranges)
  {
    if |ranges| == 1 {
      assert Subcarriers(ranges[..0]) == {};
    } else if |ranges| == 2 {
      assert ranges[..1][..0] == [];
      assert Subcarriers(ranges[..1]) == Interval(ranges[0].start, ranges[0].end);
      assert Interval(ranges[0].start, ranges[0].end) !! Interval(ranges[1].start, ranges[1].end);
    }
  }

  predicate RangesOrdered(seg: CsiSegment) {
    forall r :: r in seg.ranges ==> r.start <= r.end
  }

  /** Accepted CSI layouts are sound: segments tile the CSI bytes before the padding, IQ
      counts add up, a known encoding fixes the byte length, and in a known layout each
      segment names exactly as many distinct subcarriers as it has IQ pairs. */
  lemma LayoutTiling(view: bytes, kind: Kind, b: RxBatch, i: nat)
    requires ReadBatch(view, kind) == Ok(b) && i < |b.frames|
    ensures var l, csi := b.frames[i].metadata.layout, b.frames[i].csi;
            && LengthTotal(l.segments) + l.padding == |csi| && PairTotal(l.segments) == l.iqPairs
            && (l.encoding != UnknownEncoding ==> |csi| == l.iqPairs * BytesPerPair(l.encoding) + l.padding)
            && forall k :: 0 <= k < |l.segments| ==>
                 && l.segments[k].offsetBytes == LengthTotal(l.segments[..k])
                 && LengthTotal(l.segments[..k + 1]) == l.segments[k].offsetBytes + l.segments[k].lengthBytes
                 && l.segments[k].lengthBytes > 0
                 && RangesOrdered(l.segments[k])
                 && (l.known ==> |Subcarriers(l.segments[k].ranges)| == l.segments[k].iqPairs)
  {
    hide ReadBatch, SegmentsValid, LengthTotal, PairTotal, Subcarriers, MetadataValid;
    AcceptedFrame(view, kind, b, i);
    var l := b.frames[i].metadata.layout;
    ValidLayout(b.frames[i].metadata, kind, b.frames[i].readable);
    if l.encoding != UnknownEncoding {
      PairsTimesWidth(l.segments, l.encoding, l.known);
    }
    forall k | 0 <= k < |l.segments|
      ensures l.segments[k].offsetBytes == LengthTotal(l.segments[..k])
      ensures LengthTotal(l.segments[..k + 1]) == l.segments[k].offsetBytes + l.segments[k].lengthBytes
      ensures l.segments[k].lengthBytes > 0
      ensures RangesOrdered(l.segments[k])
      ensures l.known ==> |Subcarriers(l.segments[k].ranges)| == l.segments[k].iqPairs
    {
      SegmentTiling(l.segments, l.encoding, l.known, k);
    }
  }

  lemma SegmentTiling(segs: seq<CsiSegment>, encoding: Encoding, known: bool, k: nat)
    requires SegmentsValid(segs, encoding, known) && k < |segs|
    ensures segs[k].offsetBytes == LengthTotal(segs[..k])
    ensures LengthTotal(segs[..k + 1]) == segs[k].offsetBytes + segs[k].lengthBytes
    ensures segs[k].lengthBytes > 0 && RangesOrdered(segs[k])
    ensures known ==> |Subcarriers(segs[k].ranges)| == segs[k].iqPairs
  {
    hide SegmentsValid, LengthTotal, PairTotal, Subcarriers;
    SegmentsEach(segs, encoding, known, k);
    SubcarrierCount(segs[k].ranges);
  }

  lemma ValidLayout(m: RxMetadata, kind: Kind, readable: nat)
    requires MetadataValid(m, kind, readable)
    ensures LayoutValid(m.layout, m.firstWordInvalid, m.csiDataValid)
  {
  }

  // ------------------------------------------------------------ what a segment may be

  lemma {:induction false} DistinctCount<T>(s: seq<T>)
    ensures |set x | x in s| <= |s|
    ensures Distinct(s) <==> |set x | x in s| == |s|
  {
    if s != [] {
      var init, last := s[..|s| - 1], s[|s| - 1];
      DistinctCount(init);
      assert s == init + [last];
      assert (set x | x in s) == (set x | x in init) + {last};
      if last in init {
        var k :| 0 <= k < |init| && init[k] == last;
        assert s[k] == s[|s| - 1];
      } else {
        assert Distinct(s) <==> Distinct(init);
      }
    }
  }

  lemma DisjointMeans(a: CsiRange, b: CsiRange)
    requires a.start <= a.end && b.start <= b.end
    ensures Disjoint(a, b) <==> Interval(a.start, a.end) !! Interval(b.start, b.end)
  {
    if !Disjoint(a, b) {
      var k := if a.start <= b.start then b.start else a.start;
      assert k in Interval(a.start, a.end) && k in Interval(b.start, b.end);
    }
  }

  /** Bytes, ranges and nulls of a segment in terms of its samples and subcarriers: the
      encoding fixes the bytes of an IQ pair, no subcarrier is named twice, and a known
      segment names one for each pair. */
  predicate SegmentSound(seg: CsiSegment, encoding: Encoding, known: bool) {
    && seg.lengthBytes > 0
    && (match encoding
        case UnknownEncoding => true
        case SignedInt8 => seg.lengthBytes == 2 * seg.iqPairs
        case SignedInt12Le => seg.lengthBytes == 4 * seg.iqPairs
        case SignedInt12Packed => seg.lengthBytes == 3 * seg.iqPairs)
    && RangesOrdered(seg)
    && (|seg.ranges| == 2 ==>
          Interval(seg.ranges[0].start, seg.ranges[0].end) !! Interval(seg.ranges[1].start, seg.ranges[1].end))
    && (known ==> seg.kind != UnknownSegment && |Subcarriers(seg.ranges)| == seg.iqPairs)
    && |set n | n in seg.nulls| == |seg.nulls|
  }

  lemma SegmentMeans(seg: CsiSegment, encoding: Encoding, known: bool)
    ensures SegmentValid(seg, encoding, known) <==> SegmentFits(seg) && SegmentSound(seg, encoding, known)
  {
    hide Distinct, Disjoint, RangeTotal, Subcarriers, IsI16, IsU32;
    DistinctCount(seg.nulls);
    if |seg.ranges| <= 2 && RangesOrdered(seg) {
      if |seg.ranges| == 2 {
        DisjointMeans(seg.ranges[0], seg.ranges[1]);
      }
      if |seg.ranges| < 2 || Disjoint(seg.ranges[0], seg.ranges[1]) {
        SubcarrierCount(seg.ranges);
      }
    }
  }
}
