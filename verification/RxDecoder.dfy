/** The decoder in the source's own form: loops that move a cursor and collect frames
    (scripts/capture/rx.py). Each is proved equal to the function it computes, whose
    meaning RxCanonical gives. */
module RxDecoder {
  import opened Wire
  import opened CsiLayouts
  import opened CsiLayoutProofs
  import opened RxRecords
  import opened RxRecordReader
  import opened RxBatches
  import opened RxCanonical

  lemma {:induction false} ScanStuck(record: bytes, n: nat, m: nat, length: nat, encoding: Encoding, known: bool)
    requires |record| == 256 && n <= m <= 3 && ScanTo(record, n, length, encoding, known).Err?
    ensures ScanTo(record, m, length, encoding, known).Err?
  {
    hide ReadSegment, Slot;
    if n < m {
      ScanStuck(record, n, m - 1, length, encoding, known);
    }
  }

  /** `_layout` */
  method Layout(record: bytes) returns (r: Result<CsiLayout>)
    requires |record| == 256
    ensures r == ReadLayout(record)
    ensures r.Ok? ==> LayoutHeld(record, r.value, Flags32(record, 68)[0], Flags32(record, 68)[1])
  {
    hide ReadSegment, ReadDimensions, LayoutHeld, Flags32;
    var dimensions := ReadDimensions(record);
    if dimensions.Err? {
      return Err;
    }
    var d := dimensions.value;
    var offset: nat, pairs: nat, segments: seq<CsiSegment> := 0, 0, [];
    for index := 0 to d.count
      invariant ScanTo(record, index, d.length, d.encoding, d.known) == Ok(Scan(offset, pairs, segments))
    {
      var seg := ReadSegment(Slot(record, index), offset, d.length, d.encoding, d.known);
      if seg.Err? || pairs + seg.value.iqPairs > U32_MAX {
        ScanStuck(record, index + 1, d.count, d.length, d.encoding, d.known);
        return Err;
      }
      offset, pairs := offset + seg.value.lengthBytes, pairs + seg.value.iqPairs;
      segments := segments + [seg.value];
    }
    r := FinishLayout(record, d, Scan(offset, pairs, segments));
    if r.Ok? {
      LayoutSound(record, r.value);
    }
  }

  lemma {:induction false} AddressesStuck(record: bytes, n: nat, m: nat)
    requires |record| == 256 && n <= m <= 5 && AddressesTo(record, n).Err?
    ensures AddressesTo(record, m).Err?
  {
    if n < m {
      AddressesStuck(record, n, m - 1);
    }
  }

  /** The address loop of `_metadata`. */
  method AddressList(record: bytes) returns (r: Result<Addresses>)
    requires |record| == 256
    ensures r == ReadAddresses(record)
  {
    hide Mac;
    var mask := Flags16(record, 54);
    if exists i :: 5 <= i < 16 && mask[i] {
      return Err;
    }
    var addresses: Addresses := [];
    for i := 0 to 5
      invariant AddressesTo(record, i) == Ok(addresses)
    {
      if mask[i] {
        addresses := addresses + [Some(Mac(record, i))];
      } else if AllZero(Mac(record, i)) {
        addresses := addresses + [None];
      } else {
        AddressesStuck(record, i + 1, 5);
        return Err;
      }
    }
    return Ok(addresses);
  }

  /** `_metadata` */
  method Metadata(record: bytes, kind: Kind, d: Directory) returns (r: Result<RxMetadata>)
    requires |record| == 256 && |d.flags| == 16
    ensures r == ReadMetadata(record, kind, d)
  {
    hide ReadLayout, ReadAddresses, FinishMetadata, LayoutHeld, U32, Flags32;
    if exists i :: 5 <= i < 16 && d.flags[i] {
      return Err;
    }
    if !AllZero(record[102..104]) || !AllZero(record[127..128]) || !AllZero(record[248..256]) {
      return Err;
    }
    var layout := Layout(record);
    if layout.Err? || layout.value.byteLength != d.csiLength || U32(record, 0) != d.sequence {
      return Err;
    }
    var addresses := AddressList(record);
    if addresses.Err? {
      return Err;
    }
    return FinishMetadata(record, kind, d, layout.value, addresses.value);
  }

  lemma {:induction false} FramesStuck(view: bytes, kind: Kind, count: nat, n: nat, m: nat)
    requires n <= m <= count && ControlEnd(kind, count) <= |view| && FramesTo(view, kind, count, n).Err?
    ensures FramesTo(view, kind, count, m).Err?
  {
    hide ReadFrame;
    if n < m {
      FramesStuck(view, kind, count, n, m - 1);
    }
  }

  /** The two spans of one frame, CSI then packet. */
  function ReadSpans(view: bytes, start: nat, csiOffset: nat, csiLength: nat, packetOffset: nat, captured: nat)
    : Result<(bytes, bytes, nat)>
    requires start <= |view|
  {
    var csi :- ReadSpan(view, start, csiOffset, csiLength);
    var packet :- ReadSpan(view, csi.next, packetOffset, captured);
    Ok((csi.contents, packet.contents, packet.next))
  }

  /** The span loop of one frame. */
  method Spans(view: bytes, start: nat, csiOffset: nat, csiLength: nat, packetOffset: nat, captured: nat)
    returns (r: Result<(bytes, bytes, nat)>)
    requires start <= |view|
    ensures r == ReadSpans(view, start, csiOffset, csiLength, packetOffset, captured)
  {
    hide SpanOffset, Padding, AllZero;
    var cursor: nat, spans: seq<bytes> := start, [];
    var offsets, lengths := [csiOffset, packetOffset], [csiLength, captured];
    for i := 0 to 2
      invariant |spans| == i && cursor <= |view|
      invariant i == 0 ==> cursor == start
      invariant i == 1 ==> ReadSpan(view, start, csiOffset, csiLength) == Ok(Span(spans[0], cursor))
      invariant i == 2 ==> ReadSpans(view, start, csiOffset, csiLength, packetOffset, captured)
                           == Ok((spans[0], spans[1], cursor))
    {
      var offset, length := offsets[i], lengths[i];
      var end := cursor + length;
      var aligned := end + Padding(end);
      if offset != SpanOffset(cursor, length) || end > U32_MAX || aligned > U32_MAX || aligned > |view| {
        return Err;
      }
      if !AllZero(view[end..aligned]) {
        return Err;
      }
      spans := spans + [view[cursor..end]];
      cursor := aligned;
    }
    return Ok((spans[0], spans[1], cursor));
  }

  /** One turn of the frame loop: row, record, then the payload spans. */
  method Frame(view: bytes, kind: Kind, count: nat, index: nat, start: nat) returns (r: Result<Step>)
    requires index < count && ControlEnd(kind, count) <= |view| && start <= |view|
    ensures r == ReadFrame(view, kind, count, index, start)
  {
    hide ReadMetadata, ReadRow, RowSlice, RecordSlice, ReadSpan;
    var record := RecordSlice(view, kind, count, index);
    var row := ReadRow(RowSlice(view, kind, count, index), kind, record);
    var d := row.directory;
    if row.metaOffset != MetadataBase(kind, count) + 256 * index || row.reserved != 0 {
      return Err;
    }
    var metadata := Metadata(record, kind, d);
    if metadata.Err? {
      return Err;
    }
    var spans := Spans(view, start, row.csiOffset, d.csiLength, row.packetOffset, d.captured);
    if spans.Err? {
      return Err;
    }
    var (csi, packet, cursor) := spans.value;
    return Ok(Step(RxFrame(metadata.value, csi, packet, d.readable, d.headerPrefix), cursor));
  }

  /** `parse_rx_batch`: it accepts exactly the encodings of valid batches and gives back the batch. */
  method ParseRxBatch(data: array<byte>, kind: Kind) returns (r: Result<RxBatch>)
    ensures r == ReadBatch(data[..], kind)
    ensures r.Ok? ==> BatchValid(r.value) && r.value.kind == kind && BatchBytes(r.value) == data[..]
    ensures forall b :: BatchValid(b) && b.kind == kind && BatchBytes(b) == data[..] ==> r == Ok(b)
  {
    var view := data[..];
    r := ParseView(view, kind);
    BatchMeaning(view, kind, r);
  }

  lemma BatchMeaning(view: bytes, kind: Kind, r: Result<RxBatch>)
    requires r == ReadBatch(view, kind)
    ensures r.Ok? ==> BatchValid(r.value) && r.value.kind == kind && BatchBytes(r.value) == view
    ensures forall b :: BatchValid(b) && b.kind == kind && BatchBytes(b) == view ==> r == Ok(b)
  {
    hide ReadBatch, BatchValid, BatchBytes;
    if r.Ok? {
      DecodingIsInverse(view, kind, r.value);
    }
    forall b | BatchValid(b) && b.kind == kind && BatchBytes(b) == view
      ensures r == Ok(b)
    {
      DecodingIsInverse(view, kind, b);
    }
  }

  method ParseView(view: bytes, kind: Kind) returns (r: Result<RxBatch>)
    ensures r == ReadBatch(view, kind)
  {
    hide ReadHeader, ReadFrame, ControlEnd;
    var header := ReadHeader(view, kind);
    if header.Err? {
      return Err;
    }
    var count := header.value;
    var cursor: nat, frames: seq<RxFrame> := ControlEnd(kind, count), [];
    var csiTotal: nat, packetTotal: nat := 0, 0;
    for index := 0 to count
      invariant cursor <= |view|
      invariant FramesTo(view, kind, count, index) == Ok(Progress(frames, cursor, csiTotal, packetTotal))
    {
      var step := Frame(view, kind, count, index, cursor);
      if step.Err? || csiTotal + |step.value.frame.csi| > U32_MAX || packetTotal + |step.value.frame.packet| > U32_MAX {
        FramesStuck(view, kind, count, index + 1, count);
        return Err;
      }
      frames, cursor := frames + [step.value.frame], step.value.next;
      csiTotal := csiTotal + |step.value.frame.csi|;
      packetTotal := packetTotal + |step.value.frame.packet|;
    }
    return FinishBatch(view, kind, count, Progress(frames, cursor, csiTotal, packetTotal));
  }
}
