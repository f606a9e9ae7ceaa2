/** PCAPNG framing: options, blocks, and readers that know only the block grammar
    (PCAP Next Generation, section 3.1 "General Block Structure" and section 3.5
    "Options"; scripts/capture/pcapng.py `_option`, `_block`, `_pad`). */
module PcapBlocks {
  import opened Wire

  datatype PcapOption = PcapOption(code: nat, data: bytes)

  datatype Block = Block(kind: nat, body: bytes)

  /** opt_endofopt */
  const END_MARK: bytes := [0, 0, 0, 0]

  lemma SumMultiple(a: nat, b: nat)
    requires a % 4 == 0 && b % 4 == 0
    ensures (a + b) % 4 == 0
  {
  }

  // ------------------------------------------------------------------- writing

  predicate OptionFits(o: PcapOption) {
    0 < o.code < 0x1_0000 && |o.data| <= 65535
  }

  /** `_option`: code, length, data padded to a multiple of four. */
  function OptionBytes(o: PcapOption): (s: bytes)
    requires OptionFits(o)
    ensures |s| == 4 + |o.data| + Padding(|o.data|) && |s| % 4 == 0
  {
    Put16(o.code) + (Put16(|o.data|) + Padded(o.data))
  }

  predicate OptionsFit(os: seq<PcapOption>) {
    forall o :: o in os ==> OptionFits(o)
  }

  function OptionsBytes(os: seq<PcapOption>): (s: bytes)
    requires OptionsFit(os)
    ensures |s| % 4 == 0
  {
    if os == [] then [] else OptionBytes(os[0]) + OptionsBytes(os[1..])
  }

  predicate BlockFits(b: Block) {
    IsU32(b.kind) && |b.body| % 4 == 0 && |b.body| + 12 <= U32_MAX
  }

  /** Type, length, body, length again. */
  function BlockBytes(b: Block): (s: bytes)
    requires BlockFits(b)
    ensures |s| == |b.body| + 12
  {
    Put32(b.kind) + (Put32(|b.body| + 12) + (b.body + Put32(|b.body| + 12)))
  }

  /** `_block` pads the body first and refuses lengths beyond a uint32. */
  function MakeBlock(kind: nat, body: bytes): Result<bytes>
    requires IsU32(kind)
  {
    if |Padded(body)| + 12 > U32_MAX then Err
    else Ok(BlockBytes(Block(kind, Padded(body))))
  }

  predicate BlocksFit(bs: seq<Block>) {
    forall b :: b in bs ==> BlockFits(b)
  }

  function Stream(bs: seq<Block>): bytes
    requires BlocksFit(bs)
  {
    if bs == [] then [] else BlockBytes(bs[0]) + Stream(bs[1..])
  }

  // ------------------------------------------------------------------- reading

  /** The options up to an end marker, which has to be the last thing there is. */
  function ReadOptions(s: bytes): Option<seq<PcapOption>> {
    if |s| < 4 then None
    else
      var code, length := U16(s, 0), U16(s, 2);
      if code == 0 then (if length == 0 && |s| == 4 then Some([]) else None)
      else
        var end := 4 + length;
        var next := end + Padding(end);
        if next > |s| || !AllZero(s[end..next]) then None
        else
          match ReadOptions(s[next..])
          case None => None
          case Some(rest) => Some([PcapOption(code, s[4..end])] + rest)
  }

  /** Forward walk: each block's length leads to the next block. */
  function ReadBlocks(s: bytes): Option<seq<Block>> {
    if s == [] then Some([])
    else if |s| < 12 then None
    else
      var length := U32(s, 4);
      if length < 12 || length % 4 != 0 || length > |s| || U32(s, length - 4) != length then None
      else
        match ReadBlocks(s[length..])
        case None => None
        case Some(rest) => Some([Block(U32(s, 0), s[8..length - 4])] + rest)
  }

  /** Backward walk: the length at the end of a block leads to its start. */
  function ReadBackward(s: bytes): Option<seq<Block>> {
    if s == [] then Some([])
    else if |s| < 12 then None
    else
      var length := U32(s, |s| - 4);
      if length < 12 || length % 4 != 0 || length > |s| then None
      else
        var start := |s| - length;
        if U32(s, start + 4) != length then None
        else
          match ReadBackward(s[..start])
          case None => None
          case Some(rest) => Some([Block(U32(s, start), s[start + 8..|s| - 4])] + rest)
  }

  // --------------------------------------------------------------- round trips

  lemma OptionHead(o: PcapOption, rest: bytes)
    requires OptionFits(o)
    ensures var s, end := OptionBytes(o) + rest, 4 + |o.data|;
            && |s| >= 4 && U16(s, 0) == o.code && U16(s, 2) == |o.data|
            && end + Padding(end) == |OptionBytes(o)| <= |s|
            && s[4..end] == o.data && AllZero(s[end..|OptionBytes(o)|]) && s[|OptionBytes(o)|..] == rest
  {
    hide U16, Put16;
    var b := OptionBytes(o);
    var s := b + rest;
    assert s[0..2] == Put16(o.code) && s[2..4] == Put16(|o.data|);
    Word16(s, 0, o.code);
    Word16(s, 2, |o.data|);
    assert Padded(o.data)[..|o.data|] == o.data;
    assert s[4..4 + |o.data|] == o.data;
    assert s[4 + |o.data|..|b|] == Zeros(Padding(|o.data|));
  }

  lemma EndRead()
    ensures ReadOptions(END_MARK) == Some([])
  {
  }

  lemma ReadStep(s: bytes, o: PcapOption, rest: bytes, tail: seq<PcapOption>)
    requires OptionFits(o) && s == OptionBytes(o) + rest && ReadOptions(rest) == Some(tail)
    ensures ReadOptions(s) == Some([o] + tail)
  {
    hide OptionBytes, U16, AllZero, Padding;
    OptionHead(o, rest);
    var next := |OptionBytes(o)|;
    assert s[next..] == rest;
    hide *;
    TakeOption(s, o, next, rest, tail);
  }

  lemma TakeOption(s: bytes, o: PcapOption, next: nat, rest: bytes, tail: seq<PcapOption>)
    requires 4 <= |s| && U16(s, 0) == o.code != 0 && U16(s, 2) == |o.data|
    requires next == 4 + |o.data| + Padding(4 + |o.data|) <= |s|
    requires s[4..4 + |o.data|] == o.data && AllZero(s[4 + |o.data|..next]) && s[next..] == rest
    requires ReadOptions(rest) == Some(tail)
    ensures ReadOptions(s) == Some([o] + tail)
  {
    hide U16, AllZero, Padding;
  }

  /** Each option list decodes back to the options written and stops at its end marker. */
  lemma {:induction false} OptionsReadBack(os: seq<PcapOption>)
    requires OptionsFit(os)
    ensures ReadOptions(OptionsBytes(os) + END_MARK) == Some(os)
  {
    hide OptionBytes, ReadOptions;
    if os == [] {
      assert OptionsBytes(os) + END_MARK == END_MARK;
      EndRead();
    } else {
      OptionsReadBack(os[1..]);
      var rest := OptionsBytes(os[1..]) + END_MARK;
      var s := OptionsBytes(os) + END_MARK;
      assert s == OptionBytes(os[0]) + rest;
      ReadStep(s, os[0], rest, os[1..]);
      assert os == [os[0]] + os[1..];
    }
  }

  lemma BlockHead(b: Block, rest: bytes)
    requires BlockFits(b)
    ensures var s, length := BlockBytes(b) + rest, |b.body| + 12;
            && |s| >= 12 && length % 4 == 0 && length <= |s|
            && U32(s, 0) == b.kind && U32(s, 4) == length && U32(s, length - 4) == length
            && s[8..length - 4] == b.body && s[length..] == rest
  {
    hide U32, Put32;
    var s, length := BlockBytes(b) + rest, |b.body| + 12;
    assert s[0..4] == Put32(b.kind) && s[4..8] == Put32(length);
    assert s[length - 4..length] == Put32(length);
    Word32(s, 0, b.kind);
    Word32(s, 4, length);
    Word32(s, length - 4, length);
  }

  lemma {:induction false} ForwardWalk(bs: seq<Block>)
    requires BlocksFit(bs)
    ensures ReadBlocks(Stream(bs)) == Some(bs)
  {
    hide BlockBytes, U32;
    if bs != [] {
      ForwardWalk(bs[1..]);
      BlockHead(bs[0], Stream(bs[1..]));
      assert bs == [bs[0]] + bs[1..];
    }
  }

  function Reverse<T>(s: seq<T>): (r: seq<T>)
    ensures |r| == |s|
    ensures forall i :: 0 <= i < |s| ==> r[i] == s[|s| - 1 - i]
  {
    if s == [] then [] else [s[|s| - 1]] + Reverse(s[..|s| - 1])
  }

  lemma {:induction false} StreamAppend(a: seq<Block>, b: seq<Block>)
    requires BlocksFit(a) && BlocksFit(b) && BlocksFit(a + b)
    ensures Stream(a + b) == Stream(a) + Stream(b)
  {
    hide BlockBytes;
    if a == [] {
      assert a + b == b;
    } else {
      assert (a + b)[1..] == a[1..] + b;
      StreamAppend(a[1..], b);
    }
  }

  lemma BlockTail(front: bytes, b: Block)
    requires BlockFits(b)
    ensures var s, length := front + BlockBytes(b), |b.body| + 12;
            var start := |front|;
            && |s| >= 12 && |s| - length == start && length % 4 == 0
            && U32(s, |s| - 4) == length && U32(s, start + 4) == length && U32(s, start) == b.kind
            && s[start + 8..|s| - 4] == b.body && s[..start] == front
  {
    hide U32, Put32;
    var s, length, start := front + BlockBytes(b), |b.body| + 12, |front|;
    assert s[start..start + 4] == Put32(b.kind) && s[start + 4..start + 8] == Put32(length);
    assert s[|s| - 4..|s|] == Put32(length);
    Word32(s, start, b.kind);
    Word32(s, start + 4, length);
    Word32(s, |s| - 4, length);
  }

  /** Walking back from the end visits the same blocks in reverse. */
  lemma {:induction false} BackwardWalk(bs: seq<Block>)
    requires BlocksFit(bs)
    ensures ReadBackward(Stream(bs)) == Some(Reverse(bs))
    decreases |bs|
  {
    hide BlockBytes, U32;
    if bs != [] {
      var init, last := bs[..|bs| - 1], bs[|bs| - 1];
      BackwardWalk(init);
      assert bs == init + [last];
      StreamAppend(init, [last]);
      StreamOne(last);
      BlockTail(Stream(init), last);
    }
  }

  lemma StreamOne(b: Block)
    requires BlockFits(b)
    ensures Stream([b]) == BlockBytes(b)
  {
    hide BlockBytes;
    assert Stream([b]) == BlockBytes(b) + Stream([]);
  }

  lemma PaddedAligned(s: bytes)
    requires |s| % 4 == 0
    ensures Padded(s) == s
  {
  }

  /** Every body in a capture is a multiple of four long already, so `_block` only frames
      it, or refuses it for its length. */
  lemma MakeBlockFrames(kind: nat, body: bytes)
    requires IsU32(kind) && |body| % 4 == 0
    ensures MakeBlock(kind, body) == if BlockFits(Block(kind, body)) then Ok(BlockBytes(Block(kind, body))) else Err
  {
    hide BlockBytes, Padded;
    PaddedAligned(body);
  }
}
