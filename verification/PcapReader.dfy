/** An independent reader of exported captures: it follows the PCAPNG block grammar and
    the block layouts of PCAP Next Generation sections 4.1 (Section Header Block), 4.2
    (Interface Description Block) and 4.3 (Enhanced Packet Block), and shares no code with
    the exporter beyond the framing of PcapBlocks and the Radiotap reader. */
module PcapReader {
  import opened Wire
  import opened PcapBlocks
  import Radiotap

  datatype InterfaceView = InterfaceView(linkType: nat, snapLength: nat, options: seq<PcapOption>) {
    /** if_name */
    function Name(): bytes { Lookup(options, 2) }
  }

  /** The data of the first option with this code, empty if there is none. */
  function Lookup(os: seq<PcapOption>, code: nat): bytes {
    if os == [] then [] else if os[0].code == code then os[0].data else Lookup(os[1..], code)
  }

  datatype PacketView = PacketView(interface: nat, timestamp: nat, captured: nat, original: nat,
                                   radiotap: Radiotap.Header, packet: bytes, options: seq<PcapOption>)

  datatype Capture = Capture(section: seq<PcapOption>, interfaces: seq<InterfaceView>, packets: seq<PacketView>)

  /** Byte order, version 1.0 and a section of unknown length. */
  function ReadSection(b: Block): Option<seq<PcapOption>> {
    if b.kind != 0x0A0D_0D0A || |b.body| < 16 || U32(b.body, 0) != 0x1A2B_3C4D || U16(b.body, 4) != 1 || U16(b.body, 6) != 0
       || U64(b.body, 8) != 0xFFFF_FFFF_FFFF_FFFF
    then None
    else ReadOptions(b.body[16..])
  }

  function ReadInterface(body: bytes): Option<InterfaceView> {
    if |body| < 8 then None
    else
      match ReadOptions(body[8..])
      case None => None
      case Some(os) => Some(InterfaceView(U16(body, 0), U32(body, 4), os))
  }

  function ReadPacket(body: bytes): Option<PacketView> {
    if |body| < 20 then None
    else
      var captured := U32(body, 12);
      var end := 20 + captured;
      var next := end + Padding(end);
      if next > |body| || !AllZero(body[end..next]) then None
      else
        match ReadOptions(body[next..])
        case None => None
        case Some(os) => ReadPayload(body, end, os)
  }

  /** Splits the captured bytes into Radiotap header and packet. */
  function ReadPayload(body: bytes, end: nat, os: seq<PcapOption>): Option<PacketView>
    requires 20 <= end <= |body|
  {
    match Radiotap.ReadRadiotap(body[20..end])
    case None => None
    case Some(h) =>
      if 20 + h.length > end then None
      else
        Some(PacketView(U32(body, 0), 0x1_0000_0000 * U32(body, 4) + U32(body, 8), U32(body, 12), U32(body, 16),
                        h, body[20 + h.length..end], os))
  }

  /** A packet may only use an interface that has already been described. */
  function ReadBlock(before: Capture, b: Block): Option<Capture> {
    if b.kind == 1 then
      match ReadInterface(b.body)
      case None => None
      case Some(i) => Some(before.(interfaces := before.interfaces + [i]))
    else if b.kind == 6 then
      match ReadPacket(b.body)
      case None => None
      case Some(p) =>
        if p.interface >= |before.interfaces| then None else Some(before.(packets := before.packets + [p]))
    else None
  }

  /** The capture described by the first `n` blocks; the first one is the section header. */
  function ReadTo(bs: seq<Block>, n: nat): Option<Capture>
    requires 1 <= n <= |bs|
  {
    if n == 1 then
      match ReadSection(bs[0])
      case None => None
      case Some(os) => Some(Capture(os, [], []))
    else
      match ReadTo(bs, n - 1)
      case None => None
      case Some(before) => ReadBlock(before, bs[n - 1])
  }

  function ReadCapture(s: bytes): Option<Capture> {
    match ReadBlocks(s)
    case None => None
    case Some(bs) => if bs == [] then None else ReadTo(bs, |bs|)
  }
}
