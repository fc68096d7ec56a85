/** Frames as their writers lay them out (IEEE 802.3 and 802.1Q, RFC 791, RFC 8200, RFC 768, RFC 9293), and
    what the decapsulation makes of them. */
module FrameFormat {
  import opened Bytes
  import opened Decap

  /** These bytes stand at offset i. */
  ghost predicate Has(s: seq<byte>, i: nat, part: seq<byte>) {
    i + |part| <= |s| && s[i..i + |part|] == part
  }

  lemma HasBoth(s: seq<byte>, i: nat, a: seq<byte>, b: seq<byte>)
    ensures Has(s, i, a + b) <==> Has(s, i, a) && Has(s, i + |a|, b)
  {
    if Has(s, i, a + b) {
      assert s[i..i + |a|] == s[i..i + |a + b|][..|a|] && s[i + |a|..i + |a| + |b|] == s[i..i + |a + b|][|a|..];
    }
    if Has(s, i, a) && Has(s, i + |a|, b) {
      assert s[i..i + |a + b|] == s[i..i + |a|] + s[i + |a|..i + |a| + |b|];
    }
  }

  lemma HasRoom(s: seq<byte>, i: nat, part: seq<byte>)
    requires Has(s, i, part)
    ensures i + |part| <= |s|
  {
  }

  lemma HasAt(s: seq<byte>, i: nat, part: seq<byte>, k: nat)
    requires Has(s, i, part) && k < |part|
    ensures i + k < |s| && s[i + k] == part[k]
  {
    assert s[i + k] == s[i..i + |part|][k];
  }

  lemma HasTwo(s: seq<byte>, i: nat, w: u16)
    requires Has(s, i, Two(w))
    ensures i + 2 <= |s| && Be16(s, i) == w
  {
    ReadsTwo(s, i, w);
  }

  // ---------------------------------------------------------------- link layer

  /** A tag: its kind and its control word, whose low twelve bits are the VLAN id. */
  datatype Tag = Tag(kind: u16, control: u16)

  /** What stands behind the two addresses: the tags, then the type of what follows. */
  function TagBytes(tags: seq<Tag>, ethertype: u16): (s: seq<byte>)
    ensures |s| == 4 * |tags| + 2
  {
    if tags == [] then Two(ethertype) else Two(tags[0].kind) + Two(tags[0].control) + TagBytes(tags[1..], ethertype)
  }

  function Ids(tags: seq<Tag>): (ids: seq<u16>) {
    if tags == [] then [] else [tags[0].control % 0x1000] + Ids(tags[1..])
  }

  ghost predicate AreTags(tags: seq<Tag>) {
    forall i :: 0 <= i < |tags| ==> tags[i].kind == 0x8100 || tags[i].kind == 0x88A8
  }

  lemma StripOne(frame: seq<byte>, link: Link, budget: nat)
    requires link.off + 4 <= |frame| && budget > 0 && (link.ethertype == 0x8100 || link.ethertype == 0x88A8)
    ensures StripTags(frame, link, budget)
            == StripTags(frame, Link(Be16(frame, link.off + 2), link.off + 4, link.vlans + [Be16(frame, link.off) % 0x1000]), budget - 1)
  {
  }

  lemma StripNone(frame: seq<byte>, link: Link, budget: nat)
    requires link.off <= |frame| && link.ethertype != 0x8100 && link.ethertype != 0x88A8
    ensures StripTags(frame, link, budget) == Ok(link)
  {
  }

  lemma TagsSplit(tags: seq<Tag>)
    requires AreTags(tags) && tags != []
    ensures (tags[0].kind == 0x8100 || tags[0].kind == 0x88A8) && AreTags(tags[1..])
  {
  }

  lemma {:induction false} TagsAreStripped(frame: seq<byte>, tags: seq<Tag>, ethertype: u16, off: nat, first: u16, ids: seq<u16>, budget: nat)
    requires 2 <= off && Has(frame, off - 2, TagBytes(tags, ethertype)) && AreTags(tags) && |tags| <= budget
    requires ethertype != 0x8100 && ethertype != 0x88A8
    requires off <= |frame| && first == Be16(frame, off - 2)
    ensures StripTags(frame, Link(first, off, ids), budget) == Ok(Link(ethertype, off + 4 * |tags|, ids + Ids(tags)))
    decreases |tags|
  {
    hide Has;
    hide Be16;
    hide StripTags;
    hide AreTags;
    hide TagBytes;
    hide Ids;
    if tags == [] {
      NoTags(frame, off, ethertype);
      StripNone(frame, Link(first, off, ids), budget);
      assert ids + [] == ids;
    } else {
      var t := tags[0];
      TagParts(frame, off, tags, ethertype);
      TagsSplit(tags);
      StripOne(frame, Link(first, off, ids), budget);
      TagsAreStripped(frame, tags[1..], ethertype, off + 4, Be16(frame, off + 2), ids + [t.control % 0x1000], budget - 1);
      assert ids + [t.control % 0x1000] + Ids(tags[1..]) == ids + ([t.control % 0x1000] + Ids(tags[1..]));
    }
  }

  lemma NoTags(frame: seq<byte>, off: nat, ethertype: u16)
    requires 2 <= off && Has(frame, off - 2, TagBytes([], ethertype))
    ensures off <= |frame| && Be16(frame, off - 2) == ethertype && Ids([]) == []
  {
    HasTwo(frame, off - 2, ethertype);
  }

  lemma TagParts(frame: seq<byte>, off: nat, tags: seq<Tag>, ethertype: u16)
    requires 2 <= off && tags != [] && Has(frame, off - 2, TagBytes(tags, ethertype))
    ensures off + 4 <= |frame| && Has(frame, off + 2, TagBytes(tags[1..], ethertype))
    ensures Be16(frame, off - 2) == tags[0].kind && Be16(frame, off) == tags[0].control
    ensures Ids(tags) == [tags[0].control % 0x1000] + Ids(tags[1..])
  {
    hide Has;
    hide Two;
    hide Be16;
    var t, rest := tags[0], TagBytes(tags[1..], ethertype);
    HasBoth(frame, off - 2, Two(t.kind) + Two(t.control), rest);
    HasBoth(frame, off - 2, Two(t.kind), Two(t.control));
    HasTwo(frame, off - 2, t.kind);
    HasTwo(frame, off, t.control);
    HasRoom(frame, off + 2, rest);
  }

  // ---------------------------------------------------------------- IPv4

  datatype Ipv4 = Ipv4(tos: byte, totalLen: u16, ident: u16, dontFragment: bool, moreFragments: bool,
                       ttl: byte, protocol: byte, checksum: u16, src: seq<byte>, dst: seq<byte>, options: seq<byte>)

  predicate FitsIpv4(h: Ipv4) {
    |h.src| == 4 && |h.dst| == 4 && |h.options| % 4 == 0 && |h.options| <= 40
  }

  /** The header of a packet that is the first fragment or the only one. */
  function Ipv4Bytes(h: Ipv4): (s: seq<byte>)
    requires FitsIpv4(h)
    ensures |s| == 20 + |h.options|
  {
    [0x45 + |h.options| / 4, h.tos] + Two(h.totalLen) + Two(h.ident)
    + Two((if h.dontFragment then 0x4000 else 0) + if h.moreFragments then 0x2000 else 0)
    + [h.ttl, h.protocol] + Two(h.checksum) + h.src + h.dst + h.options
  }

  /** The fields of a header where they stand. */
  lemma Ipv4Fields(frame: seq<byte>, off: nat, h: Ipv4)
    requires FitsIpv4(h) && Has(frame, off, Ipv4Bytes(h))
    ensures off + 20 + |h.options| <= |frame|
    ensures frame[off] == 0x45 + |h.options| / 4 && frame[off + 9] == h.protocol
    ensures Be16(frame, off + 2) == h.totalLen
    ensures Be16(frame, off + 6) == (if h.dontFragment then 0x4000 else 0) + (if h.moreFragments then 0x2000 else 0)
    ensures frame[off + 12..off + 16] == h.src && frame[off + 16..off + 20] == h.dst
  {
    hide Two;
    var first, id, frag := [0x45 + |h.options| / 4, h.tos], Two(h.ident),
                           Two((if h.dontFragment then 0x4000 else 0) + if h.moreFragments then 0x2000 else 0);
    var life := [h.ttl, h.protocol];
    var p1 := first + Two(h.totalLen);
    var p2 := p1 + id;
    var p3 := p2 + frag;
    var p4 := p3 + life;
    var p5 := p4 + Two(h.checksum);
    var p6 := p5 + h.src;
    HasBoth(frame, off, p6 + h.dst, h.options);
    HasBoth(frame, off, p6, h.dst);
    HasBoth(frame, off, p5, h.src);
    HasBoth(frame, off, p4, Two(h.checksum));
    HasBoth(frame, off, p3, life);
    HasBoth(frame, off, p2, frag);
    HasBoth(frame, off, p1, id);
    HasBoth(frame, off, first, Two(h.totalLen));
    HasTwo(frame, off + 2, h.totalLen);
    HasTwo(frame, off + 6, (if h.dontFragment then 0x4000 else 0) + if h.moreFragments then 0x2000 else 0);
    assert frame[off] == frame[off..off + 2][0] && frame[off + 9] == frame[off + 8..off + 10][1];
  }

  lemma WalksIpv4(frame: seq<byte>, link: Link, h: Ipv4)
    requires FitsIpv4(h) && Has(frame, link.off, Ipv4Bytes(h))
    requires 20 + |h.options| <= h.totalLen && link.off + h.totalLen <= |frame|
    ensures WalkIpv4(frame, link)
            == Ok(Walk(link, 4, Address(h.src), Address(h.dst),
                       L4(true, link.off + 20 + |h.options|, h.protocol, h.moreFragments, 0), link.off + h.totalLen))
  {
    hide Ipv4Bytes;
    hide Has;
    Ipv4Fields(frame, link.off, h);
    var n := |h.options| / 4;
    assert |h.options| == 4 * n && n <= 10;
    assert (0x45 + n) / 16 == 4 && (0x45 + n) % 16 == 5 + n;
  }

  // ---------------------------------------------------------------- IPv6

  /** An extension header: hop-by-hop options, routing or destination options of a multiple of eight
      bytes, or a fragment header of a first fragment. */
  datatype Extension =
    | Options(kind: byte, units: byte, body: seq<byte>)
    | First(reserved: byte, flags: nat, id: seq<byte>)

  predicate FitsExtension(e: Extension) {
    match e
    case Options(kind, units, body) => (kind == 0 || kind == 43 || kind == 60) && |body| == 8 * units as int + 6
    case First(_, flags, id) => flags < 8 && |id| == 4
  }

  function Kind(e: Extension): (k: byte) {
    if e.Options? then e.kind else 44
  }

  function FirstKind(exts: seq<Extension>, protocol: byte): (k: byte) {
    if exts == [] then protocol else Kind(exts[0])
  }

  function ExtensionBytes(e: Extension, next: byte): (s: seq<byte>)
    requires FitsExtension(e)
    ensures |s| >= 8
  {
    match e
    case Options(_, units, body) => [next, units] + body
    case First(reserved, flags, id) => [next, reserved] + Two(flags) + id
  }

  ghost predicate FitExtensions(exts: seq<Extension>) {
    forall i :: 0 <= i < |exts| ==> FitsExtension(exts[i])
  }

  function ChainBytes(exts: seq<Extension>, protocol: byte): (s: seq<byte>)
    requires forall i :: 0 <= i < |exts| ==> FitsExtension(exts[i])
  {
    if exts == [] then []
    else ExtensionBytes(exts[0], FirstKind(exts[1..], protocol)) + ChainBytes(exts[1..], protocol)
  }

  predicate AnyFragment(exts: seq<Extension>) {
    exists i :: 0 <= i < |exts| && exts[i].First?
  }

  lemma ExtensionWalks(frame: seq<byte>, off: nat, e: Extension, next: byte, fragmented: bool, budget: nat)
    requires FitsExtension(e) && Has(frame, off, ExtensionBytes(e, next)) && budget > 0
    ensures WalkExtensions(frame, off, Kind(e), fragmented, 0, budget)
            == WalkExtensions(frame, off + |ExtensionBytes(e, next)|, next, fragmented || e.First?, 0, budget - 1)
  {
    hide Has;
    hide Two;
    hide Be16;
    var b := ExtensionBytes(e, next);
    HasRoom(frame, off, b);
    HasAt(frame, off, b, 0);
    HasAt(frame, off, b, 1);
    if e.First? {
      HasBoth(frame, off, [b[0], b[1]] + Two(e.flags), e.id);
      HasBoth(frame, off, [b[0], b[1]], Two(e.flags));
      HasTwo(frame, off + 2, e.flags);
    }
  }

  lemma FragmentFirstOrLater(exts: seq<Extension>)
    requires exts != []
    ensures AnyFragment(exts) <==> exts[0].First? || AnyFragment(exts[1..])
  {
    if i :| 0 <= i < |exts| && exts[i].First? {
      assert i > 0 ==> exts[1..][i - 1].First?;
    }
    if i :| 0 <= i < |exts[1..]| && exts[1..][i].First? {
      assert exts[i + 1].First?;
    }
  }

  /** The walk passes the whole chain to the transport header. */
  lemma {:induction false} WalksChain(frame: seq<byte>, off: nat, exts: seq<Extension>, protocol: byte, fragmented: bool, budget: nat)
    requires FitExtensions(exts) && Has(frame, off, ChainBytes(exts, protocol)) && |exts| < budget
    requires protocol != 0 && protocol != 43 && protocol != 44 && protocol != 60
    ensures WalkExtensions(frame, off, FirstKind(exts, protocol), fragmented, 0, budget)
            == Ok(L4(true, off + |ChainBytes(exts, protocol)|, protocol, fragmented || AnyFragment(exts), 0))
    decreases |exts|
  {
    hide Has;
    hide ExtensionBytes;
    hide AnyFragment;
    if exts == [] {
      NoExtensions(frame, off, protocol, fragmented, budget);
    } else {
      hide WalkExtensions;
      var e, rest := exts[0], exts[1..];
      var next := FirstKind(rest, protocol);
      var b := ExtensionBytes(e, next);
      HasBoth(frame, off, b, ChainBytes(rest, protocol));
      ExtensionWalks(frame, off, e, next, fragmented, budget);
      FragmentFirstOrLater(exts);
      WalksChain(frame, off + |b|, rest, protocol, fragmented || e.First?, budget - 1);
    }
  }

  lemma NoExtensions(frame: seq<byte>, off: nat, protocol: byte, fragmented: bool, budget: nat)
    requires protocol != 0 && protocol != 43 && protocol != 44 && protocol != 60 && budget > 0
    ensures WalkExtensions(frame, off, protocol, fragmented, 0, budget) == Ok(L4(true, off, protocol, fragmented, 0))
    ensures !AnyFragment([])
  {
  }

  datatype Ipv6 = Ipv6(flow: seq<byte>, payloadLen: u16, hops: byte, src: seq<byte>, dst: seq<byte>)

  predicate FitsIpv6(h: Ipv6) {
    |h.flow| == 4 && h.flow[0] / 0x10 == 6 && |h.src| == 16 && |h.dst| == 16
  }

  /** `flow` is the first word: the version, the traffic class and the flow label. */
  function Ipv6Bytes(h: Ipv6, next: byte): (s: seq<byte>)
    requires FitsIpv6(h)
    ensures |s| == 40
  {
    h.flow + Two(h.payloadLen) + [next, h.hops] + h.src + h.dst
  }

  lemma WalksIpv6(frame: seq<byte>, link: Link, h: Ipv6, exts: seq<Extension>, protocol: byte)
    requires FitsIpv6(h) && Has(frame, link.off, Ipv6Bytes(h, FirstKind(exts, protocol)))
    requires FitExtensions(exts) && |exts| < 8 && Has(frame, link.off + 40, ChainBytes(exts, protocol))
    requires protocol != 0 && protocol != 43 && protocol != 44 && protocol != 60
    requires link.off + 40 + h.payloadLen <= |frame|
    ensures WalkIpv6(frame, link)
            == Ok(Walk(link, 6, h.src, h.dst,
                       L4(true, link.off + 40 + |ChainBytes(exts, protocol)|, protocol, AnyFragment(exts), 0),
                       link.off + 40 + h.payloadLen))
  {
    hide Two;
    hide WalkExtensions;
    hide ChainBytes;
    var off, next := link.off, FirstKind(exts, protocol);
    var p1 := h.flow + Two(h.payloadLen);
    var p2 := p1 + [next, h.hops];
    HasBoth(frame, off, p2 + h.src, h.dst);
    HasBoth(frame, off, p2, h.src);
    HasBoth(frame, off, p1, [next, h.hops]);
    HasBoth(frame, off, h.flow, Two(h.payloadLen));
    HasTwo(frame, off + 4, h.payloadLen);
    assert frame[off] == frame[off..off + 4][0] && frame[off + 6] == frame[off + 6..off + 8][0];
    WalksChain(frame, off + 40, exts, protocol, false, MAX_EXT_HEADERS);
  }

  // ---------------------------------------------------------------- a packet in a frame

  /** A network-layer packet. */
  datatype Packet = V4(h4: Ipv4) | V6(h6: Ipv6, exts: seq<Extension>, protocol: byte)

  ghost predicate FitsPacket(p: Packet) {
    match p
    case V4(h) => FitsIpv4(h) && 20 + |h.options| <= h.totalLen
    case V6(h, exts, protocol) =>
      && FitsIpv6(h) && FitExtensions(exts) && |exts| < 8
      && protocol != 0 && protocol != 43 && protocol != 44 && protocol != 60
  }

  function Protocol(p: Packet): (k: byte) {
    if p.V4? then p.h4.protocol else p.protocol
  }

  /** How long the packet claims to be. */
  function Claimed(p: Packet): (n: nat) {
    if p.V4? then p.h4.totalLen else 40 + p.h6.payloadLen
  }

  ghost function PacketHeader(p: Packet): (s: seq<byte>)
    requires FitsPacket(p)
  {
    match p
    case V4(h) => Ipv4Bytes(h)
    case V6(h, exts, protocol) => Ipv6Bytes(h, FirstKind(exts, protocol)) + ChainBytes(exts, protocol)
  }

  /** The frame carries this packet behind at most two tags, and all of what the packet claims. */
  ghost predicate Carries(frame: seq<byte>, tags: seq<Tag>, p: Packet)
    requires FitsPacket(p)
  {
    && AreTags(tags) && |tags| <= 2
    && Has(frame, 12, TagBytes(tags, if p.V4? then 0x0800 else 0x86DD))
    && Has(frame, 14 + 4 * |tags|, PacketHeader(p))
    && 14 + 4 * |tags| + Claimed(p) <= |frame|
  }

  /** The addresses, the start of the transport header and the end of the packet are found where the
      writer put them. */
  lemma WrittenPacketWalks(frame: seq<byte>, tags: seq<Tag>, p: Packet)
    requires FitsPacket(p) && Carries(frame, tags, p)
    ensures var off := 14 + 4 * |tags|;
            && DecapWalk(frame).Ok?
            && var w := DecapWalk(frame).value;
               && w.link.vlans == Ids(tags) && w.ipVersion == (if p.V4? then 4 else 6)
               && w.srcIp == (if p.V4? then Address(p.h4.src) else p.h6.src)
               && w.dstIp == (if p.V4? then Address(p.h4.dst) else p.h6.dst)
               && w.l4.present && w.l4.nextHeader == Protocol(p) && w.l4.off == off + |PacketHeader(p)|
               && w.ipEnd == off + Claimed(p)
  {
    hide DecapWalk;
    hide StripTags;
    hide WalkIpv4;
    hide WalkIpv6;
    hide PacketHeader;
    hide TagBytes;
    hide Has;
    hide FitsPacket;
    hide Be16;
    hide Ids;
    hide AreTags;
    hide Claimed;
    hide Protocol;
    hide Address;
    var ethertype := if p.V4? then 0x0800 else 0x86DD;
    var link := Link(ethertype, 14 + 4 * |tags|, Ids(tags));
    assert [] + Ids(tags) == Ids(tags);
    HasRoom(frame, 12, TagBytes(tags, ethertype));
    TagsAreStripped(frame, tags, ethertype, 14, Be16(frame, 12), [], 2);
    DispatchWalks(frame, link, p);
    PacketWalks(frame, link, p);
  }

  lemma DispatchWalks(frame: seq<byte>, link: Link, p: Packet)
    requires 14 <= |frame| && link.ethertype == (if p.V4? then 0x0800 else 0x86DD)
    requires StripTags(frame, Link(Be16(frame, 12), 14, []), 2) == Ok(link)
    ensures DecapWalk(frame) == if p.V4? then WalkIpv4(frame, link) else WalkIpv6(frame, link)
  {
    hide StripTags;
    hide WalkIpv4;
    hide WalkIpv6;
  }

  lemma PacketWalks(frame: seq<byte>, link: Link, p: Packet)
    requires FitsPacket(p) && Has(frame, link.off, PacketHeader(p)) && link.off + Claimed(p) <= |frame|
    ensures var r := if p.V4? then WalkIpv4(frame, link) else WalkIpv6(frame, link);
            && r.Ok? && r.value.link == link && r.value.ipVersion == (if p.V4? then 4 else 6)
            && r.value.srcIp == (if p.V4? then Address(p.h4.src) else p.h6.src)
            && r.value.dstIp == (if p.V4? then Address(p.h4.dst) else p.h6.dst)
            && r.value.l4.present && r.value.l4.nextHeader == Protocol(p) && r.value.l4.off == link.off + |PacketHeader(p)|
            && r.value.ipEnd == link.off + Claimed(p)
  {
    hide WalkIpv4;
    hide WalkIpv6;
    hide Ipv4Bytes;
    hide Ipv6Bytes;
    hide ChainBytes;
    hide Has;
    match p {
      case V4(h) => WalksIpv4(frame, link, h);
      case V6(h, exts, protocol) =>
        HasBoth(frame, link.off, Ipv6Bytes(h, FirstKind(exts, protocol)), ChainBytes(exts, protocol));
        WalksIpv6(frame, link, h, exts, protocol);
    }
  }

  // ---------------------------------------------------------------- UDP and TCP

  datatype UdpHeader = UdpHeader(srcPort: u16, dstPort: u16, checksum: u16)

  function UdpBytes(u: UdpHeader, payload: seq<byte>): (s: seq<byte>)
    requires |payload| + 8 < 0x1_0000
  {
    Two(u.srcPort) + Two(u.dstPort) + Two(8 + |payload|) + Two(u.checksum) + payload
  }

  /** A written UDP frame comes back with its ports, addresses and payload. */
  lemma WrittenUdpDecaps(frame: seq<byte>, tags: seq<Tag>, p: Packet, u: UdpHeader, payload: seq<byte>)
    requires FitsPacket(p) && Carries(frame, tags, p) && Protocol(p) == 17 && |payload| + 8 < 0x1_0000
    requires Has(frame, 14 + 4 * |tags| + |PacketHeader(p)|, UdpBytes(u, payload))
    ensures DecapUdp(frame).Ok?
    ensures var d := DecapUdp(frame).value;
            && DecapWalk(frame) == Ok(d.walk)
            && d.srcPort == u.srcPort && d.dstPort == u.dstPort && d.length == 8 + |payload|
            && d.checksumPresent == (u.checksum != 0)
            && d.payloadLen == |payload| && d.payload + d.payloadLen <= |frame| && frame[d.payload..d.payload + d.payloadLen] == payload
  {
    hide DecapWalk;
    hide Two;
    hide UdpBytes;
    hide PacketHeader;
    hide Has;
    WrittenPacketWalks(frame, tags, p);
    UdpFields(frame, 14 + 4 * |tags| + |PacketHeader(p)|, u, payload);
  }

  lemma UdpFields(frame: seq<byte>, off: nat, u: UdpHeader, payload: seq<byte>)
    requires |payload| + 8 < 0x1_0000 && Has(frame, off, UdpBytes(u, payload))
    ensures off + 8 + |payload| <= |frame| && frame[off + 8..off + 8 + |payload|] == payload
    ensures Be16(frame, off) == u.srcPort && Be16(frame, off + 2) == u.dstPort
    ensures Be16(frame, off + 4) == 8 + |payload| && Be16(frame, off + 6) == u.checksum
  {
    hide Two;
    hide Be16;
    var p1 := Two(u.srcPort) + Two(u.dstPort);
    var p2 := p1 + Two(8 + |payload|);
    HasBoth(frame, off, p2 + Two(u.checksum), payload);
    HasBoth(frame, off, p2, Two(u.checksum));
    HasBoth(frame, off, p1, Two(8 + |payload|));
    HasBoth(frame, off, Two(u.srcPort), Two(u.dstPort));
    HasTwo(frame, off, u.srcPort);
    HasTwo(frame, off + 2, u.dstPort);
    HasTwo(frame, off + 4, 8 + |payload|);
    HasTwo(frame, off + 6, u.checksum);
  }

  datatype TcpHeader = TcpHeader(srcPort: u16, dstPort: u16, seqAck: seq<byte>, flags: byte, rest: seq<byte>, options: seq<byte>)

  predicate FitsTcp(t: TcpHeader) {
    |t.seqAck| == 8 && |t.rest| == 6 && |t.options| % 4 == 0 && |t.options| <= 40
  }

  /** `seqAck` are the two sequence numbers, `rest` the window, the checksum and the urgent pointer. */
  function TcpBytes(t: TcpHeader): (s: seq<byte>)
    requires FitsTcp(t)
    ensures |s| == 20 + |t.options|
  {
    Two(t.srcPort) + Two(t.dstPort) + t.seqAck + [0x50 + |t.options| / 4 * 0x10, t.flags] + t.rest + t.options
  }

  lemma TcpFields(frame: seq<byte>, off: nat, t: TcpHeader)
    requires FitsTcp(t) && Has(frame, off, TcpBytes(t))
    ensures off + 20 + |t.options| <= |frame| && Be16(frame, off) == t.srcPort && Be16(frame, off + 2) == t.dstPort
    ensures frame[off + 12] / 16 * 4 == 20 + |t.options| && frame[off + 13] == t.flags
  {
    hide Two;
    hide Has;
    hide Be16;
    HasRoom(frame, off, TcpBytes(t));
    var n := |t.options| / 4;
    assert |t.options| == 4 * n && (0x50 + n * 0x10) / 16 == 5 + n;
    var offFlags := [0x50 + n * 0x10, t.flags];
    var p1 := Two(t.srcPort) + Two(t.dstPort);
    var p2 := p1 + t.seqAck;
    var p3 := p2 + offFlags;
    HasBoth(frame, off, p3 + t.rest, t.options);
    HasBoth(frame, off, p3, t.rest);
    HasBoth(frame, off, p2, offFlags);
    HasBoth(frame, off, p1, t.seqAck);
    HasBoth(frame, off, Two(t.srcPort), Two(t.dstPort));
    HasTwo(frame, off, t.srcPort);
    HasTwo(frame, off + 2, t.dstPort);
    HasAt(frame, off + 12, offFlags, 0);
    HasAt(frame, off + 12, offFlags, 1);
  }

  /** A written TCP segment comes back with its ports, addresses and all the payload of the packet. */
  lemma WrittenTcpDecaps(frame: seq<byte>, tags: seq<Tag>, p: Packet, t: TcpHeader)
    requires FitsPacket(p) && Carries(frame, tags, p) && Protocol(p) == 6 && FitsTcp(t)
    requires Has(frame, 14 + 4 * |tags| + |PacketHeader(p)|, TcpBytes(t))
    requires |PacketHeader(p)| + 20 + |t.options| <= Claimed(p)
    ensures DecapTcp(frame).Ok?
    ensures var d := DecapTcp(frame).value;
            && DecapWalk(frame) == Ok(d.walk)
            && d.srcPort == t.srcPort && d.dstPort == t.dstPort && d.flags == t.flags
            && d.payload == 14 + 4 * |tags| + |PacketHeader(p)| + 20 + |t.options|
            && d.payload + d.payloadLen == 14 + 4 * |tags| + Claimed(p)
  {
    hide DecapWalk;
    hide Two;
    hide PacketHeader;
    hide TcpBytes;
    hide Has;
    hide Claimed;
    WrittenPacketWalks(frame, tags, p);
    TcpFields(frame, 14 + 4 * |tags| + |PacketHeader(p)|, t);
  }
}
