/** Ethernet, VLAN, IPv4/IPv6 and UDP/TCP decapsulation (cf_decap.c). Frames are byte sequences;
    payload views are offsets into the frame. */
module Decap {
  import opened Bytes

  const VLAN_8021Q := 0x8100
  const VLAN_QINQ := 0x88A8
  const TYPE_IPV4 := 0x0800
  const TYPE_IPV6 := 0x86DD
  const PROTO_TCP := 6
  const PROTO_UDP := 17
  const HOPOPTS := 0
  const ROUTING := 43
  const FRAGMENT := 44
  const DSTOPTS := 60
  const MAX_EXT_HEADERS := 8

  datatype Failure = NotUdp | NotTcp | Truncated | Unsupported

  datatype Result<T> = Ok(value: T) | Err(error: Failure)

  /** Ethertype, offset behind the tags, and the VLAN ids met. */
  datatype Link = Link(ethertype: u16, off: nat, vlans: seq<u16>)

  /** Where the transport header starts, if there is one here. */
  datatype L4 = L4(present: bool, off: nat, nextHeader: byte, fragmented: bool, fragmentOffset: nat)

  datatype Walk = Walk(link: Link, ipVersion: byte, srcIp: seq<byte>, dstIp: seq<byte>, l4: L4, ipEnd: nat)

  datatype Udp = Udp(walk: Walk, srcPort: u16, dstPort: u16, length: u16, checksumPresent: bool, payload: nat, payloadLen: nat)

  datatype Tcp = Tcp(walk: Walk, srcPort: u16, dstPort: u16, flags: byte, payload: nat, payloadLen: nat)

  /** Bytes left from off on, saturating at zero. */
  function Remain(len: nat, off: nat): (n: nat)
    ensures off <= len ==> off + n == len
    ensures off > len ==> n == 0
  {
    if off > len then 0 else len - off
  }

  predicate IsTag(ethertype: u16) {
    ethertype == VLAN_8021Q || ethertype == VLAN_QINQ
  }

  /** At most `budget` tags are removed. */
  function StripTags(frame: seq<byte>, link: Link, budget: nat): (r: Result<Link>)
    requires link.off <= |frame|
    ensures r.Ok? ==> link.off <= r.value.off <= |frame|
    decreases budget
  {
    if budget == 0 || !IsTag(link.ethertype) then Ok(link)
    else if Remain(|frame|, link.off) < 4 then Err(Truncated)
    else StripTags(frame,
                   Link(Be16(frame, link.off + 2), link.off + 4, link.vlans + [Be16(frame, link.off) % 0x1000]),
                   budget - 1)
  }

  /** The address bytes in a 16-byte field, an IPv4 address in its first four bytes. */
  function Address(s: seq<byte>): (a: seq<byte>)
    requires |s| <= 16
    ensures |a| == 16 && s <= a
  {
    s + seq(16 - |s|, _ => 0)
  }

  function Min(a: nat, b: nat): nat {
    if a < b then a else b
  }

  function WalkIpv4(frame: seq<byte>, link: Link): (r: Result<Walk>) {
    var off := link.off;
    if Remain(|frame|, off) < 20 then Err(Truncated)
    else if frame[off] / 16 != 4 then Err(Unsupported)
    else
      var ihl := (frame[off] % 16) as int * 4;
      if ihl < 20 || Remain(|frame|, off) < ihl then Err(Truncated)
      else
        var totalLen := Be16(frame, off + 2);
        var frag := Be16(frame, off + 6);
        var end := if totalLen < ihl || off + totalLen > |frame| then |frame| else off + totalLen;
        var first := frag % 0x2000 == 0;
        Ok(Walk(link, 4, Address(frame[off + 12..off + 16]), Address(frame[off + 16..off + 20]),
                L4(first, if first then off + ihl else 0, frame[off + 9],
                   if first then frag / 0x2000 % 2 == 1 else true, frag % 0x2000),
                end))
  }

  /** The extension-header chain from off on; `budget` headers may still be walked. */
  function WalkExtensions(frame: seq<byte>, off: nat, next: byte, fragmented: bool, fragmentOffset: nat, budget: nat): (r: Result<L4>)
    decreases budget
  {
    if budget == 0 then Err(Unsupported)
    else if next == FRAGMENT then
      if Remain(|frame|, off) < 8 then Err(Truncated)
      else
        var offset13 := Be16(frame, off + 2) / 8;
        if offset13 != 0 then Ok(L4(false, 0, frame[off], true, offset13))
        else WalkExtensions(frame, off + 8, frame[off], true, 0, budget - 1)
    else if next == HOPOPTS || next == ROUTING || next == DSTOPTS then
      if Remain(|frame|, off) < 2 then Err(Truncated)
      else
        var total := (frame[off + 1] as int + 1) * 8;
        if Remain(|frame|, off) < total then Err(Truncated)
        else WalkExtensions(frame, off + total, frame[off], fragmented, fragmentOffset, budget - 1)
    else Ok(L4(true, off, next, fragmented, fragmentOffset))
  }

  function WalkIpv6(frame: seq<byte>, link: Link): (r: Result<Walk>) {
    var off := link.off;
    if Remain(|frame|, off) < 40 then Err(Truncated)
    else if frame[off] / 16 != 6 then Err(Unsupported)
    else
      var end := Min(off + 40 + Be16(frame, off + 4), |frame|);
      match WalkExtensions(frame, off + 40, frame[off + 6], false, 0, MAX_EXT_HEADERS)
      case Err(e) => Err(e)
      case Ok(l4) => Ok(Walk(link, 6, frame[off + 8..off + 24], frame[off + 24..off + 40], l4, end))
  }

  function DecapWalk(frame: seq<byte>): (r: Result<Walk>) {
    if Remain(|frame|, 0) < 14 then Err(Truncated)
    else match StripTags(frame, Link(Be16(frame, 12), 14, []), 2)
      case Err(e) => Err(e)
      case Ok(link) =>
        if IsTag(link.ethertype) then Err(Unsupported)
        else if link.ethertype == TYPE_IPV4 then WalkIpv4(frame, link)
        else if link.ethertype == TYPE_IPV6 then WalkIpv6(frame, link)
        else Err(Unsupported)
  }

  function ParseUdp(frame: seq<byte>, w: Walk): (r: Result<Udp>) {
    var off := w.l4.off;
    if Remain(|frame|, off) < 8 then Err(Truncated)
    else
      var length := Be16(frame, off + 4);
      if length < 8 then Err(Truncated)
      else if Remain(|frame|, off + 8) < length - 8 then Err(Truncated)
      else Ok(Udp(w, Be16(frame, off), Be16(frame, off + 2), length, Be16(frame, off + 6) != 0, off + 8, length - 8))
  }

  function ParseTcp(frame: seq<byte>, w: Walk): (r: Result<Tcp>) {
    var off := w.l4.off;
    if Remain(|frame|, off) < 20 then Err(Truncated)
    else
      var dataOffset := (frame[off + 12] / 16) as int * 4;
      if dataOffset < 20 then Err(Truncated)
      else if Remain(|frame|, off) < dataOffset then Err(Truncated)
      else
        var start := off + dataOffset;
        var end := if w.ipEnd < start then start else w.ipEnd;
        var clamped := if end > |frame| then |frame| else end;
        Ok(Tcp(w, Be16(frame, off), Be16(frame, off + 2), frame[off + 13], start, clamped - start))
  }

  function DecapUdp(frame: seq<byte>): (r: Result<Udp>) {
    match DecapWalk(frame)
    case Err(e) => Err(e)
    case Ok(w) =>
      if !w.l4.present || w.l4.nextHeader != PROTO_UDP then Err(NotUdp) else ParseUdp(frame, w)
  }

  function DecapTcp(frame: seq<byte>): (r: Result<Tcp>) {
    match DecapWalk(frame)
    case Err(e) => Err(e)
    case Ok(w) =>
      if !w.l4.present || w.l4.nextHeader != PROTO_TCP then Err(NotTcp) else ParseTcp(frame, w)
  }

  // ---------------------------------------------------------------- the walk as it runs

  /** The tag loop of decap_walk. */
  method RunTagLoop(frame: seq<byte>) returns (r: Result<Link>)
    requires 14 <= |frame|
    ensures r == StripTags(frame, Link(Be16(frame, 12), 14, []), 2)
  {
    var ethertype, off := Be16(frame, 12), 14;
    var vlans: seq<u16> := [];
    ghost var start := Link(ethertype, off, vlans);
    var i := 0;
    while i < 2
      invariant 0 <= i <= 2 && off <= |frame|
      invariant StripTags(frame, Link(ethertype, off, vlans), 2 - i) == StripTags(frame, start, 2)
    {
      if !IsTag(ethertype) {
        break;
      }
      if Remain(|frame|, off) < 4 {
        return Err(Truncated);
      }
      vlans := vlans + [Be16(frame, off) % 0x1000];
      ethertype := Be16(frame, off + 2);
      off := off + 4;
      i := i + 1;
    }
    return Ok(Link(ethertype, off, vlans));
  }

  /** The extension-header loop of walk_ipv6. */
  method RunExtensionLoop(frame: seq<byte>, off: nat, next: byte) returns (r: Result<L4>)
    ensures r == WalkExtensions(frame, off, next, false, 0, MAX_EXT_HEADERS)
  {
    var cur: nat, nextHeader, fragmented := off, next, false;
    ghost var goal := WalkExtensions(frame, off, next, false, 0, MAX_EXT_HEADERS);
    for i := 0 to MAX_EXT_HEADERS
      invariant WalkExtensions(frame, cur, nextHeader, fragmented, 0, MAX_EXT_HEADERS - i) == goal
    {
      if nextHeader == FRAGMENT {
        if Remain(|frame|, cur) < 8 {
          return Err(Truncated);
        }
        var offset13 := Be16(frame, cur + 2) / 8;
        if offset13 != 0 {
          return Ok(L4(false, 0, frame[cur], true, offset13));
        }
        fragmented := true;
        nextHeader := frame[cur];
        cur := cur + 8;
        continue;
      }
      if nextHeader == HOPOPTS || nextHeader == ROUTING || nextHeader == DSTOPTS {
        if Remain(|frame|, cur) < 2 {
          return Err(Truncated);
        }
        var total := (frame[cur + 1] as int + 1) * 8;
        if Remain(|frame|, cur) < total {
          return Err(Truncated);
        }
        nextHeader := frame[cur];
        cur := cur + total;
        continue;
      }
      return Ok(L4(true, cur, nextHeader, fragmented, 0));
    }
    return Err(Unsupported);
  }

  // ---------------------------------------------------------------- safety

  lemma {:induction false} ExtensionsStayInside(frame: seq<byte>, off: nat, next: byte, fragmented: bool, fragmentOffset: nat, budget: nat)
    requires off <= |frame|
    ensures var r := WalkExtensions(frame, off, next, fragmented, fragmentOffset, budget);
            r.Ok? && r.value.present ==> off <= r.value.off <= |frame|
    decreases budget
  {
    if budget > 0 {
      if next == FRAGMENT && Remain(|frame|, off) >= 8 {
        ExtensionsStayInside(frame, off + 8, frame[off], true, 0, budget - 1);
      } else if (next == HOPOPTS || next == ROUTING || next == DSTOPTS) && Remain(|frame|, off) >= 2 {
        var total := (frame[off + 1] as int + 1) * 8;
        if Remain(|frame|, off) >= total {
          ExtensionsStayInside(frame, off + total, frame[off], fragmented, fragmentOffset, budget - 1);
        }
      }
    }
  }

  /** The transport header stands in the frame, behind the whole IPv4 header or behind at least the
      forty bytes of an IPv6 header, and the IP payload ends in the frame. */
  ghost predicate StaysInside(frame: seq<byte>, w: Walk) {
    && w.link.off <= w.ipEnd <= |frame| && w.link.off < |frame| && (w.ipVersion == 4 || w.ipVersion == 6)
    && (w.l4.present ==>
          && w.l4.off <= |frame|
          && (w.ipVersion == 4 ==> w.l4.off == w.link.off + frame[w.link.off] % 0x10 * 4 >= w.link.off + 20)
          && (w.ipVersion == 6 ==> w.l4.off >= w.link.off + 40))
  }

  lemma Ipv4StaysInside(frame: seq<byte>, link: Link)
    ensures var r := WalkIpv4(frame, link); r.Ok? ==> StaysInside(frame, r.value)
  {
  }

  lemma Ipv6StaysInside(frame: seq<byte>, link: Link)
    ensures var r := WalkIpv6(frame, link); r.Ok? ==> StaysInside(frame, r.value)
  {
    hide WalkExtensions;
    if link.off + 40 <= |frame| {
      ExtensionsStayInside(frame, link.off + 40, frame[link.off + 6], false, 0, MAX_EXT_HEADERS);
    }
  }

  lemma WalkStaysInside(frame: seq<byte>)
    ensures var r := DecapWalk(frame); r.Ok? ==> StaysInside(frame, r.value)
  {
    hide StripTags;
    hide WalkIpv4;
    hide WalkIpv6;
    hide StaysInside;
    if |frame| >= 14 {
      var s := StripTags(frame, Link(Be16(frame, 12), 14, []), 2);
      if s.Ok? {
        Ipv4StaysInside(frame, s.value);
        Ipv6StaysInside(frame, s.value);
      }
    }
  }

  /** Every payload view lies inside the frame, behind the headers; a UDP view has exactly the
      length the header claims, a TCP view never passes the end of the IP payload unless the IP
      length is implausibly small. */
  lemma PayloadInsideFrame(frame: seq<byte>)
    ensures DecapUdp(frame).Ok? ==>
              var u := DecapUdp(frame).value;
              && u.walk.l4.present && u.payload == u.walk.l4.off + 8
              && u.payload + u.payloadLen <= |frame| && u.payloadLen + 8 == u.length
    ensures DecapTcp(frame).Ok? ==>
              var t := DecapTcp(frame).value;
              && t.walk.l4.present && t.payload >= t.walk.l4.off + 20
              && t.payload + t.payloadLen <= |frame|
              && (t.payload + t.payloadLen == t.walk.ipEnd || (t.payloadLen == 0 && t.payload > t.walk.ipEnd))
  {
    WalkStaysInside(frame);
  }

  lemma AddressesAreFull(frame: seq<byte>)
    ensures DecapWalk(frame).Ok? ==> |DecapWalk(frame).value.srcIp| == 16 && |DecapWalk(frame).value.dstIp| == 16
    ensures DecapUdp(frame).Ok? ==> DecapWalk(frame) == Ok(DecapUdp(frame).value.walk)
    ensures DecapTcp(frame).Ok? ==> DecapWalk(frame) == Ok(DecapTcp(frame).value.walk)
  {
  }
}
