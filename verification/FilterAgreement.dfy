/** The kernel filter and the userspace decapsulator look at the same frames. */
module FilterAgreement {
  import opened Bytes
  import opened Decap
  import BpfFilters

  /** At most one tag, of the 802.1Q kind, and no IPv6 extension header. */
  predicate PlainShape(frame: seq<byte>, w: Walk)
    requires 14 <= |frame|
  {
    && |w.link.vlans| <= 1
    && (|w.link.vlans| == 1 ==> Be16(frame, 12) == VLAN_8021Q)
    && (w.ipVersion == 6 ==> w.l4.off == w.link.off + 40)
  }

  predicate DnsPort(srcPort: u16, dstPort: u16) {
    srcPort == BpfFilters.DNS_PORT || dstPort == BpfFilters.DNS_PORT
  }

  /** The three ways the tag loop ends without an error. */
  lemma TagCases(frame: seq<byte>)
    requires 14 <= |frame|
    ensures var r := StripTags(frame, Link(Be16(frame, 12), 14, []), 2);
            r.Ok? ==>
              var l := r.value;
              && |l.vlans| <= 2 && l.off == 14 + 4 * |l.vlans| <= |frame|
              && l.ethertype == Be16(frame, l.off - 2)
              && (|l.vlans| >= 1 ==> IsTag(Be16(frame, 12)))
              && (|l.vlans| == 0 ==> !IsTag(Be16(frame, 12)))
              && (|l.vlans| == 1 ==> !IsTag(Be16(frame, 16)))
              && (|l.vlans| == 2 ==> IsTag(Be16(frame, 16)))
  {
    var l0 := Link(Be16(frame, 12), 14, []);
    if IsTag(l0.ethertype) && |frame| >= 18 {
      var l1 := Link(Be16(frame, 16), 18, [] + [Be16(frame, 14) % 0x1000]);
      assert StripTags(frame, l0, 2) == StripTags(frame, l1, 1);
      if IsTag(l1.ethertype) && |frame| >= 22 {
        var l2 := Link(Be16(frame, 20), 22, l1.vlans + [Be16(frame, 18) % 0x1000]);
        assert StripTags(frame, l1, 1) == StripTags(frame, l2, 0) == Ok(l2);
      }
    }
  }

  predicate IsExtension(next: byte) {
    next == FRAGMENT || next == HOPOPTS || next == ROUTING || next == DSTOPTS
  }

  /** Without extension headers the chain is where it starts; with one it is further on. */
  lemma {:induction false} ExtensionsAdvance(frame: seq<byte>, off: nat, next: byte, fragmented: bool, fragmentOffset: nat, budget: nat)
    requires budget > 0
    ensures var r := WalkExtensions(frame, off, next, fragmented, fragmentOffset, budget);
            && (!IsExtension(next) ==> r == Ok(L4(true, off, next, fragmented, fragmentOffset)))
            && (IsExtension(next) && r.Ok? && r.value.present ==> r.value.off > off)
    decreases budget
  {
    if budget > 1 {
      if next == FRAGMENT && Remain(|frame|, off) >= 8 {
        ExtensionsAdvance(frame, off + 8, frame[off], true, 0, budget - 1);
      } else if IsExtension(next) && Remain(|frame|, off) >= 2 {
        ExtensionsAdvance(frame, off + (frame[off + 1] as int + 1) * 8, frame[off], fragmented, fragmentOffset, budget - 1);
      }
    }
  }

  lemma Ipv4Bytes(frame: seq<byte>, link: Link)
    ensures var r := WalkIpv4(frame, link);
            r.Ok? ==>
              var w := r.value;
              && w.ipVersion == 4 && w.link == link && link.off + 20 <= |frame|
              && (w.l4.present ==>
                    && w.l4.nextHeader == frame[link.off + 9] && Be16(frame, link.off + 6) % 0x2000 == 0
                    && w.l4.off == BpfFilters.Ipv4L4(frame, link.off))
  {
  }

  lemma Ipv6Bytes(frame: seq<byte>, link: Link)
    ensures var r := WalkIpv6(frame, link);
            r.Ok? ==>
              var w := r.value;
              && w.ipVersion == 6 && w.link == link && link.off + 40 <= |frame|
              && (w.l4.present ==> (w.l4.off == link.off + 40 <==> !IsExtension(frame[link.off + 6])))
              && (w.l4.present && !IsExtension(frame[link.off + 6]) ==> w.l4.nextHeader == frame[link.off + 6])
  {
    hide WalkExtensions;
    if link.off + 40 <= |frame| {
      ExtensionsAdvance(frame, link.off + 40, frame[link.off + 6], false, 0, MAX_EXT_HEADERS);
    }
  }

  /** What a decoded walk says about the bytes the filter tests. */
  lemma WalkBytes(frame: seq<byte>, w: Walk)
    requires DecapWalk(frame) == Ok(w) && w.l4.present
    ensures 14 <= |frame| && w.link.off == 14 + 4 * |w.link.vlans| && |w.link.vlans| <= 2
    ensures w.link.ethertype == Be16(frame, w.link.off - 2)
    ensures |w.link.vlans| == 0 ==> !IsTag(Be16(frame, 12))
    ensures |w.link.vlans| == 1 ==> IsTag(Be16(frame, 12)) && !IsTag(Be16(frame, 16))
    ensures |w.link.vlans| == 2 ==> IsTag(Be16(frame, 12)) && IsTag(Be16(frame, 16))
    ensures w.ipVersion == 4 ==>
              && w.link.ethertype == TYPE_IPV4 && w.link.off + 20 <= |frame|
              && w.l4.nextHeader == frame[w.link.off + 9] && Be16(frame, w.link.off + 6) % 0x2000 == 0
              && w.l4.off == BpfFilters.Ipv4L4(frame, w.link.off)
    ensures w.ipVersion == 6 ==>
              && w.link.ethertype == TYPE_IPV6 && w.link.off + 40 <= |frame|
              && (w.l4.off == w.link.off + 40 <==> !IsExtension(frame[w.link.off + 6]))
              && (!IsExtension(frame[w.link.off + 6]) ==> w.l4.nextHeader == frame[w.link.off + 6])
    ensures w.ipVersion == 4 || w.ipVersion == 6
  {
    hide StripTags;
    hide WalkIpv4;
    hide WalkIpv6;
    hide IsExtension;
    TagCases(frame);
    var link := StripTags(frame, Link(Be16(frame, 12), 14, []), 2).value;
    Ipv4Bytes(frame, link);
    Ipv6Bytes(frame, link);
  }

  lemma WantedIffPlain(frame: seq<byte>, w: Walk, srcPort: u16, dstPort: u16)
    requires DecapWalk(frame) == Ok(w) && w.l4.present && w.l4.off + 4 <= |frame|
    requires w.l4.nextHeader == PROTO_UDP || w.l4.nextHeader == PROTO_TCP
    requires srcPort == Be16(frame, w.l4.off) && dstPort == Be16(frame, w.l4.off + 2) && DnsPort(srcPort, dstPort)
    ensures 14 <= |frame| && (BpfFilters.DnsWanted(frame) <==> PlainShape(frame, w))
  {
    hide DecapWalk;
    WalkBytes(frame, w);
    assert PROTO_UDP in {BpfFilters.IPPROTO_UDP, BpfFilters.IPPROTO_TCP} && PROTO_TCP in {BpfFilters.IPPROTO_UDP, BpfFilters.IPPROTO_TCP};
  }

  /** A frame that decapsulates to UDP or TCP with a port 53 passes the kernel filter exactly when it
      carries at most one tag, an 802.1Q one, and no IPv6 extension header. */
  lemma DecodedFramePassesFilterIffPlain(frame: seq<byte>)
    ensures DecapUdp(frame).Ok? && DnsPort(DecapUdp(frame).value.srcPort, DecapUdp(frame).value.dstPort) ==>
              14 <= |frame| && (BpfFilters.DnsWanted(frame) <==> PlainShape(frame, DecapUdp(frame).value.walk))
    ensures DecapTcp(frame).Ok? && DnsPort(DecapTcp(frame).value.srcPort, DecapTcp(frame).value.dstPort) ==>
              14 <= |frame| && (BpfFilters.DnsWanted(frame) <==> PlainShape(frame, DecapTcp(frame).value.walk))
  {
    hide BpfFilters.DnsWanted;
    hide PlainShape;
    hide DecapWalk;
    if DecapUdp(frame).Ok? && DnsPort(DecapUdp(frame).value.srcPort, DecapUdp(frame).value.dstPort) {
      var u := DecapUdp(frame).value;
      WantedIffPlain(frame, u.walk, u.srcPort, u.dstPort);
    }
    if DecapTcp(frame).Ok? && DnsPort(DecapTcp(frame).value.srcPort, DecapTcp(frame).value.dstPort) {
      var t := DecapTcp(frame).value;
      WantedIffPlain(frame, t.walk, t.srcPort, t.dstPort);
    }
  }

  /** The walk of a frame the filter lets through, if it succeeds, finds a UDP or TCP header with a
      port 53. */
  lemma FilteredWalk(frame: seq<byte>, w: Walk)
    requires BpfFilters.DnsWanted(frame) && DecapWalk(frame) == Ok(w)
    ensures w.l4.present && (w.l4.nextHeader == PROTO_UDP || w.l4.nextHeader == PROTO_TCP)
    ensures w.l4.off + 4 <= |frame| ==> DnsPort(Be16(frame, w.l4.off), Be16(frame, w.l4.off + 2))
  {
    hide WalkIpv4;
    hide WalkIpv6;
    hide StripTags;
    TagCases(frame);
    var link := StripTags(frame, Link(Be16(frame, 12), 14, []), 2).value;
    assert link.off == if Be16(frame, 12) == BpfFilters.ETH_P_8021Q then 18 else 14;
    Ipv4Bytes(frame, link);
    Ipv6Bytes(frame, link);
    FirstFragmentIsPresent(frame, link);
    PlainChainIsPresent(frame, link);
  }

  lemma FirstFragmentIsPresent(frame: seq<byte>, link: Link)
    ensures var r := WalkIpv4(frame, link);
            r.Ok? && Be16(frame, link.off + 6) % 0x2000 == 0 ==> r.value.l4.present
  {
  }

  lemma PlainChainIsPresent(frame: seq<byte>, link: Link)
    ensures var r := WalkIpv6(frame, link);
            r.Ok? && !IsExtension(frame[link.off + 6]) ==> r.value.l4.present
  {
    hide WalkExtensions;
    if link.off + 40 <= |frame| {
      ExtensionsAdvance(frame, link.off + 40, frame[link.off + 6], false, 0, MAX_EXT_HEADERS);
    }
  }

  lemma WalkErrors(frame: seq<byte>)
    ensures var r := DecapWalk(frame); r.Err? ==> r.error == Truncated || r.error == Unsupported
  {
    hide WalkExtensions;
    if |frame| >= 14 {
      TagErrors(frame, Link(Be16(frame, 12), 14, []), 2);
      var s := StripTags(frame, Link(Be16(frame, 12), 14, []), 2);
      if s.Ok? && s.value.off + 40 <= |frame| {
        ChainErrors(frame, s.value.off + 40, frame[s.value.off + 6], false, 0, MAX_EXT_HEADERS);
      }
    }
  }

  lemma {:induction false} TagErrors(frame: seq<byte>, link: Link, budget: nat)
    requires link.off <= |frame|
    ensures var r := StripTags(frame, link, budget); r.Err? ==> r.error == Truncated
    decreases budget
  {
    if budget > 0 && IsTag(link.ethertype) && Remain(|frame|, link.off) >= 4 {
      TagErrors(frame, Link(Be16(frame, link.off + 2), link.off + 4, link.vlans + [Be16(frame, link.off) % 0x1000]), budget - 1);
    }
  }

  lemma {:induction false} ChainErrors(frame: seq<byte>, off: nat, next: byte, fragmented: bool, fragmentOffset: nat, budget: nat)
    ensures var r := WalkExtensions(frame, off, next, fragmented, fragmentOffset, budget);
            r.Err? ==> r.error == Truncated || r.error == Unsupported
    decreases budget
  {
    if budget > 0 {
      if next == FRAGMENT && Remain(|frame|, off) >= 8 {
        ChainErrors(frame, off + 8, frame[off], true, 0, budget - 1);
      } else if IsExtension(next) && Remain(|frame|, off) >= 2 {
        ChainErrors(frame, off + (frame[off + 1] as int + 1) * 8, frame[off], fragmented, fragmentOffset, budget - 1);
      }
    }
  }

  /** Conversely, a frame the filter lets through either decapsulates with a port 53 or is cut short
      or malformed: it is never taken for another protocol or a later fragment. */
  lemma FilteredFrameDecodesOrIsTruncated(frame: seq<byte>)
    requires BpfFilters.DnsWanted(frame)
    ensures var u, t := DecapUdp(frame), DecapTcp(frame);
            || (u.Ok? && DnsPort(u.value.srcPort, u.value.dstPort))
            || (u == Err(NotUdp) && t.Ok? && DnsPort(t.value.srcPort, t.value.dstPort))
            || (u == Err(NotUdp) && t == Err(Truncated))
            || u == Err(Truncated) || u == Err(Unsupported)
  {
    hide DecapWalk;
    hide BpfFilters.DnsWanted;
    WalkErrors(frame);
    if DecapWalk(frame).Ok? {
      FilteredWalk(frame, DecapWalk(frame).value);
    }
  }
}
