/** The DNS capture filter (dns_bpf.c): UDP port 53, else TCP port 53, per IP version and tagging. */
module DnsFilter {
  import opened Bytes
  import opened Bpf
  import opened BpfFilters

  const VLAN := 0
  const IP4_14 := 1
  const TCP4_14 := 2
  const IP6_14 := 3
  const TCP6_14 := 4
  const IP4_18 := 5
  const TCP4_18 := 6
  const IP6_18 := 7
  const TCP6_18 := 8
  const ACCEPT := 9
  const DROP := 10

  const PORTS: (u16, u16) := (DNS_PORT, DNS_PORT)
  const DISPATCH := Dispatch(VLAN, IP4_14, IP6_14, IP4_18, IP6_18, DROP)
  const LENGTH := 89

  function Labels(): (l: seq<int>)
    ensures |l| == MAX_LABELS
  {
    [4, 7, 18, 29, 38, 47, 58, 69, 78, 87, 88] + seq(21, _ => -1)
  }

  /** UDP, then on any mismatch TCP, then drop, for a header at base. */
  function Chain4(base: nat, tcp: int): (c: seq<LInsn>)
    requires base < 0x80
    ensures |c| == 22
  {
    Ipv4Branch(base, IPPROTO_UDP, PORTS, ACCEPT, tcp) + Ipv4Branch(base, IPPROTO_TCP, PORTS, ACCEPT, DROP)
  }

  function Chain6(base: nat, tcp: int): (c: seq<LInsn>)
    requires base < 0x80
    ensures |c| == 18
  {
    Ipv6Branch(base, IPPROTO_UDP, PORTS, ACCEPT, tcp) + Ipv6Branch(base, IPPROTO_TCP, PORTS, ACCEPT, DROP)
  }

  function Tail(): (c: seq<LInsn>)
    ensures |c| == 2
  {
    [Plain(Ret, ACCEPT_ALL)] + [Plain(Ret, 0)]
  }

  function Source(): (src: seq<LInsn>)
    ensures |src| == LENGTH
  {
    EtherHead(DISPATCH) + (Chain4(14, TCP4_14) + (Chain6(14, TCP6_14) + (Chain4(18, TCP4_18) + (Chain6(18, TCP6_18) + Tail()))))
  }

  lemma Chain4Ok(labels: seq<int>, pos: nat, base: nat, tcp: int)
    requires base < 0x80 && Ahead(labels, ACCEPT, pos + 22) && Ahead(labels, DROP, pos + 22) && Ahead(labels, tcp, pos + 11)
    ensures PieceOk(labels, pos, Chain4(base, tcp))
  {
    Ipv4PieceOk(labels, pos, base, IPPROTO_UDP, PORTS, ACCEPT, tcp);
    Ipv4PieceOk(labels, pos + 11, base, IPPROTO_TCP, PORTS, ACCEPT, DROP);
    PieceJoin(labels, pos, Ipv4Branch(base, IPPROTO_UDP, PORTS, ACCEPT, tcp), Ipv4Branch(base, IPPROTO_TCP, PORTS, ACCEPT, DROP));
  }

  lemma Chain6Ok(labels: seq<int>, pos: nat, base: nat, tcp: int)
    requires base < 0x80 && Ahead(labels, ACCEPT, pos + 18) && Ahead(labels, DROP, pos + 18) && Ahead(labels, tcp, pos + 9)
    ensures PieceOk(labels, pos, Chain6(base, tcp))
  {
    Ipv6PieceOk(labels, pos, base, IPPROTO_UDP, PORTS, ACCEPT, tcp);
    Ipv6PieceOk(labels, pos + 9, base, IPPROTO_TCP, PORTS, ACCEPT, DROP);
    PieceJoin(labels, pos, Ipv6Branch(base, IPPROTO_UDP, PORTS, ACCEPT, tcp), Ipv6Branch(base, IPPROTO_TCP, PORTS, ACCEPT, DROP));
  }

  /** Every label of the program is placed ahead of its jumps and within reach. */
  lemma SourceResolves()
    ensures Resolvable(Source(), Labels())
    ensures CodeAt(Resolve(Source(), Labels()), Labels(), 0, Source())
  {
    hide Chain4;
    hide Chain6;
    hide EtherHead;
    hide Tail;
    var l := Labels();
    assert PieceOk(l, 0, EtherHead(DISPATCH)) by { HeadOk(); }
    Chain4Ok(l, 7, 14, TCP4_14);
    Chain6Ok(l, 29, 14, TCP6_14);
    Chain4Ok(l, 47, 18, TCP4_18);
    Chain6Ok(l, 69, 18, TCP6_18);
    assert PieceOk(l, 87, Tail()) by { TailOk(); }
    PieceJoin(l, 69, Chain6(18, TCP6_18), Tail());
    PieceJoin(l, 47, Chain4(18, TCP4_18), Chain6(18, TCP6_18) + Tail());
    PieceJoin(l, 29, Chain6(14, TCP6_14), Chain4(18, TCP4_18) + (Chain6(18, TCP6_18) + Tail()));
    PieceJoin(l, 7, Chain4(14, TCP4_14), Chain6(14, TCP6_14) + (Chain4(18, TCP4_18) + (Chain6(18, TCP6_18) + Tail())));
    PieceJoin(l, 0, EtherHead(DISPATCH), Chain4(14, TCP4_14) + (Chain6(14, TCP6_14) + (Chain4(18, TCP4_18) + (Chain6(18, TCP6_18) + Tail()))));
    PieceCode(Source(), l);
  }

  lemma HeadOk()
    ensures PieceOk(Labels(), 0, EtherHead(DISPATCH))
  {
  }

  lemma TailOk()
    ensures PieceOk(Labels(), 87, Tail())
  {
  }

  lemma {:induction false} Chain4Leads(prog: seq<Insn>, lab: int, base: nat, tcp: int, pkt: seq<byte>)
    requires var l := Labels();
             && base < 0x80 && 0 <= lab < 11 && 0 <= tcp < 11 && l[tcp] == l[lab] + 11
             && CodeAt(prog, l, l[lab], Chain4(base, tcp))
             && Leads(prog, l, pkt, ACCEPT, Verdict(true)) && Leads(prog, l, pkt, DROP, Verdict(false))
    ensures Leads(prog, Labels(), pkt, lab, Verdict(Ipv4Wanted(pkt, base, {IPPROTO_UDP, IPPROTO_TCP}, PORTS)))
  {
    var l := Labels();
    CodeSplit(prog, l, l[lab], Ipv4Branch(base, IPPROTO_UDP, PORTS, ACCEPT, tcp), Ipv4Branch(base, IPPROTO_TCP, PORTS, ACCEPT, DROP));
    Ipv4Leads(prog, l, tcp, base, IPPROTO_TCP, PORTS, ACCEPT, DROP, pkt, Verdict(true), Verdict(false));
    Ipv4Leads(prog, l, lab, base, IPPROTO_UDP, PORTS, ACCEPT, tcp, pkt, Verdict(true),
              Ipv4Outcome(pkt, base, IPPROTO_TCP, PORTS, Verdict(true), Verdict(false)));
    Ipv4OutcomeIsWanted(pkt, base, PORTS);
  }

  lemma {:induction false} Chain6Leads(prog: seq<Insn>, lab: int, base: nat, tcp: int, pkt: seq<byte>)
    requires var l := Labels();
             && base < 0x80 && 0 <= lab < 11 && 0 <= tcp < 11 && l[tcp] == l[lab] + 9
             && CodeAt(prog, l, l[lab], Chain6(base, tcp))
             && Leads(prog, l, pkt, ACCEPT, Verdict(true)) && Leads(prog, l, pkt, DROP, Verdict(false))
    ensures Leads(prog, Labels(), pkt, lab, Verdict(Ipv6Wanted(pkt, base, {IPPROTO_UDP, IPPROTO_TCP}, PORTS)))
  {
    var l := Labels();
    CodeSplit(prog, l, l[lab], Ipv6Branch(base, IPPROTO_UDP, PORTS, ACCEPT, tcp), Ipv6Branch(base, IPPROTO_TCP, PORTS, ACCEPT, DROP));
    Ipv6Leads(prog, l, tcp, base, IPPROTO_TCP, PORTS, ACCEPT, DROP, pkt, Verdict(true), Verdict(false));
    Ipv6Leads(prog, l, lab, base, IPPROTO_UDP, PORTS, ACCEPT, tcp, pkt, Verdict(true),
              Ipv6Outcome(pkt, base, IPPROTO_TCP, PORTS, Verdict(true), Verdict(false)));
    Ipv6OutcomeIsWanted(pkt, base, PORTS);
  }

  /** On every frame the assembled program accepts exactly the wanted ones. */
  lemma {:induction false} ProgramDecidesDnsWanted(pkt: seq<byte>)
    ensures Run(Resolve(Source(), Labels()), pkt, 0, 0, 0) == Verdict(DnsWanted(pkt))
  {
    hide Chain4;
    hide Chain6;
    hide EtherHead;
    hide Resolve;
    hide Run;
    hide Ipv4Wanted;
    hide Ipv6Wanted;
    var l := Labels();
    var prog := Resolve(Source(), l);
    SourceResolves();
    var c4 := Chain6(18, TCP6_18) + Tail();
    var c3 := Chain4(18, TCP4_18) + c4;
    var c2 := Chain6(14, TCP6_14) + c3;
    var c1 := Chain4(14, TCP4_14) + c2;
    CodeSplit(prog, l, 0, EtherHead(DISPATCH), c1);
    CodeSplit(prog, l, 7, Chain4(14, TCP4_14), c2);
    CodeSplit(prog, l, 29, Chain6(14, TCP6_14), c3);
    CodeSplit(prog, l, 47, Chain4(18, TCP4_18), c4);
    CodeSplit(prog, l, 69, Chain6(18, TCP6_18), Tail());
    CodeSplit(prog, l, 87, [Plain(Ret, ACCEPT_ALL)], [Plain(Ret, 0)]);
    RetLeads(prog, l, pkt, ACCEPT, ACCEPT_ALL);
    RetLeads(prog, l, pkt, DROP, 0);
    Chain4Leads(prog, IP4_14, 14, TCP4_14, pkt);
    Chain6Leads(prog, IP6_14, 14, TCP6_14, pkt);
    Chain4Leads(prog, IP4_18, 18, TCP4_18, pkt);
    Chain6Leads(prog, IP6_18, 18, TCP6_18, pkt);
    EtherHeadRuns(prog, l, DISPATCH, pkt,
                  Verdict(Ipv4Wanted(pkt, 14, {IPPROTO_UDP, IPPROTO_TCP}, PORTS)),
                  Verdict(Ipv6Wanted(pkt, 14, {IPPROTO_UDP, IPPROTO_TCP}, PORTS)),
                  Verdict(Ipv4Wanted(pkt, 18, {IPPROTO_UDP, IPPROTO_TCP}, PORTS)),
                  Verdict(Ipv6Wanted(pkt, 18, {IPPROTO_UDP, IPPROTO_TCP}, PORTS)));
  }

  ghost predicate DecidesDns(prog: seq<Insn>) {
    forall pkt :: Run(prog, pkt, 0, 0, 0) == Verdict(DnsWanted(pkt))
  }

  /** The IPv4 part for one tagging: label, UDP branch, label, TCP branch. */
  method EmitChain4(a: Assembler, base: nat, ip4: int, tcp: int)
    requires a.Valid() && base < 0x80 && 0 <= ip4 < 11 && 0 <= tcp < 11
    modifies a, a.insns, a.fixups, a.labelPos
    ensures a.Valid()
    ensures old(Room(a, 22, 14)) ==>
              && !a.error && a.src == old(a.src) + Chain4(base, tcp)
              && a.n == old(a.n) + 22 && a.nFixups <= old(a.nFixups) + 14
              && a.labelPos[..] == old(a.labelPos[..])[ip4 := old(a.n)][tcp := old(a.n) + 11]
  {
    hide Ipv4Branch;
    hide Assembler.Valid;
    a.Label(ip4);
    EmitIpv4Branch(a, base, IPPROTO_UDP, PORTS, ACCEPT, tcp);
    a.Label(tcp);
    EmitIpv4Branch(a, base, IPPROTO_TCP, PORTS, ACCEPT, DROP);
  }

  method EmitChain6(a: Assembler, base: nat, ip6: int, tcp: int)
    requires a.Valid() && base < 0x80 && 0 <= ip6 < 11 && 0 <= tcp < 11
    modifies a, a.insns, a.fixups, a.labelPos
    ensures a.Valid()
    ensures old(Room(a, 18, 12)) ==>
              && !a.error && a.src == old(a.src) + Chain6(base, tcp)
              && a.n == old(a.n) + 18 && a.nFixups <= old(a.nFixups) + 12
              && a.labelPos[..] == old(a.labelPos[..])[ip6 := old(a.n)][tcp := old(a.n) + 9]
  {
    hide Ipv6Branch;
    hide Assembler.Valid;
    a.Label(ip6);
    EmitIpv6Branch(a, base, IPPROTO_UDP, PORTS, ACCEPT, tcp);
    a.Label(tcp);
    EmitIpv6Branch(a, base, IPPROTO_TCP, PORTS, ACCEPT, DROP);
  }

  lemma SourceInOrder()
    ensures [] + EtherHead(DISPATCH) + Chain4(14, TCP4_14) + Chain6(14, TCP6_14) + Chain4(18, TCP4_18)
            + Chain6(18, TCP6_18) + [Plain(Ret, ACCEPT_ALL)] + [Plain(Ret, 0)] == Source()
  {
    hide Chain4;
    hide Chain6;
    hide EtherHead;
  }

  lemma LabelsInOrder()
    ensures seq(MAX_LABELS, _ => -1)[VLAN := 4][IP4_14 := 7][TCP4_14 := 18][IP6_14 := 29][TCP6_14 := 38]
              [IP4_18 := 47][TCP4_18 := 58][IP6_18 := 69][TCP6_18 := 78][ACCEPT := 87][DROP := 88] == Labels()
  {
  }

  /** The first pass over the whole program. */
  method Assemble(a: Assembler)
    requires a.Valid() && !a.error && a.src == [] && a.n == 0 && a.nFixups == 0
    requires a.labelPos[..] == seq(MAX_LABELS, _ => -1)
    modifies a, a.insns, a.fixups, a.labelPos
    ensures a.Valid() && !a.error && a.n == LENGTH && a.src == Source() && a.labelPos[..] == Labels()
  {
    hide Chain4;
    hide Chain6;
    hide EtherHead;
    hide Assembler.Valid;
    EmitEtherHead(a, DISPATCH);
    EmitChain4(a, 14, IP4_14, TCP4_14);
    EmitChain6(a, 14, IP6_14, TCP6_14);
    EmitChain4(a, 18, IP4_18, TCP4_18);
    EmitChain6(a, 18, IP6_18, TCP6_18);
    a.Label(ACCEPT);
    a.Stmt(Ret, ACCEPT_ALL);
    a.Label(DROP);
    a.Stmt(Ret, 0);
    SourceInOrder();
    LabelsInOrder();
  }

  /** Builds the filter into out; -1 when it does not fit in max instructions. */
  method BuildDnsFilter(out: array<Insn>, max: int) returns (n: int)
    requires out.Length >= max
    modifies out
    ensures n == if LENGTH <= max then LENGTH else -1
    ensures n > 0 ==> DecidesDns(out[..n]) && out[n..] == old(out[n..])
    ensures n < 0 ==> out[..] == old(out[..])
  {
    hide Source;
    hide Run;
    hide Resolve;
    hide Raw;
    hide FixupsOf;
    hide Resolvable;
    hide DnsWanted;
    var a := new Assembler();
    Assemble(a);
    SourceResolves();
    var rc := a.Finish();
    if rc != 0 {
      return -1;
    }
    ghost var prog := a.insns[..a.n];
    assert prog == Resolve(Source(), Labels());
    if a.n > max {
      return -1;
    }
    for i := 0 to a.n
      modifies out
      invariant out[..i] == a.insns[..i]
      invariant out[i..] == old(out[i..])
    {
      out[i] := a.insns[i];
    }
    n := a.n;
    assert out[..n] == prog;
    forall pkt ensures Run(out[..n], pkt, 0, 0, 0) == Verdict(DnsWanted(pkt)) {
      ProgramDecidesDnsWanted(pkt);
    }
  }
}
