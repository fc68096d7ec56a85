/** The DHCP capture filter (dhcp_bpf.c): UDP ports 67 and 68 over IPv4, 546 and 547 over IPv6. */
module DhcpFilter {
  import opened Bytes
  import opened Bpf
  import opened BpfFilters

  const VLAN := 0
  const IP4_14 := 1
  const IP6_14 := 2
  const IP4_18 := 3
  const IP6_18 := 4
  const ACCEPT := 5
  const DROP := 6

  const PORTS4: (u16, u16) := (67, 68)
  const PORTS6: (u16, u16) := (546, 547)
  const DISPATCH := Dispatch(VLAN, IP4_14, IP6_14, IP4_18, IP6_18, DROP)
  const LENGTH := 49

  function Labels(): (l: seq<int>)
    ensures |l| == MAX_LABELS
  {
    [4, 7, 18, 27, 38, 47, 48] + seq(25, _ => -1)
  }

  function Udp4(base: nat): (c: seq<LInsn>)
    requires base < 0x80
    ensures |c| == 11
  {
    Ipv4Branch(base, IPPROTO_UDP, PORTS4, ACCEPT, DROP)
  }

  function Udp6(base: nat): (c: seq<LInsn>)
    requires base < 0x80
    ensures |c| == 9
  {
    Ipv6Branch(base, IPPROTO_UDP, PORTS6, ACCEPT, DROP)
  }

  function Tail(): (c: seq<LInsn>)
    ensures |c| == 2
  {
    [Plain(Ret, ACCEPT_ALL)] + [Plain(Ret, 0)]
  }

  function Source(): (src: seq<LInsn>)
    ensures |src| == LENGTH
  {
    EtherHead(DISPATCH) + (Udp4(14) + (Udp6(14) + (Udp4(18) + (Udp6(18) + Tail()))))
  }

  lemma HeadOk()
    ensures PieceOk(Labels(), 0, EtherHead(DISPATCH))
  {
  }

  lemma TailOk()
    ensures PieceOk(Labels(), 47, Tail())
  {
  }

  lemma SourceResolves()
    ensures Resolvable(Source(), Labels())
    ensures CodeAt(Resolve(Source(), Labels()), Labels(), 0, Source())
  {
    hide EtherHead;
    hide Ipv4Branch;
    hide Ipv6Branch;
    hide Tail;
    var l := Labels();
    HeadOk();
    Ipv4PieceOk(l, 7, 14, IPPROTO_UDP, PORTS4, ACCEPT, DROP);
    Ipv6PieceOk(l, 18, 14, IPPROTO_UDP, PORTS6, ACCEPT, DROP);
    Ipv4PieceOk(l, 27, 18, IPPROTO_UDP, PORTS4, ACCEPT, DROP);
    Ipv6PieceOk(l, 38, 18, IPPROTO_UDP, PORTS6, ACCEPT, DROP);
    TailOk();
    PieceJoin(l, 38, Udp6(18), Tail());
    PieceJoin(l, 27, Udp4(18), Udp6(18) + Tail());
    PieceJoin(l, 18, Udp6(14), Udp4(18) + (Udp6(18) + Tail()));
    PieceJoin(l, 7, Udp4(14), Udp6(14) + (Udp4(18) + (Udp6(18) + Tail())));
    PieceJoin(l, 0, EtherHead(DISPATCH), Udp4(14) + (Udp6(14) + (Udp4(18) + (Udp6(18) + Tail()))));
    PieceCode(Source(), l);
  }

  /** On every frame the assembled program accepts exactly the wanted ones. */
  lemma {:induction false} ProgramDecidesDhcpWanted(pkt: seq<byte>)
    ensures Run(Resolve(Source(), Labels()), pkt, 0, 0, 0) == Verdict(DhcpWanted(pkt))
  {
    hide EtherHead;
    hide Ipv4Branch;
    hide Ipv6Branch;
    hide Resolve;
    hide Run;
    hide Ipv4Wanted;
    hide Ipv6Wanted;
    var l := Labels();
    var prog := Resolve(Source(), l);
    SourceResolves();
    var c4 := Udp6(18) + Tail();
    var c3 := Udp4(18) + c4;
    var c2 := Udp6(14) + c3;
    var c1 := Udp4(14) + c2;
    CodeSplit(prog, l, 0, EtherHead(DISPATCH), c1);
    CodeSplit(prog, l, 7, Udp4(14), c2);
    CodeSplit(prog, l, 18, Udp6(14), c3);
    CodeSplit(prog, l, 27, Udp4(18), c4);
    CodeSplit(prog, l, 38, Udp6(18), Tail());
    CodeSplit(prog, l, 47, [Plain(Ret, ACCEPT_ALL)], [Plain(Ret, 0)]);
    RetLeads(prog, l, pkt, ACCEPT, ACCEPT_ALL);
    RetLeads(prog, l, pkt, DROP, 0);
    Ipv4Leads(prog, l, IP4_14, 14, IPPROTO_UDP, PORTS4, ACCEPT, DROP, pkt, Verdict(true), Verdict(false));
    Ipv6Leads(prog, l, IP6_14, 14, IPPROTO_UDP, PORTS6, ACCEPT, DROP, pkt, Verdict(true), Verdict(false));
    Ipv4Leads(prog, l, IP4_18, 18, IPPROTO_UDP, PORTS4, ACCEPT, DROP, pkt, Verdict(true), Verdict(false));
    Ipv6Leads(prog, l, IP6_18, 18, IPPROTO_UDP, PORTS6, ACCEPT, DROP, pkt, Verdict(true), Verdict(false));
    Ipv4OutcomeIsWanted(pkt, 14, PORTS4);
    Ipv6OutcomeIsWanted(pkt, 14, PORTS6);
    Ipv4OutcomeIsWanted(pkt, 18, PORTS4);
    Ipv6OutcomeIsWanted(pkt, 18, PORTS6);
    EtherHeadRuns(prog, l, DISPATCH, pkt,
                  Verdict(Ipv4Wanted(pkt, 14, {IPPROTO_UDP}, PORTS4)), Verdict(Ipv6Wanted(pkt, 14, {IPPROTO_UDP}, PORTS6)),
                  Verdict(Ipv4Wanted(pkt, 18, {IPPROTO_UDP}, PORTS4)), Verdict(Ipv6Wanted(pkt, 18, {IPPROTO_UDP}, PORTS6)));
  }

  lemma SourceInOrder()
    ensures [] + EtherHead(DISPATCH) + Udp4(14) + Udp6(14) + Udp4(18) + Udp6(18)
            + [Plain(Ret, ACCEPT_ALL)] + [Plain(Ret, 0)] == Source()
  {
    hide EtherHead;
    hide Udp4;
    hide Udp6;
  }

  lemma LabelsInOrder()
    ensures seq(MAX_LABELS, _ => -1)[VLAN := 4][IP4_14 := 7][IP6_14 := 18][IP4_18 := 27][IP6_18 := 38]
              [ACCEPT := 47][DROP := 48] == Labels()
  {
  }

  /** The first pass over the whole program. */
  method Assemble(a: Assembler)
    requires a.Valid() && !a.error && a.src == [] && a.n == 0 && a.nFixups == 0
    requires a.labelPos[..] == seq(MAX_LABELS, _ => -1)
    modifies a, a.insns, a.fixups, a.labelPos
    ensures a.Valid() && !a.error && a.n == LENGTH && a.src == Source() && a.labelPos[..] == Labels()
  {
    hide EtherHead;
    hide Ipv4Branch;
    hide Ipv6Branch;
    hide Assembler.Valid;
    EmitEtherHead(a, DISPATCH);
    a.Label(IP4_14);
    EmitIpv4Branch(a, 14, IPPROTO_UDP, PORTS4, ACCEPT, DROP);
    a.Label(IP6_14);
    EmitIpv6Branch(a, 14, IPPROTO_UDP, PORTS6, ACCEPT, DROP);
    a.Label(IP4_18);
    EmitIpv4Branch(a, 18, IPPROTO_UDP, PORTS4, ACCEPT, DROP);
    a.Label(IP6_18);
    EmitIpv6Branch(a, 18, IPPROTO_UDP, PORTS6, ACCEPT, DROP);
    a.Label(ACCEPT);
    a.Stmt(Ret, ACCEPT_ALL);
    a.Label(DROP);
    a.Stmt(Ret, 0);
    SourceInOrder();
    LabelsInOrder();
  }

  ghost predicate DecidesDhcp(prog: seq<Insn>) {
    forall pkt :: Run(prog, pkt, 0, 0, 0) == Verdict(DhcpWanted(pkt))
  }

  /** Builds the filter into out; -1 when it does not fit in max instructions. */
  method BuildDhcpFilter(out: array<Insn>, max: int) returns (n: int)
    requires out.Length >= max
    modifies out
    ensures n == if LENGTH <= max then LENGTH else -1
    ensures n > 0 ==> DecidesDhcp(out[..n]) && out[n..] == old(out[n..])
    ensures n < 0 ==> out[..] == old(out[..])
  {
    hide Source;
    hide Run;
    hide Resolve;
    hide Raw;
    hide FixupsOf;
    hide Resolvable;
    hide DhcpWanted;
    var a := new Assembler();
    Assemble(a);
    SourceResolves();
    var rc := a.Finish();
    if rc != 0 {
      return -1;
    }
    ghost var prog := a.insns[..a.n];
    assert prog == Resolve(Source(), Labels());
    if a.n > max {
      return -1;
    }
    for i := 0 to a.n
      modifies out
      invariant out[..i] == a.insns[..i]
      invariant out[i..] == old(out[i..])
    {
      out[i] := a.insns[i];
    }
    n := a.n;
    assert out[..n] == prog;
    forall pkt ensures Run(out[..n], pkt, 0, 0, 0) == Verdict(DhcpWanted(pkt)) {
      ProgramDecidesDhcpWanted(pkt);
    }
  }
}
