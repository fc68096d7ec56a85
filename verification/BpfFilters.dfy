/** The branch emitters of cf_bpf.c and the two filter programs (dns_bpf.c, dhcp_bpf.c), proved to
    decide exactly the intended frames. */
module BpfFilters {
  import opened Bytes
  import opened Bpf
  import opened Modular

  const ETH_P_IP := 0x0800
  const ETH_P_IPV6 := 0x86DD
  const ETH_P_8021Q := 0x8100
  const IPPROTO_TCP := 6
  const IPPROTO_UDP := 17
  const ACCEPT_ALL := 0xFFFF_FFFF
  const DNS_PORT := 53

  // ---------------------------------------------------------------- what the filters are for

  predicate PortAt(pkt: seq<byte>, off: nat, ports: (u16, u16)) {
    off + 2 <= |pkt| && (Be16(pkt, off) == ports.0 || Be16(pkt, off) == ports.1)
  }

  /** The frame holds the source or destination port and it is one of the two. */
  predicate EitherPort(pkt: seq<byte>, l4: nat, ports: (u16, u16)) {
    PortAt(pkt, l4, ports) || PortAt(pkt, l4 + 2, ports)
  }

  /** Start of the transport header behind an IPv4 header at base. */
  function Ipv4L4(pkt: seq<byte>, base: nat): (l4: nat)
    requires base < |pkt|
  {
    base + 4 * (pkt[base] % 16)
  }

  predicate Ipv4Wanted(pkt: seq<byte>, base: nat, protos: set<byte>, ports: (u16, u16)) {
    && base + 10 <= |pkt|
    && pkt[base + 9] in protos
    && Be16(pkt, base + 6) % 0x2000 == 0                 // not a non-first fragment
    && EitherPort(pkt, Ipv4L4(pkt, base), ports)
  }

  predicate Ipv6Wanted(pkt: seq<byte>, base: nat, protos: set<byte>, ports: (u16, u16)) {
    && base + 7 <= |pkt|
    && pkt[base + 6] in protos
    && EitherPort(pkt, base + 40, ports)
  }

  /** The frame is IPv4 or IPv6, untagged or behind a single 802.1Q tag, and its packet is wanted. */
  predicate Wanted(pkt: seq<byte>, protos: set<byte>, ports4: (u16, u16), ports6: (u16, u16)) {
    && 14 <= |pkt|
    && var tagged := Be16(pkt, 12) == ETH_P_8021Q;
       && (tagged ==> 18 <= |pkt|)
       && var base := if tagged then 18 else 14;
          var ethertype := Be16(pkt, base - 2);
          || (ethertype == ETH_P_IP && Ipv4Wanted(pkt, base, protos, ports4))
          || (ethertype == ETH_P_IPV6 && Ipv6Wanted(pkt, base, protos, ports6))
  }

  predicate DnsWanted(pkt: seq<byte>) {
    Wanted(pkt, {IPPROTO_UDP, IPPROTO_TCP}, (DNS_PORT, DNS_PORT), (DNS_PORT, DNS_PORT))
  }

  predicate DhcpWanted(pkt: seq<byte>) {
    Wanted(pkt, {IPPROTO_UDP}, (67, 68), (546, 547))
  }

  function Verdict(accept: bool): (o: Outcome) {
    Returned(if accept then ACCEPT_ALL else 0)
  }

  // ---------------------------------------------------------------- emitted code

  function Plain(code: Code, k: u32): (s: LInsn) {
    LInsn(code, k, FALLTHROUGH, FALLTHROUGH)
  }

  function TwoPorts(k: u32, ports: (u16, u16), accept: int, otherwise: int): (c: seq<LInsn>)
    ensures |c| == 3
  {
    [Plain(LdHInd, k), LInsn(Jeq, ports.0, accept, FALLTHROUGH), LInsn(Jeq, ports.1, accept, otherwise)]
  }

  function Ipv4Head(base: nat, proto: byte, mismatch: int): (c: seq<LInsn>)
    requires base < 0x100
    ensures |c| == 5
  {
    [Plain(LdBAbs, base + 9), LInsn(Jeq, proto, FALLTHROUGH, mismatch),
     Plain(LdHAbs, base + 6), LInsn(Jset, 0x1FFF, mismatch, FALLTHROUGH),
     Plain(LdxMsh, base)]
  }

  function Ipv6Head(base: nat, proto: byte, mismatch: int): (c: seq<LInsn>)
    requires base < 0x100
    ensures |c| == 3
  {
    [Plain(LdBAbs, base + 6), LInsn(Jeq, proto, FALLTHROUGH, mismatch), Plain(LdxImm, base + 40)]
  }

  function Ipv4Branch(base: nat, proto: byte, ports: (u16, u16), accept: int, mismatch: int): (c: seq<LInsn>)
    requires base < 0x100
    ensures |c| == 11
  {
    Ipv4Head(base, proto, mismatch)
    + (TwoPorts(base, ports, accept, FALLTHROUGH) + TwoPorts(base + 2, ports, accept, mismatch))
  }

  function Ipv6Branch(base: nat, proto: byte, ports: (u16, u16), accept: int, mismatch: int): (c: seq<LInsn>)
    requires base < 0x100
    ensures |c| == 9
  {
    Ipv6Head(base, proto, mismatch)
    + (TwoPorts(0, ports, accept, FALLTHROUGH) + TwoPorts(2, ports, accept, mismatch))
  }

  // ---------------------------------------------------------------- meaning of the emitted code

  lemma MaskStep(a: nat, ones: nat)
    ensures BitAnd(a, 2 * ones + 1) == a % 2 + 2 * BitAnd(a / 2, ones)
  {
    assert (2 * ones + 1) / 2 == ones;
  }

  /** Masking with n low ones keeps the value modulo the matching power of two. */
  lemma {:induction false} MaskMod(a: nat, n: nat)
    ensures BitAnd(a, Pow2(n) - 1) == a % Pow2(n)
    decreases n
  {
    if n > 0 {
      MaskStep(a, Pow2(n - 1) - 1);
      MaskMod(a / 2, n - 1);
      HalveMod(a, Pow2(n - 1));
    }
  }

  lemma HalveMod(a: nat, m: nat)
    requires m > 0
    ensures a % 2 + 2 * ((a / 2) % m) == a % (2 * m)
  {
    var h := a / 2;
    var q, r := h / m, h % m;
    var s := 2 * r + a % 2;
    assert a == 2 * (m * q + r) + a % 2 == (2 * m) * q + s;
    ModUnique(a, 2 * m, q, s);
  }

  /** The fragment-offset mask keeps the low 13 bits. */
  lemma FragmentMask(a: nat)
    ensures BitAnd(a, 0x1FFF) == a % 0x2000
  {
    hide BitAnd;
    MaskMod(a, 13);
    assert Pow2(13) == 0x2000;
  }

  /** The instructions of prog from pos on are the resolved code, with every label in reach. */
  ghost predicate CodeAt(prog: seq<Insn>, labels: seq<int>, pos: nat, code: seq<LInsn>) {
    && pos + |code| <= |prog|
    && forall i :: 0 <= i < |code| ==>
         && prog[pos + i] == ResolveOne(labels, pos + i, code[i])
         && OperandOk(labels, pos + i, code[i].jt) && OperandOk(labels, pos + i, code[i].jf)
  }

  /** One instruction of the code, in terms of its labels. */
  lemma StepRuns(prog: seq<Insn>, labels: seq<int>, pos: nat, code: seq<LInsn>, i: nat, pkt: seq<byte>, a: nat, x: nat)
    requires CodeAt(prog, labels, pos, code) && i < |code|
    ensures var l := code[i];
            match Execute(l.code, l.k, pkt, a, x)
            case Next(a', x') => Run(prog, pkt, pos + i, a, x) == Run(prog, pkt, pos + i + 1, a', x')
            case Branch(taken) =>
              var t := Target(labels, pos + i, if taken then l.jt else l.jf);
              t > pos + i && Run(prog, pkt, pos + i, a, x) == Run(prog, pkt, t, a, x)
            case Done(v) => Run(prog, pkt, pos + i, a, x) == Returned(v)
  {
    assert prog[pos + i] == ResolveOne(labels, pos + i, code[i]);
  }

  lemma CodeSplit(prog: seq<Insn>, labels: seq<int>, pos: nat, c: seq<LInsn>, d: seq<LInsn>)
    requires CodeAt(prog, labels, pos, c + d)
    ensures CodeAt(prog, labels, pos, c) && CodeAt(prog, labels, pos + |c|, d)
  {
    assert forall i :: 0 <= i < |c| ==> c[i] == (c + d)[i];
    forall i | 0 <= i < |d|
      ensures prog[pos + |c| + i] == ResolveOne(labels, pos + |c| + i, d[i])
      ensures OperandOk(labels, pos + |c| + i, d[i].jt) && OperandOk(labels, pos + |c| + i, d[i].jf)
    {
      assert d[i] == (c + d)[|c| + i];
      assert prog[pos + (|c| + i)] == ResolveOne(labels, pos + (|c| + i), (c + d)[|c| + i]);
    }
  }

  /** Execution from pc with index register x returns o, whatever the accumulator holds. */
  ghost predicate Continues(prog: seq<Insn>, pkt: seq<byte>, pc: nat, x: nat, o: Outcome) {
    forall a: nat :: Run(prog, pkt, pc, a, x) == o
  }

  /** Execution from the label returns o, whatever the registers hold. */
  ghost predicate Leads(prog: seq<Insn>, labels: seq<int>, pkt: seq<byte>, lab: int, o: Outcome) {
    && 0 <= lab < |labels| && labels[lab] >= 0
    && forall a: nat, x: nat :: Run(prog, pkt, labels[lab], a, x) == o
  }

  function TwoPortsOutcome(pkt: seq<byte>, off: nat, ports: (u16, u16), yes: Outcome, no: Outcome): (o: Outcome) {
    if off + 2 > |pkt| then Returned(0) else if PortAt(pkt, off, ports) then yes else no
  }

  lemma {:induction false} TwoPortsRuns(prog: seq<Insn>, labels: seq<int>, pos: nat, k: nat, ports: (u16, u16), accept: int, otherwise: int,
                     pkt: seq<byte>, x: nat, yes: Outcome, no: Outcome)
    requires k < 0x100 && x < 0x200
    requires CodeAt(prog, labels, pos, TwoPorts(k, ports, accept, otherwise))
    requires accept != FALLTHROUGH && Leads(prog, labels, pkt, accept, yes)
    requires if otherwise == FALLTHROUGH then Continues(prog, pkt, pos + 3, x, no) else Leads(prog, labels, pkt, otherwise, no)
    ensures Continues(prog, pkt, pos, x, TwoPortsOutcome(pkt, x + k, ports, yes, no))
  {
    var code := TwoPorts(k, ports, accept, otherwise);
    assert prog[pos + 0] == ResolveOne(labels, pos + 0, code[0]);
    assert prog[pos + 1] == ResolveOne(labels, pos + 1, code[1]) && OperandOk(labels, pos + 1, code[1].jt);
    assert prog[pos + 2] == ResolveOne(labels, pos + 2, code[2]) && OperandOk(labels, pos + 2, code[2].jt)
        && OperandOk(labels, pos + 2, code[2].jf);
    forall a: nat ensures Run(prog, pkt, pos, a, x) == TwoPortsOutcome(pkt, x + k, ports, yes, no) {
      if x + k + 2 <= |pkt| {
        var p := Be16(pkt, x + k);
        assert Run(prog, pkt, pos, a, x) == Run(prog, pkt, pos + 1, p, x);
        if p == ports.0 {
          assert Run(prog, pkt, pos + 1, p, x) == Run(prog, pkt, labels[accept], p, x);
        } else {
          assert Run(prog, pkt, pos + 1, p, x) == Run(prog, pkt, pos + 2, p, x);
          if p == ports.1 {
            assert Run(prog, pkt, pos + 2, p, x) == Run(prog, pkt, labels[accept], p, x);
          } else if otherwise == FALLTHROUGH {
            assert Run(prog, pkt, pos + 2, p, x) == Run(prog, pkt, pos + 3, p, x);
          } else {
            assert Run(prog, pkt, pos + 2, p, x) == Run(prog, pkt, labels[otherwise], p, x);
          }
        }
      }
    }
  }

  /** Both port checks: source, then destination. */
  lemma {:induction false} PortChecksRun(prog: seq<Insn>, labels: seq<int>, pos: nat, k: nat, ports: (u16, u16), accept: int, mismatch: int,
                     pkt: seq<byte>, x: nat, yes: Outcome, no: Outcome)
    requires k + 2 < 0x100 && x < 0x200 && accept != FALLTHROUGH && mismatch != FALLTHROUGH
    requires CodeAt(prog, labels, pos, TwoPorts(k, ports, accept, FALLTHROUGH) + TwoPorts(k + 2, ports, accept, mismatch))
    requires Leads(prog, labels, pkt, accept, yes) && Leads(prog, labels, pkt, mismatch, no)
    ensures Continues(prog, pkt, pos, x, PortsOutcome(pkt, x + k, ports, yes, no))
  {
    CodeSplit(prog, labels, pos, TwoPorts(k, ports, accept, FALLTHROUGH), TwoPorts(k + 2, ports, accept, mismatch));
    TwoPortsRuns(prog, labels, pos + 3, k + 2, ports, accept, mismatch, pkt, x, yes, no);
    TwoPortsRuns(prog, labels, pos, k, ports, accept, FALLTHROUGH, pkt, x, yes, TwoPortsOutcome(pkt, x + k + 2, ports, yes, no));
  }

  function PortsOutcome(pkt: seq<byte>, l4: nat, ports: (u16, u16), yes: Outcome, no: Outcome): (o: Outcome) {
    TwoPortsOutcome(pkt, l4, ports, yes, TwoPortsOutcome(pkt, l4 + 2, ports, yes, no))
  }

  function Ipv4Outcome(pkt: seq<byte>, base: nat, proto: byte, ports: (u16, u16), yes: Outcome, no: Outcome): (o: Outcome) {
    if base + 9 >= |pkt| then Returned(0)
    else if pkt[base + 9] != proto || Be16(pkt, base + 6) % 0x2000 != 0 then no
    else PortsOutcome(pkt, Ipv4L4(pkt, base), ports, yes, no)
  }

  lemma {:induction false} Ipv4BranchRuns(prog: seq<Insn>, labels: seq<int>, pos: nat, base: nat, proto: byte, ports: (u16, u16),
                       accept: int, mismatch: int, pkt: seq<byte>, a: nat, x: nat, yes: Outcome, no: Outcome)
    requires base < 0x80 && accept != FALLTHROUGH && mismatch != FALLTHROUGH
    requires CodeAt(prog, labels, pos, Ipv4Branch(base, proto, ports, accept, mismatch))
    requires Leads(prog, labels, pkt, accept, yes) && Leads(prog, labels, pkt, mismatch, no)
    ensures Run(prog, pkt, pos, a, x) == Ipv4Outcome(pkt, base, proto, ports, yes, no)
  {
    hide Run;
    hide CodeAt;
    var head := Ipv4Head(base, proto, mismatch);
    var checks := TwoPorts(base, ports, accept, FALLTHROUGH) + TwoPorts(base + 2, ports, accept, mismatch);
    CodeSplit(prog, labels, pos, head, checks);
    StepRuns(prog, labels, pos, head, 0, pkt, a, x);
    if base + 9 < |pkt| {
      var p, frag, x' := pkt[base + 9], Be16(pkt, base + 6), 4 * (pkt[base] % 16);
      FragmentMask(frag);
      StepRuns(prog, labels, pos, head, 1, pkt, p, x);
      StepRuns(prog, labels, pos, head, 2, pkt, p, x);
      StepRuns(prog, labels, pos, head, 3, pkt, frag, x);
      StepRuns(prog, labels, pos, head, 4, pkt, frag, x);
      if p == proto && frag % 0x2000 == 0 {
        PortChecksRun(prog, labels, pos + 5, base, ports, accept, mismatch, pkt, x', yes, no);
        assert x' + base == Ipv4L4(pkt, base);
      }
    }
  }

  function Ipv6Outcome(pkt: seq<byte>, base: nat, proto: byte, ports: (u16, u16), yes: Outcome, no: Outcome): (o: Outcome) {
    if base + 6 >= |pkt| then Returned(0)
    else if pkt[base + 6] != proto then no
    else PortsOutcome(pkt, base + 40, ports, yes, no)
  }

  lemma {:induction false} Ipv6BranchRuns(prog: seq<Insn>, labels: seq<int>, pos: nat, base: nat, proto: byte, ports: (u16, u16),
                       accept: int, mismatch: int, pkt: seq<byte>, a: nat, x: nat, yes: Outcome, no: Outcome)
    requires base < 0x80 && accept != FALLTHROUGH && mismatch != FALLTHROUGH
    requires CodeAt(prog, labels, pos, Ipv6Branch(base, proto, ports, accept, mismatch))
    requires Leads(prog, labels, pkt, accept, yes) && Leads(prog, labels, pkt, mismatch, no)
    ensures Run(prog, pkt, pos, a, x) == Ipv6Outcome(pkt, base, proto, ports, yes, no)
  {
    var head := Ipv6Head(base, proto, mismatch);
    CodeSplit(prog, labels, pos, head, TwoPorts(0, ports, accept, FALLTHROUGH) + TwoPorts(2, ports, accept, mismatch));
    assert prog[pos + 0] == ResolveOne(labels, pos + 0, head[0]);
    assert prog[pos + 1] == ResolveOne(labels, pos + 1, head[1]) && OperandOk(labels, pos + 1, head[1].jf);
    assert prog[pos + 2] == ResolveOne(labels, pos + 2, head[2]);
    if base + 6 < |pkt| {
      var p := pkt[base + 6];
      assert Run(prog, pkt, pos, a, x) == Run(prog, pkt, pos + 1, p, x);
      if p != proto {
        assert Run(prog, pkt, pos + 1, p, x) == Run(prog, pkt, labels[mismatch], p, x);
      } else {
        assert Run(prog, pkt, pos + 1, p, x) == Run(prog, pkt, pos + 2, p, x) == Run(prog, pkt, pos + 3, p, base + 40);
        PortChecksRun(prog, labels, pos + 3, 0, ports, accept, mismatch, pkt, base + 40, yes, no);
      }
    }
  }

  // ---------------------------------------------------------------- the emitters

  ghost predicate Room(a: Assembler, insns: nat, fixups: nat)
    reads a
  {
    !a.error && a.n + insns <= MAX_INSNS && a.nFixups + fixups <= MAX_FIXUPS
  }

  /** bpf_asm_check_two_ports. */
  method CheckTwoPorts(a: Assembler, k: u32, ports: (u16, u16), accept: int, otherwise: int)
    requires a.Valid()
    modifies a`n, a`nFixups, a`error, a`src, a.insns, a.fixups
    ensures a.Valid() && (old(a.error) ==> a.error)
    ensures old(Room(a, 3, 3)) ==>
              && !a.error && a.src == old(a.src) + TwoPorts(k, ports, accept, otherwise)
              && a.n == old(a.n) + 3 && a.nFixups <= old(a.nFixups) + 3
    ensures old(Room(a, 3, 2)) && otherwise == FALLTHROUGH ==> !a.error && a.nFixups <= old(a.nFixups) + 2
  {
    hide Assembler.Valid;
    ghost var src := a.src;
    a.Stmt(LdHInd, k);
    a.Jump(Jeq, ports.0, accept, FALLTHROUGH);
    a.Jump(Jeq, ports.1, accept, otherwise);
  }

  /** bpf_asm_ipv4_udp_ports_branch and bpf_asm_ipv4_tcp_ports_branch, which differ in proto only. */
  method EmitIpv4Branch(a: Assembler, base: nat, proto: byte, ports: (u16, u16), accept: int, mismatch: int)
    requires a.Valid() && base < 0x80
    modifies a`n, a`nFixups, a`error, a`src, a.insns, a.fixups
    ensures a.Valid() && (old(a.error) ==> a.error)
    ensures old(Room(a, 11, 7)) ==>
              && !a.error && a.src == old(a.src) + Ipv4Branch(base, proto, ports, accept, mismatch)
              && a.n == old(a.n) + 11 && a.nFixups <= old(a.nFixups) + 7
  {
    hide Assembler.Valid;
    ghost var src := a.src;
    a.Stmt(LdBAbs, base + 9);
    a.Jump(Jeq, proto, FALLTHROUGH, mismatch);
    a.Stmt(LdHAbs, base + 6);
    a.Jump(Jset, 0x1FFF, mismatch, FALLTHROUGH);
    a.Stmt(LdxMsh, base);
    assert !a.error ==> a.src == src + Ipv4Head(base, proto, mismatch);
    CheckTwoPorts(a, base, ports, accept, FALLTHROUGH);
    CheckTwoPorts(a, base + 2, ports, accept, mismatch);
  }

  /** bpf_asm_ipv6_udp_ports_branch and bpf_asm_ipv6_tcp_ports_branch. */
  method EmitIpv6Branch(a: Assembler, base: nat, proto: byte, ports: (u16, u16), accept: int, mismatch: int)
    requires a.Valid() && base < 0x80
    modifies a`n, a`nFixups, a`error, a`src, a.insns, a.fixups
    ensures a.Valid() && (old(a.error) ==> a.error)
    ensures old(Room(a, 9, 6)) ==>
              && !a.error && a.src == old(a.src) + Ipv6Branch(base, proto, ports, accept, mismatch)
              && a.n == old(a.n) + 9 && a.nFixups <= old(a.nFixups) + 6
  {
    hide Assembler.Valid;
    ghost var src := a.src;
    a.Stmt(LdBAbs, base + 6);
    a.Jump(Jeq, proto, FALLTHROUGH, mismatch);
    a.Stmt(LdxImm, base + 40);
    assert !a.error ==> a.src == src + Ipv6Head(base, proto, mismatch);
    CheckTwoPorts(a, 0, ports, accept, FALLTHROUGH);
    CheckTwoPorts(a, 2, ports, accept, mismatch);
  }

  // ---------------------------------------------------------------- the EtherType dispatch

  /** The label ids a filter gives its dispatch targets. */
  datatype Dispatch = Dispatch(vlan: int, ip4: int, ip6: int, vlanIp4: int, vlanIp6: int, drop: int)

  function EtherHead(d: Dispatch): (c: seq<LInsn>)
    ensures |c| == 7
  {
    [Plain(LdHAbs, 12),
     LInsn(Jeq, ETH_P_8021Q, d.vlan, FALLTHROUGH),
     LInsn(Jeq, ETH_P_IP, d.ip4, FALLTHROUGH),
     LInsn(Jeq, ETH_P_IPV6, d.ip6, d.drop),
     Plain(LdHAbs, 16),
     LInsn(Jeq, ETH_P_IP, d.vlanIp4, FALLTHROUGH),
     LInsn(Jeq, ETH_P_IPV6, d.vlanIp6, d.drop)]
  }

  method EmitEtherHead(a: Assembler, d: Dispatch)
    requires a.Valid() && 0 <= d.vlan < MAX_LABELS
    modifies a, a.insns, a.fixups, a.labelPos
    ensures a.Valid() && (old(a.error) ==> a.error)
    ensures old(Room(a, 7, 7)) ==>
              && !a.error && a.src == old(a.src) + EtherHead(d)
              && a.n == old(a.n) + 7 && a.nFixups <= old(a.nFixups) + 7
              && a.labelPos[..] == old(a.labelPos[..])[d.vlan := old(a.n) + 4]
  {
    hide Assembler.Valid;
    ghost var src := a.src;
    a.Stmt(LdHAbs, 12);
    a.Jump(Jeq, ETH_P_8021Q, d.vlan, FALLTHROUGH);
    a.Jump(Jeq, ETH_P_IP, d.ip4, FALLTHROUGH);
    a.Jump(Jeq, ETH_P_IPV6, d.ip6, d.drop);
    a.Label(d.vlan);
    assert !a.error ==> a.src == src + EtherHead(d)[..4];
    a.Stmt(LdHAbs, 16);
    a.Jump(Jeq, ETH_P_IP, d.vlanIp4, FALLTHROUGH);
    a.Jump(Jeq, ETH_P_IPV6, d.vlanIp6, d.drop);
  }

  /** The verdict of the dispatch, given the verdicts of the four branches. */
  function EtherOutcome(pkt: seq<byte>, ip4: Outcome, ip6: Outcome, vlanIp4: Outcome, vlanIp6: Outcome): (o: Outcome) {
    if |pkt| < 14 then Returned(0)
    else if Be16(pkt, 12) == ETH_P_8021Q then
      if |pkt| < 18 then Returned(0)
      else if Be16(pkt, 16) == ETH_P_IP then vlanIp4
      else if Be16(pkt, 16) == ETH_P_IPV6 then vlanIp6
      else Returned(0)
    else if Be16(pkt, 12) == ETH_P_IP then ip4
    else if Be16(pkt, 12) == ETH_P_IPV6 then ip6
    else Returned(0)
  }

  /** The part of the dispatch behind an 802.1Q tag. */
  lemma {:induction false} TaggedRuns(prog: seq<Insn>, labels: seq<int>, d: Dispatch, pkt: seq<byte>, e: nat,
                                      vlanIp4: Outcome, vlanIp6: Outcome)
    requires CodeAt(prog, labels, 0, EtherHead(d))
    requires Leads(prog, labels, pkt, d.vlanIp4, vlanIp4) && Leads(prog, labels, pkt, d.vlanIp6, vlanIp6)
    requires Leads(prog, labels, pkt, d.drop, Returned(0))
    ensures Run(prog, pkt, 4, e, 0) == if |pkt| < 18 then Returned(0)
                                       else if Be16(pkt, 16) == ETH_P_IP then vlanIp4
                                       else if Be16(pkt, 16) == ETH_P_IPV6 then vlanIp6
                                       else Returned(0)
  {
    hide Run;
    hide CodeAt;
    var c := EtherHead(d);
    StepRuns(prog, labels, 0, c, 4, pkt, e, 0);
    if |pkt| >= 18 {
      var f := Be16(pkt, 16);
      StepRuns(prog, labels, 0, c, 5, pkt, f, 0);
      StepRuns(prog, labels, 0, c, 6, pkt, f, 0);
    }
  }

  lemma {:induction false} EtherHeadRuns(prog: seq<Insn>, labels: seq<int>, d: Dispatch, pkt: seq<byte>,
                                         ip4: Outcome, ip6: Outcome, vlanIp4: Outcome, vlanIp6: Outcome)
    requires CodeAt(prog, labels, 0, EtherHead(d))
    requires 0 <= d.vlan < |labels| && labels[d.vlan] == 4
    requires Leads(prog, labels, pkt, d.ip4, ip4) && Leads(prog, labels, pkt, d.ip6, ip6)
    requires Leads(prog, labels, pkt, d.vlanIp4, vlanIp4) && Leads(prog, labels, pkt, d.vlanIp6, vlanIp6)
    requires Leads(prog, labels, pkt, d.drop, Returned(0))
    ensures Run(prog, pkt, 0, 0, 0) == EtherOutcome(pkt, ip4, ip6, vlanIp4, vlanIp6)
  {
    hide Run;
    hide CodeAt;
    var c := EtherHead(d);
    StepRuns(prog, labels, 0, c, 0, pkt, 0, 0);
    if |pkt| >= 14 {
      var e := Be16(pkt, 12);
      StepRuns(prog, labels, 0, c, 1, pkt, e, 0);
      StepRuns(prog, labels, 0, c, 2, pkt, e, 0);
      StepRuns(prog, labels, 0, c, 3, pkt, e, 0);
      TaggedRuns(prog, labels, d, pkt, e, vlanIp4, vlanIp6);
    }
  }

  lemma RetLeads(prog: seq<Insn>, labels: seq<int>, pkt: seq<byte>, lab: int, v: u32)
    requires 0 <= lab < |labels| && labels[lab] >= 0 && CodeAt(prog, labels, labels[lab], [Plain(Ret, v)])
    ensures Leads(prog, labels, pkt, lab, Returned(v))
  {
    assert prog[labels[lab] + 0] == ResolveOne(labels, labels[lab] + 0, [Plain(Ret, v)][0]);
  }

  lemma {:induction false} Ipv4Leads(prog: seq<Insn>, labels: seq<int>, lab: int, base: nat, proto: byte, ports: (u16, u16),
                  accept: int, mismatch: int, pkt: seq<byte>, yes: Outcome, no: Outcome)
    requires base < 0x80 && 0 <= lab < |labels| && labels[lab] >= 0
    requires CodeAt(prog, labels, labels[lab], Ipv4Branch(base, proto, ports, accept, mismatch))
    requires Leads(prog, labels, pkt, accept, yes) && Leads(prog, labels, pkt, mismatch, no)
    ensures Leads(prog, labels, pkt, lab, Ipv4Outcome(pkt, base, proto, ports, yes, no))
  {
    forall a: nat, x: nat ensures Run(prog, pkt, labels[lab], a, x) == Ipv4Outcome(pkt, base, proto, ports, yes, no) {
      Ipv4BranchRuns(prog, labels, labels[lab], base, proto, ports, accept, mismatch, pkt, a, x, yes, no);
    }
  }

  lemma {:induction false} Ipv6Leads(prog: seq<Insn>, labels: seq<int>, lab: int, base: nat, proto: byte, ports: (u16, u16),
                  accept: int, mismatch: int, pkt: seq<byte>, yes: Outcome, no: Outcome)
    requires base < 0x80 && 0 <= lab < |labels| && labels[lab] >= 0
    requires CodeAt(prog, labels, labels[lab], Ipv6Branch(base, proto, ports, accept, mismatch))
    requires Leads(prog, labels, pkt, accept, yes) && Leads(prog, labels, pkt, mismatch, no)
    ensures Leads(prog, labels, pkt, lab, Ipv6Outcome(pkt, base, proto, ports, yes, no))
  {
    forall a: nat, x: nat ensures Run(prog, pkt, labels[lab], a, x) == Ipv6Outcome(pkt, base, proto, ports, yes, no) {
      Ipv6BranchRuns(prog, labels, labels[lab], base, proto, ports, accept, mismatch, pkt, a, x, yes, no);
    }
  }

  // ---------------------------------------------------------------- every label in reach

  ghost predicate PieceOk(labels: seq<int>, pos: nat, code: seq<LInsn>) {
    forall i :: 0 <= i < |code| ==> OperandOk(labels, pos + i, code[i].jt) && OperandOk(labels, pos + i, code[i].jf)
  }

  lemma PieceJoin(labels: seq<int>, pos: nat, c: seq<LInsn>, d: seq<LInsn>)
    requires PieceOk(labels, pos, c) && PieceOk(labels, pos + |c|, d)
    ensures PieceOk(labels, pos, c + d)
  {
    forall i | 0 <= i < |c + d|
      ensures OperandOk(labels, pos + i, (c + d)[i].jt) && OperandOk(labels, pos + i, (c + d)[i].jf)
    {
      if i >= |c| {
        assert (c + d)[i] == d[i - |c|];
        assert OperandOk(labels, pos + |c| + (i - |c|), d[i - |c|].jt);
      }
    }
  }

  lemma PieceCode(src: seq<LInsn>, labels: seq<int>)
    requires PieceOk(labels, 0, src)
    ensures Resolvable(src, labels) && CodeAt(Resolve(src, labels), labels, 0, src)
  {
    assert forall i :: 0 <= i < |src| ==> OperandOk(labels, 0 + i, src[i].jt) && OperandOk(labels, 0 + i, src[i].jf);
  }

  /** The label is placed behind the first `end` instructions and within reach of all of the code. */
  ghost predicate Ahead(labels: seq<int>, lab: int, end: nat) {
    lab != FALLTHROUGH && 0 <= lab < |labels| && end <= labels[lab] <= 100
  }

  lemma Ipv4PieceOk(labels: seq<int>, pos: nat, base: nat, proto: byte, ports: (u16, u16), accept: int, mismatch: int)
    requires base < 0x80 && Ahead(labels, accept, pos + 11) && Ahead(labels, mismatch, pos + 11)
    ensures PieceOk(labels, pos, Ipv4Branch(base, proto, ports, accept, mismatch))
  {
  }

  lemma Ipv6PieceOk(labels: seq<int>, pos: nat, base: nat, proto: byte, ports: (u16, u16), accept: int, mismatch: int)
    requires base < 0x80 && Ahead(labels, accept, pos + 9) && Ahead(labels, mismatch, pos + 9)
    ensures PieceOk(labels, pos, Ipv6Branch(base, proto, ports, accept, mismatch))
  {
  }

  /** The accepted predicate, branch by branch. */
  lemma Ipv4OutcomeIsWanted(pkt: seq<byte>, base: nat, ports: (u16, u16))
    ensures Ipv4Outcome(pkt, base, IPPROTO_UDP, ports, Verdict(true), Verdict(false))
            == Verdict(Ipv4Wanted(pkt, base, {IPPROTO_UDP}, ports))
    ensures Ipv4Outcome(pkt, base, IPPROTO_UDP, ports, Verdict(true),
                        Ipv4Outcome(pkt, base, IPPROTO_TCP, ports, Verdict(true), Verdict(false)))
            == Verdict(Ipv4Wanted(pkt, base, {IPPROTO_UDP, IPPROTO_TCP}, ports))
  {
  }

  lemma Ipv6OutcomeIsWanted(pkt: seq<byte>, base: nat, ports: (u16, u16))
    ensures Ipv6Outcome(pkt, base, IPPROTO_UDP, ports, Verdict(true), Verdict(false))
            == Verdict(Ipv6Wanted(pkt, base, {IPPROTO_UDP}, ports))
    ensures Ipv6Outcome(pkt, base, IPPROTO_UDP, ports, Verdict(true),
                        Ipv6Outcome(pkt, base, IPPROTO_TCP, ports, Verdict(true), Verdict(false)))
            == Verdict(Ipv6Wanted(pkt, base, {IPPROTO_UDP, IPPROTO_TCP}, ports))
  {
  }
}
