/** The DNS stage: frame to message, leg classification (leg_classify.c), correlation key and
    dispatch to the pending table (dns_stage.c). */
module DnsStage {
  import opened Bytes
  import opened TxnKeys
  import opened PendingList
  import Correlation
  import Decap
  import FrameFormat
  import DnsName
  import DnsRdata
  import DnsMessage

  const SERVER_PORT := 53
  const TICK_EVERY := 64

  // ---------------------------------------------------------------- address sets

  /** An IPv4 address occupies the first four of the sixteen bytes. */
  type Ip = s: seq<byte> | |s| == 16 witness seq(16, _ => 0)

  function Width(version: byte): (n: nat)
    ensures n <= 16
  {
    if version == 4 then 4 else 16
  }

  predicate KnownVersion(version: byte) {
    version == 4 || version == 6
  }

  /** The address is one of those added: same family, same significant bytes. */
  predicate Member(added: seq<(byte, Ip)>, version: byte, ip: Ip) {
    && KnownVersion(version)
    && exists i :: 0 <= i < |added| && added[i].0 == version && added[i].1[..Width(version)] == ip[..Width(version)]
  }

  class AddrSet {
    var entries: seq<(byte, Ip)>
    ghost var added: seq<(byte, Ip)>   // every address passed to AddIp with a known version

    /** Entries keep the significant bytes and zero the rest. */
    ghost predicate Valid()
      reads this
    {
      && |entries| == |added|
      && forall i :: 0 <= i < |entries| ==>
           && entries[i].0 == added[i].0 && KnownVersion(added[i].0)
           && entries[i].1[..Width(added[i].0)] == added[i].1[..Width(added[i].0)]
    }

    constructor ()
      ensures Valid() && added == []
    {
      entries := [];
      added := [];
    }

    method AddIp(version: byte, ip: Ip)
      requires Valid()
      modifies this
      ensures Valid() && added == if KnownVersion(version) then old(added) + [(version, ip)] else old(added)
    {
      if version != 4 && version != 6 {
        return;
      }
      var w := Width(version);
      entries := entries + [(version, ip[..w] + seq(16 - w, _ => 0))];
      added := added + [(version, ip)];
    }

    method Contains(version: byte, ip: Ip) returns (r: bool)
      requires Valid()
      ensures r == Member(added, version, ip)
    {
      if version != 4 && version != 6 {
        return false;
      }
      var w := Width(version);
      for i := 0 to |entries|
        invariant forall j :: 0 <= j < i ==> !(added[j].0 == version && added[j].1[..w] == ip[..w])
      {
        if entries[i].0 == version && entries[i].1[..w] == ip[..w] {
          return true;
        }
      }
      return false;
    }
  }

  // ---------------------------------------------------------------- leg classification

  datatype Role = Unknown | ClientFacing | Backend | RecursionUpstream

  datatype Leg = Leg(role: Role, localIsServer: bool)

  /** The normalized view of a decapsulated DNS frame. */
  datatype View = View(transport: byte, ipVersion: byte, srcIp: Ip, dstIp: Ip, srcPort: u16, dstPort: u16)

  /** Membership of the server address decides the role. */
  function RoleOfServer(local: seq<(byte, Ip)>, backend: seq<(byte, Ip)>, version: byte, server: Ip): (l: Leg) {
    if Member(local, version, server) then Leg(ClientFacing, true)
    else if Member(backend, version, server) then Leg(Backend, false)
    else Leg(RecursionUpstream, false)
  }

  function ClassifyLeg(local: seq<(byte, Ip)>, backend: seq<(byte, Ip)>, v: View): (l: Leg) {
    if v.dstPort == SERVER_PORT && v.srcPort != SERVER_PORT then RoleOfServer(local, backend, v.ipVersion, v.dstIp)
    else if v.srcPort == SERVER_PORT && v.dstPort != SERVER_PORT then RoleOfServer(local, backend, v.ipVersion, v.srcIp)
    else Leg(Unknown, false)
  }

  method RunClassifyLeg(local: AddrSet, backend: AddrSet, v: View) returns (l: Leg)
    requires local.Valid() && backend.Valid()
    ensures l == ClassifyLeg(local.added, backend.added, v)
  {
    var server: Ip;
    if v.dstPort == SERVER_PORT && v.srcPort != SERVER_PORT {
      server := v.dstIp;
    } else if v.srcPort == SERVER_PORT && v.dstPort != SERVER_PORT {
      server := v.srcIp;
    } else {
      return Leg(Unknown, false);
    }
    var isLocal := local.Contains(v.ipVersion, server);
    if isLocal {
      return Leg(ClientFacing, true);
    }
    var isBackend := backend.Contains(v.ipVersion, server);
    l := Leg(if isBackend then Backend else RecursionUpstream, false);
  }

  /** The decision table: with exactly one port 53, the address behind that port is the server, and the
      local set is asked before the backend set; without, nothing is decided. */
  lemma LegTable(local: seq<(byte, Ip)>, backend: seq<(byte, Ip)>, v: View)
    ensures var l := ClassifyLeg(local, backend, v);
            if (v.dstPort == 53) == (v.srcPort == 53) then l == Leg(Unknown, false)
            else
              var server := if v.dstPort == 53 then v.dstIp else v.srcIp;
              && (l.role == ClientFacing <==> Member(local, v.ipVersion, server))
              && (l.role == Backend <==> !Member(local, v.ipVersion, server) && Member(backend, v.ipVersion, server))
              && (l.role == RecursionUpstream <==>
                    !Member(local, v.ipVersion, server) && !Member(backend, v.ipVersion, server))
              && (l.localIsServer <==> Member(local, v.ipVersion, server))
  {
  }

  // ---------------------------------------------------------------- frame to message

  datatype Frame = Usable(view: View, dns: seq<byte>) | Skipped | TcpPartial

  /** UDP first, then TCP when the frame is not UDP; the two-byte length prefix of DNS over TCP is
      stripped and a message that spans segments is not reassembled. */
  function DecodeFrame(frame: seq<byte>): (r: Frame) {
    match Decap.DecapUdp(frame)
    case Ok(u) =>
      Decap.PayloadInsideFrame(frame);
      Decap.AddressesAreFull(frame);
      Usable(View(0, u.walk.ipVersion, u.walk.srcIp, u.walk.dstIp, u.srcPort, u.dstPort), frame[u.payload..u.payload + u.payloadLen])
    case Err(e) =>
      if e != Decap.NotUdp then Skipped
      else match Decap.DecapTcp(frame)
        case Err(_) => Skipped
        case Ok(t) =>
          Decap.PayloadInsideFrame(frame);
          Decap.AddressesAreFull(frame);
          if t.payloadLen < 2 then Skipped
          else
            var declared := Be16(frame, t.payload);
            if declared > t.payloadLen - 2 then TcpPartial
            else Usable(View(1, t.walk.ipVersion, t.walk.srcIp, t.walk.dstIp, t.srcPort, t.dstPort),
                        frame[t.payload + 2..t.payload + 2 + declared])
  }

  /** The view of a written packet: who sent it to whom. */
  function ViewOf(transport: byte, p: FrameFormat.Packet, srcPort: u16, dstPort: u16): (v: View)
    requires FrameFormat.FitsPacket(p)
  {
    View(transport, if p.V4? then 4 else 6,
         if p.V4? then Decap.Address(p.h4.src) else p.h6.src, if p.V4? then Decap.Address(p.h4.dst) else p.h6.dst,
         srcPort, dstPort)
  }

  /** A written UDP frame is usable, with its payload as the message. */
  lemma WrittenUdpIsUsable(frame: seq<byte>, tags: seq<FrameFormat.Tag>, p: FrameFormat.Packet, u: FrameFormat.UdpHeader, dns: seq<byte>)
    requires FrameFormat.FitsPacket(p) && FrameFormat.Carries(frame, tags, p) && FrameFormat.Protocol(p) == 17
    requires |dns| + 8 < 0x1_0000
    requires FrameFormat.Has(frame, 14 + 4 * |tags| + |FrameFormat.PacketHeader(p)|, FrameFormat.UdpBytes(u, dns))
    ensures DecodeFrame(frame) == Usable(ViewOf(0, p, u.srcPort, u.dstPort), dns)
  {
    hide Decap.DecapUdp;
    hide Decap.DecapTcp;
    hide Decap.DecapWalk;
    hide Decap.Address;
    hide FrameFormat.Has;
    hide FrameFormat.PacketHeader;
    hide FrameFormat.UdpBytes;
    hide FrameFormat.Carries;
    FrameFormat.WrittenPacketWalks(frame, tags, p);
    FrameFormat.WrittenUdpDecaps(frame, tags, p, u, dns);
  }

  /** A written TCP segment is usable when it holds the length of the message and all of the message;
      whatever follows is left alone. */
  lemma WrittenTcpIsUsable(frame: seq<byte>, tags: seq<FrameFormat.Tag>, p: FrameFormat.Packet, t: FrameFormat.TcpHeader, dns: seq<byte>)
    requires FrameFormat.FitsPacket(p) && FrameFormat.Carries(frame, tags, p) && FrameFormat.Protocol(p) == 6 && FrameFormat.FitsTcp(t)
    requires |dns| < 0x1_0000
    requires var off := 14 + 4 * |tags| + |FrameFormat.PacketHeader(p)|;
             && FrameFormat.Has(frame, off, FrameFormat.TcpBytes(t))
             && FrameFormat.Has(frame, off + 20 + |t.options|, Two(|dns|) + dns)
             && |FrameFormat.PacketHeader(p)| + 22 + |t.options| + |dns| <= FrameFormat.Claimed(p)
    ensures DecodeFrame(frame) == Usable(ViewOf(1, p, t.srcPort, t.dstPort), dns)
  {
    hide Decap.DecapTcp;
    hide Decap.DecapWalk;
    hide Decap.Address;
    hide FrameFormat.Has;
    hide FrameFormat.PacketHeader;
    hide FrameFormat.TcpBytes;
    hide FrameFormat.Carries;
    hide Two;
    hide Be16;
    FrameFormat.WrittenPacketWalks(frame, tags, p);
    FrameFormat.WrittenTcpDecaps(frame, tags, p, t);
    var start := 14 + 4 * |tags| + |FrameFormat.PacketHeader(p)| + 20 + |t.options|;
    FrameFormat.HasBoth(frame, start, Two(|dns|), dns);
    FrameFormat.HasTwo(frame, start, |dns|);
    HasSlice(frame, start + 2, dns);
  }

  lemma HasSlice(s: seq<byte>, i: nat, part: seq<byte>)
    requires FrameFormat.Has(s, i, part)
    ensures i + |part| <= |s| && s[i..i + |part|] == part
  {
  }

  // ---------------------------------------------------------------- correlation key

  function KeyName(text: seq<byte>): (r: seq<byte>)
    ensures |r| <= QNAME_MAX
  {
    var n := CString(text);
    DnsName.Lower(if |n| > QNAME_MAX then n[..QNAME_MAX] else n)
  }

  function BuildKey(v: View, m: DnsMessage.Message, localIsServer: bool): (k: Key) {
    var serverIsSrc := v.dstPort != SERVER_PORT && v.srcPort == SERVER_PORT;
    var serverIp, clientIp := if serverIsSrc then v.srcIp else v.dstIp, if serverIsSrc then v.dstIp else v.srcIp;
    var serverPort, clientPort := if serverIsSrc then v.srcPort else v.dstPort, if serverIsSrc then v.dstPort else v.srcPort;
    var name := if m.questions == [] then [] else KeyName(m.questions[0].qname);
    RawKey(v.transport, if localIsServer then 1 else 0, v.ipVersion, clientIp, serverIp, clientPort, serverPort,
           m.header.id,
           if m.questions == [] then 0 else m.questions[0].qtype,
           if m.questions == [] then 0 else m.questions[0].qclass,
           name + seq(QNAME_MAX - |name|, _ => 0), |name|)
  }

  // ---------------------------------------------------------------- query and response meet

  /** The same flow seen in the other direction. */
  predicate Reversed(q: View, r: View) {
    && r.transport == q.transport && r.ipVersion == q.ipVersion
    && r.srcIp == q.dstIp && r.dstIp == q.srcIp && r.srcPort == q.dstPort && r.dstPort == q.srcPort
  }

  predicate OneServerPort(v: View) {
    (v.srcPort == SERVER_PORT) != (v.dstPort == SERVER_PORT)
  }

  /** Same transaction id and same first question; names are compared as decoded, in lower case. */
  predicate SameTransaction(a: DnsMessage.Message, b: DnsMessage.Message) {
    && a.header.id == b.header.id
    && a.questions != [] && b.questions != []
    && a.questions[0].qname == b.questions[0].qname
    && a.questions[0].qtype == b.questions[0].qtype && a.questions[0].qclass == b.questions[0].qclass
  }

  function KeyOf(local: seq<(byte, Ip)>, backend: seq<(byte, Ip)>, v: View, m: DnsMessage.Message): (k: Key) {
    BuildKey(v, m, ClassifyLeg(local, backend, v).localIsServer)
  }

  /** Both halves of a transaction get the same leg and the same key, byte for byte, whichever
      direction they travel. */
  lemma QueryAndResponseShareKey(local: seq<(byte, Ip)>, backend: seq<(byte, Ip)>, q: View, r: View,
                                 mq: DnsMessage.Message, mr: DnsMessage.Message)
    requires Reversed(q, r) && OneServerPort(q) && SameTransaction(mq, mr)
    ensures ClassifyLeg(local, backend, q) == ClassifyLeg(local, backend, r)
    ensures ClassifyLeg(local, backend, q).role != Unknown
    ensures KeyOf(local, backend, q, mq) == KeyOf(local, backend, r, mr)
  {
  }

  // ---------------------------------------------------------------- exactly which frames share a key

  /** Client and server endpoint as the key orients them. */
  datatype Ends = Ends(clientIp: Ip, clientPort: u16, serverIp: Ip, serverPort: u16)

  function Oriented(v: View): (e: Ends) {
    if v.dstPort != SERVER_PORT && v.srcPort == SERVER_PORT then Ends(v.dstIp, v.dstPort, v.srcIp, v.srcPort)
    else Ends(v.srcIp, v.srcPort, v.dstIp, v.dstPort)
  }

  /** The same flow in the same direction, or in the other one if exactly one end is the server port. */
  predicate OneFlow(a: View, b: View) {
    a == b || (OneServerPort(a) && Reversed(a, b))
  }

  lemma OneFlowIffOriented(a: View, b: View)
    ensures OneFlow(a, b) <==> a.transport == b.transport && a.ipVersion == b.ipVersion && Oriented(a) == Oriented(b)
  {
  }

  lemma LegFollowsFlow(local: seq<(byte, Ip)>, backend: seq<(byte, Ip)>, a: View, b: View)
    requires OneFlow(a, b)
    ensures ClassifyLeg(local, backend, a) == ClassifyLeg(local, backend, b)
  {
  }

  function FirstType(m: DnsMessage.Message): (t: u16) {
    if m.questions == [] then 0 else m.questions[0].qtype
  }

  function FirstClass(m: DnsMessage.Message): (c: u16) {
    if m.questions == [] then 0 else m.questions[0].qclass
  }

  function FirstName(m: DnsMessage.Message): (n: seq<byte>)
    ensures |n| <= QNAME_MAX
  {
    if m.questions == [] then [] else KeyName(m.questions[0].qname)
  }

  /** Two messages meet under one key exactly when they belong to one flow and agree on id, type, class
      and the name the key keeps. Without questions, a message counts as asking type 0, class 0 and the
      root name. */
  lemma KeysEqualIff(local: seq<(byte, Ip)>, backend: seq<(byte, Ip)>, va: View, vb: View, a: DnsMessage.Message, b: DnsMessage.Message)
    ensures KeyEqual(KeyOf(local, backend, va, a), KeyOf(local, backend, vb, b))
            <==> && OneFlow(va, vb) && a.header.id == b.header.id
                 && FirstType(a) == FirstType(b) && FirstClass(a) == FirstClass(b) && FirstName(a) == FirstName(b)
  {
    hide ClassifyLeg;
    hide KeyName;
    OneFlowIffOriented(va, vb);
    if OneFlow(va, vb) {
      LegFollowsFlow(local, backend, va, vb);
    }
    KeyHasName(local, backend, va, a);
    KeyHasName(local, backend, vb, b);
  }

  lemma KeyHasName(local: seq<(byte, Ip)>, backend: seq<(byte, Ip)>, v: View, m: DnsMessage.Message)
    ensures var k := KeyOf(local, backend, v, m); QnameLen(k) == |FirstName(m)| && k.qname[..QnameLen(k)] == FirstName(m)
  {
    hide KeyName;
    hide ClassifyLeg;
    var n := FirstName(m);
    assert (n + seq(QNAME_MAX - |n|, _ => 0))[..|n|] == n;
  }

  /** A query and its reversed response meet exactly when one of their ports is the server port, or the
      two frames have the same ends in both directions. */
  lemma ReversedKeysEqualIff(local: seq<(byte, Ip)>, backend: seq<(byte, Ip)>, q: View, r: View,
                             mq: DnsMessage.Message, mr: DnsMessage.Message)
    requires Reversed(q, r) && SameTransaction(mq, mr)
    ensures KeyEqual(KeyOf(local, backend, q, mq), KeyOf(local, backend, r, mr)) <==> OneServerPort(q) || q == r
  {
    KeysEqualIff(local, backend, q, r, mq, mr);
  }

  /** Neither port is the server port: the two halves of one transaction get different keys, unless both
      ends are the same. */
  lemma OffPortHalvesDoNotMeet(local: seq<(byte, Ip)>, backend: seq<(byte, Ip)>, q: View, r: View,
                               mq: DnsMessage.Message, mr: DnsMessage.Message)
    requires Reversed(q, r) && SameTransaction(mq, mr) && q.srcPort != SERVER_PORT && q.dstPort != SERVER_PORT
    ensures KeyEqual(KeyOf(local, backend, q, mq), KeyOf(local, backend, r, mr))
            <==> q.srcIp == q.dstIp && q.srcPort == q.dstPort
  {
    ReversedKeysEqualIff(local, backend, q, r, mq, mr);
  }

  lemma {:induction false} LowerTwice(s: seq<byte>)
    ensures DnsName.Lower(DnsName.Lower(s)) == DnsName.Lower(s)
  {
  }

  lemma {:induction false} TextIsLower(labels: seq<DnsName.Label>)
    ensures DnsName.Lower(DnsName.Text(true, labels)) == DnsName.Text(true, labels)
  {
    if labels != [] {
      var n := |labels| - 1;
      LowerTwice(labels[n]);
      if n > 0 {
        TextIsLower(labels[..n]);
      }
    }
  }

  lemma {:induction false} CStringOfPrefix(s: seq<byte>)
    ensures CString(CString(s)) == CString(s)
  {
    if s != [] && s[0] != 0 {
      CStringOfPrefix(s[1..]);
      assert CString(s)[1..] == CString(s[1..]);
    }
  }

  /** The name the key keeps of a name on the wire: its lower-case dotted form up to the first NUL. */
  lemma {:induction false} KeyNameOfLabels(labels: seq<DnsName.Label>)
    requires DnsName.Octets(labels) <= DnsName.MAX_NAME_OCTETS
    ensures KeyName(DnsMessage.NameField(labels)) == DnsMessage.NameField(labels)
  {
    var t := DnsName.Text(true, labels);
    var n := CString(t);
    CStringOfPrefix(t);
    DnsName.TextLength(true, labels);
    TextIsLower(labels);
    assert n == t[..|n|] && DnsName.Lower(n) == n by {
      forall i | 0 <= i < |n| ensures DnsName.LowerByte(n[i]) == n[i] {
        assert DnsName.Lower(t)[i] == DnsName.LowerByte(t[i]);
      }
    }
  }

  /** On the wire: two messages that ask questions get equal keys exactly when they belong to one flow,
      their ids, types and classes agree, and their dotted names, in lower case, agree up to the first NUL. */
  lemma {:induction false} WireKeysEqualIff(local: seq<(byte, Ip)>, backend: seq<(byte, Ip)>, va: View, vb: View,
                                            a: seq<byte>, b: seq<byte>, qa: DnsMessage.QuestionSpec, qb: DnsMessage.QuestionSpec,
                                            ea: nat, eb: nat)
    requires |a| >= 12 && |b| >= 12 && Be16(a, 4) >= 1 && Be16(b, 4) >= 1
    requires DnsMessage.QuestionAt(a, 12, qa, ea) && DnsMessage.QuestionAt(b, 12, qb, eb)
    ensures DnsMessage.ParseMessage(a).Some? && DnsMessage.ParseMessage(b).Some?
    ensures var ma, mb := DnsMessage.ParseMessage(a).value.0, DnsMessage.ParseMessage(b).value.0;
            KeyEqual(KeyOf(local, backend, va, ma), KeyOf(local, backend, vb, mb))
            <==> && OneFlow(va, vb) && Be16(a, 0) == Be16(b, 0) && qa.qtype == qb.qtype && qa.qclass == qb.qclass
                 && DnsMessage.NameField(qa.labels) == DnsMessage.NameField(qb.labels)
  {
    hide KeyEqual;
    hide KeyOf;
    hide KeyName;
    hide DnsMessage.ParseMessage;
    hide DnsMessage.QuestionAt;
    FirstQuestionRead(a, qa, ea);
    FirstQuestionRead(b, qb, eb);
    KeysEqualIff(local, backend, va, vb, DnsMessage.ParseMessage(a).value.0, DnsMessage.ParseMessage(b).value.0);
  }

  lemma {:induction false} FirstQuestionRead(msg: seq<byte>, q: DnsMessage.QuestionSpec, end: nat)
    requires |msg| >= 12 && Be16(msg, 4) >= 1 && DnsMessage.QuestionAt(msg, 12, q, end)
    ensures DnsMessage.ParseMessage(msg).Some?
    ensures var m := DnsMessage.ParseMessage(msg).value.0;
            && m.header.id == Be16(msg, 0) && FirstType(m) == q.qtype && FirstClass(m) == q.qclass
            && FirstName(m) == DnsMessage.NameField(q.labels)
  {
    hide KeyName;
    hide DnsMessage.ParseQuestion;
    hide DnsMessage.ParseSection;
    hide DnsMessage.ParseAdditional;
    hide DnsMessage.NameField;
    DnsMessage.QuestionReads(msg, 12, q, end);
    KeyNameOfLabels(q.labels);
  }

  /** Names without empty labels, NULs and dots are kept apart by all but their case. */
  lemma {:induction false} OrdinaryNamesApart(a: seq<DnsName.Label>, b: seq<DnsName.Label>)
    requires DnsName.Ordinary(a) && DnsName.Ordinary(b)
    ensures DnsMessage.NameField(a) == DnsMessage.NameField(b) <==> DnsName.SameUpToCase(a, b)
  {
    hide DnsName.Text;
    DnsName.NoNulInText(a);
    DnsName.NoNulInText(b);
    if DnsMessage.NameField(a) == DnsMessage.NameField(b) {
      DnsName.TextInjective(a, b);
    }
    if DnsName.SameUpToCase(a, b) {
      DnsName.CaseInsensitive(a, b);
    }
  }

  /** No byte of the name is a NUL or a dot. */
  predicate NoNulOrDot(labels: seq<DnsName.Label>) {
    forall i :: 0 <= i < |labels| ==> 0 !in labels[i] && DnsName.DOT !in labels[i]
  }

  /** On the wire, for names without NULs and dots: equal keys exactly for one flow, equal ids, types and
      classes, and the same labels up to ASCII case. */
  lemma {:induction false} OrdinaryKeysEqualIff(local: seq<(byte, Ip)>, backend: seq<(byte, Ip)>, va: View, vb: View,
                                                a: seq<byte>, b: seq<byte>, qa: DnsMessage.QuestionSpec, qb: DnsMessage.QuestionSpec,
                                                ea: nat, eb: nat)
    requires |a| >= 12 && |b| >= 12 && Be16(a, 4) >= 1 && Be16(b, 4) >= 1
    requires DnsMessage.QuestionAt(a, 12, qa, ea) && DnsMessage.QuestionAt(b, 12, qb, eb)
    requires NoNulOrDot(qa.labels) && NoNulOrDot(qb.labels)
    ensures DnsMessage.ParseMessage(a).Some? && DnsMessage.ParseMessage(b).Some?
    ensures var ma, mb := DnsMessage.ParseMessage(a).value.0, DnsMessage.ParseMessage(b).value.0;
            KeyEqual(KeyOf(local, backend, va, ma), KeyOf(local, backend, vb, mb))
            <==> && OneFlow(va, vb) && Be16(a, 0) == Be16(b, 0) && qa.qtype == qb.qtype && qa.qclass == qb.qclass
                 && DnsName.SameUpToCase(qa.labels, qb.labels)
  {
    hide KeyEqual;
    hide KeyOf;
    hide DnsMessage.ParseMessage;
    hide DnsMessage.NameField;
    hide DnsName.SameUpToCase;
    WireKeysEqualIff(local, backend, va, vb, a, b, qa, qb, ea, eb);
    QuestionLabelsAreFull(a, qa, ea);
    QuestionLabelsAreFull(b, qb, eb);
    OrdinaryNamesApart(qa.labels, qb.labels);
  }

  lemma {:induction false} QuestionLabelsAreFull(msg: seq<byte>, q: DnsMessage.QuestionSpec, end: nat)
    requires DnsMessage.QuestionAt(msg, 12, q, end) && NoNulOrDot(q.labels)
    ensures DnsName.Ordinary(q.labels)
  {
    var ptrs: nat :| DnsName.EncodedAt(msg, 12, q.labels, ptrs) && ptrs <= DnsName.MAX_POINTER_JUMPS;
    DnsName.EncodedLabelsAreFull(msg, 12, q.labels, ptrs);
  }

  const ASK_HEADER: seq<byte> := [0, 7, 1, 0, 0, 1, 0, 0, 0, 0, 0, 0]

  /** A query for the address of a name, without compression. */
  function Ask(labels: seq<DnsName.Label>): (msg: seq<byte>)
    requires DnsName.ValidLabels(labels)
  {
    ASK_HEADER + DnsName.LabelBytes(labels) + [0, 0, 1, 0, 1]
  }

  function AskSpec(labels: seq<DnsName.Label>): (q: DnsMessage.QuestionSpec)
    requires DnsName.ValidLabels(labels)
  {
    DnsMessage.QuestionSpec(labels, DnsName.LabelBytes(labels) + [0], 1, 1)
  }

  lemma {:induction false} AskHoldsName(labels: seq<DnsName.Label>)
    requires DnsName.ValidLabels(labels) && DnsName.Octets(labels) <= DnsName.MAX_NAME_OCTETS
    ensures |Ask(labels)| == 17 + DnsName.Octets(labels)
    ensures DnsRdata.NameAt(Ask(labels), 12, labels, 13 + DnsName.Octets(labels))
  {
    hide DnsName.EncodedAt;
    hide DnsName.LabelBytes;
    var n := DnsName.Octets(labels);
    var msg, short := Ask(labels), ASK_HEADER + DnsName.LabelBytes(labels) + [0];
    assert msg == short + [0, 1, 0, 1];
    DnsName.AppendUncompressed(ASK_HEADER, labels);
    DnsName.EncodedAtExtends(short, [0, 1, 0, 1], 12, labels, 0);
    DnsName.LabelsAppended(ASK_HEADER, labels, [0, 0, 1, 0, 1]);
    assert msg[12 + n] == 0;
    DnsName.AdvanceThroughLabels(msg, 12, labels, 0, 1);
    assert DnsName.Held(msg, 12, labels);
  }

  lemma {:induction false} AskAsks(labels: seq<DnsName.Label>)
    requires DnsName.ValidLabels(labels) && DnsName.Octets(labels) <= DnsName.MAX_NAME_OCTETS
    ensures |Ask(labels)| == 17 + DnsName.Octets(labels) && Be16(Ask(labels), 0) == 7 && Be16(Ask(labels), 4) == 1
    ensures DnsMessage.QuestionAt(Ask(labels), 12, AskSpec(labels), 17 + DnsName.Octets(labels))
  {
    hide DnsName.LabelBytes;
    hide DnsRdata.NameAt;
    var n := DnsName.Octets(labels);
    var msg := Ask(labels);
    AskHoldsName(labels);
    assert msg == ASK_HEADER + (DnsName.LabelBytes(labels) + [0]) + [0, 1, 0, 1];
    assert msg[12..13 + n] == DnsName.LabelBytes(labels) + [0];
    assert msg[13 + n..17 + n] == [0, 1, 0, 1] == Two(1) + Two(1);
  }

  /** Different names under one key, whatever the flow: two that agree up to a NUL, and two that differ
      only in where a label ends, since a dot inside a label looks like the end of one. */
  lemma {:induction false} DifferentNamesOneKey(local: seq<(byte, Ip)>, backend: seq<(byte, Ip)>, v: View,
                                                a: seq<DnsName.Label>, b: seq<DnsName.Label>)
    requires (a == [[97, 0, 98]] && b == [[97, 0, 99]]) || (a == [[97, 46, 98]] && b == [[97], [98]])
    ensures a != b && DnsMessage.ParseMessage(Ask(a)).Some? && DnsMessage.ParseMessage(Ask(b)).Some?
    ensures KeyEqual(KeyOf(local, backend, v, DnsMessage.ParseMessage(Ask(a)).value.0),
                     KeyOf(local, backend, v, DnsMessage.ParseMessage(Ask(b)).value.0))
  {
    hide DnsMessage.ParseMessage;
    hide DnsMessage.QuestionAt;
    hide KeyOf;
    hide KeyEqual;
    var n, m := DnsName.Octets(a), DnsName.Octets(b);
    assert DnsName.Octets(a[1..]) == 0 && |b| == 2 ==> DnsName.Octets(b[1..][1..]) == 0;
    AskAsks(a);
    AskAsks(b);
    SameNameField(a, b);
    WireKeysEqualIff(local, backend, v, v, Ask(a), Ask(b), AskSpec(a), AskSpec(b),
                     17 + n, 17 + m);
  }

  lemma SameNameField(a: seq<DnsName.Label>, b: seq<DnsName.Label>)
    requires (a == [[97, 0, 98]] && b == [[97, 0, 99]]) || (a == [[97, 46, 98]] && b == [[97], [98]])
    ensures DnsMessage.NameField(a) == DnsMessage.NameField(b)
  {
    if |b| == 1 {
      var s, t := DnsName.Text(true, a), DnsName.Text(true, b);
      assert s == [97, 0, 98] && t == [97, 0, 99];
      assert CString(s) == [97] + CString(s[1..]) && CString(t) == [97] + CString(t[1..]);
    } else {
      assert b[..1] == [[97]];
      assert DnsName.Text(true, b) == [97] + [46] + [98] == DnsName.Text(true, a);
    }
  }

  /** On the wire: two messages whose first questions hold names equal up to ASCII case, with the
      same id, type and class, are halves of the same transaction. */
  lemma {:induction false} CaseVariantsAreSameTransaction(a: seq<byte>, b: seq<byte>, qa: DnsMessage.QuestionSpec, qb: DnsMessage.QuestionSpec,
                                         ea: nat, eb: nat)
    requires |a| >= 12 && |b| >= 12 && Be16(a, 0) == Be16(b, 0) && Be16(a, 4) >= 1 && Be16(b, 4) >= 1
    requires DnsMessage.QuestionAt(a, 12, qa, ea) && DnsMessage.QuestionAt(b, 12, qb, eb)
    requires DnsName.SameUpToCase(qa.labels, qb.labels)
    requires qa.qtype == qb.qtype && qa.qclass == qb.qclass
    ensures DnsMessage.ParseMessage(a).Some? && DnsMessage.ParseMessage(b).Some?
    ensures SameTransaction(DnsMessage.ParseMessage(a).value.0, DnsMessage.ParseMessage(b).value.0)
  {
    hide DnsMessage.QuestionAt;
    hide DnsMessage.ParseQuestion;
    hide DnsMessage.ParseSection;
    hide DnsMessage.ParseAdditional;
    DnsMessage.QuestionReads(a, 12, qa, ea);
    DnsMessage.QuestionReads(b, 12, qb, eb);
    DnsName.CaseInsensitive(qa.labels, qb.labels);
  }

  /** As long as its query is pending, the response comes out OBSERVED with that query's context. */
  lemma ResponseMeetsItsQuery(local: seq<(byte, Ip)>, backend: seq<(byte, Ip)>, cfg: Config, m: Model, k: nat,
                              q: View, r: View, mq: DnsMessage.Message, mr: DnsMessage.Message, time: int, ctx: Ctx)
    requires Reversed(q, r) && OneServerPort(q) && SameTransaction(mq, mr)
    requires DistinctKeys(m.pending) && k < |m.pending| && m.pending[k].key == KeyOf(local, backend, q, mq)
    ensures var t := m.pending[k];
            var after := OnResponse(cfg, m, KeyOf(local, backend, r, mr), time, ctx);
            && after.trace == m.trace + [Observed(t.ctx, ctx, time - t.time, 0 <= time - t.time <= cfg.timeout, t.key)]
            && after.pending == RemoveAt(m.pending, k)
  {
    QueryAndResponseShareKey(local, backend, q, r, mq, mr);
    KeyEqualIsEquivalence(m.pending[k].key, m.pending[k].key, m.pending[k].key);
    ResponseMeetsPendingQuery(cfg, m, k, KeyOf(local, backend, r, mr), time, ctx);
  }

  /** A response that directly follows its query is matched to it exactly when the table took the
      query in, that is, unless the table was full of other queries under the drop-newest policy. */
  lemma ImmediateResponseObservedIffTaken(cfg: Config, m: Model, t: Txn, time: int, ctx: Ctx)
    requires Table(cfg, m) && 0 < cfg.capacity
    ensures var m1 := Expire(cfg, m, t.time, AMORTIZED_EVICT_MAX);
            var full := Find(m1.pending, t.key) == |m1.pending| == cfg.capacity;
            var after := OnResponse(cfg, OnQuery(cfg, m, t), t.key, time, ctx);
            && after.trace != []
            && (after.trace[|after.trace| - 1] == Observed(t.ctx, ctx, time - t.time, 0 <= time - t.time <= cfg.timeout, t.key)
                <==> cfg.dropOldest || !full)
  {
    hide KeyEqual;
    hide Expire;
    hide OnQuery;
    hide OnResponse;
    hide Find;
    QueryKeepsTable(cfg, m, t);
    var m2 := OnQuery(cfg, m, t);
    var m1 := Expire(cfg, m, t.time, AMORTIZED_EVICT_MAX);
    assert |m1.pending| <= cfg.capacity by { ExpireDropsPrefix(cfg, m, t.time, AMORTIZED_EVICT_MAX); }
    QueryOutcome(cfg, m, t);
    KeyEqualIsEquivalence(t.key, t.key, t.key);
    if cfg.dropOldest || !(Find(m1.pending, t.key) == |m1.pending| == cfg.capacity) {
      ResponseMeetsPendingQuery(cfg, m2, |m2.pending| - 1, t.key, time, ctx);
    } else {
      UnmatchedResponse(cfg, m2, t.key, time, ctx);
    }
  }

  /** The last thing a query does to the pending list. */
  lemma QueryOutcome(cfg: Config, m: Model, t: Txn)
    requires 0 < cfg.capacity
    ensures var m1, m2 := Expire(cfg, m, t.time, AMORTIZED_EVICT_MAX), OnQuery(cfg, m, t);
            if |m1.pending| <= cfg.capacity && (cfg.dropOldest || !(Find(m1.pending, t.key) == |m1.pending| == cfg.capacity))
            then m2.pending != [] && m2.pending[|m2.pending| - 1] == t
            else |m1.pending| <= cfg.capacity ==> m2.pending == m1.pending
  {
    hide KeyEqual;
    hide Expire;
  }

  lemma UnmatchedResponse(cfg: Config, m: Model, key: Key, time: int, ctx: Ctx)
    requires Find(m.pending, key) == |m.pending|
    ensures var r := OnResponse(cfg, m, key, time, ctx); r.trace == m.trace + [Unmatched(ctx, key)]
  {
  }

  // ---------------------------------------------------------------- the stage

  /** What reaches the stage: a captured frame, or an idle turn of its thread. */
  datatype Input = Packet(frame: seq<byte>, time: int, ctx: Ctx) | Idle(now: int)

  /** The message a frame holds, if the stage can read it. */
  ghost function MessageOf(frame: seq<byte>): (m: DnsMessage.Option<(View, DnsMessage.Message)>) {
    var f := DecodeFrame(frame);
    if !f.Usable? then DnsMessage.None
    else
      var parsed := DnsMessage.ParseMessage(f.dns);
      if parsed.None? then DnsMessage.None else DnsMessage.Some((f.view, parsed.value.0))
  }

  lemma MessageOfFrame(frame: seq<byte>)
    ensures var f := DecodeFrame(frame);
            && (MessageOf(frame).Some? <==> f.Usable? && DnsMessage.ParseMessage(f.dns).Some?)
            && (MessageOf(frame).Some? ==> MessageOf(frame).value == (f.view, DnsMessage.ParseMessage(f.dns).value.0))
  {
  }

  function TableOp(key: Key, qr: bool, time: int, ctx: Ctx): (op: Op) {
    if qr then Response(key, time, ctx) else Query(key, time, ctx)
  }

  /** The calls one input makes on the table, when `processed` messages came before it: one for the
      message, and a tick after every sixty-fourth. */
  ghost function OpsOf(local: seq<(byte, Ip)>, backend: seq<(byte, Ip)>, processed: nat, input: Input): (ops: seq<Op>)
    ensures |ops| <= 2 && (|ops| == 2 ==> ops[1].Tick?)
  {
    match input
    case Idle(now) => [Tick(now)]
    case Packet(frame, time, ctx) =>
      var m := MessageOf(frame);
      if m.None? then []
      else
        [TableOp(KeyOf(local, backend, m.value.0, m.value.1), m.value.1.header.qr, time, ctx)]
        + if (processed + 1) % TICK_EVERY == 0 then [Tick(time)] else []
  }

  /** A readable frame makes a call: a response's when the top bit of the third byte of its DNS payload is
      set, a query's otherwise, with the frame's own time and context. */
  lemma ResponseBitDecides(local: seq<(byte, Ip)>, backend: seq<(byte, Ip)>, processed: nat, frame: seq<byte>, time: int, ctx: Ctx)
    requires MessageOf(frame).Some?
    ensures |DecodeFrame(frame).dns| >= 12
    ensures var ops := OpsOf(local, backend, processed, Packet(frame, time, ctx));
            var key := KeyOf(local, backend, MessageOf(frame).value.0, MessageOf(frame).value.1);
            && ops != []
            && ops[0] == (if DecodeFrame(frame).dns[2] >= 128 then Response(key, time, ctx) else Query(key, time, ctx))
            && ops[1..] == if (processed + 1) % 64 == 0 then [Tick(time)] else []
  {
    hide KeyOf;
    hide DecodeFrame;
    hide DnsMessage.ParseQuestions;
    hide DnsMessage.ParseSection;
    hide DnsMessage.ParseAdditional;
    MessageOfFrame(frame);
  }

  ghost function Understood(inputs: seq<Input>): (n: nat) {
    if inputs == [] then 0
    else
      var last := inputs[|inputs| - 1];
      Understood(inputs[..|inputs| - 1]) + if last.Packet? && MessageOf(last.frame).Some? then 1 else 0
  }

  ghost function StageOps(local: seq<(byte, Ip)>, backend: seq<(byte, Ip)>, inputs: seq<Input>): (ops: seq<Op>) {
    if inputs == [] then []
    else
      var before := inputs[..|inputs| - 1];
      StageOps(local, backend, before) + OpsOf(local, backend, Understood(before), inputs[|inputs| - 1])
  }

  /** The contexts of the frames that held a query, or a response, in order of arrival. */
  ghost function Contexts(inputs: seq<Input>, qr: bool): (s: seq<Ctx>) {
    if inputs == [] then []
    else
      var last := inputs[|inputs| - 1];
      Contexts(inputs[..|inputs| - 1], qr)
      + if last.Packet? && MessageOf(last.frame).Some? && MessageOf(last.frame).value.1.header.qr == qr then [last.ctx] else []
  }

  function Steps(cfg: Config, m: Model, ops: seq<Op>): (r: Model)
    requires |ops| <= 2
  {
    if ops == [] then m
    else if |ops| == 1 then Step(cfg, m, ops[0])
    else Step(cfg, Step(cfg, m, ops[0]), ops[1])
  }

  lemma RunSteps(cfg: Config, ops: seq<Op>, more: seq<Op>)
    requires |more| <= 2
    ensures Run(cfg, ops + more) == Steps(cfg, Run(cfg, ops), more)
  {
    hide Step;
    if more == [] {
      assert ops + more == ops;
    } else if |more| == 1 {
      assert (ops + more)[..|ops|] == ops;
    } else {
      assert (ops + more)[..|ops| + 1] == ops + [more[0]];
      assert (ops + [more[0]])[..|ops|] == ops;
    }
  }

  lemma ContextsIn(ops: seq<Op>, more: seq<Op>)
    requires |more| <= 2 && (|more| == 2 ==> more[1].Tick?)
    ensures QueriesIn(ops + more) == QueriesIn(ops) + if more != [] && more[0].Query? then [more[0].ctx] else []
    ensures ResponsesIn(ops + more) == ResponsesIn(ops) + if more != [] && more[0].Response? then [more[0].ctx] else []
  {
    if more == [] {
      assert ops + more == ops;
    } else {
      assert (ops + [more[0]])[..|ops|] == ops;
      if |more| == 1 {
        assert ops + more == ops + [more[0]];
      } else {
        assert (ops + more)[..|ops| + 1] == ops + [more[0]];
      }
    }
  }

  /** The table is handed exactly the contexts of the queries and responses that could be read. */
  lemma {:induction false} StageHandsOver(local: seq<(byte, Ip)>, backend: seq<(byte, Ip)>, inputs: seq<Input>)
    ensures QueriesIn(StageOps(local, backend, inputs)) == Contexts(inputs, false)
    ensures ResponsesIn(StageOps(local, backend, inputs)) == Contexts(inputs, true)
  {
    hide KeyOf;
    hide MessageOf;
    if inputs != [] {
      var before := inputs[..|inputs| - 1];
      StageHandsOver(local, backend, before);
      ContextsIn(StageOps(local, backend, before), OpsOf(local, backend, Understood(before), inputs[|inputs| - 1]));
    }
  }

  /** Frame to frame: a query and the reversed response, whose names may differ in case and in how they
      are compressed, make the table a call with one and the same key. */
  lemma {:induction false} FramesMeet(local: seq<(byte, Ip)>, backend: seq<(byte, Ip)>, q: seq<byte>, r: seq<byte>,
                                      a: DnsMessage.QuestionSpec, b: DnsMessage.QuestionSpec, ea: nat, eb: nat)
    requires DecodeFrame(q).Usable? && DecodeFrame(r).Usable?
    requires Reversed(DecodeFrame(q).view, DecodeFrame(r).view) && OneServerPort(DecodeFrame(q).view)
    requires var x, y := DecodeFrame(q).dns, DecodeFrame(r).dns;
             && |x| >= 12 && |y| >= 12 && Be16(x, 0) == Be16(y, 0) && Be16(x, 4) >= 1 && Be16(y, 4) >= 1
             && DnsMessage.QuestionAt(x, 12, a, ea) && DnsMessage.QuestionAt(y, 12, b, eb)
    requires DnsName.SameUpToCase(a.labels, b.labels) && a.qtype == b.qtype && a.qclass == b.qclass
    ensures MessageOf(q).Some? && MessageOf(r).Some?
    ensures KeyOf(local, backend, MessageOf(q).value.0, MessageOf(q).value.1)
            == KeyOf(local, backend, MessageOf(r).value.0, MessageOf(r).value.1)
  {
    hide DecodeFrame;
    hide DnsMessage.ParseMessage;
    hide DnsMessage.QuestionAt;
    hide KeyOf;
    var f, g := DecodeFrame(q), DecodeFrame(r);
    CaseVariantsAreSameTransaction(f.dns, g.dns, a, b, ea, eb);
    QueryAndResponseShareKey(local, backend, f.view, g.view, DnsMessage.ParseMessage(f.dns).value.0, DnsMessage.ParseMessage(g.dns).value.0);
    assert KeyOf(local, backend, f.view, DnsMessage.ParseMessage(f.dns).value.0)
           == KeyOf(local, backend, g.view, DnsMessage.ParseMessage(g.dns).value.0);
  }

  class Stage {
    const table: Correlation.Correlator
    const local: AddrSet
    const backend: AddrSet
    var processed: nat
    var skipped: nat
    var tcpPartial: nat
    var parseFailures: nat
    var queries: nat
    var responses: nat

    ghost predicate Valid()
      reads this, table, table.entries, table.buckets, local, backend
    {
      table.Valid() && local.Valid() && backend.Valid()
    }

    constructor (table: Correlation.Correlator, local: AddrSet, backend: AddrSet)
      requires table.Valid() && local.Valid() && backend.Valid()
      ensures Valid() && this.table == table && this.local == local && this.backend == backend
      ensures processed == skipped == tcpPartial == parseFailures == queries == responses == 0
    {
      this.table, this.local, this.backend := table, local, backend;
      processed, skipped, tcpPartial, parseFailures, queries, responses := 0, 0, 0, 0, 0, 0;
    }

    /** dns_stage_process_packet: 0 when the frame held a DNS message, 1 when it was counted away. */
    method ProcessPacket(frame: seq<byte>, time: int, ctx: Ctx) returns (rc: int)
      requires Valid()
      modifies this, table, table.entries, table.buckets
      ensures Valid()
      ensures rc == if MessageOf(frame).Some? then 0 else 1
      ensures table.Abs() == Steps(table.cfg, old(table.Abs()), OpsOf(local.added, backend.added, old(processed), Packet(frame, time, ctx)))
      ensures processed == old(processed) + 1 - rc
      ensures queries == old(queries) + (if rc == 0 && !MessageOf(frame).value.1.header.qr then 1 else 0)
      ensures responses == old(responses) + (if rc == 0 && MessageOf(frame).value.1.header.qr then 1 else 0)
      ensures skipped == old(skipped) + (if DecodeFrame(frame).Skipped? then 1 else 0)
      ensures tcpPartial == old(tcpPartial) + (if DecodeFrame(frame).TcpPartial? then 1 else 0)
      ensures parseFailures == old(parseFailures) + (if DecodeFrame(frame).Usable? && rc != 0 then 1 else 0)
    {
      hide DecodeFrame;
      hide DnsMessage.ParseMessage;
      hide BuildKey;
      hide ClassifyLeg;
      hide PendingList.Step;
      hide MessageOf;
      MessageOfFrame(frame);
      hide Correlation.Correlator.Valid;
      hide Correlation.Correlator.Abs;
      var f := DecodeFrame(frame);
      if f.Skipped? {
        skipped := skipped + 1;
        return 1;
      }
      if f.TcpPartial? {
        tcpPartial := tcpPartial + 1;
        return 1;
      }
      var parsed := DnsMessage.RunParse(f.dns);
      if parsed.None? {
        parseFailures := parseFailures + 1;
        return 1;
      }
      var msg := parsed.value.0;
      var leg := RunClassifyLeg(local, backend, f.view);
      var key := BuildKey(f.view, msg, leg.localIsServer);
      if msg.header.qr {
        responses := responses + 1;
        table.OnResponse(key, time, ctx);
      } else {
        queries := queries + 1;
        table.OnQuery(key, time, ctx);
      }
      processed := processed + 1;
      if processed % TICK_EVERY == 0 {
        table.Tick(time);
      }
      return 0;
    }

    /** dns_stage_tick */
    method IdleTick(now: int)
      requires Valid()
      modifies table, table.entries, table.buckets
      ensures Valid()
      ensures table.Abs() == Steps(table.cfg, old(table.Abs()), OpsOf(local.added, backend.added, processed, Idle(now)))
    {
      table.Tick(now);
    }
  }

  /** The stage's thread and its teardown: whatever comes in, the table sees the calls StageOps names,
      and every context of a query that could be read comes back through exactly one emission. */
  method RunStage(cfg: Config, local: AddrSet, backend: AddrSet, inputs: seq<Input>) returns (trace: seq<Emission>, queries: nat, responses: nat)
    requires 0 < cfg.capacity <= Correlation.INT32_MAX && cfg.timeout > 0 && local.Valid() && backend.Valid()
    ensures trace == Drain(Run(cfg, StageOps(local.added, backend.added, inputs))).trace
    ensures multiset(QueriesOut(trace)) == multiset(Contexts(inputs, false)) && ResponsesOut(trace) == Contexts(inputs, true)
    ensures queries == |Contexts(inputs, false)| && responses == |Contexts(inputs, true)|
  {
    hide OpsOf;
    hide Run;
    hide Step;
    hide Steps;
    hide Drain;
    hide QueriesIn;
    hide ResponsesIn;
    hide QueriesOut;
    hide ResponsesOut;
    hide DecodeFrame;
    hide ClassifyLeg;
    hide BuildKey;
    hide MessageOf;
    hide Correlation.Correlator.Valid;
    hide Correlation.Correlator.Abs;
    var table := Correlation.Correlator.New(cfg);
    NoOps(cfg);
    var s := new Stage(table, local, backend);
    for i := 0 to |inputs|
      invariant fresh(s) && fresh(table) && fresh(table.entries) && fresh(table.buckets)
      invariant s.table == table && s.local == local && s.backend == backend && s.Valid() && table.cfg == cfg
      invariant s.processed == Understood(inputs[..i])
      invariant s.queries == |Contexts(inputs[..i], false)| && s.responses == |Contexts(inputs[..i], true)|
      invariant table.Abs() == Run(cfg, StageOps(local.added, backend.added, inputs[..i]))
    {
      assert inputs[..i + 1][..i] == inputs[..i];
      RunSteps(cfg, StageOps(local.added, backend.added, inputs[..i]), OpsOf(local.added, backend.added, s.processed, inputs[i]));
      match inputs[i] {
        case Packet(frame, time, ctx) => var _ := s.ProcessPacket(frame, time, ctx);
        case Idle(now) => s.IdleTick(now);
      }
    }
    assert inputs[..|inputs|] == inputs;
    queries, responses := s.queries, s.responses;
    table.Free();
    table.TraceIsAbs();
    trace := table.trace;
    EveryQueryEmittedExactlyOnce(cfg, StageOps(local.added, backend.added, inputs));
    StageHandsOver(local.added, backend.added, inputs);
  }

  lemma NoOps(cfg: Config)
    ensures Run(cfg, []) == INIT
  {
  }
}
