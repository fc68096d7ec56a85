/** The correlation key of the pending table and its hash (correlation.h, correlation.c). */
module TxnKeys {
  import opened Bytes

  const QNAME_MAX := 256

  datatype RawKey = RawKey(
    transport: byte,
    localIsServer: byte,
    ipVersion: byte,
    clientIp: seq<byte>,
    serverIp: seq<byte>,
    clientPort: u16,
    serverPort: u16,
    dnsId: u16,
    qtype: u16,
    qclass: u16,
    qname: seq<byte>,   // fixed buffer; only the first qnameLen bytes are significant
    qnameLen: u16)

  ghost predicate FixedSizes(k: RawKey) {
    |k.clientIp| == 16 && |k.serverIp| == 16 && |k.qname| == QNAME_MAX
  }

  const ZERO_KEY := RawKey(0, 0, 0, seq(16, _ => 0), seq(16, _ => 0), 0, 0, 0, 0, 0, seq(QNAME_MAX, _ => 0), 0)

  type Key = k: RawKey | FixedSizes(k) ghost witness ZERO_KEY

  /** Number of significant name bytes, clamped to the buffer. */
  function QnameLen(k: Key): (n: nat) {
    if k.qnameLen > QNAME_MAX then QNAME_MAX else k.qnameLen
  }

  predicate KeyEqual(a: Key, b: Key) {
    var qa, qb := QnameLen(a), QnameLen(b);
    && a.transport == b.transport && a.localIsServer == b.localIsServer
    && a.ipVersion == b.ipVersion && a.clientPort == b.clientPort
    && a.serverPort == b.serverPort && a.dnsId == b.dnsId
    && a.qtype == b.qtype && a.qclass == b.qclass && qa == qb
    && a.clientIp == b.clientIp
    && a.serverIp == b.serverIp
    && a.qname[..qa] == b.qname[..qa]
  }

  /** Little-endian halves, the order in which the hash consumes a 16-bit field. */
  function Halves(w: u16): (s: seq<byte>) {
    [w % 0x100, w / 0x100]
  }

  function Ports(k: Key): (s: seq<byte>)
    ensures |s| == 10
  {
    Halves(k.clientPort) + Halves(k.serverPort) + Halves(k.dnsId) + Halves(k.qtype) + Halves(k.qclass)
  }

  /** Every byte the hash consumes, in order. */
  function Significant(k: Key): (s: seq<byte>)
    ensures |s| == 47 + QnameLen(k)
  {
    var n := QnameLen(k);
    [k.transport, k.localIsServer, k.ipVersion] + k.clientIp + k.serverIp + Ports(k)
    + k.qname[..n] + Halves(n)
  }

  /** FNV-1a step over 64-bit words. */
  function Fnv(h: bv64, s: seq<byte>): bv64
    decreases |s|
  {
    if s == [] then h else Fnv((h ^ (s[0] as bv64)) * 1099511628211, s[1..])
  }

  function KeyHash(k: Key): (h: nat) {
    Fnv(1469598103934665603, Significant(k)) as nat
  }

  lemma HalvesInjective(a: u16, b: u16)
    ensures Halves(a) == Halves(b) <==> a == b
  {
    if Halves(a) == Halves(b) {
      assert Halves(a)[0] == Halves(b)[0] && Halves(a)[1] == Halves(b)[1];
    }
  }

  /** The hash consumes exactly the fields key_equal compares: equal keys, and only they,
      feed it the same bytes. Hence a bucket search cannot miss an equal key. */
  lemma KeyEqualIffSignificant(a: Key, b: Key)
    ensures KeyEqual(a, b) <==> Significant(a) == Significant(b)
    ensures KeyEqual(a, b) ==> KeyHash(a) == KeyHash(b)
  {
    if Significant(a) == Significant(b) {
      var s, t := Significant(a), Significant(b);
      assert s[0] == t[0] && s[1] == t[1] && s[2] == t[2];
      assert s[3..19] == a.clientIp && t[3..19] == b.clientIp;
      assert s[19..35] == a.serverIp && t[19..35] == b.serverIp;
      assert s[35..45] == Ports(a) && t[35..45] == Ports(b);
      PortsInjective(a, b);
      assert QnameLen(a) == QnameLen(b);
      assert s[45..45 + QnameLen(a)] == a.qname[..QnameLen(a)];
      assert t[45..45 + QnameLen(b)] == b.qname[..QnameLen(b)];
    }
  }

  lemma PortsInjective(a: Key, b: Key)
    requires Ports(a) == Ports(b)
    ensures a.clientPort == b.clientPort && a.serverPort == b.serverPort && a.dnsId == b.dnsId
    ensures a.qtype == b.qtype && a.qclass == b.qclass
  {
    var s, t := Ports(a), Ports(b);
    assert s[0..2] == Halves(a.clientPort) && t[0..2] == Halves(b.clientPort);
    assert s[2..4] == Halves(a.serverPort) && t[2..4] == Halves(b.serverPort);
    assert s[4..6] == Halves(a.dnsId) && t[4..6] == Halves(b.dnsId);
    assert s[6..8] == Halves(a.qtype) && t[6..8] == Halves(b.qtype);
    assert s[8..10] == Halves(a.qclass) && t[8..10] == Halves(b.qclass);
    HalvesInjective(a.clientPort, b.clientPort);
    HalvesInjective(a.serverPort, b.serverPort);
    HalvesInjective(a.dnsId, b.dnsId);
    HalvesInjective(a.qtype, b.qtype);
    HalvesInjective(a.qclass, b.qclass);
  }

  lemma KeyEqualIsEquivalence(a: Key, b: Key, c: Key)
    ensures KeyEqual(a, a)
    ensures KeyEqual(a, b) <==> KeyEqual(b, a)
    ensures KeyEqual(a, b) && KeyEqual(b, c) ==> KeyEqual(a, c)
  {
  }
}
