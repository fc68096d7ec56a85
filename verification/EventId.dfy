/** The event identity (cf_event_id.c): 32 hexadecimal digits of the SHA-256 of host, interface, time
    and frame, each behind its length. */
module EventId {
  import opened Bytes
  import opened Sha256

  /** A string pointer, which may be null. */
  datatype Text = Null | Text(bytes: seq<byte>)

  /** The fields of the event; the time is a 64-bit two's complement number. */
  type Time = t: int | -0x8000_0000_0000_0000 <= t < 0x8000_0000_0000_0000

  function BytesOf(t: Text): (s: seq<byte>) {
    if t.Null? then [] else t.bytes
  }

  /** One field: its length in four bytes, which keep only the low 32 bits, then its bytes. */
  function Field(data: seq<byte>): (s: seq<byte>) {
    BigEndian(|data|, 4) + data
  }

  function Unsigned(t: Time): (u: nat) {
    if t < 0 then t + TWO_64 else t
  }

  /** Everything hashed. */
  function Preimage(host: seq<byte>, iface: seq<byte>, time: Time, frame: seq<byte>): (s: seq<byte>) {
    Field(host) + (Field(iface) + (Field(BigEndian(Unsigned(time), 8)) + Field(frame)))
  }

  lemma FieldSplits(a: seq<byte>, b: seq<byte>, s: seq<byte>, t: seq<byte>)
    requires |a| < 0x1_0000_0000 && |b| < 0x1_0000_0000 && Field(a) + s == Field(b) + t
    ensures a == b && s == t
  {
    hide BigEndian;
    var u := Field(a) + s;
    assert u[..4] == BigEndian(|a|, 4) && u[..4] == BigEndian(|b|, 4);
    Power256Of8();
    BigEndianReadsBack(|a|, 4);
    BigEndianReadsBack(|b|, 4);
    assert a == u[4..4 + |a|] && b == u[4..4 + |b|];
    assert s == u[4 + |a|..] && t == u[4 + |b|..];
  }

  /** Different events are hashed from different byte strings, whatever the fields contain. The frame
      may be of any length; the two strings are under 2 to the 32 bytes. */
  lemma PreimageIsInjective(host1: seq<byte>, iface1: seq<byte>, time1: Time, frame1: seq<byte>,
                            host2: seq<byte>, iface2: seq<byte>, time2: Time, frame2: seq<byte>)
    requires |host1| < 0x1_0000_0000 && |host2| < 0x1_0000_0000
    requires |iface1| < 0x1_0000_0000 && |iface2| < 0x1_0000_0000
    requires Preimage(host1, iface1, time1, frame1) == Preimage(host2, iface2, time2, frame2)
    ensures host1 == host2 && iface1 == iface2 && time1 == time2 && frame1 == frame2
  {
    hide BigEndian;
    hide Field;
    var t1, t2 := BigEndian(Unsigned(time1), 8), BigEndian(Unsigned(time2), 8);
    FieldSplits(host1, host2, Field(iface1) + (Field(t1) + Field(frame1)), Field(iface2) + (Field(t2) + Field(frame2)));
    FieldSplits(iface1, iface2, Field(t1) + Field(frame1), Field(t2) + Field(frame2));
    FieldSplits(t1, t2, Field(frame1), Field(frame2));
    Power256Of8();
    BigEndianReadsBack(Unsigned(time1), 8);
    BigEndianReadsBack(Unsigned(time2), 8);
    LastField(frame1, frame2);
  }

  lemma LastField(a: seq<byte>, b: seq<byte>)
    requires Field(a) == Field(b)
    ensures a == b
  {
    hide BigEndian;
    assert a == Field(a)[4..] && b == Field(b)[4..];
  }

  /** What is hashed, in order: the host, the interface, the time and the frame, each behind its length. */
  lemma PreimageInOrder(host: seq<byte>, iface: seq<byte>, time: Time, frame: seq<byte>)
    requires |host| < 0x100 && |iface| < 0x100 && |frame| < 0x100
    ensures exists t: seq<byte> ::
              && |t| == 8 && FromBigEndian(t) == (if time < 0 then time + 0x1_0000_0000_0000_0000 else time)
              && Preimage(host, iface, time, frame)
                 == [0, 0, 0, |host|] + host + [0, 0, 0, |iface|] + iface + [0, 0, 0, 8] + t + [0, 0, 0, |frame|] + frame
  {
    hide BigEndian;
    var t := BigEndian(Unsigned(time), 8);
    FourBytes(|host|);
    FourBytes(|iface|);
    FourBytes(8);
    FourBytes(|frame|);
    Power256Of8();
    BigEndianReadsBack(Unsigned(time), 8);
    var f := [0, 0, 0, |frame|] + frame;
    assert Preimage(host, iface, time, frame)
           == ([0, 0, 0, |host|] + host) + (([0, 0, 0, |iface|] + iface) + (([0, 0, 0, 8] + t) + f));
    assert Preimage(host, iface, time, frame)
           == [0, 0, 0, |host|] + host + [0, 0, 0, |iface|] + iface + [0, 0, 0, 8] + t + [0, 0, 0, |frame|] + frame;
  }

  function Ones(n: nat): (s: seq<byte>)
    ensures |s| == n
  {
    seq(n, _ => 1)
  }

  lemma OnesField(n: nat)
    requires n == 0x101_0101 || n == 0x1_0101_0101
    ensures Field(Ones(n)) == Ones(n + 4)
  {
    hide BigEndian;
    hide Ones;
    FourBytes(n);
    OnesJoin(4, n);
    FourOnes();
  }

  lemma FourOnes()
    ensures Ones(4) == [1, 1, 1, 1]
  {
  }

  lemma WrappedField()
    ensures Field(Ones(0x1_0000_0000)) == [0, 0, 0, 0] + Ones(0x1_0000_0000)
  {
    hide BigEndian;
    FourBytes(0x1_0000_0000);
  }

  /** From 2^32 bytes on, the prefix wraps around and fields run together: two pairs of names, one with
      an empty host, are hashed alike. */
  lemma HugeNamesCollide(time: Time, frame: seq<byte>)
    ensures Preimage([], Ones(0x1_0101_0101), time, frame) == Preimage(Ones(0x1_0000_0000), Ones(0x101_0101), time, frame)
  {
    hide BigEndian;
    hide Ones;
    OnesField(0x1_0101_0101);
    WrappedField();
    OnesField(0x101_0101);
    EmptyField();
    OnesJoin(0x1_0000_0000, 0x101_0105);
    var z: seq<byte> := [0, 0, 0, 0];
    assert z + Ones(0x1_0101_0105) == z + Ones(0x1_0000_0000) + Ones(0x101_0105);
  }

  lemma EmptyField()
    ensures Field([]) == [0, 0, 0, 0]
  {
    FourBytes(0);
  }

  lemma OnesJoin(m: nat, n: nat)
    ensures Ones(m) + Ones(n) == Ones(m + n)
  {
  }

  // ---------------------------------------------------------------- hexadecimal digits

  const HEX_DIGITS := "0123456789abcdef"

  function Hex(s: seq<byte>): (t: string)
    ensures |t| == 2 * |s|
  {
    if s == [] then [] else Hex(s[..|s| - 1]) + [HEX_DIGITS[s[|s| - 1] / 0x10], HEX_DIGITS[s[|s| - 1] % 0x10]]
  }

  function DigitValue(c: char): (d: nat) {
    if '0' <= c <= '9' then c as int - '0' as int else if 'a' <= c <= 'f' then c as int - 'a' as int + 10 else 0
  }

  lemma DigitReadsBack(d: nat)
    requires d < 0x10
    ensures DigitValue(HEX_DIGITS[d]) == d
  {
  }

  function Unhex(t: string): (s: seq<nat>)
    requires |t| % 2 == 0
  {
    if t == [] then [] else Unhex(t[..|t| - 2]) + [0x10 * DigitValue(t[|t| - 2]) + DigitValue(t[|t| - 1])]
  }

  lemma UnhexTwoMore(t: string, c: char, d: char)
    requires |t| % 2 == 0
    ensures |t + [c, d]| % 2 == 0 && Unhex(t + [c, d]) == Unhex(t) + [0x10 * DigitValue(c) + DigitValue(d)]
  {
    assert (t + [c, d])[..|t|] == t;
  }

  /** The digits determine the bytes. */
  lemma {:induction false} HexReadsBack(s: seq<byte>)
    ensures Unhex(Hex(s)) == s
  {
    hide DigitValue;
    hide Unhex;
    if s == [] {
      NoDigits();
    } else {
      var init, last := s[..|s| - 1], s[|s| - 1];
      HexReadsBack(init);
      DigitReadsBack(last / 0x10);
      DigitReadsBack(last % 0x10);
      UnhexTwoMore(Hex(init), HEX_DIGITS[last / 0x10], HEX_DIGITS[last % 0x10]);
      assert s == init + [last];
    }
  }

  lemma NoDigits()
    ensures Unhex([]) == []
  {
  }

  // ---------------------------------------------------------------- the code

  /** cf_event_id_hash_field. */
  method HashField(ctx: Context, data: seq<byte>)
    requires ctx.Valid()
    modifies ctx`bufferLen, ctx`totalLen, ctx`message, ctx.buffer, ctx.state
    ensures ctx.Valid() && ctx.message == old(ctx.message) + Field(data)
  {
    hide BigEndian;
    hide Context.Valid;
    var lenBytes: seq<byte> := [|data| / 0x100_0000 % 0x100, |data| / 0x1_0000 % 0x100, |data| / 0x100 % 0x100, |data| % 0x100];
    FourBytes(|data|);
    ctx.Update(lenBytes);
    if |data| > 0 {
      ctx.Update(data);
    }
    assert old(ctx.message) + lenBytes + data == old(ctx.message) + (lenBytes + data);
  }

  lemma FourBytes(x: nat)
    ensures BigEndian(x, 4) == [x / 0x100_0000 % 0x100, x / 0x1_0000 % 0x100, x / 0x100 % 0x100, x % 0x100]
  {
    var q1 := x / 0x100;
    var q2 := q1 / 0x100;
    var q3 := q2 / 0x100;
    assert BigEndian(q3, 1) == [q3 % 0x100];
    assert BigEndian(q2, 2) == [q3 % 0x100, q2 % 0x100];
    assert BigEndian(q1, 3) == [q3 % 0x100, q2 % 0x100, q1 % 0x100];
  }

  /** cf_event_id, with the digits and the final NUL as the result. */
  method EventId(host: Text, iface: Text, time: Time, frame: seq<byte>) returns (out: string)
    ensures out == Hex(Digest(Preimage(BytesOf(host), BytesOf(iface), time, frame))[..16]) + ['\0']
  {
    hide Digest;
    hide Field;
    hide Hex;
    hide BigEndian;
    hide Context.Valid;
    var t := Unsigned(time);
    var timeBytes: seq<byte> := [];
    for i := 0 to 8
      invariant |timeBytes| == i && forall k :: 0 <= k < i ==> timeBytes[k] == BigEndian(t, 8)[k]
    {
      BigEndianAt(t, 8, 7 - i);
      timeBytes := timeBytes + [t / Power256(7 - i) % 0x100];
    }
    assert timeBytes == BigEndian(t, 8);
    var ctx := new Context();
    HashField(ctx, BytesOf(host));
    HashField(ctx, BytesOf(iface));
    HashField(ctx, timeBytes);
    HashField(ctx, frame);
    Associate(Field(BytesOf(host)), Field(BytesOf(iface)), Field(timeBytes), Field(frame));
    assert [] + Field(BytesOf(host)) == Field(BytesOf(host));
    var digest := ctx.Final();
    out := [];
    HexStarts(digest);
    for i := 0 to 16
      invariant out == Hex(digest[..i])
    {
      HexStep(digest, i);
      out := out + [HEX_DIGITS[digest[i] / 0x10], HEX_DIGITS[digest[i] % 0x10]];
    }
    out := out + ['\0'];
  }

  lemma Associate(a: seq<byte>, b: seq<byte>, c: seq<byte>, d: seq<byte>)
    ensures a + b + c + d == a + (b + (c + d))
  {
  }

  lemma HexStarts(s: seq<byte>)
    ensures Hex(s[..0]) == []
  {
  }

  lemma HexStep(s: seq<byte>, i: nat)
    requires i < |s|
    ensures Hex(s[..i + 1]) == Hex(s[..i]) + [HEX_DIGITS[s[i] / 0x10], HEX_DIGITS[s[i] % 0x10]]
  {
    assert s[..i + 1][..i] == s[..i];
  }
}
