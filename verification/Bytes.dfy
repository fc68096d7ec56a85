/** Machine integers of the C sources, as ranges of mathematical integers. */
module Bytes {
  type byte = b: int | 0 <= b < 0x100
  type u16 = w: int | 0 <= w < 0x1_0000
  type u32 = d: int | 0 <= d < 0x1_0000_0000

  /** Big-endian 16-bit read; the caller has checked the bounds. */
  function Be16(s: seq<byte>, i: nat): (w: u16)
    requires i + 2 <= |s|
  {
    s[i] as int * 0x100 + s[i + 1] as int
  }

  function Be32(s: seq<byte>, i: nat): (w: u32)
    requires i + 4 <= |s|
  {
    Be16(s, i) as int * 0x1_0000 + Be16(s, i + 2) as int
  }

  /** The bytes of a number, most significant first. */
  function Two(w: u16): (s: seq<byte>)
    ensures |s| == 2
  {
    [w / 0x100, w % 0x100]
  }

  function Four(w: u32): (s: seq<byte>)
    ensures |s| == 4
  {
    [w / 0x100_0000, w / 0x1_0000 % 0x100, w / 0x100 % 0x100, w % 0x100]
  }

  /** A number is read exactly where its bytes stand. */
  lemma ReadsTwo(s: seq<byte>, i: nat, w: u16)
    requires i + 2 <= |s|
    ensures Be16(s, i) == w <==> s[i..i + 2] == Two(w)
  {
    if s[i..i + 2] == Two(w) {
      assert s[i] == Two(w)[0] && s[i + 1] == Two(w)[1];
    }
    if Be16(s, i) == w {
      assert s[i..i + 2] == [s[i], s[i + 1]];
    }
  }

  lemma FourIsTwos(w: u32)
    ensures Four(w) == Two(w / 0x1_0000) + Two(w % 0x1_0000)
  {
    var a, b := w / 0x1_0000, w % 0x1_0000;
    var a1, a0, b1, b0 := a / 0x100, a % 0x100, b / 0x100, b % 0x100;
    assert w == 0x100_0000 * a1 + 0x1_0000 * a0 + 0x100 * b1 + b0;
    assert w / 0x100_0000 == a1 && w / 0x100 == 0x100 * a + b1;
  }

  lemma TwoHalves(a: u16, b: u16, w: u32)
    ensures a as int * 0x1_0000 + b as int == w <==> a == w / 0x1_0000 && b == w % 0x1_0000
  {
  }

  lemma ReadsFour(s: seq<byte>, i: nat, w: u32)
    requires i + 4 <= |s|
    ensures Be32(s, i) == w <==> s[i..i + 4] == Four(w)
  {
    hide Be16;
    hide Four;
    hide Two;
    var a: u16, b: u16 := w / 0x1_0000, w % 0x1_0000;
    ReadsTwo(s, i, a);
    ReadsTwo(s, i + 2, b);
    FourIsTwos(w);
    TwoHalves(Be16(s, i), Be16(s, i + 2), w);
    var t := s[i..i + 4];
    assert t == s[i..i + 2] + s[i + 2..i + 4];
    assert t[..2] == s[i..i + 2] && t[2..] == s[i + 2..i + 4];
    assert (Two(a) + Two(b))[..2] == Two(a) && (Two(a) + Two(b))[2..] == Two(b);
  }

  function Zeros(n: nat): (s: seq<byte>)
    ensures |s| == n
  {
    seq(n, _ => 0)
  }

  /** The bytes a C string function sees: everything before the first NUL. */
  function CString(s: seq<byte>): (r: seq<byte>)
    ensures r <= s && 0 !in r
    ensures r != s ==> |r| < |s| && s[|r|] == 0
  {
    if s == [] || s[0] == 0 then [] else [s[0]] + CString(s[1..])
  }
}
