/** CRC-16 and cluster slots (cf_redis_slot.c), against polynomial division over GF(2). */
module RedisSlot {
  import opened Bytes
  import opened Crc16Table
  import opened Modular

  const NUM_SLOTS := 16384

  /** x^16 + x^12 + x^5 + 1, and the same without its leading term. */
  const POLYNOMIAL := 0x1_1021
  const REDUCED := 0x1021

  // ---------------------------------------------------------------- exclusive or

  /** Bitwise exclusive or. */
  function Xor(a: nat, b: nat): (r: nat)
    decreases a + b
  {
    if a == 0 && b == 0 then 0 else 2 * Xor(a / 2, b / 2) + (a + b) % 2
  }

  lemma {:induction false} XorZero(a: nat)
    ensures Xor(a, 0) == a == Xor(0, a)
  {
    if a > 0 {
      XorZero(a / 2);
    }
  }

  lemma {:induction false} XorSelf(a: nat)
    ensures Xor(a, a) == 0
  {
    if a > 0 {
      XorSelf(a / 2);
    }
  }

  lemma {:induction false} XorCommutes(a: nat, b: nat)
    ensures Xor(a, b) == Xor(b, a)
    decreases a + b
  {
    if a + b > 0 {
      XorCommutes(a / 2, b / 2);
    }
  }

  lemma XorDigits(a: nat, b: nat)
    ensures Xor(a, b) == 2 * Xor(a / 2, b / 2) + (a + b) % 2
    ensures Xor(a, b) / 2 == Xor(a / 2, b / 2) && Xor(a, b) % 2 == (a + b) % 2
  {
  }

  lemma Parity(x: nat, y: nat, c: nat)
    requires x % 2 == y % 2
    ensures (x + c) % 2 == (y + c) % 2
  {
  }

  lemma {:induction false} XorAssociates(a: nat, b: nat, c: nat)
    ensures Xor(Xor(a, b), c) == Xor(a, Xor(b, c))
    decreases a + b + c, 1
  {
    if a + b + c == 0 {
      XorZero(0);
    } else {
      AssociatesAbove(a, b, c);
    }
  }

  lemma {:induction false} AssociatesAbove(a: nat, b: nat, c: nat)
    requires a + b + c > 0
    ensures Xor(Xor(a, b), c) == Xor(a, Xor(b, c))
    decreases a + b + c, 0
  {
    hide Xor;
    XorAssociates(a / 2, b / 2, c / 2);
    XorDigits(a, b);
    XorDigits(b, c);
    XorDigits(Xor(a, b), c);
    XorDigits(a, Xor(b, c));
    Parity(Xor(a, b), a + b, c);
    Parity(Xor(b, c), b + c, a);
  }

  lemma XorRegroups(a: nat, b: nat, c: nat, d: nat)
    ensures Xor(Xor(a, b), Xor(c, d)) == Xor(Xor(a, c), Xor(b, d))
  {
    hide Xor;
    XorAssociates(a, b, Xor(c, d));
    XorAssociates(b, c, d);
    XorCommutes(b, c);
    XorAssociates(c, b, d);
    XorAssociates(a, c, Xor(b, d));
  }

  lemma XorCancels(a: nat, b: nat)
    requires Xor(a, b) == 0
    ensures a == b
  {
    hide Xor;
    XorAssociates(a, b, b);
    XorSelf(b);
    XorZero(a);
    XorZero(b);
  }

  lemma XorDoubles(a: nat, b: nat)
    ensures Xor(2 * a, 2 * b) == 2 * Xor(a, b)
  {
    hide Xor;
    XorDigits(2 * a, 2 * b);
  }

  lemma {:induction false} XorShifts(a: nat, b: nat, k: nat)
    ensures Xor(Pow2(k) * a, Pow2(k) * b) == Pow2(k) * Xor(a, b)
  {
    hide Xor;
    if k > 0 {
      XorShifts(a, b, k - 1);
      XorDoubles(Pow2(k - 1) * a, Pow2(k - 1) * b);
      assert Pow2(k) * a == 2 * (Pow2(k - 1) * a) && Pow2(k) * b == 2 * (Pow2(k - 1) * b);
    }
  }

  /** Numbers without a common bit are added. */
  lemma {:induction false} XorJoins(h: nat, l: nat, k: nat)
    requires l < Pow2(k)
    ensures Xor(Pow2(k) * h, l) == Pow2(k) * h + l
  {
    hide Xor;
    if k == 0 {
      XorZero(h);
    } else {
      var p := Pow2(k - 1) * h;
      XorJoins(h, l / 2, k - 1);
      assert Pow2(k) * h == 2 * p;
      XorDigits(2 * p, l);
    }
  }

  lemma {:induction false} XorBelow(a: nat, b: nat, k: nat)
    requires a < Pow2(k) && b < Pow2(k)
    ensures Xor(a, b) < Pow2(k)
  {
    if k > 0 {
      XorBelow(a / 2, b / 2, k - 1);
    }
  }

  lemma Powers()
    ensures Pow2(5) == 32 && Pow2(8) == 0x100 && Pow2(12) == 0x1000 && Pow2(16) == 0x1_0000 && Pow2(17) == 0x2_0000
  {
    assert Pow2(4) == 16;
    assert Pow2(8) == 16 * Pow2(4);
    assert Pow2(12) == 16 * Pow2(8);
    assert Pow2(16) == 16 * Pow2(12);
  }

  // ---------------------------------------------------------------- division by the polynomial

  /** The polynomial times q, without carries. */
  function Multiple(q: nat): (p: nat) {
    if q == 0 then 0 else Xor(2 * Multiple(q / 2), if q % 2 == 1 then POLYNOMIAL else 0)
  }

  /** r is what is left of v, read as a polynomial with coefficients 0 and 1, after division. */
  ghost predicate IsRemainder(v: nat, r: nat) {
    r < 0x1_0000 && exists q :: Xor(Multiple(q), r) == v
  }

  lemma MultipleDoubles(q: nat)
    ensures Multiple(2 * q) == 2 * Multiple(q)
    ensures Multiple(2 * q + 1) == Xor(2 * Multiple(q), POLYNOMIAL)
  {
    hide Xor;
    hide Multiple;
    MultipleSplits(2 * q);
    MultipleSplits(2 * q + 1);
    XorZero(2 * Multiple(q));
  }

  lemma {:induction false} MultipleShifts(q: nat, k: nat)
    ensures Multiple(Pow2(k) * q) == Pow2(k) * Multiple(q)
  {
    hide Multiple;
    hide Xor;
    if k > 0 {
      MultipleShifts(q, k - 1);
      MultipleDoubles(Pow2(k - 1) * q);
      Regroup(Pow2(k - 1), q);
      Regroup(Pow2(k - 1), Multiple(q));
    }
  }

  lemma Regroup(p: nat, q: nat)
    ensures 2 * p * q == 2 * (p * q)
  {
  }

  lemma {:induction false} MultiplesAdd(a: nat, b: nat)
    ensures Xor(Multiple(a), Multiple(b)) == Multiple(Xor(a, b))
    decreases a + b
  {
    hide Xor;
    hide Multiple;
    if a + b == 0 {
      XorZero(0);
      NoMultiple();
    } else {
      MultiplesAdd(a / 2, b / 2);
      MultipleSplits(a);
      MultipleSplits(b);
      MultipleSplits(Xor(a, b));
      XorDigits(a, b);
      XorDoubles(Multiple(a / 2), Multiple(b / 2));
      var pa, pb := if a % 2 == 1 then POLYNOMIAL else 0, if b % 2 == 1 then POLYNOMIAL else 0;
      XorRegroups(2 * Multiple(a / 2), pa, 2 * Multiple(b / 2), pb);
      XorSelf(POLYNOMIAL);
      XorZero(POLYNOMIAL);
      XorZero(0);
    }
  }

  lemma NoMultiple()
    ensures Multiple(0) == 0
  {
  }

  lemma MultipleSplits(q: nat)
    ensures Multiple(q) == Xor(2 * Multiple(q / 2), if q % 2 == 1 then POLYNOMIAL else 0)
  {
    XorZero(0);
  }

  /** Every multiple but zero has degree 16 or more. */
  lemma {:induction false} MultipleIsLarge(q: nat)
    requires q > 0
    ensures Multiple(q) >= 0x1_0000
  {
    hide Xor;
    MultipleSplits(q);
    if q == 1 {
      NoMultiple();
      XorZero(POLYNOMIAL);
    } else {
      MultipleIsLarge(q / 2);
      LargeStays(Multiple(q / 2), if q % 2 == 1 then POLYNOMIAL else 0);
    }
  }

  lemma LargeStays(m: nat, p: nat)
    requires m >= 0x1_0000 && p < 0x2_0000
    ensures Xor(2 * m, p) >= 0x2_0000
  {
    hide Xor;
    if Xor(2 * m, p) < 0x2_0000 {
      Powers();
      XorBelow(Xor(2 * m, p), p, 17);
      XorAssociates(2 * m, p, p);
      XorSelf(p);
      XorZero(2 * m);
    }
  }

  /** Division has one remainder. */
  lemma RemainderIsUnique(v: nat, r: nat, s: nat)
    requires IsRemainder(v, r) && IsRemainder(v, s)
    ensures r == s
  {
    hide Xor;
    hide Multiple;
    var q :| Xor(Multiple(q), r) == v;
    var p :| Xor(Multiple(p), s) == v;
    XorRegroups(Multiple(q), r, Multiple(p), s);
    XorSelf(v);
    MultiplesAdd(q, p);
    XorCancels(Multiple(Xor(q, p)), Xor(r, s));
    Powers();
    XorBelow(r, s, 16);
    if Xor(q, p) > 0 {
      MultipleIsLarge(Xor(q, p));
    }
    NoMultiple();
    XorCancels(r, s);
  }

  lemma RemaindersAdd(v: nat, r: nat, w: nat, s: nat)
    requires IsRemainder(v, r) && IsRemainder(w, s)
    ensures IsRemainder(Xor(v, w), Xor(r, s))
  {
    hide Xor;
    hide Multiple;
    var q :| Xor(Multiple(q), r) == v;
    var p :| Xor(Multiple(p), s) == w;
    XorRegroups(Multiple(q), r, Multiple(p), s);
    MultiplesAdd(q, p);
    Powers();
    XorBelow(r, s, 16);
    assert Xor(Multiple(Xor(q, p)), Xor(r, s)) == Xor(v, w);
  }

  /** x^16 leaves the lower terms of the polynomial. */
  lemma LeadingTermReduces()
    ensures Xor(POLYNOMIAL, REDUCED) == 0x1_0000 && IsRemainder(0x1_0000, REDUCED)
  {
    hide Xor;
    Powers();
    XorJoins(1, REDUCED, 16);
    XorAssociates(0x1_0000, REDUCED, REDUCED);
    XorSelf(REDUCED);
    XorZero(0x1_0000);
    MultipleSplits(1);
    NoMultiple();
    XorZero(POLYNOMIAL);
    assert Xor(Multiple(1), REDUCED) == 0x1_0000;
  }

  // ---------------------------------------------------------------- the table

  function FlipBit(x: nat, p: nat): (r: nat)
    requires p > 0
  {
    if x / p % 2 == 1 && x >= p then x - p else x + p
  }

  lemma HalvesDivide(x: nat, p: nat)
    requires p > 0
    ensures x / 2 / p == x / (2 * p)
  {
    var q, r := x / 2 / p, x / 2 % p;
    assert x == 2 * (p * q + r) + x % 2 == 2 * p * q + (2 * r + x % 2);
    DivUnique(x, 2 * p, q, 2 * r + x % 2);
  }

  lemma FlipLast(x: nat)
    ensures FlipBit(x, 1) == 2 * (x / 2) + (x + 1) % 2
  {
  }

  lemma FlipAbove(x: nat, p: nat)
    requires p > 0
    ensures FlipBit(x, 2 * p) == 2 * FlipBit(x / 2, p) + x % 2
  {
    HalvesDivide(x, p);
  }

  lemma {:induction false} FlipIsXor(x: nat, k: nat)
    ensures Xor(x, Pow2(k)) == FlipBit(x, Pow2(k))
  {
    hide Xor;
    hide FlipBit;
    XorDigits(x, Pow2(k));
    if k == 0 {
      XorZero(x / 2);
      FlipLast(x);
    } else {
      FlipIsXor(x / 2, k - 1);
      FlipAbove(x, Pow2(k - 1));
    }
  }

  lemma BitOf(x: nat, p: nat)
    requires p > 0
    ensures x / p % 2 == 1 <==> x % (2 * p) >= p
  {
    var q, b, r := x / p / 2, x / p % 2, x % p;
    assert x == p * (2 * q + b) + r == 2 * p * q + (p * b + r);
    ModUnique(x, 2 * p, q, p * b + r);
  }

  lemma BitFive(x: nat)
    requires x % 2 == 0
    ensures FlipBit(x, 1) == x + 1
    ensures FlipBit(x + 1, 32) == x + 1 + if x % 64 >= 32 then -32 else 32
  {
    BitOf(x + 1, 32);
    ModUnique(x + 1, 64, x / 64, x % 64 + 1);
  }

  lemma BitTwelve(x: nat, y: nat)
    requires x % 2 == 0 && y == x + 1 + if x % 64 >= 32 then -32 else 32
    ensures FlipBit(y, 0x1000) == y + if x % 0x2000 >= 0x1000 then -0x1000 else 0x1000
  {
    var u := x / 64;
    DivUnique(y, 64, u, y - 64 * u);
    DivUnique(x, 0x1000, u / 64, x - 0x1000 * (u / 64));
    DivUnique(y, 0x1000, u / 64, y - 0x1000 * (u / 64));
    BitOf(x, 0x1000);
  }

  lemma FlipIsReduced(x: nat)
    requires x % 2 == 0
    ensures Flip(x) == Xor(x, REDUCED)
  {
    hide Xor;
    hide FlipBit;
    BitFive(x);
    BitTwelve(x, FlipBit(x + 1, 32));
    Powers();
    FlipIsXor(x, 0);
    FlipIsXor(x + 1, 5);
    FlipIsXor(FlipBit(x + 1, 32), 12);
    XorJoins(1, 1, 5);
    XorJoins(1, 33, 12);
    XorCommutes(1, 32);
    XorCommutes(33, 0x1000);
    XorAssociates(x, 1, 32);
    XorAssociates(x, 33, 0x1000);
  }

  /** What is left of v is left of v plus a multiple. */
  lemma MultipleVanishes(q: nat, v: nat, r: nat)
    requires IsRemainder(v, r)
    ensures IsRemainder(Xor(Multiple(q), v), r)
  {
    hide Xor;
    hide Multiple;
    var p :| Xor(Multiple(p), r) == v;
    XorAssociates(Multiple(q), Multiple(p), r);
    MultiplesAdd(q, p);
    assert Xor(Multiple(Xor(q, p)), r) == Xor(Multiple(q), v);
  }

  lemma ItsOwnRemainder(r: nat)
    requires r < 0x1_0000
    ensures IsRemainder(r, r)
  {
    hide Xor;
    XorZero(r);
    NoMultiple();
    assert Xor(Multiple(0), r) == r;
  }

  /** Doubling v shifts the register; a bit shifted out is replaced by the reduced polynomial. */
  lemma RemainderDoubles(v: nat, r: nat)
    requires IsRemainder(v, r)
    ensures IsRemainder(2 * v, if r < 0x8000 then 2 * r else Xor(2 * r - 0x1_0000, REDUCED))
  {
    hide Xor;
    hide Multiple;
    var q: nat :| Xor(Multiple(q), r) == v;
    XorDoubles(Multiple(q), r);
    MultipleDoubles(q);
    if r < 0x8000 {
      assert Xor(Multiple(2 * q), 2 * r) == 2 * v;
    } else {
      var y := 2 * r - 0x1_0000;
      Powers();
      XorJoins(1, y, 16);
      LeadingTermReduces();
      ItsOwnRemainder(y);
      RemaindersAdd(0x1_0000, REDUCED, y, y);
      XorCommutes(REDUCED, y);
      MultipleVanishes(2 * q, 2 * r, Xor(y, REDUCED));
    }
  }

  /** Each entry is what is left of its index, shifted by the width of the register. */
  lemma {:induction false} EntryIsRemainder(i: nat)
    requires i < 256
    ensures 0 <= Table(i) && IsRemainder(i * 0x1_0000, Table(i))
  {
    hide Table;
    hide Xor;
    hide Multiple;
    hide IsRemainder;
    if i == 0 {
      FirstEntry();
      ItsOwnRemainder(0);
    } else {
      var j := i / 2;
      EntryIsRemainder(j);
      TableSteps(j);
      var t := Table(j);
      RemainderDoubles(j * 0x1_0000, t);
      IsWord(j * 0x1_0000, t);
      var y := if t < 0x8000 then 2 * t else 2 * t - 0x1_0000;
      FlipIsReduced(y);
      if i % 2 == 1 {
        OddEntry(j, y, t);
      }
    }
  }

  lemma IsWord(v: nat, r: nat)
    requires IsRemainder(v, r)
    ensures r < 0x1_0000
  {
  }

  lemma OddEntry(j: nat, y: nat, t: nat)
    requires j < 128 && y < 0x1_0000 && y == if t < 0x8000 then 2 * t else 2 * t - 0x1_0000
    requires IsRemainder(2 * (j * 0x1_0000), if t < 0x8000 then y else Xor(y, REDUCED))
    ensures IsRemainder((2 * j + 1) * 0x1_0000, if t < 0x8000 then Xor(y, REDUCED) else y)
  {
    hide Xor;
    hide IsRemainder;
    LeadingTermReduces();
    Powers();
    XorDoubles(j, 0);
    XorJoins(j, 0, 1);
    XorShifts(2 * j, 1, 16);
    XorJoins(j, 1, 1);
    RemaindersAdd(2 * (j * 0x1_0000), if t < 0x8000 then y else Xor(y, REDUCED), 0x1_0000, REDUCED);
    XorAssociates(y, REDUCED, REDUCED);
    XorSelf(REDUCED);
    XorZero(y);
  }

  // ---------------------------------------------------------------- the checksum

  /** One byte of cf_redis_crc16. */
  function NextCrc(crc: u16, b: byte): (r: u16) {
    var i := Xor(crc / 0x100, b);
    Powers();
    XorBelow(crc / 0x100, b, 8);
    EntryIsRemainder(i);
    XorBelow(crc % 0x100 * 0x100, Table(i), 16);
    Xor(crc % 0x100 * 0x100, Table(i))
  }

  function Crc(buf: seq<byte>): (r: u16) {
    if buf == [] then 0 else NextCrc(Crc(buf[..|buf| - 1]), buf[|buf| - 1])
  }

  /** The bytes as one number, that is, as one polynomial. */
  function Number(buf: seq<byte>): (v: nat) {
    if buf == [] then 0 else Number(buf[..|buf| - 1]) * 0x100 + buf[|buf| - 1] as int
  }

  lemma NextCrcIsRemainder(v: nat, crc: u16, b: byte)
    requires IsRemainder(v * 0x1_0000, crc)
    ensures IsRemainder((v * 0x100 + b) * 0x1_0000, NextCrc(crc, b))
  {
    hide Xor;
    hide Multiple;
    hide Table;
    var V, h, l := v * 0x1_0000, crc / 0x100, crc % 0x100;
    Powers();
    XorBelow(h, b, 8);
    var i := Xor(h, b);
    EntryIsRemainder(i);
    ItsOwnRemainder(l * 0x100);
    RemaindersAdd(l * 0x100, l * 0x100, i * 0x1_0000, Table(i));
    var q: nat :| Xor(Multiple(q), crc) == V;
    XorShifts(Multiple(q), crc, 8);
    MultipleShifts(q, 8);
    XorShifts(h, b, 16);
    XorJoins(h, l * 0x100, 16);
    XorJoins(v, b, 8);
    XorShifts(v * 0x100, b, 16);
    var m, x, y, z := Multiple(0x100 * q), l * 0x100, h * 0x1_0000, b * 0x1_0000;
    XorCommutes(y, x);
    XorAssociates(m, Xor(x, y), z);
    XorAssociates(x, y, z);
    MultipleVanishes(0x100 * q, Xor(x, i * 0x1_0000), Xor(x, Table(i)));
  }

  /** The checksum is the remainder of the message, shifted by 16, and nothing else is. */
  lemma {:induction false} CrcIsRemainder(buf: seq<byte>, r: nat)
    ensures IsRemainder(Number(buf) * 0x1_0000, r) <==> r == Crc(buf)
  {
    hide IsRemainder;
    hide NextCrc;
    if buf == [] {
      ItsOwnRemainder(0);
    } else {
      var n := |buf| - 1;
      CrcIsRemainder(buf[..n], Crc(buf[..n]));
      NextCrcIsRemainder(Number(buf[..n]), Crc(buf[..n]), buf[n]);
    }
    if IsRemainder(Number(buf) * 0x1_0000, r) {
      RemainderIsUnique(Number(buf) * 0x1_0000, r, Crc(buf));
    }
  }

  lemma StepIsNextCrc(crc: u16, b: byte)
    ensures Xor(crc / 0x100, b) < 0x100 && 0 <= Table(Xor(crc / 0x100, b))
    ensures Xor(crc * 0x100 % 0x1_0000, Table(Xor(crc / 0x100, b))) == NextCrc(crc, b)
  {
    hide Xor;
    hide Table;
    Powers();
    XorBelow(crc / 0x100, b, 8);
    EntryIsRemainder(Xor(crc / 0x100, b));
    ModUnique(crc * 0x100, 0x1_0000, crc / 0x100, crc % 0x100 * 0x100);
  }

  /** cf_redis_crc16. */
  method Crc16(buf: seq<byte>) returns (crc: u16)
    ensures crc == Crc(buf)
    ensures IsRemainder(Number(buf) * 0x1_0000, crc)
  {
    hide IsRemainder;
    hide Xor;
    hide NextCrc;
    hide Table;
    crc := 0;
    for counter := 0 to |buf|
      invariant crc == Crc(buf[..counter])
    {
      assert buf[..counter + 1][..counter] == buf[..counter];
      StepIsNextCrc(crc, buf[counter]);
      var i := Xor(crc / 0x100, buf[counter]) % 0x100;
      crc := Xor(crc * 0x100 % 0x1_0000, Table(i));
    }
    assert buf[..|buf|] == buf;
    CrcIsRemainder(buf, crc);
  }

  // ---------------------------------------------------------------- slots

  const OPEN := 0x7b
  const CLOSE := 0x7d

  /** The first position from i on that holds c, the length when there is none. */
  function FirstFrom(key: seq<byte>, c: byte, i: nat): (p: nat)
    requires i <= |key|
    ensures i <= p <= |key| && (p < |key| ==> key[p] == c)
    ensures forall k :: i <= k < p ==> key[k] != c
    decreases |key| - i
  {
    if i == |key| || key[i] == c then i else FirstFrom(key, c, i + 1)
  }

  /** The part of the key that decides the slot: the text between the first brace and the first
      closing brace after it, unless there is none or it is empty. */
  function Hashed(key: seq<byte>): (part: seq<byte>) {
    var s := FirstFrom(key, OPEN, 0);
    if s == |key| then key
    else
      var e := FirstFrom(key, CLOSE, s + 1);
      if e == |key| || e == s + 1 then key else key[s + 1..e]
  }

  function Slot(key: seq<byte>): (slot: nat)
    ensures slot < NUM_SLOTS
  {
    Crc(Hashed(key)) % NUM_SLOTS
  }

  /** cf_redis_key_slot. */
  method KeySlot(key: seq<byte>) returns (slot: nat)
    ensures slot == Slot(key)
  {
    hide Crc;
    var s := 0;
    while s < |key| && key[s] != OPEN
      invariant 0 <= s <= |key| && FirstFrom(key, OPEN, s) == FirstFrom(key, OPEN, 0)
    {
      s := s + 1;
    }
    var crc;
    if s == |key| {
      crc := Crc16(key);
      return crc % NUM_SLOTS;
    }
    var e := s + 1;
    while e < |key| && key[e] != CLOSE
      invariant s < e <= |key| && FirstFrom(key, CLOSE, e) == FirstFrom(key, CLOSE, s + 1)
    {
      e := e + 1;
    }
    if e == |key| || e == s + 1 {
      crc := Crc16(key);
      return crc % NUM_SLOTS;
    }
    crc := Crc16(key[s + 1..e]);
    slot := crc % NUM_SLOTS;
  }

  /** The tag is the first non-empty brace pair's text. */
  predicate TaggedAs(key: seq<byte>, pre: seq<byte>, tag: seq<byte>, post: seq<byte>) {
    && key == pre + [OPEN] + tag + [CLOSE] + post
    && OPEN !in pre && CLOSE !in tag && tag != []
  }

  lemma FirstIsUnique(key: seq<byte>, c: byte, i: nat, p: nat)
    requires i <= p < |key| && key[p] == c && forall k :: i <= k < p ==> key[k] != c
    ensures FirstFrom(key, c, i) == p
  {
    var f := FirstFrom(key, c, i);
    assert f >= p && p >= f;
  }

  /** Only the tag counts: a key with this tag goes where the tag alone goes. */
  lemma TagDecidesSlot(key: seq<byte>, pre: seq<byte>, tag: seq<byte>, post: seq<byte>)
    requires TaggedAs(key, pre, tag, post)
    ensures Hashed(key) == tag && Slot(key) == Crc(tag) % NUM_SLOTS
  {
    var s, e := |pre|, |pre| + 1 + |tag|;
    assert key[s + 1..e] == tag;
    assert forall k :: 0 <= k < s ==> key[k] == pre[k];
    assert forall k :: s < k < e ==> key[k] == tag[k - s - 1];
    FirstIsUnique(key, OPEN, 0, s);
    FirstIsUnique(key, CLOSE, s + 1, e);
  }

  /** Two keys with the same tag share a slot. */
  lemma SameTagSameSlot(key1: seq<byte>, pre1: seq<byte>, post1: seq<byte>,
                        key2: seq<byte>, pre2: seq<byte>, post2: seq<byte>, tag: seq<byte>)
    requires TaggedAs(key1, pre1, tag, post1) && TaggedAs(key2, pre2, tag, post2)
    ensures Slot(key1) == Slot(key2) < NUM_SLOTS
  {
    TagDecidesSlot(key1, pre1, tag, post1);
    TagDecidesSlot(key2, pre2, tag, post2);
  }

  /** A key without a tag is hashed whole. */
  lemma UntaggedIsHashedWhole(key: seq<byte>)
    requires forall pre, tag, post :: !TaggedAs(key, pre, tag, post)
    ensures Hashed(key) == key
  {
    var s := FirstFrom(key, OPEN, 0);
    if s < |key| {
      var e := FirstFrom(key, CLOSE, s + 1);
      if e < |key| && e != s + 1 {
        assert key == key[..s] + [OPEN] + key[s + 1..e] + [CLOSE] + key[e + 1..];
        assert TaggedAs(key, key[..s], key[s + 1..e], key[e + 1..]);
      }
    }
  }
}
