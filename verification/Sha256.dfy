/** Streaming SHA-256 (sha256.c) against the one-shot definition of FIPS 180-4. */
module Sha256 {
  import opened Bytes
  import opened Modular

  const BLOCK_SIZE := 64
  const TWO_64 := 0x1_0000_0000_0000_0000

  // Section 4.2.2 of FIPS 180-4, eight words at a time.

  const K0To7: seq<u32> := [0x428a2f98, 0x71374491, 0xb5c0fbcf, 0xe9b5dba5, 0x3956c25b, 0x59f111f1, 0x923f82a4, 0xab1c5ed5]
  const K8To15: seq<u32> := [0xd807aa98, 0x12835b01, 0x243185be, 0x550c7dc3, 0x72be5d74, 0x80deb1fe, 0x9bdc06a7, 0xc19bf174]
  const K16To23: seq<u32> := [0xe49b69c1, 0xefbe4786, 0x0fc19dc6, 0x240ca1cc, 0x2de92c6f, 0x4a7484aa, 0x5cb0a9dc, 0x76f988da]
  const K24To31: seq<u32> := [0x983e5152, 0xa831c66d, 0xb00327c8, 0xbf597fc7, 0xc6e00bf3, 0xd5a79147, 0x06ca6351, 0x14292967]
  const K32To39: seq<u32> := [0x27b70a85, 0x2e1b2138, 0x4d2c6dfc, 0x53380d13, 0x650a7354, 0x766a0abb, 0x81c2c92e, 0x92722c85]
  const K40To47: seq<u32> := [0xa2bfe8a1, 0xa81a664b, 0xc24b8b70, 0xc76c51a3, 0xd192e819, 0xd6990624, 0xf40e3585, 0x106aa070]
  const K48To55: seq<u32> := [0x19a4c116, 0x1e376c08, 0x2748774c, 0x34b0bcb5, 0x391c0cb3, 0x4ed8aa4a, 0x5b9cca4f, 0x682e6ff3]
  const K56To63: seq<u32> := [0x748f82ee, 0x78a5636f, 0x84c87814, 0x8cc70208, 0x90befffa, 0xa4506ceb, 0xbef9a3f7, 0xc67178f2]

  const K: seq<u32> := K0To7 + K8To15 + K16To23 + K24To31 + K32To39 + K40To47 + K48To55 + K56To63

  /** Section 5.3.3 of FIPS 180-4. */
  const INITIAL: seq<u32> := [
    0x6a09e667, 0xbb67ae85, 0x3c6ef372, 0xa54ff53a, 0x510e527f, 0x9b05688c, 0x1f83d9ab, 0x5be0cd19]

  type Block = s: seq<byte> | |s| == BLOCK_SIZE witness seq(BLOCK_SIZE, _ => 0)
  type Hash = s: seq<u32> | |s| == 8 witness seq(8, _ => 0)

  // ---------------------------------------------------------------- section 4.1.2: functions

  /** Addition modulo 2 to the 32. */
  function Add(x: u32, y: u32): (r: u32) {
    (x + y) % 0x1_0000_0000
  }

  /** sha256_rotr: rotation to the right, by shifts. */
  function Rotr(x: bv32, n: nat): (r: bv32)
    requires 0 < n < 32
  {
    (x >> n) | (x << (32 - n))
  }

  function Ch(x: u32, y: u32, z: u32): (r: u32) {
    ((x as bv32 & y as bv32) ^ (!(x as bv32) & z as bv32)) as int
  }

  function Maj(x: u32, y: u32, z: u32): (r: u32) {
    ((x as bv32 & y as bv32) ^ (x as bv32 & z as bv32) ^ (y as bv32 & z as bv32)) as int
  }

  function BigSigma0(x: u32): (r: u32) {
    (Rotr(x as bv32, 2) ^ Rotr(x as bv32, 13) ^ Rotr(x as bv32, 22)) as int
  }

  function BigSigma1(x: u32): (r: u32) {
    (Rotr(x as bv32, 6) ^ Rotr(x as bv32, 11) ^ Rotr(x as bv32, 25)) as int
  }

  function Sigma0(x: u32): (r: u32) {
    (Rotr(x as bv32, 7) ^ Rotr(x as bv32, 18) ^ (x as bv32 >> 3)) as int
  }

  function Sigma1(x: u32): (r: u32) {
    (Rotr(x as bv32, 17) ^ Rotr(x as bv32, 19) ^ (x as bv32 >> 10)) as int
  }

  // ---------------------------------------------------------------- section 6.2.2: one block

  /** The big-endian word at byte i. */
  function Word(s: seq<byte>, i: nat): (w: u32)
    requires i + 4 <= |s|
  {
    s[i] as int * 0x100_0000 + s[i + 1] as int * 0x1_0000 + s[i + 2] as int * 0x100 + s[i + 3] as int
  }

  /** The message schedule. */
  function W(m: Block, t: nat): (w: u32)
    requires t < 64
  {
    if t < 16 then Word(m, 4 * t)
    else Add(Add(Add(Sigma1(W(m, t - 2)), W(m, t - 7)), Sigma0(W(m, t - 15))), W(m, t - 16))
  }

  /** The working variables a to h. */
  datatype Vars = Vars(a: u32, b: u32, c: u32, d: u32, e: u32, f: u32, g: u32, h: u32)

  function Round(v: Vars, k: u32, w: u32): (r: Vars) {
    var t1 := Add(Add(Add(Add(v.h, BigSigma1(v.e)), Ch(v.e, v.f, v.g)), k), w);
    var t2 := Add(BigSigma0(v.a), Maj(v.a, v.b, v.c));
    Vars(Add(t1, t2), v.a, v.b, v.c, Add(v.d, t1), v.e, v.f, v.g)
  }

  function Rounds(h: Hash, m: Block, t: nat): (v: Vars)
    requires t <= 64
  {
    if t == 0 then Vars(h[0], h[1], h[2], h[3], h[4], h[5], h[6], h[7])
    else Round(Rounds(h, m, t - 1), K[t - 1], W(m, t - 1))
  }

  function Compress(h: Hash, m: Block): (r: Hash) {
    var v := Rounds(h, m, 64);
    [Add(h[0], v.a), Add(h[1], v.b), Add(h[2], v.c), Add(h[3], v.d),
     Add(h[4], v.e), Add(h[5], v.f), Add(h[6], v.g), Add(h[7], v.h)]
  }

  // ---------------------------------------------------------------- whole messages

  lemma OneBlockLess(n: nat)
    requires n > 0 && n % BLOCK_SIZE == 0
    ensures n >= BLOCK_SIZE && (n - BLOCK_SIZE) % BLOCK_SIZE == 0
  {
    ModUnique(n - BLOCK_SIZE, BLOCK_SIZE, n / BLOCK_SIZE - 1, 0);
  }

  predicate Whole(n: nat) {
    n % BLOCK_SIZE == 0
  }

  /** Compresses the whole blocks of s, in order. */
  function Absorb(h: Hash, s: seq<byte>): (r: Hash)
    requires Whole(|s|)
    decreases |s|
  {
    if s == [] then h
    else
      OneBlockLess(|s|);
      Absorb(Compress(h, s[..BLOCK_SIZE]), s[BLOCK_SIZE..])
  }

  /** Big-endian, n bytes, of x modulo 256 to the n. */
  function BigEndian(x: nat, n: nat): (s: seq<byte>)
    ensures |s| == n
  {
    if n == 0 then [] else BigEndian(x / 0x100, n - 1) + [x % 0x100]
  }

  /** How many zero bytes follow the end marker: the least number that leaves eight bytes in the
      last block. */
  function ZeroCount(len: nat): (z: nat) {
    if len % BLOCK_SIZE <= 55 then 55 - len % BLOCK_SIZE else 119 - len % BLOCK_SIZE
  }

  /** The length in bits, modulo 2 to the 64. */
  function LengthField(len: nat): (n: nat)
    ensures len < TWO_64 / 8 ==> n == 8 * len
  {
    8 * len % TWO_64
  }

  /** Section 5.1.1: a one bit, zeros, and the length in bits. */
  function Padding(len: nat): (s: seq<byte>) {
    [0x80] + Zeros(ZeroCount(len)) + BigEndian(LengthField(len), 8)
  }

  /** The first n words, big-endian. */
  function WordsBytes(h: Hash, n: nat): (s: seq<byte>)
    requires n <= 8
    ensures |s| == 4 * n
  {
    if n == 0 then [] else WordsBytes(h, n - 1) + WordBytes(h[n - 1])
  }

  function WordBytes(w: u32): (s: seq<byte>)
    ensures |s| == 4
  {
    [w / 0x100_0000, w / 0x1_0000 % 0x100, w / 0x100 % 0x100, w % 0x100]
  }

  function Padded(m: seq<byte>): (p: seq<byte>)
    ensures Whole(|p|)
  {
    PaddedIsWhole(|m|);
    m + Padding(|m|)
  }

  function Digest(m: seq<byte>): (s: seq<byte>)
    ensures |s| == 32
  {
    WordsBytes(Absorb(INITIAL, Padded(m)), 8)
  }

  /** The padding fills the last block. */
  lemma PaddedIsWhole(len: nat)
    ensures Whole(len + |Padding(len)|)
  {
    PadsUp(len, ZeroCount(len));
  }

  predicate FillsUp(len: nat, z: nat) {
    Whole(len + 1 + z + 8)
  }

  /** ZeroCount is the least number of zeros that fills the last block up. */
  lemma PadsUp(len: nat, z: nat)
    requires z <= ZeroCount(len)
    ensures FillsUp(len, z) <==> z == ZeroCount(len)
  {
    var q, r := len / BLOCK_SIZE, len % BLOCK_SIZE;
    var t := r + 9 + z;
    var whole := if t < 64 then 0 else if t < 128 then 1 else 2;
    ModUnique(len + 1 + z + 8, BLOCK_SIZE, q + whole, t - 64 * whole);
  }

  function FromBigEndian(s: seq<byte>): (x: nat) {
    if s == [] then 0 else FromBigEndian(s[..|s| - 1]) * 0x100 + s[|s| - 1] as int
  }

  function Power256(n: nat): (p: nat)
    ensures p > 0
  {
    if n == 0 then 1 else 0x100 * Power256(n - 1)
  }

  lemma {:induction false} BigEndianReadsBack(x: nat, n: nat)
    requires x < Power256(n)
    ensures FromBigEndian(BigEndian(x, n)) == x
  {
    if n > 0 {
      BigEndianReadsBack(x / 0x100, n - 1);
      var s := BigEndian(x, n);
      assert s[..|s| - 1] == BigEndian(x / 0x100, n - 1);
    }
  }

  lemma Power256Of8()
    ensures Power256(4) == 0x1_0000_0000 && Power256(8) == TWO_64
  {
    assert Power256(2) == 0x1_0000;
    assert Power256(4) == 0x100 * (0x100 * Power256(2));
    assert Power256(6) == 0x100 * (0x100 * Power256(4));
    assert Power256(8) == 0x100 * (0x100 * Power256(6));
  }

  /** No two messages under 2 to the 61 bytes have the same padded form. */
  lemma PaddingIsInjective(a: seq<byte>, b: seq<byte>)
    requires |a| < TWO_64 / 8 && |b| < TWO_64 / 8
    requires Padded(a) == Padded(b)
    ensures a == b
  {
    hide BigEndian;
    hide ZeroCount;
    var pa, pb := Padded(a), Padded(b);
    assert pa[|pa| - 8..] == BigEndian(8 * |a|, 8);
    assert pb[|pb| - 8..] == BigEndian(8 * |b|, 8);
    Power256Of8();
    BigEndianReadsBack(8 * |a|, 8);
    BigEndianReadsBack(8 * |b|, 8);
    assert a == pa[..|a|] && b == pb[..|b|];
  }

  lemma {:induction false} AbsorbConcat(h: Hash, s: seq<byte>, t: seq<byte>)
    requires Whole(|s|) && Whole(|t|)
    ensures Whole(|s| + |t|) && Absorb(h, s + t) == Absorb(Absorb(h, s), t)
    decreases |s|
  {
    hide Compress;
    if s == [] {
      assert s + t == t;
    } else {
      assert (s + t)[..BLOCK_SIZE] == s[..BLOCK_SIZE] && (s + t)[BLOCK_SIZE..] == s[BLOCK_SIZE..] + t;
      AbsorbConcat(Compress(h, s[..BLOCK_SIZE]), s[BLOCK_SIZE..], t);
    }
  }

  lemma AbsorbOne(h: Hash, s: seq<byte>, m: Block)
    requires Whole(|s|)
    ensures Whole(|s| + BLOCK_SIZE) && Absorb(h, s + m) == Compress(Absorb(h, s), m)
  {
    hide Compress;
    AbsorbConcat(h, s, m);
    assert m[..BLOCK_SIZE] == m && m[BLOCK_SIZE..] == [];
    assert Absorb(Compress(Absorb(h, s), m), []) == Compress(Absorb(h, s), m);
  }

  // ---------------------------------------------------------------- the code

  class Context {
    const state: array<u32>
    const buffer: array<byte>
    var bufferLen: nat
    var totalLen: nat
    ghost var message: seq<byte>   // everything hashed so far

    /** The whole blocks have been compressed, the rest of the message is buffered. */
    ghost predicate Buffered()
      reads this, state, buffer
    {
      && state.Length == 8 && buffer.Length == BLOCK_SIZE && state as object != buffer as object
      && bufferLen < BLOCK_SIZE && bufferLen <= |message|
      && Whole(|message| - bufferLen)
      && buffer[..bufferLen] == message[|message| - bufferLen..]
      && state[..] == Absorb(INITIAL, message[..|message| - bufferLen])
    }

    ghost predicate Valid()
      reads this, state, buffer
    {
      Buffered() && totalLen == |message| % TWO_64
    }

    /** sha256_init. */
    constructor ()
      ensures Valid() && message == [] && fresh(state) && fresh(buffer)
    {
      state := new u32[8](i requires 0 <= i < 8 => INITIAL[i]);
      buffer := new byte[BLOCK_SIZE];
      bufferLen, totalLen, message := 0, 0, [];
      new;
      assert state[..] == INITIAL;
    }

    /** The schedule loops of sha256_transform. */
    method Schedule(w: array<u32>)
      requires buffer.Length == BLOCK_SIZE && w.Length == 64
      modifies w
      ensures forall t :: 0 <= t < 64 ==> w[t] == W(buffer[..], t)
    {
      hide Word;
      hide W;
      hide ScheduleWord;
      ghost var m := buffer[..];
      for i := 0 to 16
        invariant forall t :: 0 <= t < i ==> w[t] == W(m, t)
      {
        w[i] := Word(buffer[..], 4 * i);
        ScheduleAt(m, i);
      }
      for i := 16 to 64
        invariant forall t :: 0 <= t < i ==> w[t] == W(m, t)
      {
        w[i] := ScheduleWord(w[i - 16], w[i - 15], w[i - 7], w[i - 2]);
        ScheduleAt(m, i);
      }
    }

    /** sha256_transform. */
    method Transform()
      requires state.Length == 8 && buffer.Length == BLOCK_SIZE
      modifies state
      ensures state[..] == Compress(old(state[..]), buffer[..])
    {
      hide W;
      hide Round;
      hide Add;
      ghost var m, start := buffer[..], state[..];
      var w := new u32[64];
      Schedule(w);
      var a, b, c, d, e, f, g, h := state[0], state[1], state[2], state[3], state[4], state[5], state[6], state[7];
      for i := 0 to 64
        modifies {}
        invariant forall t :: 0 <= t < 64 ==> w[t] == W(m, t)
        invariant Vars(a, b, c, d, e, f, g, h) == Rounds(start, m, i)
      {
        a, b, c, d, e, f, g, h := OneRound(a, b, c, d, e, f, g, h, K[i], w[i]);
      }
      state[0], state[1], state[2], state[3] := Add(state[0], a), Add(state[1], b), Add(state[2], c), Add(state[3], d);
      state[4], state[5], state[6], state[7] := Add(state[4], e), Add(state[5], f), Add(state[6], g), Add(state[7], h);
    }

    /** Compresses the full buffer after what has been absorbed. */
    method AbsorbBuffer(ghost whole: seq<byte>)
      requires state.Length == 8 && buffer.Length == BLOCK_SIZE
      requires Whole(|whole|) && state[..] == Absorb(INITIAL, whole)
      modifies state
      ensures Whole(|whole| + BLOCK_SIZE) && state[..] == Absorb(INITIAL, whole + buffer[..])
    {
      hide Compress;
      hide Absorb;
      hide Whole;
      AbsorbOne(INITIAL, whole, buffer[..]);
      Transform();
    }

    /** memcpy into the buffer, behind what is there. */
    method Store(chunk: seq<byte>)
      requires buffer.Length == BLOCK_SIZE && bufferLen + |chunk| <= BLOCK_SIZE
      modifies buffer
      ensures buffer[..bufferLen + |chunk|] == old(buffer[..bufferLen]) + chunk
    {
      forall j | 0 <= j < |chunk| {
        buffer[bufferLen + j] := chunk[j];
      }
    }

    /** One turn of the loop of sha256_update: the chunk fits into the buffer. */
    method Fill(chunk: seq<byte>)
      requires Buffered() && bufferLen + |chunk| <= BLOCK_SIZE
      modifies this`bufferLen, this`message, buffer, state
      ensures Buffered() && message == old(message) + chunk
    {
      hide Absorb;
      hide Whole;
      ghost var whole, rest := message[..|message| - bufferLen], buffer[..bufferLen];
      assert message == whole + rest;
      Store(chunk);
      message, bufferLen := message + chunk, bufferLen + |chunk|;
      assert message == whole + (rest + chunk);
      assert message[..|whole|] == whole && message[|whole|..] == rest + chunk;
      if bufferLen == BLOCK_SIZE {
        ghost var all := buffer[..];
        assert all == rest + chunk;
        AbsorbBuffer(whole);
        assert buffer[..] == all && message == whole + all;
        bufferLen := 0;
        assert message[..|message|] == message && message[|message|..] == [] == buffer[..0];
      }
    }

    /** sha256_update. */
    method Update(data: seq<byte>)
      requires Valid()
      modifies this`bufferLen, this`totalLen, this`message, buffer, state
      ensures Valid() && message == old(message) + data
    {
      hide Absorb;
      ModOfSum(|message|, |data|, TWO_64);
      totalLen := (totalLen + |data|) % TWO_64;
      var pos := 0;
      while pos < |data|
        invariant totalLen == (|old(message)| + |data|) % TWO_64
        invariant 0 <= pos <= |data| && Buffered() && message == old(message) + data[..pos]
      {
        var n := BLOCK_SIZE - bufferLen;
        if n > |data| - pos {
          n := |data| - pos;
        }
        assert data[..pos + n] == data[..pos] + data[pos..pos + n];
        Fill(data[pos..pos + n]);
        pos := pos + n;
      }
      assert data[..pos] == data;
    }

    /** Writes zeros at lo .. hi - 1. */
    method ZeroFill(lo: nat, hi: nat)
      requires lo <= hi <= buffer.Length
      modifies buffer
      ensures buffer[..lo] == old(buffer[..lo]) && buffer[lo..hi] == Zeros(hi - lo)
    {
      for i := lo to hi
        invariant buffer[..lo] == old(buffer[..lo]) && forall k :: lo <= k < i ==> buffer[k] == 0
      {
        buffer[i] := 0;
      }
    }

    /** The length loop of sha256_final. */
    method WriteLength(bitLen: nat)
      requires buffer.Length == BLOCK_SIZE
      modifies buffer
      ensures buffer[..56] == old(buffer[..56]) && buffer[56..] == BigEndian(bitLen, 8)
    {
      for i := 0 to 8
        invariant buffer[..56] == old(buffer[..56])
        invariant forall k :: 0 <= k < i ==> buffer[56 + k] == BigEndian(bitLen, 8)[k]
      {
        BigEndianAt(bitLen, 8, 7 - i);
        buffer[56 + i] := bitLen / Power256(7 - i) % 0x100;
      }
    }

    /** The end marker, and a block of its own when the length no longer fits. */
    method CloseMessage() returns (i: nat, ghost whole: seq<byte>)
      requires Buffered()
      modifies buffer, state
      ensures i <= 56 && Whole(|whole|) && state[..] == Absorb(INITIAL, whole)
      ensures var start, rest := message[..|message| - bufferLen], message[|message| - bufferLen..] + [0x80];
              if bufferLen <= 55 then whole == start && buffer[..i] == rest
              else whole == start + (rest + Zeros(63 - bufferLen)) && i == 0
    {
      hide Absorb;
      hide Whole;
      whole, i := message[..|message| - bufferLen], bufferLen;
      buffer[i] := 0x80;
      i := i + 1;
      assert buffer[..i] == buffer[..bufferLen] + [0x80];
      if i > 56 {
        ZeroFill(i, BLOCK_SIZE);
        assert buffer[..] == buffer[..i] + buffer[i..];
        AbsorbBuffer(whole);
        whole, i := whole + buffer[..], 0;
      }
    }

    /** Zeros up to the last eight bytes, then the length. */
    method FinishBlock(i: nat, bitLen: nat)
      requires buffer.Length == BLOCK_SIZE && i <= 56
      modifies buffer
      ensures buffer[..] == old(buffer[..i]) + Zeros(56 - i) + BigEndian(bitLen, 8)
    {
      hide BigEndian;
      hide Zeros;
      ZeroFill(i, 56);
      assert buffer[..56] == buffer[..i] + buffer[i..56];
      WriteLength(bitLen);
      assert buffer[..] == buffer[..56] + buffer[56..];
    }

    /** sha256_final up to the digest: the state has absorbed the padded message. */
    method Pad()
      requires Valid()
      modifies buffer, state
      ensures state.Length == 8 && state[..] == Absorb(INITIAL, Padded(message))
    {
      hide Absorb;
      hide Whole;
      hide BigEndian;
      hide LengthField;
      hide Padded;
      hide Zeros;
      var bitLen := totalLen * 8 % TWO_64;
      BitLength(|message|);
      var i, whole := CloseMessage();
      ghost var start := buffer[..i];
      FinishBlock(i, bitLen);
      assert bufferLen > 55 ==> start == [] && start + Zeros(56) == Zeros(56);
      PaddedMessage(message, bufferLen, whole + buffer[..]);
      AbsorbBuffer(whole);
    }

    /** sha256_final: the digest of everything hashed. */
    method Final() returns (digest: seq<byte>)
      requires Valid()
      modifies buffer, state
      ensures digest == Digest(message)
    {
      hide Absorb;
      hide WordBytes;
      hide Padded;
      Pad();
      digest := [];
      for j := 0 to 8
        modifies {}
        invariant digest == WordsBytes(state[..], j)
      {
        digest := digest + WordBytes(state[j]);
      }
    }
  }

  function Concat(chunks: seq<seq<byte>>): (s: seq<byte>) {
    if chunks == [] then [] else Concat(chunks[..|chunks| - 1]) + chunks[|chunks| - 1]
  }

  /** However the message is cut into updates, the digest is that of the whole. */
  method HashChunks(chunks: seq<seq<byte>>) returns (digest: seq<byte>)
    ensures digest == Digest(Concat(chunks))
  {
    hide Digest;
    hide Context.Valid;
    var ctx := new Context();
    for i := 0 to |chunks|
      invariant ctx.Valid() && fresh(ctx) && fresh(ctx.state) && fresh(ctx.buffer)
      invariant ctx.message == Concat(chunks[..i])
    {
      assert chunks[..i + 1][..i] == chunks[..i];
      ctx.Update(chunks[i]);
    }
    assert chunks[..|chunks|] == chunks;
    digest := ctx.Final();
  }

  lemma {:induction false} BigEndianAt(x: nat, n: nat, j: nat)
    requires j < n
    ensures BigEndian(x, n)[n - 1 - j] == x / Power256(j) % 0x100
  {
    if j > 0 {
      BigEndianAt(x / 0x100, n - 1, j - 1);
      DivDiv(x, Power256(j - 1));
    }
  }

  lemma DivDiv(x: nat, b: nat)
    requires 0 < b
    ensures x / 0x100 / b == x / (0x100 * b)
  {
    var q, r := x / 0x100, x % 0x100;
    var q2, r2 := q / b, q % b;
    MulShift(b, q2);
    DivUnique(x, 0x100 * b, q2, 0x100 * r2 + r);
  }

  lemma MulShift(b: nat, q: nat)
    ensures 0x100 * b * q == 0x100 * (b * q)
  {
  }

  lemma BitLength(len: nat)
    ensures len % TWO_64 * 8 % TWO_64 == LengthField(len)
  {
  }

  /** What sha256_final has compressed in the end is the padded message. */
  lemma PaddedMessage(message: seq<byte>, r: nat, all: seq<byte>)
    requires r < BLOCK_SIZE && r <= |message| && Whole(|message| - r)
    requires var whole, rest := message[..|message| - r], message[|message| - r..];
             var len := BigEndian(LengthField(|message|), 8);
             all == if r <= 55 then whole + (rest + [0x80] + Zeros(55 - r) + len)
                    else whole + (rest + [0x80] + Zeros(63 - r)) + (Zeros(56) + len)
    ensures all == Padded(message)
  {
    hide BigEndian;
    hide ZeroCount;
    hide LengthField;
    ZerosNeeded(|message|, r);
    var whole, rest := message[..|message| - r], message[|message| - r..];
    var len := BigEndian(LengthField(|message|), 8);
    assert message == whole + rest;
    if r <= 55 {
      RegroupOne(whole, rest, Zeros(55 - r), len);
    } else {
      assert Zeros(119 - r) == Zeros(63 - r) + Zeros(56);
      Regroup(whole, rest, Zeros(63 - r), Zeros(56), len);
    }
  }

  lemma ZerosNeeded(len: nat, r: nat)
    requires r < BLOCK_SIZE && r <= len && Whole(len - r)
    ensures ZeroCount(len) == if r <= 55 then 55 - r else 119 - r
  {
    ModUnique(len, BLOCK_SIZE, (len - r) / BLOCK_SIZE, r);
  }

  lemma RegroupOne(whole: seq<byte>, rest: seq<byte>, z: seq<byte>, len: seq<byte>)
    ensures whole + (rest + [0x80] + z + len) == (whole + rest) + ([0x80] + z + len)
  {
  }

  lemma Regroup(whole: seq<byte>, rest: seq<byte>, z1: seq<byte>, z2: seq<byte>, len: seq<byte>)
    ensures whole + (rest + [0x80] + z1) + (z2 + len) == (whole + rest) + ([0x80] + (z1 + z2) + len)
  {
  }

  /** A later schedule word as sha256_transform adds it up. */
  function ScheduleWord(w16: u32, w15: u32, w7: u32, w2: u32): (w: u32) {
    Add(Add(Add(w16, Sigma0(w15)), w7), Sigma1(w2))
  }

  lemma ScheduleAt(m: Block, i: nat)
    requires i < 64
    ensures W(m, i) == if i < 16 then Word(m, 4 * i) else ScheduleWord(W(m, i - 16), W(m, i - 15), W(m, i - 7), W(m, i - 2))
  {
    hide Word;
    hide Sigma0;
    hide Sigma1;
    hide Add;
    if i >= 16 {
      AddReorders(W(m, i - 16), Sigma0(W(m, i - 15)), W(m, i - 7), Sigma1(W(m, i - 2)));
    }
  }

  lemma AddReorders(a: u32, b: u32, c: u32, d: u32)
    ensures Add(Add(Add(a, b), c), d) == Add(Add(Add(d, c), b), a)
  {
    AddFour(a, b, c, d);
    AddFour(d, c, b, a);
  }

  lemma AddFour(a: u32, b: u32, c: u32, d: u32)
    ensures Add(Add(Add(a, b), c), d) == (a + b + c + d) % 0x1_0000_0000
  {
    ModOfSum(a + b, c, 0x1_0000_0000);
    ModOfSum(a + b + c, d, 0x1_0000_0000);
  }

  /** The body of the round loop. */
  method OneRound(a0: u32, b0: u32, c0: u32, d0: u32, e0: u32, f0: u32, g0: u32, h0: u32, k: u32, w: u32)
    returns (a: u32, b: u32, c: u32, d: u32, e: u32, f: u32, g: u32, h: u32)
    ensures Vars(a, b, c, d, e, f, g, h) == Round(Vars(a0, b0, c0, d0, e0, f0, g0, h0), k, w)
  {
    hide BigSigma0;
    hide BigSigma1;
    hide Ch;
    hide Maj;
    hide Add;
    a, b, c, d, e, f, g, h := a0, b0, c0, d0, e0, f0, g0, h0;
    var temp1 := Add(Add(Add(Add(h, BigSigma1(e)), Ch(e, f, g)), k), w);
    var temp2 := Add(BigSigma0(a), Maj(a, b, c));
    h := g;
    g := f;
    f := e;
    e := Add(d, temp1);
    d := c;
    c := b;
    b := a;
    a := Add(temp1, temp2);
  }
}
