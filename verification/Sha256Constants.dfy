/** Where the constants of SHA-256 come from (sections 4.2.2 and 5.3.3 of FIPS 180-4). */
module Sha256Constants {
  import opened Bytes
  import opened Sha256

  /** k is the first 32 bits of the fractional part of the cube root of p, whose whole part is a. */
  predicate CubeRootBits(p: nat, a: nat, k: u32) {
    var n := a * 0x1_0000_0000 + k;
    n * n * n <= p * 0x1_0000_0000_0000_0000_0000_0000 < (n + 1) * (n + 1) * (n + 1)
  }

  /** The same for the square root. */
  predicate SquareRootBits(p: nat, a: nat, k: u32) {
    var n := a * 0x1_0000_0000 + k;
    n * n <= p * 0x1_0000_0000_0000_0000 < (n + 1) * (n + 1)
  }

  // The round constants are the fractional parts of the cube roots of the first sixty-four primes.

  lemma CubeRoots0To7()
    ensures CubeRootBits(2, 1, K[0]) && CubeRootBits(3, 1, K[1])
    ensures CubeRootBits(5, 1, K[2]) && CubeRootBits(7, 1, K[3])
    ensures CubeRootBits(11, 2, K[4]) && CubeRootBits(13, 2, K[5])
    ensures CubeRootBits(17, 2, K[6]) && CubeRootBits(19, 2, K[7])
  {
    assert forall i :: 0 <= i < 8 ==> K[i] == K0To7[i];
  }

  lemma CubeRoots8To15()
    ensures CubeRootBits(23, 2, K[8]) && CubeRootBits(29, 3, K[9])
    ensures CubeRootBits(31, 3, K[10]) && CubeRootBits(37, 3, K[11])
    ensures CubeRootBits(41, 3, K[12]) && CubeRootBits(43, 3, K[13])
    ensures CubeRootBits(47, 3, K[14]) && CubeRootBits(53, 3, K[15])
  {
    assert forall i :: 0 <= i < 8 ==> K[8 + i] == K8To15[i];
  }

  lemma CubeRoots16To23()
    ensures CubeRootBits(59, 3, K[16]) && CubeRootBits(61, 3, K[17])
    ensures CubeRootBits(67, 4, K[18]) && CubeRootBits(71, 4, K[19])
    ensures CubeRootBits(73, 4, K[20]) && CubeRootBits(79, 4, K[21])
    ensures CubeRootBits(83, 4, K[22]) && CubeRootBits(89, 4, K[23])
  {
    assert forall i :: 0 <= i < 8 ==> K[16 + i] == K16To23[i];
  }

  lemma CubeRoots24To31()
    ensures CubeRootBits(97, 4, K[24]) && CubeRootBits(101, 4, K[25])
    ensures CubeRootBits(103, 4, K[26]) && CubeRootBits(107, 4, K[27])
    ensures CubeRootBits(109, 4, K[28]) && CubeRootBits(113, 4, K[29])
    ensures CubeRootBits(127, 5, K[30]) && CubeRootBits(131, 5, K[31])
  {
    assert forall i :: 0 <= i < 8 ==> K[24 + i] == K24To31[i];
  }

  lemma CubeRoots32To39()
    ensures CubeRootBits(137, 5, K[32]) && CubeRootBits(139, 5, K[33])
    ensures CubeRootBits(149, 5, K[34]) && CubeRootBits(151, 5, K[35])
    ensures CubeRootBits(157, 5, K[36]) && CubeRootBits(163, 5, K[37])
    ensures CubeRootBits(167, 5, K[38]) && CubeRootBits(173, 5, K[39])
  {
    assert forall i :: 0 <= i < 8 ==> K[32 + i] == K32To39[i];
  }

  lemma CubeRoots40To47()
    ensures CubeRootBits(179, 5, K[40]) && CubeRootBits(181, 5, K[41])
    ensures CubeRootBits(191, 5, K[42]) && CubeRootBits(193, 5, K[43])
    ensures CubeRootBits(197, 5, K[44]) && CubeRootBits(199, 5, K[45])
    ensures CubeRootBits(211, 5, K[46]) && CubeRootBits(223, 6, K[47])
  {
    assert forall i :: 0 <= i < 8 ==> K[40 + i] == K40To47[i];
  }

  lemma CubeRoots48To55()
    ensures CubeRootBits(227, 6, K[48]) && CubeRootBits(229, 6, K[49])
    ensures CubeRootBits(233, 6, K[50]) && CubeRootBits(239, 6, K[51])
    ensures CubeRootBits(241, 6, K[52]) && CubeRootBits(251, 6, K[53])
    ensures CubeRootBits(257, 6, K[54]) && CubeRootBits(263, 6, K[55])
  {
    assert forall i :: 0 <= i < 8 ==> K[48 + i] == K48To55[i];
  }

  lemma CubeRoots56To63()
    ensures CubeRootBits(269, 6, K[56]) && CubeRootBits(271, 6, K[57])
    ensures CubeRootBits(277, 6, K[58]) && CubeRootBits(281, 6, K[59])
    ensures CubeRootBits(283, 6, K[60]) && CubeRootBits(293, 6, K[61])
    ensures CubeRootBits(307, 6, K[62]) && CubeRootBits(311, 6, K[63])
  {
    assert forall i :: 0 <= i < 8 ==> K[56 + i] == K56To63[i];
  }

  /** The initial hash value is the fractional parts of the square roots of the first eight primes. */
  lemma InitialHashIsSquareRoots()
    ensures |INITIAL| == 8
    ensures SquareRootBits(2, 1, INITIAL[0]) && SquareRootBits(3, 1, INITIAL[1]) && SquareRootBits(5, 2, INITIAL[2]) && SquareRootBits(7, 2, INITIAL[3])
    ensures SquareRootBits(11, 3, INITIAL[4]) && SquareRootBits(13, 3, INITIAL[5]) && SquareRootBits(17, 4, INITIAL[6]) && SquareRootBits(19, 4, INITIAL[7])
  {
  }

  /** Rotations and shifts are linear, so where they take one bit fixes them; the words of the second line
      hold every combination of three bits. */
  lemma FunctionsByExample()
    ensures BigSigma0(1) == 0x4008_0400 && BigSigma1(1) == 0x0420_0080 && Sigma0(1) == 0x0200_4000 && Sigma1(1) == 0xa000
    ensures Ch(0xf0f0_f0f0, 0xcccc_cccc, 0xaaaa_aaaa) == 0xcaca_caca && Maj(0xf0f0_f0f0, 0xcccc_cccc, 0xaaaa_aaaa) == 0xe8e8_e8e8
    ensures Sigma0(0x8000_0000) == 0x1100_2000 && Sigma1(0x8000_0000) == 0x0020_5000
  {
  }
}
