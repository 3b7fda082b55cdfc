/** The tables and word operations of hmac/sha2.c against where FIPS 180-2 takes them from. */
module Sha2Tables {
  import opened Bytes
  import opened Fips180
  import opened Sha2Suites

  const TWO64: nat := 0x1_0000_0000_0000_0000

  // ----- The round constants.

  // The whole part of the cube root, for p < 512.
  function CubeRoot(p: nat): nat {
    if p < 8 then 1 else if p < 27 then 2 else if p < 64 then 3 else if p < 125 then 4
    else if p < 216 then 5 else if p < 343 then 6 else 7
  }

  // k is the first 64 bits of the fractional part of the cube root of p.
  predicate CubeRootBits(p: nat, k: bv64) {
    var x := CubeRoot(p) * TWO64 + k as nat;
    x * x * x <= p * (TWO64 * TWO64 * TWO64) < (x + 1) * (x + 1) * (x + 1)
  }

  // The constants of SHA-512 from a given one on belong to these numbers.
  ghost predicate CubeRoots(first: nat, numbers: seq<nat>)
    requires first + |numbers| <= 80
  {
    forall i :: 0 <= i < |numbers| ==> CubeRootBits(numbers[i], K512[first + i])
  }

  /** Section 4.2.3: the constants of SHA-384 and SHA-512 are the first 64 bits of the fractional parts of the cube
      roots of the first 80 primes. */
  lemma RoundConstants64()
    ensures CubeRoots(0, [2, 3, 5, 7, 11, 13, 17, 19, 23, 29, 31, 37, 41, 43, 47, 53])
    ensures CubeRoots(16, [59, 61, 67, 71, 73, 79, 83, 89, 97, 101, 103, 107, 109, 113, 127, 131])
    ensures CubeRoots(32, [137, 139, 149, 151, 157, 163, 167, 173, 179, 181, 191, 193, 197, 199, 211, 223])
    ensures CubeRoots(48, [227, 229, 233, 239, 241, 251, 257, 263, 269, 271, 277, 281, 283, 293, 307, 311])
    ensures CubeRoots(64, [313, 317, 331, 337, 347, 349, 353, 359, 367, 373, 379, 383, 389, 397, 401, 409])
  {
    RootsOf0();
    RootsOf16();
    RootsOf32();
    RootsOf48();
    RootsOf64();
    hide CubeRoots;
  }

  lemma RootsOf0()
    ensures CubeRoots(0, [2, 3, 5, 7, 11, 13, 17, 19, 23, 29, 31, 37, 41, 43, 47, 53])
  {
    Roots0();
    Roots4();
    Roots8();
    Roots12();
    hide CubeRootBits;
  }

  lemma RootsOf16()
    ensures CubeRoots(16, [59, 61, 67, 71, 73, 79, 83, 89, 97, 101, 103, 107, 109, 113, 127, 131])
  {
    Roots16();
    Roots20();
    Roots24();
    Roots28();
    hide CubeRootBits;
  }

  lemma RootsOf32()
    ensures CubeRoots(32, [137, 139, 149, 151, 157, 163, 167, 173, 179, 181, 191, 193, 197, 199, 211, 223])
  {
    Roots32();
    Roots36();
    Roots40();
    Roots44();
    hide CubeRootBits;
  }

  lemma RootsOf48()
    ensures CubeRoots(48, [227, 229, 233, 239, 241, 251, 257, 263, 269, 271, 277, 281, 283, 293, 307, 311])
  {
    Roots48();
    Roots52();
    Roots56();
    Roots60();
    hide CubeRootBits;
  }

  lemma RootsOf64()
    ensures CubeRoots(64, [313, 317, 331, 337, 347, 349, 353, 359, 367, 373, 379, 383, 389, 397, 401, 409])
  {
    Roots64();
    Roots68();
    Roots72();
    Roots76();
    hide CubeRootBits;
  }

  lemma Roots0()
    ensures CubeRootBits(2, K512[0]) && CubeRootBits(3, K512[1])
    ensures CubeRootBits(5, K512[2]) && CubeRootBits(7, K512[3])
  {
  }

  lemma Roots4()
    ensures CubeRootBits(11, K512[4]) && CubeRootBits(13, K512[5])
    ensures CubeRootBits(17, K512[6]) && CubeRootBits(19, K512[7])
  {
  }

  lemma Roots8()
    ensures CubeRootBits(23, K512[8]) && CubeRootBits(29, K512[9])
    ensures CubeRootBits(31, K512[10]) && CubeRootBits(37, K512[11])
  {
  }

  lemma Roots12()
    ensures CubeRootBits(41, K512[12]) && CubeRootBits(43, K512[13])
    ensures CubeRootBits(47, K512[14]) && CubeRootBits(53, K512[15])
  {
  }

  lemma Roots16()
    ensures CubeRootBits(59, K512[16]) && CubeRootBits(61, K512[17])
    ensures CubeRootBits(67, K512[18]) && CubeRootBits(71, K512[19])
  {
  }

  lemma Roots20()
    ensures CubeRootBits(73, K512[20]) && CubeRootBits(79, K512[21])
    ensures CubeRootBits(83, K512[22]) && CubeRootBits(89, K512[23])
  {
  }

  lemma Roots24()
    ensures CubeRootBits(97, K512[24]) && CubeRootBits(101, K512[25])
    ensures CubeRootBits(103, K512[26]) && CubeRootBits(107, K512[27])
  {
  }

  lemma Roots28()
    ensures CubeRootBits(109, K512[28]) && CubeRootBits(113, K512[29])
    ensures CubeRootBits(127, K512[30]) && CubeRootBits(131, K512[31])
  {
  }

  lemma Roots32()
    ensures CubeRootBits(137, K512[32]) && CubeRootBits(139, K512[33])
    ensures CubeRootBits(149, K512[34]) && CubeRootBits(151, K512[35])
  {
  }

  lemma Roots36()
    ensures CubeRootBits(157, K512[36]) && CubeRootBits(163, K512[37])
    ensures CubeRootBits(167, K512[38]) && CubeRootBits(173, K512[39])
  {
  }

  lemma Roots40()
    ensures CubeRootBits(179, K512[40]) && CubeRootBits(181, K512[41])
    ensures CubeRootBits(191, K512[42]) && CubeRootBits(193, K512[43])
  {
  }

  lemma Roots44()
    ensures CubeRootBits(197, K512[44]) && CubeRootBits(199, K512[45])
    ensures CubeRootBits(211, K512[46]) && CubeRootBits(223, K512[47])
  {
  }

  lemma Roots48()
    ensures CubeRootBits(227, K512[48]) && CubeRootBits(229, K512[49])
    ensures CubeRootBits(233, K512[50]) && CubeRootBits(239, K512[51])
  {
  }

  lemma Roots52()
    ensures CubeRootBits(241, K512[52]) && CubeRootBits(251, K512[53])
    ensures CubeRootBits(257, K512[54]) && CubeRootBits(263, K512[55])
  {
  }

  lemma Roots56()
    ensures CubeRootBits(269, K512[56]) && CubeRootBits(271, K512[57])
    ensures CubeRootBits(277, K512[58]) && CubeRootBits(281, K512[59])
  {
  }

  lemma Roots60()
    ensures CubeRootBits(283, K512[60]) && CubeRootBits(293, K512[61])
    ensures CubeRootBits(307, K512[62]) && CubeRootBits(311, K512[63])
  {
  }

  lemma Roots64()
    ensures CubeRootBits(313, K512[64]) && CubeRootBits(317, K512[65])
    ensures CubeRootBits(331, K512[66]) && CubeRootBits(337, K512[67])
  {
  }

  lemma Roots68()
    ensures CubeRootBits(347, K512[68]) && CubeRootBits(349, K512[69])
    ensures CubeRootBits(353, K512[70]) && CubeRootBits(359, K512[71])
  {
  }

  lemma Roots72()
    ensures CubeRootBits(367, K512[72]) && CubeRootBits(373, K512[73])
    ensures CubeRootBits(379, K512[74]) && CubeRootBits(383, K512[75])
  {
  }

  lemma Roots76()
    ensures CubeRootBits(389, K512[76]) && CubeRootBits(397, K512[77])
    ensures CubeRootBits(401, K512[78]) && CubeRootBits(409, K512[79])
  {
  }

  // ----- The initial values.

  // The whole part of the square root, for p < 64.
  function SquareRoot(p: nat): nat {
    if p < 4 then 1 else if p < 9 then 2 else if p < 16 then 3 else if p < 25 then 4
    else if p < 36 then 5 else if p < 49 then 6 else 7
  }

  predicate SquareRootBits(p: nat, k: bv64) {
    var x := SquareRoot(p) * TWO64 + k as nat;
    x * x <= p * (TWO64 * TWO64) < (x + 1) * (x + 1)
  }

  /** Section 5.3: SHA-512 starts from the first 64 bits of the fractional parts of the square roots of the first eight
      primes, and SHA-384 from those of the next eight. */
  lemma InitialValues512()
    ensures SquareRootBits(2, H512.a) && SquareRootBits(3, H512.b) && SquareRootBits(5, H512.c)
    ensures SquareRootBits(7, H512.d) && SquareRootBits(11, H512.e) && SquareRootBits(13, H512.f)
    ensures SquareRootBits(17, H512.g) && SquareRootBits(19, H512.h)
  {
  }

  lemma InitialValues384()
    ensures SquareRootBits(23, H384.a) && SquareRootBits(29, H384.b) && SquareRootBits(31, H384.c)
    ensures SquareRootBits(37, H384.d) && SquareRootBits(41, H384.e) && SquareRootBits(43, H384.f)
    ensures SquareRootBits(47, H384.g) && SquareRootBits(53, H384.h)
  {
  }

  function Highs(r: Regs<bv64>): Regs<bv32> {
    Regs((r.a >> 32) as bv32, (r.b >> 32) as bv32, (r.c >> 32) as bv32, (r.d >> 32) as bv32,
         (r.e >> 32) as bv32, (r.f >> 32) as bv32, (r.g >> 32) as bv32, (r.h >> 32) as bv32)
  }

  function Lows(r: Regs<bv64>): Regs<bv32> {
    Regs((r.a & 0xffff_ffff) as bv32, (r.b & 0xffff_ffff) as bv32, (r.c & 0xffff_ffff) as bv32,
         (r.d & 0xffff_ffff) as bv32, (r.e & 0xffff_ffff) as bv32, (r.f & 0xffff_ffff) as bv32,
         (r.g & 0xffff_ffff) as bv32, (r.h & 0xffff_ffff) as bv32)
  }

  /** SHA-256 starts from the first 32 of these bits, SHA-224 from the second 32 of SHA-384's. */
  lemma InitialValues32()
    ensures H256 == Highs(H512) && H224 == Lows(H384)
  {
  }

  // ----- The word operations of section 4.1.

  // ch selects by the bits of x, and maj takes the bit that at least two have.
  lemma Choices32(x: bv32, y: bv32, z: bv32)
    ensures Ch32(x, y, z) == (x & y) | (!x & z)
    ensures Maj32(x, y, z) == (x & y) | ((x | y) & z)
    ensures Add32(x, y) == x + y
  {
  }

  lemma Choices64(x: bv64, y: bv64, z: bv64)
    ensures Ch64(x, y, z) == (x & y) | (!x & z)
    ensures Maj64(x, y, z) == (x & y) | ((x | y) & z)
    ensures Add64(x, y) == x + y
  {
  }

  // Where the sigma functions move the lowest and the highest bit.
  lemma SigmaImages32()
    ensures BigSigma0x32(1) == 0x4008_0400 && BigSigma0x32(0x8000_0000) == 0x2004_0200
    ensures BigSigma1x32(1) == 0x0420_0080 && BigSigma1x32(0x8000_0000) == 0x0210_0040
    ensures Sigma0x32(1) == 0x0200_4000 && Sigma0x32(0x8000_0000) == 0x1100_2000
    ensures Sigma1x32(1) == 0x0000_a000 && Sigma1x32(0x8000_0000) == 0x0020_5000
  {
  }

  lemma SigmaImages64()
    ensures BigSigma0x64(1) == 0x0000_0010_4200_0000 && BigSigma0x64(0x8000_0000_0000_0000) == 0x0000_0008_2100_0000
    ensures BigSigma1x64(1) == 0x0004_4000_0080_0000 && BigSigma1x64(0x8000_0000_0000_0000) == 0x0002_2000_0040_0000
    ensures Sigma0x64(1) == 0x8100_0000_0000_0000 && Sigma0x64(0x8000_0000_0000_0000) == 0x4180_0000_0000_0000
    ensures Sigma1x64(1) == 0x0000_2000_0000_0008 && Sigma1x64(0x8000_0000_0000_0000) == 0x0200_1000_0000_0004
  {
  }

  /** Words are stored high-order byte first, and storing and loading are inverse. */
  lemma PackUnpack64(x: bv64, s: seq<byte>)
    requires |s| == 8
    ensures Pack64(Unpack64(x)) == x && Unpack64(Pack64(s)) == s
  {
  }

  lemma HighByteFirst()
    ensures Unpack64(0x0102_0304_0506_0708) == [1, 2, 3, 4, 5, 6, 7, 8] && Unpack32(0x0102_0304) == [1, 2, 3, 4]
  {
  }
}
