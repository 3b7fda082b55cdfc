/** The members of the SHA-2 family in hmac/sha2.c: macros, round constants and initial values. */
module Sha2Suites {
  import opened Bytes
  import opened Fips180

  function Rotr32(x: bv32, n: bv32): bv32
    requires 0 < n < 32
  {
    (x >> n) | (x << (32 - n))
  }

  function Add32(x: bv32, y: bv32): bv32 { x + y }

  function Ch32(x: bv32, y: bv32, z: bv32): bv32 { (x & y) ^ (!x & z) }

  function Maj32(x: bv32, y: bv32, z: bv32): bv32 { (x & y) ^ (x & z) ^ (y & z) }

  // SHA256_F1 .. SHA256_F4
  function BigSigma0x32(x: bv32): bv32 { Rotr32(x, 2) ^ Rotr32(x, 13) ^ Rotr32(x, 22) }

  function BigSigma1x32(x: bv32): bv32 { Rotr32(x, 6) ^ Rotr32(x, 11) ^ Rotr32(x, 25) }

  function Sigma0x32(x: bv32): bv32 { Rotr32(x, 7) ^ Rotr32(x, 18) ^ (x >> 3) }

  function Sigma1x32(x: bv32): bv32 { Rotr32(x, 17) ^ Rotr32(x, 19) ^ (x >> 10) }

  // The macros UNPACK32 and PACK32: big-endian order.
  function Unpack32(x: bv32): (s: seq<byte>)
    ensures |s| == 4
  {
    [((x >> 24) & 0xFF) as byte, ((x >> 16) & 0xFF) as byte, ((x >> 8) & 0xFF) as byte, (x & 0xFF) as byte]
  }

  // Only the first 4 bytes of s matter; a shorter s never occurs.
  function Pack32(s: seq<byte>): bv32 {
    if |s| < 4 then 0 else
    ((s[0] as bv32) << 24) | ((s[1] as bv32) << 16) | ((s[2] as bv32) << 8) | (s[3] as bv32)
  }

  const K256: seq<bv32> :=
    [0x428a_2f98, 0x7137_4491, 0xb5c0_fbcf, 0xe9b5_dba5, 0x3956_c25b, 0x59f1_11f1, 0x923f_82a4, 0xab1c_5ed5,
     0xd807_aa98, 0x1283_5b01, 0x2431_85be, 0x550c_7dc3, 0x72be_5d74, 0x80de_b1fe, 0x9bdc_06a7, 0xc19b_f174] +
    [0xe49b_69c1, 0xefbe_4786, 0x0fc1_9dc6, 0x240c_a1cc, 0x2de9_2c6f, 0x4a74_84aa, 0x5cb0_a9dc, 0x76f9_88da,
     0x983e_5152, 0xa831_c66d, 0xb003_27c8, 0xbf59_7fc7, 0xc6e0_0bf3, 0xd5a7_9147, 0x06ca_6351, 0x1429_2967] +
    [0x27b7_0a85, 0x2e1b_2138, 0x4d2c_6dfc, 0x5338_0d13, 0x650a_7354, 0x766a_0abb, 0x81c2_c92e, 0x9272_2c85,
     0xa2bf_e8a1, 0xa81a_664b, 0xc24b_8b70, 0xc76c_51a3, 0xd192_e819, 0xd699_0624, 0xf40e_3585, 0x106a_a070] +
    [0x19a4_c116, 0x1e37_6c08, 0x2748_774c, 0x34b0_bcb5, 0x391c_0cb3, 0x4ed8_aa4a, 0x5b9c_ca4f, 0x682e_6ff3,
     0x748f_82ee, 0x78a5_636f, 0x84c8_7814, 0x8cc7_0208, 0x90be_fffa, 0xa450_6ceb, 0xbef9_a3f7, 0xc671_78f2]

  const SHA256: Suite<bv32> :=
    Suite(false, 64, K256, Add32, BigSigma0x32, BigSigma1x32, Sigma0x32, Sigma1x32, Ch32, Maj32, Pack32, Unpack32)

  const H224: Regs<bv32> :=
    Regs(0xc105_9ed8, 0x367c_d507, 0x3070_dd17, 0xf70e_5939,
         0xffc0_0b31, 0x6858_1511, 0x64f9_8fa7, 0xbefa_4fa4)

  const H256: Regs<bv32> :=
    Regs(0x6a09_e667, 0xbb67_ae85, 0x3c6e_f372, 0xa54f_f53a,
         0x510e_527f, 0x9b05_688c, 0x1f83_d9ab, 0x5be0_cd19)

  function Rotr64(x: bv64, n: bv64): bv64
    requires 0 < n < 64
  {
    (x >> n) | (x << (64 - n))
  }

  function Add64(x: bv64, y: bv64): bv64 { x + y }

  function Ch64(x: bv64, y: bv64, z: bv64): bv64 { (x & y) ^ (!x & z) }

  function Maj64(x: bv64, y: bv64, z: bv64): bv64 { (x & y) ^ (x & z) ^ (y & z) }

  // SHA512_F1 .. SHA512_F4
  function BigSigma0x64(x: bv64): bv64 { Rotr64(x, 28) ^ Rotr64(x, 34) ^ Rotr64(x, 39) }

  function BigSigma1x64(x: bv64): bv64 { Rotr64(x, 14) ^ Rotr64(x, 18) ^ Rotr64(x, 41) }

  function Sigma0x64(x: bv64): bv64 { Rotr64(x, 1) ^ Rotr64(x, 8) ^ (x >> 7) }

  function Sigma1x64(x: bv64): bv64 { Rotr64(x, 19) ^ Rotr64(x, 61) ^ (x >> 6) }

  // The macros UNPACK64 and PACK64: big-endian order.
  function Unpack64(x: bv64): (s: seq<byte>)
    ensures |s| == 8
  {
    [((x >> 56) & 0xFF) as byte, ((x >> 48) & 0xFF) as byte, ((x >> 40) & 0xFF) as byte, ((x >> 32) & 0xFF) as byte,
     ((x >> 24) & 0xFF) as byte, ((x >> 16) & 0xFF) as byte, ((x >> 8) & 0xFF) as byte, (x & 0xFF) as byte]
  }

  // Only the first 8 bytes of s matter; a shorter s never occurs.
  function Pack64(s: seq<byte>): bv64 {
    if |s| < 8 then 0 else
    ((s[0] as bv64) << 56) | ((s[1] as bv64) << 48) | ((s[2] as bv64) << 40) | ((s[3] as bv64) << 32)
    | ((s[4] as bv64) << 24) | ((s[5] as bv64) << 16) | ((s[6] as bv64) << 8) | (s[7] as bv64)
  }

  const K512: seq<bv64> :=
    [0x428a_2f98_d728_ae22, 0x7137_4491_23ef_65cd, 0xb5c0_fbcf_ec4d_3b2f, 0xe9b5_dba5_8189_dbbc,
     0x3956_c25b_f348_b538, 0x59f1_11f1_b605_d019, 0x923f_82a4_af19_4f9b, 0xab1c_5ed5_da6d_8118,
     0xd807_aa98_a303_0242, 0x1283_5b01_4570_6fbe, 0x2431_85be_4ee4_b28c, 0x550c_7dc3_d5ff_b4e2,
     0x72be_5d74_f27b_896f, 0x80de_b1fe_3b16_96b1, 0x9bdc_06a7_25c7_1235, 0xc19b_f174_cf69_2694] +
    [0xe49b_69c1_9ef1_4ad2, 0xefbe_4786_384f_25e3, 0x0fc1_9dc6_8b8c_d5b5, 0x240c_a1cc_77ac_9c65,
     0x2de9_2c6f_592b_0275, 0x4a74_84aa_6ea6_e483, 0x5cb0_a9dc_bd41_fbd4, 0x76f9_88da_8311_53b5,
     0x983e_5152_ee66_dfab, 0xa831_c66d_2db4_3210, 0xb003_27c8_98fb_213f, 0xbf59_7fc7_beef_0ee4,
     0xc6e0_0bf3_3da8_8fc2, 0xd5a7_9147_930a_a725, 0x06ca_6351_e003_826f, 0x1429_2967_0a0e_6e70] +
    [0x27b7_0a85_46d2_2ffc, 0x2e1b_2138_5c26_c926, 0x4d2c_6dfc_5ac4_2aed, 0x5338_0d13_9d95_b3df,
     0x650a_7354_8baf_63de, 0x766a_0abb_3c77_b2a8, 0x81c2_c92e_47ed_aee6, 0x9272_2c85_1482_353b,
     0xa2bf_e8a1_4cf1_0364, 0xa81a_664b_bc42_3001, 0xc24b_8b70_d0f8_9791, 0xc76c_51a3_0654_be30,
     0xd192_e819_d6ef_5218, 0xd699_0624_5565_a910, 0xf40e_3585_5771_202a, 0x106a_a070_32bb_d1b8] +
    [0x19a4_c116_b8d2_d0c8, 0x1e37_6c08_5141_ab53, 0x2748_774c_df8e_eb99, 0x34b0_bcb5_e19b_48a8,
     0x391c_0cb3_c5c9_5a63, 0x4ed8_aa4a_e341_8acb, 0x5b9c_ca4f_7763_e373, 0x682e_6ff3_d6b2_b8a3,
     0x748f_82ee_5def_b2fc, 0x78a5_636f_4317_2f60, 0x84c8_7814_a1f0_ab72, 0x8cc7_0208_1a64_39ec,
     0x90be_fffa_2363_1e28, 0xa450_6ceb_de82_bde9, 0xbef9_a3f7_b2c6_7915, 0xc671_78f2_e372_532b] +
    [0xca27_3ece_ea26_619c, 0xd186_b8c7_21c0_c207, 0xeada_7dd6_cde0_eb1e, 0xf57d_4f7f_ee6e_d178,
     0x06f0_67aa_7217_6fba, 0x0a63_7dc5_a2c8_98a6, 0x113f_9804_bef9_0dae, 0x1b71_0b35_131c_471b,
     0x28db_77f5_2304_7d84, 0x32ca_ab7b_40c7_2493, 0x3c9e_be0a_15c9_bebc, 0x431d_67c4_9c10_0d4c,
     0x4cc5_d4be_cb3e_42b6, 0x597f_299c_fc65_7e2a, 0x5fcb_6fab_3ad6_faec, 0x6c44_198c_4a47_5817]

  const SHA512: Suite<bv64> :=
    Suite(true, 80, K512, Add64, BigSigma0x64, BigSigma1x64, Sigma0x64, Sigma1x64, Ch64, Maj64, Pack64, Unpack64)

  const H384: Regs<bv64> :=
    Regs(0xcbbb_9d5d_c105_9ed8, 0x629a_292a_367c_d507, 0x9159_015a_3070_dd17,
         0x152f_ecd8_f70e_5939, 0x6733_2667_ffc0_0b31, 0x8eb4_4a87_6858_1511,
         0xdb0c_2e0d_64f9_8fa7, 0x47b5_481d_befa_4fa4)

  const H512: Regs<bv64> :=
    Regs(0x6a09_e667_f3bc_c908, 0xbb67_ae85_84ca_a73b, 0x3c6e_f372_fe94_f82b,
         0xa54f_f53a_5f1d_36f1, 0x510e_527f_ade6_82d1, 0x9b05_688c_2b3e_6c1f,
         0x1f83_d9ab_fb41_bd6b, 0x5be0_cd19_137e_2179)

  lemma SuitesValid()
    ensures SHA256.Valid() && SHA512.Valid()
  {
  }

  /** A word survives the trip through its big-endian bytes, and the other way round. */
  lemma PackUnpack32(x: bv32, s: seq<byte>)
    requires |s| == 4
    ensures Pack32(Unpack32(x)) == x
    ensures Unpack32(Pack32(s)) == s
  {
  }
}
