/**
  MD5 evaluated: one digest of the test suite in section A.5 of RFC 1321.
 */
module Md5Example {
  import opened Md5

  /** The letters a to z. */
  const ALPHABET: seq<bv8> := [
    0x61, 0x62, 0x63, 0x64, 0x65, 0x66, 0x67, 0x68, 0x69, 0x6a, 0x6b, 0x6c, 0x6d,
    0x6e, 0x6f, 0x70, 0x71, 0x72, 0x73, 0x74, 0x75, 0x76, 0x77, 0x78, 0x79, 0x7a]

  /** The words of its only block. */
  const WORDS: seq<bv32> := [
    0x6463_6261, 0x6867_6665, 0x6c6b_6a69, 0x706f_6e6d,
    0x7473_7271, 0x7877_7675, 0x0080_7a79, 0x0000_0000,
    0x0000_0000, 0x0000_0000, 0x0000_0000, 0x0000_0000,
    0x0000_0000, 0x0000_0000, 0x0000_00d0, 0x0000_0000]

  // The registers after every fourth operation.

  const S0: Registers := [0x6745_2301, 0xefcd_ab89, 0x98ba_dcfe, 0x1032_5476]
  const S4: Registers := [0xd6d1_17a6, 0x4503_b812, 0x227d_8cf1, 0xaab1_aaaa]
  const S8: Registers := [0xfe15_f787, 0xda9b_bb0d, 0xb711_22fc, 0xa811_b278]
  const S12: Registers := [0xae75_2899, 0x56cf_a5cb, 0x7d4b_d80b, 0x2bbe_757f]
  const S16: Registers := [0x1754_a316, 0x608d_6b7e, 0x00df_74d5, 0x8556_7d90]
  const S20: Registers := [0x2d80_71cc, 0x4c21_45b3, 0xedfe_7e4b, 0x5dce_e119]
  const S24: Registers := [0x570c_43e0, 0xc9f1_62d4, 0xc28a_b49d, 0x977e_fd2a]
  const S28: Registers := [0x25bf_ae3b, 0xe6d3_b398, 0xf8c8_365f, 0x8998_0104]
  const S32: Registers := [0xf54d_8710, 0xaeb3_5766, 0x2e69_afc7, 0x927b_72e2]
  const S36: Registers := [0xb4bf_680e, 0x06a5_e211, 0x2361_ed0a, 0x4c8f_fa80]
  const S40: Registers := [0xb9c0_c733, 0x8d41_bf99, 0x23a9_451b, 0xf1e6_dc7a]
  const S44: Registers := [0xa3e8_8ead, 0x90a3_5af5, 0x66f6_468d, 0x02c0_b11c]
  const S48: Registers := [0xb5d4_1f9c, 0x71d1_0367, 0x703d_54d8, 0xa04b_4904]
  const S52: Registers := [0xfc32_dd6e, 0x33ed_b197, 0xb356_02cb, 0x6545_6b34]
  const S56: Registers := [0xc1e9_42f1, 0x8387_7d1b, 0x23a6_8048, 0xd9bb_987c]
  const S60: Registers := [0x0077_c208, 0x5e6b_c930, 0xa3e2_247f, 0x847f_c2e7]
  const S64: Registers := [0x708e_d9c2, 0x1116_e6d8, 0xd38f_1e7f, 0x2baf_1354]

  /** Operation i, on register k. */
  lemma Advance(r: Registers, i: nat, k: nat, v: bv32)
    requires i < 64 && k == (4 - i % 4) % 4
    requires v == Changed(r[k], r[(k + 1) % 4], r[(k + 2) % 4], r[(k + 3) % 4], WORDS, i)
    ensures Operations(r, WORDS, i) == Operations(r[k := v], WORDS, i + 1)
  {
    hide Changed;
  }

  lemma Entries0()
    ensures Sine(0) == 0xd76a_a478 && WORDS[WordOf(0)] == 0x6463_6261 && RotationOf(0) == 7
    ensures Sine(1) == 0xe8c7_b756 && WORDS[WordOf(1)] == 0x6867_6665 && RotationOf(1) == 12
    ensures Sine(2) == 0x2420_70db && WORDS[WordOf(2)] == 0x6c6b_6a69 && RotationOf(2) == 17
    ensures Sine(3) == 0xc1bd_ceee && WORDS[WordOf(3)] == 0x706f_6e6d && RotationOf(3) == 22
  {
  }

  lemma Values0()
    ensures Changed(0x6745_2301, 0xefcd_ab89, 0x98ba_dcfe, 0x1032_5476, WORDS, 0) == 0xd6d1_17a6
    ensures Changed(0x1032_5476, 0xd6d1_17a6, 0xefcd_ab89, 0x98ba_dcfe, WORDS, 1) == 0xaab1_aaaa
    ensures Changed(0x98ba_dcfe, 0xaab1_aaaa, 0xd6d1_17a6, 0xefcd_ab89, WORDS, 2) == 0x227d_8cf1
    ensures Changed(0xefcd_ab89, 0x227d_8cf1, 0xaab1_aaaa, 0xd6d1_17a6, WORDS, 3) == 0x4503_b812
  {
    Entries0();
    hide Sine, WordOf, RotationOf;
  }

  lemma From0()
    ensures Operations(S0, WORDS, 0) == Operations(S4, WORDS, 4)
  {
    hide Changed, Operations;
    Values0();
    Advance(S0, 0, 0, 0xd6d1_17a6);
    var r := S0[0 := 0xd6d1_17a6];
    Advance(r, 1, 3, 0xaab1_aaaa);
    r := r[3 := 0xaab1_aaaa];
    Advance(r, 2, 2, 0x227d_8cf1);
    r := r[2 := 0x227d_8cf1];
    Advance(r, 3, 1, 0x4503_b812);
    assert r[1 := 0x4503_b812] == S4;
  }

  lemma Entries4()
    ensures Sine(4) == 0xf57c_0faf && WORDS[WordOf(4)] == 0x7473_7271 && RotationOf(4) == 7
    ensures Sine(5) == 0x4787_c62a && WORDS[WordOf(5)] == 0x7877_7675 && RotationOf(5) == 12
    ensures Sine(6) == 0xa830_4613 && WORDS[WordOf(6)] == 0x0080_7a79 && RotationOf(6) == 17
    ensures Sine(7) == 0xfd46_9501 && WORDS[WordOf(7)] == 0x0000_0000 && RotationOf(7) == 22
  {
  }

  lemma Values4()
    ensures Changed(0xd6d1_17a6, 0x4503_b812, 0x227d_8cf1, 0xaab1_aaaa, WORDS, 4) == 0xfe15_f787
    ensures Changed(0xaab1_aaaa, 0xfe15_f787, 0x4503_b812, 0x227d_8cf1, WORDS, 5) == 0xa811_b278
    ensures Changed(0x227d_8cf1, 0xa811_b278, 0xfe15_f787, 0x4503_b812, WORDS, 6) == 0xb711_22fc
    ensures Changed(0x4503_b812, 0xb711_22fc, 0xa811_b278, 0xfe15_f787, WORDS, 7) == 0xda9b_bb0d
  {
    Entries4();
    hide Sine, WordOf, RotationOf;
  }

  lemma From4()
    ensures Operations(S4, WORDS, 4) == Operations(S8, WORDS, 8)
  {
    hide Changed, Operations;
    Values4();
    Advance(S4, 4, 0, 0xfe15_f787);
    var r := S4[0 := 0xfe15_f787];
    Advance(r, 5, 3, 0xa811_b278);
    r := r[3 := 0xa811_b278];
    Advance(r, 6, 2, 0xb711_22fc);
    r := r[2 := 0xb711_22fc];
    Advance(r, 7, 1, 0xda9b_bb0d);
    assert r[1 := 0xda9b_bb0d] == S8;
  }

  lemma Entries8()
    ensures Sine(8) == 0x6980_98d8 && WORDS[WordOf(8)] == 0x0000_0000 && RotationOf(8) == 7
    ensures Sine(9) == 0x8b44_f7af && WORDS[WordOf(9)] == 0x0000_0000 && RotationOf(9) == 12
    ensures Sine(10) == 0xffff_5bb1 && WORDS[WordOf(10)] == 0x0000_0000 && RotationOf(10) == 17
    ensures Sine(11) == 0x895c_d7be && WORDS[WordOf(11)] == 0x0000_0000 && RotationOf(11) == 22
  {
  }

  lemma Values8()
    ensures Changed(0xfe15_f787, 0xda9b_bb0d, 0xb711_22fc, 0xa811_b278, WORDS, 8) == 0xae75_2899
    ensures Changed(0xa811_b278, 0xae75_2899, 0xda9b_bb0d, 0xb711_22fc, WORDS, 9) == 0x2bbe_757f
    ensures Changed(0xb711_22fc, 0x2bbe_757f, 0xae75_2899, 0xda9b_bb0d, WORDS, 10) == 0x7d4b_d80b
    ensures Changed(0xda9b_bb0d, 0x7d4b_d80b, 0x2bbe_757f, 0xae75_2899, WORDS, 11) == 0x56cf_a5cb
  {
    Entries8();
    hide Sine, WordOf, RotationOf;
  }

  lemma From8()
    ensures Operations(S8, WORDS, 8) == Operations(S12, WORDS, 12)
  {
    hide Changed, Operations;
    Values8();
    Advance(S8, 8, 0, 0xae75_2899);
    var r := S8[0 := 0xae75_2899];
    Advance(r, 9, 3, 0x2bbe_757f);
    r := r[3 := 0x2bbe_757f];
    Advance(r, 10, 2, 0x7d4b_d80b);
    r := r[2 := 0x7d4b_d80b];
    Advance(r, 11, 1, 0x56cf_a5cb);
    assert r[1 := 0x56cf_a5cb] == S12;
  }

  lemma Entries12()
    ensures Sine(12) == 0x6b90_1122 && WORDS[WordOf(12)] == 0x0000_0000 && RotationOf(12) == 7
    ensures Sine(13) == 0xfd98_7193 && WORDS[WordOf(13)] == 0x0000_0000 && RotationOf(13) == 12
    ensures Sine(14) == 0xa679_438e && WORDS[WordOf(14)] == 0x0000_00d0 && RotationOf(14) == 17
    ensures Sine(15) == 0x49b4_0821 && WORDS[WordOf(15)] == 0x0000_0000 && RotationOf(15) == 22
  {
  }

  lemma Values12()
    ensures Changed(0xae75_2899, 0x56cf_a5cb, 0x7d4b_d80b, 0x2bbe_757f, WORDS, 12) == 0x1754_a316
    ensures Changed(0x2bbe_757f, 0x1754_a316, 0x56cf_a5cb, 0x7d4b_d80b, WORDS, 13) == 0x8556_7d90
    ensures Changed(0x7d4b_d80b, 0x8556_7d90, 0x1754_a316, 0x56cf_a5cb, WORDS, 14) == 0x00df_74d5
    ensures Changed(0x56cf_a5cb, 0x00df_74d5, 0x8556_7d90, 0x1754_a316, WORDS, 15) == 0x608d_6b7e
  {
    Entries12();
    hide Sine, WordOf, RotationOf;
  }

  lemma From12()
    ensures Operations(S12, WORDS, 12) == Operations(S16, WORDS, 16)
  {
    hide Changed, Operations;
    Values12();
    Advance(S12, 12, 0, 0x1754_a316);
    var r := S12[0 := 0x1754_a316];
    Advance(r, 13, 3, 0x8556_7d90);
    r := r[3 := 0x8556_7d90];
    Advance(r, 14, 2, 0x00df_74d5);
    r := r[2 := 0x00df_74d5];
    Advance(r, 15, 1, 0x608d_6b7e);
    assert r[1 := 0x608d_6b7e] == S16;
  }

  lemma Entries16()
    ensures Sine(16) == 0xf61e_2562 && WORDS[WordOf(16)] == 0x6867_6665 && RotationOf(16) == 5
    ensures Sine(17) == 0xc040_b340 && WORDS[WordOf(17)] == 0x0080_7a79 && RotationOf(17) == 9
    ensures Sine(18) == 0x265e_5a51 && WORDS[WordOf(18)] == 0x0000_0000 && RotationOf(18) == 14
    ensures Sine(19) == 0xe9b6_c7aa && WORDS[WordOf(19)] == 0x6463_6261 && RotationOf(19) == 20
  {
  }

  lemma Values16()
    ensures Changed(0x1754_a316, 0x608d_6b7e, 0x00df_74d5, 0x8556_7d90, WORDS, 16) == 0x2d80_71cc
    ensures Changed(0x8556_7d90, 0x2d80_71cc, 0x608d_6b7e, 0x00df_74d5, WORDS, 17) == 0x5dce_e119
    ensures Changed(0x00df_74d5, 0x5dce_e119, 0x2d80_71cc, 0x608d_6b7e, WORDS, 18) == 0xedfe_7e4b
    ensures Changed(0x608d_6b7e, 0xedfe_7e4b, 0x5dce_e119, 0x2d80_71cc, WORDS, 19) == 0x4c21_45b3
  {
    Entries16();
    hide Sine, WordOf, RotationOf;
  }

  lemma From16()
    ensures Operations(S16, WORDS, 16) == Operations(S20, WORDS, 20)
  {
    hide Changed, Operations;
    Values16();
    Advance(S16, 16, 0, 0x2d80_71cc);
    var r := S16[0 := 0x2d80_71cc];
    Advance(r, 17, 3, 0x5dce_e119);
    r := r[3 := 0x5dce_e119];
    Advance(r, 18, 2, 0xedfe_7e4b);
    r := r[2 := 0xedfe_7e4b];
    Advance(r, 19, 1, 0x4c21_45b3);
    assert r[1 := 0x4c21_45b3] == S20;
  }

  lemma Entries20()
    ensures Sine(20) == 0xd62f_105d && WORDS[WordOf(20)] == 0x7877_7675 && RotationOf(20) == 5
    ensures Sine(21) == 0x0244_1453 && WORDS[WordOf(21)] == 0x0000_0000 && RotationOf(21) == 9
    ensures Sine(22) == 0xd8a1_e681 && WORDS[WordOf(22)] == 0x0000_0000 && RotationOf(22) == 14
    ensures Sine(23) == 0xe7d3_fbc8 && WORDS[WordOf(23)] == 0x7473_7271 && RotationOf(23) == 20
  {
  }

  lemma Values20()
    ensures Changed(0x2d80_71cc, 0x4c21_45b3, 0xedfe_7e4b, 0x5dce_e119, WORDS, 20) == 0x570c_43e0
    ensures Changed(0x5dce_e119, 0x570c_43e0, 0x4c21_45b3, 0xedfe_7e4b, WORDS, 21) == 0x977e_fd2a
    ensures Changed(0xedfe_7e4b, 0x977e_fd2a, 0x570c_43e0, 0x4c21_45b3, WORDS, 22) == 0xc28a_b49d
    ensures Changed(0x4c21_45b3, 0xc28a_b49d, 0x977e_fd2a, 0x570c_43e0, WORDS, 23) == 0xc9f1_62d4
  {
    Entries20();
    hide Sine, WordOf, RotationOf;
  }

  lemma From20()
    ensures Operations(S20, WORDS, 20) == Operations(S24, WORDS, 24)
  {
    hide Changed, Operations;
    Values20();
    Advance(S20, 20, 0, 0x570c_43e0);
    var r := S20[0 := 0x570c_43e0];
    Advance(r, 21, 3, 0x977e_fd2a);
    r := r[3 := 0x977e_fd2a];
    Advance(r, 22, 2, 0xc28a_b49d);
    r := r[2 := 0xc28a_b49d];
    Advance(r, 23, 1, 0xc9f1_62d4);
    assert r[1 := 0xc9f1_62d4] == S24;
  }

  lemma Entries24()
    ensures Sine(24) == 0x21e1_cde6 && WORDS[WordOf(24)] == 0x0000_0000 && RotationOf(24) == 5
    ensures Sine(25) == 0xc337_07d6 && WORDS[WordOf(25)] == 0x0000_00d0 && RotationOf(25) == 9
    ensures Sine(26) == 0xf4d5_0d87 && WORDS[WordOf(26)] == 0x706f_6e6d && RotationOf(26) == 14
    ensures Sine(27) == 0x455a_14ed && WORDS[WordOf(27)] == 0x0000_0000 && RotationOf(27) == 20
  {
  }

  lemma Values24()
    ensures Changed(0x570c_43e0, 0xc9f1_62d4, 0xc28a_b49d, 0x977e_fd2a, WORDS, 24) == 0x25bf_ae3b
    ensures Changed(0x977e_fd2a, 0x25bf_ae3b, 0xc9f1_62d4, 0xc28a_b49d, WORDS, 25) == 0x8998_0104
    ensures Changed(0xc28a_b49d, 0x8998_0104, 0x25bf_ae3b, 0xc9f1_62d4, WORDS, 26) == 0xf8c8_365f
    ensures Changed(0xc9f1_62d4, 0xf8c8_365f, 0x8998_0104, 0x25bf_ae3b, WORDS, 27) == 0xe6d3_b398
  {
    Entries24();
    hide Sine, WordOf, RotationOf;
  }

  lemma From24()
    ensures Operations(S24, WORDS, 24) == Operations(S28, WORDS, 28)
  {
    hide Changed, Operations;
    Values24();
    Advance(S24, 24, 0, 0x25bf_ae3b);
    var r := S24[0 := 0x25bf_ae3b];
    Advance(r, 25, 3, 0x8998_0104);
    r := r[3 := 0x8998_0104];
    Advance(r, 26, 2, 0xf8c8_365f);
    r := r[2 := 0xf8c8_365f];
    Advance(r, 27, 1, 0xe6d3_b398);
    assert r[1 := 0xe6d3_b398] == S28;
  }

  lemma Entries28()
    ensures Sine(28) == 0xa9e3_e905 && WORDS[WordOf(28)] == 0x0000_0000 && RotationOf(28) == 5
    ensures Sine(29) == 0xfcef_a3f8 && WORDS[WordOf(29)] == 0x6c6b_6a69 && RotationOf(29) == 9
    ensures Sine(30) == 0x676f_02d9 && WORDS[WordOf(30)] == 0x0000_0000 && RotationOf(30) == 14
    ensures Sine(31) == 0x8d2a_4c8a && WORDS[WordOf(31)] == 0x0000_0000 && RotationOf(31) == 20
  {
  }

  lemma Values28()
    ensures Changed(0x25bf_ae3b, 0xe6d3_b398, 0xf8c8_365f, 0x8998_0104, WORDS, 28) == 0xf54d_8710
    ensures Changed(0x8998_0104, 0xf54d_8710, 0xe6d3_b398, 0xf8c8_365f, WORDS, 29) == 0x927b_72e2
    ensures Changed(0xf8c8_365f, 0x927b_72e2, 0xf54d_8710, 0xe6d3_b398, WORDS, 30) == 0x2e69_afc7
    ensures Changed(0xe6d3_b398, 0x2e69_afc7, 0x927b_72e2, 0xf54d_8710, WORDS, 31) == 0xaeb3_5766
  {
    Entries28();
    hide Sine, WordOf, RotationOf;
  }

  lemma From28()
    ensures Operations(S28, WORDS, 28) == Operations(S32, WORDS, 32)
  {
    hide Changed, Operations;
    Values28();
    Advance(S28, 28, 0, 0xf54d_8710);
    var r := S28[0 := 0xf54d_8710];
    Advance(r, 29, 3, 0x927b_72e2);
    r := r[3 := 0x927b_72e2];
    Advance(r, 30, 2, 0x2e69_afc7);
    r := r[2 := 0x2e69_afc7];
    Advance(r, 31, 1, 0xaeb3_5766);
    assert r[1 := 0xaeb3_5766] == S32;
  }

  lemma Entries32()
    ensures Sine(32) == 0xfffa_3942 && WORDS[WordOf(32)] == 0x7877_7675 && RotationOf(32) == 4
    ensures Sine(33) == 0x8771_f681 && WORDS[WordOf(33)] == 0x0000_0000 && RotationOf(33) == 11
    ensures Sine(34) == 0x6d9d_6122 && WORDS[WordOf(34)] == 0x0000_0000 && RotationOf(34) == 16
    ensures Sine(35) == 0xfde5_380c && WORDS[WordOf(35)] == 0x0000_00d0 && RotationOf(35) == 23
  {
  }

  lemma Values32()
    ensures Changed(0xf54d_8710, 0xaeb3_5766, 0x2e69_afc7, 0x927b_72e2, WORDS, 32) == 0xb4bf_680e
    ensures Changed(0x927b_72e2, 0xb4bf_680e, 0xaeb3_5766, 0x2e69_afc7, WORDS, 33) == 0x4c8f_fa80
    ensures Changed(0x2e69_afc7, 0x4c8f_fa80, 0xb4bf_680e, 0xaeb3_5766, WORDS, 34) == 0x2361_ed0a
    ensures Changed(0xaeb3_5766, 0x2361_ed0a, 0x4c8f_fa80, 0xb4bf_680e, WORDS, 35) == 0x06a5_e211
  {
    Entries32();
    hide Sine, WordOf, RotationOf;
  }

  lemma From32()
    ensures Operations(S32, WORDS, 32) == Operations(S36, WORDS, 36)
  {
    hide Changed, Operations;
    Values32();
    Advance(S32, 32, 0, 0xb4bf_680e);
    var r := S32[0 := 0xb4bf_680e];
    Advance(r, 33, 3, 0x4c8f_fa80);
    r := r[3 := 0x4c8f_fa80];
    Advance(r, 34, 2, 0x2361_ed0a);
    r := r[2 := 0x2361_ed0a];
    Advance(r, 35, 1, 0x06a5_e211);
    assert r[1 := 0x06a5_e211] == S36;
  }

  lemma Entries36()
    ensures Sine(36) == 0xa4be_ea44 && WORDS[WordOf(36)] == 0x6867_6665 && RotationOf(36) == 4
    ensures Sine(37) == 0x4bde_cfa9 && WORDS[WordOf(37)] == 0x7473_7271 && RotationOf(37) == 11
    ensures Sine(38) == 0xf6bb_4b60 && WORDS[WordOf(38)] == 0x0000_0000 && RotationOf(38) == 16
    ensures Sine(39) == 0xbebf_bc70 && WORDS[WordOf(39)] == 0x0000_0000 && RotationOf(39) == 23
  {
  }

  lemma Values36()
    ensures Changed(0xb4bf_680e, 0x06a5_e211, 0x2361_ed0a, 0x4c8f_fa80, WORDS, 36) == 0xb9c0_c733
    ensures Changed(0x4c8f_fa80, 0xb9c0_c733, 0x06a5_e211, 0x2361_ed0a, WORDS, 37) == 0xf1e6_dc7a
    ensures Changed(0x2361_ed0a, 0xf1e6_dc7a, 0xb9c0_c733, 0x06a5_e211, WORDS, 38) == 0x23a9_451b
    ensures Changed(0x06a5_e211, 0x23a9_451b, 0xf1e6_dc7a, 0xb9c0_c733, WORDS, 39) == 0x8d41_bf99
  {
    Entries36();
    hide Sine, WordOf, RotationOf;
  }

  lemma From36()
    ensures Operations(S36, WORDS, 36) == Operations(S40, WORDS, 40)
  {
    hide Changed, Operations;
    Values36();
    Advance(S36, 36, 0, 0xb9c0_c733);
    var r := S36[0 := 0xb9c0_c733];
    Advance(r, 37, 3, 0xf1e6_dc7a);
    r := r[3 := 0xf1e6_dc7a];
    Advance(r, 38, 2, 0x23a9_451b);
    r := r[2 := 0x23a9_451b];
    Advance(r, 39, 1, 0x8d41_bf99);
    assert r[1 := 0x8d41_bf99] == S40;
  }

  lemma Entries40()
    ensures Sine(40) == 0x289b_7ec6 && WORDS[WordOf(40)] == 0x0000_0000 && RotationOf(40) == 4
    ensures Sine(41) == 0xeaa1_27fa && WORDS[WordOf(41)] == 0x6463_6261 && RotationOf(41) == 11
    ensures Sine(42) == 0xd4ef_3085 && WORDS[WordOf(42)] == 0x706f_6e6d && RotationOf(42) == 16
    ensures Sine(43) == 0x0488_1d05 && WORDS[WordOf(43)] == 0x0080_7a79 && RotationOf(43) == 23
  {
  }

  lemma Values40()
    ensures Changed(0xb9c0_c733, 0x8d41_bf99, 0x23a9_451b, 0xf1e6_dc7a, WORDS, 40) == 0xa3e8_8ead
    ensures Changed(0xf1e6_dc7a, 0xa3e8_8ead, 0x8d41_bf99, 0x23a9_451b, WORDS, 41) == 0x02c0_b11c
    ensures Changed(0x23a9_451b, 0x02c0_b11c, 0xa3e8_8ead, 0x8d41_bf99, WORDS, 42) == 0x66f6_468d
    ensures Changed(0x8d41_bf99, 0x66f6_468d, 0x02c0_b11c, 0xa3e8_8ead, WORDS, 43) == 0x90a3_5af5
  {
    Entries40();
    hide Sine, WordOf, RotationOf;
  }

  lemma From40()
    ensures Operations(S40, WORDS, 40) == Operations(S44, WORDS, 44)
  {
    hide Changed, Operations;
    Values40();
    Advance(S40, 40, 0, 0xa3e8_8ead);
    var r := S40[0 := 0xa3e8_8ead];
    Advance(r, 41, 3, 0x02c0_b11c);
    r := r[3 := 0x02c0_b11c];
    Advance(r, 42, 2, 0x66f6_468d);
    r := r[2 := 0x66f6_468d];
    Advance(r, 43, 1, 0x90a3_5af5);
    assert r[1 := 0x90a3_5af5] == S44;
  }

  lemma Entries44()
    ensures Sine(44) == 0xd9d4_d039 && WORDS[WordOf(44)] == 0x0000_0000 && RotationOf(44) == 4
    ensures Sine(45) == 0xe6db_99e5 && WORDS[WordOf(45)] == 0x0000_0000 && RotationOf(45) == 11
    ensures Sine(46) == 0x1fa2_7cf8 && WORDS[WordOf(46)] == 0x0000_0000 && RotationOf(46) == 16
    ensures Sine(47) == 0xc4ac_5665 && WORDS[WordOf(47)] == 0x6c6b_6a69 && RotationOf(47) == 23
  {
  }

  lemma Values44()
    ensures Changed(0xa3e8_8ead, 0x90a3_5af5, 0x66f6_468d, 0x02c0_b11c, WORDS, 44) == 0xb5d4_1f9c
    ensures Changed(0x02c0_b11c, 0xb5d4_1f9c, 0x90a3_5af5, 0x66f6_468d, WORDS, 45) == 0xa04b_4904
    ensures Changed(0x66f6_468d, 0xa04b_4904, 0xb5d4_1f9c, 0x90a3_5af5, WORDS, 46) == 0x703d_54d8
    ensures Changed(0x90a3_5af5, 0x703d_54d8, 0xa04b_4904, 0xb5d4_1f9c, WORDS, 47) == 0x71d1_0367
  {
    Entries44();
    hide Sine, WordOf, RotationOf;
  }

  lemma From44()
    ensures Operations(S44, WORDS, 44) == Operations(S48, WORDS, 48)
  {
    hide Changed, Operations;
    Values44();
    Advance(S44, 44, 0, 0xb5d4_1f9c);
    var r := S44[0 := 0xb5d4_1f9c];
    Advance(r, 45, 3, 0xa04b_4904);
    r := r[3 := 0xa04b_4904];
    Advance(r, 46, 2, 0x703d_54d8);
    r := r[2 := 0x703d_54d8];
    Advance(r, 47, 1, 0x71d1_0367);
    assert r[1 := 0x71d1_0367] == S48;
  }

  lemma Entries48()
    ensures Sine(48) == 0xf429_2244 && WORDS[WordOf(48)] == 0x6463_6261 && RotationOf(48) == 6
    ensures Sine(49) == 0x432a_ff97 && WORDS[WordOf(49)] == 0x0000_0000 && RotationOf(49) == 10
    ensures Sine(50) == 0xab94_23a7 && WORDS[WordOf(50)] == 0x0000_00d0 && RotationOf(50) == 15
    ensures Sine(51) == 0xfc93_a039 && WORDS[WordOf(51)] == 0x7877_7675 && RotationOf(51) == 21
  {
  }

  lemma Values48()
    ensures Changed(0xb5d4_1f9c, 0x71d1_0367, 0x703d_54d8, 0xa04b_4904, WORDS, 48) == 0xfc32_dd6e
    ensures Changed(0xa04b_4904, 0xfc32_dd6e, 0x71d1_0367, 0x703d_54d8, WORDS, 49) == 0x6545_6b34
    ensures Changed(0x703d_54d8, 0x6545_6b34, 0xfc32_dd6e, 0x71d1_0367, WORDS, 50) == 0xb356_02cb
    ensures Changed(0x71d1_0367, 0xb356_02cb, 0x6545_6b34, 0xfc32_dd6e, WORDS, 51) == 0x33ed_b197
  {
    Entries48();
    hide Sine, WordOf, RotationOf;
  }

  lemma From48()
    ensures Operations(S48, WORDS, 48) == Operations(S52, WORDS, 52)
  {
    hide Changed, Operations;
    Values48();
    Advance(S48, 48, 0, 0xfc32_dd6e);
    var r := S48[0 := 0xfc32_dd6e];
    Advance(r, 49, 3, 0x6545_6b34);
    r := r[3 := 0x6545_6b34];
    Advance(r, 50, 2, 0xb356_02cb);
    r := r[2 := 0xb356_02cb];
    Advance(r, 51, 1, 0x33ed_b197);
    assert r[1 := 0x33ed_b197] == S52;
  }

  lemma Entries52()
    ensures Sine(52) == 0x655b_59c3 && WORDS[WordOf(52)] == 0x0000_0000 && RotationOf(52) == 6
    ensures Sine(53) == 0x8f0c_cc92 && WORDS[WordOf(53)] == 0x706f_6e6d && RotationOf(53) == 10
    ensures Sine(54) == 0xffef_f47d && WORDS[WordOf(54)] == 0x0000_0000 && RotationOf(54) == 15
    ensures Sine(55) == 0x8584_5dd1 && WORDS[WordOf(55)] == 0x6867_6665 && RotationOf(55) == 21
  {
  }

  lemma Values52()
    ensures Changed(0xfc32_dd6e, 0x33ed_b197, 0xb356_02cb, 0x6545_6b34, WORDS, 52) == 0xc1e9_42f1
    ensures Changed(0x6545_6b34, 0xc1e9_42f1, 0x33ed_b197, 0xb356_02cb, WORDS, 53) == 0xd9bb_987c
    ensures Changed(0xb356_02cb, 0xd9bb_987c, 0xc1e9_42f1, 0x33ed_b197, WORDS, 54) == 0x23a6_8048
    ensures Changed(0x33ed_b197, 0x23a6_8048, 0xd9bb_987c, 0xc1e9_42f1, WORDS, 55) == 0x8387_7d1b
  {
    Entries52();
    hide Sine, WordOf, RotationOf;
  }

  lemma From52()
    ensures Operations(S52, WORDS, 52) == Operations(S56, WORDS, 56)
  {
    hide Changed, Operations;
    Values52();
    Advance(S52, 52, 0, 0xc1e9_42f1);
    var r := S52[0 := 0xc1e9_42f1];
    Advance(r, 53, 3, 0xd9bb_987c);
    r := r[3 := 0xd9bb_987c];
    Advance(r, 54, 2, 0x23a6_8048);
    r := r[2 := 0x23a6_8048];
    Advance(r, 55, 1, 0x8387_7d1b);
    assert r[1 := 0x8387_7d1b] == S56;
  }

  lemma Entries56()
    ensures Sine(56) == 0x6fa8_7e4f && WORDS[WordOf(56)] == 0x0000_0000 && RotationOf(56) == 6
    ensures Sine(57) == 0xfe2c_e6e0 && WORDS[WordOf(57)] == 0x0000_0000 && RotationOf(57) == 10
    ensures Sine(58) == 0xa301_4314 && WORDS[WordOf(58)] == 0x0080_7a79 && RotationOf(58) == 15
    ensures Sine(59) == 0x4e08_11a1 && WORDS[WordOf(59)] == 0x0000_0000 && RotationOf(59) == 21
  {
  }

  lemma Values56()
    ensures Changed(0xc1e9_42f1, 0x8387_7d1b, 0x23a6_8048, 0xd9bb_987c, WORDS, 56) == 0x0077_c208
    ensures Changed(0xd9bb_987c, 0x0077_c208, 0x8387_7d1b, 0x23a6_8048, WORDS, 57) == 0x847f_c2e7
    ensures Changed(0x23a6_8048, 0x847f_c2e7, 0x0077_c208, 0x8387_7d1b, WORDS, 58) == 0xa3e2_247f
    ensures Changed(0x8387_7d1b, 0xa3e2_247f, 0x847f_c2e7, 0x0077_c208, WORDS, 59) == 0x5e6b_c930
  {
    Entries56();
    hide Sine, WordOf, RotationOf;
  }

  lemma From56()
    ensures Operations(S56, WORDS, 56) == Operations(S60, WORDS, 60)
  {
    hide Changed, Operations;
    Values56();
    Advance(S56, 56, 0, 0x0077_c208);
    var r := S56[0 := 0x0077_c208];
    Advance(r, 57, 3, 0x847f_c2e7);
    r := r[3 := 0x847f_c2e7];
    Advance(r, 58, 2, 0xa3e2_247f);
    r := r[2 := 0xa3e2_247f];
    Advance(r, 59, 1, 0x5e6b_c930);
    assert r[1 := 0x5e6b_c930] == S60;
  }

  lemma Entries60()
    ensures Sine(60) == 0xf753_7e82 && WORDS[WordOf(60)] == 0x7473_7271 && RotationOf(60) == 6
    ensures Sine(61) == 0xbd3a_f235 && WORDS[WordOf(61)] == 0x0000_0000 && RotationOf(61) == 10
    ensures Sine(62) == 0x2ad7_d2bb && WORDS[WordOf(62)] == 0x6c6b_6a69 && RotationOf(62) == 15
    ensures Sine(63) == 0xeb86_d391 && WORDS[WordOf(63)] == 0x0000_0000 && RotationOf(63) == 21
  {
  }

  lemma Values60()
    ensures Changed(0x0077_c208, 0x5e6b_c930, 0xa3e2_247f, 0x847f_c2e7, WORDS, 60) == 0x708e_d9c2
    ensures Changed(0x847f_c2e7, 0x708e_d9c2, 0x5e6b_c930, 0xa3e2_247f, WORDS, 61) == 0x2baf_1354
    ensures Changed(0xa3e2_247f, 0x2baf_1354, 0x708e_d9c2, 0x5e6b_c930, WORDS, 62) == 0xd38f_1e7f
    ensures Changed(0x5e6b_c930, 0xd38f_1e7f, 0x2baf_1354, 0x708e_d9c2, WORDS, 63) == 0x1116_e6d8
  {
    Entries60();
    hide Sine, WordOf, RotationOf;
  }

  lemma From60()
    ensures Operations(S60, WORDS, 60) == Operations(S64, WORDS, 64)
  {
    hide Changed, Operations;
    Values60();
    Advance(S60, 60, 0, 0x708e_d9c2);
    var r := S60[0 := 0x708e_d9c2];
    Advance(r, 61, 3, 0x2baf_1354);
    r := r[3 := 0x2baf_1354];
    Advance(r, 62, 2, 0xd38f_1e7f);
    r := r[2 := 0xd38f_1e7f];
    Advance(r, 63, 1, 0x1116_e6d8);
    assert r[1 := 0x1116_e6d8] == S64;
  }

  lemma AllOperations()
    ensures Operations(S0, WORDS, 0) == S64
  {
    hide Operation;
    From0();
    From4();
    From8();
    From12();
    From16();
    From20();
    From24();
    From28();
    From32();
    From36();
    From40();
    From44();
    From48();
    From52();
    From56();
    From60();
    OperationsDone(S64);
  }

  lemma OperationsDone(r: Registers)
    ensures Operations(r, WORDS, 64) == r
  {
  }

  /** The bytes of the block: letters, the one bit behind them, zeros, and the length in bits. */
  lemma ByteOfBlock(j: nat)
    requires j < 64
    ensures ProgramBlock(ALPHABET, 0)[j] ==
            if j < 26 then ALPHABET[j] else if j == 26 then 0x80 else if j == 56 then 0xd0 else 0
  {
    hide LengthByte;
    if 56 <= j < 60 {
      LengthOfAlphabet(j - 56);
    }
  }

  lemma LengthOfAlphabet(k: nat)
    requires k < 4
    ensures LengthByte(26, k) == if k == 0 then 0xd0 else 0
  {
    var b := 8 * 26;
    assert b == 208;
    assert b / 256 == 0;
  }

  lemma Letters(g: nat)
    requires g < 6
    ensures WordAt(ALPHABET, 4 * g) == WORDS[g]
  {
  }

  lemma WordOfBlock(g: nat)
    requires g < 16
    ensures WordAt(ProgramBlock(ALPHABET, 0), 4 * g) == WORDS[g]
  {
    hide ProgramBlock;
    ByteOfBlock(4 * g);
    ByteOfBlock(4 * g + 1);
    ByteOfBlock(4 * g + 2);
    ByteOfBlock(4 * g + 3);
    if g < 6 {
      Letters(g);
    }
  }

  lemma BlockWords()
    ensures Words(ProgramBlock(ALPHABET, 0)) == WORDS
  {
    hide WordAt, ProgramBlock;
    var p := ProgramBlock(ALPHABET, 0);
    forall g | 0 <= g < 16 ensures Words(p)[g] == WORDS[g] {
      WordOfBlock(g);
    }
  }

  /** MD5 ("abcdefghijklmnopqrstuvwxyz") = c3fcd3d76192e4007dfb496cca67e13b */
  lemma DigestOfAlphabet()
    ensures Digest(ALPHABET) == [0xd7d3_fcc3, 0x00e4_9261, 0x6c49_fb7d, 0x3be1_67ca]
  {
    hide Operations, Words, WordAt, ProgramBlock, Padded, Compress, Fold;
    BlocksArePadded(ALPHABET, 0);
    FoldBlock(INITIAL, ALPHABET, 0, 1);
    FoldNone(Compress(INITIAL, ProgramBlock(ALPHABET, 0)), Padded(ALPHABET)[64..]);
    CompressAlphabet();
  }

  lemma CompressAlphabet()
    ensures Compress(INITIAL, ProgramBlock(ALPHABET, 0)) == [0xd7d3_fcc3, 0x00e4_9261, 0x6c49_fb7d, 0x3be1_67ca]
  {
    hide Operations, Words, WordAt, ProgramBlock;
    BlockWords();
    AllOperations();
    assert INITIAL == S0;
  }
}
