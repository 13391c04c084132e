/**
 * A second known answer: the 56-byte example of FIPS 180-4, whose padding takes two blocks. It fixes the order of the
 * bytes in a word, the order of the blocks, and what one block hands on to the next.
 */
module KnownTwoBlocks {
  import opened Bytes
  import opened KnownRounds
  import opened Sha256Rounds
  import opened Sha256Stream

  const MESSAGE: bytes :=
    Ascii("abcd") + Ascii("bcde") + Ascii("cdef") + Ascii("defg") +
    Ascii("efgh") + Ascii("fghi") + Ascii("ghij") + Ascii("hijk") +
    Ascii("ijkl") + Ascii("jklm") + Ascii("klmn") + Ascii("lmno") +
    Ascii("mnop") + Ascii("nopq")

  /** The first block: its schedule, eight words a row, and the working variables after every eighth round. */
  const FIRST_W0: seq<word> := [
    0x6162_6364, 0x6263_6465, 0x6364_6566, 0x6465_6667,
    0x6566_6768, 0x6667_6869, 0x6768_696a, 0x6869_6a6b]
  const FIRST_W1: seq<word> := [
    0x696a_6b6c, 0x6a6b_6c6d, 0x6b6c_6d6e, 0x6c6d_6e6f,
    0x6d6e_6f70, 0x6e6f_7071, 0x8000_0000, 0x0000_0000]
  const FIRST_W2: seq<word> := [
    0xeb80_12ad, 0xa7c3_ae92, 0x76e9_3ba2, 0xba42_e743,
    0x92a9_2204, 0xd847_e75e, 0x9e16_0036, 0xb280_a7cb]
  const FIRST_W3: seq<word> := [
    0xddeb_1516, 0xf365_86f4, 0x969c_d048, 0xe959_d99d,
    0x6acc_c0ec, 0xf54c_b098, 0x2af1_b2da, 0xee59_c4c9]
  const FIRST_W4: seq<word> := [
    0xa835_e16a, 0x1dff_4429, 0xd6e1_5959, 0xc397_cd6e,
    0x6f18_01ca, 0x2157_4205, 0x35ff_7a84, 0x9743_ee78]
  const FIRST_W5: seq<word> := [
    0xe441_83e7, 0x0d09_f00d, 0x9c89_af54, 0x042d_5bef,
    0x71f1_34d0, 0x0f94_f463, 0x7e49_dc63, 0x6f65_c997]
  const FIRST_W6: seq<word> := [
    0x0b70_6583, 0x1793_12ca, 0x5030_54e9, 0xba12_5c39,
    0x7e93_92c9, 0xd5cb_aa1e, 0x78e0_585d, 0xf6e7_611c]
  const FIRST_W7: seq<word> := [
    0x8ac8_30ce, 0x8b47_a303, 0xfd6e_627f, 0x8c6e_2c6a,
    0x4001_adf1, 0x1a3d_d097, 0xa9df_6f62, 0x6aa6_0a39]
  const FIRST_V0 := Vars(
    0x6a09_e667, 0xbb67_ae85, 0x3c6e_f372, 0xa54f_f53a,
    0x510e_527f, 0x9b05_688c, 0x1f83_d9ab, 0x5be0_cd19)
  const FIRST_V1 := Vars(
    0xd237_e6db, 0x4858_35b7, 0x55c8_ef48, 0xf921_c212,
    0xa401_d211, 0x39a5_b2ca, 0x7ff9_1c94, 0x05c4_f88a)
  const FIRST_V2 := Vars(
    0xc348_6194, 0xdd16_cbb3, 0xd68e_6457, 0x101a_4861,
    0x1496_a54f, 0x9162_aded, 0x9243_f8af, 0x839a_0fc9)
  const FIRST_V3 := Vars(
    0x59fc_e6b9, 0xae2e_2d4f, 0x1b2b_66b8, 0xd70a_c17d,
    0xa2c7_d51d, 0xf074_fc95, 0xd560_b028, 0x7cc6_b262)
  const FIRST_V4 := Vars(
    0x5581_ab07, 0xeb43_f3ed, 0xdf71_51a0, 0x74bc_f468,
    0xdf98_0085, 0x0635_d880, 0x7629_c961, 0x72ab_aecd)
  const FIRST_V5 := Vars(
    0x7e4d_30b8, 0x91ac_9d5d, 0xa985_b4be, 0x2c55_d3a6,
    0x9f5b_9b6d, 0x68d8_d590, 0xf72b_f353, 0xb067_c1af)
  const FIRST_V6 := Vars(
    0x13d8_2741, 0x165b_e9cd, 0x18f0_d19d, 0xde71_e2f2,
    0xa780_2a4d, 0xa483_f080, 0x6b88_472c, 0xff61_c636)
  const FIRST_V7 := Vars(
    0x9e57_c4a0, 0xf907_b313, 0x1d6d_e87a, 0xb8d5_5619,
    0xeec1_3548, 0x61a4_1711, 0x3443_bed4, 0x1c80_6a61)
  const FIRST_V8 := Vars(
    0x1bdc_6f6f, 0x8612_6910, 0xf6f4_43f8, 0xbcfc_e922,
    0x25d2_430a, 0x2fc0_8f85, 0xacc7_5916, 0x962d_8621)

  const FIRST_ROWS: seq<seq<word>> := [FIRST_W0, FIRST_W1, FIRST_W2, FIRST_W3, FIRST_W4, FIRST_W5, FIRST_W6, FIRST_W7]
  const FIRST_VARS: seq<Vars> :=
    [FIRST_V0, FIRST_V1, FIRST_V2, FIRST_V3, FIRST_V4, FIRST_V5, FIRST_V6, FIRST_V7, FIRST_V8]

  lemma FirstSchedule2()
    ensures Follows(FIRST_W0, FIRST_W1, FIRST_W2)
  {
  }

  lemma FirstSchedule3()
    ensures Follows(FIRST_W1, FIRST_W2, FIRST_W3)
  {
  }

  lemma FirstSchedule4()
    ensures Follows(FIRST_W2, FIRST_W3, FIRST_W4)
  {
  }

  lemma FirstSchedule5()
    ensures Follows(FIRST_W3, FIRST_W4, FIRST_W5)
  {
  }

  lemma FirstSchedule6()
    ensures Follows(FIRST_W4, FIRST_W5, FIRST_W6)
  {
  }

  lemma FirstSchedule7()
    ensures Follows(FIRST_W5, FIRST_W6, FIRST_W7)
  {
  }

  lemma FirstRun0()
    ensures RoundRow(FIRST_W0, FIRST_V0, FIRST_V1, K0)
  {
  }

  lemma FirstRun1()
    ensures RoundRow(FIRST_W1, FIRST_V1, FIRST_V2, K1)
  {
  }

  lemma FirstRun2()
    ensures RoundRow(FIRST_W2, FIRST_V2, FIRST_V3, K2)
  {
  }

  lemma FirstRun3()
    ensures RoundRow(FIRST_W3, FIRST_V3, FIRST_V4, K3)
  {
  }

  lemma FirstRun4()
    ensures RoundRow(FIRST_W4, FIRST_V4, FIRST_V5, K4)
  {
  }

  lemma FirstRun5()
    ensures RoundRow(FIRST_W5, FIRST_V5, FIRST_V6, K5)
  {
  }

  lemma FirstRun6()
    ensures RoundRow(FIRST_W6, FIRST_V6, FIRST_V7, K6)
  {
  }

  lemma FirstRun7()
    ensures RoundRow(FIRST_W7, FIRST_V7, FIRST_V8, K7)
  {
  }

  lemma FirstSchedule()
    ensures ScheduleRows(FIRST_ROWS)
  {
    assert |FIRST_W0| == 8 && |FIRST_W1| == 8;
    hide Follows, FIRST_W0, FIRST_W1, FIRST_W2, FIRST_W3;
    hide FIRST_W4, FIRST_W5, FIRST_W6, FIRST_W7;
    FirstSchedule2(); FirstSchedule3(); FirstSchedule4(); FirstSchedule5(); FirstSchedule6(); FirstSchedule7();
    Collect(FIRST_W0, FIRST_W1, FIRST_W2, FIRST_W3, FIRST_W4, FIRST_W5, FIRST_W6, FIRST_W7);
  }

  lemma FirstRounds()
    ensures RoundRows(FIRST_ROWS, FIRST_VARS)
  {
    hide RoundRow, RoundRows, FIRST_W0, FIRST_W1, FIRST_W2, FIRST_W3, FIRST_W4, FIRST_W5, FIRST_W6, FIRST_W7;
    hide FIRST_V0, FIRST_V1, FIRST_V2, FIRST_V3, FIRST_V4, FIRST_V5, FIRST_V6, FIRST_V7, FIRST_V8;
    FirstRun0(); FirstRun1(); FirstRun2(); FirstRun3(); FirstRun4(); FirstRun5(); FirstRun6(); FirstRun7();
    CollectRounds(FIRST_ROWS, FIRST_V0, FIRST_V1, FIRST_V2, FIRST_V3, FIRST_V4, FIRST_V5, FIRST_V6, FIRST_V7, FIRST_V8);
  }

  /** The second block: its schedule, eight words a row, and the working variables after every eighth round. */
  const SECOND_W0: seq<word> := [
    0x0000_0000, 0x0000_0000, 0x0000_0000, 0x0000_0000,
    0x0000_0000, 0x0000_0000, 0x0000_0000, 0x0000_0000]
  const SECOND_W1: seq<word> := [
    0x0000_0000, 0x0000_0000, 0x0000_0000, 0x0000_0000,
    0x0000_0000, 0x0000_0000, 0x0000_0000, 0x0000_01c0]
  const SECOND_W2: seq<word> := [
    0x0000_0000, 0x00d8_0000, 0x0000_0000, 0x0000_3677,
    0x0000_0000, 0x1df5_600d, 0x0000_01c0, 0x1c00_501c]
  const SECOND_W3: seq<word> := [
    0x01b0_0000, 0x220a_8d94, 0x0000_a365, 0x1770_17e7,
    0x63d3_8035, 0x090a_b713, 0x4c75_39ca, 0x0f19_a8c9]
  const SECOND_W4: seq<word> := [
    0x5df4_b0c4, 0xe257_036a, 0xc97b_b6f1, 0xc5b4_6f4d,
    0xf825_3c4e, 0xa558_d189, 0x7869_6285, 0xed07_117f]
  const SECOND_W5: seq<word> := [
    0x1073_58f6, 0x390a_e496, 0x5650_10a2, 0xc51d_7d44,
    0x9e74_c972, 0x6614_b561, 0x30fc_129d, 0x9ac6_84a8]
  const SECOND_W6: seq<word> := [
    0x2b65_8dbd, 0xe290_f793, 0x9eeb_b24c, 0x9713_b5de,
    0x4106_1ab7, 0xe022_e23b, 0x0772_079e, 0x7de2_2d9c]
  const SECOND_W7: seq<word> := [
    0xc8b8_3778, 0x75a7_9849, 0xd93d_bddb, 0x0a03_6c9d,
    0xcb4f_6ac6, 0x823f_97e2, 0xea2f_2a7a, 0xb901_8b52]
  const SECOND_V0 := Vars(
    0x85e6_55d6, 0x417a_1795, 0x3363_376a, 0x624c_de5c,
    0x76e0_9589, 0xcac5_f811, 0xcc4b_32c1, 0xf20e_533a)
  const SECOND_V1 := Vars(
    0xbf9a_93a0, 0x89bb_a3f1, 0x3eeb_6c06, 0x185a_5d79,
    0x059a_bdd1, 0x0a34_df03, 0xfe20_cda6, 0x8dff_3001)
  const SECOND_V2 := Vars(
    0x16a8_cc79, 0x0cea_5cbc, 0xd740_80fa, 0x35ee_996d,
    0x0fcb_1f6f, 0x6035_6548, 0x68aa_893f, 0x5c24_e2a2)
  const SECOND_V3 := Vars(
    0xa419_5b91, 0xf13a_e55b, 0xd44d_c81a, 0x20aa_d899,
    0xeddb_d6ed, 0x966a_a287, 0x5bac_e62d, 0xcc47_69f2)
  const SECOND_V4 := Vars(
    0xb0ea_b1c5, 0x02ef_3a5f, 0x1cfa_5eb0, 0xd958_b529,
    0xf6d9_3952, 0x5da1_0665, 0x6c49_db9f, 0xc2fa_99b1)
  const SECOND_V5 := Vars(
    0x221b_8a5a, 0xadca_7a96, 0xd949_682b, 0x2f11_c939,
    0x0b82_c5eb, 0xc6cc_e4ff, 0x32d9_9008, 0xfed4_ce1d)
  const SECOND_V6 := Vars(
    0xd735_4d5b, 0x0b33_03a7, 0x104a_7db4, 0x0f15_4e11,
    0xaad5_5b6b, 0xbbe1_c39a, 0x5348_e8f6, 0x6f95_17cb)
  const SECOND_V7 := Vars(
    0x9295_2710, 0xd9f0_c115, 0xec02_560a, 0x4eca_6fa0,
    0x2268_06d6, 0x6241_50c4, 0x7151_df8e, 0x989e_d071)
  const SECOND_V8 := Vars(
    0x9ea7_148b, 0x908c_2123, 0xb25c_ef29, 0xa9f1_81dd,
    0x2c5c_4ed0, 0x9a39_2956, 0x2aa1_bb13, 0x27cc_b387)

  const SECOND_ROWS: seq<seq<word>> :=
    [SECOND_W0, SECOND_W1, SECOND_W2, SECOND_W3, SECOND_W4, SECOND_W5, SECOND_W6, SECOND_W7]
  const SECOND_VARS: seq<Vars> :=
    [SECOND_V0, SECOND_V1, SECOND_V2, SECOND_V3, SECOND_V4, SECOND_V5, SECOND_V6, SECOND_V7, SECOND_V8]

  lemma SecondSchedule2()
    ensures Follows(SECOND_W0, SECOND_W1, SECOND_W2)
  {
  }

  lemma SecondSchedule3()
    ensures Follows(SECOND_W1, SECOND_W2, SECOND_W3)
  {
  }

  lemma SecondSchedule4()
    ensures Follows(SECOND_W2, SECOND_W3, SECOND_W4)
  {
  }

  lemma SecondSchedule5()
    ensures Follows(SECOND_W3, SECOND_W4, SECOND_W5)
  {
  }

  lemma SecondSchedule6()
    ensures Follows(SECOND_W4, SECOND_W5, SECOND_W6)
  {
  }

  lemma SecondSchedule7()
    ensures Follows(SECOND_W5, SECOND_W6, SECOND_W7)
  {
  }

  lemma SecondRun0()
    ensures RoundRow(SECOND_W0, SECOND_V0, SECOND_V1, K0)
  {
  }

  lemma SecondRun1()
    ensures RoundRow(SECOND_W1, SECOND_V1, SECOND_V2, K1)
  {
  }

  lemma SecondRun2()
    ensures RoundRow(SECOND_W2, SECOND_V2, SECOND_V3, K2)
  {
  }

  lemma SecondRun3()
    ensures RoundRow(SECOND_W3, SECOND_V3, SECOND_V4, K3)
  {
  }

  lemma SecondRun4()
    ensures RoundRow(SECOND_W4, SECOND_V4, SECOND_V5, K4)
  {
  }

  lemma SecondRun5()
    ensures RoundRow(SECOND_W5, SECOND_V5, SECOND_V6, K5)
  {
  }

  lemma SecondRun6()
    ensures RoundRow(SECOND_W6, SECOND_V6, SECOND_V7, K6)
  {
  }

  lemma SecondRun7()
    ensures RoundRow(SECOND_W7, SECOND_V7, SECOND_V8, K7)
  {
  }

  lemma SecondSchedule()
    ensures ScheduleRows(SECOND_ROWS)
  {
    assert |SECOND_W0| == 8 && |SECOND_W1| == 8;
    hide Follows, SECOND_W0, SECOND_W1, SECOND_W2, SECOND_W3;
    hide SECOND_W4, SECOND_W5, SECOND_W6, SECOND_W7;
    SecondSchedule2(); SecondSchedule3(); SecondSchedule4(); SecondSchedule5(); SecondSchedule6(); SecondSchedule7();
    Collect(SECOND_W0, SECOND_W1, SECOND_W2, SECOND_W3, SECOND_W4, SECOND_W5, SECOND_W6, SECOND_W7);
  }

  lemma SecondRounds()
    ensures RoundRows(SECOND_ROWS, SECOND_VARS)
  {
    hide RoundRow, RoundRows, SECOND_W0, SECOND_W1, SECOND_W2, SECOND_W3, SECOND_W4, SECOND_W5, SECOND_W6, SECOND_W7;
    hide SECOND_V0, SECOND_V1, SECOND_V2, SECOND_V3, SECOND_V4, SECOND_V5, SECOND_V6, SECOND_V7, SECOND_V8;
    SecondRun0(); SecondRun1(); SecondRun2(); SecondRun3(); SecondRun4(); SecondRun5(); SecondRun6(); SecondRun7();
    CollectRounds(SECOND_ROWS, SECOND_V0, SECOND_V1, SECOND_V2, SECOND_V3, SECOND_V4,
                  SECOND_V5, SECOND_V6, SECOND_V7, SECOND_V8);
  }

  const BETWEEN: Digest8 := [
    0x85e6_55d6, 0x417a_1795, 0x3363_376a, 0x624c_de5c,
    0x76e0_9589, 0xcac5_f811, 0xcc4b_32c1, 0xf20e_533a]
  const STATE: Digest8 := [
    0x248d_6a61, 0xd206_38b8, 0xe5c0_2693, 0x0c3e_6039,
    0xa33c_e459, 0x64ff_2167, 0xf6ec_edd4, 0x19db_06c1]

  lemma Sums()
    ensures Start(H0) == FIRST_V0 && Add(H0, FIRST_V8) == BETWEEN
    ensures Start(BETWEEN) == SECOND_V0 && Add(BETWEEN, SECOND_V8) == STATE
  {
  }

  const DIGEST: bytes :=
    [0x24, 0x8d, 0x6a, 0x61] + [0xd2, 0x06, 0x38, 0xb8] + [0xe5, 0xc0, 0x26, 0x93] + [0x0c, 0x3e, 0x60, 0x39] +
    [0xa3, 0x3c, 0xe4, 0x59] + [0x64, 0xff, 0x21, 0x67] + [0xf6, 0xec, 0xed, 0xd4] + [0x19, 0xdb, 0x06, 0xc1]

  /** The words of the padded message, four by four, as the bytes they are written with. */
  lemma FirstText0()
    ensures |FIRST_W0| == 8 && DigestBytes(FIRST_W0[0..4]) ==
      Ascii("abcd") + Ascii("bcde") + Ascii("cdef") + Ascii("defg")
  {
    DigestOfFour(FIRST_W0[0..4]);
    assert WordBytes(0x6162_6364) == Ascii("abcd");
    assert WordBytes(0x6263_6465) == Ascii("bcde");
    assert WordBytes(0x6364_6566) == Ascii("cdef");
    assert WordBytes(0x6465_6667) == Ascii("defg");
  }

  lemma FirstText1()
    ensures |FIRST_W0| == 8 && DigestBytes(FIRST_W0[4..8]) ==
      Ascii("efgh") + Ascii("fghi") + Ascii("ghij") + Ascii("hijk")
  {
    DigestOfFour(FIRST_W0[4..8]);
    assert WordBytes(0x6566_6768) == Ascii("efgh");
    assert WordBytes(0x6667_6869) == Ascii("fghi");
    assert WordBytes(0x6768_696a) == Ascii("ghij");
    assert WordBytes(0x6869_6a6b) == Ascii("hijk");
  }

  lemma FirstText2()
    ensures |FIRST_W1| == 8 && DigestBytes(FIRST_W1[0..4]) ==
      Ascii("ijkl") + Ascii("jklm") + Ascii("klmn") + Ascii("lmno")
  {
    DigestOfFour(FIRST_W1[0..4]);
    assert WordBytes(0x696a_6b6c) == Ascii("ijkl");
    assert WordBytes(0x6a6b_6c6d) == Ascii("jklm");
    assert WordBytes(0x6b6c_6d6e) == Ascii("klmn");
    assert WordBytes(0x6c6d_6e6f) == Ascii("lmno");
  }

  lemma FirstText3()
    ensures |FIRST_W1| == 8 && DigestBytes(FIRST_W1[4..8]) ==
      Ascii("mnop") + Ascii("nopq") + [0x80, 0x00, 0x00, 0x00] + [0x00, 0x00, 0x00, 0x00]
  {
    DigestOfFour(FIRST_W1[4..8]);
    assert WordBytes(0x6d6e_6f70) == Ascii("mnop");
    assert WordBytes(0x6e6f_7071) == Ascii("nopq");
    assert WordBytes(0x8000_0000) == [0x80, 0x00, 0x00, 0x00];
    assert WordBytes(0x0000_0000) == [0x00, 0x00, 0x00, 0x00];
  }

  lemma {:induction false} Halves(ws: seq<word>)
    requires |ws| == 8
    ensures DigestBytes(ws) == DigestBytes(ws[0..4]) + DigestBytes(ws[4..8])
  {
    hide DigestBytes;
    assert ws == ws[0..4] + ws[4..8];
    DigestOfConcat(ws[0..4], ws[4..8]);
  }

  lemma FirstText()
    ensures DigestBytes(FIRST_W0 + FIRST_W1) == MESSAGE + [0x80] + Zeros(7)
  {
    hide Ascii, DigestBytes;
    FirstText0();
    FirstText1();
    FirstText2();
    FirstText3();
    Halves(FIRST_W0);
    Halves(FIRST_W1);
    DigestOfConcat(FIRST_W0, FIRST_W1);
    hide FIRST_W0, FIRST_W1;
    assert [0x80, 0x00, 0x00, 0x00] + [0x00, 0x00, 0x00, 0x00] == [0x80] + Zeros(7);
  }

  lemma {:induction false} ZeroWords(ws: seq<word>)
    requires forall i :: 0 <= i < |ws| ==> ws[i] == 0
    ensures DigestBytes(ws) == Zeros(4 * |ws|)
  {
    if ws != [] {
      var n := |ws| - 1;
      ZeroWords(ws[..n]);
      assert WordBytes(0) == [0, 0, 0, 0];
    }
  }

  lemma ZerosJoin(m: nat, n: nat)
    ensures Zeros(m) + Zeros(n) == Zeros(m + n)
  {
  }

  lemma LengthOf448()
    ensures LengthField(448) == Zeros(4) + [0, 0, 1, 0xc0]
  {
    assert ShiftBytes(448, 1) == 1 && ShiftBytes(448, 2) == 0 && ShiftBytes(448, 3) == 0 && ShiftBytes(448, 4) == 0;
    assert ShiftBytes(448, 5) == 0 && ShiftBytes(448, 6) == 0 && ShiftBytes(448, 7) == 0;
    hide ShiftBytes;
    assert ShiftBytes(448, 0) == 448;
  }

  lemma SecondText()
    ensures DigestBytes(SECOND_W0 + SECOND_W1) == Zeros(56) + LengthField(448)
  {
    var ws := SECOND_W0 + SECOND_W1;
    assert |ws| == 16 && ws[15] == 0x0000_01c0;
    assert forall i :: 0 <= i < 15 ==> ws[..15][i] == 0;
    ZeroWords(ws[..15]);
    assert WordBytes(0x0000_01c0) == [0, 0, 1, 0xc0];
    LengthOf448();
    hide WordBytes, LengthField, Zeros, SECOND_W0, SECOND_W1;
    assert DigestBytes(ws) == DigestBytes(ws[..15]) + WordBytes(ws[15]);
    ZerosJoin(56, 4);
  }

  lemma Padded()
    ensures Pad(MESSAGE) == DigestBytes(FIRST_W0 + FIRST_W1) + DigestBytes(SECOND_W0 + SECOND_W1)
    ensures |DigestBytes(FIRST_W0 + FIRST_W1)| == 64 && |DigestBytes(SECOND_W0 + SECOND_W1)| == 64
  {
    assert |MESSAGE| == 56;
    FirstText();
    SecondText();
    hide MESSAGE, FIRST_W0, FIRST_W1, SECOND_W0, SECOND_W1, Zeros, LengthField;
    ZerosJoin(7, 56);
  }

  lemma Folded()
    ensures Fold(H0, Pad(MESSAGE)) == STATE
  {
    hide MESSAGE, Fold, Compress, Add, Start, Pad, BlockWords, ScheduleRows, RoundRows;
    Padded();
    var a, b := DigestBytes(FIRST_W0 + FIRST_W1), DigestBytes(SECOND_W0 + SECOND_W1);
    assert |FIRST_W0 + FIRST_W1| == 16 && |SECOND_W0 + SECOND_W1| == 16;
    BlockOfWords(FIRST_W0 + FIRST_W1);
    BlockOfWords(SECOND_W0 + SECOND_W1);
    FoldOfConcat(H0, a, b);
    FoldOfBlock(H0, a);
    FirstSchedule();
    FirstRounds();
    Sums();
    BlockResult(H0, a, FIRST_ROWS, FIRST_VARS);
    FoldOfBlock(BETWEEN, b);
    SecondSchedule();
    SecondRounds();
    BlockResult(BETWEEN, b, SECOND_ROWS, SECOND_VARS);
  }

  lemma StateText()
    ensures DigestBytes(STATE) == DIGEST
  {
    DigestOfFour(STATE[..4]);
    DigestOfFour(STATE[4..]);
    DigestOfConcat(STATE[..4], STATE[4..]);
    assert STATE == STATE[..4] + STATE[4..];
    assert WordBytes(0x248d_6a61) == [0x24, 0x8d, 0x6a, 0x61];
    assert WordBytes(0xd206_38b8) == [0xd2, 0x06, 0x38, 0xb8];
    assert WordBytes(0xe5c0_2693) == [0xe5, 0xc0, 0x26, 0x93];
    assert WordBytes(0x0c3e_6039) == [0x0c, 0x3e, 0x60, 0x39];
    assert WordBytes(0xa33c_e459) == [0xa3, 0x3c, 0xe4, 0x59];
    assert WordBytes(0x64ff_2167) == [0x64, 0xff, 0x21, 0x67];
    assert WordBytes(0xf6ec_edd4) == [0xf6, 0xec, 0xed, 0xd4];
    assert WordBytes(0x19db_06c1) == [0x19, 0xdb, 0x06, 0xc1];
    hide WordBytes, DigestBytes;
  }

  /** SHA-256 of a message that takes two blocks. */
  lemma TwoBlockDigest()
    ensures Sha256(MESSAGE) == DIGEST
  {
    hide MESSAGE, STATE, DIGEST, Fold, Pad, DigestBytes;
    Folded();
    StateText();
  }
}
