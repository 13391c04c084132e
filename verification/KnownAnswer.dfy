/**
 * The digest of the empty message, computed through the rounds. It is the constant that line 407 of
 * src/treehash.c gives as the root of an empty workspace: one known answer for the whole of the hash.
 */
module KnownAnswer {
  import opened Bytes
  import opened KnownRounds
  import opened Sha256Rounds
  import opened Sha256Stream

  /**
   * The one padded block of the empty message: its schedule, eight words a row, and the working variables after
   * every eighth round.
   */
  const W0: seq<word> := [
    0x8000_0000, 0x0000_0000, 0x0000_0000, 0x0000_0000,
    0x0000_0000, 0x0000_0000, 0x0000_0000, 0x0000_0000]
  const W1: seq<word> := [
    0x0000_0000, 0x0000_0000, 0x0000_0000, 0x0000_0000,
    0x0000_0000, 0x0000_0000, 0x0000_0000, 0x0000_0000]
  const W2: seq<word> := [
    0x8000_0000, 0x0000_0000, 0x0020_5000, 0x0000_0000,
    0x2200_0800, 0x0000_0000, 0x0508_9542, 0x8000_0000]
  const W3: seq<word> := [
    0x5808_0000, 0x0040_a000, 0x0016_2505, 0x6600_1800,
    0xd622_2580, 0x1422_5508, 0xd645_f95c, 0xc928_2000]
  const W4: seq<word> := [
    0xc3f1_0094, 0x284c_a766, 0x0688_6dc6, 0xa37b_f116,
    0x717c_be96, 0xfec2_d74a, 0xa7b6_7f00, 0x8115_96a2]
  const W5: seq<word> := [
    0x98a6_e768, 0x03b2_0c82, 0x5d1d_a7c9, 0xb156_b935,
    0xc3dd_ca11, 0x249c_107f, 0xc48d_24ef, 0x5de5_4c30]
  const W6: seq<word> := [
    0xdefe_ce65, 0x2ca1_480d, 0x3c15_332c, 0x01ce_c9ad,
    0x160c_ccd0, 0x0bac_da98, 0x361b_8fe0, 0xd232_0ba6]
  const W7: seq<word> := [
    0x029b_7007, 0x7546_587c, 0x07f5_4f39, 0xf808_ddc3,
    0xdcca_7608, 0x5e42_7188, 0x44bc_ec5d, 0x3b5e_c49b]
  const V0 := Vars(
    0x6a09_e667, 0xbb67_ae85, 0x3c6e_f372, 0xa54f_f53a,
    0x510e_527f, 0x9b05_688c, 0x1f83_d9ab, 0x5be0_cd19)
  const V1 := Vars(
    0x7ad5_b1b6, 0xf020_5590, 0x292e_3b42, 0x4366_f730,
    0x53f9_4dcb, 0x82ed_e06f, 0x4f65_40fa, 0xe7d0_641e)
  const V2 := Vars(
    0xb400_85b5, 0xb88a_fddb, 0x45c0_13a7, 0x2102_d2cd,
    0x5cb8_e863, 0x1ccf_ac39, 0x2b42_7296, 0xcdfd_fe52)
  const V3 := Vars(
    0x985b_ed55, 0x404d_8054, 0x99a6_cb19, 0x75c7_f0d8,
    0x2c2c_028d, 0xb165_3710, 0xc287_981e, 0x3995_3ccd)
  const V4 := Vars(
    0x11e7_025f, 0xa0bb_0cdf, 0x72d3_a00d, 0x64bc_9e1c,
    0xbbd7_846c, 0x564a_6626, 0xb04a_b22d, 0x9569_6b75)
  const V5 := Vars(
    0x4999_11b1, 0x9e58_e42f, 0x56e3_dc4e, 0xa096_535d,
    0x716b_b025, 0x85a7_1424, 0xe807_ea7f, 0xfac0_6aed)
  const V6 := Vars(
    0x365a_34cd, 0x5498_2d6c, 0x32fa_442b, 0xa409_72d4,
    0xcbb3_f8eb, 0x8a6a_82b2, 0xd285_c679, 0xaa2c_1810)
  const V7 := Vars(
    0x0163_8014, 0x2caf_58ca, 0x3a0e_9477, 0xb1b2_9c90,
    0xadf9_4e0a, 0xe588_e598, 0xfd99_936e, 0x43a5_def8)
  const V8 := Vars(
    0x79a6_dddb, 0xdd94_6d8f, 0x5e8d_0156, 0xf41f_c3ea,
    0xd69f_ef65, 0xc996_2ac0, 0x8511_bf70, 0x1c71_eb3c)

  const ROWS: seq<seq<word>> := [W0, W1, W2, W3, W4, W5, W6, W7]
  const VARS: seq<Vars> := [V0, V1, V2, V3, V4, V5, V6, V7, V8]

  lemma EmptySchedule2()
    ensures Follows(W0, W1, W2)
  {
  }

  lemma EmptySchedule3()
    ensures Follows(W1, W2, W3)
  {
  }

  lemma EmptySchedule4()
    ensures Follows(W2, W3, W4)
  {
  }

  lemma EmptySchedule5()
    ensures Follows(W3, W4, W5)
  {
  }

  lemma EmptySchedule6()
    ensures Follows(W4, W5, W6)
  {
  }

  lemma EmptySchedule7()
    ensures Follows(W5, W6, W7)
  {
  }

  lemma EmptyRun0()
    ensures RoundRow(W0, V0, V1, K0)
  {
  }

  lemma EmptyRun1()
    ensures RoundRow(W1, V1, V2, K1)
  {
  }

  lemma EmptyRun2()
    ensures RoundRow(W2, V2, V3, K2)
  {
  }

  lemma EmptyRun3()
    ensures RoundRow(W3, V3, V4, K3)
  {
  }

  lemma EmptyRun4()
    ensures RoundRow(W4, V4, V5, K4)
  {
  }

  lemma EmptyRun5()
    ensures RoundRow(W5, V5, V6, K5)
  {
  }

  lemma EmptyRun6()
    ensures RoundRow(W6, V6, V7, K6)
  {
  }

  lemma EmptyRun7()
    ensures RoundRow(W7, V7, V8, K7)
  {
  }

  lemma EmptySchedule()
    ensures ScheduleRows(ROWS)
  {
    assert |W0| == 8 && |W1| == 8;
    hide Follows, W0, W1, W2, W3;
    hide W4, W5, W6, W7;
    EmptySchedule2(); EmptySchedule3(); EmptySchedule4(); EmptySchedule5(); EmptySchedule6(); EmptySchedule7();
    Collect(W0, W1, W2, W3, W4, W5, W6, W7);
  }

  lemma EmptyRounds()
    ensures RoundRows(ROWS, VARS)
  {
    hide RoundRow, RoundRows, W0, W1, W2, W3, W4, W5, W6, W7;
    hide V0, V1, V2, V3, V4, V5, V6, V7, V8;
    EmptyRun0(); EmptyRun1(); EmptyRun2(); EmptyRun3(); EmptyRun4(); EmptyRun5(); EmptyRun6(); EmptyRun7();
    CollectRounds(ROWS, V0, V1, V2, V3, V4, V5, V6, V7, V8);
  }

  /** SHA-256 of the empty message. */
  const EMPTY_DIGEST: bytes :=
    [0xe3, 0xb0, 0xc4, 0x42] + [0x98, 0xfc, 0x1c, 0x14] + [0x9a, 0xfb, 0xf4, 0xc8] + [0x99, 0x6f, 0xb9, 0x24] +
    [0x27, 0xae, 0x41, 0xe4] + [0x64, 0x9b, 0x93, 0x4c] + [0xa4, 0x95, 0x99, 0x1b] + [0x78, 0x52, 0xb8, 0x55]

  const EMPTY_STATE: Digest8 := [
    0xe3b0_c442, 0x98fc_1c14, 0x9afb_f4c8, 0x996f_b924,
    0x27ae_41e4, 0x649b_934c, 0xa495_991b, 0x7852_b855]

  lemma {:induction false} ZeroShift(j: nat)
    ensures ShiftBytes(0, j) == 0
  {
    if j > 0 {
      ZeroShift(j - 1);
    }
  }

  lemma EmptyBlock()
    ensures |Pad([])| == 64 && BlockWords(Pad([])) == W0 + W1
  {
    var p := Pad([]);
    assert LengthField(0) == Zeros(8) by {
      forall i | 0 <= i < 8
        ensures LengthField(0)[i] == 0
      {
        ZeroShift(7 - i);
      }
    }
    assert p == [0x80] + Zeros(63);
    assert BlockWord(p, 0) == 0x8000_0000;
    forall i | 1 <= i < 16
      ensures BlockWord(p, i) == 0
    {
      assert p[4 * i] == 0 && p[4 * i + 1] == 0 && p[4 * i + 2] == 0 && p[4 * i + 3] == 0;
    }
  }

  lemma EmptySums()
    ensures Start(H0) == V0 && Add(H0, V8) == EMPTY_STATE
  {
  }

  lemma {:induction false} EmptyState(message: bytes)
    requires message == []
    ensures Fold(H0, Pad(message)) == EMPTY_STATE
  {
    EmptyBlock();
    EmptySchedule();
    EmptyRounds();
    EmptySums();
    hide Fold, Compress, Add, Start, Pad, BlockWords, ScheduleRows, RoundRows;
    BlockResult(H0, Pad(message), ROWS, VARS);
    FoldOfBlock(H0, Pad(message));
  }

  lemma EmptyText()
    ensures DigestBytes(EMPTY_STATE) == EMPTY_DIGEST
  {
    DigestOfFour(EMPTY_STATE[..4]);
    DigestOfFour(EMPTY_STATE[4..]);
    DigestOfConcat(EMPTY_STATE[..4], EMPTY_STATE[4..]);
    assert EMPTY_STATE == EMPTY_STATE[..4] + EMPTY_STATE[4..];
    assert WordBytes(0xe3b0_c442) == [0xe3, 0xb0, 0xc4, 0x42];
    assert WordBytes(0x98fc_1c14) == [0x98, 0xfc, 0x1c, 0x14];
    assert WordBytes(0x9afb_f4c8) == [0x9a, 0xfb, 0xf4, 0xc8];
    assert WordBytes(0x996f_b924) == [0x99, 0x6f, 0xb9, 0x24];
    assert WordBytes(0x27ae_41e4) == [0x27, 0xae, 0x41, 0xe4];
    assert WordBytes(0x649b_934c) == [0x64, 0x9b, 0x93, 0x4c];
    assert WordBytes(0xa495_991b) == [0xa4, 0x95, 0x99, 0x1b];
    assert WordBytes(0x7852_b855) == [0x78, 0x52, 0xb8, 0x55];
    hide WordBytes, DigestBytes;
  }

  lemma {:induction false} EmptyDigest(message: bytes)
    requires message == []
    ensures Sha256(message) == EMPTY_DIGEST
  {
    hide Fold, DigestBytes, Pad, EMPTY_STATE, EMPTY_DIGEST;
    EmptyState(message);
    EmptyText();
  }
}
