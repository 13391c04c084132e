/**
 * The SHA-256 compression function of src/treehash.c, which keeps its message schedule in an array
 * and its eight working variables in locals, against FIPS 180-4 section 6.2.2 written as recurrences.
 */
module Sha256Rounds {
  import opened Bytes

  type word = bv32

  const K0: seq<word> := [
    0x428a_2f98, 0x7137_4491, 0xb5c0_fbcf, 0xe9b5_dba5,
    0x3956_c25b, 0x59f1_11f1, 0x923f_82a4, 0xab1c_5ed5]
  const K1: seq<word> := [
    0xd807_aa98, 0x1283_5b01, 0x2431_85be, 0x550c_7dc3,
    0x72be_5d74, 0x80de_b1fe, 0x9bdc_06a7, 0xc19b_f174]
  const K2: seq<word> := [
    0xe49b_69c1, 0xefbe_4786, 0x0fc1_9dc6, 0x240c_a1cc,
    0x2de9_2c6f, 0x4a74_84aa, 0x5cb0_a9dc, 0x76f9_88da]
  const K3: seq<word> := [
    0x983e_5152, 0xa831_c66d, 0xb003_27c8, 0xbf59_7fc7,
    0xc6e0_0bf3, 0xd5a7_9147, 0x06ca_6351, 0x1429_2967]
  const K4: seq<word> := [
    0x27b7_0a85, 0x2e1b_2138, 0x4d2c_6dfc, 0x5338_0d13,
    0x650a_7354, 0x766a_0abb, 0x81c2_c92e, 0x9272_2c85]
  const K5: seq<word> := [
    0xa2bf_e8a1, 0xa81a_664b, 0xc24b_8b70, 0xc76c_51a3,
    0xd192_e819, 0xd699_0624, 0xf40e_3585, 0x106a_a070]
  const K6: seq<word> := [
    0x19a4_c116, 0x1e37_6c08, 0x2748_774c, 0x34b0_bcb5,
    0x391c_0cb3, 0x4ed8_aa4a, 0x5b9c_ca4f, 0x682e_6ff3]
  const K7: seq<word> := [
    0x748f_82ee, 0x78a5_636f, 0x84c8_7814, 0x8cc7_0208,
    0x90be_fffa, 0xa450_6ceb, 0xbef9_a3f7, 0xc671_78f2]

  /** The round constants of section 4.2.2, lines 39-52. */
  const K: seq<word> := K0 + K1 + K2 + K3 + K4 + K5 + K6 + K7

  /** Addition modulo 2^32, as C does on uint32_t. */
  function Plus(x: word, y: word): word { x + y }

  /** Section 4.1.2; ROTR^n(x) is (x >> n) | (x << 32 - n) by section 3.2. */
  function Ch(x: word, y: word, z: word): word { (x & y) ^ (!x & z) }
  function Maj(x: word, y: word, z: word): word { (x & y) ^ (x & z) ^ (y & z) }
  function BigSigma0(x: word): word { ((x >> 2) | (x << 30)) ^ ((x >> 13) | (x << 19)) ^ ((x >> 22) | (x << 10)) }
  function BigSigma1(x: word): word { ((x >> 6) | (x << 26)) ^ ((x >> 11) | (x << 21)) ^ ((x >> 25) | (x << 7)) }
  function SmallSigma0(x: word): word { ((x >> 7) | (x << 25)) ^ ((x >> 18) | (x << 14)) ^ (x >> 3) }
  function SmallSigma1(x: word): word { ((x >> 17) | (x << 15)) ^ ((x >> 19) | (x << 13)) ^ (x >> 10) }

  /** The i-th 32-bit word of a block, most significant byte first. */
  function BlockWord(block: bytes, i: nat): word
    requires |block| == 64 && i < 16
  {
    ((block[4 * i] as word) << 24) | ((block[4 * i + 1] as word) << 16)
    | ((block[4 * i + 2] as word) << 8) | (block[4 * i + 3] as word)
  }

  /** Section 5.2.1: a block as sixteen words. */
  function BlockWords(block: bytes): seq<word>
    requires |block| == 64
  {
    seq(16, i requires 0 <= i < 16 => BlockWord(block, i))
  }

  function Extend(w2: word, w7: word, w15: word, w16: word): word {
    Plus(Plus(Plus(SmallSigma1(w2), w7), SmallSigma0(w15)), w16)
  }

  /** The message schedule W_t of section 6.2.2. */
  function W(ws: seq<word>, t: nat): word
    requires |ws| == 16
  {
    if t < 16 then ws[t]
    else Extend(W(ws, t - 2), W(ws, t - 7), W(ws, t - 15), W(ws, t - 16))
  }

  datatype Vars = Vars(a: word, b: word, c: word, d: word, e: word, f: word, g: word, h: word)

  function Round(v: Vars, k: word, w: word): Vars {
    var t1 := Plus(Plus(Plus(Plus(v.h, BigSigma1(v.e)), Ch(v.e, v.f, v.g)), k), w);
    var t2 := Plus(BigSigma0(v.a), Maj(v.a, v.b, v.c));
    Vars(Plus(t1, t2), v.a, v.b, v.c, Plus(v.d, t1), v.e, v.f, v.g)
  }

  /** The working variables after the first t rounds. */
  function Rounds(ws: seq<word>, v: Vars, t: nat): Vars
    requires |ws| == 16 && t <= |K|
  {
    if t == 0 then v else Round(Rounds(ws, v, t - 1), K[t - 1], W(ws, t - 1))
  }

  type Digest8 = s: seq<word> | |s| == 8 witness [0, 0, 0, 0, 0, 0, 0, 0]

  function Start(s: Digest8): Vars {
    Vars(s[0], s[1], s[2], s[3], s[4], s[5], s[6], s[7])
  }

  function Add(s: Digest8, v: Vars): Digest8 {
    [Plus(s[0], v.a), Plus(s[1], v.b), Plus(s[2], v.c), Plus(s[3], v.d), Plus(s[4], v.e), Plus(s[5], v.f), Plus(s[6],
     v.g), Plus(s[7], v.h)]
  }

  /** H^(i) from H^(i-1) and the i-th message block. */
  function Compress(s: Digest8, block: bytes): Digest8
    requires |block| == 64
  {
    Add(s, Rounds(BlockWords(block), Start(s), |K|))
  }

  method ReadWord(data: bytes, i: nat) returns (w: word)
    requires |data| == 64 && i < 16
    ensures w == BlockWord(data, i)
  {
    w := ((data[4 * i] as word) << 24) | ((data[4 * i + 1] as word) << 16)
         | ((data[4 * i + 2] as word) << 8) | (data[4 * i + 3] as word);
  }

  /** Lines 74-77: the sixteen words of the block go to the front of the schedule. */
  method LoadBlock(m: array<word>, data: bytes)
    requires m.Length == 64 && |data| == 64
    modifies m
    ensures m[..16] == BlockWords(data) && m[16..] == old(m[16..])
  {
    hide BlockWord;
    for i := 0 to 16
      invariant forall j :: 0 <= j < i ==> m[j] == BlockWord(data, j)
      invariant forall j :: 16 <= j < 64 ==> m[j] == old(m[j])
    {
      m[i] := ReadWord(data, i);
    }
  }

  /** Lines 78-80. */
  method ExpandSchedule(m: array<word>, ghost ws: seq<word>)
    requires m.Length == 64 && |ws| == 16 && m[..16] == ws
    modifies m
    ensures forall j :: 0 <= j < 64 ==> m[j] == W(ws, j)
  {
    hide Extend;
    assert forall j :: 0 <= j < 16 ==> m[j] == m[..16][j];
    for i := 16 to 64
      invariant forall j :: 0 <= j < i ==> m[j] == W(ws, j)
    {
      m[i] := Extend(m[i - 2], m[i - 7], m[i - 15], m[i - 16]);
    }
  }

  method RoundStep(v: Vars, k: word, w: word) returns (r: Vars)
    ensures r == Round(v, k, w)
  {
    hide Plus;
    var Vars(a, b, c, d, e, f, g, h) := v;
    var t1 := Plus(Plus(Plus(Plus(h, BigSigma1(e)), Ch(e, f, g)), k), w);
    var t2 := Plus(BigSigma0(a), Maj(a, b, c));
    h := g;
    g := f;
    f := e;
    e := Plus(d, t1);
    d := c;
    c := b;
    b := a;
    a := Plus(t1, t2);
    r := Vars(a, b, c, d, e, f, g, h);
  }

  /** Lines 82-91. */
  method RunRounds(m: array<word>, v: Vars, ghost ws: seq<word>) returns (r: Vars)
    requires m.Length == 64 && |ws| == 16
    requires forall j :: 0 <= j < 64 ==> m[j] == W(ws, j)
    ensures r == Rounds(ws, v, |K|)
  {
    hide Round;
    r := v;
    for i := 0 to 64
      invariant r == Rounds(ws, v, i)
    {
      r := RoundStep(r, K[i], m[i]);
    }
  }

  method Transform(state: array<word>, data: bytes)
    requires state.Length == 8 && |data| == 64
    modifies state
    ensures state[..] == Compress(old(state[..]), data)
  {
    hide Rounds, Plus;
    var m := new word[64];
    LoadBlock(m, data);
    ghost var ws := BlockWords(data);
    ExpandSchedule(m, ws);
    var v := Vars(state[0], state[1], state[2], state[3], state[4], state[5], state[6], state[7]);
    var r := RunRounds(m, v, ws);
    assert v == Start(old(state[..]));
    state[0], state[1], state[2], state[3] :=
      Plus(state[0], r.a), Plus(state[1], r.b), Plus(state[2], r.c), Plus(state[3], r.d);
    state[4], state[5], state[6], state[7] :=
      Plus(state[4], r.e), Plus(state[5], r.f), Plus(state[6], r.g), Plus(state[7], r.h);
  }
}
