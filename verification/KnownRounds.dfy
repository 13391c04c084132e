/** How the compression of one block is checked against precomputed rows of eight schedule words and rounds. */
module KnownRounds {
  import opened Bytes
  import opened Sha256Rounds
  import opened Sha256Stream

  /** Rounds in a row, each with its constant and its schedule word. */
  function Run(v: Vars, ks: seq<word>, ws: seq<word>): Vars
    requires |ks| == |ws|
    decreases |ks|
  {
    if ks == [] then v else Run(Round(v, ks[0], ws[0]), ks[1..], ws[1..])
  }

  lemma {:induction false} RunLast(v: Vars, ks: seq<word>, ws: seq<word>)
    requires |ks| == |ws| > 0
    ensures var n := |ks| - 1; Run(v, ks, ws) == Round(Run(v, ks[..n], ws[..n]), ks[n], ws[n])
    decreases |ks|
  {
    hide Round;
    var n := |ks| - 1;
    if n > 0 {
      RunLast(Round(v, ks[0], ws[0]), ks[1..], ws[1..]);
      assert ks[1..][..n - 1] == ks[..n][1..] && ws[1..][..n - 1] == ws[..n][1..];
    }
  }

  function Row(ws: seq<word>, t: nat): seq<word>
    requires |ws| == 16
  {
    seq(8, i requires 0 <= i < 8 => W(ws, t + i))
  }

  lemma {:induction false} RunIsRounds(ws: seq<word>, v: Vars, t: nat, n: nat)
    requires |ws| == 16 && t + n <= |K| && n <= 8
    ensures Run(Rounds(ws, v, t), K[t..t + n], Row(ws, t)[..n]) == Rounds(ws, v, t + n)
    decreases n
  {
    hide Round, Extend, K;
    if n > 0 {
      RunIsRounds(ws, v, t, n - 1);
      var ks, rs := K[t..t + n], Row(ws, t)[..n];
      RunLast(Rounds(ws, v, t), ks, rs);
      assert ks[..n - 1] == K[t..t + n - 1];
      assert rs[..n - 1] == Row(ws, t)[..n - 1];
      assert ks[n - 1] == K[t + n - 1] && rs[n - 1] == W(ws, t + n - 1);
    }
  }

  lemma EightRounds(ws: seq<word>, v: Vars, t: nat)
    requires |ws| == 16 && t + 8 <= |K|
    ensures Run(Rounds(ws, v, t), K[t..t + 8], Row(ws, t)) == Rounds(ws, v, t + 8)
  {
    hide Rounds, Run, W, K;
    RunIsRounds(ws, v, t, 8);
    assert Row(ws, t)[..8] == Row(ws, t);
  }

  /** Eight schedule words c that follow the sixteen in a + b. */
  predicate Follows(a: seq<word>, b: seq<word>, c: seq<word>) {
    && |a| == |b| == |c| == 8
    && c[0] == Extend(b[6], b[1], a[1], a[0]) && c[1] == Extend(b[7], b[2], a[2], a[1])
    && c[2] == Extend(c[0], b[3], a[3], a[2]) && c[3] == Extend(c[1], b[4], a[4], a[3])
    && c[4] == Extend(c[2], b[5], a[5], a[4]) && c[5] == Extend(c[3], b[6], a[6], a[5])
    && c[6] == Extend(c[4], b[7], a[7], a[6]) && c[7] == Extend(c[5], c[0], b[0], a[7])
  }

  lemma FollowsOnce(a: seq<word>, b: seq<word>, c: seq<word>, d: seq<word>)
    requires Follows(a, b, c) && Follows(a, b, d)
    ensures c == d
  {
    hide Extend;
  }

  lemma WStep(ws: seq<word>, t: nat)
    requires |ws| == 16 && t >= 16
    ensures W(ws, t) == Extend(W(ws, t - 2), W(ws, t - 7), W(ws, t - 15), W(ws, t - 16))
  {
  }

  lemma RowFollows(ws: seq<word>, t: nat)
    requires |ws| == 16
    ensures Follows(Row(ws, t), Row(ws, t + 8), Row(ws, t + 16))
  {
    hide Extend, W;
    WStep(ws, t + 16); WStep(ws, t + 17); WStep(ws, t + 18); WStep(ws, t + 19);
    WStep(ws, t + 20); WStep(ws, t + 21); WStep(ws, t + 22); WStep(ws, t + 23);
  }

  predicate ScheduleRows(rows: seq<seq<word>>) {
    && |rows| == 8 && |rows[0]| == 8 && |rows[1]| == 8
    && forall r :: 0 <= r < 6 ==> Follows(rows[r], rows[r + 1], rows[r + 2])
  }

  lemma Collect(w0: seq<word>, w1: seq<word>, w2: seq<word>, w3: seq<word>, w4: seq<word>, w5: seq<word>,
                w6: seq<word>, w7: seq<word>)
    requires |w0| == 8 && |w1| == 8 && Follows(w0, w1, w2) && Follows(w1, w2, w3) && Follows(w2, w3, w4)
    requires Follows(w3, w4, w5) && Follows(w4, w5, w6) && Follows(w5, w6, w7)
    ensures ScheduleRows([w0, w1, w2, w3, w4, w5, w6, w7])
  {
    hide Follows;
  }

  lemma RowsStart(ws: seq<word>, a: seq<word>, b: seq<word>)
    requires |a| == 8 && |b| == 8 && ws == a + b
    ensures Row(ws, 0) == a && Row(ws, 8) == b
  {
  }

  lemma {:induction false} RowsAre(ws: seq<word>, rows: seq<seq<word>>, r: nat)
    requires |ws| == 16 && ScheduleRows(rows) && ws == rows[0] + rows[1] && r < 8
    ensures Row(ws, 8 * r) == rows[r]
  {
    hide Follows, Row;
    if r < 2 {
      RowsStart(ws, rows[0], rows[1]);
    } else {
      RowsAre(ws, rows, r - 2);
      RowsAre(ws, rows, r - 1);
      RowFollows(ws, 8 * (r - 2));
      assert Follows(rows[r - 2], rows[r - 2 + 1], rows[r - 2 + 2]);
      FollowsOnce(rows[r - 2], rows[r - 1], Row(ws, 8 * r), rows[r]);
    }
  }

  /** The eight round constants of row r. */
  function KRow(r: nat): seq<word>
    requires r < 8
  {
    [K0, K1, K2, K3, K4, K5, K6, K7][r]
  }

  lemma KRows(r: nat)
    requires r < 8
    ensures |K| == 64 && |KRow(r)| == 8 && K[8 * r..8 * r + 8] == KRow(r)
  {
    assert |K0| == 8 && |K1| == 8 && |K2| == 8 && |K3| == 8 && |K4| == 8 && |K5| == 8 && |K6| == 8 && |K7| == 8;
    hide K0, K1, K2, K3, K4, K5, K6, K7;
  }

  /** Eight rounds with the constants k lead from v to w. */
  predicate RoundRow(row: seq<word>, v: Vars, w: Vars, k: seq<word>) {
    |k| == |row| == 8 && Run(v, k, row) == w
  }

  predicate RoundRows(rows: seq<seq<word>>, vs: seq<Vars>) {
    && |rows| == 8 && |vs| == 9
    && forall r: nat :: r < 8 ==> RoundRow(rows[r], vs[r], vs[r + 1], KRow(r))
  }

  lemma CollectRounds(w: seq<seq<word>>, v0: Vars, v1: Vars, v2: Vars, v3: Vars, v4: Vars, v5: Vars, v6: Vars,
                      v7: Vars, v8: Vars)
    requires |w| == 8 && RoundRow(w[0], v0, v1, K0) && RoundRow(w[1], v1, v2, K1) && RoundRow(w[2], v2, v3, K2)
    requires RoundRow(w[3], v3, v4, K3) && RoundRow(w[4], v4, v5, K4) && RoundRow(w[5], v5, v6, K5)
    requires RoundRow(w[6], v6, v7, K6) && RoundRow(w[7], v7, v8, K7)
    ensures RoundRows(w, [v0, v1, v2, v3, v4, v5, v6, v7, v8])
  {
    hide RoundRow, K0, K1, K2, K3, K4, K5, K6, K7;
  }

  lemma {:induction false} Through(ws: seq<word>, rows: seq<seq<word>>, vs: seq<Vars>, r: nat)
    requires |ws| == 16 && ScheduleRows(rows) && ws == rows[0] + rows[1] && RoundRows(rows, vs) && r <= 8
    ensures 8 * r <= |K| && Rounds(ws, vs[0], 8 * r) == vs[r]
  {
    hide Run, Row, K, KRow, ScheduleRows, Round;
    if r == 0 {
      assert Rounds(ws, vs[0], 0) == vs[0];
    } else {
      hide Rounds;
      Through(ws, rows, vs, r - 1);
      KRows(r - 1);
      assert RoundRow(rows[r - 1], vs[r - 1], vs[r - 1 + 1], KRow(r - 1));
      RowsAre(ws, rows, r - 1);
      EightRounds(ws, vs[0], 8 * (r - 1));
    }
  }

  /** The compression of a block whose rows are given. */
  lemma BlockResult(s: Digest8, block: bytes, rows: seq<seq<word>>, vs: seq<Vars>)
    requires |block| == 64 && ScheduleRows(rows) && RoundRows(rows, vs)
    requires BlockWords(block) == rows[0] + rows[1] && vs[0] == Start(s)
    ensures Compress(s, block) == Add(s, vs[8])
  {
    KRows(0);
    hide Rounds, K, Start, Add, ScheduleRows, RoundRows, BlockWord;
    Through(BlockWords(block), rows, vs, 8);
  }

  lemma {:induction false} DigestOfConcat(a: seq<word>, b: seq<word>)
    ensures DigestBytes(a + b) == DigestBytes(a) + DigestBytes(b)
    decreases |b|
  {
    hide WordBytes;
    if b == [] {
      assert a + b == a;
    } else {
      var n := |b| - 1;
      DigestOfConcat(a, b[..n]);
      assert (a + b)[..|a + b| - 1] == a + b[..n];
    }
  }

  lemma DigestOfOne(w: word)
    ensures DigestBytes([w]) == WordBytes(w)
  {
    hide WordBytes;
    assert [w][..0] == [] && DigestBytes([]) + WordBytes(w) == WordBytes(w);
  }

  lemma {:induction false} DigestOfFour(s: seq<word>)
    requires |s| == 4
    ensures DigestBytes(s) == WordBytes(s[0]) + WordBytes(s[1]) + WordBytes(s[2]) + WordBytes(s[3])
  {
    hide WordBytes, DigestBytes;
    DigestOfOne(s[0]); DigestOfOne(s[1]); DigestOfOne(s[2]); DigestOfOne(s[3]);
    DigestOfConcat([s[0]], [s[1]]);
    DigestOfConcat([s[0]] + [s[1]], [s[2]]);
    DigestOfConcat([s[0]] + [s[1]] + [s[2]], [s[3]]);
    assert s == [s[0]] + [s[1]] + [s[2]] + [s[3]];
  }
}
