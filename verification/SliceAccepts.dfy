/** Which streams src/snslice.c accepts: the exact condition, for both formats. */
module SliceAccepts {
  import opened Bytes
  import opened Options
  import opened Slice
  import opened CsvTable

  predicate GoodRecords(format: Format, rs: seq<bytes>) {
    forall i :: 0 <= i < |rs| ==> GoodRecord(format, rs[i])
  }

  /** What may follow the last complete record: nothing in NDJSON, in CSV a record not left inside quotes. */
  predicate GoodTail(format: Format, tail: bytes) {
    && NulFree(tail) && |tail| <= MAX_RECORD_BYTES && ScanPrefix(format, tail).Goto?
    && if format.Ndjson? then tail == [] else ScanPrefix(format, tail).state != Quoted
  }

  predicate Splits(format: Format, input: bytes, rs: seq<bytes>, tail: bytes) {
    input == Concat(rs) + tail && GoodRecords(format, rs) && GoodTail(format, tail)
  }

  ghost predicate Acceptable(format: Format, input: bytes) {
    exists rs, tail :: Splits(format, input, rs, tail)
  }

  lemma {:induction false} FlattenedBytes(chunks: seq<Chunk>)
    ensures Concat(Flatten(chunks)) == Concat(ChunkBytes(chunks))
  {
    hide Concat;
    if chunks == [] {
      assert ChunkBytes(chunks) == [];
    } else {
      var n := |chunks| - 1;
      FlattenedBytes(chunks[..n]);
      ConcatOfConcat(Flatten(chunks[..n]), chunks[n]);
      Pushed(chunks[..n], chunks[n]);
      assert chunks == chunks[..n] + [chunks[n]];
    }
  }

  lemma {:induction false} FlattenedMember(chunks: seq<Chunk>, r: bytes)
    requires r in Flatten(chunks)
    ensures exists c :: c in chunks && r in c
  {
    var n := |chunks| - 1;
    if r in chunks[n] {
      assert chunks[n] in chunks;
    } else {
      FlattenedMember(chunks[..n], r);
    }
  }

  lemma {:induction false} FedNulFree(cfg: Config, m: Cutter, input: bytes)
    requires Feed(cfg, m, input).1.None?
    ensures NulFree(input)
    decreases |input|
  {
    if input != [] {
      FedNulFree(cfg, Step(cfg, m, input[0]).cutter, input[1..]);
      assert input == [input[0]] + input[1..];
    }
  }

  lemma {:induction false} PartsNulFree(parts: seq<bytes>)
    requires NulFree(Concat(parts))
    ensures forall i :: 0 <= i < |parts| ==> NulFree(parts[i])
  {
    if parts != [] {
      var n := |parts| - 1;
      assert Concat(parts) == Concat(parts[..n]) + parts[n];
      assert forall c | c in Concat(parts[..n]) :: c in Concat(parts);
      assert forall c | c in parts[n] :: c in Concat(parts);
      PartsNulFree(parts[..n]);
    }
  }

  lemma NulFreeParts(a: bytes, b: bytes)
    requires NulFree(a + b)
    ensures NulFree(a) && NulFree(b)
  {
    assert forall c | c in a :: c in a + b;
    assert forall c | c in b :: c in a + b;
  }

  lemma {:induction false} KeptRecord(cfg: Config, done: seq<Chunk>, current: Chunk, r: bytes)
    requires AllMinimal(cfg, done) && Records(cfg, current) && r in Flatten(done) + current
    ensures WholeRecord(cfg.format, r) && |r| <= MAX_RECORD_BYTES
  {
    hide WholeRecord, Full, Short;
    if r in Flatten(done) {
      FlattenedMember(done, r);
    }
  }

  lemma {:induction false} KeptRecords(cfg: Config, done: seq<Chunk>, current: Chunk)
    requires AllMinimal(cfg, done) && Records(cfg, current)
    requires forall i :: 0 <= i < |Flatten(done) + current| ==> NulFree((Flatten(done) + current)[i])
    ensures GoodRecords(cfg.format, Flatten(done) + current)
  {
    hide WholeRecord, Flatten, AllMinimal, Records, NulFree;
    var rs := Flatten(done) + current;
    forall i | 0 <= i < |rs|
      ensures GoodRecord(cfg.format, rs[i])
    {
      KeptRecord(cfg, done, current, rs[i]);
    }
  }

  lemma AcceptedSplits(cfg: Config, input: bytes)
    requires Cut(cfg, input).hazard.None?
    ensures Acceptable(cfg.format, input)
  {
    var m, consumed := Stopped(cfg, input);
    FedNulFree(cfg, FRESH, input);
    hide Feed, Concat, WholeRecord, ScanPrefix, ChunkBytes, Flatten, Full, Short, Minimal, Records;
    var rs := Flatten(m.done) + m.current;
    FlattenedBytes(m.done);
    ConcatOfConcat(Flatten(m.done), m.current);
    assert input == Concat(rs) + m.partial;
    NulFreeParts(Concat(rs), m.partial);
    PartsNulFree(rs);
    KeptRecords(cfg, m.done, m.current);
    hide Sound, GoodRecord, Cut;
    assert Splits(cfg.format, input, rs, m.partial);
  }

  lemma SplitAccepted(cfg: Config, input: bytes, rs: seq<bytes>, tail: bytes)
    requires Splits(cfg.format, input, rs, tail)
    ensures Cut(cfg, input).hazard.None?
    ensures Flatten(Cut(cfg, input).chunks) == rs + if tail == [] then [] else [tail]
  {
    hide Feed, Concat, WholeRecord, ScanPrefix, Full;
    FeedRecords(cfg, rs);
    var m := Feed(cfg, FRESH, Concat(rs)).0;
    FeedOfConcat(cfg, FRESH, Concat(rs), tail);
    FeedPart(cfg, m, tail);
    var last := if tail == [] then m.current else m.current + [tail];
    assert (m.done + [last])[..|m.done|] == m.done;
    assert Flatten(m.done) + (m.current + [tail]) == rs + [tail];
  }

  /**
   * A stream is accepted exactly when it splits into good records and a good tail; and then the chunks hold
   * those records, in that order.
   */
  lemma AcceptedExactly(cfg: Config, input: bytes)
    ensures Cut(cfg, input).hazard.None? <==> Acceptable(cfg.format, input)
    ensures forall rs, tail :: Splits(cfg.format, input, rs, tail) ==>
      Flatten(Cut(cfg, input).chunks) == rs + if tail == [] then [] else [tail]
  {
    hide Cut, Splits;
    if Cut(cfg, input).hazard.None? {
      AcceptedSplits(cfg, input);
    }
    forall rs, tail | Splits(cfg.format, input, rs, tail)
      ensures Cut(cfg, input).hazard.None?
      ensures Flatten(Cut(cfg, input).chunks) == rs + if tail == [] then [] else [tail]
    {
      SplitAccepted(cfg, input, rs, tail);
    }
  }

  /** Every line, with its line feed, is within the limit. */
  predicate LinesShort(s: bytes)
    decreases |s|
  {
    s == [] || (LineLength(s) <= MAX_RECORD_BYTES && LinesShort(s[LineLength(s)..]))
  }

  lemma {:induction false} NdjsonScan(s: bytes)
    ensures ScanPrefix(Ndjson, s).Goto? <==> LF !in s
    ensures LF !in s ==> ScanPrefix(Ndjson, s) == Goto(Start)
  {
    if s != [] {
      var n := |s| - 1;
      NdjsonScan(s[..n]);
      assert s == s[..n] + [s[n]];
    }
  }

  /** A line and its line feed are a record, and nothing else is. */
  lemma NdjsonRecord(r: bytes)
    ensures WholeRecord(Ndjson, r) <==> r != [] && r[|r| - 1] == LF && LF !in r[..|r| - 1]
  {
    if r != [] {
      NdjsonScan(r[..|r| - 1]);
    }
    hide ScanPrefix;
  }

  lemma {:induction false} LineEnd(s: bytes)
    requires s != [] && s[|s| - 1] == LF
    ensures var n := LineLength(s);
      s[n - 1] == LF && LF !in s[..n - 1] && (s[n..] == [] || s[n..][|s[n..]| - 1] == LF)
  {
    if s[0] != LF {
      LineEnd(s[1..]);
      var n := LineLength(s[1..]);
      assert s[..n] == [s[0]] + s[1..][..n - 1];
      assert s[1..][n..] == s[n + 1..];
    }
  }

  lemma {:induction false} RecordIsLine(r: bytes, rest: bytes)
    requires r != [] && r[|r| - 1] == LF && LF !in r[..|r| - 1]
    ensures LineLength(r + rest) == |r|
  {
    var s := r + rest;
    assert s[0] == r[0] && s[1..] == r[1..] + rest;
    if |r| > 1 {
      assert r[0] in r[..|r| - 1];
      assert r[1..][..|r| - 2] == r[..|r| - 1][1..];
      RecordIsLine(r[1..], rest);
    }
  }

  lemma {:induction false} ConcatFront(r: bytes, rs: seq<bytes>)
    ensures Concat([r] + rs) == r + Concat(rs)
  {
    ConcatOfConcat([r], rs);
    assert [r][..0] == [] && Concat([r]) == [] + r;
  }

  lemma {:induction false} LinesMakeRecords(s: bytes) returns (rs: seq<bytes>)
    requires NulFree(s) && (s == [] || s[|s| - 1] == LF) && LinesShort(s)
    ensures s == Concat(rs) && GoodRecords(Ndjson, rs)
    decreases |s|
  {
    hide WholeRecord, Concat, LineLength;
    if s == [] {
      rs := [];
      EmptyConcat();
    } else {
      var n := LineLength(s);
      LineEnd(s);
      var r := s[..n];
      assert r[..n - 1] == s[..n - 1] && s == r + s[n..];
      NdjsonRecord(r);
      var rest := LinesMakeRecords(s[n..]);
      rs := [r] + rest;
      ConcatFront(r, rest);
    }
  }

  lemma {:induction false} RecordsMakeLines(rs: seq<bytes>)
    requires GoodRecords(Ndjson, rs)
    ensures var s := Concat(rs);
      NulFree(s) && (s == [] || s[|s| - 1] == LF) && LinesShort(s)
    decreases |rs|
  {
    hide WholeRecord, Concat, LineLength;
    if rs == [] {
      EmptyConcat();
    } else {
      var r, rest := rs[0], Concat(rs[1..]);
      assert rs == [r] + rs[1..];
      NdjsonRecord(r);
      RecordsMakeLines(rs[1..]);
      ConcatFront(r, rs[1..]);
      RecordIsLine(r, rest);
      assert (r + rest)[|r|..] == rest;
    }
  }

  /** NDJSON: no NUL, a line feed at the end if there is anything, and no line too long. */
  lemma {:induction false} NdjsonAcceptedExactly(cfg: Config, input: bytes)
    requires cfg.format.Ndjson?
    ensures Cut(cfg, input).hazard.None? <==>
      NulFree(input) && (input == [] || input[|input| - 1] == LF) && LinesShort(input)
  {
    hide Cut, Concat, GoodRecord, LinesShort;
    AcceptedExactly(cfg, input);
    if NulFree(input) && (input == [] || input[|input| - 1] == LF) && LinesShort(input) {
      var rs := LinesMakeRecords(input);
      assert Concat(rs) + [] == Concat(rs);
      assert Splits(Ndjson, input, rs, []);
    }
    if Acceptable(Ndjson, input) {
      var rs, tail :| Splits(Ndjson, input, rs, tail);
      assert Concat(rs) + [] == Concat(rs);
      RecordsMakeLines(rs);
    }
  }
}
