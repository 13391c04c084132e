/**
 * What src/snslice.c cuts a stream into: a cutter that takes one byte at a time, and what its chunks
 * are. There are no buffers, files or system calls here; SliceStream ties the program to it.
 */
module Slice {
  import opened Bytes
  import opened Options

  const MAX_RECORD_BYTES: nat := 16777216

  datatype Format = Ndjson | Csv

  /** A limit of 0 is no limit. */
  datatype Config = Config(format: Format, limitBytes: nat, limitRecords: nat, outDir: bytes, prefix: bytes)

  datatype CsvState = Start | Unquoted | Quoted | EscapedQuote

  datatype Hazard =
    | InputReadError
    | RecordLengthLimit
    | MalformedNdjson
    | MalformedCsv
    | OutputDirError
    | OutputCollision
    | ChunkOpenError
    | ChunkWriteError
    | BrokenPipe

  /** How one byte moves the record scanner: to a state, possibly completing a record, or into an error. */
  datatype Scan = Goto(state: CsvState) | Boundary | Malformed

  function ScanByte(format: Format, s: CsvState, c: byte): Scan {
    if format.Ndjson? then (if c == LF then Boundary else Goto(s))
    else match s
      case Start =>
        if c == QUOTE then Goto(Quoted)
        else if c == LF then Boundary
        else if c == COMMA || c == CR then Goto(Start)
        else Goto(Unquoted)
      case Unquoted =>
        if c == COMMA then Goto(Start) else if c == LF then Boundary else Goto(Unquoted)
      case Quoted =>
        if c == QUOTE then Goto(EscapedQuote) else Goto(Quoted)
      case EscapedQuote =>
        if c == QUOTE then Goto(Quoted)
        else if c == COMMA then Goto(Start)
        else if c == LF then Boundary
        else if c == CR then Goto(EscapedQuote)
        else Malformed
  }

  function Concat(parts: seq<bytes>): bytes {
    if parts == [] then [] else Concat(parts[..|parts| - 1]) + parts[|parts| - 1]
  }

  lemma {:induction false} ConcatOfConcat(a: seq<bytes>, b: seq<bytes>)
    ensures Concat(a + b) == Concat(a) + Concat(b)
  {
    if b == [] {
      assert a + b == a;
    } else {
      assert (a + b)[..|a + b| - 1] == a + b[..|b| - 1];
      ConcatOfConcat(a, b[..|b| - 1]);
    }
  }

  /** A chunk is a list of records. */
  type Chunk = seq<bytes>

  function ChunkBytes(chunks: seq<Chunk>): (b: seq<bytes>)
    ensures |b| == |chunks|
  {
    seq(|chunks|, i requires 0 <= i < |chunks| => Concat(chunks[i]))
  }

  /** Lines 426-432. */
  predicate Full(cfg: Config, chunk: Chunk) {
    || (cfg.limitBytes > 0 && |Concat(chunk)| >= cfg.limitBytes)
    || (cfg.limitRecords > 0 && |chunk| >= cfg.limitRecords)
  }

  /** Chunks done with, records completed since, bytes of the record under way. */
  datatype Cutter = Cutter(csv: CsvState, done: seq<Chunk>, current: Chunk, partial: bytes)

  const FRESH := Cutter(Start, [], [], [])

  datatype Stepped = Next(cutter: Cutter) | Stop(hazard: Hazard)

  function MalformedFor(format: Format): Hazard {
    if format.Ndjson? then MalformedNdjson else MalformedCsv
  }

  function EndRecord(cfg: Config, m: Cutter, record: bytes): Cutter {
    var current := m.current + [record];
    if Full(cfg, current) then Cutter(Start, m.done + [current], [], [])
    else Cutter(Start, m.done, current, [])
  }

  function Step(cfg: Config, m: Cutter, c: byte): Stepped {
    if c == NUL then Stop(MalformedFor(cfg.format))
    else if |m.partial| + 1 > MAX_RECORD_BYTES then Stop(RecordLengthLimit)
    else match ScanByte(cfg.format, m.csv, c)
      case Malformed => Stop(MalformedCsv)
      case Goto(s) => Next(m.(csv := s, partial := m.partial + [c]))
      case Boundary => Next(EndRecord(cfg, m, m.partial + [c]))
  }

  /** The cutter after a prefix of the input; the hazard is the first that arises. */
  function Feed(cfg: Config, m: Cutter, input: bytes): (Cutter, Option<Hazard>)
    decreases |input|
  {
    if input == [] then (m, None)
    else match Step(cfg, m, input[0])
      case Stop(h) => (m, Some(h))
      case Next(m') => Feed(cfg, m', input[1..])
  }

  lemma {:induction false} FeedOfConcat(cfg: Config, m: Cutter, a: bytes, b: bytes)
    ensures Feed(cfg, m, a + b) ==
      if Feed(cfg, m, a).1.Some? then Feed(cfg, m, a) else Feed(cfg, Feed(cfg, m, a).0, b)
    decreases |a|
  {
    hide Step;
    if a == [] {
      assert a + b == b;
    } else {
      assert (a + b)[1..] == a[1..] + b;
      if Step(cfg, m, a[0]).Next? {
        FeedOfConcat(cfg, Step(cfg, m, a[0]).cutter, a[1..], b);
      }
    }
  }

  /** Chunks completed and the hazard met, if any. */
  datatype Outcome = Outcome(chunks: seq<Chunk>, hazard: Option<Hazard>)

  /** Lines 453-476: what the end of the input does. */
  function AtEnd(cfg: Config, m: Cutter): Outcome {
    if cfg.format.Ndjson? && m.partial != [] then Outcome(m.done, Some(MalformedNdjson))
    else if cfg.format.Csv? && m.csv == Quoted then Outcome(m.done, Some(MalformedCsv))
    else
      var last := if m.partial == [] then m.current else m.current + [m.partial];
      Outcome(if last == [] then m.done else m.done + [last], None)
  }

  /** The reference: cut the input one byte at a time. */
  function Cut(cfg: Config, input: bytes): Outcome {
    var (m, h) := Feed(cfg, FRESH, input);
    if h.Some? then Outcome(m.done, h) else AtEnd(cfg, m)
  }

  /** Where the scanner is inside a record that starts with s. */
  function ScanPrefix(format: Format, s: bytes): Scan {
    if s == [] then Goto(Start)
    else
      var before := ScanPrefix(format, s[..|s| - 1]);
      if before.Goto? then ScanByte(format, before.state, s[|s| - 1]) else Malformed
  }

  /** A record: the scanner, started afresh, meets its first boundary on the last byte. */
  predicate WholeRecord(format: Format, r: bytes) {
    r != [] && ScanPrefix(format, r[..|r| - 1]).Goto?
    && ScanByte(format, ScanPrefix(format, r[..|r| - 1]).state, r[|r| - 1]) == Boundary
  }

  /** The first n records reach no limit, nor do fewer. */
  predicate Short(cfg: Config, chunk: Chunk, n: nat)
    requires n <= |chunk|
  {
    forall k :: 0 < k <= n ==> !Full(cfg, chunk[..k])
  }

  predicate Records(cfg: Config, chunk: Chunk) {
    forall r | r in chunk :: WholeRecord(cfg.format, r) && |r| <= MAX_RECORD_BYTES
  }

  /** A finished chunk: whole records, reaching a limit with the last record and not before. */
  predicate Minimal(cfg: Config, chunk: Chunk) {
    && chunk != [] && Full(cfg, chunk)
    && Short(cfg, chunk, |chunk| - 1)
    && Records(cfg, chunk)
  }

  predicate AllMinimal(cfg: Config, chunks: seq<Chunk>) {
    forall c | c in chunks :: Minimal(cfg, c)
  }

  /** What holds of the cutter after any prefix of the input. */
  ghost predicate Sound(cfg: Config, m: Cutter, input: bytes) {
    && Concat(ChunkBytes(m.done)) + Concat(m.current) + m.partial == input
    && AllMinimal(cfg, m.done)
    && Records(cfg, m.current)
    && Short(cfg, m.current, |m.current|)
    && |m.partial| <= MAX_RECORD_BYTES
    && ScanPrefix(cfg.format, m.partial) == Goto(m.csv)
  }

  lemma {:induction false} Pushed(done: seq<Chunk>, chunk: Chunk)
    ensures ChunkBytes(done + [chunk]) == ChunkBytes(done) + [Concat(chunk)]
    ensures Concat(ChunkBytes(done + [chunk])) == Concat(ChunkBytes(done)) + Concat(chunk)
  {
    var all := ChunkBytes(done + [chunk]);
    assert all == ChunkBytes(done) + [Concat(chunk)];
    assert all[..|done|] == ChunkBytes(done);
  }

  lemma {:induction false} PushedRecord(chunk: Chunk, r: bytes)
    ensures Concat(chunk + [r]) == Concat(chunk) + r
  {
    assert (chunk + [r])[..|chunk|] == chunk;
  }

  lemma {:induction false} RecordEnds(format: Format, partial: bytes, csv: CsvState, c: byte)
    requires ScanPrefix(format, partial) == Goto(csv) && ScanByte(format, csv, c).Boundary?
    ensures WholeRecord(format, partial + [c])
  {
    hide ScanByte;
    assert (partial + [c])[..|partial|] == partial;
  }

  lemma CurrentGrows(cfg: Config, current: Chunk, record: bytes)
    requires Records(cfg, current) && Short(cfg, current, |current|)
    requires WholeRecord(cfg.format, record) && |record| <= MAX_RECORD_BYTES
    ensures Records(cfg, current + [record]) && Short(cfg, current + [record], |current|)
  {
    hide Full, WholeRecord;
    forall k | 0 < k <= |current|
      ensures !Full(cfg, (current + [record])[..k])
    {
      assert (current + [record])[..k] == current[..k];
    }
  }

  lemma NotFull(cfg: Config, current: Chunk)
    requires current != [] && Short(cfg, current, |current| - 1) && !Full(cfg, current)
    ensures Short(cfg, current, |current|)
  {
    hide Full;
    assert current[..|current|] == current;
  }

  lemma NoRecords(cfg: Config)
    ensures Records(cfg, [])
  {
  }

  lemma MinimalGrows(cfg: Config, done: seq<Chunk>, c: Chunk)
    requires AllMinimal(cfg, done) && c != [] && Full(cfg, c) && Short(cfg, c, |c| - 1) && Records(cfg, c)
    ensures AllMinimal(cfg, done + [c]) && Short(cfg, [], 0) && Records(cfg, [])
  {
    hide Full, Records;
    assert Records(cfg, []) by { NoRecords(cfg); }
  }

  lemma EmptyConcat()
    ensures Concat([]) == []
  {
  }

  lemma EndRecordSound(cfg: Config, m: Cutter, input: bytes, c: byte)
    requires Sound(cfg, m, input) && |m.partial| < MAX_RECORD_BYTES
    requires ScanByte(cfg.format, m.csv, c).Boundary?
    ensures Sound(cfg, EndRecord(cfg, m, m.partial + [c]), input + [c])
  {
    hide Full, ScanByte, WholeRecord, Concat, ChunkBytes, Short, Records, AllMinimal, Minimal;
    var record := m.partial + [c];
    var current := m.current + [record];
    RecordEnds(cfg.format, m.partial, m.csv, c);
    CurrentGrows(cfg, m.current, record);
    PushedRecord(m.current, record);
    Pushed(m.done, current);
    EmptyConcat();
    if Full(cfg, current) {
      MinimalGrows(cfg, m.done, current);
    } else {
      NotFull(cfg, current);
    }
  }

  lemma StepSound(cfg: Config, m: Cutter, input: bytes, c: byte)
    requires Sound(cfg, m, input) && Step(cfg, m, c).Next?
    ensures Sound(cfg, Step(cfg, m, c).cutter, input + [c])
  {
    var m' := Step(cfg, m, c).cutter;
    var grown := m.partial + [c];
    assert grown[..|grown| - 1] == m.partial;
    if ScanByte(cfg.format, m.csv, c).Boundary? {
      EndRecordSound(cfg, m, input, c);
    } else {
      hide Full, Minimal, Concat;
    }
  }

  lemma {:induction false} FeedSound(cfg: Config, m: Cutter, before: bytes, input: bytes) returns (consumed: bytes)
    requires Sound(cfg, m, before)
    ensures consumed <= input && Sound(cfg, Feed(cfg, m, input).0, before + consumed)
    ensures Feed(cfg, m, input).1.None? ==> consumed == input
    decreases |input|
  {
    hide Step, Sound;
    if input == [] || Step(cfg, m, input[0]).Stop? {
      consumed := [];
      assert before + consumed == before;
    } else {
      StepSound(cfg, m, before, input[0]);
      var rest := FeedSound(cfg, Step(cfg, m, input[0]).cutter, before + [input[0]], input[1..]);
      consumed := [input[0]] + rest;
      assert before + consumed == before + [input[0]] + rest;
    }
  }

  lemma FreshSound(cfg: Config)
    ensures Sound(cfg, FRESH, [])
  {
  }

  /** The state in which the cutter stops, after how much of the input. */
  lemma Stopped(cfg: Config, input: bytes) returns (m: Cutter, consumed: bytes)
    ensures m == Feed(cfg, FRESH, input).0 && consumed <= input && Sound(cfg, m, consumed)
    ensures Cut(cfg, input).hazard.None? ==> consumed == input
  {
    hide Sound, Feed;
    FreshSound(cfg);
    m := Feed(cfg, FRESH, input).0;
    consumed := FeedSound(cfg, FRESH, [], input);
    assert [] + consumed == consumed;
  }

  lemma {:induction false} NonemptyRecords(cfg: Config, chunk: Chunk)
    requires Records(cfg, chunk)
    ensures chunk != [] ==> Concat(chunk) != []
  {
    if chunk != [] {
      assert chunk[|chunk| - 1] in chunk;
    }
  }

  lemma NonemptyChunks(cfg: Config, chunks: seq<Chunk>)
    requires AllMinimal(cfg, chunks)
    ensures forall c | c in chunks :: c != [] && Concat(c) != []
  {
    hide Concat, Full, Short, Records;
    forall c | c in chunks
      ensures c != [] && Concat(c) != []
    {
      NonemptyRecords(cfg, c);
    }
  }

  /** On success nothing is lost, no chunk is empty, and every chunk but the last is minimal. */
  lemma CutIsGreedy(cfg: Config, input: bytes)
    requires Cut(cfg, input).hazard.None?
    ensures var chunks := Cut(cfg, input).chunks;
      && Concat(ChunkBytes(chunks)) == input
      && (forall c | c in chunks :: c != [] && Concat(c) != [])
      && (forall i :: 0 <= i < |chunks| - 1 ==> Minimal(cfg, chunks[i]))
  {
    var m, consumed := Stopped(cfg, input);
    hide Feed, Concat, ChunkBytes, Minimal, Short, Records, ScanPrefix;
    var last := if m.partial == [] then m.current else m.current + [m.partial];
    PushedRecord(m.current, m.partial);
    Pushed(m.done, last);
    EmptyConcat();
    NonemptyRecords(cfg, m.current);
    NonemptyChunks(cfg, m.done);
    assert Cut(cfg, input).chunks == if last == [] then m.done else m.done + [last];
  }

  lemma BelowLimit(cfg: Config, c: Chunk, n: nat)
    requires n <= |c| && cfg.limitBytes > 0 && (n > 0 ==> !Full(cfg, c[..n]))
    ensures |Concat(c[..n])| <= cfg.limitBytes - 1
  {
  }

  /** Chunk sizes: a byte limit is overshot by less than one record. */
  lemma ChunkSize(cfg: Config, input: bytes, i: nat)
    requires Cut(cfg, input).hazard.None? && i < |Cut(cfg, input).chunks| && cfg.limitBytes > 0
    ensures |Concat(Cut(cfg, input).chunks[i])| <= cfg.limitBytes - 1 + MAX_RECORD_BYTES
  {
    var m, consumed := Stopped(cfg, input);
    hide Feed, WholeRecord, ScanPrefix, Concat, Full;
    if i < |m.done| {
      var c := m.done[i];
      assert c in m.done;
      var n := |c| - 1;
      assert c[n] in c && c == c[..n] + [c[n]];
      BelowLimit(cfg, c, n);
      PushedRecord(c[..n], c[n]);
    } else {
      var n := |m.current|;
      BelowLimit(cfg, m.current, n);
      assert m.current[..n] == m.current;
      PushedRecord(m.current, m.partial);
    }
  }

  lemma ChunkPrefix(chunks: seq<Chunk>, k: nat)
    requires k <= |chunks|
    ensures Concat(ChunkBytes(chunks[..k])) <= Concat(ChunkBytes(chunks))
  {
    hide Concat;
    assert ChunkBytes(chunks) == ChunkBytes(chunks[..k]) + ChunkBytes(chunks[k..]);
    ConcatOfConcat(ChunkBytes(chunks[..k]), ChunkBytes(chunks[k..]));
  }

  /** Whatever stops the cutter, the chunks so far are a prefix of the input that ends with a record. */
  lemma CutKeepsWholeChunks(cfg: Config, input: bytes, k: nat)
    requires k <= |Cut(cfg, input).chunks|
    ensures Concat(ChunkBytes(Cut(cfg, input).chunks[..k])) <= input
    ensures k < |Cut(cfg, input).chunks| || Cut(cfg, input).hazard.Some? ==>
      forall c | c in Cut(cfg, input).chunks[..k] :: Minimal(cfg, c)
  {
    var chunks := Cut(cfg, input).chunks;
    var m, consumed := Stopped(cfg, input);
    hide Feed, Minimal, Concat, ChunkBytes, Short, Records, ScanPrefix;
    if Cut(cfg, input).hazard.None? {
      CutIsGreedy(cfg, input);
    } else {
      assert chunks == m.done;
    }
    ChunkPrefix(chunks, k);
  }

  lemma {:induction false} MinimalInNumbers(cfg: Config, c: Chunk)
    requires Minimal(cfg, c)
    ensures cfg.limitRecords > 0 ==> |c| <= cfg.limitRecords
    ensures cfg.limitBytes > 0 ==> forall k :: 0 < k < |c| ==> |Concat(c[..k])| < cfg.limitBytes
    ensures (cfg.limitRecords > 0 && |c| == cfg.limitRecords) || (cfg.limitBytes > 0 && |Concat(c)| >= cfg.limitBytes)
  {
    hide Concat, Records;
    if |c| > 1 {
      assert !Full(cfg, c[..|c| - 1]);
    }
  }

  lemma LastInNumbers(cfg: Config, current: Chunk, partial: bytes)
    requires Short(cfg, current, |current|)
    ensures var last := if partial == [] then current else current + [partial];
      && (cfg.limitRecords > 0 ==> |last| <= cfg.limitRecords)
      && (cfg.limitBytes > 0 ==> forall k :: 0 < k < |last| ==> |Concat(last[..k])| < cfg.limitBytes)
  {
    hide Concat;
    var last := if partial == [] then current else current + [partial];
    assert forall k :: 0 < k <= |current| ==> last[..k] == current[..k];
    if current != [] {
      assert !Full(cfg, current[..|current|]);
    }
  }

  /** Chunk i is all there is to come of the input, on success. */
  predicate LastOfAll(cut: Outcome, i: nat) {
    cut.hazard.None? && i == |cut.chunks| - 1
  }

  /**
   * The limits in numbers. No chunk has more records than the record limit, and no part of a chunk reaches the
   * byte limit before its last record; every chunk that is not the last has reached one of the two limits.
   */
  lemma ChunkLimits(cfg: Config, input: bytes, i: nat)
    requires i < |Cut(cfg, input).chunks|
    ensures var c := Cut(cfg, input).chunks[i];
      && c != []
      && (cfg.limitRecords > 0 ==> |c| <= cfg.limitRecords)
      && (cfg.limitBytes > 0 ==> forall k :: 0 < k < |c| ==> |Concat(c[..k])| < cfg.limitBytes)
    ensures var c := Cut(cfg, input).chunks[i];
      || LastOfAll(Cut(cfg, input), i)
      || (cfg.limitRecords > 0 && |c| == cfg.limitRecords)
      || (cfg.limitBytes > 0 && |Concat(c)| >= cfg.limitBytes)
  {
    var m, consumed := Stopped(cfg, input);
    hide Feed, Concat, ChunkBytes, Minimal, Short, Records, ScanPrefix;
    if i < |m.done| {
      assert m.done[i] in m.done;
      MinimalInNumbers(cfg, m.done[i]);
      NonemptyChunks(cfg, m.done);
    } else {
      LastInNumbers(cfg, m.current, m.partial);
    }
  }

  /** Without a limit the whole input is one chunk, if there is any. */
  lemma OneChunkWithoutLimits(cfg: Config, input: bytes)
    requires cfg.limitBytes == 0 && cfg.limitRecords == 0 && Cut(cfg, input).hazard.None?
    ensures |Cut(cfg, input).chunks| == if input == [] then 0 else 1
    ensures input != [] ==> Concat(Cut(cfg, input).chunks[0]) == input
  {
    var chunks := Cut(cfg, input).chunks;
    CutIsGreedy(cfg, input);
    if chunks != [] {
      ChunkLimits(cfg, input, 0);
    }
    if |chunks| == 1 {
      hide Cut;
      assert chunks == [] + [chunks[0]];
      Pushed([], chunks[0]);
      assert ChunkBytes([]) == [];
      EmptyConcat();
    } else {
      assert ChunkBytes([]) == [];
      EmptyConcat();
    }
  }
}
