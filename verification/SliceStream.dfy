/**
 * stream_slice of src/snslice.c with its files: reads of any size, short and failing writes, refused
 * opens and failing closes, all given in advance as scripts of what the system calls will do.
 */
module SliceStream {
  import opened Bytes
  import opened Options
  import opened Decimal
  import opened Slice

  const IO_BUFFER_SIZE: nat := 65536
  const PATH_MAX: nat := 4096

  /** What one read, write or open does; past the end of a script everything succeeds in full. */
  datatype ReadEvent = ReadInterrupted | ReadFailed | ReadSome(n: nat)
  datatype WriteEvent = WriteInterrupted | WriteFailed(brokenPipe: bool) | WriteSome(n: nat)
  datatype OpenEvent = Opens | OpenRefused

  type Files = map<bytes, bytes>

  function Extension(format: Format): bytes {
    if format.Ndjson? then Ascii(".ndjson") else Ascii(".csv")
  }

  /** The name of the i-th chunk file. */
  function ChunkPath(cfg: Config, i: nat): bytes {
    var slash := if cfg.outDir != [] && cfg.outDir[|cfg.outDir| - 1] == SLASH then [] else [SLASH];
    cfg.outDir + slash + cfg.prefix + Pad5(i) + Extension(cfg.format)
  }

  lemma ChunkPathIsInjective(cfg: Config, i: nat, j: nat)
    requires ChunkPath(cfg, i) == ChunkPath(cfg, j)
    ensures i == j
  {
    var slash := if cfg.outDir != [] && cfg.outDir[|cfg.outDir| - 1] == SLASH then [] else [SLASH];
    var front, back := |cfg.outDir + slash + cfg.prefix|, |Extension(cfg.format)|;
    var p, q := ChunkPath(cfg, i), ChunkPath(cfg, j);
    assert p[front..|p| - back] == Pad5(i) && q[front..|q| - back] == Pad5(j);
    Pad5IsInjective(i, j);
  }

  /** A directory after the given chunks have been written into it. */
  function Produced(cfg: Config, base: Files, chunks: seq<bytes>): Files {
    if chunks == [] then base
    else Produced(cfg, base, chunks[..|chunks| - 1])[ChunkPath(cfg, |chunks|) := chunks[|chunks| - 1]]
  }

  lemma {:induction false} ProducedOneMore(cfg: Config, base: Files, done: seq<bytes>, chunk: bytes)
    ensures Produced(cfg, base, done + [chunk]) == Produced(cfg, base, done)[ChunkPath(cfg, |done| + 1) := chunk]
  {
    assert (done + [chunk])[..|done|] == done;
  }

  predicate Untouched(base: Files, files: Files) {
    forall p | p in base :: p in files && files[p] == base[p]
  }

  lemma NewFile(base: Files, files: Files, path: bytes, content: bytes)
    requires Untouched(base, files) && path !in files
    ensures Untouched(base, files[path := content])
  {
  }

  lemma {:induction false} ProducedKeys(cfg: Config, base: Files, chunks: seq<bytes>, p: bytes)
    requires p in Produced(cfg, base, chunks)
    ensures p in base || exists i :: 1 <= i <= |chunks| && p == ChunkPath(cfg, i)
  {
    if chunks != [] && p != ChunkPath(cfg, |chunks|) {
      ProducedKeys(cfg, base, chunks[..|chunks| - 1], p);
    }
  }

  lemma OneMoreByte(written: bytes, pending: bytes, current: bytes, partial: bytes, c: byte)
    requires written + pending == current + partial
    ensures written + (pending + [c]) == current + (partial + [c])
  {
    assert written + (pending + [c]) == written + pending + [c];
  }

  /** What a failed run leaves: the directory as it was, and complete chunks. */
  predicate OnlyWholeChunks(cfg: Config, base: Files, files: Files, chunks: seq<Chunk>) {
    files == Produced(cfg, base, ChunkBytes(chunks)) && AllMinimal(cfg, chunks)
  }

  /** The cutter has consumed q without a hazard and is in state m. */
  ghost predicate Reached(cfg: Config, m: Cutter, q: bytes) {
    Feed(cfg, FRESH, q) == (m, None)
  }

  /** Chunks finished or begun. */
  function Begun(m: Cutter): nat {
    |m.done| + if m.current == [] && m.partial == [] then 0 else 1
  }

  /** How many chunk names the run can come to need; on success, as many as there are chunks. */
  function Names(cfg: Config, input: bytes): nat {
    Begun(Feed(cfg, FRESH, input).0)
  }

  lemma {:induction false} BegunGrows(cfg: Config, m: Cutter, input: bytes)
    ensures Begun(m) <= Begun(Feed(cfg, m, input).0)
    decreases |input|
  {
    if input != [] && Step(cfg, m, input[0]).Next? {
      BegunGrows(cfg, Step(cfg, m, input[0]).cutter, input[1..]);
    }
  }

  /** A chunk begun at any point has its place among the names of the whole run. */
  lemma BegunHasName(cfg: Config, m: Cutter, input: bytes, q: nat)
    requires q <= |input| && Reached(cfg, m, input[..q])
    ensures Begun(m) <= Names(cfg, input)
  {
    FeedOfConcat(cfg, FRESH, input[..q], input[q..]);
    assert input[..q] + input[q..] == input;
    BegunGrows(cfg, m, input[q..]);
    hide Feed;
  }

  lemma RecordNeedsName(cfg: Config, m: Cutter, record: bytes, input: bytes, q: nat)
    requires q <= |input| && Reached(cfg, EndRecord(cfg, m, record), input[..q])
    ensures |m.done| < Names(cfg, input)
  {
    hide Names, Full, Reached;
    BegunHasName(cfg, EndRecord(cfg, m, record), input, q);
  }

  /** Bytes that wait to be written belong to a chunk. */
  lemma PendingNeedsName(cfg: Config, m: Cutter, input: bytes, q: nat, written: bytes, pending: bytes)
    requires q <= |input| && Reached(cfg, m, input[..q])
    requires pending != [] && written + pending == Concat(m.current) + m.partial
    ensures |m.done| < Names(cfg, input)
  {
    hide Names, Reached;
    BegunHasName(cfg, m, input, q);
    EmptyConcat();
    assert |written| + |pending| == |Concat(m.current)| + |m.partial|;
  }

  lemma ReachedFresh(cfg: Config)
    ensures Reached(cfg, FRESH, [])
  {
  }

  lemma ReachedStep(cfg: Config, m: Cutter, input: bytes, q: nat, m': Cutter)
    requires q < |input| && Reached(cfg, m, input[..q]) && Step(cfg, m, input[q]) == Next(m')
    ensures Reached(cfg, m', input[..q + 1])
  {
    hide Step;
    FeedOfConcat(cfg, FRESH, input[..q], [input[q]]);
    assert input[..q] + [input[q]] == input[..q + 1];
  }

  /** The cutter's own hazard decides the outcome. */
  lemma StopsThere(cfg: Config, m: Cutter, input: bytes, q: nat, h: Hazard)
    requires q < |input| && Reached(cfg, m, input[..q]) && Step(cfg, m, input[q]) == Stop(h)
    ensures Cut(cfg, input) == Outcome(m.done, Some(h))
  {
    hide Step;
    FeedOfConcat(cfg, FRESH, input[..q], input[q..]);
    assert input[..q] + input[q..] == input;
  }

  lemma {:induction false} FeedNothing(cfg: Config, m: Cutter)
    ensures Feed(cfg, m, []) == (m, None)
  {
  }

  lemma ReachedMinimal(cfg: Config, m: Cutter, q: bytes)
    requires Reached(cfg, m, q)
    ensures AllMinimal(cfg, m.done)
  {
    FreshSound(cfg);
    var consumed := FeedSound(cfg, FRESH, [], q);
    hide AllMinimal, Feed, Concat, ScanPrefix, Records, Short;
  }

  lemma {:induction false} DoneGrows(cfg: Config, m: Cutter, input: bytes)
    ensures m.done <= Feed(cfg, m, input).0.done
    decreases |input|
  {
    if input != [] && Step(cfg, m, input[0]).Next? {
      DoneGrows(cfg, Step(cfg, m, input[0]).cutter, input[1..]);
    }
  }

  /** At any point of the run the finished chunks are among those of the whole run. */
  lemma WholeChunksLeft(cfg: Config, m: Cutter, input: bytes, q: nat)
    requires q <= |input| && Reached(cfg, m, input[..q])
    ensures |m.done| <= |Cut(cfg, input).chunks| && Cut(cfg, input).chunks[..|m.done|] == m.done
    ensures AllMinimal(cfg, m.done)
    ensures q == |input| ==> Cut(cfg, input) == AtEnd(cfg, m)
  {
    ReachedMinimal(cfg, m, input[..q]);
    FeedOfConcat(cfg, FRESH, input[..q], input[q..]);
    assert input[..q] + input[q..] == input;
    DoneGrows(cfg, m, input[q..]);
    FeedNothing(cfg, m);
    hide Feed, AllMinimal;
  }

  lemma EmptyInput(cfg: Config, m: Cutter, input: bytes)
    requires Reached(cfg, m, input)
    ensures input == [] ==> m == FRESH
    ensures m.current != [] ==> Concat(m.current) != []
  {
    FreshSound(cfg);
    var consumed := FeedSound(cfg, FRESH, [], input);
    NonemptyRecords(cfg, m.current);
  }

  class Slicer {
    const cfg: Config
    const input: bytes
    const base: Files
    var pos: nat
    var readScript: seq<ReadEvent>
    var writeScript: seq<WriteEvent>
    var openScript: seq<OpenEvent>
    var closeScript: seq<bool>
    var files: Files

    var active: bool
    var activePath: bytes
    var chunkIndex: nat
    var chunkBytes: nat
    var chunkRecords: nat
    var recordBytes: nat
    var totalInputBytes: nat
    var csvState: CsvState
    const buffer: array<byte>

    /** What has been written to the active chunk file. */
    ghost var written: bytes

    /** The directory: the finished chunks, and the active file if there is one. */
    ghost predicate Disk(done: seq<bytes>)
      reads `files, `active, `activePath, `written
    {
      var finished := Produced(cfg, base, done);
      && Untouched(base, finished)
      && if active then
        activePath == ChunkPath(cfg, |done| + 1) && activePath !in finished && files == finished[activePath := written]
      else
        written == [] && files == finished
    }

    /** The program's variables against the cutter; `pending` is in the buffer but not yet written. */
    ghost predicate Rep(m: Cutter, pending: bytes)
      reads this, buffer
    {
      && buffer.Length == IO_BUFFER_SIZE
      && csvState == m.csv && recordBytes == |m.partial| && chunkRecords == |m.current|
      && chunkIndex == |m.done| + 1 && chunkBytes == |written|
      && written + pending == Concat(m.current) + m.partial
      && (active <==> written != [])
      && Disk(ChunkBytes(m.done))
    }

    constructor (cfg: Config, input: bytes, files: Files, readScript: seq<ReadEvent>, writeScript: seq<WriteEvent>,
                 openScript: seq<OpenEvent>, closeScript: seq<bool>)
      ensures this.cfg == cfg && this.input == input && base == this.files == files && pos == 0
      ensures this.readScript == readScript && this.writeScript == writeScript
      ensures this.openScript == openScript && this.closeScript == closeScript
      ensures Rep(FRESH, []) && totalInputBytes == 0 && fresh(buffer)
    {
      this.cfg, this.input, this.base, this.files, pos := cfg, input, files, files, 0;
      this.readScript, this.writeScript := readScript, writeScript;
      this.openScript, this.closeScript := openScript, closeScript;
      active, activePath, chunkIndex, written := false, [], 1, [];
      chunkBytes, chunkRecords, recordBytes, totalInputBytes, csvState := 0, 0, 0, 0, Start;
      buffer := new byte[IO_BUFFER_SIZE](_ => 0);
    }

    /** No system call fails from here on. */
    predicate Calm()
      reads `readScript, `writeScript, `openScript, `closeScript
    {
      && (forall i :: 0 <= i < |readScript| ==> !readScript[i].ReadFailed?)
      && (forall i :: 0 <= i < |writeScript| ==> !writeScript[i].WriteFailed? && writeScript[i] != WriteSome(0))
      && (forall i :: 0 <= i < |openScript| ==> openScript[i].Opens?)
      && (forall i :: 0 <= i < |closeScript| ==> closeScript[i])
      && forall i :: 1 <= i <= Names(cfg, input) ==> ChunkPath(cfg, i) !in base && |ChunkPath(cfg, i)| < PATH_MAX
    }

    method AbortCleanup(ghost done: seq<bytes>)
      requires Disk(done)
      modifies this
      ensures !active && files == Produced(cfg, base, done) && Untouched(base, files)
      ensures unchanged(`readScript, `writeScript, `openScript, `closeScript, `pos, `totalInputBytes)
    {
      hide Produced, ChunkPath, Untouched;
      if active {
        active := false;
        files := files - {activePath};
        activePath := [];
      }
    }

    /** Only a path that was there before can be in the way. */
    lemma {:induction false} CalmPath(done: seq<bytes>)
      requires files == Produced(cfg, base, done) && ChunkPath(cfg, |done| + 1) in files
      ensures ChunkPath(cfg, |done| + 1) in base
    {
      var p := ChunkPath(cfg, |done| + 1);
      ProducedKeys(cfg, base, done, p);
      if p !in base {
        var i :| 1 <= i <= |done| && p == ChunkPath(cfg, i);
        ChunkPathIsInjective(cfg, i, |done| + 1);
      }
    }

    method OpenChunk(ghost done: seq<bytes>) returns (hazard: Option<Hazard>)
      requires !active && Disk(done) && chunkIndex == |done| + 1
      modifies `active, `activePath, `files, `openScript
      ensures hazard.None? ==> active && Disk(done)
      ensures hazard.Some? ==> !active && Disk(done)
      ensures hazard ==
        if |ChunkPath(cfg, chunkIndex)| >= PATH_MAX then Some(OutputDirError)
        else if ChunkPath(cfg, chunkIndex) in old(files) then Some(OutputCollision)
        else if old(openScript) != [] && old(openScript)[0] == OpenRefused then Some(ChunkOpenError)
        else None
      ensures old(Calm()) && |done| < Names(cfg, input) ==> hazard.None? && Calm()
    {
      hide Produced, ChunkPath, Untouched, Names;
      activePath := ChunkPath(cfg, chunkIndex);
      if |activePath| >= PATH_MAX {
        activePath := [];
        return Some(OutputDirError);
      }
      var refused := openScript != [] && openScript[0] == OpenRefused;
      openScript := if openScript == [] then [] else openScript[1..];
      if activePath in files {
        CalmPath(done);
        activePath := [];
        return Some(OutputCollision);
      }
      if refused {
        activePath := [];
        return Some(ChunkOpenError);
      }
      files := files[activePath := []];
      active := true;
      return None;
    }

    /** write_all: short writes are continued, interrupted ones repeated. */
    method WriteAll(a: nat, b: nat, ghost done: seq<bytes>) returns (hazard: Option<Hazard>)
      requires a <= b <= buffer.Length && active && Disk(done)
      modifies `files, `writeScript, `written
      ensures Disk(done)
      ensures hazard.None? ==> written == old(written) + buffer[a..b]
      ensures hazard.Some? ==>
        || (hazard.value == BrokenPipe && WriteFailed(true) in old(writeScript))
        || (hazard.value == ChunkWriteError && WriteFailed(false) in old(writeScript))
        || (hazard.value == ChunkWriteError && WriteSome(0) in old(writeScript))
      ensures old(Calm()) ==> hazard.None? && Calm()
    {
      hide Produced, ChunkPath, Untouched, Names;
      var total: nat := 0;
      while total < b - a
        invariant total <= b - a && Disk(done)
        invariant written == old(written) + buffer[a..a + total]
        invariant old(Calm()) ==> Calm()
        invariant forall w :: w in writeScript ==> w in old(writeScript)
        decreases |writeScript| + (b - a - total)
      {
        var w := if writeScript == [] then WriteSome(b - a - total) else writeScript[0];
        writeScript := if writeScript == [] then [] else writeScript[1..];
        match w
        case WriteInterrupted =>
        case WriteFailed(brokenPipe) =>
          return Some(if brokenPipe then BrokenPipe else ChunkWriteError);
        case WriteSome(k) =>
          if k == 0 {
            return Some(ChunkWriteError);
          }
          var n := if k < b - a - total then k else b - a - total;
          var p := a + total;
          files := files[activePath := files[activePath] + buffer[p..p + n]];
          written := written + buffer[p..p + n];
          total := total + n;
      }
      return None;
    }

    method WriteToChunk(a: nat, b: nat, ghost done: seq<bytes>) returns (hazard: Option<Hazard>)
      requires a <= b <= buffer.Length && Disk(done) && chunkIndex == |done| + 1
      requires (active <==> written != []) && chunkBytes == |written|
      modifies `files, `writeScript, `written, `active, `activePath, `openScript, `chunkBytes
      ensures hazard.None? ==>
        && Disk(done) && written == old(written) + buffer[a..b] && chunkBytes == |written|
        && (active <==> written != [])
      ensures hazard.Some? ==> !active && files == Produced(cfg, base, done) && Untouched(base, files)
      ensures old(Calm()) && |done| < Names(cfg, input) ==> hazard.None? && Calm()
    {
      hide Produced, ChunkPath, Untouched, Names, Calm;
      if b == a {
        return None;
      }
      if !active {
        hazard := OpenChunk(done);
        if hazard.Some? {
          return;
        }
      }
      hazard := WriteAll(a, b, done);
      if hazard.Some? {
        active := false;
        files := files - {activePath};
        activePath := [];
        return;
      }
      chunkBytes := chunkBytes + (b - a);
    }

    method CloseChunk(ghost done: seq<bytes>) returns (hazard: Option<Hazard>)
      requires Disk(done) && chunkIndex == |done| + 1
      modifies `files, `written, `active, `activePath, `closeScript, `chunkIndex, `chunkBytes, `chunkRecords
      ensures !active && Untouched(base, files)
      ensures hazard.None? && old(active) ==>
        && Disk(done + [old(written)]) && chunkIndex == |done| + 2 && chunkBytes == 0 && chunkRecords == 0
      ensures hazard.None? && !old(active) ==> files == Produced(cfg, base, done)
      ensures hazard.Some? ==> files == Produced(cfg, base, done)
      ensures hazard ==
        if old(active) && old(closeScript) != [] && !old(closeScript)[0] then Some(ChunkWriteError) else None
      ensures old(Calm()) ==> hazard.None? && Calm()
    {
      hide Produced, ChunkPath, Untouched, Names;
      if !active {
        return None;
      }
      NewFile(base, Produced(cfg, base, done), activePath, written);
      var closed := closeScript == [] || closeScript[0];
      closeScript := if closeScript == [] then [] else closeScript[1..];
      active := false;
      if !closed {
        files := files - {activePath};
        assert files == Produced(cfg, base, done);
        activePath := [];
        return Some(ChunkWriteError);
      }
      ProducedOneMore(cfg, base, done, written);
      activePath := [];
      chunkIndex := chunkIndex + 1;
      chunkBytes, chunkRecords := 0, 0;
      written := [];
      return None;
    }

    /** read(2): -1 for a failure, -2 for an interruption, 0 at the end of the input. */
    method Read() returns (n: int)
      requires pos <= |input| && buffer.Length == IO_BUFFER_SIZE
      modifies `pos, `readScript, buffer
      ensures -2 <= n <= IO_BUFFER_SIZE && pos <= |input|
      ensures n <= 0 ==> pos == old(pos)
      ensures n >= 0 ==> pos == old(pos) + n && buffer[..n] == input[old(pos)..pos]
      ensures n == 0 <==> n >= 0 && old(pos) == |input|
      ensures n != 0 ==> |readScript| + |input| - pos < old(|readScript| + |input| - pos)
      ensures old(Calm()) ==> Calm() && n != -1
    {
      var e := if readScript == [] then ReadSome(IO_BUFFER_SIZE) else readScript[0];
      readScript := if readScript == [] then [] else readScript[1..];
      match e
      case ReadInterrupted => return -2;
      case ReadFailed => return -1;
      case ReadSome(k) =>
        var most := if |input| - pos < IO_BUFFER_SIZE then |input| - pos else IO_BUFFER_SIZE;
        n := if k < most then (if k == 0 && most > 0 then 1 else k) else most;
        for i := 0 to n
          invariant pos == old(pos) && readScript == (if old(readScript) == [] then [] else old(readScript[1..]))
          invariant buffer[..i] == input[pos..pos + i]
        {
          buffer[i] := input[pos + i];
          assert buffer[..i + 1] == buffer[..i] + [buffer[i]];
          assert input[pos..pos + i + 1] == input[pos..pos + i] + [input[pos + i]];
        }
        pos := pos + n;
    }

    /** Lines 426-438. */
    method SplitIfFull(ghost done: seq<Chunk>, ghost current: Chunk) returns (hazard: Option<Hazard>)
      requires buffer.Length == IO_BUFFER_SIZE && current != [] && written == Concat(current) != []
      requires chunkRecords == |current| && chunkIndex == |done| + 1 && chunkBytes == |written|
      requires active && Disk(ChunkBytes(done)) && recordBytes == 0 && csvState == Start
      modifies `files, `written, `active, `activePath, `closeScript, `chunkIndex, `chunkBytes, `chunkRecords
      ensures hazard.None? ==> Rep(
        if Full(cfg, current) then Cutter(Start, done + [current], [], []) else Cutter(Start, done, current, []), [])
      ensures hazard.Some? ==> !active && files == Produced(cfg, base, ChunkBytes(done)) && Untouched(base, files)
      ensures old(Calm()) ==> hazard.None? && Calm()
    {
      hide Produced, ChunkPath, Untouched, Concat, ChunkBytes, Calm;
      Pushed(done, current);
      EmptyConcat();
      hazard := None;
      var shouldSplit := false;
      if cfg.limitBytes > 0 && chunkBytes >= cfg.limitBytes {
        shouldSplit := true;
      }
      if cfg.limitRecords > 0 && chunkRecords >= cfg.limitRecords {
        shouldSplit := true;
      }
      if shouldSplit {
        hazard := CloseChunk(ChunkBytes(done));
      }
    }

    /** Lines 418-438: the record that ends at buffer[i]. */
    method FinishRecord(sliceStart: nat, i: nat, ghost m: Cutter, ghost q: nat) returns (hazard: Option<Hazard>)
      requires sliceStart <= i < buffer.Length == IO_BUFFER_SIZE && q < |input|
      requires Reached(cfg, EndRecord(cfg, m, m.partial + [buffer[i]]), input[..q + 1])
      requires chunkRecords == |m.current| && chunkIndex == |m.done| + 1 && chunkBytes == |written|
      requires written + buffer[sliceStart..i + 1] == Concat(m.current) + (m.partial + [buffer[i]])
      requires (active <==> written != []) && Disk(ChunkBytes(m.done))
      modifies `files, `written, `active, `activePath, `closeScript, `chunkIndex, `chunkBytes, `chunkRecords
      modifies `writeScript, `openScript, `recordBytes, `csvState
      ensures hazard.None? ==> Rep(EndRecord(cfg, m, m.partial + [buffer[i]]), [])
      ensures hazard.Some? ==> !active && files == Produced(cfg, base, ChunkBytes(m.done)) && Untouched(base, files)
      ensures old(Calm()) ==> hazard.None? && Calm()
    {
      hide Produced, ChunkPath, Untouched, Reached, Concat, ChunkBytes, Calm, Full;
      ghost var done := ChunkBytes(m.done);
      RecordNeedsName(cfg, m, m.partial + [buffer[i]], input, q + 1);
      hide EndRecord, Names;
      hazard := WriteToChunk(sliceStart, i + 1, done);
      if hazard.Some? {
        return;
      }
      recordBytes := 0;
      csvState := Start;
      chunkRecords := chunkRecords + 1;
      ghost var record := m.partial + [buffer[i]];
      PushedRecord(m.current, record);
      hazard := SplitIfFull(m.done, m.current + [record]);
    }

    /** Lines 337-438: one byte of the buffer. */
    method TakeByte(i: nat, sliceStart: nat, ghost m: Cutter, ghost q: nat)
      returns (start: nat, hazard: Option<Hazard>, ghost m': Cutter)
      requires sliceStart <= i < buffer.Length && Rep(m, buffer[sliceStart..i])
      requires q < |input| && Reached(cfg, m, input[..q]) && input[q] == buffer[i]
      modifies this
      ensures pos == old(pos) && readScript == old(readScript) && totalInputBytes == old(totalInputBytes)
      ensures hazard.None? ==>
        && Step(cfg, m, buffer[i]) == Next(m') && start <= i + 1 && Rep(m', buffer[start..i + 1])
      ensures hazard.Some? ==> !active && files == Produced(cfg, base, ChunkBytes(m.done)) && Untouched(base, files)
      ensures old(Calm()) ==> Calm() && (hazard.Some? ==> Step(cfg, m, buffer[i]) == Stop(hazard.value))
    {
      hide Produced, ChunkPath, Untouched, ScanByte, Full, Reached, Calm;
      var c := buffer[i];
      m', start, hazard := m, sliceStart, None;
      if c == NUL {
        AbortCleanup(ChunkBytes(m.done));
        hazard := Some(if cfg.format.Ndjson? then MalformedNdjson else MalformedCsv);
        return;
      }
      recordBytes := recordBytes + 1;
      if recordBytes > MAX_RECORD_BYTES {
        AbortCleanup(ChunkBytes(m.done));
        hazard := Some(RecordLengthLimit);
        return;
      }
      assert buffer[sliceStart..i + 1] == buffer[sliceStart..i] + [c];
      OneMoreByte(written, buffer[sliceStart..i], Concat(m.current), m.partial, c);
      match ScanByte(cfg.format, csvState, c)
      case Malformed =>
        AbortCleanup(ChunkBytes(m.done));
        hazard := Some(MalformedCsv);
      case Goto(s) =>
        csvState := s;
        m' := m.(csv := s, partial := m.partial + [c]);
      case Boundary =>
        start := i + 1;
        ReachedStep(cfg, m, input, q, EndRecord(cfg, m, m.partial + [c]));
        hazard := FinishRecord(sliceStart, i, m, q);
        m' := EndRecord(cfg, m, m.partial + [c]);
        assert buffer[i + 1..i + 1] == [];
    }

    /** Lines 334-447: what is done with the n bytes that were read. */
    method ProcessBuffer(n: nat, ghost m: Cutter)
      returns (hazard: Option<Hazard>, ghost m': Cutter, ghost q: nat)
      requires 0 < n <= pos <= |input| && n <= IO_BUFFER_SIZE == buffer.Length && buffer[..n] == input[pos - n..pos]
      requires Rep(m, []) && Reached(cfg, m, input[..pos - n])
      modifies this
      ensures pos == old(pos) && readScript == old(readScript) && totalInputBytes == old(totalInputBytes)
      ensures q <= |input| && Reached(cfg, m', input[..q])
      ensures hazard.None? ==> q == pos && Rep(m', [])
      ensures hazard.Some? ==> !active && files == Produced(cfg, base, ChunkBytes(m'.done)) && Untouched(base, files)
      ensures old(Calm()) ==> Calm()
      ensures old(Calm()) && hazard.Some? ==> q < |input| && Step(cfg, m', input[q]) == Stop(hazard.value)
    {
      hide Produced, ChunkPath, Untouched, Step, Full, Reached, Calm, Disk;
      m', q, hazard := m, pos - n, None;
      var sliceStart: nat := 0;
      for i := 0 to n
        invariant pos == old(pos) && readScript == old(readScript) && totalInputBytes == old(totalInputBytes)
        invariant hazard.None? && q == pos - n + i && Reached(cfg, m', input[..q])
        invariant sliceStart <= i && Rep(m', buffer[sliceStart..i])
        invariant buffer[..n] == input[pos - n..pos]
        invariant old(Calm()) ==> Calm()
      {
        assert buffer[i] == buffer[..n][i] == input[q];
        ghost var next;
        sliceStart, hazard, next := TakeByte(i, sliceStart, m', q);
        if hazard.Some? {
          return;
        }
        ReachedStep(cfg, m', input, q, next);
        m', q := next, q + 1;
      }
      if sliceStart < n {
        PendingNeedsName(cfg, m', input, q, written, buffer[sliceStart..n]);
        hazard := WriteToChunk(sliceStart, n, ChunkBytes(m'.done));
      }
    }

    /** Lines 450-479: the end of the input. */
    method FinishStream(ghost m: Cutter) returns (hazard: Option<Hazard>)
      requires Rep(m, []) && Reached(cfg, m, input) && totalInputBytes == |input|
      modifies this
      ensures Untouched(base, files) && !active
      ensures hazard.None? ==>
        AtEnd(cfg, m).hazard.None? && files == Produced(cfg, base, ChunkBytes(AtEnd(cfg, m).chunks))
      ensures hazard.Some? ==> files == Produced(cfg, base, ChunkBytes(m.done))
      ensures old(Calm()) ==> hazard == AtEnd(cfg, m).hazard
    {
      hide Produced, ChunkPath, Untouched, Concat, Calm, Reached;
      ghost var last := if m.partial == [] then m.current else m.current + [m.partial];
      ghost var done := ChunkBytes(m.done);
      PushedRecord(m.current, m.partial);
      Pushed(m.done, last);
      EmptyInput(cfg, m, input);
      EmptyConcat();
      assert written == written + [] == Concat(last) by {
        if m.partial == [] { assert Concat(m.current) + [] == Concat(m.current); }
      }
      if totalInputBytes == 0 {
        return None;
      }
      if cfg.format.Ndjson? {
        if recordBytes > 0 {
          AbortCleanup(done);
          return Some(MalformedNdjson);
        }
        hazard := CloseChunk(done);
      } else {
        if csvState == Quoted {
          AbortCleanup(done);
          return Some(MalformedCsv);
        }
        if recordBytes > 0 {
          chunkRecords := chunkRecords + 1;
        }
        hazard := CloseChunk(done);
      }
    }

    method StreamSlice() returns (hazard: Option<Hazard>)
      requires Rep(FRESH, []) && pos == 0 && totalInputBytes == 0 && base == files
      modifies this, buffer
      ensures Untouched(base, files) && !active
      ensures hazard.None? ==>
        Cut(cfg, input).hazard.None? && files == Produced(cfg, base, ChunkBytes(Cut(cfg, input).chunks))
      ensures hazard.Some? ==>
        exists k :: 0 <= k <= |Cut(cfg, input).chunks| && OnlyWholeChunks(cfg, base, files, Cut(cfg, input).chunks[..k])
      ensures old(Calm()) ==> hazard == Cut(cfg, input).hazard
      ensures old(Calm()) ==> files == Produced(cfg, base, ChunkBytes(Cut(cfg, input).chunks))
    {
      hide Produced, ChunkPath, Untouched, Step, Full, Calm, Disk, Cut, Feed;
      ghost var m := FRESH;
      assert Reached(cfg, m, input[..0]) by { ReachedFresh(cfg); assert input[..0] == []; }
      hide Reached;
      while true
        invariant pos <= |input| && Rep(m, []) && Reached(cfg, m, input[..pos])
        invariant totalInputBytes == pos
        invariant old(Calm()) ==> Calm()
        decreases |readScript| + |input| - pos
      {
        var n := Read();
        if n == -2 {
          continue;
        }
        if n == -1 {
          WholeChunksLeft(cfg, m, input, pos);
          AbortCleanup(ChunkBytes(m.done));
          return Some(InputReadError);
        }
        if n == 0 {
          break;
        }
        totalInputBytes := totalInputBytes + n;
        ghost var q;
        hazard, m, q := ProcessBuffer(n, m);
        if hazard.Some? {
          WholeChunksLeft(cfg, m, input, q);
          if old(Calm()) {
            StopsThere(cfg, m, input, q, hazard.value);
          }
          return;
        }
      }
      assert input[..pos] == input;
      WholeChunksLeft(cfg, m, input, pos);
      hazard := FinishStream(m);
    }
  }

  lemma NamesOfSuccess(cfg: Config, input: bytes)
    requires Cut(cfg, input).hazard.None?
    ensures Names(cfg, input) == |Cut(cfg, input).chunks|
  {
    hide Feed;
  }

  /** The first chunk of a run in directory out with prefix p_, and the chunk after 99999 others in out/. */
  lemma ChunkPathExample()
    ensures ChunkPath(Config(Csv, 0, 0, Ascii("out"), Ascii("p_")), 1) == Ascii("out/p_00001.csv")
    ensures ChunkPath(Config(Ndjson, 0, 0, Ascii("out/"), Ascii("p_")), 4096) == Ascii("out/p_04096.ndjson")
  {
    DecExample();
    assert Dec(1) == [49] && ZeroDigits(4) == [48, 48, 48, 48];
    assert Pad5(1) == [48, 48, 48, 48, 49];
    hide Pad5, Dec;
  }

  /** The number in a chunk's name is its own, padded to five digits and longer if need be. */
  lemma {:induction false} ChunkNumber(i: nat)
    ensures Value(Pad5(i)) == i && |Pad5(i)| >= 5 && (|Pad5(i)| > 5 ==> Pad5(i) == Dec(i))
  {
    ValueOfDec(i);
    LeadingZeros(if |Dec(i)| < 5 then 5 - |Dec(i)| else 0, Dec(i));
  }

  /** After a run every chunk is under its own name, and what was there under other names still is. */
  lemma {:induction false} ProducedMeans(cfg: Config, base: Files, chunks: seq<bytes>, p: bytes)
    ensures forall i :: 1 <= i <= |chunks| ==>
      var files := Produced(cfg, base, chunks);
      ChunkPath(cfg, i) in files && files[ChunkPath(cfg, i)] == chunks[i - 1]
    ensures (forall i :: 1 <= i <= |chunks| ==> p != ChunkPath(cfg, i)) ==>
      (p in Produced(cfg, base, chunks) <==> p in base) && (p in base ==> Produced(cfg, base, chunks)[p] == base[p])
  {
    hide ChunkPath;
    if chunks != [] {
      var n := |chunks| - 1;
      ProducedMeans(cfg, base, chunks[..n], p);
      forall i | 1 <= i <= n
        ensures ChunkPath(cfg, i) != ChunkPath(cfg, |chunks|)
      {
        if ChunkPath(cfg, i) == ChunkPath(cfg, |chunks|) {
          ChunkPathIsInjective(cfg, i, |chunks|);
        }
      }
    }
  }
}
