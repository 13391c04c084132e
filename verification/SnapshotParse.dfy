/**
 * parse_snapshot of src/sysdiff.c: which files are accepted, what an accepted file stands for, and that the
 * order of its lines does not matter.
 */
module SnapshotParse {
  import opened Bytes
  import opened Options
  import opened SnapshotDiff
  import opened Sorting

  const MAX_LINE_BYTES: nat := 65536
  const MAX_ENTRIES: nat := 65536
  const MAX_SNAPSHOT_BYTES: nat := 16777216

  datatype LineStatus = LineOk | LineEof | EmbeddedNul | TooLong | ByteLimit | LineReadError | LineAllocError

  /** What is wrong with byte k of the line that s starts with, when total bytes were read before it. */
  function Fault(s: bytes, total: nat, k: nat): LineStatus
    requires k < |s|
  {
    if total + k >= MAX_SNAPSHOT_BYTES then ByteLimit
    else if s[k] == NUL then EmbeddedNul
    else if s[k] != LF && k > MAX_LINE_BYTES then TooLong
    else LineOk
  }

  predicate FaultlessTo(s: bytes, total: nat, n: nat) {
    n <= |s| && forall k: nat :: k < n ==> Fault(s, total, k) == LineOk
  }

  predicate FirstFault(s: bytes, total: nat, k: nat, status: LineStatus) {
    FaultlessTo(s, total, k) && k < LineLength(s) && Fault(s, total, k) == status
  }

  lemma {:induction false} LineLengthFrom(s: bytes, k: nat)
    requires k <= |s| && forall j :: 0 <= j < k ==> s[j] != LF
    ensures k < |s| ==> LineLength(s) > k
    ensures k == |s| ==> LineLength(s) == k
    ensures k < |s| && s[k] == LF ==> LineLength(s) == k + 1
  {
    if k > 0 {
      LineLengthFrom(s[1..], k - 1);
    }
  }

  /** A script of how the successive allocations turn out; beyond its end memory suffices. */
  class Memory {
    var script: seq<bool>

    constructor (script: seq<bool>)
      ensures this.script == script
    {
      this.script := script;
    }

    predicate Ample()
      reads this
    {
      false !in script
    }

    method Alloc() returns (ok: bool)
      modifies this
      ensures old(Ample()) ==> ok && Ample()
    {
      ok := script == [] || script[0];
      script := if script == [] then [] else script[1..];
    }
  }

  /** A file as its reader meets it: it may not open, break off in a read error, or fail to close. */
  datatype Source = Source(file: bytes, opens: bool, breaks: bool, closes: bool)

  predicate Works(source: Source) {
    source.opens && !source.breaks && source.closes
  }

  /** There is a line at the start of s, without fault, and complete if the stream breaks off. */
  predicate Readable(s: bytes, total: nat, breaks: bool) {
    && s != [] && FaultlessTo(s, total, LineLength(s))
    && (breaks ==> s[LineLength(s) - 1] == LF)
  }

  /** The stream a snapshot is read from, and the count of bytes charged against its limit. */
  class SnapshotFile {
    const file: bytes
    const breaks: bool
    var at: nat
    var total: nat

    constructor (file: bytes, breaks: bool)
      ensures this.file == file && this.breaks == breaks && at == 0 && total == 0
    {
      this.file, this.breaks := file, breaks;
      at, total := 0, 0;
    }

    /** read_line: up to and with the line feed, or what is left of the file. */
    method ReadLine(memory: Memory) returns (status: LineStatus, line: bytes)
      requires at <= |file|
      modifies this, memory
      ensures old(at) <= at <= |file|
      ensures status == LineEof <==> old(at) == |file| && !breaks
      ensures status == LineEof ==> at == old(at) && total == old(total)
      ensures status == LineOk ==> Readable(file[old(at)..], old(total), breaks)
      ensures old(memory.Ample()) && Readable(file[old(at)..], old(total), breaks) ==> status == LineOk
      ensures status == LineOk ==> |line| == LineLength(file[old(at)..]) && line == file[old(at)..][..|line|]
      ensures status == LineOk ==> at == old(at) + |line| && total == old(total) + |line|
      ensures status == LineReadError ==> breaks && FaultlessTo(file[old(at)..], old(total), |file| - old(at))
      ensures status == LineAllocError ==> !old(memory.Ample())
      ensures status == EmbeddedNul || status == TooLong || status == ByteLimit ==>
        exists k: nat :: FirstFault(file[old(at)..], old(total), k, status)
      ensures old(memory.Ample()) ==> memory.Ample()
    {
      hide LineLength;
      ghost var s := file[at..];
      line := [];
      var cap := 0;
      while true
        invariant at == old(at) + |line| <= |file| && line == s[..|line|]
        invariant total == old(total) + |line| && LF !in line
        invariant FaultlessTo(s, old(total), |line|)
        invariant |line| <= MAX_LINE_BYTES + 1 && cap <= 2 * MAX_LINE_BYTES + 6
        invariant old(memory.Ample()) ==> memory.Ample()
        decreases |file| - at
      {
        LineLengthFrom(s, |line|);
        if at == |file| {
          status := if breaks then LineReadError else if line == [] then LineEof else LineOk;
          return;
        }
        var ch := file[at];
        assert s[|line|] == ch;
        at := at + 1;
        if total >= MAX_SNAPSHOT_BYTES {
          assert FirstFault(s, old(total), |line|, ByteLimit);
          status := ByteLimit;
          return;
        }
        total := total + 1;
        if ch == NUL {
          assert FirstFault(s, old(total), |line|, EmbeddedNul);
          status := EmbeddedNul;
          return;
        }
        if ch != LF && |line| > MAX_LINE_BYTES {
          assert FirstFault(s, old(total), |line|, TooLong);
          status := TooLong;
          return;
        }
        assert Fault(s, old(total), |line|) == LineOk;
        if cap == 0 || |line| >= cap - 1 {
          var ok := memory.Alloc();
          if !ok {
            status := LineAllocError;
            return;
          }
          cap := if cap == 0 then 128 else cap * 2;
        }
        assert s[..|line| + 1] == line + [ch];
        line := line + [ch];
        if ch == LF {
          status := LineOk;
          return;
        }
      }
    }
  }

  /** A line without its line feed or its carriage return and line feed. */
  function Strip(line: bytes): bytes {
    var n := |line|;
    if n > 0 && line[n - 1] == LF then
      if n > 1 && line[n - 2] == CR then line[..n - 2] else line[..n - 1]
    else line
  }

  /** The contents of the lines of a file. */
  function Contents(s: bytes): seq<bytes>
    decreases |s|
  {
    if s == [] then [] else [Strip(s[..LineLength(s)])] + Contents(s[LineLength(s)..])
  }

  /** A blank or comment line. */
  predicate Skipped(line: bytes) {
    SkipBlanks(line) == [] || SkipBlanks(line)[0] == HASH
  }

  /** A dotted name: no leading slash, no trailing dot, no two dots in a row, and at least one dot. */
  predicate ValidKey(k: bytes) {
    && k != [] && k[0] != SLASH && k[|k| - 1] != DOT && KeyText(k) && DOT in k
    && forall i :: 0 < i < |k| ==> k[i - 1] != DOT || k[i] != DOT
  }

  method IsValidKey(key: bytes) returns (ok: bool)
    ensures ok <==> ValidKey(key)
  {
    var sawDot := false;
    if |key| == 0 || key[0] == SLASH || key[|key| - 1] == DOT {
      return false;
    }
    for i := 0 to |key|
      invariant sawDot <==> DOT in key[..i]
      invariant forall j :: 0 <= j < i ==> KeyByte(key[j])
      invariant forall j :: 0 < j < i ==> key[j - 1] != DOT || key[j] != DOT
    {
      assert key[..i + 1] == key[..i] + [key[i]];
      if !KeyByte(key[i]) {
        return false;
      }
      if key[i] == DOT {
        sawDot := true;
        if i > 0 && key[i - 1] == DOT {
          return false;
        }
      }
    }
    assert key[..|key|] == key;
    ok := sawDot;
  }

  /** A line that is passed over, or that gives a key and a value. */
  predicate GoodLine(line: bytes) {
    |line| <= MAX_LINE_BYTES && (Skipped(line) || (EQUALS in line && ValidKey(Before(line, EQUALS))))
  }

  function EntryOf(line: bytes): Entry {
    Entry(Before(line, EQUALS), After(line, EQUALS))
  }

  function EntriesOf(lines: seq<bytes>): seq<Entry> {
    if lines == [] then []
    else (if Skipped(lines[0]) then [] else [EntryOf(lines[0])]) + EntriesOf(lines[1..])
  }

  predicate AllGood(lines: seq<bytes>) {
    forall i :: 0 <= i < |lines| ==> GoodLine(lines[i])
  }

  predicate DistinctKeys(es: seq<Entry>) {
    forall i, j :: 0 <= i < j < |es| ==> es[i].key != es[j].key
  }

  /** Which files are accepted. */
  predicate Acceptable(file: bytes) {
    && |file| <= MAX_SNAPSHOT_BYTES && NulFree(file)
    && AllGood(Contents(file))
    && |EntriesOf(Contents(file))| <= MAX_ENTRIES
    && DistinctKeys(EntriesOf(Contents(file)))
  }

  /** The line is the key, an equals sign that the key does not have, and the value. */
  predicate Spells(e: Entry, line: bytes) {
    EQUALS !in e.key && e.key + [EQUALS] + e.value == line
  }

  /** An entry takes its line apart at the first equals sign and loses nothing. */
  lemma EntrySplitsLine(line: bytes)
    requires EQUALS in line
    ensures Spells(EntryOf(line), line)
  {
    var k := Before(line, EQUALS);
    assert After(line, EQUALS) == line[|k| + 1..];
    hide Before, After;
    assert line == k + [EQUALS] + line[|k| + 1..];
  }

  datatype LineResult = Pass | Pair(entry: Entry) | Malformed

  /** The part of parse_snapshot's loop that looks at one line. */
  method ParseContent(line: bytes) returns (r: LineResult)
    ensures r == Malformed <==> !GoodLine(line)
    ensures r == Pass ==> Skipped(line)
    ensures r.Pair? ==> !Skipped(line) && r.entry == EntryOf(line)
    ensures r.Pair? ==> Spells(r.entry, line)
  {
    if |line| > MAX_LINE_BYTES {
      return Malformed;
    }
    if SkipBlanks(line) == [] || SkipBlanks(line)[0] == HASH {
      return Pass;
    }
    var key := Before(line, EQUALS);
    if key == line || key == [] {
      return Malformed;
    }
    var ok := IsValidKey(key);
    EntrySplitsLine(line);
    r := if ok then Pair(EntryOf(line)) else Malformed;
  }

  /** No entry is below an earlier one. */
  predicate NotBelow(es: seq<Entry>) {
    forall i, j :: 0 <= i < j < |es| ==> !Less(es[j].key, es[i].key)
  }

  lemma NotBelowMeans(es: seq<Entry>)
    ensures NotBelow(es) <==> forall i, j :: 0 <= i < j < |es| ==> !ByKey()(es[j], es[i])
  {
    hide Less;
    forall i, j | 0 <= i < j < |es|
      ensures ByKey()(es[j], es[i]) <==> Less(es[j].key, es[i].key)
    {
    }
  }

  lemma InsertInOrder(sorted: seq<Entry>, e: Entry, k: nat)
    requires NotBelow(sorted) && k <= |sorted|
    requires forall j :: 0 <= j < k ==> !Less(e.key, sorted[j].key)
    requires k < |sorted| ==> Less(e.key, sorted[k].key)
    ensures NotBelow(sorted[..k] + [e] + sorted[k..])
  {
    hide Less;
    var s := sorted[..k] + [e] + sorted[k..];
    forall j | k <= j < |sorted|
      ensures !Less(sorted[j].key, e.key)
    {
      if Less(sorted[j].key, e.key) {
        LessTransitive(sorted[j].key, e.key, sorted[k].key);
        LessIrreflexive(sorted[k].key);
      }
    }
  }

  lemma InsertKeepsSorted(sorted: seq<Entry>, items: seq<Entry>, e: Entry, k: nat)
    requires Sorts(sorted, items, ByKey()) && k <= |sorted|
    requires forall j :: 0 <= j < k ==> !Less(e.key, sorted[j].key)
    requires k < |sorted| ==> Less(e.key, sorted[k].key)
    ensures Sorts(sorted[..k] + [e] + sorted[k..], items + [e], ByKey())
  {
    hide Less, NotBelow;
    var s := sorted[..k] + [e] + sorted[k..];
    NotBelowMeans(sorted);
    InsertInOrder(sorted, e, k);
    NotBelowMeans(s);
    assert sorted == sorted[..k] + sorted[k..];
    assert multiset(s) == multiset(items + [e]);
  }

  /** qsort by key: some arrangement in which no entry is below an earlier one. */
  method SortByKey(items: seq<Entry>) returns (sorted: seq<Entry>)
    ensures Sorts(sorted, items, ByKey())
  {
    hide Less;
    sorted := [];
    for i := 0 to |items|
      invariant Sorts(sorted, items[..i], ByKey())
    {
      var k := 0;
      while k < |sorted| && !Less(items[i].key, sorted[k].key)
        invariant 0 <= k <= |sorted|
        invariant forall j :: 0 <= j < k ==> !Less(items[i].key, sorted[j].key)
      {
        k := k + 1;
      }
      InsertKeepsSorted(sorted, items[..i], items[i], k);
      assert items[..i + 1] == items[..i] + [items[i]];
      sorted := sorted[..k] + [items[i]] + sorted[k..];
    }
    assert items[..|items|] == items;
  }

  lemma {:induction false} NeighboursAscend(items: seq<Entry>, i: nat, j: nat)
    requires i < j < |items|
    requires NotBelow(items)
    requires forall j :: 0 < j < |items| ==> items[j - 1].key != items[j].key
    ensures Less(items[i].key, items[j].key)
    decreases j
  {
    hide Less;
    LessTotal(items[j - 1].key, items[j].key);
    if i < j - 1 {
      NeighboursAscend(items, i, j - 1);
      LessTransitive(items[i].key, items[j - 1].key, items[j].key);
    }
  }

  lemma NeighboursDiffer(items: seq<Entry>)
    requires NotBelow(items)
    requires forall j :: 0 < j < |items| ==> items[j - 1].key != items[j].key
    ensures Sorted(items) && DistinctKeys(items)
  {
    hide Less;
    forall i, j | 0 <= i < j < |items|
      ensures Less(items[i].key, items[j].key) && items[i].key != items[j].key
    {
      NeighboursAscend(items, i, j);
      LessIrreflexive(items[i].key);
    }
  }

  /** validate_no_duplicates looks at neighbours only; after the sort that is enough. */
  method ValidateNoDuplicates(items: seq<Entry>) returns (ok: bool)
    requires NotBelow(items)
    ensures ok <==> DistinctKeys(items)
    ensures ok <==> Sorted(items)
  {
    hide Less;
    var i := 1;
    while i < |items|
      invariant 1 <= i
      invariant forall j :: 0 < j < i && j < |items| ==> items[j - 1].key != items[j].key
    {
      if items[i - 1].key == items[i].key {
        LessIrreflexive(items[i].key);
        return false;
      }
      i := i + 1;
    }
    NeighboursDiffer(items);
    ok := true;
  }

  datatype ParseResult = Accepted(entries: seq<Entry>) | Rejected

  /** The first at bytes are read: they are counted, hold no NUL and give the lines done. */
  predicate Consumed(file: bytes, at: nat, total: nat, done: seq<bytes>) {
    && at <= |file| && total == at <= MAX_SNAPSHOT_BYTES && NulFree(file[..at])
    && Contents(file) == done + Contents(file[at..])
  }

  lemma {:induction false} ReadableMeans(s: bytes, total: nat, breaks: bool)
    requires Readable(s, total, breaks)
    ensures s != [] && FaultlessTo(s, total, LineLength(s))
  {
  }

  /** The growing array of entries. */
  class EntryBuffer {
    var items: seq<Entry>
    var cap: nat

    predicate Valid()
      reads this
    {
      |items| <= cap <= MAX_ENTRIES
    }

    constructor ()
      ensures Valid() && items == []
    {
      items, cap := [], 0;
    }

    /** snapshot_append: doubling, but never beyond the entry limit. */
    method Append(e: Entry, memory: Memory) returns (ok: bool)
      requires Valid()
      modifies this, memory
      ensures Valid() && items == if ok then old(items) + [e] else old(items)
      ensures ok ==> |old(items)| < MAX_ENTRIES
      ensures old(memory.Ample()) ==> memory.Ample() && (ok <==> |old(items)| < MAX_ENTRIES)
    {
      if |items| >= MAX_ENTRIES {
        return false;
      }
      if |items| == cap {
        var grown := if cap == 0 then 8 else cap * 2;
        var granted := memory.Alloc();
        if !granted {
          return false;
        }
        cap := if grown > MAX_ENTRIES then MAX_ENTRIES else grown;
      }
      items := items + [e];
      ok := true;
    }
  }

  lemma SortedForward(sorted: seq<Entry>, items: seq<Entry>)
    requires Sorts(sorted, items, ByKey())
    ensures NotBelow(sorted)
  {
    NotBelowMeans(sorted);
  }

  /** Having distinct keys is having rows that strcmp tells apart. */
  lemma DistinctIsSeparated(es: seq<Entry>)
    ensures DistinctKeys(es) <==> Separated(es, ByKey())
  {
    hide Less;
    forall i, j | 0 <= i < j < |es|
      ensures es[i].key != es[j].key <==> ByKey()(es[i], es[j]) || ByKey()(es[j], es[i])
    {
      LessTotal(es[i].key, es[j].key);
      LessIrreflexive(es[i].key);
    }
  }

  /** No two keys are equal in one arrangement exactly when none are in another. */
  lemma DistinctWhenSorted(a: seq<Entry>, b: seq<Entry>)
    requires multiset(a) == multiset(b)
    ensures DistinctKeys(a) <==> DistinctKeys(b)
  {
    hide Less, DistinctKeys;
    DistinctIsSeparated(a);
    DistinctIsSeparated(b);
    ByKeyIsStrict();
    if Separated(a, ByKey()) {
      forall i, j | 0 <= i < j < |b|
        ensures ByKey()(b[i], b[j]) || ByKey()(b[j], b[i])
      {
        SeparatedPair(b, a, ByKey(), i, j);
      }
    }
    if Separated(b, ByKey()) {
      forall i, j | 0 <= i < j < |a|
        ensures ByKey()(a[i], a[j]) || ByKey()(a[j], a[i])
      {
        SeparatedPair(a, b, ByKey(), i, j);
      }
    }
  }

  lemma {:induction false} KeysAreText(lines: seq<bytes>)
    requires AllGood(lines)
    ensures forall e :: e in EntriesOf(lines) ==> KeyText(e.key)
  {
    hide Less, Before, After, SkipBlanks;
    if lines != [] {
      assert GoodLine(lines[0]);
      KeysAreText(lines[1..]);
    }
  }

  /** The end of parse_snapshot: sort, then look for duplicates. */
  method Finish(file: bytes, items: seq<Entry>) returns (r: ParseResult)
    requires |file| <= MAX_SNAPSHOT_BYTES && NulFree(file)
    requires AllGood(Contents(file)) && items == EntriesOf(Contents(file)) && |items| <= MAX_ENTRIES
    ensures r.Accepted? <==> Acceptable(file)
    ensures r.Accepted? ==> Sorts(r.entries, EntriesOf(Contents(file)), ByKey())
    ensures r.Accepted? ==> Sorted(r.entries) && GoodEntries(r.entries)
  {
    hide Less, GoodLine, EntriesOf, Contents, NulFree, DistinctKeys;
    var sorted := SortByKey(items);
    SortedForward(sorted, items);
    var ok := ValidateNoDuplicates(sorted);
    DistinctWhenSorted(sorted, items);
    if !ok {
      return Rejected;
    }
    KeysAreText(Contents(file));
    SameMembers(sorted, items);
    forall i | 0 <= i < |sorted|
      ensures KeyText(sorted[i].key)
    {
      assert sorted[i] in sorted;
    }
    r := Accepted(sorted);
  }

  lemma NothingConsumed(file: bytes)
    ensures Consumed(file, 0, 0, []) && AllGood([]) && EntriesOf([]) == []
  {
    assert file[0..] == file;
  }

  lemma LineConsumed(file: bytes, at: nat, total: nat, done: seq<bytes>, line: bytes)
    requires Consumed(file, at, total, done) && at < |file|
    requires FaultlessTo(file[at..], total, LineLength(file[at..])) && line == file[at..][..LineLength(file[at..])]
    ensures Consumed(file, at + |line|, total + |line|, done + [Strip(line)])
  {
    hide LineLength, Strip;
    var s := file[at..];
    assert Fault(s, total, |line| - 1) == LineOk;
    assert s[|line|..] == file[at + |line|..];
    assert file[..at + |line|] == file[..at] + line;
    forall c | c in line
      ensures c != NUL
    {
      var k: nat :| k < |line| && line[k] == c;
      assert Fault(s, total, k) == LineOk;
    }
    assert done + ([Strip(line)] + Contents(s[|line|..])) == done + [Strip(line)] + Contents(s[|line|..]);
  }

  lemma StripTooLong(line: bytes, k: nat)
    requires k < |line| && line[k] != LF && k > MAX_LINE_BYTES
    ensures |Strip(line)| > MAX_LINE_BYTES
  {
  }

  lemma FaultRejects(file: bytes, at: nat, total: nat, done: seq<bytes>, status: LineStatus)
    requires Consumed(file, at, total, done) && at <= |file| && status != LineOk
    requires exists k: nat :: FirstFault(file[at..], total, k, status)
    ensures !Acceptable(file)
  {
    hide LineLength, Strip, EntriesOf, DistinctKeys, Skipped, ValidKey, Before;
    var s := file[at..];
    var k: nat :| FirstFault(s, total, k, status);
    assert s[k] == file[at + k];
    if total + k < MAX_SNAPSHOT_BYTES && s[k] != NUL {
      var content := Strip(s[..LineLength(s)]);
      StripTooLong(s[..LineLength(s)], k);
      assert Contents(file)[|done|] == content;
      assert !GoodLine(content);
    }
  }

  lemma BadLineRejects(file: bytes, at: nat, total: nat, done: seq<bytes>)
    requires Consumed(file, at, total, done) && done != [] && !GoodLine(done[|done| - 1])
    ensures !Acceptable(file)
  {
    hide Contents, EntriesOf, GoodLine;
    assert Contents(file)[|done| - 1] == done[|done| - 1];
  }

  lemma {:induction false} EntriesOfConcat(a: seq<bytes>, b: seq<bytes>)
    ensures EntriesOf(a + b) == EntriesOf(a) + EntriesOf(b)
  {
    hide EntryOf, Skipped;
    if a == [] {
      assert a + b == b;
    } else {
      EntriesOfConcat(a[1..], b);
      assert (a + b)[1..] == a[1..] + b;
      Regrouped(if Skipped(a[0]) then [] else [EntryOf(a[0])], EntriesOf(a[1..]), EntriesOf(b));
    }
  }

  lemma {:induction false} EntryLimitRejects(file: bytes, at: nat, total: nat, done: seq<bytes>)
    requires Consumed(file, at, total, done) && |EntriesOf(done)| > MAX_ENTRIES
    ensures !Acceptable(file)
  {
    hide Contents, EntriesOf, GoodLine;
    EntriesOfConcat(done, Contents(file[at..]));
  }

  lemma {:induction false} LineAdded(done: seq<bytes>, line: bytes)
    ensures AllGood(done) && GoodLine(line) ==> AllGood(done + [line])
    ensures EntriesOf(done + [line]) == EntriesOf(done) + if Skipped(line) then [] else [EntryOf(line)]
    ensures done + [line] != [] && (done + [line])[|done + [line]| - 1] == line
    ensures EntriesOf(done) + [] == EntriesOf(done)
  {
    hide EntryOf, Skipped, GoodLine;
    EntriesOfConcat(done, [line]);
    assert [line][1..] == [] && EntriesOf([]) == [];
  }

  lemma {:induction false} AllConsumed(file: bytes, total: nat, done: seq<bytes>)
    requires Consumed(file, |file|, total, done)
    ensures Contents(file) == done && NulFree(file) && |file| <= MAX_SNAPSHOT_BYTES
  {
    assert file[|file|..] == [] && file[..|file|] == file;
  }

  /** parse_snapshot, for any way that opening, reading, closing and allocating can turn out. */
  method ParseSnapshot(source: Source, memory: Memory) returns (r: ParseResult)
    modifies memory
    ensures r.Accepted? ==> Works(source) && Acceptable(source.file)
    ensures Works(source) && old(memory.Ample()) ==> (r.Accepted? <==> Acceptable(source.file))
    ensures r.Accepted? ==> Sorts(r.entries, EntriesOf(Contents(source.file)), ByKey())
    ensures r.Accepted? ==> Sorted(r.entries) && GoodEntries(r.entries)
    ensures old(memory.Ample()) ==> memory.Ample()
  {
    hide Acceptable, Contents, EntriesOf, AllGood, GoodLine, Skipped, Consumed, FaultlessTo, FirstFault, Strip;
    hide LineLength, Sorts, Less, ByKey, NulFree, Sorted, GoodEntries, Readable, Spells;
    if !source.opens {
      return Rejected;
    }
    var file := source.file;
    var f := new SnapshotFile(file, source.breaks);
    var snapshot := new EntryBuffer();
    ghost var done: seq<bytes> := [];
    NothingConsumed(file);
    while true
      invariant f.file == file && f.breaks == source.breaks && f.at <= |file|
      invariant Consumed(file, f.at, f.total, done) && AllGood(done)
      invariant fresh(snapshot) && snapshot.Valid() && snapshot.items == EntriesOf(done)
      invariant old(memory.Ample()) ==> memory.Ample()
      decreases |file| - f.at
    {
      ghost var at, total := f.at, f.total;
      var status, line := f.ReadLine(memory);
      if status == LineEof {
        break;
      }
      if status == LineReadError || status == LineAllocError {
        return Rejected;
      }
      if status != LineOk {
        FaultRejects(file, at, total, done, status);
        return Rejected;
      }
      ReadableMeans(file[at..], total, source.breaks);
      LineConsumed(file, at, total, done, line);
      var content := ParseContent(Strip(line));
      LineAdded(done, Strip(line));
      done := done + [Strip(line)];
      if content == Malformed {
        BadLineRejects(file, f.at, f.total, done);
        return Rejected;
      }
      if content.Pair? {
        var key := memory.Alloc();
        var value := memory.Alloc();
        if !key || !value {
          return Rejected;
        }
        var appended := snapshot.Append(content.entry, memory);
        if !appended {
          if |snapshot.items| >= MAX_ENTRIES {
            EntryLimitRejects(file, f.at, f.total, done);
          }
          return Rejected;
        }
      }
    }
    if !source.closes {
      return Rejected;
    }
    AllConsumed(file, f.total, done);
    r := Finish(file, snapshot.items);
  }

  /** The text whose lines are these. */
  function Text(lines: seq<bytes>): bytes {
    if lines == [] then [] else lines[0] + [LF] + Text(lines[1..])
  }

  predicate OneLineEach(lines: seq<bytes>) {
    forall i :: 0 <= i < |lines| ==> LF !in lines[i]
  }

  function StripEach(lines: seq<bytes>): seq<bytes> {
    if lines == [] then [] else [Strip(lines[0] + [LF])] + StripEach(lines[1..])
  }

  lemma {:induction false} ContentsOfText(lines: seq<bytes>)
    requires OneLineEach(lines)
    ensures Contents(Text(lines)) == StripEach(lines)
  {
    hide LineLength, Strip;
    if lines != [] {
      var s := Text(lines);
      assert forall j :: 0 <= j < |lines[0]| ==> s[j] == lines[0][j];
      LineLengthFrom(s, |lines[0]|);
      assert s[..|lines[0]| + 1] == lines[0] + [LF];
      assert s[|lines[0]| + 1..] == Text(lines[1..]);
      ContentsOfText(lines[1..]);
    }
  }

  lemma {:induction false} StripEachOfConcat(a: seq<bytes>, b: seq<bytes>)
    ensures StripEach(a + b) == StripEach(a) + StripEach(b)
  {
    hide Strip;
    if a == [] {
      assert a + b == b;
    } else {
      StripEachOfConcat(a[1..], b);
      assert (a + b)[1..] == a[1..] + b;
      Regrouped([Strip(a[0] + [LF])], StripEach(a[1..]), StripEach(b));
    }
  }

  lemma {:induction false} TextOfConcat(a: seq<bytes>, b: seq<bytes>)
    ensures Text(a + b) == Text(a) + Text(b)
  {
    if a == [] {
      assert a + b == b;
    } else {
      TextOfConcat(a[1..], b);
      assert (a + b)[1..] == a[1..] + b;
      Regrouped(a[0] + [LF], Text(a[1..]), Text(b));
    }
  }

  lemma Cancel(x: bytes, m: multiset<bytes>, n: multiset<bytes>)
    requires multiset{x} + m == n + multiset{x}
    ensures m == n
  {
    forall y
      ensures m[y] == n[y]
    {
      assert (multiset{x} + m)[y] == (n + multiset{x})[y];
    }
  }

  /** Where the first of the lines a is among their rearrangement b. */
  lemma TakeOut(a: seq<bytes>, b: seq<bytes>) returns (k: nat)
    requires a != [] && multiset(a) == multiset(b)
    ensures k < |b| && b[k] == a[0] && b == b[..k] + [a[0]] + b[k + 1..]
    ensures multiset(a[1..]) == multiset(b[..k] + b[k + 1..])
  {
    assert a == [a[0]] + a[1..];
    assert a[0] in multiset(b);
    k :| 0 <= k < |b| && b[k] == a[0];
    assert b == b[..k] + [a[0]] + b[k + 1..];
    assert multiset(b) == multiset(b[..k] + b[k + 1..]) + multiset{a[0]};
    assert multiset(a) == multiset{a[0]} + multiset(a[1..]);
    Cancel(a[0], multiset(a[1..]), multiset(b[..k] + b[k + 1..]));
  }

  lemma {:induction false} Regroup(l: seq<bytes>, m: seq<bytes>, r: seq<bytes>)
    ensures multiset(StripEach(l + m + r)) == multiset(StripEach(l + r)) + multiset(StripEach(m))
    ensures multiset(EntriesOf(StripEach(l + m + r)))
      == multiset(EntriesOf(StripEach(l + r))) + multiset(EntriesOf(StripEach(m)))
    ensures multiset(Text(l + m + r)) == multiset(Text(l + r)) + multiset(Text(m))
  {
    hide *;
    StripEachOfConcat(l + m, r);
    StripEachOfConcat(l, m);
    StripEachOfConcat(l, r);
    EntriesOfConcat(StripEach(l) + StripEach(m), StripEach(r));
    EntriesOfConcat(StripEach(l), StripEach(m));
    EntriesOfConcat(StripEach(l), StripEach(r));
    TextOfConcat(l + m, r);
    TextOfConcat(l, m);
    TextOfConcat(l, r);
  }

  /** What the lines give does not depend on their order. */
  lemma {:induction false} LinesRearranged(a: seq<bytes>, b: seq<bytes>)
    requires multiset(a) == multiset(b)
    ensures multiset(StripEach(a)) == multiset(StripEach(b))
    ensures multiset(EntriesOf(StripEach(a))) == multiset(EntriesOf(StripEach(b)))
    ensures multiset(Text(a)) == multiset(Text(b))
    decreases |a|
  {
    hide *;
    if a == [] {
      assert |b| == 0 by {
        assert |multiset(a)| == |multiset(b)|;
      }
      assert a == b;
    } else {
      var k := TakeOut(a, b);
      LinesRearranged(a[1..], b[..k] + b[k + 1..]);
      Regroup([], [a[0]], a[1..]);
      assert a == [] + [a[0]] + a[1..] && [] + a[1..] == a[1..];
      Regroup(b[..k], [a[0]], b[k + 1..]);
    }
  }

  lemma {:induction false} AcceptableRearranged(a: seq<bytes>, b: seq<bytes>)
    requires OneLineEach(a) && OneLineEach(b) && multiset(a) == multiset(b) && Acceptable(Text(a))
    ensures Acceptable(Text(b))
  {
    hide Less, GoodLine, EntriesOf, Contents, DistinctKeys, Strip, StripEach, Text;
    ContentsOfText(a);
    ContentsOfText(b);
    LinesRearranged(a, b);
    DistinctWhenSorted(EntriesOf(StripEach(a)), EntriesOf(StripEach(b)));
    SameMembers(StripEach(a), StripEach(b));
    SameMembers(Text(a), Text(b));
    assert |multiset(Text(a))| == |multiset(Text(b))|;
    assert |multiset(EntriesOf(StripEach(a)))| == |multiset(EntriesOf(StripEach(b)))|;
    forall i | 0 <= i < |StripEach(b)|
      ensures GoodLine(StripEach(b)[i])
    {
      assert StripEach(b)[i] in StripEach(a);
    }
  }

  /** What the sort may make of the entries of a file. */
  ghost predicate Reads(es: seq<Entry>, file: bytes) {
    Sorts(es, EntriesOf(Contents(file)), ByKey())
  }

  /**
   * Rearranging the lines of a snapshot changes neither whether it is accepted nor the entries it is compared
   * by, whatever arrangement the sort makes of equal elements.
   */
  lemma {:induction false} LineOrderIsInvisible(a: seq<bytes>, b: seq<bytes>, sa: seq<Entry>, sb: seq<Entry>)
    requires OneLineEach(a) && OneLineEach(b) && multiset(a) == multiset(b)
    ensures Acceptable(Text(a)) <==> Acceptable(Text(b))
    ensures Acceptable(Text(a)) && Reads(sa, Text(a)) && Reads(sb, Text(b)) ==> sa == sb
  {
    if Acceptable(Text(a)) { AcceptableRearranged(a, b); }
    if Acceptable(Text(b)) { AcceptableRearranged(b, a); }
    hide Less, GoodLine, EntriesOf, Contents, DistinctKeys, Strip, StripEach, Text, Sorts;
    var ea, eb := EntriesOf(Contents(Text(a))), EntriesOf(Contents(Text(b)));
    if Acceptable(Text(a)) && Sorts(sa, ea, ByKey()) && Sorts(sb, eb, ByKey()) {
      ContentsOfText(a);
      ContentsOfText(b);
      LinesRearranged(a, b);
      SameMembers(ea, eb);
      DistinctIsSeparated(ea);
      DistinctIsSeparated(eb);
      ByKeyIsStrict();
      SortForgetsOrder(sa, ea, sb, eb, ByKey());
    }
  }

  /** What an accepted file says: each of its keys with its value. */
  function SnapshotOf(file: bytes): Snapshot {
    MapOf(EntriesOf(Contents(file)))
  }

  lemma {:induction false} KeyListed(es: seq<Entry>, k: bytes)
    ensures k in MapOf(es) ==> exists i :: 0 <= i < |es| && es[i].key == k
  {
    if es != [] && k in MapOf(es) && es[0].key != k {
      KeyListed(es[1..], k);
      var i :| 0 <= i < |es[1..]| && es[1..][i].key == k;
      assert es[i + 1].key == k;
    }
  }

  lemma {:induction false} DistinctListed(es: seq<Entry>, e: Entry)
    requires DistinctKeys(es)
    ensures e in es <==> e.key in MapOf(es) && MapOf(es)[e.key] == e.value
  {
    if es != [] {
      DistinctListed(es[1..], e);
      KeyListed(es[1..], es[0].key);
      assert es == [es[0]] + es[1..];
      assert es[0] == Entry(es[0].key, es[0].value) && e == Entry(e.key, e.value);
    }
  }

  lemma {:induction false} SameMap(a: seq<Entry>, b: seq<Entry>)
    requires DistinctKeys(a) && DistinctKeys(b) && forall e :: e in a <==> e in b
    ensures MapOf(a) == MapOf(b)
  {
    hide MapOf, DistinctKeys;
    var m, n := MapOf(a), MapOf(b);
    forall k
      ensures k in m <==> k in n
      ensures k in m && k in n ==> m[k] == n[k]
    {
      if k in m {
        DistinctListed(a, Entry(k, m[k]));
        DistinctListed(b, Entry(k, m[k]));
      }
      if k in n {
        DistinctListed(a, Entry(k, n[k]));
        DistinctListed(b, Entry(k, n[k]));
      }
    }
  }

  /** A parsed snapshot means what its file says. */
  lemma {:induction false} SortedMeansFile(es: seq<Entry>, file: bytes)
    requires Acceptable(file) && Sorts(es, EntriesOf(Contents(file)), ByKey())
    ensures MapOf(es) == SnapshotOf(file)
  {
    hide Less, GoodLine, EntriesOf, Contents, DistinctKeys, MapOf;
    var items := EntriesOf(Contents(file));
    DistinctWhenSorted(es, items);
    SameMembers(es, items);
    SameMap(es, items);
  }

  /** Read back, the text is changes in ascending order of key that lead from m to n. */
  predicate IsPatch(text: bytes, m: Snapshot, n: Snapshot) {
    var cs := ParseDiff(text);
    cs.Some? && ChangesSorted(cs.value) && Apply(cs.value, m) == Some(n)
  }

  /** A text compare_snapshots may print for two accepted files. */
  ghost predicate MayPrint(text: bytes, before: bytes, after: bytes) {
    exists b, a :: Reads(b, before) && Reads(a, after) && text == Render(Diff(b, a))
  }

  /** Rearranging the lines of either file does not change what is printed. */
  lemma {:induction false} PrintIgnoresLineOrder(b: seq<bytes>, b1: seq<bytes>, a: seq<bytes>, a1: seq<bytes>,
                                                 t: bytes, t1: bytes)
    requires OneLineEach(b) && OneLineEach(b1) && multiset(b) == multiset(b1) && Acceptable(Text(b))
    requires OneLineEach(a) && OneLineEach(a1) && multiset(a) == multiset(a1) && Acceptable(Text(a))
    requires MayPrint(t, Text(b), Text(a)) && MayPrint(t1, Text(b1), Text(a1))
    ensures t == t1
  {
    hide OneLineEach, Acceptable, Text, Reads, Render, Diff;
    var eb, ea :| Reads(eb, Text(b)) && Reads(ea, Text(a)) && t == Render(Diff(eb, ea));
    var fb, fa :| Reads(fb, Text(b1)) && Reads(fa, Text(a1)) && t1 == Render(Diff(fb, fa));
    LineOrderIsInvisible(b, b1, eb, fb);
    LineOrderIsInvisible(a, a1, ea, fa);
  }

  /** compare_snapshots: the text it prints is a patch from the one file to the other, or it fails. */
  method CompareSnapshots(before: Source, after: Source, memory: Memory, writes: seq<bool>, flushes: bool)
    returns (out: bytes, status: nat)
    modifies memory
    ensures status != 2 ==> Works(before) && Works(after) && Acceptable(before.file) && Acceptable(after.file)
    ensures Works(before) && Works(after) && old(memory.Ample()) && flushes && false !in writes ==>
      (status == 2 <==> !(Acceptable(before.file) && Acceptable(after.file)))
    ensures status != 2 ==> status == if SnapshotOf(before.file) == SnapshotOf(after.file) then 0 else 1
    ensures status != 2 ==> MayPrint(out, before.file, after.file)
    ensures status != 2 ==> IsPatch(out, SnapshotOf(before.file), SnapshotOf(after.file))
    ensures !(Acceptable(before.file) && Acceptable(after.file)) ==> out == []
  {
    hide Acceptable, SnapshotOf, Contents, EntriesOf, Sorted, GoodEntries, Sorts, MapOf, Diff, Render, ParseDiff;
    hide Apply, ChangesSorted, Less, Works;
    out := [];
    var b := ParseSnapshot(before, memory);
    if b.Rejected? {
      return out, 2;
    }
    var a := ParseSnapshot(after, memory);
    if a.Rejected? {
      return out, 2;
    }
    assert Reads(b.entries, before.file) && Reads(a.entries, after.file);
    out, status := EmitDiff(b.entries, a.entries, writes, flushes);
    SortedMeansFile(b.entries, before.file);
    SortedMeansFile(a.entries, after.file);
    PrintedDiffIsPatch(b.entries, a.entries);
    NoChangesMeansEqual(b.entries, a.entries);
    NoChangesWhenEqual(b.entries, a.entries);
  }
}
