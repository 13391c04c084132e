/** What src/sysdiff.c reads out of a snapshot file, in terms of the file's lines alone. */
module SnapshotLines {
  import opened Bytes
  import opened Options
  import opened SnapshotDiff
  import opened SnapshotParse

  /** A line feed at the end goes, and a carriage return before it; nothing else. */
  lemma StripMeans(x: bytes)
    ensures Strip(x + [CR, LF]) == x
    ensures x == [] || x[|x| - 1] != CR ==> Strip(x + [LF]) == x
    ensures x == [] || x[|x| - 1] != LF ==> Strip(x) == x
  {
  }

  /** A line is passed over when it has only blanks, or a hash after blanks. */
  lemma SkippedMeans(line: bytes)
    ensures Skipped(line) <==> AllBlank(line) || Comment(line)
  {
    SkipBlanksMeans(line);
  }

  lemma EntryOfLine(key: bytes, value: bytes)
    requires EQUALS !in key
    ensures EntryOf(key + [EQUALS] + value) == Entry(key, value)
  {
    BeforeOfConcat(key, EQUALS, value);
  }

  /** Which lines are accepted, without the functions that take them apart. */
  lemma GoodLineMeans(line: bytes)
    ensures GoodLine(line) <==>
      |line| <= MAX_LINE_BYTES &&
      (AllBlank(line) || Comment(line) || exists key, value :: ValidKey(key) && line == key + [EQUALS] + value)
  {
    SkippedMeans(line);
    hide Skipped, AllBlank, Comment, Before, After;
    if EQUALS in line && ValidKey(Before(line, EQUALS)) {
      EntrySplitsLine(line);
    }
    if key, value :| ValidKey(key) && line == key + [EQUALS] + value {
      KeyHasNo(key, EQUALS);
      EntryOfLine(key, value);
      assert line[|key|] == EQUALS;
    }
  }

  /** From byte a to byte b there is one line of the file, with its line feed unless the file ends there. */
  predicate IsLine(file: bytes, a: nat, b: nat) {
    && a < b <= |file| && LF !in file[a..b - 1]
    && (a == 0 || file[a - 1] == LF) && (b == |file| || file[b - 1] == LF)
  }

  lemma {:induction false} LineLengthMeans(s: bytes)
    requires s != []
    ensures var n := LineLength(s);
      LF !in s[0..n - 1] && (n == |s| || s[n - 1] == LF)
  {
    if s[0] != LF && |s| > 1 {
      LineLengthMeans(s[1..]);
      var n := LineLength(s[1..]);
      assert s[0..n] == [s[0]] + s[1..][0..n - 1];
    }
  }

  lemma FeedFree(s: bytes, lo: nat, hi: nat)
    requires lo <= hi <= |s| && LF !in s[lo..hi]
    ensures forall k :: lo <= k < hi ==> s[k] != LF
  {
    forall k | lo <= k < hi
      ensures s[k] != LF
    {
      assert s[lo..hi][k - lo] == s[k];
    }
  }

  lemma {:induction false} FirstLine(s: bytes, b: nat)
    requires s != []
    ensures IsLine(s, 0, b) <==> b == LineLength(s)
  {
    hide LineLength;
    LineLengthMeans(s);
    FeedFree(s, 0, LineLength(s) - 1);
    if IsLine(s, 0, b) {
      FeedFree(s, 0, b - 1);
    }
  }

  /** The later lines are the lines of what follows the first. */
  lemma {:induction false} LaterLine(s: bytes, a: nat, b: nat)
    requires s != []
    ensures IsLine(s[LineLength(s)..], a, b) <==> IsLine(s, a + LineLength(s), b + LineLength(s))
    ensures b <= |s[LineLength(s)..]| && a <= b ==>
      s[LineLength(s)..][a..b] == s[a + LineLength(s)..b + LineLength(s)]
  {
    hide LineLength;
    LineLengthMeans(s);
    var n := LineLength(s);
    var t := s[n..];
    if a < b <= |t| {
      assert t[a..b - 1] == s[a + n..b + n - 1];
    }
  }

  lemma {:induction false} NoLineAcross(s: bytes, a: nat, b: nat)
    requires s != [] && IsLine(s, a, b)
    ensures a == 0 || a >= LineLength(s)
  {
    hide LineLength;
    LineLengthMeans(s);
    FeedFree(s, 0, LineLength(s) - 1);
  }

  /** Contents of some line. */
  predicate ContentAt(file: bytes, x: bytes, a: nat, b: nat) {
    IsLine(file, a, b) && x == Strip(file[a..b])
  }

  lemma {:induction false} LaterContent(file: bytes, x: bytes, a: nat, b: nat)
    requires file != [] && ContentAt(file[LineLength(file)..], x, a, b)
    ensures ContentAt(file, x, a + LineLength(file), b + LineLength(file))
  {
    hide LineLength, Strip;
    LaterLine(file, a, b);
  }

  lemma {:induction false} ContentCases(file: bytes, x: bytes, a: nat, b: nat)
    requires file != [] && ContentAt(file, x, a, b)
    ensures x == Strip(file[..LineLength(file)])
      || (LineLength(file) <= a < b
          && ContentAt(file[LineLength(file)..], x, a - LineLength(file), b - LineLength(file)))
  {
    hide LineLength, Strip;
    NoLineAcross(file, a, b);
    if a == 0 {
      FirstLine(file, b);
      assert file[0..b] == file[..b];
    } else {
      LaterLine(file, a - LineLength(file), b - LineLength(file));
    }
  }

  lemma {:induction false} FirstIsContent(file: bytes)
    requires file != []
    ensures ContentAt(file, Strip(file[..LineLength(file)]), 0, LineLength(file))
  {
    hide LineLength, Strip;
    FirstLine(file, LineLength(file));
    assert file[0..LineLength(file)] == file[..LineLength(file)];
  }

  ghost predicate ContentOfLine(file: bytes, x: bytes) {
    exists a: nat, b: nat :: ContentAt(file, x, a, b)
  }

  lemma NothingListed(x: bytes)
    ensures x !in Contents([]) && !ContentOfLine([], x)
  {
  }

  lemma {:induction false} FirstContent(file: bytes)
    requires file != []
    ensures Contents(file) == [Strip(file[..LineLength(file)])] + Contents(file[LineLength(file)..])
  {
  }

  /** The contents are those of the lines. */
  lemma {:induction false} ContentsAreLines(file: bytes, x: bytes)
    ensures x in Contents(file) <==> ContentOfLine(file, x)
    decreases |file|
  {
    hide LineLength, Strip, ContentAt, Contents;
    if file != [] {
      var n := LineLength(file);
      var rest := file[n..];
      ContentsAreLines(rest, x);
      FirstContent(file);
      FirstIsContent(file);
      if a: nat, b: nat :| ContentAt(rest, x, a, b) {
        LaterContent(file, x, a, b);
      }
      if a: nat, b: nat :| ContentAt(file, x, a, b) {
        ContentCases(file, x, a, b);
        if x != Strip(file[..n]) {
          assert ContentAt(rest, x, a - n, b - n);
          assert x in Contents(rest);
        }
      }
    } else {
      NothingListed(x);
    }
  }

  lemma {:induction false} EntryListed(lines: seq<bytes>, e: Entry)
    ensures e in EntriesOf(lines) <==> exists line :: line in lines && !Skipped(line) && EntryOf(line) == e
  {
    hide Skipped, EntryOf;
    if lines != [] {
      EntryListed(lines[1..], e);
      assert lines == [lines[0]] + lines[1..];
    }
  }

  /** A line, its end removed, that sets the key to the value. */
  predicate SetBy(file: bytes, key: bytes, value: bytes, a: nat, b: nat) {
    IsLine(file, a, b) && Strip(file[a..b]) == key + [EQUALS] + value
  }

  lemma KeyStarts(key: bytes, value: bytes)
    requires ValidKey(key)
    ensures !Skipped(key + [EQUALS] + value) && EQUALS !in key
  {
    var line := key + [EQUALS] + value;
    assert line[0] == key[0] && KeyByte(key[0]);
  }

  lemma LineSets(line: bytes, key: bytes, value: bytes)
    requires GoodLine(line) && !Skipped(line) && EntryOf(line) == Entry(key, value)
    ensures ValidKey(key) && line == key + [EQUALS] + value
  {
    EntrySplitsLine(line);
  }

  /**
   * In an accepted file a key has a value exactly when some line, its end removed, is the key, an equals sign
   * and the value; keys are dotted names, so such a line is not one that is passed over.
   */
  lemma SnapshotIsItsLines(file: bytes, key: bytes, value: bytes)
    requires Acceptable(file)
    ensures key in SnapshotOf(file) && SnapshotOf(file)[key] == value <==>
      ValidKey(key) && exists a: nat, b: nat :: SetBy(file, key, value, a, b)
  {
    hide EntriesOf, Contents, MapOf, EntryOf, Strip, IsLine, DistinctKeys, Skipped, ValidKey;
    var line := key + [EQUALS] + value;
    var lines := Contents(file);
    DistinctListed(EntriesOf(lines), Entry(key, value));
    EntryListed(lines, Entry(key, value));
    ContentsAreLines(file, line);
    if l :| l in lines && !Skipped(l) && EntryOf(l) == Entry(key, value) {
      LineSets(l, key, value);
      var a: nat, b: nat :| ContentAt(file, line, a, b);
      assert SetBy(file, key, value, a, b);
    }
    if ValidKey(key) && exists a: nat, b: nat :: SetBy(file, key, value, a, b) {
      var a: nat, b: nat :| SetBy(file, key, value, a, b);
      assert ContentAt(file, line, a, b);
      KeyStarts(key, value);
      EntryOfLine(key, value);
    }
  }

  lemma {:induction false} TextOfLines(lines: seq<bytes>, last: bytes)
    requires OneLineEach(lines) && LF !in last
    ensures Contents(Text(lines) + last) == StripEach(lines) + if last == [] then [] else [Strip(last)]
  {
    hide Strip;
    var s := Text(lines) + last;
    if lines == [] {
      assert s == last;
      LineLengthFrom(last, |last|);
      if last != [] {
        assert last[..|last|] == last && last[|last|..] == [];
      }
    } else {
      assert forall j :: 0 <= j < |lines[0]| ==> s[j] == lines[0][j];
      LineLengthFrom(s, |lines[0]|);
      assert s[..|lines[0]| + 1] == lines[0] + [LF];
      assert s[|lines[0]| + 1..] == Text(lines[1..]) + last;
      TextOfLines(lines[1..], last);
    }
  }

  /** The bytes of a key, spelt out. */
  lemma KeyByteMeans(c: byte)
    ensures var ch := c as char;
      KeyByte(c) <==>
        'A' <= ch <= 'Z' || 'a' <= ch <= 'z' || '0' <= ch <= '9' || ch == '.' || ch == '_' || ch == '-' || ch == '/'
  {
  }
}
