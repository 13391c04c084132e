/** Tables printed by section 2 of RFC 4180 are cut by src/snslice.c exactly between their records. */
module CsvTable {
  import opened Bytes
  import opened Options
  import opened Slice

  /** A field, and whether it is printed in quotes. */
  datatype Field = Field(text: bytes, quoted: bool)

  datatype Row = Row(fields: seq<Field>, crlf: bool)

  predicate Special(c: byte) {
    c == COMMA || c == QUOTE || c == CR || c == LF
  }

  /** Rules 5 to 7: a field with a special character is quoted, any other may be. */
  predicate Printable(f: Field) {
    NulFree(f.text) && (f.quoted || forall i :: 0 <= i < |f.text| ==> !Special(f.text[i]))
  }

  function Doubled(text: bytes): bytes {
    if text == [] then []
    else
      var n := |text| - 1;
      Doubled(text[..n]) + if text[n] == QUOTE then [QUOTE, QUOTE] else [text[n]]
  }

  function PrintField(f: Field): bytes {
    if f.quoted then [QUOTE] + Doubled(f.text) + [QUOTE] else f.text
  }

  function PrintFields(fs: seq<Field>): bytes {
    if fs == [] then []
    else if |fs| == 1 then PrintField(fs[0])
    else PrintFields(fs[..|fs| - 1]) + [COMMA] + PrintField(fs[|fs| - 1])
  }

  function PrintRow(r: Row): bytes {
    PrintFields(r.fields) + (if r.crlf then [CR] else []) + [LF]
  }

  /** The scanner is between fields or at the end of one. */
  predicate AtFieldEnd(s: Scan) {
    s == Goto(Start) || s == Goto(Unquoted) || s == Goto(EscapedQuote)
  }

  lemma {:induction false} ScanOneMore(p: bytes, c: byte)
    ensures ScanPrefix(Csv, p + [c]) ==
      if ScanPrefix(Csv, p).Goto? then ScanByte(Csv, ScanPrefix(Csv, p).state, c) else Malformed
  {
    assert (p + [c])[..|p|] == p;
  }

  lemma {:induction false} ScanPlain(p: bytes, text: bytes)
    requires ScanPrefix(Csv, p) == Goto(Start)
    requires forall i :: 0 <= i < |text| ==> !Special(text[i])
    ensures ScanPrefix(Csv, p + text) == Goto(if text == [] then Start else Unquoted)
  {
    if text == [] {
      assert p + text == p;
    } else {
      var n := |text| - 1;
      ScanPlain(p, text[..n]);
      ScanOneMore(p + text[..n], text[n]);
      assert p + text == p + text[..n] + [text[n]];
    }
  }

  lemma {:induction false} ScanQuoted(p: bytes, text: bytes)
    requires ScanPrefix(Csv, p) == Goto(Quoted)
    ensures ScanPrefix(Csv, p + Doubled(text)) == Goto(Quoted)
  {
    if text == [] {
      assert p + [] == p;
    } else {
      var n := |text| - 1;
      var q := p + Doubled(text[..n]);
      ScanQuoted(p, text[..n]);
      ScanOneMore(q, text[n]);
      if text[n] == QUOTE {
        ScanOneMore(q + [QUOTE], QUOTE);
        assert p + Doubled(text) == q + [QUOTE] + [QUOTE];
      } else {
        assert p + Doubled(text) == q + [text[n]];
      }
    }
  }

  lemma {:induction false} ScanField(p: bytes, f: Field)
    requires ScanPrefix(Csv, p) == Goto(Start) && Printable(f)
    ensures AtFieldEnd(ScanPrefix(Csv, p + PrintField(f)))
  {
    hide ScanPrefix;
    if f.quoted {
      ScanOneMore(p, QUOTE);
      ScanQuoted(p + [QUOTE], f.text);
      ScanOneMore(p + [QUOTE] + Doubled(f.text), QUOTE);
      assert p + PrintField(f) == p + [QUOTE] + Doubled(f.text) + [QUOTE];
    } else {
      ScanPlain(p, f.text);
    }
  }

  lemma {:induction false} ScanFields(fs: seq<Field>)
    requires fs != [] && forall i :: 0 <= i < |fs| ==> Printable(fs[i])
    ensures AtFieldEnd(ScanPrefix(Csv, PrintFields(fs)))
  {
    hide PrintField;
    var n := |fs| - 1;
    if n == 0 {
      assert ScanPrefix(Csv, []) == Goto(Start);
      ScanField([], fs[0]);
      assert [] + PrintField(fs[0]) == PrintField(fs[0]);
    } else {
      ScanFields(fs[..n]);
      ScanOneMore(PrintFields(fs[..n]), COMMA);
      ScanField(PrintFields(fs[..n]) + [COMMA], fs[n]);
    }
  }

  /** A printed row is one record: no boundary inside a field, one at the line end. */
  lemma RowIsRecord(r: Row)
    requires r.fields != [] && forall i :: 0 <= i < |r.fields| ==> Printable(r.fields[i])
    ensures WholeRecord(Csv, PrintRow(r))
  {
    var text := PrintFields(r.fields);
    ScanFields(r.fields);
    ScanOneMore(text, CR);
    var line := PrintRow(r);
    assert line[..|line| - 1] == text + if r.crlf then [CR] else [];
    assert text + [] == text;
    hide ScanPrefix;
  }

  /** The bytes of a printable field hold no NUL, so neither does a row. */
  lemma {:induction false} DoubledNulFree(text: bytes)
    requires NulFree(text)
    ensures NulFree(Doubled(text))
  {
    if text != [] {
      DoubledNulFree(text[..|text| - 1]);
    }
  }

  lemma {:induction false} FieldsNulFree(fs: seq<Field>)
    requires forall i :: 0 <= i < |fs| ==> Printable(fs[i])
    ensures NulFree(PrintFields(fs))
  {
    if fs != [] {
      DoubledNulFree(fs[|fs| - 1].text);
      FieldsNulFree(fs[..|fs| - 1]);
    }
  }

  lemma {:induction false} FeedOne(cfg: Config, m: Cutter, c: byte)
    ensures Feed(cfg, m, [c]) == match Step(cfg, m, c)
      case Stop(h) => (m, Some(h))
      case Next(m') => (m', None)
  {
    hide Step;
  }

  /** Feeding part of a record extends `partial` and nothing else. */
  lemma {:induction false} FeedPart(cfg: Config, m: Cutter, s: bytes)
    requires m.partial == [] && m.csv == Start && NulFree(s) && |s| <= MAX_RECORD_BYTES
    requires ScanPrefix(cfg.format, s).Goto?
    ensures Feed(cfg, m, s) == (m.(csv := ScanPrefix(cfg.format, s).state, partial := s), None)
  {
    if s != [] {
      var n := |s| - 1;
      assert NulFree(s[..n]) && s[n] in s;
      FeedPart(cfg, m, s[..n]);
      FeedOfConcat(cfg, m, s[..n], [s[n]]);
      assert s[..n] + [s[n]] == s;
      assert ScanPrefix(cfg.format, s) == ScanByte(cfg.format, ScanPrefix(cfg.format, s[..n]).state, s[n]);
      FeedOne(cfg, m.(csv := ScanPrefix(cfg.format, s[..n]).state, partial := s[..n]), s[n]);
    }
  }

  /** Feeding a record completes it. */
  lemma {:induction false} FeedRecord(cfg: Config, m: Cutter, r: bytes)
    requires m.partial == [] && m.csv == Start && NulFree(r) && |r| <= MAX_RECORD_BYTES
    requires WholeRecord(cfg.format, r)
    ensures Feed(cfg, m, r) == (EndRecord(cfg, m, r), None)
  {
    hide Feed, Full;
    var n := |r| - 1;
    assert NulFree(r[..n]) && r[n] in r;
    FeedPart(cfg, m, r[..n]);
    FeedOfConcat(cfg, m, r[..n], [r[n]]);
    assert r[..n] + [r[n]] == r;
    FeedOne(cfg, m.(csv := ScanPrefix(cfg.format, r[..n]).state, partial := r[..n]), r[n]);
  }

  /** All the records of a run of chunks. */
  function Flatten(chunks: seq<Chunk>): seq<bytes> {
    if chunks == [] then [] else Flatten(chunks[..|chunks| - 1]) + chunks[|chunks| - 1]
  }

  predicate GoodRecord(format: Format, r: bytes) {
    WholeRecord(format, r) && NulFree(r) && |r| <= MAX_RECORD_BYTES
  }

  lemma {:induction false} FeedEmpty(cfg: Config)
    ensures Feed(cfg, FRESH, []) == (FRESH, None)
  {
  }

  /** A stream of records is taken apart into exactly those records. */
  lemma {:induction false} FeedRecords(cfg: Config, rs: seq<bytes>)
    requires forall i :: 0 <= i < |rs| ==> GoodRecord(cfg.format, rs[i])
    ensures var (m, h) := Feed(cfg, FRESH, Concat(rs));
      h.None? && m.partial == [] && m.csv == Start && Flatten(m.done) + m.current == rs
  {
    hide Feed, Full, WholeRecord;
    if rs == [] {
      assert Feed(cfg, FRESH, []) == (FRESH, None) by { FeedEmpty(cfg); }
    } else {
      var n := |rs| - 1;
      FeedRecords(cfg, rs[..n]);
      var m := Feed(cfg, FRESH, Concat(rs[..n])).0;
      FeedOfConcat(cfg, FRESH, Concat(rs[..n]), rs[n]);
      FeedRecord(cfg, m, rs[n]);
      var current := m.current + [rs[n]];
      assert (m.done + [current])[..|m.done|] == m.done;
      assert Flatten(m.done) + current == rs;
    }
  }

  function PrintRows(rows: seq<Row>): (rs: seq<bytes>)
    ensures |rs| == |rows|
  {
    seq(|rows|, i requires 0 <= i < |rows| => PrintRow(rows[i]))
  }

  predicate PrintableFields(fs: seq<Field>) {
    fs != [] && forall i :: 0 <= i < |fs| ==> Printable(fs[i])
  }

  lemma {:induction false} TailState(last: seq<Field>)
    requires last == [] || PrintableFields(last)
    ensures AtFieldEnd(ScanPrefix(Csv, PrintFields(last))) && NulFree(PrintFields(last))
    ensures last == [] ==> PrintFields(last) == []
  {
    if last != [] {
      ScanFields(last);
      FieldsNulFree(last);
    }
  }

  lemma RowsAreGood(rows: seq<Row>)
    requires forall i :: 0 <= i < |rows| ==>
      PrintableFields(rows[i].fields) && |PrintRow(rows[i])| <= MAX_RECORD_BYTES
    ensures forall i :: 0 <= i < |rows| ==> GoodRecord(Csv, PrintRows(rows)[i])
  {
    hide PrintFields, WholeRecord, Printable;
    forall i | 0 <= i < |rows|
      ensures GoodRecord(Csv, PrintRow(rows[i]))
    {
      RowIsRecord(rows[i]);
      FieldsNulFree(rows[i].fields);
    }
  }

  /**
   * Cutting a printed table: never malformed, and the records of the chunks are the rows. The last
   * row may come without a line end (rule 2), unless it then prints as nothing.
   */
  lemma {:induction false} TableIsCutAtRows(cfg: Config, rows: seq<Row>, last: seq<Field>)
    requires cfg.format.Csv?
    requires forall i :: 0 <= i < |rows| ==>
      PrintableFields(rows[i].fields) && |PrintRow(rows[i])| <= MAX_RECORD_BYTES
    requires last == [] || (PrintableFields(last) && 0 < |PrintFields(last)| <= MAX_RECORD_BYTES)
    ensures var cut := Cut(cfg, Concat(PrintRows(rows)) + PrintFields(last));
      && cut.hazard.None?
      && Flatten(cut.chunks) == PrintRows(rows) + if last == [] then [] else [PrintFields(last)]
  {
    hide Feed, PrintFields, ScanPrefix, Concat, Printable;
    var rs, tail := PrintRows(rows), PrintFields(last);
    RowsAreGood(rows);
    FeedRecords(cfg, rs);
    var m := Feed(cfg, FRESH, Concat(rs)).0;
    FeedOfConcat(cfg, FRESH, Concat(rs), tail);
    TailState(last);
    FeedPart(cfg, m, tail);
    var end := m.(csv := ScanPrefix(Csv, tail).state, partial := tail);
    var kept := if tail == [] then m.current else m.current + [tail];
    assert (m.done + [kept])[..|m.done|] == m.done;
    assert Cut(cfg, Concat(rs) + tail) == AtEnd(cfg, end);
    assert Flatten(m.done) + (m.current + [tail]) == rs + [tail];
  }

  /** The start of a record: good records before it, no NUL in it, and the scanner still inside it. */
  predicate Midway(format: Format, rs: seq<bytes>, tail: bytes) {
    && (forall i :: 0 <= i < |rs| ==> GoodRecord(format, rs[i]))
    && NulFree(tail) && |tail| <= MAX_RECORD_BYTES && ScanPrefix(format, tail).Goto?
  }

  lemma FeedMidway(cfg: Config, rs: seq<bytes>, tail: bytes) returns (m: Cutter)
    requires Midway(cfg.format, rs, tail)
    ensures Feed(cfg, FRESH, Concat(rs) + tail) == (m, None)
    ensures m.partial == tail && ScanPrefix(cfg.format, tail) == Goto(m.csv)
  {
    hide Feed, Concat, ScanPrefix, GoodRecord;
    FeedRecords(cfg, rs);
    var before := Feed(cfg, FRESH, Concat(rs)).0;
    FeedOfConcat(cfg, FRESH, Concat(rs), tail);
    FeedPart(cfg, before, tail);
    m := before.(csv := ScanPrefix(cfg.format, tail).state, partial := tail);
  }

  lemma {:induction false} StopHere(cfg: Config, before: bytes, c: byte, rest: bytes)
    requires Feed(cfg, FRESH, before).1.None? && Step(cfg, Feed(cfg, FRESH, before).0, c).Stop?
    ensures Cut(cfg, before + [c] + rest).hazard == Some(Step(cfg, Feed(cfg, FRESH, before).0, c).hazard)
  {
    var m := Feed(cfg, FRESH, before).0;
    FeedOne(cfg, m, c);
    FeedOfConcat(cfg, FRESH, before, [c]);
    FeedOfConcat(cfg, FRESH, before + [c], rest);
    hide Feed, Step;
  }

  /** Which hazard the byte after such a start can be. */
  lemma {:induction false} HazardAfter(cfg: Config, rs: seq<bytes>, tail: bytes, c: byte, rest: bytes)
    requires Midway(cfg.format, rs, tail)
    ensures var hazard := Cut(cfg, Concat(rs) + tail + [c] + rest).hazard;
      && (c == NUL ==> hazard == Some(if cfg.format.Ndjson? then MalformedNdjson else MalformedCsv))
      && (c != NUL && |tail| == MAX_RECORD_BYTES ==> hazard == Some(RecordLengthLimit))
      && (c != NUL && |tail| < MAX_RECORD_BYTES && ScanPrefix(cfg.format, tail + [c]) == Malformed ==>
        hazard == Some(MalformedCsv))
  {
    var m := FeedMidway(cfg, rs, tail);
    hide Feed, Cut, Concat;
    assert (tail + [c])[..|tail|] == tail;
    if Step(cfg, m, c).Stop? {
      StopHere(cfg, Concat(rs) + tail, c, rest);
    }
  }

  /** Which hazard the end of the input after such a start can be. */
  lemma {:induction false} HazardAtEnd(cfg: Config, rs: seq<bytes>, tail: bytes)
    requires Midway(cfg.format, rs, tail)
    ensures var hazard := Cut(cfg, Concat(rs) + tail).hazard;
      if cfg.format.Ndjson? && tail != [] then hazard == Some(MalformedNdjson)
      else if cfg.format.Csv? && ScanPrefix(Csv, tail) == Goto(Quoted) then hazard == Some(MalformedCsv)
      else hazard == None
  {
    var m := FeedMidway(cfg, rs, tail);
    hide Feed, Concat, ScanPrefix, GoodRecord;
  }

  /** Fields of a row, then a quoted field up to where its closing quote belongs. */
  function Opened(fs: seq<Field>, text: bytes): bytes {
    (if fs == [] then [] else PrintFields(fs) + [COMMA]) + [QUOTE] + Doubled(text)
  }

  lemma ScanOpened(fs: seq<Field>, text: bytes, c: byte)
    requires fs == [] || PrintableFields(fs)
    ensures ScanPrefix(Csv, Opened(fs, text)) == Goto(Quoted)
    ensures ScanPrefix(Csv, Opened(fs, text) + [QUOTE]) == Goto(EscapedQuote)
    ensures !Special(c) ==> ScanPrefix(Csv, Opened(fs, text) + [QUOTE] + [c]) == Malformed
  {
    hide PrintFields, Doubled, Printable;
    var before := if fs == [] then [] else PrintFields(fs) + [COMMA];
    if fs == [] {
      assert ScanPrefix(Csv, []) == Goto(Start);
    } else {
      ScanFields(fs);
      ScanOneMore(PrintFields(fs), COMMA);
    }
    ScanOneMore(before, QUOTE);
    ScanQuoted(before + [QUOTE], text);
    ScanOneMore(Opened(fs, text), QUOTE);
    ScanOneMore(Opened(fs, text) + [QUOTE], c);
    hide ScanPrefix;
  }

  lemma OpenedNulFree(fs: seq<Field>, text: bytes)
    requires (fs == [] || PrintableFields(fs)) && NulFree(text)
    ensures NulFree(Opened(fs, text) + [QUOTE])
  {
    hide PrintFields, Printable, Doubled;
    FieldsNulFree(fs);
    DoubledNulFree(text);
  }

  /**
   * What spoils a table after any number of rows and fields: a quoted field that is never closed, and one whose
   * closing quote is followed by anything but a comma, a quote or a line end.
   */
  lemma SpoiltTable(cfg: Config, rows: seq<Row>, fs: seq<Field>, text: bytes, c: byte, rest: bytes)
    requires cfg.format.Csv?
    requires forall i :: 0 <= i < |rows| ==>
      PrintableFields(rows[i].fields) && |PrintRow(rows[i])| <= MAX_RECORD_BYTES
    requires (fs == [] || PrintableFields(fs)) && NulFree(text)
    requires |Opened(fs, text)| + 1 < MAX_RECORD_BYTES && !Special(c) && c != NUL
    ensures Cut(cfg, Concat(PrintRows(rows)) + Opened(fs, text)).hazard == Some(MalformedCsv)
    ensures Cut(cfg, Concat(PrintRows(rows)) + (Opened(fs, text) + [QUOTE]) + [c] + rest).hazard == Some(MalformedCsv)
  {
    RowsAreGood(rows);
    OpenedNulFree(fs, text);
    ScanOpened(fs, text, c);
    hide Cut, ScanPrefix, Opened, Concat, PrintRow, GoodRecord, Printable, PrintRows;
    HazardAtEnd(cfg, PrintRows(rows), Opened(fs, text));
    HazardAfter(cfg, PrintRows(rows), Opened(fs, text) + [QUOTE], c, rest);
  }
}
