/**
 * The CSV that src/snslice.c reads, as a grammar. It is wider than section 2 of RFC 4180: carriage returns may
 * stand before a field and after a closing quote, a quote inside an unquoted field is text, and a quote that
 * follows a closing quote and carriage returns opens the field again.
 */
module CsvGrammar {
  import opened Bytes
  import opened Options
  import opened Slice
  import opened CsvTable
  import opened SliceAccepts

  /** Inside quotes: any byte but a quote, or two quotes with carriage returns between them. */
  datatype Item = Plain(c: byte) | Pair(crs: nat)

  /** A field as far as it goes, after its leading carriage returns. */
  datatype Form =
    | Empty(lead: nat)
    | Bare(lead: nat, text: bytes)
    | Open(lead: nat, items: seq<Item>)
    | Closed(lead: nat, items: seq<Item>, crs: nat)

  function Crs(n: nat): bytes {
    if n == 0 then [] else Crs(n - 1) + [CR]
  }

  function ItemText(item: Item): bytes {
    match item
    case Plain(c) => [c]
    case Pair(crs) => [QUOTE] + Crs(crs) + [QUOTE]
  }

  function ItemsText(items: seq<Item>): bytes {
    if items == [] then [] else ItemsText(items[..|items| - 1]) + ItemText(items[|items| - 1])
  }

  function FormText(f: Form): bytes {
    Crs(f.lead) + match f
      case Empty(_) => []
      case Bare(_, text) => text
      case Open(_, items) => [QUOTE] + ItemsText(items)
      case Closed(_, items, crs) => [QUOTE] + ItemsText(items) + [QUOTE] + Crs(crs)
  }

  predicate GoodItems(items: seq<Item>) {
    forall i :: 0 <= i < |items| ==> items[i] != Plain(QUOTE)
  }

  predicate BareText(text: bytes) {
    text != [] && !Special(text[0]) && COMMA !in text && LF !in text
  }

  predicate GoodForm(f: Form) {
    match f
    case Empty(_) => true
    case Bare(_, text) => BareText(text)
    case Open(_, items) => GoodItems(items)
    case Closed(_, items, _) => GoodItems(items)
  }

  /** The forms of a row with commas between them. */
  function FormsText(fs: seq<Form>): bytes {
    if fs == [] then []
    else if |fs| == 1 then FormText(fs[0])
    else FormsText(fs[..|fs| - 1]) + [COMMA] + FormText(fs[|fs| - 1])
  }

  /** Only the last field of a row can still be open. */
  predicate GoodForms(fs: seq<Form>) {
    && fs != []
    && (forall i :: 0 <= i < |fs| ==> GoodForm(fs[i]))
    && forall i :: 0 <= i < |fs| - 1 ==> !fs[i].Open?
  }

  function Last(fs: seq<Form>): Form
    requires fs != []
  {
    fs[|fs| - 1]
  }

  function StateAfter(f: Form): CsvState {
    match f
    case Empty(_) => Start
    case Bare(_, _) => Unquoted
    case Open(_, _) => Quoted
    case Closed(_, _, _) => EscapedQuote
  }

  lemma {:induction false} ScanCrs(p: bytes, n: nat, s: CsvState)
    requires ScanPrefix(Csv, p) == Goto(s) && (s == Start || s == EscapedQuote)
    ensures ScanPrefix(Csv, p + Crs(n)) == Goto(s)
  {
    hide ScanPrefix;
    if n == 0 {
      assert p + [] == p;
    } else {
      ScanCrs(p, n - 1, s);
      ScanOneMore(p + Crs(n - 1), CR);
      assert p + Crs(n) == p + Crs(n - 1) + [CR];
    }
  }

  lemma {:induction false} ScanBare(p: bytes, text: bytes)
    requires ScanPrefix(Csv, p) == Goto(Start) && BareText(text)
    ensures ScanPrefix(Csv, p + text) == Goto(Unquoted)
  {
    hide ScanPrefix;
    var n := |text| - 1;
    var q := p + text[..n];
    assert p + text == q + [text[n]] && text[n] in text;
    ScanOneMore(q, text[n]);
    if n == 0 {
      assert q == p;
    } else {
      ScanBare(p, text[..n]);
    }
  }

  lemma {:induction false} ScanItems(p: bytes, items: seq<Item>)
    requires ScanPrefix(Csv, p) == Goto(Quoted) && GoodItems(items)
    ensures ScanPrefix(Csv, p + ItemsText(items)) == Goto(Quoted)
  {
    hide ScanPrefix;
    if items == [] {
      assert p + [] == p;
    } else {
      var n := |items| - 1;
      var q := p + ItemsText(items[..n]);
      ScanItems(p, items[..n]);
      match items[n]
      case Plain(c) =>
        ScanOneMore(q, c);
        assert p + ItemsText(items) == q + [c];
      case Pair(crs) =>
        ScanOneMore(q, QUOTE);
        ScanCrs(q + [QUOTE], crs, EscapedQuote);
        ScanOneMore(q + [QUOTE] + Crs(crs), QUOTE);
        assert p + ItemsText(items) == q + [QUOTE] + Crs(crs) + [QUOTE];
    }
  }

  lemma {:induction false} ScanForm(p: bytes, f: Form)
    requires ScanPrefix(Csv, p) == Goto(Start) && GoodForm(f)
    ensures ScanPrefix(Csv, p + FormText(f)) == Goto(StateAfter(f))
  {
    hide ScanPrefix, ItemsText, Crs;
    var q := p + Crs(f.lead);
    ScanCrs(p, f.lead, Start);
    match f
    case Empty(_) =>
      assert p + FormText(f) == q;
    case Bare(_, text) =>
      ScanBare(q, text);
      assert p + FormText(f) == q + text;
    case Open(_, items) =>
      ScanOneMore(q, QUOTE);
      ScanItems(q + [QUOTE], items);
      assert p + FormText(f) == q + [QUOTE] + ItemsText(items);
    case Closed(_, items, crs) =>
      ScanOneMore(q, QUOTE);
      ScanItems(q + [QUOTE], items);
      ScanOneMore(q + [QUOTE] + ItemsText(items), QUOTE);
      ScanCrs(q + [QUOTE] + ItemsText(items) + [QUOTE], crs, EscapedQuote);
      assert p + FormText(f) == q + [QUOTE] + ItemsText(items) + [QUOTE] + Crs(crs);
  }

  lemma {:induction false} ScanForms(fs: seq<Form>)
    requires GoodForms(fs)
    ensures ScanPrefix(Csv, FormsText(fs)) == Goto(StateAfter(Last(fs)))
  {
    var n := |fs| - 1;
    if n == 0 {
      assert ScanPrefix(Csv, []) == Goto(Start);
      hide ScanPrefix, FormText;
      ScanForm([], fs[0]);
      assert [] + FormText(fs[0]) == FormText(fs[0]);
    } else {
      hide ScanPrefix, FormText, GoodForm;
      ScanForms(fs[..n]);
      ScanOneMore(FormsText(fs[..n]), COMMA);
      ScanForm(FormsText(fs[..n]) + [COMMA], fs[n]);
    }
  }

  lemma {:induction false} OneMoreItem(items: seq<Item>, item: Item)
    ensures ItemsText(items + [item]) == ItemsText(items) + ItemText(item)
  {
    assert (items + [item])[..|items|] == items;
  }

  /** The form with one more byte. */
  function GrownForm(f: Form, c: byte): Form
  {
    match f
    case Empty(lead) =>
      if c == QUOTE then Open(lead, []) else if c == CR then Empty(lead + 1) else Bare(lead, [c])
    case Bare(lead, text) => Bare(lead, text + [c])
    case Open(lead, items) =>
      if c == QUOTE then Closed(lead, items, 0) else Open(lead, items + [Plain(c)])
    case Closed(lead, items, crs) =>
      if c == CR then Closed(lead, items, crs + 1) else Open(lead, items + [Pair(crs)])
  }

  predicate EndsForm(f: Form, c: byte) {
    c == COMMA && !f.Open?
  }

  lemma OneMoreCr(n: nat)
    ensures Crs(n + 1) == Crs(n) + [CR]
  {
  }

  lemma NothingSpelt()
    ensures Crs(0) == [] && ItemsText([]) == []
  {
  }

  lemma FormGrows(f: Form, c: byte)
    requires !EndsForm(f, c) && (!f.Open? ==> c != LF) && (f.Closed? ==> c == QUOTE || c == CR)
    ensures FormText(GrownForm(f, c)) == FormText(f) + [c]
  {
    hide Crs, ItemsText, Special;
    OneMoreCr(f.lead);
    NothingSpelt();
    match f
    case Empty(lead) =>
    case Bare(lead, text) =>
    case Open(lead, items) =>
      OneMoreItem(items, Plain(c));
    case Closed(lead, items, crs) =>
      OneMoreItem(items, Pair(crs));
      OneMoreCr(crs);
      if c == QUOTE {
        assert FormText(GrownForm(f, c)) == Crs(lead) + ([QUOTE] + (ItemsText(items) + ([QUOTE] + Crs(crs) + [QUOTE])));
      }
  }

  lemma FormStaysGood(f: Form, c: byte)
    requires GoodForm(f) && ScanByte(Csv, StateAfter(f), c).Goto? && !EndsForm(f, c)
    ensures GoodForm(GrownForm(f, c)) && ScanByte(Csv, StateAfter(f), c) == Goto(StateAfter(GrownForm(f, c)))
    ensures (!f.Open? ==> c != LF) && (f.Closed? ==> c == QUOTE || c == CR)
  {
  }

  lemma {:induction false} FormsGrow(fs: seq<Form>, g: Form, c: byte)
    requires fs != [] && FormText(g) == FormText(Last(fs)) + [c]
    ensures FormsText(fs[..|fs| - 1] + [g]) == FormsText(fs) + [c]
  {
    hide FormText;
    var n := |fs| - 1;
    var gs := fs[..n] + [g];
    if n == 0 {
      assert gs == [g];
    } else {
      assert gs[..n] == fs[..n] && gs[n] == g;
      assert FormsText(gs) == FormsText(fs[..n]) + [COMMA] + FormText(g);
      hide FormsText;
    }
  }

  lemma {:induction false} NextForm(fs: seq<Form>)
    requires fs != []
    ensures FormsText(fs + [Empty(0)]) == FormsText(fs) + [COMMA]
  {
    assert (fs + [Empty(0)])[..|fs|] == fs && FormText(Empty(0)) == [];
  }

  lemma GoodFormsGrow(fs: seq<Form>, g: Form)
    requires GoodForms(fs) && GoodForm(g)
    ensures GoodForms(fs[..|fs| - 1] + [g])
    ensures !Last(fs).Open? ==> GoodForms(fs + [g])
  {
    hide GoodForm;
  }

  /** Forms that spell s and leave the scanner in the state. */
  predicate SpeltBy(s: bytes, state: CsvState, fs: seq<Form>) {
    GoodForms(fs) && FormsText(fs) == s && StateAfter(Last(fs)) == state
  }

  ghost predicate Spelt(s: bytes, state: CsvState) {
    exists fs :: SpeltBy(s, state, fs)
  }

  lemma SpeltMore(s: bytes, state: CsvState, fs: seq<Form>, c: byte)
    requires SpeltBy(s, state, fs) && ScanByte(Csv, state, c).Goto?
    ensures Spelt(s + [c], ScanByte(Csv, state, c).state)
  {
    var f := Last(fs);
    var g := if EndsForm(f, c) then Empty(0) else GrownForm(f, c);
    var gs := if EndsForm(f, c) then fs + [g] else fs[..|fs| - 1] + [g];
    if EndsForm(f, c) {
      hide FormsText;
      NextForm(fs);
      GoodFormsGrow(fs, g);
    } else {
      FormStaysGood(f, c);
      hide ScanByte, FormsText, FormText, GoodForm, GrownForm, EndsForm, Special;
      FormGrows(f, c);
      FormsGrow(fs, g, c);
      GoodFormsGrow(fs, g);
    }
    assert SpeltBy(s + [c], ScanByte(Csv, state, c).state, gs);
  }

  /** Whatever the scanner is inside of has such a form. */
  lemma {:induction false} ScannedIsSpelt(s: bytes)
    requires ScanPrefix(Csv, s).Goto?
    ensures Spelt(s, ScanPrefix(Csv, s).state)
  {
    if s == [] {
      assert FormsText([Empty(0)]) == [];
      assert SpeltBy([], Start, [Empty(0)]);
    } else {
      var n := |s| - 1;
      ScannedIsSpelt(s[..n]);
      assert s == s[..n] + [s[n]];
      ScanOneMore(s[..n], s[n]);
      hide ScanPrefix, SpeltBy, ScanByte;
      var state := ScanPrefix(Csv, s[..n]).state;
      var fs :| SpeltBy(s[..n], state, fs);
      SpeltMore(s[..n], state, fs, s[n]);
    }
  }

  /** The scanner is in a state exactly when what it has seen is spelt by forms that end in that state. */
  lemma {:induction false} CsvStateExactly(s: bytes, state: CsvState)
    ensures ScanPrefix(Csv, s) == Goto(state) <==> Spelt(s, state)
  {
    hide FormsText, ScanPrefix, GoodForms;
    if ScanPrefix(Csv, s) == Goto(state) {
      ScannedIsSpelt(s);
    }
    if fs :| SpeltBy(s, state, fs) {
      ScanForms(fs);
    }
  }

  /** Fields none of which is left open. */
  ghost predicate Complete(s: bytes) {
    Spelt(s, Start) || Spelt(s, Unquoted) || Spelt(s, EscapedQuote)
  }

  lemma {:induction false} CompleteExactly(s: bytes)
    ensures Complete(s) <==> ScanPrefix(Csv, s).Goto? && ScanPrefix(Csv, s).state != Quoted
  {
    hide ScanPrefix, Spelt;
    CsvStateExactly(s, Start);
    CsvStateExactly(s, Unquoted);
    CsvStateExactly(s, EscapedQuote);
  }

  /** A record is complete fields and a line feed, and nothing else is. */
  lemma CsvRecordExactly(r: bytes)
    ensures WholeRecord(Csv, r) <==> r != [] && r[|r| - 1] == LF && Complete(r[..|r| - 1])
  {
    hide ScanPrefix, Complete;
    if r != [] {
      CompleteExactly(r[..|r| - 1]);
    }
  }

  /** What may follow the records: complete fields without a line end. */
  lemma CsvTailExactly(tail: bytes)
    ensures GoodTail(Csv, tail) <==> NulFree(tail) && |tail| <= MAX_RECORD_BYTES && Complete(tail)
  {
    hide ScanPrefix, Complete;
    CompleteExactly(tail);
  }

  /** The one thing that can be wrong in the middle of a record: a byte of no use after a closing quote. */
  lemma {:induction false} JunkExactly(s: bytes, c: byte)
    requires ScanPrefix(Csv, s).Goto?
    ensures ScanPrefix(Csv, s + [c]) == Malformed <==> !Special(c) && Spelt(s, EscapedQuote)
  {
    ScanOneMore(s, c);
    hide ScanPrefix, Spelt;
    CsvStateExactly(s, EscapedQuote);
  }

  predicate Bounded(s: bytes) {
    NulFree(s) && |s| <= MAX_RECORD_BYTES
  }

  /** Lines of complete fields, then complete fields without a line end, or nothing. */
  ghost predicate CsvText(input: bytes, rs: seq<bytes>, tail: bytes) {
    && input == Concat(rs) + tail && Bounded(tail) && Complete(tail)
    && forall i :: 0 <= i < |rs| ==>
         Bounded(rs[i]) && rs[i] != [] && rs[i][|rs[i]| - 1] == LF && Complete(rs[i][..|rs[i]| - 1])
  }

  lemma CsvTextSplits(input: bytes, rs: seq<bytes>, tail: bytes)
    ensures CsvText(input, rs, tail) <==> Splits(Csv, input, rs, tail)
  {
    hide Complete, WholeRecord, ScanPrefix, Concat, NulFree;
    CsvTailExactly(tail);
    hide GoodTail;
    forall i | 0 <= i < |rs|
      ensures GoodRecord(Csv, rs[i]) <==>
        Bounded(rs[i]) && rs[i] != [] && rs[i][|rs[i]| - 1] == LF && Complete(rs[i][..|rs[i]| - 1])
    {
      CsvRecordExactly(rs[i]);
    }
  }

  /** CSV is accepted exactly when it is such a text, and the chunks hold its lines in order. */
  lemma CsvAcceptedExactly(cfg: Config, input: bytes)
    requires cfg.format.Csv?
    ensures Cut(cfg, input).hazard.None? <==> exists rs, tail :: CsvText(input, rs, tail)
    ensures forall rs, tail :: CsvText(input, rs, tail) ==>
      Flatten(Cut(cfg, input).chunks) == rs + if tail == [] then [] else [tail]
  {
    hide Cut, Splits, CsvText;
    AcceptedExactly(cfg, input);
    forall rs, tail
      ensures CsvText(input, rs, tail) <==> Splits(Csv, input, rs, tail)
    {
      CsvTextSplits(input, rs, tail);
    }
  }
}
