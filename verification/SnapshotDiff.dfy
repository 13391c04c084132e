/** emit_diff of src/sysdiff.c: two sorted snapshots are merged into a text that is a patch between them. */
module SnapshotDiff {
  import opened Bytes
  import opened Options
  import opened DiffText
  import opened Sorting

  datatype Entry = Entry(key: bytes, value: bytes)

  datatype Change =
    | Added(key: bytes, value: bytes)
    | Removed(key: bytes, value: bytes)
    | Changed(key: bytes, before: bytes, after: bytes)

  const NO_CHANGES: bytes := Ascii("no changes\n")

  /** Bytes a key may have; the punctuation of a diff line is not among them. */
  predicate KeyByte(c: byte) {
    65 <= c <= 90 || 97 <= c <= 122 || 48 <= c <= 57 || c == DOT || c == 95 || c == HYPHEN || c == SLASH
  }

  predicate KeyText(k: bytes) {
    forall i :: 0 <= i < |k| ==> KeyByte(k[i])
  }

  predicate GoodEntries(es: seq<Entry>) {
    forall i :: 0 <= i < |es| ==> KeyText(es[i].key)
  }

  predicate Sorted(es: seq<Entry>) {
    forall i, j :: 0 <= i < j < |es| ==> Less(es[i].key, es[j].key)
  }

  /** The merge by two indices, as a recursion on what is left of the two snapshots. */
  function Diff(before: seq<Entry>, after: seq<Entry>): seq<Change>
    decreases |before| + |after|
  {
    if before == [] && after == [] then []
    else if before == [] then [Added(after[0].key, after[0].value)] + Diff(before, after[1..])
    else if after == [] then [Removed(before[0].key, before[0].value)] + Diff(before[1..], after)
    else
      var b, a := before[0], after[0];
      if b.key == a.key then
        (if b.value != a.value then [Changed(b.key, b.value, a.value)] else []) + Diff(before[1..], after[1..])
      else if Less(b.key, a.key) then [Removed(b.key, b.value)] + Diff(before[1..], after)
      else [Added(a.key, a.value)] + Diff(before, after[1..])
  }

  type Snapshot = map<bytes, bytes>

  function MapOf(es: seq<Entry>): Snapshot {
    if es == [] then map[] else map[es[0].key := es[0].value] + MapOf(es[1..])
  }

  /** A change fits a snapshot when what it takes away is there and what it adds is not. */
  predicate Fits(c: Change, m: Snapshot) {
    match c
    case Added(k, v) => k !in m
    case Removed(k, v) => k in m && m[k] == v
    case Changed(k, v, w) => k in m && m[k] == v && v != w
  }

  function Do(c: Change, m: Snapshot): Snapshot {
    match c
    case Added(k, v) => m[k := v]
    case Removed(k, v) => m - {k}
    case Changed(k, v, w) => m[k := w]
  }

  /** Applying a patch, or failing where it does not fit. */
  function Apply(cs: seq<Change>, m: Snapshot): Option<Snapshot>
    decreases |cs|
  {
    if cs == [] then Some(m)
    else if Fits(cs[0], m) then Apply(cs[1..], Do(cs[0], m))
    else None
  }

  /** Every key of es comes after k. */
  predicate Above(k: bytes, es: seq<Entry>) {
    forall i :: 0 <= i < |es| ==> Less(k, es[i].key)
  }

  lemma {:induction false} AboveNotIn(k: bytes, es: seq<Entry>)
    requires Above(k, es)
    ensures k !in MapOf(es)
  {
    if es != [] {
      LessIrreflexive(k);
      AboveNotIn(k, es[1..]);
    }
  }

  lemma {:induction false} AboveThrough(k: bytes, es: seq<Entry>)
    requires es != [] && Sorted(es) && Less(k, es[0].key)
    ensures Above(k, es)
  {
    hide Less;
    forall i | 0 <= i < |es|
      ensures Less(k, es[i].key)
    {
      if i > 0 {
        LessTransitive(k, es[0].key, es[i].key);
      }
    }
  }

  lemma SortedTail(es: seq<Entry>)
    requires es != [] && Sorted(es)
    ensures Sorted(es[1..]) && Above(es[0].key, es[1..])
  {
    hide Less;
  }

  /** No key of the one is a key of the other. */
  predicate Apart(p: Snapshot, es: seq<Entry>) {
    forall i :: 0 <= i < |es| ==> es[i].key !in p
  }

  /** The first entry is there to be taken, and taking it leaves the others. */
  lemma {:induction false} Takes(es: seq<Entry>, p: Snapshot)
    requires es != [] && Sorted(es) && Apart(p, es)
    ensures MapOf(es).Keys == {es[0].key} + MapOf(es[1..]).Keys && MapOf(es)[es[0].key] == es[0].value
    ensures (p + MapOf(es)) - {es[0].key} == p + MapOf(es[1..])
    ensures p + MapOf(es) == p[es[0].key := es[0].value] + MapOf(es[1..])
  {
    SortedTail(es);
    hide Less;
    AboveNotIn(es[0].key, es[1..]);
    assert es[0].key !in p;
  }

  lemma ApartFromMore(p: Snapshot, k: bytes, v: bytes, es: seq<Entry>)
    requires Apart(p, es) && Above(k, es)
    ensures Apart(p[k := v], es)
  {
    hide Less;
    LessIrreflexive(k);
  }

  lemma {:induction false} Applied(c: Change, cs: seq<Change>, m: Snapshot)
    requires Fits(c, m)
    ensures Apply([c] + cs, m) == Apply(cs, Do(c, m))
  {
    assert ([c] + cs)[1..] == cs;
  }

  lemma {:induction false} RemoveCase(before: seq<Entry>, after: seq<Entry>, p: Snapshot)
    requires Sorted(before) && Sorted(after) && Apart(p, before) && Apart(p, after)
    requires before != [] && (after == [] || Less(before[0].key, after[0].key))
    ensures Apply(Diff(before, after), p + MapOf(before)) == Some(p + MapOf(after))
    decreases |before| + |after|, 0
  {
    hide Less, MapOf;
    SortedTail(before);
    LessIrreflexive(before[0].key);
    Takes(before, p);
    DiffPatches(before[1..], after, p);
    Applied(Removed(before[0].key, before[0].value), Diff(before[1..], after), p + MapOf(before));
  }

  lemma {:induction false} AddCase(before: seq<Entry>, after: seq<Entry>, p: Snapshot)
    requires Sorted(before) && Sorted(after) && Apart(p, before) && Apart(p, after) && after != []
    requires before == [] || (!Less(before[0].key, after[0].key) && before[0].key != after[0].key)
    ensures Apply(Diff(before, after), p + MapOf(before)) == Some(p + MapOf(after))
    decreases |before| + |after|, 0
  {
    hide Less, MapOf;
    var k, v := after[0].key, after[0].value;
    if before != [] {
      LessTotal(k, before[0].key);
      AboveThrough(k, before);
    }
    SortedTail(after);
    AboveNotIn(k, before);
    ApartFromMore(p, k, v, before);
    ApartFromMore(p, k, v, after[1..]);
    Takes(after, p);
    DiffPatches(before, after[1..], p[k := v]);
    assert (p + MapOf(before))[k := v] == p[k := v] + MapOf(before);
    assert k !in p;
    Applied(Added(k, v), Diff(before, after[1..]), p + MapOf(before));
  }

  /** The merge as a patch, with the entries already dealt with in p. */
  lemma {:induction false} DiffPatches(before: seq<Entry>, after: seq<Entry>, p: Snapshot)
    requires Sorted(before) && Sorted(after) && Apart(p, before) && Apart(p, after)
    ensures Apply(Diff(before, after), p + MapOf(before)) == Some(p + MapOf(after))
    decreases |before| + |after|
  {
    hide Less, MapOf, Sorted, Apart, Fits, Do;
    if before == [] && after == [] {
    } else if before != [] && (after == [] || Less(before[0].key, after[0].key)) {
      RemoveCase(before, after, p);
    } else if before == [] || before[0].key != after[0].key {
      AddCase(before, after, p);
    } else {
      KeepCase(before, after, p);
    }
  }

  lemma {:induction false} KeepCase(before: seq<Entry>, after: seq<Entry>, p: Snapshot)
    requires Sorted(before) && Sorted(after) && Apart(p, before) && Apart(p, after)
    requires before != [] && after != [] && before[0].key == after[0].key
    ensures Apply(Diff(before, after), p + MapOf(before)) == Some(p + MapOf(after))
    decreases |before| + |after|, 0
  {
    hide Less, MapOf;
    var k, v, w := before[0].key, before[0].value, after[0].value;
    SortedTail(before);
    SortedTail(after);
    ApartFromMore(p, k, w, before[1..]);
    ApartFromMore(p, k, w, after[1..]);
    Takes(before, p);
    Takes(after, p);
    DiffPatches(before[1..], after[1..], p[k := w]);
    AboveNotIn(k, before[1..]);
    if v == w {
      assert Diff(before, after) == Diff(before[1..], after[1..]);
    } else {
      assert (p + MapOf(before))[k := w] == p[k := w] + MapOf(before[1..]);
      Applied(Changed(k, v, w), Diff(before[1..], after[1..]), p + MapOf(before));
    }
  }

  /** The printed changes, applied to the first snapshot, give the second: every line fits where it stands. */
  lemma {:induction false} DiffIsPatch(before: seq<Entry>, after: seq<Entry>)
    requires Sorted(before) && Sorted(after)
    ensures Apply(Diff(before, after), MapOf(before)) == Some(MapOf(after))
  {
    DiffPatches(before, after, map[]);
    assert map[] + MapOf(before) == MapOf(before) && map[] + MapOf(after) == MapOf(after);
  }

  /** Changes in strictly ascending order of key. */
  predicate ChangesSorted(cs: seq<Change>) {
    forall i, j :: 0 <= i < j < |cs| ==> Less(cs[i].key, cs[j].key)
  }

  predicate ChangesAbove(k: bytes, cs: seq<Change>) {
    forall i :: 0 <= i < |cs| ==> Less(k, cs[i].key)
  }

  lemma {:induction false} DiffAbove(k: bytes, before: seq<Entry>, after: seq<Entry>)
    requires Above(k, before) && Above(k, after)
    ensures ChangesAbove(k, Diff(before, after))
    decreases |before| + |after|
  {
    hide Less;
    if before == [] && after == [] {
    } else if before == [] || (after != [] && before[0].key != after[0].key && !Less(before[0].key, after[0].key)) {
      DiffAbove(k, before, after[1..]);
    } else if after == [] || before[0].key != after[0].key {
      DiffAbove(k, before[1..], after);
    } else {
      DiffAbove(k, before[1..], after[1..]);
    }
  }

  lemma {:induction false} DiffAscending(before: seq<Entry>, after: seq<Entry>)
    requires Sorted(before) && Sorted(after)
    ensures ChangesSorted(Diff(before, after))
    decreases |before| + |after|
  {
    hide Less;
    if before == [] && after == [] {
    } else if before == [] || (after != [] && before[0].key != after[0].key && !Less(before[0].key, after[0].key)) {
      SortedTail(after);
      if before != [] {
        LessTotal(before[0].key, after[0].key);
        AboveThrough(after[0].key, before);
      }
      DiffAbove(after[0].key, before, after[1..]);
      DiffAscending(before, after[1..]);
    } else if after == [] || before[0].key != after[0].key {
      SortedTail(before);
      if after != [] {
        AboveThrough(before[0].key, after);
      }
      DiffAbove(before[0].key, before[1..], after);
      DiffAscending(before[1..], after);
    } else {
      SortedTail(before);
      SortedTail(after);
      DiffAbove(before[0].key, before[1..], after[1..]);
      DiffAscending(before[1..], after[1..]);
    }
  }

  lemma {:induction false} NoChangesWhenEqual(before: seq<Entry>, after: seq<Entry>)
    ensures Diff(before, after) == [] <==> before == after
    decreases |before| + |after|
  {
    hide Less;
    if before != [] && after != [] && before[0].key == after[0].key {
      NoChangesWhenEqual(before[1..], after[1..]);
      assert before == [before[0]] + before[1..] && after == [after[0]] + after[1..];
      assert before[0] == Entry(before[0].key, before[0].value) && after[0] == Entry(after[0].key, after[0].value);
    }
  }

  /** What a sorted snapshot maps is what it lists. */
  lemma {:induction false} Listed(es: seq<Entry>, e: Entry)
    requires Sorted(es)
    ensures e in es <==> e.key in MapOf(es) && MapOf(es)[e.key] == e.value
  {
    hide Less;
    if es != [] {
      SortedTail(es);
      Listed(es[1..], e);
      AboveNotIn(es[0].key, es[1..]);
      assert es == [es[0]] + es[1..];
      assert es[0] == Entry(es[0].key, es[0].value) && e == Entry(e.key, e.value);
    }
  }

  function ByKey(): (Entry, Entry) -> bool {
    (x: Entry, y: Entry) => Less(x.key, y.key)
  }

  lemma ByKeyIsStrict()
    ensures StrictOrder(ByKey())
  {
    hide Less;
    var less := ByKey();
    forall x: Entry ensures !less(x, x) { LessIrreflexive(x.key); }
    forall x: Entry, y: Entry, z: Entry | less(x, y) && less(y, z)
      ensures less(x, z)
    {
      LessTransitive(x.key, y.key, z.key);
    }
  }

  /** Nothing is printed as changed exactly when the two snapshots map the same keys to the same values. */
  lemma {:induction false} NoChangesMeansEqual(before: seq<Entry>, after: seq<Entry>)
    requires Sorted(before) && Sorted(after)
    ensures Diff(before, after) == [] <==> MapOf(before) == MapOf(after)
  {
    hide Less, Diff, MapOf;
    NoChangesWhenEqual(before, after);
    if MapOf(before) == MapOf(after) {
      forall e ensures e in before <==> e in after {
        Listed(before, e);
        Listed(after, e);
      }
      ByKeyIsStrict();
      AscendingRowsUnique(before, after, ByKey());
    }
  }

  /** A printed line, without its line feed. */
  function Line(c: Change): bytes {
    match c
    case Added(k, v) => [PLUS, SPACE] + (k + [EQUALS] + EscapeValue(v))
    case Removed(k, v) => [HYPHEN, SPACE] + (k + [EQUALS] + EscapeValue(v))
    case Changed(k, v, w) =>
      [TILDE, SPACE] + (k + [COLON] + ([SPACE] + (EscapeValue(v) + SEPARATOR + EscapeValue(w))))
  }

  function Lines(cs: seq<Change>): bytes {
    if cs == [] then [] else Line(cs[0]) + [LF] + Lines(cs[1..])
  }

  function Render(cs: seq<Change>): bytes {
    if cs == [] then NO_CHANGES else Lines(cs)
  }

  function ParseChanged(key: bytes, values: bytes): Option<Change> {
    if values == [] || values[0] != SPACE then None
    else match Find(values[1..], SEPARATOR)
      case None => None
      case Some(n) =>
        if n + |SEPARATOR| > |values[1..]| then None
        else
          var v, w := Unescape(values[1..][..n]), Unescape(values[1..][n + |SEPARATOR|..]);
          if v.Some? && w.Some? then Some(Changed(key, v.value, w.value)) else None
  }

  /** Reads a printed line back. */
  function ParseLine(line: bytes): Option<Change> {
    if |line| < 2 || line[1] != SPACE then None
    else
      var rest := line[2..];
      if line[0] == PLUS || line[0] == HYPHEN then
        var v := Unescape(After(rest, EQUALS));
        if Before(rest, EQUALS) == rest || v == None then None
        else if line[0] == PLUS then Some(Added(Before(rest, EQUALS), v.value))
        else Some(Removed(Before(rest, EQUALS), v.value))
      else if line[0] == TILDE then ParseChanged(Before(rest, COLON), After(rest, COLON))
      else None
  }

  function ParseLines(text: bytes): Option<seq<Change>>
    decreases |text|
  {
    if text == [] then Some([])
    else if Before(text, LF) == text then None
    else match ParseLine(Before(text, LF))
      case None => None
      case Some(c) => match ParseLines(After(text, LF))
        case None => None
        case Some(cs) => Some([c] + cs)
  }

  function ParseDiff(text: bytes): Option<seq<Change>> {
    if text == NO_CHANGES then Some([]) else ParseLines(text)
  }

  lemma KeyHasNo(k: bytes, c: byte)
    requires KeyText(k) && !KeyByte(c)
    ensures c !in k
  {
  }

  lemma DropSign(sign: byte, rest: bytes)
    ensures ([sign, SPACE] + rest)[2..] == rest
  {
  }

  lemma {:induction false} ParseOneValue(k: bytes, v: bytes, sign: byte)
    requires KeyText(k) && (sign == PLUS || sign == HYPHEN)
    ensures ParseLine([sign, SPACE] + (k + [EQUALS] + EscapeValue(v)))
      == Some(if sign == PLUS then Added(k, v) else Removed(k, v))
  {
    hide EscapeValue, Unescape, Before, After, KeyText;
    KeyHasNo(k, EQUALS);
    BeforeOfConcat(k, EQUALS, EscapeValue(v));
    DropSign(sign, k + [EQUALS] + EscapeValue(v));
    UnescapeOfEscape(v);
  }

  lemma {:induction false} ParseOfValues(k: bytes, v: bytes, w: bytes)
    ensures ParseChanged(k, [SPACE] + (EscapeValue(v) + SEPARATOR + EscapeValue(w))) == Some(Changed(k, v, w))
  {
    LeftmostSeparator(v, w);
    UnescapeOfEscape(v);
    UnescapeOfEscape(w);
    hide EscapeValue, Unescape, Find;
    var a, b := EscapeValue(v), EscapeValue(w);
    var values := [SPACE] + (a + SEPARATOR + b);
    assert values[1..] == a + SEPARATOR + b;
    assert values[1..][..|a|] == a && values[1..][|a| + 4..] == b;
  }

  lemma ParseTwoValues(k: bytes, v: bytes, w: bytes)
    requires KeyText(k)
    ensures ParseLine(Line(Changed(k, v, w))) == Some(Changed(k, v, w))
  {
    hide EscapeValue, Unescape, Before, After, KeyText, Find, ParseChanged;
    var values := [SPACE] + (EscapeValue(v) + SEPARATOR + EscapeValue(w));
    KeyHasNo(k, COLON);
    BeforeOfConcat(k, COLON, values);
    DropSign(TILDE, k + [COLON] + values);
    ParseOfValues(k, v, w);
  }

  lemma ParseOfLine(c: Change)
    requires KeyText(c.key)
    ensures ParseLine(Line(c)) == Some(c)
  {
    hide EscapeValue, Unescape, KeyText, ParseLine;
    match c
    case Added(k, v) => ParseOneValue(k, v, PLUS);
    case Removed(k, v) => ParseOneValue(k, v, HYPHEN);
    case Changed(k, v, w) => ParseTwoValues(k, v, w);
  }

  lemma {:induction false} EscapedOnOneLine(v: bytes)
    ensures LF !in EscapeValue(v)
  {
    EscapedIsPrintable(v);
  }

  lemma LineIsOneLine(c: Change)
    requires KeyText(c.key)
    ensures LF !in Line(c)
  {
    hide EscapeValue, KeyText;
    KeyHasNo(c.key, LF);
    match c
    case Added(k, v) => EscapedOnOneLine(v);
    case Removed(k, v) => EscapedOnOneLine(v);
    case Changed(k, v, w) =>
      EscapedOnOneLine(v);
      EscapedOnOneLine(w);
  }

  predicate KeysText(cs: seq<Change>) {
    forall i :: 0 <= i < |cs| ==> KeyText(cs[i].key)
  }

  lemma {:induction false} ParseOfLines(cs: seq<Change>)
    requires KeysText(cs)
    ensures ParseLines(Lines(cs)) == Some(cs)
  {
    hide Line, ParseLine, Before, After, KeyText;
    if cs != [] {
      ParseOfLines(cs[1..]);
      LineIsOneLine(cs[0]);
      ParseOfLine(cs[0]);
      BeforeOfConcat(Line(cs[0]), LF, Lines(cs[1..]));
      assert LF in Lines(cs);
      assert cs == [cs[0]] + cs[1..];
    }
  }

  lemma {:induction false} LinesAreSigned(cs: seq<Change>)
    requires cs != []
    ensures Lines(cs) != [] && Lines(cs)[0] != 110
  {
    hide EscapeValue;
    assert Line(cs[0]) != [] && Lines(cs)[0] == Line(cs[0])[0];
  }

  /** The text reads back as the changes it was printed from; "no changes" is no line of a difference. */
  lemma ParseOfRender(cs: seq<Change>)
    requires KeysText(cs)
    ensures ParseDiff(Render(cs)) == Some(cs)
  {
    hide Line, ParseLine, KeyText;
    ParseOfLines(cs);
    if cs != [] {
      LinesAreSigned(cs);
      assert NO_CHANGES[0] == 110;
    }
  }

  lemma {:induction false} DiffKeepsKeys(before: seq<Entry>, after: seq<Entry>)
    requires GoodEntries(before) && GoodEntries(after)
    ensures KeysText(Diff(before, after))
    decreases |before| + |after|
  {
    hide Less, KeyText;
    if before == [] && after == [] {
    } else if before == [] || (after != [] && before[0].key != after[0].key && !Less(before[0].key, after[0].key)) {
      DiffKeepsKeys(before, after[1..]);
    } else if after == [] || before[0].key != after[0].key {
      DiffKeepsKeys(before[1..], after);
    } else {
      DiffKeepsKeys(before[1..], after[1..]);
    }
  }

  lemma RenderTellsChanges(cs: seq<Change>)
    requires KeysText(cs)
    ensures Render(cs) == NO_CHANGES <==> cs == []
  {
    hide Line, Lines, ParseLine, KeyText;
    ParseOfRender(cs);
  }

  /** The printed text is a patch: read back and applied to the first snapshot it gives the second. */
  lemma {:induction false} PrintedDiffIsPatch(before: seq<Entry>, after: seq<Entry>)
    requires Sorted(before) && Sorted(after) && GoodEntries(before) && GoodEntries(after)
    ensures var cs := ParseDiff(Render(Diff(before, after)));
      cs.Some? && ChangesSorted(cs.value) && Apply(cs.value, MapOf(before)) == Some(MapOf(after))
    ensures Render(Diff(before, after)) == NO_CHANGES <==> MapOf(before) == MapOf(after)
  {
    hide *;
    DiffKeepsKeys(before, after);
    ParseOfRender(Diff(before, after));
    DiffAscending(before, after);
    DiffIsPatch(before, after);
    NoChangesMeansEqual(before, after);
    RenderTellsChanges(Diff(before, after));
  }

  function AddedLine(e: Entry): bytes { Line(Added(e.key, e.value)) + [LF] }

  function RemovedLine(e: Entry): bytes { Line(Removed(e.key, e.value)) + [LF] }

  function ChangedLine(b: Entry, a: Entry): bytes {
    if b.value == a.value then [] else Line(Changed(b.key, b.value, a.value)) + [LF]
  }

  method EmitAdded(before: bytes, key: bytes, value: bytes) returns (out: bytes)
    ensures out == before + AddedLine(Entry(key, value)) && out != []
  {
    var text := PutEscapedValue(value);
    hide EscapeValue;
    out := before + ([PLUS, SPACE] + (key + [EQUALS] + text) + [LF]);
  }

  method EmitRemoved(before: bytes, key: bytes, value: bytes) returns (out: bytes)
    ensures out == before + RemovedLine(Entry(key, value)) && out != []
  {
    var text := PutEscapedValue(value);
    hide EscapeValue;
    out := before + ([HYPHEN, SPACE] + (key + [EQUALS] + text) + [LF]);
  }

  method EmitChanged(before: bytes, key: bytes, was: bytes, now: bytes) returns (out: bytes)
    ensures was != now ==> out == before + ChangedLine(Entry(key, was), Entry(key, now)) && out != []
  {
    var left := PutEscapedValue(was);
    var right := PutEscapedValue(now);
    hide EscapeValue;
    out := before + ([TILDE, SPACE] + (key + [COLON] + ([SPACE] + (left + SEPARATOR + right))) + [LF]);
  }

  /** What the loop has yet to print. */
  function Rest(before: seq<Entry>, after: seq<Entry>, i: nat, j: nat): seq<Change>
    requires i <= |before| && j <= |after|
  {
    Diff(before[i..], after[j..])
  }

  lemma {:induction false} LinesOfCons(c: Change, cs: seq<Change>)
    ensures Lines([c] + cs) == Line(c) + [LF] + Lines(cs)
  {
    assert ([c] + cs)[1..] == cs;
  }

  /** The bytes out are what the merge has printed when it stands at (i, j). */
  predicate Printed(out: bytes, before: seq<Entry>, after: seq<Entry>, i: nat, j: nat) {
    i <= |before| && j <= |after| && out + Lines(Rest(before, after, i, j)) == Lines(Diff(before, after))
  }

  lemma PrintMore(out: bytes, text: bytes, before: seq<Entry>, after: seq<Entry>, i: nat, j: nat, i1: nat, j1: nat)
    requires Printed(out, before, after, i, j) && i1 <= |before| && j1 <= |after|
    requires Lines(Rest(before, after, i, j)) == text + Lines(Rest(before, after, i1, j1))
    ensures Printed(out + text, before, after, i1, j1)
  {
    hide Lines, Rest;
  }

  lemma PrintAdded(out: bytes, before: seq<Entry>, after: seq<Entry>, i: nat, j: nat)
    requires Printed(out, before, after, i, j) && i <= |before| && j < |after|
    requires i == |before| || (before[i].key != after[j].key && !Less(before[i].key, after[j].key))
    ensures Printed(out + AddedLine(after[j]), before, after, i, j + 1)
  {
    hide Less, Line, Lines, Printed;
    var b, a := before[i..], after[j..];
    assert a[1..] == after[j + 1..];
    LinesOfCons(Added(a[0].key, a[0].value), Diff(b, a[1..]));
    PrintMore(out, AddedLine(a[0]), before, after, i, j, i, j + 1);
  }

  lemma PrintRemoved(out: bytes, before: seq<Entry>, after: seq<Entry>, i: nat, j: nat)
    requires Printed(out, before, after, i, j) && i < |before| && j <= |after|
    requires j == |after| || (before[i].key != after[j].key && Less(before[i].key, after[j].key))
    ensures Printed(out + RemovedLine(before[i]), before, after, i + 1, j)
  {
    hide Less, Line, Lines, Printed;
    var b, a := before[i..], after[j..];
    assert b[1..] == before[i + 1..];
    LinesOfCons(Removed(b[0].key, b[0].value), Diff(b[1..], a));
    PrintMore(out, RemovedLine(b[0]), before, after, i, j, i + 1, j);
  }

  lemma PrintChanged(out: bytes, before: seq<Entry>, after: seq<Entry>, i: nat, j: nat)
    requires Printed(out, before, after, i, j) && i < |before| && j < |after| && before[i].key == after[j].key
    ensures Printed(out + ChangedLine(before[i], after[j]), before, after, i + 1, j + 1)
  {
    hide Less, Line, Lines, Printed;
    var b, a := before[i..], after[j..];
    assert b[1..] == before[i + 1..] && a[1..] == after[j + 1..];
    var rest := Diff(b[1..], a[1..]);
    LinesOfCons(Changed(b[0].key, b[0].value, a[0].value), rest);
    assert [] + Lines(rest) == Lines(rest) && [] + rest == rest;
    PrintMore(out, ChangedLine(b[0], a[0]), before, after, i, j, i + 1, j + 1);
  }

  /** Whether the n-th call of a script succeeds; beyond the script all do. */
  predicate Goes(script: seq<bool>, n: nat) {
    n < |script| ==> script[n]
  }

  /** What a failing write leaves on the stream is the start of the whole text. */
  lemma {:induction false} PrintedIsPrefix(out: bytes, before: seq<Entry>, after: seq<Entry>, i: nat, j: nat)
    requires Printed(out, before, after, i, j)
    ensures out <= Render(Diff(before, after))
  {
    hide Line, Less, Diff, Rest;
    assert Lines([]) == [];
  }

  lemma NothingToPrint(out: bytes, b: Entry, a: Entry)
    requires b.value == a.value
    ensures out + ChangedLine(b, a) == out
  {
  }

  lemma NothingPrinted(before: seq<Entry>, after: seq<Entry>)
    ensures Printed([], before, after, 0, 0)
  {
    assert before[0..] == before && after[0..] == after;
  }

  lemma {:induction false} AllPrinted(out: bytes, before: seq<Entry>, after: seq<Entry>)
    requires Printed(out, before, after, |before|, |after|)
    ensures out == Lines(Diff(before, after)) && (out == [] <==> before == after)
    ensures before == after <==> Diff(before, after) == []
    ensures Render(Diff(before, after)) == if before == after then NO_CHANGES else Lines(Diff(before, after))
  {
    hide Line, Less;
    assert Rest(before, after, |before|, |after|) == [];
    NoChangesWhenEqual(before, after);
    if before != after {
      LinesAreSigned(Diff(before, after));
    }
  }

  /**
   * emit_diff: the bytes written to standard output and the exit status. `writes` tells which lines can be
   * written, `flushes` whether the stream can be flushed at the end.
   */
  method EmitDiff(before: seq<Entry>, after: seq<Entry>, writes: seq<bool>, flushes: bool)
    returns (out: bytes, status: nat)
    ensures status != 2 ==> out == Render(Diff(before, after)) && status == if before == after then 0 else 1
    ensures flushes && false !in writes ==> status != 2
    ensures !flushes ==> status == 2
    ensures out <= Render(Diff(before, after))
  {
    hide Less, Line, Lines, Diff, Printed, AddedLine, RemovedLine, ChangedLine, Render;
    var i, j, changed, calls := 0, 0, false, 0;
    out := [];
    NothingPrinted(before, after);
    while i < |before| || j < |after|
      invariant i <= |before| && j <= |after| && Printed(out, before, after, i, j)
      invariant changed == (out != [])
      decreases |before| + |after| - i - j
    {
      PrintedIsPrefix(out, before, after, i, j);
      if i < |before| && j < |after| && before[i].key == after[j].key && before[i].value == after[j].value {
        PrintChanged(out, before, after, i, j);
        NothingToPrint(out, before[i], after[j]);
        i, j := i + 1, j + 1;
        continue;
      }
      if !Goes(writes, calls) {
        return out, 2;
      }
      calls := calls + 1;
      changed := true;
      if i == |before| {
        PrintAdded(out, before, after, i, j);
        out := EmitAdded(out, after[j].key, after[j].value);
        j := j + 1;
        continue;
      }
      if j == |after| {
        PrintRemoved(out, before, after, i, j);
        out := EmitRemoved(out, before[i].key, before[i].value);
        i := i + 1;
        continue;
      }
      if before[i].key == after[j].key {
        PrintChanged(out, before, after, i, j);
        out := EmitChanged(out, before[i].key, before[i].value, after[j].value);
        i, j := i + 1, j + 1;
      } else if Less(before[i].key, after[j].key) {
        PrintRemoved(out, before, after, i, j);
        out := EmitRemoved(out, before[i].key, before[i].value);
        i := i + 1;
      } else {
        PrintAdded(out, before, after, i, j);
        out := EmitAdded(out, after[j].key, after[j].value);
        j := j + 1;
      }
    }
    PrintedIsPrefix(out, before, after, i, j);
    AllPrinted(out, before, after);
    if !changed {
      if !Goes(writes, calls) {
        return out, 2;
      }
      out := out + NO_CHANGES;
    }
    status := if !flushes then 2 else if changed then 1 else 0;
  }

  lemma Ungrouped(sign: bytes, k: bytes, sep: bytes, v: bytes)
    ensures sign + (k + sep + v) == sign + k + sep + v
  {
  }

  lemma ChangedUngrouped(k: bytes, v: bytes, w: bytes)
    ensures k + [COLON] + ([SPACE] + (v + SEPARATOR + w)) == k + ([COLON] + [SPACE]) + (v + SEPARATOR + w)
    ensures [TILDE, SPACE] + k + ([COLON] + [SPACE]) + (v + SEPARATOR + w)
      == [TILDE, SPACE] + k + ([COLON] + [SPACE]) + v + SEPARATOR + w
  {
    var head := [TILDE, SPACE] + k + ([COLON] + [SPACE]);
    Regrouped(head, v + SEPARATOR, w);
    Regrouped(head, v, SEPARATOR);
  }

  /** The three kinds of line, spelt out. */
  lemma {:induction false} LineMeans(k: bytes, v: bytes, w: bytes)
    ensures Line(Added(k, v)) == Ascii("+ ") + k + Ascii("=") + EscapeValue(v)
    ensures Line(Removed(k, v)) == Ascii("- ") + k + Ascii("=") + EscapeValue(v)
    ensures Line(Changed(k, v, w)) == Ascii("~ ") + k + Ascii(": ") + EscapeValue(v) + Ascii(" -> ") + EscapeValue(w)
  {
    hide EscapeValue;
    assert Ascii("+ ") == [PLUS, SPACE] && Ascii("- ") == [HYPHEN, SPACE] && Ascii("~ ") == [TILDE, SPACE];
    assert Ascii("=") == [EQUALS] && Ascii(": ") == [COLON] + [SPACE] && Ascii(" -> ") == SEPARATOR;
    hide Ascii;
    Ungrouped([PLUS, SPACE], k, [EQUALS], EscapeValue(v));
    Ungrouped([HYPHEN, SPACE], k, [EQUALS], EscapeValue(v));
    Ungrouped([TILDE, SPACE], k, [COLON] + [SPACE], EscapeValue(v) + SEPARATOR + EscapeValue(w));
    ChangedUngrouped(k, EscapeValue(v), EscapeValue(w));
  }
}
