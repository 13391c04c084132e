/** Which executable of a name wins and which are shadowed: record_executable_hit of src/pathaudit.c. */
module FirstWins {
  import opened Bytes
  import opened Options
  import opened Sorting
  import opened ProbeTable

  /** One executable found under a PATH component. */
  datatype Hit = Hit(command: bytes, path: bytes, index: nat)

  type Winner = Item<bytes, bytes>

  /** A shadow is keyed by (command, shadowed path); the rest is the winner and the PATH position. */
  type Shadow = Item<(bytes, bytes), (bytes, nat)>

  /** The tables after a sequence of hits. */
  datatype Tables = Tables(winners: seq<Winner>, shadows: seq<Shadow>)

  /** Every winner and shadow of a run, without tables: the first hit of a name, and each loser once. */
  predicate FirstOfName(hits: seq<Hit>, i: nat)
    requires i < |hits|
  {
    forall j :: 0 <= j < i ==> hits[j].command != hits[i].command
  }

  predicate FirstOfPair(hits: seq<Hit>, i: nat)
    requires i < |hits|
  {
    forall j :: 0 <= j < i ==> !(hits[j].command == hits[i].command && hits[j].path == hits[i].path)
  }

  /** Hit w is the winner that hit i loses against. */
  predicate LosesTo(hits: seq<Hit>, i: nat, w: nat)
    requires i < |hits| && w < |hits|
  {
    FirstOfName(hits, w) && hits[w].command == hits[i].command && hits[w].path != hits[i].path
  }

  ghost predicate IsWinner(hits: seq<Hit>, x: Winner) {
    exists i :: 0 <= i < |hits| && FirstOfName(hits, i) && x == Item(hits[i].command, hits[i].path)
  }

  predicate MakesShadow(hits: seq<Hit>, i: nat, w: nat, x: Shadow) {
    && i < |hits| && w < |hits| && FirstOfPair(hits, i) && LosesTo(hits, i, w)
    && x == Item((hits[i].command, hits[i].path), (hits[w].path, hits[i].index))
  }

  ghost predicate IsShadow(hits: seq<Hit>, x: Shadow) {
    exists i: nat, w: nat :: MakesShadow(hits, i, w, x)
  }

  /** The shadow that hit h would make against winner w. */
  predicate WouldShadow(hits: seq<Hit>, h: Hit, w: nat, x: Shadow) {
    && w < |hits| && FirstOfName(hits, w) && hits[w].command == h.command && hits[w].path != h.path
    && x == Item((h.command, h.path), (hits[w].path, h.index))
  }

  function Any(): bytes -> bool {
    p => true
  }

  function WonBy(winner: bytes): ((bytes, nat)) -> bool {
    (v: (bytes, nat)) => v.0 == winner
  }

  predicate DistinctKeys<K(==), V>(items: seq<Item<K, V>>) {
    forall i, j :: 0 <= i < j < |items| ==> items[i].key != items[j].key
  }

  /** The tables say exactly what the hits say. */
  ghost predicate Records(t: Tables, hits: seq<Hit>) {
    && DistinctKeys(t.winners) && DistinctKeys(t.shadows)
    && (forall x :: x in t.winners <==> IsWinner(hits, x))
    && (forall x :: x in t.shadows <==> IsShadow(hits, x))
  }

  lemma FirstExists(hits: seq<Hit>, i: nat) returns (w: nat)
    requires i < |hits|
    ensures w <= i && FirstOfName(hits, w) && hits[w].command == hits[i].command
  {
    w := i;
    while exists j :: 0 <= j < w && hits[j].command == hits[w].command
      invariant w <= i && hits[w].command == hits[i].command
      decreases w
    {
      var j :| 0 <= j < w && hits[j].command == hits[w].command;
      w := j;
    }
  }

  lemma FirstPairExists(hits: seq<Hit>, i: nat) returns (f: nat)
    requires i < |hits|
    ensures f <= i && FirstOfPair(hits, f) && hits[f].command == hits[i].command && hits[f].path == hits[i].path
  {
    f := i;
    while exists j :: 0 <= j < f && hits[j].command == hits[f].command && hits[j].path == hits[f].path
      invariant f <= i && hits[f].command == hits[i].command && hits[f].path == hits[i].path
      decreases f
    {
      var j :| 0 <= j < f && hits[j].command == hits[f].command && hits[j].path == hits[f].path;
      f := j;
    }
  }

  predicate NameSeen(hits: seq<Hit>, command: bytes) {
    exists j :: 0 <= j < |hits| && hits[j].command == command
  }

  predicate PairSeen(hits: seq<Hit>, command: bytes, path: bytes) {
    exists j :: 0 <= j < |hits| && hits[j].command == command && hits[j].path == path
  }

  /** What one more hit adds to the winners. */
  lemma WinnersAfter(hits: seq<Hit>, h: Hit, x: Winner)
    ensures IsWinner(hits + [h], x) <==>
      IsWinner(hits, x) || (!NameSeen(hits, h.command) && x == Item(h.command, h.path))
  {
    var all := hits + [h];
    assert forall j :: 0 <= j < |hits| ==> all[j] == hits[j];
    if i :| 0 <= i < |hits| && FirstOfName(hits, i) && x == Item(hits[i].command, hits[i].path) {
      assert FirstOfName(all, i);
    }
    if i :| 0 <= i < |all| && FirstOfName(all, i) && x == Item(all[i].command, all[i].path) {
      if i < |hits| {
        assert FirstOfName(hits, i);
      }
    }
    if !NameSeen(hits, h.command) {
      assert FirstOfName(all, |hits|);
    }
  }

  /** What one more hit adds to the shadows. */
  lemma ShadowsAfter(hits: seq<Hit>, h: Hit, x: Shadow)
    ensures IsShadow(hits + [h], x) <==>
      || IsShadow(hits, x)
      || (!PairSeen(hits, h.command, h.path) && exists w: nat :: WouldShadow(hits, h, w, x))
  {
    var all := hits + [h];
    assert forall j :: 0 <= j < |hits| ==> all[j] == hits[j];
    if i: nat, w: nat :| MakesShadow(hits, i, w, x) {
      assert FirstOfPair(all, i) && FirstOfName(all, w);
      assert MakesShadow(all, i, w, x);
    }
    if i: nat, w: nat :| MakesShadow(all, i, w, x) {
      if i < |hits| {
        assert w < |hits|;
        assert FirstOfPair(hits, i) && FirstOfName(hits, w);
        assert MakesShadow(hits, i, w, x);
      } else {
        assert w < |hits| ==> FirstOfName(hits, w);
        assert WouldShadow(hits, h, w, x);
      }
    }
    if w: nat :| WouldShadow(hits, h, w, x) && !PairSeen(hits, h.command, h.path) {
      assert FirstOfPair(all, |hits|) && FirstOfName(all, w);
      assert MakesShadow(all, |hits|, w, x);
    }
  }

  lemma NameHasWinner(t: Tables, hits: seq<Hit>, command: bytes)
    requires Records(t, hits) && NameSeen(hits, command)
    ensures exists k :: 0 <= k < |t.winners| && Matches(t.winners[k], command, Any())
  {
    var j :| 0 <= j < |hits| && hits[j].command == command;
    var f := FirstExists(hits, j);
    var x: Winner := Item(command, hits[f].path);
    assert IsWinner(hits, x) && x in t.winners;
    var k :| 0 <= k < |t.winners| && t.winners[k] == x;
    assert Matches(t.winners[k], command, Any());
  }

  /** What record_executable_hit finds in the tables, in terms of the hits. */
  lemma WinnerFound(t: Tables, hits: seq<Hit>, command: bytes, r: Option<nat>) returns (w: nat)
    requires Records(t, hits) && FirstMatch(t.winners, command, Any(), r)
    ensures r.Some? <==> NameSeen(hits, command)
    ensures r.Some? ==> w < |hits| && FirstOfName(hits, w) && hits[w].command == command
    ensures r.Some? ==> t.winners[r.value] == Item(command, hits[w].path)
  {
    w := 0;
    match r
    case Some(k) =>
      assert t.winners[k] in t.winners;
      w :| 0 <= w < |hits| && FirstOfName(hits, w) && t.winners[k] == Item(hits[w].command, hits[w].path);
    case None =>
      if NameSeen(hits, command) {
        NameHasWinner(t, hits, command);
      }
  }

  lemma ShadowFound(t: Tables, hits: seq<Hit>, h: Hit, w: nat, r: Option<nat>)
    requires Records(t, hits) && w < |hits| && FirstOfName(hits, w)
    requires hits[w].command == h.command && hits[w].path != h.path
    requires FirstMatch(t.shadows, (h.command, h.path), WonBy(hits[w].path), r)
    ensures r.Some? <==> PairSeen(hits, h.command, h.path)
    ensures r.None? ==> forall x :: x in t.shadows ==> x.key != (h.command, h.path)
  {
    var accept := WonBy(hits[w].path);
    forall x | x in t.shadows && x.key == (h.command, h.path)
      ensures PairSeen(hits, h.command, h.path) && r.Some?
    {
      assert IsShadow(hits, x);
      var i: nat, v: nat :| MakesShadow(hits, i, v, x);
      assert v == w;
      var k :| 0 <= k < |t.shadows| && t.shadows[k] == x;
      assert Matches(t.shadows[k], (h.command, h.path), accept);
    }
    if r.Some? {
      assert t.shadows[r.value] in t.shadows;
    }
    if j :| 0 <= j < |hits| && hits[j].command == h.command && hits[j].path == h.path {
      var f := FirstPairExists(hits, j);
      assert LosesTo(hits, f, w);
      var x: Shadow := Item((h.command, h.path), (hits[w].path, hits[f].index));
      assert MakesShadow(hits, f, w, x);
      assert x in t.shadows;
    }
  }

  /** The tables after one more hit. */
  function AfterHit(t: Tables, h: Hit, winner: Option<nat>, shadow: Option<nat>): Tables
    requires winner.Some? ==> winner.value < |t.winners|
  {
    match winner
    case None => t.(winners := t.winners + [Item(h.command, h.path)])
    case Some(k) =>
      if t.winners[k].value == h.path || shadow.Some? then t
      else t.(shadows := t.shadows + [Item((h.command, h.path), (t.winners[k].value, h.index))])
  }

  /** Which shadow the new hit makes, if any. */
  lemma OneLoser(hits: seq<Hit>, h: Hit, winner: Option<nat>, w: nat, x: Shadow)
    requires winner.Some? <==> NameSeen(hits, h.command)
    requires winner.Some? ==> w < |hits| && FirstOfName(hits, w) && hits[w].command == h.command
    ensures (exists v: nat :: WouldShadow(hits, h, v, x))
      <==> winner.Some? && hits[w].path != h.path && x == Item((h.command, h.path), (hits[w].path, h.index))
  {
    forall v | 0 <= v < |hits| && FirstOfName(hits, v) && hits[v].command == h.command
      ensures winner.Some? && v == w
    {
    }
    if winner.Some? && hits[w].path != h.path && x == Item((h.command, h.path), (hits[w].path, h.index)) {
      assert WouldShadow(hits, h, w, x);
    }
  }

  lemma KeysKept(t: Tables, hits: seq<Hit>, h: Hit, winner: Option<nat>, shadow: Option<nat>, w: nat)
    requires Records(t, hits) && (winner.Some? ==> winner.value < |t.winners|)
    requires winner.None? ==> !NameSeen(hits, h.command)
    requires winner.Some? ==> w < |hits| && t.winners[winner.value].value == hits[w].path
    requires winner.Some? && hits[w].path != h.path && shadow.None? ==>
      forall x :: x in t.shadows ==> x.key != (h.command, h.path)
    ensures DistinctKeys(AfterHit(t, h, winner, shadow).winners)
    ensures DistinctKeys(AfterHit(t, h, winner, shadow).shadows)
  {
    forall i | 0 <= i < |t.winners|
      ensures NameSeen(hits, t.winners[i].key)
    {
      assert t.winners[i] in t.winners;
    }
    forall i | 0 <= i < |t.shadows|
      ensures t.shadows[i] in t.shadows
    {
    }
  }

  lemma RecordsAfter(t: Tables, hits: seq<Hit>, h: Hit, winner: Option<nat>, shadow: Option<nat>)
    requires Records(t, hits) && FirstMatch(t.winners, h.command, Any(), winner)
    requires winner.Some? && t.winners[winner.value].value != h.path ==>
      var p := t.winners[winner.value].value;
      FirstMatch(t.shadows, (h.command, h.path), WonBy(p), shadow)
    ensures Records(AfterHit(t, h, winner, shadow), hits + [h])
  {
    hide FirstOfName, FirstOfPair, IsWinner, IsShadow;
    var t' := AfterHit(t, h, winner, shadow);
    var w := WinnerFound(t, hits, h.command, winner);
    if winner.Some? && hits[w].path != h.path {
      ShadowFound(t, hits, h, w, shadow);
    }
    KeysKept(t, hits, h, winner, shadow, w);
    forall x ensures x in t'.winners <==> IsWinner(hits + [h], x) {
      WinnersAfter(hits, h, x);
    }
    forall x ensures x in t'.shadows <==> IsShadow(hits + [h], x) {
      ShadowsAfter(hits, h, x);
      OneLoser(hits, h, winner, w, x);
    }
  }

  class Recorder {
    const winners: Table<bytes, bytes>
    const shadows: Table<(bytes, bytes), (bytes, nat)>
    /** The hits recorded so far. */
    ghost var hits: seq<Hit>

    ghost predicate Valid()
      reads this, winners, shadows, winners.slots, shadows.slots
    {
      && winners as object != shadows && winners.slots != shadows.slots
      && winners.maxItems == SIZE_MAX / 16 && shadows.maxItems == SIZE_MAX / 32
      && winners.Valid() && shadows.Valid()
      && |winners.items| <= |hits| && |shadows.items| <= |hits|
      && Records(Tables(winners.items, shadows.items), hits)
    }

    constructor (hashCommand: bytes -> nat, hashPair: ((bytes, bytes)) -> nat)
      ensures Valid() && hits == [] && fresh(winners) && fresh(shadows) && fresh(winners.slots) && fresh(shadows.slots)
    {
      winners := new Table(hashCommand, SIZE_MAX / 16);
      shadows := new Table(hashPair, SIZE_MAX / 32);
      hits := [];
    }

    /** record_executable_hit; the flags say how the four allocations turn out. */
    method RecordHit(h: Hit, strdupOk: bool, reallocOk: bool, mallocOk: bool) returns (status: int)
      requires Valid()
      modifies this, winners, shadows, winners.slots, shadows.slots
      ensures winners.slots == old(winners.slots) || fresh(winners.slots)
      ensures shadows.slots == old(shadows.slots) || fresh(shadows.slots)
      ensures status == 0 || status == 2
      ensures status == 0 ==> Valid() && hits == old(hits) + [h]
      ensures status == 2 ==> Valid() && hits == old(hits)
      ensures status == 2 ==> winners.items == old(winners.items) && shadows.items == old(shadows.items)
      ensures strdupOk && reallocOk && mallocOk && |old(hits)| < 0x1000_0000 ==> status == 0
    {
      hide Records, Indexed, PowerOfTwo, FirstOfName;
      ghost var t := Tables(winners.items, shadows.items);
      var winner := winners.Find(h.command, Any());
      var shadow: Option<nat> := None;
      if winner.Some? {
        var p := winners.items[winner.value].value;
        if p == h.path {
          RecordsAfter(t, hits, h, winner, shadow);
          hits := hits + [h];
          return 0;
        }
        shadow := shadows.Find((h.command, h.path), WonBy(p));
        RecordsAfter(t, hits, h, winner, shadow);
        if shadow.Some? {
          hits := hits + [h];
          return 0;
        }
        if !strdupOk {
          return 2;
        }
        var appended := shadows.Append((h.command, h.path), (p, h.index), reallocOk, mallocOk);
        if !appended {
          return 2;
        }
        hits := hits + [h];
        return 0;
      }
      RecordsAfter(t, hits, h, winner, shadow);
      if !strdupOk {
        return 2;
      }
      var appended := winners.Append(h.command, h.path, reallocOk, mallocOk);
      if !appended {
        return 2;
      }
      hits := hits + [h];
      return 0;
    }
  }

  /** The hits of a scan: components in PATH order, and no name twice in one directory. */
  predicate Scanned(hits: seq<Hit>) {
    forall i, j :: 0 <= i < j < |hits| ==>
      hits[i].index <= hits[j].index && !(hits[i].command == hits[j].command && hits[i].index == hits[j].index)
  }

  /** In a scan, the first hit of a name is the one in the earliest component, wherever readdir puts it. */
  lemma FirstMoves(a: seq<Hit>, b: seq<Hit>, i: nat) returns (j: nat)
    requires Scanned(a) && Scanned(b) && (forall h :: h in a <==> h in b) && i < |a|
    ensures j < |b| && b[j] == a[i]
    ensures FirstOfName(a, i) ==> FirstOfName(b, j)
    ensures FirstOfPair(a, i) ==> FirstOfPair(b, j)
  {
    assert a[i] in b;
    j :| 0 <= j < |b| && b[j] == a[i];
    forall k | 0 <= k < j && b[k].command == b[j].command
      ensures exists m :: 0 <= m < i && a[m] == b[k]
    {
      assert b[k] in a;
      var m :| 0 <= m < |a| && a[m] == b[k];
      assert m < i;
    }
  }

  lemma WinnerMoves(a: seq<Hit>, b: seq<Hit>, x: Winner)
    requires Scanned(a) && Scanned(b) && (forall h :: h in a <==> h in b)
    ensures IsWinner(a, x) ==> IsWinner(b, x)
  {
    if i :| 0 <= i < |a| && FirstOfName(a, i) && x == Item(a[i].command, a[i].path) {
      var j := FirstMoves(a, b, i);
    }
  }

  lemma ShadowMoves(a: seq<Hit>, b: seq<Hit>, x: Shadow)
    requires Scanned(a) && Scanned(b) && (forall h :: h in a <==> h in b)
    ensures IsShadow(a, x) ==> IsShadow(b, x)
  {
    if i: nat, w: nat :| MakesShadow(a, i, w, x) {
      var j := FirstMoves(a, b, i);
      var v := FirstMoves(a, b, w);
      assert MakesShadow(b, j, v, x);
    }
  }

  /** compare_shadows(a, b) < 0. */
  predicate ByCommandThenIndex(a: Shadow, b: Shadow) {
    Less(a.key.0, b.key.0) || (a.key.0 == b.key.0 && a.value.1 < b.value.1)
  }

  lemma ShadowOrderIsStrict()
    ensures StrictOrder(ByCommandThenIndex)
  {
    forall a: Shadow ensures !ByCommandThenIndex(a, a) {
      LessIrreflexive(a.key.0);
    }
    forall a: Shadow, b: Shadow, c: Shadow | ByCommandThenIndex(a, b) && ByCommandThenIndex(b, c)
      ensures ByCommandThenIndex(a, c)
    {
      if a.key.0 != b.key.0 && b.key.0 != c.key.0 {
        LessTransitive(a.key.0, b.key.0, c.key.0);
      }
    }
  }

  /** The sort keys of the shadows of a scan are unique. */
  lemma ShadowsSeparated(t: Tables, hits: seq<Hit>)
    requires Records(t, hits) && Scanned(hits)
    ensures Separated(t.shadows, ByCommandThenIndex)
  {
    forall i, j | 0 <= i < j < |t.shadows|
      ensures ByCommandThenIndex(t.shadows[i], t.shadows[j]) || ByCommandThenIndex(t.shadows[j], t.shadows[i])
    {
      var x, y := t.shadows[i], t.shadows[j];
      assert x in t.shadows && y in t.shadows;
      LessTotal(x.key.0, y.key.0);
      var k: nat, v: nat :| MakesShadow(hits, k, v, x);
      var l: nat, w: nat :| MakesShadow(hits, l, w, y);
      assert x.key != y.key;
    }
  }

  /** Neither the winners nor the sorted SHADOWED rows depend on the order readdir reports names in. */
  lemma ReaddirOrderIsInvisible(a: seq<Hit>, ta: Tables, sa: seq<Shadow>, b: seq<Hit>, tb: Tables, sb: seq<Shadow>)
    requires Scanned(a) && Scanned(b) && multiset(a) == multiset(b)
    requires Records(ta, a) && Records(tb, b)
    requires Sorts(sa, ta.shadows, ByCommandThenIndex) && Sorts(sb, tb.shadows, ByCommandThenIndex)
    ensures forall x :: x in ta.winners <==> x in tb.winners
    ensures sa == sb && Ascending(sa, ByCommandThenIndex)
  {
    SameMembers(a, b);
    forall x ensures x in ta.winners <==> x in tb.winners {
      WinnerMoves(a, b, x);
      WinnerMoves(b, a, x);
    }
    forall x ensures x in ta.shadows <==> x in tb.shadows {
      ShadowMoves(a, b, x);
      ShadowMoves(b, a, x);
    }
    ShadowsSeparated(ta, a);
    ShadowsSeparated(tb, b);
    ShadowOrderIsStrict();
    hide Records, Scanned;
    SortForgetsOrder(sa, ta.shadows, sb, tb.shadows, ByCommandThenIndex);
  }

  /** The SHADOWED rows ascend by command, and under one command by place on PATH. */
  lemma ShadowRowsAscend(t: Tables, hits: seq<Hit>, rows: seq<Shadow>)
    requires Records(t, hits) && Scanned(hits) && Sorts(rows, t.shadows, ByCommandThenIndex)
    ensures forall i, j :: 0 <= i < j < |rows| ==>
      Less(rows[i].key.0, rows[j].key.0) || (rows[i].key.0 == rows[j].key.0 && rows[i].value.1 < rows[j].value.1)
  {
    ReaddirOrderIsInvisible(hits, t, rows, hits, t, rows);
    hide Records, Scanned, Less;
  }
}
