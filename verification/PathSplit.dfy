/** How src/pathaudit.c takes PATH apart in place, and puts some of it together again. */
module PathSplit {
  import opened Bytes
  import opened Options

  const MAX_ROOT_COUNT: nat := 65536
  const MAX_ROOT_LENGTH: nat := 65536
  const MAX_ROOT_BYTES: nat := 1048576

  /** What stat says of a path: it exists, ENOENT, or another error. */
  datatype Lookup = Found | Missing | Failed

  type Stat = bytes -> Lookup

  datatype Reason = PathUnset | RootCountLimit | RootLengthLimit | RootBytesLimit | OutOfMemory

  /** What the inner loop has decided about a merge. */
  datatype Verdict = Undecided | Refused | Accepted

  /** struct Root, its text being an offset into the storage. */
  datatype Root = Root(text: nat, index: nat, len: nat)

  function End(r: Root): nat { r.text + r.len }

  /** The fields of PATH: one more than there are colons. */
  function Split(s: bytes): (fs: seq<bytes>)
    ensures fs != []
  {
    if s == [] then [[]]
    else
      var n := |s| - 1;
      var fs := Split(s[..n]);
      if s[n] == COLON then fs + [[]]
      else fs[..|fs| - 1] + [fs[|fs| - 1] + [s[n]]]
  }

  /** A longer prefix has no fewer fields. */
  lemma {:induction false} MoreFields(s: bytes, p: nat)
    requires p <= |s|
    ensures |Split(s[..p])| <= |Split(s)|
    decreases |s| - p
  {
    if p == |s| {
      assert s[..p] == s;
    } else {
      MoreFields(s, p + 1);
      assert s[..p + 1][..p] == s[..p];
    }
  }

  lemma {:induction false} JoinOneMore(fs: seq<bytes>, f: bytes)
    requires fs != []
    ensures JoinWith(COLON, fs + [f]) == JoinWith(COLON, fs) + [COLON] + f
  {
    JoinWithOfConcat(COLON, fs, [f]);
  }

  /** Splitting loses nothing, and no field keeps a colon. */
  lemma {:induction false} SplitJoins(s: bytes)
    ensures JoinWith(COLON, Split(s)) == s
    ensures forall f | f in Split(s) :: COLON !in f
  {
    if s != [] {
      var n := |s| - 1;
      var fs := Split(s[..n]);
      var m := |fs| - 1;
      SplitJoins(s[..n]);
      assert s == s[..n] + [s[n]];
      assert fs[m] in fs;
      if s[n] == COLON {
        JoinOneMore(fs, []);
      } else {
        assert fs == fs[..m] + [fs[m]];
        if m > 0 {
          JoinOneMore(fs[..m], fs[m]);
          JoinOneMore(fs[..m], fs[m] + [s[n]]);
        }
      }
    }
  }

  function MergeFrom(stat: Stat, fs: seq<bytes>, j: nat): (k: Option<nat>)
    requires 1 <= j <= |fs|
    ensures k.Some? ==> 1 < k.value <= |fs|
    decreases |fs| - j
  {
    if j == |fs| || fs[j] == [] then None
    else
      var merged := JoinWith(COLON, fs[..j + 1]);
      if |merged| > MAX_ROOT_LENGTH then None
      else match stat(merged)
        case Found => None
        case Failed => Some(j + 1)
        case Missing => MergeFrom(stat, fs, j + 1)
  }

  /** How many leading fields coalesce into one, once the first alone is missing. */
  function MergeLength(stat: Stat, fs: seq<bytes>): Option<nat>
    requires fs != []
  {
    MergeFrom(stat, fs, 1)
  }

  /** The fields after coalescing. */
  function Coalesced(stat: Stat, fs: seq<bytes>): seq<bytes>
    decreases |fs|
  {
    if fs == [] then []
    else if fs[0] == [] || stat(fs[0]) != Missing then [fs[0]] + Coalesced(stat, fs[1..])
    else match MergeLength(stat, fs)
      case None => [fs[0]] + Coalesced(stat, fs[1..])
      case Some(k) => [JoinWith(COLON, fs[..k])] + Coalesced(stat, fs[k..])
  }

  /** How many fields the first component takes. */
  function HeadLength(stat: Stat, fs: seq<bytes>): (k: nat)
    requires fs != []
    ensures 1 <= k <= |fs|
  {
    if fs[0] == [] || stat(fs[0]) != Missing then 1
    else match MergeLength(stat, fs)
      case None => 1
      case Some(k) => k
  }

  lemma {:induction false} CoalescedHead(stat: Stat, fs: seq<bytes>)
    requires fs != []
    ensures var k := HeadLength(stat, fs);
      Coalesced(stat, fs) == [JoinWith(COLON, fs[..k])] + Coalesced(stat, fs[k..])
  {
    hide MergeLength;
    assert fs[..1] == [fs[0]];
  }

  /** The merge condition in full: all shorter joins are missing, this one fails to be looked up. */
  predicate Merges(stat: Stat, fs: seq<bytes>, k: nat) {
    && 1 < k <= |fs|
    && (forall i :: 1 <= i < k ==> fs[i] != [])
    && (forall i :: 1 < i <= k ==> |JoinWith(COLON, fs[..i])| <= MAX_ROOT_LENGTH)
    && (forall i :: 1 < i < k ==> stat(JoinWith(COLON, fs[..i])) == Missing)
    && stat(JoinWith(COLON, fs[..k])) == Failed
  }

  lemma {:induction false} MergeFromExactly(stat: Stat, fs: seq<bytes>, j: nat, k: nat)
    requires 1 <= j <= |fs|
    ensures MergeFrom(stat, fs, j) == Some(k) <==>
      && j < k <= |fs|
      && (forall i :: j <= i < k ==> fs[i] != [])
      && (forall i :: j < i <= k ==> |JoinWith(COLON, fs[..i])| <= MAX_ROOT_LENGTH)
      && (forall i :: j < i < k ==> stat(JoinWith(COLON, fs[..i])) == Missing)
      && stat(JoinWith(COLON, fs[..k])) == Failed
    decreases |fs| - j
  {
    if j < |fs| {
      MergeFromExactly(stat, fs, j + 1, k);
    }
  }

  lemma MergeExactly(stat: Stat, fs: seq<bytes>, k: nat)
    requires fs != []
    ensures MergeLength(stat, fs) == Some(k) <==> Merges(stat, fs, k)
  {
    MergeFromExactly(stat, fs, 1, k);
  }

  /** The first component takes in a further field only if its own is missing, and then those of a merge. */
  lemma HeadExactly(stat: Stat, fs: seq<bytes>, k: nat)
    requires fs != [] && k > 1
    ensures HeadLength(stat, fs) == k <==> fs[0] != [] && stat(fs[0]) == Missing && Merges(stat, fs, k)
  {
    MergeExactly(stat, fs, k);
    hide MergeLength, Merges;
  }

  /** The bytes charged for the first k fields, each with its terminator. */
  function Charged(fs: seq<bytes>, k: nat): nat
    requires k <= |fs|
  {
    if k == 0 then 0 else Charged(fs, k - 1) + |fs[k - 1]| + 1
  }

  /** What is charged is the length of PATH up to there, with its colon or terminator. */
  lemma {:induction false} ChargedMeans(fs: seq<bytes>, k: nat)
    requires 0 < k <= |fs|
    ensures Charged(fs, k) == |JoinWith(COLON, fs[..k])| + 1
  {
    if k == 1 {
      assert fs[..1] == [fs[0]] && Charged(fs, 0) == 0;
    } else {
      ChargedMeans(fs, k - 1);
      assert fs[..k] == fs[..k - 1] + [fs[k - 1]];
      JoinWithOfConcat(COLON, fs[..k - 1], [fs[k - 1]]);
    }
  }

  /** The limit that field k is the one to exceed, its own length before the bytes so far. */
  function FieldFault(fs: seq<bytes>, k: nat): Option<Reason>
    requires k < |fs|
  {
    if |fs[k]| > MAX_ROOT_LENGTH then Some(RootLengthLimit)
    else if Charged(fs, k + 1) > MAX_ROOT_BYTES then Some(RootBytesLimit)
    else None
  }

  predicate FaultlessTo(fs: seq<bytes>, n: nat) {
    n <= |fs| && forall k: nat :: k < n ==> FieldFault(fs, k) == None
  }

  /** Field k is the first at fault. */
  predicate FirstFault(fs: seq<bytes>, k: nat, reason: Reason) {
    k < |fs| && FaultlessTo(fs, k) && FieldFault(fs, k) == Some(reason)
  }

  /** The fields before offset start are within the limits, and start is what they are charged. */
  predicate WithinLimits(fs: seq<bytes>, index: nat, start: nat) {
    FaultlessTo(fs, index) && Charged(fs, index) == start
  }

  lemma NothingCharged(fs: seq<bytes>)
    ensures WithinLimits(fs, 0, 0)
  {
  }

  lemma WithinAll(fs: seq<bytes>, start: nat)
    requires WithinLimits(fs, |fs|, start)
    ensures FaultlessTo(fs, |fs|)
  {
  }

  lemma OneMoreWithin(fs: seq<bytes>, index: nat, start: nat)
    requires WithinLimits(fs, index, start) && index < |fs|
    ensures FieldFault(fs, index) == None ==> WithinLimits(fs, index + 1, start + |fs[index]| + 1)
    ensures |fs[index]| > MAX_ROOT_LENGTH ==> FirstFault(fs, index, RootLengthLimit)
    ensures |fs[index]| <= MAX_ROOT_LENGTH && start + |fs[index]| + 1 > MAX_ROOT_BYTES ==>
      FirstFault(fs, index, RootBytesLimit)
    ensures |fs[index]| <= MAX_ROOT_LENGTH && start + |fs[index]| + 1 <= MAX_ROOT_BYTES ==>
      FieldFault(fs, index) == None
  {
  }

  /** No lookup result makes coalescing change the value: the components still spell PATH. */
  lemma {:induction false} CoalescedJoins(stat: Stat, fs: seq<bytes>)
    ensures fs != [] ==> Coalesced(stat, fs) != []
    ensures JoinWith(COLON, Coalesced(stat, fs)) == JoinWith(COLON, fs)
    decreases |fs|
  {
    if fs != [] {
      var k := HeadLength(stat, fs);
      CoalescedHead(stat, fs);
      CoalescedJoins(stat, fs[k..]);
      var head := JoinWith(COLON, fs[..k]);
      assert fs == fs[..k] + fs[k..];
      if fs[k..] != [] {
        JoinWithOfConcat(COLON, fs[..k], fs[k..]);
        JoinWithOfConcat(COLON, [head], Coalesced(stat, fs[k..]));
      } else {
        assert fs[..k] == fs && [head] + [] == [head];
      }
    }
  }

  /** The components pathaudit works on spell the PATH it was given. */
  lemma {:induction false} ComponentsSpellPath(stat: Stat, env: bytes)
    ensures JoinWith(COLON, Coalesced(stat, Split(env))) == env
  {
    CoalescedJoins(stat, Split(env));
    SplitJoins(env);
  }

  lemma MergedNonempty(stat: Stat, fs: seq<bytes>)
    requires fs != []
    ensures var k := HeadLength(stat, fs);
      multiset(fs[..k])[[]] == if JoinWith(COLON, fs[..k]) == [] then 1 else 0
  {
    hide MergeLength;
    var k := HeadLength(stat, fs);
    if k == 1 {
      assert fs[..k] == [fs[0]];
    } else {
      MergeExactly(stat, fs, k);
      JoinWithOfConcat(COLON, [fs[0]], fs[1..k]);
      assert fs[..k] == [fs[0]] + fs[1..k];
      assert [] !in fs[..k];
    }
  }

  /** Empty fields stay as they are: no merged component has one inside. */
  lemma {:induction false} EmptyFieldsKept(stat: Stat, fs: seq<bytes>)
    ensures multiset(Coalesced(stat, fs))[[]] == multiset(fs)[[]]
    decreases |fs|
  {
    if fs != [] {
      var k := HeadLength(stat, fs);
      CoalescedHead(stat, fs);
      EmptyFieldsKept(stat, fs[k..]);
      MergedNonempty(stat, fs);
      hide JoinWith, HeadLength, Coalesced;
      assert fs == fs[..k] + fs[k..];
      assert multiset(fs) == multiset(fs[..k]) + multiset(fs[k..]);
    }
  }

  /** Roots that lie side by side in env, from offset a to just before offset b. */
  predicate Tiles(env: bytes, rs: seq<Root>, a: nat, b: nat) {
    && (rs == [] ==> a == b)
    && (rs != [] ==> rs[0].text == a && End(rs[|rs| - 1]) + 1 == b)
    && (forall k :: 0 <= k < |rs| ==> End(rs[k]) <= |env| && (End(rs[k]) < |env| ==> env[End(rs[k])] == COLON))
    && (forall k :: 0 < k < |rs| ==> rs[k].text == End(rs[k - 1]) + 1)
  }

  predicate InEnv(env: bytes, rs: seq<Root>) {
    forall k :: 0 <= k < |rs| ==> End(rs[k]) <= |env|
  }

  function Text(env: bytes, r: Root): bytes
    requires End(r) <= |env|
  {
    env[r.text..End(r)]
  }

  function Texts(env: bytes, rs: seq<Root>): (ts: seq<bytes>)
    requires InEnv(env, rs)
    ensures |ts| == |rs|
  {
    seq(|rs|, k requires 0 <= k < |rs| => Text(env, rs[k]))
  }

  /** Roots side by side, joined again, are the stretch of env they lie in. */
  lemma {:induction false} JoinOfTiles(env: bytes, rs: seq<Root>, a: nat, b: nat)
    requires rs != [] && Tiles(env, rs, a, b)
    ensures a < b <= |env| + 1 && JoinWith(COLON, Texts(env, rs)) == env[a..b - 1]
    decreases |rs|
  {
    var n := |rs| - 1;
    var m := rs[n].text;
    if n > 0 {
      assert Tiles(env, rs[..n], a, m) && env[m - 1] == COLON;
      JoinOfTiles(env, rs[..n], a, m);
      assert Texts(env, rs) == Texts(env, rs[..n]) + [Text(env, rs[n])];
      JoinOneMore(Texts(env, rs[..n]), Text(env, rs[n]));
      hide Tiles, Texts, JoinWith;
      assert env[a..b - 1] == env[a..m - 1] + [COLON] + env[m..b - 1];
    }
  }

  /** What the storage must hold for a root to be a C string of its recorded length. */
  predicate Intact(storage: seq<byte>, env: bytes, r: Root) {
    && End(r) <= |env| && End(r) < |storage|
    && storage[End(r)] == NUL && storage[r.text..End(r)] == Text(env, r)
  }

  lemma {:induction false} CStringOf(s: bytes, t: seq<byte>)
    requires NulFree(s) && t != [] && t[0] == NUL
    ensures CString(s + t) == s
  {
    if s == [] {
      assert s + t == t;
    } else {
      assert (s + t)[1..] == s[1..] + t;
      assert s[0] in s;
      CStringOf(s[1..], t);
    }
  }

  lemma IntactIsCString(storage: seq<byte>, env: bytes, r: Root)
    requires Intact(storage, env, r) && NulFree(env)
    ensures CString(storage[r.text..]) == Text(env, r)
  {
    assert storage[r.text..] == Text(env, r) + storage[End(r)..];
    CStringOf(Text(env, r), storage[End(r)..]);
  }

  /** Where root i starts, or the end when there is none. */
  function At(env: bytes, rs: seq<Root>, i: nat): nat
    requires i <= |rs|
  {
    if i < |rs| then rs[i].text else |env| + 1
  }

  lemma StartOfTiles(env: bytes, rs: seq<Root>)
    requires Tiles(env, rs, 0, |env| + 1)
    ensures Tiles(env, [], 0, At(env, rs, 0)) && InEnv(env, rs) && InEnv(env, [])
    ensures Texts(env, []) == []
  {
  }

  lemma TextsSlice(env: bytes, rs: seq<Root>, i: nat, k: nat)
    requires InEnv(env, rs) && i < k <= |rs|
    ensures InEnv(env, rs[i..k]) && InEnv(env, rs[i..]) && Texts(env, rs[i..])[..k - i] == Texts(env, rs[i..k])
    ensures InEnv(env, rs[k..]) && Texts(env, rs[i..])[k - i..] == Texts(env, rs[k..])
  {
  }

  lemma TilesSlice(env: bytes, rs: seq<Root>, i: nat, k: nat)
    requires Tiles(env, rs, 0, |env| + 1) && i < k <= |rs|
    ensures Tiles(env, rs[i..k], rs[i].text, At(env, rs, k)) && At(env, rs, k) == End(rs[k - 1]) + 1
    ensures At(env, rs, k) <= |env| + 1 && (At(env, rs, k) <= |env| ==> env[At(env, rs, k) - 1] == COLON)
    ensures InEnv(env, rs[i..k]) && InEnv(env, rs[i..]) && Texts(env, rs[i..])[..k - i] == Texts(env, rs[i..k])
    ensures InEnv(env, rs[k..]) && Texts(env, rs[i..])[k - i..] == Texts(env, rs[k..])
  {
    assert InEnv(env, rs);
    TextsSlice(env, rs, i, k);
    hide Texts, InEnv;
  }

  lemma TilesOneMore(env: bytes, rs: seq<Root>, r: Root, a: nat, b: nat)
    requires Tiles(env, rs, a, b) && r.text == b && End(r) <= |env| && (End(r) < |env| ==> env[End(r)] == COLON)
    requires InEnv(env, rs)
    ensures Tiles(env, rs + [r], a, End(r) + 1) && InEnv(env, rs + [r])
    ensures Texts(env, rs + [r]) == Texts(env, rs) + [Text(env, r)]
  {
  }

  /** What the loop of coalesce_inspection_path_fragments has achieved before field i. */
  ghost predicate Progress(stat: Stat, env: bytes, orig: seq<Root>, i: nat, done: seq<Root>, all: seq<bytes>)
    requires i <= |orig|
  {
    && Tiles(env, orig, 0, |env| + 1) && InEnv(env, orig[i..])
    && Tiles(env, done, 0, At(env, orig, i)) && InEnv(env, done)
    && Texts(env, done) + Coalesced(stat, Texts(env, orig[i..])) == all
  }

  /** One turn of the loop: the fields from i up to next become the component r. */
  lemma CoalesceStep(stat: Stat, env: bytes, orig: seq<Root>, done: seq<Root>, i: nat, next: nat, r: Root,
                     all: seq<bytes>)
    requires Tiles(env, orig, 0, |env| + 1) && i < next <= |orig| && InEnv(env, orig[i..])
    requires Tiles(env, done, 0, At(env, orig, i)) && InEnv(env, done)
    requires next - i == HeadLength(stat, Texts(env, orig[i..]))
    requires r.text == orig[i].text && End(r) + 1 == At(env, orig, next)
    requires Texts(env, done) + Coalesced(stat, Texts(env, orig[i..])) == all
    ensures Tiles(env, done + [r], 0, At(env, orig, next)) && InEnv(env, done + [r]) && InEnv(env, orig[next..])
    ensures Texts(env, done + [r]) + Coalesced(stat, Texts(env, orig[next..])) == all
    ensures Progress(stat, env, orig, next, done + [r], all)
  {
    hide Tiles, Texts, Coalesced, HeadLength, JoinWith, InEnv;
    TilesSlice(env, orig, i, next);
    TilesOneMore(env, done, r, 0, At(env, orig, i));
    CoalescedHead(stat, Texts(env, orig[i..]));
    JoinOfTiles(env, orig[i..next], orig[i].text, At(env, orig, next));
  }

  lemma DoneIsBefore(env: bytes, rs: seq<Root>, b: nat, k: nat)
    requires Tiles(env, rs, 0, b) && k < |rs|
    ensures End(rs[k]) < b
    decreases |rs| - k
  {
    if k + 1 < |rs| {
      DoneIsBefore(env, rs, b, k + 1);
    }
  }

  lemma {:induction false} TilesOrder(env: bytes, rs: seq<Root>, i: nat, k: nat)
    requires Tiles(env, rs, 0, |env| + 1) && i < k < |rs|
    ensures End(rs[i]) < rs[k].text <= |env| && env[End(rs[i])] == COLON
    ensures k == i + 1 ==> rs[k].text == End(rs[i]) + 1
    decreases k
  {
    if i + 1 < k {
      TilesOrder(env, rs, i, k - 1);
    }
  }

  /** A root is intact while nothing up to its terminator changes. */
  lemma StaysIntact(before: seq<byte>, after: seq<byte>, env: bytes, r: Root)
    requires Intact(before, env, r) && |after| == |before|
    requires forall p :: r.text <= p <= End(r) ==> before[p] == after[p]
    ensures Intact(after, env, r)
  {
    assert before[r.text..End(r)] == after[r.text..End(r)];
  }

  /** Every root is terminated at its recorded length and carries its own position. */
  predicate AllIntact(storage: seq<byte>, env: bytes, rs: seq<Root>) {
    forall k :: 0 <= k < |rs| ==> Intact(storage, env, rs[k]) && rs[k].index == k
  }

  lemma NoneIntact(storage: seq<byte>, env: bytes)
    ensures AllIntact(storage, env, [])
  {
  }

  lemma EachIntact(storage: seq<byte>, env: bytes, rs: seq<Root>)
    requires AllIntact(storage, env, rs)
    ensures forall k :: 0 <= k < |rs| ==> Intact(storage, env, rs[k])
  {
  }

  lemma OneMoreIntact(storage: seq<byte>, env: bytes, rs: seq<Root>, r: Root)
    requires AllIntact(storage, env, rs) && Intact(storage, env, r)
    ensures AllIntact(storage, env, rs + [Root(r.text, |rs|, r.len)])
  {
  }

  lemma IntactEnds(storage: seq<byte>, env: bytes, r: Root)
    requires Intact(storage, env, r)
    ensures End(r) < |storage| && End(r) <= |env| && storage[End(r)] == NUL
  {
  }

  /** Writing a colon over the terminator of r joins the root after it to r. */
  lemma ExtendIntact(before: seq<byte>, env: bytes, r: Root, q: Root)
    requires Intact(before, env, r) && Intact(before, env, q) && q.text == End(r) + 1 && env[End(r)] == COLON
    ensures Intact(before[End(r) := COLON], env, r.(len := End(q) - r.text))
  {
    var after := before[End(r) := COLON];
    var m := r.(len := End(q) - r.text);
    assert after[r.text..End(r)] == before[r.text..End(r)] && after[q.text..End(q)] == before[q.text..End(q)];
    assert after[m.text..End(m)] == after[r.text..End(r)] + [COLON] + after[q.text..End(q)];
    assert Text(env, m) == Text(env, r) + [COLON] + Text(env, q);
  }

  lemma NothingLeft(stat: Stat)
    ensures Coalesced(stat, []) == []
  {
  }

  lemma NthText(env: bytes, orig: seq<Root>, i: nat, j: nat)
    requires i <= j < |orig| && InEnv(env, orig[i..])
    ensures End(orig[j]) <= |env| && Texts(env, orig[i..])[j - i] == Text(env, orig[j])
  {
    assert orig[i..][j - i] == orig[j];
  }

  /** The fields from i to j joined are the stretch of env they span. */
  lemma JoinSpan(env: bytes, orig: seq<Root>, i: nat, j: nat)
    requires Tiles(env, orig, 0, |env| + 1) && i < j < |orig| && InEnv(env, orig[i..])
    ensures orig[i].text <= End(orig[j]) <= |env| && Texts(env, orig[i..])[j - i] == Text(env, orig[j])
    ensures JoinWith(COLON, Texts(env, orig[i..])[..j - i + 1]) == env[orig[i].text..End(orig[j])]
  {
    hide Tiles, Texts, JoinWith, InEnv;
    TilesSlice(env, orig, i, j + 1);
    JoinOfTiles(env, orig[i..j + 1], orig[i].text, At(env, orig, j + 1));
    NthText(env, orig, i, j);
  }

  /** Separators lie between the fields they separate. */
  lemma SeparatorsInside(env: bytes, orig: seq<Root>, i: nat)
    requires Tiles(env, orig, 0, |env| + 1) && i < |orig|
    ensures forall k :: i < k < |orig| ==> orig[i].text < orig[k].text <= |env|
  {
    hide Tiles;
    forall k | i < k < |orig|
      ensures orig[i].text < orig[k].text <= |env|
    {
      TilesOrder(env, orig, i, k);
    }
  }

  predicate Separator(orig: seq<Root>, i: nat, last: nat, p: nat)
    requires last < |orig|
  {
    exists k :: i < k <= last && p + 1 == orig[k].text
  }

  lemma NoSeparatorBefore(orig: seq<Root>, i: nat, last: nat)
    requires i <= last < |orig| && forall k :: i < k < |orig| ==> orig[i].text < orig[k].text
    ensures forall p: nat :: p < orig[i].text ==> !Separator(orig, i, last, p)
  {
  }

  lemma NoSeparators(orig: seq<Root>, i: nat)
    requires i < |orig|
    ensures forall p: nat :: !Separator(orig, i, i, p)
  {
  }

  lemma {:induction false} MergeEnds(stat: Stat, fs: seq<bytes>, j: nat)
    requires 1 <= j <= |fs|
    ensures j == |fs| ==> MergeFrom(stat, fs, j) == None
  {
  }

  lemma DoneStaysIntact(before: seq<byte>, after: seq<byte>, env: bytes, done: seq<Root>, b: nat)
    requires Tiles(env, done, 0, b) && |before| == |after|
    requires forall p :: 0 <= p < b && p < |after| ==> after[p] == before[p]
    requires AllIntact(before, env, done)
    ensures AllIntact(after, env, done)
  {
    hide Tiles, Intact;
    forall k | 0 <= k < |done|
      ensures Intact(after, env, done[k])
    {
      DoneIsBefore(env, done, b, k);
      IntactEnds(before, env, done[k]);
      StaysIntact(before, after, env, done[k]);
    }
  }

  /** The scan has stored the fields that end before `start` and is at offset p of the next one. */
  ghost predicate ScannedTo(env: bytes, done: seq<Root>, start: nat, p: nat) {
    && start <= p <= |env|
    && Tiles(env, done, 0, start) && InEnv(env, done)
    && Split(env[..p]) == Texts(env, done) + [env[start..p]]
    && forall f | f in Texts(env, done) :: |f| <= MAX_ROOT_LENGTH
  }

  lemma ScanStarts(env: bytes)
    ensures ScannedTo(env, [], 0, 0)
  {
    assert env[..0] == [] && Texts(env, []) == [];
  }

  lemma ScanByte(env: bytes, done: seq<Root>, start: nat, p: nat)
    requires ScannedTo(env, done, start, p) && p < |env| && env[p] != COLON
    ensures ScannedTo(env, done, start, p + 1)
  {
    hide Tiles, InEnv, Texts;
    assert env[..p + 1][..p] == env[..p] && env[start..p] + [env[p]] == env[start..p + 1];
  }

  /** A field closed by a colon is final. */
  lemma {:induction false} FieldStays(s: bytes, p: nat, k: nat)
    requires p <= |s| && k + 1 < |Split(s[..p])|
    ensures k + 1 < |Split(s)| && Split(s)[k] == Split(s[..p])[k]
    decreases |s| - p
  {
    if p == |s| {
      assert s[..p] == s;
    } else {
      assert s[..p + 1][..p] == s[..p];
      FieldStays(s, p + 1, k);
    }
  }

  /** The field that ends at p is one of the fields of PATH. */
  lemma {:induction false} FieldIsInSplit(env: bytes, done: seq<Root>, start: nat, p: nat)
    requires ScannedTo(env, done, start, p) && (p == |env| || env[p] == COLON)
    ensures |done| < |Split(env)| && Split(env)[|done|] == env[start..p]
    ensures if p < |env| then |done| + 1 < |Split(env)| else |done| + 1 == |Split(env)|
  {
    hide Tiles, InEnv, Texts;
    var fs := Split(env[..p]);
    assert fs[|done|] == env[start..p];
    if p == |env| {
      assert env[..p] == env;
    } else {
      assert env[..p + 1][..p] == env[..p];
      FieldStays(env, p + 1, |done|);
    }
  }

  lemma SplitAtColon(env: bytes, p: nat)
    requires p < |env| && env[p] == COLON
    ensures Split(env[..p + 1]) == Split(env[..p]) + [[]]
  {
    assert env[..p + 1][..p] == env[..p];
  }

  /** Storing the field that ends at p. */
  lemma {:induction false} ScanField(env: bytes, done: seq<Root>, start: nat, p: nat)
    requires ScannedTo(env, done, start, p) && (p == |env| || env[p] == COLON) && p - start <= MAX_ROOT_LENGTH
    ensures var rs := done + [Root(start, |done|, p - start)];
      && (p < |env| ==> ScannedTo(env, rs, p + 1, p + 1))
      && (p == |env| ==> Tiles(env, rs, 0, |env| + 1) && InEnv(env, rs) && Texts(env, rs) == Split(env))
      && (p == |env| ==> forall f | f in Split(env) :: |f| <= MAX_ROOT_LENGTH)
  {
    hide Tiles, InEnv, Texts, Split;
    var r := Root(start, |done|, p - start);
    TilesOneMore(env, done, r, 0, start);
    assert Texts(env, done + [r]) == Split(env[..p]) && Text(env, r) == env[start..p];
    if p < |env| {
      SplitAtColon(env, p);
      assert env[p + 1..p + 1] == [];
    } else {
      assert env[..p] == env;
    }
  }

  lemma KeepIntact(before: seq<byte>, after: seq<byte>, env: bytes, done: seq<Root>, start: nat, p: nat)
    requires start <= p <= |env| && Tiles(env, done, 0, start) && |before| == |after| == |env| + 1
    requires AllIntact(before, env, done) && after == before[p := NUL]
    requires forall q :: start <= q <= |env| ==> before[q] == (env + [NUL])[q]
    ensures AllIntact(after, env, done + [Root(start, |done|, p - start)])
  {
    DoneStaysIntact(before, after, env, done, start);
    var r := Root(start, |done|, p - start);
    assert Intact(after, env, r) by {
      assert after[start..p] == env[start..p];
    }
    OneMoreIntact(after, env, done, r);
  }

  lemma {:induction false} ProgressStarts(stat: Stat, env: bytes, orig: seq<Root>, fs: seq<bytes>)
    requires Tiles(env, orig, 0, |env| + 1) && InEnv(env, orig) && Texts(env, orig) == fs
    ensures Progress(stat, env, orig, 0, [], Coalesced(stat, fs))
  {
    hide Coalesced;
    StartOfTiles(env, orig);
    assert [] + Coalesced(stat, fs) == Coalesced(stat, fs) && orig[0..] == orig;
  }

  lemma ProgressMeans(stat: Stat, env: bytes, orig: seq<Root>, i: nat, done: seq<Root>, all: seq<bytes>)
    requires i <= |orig| && Progress(stat, env, orig, i, done, all)
    ensures Tiles(env, orig, 0, |env| + 1) && InEnv(env, orig[i..])
    ensures Tiles(env, done, 0, At(env, orig, i)) && InEnv(env, done)
    ensures Texts(env, done) + Coalesced(stat, Texts(env, orig[i..])) == all
  {
  }

  lemma ProgressEnds(stat: Stat, env: bytes, orig: seq<Root>, done: seq<Root>, all: seq<bytes>)
    requires Progress(stat, env, orig, |orig|, done, all)
    ensures Tiles(env, done, 0, |env| + 1) && InEnv(env, done) && Texts(env, done) == all
  {
    assert orig[|orig|..] == [] && Texts(env, []) == [];
    NothingLeft(stat);
  }

  class PathComponents {
    var storage: array<byte>
    var roots: array<Root>
    var count: nat

    /** The components hold these texts, in order, each terminated, indexed from 0. */
    ghost predicate Holds(env: bytes, texts: seq<bytes>)
      reads this, storage, roots
    {
      && count <= roots.Length && storage.Length == |env| + 1
      && Tiles(env, roots[..count], 0, |env| + 1) && InEnv(env, roots[..count])
      && Texts(env, roots[..count]) == texts
      && AllIntact(storage[..], env, roots[..count])
    }

    constructor ()
      ensures count == 0 && fresh(storage) && fresh(roots)
    {
      storage, roots, count := new byte[0], new Root[0], 0;
    }

    /** Lines 1096-1106: one more field than colons, within the limit. */
    static method CountFields(env: bytes) returns (n: Option<nat>)
      ensures n == if |Split(env)| <= MAX_ROOT_COUNT then Some(|Split(env)|) else None
    {
      var rootCount := 1;
      assert env[..0] == [];
      for p := 0 to |env|
        invariant rootCount == |Split(env[..p])| <= MAX_ROOT_COUNT
      {
        assert env[..p + 1][..p] == env[..p];
        if env[p] == COLON {
          if rootCount >= MAX_ROOT_COUNT {
            MoreFields(env, p + 1);
            return None;
          }
          rootCount := rootCount + 1;
        }
      }
      assert env[..|env|] == env;
      return Some(rootCount);
    }

    /** Lines 1128-1179: every colon becomes a terminator, every field a root. */
    method SplitStorage(env: bytes, rootCount: nat) returns (refused: Option<Reason>)
      requires NulFree(env) && rootCount == |Split(env)| == roots.Length && storage.Length == |env| + 1
      requires storage[..] == env + [NUL]
      modifies storage, roots
      ensures refused.None? ==> Tiles(env, roots[..], 0, |env| + 1) && InEnv(env, roots[..])
      ensures refused.None? ==> Texts(env, roots[..]) == Split(env) && AllIntact(storage[..], env, roots[..])
      ensures refused.None? ==> |env| + 1 <= MAX_ROOT_BYTES && forall f | f in Split(env) :: |f| <= MAX_ROOT_LENGTH
      ensures refused.None? ==> FaultlessTo(Split(env), |Split(env)|)
      ensures refused == Some(RootLengthLimit) ==> exists f | f in Split(env) :: |f| > MAX_ROOT_LENGTH
      ensures refused == Some(RootBytesLimit) ==> |env| + 1 > MAX_ROOT_BYTES
      ensures refused.Some? ==> refused.value == RootLengthLimit || refused.value == RootBytesLimit
      ensures refused.Some? ==> exists k: nat :: FirstFault(Split(env), k, refused.value)
    {
      hide Tiles, InEnv, Texts, AllIntact, Intact, Split, FirstFault, FieldFault, Charged;
      assert WithinLimits(Split(env), 0, 0) by { NothingCharged(Split(env)); }
      hide WithinLimits, FaultlessTo;
      var totalBytes, index, start, p := 0, 0, 0, 0;
      assert ScannedTo(env, [], 0, 0) && roots[..0] == [] by { ScanStarts(env); }
      NoneIntact(storage[..], env);
      while true
        invariant start <= p <= |env| && index < rootCount && totalBytes == start <= MAX_ROOT_BYTES
        invariant ScannedTo(env, roots[..index], start, p)
        invariant WithinLimits(Split(env), index, start)
        invariant AllIntact(storage[..], env, roots[..index])
        invariant forall q :: start <= q <= |env| ==> storage[q] == (env + [NUL])[q]
        decreases |env| - p
      {
        if storage[p] != COLON && storage[p] != NUL {
          ScanByte(env, roots[..index], start, p);
          p := p + 1;
          continue;
        }
        var atEnd := storage[p] == NUL;
        assert atEnd <==> p == |env|;
        ghost var before, done := storage[..], roots[..index];
        var len := p - start;
        storage[p] := NUL;
        FieldIsInSplit(env, done, start, p);
        OneMoreWithin(Split(env), index, start);
        if len > MAX_ROOT_LENGTH {
          return Some(RootLengthLimit);
        }
        totalBytes := totalBytes + len + 1;
        if totalBytes > MAX_ROOT_BYTES {
          return Some(RootBytesLimit);
        }
        roots[index] := Root(start, index, len);
        assert roots[..index + 1] == done + [Root(start, index, len)];
        ScanField(env, done, start, p);
        KeepIntact(before, storage[..], env, done, start, p);
        index := index + 1;
        if atEnd {
          assert roots[..index] == roots[..];
          WithinAll(Split(env), start + len + 1);
          return None;
        }
        start := p + 1;
        p := p + 1;
      }
    }

    /** roots[i] spans the fields from i to last, and the later fields are as they were. */
    ghost predicate Spans(i: nat, n: nat, last: nat, env: bytes, orig: seq<Root>)
      reads storage, roots, this
    {
      && i <= last < n == |orig| <= roots.Length && storage.Length == |env| + 1
      && roots[i].text == orig[i].text && roots[i].index == orig[i].index && End(roots[i]) == End(orig[last])
      && (forall k :: i < k < n ==> roots[k] == orig[k])
      && Intact(storage[..], env, roots[i])
      && (forall k :: last < k < n ==> Intact(storage[..], env, orig[k]))
    }

    /** Only the separators between the fields from i to last have changed, from NUL. */
    ghost predicate Undoable(i: nat, last: nat, orig: seq<Root>, before: seq<byte>)
      reads storage, this
    {
      && i <= last < |orig| && |before| == storage.Length
      && (forall p :: 0 <= p < |before| && !Separator(orig, i, last, p) ==> storage[p] == before[p])
      && (forall p :: 0 <= p < |before| && Separator(orig, i, last, p) ==> before[p] == NUL)
      && (forall k :: i < k <= last ==> orig[k].len != 0)
    }

    /** Lines 788-797: put the separator before field j back. */
    method Extend(i: nat, n: nat, j: nat, mergedLen: nat, ghost env: bytes, ghost orig: seq<Root>,
                  ghost before: seq<byte>)
      requires i < j < n && Spans(i, n, j - 1, env, orig) && Undoable(i, j - 1, orig, before)
      requires Tiles(env, orig, 0, |env| + 1) && orig[j].len != 0 && mergedLen == End(orig[j]) - orig[i].text
      modifies storage, roots
      ensures Spans(i, n, j, env, orig) && Undoable(i, j, orig, before)
      ensures forall k :: 0 <= k < roots.Length && k != i ==> roots[k] == old(roots[k])
    {
      hide Intact, Tiles;
      var sep := roots[j].text - 1;
      TilesOrder(env, orig, j - 1, j);
      ghost var r, was := roots[i], storage[..];
      ExtendIntact(was, env, r, orig[j]);
      assert was[sep] == NUL by { IntactEnds(was, env, r); }
      assert Separator(orig, i, j, sep);
      storage[sep] := COLON;
      ghost var after := was[sep := COLON];
      assert storage[..] == after;
      roots[i] := roots[i].(len := mergedLen);
      forall k | j < k < n
        ensures Intact(storage[..], env, orig[k])
      {
        TilesOrder(env, orig, j, k);
        IntactEnds(was, env, orig[k]);
        StaysIntact(was, after, env, orig[k]);
      }
    }

    /** Lines 778-808: whether to take field j in, and what the lookup of the longer path says. */
    method Consider(i: nat, n: nat, j: nat, stat: Stat, ghost env: bytes, ghost orig: seq<Root>,
                    ghost before: seq<byte>)
      returns (verdict: Verdict, last: nat)
      requires NulFree(env) && i < j < n && Spans(i, n, j - 1, env, orig) && Undoable(i, j - 1, orig, before)
      requires Tiles(env, orig, 0, |env| + 1) && InEnv(env, orig[i..])
      modifies storage, roots
      ensures j - 1 <= last <= j && (verdict != Refused ==> last == j)
      ensures Spans(i, n, last, env, orig) && Undoable(i, last, orig, before)
      ensures forall k :: 0 <= k < roots.Length && k != i ==> roots[k] == old(roots[k])
      ensures MergeFrom(stat, Texts(env, orig[i..]), j - i) == match verdict
        case Refused => None
        case Accepted => Some(j - i + 1)
        case Undecided => MergeFrom(stat, Texts(env, orig[i..]), j - i + 1)
    {
      hide Tiles, Intact, Texts, JoinWith, InEnv, Undoable;
      JoinSpan(env, orig, i, j);
      last := j - 1;
      if roots[j].len == 0 {
        return Refused, last;
      }
      var mergedLen := End(roots[j]) - roots[i].text;
      if mergedLen > MAX_ROOT_LENGTH {
        return Refused, last;
      }
      Extend(i, n, j, mergedLen, env, orig, before);
      last := j;
      IntactIsCString(storage[..], env, roots[i]);
      match stat(CString(storage[roots[i].text..]))
      case Found => verdict := Refused;
      case Failed => verdict := Accepted;
      case Missing => verdict := Undecided;
    }

    /** The loop over the later fields. */
    method ExtendWhileMissing(i: nat, n: nat, stat: Stat, ghost env: bytes, ghost orig: seq<Root>,
                              ghost before: seq<byte>)
      returns (last: nat, verdict: Verdict)
      requires NulFree(env) && Spans(i, n, i, env, orig) && Undoable(i, i, orig, before)
      requires Tiles(env, orig, 0, |env| + 1) && InEnv(env, orig[i..])
      modifies storage, roots
      ensures Spans(i, n, last, env, orig) && Undoable(i, last, orig, before)
      ensures forall k :: 0 <= k < roots.Length && k != i ==> roots[k] == old(roots[k])
      ensures MergeLength(stat, Texts(env, orig[i..])) == if verdict == Accepted then Some(last - i + 1) else None
    {
      hide Tiles, Intact, Texts, JoinWith, InEnv, MergeFrom, Undoable;
      ghost var fs := Texts(env, orig[i..]);
      var j := i + 1;
      last, verdict := i, Undecided;
      while j < n && verdict == Undecided
        invariant i < j <= n && (verdict == Undecided ==> last == j - 1)
        invariant Spans(i, n, last, env, orig) && Undoable(i, last, orig, before)
        invariant forall k :: 0 <= k < roots.Length && k != i ==> roots[k] == old(roots[k])
        invariant verdict == Undecided ==> MergeLength(stat, fs) == MergeFrom(stat, fs, j - i)
        invariant verdict == Accepted ==> MergeLength(stat, fs) == Some(last - i + 1)
        invariant verdict == Refused ==> MergeLength(stat, fs) == None
        decreases n - j, verdict == Undecided
      {
        verdict, last := Consider(i, n, j, stat, env, orig, before);
        if verdict == Undecided {
          j := j + 1;
        }
      }
      MergeEnds(stat, fs, j - i);
    }

    /** Lines 811-822: take the separators out again. */
    method Undo(i: nat, last: nat, origLen: nat, ghost orig: seq<Root>, ghost before: seq<byte>)
      requires i <= last < |orig| <= roots.Length && Undoable(i, last, orig, before)
      requires forall k :: i < k <= last ==> roots[k] == orig[k] && 0 < orig[k].text <= storage.Length
      modifies storage, roots
      ensures storage[..] == before
      ensures forall k :: 0 <= k < roots.Length && k != i ==> roots[k] == old(roots[k])
      ensures roots[i] == old(roots[i]).(len := origLen)
    {
      var j := i + 1;
      while j <= last
        invariant i < j <= last + 1 && |before| == storage.Length && roots[..] == old(roots[..])
        invariant forall p :: 0 <= p < |before| && !Separator(orig, j - 1, last, p) ==> storage[p] == before[p]
      {
        if roots[j].len == 0 {
          break;
        }
        var sep := roots[j].text - 1;
        assert Separator(orig, i, last, sep);
        storage[sep] := NUL;
        forall p | 0 <= p < |before| && !Separator(orig, j, last, p)
          ensures storage[p] == before[p]
        {
          if Separator(orig, j - 1, last, p) {
            assert p == sep;
          }
        }
        j := j + 1;
      }
      roots[i] := roots[i].(len := origLen);
    }

    /** Lines 778-829. Refusing a merge undoes every trace of it. */
    method TryMerge(i: nat, n: nat, stat: Stat, ghost env: bytes, ghost orig: seq<Root>) returns (next: Option<nat>)
      requires NulFree(env) && i < n == |orig| <= roots.Length && storage.Length == |env| + 1
      requires Tiles(env, orig, 0, |env| + 1) && InEnv(env, orig[i..])
      requires forall k :: i <= k < n ==> roots[k] == orig[k] && Intact(storage[..], env, orig[k])
      modifies storage, roots
      ensures MergeLength(stat, Texts(env, orig[i..])) == if next.None? then None else Some(next.value - i)
      ensures next.None? ==> storage[..] == old(storage[..]) && roots[..] == old(roots[..])
      ensures next.Some? ==> i < next.value <= n
      ensures next.Some? ==> roots[i].text == orig[i].text && End(roots[i]) + 1 == At(env, orig, next.value)
      ensures next.Some? ==> Intact(storage[..], env, roots[i])
      ensures forall k :: 0 <= k < roots.Length && k != i ==> roots[k] == old(roots[k])
      ensures forall p :: 0 <= p < orig[i].text && p < storage.Length ==> storage[p] == old(storage[p])
      ensures next.Some? ==> forall k :: next.value <= k < n ==> Intact(storage[..], env, orig[k])
    {
      hide Tiles, Intact, Texts, JoinWith, InEnv, MergeFrom, Separator, MergeLength;
      ghost var fs, before := Texts(env, orig[i..]), storage[..];
      var origLen := roots[i].len;
      NoSeparators(orig, i);
      var last, verdict := ExtendWhileMissing(i, n, stat, env, orig, before);
      SeparatorsInside(env, orig, i);
      if verdict != Accepted {
        Undo(i, last, origLen, orig, before);
        assert roots[i] == old(roots[i]);
        return None;
      }
      NoSeparatorBefore(orig, i, last);
      TilesSlice(env, orig, i, last + 1);
      return Some(last + 1);
    }

    /** Lines 762-829 for one component: returns the field after it; roots[i] spans the component. */
    method TakeComponent(i: nat, n: nat, stat: Stat, ghost env: bytes, ghost orig: seq<Root>) returns (next: nat)
      requires NulFree(env) && i < n == |orig| <= roots.Length && storage.Length == |env| + 1
      requires Tiles(env, orig, 0, |env| + 1) && InEnv(env, orig[i..])
      requires forall k :: i <= k < n ==> roots[k] == orig[k] && Intact(storage[..], env, orig[k])
      modifies storage, roots
      ensures i < next <= n && next - i == HeadLength(stat, Texts(env, orig[i..]))
      ensures roots[i].text == orig[i].text && End(roots[i]) + 1 == At(env, orig, next)
      ensures forall k :: 0 <= k < roots.Length && k != i ==> roots[k] == old(roots[k])
      ensures forall p :: 0 <= p < orig[i].text && p < storage.Length ==> storage[p] == old(storage[p])
      ensures Intact(storage[..], env, roots[i])
      ensures forall k :: next <= k < n ==> Intact(storage[..], env, orig[k])
    {
      hide Tiles, Intact, MergeLength, Texts, JoinWith;
      TilesSlice(env, orig, i, i + 1);
      IntactIsCString(storage[..], env, orig[i]);
      NthText(env, orig, i, i);
      if roots[i].len == 0 || stat(CString(storage[roots[i].text..])) != Missing {
        return i + 1;
      }
      var merged := TryMerge(i, n, stat, env, orig);
      next := if merged.Some? then merged.value else i + 1;
      TilesSlice(env, orig, i, next);
    }

    /** coalesce_inspection_path_fragments. */
    method Coalesce(stat: Stat, ghost env: bytes, ghost fs: seq<bytes>)
      requires NulFree(env) && Holds(env, fs)
      modifies `count, storage, roots
      ensures Holds(env, Coalesced(stat, fs))
    {
      hide Coalesced, Tiles, Intact, HeadLength, Texts, Text, InEnv, Progress, AllIntact;
      ghost var orig := roots[..count];
      var n, out, i := count, 0, 0;
      assert roots[..0] == [];
      ProgressStarts(stat, env, orig, fs);
      NoneIntact(storage[..], env);
      assert AllIntact(storage[..], env, orig) && forall k :: 0 <= k < n ==> orig[k] == roots[k];
      EachIntact(storage[..], env, orig);
      while i < n
        invariant out <= i <= n == |orig| <= roots.Length && storage.Length == |env| + 1
        invariant Progress(stat, env, orig, i, roots[..out], Coalesced(stat, fs))
        invariant AllIntact(storage[..], env, roots[..out])
        invariant forall k :: i <= k < n ==> roots[k] == orig[k] && Intact(storage[..], env, orig[k])
        decreases n - i
      {
        ghost var before, done := storage[..], roots[..out];
        ProgressMeans(stat, env, orig, i, done, Coalesced(stat, fs));
        var next := TakeComponent(i, n, stat, env, orig);
        var r := Root(roots[i].text, out, roots[i].len);
        assert roots[..out] == done;
        CoalesceStep(stat, env, orig, done, i, next, r, Coalesced(stat, fs));
        ghost var after := storage[..];
        assert forall p :: 0 <= p < orig[i].text && p < |after| ==> after[p] == before[p];
        DoneStaysIntact(before, after, env, done, orig[i].text);
        OneMoreIntact(after, env, done, roots[i]);
        roots[out] := r;
        assert roots[..out + 1] == done + [r];
        out := out + 1;
        i := next;
      }
      count := out;
      ProgressEnds(stat, env, orig, roots[..out], Coalesced(stat, fs));
    }

    /** path_components_load; the flags say how the two allocations turn out. */
    method Load(pathEnv: Option<bytes>, stat: Stat, storageOk: bool, rootsOk: bool) returns (refused: Option<Reason>)
      requires pathEnv.Some? ==> NulFree(pathEnv.value)
      modifies this
      ensures refused.None? ==> pathEnv.Some? && fresh(storage) && fresh(roots)
      ensures refused.None? ==> Holds(pathEnv.value, Coalesced(stat, Split(pathEnv.value)))
      ensures refused.None? ==> |pathEnv.value| + 1 <= MAX_ROOT_BYTES
      ensures refused.None? ==> forall f | f in Split(pathEnv.value) :: |f| <= MAX_ROOT_LENGTH
      ensures refused == Some(PathUnset) <==> pathEnv.None?
      ensures refused == Some(RootCountLimit) <==> pathEnv.Some? && |Split(pathEnv.value)| > MAX_ROOT_COUNT
      ensures refused == Some(OutOfMemory) ==> !(storageOk && rootsOk)
      ensures refused == Some(RootLengthLimit) || refused == Some(RootBytesLimit) ==>
        pathEnv.Some? && exists k: nat :: FirstFault(Split(pathEnv.value), k, refused.value)
      ensures refused.None? ==> FaultlessTo(Split(pathEnv.value), |Split(pathEnv.value)|)
      ensures refused == Some(RootLengthLimit) ==> exists f | f in Split(pathEnv.value) :: |f| > MAX_ROOT_LENGTH
      ensures refused == Some(RootBytesLimit) ==> |pathEnv.value| + 1 > MAX_ROOT_BYTES
    {
      hide Coalesced, Split, Tiles, InEnv, Texts, AllIntact, FirstFault, FaultlessTo;
      count := 0;
      if pathEnv.None? {
        return Some(PathUnset);
      }
      var env := pathEnv.value;
      var counted := CountFields(env);
      if counted.None? {
        return Some(RootCountLimit);
      }
      var rootCount := counted.value;
      if !storageOk || !rootsOk {
        return Some(OutOfMemory);
      }
      storage := new byte[|env| + 1](q requires 0 <= q <= |env| => if q < |env| then env[q] else NUL);
      roots := new Root[rootCount](_ => Root(0, 0, 0));
      refused := SplitStorage(env, rootCount);
      if refused.None? {
        count := rootCount;
        assert roots[..count] == roots[..];
        Coalesce(stat, env, Split(env));
      }
    }
  }
}
