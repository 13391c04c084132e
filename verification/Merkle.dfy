/** The Merkle root of src/treehash.c: computed level by level, defined by recursive splitting. */
module Merkle {
  import opened Bytes
  import opened Options
  import opened Sha256Stream
  import opened KnownAnswer

  datatype Entry = Entry(path: bytes, hex: bytes)

  /** What add_file_entry stores: a 64-digit hash and the path of a file below the root. */
  predicate WellFormed(es: seq<Entry>) {
    forall e | e in es :: |e.hex| == 64 && e.path != []
  }

  /** The manifest line of an entry, which is what its leaf digest covers. */
  function LeafRecord(e: Entry): bytes {
    e.hex + [SPACE, SPACE] + e.path + [LF]
  }

  function LeafDigests(es: seq<Entry>): (ds: seq<bytes>)
    ensures |ds| == |es|
  {
    seq(|es|, i requires 0 <= i < |es| => Sha256(LeafRecord(es[i])))
  }

  function DoubleUpTo(k: nat, n: nat): nat
    requires k > 0
    decreases n - k
  {
    if 2 * k >= n then k else DoubleUpTo(2 * k, n)
  }

  lemma {:induction false} DoubleUpToSplits(k: nat, n: nat)
    requires PowerOfTwo(k) && k < n
    ensures var r := DoubleUpTo(k, n); PowerOfTwo(r) && r < n <= 2 * r
    decreases n - k
  {
    if 2 * k < n {
      assert 2 * k / 2 == k;
      DoubleUpToSplits(2 * k, n);
    }
  }

  /** The largest power of two below n, at which section 2.1 of RFC 6962 splits n leaves. */
  function SplitPoint(n: nat): (k: nat)
    requires n >= 2
    ensures PowerOfTwo(k) && k < n <= 2 * k
  {
    DoubleUpToSplits(1, n);
    DoubleUpTo(1, n)
  }

  lemma {:induction false} SplitPointUnique(n: nat, j: nat, k: nat)
    requires PowerOfTwo(j) && PowerOfTwo(k) && j < n <= 2 * j && k < n <= 2 * k
    ensures j == k
  {
    if j > 1 && k > 1 {
      SplitPointUnique((n + 1) / 2, j / 2, k / 2);
    }
  }

  /** The root over digests: the tree shape of RFC 6962 section 2.1, without its prefix bytes. */
  function TreeRoot(ds: seq<bytes>): bytes
    requires ds != []
    decreases |ds|
  {
    if |ds| == 1 then ds[0]
    else
      var k := SplitPoint(|ds|);
      Sha256(TreeRoot(ds[..k]) + TreeRoot(ds[k..]))
  }

  function Parent(ds: seq<bytes>, i: nat): bytes
    requires 2 * i < |ds|
  {
    if 2 * i + 1 < |ds| then Sha256(ds[2 * i] + ds[2 * i + 1]) else ds[2 * i]
  }

  /** One pass of the reduction: neighbours are hashed together, a lone last node moves up. */
  function Level(ds: seq<bytes>): (r: seq<bytes>)
    ensures |r| == (|ds| + 1) / 2
  {
    seq((|ds| + 1) / 2, i requires 0 <= i < (|ds| + 1) / 2 => Parent(ds, i))
  }

  lemma LevelOfConcat(a: seq<bytes>, b: seq<bytes>)
    requires |a| % 2 == 0
    ensures Level(a + b) == Level(a) + Level(b)
  {
    hide Sha256;
    forall i | 0 <= i < |Level(b)|
      ensures Parent(a + b, |a| / 2 + i) == Parent(b, i)
    {
    }
  }

  /** A pass keeps the root: the reduction of n digests builds the tree that splitting describes. */
  lemma {:induction false} LevelKeepsRoot(ds: seq<bytes>)
    requires |ds| >= 2
    ensures TreeRoot(Level(ds)) == TreeRoot(ds)
    decreases |ds|
  {
    hide Sha256;
    var k := SplitPoint(|ds|);
    if |ds| == 2 {
      assert Level(ds)[0] == Parent(ds, 0) == Sha256(ds[0] + ds[1]);
      assert ds[..1] == [ds[0]] && ds[1..] == [ds[1]];
    } else {
      var l, r := ds[..k], ds[k..];
      assert ds == l + r;
      LevelOfConcat(l, r);
      SplitPointUnique(|Level(ds)|, SplitPoint(|Level(ds)|), k / 2);
      assert Level(ds)[..k / 2] == Level(l) && Level(ds)[k / 2..] == Level(r);
      LevelKeepsRoot(l);
      if |r| == 1 {
        assert Level(r) == [Parent(r, 0)] == r;
      } else {
        LevelKeepsRoot(r);
      }
    }
  }

  /** The tree over five leaves, written out: four on the left, the lone one promoted twice. */
  lemma RootOfFive(a: bytes, b: bytes, c: bytes, d: bytes, e: bytes)
    ensures TreeRoot([a, b, c, d, e]) == Sha256(Sha256(Sha256(a + b) + Sha256(c + d)) + e)
  {
    hide Sha256;
    var ds := [a, b, c, d, e];
    assert SplitPoint(5) == 4 && SplitPoint(4) == 2 && SplitPoint(2) == 1 by {
      SplitPointUnique(5, SplitPoint(5), 4);
      SplitPointUnique(4, SplitPoint(4), 2);
      SplitPointUnique(2, SplitPoint(2), 1);
    }
    assert ds[..4] == [a, b, c, d] && ds[4..] == [e];
    assert [a, b, c, d][..2] == [a, b] && [a, b, c, d][2..] == [c, d];
    assert [a, b][..1] == [a] && [a, b][1..] == [b] && [c, d][..1] == [c] && [c, d][1..] == [d];
    assert TreeRoot([a, b]) == Sha256(a + b) && TreeRoot([c, d]) == Sha256(c + d);
    assert TreeRoot([a, b, c, d]) == Sha256(Sha256(a + b) + Sha256(c + d));
  }

  /** The manifest line of an entry, byte for byte. */
  lemma LeafRecordText()
    ensures LeafRecord(Entry(Ascii("src/a.c"), Ascii("e3b0c442"))) == Ascii("e3b0c442  src/a.c\n")
  {
  }

  /** The constant of line 407. */
  const EMPTY_ROOT: bytes :=
    Ascii("e3b0c442") + Ascii("98fc1c14") + Ascii("9afbf4c8") + Ascii("996fb924") +
    Ascii("27ae41e4") + Ascii("649b934c") + Ascii("a495991b") + Ascii("7852b855")

  function RootHex(es: seq<Entry>): bytes {
    if es == [] then EMPTY_ROOT else Hex(TreeRoot(LeafDigests(es)))
  }

  method ComputeLeafDigest(e: Entry) returns (digest: bytes)
    ensures digest == Sha256(LeafRecord(e))
  {
    hide Sha256;
    var ctx := new Context();
    ctx.Update(e.hex);
    ctx.Update([SPACE, SPACE]);
    ctx.Update(e.path);
    ctx.Update([LF]);
    assert [] + e.hex == e.hex;
    digest := ctx.Final();
  }

  method HashPair(left: bytes, right: bytes) returns (digest: bytes)
    ensures digest == Sha256(left + right)
  {
    hide *;
    var ctx := new Context();
    ctx.Update(left);
    ctx.Update(right);
    assert ctx.absorbed == left + right;
    digest := ctx.Final();
  }

  lemma {:induction false} SingleRoot(ds: seq<bytes>)
    requires |ds| == 1
    ensures TreeRoot(ds) == ds[0]
  {
  }

  /** Lines 439-451. */
  method ReduceLevel(current: array<bytes>, nextLevel: array<bytes>)
    requires current.Length >= 1 && nextLevel.Length == (current.Length + 1) / 2 && current != nextLevel
    modifies nextLevel
    ensures nextLevel[..] == Level(current[..])
  {
    hide Sha256;
    var outIdx, i := 0, 0;
    while i < current.Length
      invariant i == 2 * outIdx && outIdx <= nextLevel.Length
      invariant nextLevel[..outIdx] == Level(current[..])[..outIdx]
    {
      if i + 1 < current.Length {
        nextLevel[outIdx] := HashPair(current[i], current[i + 1]);
      } else {
        nextLevel[outIdx] := current[i];
      }
      outIdx := outIdx + 1;
      i := i + 2;
    }
  }

  /** compute_merkle_root; `mallocs` tells how the successive allocations turn out, true beyond its end. */
  method ComputeMerkleRoot(entries: seq<Entry>, mallocs: seq<bool>) returns (root: Option<bytes>)
    ensures root.Some? ==> root.value == RootHex(entries)
    ensures false !in mallocs && |entries| <= SIZE_MAX / 32 ==> root.Some?
    ensures root.None? ==> entries != []
  {
    hide Sha256, TreeRoot, Level;
    if |entries| == 0 {
      return Some(EMPTY_ROOT);
    }
    var count := |entries|;
    var calls := 0;
    if count > SIZE_MAX / 32 || (calls < |mallocs| && !mallocs[calls]) {
      return None;
    }
    calls := calls + 1;
    var current := new bytes[count](_ => []);
    ghost var leaves := LeafDigests(entries);
    for i := 0 to count
      invariant current[..i] == leaves[..i]
    {
      current[i] := ComputeLeafDigest(entries[i]);
    }
    assert current[..] == leaves;
    while count > 1
      invariant current.Length == count && 1 <= count <= |entries|
      invariant TreeRoot(current[..]) == TreeRoot(leaves)
    {
      var nextCount := (count + 1) / 2;
      if nextCount > SIZE_MAX / 32 || (calls < |mallocs| && !mallocs[calls]) {
        return None;
      }
      calls := calls + 1;
      var nextLevel := new bytes[nextCount](_ => []);
      ReduceLevel(current, nextLevel);
      LevelKeepsRoot(current[..]);
      current := nextLevel;
      count := nextCount;
    }
    assert TreeRoot(current[..]) == current[0] by { SingleRoot(current[..]); }
    root := Some(Hex(current[0]));
  }

  /** The message whose digest is the root of a nonempty list: a manifest line or two digests. */
  function RootPreimage(es: seq<Entry>): bytes
    requires es != []
  {
    if |es| == 1 then LeafRecord(es[0])
    else
      var k := SplitPoint(|es|);
      TreeRoot(LeafDigests(es[..k])) + TreeRoot(LeafDigests(es[k..]))
  }

  lemma RootIsDigest(es: seq<Entry>)
    requires es != []
    ensures TreeRoot(LeafDigests(es)) == Sha256(RootPreimage(es))
    ensures |TreeRoot(LeafDigests(es))| == 32
  {
    hide Sha256;
    if |es| > 1 {
      var k, ds := SplitPoint(|es|), LeafDigests(es);
      assert ds[..k] == LeafDigests(es[..k]) && ds[k..] == LeafDigests(es[k..]);
    }
  }

  /** Leaf records, inner nodes and the empty root hash messages of different lengths. */
  lemma PreimageLength(es: seq<Entry>)
    requires es != []
    ensures |es| == 1 ==> |RootPreimage(es)| == |es[0].hex| + |es[0].path| + 3
    ensures |es| > 1 ==> |RootPreimage(es)| == 64
  {
    hide Sha256, TreeRoot, LeafDigests;
    if |es| > 1 {
      RootIsDigest(es[..SplitPoint(|es|)]);
      RootIsDigest(es[SplitPoint(|es|)..]);
    }
  }

  lemma RecordsBind(a: Entry, b: Entry)
    requires |a.hex| == 64 && |b.hex| == 64 && LeafRecord(a) == LeafRecord(b)
    ensures a == b
  {
    var r, s := LeafRecord(a), LeafRecord(b);
    assert r[..64] == a.hex && s[..64] == b.hex;
    assert r[66..|r| - 1] == a.path && s[66..|s| - 1] == b.path;
  }

  lemma {:induction false} TreeBinds(a: seq<Entry>, b: seq<Entry>) returns (x: bytes, y: bytes)
    requires a != [] && b != [] && WellFormed(a) && WellFormed(b)
    requires TreeRoot(LeafDigests(a)) == TreeRoot(LeafDigests(b))
    ensures a == b || (x != y && Sha256(x) == Sha256(y))
    decreases |a|
  {
    hide Sha256, TreeRoot, LeafDigests;
    x, y := RootPreimage(a), RootPreimage(b);
    RootIsDigest(a);
    RootIsDigest(b);
    if x == y {
      if |a| == 1 && |b| == 1 {
        RecordsBind(a[0], b[0]);
        assert a[0] in a && b[0] in b;
        assert a == [a[0]] && b == [b[0]];
      } else if |a| > 1 && |b| > 1 {
        var j, k := SplitPoint(|a|), SplitPoint(|b|);
        RootIsDigest(a[..j]);
        RootIsDigest(b[..k]);
        assert x[..32] == TreeRoot(LeafDigests(a[..j])) && y[..32] == TreeRoot(LeafDigests(b[..k]));
        assert x[32..] == TreeRoot(LeafDigests(a[j..])) && y[32..] == TreeRoot(LeafDigests(b[k..]));
        x, y := TreeBinds(a[..j], b[..k]);
        if a[..j] == b[..k] {
          x, y := TreeBinds(a[j..], b[k..]);
          assert a == a[..j] + a[j..] && b == b[..k] + b[k..];
        }
      } else {
        assert a[0] in a && b[0] in b;
        PreimageLength(a);
        PreimageLength(b);
      }
    }
  }

  lemma {:induction false} HexOfFour(a: bytes, b: bytes, c: bytes, d: bytes)
    ensures Hex(a + b + c + d) == Hex(a) + Hex(b) + Hex(c) + Hex(d)
  {
    HexOfConcat(a, b);
    HexOfConcat(a + b, c);
    HexOfConcat(a + b + c, d);
  }

  predicate HexPair(b: byte, high: char, low: char) {
    high < 128 as char && low < 128 as char
    && HexDigit(b as nat / 16) == high as byte && HexDigit(b as nat % 16) == low as byte
  }

  lemma {:induction false} HexRow(d: bytes, t: string)
    requires |d| == 4 && |t| == 8
    requires HexPair(d[0], t[0], t[1]) && HexPair(d[1], t[2], t[3])
    requires HexPair(d[2], t[4], t[5]) && HexPair(d[3], t[6], t[7])
    ensures (forall i :: 0 <= i < 8 ==> t[i] < 128 as char) && Hex(d) == Ascii(t)
  {
    assert d == [d[0]] + ([d[1]] + ([d[2]] + [d[3]]));
    HexOfConcat([d[0]], [d[1]] + ([d[2]] + [d[3]]));
    HexOfConcat([d[1]], [d[2]] + [d[3]]);
    HexOfConcat([d[2]], [d[3]]);
  }

  lemma EmptyRootRows()
    ensures Hex([0xe3, 0xb0, 0xc4, 0x42]) == Ascii("e3b0c442")
    ensures Hex([0x98, 0xfc, 0x1c, 0x14]) == Ascii("98fc1c14")
    ensures Hex([0x9a, 0xfb, 0xf4, 0xc8]) == Ascii("9afbf4c8")
    ensures Hex([0x99, 0x6f, 0xb9, 0x24]) == Ascii("996fb924")
  {
    hide Hex, Ascii;
    HexRow([0xe3, 0xb0, 0xc4, 0x42], "e3b0c442");
    HexRow([0x98, 0xfc, 0x1c, 0x14], "98fc1c14");
    HexRow([0x9a, 0xfb, 0xf4, 0xc8], "9afbf4c8");
    HexRow([0x99, 0x6f, 0xb9, 0x24], "996fb924");
  }

  lemma EmptyRootMoreRows()
    ensures Hex([0x27, 0xae, 0x41, 0xe4]) == Ascii("27ae41e4")
    ensures Hex([0x64, 0x9b, 0x93, 0x4c]) == Ascii("649b934c")
    ensures Hex([0xa4, 0x95, 0x99, 0x1b]) == Ascii("a495991b")
    ensures Hex([0x78, 0x52, 0xb8, 0x55]) == Ascii("7852b855")
  {
    hide Hex, Ascii;
    HexRow([0x27, 0xae, 0x41, 0xe4], "27ae41e4");
    HexRow([0x64, 0x9b, 0x93, 0x4c], "649b934c");
    HexRow([0xa4, 0x95, 0x99, 0x1b], "a495991b");
    HexRow([0x78, 0x52, 0xb8, 0x55], "7852b855");
  }

  lemma EmptyRootIsHex()
    ensures EMPTY_ROOT == Hex(EMPTY_DIGEST)
  {
    hide Hex, Ascii;
    EmptyRootRows();
    EmptyRootMoreRows();
    var l := [0xe3, 0xb0, 0xc4, 0x42] + [0x98, 0xfc, 0x1c, 0x14] + [0x9a, 0xfb, 0xf4, 0xc8] + [0x99, 0x6f, 0xb9, 0x24];
    var r := [0x27, 0xae, 0x41, 0xe4] + [0x64, 0x9b, 0x93, 0x4c] + [0xa4, 0x95, 0x99, 0x1b] + [0x78, 0x52, 0xb8, 0x55];
    HexOfFour([0xe3, 0xb0, 0xc4, 0x42], [0x98, 0xfc, 0x1c, 0x14], [0x9a, 0xfb, 0xf4, 0xc8], [0x99, 0x6f, 0xb9, 0x24]);
    HexOfFour([0x27, 0xae, 0x41, 0xe4], [0x64, 0x9b, 0x93, 0x4c], [0xa4, 0x95, 0x99, 0x1b], [0x78, 0x52, 0xb8, 0x55]);
    HexOfConcat(l, r);
    assert EMPTY_DIGEST == l + r;
  }

  /** An equal root means equal manifests, or it hands over a SHA-256 collision. */
  lemma RootBinds(a: seq<Entry>, b: seq<Entry>) returns (x: bytes, y: bytes)
    requires WellFormed(a) && WellFormed(b) && RootHex(a) == RootHex(b)
    ensures a == b || (x != y && Sha256(x) == Sha256(y))
  {
    hide Sha256, TreeRoot, LeafDigests, EMPTY_ROOT;
    x, y := [], [];
    EmptyRootIsHex();
    EmptyDigest([]);
    if a != [] && b != [] {
      HexIsInjective(TreeRoot(LeafDigests(a)), TreeRoot(LeafDigests(b)));
      x, y := TreeBinds(a, b);
    } else if a != [] || b != [] {
      var es := if a != [] then a else b;
      HexIsInjective(EMPTY_DIGEST, TreeRoot(LeafDigests(es)));
      RootIsDigest(es);
      PreimageLength(es);
      y := RootPreimage(es);
    }
  }
}
