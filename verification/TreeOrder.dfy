/** What treehash reports is a property of the tree: which files are pinned, and that readdir order cannot show. */
module TreeOrder {
  import opened Bytes
  import opened Options
  import opened Gitignore
  import opened Merkle
  import opened Sorting
  import opened Sha256Stream
  import opened TreeWalk

  /** The file or directory that a path names, by looking each component up. */
  function Resolve(node: Node, path: seq<bytes>): Option<Node>
    decreases |path|
  {
    if path == [] then Some(node)
    else if !node.Dir? then None
    else match Find(node.children, path[0])
      case None => None
      case Some(n) => Resolve(n, path[1..])
  }

  /** The .gitignore lines of the k outermost directories on a path. */
  function Scopes(root: Node, path: seq<bytes>, k: nat): (s: seq<seq<Spec>>)
    requires k <= |path|
    ensures |s| == k
  {
    seq(k, d requires 0 <= d < k =>
      match Resolve(root, path[..d])
      case Some(n) => OwnRules(n)
      case None => [])
  }

  /** The entry of a regular file under a path. */
  predicate EntryFor(found: Option<Node>, path: seq<bytes>, e: Entry) {
    found.Some? && found.value.File? && e == Entry(Join(path), Hex(Sha256(found.value.content)))
  }

  predicate NotIgnored(fm: Fnmatch, root: Node, path: seq<bytes>, k: nat)
    requires 1 <= k <= |path|
  {
    !ScopedVerdict(fm, Scopes(root, path, k), path[..k], k < |path|)
  }

  /** A manifest line, without reference to a walk: a regular file nothing on whose path is skipped or ignored. */
  ghost predicate Pinned(fm: Fnmatch, root: Node, path: seq<bytes>, e: Entry) {
    && path != []
    && (forall c | c in path :: !Skipped(c))
    && (forall k :: 1 <= k <= |path| ==> NotIgnored(fm, root, path, k))
    && EntryFor(Resolve(root, path), path, e)
  }

  /** The same from a directory on the way down. */
  predicate PinnedBelow(fm: Fnmatch, dir: Node, comps: seq<bytes>, scopes: seq<seq<Spec>>, p: seq<bytes>, e: Entry)
    requires |scopes| == |comps|
    decreases |p|
  {
    p != [] && dir.Dir? && !Skipped(p[0]) &&
    var inner, path := scopes + [OwnRules(dir)], comps + [p[0]];
    !ScopedVerdict(fm, inner, path, |p| > 1) &&
    var found := Find(dir.children, p[0]);
    if |p| == 1 then EntryFor(found, path, e)
    else found.Some? && found.value.Dir? && PinnedBelow(fm, found.value, path, inner, p[1..], e)
  }

  lemma {:induction false} FindChild(cs: seq<Child>, i: nat)
    requires DistinctNames(cs) && i < |cs|
    ensures Find(cs, cs[i].name) == Some(cs[i].node)
  {
    if i > 0 {
      FindChild(cs[1..], i - 1);
    }
  }

  lemma {:induction false} FoundChild(cs: seq<Child>, name: bytes) returns (i: nat)
    requires Find(cs, name).Some?
    ensures i < |cs| && cs[i] == Child(name, Find(cs, name).value)
  {
    if cs[0].name == name {
      i := 0;
    } else {
      i := FoundChild(cs[1..], name);
      i := i + 1;
    }
  }

  lemma {:induction false} ListChildrenMember(fm: Fnmatch, dir: Node, n: nat, comps: seq<bytes>,
                                              scopes: seq<seq<Spec>>, e: Entry)
    requires dir.Dir? && n <= |dir.children| && |scopes| == |comps| + 1
    ensures e in ListChildren(fm, dir, n, comps, scopes)
      <==> exists i :: 0 <= i < n && e in ListChild(fm, dir.children[i], comps, scopes)
    decreases n
  {
    hide ListChild;
    if n > 0 {
      ListChildrenMember(fm, dir, n - 1, comps, scopes, e);
    }
  }

  /** Soundness of the walk: every entry is pinned. */
  lemma {:induction false} ListedIsPinned(fm: Fnmatch, dir: Node, comps: seq<bytes>, scopes: seq<seq<Spec>>, e: Entry)
    returns (p: seq<bytes>)
    requires ValidTree(dir) && |scopes| == |comps| && e in Listing(fm, dir, comps, scopes)
    ensures PinnedBelow(fm, dir, comps, scopes, p, e) && ValidNames(p)
    ensures e.path == Join(comps + p)
    decreases dir
  {
    hide ScopedVerdict, Sha256, OwnRules, Join, ListChildren;
    var inner := scopes + [OwnRules(dir)];
    ListChildrenMember(fm, dir, |dir.children|, comps, inner, e);
    var i :| 0 <= i < |dir.children| && e in ListChild(fm, dir.children[i], comps, inner);
    var c := dir.children[i];
    FindChild(dir.children, i);
    if c.node.Dir? {
      var rest := ListedIsPinned(fm, c.node, comps + [c.name], inner, e);
      p := [c.name] + rest;
      assert p[1..] == rest && comps + [c.name] + rest == comps + p;
    } else {
      p := [c.name];
    }
  }

  /** Completeness of the walk: every pinned file has its entry. */
  lemma {:induction false} PinnedIsListed(fm: Fnmatch, dir: Node, comps: seq<bytes>, scopes: seq<seq<Spec>>,
                                          p: seq<bytes>, e: Entry)
    requires |scopes| == |comps| && PinnedBelow(fm, dir, comps, scopes, p, e)
    ensures e in Listing(fm, dir, comps, scopes)
    decreases |p|
  {
    var inner := scopes + [OwnRules(dir)];
    var i := FoundChild(dir.children, p[0]);
    if |p| > 1 {
      PinnedIsListed(fm, dir.children[i].node, comps + [p[0]], inner, p[1..], e);
    }
    assert e in ListChild(fm, dir.children[i], comps, inner);
    ListChildrenMember(fm, dir, |dir.children|, comps, inner, e);
  }

  /** The conditions of Pinned on the components from position d on. */
  ghost predicate PinnedTail(fm: Fnmatch, root: Node, path: seq<bytes>, d: nat, e: Entry)
    requires d <= |path|
  {
    && d < |path|
    && (forall i :: d <= i < |path| ==> !Skipped(path[i]))
    && (forall k :: d < k <= |path| ==> NotIgnored(fm, root, path, k))
    && EntryFor(Resolve(root, path), path, e)
  }

  lemma {:induction false} ResolveStep(root: Node, path: seq<bytes>, d: nat)
    requires d < |path|
    ensures Resolve(root, path[..d + 1]) ==
      match Resolve(root, path[..d])
      case Some(Dir(_, cs, _, _)) => Find(cs, path[d])
      case _ => None
    decreases d
  {
    if d > 0 && root.Dir? {
      match Find(root.children, path[0])
      case None =>
      case Some(n) =>
        ResolveStep(n, path[1..], d - 1);
        assert path[1..][..d] == path[..d + 1][1..] && path[1..][..d - 1] == path[..d][1..];
    }
  }

  lemma {:induction false} ResolvePrefix(root: Node, path: seq<bytes>, d: nat)
    requires d <= |path| && Resolve(root, path).Some?
    ensures Resolve(root, path[..d]).Some?
    ensures d < |path| ==> Resolve(root, path[..d]).value.Dir?
    decreases |path| - d
  {
    if d == |path| {
      assert path[..d] == path;
    } else {
      ResolvePrefix(root, path, d + 1);
      ResolveStep(root, path, d);
    }
  }

  /** One step of PinnedTail. */
  lemma TailStep(fm: Fnmatch, root: Node, path: seq<bytes>, d: nat, e: Entry)
    requires d + 1 < |path|
    ensures PinnedTail(fm, root, path, d, e) <==>
      !Skipped(path[d]) && NotIgnored(fm, root, path, d + 1) && PinnedTail(fm, root, path, d + 1, e)
  {
    hide Resolve, Skipped, NotIgnored, Sha256;
  }

  /** One step of PinnedBelow, in terms of the root. */
  lemma {:induction false} BelowStep(fm: Fnmatch, root: Node, path: seq<bytes>, d: nat, dir: Node, e: Entry)
    requires d < |path| && Resolve(root, path[..d]) == Some(dir)
    ensures PinnedBelow(fm, dir, path[..d], Scopes(root, path, d), path[d..], e) <==>
      && dir.Dir? && !Skipped(path[d]) && NotIgnored(fm, root, path, d + 1)
      && var found := Find(dir.children, path[d]);
         if d + 1 == |path| then EntryFor(found, path, e)
         else (
           && found.Some? && found.value.Dir?
           && PinnedBelow(fm, found.value, path[..d + 1], Scopes(root, path, d + 1), path[d + 1..], e))
  {
    hide Resolve, ScopedVerdict, EntryFor, Skipped, Find, OwnRules;
    assert path[..d] + [path[d]] == path[..d + 1] && path[d..][1..] == path[d + 1..];
    assert d + 1 == |path| ==> path[..d + 1] == path;
    assert dir.Dir? ==> Scopes(root, path, d) + [OwnRules(dir)] == Scopes(root, path, d + 1);
  }

  /** The last component: the file itself. */
  lemma {:induction false} LastIsTail(fm: Fnmatch, root: Node, path: seq<bytes>, d: nat, dir: Node, e: Entry)
    requires d + 1 == |path| && Resolve(root, path[..d]) == Some(dir)
    ensures PinnedBelow(fm, dir, path[..d], Scopes(root, path, d), path[d..], e) <==> PinnedTail(fm, root, path, d, e)
  {
    BelowStep(fm, root, path, d, dir, e);
    ResolveStep(root, path, d);
    assert path[..d + 1] == path;
    hide Resolve, PinnedBelow, Find, EntryFor, Skipped, NotIgnored, Scopes;
  }

  lemma {:induction false} ResolvePrefixIfSome(root: Node, path: seq<bytes>, d: nat)
    requires d < |path|
    ensures Resolve(root, path).Some? ==> Resolve(root, path[..d]).Some? && Resolve(root, path[..d]).value.Dir?
  {
    if Resolve(root, path).Some? { ResolvePrefix(root, path, d); }
  }

  lemma {:induction false} BelowIsTail(fm: Fnmatch, root: Node, path: seq<bytes>, d: nat, dir: Node, e: Entry)
    requires d <= |path| && Resolve(root, path[..d]) == Some(dir)
    ensures PinnedBelow(fm, dir, path[..d], Scopes(root, path, d), path[d..], e) <==> PinnedTail(fm, root, path, d, e)
    decreases |path| - d
  {
    if d + 1 == |path| {
      LastIsTail(fm, root, path, d, dir, e);
    } else if d < |path| {
      BelowStep(fm, root, path, d, dir, e);
      ResolveStep(root, path, d);
      TailStep(fm, root, path, d, e);
      ResolvePrefixIfSome(root, path, d + 1);
      var found := if dir.Dir? then Find(dir.children, path[d]) else None;
      if found.Some? && found.value.Dir? {
        hide Resolve, PinnedBelow, Find, Scopes, PinnedTail;
        BelowIsTail(fm, root, path, d + 1, found.value, e);
      } else {
        hide Resolve, PinnedBelow, Find, Scopes;
        assert Resolve(root, path) == None;
      }
    }
  }

  /** The walk lists exactly the pinned files. */
  lemma {:induction false} ListingIsPinned(fm: Fnmatch, root: Node, e: Entry)
    requires ValidTree(root)
    ensures e in Listing(fm, root, [], []) <==> exists path :: ValidNames(path) && Pinned(fm, root, path, e)
  {
    hide Listing, Sha256;
    if e in Listing(fm, root, [], []) {
      var path := ListedIsPinned(fm, root, [], [], e);
      assert path[0..] == path && path[..0] == [] && Scopes(root, path, 0) == [];
      BelowIsTail(fm, root, path, 0, root, e);
      assert Pinned(fm, root, path, e);
    }
    forall path | ValidNames(path) && Pinned(fm, root, path, e)
      ensures e in Listing(fm, root, [], [])
    {
      assert path[0..] == path && path[..0] == [] && Scopes(root, path, 0) == [];
      BelowIsTail(fm, root, path, 0, root, e);
      PinnedIsListed(fm, root, [], [], path, e);
    }
  }

  /** No path is listed twice. */
  predicate DistinctPaths(es: seq<Entry>) {
    forall i, j :: 0 <= i < j < |es| ==> es[i].path != es[j].path
  }

  /** Whatever a directory entry contributes lies under its name. */
  lemma ChildPaths(fm: Fnmatch, c: Child, comps: seq<bytes>, scopes: seq<seq<Spec>>, e: Entry)
    returns (path: seq<bytes>)
    requires ValidTree(c.node) && ValidName(c.name) && ValidNames(comps) && |scopes| == |comps| + 1
    requires e in ListChild(fm, c, comps, scopes)
    ensures ValidNames(path) && |path| > |comps| && path[|comps|] == c.name && e.path == Join(path)
  {
    if c.node.Dir? {
      var p := ListedIsPinned(fm, c.node, comps + [c.name], scopes, e);
      path := comps + [c.name] + p;
    } else {
      path := comps + [c.name];
    }
  }

  lemma {:induction false} ListChildDistinct(fm: Fnmatch, c: Child, comps: seq<bytes>, scopes: seq<seq<Spec>>)
    requires ValidTree(c.node) && ValidName(c.name) && ValidNames(comps) && |scopes| == |comps| + 1
    ensures DistinctPaths(ListChild(fm, c, comps, scopes))
    decreases c.node, 2, 0
  {
    hide Listing, ScopedVerdict, Join, Sha256;
    if c.node.Dir? {
      ListingDistinct(fm, c.node, comps + [c.name], scopes);
    }
  }

  lemma {:induction false} ListChildrenDistinct(fm: Fnmatch, dir: Node, n: nat, comps: seq<bytes>,
                                                scopes: seq<seq<Spec>>)
    requires ValidTree(dir) && ValidNames(comps) && dir.Dir? && n <= |dir.children| && |scopes| == |comps| + 1
    ensures DistinctPaths(ListChildren(fm, dir, n, comps, scopes))
    decreases dir, 0, n
  {
    hide ListChild, ScopedVerdict;
    if n > 0 {
      var c := dir.children[n - 1];
      var before, own := ListChildren(fm, dir, n - 1, comps, scopes), ListChild(fm, c, comps, scopes);
      ListChildrenDistinct(fm, dir, n - 1, comps, scopes);
      ListChildDistinct(fm, c, comps, scopes);
      forall i, j | 0 <= i < |before| && 0 <= j < |own|
        ensures before[i].path != own[j].path
      {
        assert before[i] in before && own[j] in own;
        ListChildrenMember(fm, dir, n - 1, comps, scopes, before[i]);
        var k :| 0 <= k < n - 1 && before[i] in ListChild(fm, dir.children[k], comps, scopes);
        var p := ChildPaths(fm, dir.children[k], comps, scopes, before[i]);
        var q := ChildPaths(fm, c, comps, scopes, own[j]);
        if before[i].path == own[j].path {
          JoinIsInjective(p, q);
        }
      }
    }
  }

  lemma {:induction false} ListingDistinct(fm: Fnmatch, dir: Node, comps: seq<bytes>, scopes: seq<seq<Spec>>)
    requires ValidTree(dir) && ValidNames(comps) && |scopes| == |comps|
    ensures DistinctPaths(Listing(fm, dir, comps, scopes))
    decreases dir, 1, 0
  {
    if dir.Dir? {
      ListChildrenDistinct(fm, dir, |dir.children|, comps, scopes + [OwnRules(dir)]);
    }
  }

  /** The same directories and files, with readdir reporting every directory in any order. */
  ghost predicate Reordered(a: Node, b: Node)
    decreases a, 1
  {
    if a.Dir? then
      && b.Dir? && b.id == a.id && b.openable == a.openable && b.listable == a.listable
      && (forall i :: 0 <= i < |a.children| ==> HasSame(b.children, a.children[i]))
      && (forall j :: 0 <= j < |b.children| ==> Find(a.children, b.children[j].name).Some?)
    else a == b
  }

  ghost predicate HasSame(cs: seq<Child>, c: Child)
    decreases c, 0
  {
    Find(cs, c.name).Some? && Reordered(c.node, Find(cs, c.name).value)
  }

  lemma {:induction false} ReorderedReflexive(a: Node)
    requires ValidTree(a)
    ensures Reordered(a, a)
  {
    if a.Dir? {
      forall i | 0 <= i < |a.children|
        ensures HasSame(a.children, a.children[i])
      {
        FindChild(a.children, i);
        ReorderedReflexive(a.children[i].node);
      }
    }
  }

  /** Shuffling the entries of one directory is a reordering. */
  lemma {:induction false} ShuffleIsReordered(a: Node, b: Node)
    requires ValidTree(a) && ValidTree(b) && a.Dir? && b.Dir?
    requires multiset(a.children) == multiset(b.children) && b == a.(children := b.children)
    ensures Reordered(a, b)
  {
    forall i | 0 <= i < |a.children|
      ensures HasSame(b.children, a.children[i])
    {
      assert a.children[i] in multiset(b.children);
      var j :| 0 <= j < |b.children| && b.children[j] == a.children[i];
      FindChild(b.children, j);
      ReorderedReflexive(a.children[i].node);
    }
    forall j | 0 <= j < |b.children|
      ensures Find(a.children, b.children[j].name).Some?
    {
      assert b.children[j] in multiset(a.children);
      var i :| 0 <= i < |a.children| && a.children[i] == b.children[j];
      FindChild(a.children, i);
    }
  }

  /** Where the j-th entry of b is in a. */
  lemma Counterpart(a: Node, b: Node, j: nat) returns (i: nat)
    requires ValidTree(b) && a.Dir? && Reordered(a, b) && j < |b.children|
    ensures i < |a.children| && a.children[i].name == b.children[j].name
    ensures Reordered(a.children[i].node, b.children[j].node)
  {
    FindChild(b.children, j);
    i := FoundChild(a.children, b.children[j].name);
    assert HasSame(b.children, a.children[i]);
  }

  lemma {:induction false} FindReordered(a: Node, b: Node, name: bytes)
    requires a.Dir? && Reordered(a, b)
    ensures Find(a.children, name).Some? == Find(b.children, name).Some?
    ensures Find(a.children, name).Some? ==> Reordered(Find(a.children, name).value, Find(b.children, name).value)
  {
    if Find(a.children, name).Some? {
      var i := FoundChild(a.children, name);
      assert HasSame(b.children, a.children[i]);
    } else if Find(b.children, name).Some? {
      var j := FoundChild(b.children, name);
    }
  }

  lemma {:induction false} RulesReordered(a: Node, b: Node)
    requires a.Dir? && Reordered(a, b)
    ensures OwnRules(a) == OwnRules(b) && RulesReadable(a) == RulesReadable(b)
  {
    FindReordered(a, b, GITIGNORE);
    hide ParseRules, Find;
  }

  predicate SameFate(fm: Fnmatch, c: Child, d: Child, disk: bytes, comps: seq<bytes>, scopes: seq<seq<Spec>>,
                     seen: seq<Id>)
    requires |scopes| == |comps| + 1
  {
    ChildSucceeds(fm, c, disk, comps, scopes, seen) == ChildSucceeds(fm, d, disk, comps, scopes, seen)
  }

  lemma ChildReordered(fm: Fnmatch, c: Child, d: Child, disk: bytes, comps: seq<bytes>,
                       scopes: seq<seq<Spec>>, seen: seq<Id>)
    requires ValidTree(c.node) && ValidTree(d.node) && |scopes| == |comps| + 1
    requires c.name == d.name && Reordered(c.node, d.node)
    ensures SameFate(fm, c, d, disk, comps, scopes, seen)
    decreases c.node, 2
  {
    hide Succeeds, ScopedVerdict, Join, Skipped;
    if c.node.Dir? {
      SucceedsReordered(fm, c.node, d.node, disk + [SLASH] + c.name, comps + [c.name], scopes, seen);
    }
  }

  lemma ChildrenReordered(fm: Fnmatch, a: Node, b: Node, disk: bytes, comps: seq<bytes>,
                          scopes: seq<seq<Spec>>, seen: seq<Id>)
    requires ValidTree(a) && ValidTree(b) && a.Dir? && Reordered(a, b) && |scopes| == |comps| + 1
    ensures (forall i :: 0 <= i < |a.children| ==> ChildSucceeds(fm, a.children[i], disk, comps, scopes, seen))
       <==> (forall j :: 0 <= j < |b.children| ==> ChildSucceeds(fm, b.children[j], disk, comps, scopes, seen))
    decreases a, 0
  {
    hide ChildSucceeds;
    if forall i :: 0 <= i < |a.children| ==> ChildSucceeds(fm, a.children[i], disk, comps, scopes, seen) {
      forall j | 0 <= j < |b.children|
        ensures ChildSucceeds(fm, b.children[j], disk, comps, scopes, seen)
      {
        var i := Counterpart(a, b, j);
        ChildReordered(fm, a.children[i], b.children[j], disk, comps, scopes, seen);
      }
    }
    if forall j :: 0 <= j < |b.children| ==> ChildSucceeds(fm, b.children[j], disk, comps, scopes, seen) {
      forall i | 0 <= i < |a.children|
        ensures ChildSucceeds(fm, a.children[i], disk, comps, scopes, seen)
      {
        assert HasSame(b.children, a.children[i]);
        var j := FoundChild(b.children, a.children[i].name);
        ChildReordered(fm, a.children[i], b.children[j], disk, comps, scopes, seen);
      }
    }
  }

  lemma {:induction false} SucceedsReordered(fm: Fnmatch, a: Node, b: Node, disk: bytes, comps: seq<bytes>,
                                             scopes: seq<seq<Spec>>, seen: seq<Id>)
    requires ValidTree(a) && ValidTree(b) && Reordered(a, b) && |scopes| == |comps|
    ensures Succeeds(fm, a, disk, comps, scopes, seen) == Succeeds(fm, b, disk, comps, scopes, seen)
    decreases a, 1
  {
    if a.Dir? {
      RulesReordered(a, b);
      ChildrenReordered(fm, a, b, disk, comps, scopes + [OwnRules(a)], seen + [a.id]);
      hide ChildSucceeds, RulesReadable, OwnRules, ValidTree, Reordered;
    }
  }

  /** Every entry of the one walk is an entry of the other. */
  lemma {:induction false} ListingReordered(fm: Fnmatch, a: Node, b: Node, comps: seq<bytes>, scopes: seq<seq<Spec>>,
                                            e: Entry)
    requires ValidTree(a) && ValidTree(b) && Reordered(a, b) && |scopes| == |comps|
    ensures e in Listing(fm, a, comps, scopes) <==> e in Listing(fm, b, comps, scopes)
    decreases a, 1
  {
    if a.Dir? {
      RulesReordered(a, b);
      var inner := scopes + [OwnRules(a)];
      ListChildrenMember(fm, a, |a.children|, comps, inner, e);
      ListChildrenMember(fm, b, |b.children|, comps, inner, e);
      if i :| 0 <= i < |a.children| && e in ListChild(fm, a.children[i], comps, inner) {
        assert HasSame(b.children, a.children[i]);
        var j := FoundChild(b.children, a.children[i].name);
        ListChildReordered(fm, a.children[i], b.children[j], comps, inner, e);
      }
      if j :| 0 <= j < |b.children| && e in ListChild(fm, b.children[j], comps, inner) {
        var i := Counterpart(a, b, j);
        ListChildReordered(fm, a.children[i], b.children[j], comps, inner, e);
      }
      hide ListChild, ListChildren, OwnRules, ValidTree, Reordered;
    }
  }

  lemma {:induction false} ListChildReordered(fm: Fnmatch, c: Child, d: Child, comps: seq<bytes>,
                                              scopes: seq<seq<Spec>>, e: Entry)
    requires ValidTree(c.node) && ValidTree(d.node) && |scopes| == |comps| + 1
    requires c.name == d.name && Reordered(c.node, d.node)
    ensures e in ListChild(fm, c, comps, scopes) <==> e in ListChild(fm, d, comps, scopes)
    decreases c.node, 2
  {
    hide Listing, ScopedVerdict, Join, Skipped, Sha256;
    if c.node.Dir? {
      ListingReordered(fm, c.node, d.node, comps + [c.name], scopes, e);
    }
  }

  /** compare_file_entries(a, b) < 0. */
  predicate ByPath(a: Entry, b: Entry) { Less(a.path, b.path) }

  lemma ByPathIsStrict()
    ensures StrictOrder(ByPath)
  {
    forall a, b, c: Entry | ByPath(a, b) && ByPath(b, c) ensures ByPath(a, c) {
      LessTransitive(a.path, b.path, c.path);
    }
    forall a: Entry ensures !ByPath(a, a) {
      LessIrreflexive(a.path);
    }
  }

  lemma DistinctIsSeparated(es: seq<Entry>)
    requires DistinctPaths(es)
    ensures Separated(es, ByPath)
  {
    forall i, j | 0 <= i < j < |es|
      ensures ByPath(es[i], es[j]) || ByPath(es[j], es[i])
    {
      LessTotal(es[i].path, es[j].path);
    }
  }

  /** The promise of the tool: the order readdir reports entries in changes neither status nor output. */
  lemma {:induction false} ReaddirOrderIsInvisible(fm: Fnmatch, a: Node, b: Node, disk: bytes, sa: seq<Entry>,
                                                   sb: seq<Entry>)
    requires ValidTree(a) && ValidTree(b) && Reordered(a, b)
    requires Sorts(sa, Listing(fm, a, [], []), ByPath) && Sorts(sb, Listing(fm, b, [], []), ByPath)
    ensures Succeeds(fm, a, disk, [], [], []) == Succeeds(fm, b, disk, [], [], [])
    ensures Ascending(sa, ByPath) && sa == sb && RootHex(sa) == RootHex(sb)
  {
    hide Listing, Succeeds, RootHex;
    SucceedsReordered(fm, a, b, disk, [], [], []);
    ListingDistinct(fm, a, [], []);
    ListingDistinct(fm, b, [], []);
    DistinctIsSeparated(Listing(fm, a, [], []));
    DistinctIsSeparated(Listing(fm, b, [], []));
    forall e ensures e in Listing(fm, a, [], []) <==> e in Listing(fm, b, [], []) {
      ListingReordered(fm, a, b, [], [], e);
    }
    ByPathIsStrict();
    SortForgetsOrder(sa, Listing(fm, a, [], []), sb, Listing(fm, b, [], []), ByPath);
  }

  /** The file that a path names is pinned with this content. */
  ghost predicate PinnedFile(fm: Fnmatch, root: Node, path: seq<bytes>, content: bytes) {
    && ValidNames(path) && Pinned(fm, root, path, Entry(Join(path), Hex(Sha256(content))))
    && Resolve(root, path).Some? && Resolve(root, path).value.File? && Resolve(root, path).value.content == content
  }

  ghost predicate SameFiles(fm: Fnmatch, a: Node, b: Node) {
    forall path, content :: PinnedFile(fm, a, path, content) <==> PinnedFile(fm, b, path, content)
  }

  lemma {:induction false} PinnedShape(fm: Fnmatch, root: Node, path: seq<bytes>, e: Entry)
    requires ValidNames(path) && Pinned(fm, root, path, e)
    ensures |e.hex| == 64 && e.path == Join(path) != []
    ensures Resolve(root, path).Some? && Resolve(root, path).value.File?
    ensures e.hex == Hex(Sha256(Resolve(root, path).value.content))
  {
    hide NotIgnored, Sha256, Join, Resolve;
    JoinNonempty(path);
  }

  /** The walk stores what the binding of roots asks for: whole digests and nonempty paths. */
  lemma {:induction false} SortedListingWellFormed(fm: Fnmatch, root: Node, sorted: seq<Entry>)
    requires ValidTree(root) && Sorts(sorted, Listing(fm, root, [], []), ByPath)
    ensures WellFormed(sorted)
    ensures forall e :: e in sorted <==> exists path :: ValidNames(path) && Pinned(fm, root, path, e)
  {
    hide Listing, Sha256, Pinned;
    SameMembers(sorted, Listing(fm, root, [], []));
    forall e
      ensures e in sorted <==> exists path :: ValidNames(path) && Pinned(fm, root, path, e)
    {
      ListingIsPinned(fm, root, e);
    }
    forall e | e in sorted
      ensures |e.hex| == 64 && e.path != []
    {
      var path :| ValidNames(path) && Pinned(fm, root, path, e);
      PinnedShape(fm, root, path, e);
    }
  }

  /** With one manifest for both trees, a file of the one is that file of the other, or contents collide. */
  lemma FileCarriesOver(fm: Fnmatch, a: Node, b: Node, es: seq<Entry>, path: seq<bytes>, content: bytes)
    returns (x: bytes, y: bytes)
    requires forall e :: e in es <==> exists p :: ValidNames(p) && Pinned(fm, a, p, e)
    requires forall e :: e in es <==> exists p :: ValidNames(p) && Pinned(fm, b, p, e)
    requires PinnedFile(fm, a, path, content)
    ensures PinnedFile(fm, b, path, content) || (x != y && Sha256(x) == Sha256(y))
  {
    hide Pinned, Sha256, Resolve, Join, ValidNames, Hex;
    var e := Entry(Join(path), Hex(Sha256(content)));
    assert e in es;
    var p :| ValidNames(p) && Pinned(fm, b, p, e);
    PinnedShape(fm, b, p, e);
    JoinIsInjective(p, path);
    x, y := content, Resolve(b, path).value.content;
    HexIsInjective(Sha256(x), Sha256(y));
  }

  /**
   * What the one hash is for: two trees with the same root have the same pinned files with the same contents,
   * or the lemma hands over a SHA-256 collision.
   */
  lemma RootPinsTree(fm: Fnmatch, a: Node, b: Node, sa: seq<Entry>, sb: seq<Entry>) returns (x: bytes, y: bytes)
    requires ValidTree(a) && ValidTree(b) && RootHex(sa) == RootHex(sb)
    requires Sorts(sa, Listing(fm, a, [], []), ByPath) && Sorts(sb, Listing(fm, b, [], []), ByPath)
    ensures SameFiles(fm, a, b) || (x != y && Sha256(x) == Sha256(y))
  {
    hide Listing, Sha256, RootHex, ByPath, PinnedFile, Pinned, WellFormed, ValidNames;
    SortedListingWellFormed(fm, a, sa);
    SortedListingWellFormed(fm, b, sb);
    x, y := RootBinds(sa, sb);
    if !(x != y && Sha256(x) == Sha256(y)) && !SameFiles(fm, a, b) {
      var path, content :| PinnedFile(fm, a, path, content) != PinnedFile(fm, b, path, content);
      if PinnedFile(fm, a, path, content) {
        x, y := FileCarriesOver(fm, a, b, sa, path, content);
      } else {
        x, y := FileCarriesOver(fm, b, a, sa, path, content);
      }
    }
  }
}
