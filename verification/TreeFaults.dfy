/** When treehash succeeds: exactly when nothing it has to look at is at fault. No walk is needed to say so. */
module TreeFaults {
  import opened Bytes
  import opened Options
  import opened Gitignore
  import opened TreeWalk
  import opened TreeOrder

  /** The path on disk. */
  function DiskPath(disk: bytes, path: seq<bytes>): bytes {
    if path == [] then disk else DiskPath(disk, path[..|path| - 1]) + [SLASH] + path[|path| - 1]
  }

  /** The directories above the one a path names. */
  function Above(root: Node, path: seq<bytes>): (ids: seq<Id>)
    ensures |ids| == |path|
  {
    seq(|path|, d requires 0 <= d < |path| =>
      match Resolve(root, path[..d])
      case Some(Dir(id, _, _, _)) => id
      case _ => Id(0, 0))
  }

  predicate Ignored(fm: Fnmatch, root: Node, path: seq<bytes>, isDir: bool)
    requires path != []
  {
    ScopedVerdict(fm, Scopes(root, path, |path|), path, isDir)
  }

  /** A directory that cannot be walked: too deep, met before on the way, unreadable, or too long a path. */
  predicate DirFaulty(root: Node, disk: bytes, path: seq<bytes>, dir: Node)
    requires dir.Dir?
  {
    || |path| >= MAX_DEPTH || dir.id in Above(root, path) || !dir.openable || !dir.listable
    || |DiskPath(disk, path)| + |Ascii("/.gitignore")| >= PATH_MAX || !RulesReadable(dir)
  }

  /** What a path names is at fault; an ignored file or directory only if its path is too long. */
  predicate Faulty(fm: Fnmatch, root: Node, disk: bytes, path: seq<bytes>)
    requires path != []
  {
    var found := Resolve(root, path);
    found.Some? && (
      || |DiskPath(disk, path)| >= PATH_MAX || |Join(path)| >= PATH_MAX || found.value.Unreachable?
      || (found.value.File? && !found.value.readable && !Ignored(fm, root, path, false))
      || (found.value.Dir? && !Ignored(fm, root, path, true) && DirFaulty(root, disk, path, found.value)))
  }

  /** No name after q is skipped, and no directory on the way ignored. */
  predicate Clear(fm: Fnmatch, root: Node, q: seq<bytes>, path: seq<bytes>) {
    && (forall i :: |q| <= i < |path| ==> !Skipped(path[i]))
    && forall k :: |q| < k < |path| ==> !Ignored(fm, root, path[..k], true)
  }

  /** From the directory q the walk comes to look at the path. */
  predicate LooksAt(fm: Fnmatch, root: Node, q: seq<bytes>, path: seq<bytes>) {
    q < path && Clear(fm, root, q, path)
  }

  ghost predicate SucceedsAt(fm: Fnmatch, root: Node, disk: bytes, q: seq<bytes>) {
    Resolve(root, q).Some?
    && Succeeds(fm, Resolve(root, q).value, DiskPath(disk, q), q, Scopes(root, q, |q|), Above(root, q))
  }

  lemma {:induction false} AboveChild(root: Node, q: seq<bytes>, name: bytes, dir: Node)
    requires Resolve(root, q) == Some(dir) && dir.Dir?
    ensures Above(root, q + [name]) == Above(root, q) + [dir.id]
    ensures Scopes(root, q + [name], |q| + 1) == Scopes(root, q, |q|) + [OwnRules(dir)]
  {
    hide Resolve, OwnRules;
    var p := q + [name];
    assert p[..|q|] == q && q[..|q|] == q;
    assert forall d :: 0 <= d < |q| ==> p[..d] == q[..d];
  }

  lemma {:induction false} DiskChild(disk: bytes, q: seq<bytes>, name: bytes)
    ensures DiskPath(disk, q + [name]) == DiskPath(disk, q) + [SLASH] + name
  {
    assert (q + [name])[..|q|] == q;
  }

  lemma {:induction false} ResolveChild(root: Node, q: seq<bytes>, name: bytes, dir: Node)
    requires Resolve(root, q) == Some(dir) && dir.Dir?
    ensures Resolve(root, q + [name]) == Find(dir.children, name)
  {
    var p := q + [name];
    ResolveStep(root, p, |q|);
    assert p[..|q|] == q && p[..|q| + 1] == p;
  }

  lemma GitNames()
    ensures Ascii("/.gitignore") == [SLASH] + GITIGNORE && Ascii(".git") == DOTGIT
  {
  }

  /** ChildSucceeds for the child c of the directory q. */
  ghost predicate ChildSucceedsAt(fm: Fnmatch, root: Node, disk: bytes, q: seq<bytes>, dir: Node, c: Child)
    requires dir.Dir?
  {
    ChildSucceeds(fm, c, DiskPath(disk, q), q, Scopes(root, q, |q|) + [OwnRules(dir)], Above(root, q) + [dir.id])
  }

  /** What a child contributes to success. */
  ghost predicate ChildFine(fm: Fnmatch, root: Node, disk: bytes, p: seq<bytes>, c: Child)
    requires p != []
  {
    Skipped(c.name)
    || (!Faulty(fm, root, disk, p) && (c.node.Dir? && !Ignored(fm, root, p, true) ==> SucceedsAt(fm, root, disk, p)))
  }

  lemma {:induction false} SucceedsMeans(fm: Fnmatch, root: Node, disk: bytes, q: seq<bytes>, dir: Node)
    requires Resolve(root, q) == Some(dir) && dir.Dir?
    ensures SucceedsAt(fm, root, disk, q) <==>
      && !DirFaulty(root, disk, q, dir)
      && forall i :: 0 <= i < |dir.children| ==> ChildSucceedsAt(fm, root, disk, q, dir, dir.children[i])
  {
    hide Resolve, Above, Scopes, DiskPath, OwnRules, RulesReadable, ChildSucceeds;
    GitNames();
    var inner, seen := Scopes(root, q, |q|) + [OwnRules(dir)], Above(root, q) + [dir.id];
    assert AllSucceed(fm, dir.children, DiskPath(disk, q), q, inner, seen) <==>
      forall i :: 0 <= i < |dir.children| ==> ChildSucceedsAt(fm, root, disk, q, dir, dir.children[i]);
    hide AllSucceed, ChildSucceedsAt;
  }

  lemma {:induction false} ChildSucceedsMeans(fm: Fnmatch, root: Node, disk: bytes, q: seq<bytes>, dir: Node, i: nat)
    requires Resolve(root, q) == Some(dir) && dir.Dir? && i < |dir.children| && DistinctNames(dir.children)
    ensures var c := dir.children[i];
      && Resolve(root, q + [c.name]) == Some(c.node)
      && (ChildSucceedsAt(fm, root, disk, q, dir, c) <==> ChildFine(fm, root, disk, q + [c.name], c))
  {
    hide Resolve, Above, Scopes, DiskPath, ScopedVerdict, OwnRules, RulesReadable, Join, AllSucceed, Skipped;
    var c := dir.children[i];
    FindChild(dir.children, i);
    ResolveChild(root, q, c.name, dir);
    AboveChild(root, q, c.name, dir);
    DiskChild(disk, q, c.name);
    if c.node.Dir? {
      SucceedsMeans(fm, root, disk, q + [c.name], c.node);
    }
    hide Succeeds, DirFaulty;
  }

  /** The first step of a path the walk comes to look at. */
  lemma LooksAtChild(fm: Fnmatch, root: Node, q: seq<bytes>, path: seq<bytes>)
    requires q < path
    ensures var p := q + [path[|q|]];
      LooksAt(fm, root, q, path) <==>
        !Skipped(path[|q|]) && (path == p || (!Ignored(fm, root, p, true) && LooksAt(fm, root, p, path)))
  {
    hide Ignored, Skipped;
    var p := q + [path[|q|]];
    assert path[..|q| + 1] == p && p <= path;
    if p != path {
      assert p < path;
    }
  }

  lemma {:induction false} ResolveThrough(root: Node, q: seq<bytes>, path: seq<bytes>)
    requires q < path && Resolve(root, path).Some?
    ensures Resolve(root, q).Some? && Resolve(root, q).value.Dir?
  {
    ResolvePrefix(root, path, |q|);
    assert path[..|q|] == q;
  }

  /** No fault on a path through the child, the child's own included. */
  ghost predicate FaultlessThrough(fm: Fnmatch, root: Node, disk: bytes, q: seq<bytes>, name: bytes) {
    forall path :: LooksAt(fm, root, q, path) && path[|q|] == name ==> !Faulty(fm, root, disk, path)
  }

  ghost predicate FaultlessBelow(fm: Fnmatch, root: Node, disk: bytes, q: seq<bytes>) {
    forall path :: LooksAt(fm, root, q, path) ==> !Faulty(fm, root, disk, path)
  }

  lemma {:induction false} ThroughChild(fm: Fnmatch, root: Node, disk: bytes, q: seq<bytes>, c: Child)
    requires Resolve(root, q + [c.name]) == Some(c.node)
    ensures var p := q + [c.name];
      FaultlessThrough(fm, root, disk, q, c.name) <==>
        Skipped(c.name)
        || (!Faulty(fm, root, disk, p)
            && (c.node.Dir? && !Ignored(fm, root, p, true) ==> FaultlessBelow(fm, root, disk, p)))
  {
    hide Ignored, Skipped, Resolve, DirFaulty, Scopes, DiskPath, Clear;
    var p := q + [c.name];
    if Skipped(c.name) {
      forall path | LooksAt(fm, root, q, path) && path[|q|] == c.name
        ensures false
      {
        LooksAtChild(fm, root, q, path);
      }
    } else {
      LooksAtChild(fm, root, q, p);
      assert LooksAt(fm, root, q, p);
      forall path | LooksAt(fm, root, p, path) && !Ignored(fm, root, p, true)
        ensures LooksAt(fm, root, q, path) && path[|q|] == c.name
      {
        LooksAtChild(fm, root, q, path);
      }
      forall path | LooksAt(fm, root, q, path) && path[|q|] == c.name && path != p && Faulty(fm, root, disk, path)
        ensures c.node.Dir? && !Ignored(fm, root, p, true) && LooksAt(fm, root, p, path)
      {
        LooksAtChild(fm, root, q, path);
        ResolveThrough(root, p, path);
      }
    }
  }

  lemma {:induction false} BelowIsThrough(fm: Fnmatch, root: Node, disk: bytes, q: seq<bytes>, dir: Node)
    requires Resolve(root, q) == Some(dir) && dir.Dir?
    ensures FaultlessBelow(fm, root, disk, q) <==>
      forall i :: 0 <= i < |dir.children| ==> FaultlessThrough(fm, root, disk, q, dir.children[i].name)
  {
    hide Ignored, Skipped, Resolve, DirFaulty, Scopes, DiskPath, Clear;
    if forall i :: 0 <= i < |dir.children| ==> FaultlessThrough(fm, root, disk, q, dir.children[i].name) {
      forall path | LooksAt(fm, root, q, path)
        ensures !Faulty(fm, root, disk, path)
      {
        if Faulty(fm, root, disk, path) {
          var p := q + [path[|q|]];
          assert p <= path;
          if p != path {
            ResolveThrough(root, p, path);
          }
          ResolveChild(root, q, path[|q|], dir);
          var i := FoundChild(dir.children, path[|q|]);
        }
      }
    }
  }

  lemma {:induction false} DirNotFaulty(fm: Fnmatch, root: Node, disk: bytes, path: seq<bytes>, dir: Node)
    requires path != [] && Resolve(root, path) == Some(dir) && dir.Dir?
    requires !Faulty(fm, root, disk, path) && !Ignored(fm, root, path, true)
    ensures !DirFaulty(root, disk, path, dir)
  {
  }

  /** From any directory on: the walk succeeds exactly when neither it nor anything looked at below is at fault. */
  lemma {:induction false} SucceedsBelow(fm: Fnmatch, root: Node, disk: bytes, q: seq<bytes>, dir: Node)
    requires Resolve(root, q) == Some(dir) && dir.Dir? && ValidTree(dir)
    ensures SucceedsAt(fm, root, disk, q) <==>
      !DirFaulty(root, disk, q, dir) && FaultlessBelow(fm, root, disk, q)
    decreases dir
  {
    hide Resolve, Above, Scopes, DiskPath, OwnRules, ChildSucceedsAt, FaultlessThrough, FaultlessBelow, SucceedsAt;
    hide Faulty, DirFaulty, Ignored, Skipped;
    SucceedsMeans(fm, root, disk, q, dir);
    BelowIsThrough(fm, root, disk, q, dir);
    forall i | 0 <= i < |dir.children|
      ensures var c := dir.children[i];
        ChildSucceedsAt(fm, root, disk, q, dir, c) <==> FaultlessThrough(fm, root, disk, q, c.name)
    {
      var c := dir.children[i];
      var p := q + [c.name];
      ChildSucceedsMeans(fm, root, disk, q, dir, i);
      ThroughChild(fm, root, disk, q, c);
      if c.node.Dir? {
        SucceedsBelow(fm, root, disk, p, c.node);
        if !Faulty(fm, root, disk, p) && !Ignored(fm, root, p, true) {
          DirNotFaulty(fm, root, disk, p, c.node);
        }
      }
    }
  }

  /**
   * walk_dir returns 0 exactly when the root can be walked and no path it has to look at is at fault. Links,
   * devices, pipes and sockets are never at fault; what cannot be examined always is.
   */
  lemma {:induction false} SucceedsExactly(fm: Fnmatch, root: Node, disk: bytes)
    requires ValidTree(root) && root.Dir?
    ensures Succeeds(fm, root, disk, [], [], []) <==>
      !DirFaulty(root, disk, [], root) && forall path :: LooksAt(fm, root, [], path) ==> !Faulty(fm, root, disk, path)
  {
    SucceedsBelow(fm, root, disk, [], root);
    assert Scopes(root, [], 0) == [] && Above(root, []) == [];
  }
}
