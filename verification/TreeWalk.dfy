/** walk_dir of src/treehash.c over a finite file system, and what its result does and does not depend on. */
module TreeWalk {
  import opened Bytes
  import opened Options
  import opened Gitignore
  import opened Merkle
  import opened Sha256Stream

  const MAX_DEPTH: nat := 256
  const PATH_MAX: nat := 4096
  const DOTGIT: bytes := [DOT, 103, 105, 116]
  const GITIGNORE: bytes := DOTGIT + [105, 103, 110, 111, 114, 101]

  /** st_dev and st_ino. */
  datatype Id = Id(dev: nat, ino: nat)

  /**
   * What lstat, opendir, readdir and open find. Of a .gitignore getline delivers so many bytes before the end of
   * the file, a read error or its own lack of memory, which the source does not tell apart. Children come in
   * readdir order; `listable` is false when readdir ends in an error. Special stands for symbolic links, devices,
   * pipes and sockets.
   */
  datatype Node =
    | File(content: bytes, readable: bool, delivered: nat)
    | Dir(id: Id, children: seq<Child>, openable: bool, listable: bool)
    | Special
    | Unreachable

  datatype Child = Child(name: bytes, node: Node)

  /** Lines 686-691: the three names walk_dir never looks at. */
  predicate Skipped(name: bytes) {
    name == [DOT] || name == [DOT, DOT] || name == DOTGIT
  }

  predicate DistinctNames(cs: seq<Child>) {
    forall i, j :: 0 <= i < j < |cs| ==> cs[i].name != cs[j].name
  }

  /** What every directory promises about the names in it. */
  predicate ValidTree(node: Node) {
    node.Dir? ==>
      && DistinctNames(node.children)
      && (forall i :: 0 <= i < |node.children| ==> ValidName(node.children[i].name))
      && (forall i :: 0 <= i < |node.children| ==> ValidTree(node.children[i].node))
  }

  function Find(cs: seq<Child>, name: bytes): Option<Node> {
    if cs == [] then None
    else if cs[0].name == name then Some(cs[0].node)
    else Find(cs[1..], name)
  }

  /** What load_gitignore reads of a file. */
  function Delivered(file: Node): bytes
    requires file.File?
  {
    if file.delivered < |file.content| then file.content[..file.delivered] else file.content
  }

  /** The rules a directory contributes: those of a regular file called .gitignore. */
  function OwnRules(dir: Node): seq<Spec> {
    if !dir.Dir? then [] else
    match Find(dir.children, GITIGNORE)
    case Some(File(content, readable, n)) => ParseRules(Delivered(File(content, readable, n)))
    case _ => []
  }

  predicate RulesReadable(dir: Node)
    requires dir.Dir?
  {
    match Find(dir.children, GITIGNORE)
    case Some(File(_, readable, _)) => readable
    case _ => true
  }

  predicate ChildSucceeds(fm: Fnmatch, c: Child, disk: bytes, comps: seq<bytes>, scopes: seq<seq<Spec>>, seen: seq<Id>)
    requires |scopes| == |comps| + 1
    decreases c, 0
  {
    var path := comps + [c.name];
    Skipped(c.name) || (
      && |disk| + 1 + |c.name| < PATH_MAX && |Join(path)| < PATH_MAX
      && match c.node
         case Unreachable => false
         case Special => true
         case Dir(_, _, _, _) =>
           ScopedVerdict(fm, scopes, path, true) || Succeeds(fm, c.node, disk + [SLASH] + c.name, path, scopes, seen)
         case File(_, readable, _) => ScopedVerdict(fm, scopes, path, false) || readable)
  }

  predicate AllSucceed(fm: Fnmatch, cs: seq<Child>, disk: bytes, comps: seq<bytes>, scopes: seq<seq<Spec>>,
                       seen: seq<Id>)
    requires |scopes| == |comps| + 1
    decreases cs, 0
  {
    forall i :: 0 <= i < |cs| ==> ChildSucceeds(fm, cs[i], disk, comps, scopes, seen)
  }

  /** Whether walk_dir returns 0 in the directory comps, below the directories seen. */
  predicate Succeeds(fm: Fnmatch, dir: Node, disk: bytes, comps: seq<bytes>, scopes: seq<seq<Spec>>, seen: seq<Id>)
    requires |scopes| == |comps|
    decreases dir, 1
  {
    && dir.Dir?
    && |comps| < MAX_DEPTH && dir.id !in seen && dir.openable
    && |disk| + 1 + |GITIGNORE| < PATH_MAX && RulesReadable(dir) && dir.listable
    && AllSucceed(fm, dir.children, disk, comps, scopes + [OwnRules(dir)], seen + [dir.id])
  }

  function ListChild(fm: Fnmatch, c: Child, comps: seq<bytes>, scopes: seq<seq<Spec>>): seq<Entry>
    requires |scopes| == |comps| + 1
    decreases c, 0
  {
    var path := comps + [c.name];
    if Skipped(c.name) then []
    else match c.node
      case Dir(_, _, _, _) => if ScopedVerdict(fm, scopes, path, true) then [] else Listing(fm, c.node, path, scopes)
      case File(content, _, _) =>
        if ScopedVerdict(fm, scopes, path, false) then [] else [Entry(Join(path), Hex(Sha256(content)))]
      case _ => []
  }

  function ListChildren(fm: Fnmatch, dir: Node, n: nat, comps: seq<bytes>, scopes: seq<seq<Spec>>): seq<Entry>
    requires dir.Dir? && n <= |dir.children| && |scopes| == |comps| + 1
    decreases dir, n
  {
    if n == 0 then []
    else ListChildren(fm, dir, n - 1, comps, scopes) + ListChild(fm, dir.children[n - 1], comps, scopes)
  }

  /** The entries walk_dir adds in a directory, in readdir order. */
  function Listing(fm: Fnmatch, dir: Node, comps: seq<bytes>, scopes: seq<seq<Spec>>): seq<Entry>
    requires |scopes| == |comps|
    decreases dir, |if dir.Dir? then dir.children else []| + 1
  {
    if dir.Dir? then ListChildren(fm, dir, |dir.children|, comps, scopes + [OwnRules(dir)]) else []
  }

  /** A regular file called .git is passed over like a directory of that name. */
  lemma {:induction false} GitFileIsSkipped(fm: Fnmatch, id: Id, content: bytes, disk: bytes)
    requires |disk| + 1 + |GITIGNORE| < PATH_MAX
    ensures var dir := Dir(id, [Child(DOTGIT, File(content, false, |content|))], true, true);
      Listing(fm, dir, [], []) == [] && Succeeds(fm, dir, disk, [], [], [])
  {
    var c := Child(DOTGIT, File(content, false, |content|));
    var dir := Dir(id, [c], true, true);
    assert Find(dir.children, GITIGNORE) == Find([], GITIGNORE) == None;
    assert ListChild(fm, c, [], [[]]) == [] && ListChildren(fm, dir, 0, [], [[]]) == [];
    assert ListChildren(fm, dir, 1, [], [[]]) == ListChildren(fm, dir, 0, [], [[]]) + ListChild(fm, c, [], [[]]);
    assert [] + [OwnRules(dir)] == [[]];
  }

  /** A .gitignore that cannot be read on is taken to end there: its rules are lost, and the walk goes on. */
  lemma RulesLostSilently(id: Id, content: bytes)
    ensures var dir := Dir(id, [Child(GITIGNORE, File(content, true, 0))], true, true);
      OwnRules(dir) == [] && RulesReadable(dir)
  {
    var c := Child(GITIGNORE, File(content, true, 0));
    assert Find([c], GITIGNORE) == Some(c.node);
    assert |content| > 0 ==> content[..0] == [];
  }

  /** A path of exactly 4096 bytes is refused already. */
  lemma {:induction false} LongPathIsRefused(fm: Fnmatch, c: Child, disk: bytes)
    requires !Skipped(c.name) && |disk| + 1 + |c.name| == 4096
    ensures !ChildSucceeds(fm, c, disk, [], [[]], [])
  {
  }

  lemma ChildPath(comps: seq<bytes>, name: bytes)
    requires ValidNames(comps)
    ensures Join(comps + [name]) == if Join(comps) == [] then name else Join(comps) + [SLASH] + name
  {
    if comps == [] {
      assert comps + [name] == [name];
    } else {
      JoinNonempty(comps);
      JoinOfConcat(comps, [name]);
    }
  }

  lemma {:induction false} EnterDirectory(scopes: seq<seq<Spec>>, own: seq<Spec>, comps: seq<bytes>)
    requires |scopes| == |comps|
    ensures Stack(scopes + [own], comps) == Stack(scopes, comps) + Tag(own, Join(comps), |comps|)
  {
    assert (scopes + [own])[..|scopes|] == scopes && comps[..|comps|] == comps;
  }

  /** pop_rules: the rules of the given depth come off the end. */
  function Popped(rules: seq<Rule>, depth: nat): seq<Rule> {
    if rules != [] && rules[|rules| - 1].depth == depth then Popped(rules[..|rules| - 1], depth) else rules
  }

  lemma {:induction false} PoppedTag(base: seq<Rule>, own: seq<Spec>, dirRel: bytes, d: nat)
    requires forall r | r in base :: r.depth < d
    ensures Popped(base + Tag(own, dirRel, d), d) == base
  {
    var rules := base + Tag(own, dirRel, d);
    if own == [] {
      assert rules == base;
    } else {
      var n := |own| - 1;
      PoppedTag(base, own[..n], dirRel, d);
      assert rules[..|rules| - 1] == base + Tag(own[..n], dirRel, d);
    }
  }

  /** pop_rules takes off exactly what the directory put on. */
  lemma {:induction false} LeaveDirectory(scopes: seq<seq<Spec>>, own: seq<Spec>, comps: seq<bytes>)
    requires |scopes| == |comps|
    ensures Popped(Stack(scopes + [own], comps), |comps|) == Stack(scopes, comps)
  {
    EnterDirectory(scopes, own, comps);
    PoppedTag(Stack(scopes, comps), own, Join(comps), |comps|);
  }

  class TreehashContext {
    var entries: seq<Entry>
    var rules: seq<Rule>
    const ancestors: array<Id>
    var ancestorCount: nat
    /** How the successive allocations turn out; beyond the end of the script memory suffices. */
    var mallocs: seq<bool>

    predicate Ample()
      reads `mallocs
    {
      false !in mallocs
    }

    method Alloc() returns (ok: bool)
      modifies `mallocs
      ensures old(Ample()) ==> ok && Ample()
    {
      ok := mallocs == [] || mallocs[0];
      mallocs := if mallocs == [] then [] else mallocs[1..];
    }

    /** What holds at every call of walk_dir for the directory comps. */
    ghost predicate At(comps: seq<bytes>, scopes: seq<seq<Spec>>, seen: seq<Id>, depth: nat)
      reads this, ancestors
    {
      && depth == |comps| == |scopes| == |seen| == ancestorCount <= MAX_DEPTH
      && ancestors.Length == MAX_DEPTH && ancestors[..ancestorCount] == seen
      && ValidNames(comps) && rules == Stack(scopes, comps)
    }

    constructor (mallocs: seq<bool>)
      ensures At([], [], [], 0) && entries == [] && fresh(ancestors) && this.mallocs == mallocs
    {
      this.mallocs := mallocs;
      entries, rules, ancestorCount := [], [], 0;
      ancestors := new Id[MAX_DEPTH](_ => Id(0, 0));
    }

    method LoadGitignore(file: Node, relDir: bytes, depth: nat) returns (status: int)
      requires file.File?
      modifies `rules, `mallocs
      ensures status == 0 || status == 2 || status == -1
      ensures status == 2 <==> !file.readable
      ensures old(Ample()) ==> Ample() && status != -1
      ensures status == 2 ==> rules == old(rules)
      ensures status == 0 ==> rules == old(rules) + Tag(ParseRules(Delivered(file)), relDir, depth)
    {
      hide ParseLine, LineLength;
      if !file.readable {
        return 2;
      }
      var all := Delivered(file);
      var rest := all;
      ghost var done: seq<Spec> := [];
      while rest != []
        invariant rules == old(rules) + Tag(done, relDir, depth)
        invariant done + ParseRules(rest) == ParseRules(all)
        invariant old(Ample()) ==> Ample()
        decreases |rest|
      {
        var n := LineLength(rest);
        var parsed := ParseLine(rest[..n]);
        if |parsed| == 1 {
          var ok := Alloc();
          if !ok {
            return -1;
          }
          rules := rules + [Rule(parsed[0], relDir, depth)];
        }
        done := done + parsed;
        rest := rest[n..];
      }
      assert done + [] == done;
      return 0;
    }

    method PopRules(depth: nat)
      modifies `rules
      ensures rules == Popped(old(rules), depth)
    {
      var i := |rules|;
      while i > 0 && rules[i - 1].depth == depth
        invariant i == |rules| && Popped(rules, depth) == Popped(old(rules), depth)
      {
        rules := rules[..|rules| - 1];
        i := i - 1;
      }
    }

    /** What holds while walk_dir reads the entries of the directory comps. */
    ghost predicate Inside(comps: seq<bytes>, scopes: seq<seq<Spec>>, seen: seq<Id>)
      reads this, ancestors
    {
      && |comps| + 1 == |scopes| == |seen| == ancestorCount <= MAX_DEPTH
      && ancestors.Length == MAX_DEPTH && ancestors[..ancestorCount] == seen
      && ValidNames(comps) && rules == Stack(scopes, comps)
    }

    /** Lines 685-766: one directory entry. */
    method VisitChild(fm: Fnmatch, c: Child, diskDir: bytes, relDir: bytes, depth: nat,
                      ghost comps: seq<bytes>, ghost scopes: seq<seq<Spec>>, ghost seen: seq<Id>)
      returns (status: int)
      requires Inside(comps, scopes, seen) && depth == |comps| && relDir == Join(comps)
      requires ValidName(c.name) && ValidTree(c.node)
      modifies this, ancestors
      ensures status == 0 || status == 2 || status == -1
      ensures old(Ample()) ==> Ample() && status != -1
      ensures status == 0 ==> ChildSucceeds(fm, c, diskDir, comps, scopes, seen)
      ensures old(Ample()) && ChildSucceeds(fm, c, diskDir, comps, scopes, seen) ==> status == 0
      ensures status != -1 ==> Inside(comps, scopes, seen)
      ensures status == 0 ==> entries == old(entries) + ListChild(fm, c, comps, scopes)
      ensures ancestorCount == old(ancestorCount)
      decreases c, 0
    {
      if Skipped(c.name) {
        return 0;
      }
      if |diskDir| + 1 + |c.name| >= PATH_MAX {
        return 2;
      }
      ghost var path := comps + [c.name];
      assert ValidNames(path);
      var childRel := if relDir == [] then c.name else relDir + [SLASH] + c.name;
      ChildPath(comps, c.name);
      if |childRel| >= PATH_MAX {
        return 2;
      }
      StackOfPrefix(scopes, comps, path);
      if c.node.Unreachable? {
        return 2;
      }
      if c.node.Special? {
        return 0;
      }
      StackVerdict(fm, scopes, path, c.node.Dir?);
      var ignored := IsPathIgnored(fm, rules, childRel, c.node.Dir?);
      if ignored {
        return 0;
      }
      if c.node.Dir? {
        status := WalkDir(fm, c.node, diskDir + [SLASH] + c.name, childRel, depth + 1, path, scopes, seen);
      } else {
        if !c.node.readable {
          return 2;
        }
        var ok := Alloc();
        if !ok {
          return 2;
        }
        entries := entries + [Entry(childRel, Hex(Sha256(c.node.content)))];
        return 0;
      }
    }

    /** Lines 683-779: the readdir loop; every exit from it pops the directory's rules. */
    method ReadEntries(fm: Fnmatch, dir: Node, diskDir: bytes, relDir: bytes, depth: nat,
                       ghost comps: seq<bytes>, ghost inner: seq<seq<Spec>>, ghost ids: seq<Id>)
      returns (status: int)
      requires Inside(comps, inner, ids) && depth == |comps| && relDir == Join(comps)
      requires dir.Dir? && ValidTree(dir)
      modifies this, ancestors
      ensures status == 0 || status == 2 || status == -1
      ensures old(Ample()) ==> Ample() && status != -1
      ensures status == 0 ==> dir.listable && AllSucceed(fm, dir.children, diskDir, comps, inner, ids)
      ensures old(Ample()) && dir.listable && AllSucceed(fm, dir.children, diskDir, comps, inner, ids) ==> status == 0
      ensures status != -1 ==> Inside(comps, inner, ids)
      ensures status == 0 ==> entries == old(entries) + ListChildren(fm, dir, |dir.children|, comps, inner)
      ensures ancestorCount == old(ancestorCount)
      decreases dir, 0
    {
      hide ChildSucceeds, ListChild, Stack;
      var i := 0;
      while i < |dir.children|
        invariant 0 <= i <= |dir.children|
        invariant Inside(comps, inner, ids)
        invariant forall j :: 0 <= j < i ==> ChildSucceeds(fm, dir.children[j], diskDir, comps, inner, ids)
        invariant entries == old(entries) + ListChildren(fm, dir, i, comps, inner)
        invariant ancestorCount == old(ancestorCount)
        invariant old(Ample()) ==> Ample()
      {
        var r := VisitChild(fm, dir.children[i], diskDir, relDir, depth, comps, inner, ids);
        if r != 0 {
          return r;
        }
        i := i + 1;
      }
      return if dir.listable then 0 else 2;
    }

    method WalkDir(fm: Fnmatch, dir: Node, diskDir: bytes, relDir: bytes, depth: nat,
                   ghost comps: seq<bytes>, ghost scopes: seq<seq<Spec>>, ghost seen: seq<Id>)
      returns (status: int)
      requires At(comps, scopes, seen, depth) && relDir == Join(comps) && ValidTree(dir)
      modifies this, ancestors
      ensures status == 0 || status == 2 || status == -1
      ensures old(Ample()) ==> Ample() && status != -1
      ensures status == 0 ==> Succeeds(fm, dir, diskDir, comps, scopes, seen)
      ensures old(Ample()) && Succeeds(fm, dir, diskDir, comps, scopes, seen) ==> status == 0
      ensures status != -1 ==> At(comps, scopes, seen, depth)
      ensures status == 0 ==> entries == old(entries) + Listing(fm, dir, comps, scopes)
      ensures ancestorCount == old(ancestorCount)
      decreases dir, 1
    {
      hide ChildSucceeds, ListChildren, Stack, ParseRules, Popped, Join, ValidTree;
      if depth >= MAX_DEPTH {
        return 2;
      }
      if !dir.Dir? {
        return 2;
      }
      for i := 0 to ancestorCount
        invariant dir.id !in seen[..i]
      {
        if ancestors[i] == dir.id {
          return 2;
        }
      }
      assert seen[..|seen|] == seen;
      ancestors[ancestorCount] := dir.id;
      ancestorCount := ancestorCount + 1;
      if !dir.openable {
        ancestorCount := ancestorCount - 1;
        return 2;
      }
      if |diskDir| + 1 + |GITIGNORE| >= PATH_MAX {
        ancestorCount := ancestorCount - 1;
        return 2;
      }
      var gitignore := Find(dir.children, GITIGNORE);
      if gitignore.Some? && gitignore.value.File? {
        var loaded := LoadGitignore(gitignore.value, relDir, depth);
        if loaded != 0 {
          ancestorCount := ancestorCount - 1;
          return loaded;
        }
      }
      ghost var inner, ids := scopes + [OwnRules(dir)], seen + [dir.id];
      EnterDirectory(scopes, OwnRules(dir), comps);
      status := ReadEntries(fm, dir, diskDir, relDir, depth, comps, inner, ids);
      PopRules(depth);
      if status != -1 {
        LeaveDirectory(scopes, OwnRules(dir), comps);
      }
      ancestorCount := ancestorCount - 1;
    }
  }
}
