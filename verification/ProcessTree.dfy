/**
 * scan_descendants and signal_tree of src/agentwatch.c: which of the processes found are descendants of the
 * command, and which of them get a signal.
 */
module ProcessTree {

  datatype Identity = Identity(pid: int, ppid: int, starttime: nat, connected: bool)

  /** Item path[0] is a child of path[1], that of path[2], and so on up to a child of root. */
  ghost predicate Chain(s: seq<Identity>, root: int, path: seq<nat>) {
    && path != [] && (forall k :: 0 <= k < |path| ==> path[k] < |s|)
    && s[path[|path| - 1]].ppid == root
    && forall k :: 0 < k < |path| ==> s[path[k - 1]].ppid == s[path[k]].pid
  }

  ghost predicate Descends(s: seq<Identity>, root: int, i: nat) {
    exists path :: Chain(s, root, path) && path[0] == i
  }

  lemma ChildDescends(s: seq<Identity>, root: int, i: nat)
    requires i < |s| && s[i].ppid == root
    ensures Descends(s, root, i)
  {
    assert Chain(s, root, [i]);
  }

  lemma ParentDescends(s: seq<Identity>, root: int, i: nat, j: nat)
    requires i < |s| && j < |s| && s[i].ppid == s[j].pid && Descends(s, root, j)
    ensures Descends(s, root, i)
  {
    var path :| Chain(s, root, path) && path[0] == j;
    assert Chain(s, root, [i] + path);
  }

  /** Nothing more can be marked. */
  predicate Closed(s: seq<Identity>, root: int, marked: set<nat>) {
    forall i: nat :: i < |s| && (s[i].ppid == root || exists j: nat :: j < |s| && j in marked && s[i].ppid == s[j].pid)
      ==> i in marked
  }

  lemma {:induction false} ChainIsMarked(s: seq<Identity>, root: int, marked: set<nat>, path: seq<nat>)
    requires Closed(s, root, marked) && Chain(s, root, path)
    ensures path[0] in marked
    decreases |path|
  {
    if |path| > 1 {
      assert s[path[0]].ppid == s[path[1]].pid;
      forall k | 0 < k < |path[1..]|
        ensures s[path[1..][k - 1]].ppid == s[path[1..][k]].pid
      {
        assert s[path[k]].ppid == s[path[k + 1]].pid;
      }
      ChainIsMarked(s, root, marked, path[1..]);
    }
  }

  /** The descendants are the least set of items closed under taking children of the root and of members. */
  lemma DescendantsAreLeast(s: seq<Identity>, root: int, marked: set<nat>)
    requires Closed(s, root, marked)
    ensures forall i: nat :: Descends(s, root, i) ==> i in marked
    ensures Closed(s, root, set i: nat | i < |s| && Descends(s, root, i))
  {
    forall i: nat | Descends(s, root, i)
      ensures i in marked
    {
      var path :| Chain(s, root, path) && path[0] == i;
      ChainIsMarked(s, root, marked, path);
    }
    hide Descends;
    var all := set i: nat | i < |s| && Descends(s, root, i);
    forall i: nat | i < |s| && (s[i].ppid == root || exists j: nat :: j < |s| && j in all && s[i].ppid == s[j].pid)
      ensures i in all
    {
      if s[i].ppid == root {
        ChildDescends(s, root, i);
      } else {
        var j: nat :| j < |s| && j in all && s[i].ppid == s[j].pid;
        ParentDescends(s, root, i, j);
      }
    }
  }

  /** Items differ from those read only in the mark, and only descendants are marked. */
  ghost predicate Marking(now: seq<Identity>, s: seq<Identity>, root: int) {
    && |now| == |s|
    && (forall i :: 0 <= i < |s| ==> now[i] == s[i].(connected := now[i].connected))
    && forall i: nat :: i < |s| && now[i].connected ==> Descends(s, root, i)
  }

  /** No rule marks item i. */
  predicate Settled(now: seq<Identity>, root: int, i: nat)
    requires i < |now|
  {
    now[i].connected
    || (now[i].ppid != root && forall j :: 0 <= j < |now| && now[j].connected ==> now[i].ppid != now[j].pid)
  }

  /** At rest, the marks are exactly the descendants. */
  lemma SettledIsComplete(now: seq<Identity>, s: seq<Identity>, root: int)
    requires Marking(now, s, root) && forall i :: 0 <= i < |now| ==> Settled(now, root, i)
    ensures forall i: nat :: i < |s| ==> now[i] == s[i].(connected := Descends(s, root, i))
  {
    hide Descends;
    var marked := set i: nat | i < |s| && now[i].connected;
    forall i: nat | i < |s| && (s[i].ppid == root || exists j: nat :: j < |s| && j in marked && s[i].ppid == s[j].pid)
      ensures i in marked
    {
      assert Settled(now, root, i);
    }
    DescendantsAreLeast(s, root, marked);
  }

  /** How many items are not marked: what the repeated passes use up. */
  function Unmarked(s: seq<Identity>): nat {
    if s == [] then 0 else (if s[0].connected then 0 else 1) + Unmarked(s[1..])
  }

  lemma {:induction false} MarkUsesUp(s: seq<Identity>, i: nat)
    requires i < |s| && !s[i].connected
    ensures Unmarked(s[i := s[i].(connected := true)]) == Unmarked(s) - 1
  {
    var t := s[i := s[i].(connected := true)];
    if i == 0 {
      assert t[1..] == s[1..];
    } else {
      MarkUsesUp(s[1..], i - 1);
      assert t[1..] == s[1..][i - 1 := s[1..][i - 1].(connected := true)];
    }
  }

  lemma MarkKeeps(now: seq<Identity>, s: seq<Identity>, root: int, i: nat)
    requires Marking(now, s, root) && i < |now| && Descends(s, root, i) && !now[i].connected
    ensures Marking(now[i := now[i].(connected := true)], s, root)
    ensures Unmarked(now[i := now[i].(connected := true)]) < Unmarked(now)
  {
    hide Descends;
    MarkUsesUp(now, i);
  }

  /** The search for a marked parent. */
  method HasMarkedParent(items: array<Identity>, count: nat, i: nat) returns (found: bool, parent: nat)
    requires i < count <= items.Length
    ensures found ==> parent < count && items[parent].connected && items[i].ppid == items[parent].pid
    ensures !found ==> forall j :: 0 <= j < count && items[j].connected ==> items[i].ppid != items[j].pid
  {
    for j := 0 to count
      invariant forall m :: 0 <= m < j && items[m].connected ==> items[i].ppid != items[m].pid
    {
      if items[j].connected && items[i].ppid == items[j].pid {
        return true, j;
      }
    }
    found, parent := false, 0;
  }

  /** One pass over the items, marking in place. */
  method MarkPass(root: int, items: array<Identity>, count: nat, ghost s: seq<Identity>) returns (changed: bool)
    requires count <= items.Length && Marking(items[..count], s, root)
    modifies items
    ensures Marking(items[..count], s, root) && items[count..] == old(items[count..])
    ensures changed ==> Unmarked(items[..count]) < old(Unmarked(items[..count]))
    ensures !changed ==> items[..count] == old(items[..count])
    ensures !changed ==> forall i: nat :: i < count ==> Settled(items[..count], root, i)
  {
    hide Descends, Unmarked;
    changed := false;
    for i := 0 to count
      invariant Marking(items[..count], s, root) && items[count..] == old(items[count..])
      invariant changed ==> Unmarked(items[..count]) < old(Unmarked(items[..count]))
      invariant !changed ==> items[..count] == old(items[..count])
      invariant !changed ==> forall j: nat :: j < i ==> Settled(items[..count], root, j)
    {
      ghost var now := items[..count];
      assert now[i] == items[i];
      if items[i].connected {
        continue;
      }
      var mark := items[i].ppid == root;
      if mark {
        ChildDescends(s, root, i);
      } else {
        var found, parent := HasMarkedParent(items, count, i);
        mark := found;
        if found {
          assert now[parent] == items[parent];
          ParentDescends(s, root, i, parent);
        } else {
          assert forall j :: 0 <= j < count ==> now[j] == items[j];
          assert Settled(now, root, i);
        }
      }
      if mark {
        MarkKeeps(now, s, root, i);
        items[i] := items[i].(connected := true);
        assert items[..count] == now[i := now[i].(connected := true)];
        changed := true;
      }
    }
  }

  /**
   * The repeat-until-stable loop of scan_descendants. It ends, for any parent links, and leaves exactly the
   * descendants of the root marked.
   */
  method MarkDescendants(root: int, items: array<Identity>, count: nat)
    requires count <= items.Length && forall i :: 0 <= i < count ==> !items[i].connected
    modifies items
    ensures items[count..] == old(items[count..])
    ensures forall i: nat :: i < count ==>
      items[i] == old(items[i]).(connected := Descends(old(items[..count]), root, i))
  {
    hide Descends, Unmarked, Settled;
    ghost var s := items[..count];
    var changed := true;
    while changed
      invariant Marking(items[..count], s, root) && items[count..] == old(items[count..])
      invariant !changed ==> forall i: nat :: i < count ==> Settled(items[..count], root, i)
      decreases Unmarked(items[..count]), if changed then 1 else 0
    {
      changed := MarkPass(root, items, count, s);
    }
    SettledIsComplete(items[..count], s, root);
    forall i: nat | i < count
      ensures items[i] == old(items[i]).(connected := Descends(old(items[..count]), root, i))
    {
      assert items[i] == items[..count][i] && s[i] == old(items[i]);
    }
  }

  const PROC_ENTRY_LIMIT: nat := 65536
  const IDENTITY_LIMIT: nat := 4096

  /** A name in /proc: not a number, no process number, or a process as reading its record finds it. */
  datatype ProcEntry = Other | OutOfRange | Process(id: Identity) | Exited | Illegible

  /**
   * What opendir and readdir give. `breaks` says that errno is set when the entries end: by readdir, or left
   * over from reading the last record, which the source does not tell apart.
   */
  datatype Proc = Proc(opens: bool, entries: seq<ProcEntry>, breaks: bool)

  /** How far the scan has come; `full` when it has met one of its limits. */
  datatype Scan = Scan(items: seq<Identity>, inspected: nat, uncertain: bool, full: bool)

  function ScanEntry(c: Scan, e: ProcEntry): Scan {
    if c.full || e == Other then c
    else if c.inspected == PROC_ENTRY_LIMIT then c.(uncertain := true, full := true)
    else
      var d := c.(inspected := c.inspected + 1);
      if e == OutOfRange then d
      else if |c.items| == IDENTITY_LIMIT then d.(uncertain := true, full := true)
      else match e
        case Process(id) => d.(items := c.items + [id.(connected := false)])
        case Illegible => d.(uncertain := true)
        case _ => d
  }

  function ScanEntries(entries: seq<ProcEntry>): (c: Scan)
    ensures |c.items| <= IDENTITY_LIMIT && c.inspected <= PROC_ENTRY_LIMIT
    ensures forall i :: 0 <= i < |c.items| ==> !c.items[i].connected
  {
    if entries == [] then Scan([], 0, false, false)
    else ScanEntry(ScanEntries(entries[..|entries| - 1]), entries[|entries| - 1])
  }

  /** What signal_tree gets to see of the processes. */
  function Seen(proc: Proc): seq<Identity> {
    if proc.opens then ScanEntries(proc.entries).items else []
  }

  predicate ScanUncertain(proc: Proc) {
    || !proc.opens
    || (proc.breaks && !ScanEntries(proc.entries).full)
    || ScanEntries(proc.entries).uncertain
  }

  function Processes(entries: seq<ProcEntry>): seq<Identity> {
    if entries == [] then []
    else
      var e := entries[|entries| - 1];
      Processes(entries[..|entries| - 1]) + if e.Process? then [e.id.(connected := false)] else []
  }

  function Numbered(entries: seq<ProcEntry>): nat {
    if entries == [] then 0
    else Numbered(entries[..|entries| - 1]) + if entries[|entries| - 1] == Other then 0 else 1
  }

  /**
   * The scan never misses a process silently: what it sees is a first part of all processes, and all of them
   * unless it says that it is uncertain. It does so for an illegible record or a limit, and for nothing else.
   */
  lemma {:induction false} ScanIsHonest(entries: seq<ProcEntry>)
    ensures ScanEntries(entries).items <= Processes(entries)
    ensures !ScanEntries(entries).full ==>
      ScanEntries(entries).items == Processes(entries) && ScanEntries(entries).inspected == Numbered(entries)
    ensures ScanEntries(entries).full ==> ScanEntries(entries).uncertain
    ensures !ScanEntries(entries).full ==> (ScanEntries(entries).uncertain <==> Illegible in entries)
    ensures Numbered(entries) <= PROC_ENTRY_LIMIT && |Processes(entries)| < IDENTITY_LIMIT ==>
      !ScanEntries(entries).full
  {
    if entries != [] {
      var n := |entries| - 1;
      assert entries == entries[..n] + [entries[n]];
      ScanIsHonest(entries[..n]);
    }
  }

  lemma {:induction false} StaysFull(entries: seq<ProcEntry>, k: nat)
    requires k <= |entries| && ScanEntries(entries[..k]).full
    ensures ScanEntries(entries) == ScanEntries(entries[..k])
    decreases |entries| - k
  {
    if k == |entries| {
      assert entries[..k] == entries;
    } else {
      assert entries[..k + 1][..k] == entries[..k];
      StaysFull(entries, k + 1);
    }
  }

  /** The loop over /proc, filling the array. */
  method ScanProcesses(proc: Proc, items: array<Identity>) returns (count: nat, uncertain: bool)
    requires items.Length == IDENTITY_LIMIT
    modifies items
    ensures count <= items.Length && items[..count] == Seen(proc)
    ensures uncertain <==> ScanUncertain(proc)
  {
    count, uncertain := 0, false;
    if !proc.opens {
      return 0, true;
    }
    var inspected, k, full := 0, 0, false;
    while k < |proc.entries| && !full
      invariant k <= |proc.entries| && count <= items.Length
      invariant ScanEntries(proc.entries[..k]) == Scan(items[..count], inspected, uncertain, full)
    {
      var e := proc.entries[k];
      assert proc.entries[..k + 1][..k] == proc.entries[..k];
      k := k + 1;
      if e == Other {
        continue;
      }
      if inspected == PROC_ENTRY_LIMIT {
        uncertain, full := true, true;
        break;
      }
      inspected := inspected + 1;
      if e == OutOfRange {
        continue;
      }
      if count == IDENTITY_LIMIT {
        uncertain, full := true, true;
        break;
      }
      if e.Process? {
        items[count] := e.id.(connected := false);
        count := count + 1;
      } else if e == Illegible {
        uncertain := true;
      }
    }
    if full {
      StaysFull(proc.entries, k);
    }
    assert proc.entries[..|proc.entries|] == proc.entries;
    if !full && proc.breaks {
      uncertain := true;
    }
  }

  /** Reading a process again just before it is signalled, and what became of the signal. */
  datatype Reread = Gone | Unreadable | Found(starttime: nat)
  datatype Kill = Sent | Vanished | Refused

  /** A descendant other than the supervisor and the command itself. */
  ghost predicate Candidate(s: seq<Identity>, root: int, self: int, i: nat) {
    i < |s| && Descends(s, root, i) && s[i].pid != self && s[i].pid != root
  }

  /** A candidate that is still the process that was found. */
  ghost predicate Target(s: seq<Identity>, root: int, self: int, reread: nat -> Reread, i: nat) {
    Candidate(s, root, self, i) && reread(i) == Found(s[i].starttime)
  }

  /** Some signalled item could not be signalled. */
  predicate SomeRefused(signalled: seq<nat>, kill: nat -> Kill) {
    exists i :: i in signalled && kill(i) == Refused
  }

  /** Among the first n items is a candidate that could not be read again. */
  ghost predicate SomeUnread(s: seq<Identity>, root: int, self: int, reread: nat -> Reread, n: nat) {
    exists i: nat :: i < n && Candidate(s, root, self, i) && reread(i) == Unreadable
  }

  lemma SeenUnmarked(proc: Proc)
    ensures forall i :: 0 <= i < |Seen(proc)| ==> !Seen(proc)[i].connected
  {
  }

  lemma NoneSignalled(kill: nat -> Kill)
    ensures !SomeRefused([], kill)
  {
  }

  lemma OneMore(s: seq<Identity>, root: int, self: int, reread: nat -> Reread, n: nat)
    ensures SomeUnread(s, root, self, reread, n + 1)
      <==> SomeUnread(s, root, self, reread, n) || (Candidate(s, root, self, n) && reread(n) == Unreadable)
  {
  }

  lemma OneMoreSignalled(signalled: seq<nat>, kill: nat -> Kill, i: nat)
    ensures SomeRefused(signalled + [i], kill) <==> SomeRefused(signalled, kill) || kill(i) == Refused
    ensures forall j: nat :: j in signalled + [i] <==> j in signalled || j == i
  {
    assert i in signalled + [i];
    if SomeRefused(signalled, kill) {
      var j :| j in signalled && kill(j) == Refused;
      assert j in signalled + [i];
    }
  }

  /**
   * signal_tree. The group of the command is signalled as a whole; beyond that, each target once and nothing
   * else. Item i is reread as reread(i), and signalling it comes to kill(i).
   */
  method SignalTree(root: int, self: int, group: int, callocOk: bool, proc: Proc,
                    groupKill: Kill, reread: nat -> Reread, kill: nat -> Kill)
    returns (ok: bool, uncertain: bool, signalled: seq<nat>)
    ensures !callocOk ==> !ok && uncertain && signalled == []
    ensures forall m, n :: 0 <= m < n < |signalled| ==> signalled[m] < signalled[n]
    ensures callocOk ==> forall i: nat :: i in signalled <==> Target(Seen(proc), root, self, reread, i)
    ensures callocOk ==>
      (!ok <==> (root > 1 && root != group && groupKill == Refused) || SomeRefused(signalled, kill))
    ensures callocOk ==>
      (uncertain <==> ScanUncertain(proc) || SomeUnread(Seen(proc), root, self, reread, |Seen(proc)|))
  {
    hide Descends, SomeRefused, ScanEntries, ScanUncertain, Seen;
    signalled := [];
    if !callocOk {
      return false, true, signalled;
    }
    var items := new Identity[IDENTITY_LIMIT](_ => Identity(0, 0, 0, false));
    var count, scanUncertain := ScanProcesses(proc, items);
    ghost var s := items[..count];
    SeenUnmarked(proc);
    assert forall i :: 0 <= i < count ==> items[i] == s[i];
    MarkDescendants(root, items, count);
    ok := !(root > 1 && root != group && groupKill == Refused);
    uncertain := scanUncertain;
    NoneSignalled(kill);
    for i := 0 to count
      invariant forall j: nat :: j < count ==> items[j] == s[j].(connected := Descends(s, root, j))
      invariant forall m, n :: 0 <= m < n < |signalled| ==> signalled[m] < signalled[n]
      invariant forall m :: 0 <= m < |signalled| ==> signalled[m] < i
      invariant forall j: nat :: j in signalled <==> j < i && Target(s, root, self, reread, j)
      invariant !ok <==> (root > 1 && root != group && groupKill == Refused) || SomeRefused(signalled, kill)
      invariant uncertain <==> scanUncertain || SomeUnread(s, root, self, reread, i)
    {
      OneMore(s, root, self, reread, i);
      hide SomeUnread;
      if !items[i].connected || items[i].pid == self || items[i].pid == root {
        continue;
      }
      assert Candidate(s, root, self, i);
      if reread(i) == Found(items[i].starttime) {
        if kill(i) == Refused {
          ok := false;
        }
        OneMoreSignalled(signalled, kill, i);
        signalled := signalled + [i];
      } else if reread(i) == Unreadable {
        uncertain := true;
      }
    }
  }

  /** Entry k is one too many: of the numbered names, or of the processes to be read. */
  predicate OneTooMany(entries: seq<ProcEntry>, k: nat) {
    k < |entries| && entries[k] != Other
    && (Numbered(entries[..k]) == PROC_ENTRY_LIMIT
        || (entries[k] != OutOfRange && |Processes(entries[..k])| == IDENTITY_LIMIT))
  }

  lemma {:induction false} LastEntry(entries: seq<ProcEntry>)
    requires entries != []
    ensures ScanEntries(entries) == ScanEntry(ScanEntries(entries[..|entries| - 1]), entries[|entries| - 1])
  {
  }

  lemma {:induction false} FullExactly(entries: seq<ProcEntry>)
    ensures ScanEntries(entries).full <==> exists k: nat :: OneTooMany(entries, k)
  {
    if entries != [] {
      var n := |entries| - 1;
      FullExactly(entries[..n]);
      ScanIsHonest(entries[..n]);
      hide Numbered, Processes;
      assert forall k :: 0 <= k < n ==> entries[..n][..k] == entries[..k];
      assert forall k: nat :: k < n ==> (OneTooMany(entries, k) <==> OneTooMany(entries[..n], k));
      hide ScanEntries;
      assert ScanEntries(entries) == ScanEntry(ScanEntries(entries[..n]), entries[n]) by { LastEntry(entries); }
      if ScanEntries(entries[..n]).full {
        var k: nat :| OneTooMany(entries[..n], k);
        assert OneTooMany(entries, k);
      } else {
        assert ScanEntries(entries).full <==> OneTooMany(entries, n);
        if k: nat :| OneTooMany(entries, k) {
          assert k < n ==> OneTooMany(entries[..n], k);
        }
      }
    }
  }

  /** When a scan is uncertain: /proc does not open or breaks off, a limit is met, or a record is illegible. */
  lemma UncertainExactly(proc: Proc)
    ensures ScanUncertain(proc) <==>
      || !proc.opens || proc.breaks || (exists k: nat :: OneTooMany(proc.entries, k))
      || Illegible in proc.entries
  {
    ScanIsHonest(proc.entries);
    FullExactly(proc.entries);
    hide ScanEntries;
  }
}
