/**
 * The open-addressing indexes of src/pathaudit.c. winners_* and shadows_* are the same code over two
 * kinds of entry, so there is one class here, with the key, the rest of the entry and the hash open.
 */
module ProbeTable {
  import opened Bytes
  import opened Options

  datatype Item<K, V> = Item(key: K, value: V)

  /** The value of an empty slot. */
  const EMPTY: nat := SIZE_MAX
  const SIZEOF_SIZE_T: nat := 8

  /** (slot) & mask for a slot number below twice the capacity. */
  function Wrap(slot: nat, cap: nat): nat
    requires slot < 2 * cap
  {
    if slot < cap then slot else slot - cap
  }

  /** hash & mask, the capacity being a power of two. */
  function Home<K>(hash: K -> nat, key: K, cap: nat): (slot: nat)
    requires cap > 0
    ensures slot < cap
  {
    hash(key) % cap
  }

  /** The slot d steps down the probe run of a key. */
  function Probe<K>(hash: K -> nat, key: K, d: nat, cap: nat): (slot: nat)
    requires d < cap
    ensures slot < cap
  {
    Wrap(Home(hash, key, cap) + d, cap)
  }

  /**
   * The slots index the items: item i sits dist[i] steps down its own probe run, behind items that came
   * before it, and a slot that is not empty holds an item that sits there.
   */
  ghost predicate Indexed<K, V>(hash: K -> nat, slots: seq<nat>, items: seq<Item<K, V>>, dist: seq<nat>) {
    var cap := |slots|;
    && |dist| == |items| < EMPTY
    && (forall i :: 0 <= i < |items| ==> dist[i] < cap && slots[Probe(hash, items[i].key, dist[i], cap)] == i)
    && (forall s :: 0 <= s < cap && slots[s] != EMPTY ==>
          slots[s] < |items| && Probe(hash, items[slots[s]].key, dist[slots[s]], cap) == s)
    && (forall i, d :: 0 <= i < |items| && 0 <= d < dist[i] ==>
          slots[Probe(hash, items[i].key, d, cap)] < i)
  }

  ghost predicate Matches<K, V>(item: Item<K, V>, key: K, accept: V -> bool) {
    item.key == key && accept(item.value)
  }

  /** What a scan of the items from the front would return. */
  ghost predicate FirstMatch<K, V>(items: seq<Item<K, V>>, key: K, accept: V -> bool, r: Option<nat>) {
    match r
    case None => forall i :: 0 <= i < |items| ==> !Matches(items[i], key, accept)
    case Some(i) =>
      && i < |items| && Matches(items[i], key, accept)
      && forall j :: 0 <= j < i ==> !Matches(items[j], key, accept)
  }

  lemma {:induction false} Pigeonhole(s: seq<nat>, n: nat)
    requires |s| > n && forall i :: 0 <= i < |s| ==> s[i] < n
    ensures exists i, j :: 0 <= i < j < |s| && s[i] == s[j]
    decreases n
  {
    assert s[0] < n;
    if n > 0 {
      if i, j :| 0 <= i < j < |s| && s[i] == s[j] == n - 1 {
      } else if i :| 0 <= i < |s| && s[i] == n - 1 {
        var t := s[..i] + s[i + 1..];
        Pigeonhole(t, n - 1);
        var a, b :| 0 <= a < b < |t| && t[a] == t[b];
        var a', b' := if a < i then a else a + 1, if b < i then b else b + 1;
        assert t[a] == s[a'] && t[b] == s[b'];
      } else {
        Pigeonhole(s[1..], n - 1);
        var a, b :| 0 <= a < b < |s[1..]| && s[1..][a] == s[1..][b];
        assert s[a + 1] == s[b + 1];
      }
    }
  }

  /** Fewer items than slots leave an empty slot, so a probe run ends. */
  lemma EmptySlot<K, V>(hash: K -> nat, slots: seq<nat>, items: seq<Item<K, V>>, dist: seq<nat>) returns (s: nat)
    requires Indexed(hash, slots, items, dist) && |items| < |slots|
    ensures s < |slots| && slots[s] == EMPTY
  {
    assert exists s :: 0 <= s < |slots| && slots[s] >= |items| by {
      if forall s :: 0 <= s < |slots| ==> slots[s] < |items| {
        Pigeonhole(slots, |items|);
      }
    }
    s :| 0 <= s < |slots| && slots[s] >= |items|;
  }

  lemma ProbeNext<K>(hash: K -> nat, key: K, d: nat, cap: nat)
    requires d + 1 < cap
    ensures Wrap(Probe(hash, key, d, cap) + 1, cap) == Probe(hash, key, d + 1, cap)
  {
  }

  lemma ProbeHome<K>(hash: K -> nat, key: K, cap: nat)
    requires cap > 0
    ensures Probe(hash, key, 0, cap) == Home(hash, key, cap)
  {
  }

  /** How far down its run a key meets a given slot. */
  function DistanceTo(home: nat, slot: nat, cap: nat): (d: nat)
    requires home < cap && slot < cap
    ensures d < cap && Wrap(home + d, cap) == slot
  {
    if home <= slot then slot - home else slot + cap - home
  }

  /** A step count at which the run of a key is at an empty slot. */
  lemma RunEnds<K, V>(hash: K -> nat, slots: seq<nat>, items: seq<Item<K, V>>, dist: seq<nat>, key: K) returns (d: nat)
    requires Indexed(hash, slots, items, dist) && |items| < |slots|
    ensures d < |slots| && slots[Probe(hash, key, d, |slots|)] == EMPTY
  {
    var free := EmptySlot(hash, slots, items, dist);
    d := DistanceTo(Home(hash, key, |slots|), free, |slots|);
  }

  lemma SlotHolds<K, V>(hash: K -> nat, slots: seq<nat>, items: seq<Item<K, V>>, dist: seq<nat>, s: nat)
    requires Indexed(hash, slots, items, dist) && s < |slots| && slots[s] != EMPTY
    ensures slots[s] < |items|
  {
  }

  /** The first d slots of a run are taken. */
  ghost predicate Occupied<K>(hash: K -> nat, slots: seq<nat>, key: K, d: nat)
    requires d <= |slots|
  {
    forall e :: 0 <= e < d ==> slots[Probe(hash, key, e, |slots|)] != EMPTY
  }

  /** The first d slots of a run hold items that do not match. */
  ghost predicate Passed<K, V>(hash: K -> nat, slots: seq<nat>, items: seq<Item<K, V>>, key: K, accept: V -> bool,
                               d: nat)
    requires d <= |slots|
  {
    forall e :: 0 <= e < d ==>
      var i := slots[Probe(hash, key, e, |slots|)]; i < |items| && !Matches(items[i], key, accept)
  }

  /** Putting one more item in the first empty slot of its run. */
  lemma InsertIndexed<K, V>(hash: K -> nat, slots: seq<nat>, items: seq<Item<K, V>>, dist: seq<nat>,
                            item: Item<K, V>, d: nat)
    requires Indexed(hash, slots, items, dist) && |items| + 1 < EMPTY && d < |slots|
    requires slots[Probe(hash, item.key, d, |slots|)] == EMPTY
    requires Occupied(hash, slots, item.key, d)
    ensures Indexed(hash, slots[Probe(hash, item.key, d, |slots|) := |items|], items + [item], dist + [d])
  {
    hide Wrap, Home;
  }

  /** Lines 530-535. */
  method DoubleUntilHalfEmpty(start: nat, n: nat) returns (cap: Option<nat>)
    requires PowerOfTwo(start)
    ensures cap.Some? ==> PowerOfTwo(cap.value) && cap.value / 2 >= n && start <= cap.value <= start + 4 * n
    ensures start + 4 * n <= SIZE_MAX / 2 ==> cap.Some?
    ensures cap.Some? && start <= SIZE_MAX ==> cap.value <= SIZE_MAX
  {
    var c := start;
    while c / 2 < n
      invariant PowerOfTwo(c) && start <= c <= start + 4 * n
      invariant start <= SIZE_MAX ==> c <= SIZE_MAX
      decreases 2 * n + 1 - c
    {
      if c > SIZE_MAX / 2 {
        return None;
      }
      c := c * 2;
    }
    return Some(c);
  }

  lemma MatchesMeans<K, V>(item: Item<K, V>, key: K, accept: V -> bool)
    ensures Matches(item, key, accept) <==> item.key == key && accept(item.value)
  {
  }

  /** One more slot down the run. */
  lemma PassOne<K, V>(hash: K -> nat, slots: seq<nat>, items: seq<Item<K, V>>, key: K, accept: V -> bool, d: nat)
    requires d + 1 < |slots| && Passed(hash, slots, items, key, accept, d)
    requires var i := slots[Probe(hash, key, d, |slots|)];
      i < |items| && !(items[i].key == key && accept(items[i].value))
    ensures Passed(hash, slots, items, key, accept, d + 1)
    ensures Wrap(Probe(hash, key, d, |slots|) + 1, |slots|) == Probe(hash, key, d + 1, |slots|)
  {
    ProbeNext(hash, key, d, |slots|);
    hide Probe, Wrap;
  }

  /** A run that ends without a match passes every item with the key. */
  lemma NotBefore<K, V>(hash: K -> nat, slots: seq<nat>, items: seq<Item<K, V>>, dist: seq<nat>,
                            key: K, accept: V -> bool, d: nat)
    requires Indexed(hash, slots, items, dist) && d < |slots|
    requires slots[Probe(hash, key, d, |slots|)] == EMPTY
    requires Passed(hash, slots, items, key, accept, d)
    ensures FirstMatch(items, key, accept, None)
  {
    hide Wrap, Home;
    forall i | 0 <= i < |items|
      ensures !Matches(items[i], key, accept)
    {
      if items[i].key == key {
        assert dist[i] <= d;
      }
    }
  }

  /** The first match in probe order is the first match in item order. */
  lemma FoundFirst<K, V>(hash: K -> nat, slots: seq<nat>, items: seq<Item<K, V>>, dist: seq<nat>,
                             key: K, accept: V -> bool, d: nat)
    requires Indexed(hash, slots, items, dist) && d < |slots|
    requires var i := slots[Probe(hash, key, d, |slots|)]; i < |items| && Matches(items[i], key, accept)
    requires Passed(hash, slots, items, key, accept, d)
    ensures FirstMatch(items, key, accept, Some(slots[Probe(hash, key, d, |slots|)]))
  {
    hide Wrap, Home;
    var i := slots[Probe(hash, key, d, |slots|)];
    forall j | 0 <= j < i
      ensures !Matches(items[j], key, accept)
    {
      if items[j].key == key {
        assert dist[j] != d;
      }
    }
  }

  class Table<K(==), V> {
    const hash: K -> nat
    /** SIZE_MAX / sizeof(items[0]). */
    const maxItems: nat
    var items: seq<Item<K, V>>
    var cap: nat
    var slots: array<nat>
    var indexCap: nat
    ghost var dist: seq<nat>

    ghost predicate Valid()
      reads this, slots
    {
      && slots.Length == indexCap && 2 * |items| <= indexCap
      && (indexCap != 0 ==> PowerOfTwo(indexCap)) && |items| <= cap <= maxItems <= SIZE_MAX / SIZEOF_SIZE_T
      && Indexed(hash, slots[..], items, dist)
    }

    constructor (hash: K -> nat, maxItems: nat)
      requires maxItems <= SIZE_MAX / SIZEOF_SIZE_T
      ensures Valid() && items == [] && fresh(slots) && this.hash == hash && this.maxItems == maxItems
    {
      this.hash, this.maxItems, items, cap, indexCap, dist := hash, maxItems, [], 0, 0, [];
      slots := new nat[0];
    }

    /** The probe loops of lines 496-499 and 539-543: the first empty slot of a run. */
    method FirstEmpty(target: array<nat>, key: K, ghost far: nat) returns (slot: nat, ghost d: nat)
      requires far < target.Length && target[Probe(hash, key, far, target.Length)] == EMPTY
      ensures d < target.Length && slot == Probe(hash, key, d, target.Length) && target[slot] == EMPTY
      ensures Occupied(hash, target[..], key, d)
    {
      var length := target.Length;
      ProbeHome(hash, key, length);
      hide Wrap, Home, Probe;
      slot, d := Home(hash, key, length), 0;
      while target[slot] != EMPTY
        invariant d <= far && slot == Probe(hash, key, d, length)
        invariant Occupied(hash, target[..], key, d)
        decreases far - d
      {
        ProbeNext(hash, key, d, length);
        slot := Wrap(slot + 1, length);
        d := d + 1;
      }
    }

    /** Item n goes to the first empty slot of its run. */
    method Insert(target: array<nat>, n: nat, ghost d0: seq<nat>) returns (ghost d: nat)
      requires n < |items| && n + 1 < EMPTY && n < target.Length
      requires Indexed(hash, target[..], items[..n], d0)
      modifies target
      ensures Indexed(hash, target[..], items[..n + 1], d0 + [d])
    {
      hide Indexed, Probe, Occupied;
      ghost var before := target[..];
      ghost var far := RunEnds(hash, before, items[..n], d0, items[n].key);
      var slot;
      slot, d := FirstEmpty(target, items[n].key, far);
      InsertIndexed(hash, before, items[..n], d0, items[n], d);
      assert items[..n] + [items[n]] == items[..n + 1];
      target[slot] := n;
      assert target[..] == before[slot := n];
    }

    /** winners_index_rehash: `mallocOk` tells whether the allocation succeeds. */
    method Rehash(newCap: nat, mallocOk: bool) returns (ok: bool)
      requires |items| < newCap && |items| < EMPTY
      modifies `slots, `indexCap, `dist
      ensures ok ==> fresh(slots) && indexCap == newCap == slots.Length && PowerOfTwo(newCap)
      ensures ok ==> Indexed(hash, slots[..], items, dist)
      ensures !ok ==> slots == old(slots) && indexCap == old(indexCap) && dist == old(dist)
      ensures ok <==> PowerOfTwo(newCap) && newCap <= SIZE_MAX / SIZEOF_SIZE_T && mallocOk
    {
      if newCap == 0 || !PowerOfTwo(newCap) || newCap > SIZE_MAX / SIZEOF_SIZE_T {
        return false;
      }
      if !mallocOk {
        return false;
      }
      var table := new nat[newCap](_ => EMPTY);
      ghost var ds: seq<nat> := [];
      for i := 0 to |items|
        invariant Indexed(hash, table[..], items[..i], ds)
      {
        ghost var d := Insert(table, i, ds);
        ds := ds + [d];
      }
      assert items[..|items|] == items;
      slots, indexCap, dist := table, newCap, ds;
      return true;
    }

    /** winners_index_insert_tail, for the last item, the index covering the others. */
    method InsertTail(mallocOk: bool) returns (ok: bool)
      requires 0 < |items| < EMPTY - 1 && slots.Length == indexCap && 2 * (|items| - 1) <= indexCap
      requires indexCap != 0 ==> PowerOfTwo(indexCap)
      requires Indexed(hash, slots[..], items[..|items| - 1], dist)
      modifies this, slots
      ensures items == old(items) && cap == old(cap)
      ensures slots == old(slots) || fresh(slots)
      ensures ok ==> slots.Length == indexCap && 2 * |items| <= indexCap && PowerOfTwo(indexCap)
      ensures ok ==> Indexed(hash, slots[..], items, dist)
      ensures !ok ==> slots == old(slots) && slots[..] == old(slots[..])
      ensures !ok ==> indexCap == old(indexCap) && dist == old(dist)
      ensures mallocOk && |items| < 0x1000_0000_0000 ==> ok
    {
      var n := |items|;
      if indexCap == 0 || n > indexCap / 2 {
        var newCap := 16;
        if indexCap != 0 {
          if indexCap > SIZE_MAX / 2 {
            return false;
          }
          newCap := indexCap * 2;
        }
        var grown := DoubleUntilHalfEmpty(newCap, n);
        if grown.None? {
          return false;
        }
        ok := Rehash(grown.value, mallocOk);
        return;
      }
      ghost var d := Insert(slots, n - 1, dist);
      assert items[..n] == items;
      dist := dist + [d];
      return true;
    }

    /** winners_append and shadows_append, with every way the two allocations can turn out. */
    method Append(key: K, value: V, reallocOk: bool, mallocOk: bool) returns (ok: bool)
      requires Valid()
      modifies this, slots
      ensures Valid() && (slots == old(slots) || fresh(slots))
      ensures ok ==> items == old(items) + [Item(key, value)]
      ensures !ok ==> items == old(items) && slots == old(slots) && slots[..] == old(slots[..])
      ensures reallocOk && mallocOk && |old(items)| < 0x1000_0000 && maxItems >= 0x2000_0000 ==> ok
    {
      hide Indexed, PowerOfTwo;
      if |items| == cap {
        var newCap := if cap == 0 then 16 else cap * 2;
        if newCap <= cap || newCap > maxItems {
          return false;
        }
        if !reallocOk {
          return false;
        }
        cap := newCap;
      }
      var n := |items|;
      items := items + [Item(key, value)];
      assert items[..n] == old(items);
      ok := InsertTail(mallocOk);
      if !ok {
        items := items[..n];
      }
    }

    /** winners_find and shadow_tuple_recorded: the probing answers as a scan of the items would. */
    method Find(key: K, accept: V -> bool) returns (r: Option<nat>)
      requires Valid()
      ensures FirstMatch(items, key, accept, r)
    {
      if indexCap == 0 {
        return None;
      }
      ghost var run := slots[..];
      ghost var far := RunEnds(hash, run, items, dist, key);
      ProbeHome(hash, key, indexCap);
      hide Wrap, Home, FirstMatch, Indexed, Probe, Matches;
      var slot := Home(hash, key, indexCap);
      ghost var d := 0;
      while true
        invariant d <= far && slot == Probe(hash, key, d, indexCap)
        invariant Passed(hash, run, items, key, accept, d)
        decreases far - d
      {
        var i := slots[slot];
        assert i == run[slot];
        if i == EMPTY {
          NotBefore(hash, run, items, dist, key, accept, d);
          return None;
        }
        SlotHolds(hash, run, items, dist, slot);
        if items[i].key == key && accept(items[i].value) {
          assert Matches(items[i], key, accept) by { MatchesMeans(items[i], key, accept); }
          FoundFirst(hash, run, items, dist, key, accept, d);
          return Some(i);
        }
        PassOne(hash, run, items, key, accept, d);
        slot := Wrap(slot + 1, indexCap);
        d := d + 1;
      }
    }
  }
}
