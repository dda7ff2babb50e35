/** The recency list of Cache.h: a hash map over nodes that are also linked from oldest to newest. */
module Cache {

  datatype Entry<K, V> = Entry(key: K, touched: nat, item: V)

  // ---------------------------------------------------------------- recency-ordered maps as values

  ghost predicate UniqueKeys<K, V>(s: seq<Entry<K, V>>) {
    forall i, j | 0 <= i < j < |s| :: s[i].key != s[j].key
  }

  ghost predicate ByAge<K, V>(s: seq<Entry<K, V>>) {
    forall i, j | 0 <= i < j < |s| :: s[i].touched <= s[j].touched
  }

  /** Nothing was touched after now. */
  ghost predicate NotAfter<K, V>(s: seq<Entry<K, V>>, now: nat) {
    forall i | 0 <= i < |s| :: s[i].touched <= now
  }

  ghost predicate HasKey<K, V>(s: seq<Entry<K, V>>, k: K) {
    exists i :: 0 <= i < |s| && s[i].key == k
  }

  ghost function DropKey<K, V>(s: seq<Entry<K, V>>, k: K): seq<Entry<K, V>> {
    if s == [] then []
    else DropKey(s[..|s| - 1], k) + if s[|s| - 1].key == k then [] else [s[|s| - 1]]
  }

  lemma PrefixKey<K, V>(s: seq<Entry<K, V>>, n: nat, k: K)
    requires n <= |s| && HasKey(s[..n], k)
    ensures HasKey(s, k)
  {
    var i :| 0 <= i < n && s[..n][i].key == k;
    assert s[i].key == k;
  }

  lemma LastKeyIsNew<K, V>(s: seq<Entry<K, V>>)
    requires UniqueKeys(s) && s != []
    ensures !HasKey(s[..|s| - 1], s[|s| - 1].key)
  {
    var t := s[..|s| - 1];
    forall i | 0 <= i < |t| ensures t[i].key != s[|s| - 1].key {}
  }

  lemma {:induction false} DropAbsent<K, V>(s: seq<Entry<K, V>>, k: K)
    requires !HasKey(s, k)
    ensures DropKey(s, k) == s
  {
    if s != [] {
      var n := |s| - 1;
      assert s[n].key != k;
      if HasKey(s[..n], k) { PrefixKey(s, n, k); }
      DropAbsent(s[..n], k);
      assert s == s[..n] + [s[n]];
    }
  }

  lemma {:induction false} DropAt<K, V>(s: seq<Entry<K, V>>, p: nat)
    requires UniqueKeys(s) && p < |s|
    ensures DropKey(s, s[p].key) == s[..p] + s[p + 1..]
    decreases |s|
  {
    var n := |s| - 1;
    var k := s[p].key;
    if p == n {
      LastKeyIsNew(s);
      DropAbsent(s[..n], k);
      assert s[..p] + s[p + 1..] == s[..n];
    } else {
      DropAt(s[..n], p);
      assert s[..n][p] == s[p] && s[..n][..p] == s[..p];
      assert s[p + 1..] == s[..n][p + 1..] + [s[n]];
    }
  }

  /** Taking entry p out keeps keys unique and ages in order. */
  lemma OutKeepsOrder<K, V>(s: seq<Entry<K, V>>, p: nat)
    requires UniqueKeys(s) && ByAge(s) && p < |s|
    ensures UniqueKeys(s[..p] + s[p + 1..]) && ByAge(s[..p] + s[p + 1..])
    ensures !HasKey(s[..p] + s[p + 1..], s[p].key)
  {
    var t := s[..p] + s[p + 1..];
    forall i | 0 <= i < |t| ensures t[i] == if i < p then s[i] else s[i + 1] {}
    forall i, j | 0 <= i < j < |t| ensures t[i].key != t[j].key && t[i].touched <= t[j].touched {}
  }

  /** So does adding a new key touched last. */
  lemma NewestKeepsOrder<K, V>(s: seq<Entry<K, V>>, e: Entry<K, V>)
    requires UniqueKeys(s) && ByAge(s) && !HasKey(s, e.key) && NotAfter(s, e.touched)
    ensures UniqueKeys(s + [e]) && ByAge(s + [e])
  {
  }

  lemma OutNotAfter<K, V>(s: seq<Entry<K, V>>, p: nat, now: nat)
    requires NotAfter(s, now) && p < |s|
    ensures NotAfter(s[..p] + s[p + 1..], now)
  {
  }

  // ---------------------------------------------------------------- nodes

  class Node<K(0), V(0)> {
    var older: Node?<K, V>
    var newer: Node?<K, V>
    var touched: nat
    const key: K
    var item: V

    constructor Sentinel()
    {
    }

    constructor (k: K, v: V, now: nat)
      ensures key == k && item == v && touched == now
    {
      key, item, touched := k, v, now;
    }
  }

  ghost predicate Distinct<T>(s: seq<T>) {
    forall i, j | 0 <= i < j < |s| :: s[i] != s[j]
  }

  ghost predicate LinkedAt<K(0), V(0)>(chain: seq<Node<K, V>>, i: nat)
    requires i + 1 < |chain|
    reads (set n | n in chain)`newer, (set n | n in chain)`older
  {
    chain[i].newer == chain[i + 1] && chain[i + 1].older == chain[i]
  }

  /** The list from the oldest sentinel to the newest. */
  ghost predicate Linked<K(0), V(0)>(chain: seq<Node<K, V>>)
    reads (set n | n in chain)`newer, (set n | n in chain)`older
  {
    forall i: nat | i + 1 < |chain| :: LinkedAt(chain, i)
  }

  /** CacheEntry::remove. */
  method Unlink<K(0), V(0)>(n: Node<K, V>, ghost chain: seq<Node<K, V>>, ghost p: nat, ghost a: Node<K, V>,
                                ghost b: Node<K, V>)
    requires 0 < p < |chain| - 1 && chain[p] == n && Distinct(chain) && Linked(chain)
    requires chain[p - 1] == a && chain[p + 1] == b
    modifies n`older, n`newer, a`newer, b`older
    ensures Linked(chain[..p] + chain[p + 1..])
  {
    assert LinkedAt(chain, p - 1) && LinkedAt(chain, p);
    n.older.newer := n.newer;
    n.newer.older := n.older;
    n.older, n.newer := null, null;
    ghost var rest := chain[..p] + chain[p + 1..];
    forall i: nat | i + 1 < |rest| ensures LinkedAt(rest, i) {
      if i < p - 1 {
        assert old(LinkedAt(chain, i));
      } else if i >= p {
        assert old(LinkedAt(chain, i + 1));
      }
    }
  }

  /** Linking a node in front of the newest sentinel. */
  method LinkNewest<K(0), V(0)>(n: Node<K, V>, newest: Node<K, V>, ghost chain: seq<Node<K, V>>, ghost a: Node<K, V>)
    requires 2 <= |chain| && chain[|chain| - 1] == newest && chain[|chain| - 2] == a && n !in chain
             && Distinct(chain) && Linked(chain)
    modifies n`older, n`newer, newest`older, a`newer
    ensures Linked(chain[..|chain| - 1] + [n, newest])
  {
    assert LinkedAt(chain, |chain| - 2);
    newest.older.newer := n;
    n.newer := newest;
    n.older := newest.older;
    newest.older := n;
    ghost var all := chain[..|chain| - 1] + [n, newest];
    forall i: nat | i + 1 < |all| ensures LinkedAt(all, i) {
      if i < |chain| - 2 {
        assert old(LinkedAt(chain, i));
      }
    }
  }

  // ---------------------------------------------------------------- the cache

  /** The list's nodes hold these entries. */
  ghost predicate Holds<K(0), V(0)>(nodes: seq<Node<K, V>>, log: seq<Entry<K, V>>)
    reads (set n | n in nodes)`touched, (set n | n in nodes)`item
  {
    |nodes| == |log| && forall i | 0 <= i < |nodes| :: log[i] == Entry(nodes[i].key, nodes[i].touched, nodes[i].item)
  }

  lemma HoldsLength<K(0), V(0)>(nodes: seq<Node<K, V>>, log: seq<Entry<K, V>>)
    requires Holds(nodes, log)
    ensures |nodes| == |log|
  {
  }

  lemma HoldsKey<K(0), V(0)>(nodes: seq<Node<K, V>>, log: seq<Entry<K, V>>, p: nat)
    requires Holds(nodes, log) && p < |nodes|
    ensures |nodes| == |log| && log[p].key == nodes[p].key
  {
  }

  lemma HoldsOut<K(0), V(0)>(nodes: seq<Node<K, V>>, log: seq<Entry<K, V>>, p: nat)
    requires Holds(nodes, log) && p < |nodes|
    ensures |nodes| == |log| && Holds(nodes[..p] + nodes[p + 1..], log[..p] + log[p + 1..])
  {
  }

  /** The map finds exactly the nodes of the list. */
  ghost predicate Indexed<K(0), V(0)>(nodes: seq<Node<K, V>>, entries: map<K, Node<K, V>>) {
    && (forall i | 0 <= i < |nodes| :: nodes[i].key in entries && entries[nodes[i].key] == nodes[i])
    && (forall k | k in entries :: entries[k] in nodes && entries[k].key == k)
  }

  lemma IndexedOut<K(0), V(0)>(nodes: seq<Node<K, V>>, entries: map<K, Node<K, V>>, p: nat)
    requires Indexed(nodes, entries) && Distinct(nodes) && p < |nodes|
    ensures Indexed(nodes[..p] + nodes[p + 1..], entries - {nodes[p].key})
    ensures Distinct(nodes[..p] + nodes[p + 1..]) && nodes[p] !in nodes[..p] + nodes[p + 1..]
  {
    OutDistinct(nodes, p);
    var rest := nodes[..p] + nodes[p + 1..];
    var fewer := entries - {nodes[p].key};
    forall i | 0 <= i < |rest| ensures rest[i].key in fewer && fewer[rest[i].key] == rest[i] {
      assert rest[i] == nodes[if i < p then i else i + 1];
    }
    forall k | k in fewer ensures fewer[k] in rest {
      var i :| 0 <= i < |nodes| && nodes[i] == entries[k];
      assert rest[if i < p then i else i - 1] == nodes[i];
    }
  }

  lemma IndexedNewest<K(0), V(0)>(nodes: seq<Node<K, V>>, entries: map<K, Node<K, V>>, n: Node<K, V>)
    requires Indexed(nodes, entries) && n.key !in entries
    ensures Indexed(nodes + [n], entries[n.key := n])
  {
    var all := nodes + [n];
    assert all[|nodes|] == n;
    forall k | k in entries ensures entries[k] in all {
      var i :| 0 <= i < |nodes| && nodes[i] == entries[k];
      assert all[i] == entries[k];
    }
  }

  /** The list and the map agree on which keys there are, and where. */
  lemma MapIsList<K(0), V(0)>(nodes: seq<Node<K, V>>, entries: map<K, Node<K, V>>, log: seq<Entry<K, V>>, k: K)
    requires Indexed(nodes, entries) && Holds(nodes, log)
    ensures k in entries <==> HasKey(log, k)
    ensures k in entries ==> exists p :: 0 <= p < |nodes| && nodes[p] == entries[k] && log[p].key == k
  {
    if k in entries {
      var i :| 0 <= i < |nodes| && nodes[i] == entries[k];
      assert log[i].key == k;
    }
    if HasKey(log, k) {
      var i :| 0 <= i < |log| && log[i].key == k;
      assert nodes[i].key in entries;
    }
  }

  class Cache<K(0,==), V(0)> {
    var entries: map<K, Node<K, V>>
    const newest: Node<K, V>
    const oldest: Node<K, V>
    ghost var nodes: seq<Node<K, V>>        // oldest first
    ghost var log: seq<Entry<K, V>>         // what the nodes hold

    ghost function Repr(): set<object>
      reads this
    {
      {this, newest, oldest} + set n | n in nodes
    }

    ghost function Chain(): seq<Node<K, V>>
      reads this
    {
      [oldest] + nodes + [newest]
    }

    ghost predicate Valid()
      reads this, Repr()
    {
      && Distinct(Chain()) && Linked(Chain()) && Indexed(nodes, entries) && Holds(nodes, log)
      && UniqueKeys(log) && ByAge(log)
    }

    constructor ()
      ensures Valid() && log == [] && fresh(Repr())
    {
      var n := new Node<K, V>.Sentinel();
      var o := new Node<K, V>.Sentinel();
      newest, oldest, entries, nodes, log := n, o, map[], [], [];
      new;
      newest.newer, newest.older, oldest.newer, oldest.older := null, oldest, newest, null;
    }

    lemma LogInOrder()
      requires Valid()
      ensures UniqueKeys(log) && ByAge(log) && this in Repr()
    {
    }

    /** Removes entry p, the one of node n, from the list and the map. */
    method RemoveNode(n: Node<K, V>, ghost p: nat)
      requires Valid() && p < |nodes| && nodes[p] == n
      modifies Repr()
      ensures Valid() && nodes == old(nodes)[..p] + old(nodes)[p + 1..] && log == old(log)[..p] + old(log)[p + 1..]
      ensures n !in Chain() && n.touched == old(n.touched) && n.item == old(n.item) && entries == old(entries) - {n.key}
    {
      hide Indexed, UniqueKeys, ByAge, HasKey, Distinct, Linked, Holds;
      ghost var chain := Chain();
      ChainOut(oldest, nodes, newest, p);
      NodesDistinct(oldest, nodes, newest);
      IndexedOut(nodes, entries, p);
      HoldsLength(nodes, log);
      OutKeepsOrder(log, p);
      Unlink(n, chain, p + 1, chain[p], chain[p + 2]);
      entries := entries - {n.key};
      nodes := nodes[..p] + nodes[p + 1..];
      HoldsOut(old(nodes), log, p);
      log := log[..p] + log[p + 1..];
      OutDistinct(chain, p + 1);
    }

    /** Puts a node whose key is not there at the newest end. */
    method AddNode(n: Node<K, V>)
      requires Valid() && n !in Chain() && n.key !in entries && NotAfter(log, n.touched)
      modifies Repr(), n`older, n`newer
      ensures Valid() && nodes == old(nodes) + [n] && log == old(log) + [Entry(n.key, n.touched, n.item)]
    {
      hide Indexed, UniqueKeys, ByAge, HasKey, NotAfter;
      ghost var chain := Chain();
      MapIsList(nodes, entries, log, n.key);
      IndexedNewest(nodes, entries, n);
      NewestKeepsOrder(log, Entry(n.key, n.touched, n.item));
      LinkNewest(n, newest, chain, chain[|chain| - 2]);
      entries := entries[n.key := n];
      nodes := nodes + [n];
      log := log + [Entry(n.key, n.touched, n.item)];
      assert Chain() == chain[..|chain| - 1] + [n, newest];
    }

    method Remove(k: K) returns (found: bool)
      requires Valid()
      modifies Repr()
      ensures Valid() && Repr() <= old(Repr())
      ensures found <==> HasKey(old(log), k)
      ensures log == DropKey(old(log), k)
    {
      hide Indexed, UniqueKeys, ByAge, Linked, Distinct, DropKey;
      MapIsList(nodes, entries, log, k);
      found := k in entries;
      if found {
        var n := entries[k];
        ghost var p :| 0 <= p < |nodes| && nodes[p] == n && log[p].key == k;
        DropAt(log, p);
        RemoveNode(n, p);
      } else {
        DropAbsent(log, k);
      }
    }

    /** Makes node n, entry p, the newest, with value v. */
    method Renew(n: Node<K, V>, v: V, now: nat, ghost p: nat)
      requires Valid() && NotAfter(log, now) && p < |nodes| && nodes[p] == n
      modifies Repr()
      ensures Valid() && Repr() == old(Repr())
      ensures log == DropKey(old(log), n.key) + [Entry(n.key, now, v)]
    {
      hide Indexed, ByAge, UniqueKeys, Linked, Distinct, DropKey, NotAfter, Holds;
      HoldsLength(nodes, log);
      HoldsKey(nodes, log, p);
      DropAt(log, p);
      OutNotAfter(log, p, now);
      RemoveNode(n, p);
      n.touched := now;
      n.item := v;
      AddNode(n);
    }

    /** A touched entry becomes the newest. */
    method Touch(k: K, now: nat) returns (found: bool)
      requires Valid() && NotAfter(log, now)
      modifies Repr()
      ensures Valid() && Repr() == old(Repr())
      ensures found <==> HasKey(old(log), k)
      ensures !found ==> log == old(log)
      ensures forall p | 0 <= p < |old(log)| && old(log)[p].key == k ::
                log == DropKey(old(log), k) + [old(log)[p].(touched := now)]
    {
      hide Indexed, ByAge, UniqueKeys, Linked, Distinct, DropKey, NotAfter;
      MapIsList(nodes, entries, log, k);
      found := k in entries;
      if found {
        var n := entries[k];
        ghost var p :| 0 <= p < |nodes| && nodes[p] == n && log[p].key == k;
        OneKey(log, k, p);
        Renew(n, n.item, now, p);
      }
    }

    /** A known key is touched and gets the new value; an unknown one is added as the newest. */
    method Add(k: K, v: V, now: nat)
      requires Valid() && NotAfter(log, now)
      modifies Repr()
      ensures Valid() && fresh(Repr() - old(Repr()))
      ensures log == DropKey(old(log), k) + [Entry(k, now, v)]
    {
      hide Indexed, ByAge, UniqueKeys, Linked, Distinct, DropKey, NotAfter;
      MapIsList(nodes, entries, log, k);
      if k in entries {
        var n := entries[k];
        ghost var p :| 0 <= p < |nodes| && nodes[p] == n && log[p].key == k;
        Renew(n, v, now, p);
      } else {
        var n := new Node<K, V>(k, v, now);
        DropAbsent(log, k);
        AddNode(n);
      }
    }

    method Find(k: K) returns (found: bool, item: V)
      requires Valid()
      ensures found <==> HasKey(log, k)
      ensures found ==> exists p :: 0 <= p < |log| && log[p].key == k && log[p].item == item
    {
      MapIsList(nodes, entries, log, k);
      item := *;
      found := k in entries;
      if found {
        item := entries[k].item;
        ghost var p :| 0 <= p < |nodes| && nodes[p] == entries[k];
        assert log[p].key == k && log[p].item == item;
      }
    }

    /** The entry for_all_oldest_first offers next. */
    method Oldest() returns (e: Entry<K, V>)
      requires Valid() && log != []
      ensures e == log[0]
    {
      assert LinkedAt(Chain(), 0) && Chain()[1] == nodes[0];
      var n := oldest.newer;
      e := Entry(n.key, n.touched, n.item);
    }

    method RemoveOldest()
      requires Valid() && log != []
      modifies Repr()
      ensures Valid() && Repr() <= old(Repr()) && log == old(log)[1..]
    {
      hide Indexed, ByAge, UniqueKeys, Linked, Distinct, DropKey;
      DropAt(log, 0);
      var e := Oldest();
      var found := Remove(e.key);
      assert old(log)[..0] + old(log)[1..] == old(log)[1..];
    }

    method Size() returns (n: nat)
      requires Valid()
      ensures n == |log|
    {
      CountKeys(log);
      assert entries.Keys == Keys(log) by {
        forall k | k in entries.Keys ensures k in Keys(log) {
          MapIsList(nodes, entries, log, k);
          KeysHold(log, k);
        }
        forall k | k in Keys(log) ensures k in entries.Keys {
          MapIsList(nodes, entries, log, k);
          KeysHold(log, k);
        }
      }
      n := |entries|;
    }
  }

  lemma OneKey<K, V>(s: seq<Entry<K, V>>, k: K, p: nat)
    requires UniqueKeys(s) && p < |s| && s[p].key == k
    ensures forall q | 0 <= q < |s| && s[q].key == k :: q == p
  {
  }

  lemma ChainOut<T>(a: T, s: seq<T>, z: T, p: nat)
    requires p < |s|
    ensures var t := [a] + s + [z];
            t[p + 1] == s[p] && [a] + (s[..p] + s[p + 1..]) + [z] == t[..p + 1] + t[p + 2..]
  {
  }

  lemma NodesDistinct<T>(a: T, s: seq<T>, z: T)
    requires Distinct([a] + s + [z])
    ensures Distinct(s)
  {
    var t := [a] + s + [z];
    forall i | 0 <= i < |s| ensures s[i] == t[i + 1] {}
  }

  lemma OutDistinct<T>(s: seq<T>, p: nat)
    requires Distinct(s) && p < |s|
    ensures Distinct(s[..p] + s[p + 1..]) && s[p] !in s[..p] + s[p + 1..]
  {
    var t := s[..p] + s[p + 1..];
    forall i | 0 <= i < |t| ensures t[i] == if i < p then s[i] else s[i + 1] {}
  }

  ghost function Keys<K, V>(s: seq<Entry<K, V>>): set<K> {
    if s == [] then {} else Keys(s[..|s| - 1]) + {s[|s| - 1].key}
  }

  lemma {:induction false} KeysHold<K, V>(s: seq<Entry<K, V>>, k: K)
    ensures k in Keys(s) <==> HasKey(s, k)
  {
    if s != [] {
      var n := |s| - 1;
      KeysHold(s[..n], k);
      if HasKey(s, k) && s[n].key != k {
        var i :| 0 <= i < |s| && s[i].key == k;
        assert s[..n][i].key == k;
      }
      if HasKey(s[..n], k) {
        var i :| 0 <= i < n && s[..n][i].key == k;
        assert s[i].key == k;
      }
    }
  }

  lemma {:induction false} CountKeys<K, V>(s: seq<Entry<K, V>>)
    requires UniqueKeys(s)
    ensures |Keys(s)| == |s|
  {
    if s != [] {
      var n := |s| - 1;
      CountKeys(s[..n]);
      KeysHold(s[..n], s[n].key);
      LastKeyIsNew(s);
    }
  }
}
