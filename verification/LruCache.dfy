/**
 The guest's bounded caches: a hash map from keys to nodes of a doubly linked list kept in
 order of use. `Recency` is the plain list they stand for; the class is proved to behave
 like it, and the list is shown to evict exactly the least recently used key.
 */
module Recency {
  import opened Common

  /** Keys with their values, most recently used first. */
  type Usage<V> = seq<(nat, V)>

  predicate Has<V>(s: Usage<V>, key: nat) {
    exists i :: 0 <= i < |s| && s[i].0 == key
  }

  function Without<V>(s: Usage<V>, key: nat): (r: Usage<V>)
    ensures forall i :: 0 <= i < |r| ==> r[i].0 != key
  {
    if s == [] then [] else (if s[0].0 == key then [] else [s[0]]) + Without(s[1..], key)
  }

  function Lookup<V>(s: Usage<V>, key: nat): Option<V> {
    if s == [] then None else if s[0].0 == key then Some(s[0].1) else Lookup(s[1..], key)
  }

  function Truncate<V>(s: Usage<V>, n: nat): Usage<V> {
    if |s| <= n then s else s[..n]
  }

  function Put<V>(s: Usage<V>, key: nat, value: V, max: nat): Usage<V> {
    Truncate([(key, value)] + Without(s, key), max)
  }

  function Use<V>(s: Usage<V>, key: nat): Usage<V> {
    if Lookup(s, key).Some? then [(key, Lookup(s, key).value)] + Without(s, key) else s
  }

  ghost predicate Distinct<V>(s: Usage<V>) {
    forall i, j :: 0 <= i < j < |s| ==> s[i].0 != s[j].0
  }

  lemma {:induction false} LookupAt<V>(s: Usage<V>, i: nat)
    requires Distinct(s) && i < |s|
    ensures Lookup(s, s[i].0) == Some(s[i].1)
    ensures Without(s, s[i].0) == s[..i] + s[i + 1..]
  {
    if i == 0 {
      WithoutAbsent(s[1..], s[0].0);
      assert s[..0] + s[1..] == s[1..];
    } else {
      LookupAt(s[1..], i - 1);
      assert s[..i] + s[i + 1..] == [s[0]] + (s[1..][..i - 1] + s[1..][i..]);
    }
  }

  lemma {:induction false} WithoutAbsent<V>(s: Usage<V>, key: nat)
    requires forall i :: 0 <= i < |s| ==> s[i].0 != key
    ensures Without(s, key) == s && Lookup(s, key) == None
  {
    if s != [] {
      WithoutAbsent(s[1..], key);
      assert s == [s[0]] + s[1..];
    }
  }

  // ----- Reference: values with the time of their last use -----

  /** A cache entry with the time it was last used. */
  datatype Stamped<V> = Stamped(value: V, time: nat)

  /** The operations of a cache user. */
  datatype Op<V> = DoPut(key: nat, value: V) | DoGet(key: nat) | DoRemove(key: nat)

  function ApplyList<V>(s: Usage<V>, op: Op<V>, max: nat): Usage<V> {
    match op
    case DoPut(key, value) => Put(s, key, value, max)
    case DoGet(key) => Use(s, key)
    case DoRemove(key) => Without(s, key)
  }

  /** v is an entry with the oldest stamp. */
  ghost predicate Oldest<V>(m: map<nat, Stamped<V>>, v: nat) {
    v in m && forall k :: k in m ==> m[v].time <= m[k].time
  }

  /**
   What the same operation does to the stamped entries at time now: a put or a successful get
   stamps the key, and an insertion above the limit drops an oldest entry.
   */
  ghost predicate ApplyStamped<V>(m: map<nat, Stamped<V>>, op: Op<V>, now: nat, max: nat, m': map<nat, Stamped<V>>) {
    match op
    case DoPut(key, value) =>
      var full := m[key := Stamped(value, now)];
      if |full| <= max then m' == full
      else exists v :: Oldest(full, v) && m' == full - {v}
    case DoGet(key) => m' == if key in m then m[key := Stamped(m[key].value, now)] else m
    case DoRemove(key) => m' == m - {key}
  }

  /** The list holds the stamped entries, newest first, all stamped before now. */
  ghost predicate Represents<V>(s: Usage<V>, m: map<nat, Stamped<V>>, now: nat) {
    && |s| == |m|
    && (forall i :: 0 <= i < |s| ==> Matches(s[i], m, now))
    && (forall i, j :: 0 <= i < j < |s| ==> m[s[j].0].time < m[s[i].0].time)
    && (forall k :: k in m ==> Has(s, k))
  }

  ghost predicate Matches<V>(e: (nat, V), m: map<nat, Stamped<V>>, now: nat) {
    e.0 in m && m[e.0].value == e.1 && m[e.0].time < now
  }

  lemma RepresentsDistinct<V>(s: Usage<V>, m: map<nat, Stamped<V>>, now: nat)
    requires Represents(s, m, now)
    ensures Distinct(s)
  {
  }

  /** s with position i cut out. */
  function Cut<V>(s: Usage<V>, i: nat): (r: Usage<V>)
    requires i < |s|
    ensures |r| == |s| - 1
    ensures forall j :: 0 <= j < |r| ==> r[j] == s[if j < i then j else j + 1]
  {
    s[..i] + s[i + 1..]
  }

  lemma CutMatches<V>(s: Usage<V>, m: map<nat, Stamped<V>>, now: nat, i: nat, j: nat)
    requires Represents(s, m, now) && i < |s| && j < |s| - 1
    ensures Matches(Cut(s, i)[j], m - {s[i].0}, now)
    ensures (m - {s[i].0})[Cut(s, i)[j].0] == m[s[if j < i then j else j + 1].0]
  {
  }

  lemma CutHas<V>(s: Usage<V>, m: map<nat, Stamped<V>>, now: nat, i: nat, k: nat)
    requires Represents(s, m, now) && i < |s| && k in m && k != s[i].0
    ensures Has(Cut(s, i), k)
  {
    assert Has(s, k);
    var j :| 0 <= j < |s| && s[j].0 == k;
    assert Cut(s, i)[if j < i then j else j - 1].0 == k;
  }

  lemma CutRepresents<V>(s: Usage<V>, m: map<nat, Stamped<V>>, now: nat, i: nat)
    requires Represents(s, m, now) && i < |s|
    ensures Represents(Cut(s, i), m - {s[i].0}, now)
  {
    var r, m' := Cut(s, i), m - {s[i].0};
    assert |m'| == |m| - 1 by {
      assert Matches(s[i], m, now);
      assert m'.Keys == m.Keys - {s[i].0};
    }
    forall j | 0 <= j < |r|
      ensures Matches(r[j], m', now)
    {
      CutMatches(s, m, now, i, j);
    }
    forall a, b | 0 <= a < b < |r|
      ensures m'[r[b].0].time < m'[r[a].0].time
    {
      CutMatches(s, m, now, i, a);
      CutMatches(s, m, now, i, b);
    }
    forall k | k in m'
      ensures Has(r, k)
    {
      CutHas(s, m, now, i, k);
    }
  }

  lemma WithoutRepresents<V>(s: Usage<V>, m: map<nat, Stamped<V>>, now: nat, key: nat)
    requires Represents(s, m, now)
    ensures Represents(Without(s, key), m - {key}, now)
  {
    RepresentsDistinct(s, m, now);
    if key in m {
      assert Has(s, key);
      var i :| 0 <= i < |s| && s[i].0 == key;
      LookupAt(s, i);
      hide Represents;
      CutRepresents(s, m, now, i);
    } else {
      WithoutAbsent(s, key);
      assert m - {key} == m;
    }
  }

  lemma FrontMatches<V>(s: Usage<V>, m: map<nat, Stamped<V>>, now: nat, key: nat, value: V, j: nat)
    requires Represents(s, m, now) && key !in m && j < |s| + 1
    ensures var r: Usage<V> := [(key, value)] + s;
            var m' := m[key := Stamped(value, now)];
            && Matches(r[j], m', now + 1) && m'[r[j].0].time <= now
            && (j > 0 ==> r[j] == s[j - 1] && m'[r[j].0] == m[s[j - 1].0] && m'[r[j].0].time < now)
  {
  }

  lemma FrontHas<V>(s: Usage<V>, m: map<nat, Stamped<V>>, now: nat, key: nat, value: V, k: nat)
    requires Represents(s, m, now) && (k in m || k == key)
    ensures Has([(key, value)] + s, k)
  {
    var r: Usage<V> := [(key, value)] + s;
    assert r[0].0 == key;
    if k != key {
      assert Has(s, k);
      var j :| 0 <= j < |s| && s[j].0 == k;
      assert r[j + 1].0 == k;
    }
  }

  lemma FrontOrdered<V>(s: Usage<V>, m: map<nat, Stamped<V>>, now: nat, key: nat, value: V)
    requires Represents(s, m, now) && key !in m
    ensures var r: Usage<V> := [(key, value)] + s;
            var m' := m[key := Stamped(value, now)];
            forall i, j :: 0 <= i < j < |r| ==> r[i].0 in m' && r[j].0 in m' && m'[r[j].0].time < m'[r[i].0].time
  {
  }

  lemma FrontRepresents<V>(s: Usage<V>, m: map<nat, Stamped<V>>, now: nat, key: nat, value: V)
    requires Represents(s, m, now) && key !in m
    ensures Represents([(key, value)] + s, m[key := Stamped(value, now)], now + 1)
  {
    hide Has;
    var r: Usage<V> := [(key, value)] + s;
    var m' := m[key := Stamped(value, now)];
    assert m'.Keys == m.Keys + {key};
    assert |r| == |m'|;
    forall j | 0 <= j < |r|
      ensures Matches(r[j], m', now + 1)
    {
      FrontMatches(s, m, now, key, value, j);
    }
    FrontOrdered(s, m, now, key, value);
    forall k | k in m'
      ensures Has(r, k)
    {
      FrontHas(s, m, now, key, value, k);
    }
  }

  lemma DropLast<V>(s: Usage<V>, m: map<nat, Stamped<V>>, now: nat)
    requires Represents(s, m, now) && s != []
    ensures Oldest(m, s[|s| - 1].0)
    ensures Represents(s[..|s| - 1], m - {s[|s| - 1].0}, now)
  {
    var n := |s| - 1;
    var v := s[n].0;
    forall k | k in m
      ensures m[v].time <= m[k].time
    {
      assert Has(s, k);
      var j :| 0 <= j < |s| && s[j].0 == k;
    }
    CutRepresents(s, m, now, n);
    assert Cut(s, n) == s[..n];
  }

  /**
   Whatever the operation, list and stamped entries stay in step: the same keys and latest
   values, ordered by last use, never more than the limit; and the key an insertion evicts is
   one with the oldest last use.
   */
  lemma ListIsLru<V>(s: Usage<V>, m: map<nat, Stamped<V>>, op: Op<V>, now: nat, max: nat)
    returns (m': map<nat, Stamped<V>>)
    requires Represents(s, m, now) && |s| <= max
    ensures ApplyStamped(m, op, now, max, m')
    ensures Represents(ApplyList(s, op, max), m', now + 1)
    ensures |ApplyList(s, op, max)| <= max
  {
    hide Represents; hide Put; hide Use; hide Without;
    match op {
      case DoPut(key, value) => m' := PutIsLru(s, m, key, value, now, max);
      case DoGet(key) => m' := UseIsLru(s, m, key, now, max);
      case DoRemove(key) =>
        WithoutRepresents(s, m, now, key);
        RestFacts(s, m, now, key);
        m' := m - {key};
        Later(Without(s, key), m', now);
    }
  }

  lemma Restored<V>(m: map<nat, Stamped<V>>, key: nat, st: Stamped<V>)
    ensures (m - {key})[key := st] == m[key := st]
  {
  }

  lemma PutIsLru<V>(s: Usage<V>, m: map<nat, Stamped<V>>, key: nat, value: V, now: nat, max: nat)
    returns (m': map<nat, Stamped<V>>)
    requires Represents(s, m, now) && |s| <= max
    ensures ApplyStamped(m, DoPut(key, value), now, max, m')
    ensures Represents(Put(s, key, value, max), m', now + 1) && |Put(s, key, value, max)| <= max
  {
    WithoutRepresents(s, m, now, key);
    RestFacts(s, m, now, key);
    Restored(m, key, Stamped(value, now));
    hide Represents; hide Without;
    m' := Inserted(Without(s, key), m - {key}, key, value, now, max);
  }

  lemma UseIsLru<V>(s: Usage<V>, m: map<nat, Stamped<V>>, key: nat, now: nat, max: nat)
    returns (m': map<nat, Stamped<V>>)
    requires Represents(s, m, now) && |s| <= max
    ensures ApplyStamped(m, DoGet(key), now, max, m')
    ensures Represents(Use(s, key), m', now + 1) && |Use(s, key)| <= max
  {
    WithoutRepresents(s, m, now, key);
    RestFacts(s, m, now, key);
    hide Represents; hide Without; hide Lookup;
    if key in m {
      Restored(m, key, Stamped(m[key].value, now));
      m' := Inserted(Without(s, key), m - {key}, key, m[key].value, now, max);
    } else {
      m' := m;
      Later(s, m, now);
    }
  }

  /** Sizes and values around the key an operation is about. */
  lemma RestFacts<V>(s: Usage<V>, m: map<nat, Stamped<V>>, now: nat, key: nat)
    requires Represents(s, m, now)
    ensures |s| == |m|
    ensures |Without(s, key)| == |m| - if key in m then 1 else 0
    ensures Lookup(s, key) == if key in m then Some(m[key].value) else None
  {
    RepresentsDistinct(s, m, now);
    if key in m {
      assert Has(s, key);
      var i :| 0 <= i < |s| && s[i].0 == key;
      assert Matches(s[i], m, now);
      hide Represents; hide Distinct;
      LookupAt(s, i);
    } else {
      assert forall i :: 0 <= i < |s| ==> Matches(s[i], m, now);
      hide Represents; hide Distinct;
      WithoutAbsent(s, key);
    }
  }

  lemma Later<V>(s: Usage<V>, m: map<nat, Stamped<V>>, now: nat)
    requires Represents(s, m, now)
    ensures Represents(s, m, now + 1)
  {
  }

  /** A key put in front of the others, with the last one dropped if there are then too many. */
  lemma Inserted<V>(rest: Usage<V>, mRest: map<nat, Stamped<V>>, key: nat, value: V, now: nat, max: nat)
    returns (m': map<nat, Stamped<V>>)
    requires Represents(rest, mRest, now) && key !in mRest && |rest| <= max
    ensures var full := mRest[key := Stamped(value, now)];
            if |full| <= max then m' == full else exists v :: Oldest(full, v) && m' == full - {v}
    ensures Represents(Truncate([(key, value)] + rest, max), m', now + 1)
    ensures |rest| < max ==> m' == mRest[key := Stamped(value, now)]
    ensures |Truncate([(key, value)] + rest, max)| <= max
  {
    FrontRepresents(rest, mRest, now, key, value);
    var full: Usage<V> := [(key, value)] + rest;
    m' := mRest[key := Stamped(value, now)];
    assert |full| == |m'|;
    hide Represents;
    if |full| > max {
      DropLast(full, m', now + 1);
      m' := m' - {full[|full| - 1].0};
    }
  }

  // ----- Theorem: every run of the list is a run of the reference -----

  function RunList<V>(ops: seq<Op<V>>, max: nat): Usage<V> {
    if ops == [] then [] else ApplyList(RunList(ops[..|ops| - 1], max), ops[|ops| - 1], max)
  }

  /** A run of the reference: operation i happens at time i. */
  ghost predicate StampedRun<V>(ms: seq<map<nat, Stamped<V>>>, ops: seq<Op<V>>, max: nat) {
    && |ms| == |ops| + 1 && ms[0] == map[]
    && forall i :: 0 <= i < |ops| ==> ApplyStamped(ms[i], ops[i], i, max, ms[i + 1])
  }

  /**
   After any sequence of operations the list is at most max long and holds exactly what a run
   of the reference holds: the latest value of every key not yet removed or evicted, in order
   of last use.
   */
  lemma {:induction false} LruRuns<V>(ops: seq<Op<V>>, max: nat) returns (ms: seq<map<nat, Stamped<V>>>)
    ensures StampedRun(ms, ops, max)
    ensures |RunList(ops, max)| <= max && Represents(RunList(ops, max), ms[|ops|], |ops|)
  {
    hide ApplyStamped; hide ApplyList; hide Represents;
    if ops == [] {
      ms := [map[]];
      EmptyRepresents<V>();
    } else {
      var n := |ops| - 1;
      var before := LruRuns(ops[..n], max);
      var m' := ListIsLru(RunList(ops[..n], max), before[n], ops[n], n, max);
      ms := before + [m'];
      forall i | 0 <= i < |ops|
        ensures ApplyStamped(ms[i], ops[i], i, max, ms[i + 1])
      {
        if i < n {
          assert ApplyStamped(before[i], ops[..n][i], i, max, before[i + 1]);
        }
      }
    }
  }

  lemma EmptyRepresents<V>()
    ensures Represents<V>([], map[], 0)
  {
  }

  /** A list in step with the reference returns the reference's value for every key. */
  lemma LookupAgrees<V>(s: Usage<V>, m: map<nat, Stamped<V>>, now: nat)
    requires Represents(s, m, now)
    ensures forall k :: Lookup(s, k) == if k in m then Some(m[k].value) else None
  {
    hide Represents;
    forall k
      ensures Lookup(s, k) == if k in m then Some(m[k].value) else None
    {
      RestFacts(s, m, now, k);
    }
  }
}

module LruCacheObject {
  import opened Common
  import opened Recency

  class Node<V> {
    const key: nat
    var value: V
    var prev: Node?<V>
    var next: Node?<V>

    constructor (key: nat, value: V)
      ensures this.key == key && this.value == value && prev == null && next == null
    {
      this.key, this.value := key, value;
      prev, next := null, null;
    }
  }

  /** The nodes are linked both ways in this order. */
  ghost predicate Linked<V>(nodes: seq<Node<V>>)
    reads nodes
  {
    && (forall i, j :: 0 <= i < j < |nodes| ==> nodes[i] != nodes[j])
    && (forall i {:trigger nodes[i].prev} :: 0 <= i < |nodes| ==> nodes[i].prev == if i == 0 then null else nodes[i - 1])
    && (forall i {:trigger nodes[i].next} :: 0 <= i < |nodes| ==> nodes[i].next == if i == |nodes| - 1 then null else nodes[i + 1])
  }

  /** The keys and values of the nodes, in order. */
  ghost function UsageOf<V>(nodes: seq<Node<V>>): (u: Usage<V>)
    reads nodes
    ensures |u| == |nodes|
    ensures forall i :: 0 <= i < |nodes| ==> u[i] == (nodes[i].key, nodes[i].value)
  {
    seq(|nodes|, i requires 0 <= i < |nodes| reads nodes => (nodes[i].key, nodes[i].value))
  }

  /** Every node is found under its key, and nothing else is. */
  ghost predicate Indexed<V>(table: map<nat, Node<V>>, nodes: seq<Node<V>>) {
    && |table| == |nodes|
    && (forall i :: 0 <= i < |nodes| ==> nodes[i].key in table && table[nodes[i].key] == nodes[i])
    && (forall k :: k in table ==> table[k] in nodes && table[k].key == k)
  }

  lemma CutOut<V>(nodes: seq<Node<V>>, i: nat)
    requires i < |nodes| && forall a, b :: 0 <= a < b < |nodes| ==> nodes[a] != nodes[b]
    ensures nodes[i] !in nodes[..i] + nodes[i + 1..]
  {
  }

  lemma Reordered<V>(table: map<nat, Node<V>>, nodes: seq<Node<V>>, i: nat)
    requires Indexed(table, nodes) && i < |nodes|
    ensures Indexed(table, [nodes[i]] + (nodes[..i] + nodes[i + 1..]))
  {
  }

  lemma Unindexed<V>(table: map<nat, Node<V>>, nodes: seq<Node<V>>, i: nat)
    requires Indexed(table, nodes) && i < |nodes| && forall a, b :: 0 <= a < b < |nodes| ==> nodes[a] != nodes[b]
    ensures Indexed(table - {nodes[i].key}, nodes[..i] + nodes[i + 1..])
  {
  }

  lemma IndexedInFront<V>(table: map<nat, Node<V>>, nodes: seq<Node<V>>, node: Node<V>)
    requires Indexed(table, nodes) && node.key !in table
    ensures Indexed(table[node.key := node], [node] + nodes)
  {
  }

  class LruCache<V> {
    const maxEntries: nat
    var first: Node?<V>
    var last: Node?<V>
    var table: map<nat, Node<V>>
    ghost var nodes: seq<Node<V>>

    ghost predicate ValidList()
      reads this`first, this`last, this`nodes, nodes
    {
      && Linked(nodes)
      && first == (if nodes == [] then null else nodes[0])
      && last == (if nodes == [] then null else nodes[|nodes| - 1])
    }

    /** Map and list hold the same distinct nodes. */
    ghost predicate Sound()
      reads this, nodes
    {
      ValidList() && Indexed(table, nodes)
    }

    ghost predicate Valid()
      reads this, nodes
    {
      Sound() && |nodes| <= maxEntries
    }

    ghost function Contents(): Usage<V>
      reads this`nodes, nodes
    {
      UsageOf(nodes)
    }

    constructor (maxEntries: nat)
      ensures Valid() && Contents() == [] && nodes == [] && this.maxEntries == maxEntries
    {
      this.maxEntries := maxEntries;
      first, last, table, nodes := null, null, map[], [];
    }

    /** Unlinks a node. */
    method Unlink(node: Node<V>, ghost i: nat)
      requires ValidList() && i < |nodes| && nodes[i] == node
      modifies this`first, this`last, this`nodes, nodes
      ensures ValidList() && nodes == old(nodes)[..i] + old(nodes)[i + 1..]
      ensures forall n :: n in old(nodes) ==> n.value == old(n.value)
      ensures Contents() == Cut(old(Contents()), i)
    {
      hide ValidList;
      Relink(node, i);
    }

    method Relink(node: Node<V>, ghost i: nat)
      requires ValidList() && i < |nodes| && nodes[i] == node
      modifies this`first, this`last, this`nodes, nodes
      ensures ValidList() && nodes == old(nodes)[..i] + old(nodes)[i + 1..]
      ensures forall n :: n in old(nodes) ==> n.value == old(n.value)
    {
      if node.prev != null {
        node.prev.next := node.next;
      } else {
        first := node.next;
      }
      if node.next != null {
        node.next.prev := node.prev;
      } else {
        last := node.prev;
      }
      ghost var ns := nodes;
      nodes := nodes[..i] + nodes[i + 1..];
      forall j | 0 <= j < |nodes|
        ensures nodes[j].prev == if j == 0 then null else nodes[j - 1]
        ensures nodes[j].next == if j == |nodes| - 1 then null else nodes[j + 1]
      {
        var k := if j < i then j else j + 1;
        assert nodes[j] == ns[k] && ns[k] != node;
        assert old(ns[k].prev) == (if k == 0 then null else ns[k - 1]) && old(ns[k].next) == if k == |ns| - 1 then null else ns[k + 1];
        assert i > 0 && k != i - 1 ==> ns[k] != ns[i - 1];
        assert i + 1 < |ns| && k != i + 1 ==> ns[k] != ns[i + 1];
      }
    }

    /** Links a node in front. */
    method Prepend(node: Node<V>)
      requires ValidList() && node !in nodes
      modifies this`first, this`last, this`nodes, nodes, node
      ensures ValidList() && nodes == [node] + old(nodes)
      ensures forall n :: n in old(nodes) ==> n.value == old(n.value)
      ensures node.value == old(node.value)
      ensures Contents() == [(node.key, node.value)] + old(Contents())
    {
      node.prev, node.next := null, first;
      if first != null {
        first.prev := node;
      } else {
        last := node;
      }
      first := node;
      nodes := [node] + nodes;
    }

    lemma Found(key: nat) returns (i: nat)
      requires Sound() && key in table
      ensures i < |nodes| && nodes[i] == table[key]
      ensures Distinct(Contents()) && Contents()[i].0 == key
      ensures Lookup(Contents(), key) == Some(table[key].value) && Without(Contents(), key) == Cut(Contents(), i)
    {
      hide Lookup; hide Without; hide Cut; hide ValidList;
      i :| 0 <= i < |nodes| && nodes[i] == table[key];
      KeysDistinct();
      LookupAt(Contents(), i);
    }

    lemma KeysDistinct()
      requires Sound()
      ensures Distinct(Contents())
    {
    }

    lemma Absent(key: nat)
      requires Sound() && key !in table
      ensures Lookup(Contents(), key) == None && Without(Contents(), key) == Contents()
    {
      WithoutAbsent(Contents(), key);
    }

    /** Moves a node to the front. */
    method Touch(node: Node<V>, ghost i: nat)
      requires Sound() && i < |nodes| && nodes[i] == node
      modifies this`first, this`last, this`nodes, nodes
      ensures Sound() && Contents() == [(node.key, node.value)] + Cut(old(Contents()), i)
      ensures |nodes| == |old(nodes)| && node.value == old(node.value)
      ensures forall n :: n in nodes ==> n in old(nodes) || fresh(n)
    {
      hide ValidList; hide Indexed; hide Cut; hide Contents;
      AroundNode(i);
      Unlink(node, i);
      Prepend(node);
    }

    /** Taking a node out of the list, or moving it to the front, keeps map and list in step. */
    lemma AroundNode(i: nat)
      requires Sound() && i < |nodes|
      ensures var cut := nodes[..i] + nodes[i + 1..];
              && nodes[i] !in cut && Indexed(table, [nodes[i]] + cut) && Indexed(table - {nodes[i].key}, cut)
    {
      Reordered(table, nodes, i);
      CutOut(nodes, i);
      Unindexed(table, nodes, i);
    }

    method Get(key: nat) returns (r: Option<V>)
      requires Valid()
      modifies this`first, this`last, this`nodes, nodes
      ensures Valid() && r == Lookup(old(Contents()), key) && Contents() == Use(old(Contents()), key)
      ensures forall n :: n in nodes ==> n in old(nodes) || fresh(n)
    {
      hide Sound; hide Cut; hide Lookup; hide Without; hide Contents;
      if key !in table {
        Absent(key);
        return None;
      }
      ghost var i := Found(key);
      FoundSizes(key);
      Touch(table[key], i);
      return Some(table[key].value);
    }

    method Remove(key: nat)
      requires Valid()
      modifies this, nodes
      ensures Valid() && Contents() == Without(old(Contents()), key)
      ensures forall n :: n in nodes ==> n in old(nodes) || fresh(n)
    {
      hide Sound; hide Cut; hide Without; hide Contents;
      if key !in table {
        Absent(key);
        return;
      }
      ghost var i := Found(key);
      DropNode(table[key], i);
    }

    /** Takes a node out of list and map. */
    method DropNode(node: Node<V>, ghost i: nat)
      requires Sound() && i < |nodes| && nodes[i] == node
      modifies this, nodes
      ensures Sound() && Contents() == Cut(old(Contents()), i) && nodes == old(nodes)[..i] + old(nodes)[i + 1..]
    {
      hide ValidList; hide Indexed; hide Cut; hide Contents;
      AroundNode(i);
      Unlink(node, i);
      table := table - {node.key};
    }

    /** Drops nodes from the end until the limit is met. */
    method EvictIfNeeded()
      requires Sound()
      modifies this, nodes
      ensures Valid() && Contents() == Truncate(old(Contents()), maxEntries) && nodes <= old(nodes)
    {
      hide Sound; hide Contents;
      ghost var start, all := Contents(), nodes;
      SizesAgree();
      assert start[..|nodes|] == start;
      while |table| > maxEntries
        invariant Sound() && |table| == |nodes| <= |start|
        invariant |nodes| == |start| || |nodes| >= maxEntries
        invariant Contents() == start[..|nodes|]
        invariant nodes <= all
        decreases |table|
      {
        LastIsLast();
        if last == null {
          return;
        }
        var tail := last;
        ghost var n := |nodes| - 1;
        DropNode(tail, n);
        assert Cut(start[..n + 1], n) == start[..n];
        SizesAgree();
      }
    }

    lemma LastIsLast()
      requires Sound()
      ensures nodes != [] ==> last == nodes[|nodes| - 1]
      ensures last == null ==> nodes == []
    {
    }

    lemma SizesAgree()
      requires Sound()
      ensures |table| == |nodes| == |Contents()|
    {
    }

    method Put(key: nat, value: V)
      requires Valid()
      modifies this, nodes
      ensures Valid() && Contents() == Recency.Put(old(Contents()), key, value, maxEntries)
      ensures forall n :: n in nodes ==> n in old(nodes) || fresh(n)
    {
      hide Sound; hide Contents; hide Without;
      if key in table {
        Refresh(key, value);
        return;
      }
      Absent(key);
      PutFront(key, value);
      EvictIfNeeded();
    }

    method PutFront(key: nat, value: V)
      requires Sound() && key !in table
      modifies this, nodes
      ensures Sound() && Contents() == [(key, value)] + old(Contents())
      ensures |nodes| == |old(nodes)| + 1 && fresh(nodes[0]) && nodes[1..] == old(nodes)
    {
      hide ValidList; hide Indexed; hide Contents;
      var node := new Node(key, value);
      IndexedInFront(table, nodes, node);
      Prepend(node);
      table := table[key := node];
    }

    /** A put of a key already present: new value, moved to the front. */
    method Refresh(key: nat, value: V)
      requires Valid() && key in table
      modifies this, nodes
      ensures Valid() && Contents() == Recency.Put(old(Contents()), key, value, maxEntries)
      ensures forall n :: n in nodes ==> n in old(nodes) || fresh(n)
    {
      hide Sound; hide Cut; hide Without; hide Contents;
      ghost var i := Found(key);
      var node := table[key];
      FoundSizes(key);
      SetValue(node, i, value);
      Touch(node, i);
    }

    lemma FoundSizes(key: nat)
      requires Sound() && key in table
      ensures table[key].key == key && |Without(Contents(), key)| == |nodes| - 1
    {
      var i := Found(key);
    }

    method SetValue(node: Node<V>, ghost i: nat, value: V)
      requires Sound() && i < |nodes| && nodes[i] == node
      modifies node`value
      ensures Sound() && node.value == value
      ensures |Contents()| == |old(Contents())| && Cut(Contents(), i) == Cut(old(Contents()), i)
    {
      node.value := value;
    }
  }

  /** One operation on the cache; a get also returns what it found. */
  method Perform<V>(cache: LruCache<V>, op: Op<V>) returns (r: Option<V>)
    requires cache.Valid()
    modifies cache, cache.nodes
    ensures cache.Valid() && cache.Contents() == ApplyList(old(cache.Contents()), op, cache.maxEntries)
    ensures op.DoGet? ==> r == Lookup(old(cache.Contents()), op.key)
    ensures forall n :: n in cache.nodes ==> n in old(cache.nodes) || fresh(n)
  {
    hide Lookup; hide Without; hide Recency.Put; hide Use;
    r := None;
    match op {
      case DoPut(key, value) => cache.Put(key, value);
      case DoGet(key) => r := cache.Get(key);
      case DoRemove(key) => cache.Remove(key);
    }
  }

  lemma OneMoreRun<V>(ops: seq<Op<V>>, n: nat, max: nat)
    requires n < |ops|
    ensures RunList(ops[..n + 1], max) == ApplyList(RunList(ops[..n], max), ops[n], max)
  {
    assert ops[..n + 1][..n] == ops[..n];
  }

  /**
   Any sequence of operations on a new cache: every get returns what the recency list of the
   operations before it holds, and at the end map and list hold exactly that list.
   */
  method RunCache<V>(ops: seq<Op<V>>, max: nat) returns (cache: LruCache<V>, got: seq<Option<V>>)
    ensures cache.Valid() && cache.maxEntries == max && cache.Contents() == RunList(ops, max)
    ensures |got| == |ops|
    ensures forall i :: 0 <= i < |ops| && ops[i].DoGet? ==> got[i] == Lookup(RunList(ops[..i], max), ops[i].key)
  {
    hide Lookup; hide ApplyList; hide RunList; hide LruCache.Valid; hide LruCache.Contents;
    cache := new LruCache(max);
    got := [];
    NothingRun(ops, max);
    for n := 0 to |ops|
      invariant fresh(cache) && fresh(cache.nodes) && cache.Valid() && cache.maxEntries == max
      invariant |got| == n && cache.Contents() == RunList(ops[..n], max)
      invariant forall i :: 0 <= i < n && ops[i].DoGet? ==> got[i] == Lookup(RunList(ops[..i], max), ops[i].key)
    {
      OneMoreRun(ops, n, max);
      ghost var before := cache.nodes;
      var r := Perform(cache, ops[n]);
      forall i | 0 <= i < |cache.nodes|
        ensures fresh(cache.nodes[i])
      {
        assert cache.nodes[i] in cache.nodes;
        assert forall k :: 0 <= k < |before| ==> fresh(before[k]);
      }
      got := got + [r];
    }
    assert ops[..|ops|] == ops;
  }

  lemma NothingRun<V>(ops: seq<Op<V>>, max: nat)
    ensures RunList(ops[..0], max) == []
  {
  }
}
