/** One segment of the ConcurrentHashMap: a power-of-two table of bucket
    chains, updated under the segment's lock. A chain is the list of nodes
    reachable from a bucket, modelled as a sequence of HashEntry values, first
    node first. The abstract meaning of a segment is the finite map
    `contents`; `Represents` ties the table to it. */
module Segments {
  import opened Common
  import opened MapSizing

  /** A node of a chain: the spread hash of its key, the key and the value. */
  datatype HashEntry<K, V> = HashEntry(hash: bv32, key: K, value: V)

  type Chain<K, V> = seq<HashEntry<K, V>>

  /** The value a map holds for k, or null. */
  function Lookup<K, V>(m: map<K, V>, k: K): Option<V> {
    if k in m then Some(m[k]) else None
  }

  // The table invariant is stated over three named terms (KeyAt, NodeAt and
  // NodeFor) that serve as its triggers: a fact about every node of the table
  // is instantiated only at the nodes a proof names, which keeps every method
  // that carries the invariant from unfolding it at every sequence index.

  /** The key of node a of chain c. */
  ghost function KeyAt<K, V>(c: Chain<K, V>, a: int): K
    requires 0 <= a < |c|
  {
    c[a].key
  }

  /** Node j of bucket i of table t. */
  ghost function NodeAt<K, V>(t: seq<Chain<K, V>>, i: int, j: int): HashEntry<K, V>
    requires 0 <= i < |t| && 0 <= j < |t[i]|
  {
    t[i][j]
  }

  /** The node that must represent the mapping of k in m. */
  ghost function NodeFor<K, V>(m: map<K, V>, hashOf: K -> bv32, k: K): HashEntry<K, V>
    requires k in m
  {
    HashEntry(hashOf(k), k, m[k])
  }

  /** No key occurs twice in a chain. */
  ghost predicate DistinctKeys<K, V>(c: Chain<K, V>) {
    forall a, b {:trigger KeyAt(c, a), KeyAt(c, b)} :: 0 <= a < b < |c| ==> KeyAt(c, a) != KeyAt(c, b)
  }

  /** x is a correct node of bucket i of an n-slot table holding m. */
  ghost predicate EntryAt<K, V>(x: HashEntry<K, V>, i: int, n: int, m: map<K, V>, hashOf: K -> bv32)
    requires n > 0
  {
    x.hash == hashOf(x.key) && BucketIndex(x.hash, n) == i && x.key in m && m[x.key] == x.value
  }

  /** Every node of t sits in the bucket its hash selects and agrees with m. */
  ghost predicate NodesAgree<K, V>(t: seq<Chain<K, V>>, m: map<K, V>, hashOf: K -> bv32)
    requires |t| > 0
  {
    forall i, j {:trigger NodeAt(t, i, j)} :: 0 <= i < |t| && 0 <= j < |t[i]| ==>
      EntryAt(NodeAt(t, i, j), i, |t|, m, hashOf)
  }

  /** No chain of t holds a key twice. */
  ghost predicate ChainsDistinct<K, V>(t: seq<Chain<K, V>>) {
    forall i :: 0 <= i < |t| ==> DistinctKeys(t[i])
  }

  /** Every mapping of m has its node in its key's bucket of t. */
  ghost predicate MappingsPresent<K, V>(t: seq<Chain<K, V>>, m: map<K, V>, hashOf: K -> bv32)
    requires |t| > 0
  {
    forall k {:trigger NodeFor(m, hashOf, k)} :: k in m ==>
      NodeFor(m, hashOf, k) in t[BucketIndex(hashOf(k), |t|)]
  }

  /** The table t holds exactly the mappings of m. */
  ghost predicate Represents<K, V>(t: seq<Chain<K, V>>, m: map<K, V>, hashOf: K -> bv32) {
    |t| > 0 && NodesAgree(t, m, hashOf) && ChainsDistinct(t) && MappingsPresent(t, m, hashOf)
  }

  // ---------------------------------------------------------------------------
  // Lemmas about chains and tables
  // ---------------------------------------------------------------------------

  /** A table of empty buckets represents the empty map. */
  lemma EmptyTable<K, V>(n: nat, hashOf: K -> bv32)
    requires n > 0
    ensures Represents<K, V>(seq(n, _ => []), map[], hashOf)
  {
  }

  /** Searching the key's bucket decides membership: the first node with the
      key gives its value, and a key of the map is always found. */
  lemma ChainLookup<K, V>(t: seq<Chain<K, V>>, m: map<K, V>, hashOf: K -> bv32, k: K, j: nat)
    requires Represents(t, m, hashOf)
    requires var c := t[BucketIndex(hashOf(k), |t|)];
             j <= |c| && forall q :: 0 <= q < j ==> c[q].key != k
    ensures var c := t[BucketIndex(hashOf(k), |t|)];
            j < |c| && c[j].key == k ==> Lookup(m, k) == Some(c[j].value)
    ensures k in m ==> j < |t[BucketIndex(hashOf(k), |t|)]|
  {
    var i := BucketIndex(hashOf(k), |t|);
    var c := t[i];
    if j < |c| && c[j].key == k {
      assert EntryAt(NodeAt(t, i, j), i, |t|, m, hashOf);
    }
    if k in m {
      var x := NodeFor(m, hashOf, k);
      assert x in c;
      var q :| 0 <= q < |c| && c[q] == x;
      assert j <= q;
    }
  }

  /** The nodes of bucket i have distinct keys, all hash to i and all are keys
      of the map. */
  lemma BucketNodes<K, V>(t: seq<Chain<K, V>>, m: map<K, V>, hashOf: K -> bv32, i: nat)
    requires Represents(t, m, hashOf) && i < |t|
    ensures DistinctKeys(t[i])
    ensures forall x :: x in t[i] ==> BucketIndex(x.hash, |t|) == i && x.key in m
  {
    forall x | x in t[i]
      ensures BucketIndex(x.hash, |t|) == i && x.key in m
    {
      var j :| 0 <= j < |t[i]| && t[i][j] == x;
      assert EntryAt(NodeAt(t, i, j), i, |t|, m, hashOf);
    }
  }

  /** Putting a node for an absent key at the head of its bucket represents the
      map extended with that key. */
  lemma InsertAtHead<K, V>(t: seq<Chain<K, V>>, m: map<K, V>, hashOf: K -> bv32, k: K, v: V)
    requires Represents(t, m, hashOf) && k !in m
    ensures var i := BucketIndex(hashOf(k), |t|);
            Represents(t[i := [HashEntry(hashOf(k), k, v)] + t[i]], m[k := v], hashOf)
  {
    var i := BucketIndex(hashOf(k), |t|);
    var x := HashEntry(hashOf(k), k, v);
    var t' := t[i := [x] + t[i]];
    var m' := m[k := v];
    forall b, j | 0 <= b < |t'| && 0 <= j < |t'[b]|
      ensures EntryAt(NodeAt(t', b, j), b, |t'|, m', hashOf)
    {
      if b != i {
        assert NodeAt(t', b, j) == NodeAt(t, b, j);
      } else if j > 0 {
        assert NodeAt(t', b, j) == NodeAt(t, i, j - 1);
      }
    }
    forall b | 0 <= b < |t'|
      ensures DistinctKeys(t'[b])
    {
      if b == i {
        BucketNodes(t, m, hashOf, i);
        PrependDistinct(x, t[i]);
      }
    }
    forall k' | k' in m'
      ensures NodeFor(m', hashOf, k') in t'[BucketIndex(hashOf(k'), |t'|)]
    {
      if k' != k {
        assert NodeFor(m', hashOf, k') == NodeFor(m, hashOf, k');
      } else {
        assert t'[i][0] == NodeFor(m', hashOf, k');
      }
    }
  }

  /** Overwriting the value of the node holding k represents the map with k
      remapped. */
  lemma UpdateInPlace<K, V>(t: seq<Chain<K, V>>, m: map<K, V>, hashOf: K -> bv32, k: K, v: V, j: nat)
    requires Represents(t, m, hashOf)
    requires var i := BucketIndex(hashOf(k), |t|); j < |t[i]| && t[i][j].key == k
    ensures var i := BucketIndex(hashOf(k), |t|);
            Represents(t[i := t[i][j := HashEntry(hashOf(k), k, v)]], m[k := v], hashOf)
  {
    var i := BucketIndex(hashOf(k), |t|);
    var x := HashEntry(hashOf(k), k, v);
    var t' := t[i := t[i][j := x]];
    var m' := m[k := v];
    forall b, q | 0 <= b < |t'| && 0 <= q < |t'[b]|
      ensures EntryAt(NodeAt(t', b, q), b, |t'|, m', hashOf)
    {
      if b != i {
        assert NodeAt(t', b, q) == NodeAt(t, b, q);
        assert EntryAt(NodeAt(t, b, q), b, |t|, m, hashOf);
      } else if q != j {
        assert NodeAt(t', b, q) == NodeAt(t, i, q);
        assert KeyAt(t[i], q) != KeyAt(t[i], j);
      }
    }
    forall b | 0 <= b < |t'|
      ensures DistinctKeys(t'[b])
    {
      if b == i {
        forall p, q | 0 <= p < q < |t'[b]|
          ensures KeyAt(t'[b], p) != KeyAt(t'[b], q)
        {
          assert KeyAt(t'[b], p) == KeyAt(t[i], p) && KeyAt(t'[b], q) == KeyAt(t[i], q);
        }
      }
    }
    forall k' | k' in m'
      ensures NodeFor(m', hashOf, k') in t'[BucketIndex(hashOf(k'), |t'|)]
    {
      if k' != k {
        var y := NodeFor(m, hashOf, k');
        assert NodeFor(m', hashOf, k') == y;
        var b := BucketIndex(hashOf(k'), |t|);
        assert y in t[b];
        var q :| 0 <= q < |t[b]| && t[b][q] == y;
        if b == i {
          assert q != j;
          assert t'[b][q] == y;
        }
      } else {
        assert t'[i][j] == NodeFor(m', hashOf, k');
      }
    }
  }

  /** Removing a present key from a map shrinks it by one. */
  lemma RemoveKeyCard<K, V>(m: map<K, V>, k: K)
    requires k in m
    ensures |m - {k}| == |m| - 1
  {
    assert m.Keys == (m - {k}).Keys + {k};
  }

  /** Unlinking node j of bucket i represents the map without that node's key. */
  lemma RemoveNode<K, V>(t: seq<Chain<K, V>>, m: map<K, V>, hashOf: K -> bv32, i: nat, j: nat)
    requires Represents(t, m, hashOf)
    requires i < |t| && j < |t[i]|
    ensures Represents(t[i := t[i][..j] + t[i][j + 1..]], m - {t[i][j].key}, hashOf)
    ensures t[i][j].key in m && |m - {t[i][j].key}| == |m| - 1
  {
    assert EntryAt(NodeAt(t, i, j), i, |t|, m, hashOf);
    RemoveNodeAgree(t, m, hashOf, i, j);
    RemoveNodeDistinct(t, i, j);
    RemoveNodePresent(t, m, hashOf, i, j);
    RemoveKeyCard(m, t[i][j].key);
  }

  lemma RemoveNodeAgree<K, V>(t: seq<Chain<K, V>>, m: map<K, V>, hashOf: K -> bv32, i: nat, j: nat)
    requires |t| > 0 && NodesAgree(t, m, hashOf) && ChainsDistinct(t)
    requires i < |t| && j < |t[i]|
    ensures NodesAgree(t[i := t[i][..j] + t[i][j + 1..]], m - {t[i][j].key}, hashOf)
  {
    var c := t[i];
    var k := c[j].key;
    var c' := c[..j] + c[j + 1..];
    var t' := t[i := c'];
    forall b, q | 0 <= b < |t'| && 0 <= q < |t'[b]|
      ensures EntryAt(NodeAt(t', b, q), b, |t'|, m - {k}, hashOf)
    {
      if b == i {
        var q0 := if q < j then q else q + 1;
        assert NodeAt(t', b, q) == NodeAt(t, i, q0);
        assert DistinctKeys(c);
        assert KeyAt(c, q0) != KeyAt(c, j);
      } else {
        assert NodeAt(t', b, q) == NodeAt(t, b, q);
        assert EntryAt(NodeAt(t, b, q), b, |t|, m, hashOf);
        assert EntryAt(NodeAt(t, i, j), i, |t|, m, hashOf);
      }
    }
  }

  lemma RemoveNodeDistinct<K, V>(t: seq<Chain<K, V>>, i: nat, j: nat)
    requires ChainsDistinct(t)
    requires i < |t| && j < |t[i]|
    ensures ChainsDistinct(t[i := t[i][..j] + t[i][j + 1..]])
  {
    var c := t[i];
    var c' := c[..j] + c[j + 1..];
    assert DistinctKeys(c);
    forall p, q | 0 <= p < q < |c'|
      ensures KeyAt(c', p) != KeyAt(c', q)
    {
      var p0 := if p < j then p else p + 1;
      var q0 := if q < j then q else q + 1;
      assert KeyAt(c', p) == KeyAt(c, p0) && KeyAt(c', q) == KeyAt(c, q0);
    }
    assert DistinctKeys(c');
  }

  lemma RemoveNodePresent<K, V>(t: seq<Chain<K, V>>, m: map<K, V>, hashOf: K -> bv32, i: nat, j: nat)
    requires |t| > 0 && MappingsPresent(t, m, hashOf)
    requires i < |t| && j < |t[i]|
    ensures MappingsPresent(t[i := t[i][..j] + t[i][j + 1..]], m - {t[i][j].key}, hashOf)
  {
    var c := t[i];
    var k := c[j].key;
    var c' := c[..j] + c[j + 1..];
    var t' := t[i := c'];
    var m' := m - {k};
    forall k' | k' in m'
      ensures NodeFor(m', hashOf, k') in t'[BucketIndex(hashOf(k'), |t'|)]
    {
      var y := NodeFor(m, hashOf, k');
      assert NodeFor(m', hashOf, k') == y;
      var b := BucketIndex(hashOf(k'), |t|);
      assert y in t[b];
      if b == i {
        var q :| 0 <= q < |c| && c[q] == y;
        assert q != j;
        assert c'[if q < j then q else q - 1] == y;
      }
    }
  }

  // ---------------------------------------------------------------------------
  // Rehash: each old bucket splits into two new ones
  // ---------------------------------------------------------------------------

  /** The old bucket that new bucket b of a doubled table draws from. */
  function OldBucket(b: nat, oldCapacity: nat): nat {
    if b < oldCapacity then b else b - oldCapacity
  }

  /** nb holds exactly the nodes of ob that belong to new bucket b, each once
      by key. */
  ghost predicate SplitOf<K, V>(nb: Chain<K, V>, ob: Chain<K, V>, b: int, newCapacity: int)
    requires newCapacity > 0
  {
    && DistinctKeys(nb)
    && (forall x :: x in nb ==> x in ob && BucketIndex(x.hash, newCapacity) == b)
    && (forall x :: x in ob && BucketIndex(x.hash, newCapacity) == b ==> x in nb)
  }

  /** A hash in old bucket i of a c-slot table goes to bucket i or i + c of the
      doubled table. */
  lemma SplitTargets(h: bv32, c: nat)
    requires c > 0
    ensures BucketIndex(h, 2 * c) == BucketIndex(h, c) || BucketIndex(h, 2 * c) == BucketIndex(h, c) + c
    ensures OldBucket(BucketIndex(h, 2 * c), c) == BucketIndex(h, c)
  {
    ModDouble(Unsigned(h), c);
  }

  /** A doubled table whose every bucket is the split of its old bucket
      represents the same map. */
  lemma {:induction false} SplitRepresents<K, V>(t: seq<Chain<K, V>>, t2: seq<Chain<K, V>>, m: map<K, V>, hashOf: K -> bv32)
    requires Represents(t, m, hashOf) && |t2| == 2 * |t|
    requires forall b :: 0 <= b < |t2| ==> SplitOf(t2[b], t[OldBucket(b, |t|)], b, |t2|)
    ensures Represents(t2, m, hashOf)
  {
    var c := |t|;
    forall b, q | 0 <= b < |t2| && 0 <= q < |t2[b]|
      ensures EntryAt(NodeAt(t2, b, q), b, |t2|, m, hashOf)
    {
      var x := t2[b][q];
      assert x in t2[b];
      var ob := t[OldBucket(b, c)];
      assert SplitOf(t2[b], ob, b, |t2|);
      assert x in ob;
      var p :| 0 <= p < |ob| && ob[p] == x;
      assert EntryAt(NodeAt(t, OldBucket(b, c), p), OldBucket(b, c), c, m, hashOf);
    }
    forall b | 0 <= b < |t2|
      ensures DistinctKeys(t2[b])
    {
      assert SplitOf(t2[b], t[OldBucket(b, c)], b, |t2|);
    }
    forall k | k in m
      ensures NodeFor(m, hashOf, k) in t2[BucketIndex(hashOf(k), |t2|)]
    {
      var x := NodeFor(m, hashOf, k);
      SplitTargets(hashOf(k), c);
      var b := BucketIndex(hashOf(k), |t2|);
      assert x in t[OldBucket(b, c)];
      assert SplitOf(t2[b], t[OldBucket(b, c)], b, |t2|);
    }
  }

  /** Doubling a power-of-two table below the maximum capacity stays a power
      of two within it. */
  lemma DoubledCapacity(n: int)
    requires IsPow2(n) && n < MAXIMUM_CAPACITY
    ensures IsPow2(2 * n) && 2 * n <= MAXIMUM_CAPACITY
  {
    DoubleIsPow2(n);
    Pow2IsPow2(30);
    Pow2Constants();
    DoubleWithin(n, MAXIMUM_CAPACITY);
  }

  /** Prepending a node whose key is new to a chain keeps keys distinct. */
  lemma PrependDistinct<K, V>(x: HashEntry<K, V>, c: Chain<K, V>)
    requires DistinctKeys(c) && forall y :: y in c ==> y.key != x.key
    ensures DistinctKeys([x] + c)
  {
    forall p, q | 0 <= p < q < |[x] + c|
      ensures KeyAt([x] + c, p) != KeyAt([x] + c, q)
    {
      assert KeyAt([x] + c, q) == KeyAt(c, q - 1);
      if p > 0 {
        assert KeyAt([x] + c, p) == KeyAt(c, p - 1);
      } else {
        assert c[q - 1] in c;
      }
    }
  }

  /** The nodes the cloning loop has placed in bucket b of the new table after
      cloning e[..p] in front of the reused run e[lastRun..]. */
  ghost predicate ClonedSoFar<K, V>(nb: Chain<K, V>, e: Chain<K, V>, p: int, lastRun: int, lastIdx: int,
                                    b: int, newCapacity: int)
    requires 0 <= p <= lastRun <= |e| && newCapacity > 0
  {
    && DistinctKeys(nb)
    && (forall x :: x in nb ==>
          (x in e[..p] && BucketIndex(x.hash, newCapacity) == b) || (x in e[lastRun..] && b == lastIdx))
    && (forall x :: x in e[..p] && BucketIndex(x.hash, newCapacity) == b ==> x in nb)
    && (forall x :: x in e[lastRun..] && b == lastIdx ==> x in nb)
  }

  lemma DistinctSuffix<K, V>(e: Chain<K, V>, r: nat)
    requires DistinctKeys(e) && r <= |e|
    ensures DistinctKeys(e[r..])
  {
    forall p, q | 0 <= p < q < |e| - r
      ensures KeyAt(e[r..], p) != KeyAt(e[r..], q)
    {
      assert KeyAt(e[r..], p) == KeyAt(e, r + p) && KeyAt(e[r..], q) == KeyAt(e, r + q);
    }
  }

  /** Node e[p] has a key different from every node of e[..p] and e[lastRun..]. */
  lemma FreshKeyAt<K, V>(e: Chain<K, V>, p: int, lastRun: int)
    requires DistinctKeys(e) && 0 <= p < lastRun <= |e|
    ensures forall y :: y in e[..p] || y in e[lastRun..] ==> y.key != e[p].key
  {
    forall y | y in e[..p] || y in e[lastRun..]
      ensures y.key != e[p].key
    {
      if y in e[..p] {
        var q :| 0 <= q < p && e[..p][q] == y;
        assert KeyAt(e, q) == y.key;
        assert KeyAt(e, q) != KeyAt(e, p);
      } else {
        var q :| 0 <= q < |e| - lastRun && e[lastRun..][q] == y;
        assert KeyAt(e, lastRun + q) == y.key;
        assert KeyAt(e, p) != KeyAt(e, lastRun + q);
      }
    }
  }

  /** A one-node chain moved whole to its new bucket idx is the split of the
      old chain for every bucket b (the node's, or an empty other one). */
  lemma SingleNodeSplit<K, V>(e: Chain<K, V>, idx: int, b: int, newCapacity: int)
    requires |e| == 1 && newCapacity > 0 && idx == BucketIndex(e[0].hash, newCapacity)
    ensures SplitOf(if b == idx then e else [], e, b, newCapacity)
  {
  }

  /** Before cloning, only the reused run e[lastRun..] has been placed, in
      bucket lastIdx. */
  lemma ClonedStart<K, V>(nb: Chain<K, V>, e: Chain<K, V>, lastRun: int, lastIdx: int,
                          b: int, newCapacity: int)
    requires 0 <= lastRun <= |e| && newCapacity > 0 && DistinctKeys(e)
    requires nb == if b == lastIdx then e[lastRun..] else []
    ensures ClonedSoFar(nb, e, 0, lastRun, lastIdx, b, newCapacity)
  {
    DistinctSuffix(e, lastRun);
  }

  /** One step of the cloning loop, for the bucket node e[p] belongs to: it
      is prepended. */
  lemma ClonedStepHit<K, V>(nb: Chain<K, V>, e: Chain<K, V>, p: int, lastRun: int, lastIdx: int,
                            b: int, newCapacity: int)
    requires 0 <= p < lastRun <= |e| && newCapacity > 0 && DistinctKeys(e)
    requires ClonedSoFar(nb, e, p, lastRun, lastIdx, b, newCapacity)
    requires BucketIndex(e[p].hash, newCapacity) == b
    ensures ClonedSoFar([e[p]] + nb, e, p + 1, lastRun, lastIdx, b, newCapacity)
  {
    assert e[..p + 1] == e[..p] + [e[p]];
    FreshKeyAt(e, p, lastRun);
    PrependDistinct(e[p], nb);
  }

  /** One step of the cloning loop, for the other bucket: it is left alone. */
  lemma ClonedStepMiss<K, V>(nb: Chain<K, V>, e: Chain<K, V>, p: int, lastRun: int, lastIdx: int,
                             b: int, newCapacity: int)
    requires 0 <= p < lastRun <= |e| && newCapacity > 0
    requires ClonedSoFar(nb, e, p, lastRun, lastIdx, b, newCapacity)
    requires BucketIndex(e[p].hash, newCapacity) != b
    ensures ClonedSoFar(nb, e, p + 1, lastRun, lastIdx, b, newCapacity)
  {
    assert e[..p + 1] == e[..p] + [e[p]];
  }

  /** When cloning has reached the reused run, whose nodes all belong to
      lastIdx, the bucket is exactly the split of the old chain. */
  lemma ClonedComplete<K, V>(nb: Chain<K, V>, e: Chain<K, V>, lastRun: int, lastIdx: int,
                             b: int, newCapacity: int)
    requires 0 <= lastRun <= |e| && newCapacity > 0
    requires ClonedSoFar(nb, e, lastRun, lastRun, lastIdx, b, newCapacity)
    requires forall q :: lastRun <= q < |e| ==> BucketIndex(e[q].hash, newCapacity) == lastIdx
    ensures SplitOf(nb, e, b, newCapacity)
  {
    assert e == e[..lastRun] + e[lastRun..];
    forall x | x in e[lastRun..]
      ensures BucketIndex(x.hash, newCapacity) == lastIdx
    {
      var q :| 0 <= q < |e| - lastRun && e[lastRun..][q] == x;
      assert e[lastRun + q] == x;
    }
  }

  /** Some key of m maps to v. */
  ghost predicate HasValue<K, V>(m: map<K, V>, v: V) {
    exists k :: k in m && m[k] == v
  }

  /** A node holding v witnesses a mapping to v. */
  lemma NodeHasValue<K, V>(t: seq<Chain<K, V>>, m: map<K, V>, hashOf: K -> bv32, i: nat, q: nat, v: V)
    requires Represents(t, m, hashOf) && i < |t| && q < |t[i]| && t[i][q].value == v
    ensures HasValue(m, v)
  {
    assert EntryAt(NodeAt(t, i, q), i, |t|, m, hashOf);
  }

  /** A table with no node holding v represents a map with no mapping to v. */
  lemma NoNodeHasValue<K, V>(t: seq<Chain<K, V>>, m: map<K, V>, hashOf: K -> bv32, v: V)
    requires Represents(t, m, hashOf)
    requires forall i, x :: 0 <= i < |t| && x in t[i] ==> x.value != v
    ensures !HasValue(m, v)
  {
    forall k | k in m
      ensures m[k] != v
    {
      assert NodeFor(m, hashOf, k) in t[BucketIndex(hashOf(k), |t|)];
    }
  }

  /** The walk along a chain that containsValue does: the position of the
      first node holding v, or the chain's length when there is none. */
  method FindValue<K, V(==)>(c: Chain<K, V>, v: V) returns (j: nat)
    ensures j <= |c|
    ensures j < |c| ==> c[j].value == v
    ensures forall x :: x in c[..j] ==> x.value != v
  {
    j := 0;
    while j < |c| && c[j].value != v
      invariant j <= |c|
      invariant forall x :: x in c[..j] ==> x.value != v
    {
      assert c[..j + 1] == c[..j] + [c[j]];
      j := j + 1;
    }
  }

  /** The walk along a chain that every keyed operation starts with: the
      position of the first node with the key, or the chain's length when
      there is none. */
  method FindKey<K(==), V>(c: Chain<K, V>, key: K) returns (j: nat)
    ensures j <= |c|
    ensures j < |c| ==> c[j].key == key
    ensures forall q :: 0 <= q < j ==> c[q].key != key
  {
    j := 0;
    while j < |c| && c[j].key != key
      invariant j <= |c|
      invariant forall q :: 0 <= q < j ==> c[q].key != key
    {
      j := j + 1;
    }
  }

  // ---------------------------------------------------------------------------
  // The segment
  // ---------------------------------------------------------------------------

  class Segment<K(==), V(==)> {
    var table: array<Chain<K, V>>
    var count: int
    var modCount: int
    var threshold: int
    const loadFactor: LoadFactor
    /** The spread hash of each key; the map computes it from hashCode. */
    ghost const hashOf: K -> bv32
    /** The mappings this segment holds. */
    ghost var contents: map<K, V>

    ghost predicate Valid()
      reads this, table
    {
      loadFactor.Positive()
      && IsPow2(table.Length) && table.Length <= MAXIMUM_CAPACITY
      && Represents(table[..], contents, hashOf)
      && count == |contents|
    }

    /** Segment(lf, threshold, tab) with tab a fresh table of cap empty buckets. */
    constructor (lf: LoadFactor, threshold: int, cap: nat, ghost hashOf: K -> bv32)
      requires lf.Positive() && IsPow2(cap) && cap <= MAXIMUM_CAPACITY
      ensures Valid() && fresh(table)
      ensures contents == map[] && count == 0 && modCount == 0
      ensures this.loadFactor == lf && this.threshold == threshold && table.Length == cap
      ensures this.hashOf == hashOf
    {
      this.loadFactor := lf;
      this.threshold := threshold;
      this.hashOf := hashOf;
      table := new Chain<K, V>[cap](_ => []);
      contents := map[];
      count := 0;
      modCount := 0;
      new;
      EmptyTable<K, V>(cap, hashOf);
      assert table[..] == seq(cap, _ => []);
    }

    /** put: find the key in its bucket; overwrite its value unless
        onlyIfAbsent, or link a new node at the head of the bucket, first
        doubling the table when the new count would pass the threshold. */
    method Put(key: K, hash: bv32, value: V, onlyIfAbsent: bool) returns (oldValue: Option<V>)
      requires Valid() && hash == hashOf(key)
      modifies table, `table, `threshold, `count, `modCount, `contents
      ensures Valid()
      ensures oldValue == Lookup(old(contents), key)
      ensures contents == if key in old(contents) && onlyIfAbsent then old(contents)
                          else old(contents)[key := value]
      ensures count == old(count) + (if key in old(contents) then 0 else 1)
      ensures modCount == old(modCount) + (if key in old(contents) && onlyIfAbsent then 0 else 1)
      ensures key !in old(contents) && old(count) + 1 > old(threshold) && old(table.Length) < MAXIMUM_CAPACITY ==>
                fresh(table) && table.Length == 2 * old(table.Length)
                && threshold == Threshold(table.Length, loadFactor)
                && old(table)[..] == old(table[..])
      ensures !(key !in old(contents) && old(count) + 1 > old(threshold) && old(table.Length) < MAXIMUM_CAPACITY) ==>
                table == old(table) && threshold == old(threshold)
    {
      var tab := table;
      var index := BucketIndex(hash, tab.Length);
      var first := tab[index];
      var j := FindKey(first, key);
      ghost var t0 := tab[..];
      ChainLookup(t0, contents, hashOf, key, j);
      if j < |first| {
        oldValue := Some(first[j].value);
        if !onlyIfAbsent {
          UpdateInPlace(t0, contents, hashOf, key, value, j);
          tab[index] := first[j := HashEntry(hash, key, value)];
          assert tab[..] == t0[index := t0[index][j := HashEntry(hashOf(key), key, value)]];
          contents := contents[key := value];
          modCount := modCount + 1;
        }
      } else {
        var node := HashEntry(hash, key, value);
        var c := count + 1;
        if c > threshold && tab.Length < MAXIMUM_CAPACITY {
          Rehash(node);
        } else {
          InsertAtHead(t0, contents, hashOf, key, value);
          tab[index] := [node] + first;
          assert tab[..] == t0[index := [HashEntry(hashOf(key), key, value)] + t0[index]];
        }
        contents := contents[key := value];
        modCount := modCount + 1;
        count := c;
        oldValue := None;
      }
    }

    /** rehash: a table twice as long, each old bucket split between the same
        index and the index one old length higher, and then the new node linked
        at the head of its bucket. The old table is only read. */
    method Rehash(node: HashEntry<K, V>)
      requires Valid() && node.hash == hashOf(node.key) && node.key !in contents
      requires table.Length < MAXIMUM_CAPACITY
      modifies `table, `threshold
      ensures fresh(table) && table.Length == 2 * old(table.Length)
      ensures threshold == Threshold(table.Length, loadFactor)
      ensures Represents(table[..], old(contents)[node.key := node.value], hashOf)
      ensures IsPow2(table.Length) && table.Length <= MAXIMUM_CAPACITY
      ensures old(table)[..] == old(table[..])
    {
      var oldTable := table;
      var oldCapacity := oldTable.Length;
      var newCapacity := 2 * oldCapacity;
      threshold := Threshold(newCapacity, loadFactor);
      var newTable := SplitTable(oldTable, contents, hashOf);
      SplitRepresents(oldTable[..], newTable[..], contents, hashOf);
      InsertAtHead(newTable[..], contents, hashOf, node.key, node.value);
      var nodeIndex := BucketIndex(node.hash, newCapacity);
      newTable[nodeIndex] := [node] + newTable[nodeIndex];
      DoubledCapacity(oldCapacity);
      table := newTable;
    }

    /** The outer loop of rehash: a fresh table of twice the length in which
        every bucket is the split of its old bucket. */
    static method SplitTable(oldTable: array<Chain<K, V>>, ghost m: map<K, V>, ghost hashOf: K -> bv32)
      returns (newTable: array<Chain<K, V>>)
      requires Represents(oldTable[..], m, hashOf)
      ensures fresh(newTable) && newTable.Length == 2 * oldTable.Length
      ensures forall b :: 0 <= b < newTable.Length ==>
                SplitOf(newTable[b], oldTable[OldBucket(b, oldTable.Length)], b, newTable.Length)
    {
      var oldCapacity := oldTable.Length;
      var newCapacity := 2 * oldCapacity;
      newTable := new Chain<K, V>[newCapacity](_ => []);
      var i := 0;
      while i < oldCapacity
        invariant 0 <= i <= oldCapacity
        invariant forall b :: 0 <= b < newCapacity && OldBucket(b, oldCapacity) < i ==>
                    SplitOf(newTable[b], oldTable[OldBucket(b, oldCapacity)], b, newCapacity)
      {
        BucketNodes(oldTable[..], m, hashOf, i);
        var lo, hi := Reclassify(oldTable[i], i, oldCapacity);
        newTable[i] := lo;
        newTable[i + oldCapacity] := hi;
        i := i + 1;
      }
    }

    /** One iteration of rehash's outer loop: the chains that old bucket i of
        `oldCapacity` leaves in new buckets i (lo) and i + oldCapacity (hi). A
        single node is moved as it is; otherwise the trailing run of nodes that
        all go to the same new bucket is reused whole, and the nodes before it
        are cloned one by one onto the head of their new bucket. */
    static method Reclassify(e: Chain<K, V>, i: nat, oldCapacity: nat) returns (lo: Chain<K, V>, hi: Chain<K, V>)
      requires i < oldCapacity
      requires DistinctKeys(e) && forall x :: x in e ==> BucketIndex(x.hash, oldCapacity) == i
      ensures SplitOf(lo, e, i, 2 * oldCapacity)
      ensures SplitOf(hi, e, i + oldCapacity, 2 * oldCapacity)
    {
      var newCapacity := 2 * oldCapacity;
      if e == [] {
        return [], [];
      }
      var idx := BucketIndex(e[0].hash, newCapacity);
      assert e[0] in e;
      SplitTargets(e[0].hash, oldCapacity);
      if |e| == 1 {
        lo, hi := if idx == i then e else [], if idx == i then [] else e;
        SingleNodeSplit(e, idx, i, newCapacity);
        SingleNodeSplit(e, idx, i + oldCapacity, newCapacity);
        return;
      }
      var lastRun, lastIdx := FindLastRun(e, newCapacity, i, oldCapacity);
      lo := if lastIdx == i then e[lastRun..] else [];
      hi := if lastIdx == i then [] else e[lastRun..];
      ClonedStart(lo, e, lastRun, lastIdx, i, newCapacity);
      ClonedStart(hi, e, lastRun, lastIdx, i + oldCapacity, newCapacity);
      lo, hi := CloneBeforeRun(e, i, oldCapacity, lastRun, lastIdx, lo, hi);
      ClonedComplete(lo, e, lastRun, lastIdx, i, newCapacity);
      ClonedComplete(hi, e, lastRun, lastIdx, i + oldCapacity, newCapacity);
    }

    /** The first loop of a multi-node bucket in rehash: the start of the
        longest trailing run of nodes that share a new bucket, and that bucket. */
    static method FindLastRun(e: Chain<K, V>, newCapacity: nat, i: nat, oldCapacity: nat)
      returns (lastRun: nat, lastIdx: nat)
      requires |e| > 0 && newCapacity == 2 * oldCapacity && i < oldCapacity
      requires forall x :: x in e ==> BucketIndex(x.hash, oldCapacity) == i
      ensures lastRun < |e|
      ensures forall q :: lastRun <= q < |e| ==> BucketIndex(e[q].hash, newCapacity) == lastIdx
      ensures lastRun == 0 || BucketIndex(e[lastRun - 1].hash, newCapacity) != lastIdx
      ensures lastIdx == i || lastIdx == i + oldCapacity
    {
      lastRun := 0;
      lastIdx := BucketIndex(e[0].hash, newCapacity);
      assert e[0] in e;
      SplitTargets(e[0].hash, oldCapacity);
      var last := 1;
      while last < |e|
        invariant 0 <= lastRun < last <= |e|
        invariant forall q :: lastRun <= q < last ==> BucketIndex(e[q].hash, newCapacity) == lastIdx
        invariant lastRun == 0 || BucketIndex(e[lastRun - 1].hash, newCapacity) != lastIdx
        invariant lastIdx == i || lastIdx == i + oldCapacity
      {
        var k := BucketIndex(e[last].hash, newCapacity);
        assert e[last] in e;
        SplitTargets(e[last].hash, oldCapacity);
        if k != lastIdx {
          lastIdx := k;
          lastRun := last;
        }
        last := last + 1;
      }
    }

    /** The second loop of a multi-node bucket in rehash: clone every node
        before the reused run onto the head of its new bucket. */
    static method CloneBeforeRun(e: Chain<K, V>, i: nat, oldCapacity: nat, lastRun: nat, lastIdx: nat,
                                 lo0: Chain<K, V>, hi0: Chain<K, V>)
      returns (lo: Chain<K, V>, hi: Chain<K, V>)
      requires i < oldCapacity && lastRun <= |e|
      requires DistinctKeys(e) && forall x :: x in e ==> BucketIndex(x.hash, oldCapacity) == i
      requires ClonedSoFar(lo0, e, 0, lastRun, lastIdx, i, 2 * oldCapacity)
      requires ClonedSoFar(hi0, e, 0, lastRun, lastIdx, i + oldCapacity, 2 * oldCapacity)
      ensures ClonedSoFar(lo, e, lastRun, lastRun, lastIdx, i, 2 * oldCapacity)
      ensures ClonedSoFar(hi, e, lastRun, lastRun, lastIdx, i + oldCapacity, 2 * oldCapacity)
    {
      var newCapacity := 2 * oldCapacity;
      lo, hi := lo0, hi0;
      var p := 0;
      while p < lastRun
        invariant 0 <= p <= lastRun
        invariant ClonedSoFar(lo, e, p, lastRun, lastIdx, i, newCapacity)
        invariant ClonedSoFar(hi, e, p, lastRun, lastIdx, i + oldCapacity, newCapacity)
      {
        var x := e[p];
        var k := BucketIndex(x.hash, newCapacity);
        assert x in e;
        SplitTargets(x.hash, oldCapacity);
        if k == i {
          ClonedStepHit(lo, e, p, lastRun, lastIdx, i, newCapacity);
          ClonedStepMiss(hi, e, p, lastRun, lastIdx, i + oldCapacity, newCapacity);
          lo := [x] + lo;
        } else {
          ClonedStepMiss(lo, e, p, lastRun, lastIdx, i, newCapacity);
          ClonedStepHit(hi, e, p, lastRun, lastIdx, i + oldCapacity, newCapacity);
          hi := [x] + hi;
        }
        p := p + 1;
      }
    }

    /** remove: unlink the key's node if the key is present and either no
        expected value is given or the stored value equals it. */
    method Remove(key: K, hash: bv32, value: Option<V>) returns (oldValue: Option<V>)
      requires Valid() && hash == hashOf(key)
      modifies table, `modCount, `count, `contents
      ensures Valid()
      ensures var matches := key in old(contents) && (value.None? || value.value == old(contents)[key]);
              && oldValue == (if matches then Some(old(contents)[key]) else None)
              && contents == (if matches then old(contents) - {key} else old(contents))
              && count == old(count) - (if matches then 1 else 0)
              && modCount == old(modCount) + (if matches then 1 else 0)
      ensures forall b :: 0 <= b < table.Length && b != BucketIndex(hash, table.Length) ==>
                table[b] == old(table[b])
    {
      var tab := table;
      var index := BucketIndex(hash, tab.Length);
      var e := tab[index];
      oldValue := None;
      var j := FindKey(e, key);
      ChainLookup(tab[..], contents, hashOf, key, j);
      if j < |e| {
        var v := e[j].value;
        if value.None? || value.value == v {
          ghost var t0 := tab[..];
          RemoveNode(t0, contents, hashOf, index, j);
          tab[index] := e[..j] + e[j + 1..];
          assert tab[..] == t0[index := t0[index][..j] + t0[index][j + 1..]];
          contents := contents - {key};
          modCount := modCount + 1;
          count := count - 1;
          oldValue := Some(v);
        }
      }
    }

    /** replace(key, hash, oldValue, newValue): overwrite the value only if the
        key is present with a value equal to oldValue. */
    method Replace(key: K, hash: bv32, oldValue: V, newValue: V) returns (replaced: bool)
      requires Valid() && hash == hashOf(key)
      modifies table, `modCount, `contents
      ensures Valid()
      ensures replaced <==> key in old(contents) && old(contents)[key] == oldValue
      ensures contents == if replaced then old(contents)[key := newValue] else old(contents)
      ensures modCount == old(modCount) + (if replaced then 1 else 0)
      ensures forall b :: 0 <= b < table.Length && b != BucketIndex(hash, table.Length) ==>
                table[b] == old(table[b])
    {
      replaced := false;
      var tab := table;
      var index := BucketIndex(hash, tab.Length);
      var e := tab[index];
      var j := FindKey(e, key);
      ChainLookup(tab[..], contents, hashOf, key, j);
      if j < |e| && oldValue == e[j].value {
        UpdateInPlace(tab[..], contents, hashOf, key, newValue, j);
        tab[index] := e[j := HashEntry(hash, key, newValue)];
        assert tab[..] == old(table[..])[index := e[j := HashEntry(hash, key, newValue)]];
        contents := contents[key := newValue];
        modCount := modCount + 1;
        replaced := true;
      }
    }

    /** replace(key, hash, value): overwrite the value of a present key and
        return the previous one; an absent key is not inserted. */
    method ReplaceValue(key: K, hash: bv32, value: V) returns (oldValue: Option<V>)
      requires Valid() && hash == hashOf(key)
      modifies table, `modCount, `contents
      ensures Valid()
      ensures oldValue == Lookup(old(contents), key)
      ensures contents == if key in old(contents) then old(contents)[key := value] else old(contents)
      ensures modCount == old(modCount) + (if key in old(contents) then 1 else 0)
      ensures forall b :: 0 <= b < table.Length && b != BucketIndex(hash, table.Length) ==>
                table[b] == old(table[b])
    {
      oldValue := None;
      var tab := table;
      var index := BucketIndex(hash, tab.Length);
      var e := tab[index];
      var j := FindKey(e, key);
      ChainLookup(tab[..], contents, hashOf, key, j);
      if j < |e| {
        oldValue := Some(e[j].value);
        UpdateInPlace(tab[..], contents, hashOf, key, value, j);
        tab[index] := e[j := HashEntry(hash, key, value)];
        assert tab[..] == old(table[..])[index := e[j := HashEntry(hash, key, value)]];
        contents := contents[key := value];
        modCount := modCount + 1;
      }
    }

    /** clear: empty every bucket. */
    method Clear()
      requires Valid()
      modifies table, `modCount, `count, `contents
      ensures Valid()
      ensures contents == map[] && count == 0 && modCount == old(modCount) + 1
      ensures forall b :: 0 <= b < table.Length ==> table[b] == []
    {
      var tab := table;
      var i := 0;
      while i < tab.Length
        invariant 0 <= i <= tab.Length
        invariant forall b :: 0 <= b < i ==> tab[b] == []
        invariant modCount == old(modCount)
      {
        tab[i] := [];
        i := i + 1;
      }
      modCount := modCount + 1;
      count := 0;
      contents := map[];
      EmptyTable<K, V>(tab.Length, hashOf);
      assert tab[..] == seq(tab.Length, _ => []);
    }
  }
}
