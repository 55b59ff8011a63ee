/** The open-addressed table of ThreadLocal.ThreadLocalMap seen as a sequence
    of slots: circular probing, the counts the map keeps, the invariant of
    linear probing, and the facts about single-slot updates that the map's
    methods are proved with. */
module ThreadLocalTables {
  import opened Common

  /** An entry: a weak reference to its key, which reads None once the key
      has been collected ("stale"), and the value. */
  datatype Entry<K, V> = Entry(key: Option<K>, value: V)

  /** A slot of the table: null, or an entry. */
  type Slot<K, V> = Option<Entry<K, V>>

  const INITIAL_CAPACITY: int := 16

  /** i + 1 modulo len. */
  function NextIndex(i: int, len: int): (r: int)
    ensures 0 <= i < len ==> 0 <= r < len && r == (i + 1) % len
  {
    if i + 1 < len then i + 1 else 0
  }

  /** i - 1 modulo len. */
  function PrevIndex(i: int, len: int): (r: int)
    ensures 0 <= i < len ==> 0 <= r < len && r == (i - 1) % len
  {
    if i - 1 >= 0 then i - 1 else len - 1
  }

  /** Probing forward and probing backward undo each other. */
  lemma ProbeInverse(i: int, len: int)
    requires 0 <= i < len
    ensures PrevIndex(NextIndex(i, len), len) == i
    ensures NextIndex(PrevIndex(i, len), len) == i
  {
  }

  /** The number of forward probe steps from slot a to slot b of an n-slot table. */
  function Dist(a: int, b: int, n: int): int {
    if a <= b then b - a else b - a + n
  }

  /** One forward step from b adds one step to the distance from a, unless
      it comes back to a. */
  lemma DistNext(a: int, b: int, n: int)
    requires 0 <= a < n && 0 <= b < n
    ensures 0 <= Dist(a, b, n) < n
    ensures NextIndex(b, n) == a <==> Dist(a, b, n) == n - 1
    ensures NextIndex(b, n) != a ==> Dist(a, NextIndex(b, n), n) == Dist(a, b, n) + 1
  {
  }

  /** One backward step from a adds one step to the distance from it to b,
      unless it comes round to b. */
  lemma DistPrev(a: int, b: int, n: int)
    requires 0 <= a < n && 0 <= b < n
    ensures 0 <= Dist(a, b, n) < n
    ensures PrevIndex(a, n) == b <==> Dist(a, b, n) == n - 1
    ensures PrevIndex(a, n) != b ==> Dist(PrevIndex(a, n), b, n) == Dist(a, b, n) + 1
  {
  }

  predicate LiveSlot<K, V>(s: Slot<K, V>) {
    s.Some? && s.value.key.Some?
  }

  predicate StaleSlot<K, V>(s: Slot<K, V>) {
    s.Some? && s.value.key.None?
  }

  /** The key of the live entry in slot j. */
  ghost function KeyAt<K, V>(t: seq<Slot<K, V>>, j: int): K
    requires 0 <= j < |t| && LiveSlot(t[j])
  {
    t[j].value.key.value
  }

  /** The slot a key's probe sequence starts at. */
  function Home<K>(hashOf: K -> bv32, k: K, n: int): int
    requires n > 0
  {
    BucketIndex(hashOf(k), n)
  }

  // ---------------------------------------------------------------------------
  // Counting slots
  // ---------------------------------------------------------------------------

  function Ind(b: bool): nat {
    if b then 1 else 0
  }

  /** The number of non-null slots: what the map's size field counts. */
  ghost function Occupied<K, V>(t: seq<Slot<K, V>>): nat
    decreases |t|
  {
    if |t| == 0 then 0 else Occupied(t[..|t| - 1]) + Ind(t[|t| - 1].Some?)
  }

  /** The number of slots holding a live entry. */
  ghost function LiveCount<K, V>(t: seq<Slot<K, V>>): nat
    decreases |t|
  {
    if |t| == 0 then 0 else LiveCount(t[..|t| - 1]) + Ind(LiveSlot(t[|t| - 1]))
  }

  /** The number of slots holding a stale entry. */
  ghost function StaleCount<K, V>(t: seq<Slot<K, V>>): nat
    decreases |t|
  {
    if |t| == 0 then 0 else StaleCount(t[..|t| - 1]) + Ind(StaleSlot(t[|t| - 1]))
  }

  /** Writing one slot changes each count by what leaves and what enters it. */
  lemma {:induction false} CountsUpdate<K, V>(t: seq<Slot<K, V>>, i: int, x: Slot<K, V>)
    requires 0 <= i < |t|
    ensures Occupied(t[i := x]) == Occupied(t) - Ind(t[i].Some?) + Ind(x.Some?)
    ensures LiveCount(t[i := x]) == LiveCount(t) - Ind(LiveSlot(t[i])) + Ind(LiveSlot(x))
    ensures StaleCount(t[i := x]) == StaleCount(t) - Ind(StaleSlot(t[i])) + Ind(StaleSlot(x))
    decreases |t|
  {
    var u := t[i := x];
    if i == |t| - 1 {
      assert u[..|u| - 1] == t[..|t| - 1];
    } else {
      CountsUpdate(t[..|t| - 1], i, x);
      assert u[..|u| - 1] == t[..|t| - 1][i := x];
    }
  }

  /** Every non-null slot is live or stale. */
  lemma {:induction false} CountsSplit<K, V>(t: seq<Slot<K, V>>)
    ensures Occupied(t) == LiveCount(t) + StaleCount(t)
    decreases |t|
  {
    if |t| > 0 {
      CountsSplit(t[..|t| - 1]);
    }
  }

  /** A table with fewer occupied slots than slots has a null slot. */
  lemma {:induction false} NullExists<K, V>(t: seq<Slot<K, V>>) returns (z: int)
    requires Occupied(t) < |t|
    ensures 0 <= z < |t| && t[z].None?
    decreases |t|
  {
    if t[|t| - 1].None? {
      z := |t| - 1;
    } else {
      z := NullExists(t[..|t| - 1]);
    }
  }

  /** A table of null slots counts nothing. */
  lemma {:induction false} CountsOfNulls<K, V>(t: seq<Slot<K, V>>)
    requires forall q :: 0 <= q < |t| ==> t[q].None?
    ensures Occupied(t) == 0 && LiveCount(t) == 0 && StaleCount(t) == 0
    decreases |t|
  {
    if |t| > 0 {
      CountsOfNulls(t[..|t| - 1]);
    }
  }

  /** A table without stale entries counts no stale entry. */
  lemma {:induction false} NoStaleCount<K, V>(t: seq<Slot<K, V>>)
    requires forall q :: 0 <= q < |t| ==> !StaleSlot(t[q])
    ensures StaleCount(t) == 0
    decreases |t|
  {
    if |t| > 0 {
      NoStaleCount(t[..|t| - 1]);
    }
  }

  /** A table whose every slot is occupied counts all of them. */
  lemma {:induction false} FullCount<K, V>(t: seq<Slot<K, V>>)
    requires forall q :: 0 <= q < |t| ==> t[q].Some?
    ensures Occupied(t) == |t|
    decreases |t|
  {
    if |t| > 0 {
      FullCount(t[..|t| - 1]);
    }
  }

  // ---------------------------------------------------------------------------
  // The invariant of linear probing
  // ---------------------------------------------------------------------------

  /** Every slot from a up to, not including, b is occupied. */
  ghost predicate Filled<K, V>(t: seq<Slot<K, V>>, a: int, b: int) {
    forall q {:trigger Dist(a, q, |t|)} :: 0 <= q < |t| && Dist(a, q, |t|) < Dist(a, b, |t|) ==> t[q].Some?
  }

  /** The live entry in slot j is met by probing forward from its key's home
      slot without crossing a null slot. */
  ghost predicate Reachable<K, V>(t: seq<Slot<K, V>>, hashOf: K -> bv32, j: int)
    requires 0 <= j < |t| && LiveSlot(t[j])
  {
    Filled(t, Home(hashOf, KeyAt(t, j), |t|), j)
  }

  /** No null slot lies between a live entry's home slot and its slot. */
  ghost predicate Probed<K, V>(t: seq<Slot<K, V>>, hashOf: K -> bv32) {
    forall j {:trigger Reachable(t, hashOf, j)} :: 0 <= j < |t| && LiveSlot(t[j]) ==> Reachable(t, hashOf, j)
  }

  /** No key has two live entries. */
  ghost predicate DistinctKeys<K, V>(t: seq<Slot<K, V>>) {
    forall a, b {:trigger KeyAt(t, a), KeyAt(t, b)} ::
      0 <= a < |t| && 0 <= b < |t| && LiveSlot(t[a]) && LiveSlot(t[b]) && KeyAt(t, a) == KeyAt(t, b) ==> a == b
  }

  /** Slot j holds the live mapping k -> v. */
  ghost predicate Holds<K, V>(t: seq<Slot<K, V>>, j: int, k: K, v: V) {
    0 <= j < |t| && t[j] == Some(Entry(Some(k), v))
  }

  /** The live entries of t are exactly the mappings of m. */
  ghost predicate Agrees<K, V>(t: seq<Slot<K, V>>, m: map<K, V>) {
    && (forall j {:trigger KeyAt(t, j)} :: 0 <= j < |t| && LiveSlot(t[j]) ==>
          KeyAt(t, j) in m && m[KeyAt(t, j)] == t[j].value.value)
    && (forall k :: k in m ==> exists j :: Holds(t, j, k, m[k]))
  }

  /** t is a probing table for hashOf whose live entries are the mappings of m. */
  ghost predicate Wellformed<K, V>(t: seq<Slot<K, V>>, hashOf: K -> bv32, m: map<K, V>) {
    Probed(t, hashOf) && DistinctKeys(t) && Agrees(t, m)
  }

  /** Probing for k from h has reached slot i: every slot passed was
      occupied and none held k. */
  ghost predicate Missed<K, V>(t: seq<Slot<K, V>>, k: K, h: int, i: int) {
    forall q {:trigger Dist(h, q, |t|)} :: 0 <= q < |t| && Dist(h, q, |t|) < Dist(h, i, |t|) ==>
      t[q].Some? && (LiveSlot(t[q]) ==> KeyAt(t, q) != k)
  }

  /** Writing an occupied slot, or a slot outside [a, b), keeps [a, b) filled. */
  lemma FilledUpdate<K, V>(t: seq<Slot<K, V>>, a: int, b: int, i: int, x: Slot<K, V>)
    requires 0 <= i < |t| && Filled(t, a, b)
    requires x.Some? || Dist(a, i, |t|) >= Dist(a, b, |t|)
    ensures Filled(t[i := x], a, b)
  {
  }

  /** A probe that passes an occupied slot without finding its key goes on
      to the next slot, which is not back at the start while a null slot
      exists. */
  lemma MissedStep<K, V>(t: seq<Slot<K, V>>, k: K, h: int, i: int)
    requires 0 <= h < |t| && 0 <= i < |t| && Occupied(t) < |t|
    requires Missed(t, k, h, i) && t[i].Some? && (LiveSlot(t[i]) ==> KeyAt(t, i) != k)
    ensures NextIndex(i, |t|) != h
    ensures Dist(h, NextIndex(i, |t|), |t|) == Dist(h, i, |t|) + 1
    ensures Missed(t, k, h, NextIndex(i, |t|))
  {
    var n := |t|;
    DistNext(h, i, n);
    var z := NullExists(t);
    assert Dist(h, z, n) >= Dist(h, i, n) && z != i;
    var i' := NextIndex(i, n);
    forall q | 0 <= q < n && Dist(h, q, n) < Dist(h, i', n)
      ensures t[q].Some? && (LiveSlot(t[q]) ==> KeyAt(t, q) != k)
    {
      if q != i {
        assert Dist(h, q, n) < Dist(h, i, n);
      }
    }
  }

  /** A probe for k that reaches a null slot proves k absent. */
  lemma Absent<K, V>(t: seq<Slot<K, V>>, hashOf: K -> bv32, m: map<K, V>, k: K, i: int)
    requires Wellformed(t, hashOf, m) && 0 <= i < |t| && t[i].None?
    requires Missed(t, k, Home(hashOf, k, |t|), i)
    ensures k !in m
    ensures forall j :: 0 <= j < |t| && LiveSlot(t[j]) ==> KeyAt(t, j) != k
  {
    var n := |t|;
    var h := Home(hashOf, k, n);
    forall j | 0 <= j < n && LiveSlot(t[j])
      ensures KeyAt(t, j) != k
    {
      if Dist(h, j, n) >= Dist(h, i, n) {
        var hj := Home(hashOf, KeyAt(t, j), n);
        assert Reachable(t, hashOf, j);
        assert Dist(hj, i, n) >= Dist(hj, j, n);
        assert j != i;
        assert hj != h;
      }
    }
    forall k' | k' in m
      ensures k' != k
    {
      var j :| Holds(t, j, k', m[k']);
      assert KeyAt(t, j) == k';
    }
  }

  // ---------------------------------------------------------------------------
  // Single-slot updates
  // ---------------------------------------------------------------------------

  /** A table of null slots holds nothing. */
  lemma EmptyTable<K, V>(t: seq<Slot<K, V>>, hashOf: K -> bv32)
    requires forall q :: 0 <= q < |t| ==> t[q].None?
    ensures Wellformed(t, hashOf, map[])
    ensures Occupied(t) == 0 && StaleCount(t) == 0
  {
    CountsOfNulls(t);
  }

  /** Putting an absent key into a null slot its probe reaches adds the mapping. */
  lemma InsertFree<K, V>(t: seq<Slot<K, V>>, hashOf: K -> bv32, m: map<K, V>, i: int, k: K, v: V)
    requires Wellformed(t, hashOf, m) && k !in m
    requires 0 <= i < |t| && t[i].None? && Filled(t, Home(hashOf, k, |t|), i)
    ensures Wellformed(t[i := Some(Entry(Some(k), v))], hashOf, m[k := v])
    ensures Occupied(t[i := Some(Entry(Some(k), v))]) == Occupied(t) + 1
    ensures StaleCount(t[i := Some(Entry(Some(k), v))]) == StaleCount(t)
  {
    var x := Some(Entry(Some(k), v));
    var u := t[i := x];
    CountsUpdate(t, i, x);
    forall j | 0 <= j < |u| && LiveSlot(u[j])
      ensures Reachable(u, hashOf, j)
    {
      if j != i {
        assert Reachable(t, hashOf, j);
        FilledUpdate(t, Home(hashOf, KeyAt(t, j), |t|), j, i, x);
      } else {
        FilledUpdate(t, Home(hashOf, k, |t|), i, i, x);
      }
    }
    forall a, b | 0 <= a < |u| && 0 <= b < |u| && LiveSlot(u[a]) && LiveSlot(u[b]) && KeyAt(u, a) == KeyAt(u, b)
      ensures a == b
    {
      if a != i {
        assert KeyAt(u, a) == KeyAt(t, a) && KeyAt(t, a) in m;
      }
      if b != i {
        assert KeyAt(u, b) == KeyAt(t, b) && KeyAt(t, b) in m;
      }
    }
    var m' := m[k := v];
    forall k' | k' in m'
      ensures exists j :: Holds(u, j, k', m'[k'])
    {
      if k' == k {
        assert Holds(u, i, k', m'[k']);
      } else {
        var j :| Holds(t, j, k', m[k']);
        assert Holds(u, j, k', m'[k']);
      }
    }
    forall j | 0 <= j < |u| && LiveSlot(u[j])
      ensures KeyAt(u, j) in m[k := v] && m[k := v][KeyAt(u, j)] == u[j].value.value
    {
      if j != i {
        assert KeyAt(t, j) in m;
      }
    }
  }

  /** Overwriting the value of a live entry in place updates its mapping. */
  lemma UpdateValue<K, V>(t: seq<Slot<K, V>>, hashOf: K -> bv32, m: map<K, V>, i: int, v: V)
    requires Wellformed(t, hashOf, m) && 0 <= i < |t| && LiveSlot(t[i])
    ensures var u := t[i := Some(Entry(Some(KeyAt(t, i)), v))];
            Wellformed(u, hashOf, m[KeyAt(t, i) := v]) && Occupied(u) == Occupied(t) && StaleCount(u) == StaleCount(t)
  {
    var k := KeyAt(t, i);
    var x := Some(Entry(Some(k), v));
    var u := t[i := x];
    CountsUpdate(t, i, x);
    forall j | 0 <= j < |u| && LiveSlot(u[j])
      ensures Reachable(u, hashOf, j)
    {
      assert Reachable(t, hashOf, j);
      FilledUpdate(t, Home(hashOf, KeyAt(t, j), |t|), j, i, x);
    }
    forall a, b | 0 <= a < |u| && 0 <= b < |u| && LiveSlot(u[a]) && LiveSlot(u[b]) && KeyAt(u, a) == KeyAt(u, b)
      ensures a == b
    {
      assert KeyAt(t, a) == KeyAt(t, b);
    }
    var m' := m[k := v];
    forall k' | k' in m'
      ensures exists j :: Holds(u, j, k', m'[k'])
    {
      if k' == k {
        assert Holds(u, i, k', m'[k']);
      } else {
        var j :| Holds(t, j, k', m[k']);
        assert KeyAt(t, j) == k';
        assert Holds(u, j, k', m'[k']);
      }
    }
    forall j | 0 <= j < |u| && LiveSlot(u[j])
      ensures KeyAt(u, j) in m[k := v] && m[k := v][KeyAt(u, j)] == u[j].value.value
    {
      if j != i {
        assert KeyAt(t, j) in m;
        assert KeyAt(t, j) != k;
      }
    }
  }

  /** Clearing the key of a live entry (Reference.clear) makes it stale and
      drops its mapping; the slot stays occupied. */
  lemma ClearKey<K, V>(t: seq<Slot<K, V>>, hashOf: K -> bv32, m: map<K, V>, i: int)
    requires Wellformed(t, hashOf, m) && 0 <= i < |t| && LiveSlot(t[i])
    ensures var u := t[i := Some(Entry(None, t[i].value.value))];
            Wellformed(u, hashOf, m - {KeyAt(t, i)}) && Occupied(u) == Occupied(t) && StaleCount(u) == StaleCount(t) + 1
  {
    var k := KeyAt(t, i);
    var x := Some(Entry(None, t[i].value.value));
    var u := t[i := x];
    CountsUpdate(t, i, x);
    forall j | 0 <= j < |u| && LiveSlot(u[j])
      ensures Reachable(u, hashOf, j)
    {
      assert Reachable(t, hashOf, j);
      FilledUpdate(t, Home(hashOf, KeyAt(t, j), |t|), j, i, x);
    }
    forall a, b | 0 <= a < |u| && 0 <= b < |u| && LiveSlot(u[a]) && LiveSlot(u[b]) && KeyAt(u, a) == KeyAt(u, b)
      ensures a == b
    {
      assert KeyAt(t, a) == KeyAt(t, b);
    }
    forall k' | k' in m - {k}
      ensures exists j :: Holds(u, j, k', (m - {k})[k'])
    {
      var j :| Holds(t, j, k', m[k']);
      assert KeyAt(t, j) == k';
      assert Holds(u, j, k', (m - {k})[k']);
    }
    forall j | 0 <= j < |u| && LiveSlot(u[j])
      ensures KeyAt(u, j) in m - {k} && (m - {k})[KeyAt(u, j)] == u[j].value.value
    {
      assert KeyAt(t, j) in m;
      assert KeyAt(t, j) != k by {
        assert KeyAt(t, i) == k;
      }
    }
  }

  /** Nulling a stale slot changes no mapping. */
  lemma DropStale<K, V>(t: seq<Slot<K, V>>, m: map<K, V>, i: int)
    requires DistinctKeys(t) && Agrees(t, m) && 0 <= i < |t| && StaleSlot(t[i])
    ensures DistinctKeys(t[i := None]) && Agrees(t[i := None], m)
    ensures Occupied(t[i := None]) == Occupied(t) - 1 && StaleCount(t[i := None]) == StaleCount(t) - 1
  {
    var u := t[i := None];
    CountsUpdate(t, i, None);
    forall a, b | 0 <= a < |u| && 0 <= b < |u| && LiveSlot(u[a]) && LiveSlot(u[b]) && KeyAt(u, a) == KeyAt(u, b)
      ensures a == b
    {
      assert KeyAt(t, a) == KeyAt(t, b);
    }
    forall k' | k' in m
      ensures exists j :: Holds(u, j, k', m[k'])
    {
      var j :| Holds(t, j, k', m[k']);
      assert Holds(u, j, k', m[k']);
    }
    forall j | 0 <= j < |u| && LiveSlot(u[j])
      ensures KeyAt(u, j) in m && m[KeyAt(u, j)] == u[j].value.value
    {
      assert KeyAt(t, j) in m;
    }
  }

  /** Moving a live entry from slot i to the null slot p changes no mapping. */
  lemma MoveEntry<K, V>(t: seq<Slot<K, V>>, m: map<K, V>, i: int, p: int)
    requires DistinctKeys(t) && Agrees(t, m) && 0 <= i < |t| && 0 <= p < |t| && LiveSlot(t[i])
    requires p != i ==> t[p].None?
    ensures var u := t[i := None][p := t[i]];
            DistinctKeys(u) && Agrees(u, m) && Occupied(u) == Occupied(t) && StaleCount(u) == StaleCount(t)
  {
    var u := t[i := None][p := t[i]];
    if p == i {
      assert u == t;
    } else {
      CountsUpdate(t, i, None);
      CountsUpdate(t[i := None], p, t[i]);
      forall a, b | 0 <= a < |u| && 0 <= b < |u| && LiveSlot(u[a]) && LiveSlot(u[b]) && KeyAt(u, a) == KeyAt(u, b)
        ensures a == b
      {
        var a' := if a == p then i else a;
        var b' := if b == p then i else b;
        assert KeyAt(t, a') == KeyAt(t, b');
      }
      forall k' | k' in m
        ensures exists j :: Holds(u, j, k', m[k'])
      {
        var j :| Holds(t, j, k', m[k']);
        if j == i {
          assert Holds(u, p, k', m[k']);
        } else {
          assert Holds(u, j, k', m[k']);
        }
      }
      forall j | 0 <= j < |u| && LiveSlot(u[j])
        ensures KeyAt(u, j) in m && m[KeyAt(u, j)] == u[j].value.value
      {
        var j' := if j == p then i else j;
        assert KeyAt(t, j') in m;
      }
    }
  }

  /** Storing an absent key in a stale slot its probe reaches adds the
      mapping; the slot count stays, the stale count drops by one. */
  lemma PutInStale<K, V>(t: seq<Slot<K, V>>, hashOf: K -> bv32, m: map<K, V>, s: int, k: K, v: V)
    requires Wellformed(t, hashOf, m) && k !in m
    requires 0 <= s < |t| && StaleSlot(t[s]) && Filled(t, Home(hashOf, k, |t|), s)
    ensures var u := t[s := Some(Entry(Some(k), v))];
            Wellformed(u, hashOf, m[k := v]) && Occupied(u) == Occupied(t) && StaleCount(u) == StaleCount(t) - 1
  {
    var u := t[s := Some(Entry(Some(k), v))];
    CountsUpdate(t, s, Some(Entry(Some(k), v)));
    forall j | 0 <= j < |u| && LiveSlot(u[j])
      ensures Reachable(u, hashOf, j)
    {
      if j != s {
        assert Reachable(t, hashOf, j);
        FilledUpdate(t, Home(hashOf, KeyAt(t, j), |t|), j, s, u[s]);
      } else {
        FilledUpdate(t, Home(hashOf, k, |t|), s, s, u[s]);
      }
    }
    forall a, b | 0 <= a < |u| && 0 <= b < |u| && LiveSlot(u[a]) && LiveSlot(u[b]) && KeyAt(u, a) == KeyAt(u, b)
      ensures a == b
    {
      if a != s {
        assert KeyAt(u, a) == KeyAt(t, a) && KeyAt(t, a) in m;
      }
      if b != s {
        assert KeyAt(u, b) == KeyAt(t, b) && KeyAt(t, b) in m;
      }
    }
    var m' := m[k := v];
    forall k' | k' in m'
      ensures exists j :: Holds(u, j, k', m'[k'])
    {
      if k' == k {
        assert Holds(u, s, k', m'[k']);
      } else {
        var j :| Holds(t, j, k', m[k']);
        assert Holds(u, j, k', m'[k']);
      }
    }
    forall j | 0 <= j < |u| && LiveSlot(u[j])
      ensures KeyAt(u, j) in m[k := v] && m[k := v][KeyAt(u, j)] == u[j].value.value
    {
      if j != s {
        assert KeyAt(t, j) in m;
      }
    }
  }

  /** The swap replaceStaleEntry does when it finds the key at slot i past the
      stale slot s: the key's entry, with its new value, moves to s and the
      stale entry to i. */
  lemma SwapIntoStale<K, V>(t: seq<Slot<K, V>>, hashOf: K -> bv32, m: map<K, V>, s: int, i: int, v: V)
    requires Wellformed(t, hashOf, m)
    requires 0 <= s < |t| && 0 <= i < |t| && StaleSlot(t[s]) && LiveSlot(t[i])
    requires Filled(t, Home(hashOf, KeyAt(t, i), |t|), s)
    ensures var u := t[i := t[s]][s := Some(Entry(Some(KeyAt(t, i)), v))];
            Wellformed(u, hashOf, m[KeyAt(t, i) := v]) && Occupied(u) == Occupied(t) && StaleCount(u) == StaleCount(t)
  {
    var k := KeyAt(t, i);
    var x := Some(Entry(Some(k), v));
    var w := t[i := t[s]];
    var u := w[s := x];
    CountsUpdate(t, i, t[s]);
    CountsUpdate(w, s, x);
    forall j | 0 <= j < |u| && LiveSlot(u[j])
      ensures Reachable(u, hashOf, j)
    {
      if j != s {
        assert j != i && u[j] == t[j];
        assert Reachable(t, hashOf, j);
        FilledUpdate(t, Home(hashOf, KeyAt(t, j), |t|), j, i, t[s]);
        FilledUpdate(w, Home(hashOf, KeyAt(t, j), |t|), j, s, x);
      } else {
        FilledUpdate(t, Home(hashOf, k, |t|), s, i, t[s]);
        FilledUpdate(w, Home(hashOf, k, |t|), s, s, x);
      }
    }
    forall a, b | 0 <= a < |u| && 0 <= b < |u| && LiveSlot(u[a]) && LiveSlot(u[b]) && KeyAt(u, a) == KeyAt(u, b)
      ensures a == b
    {
      var a' := if a == s then i else a;
      var b' := if b == s then i else b;
      assert KeyAt(t, a') == KeyAt(t, b');
    }
    var m' := m[k := v];
    forall k' | k' in m'
      ensures exists j :: Holds(u, j, k', m'[k'])
    {
      if k' == k {
        assert Holds(u, s, k', m'[k']);
      } else {
        var j :| Holds(t, j, k', m[k']);
        assert KeyAt(t, j) == k';
        assert Holds(u, j, k', m'[k']);
      }
    }
    forall j | 0 <= j < |u| && LiveSlot(u[j])
      ensures KeyAt(u, j) in m[k := v] && m[k := v][KeyAt(u, j)] == u[j].value.value
    {
      if j != s {
        assert KeyAt(t, j) in m;
        assert KeyAt(t, j) != k;
      }
    }
  }

  // ---------------------------------------------------------------------------
  // Counting live entries
  // ---------------------------------------------------------------------------

  /** A table whose live entries are the mappings of m, each key once, has
      |m| live entries. */
  lemma {:induction false} LiveCard<K, V>(t: seq<Slot<K, V>>, m: map<K, V>)
    requires DistinctKeys(t) && Agrees(t, m)
    ensures |m| == LiveCount(t)
    decreases |t|
  {
    if |t| == 0 {
      assert m.Keys == {};
    } else {
      var n := |t|;
      var t' := t[..n - 1];
      if LiveSlot(t[n - 1]) {
        var k := KeyAt(t, n - 1);
        var m' := m - {k};
        forall j | 0 <= j < |t'| && LiveSlot(t'[j])
          ensures KeyAt(t', j) in m' && m'[KeyAt(t', j)] == t'[j].value.value
        {
          assert KeyAt(t', j) == KeyAt(t, j) && KeyAt(t, j) in m;
        }
        forall k' | k' in m'
          ensures exists j :: Holds(t', j, k', m'[k'])
        {
          var j :| Holds(t, j, k', m[k']);
          assert KeyAt(t, j) == k';
          assert Holds(t', j, k', m'[k']);
        }
        forall a, b | 0 <= a < |t'| && 0 <= b < |t'| && LiveSlot(t'[a]) && LiveSlot(t'[b]) && KeyAt(t', a) == KeyAt(t', b)
          ensures a == b
        {
          assert KeyAt(t, a) == KeyAt(t, b);
        }
        LiveCard(t', m');
      } else {
        forall j | 0 <= j < |t'| && LiveSlot(t'[j])
          ensures KeyAt(t', j) in m && m[KeyAt(t', j)] == t'[j].value.value
        {
          assert KeyAt(t', j) == KeyAt(t, j);
        }
        forall k' | k' in m
          ensures exists j :: Holds(t', j, k', m[k'])
        {
          var j :| Holds(t, j, k', m[k']);
          assert Holds(t', j, k', m[k']);
        }
        forall a, b | 0 <= a < |t'| && 0 <= b < |t'| && LiveSlot(t'[a]) && LiveSlot(t'[b]) && KeyAt(t', a) == KeyAt(t', b)
          ensures a == b
        {
          assert KeyAt(t, a) == KeyAt(t, b);
        }
        LiveCard(t', m);
      }
    }
  }

  /** The size of a well-formed table is its number of mappings plus its
      number of stale entries. */
  lemma SizeSplit<K, V>(t: seq<Slot<K, V>>, hashOf: K -> bv32, m: map<K, V>)
    requires Wellformed(t, hashOf, m)
    ensures Occupied(t) == |m| + StaleCount(t)
  {
    CountsSplit(t);
    LiveCard(t, m);
  }

  // ---------------------------------------------------------------------------
  // Order along the circle
  // ---------------------------------------------------------------------------

  /** If j, i, z come in this order from s, and the probe from h to j does not
      pass z, it does not pass i either. */
  lemma CircleAhead(s: int, j: int, i: int, z: int, h: int, n: int)
    requires 0 <= s < n && 0 <= j < n && 0 <= i < n && 0 <= z < n && 0 <= h < n
    requires Dist(s, j, n) < Dist(s, i, n) < Dist(s, z, n)
    requires Dist(h, z, n) >= Dist(h, j, n)
    ensures Dist(h, i, n) >= Dist(h, j, n)
  {
  }

  /** If i comes before j from s, and the probe from h to j passes q but not
      i, then q does not come before i from s. */
  lemma CircleBehind(s: int, q: int, i: int, j: int, h: int, n: int)
    requires 0 <= s < n && 0 <= q < n && 0 <= i < n && 0 <= j < n && 0 <= h < n
    requires Dist(s, i, n) < Dist(s, j, n)
    requires Dist(h, q, n) < Dist(h, j, n) && Dist(h, i, n) >= Dist(h, j, n)
    ensures Dist(s, q, n) >= Dist(s, i, n)
  {
  }

  /** If q, i, r come in this order from h, then from i one meets r before q. */
  lemma CircleWrap(h: int, q: int, i: int, r: int, n: int)
    requires 0 <= h < n && 0 <= q < n && 0 <= i < n && 0 <= r < n
    requires Dist(h, q, n) < Dist(h, i, n) < Dist(h, r, n)
    ensures Dist(i, q, n) > Dist(i, r, n)
  {
  }

  // ---------------------------------------------------------------------------
  // expungeStaleEntry: Knuth's Algorithm R (section 6.4 of The Art of Computer
  // Programming, volume 3), scanning to the next null slot
  // ---------------------------------------------------------------------------

  /** The state of expungeStaleEntry(s) on the table t0 when its scan has
      reached slot i, z being a null slot of t0 ahead of it:
      - slots from i on are as in t0;
      - the slots scanned were all occupied in t0 and now hold no stale entry;
      - every live entry in a scanned slot is reachable again (the entries
        not yet scanned may still have a hole on their probe);
      - the mappings are those of m. */
  ghost predicate Expunging<K, V>(t0: seq<Slot<K, V>>, t: seq<Slot<K, V>>, hashOf: K -> bv32, m: map<K, V>,
                                  s: int, i: int, z: int) {
    && |t| == |t0| && 0 <= s < |t0| && 0 <= i < |t0| && 0 <= z < |t0|
    && t0[z].None? && 0 < Dist(s, i, |t0|) <= Dist(s, z, |t0|)
    && Probed(t0, hashOf)
    && (forall q {:trigger Dist(s, q, |t0|)} :: 0 <= q < |t0| && Dist(s, i, |t0|) <= Dist(s, q, |t0|) ==> t[q] == t0[q])
    && (forall q {:trigger Dist(s, q, |t0|)} :: 0 <= q < |t0| && Dist(s, q, |t0|) < Dist(s, i, |t0|) ==>
          !StaleSlot(t[q]) && (q != s ==> t0[q].Some?))
    && (forall j {:trigger Reachable(t, hashOf, j)} ::
          0 <= j < |t0| && Dist(s, j, |t0|) < Dist(s, i, |t0|) && LiveSlot(t[j]) ==> Reachable(t, hashOf, j))
    && DistinctKeys(t) && Agrees(t, m)
  }

  /** Nulling the stale slot s starts the scan at the slot after it. */
  lemma ExpungeStart<K, V>(t0: seq<Slot<K, V>>, hashOf: K -> bv32, m: map<K, V>, s: int, z: int)
    requires Wellformed(t0, hashOf, m) && 0 <= s < |t0| && StaleSlot(t0[s]) && 0 <= z < |t0| && t0[z].None?
    ensures Expunging(t0, t0[s := None], hashOf, m, s, NextIndex(s, |t0|), z)
    ensures Occupied(t0[s := None]) == Occupied(t0) - 1 && StaleCount(t0[s := None]) == StaleCount(t0) - 1
  {
    var n := |t0|;
    DropStale(t0, m, s);
    DistNext(s, s, n);
    DistNext(s, z, n);
    assert z != s && Dist(s, s, n) == 0;
  }

  /** Facts every step of the scan starts from: slot i is not z, so the next
      slot is one step further from s and not past z. */
  lemma ExpungeAdvance<K, V>(t0: seq<Slot<K, V>>, t: seq<Slot<K, V>>, hashOf: K -> bv32, m: map<K, V>,
                             s: int, i: int, z: int)
    requires Expunging(t0, t, hashOf, m, s, i, z) && t[i].Some?
    ensures t[i] == t0[i] && t[z].None? && z != i
    ensures Dist(s, i, |t0|) < Dist(s, z, |t0|)
    ensures Dist(s, NextIndex(i, |t0|), |t0|) == Dist(s, i, |t0|) + 1 <= Dist(s, z, |t0|)
  {
    var n := |t0|;
    assert Dist(s, i, n) <= Dist(s, i, n);
    assert t[z] == t0[z];
    DistNext(s, i, n);
    DistNext(s, z, n);
  }

  /** The scan moves past slot i once slot i and the slots before it hold no
      stale entry, the slots after it are untouched, and the entries scanned
      are reachable. */
  lemma ScanStep<K, V>(t0: seq<Slot<K, V>>, t: seq<Slot<K, V>>, u: seq<Slot<K, V>>, hashOf: K -> bv32, m: map<K, V>,
                       s: int, i: int, z: int)
    requires Expunging(t0, t, hashOf, m, s, i, z) && t[i].Some? && |u| == |t0|
    requires forall q {:trigger Dist(s, q, |t0|)} ::
               0 <= q < |t0| && Dist(s, i, |t0|) < Dist(s, q, |t0|) ==> u[q] == t[q]
    requires forall q {:trigger Dist(s, q, |t0|)} ::
               0 <= q < |t0| && Dist(s, q, |t0|) <= Dist(s, i, |t0|) ==> !StaleSlot(u[q])
    requires forall j {:trigger Reachable(u, hashOf, j)} ::
               0 <= j < |t0| && Dist(s, j, |t0|) <= Dist(s, i, |t0|) && LiveSlot(u[j]) ==> Reachable(u, hashOf, j)
    requires DistinctKeys(u) && Agrees(u, m)
    ensures Expunging(t0, u, hashOf, m, s, NextIndex(i, |t0|), z)
  {
    var n := |t0|;
    ExpungeAdvance(t0, t, hashOf, m, s, i, z);
    var i' := NextIndex(i, n);
    forall q | 0 <= q < n && Dist(s, q, n) < Dist(s, i', n)
      ensures q != s ==> t0[q].Some?
    {
      if q != i {
        assert Dist(s, q, n) < Dist(s, i, n);
      }
    }
    forall q | 0 <= q < n && Dist(s, i', n) <= Dist(s, q, n)
      ensures u[q] == t0[q]
    {
      assert Dist(s, i, n) <= Dist(s, q, n);
    }
  }

  /** A live entry the scan has passed keeps a full probe when slot i is
      emptied. */
  lemma ScannedStaysFilled<K, V>(t0: seq<Slot<K, V>>, t: seq<Slot<K, V>>, hashOf: K -> bv32, m: map<K, V>,
                                 s: int, i: int, z: int, j: int)
    requires Expunging(t0, t, hashOf, m, s, i, z) && t[i].Some?
    requires 0 <= j < |t| && Dist(s, j, |t|) < Dist(s, i, |t|) && LiveSlot(t[j])
    ensures Filled(t[i := None], Home(hashOf, KeyAt(t, j), |t|), j)
  {
    var n := |t0|;
    ExpungeAdvance(t0, t, hashOf, m, s, i, z);
    var hj := Home(hashOf, KeyAt(t, j), n);
    assert Reachable(t, hashOf, j);
    assert Dist(hj, z, n) >= Dist(hj, j, n);
    CircleAhead(s, j, i, z, hj, n);
    FilledUpdate(t, hj, j, i, None);
  }

  /** A stale entry met by the scan is nulled. */
  lemma ExpungeDropStale<K, V>(t0: seq<Slot<K, V>>, t: seq<Slot<K, V>>, hashOf: K -> bv32, m: map<K, V>,
                               s: int, i: int, z: int)
    requires Expunging(t0, t, hashOf, m, s, i, z) && StaleSlot(t[i])
    ensures Expunging(t0, t[i := None], hashOf, m, s, NextIndex(i, |t0|), z)
    ensures Occupied(t[i := None]) == Occupied(t) - 1 && StaleCount(t[i := None]) == StaleCount(t) - 1
  {
    var n := |t0|;
    var u := t[i := None];
    DropStale(t, m, i);
    forall q | 0 <= q < n && Dist(s, q, n) <= Dist(s, i, n)
      ensures !StaleSlot(u[q])
    {
    }
    forall j | 0 <= j < n && Dist(s, j, n) <= Dist(s, i, n) && LiveSlot(u[j])
      ensures Reachable(u, hashOf, j)
    {
      ScannedStaysFilled(t0, t, hashOf, m, s, i, z, j);
    }
    ScanStep(t0, t, u, hashOf, m, s, i, z);
  }

  /** A live entry already in its home slot stays. */
  lemma ExpungeKeep<K, V>(t0: seq<Slot<K, V>>, t: seq<Slot<K, V>>, hashOf: K -> bv32, m: map<K, V>,
                          s: int, i: int, z: int)
    requires Expunging(t0, t, hashOf, m, s, i, z) && LiveSlot(t[i]) && Home(hashOf, KeyAt(t, i), |t|) == i
    ensures Expunging(t0, t, hashOf, m, s, NextIndex(i, |t0|), z)
  {
    var n := |t0|;
    forall j | 0 <= j < n && Dist(s, j, n) <= Dist(s, i, n) && LiveSlot(t[j])
      ensures Reachable(t, hashOf, j)
    {
      if j != i {
        assert Dist(s, j, n) < Dist(s, i, n);
      }
    }
    ScanStep(t0, t, t, hashOf, m, s, i, z);
  }

  /** The null slot an entry moves to is slot i itself or one already scanned:
      the entry's probe in t0 ran full up to i. */
  lemma MoveTarget<K, V>(t0: seq<Slot<K, V>>, t: seq<Slot<K, V>>, hashOf: K -> bv32, m: map<K, V>,
                         s: int, i: int, z: int, p: int)
    requires Expunging(t0, t, hashOf, m, s, i, z) && LiveSlot(t[i])
    requires 0 <= p < |t| && t[i := None][p].None? && Filled(t[i := None], Home(hashOf, KeyAt(t, i), |t|), p)
    ensures p == i || Dist(s, p, |t|) < Dist(s, i, |t|)
  {
    var n := |t0|;
    ExpungeAdvance(t0, t, hashOf, m, s, i, z);
    var h := Home(hashOf, KeyAt(t, i), n);
    var t1 := t[i := None];
    assert t1[i].None?;
    assert Dist(h, i, n) >= Dist(h, p, n);
    assert KeyAt(t0, i) == KeyAt(t, i);
    assert Reachable(t0, hashOf, i);
    if p != i {
      assert Dist(h, p, n) < Dist(h, i, n);
      assert t[p] != t0[p];
    }
  }

  /** After the move no slot up to i holds a stale entry. */
  lemma MoveLeavesNoStale<K, V>(t0: seq<Slot<K, V>>, t: seq<Slot<K, V>>, hashOf: K -> bv32, m: map<K, V>,
                                s: int, i: int, z: int, p: int)
    requires Expunging(t0, t, hashOf, m, s, i, z) && LiveSlot(t[i]) && 0 <= p < |t|
    ensures forall q {:trigger Dist(s, q, |t0|)} :: 0 <= q < |t0| && Dist(s, q, |t0|) <= Dist(s, i, |t0|) ==>
              !StaleSlot(t[i := None][p := t[i]][q])
  {
    var n := |t0|;
    var u := t[i := None][p := t[i]];
    forall q | 0 <= q < n && Dist(s, q, n) <= Dist(s, i, n)
      ensures !StaleSlot(u[q])
    {
      if q != i && q != p {
        assert Dist(s, q, n) < Dist(s, i, n);
      }
    }
  }

  /** After the move every live entry up to i is reachable. */
  lemma MoveKeepsReachable<K, V>(t0: seq<Slot<K, V>>, t: seq<Slot<K, V>>, hashOf: K -> bv32, m: map<K, V>,
                                 s: int, i: int, z: int, p: int)
    requires Expunging(t0, t, hashOf, m, s, i, z) && LiveSlot(t[i])
    requires 0 <= p < |t| && t[i := None][p].None? && Filled(t[i := None], Home(hashOf, KeyAt(t, i), |t|), p)
    ensures forall j {:trigger Reachable(t[i := None][p := t[i]], hashOf, j)} ::
              0 <= j < |t0| && Dist(s, j, |t0|) <= Dist(s, i, |t0|) && LiveSlot(t[i := None][p := t[i]][j]) ==>
              Reachable(t[i := None][p := t[i]], hashOf, j)
  {
    var n := |t0|;
    var h := Home(hashOf, KeyAt(t, i), n);
    var e := t[i];
    var t1 := t[i := None];
    var u := t1[p := e];
    forall j | 0 <= j < n && Dist(s, j, n) <= Dist(s, i, n) && LiveSlot(u[j])
      ensures Reachable(u, hashOf, j)
    {
      if j == p {
        assert KeyAt(u, j) == KeyAt(t, i);
        FilledUpdate(t1, h, p, p, e);
      } else {
        assert j != i && u[j] == t[j];
        ScannedStaysFilled(t0, t, hashOf, m, s, i, z, j);
        FilledUpdate(t1, Home(hashOf, KeyAt(t, j), n), j, p, e);
      }
    }
  }

  /** A live entry away from its home slot moves to the first null slot p of
      its probe, with slot i nulled first. */
  lemma ExpungeMove<K, V>(t0: seq<Slot<K, V>>, t: seq<Slot<K, V>>, hashOf: K -> bv32, m: map<K, V>,
                          s: int, i: int, z: int, p: int)
    requires Expunging(t0, t, hashOf, m, s, i, z) && LiveSlot(t[i])
    requires 0 <= p < |t| && t[i := None][p].None? && Filled(t[i := None], Home(hashOf, KeyAt(t, i), |t|), p)
    ensures Expunging(t0, t[i := None][p := t[i]], hashOf, m, s, NextIndex(i, |t0|), z)
    ensures Occupied(t[i := None][p := t[i]]) == Occupied(t) && StaleCount(t[i := None][p := t[i]]) == StaleCount(t)
  {
    var u := t[i := None][p := t[i]];
    MoveTarget(t0, t, hashOf, m, s, i, z, p);
    MoveEntry(t, m, i, p);
    MoveLeavesNoStale(t0, t, hashOf, m, s, i, z, p);
    MoveKeepsReachable(t0, t, hashOf, m, s, i, z, p);
    ScanStep(t0, t, u, hashOf, m, s, i, z);
  }

    /** What expungeStaleEntry(s) leaves when it returns r: slot r was null and
      still is, the slots of the run between s and r were occupied and now hold
      no stale entry, and the slots from r on are unchanged. */
  ghost predicate ExpungedRun<K, V>(t0: seq<Slot<K, V>>, t: seq<Slot<K, V>>, s: int, r: int)
  {
    && |t| == |t0| && 0 <= s < |t| && 0 <= r < |t| && r != s
    && t[r].None? && t0[r].None?
    && (forall q :: 0 <= q < |t| && 0 < Dist(s, q, |t|) < Dist(s, r, |t|) ==> t0[q].Some?)
    && (forall q :: 0 <= q < |t| && Dist(s, q, |t|) < Dist(s, r, |t|) ==> !StaleSlot(t[q]))
    && (forall q :: 0 <= q < |t| && Dist(s, r, |t|) <= Dist(s, q, |t|) ==> t[q] == t0[q])
  }

  /** When the scan reaches a null slot every live entry is reachable again. */
  lemma ExpungeDone<K, V>(t0: seq<Slot<K, V>>, t: seq<Slot<K, V>>, hashOf: K -> bv32, m: map<K, V>,
                          s: int, i: int, z: int)
    requires Expunging(t0, t, hashOf, m, s, i, z) && t[i].None?
    ensures Wellformed(t, hashOf, m) && ExpungedRun(t0, t, s, i)
  {
    var n := |t0|;
    assert Dist(s, i, n) <= Dist(s, i, n);
    forall j | 0 <= j < n && LiveSlot(t[j])
      ensures Reachable(t, hashOf, j)
    {
      if Dist(s, i, n) <= Dist(s, j, n) {
        assert t[j] == t0[j] && j != i;
        var hj := Home(hashOf, KeyAt(t, j), n);
        assert KeyAt(t0, j) == KeyAt(t, j);
        assert Reachable(t0, hashOf, j);
        assert Dist(hj, i, n) >= Dist(hj, j, n);
        forall q | 0 <= q < n && Dist(hj, q, n) < Dist(hj, j, n)
          ensures t[q].Some?
        {
          CircleBehind(s, q, i, j, hj, n);
        }
      }
    }
  }

  /** A probe that had passed [h, i) before slot i was expunged still has:
      the expunge changes nothing before the stale slot's run. */
  lemma MissedAfterExpunge<K, V>(t0: seq<Slot<K, V>>, t: seq<Slot<K, V>>, k: K, h: int, i: int, r: int)
    requires |t| == |t0| && 0 <= h < |t0| && 0 <= i < |t0| && 0 <= r < |t0|
    requires Missed(t0, k, h, i) && t0[i].Some? && t0[r].None?
    requires forall q {:trigger Dist(i, q, |t0|)} :: 0 <= q < |t0| && Dist(i, r, |t0|) <= Dist(i, q, |t0|) ==> t[q] == t0[q]
    ensures Missed(t, k, h, i)
  {
    var n := |t0|;
    assert Dist(h, r, n) >= Dist(h, i, n) && r != i;
    forall q | 0 <= q < n && Dist(h, q, n) < Dist(h, i, n)
      ensures t[q].Some? && (LiveSlot(t[q]) ==> KeyAt(t, q) != k)
    {
      CircleWrap(h, q, i, r, n);
      assert t[q] == t0[q];
    }
  }

  // ---------------------------------------------------------------------------
  // The two scans of replaceStaleEntry
  // ---------------------------------------------------------------------------

  /** The backward scan from s has passed the occupied slots strictly
      between i and s; ste is the stale slot among them nearest to i, or s
      when there is none. */
  ghost predicate BackScanned<K, V>(t: seq<Slot<K, V>>, s: int, i: int, ste: int) {
    && 0 <= s < |t| && 0 <= i < |t| && 0 <= ste < |t| && 0 < Dist(i, s, |t|)
    && (forall q {:trigger Dist(q, s, |t|)} :: 0 <= q < |t| && 0 < Dist(q, s, |t|) < Dist(i, s, |t|) ==> t[q].Some?)
    && (ste == s || (StaleSlot(t[ste]) && 0 < Dist(ste, s, |t|) < Dist(i, s, |t|)))
    && (forall q {:trigger Dist(q, s, |t|)} ::
          0 <= q < |t| && Dist(ste, s, |t|) < Dist(q, s, |t|) < Dist(i, s, |t|) ==> !StaleSlot(t[q]))
  }

  lemma BackStart<K, V>(t: seq<Slot<K, V>>, s: int)
    requires 0 <= s < |t| && |t| > 1
    ensures BackScanned(t, s, PrevIndex(s, |t|), s)
  {
    DistPrev(s, s, |t|);
  }

  /** One step back over the occupied slot i; the null slot z stays ahead. */
  lemma BackStep<K, V>(t: seq<Slot<K, V>>, s: int, i: int, ste: int, z: int)
    requires BackScanned(t, s, i, ste) && t[i].Some? && t[s].Some? && 0 <= z < |t| && t[z].None?
    ensures BackScanned(t, s, PrevIndex(i, |t|), if StaleSlot(t[i]) then i else ste)
    ensures Dist(i, s, |t|) < Dist(PrevIndex(i, |t|), s, |t|) <= Dist(z, s, |t|)
  {
    var n := |t|;
    DistPrev(i, s, n);
    DistPrev(z, s, n);
    assert Dist(z, s, n) > Dist(i, s, n);
  }

  /** The forward scan from s has passed the slots strictly between s and i.
      When it started with first == s, ste is the first stale slot among them,
      or s when there is none; otherwise ste is first. */
  ghost predicate ForwardScanned<K, V>(t: seq<Slot<K, V>>, s: int, i: int, first: int, ste: int) {
    && 0 <= s < |t| && 0 <= i < |t| && 0 <= ste < |t| && 0 < Dist(s, i, |t|)
    && (ste == s || StaleSlot(t[ste]))
    && (first != s ==> ste == first)
    && (first == s && ste != s ==> 0 < Dist(s, ste, |t|) < Dist(s, i, |t|))
    && (first == s ==>
          forall q {:trigger Dist(s, q, |t|)} ::
            0 <= q < |t| && 0 < Dist(s, q, |t|) && Dist(s, q, |t|) < Dist(s, if ste == s then i else ste, |t|) ==>
            !StaleSlot(t[q]))
  }

  lemma ForwardStart<K, V>(t: seq<Slot<K, V>>, s: int, first: int)
    requires 0 <= s < |t| && |t| > 1 && 0 <= first < |t| && (first == s || StaleSlot(t[first]))
    ensures ForwardScanned(t, s, NextIndex(s, |t|), first, first)
  {
    DistNext(s, s, |t|);
  }

  /** One step forward over the occupied slot i, not back to s. */
  lemma ForwardStep<K, V>(t: seq<Slot<K, V>>, s: int, i: int, first: int, ste: int)
    requires ForwardScanned(t, s, i, first, ste) && t[i].Some? && NextIndex(i, |t|) != s
    ensures ForwardScanned(t, s, NextIndex(i, |t|), first, if StaleSlot(t[i]) && ste == s then i else ste)
  {
    var n := |t|;
    DistNext(s, i, n);
    var i' := NextIndex(i, n);
    var ste' := if StaleSlot(t[i]) && ste == s then i else ste;
    if first == s {
      forall q | 0 <= q < n && 0 < Dist(s, q, n) && Dist(s, q, n) < Dist(s, if ste' == s then i' else ste', n)
        ensures !StaleSlot(t[q])
      {
        if q != i {
          assert Dist(s, q, n) < Dist(s, if ste == s then i else ste, n);
        }
      }
    }
  }

  // ---------------------------------------------------------------------------
  // Copying the live entries into a fresh table (resize, the inheriting
  // constructor)
  // ---------------------------------------------------------------------------

  /** The copy loop has taken the live entries of src[..j] into dst, each
      with the value target gives its key. */
  ghost predicate Copying<K, V>(src: seq<Slot<K, V>>, dst: seq<Slot<K, V>>, hashOf: K -> bv32,
                                placed: map<K, V>, target: map<K, V>, j: int) {
    && 0 <= j <= |src|
    && Wellformed(dst, hashOf, placed)
    && (forall q :: 0 <= q < |dst| ==> !StaleSlot(dst[q]))
    && (forall k :: k in placed ==> k in target && placed[k] == target[k])
    && (forall q {:trigger KeyAt(src, q)} :: 0 <= q < |src| && LiveSlot(src[q]) ==> (KeyAt(src, q) in placed <==> q < j))
  }

  /** The copy starts from a table of null slots. */
  lemma CopyStart<K, V>(src: seq<Slot<K, V>>, dst: seq<Slot<K, V>>, hashOf: K -> bv32, target: map<K, V>)
    requires forall q :: 0 <= q < |dst| ==> dst[q].None?
    ensures Copying(src, dst, hashOf, map[], target, 0)
    ensures Occupied(dst) == 0
  {
    EmptyTable(dst, hashOf);
  }

  /** A live entry of src goes into the first null slot p of its probe in dst. */
  lemma CopyLive<K, V>(src: seq<Slot<K, V>>, dst: seq<Slot<K, V>>, hashOf: K -> bv32,
                       placed: map<K, V>, target: map<K, V>, j: int, p: int)
    requires Copying(src, dst, hashOf, placed, target, j) && j < |src| && LiveSlot(src[j]) && DistinctKeys(src)
    requires KeyAt(src, j) in target
    requires 0 <= p < |dst| && dst[p].None? && Filled(dst, Home(hashOf, KeyAt(src, j), |dst|), p)
    ensures var k := KeyAt(src, j);
            var u := dst[p := Some(Entry(Some(k), target[k]))];
            && Copying(src, u, hashOf, placed[k := target[k]], target, j + 1)
            && Occupied(u) == Occupied(dst) + 1 && |placed[k := target[k]]| == |placed| + 1
  {
    var k := KeyAt(src, j);
    var v := target[k];
    var u := dst[p := Some(Entry(Some(k), v))];
    var placed' := placed[k := v];
    assert k !in placed;
    InsertFree(dst, hashOf, placed, p, k, v);
    forall q | 0 <= q < |src| && LiveSlot(src[q])
      ensures KeyAt(src, q) in placed' <==> q < j + 1
    {
      if q != j {
        assert KeyAt(src, q) != KeyAt(src, j);
      }
    }
  }

  /** A null or stale slot of src is passed over. */
  lemma CopySkip<K, V>(src: seq<Slot<K, V>>, dst: seq<Slot<K, V>>, hashOf: K -> bv32,
                       placed: map<K, V>, target: map<K, V>, j: int)
    requires Copying(src, dst, hashOf, placed, target, j) && j < |src| && !LiveSlot(src[j])
    ensures Copying(src, dst, hashOf, placed, target, j + 1)
  {
  }

  /** At the end of the copy dst holds exactly target. */
  lemma CopyDone<K, V>(src: seq<Slot<K, V>>, dst: seq<Slot<K, V>>, hashOf: K -> bv32,
                       placed: map<K, V>, target: map<K, V>, m: map<K, V>)
    requires Copying(src, dst, hashOf, placed, target, |src|) && Agrees(src, m) && target.Keys == m.Keys
    ensures placed == target
  {
    forall k | k in target
      ensures k in placed
    {
      var j :| Holds(src, j, k, m[k]);
      assert KeyAt(src, j) == k;
    }
    assert placed.Keys == target.Keys;
  }
}
