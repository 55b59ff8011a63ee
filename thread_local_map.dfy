/** ThreadLocal.ThreadLocalMap: the per-thread open-addressed hash table from
    ThreadLocal keys to values, with linear probing, weak keys that the
    collector may clear ("stale" entries), and the clean-up that removes stale
    entries along the way. */
module ThreadLocalMaps {
  import opened Common
  import opened ThreadLocalTables

  /** setThreshold: the resize threshold for a table of len slots is the
      largest count whose load stays within two thirds. */
  function Threshold(len: int): (r: int)
    requires len >= 0
    ensures 3 * r <= 2 * len < 3 * r + 3
  {
    len * 2 / 3
  }

  /** The threshold leaves a free slot, and the doubled table has a higher
      threshold than the one it replaces. */
  lemma ThresholdBounds(len: int)
    requires len >= INITIAL_CAPACITY
    ensures Threshold(len) < len
    ensures Threshold(len) < Threshold(2 * len)
  {
  }

  /** The mappings of m with each value v of a key k replaced by f(k, v). */
  ghost function MapValues<K, V>(m: map<K, V>, f: (K, V) -> V): map<K, V> {
    map k | k in m :: f(k, m[k])
  }

  /** The probe `while (tab[h] != null) h = nextIndex(h, len)`: the first null
      slot from h on. Slot z is null, so the probe stops. */
  method FirstFree<K, V>(tab: array<Slot<K, V>>, h: int, ghost z: int) returns (p: int)
    requires 0 <= h < tab.Length && 0 <= z < tab.Length && tab[z].None?
    ensures 0 <= p < tab.Length && tab[p].None? && Filled(tab[..], h, p)
  {
    var n := tab.Length;
    p := h;
    while tab[p].Some?
      invariant 0 <= p < n && Filled(tab[..], h, p)
      invariant Dist(h, p, n) <= Dist(h, z, n)
      decreases Dist(h, z, n) - Dist(h, p, n)
    {
      DistNext(h, p, n);
      DistNext(h, z, n);
      var p' := NextIndex(p, n);
      forall q | 0 <= q < n && Dist(h, q, n) < Dist(h, p', n)
        ensures tab[q].Some?
      {
        if q != p {
          assert Dist(h, q, n) < Dist(h, p, n);
        }
      }
      p := p';
    }
  }

  /** Stores k -> v in the first null slot of k's probe sequence in tab. */
  method PutAtFirstFree<K, V>(tab: array<Slot<K, V>>, hashOf: K -> bv32, k: K, v: V) returns (ghost p: int)
    requires Occupied(tab[..]) < tab.Length
    modifies tab
    ensures 0 <= p < tab.Length && old(tab[p]).None? && Filled(old(tab[..]), Home(hashOf, k, tab.Length), p)
    ensures tab[..] == old(tab[..])[p := Some(Entry(Some(k), v))]
  {
    ghost var z := NullExists(tab[..]);
    var q := FirstFree(tab, Home(hashOf, k, tab.Length), z);
    tab[q] := Some(Entry(Some(k), v));
    p := q;
  }

  /** One slot of the copy loop: slot j of src, when it holds a live entry, is
      copied with its value mapped by f, and skipped otherwise. */
  method CopySlot<K, V>(src: array<Slot<K, V>>, dst: array<Slot<K, V>>, hashOf: K -> bv32, f: (K, V) -> V,
                        ghost m: map<K, V>, ghost target: map<K, V>, ghost placed: map<K, V>, count: int, j: int)
    returns (ghost placed': map<K, V>, count': int)
    requires src != dst && 0 <= j < src.Length <= dst.Length
    requires DistinctKeys(src[..]) && Agrees(src[..], m) && target == MapValues(m, f)
    requires Copying(src[..], dst[..], hashOf, placed, target, j)
    requires count == |placed| == Occupied(dst[..]) && count <= j
    modifies dst
    ensures Copying(src[..], dst[..], hashOf, placed', target, j + 1)
    ensures count' == |placed'| == Occupied(dst[..]) && count' <= j + 1
  {
    var e := src[j];
    if e.Some? && e.value.key.Some? {
      var k := e.value.key.value;
      assert KeyAt(src[..], j) == k;
      ghost var d := dst[..];
      var v := f(k, e.value.value);
      assert m[k] == e.value.value;
      assert v == target[k];
      ghost var p := PutAtFirstFree(dst, hashOf, k, v);
      CopyLive(src[..], d, hashOf, placed, target, j, p);
      placed' := placed[k := target[k]];
      count' := count + 1;
    } else {
      CopySkip(src[..], dst[..], hashOf, placed, target, j);
      placed', count' := placed, count;
    }
  }

  /** The copy loop of resize() and of the inheriting constructor: every live
      entry of src, with its value v of key k replaced by f(k, v), is put at
      the first null slot of its probe in a new table of len slots; stale
      entries are dropped. */
  method CopyLiveEntries<K, V>(src: array<Slot<K, V>>, len: int, hashOf: K -> bv32, f: (K, V) -> V,
                               ghost m: map<K, V>)
    returns (dst: array<Slot<K, V>>, count: int)
    requires src.Length <= len && DistinctKeys(src[..]) && Agrees(src[..], m)
    ensures fresh(dst) && dst.Length == len
    ensures Wellformed(dst[..], hashOf, MapValues(m, f)) && StaleCount(dst[..]) == 0
    ensures count == Occupied(dst[..]) == |m| <= src.Length
  {
    dst := new Slot<K, V>[len](_ => None);
    count := 0;
    ghost var target := MapValues(m, f);
    ghost var placed: map<K, V> := map[];
    CopyStart(src[..], dst[..], hashOf, target);
    for j := 0 to src.Length
      invariant Copying(src[..], dst[..], hashOf, placed, target, j)
      invariant count == |placed| == Occupied(dst[..]) && count <= j
    {
      placed, count := CopySlot(src, dst, hashOf, f, m, target, placed, count, j);
    }
    CopyDone(src[..], dst[..], hashOf, placed, target, m);
    assert placed.Keys == m.Keys;
    NoStaleCount(dst[..]);
  }

  class ThreadLocalMap<K(==), V> {
    /** Each key's threadLocalHashCode. */
    const hashOf: K -> bv32
    var table: array<Slot<K, V>>
    /** The number of non-null slots, stale entries included. */
    var size: int
    var threshold: int
    /** The live mappings. */
    ghost var contents: map<K, V>

    /** The table is a power-of-two probing table with a null slot, holding
        exactly the live mappings, and size counts its occupied slots. */
    ghost predicate Table()
      reads this, table
    {
      && INITIAL_CAPACITY <= table.Length && IsPow2(table.Length)
      && threshold == Threshold(table.Length)
      && size == Occupied(table[..]) && size < table.Length
      && Wellformed(table[..], hashOf, contents)
    }

    /** Between public operations the size is below the threshold. */
    ghost predicate Valid()
      reads this, table
    {
      Table() && size < threshold
    }

    /** A new map of 16 slots holding firstKey at its home slot. */
    constructor (hashOf: K -> bv32, firstKey: K, firstValue: V)
      ensures this.hashOf == hashOf && Valid() && fresh(table)
      ensures contents == map[firstKey := firstValue] && table.Length == INITIAL_CAPACITY && size == 1
    {
      this.hashOf := hashOf;
      var tab := new Slot<K, V>[INITIAL_CAPACITY](_ => None);
      var i := Home(hashOf, firstKey, INITIAL_CAPACITY);
      EmptyTable(tab[..], hashOf);
      InsertFree(tab[..], hashOf, map[], i, firstKey, firstValue);
      tab[i] := Some(Entry(Some(firstKey), firstValue));
      table := tab;
      size := 1;
      threshold := Threshold(INITIAL_CAPACITY);
      contents := map[firstKey := firstValue];
      Pow2IsPow2(4);
      assert Pow2(4) == INITIAL_CAPACITY;
    }

    /** The map of a child thread: the parent's live mappings, each value
        replaced by childValue(key, value), in a table of the parent's length. */
    constructor Inherit(parent: ThreadLocalMap<K, V>, childValue: (K, V) -> V)
      requires parent.Valid()
      ensures hashOf == parent.hashOf && Valid() && fresh(table)
      ensures contents == MapValues(parent.contents, childValue)
      ensures table.Length == parent.table.Length && size == |parent.contents|
    {
      hashOf := parent.hashOf;
      var len := parent.table.Length;
      threshold := Threshold(len);
      SizeSplit(parent.table[..], parent.hashOf, parent.contents);
      var tab, count := CopyLiveEntries(parent.table, len, parent.hashOf, childValue, parent.contents);
      table := tab;
      size := count;
      contents := MapValues(parent.contents, childValue);
    }

    /** The entry of key, found at its home slot or by getEntryAfterMiss. */
    method GetEntry(key: K) returns (r: Option<Entry<K, V>>)
      requires Valid()
      modifies table, this`size
      ensures Valid() && size <= old(size)
      ensures r == if key in contents then Some(Entry(Some(key), contents[key])) else None
    {
      var i := Home(hashOf, key, table.Length);
      var e := table[i];
      if e.Some? && e.value.key == Some(key) {
        assert KeyAt(table[..], i) == key;
        return e;
      }
      r := GetEntryAfterMiss(key, i, e);
    }

    /** Probes on from the home slot i of key, expunging the stale entries it
        meets, until it finds key or a null slot. */
    method GetEntryAfterMiss(key: K, i: int, e: Slot<K, V>) returns (r: Option<Entry<K, V>>)
      requires Valid() && i == Home(hashOf, key, table.Length) && e == table[i]
      modifies table, this`size
      ensures Valid() && size <= old(size)
      ensures r == if key in contents then Some(Entry(Some(key), contents[key])) else None
    {
      var n := table.Length;
      ghost var h := i;
      var j := i;
      var cur := e;
      while cur.Some?
        invariant Valid() && size <= old(size) && table.Length == n
        invariant 0 <= j < n && cur == table[j] && Missed(table[..], key, h, j)
        decreases StaleCount(table[..]), n - Dist(h, j, n)
      {
        DistNext(h, j, n);
        var k := cur.value.key;
        if k == Some(key) {
          assert KeyAt(table[..], j) == key;
          return cur;
        }
        if k.None? {
          ghost var t := table[..];
          var r' := ExpungeStaleEntry(j);
          MissedAfterExpunge(t, table[..], key, h, j, r');
        } else {
          MissedStep(table[..], key, h, j);
          j := NextIndex(j, n);
        }
        cur := table[j];
      }
      Absent(table[..], hashOf, contents, key, j);
      r := None;
    }

    /** The probe of set(): from key's home slot to the first slot holding
        key, a stale entry, or null. */
    method ProbeForSet(key: K) returns (i: int)
      requires Valid()
      ensures 0 <= i < table.Length && Missed(table[..], key, Home(hashOf, key, table.Length), i)
      ensures LiveSlot(table[i]) ==> KeyAt(table[..], i) == key
    {
      var tab := table;
      var n := tab.Length;
      var h := Home(hashOf, key, n);
      i := h;
      while tab[i].Some? && tab[i].value.key.Some? && tab[i].value.key.value != key
        invariant 0 <= i < n && Missed(tab[..], key, h, i) && Occupied(tab[..]) < n
        decreases n - Dist(h, i, n)
      {
        DistNext(h, i, n);
        MissedStep(tab[..], key, h, i);
        i := NextIndex(i, n);
      }
    }

    /** Maps key to value: overwrites key's entry, or takes over the first
        stale slot of its probe, or fills the null slot that ends it; a new
        entry is followed by a partial clean-up and, if that removed nothing
        and the table is at its threshold, a rehash. */
    method Set(key: K, value: V)
      requires Valid()
      modifies this, table
      ensures Valid() && contents == old(contents)[key := value]
    {
      var i := ProbeForSet(key);
      var tab := table;
      if tab[i].Some? {
        if tab[i].value.key.Some? {
          UpdateValue(tab[..], hashOf, contents, i, value);
          tab[i] := Some(Entry(Some(key), value));
          contents := contents[key := value];
        } else {
          ReplaceStaleEntry(key, value, i);
        }
        return;
      }
      Absent(tab[..], hashOf, contents, key, i);
      InsertFree(tab[..], hashOf, contents, i, key, value);
      tab[i] := Some(Entry(Some(key), value));
      contents := contents[key := value];
      size := size + 1;
      ThresholdBounds(tab.Length);
      var sz := size;
      var removed := CleanSomeSlots(i, sz);
      if !removed && sz >= threshold {
        Rehash();
      }
    }

    /** The probe of remove(): from key's home slot to key's entry or the
        first null slot, passing stale entries. */
    method ProbeForRemove(key: K) returns (i: int)
      requires Valid()
      ensures 0 <= i < table.Length && Missed(table[..], key, Home(hashOf, key, table.Length), i)
      ensures table[i].Some? ==> LiveSlot(table[i]) && KeyAt(table[..], i) == key
    {
      var tab := table;
      var n := tab.Length;
      var h := Home(hashOf, key, n);
      i := h;
      while tab[i].Some? && tab[i].value.key != Some(key)
        invariant 0 <= i < n && Missed(tab[..], key, h, i) && Occupied(tab[..]) < n
        decreases n - Dist(h, i, n)
      {
        DistNext(h, i, n);
        MissedStep(tab[..], key, h, i);
        i := NextIndex(i, n);
      }
    }

    /** Removes key's mapping: its entry is cleared and expunged. */
    method Remove(key: K)
      requires Valid()
      modifies table, this`size, this`contents
      ensures Valid() && contents == old(contents) - {key} && size <= old(size)
    {
      var i := ProbeForRemove(key);
      var tab := table;
      if tab[i].Some? {
        ClearKey(tab[..], hashOf, contents, i);
        tab[i] := Some(Entry(None, tab[i].value.value));
        contents := contents - {key};
        var _ := ExpungeStaleEntry(i);
      } else {
        Absent(tab[..], hashOf, contents, key, i);
        assert contents - {key} == contents;
      }
    }

    /** The collector clearing the key of the live entry in slot j: the
        mapping is gone and the slot holds a stale entry. */
    method Collect(j: int)
      requires Valid() && 0 <= j < table.Length && LiveSlot(table[j])
      modifies table, this`contents
      ensures Valid() && contents == old(contents) - {KeyAt(old(table[..]), j)}
      ensures table[..] == old(table[..])[j := Some(Entry(None, old(table[j]).value.value))]
    {
      ClearKey(table[..], hashOf, contents, j);
      contents := contents - {KeyAt(table[..], j)};
      table[j] := Some(Entry(None, table[j].value.value));
    }

    /** The backward scan of replaceStaleEntry: from the slot before
        staleSlot back to the null slot b that starts its run. Returns the
        stale slot of the run nearest to b, or staleSlot when the run holds
        none before staleSlot. */
    method RunStart(staleSlot: int) returns (slotToExpunge: int, ghost b: int)
      requires Valid() && 0 <= staleSlot < table.Length && table[staleSlot].Some?
      ensures BackScanned(table[..], staleSlot, b, slotToExpunge) && table[b].None?
    {
      var tab := table;
      var n := tab.Length;
      ghost var z := NullExists(tab[..]);
      slotToExpunge := staleSlot;
      var i := PrevIndex(staleSlot, n);
      BackStart(tab[..], staleSlot);
      DistPrev(z, staleSlot, n);
      while tab[i].Some?
        invariant BackScanned(tab[..], staleSlot, i, slotToExpunge)
        invariant Dist(i, staleSlot, n) <= Dist(z, staleSlot, n)
        decreases Dist(z, staleSlot, n) - Dist(i, staleSlot, n)
      {
        BackStep(tab[..], staleSlot, i, slotToExpunge, z);
        if tab[i].value.key.None? {
          slotToExpunge := i;
        }
        i := PrevIndex(i, n);
      }
      b := i;
    }

    /** The forward scan of replaceStaleEntry: from the slot after staleSlot
        to key's entry or the null slot that ends the run. When the backward
        scan found no stale entry (first == staleSlot), slotToExpunge becomes
        the first stale slot the forward scan passes, if any. */
    method RunScan(key: K, staleSlot: int, first: int) returns (i: int, slotToExpunge: int)
      requires Valid() && 0 <= staleSlot < table.Length && StaleSlot(table[staleSlot])
      requires Missed(table[..], key, Home(hashOf, key, table.Length), staleSlot)
      requires 0 <= first < table.Length && (first == staleSlot || StaleSlot(table[first]))
      ensures ForwardScanned(table[..], staleSlot, i, first, slotToExpunge)
      ensures Missed(table[..], key, Home(hashOf, key, table.Length), i)
      ensures table[i].Some? ==> LiveSlot(table[i]) && KeyAt(table[..], i) == key
    {
      var tab := table;
      var n := tab.Length;
      ghost var h := Home(hashOf, key, n);
      slotToExpunge := first;
      DistNext(staleSlot, staleSlot, n);
      DistNext(h, staleSlot, n);
      MissedStep(tab[..], key, h, staleSlot);
      ForwardStart(tab[..], staleSlot, first);
      i := NextIndex(staleSlot, n);
      while tab[i].Some? && tab[i].value.key != Some(key)
        invariant 0 <= i < n && Missed(tab[..], key, h, i) && Occupied(tab[..]) < n
        invariant ForwardScanned(tab[..], staleSlot, i, first, slotToExpunge)
        invariant Dist(h, i, n) == Dist(h, staleSlot, n) + Dist(staleSlot, i, n)
        decreases n - Dist(h, i, n)
      {
        DistNext(h, i, n);
        DistNext(staleSlot, i, n);
        MissedStep(tab[..], key, h, i);
        assert NextIndex(i, n) != staleSlot;
        ForwardStep(tab[..], staleSlot, i, first, slotToExpunge);
        if tab[i].value.key.None? && slotToExpunge == staleSlot {
          slotToExpunge := i;
        }
        i := NextIndex(i, n);
      }
    }

    /** Key's entry at slot i takes the new value and changes places with the
        stale entry at staleSlot, which lies on key's probe before i. */
    method SwapWithStale(key: K, value: V, staleSlot: int, i: int)
      requires Valid() && 0 <= staleSlot < table.Length && StaleSlot(table[staleSlot])
      requires Missed(table[..], key, Home(hashOf, key, table.Length), staleSlot)
      requires 0 <= i < table.Length && LiveSlot(table[i]) && KeyAt(table[..], i) == key
      modifies table, this`contents
      ensures Valid() && contents == old(contents)[key := value]
      ensures table[..] == old(table[..])[i := old(table[staleSlot])][staleSlot := Some(Entry(Some(key), value))]
    {
      ghost var t := table[..];
      SwapIntoStale(t, hashOf, contents, staleSlot, i, value);
      table[i] := table[staleSlot];
      table[staleSlot] := Some(Entry(Some(key), value));
      contents := contents[key := value];
      assert table[..] == t[i := t[staleSlot]][staleSlot := Some(Entry(Some(key), value))];
    }

    /** A new entry for the absent key takes the stale slot on its probe. */
    method PutInStaleSlot(key: K, value: V, staleSlot: int, i: int)
      requires Valid() && 0 <= staleSlot < table.Length && StaleSlot(table[staleSlot])
      requires Missed(table[..], key, Home(hashOf, key, table.Length), staleSlot)
      requires 0 <= i < table.Length && table[i].None? && Missed(table[..], key, Home(hashOf, key, table.Length), i)
      modifies table, this`contents
      ensures Valid() && contents == old(contents)[key := value]
      ensures table[..] == old(table[..])[staleSlot := Some(Entry(Some(key), value))]
    {
      Absent(table[..], hashOf, contents, key, i);
      PutInStale(table[..], hashOf, contents, staleSlot, key, value);
      table[staleSlot] := Some(Entry(Some(key), value));
      contents := contents[key := value];
    }

    /** Sets key to value when the probe for key met the stale slot staleSlot
        first. The key's own entry further along the run, if any, is swapped
        into staleSlot; otherwise a new entry takes staleSlot. A stale entry
        left in the run is then expunged from the first one on, followed by a
        partial clean-up. */
    method ReplaceStaleEntry(key: K, value: V, staleSlot: int)
      requires Valid() && 0 <= staleSlot < table.Length && StaleSlot(table[staleSlot])
      requires Missed(table[..], key, Home(hashOf, key, table.Length), staleSlot)
      modifies table, this`size, this`contents
      ensures Valid() && contents == old(contents)[key := value] && size <= old(size)
    {
      var first: int;
      ghost var b: int;
      first, b := RunStart(staleSlot);
      var i, slotToExpunge := RunScan(key, staleSlot, first);
      if table[i].Some? {
        SwapWithStale(key, value, staleSlot, i);
        if slotToExpunge == staleSlot {
          slotToExpunge := i;
        }
        ExpungeAndClean(slotToExpunge);
        return;
      }
      PutInStaleSlot(key, value, staleSlot, i);
      if slotToExpunge != staleSlot {
        ExpungeAndClean(slotToExpunge);
      }
    }

    /** `cleanSomeSlots(expungeStaleEntry(slot), len)`: expunges the run from
        the stale slot on, then cleans some slots after it. */
    method ExpungeAndClean(slot: int)
      requires Table() && 0 <= slot < table.Length && StaleSlot(table[slot])
      modifies table, this`size
      ensures Table() && size < old(size)
    {
      var r := ExpungeStaleEntry(slot);
      var _ := CleanSomeSlots(r, table.Length);
    }

    /** Removes the stale entry at staleSlot and re-probes every entry up to
        the next null slot: stale ones are removed, live ones move to the first
        null slot of their probe. Returns that null slot: the slots scanned
        were occupied before and hold no stale entry after; the slots from the
        returned one on are unchanged. */
    method ExpungeStaleEntry(staleSlot: int) returns (r: int)
      requires Table() && 0 <= staleSlot < table.Length && StaleSlot(table[staleSlot])
      modifies table, this`size
      ensures Table() && ExpungedRun(old(table[..]), table[..], staleSlot, r)
      ensures StaleCount(table[..]) < StaleCount(old(table[..]))
      ensures size == old(size) - (StaleCount(old(table[..])) - StaleCount(table[..]))
    {
      var tab := table;
      var len := tab.Length;
      ghost var t0 := tab[..];
      ghost var z := NullExists(t0);
      ExpungeStart(t0, hashOf, contents, staleSlot, z);
      tab[staleSlot] := None;
      size := size - 1;
      assert tab[..] == t0[staleSlot := None];
      var i := NextIndex(staleSlot, len);
      while tab[i].Some?
        invariant 0 <= i < len && Expunging(t0, tab[..], hashOf, contents, staleSlot, i, z)
        invariant size == Occupied(tab[..]) && size - StaleCount(tab[..]) == old(size) - StaleCount(t0)
        invariant StaleCount(tab[..]) < StaleCount(t0)
        decreases Dist(staleSlot, z, len) - Dist(staleSlot, i, len)
      {
        ExpungeAdvance(t0, tab[..], hashOf, contents, staleSlot, i, z);
        RehashSlot(t0, staleSlot, i, z);
        i := NextIndex(i, len);
      }
      ExpungeDone(t0, tab[..], hashOf, contents, staleSlot, i, z);
      r := i;
    }

    /** One slot of expungeStaleEntry's scan: a stale entry is dropped, and a
        live entry away from its home slot moves to the first null slot of its
        probe. */
    method RehashSlot(ghost t0: seq<Slot<K, V>>, staleSlot: int, i: int, ghost z: int)
      requires 0 <= i < table.Length && table[i].Some?
      requires Expunging(t0, table[..], hashOf, contents, staleSlot, i, z)
      requires size == Occupied(table[..])
      modifies table, this`size
      ensures Expunging(t0, table[..], hashOf, contents, staleSlot, NextIndex(i, table.Length), z)
      ensures size == Occupied(table[..]) && StaleCount(table[..]) <= old(StaleCount(table[..]))
      ensures size - StaleCount(table[..]) == old(size - StaleCount(table[..]))
    {
      var tab := table;
      var len := tab.Length;
      ghost var t := tab[..];
      ExpungeAdvance(t0, t, hashOf, contents, staleSlot, i, z);
      var e := tab[i].value;
      if e.key.None? {
        ExpungeDropStale(t0, t, hashOf, contents, staleSlot, i, z);
        tab[i] := None;
        size := size - 1;
        assert tab[..] == t[i := None];
      } else {
        var h := Home(hashOf, e.key.value, len);
        assert h == Home(hashOf, KeyAt(t, i), len);
        if h != i {
          tab[i] := None;
          assert tab[..] == t[i := None];
          var p := FirstFree(tab, h, i);
          ExpungeMove(t0, t, hashOf, contents, staleSlot, i, z, p);
          tab[p] := Some(e);
          assert tab[..] == t[i := None][p := t[i]];
        } else {
          ExpungeKeep(t0, t, hashOf, contents, staleSlot, i, z);
        }
      }
    }

    /** Scans about log2(n) slots after i for stale entries; each stale entry
        found is expunged and resets the scan to log2(table.Length) more
        slots. Reports whether anything was removed. */
    method CleanSomeSlots(i: int, n: int) returns (removed: bool)
      requires Table() && 0 <= i < table.Length && n >= 0
      modifies table, this`size
      ensures Table() && size <= old(size)
      ensures removed <==> size < old(size)
      ensures !removed ==> table[..] == old(table[..])
    {
      removed := false;
      var tab := table;
      var len := tab.Length;
      var j := i;
      var c := n;
      while true
        invariant Table() && 0 <= j < len && c >= 0
        invariant size <= old(size) && (removed <==> size < old(size))
        invariant !removed ==> tab[..] == old(tab[..])
        decreases StaleCount(tab[..]), c
      {
        j := NextIndex(j, len);
        var e := tab[j];
        if e.Some? && e.value.key.None? {
          c := len;
          removed := true;
          j := ExpungeStaleEntry(j);
        }
        c := c / 2;
        if c == 0 {
          break;
        }
      }
    }

    /** Expunges every stale entry of the table. */
    method ExpungeStaleEntries()
      requires Table()
      modifies table, this`size
      ensures Table() && StaleCount(table[..]) == 0 && size == |contents| && size <= old(size)
    {
      var tab := table;
      var len := tab.Length;
      for j := 0 to len
        invariant Table() && size <= old(size)
        invariant forall q :: 0 <= q < j ==> !StaleSlot(tab[q])
      {
        var e := tab[j];
        if e.Some? && e.value.key.None? {
          ghost var t := tab[..];
          var r := ExpungeStaleEntry(j);
          forall q | 0 <= q < j + 1
            ensures !StaleSlot(tab[q])
          {
            if Dist(j, r, len) <= Dist(j, q, len) {
              assert tab[q] == t[q];
            }
          }
        }
      }
      NoStaleCount(tab[..]);
      SizeSplit(tab[..], hashOf, contents);
    }

    /** Expunges all stale entries and doubles the table if the size is still
        at least three quarters of the threshold. */
    method Rehash()
      requires Table() && size <= threshold
      modifies this, table
      ensures Valid() && contents == old(contents)
      ensures table.Length == if |contents| >= old(threshold) - old(threshold) / 4
                              then 2 * old(table.Length) else old(table.Length)
    {
      ExpungeStaleEntries();
      if size >= threshold - threshold / 4 {
        ThresholdBounds(table.Length);
        Resize();
      }
    }

    /** Doubles the table, re-probing every live entry into the new one and
        dropping the stale ones. */
    method Resize()
      requires Table()
      modifies this
      ensures Table() && contents == old(contents) && fresh(table)
      ensures table.Length == 2 * old(table.Length) && size == |contents|
      ensures threshold == Threshold(table.Length)
    {
      var oldTab := table;
      var newLen := oldTab.Length * 2;
      var newTab, count := CopyLiveEntries(oldTab, newLen, hashOf, (k: K, v: V) => v, contents);
      assert MapValues(contents, (k: K, v: V) => v) == contents;
      DoubleIsPow2(oldTab.Length);
      threshold := Threshold(newLen);
      size := count;
      table := newTab;
    }
  }
}
