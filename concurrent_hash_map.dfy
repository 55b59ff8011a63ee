/** The segmented ConcurrentHashMap seen from its callers: a directory of
    lazily created segments, each op dispatched to the segment its hash
    selects, and the aggregate reads that walk every segment. The map is
    taken single-threaded: every operation runs to completion before the
    next starts, so the segment locks, the volatile reads and the retry
    loops of the aggregate reads have no observable effect beyond the passes
    a sequential run makes. The abstract meaning of the map is
    `Contents()`, the union of the segments' maps. */
module ConcurrentHashMaps {
  import opened Common
  import opened MapSizing
  import opened Segments

  // ---------------------------------------------------------------------------
  // The union of the segments' maps
  // ---------------------------------------------------------------------------

  /** The mappings of all segments together, segment 0 first. */
  function Union<K, V>(s: seq<map<K, V>>): map<K, V> {
    if |s| == 0 then map[] else Union(s[..|s| - 1]) + s[|s| - 1]
  }

  /** The sum of the sizes of the segments' maps. */
  function SumSizes<K, V>(s: seq<map<K, V>>): nat {
    if |s| == 0 then 0 else SumSizes(s[..|s| - 1]) + |s[|s| - 1]|
  }

  /** Every key of segment map j is one whose hash selects segment j of n. */
  ghost predicate Owned<K, V>(s: seq<map<K, V>>, hashOf: K -> bv32, segmentShift: nat, n: nat)
    requires n > 0
  {
    forall j, k :: 0 <= j < |s| && k in s[j] ==> SegmentIndex(hashOf(k), segmentShift, n) == j
  }

  /** A key's mapping in the union is its mapping in the segment its hash
      selects. */
  lemma {:induction false} UnionLookup<K, V>(s: seq<map<K, V>>, hashOf: K -> bv32, segmentShift: nat, n: nat, k: K)
    requires n > 0 && Owned(s, hashOf, segmentShift, n)
    ensures var j := SegmentIndex(hashOf(k), segmentShift, n);
            Lookup(Union(s), k) == if j < |s| then Lookup(s[j], k) else None
    decreases |s|
  {
    if |s| > 0 {
      var pre := s[..|s| - 1];
      assert Owned(pre, hashOf, segmentShift, n) by {
        forall j, k' | 0 <= j < |pre| && k' in pre[j]
          ensures SegmentIndex(hashOf(k'), segmentShift, n) == j
        {
          assert pre[j] == s[j];
        }
      }
      UnionLookup(pre, hashOf, segmentShift, n, k);
    }
  }

  /** The union of disjoint segment maps has the sum of their sizes. */
  lemma {:induction false} UnionSize<K, V>(s: seq<map<K, V>>, hashOf: K -> bv32, segmentShift: nat, n: nat)
    requires n > 0 && Owned(s, hashOf, segmentShift, n)
    ensures |Union(s)| == SumSizes(s)
    decreases |s|
  {
    if |s| > 0 {
      var pre := s[..|s| - 1];
      var last := s[|s| - 1];
      assert Owned(pre, hashOf, segmentShift, n) by {
        forall j, k' | 0 <= j < |pre| && k' in pre[j]
          ensures SegmentIndex(hashOf(k'), segmentShift, n) == j
        {
          assert pre[j] == s[j];
        }
      }
      UnionSize(pre, hashOf, segmentShift, n);
      forall k | k in last
        ensures k !in Union(pre)
      {
        UnionLookup(pre, hashOf, segmentShift, n, k);
      }
      assert (Union(pre) + last).Keys == Union(pre).Keys + last.Keys;
      assert Union(pre).Keys !! last.Keys;
    }
  }

  /** Maps that agree on every lookup are equal. */
  lemma MapsAgree<K, V>(a: map<K, V>, b: map<K, V>)
    requires forall k :: Lookup(a, k) == Lookup(b, k)
    ensures a == b
  {
    assert forall k :: k in a <==> Lookup(a, k).Some?;
    assert a.Keys == b.Keys;
  }

  /** Replacing the map of one segment by m', whose keys all belong there,
      changes the union exactly on that segment's keys. */
  lemma UnionReplace<K, V>(s: seq<map<K, V>>, hashOf: K -> bv32, segmentShift: nat, j: nat, m': map<K, V>)
    requires |s| > 0 && Owned(s, hashOf, segmentShift, |s|) && j < |s|
    requires forall k :: k in m' ==> SegmentIndex(hashOf(k), segmentShift, |s|) == j
    ensures Owned(s[j := m'], hashOf, segmentShift, |s|)
    ensures forall k :: Lookup(Union(s[j := m']), k) ==
              if SegmentIndex(hashOf(k), segmentShift, |s|) == j then Lookup(m', k) else Lookup(Union(s), k)
  {
    var s' := s[j := m'];
    assert Owned(s', hashOf, segmentShift, |s|);
    forall k
      ensures Lookup(Union(s'), k) ==
              if SegmentIndex(hashOf(k), segmentShift, |s|) == j then Lookup(m', k) else Lookup(Union(s), k)
    {
      UnionLookup(s, hashOf, segmentShift, |s|, k);
      UnionLookup(s', hashOf, segmentShift, |s|, k);
    }
  }

  /** Storing k := v in the segment k belongs to stores it in the union. */
  lemma UnionAssign<K, V>(s: seq<map<K, V>>, hashOf: K -> bv32, segmentShift: nat, k: K, v: V)
    requires |s| > 0 && Owned(s, hashOf, segmentShift, |s|)
    ensures var j := SegmentIndex(hashOf(k), segmentShift, |s|);
            Owned(s[j := s[j][k := v]], hashOf, segmentShift, |s|)
            && Union(s[j := s[j][k := v]]) == Union(s)[k := v]
  {
    var j := SegmentIndex(hashOf(k), segmentShift, |s|);
    UnionReplace(s, hashOf, segmentShift, j, s[j][k := v]);
    var s' := s[j := s[j][k := v]];
    var u := Union(s)[k := v];
    forall k' ensures Lookup(Union(s'), k') == Lookup(u, k') {
      UnionLookup(s, hashOf, segmentShift, |s|, k');
    }
    MapsAgree(Union(s'), u);
  }

  /** Deleting k from the segment k belongs to deletes it from the union. */
  lemma UnionDelete<K, V>(s: seq<map<K, V>>, hashOf: K -> bv32, segmentShift: nat, k: K)
    requires |s| > 0 && Owned(s, hashOf, segmentShift, |s|)
    ensures var j := SegmentIndex(hashOf(k), segmentShift, |s|);
            Owned(s[j := s[j] - {k}], hashOf, segmentShift, |s|)
            && Union(s[j := s[j] - {k}]) == Union(s) - {k}
  {
    var j := SegmentIndex(hashOf(k), segmentShift, |s|);
    UnionReplace(s, hashOf, segmentShift, j, s[j] - {k});
    var s' := s[j := s[j] - {k}];
    var u := Union(s) - {k};
    forall k' ensures Lookup(Union(s'), k') == Lookup(u, k') {
      UnionLookup(s, hashOf, segmentShift, |s|, k');
    }
    MapsAgree(Union(s'), u);
  }

  /** A segment map with a mapping makes the union non-empty. */
  lemma UnionNonEmpty<K, V>(s: seq<map<K, V>>, hashOf: K -> bv32, segmentShift: nat, j: nat)
    requires |s| > 0 && Owned(s, hashOf, segmentShift, |s|) && j < |s| && |s[j]| != 0
    ensures |Union(s)| != 0
  {
    var k :| k in s[j];
    UnionLookup(s, hashOf, segmentShift, |s|, k);
  }

  /** The union of empty segment maps is empty. */
  lemma {:induction false} UnionOfEmpty<K, V>(s: seq<map<K, V>>)
    requires forall j :: 0 <= j < |s| ==> |s[j]| == 0
    ensures Union(s) == map[]
    decreases |s|
  {
    if |s| > 0 {
      UnionOfEmpty(s[..|s| - 1]);
      assert |s[|s| - 1]| == 0;
    }
  }

  /** Some key of the union maps to v exactly when some segment map has one. */
  lemma UnionHasValue<K, V>(s: seq<map<K, V>>, hashOf: K -> bv32, segmentShift: nat, v: V)
    requires |s| > 0 && Owned(s, hashOf, segmentShift, |s|)
    ensures HasValue(Union(s), v) <==> exists j :: 0 <= j < |s| && HasValue(s[j], v)
  {
    if HasValue(Union(s), v) {
      var k :| k in Union(s) && Union(s)[k] == v;
      UnionLookup(s, hashOf, segmentShift, |s|, k);
      assert HasValue(s[SegmentIndex(hashOf(k), segmentShift, |s|)], v);
    }
    if j :| 0 <= j < |s| && HasValue(s[j], v) {
      var k :| k in s[j] && s[j][k] == v;
      UnionLookup(s, hashOf, segmentShift, |s|, k);
    }
  }

  /** One step of size()'s sum: `if (c < 0 || (size += c) < 0) overflow = true`
      with c a segment's count read as a Java int and `+=` wrapping. */
  function CountStep(size: int, overflow: bool, count: int): (int, bool) {
    var c := Wrap32(count);
    if c < 0 then (size, true)
    else
      var t := Wrap32(size + c);
      (t, overflow || t < 0)
  }

  /** When the counts fit in an int, the step tracks the exact total: the
      flag is raised exactly when the total passes Integer.MAX_VALUE, and
      until then the running sum is the total. */
  lemma CountStepAdds(size: int, overflow: bool, count: int, total: int)
    requires 0 <= count <= INT_MAX && 0 <= total
    requires overflow <==> total > INT_MAX
    requires !overflow ==> size == total
    ensures CountStep(size, overflow, count).1 <==> total + count > INT_MAX
    ensures !CountStep(size, overflow, count).1 ==> CountStep(size, overflow, count).0 == total + count
  {
    if !overflow && total + count > INT_MAX {
      assert (total + count) % TWO_TO_32 == total + count;
    }
  }

  /** The chains of buckets i, i - 1, ..., 0 of a table, in that order: the
      order in which the iterator walks a segment's table. */
  function BucketsDown<K, V>(t: seq<Chain<K, V>>, i: int): seq<HashEntry<K, V>>
    requires i < |t|
    decreases i + 1
  {
    if i < 0 then [] else t[i] + BucketsDown(t, i - 1)
  }

  /** The walk down from bucket i meets exactly the nodes of buckets 0 to i. */
  lemma {:induction false} BucketsDownMember<K, V>(t: seq<Chain<K, V>>, i: int, x: HashEntry<K, V>)
    requires i < |t|
    ensures x in BucketsDown(t, i) <==> exists b :: 0 <= b <= i && x in t[b]
    decreases i + 1
  {
    if i >= 0 {
      BucketsDownMember(t, i - 1, x);
    }
  }

  // ---------------------------------------------------------------------------
  // The map
  // ---------------------------------------------------------------------------

  class ConcurrentHashMap<K(==,!new), V(==)> {
    /** The segment directory; a null slot is a segment not yet created. */
    const segments: array<Segment?<K, V>>
    const segmentShift: nat
    const segmentMask: int
    /** The keys' hashCode; an operation spreads it with Spread. */
    const hashCode: K -> bv32
    /** Spread(hashCode(k)), the hash every segment files its keys by. */
    ghost const hashOf: K -> bv32
    /** The number of bits of the segment index. */
    ghost const sshift: nat
    /** The map of each segment, empty for a segment not yet created. */
    ghost var segContents: seq<map<K, V>>
    ghost var Repr: set<object>
    /** The slot each segment object and each table belongs to; distinct
        slots thus never share an object. */
    ghost var owner: map<object, nat>

    /** The directory's shape, fixed by the constructor. */
    ghost predicate Shape()
      reads this, segments
    {
      && this in Repr && segments in Repr
      && sshift <= 16 && segments.Length == Pow2(sshift)
      && segmentShift == 32 - sshift && segmentMask == segments.Length - 1
      && (forall k :: hashOf(k) == Hash(k))
      && |segContents| == segments.Length
      && segments[0] != null
      && owner.Keys <= Repr
    }

    /** Slot j: no segment and no mappings, or a valid segment filing its keys
        by hashOf, owning itself and its table, whose mappings are
        segContents[j] and whose threshold is the one its table length and
        load factor give. */
    ghost predicate SlotOk(j: int)
      reads this, segments, Repr
      requires 0 <= j < segments.Length && |segContents| == segments.Length
    {
      var s := segments[j];
      if s == null then segContents[j] == map[]
      else
        && s in Repr && s.table in Repr
        && s in owner && owner[s as object] == j && s.table in owner && owner[s.table] == j
        && s.hashOf == hashOf && s.Valid() && segContents[j] == s.contents
        && s.threshold == Threshold(s.table.Length, s.loadFactor)
    }

    ghost predicate Valid()
      reads this, segments, Repr
    {
      && Shape()
      && (forall j {:trigger SlotOk(j)} :: 0 <= j < segments.Length ==> SlotOk(j))
      && Owned(segContents, hashOf, segmentShift, segments.Length)
    }

    /** The mappings of the map. */
    ghost function Contents(): map<K, V>
      reads this
    {
      Union(segContents)
    }

    /** Only segment 0 exists, as right after construction. */
    ghost predicate OnlyFirstSegment()
      reads this, segments
    {
      forall j :: 1 <= j < segments.Length ==> segments[j] == null
    }

    /** The map is laid out as the constructor promises for these arguments. */
    ghost predicate SizedAs(initialCapacity: int, lf: LoadFactor, concurrencyLevel: int)
      reads this, segments, segments[0]
      requires lf.Positive() && segments.Length > 0 && segments[0] != null
    {
      SizedFor(Sizing(sshift, segments.Length, segmentShift, segmentMask,
                      segments[0].table.Length, segments[0].threshold),
               initialCapacity, lf, concurrencyLevel)
      && segments[0].loadFactor == lf
    }

    /** The hash of a key: the supplemental hash over its hashCode. */
    function Hash(k: K): bv32 {
      Spread(hashCode(k))
    }

    /** The segment a hash selects, `(h >>> segmentShift) & segmentMask`. */
    function SegmentFor(h: bv32): (j: nat)
      requires segments.Length > 0
      ensures j < segments.Length
    {
      SegmentIndex(h, segmentShift, segments.Length)
    }

    /** The constructor's allocation: the directory of ssize slots with only
        segment 0 created, its table of cap empty buckets. */
    constructor (s: Sizing, lf: LoadFactor, hashCode: K -> bv32)
      requires lf.Positive() && s.sshift <= 16 && s.ssize == Pow2(s.sshift)
      requires s.segmentShift == 32 - s.sshift && s.segmentMask == s.ssize - 1
      requires IsPow2(s.cap) && s.cap <= MAXIMUM_CAPACITY && s.threshold == Threshold(s.cap, lf)
      ensures Valid() && fresh(Repr) && Contents() == map[]
      ensures segments.Length == s.ssize && segmentShift == s.segmentShift && segmentMask == s.segmentMask
      ensures segments[0] != null && segments[0].table.Length == s.cap
      ensures segments[0].threshold == s.threshold && segments[0].loadFactor == lf
      ensures this.hashCode == hashCode && sshift == s.sshift
      ensures OnlyFirstSegment()
    {
      ghost var hashOf := k => Spread(hashCode(k));
      var ss := new Segment?<K, V>[s.ssize](_ => null);
      var s0 := new Segment<K, V>(lf, s.threshold, s.cap, hashOf);
      ss[0] := s0;
      segments := ss;
      segmentShift := s.segmentShift;
      segmentMask := s.segmentMask;
      this.hashCode := hashCode;
      this.hashOf := hashOf;
      sshift := s.sshift;
      segContents := seq(s.ssize, _ => map[]);
      Repr := {this, ss, s0, s0.table};
      owner := map[s0 := 0, s0.table := 0];
      new;
      forall j | 0 <= j < segments.Length
        ensures SlotOk(j)
      {
      }
      UnionOfEmpty(segContents);
    }

    /** ConcurrentHashMap(initialCapacity, loadFactor, concurrencyLevel):
        IllegalArgumentException for a non-positive load factor, a negative
        capacity or a non-positive concurrency level; otherwise an empty map
        sized by ComputeSizing. */
    static method Create(initialCapacity: int, lf: LoadFactor, concurrencyLevel: int, hashCode: K -> bv32)
      returns (r: Result<ConcurrentHashMap<K, V>>)
      ensures r.Err? <==> !lf.Positive() || initialCapacity < 0 || concurrencyLevel <= 0
      ensures r.Err? ==> r.error == IllegalArgument
      ensures r.Ok? ==> && fresh(r.value) && fresh(r.value.Repr) && r.value.Valid()
                        && r.value.Contents() == map[] && r.value.hashCode == hashCode
                        && lf.Positive() && r.value.SizedAs(initialCapacity, lf, concurrencyLevel)
                        && r.value.OnlyFirstSegment()
    {
      var sizing := ComputeSizing(initialCapacity, lf, concurrencyLevel);
      if sizing.Err? {
        return Err(sizing.error);
      }
      var s := sizing.value;
      Pow2Below16(s.sshift, s.ssize);
      var m := new ConcurrentHashMap(s, lf, hashCode);
      r := Ok(m);
    }

    /** The number of segment-index bits is at most 16. */
    static lemma Pow2Below16(sshift: nat, ssize: int)
      requires ssize == Pow2(sshift) && ssize <= MAX_SEGMENTS
      ensures sshift <= 16
    {
      Pow2Constants();
      assert Pow2(17) == 2 * Pow2(16);
      Pow2Below(sshift, 17);
    }

    /** ConcurrentHashMap(): capacity 16, load factor 0.75, 16 segments. */
    static method CreateDefault(hashCode: K -> bv32) returns (m: ConcurrentHashMap<K, V>)
      ensures fresh(m) && fresh(m.Repr) && m.Valid() && m.Contents() == map[] && m.hashCode == hashCode
      ensures m.SizedAs(DEFAULT_INITIAL_CAPACITY, DEFAULT_LOAD_FACTOR, DEFAULT_CONCURRENCY_LEVEL)
      ensures m.OnlyFirstSegment()
    {
      var r := Create(DEFAULT_INITIAL_CAPACITY, DEFAULT_LOAD_FACTOR, DEFAULT_CONCURRENCY_LEVEL, hashCode);
      m := r.value;
    }

    /** ConcurrentHashMap(initialCapacity) and (initialCapacity, loadFactor):
        the default concurrency level 16 and, for the first, load factor 0.75. */
    static method CreateWithCapacity(initialCapacity: int, lf: LoadFactor, hashCode: K -> bv32)
      returns (r: Result<ConcurrentHashMap<K, V>>)
      ensures r.Err? <==> !lf.Positive() || initialCapacity < 0
      ensures r.Ok? ==> && fresh(r.value) && fresh(r.value.Repr) && r.value.Valid()
                        && r.value.Contents() == map[] && lf.Positive()
                        && r.value.SizedAs(initialCapacity, lf, DEFAULT_CONCURRENCY_LEVEL)
                        && r.value.OnlyFirstSegment()
    {
      r := Create(initialCapacity, lf, DEFAULT_CONCURRENCY_LEVEL, hashCode);
    }

    /** ensureSegment(k): the segment in slot k, installing there a fresh
        empty one first when the slot is empty. The new segment copies
        segment 0's current table length and load factor. */
    method EnsureSegment(k: nat) returns (seg: Segment<K, V>)
      requires Valid() && k < segments.Length
      modifies segments, `Repr, `owner
      ensures Valid() && fresh(Repr - old(Repr))
      ensures segments[k] == seg && segContents == old(segContents)
      ensures old(segments[k]) != null ==> seg == old(segments[k]) && Repr == old(Repr)
      ensures old(segments[k]) != null ==> segments[..] == old(segments[..])
      ensures old(segments[k]) == null ==>
                && fresh(seg) && segments[..] == old(segments[..])[k := seg]
                && seg.table.Length == old(segments[0].table.Length)
                && seg.loadFactor == old(segments[0].loadFactor) && seg.Valid()
                && seg.threshold == Threshold(seg.table.Length, seg.loadFactor)
                && seg.contents == map[] && seg.count == 0
    {
      var ss := segments;
      if ss[k] != null {
        return ss[k];
      }
      var proto := ss[0];
      assert SlotOk(0);
      var cap := proto.table.Length;
      var lf := proto.loadFactor;
      var threshold := Threshold(cap, lf);
      var s := new Segment<K, V>(lf, threshold, cap, hashOf);
      ss[k] := s;
      Repr := Repr + {s, s.table};
      owner := owner[s := k][s.table := k];
      seg := s;
      forall q | 0 <= q < segments.Length
        ensures SlotOk(q)
      {
        assert old(SlotOk(q));
      }
    }

    /** Store the outcome of an update of segment j back in the ghost state:
        its mappings, and its table when it has a fresh one. */
    ghost method Record(j: nat)
      requires Shape() && j < segments.Length && segments[j] != null
      requires forall q {:trigger SlotOk(q)} :: 0 <= q < segments.Length && q != j ==> SlotOk(q)
      requires var s := segments[j];
               && s in Repr && s in owner && owner[s as object] == j
               && (s.table in owner ==> owner[s.table] == j)
               && s.hashOf == hashOf && s.Valid()
               && s.threshold == Threshold(s.table.Length, s.loadFactor)
      requires Owned(segContents[j := segments[j].contents], hashOf, segmentShift, segments.Length)
      modifies this
      ensures Valid()
      ensures segContents == old(segContents)[j := segments[j].contents]
      ensures Repr == old(Repr) + {segments[j].table}
    {
      var s := segments[j];
      segContents := segContents[j := s.contents];
      Repr := Repr + {s.table};
      owner := owner[s.table := j];
      forall q | 0 <= q < segments.Length
        ensures SlotOk(q)
      {
        if q != j {
          assert old(SlotOk(q));
        }
      }
    }

    /** get(key): the value in the key's segment and bucket, or null. */
    method Get(key: K) returns (r: Option<V>)
      requires Valid()
      ensures r == Lookup(Contents(), key)
    {
      var h := Hash(key);
      var j := SegmentFor(h);
      UnionLookup(segContents, hashOf, segmentShift, segments.Length, key);
      r := None;
      var s := segments[j];
      assert SlotOk(j);
      if s != null {
        var tab := s.table;
        var e := tab[BucketIndex(h, tab.Length)];
        assert e == tab[..][BucketIndex(hashOf(key), |tab[..]|)];
        var i := FindKey(e, key);
        ChainLookup(tab[..], s.contents, hashOf, key, i);
        if i < |e| {
          r := Some(e[i].value);
        }
      }
    }

    /** containsKey(key): whether the key's chain holds it. */
    method ContainsKey(key: K) returns (r: bool)
      requires Valid()
      ensures r <==> key in Contents()
    {
      var h := Hash(key);
      var j := SegmentFor(h);
      UnionLookup(segContents, hashOf, segmentShift, segments.Length, key);
      r := false;
      var s := segments[j];
      assert SlotOk(j);
      if s != null {
        var tab := s.table;
        var e := tab[BucketIndex(h, tab.Length)];
        assert e == tab[..][BucketIndex(hashOf(key), |tab[..]|)];
        var i := FindKey(e, key);
        ChainLookup(tab[..], s.contents, hashOf, key, i);
        r := i < |e|;
      }
    }

    /** The segment for a key, created if it does not exist yet, as put and
        putIfAbsent do before storing. */
    method SegmentForPut(key: K) returns (s: Segment<K, V>, j: nat)
      requires Valid()
      modifies segments, `Repr, `owner
      ensures Valid() && fresh(Repr - old(Repr)) && segContents == old(segContents)
      ensures j == SegmentFor(Hash(key)) && segments[j] == s
    {
      j := SegmentFor(Hash(key));
      var existing := segments[j];
      if existing == null {
        s := EnsureSegment(j);
      } else {
        s := existing;
      }
    }

    /** put(key, value): NullPointerException for a null value; otherwise the
        previous value, and key now maps to value. */
    method Put(key: K, value: Option<V>) returns (r: Result<Option<V>>)
      requires Valid()
      modifies Repr
      ensures Valid() && fresh(Repr - old(Repr))
      ensures value.None? ==> r == Err(NullPointer) && Contents() == old(Contents())
      ensures value.Some? ==> r == Ok(Lookup(old(Contents()), key))
                              && Contents() == old(Contents())[key := value.value]
    {
      if value.None? {
        return Err(NullPointer);
      }
      var prev := PutInSegment(key, value.value, false);
      r := Ok(prev);
    }

    /** putIfAbsent(key, value): NullPointerException for a null value;
        otherwise the previous value, and key is stored only if it was absent. */
    method PutIfAbsent(key: K, value: Option<V>) returns (r: Result<Option<V>>)
      requires Valid()
      modifies Repr
      ensures Valid() && fresh(Repr - old(Repr))
      ensures value.None? ==> r == Err(NullPointer) && Contents() == old(Contents())
      ensures value.Some? ==> r == Ok(Lookup(old(Contents()), key))
                              && Contents() == if key in old(Contents()) then old(Contents())
                                               else old(Contents())[key := value.value]
    {
      if value.None? {
        return Err(NullPointer);
      }
      var prev := PutInSegment(key, value.value, true);
      r := Ok(prev);
    }

    /** The common part of put and putIfAbsent: Segment.put in the key's
        segment, creating the segment first if need be. */
    method PutInSegment(key: K, value: V, onlyIfAbsent: bool) returns (prev: Option<V>)
      requires Valid()
      modifies Repr
      ensures Valid() && fresh(Repr - old(Repr))
      ensures prev == Lookup(old(Contents()), key)
      ensures Contents() == if key in old(Contents()) && onlyIfAbsent then old(Contents())
                            else old(Contents())[key := value]
    {
      var s, j := SegmentForPut(key);
      ghost var sc := segContents;
      UnionLookup(sc, hashOf, segmentShift, segments.Length, key);
      prev := PutInExisting(s, j, key, value, onlyIfAbsent);
      if key in sc[j] && onlyIfAbsent {
        assert sc[j := sc[j]] == sc;
      } else {
        UnionAssign(sc, hashOf, segmentShift, key, value);
      }
    }

    /** Segment.put in segment j, which exists and is the key's: slot j's
        map changes as Segment.put promises, the other slots stay. */
    method PutInExisting(s: Segment<K, V>, j: nat, key: K, value: V, onlyIfAbsent: bool)
      returns (prev: Option<V>)
      requires Valid() && j == SegmentFor(Hash(key)) && segments[j] == s
      modifies Repr
      ensures Valid() && fresh(Repr - old(Repr))
      ensures var m := old(segContents[j]);
              && prev == Lookup(m, key)
              && segContents == old(segContents)[j := if key in m && onlyIfAbsent then m else m[key := value]]
    {
      assert SlotOk(j);
      prev := s.Put(key, Hash(key), value, onlyIfAbsent);
      forall q | 0 <= q < segments.Length && q != j
        ensures SlotOk(q)
      {
        assert old(SlotOk(q));
      }
      Record(j);
    }

    /** remove(key): unlink the key from its segment, if that segment exists,
        and return the value it had. */
    method Remove(key: K) returns (r: Option<V>)
      requires Valid()
      modifies Repr
      ensures Valid() && Repr == old(Repr)
      ensures r == Lookup(old(Contents()), key) && Contents() == old(Contents()) - {key}
    {
      r := RemoveFromSegment(key, None);
    }

    /** remove(key, value): false for a null value; otherwise unlink the key
        only if it maps to value, and say whether it did. */
    method RemoveMapping(key: K, value: Option<V>) returns (r: bool)
      requires Valid()
      modifies Repr
      ensures Valid() && Repr == old(Repr)
      ensures r <==> value.Some? && key in old(Contents()) && old(Contents())[key] == value.value
      ensures Contents() == if r then old(Contents()) - {key} else old(Contents())
    {
      if value.None? {
        return false;
      }
      var prev := RemoveFromSegment(key, value);
      r := prev.Some?;
    }

    /** Segment.remove in the key's segment when the segment exists. */
    method RemoveFromSegment(key: K, value: Option<V>) returns (r: Option<V>)
      requires Valid()
      modifies Repr
      ensures Valid() && Repr == old(Repr)
      ensures var matches := key in old(Contents()) && (value.None? || value.value == old(Contents())[key]);
              && r == (if matches then Some(old(Contents())[key]) else None)
              && Contents() == (if matches then old(Contents()) - {key} else old(Contents()))
    {
      var h := Hash(key);
      var j := SegmentFor(h);
      ghost var sc := segContents;
      UnionLookup(sc, hashOf, segmentShift, segments.Length, key);
      var s := segments[j];
      if s == null {
        assert SlotOk(j);
        assert old(Contents()) - {key} == old(Contents());
        return None;
      }
      r := RemoveInExisting(s, j, key, value);
      if r.Some? {
        UnionDelete(sc, hashOf, segmentShift, key);
      } else {
        assert sc[j := sc[j]] == sc;
        assert key !in old(Contents()) ==> old(Contents()) - {key} == old(Contents());
      }
    }

    /** Segment.remove in segment j, which exists and is the key's. */
    method RemoveInExisting(s: Segment<K, V>, j: nat, key: K, value: Option<V>) returns (r: Option<V>)
      requires Valid() && j == SegmentFor(Hash(key)) && segments[j] == s
      modifies Repr
      ensures Valid() && Repr == old(Repr)
      ensures var m := old(segContents[j]);
              var matches := key in m && (value.None? || value.value == m[key]);
              && r == (if matches then Some(m[key]) else None)
              && segContents == old(segContents)[j := if matches then m - {key} else m]
    {
      assert SlotOk(j);
      r := s.Remove(key, Hash(key), value);
      forall q | 0 <= q < segments.Length && q != j
        ensures SlotOk(q)
      {
        assert old(SlotOk(q));
      }
      Record(j);
    }

    /** replace(key, oldValue, newValue): NullPointerException if either value
        is null; otherwise store newValue only if key maps to oldValue. */
    method Replace(key: K, oldValue: Option<V>, newValue: Option<V>) returns (r: Result<bool>)
      requires Valid()
      modifies Repr
      ensures Valid() && Repr == old(Repr)
      ensures oldValue.None? || newValue.None? ==> r == Err(NullPointer) && Contents() == old(Contents())
      ensures oldValue.Some? && newValue.Some? ==>
                && r.Ok?
                && (r.value <==> key in old(Contents()) && old(Contents())[key] == oldValue.value)
                && Contents() == if r.value then old(Contents())[key := newValue.value] else old(Contents())
    {
      var h := Hash(key);
      if oldValue.None? || newValue.None? {
        return Err(NullPointer);
      }
      var j := SegmentFor(h);
      ghost var sc := segContents;
      UnionLookup(sc, hashOf, segmentShift, segments.Length, key);
      var s := segments[j];
      if s == null {
        assert SlotOk(j);
        return Ok(false);
      }
      var replaced := ReplaceInExisting(s, j, key, oldValue.value, newValue.value);
      if replaced {
        UnionAssign(sc, hashOf, segmentShift, key, newValue.value);
      } else {
        assert sc[j := sc[j]] == sc;
      }
      r := Ok(replaced);
    }

    /** Segment.replace(key, hash, oldValue, newValue) in segment j, which
        exists and is the key's. */
    method ReplaceInExisting(s: Segment<K, V>, j: nat, key: K, oldValue: V, newValue: V)
      returns (replaced: bool)
      requires Valid() && j == SegmentFor(Hash(key)) && segments[j] == s
      modifies Repr
      ensures Valid() && Repr == old(Repr)
      ensures var m := old(segContents[j]);
              && (replaced <==> key in m && m[key] == oldValue)
              && segContents == old(segContents)[j := if replaced then m[key := newValue] else m]
    {
      assert SlotOk(j);
      replaced := s.Replace(key, Hash(key), oldValue, newValue);
      forall q | 0 <= q < segments.Length && q != j
        ensures SlotOk(q)
      {
        assert old(SlotOk(q));
      }
      Record(j);
    }

    /** replace(key, value): NullPointerException for a null value; otherwise
        store value only for a key already present, returning the previous
        value. */
    method ReplaceValue(key: K, value: Option<V>) returns (r: Result<Option<V>>)
      requires Valid()
      modifies Repr
      ensures Valid() && Repr == old(Repr)
      ensures value.None? ==> r == Err(NullPointer) && Contents() == old(Contents())
      ensures value.Some? ==> && r == Ok(Lookup(old(Contents()), key))
                              && Contents() == if key in old(Contents()) then old(Contents())[key := value.value]
                                               else old(Contents())
    {
      var h := Hash(key);
      if value.None? {
        return Err(NullPointer);
      }
      var j := SegmentFor(h);
      ghost var sc := segContents;
      UnionLookup(sc, hashOf, segmentShift, segments.Length, key);
      var s := segments[j];
      if s == null {
        assert SlotOk(j);
        return Ok(None);
      }
      var prev := ReplaceValueInExisting(s, j, key, value.value);
      if prev.Some? {
        UnionAssign(sc, hashOf, segmentShift, key, value.value);
      } else {
        assert sc[j := sc[j]] == sc;
      }
      r := Ok(prev);
    }

    /** Segment.replace(key, hash, value) in segment j, which exists and is
        the key's. */
    method ReplaceValueInExisting(s: Segment<K, V>, j: nat, key: K, value: V) returns (prev: Option<V>)
      requires Valid() && j == SegmentFor(Hash(key)) && segments[j] == s
      modifies Repr
      ensures Valid() && Repr == old(Repr)
      ensures var m := old(segContents[j]);
              && prev == Lookup(m, key)
              && segContents == old(segContents)[j := if key in m then m[key := value] else m]
    {
      assert SlotOk(j);
      prev := s.ReplaceValue(key, Hash(key), value);
      forall q | 0 <= q < segments.Length && q != j
        ensures SlotOk(q)
      {
        assert old(SlotOk(q));
      }
      Record(j);
    }

    /** clear(): clear every existing segment. */
    method Clear()
      requires Valid()
      modifies Repr
      ensures Valid() && Repr == old(Repr)
      ensures Contents() == map[]
    {
      var j := 0;
      while j < segments.Length
        invariant 0 <= j <= segments.Length
        invariant Valid() && Repr == old(Repr)
        invariant forall q :: 0 <= q < j ==> |segContents[q]| == 0
      {
        ClearSlot(j);
        j := j + 1;
      }
      UnionOfEmpty(segContents);
    }

    /** Segment.clear on the segment in slot j, if there is one. */
    method ClearSlot(j: nat)
      requires Valid() && j < segments.Length
      modifies Repr
      ensures Valid() && Repr == old(Repr)
      ensures segContents == old(segContents)[j := map[]]
    {
      var s := segments[j];
      assert SlotOk(j);
      if s == null {
        assert segContents[j := map[]] == segContents;
        return;
      }
      s.Clear();
      forall q | 0 <= q < segments.Length && q != j
        ensures SlotOk(q)
      {
        assert old(SlotOk(q));
      }
      assert Owned(segContents[j := s.contents], hashOf, segmentShift, segments.Length);
      Record(j);
    }

    /** The sum of the modCounts of the segments in slots 0 to j - 1. */
    ghost function ModCountSum(j: int): int
      reads this, segments, Repr
      requires 0 <= j <= segments.Length
    {
      if j == 0 then 0
      else
        var s := segments[j - 1];
        ModCountSum(j - 1) + (if s != null && s in Repr then s.modCount else 0)
    }

    /** One more slot adds the modCount of its segment, if it has one. */
    lemma ModCountStep(j: nat)
      requires Valid() && j < segments.Length
      ensures ModCountSum(j + 1) == ModCountSum(j) + if segments[j] == null then 0 else segments[j].modCount
    {
      assert SlotOk(j);
    }

    /** isEmpty(): false as soon as a segment has a non-zero count; the
        modCounts summed on the first pass are subtracted again on a second
        pass (made only when they are not all zero), and a change between the
        two passes would also report false. */
    method IsEmpty() returns (r: bool)
      requires Valid()
      ensures r <==> Contents() == map[]
    {
      var sum := 0;
      var j := 0;
      while j < segments.Length
        invariant 0 <= j <= segments.Length
        invariant forall q :: 0 <= q < j ==> |segContents[q]| == 0
        invariant sum == ModCountSum(j)
      {
        var seg := segments[j];
        assert SlotOk(j);
        if seg != null {
          if seg.count != 0 {
            UnionNonEmpty(segContents, hashOf, segmentShift, j);
            return false;
          }
          sum := sum + seg.modCount;
        }
        j := j + 1;
      }
      UnionOfEmpty(segContents);
      if sum != 0 {
        var nonEmpty, rest := RecheckPass(sum);
        return !nonEmpty && rest == 0;
      }
      return true;
    }

    /** The second pass of isEmpty(): whether some segment has a non-zero
        count, and otherwise what is left of the first pass's modCount sum
        once every modCount is subtracted from it. */
    method RecheckPass(total: int) returns (nonEmpty: bool, sum: int)
      requires Valid()
      ensures nonEmpty <==> Contents() != map[]
      ensures !nonEmpty ==> sum == total - ModCountSum(segments.Length)
    {
      sum := total;
      var j := 0;
      while j < segments.Length
        invariant 0 <= j <= segments.Length
        invariant forall q :: 0 <= q < j ==> |segContents[q]| == 0
        invariant sum == total - ModCountSum(j)
      {
        var seg := segments[j];
        assert SlotOk(j);
        if seg != null {
          if seg.count != 0 {
            UnionNonEmpty(segContents, hashOf, segmentShift, j);
            return true, sum;
          }
          sum := sum - seg.modCount;
        }
        j := j + 1;
      }
      UnionOfEmpty(segContents);
      nonEmpty := false;
    }

    /** Every segment's count fits in a Java int. */
    ghost predicate CountsFit()
      reads this
    {
      forall j :: 0 <= j < |segContents| ==> |segContents[j]| <= INT_MAX
    }

    /** One pass of size(): the modCount sum, the Java int sum of the counts
        and whether it overflowed. When every count fits in an int, the
        overflow flag says whether the exact total passes Integer.MAX_VALUE
        and otherwise the int sum is that total. */
    method CountPass() returns (size: int, overflow: bool, sum: int)
      requires Valid()
      ensures sum == ModCountSum(segments.Length)
      ensures CountsFit() ==> (overflow <==> SumSizes(segContents) > INT_MAX)
      ensures CountsFit() && !overflow ==> size == SumSizes(segContents)
    {
      sum := 0;
      size := 0;
      overflow := false;
      var j := 0;
      while j < segments.Length
        invariant 0 <= j <= segments.Length
        invariant sum == ModCountSum(j)
        invariant CountsFit() ==> (overflow <==> SumSizes(segContents[..j]) > INT_MAX)
        invariant CountsFit() && !overflow ==> size == SumSizes(segContents[..j])
      {
        SumSizesGrow(segContents, j + 1);
        ModCountStep(j);
        var seg := segments[j];
        assert SlotOk(j);
        if seg != null {
          sum := sum + seg.modCount;
          if CountsFit() {
            CountStepAdds(size, overflow, seg.count, SumSizes(segContents[..j]));
          }
          var step := CountStep(size, overflow, seg.count);
          size, overflow := step.0, step.1;
        }
        j := j + 1;
      }
      assert segContents[..segments.Length] == segContents;
    }

    /** size(): the number of mappings, or Integer.MAX_VALUE when the sum of
        the counts overflows an int. A second pass is made when the
        modCounts are not all zero, to check that nothing changed. */
    method Size() returns (r: int)
      requires Valid()
      ensures |Contents()| <= INT_MAX ==> r == |Contents()|
      ensures CountsFit() && |Contents()| > INT_MAX ==> r == INT_MAX
    {
      UnionSize(segContents, hashOf, segmentShift, segments.Length);
      if |Contents()| <= INT_MAX {
        SmallCountsFit(segContents);
      }
      var size, overflow, sum := CountPass();
      if sum != 0 {
        var last := sum;
        size, overflow, sum := CountPass();
        assert sum == last;
      }
      r := if overflow then INT_MAX else size;
    }

    /** The entries a traversal of segments k, k - 1, ..., 0 meets: each
        segment's buckets from last to first, each bucket's chain in order. */
    ghost function TraversalFrom(k: int): seq<HashEntry<K, V>>
      reads this, segments, Repr
      requires k < segments.Length
      decreases k + 1
    {
      if k < 0 then []
      else
        var s := segments[k];
        (if s != null && s in Repr && s.table in Repr then BucketsDown(s.table[..], s.table.Length - 1) else [])
        + TraversalFrom(k - 1)
    }

    /** Every entry the traversal from segment k meets is a mapping of the map. */
    lemma {:induction false} TraversalSound(k: int)
      requires Valid() && k < segments.Length
      ensures forall x :: x in TraversalFrom(k) ==> x.key in Contents() && Contents()[x.key] == x.value
      decreases k + 1
    {
      if k >= 0 {
        TraversalSound(k - 1);
        var s := segments[k];
        assert SlotOk(k);
        if s != null {
          var t := s.table[..];
          forall x | x in BucketsDown(t, |t| - 1)
            ensures x.key in Contents() && Contents()[x.key] == x.value
          {
            BucketsDownMember(t, |t| - 1, x);
            var b :| 0 <= b <= |t| - 1 && x in t[b];
            var q :| 0 <= q < |t[b]| && t[b][q] == x;
            assert EntryAt(NodeAt(t, b, q), b, |t|, s.contents, hashOf);
            UnionLookup(segContents, hashOf, segmentShift, segments.Length, x.key);
          }
        }
      }
    }

    /** The traversal from a later segment takes in the one from an earlier. */
    lemma {:induction false} TraversalGrows(j: int, k: int, x: HashEntry<K, V>)
      requires j <= k < segments.Length && x in TraversalFrom(j)
      ensures x in TraversalFrom(k)
      decreases k - j
    {
      if j < k {
        TraversalGrows(j, k - 1, x);
      }
    }

    /** A segment of a valid map, when present, is owned with its table. */
    lemma SegmentOwned(j: int)
      requires Valid() && 0 <= j < segments.Length
      ensures segments[j] != null ==> segments[j] in Repr && segments[j].table in Repr
    {
      assert SlotOk(j);
    }

    /** An entry of segment j's buckets is met by the traversal from j. */
    lemma TraversalMeets(j: int, x: HashEntry<K, V>)
      requires 0 <= j < segments.Length
      requires segments[j] != null && segments[j] in Repr && segments[j].table in Repr
      requires x in BucketsDown(segments[j].table[..], segments[j].table.Length - 1)
      ensures x in TraversalFrom(j)
    {
    }

    /** A mapping of the map sits in the buckets of the segment its hash
        selects. */
    lemma EntryInSegment(k: K) returns (j: int)
      requires Valid() && k in Contents()
      ensures 0 <= j < segments.Length && segments[j] != null
      ensures segments[j] in Repr && segments[j].table in Repr
      ensures HashEntry(hashOf(k), k, Contents()[k]) in BucketsDown(segments[j].table[..], segments[j].table.Length - 1)
    {
      j := SegmentFor(hashOf(k));
      UnionLookup(segContents, hashOf, segmentShift, segments.Length, k);
      assert k in segContents[j] && segContents[j][k] == Contents()[k];
      assert SlotOk(j);
      var s := segments[j];
      assert s != null && s.Valid() && s.contents == segContents[j];
      var t := s.table[..];
      assert MappingsPresent(t, s.contents, s.hashOf);
      var x := NodeFor(s.contents, s.hashOf, k);
      assert x in t[BucketIndex(hashOf(k), |t|)];
      BucketsDownMember(t, |t| - 1, x);
    }

    /** Every mapping of the map is met by the traversal of all segments, as
        the node its segment's table holds for it. */
    lemma TraversalComplete(k: K)
      requires Valid() && k in Contents()
      ensures HashEntry(hashOf(k), k, Contents()[k]) in TraversalFrom(segments.Length - 1)
    {
      var j := EntryInSegment(k);
      var x := HashEntry(hashOf(k), k, Contents()[k]);
      TraversalMeets(j, x);
      TraversalGrows(j, segments.Length - 1, x);
    }

    /** One pass of containsValue(): look for a node holding value, segment by
        segment and bucket by bucket, summing the modCounts of the segments
        scanned. */
    method ValuePass(value: V) returns (found: bool, sum: int)
      requires Valid()
      ensures found <==> HasValue(Contents(), value)
      ensures !found ==> sum == ModCountSum(segments.Length)
    {
      sum := 0;
      var j := 0;
      while j < segments.Length
        invariant 0 <= j <= segments.Length
        invariant forall q :: 0 <= q < j ==> !HasValue(segContents[q], value)
        invariant sum == ModCountSum(j)
      {
        var seg := segments[j];
        assert SlotOk(j);
        if seg != null {
          var found := SegmentHasValue(seg, value);
          if found {
            UnionHasValue(segContents, hashOf, segmentShift, value);
            return true, sum;
          }
          sum := sum + seg.modCount;
        }
        j := j + 1;
      }
      UnionHasValue(segContents, hashOf, segmentShift, value);
      found := false;
    }

    /** containsValue(value): NullPointerException for a null value; otherwise
        whether some key maps to it. Without a hit a second pass is made,
        which a sequential run always ends with. */
    method ContainsValue(value: Option<V>) returns (r: Result<bool>)
      requires Valid()
      ensures value.None? ==> r == Err(NullPointer)
      ensures value.Some? ==> r == Ok(HasValue(Contents(), value.value))
    {
      if value.None? {
        return Err(NullPointer);
      }
      var found, last := ValuePass(value.value);
      if !found {
        var sum;
        found, sum := ValuePass(value.value);
        assert !found ==> sum == last;
      }
      r := Ok(found);
    }
  }

  /** The scan of one segment's table for a node holding value. */
  method SegmentHasValue<K, V(==)>(seg: Segment<K, V>, value: V) returns (found: bool)
    requires seg.Valid()
    ensures found <==> HasValue(seg.contents, value)
  {
    var tab := seg.table;
    var i := 0;
    while i < tab.Length
      invariant 0 <= i <= tab.Length
      invariant forall b, x :: 0 <= b < i && x in tab[b] ==> x.value != value
    {
      var e := tab[i];
      var q := FindValue(e, value);
      if q < |e| {
        NodeHasValue(tab[..], seg.contents, seg.hashOf, i, q, value);
        return true;
      }
      assert e[..q] == e;
      i := i + 1;
    }
    NoNodeHasValue(tab[..], seg.contents, seg.hashOf, value);
    found := false;
  }

  /** With at most Integer.MAX_VALUE mappings in all, every segment's
      count fits. */
  lemma SmallCountsFit<K, V>(s: seq<map<K, V>>)
    requires SumSizes(s) <= INT_MAX
    ensures forall j :: 0 <= j < |s| ==> |s[j]| <= INT_MAX
  {
    forall j | 0 <= j < |s|
      ensures |s[j]| <= INT_MAX
    {
      SumSizesMember(s, j);
    }
  }

  /** One segment's size is at most the sum of all. */
  lemma {:induction false} SumSizesMember<K, V>(s: seq<map<K, V>>, j: nat)
    requires j < |s|
    ensures |s[j]| <= SumSizes(s)
    decreases |s|
  {
    if j < |s| - 1 {
      SumSizesMember(s[..|s| - 1], j);
    }
  }

  /** The size sum over a prefix one longer adds that segment's size. */
  lemma SumSizesGrow<K, V>(s: seq<map<K, V>>, j: nat)
    requires 0 < j <= |s|
    ensures SumSizes(s[..j]) == SumSizes(s[..j - 1]) + |s[j - 1]|
  {
    assert s[..j][..j - 1] == s[..j - 1];
  }
}
