/** The map's weakly consistent iterator (ConcurrentHashMap.HashIterator): it
    walks the segments from the last to the first, each segment's table from
    its last bucket to its first, and each bucket's chain from its head. */
module MapIterators {
  import opened Common
  import opened Segments
  import opened ConcurrentHashMaps

  class HashIterator<K(==,!new), V(==)> {
    const source: ConcurrentHashMap<K, V>
    var nextSegmentIndex: int
    var nextTableIndex: int
    var currentTable: array?<Chain<K, V>>
    /** The chain from the next entry to return on; empty when that entry is null. */
    var nextEntry: Chain<K, V>
    var lastReturned: Option<HashEntry<K, V>>

    /** The cursors lie within the directory and the current table. */
    ghost predicate Cursors()
      reads this, source, source.segments, source.Repr
    {
      && this !in source.Repr
      && -1 <= nextSegmentIndex < source.segments.Length
      && -1 <= nextTableIndex
      && (currentTable == null ==> nextTableIndex == -1)
      && (currentTable != null ==> nextTableIndex < currentTable.Length)
    }

    /** Between calls the next entry is null only once the walk is over. */
    ghost predicate Settled()
      reads this
    {
      nextEntry != [] || (nextTableIndex == -1 && nextSegmentIndex == -1)
    }

    ghost predicate Valid()
      reads this, source, source.segments, source.Repr
    {
      source.Valid() && Cursors() && Settled()
    }

    /** The entries the iterator has still to return, in order: the rest of
        the current chain, the buckets below the table cursor, and the
        segments below the segment cursor. */
    ghost function Pending(): seq<HashEntry<K, V>>
      reads this, source, source.segments, source.Repr, currentTable
      requires Cursors()
    {
      PendingAt(nextEntry, currentTable, nextTableIndex, nextSegmentIndex)
    }

    /** The entries pending for the cursor values e, ct, ti and si. */
    ghost function PendingAt(e: Chain<K, V>, ct: array?<Chain<K, V>>, ti: int, si: int): seq<HashEntry<K, V>>
      reads source, source.segments, source.Repr, ct
      requires si < source.segments.Length && (ct != null ==> ti < ct.Length)
    {
      e
      + (if ct == null then [] else BucketsDown(ct[..], ti))
      + source.TraversalFrom(si)
    }

    /** Taking bucket ti of the current table as the next chain keeps the
        entries pending. */
    lemma BucketStep(ct: array<Chain<K, V>>, ti: int, si: int)
      requires si < source.segments.Length && 0 <= ti < ct.Length
      ensures PendingAt([], ct, ti, si) == PendingAt(ct[ti], ct, ti - 1, si)
    {
      var rest := BucketsDown(ct[..], ti - 1) + source.TraversalFrom(si);
      assert BucketsDown(ct[..], ti) == ct[ti] + BucketsDown(ct[..], ti - 1);
      assert PendingAt([], ct, ti, si) == ct[ti] + rest;
    }

    /** Returning the head of the current chain leaves the rest pending. */
    lemma DropHead(e: Chain<K, V>, ct: array?<Chain<K, V>>, ti: int, si: int)
      requires e != [] && si < source.segments.Length && (ct != null ==> ti < ct.Length)
      ensures PendingAt(e, ct, ti, si)[0] == e[0]
      ensures PendingAt(e, ct, ti, si)[1..] == PendingAt(e[1..], ct, ti, si)
    {
      var rest := (if ct == null then [] else BucketsDown(ct[..], ti)) + source.TraversalFrom(si);
      assert PendingAt(e, ct, ti, si) == e + rest;
      assert (e + rest)[1..] == e[1..] + rest;
    }

    /** Leaving segment si, with the table cursor spent, for the next segment
        down keeps the entries pending: segment si's buckets come next. */
    lemma SegmentStep(ct: array?<Chain<K, V>>, si: int)
      requires 0 <= si < source.segments.Length
      requires source.segments[si] != null ==>
                 source.segments[si] in source.Repr && source.segments[si].table in source.Repr
      ensures var seg := source.segments[si];
              && (seg == null ==> PendingAt([], ct, -1, si) == PendingAt([], ct, -1, si - 1))
              && (seg != null ==> PendingAt([], ct, -1, si) == PendingAt([], seg.table, seg.table.Length - 1, si - 1))
    {
    }

    /** A new iterator starts at the last segment and settles on the first
        entry; it has the whole traversal ahead of it. */
    constructor (m: ConcurrentHashMap<K, V>)
      requires m.Valid()
      ensures this.source == m && Valid()
      ensures Pending() == m.TraversalFrom(m.segments.Length - 1)
      ensures lastReturned == None
    {
      source := m;
      nextSegmentIndex := m.segments.Length - 1;
      nextTableIndex := -1;
      currentTable := null;
      nextEntry := [];
      lastReturned := None;
      new;
      assert Pending() == PendingAt([], null, -1, m.segments.Length - 1);
      Advance();
    }

    /** Moves the cursors to the next non-null entry, or to the end of the
        walk; the entries pending are the same. */
    method Advance()
      requires source.Valid() && Cursors() && nextEntry == []
      modifies this`nextSegmentIndex, this`nextTableIndex, this`currentTable, this`nextEntry
      ensures Valid() && Pending() == old(Pending())
    {
      while true
        invariant source.Valid() && Cursors() && nextEntry == []
        invariant Pending() == old(Pending())
        decreases nextSegmentIndex + 1, nextTableIndex + 1
      {
        if nextTableIndex >= 0 {
          TakeBucket();
          if nextEntry != [] {
            break;
          }
        } else if nextSegmentIndex >= 0 {
          TakeSegment();
        } else {
          break;
        }
      }
    }

    /** The step `nextEntry = entryAt(currentTable, nextTableIndex--)`. */
    method TakeBucket()
      requires Cursors() && nextEntry == [] && nextTableIndex >= 0
      modifies this`nextTableIndex, this`nextEntry
      ensures Cursors() && Pending() == old(Pending())
      ensures nextTableIndex == old(nextTableIndex) - 1
    {
      BucketStep(currentTable, nextTableIndex, nextSegmentIndex);
      nextEntry := currentTable[nextTableIndex];
      nextTableIndex := nextTableIndex - 1;
    }

    /** The step that moves to the next segment down, and to its table when
        the segment exists. */
    method TakeSegment()
      requires source.Valid() && Cursors() && nextEntry == [] && nextTableIndex < 0 && nextSegmentIndex >= 0
      modifies this`nextSegmentIndex, this`nextTableIndex, this`currentTable
      ensures Cursors() && nextEntry == [] && Pending() == old(Pending())
      ensures nextSegmentIndex == old(nextSegmentIndex) - 1
    {
      var seg := source.segments[nextSegmentIndex];
      source.SegmentOwned(nextSegmentIndex);
      SegmentStep(currentTable, nextSegmentIndex);
      if seg != null {
        nextSegmentIndex, currentTable, nextTableIndex := nextSegmentIndex - 1, seg.table, seg.table.Length - 1;
      } else {
        nextSegmentIndex := nextSegmentIndex - 1;
      }
    }

    /** Returns the next entry of the walk, or NoSuchElement once it is over. */
    method NextEntry() returns (r: Result<HashEntry<K, V>>)
      requires Valid()
      modifies this`nextSegmentIndex, this`nextTableIndex, this`currentTable, this`nextEntry, this`lastReturned
      ensures Valid()
      ensures r.Err? <==> old(Pending()) == []
      ensures r.Err? ==> r.error == NoSuchElement && Pending() == old(Pending()) && lastReturned == old(lastReturned)
      ensures r.Ok? ==> r.value == old(Pending())[0] && Pending() == old(Pending())[1..] && lastReturned == Some(r.value)
    {
      var e := nextEntry;
      if e == [] {
        return Err(NoSuchElement);
      }
      DropHead(e, currentTable, nextTableIndex, nextSegmentIndex);
      lastReturned := Some(e[0]);
      nextEntry := e[1..];
      if nextEntry == [] {
        Advance();
      }
      r := Ok(e[0]);
    }

    /** Whether an entry is still to come. */
    method HasNext() returns (b: bool)
      requires Valid()
      ensures b <==> Pending() != []
    {
      b := nextEntry != [];
    }

    /** Removes the key of the entry returned last from the map; IllegalState
        when no entry has been returned since the last removal. */
    method Remove() returns (r: Outcome)
      requires Valid()
      modifies this`lastReturned, source.Repr
      ensures Valid() && lastReturned == None
      ensures old(lastReturned).None? ==> r == Fail(IllegalState) && source.Contents() == old(source.Contents())
      ensures old(lastReturned).Some? ==>
                r == Pass && source.Contents() == old(source.Contents()) - {old(lastReturned).value.key}
    {
      if lastReturned.None? {
        return Fail(IllegalState);
      }
      var _ := source.Remove(lastReturned.value.key);
      lastReturned := None;
      r := Pass;
    }
  }

  /** Every entry a new iterator will return is a mapping of the map, and every
      mapping of the map is among them. */
  lemma IteratorCovers<K(!new), V>(it: HashIterator<K, V>, k: K, x: HashEntry<K, V>)
    requires it.Valid() && it.Pending() == it.source.TraversalFrom(it.source.segments.Length - 1)
    ensures x in it.Pending() ==> x.key in it.source.Contents() && it.source.Contents()[x.key] == x.value
    ensures k in it.source.Contents() ==> HashEntry(it.source.hashOf(k), k, it.source.Contents()[k]) in it.Pending()
  {
    it.source.TraversalSound(it.source.segments.Length - 1);
    if k in it.source.Contents() {
      it.source.TraversalComplete(k);
    }
  }
}
