/** The `MemoryId <-> u32` map with its sequential allocator. */
module IdMaps {
  import opened Ranking
  import opened TwoTier

  const U32_MAX: nat := 0xFFFF_FFFF

  datatype InsertResult = Assigned(internalId: nat) | AlreadyInserted | Exhausted

  /** The two directions are inverse bijections, and every id was handed out by the counter. */
  predicate Inverse(forward: map<MemoryId, nat>, reverse: map<nat, MemoryId>, nextId: nat)
  {
    && nextId <= U32_MAX
    && (forall id | id in forward :: forward[id] < nextId && forward[id] in reverse && reverse[forward[id]] == id)
    && (forall n | n in reverse :: reverse[n] in forward && forward[reverse[n]] == n)
  }

  function ForwardOf(entries: seq<(MemoryId, nat)>): map<MemoryId, nat>
  {
    if entries == [] then map[]
    else ForwardOf(entries[..|entries| - 1])[entries[|entries| - 1].0 := entries[|entries| - 1].1]
  }

  function ReverseOf(entries: seq<(MemoryId, nat)>): map<nat, MemoryId>
  {
    if entries == [] then map[]
    else ReverseOf(entries[..|entries| - 1])[entries[|entries| - 1].1 := entries[|entries| - 1].0]
  }

  /** `entries` lists the items of `forward`, in some order and possibly more than once. */
  predicate Lists(entries: seq<(MemoryId, nat)>, forward: map<MemoryId, nat>)
  {
    && (forall e | e in entries :: e.0 in forward && forward[e.0] == e.1)
    && (forall id | id in forward :: (id, forward[id]) in entries)
  }

  lemma {:induction false} ListedItems(entries: seq<(MemoryId, nat)>, forward: map<MemoryId, nat>,
                                       reverse: map<nat, MemoryId>)
    requires forall e | e in entries :: e.0 in forward && forward[e.0] == e.1 && e.1 in reverse && reverse[e.1] == e.0
    ensures ForwardOf(entries).Keys == set e | e in entries :: e.0
    ensures ReverseOf(entries).Keys == set e | e in entries :: e.1
    ensures forall id | id in ForwardOf(entries) :: id in forward && ForwardOf(entries)[id] == forward[id]
    ensures forall n | n in ReverseOf(entries) :: n in reverse && ReverseOf(entries)[n] == reverse[n]
  {
    if entries == [] {
    } else {
      var init, last := entries[..|entries| - 1], entries[|entries| - 1];
      ListedItems(init, forward, reverse);
      assert entries == init + [last];
    }
  }

  /** Rebuilding from the listed items, in any order, gives back both directions. */
  lemma SnapshotRestoresMaps(entries: seq<(MemoryId, nat)>, forward: map<MemoryId, nat>, reverse: map<nat, MemoryId>,
                             nextId: nat)
    requires Inverse(forward, reverse, nextId) && Lists(entries, forward)
    ensures ForwardOf(entries) == forward && ReverseOf(entries) == reverse
  {
    ListedItems(entries, forward, reverse);
    forall id | id in forward
      ensures id in ForwardOf(entries)
    {
      assert (id, forward[id]) in entries;
    }
    forall n | n in reverse
      ensures n in ReverseOf(entries)
    {
      assert (reverse[n], n) in entries;
    }
  }

  class IdMap {
    var forward: map<MemoryId, nat>
    var reverse: map<nat, MemoryId>
    var nextId: nat

    predicate Valid()
      reads this
    {
      Inverse(forward, reverse, nextId)
    }

    constructor ()
      ensures Valid() && forward == map[] && nextId == 0
    {
      forward, reverse, nextId := map[], map[], 0;
    }

    /** `from_snapshot`: the reverse direction is rebuilt, not stored. */
    constructor FromSnapshot(entries: seq<(MemoryId, nat)>, next: nat)
      ensures forward == ForwardOf(entries) && reverse == ReverseOf(entries) && nextId == next
    {
      var f: map<MemoryId, nat>, r: map<nat, MemoryId> := map[], map[];
      for i := 0 to |entries|
        invariant f == ForwardOf(entries[..i]) && r == ReverseOf(entries[..i])
      {
        assert entries[..i + 1][..i] == entries[..i];
        f, r := f[entries[i].0 := entries[i].1], r[entries[i].1 := entries[i].0];
      }
      assert entries[..|entries|] == entries;
      forward, reverse, nextId := f, r, next;
    }

    /** A rejected id burns nothing; an accepted one takes the next number. */
    method Insert(id: MemoryId) returns (r: InsertResult)
      requires Valid()
      modifies this
      ensures Valid()
      ensures r.AlreadyInserted? <==> id in old(forward)
      ensures r.Exhausted? <==> id !in old(forward) && old(nextId) == U32_MAX
      ensures !r.Assigned? ==> forward == old(forward) && reverse == old(reverse) && nextId == old(nextId)
      ensures r.Assigned? ==>
                && r.internalId == old(nextId) && r.internalId !in old(reverse) && nextId == old(nextId) + 1
                && forward == old(forward)[id := r.internalId] && reverse == old(reverse)[r.internalId := id]
    {
      if id in forward {
        return AlreadyInserted;
      }
      if nextId == U32_MAX {
        return Exhausted;
      }
      var n := nextId;
      assert n !in reverse;
      nextId := nextId + 1;
      forward, reverse := forward[id := n], reverse[n := id];
      return Assigned(n);
    }

    method LookupForward(id: MemoryId) returns (r: Option<nat>)
      requires Valid()
      ensures r.Some? ==> r.value in reverse && reverse[r.value] == id
      ensures r.None? ==> forall n | n in reverse :: reverse[n] != id
    {
      return if id in forward then Some(forward[id]) else None;
    }

    method LookupReverse(n: nat) returns (r: Option<MemoryId>)
      requires Valid()
      ensures r.Some? ==> r.value in forward && forward[r.value] == n
      ensures r.None? ==> forall id | id in forward :: forward[id] != n
    {
      return if n in reverse then Some(reverse[n]) else None;
    }
  }
}
