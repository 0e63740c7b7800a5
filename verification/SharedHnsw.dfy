/** The shared index object: fields updated in place, each method proved against a step of `TwoTier`. */
module SharedIndex {
  import opened Ranking
  import opened TwoTier
  import opened TwoTierSearch
  import opened Escalation
  import opened MemoryHnsw

  const EPOCHS: nat := 0x1_0000_0000_0000_0000

  datatype FlushReport = FlushReport(entriesFlushed: nat, newEpoch: nat, mainLenAfter: nat)

  /** `merge_dedupe_descending`: two insert loops into one map, then sort and truncate. */
  method MergeDedupeDescending(main: seq<Hit<MemoryId>>, pending: seq<Hit<MemoryId>>, k: nat)
    returns (r: seq<Hit<MemoryId>>)
    ensures IsTopK(r, Merged(main, pending), k)
  {
    var byId := InsertAll(map[], main);
    assert byId == ToMap(main);
    byId := InsertAll(byId, pending);
    assert byId == Merged(main, pending);
    r := SortedItems(byId, k);
  }

  method InsertAll(scores: map<MemoryId, real>, hits: seq<Hit<MemoryId>>) returns (r: map<MemoryId, real>)
    ensures r == scores + ToMap(hits)
  {
    r := scores;
    for i := 0 to |hits|
      invariant r == scores + ToMap(hits[..i])
    {
      OneMore(scores, hits, i);
      r := r[hits[i].id := hits[i].score];
    }
    assert hits[..|hits|] == hits;
  }

  lemma OneMore(scores: map<MemoryId, real>, hits: seq<Hit<MemoryId>>, i: nat)
    requires i < |hits|
    ensures scores + ToMap(hits[..i + 1]) == (scores + ToMap(hits[..i]))[hits[i].id := hits[i].score]
  {
    assert hits[..i + 1][..i] == hits[..i];
    UpdateLast(scores, ToMap(hits[..i]), hits[i].id, hits[i].score);
  }

  lemma UpdateLast(a: map<MemoryId, real>, b: map<MemoryId, real>, id: MemoryId, score: real)
    ensures a + b[id := score] == (a + b)[id := score]
  {
  }

  function LiveIds(entries: seq<PendingEntry>, filter: Filter): set<MemoryId>
  {
    set e | e in entries && !e.tombstoned && filter(e.id) :: e.id
  }

  lemma LiveIdsAreScored(entries: seq<PendingEntry>, score: Score, filter: Filter)
    requires DistinctEntries(entries)
    ensures PendingScores(entries, score, filter).Keys == LiveIds(entries, filter)
    ensures forall e | e in entries && !e.tombstoned && filter(e.id) ::
              PendingScores(entries, score, filter)[e.id] == score(e.vector)
  {
    forall e | e in entries
      ensures Find(entries, e.id) == Some(e)
    {
      FindIsUnique(entries, e);
    }
  }

  lemma LiveIdsGrow(entries: seq<PendingEntry>, filter: Filter, i: nat)
    requires i < |entries| && DistinctEntries(entries)
    ensures LiveIds(entries[..i + 1], filter) == LiveIds(entries[..i], filter)
              + if !entries[i].tombstoned && filter(entries[i].id) then {entries[i].id} else {}
    ensures entries[i].id !in LiveIds(entries[..i], filter)
  {
    assert entries[..i + 1] == entries[..i] + [entries[i]];
  }

  /** The main filter `search` builds from its copy of the overlay. */
  function Overlaid(overlay: set<MemoryId>, filter: Filter): Filter
  {
    (id: MemoryId) => id !in overlay && filter(id)
  }

  class SharedHnsw {
    var main: MainIndex
    var epoch: nat
    var entries: seq<PendingEntry>
    var tombstoned: set<MemoryId>

    function State(): Tiers
      reads this
    {
      Tiers(main, entries, tombstoned)
    }

    ghost predicate Ready()
      reads this
    {
      Valid(State()) && epoch < EPOCHS
    }

    /** `from_index`. */
    constructor (index: MainIndex)
      ensures Ready() && epoch == 0
      ensures forall id :: Lookup(State(), id) == if index.Holds(id) then Some(index.nodes[id]) else None
    {
      main, epoch, entries, tombstoned := index, 0, [], {};
    }

    method FindSlot(id: MemoryId) returns (slot: nat)
      ensures slot == SlotOf(entries, id)
    {
      slot := 0;
      while slot < |entries| && entries[slot].id != id
        invariant slot <= |entries|
        invariant forall i | 0 <= i < slot :: entries[i].id != id
      {
        slot := slot + 1;
      }
      var expected := SlotOf(entries, id);
      assert slot == expected;
    }

    /** `Writer::insert`: afterwards a reader sees exactly one map update. */
    method InsertVector(id: MemoryId, vector: Vector)
      requires Ready()
      modifies this`entries, this`tombstoned
      ensures Ready() && State() == Insert(old(State()), id, vector)
      ensures forall x :: Lookup(State(), x) == if x == id then Some(vector) else Lookup(old(State()), x)
    {
      InsertIsUpdate(State(), id, vector);
      var slot := FindSlot(id);
      tombstoned := tombstoned - {id};
      if slot < |entries| {
        entries := entries[slot := PendingEntry(id, vector, false)];
      } else {
        entries := entries + [PendingEntry(id, vector, false)];
      }
    }

    /** `Writer::mark_tombstoned`: afterwards a reader sees exactly one removal. */
    method MarkTombstoned(id: MemoryId)
      requires Ready()
      modifies this`entries, this`tombstoned
      ensures Ready() && State() == Tombstone(old(State()), id)
      ensures forall x :: Lookup(State(), x) == if x == id then None else Lookup(old(State()), x)
    {
      TombstoneIsRemoval(State(), id);
      var slot := FindSlot(id);
      tombstoned := tombstoned + {id};
      if slot < |entries| {
        entries := entries[slot := entries[slot].(tombstoned := true)];
      }
    }

    /** `contains`, with no writer in between. */
    method Contains(id: MemoryId) returns (found: bool)
      requires Ready()
      ensures found == Lookup(State(), id).Some?
    {
      if id in tombstoned {
        return false;
      }
      for i := 0 to |entries|
        invariant forall j | 0 <= j < i :: entries[j].id != id || entries[j].tombstoned
      {
        if entries[i].id == id && !entries[i].tombstoned {
          FindIsUnique(entries, entries[i]);
          return true;
        }
      }
      return main.Holds(id);
    }

    /** The first half of `swap`: the new main is stored, pending stands. */
    method StoreMain(index: MainIndex)
      modifies this
      ensures State() == HalfSwapped(old(State()), index) && epoch == (old(epoch) + 1) % EPOCHS
    {
      main, epoch := index, (epoch + 1) % EPOCHS;
    }

    /** The second half, under the pending lock. */
    method ClearPending()
      modifies this
      ensures State() == Cleared(old(State())) && epoch == old(epoch)
    {
      entries, tombstoned := [], {};
    }

    /** `swap` with no writer between its halves: a new main, nothing pending. */
    method Swap(index: MainIndex)
      requires Ready()
      modifies this
      ensures Ready() && State() == Swapped(index) && epoch == (old(epoch) + 1) % EPOCHS
      ensures forall id :: Lookup(State(), id) == if index.Holds(id) then Some(index.nodes[id]) else None
    {
      StoreMain(index);
      ClearPending();
    }

    /** The locked half of `flush_with_rebuild`. */
    method PublishBuilt(snapshot: seq<PendingEntry>, built: MainIndex) returns (report: FlushReport)
      requires Ready() && WindowHolds(State(), Window(snapshot, built))
      modifies this
      ensures Ready() && State() == Publish(old(State()), snapshot, built)
      ensures forall id :: Lookup(State(), id) == Lookup(old(State()), id)
      ensures forall id :: id in tombstoned <==>
                id in old(tombstoned) && forall e | e in snapshot && e.id == id :: !e.tombstoned
      ensures epoch == (old(epoch) + 1) % EPOCHS
      ensures report == FlushReport(|snapshot|, epoch, |built.nodes|)
    {
      PublishKeepsView(State(), Window(snapshot, built));
      main, epoch := built, (epoch + 1) % EPOCHS;
      entries := Unfolded(entries, snapshot);
      tombstoned := tombstoned - FoldedTombstones(snapshot);
      report := FlushReport(|snapshot|, epoch, |built.nodes|);
    }

    /** `flush_with_rebuild` with nothing interleaved; a failed build leaves the index as it was. */
    method FlushWithRebuild(build: seq<PendingEntry> -> Option<MainIndex>) returns (report: Option<FlushReport>)
      requires Ready()
      requires build(entries).Some? ==> IsBuild(build(entries).value, main, entries, tombstoned)
      modifies this
      ensures Ready() && report.Some? == build(old(entries)).Some?
      ensures forall id :: Lookup(State(), id) == Lookup(old(State()), id)
      ensures report.None? ==> State() == old(State()) && epoch == old(epoch)
      ensures report.Some? ==> main == build(old(entries)).value && entries == []
      ensures report.Some? ==> forall id :: id in tombstoned <==>
                id in old(tombstoned) && forall e | e in old(entries) && e.id == id :: !e.tombstoned
    {
      var snapshot := entries;
      var built := build(snapshot);
      if built.None? {
        return None;
      }
      SnapshotOpensWindow(State(), built.value);
      var done := PublishBuilt(snapshot, built.value);
      QuietFlushDrains(snapshot);
      report := Some(done);
    }

    /** `pending_search`: brute force over the buffer. */
    method PendingSearch(score: Score, filter: Filter, k: nat) returns (hits: seq<Hit<MemoryId>>)
      requires Ready()
      ensures IsTopK(hits, PendingScores(entries, score, filter), k)
    {
      var scored: seq<Hit<MemoryId>> := [];
      ghost var scores := PendingScores(entries, score, filter);
      LiveIdsAreScored(entries, score, filter);
      for i := 0 to |entries|
        invariant DistinctIds(scored) && Scored(scored, scores)
        invariant Ids(scored) == LiveIds(entries[..i], filter)
      {
        var e := entries[i];
        LiveIdsGrow(entries, filter, i);
        if !e.tombstoned && filter(e.id) {
          assert e in entries;
          scored := Append(scored, Hit(e.id, score(e.vector)), scores);
        }
      }
      assert entries[..|entries|] == entries;
      SortTruncateIsTopK(scored, scores, k);
      hits := SortTruncate(scored, k);
    }

    /**
     * The merge of `search`, with no writer in between: never more than `k`
     * hits, no id twice, scores descending, whatever main answered; exact when
     * main was and no override has a rival.
     */
    method MergeAnswer(mainHits: seq<Hit<MemoryId>>, score: Score, filter: Filter, k: nat)
      returns (r: seq<Hit<MemoryId>>)
      requires Ready()
      ensures |r| <= k && DistinctIds(r) && Descending(r)
      ensures exists pendingHits :: IsAnswer(r, entries, score, filter, k, mainHits, pendingHits)
      ensures Harmless(State()) && IsTopK(mainHits, MainScores(main, tombstoned, score, filter), k)
              ==> IsTopK(r, ViewScores(State(), score, filter), k)
    {
      var pendingHits := PendingSearch(score, filter, k);
      r := MergeDedupeDescending(mainHits, pendingHits, k);
      assert IsAnswer(r, entries, score, filter, k, mainHits, pendingHits);
      if Harmless(State()) && IsTopK(mainHits, MainScores(main, tombstoned, score, filter), k) {
        HarmlessIsExact(State(), score, filter, k, mainHits, pendingHits, r);
      }
    }

    /**
     * `search` over the published graph index: with an exact graph and no
     * override with a rival, a best `k` of the logical view.
     */
    method Search(index: HnswIndex, graph: (nat, nat) -> seq<Neighbour>, score: Score, filter: Filter, k: nat,
                  ef: Option<nat>, ghost order: seq<Neighbour>) returns (r: seq<Hit<MemoryId>>)
      requires Ready() && index.Valid() && index.Main() == main
      requires k <= USIZE_MAX && |index.idMap.forward| <= USIZE_MAX
      ensures |r| <= k && DistinctIds(r) && Descending(r)
      ensures exists mainHits, pendingHits ::
                && IsAnswer(r, entries, score, filter, k, mainHits, pendingHits)
                && Ids(mainHits) <= MainScores(main, tombstoned, score, filter).Keys
      ensures Harmless(State()) && Exact(graph, order) && IsOrder(order, index.vectors, score)
              ==> IsTopK(r, ViewScores(State(), score, filter), k)
    {
      if k == 0 {
        assert IsAnswer([], entries, score, filter, k, [], []);
        return [];
      }
      var mainHits, _ := index.Search(graph, score, k, ef, Overlaid(tombstoned, filter), order);
      OverlayIsFilter(main, tombstoned, score, filter);
      r := MergeAnswer(mainHits, score, filter, k);
    }
  }

  /** Filtering by the overlay copy is what leaves its ids out of main's candidates. */
  lemma OverlayIsFilter(main: MainIndex, overlay: set<MemoryId>, score: Score, filter: Filter)
    ensures MainScores(main, {}, score, Overlaid(overlay, filter)) == MainScores(main, overlay, score, filter)
  {
  }
}
