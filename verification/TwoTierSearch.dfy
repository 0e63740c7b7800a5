/**
 * Searching the two tiers: the three separate reads of a search (overlay,
 * main, pending) against every interleaving of writers and flushes, and the
 * exactness of the merged answer at one instant.
 */
module TwoTierSearch {
  import opened Ranking
  import opened TwoTier

  type Score = Vector -> real

  type Filter = MemoryId -> bool

  /** What main may answer once the overlay copy and the caller's filter are applied. */
  function MainScores(main: MainIndex, overlay: set<MemoryId>, score: Score, filter: Filter): map<MemoryId, real>
  {
    map id | id in main.nodes && main.Holds(id) && id !in overlay && filter(id) :: score(main.nodes[id])
  }

  function PendingScores(entries: seq<PendingEntry>, score: Score, filter: Filter): map<MemoryId, real>
  {
    map id | id in (set e | e in entries :: e.id) && LiveEntry(entries, id) && filter(id)
      :: score(Find(entries, id).value.vector)
  }

  function ViewScores(t: Tiers, score: Score, filter: Filter): map<MemoryId, real>
  {
    map id | id in View(t) && filter(id) :: score(View(t)[id])
  }

  /** `merge_dedupe_descending`, before its sort: pending replaces main on collision. */
  function Merged(main: seq<Hit<MemoryId>>, pending: seq<Hit<MemoryId>>): map<MemoryId, real>
  {
    ToMap(main) + ToMap(pending)
  }

  /** One answer of `search`, given its pending scan, whatever main returned. */
  ghost predicate IsAnswer(r: seq<Hit<MemoryId>>, entries: seq<PendingEntry>, score: Score, filter: Filter, k: nat,
                           mainHits: seq<Hit<MemoryId>>, pendingHits: seq<Hit<MemoryId>>)
  {
    && IsTopK(pendingHits, PendingScores(entries, score, filter), k)
    && IsTopK(r, Merged(mainHits, pendingHits), k)
  }

  lemma AnswerIds(r: seq<Hit<MemoryId>>, entries: seq<PendingEntry>, score: Score, filter: Filter, k: nat,
                  mainHits: seq<Hit<MemoryId>>, pendingHits: seq<Hit<MemoryId>>, id: MemoryId)
    requires IsAnswer(r, entries, score, filter, k, mainHits, pendingHits)
    requires id in Ids(r)
    ensures id in Ids(mainHits) || (LiveEntry(entries, id) && filter(id))
  {
    assert id in Merged(mainHits, pendingHits);
  }

  // ----- Reads spread over a trace -----------------------------------------

  ghost predicate LiveWithin(states: seq<System>, a: nat, b: nat, id: MemoryId)
    requires b < |states|
  {
    exists i | a <= i <= b :: Lookup(states[i].tiers, id).Some?
  }

  lemma EntryIsLive(t: Tiers, id: MemoryId)
    requires Valid(t) && LiveEntry(t.entries, id)
    ensures Lookup(t, id).Some?
  {
    assert Find(t.entries, id).value in t.entries;
  }

  /** Main holds `id`, or an open window will publish it. */
  ghost predicate MayServe(s: System, id: MemoryId)
  {
    s.tiers.main.Holds(id) || (s.window.Some? && s.window.value.built.Holds(id))
  }

  lemma ServedIsLive(s: System, id: MemoryId)
    requires Inv(s) && id !in s.tiers.tombstoned && MayServe(s, id)
    ensures Lookup(s.tiers, id).Some?
  {
    var found := Find(s.tiers.entries, id);
    if s.window.Some? && found.None? {
      var folded := Find(s.window.value.snapshot, id);
      assert folded.None?;
    }
  }

  /** Only a snapshot can make a new id servable, and then that id is live. */
  lemma NewlyServedIsLive(s: System, step: Step, id: MemoryId)
    requires Inv(s) && Enabled(s, step)
    requires !MayServe(s, id) && MayServe(Next(s, step), id)
    ensures Lookup(s.tiers, id).Some?
  {
    assert step.TakeSnapshot?;
    var folded := Find(s.tiers.entries, id);
    assert folded.Some? && folded.value in s.tiers.entries;
    EntryIsLive(s.tiers, id);
  }

  lemma ServedAt(states: seq<System>, steps: seq<Step>, i: nat, id: MemoryId)
    requires IsTrace(states, steps) && Inv(states[0]) && i <= |steps|
    requires id !in states[i].tiers.tombstoned && MayServe(states[i], id)
    ensures Lookup(states[i].tiers, id).Some?
  {
    TraceKeepsInv(states, steps, i);
    ServedIsLive(states[i], id);
  }

  lemma ServedFrom(states: seq<System>, steps: seq<Step>, i: nat, j: nat, id: MemoryId)
    requires IsTrace(states, steps) && Inv(states[0]) && j == i + 1 <= |steps|
    requires !MayServe(states[i], id) && MayServe(states[j], id)
    ensures Lookup(states[i].tiers, id).Some?
  {
    TraceKeepsInv(states, steps, i);
    TraceStep(states, steps, i, j);
    NewlyServedIsLive(states[i], steps[i], id);
  }

  /** Main never serves an id that was dead ever since the overlay was read. */
  lemma {:induction false} ServedWasLive(states: seq<System>, steps: seq<Step>, a: nat, b: nat, id: MemoryId)
    returns (i: nat)
    requires IsTrace(states, steps) && Inv(states[0]) && a <= b <= |steps|
    requires id !in states[a].tiers.tombstoned && MayServe(states[b], id)
    ensures a <= i <= b && Lookup(states[i].tiers, id).Some?
    decreases b
  {
    if a == b {
      ServedAt(states, steps, b, id);
      i := b;
    } else if MayServe(states[b - 1], id) {
      i := ServedWasLive(states, steps, a, b - 1, id);
    } else {
      ServedFrom(states, steps, b - 1, b, id);
      i := b - 1;
    }
  }

  /** Safety: whatever main returned, every id of the answer was live at some instant of the search. */
  lemma SearchReturnsLive(states: seq<System>, steps: seq<Step>, a: nat, b: nat, c: nat, score: Score, filter: Filter,
                          k: nat, mainHits: seq<Hit<MemoryId>>, pendingHits: seq<Hit<MemoryId>>,
                          r: seq<Hit<MemoryId>>, id: MemoryId)
    requires IsTrace(states, steps) && Inv(states[0])
    requires a <= b <= c < |states|
    requires Ids(mainHits) <= MainScores(states[b].tiers.main, states[a].tiers.tombstoned, score, filter).Keys
    requires IsAnswer(r, states[c].tiers.entries, score, filter, k, mainHits, pendingHits)
    requires id in Ids(r)
    ensures filter(id) && LiveWithin(states, a, c, id)
  {
    AnswerIds(r, states[c].tiers.entries, score, filter, k, mainHits, pendingHits, id);
    if id in Ids(mainHits) {
      var i := ServedWasLive(states, steps, a, b, id);
    } else {
      TraceKeepsInv(states, steps, c);
      EntryIsLive(states[c].tiers, id);
    }
  }

  /** With room for every candidate, the answer lists all of them. */
  lemma RoomyAnswer(main: map<MemoryId, real>, entries: seq<PendingEntry>, score: Score, filter: Filter, k: nat,
                    mainHits: seq<Hit<MemoryId>>, pendingHits: seq<Hit<MemoryId>>, r: seq<Hit<MemoryId>>)
    requires IsTopK(mainHits, main, k) && IsAnswer(r, entries, score, filter, k, mainHits, pendingHits)
    requires k >= |main| + |PendingScores(entries, score, filter)|
    ensures Ids(r) == main.Keys + PendingScores(entries, score, filter).Keys
  {
    var pending := PendingScores(entries, score, filter);
    TopKOfFew(mainHits, main, k);
    TopKOfFew(pendingHits, pending, k);
    var merged := Merged(mainHits, pendingHits);
    assert merged.Keys == main.Keys + pending.Keys;
    UnionSize(main.Keys, pending.Keys);
    assert |merged| == |merged.Keys| && |main| == |main.Keys| && |pending| == |pending.Keys|;
    TopKOfFew(r, merged, k);
  }

  /** A search that read the overlay, main and pending at instants `a`, `b` and `c`, with an exact main
      and room for every candidate. */
  ghost predicate RoomySearch(states: seq<System>, a: nat, b: nat, c: nat, score: Score, filter: Filter, k: nat,
                              mainHits: seq<Hit<MemoryId>>, pendingHits: seq<Hit<MemoryId>>, r: seq<Hit<MemoryId>>)
    requires a <= b <= c < |states|
  {
    var main := MainScores(states[b].tiers.main, states[a].tiers.tombstoned, score, filter);
    var entries := states[c].tiers.entries;
    && IsTopK(mainHits, main, k) && IsAnswer(r, entries, score, filter, k, mainHits, pendingHits)
    && k >= |main| + |PendingScores(entries, score, filter)|
  }

  ghost predicate LiveThroughout(states: seq<System>, a: nat, c: nat, id: MemoryId)
    requires a <= c < |states|
  {
    forall i | a <= i <= c :: Lookup(states[i].tiers, id).Some?
  }

  /** A memory live throughout the search is found if and only if main held it at the load or it was
      pending at the scan. */
  lemma FoundIffServed(states: seq<System>, a: nat, b: nat, c: nat, score: Score, filter: Filter, k: nat,
                       mainHits: seq<Hit<MemoryId>>, pendingHits: seq<Hit<MemoryId>>, r: seq<Hit<MemoryId>>,
                       id: MemoryId)
    requires a <= b <= c < |states| && LiveThroughout(states, a, c, id) && filter(id)
    requires RoomySearch(states, a, b, c, score, filter, k, mainHits, pendingHits, r)
    ensures id in Ids(r) <==> states[b].tiers.main.Holds(id) || LiveEntry(states[c].tiers.entries, id)
  {
    var entries := states[c].tiers.entries;
    RoomyAnswer(MainScores(states[b].tiers.main, states[a].tiers.tombstoned, score, filter),
                entries, score, filter, k, mainHits, pendingHits, r);
    assert Lookup(states[a].tiers, id).Some?;
    ScoredIffLive(entries, score, filter, id);
  }

  lemma ScoredIffLive(entries: seq<PendingEntry>, score: Score, filter: Filter, id: MemoryId)
    requires filter(id)
    ensures id in PendingScores(entries, score, filter) <==> LiveEntry(entries, id)
  {
    if LiveEntry(entries, id) {
      assert Find(entries, id).value in entries;
    }
  }

  predicate Inserts(step: Step, id: MemoryId) { step.WriterInsert? && step.id == id }

  /** The publish at step `i` folds the pending entry of `id` into main. */
  ghost predicate FoldsAt(states: seq<System>, steps: seq<Step>, i: nat, id: MemoryId)
    requires i < |steps| < |states|
  {
    && steps[i] == PublishFlush
    && LiveEntry(states[i].tiers.entries, id) && !LiveEntry(states[i + 1].tiers.entries, id)
  }

  /** Between `b` and `c` a publish folded the pending entry of `id`, which was not inserted again. */
  ghost predicate FoldedBetween(states: seq<System>, steps: seq<Step>, b: nat, c: nat, id: MemoryId)
    requires b <= c <= |steps| < |states|
  {
    exists i | b <= i < c :: FoldsAt(states, steps, i, id) && forall j | i < j < c :: !Inserts(steps[j], id)
  }

  /** Only an insert makes an id pending. */
  lemma GoneStaysGone(s: System, step: Step, id: MemoryId)
    requires Inv(s) && Enabled(s, step) && !Inserts(step, id) && !LiveEntry(s.tiers.entries, id)
    ensures !LiveEntry(Next(s, step).tiers.entries, id)
  {
    var t := s.tiers;
    match step {
      case WriterInsert(x, vector) => PutFinds(t.entries, PendingEntry(x, vector, false), id);
      case WriterTombstone(x) =>
        var found := Find(t.entries, x);
        if found.Some? {
          PutFinds(t.entries, found.value.(tombstoned := true), id);
        }
      case PublishFlush => PublishFinds(t, s.window.value, id);
      case _ =>
    }
  }

  /** Only a publish takes a live id out of pending and leaves it live. */
  lemma OnlyPublishFolds(s: System, step: Step, id: MemoryId)
    requires Inv(s) && Enabled(s, step) && LiveEntry(s.tiers.entries, id)
    requires !LiveEntry(Next(s, step).tiers.entries, id) && Lookup(Next(s, step).tiers, id).Some?
    ensures step == PublishFlush
  {
    var t := s.tiers;
    match step {
      case WriterInsert(x, vector) => PutFinds(t.entries, PendingEntry(x, vector, false), id);
      case WriterTombstone(x) =>
        var found := Find(t.entries, x);
        if found.Some? {
          PutFinds(t.entries, found.value.(tombstoned := true), id);
        }
      case _ =>
    }
  }

  lemma InsertIsPending(s: System, step: Step, id: MemoryId)
    requires Inv(s) && Enabled(s, step) && Inserts(step, id)
    ensures LiveEntry(Next(s, step).tiers.entries, id)
  {
    PutFinds(s.tiers.entries, PendingEntry(id, step.vector, false), id);
  }

  lemma {:induction false} GoneUntil(states: seq<System>, steps: seq<Step>, i: nat, c: nat, id: MemoryId)
    requires IsTrace(states, steps) && Inv(states[0]) && i <= c <= |steps|
    requires !LiveEntry(states[i].tiers.entries, id) && forall j | i <= j < c :: !Inserts(steps[j], id)
    ensures !LiveEntry(states[c].tiers.entries, id)
    decreases c
  {
    if i < c {
      GoneUntil(states, steps, i, c - 1, id);
      TraceKeepsInv(states, steps, c - 1);
      TraceStep(states, steps, c - 1, c);
      GoneStaysGone(states[c - 1], steps[c - 1], id);
    }
  }

  lemma FoldStep(states: seq<System>, steps: seq<Step>, i: nat, id: MemoryId)
    requires IsTrace(states, steps) && Inv(states[0]) && i < |steps|
    requires LiveEntry(states[i].tiers.entries, id) && !LiveEntry(states[i + 1].tiers.entries, id)
    requires Lookup(states[i + 1].tiers, id).Some?
    ensures FoldsAt(states, steps, i, id)
  {
    TraceKeepsInv(states, steps, i);
    TraceStep(states, steps, i, i + 1);
    OnlyPublishFolds(states[i], steps[i], id);
  }

  lemma NotInserted(states: seq<System>, steps: seq<Step>, i: nat, id: MemoryId)
    requires IsTrace(states, steps) && Inv(states[0]) && i < |steps|
    requires !LiveEntry(states[i + 1].tiers.entries, id)
    ensures !Inserts(steps[i], id)
  {
    TraceKeepsInv(states, steps, i);
    TraceStep(states, steps, i, i + 1);
    if Inserts(steps[i], id) {
      InsertIsPending(states[i], steps[i], id);
    }
  }

  /** The fold that took a live id out of pending. */
  lemma {:induction false} FindFold(states: seq<System>, steps: seq<Step>, b: nat, c: nat, id: MemoryId)
    returns (i: nat)
    requires IsTrace(states, steps) && Inv(states[0]) && b <= c <= |steps|
    requires LiveThroughout(states, b, c, id)
    requires LiveEntry(states[b].tiers.entries, id) && !LiveEntry(states[c].tiers.entries, id)
    ensures b <= i < c && FoldsAt(states, steps, i, id) && forall j | i < j < c :: !Inserts(steps[j], id)
    decreases c
  {
    i := c - 1;
    if LiveEntry(states[i].tiers.entries, id) {
      FoldStep(states, steps, i, id);
    } else {
      NotInserted(states, steps, i, id);
      i := FindFold(states, steps, b, i, id);
    }
  }

  /** A live id that main did not hold at `b` leaves pending by `c` if and only if a publish folds it. */
  lemma GoneIffFolded(states: seq<System>, steps: seq<Step>, b: nat, c: nat, id: MemoryId)
    requires IsTrace(states, steps) && Inv(states[0]) && b <= c <= |steps|
    requires LiveThroughout(states, b, c, id) && !states[b].tiers.main.Holds(id)
    ensures !LiveEntry(states[c].tiers.entries, id) <==> FoldedBetween(states, steps, b, c, id)
  {
    assert Lookup(states[b].tiers, id).Some?;
    if !LiveEntry(states[c].tiers.entries, id) {
      var i := FindFold(states, steps, b, c, id);
    } else if FoldedBetween(states, steps, b, c, id) {
      var i :| b <= i < c && FoldsAt(states, steps, i, id) && forall j | i < j < c :: !Inserts(steps[j], id);
      GoneUntil(states, steps, i + 1, c, id);
    }
  }

  /**
   * Completeness: with an exact main and room for every candidate, a memory
   * live throughout the search is missed if and only if main did not hold it at
   * the load and a publish folded its pending entry before the scan.
   */
  lemma LiveIsMissedIff(states: seq<System>, steps: seq<Step>, a: nat, b: nat, c: nat, score: Score,
                        filter: Filter, k: nat, mainHits: seq<Hit<MemoryId>>, pendingHits: seq<Hit<MemoryId>>,
                        r: seq<Hit<MemoryId>>, id: MemoryId)
    requires IsTrace(states, steps) && Inv(states[0])
    requires a <= b <= c < |states| && LiveThroughout(states, a, c, id) && filter(id)
    requires RoomySearch(states, a, b, c, score, filter, k, mainHits, pendingHits, r)
    ensures id !in Ids(r) <==> !states[b].tiers.main.Holds(id) && FoldedBetween(states, steps, b, c, id)
  {
    FoundIffServed(states, a, b, c, score, filter, k, mainHits, pendingHits, r, id);
    if !states[b].tiers.main.Holds(id) {
      GoneIffFolded(states, steps, b, c, id);
    }
  }

  /** So with no publish between the load and the scan it is found. */
  lemma LiveThroughoutIsFound(states: seq<System>, steps: seq<Step>, a: nat, b: nat, c: nat, score: Score,
                              filter: Filter, k: nat, mainHits: seq<Hit<MemoryId>>, pendingHits: seq<Hit<MemoryId>>,
                              r: seq<Hit<MemoryId>>, id: MemoryId)
    requires IsTrace(states, steps) && Inv(states[0])
    requires a <= b <= c < |states| && LiveThroughout(states, a, c, id) && filter(id)
    requires RoomySearch(states, a, b, c, score, filter, k, mainHits, pendingHits, r)
    requires forall i | b <= i < c :: steps[i] != PublishFlush
    ensures id in Ids(r)
  {
    LiveIsMissedIff(states, steps, a, b, c, score, filter, k, mainHits, pendingHits, r, id);
  }

  lemma UnionSize<T>(a: set<T>, b: set<T>)
    ensures |a + b| <= |a| + |b|
  {
    assert a + b == a + (b - a);
    SubsetSize(b - a, b);
  }

  /** Why the publish must stay out of that gap: a memory live at every instant is missed. */
  lemma PublishInTheGapHides() returns (states: seq<System>, steps: seq<Step>)
    ensures IsTrace(states, steps) && Inv(states[0]) && |states| == 3
    ensures forall s | s in states :: Lookup(s.tiers, 1).Some?
    ensures steps[1] == PublishFlush
    ensures forall score, filter, k, mainHits, pendingHits, r
              | && Ids(mainHits) <= MainScores(states[1].tiers.main, states[0].tiers.tombstoned, score, filter).Keys
                && IsAnswer(r, states[2].tiers.entries, score, filter, k, mainHits, pendingHits)
              :: 1 !in Ids(r)
  {
    var v := Vector([1.0]);
    var entry := PendingEntry(1, v, false);
    var empty, built := MainIndex(map[], {}), MainIndex(map[1 := v], {});
    var start := System(Tiers(empty, [entry], {}), None);
    steps := [TakeSnapshot(built), PublishFlush];
    assert IsBuild(built, empty, [entry], {});
    var building := Next(start, steps[0]);
    var published := Next(building, steps[1]);
    assert Unfolded([entry], [entry]) == [];
    states := [start, building, published];
    forall score, filter, k, mainHits, pendingHits, r
      | && Ids(mainHits) <= MainScores(states[1].tiers.main, states[0].tiers.tombstoned, score, filter).Keys
        && IsAnswer(r, states[2].tiers.entries, score, filter, k, mainHits, pendingHits)
      ensures 1 !in Ids(r)
    {
      if 1 in Ids(r) {
        AnswerIds(r, states[2].tiers.entries, score, filter, k, mainHits, pendingHits, 1);
      }
    }
  }

  /** Held by main, and by the build an open window will publish. */
  ghost predicate Held(s: System, id: MemoryId)
  {
    s.tiers.main.Holds(id) && (s.window.Some? ==> s.window.value.built.Holds(id))
  }

  /** Only a snapshot can lose an id, and then that id is dead. */
  lemma NewlyLostIsDead(s: System, step: Step, id: MemoryId)
    requires Inv(s) && Enabled(s, step)
    requires Held(s, id) && !Held(Next(s, step), id)
    ensures Lookup(s.tiers, id).None?
  {
    assert step.TakeSnapshot?;
    var folded := Find(s.tiers.entries, id);
    assert folded.Some? ==> folded.value in s.tiers.entries;
  }

  lemma LostFrom(states: seq<System>, steps: seq<Step>, i: nat, j: nat, id: MemoryId)
    requires IsTrace(states, steps) && Inv(states[0]) && j == i + 1 <= |steps|
    requires Held(states[i], id) && !Held(states[j], id)
    ensures Lookup(states[i].tiers, id).None?
  {
    TraceKeepsInv(states, steps, i);
    TraceStep(states, steps, i, j);
    NewlyLostIsDead(states[i], steps[i], id);
  }

  /** An id that main or an open build lost between two instants was dead in between. */
  lemma {:induction false} LostWasDead(states: seq<System>, steps: seq<Step>, a: nat, b: nat, id: MemoryId)
    returns (i: nat)
    requires IsTrace(states, steps) && Inv(states[0]) && a <= b <= |steps|
    requires Held(states[a], id) && !Held(states[b], id)
    ensures a <= i <= b && Lookup(states[i].tiers, id).None?
    decreases b
  {
    if Held(states[b - 1], id) {
      LostFrom(states, steps, b - 1, b, id);
      i := b - 1;
    } else {
      i := LostWasDead(states, steps, a, b - 1, id);
    }
  }

  /** `contains` reads pending, then main: its answer was the truth at some instant in between. */
  lemma ContainsLinearizes(states: seq<System>, steps: seq<Step>, a: nat, b: nat, id: MemoryId)
    requires IsTrace(states, steps) && Inv(states[0]) && a <= b < |states|
    ensures
      var found := id !in states[a].tiers.tombstoned
                   && (LiveEntry(states[a].tiers.entries, id) || states[b].tiers.main.Holds(id));
      exists i | a <= i <= b :: Lookup(states[i].tiers, id).Some? == found
  {
    TraceKeepsInv(states, steps, a);
    var t := states[a].tiers;
    if id in t.tombstoned || LiveEntry(t.entries, id) {
      assert Lookup(t, id).Some? == LiveEntry(t.entries, id);
    } else if states[b].tiers.main.Holds(id) {
      var i := ServedWasLive(states, steps, a, b, id);
    } else if Lookup(t, id).Some? {
      assert Find(t.entries, id).None?;
      assert states[a].window.Some? ==> Find(states[a].window.value.snapshot, id).None?;
      var i := LostWasDead(states, steps, a, b, id);
    }
  }

  // ----- Exactness at one instant ------------------------------------------

  /** No pending entry scores below the main vector it overrides. */
  ghost predicate OverridesRaise(main: map<MemoryId, real>, pending: map<MemoryId, real>)
  {
    forall id | id in main && id in pending :: main[id] <= pending[id]
  }

  lemma MergedScores(main: map<MemoryId, real>, pending: map<MemoryId, real>,
                     mainHits: seq<Hit<MemoryId>>, pendingHits: seq<Hit<MemoryId>>)
    requires Scored(mainHits, main) && Scored(pendingHits, pending)
    ensures
      var merged := Merged(mainHits, pendingHits);
      && merged.Keys == Ids(mainHits) + Ids(pendingHits)
      && forall id | id in merged :: merged[id] == if id in Ids(pendingHits) then pending[id] else main[id]
  {
    ToMapScored(mainHits, main);
    ToMapScored(pendingHits, pending);
  }

  /** A tier that left an id out of its best `k` has `k` hits, all at least as good. */
  lemma LeftOutOfTopK(hits: seq<Hit<MemoryId>>, scores: map<MemoryId, real>, k: nat, id: MemoryId)
    requires IsTopK(hits, scores, k) && id in scores && id !in Ids(hits)
    ensures |Ids(hits)| == k
    ensures forall x | x in Ids(hits) :: x in scores && scores[x] >= scores[id]
  {
    IdsCount(hits);
    SubsetSize(Ids(hits) + {id}, scores.Keys);
    assert |scores.Keys| == |scores|;
  }

  /** Each id of the union keeps its score through the merge, or the whole answer outscores it. */
  lemma MergeReaches(main: map<MemoryId, real>, pending: map<MemoryId, real>, k: nat,
                     mainHits: seq<Hit<MemoryId>>, pendingHits: seq<Hit<MemoryId>>, r: seq<Hit<MemoryId>>, id: MemoryId)
    requires OverridesRaise(main, pending)
    requires IsTopK(mainHits, main, k) && IsTopK(pendingHits, pending, k)
    requires IsTopK(r, Merged(mainHits, pendingHits), k)
    requires id in main + pending
    ensures
      var merged := Merged(mainHits, pendingHits);
      || (id in merged && merged[id] == (main + pending)[id])
      || forall h | h in r :: h.score >= (main + pending)[id]
  {
    var merged := Merged(mainHits, pendingHits);
    MergedScores(main, pending, mainHits, pendingHits);
    if id in pending && id !in Ids(pendingHits) {
      LeftOutOfTopK(pendingHits, pending, k, id);
      TopKReaches(r, merged, k, Ids(pendingHits), pending[id]);
    } else if id !in pending && id !in Ids(mainHits) {
      LeftOutOfTopK(mainHits, main, k, id);
      TopKReaches(r, merged, k, Ids(mainHits), main[id]);
    }
  }

  lemma MergedSize(main: map<MemoryId, real>, pending: map<MemoryId, real>, k: nat,
                   mainHits: seq<Hit<MemoryId>>, pendingHits: seq<Hit<MemoryId>>)
    requires IsTopK(mainHits, main, k) && IsTopK(pendingHits, pending, k)
    ensures Min(k, |Merged(mainHits, pendingHits)|) == Min(k, |main + pending|)
  {
    var merged, all := Merged(mainHits, pendingHits), main + pending;
    MergedScores(main, pending, mainHits, pendingHits);
    IdsCount(mainHits);
    IdsCount(pendingHits);
    assert |merged| == |merged.Keys| && |all| == |all.Keys|;
    SubsetSize(merged.Keys, all.Keys);
    SubsetSize(Ids(mainHits), merged.Keys);
    SubsetSize(Ids(pendingHits), merged.Keys);
    if |merged| < k {
      TopKOfFew(mainHits, main, k);
      TopKOfFew(pendingHits, pending, k);
      assert merged.Keys == all.Keys;
    }
  }

  /** Merging the best `k` of each tier is a best `k` of the overridden union, when overrides only raise. */
  lemma MergeIsTopK(main: map<MemoryId, real>, pending: map<MemoryId, real>, k: nat,
                    mainHits: seq<Hit<MemoryId>>, pendingHits: seq<Hit<MemoryId>>, r: seq<Hit<MemoryId>>)
    requires OverridesRaise(main, pending)
    requires IsTopK(mainHits, main, k) && IsTopK(pendingHits, pending, k)
    requires IsTopK(r, Merged(mainHits, pendingHits), k)
    ensures IsTopK(r, main + pending, k)
  {
    MergedSize(main, pending, k, mainHits, pendingHits);
    forall id | id in main + pending
      ensures Reached(Merged(mainHits, pendingHits), main + pending, r, id)
    {
      MergeReaches(main, pending, k, mainHits, pendingHits, r, id);
    }
    MergedScores(main, pending, mainHits, pendingHits);
    ReachedIsTopK(Merged(mainHits, pendingHits), main + pending, k, r);
  }

  /** `id` keeps its score in `some`, or all of `r` outscores it. */
  ghost predicate Reached(some: map<MemoryId, real>, all: map<MemoryId, real>, r: seq<Hit<MemoryId>>, id: MemoryId)
    requires id in all
  {
    (id in some && some[id] == all[id]) || forall h | h in r :: h.score >= all[id]
  }

  lemma ReachedIsTopK(some: map<MemoryId, real>, all: map<MemoryId, real>, k: nat, r: seq<Hit<MemoryId>>)
    requires IsTopK(r, some, k) && some.Keys <= all.Keys && Min(k, |some|) == Min(k, |all|)
    requires forall id | id in all :: Reached(some, all, r, id)
    requires forall id | id in some :: some[id] <= all[id]
    ensures IsTopK(r, all, k)
  {
    forall h | h in r
      ensures h.id in all && h.score == all[h.id]
    {
      assert Reached(some, all, r, h.id);
    }
    forall id, h | id in all && id !in Ids(r) && h in r
      ensures all[id] <= h.score
    {
      assert Reached(some, all, r, id);
    }
  }

  /** At one instant the view's scores are main's overridden by pending's. */
  lemma ViewScoresAreUnion(t: Tiers, score: Score, filter: Filter)
    requires Valid(t)
    ensures ViewScores(t, score, filter)
         == MainScores(t.main, t.tombstoned, score, filter) + PendingScores(t.entries, score, filter)
  {
    var view := ViewScores(t, score, filter);
    var union := MainScores(t.main, t.tombstoned, score, filter) + PendingScores(t.entries, score, filter);
    forall id ensures Get(view, id) == Get(union, id) {
      ViewScore(t, score, filter, id);
    }
    EqualMaps(view, union);
  }

  lemma ViewScore(t: Tiers, score: Score, filter: Filter, id: MemoryId)
    requires Valid(t)
    ensures
      var view := ViewScores(t, score, filter);
      var main, pending := MainScores(t.main, t.tombstoned, score, filter), PendingScores(t.entries, score, filter);
      && (id in view <==> id in main || id in pending)
      && (id in view ==> view[id] == if id in pending then pending[id] else main[id])
  {
    ViewIsLookup(t);
    assert Get(View(t), id) == Lookup(t, id);
    var found := Find(t.entries, id);
    assert found.Some? ==> found.value in t.entries;
  }

  /** `e` overrides a different vector that main still holds live. */
  predicate Stale(t: Tiers, e: PendingEntry)
  {
    !e.tombstoned && t.main.Holds(e.id) && t.main.nodes[e.id] != e.vector
  }

  ghost predicate AlwaysExact(t: Tiers)
  {
    forall score: Score, filter: Filter, k: nat, mainHits, pendingHits, r
      | && IsTopK(mainHits, MainScores(t.main, t.tombstoned, score, filter), k)
        && IsAnswer(r, t.entries, score, filter, k, mainHits, pendingHits)
      :: IsTopK(r, ViewScores(t, score, filter), k)
  }

  /** Another live id that the override `e` can be confused with: it is pending, or it is in main
      alone with a vector other than the overriding one. */
  predicate Rival(t: Tiers, e: PendingEntry, id: MemoryId)
  {
    && id != e.id && Lookup(t, id).Some?
    && (LiveEntry(t.entries, id) || Lookup(t, id).value != e.vector)
  }

  /** Every override of a different live vector is without rivals. */
  predicate Harmless(t: Tiers)
  {
    forall e, id | e in t.entries && Stale(t, e) && id in View(t) :: !Rival(t, e, id)
  }

  // ----- A rival makes some search wrong ------------------------------------

  /** Scores the stale vector highest, then the rival's, and everything else lowest. */
  function Misleading(stale: Vector, rival: Vector): Score
  {
    v => if v == stale then 2.0 else if v == rival then 1.0 else 0.0
  }

  function Pair(a: MemoryId, b: MemoryId): Filter
  {
    x => x == a || x == b
  }

  /** `stale` leads main but not pending, where a pending rival is at least as good. */
  ghost predicate Misled(main: map<MemoryId, real>, pending: map<MemoryId, real>, stale: MemoryId, rival: MemoryId)
  {
    && stale != rival && main.Keys + pending.Keys == {stale, rival}
    && stale in main && main[stale] == 2.0 && (rival in main ==> main[rival] <= 2.0)
    && stale in pending && pending[stale] < 2.0
    && (rival in pending ==> pending[stale] <= pending[rival] <= 2.0)
    && (rival !in pending ==> rival in main && pending[stale] < main[rival])
  }

  lemma MisleadingScores(t: Tiers, e: PendingEntry, id: MemoryId)
    requires Valid(t) && e in t.entries && Stale(t, e) && Rival(t, e, id)
    ensures
      var score := Misleading(t.main.nodes[e.id], Lookup(t, id).value);
      Misled(MainScores(t.main, t.tombstoned, score, Pair(e.id, id)),
             PendingScores(t.entries, score, Pair(e.id, id)), e.id, id)
  {
    FindIsUnique(t.entries, e);
    var found := Find(t.entries, id);
    assert found.Some? ==> found.value in t.entries;
  }

  /** Pending cuts the newer score of `stale`, so main's outdated one is reported. */
  lemma ReportsStale(main: map<MemoryId, real>, pending: map<MemoryId, real>, stale: MemoryId, rival: MemoryId)
    requires Misled(main, pending, stale, rival) && rival in pending
    ensures
      var top, other := [Hit(stale, 2.0)], [Hit(rival, pending[rival])];
      && IsTopK(top, main, 1) && IsTopK(other, pending, 1) && IsTopK(top, Merged(top, other), 1)
      && !IsTopK(top, main + pending, 1)
  {
    var top, other := Hit(stale, 2.0), Hit(rival, pending[rival]);
    OneBest(top, main);
    OneBest(other, pending);
    MergedScores(main, pending, [top], [other]);
    OneBest(top, Merged([top], [other]));
    WrongHit(top, main + pending, stale);
  }

  /** The outdated score of `stale` takes main's one slot, so `rival` is never merged. */
  lemma HidesRival(main: map<MemoryId, real>, pending: map<MemoryId, real>, stale: MemoryId, rival: MemoryId)
    requires Misled(main, pending, stale, rival) && rival !in pending
    ensures
      var top, newer := [Hit(stale, 2.0)], [Hit(stale, pending[stale])];
      && IsTopK(top, main, 1) && IsTopK(newer, pending, 1) && IsTopK(newer, Merged(top, newer), 1)
      && !IsTopK(newer, main + pending, 1)
  {
    var top, newer := Hit(stale, 2.0), Hit(stale, pending[stale]);
    OneBest(top, main);
    OneBest(newer, pending);
    MergedScores(main, pending, [top], [newer]);
    OneBest(newer, Merged([top], [newer]));
    WrongHit(newer, main + pending, rival);
  }

  lemma WrongHit(h: Hit<MemoryId>, scores: map<MemoryId, real>, id: MemoryId)
    requires id in scores
    requires (id == h.id && scores[id] != h.score) || (id != h.id && scores[id] > h.score)
    ensures !IsTopK([h], scores, 1)
  {
    assert h in [h];
  }

  lemma OneBest(h: Hit<MemoryId>, scores: map<MemoryId, real>)
    requires h.id in scores && scores[h.id] == h.score
    requires forall id | id in scores :: scores[id] <= h.score
    ensures IsTopK([h], scores, 1)
  {
    SubsetSize({h.id}, scores.Keys);
    assert |scores| == |scores.Keys|;
  }

  lemma WrongAnswer(t: Tiers, score: Score, filter: Filter, k: nat, mainHits: seq<Hit<MemoryId>>,
                    pendingHits: seq<Hit<MemoryId>>, r: seq<Hit<MemoryId>>)
    requires Valid(t)
    requires
      var main, pending := MainScores(t.main, t.tombstoned, score, filter), PendingScores(t.entries, score, filter);
      && IsTopK(mainHits, main, k) && IsTopK(pendingHits, pending, k)
      && IsTopK(r, Merged(mainHits, pendingHits), k)
      && !IsTopK(r, main + pending, k)
    ensures !AlwaysExact(t)
  {
    ViewScoresAreUnion(t, score, filter);
    assert IsAnswer(r, t.entries, score, filter, k, mainHits, pendingHits);
  }

  lemma RivalMisleads(t: Tiers, e: PendingEntry, id: MemoryId)
    requires Valid(t) && e in t.entries && Stale(t, e) && Rival(t, e, id)
    ensures !AlwaysExact(t)
  {
    var score, filter := Misleading(t.main.nodes[e.id], Lookup(t, id).value), Pair(e.id, id);
    MisleadingScores(t, e, id);
    var main, pending := MainScores(t.main, t.tombstoned, score, filter), PendingScores(t.entries, score, filter);
    var top := [Hit(e.id, 2.0)];
    if id in pending {
      ReportsStale(main, pending, e.id, id);
      WrongAnswer(t, score, filter, 1, top, [Hit(id, pending[id])], top);
    } else {
      HidesRival(main, pending, e.id, id);
      var newer := [Hit(e.id, pending[e.id])];
      WrongAnswer(t, score, filter, 1, top, newer, newer);
    }
  }

  /** A pending vector for id 1 over another that main holds, beside id 2. */
  lemma StaleOverrideMisleads(stale: Vector, other: Vector, newer: Vector)
    requires stale != newer && other != newer
    ensures
      var t := Tiers(MainIndex(map[1 := stale, 2 := other], {}), [PendingEntry(1, newer, false)], {});
      Valid(t) && !AlwaysExact(t)
  {
    var e := PendingEntry(1, newer, false);
    var t := Tiers(MainIndex(map[1 := stale, 2 := other], {}), [e], {});
    FindIsUnique(t.entries, e);
    RivalMisleads(t, e, 2);
  }

  // ----- Without rivals every search is right --------------------------------

  /** One pending score, and every other score of main equal to it. */
  ghost predicate Level(main: map<MemoryId, real>, pending: map<MemoryId, real>, id: MemoryId, score: real)
  {
    pending == map[id := score] && forall x | x in main && x != id :: main[x] == score
  }

  /** When all scores are the same, only the number of hits matters. */
  lemma FlatIsTopK(some: map<MemoryId, real>, all: map<MemoryId, real>, score: real, k: nat, r: seq<Hit<MemoryId>>)
    requires some.Keys <= all.Keys && Min(k, |some|) == Min(k, |all|) && IsTopK(r, some, k)
    requires (forall x | x in some :: some[x] == score) && (forall x | x in all :: all[x] == score)
    ensures IsTopK(r, all, k)
  {
    assert forall h | h in r :: h.id in some && h.score == score;
  }

  lemma LevelMerge(main: map<MemoryId, real>, pending: map<MemoryId, real>, id: MemoryId, score: real,
                   mainHits: seq<Hit<MemoryId>>, pendingHits: seq<Hit<MemoryId>>)
    requires Level(main, pending, id, score) && id in Ids(pendingHits)
    requires Scored(mainHits, main) && Scored(pendingHits, pending)
    ensures Merged(mainHits, pendingHits).Keys <= (main + pending).Keys
    ensures forall x | x in Merged(mainHits, pendingHits) :: Merged(mainHits, pendingHits)[x] == score
  {
    MergedScores(main, pending, mainHits, pendingHits);
    forall x | x in Merged(mainHits, pendingHits)
      ensures x in main + pending && Merged(mainHits, pendingHits)[x] == score
    {
    }
  }

  lemma LevelMergeIsTopK(main: map<MemoryId, real>, pending: map<MemoryId, real>, id: MemoryId, score: real, k: nat,
                         mainHits: seq<Hit<MemoryId>>, pendingHits: seq<Hit<MemoryId>>, r: seq<Hit<MemoryId>>)
    requires Level(main, pending, id, score)
    requires IsTopK(mainHits, main, k) && IsTopK(pendingHits, pending, k)
    requires IsTopK(r, Merged(mainHits, pendingHits), k)
    ensures IsTopK(r, main + pending, k)
  {
    MergedSize(main, pending, k, mainHits, pendingHits);
    if k > 0 {
      LevelHitsPending(pending, id, score, k, pendingHits);
      LevelMerge(main, pending, id, score, mainHits, pendingHits);
      FlatIsTopK(Merged(mainHits, pendingHits), main + pending, score, k, r);
    }
  }

  lemma LevelHitsPending(pending: map<MemoryId, real>, id: MemoryId, score: real, k: nat,
                         pendingHits: seq<Hit<MemoryId>>)
    requires pending == map[id := score] && k > 0 && IsTopK(pendingHits, pending, k)
    ensures id in Ids(pendingHits)
  {
    assert |pending| == 1;
    assert pendingHits[0] in pendingHits;
  }

  /** A harmless override leaves every other candidate in main alone, with the overriding vector. */
  lemma OverrideIsLevel(t: Tiers, e: PendingEntry, score: Score, filter: Filter)
    requires Valid(t) && Harmless(t) && e in t.entries && Stale(t, e) && filter(e.id)
    ensures Level(MainScores(t.main, t.tombstoned, score, filter), PendingScores(t.entries, score, filter),
                  e.id, score(e.vector))
  {
    ViewIsLookup(t);
    FindIsUnique(t.entries, e);
    var main, pending := MainScores(t.main, t.tombstoned, score, filter), PendingScores(t.entries, score, filter);
    forall x | x != e.id && (x in main || x in pending)
      ensures x !in pending && main[x] == score(e.vector)
    {
      var found := Find(t.entries, x);
      assert found.Some? ==> found.value in t.entries;
      assert Get(View(t), x) == Lookup(t, x);
      assert x in View(t);
      assert !Rival(t, e, x);
    }
    assert pending.Keys == {e.id};
  }

  /** Among the candidates of one filter, overrides raise nothing or sit level with the rest. */
  lemma HarmlessIsExact(t: Tiers, score: Score, filter: Filter, k: nat, mainHits: seq<Hit<MemoryId>>,
                        pendingHits: seq<Hit<MemoryId>>, r: seq<Hit<MemoryId>>)
    requires Valid(t) && Harmless(t)
    requires IsTopK(mainHits, MainScores(t.main, t.tombstoned, score, filter), k)
    requires IsAnswer(r, t.entries, score, filter, k, mainHits, pendingHits)
    ensures IsTopK(r, ViewScores(t, score, filter), k)
  {
    var main, pending := MainScores(t.main, t.tombstoned, score, filter), PendingScores(t.entries, score, filter);
    ViewScoresAreUnion(t, score, filter);
    if exists e :: e in t.entries && Stale(t, e) && filter(e.id) {
      var e :| e in t.entries && Stale(t, e) && filter(e.id);
      OverrideIsLevel(t, e, score, filter);
      LevelMergeIsTopK(main, pending, e.id, score(e.vector), k, mainHits, pendingHits, r);
    } else {
      forall id | id in main && id in pending
        ensures main[id] <= pending[id]
      {
        assert Find(t.entries, id).value in t.entries;
      }
      MergeIsTopK(main, pending, k, mainHits, pendingHits, r);
    }
  }

  /**
   * Search is a best `k` of the view, for every scoring, filter and `k`, if and
   * only if every pending entry that overrides a different live vector of main
   * is the only live entry pending, and all else that is live in main has the
   * overriding vector.
   */
  lemma ExactIffHarmless(t: Tiers)
    requires Valid(t)
    ensures AlwaysExact(t) <==> Harmless(t)
  {
    if Harmless(t) {
      forall score: Score, filter: Filter, k: nat, mainHits, pendingHits, r
        | && IsTopK(mainHits, MainScores(t.main, t.tombstoned, score, filter), k)
          && IsAnswer(r, t.entries, score, filter, k, mainHits, pendingHits)
        ensures IsTopK(r, ViewScores(t, score, filter), k)
      {
        HarmlessIsExact(t, score, filter, k, mainHits, pendingHits, r);
      }
    } else {
      var e, id :| e in t.entries && Stale(t, e) && id in View(t) && Rival(t, e, id);
      RivalMisleads(t, e, id);
    }
  }
}
