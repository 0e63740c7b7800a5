/** Whole runs of drained forgets and reverts over the stores of statements and relations. */
module CascadeRuns {
  import opened Ranking
  import opened TwoTier
  import opened Cascade
  import Relations = RelationCascade
  import opened CascadeTables
  import opened CascadeBatches
  import opened CascadeStore
  import opened CascadeRevert

  type RelationCells = map<Relations.RelationId, Relations.RelationCell>

  // ----- What a drain is to one relation ---------------------------------------

  /** A forget looks relations up under the memory's scope; a revert finds undo rows whatever the scope. */
  predicate Reaches(ev: Event, scope: Scope, scopeOf: MemoryId -> Scope)
  {
    ev.Revert? || scopeOf(ev.memory) == scope
  }

  function Hear(c: Relations.RelationCell, ev: Event, scopeOf: MemoryId -> Scope): Relations.RelationCell
  {
    if Reaches(ev, c.meta.scope, scopeOf) then Relations.Apply(c, ev) else c
  }

  /** The events of a run that reach a relation of `scope`. */
  function Heard(events: seq<Event>, scope: Scope, scopeOf: MemoryId -> Scope): seq<Event>
  {
    if events == [] then []
    else
      var earlier, last := Heard(events[..|events| - 1], scope, scopeOf), events[|events| - 1];
      if Reaches(last, scope, scopeOf) then earlier + [last] else earlier
  }

  /** To every relation a drained forget is the forget event of a run, if it reaches it. */
  lemma ForgetIsApply(cells: RelationCells, scopeOf: MemoryId -> Scope, m: MemoryId, now: nat, r: Relations.RelationId)
    requires r in cells
    ensures ForgetRelations(cells, Citing(cells, scopeOf(m), m), m, true)[r] == Hear(cells[r], Forget(m, now), scopeOf)
  {
  }

  function PendingRelations(cells: RelationCells, m: MemoryId): set<Relations.RelationId>
  {
    set r | r in cells && m in cells[r].undo
  }

  /** A drained revert is the revert event of a run. */
  lemma RevertIsApply(cells: RelationCells, batch: set<Relations.RelationId>, m: MemoryId, now: nat,
                      r: Relations.RelationId)
    requires r in cells && PendingRelations(cells, m) <= batch
    ensures RevertRelations(cells, batch, m)[r] == Relations.Apply(cells[r], Revert(m, now))
  {
    assert m in cells[r].undo ==> r in PendingRelations(cells, m);
  }

  /** Once drained, a further revert of the same memory changes no relation. */
  lemma DrainedRelationsAreIdle(cells: RelationCells, batch: set<Relations.RelationId>, m: MemoryId)
    requires PendingRelations(cells, m) <= batch
    ensures
      var drained := RevertRelations(cells, batch, m);
      PendingRelations(drained, m) == {} && forall any :: RevertRelations(drained, any, m) == drained
  {
    var drained := RevertRelations(cells, batch, m);
    forall r | r in drained
      ensures m !in drained[r].undo
    {
      assert m in cells[r].undo ==> r in PendingRelations(cells, m);
    }
    forall any: set<Relations.RelationId>
      ensures RevertRelations(drained, any, m) == drained
    {
    }
  }

  // ----- One event, then a run ---------------------------------------------------

  ghost predicate StatementsRan(was: map<StatementId, Cell>, cells: map<StatementId, Cell>, events: seq<Event>,
                                agg: Aggregate, threshold: real)
  {
    cells.Keys == was.Keys && forall s | s in was :: cells[s] == Run(was[s], events, agg, threshold)
  }

  ghost predicate RelationsRan(was: RelationCells, cells: RelationCells, events: seq<Event>, scopeOf: MemoryId -> Scope)
  {
    && cells.Keys == was.Keys
    && forall r | r in was ::
         && cells[r].meta.scope == was[r].meta.scope
         && cells[r] == Relations.Run(was[r], Heard(events, was[r].meta.scope, scopeOf))
  }

  lemma OneMoreStatementEvent(was: map<StatementId, Cell>, mid: map<StatementId, Cell>, cells: map<StatementId, Cell>,
                              events: seq<Event>, i: nat, agg: Aggregate, threshold: real)
    requires i < |events| && StatementsRan(was, mid, events[..i], agg, threshold) && cells.Keys == mid.Keys
    requires forall s | s in mid :: cells[s] == Apply(mid[s], events[i], agg, threshold)
    ensures StatementsRan(was, cells, events[..i + 1], agg, threshold)
  {
    assert events[..i + 1][..i] == events[..i];
  }

  lemma OneMoreHeard(c: Relations.RelationCell, mid: Relations.RelationCell, events: seq<Event>, i: nat,
                     scopeOf: MemoryId -> Scope)
    requires i < |events| && mid.meta.scope == c.meta.scope
    requires mid == Relations.Run(c, Heard(events[..i], c.meta.scope, scopeOf))
    ensures Hear(mid, events[i], scopeOf) == Relations.Run(c, Heard(events[..i + 1], c.meta.scope, scopeOf))
    ensures Hear(mid, events[i], scopeOf).meta.scope == c.meta.scope
  {
    var before := Heard(events[..i], c.meta.scope, scopeOf);
    assert events[..i + 1][..i] == events[..i];
    assert (before + [events[i]])[..|before|] == before;
  }

  lemma OneMoreRelationEvent(was: RelationCells, mid: RelationCells, cells: RelationCells, events: seq<Event>, i: nat,
                             scopeOf: MemoryId -> Scope)
    requires i < |events| && RelationsRan(was, mid, events[..i], scopeOf) && cells.Keys == mid.Keys
    requires forall r | r in mid :: cells[r] == Hear(mid[r], events[i], scopeOf)
    ensures RelationsRan(was, cells, events[..i + 1], scopeOf)
  {
    forall r | r in was
      ensures cells[r].meta.scope == was[r].meta.scope
      ensures cells[r] == Relations.Run(was[r], Heard(events[..i + 1], was[r].meta.scope, scopeOf))
    {
      OneMoreHeard(was[r], mid[r], events, i, scopeOf);
    }
  }

  /** A soft forget, drained in batches of any size. */
  method DrainForgets(st: StatementStore, rel: RelationStore, m: MemoryId, now: nat, agg: Aggregate, threshold: real,
                      scopeOf: MemoryId -> Scope, caps: nat -> nat)
    requires st.Valid() && rel.Valid()
    modifies st, rel
    ensures st.Valid() && rel.Valid() && st.cells.Keys == old(st.cells.Keys) && rel.cells.Keys == old(rel.cells.Keys)
    ensures forall s | s in st.cells :: st.cells[s] == Apply(old(st.cells)[s], Forget(m, now), agg, threshold)
    ensures forall r | r in rel.cells :: rel.cells[r] == Hear(old(rel.cells)[r], Forget(m, now), scopeOf)
  {
    var call := Call(m, agg, now, threshold, true);
    ghost var s0, r0 := st.cells, rel.cells;
    forall s | s in s0
      ensures ForgetMany(s0, AffectedIds(s0, m), call)[s] == Apply(s0[s], Forget(m, now), agg, threshold)
    {
      DrainedForgetIsApply(s0, call, s);
    }
    forall r | r in r0
      ensures ForgetRelations(r0, Citing(r0, scopeOf(m), m), m, true)[r] == Hear(r0[r], Forget(m, now), scopeOf)
    {
      ForgetIsApply(r0, scopeOf, m, now, r);
    }
    st.DrainForget(call, caps);
    rel.Forget(scopeOf(m), m, true);
  }

  /** Every statement and relation with an undo row of `m` is among the pending dependents. */
  lemma PendingCovers(t: Tables, cells: map<StatementId, Cell>, relations: map<Relations.RelationId, Relations.Meta>,
                      byEvidence: set<EvidenceKey>, undo: map<UndoKey, Relations.RelationUndo>, rcells: RelationCells,
                      m: MemoryId)
    requires Shows(t, cells) && ShowsRelations(relations, byEvidence, undo, rcells)
    ensures PendingIds(cells, m) <= StatementsOf(Pending(t.undo, undo, m))
    ensures PendingRelations(rcells, m) <= RelationsOf(Pending(t.undo, undo, m))
  {
    var pending := Pending(t.undo, undo, m);
    forall s | s in PendingIds(cells, m)
      ensures s in StatementsOf(pending)
    {
      assert UndoKey(m, s).id in cells && UndoKey(m, s) in t.undo;
      assert OfStatement(s) in pending;
    }
    forall r | r in PendingRelations(rcells, m)
      ensures r in RelationsOf(pending)
    {
      assert UndoKey(m, r).id in rcells && UndoKey(m, r) in undo;
      assert OfRelation(r) in pending;
    }
  }

  lemma ReplayIsApply(s0: map<StatementId, Cell>, r0: RelationCells, s1: map<StatementId, Cell>, r1: RelationCells,
                      deps: set<Dependent>, m: MemoryId, now: nat, agg: Aggregate, threshold: real)
    requires Replayed(s0, r0, s1, r1, deps, m, agg, now)
    requires PendingIds(s0, m) <= StatementsOf(deps) && PendingRelations(r0, m) <= RelationsOf(deps)
    ensures s1.Keys == s0.Keys && r1.Keys == r0.Keys
    ensures forall s | s in s1 :: s1[s] == Apply(s0[s], Revert(m, now), agg, threshold)
    ensures forall r | r in r1 :: r1[r] == Relations.Apply(r0[r], Revert(m, now))
  {
    forall s | s in s1
      ensures s1[s] == Apply(s0[s], Revert(m, now), agg, threshold)
    {
      DrainedRevertIsApply(s0, StatementsOf(deps), m, agg, now, threshold, s);
    }
    forall r | r in r1
      ensures r1[r] == Relations.Apply(r0[r], Revert(m, now))
    {
      RevertIsApply(r0, RelationsOf(deps), m, now, r);
    }
  }

  /** A revert, drained in batches of any size. */
  method DrainReverts(st: StatementStore, rel: RelationStore, m: MemoryId, now: nat, agg: Aggregate,
                      ghost threshold: real, caps: nat -> nat)
    requires st.Valid() && rel.Valid()
    modifies st, rel
    ensures st.Valid() && rel.Valid() && st.cells.Keys == old(st.cells.Keys) && rel.cells.Keys == old(rel.cells.Keys)
    ensures forall s | s in st.cells :: st.cells[s] == Apply(old(st.cells)[s], Revert(m, now), agg, threshold)
    ensures forall r | r in rel.cells :: rel.cells[r] == Relations.Apply(old(rel.cells)[r], Revert(m, now))
  {
    ghost var s0, r0, deps := st.cells, rel.cells, Pending(st.t.undo, rel.undo, m);
    PendingCovers(st.t, s0, rel.relations, rel.byEvidence, rel.undo, r0, m);
    DrainRevert(st, rel, m, agg, now, caps);
    ReplayIsApply(s0, r0, st.cells, rel.cells, deps, m, now, agg, threshold);
  }

  method RunEvent(st: StatementStore, rel: RelationStore, ev: Event, agg: Aggregate, threshold: real,
                  scopeOf: MemoryId -> Scope, caps: nat -> nat)
    requires st.Valid() && rel.Valid()
    modifies st, rel
    ensures st.Valid() && rel.Valid() && st.cells.Keys == old(st.cells.Keys) && rel.cells.Keys == old(rel.cells.Keys)
    ensures forall s | s in st.cells :: st.cells[s] == Apply(old(st.cells)[s], ev, agg, threshold)
    ensures forall r | r in rel.cells :: rel.cells[r] == Hear(old(rel.cells)[r], ev, scopeOf)
  {
    match ev {
      case Forget(m, now) => DrainForgets(st, rel, m, now, agg, threshold, scopeOf, caps);
      case Revert(m, now) => DrainReverts(st, rel, m, now, agg, threshold, caps);
    }
  }

  /** Any sequence of drained forgets and reverts: every statement goes through its own run of the same
      events and every relation through its own run of those that reach it, however the drains were cut into batches. */
  method RunEvents(st: StatementStore, rel: RelationStore, events: seq<Event>, agg: Aggregate, threshold: real,
                   scopeOf: MemoryId -> Scope, caps: nat -> nat)
    requires st.Valid() && rel.Valid()
    modifies st, rel
    ensures st.Valid() && rel.Valid()
    ensures StatementsRan(old(st.cells), st.cells, events, agg, threshold)
    ensures RelationsRan(old(rel.cells), rel.cells, events, scopeOf)
  {
    ghost var s0, r0 := st.cells, rel.cells;
    for i := 0 to |events|
      invariant st.Valid() && rel.Valid()
      invariant StatementsRan(s0, st.cells, events[..i], agg, threshold)
      invariant RelationsRan(r0, rel.cells, events[..i], scopeOf)
    {
      ghost var s1, r1 := st.cells, rel.cells;
      RunEvent(st, rel, events[i], agg, threshold, scopeOf, caps);
      OneMoreStatementEvent(s0, s1, st.cells, events, i, agg, threshold);
      OneMoreRelationEvent(r0, r1, rel.cells, events, i, scopeOf);
    }
    assert events[..|events|] == events;
  }

  // ----- What every run keeps, in the tables ---------------------------------------

  /** What a run keeps of one statement of the store. */
  ghost predicate StatementHolds(t: Tables, c: Cell, s: StatementId, was: Cell, original: map<MemoryId, Entry>,
                                 events: seq<Event>, agg: Aggregate, dies: bool)
  {
    && Tracks(c, original, original - Forgotten(events), was.row.isCurrent, dies)
    && ScoredSince(c, was.row, agg, LastEffect(original.Keys, events))
    && (was.row.isCurrent ==> s in t.statements && Agrees(t, s))
  }

  lemma StatementRunHolds(t: Tables, was: map<StatementId, Cell>, cells: map<StatementId, Cell>, events: seq<Event>,
                          agg: Aggregate, threshold: real, s: StatementId, original: map<MemoryId, Entry>)
    requires Shows(t, cells) && StatementsRan(was, cells, events, agg, threshold)
    requires s in was && Intact(was[s], original)
    ensures StatementHolds(t, cells[s], s, was[s], original, events, agg, threshold > 0.0)
  {
    RunIsScored(was[s], events, agg, threshold, original);
    RunTracks(was[s], events, agg, threshold, original);
    if was[s].row.isCurrent {
      TrackedAgrees(t, cells, s, original, original - Forgotten(events), threshold > 0.0);
    }
  }

  /** What a run keeps of one relation of the store. */
  ghost predicate RelationHolds(c: Relations.RelationCell, was: Relations.RelationCell, original: set<MemoryId>,
                                events: seq<Event>)
  {
    && c.meta.superseded == was.meta.superseded
    && exists holder ::
         Relations.Tracks(c, original, original - Forgotten(events), holder, was.meta.isCurrent,
                          Died(original, events))
  }

  lemma RelationRunHolds(was: RelationCells, cells: RelationCells, events: seq<Event>, scopeOf: MemoryId -> Scope,
                         r: Relations.RelationId, original: set<MemoryId>)
    requires RelationsRan(was, cells, events, scopeOf)
    requires r in was && Relations.Intact(was[r], original)
    ensures RelationHolds(cells[r], was[r], original, Heard(events, was[r].meta.scope, scopeOf))
  {
    var holder := Relations.RunTracks(was[r], Heard(events, was[r].meta.scope, scopeOf), original);
  }

  /** After any sequence of drained soft forgets and reverts over the stores, every statement that
      started intact has the original evidence less the forgotten memories, is tombstoned exactly
      when that is empty and the threshold is positive, has that evidence's aggregate confidence as of
      the last event that changed it, and agrees with all its tables; every relation
      that started intact is in the state that the events which reach it give it. */
  method RunCascade(st: StatementStore, rel: RelationStore, events: seq<Event>, agg: Aggregate, threshold: real,
                    scopeOf: MemoryId -> Scope, caps: nat -> nat)
    requires st.Valid() && rel.Valid()
    modifies st, rel
    ensures st.Valid() && rel.Valid() && st.cells.Keys == old(st.cells.Keys) && rel.cells.Keys == old(rel.cells.Keys)
    ensures forall s, original | s in st.cells && Intact(old(st.cells)[s], original) ::
              StatementHolds(st.t, st.cells[s], s, old(st.cells)[s], original, events, agg, threshold > 0.0)
    ensures forall r, original | r in rel.cells && Relations.Intact(old(rel.cells)[r], original) ::
              RelationHolds(rel.cells[r], old(rel.cells)[r], original,
                            Heard(events, old(rel.cells)[r].meta.scope, scopeOf))
  {
    ghost var s0, r0 := st.cells, rel.cells;
    RunEvents(st, rel, events, agg, threshold, scopeOf, caps);
    forall s, original | s in s0 && Intact(s0[s], original)
      ensures StatementHolds(st.t, st.cells[s], s, s0[s], original, events, agg, threshold > 0.0)
    {
      StatementRunHolds(st.t, s0, st.cells, events, agg, threshold, s, original);
    }
    forall r, original | r in r0 && Relations.Intact(r0[r], original)
      ensures RelationHolds(rel.cells[r], r0[r], original, Heard(events, r0[r].meta.scope, scopeOf))
    {
      RelationRunHolds(r0, rel.cells, events, scopeOf, r, original);
    }
  }
}
