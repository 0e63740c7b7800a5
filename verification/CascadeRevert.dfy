/** The relation cascade over its tables, and the revert driver that replays both kinds of undo row. */
module CascadeRevert {
  import opened Ranking
  import opened TwoTier
  import opened Cascade
  import opened RelationCascade
  import opened CascadeTables
  import opened CascadeBatches
  import opened CascadeStore

  /** Each relation's rows are those of its cell; reverse rows carry the relation's own scope.
      Rows of relations that are gone may linger. */
  ghost predicate ShowsRelations(relations: map<RelationId, Meta>, byEvidence: set<EvidenceKey>,
                                 undo: map<UndoKey, RelationUndo>, cells: map<RelationId, RelationCell>)
  {
    && relations.Keys == cells.Keys && (forall r | r in cells :: relations[r] == cells[r].meta)
    && ShowsReverse(byEvidence, cells) && ShowsRecords(undo, cells)
  }

  ghost predicate ShowsReverse(byEvidence: set<EvidenceKey>, cells: map<RelationId, RelationCell>)
  {
    forall k: EvidenceKey | k.id in cells ::
      k in byEvidence <==> k.scope == cells[k.id].meta.scope && k.memory in cells[k.id].cites
  }

  ghost predicate ShowsRecords(undo: map<UndoKey, RelationUndo>, cells: map<RelationId, RelationCell>)
  {
    forall k: UndoKey | k.id in cells ::
      && (k in undo <==> k.memory in cells[k.id].undo)
      && (k in undo ==> undo[k] == cells[k.id].undo[k.memory])
  }

  lemma ReverseFollows(byEvidence: set<EvidenceKey>, cells: map<RelationId, RelationCell>, r: RelationId, m: MemoryId,
                       c: RelationCell)
    requires ShowsReverse(byEvidence, cells) && r in cells && c.meta.scope == cells[r].meta.scope
    ensures c.cites == cells[r].cites - {m} ==>
            ShowsReverse(byEvidence - {EvidenceKey(c.meta.scope, m, r)}, cells[r := c])
    ensures c.cites == cells[r].cites + {m} ==>
            ShowsReverse(byEvidence + {EvidenceKey(c.meta.scope, m, r)}, cells[r := c])
  {
  }

  lemma RecordsFollow(undo: map<UndoKey, RelationUndo>, cells: map<RelationId, RelationCell>, r: RelationId,
                      m: MemoryId, c: RelationCell, rec: RelationUndo)
    requires ShowsRecords(undo, cells) && r in cells
    ensures c.undo == cells[r].undo ==> ShowsRecords(undo, cells[r := c])
    ensures c.undo == cells[r].undo[m := rec] ==> ShowsRecords(undo[UndoKey(m, r) := rec], cells[r := c])
    ensures c.undo == cells[r].undo - {m} ==> ShowsRecords(undo - {UndoKey(m, r)}, cells[r := c])
  {
  }

  /** The relations named by the reverse rows of `m` in `scope`. */
  function Named(byEvidence: set<EvidenceKey>, scope: Scope, m: MemoryId): (r: set<RelationId>)
    ensures forall x :: x in r <==> EvidenceKey(scope, m, x) in byEvidence
  {
    var r := set k | k in byEvidence && k.scope == scope && k.memory == m :: k.id;
    assert forall x | EvidenceKey(scope, m, x) in byEvidence :: EvidenceKey(scope, m, x).id in r;
    r
  }

  /** The relations a forget of `m` in `scope` reaches. */
  function Citing(cells: map<RelationId, RelationCell>, scope: Scope, m: MemoryId): set<RelationId>
  {
    set r | r in cells && cells[r].meta.scope == scope && m in cells[r].cites
  }

  function ForgetRelations(cells: map<RelationId, RelationCell>, batch: set<RelationId>, m: MemoryId,
                           soft: bool): map<RelationId, RelationCell>
  {
    map r | r in cells :: if r in batch then ForgetRelation(cells[r], m, soft) else cells[r]
  }

  function RevertRelations(cells: map<RelationId, RelationCell>, batch: set<RelationId>,
                           m: MemoryId): map<RelationId, RelationCell>
  {
    map r | r in cells :: if r in batch && m in cells[r].undo then RevertRelation(cells[r], m) else cells[r]
  }

  class RelationStore {
    var relations: map<RelationId, Meta>
    var byEvidence: set<EvidenceKey>
    var undo: map<UndoKey, RelationUndo>
    ghost var cells: map<RelationId, RelationCell>

    ghost predicate Valid()
      reads this
    {
      ShowsRelations(relations, byEvidence, undo, cells)
    }

    constructor (relations: map<RelationId, Meta>, byEvidence: set<EvidenceKey>, undo: map<UndoKey, RelationUndo>,
                 ghost cells: map<RelationId, RelationCell>)
      requires ShowsRelations(relations, byEvidence, undo, cells)
      ensures Valid() && this.relations == relations && this.byEvidence == byEvidence
      ensures this.undo == undo && this.cells == cells
    {
      this.relations, this.byEvidence, this.undo, this.cells := relations, byEvidence, undo, cells;
    }

    /** One reverse row of the forgotten memory; a row whose relation is gone is just dropped. */
    method ForgetOne(r: RelationId, scope: Scope, m: MemoryId, soft: bool)
      requires Valid() && EvidenceKey(scope, m, r) in byEvidence
      modifies this
      ensures Valid() && byEvidence == old(byEvidence) - {EvidenceKey(scope, m, r)}
      ensures cells == if r in old(cells) then old(cells)[r := ForgetRelation(old(cells[r]), m, soft)] else old(cells)
    {
      if r in relations {
        ForgetShows(relations, byEvidence, undo, cells, r, m, soft);
        var meta, rec := StripEvidence(relations[r], m);
        cells := cells[r := ForgetRelation(cells[r], m, soft)];
        relations := relations[r := meta];
        undo := if soft && rec.Some? then undo[UndoKey(m, r) := rec.value] else undo;
      }
      byEvidence := byEvidence - {EvidenceKey(scope, m, r)};
    }

    /** The relation part of `cascade_forget_to_edges`. */
    method Forget(scope: Scope, m: MemoryId, soft: bool)
      requires Valid()
      modifies this
      ensures Valid() && cells == ForgetRelations(old(cells), Citing(old(cells), scope, m), m, soft)
      ensures forall k :: k in byEvidence <==> k in old(byEvidence) && (k.scope != scope || k.memory != m)
    {
      var todo := Named(byEvidence, scope, m);
      ghost var was, all, done: set<RelationId> := cells, todo, {};
      assert ForgetRelations(was, {}, m, soft) == was;
      ForgetOnlyCiting(was, all, scope, m, soft);
      while todo != {}
        invariant Valid() && todo !! done && done + todo == all && cells == ForgetRelations(was, done, m, soft)
        invariant todo == Named(byEvidence, scope, m)
        invariant forall k: EvidenceKey | k.scope != scope || k.memory != m :: k in byEvidence <==> k in old(byEvidence)
        invariant byEvidence <= old(byEvidence)
        decreases todo
      {
        var r :| r in todo;
        ForgetGrows(was, done, r, m, soft);
        ForgetOne(r, scope, m, soft);
        todo, done := todo - {r}, done + {r};
      }
      assert done == all;
      assert forall k | k in byEvidence :: k == EvidenceKey(k.scope, k.memory, k.id);
    }

    /** One undo row: `revert_relation`, or nothing when the relation is gone; then delete it. */
    method RevertOne(r: RelationId, m: MemoryId)
      requires Valid() && UndoKey(m, r) in undo
      modifies this
      ensures Valid() && undo == old(undo) - {UndoKey(m, r)}
      ensures cells == if r in old(cells) then old(cells)[r := RevertRelation(old(cells[r]), m)] else old(cells)
    {
      if r in relations {
        RevertShows(relations, byEvidence, undo, cells, r, m);
        var meta := Reattach(relations[r], m, undo[UndoKey(m, r)]);
        cells := cells[r := RevertRelation(cells[r], m)];
        relations := relations[r := meta];
        byEvidence := byEvidence + {EvidenceKey(meta.scope, m, r)};
      }
      undo := undo - {UndoKey(m, r)};
    }
  }

  /** Drop the memory from the list; sole evidence tombstones the row and leaves the list alone. */
  method StripEvidence(meta: Meta, m: MemoryId) returns (meta': Meta, rec: Option<RelationUndo>)
    ensures (meta', rec) == Stripped(meta, m)
  {
    meta', rec := meta, None;
    var kept := Retain(meta.evidence, m);
    if kept == [] && !meta.tombstoned {
      meta' := meta.(tombstoned := true, isCurrent := false);
      rec := Some(RelationUndo(meta.isCurrent, TOMBSTONED));
    } else if |kept| < |meta.evidence| {
      meta' := meta.(evidence := kept);
      rec := Some(RelationUndo(meta.isCurrent, EVIDENCE_DROPPED));
    }
  }

  /** Re-attach the memory, and clear a tombstone this record set unless something superseded the row. */
  method Reattach(meta: Meta, m: MemoryId, rec: RelationUndo) returns (meta': Meta)
    ensures meta' == RelationCascade.Reattached(meta, m, rec)
  {
    meta' := meta;
    if m !in meta.evidence {
      meta' := meta'.(evidence := meta.evidence + [m]);
    }
    if rec.outcome == TOMBSTONED && meta.tombstoned && !meta.superseded {
      meta' := meta'.(tombstoned := false, isCurrent := rec.priorIsCurrent);
    }
  }

  lemma ForgetShows(relations: map<RelationId, Meta>, byEvidence: set<EvidenceKey>, undo: map<UndoKey, RelationUndo>,
                    cells: map<RelationId, RelationCell>, r: RelationId, m: MemoryId, soft: bool)
    requires ShowsRelations(relations, byEvidence, undo, cells) && r in cells
    ensures
      var (meta, rec) := Stripped(relations[r], m);
      ShowsRelations(relations[r := meta], byEvidence - {EvidenceKey(relations[r].scope, m, r)},
                     if soft && rec.Some? then undo[UndoKey(m, r) := rec.value] else undo,
                     cells[r := ForgetRelation(cells[r], m, soft)])
  {
    var c, rec := ForgetRelation(cells[r], m, soft), Stripped(relations[r], m).1;
    ReverseFollows(byEvidence, cells, r, m, c);
    RecordsFollow(undo, cells, r, m, c, if rec.Some? then rec.value else RelationUndo(false, KEPT_STALE));
  }

  lemma RevertShows(relations: map<RelationId, Meta>, byEvidence: set<EvidenceKey>, undo: map<UndoKey, RelationUndo>,
                    cells: map<RelationId, RelationCell>, r: RelationId, m: MemoryId)
    requires ShowsRelations(relations, byEvidence, undo, cells) && r in cells && UndoKey(m, r) in undo
    ensures m in cells[r].undo
    ensures
      var meta := RelationCascade.Reattached(relations[r], m, undo[UndoKey(m, r)]);
      ShowsRelations(relations[r := meta], byEvidence + {EvidenceKey(meta.scope, m, r)}, undo - {UndoKey(m, r)},
                     cells[r := RevertRelation(cells[r], m)])
  {
    var c := RevertRelation(cells[r], m);
    ReverseFollows(byEvidence, cells, r, m, c);
    RecordsFollow(undo, cells, r, m, c, undo[UndoKey(m, r)]);
  }

  lemma ForgetGrows(was: map<RelationId, RelationCell>, done: set<RelationId>, r: RelationId, m: MemoryId, soft: bool)
    requires r !in done
    ensures
      var cells := ForgetRelations(was, done, m, soft);
      ForgetRelations(was, done + {r}, m, soft) ==
        if r in cells then cells[r := ForgetRelation(cells[r], m, soft)] else cells
  {
  }

  lemma ForgetOnlyCiting(was: map<RelationId, RelationCell>, batch: set<RelationId>, scope: Scope, m: MemoryId,
                         soft: bool)
    requires forall r | r in was :: r in batch <==> r in Citing(was, scope, m)
    ensures ForgetRelations(was, batch, m, soft) == ForgetRelations(was, Citing(was, scope, m), m, soft)
  {
  }

  // ----- Reverting both kinds ----------------------------------------------

  /** What an undo row restores. */
  datatype Dependent = OfStatement(id: StatementId) | OfRelation(id: RelationId)

  function StatementsOf(deps: set<Dependent>): set<StatementId> { set d | d in deps && d.OfStatement? :: d.id }

  function RelationsOf(deps: set<Dependent>): set<RelationId> { set d | d in deps && d.OfRelation? :: d.id }

  /** The undo rows of `m`, of either kind. */
  function Pending(undo: map<UndoKey, Undo>, relationUndo: map<UndoKey, RelationUndo>, m: MemoryId): set<Dependent>
  {
    (set k | k in undo && k.memory == m :: OfStatement(k.id)) +
    (set k | k in relationUndo && k.memory == m :: OfRelation(k.id))
  }

  /** Take up to `cap` undo rows, in whatever order the table yields them. */
  method Pick(deps: set<Dependent>, cap: nat) returns (picked: set<Dependent>)
    ensures picked <= deps && (picked == deps || |picked| == Max(cap, 1)) && (picked == {} ==> deps == {})
  {
    picked := {};
    while picked != deps
      invariant picked <= deps && |picked| < Max(cap, 1)
      decreases deps - picked
    {
      assert deps - picked != {};
      var d :| d in deps - picked;
      picked := picked + {d};
      if |picked| >= cap {
        break;
      }
    }
  }

  /** The undo rows of `done` have been replayed since the first pair of cells. */
  predicate Replayed(statements: map<StatementId, Cell>, relations: map<RelationId, RelationCell>,
                     statements': map<StatementId, Cell>, relations': map<RelationId, RelationCell>,
                     done: set<Dependent>, m: MemoryId, agg: Aggregate, now: nat)
  {
    && statements' == RevertMany(statements, StatementsOf(done), m, agg, now)
    && relations' == RevertRelations(relations, RelationsOf(done), m)
  }

  lemma NothingReplayed(statements: map<StatementId, Cell>, relations: map<RelationId, RelationCell>, m: MemoryId,
                        agg: Aggregate, now: nat)
    ensures Replayed(statements, relations, statements, relations, {}, m, agg, now)
  {
    assert RevertMany(statements, {}, m, agg, now) == statements && RevertRelations(relations, {}, m) == relations;
    assert StatementsOf({}) == {} && RelationsOf({}) == {};
  }

  lemma PartsJoin(a: set<Dependent>, b: set<Dependent>)
    requires a !! b
    ensures StatementsOf(a + b) == StatementsOf(a) + StatementsOf(b) && StatementsOf(a) !! StatementsOf(b)
    ensures RelationsOf(a + b) == RelationsOf(a) + RelationsOf(b) && RelationsOf(a) !! RelationsOf(b)
  {
    assert forall x | x in StatementsOf(a) :: OfStatement(x) in a;
    assert forall x | x in StatementsOf(b) :: OfStatement(x) in b;
    assert forall x | x in RelationsOf(a) :: OfRelation(x) in a;
    assert forall x | x in RelationsOf(b) :: OfRelation(x) in b;
  }

  lemma RelationBatchesMerge(cells: map<RelationId, RelationCell>, first: set<RelationId>, second: set<RelationId>,
                             m: MemoryId)
    requires first !! second
    ensures RevertRelations(RevertRelations(cells, first, m), second, m) == RevertRelations(cells, first + second, m)
  {
  }

  /** Replaying one set of undo rows and then another amounts to replaying both. */
  lemma ReplayMerges(s0: map<StatementId, Cell>, r0: map<RelationId, RelationCell>, s1: map<StatementId, Cell>,
                     r1: map<RelationId, RelationCell>, s2: map<StatementId, Cell>, r2: map<RelationId, RelationCell>,
                     first: set<Dependent>, second: set<Dependent>, m: MemoryId, agg: Aggregate, now: nat)
    requires Replayed(s0, r0, s1, r1, first, m, agg, now) && Replayed(s1, r1, s2, r2, second, m, agg, now)
    requires first !! second
    ensures Replayed(s0, r0, s2, r2, first + second, m, agg, now)
  {
    PartsJoin(first, second);
    RevertBatchesMerge(s0, StatementsOf(first), StatementsOf(second), m, agg, now);
    RelationBatchesMerge(r0, RelationsOf(first), RelationsOf(second), m);
  }

  lemma OneStatement(cells: map<StatementId, Cell>, s: StatementId, m: MemoryId, agg: Aggregate, now: nat)
    requires s in cells ==> m in cells[s].undo
    ensures RevertMany(cells, StatementsOf({OfStatement(s)}), m, agg, now) ==
            if s in cells then cells[s := RevertCell(cells[s], m, agg, now)] else cells
  {
    assert StatementsOf({OfStatement(s)}) == {s};
  }

  lemma OneRelation(cells: map<RelationId, RelationCell>, r: RelationId, m: MemoryId)
    requires r in cells ==> m in cells[r].undo
    ensures RevertRelations(cells, RelationsOf({OfRelation(r)}), m) ==
            if r in cells then cells[r := RevertRelation(cells[r], m)] else cells
  {
    assert RelationsOf({OfRelation(r)}) == {r};
  }

  lemma PendingLoses(undo: map<UndoKey, Undo>, relationUndo: map<UndoKey, RelationUndo>, m: MemoryId, x: nat)
    ensures Pending(undo - {UndoKey(m, x)}, relationUndo, m) == Pending(undo, relationUndo, m) - {OfStatement(x)}
    ensures Pending(undo, relationUndo - {UndoKey(m, x)}, m) == Pending(undo, relationUndo, m) - {OfRelation(x)}
  {
  }

  lemma PendingIsKeyed(undo: map<UndoKey, Undo>, relationUndo: map<UndoKey, RelationUndo>, m: MemoryId, d: Dependent)
    requires d in Pending(undo, relationUndo, m)
    ensures if d.OfStatement? then UndoKey(m, d.id) in undo else UndoKey(m, d.id) in relationUndo
  {
    if d.OfStatement? {
      var k :| k in undo && k.memory == m && OfStatement(k.id) == d;
      assert k == UndoKey(m, d.id);
    } else {
      var k :| k in relationUndo && k.memory == m && OfRelation(k.id) == d;
      assert k == UndoKey(m, d.id);
    }
  }

  method ReplayStatement(st: StatementStore, s: StatementId, m: MemoryId, agg: Aggregate, now: nat)
    requires st.Valid() && UndoKey(m, s) in st.t.undo
    modifies st
    ensures st.Valid() && st.t.undo == old(st.t.undo) - {UndoKey(m, s)}
    ensures st.cells == RevertMany(old(st.cells), StatementsOf({OfStatement(s)}), m, agg, now)
  {
    OneStatement(st.cells, s, m, agg, now);
    st.RevertOne(s, m, agg, now);
  }

  method ReplayRelation(rel: RelationStore, r: RelationId, m: MemoryId)
    requires rel.Valid() && UndoKey(m, r) in rel.undo
    modifies rel
    ensures rel.Valid() && rel.undo == old(rel.undo) - {UndoKey(m, r)}
    ensures rel.cells == RevertRelations(old(rel.cells), RelationsOf({OfRelation(r)}), m)
  {
    OneRelation(rel.cells, r, m);
    rel.RevertOne(r, m);
  }

  /** A replay of one kind of undo row leaves the other kind's rows alone. */
  lemma OtherKindStays(statements: map<StatementId, Cell>, relations: map<RelationId, RelationCell>, x: nat,
                       m: MemoryId, agg: Aggregate, now: nat)
    ensures RevertMany(statements, StatementsOf({OfRelation(x)}), m, agg, now) == statements
    ensures RevertRelations(relations, RelationsOf({OfStatement(x)}), m) == relations
  {
  }

  /** Replay and delete one undo row. */
  method ReplayOne(st: StatementStore, rel: RelationStore, d: Dependent, m: MemoryId, agg: Aggregate, now: nat)
    requires st.Valid() && rel.Valid() && d in Pending(st.t.undo, rel.undo, m)
    modifies st, rel
    ensures st.Valid() && rel.Valid() && Pending(st.t.undo, rel.undo, m) == old(Pending(st.t.undo, rel.undo, m)) - {d}
    ensures Replayed(old(st.cells), old(rel.cells), st.cells, rel.cells, {d}, m, agg, now)
  {
    PendingLoses(st.t.undo, rel.undo, m, d.id);
    PendingIsKeyed(st.t.undo, rel.undo, m, d);
    OtherKindStays(st.cells, rel.cells, d.id, m, agg, now);
    match d {
      case OfStatement(s) => ReplayStatement(st, s, m, agg, now);
      case OfRelation(r) => ReplayRelation(rel, r, m);
    }
  }

  /** Where a drain began: both kinds of cells, and the undo rows of the memory. */
  datatype Origin = Origin(statements: map<StatementId, Cell>, relations: map<RelationId, RelationCell>,
                           pending: set<Dependent>)

  /** The undo rows of `done` have been replayed and deleted since, and no others. */
  ghost predicate Replaying(st: StatementStore, rel: RelationStore, o: Origin, done: set<Dependent>, m: MemoryId,
                            agg: Aggregate, now: nat)
    reads st, rel
  {
    && st.Valid() && rel.Valid() && done <= o.pending && Pending(st.t.undo, rel.undo, m) == o.pending - done
    && Replayed(o.statements, o.relations, st.cells, rel.cells, done, m, agg, now)
  }

  /** Replay one more undo row after `done`. */
  method ReplayNext(st: StatementStore, rel: RelationStore, d: Dependent, m: MemoryId, agg: Aggregate, now: nat,
                    ghost o: Origin, ghost done: set<Dependent>)
    requires Replaying(st, rel, o, done, m, agg, now) && d in o.pending - done
    modifies st, rel
    ensures Replaying(st, rel, o, done + {d}, m, agg, now)
  {
    ghost var s1, r1 := st.cells, rel.cells;
    ReplayOne(st, rel, d, m, agg, now);
    ReplayMerges(o.statements, o.relations, s1, r1, st.cells, rel.cells, done, {d}, m, agg, now);
  }

  lemma SomeUnpicked(picked: set<Dependent>, replayed: set<Dependent>)
    requires replayed <= picked && replayed != picked
    ensures picked - replayed != {}
  {
    assert picked == replayed + (picked - replayed);
  }

  lemma OneMorePicked(pending: set<Dependent>, done: set<Dependent>, picked: set<Dependent>, replayed: set<Dependent>,
                      d: Dependent)
    requires picked <= pending - done && replayed <= picked && d in picked - replayed
    ensures d in pending - (done + replayed) && replayed + {d} <= picked
    ensures done + replayed + {d} == done + (replayed + {d}) && picked - (replayed + {d}) < picked - replayed
  {
  }

  /** Replay the collected undo rows one by one, after `done`. */
  method ReplayAll(st: StatementStore, rel: RelationStore, picked: set<Dependent>, m: MemoryId, agg: Aggregate,
                   now: nat, ghost o: Origin, ghost done: set<Dependent>)
    requires Replaying(st, rel, o, done, m, agg, now) && picked <= o.pending - done
    modifies st, rel
    ensures Replaying(st, rel, o, done + picked, m, agg, now)
  {
    var replayed: set<Dependent> := {};
    assert done + {} == done;
    while replayed != picked
      invariant replayed <= picked && Replaying(st, rel, o, done + replayed, m, agg, now)
      decreases picked - replayed
    {
      SomeUnpicked(picked, replayed);
      var d :| d in picked - replayed;
      OneMorePicked(o.pending, done, picked, replayed, d);
      ReplayNext(st, rel, d, m, agg, now, o, done + replayed);
      replayed := replayed + {d};
    }
  }

  /** One batch after `done`. */
  method ReplayBatch(st: StatementStore, rel: RelationStore, m: MemoryId, agg: Aggregate, now: nat, cap: nat,
                     ghost o: Origin, ghost done: set<Dependent>) returns (picked: set<Dependent>)
    requires Replaying(st, rel, o, done, m, agg, now)
    modifies st, rel
    ensures Replaying(st, rel, o, done + picked, m, agg, now)
    ensures picked <= o.pending - done && (picked == o.pending - done || |picked| == Max(cap, 1))
    ensures picked == {} ==> o.pending - done == {}
  {
    picked := Pick(Pending(st.t.undo, rel.undo, m), cap);
    ReplayAll(st, rel, picked, m, agg, now, o, done);
  }

  lemma BatchShrinksPending(pending: set<Dependent>, done: set<Dependent>, picked: set<Dependent>)
    requires done <= pending && picked <= pending - done && (picked == {} ==> pending - done == {})
    ensures picked != {} ==> pending - (done + picked) < pending - done
    ensures picked == {} ==> done + picked == done == pending
  {
  }

  lemma FromNothing(pending: set<Dependent>, picked: set<Dependent>)
    ensures {} + picked == picked && pending - {} == pending
  {
  }

  /** Batches until one is empty. */
  method ReplayRounds(st: StatementStore, rel: RelationStore, m: MemoryId, agg: Aggregate, now: nat, caps: nat -> nat,
                      ghost o: Origin)
    requires Replaying(st, rel, o, {}, m, agg, now)
    modifies st, rel
    ensures Replaying(st, rel, o, o.pending, m, agg, now)
  {
    ghost var done: set<Dependent> := {};
    var round, more := 0, true;
    while more
      invariant Replaying(st, rel, o, done, m, agg, now) && (!more ==> done == o.pending)
      decreases o.pending - done, more
    {
      var picked := ReplayBatch(st, rel, m, agg, now, caps(round), o, done);
      BatchShrinksPending(o.pending, done, picked);
      done := done + picked;
      more, round := picked != {}, round + 1;
    }
  }

  /** `cascade_revert_forget`. */
  method RevertBatch(st: StatementStore, rel: RelationStore, m: MemoryId, agg: Aggregate, now: nat, cap: nat)
    returns (picked: set<Dependent>)
    requires st.Valid() && rel.Valid()
    modifies st, rel
    ensures st.Valid() && rel.Valid()
    ensures Pending(st.t.undo, rel.undo, m) == old(Pending(st.t.undo, rel.undo, m)) - picked
    ensures picked <= old(Pending(st.t.undo, rel.undo, m))
    ensures picked == old(Pending(st.t.undo, rel.undo, m)) || |picked| == Max(cap, 1)
    ensures Replayed(old(st.cells), old(rel.cells), st.cells, rel.cells, picked, m, agg, now)
  {
    NothingReplayed(st.cells, rel.cells, m, agg, now);
    ghost var o := Origin(st.cells, rel.cells, Pending(st.t.undo, rel.undo, m));
    picked := ReplayBatch(st, rel, m, agg, now, cap, o, {});
    FromNothing(o.pending, picked);
  }

  /** Calling it until nothing is pending, with any cap each time, ends where one unbounded pass
      at the same clock would, and leaves no undo row of `m` behind. */
  method DrainRevert(st: StatementStore, rel: RelationStore, m: MemoryId, agg: Aggregate, now: nat, caps: nat -> nat)
    requires st.Valid() && rel.Valid()
    modifies st, rel
    ensures st.Valid() && rel.Valid() && Pending(st.t.undo, rel.undo, m) == {}
    ensures Replayed(old(st.cells), old(rel.cells), st.cells, rel.cells,
                     old(Pending(st.t.undo, rel.undo, m)), m, agg, now)
  {
    NothingReplayed(st.cells, rel.cells, m, agg, now);
    ghost var o := Origin(st.cells, rel.cells, Pending(st.t.undo, rel.undo, m));
    ReplayRounds(st, rel, m, agg, now, caps, o);
  }
}
