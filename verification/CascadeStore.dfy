/** The statement cascade over the tables: a forget scans a batch and then makes one pass per
    effect; a revert replays one undo row at a time. */
module CascadeStore {
  import opened Ranking
  import opened TwoTier
  import opened Cascade
  import opened CascadeTables
  import opened CascadeBatches

  /** A scanned row with what the later passes need. */
  datatype Snapshot = Snapshot(id: StatementId, row: Row, remaining: seq<Entry>, dropped: Option<Entry>)

  function SnapshotOf(s: StatementId, c: Cell, m: MemoryId): Snapshot
  {
    Snapshot(s, c.row, Without(ForgetSource(c), m), FirstOf(ForgetSource(c), m))
  }

  function Mutated(c: Cell, call: Call): Cell
  {
    Mutate(c, call.memory, call.agg, call.now, call.threshold, call.soft)
  }

  function Rekeyed(c: Cell, call: Call): Cell
  {
    Rekey(Mutated(c, call), c.row.confidence, Rescored(c, call.memory, call.agg, call.now))
  }

  /** A statement after the first `n` passes of a call. */
  function Stage(c: Cell, n: nat, call: Call): Cell
  {
    if n == 0 then c
    else if n == 1 then Mutated(c, call)
    else if n == 2 then Rekeyed(c, call)
    else if n == 3 then Reclaim(Rekeyed(c, call), Orphaned(c, call.memory))
    else Forgot(c, call)
  }

  predicate Batch(batch: seq<Snapshot>, cells: map<StatementId, Cell>, m: MemoryId)
  {
    && (forall i | 0 <= i < |batch| ::
          batch[i].id in cells && batch[i] == SnapshotOf(batch[i].id, cells[batch[i].id], m))
    && (forall i, j | 0 <= i < j < |batch| :: batch[i].id != batch[j].id)
  }

  function IdSet(batch: seq<Snapshot>): set<StatementId> { set i | 0 <= i < |batch| :: batch[i].id }

  lemma Pushed(batch: seq<Snapshot>, a: Snapshot, cells: map<StatementId, Cell>, m: MemoryId)
    requires Batch(batch, cells, m)
    requires a.id in cells && a == SnapshotOf(a.id, cells[a.id], m) && a.id !in IdSet(batch)
    ensures Batch(batch + [a], cells, m) && IdSet(batch + [a]) == IdSet(batch) + {a.id}
  {
    var pushed := batch + [a];
    forall i | 0 <= i < |batch|
      ensures batch[i].id in IdSet(batch) && pushed[i].id in IdSet(pushed)
    {
    }
    assert pushed[|batch|].id in IdSet(pushed);
    assert forall i | 0 <= i < |pushed| :: pushed[i] == if i < |batch| then batch[i] else a;
  }

  /** How many statements of a call met each outcome. */
  datatype CascadeSummary = CascadeSummary(evidenceDropped: nat, keptStale: nat, tombstoned: nat)

  function Keeping(after: map<StatementId, Cell>, ids: set<StatementId>): set<StatementId>
  {
    set s | s in ids && s in after && RevertSource(after[s]) != []
  }

  function Emptied(after: map<StatementId, Cell>, ids: set<StatementId>): set<StatementId>
  {
    set s | s in ids && s in after && RevertSource(after[s]) == [] && !after[s].row.tombstoned
  }

  function Fallen(after: map<StatementId, Cell>, ids: set<StatementId>): set<StatementId>
  {
    set s | s in ids && s in after && after[s].row.tombstoned
  }

  /** The counters tell how many statements of the batch kept some evidence, how many are live with none,
      and how many are tombstoned. */
  predicate Counts(summary: CascadeSummary, after: map<StatementId, Cell>, ids: set<StatementId>)
  {
    && summary.evidenceDropped == |Keeping(after, ids)| && summary.keptStale == |Emptied(after, ids)|
    && summary.tombstoned == |Fallen(after, ids)|
  }

  lemma OneMoreKeeping(after: map<StatementId, Cell>, ids: set<StatementId>, s: StatementId)
    requires s !in ids && s in after
    ensures |Keeping(after, ids + {s})| == |Keeping(after, ids)| + if RevertSource(after[s]) != [] then 1 else 0
  {
    assert Keeping(after, ids + {s}) == Keeping(after, ids) + if RevertSource(after[s]) != [] then {s} else {};
  }

  lemma OneMoreEmptied(after: map<StatementId, Cell>, ids: set<StatementId>, s: StatementId)
    requires s !in ids && s in after
    ensures |Emptied(after, ids + {s})|
         == |Emptied(after, ids)| + if RevertSource(after[s]) == [] && !after[s].row.tombstoned then 1 else 0
  {
    assert Emptied(after, ids + {s})
        == Emptied(after, ids) + if RevertSource(after[s]) == [] && !after[s].row.tombstoned then {s} else {};
  }

  lemma OneMoreFallen(after: map<StatementId, Cell>, ids: set<StatementId>, s: StatementId)
    requires s !in ids && s in after
    ensures |Fallen(after, ids + {s})| == |Fallen(after, ids)| + if after[s].row.tombstoned then 1 else 0
  {
    assert Fallen(after, ids + {s}) == Fallen(after, ids) + if after[s].row.tombstoned then {s} else {};
  }

  /** One more statement, by whether it kept evidence and whether it fell. */
  function Tallied(before: CascadeSummary, kept: bool, fell: bool): CascadeSummary
  {
    CascadeSummary(before.evidenceDropped + if kept then 1 else 0, before.keptStale + if kept || fell then 0 else 1,
                   before.tombstoned + if fell then 1 else 0)
  }

  lemma TalliedCounts(before: CascadeSummary, after: map<StatementId, Cell>, ids: set<StatementId>, s: StatementId)
    requires Counts(before, after, ids) && s !in ids && s in after
    requires after[s].row.tombstoned ==> RevertSource(after[s]) == []
    ensures Counts(Tallied(before, RevertSource(after[s]) != [], after[s].row.tombstoned), after, ids + {s})
  {
    OneMoreKeeping(after, ids, s);
    OneMoreEmptied(after, ids, s);
    OneMoreFallen(after, ids, s);
  }

  /** What a forget shows of what it read. */
  lemma ForgotShows(c: Cell, call: Call)
    requires Affected(c, call.memory)
    ensures
      var remaining, r := Without(ForgetSource(c), call.memory), Forgot(c, call);
      RevertSource(r) == remaining && (r.row.tombstoned <==> remaining == [] && 0.0 < call.threshold)
  {
    RewrittenIs(c, call.memory, call.agg, call.now, call.threshold, call.soft);
  }

  method TallyOne(before: CascadeSummary, a: Snapshot, call: Call) returns (summary: CascadeSummary)
    ensures summary == Tallied(before, a.remaining != [], a.remaining == [] && 0.0 < call.threshold)
  {
    if a.remaining != [] {
      summary := before.(evidenceDropped := before.evidenceDropped + 1);
    } else if 0.0 < call.threshold {
      summary := before.(tombstoned := before.tombstoned + 1);
    } else {
      summary := before.(keptStale := before.keptStale + 1);
    }
  }

  /** The counters of the mutate and tombstone passes. */
  method Tally(batch: seq<Snapshot>, call: Call, ghost was: map<StatementId, Cell>) returns (summary: CascadeSummary)
    requires Batch(batch, was, call.memory) && IdSet(batch) <= AffectedIds(was, call.memory)
    ensures Counts(summary, ForgetMany(was, IdSet(batch), call), IdSet(batch))
  {
    summary := CascadeSummary(0, 0, 0);
    ghost var after := ForgetMany(was, IdSet(batch), call);
    for i := 0 to |batch|
      invariant Counts(summary, after, IdSet(batch[..i]))
    {
      LaterIsNew(batch, i);
      ghost var s := batch[i].id;
      assert s in IdSet(batch);
      ForgotShows(was[s], call);
      TalliedCounts(summary, after, IdSet(batch[..i]), s);
      summary := TallyOne(summary, batch[i], call);
    }
    assert batch[..|batch|] == batch;
  }

  lemma LaterIsNew(batch: seq<Snapshot>, i: nat)
    requires i < |batch| && forall j, k | 0 <= j < k < |batch| :: batch[j].id != batch[k].id
    ensures batch[i].id !in IdSet(batch[..i]) && IdSet(batch[..i + 1]) == IdSet(batch[..i]) + {batch[i].id}
  {
    var init, more := batch[..i], batch[..i + 1];
    assert forall j | 0 <= j < i :: more[j] == init[j] == batch[j];
    assert more[i] == batch[i];
    forall j | 0 <= j < |init|
      ensures init[j].id in IdSet(init) && more[j].id in IdSet(more)
    {
    }
    assert more[i].id in IdSet(more);
    assert forall j | 0 <= j < |more| :: more[j] == if j < i then init[j] else batch[i];
  }

  /** Part of the way through a pass that takes `from` to `to`: the first `done` of the batch have moved. */
  predicate Midway(batch: seq<Snapshot>, from: map<StatementId, Cell>, to: map<StatementId, Cell>,
                   cells: map<StatementId, Cell>, done: nat)
  {
    && cells.Keys == from.Keys == to.Keys
    && (forall i | 0 <= i < |batch| ::
          batch[i].id in from && cells[batch[i].id] == if i < done then to[batch[i].id] else from[batch[i].id])
    && (forall s | s in from && s !in IdSet(batch) :: cells[s] == from[s] == to[s])
  }

  lemma MidwayAdvances(batch: seq<Snapshot>, from: map<StatementId, Cell>, to: map<StatementId, Cell>,
                       cells: map<StatementId, Cell>, done: nat)
    requires Midway(batch, from, to, cells, done) && done < |batch|
    requires forall i, j | 0 <= i < j < |batch| :: batch[i].id != batch[j].id
    ensures Midway(batch, from, to, cells[batch[done].id := to[batch[done].id]], done + 1)
  {
    assert batch[done].id in IdSet(batch);
  }

  lemma MidwayEnds(batch: seq<Snapshot>, from: map<StatementId, Cell>, to: map<StatementId, Cell>,
                   cells: map<StatementId, Cell>)
    requires Midway(batch, from, to, cells, |batch|)
    ensures cells == to
  {
    forall s | s in from
      ensures cells[s] == to[s]
    {
      if s in IdSet(batch) {
        var i :| 0 <= i < |batch| && batch[i].id == s;
      }
    }
  }

  /** Every statement of the batch after its first `n` passes, the rest as they were. */
  function Passed(was: map<StatementId, Cell>, batch: seq<Snapshot>, n: nat, call: Call): map<StatementId, Cell>
  {
    map s | s in was :: if s in IdSet(batch) then Stage(was[s], n, call) else was[s]
  }

  lemma PassStarts(was: map<StatementId, Cell>, batch: seq<Snapshot>, n: nat, call: Call)
    requires Batch(batch, was, call.memory)
    ensures Midway(batch, Passed(was, batch, n, call), Passed(was, batch, n + 1, call), Passed(was, batch, n, call), 0)
    ensures forall i | 0 <= i < |batch| :: Passed(was, batch, n, call)[batch[i].id] == Stage(was[batch[i].id], n, call)
  {
    assert forall i | 0 <= i < |batch| :: batch[i].id in IdSet(batch);
  }

  lemma FirstAndLastPass(was: map<StatementId, Cell>, batch: seq<Snapshot>, call: Call)
    ensures Passed(was, batch, 0, call) == was
    ensures Passed(was, batch, 4, call) == ForgetMany(was, IdSet(batch), call)
  {
  }

  /** A list too long to inline, written under the id given or a new one. */
  function Spilled(c: Cell, prior: Option<nat>, es: seq<Entry>, confidence: real): Cell
  {
    var oid := if prior.Some? then prior.value else c.minted;
    c.(row := c.row.(confidence := confidence, inline := [], overflowId := Some(oid)),
       spill := c.spill[oid := es], minted := if prior.Some? then c.minted else oid + 1)
  }

  lemma SpilledInSteps(c: Cell, prior: Option<nat>, es: seq<Entry>, confidence: real, minted: Cell, r: Cell)
    requires
      var oid := if prior.Some? then prior.value else c.minted;
      && minted == c.(minted := if prior.Some? then c.minted else oid + 1)
      && r == minted.(row := minted.row.(confidence := confidence, inline := [], overflowId := Some(oid)),
                      spill := minted.spill[oid := es])
    ensures r == Spilled(c, prior, es, confidence)
  {
  }

  lemma SpilledIs(c: Cell, es: seq<Entry>, prior: Option<nat>, confidence: real)
    requires |es| > INLINE_EVIDENCE_CAP
    ensures Shrunk(c, es, confidence) == Spilled(c, c.row.overflowId, es, confidence)
    ensures StoreBack(c.(row := c.row.(confidence := confidence)), es, prior)
         == Spilled(c, if c.row.overflowId.Some? then c.row.overflowId else prior, es, confidence)
  {
  }

  lemma FlipIsMarks(listing: Listing, current: bool)
    ensures Marked(Marked(listing, !current, false), current, true) == Flipped(listing, current)
  {
  }

  lemma Overwrites(cells: map<StatementId, Cell>, s: StatementId, a: Cell, b: Cell)
    ensures cells[s := a][s := b] == cells[s := b]
  {
  }

  /** `done` has been forgotten since `was`, and what is still affected is the rest. */
  predicate Draining(was: map<StatementId, Cell>, done: set<StatementId>, cells: map<StatementId, Cell>, call: Call)
  {
    && done <= AffectedIds(was, call.memory) && cells == ForgetMany(was, done, call)
    && AffectedIds(cells, call.memory) == AffectedIds(was, call.memory) - done
  }

  lemma DrainStep(was: map<StatementId, Cell>, done: set<StatementId>, cells: map<StatementId, Cell>,
                  ids: set<StatementId>, call: Call)
    requires Draining(was, done, cells, call) && ids <= AffectedIds(cells, call.memory)
    ensures Draining(was, done + ids, ForgetMany(cells, ids, call), call)
  {
    BatchShrinks(cells, ids, call);
    BatchesMerge(was, done, ids, call);
  }

  lemma DrainStarts(was: map<StatementId, Cell>, call: Call)
    ensures Draining(was, {}, was, call)
  {
    assert ForgetMany(was, {}, call) == was;
  }

  class StatementStore {
    var t: Tables
    ghost var cells: map<StatementId, Cell>
    ghost const strays: Strays

    /** The tables show the cells; the rows of no statement are those the transaction began with. */
    ghost predicate Valid()
      reads this
    {
      Shows(t, cells) && StraysOf(t) == strays
    }

    /** A write transaction over existing tables. */
    constructor (t: Tables, ghost cells: map<StatementId, Cell>)
      requires Shows(t, cells)
      ensures Valid() && this.t == t && this.cells == cells
    {
      this.t, this.cells, strays := t, cells, StraysOf(t);
    }

    /** The tables now show `c` for `s`, and what `was` said for every other statement. */
    ghost predicate Became(s: StatementId, c: Cell, was: map<StatementId, Cell>)
      reads this
    {
      Valid() && s in was && cells == was[s := c]
    }

    method PutRow(s: StatementId, row: Row)
      requires Valid() && s in cells && SamePlace(row, cells[s].row)
      modifies this
      ensures Became(s, old(cells[s]).(row := row), old(cells))
      ensures t.undo == old(t.undo)
    {
      WriteRow(t, cells, s, row);
      t := t.(statements := t.statements[s := row]);
      cells := cells[s := cells[s].(row := row)];
    }

    method PutOverflow(s: StatementId, serial: nat, es: seq<Entry>)
      requires Valid() && s in cells
      modifies this
      ensures Became(s, old(cells[s]).(spill := old(cells[s].spill)[serial := es]), old(cells))
      ensures t.undo == old(t.undo)
    {
      WriteOverflow(t, cells, s, serial, es);
      t := t.(overflow := t.overflow[OverflowId(s, serial) := es]);
      cells := cells[s := cells[s].(spill := cells[s].spill[serial := es])];
    }

    method DropOverflow(s: StatementId, serial: nat)
      requires Valid() && s in cells
      modifies this
      ensures Became(s, old(cells[s]).(spill := old(cells[s].spill) - {serial}), old(cells))
      ensures t.undo == old(t.undo)
    {
      RemoveOverflow(t, cells, s, serial);
      t := t.(overflow := t.overflow - {OverflowId(s, serial)});
      cells := cells[s := cells[s].(spill := cells[s].spill - {serial})];
    }

    method MintOverflowId(s: StatementId) returns (serial: nat)
      requires Valid() && s in cells
      modifies this
      ensures serial == old(cells[s].minted) && Became(s, old(cells[s]).(minted := serial + 1), old(cells))
      ensures t.undo == old(t.undo)
    {
      serial := t.minted[s];
      WriteMinted(t, cells, s, serial + 1);
      t := t.(minted := t.minted[s := serial + 1]);
      cells := cells[s := cells[s].(minted := serial + 1)];
    }

    /** Insert or remove the reverse-evidence row of `m`. */
    method SetCite(s: StatementId, m: MemoryId, present: bool)
      requires Valid() && s in cells
      modifies this
      ensures Became(s, old(cells[s]).(cites := Toggled(old(cells[s].cites), m, present)), old(cells))
      ensures t.undo == old(t.undo)
    {
      var key := EvidenceKey(t.statements[s].scope, m, s);
      WriteEvidence(t, cells, s, m, present);
      t := t.(byEvidence := Toggled(t.byEvidence, key, present));
      cells := cells[s := cells[s].(cites := Toggled(cells[s].cites, m, present))];
    }

    /** Insert or remove the predicate row under bucket `b`. */
    method SetBucket(s: StatementId, b: nat, present: bool)
      requires Valid() && s in cells
      modifies this
      ensures Became(s, old(cells[s]).(buckets := Toggled(old(cells[s].buckets), b, present)), old(cells))
      ensures t.undo == old(t.undo)
    {
      var key := KeyFor(t.statements[s], b, s);
      WritePredicate(t, cells, s, b, present);
      t := t.(byPredicate := Toggled(t.byPredicate, key, present));
      cells := cells[s := cells[s].(buckets := Toggled(cells[s].buckets, b, present))];
    }

    /** Insert or remove the by-subject row with this current bit. */
    method SetSubject(s: StatementId, current: bool, present: bool)
      requires Valid() && s in cells
      modifies this
      ensures Became(s, old(cells[s]).(listing := Marked(old(cells[s].listing), current, present)), old(cells))
      ensures t.undo == old(t.undo)
    {
      var key := SubjectFor(t.statements[s], current, s);
      WriteSubject(t, cells, s, current, present);
      t := t.(bySubject := Toggled(t.bySubject, key, present));
      cells := cells[s := cells[s].(listing := Marked(cells[s].listing, current, present))];
    }

    /** `flip_by_subject_to_current` and `flip_by_subject_to_noncurrent`. */
    method FlipSubject(s: StatementId, current: bool)
      requires Valid() && s in cells
      modifies this
      ensures Became(s, old(cells[s]).(listing := Flipped(old(cells[s].listing), current)), old(cells))
      ensures t.undo == old(t.undo)
    {
      FlipIsMarks(cells[s].listing, current);
      SetSubject(s, !current, false);
      ghost var removed := cells;
      SetSubject(s, current, true);
      Overwrites(old(cells), s, removed[s], cells[s]);
    }

    /** Insert or remove the embed-queue row. */
    method SetQueued(s: StatementId, present: bool)
      requires Valid() && s in cells
      modifies this
      ensures Became(s, old(cells[s]).(listing := old(cells[s].listing).(queued := present)), old(cells))
      ensures t.undo == old(t.undo)
    {
      WriteQueue(t, cells, s, present);
      t := t.(embedQueue := Toggled(t.embedQueue, s, present));
      cells := cells[s := cells[s].(listing := cells[s].listing.(queued := present))];
    }

    method PutUndoRow(s: StatementId, m: MemoryId, rec: Undo)
      requires Valid() && s in cells
      modifies this
      ensures Became(s, old(cells[s]).(undo := old(cells[s].undo)[m := rec]), old(cells))
    {
      WriteUndo(t, cells, s, m, rec);
      t := t.(undo := t.undo[UndoKey(m, s) := rec]);
      cells := cells[s := cells[s].(undo := cells[s].undo[m := rec])];
    }

    /** Delete an undo row, whether or not its statement is still there. */
    method DropUndoRow(s: StatementId, m: MemoryId)
      requires Valid()
      modifies this
      ensures Valid() && t == old(t).(undo := old(t.undo) - {UndoKey(m, s)})
      ensures cells == if s !in old(cells) then old(cells)
                       else old(cells)[s := old(cells[s]).(undo := old(cells[s].undo) - {m})]
    {
      RemoveUndo(t, cells, s, m);
      if s in t.statements {
        cells := cells[s := cells[s].(undo := cells[s].undo - {m})];
      }
      t := t.(undo := t.undo - {UndoKey(m, s)});
    }

    /** `load_overflow_entries` for a row, if its overflow row is there. */
    method LoadOverflow(s: StatementId) returns (r: Option<seq<Entry>>)
      requires Valid() && s in cells
      ensures
        var c := cells[s];
        r == if c.row.overflowId.Some? && c.row.overflowId.value in c.spill then Some(c.spill[c.row.overflowId.value])
             else None
    {
      var oid := t.statements[s].overflowId;
      r := None;
      if oid.Some? && OverflowId(s, oid.value) in t.overflow {
        r := Some(t.overflow[OverflowId(s, oid.value)]);
      }
    }

    // ----- One statement at a time -----------------------------------------

    /** The overflow id to write under: the one given, or a new one. */
    method ReuseOrMint(s: StatementId, prior: Option<nat>) returns (oid: nat)
      requires Valid() && s in cells
      modifies this
      ensures oid == if prior.Some? then prior.value else old(cells[s].minted)
      ensures Became(s, old(cells[s]).(minted := if prior.Some? then old(cells[s].minted) else oid + 1), old(cells))
      ensures t.undo == old(t.undo)
    {
      if prior.Some? {
        oid := prior.value;
        assert cells == cells[s := cells[s]];
      } else {
        oid := MintOverflowId(s);
      }
    }

    method SpillEvidence(s: StatementId, oid: nat, es: seq<Entry>, confidence: real)
      requires Valid() && s in cells
      modifies this
      ensures
        var c := old(cells[s]);
        Became(s, c.(row := c.row.(confidence := confidence, inline := [], overflowId := Some(oid)),
                     spill := c.spill[oid := es]), old(cells))
      ensures t.undo == old(t.undo)
    {
      var row := t.statements[s];
      PutOverflow(s, oid, es);
      ghost var spilled := cells;
      PutRow(s, row.(confidence := confidence, inline := [], overflowId := Some(oid)));
      Overwrites(old(cells), s, spilled[s], cells[s]);
    }

    method Spill(s: StatementId, prior: Option<nat>, es: seq<Entry>, confidence: real)
      requires Valid() && s in cells
      modifies this
      ensures Became(s, Spilled(old(cells[s]), prior, es, confidence), old(cells))
      ensures t.undo == old(t.undo)
    {
      var oid := ReuseOrMint(s, prior);
      ghost var minted := cells;
      SpillEvidence(s, oid, es, confidence);
      SpilledInSteps(old(cells[s]), prior, es, confidence, minted[s], cells[s]);
      Overwrites(old(cells), s, minted[s], cells[s]);
    }

    method WriteBack(s: StatementId, remaining: seq<Entry>, confidence: real)
      requires Valid() && s in cells
      modifies this
      ensures Became(s, Shrunk(old(cells[s]), remaining, confidence), old(cells))
    {
      var row := t.statements[s];
      if |remaining| <= INLINE_EVIDENCE_CAP {
        PutRow(s, row.(confidence := confidence, inline := remaining, overflowId := None));
      } else {
        SpilledIs(cells[s], remaining, None, confidence);
        Spill(s, row.overflowId, remaining, confidence);
      }
    }

    /** One affected statement of the mutate pass. */
    method MutateOne(a: Snapshot, call: Call)
      requires Valid() && a.id in cells && a == SnapshotOf(a.id, cells[a.id], call.memory)
      modifies this
      ensures Became(a.id, Stage(old(cells[a.id]), 1, call), old(cells))
    {
      var confidence := if a.remaining == [] then 0.0 else call.agg(a.remaining, call.now, a.row.kind);
      WriteBack(a.id, a.remaining, confidence);
      ghost var written := cells;
      SetCite(a.id, call.memory, false);
      ghost var stripped := cells;
      Overwrites(old(cells), a.id, written[a.id], stripped[a.id]);
      if call.soft && a.dropped.Some? {
        var outcome := if a.remaining != [] then EVIDENCE_DROPPED
                       else if 0.0 < call.threshold then TOMBSTONED else KEPT_STALE;
        PutUndoRow(a.id, call.memory, Undo(a.dropped.value, a.row.isCurrent, a.row.overflowId, outcome));
        Overwrites(old(cells), a.id, stripped[a.id], cells[a.id]);
      }
    }

    /** `rekey_predicate_index`. */
    method RekeyOne(s: StatementId, oldConfidence: real, newConfidence: real)
      requires Valid() && s in cells
      modifies this
      ensures Became(s, Rekey(old(cells[s]), oldConfidence, newConfidence), old(cells))
      ensures t.undo == old(t.undo)
    {
      if Bucket(oldConfidence) == Bucket(newConfidence) {
        assert cells == cells[s := cells[s]];
      } else {
        SetBucket(s, Bucket(oldConfidence), false);
        ghost var removed := cells;
        SetBucket(s, Bucket(newConfidence), true);
        Overwrites(old(cells), s, removed[s], cells[s]);
      }
    }

    method ReclaimOne(s: StatementId, oid: Option<nat>)
      requires Valid() && s in cells
      modifies this
      ensures Became(s, Reclaim(old(cells[s]), oid), old(cells))
      ensures t.undo == old(t.undo)
    {
      if oid.Some? {
        DropOverflow(s, oid.value);
      } else {
        assert cells == cells[s := cells[s]];
      }
    }

    /** `statement_tombstone` with reason `SourceMemoryForgotten`. */
    method TombstoneOne(s: StatementId)
      requires Valid() && s in cells
      modifies this
      ensures Became(s, TombstoneCell(old(cells[s])), old(cells))
    {
      var row := t.statements[s];
      if row.tombstoned {
        assert cells == cells[s := cells[s]];
        return;
      }
      PutRow(s, row.(tombstoned := true, reason := SourceMemoryForgotten, isCurrent := false));
      ghost var marked := cells;
      if row.isCurrent {
        Unlist(s, Bucket(row.confidence));
        Overwrites(old(cells), s, marked[s], cells[s]);
      }
      ghost var unlisted := cells;
      SetQueued(s, false);
      Overwrites(old(cells), s, unlisted[s], cells[s]);
    }

    /** The index teardown of a current row's tombstone. */
    method Unlist(s: StatementId, b: nat)
      requires Valid() && s in cells
      modifies this
      ensures
        var c := old(cells[s]);
        Became(s, c.(listing := Flipped(c.listing, false), buckets := c.buckets - {b}), old(cells))
    {
      FlipSubject(s, false);
      ghost var flipped := cells;
      SetBucket(s, b, false);
      Overwrites(old(cells), s, flipped[s], cells[s]);
    }

    method RekeyPass(a: Snapshot, call: Call, ghost c: Cell)
      requires Valid() && a == SnapshotOf(a.id, c, call.memory) && a.id in cells && cells[a.id] == Mutated(c, call)
      modifies this
      ensures Became(a.id, Rekeyed(c, call), old(cells))
    {
      var confidence := if a.remaining == [] then 0.0 else call.agg(a.remaining, call.now, a.row.kind);
      RekeyOne(a.id, a.row.confidence, confidence);
    }

    method TombstonePass(a: Snapshot, call: Call, ghost c: Cell)
      requires Valid() && a == SnapshotOf(a.id, c, call.memory) && a.id in cells && cells[a.id] == Stage(c, 3, call)
      modifies this
      ensures Became(a.id, Forgot(c, call), old(cells))
    {
      if a.remaining == [] && 0.0 < call.threshold {
        TombstoneOne(a.id);
      } else {
        assert cells == cells[a.id := cells[a.id]];
      }
    }

    /** Pass `n` for one statement: mutate, re-key, reclaim, tombstone. */
    method PassOne(a: Snapshot, n: nat, call: Call, ghost c: Cell)
      requires Valid() && n < 4 && a == SnapshotOf(a.id, c, call.memory)
      requires a.id in cells && cells[a.id] == Stage(c, n, call)
      modifies this
      ensures Became(a.id, Stage(c, n + 1, call), old(cells))
    {
      if n == 0 {
        MutateOne(a, call);
      } else if n == 1 {
        RekeyPass(a, call, c);
      } else if n == 2 {
        ReclaimOne(a.id, if |a.remaining| <= INLINE_EVIDENCE_CAP then a.row.overflowId else None);
      } else {
        TombstonePass(a, call, c);
      }
    }

    // ----- One batch at a time ---------------------------------------------

    method SnapshotOne(s: StatementId, m: MemoryId) returns (a: Option<Snapshot>)
      requires Valid() && s in cells
      ensures a == if Affected(cells[s], m) then Some(SnapshotOf(s, cells[s], m)) else None
    {
      var row := t.statements[s];
      if row.tombstoned {
        return None;
      }
      var over := LoadOverflow(s);
      if Cites(row.inline, m) || (over.Some? && Cites(over.value, m)) {
        var source := if over.Some? then over.value else row.inline;
        return Some(Snapshot(s, row, Without(source, m), FirstOf(source, m)));
      }
      a := None;
    }

    /** Collect affected statements until `cap` is reached, in whatever order the table yields them. */
    method Scan(m: MemoryId, cap: nat) returns (batch: seq<Snapshot>)
      requires Valid()
      ensures Batch(batch, cells, m) && IdSet(batch) <= AffectedIds(cells, m)
      ensures IdSet(batch) == AffectedIds(cells, m) || |batch| == Max(cap, 1)
    {
      batch := [];
      var todo := t.statements.Keys;
      while todo != {}
        invariant todo <= cells.Keys && IdSet(batch) !! todo
        invariant Batch(batch, cells, m) && |batch| < Max(cap, 1)
        invariant IdSet(batch) <= AffectedIds(cells, m) <= IdSet(batch) + todo
        decreases todo
      {
        var s :| s in todo;
        todo := todo - {s};
        var a := SnapshotOne(s, m);
        if a.Some? {
          Pushed(batch, a.value, cells, m);
          batch := batch + [a.value];
          if |batch| >= cap {
            break;
          }
        }
      }
    }

    method PassStep(batch: seq<Snapshot>, i: nat, n: nat, call: Call, ghost was: map<StatementId, Cell>,
                    ghost from: map<StatementId, Cell>, ghost to: map<StatementId, Cell>)
      requires Valid() && n < 4 && i < |batch| && Batch(batch, was, call.memory) && Midway(batch, from, to, cells, i)
      requires from[batch[i].id] == Stage(was[batch[i].id], n, call)
      requires to[batch[i].id] == Stage(was[batch[i].id], n + 1, call)
      modifies this
      ensures Valid() && Midway(batch, from, to, cells, i + 1)
    {
      MidwayAdvances(batch, from, to, cells, i);
      PassOne(batch[i], n, call, was[batch[i].id]);
    }

    /** One pass over the whole batch. */
    method RunPass(batch: seq<Snapshot>, n: nat, call: Call, ghost was: map<StatementId, Cell>)
      requires Valid() && n < 4 && Batch(batch, was, call.memory) && cells == Passed(was, batch, n, call)
      modifies this
      ensures Valid() && cells == Passed(was, batch, n + 1, call)
    {
      ghost var from, to := cells, Passed(was, batch, n + 1, call);
      PassStarts(was, batch, n, call);
      PassStarts(was, batch, n + 1, call);
      for i := 0 to |batch|
        invariant Valid() && Midway(batch, from, to, cells, i)
      {
        PassStep(batch, i, n, call, was, from, to);
      }
      MidwayEnds(batch, from, to, cells);
    }

    /** `cascade_forget_to_statements`: running every pass over the whole batch before the next
        comes to forgetting each statement of the batch on its own. */
    method ForgetBatch(call: Call, cap: nat) returns (batch: seq<Snapshot>, summary: CascadeSummary)
      requires Valid()
      modifies this
      ensures Valid() && cells == ForgetMany(old(cells), IdSet(batch), call)
      ensures IdSet(batch) <= AffectedIds(old(cells), call.memory)
      ensures IdSet(batch) == AffectedIds(old(cells), call.memory) || |batch| == Max(cap, 1)
      ensures Counts(summary, cells, IdSet(batch))
    {
      batch := Scan(call.memory, cap);
      ghost var was := cells;
      summary := Tally(batch, call, was);
      FirstAndLastPass(was, batch, call);
      for n := 0 to 4
        invariant Valid() && cells == Passed(was, batch, n, call)
      {
        RunPass(batch, n, call, was);
      }
    }

    /** One more batch of a drain. */
    method DrainRound(call: Call, cap: nat, ghost was: map<StatementId, Cell>, ghost done: set<StatementId>)
      returns (more: bool, ghost done': set<StatementId>)
      requires Valid() && Draining(was, done, cells, call)
      modifies this
      ensures Valid() && Draining(was, done', cells, call)
      ensures if more then done < done' else done' == AffectedIds(was, call.memory)
    {
      ghost var before := cells;
      var batch, _ := ForgetBatch(call, cap);
      DrainStep(was, done, before, IdSet(batch), call);
      done' := done + IdSet(batch);
      more := batch != [];
      if more {
        assert batch[0].id in IdSet(batch);
      }
    }

    /** Calling it until a batch comes back empty, with any cap each time, ends where one
        unbounded pass at the same clock would. */
    method DrainForget(call: Call, caps: nat -> nat)
      requires Valid()
      modifies this
      ensures Valid() && AffectedIds(cells, call.memory) == {}
      ensures cells == ForgetMany(old(cells), AffectedIds(old(cells), call.memory), call)
    {
      ghost var was, all, done: set<StatementId> := cells, AffectedIds(cells, call.memory), {};
      DrainStarts(was, call);
      var round, more := 0, true;
      while more
        invariant Valid() && Draining(was, done, cells, call) && (!more ==> done == all)
        decreases all - done, more
      {
        more, done := DrainRound(call, caps(round), was, done);
        round := round + 1;
      }
    }

    // ----- Revert ----------------------------------------------------------

    /** Write the evidence back inline, reclaiming the overflow row. */
    method RestoreInline(s: StatementId, es: seq<Entry>, confidence: real)
      requires Valid() && s in cells
      modifies this
      ensures
        var c := old(cells[s]);
        Became(s, Reclaim(c, c.row.overflowId).(
                    row := c.row.(confidence := confidence, inline := es, overflowId := None)), old(cells))
      ensures t.undo == old(t.undo)
    {
      var row := t.statements[s];
      ReclaimOne(s, row.overflowId);
      ghost var reclaimed := cells;
      PutRow(s, row.(confidence := confidence, inline := es, overflowId := None));
      Overwrites(old(cells), s, reclaimed[s], cells[s]);
    }

    /** Write the evidence back: inline when it fits, else under the current, recorded or a new id. */
    method RestoreEvidence(s: StatementId, es: seq<Entry>, prior: Option<nat>, confidence: real)
      requires Valid() && s in cells
      modifies this
      ensures
        var c := old(cells[s]);
        Became(s, StoreBack(c.(row := c.row.(confidence := confidence)), es, prior), old(cells))
      ensures t.undo == old(t.undo)
    {
      var row := t.statements[s];
      if |es| <= INLINE_EVIDENCE_CAP {
        RestoreInline(s, es, confidence);
      } else {
        SpilledIs(cells[s], es, prior, confidence);
        Spill(s, if row.overflowId.Some? then row.overflowId else prior, es, confidence);
      }
    }

    /** The index rows of a row that comes back, and its place in the embed queue. */
    method Relist(s: StatementId, b: nat, current: bool)
      requires Valid() && s in cells
      modifies this
      ensures
        var c := old(cells[s]);
        Became(s, c.(listing := (if current then Flipped(c.listing, true) else c.listing).(queued := true),
                     buckets := c.buckets + {b}), old(cells))
      ensures t.undo == old(t.undo)
    {
      assert cells == cells[s := cells[s]];
      if current {
        FlipSubject(s, true);
      }
      ghost var flipped := cells;
      SetBucket(s, b, true);
      ghost var listed := cells;
      Overwrites(old(cells), s, flipped[s], listed[s]);
      SetQueued(s, true);
      Overwrites(old(cells), s, listed[s], cells[s]);
    }

    /** Clear the tombstone and rejoin the indexes, or move a live row's entry. */
    method Revive(s: StatementId, priorIsCurrent: bool, oldConfidence: real)
      requires Valid() && s in cells
      modifies this
      ensures Became(s, Reactivate(old(cells[s]), priorIsCurrent, oldConfidence), old(cells))
      ensures t.undo == old(t.undo)
    {
      var row := t.statements[s];
      if row.tombstoned && row.reason == SourceMemoryForgotten {
        PutRow(s, row.(tombstoned := false, reason := NotTombstoned, isCurrent := priorIsCurrent));
        ghost var live := cells;
        Relist(s, Bucket(row.confidence), priorIsCurrent);
        Overwrites(old(cells), s, live[s], cells[s]);
      } else if !row.tombstoned {
        RekeyOne(s, oldConfidence, row.confidence);
      } else {
        assert cells == cells[s := cells[s]];
      }
    }

    method RevertEvidence(s: StatementId, rec: Undo, agg: Aggregate, now: nat)
      requires Valid() && s in cells
      modifies this
      ensures
        var c := old(cells[s]);
        var es := Reattached(RevertSource(c), rec.dropped);
        var scored := c.(row := c.row.(confidence := agg(es, now, c.row.kind)),
                       cites := c.cites + {rec.dropped.memory});
        Became(s, StoreBack(scored, es, rec.priorOverflow), old(cells))
      ensures t.undo == old(t.undo)
    {
      var row := t.statements[s];
      var over := LoadOverflow(s);
      var source := if row.overflowId.None? then row.inline else if over.Some? then over.value else [];
      var es := Reattached(source, rec.dropped);
      SetCite(s, rec.dropped.memory, true);
      ghost var cited := cells;
      RestoreEvidence(s, es, rec.priorOverflow, agg(es, now, row.kind));
      Overwrites(old(cells), s, cited[s], cells[s]);
    }

    /** `revert_statement` up to its undo row. */
    method RevertRow(s: StatementId, rec: Undo, agg: Aggregate, now: nat)
      requires Valid() && s in cells
      modifies this
      ensures Became(s, Reverted(old(cells[s]), rec, agg, now), old(cells))
      ensures t.undo == old(t.undo)
    {
      var confidence := t.statements[s].confidence;
      RevertEvidence(s, rec, agg, now);
      ghost var stored := cells;
      Revive(s, rec.priorIsCurrent, confidence);
      Overwrites(old(cells), s, stored[s], cells[s]);
    }

    method RevertPresent(s: StatementId, m: MemoryId, agg: Aggregate, now: nat)
      requires Valid() && s in cells && UndoKey(m, s) in t.undo
      modifies this
      ensures t.undo == old(t.undo) - {UndoKey(m, s)} && Became(s, RevertCell(old(cells[s]), m, agg, now), old(cells))
    {
      var rec := t.undo[UndoKey(m, s)];
      RevertedKeepsUndo(cells[s], rec, agg, now);
      RevertRow(s, rec, agg, now);
      ghost var restored := cells;
      DropUndoRow(s, m);
      Overwrites(old(cells), s, restored[s], cells[s]);
    }

    /** One undo row: `revert_statement`, or nothing when the statement is gone; then delete it. */
    method RevertOne(s: StatementId, m: MemoryId, agg: Aggregate, now: nat)
      requires Valid() && UndoKey(m, s) in t.undo
      modifies this
      ensures Valid() && t.undo == old(t.undo) - {UndoKey(m, s)}
      ensures cells == if s in old(cells) then old(cells)[s := RevertCell(old(cells[s]), m, agg, now)] else old(cells)
    {
      if s in t.statements {
        RevertPresent(s, m, agg, now);
      } else {
        DropUndoRow(s, m);
      }
    }
  }
}
