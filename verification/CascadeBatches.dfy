/** Draining a forget or a revert over many statements, whatever rows each batch picks. */
module CascadeBatches {
  import opened TwoTier
  import opened Cascade

  /** The arguments of one cascade call. */
  datatype Call = Call(memory: MemoryId, agg: Aggregate, now: nat, threshold: real, soft: bool)

  function AffectedIds(cells: map<StatementId, Cell>, m: MemoryId): set<StatementId>
  {
    set s | s in cells && Affected(cells[s], m)
  }

  function Forgot(c: Cell, call: Call): Cell
  {
    ForgetCell(c, call.memory, call.agg, call.now, call.threshold, call.soft)
  }

  function ForgetMany(cells: map<StatementId, Cell>, batch: set<StatementId>, call: Call): map<StatementId, Cell>
  {
    map s | s in cells :: if s in batch then Forgot(cells[s], call) else cells[s]
  }

  /** A forgotten statement is not affected again, whatever state its tables were in. */
  lemma ForgottenIsDone(c: Cell, call: Call)
    ensures !Affected(Forgot(c, call), call.memory)
  {
    if Doomed(c, call.memory, call.threshold) {
      assert Forgot(c, call).row.tombstoned;
    } else {
      ReclaimedIsDone(c, call);
    }
  }

  lemma ReclaimedIsDone(c: Cell, call: Call)
    ensures
      var r := Reclaim(Mutate(c, call.memory, call.agg, call.now, call.threshold, call.soft), Orphaned(c, call.memory));
      !Cites(r.row.inline, call.memory) && !Cites(ForgetSource(r), call.memory)
  {
    var m := call.memory;
    var r := Reclaim(Mutate(c, m, call.agg, call.now, call.threshold, call.soft), Orphaned(c, m));
    var left := Without(ForgetSource(c), m);
    assert r.row.inline == left || (r.row.inline == [] && ForgetSource(r) == left);
    assert forall e | e in left :: e.memory != m;
  }

  /** One batch takes exactly its statements off the affected set. */
  lemma BatchShrinks(cells: map<StatementId, Cell>, batch: set<StatementId>, call: Call)
    requires batch <= AffectedIds(cells, call.memory)
    ensures AffectedIds(ForgetMany(cells, batch, call), call.memory) == AffectedIds(cells, call.memory) - batch
  {
    forall s | s in batch
      ensures !Affected(Forgot(cells[s], call), call.memory)
    {
      ForgottenIsDone(cells[s], call);
    }
  }

  /** Two batches of affected statements amount to one. */
  lemma BatchesMerge(cells: map<StatementId, Cell>, first: set<StatementId>, second: set<StatementId>, call: Call)
    requires first !! second
    ensures ForgetMany(ForgetMany(cells, first, call), second, call) == ForgetMany(cells, first + second, call)
  {
  }

  /** To each statement, a drained soft forget is the forget event of a run. */
  lemma DrainedForgetIsApply(cells: map<StatementId, Cell>, call: Call, s: StatementId)
    requires s in cells && call.soft
    ensures ForgetMany(cells, AffectedIds(cells, call.memory), call)[s] ==
            Apply(cells[s], Forget(call.memory, call.now), call.agg, call.threshold)
  {
  }

  function PendingIds(cells: map<StatementId, Cell>, m: MemoryId): set<StatementId>
  {
    set s | s in cells && m in cells[s].undo
  }

  function RevertMany(cells: map<StatementId, Cell>, batch: set<StatementId>, m: MemoryId, agg: Aggregate,
                      now: nat): map<StatementId, Cell>
  {
    map s | s in cells :: if s in batch && m in cells[s].undo then RevertCell(cells[s], m, agg, now) else cells[s]
  }

  /** To each statement, a drained revert is the revert event of a run. */
  lemma DrainedRevertIsApply(cells: map<StatementId, Cell>, batch: set<StatementId>, m: MemoryId, agg: Aggregate,
                             now: nat, threshold: real, s: StatementId)
    requires s in cells && PendingIds(cells, m) <= batch
    ensures RevertMany(cells, batch, m, agg, now)[s] == Apply(cells[s], Revert(m, now), agg, threshold)
  {
    assert m in cells[s].undo ==> s in PendingIds(cells, m);
  }

  lemma RevertBatchShrinks(cells: map<StatementId, Cell>, batch: set<StatementId>, m: MemoryId, agg: Aggregate,
                           now: nat)
    ensures PendingIds(RevertMany(cells, batch, m, agg, now), m) == PendingIds(cells, m) - batch
  {
  }

  lemma RevertBatchesMerge(cells: map<StatementId, Cell>, first: set<StatementId>, second: set<StatementId>,
                           m: MemoryId, agg: Aggregate, now: nat)
    requires first !! second
    ensures RevertMany(RevertMany(cells, first, m, agg, now), second, m, agg, now)
         == RevertMany(cells, first + second, m, agg, now)
  {
  }

  /** Once drained, a further revert of the same memory changes nothing. */
  lemma DrainedRevertIsIdle(cells: map<StatementId, Cell>, batch: set<StatementId>, m: MemoryId, agg: Aggregate,
                            now: nat, later: nat)
    requires PendingIds(cells, m) <= batch
    ensures
      var drained := RevertMany(cells, batch, m, agg, now);
      PendingIds(drained, m) == {} && forall any :: RevertMany(drained, any, m, agg, later) == drained
  {
    RevertBatchShrinks(cells, batch, m, agg, now);
    var drained := RevertMany(cells, batch, m, agg, now);
    forall any: set<StatementId>
      ensures RevertMany(drained, any, m, agg, later) == drained
    {
      assert forall s | s in drained :: s !in PendingIds(drained, m);
    }
  }
}
