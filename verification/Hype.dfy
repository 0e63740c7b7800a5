/** The HyPE question index: many question points per memory, retired by tombstone. */
module Hype {
  import opened Ranking
  import opened TwoTier
  import opened TwoTierSearch
  import opened Tombstones
  import opened Escalation
  import opened MemoryHnsw
  import opened Collapse

  const HYPE_OVER_FACTOR: nat := 8

  datatype HypeResult = Hits(hits: seq<Hit<MemoryId>>) | EfSearchTooLarge

  lemma {:induction false} CurrentFrame(forward: seq<MemoryId>, points: seq<Vector>, dead: set<nat>, dead': set<nat>,
                                        memory: MemoryId)
    requires |forward| == |points|
    requires forall p | 0 <= p < |forward| && forward[p] == memory :: p in dead <==> p in dead'
    ensures Current(forward, points, dead, memory) == Current(forward, points, dead', memory)
  {
    if forward != [] {
      var n := |forward| - 1;
      CurrentFrame(forward[..n], points[..n], dead, dead', memory);
    }
  }

  lemma {:induction false} CurrentRetired(forward: seq<MemoryId>, points: seq<Vector>, dead: set<nat>, memory: MemoryId)
    requires |forward| == |points|
    requires forall p | 0 <= p < |forward| && forward[p] == memory :: p in dead
    ensures Current(forward, points, dead, memory) == []
  {
    if forward != [] {
      var n := |forward| - 1;
      CurrentRetired(forward[..n], points[..n], dead, memory);
    }
  }

  lemma CurrentSnoc(forward: seq<MemoryId>, points: seq<Vector>, dead: set<nat>, owner: MemoryId, vector: Vector,
                    memory: MemoryId)
    requires |forward| == |points| && |forward| !in dead
    ensures Current(forward + [owner], points + [vector], dead, memory)
         == Current(forward, points, dead, memory) + if owner == memory then [vector] else []
  {
    var f, p := forward + [owner], points + [vector];
    assert f[..|forward|] == forward && p[..|forward|] == points;
  }

  function Owners(memory: MemoryId, n: nat): (owners: seq<MemoryId>)
    ensures |owners| == n && forall i | 0 <= i < n :: owners[i] == memory
  {
    seq(n, i => memory)
  }

  lemma {:induction false} CurrentBatch(forward: seq<MemoryId>, points: seq<Vector>, dead: set<nat>, owner: MemoryId,
                                        vectors: seq<Vector>, memory: MemoryId)
    requires |forward| == |points|
    requires forall p | p in dead :: p < |forward|
    ensures Current(forward + Owners(owner, |vectors|), points + vectors, dead, memory)
         == Current(forward, points, dead, memory) + if owner == memory then vectors else []
  {
    if vectors == [] {
      assert forward + Owners(owner, 0) == forward && points + [] == points;
    } else {
      var n := |vectors| - 1;
      CurrentBatch(forward, points, dead, owner, vectors[..n], memory);
      CurrentSnoc(forward + Owners(owner, n), points + vectors[..n], dead, owner, vectors[n], memory);
      assert forward + Owners(owner, n) + [owner] == forward + Owners(owner, n + 1);
      assert points + vectors[..n] + [vectors[n]] == points + vectors;
      assert vectors == vectors[..n] + [vectors[n]];
    }
  }

  // ----- The map from memory to vectors that every run refines --------------

  datatype Op = Insert(owner: MemoryId, vector: Vector)
              | Refresh(owner: MemoryId, vectors: seq<Vector>)
              | Retire(owner: MemoryId)
              | Rebuild(rows: seq<(MemoryId, Vector)>)

  function Owned(rows: seq<(MemoryId, Vector)>, memory: MemoryId): seq<Vector>
  {
    if rows == [] then []
    else Owned(rows[..|rows| - 1], memory) + if rows[|rows| - 1].0 == memory then [rows[|rows| - 1].1] else []
  }

  function OwnerColumn(rows: seq<(MemoryId, Vector)>): (owners: seq<MemoryId>)
  {
    seq(|rows|, i requires 0 <= i < |rows| => rows[i].0)
  }

  function VectorColumn(rows: seq<(MemoryId, Vector)>): (vectors: seq<Vector>)
  {
    seq(|rows|, i requires 0 <= i < |rows| => rows[i].1)
  }

  lemma {:induction false} CurrentOfRows(rows: seq<(MemoryId, Vector)>, memory: MemoryId)
    ensures Current(OwnerColumn(rows), VectorColumn(rows), {}, memory) == Owned(rows, memory)
  {
    if rows != [] {
      var n := |rows| - 1;
      CurrentOfRows(rows[..n], memory);
      assert OwnerColumn(rows)[..n] == OwnerColumn(rows[..n]);
      assert VectorColumn(rows)[..n] == VectorColumn(rows[..n]);
    }
  }

  /** What one operation does to the vectors of `memory`. */
  function Apply(before: seq<Vector>, op: Op, memory: MemoryId): seq<Vector>
  {
    match op
    case Insert(owner, vector) => if owner == memory then before + [vector] else before
    case Refresh(owner, vectors) => if owner == memory then vectors else before
    case Retire(owner) => if owner == memory then [] else before
    case Rebuild(rows) => Owned(rows, memory)
  }

  lemma RebuiltRows(forward: seq<MemoryId>, points: seq<Vector>, dead: set<nat>, rows: seq<(MemoryId, Vector)>,
                    before: seq<Vector>, memory: MemoryId)
    requires forward == OwnerColumn(rows) && points == VectorColumn(rows) && dead == {}
    ensures Current(forward, points, dead, memory) == Apply(before, Rebuild(rows), memory)
    ensures FromRows(Current(forward, points, dead, memory), rows, memory)
  {
    CurrentOfRows(rows, memory);
    var index := OwnedIsFromRows(rows, memory);
  }

  function Run(ops: seq<Op>, memory: MemoryId): seq<Vector>
  {
    if ops == [] then [] else Apply(Run(ops[..|ops| - 1], memory), ops[|ops| - 1], memory)
  }

  predicate Resets(op: Op, memory: MemoryId)
  {
    op.Rebuild? || ((op.Refresh? || op.Retire?) && op.owner == memory)
  }

  function Inserted(ops: seq<Op>, memory: MemoryId): seq<Vector>
  {
    if ops == [] then []
    else
      var op := ops[|ops| - 1];
      Inserted(ops[..|ops| - 1], memory) + if op.Insert? && op.owner == memory then [op.vector] else []
  }

  lemma OneMoreOp(ops: seq<Op>, op: Op, memory: MemoryId)
    ensures Run(ops + [op], memory) == Apply(Run(ops, memory), op, memory)
    ensures Inserted(ops + [op], memory)
         == Inserted(ops, memory) + if op.Insert? && op.owner == memory then [op.vector] else []
  {
    assert (ops + [op])[..|ops|] == ops;
  }

  lemma UnresetOnlyInserts(before: seq<Vector>, op: Op, memory: MemoryId)
    requires !Resets(op, memory)
    ensures Apply(before, op, memory) == before + if op.Insert? && op.owner == memory then [op.vector] else []
  {
  }

  /** The rows of `memory`, each once and in order. */
  ghost predicate RowsOf(rows: seq<(MemoryId, Vector)>, memory: MemoryId, index: seq<nat>)
  {
    && (forall i | 0 <= i < |index| :: index[i] < |rows| && rows[index[i]].0 == memory)
    && (forall i, j | 0 <= i < j < |index| :: index[i] < index[j])
    && (forall r | 0 <= r < |rows| && rows[r].0 == memory :: r in index)
  }

  /** `vectors` are those of the memory's rows, in row order. */
  ghost predicate FromRows(vectors: seq<Vector>, rows: seq<(MemoryId, Vector)>, memory: MemoryId)
  {
    exists index :: RowsOf(rows, memory, index) && Picked(vectors, rows, index)
  }

  predicate Picked(vectors: seq<Vector>, rows: seq<(MemoryId, Vector)>, index: seq<nat>)
  {
    |vectors| == |index| && forall i | 0 <= i < |index| :: index[i] < |rows| && vectors[i] == rows[index[i]].1
  }

  lemma OneMorePicked(vectors: seq<Vector>, rows: seq<(MemoryId, Vector)>, index: seq<nat>, row: (MemoryId, Vector))
    requires Picked(vectors, rows, index)
    ensures Picked(vectors, rows + [row], index) && Picked(vectors + [row.1], rows + [row], index + [|rows|])
  {
  }

  lemma OneMoreRow(rows: seq<(MemoryId, Vector)>, row: (MemoryId, Vector), memory: MemoryId, index: seq<nat>)
    requires RowsOf(rows, memory, index)
    ensures RowsOf(rows + [row], memory, if row.0 == memory then index + [|rows|] else index)
  {
    var more, longer := if row.0 == memory then index + [|rows|] else index, rows + [row];
    forall r | 0 <= r < |longer| && longer[r].0 == memory ensures r in more {
      if r == |rows| {
        assert more[|index|] == r;
      } else {
        assert r in index && longer[r] == rows[r];
      }
    }
  }

  lemma {:induction false} OwnedIsFromRows(rows: seq<(MemoryId, Vector)>, memory: MemoryId) returns (index: seq<nat>)
    ensures RowsOf(rows, memory, index) && Picked(Owned(rows, memory), rows, index)
  {
    index := [];
    if rows != [] {
      var most, last := rows[..|rows| - 1], rows[|rows| - 1];
      var before := OwnedIsFromRows(most, memory);
      assert rows == most + [last];
      index := OneMoreOwned(Owned(most, memory), most, before, last, memory);
    }
  }

  lemma OneMoreOwned(vectors: seq<Vector>, rows: seq<(MemoryId, Vector)>, index: seq<nat>, row: (MemoryId, Vector),
                     memory: MemoryId) returns (more: seq<nat>)
    requires RowsOf(rows, memory, index) && Picked(vectors, rows, index)
    ensures RowsOf(rows + [row], memory, more)
    ensures Picked(vectors + if row.0 == memory then [row.1] else [], rows + [row], more)
  {
    OneMoreRow(rows, row, memory, index);
    OneMorePicked(vectors, rows, index, row);
    more := if row.0 == memory then index + [|rows|] else index;
    assert vectors + [] == vectors;
  }

  lemma {:induction false} SinceReset(earlier: seq<Op>, reset: Op, since: seq<Op>, memory: MemoryId)
    requires Resets(reset, memory) && forall op | op in since :: !Resets(op, memory)
    ensures Run(earlier + [reset] + since, memory) == Apply([], reset, memory) + Inserted(since, memory)
  {
    if since == [] {
      OneMoreOp(earlier, reset, memory);
      assert earlier + [reset] + since == earlier + [reset];
    } else {
      var most, last := since[..|since| - 1], since[|since| - 1];
      SinceReset(earlier, reset, most, memory);
      assert since == most + [last] && earlier + [reset] + since == earlier + [reset] + most + [last];
      OneMoreOp(earlier + [reset] + most, last, memory);
      OneMoreOp(most, last, memory);
      UnresetOnlyInserts(Run(earlier + [reset] + most, memory), last, memory);
    }
  }

  /** After any run, a memory holds what its last reset left, the refreshed batch, nothing, or its rows
      of the rebuild, and then what was inserted since. */
  lemma RunIsSinceLastReset(earlier: seq<Op>, reset: Op, since: seq<Op>, memory: MemoryId)
    requires Resets(reset, memory) && forall op | op in since :: !Resets(op, memory)
    ensures
      var held, after := Run(earlier + [reset] + since, memory), Inserted(since, memory);
      match reset
      case Refresh(_, vectors) => held == vectors + after
      case Retire(_) => held == after
      case Rebuild(rows) => exists first :: FromRows(first, rows, memory) && held == first + after
      case Insert(_, _) => false
  {
    SinceReset(earlier, reset, since, memory);
    if reset.Rebuild? {
      var index := OwnedIsFromRows(reset.rows, memory);
      assert FromRows(Owned(reset.rows, memory), reset.rows, memory);
    }
  }

  /** With no reset at all it holds every vector ever inserted. */
  lemma {:induction false} RunWithoutReset(ops: seq<Op>, memory: MemoryId)
    requires forall op | op in ops :: !Resets(op, memory)
    ensures Run(ops, memory) == Inserted(ops, memory)
  {
    if ops != [] {
      RunWithoutReset(ops[..|ops| - 1], memory);
      assert ops[|ops| - 1] in ops;
    }
  }

  function Listed(byMemory: map<MemoryId, seq<nat>>, memory: MemoryId): seq<nat>
  {
    if memory in byMemory then byMemory[memory] else []
  }

  /** `by_memory` lists only a memory's own points, and all of its live ones. */
  ghost predicate Consistent(forward: seq<MemoryId>, byMemory: map<MemoryId, seq<nat>>, dead: set<nat>)
  {
    && (forall m, p {:trigger p in Listed(byMemory, m)} | p in Listed(byMemory, m) :: p < |forward| && forward[p] == m)
    && (forall p | 0 <= p < |forward| && p !in dead :: p in Listed(byMemory, forward[p]))
    && (forall p | p in dead :: p < |forward|)
  }

  lemma PushKeepsConsistent(forward: seq<MemoryId>, byMemory: map<MemoryId, seq<nat>>, dead: set<nat>,
                            memory: MemoryId, ids: seq<nat>)
    requires Consistent(forward, byMemory[memory := ids], dead)
    ensures Consistent(forward + [memory], byMemory[memory := ids + [|forward|]], dead)
  {
    var f, before, after := forward + [memory], byMemory[memory := ids], byMemory[memory := ids + [|forward|]];
    assert forall m | m != memory :: Listed(after, m) == Listed(before, m);
    assert Listed(after, memory) == Listed(before, memory) + [|forward|];
  }

  lemma RelistKeepsConsistent(forward: seq<MemoryId>, byMemory: map<MemoryId, seq<nat>>, dead: set<nat>,
                              memory: MemoryId)
    requires Consistent(forward, byMemory, dead)
    ensures Consistent(forward, byMemory[memory := Listed(byMemory, memory)], dead)
  {
    var after := byMemory[memory := Listed(byMemory, memory)];
    forall m
      ensures Listed(after, m) == Listed(byMemory, m)
    {
    }
  }

  /** Once all points of `memory` are dead its list may be emptied or dropped. */
  lemma RetiredMayBeDropped(forward: seq<MemoryId>, byMemory: map<MemoryId, seq<nat>>, dead: set<nat>, memory: MemoryId)
    requires Consistent(forward, byMemory, dead)
    requires forall p | 0 <= p < |forward| && forward[p] == memory :: p in dead
    ensures Consistent(forward, byMemory[memory := []], dead)
    ensures Consistent(forward, byMemory - {memory}, dead)
  {
    var emptied, dropped := byMemory[memory := []], byMemory - {memory};
    forall m
      ensures Listed(emptied, m) == Listed(dropped, m) == if m == memory then [] else Listed(byMemory, m)
    {
    }
  }

  /** Killing exactly the listed points of `memory` kills all it has and no others. */
  lemma ListedAreAllLive(forward: seq<MemoryId>, byMemory: map<MemoryId, seq<nat>>, dead: set<nat>, memory: MemoryId,
                         dead': set<nat>)
    requires Consistent(forward, byMemory, dead)
    requires dead' == dead + set p | p in Listed(byMemory, memory)
    ensures Consistent(forward, byMemory, dead')
    ensures forall p | 0 <= p < |forward| && forward[p] == memory :: p in dead'
    ensures forall p | 0 <= p < |forward| && forward[p] != memory :: p in dead' <==> p in dead
  {
  }

  lemma BatchGrows(forward: seq<MemoryId>, points: seq<Vector>, memory: MemoryId, vectors: seq<Vector>, i: nat)
    requires i < |vectors|
    ensures forward + Owners(memory, i) + [memory] == forward + Owners(memory, i + 1)
    ensures points + vectors[..i] + [vectors[i]] == points + vectors[..i + 1]
  {
  }

  class HypeHnswIndex {
    const params: PoolParams
    const tombstones: TombstoneBitmap
    var forward: seq<MemoryId>
    var byMemory: map<MemoryId, seq<nat>>
    var points: seq<Vector>

    ghost predicate Valid()
      reads this, tombstones
    {
      && params.Validated() && tombstones.Valid()
      && |points| == |forward| <= MAX_POINTS
      && Consistent(forward, byMemory, tombstones.Ids())
    }

    ghost function Vectors(memory: MemoryId): seq<Vector>
      requires |points| == |forward|
      reads this, tombstones
    {
      Current(forward, points, tombstones.Ids(), memory)
    }

    constructor (validated: PoolParams)
      requires validated.Validated()
      ensures Valid() && fresh(tombstones) && forall m :: Vectors(m) == []
    {
      params, forward, byMemory, points := validated, [], map[], [];
      tombstones := new TombstoneBitmap();
    }

    /** The tables after one more point. */
    method AppendPoint(memory: MemoryId, vector: Vector)
      requires Valid() && |forward| < MAX_POINTS
      modifies this
      ensures Valid() && forward == old(forward) + [memory] && points == old(points) + [vector]
    {
      var ids := Listed(byMemory, memory);
      RelistKeepsConsistent(forward, byMemory, tombstones.Ids(), memory);
      PushKeepsConsistent(forward, byMemory, tombstones.Ids(), memory, ids);
      byMemory := byMemory[memory := ids + [|forward|]];
      forward, points := forward + [memory], points + [vector];
    }

    /** `insert`: one more question point, never rejected. */
    method InsertPoint(memory: MemoryId, vector: Vector)
      requires Valid() && |forward| < MAX_POINTS
      modifies this
      ensures Valid()
      ensures Vectors(memory) == old(Vectors(memory)) + [vector]
      ensures forall m | m != memory :: Vectors(m) == old(Vectors(m))
      ensures forall m :: Vectors(m) == Apply(old(Vectors(m)), Insert(memory, vector), m)
    {
      forall m ensures Current(forward + [memory], points + [vector], tombstones.Ids(), m)
                    == Vectors(m) + if memory == m then [vector] else [] {
        CurrentSnoc(forward, points, tombstones.Ids(), memory, vector, m);
      }
      AppendPoint(memory, vector);
    }

    /** Tombstone every point listed for `memory`: that is every live point it has. */
    method TombstonePoints(memory: MemoryId)
      requires Valid()
      modifies tombstones
      ensures Valid()
      ensures forall p | 0 <= p < |forward| && forward[p] == memory :: p in tombstones.Ids()
      ensures forall p | 0 <= p < |forward| && forward[p] != memory ::
              p in tombstones.Ids() <==> p in old(tombstones.Ids())
    {
      tombstones.SetAll(Listed(byMemory, memory));
      ListedAreAllLive(forward, byMemory, old(tombstones.Ids()), memory, tombstones.Ids());
    }

    /** `mark_memory_tombstoned`. */
    method MarkMemoryTombstoned(memory: MemoryId)
      requires Valid()
      modifies tombstones
      ensures Valid()
      ensures forall p | 0 <= p < |forward| && forward[p] == memory :: p in tombstones.Ids()
      ensures Vectors(memory) == [] && forall m | m != memory :: Vectors(m) == old(Vectors(m))
      ensures forall m :: Vectors(m) == Apply(old(Vectors(m)), Retire(memory), m)
    {
      ghost var before := tombstones.Ids();
      TombstonePoints(memory);
      CurrentRetired(forward, points, tombstones.Ids(), memory);
      forall m | m != memory ensures Vectors(m) == old(Vectors(m)) {
        CurrentFrame(forward, points, before, tombstones.Ids(), m);
      }
    }

    /** `refresh_memory`: old points retired, the new batch is all `by_memory` keeps. */
    method RefreshMemory(memory: MemoryId, vectors: seq<Vector>)
      requires Valid() && |forward| + |vectors| <= MAX_POINTS
      modifies this, tombstones
      ensures Valid()
      ensures Vectors(memory) == vectors && forall m | m != memory :: Vectors(m) == old(Vectors(m))
      ensures forall m :: Vectors(m) == Apply(old(Vectors(m)), Refresh(memory, vectors), m)
    {
      MarkMemoryTombstoned(memory);
      if vectors == [] {
        RetiredMayBeDropped(forward, byMemory, tombstones.Ids(), memory);
        byMemory := byMemory - {memory};
        return;
      }
      forall m ensures Current(forward + Owners(memory, |vectors|), points + vectors, tombstones.Ids(), m)
                    == Vectors(m) + if memory == m then vectors else [] {
        CurrentBatch(forward, points, tombstones.Ids(), memory, vectors, m);
      }
      var newIds := PushBatch(memory, vectors);
      byMemory := byMemory[memory := newIds];
    }

    /** The push loop of `refresh_memory`; the new ids stay in a local list until it ends. */
    method PushBatch(memory: MemoryId, vectors: seq<Vector>) returns (newIds: seq<nat>)
      requires Valid()
      requires forall p | 0 <= p < |forward| && forward[p] == memory :: p in tombstones.Ids()
      modifies this`forward, this`points
      ensures forward == old(forward) + Owners(memory, |vectors|) && points == old(points) + vectors
      ensures Consistent(forward, byMemory[memory := newIds], tombstones.Ids())
    {
      newIds := [];
      RetiredMayBeDropped(forward, byMemory, tombstones.Ids(), memory);
      for i := 0 to |vectors|
        invariant forward == old(forward) + Owners(memory, i) && points == old(points) + vectors[..i]
        invariant Consistent(forward, byMemory[memory := newIds], tombstones.Ids())
      {
        PushKeepsConsistent(forward, byMemory, tombstones.Ids(), memory, newIds);
        BatchGrows(old(forward), old(points), memory, vectors, i);
        newIds := newIds + [|forward|];
        forward, points := forward + [memory], points + [vectors[i]];
      }
    }

    /** A fresh graph with nothing in it; prior tombstones are forgotten. */
    method Reset()
      requires Valid()
      modifies this, tombstones
      ensures Valid() && forward == [] && points == [] && tombstones.Ids() == {}
    {
      forward, points, byMemory := [], [], map[];
      tombstones.Clear();
    }

    /** The insert loop of `rebuild`. */
    method AppendRows(rows: seq<(MemoryId, Vector)>) returns (inserted: nat)
      requires Valid() && |rows| <= MAX_POINTS && forward == [] && points == []
      modifies this
      ensures Valid() && inserted == |rows|
      ensures forward == OwnerColumn(rows) && points == VectorColumn(rows)
    {
      inserted := 0;
      while inserted < |rows|
        invariant inserted <= |rows| && Valid()
        invariant forward == OwnerColumn(rows[..inserted]) && points == VectorColumn(rows[..inserted])
      {
        AppendPoint(rows[inserted].0, rows[inserted].1);
        inserted := inserted + 1;
      }
      assert rows[..|rows|] == rows;
    }

    /** `rebuild`: reset, then insert the rows in order. */
    method RebuildFrom(rows: seq<(MemoryId, Vector)>) returns (inserted: nat)
      requires Valid() && |rows| <= MAX_POINTS
      modifies this, tombstones
      ensures Valid() && inserted == |rows| == |forward|
      ensures forall m :: FromRows(Vectors(m), rows, m)
      ensures forall m :: Vectors(m) == Apply(old(Vectors(m)), Rebuild(rows), m)
    {
      Reset();
      inserted := AppendRows(rows);
      forall m
        ensures FromRows(Vectors(m), rows, m) && Vectors(m) == Apply(old(Vectors(m)), Rebuild(rows), m)
      {
        RebuiltRows(forward, points, tombstones.Ids(), rows, old(Vectors(m)), m);
      }
    }

    /** The index as a pool of points. */
    function AsPool(): Pool<MemoryId>
      reads this, tombstones
    {
      Pool(forward, points, tombstones.bits)
    }

    function FetchSize(k: nat): nat
      reads this
    {
      Min(SatMul(k, HYPE_OVER_FACTOR), |forward|)
    }

    /**
     * `search_with_ef`: one fetch, no widening. With an exact graph every
     * reported score is its memory's true best, and no memory left out scores
     * above a returned one; the answer is complete if and only if `k` memories,
     * or all that are live, have a live point among the points fetched.
     */
    method SearchWithEf(graph: (nat, nat) -> seq<Neighbour>, score: Score, k: nat, ef: Option<nat>,
                        ghost order: seq<Neighbour>) returns (r: HypeResult)
      requires Valid() && k <= USIZE_MAX
      ensures r.EfSearchTooLarge? <==> k > 0 && |forward| > 0 && ef.Some? && ef.value > params.efSearchMax
      ensures r.Hits? ==> |r.hits| <= k && DistinctIds(r.hits) && Descending(r.hits)
      ensures r.Hits? && k > 0 && |forward| > 0 ==>
                var fetch := Min(Min(8 * k, USIZE_MAX), |forward|);
                var beam := Max(if ef.Some? then ef.value else params.efSearch, fetch);
                fetch == FetchSize(k) && IsTopK(r.hits, Best(AsPool(), graph(fetch, beam)), k)
      ensures r.Hits? && Exact(graph, order) && IsPointOrder(order, points, score) ==>
                var all := CurrentScores(AsPool(), score);
                && (forall m :: m in all <==> Vectors(m) != [])
                && (forall m | m in all :: all[m] == BestScore(Vectors(m), score))
                && Scored(r.hits, all)
                && (forall m, h | m in all && m !in Ids(r.hits) && h in r.hits :: all[m] <= h.score)
                && (IsTopK(r.hits, all, k) <==> Found(AsPool(), order, FetchSize(k)) >= Min(k, |all|))
                && (FetchSize(k) == |forward| ==> IsTopK(r.hits, all, k))
    {
      var pool := AsPool();
      ScoredHaveVectors(pool, score);
      if k == 0 || |forward| == 0 {
        assert |forward| == 0 ==> CurrentScores(pool, score) == map[];
        return Hits([]);
      }
      var fetch := FetchSize(k);
      if ef.Some? && ef.value > params.efSearchMax {
        return EfSearchTooLarge;
      }
      var beam := Max(if ef.Some? then ef.value else params.efSearch, fetch);
      var best := CollapseHits(pool, graph(fetch, beam));
      var hits := SortedItems(best, k);
      if Exact(graph, order) && IsPointOrder(order, points, score) {
        PointOrderLength(order, points, score);
        PrefixTopK(pool, order, fetch, k, hits);
        BestIsCurrent(pool, order, score);
      }
      return Hits(hits);
    }
  }

  // ----- One fetch can miss -----------------------------------------------------

  /** The word whose low `n` bits are set. */
  function Ones(n: nat): nat { if n == 0 then 0 else 1 + 2 * Ones(n - 1) }

  lemma {:induction false} OnesHas(n: nat, bit: nat)
    ensures Has(Ones(n), bit) <==> bit < n
    decreases bit
  {
    if n == 0 {
      ZeroHasNone(bit);
    } else if bit > 0 {
      OnesHas(n - 1, bit - 1);
    }
  }

  lemma {:induction false} DeadPointsGiveNothing(pool: Pool<MemoryId>, ns: seq<Neighbour>)
    requires forall n | n in ns :: !pool.Live(n)
    ensures Best(pool, ns) == map[]
  {
    if ns != [] {
      DeadPointsGiveNothing(pool, ns[..|ns| - 1]);
    }
  }

  /** Points 0 to 8, nearest first. */
  function NineInOrder(): (order: seq<Neighbour>)
    ensures |order| == 9 && forall i | 0 <= i < 9 :: order[i] == Neighbour(i, i as real)
  {
    seq(9, i requires 0 <= i < 9 => Neighbour(i, i as real))
  }

  /** Memory 1 was refreshed away eight times over, and memory 2 has the one live point, farther off:
      a search for one memory fetches the eight dead points and returns nothing. */
  lemma EightDeadHideOne(vectors: seq<Vector>)
    requires |vectors| == 9
    ensures
      var pool: Pool<MemoryId> := Pool([1, 1, 1, 1, 1, 1, 1, 1, 2], vectors, [255]);
      var order := NineInOrder();
      && Ranked(order) && SatMul(1, HYPE_OVER_FACTOR) == 8
      && Best(pool, order[..8]) == map[] && Best(pool, order) == map[2 := -7.0]
      && IsTopK([], Best(pool, order[..8]), 1) && !IsTopK([], Best(pool, order), 1)
  {
    var pool: Pool<MemoryId> := Pool([1, 1, 1, 1, 1, 1, 1, 1, 2], vectors, [255]);
    var order := NineInOrder();
    assert Ones(8) == 255;
    forall i: nat | i < 9 ensures Marked(pool.words, i) <==> i < 8 {
      OnesHas(8, i);
    }
    DeadPointsGiveNothing(pool, order[..8]);
    assert order[..|order| - 1] == order[..8] && order[8] == Neighbour(8, 8.0);
  }

  /** A memory is scored exactly when it has a live vector. */
  lemma ScoredHaveVectors(pool: Pool<MemoryId>, score: Score)
    requires pool.Valid()
    ensures forall m :: m in CurrentScores(pool, score) <==>
                        Current(pool.forward, pool.points, MarkedIds(pool.words), m) != []
  {
    forall m | Current(pool.forward, pool.points, MarkedIds(pool.words), m) != []
      ensures m in pool.forward
    {
      var vs := Current(pool.forward, pool.points, MarkedIds(pool.words), m);
      var p := CurrentIsLive(pool.forward, pool.points, MarkedIds(pool.words), m, vs[0]);
    }
  }
}
