/**
 * Many points, one target: raw hits collapsed to the best similarity per
 * target. Shared by the statement-question and the HyPE index.
 */
module Collapse {
  import opened Ranking
  import opened TwoTier
  import opened TwoTierSearch
  import opened Tombstones
  import opened MemoryHnsw
  import opened Escalation

  /** The knobs these pools share with the entity index. */
  datatype PoolParams = PoolParams(m: nat, efConstruction: nat, efSearch: nat, efSearchMax: nat) {
    predicate Validated()
    {
      && 4 <= m <= 64 && 50 <= efConstruction <= 500 && 10 <= efSearch <= 500
      && efSearch <= efSearchMax <= USIZE_MAX
    }
  }

  /** Point ids are 32-bit. */
  const MAX_POINTS: nat := 0x1_0000_0000

  /** Point id to target and to vector, and the tombstone words. */
  datatype Pool<T> = Pool(forward: seq<T>, points: seq<Vector>, words: seq<nat>) {
    predicate Valid() { |points| == |forward| <= MAX_POINTS }

    predicate Live(n: Neighbour) { n.dId < MAX_POINTS && !Marked(words, n.dId) && n.dId < |forward| }
  }

  function Improve<T>(best: map<T, real>, target: T, sim: real): map<T, real>
  {
    if target in best && best[target] >= sim then best else best[target := sim]
  }

  /** The `best` map after folding `ns` front to back. */
  function Best<T>(pool: Pool<T>, ns: seq<Neighbour>): map<T, real>
  {
    if ns == [] then map[]
    else
      var rest, n := Best(pool, ns[..|ns| - 1]), ns[|ns| - 1];
      if pool.Live(n) then Improve(rest, pool.forward[n.dId], 1.0 - n.distance) else rest
  }

  method CollapseHits<T(==)>(pool: Pool<T>, ns: seq<Neighbour>) returns (best: map<T, real>)
    ensures best == Best(pool, ns)
  {
    best := map[];
    for i := 0 to |ns|
      invariant best == Best(pool, ns[..i])
    {
      assert ns[..i + 1][..i] == ns[..i];
      if pool.Live(ns[i]) {
        var target, sim := pool.forward[ns[i].dId], 1.0 - ns[i].distance;
        if target !in best || sim > best[target] {
          best := best[target := sim];
        }
      }
    }
    assert ns[..|ns|] == ns;
  }

  predicate Answers<T(==)>(pool: Pool<T>, n: Neighbour, target: T)
  {
    pool.Live(n) && pool.forward[n.dId] == target
  }

  /** `best` holds, per target, the largest similarity of its live points, and nothing else. */
  lemma {:induction false} BestIsMax<T>(pool: Pool<T>, ns: seq<Neighbour>)
    ensures forall n | n in ns && pool.Live(n) ::
              pool.forward[n.dId] in Best(pool, ns) && Best(pool, ns)[pool.forward[n.dId]] >= 1.0 - n.distance
    ensures forall t | t in Best(pool, ns) ::
              exists n | n in ns :: Answers(pool, n, t) && Best(pool, ns)[t] == 1.0 - n.distance
  {
    if ns != [] {
      var init, last := ns[..|ns| - 1], ns[|ns| - 1];
      assert ns == init + [last];
      BestIsMax(pool, init);
    }
  }

  /** In a distance order, later points change no target found earlier and beat none. */
  lemma {:induction false} PrefixIsFinal<T>(pool: Pool<T>, order: seq<Neighbour>, n: nat)
    requires Ranked(order) && n <= |order|
    ensures
      var early, all := Best(pool, order[..n]), Best(pool, order);
      && early.Keys <= all.Keys
      && (forall t | t in early :: all[t] == early[t])
      && (forall t, u | t in all && t !in early && u in early :: all[t] <= early[u])
  {
    if n == |order| {
      assert order[..n] == order;
    } else {
      var init, last := order[..|order| - 1], order[|order| - 1];
      assert init[..n] == order[..n];
      PrefixIsFinal(pool, init, n);
      if pool.Live(last) {
        LastIsWorst(pool, order);
        WorstAddsOnlyNew(Best(pool, init), pool.forward[last.dId], 1.0 - last.distance);
      }
    }
  }

  lemma WorstAddsOnlyNew<T>(best: map<T, real>, target: T, sim: real)
    requires forall t | t in best :: best[t] >= sim
    ensures Improve(best, target, sim) == if target in best then best else best[target := sim]
  {
  }

  lemma LastIsWorst<T>(pool: Pool<T>, order: seq<Neighbour>)
    requires Ranked(order) && order != []
    ensures
      var earlier := Best(pool, order[..|order| - 1]);
      forall t | t in earlier :: earlier[t] >= 1.0 - order[|order| - 1].distance
  {
    var init := order[..|order| - 1];
    BestIsMax(pool, init);
    forall t | t in Best(pool, init)
      ensures Best(pool, init)[t] >= 1.0 - order[|order| - 1].distance
    {
      var n :| n in init && Answers(pool, n, t) && Best(pool, init)[t] == 1.0 - n.distance;
      var i :| 0 <= i < |init| && order[i] == n;
    }
  }

  /** How many targets have a live point among the `n` nearest. */
  function Found<T(==)>(pool: Pool<T>, order: seq<Neighbour>, n: nat): nat
  {
    |Best(pool, order[..Min(n, |order|)])|
  }

  /** A best-`k` answer over an early prefix is one over the whole order if and only if `k` targets, or
      all there are, were found. */
  lemma PrefixTopK<T>(pool: Pool<T>, order: seq<Neighbour>, n: nat, k: nat, hits: seq<Hit<T>>)
    requires Ranked(order) && n <= |order|
    requires IsTopK(hits, Best(pool, order[..n]), k)
    ensures Scored(hits, Best(pool, order))
    ensures forall t, h | t in Best(pool, order) && t !in Ids(hits) && h in hits :: Best(pool, order)[t] <= h.score
    ensures IsTopK(hits, Best(pool, order), k) <==> Found(pool, order, n) >= Min(k, |Best(pool, order)|)
    ensures n == |order| ==> Best(pool, order[..n]) == Best(pool, order)
  {
    var early, all := Best(pool, order[..n]), Best(pool, order);
    PrefixIsFinal(pool, order, n);
    SubsetSize(early.Keys, all.Keys);
    assert |early| == |early.Keys| && |all| == |all.Keys|;
    if n == |order| {
      assert order[..n] == order;
    }
  }

  // ----- True scores --------------------------------------------------------

  /** The live vectors of `target`, oldest first. */
  function Current<T(==)>(forward: seq<T>, points: seq<Vector>, dead: set<nat>, target: T): seq<Vector>
    requires |forward| == |points|
  {
    if forward == [] then []
    else
      var n := |forward| - 1;
      Current(forward[..n], points[..n], dead, target)
      + if forward[n] == target && n !in dead then [points[n]] else []
  }

  lemma {:induction false} LiveIsCurrent<T>(forward: seq<T>, points: seq<Vector>, dead: set<nat>, p: nat)
    requires |forward| == |points| && p < |forward| && p !in dead
    ensures points[p] in Current(forward, points, dead, forward[p])
  {
    var n := |forward| - 1;
    if p < n {
      LiveIsCurrent(forward[..n], points[..n], dead, p);
    }
  }

  lemma {:induction false} CurrentIsLive<T>(forward: seq<T>, points: seq<Vector>, dead: set<nat>, target: T, v: Vector)
    returns (p: nat)
    requires |forward| == |points| && v in Current(forward, points, dead, target)
    ensures p < |forward| && p !in dead && forward[p] == target && points[p] == v
  {
    var n := |forward| - 1;
    if v in Current(forward[..n], points[..n], dead, target) {
      p := CurrentIsLive(forward[..n], points[..n], dead, target, v);
    } else {
      p := n;
    }
  }

  function BestScore(vs: seq<Vector>, score: Score): (best: real)
    requires vs != []
    ensures forall v | v in vs :: score(v) <= best
  {
    var n := |vs| - 1;
    assert vs == vs[..n] + [vs[n]];
    if n == 0 then score(vs[0])
    else
      var rest := BestScore(vs[..n], score);
      if score(vs[n]) > rest then score(vs[n]) else rest
  }

  /** What a pool should report: every target with a live vector, at the best of its live vectors. */
  function CurrentScores<T(==)>(pool: Pool<T>, score: Score): map<T, real>
    requires pool.Valid()
  {
    map t | t in pool.forward && Current(pool.forward, pool.points, MarkedIds(pool.words), t) != []
      :: BestScore(Current(pool.forward, pool.points, MarkedIds(pool.words), t), score)
  }

  /** The points under their ids. */
  function Numbered(points: seq<Vector>): (vectors: map<nat, Vector>)
    ensures |vectors| == |points|
  {
    var vectors := map p | 0 <= p < |points| :: points[p];
    NumberedSize(points);
    vectors
  }

  lemma {:induction false} NumberedSize(points: seq<Vector>)
    ensures |map p | 0 <= p < |points| :: points[p]| == |points|
  {
    if points != [] {
      var n := |points| - 1;
      NumberedSize(points[..n]);
      var before := map p | 0 <= p < n :: points[..n][p];
      assert (map p | 0 <= p < |points| :: points[p]) == before[n := points[n]];
    }
  }

  /** Every point exactly once, nearest first, at its true distance. */
  ghost predicate IsPointOrder(order: seq<Neighbour>, points: seq<Vector>, score: Score)
  {
    IsOrder(order, Numbered(points), score)
  }

  lemma PointOrderLength(order: seq<Neighbour>, points: seq<Vector>, score: Score)
    requires IsPointOrder(order, points, score)
    ensures |order| == |points|
  {
    OrderCount(order, Numbered(points), score);
  }

  /** A point of the order as its live vector. */
  lemma FoundIsCurrent<T>(pool: Pool<T>, order: seq<Neighbour>, score: Score, n: Neighbour, t: T)
    requires pool.Valid() && IsPointOrder(order, pool.points, score) && n in order && Answers(pool, n, t)
    ensures
      var vs := Current(pool.forward, pool.points, MarkedIds(pool.words), t);
      pool.points[n.dId] in vs && score(pool.points[n.dId]) == 1.0 - n.distance
  {
    LiveIsCurrent(pool.forward, pool.points, MarkedIds(pool.words), n.dId);
  }

  /** And a live vector as a point of the order. */
  lemma CurrentIsFound<T>(pool: Pool<T>, order: seq<Neighbour>, score: Score, t: T, v: Vector) returns (n: Neighbour)
    requires pool.Valid() && IsPointOrder(order, pool.points, score)
    requires v in Current(pool.forward, pool.points, MarkedIds(pool.words), t)
    ensures n in order && Answers(pool, n, t) && score(v) == 1.0 - n.distance
  {
    var p := CurrentIsLive(pool.forward, pool.points, MarkedIds(pool.words), t, v);
    assert p in Numbered(pool.points);
    n :| n in order && n.dId == p;
  }

  /** A target's score, from a list of its live vectors that the order covers. */
  lemma BestIsBestScore<T>(pool: Pool<T>, order: seq<Neighbour>, score: Score, t: T)
    requires pool.Valid() && IsPointOrder(order, pool.points, score) && t in Best(pool, order)
    ensures
      var vs := Current(pool.forward, pool.points, MarkedIds(pool.words), t);
      vs != [] && Best(pool, order)[t] == BestScore(vs, score)
  {
    BestIsMax(pool, order);
    var vs := Current(pool.forward, pool.points, MarkedIds(pool.words), t);
    var n :| n in order && Answers(pool, n, t) && Best(pool, order)[t] == 1.0 - n.distance;
    FoundIsCurrent(pool, order, score, n, t);
    var v := BestVector(vs, score);
    var best := CurrentIsFound(pool, order, score, t, v);
  }

  /** The best score is attained. */
  lemma {:induction false} BestVector(vs: seq<Vector>, score: Score) returns (v: Vector)
    requires vs != []
    ensures v in vs && score(v) == BestScore(vs, score)
  {
    var n := |vs| - 1;
    v := vs[n];
    if score(v) != BestScore(vs, score) {
      v := BestVector(vs[..n], score);
    }
  }

  lemma CurrentIsBest<T>(pool: Pool<T>, order: seq<Neighbour>, score: Score, t: T)
    requires pool.Valid() && IsPointOrder(order, pool.points, score)
    requires Current(pool.forward, pool.points, MarkedIds(pool.words), t) != []
    ensures t in pool.forward && t in Best(pool, order)
  {
    BestIsMax(pool, order);
    var vs := Current(pool.forward, pool.points, MarkedIds(pool.words), t);
    var n := CurrentIsFound(pool, order, score, t, vs[0]);
  }

  /** Collapsing a full distance order gives every target its true best live similarity. */
  lemma BestIsCurrent<T>(pool: Pool<T>, order: seq<Neighbour>, score: Score)
    requires pool.Valid() && IsPointOrder(order, pool.points, score)
    ensures Best(pool, order) == CurrentScores(pool, score)
  {
    var best, scores := Best(pool, order), CurrentScores(pool, score);
    forall t | t in best
      ensures t in scores && best[t] == scores[t]
    {
      BestIsBestScore(pool, order, score, t);
      CurrentIsBest(pool, order, score, t);
    }
    forall t | t in scores
      ensures t in best
    {
      CurrentIsBest(pool, order, score, t);
    }
  }
}
