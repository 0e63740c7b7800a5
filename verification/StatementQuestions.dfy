/** The per-statement question index and when its widening search stops. */
module StatementQuestions {
  import opened Ranking
  import opened TwoTier
  import opened TwoTierSearch
  import opened MemoryHnsw
  import opened Escalation
  import opened Collapse

  const QUESTION_OVER_FACTOR: nat := 8

  datatype Target = Target(statement: nat, slot: nat)

  datatype SearchResult = Hits(hits: seq<Hit<Target>>) | EfSearchTooLarge

  /** What one round of the loop found. */
  function RoundBest(pool: Pool<Target>, graph: (nat, nat) -> seq<Neighbour>, q: Request, w: Widths): map<Target, real>
  {
    Best(pool, graph(FetchK(q, w), EfEff(q, w)))
  }

  predicate Stops(pool: Pool<Target>, graph: (nat, nat) -> seq<Neighbour>, q: Request, w: Widths)
  {
    |RoundBest(pool, graph, q, w)| >= q.k || Saturated(q, w)
  }

  ghost predicate Terminates(pool: Pool<Target>, graph: (nat, nat) -> seq<Neighbour>, q: Request, w: Widths)
  {
    exists rounds :: Stops(pool, graph, q, After(q, w, rounds))
  }

  lemma {:induction false} AfterStep(q: Request, w: Widths, rounds: nat)
    ensures After(q, Widen(q, w), rounds) == After(q, w, rounds + 1)
  {
    if rounds > 0 {
      AfterStep(q, w, rounds - 1);
    }
  }

  /** A non-zero beam stops on every graph. */
  lemma {:induction false} WideBeamStops(pool: Pool<Target>, graph: (nat, nat) -> seq<Neighbour>, q: Request, w: Widths)
    requires q.Valid() && InRange(q, w) && w.ef >= 1
    ensures Terminates(pool, graph, q, w)
    decreases Measure(q, w)
  {
    if Stops(pool, graph, q, w) {
      assert After(q, w, 0) == w;
    } else {
      WidenShrinks(q, w);
      WideBeamStops(pool, graph, q, Widen(q, w));
      var rounds :| Stops(pool, graph, q, After(q, Widen(q, w), rounds));
      AfterStep(q, w, rounds);
    }
  }

  /** A zero beam reaches a saturated fetch. */
  lemma {:induction false} ZeroBeamFetchesAll(q: Request, w: Widths) returns (rounds: nat)
    requires q.Valid() && InRange(q, w) && w.ef == 0
    ensures FetchSaturated(q, After(q, w, rounds)) && After(q, w, rounds).ef == 0
    decreases if w.multiplier < q.total then q.total - w.multiplier else 0
  {
    if FetchSaturated(q, w) {
      rounds := 0;
    } else {
      ZeroBeamGrows(q, w);
      ZeroBeamSticks(q, w);
      rounds := ZeroBeamFetchesAll(q, Widen(q, w));
      AfterStep(q, w, rounds);
      rounds := rounds + 1;
    }
  }

  lemma {:induction false} ZeroBeamStaysZero(q: Request, w: Widths, rounds: nat)
    requires q.Valid() && InRange(q, w) && w.ef == 0
    ensures After(q, w, rounds).ef == 0 && InRange(q, After(q, w, rounds))
  {
    if rounds > 0 {
      ZeroBeamStaysZero(q, w, rounds - 1);
      ZeroBeamSticks(q, After(q, w, rounds - 1));
    }
  }

  /**
   * With an exact graph the search stops if and only if the starting beam is
   * not zero, or the pool fills the beam ceiling, or it holds `k` live targets.
   * Otherwise the last round repeats itself for ever.
   */
  lemma TerminationIff(pool: Pool<Target>, graph: (nat, nat) -> seq<Neighbour>, order: seq<Neighbour>, q: Request,
                       w: Widths)
    requires q.Valid() && InRange(q, w)
    requires Exact(graph, order) && Ranked(order) && |order| == q.total
    ensures Terminates(pool, graph, q, w) <==> w.ef >= 1 || q.total >= q.efMax || |Best(pool, order)| >= q.k
  {
    if w.ef >= 1 {
      WideBeamStops(pool, graph, q, w);
    } else if q.total >= q.efMax || |Best(pool, order)| >= q.k {
      var rounds := ZeroBeamFetchesAll(q, w);
      var last := After(q, w, rounds);
      ZeroBeamStaysZero(q, w, rounds);
      ZeroBeamSticks(q, last);
      assert order[..Min(FetchK(q, last), |order|)] == order;
      assert Stops(pool, graph, q, last);
    } else {
      forall rounds
        ensures !Stops(pool, graph, q, After(q, w, rounds))
      {
        ZeroBeamStaysZero(q, w, rounds);
        var now := After(q, w, rounds);
        PrefixIsFinal(pool, order, FetchK(q, now));
        var early := RoundBest(pool, graph, q, now);
        SubsetSize(early.Keys, Best(pool, order).Keys);
        assert |early| == |early.Keys| && |Best(pool, order)| == |Best(pool, order).Keys|;
      }
    }
  }

  /** One live point, two wanted, an override of 0 under the default ceiling: the loop never ends. */
  lemma ZeroOverrideLoops(vector: Vector, target: Target, graph: (nat, nat) -> seq<Neighbour>, n: Neighbour)
    requires n.dId == 0 && Exact(graph, [n])
    ensures
      var pool := Pool([target], [vector], []);
      !Terminates(pool, graph, Request(2, 1, 500), Widths(QUESTION_OVER_FACTOR, 0))
  {
    var pool := Pool([target], [vector], []);
    var q, w := Request(2, 1, 500), Widths(QUESTION_OVER_FACTOR, 0);
    TerminationIff(pool, graph, [n], q, w);
    assert [n][..0] == [];
    assert Best(pool, [n]) == Improve(map[], target, 1.0 - n.distance);
    assert |Best(pool, [n])| == 1;
  }

  /** A round that stops has the answer. */
  lemma StopSettles(pool: Pool<Target>, graph: (nat, nat) -> seq<Neighbour>, order: seq<Neighbour>, score: Score,
                    q: Request, w: Widths, hits: seq<Hit<Target>>)
    requires pool.Valid() && q.total == |pool.forward|
    requires Exact(graph, order) && IsPointOrder(order, pool.points, score)
    requires Stops(pool, graph, q, w) && IsTopK(hits, RoundBest(pool, graph, q, w), q.k)
    ensures IsTopK(hits, CurrentScores(pool, score), q.k)
  {
    PointOrderLength(order, pool.points, score);
    PrefixTopK(pool, order, FetchK(q, w), q.k, hits);
    BestIsCurrent(pool, order, score);
  }

  /** What round `n` finds. */
  function NthBest(pool: Pool<Target>, graph: (nat, nat) -> seq<Neighbour>, q: Request, first: Widths,
                   n: nat): map<Target, real>
  {
    Best(pool, graph(NthFetch(q, first, n), NthBeam(q, first, n)))
  }

  predicate StopsAt(pool: Pool<Target>, graph: (nat, nat) -> seq<Neighbour>, q: Request, first: Widths, n: nat)
  {
    IsLast(q, first, n, |NthBest(pool, graph, q, first, n)|)
  }

  predicate NotBefore(pool: Pool<Target>, graph: (nat, nat) -> seq<Neighbour>, q: Request, first: Widths, n: nat)
  {
    forall j | 0 <= j < n :: !StopsAt(pool, graph, q, first, j)
  }

  /** Round `n` is the first to find `k` targets or to have nothing left to widen. */
  predicate IsLastRound(pool: Pool<Target>, graph: (nat, nat) -> seq<Neighbour>, q: Request, first: Widths, n: nat)
  {
    StopsAt(pool, graph, q, first, n) && NotBefore(pool, graph, q, first, n)
  }

  lemma RoundIsNth(pool: Pool<Target>, graph: (nat, nat) -> seq<Neighbour>, q: Request, first: Widths, n: nat)
    requires q.Valid() && InRange(q, first)
    ensures
      var w, best := After(q, first, n), NthBest(pool, graph, q, first, n);
      RoundBest(pool, graph, q, w) == best && (Stops(pool, graph, q, w) <==> StopsAt(pool, graph, q, first, n))
  {
    RoundAsks(q, first, n);
  }

  lemma LastRound(pool: Pool<Target>, graph: (nat, nat) -> seq<Neighbour>, q: Request, w: Widths) returns (rounds: nat)
    requires q.Valid() && InRange(q, w) && (w.ef == 0 ==> Terminates(pool, graph, q, w))
    ensures StopsAt(pool, graph, q, w, rounds)
  {
    if w.ef >= 1 {
      WideBeamStops(pool, graph, q, w);
    }
    rounds :| Stops(pool, graph, q, After(q, w, rounds));
    RoundIsNth(pool, graph, q, w, rounds);
  }

  /** On an exact graph the last round has the answer. */
  lemma LastRoundSettles(pool: Pool<Target>, graph: (nat, nat) -> seq<Neighbour>, order: seq<Neighbour>, score: Score,
                         q: Request, first: Widths, n: nat, hits: seq<Hit<Target>>)
    requires pool.Valid() && q.total == |pool.forward| && q.Valid() && InRange(q, first)
    requires Exact(graph, order) && IsPointOrder(order, pool.points, score)
    requires StopsAt(pool, graph, q, first, n) && IsTopK(hits, NthBest(pool, graph, q, first, n), q.k)
    ensures IsTopK(hits, CurrentScores(pool, score), q.k)
  {
    RoundIsNth(pool, graph, q, first, n);
    StopSettles(pool, graph, order, score, q, After(q, first, n), hits);
  }

  /** One round of the loop: the answer, if it stops here. */
  method Round(pool: Pool<Target>, graph: (nat, nat) -> seq<Neighbour>, q: Request, w: Widths, ghost first: Widths,
               ghost n: nat) returns (hits: Option<seq<Hit<Target>>>)
    requires q.Valid() && InRange(q, first) && w == After(q, first, n)
    ensures hits.Some? <==> StopsAt(pool, graph, q, first, n)
    ensures hits.Some? ==> IsTopK(hits.value, NthBest(pool, graph, q, first, n), q.k)
  {
    RoundIsNth(pool, graph, q, first, n);
    var best := CollapseHits(pool, graph(FetchK(q, w), EfEff(q, w)));
    if |best| < q.k && !Saturated(q, w) {
      return None;
    }
    var top := SortedItems(best, q.k);
    hits := Some(top);
  }

  /** Rounds until one stops, as round `rounds` would. */
  method Rounds(pool: Pool<Target>, graph: (nat, nat) -> seq<Neighbour>, q: Request, first: Widths,
                ghost rounds: nat) returns (hits: seq<Hit<Target>>, ghost n: nat)
    requires q.Valid() && InRange(q, first) && StopsAt(pool, graph, q, first, rounds)
    ensures IsLastRound(pool, graph, q, first, n) && IsTopK(hits, NthBest(pool, graph, q, first, n), q.k)
  {
    var w := first;
    hits, n := [], 0;
    while true
      invariant n <= rounds && w == After(q, first, n) && NotBefore(pool, graph, q, first, n)
      decreases rounds - n
    {
      var found := Round(pool, graph, q, w, first, n);
      if found.Some? {
        return found.value, n;
      }
      OneMoreRound(pool, graph, q, w, first, n);
      w, n := Widen(q, w), n + 1;
    }
  }

  lemma OneMoreRound(pool: Pool<Target>, graph: (nat, nat) -> seq<Neighbour>, q: Request, w: Widths, first: Widths,
                     n: nat)
    requires w == After(q, first, n) && NotBefore(pool, graph, q, first, n) && !StopsAt(pool, graph, q, first, n)
    ensures Widen(q, w) == After(q, first, n + 1) && NotBefore(pool, graph, q, first, n + 1)
  {
  }

  /** The widths of the first round. */
  function FirstWidths(params: PoolParams, ef: Option<nat>): Widths
  {
    Widths(QUESTION_OVER_FACTOR, Min(if ef.Some? then ef.value else params.efSearch, params.efSearchMax))
  }

  /**
   * `search_with_ef`, wherever it stops: a beam override of 0 may loop for ever
   * (`TerminationIff`), any other never does. Whatever the graph, the answer is
   * a best `k` of the first round that finds enough or cannot be widened. With
   * an exact graph it is one over the true best live similarity of every
   * (statement, slot).
   */
  method SearchWithEf(params: PoolParams, pool: Pool<Target>, graph: (nat, nat) -> seq<Neighbour>, score: Score,
                      k: nat, ef: Option<nat>, ghost order: seq<Neighbour>) returns (r: SearchResult, ghost n: nat)
    requires params.Validated() && pool.Valid() && k <= USIZE_MAX
    requires ef == Some(0) && k > 0 && |pool.forward| > 0 ==>
               Terminates(pool, graph, Request(k, |pool.forward|, params.efSearchMax), FirstWidths(params, ef))
    ensures r.EfSearchTooLarge? <==> k > 0 && |pool.forward| > 0 && ef.Some? && ef.value > params.efSearchMax
    ensures r.Hits? ==> |r.hits| <= k && DistinctIds(r.hits) && Descending(r.hits)
    ensures r.Hits? && k > 0 && |pool.forward| > 0 ==>
              var q := Request(k, |pool.forward|, params.efSearchMax);
              var first := Widths(8, if ef.Some? then ef.value else params.efSearch);
              IsLastRound(pool, graph, q, first, n) && IsTopK(r.hits, NthBest(pool, graph, q, first, n), k)
    ensures r.Hits? && Exact(graph, order) && IsPointOrder(order, pool.points, score)
            ==> IsTopK(r.hits, CurrentScores(pool, score), k)
  {
    if k == 0 || |pool.forward| == 0 {
      assert |pool.forward| == 0 ==> CurrentScores(pool, score) == map[];
      return Hits([]), 0;
    }
    if ef.Some? && ef.value > params.efSearchMax {
      return EfSearchTooLarge, 0;
    }
    var q := Request(k, |pool.forward|, params.efSearchMax);
    var w := FirstWidths(params, ef);
    ghost var rounds := LastRound(pool, graph, q, w);
    var hits;
    hits, n := Rounds(pool, graph, q, w, rounds);
    if Exact(graph, order) && IsPointOrder(order, pool.points, score) {
      LastRoundSettles(pool, graph, order, score, q, w, n, hits);
    }
    r := Hits(hits);
  }
}
