/** The full-precision memory index and its escalating filtered search. */
module MemoryHnsw {
  import opened Ranking
  import opened TwoTier
  import opened TwoTierSearch
  import opened IdMaps
  import opened Tombstones
  import opened Escalation

  const OVER_FACTOR: nat := 2

  datatype IndexParams = IndexParams(m: nat, efConstruction: nat, efSearch: nat, efSearchMax: nat, efFactor: nat) {
    predicate Validated()
    {
      && 4 <= m <= 64 && 50 <= efConstruction <= 500 && 10 <= efSearch <= 500 && 1 <= efFactor <= 16
      && efSearch <= efSearchMax <= USIZE_MAX
    }
  }

  /** `resolve_ef`. */
  function ResolveEf(params: IndexParams, k: nat, ef: Option<nat>): (r: nat)
    requires params.Validated()
    ensures Min(k, params.efSearchMax) <= r <= params.efSearchMax
    ensures ef.Some? ==> r == Min(Max(ef.value, k), params.efSearchMax)
    ensures ef.None? ==> r >= params.efSearch && r >= Min(SatMul(k, params.efFactor), params.efSearchMax)
    ensures ef.None? ==> r <= params.efSearch || r <= k || r <= SatMul(k, params.efFactor)
  {
    var requested := match ef
      case Some(v) => v
      case None => Max(params.efSearch, SatMul(k, params.efFactor));
    Min(Max(requested, k), params.efSearchMax)
  }

  datatype Neighbour = Neighbour(dId: nat, distance: real)

  /** What a candidate is checked against. */
  datatype Lens = Lens(words: seq<nat>, reverse: map<nat, MemoryId>, filter: Filter)

  function Accept(n: Neighbour, lens: Lens): Option<Hit<MemoryId>>
  {
    if n.dId > U32_MAX || Marked(lens.words, n.dId) then None
    else if n.dId !in lens.reverse || !lens.filter(lens.reverse[n.dId]) then None
    else Some(Hit(lens.reverse[n.dId], 1.0 - n.distance))
  }

  /** Some live node carries `id`, and the filter lets it through. */
  ghost predicate Admits(lens: Lens, id: MemoryId)
  {
    lens.filter(id) && exists n | n in lens.reverse :: !Marked(lens.words, n) && lens.reverse[n] == id
  }

  /** Brute force: every acceptable candidate, in the order given. */
  function Scan(ns: seq<Neighbour>, lens: Lens): seq<Hit<MemoryId>>
  {
    if ns == [] then []
    else
      var rest := Scan(ns[..|ns| - 1], lens);
      match Accept(ns[|ns| - 1], lens)
      case Some(hit) => rest + [hit]
      case None => rest
  }

  function Take(hits: seq<Hit<MemoryId>>, k: nat): seq<Hit<MemoryId>> { hits[..Min(k, |hits|)] }

  lemma {:induction false} ScanPrefix(ns: seq<Neighbour>, n: nat, lens: Lens)
    requires n <= |ns|
    ensures Scan(ns[..n], lens) <= Scan(ns, lens)
  {
    if n == |ns| {
      assert ns[..n] == ns;
    } else {
      ScanPrefix(ns[..|ns| - 1], n, lens);
      assert ns[..|ns| - 1][..n] == ns[..n];
    }
  }

  /** Keep the first `k` acceptable neighbours, stopping as soon as they are found. */
  method TakeAccepted(ns: seq<Neighbour>, k: nat, lens: Lens) returns (results: seq<Hit<MemoryId>>)
    ensures results == Take(Scan(ns, lens), k)
  {
    results := [];
    for i := 0 to |ns|
      invariant |results| <= k && results == Scan(ns[..i], lens)
    {
      ScanPrefix(ns, i, lens);
      if |results| >= k {
        return;
      }
      assert ns[..i + 1][..i] == ns[..i];
      var hit := Accept(ns[i], lens);
      if hit.Some? {
        results := results + [hit.value];
      }
    }
    assert ns[..|ns|] == ns;
  }

  /** The graph answers every request with the nearest points of one full distance order. */
  ghost predicate Exact(graph: (nat, nat) -> seq<Neighbour>, order: seq<Neighbour>)
  {
    forall fetch, ef :: graph(fetch, ef) == order[..Min(fetch, |order|)]
  }

  /** One more round, seen against the full order: enough hits, or the whole order, settles the answer. */
  lemma RoundSettles(order: seq<Neighbour>, lens: Lens, q: Request, w: Widths)
    requires |order| == q.total
    requires |Take(Scan(order[..FetchK(q, w)], lens), q.k)| >= q.k || FetchSaturated(q, w)
    ensures Take(Scan(order[..FetchK(q, w)], lens), q.k) == Take(Scan(order, lens), q.k)
  {
    ScanPrefix(order, FetchK(q, w), lens);
    if FetchSaturated(q, w) {
      assert order[..FetchK(q, w)] == order;
    }
  }

  /** What round `n` lists. */
  function NthHits(graph: (nat, nat) -> seq<Neighbour>, lens: Lens, q: Request, first: Widths,
                   n: nat): seq<Hit<MemoryId>>
  {
    Take(Scan(graph(NthFetch(q, first, n), NthBeam(q, first, n)), lens), q.k)
  }

  predicate StopsAt(graph: (nat, nat) -> seq<Neighbour>, lens: Lens, q: Request, first: Widths, n: nat)
  {
    IsLast(q, first, n, |NthHits(graph, lens, q, first, n)|)
  }

  predicate NotBefore(graph: (nat, nat) -> seq<Neighbour>, lens: Lens, q: Request, first: Widths, n: nat)
  {
    forall j | 0 <= j < n :: !StopsAt(graph, lens, q, first, j)
  }

  /** Round `n` is the first to list `k` hits or to have nothing left to widen. */
  predicate IsLastRound(graph: (nat, nat) -> seq<Neighbour>, lens: Lens, q: Request, first: Widths, n: nat)
  {
    StopsAt(graph, lens, q, first, n) && NotBefore(graph, lens, q, first, n)
  }

  /** One round: what it lists, and whether it is the last. */
  method Round(graph: (nat, nat) -> seq<Neighbour>, lens: Lens, q: Request, w: Widths, ghost first: Widths,
               ghost n: nat, ghost order: seq<Neighbour>) returns (results: seq<Hit<MemoryId>>, stops: bool)
    requires q.Valid() && InRange(q, first) && w == After(q, first, n)
    ensures results == NthHits(graph, lens, q, first, n) && (stops <==> StopsAt(graph, lens, q, first, n))
    ensures !stops ==> !Saturated(q, w)
    ensures stops ==> forall h | h in results :: Admits(lens, h.id)
    ensures stops && Exact(graph, order) && |order| == q.total ==> results == Take(Scan(order, lens), q.k)
  {
    RoundAsks(q, first, n);
    var neighbours := graph(FetchK(q, w), EfEff(q, w));
    results := TakeAccepted(neighbours, q.k, lens);
    stops := |results| >= q.k || Saturated(q, w);
    AcceptedAreLive(neighbours, lens);
    if stops && Exact(graph, order) && |order| == q.total {
      RoundSettles(order, lens, q, w);
    }
  }

  /**
   * `search`: terminates for every `k`, `ef`, filter and graph, and lists what
   * the first round with enough hits, or nothing left to widen, lists: only
   * live nodes passing the filter. When the graph is exact, that is the
   * brute-force scan cut to `k`.
   */
  method EscalatingSearch(params: IndexParams, total: nat, graph: (nat, nat) -> seq<Neighbour>, lens: Lens, k: nat,
                          ef: Option<nat>, ghost order: seq<Neighbour>)
    returns (results: seq<Hit<MemoryId>>, ghost n: nat)
    requires params.Validated() && total <= USIZE_MAX && k <= USIZE_MAX
    ensures |results| <= k
    ensures k > 0 && total > 0 ==>
              var q, first := Request(k, total, params.efSearchMax), Widths(2, ResolveEf(params, k, ef));
              IsLastRound(graph, lens, q, first, n) && results == NthHits(graph, lens, q, first, n)
    ensures forall h | h in results :: Admits(lens, h.id)
    ensures Exact(graph, order) && |order| == total ==> results == Take(Scan(order, lens), k)
  {
    results, n := [], 0;
    if k == 0 || total == 0 {
      return;
    }
    var q := Request(k, total, params.efSearchMax);
    var w := Widths(OVER_FACTOR, ResolveEf(params, k, ef));
    ghost var first := w;
    var stops := false;
    while !stops
      invariant InRange(q, w) && w.ef >= 1 && w == After(q, first, n) && NotBefore(graph, lens, q, first, n)
      invariant stops ==> StopsAt(graph, lens, q, first, n) && results == NthHits(graph, lens, q, first, n)
      invariant stops ==> forall h | h in results :: Admits(lens, h.id)
      invariant stops && Exact(graph, order) && |order| == total ==> results == Take(Scan(order, lens), k)
      decreases Measure(q, w), !stops
    {
      results, stops := Round(graph, lens, q, w, first, n, order);
      if !stops {
        WidenShrinks(q, w);
        OneMoreRound(graph, lens, q, w, first, n);
        w, n := Widen(q, w), n + 1;
      }
    }
  }

  lemma OneMoreRound(graph: (nat, nat) -> seq<Neighbour>, lens: Lens, q: Request, w: Widths, first: Widths, n: nat)
    requires w == After(q, first, n) && NotBefore(graph, lens, q, first, n) && !StopsAt(graph, lens, q, first, n)
    ensures Widen(q, w) == After(q, first, n + 1) && NotBefore(graph, lens, q, first, n + 1)
  {
  }

  lemma {:induction false} AcceptedAreLive(ns: seq<Neighbour>, lens: Lens)
    ensures forall h | h in Scan(ns, lens) :: Admits(lens, h.id)
  {
    if ns != [] {
      AcceptedAreLive(ns[..|ns| - 1], lens);
    }
  }

  // ----- The brute-force scan is the top k ---------------------------------

  /** Distinct nodes, nearest first. */
  predicate Ranked(order: seq<Neighbour>)
  {
    forall i, j | 0 <= i < j < |order| :: order[i].dId != order[j].dId && order[i].distance <= order[j].distance
  }

  /** Every node exactly once, nearest first, at its true distance. */
  ghost predicate IsOrder(order: seq<Neighbour>, vectors: map<nat, Vector>, score: Score)
  {
    && Ranked(order)
    && (forall n | n in order :: n.dId in vectors && n.distance == 1.0 - score(vectors[n.dId]))
    && (forall x | x in vectors :: exists n | n in order :: n.dId == x)
  }

  /** Live, filter-passing nodes under their scores. */
  function LensScores(vectors: map<nat, Vector>, lens: Lens, forward: map<MemoryId, nat>,
                      score: Score): map<MemoryId, real>
  {
    map id | id in forward && forward[id] in vectors && !Marked(lens.words, forward[id]) && lens.filter(id)
      :: score(vectors[forward[id]])
  }

  /** The scan is exactly the accepted candidates. */
  lemma {:induction false} ScanMembers(ns: seq<Neighbour>, lens: Lens)
    ensures forall n | n in ns && Accept(n, lens).Some? :: Accept(n, lens).value in Scan(ns, lens)
    ensures forall h | h in Scan(ns, lens) :: exists n | n in ns :: Accept(n, lens) == Some(h)
  {
    if ns != [] {
      var init, last := ns[..|ns| - 1], ns[|ns| - 1];
      assert ns == init + [last];
      ScanMembers(init, lens);
    }
  }

  predicate Injective(reverse: map<nat, MemoryId>)
  {
    forall a, b | a in reverse && b in reverse && reverse[a] == reverse[b] :: a == b
  }

  lemma {:induction false} ScanIsRanked(order: seq<Neighbour>, lens: Lens)
    requires Injective(lens.reverse) && Ranked(order)
    ensures DistinctIds(Scan(order, lens)) && Descending(Scan(order, lens))
  {
    if order != [] {
      var init, last := order[..|order| - 1], order[|order| - 1];
      ScanIsRanked(init, lens);
      ScanMembers(init, lens);
      var earlier := Scan(init, lens);
      if Accept(last, lens).Some? {
        var hit := Accept(last, lens).value;
        forall h | h in earlier
          ensures h.id != hit.id && h.score >= hit.score
        {
          var n :| n in init && Accept(n, lens) == Some(h);
          var i :| 0 <= i < |init| && order[i] == n;
        }
        SnocRanked(earlier, hit);
      }
    }
  }

  lemma SnocRanked(hits: seq<Hit<MemoryId>>, hit: Hit<MemoryId>)
    requires DistinctIds(hits) && Descending(hits)
    requires forall h | h in hits :: h.id != hit.id && h.score >= hit.score
    ensures DistinctIds(hits + [hit]) && Descending(hits + [hit])
  {
  }

  /** Every hit of the scan comes from a neighbour. */
  lemma {:induction false} ScanOrigin(ns: seq<Neighbour>, lens: Lens, h: Hit<MemoryId>) returns (n: Neighbour)
    requires h in Scan(ns, lens)
    ensures n in ns && Accept(n, lens) == Some(h)
  {
    var init, last := ns[..|ns| - 1], ns[|ns| - 1];
    if h in Scan(init, lens) {
      n := ScanOrigin(init, lens, h);
    } else {
      n := last;
    }
  }

  lemma AcceptedIsScored(vectors: map<nat, Vector>, lens: Lens, forward: map<MemoryId, nat>, nextId: nat, score: Score,
                         n: Neighbour, h: Hit<MemoryId>)
    requires Inverse(forward, lens.reverse, nextId) && Accept(n, lens) == Some(h)
    requires n.dId in vectors && n.distance == 1.0 - score(vectors[n.dId])
    ensures
      var scores := LensScores(vectors, lens, forward, score);
      h.id in scores && h.score == scores[h.id]
  {
  }

  lemma CandidateIsScanned(order: seq<Neighbour>, vectors: map<nat, Vector>, lens: Lens, forward: map<MemoryId, nat>,
                           nextId: nat, score: Score, id: MemoryId)
    requires Inverse(forward, lens.reverse, nextId) && IsOrder(order, vectors, score)
    requires id in LensScores(vectors, lens, forward, score)
    ensures id in Ids(Scan(order, lens))
  {
    var n :| n in order && n.dId == forward[id];
    ScanMembers(order, lens);
    assert Accept(n, lens).value.id == id;
  }

  lemma ScanIsScored(order: seq<Neighbour>, vectors: map<nat, Vector>, lens: Lens, forward: map<MemoryId, nat>,
                     nextId: nat, score: Score)
    requires Inverse(forward, lens.reverse, nextId) && IsOrder(order, vectors, score)
    ensures
      var scores, hits := LensScores(vectors, lens, forward, score), Scan(order, lens);
      Scored(hits, scores) && Ids(hits) == scores.Keys
  {
    var scores, hits := LensScores(vectors, lens, forward, score), Scan(order, lens);
    forall h | h in hits
      ensures h.id in scores && h.score == scores[h.id]
    {
      var n := ScanOrigin(order, lens, h);
      AcceptedIsScored(vectors, lens, forward, nextId, score, n, h);
    }
    forall id | id in scores
      ensures id in Ids(hits)
    {
      CandidateIsScanned(order, vectors, lens, forward, nextId, score, id);
    }
  }

  /** With true distances the brute-force scan cut to `k` is a best-`k` answer. */
  lemma ScanIsTopK(order: seq<Neighbour>, vectors: map<nat, Vector>, lens: Lens, forward: map<MemoryId, nat>,
                   nextId: nat, score: Score, k: nat)
    requires Inverse(forward, lens.reverse, nextId) && IsOrder(order, vectors, score)
    ensures IsTopK(Take(Scan(order, lens), k), LensScores(vectors, lens, forward, score), k)
  {
    assert Injective(lens.reverse);
    ScanIsRanked(order, lens);
    ScanIsScored(order, vectors, lens, forward, nextId, score);
    CutIsTopK(Scan(order, lens), LensScores(vectors, lens, forward, score), k);
  }

  /** A full order has one entry per node. */
  lemma OrderCount(order: seq<Neighbour>, vectors: map<nat, Vector>, score: Score)
    requires IsOrder(order, vectors, score)
    ensures |order| == |vectors|
  {
    var ids := seq(|order|, i requires 0 <= i < |order| => order[i].dId);
    forall x
      ensures x in ids <==> x in vectors.Keys
    {
      if x in ids {
        var i :| 0 <= i < |ids| && ids[i] == x;
        assert order[i] in order;
      }
      if x in vectors.Keys {
        var n :| n in order && n.dId == x;
        var i :| 0 <= i < |order| && order[i] == n;
        assert ids[i] == x;
      }
    }
    DistinctCount(ids, vectors.Keys);
  }

  /** So one per memory. */
  lemma OrderLength(order: seq<Neighbour>, vectors: map<nat, Vector>, forward: map<MemoryId, nat>,
                    reverse: map<nat, MemoryId>, nextId: nat, score: Score)
    requires Inverse(forward, reverse, nextId) && IsOrder(order, vectors, score) && vectors.Keys == reverse.Keys
    ensures |order| == |forward|
  {
    OrderCount(order, vectors, score);
    BijectionSize(forward, reverse, nextId);
    assert |vectors| == |vectors.Keys| && |forward| == |forward.Keys|;
  }

  lemma {:induction false} DistinctCount(xs: seq<nat>, all: set<nat>)
    requires forall i, j | 0 <= i < j < |xs| :: xs[i] != xs[j]
    requires forall x :: x in xs <==> x in all
    ensures |xs| == |all|
  {
    if xs == [] {
      assert all == {};
    } else {
      var init, last := xs[..|xs| - 1], xs[|xs| - 1];
      assert xs == init + [last];
      DistinctCount(init, all - {last});
    }
  }

  lemma {:induction false} BijectionSize(forward: map<MemoryId, nat>, reverse: map<nat, MemoryId>, nextId: nat)
    requires Inverse(forward, reverse, nextId)
    ensures |forward.Keys| == |reverse.Keys|
  {
    if forward.Keys != {} {
      var id :| id in forward;
      var n := forward[id];
      BijectionSize(forward - {id}, reverse - {n}, nextId);
      assert (forward - {id}).Keys == forward.Keys - {id} && (reverse - {n}).Keys == reverse.Keys - {n};
    } else {
      assert reverse.Keys == {};
    }
  }

  /** The id map, the vectors and the tombstones, read as one published index. */
  ghost function MainOf(forward: map<MemoryId, nat>, vectors: map<nat, Vector>, dead: set<nat>): MainIndex
    requires forall id | id in forward :: forward[id] in vectors
  {
    MainIndex(map id | id in forward :: vectors[forward[id]], set id | id in forward && forward[id] in dead)
  }

  lemma FreshNodeIsAdded(forward: map<MemoryId, nat>, vectors: map<nat, Vector>, dead: set<nat>, id: MemoryId, n: nat,
                         vector: Vector)
    requires forall x | x in forward :: forward[x] in vectors
    requires id !in forward && n !in vectors && dead <= vectors.Keys
    ensures
      var before, after := MainOf(forward, vectors, dead), MainOf(forward[id := n], vectors[n := vector], dead);
      after == before.(nodes := before.nodes[id := vector])
  {
  }

  class HnswIndex {
    const params: IndexParams
    const idMap: IdMap
    const tombstones: TombstoneBitmap
    var vectors: map<nat, Vector>

    ghost predicate Valid()
      reads this, idMap, tombstones
    {
      && params.Validated() && idMap.Valid() && tombstones.Valid()
      && vectors.Keys == idMap.reverse.Keys
      && tombstones.Ids() <= idMap.reverse.Keys
    }

    /** The published value the two-tier index works with. */
    ghost function Main(): MainIndex
      requires Valid()
      reads this, idMap, tombstones
    {
      MainOf(idMap.forward, vectors, tombstones.Ids())
    }

    constructor (validated: IndexParams)
      requires validated.Validated()
      ensures Valid() && Main() == MainIndex(map[], {}) && fresh(idMap) && fresh(tombstones)
    {
      params, vectors := validated, map[];
      idMap := new IdMap();
      tombstones := new TombstoneBitmap();
    }

    /** A duplicate or an exhausted map changes nothing. */
    method Insert(id: MemoryId, vector: Vector) returns (r: InsertResult)
      requires Valid()
      modifies this, idMap
      ensures Valid() && (r.AlreadyInserted? <==> id in old(Main()).nodes)
      ensures Main() == if r.Assigned? then old(Main()).(nodes := old(Main()).nodes[id := vector]) else old(Main())
    {
      r := idMap.Insert(id);
      if r.Assigned? {
        FreshNodeIsAdded(old(idMap.forward), vectors, tombstones.Ids(), id, r.internalId, vector);
        vectors := vectors[r.internalId := vector];
      }
    }

    /** Unknown ids are reported, not recorded. */
    method MarkTombstoned(id: MemoryId) returns (found: bool)
      requires Valid()
      modifies tombstones
      ensures Valid() && found == (id in old(Main()).nodes)
      ensures Main() == if found then old(Main()).(dead := old(Main()).dead + {id}) else old(Main())
    {
      var internalId := idMap.LookupForward(id);
      if internalId.None? {
        return false;
      }
      tombstones.Set(internalId.value);
      return true;
    }

    /** `search` on the whole index: with an exact graph, the best `k` live nodes passing the filter. */
    method Search(graph: (nat, nat) -> seq<Neighbour>, score: Score, k: nat, ef: Option<nat>, filter: Filter,
                  ghost order: seq<Neighbour>) returns (results: seq<Hit<MemoryId>>, ghost n: nat)
      requires Valid() && k <= USIZE_MAX && |idMap.forward| <= USIZE_MAX
      ensures |results| <= k
      ensures k > 0 && |idMap.forward| > 0 ==>
                var q := Request(k, |idMap.forward|, params.efSearchMax);
                var lens, first := Lens(tombstones.bits, idMap.reverse, filter), Widths(2, ResolveEf(params, k, ef));
                IsLastRound(graph, lens, q, first, n) && results == NthHits(graph, lens, q, first, n)
      ensures forall h | h in results :: Main().Holds(h.id) && filter(h.id)
      ensures Exact(graph, order) && IsOrder(order, vectors, score)
              ==> IsTopK(results, MainScores(Main(), {}, score, filter), k)
    {
      var lens := Lens(tombstones.bits, idMap.reverse, filter);
      results, n := EscalatingSearch(params, |idMap.forward|, graph, lens, k, ef, order);
      if Exact(graph, order) && IsOrder(order, vectors, score) {
        OrderLength(order, vectors, idMap.forward, idMap.reverse, idMap.nextId, score);
        ScanIsTopK(order, vectors, lens, idMap.forward, idMap.nextId, score, k);
        LensIsMain(idMap.forward, vectors, tombstones.bits, idMap.reverse, score, filter);
      }
    }
  }

  /** What a search may list, seen from the published value. */
  lemma LensIsMain(forward: map<MemoryId, nat>, vectors: map<nat, Vector>, bits: seq<nat>, reverse: map<nat, MemoryId>,
                   score: Score, filter: Filter)
    requires forall id | id in forward :: forward[id] in vectors
    ensures LensScores(vectors, Lens(bits, reverse, filter), forward, score)
         == MainScores(MainOf(forward, vectors, MarkedIds(bits)), {}, score, filter)
  {
  }
}
