/** Hit lists and the meaning of "top k", shared by every index of the project. */
module Ranking {

  datatype Option<+T> = None | Some(value: T)

  function Min(a: nat, b: nat): nat { if a <= b then a else b }

  function Max(a: nat, b: nat): nat { if a <= b then b else a }

  datatype Hit<Id> = Hit(id: Id, score: real)

  function Ids<Id>(hits: seq<Hit<Id>>): (ids: set<Id>)
  {
    set h | h in hits :: h.id
  }

  predicate DistinctIds<Id(==)>(hits: seq<Hit<Id>>)
  {
    forall i, j | 0 <= i < j < |hits| :: hits[i].id != hits[j].id
  }

  predicate Descending<Id(==)>(hits: seq<Hit<Id>>)
  {
    forall i, j | 0 <= i < j < |hits| :: hits[i].score >= hits[j].score
  }

  predicate Scored<Id(==)>(hits: seq<Hit<Id>>, scores: map<Id, real>)
  {
    forall h | h in hits :: h.id in scores && h.score == scores[h.id]
  }

  /** `hits` is a best-`k` answer over `scores`. Ties may be broken in any way. */
  ghost predicate IsTopK<Id>(hits: seq<Hit<Id>>, scores: map<Id, real>, k: nat)
  {
    && |hits| == Min(k, |scores|)
    && DistinctIds(hits)
    && Descending(hits)
    && Scored(hits, scores)
    && forall id, h | id in scores && id !in Ids(hits) && h in hits :: scores[id] <= h.score
  }

  lemma {:induction false} IdsCount<Id>(hits: seq<Hit<Id>>)
    requires DistinctIds(hits)
    ensures |Ids(hits)| == |hits|
  {
    if hits == [] {
    } else {
      var rest := hits[1..];
      IdsCount(rest);
      assert hits[0].id !in Ids(rest);
      assert Ids(hits) == {hits[0].id} + Ids(rest);
    }
  }

  lemma SubsetSize<T>(a: set<T>, b: set<T>)
    requires a <= b
    ensures |a| <= |b|
    ensures |a| == |b| ==> a == b
  {
    assert b == a + (b - a);
  }

  /** When `k` ids of `scores` reach a bound, so does every hit of a best-`k` answer. */
  lemma TopKReaches<Id>(hits: seq<Hit<Id>>, scores: map<Id, real>, k: nat, strong: set<Id>, bound: real)
    requires IsTopK(hits, scores, k)
    requires strong <= scores.Keys && |strong| >= k
    requires forall id | id in strong :: scores[id] >= bound
    ensures forall h | h in hits :: h.score >= bound
  {
    IdsCount(hits);
    if strong <= Ids(hits) {
      SubsetSize(strong, Ids(hits));
    } else {
      var other :| other in strong && other !in Ids(hits);
      assert forall h | h in hits :: scores[other] <= h.score;
    }
  }

  /** A best-`k` answer over at most `k` ids lists all of them. */
  lemma TopKOfFew<Id>(hits: seq<Hit<Id>>, scores: map<Id, real>, k: nat)
    requires IsTopK(hits, scores, k)
    requires |scores| <= k
    ensures Ids(hits) == scores.Keys
  {
    IdsCount(hits);
    SubsetSize(Ids(hits), scores.Keys);
  }

  /** The map a list of hits builds when it is inserted front to back: the last hit for an id wins. */
  function ToMap<Id>(hits: seq<Hit<Id>>): (m: map<Id, real>)
    ensures m.Keys == Ids(hits)
  {
    if hits == [] then map[]
    else
      var init, last := hits[..|hits| - 1], hits[|hits| - 1];
      assert hits == init + [last];
      ToMap(init)[last.id := last.score]
  }

  lemma {:induction false} ToMapScored<Id>(hits: seq<Hit<Id>>, scores: map<Id, real>)
    requires Scored(hits, scores)
    ensures forall id | id in Ids(hits) :: ToMap(hits)[id] == scores[id]
  {
    if hits == [] {
    } else {
      var init, last := hits[..|hits| - 1], hits[|hits| - 1];
      assert last in hits;
      ToMapScored(init, scores);
    }
  }

  lemma ConsDescending<Id>(first: Hit<Id>, rest: seq<Hit<Id>>)
    requires Descending(rest)
    requires forall h | h in rest :: h.score <= first.score
    ensures Descending([first] + rest)
  {
    var all := [first] + rest;
    forall i, j | 0 <= i < j < |all|
      ensures all[i].score >= all[j].score
    {
      assert all[j] == rest[j - 1] && all[j] in rest;
      if i > 0 {
        assert all[i] == rest[i - 1];
      }
    }
  }

  /** One insertion step of the descending sort. */
  function InsertHit<Id>(hits: seq<Hit<Id>>, h: Hit<Id>): (r: seq<Hit<Id>>)
    ensures |r| == |hits| + 1
    ensures h in r && forall x | x in hits :: x in r
    ensures forall x | x in r :: x in hits || x == h
  {
    if hits == [] then [h]
    else if hits[0].score < h.score then [h] + hits
    else
      assert hits == [hits[0]] + hits[1..];
      [hits[0]] + InsertHit(hits[1..], h)
  }

  lemma {:induction false} InsertHitDescending<Id>(hits: seq<Hit<Id>>, h: Hit<Id>)
    requires Descending(hits)
    ensures Descending(InsertHit(hits, h))
  {
    if hits == [] {
    } else if hits[0].score < h.score {
      ConsDescending(h, hits);
    } else {
      InsertHitDescending(hits[1..], h);
      ConsDescending(hits[0], InsertHit(hits[1..], h));
    }
  }

  function SortDescending<Id>(hits: seq<Hit<Id>>): (r: seq<Hit<Id>>)
    ensures |r| == |hits|
    ensures forall x | x in hits :: x in r
    ensures forall x | x in r :: x in hits
    ensures Descending(r)
  {
    if hits == [] then []
    else
      var init, last := hits[..|hits| - 1], hits[|hits| - 1];
      assert hits == init + [last];
      InsertHitDescending(SortDescending(init), last);
      InsertHit(SortDescending(init), last)
  }

  /** Sort, then cut to `k`: what every search of the source ends with. */
  function SortTruncate<Id>(hits: seq<Hit<Id>>, k: nat): (r: seq<Hit<Id>>)
  {
    var sorted := SortDescending(hits);
    sorted[..Min(k, |sorted|)]
  }

  lemma {:induction false} CountMakesDistinct<Id>(hits: seq<Hit<Id>>)
    ensures |Ids(hits)| <= |hits|
    ensures |Ids(hits)| == |hits| ==> DistinctIds(hits)
  {
    if hits == [] {
    } else {
      var rest := hits[1..];
      assert Ids(hits) == {hits[0].id} + Ids(rest);
      CountMakesDistinct(rest);
      if |Ids(hits)| == |hits| {
        assert hits[0].id !in Ids(rest);
        assert forall j | 0 < j < |hits| :: hits[j] == rest[j - 1] && hits[j].id in Ids(rest);
      }
    }
  }

  /** The cut of a sorted list keeps hits at least as good as those it drops. */
  lemma CutKeepsBest<Id>(sorted: seq<Hit<Id>>, n: nat, id: Id, h: Hit<Id>)
    requires Descending(sorted) && n <= |sorted|
    requires id in Ids(sorted) && id !in Ids(sorted[..n]) && h in sorted[..n]
    ensures exists lower | lower in sorted :: lower.id == id && lower.score <= h.score
  {
    var cut := sorted[..n];
    assert forall x | 0 <= x < n :: cut[x] == sorted[x] && sorted[x].id in Ids(cut);
    var j :| 0 <= j < |sorted| && sorted[j].id == id;
    assert sorted[j] in sorted;
  }

  lemma CutIsTopK<Id>(sorted: seq<Hit<Id>>, scores: map<Id, real>, k: nat)
    requires DistinctIds(sorted) && Descending(sorted)
    requires Scored(sorted, scores) && Ids(sorted) == scores.Keys
    ensures IsTopK(sorted[..Min(k, |sorted|)], scores, k)
  {
    var cut := sorted[..Min(k, |sorted|)];
    IdsCount(sorted);
    assert |scores| == |scores.Keys|;
    assert forall i | 0 <= i < |cut| :: cut[i] == sorted[i];
    forall id, h | id in scores && id !in Ids(cut) && h in cut
      ensures scores[id] <= h.score
    {
      CutKeepsBest(sorted, |cut|, id, h);
    }
  }

  /** Sorting and truncating one hit per id of `scores` gives a best-`k` answer. */
  lemma SortTruncateIsTopK<Id>(hits: seq<Hit<Id>>, scores: map<Id, real>, k: nat)
    requires DistinctIds(hits) && Scored(hits, scores) && Ids(hits) == scores.Keys
    ensures IsTopK(SortTruncate(hits, k), scores, k)
  {
    var sorted := SortDescending(hits);
    IdsCount(hits);
    assert Ids(sorted) == Ids(hits);
    CountMakesDistinct(sorted);
    CutIsTopK(sorted, scores, k);
  }

  /** Push a hit for an id not listed yet. */
  function Append<Id>(hits: seq<Hit<Id>>, h: Hit<Id>, ghost scores: map<Id, real>): (r: seq<Hit<Id>>)
    requires DistinctIds(hits) && Scored(hits, scores)
    requires h.id !in Ids(hits) && h.id in scores && scores[h.id] == h.score
    ensures DistinctIds(r) && Scored(r, scores) && Ids(r) == Ids(hits) + {h.id}
  {
    var r := hits + [h];
    assert forall i | 0 <= i < |hits| :: hits[i].id in Ids(hits);
    assert r[|hits|] == h;
    assert forall x | x in hits :: x in r;
    r
  }

  /** The items of a hash map, in whatever order it yields them, sorted and truncated. */
  method SortedItems<Id(==)>(scores: map<Id, real>, k: nat) returns (r: seq<Hit<Id>>)
    ensures IsTopK(r, scores, k)
  {
    var rest, items := scores.Keys, [];
    while rest != {}
      invariant rest <= scores.Keys
      invariant DistinctIds(items) && Scored(items, scores)
      invariant Ids(items) == scores.Keys - rest
      decreases rest
    {
      var id :| id in rest;
      items, rest := Append(items, Hit(id, scores[id]), scores), rest - {id};
    }
    SortTruncateIsTopK(items, scores, k);
    r := SortTruncate(items, k);
  }
}
