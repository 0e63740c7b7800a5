/**
 * The widening loop shared by the filtered searches: each round asks the graph
 * for `fetch_k` neighbours with beam `ef_eff`, and doubles whatever is not yet
 * saturated.
 */
module Escalation {
  import opened Ranking

  const USIZE_MAX: nat := 0xFFFF_FFFF_FFFF_FFFF

  function SatMul(a: nat, b: nat): nat { Min(a * b, USIZE_MAX) }

  /** What one search fixes: the wanted hits, the node count and the beam ceiling. */
  datatype Request = Request(k: nat, total: nat, efMax: nat) {
    predicate Valid() { 1 <= k && total <= USIZE_MAX && 1 <= efMax <= USIZE_MAX }
  }

  /** What the rounds change. */
  datatype Widths = Widths(multiplier: nat, ef: nat)

  predicate InRange(q: Request, w: Widths) { 1 <= w.multiplier <= USIZE_MAX && w.ef <= q.efMax }

  function FetchK(q: Request, w: Widths): nat { Min(SatMul(q.k, w.multiplier), q.total) }

  function EfEff(q: Request, w: Widths): nat { Min(Max(w.ef, FetchK(q, w)), q.efMax) }

  predicate FetchSaturated(q: Request, w: Widths) { FetchK(q, w) >= q.total }

  predicate EfSaturated(q: Request, w: Widths) { EfEff(q, w) >= q.efMax }

  predicate Saturated(q: Request, w: Widths) { FetchSaturated(q, w) && EfSaturated(q, w) }

  /** The doublings at the end of a round. */
  function Widen(q: Request, w: Widths): Widths
  {
    Widths(if FetchSaturated(q, w) then w.multiplier else SatMul(w.multiplier, 2),
           if EfSaturated(q, w) then w.ef else Min(SatMul(w.ef, 2), q.efMax))
  }

  /** Bounded by the raw beam `ef`, since the effective one can stay flat for rounds. */
  function Measure(q: Request, w: Widths): nat
    requires InRange(q, w)
  {
    (if w.multiplier < q.total then q.total - w.multiplier else 0) + (q.efMax - w.ef)
  }

  lemma AtLeastMultiplier(q: Request, w: Widths)
    requires q.Valid() && InRange(q, w)
    ensures SatMul(q.k, w.multiplier) >= w.multiplier
  {
    AtLeastFactor(q.k, w.multiplier);
  }

  lemma AtLeastFactor(k: nat, m: nat)
    requires 1 <= k
    ensures k * m >= m
  {
    assert k * m == m + (k - 1) * m;
  }

  /** A round that is not the last strictly shrinks the measure, provided the beam is not zero. */
  lemma WidenShrinks(q: Request, w: Widths)
    requires q.Valid() && InRange(q, w) && !Saturated(q, w)
    requires w.ef >= 1
    ensures InRange(q, Widen(q, w)) && Widen(q, w).ef >= 1
    ensures Measure(q, Widen(q, w)) < Measure(q, w)
  {
    AtLeastMultiplier(q, w);
  }

  /** With a zero beam only the fetch can grow; once it is saturated the round repeats itself. */
  lemma ZeroBeamSticks(q: Request, w: Widths)
    requires q.Valid() && InRange(q, w) && w.ef == 0
    ensures Widen(q, w).ef == 0
    ensures FetchSaturated(q, w) ==> Widen(q, w) == w
    ensures FetchSaturated(q, w) ==> (EfSaturated(q, w) <==> q.total >= q.efMax)
  {
  }

  lemma ZeroBeamGrows(q: Request, w: Widths)
    requires q.Valid() && InRange(q, w) && !FetchSaturated(q, w)
    ensures InRange(q, Widen(q, w)) && w.multiplier < Widen(q, w).multiplier && w.multiplier < q.total
  {
    AtLeastMultiplier(q, w);
  }

  // ----- What each round asks for ----------------------------------------------

  /** The widths after `rounds` rounds that did not stop. */
  function After(q: Request, w: Widths, rounds: nat): Widths
  {
    if rounds == 0 then w else Widen(q, After(q, w, rounds - 1))
  }

  function Doubled(x: nat, times: nat): nat { if times == 0 then x else 2 * Doubled(x, times - 1) }

  /** Round `n` asks for the first fetch doubled `n` times, up to every node. */
  function NthFetch(q: Request, w: Widths, n: nat): nat { Min(Doubled(q.k * w.multiplier, n), q.total) }

  /** Its beam is the first one doubled `n` times, at least as wide as the fetch, up to the ceiling. */
  function NthBeam(q: Request, w: Widths, n: nat): nat { Min(Max(Doubled(w.ef, n), NthFetch(q, w, n)), q.efMax) }

  /** The stored widths stand for a fetch and a beam, until those no longer matter. */
  predicate StandFor(q: Request, now: Widths, fetch: nat, beam: nat)
  {
    && InRange(q, now)
    && (if fetch < q.total then q.k * now.multiplier == fetch else q.k * now.multiplier >= q.total)
    && var asked := Min(fetch, q.total);
       if Max(beam, asked) < q.efMax then now.ef == beam else Max(now.ef, asked) >= q.efMax
  }

  lemma DoubleMultiplier(q: Request, m: nat)
    requires q.Valid() && 1 <= m <= USIZE_MAX
    ensures 1 <= SatMul(m, 2) <= USIZE_MAX
    ensures if 2 * (q.k * m) < q.total then q.k * SatMul(m, 2) == 2 * (q.k * m) else q.k * SatMul(m, 2) >= q.total
  {
    assert q.k * m >= m && q.k * (2 * m) == 2 * (q.k * m) && q.k * USIZE_MAX >= USIZE_MAX;
  }

  lemma WidenStandsFor(q: Request, now: Widths, fetch: nat, beam: nat)
    requires q.Valid() && StandFor(q, now, fetch, beam)
    ensures StandFor(q, Widen(q, now), 2 * fetch, 2 * beam)
  {
    DoubleMultiplier(q, now.multiplier);
  }

  lemma {:induction false} AfterStandsFor(q: Request, w: Widths, n: nat)
    requires q.Valid() && InRange(q, w)
    ensures StandFor(q, After(q, w, n), Doubled(q.k * w.multiplier, n), Doubled(w.ef, n))
  {
    if n > 0 {
      AfterStandsFor(q, w, n - 1);
      WidenStandsFor(q, After(q, w, n - 1), Doubled(q.k * w.multiplier, n - 1), Doubled(w.ef, n - 1));
    }
  }

  /** Every round asks for exactly those, however the loop's own variables saturate. */
  lemma RoundAsks(q: Request, w: Widths, n: nat)
    requires q.Valid() && InRange(q, w)
    ensures FetchK(q, After(q, w, n)) == NthFetch(q, w, n) && EfEff(q, After(q, w, n)) == NthBeam(q, w, n)
  {
    AfterStandsFor(q, w, n);
  }

  /** Round `n` is the last: it found enough, or could not be widened. */
  predicate IsLast(q: Request, w: Widths, n: nat, found: nat)
  {
    found >= q.k || (NthFetch(q, w, n) >= q.total && NthBeam(q, w, n) >= q.efMax)
  }
}
