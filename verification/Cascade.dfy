/** How forgetting a memory, and taking that back, changes one statement: its row and the rows it
    owns in the evidence-overflow, reverse-evidence, predicate, by-subject, embed-queue and undo tables. */
module Cascade {
  import opened Ranking
  import opened TwoTier

  const INLINE_EVIDENCE_CAP: nat := 8

  type Scope = nat

  type StatementId = nat

  /** One piece of evidence; `stamp` stands for its confidence, time and extractor. */
  datatype Entry = Entry(memory: MemoryId, stamp: nat)

  datatype Reason = NotTombstoned | SourceMemoryForgotten | OtherReason

  /** `pending` subjects are not resolved yet, and are not put in the by-subject index at creation. */
  datatype Row = Row(scope: Scope, subject: nat, pending: bool, predicateId: nat, kind: nat, isCurrent: bool,
                     confidence: real, inline: seq<Entry>, overflowId: Option<nat>, tombstoned: bool, reason: Reason)

  datatype Outcome = TOMBSTONED | KEPT_STALE | EVIDENCE_DROPPED

  datatype Undo = Undo(dropped: Entry, priorIsCurrent: bool, priorOverflow: Option<nat>, outcome: Outcome)

  /** Which by-subject rows a statement has, under the current and the non-current bit, and whether it
      is queued for embedding. */
  datatype Listing = Listing(current: bool, former: bool, queued: bool)

  /** A statement with its slice of every table: overflow rows by id, the memories of its
      reverse-evidence rows, the buckets of its predicate rows, its undo rows by memory, how many
      overflow ids were ever minted for it, and its by-subject and embed-queue rows. Minted ids
      never repeat, so the serial number names them. */
  datatype Cell = Cell(row: Row, spill: map<nat, seq<Entry>>, cites: set<MemoryId>, buckets: set<nat>,
                       undo: map<MemoryId, Undo>, minted: nat, listing: Listing)

  /** `aggregate_confidence`, a function of the evidence, the clock and the statement's kind. */
  type Aggregate = (seq<Entry>, nat, nat) -> real

  /** `confidence_bucket`: the tenth a confidence lies in. */
  function Bucket(c: real): (b: nat)
    ensures b <= 10 && (0.0 <= c < 1.0 ==> b as real / 10.0 <= c < (b + 1) as real / 10.0)
    ensures (c < 0.0 ==> b == 0) && (1.0 <= c <==> b == 10)
  {
    if c <= 0.0 then 0 else if c >= 1.0 then 10 else (c * 10.0).Floor
  }

  predicate Cites(es: seq<Entry>, m: MemoryId) { exists i | 0 <= i < |es| :: es[i].memory == m }

  function Without(es: seq<Entry>, m: MemoryId): (r: seq<Entry>)
    ensures forall e :: e in r <==> e in es && e.memory != m
  {
    if es == [] then []
    else
      var init, last := Without(es[..|es| - 1], m), es[|es| - 1];
      assert es == es[..|es| - 1] + [last];
      if last.memory == m then init else init + [last]
  }

  lemma WithoutSnoc(es: seq<Entry>, e: Entry, m: MemoryId)
    ensures Without(es + [e], m) == Without(es, m) + if e.memory == m then [] else [e]
  {
    assert (es + [e])[..|es|] == es;
  }

  lemma Regroups<T>(a: seq<T>, b: seq<T>, c: seq<T>)
    ensures a + (b + c) == a + b + c
  {
  }

  /** What is kept keeps its order. */
  lemma {:induction false} WithoutSplits(a: seq<Entry>, b: seq<Entry>, m: MemoryId)
    ensures Without(a + b, m) == Without(a, m) + Without(b, m)
    decreases |b|
  {
    if b == [] {
      assert a + b == a;
    } else {
      var init, last := b[..|b| - 1], b[|b| - 1];
      WithoutSplits(a, init, m);
      assert b == init + [last];
      Regroups(a, init, [last]);
      WithoutSnoc(a + init, last, m);
      WithoutSnoc(init, last, m);
      Regroups(Without(a, m), Without(init, m), if last.memory == m then [] else [last]);
    }
  }

  function FirstOf(es: seq<Entry>, m: MemoryId): (r: Option<Entry>)
    ensures r.Some? <==> Cites(es, m)
    ensures r.Some? ==> r.value in es && r.value.memory == m
  {
    if es == [] then None else if es[0].memory == m then Some(es[0])
    else
      assert forall i | 0 <= i < |es| - 1 :: es[1..][i] == es[i + 1];
      FirstOf(es[1..], m)
  }

  /** Entry `i` is the first of `m`. */
  predicate IsFirst(es: seq<Entry>, m: MemoryId, i: nat)
  {
    i < |es| && es[i].memory == m && forall j | 0 <= j < i :: es[j].memory != m
  }

  lemma {:induction false} FirstOfIsFirst(es: seq<Entry>, m: MemoryId, i: nat)
    requires IsFirst(es, m, i)
    ensures FirstOf(es, m) == Some(es[i])
    decreases i
  {
    if i > 0 {
      FirstOfIsFirst(es[1..], m, i - 1);
    }
  }

  lemma {:induction false} HasFirst(es: seq<Entry>, m: MemoryId) returns (i: nat)
    requires Cites(es, m)
    ensures IsFirst(es, m, i)
  {
    i := 0;
    if es[0].memory != m {
      assert forall k | 1 <= k < |es| :: es[1..][k - 1] == es[k];
      i := HasFirst(es[1..], m);
      i := i + 1;
    }
  }

  // ----- Forget ------------------------------------------------------------

  /** The list the forget reads: the overflow row when there is one, else the inline list. */
  function ForgetSource(c: Cell): seq<Entry>
  {
    if c.row.overflowId.Some? && c.row.overflowId.value in c.spill then c.spill[c.row.overflowId.value]
    else c.row.inline
  }

  predicate Affected(c: Cell, m: MemoryId)
  {
    !c.row.tombstoned && (Cites(c.row.inline, m) || Cites(ForgetSource(c), m))
  }

  function Journal(undo: map<MemoryId, Undo>, m: MemoryId, soft: bool, dropped: Option<Entry>, prior: Row,
                   outcome: Outcome): map<MemoryId, Undo>
  {
    if soft && dropped.Some? then undo[m := Undo(dropped.value, prior.isCurrent, prior.overflowId, outcome)] else undo
  }

  /** Write the surviving entries back: inline when they fit, else over the overflow row. */
  function Shrunk(c: Cell, remaining: seq<Entry>, confidence: real): Cell
  {
    if |remaining| <= INLINE_EVIDENCE_CAP then
      c.(row := c.row.(confidence := confidence, inline := remaining, overflowId := None))
    else
      var oid := if c.row.overflowId.Some? then c.row.overflowId.value else c.minted;
      var minted := if c.row.overflowId.Some? then c.minted else c.minted + 1;
      c.(row := c.row.(confidence := confidence, inline := [], overflowId := Some(oid)),
         spill := c.spill[oid := remaining], minted := minted)
  }

  /** The confidence of what survives; nothing left counts as zero. */
  function Rescored(c: Cell, m: MemoryId, agg: Aggregate, now: nat): real
  {
    var remaining := Without(ForgetSource(c), m);
    if remaining == [] then 0.0 else agg(remaining, now, c.row.kind)
  }

  function OutcomeOf(c: Cell, m: MemoryId, threshold: real): Outcome
  {
    if Without(ForgetSource(c), m) != [] then EVIDENCE_DROPPED else if 0.0 < threshold then TOMBSTONED else KEPT_STALE
  }

  /** The row, overflow, reverse-evidence and undo writes of the mutate pass. */
  function Mutate(c: Cell, m: MemoryId, agg: Aggregate, now: nat, threshold: real, soft: bool): Cell
  {
    Shrunk(c, Without(ForgetSource(c), m), Rescored(c, m, agg, now)).(
      cites := c.cites - {m},
      undo := Journal(c.undo, m, soft, FirstOf(ForgetSource(c), m), c.row, OutcomeOf(c, m, threshold)))
  }

  /** `rekey_predicate_index`. */
  function Rekey(c: Cell, oldConfidence: real, newConfidence: real): Cell
  {
    if Bucket(oldConfidence) == Bucket(newConfidence) then c
    else c.(buckets := c.buckets - {Bucket(oldConfidence)} + {Bucket(newConfidence)})
  }

  /** Removal of the overflow row a collapsed statement no longer references. */
  function Reclaim(c: Cell, oid: Option<nat>): Cell
  {
    if oid.Some? then c.(spill := c.spill - {oid.value}) else c
  }

  /** `flip_by_subject_to_current` and `flip_by_subject_to_noncurrent`. */
  function Flipped(listing: Listing, current: bool): Listing { listing.(current := current, former := !current) }

  /** `statement_tombstone` with reason `SourceMemoryForgotten`. */
  function TombstoneCell(c: Cell): Cell
  {
    if c.row.tombstoned then c
    else c.(row := c.row.(tombstoned := true, reason := SourceMemoryForgotten, isCurrent := false),
            buckets := if c.row.isCurrent then c.buckets - {Bucket(c.row.confidence)} else c.buckets,
            listing := (if c.row.isCurrent then Flipped(c.listing, false) else c.listing).(queued := false))
  }

  /** Whether the mutate pass leaves the old overflow row orphaned. */
  function Orphaned(c: Cell, m: MemoryId): Option<nat>
  {
    if |Without(ForgetSource(c), m)| <= INLINE_EVIDENCE_CAP then c.row.overflowId else None
  }

  predicate Doomed(c: Cell, m: MemoryId, threshold: real)
  {
    Without(ForgetSource(c), m) == [] && 0.0 < threshold
  }

  /** The mutate, re-key and reclaim passes over one affected statement. */
  function Rewritten(c: Cell, m: MemoryId, agg: Aggregate, now: nat, threshold: real, soft: bool): Cell
  {
    var mutated := Mutate(c, m, agg, now, threshold, soft);
    Reclaim(Rekey(mutated, c.row.confidence, Rescored(c, m, agg, now)), Orphaned(c, m))
  }

  /** The whole forget of one affected statement. */
  function ForgetCell(c: Cell, m: MemoryId, agg: Aggregate, now: nat, threshold: real, soft: bool): Cell
  {
    var rewritten := Rewritten(c, m, agg, now, threshold, soft);
    if Doomed(c, m, threshold) then TombstoneCell(rewritten) else rewritten
  }

  // ----- Revert ------------------------------------------------------------

  function RevertSource(c: Cell): seq<Entry>
  {
    if c.row.overflowId.None? then c.row.inline
    else if c.row.overflowId.value in c.spill then c.spill[c.row.overflowId.value] else []
  }

  function Reattached(es: seq<Entry>, e: Entry): seq<Entry>
  {
    if Cites(es, e.memory) then es else es + [e]
  }

  /** Write `es` back inline or to an overflow row: the current one, the recorded one, or a new one. */
  function StoreBack(c: Cell, es: seq<Entry>, prior: Option<nat>): Cell
  {
    if |es| <= INLINE_EVIDENCE_CAP then
      Reclaim(c, c.row.overflowId).(row := c.row.(inline := es, overflowId := None))
    else
      var oid := if c.row.overflowId.Some? then c.row.overflowId.value
                 else if prior.Some? then prior.value else c.minted;
      var minted := if c.row.overflowId.Some? || prior.Some? then c.minted else c.minted + 1;
      c.(row := c.row.(inline := [], overflowId := Some(oid)), spill := c.spill[oid := es], minted := minted)
  }

  /** Clear a tombstone this cascade set; a row tombstoned for another reason stays so. */
  function Reactivate(c: Cell, priorIsCurrent: bool, oldConfidence: real): Cell
  {
    if c.row.tombstoned && c.row.reason == SourceMemoryForgotten then
      c.(row := c.row.(tombstoned := false, reason := NotTombstoned, isCurrent := priorIsCurrent),
         buckets := c.buckets + {Bucket(c.row.confidence)},
         listing := (if priorIsCurrent then Flipped(c.listing, true) else c.listing).(queued := true))
    else if !c.row.tombstoned then Rekey(c, oldConfidence, c.row.confidence)
    else c
  }

  /** `revert_statement`. */
  function Reverted(c: Cell, rec: Undo, agg: Aggregate, now: nat): Cell
  {
    var es := Reattached(RevertSource(c), rec.dropped);
    var scored := c.(row := c.row.(confidence := agg(es, now, c.row.kind)), cites := c.cites + {rec.dropped.memory});
    Reactivate(StoreBack(scored, es, rec.priorOverflow), rec.priorIsCurrent, c.row.confidence)
  }

  lemma RevertedKeepsUndo(c: Cell, rec: Undo, agg: Aggregate, now: nat)
    ensures Reverted(c, rec, agg, now).undo == c.undo
  {
  }

  /** `revert_statement`, then removal of the consumed undo row. */
  function RevertCell(c: Cell, m: MemoryId, agg: Aggregate, now: nat): Cell
    requires m in c.undo
  {
    Reverted(c, c.undo[m], agg, now).(undo := c.undo - {m})
  }

  // ----- Agreement between the tables --------------------------------------

  /** Inline exactly when it fits, and an overflow row exactly when one is referenced. */
  predicate Stored(c: Cell)
  {
    if c.row.overflowId.None? then |c.row.inline| <= INLINE_EVIDENCE_CAP && c.spill.Keys == {}
    else
      var oid := c.row.overflowId.value;
      c.row.inline == [] && c.spill.Keys == {oid} && |c.spill[oid]| > INLINE_EVIDENCE_CAP
  }

  /** Every overflow id the statement holds or remembers was minted for it. */
  predicate Minted(c: Cell)
  {
    && (c.row.overflowId.Some? ==> c.row.overflowId.value < c.minted)
    && (forall m | m in c.undo && c.undo[m].priorOverflow.Some? :: c.undo[m].priorOverflow.value < c.minted)
  }

  /** The predicate index holds a live current statement under its bucket and no other statement. */
  predicate Indexed(c: Cell)
  {
    c.buckets == if !c.row.tombstoned && c.row.isCurrent then {Bucket(c.row.confidence)} else {}
  }

  /** The by-subject index holds the statement under exactly its current bit. */
  predicate BySubject(c: Cell) { c.listing.current == c.row.isCurrent && c.listing.former == !c.row.isCurrent }

  lemma {:induction false} WithoutIsShorter(es: seq<Entry>, m: MemoryId)
    ensures |Without(es, m)| <= |es|
  {
    if es != [] {
      WithoutIsShorter(es[..|es| - 1], m);
    }
  }

  /** `r` is `c` with the evidence `left`, scored and re-keyed to match, and nothing else of its row or
      listing changed. */
  predicate RescoredAs(c: Cell, r: Cell, left: seq<Entry>, confidence: real)
  {
    && RevertSource(r) == left && r.listing == c.listing
    && r.row == c.row.(confidence := confidence, inline := r.row.inline, overflowId := r.row.overflowId)
    && r.buckets == Rekey(c, c.row.confidence, confidence).buckets
  }

  lemma MutateLeaves(c: Cell, m: MemoryId, agg: Aggregate, now: nat, threshold: real, soft: bool)
    ensures
      var r := Mutate(c, m, agg, now, threshold, soft);
      && RevertSource(r) == Without(ForgetSource(c), m) && r.listing == c.listing && r.buckets == c.buckets
      && r.row == c.row.(confidence := Rescored(c, m, agg, now), inline := r.row.inline, overflowId := r.row.overflowId)
      && (Orphaned(c, m).Some? ==> r.row.overflowId.None?)
  {
  }

  /** Whatever state the tables were in, the three passes leave exactly the entries they kept. */
  lemma RewrittenIs(c: Cell, m: MemoryId, agg: Aggregate, now: nat, threshold: real, soft: bool)
    ensures RescoredAs(c, Rewritten(c, m, agg, now, threshold, soft), Without(ForgetSource(c), m),
                       Rescored(c, m, agg, now))
  {
    MutateLeaves(c, m, agg, now, threshold, soft);
  }

  /** A forget stores exactly the surviving entries, reclaiming the overflow row they no longer need. */
  lemma ForgetStores(c: Cell, m: MemoryId, agg: Aggregate, now: nat, threshold: real, soft: bool)
    requires Stored(c)
    ensures
      var r := ForgetCell(c, m, agg, now, threshold, soft);
      && Stored(r) && RevertSource(r) == Without(RevertSource(c), m)
      && (r.row.overflowId.Some? ==> r.row.overflowId == c.row.overflowId)
  {
    WithoutIsShorter(ForgetSource(c), m);
    RewrittenIs(c, m, agg, now, threshold, soft);
    RewrittenIsStored(c, m, agg, now, threshold, soft);
  }

  lemma RewrittenIsStored(c: Cell, m: MemoryId, agg: Aggregate, now: nat, threshold: real, soft: bool)
    requires Stored(c) && |Without(ForgetSource(c), m)| <= |ForgetSource(c)|
    ensures
      var r := Rewritten(c, m, agg, now, threshold, soft);
      Stored(r) && (r.row.overflowId.Some? ==> r.row.overflowId == c.row.overflowId)
  {
    ShrunkIsStored(c, Without(ForgetSource(c), m), Rescored(c, m, agg, now));
  }

  lemma ShrunkIsStored(c: Cell, left: seq<Entry>, confidence: real)
    requires Stored(c) && |left| <= |ForgetSource(c)|
    ensures
      var r := Reclaim(Shrunk(c, left, confidence), if |left| <= INLINE_EVIDENCE_CAP then c.row.overflowId else None);
      Stored(r) && (r.row.overflowId.Some? ==> r.row.overflowId == c.row.overflowId)
  {
  }

  lemma RewrittenKeepsMinted(c: Cell, m: MemoryId, agg: Aggregate, now: nat, threshold: real, soft: bool)
    requires Minted(c)
    ensures Minted(Rewritten(c, m, agg, now, threshold, soft))
  {
    assert Minted(Mutate(c, m, agg, now, threshold, soft));
  }

  lemma TombstoneKeepsMinted(r: Cell)
    requires Minted(r)
    ensures Minted(TombstoneCell(r))
  {
  }

  lemma ForgetKeepsMinted(c: Cell, m: MemoryId, agg: Aggregate, now: nat, threshold: real, soft: bool)
    requires Minted(c)
    ensures Minted(ForgetCell(c, m, agg, now, threshold, soft))
  {
    RewrittenKeepsMinted(c, m, agg, now, threshold, soft);
    TombstoneKeepsMinted(Rewritten(c, m, agg, now, threshold, soft));
  }

  /** `r` is `c` with other evidence stored. */
  predicate RestoredAs(c: Cell, r: Cell, es: seq<Entry>)
  {
    && RevertSource(r) == es
    && r.listing == c.listing && r.buckets == c.buckets && r.cites == c.cites && r.undo == c.undo
    && r.row == c.row.(inline := r.row.inline, overflowId := r.row.overflowId)
  }

  /** Writing back touches nothing but the storage. */
  lemma StoreBackIs(c: Cell, es: seq<Entry>, prior: Option<nat>)
    ensures RestoredAs(c, StoreBack(c, es, prior), es)
  {
  }

  lemma StoreBackStores(c: Cell, es: seq<Entry>, prior: Option<nat>)
    requires Stored(c)
    ensures Stored(StoreBack(c, es, prior))
  {
  }

  /** Clearing the tombstone leaves the storage alone. */
  lemma ReactivateKeepsStorage(c: Cell, priorIsCurrent: bool, oldConfidence: real)
    ensures
      var r := Reactivate(c, priorIsCurrent, oldConfidence);
      && r.spill == c.spill && r.minted == c.minted && r.cites == c.cites && r.undo == c.undo
      && r.row == c.row.(tombstoned := r.row.tombstoned, reason := r.row.reason, isCurrent := r.row.isCurrent)
  {
  }

  /** A revert stores exactly the surviving entries and the dropped one. */
  lemma RevertStores(c: Cell, m: MemoryId, agg: Aggregate, now: nat)
    requires Stored(c) && m in c.undo
    ensures
      var r, rec, es := RevertCell(c, m, agg, now), c.undo[m], RevertSource(c);
      && Stored(r) && RevertSource(r) == (if Cites(es, rec.dropped.memory) then es else es + [rec.dropped])
      && (r.row.overflowId.Some? && c.row.overflowId.Some? ==> r.row.overflowId == c.row.overflowId)
      && (r.row.overflowId.Some? && c.row.overflowId.None? && rec.priorOverflow.Some?
          ==> r.row.overflowId == rec.priorOverflow)
  {
    var rec := c.undo[m];
    var es := Reattached(RevertSource(c), rec.dropped);
    var scored := c.(row := c.row.(confidence := agg(es, now, c.row.kind)), cites := c.cites + {rec.dropped.memory});
    StoreBackStores(scored, es, rec.priorOverflow);
    StoreBackIs(scored, es, rec.priorOverflow);
    var stored := StoreBack(scored, es, rec.priorOverflow);
    ReactivateKeepsStorage(stored, rec.priorIsCurrent, c.row.confidence);
    assert RevertCell(c, m, agg, now)
      == Reactivate(stored, rec.priorIsCurrent, c.row.confidence).(undo := c.undo - {m});
  }

  lemma RevertKeepsMinted(c: Cell, m: MemoryId, agg: Aggregate, now: nat)
    requires Minted(c) && m in c.undo
    ensures Minted(RevertCell(c, m, agg, now))
  {
    var rec := c.undo[m];
    var es := Reattached(RevertSource(c), rec.dropped);
    var scored := c.(row := c.row.(confidence := agg(es, now, c.row.kind)), cites := c.cites + {rec.dropped.memory});
    assert Minted(StoreBack(scored, es, rec.priorOverflow));
    ReactivateKeepsStorage(StoreBack(scored, es, rec.priorOverflow), rec.priorIsCurrent, c.row.confidence);
  }

  /** Forgetting keeps the predicate index exact for current statements; for a superseded one
      it does so exactly when the confidence stays in its bucket. */
  lemma ForgetKeepsIndexIff(c: Cell, m: MemoryId, agg: Aggregate, now: nat, threshold: real, soft: bool)
    requires Indexed(c) && Affected(c, m)
    ensures
      var bucket := Bucket(Rescored(c, m, agg, now));
      Indexed(ForgetCell(c, m, agg, now, threshold, soft)) <==> c.row.isCurrent || bucket == Bucket(c.row.confidence)
  {
    RewrittenIs(c, m, agg, now, threshold, soft);
    RescoredIndexIff(c, Rewritten(c, m, agg, now, threshold, soft), Without(ForgetSource(c), m),
                     Rescored(c, m, agg, now));
  }

  lemma RescoredIndexIff(c: Cell, r: Cell, left: seq<Entry>, confidence: real)
    requires Indexed(c) && !c.row.tombstoned && RescoredAs(c, r, left, confidence)
    ensures Indexed(r) <==> c.row.isCurrent || Bucket(confidence) == Bucket(c.row.confidence)
    ensures Indexed(TombstoneCell(r)) <==> c.row.isCurrent || Bucket(confidence) == Bucket(c.row.confidence)
  {
    if !c.row.isCurrent && Bucket(confidence) != Bucket(c.row.confidence) {
      assert Bucket(confidence) in r.buckets && Bucket(confidence) in TombstoneCell(r).buckets;
    }
  }

  /** Reverting keeps it exact when the row comes back current, is left dead, or is a live
      superseded one whose bucket does not move; never otherwise. */
  lemma RevertKeepsIndexIff(c: Cell, m: MemoryId, agg: Aggregate, now: nat)
    requires Indexed(c) && m in c.undo
    ensures
      var bucket := Bucket(agg(Reattached(RevertSource(c), c.undo[m].dropped), now, c.row.kind));
      Indexed(RevertCell(c, m, agg, now)) <==>
        if c.row.tombstoned then c.row.reason == SourceMemoryForgotten ==> c.undo[m].priorIsCurrent
        else c.row.isCurrent || bucket == Bucket(c.row.confidence)
  {
    var bucket := Bucket(agg(Reattached(RevertSource(c), c.undo[m].dropped), now, c.row.kind));
    var r := RevertCell(c, m, agg, now);
    if c.row.tombstoned && c.row.reason == SourceMemoryForgotten {
      assert bucket in r.buckets;
    } else if !c.row.tombstoned && bucket != Bucket(c.row.confidence) {
      assert bucket in r.buckets;
    }
  }

  /** A forget keeps the by-subject index exact; so does a revert, and it queues what it brings back. */
  lemma ForgetKeepsSubject(c: Cell, m: MemoryId, agg: Aggregate, now: nat, threshold: real)
    requires !c.row.tombstoned
    ensures
      var r := ForgetCell(c, m, agg, now, threshold, true);
      && r.row.pending == c.row.pending && (BySubject(c) ==> BySubject(r))
      && r.listing == if r.row.tombstoned then TombstoneCell(c).listing else c.listing
  {
    RewrittenIs(c, m, agg, now, threshold, true);
  }

  lemma RevertKeepsSubject(c: Cell, m: MemoryId, agg: Aggregate, now: nat)
    requires m in c.undo && (c.row.tombstoned ==> !c.row.isCurrent)
    ensures
      var r := RevertCell(c, m, agg, now);
      && r.row.pending == c.row.pending && (BySubject(c) ==> BySubject(r))
      && r.listing == if c.row.tombstoned && !r.row.tombstoned
                      then (if c.undo[m].priorIsCurrent then Flipped(c.listing, true) else c.listing).(queued := true)
                      else c.listing
  {
    var rec := c.undo[m];
    var es := Reattached(RevertSource(c), rec.dropped);
    var scored := c.(row := c.row.(confidence := agg(es, now, c.row.kind)), cites := c.cites + {rec.dropped.memory});
    StoreBackIs(scored, es, rec.priorOverflow);
    ReactivateLists(StoreBack(scored, es, rec.priorOverflow), rec.priorIsCurrent, c.row.confidence);
  }

  lemma ReactivateLists(c: Cell, priorIsCurrent: bool, oldConfidence: real)
    requires c.row.tombstoned ==> !c.row.isCurrent
    ensures
      var r := Reactivate(c, priorIsCurrent, oldConfidence);
      && r.row.pending == c.row.pending && (BySubject(c) ==> BySubject(r))
      && r.listing == if c.row.tombstoned && !r.row.tombstoned
                      then (if priorIsCurrent then Flipped(c.listing, true) else c.listing).(queued := true)
                      else c.listing
  {
  }

  // ----- Whole runs --------------------------------------------------------

  /** `es` lists the evidence `ev`, each memory once, in any order. */
  predicate Lists(es: seq<Entry>, ev: map<MemoryId, Entry>)
  {
    && (forall i | 0 <= i < |es| :: es[i].memory in ev && ev[es[i].memory] == es[i])
    && (forall m | m in ev :: ev[m] in es && ev[m].memory == m)
    && (forall i, j | 0 <= i < j < |es| :: es[i].memory != es[j].memory)
  }

  datatype Event = Forget(memory: MemoryId, now: nat) | Revert(memory: MemoryId, now: nat)

  /** A drained soft forget or revert, as it meets one statement. */
  function Apply(c: Cell, ev: Event, agg: Aggregate, threshold: real): Cell
  {
    match ev
    case Forget(m, now) => if Affected(c, m) then ForgetCell(c, m, agg, now, threshold, true) else c
    case Revert(m, now) => if m in c.undo then RevertCell(c, m, agg, now) else c
  }

  function Run(c: Cell, events: seq<Event>, agg: Aggregate, threshold: real): Cell
  {
    if events == [] then c
    else Apply(Run(c, events[..|events| - 1], agg, threshold), events[|events| - 1], agg, threshold)
  }

  function Moved(forgotten: set<MemoryId>, ev: Event): set<MemoryId>
  {
    if ev.Forget? then forgotten + {ev.memory} else forgotten - {ev.memory}
  }

  /** The memories forgotten and not taken back. */
  function Forgotten(events: seq<Event>): set<MemoryId>
  {
    if events == [] then {} else Moved(Forgotten(events[..|events| - 1]), events[|events| - 1])
  }

  /** Some prefix of the run had forgotten all the evidence. */
  predicate Died(original: set<MemoryId>, events: seq<Event>)
  {
    original <= Forgotten(events) || (events != [] && Died(original, events[..|events| - 1]))
  }

  /** Some instant of the run had all the evidence forgotten. */
  ghost predicate AllForgottenOnce(original: set<MemoryId>, events: seq<Event>)
  {
    exists i | 0 <= i <= |events| :: original <= Forgotten(events[..i])
  }

  lemma {:induction false} DiedAtPrefix(original: set<MemoryId>, events: seq<Event>) returns (i: nat)
    requires Died(original, events)
    ensures i <= |events| && original <= Forgotten(events[..i])
  {
    i := |events|;
    assert events[..i] == events;
    if !(original <= Forgotten(events)) {
      var init := events[..i - 1];
      i := DiedAtPrefix(original, init);
      assert init[..i] == events[..i];
    }
  }

  lemma {:induction false} PrefixDies(original: set<MemoryId>, events: seq<Event>, i: nat)
    requires i <= |events| && original <= Forgotten(events[..i])
    ensures Died(original, events)
  {
    if i == |events| {
      assert events[..i] == events;
    } else {
      var init := events[..|events| - 1];
      assert init[..i] == events[..i];
      PrefixDies(original, init, i);
    }
  }

  lemma DiedIff(original: set<MemoryId>, events: seq<Event>)
    ensures Died(original, events) <==> AllForgottenOnce(original, events)
  {
    if Died(original, events) {
      var i := DiedAtPrefix(original, events);
    } else if AllForgottenOnce(original, events) {
      var i :| 0 <= i <= |events| && original <= Forgotten(events[..i]);
      PrefixDies(original, events, i);
    }
  }

  /** The stored evidence is `left`, the reverse rows say so, and the row is dead exactly when it is
      empty and an empty one `dies`. */
  predicate Holds(c: Cell, left: map<MemoryId, Entry>, wasCurrent: bool, dies: bool)
  {
    && Lists(RevertSource(c), left)
    && c.cites == left.Keys
    && (c.row.tombstoned <==> left == map[] && dies)
    && (if c.row.tombstoned then c.row.reason == SourceMemoryForgotten && !c.row.isCurrent
        else c.row.isCurrent == wasCurrent)
  }

  /** There is an undo row for exactly the evidence that is gone, and it says what it was. */
  predicate Remembers(undo: map<MemoryId, Undo>, original: map<MemoryId, Entry>, left: map<MemoryId, Entry>,
                      wasCurrent: bool)
  {
    && undo.Keys == original.Keys - left.Keys
    && (forall m | m in undo :: undo[m].dropped == original[m] && undo[m].priorIsCurrent == wasCurrent)
  }

  /** Everything a run keeps about one statement, whose evidence was `original` and is `left`. */
  predicate Tracks(c: Cell, original: map<MemoryId, Entry>, left: map<MemoryId, Entry>, wasCurrent: bool, dies: bool)
  {
    && Stored(c) && Minted(c) && (wasCurrent ==> Indexed(c))
    && Holds(c, left, wasCurrent, dies) && Remembers(c.undo, original, left, wasCurrent)
    && (!c.row.pending ==> BySubject(c)) && (c.row.tombstoned ==> !c.listing.queued)
  }

  /** A live statement, agreeing with its tables, whose evidence is non-empty and duplicate-free. */
  predicate Intact(c: Cell, original: map<MemoryId, Entry>)
  {
    && Stored(c) && Minted(c) && Indexed(c) && !c.row.tombstoned && c.undo.Keys == {}
    && original != map[] && Lists(RevertSource(c), original) && c.cites == original.Keys
    && (if c.row.pending then !c.listing.current && !c.listing.former else BySubject(c))
  }

  lemma {:induction false} WithoutLists(es: seq<Entry>, ev: map<MemoryId, Entry>, m: MemoryId)
    requires Lists(es, ev)
    ensures Lists(Without(es, m), ev - {m})
  {
    WithoutIsDistinct(es, m);
    var r := Without(es, m);
    forall i | 0 <= i < |r|
      ensures r[i].memory in ev - {m} && (ev - {m})[r[i].memory] == r[i]
    {
      assert r[i] in es;
    }
  }

  lemma {:induction false} WithoutIsDistinct(es: seq<Entry>, m: MemoryId)
    requires forall i, j | 0 <= i < j < |es| :: es[i].memory != es[j].memory
    ensures forall i, j | 0 <= i < j < |Without(es, m)| :: Without(es, m)[i].memory != Without(es, m)[j].memory
  {
    if es != [] {
      var init, last := es[..|es| - 1], es[|es| - 1];
      WithoutIsDistinct(init, m);
      forall i | 0 <= i < |Without(init, m)|
        ensures Without(init, m)[i].memory != last.memory
      {
        assert Without(init, m)[i] in init;
      }
    }
  }

  lemma ReattachedLists(es: seq<Entry>, ev: map<MemoryId, Entry>, e: Entry)
    requires Lists(es, ev) && e.memory !in ev
    ensures Lists(Reattached(es, e), ev[e.memory := e])
  {
    assert !Cites(es, e.memory);
    assert (es + [e])[|es|] == e;
  }

  lemma CitesIffListed(es: seq<Entry>, ev: map<MemoryId, Entry>, m: MemoryId)
    requires Lists(es, ev)
    ensures Cites(es, m) <==> m in ev
    ensures m in ev ==> FirstOf(es, m) == Some(ev[m])
    ensures es == [] <==> ev == map[]
  {
    if m in ev {
      assert ev[m] in es;
    }
    if es != [] {
      assert es[0].memory in ev;
    }
  }

  /** What a soft forget of a cited memory does to the undo and reverse-evidence rows. */
  lemma ForgetJournals(c: Cell, m: MemoryId, agg: Aggregate, now: nat, threshold: real, i: nat)
    requires IsFirst(ForgetSource(c), m, i) && !c.row.tombstoned
    ensures
      var r := ForgetCell(c, m, agg, now, threshold, true);
      var outcome := if RevertSource(r) != [] then EVIDENCE_DROPPED
                     else if r.row.tombstoned then TOMBSTONED else KEPT_STALE;
      && r.cites == c.cites - {m}
      && r.undo == c.undo[m := Undo(ForgetSource(c)[i], c.row.isCurrent, c.row.overflowId, outcome)]
  {
    FirstOfIsFirst(ForgetSource(c), m, i);
    RewrittenIs(c, m, agg, now, threshold, true);
    RewrittenJournals(c, m, agg, now, threshold, true);
  }

  lemma RewrittenJournals(c: Cell, m: MemoryId, agg: Aggregate, now: nat, threshold: real, soft: bool)
    ensures
      var r := Rewritten(c, m, agg, now, threshold, soft);
      && r.cites == c.cites - {m}
      && r.undo == Journal(c.undo, m, soft, FirstOf(ForgetSource(c), m), c.row, OutcomeOf(c, m, threshold))
  {
  }

  lemma MutateHardly(c: Cell, m: MemoryId, agg: Aggregate, now: nat, threshold: real)
    ensures Mutate(c, m, agg, now, threshold, false) == Mutate(c, m, agg, now, threshold, true).(undo := c.undo)
  {
  }

  lemma RewriteHardly(c: Cell, m: MemoryId, agg: Aggregate, now: nat, threshold: real)
    ensures Rewritten(c, m, agg, now, threshold, false) == Rewritten(c, m, agg, now, threshold, true).(undo := c.undo)
  {
    MutateHardly(c, m, agg, now, threshold);
  }

  /** A hard forget is a soft one that leaves no record. */
  lemma HardForgetIsSilent(c: Cell, m: MemoryId, agg: Aggregate, now: nat, threshold: real)
    ensures ForgetCell(c, m, agg, now, threshold, false)
         == ForgetCell(c, m, agg, now, threshold, true).(undo := c.undo)
  {
    RewriteHardly(c, m, agg, now, threshold);
  }

  /** What a forget does to the flags of a live statement. */
  lemma ForgetMarks(c: Cell, m: MemoryId, agg: Aggregate, now: nat, threshold: real)
    requires !c.row.tombstoned
    ensures
      var r := ForgetCell(c, m, agg, now, threshold, true).row;
      && (r.tombstoned <==> Without(ForgetSource(c), m) == [] && threshold > 0.0)
      && (r.tombstoned ==> r.reason == SourceMemoryForgotten && !r.isCurrent)
      && (!r.tombstoned ==> r.isCurrent == c.row.isCurrent)
  {
    RewrittenIs(c, m, agg, now, threshold, true);
  }

  lemma RemembersOneMore(undo: map<MemoryId, Undo>, rec: Undo, m: MemoryId, original: map<MemoryId, Entry>,
                         left: map<MemoryId, Entry>, wasCurrent: bool)
    requires Remembers(undo, original, left, wasCurrent) && m in left && m in original
    requires rec.dropped == original[m] && rec.priorIsCurrent == wasCurrent
    ensures Remembers(undo[m := rec], original, left - {m}, wasCurrent)
  {
  }

  lemma HoldsOneFewer(c: Cell, r: Cell, m: MemoryId, left: map<MemoryId, Entry>, wasCurrent: bool, dies: bool)
    requires Holds(c, left, wasCurrent, dies) && m in left
    requires RevertSource(r) == Without(RevertSource(c), m) && r.cites == c.cites - {m}
    requires r.row.tombstoned <==> RevertSource(r) == [] && dies
    requires if r.row.tombstoned then r.row.reason == SourceMemoryForgotten && !r.row.isCurrent
             else r.row.isCurrent == wasCurrent
    ensures Holds(r, left - {m}, wasCurrent, dies)
  {
    WithoutLists(RevertSource(c), left, m);
    CitesIffListed(RevertSource(r), left - {m}, m);
  }

  lemma ForgetTracks(c: Cell, m: MemoryId, agg: Aggregate, now: nat, threshold: real,
                     original: map<MemoryId, Entry>, left: map<MemoryId, Entry>, wasCurrent: bool)
    requires Tracks(c, original, left, wasCurrent, threshold > 0.0)
    requires m in left && m in original && left[m] == original[m]
    ensures Affected(c, m)
    ensures Tracks(ForgetCell(c, m, agg, now, threshold, true), original, left - {m}, wasCurrent, threshold > 0.0)
  {
    CitesIffListed(RevertSource(c), left, m);
    var r := ForgetCell(c, m, agg, now, threshold, true);
    ForgetStores(c, m, agg, now, threshold, true);
    ForgetKeepsMinted(c, m, agg, now, threshold, true);
    var i := HasFirst(ForgetSource(c), m);
    ForgetJournals(c, m, agg, now, threshold, i);
    ForgetMarks(c, m, agg, now, threshold);
    ForgetKeepsSubject(c, m, agg, now, threshold);
    if wasCurrent {
      ForgetKeepsIndexIff(c, m, agg, now, threshold, true);
    }
    HoldsOneFewer(c, r, m, left, wasCurrent, threshold > 0.0);
    RemembersOneMore(c.undo, r.undo[m], m, original, left, wasCurrent);
  }

  /** What a revert does besides storing the evidence. */
  lemma RevertMarks(c: Cell, m: MemoryId, agg: Aggregate, now: nat)
    requires m in c.undo && c.undo[m].dropped.memory == m
    ensures
      var r := RevertCell(c, m, agg, now);
      && r.cites == c.cites + {m} && r.undo == c.undo - {m}
      && (r.row.tombstoned <==> c.row.tombstoned && c.row.reason != SourceMemoryForgotten)
      && (!r.row.tombstoned ==>
            r.row.isCurrent == if c.row.tombstoned then c.undo[m].priorIsCurrent else c.row.isCurrent)
  {
  }

  lemma RevertTracks(c: Cell, m: MemoryId, agg: Aggregate, now: nat,
                     original: map<MemoryId, Entry>, left: map<MemoryId, Entry>, wasCurrent: bool, dies: bool)
    requires Tracks(c, original, left, wasCurrent, dies) && m in original && m !in left && original[m].memory == m
    ensures m in c.undo && Tracks(RevertCell(c, m, agg, now), original, left[m := original[m]], wasCurrent, dies)
  {
    RevertStores(c, m, agg, now);
    RevertKeepsMinted(c, m, agg, now);
    RevertMarks(c, m, agg, now);
    RevertKeepsSubject(c, m, agg, now);
    if wasCurrent {
      RevertKeepsIndexIff(c, m, agg, now);
    }
    HoldsOneMore(c, RevertCell(c, m, agg, now), original[m], left, wasCurrent, dies);
  }

  lemma HoldsOneMore(c: Cell, r: Cell, e: Entry, left: map<MemoryId, Entry>, wasCurrent: bool, dies: bool)
    requires Holds(c, left, wasCurrent, dies) && e.memory !in left
    requires
      var es := RevertSource(c);
      RevertSource(r) == (if Cites(es, e.memory) then es else es + [e]) && r.cites == c.cites + {e.memory}
    requires !r.row.tombstoned && r.row.isCurrent == wasCurrent
    ensures Holds(r, left[e.memory := e], wasCurrent, dies)
  {
    ReattachedLists(RevertSource(c), left, e);
  }

  lemma ForgetStepTracks(c: Cell, m: MemoryId, agg: Aggregate, now: nat, threshold: real,
                         original: map<MemoryId, Entry>, left: map<MemoryId, Entry>, wasCurrent: bool)
    requires Tracks(c, original, left, wasCurrent, threshold > 0.0)
    requires m in left ==> m in original && left[m] == original[m]
    ensures Tracks(Apply(c, Forget(m, now), agg, threshold), original, left - {m}, wasCurrent, threshold > 0.0)
  {
    CitesIffListed(RevertSource(c), left, m);
    if m in left {
      ForgetTracks(c, m, agg, now, threshold, original, left, wasCurrent);
    } else {
      assert left - {m} == left;
    }
  }

  lemma RevertStepTracks(c: Cell, m: MemoryId, agg: Aggregate, now: nat, threshold: real,
                         original: map<MemoryId, Entry>, left: map<MemoryId, Entry>, wasCurrent: bool)
    requires Tracks(c, original, left, wasCurrent, threshold > 0.0) && left.Keys <= original.Keys
    requires m in original ==> original[m].memory == m && (m in left ==> left[m] == original[m])
    ensures Tracks(Apply(c, Revert(m, now), agg, threshold), original,
                   if m in original then left[m := original[m]] else left, wasCurrent, threshold > 0.0)
  {
    if m in original && m !in left {
      RevertTracks(c, m, agg, now, original, left, wasCurrent, threshold > 0.0);
    } else if m in original {
      assert left[m := original[m]] == left;
    }
  }

  /** How the expected evidence moves with the set of forgotten memories. */
  lemma RemainderMoves(original: map<MemoryId, Entry>, forgotten: set<MemoryId>, m: MemoryId)
    ensures original - forgotten - {m} == original - (forgotten + {m})
    ensures original - (forgotten - {m})
         == if m in original then (original - forgotten)[m := original[m]] else original - forgotten
  {
  }

  lemma StepTracks(c: Cell, ev: Event, agg: Aggregate, threshold: real, original: map<MemoryId, Entry>,
                   wasCurrent: bool, forgotten: set<MemoryId>)
    requires Tracks(c, original, original - forgotten, wasCurrent, threshold > 0.0)
    requires forall m | m in original :: original[m].memory == m
    ensures Tracks(Apply(c, ev, agg, threshold), original, original - Moved(forgotten, ev), wasCurrent,
                   threshold > 0.0)
  {
    RemainderMoves(original, forgotten, ev.memory);
    match ev {
      case Forget(m, now) => ForgetStepTracks(c, m, agg, now, threshold, original, original - forgotten, wasCurrent);
      case Revert(m, now) => RevertStepTracks(c, m, agg, now, threshold, original, original - forgotten, wasCurrent);
    }
  }

  /** Over every run of forgets and reverts, in any order: the evidence is the original set
      less the currently forgotten memories, the statement is tombstoned exactly when that is
      empty and the threshold is positive, and its rows in the other tables agree. */
  lemma {:induction false} RunTracks(c: Cell, events: seq<Event>, agg: Aggregate, threshold: real,
                                     original: map<MemoryId, Entry>)
    requires Intact(c, original)
    ensures Tracks(Run(c, events, agg, threshold), original, original - Forgotten(events), c.row.isCurrent,
                   threshold > 0.0)
  {
    if events == [] {
      assert original - {} == original;
    } else {
      var before, last := events[..|events| - 1], events[|events| - 1];
      RunTracks(c, before, agg, threshold, original);
      StepTracks(Run(c, before, agg, threshold), last, agg, threshold, original, c.row.isCurrent, Forgotten(before));
    }
  }

  // ----- The confidence ------------------------------------------------------------

  /** The confidence is the aggregate of the stored evidence at `now`, and zero when there is none. */
  predicate ScoredAt(c: Cell, agg: Aggregate, now: nat)
  {
    c.row.confidence == if RevertSource(c) == [] then 0.0 else agg(RevertSource(c), now, c.row.kind)
  }

  /** The parts of a row no forget or revert touches. */
  predicate SameStatement(a: Row, b: Row)
  {
    && a.scope == b.scope && a.subject == b.subject && a.pending == b.pending
    && a.predicateId == b.predicateId && a.kind == b.kind
  }

  lemma ForgetIsScored(c: Cell, m: MemoryId, agg: Aggregate, now: nat, threshold: real)
    ensures
      var r := ForgetCell(c, m, agg, now, threshold, true);
      ScoredAt(r, agg, now) && SameStatement(r.row, c.row)
  {
    RewrittenIs(c, m, agg, now, threshold, true);
    RescoredIsScored(c, Rewritten(c, m, agg, now, threshold, true), Without(ForgetSource(c), m), agg, now);
  }

  lemma RescoredIsScored(c: Cell, r: Cell, left: seq<Entry>, agg: Aggregate, now: nat)
    requires RescoredAs(c, r, left, if left == [] then 0.0 else agg(left, now, c.row.kind))
    ensures ScoredAt(r, agg, now) && SameStatement(r.row, c.row)
    ensures ScoredAt(TombstoneCell(r), agg, now) && SameStatement(TombstoneCell(r).row, c.row)
  {
  }

  lemma RevertIsScored(c: Cell, m: MemoryId, agg: Aggregate, now: nat)
    requires m in c.undo
    ensures
      var r := RevertCell(c, m, agg, now);
      ScoredAt(r, agg, now) && SameStatement(r.row, c.row)
  {
    var rec := c.undo[m];
    var es := Reattached(RevertSource(c), rec.dropped);
    var scored := c.(row := c.row.(confidence := agg(es, now, c.row.kind)), cites := c.cites + {rec.dropped.memory});
    StoreBackIs(scored, es, rec.priorOverflow);
    ReactivateKeepsStorage(StoreBack(scored, es, rec.priorOverflow), rec.priorIsCurrent, c.row.confidence);
  }

  /** The clock of the last event that changed a statement with this evidence: a forget of a memory it
      still had, or a revert of one it had lost. */
  function LastEffect(original: set<MemoryId>, events: seq<Event>): Option<nat>
  {
    if events == [] then None
    else
      var before, last := events[..|events| - 1], events[|events| - 1];
      if last.memory in original && (last.memory in Forgotten(before) <==> last.Revert?) then Some(last.now)
      else LastEffect(original, before)
  }

  /** The confidence is as it was until the first event that changes the statement, and then the
      aggregate of the evidence at the clock of the last one. */
  predicate ScoredSince(c: Cell, was: Row, agg: Aggregate, last: Option<nat>)
  {
    SameStatement(c.row, was) && if last.None? then c.row.confidence == was.confidence else ScoredAt(c, agg, last.value)
  }

  lemma StepIsScored(c: Cell, ev: Event, agg: Aggregate, threshold: real, original: map<MemoryId, Entry>,
                     wasCurrent: bool, forgotten: set<MemoryId>, was: Row, last: Option<nat>)
    requires Tracks(c, original, original - forgotten, wasCurrent, threshold > 0.0) && ScoredSince(c, was, agg, last)
    requires forall m | m in original :: original[m].memory == m
    ensures
      var effective := ev.memory in original && (ev.memory in forgotten <==> ev.Revert?);
      ScoredSince(Apply(c, ev, agg, threshold), was, agg, if effective then Some(ev.now) else last)
  {
    CitesIffListed(RevertSource(c), original - forgotten, ev.memory);
    match ev {
      case Forget(m, now) =>
        ForgetIsScored(c, m, agg, now, threshold);
      case Revert(m, now) =>
        if m in c.undo {
          RevertIsScored(c, m, agg, now);
        }
    }
  }

  /** Over every run: no forget that took evidence and no revert that gave some back left the
      confidence stale. */
  lemma {:induction false} RunIsScored(c: Cell, events: seq<Event>, agg: Aggregate, threshold: real,
                                       original: map<MemoryId, Entry>)
    requires Intact(c, original)
    ensures ScoredSince(Run(c, events, agg, threshold), c.row, agg, LastEffect(original.Keys, events))
  {
    if events != [] {
      var before, last := events[..|events| - 1], events[|events| - 1];
      RunIsScored(c, before, agg, threshold, original);
      RunTracks(c, before, agg, threshold, original);
      StepIsScored(Run(c, before, agg, threshold), last, agg, threshold, original, c.row.isCurrent, Forgotten(before),
                   c.row, LastEffect(original.Keys, before));
    }
  }

  /** A row deleted for another reason is never brought back or put in an index, by any run. */
  lemma {:induction false} OtherReasonStaysDead(c: Cell, events: seq<Event>, agg: Aggregate, threshold: real)
    requires c.row.tombstoned && c.row.reason != SourceMemoryForgotten
    ensures
      var r := Run(c, events, agg, threshold);
      && r.row.tombstoned && r.row.reason == c.row.reason && r.row.isCurrent == c.row.isCurrent
      && r.buckets == c.buckets && r.listing == c.listing
  {
    if events != [] {
      var before, last := events[..|events| - 1], events[|events| - 1];
      OtherReasonStaysDead(c, before, agg, threshold);
      if last.Revert? && last.memory in Run(c, before, agg, threshold).undo {
        RevertLeavesDead(Run(c, before, agg, threshold), last.memory, agg, last.now);
      }
    }
  }

  lemma RevertLeavesDead(c: Cell, m: MemoryId, agg: Aggregate, now: nat)
    requires m in c.undo && c.row.tombstoned && c.row.reason != SourceMemoryForgotten
    ensures
      var r := RevertCell(c, m, agg, now);
      && r.row == c.row.(confidence := r.row.confidence, inline := r.row.inline, overflowId := r.row.overflowId)
      && r.buckets == c.buckets && r.listing == c.listing
  {
  }

  /** Taking everything back, in any order, restores the statement as it was up to the order
      of its evidence, its confidence and its overflow id. */
  lemma RevertedRunRestores(c: Cell, events: seq<Event>, agg: Aggregate, threshold: real,
                            original: map<MemoryId, Entry>)
    requires Intact(c, original) && Forgotten(events) !! original.Keys
    ensures
      var r := Run(c, events, agg, threshold);
      && Lists(RevertSource(r), original) && !r.row.tombstoned && r.row.isCurrent == c.row.isCurrent
      && r.cites == c.cites && r.undo == c.undo && (c.row.isCurrent ==> Indexed(r)) && Stored(r)
      && (!c.row.pending ==> BySubject(r))
  {
    RunTracks(c, events, agg, threshold, original);
    RunIsScored(c, events, agg, threshold, original);
    assert original - Forgotten(events) == original;
  }

  // ----- The by-subject rows of a pending statement -----------------------------

  /** The statement has a by-subject row, under its current bit, exactly when `listed`. */
  predicate ListedIf(c: Cell, listed: bool)
  {
    c.listing.current == (listed && c.row.isCurrent) && c.listing.former == (listed && !c.row.isCurrent)
  }

  lemma NothingLeftIff(original: map<MemoryId, Entry>, forgotten: set<MemoryId>, m: MemoryId)
    ensures original - forgotten - {m} == map[] <==> original.Keys <= forgotten + {m}
  {
    var left := original - forgotten - {m};
    if left != map[] {
      var x :| x in left;
      assert x in original.Keys && x !in forgotten + {m};
    } else {
      forall x | x in original ensures x in forgotten + {m} {
        assert x !in left;
      }
    }
  }

  lemma ForgetStepLists(c: Cell, m: MemoryId, agg: Aggregate, now: nat, threshold: real, original: map<MemoryId, Entry>,
                        wasCurrent: bool, forgotten: set<MemoryId>, fell: bool)
    requires Tracks(c, original, original - forgotten, wasCurrent, threshold > 0.0)
    requires ListedIf(c, wasCurrent && fell) && (c.row.tombstoned ==> fell)
    ensures
      var falls := threshold > 0.0 && original.Keys <= forgotten + {m};
      ListedIf(Apply(c, Forget(m, now), agg, threshold), wasCurrent && (fell || falls))
  {
    var left := original - forgotten;
    CitesIffListed(RevertSource(c), left, m);
    NothingLeftIff(original, forgotten, m);
    if Affected(c, m) {
      ForgetKeepsSubject(c, m, agg, now, threshold);
      ForgetMarks(c, m, agg, now, threshold);
      WithoutLists(RevertSource(c), left, m);
      CitesIffListed(Without(RevertSource(c), m), left - {m}, m);
    } else if !c.row.tombstoned {
      assert left - {m} == left;
    }
  }

  lemma RevertStepLists(c: Cell, m: MemoryId, agg: Aggregate, now: nat, threshold: real, original: map<MemoryId, Entry>,
                        wasCurrent: bool, forgotten: set<MemoryId>, fell: bool)
    requires Tracks(c, original, original - forgotten, wasCurrent, threshold > 0.0)
    requires ListedIf(c, wasCurrent && fell) && (c.row.tombstoned ==> fell)
    requires forall x | x in original :: original[x].memory == x
    ensures
      var falls := threshold > 0.0 && original.Keys <= forgotten - {m};
      ListedIf(Apply(c, Revert(m, now), agg, threshold), wasCurrent && (fell || falls))
  {
    if original.Keys <= forgotten - {m} {
      assert (original - forgotten).Keys == {};
    }
    if m in c.undo {
      RevertKeepsSubject(c, m, agg, now);
      RevertMarks(c, m, agg, now);
    }
  }

  /** A pending statement gets no by-subject row at creation, yet the tombstone's flip inserts one: after
      any run it has one if and only if it was current and its evidence was once all forgotten. */
  lemma {:induction false} PendingIsListedIff(c: Cell, events: seq<Event>, agg: Aggregate, threshold: real,
                                              original: map<MemoryId, Entry>)
    requires Intact(c, original) && c.row.pending
    ensures ListedIf(Run(c, events, agg, threshold),
                     c.row.isCurrent && threshold > 0.0 && Died(original.Keys, events))
  {
    if events != [] {
      var before, last := events[..|events| - 1], events[|events| - 1];
      var mid, fell := Run(c, before, agg, threshold), threshold > 0.0 && Died(original.Keys, before);
      PendingIsListedIff(c, before, agg, threshold, original);
      RunTracks(c, before, agg, threshold, original);
      FallenHasDied(mid, before, original, c.row.isCurrent, threshold);
      match last {
        case Forget(m, now) =>
          ForgetStepLists(mid, m, agg, now, threshold, original, c.row.isCurrent, Forgotten(before), fell);
        case Revert(m, now) =>
          RevertStepLists(mid, m, agg, now, threshold, original, c.row.isCurrent, Forgotten(before), fell);
      }
    }
  }

  lemma FallenHasDied(c: Cell, events: seq<Event>, original: map<MemoryId, Entry>, wasCurrent: bool, threshold: real)
    requires Tracks(c, original, original - Forgotten(events), wasCurrent, threshold > 0.0)
    ensures c.row.tombstoned ==> threshold > 0.0 && Died(original.Keys, events)
  {
    if c.row.tombstoned {
      assert original.Keys - Forgotten(events) == (original - Forgotten(events)).Keys == {};
    }
  }

  /** A pending statement that was in no by-subject row is in one after losing its only evidence. */
  lemma PendingGainsRow(m: MemoryId, e: Entry, agg: Aggregate, now: nat)
    requires e.memory == m
    ensures
      var row := Row(0, 0, true, 0, 0, true, 0.9, [e], None, false, NotTombstoned);
      var c := Cell(row, map[], {m}, {9}, map[], 0, Listing(false, false, false));
      var r := ForgetCell(c, m, agg, now, 0.2, true);
      Intact(c, map[m := e]) && r.row.tombstoned && r.listing.former
  {
    assert Lists([e], map[m := e]) by {
      assert [e][0] == e;
    }
    assert Without([e], m) == [];
    assert (0.9 * 10.0).Floor == 9;
  }

  // ----- The predicate rows of a superseded statement --------------------------

  /** The confidence a revert recomputes. */
  function Restored(c: Cell, m: MemoryId, agg: Aggregate, now: nat): real
    requires m in c.undo
  {
    agg(Reattached(RevertSource(c), c.undo[m].dropped), now, c.row.kind)
  }

  /** The event does not move a superseded statement to another bucket or bring it back. */
  predicate Settled(c: Cell, ev: Event, agg: Aggregate)
  {
    match ev
    case Forget(m, now) => Affected(c, m) ==> Bucket(Rescored(c, m, agg, now)) == Bucket(c.row.confidence)
    case Revert(m, now) =>
      m in c.undo ==>
        if c.row.tombstoned then c.row.reason != SourceMemoryForgotten
        else Bucket(Restored(c, m, agg, now)) == Bucket(c.row.confidence)
  }

  predicate SettledRun(c: Cell, events: seq<Event>, agg: Aggregate, threshold: real)
  {
    events == [] || (
      var before := events[..|events| - 1];
      SettledRun(c, before, agg, threshold) && Settled(Run(c, before, agg, threshold), events[|events| - 1], agg))
  }

  /** The rows a superseded statement has: none while settled, else its bucket's and perhaps a
      left-over one under bucket 0. */
  predicate Leaks(c: Cell, settled: bool)
  {
    var bucket := Bucket(c.row.confidence);
    && (c.row.tombstoned ==> bucket == 0)
    && if settled then c.buckets == {} else bucket in c.buckets && c.buckets <= {0, bucket}
  }

  lemma ForgetLeaks(c: Cell, m: MemoryId, agg: Aggregate, now: nat, threshold: real, settled: bool)
    requires Leaks(c, settled) && Affected(c, m) && !c.row.isCurrent
    ensures Leaks(ForgetCell(c, m, agg, now, threshold, true), settled && Settled(c, Forget(m, now), agg))
  {
    RewrittenIs(c, m, agg, now, threshold, true);
    RescoredLeaks(c, Rewritten(c, m, agg, now, threshold, true), Without(ForgetSource(c), m),
                  Rescored(c, m, agg, now), settled);
  }

  lemma RescoredLeaks(c: Cell, r: Cell, left: seq<Entry>, confidence: real, settled: bool)
    requires Leaks(c, settled) && !c.row.tombstoned && !c.row.isCurrent && RescoredAs(c, r, left, confidence)
    ensures Leaks(r, settled && Bucket(confidence) == Bucket(c.row.confidence))
    ensures Bucket(confidence) == 0
            ==> Leaks(TombstoneCell(r), settled && Bucket(confidence) == Bucket(c.row.confidence))
  {
  }

  lemma RevertLeaks(c: Cell, m: MemoryId, agg: Aggregate, now: nat, settled: bool)
    requires Leaks(c, settled) && m in c.undo && (c.row.tombstoned ==> c.row.reason == SourceMemoryForgotten)
    ensures Leaks(RevertCell(c, m, agg, now), settled && Settled(c, Revert(m, now), agg))
  {
    var rec := c.undo[m];
    var es := Reattached(RevertSource(c), rec.dropped);
    var scored := c.(row := c.row.(confidence := agg(es, now, c.row.kind)), cites := c.cites + {rec.dropped.memory});
    StoreBackIs(scored, es, rec.priorOverflow);
    ReactivateLeaks(c, StoreBack(scored, es, rec.priorOverflow), rec.priorIsCurrent, settled);
  }

  lemma ReactivateLeaks(c: Cell, stored: Cell, priorIsCurrent: bool, settled: bool)
    requires Leaks(c, settled) && (c.row.tombstoned ==> c.row.reason == SourceMemoryForgotten)
    requires stored.buckets == c.buckets && stored.row.tombstoned == c.row.tombstoned
             && stored.row.reason == c.row.reason
    ensures Leaks(Reactivate(stored, priorIsCurrent, c.row.confidence),
                  && settled && !c.row.tombstoned
                  && Bucket(stored.row.confidence) == Bucket(c.row.confidence))
  {
  }

  /** What the predicate index holds for a superseded statement after any run: nothing exactly
      while every event so far left its bucket alone, and from then on always a row. */
  lemma {:induction false} SupersededRunLeaks(c: Cell, events: seq<Event>, agg: Aggregate, threshold: real,
                                              original: map<MemoryId, Entry>)
    requires Intact(c, original) && !c.row.isCurrent
    ensures Leaks(Run(c, events, agg, threshold), SettledRun(c, events, agg, threshold))
  {
    if events != [] {
      var before, last := events[..|events| - 1], events[|events| - 1];
      SupersededRunLeaks(c, before, agg, threshold, original);
      RunTracks(c, before, agg, threshold, original);
      var mid, settled := Run(c, before, agg, threshold), SettledRun(c, before, agg, threshold);
      match last {
        case Forget(m, now) =>
          if Affected(mid, m) {
            ForgetLeaks(mid, m, agg, now, threshold, settled);
          }
        case Revert(m, now) =>
          if m in mid.undo {
            RevertLeaks(mid, m, agg, now, settled);
          }
      }
    }
  }

  /** So the index is exact after a run if and only if the statement is current or the run settled. */
  lemma RunIsIndexedIff(c: Cell, events: seq<Event>, agg: Aggregate, threshold: real, original: map<MemoryId, Entry>)
    requires Intact(c, original)
    ensures Indexed(Run(c, events, agg, threshold)) <==> c.row.isCurrent || SettledRun(c, events, agg, threshold)
  {
    RunTracks(c, events, agg, threshold, original);
    if !c.row.isCurrent {
      SupersededRunLeaks(c, events, agg, threshold, original);
    }
  }

  /** A superseded statement left without evidence ends up tombstoned yet still in the predicate
      index, because the index entry is written whether or not the row is current. */
  lemma SupersededLeaks(m: MemoryId, e: Entry, agg: Aggregate, now: nat)
    requires e.memory == m
    ensures
      var row := Row(0, 0, false, 0, 0, false, 0.9, [e], None, false, NotTombstoned);
      var c := Cell(row, map[], {m}, {}, map[], 0, Listing(false, true, false));
      var r := ForgetCell(c, m, agg, now, 0.2, true);
      Intact(c, map[m := e]) && r.row.tombstoned && r.buckets == {0}
  {
    var row := Row(0, 0, false, 0, 0, false, 0.9, [e], None, false, NotTombstoned);
    var c := Cell(row, map[], {m}, {}, map[], 0, Listing(false, true, false));
    assert Lists([e], map[m := e]) by {
      assert [e][0] == e;
    }
    assert Without([e], m) == [];
    assert (0.9 * 10.0).Floor == 9;
  }
}
