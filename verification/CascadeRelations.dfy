/** The relation half of the cascade: sole evidence tombstones a relation without emptying its
    list, and only the record that tombstoned it brings it back. */
module RelationCascade {
  import opened Ranking
  import opened TwoTier
  import opened Cascade

  type RelationId = nat

  datatype Meta = Meta(scope: Scope, isCurrent: bool, evidence: seq<MemoryId>, tombstoned: bool, superseded: bool)

  datatype RelationUndo = RelationUndo(priorIsCurrent: bool, outcome: Outcome)

  /** A relation's sidecar row, the memories of its reverse-evidence rows, and its undo rows. */
  datatype RelationCell = RelationCell(meta: Meta, cites: set<MemoryId>, undo: map<MemoryId, RelationUndo>)

  function Retain(es: seq<MemoryId>, m: MemoryId): (r: seq<MemoryId>)
    ensures forall x :: x in r <==> x in es && x != m
    ensures |r| <= |es| && (|r| < |es| <==> m in es)
  {
    if es == [] then []
    else
      var init, last := Retain(es[..|es| - 1], m), es[|es| - 1];
      assert es == es[..|es| - 1] + [last];
      if last == m then init else init + [last]
  }

  lemma RetainSnoc(es: seq<MemoryId>, x: MemoryId, m: MemoryId)
    ensures Retain(es + [x], m) == Retain(es, m) + if x == m then [] else [x]
  {
    assert (es + [x])[..|es|] == es;
  }

  /** What is kept keeps its order. */
  lemma {:induction false} RetainSplits(a: seq<MemoryId>, b: seq<MemoryId>, m: MemoryId)
    ensures Retain(a + b, m) == Retain(a, m) + Retain(b, m)
    decreases |b|
  {
    if b == [] {
      assert a + b == a;
    } else {
      var init, last := b[..|b| - 1], b[|b| - 1];
      RetainSplits(a, init, m);
      assert b == init + [last];
      Regroups(a, init, [last]);
      RetainSnoc(a + init, last, m);
      RetainSnoc(init, last, m);
      Regroups(Retain(a, m), Retain(init, m), if last == m then [] else [last]);
    }
  }

  /** The sidecar row after a forget, and the undo record if anything changed. */
  function Stripped(meta: Meta, m: MemoryId): (Meta, Option<RelationUndo>)
  {
    var kept := Retain(meta.evidence, m);
    if kept == [] && !meta.tombstoned then
      (meta.(tombstoned := true, isCurrent := false), Some(RelationUndo(meta.isCurrent, TOMBSTONED)))
    else if |kept| < |meta.evidence| then
      (meta.(evidence := kept), Some(RelationUndo(meta.isCurrent, EVIDENCE_DROPPED)))
    else (meta, None)
  }

  /** Forget of a relation reached through its reverse-evidence row. */
  function ForgetRelation(c: RelationCell, m: MemoryId, soft: bool): RelationCell
  {
    var (meta, rec) := Stripped(c.meta, m);
    RelationCell(meta, c.cites - {m}, if soft && rec.Some? then c.undo[m := rec.value] else c.undo)
  }

  /** The sidecar row after a revert. */
  function Reattached(meta: Meta, m: MemoryId, rec: RelationUndo): Meta
  {
    var cited := meta.(evidence := if m in meta.evidence then meta.evidence else meta.evidence + [m]);
    if rec.outcome == TOMBSTONED && meta.tombstoned && !meta.superseded then
      cited.(tombstoned := false, isCurrent := rec.priorIsCurrent)
    else cited
  }

  /** `revert_relation`, then removal of the consumed undo row. */
  function RevertRelation(c: RelationCell, m: MemoryId): RelationCell
    requires m in c.undo
  {
    RelationCell(Reattached(c.meta, m, c.undo[m]), c.cites + {m}, c.undo - {m})
  }

  /** Taking a forget straight back: the memory moves to the end of the list, unless it was the only
      one, and nothing else changes; a superseded relation that lost its last evidence stays dead. */
  lemma ForgetThenRevert(c: RelationCell, m: MemoryId)
    requires !c.meta.tombstoned && m in c.meta.evidence && m in c.cites && m !in c.undo
    ensures
      var forgotten := ForgetRelation(c, m, true);
      var others, dead := Retain(c.meta.evidence, m), c.meta.(tombstoned := true, isCurrent := false);
      && forgotten.undo.Keys == c.undo.Keys + {m} && forgotten.undo[m].priorIsCurrent == c.meta.isCurrent
      && (forgotten.undo[m].outcome == TOMBSTONED <==> others == [])
      && forgotten.meta == (if others == [] then dead else c.meta.(evidence := others))
      && RevertRelation(forgotten, m) == c.(meta := if others != [] then c.meta.(evidence := others + [m])
                                                    else if c.meta.superseded then dead else c.meta)
  {
    assert c.cites - {m} + {m} == c.cites;
    assert ForgetRelation(c, m, true).undo - {m} == c.undo;
  }

  /** A drained soft forget or revert, as it meets one relation. */
  function Apply(c: RelationCell, ev: Event): RelationCell
  {
    match ev
    case Forget(m, _) => if m in c.cites then ForgetRelation(c, m, true) else c
    case Revert(m, _) => if m in c.undo then RevertRelation(c, m) else c
  }

  function Run(c: RelationCell, events: seq<Event>): RelationCell
  {
    if events == [] then c else Apply(Run(c, events[..|events| - 1]), events[|events| - 1])
  }

  /** The undo rows cover the evidence that is gone, and `holder` alone has a TOMBSTONED one. */
  predicate Remembers(undo: map<MemoryId, RelationUndo>, gone: set<MemoryId>, holder: Option<MemoryId>,
                      wasCurrent: bool)
  {
    && undo.Keys == gone
    && (forall m | m in undo :: undo[m].outcome == TOMBSTONED <==> holder == Some(m))
    && (holder.Some? ==> holder.value in undo && undo[holder.value].priorIsCurrent == wasCurrent)
  }

  /** What a run keeps: the reverse rows are the remaining evidence, and the stored list is that
      plus the one memory, if any, whose forgetting tombstoned the relation and is not taken back.
      A superseded relation stays dead once all its evidence was forgotten (`died`). */
  ghost predicate Tracks(c: RelationCell, original: set<MemoryId>, left: set<MemoryId>, holder: Option<MemoryId>,
                         wasCurrent: bool, died: bool)
  {
    && left <= original
    && c.cites == left && Remembers(c.undo, original - left, holder, wasCurrent)
    && (forall x :: x in c.meta.evidence <==> x in left || holder == Some(x))
    && (holder.Some? ==> c.meta.tombstoned)
    && (c.meta.tombstoned <==> if c.meta.superseded then died else holder.Some?)
    && (!c.meta.tombstoned ==> c.meta.isCurrent == wasCurrent && left != {})
  }

  /** A live relation, superseded or not, agreeing with its reverse rows. */
  ghost predicate Intact(c: RelationCell, original: set<MemoryId>)
  {
    && !c.meta.tombstoned && c.undo.Keys == {}
    && original != {} && c.cites == original && forall x :: x in c.meta.evidence <==> x in original
  }

  lemma ForgetTracks(c: RelationCell, m: MemoryId, original: set<MemoryId>, left: set<MemoryId>,
                     holder: Option<MemoryId>, wasCurrent: bool, died: bool)
    requires Tracks(c, original, left, holder, wasCurrent, died) && m in left
    ensures
      var holder' := if left == {m} && !c.meta.tombstoned then Some(m) else holder;
      Tracks(ForgetRelation(c, m, true), original, left - {m}, holder', wasCurrent, died || left == {m})
  {
    var kept := Retain(c.meta.evidence, m);
    assert c.undo.Keys !! left;
    if holder.None? {
      assert kept == [] <==> left == {m} by {
        if kept != [] {
          assert kept[0] in left - {m};
        } else {
          assert forall x | x in left :: x == m;
        }
      }
      assert left - {m} != {} || left == {m};
    } else {
      assert holder.value in kept;
    }
  }

  lemma RevertTracks(c: RelationCell, m: MemoryId, original: set<MemoryId>, left: set<MemoryId>,
                     holder: Option<MemoryId>, wasCurrent: bool, died: bool)
    requires Tracks(c, original, left, holder, wasCurrent, died) && m in original - left
    ensures Tracks(RevertRelation(c, m), original, left + {m},
                   if holder == Some(m) then None else holder, wasCurrent, died)
  {
    assert original - (left + {m}) == (original - left) - {m};
  }

  lemma StepTracks(c: RelationCell, ev: Event, original: set<MemoryId>, forgotten: set<MemoryId>,
                   holder: Option<MemoryId>, wasCurrent: bool, died: bool) returns (holder': Option<MemoryId>)
    requires Tracks(c, original, original - forgotten, holder, wasCurrent, died)
    requires original <= forgotten ==> died
    ensures Apply(c, ev).meta.superseded == c.meta.superseded
    ensures
      var forgotten' := Moved(forgotten, ev);
      Tracks(Apply(c, ev), original, original - forgotten', holder', wasCurrent, died || original <= forgotten')
  {
    var left, m := original - forgotten, ev.memory;
    holder' := holder;
    if ev.Forget? && m in left {
      ForgetTracks(c, m, original, left, holder, wasCurrent, died);
      holder' := if left == {m} && !c.meta.tombstoned then Some(m) else holder;
      assert left - {m} == original - Moved(forgotten, ev);
      assert left == {m} <==> original <= Moved(forgotten, ev);
    } else if ev.Revert? && m in original - left {
      RevertTracks(c, m, original, left, holder, wasCurrent, died);
      holder' := if holder == Some(m) then None else holder;
      assert left + {m} == original - Moved(forgotten, ev);
    } else {
      assert left == original - Moved(forgotten, ev);
      assert original <= Moved(forgotten, ev) <==> original <= forgotten;
    }
  }

  /** Over every run, in any order: the list is the original evidence less the forgotten memories
      plus the one holding the TOMBSTONED record; the reverse rows are the original less the
      forgotten. A relation nothing superseded is tombstoned exactly while some forgotten memory
      holds that record; a superseded one from the moment all its evidence was forgotten. */
  lemma {:induction false} RunTracks(c: RelationCell, events: seq<Event>, original: set<MemoryId>)
    returns (holder: Option<MemoryId>)
    requires Intact(c, original)
    ensures Run(c, events).meta.superseded == c.meta.superseded && Run(c, events).meta.scope == c.meta.scope
    ensures Tracks(Run(c, events), original, original - Forgotten(events), holder, c.meta.isCurrent,
                   Died(original, events))
  {
    holder := None;
    if events == [] {
      assert original - {} == original && original - original == {};
    } else {
      var before, last := events[..|events| - 1], events[|events| - 1];
      var h := RunTracks(c, before, original);
      holder := StepTracks(Run(c, before), last, original, Forgotten(before), h, c.meta.isCurrent,
                           Died(original, before));
    }
  }

  /** Taking everything back, in any order, always restores the list, the reverse rows and the undo
      log. It restores the relation itself if and only if nothing superseded it or its evidence
      was never all forgotten at once. */
  lemma RevertedRunRestoresIff(c: RelationCell, events: seq<Event>, original: set<MemoryId>)
    requires Intact(c, original) && Forgotten(events) !! original
    ensures
      var r := Run(c, events);
      && r.cites == c.cites && r.undo == c.undo && (forall x :: x in r.meta.evidence <==> x in c.meta.evidence)
      && (!r.meta.tombstoned && r.meta.isCurrent == c.meta.isCurrent <==>
            !c.meta.superseded || !AllForgottenOnce(original, events))
  {
    var holder := RunTracks(c, events, original);
    assert original - Forgotten(events) == original && original - original == {};
    DiedIff(original, events);
  }

  /** The relation that `relation_supersede` leaves live: one forget and its revert end it. */
  lemma SupersededIsNotRestored()
    ensures
      var c := RelationCell(Meta(0, false, [1], false, true), {1}, map[]);
      var events := [Forget(1, 0), Revert(1, 1)];
      && Intact(c, {1}) && Forgotten(events) == {}
      && Run(c, events).meta.tombstoned && Run(c, events).undo == map[]
  {
    var c := RelationCell(Meta(0, false, [1], false, true), {1}, map[]);
    var events := [Forget(1, 0), Revert(1, 1)];
    assert events[..1] == [Forget(1, 0)] && [Forget(1, 0)][..0] == [];
    assert Forgotten([Forget(1, 0)]) == {1};
    assert Died({1}, [Forget(1, 0)]);
    RevertedRunRestoresIff(c, events, {1});
    assert Intact(c, {1});
    var dead := ForgetRelation(c, 1, true);
    assert Run(c, [Forget(1, 0)]) == dead;
    assert Run(c, events) == RevertRelation(dead, 1);
  }

  /** A superseded relation, once tombstoned, stays so through every run. */
  lemma {:induction false} SupersededStaysTombstoned(c: RelationCell, events: seq<Event>)
    requires c.meta.tombstoned && c.meta.superseded
    ensures Run(c, events).meta.tombstoned && Run(c, events).meta.superseded
  {
    if events != [] {
      SupersededStaysTombstoned(c, events[..|events| - 1]);
    }
  }

  /** A hard forget is a soft one that leaves no record. */
  lemma HardForgetIsSilent(c: RelationCell, m: MemoryId)
    ensures ForgetRelation(c, m, false) == ForgetRelation(c, m, true).(undo := c.undo)
  {
  }

  /** A relation deleted by hand, with no record that a forget tombstoned it, stays deleted through every run. */
  lemma {:induction false} DeletedStaysDead(c: RelationCell, events: seq<Event>)
    requires c.meta.tombstoned && forall m | m in c.undo :: c.undo[m].outcome != TOMBSTONED
    ensures
      var r := Run(c, events);
      && r.meta.tombstoned && r.meta.isCurrent == c.meta.isCurrent
      && forall m | m in r.undo :: r.undo[m].outcome != TOMBSTONED
  {
    if events != [] {
      DeletedStaysDead(c, events[..|events| - 1]);
    }
  }
}
