/**
 * The two-tier memory index: an immutable published main beside a mutable
 * pending buffer. The step functions below say what one writer, snapshot or
 * publish does to both tiers; `Lookup` is the single map they stand for.
 */
module TwoTier {
  import opened Ranking

  type MemoryId = nat

  datatype Vector = Vector(components: seq<real>)

  datatype PendingEntry = PendingEntry(id: MemoryId, vector: Vector, tombstoned: bool)

  /** A published graph: every inserted node, and the nodes its bitmap marks dead. */
  datatype MainIndex = MainIndex(nodes: map<MemoryId, Vector>, dead: set<MemoryId>) {
    predicate Holds(id: MemoryId) { id in nodes && id !in dead }
  }

  datatype Tiers = Tiers(main: MainIndex, entries: seq<PendingEntry>, tombstoned: set<MemoryId>)

  /** Position of the entry for `id`, or the length when there is none. */
  function SlotOf(entries: seq<PendingEntry>, id: MemoryId): (slot: nat)
    ensures slot <= |entries|
    ensures slot < |entries| ==> entries[slot].id == id
    ensures forall i | 0 <= i < slot :: entries[i].id != id
  {
    if entries == [] || entries[0].id == id then 0 else 1 + SlotOf(entries[1..], id)
  }

  function Find(entries: seq<PendingEntry>, id: MemoryId): (r: Option<PendingEntry>)
    ensures r.Some? ==> r.value in entries && r.value.id == id
    ensures r.None? ==> forall e | e in entries :: e.id != id
  {
    var slot := SlotOf(entries, id);
    if slot < |entries| then Some(entries[slot]) else None
  }

  predicate LiveEntry(entries: seq<PendingEntry>, id: MemoryId)
  {
    var found := Find(entries, id);
    found.Some? && !found.value.tombstoned
  }

  /** What a reader sees for `id`: the overlay first, then a live pending entry, then live main. */
  function Lookup(t: Tiers, id: MemoryId): Option<Vector>
  {
    if id in t.tombstoned then None
    else if LiveEntry(t.entries, id) then Some(Find(t.entries, id).value.vector)
    else if t.main.Holds(id) then Some(t.main.nodes[id])
    else None
  }

  function View(t: Tiers): map<MemoryId, Vector>
  {
    map id | id in t.main.nodes.Keys + (set e | e in t.entries :: e.id) && Lookup(t, id).Some?
      :: Lookup(t, id).value
  }

  function Get<V>(m: map<MemoryId, V>, id: MemoryId): Option<V>
  {
    if id in m then Some(m[id]) else None
  }

  lemma ViewIsLookup(t: Tiers)
    ensures forall id :: Get(View(t), id) == Lookup(t, id)
  {
    forall id
      ensures Get(View(t), id) == Lookup(t, id)
    {
      if LiveEntry(t.entries, id) {
        assert Find(t.entries, id).value in t.entries;
      }
    }
  }

  lemma EqualMaps<V>(m: map<MemoryId, V>, m': map<MemoryId, V>)
    requires forall id :: Get(m, id) == Get(m', id)
    ensures m == m'
  {
    assert forall id :: id in m <==> Get(m, id).Some?;
    assert forall id :: id in m' <==> Get(m', id).Some?;
  }

  predicate DistinctEntries(entries: seq<PendingEntry>)
  {
    forall i, j | 0 <= i < j < |entries| :: entries[i].id != entries[j].id
  }

  /**
   * What every writer and flush keeps. The last clause is weaker than "a
   * tombstoned entry is in the overlay": a publish can drop the overlay id of
   * an entry that was re-inserted and re-tombstoned during the build.
   */
  predicate Valid(t: Tiers)
  {
    && DistinctEntries(t.entries)
    && (forall e | e in t.entries && !e.tombstoned :: e.id !in t.tombstoned)
    && (forall e | e in t.entries && e.tombstoned :: e.id in t.tombstoned || !t.main.Holds(e.id))
  }

  lemma FindIsUnique(entries: seq<PendingEntry>, e: PendingEntry)
    requires DistinctEntries(entries) && e in entries
    ensures Find(entries, e.id) == Some(e)
  {
    var i :| 0 <= i < |entries| && entries[i] == e;
    var slot := SlotOf(entries, e.id);
    assert slot == i;
  }

  // ----- Writers -----------------------------------------------------------

  function Put(entries: seq<PendingEntry>, entry: PendingEntry): (r: seq<PendingEntry>)
    ensures entry in r
    ensures forall e | e in r :: e == entry || (e in entries && (DistinctEntries(entries) ==> e.id != entry.id))
    ensures forall e | e in entries && e.id != entry.id :: e in r
    ensures DistinctEntries(entries) ==> DistinctEntries(r)
  {
    var slot := SlotOf(entries, entry.id);
    if slot < |entries| then
      var r := entries[slot := entry];
      assert r[slot] == entry;
      assert forall i | 0 <= i < |entries| && i != slot :: r[i] == entries[i];
      r
    else entries + [entry]
  }

  lemma PutFinds(entries: seq<PendingEntry>, entry: PendingEntry, id: MemoryId)
    requires DistinctEntries(entries)
    ensures Find(Put(entries, entry), id) == if id == entry.id then Some(entry) else Find(entries, id)
  {
    var r := Put(entries, entry);
    if id == entry.id {
      FindIsUnique(r, entry);
    } else {
      var found := Find(entries, id);
      if found.Some? {
        FindIsUnique(r, found.value);
      }
    }
  }

  /** `Writer::insert` and `insert_recovery`. */
  function Insert(t: Tiers, id: MemoryId, vector: Vector): Tiers
  {
    t.(tombstoned := t.tombstoned - {id}, entries := Put(t.entries, PendingEntry(id, vector, false)))
  }

  /** `Writer::mark_tombstoned` and `tombstone_recovery`. */
  function Tombstone(t: Tiers, id: MemoryId): Tiers
  {
    var found := Find(t.entries, id);
    t.(tombstoned := t.tombstoned + {id},
       entries := if found.Some? then Put(t.entries, found.value.(tombstoned := true)) else t.entries)
  }

  lemma InsertIsUpdate(t: Tiers, id: MemoryId, vector: Vector)
    requires Valid(t)
    ensures Valid(Insert(t, id, vector))
    ensures forall x :: Lookup(Insert(t, id, vector), x) == if x == id then Some(vector) else Lookup(t, x)
  {
    forall x {
      PutFinds(t.entries, PendingEntry(id, vector, false), x);
    }
  }

  lemma TombstoneIsRemoval(t: Tiers, id: MemoryId)
    requires Valid(t)
    ensures Valid(Tombstone(t, id))
    ensures forall x :: Lookup(Tombstone(t, id), x) == if x == id then None else Lookup(t, x)
  {
    var found := Find(t.entries, id);
    if found.Some? {
      forall x {
        PutFinds(t.entries, found.value.(tombstoned := true), x);
      }
    }
  }

  // ----- Flush -------------------------------------------------------------

  /** An entry survives a publish unless it is exactly the one the build folded. */
  predicate Survives(snapshot: seq<PendingEntry>, e: PendingEntry)
  {
    Find(snapshot, e.id) != Some(e)
  }

  function Unfolded(entries: seq<PendingEntry>, snapshot: seq<PendingEntry>): (r: seq<PendingEntry>)
    ensures forall e | e in r :: e in entries && Survives(snapshot, e)
    ensures forall e | e in entries && Survives(snapshot, e) :: e in r
    ensures DistinctEntries(entries) ==> DistinctEntries(r)
  {
    if entries == [] then []
    else
      var rest := Unfolded(entries[1..], snapshot);
      assert entries == [entries[0]] + entries[1..];
      assert DistinctEntries(entries) ==> forall e | e in entries[1..] :: e.id != entries[0].id;
      if Survives(snapshot, entries[0]) then [entries[0]] + rest else rest
  }

  function FoldedTombstones(snapshot: seq<PendingEntry>): set<MemoryId>
  {
    set e | e in snapshot && e.tombstoned :: e.id
  }

  /** The locked half of `flush_with_rebuild`: swap main, then reconcile pending by identity. */
  function Publish(t: Tiers, snapshot: seq<PendingEntry>, built: MainIndex): Tiers
  {
    Tiers(built, Unfolded(t.entries, snapshot), t.tombstoned - FoldedTombstones(snapshot))
  }

  /**
   * What a build closure is asked for: the old main overridden by the live
   * snapshot entries, without the tombstoned ones. A build may also leave out
   * an id that only the overlay tombstones.
   */
  ghost predicate IsBuild(built: MainIndex, main: MainIndex, snapshot: seq<PendingEntry>, overlay: set<MemoryId>)
  {
    && (forall e | e in snapshot ::
          built.Holds(e.id) == !e.tombstoned && (!e.tombstoned ==> built.nodes[e.id] == e.vector))
    && (forall id | built.Holds(id) && Find(snapshot, id).None? ::
          main.Holds(id) && built.nodes[id] == main.nodes[id])
    && (forall id | main.Holds(id) && Find(snapshot, id).None? :: built.Holds(id) || id in overlay)
  }

  datatype Window = Window(snapshot: seq<PendingEntry>, built: MainIndex)

  /** A build window is open from the snapshot to the publish; flushes are serial. */
  datatype System = System(tiers: Tiers, window: Option<Window>)

  datatype Step =
    | WriterInsert(id: MemoryId, vector: Vector)
    | WriterTombstone(id: MemoryId)
    | TakeSnapshot(built: MainIndex)
    | PublishFlush
    | BuildFails

  ghost predicate Enabled(s: System, step: Step)
  {
    match step
    case WriterInsert(_, _) => true
    case WriterTombstone(_) => true
    case TakeSnapshot(built) => s.window.None? && IsBuild(built, s.tiers.main, s.tiers.entries, s.tiers.tombstoned)
    case PublishFlush => s.window.Some?
    case BuildFails => s.window.Some?
  }

  ghost function Next(s: System, step: Step): System
    requires Enabled(s, step)
  {
    match step
    case WriterInsert(id, vector) => s.(tiers := Insert(s.tiers, id, vector))
    case WriterTombstone(id) => s.(tiers := Tombstone(s.tiers, id))
    case TakeSnapshot(built) => s.(window := Some(Window(s.tiers.entries, built)))
    case PublishFlush => System(Publish(s.tiers, s.window.value.snapshot, s.window.value.built), None)
    case BuildFails => s.(window := None)
  }

  /** How an open window relates to the tiers, however many writers ran since the snapshot. */
  ghost predicate WindowHolds(t: Tiers, w: Window)
  {
    && DistinctEntries(w.snapshot)
    && (forall e | e in w.snapshot ::
          && Find(t.entries, e.id).Some?
          && w.built.Holds(e.id) == !e.tombstoned
          && (!e.tombstoned ==> w.built.nodes[e.id] == e.vector))
    && (forall id | w.built.Holds(id) && Find(w.snapshot, id).None? ::
          t.main.Holds(id) && w.built.nodes[id] == t.main.nodes[id])
    && (forall id | t.main.Holds(id) && Find(w.snapshot, id).None? ::
          w.built.Holds(id) || id in t.tombstoned || LiveEntry(t.entries, id))
    && (forall e | e in t.entries && e.tombstoned :: e.id in t.tombstoned || !w.built.Holds(e.id))
  }

  ghost predicate Inv(s: System)
  {
    Valid(s.tiers) && (s.window.Some? ==> WindowHolds(s.tiers, s.window.value))
  }

  lemma PublishFinds(t: Tiers, w: Window, id: MemoryId)
    requires Valid(t)
    ensures
      var found := Find(t.entries, id);
      Find(Unfolded(t.entries, w.snapshot), id) ==
        if found.Some? && Survives(w.snapshot, found.value) then found else None
  {
    var kept := Unfolded(t.entries, w.snapshot);
    var found := Find(t.entries, id);
    if found.Some? {
      if Survives(w.snapshot, found.value) {
        FindIsUnique(kept, found.value);
      } else {
        var left := Find(kept, id);
        if left.Some? {
          FindIsUnique(t.entries, left.value);
        }
      }
    }
  }

  /** With no writer during the build, everything pending was folded. */
  lemma QuietFlushDrains(entries: seq<PendingEntry>)
    requires DistinctEntries(entries)
    ensures Unfolded(entries, entries) == []
  {
    forall e | e in entries
      ensures !Survives(entries, e)
    {
      FindIsUnique(entries, e);
    }
    var kept := Unfolded(entries, entries);
    assert forall i | 0 <= i < |kept| :: kept[i] in kept;
  }

  /** Publishing keeps the invariant and changes nothing a reader can look up. */
  lemma PublishKeepsView(t: Tiers, w: Window)
    requires Valid(t) && WindowHolds(t, w)
    ensures Valid(Publish(t, w.snapshot, w.built))
    ensures forall id :: Lookup(Publish(t, w.snapshot, w.built), id) == Lookup(t, id)
  {
    forall id {
      PublishFinds(t, w, id);
    }
  }

  /** A failed build costs nothing: the next flush, left alone, drains what is pending. */
  lemma FailedBuildIsRetried(s: System, built: MainIndex)
    requires Inv(s) && Enabled(s, BuildFails) && IsBuild(built, s.tiers.main, s.tiers.entries, s.tiers.tombstoned)
    ensures
      var failed := Next(s, BuildFails);
      && Enabled(failed, TakeSnapshot(built))
      && var done := Next(Next(failed, TakeSnapshot(built)), PublishFlush);
         && Inv(done) && done.window.None? && done.tiers.main == built && done.tiers.entries == []
         && forall id :: Lookup(done.tiers, id) == Lookup(s.tiers, id)
  {
    SnapshotOpensWindow(s.tiers, built);
    PublishKeepsView(s.tiers, Window(s.tiers.entries, built));
    QuietFlushDrains(s.tiers.entries);
  }

  /** The second half of `swap`. */
  function Cleared(t: Tiers): Tiers { Tiers(t.main, [], {}) }

  /** `swap`. */
  function Swapped(index: MainIndex): Tiers { Tiers(index, [], {}) }

  /** What a reader sees between the two halves of a swap: the new main is stored, pending is not
      yet cleared. */
  function HalfSwapped(t: Tiers, index: MainIndex): Tiers { t.(main := index) }

  /** `index` already has every pending write. */
  ghost predicate Reflects(index: MainIndex, t: Tiers)
  {
    && (forall e | e in t.entries && !e.tombstoned :: index.Holds(e.id) && index.nodes[e.id] == e.vector)
    && (forall id | id in t.tombstoned :: !index.Holds(id))
  }

  /** The swap looks atomic to every reader if and only if the new index reflects all writes. */
  lemma SwapIsAtomicIff(t: Tiers, index: MainIndex)
    requires Valid(t)
    ensures (forall id :: Lookup(HalfSwapped(t, index), id) == Lookup(Swapped(index), id)) <==> Reflects(index, t)
  {
    if forall id :: Lookup(HalfSwapped(t, index), id) == Lookup(Swapped(index), id) {
      forall e | e in t.entries && !e.tombstoned
        ensures index.Holds(e.id) && index.nodes[e.id] == e.vector
      {
        FindIsUnique(t.entries, e);
        assert Lookup(HalfSwapped(t, index), e.id) == Some(e.vector);
        assert Lookup(Swapped(index), e.id) == Some(e.vector);
      }
      forall id | id in t.tombstoned ensures !index.Holds(id) {
        assert Lookup(HalfSwapped(t, index), id) == None;
        assert Lookup(Swapped(index), id) == None;
      }
    }
  }

  /** A pending write that the new index lacks is seen in the gap and gone after it. */
  lemma SwapShowsTheGap(early: Vector, late: Vector)
    ensures
      var index := MainIndex(map[1 := early], {});
      var t := Tiers(index, [PendingEntry(2, late, false)], {});
      && Valid(t) && Lookup(HalfSwapped(t, index), 2) == Some(late) && Lookup(Swapped(index), 2) == None
  {
    FindIsUnique([PendingEntry(2, late, false)], PendingEntry(2, late, false));
  }

  // ----- Writers around a swap ---------------------------------------------

  predicate IsWrite(step: Step) { step.WriterInsert? || step.WriterTombstone? }

  function Wrote(t: Tiers, step: Step): Tiers
    requires IsWrite(step)
  {
    match step
    case WriterInsert(id, vector) => Insert(t, id, vector)
    case WriterTombstone(id) => Tombstone(t, id)
  }

  function Written(t: Tiers, writes: seq<Step>): Tiers
    requires forall step | step in writes :: IsWrite(step)
  {
    if writes == [] then t else Wrote(Written(t, writes[..|writes| - 1]), writes[|writes| - 1])
  }

  /** Writers between the halves of a swap are lost: the clear takes everything they did. */
  lemma {:induction false} SwapLosesGapWrites(t: Tiers, index: MainIndex, writes: seq<Step>)
    requires forall step | step in writes :: IsWrite(step)
    ensures Cleared(Written(HalfSwapped(t, index), writes)) == Swapped(index)
  {
    if writes != [] {
      SwapLosesGapWrites(t, index, writes[..|writes| - 1]);
    }
  }

  /** Every pending tombstone is in the overlay, as it is until a publish trims the overlay. */
  predicate DeadAreOverlaid(t: Tiers)
  {
    Valid(t) && forall e | e in t.entries && e.tombstoned :: e.id in t.tombstoned
  }

  lemma WroteOverlaid(t: Tiers, step: Step)
    requires IsWrite(step) && DeadAreOverlaid(t)
    ensures DeadAreOverlaid(Wrote(t, step))
  {
    var after := Wrote(t, step);
    match step {
      case WriterInsert(id, vector) => InsertIsUpdate(t, id, vector);
      case WriterTombstone(id) => TombstoneIsRemoval(t, id);
    }
    forall e | e in after.entries && e.tombstoned
      ensures e.id in after.tombstoned
    {
      FindIsUnique(after.entries, e);
      if step.WriterInsert? {
        PutFinds(t.entries, PendingEntry(step.id, step.vector, false), e.id);
      } else if Find(t.entries, step.id).Some? {
        PutFinds(t.entries, Find(t.entries, step.id).value.(tombstoned := true), e.id);
      }
    }
  }

  /** Writers leave main alone and do not look at it. */
  lemma {:induction false} WrittenOverlaid(index: MainIndex, built: MainIndex, writes: seq<Step>)
    requires forall step | step in writes :: IsWrite(step)
    ensures DeadAreOverlaid(Written(Swapped(index), writes))
    ensures Written(Swapped(built), writes) == Written(Swapped(index), writes).(main := built)
  {
    if writes != [] {
      WrittenOverlaid(index, built, writes[..|writes| - 1]);
      WroteOverlaid(Written(Swapped(index), writes[..|writes| - 1]), writes[|writes| - 1]);
    }
  }

  lemma PublishOverSwap(t: Tiers, w: Window, id: MemoryId)
    requires DeadAreOverlaid(t)
    requires forall e | e in w.snapshot ::
               w.built.Holds(e.id) == !e.tombstoned && (!e.tombstoned ==> w.built.nodes[e.id] == e.vector)
    ensures Lookup(Publish(t, w.snapshot, w.built), id) == Lookup(t.(main := w.built), id)
  {
    PublishFinds(t, w, id);
  }

  /** Why no swap may fall inside a build window: whatever was swapped in is gone, and the publish ends
      where swapping in the build itself would have, writers since the swap included. */
  lemma SwapInWindowIsOverwritten(index: MainIndex, main: MainIndex, overlay: set<MemoryId>, w: Window,
                                  writes: seq<Step>, id: MemoryId)
    requires IsBuild(w.built, main, w.snapshot, overlay) && forall step | step in writes :: IsWrite(step)
    ensures Lookup(Publish(Written(Swapped(index), writes), w.snapshot, w.built), id)
         == Lookup(Written(Swapped(w.built), writes), id)
  {
    WrittenOverlaid(index, w.built, writes);
    PublishOverSwap(Written(Swapped(index), writes), w, id);
  }

  /** `after` differs from `t` at `id` only, where it is either tombstoned or pending and live. */
  ghost predicate WritesOnly(t: Tiers, after: Tiers, id: MemoryId)
  {
    && after.main == t.main && DistinctEntries(after.entries)
    && (forall x | x != id :: Find(after.entries, x) == Find(t.entries, x))
    && (forall x | x != id :: x in after.tombstoned <==> x in t.tombstoned)
    && (Find(t.entries, id).Some? ==> Find(after.entries, id).Some?)
    && (id in after.tombstoned || LiveEntry(after.entries, id))
  }

  lemma WriteKeepsWindow(t: Tiers, after: Tiers, w: Window, id: MemoryId)
    requires WindowHolds(t, w) && WritesOnly(t, after, id)
    ensures WindowHolds(after, w)
  {
    forall e | e in after.entries && e.tombstoned
      ensures e.id in after.tombstoned || !w.built.Holds(e.id)
    {
      FindIsUnique(after.entries, e);
    }
  }

  lemma InsertWritesOnly(t: Tiers, id: MemoryId, vector: Vector)
    requires Valid(t)
    ensures WritesOnly(t, Insert(t, id, vector), id)
  {
    forall x {
      PutFinds(t.entries, PendingEntry(id, vector, false), x);
    }
  }

  lemma TombstoneWritesOnly(t: Tiers, id: MemoryId)
    requires Valid(t)
    ensures WritesOnly(t, Tombstone(t, id), id)
  {
    var found := Find(t.entries, id);
    if found.Some? {
      forall x {
        PutFinds(t.entries, found.value.(tombstoned := true), x);
      }
    }
  }

  lemma InsertKeepsWindow(t: Tiers, w: Window, id: MemoryId, vector: Vector)
    requires Valid(t) && WindowHolds(t, w)
    ensures WindowHolds(Insert(t, id, vector), w)
  {
    InsertWritesOnly(t, id, vector);
    WriteKeepsWindow(t, Insert(t, id, vector), w, id);
  }

  lemma TombstoneKeepsWindow(t: Tiers, w: Window, id: MemoryId)
    requires Valid(t) && WindowHolds(t, w)
    ensures WindowHolds(Tombstone(t, id), w)
  {
    TombstoneWritesOnly(t, id);
    WriteKeepsWindow(t, Tombstone(t, id), w, id);
  }

  lemma SnapshotOpensWindow(t: Tiers, built: MainIndex)
    requires Valid(t) && IsBuild(built, t.main, t.entries, t.tombstoned)
    ensures WindowHolds(t, Window(t.entries, built))
  {
    forall e | e in t.entries {
      FindIsUnique(t.entries, e);
    }
  }

  lemma StepKeepsInv(s: System, step: Step)
    requires Inv(s) && Enabled(s, step)
    ensures Inv(Next(s, step))
  {
    match step
    case WriterInsert(id, vector) =>
      InsertIsUpdate(s.tiers, id, vector);
      if s.window.Some? { InsertKeepsWindow(s.tiers, s.window.value, id, vector); }
    case WriterTombstone(id) =>
      TombstoneIsRemoval(s.tiers, id);
      if s.window.Some? { TombstoneKeepsWindow(s.tiers, s.window.value, id); }
    case TakeSnapshot(built) => SnapshotOpensWindow(s.tiers, built);
    case PublishFlush => PublishKeepsView(s.tiers, s.window.value);
    case BuildFails =>
  }

  // ----- The map every run refines -----------------------------------------

  function SpecStep(m: map<MemoryId, Vector>, step: Step): map<MemoryId, Vector>
  {
    match step
    case WriterInsert(id, vector) => m[id := vector]
    case WriterTombstone(id) => m - {id}
    case TakeSnapshot(_) => m
    case PublishFlush => m
    case BuildFails => m
  }

  lemma StepRefines(s: System, step: Step)
    requires Inv(s) && Enabled(s, step)
    ensures View(Next(s, step).tiers) == SpecStep(View(s.tiers), step)
  {
    var t, t' := s.tiers, Next(s, step).tiers;
    ViewIsLookup(t);
    ViewIsLookup(t');
    match step {
      case WriterInsert(id, vector) => InsertIsUpdate(t, id, vector);
      case WriterTombstone(id) => TombstoneIsRemoval(t, id);
      case TakeSnapshot(built) =>
      case PublishFlush => PublishKeepsView(t, s.window.value);
      case BuildFails =>
    }
    EqualMaps(View(t'), SpecStep(View(t), step));
  }

  ghost predicate StepAt(states: seq<System>, steps: seq<Step>, i: nat)
    requires |states| == |steps| + 1 && i < |steps|
  {
    Enabled(states[i], steps[i]) && states[i + 1] == Next(states[i], steps[i])
  }

  ghost predicate IsTrace(states: seq<System>, steps: seq<Step>)
  {
    |states| == |steps| + 1 && forall i | 0 <= i < |steps| :: StepAt(states, steps, i)
  }

  lemma TraceStep(states: seq<System>, steps: seq<Step>, i: nat, j: nat)
    requires IsTrace(states, steps) && i < |steps| && j == i + 1
    ensures Enabled(states[i], steps[i]) && states[j] == Next(states[i], steps[i])
  {
    assert StepAt(states, steps, i);
  }

  function SpecRun(m: map<MemoryId, Vector>, steps: seq<Step>): map<MemoryId, Vector>
  {
    if steps == [] then m
    else SpecStep(SpecRun(m, steps[..|steps| - 1]), steps[|steps| - 1])
  }

  lemma {:induction false} TraceKeepsInv(states: seq<System>, steps: seq<Step>, i: nat)
    requires IsTrace(states, steps) && Inv(states[0]) && i <= |steps|
    ensures Inv(states[i])
  {
    if i > 0 {
      TraceKeepsInv(states, steps, i - 1);
      TraceStep(states, steps, i - 1, i);
      StepKeepsInv(states[i - 1], steps[i - 1]);
    }
  }

  lemma TraceStepRefines(states: seq<System>, steps: seq<Step>, i: nat)
    requires IsTrace(states, steps) && Inv(states[0]) && i < |steps|
    ensures View(states[i + 1].tiers) == SpecStep(View(states[i].tiers), steps[i])
  {
    TraceKeepsInv(states, steps, i);
    TraceStep(states, steps, i, i + 1);
    StepRefines(states[i], steps[i]);
  }

  lemma SpecRunGrows(m: map<MemoryId, Vector>, steps: seq<Step>, i: nat)
    requires i < |steps|
    ensures SpecRun(m, steps[..i + 1]) == SpecStep(SpecRun(m, steps[..i]), steps[i])
  {
    assert steps[..i + 1][..i] == steps[..i];
  }

  lemma {:induction false} TraceRefines(states: seq<System>, steps: seq<Step>, i: nat)
    requires IsTrace(states, steps) && Inv(states[0]) && i <= |steps|
    ensures View(states[i].tiers) == SpecRun(View(states[0].tiers), steps[..i])
  {
    if i > 0 {
      TraceRefines(states, steps, i - 1);
      TraceStepRefines(states, steps, i - 1);
      SpecRunGrows(View(states[0].tiers), steps, i - 1);
    }
  }

  /** Every run, with writers anywhere inside the build windows, refines one map from id to vector. */
  lemma RunRefinesMap(states: seq<System>, steps: seq<Step>)
    requires IsTrace(states, steps) && Inv(states[0])
    ensures forall s | s in states :: Inv(s)
    ensures View(states[|steps|].tiers) == SpecRun(View(states[0].tiers), steps)
  {
    forall i | 0 <= i < |states|
      ensures Inv(states[i])
    {
      TraceKeepsInv(states, steps, i);
    }
    TraceRefines(states, steps, |steps|);
    assert steps[..|steps|] == steps;
  }
}
