/** The cascade over the real tables, in batches: each table is flat, and every statement and
    relation is seen through its own rows. */
module CascadeTables {
  import opened Ranking
  import opened TwoTier
  import opened Cascade

  /** Overflow ids are drawn fresh; `owner` is the statement an id was drawn for. */
  datatype OverflowId = OverflowId(owner: StatementId, serial: nat)

  datatype EvidenceKey = EvidenceKey(scope: Scope, memory: MemoryId, id: nat)

  datatype PredicateKey = PredicateKey(scope: Scope, predicateId: nat, kind: nat, bucket: nat, statement: StatementId)

  datatype SubjectKey = SubjectKey(scope: Scope, subject: nat, kind: nat, predicateId: nat, current: bool,
                                   statement: StatementId)

  datatype UndoKey = UndoKey(memory: MemoryId, id: nat)

  datatype Tables = Tables(
    statements: map<StatementId, Row>,
    minted: map<StatementId, nat>,
    overflow: map<OverflowId, seq<Entry>>,
    byEvidence: set<EvidenceKey>,
    byPredicate: set<PredicateKey>,
    bySubject: set<SubjectKey>,
    embedQueue: set<StatementId>,
    undo: map<UndoKey, Undo>)

  function KeyFor(row: Row, bucket: nat, s: StatementId): PredicateKey
  {
    PredicateKey(row.scope, row.predicateId, row.kind, bucket, s)
  }

  function SubjectFor(row: Row, current: bool, s: StatementId): SubjectKey
  {
    SubjectKey(row.scope, row.subject, row.kind, row.predicateId, current, s)
  }

  /** Each statement's rows are those of its cell. Rows of statements that are gone may linger. */
  ghost predicate Shows(t: Tables, cells: map<StatementId, Cell>)
  {
    && t.statements.Keys == cells.Keys && t.minted.Keys == cells.Keys
    && (forall s | s in cells :: t.statements[s] == cells[s].row && t.minted[s] == cells[s].minted)
    && ShowsOverflow(t.overflow, cells) && ShowsEvidence(t.byEvidence, cells)
    && ShowsPredicate(t.byPredicate, cells) && ShowsUndo(t.undo, cells)
    && ShowsListing(t.bySubject, t.embedQueue, cells)
  }

  ghost predicate ShowsOverflow(overflow: map<OverflowId, seq<Entry>>, cells: map<StatementId, Cell>)
  {
    forall o: OverflowId | o.owner in cells ::
      && (o in overflow <==> o.serial in cells[o.owner].spill)
      && (o in overflow ==> overflow[o] == cells[o.owner].spill[o.serial])
  }

  ghost predicate ShowsEvidence(byEvidence: set<EvidenceKey>, cells: map<StatementId, Cell>)
  {
    forall k: EvidenceKey | k.id in cells && k.scope == cells[k.id].row.scope ::
      k in byEvidence <==> k.memory in cells[k.id].cites
  }

  ghost predicate ShowsPredicate(byPredicate: set<PredicateKey>, cells: map<StatementId, Cell>)
  {
    forall k: PredicateKey | k.statement in cells && k == KeyFor(cells[k.statement].row, k.bucket, k.statement) ::
      k in byPredicate <==> k.bucket in cells[k.statement].buckets
  }

  /** The by-subject and embed-queue rows. */
  ghost predicate ShowsListing(bySubject: set<SubjectKey>, embedQueue: set<StatementId>,
                               cells: map<StatementId, Cell>)
  {
    forall s | s in cells :: ListedAs(bySubject, embedQueue, s, cells[s])
  }

  predicate ListedAs(bySubject: set<SubjectKey>, embedQueue: set<StatementId>, s: StatementId, c: Cell)
  {
    && (SubjectFor(c.row, true, s) in bySubject <==> c.listing.current)
    && (SubjectFor(c.row, false, s) in bySubject <==> c.listing.former)
    && (s in embedQueue <==> c.listing.queued)
  }

  ghost predicate ShowsUndo(undo: map<UndoKey, Undo>, cells: map<StatementId, Cell>)
  {
    forall k: UndoKey | k.id in cells ::
      && (k in undo <==> k.memory in cells[k.id].undo)
      && (k in undo ==> undo[k] == cells[k.id].undo[k.memory])
  }

  /** A row write that keeps the row's place in every index. */
  predicate SamePlace(a: Row, b: Row)
  {
    a.scope == b.scope && a.subject == b.subject && a.predicateId == b.predicateId && a.kind == b.kind
  }

  /** The index rows that belong to no statement of the table. */
  datatype Strays = Strays(overflow: map<OverflowId, seq<Entry>>, byEvidence: set<EvidenceKey>,
                           byPredicate: set<PredicateKey>, bySubject: set<SubjectKey>,
                           embedQueue: set<StatementId>)

  predicate OwnsEvidence(rows: map<StatementId, Row>, k: EvidenceKey)
  {
    k.id in rows && k.scope == rows[k.id].scope
  }

  predicate OwnsPredicate(rows: map<StatementId, Row>, k: PredicateKey)
  {
    k.statement in rows && k == KeyFor(rows[k.statement], k.bucket, k.statement)
  }

  predicate OwnsSubject(rows: map<StatementId, Row>, k: SubjectKey)
  {
    k.statement in rows && k == SubjectFor(rows[k.statement], k.current, k.statement)
  }

  function StrayOverflow(rows: map<StatementId, Row>, overflow: map<OverflowId, seq<Entry>>)
    : map<OverflowId, seq<Entry>>
  {
    map o | o in overflow && o.owner !in rows :: overflow[o]
  }

  function StrayEvidence(rows: map<StatementId, Row>, byEvidence: set<EvidenceKey>): set<EvidenceKey>
  {
    set k | k in byEvidence && !OwnsEvidence(rows, k)
  }

  function StrayPredicate(rows: map<StatementId, Row>, byPredicate: set<PredicateKey>): set<PredicateKey>
  {
    set k | k in byPredicate && !OwnsPredicate(rows, k)
  }

  function StraySubject(rows: map<StatementId, Row>, bySubject: set<SubjectKey>): set<SubjectKey>
  {
    set k | k in bySubject && !OwnsSubject(rows, k)
  }

  function StraysOf(t: Tables): Strays
  {
    Strays(StrayOverflow(t.statements, t.overflow), StrayEvidence(t.statements, t.byEvidence),
           StrayPredicate(t.statements, t.byPredicate), StraySubject(t.statements, t.bySubject),
           t.embedQueue - t.statements.Keys)
  }

  /** Rewriting a row in its place makes and unmakes no stray. */
  lemma RowKeepsStrays(t: Tables, s: StatementId, row: Row)
    requires s in t.statements && SamePlace(row, t.statements[s])
    ensures StraysOf(t.(statements := t.statements[s := row])) == StraysOf(t)
  {
    var rows := t.statements[s := row];
    assert forall k :: OwnsEvidence(rows, k) <==> OwnsEvidence(t.statements, k);
    assert forall k :: OwnsPredicate(rows, k) <==> OwnsPredicate(t.statements, k);
    assert forall k :: OwnsSubject(rows, k) <==> OwnsSubject(t.statements, k);
    assert StrayOverflow(rows, t.overflow) == StrayOverflow(t.statements, t.overflow);
  }

  /** Insert `x`, or remove it. */
  function Toggled<T>(xs: set<T>, x: T, present: bool): set<T> { if present then xs + {x} else xs - {x} }

  /** Insert or remove the by-subject row under one bit. */
  function Marked(listing: Listing, current: bool, present: bool): Listing
  {
    if current then listing.(current := present) else listing.(former := present)
  }

  // Each table looks only at its own part of the cells.

  lemma KeepsOverflow(t: Tables, cells: map<StatementId, Cell>, s: StatementId, c: Cell)
    requires ShowsOverflow(t.overflow, cells) && s in cells && c.spill == cells[s].spill
    ensures ShowsOverflow(t.overflow, cells[s := c])
  {
  }

  lemma KeepsEvidence(t: Tables, cells: map<StatementId, Cell>, s: StatementId, c: Cell)
    requires ShowsEvidence(t.byEvidence, cells) && s in cells
    requires c.cites == cells[s].cites && c.row.scope == cells[s].row.scope
    ensures ShowsEvidence(t.byEvidence, cells[s := c])
  {
  }

  lemma KeepsPredicate(t: Tables, cells: map<StatementId, Cell>, s: StatementId, c: Cell)
    requires ShowsPredicate(t.byPredicate, cells) && s in cells
    requires c.buckets == cells[s].buckets && SamePlace(c.row, cells[s].row)
    ensures ShowsPredicate(t.byPredicate, cells[s := c])
  {
  }

  lemma KeepsUndo(t: Tables, cells: map<StatementId, Cell>, s: StatementId, c: Cell)
    requires ShowsUndo(t.undo, cells) && s in cells && c.undo == cells[s].undo
    ensures ShowsUndo(t.undo, cells[s := c])
  {
  }

  lemma KeepsListing(t: Tables, cells: map<StatementId, Cell>, s: StatementId, c: Cell)
    requires ShowsListing(t.bySubject, t.embedQueue, cells) && s in cells
    requires c.listing == cells[s].listing && SamePlace(c.row, cells[s].row)
    ensures ShowsListing(t.bySubject, t.embedQueue, cells[s := c])
  {
    assert ListedAs(t.bySubject, t.embedQueue, s, cells[s]);
  }

  lemma PutSpill(overflow: map<OverflowId, seq<Entry>>, cells: map<StatementId, Cell>, s: StatementId, serial: nat,
                 es: seq<Entry>)
    requires ShowsOverflow(overflow, cells) && s in cells
    ensures ShowsOverflow(overflow[OverflowId(s, serial) := es],
                          cells[s := cells[s].(spill := cells[s].spill[serial := es])])
    ensures ShowsOverflow(overflow - {OverflowId(s, serial)}, cells[s := cells[s].(spill := cells[s].spill - {serial})])
  {
  }

  lemma PutCites(byEvidence: set<EvidenceKey>, cells: map<StatementId, Cell>, s: StatementId, m: MemoryId)
    requires ShowsEvidence(byEvidence, cells) && s in cells
    ensures
      var key := EvidenceKey(cells[s].row.scope, m, s);
      && ShowsEvidence(byEvidence + {key}, cells[s := cells[s].(cites := cells[s].cites + {m})])
      && ShowsEvidence(byEvidence - {key}, cells[s := cells[s].(cites := cells[s].cites - {m})])
  {
  }

  lemma PutBucket(byPredicate: set<PredicateKey>, cells: map<StatementId, Cell>, s: StatementId, b: nat)
    requires ShowsPredicate(byPredicate, cells) && s in cells
    ensures
      var key := KeyFor(cells[s].row, b, s);
      && ShowsPredicate(byPredicate + {key}, cells[s := cells[s].(buckets := cells[s].buckets + {b})])
      && ShowsPredicate(byPredicate - {key}, cells[s := cells[s].(buckets := cells[s].buckets - {b})])
  {
  }

  /** Writing the rows of one statement moves no other's. */
  lemma PutListing(bySubject: set<SubjectKey>, embedQueue: set<StatementId>, cells: map<StatementId, Cell>,
                   s: StatementId, current: bool, present: bool)
    requires ShowsListing(bySubject, embedQueue, cells) && s in cells
    ensures
      var key, listing := SubjectFor(cells[s].row, current, s), cells[s].listing;
      && ShowsListing(Toggled(bySubject, key, present), embedQueue,
                      cells[s := cells[s].(listing := Marked(listing, current, present))])
      && ShowsListing(bySubject, Toggled(embedQueue, s, present),
                      cells[s := cells[s].(listing := listing.(queued := present))])
  {
    assert ListedAs(bySubject, embedQueue, s, cells[s]);
    var key := SubjectFor(cells[s].row, current, s);
    forall x | x in cells && x != s
      ensures ListedAs(Toggled(bySubject, key, present), embedQueue, x, cells[x])
      ensures ListedAs(bySubject, Toggled(embedQueue, s, present), x, cells[x])
    {
      assert ListedAs(bySubject, embedQueue, x, cells[x]);
    }
  }

  lemma PutUndo(undo: map<UndoKey, Undo>, cells: map<StatementId, Cell>, s: StatementId, m: MemoryId, rec: Undo)
    requires ShowsUndo(undo, cells) && s in cells
    ensures ShowsUndo(undo[UndoKey(m, s) := rec], cells[s := cells[s].(undo := cells[s].undo[m := rec])])
    ensures ShowsUndo(undo - {UndoKey(m, s)}, cells[s := cells[s].(undo := cells[s].undo - {m})])
  {
  }

  // ----- One write to one table ----------------------------------------------

  /** After the write the tables show `c` for `s`, all else as before, and the same stray rows. */
  ghost predicate Writes(t: Tables, t': Tables, cells: map<StatementId, Cell>, s: StatementId, c: Cell)
  {
    Shows(t', cells[s := c]) && StraysOf(t') == StraysOf(t)
  }

  lemma WriteRow(t: Tables, cells: map<StatementId, Cell>, s: StatementId, row: Row)
    requires Shows(t, cells) && s in cells && SamePlace(row, cells[s].row)
    ensures Writes(t, t.(statements := t.statements[s := row]), cells, s, cells[s].(row := row))
  {
    var c := cells[s].(row := row);
    KeepsOverflow(t, cells, s, c);
    KeepsEvidence(t, cells, s, c);
    KeepsPredicate(t, cells, s, c);
    KeepsUndo(t, cells, s, c);
    KeepsListing(t, cells, s, c);
    RowKeepsStrays(t, s, row);
  }

  lemma WriteMinted(t: Tables, cells: map<StatementId, Cell>, s: StatementId, n: nat)
    requires Shows(t, cells) && s in cells
    ensures Writes(t, t.(minted := t.minted[s := n]), cells, s, cells[s].(minted := n))
  {
    var c := cells[s].(minted := n);
    KeepsOverflow(t, cells, s, c);
    KeepsEvidence(t, cells, s, c);
    KeepsPredicate(t, cells, s, c);
    KeepsUndo(t, cells, s, c);
    KeepsListing(t, cells, s, c);
  }

  lemma WriteOverflow(t: Tables, cells: map<StatementId, Cell>, s: StatementId, serial: nat, es: seq<Entry>)
    requires Shows(t, cells) && s in cells
    ensures Writes(t, t.(overflow := t.overflow[OverflowId(s, serial) := es]), cells, s,
                   cells[s].(spill := cells[s].spill[serial := es]))
  {
    var c := cells[s].(spill := cells[s].spill[serial := es]);
    PutSpill(t.overflow, cells, s, serial, es);
    KeepsEvidence(t, cells, s, c);
    KeepsPredicate(t, cells, s, c);
    KeepsUndo(t, cells, s, c);
    KeepsListing(t, cells, s, c);
    assert StrayOverflow(t.statements, t.overflow[OverflowId(s, serial) := es])
        == StrayOverflow(t.statements, t.overflow);
  }

  lemma RemoveOverflow(t: Tables, cells: map<StatementId, Cell>, s: StatementId, serial: nat)
    requires Shows(t, cells) && s in cells
    ensures Writes(t, t.(overflow := t.overflow - {OverflowId(s, serial)}), cells, s,
                   cells[s].(spill := cells[s].spill - {serial}))
  {
    var c := cells[s].(spill := cells[s].spill - {serial});
    PutSpill(t.overflow, cells, s, serial, []);
    KeepsEvidence(t, cells, s, c);
    KeepsPredicate(t, cells, s, c);
    KeepsUndo(t, cells, s, c);
    KeepsListing(t, cells, s, c);
    assert StrayOverflow(t.statements, t.overflow - {OverflowId(s, serial)})
        == StrayOverflow(t.statements, t.overflow);
  }

  lemma WriteEvidence(t: Tables, cells: map<StatementId, Cell>, s: StatementId, m: MemoryId, present: bool)
    requires Shows(t, cells) && s in cells
    ensures
      var key := EvidenceKey(cells[s].row.scope, m, s);
      Writes(t, t.(byEvidence := Toggled(t.byEvidence, key, present)), cells, s,
             cells[s].(cites := Toggled(cells[s].cites, m, present)))
  {
    var key, c := EvidenceKey(cells[s].row.scope, m, s), cells[s].(cites := Toggled(cells[s].cites, m, present));
    PutCites(t.byEvidence, cells, s, m);
    KeepsOverflow(t, cells, s, c);
    KeepsPredicate(t, cells, s, c);
    KeepsUndo(t, cells, s, c);
    KeepsListing(t, cells, s, c);
    assert StrayEvidence(t.statements, Toggled(t.byEvidence, key, present))
        == StrayEvidence(t.statements, t.byEvidence);
  }

  lemma WritePredicate(t: Tables, cells: map<StatementId, Cell>, s: StatementId, b: nat, present: bool)
    requires Shows(t, cells) && s in cells
    ensures
      var key := KeyFor(cells[s].row, b, s);
      Writes(t, t.(byPredicate := Toggled(t.byPredicate, key, present)), cells, s,
             cells[s].(buckets := Toggled(cells[s].buckets, b, present)))
  {
    var key, c := KeyFor(cells[s].row, b, s), cells[s].(buckets := Toggled(cells[s].buckets, b, present));
    PutBucket(t.byPredicate, cells, s, b);
    KeepsOverflow(t, cells, s, c);
    KeepsEvidence(t, cells, s, c);
    KeepsUndo(t, cells, s, c);
    KeepsListing(t, cells, s, c);
    assert StrayPredicate(t.statements, Toggled(t.byPredicate, key, present))
        == StrayPredicate(t.statements, t.byPredicate);
  }

  lemma WriteSubject(t: Tables, cells: map<StatementId, Cell>, s: StatementId, current: bool, present: bool)
    requires Shows(t, cells) && s in cells
    ensures
      var key := SubjectFor(cells[s].row, current, s);
      Writes(t, t.(bySubject := Toggled(t.bySubject, key, present)), cells, s,
             cells[s].(listing := Marked(cells[s].listing, current, present)))
  {
    var key := SubjectFor(cells[s].row, current, s);
    var c := cells[s].(listing := Marked(cells[s].listing, current, present));
    PutListing(t.bySubject, t.embedQueue, cells, s, current, present);
    KeepsOverflow(t, cells, s, c);
    KeepsEvidence(t, cells, s, c);
    KeepsPredicate(t, cells, s, c);
    KeepsUndo(t, cells, s, c);
    assert StraySubject(t.statements, Toggled(t.bySubject, key, present))
        == StraySubject(t.statements, t.bySubject);
  }

  lemma WriteQueue(t: Tables, cells: map<StatementId, Cell>, s: StatementId, present: bool)
    requires Shows(t, cells) && s in cells
    ensures Writes(t, t.(embedQueue := Toggled(t.embedQueue, s, present)), cells, s,
                   cells[s].(listing := cells[s].listing.(queued := present)))
  {
    var c := cells[s].(listing := cells[s].listing.(queued := present));
    PutListing(t.bySubject, t.embedQueue, cells, s, true, present);
    KeepsOverflow(t, cells, s, c);
    KeepsEvidence(t, cells, s, c);
    KeepsPredicate(t, cells, s, c);
    KeepsUndo(t, cells, s, c);
  }

  lemma WriteUndo(t: Tables, cells: map<StatementId, Cell>, s: StatementId, m: MemoryId, rec: Undo)
    requires Shows(t, cells) && s in cells
    ensures Writes(t, t.(undo := t.undo[UndoKey(m, s) := rec]), cells, s, cells[s].(undo := cells[s].undo[m := rec]))
  {
    var c := cells[s].(undo := cells[s].undo[m := rec]);
    PutUndo(t.undo, cells, s, m, rec);
    KeepsOverflow(t, cells, s, c);
    KeepsEvidence(t, cells, s, c);
    KeepsPredicate(t, cells, s, c);
    KeepsListing(t, cells, s, c);
  }

  lemma RemoveUndo(t: Tables, cells: map<StatementId, Cell>, s: StatementId, m: MemoryId)
    requires Shows(t, cells)
    ensures s in cells ==>
              Writes(t, t.(undo := t.undo - {UndoKey(m, s)}), cells, s, cells[s].(undo := cells[s].undo - {m}))
    ensures s !in cells ==>
              && Shows(t.(undo := t.undo - {UndoKey(m, s)}), cells)
              && StraysOf(t.(undo := t.undo - {UndoKey(m, s)})) == StraysOf(t)
  {
    if s in cells {
      var c := cells[s].(undo := cells[s].undo - {m});
      PutUndo(t.undo, cells, s, m, Undo(Entry(m, 0), false, None, EVIDENCE_DROPPED));
      KeepsOverflow(t, cells, s, c);
      KeepsEvidence(t, cells, s, c);
      KeepsPredicate(t, cells, s, c);
      KeepsListing(t, cells, s, c);
    }
  }

  /** The evidence a statement's tables hold. */
  function EvidenceOf(t: Tables, s: StatementId): seq<Entry>
    requires s in t.statements
  {
    var row := t.statements[s];
    if row.overflowId.None? then row.inline
    else if OverflowId(s, row.overflowId.value) in t.overflow then t.overflow[OverflowId(s, row.overflowId.value)]
    else []
  }

  /** Agreement between the flat tables, for one statement. */
  ghost predicate Agrees(t: Tables, s: StatementId)
    requires s in t.statements
  {
    var row := t.statements[s];
    && (forall serial: nat :: OverflowId(s, serial) in t.overflow <==> row.overflowId == Some(serial))
    && (row.overflowId.None? <==> |EvidenceOf(t, s)| <= INLINE_EVIDENCE_CAP)
    && (forall m: MemoryId :: EvidenceKey(row.scope, m, s) in t.byEvidence <==> Cites(EvidenceOf(t, s), m))
    && (forall b: nat ::
          KeyFor(row, b, s) in t.byPredicate <==> !row.tombstoned && row.isCurrent && b == Bucket(row.confidence))
    && (!row.pending ==> (SubjectFor(row, true, s) in t.bySubject) == row.isCurrent)
    && (!row.pending ==> (SubjectFor(row, false, s) in t.bySubject) == !row.isCurrent)
    && (row.tombstoned ==> s !in t.embedQueue)
  }

  /** A statement that a run of forgets and reverts tracks has agreeing tables. */
  lemma TrackedAgrees(t: Tables, cells: map<StatementId, Cell>, s: StatementId,
                      original: map<MemoryId, Entry>, left: map<MemoryId, Entry>, dies: bool)
    requires Shows(t, cells) && s in cells && Tracks(cells[s], original, left, true, dies)
    ensures Agrees(t, s)
  {
    var c := cells[s];
    assert EvidenceOf(t, s) == RevertSource(c);
    forall m: MemoryId
      ensures m in c.cites <==> Cites(RevertSource(c), m)
    {
      CitesIffListed(RevertSource(c), left, m);
    }
    forall m: MemoryId
      ensures EvidenceKey(c.row.scope, m, s) in t.byEvidence <==> m in c.cites
    {
      assert EvidenceKey(c.row.scope, m, s).id in cells;
    }
    forall b: nat
      ensures KeyFor(c.row, b, s) in t.byPredicate <==> b in c.buckets
    {
      assert KeyFor(c.row, b, s).statement in cells;
    }
    assert ListedAs(t.bySubject, t.embedQueue, s, c);
    forall serial: nat
      ensures OverflowId(s, serial) in t.overflow <==> serial in c.spill
    {
      assert OverflowId(s, serial).owner in cells;
    }
  }
}
