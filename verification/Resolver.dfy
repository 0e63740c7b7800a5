/** The entity registry and the resolver's tiers. */
module Resolver {
  import opened Ranking
  import opened Names

  const DEFAULT_FUZZY_THRESHOLD: real := 0.75
  const PARTIAL_MATCH_FLOOR: real := 0.7
  const MIN_DIMINUTIVE_LEN: nat := 3

  type EntityId = nat

  datatype Key = Key(scope: nat, kind: nat, name: Name)

  datatype Entity = Entity(scope: nat, kind: nat, canonical: Name, aliases: set<Name>)
  {
    function KeyFor(name: Name): Key { Key(scope, kind, name) }
  }

  datatype AliasRow = AliasRow(key: Key, id: EntityId)

  /** The entity rows, the canonical-name index and the alias index. New ids come from `nextId`. */
  datatype Registry = Registry(entities: map<EntityId, Entity>, canonical: map<Key, EntityId>,
                               aliasRows: set<AliasRow>, nextId: nat)

  datatype Verdict = Confirmed | Rejected | Uncertain | Skipped

  /** How names compare: the trigram index's hits and scores, over all of an entity's names. */
  datatype Lexicon = Lexicon(shares: (Entity, Name) -> bool, jaccard: (Entity, Name) -> real)

  /** One call, its surface already stripped and normalized. `hits` is what the vector search over
      the index and the staged vectors returned, best first, or nothing when it is not wired. */
  datatype Call = Call(scope: nat, kind: nat, name: Name, isPerson: bool, lexicon: Lexicon,
                       hits: Option<seq<(EntityId, real)>>, threshold: real, verdict: EntityId -> Verdict)
  {
    function Asked(): Key { Key(scope, kind, name) }
  }

  datatype Tier = Fuzzy | Containment | Diminutive | Nickname | Embedding | Disambiguated | PartialConfirmed

  /** What a call decided. */
  datatype Outcome =
    | Known(id: EntityId)
    | CrossType(id: EntityId)
    | AliasOnto(id: EntityId, tier: Tier)
    | Create(proposal: Option<EntityId>)

  // ----- Lookups -----------------------------------------------------------

  function AliasIds(reg: Registry, key: Key): set<EntityId>
  {
    set row | row in reg.aliasRows && row.key == key :: row.id
  }

  /** Every entity whose canonical name is `name`, whatever its type. */
  function CrossIds(reg: Registry, scope: nat, name: Name): set<EntityId>
  {
    set k | k in reg.canonical && k.scope == scope && k.name == name :: reg.canonical[k]
  }

  predicate IsLeast(s: set<EntityId>, x: EntityId) { x in s && forall y | y in s :: x <= y }

  /** The entity the registry alone determines for a key, if any. */
  ghost predicate Answers(reg: Registry, key: Key, id: EntityId)
  {
    if key in reg.canonical then id == reg.canonical[key]
    else if AliasIds(reg, key) != {} then IsLeast(AliasIds(reg, key), id)
    else CrossIds(reg, key.scope, key.name) == {id}
  }

  /** The indexes point at entities of the key's own scope and type, and ids are fresh. */
  ghost predicate Consistent(reg: Registry)
  {
    && (forall k | k in reg.canonical ::
          reg.canonical[k] in reg.entities && reg.entities[reg.canonical[k]].KeyFor(k.name) == k
          && reg.entities[reg.canonical[k]].canonical == k.name)
    && (forall row | row in reg.aliasRows ::
          row.id in reg.entities && reg.entities[row.id].KeyFor(row.key.name) == row.key
          && row.key.name in reg.entities[row.id].aliases)
    && (forall id, n | id in reg.entities && n in reg.entities[id].aliases ::
          AliasRow(reg.entities[id].KeyFor(n), id) in reg.aliasRows)
    && (forall id | id in reg.entities :: id < reg.nextId)
  }

  // ----- The tiers ---------------------------------------------------------

  predicate SameBucket(e: Entity, call: Call) { e.scope == call.scope && e.kind == call.kind }

  predicate DigitsAgree(e: Entity, call: Call) { DigitRuns(call.name) == DigitRuns(e.canonical) }

  /** Trigram candidates whose canonical name carries the same numbers. */
  function Candidates(reg: Registry, call: Call): set<EntityId>
  {
    set id | id in reg.entities && SameBucket(reg.entities[id], call) &&
             call.lexicon.shares(reg.entities[id], call.name)
             && DigitsAgree(reg.entities[id], call)
  }

  function ScoreOf(reg: Registry, call: Call, id: EntityId): real
    requires id in reg.entities
  {
    call.lexicon.jaccard(reg.entities[id], call.name)
  }

  function FuzzyIds(reg: Registry, call: Call): set<EntityId>
  {
    set id | id in Candidates(reg, call) && ScoreOf(reg, call, id) >= DEFAULT_FUZZY_THRESHOLD
  }

  predicate Contains(e: Entity, call: Call) { StrictlyContains(e.canonical, call.name) }

  /** The call's one token is a proper beginning of the entity's first name. */
  predicate Abbreviated(e: Entity, call: Call)
  {
    |call.name| == 1 && e.canonical != [] && e.canonical[0] != call.name[0] && StartsWith(e.canonical[0], call.name[0])
  }

  /** The entity's one token is a proper beginning of the call's first name. */
  predicate IsNickname(e: Entity, call: Call)
  {
    && call.name != [] && |e.canonical| == 1 && |e.canonical[0]| >= MIN_DIMINUTIVE_LEN
    && e.canonical[0] != call.name[0] && StartsWith(call.name[0], e.canonical[0])
  }

  /** A name whose first token is another fuller form of the nickname. */
  predicate Claims(name: Name, nick: string, first: string)
  {
    name != [] && name[0] != nick && name[0] != first && StartsWith(name[0], nick) && |name[0]| > |nick|
  }

  predicate FreeForFuller(e: Entity, call: Call)
    requires call.name != [] && e.canonical != []
  {
    && !Claims(e.canonical, e.canonical[0], call.name[0])
    && forall n | n in e.aliases :: !Claims(n, e.canonical[0], call.name[0])
  }

  function ContainingIds(reg: Registry, call: Call): set<EntityId>
  {
    set id | id in Candidates(reg, call) && Contains(reg.entities[id], call)
  }

  function AbbreviatedIds(reg: Registry, call: Call): set<EntityId>
  {
    set id | id in Candidates(reg, call) && Abbreviated(reg.entities[id], call)
  }

  function NicknameIds(reg: Registry, call: Call): set<EntityId>
  {
    set id | id in Candidates(reg, call) && IsNickname(reg.entities[id], call)
  }

  /** The first hit in the caller's scope and type. */
  function FirstTyped(reg: Registry, call: Call, hits: seq<(EntityId, real)>): Option<(EntityId, real)>
  {
    if hits == [] then None
    else if hits[0].0 in reg.entities && SameBucket(reg.entities[hits[0].0], call) then Some(hits[0])
    else FirstTyped(reg, call, hits[1..])
  }

  lemma {:induction false} FirstTypedIsTyped(reg: Registry, call: Call, hits: seq<(EntityId, real)>)
    ensures
      var r := FirstTyped(reg, call, hits);
      r.Some? ==> r.value.0 in reg.entities && SameBucket(reg.entities[r.value.0], call)
  {
    if hits != [] {
      FirstTypedIsTyped(reg, call, hits[1..]);
    }
  }

  /** What the embedding tier and the verdicts make of the first typed hit. */
  function EmbeddingOutcome(reg: Registry, call: Call): Outcome
  {
    var hit := if call.hits.Some? then FirstTyped(reg, call, call.hits.value) else None;
    if hit.None? || (hit.value.1 < call.threshold && hit.value.1 < PARTIAL_MATCH_FLOOR) then Create(None)
    else
      FirstTypedIsTyped(reg, call, call.hits.value);
      var id := hit.value.0;
      if hit.value.1 >= call.threshold then
        if !DigitsAgree(reg.entities[id], call) then Create(None)
        else
          match call.verdict(id)
          case Rejected => Create(None)
          case Confirmed => AliasOnto(id, Disambiguated)
          case _ => AliasOnto(id, Embedding)
      else
        match call.verdict(id)
        case Rejected => Create(None)
        case Confirmed => AliasOnto(id, PartialConfirmed)
        case _ => Create(Some(id))
  }

  predicate MayAbbreviate(call: Call)
  {
    call.isPerson && |call.name| == 1 && |call.name[0]| >= MIN_DIMINUTIVE_LEN
  }

  /** One nickname, and not yet claimed by another fuller name. */
  predicate Absorbs(reg: Registry, call: Call, id: EntityId)
  {
    && call.isPerson && NicknameIds(reg, call) == {id} && id in NicknameIds(reg, call)
    && FreeForFuller(reg.entities[id], call)
  }

  /** The tiers below the indexes: each speaks only when every earlier one is silent. */
  ghost predicate LateDecides(reg: Registry, call: Call, o: Outcome)
  {
    if FuzzyIds(reg, call) != {} then
      && o.AliasOnto? && o.tier == Fuzzy && o.id in FuzzyIds(reg, call)
      && forall x | x in FuzzyIds(reg, call) :: ScoreOf(reg, call, x) <= ScoreOf(reg, call, o.id)
    else if |ContainingIds(reg, call)| == 1 then
      o.AliasOnto? && o.tier == Containment && o.id in ContainingIds(reg, call)
    else if MayAbbreviate(call) && |AbbreviatedIds(reg, call)| == 1 then
      o.AliasOnto? && o.tier == Diminutive && o.id in AbbreviatedIds(reg, call)
    else if exists id :: Absorbs(reg, call, id) then
      o.AliasOnto? && o.tier == Nickname && Absorbs(reg, call, o.id)
    else o == EmbeddingOutcome(reg, call)
  }

  /** The whole decision procedure. */
  ghost predicate Decides(reg: Registry, call: Call, o: Outcome)
  {
    var key := call.Asked();
    if key in reg.canonical then o == Known(reg.canonical[key])
    else if AliasIds(reg, key) != {} then o.Known? && IsLeast(AliasIds(reg, key), o.id)
    else if |CrossIds(reg, key.scope, key.name)| == 1 then o.CrossType? && o.id in CrossIds(reg, key.scope, key.name)
    else LateDecides(reg, call, o)
  }

  // ----- Effects -----------------------------------------------------------

  /** `entity_add_alias`: under the entity's own scope and type, once. */
  function AddAlias(reg: Registry, id: EntityId, name: Name): Registry
    requires id in reg.entities
  {
    var e := reg.entities[id];
    if name in e.aliases then reg
    else reg.(entities := reg.entities[id := e.(aliases := e.aliases + {name})],
              aliasRows := reg.aliasRows + {AliasRow(e.KeyFor(name), id)})
  }

  /** `entity_put` of a new entity. */
  function Put(reg: Registry, key: Key): Registry
  {
    Registry(reg.entities[reg.nextId := Entity(key.scope, key.kind, key.name, {})],
             reg.canonical[key := reg.nextId], reg.aliasRows, reg.nextId + 1)
  }

  predicate Targets(reg: Registry, o: Outcome) { o.CrossType? || o.AliasOnto? ==> o.id in reg.entities }

  function Effect(reg: Registry, call: Call, o: Outcome): Registry
    requires Targets(reg, o)
  {
    match o
    case Known(_) => reg
    case CrossType(id) => AddAlias(reg, id, call.name)
    case AliasOnto(id, _) => AddAlias(reg, id, call.name)
    case Create(_) => Put(reg, call.Asked())
  }

  function ResultOf(reg: Registry, o: Outcome): EntityId { if o.Create? then reg.nextId else o.id }

  // ----- Stability ---------------------------------------------------------

  lemma AliasIdsHold(reg: Registry, key: Key, id: EntityId)
    ensures id in AliasIds(reg, key) <==> AliasRow(key, id) in reg.aliasRows
  {
    if id in AliasIds(reg, key) {
      var row :| row in reg.aliasRows && row.key == key && row.id == id;
      assert row == AliasRow(key, id);
    }
  }

  lemma SingleCross(reg: Registry, scope: nat, name: Name, id: EntityId)
    requires |CrossIds(reg, scope, name)| == 1 && id in CrossIds(reg, scope, name)
    ensures CrossIds(reg, scope, name) == {id}
  {
    SubsetSize({id}, CrossIds(reg, scope, name));
  }

  /** A cross-type answer is canonical under its own type. */
  lemma CrossIsCanonical(reg: Registry, scope: nat, name: Name, id: EntityId)
    requires Consistent(reg) && id in CrossIds(reg, scope, name)
    ensures id in reg.entities
    ensures
      var e := reg.entities[id];
      e.scope == scope && e.canonical == name && e.KeyFor(name) in reg.canonical && reg.canonical[e.KeyFor(name)] == id
  {
    var k :| k in reg.canonical && k.scope == scope && k.name == name && reg.canonical[k] == id;
    assert reg.entities[id].KeyFor(k.name) == k;
  }

  /** Every tier below the indexes aliases onto an entity of the caller's scope and type. */
  lemma LateIsInBucket(reg: Registry, call: Call, o: Outcome)
    requires LateDecides(reg, call, o)
    ensures !o.Known? && !o.CrossType?
    ensures o.AliasOnto? ==> o.id in reg.entities && SameBucket(reg.entities[o.id], call)
  {
    if call.hits.Some? {
      FirstTypedIsTyped(reg, call, call.hits.value);
    }
  }

  /** Whatever a call resolves or aliases belongs to the caller's scope. */
  lemma DecidesInScope(reg: Registry, call: Call, o: Outcome)
    requires Consistent(reg) && Decides(reg, call, o)
    ensures Targets(reg, o) && (o.Create? || o.id in reg.entities)
    ensures !o.Create? ==> reg.entities[o.id].scope == call.scope
    ensures o.Known? || o.AliasOnto? ==> reg.entities[o.id].kind == call.kind
  {
    var key := call.Asked();
    if key in reg.canonical {
    } else if AliasIds(reg, key) != {} {
      AliasIdsHold(reg, key, o.id);
    } else if |CrossIds(reg, key.scope, key.name)| == 1 {
      CrossIsCanonical(reg, key.scope, key.name, o.id);
    } else {
      LateIsInBucket(reg, call, o);
    }
  }

  lemma AddAliasKeepsConsistent(reg: Registry, id: EntityId, name: Name)
    requires Consistent(reg) && id in reg.entities
    ensures Consistent(AddAlias(reg, id, name))
  {
  }

  lemma PutKeepsConsistent(reg: Registry, key: Key)
    requires Consistent(reg) && key !in reg.canonical
    ensures Consistent(Put(reg, key))
  {
  }

  lemma EffectKeepsConsistent(reg: Registry, call: Call, o: Outcome)
    requires Consistent(reg) && Decides(reg, call, o) && Targets(reg, o)
    ensures Consistent(Effect(reg, call, o))
  {
    match o {
      case Known(_) =>
      case CrossType(id) => AddAliasKeepsConsistent(reg, id, call.name);
      case AliasOnto(id, _) => AddAliasKeepsConsistent(reg, id, call.name);
      case Create(_) => PutKeepsConsistent(reg, call.Asked());
    }
  }
}
