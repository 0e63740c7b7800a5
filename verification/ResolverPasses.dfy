/** The resolver at work: its tier loops, and passes that commit and then publish the vectors of
    what they minted, or roll back. */
module ResolverPasses {
  import opened Ranking
  import opened Names
  import opened Resolver
  import opened ResolverTiers

  // ----- The tier loops ----------------------------------------------------

  method Least(ids: set<EntityId>) returns (least: EntityId)
    requires ids != {}
    ensures IsLeast(ids, least)
  {
    least :| least in ids;
    var todo := ids - {least};
    while todo != {}
      invariant todo <= ids && least in ids && forall x | x in ids && x !in todo :: least <= x
      decreases todo
    {
      var x :| x in todo;
      todo := todo - {x};
      if x < least {
        least := x;
      }
    }
  }

  /** The trigram hits that survive the digit guard. */
  method FilterCandidates(reg: Registry, call: Call) returns (kept: set<EntityId>)
    ensures kept == Candidates(reg, call)
  {
    kept := {};
    var hits := set id | id in reg.entities && SameBucket(reg.entities[id], call) &&
                         call.lexicon.shares(reg.entities[id], call.name);
    var todo := hits;
    while todo != {}
      invariant todo <= hits && kept == set id | id in hits - todo && DigitsAgree(reg.entities[id], call)
      decreases todo
    {
      var id :| id in todo;
      todo := todo - {id};
      if DigitsAgree(reg.entities[id], call) {
        kept := kept + {id};
      }
    }
  }

  /** The best-scoring candidate at or above the fuzzy threshold. */
  method BestFuzzy(reg: Registry, call: Call, candidates: set<EntityId>) returns (best: Option<EntityId>)
    requires candidates == Candidates(reg, call)
    ensures best.None? ==> FuzzyIds(reg, call) == {}
    ensures best.Some? ==> best.value in FuzzyIds(reg, call)
    ensures best.Some? ==> forall x | x in FuzzyIds(reg, call) ::
            ScoreOf(reg, call, x) <= ScoreOf(reg, call, best.value)
  {
    best := None;
    var todo := candidates;
    while todo != {}
      invariant todo <= candidates
      invariant best.None? ==> FuzzyIds(reg, call) <= todo
      invariant best.Some? ==> best.value in FuzzyIds(reg, call)
      invariant best.Some? ==> forall x | x in FuzzyIds(reg, call) && x !in todo ::
                ScoreOf(reg, call, x) <= ScoreOf(reg, call, best.value)
      decreases todo
    {
      var id :| id in todo;
      todo := todo - {id};
      var score := ScoreOf(reg, call, id);
      if score >= DEFAULT_FUZZY_THRESHOLD && (best.None? || ScoreOf(reg, call, best.value) < score) {
        best := Some(id);
      }
    }
  }

  function Passing(candidates: set<EntityId>, test: EntityId -> bool): set<EntityId>
  {
    set c | c in candidates && test(c)
  }

  /** The only candidate that passes, giving up at the second. */
  method OnlyMatch(candidates: set<EntityId>, test: EntityId -> bool) returns (r: Option<EntityId>)
    ensures r.Some? ==> Passing(candidates, test) == {r.value}
    ensures r.None? ==> |Passing(candidates, test)| != 1
  {
    r := None;
    var todo := candidates;
    ghost var passing := Passing(candidates, test);
    while todo != {}
      invariant todo <= candidates
      invariant passing - todo == if r.Some? then {r.value} else {}
      decreases todo
    {
      var c :| c in todo;
      todo := todo - {c};
      if test(c) {
        if r.Some? {
          assert {r.value, c} <= passing;
          SubsetSize({r.value, c}, passing);
          return None;
        }
        r := Some(c);
      }
    }
    assert passing - {} == passing;
  }

  /** Whether no stored name of the nickname's entity is another fuller form. */
  method NicknameIsFree(e: Entity, call: Call) returns (free: bool)
    requires call.name != [] && e.canonical != []
    ensures free == FreeForFuller(e, call)
  {
    var nick, first := e.canonical[0], call.name[0];
    if Claims(e.canonical, nick, first) {
      return false;
    }
    var todo := e.aliases;
    while todo != {}
      invariant todo <= e.aliases && forall n | n in e.aliases && n !in todo :: !Claims(n, nick, first)
      decreases todo
    {
      var n :| n in todo;
      if Claims(n, nick, first) {
        return false;
      }
      todo := todo - {n};
    }
    free := true;
  }

  method FirstTypedHit(reg: Registry, call: Call, hits: seq<(EntityId, real)>) returns (hit: Option<(EntityId, real)>)
    ensures hit == FirstTyped(reg, call, hits)
  {
    for i := 0 to |hits|
      invariant FirstTyped(reg, call, hits) == FirstTyped(reg, call, hits[i..])
    {
      assert hits[i..][1..] == hits[i + 1..];
      if hits[i].0 in reg.entities && SameBucket(reg.entities[hits[i].0], call) {
        return Some(hits[i]);
      }
    }
    hit := None;
  }

  /** The embedding probe and the verdict on what it found. */
  method ProbeEmbedding(reg: Registry, call: Call) returns (o: Outcome)
    ensures o == EmbeddingOutcome(reg, call) && HitIsDue(reg, call, o)
  {
    HitsAgree(reg, call, EmbeddingOutcome(reg, call));
    var hit := None;
    if call.hits.Some? {
      hit := FirstTypedHit(reg, call, call.hits.value);
      FirstTypedIsTyped(reg, call, call.hits.value);
    }
    if hit.None? {
      return Create(None);
    }
    var id, score := hit.value.0, hit.value.1;
    if score >= call.threshold {
      if !DigitsAgree(reg.entities[id], call) {
        return Create(None);
      }
      match call.verdict(id) {
        case Rejected => return Create(None);
        case Confirmed => return AliasOnto(id, Disambiguated);
        case _ => return AliasOnto(id, Embedding);
      }
    }
    if score < PARTIAL_MATCH_FLOOR {
      return Create(None);
    }
    match call.verdict(id) {
      case Rejected => return Create(None);
      case Confirmed => return AliasOnto(id, PartialConfirmed);
      case _ => return Create(Some(id));
    }
  }

  method OnlyContaining(reg: Registry, call: Call, candidates: set<EntityId>) returns (r: Option<EntityId>)
    requires candidates == Candidates(reg, call)
    ensures r.Some? <==> |ContainingIds(reg, call)| == 1
    ensures r.Some? ==> r.value in ContainingIds(reg, call)
  {
    var test := (id: EntityId) => id in reg.entities && Contains(reg.entities[id], call);
    assert Passing(candidates, test) == ContainingIds(reg, call);
    r := OnlyMatch(candidates, test);
  }

  method OnlyAbbreviated(reg: Registry, call: Call, candidates: set<EntityId>) returns (r: Option<EntityId>)
    requires candidates == Candidates(reg, call)
    ensures r.Some? <==> |AbbreviatedIds(reg, call)| == 1
    ensures r.Some? ==> r.value in AbbreviatedIds(reg, call)
  {
    var test := (id: EntityId) => id in reg.entities && Abbreviated(reg.entities[id], call);
    assert Passing(candidates, test) == AbbreviatedIds(reg, call);
    r := OnlyMatch(candidates, test);
  }

  method AbsorbingNickname(reg: Registry, call: Call, candidates: set<EntityId>) returns (r: Option<EntityId>)
    requires call.name != [] && candidates == Candidates(reg, call)
    ensures r.Some? ==> Absorbs(reg, call, r.value)
    ensures r.None? ==> forall id :: !Absorbs(reg, call, id)
  {
    r := None;
    if call.isPerson {
      var test := (id: EntityId) => id in reg.entities && IsNickname(reg.entities[id], call);
      assert Passing(candidates, test) == NicknameIds(reg, call);
      var only := OnlyMatch(candidates, test);
      if only.Some? {
        assert only.value in NicknameIds(reg, call);
        var free := NicknameIsFree(reg.entities[only.value], call);
        r := if free then only else None;
      }
      assert forall id :: NicknameIds(reg, call) == {id} ==> |NicknameIds(reg, call)| == 1;
    }
  }

  /** The string tiers over the candidates, in order. */
  method MatchNames(reg: Registry, call: Call, candidates: set<EntityId>) returns (r: Option<Outcome>)
    requires call.name != [] && candidates == Candidates(reg, call)
    ensures LateDecides(reg, call, if r.Some? then r.value else EmbeddingOutcome(reg, call))
  {
    var best := BestFuzzy(reg, call, candidates);
    if best.Some? {
      return Some(AliasOnto(best.value, Fuzzy));
    }
    var containing := OnlyContaining(reg, call, candidates);
    if containing.Some? {
      return Some(AliasOnto(containing.value, Containment));
    }
    if MayAbbreviate(call) {
      var longer := OnlyAbbreviated(reg, call, candidates);
      if longer.Some? {
        return Some(AliasOnto(longer.value, Diminutive));
      }
    }
    var nickname := AbsorbingNickname(reg, call, candidates);
    r := if nickname.Some? then Some(AliasOnto(nickname.value, Nickname)) else None;
  }

  /** The decision of `resolve_or_create_with_deps` on a non-empty name. */
  method Decide(reg: Registry, call: Call) returns (o: Outcome)
    requires call.name != []
    ensures Decides(reg, call, o) && IsDue(reg, call, o)
  {
    o := DecideByTiers(reg, call);
    DecidesIffDue(reg, call, o);
  }

  method DecideByTiers(reg: Registry, call: Call) returns (o: Outcome)
    requires call.name != []
    ensures Decides(reg, call, o)
  {
    var key := call.Asked();
    if key in reg.canonical {
      return Known(reg.canonical[key]);
    }
    var aliases := AliasIds(reg, key);
    if aliases != {} {
      var least := Least(aliases);
      return Known(least);
    }
    var cross := CrossIds(reg, key.scope, key.name);
    if |cross| == 1 {
      var id :| id in cross;
      return CrossType(id);
    }
    var candidates := FilterCandidates(reg, call);
    var byName := MatchNames(reg, call, candidates);
    if byName.Some? {
      return byName.value;
    }
    o := ProbeEmbedding(reg, call);
  }

  // ----- Passes ------------------------------------------------------------

  /** The entity index after publishing staged ids: each once, except those whose insert fails. */
  function Flushed(index: seq<EntityId>, staged: seq<EntityId>, failing: set<EntityId>): seq<EntityId>
    decreases |staged|
  {
    if staged == [] then index
    else if staged[0] in index || staged[0] in failing then Flushed(index, staged[1..], failing)
    else Flushed(index + [staged[0]], staged[1..], failing)
  }

  predicate Unique(ids: seq<EntityId>) { forall i, j | 0 <= i < j < |ids| :: ids[i] != ids[j] }

  /** Publishing keeps ids unique, drops none, adds only staged ones, and misses only failures. */
  lemma {:induction false} FlushPublishes(index: seq<EntityId>, staged: seq<EntityId>, failing: set<EntityId>)
    requires Unique(index)
    ensures Unique(Flushed(index, staged, failing))
    ensures forall id :: id in Flushed(index, staged, failing) <==> id in index || (id in staged && id !in failing)
    decreases |staged|
  {
    if staged != [] {
      var next := if staged[0] in index || staged[0] in failing then index else index + [staged[0]];
      FlushPublishes(next, staged[1..], failing);
      assert staged == [staged[0]] + staged[1..];
    }
  }

  /** The registry after dropping a pass: the committed rows. An id the pass drew is never drawn again. */
  function Dropped(committed: Registry, open: Registry): Registry
  {
    committed.(nextId := open.nextId)
  }

  /** A call only adds entities, and the one it answers with is there, in the caller's scope. */
  lemma EffectGrows(reg: Registry, call: Call, o: Outcome)
    requires Consistent(reg) && Decides(reg, call, o)
    ensures Targets(reg, o) && Consistent(Effect(reg, call, o))
    ensures
      var after, id := Effect(reg, call, o), ResultOf(reg, o);
      && reg.entities.Keys <= after.entities.Keys && reg.nextId <= after.nextId
      && id in after.entities && after.entities[id].scope == call.scope
  {
    DecidesInScope(reg, call, o);
    EffectKeepsConsistent(reg, call, o);
  }

  datatype Resolution = EmptyNormalizedName | Resolved(id: EntityId, outcome: Outcome)

  /** A shard: the committed registry and merge queue with the in-memory entity index, and the
      open pass, whose writes, proposals and staged vectors become visible only by committing. */
  class Shard {
    var committed: Registry
    var index: seq<EntityId>
    var open: Registry
    var staged: seq<EntityId>
    var proposals: seq<(EntityId, EntityId)>
    var queue: seq<(EntityId, EntityId)>

    ghost predicate Valid()
      reads this
    {
      && Consistent(committed) && Consistent(open) && committed.entities.Keys <= open.entities.Keys
      && committed.nextId <= open.nextId
      && Unique(index) && (forall i | 0 <= i < |index| :: index[i] in committed.entities)
      && (forall i | 0 <= i < |staged| :: staged[i] in open.entities)
    }

    constructor ()
      ensures Valid() && index == [] && committed.entities == map[] && open == committed
      ensures staged == [] && proposals == [] && queue == []
    {
      committed, open := Registry(map[], map[], {}, 0), Registry(map[], map[], {}, 0);
      index, staged, proposals, queue := [], [], [], [];
    }

    /** Start a pass over the committed rows, with an empty staging area. */
    method Begin()
      requires Valid()
      modifies `open, `staged, `proposals
      ensures Valid() && open == Dropped(committed, old(open)) && staged == [] && proposals == []
    {
      open, staged, proposals := Dropped(committed, open), [], [];
    }

    /** `resolve_or_create_with_deps` inside the open pass: no committed row and no index entry
        changes, and the entity returned exists in the pass and in the caller's scope. */
    method Resolve(call: Call, embeds: bool) returns (r: Resolution)
      requires Valid()
      modifies `open, `staged, `proposals
      ensures Valid() && (r.EmptyNormalizedName? <==> call.name == [])
      ensures r.EmptyNormalizedName? ==> open == old(open) && staged == old(staged) && proposals == old(proposals)
      ensures r.Resolved? ==>
        && Decides(old(open), call, r.outcome) && IsDue(old(open), call, r.outcome)
        && Targets(old(open), r.outcome) && open == Effect(old(open), call, r.outcome)
        && r.id == ResultOf(old(open), r.outcome)
        && r.id in open.entities && open.entities[r.id].scope == call.scope
        && staged == (if r.outcome.Create? && embeds then old(staged) + [r.id] else old(staged))
        && proposals == old(proposals) +
             (if r.outcome.Create? && r.outcome.proposal.Some? then [(r.id, r.outcome.proposal.value)] else [])
    {
      if call.name == [] {
        return EmptyNormalizedName;
      }
      var o := Decide(open, call);
      EffectGrows(open, call, o);
      var id := ResultOf(open, o);
      open := Effect(open, call, o);
      StageNew(id, o, embeds);
      r := Resolved(id, o);
    }

    /** A new entity's vector is staged and its merge proposal filed. */
    method StageNew(id: EntityId, o: Outcome, embeds: bool)
      modifies `staged, `proposals
      ensures staged == if o.Create? && embeds then old(staged) + [id] else old(staged)
      ensures proposals == old(proposals) +
                if o.Create? && o.proposal.Some? then [(id, o.proposal.value)] else []
    {
      if o.Create? {
        if embeds {
          staged := staged + [id];
        }
        if o.proposal.Some? {
          proposals := proposals + [(id, o.proposal.value)];
        }
      }
    }

    /** Commit, then publish the staged vectors. Inserting a vector may fail. */
    method Commit(failing: set<EntityId>)
      requires Valid()
      modifies this
      ensures Valid() && committed == open == old(open) && staged == [] && proposals == []
      ensures queue == old(queue) + old(proposals)
      ensures index == Flushed(old(index), old(staged), failing)
    {
      ghost var target := Flushed(index, staged, failing);
      FlushPublishes(index, staged, failing);
      forall i | 0 <= i < |target|
        ensures target[i] in open.entities
      {
        assert target[i] in target;
        assert target[i] in index || target[i] in staged;
      }
      committed, queue := open, queue + proposals;
      while staged != []
        invariant committed == old(open) && queue == old(queue) + old(proposals)
        invariant Flushed(index, staged, failing) == target
        decreases |staged|
      {
        if staged[0] !in index && staged[0] !in failing {
          index := index + [staged[0]];
        }
        staged := staged[1..];
      }
      open, proposals := committed, [];
    }

    /** Drop the pass. */
    method Rollback()
      requires Valid()
      modifies `open, `staged, `proposals
      ensures Valid() && open == Dropped(committed, old(open)) && staged == [] && proposals == []
    {
      open, staged, proposals := Dropped(committed, open), [], [];
    }
  }
}
