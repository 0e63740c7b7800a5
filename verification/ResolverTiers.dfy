/** What a call should decide, read off its inputs and the registry alone, and that the tiers decide
    exactly that. */
module ResolverTiers {
  import opened Ranking
  import opened Names
  import opened Resolver

  // ----- The reference -------------------------------------------------------

  /** The key has a canonical row or an alias row. */
  ghost predicate Indexed(reg: Registry, key: Key)
  {
    key in reg.canonical || exists id: EntityId :: AliasRow(key, id) in reg.aliasRows
  }

  /** What the two indexes hold for the key: its canonical entity, else the smallest aliased one. */
  ghost predicate IndexedAs(reg: Registry, key: Key, id: EntityId)
  {
    if key in reg.canonical then reg.canonical[key] == id
    else AliasRow(key, id) in reg.aliasRows && forall x | AliasRow(key, x) in reg.aliasRows :: id <= x
  }

  /** Some type has `id` under this canonical name. */
  ghost predicate NamedLike(reg: Registry, call: Call, id: EntityId)
  {
    exists kind :: Key(call.scope, kind, call.name) in reg.canonical
                   && reg.canonical[Key(call.scope, kind, call.name)] == id
  }

  /** An entity of the caller's scope and type. */
  predicate Ours(reg: Registry, call: Call, id: EntityId)
  {
    id in reg.entities && reg.entities[id].scope == call.scope && reg.entities[id].kind == call.kind
  }

  /** One that shares a trigram with the name and carries the same numbers. */
  predicate Similar(reg: Registry, call: Call, id: EntityId)
  {
    && Ours(reg, call, id) && call.lexicon.shares(reg.entities[id], call.name)
    && DigitRuns(reg.entities[id].canonical) == DigitRuns(call.name)
  }

  predicate LooksLike(reg: Registry, call: Call, id: EntityId)
  {
    Similar(reg, call, id) && call.lexicon.jaccard(reg.entities[id], call.name) >= 0.75
  }

  /** It has every token of the name and more tokens. */
  predicate Fuller(reg: Registry, call: Call, id: EntityId)
  {
    && Similar(reg, call, id) && |reg.entities[id].canonical| > |call.name|
    && forall i | 0 <= i < |call.name| :: call.name[i] in reg.entities[id].canonical
  }

  /** `long` goes on where `short` ends. */
  predicate Extends(long: string, short: string) { |long| > |short| && long[..|short|] == short }

  /** The name is one token of three letters or more, and a person's first name extends it. */
  predicate LongForm(reg: Registry, call: Call, id: EntityId)
  {
    && Similar(reg, call, id) && call.isPerson && |call.name| == 1 && |call.name[0]| >= 3
    && |reg.entities[id].canonical| > 0 && Extends(reg.entities[id].canonical[0], call.name[0])
  }

  /** The person's name is one token of three letters or more, and the caller's first name extends it. */
  predicate ShortForm(reg: Registry, call: Call, id: EntityId)
  {
    && Similar(reg, call, id) && call.isPerson && |call.name| > 0 && |reg.entities[id].canonical| == 1
    && |reg.entities[id].canonical[0]| >= 3 && Extends(call.name[0], reg.entities[id].canonical[0])
  }

  /** An alias of the short form already stands for a longer first name, and not for the caller's. */
  predicate Taken(reg: Registry, call: Call, id: EntityId)
    requires ShortForm(reg, call, id)
  {
    exists n | n in reg.entities[id].aliases ::
      n != [] && n[0] != call.name[0] && Extends(n[0], reg.entities[id].canonical[0])
  }

  ghost predicate OnlyNamed(reg: Registry, call: Call, id: EntityId)
  {
    NamedLike(reg, call, id) && forall x | NamedLike(reg, call, x) :: x == id
  }

  ghost predicate OnlyFuller(reg: Registry, call: Call, id: EntityId)
  {
    Fuller(reg, call, id) && forall x | Fuller(reg, call, x) :: x == id
  }

  ghost predicate OnlyLongForm(reg: Registry, call: Call, id: EntityId)
  {
    LongForm(reg, call, id) && forall x | LongForm(reg, call, x) :: x == id
  }

  ghost predicate FreeShortForm(reg: Registry, call: Call, id: EntityId)
  {
    ShortForm(reg, call, id) && !Taken(reg, call, id) && forall x | ShortForm(reg, call, x) :: x == id
  }

  /** Hit `i` is the nearest one of the caller's scope and type. */
  predicate Nearest(reg: Registry, call: Call, i: nat)
  {
    && call.hits.Some? && i < |call.hits.value| && Ours(reg, call, call.hits.value[i].0)
    && forall j | 0 <= j < i :: !Ours(reg, call, call.hits.value[j].0)
  }

  /** The hit is close enough, with the same numbers and no verdict against it; or close to it, and confirmed. */
  predicate Accepts(reg: Registry, call: Call, i: nat)
    requires Nearest(reg, call, i)
  {
    var (id, s) := call.hits.value[i];
    || (s >= call.threshold && DigitRuns(reg.entities[id].canonical) == DigitRuns(call.name)
        && call.verdict(id) != Rejected)
    || (0.7 <= s < call.threshold && call.verdict(id) == Confirmed)
  }

  /** The hit is close to it, and no verdict was given either way. */
  predicate Proposes(reg: Registry, call: Call, i: nat)
    requires Nearest(reg, call, i)
  {
    var (id, s) := call.hits.value[i];
    0.7 <= s < call.threshold && (call.verdict(id) == Uncertain || call.verdict(id) == Skipped)
  }

  function TierOf(call: Call, i: nat): Tier
    requires call.hits.Some? && i < |call.hits.value|
  {
    var (id, s) := call.hits.value[i];
    if s < call.threshold then PartialConfirmed else if call.verdict(id) == Confirmed then Disambiguated else Embedding
  }

  /** When no name decides: alias onto the nearest hit if it is accepted, mint and propose it if it is
      worth a review, and mint plainly otherwise. */
  ghost predicate HitIsDue(reg: Registry, call: Call, o: Outcome)
  {
    if exists i: nat :: Nearest(reg, call, i) then
      exists i: nat ::
        && Nearest(reg, call, i)
        && o == if Accepts(reg, call, i) then AliasOnto(call.hits.value[i].0, TierOf(call, i))
                else Create(if Proposes(reg, call, i) then Some(call.hits.value[i].0) else None)
    else o == Create(None)
  }

  ghost predicate NameIsDue(reg: Registry, call: Call, o: Outcome)
  {
    if exists id: EntityId :: LooksLike(reg, call, id) then
      && o.AliasOnto? && o.tier == Fuzzy && LooksLike(reg, call, o.id)
      && forall x | LooksLike(reg, call, x) ::
           call.lexicon.jaccard(reg.entities[x], call.name) <= call.lexicon.jaccard(reg.entities[o.id], call.name)
    else if exists id: EntityId :: OnlyFuller(reg, call, id) then
      o.AliasOnto? && o.tier == Containment && OnlyFuller(reg, call, o.id)
    else if exists id: EntityId :: OnlyLongForm(reg, call, id) then
      o.AliasOnto? && o.tier == Diminutive && OnlyLongForm(reg, call, o.id)
    else if exists id: EntityId :: FreeShortForm(reg, call, id) then
      o.AliasOnto? && o.tier == Nickname && FreeShortForm(reg, call, o.id)
    else HitIsDue(reg, call, o)
  }

  ghost predicate IsDue(reg: Registry, call: Call, o: Outcome)
  {
    if Indexed(reg, call.Asked()) then o.Known? && IndexedAs(reg, call.Asked(), o.id)
    else if exists id: EntityId :: OnlyNamed(reg, call, id) then o.CrossType? && OnlyNamed(reg, call, o.id)
    else NameIsDue(reg, call, o)
  }

  // ----- The tiers decide so ---------------------------------------------------

  lemma IndexesAgree(reg: Registry, key: Key)
    ensures Indexed(reg, key) <==> key in reg.canonical || AliasIds(reg, key) != {}
    ensures key !in reg.canonical ==> forall id :: IndexedAs(reg, key, id) <==> IsLeast(AliasIds(reg, key), id)
  {
    forall id ensures id in AliasIds(reg, key) <==> AliasRow(key, id) in reg.aliasRows {
      AliasIdsHold(reg, key, id);
    }
    if AliasIds(reg, key) != {} {
      var id :| id in AliasIds(reg, key);
    }
  }

  /** A set has one element if and only if some element is its only one. */
  lemma OneIff(s: set<EntityId>)
    ensures |s| == 1 <==> exists id: EntityId :: IsOnly(s, id)
    ensures forall id: EntityId | IsOnly(s, id) :: s == {id}
  {
    if |s| == 1 {
      var id :| id in s;
      SubsetSize({id}, s);
      assert IsOnly(s, id);
    }
    forall id: EntityId | IsOnly(s, id) ensures s == {id} {
    }
  }

  predicate IsOnly(s: set<EntityId>, id: EntityId) { id in s && forall x | x in s :: x == id }

  lemma NamesAgree(reg: Registry, call: Call)
    ensures forall id :: NamedLike(reg, call, id) <==> id in CrossIds(reg, call.scope, call.name)
    ensures forall id :: OnlyNamed(reg, call, id) <==> IsOnly(CrossIds(reg, call.scope, call.name), id)
  {
    forall id ensures NamedLike(reg, call, id) <==> id in CrossIds(reg, call.scope, call.name) {
      if id in CrossIds(reg, call.scope, call.name) {
        var k :| k in reg.canonical && k.scope == call.scope && k.name == call.name && reg.canonical[k] == id;
        assert k == Key(call.scope, k.kind, call.name);
      }
    }
  }

  lemma PrefixAgree(long: string, short: string)
    ensures Extends(long, short) <==> long != short && StartsWith(long, short)
  {
    if StartsWith(long, short) && |long| == |short| {
      assert long == short;
    }
  }

  lemma StringsAgree(reg: Registry, call: Call, id: EntityId)
    requires call.name != []
    ensures Similar(reg, call, id) <==> id in Candidates(reg, call)
    ensures LooksLike(reg, call, id) <==> id in FuzzyIds(reg, call)
    ensures Fuller(reg, call, id) <==> id in ContainingIds(reg, call)
    ensures LongForm(reg, call, id) <==> MayAbbreviate(call) && id in AbbreviatedIds(reg, call)
    ensures ShortForm(reg, call, id) <==> call.isPerson && id in NicknameIds(reg, call)
    ensures ShortForm(reg, call, id) ==> (FreeForFuller(reg.entities[id], call) <==> !Taken(reg, call, id))
  {
    if id in reg.entities {
      var e := reg.entities[id];
      if e.canonical != [] {
        PrefixAgree(e.canonical[0], call.name[0]);
        PrefixAgree(call.name[0], e.canonical[0]);
        forall n | n in e.aliases && n != []
          ensures Claims(n, e.canonical[0], call.name[0]) <==> n[0] != call.name[0] && Extends(n[0], e.canonical[0])
        {
          PrefixAgree(n[0], e.canonical[0]);
        }
      }
    }
  }

  lemma FormsAgree(reg: Registry, call: Call)
    requires call.name != []
    ensures (exists id: EntityId :: LooksLike(reg, call, id)) <==> FuzzyIds(reg, call) != {}
    ensures forall id :: OnlyFuller(reg, call, id) <==> IsOnly(ContainingIds(reg, call), id)
    ensures MayAbbreviate(call) ==> forall id :: OnlyLongForm(reg, call, id) <==> IsOnly(AbbreviatedIds(reg, call), id)
    ensures !MayAbbreviate(call) ==> forall id :: !OnlyLongForm(reg, call, id)
  {
    forall id
      ensures LooksLike(reg, call, id) <==> id in FuzzyIds(reg, call)
      ensures Fuller(reg, call, id) <==> id in ContainingIds(reg, call)
      ensures LongForm(reg, call, id) <==> MayAbbreviate(call) && id in AbbreviatedIds(reg, call)
    {
      StringsAgree(reg, call, id);
    }
    if FuzzyIds(reg, call) != {} {
      var id :| id in FuzzyIds(reg, call);
      assert LooksLike(reg, call, id);
    }
  }

  lemma NicknamesAgree(reg: Registry, call: Call, id: EntityId)
    requires call.name != []
    ensures FreeShortForm(reg, call, id) <==> Absorbs(reg, call, id)
  {
    forall x ensures ShortForm(reg, call, x) <==> call.isPerson && x in NicknameIds(reg, call) {
      StringsAgree(reg, call, x);
    }
    StringsAgree(reg, call, id);
  }

  lemma {:induction false} FirstTypedIsNearest(reg: Registry, call: Call, hits: seq<(EntityId, real)>) returns (i: nat)
    ensures i <= |hits| && forall j | 0 <= j < i :: !Ours(reg, call, hits[j].0)
    ensures FirstTyped(reg, call, hits) == if i < |hits| then Some(hits[i]) else None
    ensures i < |hits| ==> Ours(reg, call, hits[i].0)
  {
    i := 0;
    if hits != [] && !Ours(reg, call, hits[0].0) {
      var k := FirstTypedIsNearest(reg, call, hits[1..]);
      assert forall j | 1 <= j < |hits| :: hits[j] == hits[1..][j - 1];
      i := k + 1;
    }
  }

  lemma HitsAgree(reg: Registry, call: Call, o: Outcome)
    ensures HitIsDue(reg, call, o) <==> o == EmbeddingOutcome(reg, call)
  {
    if call.hits.Some? {
      var i := FirstTypedIsNearest(reg, call, call.hits.value);
      assert forall k: nat | Nearest(reg, call, k) :: k == i;
      assert i < |call.hits.value| <==> Nearest(reg, call, i);
    }
  }

  lemma LateAgrees(reg: Registry, call: Call, o: Outcome)
    requires call.name != []
    ensures NameIsDue(reg, call, o) <==> LateDecides(reg, call, o)
  {
    FormsAgree(reg, call);
    OneIff(ContainingIds(reg, call));
    OneIff(AbbreviatedIds(reg, call));
    HitsAgree(reg, call, o);
    forall id ensures FreeShortForm(reg, call, id) <==> Absorbs(reg, call, id) {
      NicknamesAgree(reg, call, id);
    }
    forall id ensures LooksLike(reg, call, id) <==> id in FuzzyIds(reg, call) {
      StringsAgree(reg, call, id);
    }
  }

  /** The tiers, in their order, decide a call exactly as its inputs call for. */
  lemma DecidesIffDue(reg: Registry, call: Call, o: Outcome)
    requires call.name != []
    ensures Decides(reg, call, o) <==> IsDue(reg, call, o)
  {
    IndexesAgree(reg, call.Asked());
    NamesAgree(reg, call);
    OneIff(CrossIds(reg, call.scope, call.name));
    LateAgrees(reg, call, o);
  }

  /** A hit above the threshold that no verdict speaks against is resolved, not minted again. */
  lemma CloseHitIsResolved(reg: Registry, call: Call, o: Outcome, i: nat)
    requires call.name != [] && Decides(reg, call, o) && Nearest(reg, call, i) && Accepts(reg, call, i)
    requires !Indexed(reg, call.Asked()) && forall id :: !OnlyNamed(reg, call, id) && !LooksLike(reg, call, id)
    requires forall id :: !OnlyFuller(reg, call, id) && !OnlyLongForm(reg, call, id) && !FreeShortForm(reg, call, id)
    ensures o == AliasOnto(call.hits.value[i].0, TierOf(call, i)) && ResultOf(reg, o) == call.hits.value[i].0
  {
    DecidesIffDue(reg, call, o);
    assert forall k: nat | Nearest(reg, call, k) :: k == i;
  }
}
