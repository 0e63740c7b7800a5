/** What every run of resolver calls keeps: one key, one entity; and its numbers. */
module ResolverRuns {
  import opened Ranking
  import opened Names
  import opened Resolver

  // ----- An answer, once given, stands --------------------------------------

  lemma PutKeepsAnswers(reg: Registry, key: Key, other: Key, id: EntityId)
    requires key !in reg.canonical && AliasIds(reg, key) == {} && |CrossIds(reg, key.scope, key.name)| != 1
    requires Answers(reg, other, id)
    ensures Answers(Put(reg, key), other, id)
  {
    var after := Put(reg, key);
    assert AliasIds(after, other) == AliasIds(reg, other);
    if other !in reg.canonical && AliasIds(reg, other) == {} {
      assert |CrossIds(reg, other.scope, other.name)| == 1;
      assert CrossIds(after, other.scope, other.name) == CrossIds(reg, other.scope, other.name);
    }
  }

  lemma AliasRowsMove(reg: Registry, at: EntityId, name: Name, key: Key)
    requires at in reg.entities
    ensures
      var grows := key == reg.entities[at].KeyFor(name) && name !in reg.entities[at].aliases;
      AliasIds(AddAlias(reg, at, name), key) == AliasIds(reg, key) + if grows then {at} else {}
  {
    forall id
      ensures id in AliasIds(AddAlias(reg, at, name), key) <==> AliasRow(key, id) in AddAlias(reg, at, name).aliasRows
      ensures id in AliasIds(reg, key) <==> AliasRow(key, id) in reg.aliasRows
    {
      AliasIdsHold(AddAlias(reg, at, name), key, id);
      AliasIdsHold(reg, key, id);
    }
  }

  lemma AliasKeepsAnswers(reg: Registry, at: EntityId, name: Name, other: Key, id: EntityId)
    requires at in reg.entities && Answers(reg, other, id)
    requires
      var key := reg.entities[at].KeyFor(name);
      key in reg.canonical || (AliasIds(reg, key) == {} && |CrossIds(reg, key.scope, key.name)| != 1)
    ensures Answers(AddAlias(reg, at, name), other, id)
  {
    var after := AddAlias(reg, at, name);
    AliasRowsMove(reg, at, name, other);
    assert CrossIds(after, other.scope, other.name) == CrossIds(reg, other.scope, other.name);
    if other !in reg.canonical && AliasIds(reg, other) == {} {
      assert |CrossIds(reg, other.scope, other.name)| == 1;
    }
  }

  /** No call changes what any answered key resolves to. */
  lemma AnswersStand(reg: Registry, call: Call, o: Outcome, other: Key, id: EntityId)
    requires Consistent(reg) && Decides(reg, call, o) && Targets(reg, o) && Answers(reg, other, id)
    ensures Answers(Effect(reg, call, o), other, id)
  {
    var key := call.Asked();
    DecidesInScope(reg, call, o);
    match o {
      case Known(_) =>
      case CrossType(at) =>
        CrossIsCanonical(reg, key.scope, key.name, at);
        AliasKeepsAnswers(reg, at, call.name, other, id);
      case AliasOnto(at, _) =>
        assert reg.entities[at].KeyFor(call.name) == key;
        AliasKeepsAnswers(reg, at, call.name, other, id);
      case Create(_) => PutKeepsAnswers(reg, key, other, id);
    }
  }

  lemma AliasAnswersItself(reg: Registry, at: EntityId, name: Name)
    requires Consistent(reg) && at in reg.entities
    requires var key := reg.entities[at].KeyFor(name); key !in reg.canonical && AliasIds(reg, key) == {}
    ensures Answers(AddAlias(reg, at, name), reg.entities[at].KeyFor(name), at)
  {
    var key := reg.entities[at].KeyFor(name);
    AliasIdsHold(reg, key, at);
    AliasRowsMove(reg, at, name, key);
  }

  /** A call leaves its own key answered by what it returned, whichever tier decided. */
  lemma CallAnswersItself(reg: Registry, call: Call, o: Outcome)
    requires Consistent(reg) && Decides(reg, call, o) && Targets(reg, o)
    ensures Answers(Effect(reg, call, o), call.Asked(), ResultOf(reg, o))
  {
    var key := call.Asked();
    DecidesInScope(reg, call, o);
    match o {
      case Known(_) =>
      case CrossType(id) =>
        SingleCross(reg, key.scope, key.name, id);
        AnswersStand(reg, call, o, key, id);
      case AliasOnto(id, _) => AliasAnswersItself(reg, id, call.name);
      case Create(_) =>
    }
  }

  /** An answered key decides every later call to the same entity. */
  lemma AnswerDecides(reg: Registry, call: Call, o: Outcome, id: EntityId)
    requires Decides(reg, call, o) && Answers(reg, call.Asked(), id)
    ensures !o.Create? && o.id == id
  {
    var key := call.Asked();
    if key !in reg.canonical && AliasIds(reg, key) == {} {
      assert |CrossIds(reg, key.scope, key.name)| == 1;
    }
  }

  // ----- Runs --------------------------------------------------------------

  datatype Step = Step(call: Call, outcome: Outcome)

  ghost predicate StepAt(regs: seq<Registry>, steps: seq<Step>, i: nat)
    requires |regs| == |steps| + 1 && i < |steps|
  {
    && Decides(regs[i], steps[i].call, steps[i].outcome) && Targets(regs[i], steps[i].outcome)
    && regs[i + 1] == Effect(regs[i], steps[i].call, steps[i].outcome)
  }

  /** `regs` is a run: each step decided by the registry it met. */
  ghost predicate IsRun(regs: seq<Registry>, steps: seq<Step>)
  {
    |regs| == |steps| + 1 && Consistent(regs[0]) && forall i | 0 <= i < |steps| :: StepAt(regs, steps, i)
  }

  lemma {:induction false} RunIsConsistent(regs: seq<Registry>, steps: seq<Step>, i: nat)
    requires IsRun(regs, steps) && i <= |steps|
    ensures Consistent(regs[i])
  {
    if i > 0 {
      RunIsConsistent(regs, steps, i - 1);
      assert StepAt(regs, steps, i - 1);
      EffectKeepsConsistent(regs[i - 1], steps[i - 1].call, steps[i - 1].outcome);
    }
  }

  lemma AnswerStep(regs: seq<Registry>, steps: seq<Step>, key: Key, id: EntityId, j: nat)
    requires IsRun(regs, steps) && j < |steps| && Answers(regs[j], key, id)
    ensures Answers(regs[j + 1], key, id)
  {
    RunIsConsistent(regs, steps, j);
    assert StepAt(regs, steps, j);
    AnswersStand(regs[j], steps[j].call, steps[j].outcome, key, id);
  }

  lemma {:induction false} AnswerPersists(regs: seq<Registry>, steps: seq<Step>, key: Key, id: EntityId, i: nat, j: nat)
    requires IsRun(regs, steps) && i <= j <= |steps| && Answers(regs[i], key, id)
    ensures Answers(regs[j], key, id)
    decreases j - i
  {
    if i < j {
      AnswerStep(regs, steps, key, id, i);
      AnswerPersists(regs, steps, key, id, i + 1, j);
    }
  }

  /** Over every run: two calls with the same scope, type and normalized surface return the same
      entity, whichever tier answered either of them. */
  lemma SameKeySameEntity(regs: seq<Registry>, steps: seq<Step>, i: nat, j: nat)
    requires IsRun(regs, steps) && i < j < |steps| && steps[i].call.Asked() == steps[j].call.Asked()
    ensures ResultOf(regs[i], steps[i].outcome) == ResultOf(regs[j], steps[j].outcome)
    ensures !steps[j].outcome.Create? && !steps[j].outcome.AliasOnto?
  {
    var key, id := steps[i].call.Asked(), ResultOf(regs[i], steps[i].outcome);
    RunIsConsistent(regs, steps, i);
    assert StepAt(regs, steps, i) && StepAt(regs, steps, j);
    CallAnswersItself(regs[i], steps[i].call, steps[i].outcome);
    AnswerPersists(regs, steps, key, id, i + 1, j);
    AnswerDecides(regs[j], steps[j].call, steps[j].outcome, id);
    OnlyIndexesAnswer(regs[j], steps[j].call, steps[j].outcome, id);
  }

  lemma OnlyIndexesAnswer(reg: Registry, call: Call, o: Outcome, id: EntityId)
    requires Decides(reg, call, o) && Answers(reg, call.Asked(), id)
    ensures !o.AliasOnto?
  {
    var key := call.Asked();
    if key !in reg.canonical && AliasIds(reg, key) == {} {
      assert |CrossIds(reg, key.scope, key.name)| == 1;
    }
  }

  // ----- Numbers are identifiers --------------------------------------------

  /** Every alias carries the digit runs of its entity's canonical name. */
  ghost predicate DigitSafe(reg: Registry)
  {
    forall id, n | id in reg.entities && n in reg.entities[id].aliases ::
      DigitRuns(n) == DigitRuns(reg.entities[id].canonical)
  }

  /** Every tier but one compares numbers before it aliases. */
  lemma OnlyPartialMatchesSkipDigits(reg: Registry, call: Call, o: Outcome)
    requires Consistent(reg) && Decides(reg, call, o) && (o.CrossType? || o.AliasOnto?) && o.id in reg.entities
    requires o.AliasOnto? ==> o.tier != PartialConfirmed
    ensures DigitsAgree(reg.entities[o.id], call)
  {
    if o.CrossType? {
      CrossIsCanonical(reg, call.scope, call.name, o.id);
    }
  }

  /** The index tiers and the string tiers all pass on this call. */
  ghost predicate NamesSilent(reg: Registry, call: Call)
  {
    var key := call.Asked();
    && key !in reg.canonical && AliasIds(reg, key) == {} && |CrossIds(reg, key.scope, key.name)| != 1
    && FuzzyIds(reg, call) == {} && |ContainingIds(reg, call)| != 1
    && !(MayAbbreviate(call) && |AbbreviatedIds(reg, call)| == 1) && forall id :: !Absorbs(reg, call, id)
  }

  /** The inputs on which a call aliases across differing numbers: every earlier tier is silent and
      the first typed hit is in the partial band, confirmed, and numbered otherwise. */
  ghost predicate MergesNumbers(reg: Registry, call: Call)
  {
    && NamesSilent(reg, call) && call.hits.Some?
    && var hit := FirstTyped(reg, call, call.hits.value);
       && hit.Some? && PARTIAL_MATCH_FLOOR <= hit.value.1 < call.threshold && call.verdict(hit.value.0) == Confirmed
       && hit.value.0 in reg.entities && !DigitsAgree(reg.entities[hit.value.0], call)
  }

  /** Those inputs are exactly the calls that alias across differing numbers. */
  lemma MergesIffAliasesAcross(reg: Registry, call: Call, o: Outcome)
    requires Consistent(reg) && Decides(reg, call, o) && Targets(reg, o)
    ensures MergesNumbers(reg, call) <==>
            (o.CrossType? || o.AliasOnto?) && !DigitsAgree(reg.entities[o.id], call)
  {
    if call.hits.Some? {
      FirstTypedIsTyped(reg, call, call.hits.value);
    }
    if (o.CrossType? || o.AliasOnto?) && !DigitsAgree(reg.entities[o.id], call) {
      if o.CrossType? || o.tier != PartialConfirmed {
        OnlyPartialMatchesSkipDigits(reg, call, o);
      }
    }
  }

  /** A call keeps the invariant if and only if its inputs are not of that kind. */
  lemma DigitSafeIff(reg: Registry, call: Call, o: Outcome)
    requires Consistent(reg) && DigitSafe(reg) && Decides(reg, call, o) && Targets(reg, o)
    ensures DigitSafe(Effect(reg, call, o)) <==> !MergesNumbers(reg, call)
  {
    MergesIffAliasesAcross(reg, call, o);
    var after := Effect(reg, call, o);
    if o.CrossType? || o.AliasOnto? {
      assert call.name in after.entities[o.id].aliases;
      assert after.entities[o.id].canonical == reg.entities[o.id].canonical;
    }
  }

  /** A broken invariant is never repaired: no call drops an alias or renames an entity. */
  lemma UnsafeStays(reg: Registry, call: Call, o: Outcome)
    requires Consistent(reg) && !DigitSafe(reg) && Targets(reg, o)
    ensures !DigitSafe(Effect(reg, call, o))
  {
    var id, n :| id in reg.entities && n in reg.entities[id].aliases
      && DigitRuns(n) != DigitRuns(reg.entities[id].canonical);
    var after := Effect(reg, call, o);
    assert id in after.entities && n in after.entities[id].aliases;
  }

  /** Unless the call merges across numbers, the entity returned has the surface's digit runs. */
  lemma AnswerHasDigits(reg: Registry, call: Call, o: Outcome)
    requires Consistent(reg) && DigitSafe(reg) && Decides(reg, call, o) && Targets(reg, o)
    ensures
      var after := Effect(reg, call, o);
      var id := ResultOf(reg, o);
      && id in after.entities
      && (DigitRuns(after.entities[id].canonical) == DigitRuns(call.name) <==> !MergesNumbers(reg, call))
  {
    DecidesInScope(reg, call, o);
    MergesIffAliasesAcross(reg, call, o);
    if o.Known? && call.Asked() !in reg.canonical {
      AliasIdsHold(reg, call.Asked(), o.id);
    }
  }

  lemma SafetyMoves(reg: Registry, call: Call, o: Outcome)
    requires Consistent(reg) && Decides(reg, call, o) && Targets(reg, o)
    ensures DigitSafe(Effect(reg, call, o)) <==> DigitSafe(reg) && !MergesNumbers(reg, call)
  {
    if DigitSafe(reg) {
      DigitSafeIff(reg, call, o);
    } else {
      UnsafeStays(reg, call, o);
    }
  }

  ghost predicate MergesAt(regs: seq<Registry>, steps: seq<Step>, k: nat)
    requires k < |steps| < |regs|
  {
    MergesNumbers(regs[k], steps[k].call)
  }

  lemma StepMoves(regs: seq<Registry>, steps: seq<Step>, k: nat)
    requires IsRun(regs, steps) && k < |steps|
    ensures DigitSafe(regs[k + 1]) <==> DigitSafe(regs[k]) && !MergesAt(regs, steps, k)
  {
    RunIsConsistent(regs, steps, k);
    assert StepAt(regs, steps, k);
    SafetyMoves(regs[k], steps[k].call, steps[k].outcome);
  }

  /** A flag that every step keeps unless it fails is set if and only if no step so far failed. */
  lemma {:induction false} FirstFailure(kept: seq<bool>, fails: seq<bool>, i: nat)
    requires |kept| == |fails| + 1 && kept[0] && i <= |fails|
    requires forall k {:trigger fails[k]} | 0 <= k < |fails| :: kept[k + 1] <==> kept[k] && !fails[k]
    ensures kept[i] <==> forall k | 0 <= k < i :: !fails[k]
  {
    if i > 0 {
      FirstFailure(kept, fails, i - 1);
      assert kept[i] <==> kept[i - 1] && !fails[i - 1];
    }
  }

  /** Over every run the invariant holds if and only if no call so far merged across numbers. */
  lemma RunIsDigitSafeIff(regs: seq<Registry>, steps: seq<Step>, i: nat)
    requires IsRun(regs, steps) && DigitSafe(regs[0]) && i <= |steps|
    ensures DigitSafe(regs[i]) <==> forall k | 0 <= k < i :: !MergesAt(regs, steps, k)
  {
    var kept := seq(|regs|, k requires 0 <= k < |regs| => DigitSafe(regs[k]));
    var fails := seq(|steps|, k requires 0 <= k < |steps| => MergesAt(regs, steps, k));
    forall k {:trigger fails[k]} | 0 <= k < |steps| ensures kept[k + 1] <==> kept[k] && !fails[k] {
      StepMoves(regs, steps, k);
    }
    FirstFailure(kept, fails, i);
    assert forall k | 0 <= k < i :: fails[k] == MergesAt(regs, steps, k);
  }

  /** Over every run in which no call merges across numbers, every answer has its surface's numbers. */
  lemma RunAnswersHaveDigits(regs: seq<Registry>, steps: seq<Step>, i: nat)
    requires IsRun(regs, steps) && DigitSafe(regs[0]) && i < |steps|
    requires forall k | 0 <= k <= i :: !MergesAt(regs, steps, k)
    ensures
      var id := ResultOf(regs[i], steps[i].outcome);
      id in regs[i + 1].entities && DigitRuns(regs[i + 1].entities[id].canonical) == DigitRuns(steps[i].call.name)
  {
    RunIsDigitSafeIff(regs, steps, i);
    RunIsConsistent(regs, steps, i);
    assert StepAt(regs, steps, i) && !MergesAt(regs, steps, i);
    AnswerHasDigits(regs[i], steps[i].call, steps[i].outcome);
  }

  function OneEntity(a: Name): Registry
  {
    Registry(map[0 := Entity(0, 0, a, {})], map[Key(0, 0, a) := 0], {}, 1)
  }

  /** A call whose only candidate is entity 0, in the partial band, and confirmed. */
  function Ambiguous(b: Name, lexicon: Lexicon): Call
  {
    Call(0, 0, b, false, lexicon, Some([(0, 0.72)]), 0.78, (_: EntityId) => Confirmed)
  }

  lemma AmbiguousDecides(a: Name, b: Name, lexicon: Lexicon)
    requires a != b && forall e, n :: !lexicon.shares(e, n)
    ensures Decides(OneEntity(a), Ambiguous(b, lexicon), AliasOnto(0, PartialConfirmed))
  {
    var reg, call := OneEntity(a), Ambiguous(b, lexicon);
    assert AliasIds(reg, call.Asked()) == {} && CrossIds(reg, 0, b) == {};
    assert Candidates(reg, call) == {};
    assert FuzzyIds(reg, call) == {} && ContainingIds(reg, call) == {};
    assert FirstTyped(reg, call, [(0, 0.72)]) == Some((0, 0.72));
    assert EmbeddingOutcome(reg, call) == AliasOnto(0, PartialConfirmed);
  }

  /** A confirmed partial match does merge names whose numbers differ. */
  lemma ConfirmedPartialMergesNumbers(a: Name, b: Name, lexicon: Lexicon)
    requires DigitRuns(a) != DigitRuns(b) && forall e, n :: !lexicon.shares(e, n)
    ensures
      var reg, call, o := OneEntity(a), Ambiguous(b, lexicon), AliasOnto(0, PartialConfirmed);
      Consistent(reg) && DigitSafe(reg) && Decides(reg, call, o) && !DigitSafe(Effect(reg, call, o))
  {
    AmbiguousDecides(a, b, lexicon);
    var reg, call, o := OneEntity(a), Ambiguous(b, lexicon), AliasOnto(0, PartialConfirmed);
    assert b in Effect(reg, call, o).entities[0].aliases;
  }

  lemma VersionsDiffer()
    ensures DigitRuns(["v1"]) == ["1"] && DigitRuns(["v2"]) == ["2"]
  {
    assert "v1"[1..] == "1" && "v2"[1..] == "2";
    assert Runs("v1") == Runs("1") == ["1"] && Runs("v2") == Runs("2") == ["2"];
    assert DigitRuns(["v1"]) == Runs("v1") + DigitRuns([]) && DigitRuns(["v2"]) == Runs("v2") + DigitRuns([]);
  }

  /** Such as "v1" and "v2". */
  lemma VersionsMerge(lexicon: Lexicon)
    requires forall e, n :: !lexicon.shares(e, n)
    ensures
      var reg, call, o := OneEntity(["v1"]), Ambiguous(["v2"], lexicon), AliasOnto(0, PartialConfirmed);
      Consistent(reg) && DigitSafe(reg) && Decides(reg, call, o) && !DigitSafe(Effect(reg, call, o))
  {
    VersionsDiffer();
    ConfirmedPartialMergesNumbers(["v1"], ["v2"], lexicon);
  }
}
