/** Whole runs of a shard: calls inside passes that commit or are rolled back. */
module ShardRuns {
  import opened Ranking
  import opened Names
  import opened Resolver
  import opened ResolverRuns
  import opened ResolverPasses

  datatype State = State(committed: Registry, open: Registry)

  datatype Event = Asked(step: Step) | Refused | Committed | RolledBack

  ghost predicate Sound(s: State)
  {
    Consistent(s.committed) && Consistent(s.open) && s.committed.nextId <= s.open.nextId
  }

  ghost predicate Follows(s: State, ev: Event, s': State)
  {
    match ev
    case Asked(step) =>
      && Decides(s.open, step.call, step.outcome) && Targets(s.open, step.outcome)
      && s' == s.(open := Effect(s.open, step.call, step.outcome))
    case Refused => s' == s
    case Committed => s' == s.(committed := s.open)
    case RolledBack => s' == s.(open := Dropped(s.committed, s.open))
  }

  ghost predicate EventAt(states: seq<State>, events: seq<Event>, i: nat)
    requires |states| == |events| + 1 && i < |events|
  {
    Follows(states[i], events[i], states[i + 1])
  }

  ghost predicate IsRun(states: seq<State>, events: seq<Event>)
  {
    |states| == |events| + 1 && Sound(states[0]) && forall i | 0 <= i < |events| :: EventAt(states, events, i)
  }

  lemma FollowsKeepsSound(s: State, ev: Event, s': State)
    requires Sound(s) && Follows(s, ev, s')
    ensures Sound(s')
  {
    if ev.Asked? {
      EffectKeepsConsistent(s.open, ev.step.call, ev.step.outcome);
    }
  }

  lemma {:induction false} RunIsSound(states: seq<State>, events: seq<Event>, i: nat)
    requires IsRun(states, events) && i <= |events|
    ensures Sound(states[i])
  {
    if i > 0 {
      RunIsSound(states, events, i - 1);
      assert EventAt(states, events, i - 1);
      FollowsKeepsSound(states[i - 1], events[i - 1], states[i]);
    }
  }

  // ----- An answer of a pass that is not rolled back stands ----------------------

  /** No pass open at event `i` is rolled back before `j`: any rollback comes after a commit. */
  ghost predicate Kept(events: seq<Event>, i: nat, j: nat)
    requires i <= j <= |events|
  {
    forall k | i < k < j && events[k].RolledBack? :: CommitsBetween(events, i, k)
  }

  predicate CommitsBetween(events: seq<Event>, i: nat, k: nat)
    requires i <= k <= |events|
  {
    exists c | i < c < k :: events[c].Committed?
  }

  /** `key` is answered in the open pass, and in the committed rows once they hold that pass. */
  ghost predicate Stands(s: State, key: Key, id: EntityId, committed: bool)
  {
    Answers(s.open, key, id) && (committed ==> Answers(s.committed, key, id))
  }

  lemma StandsOneMore(s: State, ev: Event, s': State, key: Key, id: EntityId, committed: bool)
    requires Sound(s) && Follows(s, ev, s') && Stands(s, key, id, committed) && (ev.RolledBack? ==> committed)
    ensures Stands(s', key, id, committed || ev.Committed?)
  {
    if ev.Asked? {
      AnswersStand(s.open, ev.step.call, ev.step.outcome, key, id);
    } else if ev.RolledBack? {
      CounterIsUnread(s.committed, s.open, key, id);
    }
  }

  lemma CounterIsUnread(committed: Registry, open: Registry, key: Key, id: EntityId)
    requires Answers(committed, key, id)
    ensures Answers(Dropped(committed, open), key, id)
  {
    var after := Dropped(committed, open);
    assert AliasIds(after, key) == AliasIds(committed, key);
    assert CrossIds(after, key.scope, key.name) == CrossIds(committed, key.scope, key.name);
  }

  lemma {:induction false} KeptStands(states: seq<State>, events: seq<Event>, i: nat, j: nat, key: Key, id: EntityId)
    requires IsRun(states, events) && i < j <= |events| && Answers(states[i + 1].open, key, id) && Kept(events, i, j)
    ensures Stands(states[j], key, id, CommitsBetween(events, i, j))
    decreases j
  {
    if j > i + 1 {
      KeptStands(states, events, i, j - 1, key, id);
      StandsAt(states, events, j - 1, key, id, CommitsBetween(events, i, j - 1));
      CommitsOneMore(events, i, j - 1);
    }
  }

  lemma StandsAt(states: seq<State>, events: seq<Event>, k: nat, key: Key, id: EntityId, committed: bool)
    requires IsRun(states, events) && k < |events| && Stands(states[k], key, id, committed)
    requires events[k].RolledBack? ==> committed
    ensures Stands(states[k + 1], key, id, committed || events[k].Committed?)
  {
    RunIsSound(states, events, k);
    assert EventAt(states, events, k);
    StandsOneMore(states[k], events[k], states[k + 1], key, id, committed);
  }

  lemma CommitsOneMore(events: seq<Event>, i: nat, k: nat)
    requires i < k < |events|
    ensures CommitsBetween(events, i, k + 1) <==> CommitsBetween(events, i, k) || events[k].Committed?
  {
  }

  /** Over every run of passes: two calls with the same key return the same entity, whatever passes
      were rolled back in between, unless the first call's own was. */
  lemma KeptAnswerStands(states: seq<State>, events: seq<Event>, i: nat, j: nat)
    requires IsRun(states, events) && i < j < |events| && events[i].Asked? && events[j].Asked?
    requires events[i].step.call.Asked() == events[j].step.call.Asked() && Kept(events, i, j)
    ensures ResultOf(states[j].open, events[j].step.outcome) == ResultOf(states[i].open, events[i].step.outcome)
    ensures !events[j].step.outcome.Create? && !events[j].step.outcome.AliasOnto?
  {
    var key, id := events[i].step.call.Asked(), ResultOf(states[i].open, events[i].step.outcome);
    RunIsSound(states, events, i);
    assert EventAt(states, events, i) && EventAt(states, events, j);
    CallAnswersItself(states[i].open, events[i].step.call, events[i].step.outcome);
    KeptStands(states, events, i, j, key, id);
    AnswerDecides(states[j].open, events[j].step.call, events[j].step.outcome, id);
    OnlyIndexesAnswer(states[j].open, events[j].step.call, events[j].step.outcome, id);
  }

  // ----- What a rolled-back pass minted is gone ----------------------------------

  /** `id` was drawn and no committed row has it. */
  ghost predicate Uncommitted(s: State, id: EntityId) { id < s.open.nextId && id !in s.committed.entities }

  ghost predicate Gone(s: State, id: EntityId) { Uncommitted(s, id) && id !in s.open.entities }

  lemma DrawnOneMore(s: State, ev: Event, s': State, id: EntityId)
    requires Follows(s, ev, s') && Uncommitted(s, id) && !ev.Committed?
    ensures Uncommitted(s', id) && (ev.RolledBack? ==> Gone(s', id))
  {
  }

  lemma GoneOneMore(s: State, ev: Event, s': State, id: EntityId)
    requires Follows(s, ev, s') && Gone(s, id)
    ensures Gone(s', id)
  {
  }

  lemma {:induction false} UncommittedUntil(states: seq<State>, events: seq<Event>, i: nat, k: nat, id: EntityId)
    requires IsRun(states, events) && i < k <= |events| && !CommitsBetween(events, i, k)
    requires Uncommitted(states[i + 1], id)
    ensures Uncommitted(states[k], id)
    decreases k
  {
    if k > i + 1 {
      assert !CommitsBetween(events, i, k - 1) && !events[k - 1].Committed?;
      UncommittedUntil(states, events, i, k - 1, id);
      assert EventAt(states, events, k - 1);
      DrawnOneMore(states[k - 1], events[k - 1], states[k], id);
    }
  }

  lemma {:induction false} GoneUntil(states: seq<State>, events: seq<Event>, i: nat, j: nat, id: EntityId)
    requires IsRun(states, events) && i <= j <= |events| && Gone(states[i], id)
    ensures Gone(states[j], id)
    decreases j
  {
    if i < j {
      GoneUntil(states, events, i, j - 1, id);
      assert EventAt(states, events, j - 1);
      GoneOneMore(states[j - 1], events[j - 1], states[j], id);
    }
  }

  lemma MintIsUncommitted(s: State, step: Step, s': State)
    requires Sound(s) && Follows(s, Asked(step), s') && step.outcome.Create?
    ensures Uncommitted(s', ResultOf(s.open, step.outcome))
  {
  }

  lemma GoneIsNotReturned(s: State, step: Step, s': State, id: EntityId)
    requires Sound(s) && Follows(s, Asked(step), s') && Gone(s, id)
    ensures ResultOf(s.open, step.outcome) != id
  {
    DecidesInScope(s.open, step.call, step.outcome);
  }

  /** An entity minted in a pass that event `k` rolled back is returned by no later call. */
  lemma RolledBackIsNotReturned(states: seq<State>, events: seq<Event>, i: nat, k: nat, j: nat)
    requires IsRun(states, events) && i < k < j < |events| && events[i].Asked? && events[j].Asked?
    requires events[i].step.outcome.Create? && events[k].RolledBack? && !CommitsBetween(events, i, k)
    ensures ResultOf(states[j].open, events[j].step.outcome) != ResultOf(states[i].open, events[i].step.outcome)
  {
    var id := ResultOf(states[i].open, events[i].step.outcome);
    assert EventAt(states, events, i) && EventAt(states, events, k) && EventAt(states, events, j);
    RunIsSound(states, events, i);
    MintIsUncommitted(states[i], events[i].step, states[i + 1]);
    UncommittedUntil(states, events, i, k, id);
    DrawnOneMore(states[k], events[k], states[k + 1], id);
    GoneUntil(states, events, k + 1, j, id);
    RunIsSound(states, events, j);
    GoneIsNotReturned(states[j], events[j].step, states[j + 1], id);
  }

  /** Of an entity that the first call minted: the second call with its key returns it if and only
      if the pass that minted it was not rolled back in between. */
  lemma MintedIsReturnedIffKept(states: seq<State>, events: seq<Event>, i: nat, j: nat)
    requires IsRun(states, events) && i < j < |events| && events[i].Asked? && events[j].Asked?
    requires events[i].step.call.Asked() == events[j].step.call.Asked() && events[i].step.outcome.Create?
    ensures ResultOf(states[j].open, events[j].step.outcome) == ResultOf(states[i].open, events[i].step.outcome)
       <==> Kept(events, i, j)
  {
    if Kept(events, i, j) {
      KeptAnswerStands(states, events, i, j);
    } else {
      var k :| i < k < j && events[k].RolledBack? && !CommitsBetween(events, i, k);
      RolledBackIsNotReturned(states, events, i, k, j);
    }
  }

  // ----- The shard runs so ---------------------------------------------------------

  datatype Request = Ask(call: Call, embeds: bool) | CommitPass(failing: set<EntityId>) | DropPass

  /** What the shard did with a request. */
  ghost predicate Does(ev: Event, req: Request)
  {
    match req
    case Ask(call, _) => if call.name == [] then ev == Refused else ev.Asked? && ev.step.call == call
    case CommitPass(_) => ev == Committed
    case DropPass => ev == RolledBack
  }

  ghost function StateOf(shard: Shard): State
    reads shard
  {
    State(shard.committed, shard.open)
  }

  method Serve(shard: Shard, req: Request) returns (answer: Option<EntityId>, ghost ev: Event)
    requires shard.Valid()
    modifies shard
    ensures shard.Valid() && Follows(old(StateOf(shard)), ev, StateOf(shard)) && Does(ev, req)
    ensures answer.Some? <==> ev.Asked?
    ensures ev.Asked? ==> answer.value == ResultOf(old(shard.open), ev.step.outcome)
  {
    answer := None;
    match req {
      case Ask(call, embeds) =>
        var r := shard.Resolve(call, embeds);
        if r.Resolved? {
          answer, ev := Some(r.id), Asked(Step(call, r.outcome));
        } else {
          ev := Refused;
        }
      case CommitPass(failing) =>
        shard.Commit(failing);
        ev := Committed;
      case DropPass =>
        shard.Rollback();
        ev := RolledBack;
    }
  }

  /** The shard's run through `requests`, with its answers. */
  ghost predicate Served(states: seq<State>, events: seq<Event>, answers: seq<Option<EntityId>>, requests: seq<Request>)
  {
    && IsRun(states, events) && |events| == |answers| == |requests|
    && (forall i | 0 <= i < |events| :: Does(events[i], requests[i]))
    && (forall i | 0 <= i < |events| :: AnsweredAt(states, events, answers, i))
  }

  ghost predicate AnsweredAt(states: seq<State>, events: seq<Event>, answers: seq<Option<EntityId>>, i: nat)
    requires i < |events| == |answers| < |states|
  {
    answers[i] == if events[i].Asked? then Some(ResultOf(states[i].open, events[i].step.outcome)) else None
  }

  lemma ServedOneMore(states: seq<State>, events: seq<Event>, answers: seq<Option<EntityId>>, requests: seq<Request>,
                      i: nat, s: State, ev: Event, answer: Option<EntityId>)
    requires i < |requests| && Served(states, events, answers, requests[..i])
    requires Follows(states[i], ev, s) && Does(ev, requests[i])
    requires answer == if ev.Asked? then Some(ResultOf(states[i].open, ev.step.outcome)) else None
    ensures Served(states + [s], events + [ev], answers + [answer], requests[..i + 1])
  {
    forall k | 0 <= k < |events + [ev]|
      ensures EventAt(states + [s], events + [ev], k)
      ensures AnsweredAt(states + [s], events + [ev], answers + [answer], k)
    {
      if k < |events| {
        assert EventAt(states, events, k) && AnsweredAt(states, events, answers, k);
      }
    }
  }

  /** Both requests ask for the same key, with a name. */
  predicate SameAsk(a: Request, b: Request)
  {
    a.Ask? && b.Ask? && a.call.name != [] && a.call.Asked() == b.call.Asked()
  }

  lemma AnswersAgree(states: seq<State>, events: seq<Event>, answers: seq<Option<EntityId>>, requests: seq<Request>,
                     i: nat, j: nat)
    requires Served(states, events, answers, requests) && i < j < |requests|
    requires SameAsk(requests[i], requests[j]) && Kept(events, i, j)
    ensures answers[i].Some? && answers[j] == answers[i]
  {
    assert Does(events[i], requests[i]) && Does(events[j], requests[j]);
    assert AnsweredAt(states, events, answers, i) && AnsweredAt(states, events, answers, j);
    KeptAnswerStands(states, events, i, j);
  }

  /** Any requests: calls in passes, each committed or dropped. */
  method ServeAll(shard: Shard, requests: seq<Request>)
    returns (answers: seq<Option<EntityId>>, ghost states: seq<State>, ghost events: seq<Event>)
    requires shard.Valid()
    modifies shard
    ensures shard.Valid() && Served(states, events, answers, requests)
    ensures forall i, j | 0 <= i < j < |requests| && SameAsk(requests[i], requests[j]) && Kept(events, i, j) ::
              answers[i].Some? && answers[j] == answers[i]
  {
    answers, states, events := [], [StateOf(shard)], [];
    for i := 0 to |requests|
      invariant shard.Valid() && Served(states, events, answers, requests[..i]) && states[i] == StateOf(shard)
    {
      ghost var ev;
      var answer;
      answer, ev := Serve(shard, requests[i]);
      ServedOneMore(states, events, answers, requests, i, StateOf(shard), ev, answer);
      answers, states, events := answers + [answer], states + [StateOf(shard)], events + [ev];
    }
    assert requests[..|requests|] == requests;
    forall i, j | 0 <= i < j < |requests| && SameAsk(requests[i], requests[j]) && Kept(events, i, j)
      ensures answers[i].Some? && answers[j] == answers[i]
    {
      AnswersAgree(states, events, answers, requests, i, j);
    }
  }
}
