/** The credential broker's cache and the write gate over it. */
module BrokerGate {
  import opened Ranking

  type Namespace = string

  datatype Value = Ready(provider: string, model: string) | Missing

  datatype Entry = Entry(value: Value, fetchedAt: nat, lastGateProbe: nat)

  /** The four lifetimes, in any unit of time. */
  datatype Config = Config(ttl: nat, negativeTtl: nat, negativeGateTtl: nat, negativeProbeInterval: nat)

  const DEFAULT_CONFIG := Config(300, 10, 300, 30)

  /** Admit because the namespace is unknown or stale; admit as known good; refuse. */
  datatype Decision = Unknown | Allow | Refuse

  /** What the first look decides, or that a probe is due. */
  datatype FirstLook = Decided(decision: Decision) | ProbeDue

  /** What one broker call produced. */
  datatype BrokerHttp =
    | Resolved(provider: string, model: string) | NoKey | Unreachable | Status(code: nat) | Undecodable | NoRuntime

  /** Time since a stamp, and none if the stamp is later. */
  function Elapsed(now: nat, since: nat): (e: nat)
    ensures (since <= now ==> since + e == now) && (e > 0 ==> since < now)
  {
    if now < since then 0 else now - since
  }

  /** How long an answer of each kind may be used. */
  function Lifetime(value: Value, config: Config): nat { if value.Ready? then config.ttl else config.negativeTtl }

  /** `cached`: what `client_for` may still use. */
  function Fresh(cache: map<Namespace, Entry>, ns: Namespace, config: Config, now: nat): Option<Value>
  {
    if ns !in cache then None
    else if Elapsed(now, cache[ns].fetchedAt) < Lifetime(cache[ns].value, config) then Some(cache[ns].value)
    else None
  }

  /** The part of `gate_decision` under the read lock; the clock may move between its two reads. */
  function Look(cache: map<Namespace, Entry>, ns: Namespace, config: Config, now: nat, later: nat): FirstLook
  {
    if ns !in cache then Decided(Unknown)
    else
      var e := cache[ns];
      match e.value
      case Ready(_, _) => Decided(if Elapsed(now, e.fetchedAt) < config.ttl then Allow else Unknown)
      case Missing =>
        if Elapsed(now, e.fetchedAt) >= config.negativeGateTtl then Decided(Unknown)
        else if Elapsed(later, e.lastGateProbe) < config.negativeProbeInterval then Decided(Refuse)
        else ProbeDue
  }

  /** Whether the re-check under the write lock still finds a probe due. */
  predicate TakesProbe(cache: map<Namespace, Entry>, ns: Namespace, config: Config, now: nat)
  {
    ns in cache && cache[ns].value.Missing? && Elapsed(now, cache[ns].lastGateProbe) >= config.negativeProbeInterval
  }

  /** The part of `gate_decision` under the write lock: the decision and the stamped cache. */
  function Recheck(cache: map<Namespace, Entry>, ns: Namespace, config: Config, now: nat,
                   later: nat): (Decision, map<Namespace, Entry>)
  {
    if TakesProbe(cache, ns, config, now) then (Unknown, cache[ns := cache[ns].(lastGateProbe := later)])
    else if ns in cache && cache[ns].value.Missing? then (Refuse, cache)
    else (Unknown, cache)
  }

  function Stored(cache: map<Namespace, Entry>, ns: Namespace, value: Value, now: nat): map<Namespace, Entry>
  {
    cache[ns := Entry(value, now, now)]
  }

  /** The answer a broker call gives, if it gives one. */
  function Learned(http: BrokerHttp, known: string -> bool): Option<Value>
  {
    match http
    case NoKey => Some(Missing)
    case Resolved(provider, model) => if known(provider) then Some(Ready(provider, model)) else None
    case _ => None
  }

  /** A key for a provider this build knows, or word that there is none. */
  predicate Definite(http: BrokerHttp, known: string -> bool)
  {
    http.NoKey? || (http.Resolved? && known(http.provider))
  }

  // ----- The broker --------------------------------------------------------

  datatype Credential = Usable | NoCredential | Unavailable

  class BrokerResolver {
    const config: Config
    var cache: map<Namespace, Entry>

    constructor (config: Config)
      ensures this.config == config && cache == map[]
    {
      this.config, cache := config, map[];
    }

    method Cached(ns: Namespace, now: nat) returns (value: Option<Value>)
      ensures value == Fresh(cache, ns, config, now)
    {
      if ns !in cache {
        return None;
      }
      var entry := cache[ns];
      var ttl := match entry.value case Ready(_, _) => config.ttl case Missing => config.negativeTtl;
      value := if Elapsed(now, entry.fetchedAt) < ttl then Some(entry.value) else None;
    }

    method Store(ns: Namespace, value: Value, now: nat)
      modifies this
      ensures cache == Stored(old(cache), ns, value, now)
    {
      cache := cache[ns := Entry(value, now, now)];
    }

    /** The whole gate for one caller: a look, then the re-check if a probe is due. */
    method GateDecision(ns: Namespace, t1: nat, t2: nat, t3: nat, t4: nat) returns (d: Decision)
      requires t1 <= t2 <= t3 <= t4
      modifies this
      ensures
        var look := Look(old(cache), ns, config, t1, t2);
        if look.ProbeDue? then (d, cache) == Recheck(old(cache), ns, config, t3, t4)
        else d == look.decision && cache == old(cache)
    {
      if ns !in cache {
        return Unknown;
      }
      var entry := cache[ns];
      if entry.value.Ready? {
        return if Elapsed(t1, entry.fetchedAt) < config.ttl then Allow else Unknown;
      }
      if Elapsed(t1, entry.fetchedAt) >= config.negativeGateTtl {
        return Unknown;
      }
      if Elapsed(t2, entry.lastGateProbe) < config.negativeProbeInterval {
        return Refuse;
      }
      d := RecheckProbe(ns, t3, t4);
    }

    /** Everything `gate_decision` does once it holds the write lock. */
    method RecheckProbe(ns: Namespace, now: nat, later: nat) returns (d: Decision)
      modifies this
      ensures (d, cache) == Recheck(old(cache), ns, config, now, later)
    {
      if ns !in cache {
        return Unknown;
      }
      var entry := cache[ns];
      if !entry.value.Missing? {
        return Unknown;
      }
      if Elapsed(now, entry.lastGateProbe) < config.negativeProbeInterval {
        return Refuse;
      }
      cache := cache[ns := entry.(lastGateProbe := later)];
      d := Unknown;
    }

    /** `fetch`, given what the call produced. */
    method Fetch(ns: Namespace, http: BrokerHttp, now: nat, known: string -> bool) returns (c: Credential)
      modifies this
      ensures (c.Unavailable? <==> !Definite(http, known)) && (c.NoCredential? <==> http.NoKey?)
      ensures
        var learned := Learned(http, known);
        cache == if learned.Some? then Stored(old(cache), ns, learned.value, now) else old(cache)
    {
      match http {
        case Resolved(provider, model) =>
          if known(provider) {
            Store(ns, Ready(provider, model), now);
            return Usable;
          }
        case NoKey =>
          Store(ns, Missing, now);
          return NoCredential;
        case _ =>
      }
      c := Unavailable;
    }
  }

  // ----- Any number of callers at once -------------------------------------

  /** One line of the history: what a look or a re-check told its caller, or what a fetch brought. */
  datatype Told =
    | Looked(ns: Namespace, t1: nat, t2: nat, look: FirstLook)
    | Rechecked(ns: Namespace, t3: nat, t4: nat, decision: Decision)
    | Fetched(ns: Namespace, http: BrokerHttp, at: nat)

  /** `waiting` holds the callers between the two locks. */
  datatype World = World(clock: nat, cache: map<Namespace, Entry>, waiting: map<nat, Namespace>, log: seq<Told>)

  /** A fetch reads the clock at `at` and gets the write lock at `locked`. */
  datatype Step =
    | LookStep(caller: nat, ns: Namespace, t1: nat, t2: nat)
    | RecheckStep(caller: nat, t3: nat, t4: nat)
    | FetchStep(ns: Namespace, http: BrokerHttp, at: nat, locked: nat)

  function Start(clock: nat): World { World(clock, map[], map[], []) }

  /** The clock never runs backwards, and only a waiting caller re-checks. Looks share the read
      lock, so the clock reads of several may overlap: they come in the order of their second read. */
  predicate Enabled(w: World, step: Step)
  {
    match step
    case LookStep(caller, _, t1, t2) => t1 <= t2 && w.clock <= t2 && caller !in w.waiting
    case RecheckStep(caller, t3, t4) => w.clock <= t3 <= t4 && caller in w.waiting
    case FetchStep(_, _, at, locked) => at <= locked && w.clock <= locked
  }

  function Next(w: World, step: Step, config: Config, known: string -> bool): World
    requires Enabled(w, step)
  {
    match step
    case LookStep(caller, ns, t1, t2) =>
      var look := Look(w.cache, ns, config, t1, t2);
      w.(clock := t2, waiting := if look.ProbeDue? then w.waiting[caller := ns] else w.waiting,
         log := w.log + [Looked(ns, t1, t2, look)])
    case RecheckStep(caller, t3, t4) =>
      var ns := w.waiting[caller];
      var (decision, cache) := Recheck(w.cache, ns, config, t3, t4);
      w.(clock := t4, cache := cache, waiting := w.waiting - {caller},
         log := w.log + [Rechecked(ns, t3, t4, decision)])
    case FetchStep(ns, http, at, locked) =>
      var learned := Learned(http, known);
      w.(clock := locked, log := w.log + [Fetched(ns, http, at)],
         cache := if learned.Some? then Stored(w.cache, ns, learned.value, at) else w.cache)
  }

  /** `w'` is reached from `w` by `steps`. */
  predicate Leads(w: World, steps: seq<Step>, w': World, config: Config, known: string -> bool)
    decreases |steps|
  {
    if steps == [] then w == w'
    else Enabled(w, steps[0]) && Leads(Next(w, steps[0], config, known), steps[1..], w', config, known)
  }

  // ----- What the history says -----------------------------------------------

  /** The last definite fetch of `ns`. */
  function LastFetch(log: seq<Told>, ns: Namespace, known: string -> bool): (last: Option<Told>)
    ensures last.Some? ==> last.value.Fetched? && Definite(last.value.http, known)
  {
    if log == [] then None
    else
      var told := log[|log| - 1];
      if told.Fetched? && told.ns == ns && Definite(told.http, known) then Some(told)
      else LastFetch(log[..|log| - 1], ns, known)
  }

  /** The last definite fetch of `ns` found no key. */
  predicate NoKeyFor(log: seq<Told>, ns: Namespace, known: string -> bool)
  {
    var last := LastFetch(log, ns, known);
    last.Some? && last.value.http.NoKey?
  }

  /** A caller of `ns` that was let through by the write lock while the broker had no key. */
  predicate IsProbe(before: seq<Told>, told: Told, ns: Namespace, known: string -> bool)
  {
    told.Rechecked? && told.ns == ns && told.decision.Unknown? && NoKeyFor(before, ns, known)
  }

  /** When `ns` was last stored or probed. */
  function LastMark(log: seq<Told>, ns: Namespace, known: string -> bool): nat
  {
    if log == [] then 0
    else
      var before, told := log[..|log| - 1], log[|log| - 1];
      if told.Fetched? && told.ns == ns && Definite(told.http, known) then told.at
      else if IsProbe(before, told, ns, known) then told.t4
      else LastMark(before, ns, known)
  }

  /** What the gate owes a first look, by the history alone. */
  predicate LookIsDue(before: seq<Told>, told: Told, config: Config, known: string -> bool)
    requires told.Looked?
  {
    var last, mark := LastFetch(before, told.ns, known), LastMark(before, told.ns, known);
    var refusable := last.Some? && last.value.http.NoKey? && Elapsed(told.t1, last.value.at) < config.negativeGateTtl;
    && (told.look == Decided(Allow) <==>
          last.Some? && last.value.http.Resolved? && Elapsed(told.t1, last.value.at) < config.ttl)
    && (told.look == Decided(Refuse) <==> refusable && Elapsed(told.t2, mark) < config.negativeProbeInterval)
    && (told.look == ProbeDue <==> refusable && Elapsed(told.t2, mark) >= config.negativeProbeInterval)
  }

  /** What it owes a caller that waited for the write lock. */
  predicate RecheckIsDue(before: seq<Told>, told: Told, config: Config, known: string -> bool)
    requires told.Rechecked?
  {
    var recent := Elapsed(told.t3, LastMark(before, told.ns, known)) < config.negativeProbeInterval;
    told.decision == if NoKeyFor(before, told.ns, known) && recent then Refuse else Unknown
  }

  predicate IsDue(log: seq<Told>, i: nat, config: Config, known: string -> bool)
    requires i < |log|
  {
    match log[i]
    case Looked(_, _, _, _) => LookIsDue(log[..i], log[i], config, known)
    case Rechecked(_, _, _, _) => RecheckIsDue(log[..i], log[i], config, known)
    case Fetched(_, _, _) => true
  }

  /** The cache entry of `ns` is what the history says. */
  predicate Recalls(w: World, ns: Namespace, known: string -> bool)
  {
    var last := LastFetch(w.log, ns, known);
    && (ns in w.cache <==> last.Some?)
    && (ns in w.cache ==>
          && w.cache[ns] == Entry(w.cache[ns].value, last.value.at, LastMark(w.log, ns, known))
          && w.cache[ns].value == match last.value.http case Resolved(p, m) => Ready(p, m) case _ => Missing)
  }

  lemma OneMoreTold(log: seq<Told>, told: Told, ns: Namespace, known: string -> bool)
    ensures
      var fetched := told.Fetched? && told.ns == ns && Definite(told.http, known);
      && LastFetch(log + [told], ns, known) == (if fetched then Some(told) else LastFetch(log, ns, known))
      && LastMark(log + [told], ns, known)
         == if fetched then told.at else if IsProbe(log, told, ns, known) then told.t4 else LastMark(log, ns, known)
  {
    assert (log + [told])[..|log|] == log;
  }

  /** What one more line of the history should do to the cache entry of `ns`. */
  predicate Follows(w: World, after: World, told: Told, ns: Namespace, known: string -> bool)
  {
    if told.Fetched? && told.ns == ns && Definite(told.http, known) then
      && ns in after.cache
      && after.cache[ns]
         == Entry(match told.http case Resolved(p, m) => Ready(p, m) case _ => Missing, told.at, told.at)
    else
      && (ns in after.cache <==> ns in w.cache)
      && (ns in w.cache ==>
            after.cache[ns] == if IsProbe(w.log, told, ns, known) then w.cache[ns].(lastGateProbe := told.t4)
                               else w.cache[ns])
  }

  lemma EntryFollows(w: World, step: Step, config: Config, known: string -> bool, ns: Namespace)
    requires Enabled(w, step) && Recalls(w, ns, known)
    ensures
      var after := Next(w, step, config, known);
      after.log == w.log + [after.log[|w.log|]] && Follows(w, after, after.log[|w.log|], ns, known)
  {
  }

  lemma RecallsOneMore(w: World, after: World, told: Told, ns: Namespace, known: string -> bool)
    requires Recalls(w, ns, known) && after.log == w.log + [told] && Follows(w, after, told, ns, known)
    ensures Recalls(after, ns, known)
  {
    OneMoreTold(w.log, told, ns, known);
  }

  lemma NextRecalls(w: World, step: Step, config: Config, known: string -> bool, ns: Namespace)
    requires Enabled(w, step) && Recalls(w, ns, known)
    ensures Recalls(Next(w, step, config, known), ns, known)
  {
    var after := Next(w, step, config, known);
    var told := after.log[|w.log|];
    EntryFollows(w, step, config, known, ns);
    RecallsOneMore(w, after, told, ns, known);
  }

  lemma NextIsDue(w: World, step: Step, config: Config, known: string -> bool)
    requires Enabled(w, step) && forall ns :: Recalls(w, ns, known)
    ensures
      var log := Next(w, step, config, known).log;
      |log| == |w.log| + 1 && log[..|w.log|] == w.log && IsDue(log, |w.log|, config, known)
  {
    var ns := if step.RecheckStep? then w.waiting[step.caller] else step.ns;
    assert Recalls(w, ns, known);
    assert Next(w, step, config, known).log[..|w.log|] == w.log;
  }

  ghost predicate Sound(w: World, config: Config, known: string -> bool)
  {
    && (forall ns :: Recalls(w, ns, known))
    && (forall i | 0 <= i < |w.log| :: IsDue(w.log, i, config, known))
  }

  lemma NextIsSound(w: World, step: Step, config: Config, known: string -> bool)
    requires Enabled(w, step) && Sound(w, config, known)
    ensures Sound(Next(w, step, config, known), config, known)
  {
    var log := Next(w, step, config, known).log;
    forall ns ensures Recalls(Next(w, step, config, known), ns, known) {
      NextRecalls(w, step, config, known, ns);
    }
    NextIsDue(w, step, config, known);
    forall i | 0 <= i < |w.log| ensures IsDue(log, i, config, known) {
      assert IsDue(w.log, i, config, known);
      assert log[..i] == w.log[..i];
    }
  }

  lemma {:induction false} LeadsIsSound(w: World, steps: seq<Step>, w': World, config: Config, known: string -> bool)
    requires Leads(w, steps, w', config, known) && Sound(w, config, known)
    ensures Sound(w', config, known)
    decreases |steps|
  {
    if steps != [] {
      NextIsSound(w, steps[0], config, known);
      LeadsIsSound(Next(w, steps[0], config, known), steps[1..], w', config, known);
    }
  }

  /** However the callers interleave, every answer the gate ever gave is the one the fetches and the
      probes before it call for. */
  lemma EveryAnswerIsDue(clock: nat, steps: seq<Step>, w: World, config: Config, known: string -> bool, i: nat)
    requires Leads(Start(clock), steps, w, config, known) && i < |w.log|
    ensures IsDue(w.log, i, config, known)
  {
    LeadsIsSound(Start(clock), steps, w, config, known);
  }

  /** What `cached` hands out is the namespace's last definite answer, exactly while it is younger than
      the lifetime of its kind. */
  lemma CachedIffRecent(clock: nat, steps: seq<Step>, w: World, ns: Namespace, now: nat, config: Config,
                        known: string -> bool)
    requires Leads(Start(clock), steps, w, config, known)
    ensures
      var cached, last := Fresh(w.cache, ns, config, now), LastFetch(w.log, ns, known);
      && (cached == Some(Missing) <==>
            last.Some? && last.value.http.NoKey? && Elapsed(now, last.value.at) < config.negativeTtl)
      && (forall p, m :: cached == Some(Ready(p, m)) <==>
            last.Some? && last.value.http == Resolved(p, m) && Elapsed(now, last.value.at) < config.ttl)
  {
    LeadsIsSound(Start(clock), steps, w, config, known);
    assert Recalls(w, ns, known);
  }

  // ----- Probes are rationed -------------------------------------------------

  /** The answer let a write of `ns` through: a re-check that did not refuse, or a look inside the gate
      window that did not. */
  predicate Admits(told: Told, ns: Namespace, since: nat, config: Config)
  {
    match told
    case Looked(n, t1, _, look) =>
      n == ns && Elapsed(t1, since) < config.negativeGateTtl && look.Decided? && !look.decision.Refuse?
    case Rechecked(n, _, _, decision) => n == ns && !decision.Refuse?
    case Fetched(_, _, _) => false
  }

  /** How many writes of `ns` were let through since the broker last had no key for it. */
  function Admitted(log: seq<Told>, ns: Namespace, config: Config, known: string -> bool): nat
  {
    if log == [] || !NoKeyFor(log, ns, known) then 0
    else
      var before, told := log[..|log| - 1], log[|log| - 1];
      if told.Fetched? && told.ns == ns && Definite(told.http, known) then 0
      else
        var since := LastFetch(log, ns, known).value.at;
        Admitted(before, ns, config, known) + if Admits(told, ns, since, config) then 1 else 0
  }

  /** The writes let through, an interval each, fit between the fetch and the last mark. */
  predicate PacedAt(w: World, ns: Namespace, config: Config, known: string -> bool)
  {
    LastFetch(w.log, ns, known).Some? ==>
      var since, mark := LastFetch(w.log, ns, known).value.at, LastMark(w.log, ns, known);
      since <= mark <= w.clock && Admitted(w.log, ns, config, known) * config.negativeProbeInterval <= mark - since
  }

  lemma OneMoreInterval(n: nat, interval: nat, since: nat, mark: nat, now: nat)
    requires n * interval <= mark - since && now - mark >= interval
    ensures (n + 1) * interval <= now - since
  {
    assert (n + 1) * interval == n * interval + interval;
  }

  lemma NextIsPaced(w: World, step: Step, config: Config, known: string -> bool, ns: Namespace)
    requires Enabled(w, step) && Sound(w, config, known) && PacedAt(w, ns, config, known)
    ensures PacedAt(Next(w, step, config, known), ns, config, known)
  {
    NextIsDue(w, step, config, known);
    var told := Next(w, step, config, known).log[|w.log|];
    if NoKeyFor(w.log, ns, known) && told.Rechecked? && told.ns == ns && told.decision.Unknown? {
      OneMoreInterval(Admitted(w.log, ns, config, known), config.negativeProbeInterval,
                      LastFetch(w.log, ns, known).value.at, LastMark(w.log, ns, known), told.t4);
    }
  }

  lemma {:induction false} LeadsIsPaced(w: World, steps: seq<Step>, w': World, config: Config, known: string -> bool,
                                        ns: Namespace)
    requires Leads(w, steps, w', config, known) && Sound(w, config, known) && PacedAt(w, ns, config, known)
    ensures PacedAt(w', ns, config, known)
    decreases |steps|
  {
    if steps != [] {
      NextIsPaced(w, steps[0], config, known, ns);
      NextIsSound(w, steps[0], config, known);
      LeadsIsPaced(Next(w, steps[0], config, known), steps[1..], w', config, known, ns);
    }
  }

  /** However the callers interleave, the writes let through since the broker last had no key, times the
      probe interval, never exceed the time since then. */
  lemma AdmissionsAreRationed(clock: nat, steps: seq<Step>, w: World, config: Config, known: string -> bool,
                              ns: Namespace)
    requires Leads(Start(clock), steps, w, config, known) && NoKeyFor(w.log, ns, known)
    ensures Admitted(w.log, ns, config, known) * config.negativeProbeInterval
         <= w.clock - LastFetch(w.log, ns, known).value.at
  {
    LeadsIsPaced(Start(clock), steps, w, config, known, ns);
  }

  // ----- A due call with no rival is admitted ---------------------------------

  /** A definite fetch of `ns`, or a caller let through by the write lock. */
  predicate Intrudes(told: Told, ns: Namespace, known: string -> bool)
  {
    match told
    case Looked(_, _, _, _) => false
    case Rechecked(n, _, _, decision) => n == ns && decision.Unknown?
    case Fetched(n, http, _) => n == ns && Definite(http, known)
  }

  lemma {:induction false} QuietKeeps(log: seq<Told>, more: seq<Told>, ns: Namespace, known: string -> bool)
    requires forall i | 0 <= i < |more| :: !Intrudes(more[i], ns, known)
    ensures LastFetch(log + more, ns, known) == LastFetch(log, ns, known)
    ensures LastMark(log + more, ns, known) == LastMark(log, ns, known)
  {
    if more == [] {
      assert log + more == log;
    } else {
      var init := more[..|more| - 1];
      QuietKeeps(log, init, ns, known);
      assert (log + more)[..|log + more| - 1] == log + init;
    }
  }

  lemma {:induction false} LogGrows(w: World, steps: seq<Step>, w': World, config: Config, known: string -> bool)
    requires Leads(w, steps, w', config, known)
    ensures w.log <= w'.log && w.clock <= w'.clock
    decreases |steps|
  {
    if steps != [] {
      LogGrows(Next(w, steps[0], config, known), steps[1..], w', config, known);
    }
  }

  /** A call that looks inside the gate window, a full interval after the last mark, is let through when
      it gets the write lock, and its stamp is the next mark, whatever other callers and namespaces do in
      between, unless one of them brought an answer for the namespace or took its probe. */
  lemma DueCallIsAdmitted(clock: nat, earlier: seq<Step>, w: World, look: Step, between: seq<Step>, w': World,
                          recheck: Step, config: Config, known: string -> bool)
    requires Leads(Start(clock), earlier, w, config, known) && look.LookStep? && Enabled(w, look)
    requires
      var last := LastFetch(w.log, look.ns, known);
      && last.Some? && last.value.http.NoKey? && Elapsed(look.t1, last.value.at) < config.negativeGateTtl
      && Elapsed(look.t2, LastMark(w.log, look.ns, known)) >= config.negativeProbeInterval
    requires Leads(Next(w, look, config, known), between, w', config, known)
    requires forall i | |w.log| < i < |w'.log| :: !Intrudes(w'.log[i], look.ns, known)
    requires recheck.RecheckStep? && Enabled(w', recheck) && w'.waiting[recheck.caller] == look.ns
    ensures
      var log := Next(w', recheck, config, known).log;
      && log == w'.log + [Rechecked(look.ns, recheck.t3, recheck.t4, Unknown)]
      && LastMark(log, look.ns, known) == recheck.t4
  {
    var looked := Next(w, look, config, known);
    LeadsIsSound(Start(clock), earlier, w, config, known);
    NextIsSound(w, look, config, known);
    LeadsIsSound(looked, between, w', config, known);
    LogGrows(looked, between, w', config, known);
    var more := w'.log[|w.log|..];
    assert w'.log == w.log + more && !Intrudes(more[0], look.ns, known);
    QuietKeeps(w.log, more, look.ns, known);
    NextIsDue(w', recheck, config, known);
    assert Next(w', recheck, config, known).log[..|w'.log|] == w'.log;
  }

  /** A waiting caller whose namespace was stored or probed less than an interval ago is refused, and
      leaves no mark. */
  lemma RivalIsRefused(clock: nat, steps: seq<Step>, w: World, recheck: Step, config: Config, known: string -> bool)
    requires Leads(Start(clock), steps, w, config, known) && recheck.RecheckStep? && Enabled(w, recheck)
    requires NoKeyFor(w.log, w.waiting[recheck.caller], known)
    requires Elapsed(recheck.t3, LastMark(w.log, w.waiting[recheck.caller], known)) < config.negativeProbeInterval
    ensures
      var ns, after := w.waiting[recheck.caller], Next(w, recheck, config, known);
      && after.log == w.log + [Rechecked(ns, recheck.t3, recheck.t4, Refuse)] && after.cache == w.cache
  {
    LeadsIsSound(Start(clock), steps, w, config, known);
    NextIsDue(w, recheck, config, known);
  }

  // ----- Unavailable fetches are invisible -------------------------------------

  /** The run without the fetches that learned nothing. */
  function Informative(steps: seq<Step>, known: string -> bool): seq<Step>
  {
    if steps == [] then []
    else if steps[0].FetchStep? && !Definite(steps[0].http, known) then Informative(steps[1..], known)
    else [steps[0]] + Informative(steps[1..], known)
  }

  /** The history without them. */
  function Definitely(log: seq<Told>, known: string -> bool): seq<Told>
  {
    if log == [] then []
    else
      var before, told := Definitely(log[..|log| - 1], known), log[|log| - 1];
      if told.Fetched? && !Definite(told.http, known) then before else before + [told]
  }

  predicate SameButClock(a: World, b: World, known: string -> bool)
  {
    && a.cache == b.cache && a.waiting == b.waiting && a.clock <= b.clock
    && Definitely(a.log, known) == Definitely(b.log, known)
  }

  lemma DefinitelyOneMore(log: seq<Told>, told: Told, known: string -> bool)
    ensures
      var before := Definitely(log, known);
      Definitely(log + [told], known)
      == if told.Fetched? && !Definite(told.http, known) then before else before + [told]
  {
    assert (log + [told])[..|log|] == log;
  }

  /** The same cache and the same waiting callers take a step to the same ones, with the same answer. */
  lemma TellsAlike(v: World, w: World, step: Step, config: Config, known: string -> bool) returns (told: Told)
    requires Enabled(v, step) && Enabled(w, step) && v.cache == w.cache && v.waiting == w.waiting
    ensures
      var v', w' := Next(v, step, config, known), Next(w, step, config, known);
      && v'.cache == w'.cache && v'.waiting == w'.waiting && v'.clock == w'.clock
      && v'.log == v.log + [told] && w'.log == w.log + [told]
    ensures step.FetchStep? && !Definite(step.http, known) ==>
              && told.Fetched? && told.http == step.http
              && Next(w, step, config, known).cache == w.cache && Next(w, step, config, known).waiting == w.waiting
  {
    told := Next(w, step, config, known).log[|w.log|];
  }

  lemma StepsAlike(v: World, w: World, step: Step, config: Config, known: string -> bool)
    requires Enabled(w, step) && SameButClock(v, w, known)
    ensures Enabled(v, step) && SameButClock(Next(v, step, config, known), Next(w, step, config, known), known)
    ensures step.FetchStep? && !Definite(step.http, known) ==> SameButClock(v, Next(w, step, config, known), known)
  {
    var told := TellsAlike(v, w, step, config, known);
    DefinitelyOneMore(v.log, told, known);
    DefinitelyOneMore(w.log, told, known);
  }

  /** Leave every unavailable fetch out of a run: it is still a run, the gate gives every caller the
      same answers, and it ends with the same cache. */
  lemma {:induction false} UnavailableIsInvisible(v: World, w: World, steps: seq<Step>, w': World,
                                                  config: Config, known: string -> bool) returns (v': World)
    requires Leads(w, steps, w', config, known) && SameButClock(v, w, known)
    ensures Leads(v, Informative(steps, known), v', config, known) && SameButClock(v', w', known)
    decreases |steps|
  {
    v' := v;
    if steps != [] {
      var step, next := steps[0], Next(w, steps[0], config, known);
      StepsAlike(v, w, step, config, known);
      if step.FetchStep? && !Definite(step.http, known) {
        v' := UnavailableIsInvisible(v, next, steps[1..], w', config, known);
      } else {
        v' := UnavailableIsInvisible(Next(v, step, config, known), next, steps[1..], w', config, known);
        assert Informative(steps, known)[1..] == Informative(steps[1..], known);
      }
    }
  }
}
