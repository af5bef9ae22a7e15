/** What lookups answer in any run, and the theorems about whole runs of the gateway. */
module GatewayReplay {
  import opened Wrappers
  import opened Lru
  import opened Idempotency
  import opened Gateway
  import opened GatewaySafety
  import opened GatewayClaims
  import RL = RateLimit

  /** The latest response stored under k. */
  ghost function LastStored(log: seq<Event>, k: Key): (e: Option<Event>)
    ensures e.Some? ==> e.value in log && StoresKey(e.value, k)
    ensures e.None? ==> forall x <- log :: !StoresKey(x, k)
  {
    if log == [] then None
    else if StoresKey(log[|log| - 1], k) then Some(log[|log| - 1])
    else LastStored(log[..|log| - 1], k)
  }

  /** Every resident entry is the latest response stored under its key. */
  ghost predicate EntriesAreLatest(s: State) {
    forall k <- s.cache.lru.entries.Keys ::
      var e := LastStored(s.log, k);
      e.Some? && s.cache.lru.entries[k] == Entry(e.value.what.response, e.value.at + s.cfg.ttl)
  }

  /** Some claim of k was won and is not yet released. */
  ghost predicate Claimed(log: seq<Event>, k: Key) {
    exists r :: Open(log, r, k)
  }

  /** Every response stored under k has expired, or `capacity` distinct other keys were used
      since the key last was. */
  ghost predicate Gone(cfg: Config, log: seq<Event>, k: Key, now: int) {
    forall e <- log :: StoresKey(e, k) ==> e.at + cfg.ttl <= now || |UsedSince(Touches(log), k)| >= cfg.capacity
  }

  /** A lookup answers "in flight" exactly while a claim of the key is open. Otherwise a replay
      is, byte for byte, the latest response stored under the key, still alive, and a miss
      means whatever was stored under it is gone. */
  ghost predicate Explained(cfg: Config, log: seq<Event>, j: nat)
    requires j < |log| && log[j].what.Looked? && log[j].key.Some?
  {
    var k, past := log[j].key.value, log[..j];
    && (log[j].what.answer.InFlight? <==> Claimed(past, k))
    && match log[j].what.answer
       case Replay(v) =>
         var e := LastStored(past, k);
         e.Some? && v == e.value.what.response && log[j].at < e.value.at + cfg.ttl
       case Miss => Gone(cfg, past, k, log[j].at)
       case InFlight => true
  }

  /** A claim is won only with no claim of the key open and whatever was stored under it gone;
      it is lost only to an open claim, or to a stored response still alive. */
  ghost predicate ClaimExplained(cfg: Config, log: seq<Event>, j: nat)
    requires j < |log| && log[j].what.Claim? && log[j].key.Some?
  {
    var k, past := log[j].key.value, log[..j];
    if log[j].what.won then !Claimed(past, k) && Gone(cfg, past, k, log[j].at)
    else
      || Claimed(past, k)
      || (LastStored(past, k).Some? && log[j].at < LastStored(past, k).value.at + cfg.ttl)
  }

  ghost predicate LookupsExplained(cfg: Config, log: seq<Event>) {
    && (forall j: nat | j < |log| && log[j].what.Looked? :: log[j].key.Some? && Explained(cfg, log, j))
    && (forall j: nat | j < |log| && log[j].what.Claim? :: log[j].key.Some? && ClaimExplained(cfg, log, j))
  }

  predicate StoresNow(s: State, step: Step, k: Key)
    requires Enabled(s, step)
  {
    step.Finalize? && s.reqs[step.r].key == Some(k) && Cacheable(s.reqs[step.r].phase.response.status)
  }

  /** Only a store writes an entry, and only under its own key. */
  lemma EntryStep(s: State, step: Step, k: Key)
    requires Enabled(s, step) && CacheSound(s) && k in Do(s, step).cache.lru.entries
    ensures StoresNow(s, step, k) ==>
              Do(s, step).cache.lru.entries[k] == Entry(s.reqs[step.r].phase.response, s.now + s.cfg.ttl)
    ensures !StoresNow(s, step, k) ==>
              k in s.cache.lru.entries && Do(s, step).cache.lru.entries[k] == s.cache.lru.entries[k]
  {
    hide RL.LimiterState.Allows, RL.LimiterState.AfterAllow;
    hide Touches;
    if step.Finalize? && s.reqs[step.r].key.Some? {
      AddValues(s.cache.lru, s.reqs[step.r].key.value, Entry(s.reqs[step.r].phase.response, s.now + s.cache.ttl), k);
    }
  }

  lemma EntriesAreLatestKept(s: State, step: Step)
    requires Enabled(s, step) && CacheSound(s) && EntriesAreLatest(s)
    ensures EntriesAreLatest(Do(s, step))
  {
    hide RL.LimiterState.Allows, RL.LimiterState.AfterAllow;
    hide LastStored;
    var t := Do(s, step);
    LogGrows(s, step);
    forall k <- t.cache.lru.entries.Keys
      ensures LastStored(t.log, k).Some?
      ensures var e := LastStored(t.log, k).value;
              t.cache.lru.entries[k] == Entry(e.what.response, e.at + t.cfg.ttl)
    {
      EntryStep(s, step, k);
      LastStoredStep(s, step, k);
    }
  }

  lemma {:induction false} LastStoredStep(s: State, step: Step, k: Key)
    requires Enabled(s, step)
    ensures var t := Do(s, step);
            LastStored(t.log, k) ==
            if StoresNow(s, step, k) then Some(Event(s.now, step.r, Some(k), Store(s.reqs[step.r].phase.response), true))
            else LastStored(s.log, k)
  {
    hide RL.LimiterState.Allows, RL.LimiterState.AfterAllow;
    hide CacheState.AfterLookup, CacheState.AfterClaim, CacheState.AfterStore;
    LogGrows(s, step);
  }

  lemma LookupsExplainedKept(s: State, step: Step)
    requires Enabled(s, step) && Invariant(s) && OpenIsHeld(s) && EntriesAreLatest(s) && LookupsExplained(s.cfg, s.log)
    ensures LookupsExplained(s.cfg, Do(s, step).log)
  {
    hide RL.LimiterState.Allows, RL.LimiterState.AfterAllow;
    hide LastStored, Touches, UsedSince, Claimed, Gone, Invariant, EntriesAreLatest, OpenIsHeld;
    hide CacheState.AfterLookup, CacheState.AfterClaim, CacheState.AfterStore, CacheState.CanClaim, CacheState.LookupAnswer;
    var t := Do(s, step);
    LogGrows(s, step);
    forall j: nat | j < |t.log| && t.log[j].what.Looked?
      ensures t.log[j].key.Some? && Explained(s.cfg, t.log, j)
    {
      if j < |s.log| {
        assert t.log[j] == s.log[j] && t.log[..j] == s.log[..j];
        assert Explained(s.cfg, s.log, j);
      } else {
        NewLookupExplained(s, step);
      }
    }
    forall j: nat | j < |t.log| && t.log[j].what.Claim?
      ensures t.log[j].key.Some? && ClaimExplained(s.cfg, t.log, j)
    {
      if j < |s.log| {
        assert t.log[j] == s.log[j] && t.log[..j] == s.log[..j];
        assert ClaimExplained(s.cfg, s.log, j);
      } else {
        NewClaimExplained(s, step);
      }
    }
  }

  /** Nothing live is resident only if whatever was stored is gone. */
  lemma NotFreshGone(s: State, k: Key)
    requires Invariant(s) && !s.cache.Fresh(k, s.now)
    ensures Gone(s.cfg, s.log, k, s.now)
  {
    hide UsedSince, Touches;
    forall e <- s.log | StoresKey(e, k)
      ensures e.at + s.cfg.ttl <= s.now || |UsedSince(Touches(s.log), k)| >= s.cfg.capacity
    {
      assert Remembered(s.cache, Touches(s.log), s.now, e.at + s.cfg.ttl, k);
    }
  }

  lemma ClaimedIsInFlight(s: State, k: Key)
    requires Invariant(s) && OpenIsHeld(s)
    ensures Claimed(s.log, k) <==> k in s.cache.inflight
  {
    hide Holder, Open, CacheSound, HeldAreStale, StoresRemembered, NoFutureEvents, DeliveriesFollowed, AtMostOnce;
  }

  lemma NewLookupExplained(s: State, step: Step)
    requires Enabled(s, step) && Invariant(s) && OpenIsHeld(s) && EntriesAreLatest(s)
    requires step.Arrive? && step.key.Some?
    ensures Explained(s.cfg, Do(s, step).log, |s.log|)
  {
    hide RL.LimiterState.Allows, RL.LimiterState.AfterAllow;
    hide LastStored, UsedSince, Claimed, Gone, Invariant, OpenIsHeld;
    var k := step.key.value;
    assert Do(s, step).log[..|s.log|] == s.log;
    ClaimedIsInFlight(s, k);
    if !s.cache.Fresh(k, s.now) {
      NotFreshGone(s, k);
    }
    SameConfig(s);
  }

  lemma NewClaimExplained(s: State, step: Step)
    requires Enabled(s, step) && Invariant(s) && OpenIsHeld(s) && EntriesAreLatest(s)
    requires step.TryClaim?
    ensures ClaimExplained(s.cfg, Do(s, step).log, |s.log|)
  {
    hide RL.LimiterState.Allows, RL.LimiterState.AfterAllow;
    hide LastStored, UsedSince, Claimed, Gone, Invariant, OpenIsHeld;
    var k := s.reqs[step.r].key.value;
    assert Do(s, step).log[..|s.log|] == s.log;
    ClaimedIsInFlight(s, k);
    if !s.cache.Fresh(k, s.now) {
      NotFreshGone(s, k);
    }
    SameConfig(s);
  }

  lemma SameConfig(s: State)
    requires Invariant(s)
    ensures s.cache.ttl == s.cfg.ttl && s.cache.lru.capacity == s.cfg.capacity
  {
  }

  lemma {:induction false} LookupsHold(cfg: Config, start: int, steps: seq<Step>)
    requires cfg.Valid() && Legal(cfg, start, steps)
    ensures EntriesAreLatest(Exec(cfg, start, steps))
    ensures LookupsExplained(cfg, Exec(cfg, start, steps).log)
  {
    if steps == [] {
    } else {
      var pre, step := steps[..|steps| - 1], steps[|steps| - 1];
      LookupsHold(cfg, start, pre);
      InvariantHolds(cfg, start, pre);
      OpenHolds(cfg, start, pre);
      EntriesAreLatestKept(Exec(cfg, start, pre), step);
      LookupsExplainedKept(Exec(cfg, start, pre), step);
    }
  }

  // --- Theorems over every run ---------------------------------------------------------

  /** In every interleaving, two deliveries under one Idempotency-Key are separated by
      the storing of the first one's 200, and by the second one either that response has
      expired or `capacity` distinct other keys were stored or hit after the key last was. */
  lemma {:induction false} DeliveredAtMostOnce(cfg: Config, start: int, steps: seq<Step>, i: nat, j: nat, k: Key)
    requires cfg.Valid() && Legal(cfg, start, steps)
    requires i < j < |Exec(cfg, start, steps).log|
    requires Delivers(Exec(cfg, start, steps).log[i], k) && Delivers(Exec(cfg, start, steps).log[j], k)
    ensures var log := Exec(cfg, start, steps).log;
            exists m :: i < m < j && StoresSuccess(log[m], log[i].r, k)
              && (log[m].at + cfg.ttl <= log[j].at || |UsedSince(Touches(log[..j]), k)| >= cfg.capacity)
  {
    InvariantHolds(cfg, start, steps);
    assert Justified(cfg, Exec(cfg, start, steps).log, i, j, k);
  }

  /** In every reachable state the in-flight keys are exactly those held by a request
      between its claim and its finalizer, no key is held twice (so sends under one key
      never overlap), and a resident entry of a held key has expired. */
  lemma {:induction false} InFlightBookkeeping(cfg: Config, start: int, steps: seq<Step>)
    requires cfg.Valid() && Legal(cfg, start, steps)
    ensures var s := Exec(cfg, start, steps);
            && (forall k :: k in s.cache.inflight <==> exists r :: Holder(s, r, k))
            && (forall r1, r2, k :: Holder(s, r1, k) && Holder(s, r2, k) ==> r1 == r2)
            && (forall k <- s.cache.inflight | k in s.cache.lru.entries :: s.cache.lru.entries[k].expires <= s.now)
  {
    InvariantHolds(cfg, start, steps);
  }

  /** Every lookup of every run is explained by the claims and stores before it. */
  lemma {:induction false} LookupsAreExact(cfg: Config, start: int, steps: seq<Step>, j: nat)
    requires cfg.Valid() && Legal(cfg, start, steps)
    requires j < |Exec(cfg, start, steps).log| && Exec(cfg, start, steps).log[j].what.Looked?
    ensures Exec(cfg, start, steps).log[j].key.Some? && Explained(cfg, Exec(cfg, start, steps).log, j)
  {
    LookupsHold(cfg, start, steps);
  }

  /** And so is every claim. */
  lemma {:induction false} ClaimsAreExact(cfg: Config, start: int, steps: seq<Step>, j: nat)
    requires cfg.Valid() && Legal(cfg, start, steps)
    requires j < |Exec(cfg, start, steps).log| && Exec(cfg, start, steps).log[j].what.Claim?
    ensures Exec(cfg, start, steps).log[j].key.Some? && ClaimExplained(cfg, Exec(cfg, start, steps).log, j)
  {
    LookupsHold(cfg, start, steps);
  }

  /** A response stored at m, a 200 or a 422 alike, is what a later lookup of its key replays,
      unless it has expired, was crowded out, was stored over, or a claim is open. */
  lemma {:induction false} StoredIsReplayed(cfg: Config, start: int, steps: seq<Step>, m: nat, j: nat, k: Key)
    requires cfg.Valid() && Legal(cfg, start, steps)
    requires m < j < |Exec(cfg, start, steps).log|
    requires var log := Exec(cfg, start, steps).log;
             && StoresKey(log[m], k) && log[j].what.Looked? && log[j].key == Some(k)
             && LastStored(log[..j], k) == Some(log[m]) && !Claimed(log[..j], k)
             && log[j].at < log[m].at + cfg.ttl && |UsedSince(Touches(log[..j]), k)| < cfg.capacity
    ensures Exec(cfg, start, steps).log[j].what.answer == Replay(Exec(cfg, start, steps).log[m].what.response)
  {
    hide Exec, Legal, LastStored, Claimed, UsedSince, Touches;
    var log := Exec(cfg, start, steps).log;
    LookupsAreExact(cfg, start, steps, j);
    assert log[..j][m] == log[m] && log[m] in log[..j];
  }
}
