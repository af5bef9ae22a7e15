/** Safety of the idempotency protocol over every interleaving: who holds a key, what a
    replay returns, and when a second delivery under one key is possible at all. */
module GatewaySafety {
  import opened Wrappers
  import opened Sequences
  import opened Lru
  import opened Idempotency
  import opened Gateway
  import RL = RateLimit

  /** The keys of the cache entries that the events of a log used, in order. */
  ghost function Touches(log: seq<Event>): seq<Key> {
    if log == [] then []
    else
      var e := log[|log| - 1];
      Touches(log[..|log| - 1]) + if e.touch && e.key.Some? then [e.key.value] else []
  }

  predicate StoresKey(e: Event, k: Key) {
    e.what.Store? && e.key == Some(k)
  }

  /** e stores the 200 of request r under k. */
  predicate StoresSuccess(e: Event, r: ReqId, k: Key) {
    StoresKey(e, k) && e.r == r && e.what.response.status == STATUS_OK
  }

  predicate Delivers(e: Event, k: Key) {
    e.what == SendEnd(Accepted) && e.key == Some(k)
  }

  ghost predicate Holder(s: State, r: ReqId, k: Key) {
    r in s.reqs && Holding(s.reqs[r]) && s.reqs[r].key == Some(k)
  }

  // --- The invariant, clause by clause ------------------------------------------------

  ghost predicate CacheSound(s: State) {
    s.cfg.Valid() && Sound(s.cache, Touches(s.log), s.cfg)
  }

  /** The in-flight set is exactly the keys being held, each by one request. */
  ghost predicate InFlightExact(s: State) {
    && (forall k :: k in s.cache.inflight <==> exists r :: Holder(s, r, k))
    && (forall r1, r2, k :: Holder(s, r1, k) && Holder(s, r2, k) ==> r1 == r2)
  }

  /** A key both in flight and resident has only an expired entry. */
  ghost predicate HeldAreStale(s: State) {
    forall k <- s.cache.inflight :: !s.cache.Fresh(k, s.now)
  }

  /** A response once stored has expired, or its key's entry lives at least as long, or
      the key went while `capacity` other keys were used after it. */
  ghost predicate Remembered(c: CacheState, h: seq<Key>, now: int, due: int, k: Key) {
    || due <= now
    || (k in c.lru.entries && due <= c.lru.entries[k].expires)
    || (k !in c.lru.entries && |UsedSince(h, k)| >= c.lru.capacity)
  }

  ghost predicate StoresRemembered(s: State) {
    forall e <- s.log, k | StoresKey(e, k) :: Remembered(s.cache, Touches(s.log), s.now, e.at + s.cfg.ttl, k)
  }

  ghost predicate NoFutureEvents(s: State) {
    forall e <- s.log :: e.at <= s.now
  }

  /** Where a request stands once one of its sends has succeeded. */
  ghost predicate DeliveryFollowed(s: State, i: nat, k: Key)
    requires i < |s.log|
  {
    var r := s.log[i].r;
    && r in s.reqs && s.reqs[r].key == Some(k)
    && match s.reqs[r].phase
       case Delivered => true
       case Answered(response) => response.status == STATUS_OK
       case Done(_) => exists m :: i < m < |s.log| && StoresSuccess(s.log[m], r, k)
       case _ => false
  }

  ghost predicate DeliveriesFollowed(s: State) {
    forall i: nat, k | i < |s.log| && Delivers(s.log[i], k) :: DeliveryFollowed(s, i, k)
  }

  /** A second delivery under k at j, after one at i, needs the first request's response
      to have been stored in between and, by then, either its lifetime to be over or
      `capacity` distinct other keys to have been used since k last was. */
  ghost predicate Justified(cfg: Config, log: seq<Event>, i: nat, j: nat, k: Key)
    requires i < j < |log|
  {
    exists m :: i < m < j && StoresSuccess(log[m], log[i].r, k)
      && (log[m].at + cfg.ttl <= log[j].at || |UsedSince(Touches(log[..j]), k)| >= cfg.capacity)
  }

  ghost predicate AtMostOnce(cfg: Config, log: seq<Event>) {
    forall i: nat, j: nat, k | i < j < |log| && Delivers(log[i], k) && Delivers(log[j], k) :: Justified(cfg, log, i, j, k)
  }

  // --- What a step does to the log ------------------------------------------------------

  lemma {:induction false} TouchesAppend(log: seq<Event>, e: Event)
    ensures Touches(log + [e]) == if e.touch && e.key.Some? then Touches(log) + [e.key.value] else Touches(log)
  {
    assert (log + [e])[..|log|] == log;
  }

  /** A step logs at most one event, stamped now, and the clock never runs backwards. */
  lemma LogGrows(s: State, step: Step)
    requires Enabled(s, step)
    ensures var t := Do(s, step);
            && t.cfg == s.cfg && s.now <= t.now
            && (t.log == s.log || (|t.log| == |s.log| + 1 && t.log[..|s.log|] == s.log && t.log[|s.log|].at == s.now == t.now))
  {
    hide RL.LimiterState.Allows, RL.LimiterState.AfterAllow;
  }

  // --- Each clause survives each step -----------------------------------------------------

  /** Which entry, if any, a step uses. */
  lemma StepTouches(s: State, step: Step)
    requires Enabled(s, step)
    ensures Touches(Do(s, step).log) ==
            match step
            case Arrive(_, Some(k), _) =>
              if s.cache.LookupAnswer(k, s.now).Replay? then Touches(s.log) + [k] else Touches(s.log)
            case TryClaim(r) =>
              var k := s.reqs[r].key.value;
              if k !in s.cache.inflight && k in s.cache.lru.entries then Touches(s.log) + [k] else Touches(s.log)
            case Finalize(r) =>
              var q := s.reqs[r];
              if q.key.Some? && Cacheable(q.phase.response.status) then Touches(s.log) + [q.key.value] else Touches(s.log)
            case _ => Touches(s.log)
  {
    hide RL.LimiterState.Allows, RL.LimiterState.AfterAllow;
    hide CacheState.AfterLookup, CacheState.AfterClaim, CacheState.AfterStore;
    var t := Do(s, step);
    if t.log != s.log {
      TouchesAppend(s.log, t.log[|s.log|]);
    }
  }

  /** The cache part of a state against the uses logged so far. */
  ghost predicate Sound(c: CacheState, h: seq<Key>, cfg: Config) {
    c.Valid() && c.lru.capacity == cfg.capacity && c.ttl == cfg.ttl && c.lru.Tracks(h)
  }

  lemma LookupSound(c: CacheState, h: seq<Key>, cfg: Config, k: Key, now: int)
    requires Sound(c, h, cfg)
    ensures Sound(c.AfterLookup(k, now), if c.LookupAnswer(k, now).Replay? then h + [k] else h, cfg)
  {
    TouchKeeps(c.lru, h, k);
    RemoveKeeps(c.lru, h, k);
  }

  lemma ClaimSound(c: CacheState, h: seq<Key>, cfg: Config, k: Key, now: int)
    requires Sound(c, h, cfg)
    ensures Sound(c.AfterClaim(k, now), if k !in c.inflight && k in c.lru.entries then h + [k] else h, cfg)
  {
    TouchKeeps(c.lru, h, k);
  }

  lemma StoreSound(c: CacheState, h: seq<Key>, cfg: Config, k: Key, v: Response, now: int)
    requires Sound(c, h, cfg)
    ensures Sound(c.AfterStore(k, v, now), h + [k], cfg)
  {
    AddKeeps(c.lru, h, k, Entry(v, now + c.ttl));
  }

  lemma CacheSoundKept(s: State, step: Step)
    requires Enabled(s, step) && CacheSound(s)
    ensures CacheSound(Do(s, step))
  {
    hide RL.LimiterState.Allows, RL.LimiterState.AfterAllow;
    hide CacheState.AfterLookup, CacheState.AfterClaim, CacheState.AfterStore, Touches;
    var h := Touches(s.log);
    StepTouches(s, step);
    match step
    case Arrive(r, Some(k), _) => LookupSound(s.cache, h, s.cfg, k, s.now);
    case TryClaim(r) => ClaimSound(s.cache, h, s.cfg, s.reqs[r].key.value, s.now);
    case Finalize(r) =>
      if s.reqs[r].key.Some? {
        StoreSound(s.cache, h, s.cfg, s.reqs[r].key.value, s.reqs[r].phase.response, s.now);
      }
    case _ =>
  }

  /** A won claim adds one holder, a keyed finalizer removes one, nothing else changes any. */
  lemma HoldersStep(s: State, step: Step, r: ReqId, k: Key)
    requires Enabled(s, step)
    ensures Holder(Do(s, step), r, k) <==>
            || (step.TryClaim? && r == step.r && s.reqs[r].key == Some(k) && s.cache.CanClaim(k, s.now))
            || (Holder(s, r, k) && !(step.Finalize? && r == step.r))
  {
    hide RL.LimiterState.Allows, RL.LimiterState.AfterAllow;
  }

  lemma InFlightExactKept(s: State, step: Step)
    requires Enabled(s, step) && InFlightExact(s)
    ensures InFlightExact(Do(s, step))
  {
    hide RL.LimiterState.Allows, RL.LimiterState.AfterAllow;
    var t := Do(s, step);
    if step.Finalize? && s.reqs[step.r].key.Some? {
      assert Holder(s, step.r, s.reqs[step.r].key.value);
    }
    forall k ensures k in t.cache.inflight <==> exists r :: Holder(t, r, k) {
      if k in t.cache.inflight {
        if k in s.cache.inflight {
          var r :| Holder(s, r, k);
          HoldersStep(s, step, r, k);
          assert Holder(t, r, k);
        } else {
          HoldersStep(s, step, step.r, k);
          assert Holder(t, step.r, k);
        }
      }
      if r :| Holder(t, r, k) {
        HoldersStep(s, step, r, k);
      }
    }
    forall r1, r2, k | Holder(t, r1, k) && Holder(t, r2, k) ensures r1 == r2 {
      HoldersStep(s, step, r1, k);
      HoldersStep(s, step, r2, k);
    }
  }

  lemma HeldAreStaleKept(s: State, step: Step)
    requires Enabled(s, step) && CacheSound(s) && InFlightExact(s) && HeldAreStale(s)
    ensures HeldAreStale(Do(s, step))
  {
    hide RL.LimiterState.Allows, RL.LimiterState.AfterAllow, Lru.Add, NoDup, Elements, Without;
    var t := Do(s, step);
    forall k <- t.cache.inflight ensures !t.cache.Fresh(k, t.now) {
      if step.Finalize? && s.reqs[step.r].key.Some? {
        assert Holder(s, step.r, s.reqs[step.r].key.value);
        AddValues(s.cache.lru, s.reqs[step.r].key.value,
                  Entry(s.reqs[step.r].phase.response, s.now + s.cache.ttl), k);
      }
    }
  }

  lemma NoFutureEventsKept(s: State, step: Step)
    requires Enabled(s, step) && NoFutureEvents(s)
    ensures NoFutureEvents(Do(s, step))
  {
    hide RL.LimiterState.Allows, RL.LimiterState.AfterAllow;
    LogGrows(s, step);
  }

  lemma UsedSinceGrows(h: seq<Key>, x: Key, k: Key)
    requires x != k
    ensures |UsedSince(h, k)| <= |UsedSince(h + [x], k)|
  {
    UseAppend(h, x, k);
    SubsetSize(UsedSince(h, k), UsedSince(h + [x], k));
  }

  lemma LookupRemembers(c: CacheState, h: seq<Key>, now: int, due: int, k: Key, x: Key)
    requires c.Valid() && Remembered(c, h, now, due, k)
    ensures Remembered(c.AfterLookup(x, now), if c.LookupAnswer(x, now).Replay? then h + [x] else h, now, due, k)
  {
    if x != k {
      UsedSinceGrows(h, x, k);
    }
  }

  lemma ClaimRemembers(c: CacheState, h: seq<Key>, now: int, due: int, k: Key, x: Key)
    requires c.Valid() && Remembered(c, h, now, due, k)
    ensures Remembered(c.AfterClaim(x, now), if x !in c.inflight && x in c.lru.entries then h + [x] else h, now, due, k)
  {
    if x != k {
      UsedSinceGrows(h, x, k);
    }
  }

  lemma StoreRemembers(c: CacheState, h: seq<Key>, now: int, due: int, k: Key, x: Key, v: Response)
    requires c.Valid() && c.lru.Tracks(h) && Remembered(c, h, now, due, k)
    requires due <= now + c.ttl
    ensures Remembered(c.AfterStore(x, v, now), h + [x], now, due, k)
  {
    var entry := Entry(v, now + c.ttl);
    AddValues(c.lru, x, entry, k);
    if x != k {
      UsedSinceGrows(h, x, k);
      AddKeeps(c.lru, h, x, entry);
    }
  }

  lemma StepRemembers(s: State, step: Step, due: int, k: Key)
    requires Enabled(s, step) && CacheSound(s) && due <= s.now + s.cfg.ttl
    requires Remembered(s.cache, Touches(s.log), s.now, due, k)
    ensures Remembered(Do(s, step).cache, Touches(Do(s, step).log), Do(s, step).now, due, k)
  {
    hide RL.LimiterState.Allows, RL.LimiterState.AfterAllow;
    hide CacheState.AfterLookup, CacheState.AfterClaim, CacheState.AfterStore, Touches, UsedSince, LastUse;
    var h := Touches(s.log);
    StepTouches(s, step);
    match step
    case Arrive(r, Some(x), _) => LookupRemembers(s.cache, h, s.now, due, k, x);
    case TryClaim(r) => ClaimRemembers(s.cache, h, s.now, due, k, s.reqs[r].key.value);
    case Finalize(r) =>
      if s.reqs[r].key.Some? {
        StoreRemembers(s.cache, h, s.now, due, k, s.reqs[r].key.value, s.reqs[r].phase.response);
      }
    case _ =>
  }

  lemma StoresRememberedKept(s: State, step: Step)
    requires Enabled(s, step) && CacheSound(s) && NoFutureEvents(s) && StoresRemembered(s)
    ensures StoresRemembered(Do(s, step))
  {
    hide RL.LimiterState.Allows, RL.LimiterState.AfterAllow;
    hide Touches, UsedSince, LastUse, Without;
    var t := Do(s, step);
    LogGrows(s, step);
    forall e <- t.log, k | StoresKey(e, k)
      ensures Remembered(t.cache, Touches(t.log), t.now, e.at + t.cfg.ttl, k)
    {
      if e in s.log {
        StepRemembers(s, step, e.at + s.cfg.ttl, k);
      } else {
        AddValues(s.cache.lru, k, Entry(s.reqs[step.r].phase.response, s.now + s.cache.ttl), k);
      }
    }
  }

  lemma DeliveriesFollowedKept(s: State, step: Step)
    requires Enabled(s, step) && DeliveriesFollowed(s)
    ensures DeliveriesFollowed(Do(s, step))
  {
    hide RL.LimiterState.Allows, RL.LimiterState.AfterAllow;
    hide CacheState.AfterLookup, CacheState.AfterClaim, CacheState.AfterStore;
    var t := Do(s, step);
    LogGrows(s, step);
    forall i: nat, k | i < |t.log| && Delivers(t.log[i], k) ensures DeliveryFollowed(t, i, k) {
      if i < |s.log| {
        assert t.log[i] == s.log[i];
        assert DeliveryFollowed(s, i, k);
        if s.reqs[s.log[i].r].phase.Done? {
          var m :| i < m < |s.log| && StoresSuccess(s.log[m], s.log[i].r, k);
          assert StoresSuccess(t.log[m], t.log[i].r, k);
        } else if step.Finalize? && step.r == s.log[i].r {
          assert StoresSuccess(t.log[|s.log|], t.log[i].r, k);
        }
      }
    }
  }

  lemma JustifiedStays(cfg: Config, log: seq<Event>, e: Event, i: nat, j: nat, k: Key)
    requires i < j < |log| && Justified(cfg, log, i, j, k)
    ensures Justified(cfg, log + [e], i, j, k)
  {
    var m :| i < m < j && StoresSuccess(log[m], log[i].r, k)
      && (log[m].at + cfg.ttl <= log[j].at || |UsedSince(Touches(log[..j]), k)| >= cfg.capacity);
    assert (log + [e])[..j] == log[..j];
    assert StoresSuccess((log + [e])[m], log[i].r, k);
  }

  lemma AtMostOnceKept(s: State, step: Step)
    requires Enabled(s, step) && Invariant(s)
    ensures AtMostOnce(s.cfg, Do(s, step).log)
  {
    hide RL.LimiterState.Allows, RL.LimiterState.AfterAllow;
    hide Touches, UsedSince, CacheState.AfterLookup, CacheState.AfterClaim, CacheState.AfterStore;
    var t := Do(s, step);
    LogGrows(s, step);
    forall i: nat, j: nat, k | i < j < |t.log| && Delivers(t.log[i], k) && Delivers(t.log[j], k)
      ensures Justified(s.cfg, t.log, i, j, k)
    {
      if j < |s.log| {
        assert t.log[i] == s.log[i] && t.log[j] == s.log[j];
        assert t.log == s.log || t.log == s.log + [t.log[|s.log|]];
        if t.log != s.log {
          JustifiedStays(s.cfg, s.log, t.log[|s.log|], i, j, k);
        }
      } else {
        assert t.log[i] == s.log[i] && t.log[..j] == s.log;
        var m := SecondDelivery(s, step.r, i, k);
        assert StoresSuccess(t.log[m], t.log[i].r, k);
      }
    }
  }

  /** The heart of the matter: while r is sending under k, an earlier delivery under k
      can only have been made by a request that has stored its response since. */
  lemma SecondDelivery(s: State, r: ReqId, i: nat, k: Key) returns (m: nat)
    requires Invariant(s) && i < |s.log| && Delivers(s.log[i], k)
    requires r in s.reqs && s.reqs[r].phase.Sending? && s.reqs[r].key == Some(k)
    ensures i < m < |s.log| && StoresSuccess(s.log[m], s.log[i].r, k)
    ensures s.log[m].at + s.cfg.ttl <= s.now || |UsedSince(Touches(s.log), k)| >= s.cfg.capacity
  {
    assert DeliveryFollowed(s, i, k);
    var first := s.log[i].r;
    assert Holder(s, r, k);
    assert !Holder(s, first, k);
    m :| i < m < |s.log| && StoresSuccess(s.log[m], first, k);
    assert Remembered(s.cache, Touches(s.log), s.now, s.log[m].at + s.cfg.ttl, k);
    assert !s.cache.Fresh(k, s.now);
  }

  ghost predicate Invariant(s: State) {
    && CacheSound(s) && InFlightExact(s) && HeldAreStale(s) && NoFutureEvents(s)
    && StoresRemembered(s) && DeliveriesFollowed(s) && AtMostOnce(s.cfg, s.log)
  }

  lemma {:induction false} InvariantHolds(cfg: Config, start: int, steps: seq<Step>)
    requires cfg.Valid() && Legal(cfg, start, steps)
    ensures Invariant(Exec(cfg, start, steps)) && Exec(cfg, start, steps).cfg == cfg
  {
    if steps == [] {
    } else {
      var pre, step := steps[..|steps| - 1], steps[|steps| - 1];
      InvariantHolds(cfg, start, pre);
      var s := Exec(cfg, start, pre);
      LogGrows(s, step);
      CacheSoundKept(s, step);
      InFlightExactKept(s, step);
      HeldAreStaleKept(s, step);
      NoFutureEventsKept(s, step);
      StoresRememberedKept(s, step);
      DeliveriesFollowedKept(s, step);
      AtMostOnceKept(s, step);
    }
  }
}
