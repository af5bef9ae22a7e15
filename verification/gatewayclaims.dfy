/** Claims in the log of a run: a key is in flight exactly while a claim of it that was won
    has not been released, and a claim is won exactly when nothing speaks against it. */
module GatewayClaims {
  import opened Wrappers
  import opened Lru
  import opened Idempotency
  import opened Gateway
  import opened GatewaySafety
  import RL = RateLimit

  predicate Releases(e: Event) {
    e.what.Store? || e.what.Abandon?
  }

  /** The claim at c of k by r was won and r has released nothing since. */
  ghost predicate OpenAt(log: seq<Event>, c: nat, r: ReqId, k: Key) {
    && c < |log| && log[c].r == r && log[c].key == Some(k) && log[c].what == Claim(true)
    && forall m :: c < m < |log| && log[m].r == r ==> !Releases(log[m])
  }

  ghost predicate Open(log: seq<Event>, r: ReqId, k: Key) {
    exists c :: OpenAt(log, c, r, k)
  }

  lemma OpenAppend(log: seq<Event>, e: Event, r: ReqId, k: Key)
    ensures Open(log + [e], r, k) <==>
            || (e.r == r && e.key == Some(k) && e.what == Claim(true))
            || (Open(log, r, k) && !(e.r == r && Releases(e)))
  {
    var t := log + [e];
    if Open(t, r, k) {
      var c: nat :| OpenAt(t, c, r, k);
      if c < |log| {
        assert t[c] == log[c] && t[|log|] == e;
        assert forall m :: c < m < |log| ==> t[m] == log[m];
        assert OpenAt(log, c, r, k);
      }
    }
    if e.r == r && e.key == Some(k) && e.what == Claim(true) {
      assert OpenAt(t, |log|, r, k);
    }
    if Open(log, r, k) && !(e.r == r && Releases(e)) {
      var c: nat :| OpenAt(log, c, r, k);
      assert OpenAt(t, c, r, k);
    }
  }

  /** The open claims of the log are the keys held. */
  ghost predicate OpenIsHeld(s: State) {
    forall r, k :: Open(s.log, r, k) <==> Holder(s, r, k)
  }

  lemma OpenIsHeldKept(s: State, step: Step)
    requires Enabled(s, step) && OpenIsHeld(s)
    ensures OpenIsHeld(Do(s, step))
  {
    hide Do, Enabled, Open, Holder;
    var t := Do(s, step);
    forall r, k ensures Open(t.log, r, k) <==> Holder(t, r, k) {
      HoldersStep(s, step, r, k);
      StepNotes(s, step, r, k);
      if t.log != s.log {
        OpenAppend(s.log, t.log[|s.log|], r, k);
      }
    }
  }

  /** What a step logs of claims of k by r, and of their release. */
  lemma StepNotes(s: State, step: Step, r: ReqId, k: Key)
    requires Enabled(s, step)
    ensures var t := Do(s, step);
            if t.log == s.log then
              && !step.TryClaim? && !(step.Finalize? && r == step.r && Holder(s, r, k))
            else
              && |t.log| == |s.log| + 1 && t.log == s.log + [t.log[|s.log|]]
              && var e := t.log[|s.log|];
                 && ((e.r == r && e.key == Some(k) && e.what == Claim(true))
                     <==> (step.TryClaim? && r == step.r && s.reqs[r].key == Some(k) && s.cache.CanClaim(k, s.now)))
                 && (e.r == r && Releases(e) ==> step.Finalize? && r == step.r)
                 && (step.Finalize? && r == step.r && Holder(s, r, k) ==> e.r == r && Releases(e))
  {
    hide RL.LimiterState.Allows, RL.LimiterState.AfterAllow;
    hide CacheState.AfterLookup, CacheState.AfterClaim, CacheState.AfterStore;
    LogGrows(s, step);
  }

  lemma {:induction false} OpenHolds(cfg: Config, start: int, steps: seq<Step>)
    requires Legal(cfg, start, steps)
    ensures OpenIsHeld(Exec(cfg, start, steps))
  {
    hide Do, Enabled;
    if steps == [] {
      NothingOpen(cfg, start);
    } else {
      OpenHolds(cfg, start, steps[..|steps| - 1]);
      OpenIsHeldKept(Exec(cfg, start, steps[..|steps| - 1]), steps[|steps| - 1]);
    }
  }

  lemma NothingOpen(cfg: Config, start: int)
    ensures OpenIsHeld(Init(cfg, start))
  {
  }

  // --- Theorems over every run -----------------------------------------------------------

  /** In every run a lookup now would answer "in flight" if and only if some request holds the
      key, which is when the log has a claim of it that was won and not yet released. */
  lemma {:induction false} InFlightIff(cfg: Config, start: int, steps: seq<Step>, k: Key)
    requires cfg.Valid() && Legal(cfg, start, steps)
    ensures var s := Exec(cfg, start, steps);
            && (s.cache.LookupAnswer(k, s.now).InFlight? <==> exists r :: Holder(s, r, k))
            && (s.cache.LookupAnswer(k, s.now).InFlight? <==> exists r :: Open(s.log, r, k))
  {
    hide Holder, Open;
    InvariantHolds(cfg, start, steps);
    OpenHolds(cfg, start, steps);
  }

  /** In every run a request that missed gets the key if and only if no request holds it and no
      live entry is resident; otherwise it is answered as a conflict. */
  lemma {:induction false} ClaimWonIff(cfg: Config, start: int, steps: seq<Step>, r: ReqId, k: Key)
    requires cfg.Valid() && Legal(cfg, start, steps) && Enabled(Exec(cfg, start, steps), TryClaim(r))
    requires Exec(cfg, start, steps).reqs[r].key == Some(k)
    ensures var s := Exec(cfg, start, steps);
            var t := Do(s, TryClaim(r));
            var free := (forall q :: !Holder(s, q, k))
                        && !(k in s.cache.lru.entries && s.now < s.cache.lru.entries[k].expires);
            && (Holder(t, r, k) <==> free)
            && t.reqs[r].phase == (if free then Admitted else Done(Conflict))
  {
    hide RL.LimiterState.Allows, RL.LimiterState.AfterAllow;
    InvariantHolds(cfg, start, steps);
  }

  lemma {:induction false} LegalStep(cfg: Config, start: int, steps: seq<Step>, step: Step)
    requires Legal(cfg, start, steps) && Enabled(Exec(cfg, start, steps), step)
    ensures Legal(cfg, start, steps + [step])
    ensures Exec(cfg, start, steps + [step]) == Do(Exec(cfg, start, steps), step)
  {
    hide Do, Enabled;
    assert (steps + [step])[..|steps|] == steps;
  }

  /** Progress: a key that no request holds and that has no live entry is admitted to the next
      request that arrives with it and claims it. */
  lemma {:induction false} FreeKeyIsAdmitted(cfg: Config, start: int, steps: seq<Step>, r: ReqId, k: Key, apiKey: Key)
    requires cfg.Valid() && Legal(cfg, start, steps) && r !in Exec(cfg, start, steps).reqs
    requires var s := Exec(cfg, start, steps);
             && (forall q :: !Holder(s, q, k))
             && !(k in s.cache.lru.entries && s.now < s.cache.lru.entries[k].expires)
    ensures var more := steps + [Arrive(r, Some(k), apiKey)] + [TryClaim(r)];
            && Legal(cfg, start, more)
            && var s, t := Exec(cfg, start, steps), Exec(cfg, start, more);
               && Holder(t, r, k) && t.reqs == s.reqs[r := Request(Some(k), apiKey, Admitted)]
               && t.limiter == s.limiter && t.now == s.now && t.cfg == s.cfg
  {
    hide RL.LimiterState.Allows, RL.LimiterState.AfterAllow;
    hide Legal, Exec;
    var s := Exec(cfg, start, steps);
    InvariantHolds(cfg, start, steps);
    LegalStep(cfg, start, steps, Arrive(r, Some(k), apiKey));
    var u := Do(s, Arrive(r, Some(k), apiKey));
    assert u.reqs[r] == Request(Some(k), apiKey, Missed);
    assert u.cache == s.cache.AfterLookup(k, s.now);
    LegalStep(cfg, start, steps + [Arrive(r, Some(k), apiKey)], TryClaim(r));
  }

  /** The steps from admission to the stored 200: the limiter, one send, the answer. */
  function Served(steps: seq<Step>, now: int, r: ReqId, ok: Response, no: Response): (more: seq<Step>)
    ensures steps <= more
  {
    steps + [PassGate(r, now, no)] + [StartSend(r)] + [EndSend(r, Accepted, Response(502, [], ""))]
    + [WriteSuccess(r, ok)] + [Finalize(r)]
  }

  /** The run ends with r answered v and v stored, to be replayed. */
  ghost predicate EndsStored(cfg: Config, start: int, steps: seq<Step>, r: ReqId, k: Key, v: Response) {
    && Legal(cfg, start, steps)
    && var t := Exec(cfg, start, steps);
       && r in t.reqs && t.reqs[r].phase == Done(Answer(v)) && |t.log| > 0
       && t.log[|t.log| - 1] == Event(t.now, r, Some(k), Store(v), true)
       && t.cache.LookupAnswer(k, t.now) == Replay(v)
  }

  /** And is served: if the limiter, where there is one, allows the call, the request can go on
      to one send, and a successful one ends it with its 200 stored. */
  lemma {:induction false} FreeKeyIsServed(cfg: Config, start: int, steps: seq<Step>, r: ReqId, k: Key, apiKey: Key,
                                           ok: Response, no: Response)
    requires cfg.Valid() && Legal(cfg, start, steps) && r !in Exec(cfg, start, steps).reqs
    requires var s := Exec(cfg, start, steps);
             && (forall q :: !Holder(s, q, k))
             && !(k in s.cache.lru.entries && s.now < s.cache.lru.entries[k].expires)
             && (s.limiter.Some? ==> s.limiter.value.Allows(apiKey, Seconds(s.now)))
    requires ok.status == 200 && no.status == 429
    ensures var admitted := steps + [Arrive(r, Some(k), apiKey)] + [TryClaim(r)];
            EndsStored(cfg, start, Served(admitted, Exec(cfg, start, steps).now, r, ok, no), r, k, ok)
  {
    hide Exec, Legal, Do, Enabled, Holder, EndsStored, Served, RL.LimiterState.Allows;
    FreeKeyIsAdmitted(cfg, start, steps, r, k, apiKey);
    AdmittedIsServed(cfg, start, steps + [Arrive(r, Some(k), apiKey)] + [TryClaim(r)], r, k, apiKey, ok, no);
  }

  lemma {:induction false} AdmittedIsServed(cfg: Config, start: int, steps: seq<Step>, r: ReqId, k: Key, apiKey: Key,
                                            ok: Response, no: Response)
    requires cfg.Valid() && Legal(cfg, start, steps) && r in Exec(cfg, start, steps).reqs
    requires var s := Exec(cfg, start, steps);
             && s.reqs[r] == Request(Some(k), apiKey, Admitted)
             && (s.limiter.Some? ==> s.limiter.value.Allows(apiKey, Seconds(s.now)))
    requires ok.status == 200 && no.status == 429
    ensures EndsStored(cfg, start, Served(steps, Exec(cfg, start, steps).now, r, ok, no), r, k, ok)
  {
    hide Exec, Legal, Do, Enabled, EndsStored, RL.LimiterState.Allows;
    AdmittedIsDelivered(cfg, start, steps, r, k, apiKey, no);
    var delivered := steps + [PassGate(r, Exec(cfg, start, steps).now, no)] + [StartSend(r)]
                     + [EndSend(r, Accepted, Response(502, [], ""))];
    DeliveredIsStored(cfg, start, delivered, r, k, apiKey, ok);
  }

  lemma {:induction false} AdmittedIsDelivered(cfg: Config, start: int, steps: seq<Step>, r: ReqId, k: Key,
                                               apiKey: Key, no: Response)
    requires Legal(cfg, start, steps) && r in Exec(cfg, start, steps).reqs && no.status == 429
    requires var s := Exec(cfg, start, steps);
             && s.reqs[r] == Request(Some(k), apiKey, Admitted)
             && (s.limiter.Some? ==> s.limiter.value.Allows(apiKey, Seconds(s.now)))
    ensures var more := steps + [PassGate(r, Exec(cfg, start, steps).now, no)] + [StartSend(r)]
                        + [EndSend(r, Accepted, Response(502, [], ""))];
            && Legal(cfg, start, more)
            && r in Exec(cfg, start, more).reqs && Exec(cfg, start, more).reqs[r] == Request(Some(k), apiKey, Delivered)
  {
    hide RL.LimiterState.Allows, RL.LimiterState.AfterAllow, Legal, Exec;
    var a := Exec(cfg, start, steps);
    var gate, end := PassGate(r, a.now, no), EndSend(r, Accepted, Response(502, [], ""));
    LegalStep(cfg, start, steps, gate);
    var b := Do(a, gate);
    assert b.reqs[r] == Request(Some(k), apiKey, Prepared);
    LegalStep(cfg, start, steps + [gate], StartSend(r));
    assert Do(b, StartSend(r)).reqs[r] == Request(Some(k), apiKey, Sending(1));
    LegalStep(cfg, start, steps + [gate] + [StartSend(r)], end);
  }

  lemma {:induction false} DeliveredIsStored(cfg: Config, start: int, steps: seq<Step>, r: ReqId, k: Key, apiKey: Key,
                                             ok: Response)
    requires cfg.Valid() && Legal(cfg, start, steps) && r in Exec(cfg, start, steps).reqs && ok.status == 200
    requires Exec(cfg, start, steps).reqs[r] == Request(Some(k), apiKey, Delivered)
    ensures EndsStored(cfg, start, steps + [WriteSuccess(r, ok)] + [Finalize(r)], r, k, ok)
  {
    hide CacheState.AfterStore, CacheState.LookupAnswer, Legal, Exec;
    LegalStep(cfg, start, steps, WriteSuccess(r, ok));
    var before := steps + [WriteSuccess(r, ok)];
    var e := Do(Exec(cfg, start, steps), WriteSuccess(r, ok));
    assert e.reqs[r] == Request(Some(k), apiKey, Answered(ok));
    LegalStep(cfg, start, before, Finalize(r));
    InvariantHolds(cfg, start, before);
    StoredAnswers(e.cache, k, ok, e.now);
  }

  lemma StoredAnswers(c: CacheState, k: Key, v: Response, now: int)
    requires c.Valid()
    ensures c.AfterStore(k, v, now).LookupAnswer(k, now) == Replay(v)
  {
    AddValues(c.lru, k, Entry(v, now + c.ttl), k);
  }

  // --- Retries ---------------------------------------------------------------------------------

  /** After a send a second one may start if and only if it was the first and failed for a
      transient or rate-limiting reason; any other failure ends in the failure's answer. */
  lemma RetryIff(s: State, r: ReqId, result: SendResult, failure: Response)
    requires Enabled(s, EndSend(r, result, failure))
    ensures var t := Do(s, EndSend(r, result, failure));
            && (Enabled(t, StartSend(r)) <==>
                  s.reqs[r].phase == Sending(1) && (result == Transient || result == RateLimited))
            && (result == Terminal ==> t.reqs[r].phase == Answered(failure) && failure.status == 502)
            && (result == Accepted ==> t.reqs[r].phase == Delivered)
  {
  }
}
