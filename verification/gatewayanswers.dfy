/** What a run answers: each request is told what the events of its own key and limiter say. */
module GatewayAnswers {
  import opened Idempotency
  import opened Gateway
  import RL = RateLimit

  /** Answered v, whether or not the finalizer has run. */
  predicate Told(p: Phase, v: Response) {
    p == Answered(v) || p == Done(Answer(v))
  }

  predicate Refused(p: Phase, status: int) {
    (p.Answered? && p.response.status == status) || (p.Done? && p.outcome.Answer? && p.outcome.response.status == status)
  }

  /** What an event means for the request it is about: a replayed response is what it is
      answered, a key in flight or a lost claim is a conflict, a full limiter, asked for the
      request's own API key at a clock reading not in the future, is a 429, a failure for good
      is a 502, and what is stored is what it was answered. */
  predicate Follows(q: Request, e: Event) {
    && e.key == q.key
    && match e.what
       case Looked(Replay(v)) => q.phase == Done(Replayed(v))
       case Looked(InFlight) => q.phase == Done(Conflict)
       case Claim(won) => won || q.phase == Done(Conflict)
       case Gate(apiKey, stamp, ok) =>
         apiKey == q.apiKey && stamp <= e.at as real / 1_000_000_000.0 && (ok || Refused(q.phase, 429))
       case SendEnd(Terminal) => Refused(q.phase, 502)
       case Store(v) => q.phase == Done(Answer(v)) && v.status in {200, 422}
       case Abandon => q.phase.Done? && q.phase.outcome.Answer? && q.phase.outcome.response.status !in {200, 422}
       case _ => true
  }

  ghost predicate AllFollow(s: State) {
    forall e <- s.log :: e.r in s.reqs && Follows(s.reqs[e.r], e)
  }

  /** A request keeps its keys, and its answer once it has one. */
  predicate Settled(p: Request, q: Request) {
    && q.key == p.key && q.apiKey == p.apiKey
    && (p.phase.Done? ==> q.phase == p.phase)
    && (p.phase.Answered? ==> Told(q.phase, p.phase.response))
  }

  lemma StepSettles(s: State, step: Step, r: ReqId)
    requires Enabled(s, step) && r in s.reqs
    ensures r in Do(s, step).reqs && Settled(s.reqs[r], Do(s, step).reqs[r])
  {
    hide RL.LimiterState.Allows, RL.LimiterState.AfterAllow;
    hide CacheState.AfterLookup, CacheState.AfterClaim, CacheState.AfterStore, CacheState.CanClaim, CacheState.LookupAnswer;
  }

  lemma StillFollows(p: Request, q: Request, e: Event)
    requires Settled(p, q) && Follows(p, e)
    ensures Follows(q, e)
  {
  }

  /** The event a step logs, if any, follows at once. */
  lemma NewFollows(s: State, step: Step)
    requires Enabled(s, step)
    ensures var t := Do(s, step);
            t.log == s.log || (|t.log| == |s.log| + 1 && t.log == s.log + [t.log[|s.log|]]
                               && var e := t.log[|s.log|]; e.r in t.reqs && Follows(t.reqs[e.r], e))
  {
    hide RL.LimiterState.Allows, RL.LimiterState.AfterAllow;
    hide CacheState.AfterLookup, CacheState.AfterClaim, CacheState.AfterStore, CacheState.CanClaim, CacheState.LookupAnswer;
  }

  lemma AllFollowKept(s: State, step: Step)
    requires Enabled(s, step) && AllFollow(s)
    ensures AllFollow(Do(s, step))
  {
    hide Do, Enabled, Follows, Settled;
    var t := Do(s, step);
    NewFollows(s, step);
    forall e | e in t.log ensures e.r in t.reqs && Follows(t.reqs[e.r], e) {
      if e in s.log {
        StepSettles(s, step, e.r);
        StillFollows(s.reqs[e.r], t.reqs[e.r], e);
      }
    }
  }

  /** In every run every answer follows from the events. */
  lemma {:induction false} AnswersFollow(cfg: Config, start: int, steps: seq<Step>)
    requires Legal(cfg, start, steps)
    ensures AllFollow(Exec(cfg, start, steps))
  {
    hide Do, Enabled;
    if steps != [] {
      AnswersFollow(cfg, start, steps[..|steps| - 1]);
      AllFollowKept(Exec(cfg, start, steps[..|steps| - 1]), steps[|steps| - 1]);
    }
  }
}
