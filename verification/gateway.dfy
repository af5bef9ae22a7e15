/** One api-mode endpoint of core/gateway/handler.go under any number of concurrent
    requests: a transition system whose steps are the mutex-guarded calls of the
    idempotency cache and of the limiter, the transport calls, and the clock. */
module Gateway {
  import opened Wrappers
  import opened Lru
  import opened Idempotency
  import RL = RateLimit
  import TB = TokenBucket

  datatype Config = Config(capacity: nat, ttl: int, rate: Option<TB.Rate>, maxIPs: nat) {
    ghost predicate Valid() {
      && capacity > 0 && ttl > 0 && maxIPs > 0
      && (rate.Some? ==> rate.value.perSec > 0.0 && rate.value.capacity > 0.0)
    }
  }

  type ReqId = nat

  const STATUS_OK := 200
  const STATUS_UNPROCESSABLE := 422
  const STATUS_TOO_MANY := 429
  const STATUS_BAD_GATEWAY := 502

  datatype Outcome = Replayed(response: Response) | Conflict | Answer(response: Response)

  /** Where a request stands between two atomic steps. */
  datatype Phase =
    | Missed                        // Lookup found nothing; the key is not yet claimed
    | Admitted                      // past the idempotency section, holding its key if it has one
    | Prepared                      // past the limiter
    | Sending(attempt: nat)         // inside transport.Send
    | Backoff                       // waiting to retry
    | Delivered                     // Send succeeded; the 200 is not yet written
    | Answered(response: Response)  // response recorded; finalizer pending
    | Done(outcome: Outcome)

  datatype Request = Request(key: Option<Key>, apiKey: Key, phase: Phase)

  /** Between a successful claim and the finalizer. */
  predicate Holding(q: Request) {
    q.key.Some? && !q.phase.Missed? && !q.phase.Done?
  }

  datatype SendResult = Accepted | Transient | RateLimited | Terminal

  datatype What =
    | Looked(answer: LookupResult)
    | Claim(won: bool)
    | Gate(apiKey: Key, stamp: real, ok: bool)
    | SendStart
    | SendEnd(result: SendResult)
    | Store(response: Response)
    | Abandon

  /** `touch`: the event was a hit on, or a store of, the cache entry of its key. */
  datatype Event = Event(at: int, r: ReqId, key: Option<Key>, what: What, touch: bool)

  datatype State = State(
    cfg: Config,
    now: int,
    cache: CacheState,
    limiter: Option<RL.LimiterState>,
    reqs: map<ReqId, Request>,
    log: seq<Event>)

  datatype Step =
    | Arrive(r: ReqId, key: Option<Key>, apiKey: Key)
    | TryClaim(r: ReqId)
    | PassGate(r: ReqId, stamp: int, refusal: Response)
    | Refuse(r: ReqId, response: Response)
    | StartSend(r: ReqId)
    | EndSend(r: ReqId, result: SendResult, failure: Response)
    | GiveUp(r: ReqId, failure: Response)
    | WriteSuccess(r: ReqId, response: Response)
    | Finalize(r: ReqId)
    | Tick(to: int)

  function Init(cfg: Config, start: int): State {
    State(cfg, start, CacheState(Empty(cfg.capacity), {}, cfg.ttl),
          if cfg.rate.Some? then Some(RL.Start(cfg.rate.value, cfg.maxIPs)) else None,
          map[], [])
  }

  function Seconds(ns: int): real {
    ns as real / 1_000_000_000.0
  }

  predicate Cacheable(status: int) {
    status == STATUS_OK || status == STATUS_UNPROCESSABLE
  }

  /** The limiter reads its clock before it takes its lock, so a stamp is any reading up
      to now. A refusal may be any response, recorded or not, of the checks that come
      before Send. After a delivery the handler answers 200: redirects are not allowed
      on api-key endpoints. */
  predicate Enabled(s: State, step: Step) {
    match step
    case Arrive(r, _, _) => r !in s.reqs
    case TryClaim(r) => r in s.reqs && s.reqs[r].phase.Missed? && s.reqs[r].key.Some?
    case PassGate(r, stamp, refusal) =>
      r in s.reqs && s.reqs[r].phase.Admitted? && stamp <= s.now && refusal.status == STATUS_TOO_MANY
    case Refuse(r, _) => r in s.reqs && s.reqs[r].phase.Prepared?
    case StartSend(r) => r in s.reqs && (s.reqs[r].phase.Prepared? || s.reqs[r].phase.Backoff?)
    case EndSend(r, _, failure) =>
      r in s.reqs && s.reqs[r].phase.Sending? && failure.status == STATUS_BAD_GATEWAY
    case GiveUp(r, failure) => r in s.reqs && s.reqs[r].phase.Backoff? && failure.status == STATUS_BAD_GATEWAY
    case WriteSuccess(r, response) => r in s.reqs && s.reqs[r].phase.Delivered? && response.status == STATUS_OK
    case Finalize(r) => r in s.reqs && s.reqs[r].phase.Answered?
    case Tick(to) => to >= s.now
  }

  function Move(s: State, r: ReqId, p: Phase): State
    requires r in s.reqs
  {
    s.(reqs := s.reqs[r := s.reqs[r].(phase := p)])
  }

  function Note(s: State, r: ReqId, what: What, touch: bool): State
    requires r in s.reqs
  {
    s.(log := s.log + [Event(s.now, r, s.reqs[r].key, what, touch)])
  }

  function DoArrive(s: State, r: ReqId, key: Option<Key>, apiKey: Key): State {
    match key
    case None => s.(reqs := s.reqs[r := Request(None, apiKey, Admitted)])
    case Some(k) =>
      var answer := s.cache.LookupAnswer(k, s.now);
      var phase := match answer
        case Replay(v) => Done(Replayed(v))
        case InFlight => Done(Conflict)
        case Miss => Missed;
      var touch := answer.Replay?;
      Note(s.(reqs := s.reqs[r := Request(key, apiKey, phase)], cache := s.cache.AfterLookup(k, s.now)),
           r, Looked(answer), touch)
  }

  function DoClaim(s: State, r: ReqId): State
    requires r in s.reqs && s.reqs[r].key.Some?
  {
    var k := s.reqs[r].key.value;
    var won := s.cache.CanClaim(k, s.now);
    var touch := k !in s.cache.inflight && k in s.cache.lru.entries;
    Note(Move(s.(cache := s.cache.AfterClaim(k, s.now)), r, if won then Admitted else Done(Conflict)),
         r, Claim(won), touch)
  }

  function DoGate(s: State, r: ReqId, stamp: int, refusal: Response): State
    requires r in s.reqs
  {
    if s.limiter.None? then Move(s, r, Prepared)
    else
      var l, a, t := s.limiter.value, s.reqs[r].apiKey, Seconds(stamp);
      var ok := l.Allows(a, t);
      Note(Move(s.(limiter := Some(l.AfterAllow(a, t))), r, if ok then Prepared else Answered(refusal)),
           r, Gate(a, t, ok), false)
  }

  function DoEndSend(s: State, r: ReqId, result: SendResult, failure: Response): State
    requires r in s.reqs && s.reqs[r].phase.Sending?
  {
    var next := match result
      case Accepted => Delivered
      case Terminal => Answered(failure)
      case _ => if s.reqs[r].phase.attempt == 1 then Backoff else Answered(failure);
    Note(Move(s, r, next), r, SendEnd(result), false)
  }

  function DoFinalize(s: State, r: ReqId): State
    requires r in s.reqs && s.reqs[r].phase.Answered?
  {
    var q := s.reqs[r];
    var response := q.phase.response;
    var t := Move(s, r, Done(Answer(response)));
    if q.key.None? then t
    else if Cacheable(response.status) then
      Note(t.(cache := s.cache.AfterStore(q.key.value, response, s.now)), r, Store(response), true)
    else
      Note(t.(cache := s.cache.AfterAbandon(q.key.value)), r, Abandon, false)
  }

  function Do(s: State, step: Step): State
    requires Enabled(s, step)
  {
    match step
    case Arrive(r, key, apiKey) => DoArrive(s, r, key, apiKey)
    case TryClaim(r) => DoClaim(s, r)
    case PassGate(r, stamp, refusal) => DoGate(s, r, stamp, refusal)
    case Refuse(r, response) => Move(s, r, Answered(response))
    case StartSend(r) => Note(Move(s, r, Sending(if s.reqs[r].phase.Prepared? then 1 else 2)), r, SendStart, false)
    case EndSend(r, result, failure) => DoEndSend(s, r, result, failure)
    case GiveUp(r, failure) => Move(s, r, Answered(failure))
    case WriteSuccess(r, response) => Move(s, r, Answered(response))
    case Finalize(r) => DoFinalize(s, r)
    case Tick(to) => s.(now := to)
  }

  // --- Runs -----------------------------------------------------------------------

  /** The state after a run of steps, and whether each step could be taken. */
  function Exec(cfg: Config, start: int, steps: seq<Step>): State
    requires Legal(cfg, start, steps)
    decreases |steps|, 1
  {
    if steps == [] then Init(cfg, start)
    else Do(Exec(cfg, start, steps[..|steps| - 1]), steps[|steps| - 1])
  }

  predicate Legal(cfg: Config, start: int, steps: seq<Step>)
    decreases |steps|, 0
  {
    steps == [] ||
    var pre := steps[..|steps| - 1];
    Legal(cfg, start, pre) && Enabled(Exec(cfg, start, pre), steps[|steps| - 1])
  }
}
