/** Per-request accounting over every run of the gateway, and the bound on transport
    sends that the limiter's verdicts give. */
module GatewayBounds {
  import opened Wrappers
  import opened Lru
  import opened Idempotency
  import opened Gateway
  import RL = RateLimit

  datatype Kind = Claims | Releases | Gates | Passes | Starts | SoftFailures | Stores

  predicate IsA(e: Event, kind: Kind) {
    match kind
    case Claims => e.what == Claim(true)
    case Releases => e.what.Store? || e.what.Abandon?
    case Gates => e.what.Gate?
    case Passes => e.what.Gate? && e.what.ok
    case Starts => e.what.SendStart?
    case SoftFailures => e.what == SendEnd(Transient) || e.what == SendEnd(RateLimited)
    case Stores => e.what.Store?
  }

  /** How many events of one kind request r has in the log. */
  function Count(log: seq<Event>, r: ReqId, kind: Kind): nat {
    if log == [] then 0
    else
      var e := log[|log| - 1];
      Count(log[..|log| - 1], r, kind) + if e.r == r && IsA(e, kind) then 1 else 0
  }

  lemma {:induction false} CountAppend(log: seq<Event>, e: Event, r: ReqId, kind: Kind)
    ensures Count(log + [e], r, kind) == Count(log, r, kind) + if e.r == r && IsA(e, kind) then 1 else 0
  {
    assert (log + [e])[..|log|] == log;
  }

  /** Turned away by the idempotency section. */
  predicate TurnedAway(p: Phase) {
    p.Done? && !p.outcome.Answer?
  }

  predicate BeforeGate(p: Phase) {
    p.Missed? || p.Admitted? || TurnedAway(p)
  }

  /** The life of one request: from which phase to which, and what that logs. */
  predicate PhaseStep(keyed: bool, limited: bool, p: Phase, q: Phase, what: Option<What>) {
    match p
    case Missed => keyed && ((q.Admitted? && what == Some(Claim(true))) || (q == Done(Conflict) && what == Some(Claim(false))))
    case Admitted =>
      if !limited then q.Prepared? && what.None?
      else what.Some? && what.value.Gate? && (if what.value.ok then q.Prepared? else q.Answered?)
    case Prepared => (q == Sending(1) && what == Some(SendStart)) || (q.Answered? && what.None?)
    case Sending(n) =>
      && what.Some? && what.value.SendEnd?
      && (match what.value.result
          case Accepted => q.Delivered?
          case Terminal => q.Answered?
          case _ => if n == 1 then q.Backoff? else q.Answered?)
    case Backoff => (q == Sending(2) && what == Some(SendStart)) || (q.Answered? && what.None?)
    case Delivered => q.Answered? && what.None?
    case Answered(v) =>
      && q == Done(Answer(v))
      && (if !keyed then what.None?
          else if v.status == 200 || v.status == 422 then what == Some(Store(v))
          else what == Some(Abandon))
    case Done(_) => false
  }

  /** The phases a request may arrive in. */
  predicate ArrivalPhase(keyed: bool, q: Phase, what: Option<What>) {
    if keyed then (q.Missed? || TurnedAway(q)) && what.Some? && what.value.Looked?
    else q.Admitted? && what.None?
  }

  /** What a step logs about request r. */
  function Noted(s: State, step: Step, r: ReqId): Option<What>
    requires Enabled(s, step)
  {
    var t := Do(s, step);
    if |t.log| > |s.log| && t.log[|s.log|].r == r then Some(t.log[|s.log|].what) else None
  }

  lemma {:induction false} StepCounts(s: State, step: Step, r: ReqId, kind: Kind)
    requires Enabled(s, step)
    ensures var what := Noted(s, step, r);
            Count(Do(s, step).log, r, kind) ==
              Count(s.log, r, kind) + if what.Some? && IsA(Event(0, r, None, what.value, false), kind) then 1 else 0
  {
    hide RL.LimiterState.Allows, RL.LimiterState.AfterAllow, Count;
    var t := Do(s, step);
    if t.log != s.log {
      var e := t.log[|s.log|];
      assert t.log == s.log + [e];
      CountAppend(s.log, e, r, kind);
    }
  }

  /** A step moves one request along its life and logs just that. */
  ghost predicate MovesAlong(s: State, t: State, r: ReqId, what: Option<What>) {
    if r !in t.reqs then r !in s.reqs && what.None?
    else if r !in s.reqs then ArrivalPhase(t.reqs[r].key.Some?, t.reqs[r].phase, what)
    else if t.reqs[r] == s.reqs[r] then what.None?
    else
      && t.reqs[r].key == s.reqs[r].key
      && PhaseStep(s.reqs[r].key.Some?, s.limiter.Some?, s.reqs[r].phase, t.reqs[r].phase, what)
  }

  lemma StepMoves(s: State, step: Step, r: ReqId)
    requires Enabled(s, step)
    ensures MovesAlong(s, Do(s, step), r, Noted(s, step, r))
    ensures Do(s, step).limiter.Some? == s.limiter.Some?
  {
    hide RL.LimiterState.Allows, RL.LimiterState.AfterAllow;
    hide CacheState.AfterLookup, CacheState.AfterClaim, CacheState.AfterStore, CacheState.CanClaim;
    match step
    case Tick(_) =>
    case _ =>
      if r != step.r {
      }
  }

  /** Every claim is released once, by the finalizer and not before, which stores exactly a 200
      or a 422; a request meets the limiter once, unless a replay or a conflict ends it first;
      it starts at most two sends, the second only after a transient or rate-limited failure,
      and under a limiter none unless it passed. */
  ghost predicate Ledger(s: State, r: ReqId) {
    var starts, gates, passes := Count(s.log, r, Starts), Count(s.log, r, Gates), Count(s.log, r, Passes);
    if r !in s.reqs then
      && Count(s.log, r, Claims) == Count(s.log, r, Releases) == Count(s.log, r, Stores) == 0
      && starts == gates == passes == Count(s.log, r, SoftFailures) == 0
    else
      var q, p := s.reqs[r], s.reqs[r].phase;
      && Count(s.log, r, Claims) == (if q.key.Some? && !p.Missed? && !TurnedAway(p) then 1 else 0)
      && Count(s.log, r, Releases) == (if q.key.Some? && p.Done? && !TurnedAway(p) then 1 else 0)
      && Count(s.log, r, Stores) == (if q.key.Some? && p.Done? && p.outcome.Answer? && Kept(p.outcome.response) then 1 else 0)
      && starts <= 1 + Count(s.log, r, SoftFailures)
      && gates == (if s.limiter.Some? && !BeforeGate(p) then 1 else 0)
      && passes <= gates
      && (s.limiter.Some? ==> starts <= 2 * passes)
      && (s.limiter.Some? && (p.Prepared? || p.Sending? || p.Backoff?) ==> passes == 1)
      && match p
         case Sending(attempt) => starts == attempt && 1 <= attempt <= 2 && Count(s.log, r, SoftFailures) == attempt - 1
         case Backoff => starts == 1 && Count(s.log, r, SoftFailures) == 1
         case Prepared => starts == 0 && Count(s.log, r, SoftFailures) == 0
         case _ => if BeforeGate(p) then starts == 0 && Count(s.log, r, SoftFailures) == 0 else starts <= 2
  }

  /** A response the finalizer keeps for replay. */
  predicate Kept(v: Response) {
    v.status == 200 || v.status == 422
  }

  lemma LedgerKept(s: State, step: Step, r: ReqId)
    requires Enabled(s, step) && Ledger(s, r)
    ensures Ledger(Do(s, step), r)
  {
    hide Do, Enabled, Noted, Count;
    StepMoves(s, step, r);
    StepCounts(s, step, r, Claims);
    StepCounts(s, step, r, Releases);
    StepCounts(s, step, r, Gates);
    StepCounts(s, step, r, Passes);
    StepCounts(s, step, r, Starts);
    StepCounts(s, step, r, SoftFailures);
    StepCounts(s, step, r, Stores);
  }

  lemma {:induction false} LedgerHolds(cfg: Config, start: int, steps: seq<Step>, r: ReqId)
    requires Legal(cfg, start, steps)
    ensures Ledger(Exec(cfg, start, steps), r)
  {
    if steps == [] {
    } else {
      var pre, step := steps[..|steps| - 1], steps[|steps| - 1];
      var s := Exec(cfg, start, pre);
      LedgerHolds(cfg, start, pre, r);
      LedgerKept(s, step, r);
    }
  }

  /** In every run: a finished request has released its claim exactly once and any other
      request holds at most one unreleased claim; it has stored a response exactly if it was
      answered 200 or 422; replays and conflicts never reach the limiter or the transport; and a
      second send starts only after a transient or rate-limited failure. */
  lemma {:induction false} RequestsAccounted(cfg: Config, start: int, steps: seq<Step>, r: ReqId)
    requires Legal(cfg, start, steps) && r in Exec(cfg, start, steps).reqs
    ensures var s := Exec(cfg, start, steps);
            var log, q := s.log, s.reqs[r];
            && Count(log, r, Claims) <= 1
            && Count(log, r, Claims) - Count(log, r, Releases) == (if Holding(q) then 1 else 0)
            && (TurnedAway(q.phase) ==> Count(log, r, Gates) == Count(log, r, Starts) == 0)
            && Count(log, r, Starts) <= 2 && Count(log, r, Starts) <= 1 + Count(log, r, SoftFailures)
            && Count(log, r, Stores)
               == (if q.key.Some? && (exists v :: q.phase == Done(Answer(v)) && v.status in {200, 422}) then 1 else 0)
            && (s.limiter.Some? ==> Count(log, r, Gates) <= 1 && Count(log, r, Starts) <= 2 * Count(log, r, Passes))
  {
    LedgerHolds(cfg, start, steps, r);
  }

  // --- The limiter inside the run ---------------------------------------------------------

  /** The limiter calls of a log, in the order they took the lock. */
  ghost function Calls(log: seq<Event>): seq<RL.Stamp> {
    if log == [] then []
    else
      var e := log[|log| - 1];
      Calls(log[..|log| - 1]) + if e.what.Gate? then [RL.Stamp(e.what.apiKey, e.what.stamp)] else []
  }

  lemma {:induction false} CallsAppend(log: seq<Event>, e: Event)
    ensures Calls(log + [e]) ==
            if e.what.Gate? then Calls(log) + [RL.Stamp(e.what.apiKey, e.what.stamp)] else Calls(log)
  {
    assert (log + [e])[..|log|] == log;
  }

  /** A logged verdict is the limiter's on the calls logged up to it. */
  ghost predicate VerdictLogged(cfg: Config, log: seq<Event>, j: nat)
    requires j < |log|
  {
    cfg.rate.Some? && log[j].what.Gate? ==>
      var calls := Calls(log[..j + 1]);
      calls != [] && log[j].what.ok == RL.Allowed(cfg.rate.value, cfg.maxIPs, calls)
  }

  ghost predicate VerdictsLogged(cfg: Config, log: seq<Event>) {
    forall j: nat | j < |log| :: VerdictLogged(cfg, log, j)
  }

  ghost predicate LimiterLogged(s: State) {
    && s.limiter.Some? == s.cfg.rate.Some?
    && (s.limiter.Some? ==> s.limiter.value == RL.Run(s.cfg.rate.value, s.cfg.maxIPs, Calls(s.log)))
  }

  /** What a limiter step logs, and nothing else touches the limiter. */
  lemma GateStep(s: State, step: Step)
    requires Enabled(s, step)
    ensures var t := Do(s, step);
            t.cfg == s.cfg &&
            if step.PassGate? && s.limiter.Some? then
              var a, at := s.reqs[step.r].apiKey, Seconds(step.stamp);
              && t.limiter == Some(s.limiter.value.AfterAllow(a, at))
              && t.log == s.log + [Event(s.now, step.r, s.reqs[step.r].key, Gate(a, at, s.limiter.value.Allows(a, at)), false)]
            else t.limiter == s.limiter && (t.log == s.log || exists e: Event :: !e.what.Gate? && t.log == s.log + [e])
  {
    hide RL.LimiterState.Allows, RL.LimiterState.AfterAllow;
    hide CacheState.AfterLookup, CacheState.AfterClaim, CacheState.AfterStore;
    var t := Do(s, step);
    if t.log != s.log {
      assert t.log == s.log + [t.log[|s.log|]];
    }
  }

  lemma LimiterLoggedKept(s: State, step: Step)
    requires Enabled(s, step) && LimiterLogged(s) && VerdictsLogged(s.cfg, s.log)
    ensures LimiterLogged(Do(s, step)) && VerdictsLogged(s.cfg, Do(s, step).log)
  {
    hide RL.LimiterState.Allows, RL.LimiterState.AfterAllow, RL.Run, RL.Allowed, Do, Calls;
    var t := Do(s, step);
    GateStep(s, step);
    if step.PassGate? && s.limiter.Some? {
      var e := t.log[|s.log|];
      CallsAppend(s.log, e);
      RL.RunAppend(s.cfg.rate.value, s.cfg.maxIPs, Calls(s.log), RL.Stamp(e.what.apiKey, e.what.stamp));
      VerdictsAppend(s.cfg, s.log, e);
    } else if t.log != s.log {
      var e: Event :| !e.what.Gate? && t.log == s.log + [e];
      CallsAppend(s.log, e);
      VerdictsAppend(s.cfg, s.log, e);
    }
  }

  lemma {:induction false} VerdictsAppend(cfg: Config, log: seq<Event>, e: Event)
    requires VerdictsLogged(cfg, log)
    requires cfg.rate.Some? && e.what.Gate? ==>
               Calls(log + [e]) != [] && e.what.ok == RL.Allowed(cfg.rate.value, cfg.maxIPs, Calls(log + [e]))
    ensures VerdictsLogged(cfg, log + [e])
  {
    hide RL.Allowed, Calls;
    forall j: nat | j < |log + [e]| ensures VerdictLogged(cfg, log + [e], j) {
      if j < |log| {
        assert VerdictLogged(cfg, log, j);
        assert (log + [e])[..j + 1] == log[..j + 1];
      } else {
        assert (log + [e])[..j + 1] == log + [e];
      }
    }
  }

  lemma {:induction false} LimiterHolds(cfg: Config, start: int, steps: seq<Step>)
    requires Legal(cfg, start, steps)
    ensures LimiterLogged(Exec(cfg, start, steps)) && VerdictsLogged(cfg, Exec(cfg, start, steps).log)
    ensures Exec(cfg, start, steps).cfg == cfg
  {
    hide Do, Enabled;
    if steps == [] {
    } else {
      var pre, step := steps[..|steps| - 1], steps[|steps| - 1];
      LimiterHolds(cfg, start, pre);
      GateStep(Exec(cfg, start, pre), step);
      LimiterLoggedKept(Exec(cfg, start, pre), step);
    }
  }

  // --- Sends on behalf of the calls a window lets pass --------------------------------------

  predicate PassesFor(e: Event, a: Key) {
    IsA(e, Passes) && e.what.apiKey == a
  }

  /** The limiter calls for key a in log[x..] that pass. */
  function PassCount(log: seq<Event>, x: nat, a: Key): nat
    requires x <= |log|
  {
    if x == |log| then 0
    else PassCount(log[..|log| - 1], x, a) + if PassesFor(log[|log| - 1], a) then 1 else 0
  }

  /** The requests they belong to. */
  function PassedFrom(log: seq<Event>, x: nat, a: Key): set<ReqId>
    requires x <= |log|
  {
    set j | x <= j < |log| && PassesFor(log[j], a) :: log[j].r
  }

  function SendsOf(log: seq<Event>, who: set<ReqId>): nat {
    if log == [] then 0
    else SendsOf(log[..|log| - 1], who) + if IsA(log[|log| - 1], Starts) && log[|log| - 1].r in who then 1 else 0
  }

  lemma {:induction false} PassedAtMostCount(log: seq<Event>, x: nat, a: Key)
    requires x <= |log|
    ensures |PassedFrom(log, x, a)| <= PassCount(log, x, a)
  {
    if x < |log| {
      var pre, e := log[..|log| - 1], log[|log| - 1];
      PassedAtMostCount(pre, x, a);
      assert PassedFrom(log, x, a) == PassedFrom(pre, x, a) + if PassesFor(e, a) then {e.r} else {} by {
        forall j | x <= j < |pre| ensures pre[j] == log[j] {
        }
        forall r | r in PassedFrom(log, x, a) ensures r in PassedFrom(pre, x, a) || (PassesFor(e, a) && r == e.r) {
          var j :| x <= j < |log| && PassesFor(log[j], a) && log[j].r == r;
          assert j < |pre| ==> PassesFor(pre[j], a);
        }
        forall r | r in PassedFrom(pre, x, a) ensures r in PassedFrom(log, x, a) {
          var j :| x <= j < |pre| && PassesFor(pre[j], a) && pre[j].r == r;
          assert PassesFor(log[j], a);
        }
      }
    }
  }

  lemma {:induction false} SendsSplit(log: seq<Event>, who: set<ReqId>, r: ReqId)
    requires r in who
    ensures SendsOf(log, who) == SendsOf(log, who - {r}) + Count(log, r, Starts)
  {
    if log != [] {
      SendsSplit(log[..|log| - 1], who, r);
    }
  }

  lemma {:induction false} SendsAtMostTwice(log: seq<Event>, who: set<ReqId>)
    requires forall r <- who :: Count(log, r, Starts) <= 2
    ensures SendsOf(log, who) <= 2 * |who|
  {
    if who == {} {
      NobodySends(log);
    } else {
      var r :| r in who;
      SendsSplit(log, who, r);
      SendsAtMostTwice(log, who - {r});
    }
  }

  lemma {:induction false} NobodySends(log: seq<Event>)
    ensures SendsOf(log, {}) == 0
  {
    if log != [] {
      NobodySends(log[..|log| - 1]);
    }
  }

  lemma {:induction false} LastVerdict(cfg: Config, log: seq<Event>)
    requires cfg.rate.Some? && VerdictsLogged(cfg, log) && log != [] && log[|log| - 1].what.Gate?
    ensures Calls(log) != [] && log[|log| - 1].what.ok == RL.Allowed(cfg.rate.value, cfg.maxIPs, Calls(log))
  {
    hide RL.Allowed, Calls;
    var n := |log| - 1;
    assert VerdictLogged(cfg, log, n) && log[..n + 1] == log;
  }

  /** Passing events are allowed calls: the log's window is a window of the limiter's run. */
  lemma {:induction false} PassesAreAllowed(cfg: Config, log: seq<Event>, x: nat, a: Key)
    requires cfg.rate.Some? && x <= |log| && VerdictsLogged(cfg, log)
    ensures |Calls(log[..x])| <= |Calls(log)|
    ensures PassCount(log, x, a) == RL.AllowedSince(cfg.rate.value, cfg.maxIPs, Calls(log), |Calls(log[..x])|, a)
  {
    hide RL.Allowed, Calls, VerdictsLogged, VerdictLogged;
    if x == |log| {
      assert log[..x] == log;
    } else {
      var n := |log| - 1;
      var pre, e := log[..n], log[n];
      VerdictsOfPrefix(cfg, log, n);
      PassesAreAllowed(cfg, pre, x, a);
      assert pre[..x] == log[..x] && log == pre + [e];
      CallsAppend(pre, e);
      if e.what.Gate? {
        LastVerdict(cfg, log);
        assert Calls(log)[..|Calls(pre)|] == Calls(pre);
      }
    }
  }

  lemma {:induction false} CallsSplit(log: seq<Event>, x: nat)
    requires x <= |log|
    ensures Calls(log) == Calls(log[..x]) + Calls(log[x..])
  {
    if x == |log| {
      assert log[..x] == log;
    } else {
      var pre := log[..|log| - 1];
      CallsSplit(pre, x);
      assert pre[..x] == log[..x] && log[x..][..|log| - 1 - x] == pre[x..];
    }
  }

  lemma {:induction false} WindowPasses(cfg: Config, cut: seq<Event>, x: nat, a: Key, lo: real, hi: real)
    requires cfg.Valid() && cfg.rate.Some? && x <= |cut| && lo <= hi && VerdictsLogged(cfg, cut)
    requires RL.UncrowdedSince(Calls(cut), |Calls(cut[..x])|, a, cfg.maxIPs)
    requires forall c <- Calls(cut[x..]) | c.ip == a :: lo <= c.at <= hi
    ensures PassCount(cut, x, a) as real <= cfg.rate.value.capacity + (hi - lo) * cfg.rate.value.perSec
  {
    hide Calls, PassCount, RL.AllowedSince, RL.UncrowdedSince, VerdictsLogged;
    CallsSplit(cut, x);
    var calls, n := Calls(cut), |Calls(cut[..x])|;
    forall j | n <= j < |calls| && calls[j].ip == a ensures lo <= calls[j].at <= hi {
      assert calls[j] == Calls(cut[x..])[j - n];
      assert calls[j] in Calls(cut[x..]);
    }
    PassesAreAllowed(cfg, cut, x, a);
    RL.LimiterWindowBound(cfg.rate.value, cfg.maxIPs, calls, n, a, lo, hi);
  }

  /** The end-to-end bound, over every run and whatever order the limiter's stamps come
      in: cut the run's log at y and take any window log[x..y] in which key a's bucket is
      not evicted between uses, and whose stamps for a span [lo, hi]. It passes at most
      capacity + perSec * (hi - lo) requests of a, and those requests start, over the
      whole run, at most twice that many sends. */
  lemma {:induction false} SendBound(cfg: Config, start: int, steps: seq<Step>, x: nat, y: nat, a: Key, lo: real, hi: real)
    requires cfg.Valid() && cfg.rate.Some? && Legal(cfg, start, steps)
    requires x <= y <= |Exec(cfg, start, steps).log| && lo <= hi
    requires var cut := Exec(cfg, start, steps).log[..y];
             && RL.UncrowdedSince(Calls(cut), |Calls(cut[..x])|, a, cfg.maxIPs)
             && forall c <- Calls(cut[x..]) | c.ip == a :: lo <= c.at <= hi
    ensures var log := Exec(cfg, start, steps).log;
            var allowance := cfg.rate.value.capacity + (hi - lo) * cfg.rate.value.perSec;
            && PassCount(log[..y], x, a) as real <= allowance
            && SendsOf(log, PassedFrom(log[..y], x, a)) as real <= 2.0 * allowance
  {
    hide Exec, Legal, Calls, PassCount, SendsOf, PassedFrom, RL.UncrowdedSince;
    var log := Exec(cfg, start, steps).log;
    var cut := log[..y];
    LimiterHolds(cfg, start, steps);
    VerdictsOfPrefix(cfg, log, y);
    WindowPasses(cfg, cut, x, a, lo, hi);
    PassedAtMostCount(cut, x, a);
    forall r | r in PassedFrom(cut, x, a) ensures Count(log, r, Starts) <= 2 {
      StartsAtMostTwo(cfg, start, steps, r);
    }
    SendsAtMostTwice(log, PassedFrom(cut, x, a));
  }

  lemma {:induction false} StartsAtMostTwo(cfg: Config, start: int, steps: seq<Step>, r: ReqId)
    requires Legal(cfg, start, steps)
    ensures Count(Exec(cfg, start, steps).log, r, Starts) <= 2
  {
    hide Exec, Legal, Count;
    LedgerHolds(cfg, start, steps, r);
  }

  lemma VerdictsOfPrefix(cfg: Config, log: seq<Event>, y: nat)
    requires y <= |log| && VerdictsLogged(cfg, log)
    ensures VerdictsLogged(cfg, log[..y])
  {
    forall j: nat | j < y ensures VerdictLogged(cfg, log[..y], j) {
      assert VerdictLogged(cfg, log, j) && log[..y][..j + 1] == log[..j + 1];
    }
  }
}
