/** core/ratelimit/ratelimit.go: the limiter, one token bucket per key inside a
    bounded LRU map, related to independent buckets over the plain call history. */
module RateLimit {
  import opened Sequences
  import opened Lru
  import opened TokenBucket

  const DEFAULT_MAX_IPS := 10_000

  datatype LimiterState = LimiterState(rate: Rate, buckets: Lru<Bucket>) {
    ghost predicate Valid() {
      rate.perSec > 0.0 && rate.capacity > 0.0 && buckets.Valid()
    }

    /** The bucket a call for ip finds: its own, or a full one if it is not resident. */
    function Found(ip: Key, now: real): Bucket {
      if ip in buckets.entries then buckets.entries[ip] else Bucket(rate.capacity, now)
    }

    predicate Allows(ip: Key, now: real) {
      Call(rate, Found(ip, now), now).1
    }

    function AfterAllow(ip: Key, now: real): LimiterState {
      this.(buckets := buckets.Add(ip, Call(rate, Found(ip, now), now).0))
    }
  }

  class Limiter {
    const capacity: real
    const refillPerSec: real
    var buckets: Lru<Bucket>

    ghost predicate Valid()
      reads this
    {
      State().Valid()
    }

    ghost function State(): LimiterState
      reads this
    {
      LimiterState(Rate(capacity, refillPerSec), buckets)
    }

    constructor (capacity: real, refillPerSec: real, maxIPs: nat)
      requires capacity > 0.0 && refillPerSec > 0.0 && maxIPs > 0
      ensures Valid()
      ensures State() == LimiterState(Rate(capacity, refillPerSec), Empty(maxIPs))
    {
      this.capacity, this.refillPerSec := capacity, refillPerSec;
      this.buckets := Empty(maxIPs);
    }

    /** `interval` in seconds. A non-positive count or interval is an error; a
        non-positive maxIPs means the default. */
    static method New(count: int, interval: real, maxIPs: int) returns (l: Limiter?)
      ensures l == null <==> count <= 0 || interval <= 0.0
      ensures l != null ==> fresh(l) && l.Valid()
      ensures l != null ==>
                && l.State().rate == Rate(count as real, count as real / interval)
                && l.State().buckets == Empty(if maxIPs <= 0 then 10_000 else maxIPs)
    {
      if count <= 0 || interval <= 0.0 {
        return null;
      }
      l := new Limiter(count as real, count as real / interval, if maxIPs <= 0 then DEFAULT_MAX_IPS else maxIPs);
    }

    method AllowAt(clientIP: Key, now: real) returns (ok: bool)
      requires Valid()
      modifies this`buckets
      ensures Valid()
      ensures ok == old(State()).Allows(clientIP, now)
      ensures State() == old(State()).AfterAllow(clientIP, now)
    {
      hide NoDup, Elements, Without, Accrued;
      var tokens, last;
      if clientIP in buckets.entries {
        tokens, last := buckets.entries[clientIP].tokens, buckets.entries[clientIP].last;
        buckets := buckets.Touch(clientIP);
      } else {
        tokens, last := capacity, now;
        buckets := buckets.Add(clientIP, Bucket(tokens, last));
      }
      var elapsed := now - last;
      AccruedIs(State().rate, last, now, elapsed, refillPerSec);
      if elapsed > 0.0 {
        tokens := Min(capacity, tokens + elapsed * refillPerSec);
        last := now;
      }
      ok := tokens >= 1.0;
      if ok {
        tokens := tokens - 1.0;
      }
      assert Bucket(tokens, last) == Call(old(State()).rate, old(State()).Found(clientIP, now), now).0;
      buckets := buckets.Overwrite(clientIP, Bucket(tokens, last));
      WriteBack(old(buckets), clientIP, Bucket(capacity, now), Bucket(tokens, last));
    }
  }

  /** The program holds the time between calls to the longest duration. A limiter's interval is
      a duration too, so the held time already fills the bucket: the limit never shows. */
  lemma HeldElapsedRefillsTheSame(count: real, interval: real, longest: real, tokens: real, elapsed: real)
    requires count > 0.0 && 0.0 < interval <= longest < elapsed && tokens >= 0.0
    ensures Min(count, tokens + longest * (count / interval)) == Min(count, tokens + elapsed * (count / interval))
  {
    var perSec := count / interval;
    assert interval * perSec == count;
    Scales(interval, longest, perSec);
    Scales(interval, elapsed, perSec);
  }

  lemma Scales(a: real, b: real, c: real)
    requires a <= b && c > 0.0
    ensures a * c <= b * c
  {
  }

  /** Get or Add, then writing the bucket through its pointer, is one Add of the result. */
  lemma WriteBack(l: Lru<Bucket>, k: Key, full: Bucket, b: Bucket)
    requires l.Valid()
    ensures (if k in l.entries then l.Touch(k) else l.Add(k, full)).Overwrite(k, b) == l.Add(k, b)
    ensures l.Add(k, b).Valid()
  {
    AddIsAddThenOverwrite(l, k, full, b);
    OpsValid(l, k, b);
  }

  // --- Runs ---------------------------------------------------------------------

  datatype Stamp = Stamp(ip: Key, at: real)

  function Start(r: Rate, maxIPs: nat): LimiterState {
    LimiterState(r, Empty(maxIPs))
  }

  function Run(r: Rate, maxIPs: nat, calls: seq<Stamp>): LimiterState {
    if calls == [] then Start(r, maxIPs)
    else Run(r, maxIPs, calls[..|calls| - 1]).AfterAllow(calls[|calls| - 1].ip, calls[|calls| - 1].at)
  }

  /** Is the last call of the run allowed? */
  predicate Allowed(r: Rate, maxIPs: nat, calls: seq<Stamp>)
    requires |calls| > 0
  {
    Run(r, maxIPs, calls[..|calls| - 1]).Allows(calls[|calls| - 1].ip, calls[|calls| - 1].at)
  }

  lemma {:induction false} RunAppend(r: Rate, maxIPs: nat, calls: seq<Stamp>, c: Stamp)
    ensures Run(r, maxIPs, calls + [c]) == Run(r, maxIPs, calls).AfterAllow(c.ip, c.at)
    ensures Allowed(r, maxIPs, calls + [c]) == Run(r, maxIPs, calls).Allows(c.ip, c.at)
  {
    assert (calls + [c])[..|calls|] == calls;
  }

  function Ips(calls: seq<Stamp>): seq<Key> {
    seq(|calls|, i requires 0 <= i < |calls| => calls[i].ip)
  }

  /** The stamps of the calls for ip. */
  function TimesOf(calls: seq<Stamp>, ip: Key): seq<real> {
    if calls == [] then []
    else TimesOf(calls[..|calls| - 1], ip) +
         if calls[|calls| - 1].ip == ip then [calls[|calls| - 1].at] else []
  }

  /** At least maxIPs distinct other keys were used since the last use of ip. */
  ghost predicate Crowded(calls: seq<Stamp>, ip: Key, maxIPs: nat) {
    |UsedSince(Ips(calls), ip)| >= maxIPs
  }

  /** The stamps of the calls for ip since its bucket last started full: its first use,
      or a use that came after maxIPs other keys. */
  ghost function Epoch(calls: seq<Stamp>, ip: Key, maxIPs: nat): seq<real> {
    if calls == [] then []
    else
      var pre, last := calls[..|calls| - 1], calls[|calls| - 1];
      if last.ip != ip then Epoch(pre, ip, maxIPs)
      else if Crowded(pre, ip, maxIPs) then [last.at]
      else Epoch(pre, ip, maxIPs) + [last.at]
  }

  lemma IpsAppend(calls: seq<Stamp>)
    requires |calls| > 0
    ensures Ips(calls) == Ips(calls[..|calls| - 1]) + [calls[|calls| - 1].ip]
  {
  }

  /** After any run, the resident keys are exactly those with fewer than maxIPs distinct
      other keys used since their last use. */
  lemma {:induction false} RunExact(r: Rate, maxIPs: nat, calls: seq<Stamp>)
    requires maxIPs > 0
    ensures Exact(Run(r, maxIPs, calls).buckets, Ips(calls))
    ensures Run(r, maxIPs, calls).buckets.capacity == maxIPs
    ensures Run(r, maxIPs, calls).rate == r
  {
    if calls == [] {
    } else {
      var pre, last := calls[..|calls| - 1], calls[|calls| - 1];
      RunExact(r, maxIPs, pre);
      IpsAppend(calls);
      var s := Run(r, maxIPs, pre);
      ExactAdd(s.buckets, Ips(pre), last.ip, Call(r, s.Found(last.ip, last.at), last.at).0);
    }
  }

  /** A resident key's bucket is the one its own epoch leaves, untouched by other keys. */
  lemma {:induction false} ResidentBucket(r: Rate, maxIPs: nat, calls: seq<Stamp>, ip: Key)
    requires maxIPs > 0
    ensures ip in Run(r, maxIPs, calls).buckets.entries ==>
              && Epoch(calls, ip, maxIPs) != []
              && Run(r, maxIPs, calls).buckets.entries[ip] == After(r, Epoch(calls, ip, maxIPs))
    decreases |calls|, 2
  {
    if calls == [] {
    } else {
      var pre, last := calls[..|calls| - 1], calls[|calls| - 1];
      ResidentBucket(r, maxIPs, pre, ip);
      RunExact(r, maxIPs, pre);
      var s := Run(r, maxIPs, pre);
      AddValues(s.buckets, last.ip, Call(r, s.Found(last.ip, last.at), last.at).0, ip);
      if last.ip == ip {
        FoundBucket(r, maxIPs, calls);
      }
    }
  }

  /** The bucket a call finds is the one its epoch prescribes. */
  lemma FoundBucket(r: Rate, maxIPs: nat, calls: seq<Stamp>)
    requires maxIPs > 0 && |calls| > 0
    ensures var pre, last := calls[..|calls| - 1], calls[|calls| - 1];
            var e := Epoch(calls, last.ip, maxIPs);
            e != [] && e[|e| - 1] == last.at && Run(r, maxIPs, pre).Found(last.ip, last.at) == Before(r, e)
    decreases |calls|, 1
  {
    var pre, last := calls[..|calls| - 1], calls[|calls| - 1];
    RunExact(r, maxIPs, pre);
    var s := Run(r, maxIPs, pre);
    if last.ip in Ips(pre) {
      ResidentIffRecent(s.buckets, Ips(pre), last.ip);
      ResidentBucket(r, maxIPs, pre, last.ip);
    } else {
      NoEpochBeforeUse(pre, last.ip, maxIPs);
    }
    if last.ip in s.buckets.entries {
      var e := Epoch(pre, last.ip, maxIPs);
      assert (e + [last.at])[..|e|] == e;
    }
  }

  lemma {:induction false} NoEpochBeforeUse(calls: seq<Stamp>, ip: Key, maxIPs: nat)
    requires ip !in Ips(calls)
    ensures Epoch(calls, ip, maxIPs) == []
  {
    if calls != [] {
      IpsAppend(calls);
      NoEpochBeforeUse(calls[..|calls| - 1], ip, maxIPs);
    }
  }

  /** Every verdict of the bounded limiter is the verdict of one independent bucket on
      the key's current epoch; other keys matter only by ending epochs. */
  lemma {:induction false} VerdictIsOwnBucket(r: Rate, maxIPs: nat, calls: seq<Stamp>)
    requires maxIPs > 0 && |calls| > 0
    ensures var e := Epoch(calls, calls[|calls| - 1].ip, maxIPs);
            e != [] && (Allowed(r, maxIPs, calls) <==> Verdict(r, e))
  {
    RunExact(r, maxIPs, calls[..|calls| - 1]);
    FoundBucket(r, maxIPs, calls);
  }

  /** The exact law for the whole limiter, whatever order the stamps reach the lock in: a call is
      allowed if and only if it fits the allowance counted from every call of the key's current
      epoch. */
  lemma {:induction false} LimiterExactLaw(r: Rate, maxIPs: nat, calls: seq<Stamp>)
    requires maxIPs > 0 && |calls| > 0 && r.perSec > 0.0
    ensures var e := Epoch(calls, calls[|calls| - 1].ip, maxIPs);
            Allowed(r, maxIPs, calls) <==> forall i | 0 <= i < |e| :: FitsClock(r, e, i)
  {
    hide Epoch, Allowed, FitsClock;
    VerdictIsOwnBucket(r, maxIPs, calls);
    ExactLawAnyOrder(r, Epoch(calls, calls[|calls| - 1].ip, maxIPs));
  }

  /** No use of ip comes after maxIPs distinct other keys. */
  ghost predicate NeverCrowded(calls: seq<Stamp>, ip: Key, maxIPs: nat) {
    forall j :: 0 <= j < |calls| && calls[j].ip == ip && ip in Ips(calls[..j]) ==> !Crowded(calls[..j], ip, maxIPs)
  }

  lemma {:induction false} EpochIsEverything(calls: seq<Stamp>, ip: Key, maxIPs: nat)
    requires NeverCrowded(calls, ip, maxIPs)
    ensures Epoch(calls, ip, maxIPs) == TimesOf(calls, ip)
  {
    if calls != [] {
      var n := |calls| - 1;
      var pre := calls[..n];
      assert forall j :: 0 <= j <= n ==> pre[..j] == calls[..j];
      EpochIsEverything(pre, ip, maxIPs);
      if ip !in Ips(pre) {
        NoEpochBeforeUse(pre, ip, maxIPs);
      }
    }
  }

  /** Refinement of an unbounded map of buckets: as long as fewer than maxIPs distinct
      other keys come between consecutive uses of a key, each of its verdicts is that of
      a bucket of its own that sees only its own calls. */
  lemma {:induction false} RefinesUnbounded(r: Rate, maxIPs: nat, calls: seq<Stamp>)
    requires maxIPs > 0 && |calls| > 0
    requires NeverCrowded(calls, calls[|calls| - 1].ip, maxIPs)
    ensures var ts := TimesOf(calls, calls[|calls| - 1].ip);
            ts != [] && (Allowed(r, maxIPs, calls) <==> Verdict(r, ts))
  {
    VerdictIsOwnBucket(r, maxIPs, calls);
    EpochIsEverything(calls, calls[|calls| - 1].ip, maxIPs);
  }

  // --- How many calls a window allows ---------------------------------------------

  /** The calls for ip among calls[x..] that are allowed. */
  function AllowedSince(r: Rate, maxIPs: nat, calls: seq<Stamp>, x: nat, ip: Key): nat
    requires x <= |calls|
  {
    if x == |calls| then 0
    else AllowedSince(r, maxIPs, calls[..|calls| - 1], x, ip) +
         if calls[|calls| - 1].ip == ip && Allowed(r, maxIPs, calls) then 1 else 0
  }

  /** No bucket of ip starts over between two of its uses in calls[x..]. */
  ghost predicate UncrowdedSince(calls: seq<Stamp>, x: nat, ip: Key, maxIPs: nat) {
    forall j :: x <= j < |calls| && calls[j].ip == ip && Crowded(calls[..j], ip, maxIPs)
                ==> TimesOf(calls[x..j], ip) == []
  }

  lemma {:induction false} TimesStep(calls: seq<Stamp>, x: nat, ip: Key)
    requires x < |calls|
    ensures var pre, last := calls[..|calls| - 1], calls[|calls| - 1];
            TimesOf(calls[x..], ip) == TimesOf(pre[x..], ip) + if last.ip == ip then [last.at] else []
  {
    assert calls[x..][..|calls| - 1 - x] == calls[..|calls| - 1][x..];
  }

  lemma {:induction false} AllowedFromStep(r: Rate, e: seq<real>, t: real, i: nat)
    requires i <= |e|
    ensures AllowedFrom(r, e + [t], i) == AllowedFrom(r, e, i) + if Verdict(r, e + [t]) then 1 else 0
  {
    assert (e + [t])[..|e|] == e;
  }

  lemma {:induction false} EmptyWindow(r: Rate, maxIPs: nat, calls: seq<Stamp>, ip: Key)
    ensures TimesOf(calls[|calls|..], ip) == [] && AllowedSince(r, maxIPs, calls, |calls|, ip) == 0
    ensures forall e :: AllowedFrom(r, e, |e|) == 0
  {
    hide Verdict;
    assert calls[|calls|..] == [];
  }

  lemma {:induction false} NoneAllowed(r: Rate, e: seq<real>)
    ensures AllowedFrom(r, e, |e|) == 0 && AllowedFrom(r, [], 0) == 0
  {
    hide Verdict;
  }

  lemma EpochStep(calls: seq<Stamp>, ip: Key, maxIPs: nat)
    requires calls != []
    ensures var pre, last := calls[..|calls| - 1], calls[|calls| - 1];
            Epoch(calls, ip, maxIPs) ==
            if last.ip != ip then Epoch(pre, ip, maxIPs)
            else (if Crowded(pre, ip, maxIPs) then [] else Epoch(pre, ip, maxIPs)) + [last.at]
  {
    hide Crowded;
  }

  lemma {:induction false} AllowedSinceStep(r: Rate, maxIPs: nat, calls: seq<Stamp>, x: nat, ip: Key)
    requires x < |calls|
    ensures AllowedSince(r, maxIPs, calls, x, ip)
         == AllowedSince(r, maxIPs, calls[..|calls| - 1], x, ip)
            + if calls[|calls| - 1].ip == ip && Allowed(r, maxIPs, calls) then 1 else 0
  {
    hide Allowed;
  }

  /** The window's calls for ip end its epoch, and are judged as that epoch's last calls. */
  lemma {:induction false} WindowIsEpochSuffix(r: Rate, maxIPs: nat, calls: seq<Stamp>, x: nat, ip: Key)
    requires maxIPs > 0 && x <= |calls| && UncrowdedSince(calls, x, ip, maxIPs)
    ensures var e, w := Epoch(calls, ip, maxIPs), TimesOf(calls[x..], ip);
            && |w| <= |e| && e[|e| - |w|..] == w
            && AllowedSince(r, maxIPs, calls, x, ip) == AllowedFrom(r, e, |e| - |w|)
  {
    hide Epoch, TimesOf, AllowedSince, AllowedFrom, Verdict, Allowed, Crowded, UncrowdedSince, Accrued;
    var n := |calls| - 1;
    if x > n {
      EmptyWindow(r, maxIPs, calls, ip);
    } else {
      var pre, last := calls[..n], calls[n];
      var e, w := Epoch(pre, ip, maxIPs), TimesOf(pre[x..], ip);
      UncrowdedBefore(calls, x, ip, maxIPs);
      WindowIsEpochSuffix(r, maxIPs, pre, x, ip);
      TimesStep(calls, x, ip);
      EpochStep(calls, ip, maxIPs);
      AllowedSinceStep(r, maxIPs, calls, x, ip);
      if last.ip == ip {
        VerdictIsOwnBucket(r, maxIPs, calls);
        if Crowded(pre, ip, maxIPs) {
          AllowedFromStep(r, [], last.at, 0);
          NoneAllowed(r, e);
        } else {
          AllowedFromStep(r, e, last.at, |e| - |w|);
        }
      }
    }
  }

  lemma {:induction false} UncrowdedBefore(calls: seq<Stamp>, x: nat, ip: Key, maxIPs: nat)
    requires x < |calls| && UncrowdedSince(calls, x, ip, maxIPs)
    ensures var pre := calls[..|calls| - 1];
            && UncrowdedSince(pre, x, ip, maxIPs)
            && (calls[|calls| - 1].ip == ip && Crowded(pre, ip, maxIPs) ==> TimesOf(pre[x..], ip) == [])
  {
    hide TimesOf, Crowded;
    var n := |calls| - 1;
    var pre := calls[..n];
    assert calls[x..n] == pre[x..];
    forall j | x <= j < n && pre[j].ip == ip && Crowded(pre[..j], ip, maxIPs)
      ensures TimesOf(pre[x..j], ip) == []
    {
      assert pre[..j] == calls[..j] && pre[x..j] == calls[x..j];
    }
  }

  /** Whatever order the stamps reach the lock in, a window of calls allows ip at most one
      full bucket plus the refill over the span of its stamps, unless its bucket is
      evicted and starts over inside the window. */
  lemma {:induction false} LimiterWindowBound(r: Rate, maxIPs: nat, calls: seq<Stamp>, x: nat, ip: Key, lo: real, hi: real)
    requires r.perSec > 0.0 && r.capacity > 0.0 && maxIPs > 0
    requires x <= |calls| && UncrowdedSince(calls, x, ip, maxIPs)
    requires lo <= hi && forall j :: x <= j < |calls| && calls[j].ip == ip ==> lo <= calls[j].at <= hi
    ensures AllowedSince(r, maxIPs, calls, x, ip) as real <= r.capacity + (hi - lo) * r.perSec
  {
    hide Epoch, TimesOf, AllowedSince, Accrued;
    WindowIsEpochSuffix(r, maxIPs, calls, x, ip);
    var e, w := Epoch(calls, ip, maxIPs), TimesOf(calls[x..], ip);
    TimesWithin(calls[x..], ip, lo, hi);
    AccruedLaws(r, lo, lo, hi);
    AccruedIs(r, lo, hi, hi - lo, r.perSec);
    if w != [] {
      forall k | |e| - |w| <= k < |e| ensures lo <= e[k] <= hi {
        var t := w[k - (|e| - |w|)];
        assert t in w && e[k] == t;
      }
      WindowBound(r, e, |e| - |w|, lo, hi);
    }
  }

  lemma {:induction false} TimesWithin(calls: seq<Stamp>, ip: Key, lo: real, hi: real)
    requires forall j :: 0 <= j < |calls| && calls[j].ip == ip ==> lo <= calls[j].at <= hi
    ensures forall t <- TimesOf(calls, ip) :: lo <= t <= hi
  {
    if calls != [] {
      TimesWithin(calls[..|calls| - 1], ip, lo, hi);
    }
  }
}
