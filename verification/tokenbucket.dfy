/** One token bucket of core/ratelimit/ratelimit.go, and the two laws of a run of
    calls on it. Tokens and times (seconds) are reals. */
module TokenBucket {
  datatype Rate = Rate(capacity: real, perSec: real)

  datatype Bucket = Bucket(tokens: real, last: real)

  function Min(a: real, b: real): real {
    if a <= b then a else b
  }

  /** Tokens that trickle in between two moments. */
  function Accrued(r: Rate, from: real, to: real): real {
    (to - from) * r.perSec
  }

  lemma AccruedIs(r: Rate, from: real, to: real, elapsed: real, perSec: real)
    requires elapsed == to - from && perSec == r.perSec
    ensures Accrued(r, from, to) == elapsed * perSec
  {
  }

  lemma AccruedLaws(r: Rate, a: real, b: real, c: real)
    requires r.perSec > 0.0
    ensures Accrued(r, a, a) == 0.0
    ensures Accrued(r, a, c) == Accrued(r, a, b) + Accrued(r, b, c)
    ensures b <= c ==> Accrued(r, a, b) <= Accrued(r, a, c)
    ensures a <= b ==> Accrued(r, b, c) <= Accrued(r, a, c)
    ensures a <= b ==> 0.0 <= Accrued(r, a, b)
  {
    assert (c - a) * r.perSec == (b - a) * r.perSec + (c - b) * r.perSec;
    if b <= c { assert (c - b) * r.perSec >= 0.0; }
    if a <= b { assert (b - a) * r.perSec >= 0.0; }
  }

  /** Time only ever fills the bucket: a call stamped at or before `last` adds nothing. */
  function Refill(r: Rate, b: Bucket, now: real): Bucket {
    if now > b.last then Bucket(Min(r.capacity, b.tokens + Accrued(r, b.last, now)), now) else b
  }

  /** A call at `now` on a bucket: its verdict and the bucket it leaves. */
  function Call(r: Rate, b: Bucket, now: real): (Bucket, bool) {
    var f := Refill(r, b, now);
    if f.tokens >= 1.0 then (Bucket(f.tokens - 1.0, f.last), true) else (f, false)
  }

  // --- A run of calls, stamped ts[0], ts[1], ..., on a bucket that starts full ---

  /** The bucket that call |ts| - 1 finds. */
  function Before(r: Rate, ts: seq<real>): Bucket
    requires |ts| > 0
    decreases |ts|, 0
  {
    if |ts| == 1 then Bucket(r.capacity, ts[0])
    else After(r, ts[..|ts| - 1])
  }

  function After(r: Rate, ts: seq<real>): Bucket
    requires |ts| > 0
    decreases |ts|, 1
  {
    Call(r, Before(r, ts), ts[|ts| - 1]).0
  }

  /** Is the last call of the run allowed? */
  predicate Verdict(r: Rate, ts: seq<real>)
    requires |ts| > 0
  {
    Call(r, Before(r, ts), ts[|ts| - 1]).1
  }

  /** How many of the calls i, ..., |ts| - 1 are allowed. */
  function AllowedFrom(r: Rate, ts: seq<real>, i: nat): nat
    requires i <= |ts|
    decreases |ts|
  {
    if i == |ts| then 0
    else AllowedFrom(r, ts[..|ts| - 1], i) + if Verdict(r, ts) then 1 else 0
  }

  predicate NonDecreasing(ts: seq<real>) {
    forall i, j :: 0 <= i <= j < |ts| ==> ts[i] <= ts[j]
  }

  /** What call |ts| - 1 may still spend on account of the calls from i on. */
  ghost function Headroom(r: Rate, ts: seq<real>, i: nat): real
    requires i < |ts|
  {
    var last := |ts| - 1;
    r.capacity + Accrued(r, ts[i], ts[last]) - AllowedFrom(r, ts[..last], i) as real
  }

  /** The tokens found by the last call, after its refill. */
  ghost function Level(r: Rate, ts: seq<real>): real
    requires |ts| > 0
  {
    Refill(r, Before(r, ts), ts[|ts| - 1]).tokens
  }

  lemma HeadroomStep(r: Rate, ts: seq<real>, i: nat)
    requires i + 1 < |ts| && r.perSec > 0.0
    ensures var pre := ts[..|ts| - 1];
            Headroom(r, ts, i) == Headroom(r, pre, i)
              - (if Verdict(r, pre) then 1.0 else 0.0)
              + Accrued(r, ts[|ts| - 2], ts[|ts| - 1])
  {
    var n := |ts|;
    var pre := ts[..n - 1];
    assert pre[..n - 2] == ts[..n - 2];
    AccruedLaws(r, ts[i], ts[n - 2], ts[n - 1]);
  }

  /** Along non-decreasing stamps the bucket's clock is the last stamp. */
  lemma {:induction false} BucketTime(r: Rate, ts: seq<real>)
    requires |ts| > 0 && NonDecreasing(ts)
    ensures After(r, ts).last == ts[|ts| - 1]
    ensures After(r, ts).tokens == Level(r, ts) - if Verdict(r, ts) then 1.0 else 0.0
    ensures After(r, ts).tokens <= r.capacity
  {
    if |ts| > 1 {
      BucketTime(r, ts[..|ts| - 1]);
    }
  }

  lemma LevelStep(r: Rate, ts: seq<real>)
    requires |ts| > 1 && NonDecreasing(ts) && r.perSec > 0.0
    ensures var pre := ts[..|ts| - 1];
            Level(r, ts) == Min(r.capacity,
                                Level(r, pre) - (if Verdict(r, pre) then 1.0 else 0.0)
                                  + Accrued(r, ts[|ts| - 2], ts[|ts| - 1]))
  {
    BucketTime(r, ts[..|ts| - 1]);
    AccruedLaws(r, ts[|ts| - 2], ts[|ts| - 1], ts[|ts| - 1]);
  }

  /** The level is the least headroom over all the calls so far (min-plus closed form). */
  lemma {:induction false} LevelIsLeastHeadroom(r: Rate, ts: seq<real>) returns (arg: nat)
    requires |ts| > 0 && NonDecreasing(ts) && r.perSec > 0.0
    ensures forall i | 0 <= i < |ts| :: Level(r, ts) <= Headroom(r, ts, i)
    ensures arg < |ts| && Level(r, ts) == Headroom(r, ts, arg)
  {
    var n := |ts|;
    HeadroomOfLast(r, ts);
    if n == 1 {
      arg := 0;
    } else {
      var pre := ts[..n - 1];
      var at := LevelIsLeastHeadroom(r, pre);
      LevelStep(r, ts);
      forall i | 0 <= i < n ensures Level(r, ts) <= Headroom(r, ts, i) {
        if i < n - 1 {
          HeadroomStep(r, ts, i);
          assert Level(r, pre) <= Headroom(r, pre, i);
        }
      }
      HeadroomStep(r, ts, at);
      arg := if Level(r, ts) == r.capacity then n - 1 else at;
    }
  }

  lemma HeadroomOfLast(r: Rate, ts: seq<real>)
    requires |ts| > 0 && r.perSec > 0.0
    ensures Headroom(r, ts, |ts| - 1) == r.capacity
  {
    AccruedLaws(r, ts[|ts| - 1], ts[|ts| - 1], ts[|ts| - 1]);
  }

  /** One call more than n between two moments still fits a full bucket and its refill. */
  predicate OneMore(r: Rate, n: nat, from: real, to: real) {
    n as real + 1.0 <= r.capacity + (to - from) * r.perSec
  }

  lemma OneMoreIs(r: Rate, n: nat, from: real, to: real)
    ensures OneMore(r, n, from, to) <==> n as real + 1.0 <= r.capacity + Accrued(r, from, to)
  {
    AccruedIs(r, from, to, to - from, r.perSec);
  }

  /** One more allowed call, counted from call i on, stays within the allowance. */
  ghost predicate Fits(r: Rate, ts: seq<real>, i: nat)
    requires i < |ts|
  {
    var last := |ts| - 1;
    OneMore(r, AllowedFrom(r, ts[..last], i), ts[i], ts[last])
  }

  /** The exact law: a call is allowed if and only if it fits the allowance counted from
      every call so far, itself included. */
  lemma ExactLaw(r: Rate, ts: seq<real>)
    requires |ts| > 0 && NonDecreasing(ts) && r.perSec > 0.0
    ensures Verdict(r, ts) <==> forall i | 0 <= i < |ts| :: Fits(r, ts, i)
  {
    hide Accrued, OneMore, AllowedFrom;
    var arg := LevelIsLeastHeadroom(r, ts);
    forall i | 0 <= i < |ts| ensures Fits(r, ts, i) <==> Headroom(r, ts, i) >= 1.0 {
      OneMoreIs(r, AllowedFrom(r, ts[..|ts| - 1], i), ts[i], ts[|ts| - 1]);
    }
  }

  // --- The exact law for stamps in any order ---------------------------------------

  /** The bucket's clock at each call: the latest stamp so far. */
  function Clock(ts: seq<real>): (c: seq<real>)
    ensures |c| == |ts|
  {
    if ts == [] then []
    else
      var c, last := Clock(ts[..|ts| - 1]), ts[|ts| - 1];
      c + [if c != [] && last < c[|c| - 1] then c[|c| - 1] else last]
  }

  lemma {:induction false} ClockRises(ts: seq<real>)
    ensures NonDecreasing(Clock(ts)) && forall j :: 0 <= j < |ts| ==> ts[j] <= Clock(ts)[j]
  {
    if ts != [] {
      var front, last := ts[..|ts| - 1], ts[|ts| - 1];
      ClockRises(front);
      var c := Clock(front);
      var x := if c != [] && last < c[|c| - 1] then c[|c| - 1] else last;
      assert Clock(ts) == c + [x];
      hide Clock;
      RisesOn(c, x);
      assert forall j :: 0 <= j < |front| ==> front[j] == ts[j];
    }
  }

  lemma RisesOn(c: seq<real>, x: real)
    requires NonDecreasing(c) && (c != [] ==> c[|c| - 1] <= x)
    ensures NonDecreasing(c + [x])
  {
    var d := c + [x];
    forall i, j | 0 <= i < j < |d| ensures d[i] <= d[j] {
      assert d[i] == c[i];
      if j == |c| && i < |c| - 1 {
        assert c[i] <= c[|c| - 1];
      }
    }
  }

  /** A call stamped before the clock is answered as if it came at the clock: nothing accrues,
      and nothing is taken for being late. */
  lemma {:induction false} AnsweredAtClock(r: Rate, ts: seq<real>)
    requires |ts| > 0
    ensures Before(r, ts) == Before(r, Clock(ts)) && After(r, ts) == After(r, Clock(ts))
    ensures Verdict(r, ts) <==> Verdict(r, Clock(ts))
    ensures After(r, ts).last == Clock(ts)[|ts| - 1]
  {
    hide Accrued, Min;
    if |ts| > 1 {
      var front := ts[..|ts| - 1];
      AnsweredAtClock(r, front);
      assert Clock(ts)[..|front|] == Clock(front);
      assert Before(r, Clock(ts)) == After(r, Clock(front));
    }
  }

  lemma {:induction false} AllowedAtClock(r: Rate, ts: seq<real>, i: nat)
    requires i <= |ts|
    ensures AllowedFrom(r, ts, i) == AllowedFrom(r, Clock(ts), i)
  {
    hide Verdict;
    if i < |ts| {
      var front := ts[..|ts| - 1];
      AllowedAtClock(r, front, i);
      AnsweredAtClock(r, ts);
      assert Clock(ts)[..|front|] == Clock(front);
    }
  }

  /** One more allowed call, counted from call i on, stays within the allowance of the clock. */
  ghost predicate FitsClock(r: Rate, ts: seq<real>, i: nat)
    requires i < |ts|
  {
    var last := |ts| - 1;
    OneMore(r, AllowedFrom(r, ts[..last], i), Clock(ts)[i], Clock(ts)[last])
  }

  /** The exact law whatever order the stamps come in. */
  lemma ExactLawAnyOrder(r: Rate, ts: seq<real>)
    requires |ts| > 0 && r.perSec > 0.0
    ensures Verdict(r, ts) <==> forall i | 0 <= i < |ts| :: FitsClock(r, ts, i)
  {
    hide Verdict, AllowedFrom, NonDecreasing, Fits, FitsClock;
    ClockRises(ts);
    AnsweredAtClock(r, ts);
    ExactLaw(r, Clock(ts));
    forall i | 0 <= i < |ts| ensures FitsClock(r, ts, i) <==> Fits(r, Clock(ts), i) {
      FitsSame(r, ts, i);
    }
  }

  lemma {:induction false} FitsSame(r: Rate, ts: seq<real>, i: nat)
    requires i < |ts|
    ensures FitsClock(r, ts, i) <==> Fits(r, Clock(ts), i)
  {
    hide AllowedFrom, OneMore;
    var front := ts[..|ts| - 1];
    AllowedAtClock(r, front, i);
    assert Clock(ts)[..|front|] == Clock(front);
  }

  // --- Stamps in any order ------------------------------------------------------

  /** One call turns tokens and elapsed time into verdicts without creating any. */
  lemma CallLedger(r: Rate, b: Bucket, now: real, start: real)
    requires r.perSec > 0.0
    ensures var (c, ok) := Call(r, b, now);
            && c.last == (if now > b.last then now else b.last)
            && c.tokens + (if ok then 1.0 else 0.0) - Accrued(r, start, c.last)
               <= b.tokens - Accrued(r, start, b.last)
  {
    AccruedLaws(r, start, b.last, now);
  }

  lemma {:induction false} TokensInRange(r: Rate, ts: seq<real>)
    requires |ts| > 0 && r.perSec > 0.0 && r.capacity >= 0.0
    ensures 0.0 <= After(r, ts).tokens <= r.capacity
    ensures Refill(r, Before(r, ts), ts[|ts| - 1]).tokens <= r.capacity
  {
    if |ts| > 1 {
      var b := Before(r, ts);
      TokensInRange(r, ts[..|ts| - 1]);
      AccruedLaws(r, b.last, ts[|ts| - 1], ts[|ts| - 1]);
    }
  }

  /** From call i on, tokens held and spent are covered by one full bucket and what the
      bucket's own clock, which never runs backwards, has let in since. */
  lemma {:induction false} WindowLedger(r: Rate, ts: seq<real>, i: nat, start: real)
    requires i < |ts| && r.perSec > 0.0 && r.capacity >= 0.0
    requires start == After(r, ts[..i + 1]).last
    ensures ts[i] <= start
    ensures After(r, ts).last == start || exists k :: i < k < |ts| && After(r, ts).last == ts[k]
    ensures After(r, ts).tokens + AllowedFrom(r, ts, i) as real
              <= r.capacity + Accrued(r, start, After(r, ts).last)
  {
    var n := |ts|;
    var pre := ts[..n - 1];
    if i == n - 1 {
      assert ts[..i + 1] == ts;
      assert AllowedFrom(r, pre, i) == 0;
      TokensInRange(r, ts);
      AccruedLaws(r, start, start, start);
    } else {
      assert pre[..i + 1] == ts[..i + 1];
      WindowLedger(r, pre, i, start);
      CallLedger(r, After(r, pre), ts[n - 1], start);
      if ts[n - 1] > After(r, pre).last {
        assert After(r, ts).last == ts[n - 1];
      } else if After(r, pre).last != start {
        var k :| i < k < |pre| && After(r, pre).last == pre[k];
        assert After(r, ts).last == ts[k];
      }
    }
  }

  lemma {:induction false} WindowAllowance(r: Rate, ts: seq<real>, i: nat, lo: real, hi: real)
    requires i < |ts| && r.perSec > 0.0 && r.capacity >= 0.0
    requires forall k :: i <= k < |ts| ==> lo <= ts[k] <= hi
    ensures AllowedFrom(r, ts, i) as real <= r.capacity + Accrued(r, lo, hi)
  {
    var start := After(r, ts[..i + 1]).last;
    WindowLedger(r, ts, i, start);
    TokensInRange(r, ts);
    AccruedLaws(r, lo, start, After(r, ts).last);
    AccruedLaws(r, lo, After(r, ts).last, hi);
    AccruedLaws(r, lo, lo, hi);
  }

  /** Window bound, whatever order the stamps come in: the calls from i on allow at most
      one full bucket plus the refill over the span of their stamps. */
  lemma {:induction false} WindowBound(r: Rate, ts: seq<real>, i: nat, lo: real, hi: real)
    requires i < |ts| && r.perSec > 0.0 && r.capacity >= 0.0
    requires forall k :: i <= k < |ts| ==> lo <= ts[k] <= hi
    ensures AllowedFrom(r, ts, i) as real <= r.capacity + (hi - lo) * r.perSec
  {
    hide Accrued, AllowedFrom;
    WindowAllowance(r, ts, i, lo, hi);
    AccruedIs(r, lo, hi, hi - lo, r.perSec);
  }
}
