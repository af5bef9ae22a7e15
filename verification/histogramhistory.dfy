/** What a histogram of core/metrics/metrics.go holds: bucket i of a label tuple counts
    exactly the tuple's own observations up to bound i. */
module HistogramHistory {
  import opened Text
  import opened Sorting
  import opened Labels
  import opened Metrics
  import opened Histograms

  /** How many of a tuple's observations are at most b. */
  function CountUpTo(h: seq<Event<real>>, t: seq<string>, b: real): (n: nat)
    ensures n <= |h|
  {
    if h == [] then 0
    else CountUpTo(h[..|h| - 1], t, b) + if h[|h| - 1].labels == t && h[|h| - 1].value <= b then 1 else 0
  }

  function CountFor(h: seq<Event<real>>, t: seq<string>): (n: nat)
    ensures n <= |h|
  {
    if h == [] then 0 else CountFor(h[..|h| - 1], t) + if h[|h| - 1].labels == t then 1 else 0
  }

  function TotalFor(h: seq<Event<real>>, t: seq<string>): real {
    if h == [] then 0.0 else TotalFor(h[..|h| - 1], t) + if h[|h| - 1].labels == t then h[|h| - 1].value else 0.0
  }

  /** Buckets grow with their bounds and never exceed the count. */
  lemma {:induction false} BucketsGrow(h: seq<Event<real>>, t: seq<string>, b: real, c: real)
    requires b <= c
    ensures CountUpTo(h, t, b) <= CountUpTo(h, t, c) <= CountFor(h, t)
  {
    if h != [] {
      BucketsGrow(h[..|h| - 1], t, b, c);
    }
  }

  function ValueFor(m: map<string, SeriesValue>, k: string, n: nat): SeriesValue {
    if k in m then m[k] else Fresh(n)
  }

  /** Each tuple has a series exactly when it was observed, holding its own counts and sum. */
  lemma {:induction false} SeriesAgree(h: seq<Event<real>>, bounds: seq<real>, n: nat, t: seq<string>)
    requires Proper(h, n) && |t| == n && NoNul(t)
    ensures EncodeLabelValues(t) in SeriesOf(h, bounds) <==> Seen(h, t)
    ensures var s := ValueFor(SeriesOf(h, bounds), EncodeLabelValues(t), |bounds|);
            && s.count == CountFor(h, t) && s.sum == TotalFor(h, t) && |s.counts| == |bounds|
            && forall i :: 0 <= i < |bounds| ==> s.counts[i] == CountUpTo(h, t, bounds[i])
  {
    hide EncodeLabelValues, NoNul, Seen;
    if h == [] {
      NothingSeen<real>(t);
    } else {
      var front, e := h[..|h| - 1], h[|h| - 1];
      SeriesAgree(front, bounds, n, t);
      EncodeInjective(e.labels, t);
      SeenStep(h, t);
    }
  }

  lemma {:induction false} SeriesAreSeen(h: seq<Event<real>>, bounds: seq<real>, k: string)
    requires k in SeriesOf(h, bounds)
    ensures exists i :: 0 <= i < |h| && EncodeLabelValues(h[i].labels) == k
  {
    hide EncodeLabelValues, After, Fresh;
    var front, e := h[..|h| - 1], h[|h| - 1];
    if k == EncodeLabelValues(e.labels) {
      assert h[|h| - 1] == e;
    } else {
      SeriesAreSeen(front, bounds, k);
      var i :| 0 <= i < |front| && EncodeLabelValues(front[i].labels) == k;
      assert h[i] == front[i];
    }
  }

  lemma {:induction false} SeenHasSeries(h: seq<Event<real>>, bounds: seq<real>, i: nat)
    requires i < |h|
    ensures EncodeLabelValues(h[i].labels) in SeriesOf(h, bounds)
  {
    hide EncodeLabelValues, After, Fresh;
    if i < |h| - 1 {
      SeenHasSeries(h[..|h| - 1], bounds, i);
    }
  }

  /** A histogram can be emitted, whatever its tuples hold, exactly when the single empty value
      was never observed. */
  lemma {:induction false} HistogramEmitsIff(h: seq<Event<real>>, bounds: seq<real>, name: string, help: string,
                                             names: seq<string>,
                          show: real -> string)
    requires Sized(h, |names|)
    ensures HistogramText(name, help, names, bounds, SeriesOf(h, bounds), show).Some? <==> Renderable(h)
    ensures Renderable(h) ==> forall k <- SeriesOf(h, bounds).Keys :: KeyLabels(names, k).Some?
  {
    hide KeyLabels, SeriesOf, EncodeLabelValues, Sort, Sorted, SortedListing, EndLines, HeadLines, AllLines, NoNul;
    var m := SeriesOf(h, bounds);
    SortedListingOk(m.Keys);
    if Renderable(h) {
      forall k | k in m.Keys ensures KeyLabels(names, k).Some? {
        SeriesAreSeen(h, bounds, k);
        var i :| 0 <= i < |h| && EncodeLabelValues(h[i].labels) == k;
        KeyLabelsSomeIff(names, h[i].labels);
      }
    } else {
      var i :| 0 <= i < |h| && h[i].labels == [""];
      KeyLabelsSomeIff(names, h[i].labels);
      SeenHasSeries(h, bounds, i);
      assert EncodeLabelValues(h[i].labels) in SortedListing(m.Keys);
    }
  }
}
