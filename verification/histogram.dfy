/** core/metrics/metrics.go: histograms. Values are reals; each series is an object whose
    counts are bumped in place, and the abstract value is the history of observations. */
module Histograms {
  import opened Wrappers
  import opened Text
  import opened Sorting
  import opened Numbers
  import opened Labels
  import opened Metrics

  datatype SeriesValue = SeriesValue(counts: seq<int>, sum: real, count: int)

  predicate Ascending(bounds: seq<real>) {
    forall i, j :: 0 <= i < j < |bounds| ==> bounds[i] < bounds[j]
  }

  function Bumped(counts: seq<int>, bounds: seq<real>, value: real): seq<int>
    requires |counts| == |bounds|
  {
    seq(|counts|, i requires 0 <= i < |counts| => counts[i] + if value <= bounds[i] then 1 else 0)
  }

  function Fresh(n: nat): SeriesValue {
    SeriesValue(seq(n, _ => 0), 0.0, 0)
  }

  function After(s: SeriesValue, bounds: seq<real>, value: real): SeriesValue
    requires |s.counts| == |bounds|
  {
    SeriesValue(Bumped(s.counts, bounds, value), s.sum + value, s.count + 1)
  }

  /** The series a history leaves behind. */
  function SeriesOf(h: seq<Event<real>>, bounds: seq<real>): (m: map<string, SeriesValue>)
    ensures forall k <- m.Keys :: |m[k].counts| == |bounds|
  {
    if h == [] then map[]
    else
      var m, o := SeriesOf(h[..|h| - 1], bounds), h[|h| - 1];
      var k := EncodeLabelValues(o.labels);
      m[k := After(if k in m then m[k] else Fresh(|bounds|), bounds, o.value)]
  }

  class Series {
    var bucketCounts: array<int>
    var sum: real
    var count: int

    constructor (n: nat)
      ensures fresh(bucketCounts) && bucketCounts.Length == n
      ensures Value() == Fresh(n)
    {
      bucketCounts := new int[n](_ => 0);
      sum, count := 0.0, 0;
    }

    function Value(): SeriesValue
      reads this, bucketCounts
    {
      SeriesValue(bucketCounts[..], sum, count)
    }

    /** One observation, bucket by bucket. */
    method Record(value: real, buckets: seq<real>)
      requires bucketCounts.Length == |buckets|
      modifies this, bucketCounts
      ensures bucketCounts == old(bucketCounts)
      ensures Value() == After(old(Value()), buckets, value)
    {
      count := count + 1;
      sum := sum + value;
      for i := 0 to |buckets|
        invariant bucketCounts == old(bucketCounts) && sum == old(sum) + value && count == old(count) + 1
        invariant forall j :: 0 <= j < i ==> bucketCounts[j] == old(bucketCounts[j]) + if value <= buckets[j] then 1 else 0
        invariant forall j :: i <= j < |buckets| ==> bucketCounts[j] == old(bucketCounts[j])
      {
        if value <= buckets[i] {
          bucketCounts[i] := bucketCounts[i] + 1;
        }
      }
      assert bucketCounts[..] == Bumped(old(bucketCounts[..]), buckets, value);
    }
  }

  class Histogram {
    const name: string
    const help: string
    const labelNames: seq<string>
    const buckets: seq<real>
    var series: map<string, Series>
    ghost var history: seq<Event<real>>
    ghost var owned: set<object>

    /** The series are objects of their own, apart from one another. */
    ghost predicate Separate()
      reads `series, `owned, owned
    {
      && this !in owned
      && (forall k <- series.Keys :: series[k] in owned && series[k].bucketCounts in owned
                                     && series[k].bucketCounts.Length == |buckets|)
      && (forall j <- series.Keys, k <- series.Keys ::
            j != k ==> series[j] != series[k] && series[j].bucketCounts != series[k].bucketCounts)
    }

    ghost function Contents(): map<string, SeriesValue>
      requires Separate()
      reads `series, `owned, owned
    {
      map k | k in series :: series[k].Value()
    }

    ghost predicate Valid()
      reads this, owned
    {
      && Separate() && Contents() == SeriesOf(history, buckets)
      && forall i :: 0 <= i < |history| ==> |history[i].labels| == |labelNames|
    }

    constructor (name: string, help: string, buckets: seq<real>, labelNames: seq<string>)
      ensures Valid() && history == [] && owned == {}
      ensures this.name == name && this.help == help && this.labelNames == labelNames && this.buckets == buckets
    {
      this.name, this.help, this.labelNames, this.buckets := name, help, labelNames, buckets;
      series := map[];
      history := [];
      owned := {};
    }

    /** The series of a key, made on first use. */
    method SeriesFor(key: string) returns (s: Series)
      requires Separate()
      modifies `series, `owned
      ensures Separate() && key in series && series[key] == s
      ensures fresh(owned - old(owned)) && old(owned) <= owned
      ensures Contents() == if key in old(Contents()) then old(Contents()) else old(Contents())[key := Fresh(|buckets|)]
    {
      if key in series {
        return series[key];
      }
      s := new Series(|buckets|);
      series := series[key := s];
      owned := owned + {s, s.bucketCounts};
    }

    method RecordIn(key: string, s: Series, value: real)
      requires Separate() && key in series && series[key] == s
      modifies owned
      ensures Separate() && Contents() == old(Contents())[key := After(old(Contents())[key], buckets, value)]
    {
      hide After;
      s.Record(value, buckets);
      forall k | k in series.Keys && k != key ensures series[k].Value() == old(series[k].Value()) {
      }
    }

    /** Records one observation. Misuse, the program's panic, is ok == false. */
    method Observe(value: real, labelValues: seq<string>) returns (ok: bool)
      requires Valid()
      modifies this, owned
      ensures Valid() && fresh(owned - old(owned))
      ensures ok <==> |labelValues| == |labelNames|
      ensures history == old(history) + if ok then [Event(labelValues, value)] else []
    {
      hide EncodeLabelValues, After, Fresh, SeriesOf, Separate, Contents;
      if |labelValues| != |labelNames| {
        return false;
      }
      var key := EncodeLabelValues(labelValues);
      var s := SeriesFor(key);
      RecordIn(key, s, value);
      SeriesStep(history, buckets, Event(labelValues, value));
      history := history + [Event(labelValues, value)];
      return true;
    }

    /** The keys and a copy of every series. */
    method Snapshot() returns (keys: seq<string>, m: map<string, SeriesValue>)
      requires Separate()
      ensures m == Contents() && Lists(keys, m.Keys)
    {
      keys := Keys(series);
      m := map[];
      for i := 0 to |keys|
        invariant m.Keys == set k | k in keys[..i]
        invariant forall k <- keys[..i] :: k in series && m[k] == series[k].Value()
      {
        assert keys[i] in keys;
        m := m[keys[i] := series[keys[i]].Value()];
        assert keys[..i + 1] == keys[..i] + [keys[i]];
      }
      assert keys[..|keys|] == keys;
    }

    /** The histogram's exposition text; None is the panic of a key with too few values. */
    method Emit(show: real -> string) returns (text: Option<string>)
      requires Valid()
      ensures text == HistogramText(name, help, labelNames, buckets, SeriesOf(history, buckets), show)
    {
      hide SeriesOf, Sort, Sorted, KeyLabels, SortedListing, HeadLines, EscapeHelp, EndLines, SeriesLines, AllLines,
           Separate, Contents;
      var keys, m := Snapshot();
      SortedListingIs(keys, m.Keys);
      keys := Sort(keys);
      var out := "# HELP " + name + " " + EscapeHelp(help) + "\n";
      out := out + "# TYPE " + name + " histogram\n";
      HeadText(name, help, "histogram");
      ghost var lines := HeadLines(name, help, "histogram");
      NoLines(name, labelNames, buckets, m, show);
      assert keys[..0] == [] && lines + [] == lines;
      for i := 0 to |keys|
        invariant forall k <- keys[..i] :: KeyLabels(labelNames, k).Some?
        invariant lines == HeadLines(name, help, "histogram") + AllLines(name, labelNames, keys[..i], buckets, m, show)
        invariant out == EndLines(lines)
      {
        var k := keys[i];
        assert k in keys && k in m.Keys;
        var part := EmitSeries(name, labelNames, k, buckets, m[k], show);
        if part.None? {
          return None;
        }
        assert keys[..i] + [k] == keys[..i + 1];
        AllLinesStep(name, labelNames, keys[..i], k, buckets, m, show);
        ghost var more := SeriesLines(name, KeyLabels(labelNames, k).value, buckets, m[k], show);
        EndLinesConcat(lines, more);
        lines := lines + more;
        out := out + part.value;
      }
      assert keys[..|keys|] == keys;
      return Some(out);
    }
  }

  lemma {:induction false} NoLines(name: string, names: seq<string>, bounds: seq<real>, m: map<string, SeriesValue>,
                                   show: real -> string)
    ensures AllLines(name, names, [], bounds, m, show) == []
  {
  }

  lemma {:induction false} SeriesStep(h: seq<Event<real>>, bounds: seq<real>, o: Event<real>)
    ensures var m, k := SeriesOf(h, bounds), EncodeLabelValues(o.labels);
            SeriesOf(h + [o], bounds) == m[k := After(if k in m then m[k] else Fresh(|bounds|), bounds, o.value)]
  {
    assert (h + [o])[..|h|] == h;
  }

  /** A histogram, or nothing when the bounds are not strictly ascending: the program's panic. */
  method NewHistogram(name: string, help: string, buckets: seq<real>, labelNames: seq<string>) returns (h: Option<Histogram>)
    ensures h.Some? <==> Ascending(buckets)
    ensures h.Some? ==> fresh(h.value) && h.value.Valid() && h.value.history == [] && h.value.owned == {}
                        && h.value.buckets == buckets && h.value.labelNames == labelNames
  {
    var i := 1;
    while i < |buckets|
      invariant 1 <= i && forall j, k :: 0 <= j < k < i && k < |buckets| ==> buckets[j] < buckets[k]
    {
      if buckets[i] <= buckets[i - 1] {
        return None;
      }
      i := i + 1;
    }
    var made := new Histogram(name, help, buckets, labelNames);
    return Some(made);
  }

  // --- Emission ----------------------------------------------------------------------------------

  function BucketLine(name: string, labels: seq<Label>, bound: string, count: int): string {
    name + "_bucket" + Render(labels + [("le", bound)]) + " " + FormatInt(count)
  }

  function BucketLines(name: string, labels: seq<Label>, bounds: seq<real>, counts: seq<int>, show: real -> string): seq<string>
    requires |counts| == |bounds|
  {
    seq(|bounds|, i requires 0 <= i < |bounds| => BucketLine(name, labels, show(bounds[i]), counts[i]))
  }

  /** The samples of one series: a bucket per bound, the +Inf bucket, the sum and the count. */
  function SeriesLines(name: string, labels: seq<Label>, bounds: seq<real>, s: SeriesValue, show: real -> string): seq<string>
    requires |s.counts| == |bounds|
  {
    BucketLines(name, labels, bounds, s.counts, show)
    + [BucketLine(name, labels, "+Inf", s.count),
       name + "_sum" + Render(labels) + " " + show(s.sum),
       name + "_count" + Render(labels) + " " + FormatInt(s.count)]
  }

  /** The series of the keys, in order. */
  function AllLines(name: string, names: seq<string>, keys: seq<string>, bounds: seq<real>, m: map<string, SeriesValue>,
                    show: real -> string): seq<string>
    requires forall k <- keys :: k in m && |m[k].counts| == |bounds| && KeyLabels(names, k).Some?
  {
    if keys == [] then []
    else
      var k := keys[|keys| - 1];
      AllLines(name, names, keys[..|keys| - 1], bounds, m, show)
      + SeriesLines(name, KeyLabels(names, k).value, bounds, m[k], show)
  }

  ghost function HistogramText(name: string, help: string, names: seq<string>, bounds: seq<real>, m: map<string, SeriesValue>,
                               show: real -> string): Option<string>
    requires forall k <- m.Keys :: |m[k].counts| == |bounds|
  {
    SortedListingOk(m.Keys);
    var keys := SortedListing(m.Keys);
    if forall k <- keys :: KeyLabels(names, k).Some?
    then Some(EndLines(HeadLines(name, help, "histogram") + AllLines(name, names, keys, bounds, m, show)))
    else None
  }

  lemma {:induction false} AllLinesStep(name: string, names: seq<string>, keys: seq<string>, k: string, bounds: seq<real>,
                     m: map<string, SeriesValue>, show: real -> string)
    requires forall x <- keys + [k] :: x in m && |m[x].counts| == |bounds| && KeyLabels(names, x).Some?
    ensures (forall x <- keys :: x in m && |m[x].counts| == |bounds| && KeyLabels(names, x).Some?) && k in keys + [k]
    ensures AllLines(name, names, keys + [k], bounds, m, show)
         == AllLines(name, names, keys, bounds, m, show) + SeriesLines(name, KeyLabels(names, k).value, bounds, m[k], show)
  {
    assert (keys + [k])[..|keys|] == keys;
    assert forall x <- keys :: x in keys + [k];
  }

  method EmitBuckets(name: string, names: seq<string>, values: seq<string>, bounds: seq<real>, counts: seq<int>,
                     show: real -> string) returns (text: string)
    requires |counts| == |bounds| && |names| <= |values|
    ensures text == EndLines(BucketLines(name, Zip(names, values), bounds, counts, show))
  {
    hide Render, FormatInt, Zip;
    text := "";
    ghost var labels := Zip(names, values);
    ghost var lines := BucketLines(name, labels, bounds, counts, show);
    for i := 0 to |bounds|
      invariant text == EndLines(lines[..i])
    {
      var labelStr := RenderLabelsWithExtra(names, values, "le", show(bounds[i]));
      var line := name + "_bucket" + labelStr.value + " " + FormatInt(counts[i]);
      EndLinesAppend(lines[..i], line);
      assert lines[..i] + [line] == lines[..i + 1];
      text := text + line + "\n";
    }
    assert lines[..|bounds|] == lines;
  }

  /** The samples of one key; None is the panic of a key with too few values. */
  method EmitSeries(name: string, names: seq<string>, key: string, bounds: seq<real>, s: SeriesValue, show: real -> string)
    returns (text: Option<string>)
    requires |s.counts| == |bounds|
    ensures text == if KeyLabels(names, key).Some?
                    then Some(EndLines(SeriesLines(name, KeyLabels(names, key).value, bounds, s, show))) else None
  {
    hide Render, FormatInt, EndLines, BucketLines;
    var values := DecodeLabelValues(key);
    KeyLabelsAre(names, key);
    if |names| > |values| {
      return None;
    }
    ghost var labels := Zip(names, values);
    ghost var buckets := BucketLines(name, labels, bounds, s.counts, show);
    var out := EmitBuckets(name, names, values, bounds, s.counts, show);
    var labelStr := RenderLabelsWithExtra(names, values, "le", "+Inf");
    var inf := name + "_bucket" + labelStr.value + " " + FormatInt(s.count);
    EndLinesAppend(buckets, inf);
    out := out + inf + "\n";
    var baseLabel := RenderLabels(names, key);
    var sum := name + "_sum" + baseLabel.value + " " + show(s.sum);
    EndLinesAppend(buckets + [inf], sum);
    out := out + sum + "\n";
    var count := name + "_count" + baseLabel.value + " " + FormatInt(s.count);
    EndLinesAppend(buckets + [inf] + [sum], count);
    out := out + count + "\n";
    assert buckets + [inf] + [sum] + [count] == SeriesLines(name, labels, bounds, s, show);
    return Some(out);
  }

  /** Decoding to enough values is what it takes, whether or not there are label names. */
  lemma KeyLabelsAre(names: seq<string>, key: string)
    ensures var values := DecodeLabelValues(key);
            KeyLabels(names, key) == if |names| <= |values| then Some(Zip(names, values)) else None
  {
    if names == [] {
      assert Zip(names, DecodeLabelValues(key)) == [];
    }
  }
}
