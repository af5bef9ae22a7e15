/** What a histogram of core/metrics/metrics.go reports: scraped after any history, its
    samples are exactly those of the observed label tuples. */
module HistogramScrape {
  import opened Wrappers
  import opened Text
  import opened Sorting
  import opened Numbers
  import opened Labels
  import opened Metrics
  import opened Histograms
  import opened CounterHistory
  import opened HistogramHistory

  // --- Reading the exposition text --------------------------------------------------------------

  predicate AllClean(lines: seq<string>) {
    forall i :: 0 <= i < |lines| ==> '\n' !in lines[i]
  }

  predicate LabelsOk(labels: seq<Label>) {
    forall i :: 0 <= i < |labels| ==> '=' !in labels[i].0 && '\n' !in labels[i].0
  }

  lemma BucketLineReads(name: string, labels: seq<Label>, bound: string, count: int)
    requires '\n' !in name && LabelsOk(labels) && IsInt64(count)
    ensures ReadSample(name + "_bucket", BucketLine(name, labels, bound, count))
         == Some(Sample(labels + [("le", bound)], count))
    ensures '\n' !in BucketLine(name, labels, bound, count)
  {
    hide Render, FormatInt, ReadSample;
    var ls := labels + [("le", bound)];
    assert LabelsOk(ls) by { LeOk(bound); }
    assert '\n' !in name + "_bucket" by { SuffixOk(name); }
    ReadsBack(name + "_bucket", ls, count);
    LineIsClean(name + "_bucket", ls, count);
  }

  lemma LeOk(bound: string)
    ensures LabelsOk([("le", bound)])
  {
  }

  lemma SuffixOk(name: string)
    requires '\n' !in name
    ensures '\n' !in name + "_bucket" && '\n' !in name + "_sum" && '\n' !in name + "_count"
  {
    assert '\n' !in "_bucket" && '\n' !in "_sum" && '\n' !in "_count";
  }

  lemma SeriesLinesClean(name: string, labels: seq<Label>, bounds: seq<real>, s: SeriesValue, show: real -> string)
    requires |s.counts| == |bounds| && '\n' !in name && LabelsOk(labels)
    requires forall x :: '\n' !in show(x)
    ensures AllClean(SeriesLines(name, labels, bounds, s, show))
  {
    hide Render, FormatInt, BucketLine, LabelsOk;
    forall b: string, n: int ensures '\n' !in BucketLine(name, labels, b, n) {
      BucketLineClean(name, labels, b, n);
    }
    SuffixOk(name);
    RenderClean(labels);
    LineClean(name + "_sum", Render(labels), show(s.sum));
    FormatClean(s.count);
    LineClean(name + "_count", Render(labels), FormatInt(s.count));
  }

  lemma BucketLineClean(name: string, labels: seq<Label>, bound: string, n: int)
    requires '\n' !in name && LabelsOk(labels)
    ensures '\n' !in BucketLine(name, labels, bound, n)
  {
    hide Render, FormatInt;
    var ls := labels + [("le", bound)];
    assert LabelsOk(ls) by { LeOk(bound); }
    assert '\n' !in name + "_bucket" by { SuffixOk(name); }
    LineIsClean(name + "_bucket", ls, n);
  }

  lemma RenderClean(labels: seq<Label>)
    requires LabelsOk(labels)
    ensures '\n' !in Render(labels)
  {
    hide Block;
    if labels != [] {
      BlockOneLine(labels);
    }
  }

  lemma FormatClean(n: int)
    ensures '\n' !in FormatInt(n)
  {
    hide FormatInt;
    FormatIntAlphabet(n);
  }

  lemma LineClean(a: string, b: string, c: string)
    requires '\n' !in a && '\n' !in b && '\n' !in c
    ensures '\n' !in a + b + " " + c
  {
  }

  lemma KeyLabelsOk(name: string, names: seq<string>, key: string)
    requires NamesOk(name, names) && KeyLabels(names, key).Some?
    ensures LabelsOk(KeyLabels(names, key).value)
  {
    hide KeyLabels;
    KeyLabelNames(names, key);
    var ls := KeyLabels(names, key).value;
    forall i | 0 <= i < |ls| ensures '=' !in ls[i].0 && '\n' !in ls[i].0 {
      assert names[i] in names;
    }
  }

  predicate Emittable(names: seq<string>, keys: seq<string>, bounds: seq<real>, m: map<string, SeriesValue>) {
    forall k <- keys :: k in m && |m[k].counts| == |bounds| && KeyLabels(names, k).Some?
  }

  lemma {:induction false} AllLinesClean(name: string, names: seq<string>, keys: seq<string>, bounds: seq<real>,
                                         m: map<string, SeriesValue>, show: real -> string)
    requires NamesOk(name, names) && Emittable(names, keys, bounds, m) && forall x :: '\n' !in show(x)
    ensures AllClean(AllLines(name, names, keys, bounds, m, show))
  {
    hide KeyLabels, SeriesLines, NamesOk;
    if keys != [] {
      var front, k := keys[..|keys| - 1], keys[|keys| - 1];
      assert keys == front + [k];
      AllLinesClean(name, names, front, bounds, m, show);
      KeyLabelsOk(name, names, k);
      NameClean(name, names);
      SeriesLinesClean(name, KeyLabels(names, k).value, bounds, m[k], show);
    }
  }

  lemma NameClean(name: string, names: seq<string>)
    requires NamesOk(name, names)
    ensures '\n' !in name
  {
  }

  /** The samples of one name among the lines, in order; other lines do not read. */
  function SamplesIn(name: string, lines: seq<string>): seq<Sample> {
    if lines == [] then []
    else
      var first, rest := ReadSample(name, lines[0]), SamplesIn(name, lines[1..]);
      if first.Some? then [first.value] + rest else rest
  }

  lemma {:induction false} SamplesInConcat(name: string, a: seq<string>, b: seq<string>)
    ensures SamplesIn(name, a + b) == SamplesIn(name, a) + SamplesIn(name, b)
  {
    hide ReadSample;
    if a == [] {
      assert a + b == b;
    } else {
      SamplesInConcat(name, a[1..], b);
      assert (a + b)[1..] == a[1..] + b;
    }
  }

  lemma {:induction false} AllRead(name: string, lines: seq<string>, samples: seq<Sample>)
    requires |lines| == |samples|
    requires forall i :: 0 <= i < |lines| ==> ReadSample(name, lines[i]) == Some(samples[i])
    ensures SamplesIn(name, lines) == samples
  {
    hide ReadSample;
    if lines != [] {
      AllRead(name, lines[1..], samples[1..]);
      assert samples == [samples[0]] + samples[1..];
    }
  }

  lemma {:induction false} NoneRead(name: string, lines: seq<string>)
    requires forall i :: 0 <= i < |lines| ==> ReadSample(name, lines[i]).None?
    ensures SamplesIn(name, lines) == []
  {
    hide ReadSample;
    if lines != [] {
      NoneRead(name, lines[1..]);
    }
  }

  /** A line that departs from the name before its end does not read. */
  lemma OtherName(name: string, line: string, i: nat)
    requires i < |name| && (i < |line| ==> line[i] != name[i])
    ensures ReadSample(name, line).None?
  {
    if |line| >= |name| {
      assert line[..|name|][i] == line[i];
    }
  }

  lemma SuffixesDiffer(name: string, rest: string)
    ensures ReadSample(name + "_bucket", name + "_sum" + rest).None?
    ensures ReadSample(name + "_bucket", name + "_count" + rest).None?
    ensures ReadSample(name + "_count", name + "_sum" + rest).None?
    ensures ReadSample(name + "_count", name + "_bucket" + rest).None?
  {
    hide ReadSample;
    var i := |name| + 1;
    assert (name + "_bucket")[i] == 'b' && (name + "_count")[i] == 'c';
    assert (name + "_sum" + rest)[i] == 's';
    assert (name + "_count" + rest)[i] == 'c' && (name + "_bucket" + rest)[i] == 'b';
    OtherName(name + "_bucket", name + "_sum" + rest, i);
    OtherName(name + "_bucket", name + "_count" + rest, i);
    OtherName(name + "_count", name + "_sum" + rest, i);
    OtherName(name + "_count", name + "_bucket" + rest, i);
  }

  // --- One series ------------------------------------------------------------------------------------

  /** The counts of a series with their bounds, +Inf last. */
  function BucketSamples(labels: seq<Label>, bounds: seq<real>, s: SeriesValue, show: real -> string): seq<Sample>
    requires |s.counts| == |bounds|
  {
    seq(|bounds|, i requires 0 <= i < |bounds| => Sample(labels + [("le", show(bounds[i]))], s.counts[i]))
    + [Sample(labels + [("le", "+Inf")], s.count)]
  }

  predicate CountsFit(s: SeriesValue, n: nat) {
    |s.counts| == n && IsInt64(s.count) && forall i :: 0 <= i < n ==> IsInt64(s.counts[i])
  }

  lemma {:induction false} SeriesBuckets(name: string, labels: seq<Label>, bounds: seq<real>, s: SeriesValue,
                                         show: real -> string)
    requires '\n' !in name && LabelsOk(labels) && CountsFit(s, |bounds|)
    ensures SamplesIn(name + "_bucket", SeriesLines(name, labels, bounds, s, show))
         == BucketSamples(labels, bounds, s, show)
  {
    hide Render, FormatInt, BucketLine, ReadSample, LabelsOk, SamplesIn;
    var prefix := name + "_bucket";
    var buckets := BucketLines(name, labels, bounds, s.counts, show) + [BucketLine(name, labels, "+Inf", s.count)];
    var samples := BucketSamples(labels, bounds, s, show);
    forall i | 0 <= i < |bounds| ensures ReadSample(prefix, buckets[i]) == Some(samples[i]) {
      BucketLineReads(name, labels, show(bounds[i]), s.counts[i]);
    }
    BucketLineReads(name, labels, "+Inf", s.count);
    AllRead(prefix, buckets, samples);
    var sum, count := Render(labels) + " " + show(s.sum), Render(labels) + " " + FormatInt(s.count);
    SuffixesDiffer(name, sum);
    SuffixesDiffer(name, count);
    Grouped(name + "_sum", Render(labels), show(s.sum));
    Grouped(name + "_count", Render(labels), FormatInt(s.count));
    NoneRead(prefix, [name + "_sum" + sum, name + "_count" + count]);
    SamplesInConcat(prefix, buckets, [name + "_sum" + sum, name + "_count" + count]);
    assert SeriesLines(name, labels, bounds, s, show) == buckets + [name + "_sum" + sum, name + "_count" + count];
    assert samples + [] == samples;
  }

  lemma Grouped(a: string, b: string, c: string)
    ensures a + b + " " + c == a + (b + " " + c)
  {
  }

  lemma {:induction false} SeriesCount(name: string, labels: seq<Label>, bounds: seq<real>, s: SeriesValue,
                                       show: real -> string)
    requires '\n' !in name && LabelsOk(labels) && CountsFit(s, |bounds|)
    ensures SamplesIn(name + "_count", SeriesLines(name, labels, bounds, s, show)) == [Sample(labels, s.count)]
  {
    hide Render, FormatInt, BucketLine, ReadSample, LabelsOk, SamplesIn;
    var prefix := name + "_count";
    var lines := SeriesLines(name, labels, bounds, s, show);
    var n := |bounds| + 2;
    forall i | 0 <= i < n ensures ReadSample(prefix, lines[i]).None? {
      if i < n - 1 {
        var bound := if i < |bounds| then show(bounds[i]) else "+Inf";
        var count := if i < |bounds| then s.counts[i] else s.count;
        assert lines[i] == BucketLine(name, labels, bound, count);
        NotACount(name, labels, bound, count);
      } else {
        SuffixesDiffer(name, Render(labels) + " " + show(s.sum));
        Grouped(name + "_sum", Render(labels), show(s.sum));
      }
    }
    NoneRead(prefix, lines[..n]);
    LabelNamesClean(labels);
    ReadsBack(prefix, labels, s.count);
    AllRead(prefix, lines[n..], [Sample(labels, s.count)]);
    SamplesInConcat(prefix, lines[..n], lines[n..]);
    assert lines == lines[..n] + lines[n..];
  }

  lemma NotACount(name: string, labels: seq<Label>, bound: string, count: int)
    ensures ReadSample(name + "_count", BucketLine(name, labels, bound, count)).None?
  {
    hide Render, FormatInt, ReadSample;
    var rest := Render(labels + [("le", bound)]) + " " + FormatInt(count);
    SuffixesDiffer(name, rest);
    Grouped(name + "_bucket", Render(labels + [("le", bound)]), FormatInt(count));
  }

  // --- The whole text ------------------------------------------------------------------------------------

  function AllBucketSamples(names: seq<string>, keys: seq<string>, bounds: seq<real>, m: map<string, SeriesValue>,
                            show: real -> string): seq<Sample>
    requires Emittable(names, keys, bounds, m)
  {
    if keys == [] then []
    else
      var k := keys[|keys| - 1];
      AllBucketSamples(names, keys[..|keys| - 1], bounds, m, show)
      + BucketSamples(KeyLabels(names, k).value, bounds, m[k], show)
  }

  function AllCountSamples(names: seq<string>, keys: seq<string>, bounds: seq<real>, m: map<string, SeriesValue>)
    : seq<Sample>
    requires Emittable(names, keys, bounds, m)
  {
    if keys == [] then []
    else
      var k := keys[|keys| - 1];
      AllCountSamples(names, keys[..|keys| - 1], bounds, m) + [Sample(KeyLabels(names, k).value, m[k].count)]
  }

  lemma {:induction false} AllLinesRead(name: string, names: seq<string>, keys: seq<string>, bounds: seq<real>,
                                        m: map<string, SeriesValue>, show: real -> string)
    requires NamesOk(name, names) && Emittable(names, keys, bounds, m) && forall k <- keys :: CountsFit(m[k], |bounds|)
    ensures SamplesIn(name + "_bucket", AllLines(name, names, keys, bounds, m, show))
         == AllBucketSamples(names, keys, bounds, m, show)
    ensures SamplesIn(name + "_count", AllLines(name, names, keys, bounds, m, show))
         == AllCountSamples(names, keys, bounds, m)
  {
    hide KeyLabels, SeriesLines, NamesOk, BucketSamples, CountsFit, LabelsOk, ReadSample;
    if keys != [] {
      var front, k := keys[..|keys| - 1], keys[|keys| - 1];
      assert keys == front + [k];
      AllLinesRead(name, names, front, bounds, m, show);
      KeyLabelsOk(name, names, k);
      NameClean(name, names);
      var ls := KeyLabels(names, k).value;
      SeriesBuckets(name, ls, bounds, m[k], show);
      SeriesCount(name, ls, bounds, m[k], show);
      var before, lines := AllLines(name, names, front, bounds, m, show), SeriesLines(name, ls, bounds, m[k], show);
      SamplesInConcat(name + "_bucket", before, lines);
      SamplesInConcat(name + "_count", before, lines);
    }
  }

  predicate NoComment(name: string) {
    name == "" || name[0] != '#'
  }

  lemma {:induction false} CommentsDoNotRead(name: string, help: string, kind: string, suffix: string)
    requires NoComment(name) && suffix != "" && suffix[0] != '#'
    ensures SamplesIn(name + suffix, HeadLines(name, help, kind)) == [] && SamplesIn(name + suffix, [""]) == []
  {
    hide EscapeHelp, ReadSample, SamplesIn;
    var prefix, lines := name + suffix, HeadLines(name, help, kind);
    assert prefix[0] != '#' && lines[0][0] == '#' && lines[1][0] == '#';
    OtherName(prefix, lines[0], 0);
    OtherName(prefix, lines[1], 0);
    NoneRead(prefix, lines);
    OtherName(prefix, "", 0);
    NoneRead(prefix, [""]);
  }

  /** Scraping a histogram's text gives its series back, in key order: their buckets under one
      name and their counts under the other. */
  lemma {:induction false} HistogramReads(name: string, help: string, names: seq<string>, bounds: seq<real>,
                                          m: map<string, SeriesValue>,
                       show: real -> string)
    requires NamesOk(name, names) && NoComment(name) && forall x :: '\n' !in show(x)
    requires forall k <- m.Keys :: |m[k].counts| == |bounds| && CountsFit(m[k], |bounds|) && KeyLabels(names, k).Some?
    ensures var text, keys := HistogramText(name, help, names, bounds, m, show), SortedListing(m.Keys);
            && text.Some? && Emittable(names, keys, bounds, m)
            && SamplesIn(name + "_bucket", Split(text.value, '\n')) == AllBucketSamples(names, keys, bounds, m, show)
            && SamplesIn(name + "_count", Split(text.value, '\n')) == AllCountSamples(names, keys, bounds, m)
  {
    hide KeyLabels, SeriesLines, NamesOk, Split, AllLines, HeadLines, EndLines, Sort, Sorted, SortedListing, CountsFit,
         SamplesIn, AllBucketSamples, AllCountSamples;
    SortedListingOk(m.Keys);
    var keys := SortedListing(m.Keys);
    FitsEmittable(names, keys, bounds, m);
    var head, body := HeadLines(name, help, "histogram"), AllLines(name, names, keys, bounds, m, show);
    AllLinesClean(name, names, keys, bounds, m, show);
    AllLinesRead(name, names, keys, bounds, m, show);
    NameClean(name, names);
    assert '\n' !in "histogram";
    HeadIsClean(name, help, "histogram");
    SplitEndLines(head + body);
    BodyOnly(name + "_bucket", head, body) by { CommentsDoNotRead(name, help, "histogram", "_bucket"); }
    BodyOnly(name + "_count", head, body) by { CommentsDoNotRead(name, help, "histogram", "_count"); }
  }

  lemma FitsEmittable(names: seq<string>, keys: seq<string>, bounds: seq<real>, m: map<string, SeriesValue>)
    requires forall k <- keys :: k in m && CountsFit(m[k], |bounds|) && KeyLabels(names, k).Some?
    ensures Emittable(names, keys, bounds, m)
  {
  }

  lemma {:induction false} BodyOnly(name: string, head: seq<string>, body: seq<string>)
    requires SamplesIn(name, head) == [] && SamplesIn(name, [""]) == []
    ensures SamplesIn(name, head + body + [""]) == SamplesIn(name, body)
  {
    hide SamplesIn;
    SamplesInConcat(name, head + body, [""]);
    SamplesInConcat(name, head, body);
    var samples := SamplesIn(name, body);
    assert [] + samples + [] == samples;
  }

  // --- What the samples say --------------------------------------------------------------------------------

  predicate DistinctLabels(samples: seq<Sample>) {
    forall i, j :: 0 <= i < j < |samples| ==> samples[i].labels != samples[j].labels
  }

  /** Bounds that print differently from one another and from +Inf. */
  predicate BoundsShown(bounds: seq<real>, show: real -> string) {
    && (forall i, j :: 0 <= i < j < |bounds| ==> show(bounds[i]) != show(bounds[j]))
    && forall i :: 0 <= i < |bounds| ==> show(bounds[i]) != "+Inf"
  }

  predicate KeysApart(names: seq<string>, keys: seq<string>) {
    forall i, j :: 0 <= i < j < |keys| ==> KeyLabels(names, keys[i]) != KeyLabels(names, keys[j])
  }

  lemma BucketsDistinct(labels: seq<Label>, bounds: seq<real>, s: SeriesValue, show: real -> string)
    requires |s.counts| == |bounds| && BoundsShown(bounds, show)
    ensures DistinctLabels(BucketSamples(labels, bounds, s, show))
  {
    var samples := BucketSamples(labels, bounds, s, show);
    forall i, j | 0 <= i < j < |samples| ensures samples[i].labels != samples[j].labels {
      assert samples[i].labels[|labels|] == ("le", show(bounds[i]));
      assert samples[j].labels[|labels|] == ("le", if j < |bounds| then show(bounds[j]) else "+Inf");
    }
  }

  lemma BucketsKeepLabels(labels: seq<Label>, bounds: seq<real>, s: SeriesValue, show: real -> string)
    requires |s.counts| == |bounds|
    ensures forall x <- BucketSamples(labels, bounds, s, show) ::
              |x.labels| == |labels| + 1 && x.labels[..|labels|] == labels
  {
    var samples := BucketSamples(labels, bounds, s, show);
    forall i | 0 <= i < |samples|
      ensures |samples[i].labels| == |labels| + 1 && samples[i].labels[..|labels|] == labels
    {
    }
  }

  lemma {:induction false} AllBucketsFrom(names: seq<string>, keys: seq<string>, bounds: seq<real>,
                                          m: map<string, SeriesValue>, show: real -> string, x: Sample)
    requires Emittable(names, keys, bounds, m)
    ensures x in AllBucketSamples(names, keys, bounds, m, show)
       <==> exists i :: 0 <= i < |keys| && x in BucketSamples(KeyLabels(names, keys[i]).value, bounds, m[keys[i]], show)
  {
    hide KeyLabels, BucketSamples;
    if keys != [] {
      AllBucketsFrom(names, keys[..|keys| - 1], bounds, m, show, x);
      assert forall i :: 0 <= i < |keys| - 1 ==> keys[..|keys| - 1][i] == keys[i];
    }
  }

  lemma {:induction false} AllCountsFrom(names: seq<string>, keys: seq<string>, bounds: seq<real>,
                                         m: map<string, SeriesValue>)
    requires Emittable(names, keys, bounds, m)
    ensures |AllCountSamples(names, keys, bounds, m)| == |keys|
    ensures forall i :: 0 <= i < |keys| ==>
              AllCountSamples(names, keys, bounds, m)[i] == Sample(KeyLabels(names, keys[i]).value, m[keys[i]].count)
  {
    hide KeyLabels;
    if keys != [] {
      AllCountsFrom(names, keys[..|keys| - 1], bounds, m);
    }
  }

  lemma {:induction false} AllBucketsDistinct(names: seq<string>, keys: seq<string>, bounds: seq<real>,
                                              m: map<string, SeriesValue>, show: real -> string)
    requires Emittable(names, keys, bounds, m) && BoundsShown(bounds, show) && KeysApart(names, keys)
    ensures DistinctLabels(AllBucketSamples(names, keys, bounds, m, show))
  {
    hide KeyLabels, BucketSamples, BoundsShown;
    if keys != [] {
      var n := |keys| - 1;
      var front, k := keys[..n], keys[n];
      var ls := KeyLabels(names, k).value;
      var a, b := AllBucketSamples(names, front, bounds, m, show), BucketSamples(ls, bounds, m[k], show);
      AllBucketsDistinct(names, front, bounds, m, show);
      BucketsDistinct(ls, bounds, m[k], show);
      BucketsKeepLabels(ls, bounds, m[k], show);
      KeyLabelNames(names, k);
      forall x, y | x in a && y in b ensures x.labels != y.labels {
        AllBucketsFrom(names, front, bounds, m, show, x);
        var i :| 0 <= i < n && x in BucketSamples(KeyLabels(names, front[i]).value, bounds, m[front[i]], show);
        BucketsKeepLabels(KeyLabels(names, front[i]).value, bounds, m[front[i]], show);
        KeyLabelNames(names, front[i]);
        assert KeyLabels(names, keys[i]) != KeyLabels(names, keys[n]);
      }
      DistinctConcat(a, b);
    }
  }

  lemma DistinctConcat(a: seq<Sample>, b: seq<Sample>)
    requires DistinctLabels(a) && DistinctLabels(b) && forall x <- a, y <- b :: x.labels != y.labels
    ensures DistinctLabels(a + b)
  {
    var c := a + b;
    forall i, j | 0 <= i < j < |c| ensures c[i].labels != c[j].labels {
      if i < |a| <= j {
        assert c[i] in a && c[j] in b;
      }
    }
  }

  // --- The theorem ------------------------------------------------------------------------------------------------

  /** The bucket samples of a tuple: how many of its own observations there were up to each
      bound, and in all. */
  function TupleBuckets(h: seq<Event<real>>, bounds: seq<real>, names: seq<string>, show: real -> string, t: seq<string>)
    : seq<Sample>
    requires |t| == |names|
  {
    BucketSamples(Zip(names, t), bounds, TupleValue(h, bounds, t), show)
  }

  function TupleValue(h: seq<Event<real>>, bounds: seq<real>, t: seq<string>): (s: SeriesValue)
    ensures |s.counts| == |bounds|
  {
    SeriesValue(seq(|bounds|, i requires 0 <= i < |bounds| => CountUpTo(h, t, bounds[i])), TotalFor(h, t), CountFor(h, t))
  }

  /** Exactly the observed tuples' buckets and counts, each under labels of its own. */
  ghost predicate ReportsExactly(buckets: seq<Sample>, counts: seq<Sample>, h: seq<Event<real>>, bounds: seq<real>,
                                 names: seq<string>, show: real -> string) {
    && (forall x :: x in buckets <==>
          exists t: seq<string> :: |t| == |names| && Seen(h, t) && x in TupleBuckets(h, bounds, names, show, t))
    && (forall x :: x in counts <==>
          exists t: seq<string> :: |t| == |names| && Seen(h, t) && x == Sample(Zip(names, t), CountFor(h, t)))
    && DistinctLabels(buckets) && DistinctLabels(counts)
  }

  lemma {:induction false} SeriesIsTuple(h: seq<Event<real>>, bounds: seq<real>, names: seq<string>, t: seq<string>)
    requires Proper(h, |names|) && Renderable(h) && |t| == |names| && Seen(h, t) && IsInt64(|h|)
    ensures var m, k := SeriesOf(h, bounds), EncodeLabelValues(t);
            && k in m && m[k] == TupleValue(h, bounds, t) && KeyLabels(names, k) == Some(Zip(names, t))
            && CountsFit(m[k], |bounds|)
  {
    hide KeyLabels, SeriesOf, EncodeLabelValues, NoNul, Zip;
    var i :| 0 <= i < |h| && h[i].labels == t;
    SeriesAgree(h, bounds, |names|, t);
    KeyLabelsIff(names, t);
    var s := SeriesOf(h, bounds)[EncodeLabelValues(t)];
    assert s.counts == TupleValue(h, bounds, t).counts;
  }

  /** The key of a series is the key of an observed tuple. */
  lemma KeyIsTuple(h: seq<Event<real>>, bounds: seq<real>, names: seq<string>, k: string) returns (t: seq<string>)
    requires Proper(h, |names|) && Renderable(h) && IsInt64(|h|) && k in SeriesOf(h, bounds)
    ensures |t| == |names| && Seen(h, t) && EncodeLabelValues(t) == k
    ensures SeriesOf(h, bounds)[k] == TupleValue(h, bounds, t) && KeyLabels(names, k) == Some(Zip(names, t))
    ensures CountsFit(SeriesOf(h, bounds)[k], |bounds|)
  {
    hide KeyLabels, SeriesOf, EncodeLabelValues, NoNul, Zip, TupleValue, Seen, CountsFit;
    SeriesAreSeen(h, bounds, k);
    var i :| 0 <= i < |h| && EncodeLabelValues(h[i].labels) == k;
    t := h[i].labels;
    SeenAt(h, i);
    SeriesIsTuple(h, bounds, names, t);
  }

  lemma {:induction false} KeysOfTuplesApart(h: seq<Event<real>>, bounds: seq<real>, names: seq<string>, keys: seq<string>)
    requires Proper(h, |names|) && Renderable(h) && IsInt64(|h|) && Lists(keys, SeriesOf(h, bounds).Keys)
    ensures KeysApart(names, keys)
  {
    hide KeyLabels, SeriesOf, EncodeLabelValues, Zip, TupleValue, Seen, CountsFit, Proper, Renderable;
    forall i, j | 0 <= i < j < |keys| ensures KeyLabels(names, keys[i]) != KeyLabels(names, keys[j]) {
      assert keys[i] in keys && keys[j] in keys;
      var t := KeyIsTuple(h, bounds, names, keys[i]);
      var u := KeyIsTuple(h, bounds, names, keys[j]);
      if Zip(names, t) == Zip(names, u) {
        ZipInjective(names, t, u);
      }
    }
  }

  lemma {:induction false} BucketsReport(h: seq<Event<real>>, bounds: seq<real>, names: seq<string>, show: real -> string,
                      keys: seq<string>, x: Sample)
    requires Proper(h, |names|) && Renderable(h) && IsInt64(|h|) && Lists(keys, SeriesOf(h, bounds).Keys)
    requires Emittable(names, keys, bounds, SeriesOf(h, bounds))
    ensures x in AllBucketSamples(names, keys, bounds, SeriesOf(h, bounds), show)
       <==> exists t: seq<string> :: |t| == |names| && Seen(h, t) && x in TupleBuckets(h, bounds, names, show, t)
  {
    hide KeyLabels, SeriesOf, EncodeLabelValues, Zip, TupleValue, Seen, CountsFit, Proper, Renderable, BucketSamples;
    var m := SeriesOf(h, bounds);
    AllBucketsFrom(names, keys, bounds, m, show, x);
    if i :| 0 <= i < |keys| && x in BucketSamples(KeyLabels(names, keys[i]).value, bounds, m[keys[i]], show) {
      var t := KeyIsTuple(h, bounds, names, keys[i]);
      assert x in TupleBuckets(h, bounds, names, show, t);
    }
    if t: seq<string> :| |t| == |names| && Seen(h, t) && x in TupleBuckets(h, bounds, names, show, t) {
      SeriesIsTuple(h, bounds, names, t);
      var k := EncodeLabelValues(t);
      assert k in keys;
      var i :| 0 <= i < |keys| && keys[i] == k;
    }
  }

  lemma {:induction false} CountsReport(h: seq<Event<real>>, bounds: seq<real>, names: seq<string>, keys: seq<string>,
                                        x: Sample)
    requires Proper(h, |names|) && Renderable(h) && IsInt64(|h|) && Lists(keys, SeriesOf(h, bounds).Keys)
    requires Emittable(names, keys, bounds, SeriesOf(h, bounds))
    ensures x in AllCountSamples(names, keys, bounds, SeriesOf(h, bounds))
       <==> exists t: seq<string> :: |t| == |names| && Seen(h, t) && x == Sample(Zip(names, t), CountFor(h, t))
  {
    hide KeyLabels, SeriesOf, EncodeLabelValues, Zip, Seen, CountsFit, Proper, Renderable, AllCountSamples, CountFor;
    var m := SeriesOf(h, bounds);
    var counts := AllCountSamples(names, keys, bounds, m);
    AllCountsFrom(names, keys, bounds, m);
    if x in counts {
      var i :| 0 <= i < |counts| && counts[i] == x;
      var t := KeyIsTuple(h, bounds, names, keys[i]);
      assert x == Sample(Zip(names, t), CountFor(h, t));
    }
    if t: seq<string> :| |t| == |names| && Seen(h, t) && x == Sample(Zip(names, t), CountFor(h, t)) {
      SeriesIsTuple(h, bounds, names, t);
      var k := EncodeLabelValues(t);
      assert k in keys;
      var i :| 0 <= i < |keys| && keys[i] == k;
      assert counts[i] == x;
    }
  }

  lemma {:induction false} CountsDistinct(names: seq<string>, keys: seq<string>, bounds: seq<real>,
                                          m: map<string, SeriesValue>)
    requires Emittable(names, keys, bounds, m) && KeysApart(names, keys)
    ensures DistinctLabels(AllCountSamples(names, keys, bounds, m))
  {
    hide KeyLabels, AllCountSamples;
    AllCountsFrom(names, keys, bounds, m);
    forall i, j | 0 <= i < j < |keys|
      ensures AllCountSamples(names, keys, bounds, m)[i].labels != AllCountSamples(names, keys, bounds, m)[j].labels
    {
      assert keys[i] in keys && keys[j] in keys;
    }
  }

  /** Scraped after any history, the bucket and count samples are exactly those of the observed
      tuples, each bucket counting the tuple's own observations up to its bound and +Inf and the
      count all of them, and no labels come twice. */
  lemma {:induction false} ScrapeReportsObservations(h: seq<Event<real>>, bounds: seq<real>, name: string,
                                                     help: string, names: seq<string>,
                                  show: real -> string)
    requires Proper(h, |names|) && Renderable(h) && NamesOk(name, names) && NoComment(name) && IsInt64(|h|)
    requires BoundsShown(bounds, show) && forall x :: '\n' !in show(x)
    ensures var text := HistogramText(name, help, names, bounds, SeriesOf(h, bounds), show);
            text.Some? && ReportsExactly(SamplesIn(name + "_bucket", Split(text.value, '\n')),
                                         SamplesIn(name + "_count", Split(text.value, '\n')), h, bounds, names, show)
  {
    hide KeyLabels, SeriesOf, Sort, Sorted, SortedListing, HistogramText, SamplesIn, Split, AllBucketSamples,
         AllCountSamples, Proper, Renderable, NamesOk, IsInt64, CountsFit, BoundsShown, KeysApart, DistinctLabels,
         TupleBuckets, CountFor, Zip, Seen, Emittable, NoComment;
    var m := SeriesOf(h, bounds);
    var keys := SortedListing(m.Keys);
    SortedListingOk(m.Keys);
    forall k | k in m.Keys ensures CountsFit(m[k], |bounds|) && KeyLabels(names, k).Some? {
      var t := KeyIsTuple(h, bounds, names, k);
    }
    HistogramReads(name, help, names, bounds, m, show);
    KeysOfTuplesApart(h, bounds, names, keys);
    AllBucketsDistinct(names, keys, bounds, m, show);
    CountsDistinct(names, keys, bounds, m);
    forall x ensures x in AllBucketSamples(names, keys, bounds, m, show)
                <==> exists t: seq<string> :: |t| == |names| && Seen(h, t) && x in TupleBuckets(h, bounds, names, show, t)
    {
      BucketsReport(h, bounds, names, show, keys, x);
    }
    forall x ensures x in AllCountSamples(names, keys, bounds, m)
                <==> exists t: seq<string> :: |t| == |names| && Seen(h, t) && x == Sample(Zip(names, t), CountFor(h, t))
    {
      CountsReport(h, bounds, names, keys, x);
    }
  }

  lemma LabelNamesClean(labels: seq<Label>)
    requires LabelsOk(labels)
    ensures forall i :: 0 <= i < |labels| ==> '=' !in labels[i].0
  {
  }

  // --- The rest of the text: comments and sums ---------------------------------------------------------------------

  lemma HistogramDeclares(name: string, help: string, names: seq<string>, bounds: seq<real>, m: map<string, SeriesValue>,
                          show: real -> string)
    requires '\n' !in name && forall k <- m.Keys :: |m[k].counts| == |bounds|
    ensures var text := HistogramText(name, help, names, bounds, m, show);
            text.Some? ==> Declares(text.value, name, help, "histogram")
  {
    hide KeyLabels, Sort, Sorted, SortedListing, EndLines, HeadLines, AllLines, Declares;
    SortedListingOk(m.Keys);
    var keys := SortedListing(m.Keys);
    assert '\n' !in "histogram";
    if forall k <- keys :: KeyLabels(names, k).Some? {
      HeadDeclares(name, help, "histogram", AllLines(name, names, keys, bounds, m, show));
    }
  }

  function SumLine(name: string, labels: seq<Label>, shown: string): string {
    name + "_sum" + Render(labels) + " " + shown
  }

  lemma {:induction false} AllLinesFrom(name: string, names: seq<string>, keys: seq<string>, bounds: seq<real>,
                                        m: map<string, SeriesValue>, show: real -> string, line: string)
    requires Emittable(names, keys, bounds, m)
    ensures line in AllLines(name, names, keys, bounds, m, show)
       <==> exists i :: 0 <= i < |keys| && line in SeriesLines(name, KeyLabels(names, keys[i]).value, bounds, m[keys[i]], show)
  {
    hide KeyLabels, SeriesLines;
    if keys != [] {
      AllLinesFrom(name, names, keys[..|keys| - 1], bounds, m, show, line);
      assert forall i :: 0 <= i < |keys| - 1 ==> keys[..|keys| - 1][i] == keys[i];
    }
  }

  lemma SeriesSum(name: string, labels: seq<Label>, bounds: seq<real>, s: SeriesValue, show: real -> string, line: string)
    requires |s.counts| == |bounds|
    ensures line in SeriesLines(name, labels, bounds, s, show) && name + "_sum" <= line
       <==> line == SumLine(name, labels, show(s.sum))
  {
    hide Render, FormatInt;
    var lines, n, sum := SeriesLines(name, labels, bounds, s, show), |bounds|, SumLine(name, labels, show(s.sum));
    assert lines[n + 1] == sum;
    assert sum == (name + "_sum") + (Render(labels) + " " + show(s.sum));
    forall i | 0 <= i < |lines| && i != n + 1 ensures |lines[i]| > |name| + 1 && lines[i][|name| + 1] != 's' {
      if i <= n {
        var bound := if i < n then show(bounds[i]) else "+Inf";
        var count := if i < n then s.counts[i] else s.count;
        assert lines[i] == BucketLine(name, labels, bound, count);
        SuffixLetter(name, "_bucket", Render(labels + [("le", bound)]) + " " + FormatInt(count));
        Grouped(name + "_bucket", Render(labels + [("le", bound)]), FormatInt(count));
      } else {
        SuffixLetter(name, "_count", Render(labels) + " " + FormatInt(s.count));
        Grouped(name + "_count", Render(labels), FormatInt(s.count));
      }
    }
    if name + "_sum" <= line {
      assert line[|name| + 1] == (name + "_sum")[|name| + 1] == 's';
    }
  }

  lemma SuffixLetter(name: string, suffix: string, rest: string)
    requires |suffix| >= 2
    ensures |name + suffix + rest| > |name| + 1 && (name + suffix + rest)[|name| + 1] == suffix[1]
  {
  }

  lemma HeadHasNoSum(name: string, help: string, kind: string, line: string)
    requires NoComment(name) && line in HeadLines(name, help, kind) + [""]
    ensures !(name + "_sum" <= line)
  {
    hide EscapeHelp;
    assert line == "" || line[0] == '#';
    assert name + "_sum" != "" && (name + "_sum")[0] != '#';
  }

  /** Among the lines of a scrape, those of the sum are exactly one for each observed tuple, with
      the sum of the tuple's own observations. */
  lemma {:induction false} ScrapeReportsSums(h: seq<Event<real>>, bounds: seq<real>, name: string, help: string,
                                             names: seq<string>,
                          show: real -> string, line: string)
    requires Proper(h, |names|) && Renderable(h) && NamesOk(name, names) && NoComment(name) && IsInt64(|h|)
    requires forall x :: '\n' !in show(x)
    ensures var text := HistogramText(name, help, names, bounds, SeriesOf(h, bounds), show);
            && text.Some?
            && (line in Split(text.value, '\n') && name + "_sum" <= line
                <==> exists t: seq<string> :: |t| == |names| && Seen(h, t)
                                              && line == SumLine(name, Zip(names, t), show(TotalFor(h, t))))
  {
    hide KeyLabels, SeriesOf, Sort, Sorted, SortedListing, Split, EndLines, HeadLines, AllLines, Proper, Renderable,
         NamesOk, IsInt64, CountsFit, Zip, Seen, NoComment, SumLine, SeriesLines, TotalFor;
    var m := SeriesOf(h, bounds);
    var keys := SortedListing(m.Keys);
    SortedListingOk(m.Keys);
    forall k | k in m.Keys ensures CountsFit(m[k], |bounds|) && KeyLabels(names, k).Some? {
      var t := KeyIsTuple(h, bounds, names, k);
    }
    FitsEmittable(names, keys, bounds, m);
    var head, body := HeadLines(name, help, "histogram"), AllLines(name, names, keys, bounds, m, show);
    HistogramLines(name, help, names, keys, bounds, m, show);
    assert Split(EndLines(head + body), '\n') == head + body + [""];
    if line in head + [""] {
      HeadHasNoSum(name, help, "histogram", line);
    }
    SumsFrom(h, bounds, name, names, show, keys, line);
  }

  lemma {:induction false} HistogramLines(name: string, help: string, names: seq<string>, keys: seq<string>,
                                          bounds: seq<real>,
                       m: map<string, SeriesValue>, show: real -> string)
    requires NamesOk(name, names) && Emittable(names, keys, bounds, m) && forall x :: '\n' !in show(x)
    ensures var lines := HeadLines(name, help, "histogram") + AllLines(name, names, keys, bounds, m, show);
            Split(EndLines(lines), '\n') == lines + [""]
  {
    hide KeyLabels, AllLines, HeadLines, EndLines, Split;
    AllLinesClean(name, names, keys, bounds, m, show);
    NameClean(name, names);
    assert '\n' !in "histogram";
    HeadIsClean(name, help, "histogram");
    SplitEndLines(HeadLines(name, help, "histogram") + AllLines(name, names, keys, bounds, m, show));
  }

  lemma {:induction false} SumsFrom(h: seq<Event<real>>, bounds: seq<real>, name: string, names: seq<string>,
                                    show: real -> string,
                 keys: seq<string>, line: string)
    requires Proper(h, |names|) && Renderable(h) && IsInt64(|h|) && Lists(keys, SeriesOf(h, bounds).Keys)
    requires Emittable(names, keys, bounds, SeriesOf(h, bounds))
    ensures line in AllLines(name, names, keys, bounds, SeriesOf(h, bounds), show) && name + "_sum" <= line
       <==> exists t: seq<string> :: |t| == |names| && Seen(h, t)
                                     && line == SumLine(name, Zip(names, t), show(TotalFor(h, t)))
  {
    hide KeyLabels, SeriesOf, EncodeLabelValues, Zip, Seen, CountsFit, Proper, Renderable, SeriesLines, SumLine, AllLines,
         TotalFor, CountFor, CountUpTo;
    var m := SeriesOf(h, bounds);
    AllLinesFrom(name, names, keys, bounds, m, show, line);
    if i :| 0 <= i < |keys| && line in SeriesLines(name, KeyLabels(names, keys[i]).value, bounds, m[keys[i]], show) {
      var t := KeyIsTuple(h, bounds, names, keys[i]);
      SeriesSum(name, Zip(names, t), bounds, m[keys[i]], show, line);
    }
    if t: seq<string> :| |t| == |names| && Seen(h, t) && line == SumLine(name, Zip(names, t), show(TotalFor(h, t))) {
      SeriesIsTuple(h, bounds, names, t);
      var k := EncodeLabelValues(t);
      assert k in keys;
      var i :| 0 <= i < |keys| && keys[i] == k;
      SeriesSum(name, Zip(names, t), bounds, m[k], show, line);
    }
  }
}
