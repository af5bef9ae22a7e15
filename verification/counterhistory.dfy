/** What a counter of core/metrics/metrics.go reports: read back from the exposition text,
    each label tuple carries the sum of its own increments and nothing else. */
module CounterHistory {
  import opened Wrappers
  import opened Text
  import opened Sorting
  import opened Numbers
  import opened Labels
  import opened Metrics

  /** The plain sum of a tuple's own increments. */
  function SumFor(h: seq<Event<int>>, t: seq<string>): int {
    if h == [] then 0
    else SumFor(h[..|h| - 1], t) + if h[|h| - 1].labels == t then h[|h| - 1].value else 0
  }

  /** Each tuple has a series exactly when it was observed, holding its sum to 64 bits. */
  lemma {:induction false} TotalsAgree(h: seq<Event<int>>, n: nat, t: seq<string>)
    requires Proper(h, n) && |t| == n && NoNul(t)
    ensures EncodeLabelValues(t) in Totals(h) <==> Seen(h, t)
    ensures Get(Totals(h), EncodeLabelValues(t)) == Wrap64(SumFor(h, t))
  {
    hide EncodeLabelValues, Wrap64, NoNul, Seen;
    if h == [] {
      NothingSeen<int>(t);
      WrapZero();
    } else {
      var front, e := h[..|h| - 1], h[|h| - 1];
      TotalsAgree(front, n, t);
      EncodeInjective(e.labels, t);
      SeenStep(h, t);
      WrapAdd(SumFor(front, t), e.value);
    }
  }

  lemma WrapZero()
    ensures Wrap64(0) == 0
  {
  }

  lemma {:induction false} KeysAreSeen(h: seq<Event<int>>, k: string)
    requires k in Totals(h)
    ensures exists i :: 0 <= i < |h| && EncodeLabelValues(h[i].labels) == k
  {
    hide EncodeLabelValues, Wrap64;
    var front, e := h[..|h| - 1], h[|h| - 1];
    if k == EncodeLabelValues(e.labels) {
      assert h[|h| - 1] == e;
    } else {
      KeysAreSeen(front, k);
      var i :| 0 <= i < |front| && EncodeLabelValues(front[i].labels) == k;
      assert h[i] == front[i];
    }
  }

  lemma {:induction false} TotalsInRange(h: seq<Event<int>>, k: string)
    requires k in Totals(h)
    ensures IsInt64(Totals(h)[k])
  {
    hide EncodeLabelValues, Wrap64, IsInt64;
    var front, e := h[..|h| - 1], h[|h| - 1];
    WrapInRange(Get(Totals(front), EncodeLabelValues(e.labels)) + e.value);
    if k != EncodeLabelValues(e.labels) {
      TotalsInRange(front, k);
    }
  }

  // --- Reading the exposition text -----------------------------------------------------------

  datatype Sample = Sample(labels: seq<Label>, value: int)

  function ReadSample(name: string, line: string): Option<Sample> {
    if |line| < |name| || line[..|name|] != name then None
    else
      var p := Parse(line[|name|..]);
      if p.None? || p.value.1 == "" || p.value.1[0] != ' ' then None
      else
        var v := ParseInt(p.value.1[1..]);
        if v.None? then None else Some(Sample(p.value.0, v.value))
  }

  function ReadSamples(name: string, lines: seq<string>): Option<seq<Sample>> {
    if lines == [] then Some([])
    else
      var first, rest := ReadSample(name, lines[0]), ReadSamples(name, lines[1..]);
      if first.None? || rest.None? then None else Some([first.value] + rest.value)
  }

  /** Reads a metric's text: two comment lines, then samples, each line ended. */
  function Scrape(name: string, text: string): Option<seq<Sample>> {
    var lines := Split(text, '\n');
    if |lines| < 3 || lines[|lines| - 1] != "" then None else ReadSamples(name, lines[2..|lines| - 1])
  }

  predicate NamesOk(name: string, names: seq<string>) {
    '\n' !in name && forall x <- names :: '\n' !in x && '=' !in x
  }

  lemma ReadsBack(name: string, labels: seq<Label>, value: int)
    requires IsInt64(value) && forall i :: 0 <= i < |labels| ==> '=' !in labels[i].0
    ensures ReadSample(name, name + Render(labels) + " " + FormatInt(value)) == Some(Sample(labels, value))
  {
    hide Render, Parse, FormatInt, ParseInt;
    var rest := " " + FormatInt(value);
    var line := name + Render(labels) + " " + FormatInt(value);
    assert line == name + (Render(labels) + rest);
    assert line[|name|..] == Render(labels) + rest;
    ParseRendered(labels, rest);
    assert rest[1..] == FormatInt(value);
    ParseFormat(value);
  }

  lemma LineIsClean(name: string, labels: seq<Label>, value: int)
    requires '\n' !in name && forall i :: 0 <= i < |labels| ==> '\n' !in labels[i].0
    ensures '\n' !in name + Render(labels) + " " + FormatInt(value)
  {
    hide FormatInt, Block;
    FormatIntAlphabet(value);
    if labels != [] {
      BlockOneLine(labels);
    }
  }

  lemma {:induction false} HelpIsClean(v: string)
    ensures '\n' !in EscapeHelp(v)
  {
    if v != "" {
      HelpIsClean(v[1..]);
    }
  }

  lemma KeyLabelNames(names: seq<string>, key: string)
    requires KeyLabels(names, key).Some?
    ensures var ls := KeyLabels(names, key).value;
            |ls| == |names| && forall i :: 0 <= i < |names| ==> ls[i].0 == names[i]
  {
  }

  lemma SampleLineReads(name: string, names: seq<string>, key: string, value: int)
    requires NamesOk(name, names) && KeyLabels(names, key).Some? && IsInt64(value)
    ensures '\n' !in SampleLine(name, names, key, value)
    ensures ReadSample(name, SampleLine(name, names, key, value)) == Some(Sample(KeyLabels(names, key).value, value))
  {
    hide KeyLabels, Render, FormatInt, ReadSample;
    var ls := KeyLabels(names, key).value;
    KeyLabelNames(names, key);
    forall i | 0 <= i < |ls| ensures '=' !in ls[i].0 && '\n' !in ls[i].0 {
      assert names[i] in names;
    }
    LineIsClean(name, ls, value);
    ReadsBack(name, ls, value);
  }

  function SampleOf(names: seq<string>, key: string, m: map<string, int>): Sample
    requires key in m && KeyLabels(names, key).Some?
  {
    Sample(KeyLabels(names, key).value, m[key])
  }

  function SamplesOf(names: seq<string>, keys: seq<string>, m: map<string, int>): seq<Sample>
    requires forall k <- keys :: k in m && KeyLabels(names, k).Some?
  {
    seq(|keys|, i requires 0 <= i < |keys| => SampleOf(names, keys[i], m))
  }

  lemma {:induction false} SampleLinesRead(name: string, names: seq<string>, keys: seq<string>, m: map<string, int>)
    requires NamesOk(name, names)
    requires forall k <- keys :: k in m && KeyLabels(names, k).Some? && IsInt64(m[k])
    ensures ReadSamples(name, SampleLines(name, names, keys, m)) == Some(SamplesOf(names, keys, m))
    ensures forall l <- SampleLines(name, names, keys, m) :: '\n' !in l
  {
    hide KeyLabels, ReadSample, SampleLine, NamesOk, IsInt64, SampleOf;
    if keys == [] {
      assert SampleLines(name, names, keys, m) == [] && SamplesOf(names, keys, m) == [];
    } else {
      var k, rest := keys[0], keys[1..];
      assert keys == [k] + rest;
      SampleLinesRead(name, names, rest, m);
      SampleLineReads(name, names, k, m[k]);
      assert SampleLines(name, names, keys, m) == [SampleLine(name, names, k, m[k])] + SampleLines(name, names, rest, m);
      assert SamplesOf(names, keys, m) == [SampleOf(names, k, m)] + SamplesOf(names, rest, m);
      SampleOfIs(names, k, m);
    }
  }

  lemma SampleOfIs(names: seq<string>, key: string, m: map<string, int>)
    requires key in m && KeyLabels(names, key).Some?
    ensures SampleOf(names, key, m) == Sample(KeyLabels(names, key).value, m[key])
  {
  }

  lemma HeadIsClean(name: string, help: string, kind: string)
    requires '\n' !in name && '\n' !in kind
    ensures forall l <- HeadLines(name, help, kind) :: '\n' !in l
  {
    hide EscapeHelp;
    HelpIsClean(help);
  }

  /** Reads an escaped help text. */
  function ReadHelp(s: string): string {
    if s == "" then ""
    else if s[0] == '\\' && |s| >= 2 then [if s[1] == 'n' then '\n' else s[1]] + ReadHelp(s[2..])
    else [s[0]] + ReadHelp(s[1..])
  }

  lemma {:induction false} HelpReads(v: string)
    ensures ReadHelp(EscapeHelp(v)) == v
  {
    hide ReadHelp, EscapeHelpChar;
    if v == "" {
      ReadNothing();
    } else {
      HelpReads(v[1..]);
      assert v == [v[0]] + v[1..];
      HelpCharReads(v[0], EscapeHelp(v[1..]));
    }
  }

  lemma ReadNothing()
    ensures ReadHelp("") == ""
  {
  }

  lemma {:induction false} HelpCharReads(c: char, rest: string)
    ensures ReadHelp(EscapeHelpChar(c) + rest) == [c] + ReadHelp(rest)
  {
    var s := EscapeHelpChar(c) + rest;
    if c == '\\' || c == '\n' {
      assert s[2..] == rest;
    } else {
      assert s[1..] == rest;
    }
  }

  /** The first two lines name the metric, its help text and its type. */
  ghost predicate Declares(text: string, name: string, help: string, kind: string) {
    var lines, prefix := Split(text, '\n'), "# HELP " + name + " ";
    && |lines| >= 2 && prefix <= lines[0] && ReadHelp(lines[0][|prefix|..]) == help
    && lines[1] == "# TYPE " + name + " " + kind
  }

  lemma {:induction false} HeadDeclares(name: string, help: string, kind: string, body: seq<string>)
    requires '\n' !in name && '\n' !in kind
    ensures Declares(EndLines(HeadLines(name, help, kind) + body), name, help, kind)
  {
    hide EndLines, Split, EscapeHelp, ReadHelp;
    var first, second, rest := "# HELP " + name + " " + EscapeHelp(help), "# TYPE " + name + " " + kind, EndLines(body);
    HeadIsClean(name, help, kind);
    assert first == HeadLines(name, help, kind)[0] && second == HeadLines(name, help, kind)[1];
    EndLinesConcat(HeadLines(name, help, kind), body);
    HeadText(name, help, kind);
    SplitFirst(second, rest, '\n');
    SplitFirst(first, second + ['\n'] + rest, '\n');
    assert first + ['\n'] + (second + ['\n'] + rest) == (first + "\n" + (second + "\n")) + rest;
    HelpReads(help);
    assert first == ("# HELP " + name + " ") + EscapeHelp(help);
  }

  lemma CounterDeclares(name: string, help: string, names: seq<string>, m: map<string, int>)
    requires '\n' !in name
    ensures var text := CounterText(name, help, names, m); text.Some? ==> Declares(text.value, name, help, "counter")
  {
    hide KeyLabels, Sort, Sorted, SortedListing, EndLines, HeadLines, SampleLines, Declares;
    SortedListingOk(m.Keys);
    var keys := SortedListing(m.Keys);
    assert '\n' !in "counter";
    if forall k <- keys :: KeyLabels(names, k).Some? {
      HeadDeclares(name, help, "counter", SampleLines(name, names, keys, m));
    }
  }

  /** Scraping a counter's text gives its map back, in key order. */
  lemma ScrapeReads(name: string, help: string, names: seq<string>, m: map<string, int>)
    requires NamesOk(name, names) && forall k <- m.Keys :: IsInt64(m[k]) && KeyLabels(names, k).Some?
    ensures CounterText(name, help, names, m).Some?
    ensures forall k <- SortedListing(m.Keys) :: k in m
    ensures Scrape(name, CounterText(name, help, names, m).value) == Some(SamplesOf(names, SortedListing(m.Keys), m))
  {
    hide KeyLabels, ReadSamples, SampleLines, IsInt64, Sort, Sorted, SortedListing, EndLines, Split, HeadLines, SamplesOf;
    SortedListingOk(m.Keys);
    var keys := SortedListing(m.Keys);
    SampleLinesRead(name, names, keys, m);
    assert '\n' !in "counter";
    HeadIsClean(name, help, "counter");
    var head, body := HeadLines(name, help, "counter"), SampleLines(name, names, keys, m);
    SplitEndLines(head + body);
    var lines := head + body + [""];
    HeadLinesAre(name, help, "counter");
    assert lines[2..|lines| - 1] == body;
  }

  lemma HeadLinesAre(name: string, help: string, kind: string)
    ensures |HeadLines(name, help, kind)| == 2
  {
  }

  // --- The theorem ------------------------------------------------------------------------------

  lemma {:induction false} SeenHasKey(h: seq<Event<int>>, i: nat)
    requires i < |h|
    ensures EncodeLabelValues(h[i].labels) in Totals(h)
  {
    hide EncodeLabelValues, Wrap64;
    if i < |h| - 1 {
      SeenHasKey(h[..|h| - 1], i);
    }
  }

  /** A counter can be emitted, whatever its tuples hold, exactly when the single empty value
      was never observed. */
  lemma {:induction false} EmitsIff(h: seq<Event<int>>, name: string, help: string, names: seq<string>)
    requires Sized(h, |names|)
    ensures CounterText(name, help, names, Totals(h)).Some? <==> Renderable(h)
    ensures Renderable(h) ==> forall k <- Totals(h).Keys :: KeyLabels(names, k).Some?
  {
    hide KeyLabels, Totals, EncodeLabelValues, Sort, Sorted, SortedListing, EndLines, HeadLines, SampleLines, NoNul;
    var m := Totals(h);
    SortedListingOk(m.Keys);
    if Renderable(h) {
      forall k | k in m.Keys ensures KeyLabels(names, k).Some? {
        KeysAreSeen(h, k);
        var i :| 0 <= i < |h| && EncodeLabelValues(h[i].labels) == k;
        KeyLabelsSomeIff(names, h[i].labels);
      }
    } else {
      var i :| 0 <= i < |h| && h[i].labels == [""];
      KeyLabelsSomeIff(names, h[i].labels);
      SeenHasKey(h, i);
      assert EncodeLabelValues(h[i].labels) in SortedListing(m.Keys);
    }
  }

  /** What a scrape says: one sample per observed tuple, with the tuple's own labels and the
      sum of its own increments to 64 bits. */
  ghost predicate Reports(samples: seq<Sample>, h: seq<Event<int>>, names: seq<string>) {
    && (forall t: seq<string> | |t| == |names| && Seen(h, t) :: Sample(Zip(names, t), Wrap64(SumFor(h, t))) in samples)
    && (forall s <- samples :: exists i :: 0 <= i < |h| && |h[i].labels| == |names|
                                && s == Sample(Zip(names, h[i].labels), Wrap64(SumFor(h, h[i].labels))))
    && (forall i, j :: 0 <= i < j < |samples| ==> samples[i].labels != samples[j].labels)
  }

  lemma {:induction false} SampleOfTuple(h: seq<Event<int>>, names: seq<string>, t: seq<string>)
    requires Proper(h, |names|) && Renderable(h) && |t| == |names| && Seen(h, t)
    ensures var k := EncodeLabelValues(t);
            && k in Totals(h) && KeyLabels(names, k) == Some(Zip(names, t))
            && SampleOf(names, k, Totals(h)) == Sample(Zip(names, t), Wrap64(SumFor(h, t)))
  {
    hide KeyLabels, Totals, EncodeLabelValues, NoNul, SumFor, Wrap64;
    var i :| 0 <= i < |h| && h[i].labels == t;
    TotalsAgree(h, |names|, t);
    KeyLabelsIff(names, t);
  }

  lemma ZipInjective(names: seq<string>, t: seq<string>, u: seq<string>)
    requires |t| == |u| == |names| && Zip(names, t) == Zip(names, u)
    ensures t == u
  {
    forall i | 0 <= i < |names| ensures t[i] == u[i] {
      assert Zip(names, t)[i] == (names[i], t[i]) && Zip(names, u)[i] == (names[i], u[i]);
    }
  }

  lemma SampleSource(h: seq<Event<int>>, names: seq<string>, keys: seq<string>, j: nat) returns (i: nat)
    requires Proper(h, |names|) && Renderable(h) && j < |keys|
    requires forall k <- keys :: k in Totals(h) && KeyLabels(names, k).Some?
    ensures i < |h| && |h[i].labels| == |names| && EncodeLabelValues(h[i].labels) == keys[j]
    ensures SamplesOf(names, keys, Totals(h))[j] == Sample(Zip(names, h[i].labels), Wrap64(SumFor(h, h[i].labels)))
  {
    hide KeyLabels, Totals, EncodeLabelValues, NoNul, SumFor, Wrap64, SampleOf, Seen, Zip;
    assert keys[j] in keys;
    KeysAreSeen(h, keys[j]);
    i :| 0 <= i < |h| && EncodeLabelValues(h[i].labels) == keys[j];
    SeenAt(h, i);
    SampleOfTuple(h, names, h[i].labels);
  }

  lemma {:induction false} SamplesReport(h: seq<Event<int>>, names: seq<string>, keys: seq<string>)
    requires Proper(h, |names|) && Renderable(h) && Lists(keys, Totals(h).Keys)
    requires forall k <- keys :: KeyLabels(names, k).Some?
    ensures Reports(SamplesOf(names, keys, Totals(h)), h, names)
  {
    hide KeyLabels, Totals, EncodeLabelValues, NoNul, SumFor, Wrap64, SampleOf, Seen, Zip;
    var m := Totals(h);
    var samples := SamplesOf(names, keys, m);
    forall t: seq<string> | |t| == |names| && Seen(h, t)
      ensures Sample(Zip(names, t), Wrap64(SumFor(h, t))) in samples
    {
      SampleOfTuple(h, names, t);
      var k := EncodeLabelValues(t);
      assert k in keys;
      var i :| 0 <= i < |keys| && keys[i] == k;
      assert samples[i] == Sample(Zip(names, t), Wrap64(SumFor(h, t)));
    }
    forall s | s in samples
      ensures exists i :: 0 <= i < |h| && |h[i].labels| == |names|
                          && s == Sample(Zip(names, h[i].labels), Wrap64(SumFor(h, h[i].labels)))
    {
      var j :| 0 <= j < |samples| && samples[j] == s;
      var i := SampleSource(h, names, keys, j);
    }
    forall a, b | 0 <= a < b < |samples| ensures samples[a].labels != samples[b].labels {
      var i := SampleSource(h, names, keys, a);
      var j := SampleSource(h, names, keys, b);
      if samples[a].labels == samples[b].labels {
        ZipInjective(names, h[i].labels, h[j].labels);
      }
    }
  }

  /** Scraping what a counter emits after any history of increments. */
  lemma {:induction false} ScrapeReportsHistory(h: seq<Event<int>>, name: string, help: string, names: seq<string>)
    requires Proper(h, |names|) && Renderable(h) && NamesOk(name, names)
    ensures var text := CounterText(name, help, names, Totals(h));
            text.Some? && Scrape(name, text.value).Some? && Reports(Scrape(name, text.value).value, h, names)
  {
    hide KeyLabels, Totals, Sort, Sorted, SortedListing, CounterText, Scrape, Reports, SamplesOf, Proper,
         Renderable, NamesOk, IsInt64;
    var m := Totals(h);
    ProperIsSized(h, |names|);
    EmitsIff(h, name, help, names);
    forall k | k in m.Keys ensures IsInt64(m[k]) {
      TotalsInRange(h, k);
    }
    SortedListingOk(m.Keys);
    ScrapeReads(name, help, names, m);
    SamplesReport(h, names, SortedListing(m.Keys));
  }

  /** Every observed tuple is reported with the plain sum of its increments. */
  ghost predicate ReportsSums(samples: seq<Sample>, h: seq<Event<int>>, names: seq<string>) {
    forall t: seq<string> | |t| == |names| && Seen(h, t) :: Sample(Zip(names, t), SumFor(h, t)) in samples
  }

  lemma {:induction false} SumReportedIff(samples: seq<Sample>, h: seq<Event<int>>, names: seq<string>, t: seq<string>)
    requires Reports(samples, h, names) && |t| == |names| && Seen(h, t)
    ensures Sample(Zip(names, t), SumFor(h, t)) in samples <==> IsInt64(SumFor(h, t))
  {
    hide Seen, SumFor, Zip, Wrap64, IsInt64;
    WrapInRange(SumFor(h, t));
    if Sample(Zip(names, t), SumFor(h, t)) in samples {
      var i :| 0 <= i < |h| && |h[i].labels| == |names|
               && Sample(Zip(names, t), SumFor(h, t)) == Sample(Zip(names, h[i].labels), Wrap64(SumFor(h, h[i].labels)));
      ZipInjective(names, t, h[i].labels);
    }
  }

  /** A scrape reports every observed tuple's plain sum if and only if all those sums fit in
      64 bits. */
  lemma {:induction false} PlainSumsIff(h: seq<Event<int>>, name: string, help: string, names: seq<string>)
    requires Proper(h, |names|) && Renderable(h) && NamesOk(name, names)
    ensures var text := CounterText(name, help, names, Totals(h));
            && text.Some? && Scrape(name, text.value).Some?
            && (ReportsSums(Scrape(name, text.value).value, h, names)
                <==> forall t: seq<string> | |t| == |names| && Seen(h, t) :: IsInt64(SumFor(h, t)))
  {
    hide CounterText, Totals, Scrape, Reports, Seen, SumFor, Zip, IsInt64, NamesOk, Renderable, Proper;
    ScrapeReportsHistory(h, name, help, names);
    var samples := Scrape(name, CounterText(name, help, names, Totals(h)).value).value;
    forall t: seq<string> | |t| == |names| && Seen(h, t)
      ensures Sample(Zip(names, t), SumFor(h, t)) in samples <==> IsInt64(SumFor(h, t))
    {
      SumReportedIff(samples, h, names, t);
    }
  }
}
