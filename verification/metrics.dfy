/** core/metrics/metrics.go: counters, histograms and the registry. The abstract value of a
    metric is the plain history of its observations. */
module Metrics {
  import opened Wrappers
  import opened Text
  import opened Sorting
  import opened Numbers
  import opened Labels

  // --- Counters ------------------------------------------------------------------------------

  function Get(m: map<string, int>, k: string): int {
    if k in m then m[k] else 0
  }

  /** The values a history leaves in the counter's map, 64-bit wrap-around included. */
  function Totals(h: seq<Event<int>>): map<string, int> {
    if h == [] then map[]
    else
      var m, e := Totals(h[..|h| - 1]), h[|h| - 1];
      var k := EncodeLabelValues(e.labels);
      m[k := Wrap64(Get(m, k) + e.value)]
  }

  class Counter {
    const name: string
    const help: string
    const labelNames: seq<string>
    var values: map<string, int>
    ghost var history: seq<Event<int>>

    ghost predicate Valid()
      reads this
    {
      && values == Totals(history)
      && forall i :: 0 <= i < |history| ==> |history[i].labels| == |labelNames| && history[i].value >= 0
    }

    constructor (name: string, help: string, labelNames: seq<string>)
      ensures Valid() && history == []
      ensures this.name == name && this.help == help && this.labelNames == labelNames
    {
      this.name, this.help, this.labelNames := name, help, labelNames;
      values := map[];
      history := [];
    }

    /** Adds to one series. Misuse, the program's panic, is ok == false. */
    method Add(delta: int, labelValues: seq<string>) returns (ok: bool)
      requires Valid()
      modifies this
      ensures Valid()
      ensures ok <==> delta >= 0 && |labelValues| == |labelNames|
      ensures history == old(history) + if ok then [Event(labelValues, delta)] else []
    {
      hide EncodeLabelValues, Wrap64;
      if delta < 0 {
        return false;
      }
      if |labelValues| != |labelNames| {
        return false;
      }
      var key := EncodeLabelValues(labelValues);
      values := values[key := Wrap64(Get(values, key) + delta)];
      history := history + [Event(labelValues, delta)];
      assert history[..|history| - 1] == old(history);
      return true;
    }

    method Inc(labelValues: seq<string>) returns (ok: bool)
      requires Valid()
      modifies this
      ensures Valid()
      ensures ok <==> |labelValues| == |labelNames|
      ensures history == old(history) + if ok then [Event(labelValues, 1)] else []
    {
      ok := Add(1, labelValues);
    }

    /** The counter's exposition text; None is the panic of a key with too few values. */
    method Emit() returns (text: Option<string>)
      requires Valid()
      ensures text == CounterText(name, help, labelNames, Totals(history))
    {
      hide Totals, Sort, Sorted, KeyLabels, SortedListing, FormatInt, Render, HeadLines, EscapeHelp, EndLines, SampleLines;
      var keys := Keys(values);
      SortedListingIs(keys, values.Keys);
      keys := Sort(keys);
      var out := "# HELP " + name + " " + EscapeHelp(help) + "\n";
      out := out + "# TYPE " + name + " counter\n";
      HeadText(name, help, "counter");
      ghost var lines := HeadLines(name, help, "counter");
      NoSamples(name, labelNames, values);
      assert keys[..0] == [] && lines + [] == lines;
      for i := 0 to |keys|
        invariant forall k <- keys[..i] :: KeyLabels(labelNames, k).Some?
        invariant lines == HeadLines(name, help, "counter") + SampleLines(name, labelNames, keys[..i], values)
        invariant out == EndLines(lines)
      {
        var k := keys[i];
        assert k in keys && k in values.Keys;
        var labelStr := RenderLabels(labelNames, k);
        if labelStr.None? {
          return None;
        }
        var line := name + labelStr.value + " " + FormatInt(values[k]);
        EndLinesAppend(lines, line);
        lines := lines + [line];
        SampleLinesAppend(name, labelNames, keys[..i], k, values);
        assert keys[..i] + [k] == keys[..i + 1];
        out := out + line + "\n";
      }
      assert keys[..|keys|] == keys;
      return Some(out);
    }
  }

  function EscapeHelpChar(c: char): string {
    if c == '\\' then ['\\', '\\'] else if c == '\n' then ['\\', 'n'] else [c]
  }

  function EscapeHelp(v: string): string {
    if v == "" then "" else EscapeHelpChar(v[0]) + EscapeHelp(v[1..])
  }

  /** The HELP and TYPE lines. */
  function HeadLines(name: string, help: string, kind: string): seq<string> {
    ["# HELP " + name + " " + EscapeHelp(help), "# TYPE " + name + " " + kind]
  }

  lemma {:induction false} HeadText(name: string, help: string, kind: string)
    ensures EndLines(HeadLines(name, help, kind))
         == "# HELP " + name + " " + EscapeHelp(help) + "\n" + ("# TYPE " + name + " " + kind + "\n")
  {
    hide EscapeHelp;
    var a, b := "# HELP " + name + " " + EscapeHelp(help), "# TYPE " + name + " " + kind;
    EndLinesAppend([], a);
    EndLinesAppend([a], b);
    assert [a] + [b] == HeadLines(name, help, kind);
    assert [] + [a] == [a];
  }

  function SampleLine(name: string, names: seq<string>, key: string, value: int): string
    requires KeyLabels(names, key).Some?
  {
    name + Render(KeyLabels(names, key).value) + " " + FormatInt(value)
  }

  function SampleLines(name: string, names: seq<string>, keys: seq<string>, m: map<string, int>): seq<string>
    requires forall k <- keys :: k in m && KeyLabels(names, k).Some?
  {
    seq(|keys|, i requires 0 <= i < |keys| => SampleLine(name, names, keys[i], m[keys[i]]))
  }

  lemma SampleLinesAppend(name: string, names: seq<string>, keys: seq<string>, k: string, m: map<string, int>)
    requires (forall x <- keys :: x in m && KeyLabels(names, x).Some?) && k in m && KeyLabels(names, k).Some?
    ensures SampleLines(name, names, keys + [k], m) == SampleLines(name, names, keys, m) + [SampleLine(name, names, k, m[k])]
  {
  }

  lemma NoSamples(name: string, names: seq<string>, m: map<string, int>)
    ensures SampleLines(name, names, [], m) == []
  {
  }

  ghost function CounterText(name: string, help: string, names: seq<string>, m: map<string, int>): Option<string> {
    SortedListingOk(m.Keys);
    var keys := SortedListing(m.Keys);
    if forall k <- keys :: KeyLabels(names, k).Some?
    then Some(EndLines(HeadLines(name, help, "counter") + SampleLines(name, names, keys, m)))
    else None
  }
}
