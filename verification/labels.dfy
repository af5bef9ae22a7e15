/** The label blocks of core/metrics/metrics.go: tuples of label values as map keys, and
    rendered in the Prometheus text exposition format, version 0.0.4. */
module Labels {
  import opened Wrappers
  import opened Text

  const NUL: char := '\0'

  predicate NoNul(values: seq<string>) {
    forall v <- values :: '\0' !in v
  }

  // --- Tuples as keys ---------------------------------------------------------------------

  function EncodeLabelValues(values: seq<string>): string {
    Join(values, [NUL])
  }

  function DecodeLabelValues(key: string): seq<string> {
    if key == "" then [] else Split(key, NUL)
  }

  /** A tuple survives the trip through its key if and only if no value holds a NUL and it is
      not the single empty string. */
  lemma DecodeEncodeIff(values: seq<string>)
    ensures DecodeLabelValues(EncodeLabelValues(values)) == values <==> NoNul(values) && values != [""]
  {
    if values != [] && NoNul(values) {
      SplitJoin(values, NUL);
      if |values| > 1 {
        assert Join(values, [NUL]) == values[0] + [NUL] + Join(values[1..], [NUL]);
      }
    }
  }

  /** NULs only add values: a key decodes to at least as many as it was made of. */
  lemma {:induction false} DecodesToEnough(values: seq<string>)
    requires values != []
    ensures |Split(EncodeLabelValues(values), NUL)| >= |values|
  {
    hide Split;
    if |values| > 1 {
      var rest := values[1..];
      DecodesToEnough(rest);
      assert values == [values[0]] + rest;
      JoinCons(values[0], rest, [NUL]);
      SplitConcat(values[0], EncodeLabelValues(rest), NUL);
    }
  }

  /** The exception: the one-label tuple holding the empty string comes back with no values. */
  lemma EmptyValueIsLost()
    ensures DecodeLabelValues(EncodeLabelValues([""])) == []
  {
  }

  /** Tuples of one metric have different keys, the exceptional one included. */
  lemma EncodeInjective(a: seq<string>, b: seq<string>)
    requires NoNul(a) && NoNul(b) && |a| == |b|
    ensures EncodeLabelValues(a) == EncodeLabelValues(b) <==> a == b
  {
    if a != [] {
      SplitJoin(a, NUL);
      SplitJoin(b, NUL);
    }
  }

  /** So any tuple that fits the label names can be rendered from its key, with the one
      exception. */
  lemma KeyLabelsSomeIff(names: seq<string>, values: seq<string>)
    requires |values| == |names|
    ensures KeyLabels(names, EncodeLabelValues(values)).Some? <==> values != [""]
  {
    if values == [""] {
      EmptyValueIsLost();
    } else if values != [] {
      DecodesToEnough(values);
      if |values| > 1 {
        JoinCons(values[0], values[1..], [NUL]);
        assert values == [values[0]] + values[1..];
      }
      assert EncodeLabelValues(values) != "";
    }
  }

  /** And one without NULs is rendered as it is. */
  lemma KeyLabelsIff(names: seq<string>, values: seq<string>)
    requires NoNul(values) && |values| == |names|
    ensures KeyLabels(names, EncodeLabelValues(values)) == if values == [""] then None else Some(Zip(names, values))
  {
    DecodeEncodeIff(values);
    if values == [""] {
      EmptyValueIsLost();
    } else if names == [] {
      assert Zip(names, values) == [];
    }
  }

  // --- Histories of observations ---------------------------------------------------------

  /** One observation of a metric: an increment, or a value seen. */
  datatype Event<V> = Event(labels: seq<string>, value: V)

  /** The history of one metric: tuples of the metric's size, free of the separator. */
  predicate Proper<V>(h: seq<Event<V>>, n: nat) {
    forall i :: 0 <= i < |h| ==> |h[i].labels| == n && NoNul(h[i].labels)
  }

  /** The tuples fit the metric's label names, which is all its methods check. */
  predicate Sized<V>(h: seq<Event<V>>, n: nat) {
    forall i :: 0 <= i < |h| ==> |h[i].labels| == n
  }

  lemma ProperIsSized<V>(h: seq<Event<V>>, n: nat)
    requires Proper(h, n)
    ensures Sized(h, n)
  {
  }

  predicate Seen<V>(h: seq<Event<V>>, t: seq<string>) {
    exists i :: 0 <= i < |h| && h[i].labels == t
  }

  /** The single empty value, whose key cannot be decoded, was never observed. */
  predicate Renderable<V>(h: seq<Event<V>>) {
    forall i :: 0 <= i < |h| ==> h[i].labels != [""]
  }

  lemma SeenStep<V>(h: seq<Event<V>>, t: seq<string>)
    requires h != []
    ensures Seen(h, t) <==> Seen(h[..|h| - 1], t) || h[|h| - 1].labels == t
  {
    var front := h[..|h| - 1];
    if Seen(front, t) {
      var i :| 0 <= i < |front| && front[i].labels == t;
      assert h[i].labels == t;
    }
    if h[|h| - 1].labels == t {
    } else if Seen(h, t) {
      var i :| 0 <= i < |h| && h[i].labels == t;
      assert front[i].labels == t;
    }
  }

  lemma SeenAt<V>(h: seq<Event<V>>, i: nat)
    requires i < |h|
    ensures Seen(h, h[i].labels)
  {
  }

  lemma NothingSeen<V>(t: seq<string>)
    ensures !Seen<V>([], t)
  {
  }

  // --- Escaping ------------------------------------------------------------------------------

  function EscapeChar(c: char): string {
    if c == '"' then ['\\', '"']
    else if c == '\\' then ['\\', '\\']
    else if c == '\n' then ['\\', 'n']
    else [c]
  }

  function Escape(v: string): string {
    if v == "" then "" else EscapeChar(v[0]) + Escape(v[1..])
  }

  lemma {:induction false} EscapeAppend(v: string, c: char)
    ensures Escape(v + [c]) == Escape(v) + EscapeChar(c)
  {
    if v == "" {
      assert v + [c] == [c];
      assert [c][1..] == "";
    } else {
      EscapeAppend(v[1..], c);
      assert (v + [c])[1..] == v[1..] + [c];
    }
  }

  predicate Special(c: char) {
    c == '"' || c == '\\' || c == '\n'
  }

  lemma {:induction false} EscapePlain(v: string)
    requires forall i :: 0 <= i < |v| ==> !Special(v[i])
    ensures Escape(v) == v
  {
    if v != "" {
      EscapePlain(v[1..]);
      assert v == [v[0]] + v[1..];
    }
  }

  /** The fast path for values with nothing to escape agrees with the loop. */
  method EscapeLabelValue(v: string) returns (text: string)
    ensures text == Escape(v)
  {
    var plain := true;
    for i := 0 to |v|
      invariant plain <==> forall j :: 0 <= j < i ==> !Special(v[j])
    {
      if v[i] == '"' || v[i] == '\\' || v[i] == '\n' {
        plain := false;
      }
    }
    if plain {
      EscapePlain(v);
      return v;
    }
    text := "";
    for i := 0 to |v|
      invariant text == Escape(v[..i])
    {
      var c := v[i];
      EscapeAppend(v[..i], c);
      assert v[..i + 1] == v[..i] + [c];
      if c == '"' {
        text := text + ['\\', '"'];
      } else if c == '\\' {
        text := text + ['\\', '\\'];
      } else if c == '\n' {
        text := text + ['\\', 'n'];
      } else {
        text := text + [c];
      }
    }
    assert v[..|v|] == v;
  }

  /** Reads an escaped value up to its closing quote; what follows the quote is the rest. */
  function Unescape(s: string): Option<(string, string)>
    decreases |s|
  {
    if s == "" || s[0] == '\n' then None
    else if s[0] == '"' then Some(("", s[1..]))
    else if s[0] == '\\' then
      if |s| < 2 then None
      else
        var c := if s[1] == 'n' then '\n' else s[1];
        var r := Unescape(s[2..]);
        if !Special(c) || s[1] == '\n' || r.None? then None else Some(([c] + r.value.0, r.value.1))
    else
      var r := Unescape(s[1..]);
      if r.None? then None else Some(([s[0]] + r.value.0, r.value.1))
  }

  lemma {:induction false} UnescapeEscape(v: string, rest: string)
    ensures Unescape(Escape(v) + "\"" + rest) == Some((v, rest))
  {
    hide EscapeChar, Special;
    var s := Escape(v) + "\"" + rest;
    if v == "" {
      assert s[1..] == rest;
    } else {
      var tail := Escape(v[1..]) + "\"" + rest;
      UnescapeEscape(v[1..], rest);
      assert s == EscapeChar(v[0]) + tail;
      assert v == [v[0]] + v[1..];
      UnescapeChar(v[0], tail);
    }
  }

  lemma {:induction false} UnescapeChar(c: char, tail: string)
    ensures var r := Unescape(tail);
            Unescape(EscapeChar(c) + tail) == if r.None? then None else Some(([c] + r.value.0, r.value.1))
  {
    var s := EscapeChar(c) + tail;
    if Special(c) {
      assert s[2..] == tail;
    } else {
      assert s[1..] == tail;
    }
  }

  lemma {:induction false} EscapeOneLine(v: string)
    ensures '\n' !in Escape(v)
  {
    if v != "" {
      EscapeOneLine(v[1..]);
    }
  }

  // --- Rendering -------------------------------------------------------------------------------

  type Label = (string, string)

  function Zip(names: seq<string>, values: seq<string>): seq<Label>
    requires |names| <= |values|
  {
    seq(|names|, i requires 0 <= i < |names| => (names[i], values[i]))
  }

  function LabelText(l: Label): string {
    l.0 + "=\"" + Escape(l.1) + "\""
  }

  /** The labels, separated by commas and closed with a brace. */
  function Block(ls: seq<Label>): string
    requires ls != []
  {
    LabelText(ls[0]) + if |ls| == 1 then "}" else "," + Block(ls[1..])
  }

  function Render(ls: seq<Label>): string {
    if ls == [] then "" else "{" + Block(ls)
  }

  /** What the loop has written after some of the labels: each one but the last with a comma. */
  function Written(ls: seq<Label>): string {
    if ls == [] then "" else Written(ls[..|ls| - 1]) + (if |ls| > 1 then "," else "") + LabelText(ls[|ls| - 1])
  }

  /** The same with a comma after every label. */
  function WrittenEach(ls: seq<Label>): string {
    if ls == [] then "" else WrittenEach(ls[..|ls| - 1]) + LabelText(ls[|ls| - 1]) + ","
  }

  lemma {:induction false} WrittenEachBlock(ls: seq<Label>, more: seq<Label>)
    requires more != []
    ensures WrittenEach(ls) + Block(more) == Block(ls + more)
  {
    hide LabelText;
    if ls == [] {
      assert ls + more == more;
    } else {
      var front, last := ls[..|ls| - 1], ls[|ls| - 1];
      WrittenEachBlock(front, [last] + more);
      assert ([last] + more)[1..] == more;
      assert front + ([last] + more) == ls + more;
    }
  }

  lemma {:induction false} WrittenIs(ls: seq<Label>)
    requires ls != []
    ensures Written(ls) == WrittenEach(ls[..|ls| - 1]) + LabelText(ls[|ls| - 1])
  {
    hide LabelText;
    if |ls| > 1 {
      WrittenIs(ls[..|ls| - 1]);
    }
  }

  lemma {:induction false} WrittenBlock(ls: seq<Label>)
    requires ls != []
    ensures Written(ls) + "}" == Block(ls)
  {
    hide LabelText, WrittenEach;
    WrittenIs(ls);
    var front, last := ls[..|ls| - 1], ls[|ls| - 1];
    WrittenEachBlock(front, [last]);
    assert front + [last] == ls;
  }

  lemma ZipStep(names: seq<string>, values: seq<string>, i: nat)
    requires i < |names| && i < |values|
    ensures |Zip(names[..i], values)| == i
    ensures Zip(names[..i + 1], values) == Zip(names[..i], values) + [(names[i], values[i])]
  {
  }

  lemma WrittenStep(names: seq<string>, values: seq<string>, i: nat)
    requires i < |names| && i < |values|
    ensures var before, after := Zip(names[..i], values), Zip(names[..i + 1], values);
            var text := LabelText((names[i], values[i]));
            && Written(after) == Written(before) + (if i > 0 then "," else "") + text
            && WrittenEach(after) == WrittenEach(before) + text + ","
  {
    hide LabelText, Zip;
    var before, l := Zip(names[..i], values), (names[i], values[i]);
    ZipStep(names, values, i);
    var after := before + [l];
    assert after[..|after| - 1] == before && after[|after| - 1] == l;
  }

  /** Renders labels. Too few values is the program's index-out-of-range panic: None. */
  method RenderLabelsWithValues(names: seq<string>, values: seq<string>) returns (text: Option<string>)
    ensures text == if |names| <= |values| then Some(Render(Zip(names, values))) else None
  {
    hide LabelText, Written, Escape, Block;
    if names == [] {
      return Some("");
    }
    assert Zip(names[..0], values) == [];
    NothingWritten();
    var b := "{";
    for i := 0 to |names|
      invariant i <= |values|
      invariant b == "{" + Written(Zip(names[..i], values))
    {
      if i >= |values| {
        return None;
      }
      if i > 0 {
        b := b + ",";
      }
      var value := EscapeLabelValue(values[i]);
      WrittenStep(names, values, i);
      LabelTextIs(names[i], values[i]);
      b := b + (names[i] + "=\"" + value + "\"");
    }
    assert names[..|names|] == names;
    var ls := Zip(names, values);
    WrittenBlock(ls);
    assert b + "}" == "{" + (Written(ls) + "}");
    text := Some(b + "}");
  }

  lemma NothingWritten()
    ensures Written([]) == "" && WrittenEach([]) == ""
  {
  }

  lemma {:induction false} LabelTextIs(name: string, value: string)
    ensures LabelText((name, value)) == name + "=\"" + Escape(value) + "\""
  {
  }

  /** The labels a key stands for, if it decodes to enough values. */
  function KeyLabels(names: seq<string>, key: string): Option<seq<Label>> {
    if names == [] then Some([])
    else if |names| <= |DecodeLabelValues(key)| then Some(Zip(names, DecodeLabelValues(key)))
    else None
  }

  method RenderLabels(names: seq<string>, key: string) returns (text: Option<string>)
    ensures text == if KeyLabels(names, key).Some? then Some(Render(KeyLabels(names, key).value)) else None
  {
    if |names| == 0 {
      return Some("");
    }
    text := RenderLabelsWithValues(names, DecodeLabelValues(key));
  }

  /** One more label at the end gives what rendering the longer list gives. */
  method RenderLabelsWithExtra(names: seq<string>, values: seq<string>, extraKey: string, extraValue: string)
    returns (text: Option<string>)
    ensures text == if |names| <= |values| then Some(Render(Zip(names, values) + [(extraKey, extraValue)])) else None
  {
    hide LabelText, WrittenEach, Escape;
    assert Zip(names[..0], values) == [];
    NothingWritten();
    var b := "{";
    for i := 0 to |names|
      invariant i <= |values|
      invariant b == "{" + WrittenEach(Zip(names[..i], values))
    {
      if i >= |values| {
        return None;
      }
      var value := EscapeLabelValue(values[i]);
      WrittenStep(names, values, i);
      LabelTextIs(names[i], values[i]);
      b := b + (names[i] + "=\"" + value + "\"") + ",";
    }
    assert names[..|names|] == names;
    var extra := EscapeLabelValue(extraValue);
    LabelTextIs(extraKey, extraValue);
    ghost var ls, last := Zip(names, values), [(extraKey, extraValue)];
    WrittenEachBlock(ls, last);
    text := Some(b + (extraKey + "=\"" + extra + "\"") + "}");
    assert text.value == "{" + (WrittenEach(ls) + Block(last));
  }

  // --- Reading it back ------------------------------------------------------------------------------

  /** Reads labels up to the closing brace; returns them and what follows it. */
  function ParseBlock(s: string): Option<(seq<Label>, string)>
    decreases |s|
  {
    var eq := IndexByte(s, '=');
    if eq < 0 || eq + 1 >= |s| || s[eq + 1] != '"' then None
    else
      var v := Unescape(s[eq + 2..]);
      if v.None? || v.value.1 == "" || |v.value.1| >= |s| then None
      else if v.value.1[0] == '}' then Some(([(s[..eq], v.value.0)], v.value.1[1..]))
      else if v.value.1[0] != ',' then None
      else
        var r := ParseBlock(v.value.1[1..]);
        if r.None? then None else Some(([(s[..eq], v.value.0)] + r.value.0, r.value.1))
  }

  function Parse(s: string): Option<(seq<Label>, string)> {
    if s == "" || s[0] != '{' then Some(([], s)) else ParseBlock(s[1..])
  }

  lemma ParseOneLabel(l: Label, rest: string)
    requires '=' !in l.0
    ensures var s := LabelText(l) + rest;
            IndexByte(s, '=') == |l.0| && |l.0| + 1 < |s| && s[|l.0| + 1] == '"' && s[..|l.0|] == l.0
            && Unescape(s[|l.0| + 2..]) == Some((l.1, rest)) && |rest| < |s|
  {
    hide IndexByte, Unescape, Escape;
    var s := LabelText(l) + rest;
    var after := "\"" + Escape(l.1) + "\"" + rest;
    assert s == l.0 + "=" + after;
    IndexByteIs(l.0, after, '=');
    assert s[|l.0| + 2..] == Escape(l.1) + "\"" + rest;
    UnescapeEscape(l.1, rest);
  }

  lemma {:induction false} ParseBlockRendered(ls: seq<Label>, rest: string)
    requires ls != [] && forall i :: 0 <= i < |ls| ==> '=' !in ls[i].0
    ensures ParseBlock(Block(ls) + rest) == Some((ls, rest))
  {
    hide LabelText, Unescape, IndexByte;
    var s := Block(ls) + rest;
    assert ls == [ls[0]] + ls[1..];
    if |ls| == 1 {
      assert s == LabelText(ls[0]) + ("}" + rest);
      ParseOneLabel(ls[0], "}" + rest);
      assert ("}" + rest)[1..] == rest;
      assert ls == [(ls[0].0, ls[0].1)];
    } else {
      var tail := Block(ls[1..]) + rest;
      assert s == LabelText(ls[0]) + ("," + tail);
      ParseOneLabel(ls[0], "," + tail);
      assert ("," + tail)[1..] == tail;
      ParseBlockRendered(ls[1..], rest);
    }
  }

  /** A rendered label block reads back as exactly its labels, whatever the values hold. */
  lemma ParseRendered(ls: seq<Label>, rest: string)
    requires forall i :: 0 <= i < |ls| ==> '=' !in ls[i].0
    requires rest == "" || rest[0] != '{'
    ensures Parse(Render(ls) + rest) == Some((ls, rest))
  {
    hide Block, ParseBlock;
    if ls == [] {
      assert Render(ls) + rest == rest;
    } else {
      ParseBlockRendered(ls, rest);
      assert (Render(ls) + rest)[1..] == Block(ls) + rest;
    }
  }

  lemma {:induction false} BlockOneLine(ls: seq<Label>)
    requires ls != [] && forall i :: 0 <= i < |ls| ==> '\n' !in ls[i].0
    ensures '\n' !in Block(ls)
  {
    EscapeOneLine(ls[0].1);
    if |ls| > 1 {
      BlockOneLine(ls[1..]);
    }
  }
}
