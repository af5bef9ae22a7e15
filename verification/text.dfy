/** The string operations the program takes from its standard library, with the laws the
    parsers and printers rest on. */
module Text {
  function Split(s: string, sep: char): (r: seq<string>)
    ensures |r| > 0
    ensures forall p <- r :: sep !in p
  {
    if s == "" then [""]
    else
      var r := Split(s[1..], sep);
      if s[0] == sep then [""] + r else [[s[0]] + r[0]] + r[1..]
  }

  function Join(parts: seq<string>, sep: string): string {
    if parts == [] then ""
    else if |parts| == 1 then parts[0]
    else parts[0] + sep + Join(parts[1..], sep)
  }

  lemma {:induction false} JoinSplit(s: string, sep: char)
    ensures Join(Split(s, sep), [sep]) == s
  {
    if s != "" {
      JoinSplit(s[1..], sep);
      var r := Split(s[1..], sep);
      if s[0] == sep {
        assert ([""] + r)[1..] == r;
      } else {
        var t := [[s[0]] + r[0]] + r[1..];
        assert t[1..] == r[1..];
      }
    }
  }

  /** Splitting at a separator that comes after a clean first piece. */
  lemma {:induction false} SplitFirst(p: string, rest: string, sep: char)
    requires sep !in p
    ensures Split(p + [sep] + rest, sep) == [p] + Split(rest, sep)
  {
    var s := p + [sep] + rest;
    if p == "" {
      assert s[1..] == rest;
    } else {
      SplitFirst(p[1..], rest, sep);
      assert s[1..] == p[1..] + [sep] + rest;
      assert [p[0]] + p[1..] == p;
    }
  }

  lemma {:induction false} SplitClean(p: string, sep: char)
    requires sep !in p
    ensures Split(p, sep) == [p]
  {
    if p != "" {
      SplitClean(p[1..], sep);
      assert [p[0]] + p[1..] == p;
    }
  }

  lemma {:induction false} SplitJoin(parts: seq<string>, sep: char)
    requires parts != [] && forall p <- parts :: sep !in p
    ensures Split(Join(parts, [sep]), sep) == parts
  {
    hide Split;
    if |parts| == 1 {
      SplitClean(parts[0], sep);
    } else {
      var rest := parts[1..];
      assert parts[0] in parts && parts == [parts[0]] + rest;
      JoinCons(parts[0], rest, [sep]);
      hide Join;
      SplitJoin(rest, sep);
      SplitFirst(parts[0], Join(rest, [sep]), sep);
    }
  }

  /** A list joined by comma and space is read back by its commas. */
  lemma {:induction false} SplitCommaList(list: seq<string>)
    requires list != [] && forall a <- list :: ',' !in a
    ensures Split(Join(list, ", "), ',') == [list[0]] + Spaced(list[1..])
  {
    hide Split, Join, Spaced;
    JoinSpaced(list);
    var parts := [list[0]] + Spaced(list[1..]);
    forall p | p in parts ensures ',' !in p {
      var i :| 0 <= i < |parts| && parts[i] == p;
      assert list[i] in list && (i > 0 ==> p == " " + list[1..][i - 1] == " " + list[i]);
    }
    SplitJoin(parts, ',');
  }

  function Spaced(parts: seq<string>): (r: seq<string>)
    ensures |r| == |parts| && forall i :: 0 <= i < |r| ==> r[i] == " " + parts[i]
  {
    seq(|parts|, i requires 0 <= i < |parts| => " " + parts[i])
  }

  lemma {:induction false} JoinSpaced(parts: seq<string>)
    requires parts != []
    ensures Join(parts, ", ") == Join([parts[0]] + Spaced(parts[1..]), ",")
  {
    hide Spaced;
    if |parts| > 1 {
      var rest := parts[1..];
      JoinSpaced(rest);
      var spaced := Spaced(rest);
      assert spaced == [" " + rest[0]] + Spaced(rest[1..]);
      JoinCons(parts[0], spaced, ",");
      JoinFirst(" ", rest[0], Spaced(rest[1..]), ",");
    }
  }

  lemma {:induction false} JoinFirst(a: string, x: string, rest: seq<string>, sep: string)
    ensures Join([a + x] + rest, sep) == a + Join([x] + rest, sep)
  {
    assert ([a + x] + rest)[1..] == rest && ([x] + rest)[1..] == rest;
  }

  lemma {:induction false} SplitAfterParts(parts: seq<string>, b: string, sep: char)
    requires parts != [] && forall p <- parts :: sep !in p
    ensures Split(Join(parts, [sep]) + [sep] + b, sep) == parts + Split(b, sep)
  {
    hide Split;
    if |parts| == 1 {
      SplitFirst(parts[0], b, sep);
    } else {
      var rest := Join(parts[1..], [sep]) + [sep] + b;
      SplitAfterParts(parts[1..], b, sep);
      SplitFirst(parts[0], rest, sep);
      assert Join(parts, [sep]) + [sep] + b == parts[0] + [sep] + rest;
    }
  }

  lemma {:induction false} SplitConcat(a: string, b: string, sep: char)
    ensures Split(a + [sep] + b, sep) == Split(a, sep) + Split(b, sep)
  {
    JoinSplit(a, sep);
    SplitAfterParts(Split(a, sep), b, sep);
  }

  /** Lines, each ended by a newline. */
  function EndLines(lines: seq<string>): string {
    if lines == [] then "" else EndLines(lines[..|lines| - 1]) + lines[|lines| - 1] + "\n"
  }

  lemma {:induction false} EndLinesAppend(lines: seq<string>, line: string)
    ensures EndLines(lines + [line]) == EndLines(lines) + line + "\n"
  {
    assert (lines + [line])[..|lines|] == lines;
  }

  lemma {:induction false} EndLinesConcat(a: seq<string>, b: seq<string>)
    ensures EndLines(a + b) == EndLines(a) + EndLines(b)
  {
    hide EndLines;
    if b == [] {
      assert a + b == a;
      assert EndLines([]) == "" by { NoEndLines(); }
    } else {
      var front, last := b[..|b| - 1], b[|b| - 1];
      EndLinesConcat(a, front);
      assert a + b == (a + front) + [last] && b == front + [last];
      EndLinesAppend(a + front, last);
      EndLinesAppend(front, last);
      assert EndLines(a + b) == EndLines(a) + (EndLines(front) + last + "\n");
    }
  }

  lemma NoEndLines()
    ensures EndLines([]) == ""
  {
  }

  lemma {:induction false} JoinCons(x: string, rest: seq<string>, sep: string)
    requires rest != []
    ensures Join([x] + rest, sep) == x + sep + Join(rest, sep)
  {
    assert ([x] + rest)[1..] == rest;
  }

  lemma {:induction false} JoinLines(lines: seq<string>, tail: seq<string>)
    requires tail != []
    ensures Join(lines + tail, "\n") == EndLines(lines) + Join(tail, "\n")
  {
    if lines == [] {
      assert lines + tail == tail;
    } else {
      var front, last := lines[..|lines| - 1], lines[|lines| - 1];
      assert lines + tail == front + ([last] + tail);
      JoinLines(front, [last] + tail);
      JoinCons(last, tail, "\n");
    }
  }

  lemma {:induction false} SplitEndLines(lines: seq<string>)
    requires forall l <- lines :: '\n' !in l
    ensures Split(EndLines(lines), '\n') == lines + [""]
  {
    hide Split, EndLines;
    JoinLines(lines, [""]);
    assert Join([""], "\n") == "";
    assert EndLines(lines) + "" == EndLines(lines);
    SplitJoin(lines + [""], '\n');
  }

  predicate IsSpace(c: char) {
    c in {' ', '\t', '\n', '\U{0B}', '\U{0C}', '\r', '\U{85}', '\U{A0}', '\U{1680}', '\U{2028}', '\U{2029}',
          '\U{202F}', '\U{205F}', '\U{3000}'} || '\U{2000}' <= c <= '\U{200A}'
  }

  function TrimLeft(s: string): string {
    if s != "" && IsSpace(s[0]) then TrimLeft(s[1..]) else s
  }

  function TrimRight(s: string): string {
    if s != "" && IsSpace(s[|s| - 1]) then TrimRight(s[..|s| - 1]) else s
  }

  function TrimSpace(s: string): string {
    TrimRight(TrimLeft(s))
  }

  predicate AllSpace(s: string) {
    forall i :: 0 <= i < |s| ==> IsSpace(s[i])
  }

  /** Text that starts and ends with something other than space, or is empty. */
  predicate Tight(s: string) {
    s == "" || (!IsSpace(s[0]) && !IsSpace(s[|s| - 1]))
  }

  lemma {:induction false} TrimLeftBlanks(a: string, s: string)
    requires AllSpace(a)
    ensures TrimLeft(a + s) == TrimLeft(s)
  {
    hide IsSpace;
    if a == "" {
      assert a + s == s;
    } else {
      assert (a + s)[1..] == a[1..] + s;
      TrimLeftBlanks(a[1..], s);
    }
  }

  /** What follows a character that is no space is trimmed on its own. */
  lemma {:induction false} TrimRightAfter(x: string, tail: string)
    requires x != "" && !IsSpace(x[|x| - 1])
    ensures TrimRight(x + tail) == x + TrimRight(tail)
  {
    hide IsSpace;
    if tail == "" {
      assert x + tail == x;
    } else if IsSpace(tail[|tail| - 1]) {
      assert (x + tail)[..|x + tail| - 1] == x + tail[..|tail| - 1];
      TrimRightAfter(x, tail[..|tail| - 1]);
    }
  }

  lemma {:induction false} TrimRightBlanks(b: string)
    requires AllSpace(b)
    ensures TrimRight(b) == ""
  {
    hide IsSpace;
    if b != "" {
      TrimRightBlanks(b[..|b| - 1]);
    }
  }

  /** Trimming takes off exactly the outer space. */
  lemma TrimSpaceIs(a: string, s: string, b: string)
    requires AllSpace(a) && Tight(s) && AllSpace(b)
    ensures TrimSpace(a + s + b) == s
  {
    hide IsSpace, TrimLeft, TrimRight;
    assert a + s + b == a + (s + b);
    TrimLeftBlanks(a, s + b);
    if s == "" {
      assert s + b == b + "" == b;
      TrimLeftBlanks(b, "");
      TrimNothing();
    } else {
      TrimLeftStops(s + b);
      TrimRightAfter(s, b);
      TrimRightBlanks(b);
    }
  }

  lemma TrimNothing()
    ensures TrimLeft("") == "" && TrimRight("") == ""
  {
  }

  lemma {:induction false} TrimLeftStops(s: string)
    requires s != "" && !IsSpace(s[0])
    ensures TrimLeft(s) == s
  {
  }

  lemma {:induction false} TrimLeftParts(s: string) returns (a: string)
    ensures AllSpace(a) && s == a + TrimLeft(s)
    ensures TrimLeft(s) != "" ==> !IsSpace(TrimLeft(s)[0])
  {
    hide IsSpace;
    a := "";
    if s != "" && IsSpace(s[0]) {
      var rest := TrimLeftParts(s[1..]);
      a := [s[0]] + rest;
      assert s == [s[0]] + s[1..];
    }
  }

  /** Position of the first c in s, or -1. */
  function IndexByte(s: string, c: char): (i: int)
    ensures -1 <= i < |s|
    ensures i >= 0 ==> s[i] == c && c !in s[..i]
    ensures i < 0 ==> c !in s
  {
    if s == "" then -1
    else if s[0] == c then 0
    else
      var i := IndexByte(s[1..], c);
      if i < 0 then -1 else assert s[..i + 1] == [s[0]] + s[1..][..i]; i + 1
  }

  lemma {:induction false} IndexByteIs(p: string, rest: string, c: char)
    requires c !in p
    ensures IndexByte(p + [c] + rest, c) == |p|
  {
    if p != "" {
      IndexByteIs(p[1..], rest, c);
      assert (p + [c] + rest)[1..] == p[1..] + [c] + rest;
    }
  }

  /** A joined text holds no character its parts and separator do not hold. */
  lemma {:induction false} JoinAvoids(parts: seq<string>, sep: string, c: char)
    requires c !in sep && forall p <- parts :: c !in p
    ensures c !in Join(parts, sep)
  {
    if parts != [] {
      assert parts[0] in parts;
    }
    if |parts| > 1 {
      JoinAvoids(parts[1..], sep, c);
    }
  }

  predicate HasPrefix(s: string, p: string) {
    p <= s
  }

  /** Upper case, exact on every character whose upper case is ASCII. */
  function UpperChar(c: char): char {
    if 'a' <= c <= 'z' then (c as int - 32) as char
    else if c == '\U{131}' then 'I'
    else if c == '\U{17F}' then 'S'
    else c
  }

  function LowerChar(c: char): char {
    if 'A' <= c <= 'Z' then (c as int + 32) as char else c
  }

  function ToUpper(s: string): (r: string)
    ensures |r| == |s|
  {
    seq(|s|, i requires 0 <= i < |s| => UpperChar(s[i]))
  }

  function ToLower(s: string): (r: string)
    ensures |r| == |s|
  {
    seq(|s|, i requires 0 <= i < |s| => LowerChar(s[i]))
  }

  predicate EqualFold(a: string, b: string) {
    ToLower(a) == ToLower(b)
  }

  /** The same text but for the case of ASCII letters. */
  predicate SameButCase(a: string, b: string) {
    && |a| == |b|
    && forall i :: 0 <= i < |a| ==>
         || a[i] == b[i]
         || ('a' <= a[i] <= 'z' && a[i] as int == b[i] as int + 32)
         || ('A' <= a[i] <= 'Z' && a[i] as int == b[i] as int - 32)
  }

  lemma FoldIff(a: string, b: string)
    ensures EqualFold(a, b) <==> SameButCase(a, b)
    ensures SameButCase(a, b) ==> |a| == |b|
  {
    var x, y := ToLower(a), ToLower(b);
    if x == y {
      assert |x| == |y|;
      forall i | 0 <= i < |a| ensures LowerChar(a[i]) == LowerChar(b[i]) {
        assert x[i] == y[i];
      }
    }
    if SameButCase(a, b) {
      assert x == y;
    }
  }

  /** A command word in any case; the dotless i and the long s count as I and S. */
  predicate Spells(word: string, command: string) {
    && |word| == |command|
    && forall i :: 0 <= i < |word| ==>
         || word[i] == command[i]
         || word[i] as int == command[i] as int + 32
         || (command[i] == 'I' && word[i] == '\U{131}')
         || (command[i] == 'S' && word[i] == '\U{17F}')
  }

  lemma SpellsIff(word: string, command: string)
    requires forall i :: 0 <= i < |command| ==> 'A' <= command[i] <= 'Z'
    ensures ToUpper(word) == command <==> Spells(word, command)
  {
    var x := ToUpper(word);
    if x == command {
      forall i | 0 <= i < |word| ensures UpperChar(word[i]) == command[i] {
        assert x[i] == command[i];
      }
    }
    if Spells(word, command) {
      assert x == command;
    }
  }
}
