/** What a SigV4 canonical request says about its request (core/transport/awssigv4.go):
    two requests have the same canonical text exactly when they agree on every signed
    part, so a signature vouches for each of them and for nothing else. */
module SigV4Theorems {
  import opened Text
  import opened Sequences
  import opened Sorting
  import opened SigV4
  import U = UriEncode

  predicate NoNewline(s: string) {
    '\n' !in s
  }

  predicate HeaderOk(name: string, values: seq<string>) {
    '\n' !in name && ':' !in name && forall v <- values :: NoNewline(v)
  }

  /** What an HTTP request is anyway: no newline in any part, no ':' in a header name, and
      header names that stay distinct in lower case. */
  ghost predicate WellFormed(r: Request, bodyHash: string) {
    && QueryOk(r.query) && LowerDistinct(r.headers)
    && NoNewline(r.verb) && NoNewline(r.escapedPath) && NoNewline(r.host) && NoNewline(bodyHash)
    && forall k <- r.headers.Keys :: HeaderOk(k, r.headers[k])
  }

  function Values(q: map<string, seq<string>>, k: string): seq<string> {
    if k in q then q[k] else []
  }

  /** The same signed content: the values of a query key count as a multiset, headers by
      lower-cased name and joined, trimmed value, and an empty path as "/". */
  ghost predicate SameContent(r: Request, h: string, s: Request, g: string)
    requires LowerDistinct(r.headers) && LowerDistinct(s.headers)
  {
    && r.verb == s.verb && Uri(r) == Uri(s) && h == g
    && HeaderMap(r) == HeaderMap(s)
    && forall k :: multiset(Values(r.query, k)) == multiset(Values(s.query, k))
  }

  // --- One text as a list of lines --------------------------------------------------------

  function AllLines(verb: string, uri: string, query: string, lines: seq<string>, signed: string, hash: string): seq<string> {
    [verb, uri, query] + lines + ["", signed, hash]
  }

  lemma {:induction false} TextIsLines(verb: string, uri: string, query: string, lines: seq<string>, signed: string,
                                       hash: string)
    ensures Text6(verb, uri, query, EndLines(lines), signed, hash)
         == Join(AllLines(verb, uri, query, lines, signed, hash), "\n")
  {
    hide Join;
    var hs := EndLines(lines);
    var tail := ["", signed, hash];
    JoinThree("", signed, hash);
    JoinLines(lines, tail);
    var l := lines + tail;
    assert AllLines(verb, uri, query, lines, signed, hash) == [verb] + ([uri] + ([query] + l));
    JoinCons(verb, [uri] + ([query] + l), "\n");
    JoinCons(uri, [query] + l, "\n");
    JoinCons(query, l, "\n");
    var six := [verb, uri, query, hs, signed, hash];
    assert six == [verb] + ([uri] + ([query] + [hs, signed, hash]));
    JoinCons(verb, [uri] + ([query] + [hs, signed, hash]), "\n");
    JoinCons(uri, [query] + [hs, signed, hash], "\n");
    JoinCons(query, [hs, signed, hash], "\n");
    JoinThree(hs, signed, hash);
  }

  lemma JoinThree(a: string, b: string, c: string)
    ensures Join([a, b, c], "\n") == a + "\n" + b + "\n" + c
  {
    assert [a, b, c] == [a] + ([b] + [c]);
    JoinCons(a, [b] + [c], "\n");
    JoinCons(b, [c], "\n");
  }

  predicate AllNoNewline(lines: seq<string>) {
    forall i :: 0 <= i < |lines| ==> NoNewline(lines[i])
  }

  /** Six parts without newlines, the fourth a list of lines, can be read back. */
  lemma {:induction false} LinesInjective(a: seq<string>, b: seq<string>)
    requires a != [] && b != [] && AllNoNewline(a) && AllNoNewline(b)
    requires Join(a, "\n") == Join(b, "\n")
    ensures a == b
  {
    hide Join, Split;
    SplitJoin(a, '\n');
    SplitJoin(b, '\n');
  }

  // --- Header lines -------------------------------------------------------------------------

  lemma HeaderLineInjective(n: string, v: string, m: string, w: string)
    requires ':' !in n && ':' !in m && n + ":" + v == m + ":" + w
    ensures n == m && v == w
  {
    hide Split;
    SplitFirst(n, v, ':');
    SplitFirst(m, w, ':');
    var s, t := n + ":" + v, m + ":" + w;
    assert n == Split(s, ':')[0] == Split(t, ':')[0] == m;
    assert v == s[|n| + 1..] && w == t[|m| + 1..];
  }

  lemma HeaderLinesInjective(ns: seq<string>, m: map<string, string>, ms: seq<string>, w: map<string, string>)
    requires Lists(ns, m.Keys) && Lists(ms, w.Keys)
    requires (forall k <- ns :: ':' !in k) && forall k <- ms :: ':' !in k
    requires HeaderLines(ns, m) == HeaderLines(ms, w)
    ensures m == w
  {
    var a, b := HeaderLines(ns, m), HeaderLines(ms, w);
    assert |ns| == |a| == |b| == |ms|;
    forall i | 0 <= i < |ns| ensures ns[i] == ms[i] && m[ns[i]] == w[ms[i]] {
      assert a[i] == ns[i] + ":" + m[ns[i]] && b[i] == ms[i] + ":" + w[ms[i]];
      HeaderLineInjective(ns[i], m[ns[i]], ms[i], w[ms[i]]);
    }
    assert ns == ms;
    forall k ensures (k in m <==> k in w) && (k in m ==> m[k] == w[k]) {
      assert k in m ==> k in ns;
    }
  }

  lemma LowerOk(s: string)
    ensures ':' !in s ==> ':' !in ToLower(s)
    ensures '\n' !in s ==> '\n' !in ToLower(s)
  {
    forall i | 0 <= i < |s|
      ensures ToLower(s)[i] == ':' ==> s[i] == ':'
      ensures ToLower(s)[i] == '\n' ==> s[i] == '\n'
    {
    }
  }

  lemma {:induction false} TrimLeftWithin(s: string)
    ensures forall c <- TrimLeft(s) :: c in s
  {
    hide IsSpace;
    if s != "" && IsSpace(s[0]) {
      TrimLeftWithin(s[1..]);
    }
  }

  lemma {:induction false} TrimRightWithin(s: string)
    ensures forall c <- TrimRight(s) :: c in s
  {
    hide IsSpace;
    if s != "" && IsSpace(s[|s| - 1]) {
      TrimRightWithin(s[..|s| - 1]);
    }
  }

  lemma HeaderMapOk(r: Request, h: string)
    requires WellFormed(r, h)
    ensures forall k <- HeaderMap(r).Keys :: ':' !in k && NoNewline(k) && NoNewline(HeaderMap(r)[k])
  {
    hide TrimLeft, TrimRight, ToLower, Join, QueryOk;
    forall k | k in HeaderMap(r) ensures ':' !in k && NoNewline(k) && NoNewline(HeaderMap(r)[k]) {
      if k == "host" {
      } else {
        var n :| n in r.headers && ToLower(n) == k;
        assert HeaderOk(n, r.headers[n]);
        LowerOk(n);
        JoinAvoids(r.headers[n], ",", '\n');
        TrimLeftWithin(Join(r.headers[n], ","));
        TrimRightWithin(TrimLeft(Join(r.headers[n], ",")));
      }
    }
  }

  // --- The query ------------------------------------------------------------------------------

  lemma EncodePairParts(p: Pair)
    requires PairOk(p)
    ensures '=' !in U.Encode(p.0, false)
    ensures '&' !in EncodePair(p) && NoNewline(EncodePair(p)) && EncodePair(p) != ""
  {
    hide U.Encode;
    U.EncodedAlphabet(p.0);
    U.EncodedAlphabet(p.1);
    var a, b := U.Encode(p.0, false), U.Encode(p.1, false);
    var e := a + "=" + b;
    forall i | 0 <= i < |e| ensures e[i] != '&' && e[i] != '\n' {
      if i < |a| {
        assert e[i] == a[i] && a[i] in a;
      } else if i > |a| {
        assert e[i] == b[i - |a| - 1] && b[i - |a| - 1] in b;
      }
    }
    assert |e| > 0 && '&' !in e && '\n' !in e;
  }

  lemma EncodePairInjective(p: Pair, q: Pair)
    requires PairOk(p) && PairOk(q) && EncodePair(p) == EncodePair(q)
    ensures p == q
  {
    hide U.Encode, Split;
    EncodePairParts(p);
    EncodePairParts(q);
    var a, b, c, d := U.Encode(p.0, false), U.Encode(p.1, false), U.Encode(q.0, false), U.Encode(q.1, false);
    SplitFirst(a, b, '=');
    SplitFirst(c, d, '=');
    assert a == Split(EncodePair(p), '=')[0] == c;
    assert b == EncodePair(p)[|a| + 1..] == d;
    U.EncodeInjective(p.0, q.0, false);
    U.EncodeInjective(p.1, q.1, false);
  }

  lemma {:induction false} JoinNotEmpty(parts: seq<string>, sep: string)
    requires parts != [] && parts[0] != ""
    ensures Join(parts, sep) != ""
  {
  }

  lemma QueryTextInjective(ps: seq<Pair>, qs: seq<Pair>)
    requires (forall p <- ps :: PairOk(p)) && forall q <- qs :: PairOk(q)
    requires Join(EncodePairs(ps), "&") == Join(EncodePairs(qs), "&")
    ensures ps == qs
  {
    hide Split, Join, PairOk, EncodePair;
    var a, b := EncodePairs(ps), EncodePairs(qs);
    EncodedCleanly(ps);
    EncodedCleanly(qs);
    if a != [] && b != [] {
      SplitJoin(a, '&');
      SplitJoin(b, '&');
      assert a == b;
      forall i | 0 <= i < |ps| ensures ps[i] == qs[i] {
        assert a[i] == EncodePair(ps[i]) && b[i] == EncodePair(qs[i]);
        EncodePairInjective(ps[i], qs[i]);
      }
    } else if a != [] {
      assert a[0] in a;
      JoinNotEmpty(a, "&");
      JoinOfNone("&");
    } else if b != [] {
      assert b[0] in b;
      JoinNotEmpty(b, "&");
      JoinOfNone("&");
    }
  }

  lemma {:induction false} JoinOfNone(sep: string)
    ensures Join([], sep) == ""
  {
  }

  lemma EncodedCleanly(ps: seq<Pair>)
    requires forall p <- ps :: PairOk(p)
    ensures forall e <- EncodePairs(ps) :: '&' !in e && e != "" && NoNewline(e)
  {
    hide EncodePair, PairOk;
    forall e | e in EncodePairs(ps) ensures '&' !in e && e != "" && NoNewline(e) {
      var i :| 0 <= i < |ps| && EncodePairs(ps)[i] == e;
      EncodePairParts(ps[i]);
    }
  }

  /** The values a list of pairs gives to key k, in order. */
  function ValuesOf(ps: seq<Pair>, k: string): seq<string> {
    if ps == [] then []
    else ValuesOf(ps[..|ps| - 1], k) + if ps[|ps| - 1].0 == k then [ps[|ps| - 1].1] else []
  }

  lemma {:induction false} ValuesOfAppend(ps: seq<Pair>, qs: seq<Pair>, k: string)
    ensures ValuesOf(ps + qs, k) == ValuesOf(ps, k) + ValuesOf(qs, k)
  {
    if qs == [] {
      assert ps + qs == ps;
    } else {
      ValuesOfAppend(ps, qs[..|qs| - 1], k);
      assert (ps + qs)[..|ps + qs| - 1] == ps + qs[..|qs| - 1];
    }
  }

  lemma {:induction false} ValuesOfPairsOf(k: string, values: seq<string>, x: string)
    ensures ValuesOf(PairsOf(k, values), x) == if x == k then values else []
  {
    var ps := PairsOf(k, values);
    if values != [] {
      var front := values[..|values| - 1];
      assert ps[..|ps| - 1] == PairsOf(k, front);
      ValuesOfPairsOf(k, front, x);
    }
  }

  lemma {:induction false} ValuesOfPairs(keys: seq<string>, q: map<string, seq<string>>, k: string)
    requires NoDup(keys) && forall x <- keys :: x in q
    ensures ValuesOf(Pairs(keys, q), k) == if k in keys then Sort(q[k]) else []
  {
    hide Sort, PairsOf;
    if keys != [] {
      var front, last := keys[..|keys| - 1], keys[|keys| - 1];
      assert keys == front + [last];
      ValuesOfPairs(front, q, k);
      ValuesOfAppend(Pairs(front, q), PairsOf(last, Sort(q[last])), k);
      ValuesOfPairsOf(last, Sort(q[last]), k);
      assert last !in front;
    }
  }

  /** The canonical pairs decide, and are decided by, each key's multiset of values. */
  lemma PairsDetermine(r: Request, s: Request)
    requires QueryOk(r.query) && QueryOk(s.query)
    ensures QueryPairs(r) == QueryPairs(s)
       <==> forall k :: multiset(Values(r.query, k)) == multiset(Values(s.query, k))
  {
    hide Sort, Sorted, SortedListing, ValuesOf;
    var q, p := r.query, s.query;
    SortedListingOk(q.Keys);
    SortedListingOk(p.Keys);
    if QueryPairs(r) == QueryPairs(s) {
      forall k ensures multiset(Values(q, k)) == multiset(Values(p, k)) {
        ValuesOfPairs(SortedListing(q.Keys), q, k);
        ValuesOfPairs(SortedListing(p.Keys), p, k);
        SortKeeps(Values(q, k));
        SortKeeps(Values(p, k));
        assert Sort([]) == [] by { SortMembers([]); }
        SortForgetsOrder(Values(q, k), Values(p, k));
      }
    }
    if forall k :: multiset(Values(q, k)) == multiset(Values(p, k)) {
      forall k ensures k in q <==> k in p {
        assert |multiset(Values(q, k))| == |Values(q, k)| && |multiset(Values(p, k))| == |Values(p, k)|;
      }
      assert q.Keys == p.Keys;
      forall k | k in q ensures Sort(q[k]) == Sort(p[k]) {
        assert multiset(Values(q, k)) == multiset(Values(p, k));
        SortForgetsOrder(q[k], p[k]);
      }
      SamePairs(SortedListing(q.Keys), q, p);
    }
  }

  lemma {:induction false} SamePairs(keys: seq<string>, q: map<string, seq<string>>, p: map<string, seq<string>>)
    requires forall k <- keys :: k in q && k in p && Sort(q[k]) == Sort(p[k])
    ensures Pairs(keys, q) == Pairs(keys, p)
  {
    hide Sort, PairsOf;
    if keys != [] {
      SamePairs(keys[..|keys| - 1], q, p);
    }
  }

  // --- The theorem ------------------------------------------------------------------------------

  /** The canonical text of a request as its list of lines. */
  ghost function CanonicalLines(r: Request, h: string): seq<string>
    requires QueryOk(r.query) && LowerDistinct(r.headers)
  {
    SortedListingOk(HeaderMap(r).Keys);
    PairsAreOk(r);
    var names := SortedListing(HeaderMap(r).Keys);
    AllLines(r.verb, Uri(r), Join(EncodePairs(QueryPairs(r)), "&"), HeaderLines(names, HeaderMap(r)), Join(names, ";"), h)
  }

  lemma CanonicalAsLines(r: Request, h: string)
    requires WellFormed(r, h)
    ensures Canonical(r, h) == Join(CanonicalLines(r, h), "\n") && AllNoNewline(CanonicalLines(r, h))
  {
    hide Join, EndLines, EncodePairs, Pairs, HeaderMap, Sort, Sorted, SortedListing, PairOk, QueryOk, QueryPairs, Text6;
    SortedListingOk(HeaderMap(r).Keys);
    PairsAreOk(r);
    HeaderMapOk(r, h);
    var names := SortedListing(HeaderMap(r).Keys);
    var query := Join(EncodePairs(QueryPairs(r)), "&");
    TextIsLines(r.verb, Uri(r), query, HeaderLines(names, HeaderMap(r)), Join(names, ";"), h);
    JoinAvoids(names, ";", '\n');
    EncodedCleanly(QueryPairs(r));
    JoinAvoids(EncodePairs(QueryPairs(r)), "&", '\n');
  }

  /** Two well-formed requests have the same canonical request if and only if they have the
      same method, path, query values, headers and body hash. */
  lemma CanonicalEqualIff(r: Request, h: string, s: Request, g: string)
    requires WellFormed(r, h) && WellFormed(s, g)
    ensures Canonical(r, h) == Canonical(s, g) <==> SameContent(r, h, s, g)
  {
    hide Join, EndLines, EncodePairs, Pairs, HeaderMap, Sort, Sorted, SortedListing, PairOk, QueryOk, QueryPairs,
         Text6, Values, HeaderLines;
    PairsDetermine(r, s);
    if Canonical(r, h) == Canonical(s, g) {
      CanonicalHidesNothing(r, h, s, g);
    }
  }

  lemma CanonicalHidesNothing(r: Request, h: string, s: Request, g: string)
    requires WellFormed(r, h) && WellFormed(s, g) && Canonical(r, h) == Canonical(s, g)
    ensures r.verb == s.verb && Uri(r) == Uri(s) && h == g
    ensures HeaderMap(r) == HeaderMap(s) && QueryPairs(r) == QueryPairs(s)
  {
    hide Join, EndLines, EncodePairs, Pairs, HeaderMap, Sort, Sorted, SortedListing, PairOk, QueryOk, QueryPairs,
         Text6, HeaderLines, Canonical;
    CanonicalAsLines(r, h);
    CanonicalAsLines(s, g);
    LinesInjective(CanonicalLines(r, h), CanonicalLines(s, g));
    SortedListingOk(HeaderMap(r).Keys);
    SortedListingOk(HeaderMap(s).Keys);
    PairsAreOk(r);
    PairsAreOk(s);
    HeaderMapOk(r, h);
    HeaderMapOk(s, g);
    var ns, ms := SortedListing(HeaderMap(r).Keys), SortedListing(HeaderMap(s).Keys);
    MiddleEqual(r.verb, Uri(r), Join(EncodePairs(QueryPairs(r)), "&"), HeaderLines(ns, HeaderMap(r)), Join(ns, ";"), h,
                s.verb, Uri(s), Join(EncodePairs(QueryPairs(s)), "&"), HeaderLines(ms, HeaderMap(s)), Join(ms, ";"), g);
    HeaderLinesInjective(ns, HeaderMap(r), ms, HeaderMap(s));
    QueryTextInjective(QueryPairs(r), QueryPairs(s));
  }

  lemma MiddleEqual(a: string, b: string, c: string, ls: seq<string>, d: string, e: string,
                    v: string, w: string, x: string, ks: seq<string>, y: string, z: string)
    requires AllLines(a, b, c, ls, d, e) == AllLines(v, w, x, ks, y, z)
    ensures a == v && b == w && c == x && ls == ks && e == z
  {
    var p, q := AllLines(a, b, c, ls, d, e), AllLines(v, w, x, ks, y, z);
    assert |p| == |ls| + 6 && |q| == |ks| + 6;
    assert p[0] == a && q[0] == v && p[1] == b && q[1] == w && p[2] == c && q[2] == x;
    assert p[|p| - 1] == e && q[|q| - 1] == z;
    assert ls == p[3..|p| - 3] && ks == q[3..|q| - 3];
  }
}
