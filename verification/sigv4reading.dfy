/** A canonical request read back as section "Create a canonical request" of AWS Signature
    Version 4 lays it out: its lines, its query decoded, its headers by name. */
module SigV4Reading {
  import opened Wrappers
  import opened Text
  import opened Sequences
  import opened Sorting
  import opened SigV4
  import opened SigV4Theorems
  import U = UriEncode

  // --- Reading a query --------------------------------------------------------------------

  /** "key=value", both percent-decoded. */
  function ReadPair(part: string): Option<Pair> {
    var i := IndexByte(part, '=');
    if i < 0 then None
    else match (U.Decode(part[..i]), U.Decode(part[i + 1..]))
      case (Some(k), Some(v)) => Some((k, v))
      case _ => None
  }

  function ReadPairs(parts: seq<string>): Option<seq<Pair>> {
    if parts == [] then Some([])
    else match (ReadPair(parts[0]), ReadPairs(parts[1..]))
      case (Some(p), Some(ps)) => Some([p] + ps)
      case _ => None
  }

  function ReadQuery(text: string): Option<seq<Pair>> {
    if text == "" then Some([]) else ReadPairs(Split(text, '&'))
  }

  lemma PairReads(p: Pair)
    requires PairOk(p)
    ensures ReadPair(EncodePair(p)) == Some(p)
  {
    hide U.Encode, U.Decode, IndexByte;
    EncodePairParts(p);
    var a, b := U.Encode(p.0, false), U.Encode(p.1, false);
    assert EncodePair(p) == a + ['='] + b;
    IndexByteIs(a, b, '=');
    assert EncodePair(p)[..|a|] == a && EncodePair(p)[|a| + 1..] == b;
    U.DecodeEncode(p.0, false);
    U.DecodeEncode(p.1, false);
  }

  lemma {:induction false} PairsRead(ps: seq<Pair>)
    requires forall p <- ps :: PairOk(p)
    ensures ReadPairs(EncodePairs(ps)) == Some(ps)
  {
    hide ReadPair, EncodePair, PairOk;
    if ps != [] {
      assert ps[0] in ps && ps == [ps[0]] + ps[1..];
      PairReads(ps[0]);
      PairsRead(ps[1..]);
      assert EncodePairs(ps)[1..] == EncodePairs(ps[1..]);
    }
  }

  lemma QueryReads(ps: seq<Pair>)
    requires forall p <- ps :: PairOk(p)
    ensures ReadQuery(Join(EncodePairs(ps), "&")) == Some(ps)
  {
    hide ReadPairs, EncodePair, PairOk, Join, Split;
    var parts := EncodePairs(ps);
    EncodedCleanly(ps);
    PairsRead(ps);
    if parts == [] {
      JoinOfNone("&");
    } else {
      assert parts[0] in parts;
      JoinNotEmpty(parts, "&");
      SplitJoin(parts, '&');
    }
  }

  // --- Order ----------------------------------------------------------------------------------

  /** Byte order: a is b, or a prefix of it, or smaller where they first differ. */
  ghost predicate Precedes(a: string, b: string) {
    a <= b || exists i :: 0 <= i < |a| && i < |b| && a[..i] == b[..i] && a[i] < b[i]
  }

  lemma {:induction false} OrderIs(a: string, b: string)
    ensures LE(a, b) <==> Precedes(a, b)
  {
    hide Precedes;
    if a == "" || b == "" || a[0] != b[0] {
      FirstDiffers(a, b);
    } else {
      OrderIs(a[1..], b[1..]);
      PrecedesCons(a, b);
    }
  }

  lemma FirstDiffers(a: string, b: string)
    requires a == "" || b == "" || a[0] != b[0]
    ensures Precedes(a, b) <==> a == "" || (b != "" && a[0] < b[0])
  {
    if a != "" && b != "" && a[0] < b[0] {
      assert a[..0] == b[..0];
    }
  }

  lemma PrecedesCons(a: string, b: string)
    requires a != "" && b != "" && a[0] == b[0]
    ensures Precedes(a, b) <==> Precedes(a[1..], b[1..])
  {
    var c, d := a[1..], b[1..];
    assert a == [a[0]] + c && b == [b[0]] + d;
    if i :| 0 <= i < |c| && i < |d| && c[..i] == d[..i] && c[i] < d[i] {
      assert a[..i + 1] == [a[0]] + c[..i] && b[..i + 1] == [b[0]] + d[..i];
      assert a[i + 1] < b[i + 1];
    }
    if i :| 0 <= i < |a| && i < |b| && a[..i] == b[..i] && a[i] < b[i] {
      assert c[..i - 1] == a[..i][1..] && d[..i - 1] == b[..i][1..] && c[i - 1] < d[i - 1];
    }
  }

  /** By key, and under one key by value. */
  ghost predicate Ascending(ps: seq<Pair>) {
    forall i, j :: 0 <= i < j < |ps| ==>
      if ps[i].0 == ps[j].0 then Precedes(ps[i].1, ps[j].1) else Precedes(ps[i].0, ps[j].0)
  }

  lemma {:induction false} PairsAscend(keys: seq<string>, q: map<string, seq<string>>)
    requires NoDup(keys) && Sorted(keys) && forall k <- keys :: k in q
    ensures Ascending(Pairs(keys, q)) && forall p <- Pairs(keys, q) :: p.0 in keys
  {
    hide LE, Sort, Precedes;
    if keys != [] {
      var n := |keys| - 1;
      var front, last := keys[..n], keys[n];
      assert keys == front + [last];
      PairsAscend(front, q);
      var old_, new_ := Pairs(front, q), PairsOf(last, Sort(q[last]));
      SortKeeps(q[last]);
      forall i, j | 0 <= i < j < |new_| ensures Precedes(new_[i].1, new_[j].1) {
        OrderIs(new_[i].1, new_[j].1);
      }
      forall i | 0 <= i < |old_| ensures old_[i].0 != last && Precedes(old_[i].0, last) {
        assert old_[i] in old_;
        var k :| 0 <= k < n && keys[k] == old_[i].0;
        OrderIs(keys[k], keys[n]);
      }
    }
  }

  // --- The whole text -----------------------------------------------------------------------------

  /** The value signed for a header name: the request's host, or the joined values of the header
      of that name, trimmed. */
  ghost predicate Signs(r: Request, name: string, value: string) {
    if name == "host" then value == r.host
    else exists k :: k in r.headers && ToLower(k) == name && value == TrimSpace(Join(r.headers[k], ","))
  }

  ghost predicate SignsLine(r: Request, name: string, line: string) {
    exists v :: line == name + ":" + v && Signs(r, name, v)
  }

  lemma HeaderMapSigns(r: Request, name: string)
    requires LowerDistinct(r.headers)
    ensures name in HeaderMap(r) <==> name == "host" || exists k :: k in r.headers && ToLower(k) == name
    ensures name in HeaderMap(r) ==> Signs(r, name, HeaderMap(r)[name])
  {
    hide ToLower, TrimSpace, Join;
  }

  /** Line by line: method, path, query, one line a signed header in byte order of the names, an
      empty line, the signed names, the body hash. The query decodes to each key's values, in
      byte order of keys and then values. */
  lemma CanonicalReads(r: Request, h: string) returns (names: seq<string>, pairs: seq<Pair>)
    requires WellFormed(r, h)
    ensures forall i, j :: 0 <= i < j < |names| ==> names[i] != names[j] && Precedes(names[i], names[j])
    ensures forall x :: x in names <==> x == "host" || exists k :: k in r.headers && ToLower(k) == x
    ensures Ascending(pairs) && forall k :: multiset(ValuesOf(pairs, k)) == multiset(Values(r.query, k))
    ensures var lines, n := Split(Canonical(r, h), '\n'), |names|;
            && |lines| == n + 6
            && lines[0] == r.verb && lines[1] == (if r.escapedPath == "" then "/" else r.escapedPath)
            && ReadQuery(lines[2]) == Some(pairs)
            && (forall i :: 0 <= i < n ==> SignsLine(r, names[i], lines[3 + i]))
            && lines[n + 3] == "" && lines[n + 4] == Join(names, ";") && lines[n + 5] == h
  {
    hide Join, Split, EndLines, EncodePairs, Pairs, HeaderMap, Sort, Sorted, SortedListing, PairOk, QueryOk, Canonical,
         ReadQuery, Signs, Precedes, LE, ValuesOf, ToLower, TrimSpace, LowerDistinct, SignsLine;
    names, pairs := NamesOf(r), QueryPairs(r);
    NamesAre(r);
    PairsAreOk(r);
    PairsAre(r);
    CanonicalAsLines(r, h);
    QueryReads(pairs);
    LinesAre(r, h);
    var lines := CanonicalLines(r, h);
    assert forall l <- lines :: NoNewline(l);
    SplitJoin(lines, '\n');
  }

  ghost function NamesOf(r: Request): seq<string>
    requires LowerDistinct(r.headers)
  {
    SortedListing(HeaderMap(r).Keys)
  }

  lemma NamesAre(r: Request)
    requires LowerDistinct(r.headers)
    ensures var names := NamesOf(r);
            && (forall i, j :: 0 <= i < j < |names| ==> names[i] != names[j] && Precedes(names[i], names[j]))
            && (forall x :: x in names <==> x == "host" || exists k :: k in r.headers && ToLower(k) == x)
  {
    hide HeaderMap, SortedListing, Precedes, LE, ToLower, LowerDistinct;
    var names := NamesOf(r);
    SortedListingOk(HeaderMap(r).Keys);
    forall i, j | 0 <= i < j < |names| ensures Precedes(names[i], names[j]) {
      OrderIs(names[i], names[j]);
    }
    forall x ensures x in names <==> x == "host" || exists k :: k in r.headers && ToLower(k) == x {
      HeaderMapSigns(r, x);
    }
  }

  lemma PairsAre(r: Request)
    requires QueryOk(r.query)
    ensures Ascending(QueryPairs(r)) && forall k :: multiset(ValuesOf(QueryPairs(r), k)) == multiset(Values(r.query, k))
  {
    hide Ascending, ValuesOf, Sort, Sorted, SortedListing, Pairs;
    var keys := SortedListing(r.query.Keys);
    SortedListingOk(r.query.Keys);
    PairsAscend(keys, r.query);
    forall k ensures multiset(ValuesOf(QueryPairs(r), k)) == multiset(Values(r.query, k)) {
      ValuesOfPairs(keys, r.query, k);
      SortKeeps(Values(r.query, k));
    }
  }

  lemma LinesAre(r: Request, h: string)
    requires WellFormed(r, h)
    ensures PairsOk(r)
    ensures var lines, names := CanonicalLines(r, h), NamesOf(r);
            var n := |names|;
            && |lines| == n + 6
            && lines[0] == r.verb && lines[1] == (if r.escapedPath == "" then "/" else r.escapedPath)
            && lines[2] == Join(EncodePairs(QueryPairs(r)), "&")
            && (forall i :: 0 <= i < n ==> SignsLine(r, names[i], lines[3 + i]))
            && lines[n + 3] == "" && lines[n + 4] == Join(names, ";") && lines[n + 5] == h
  {
    hide Join, EncodePairs, HeaderMap, SortedListing, PairOk, QueryOk, SignsLine, QueryPairs, NoNewline, LowerDistinct,
         AllLines, HeaderLines;
    var names, m := NamesOf(r), HeaderMap(r);
    PairsAreOk(r);
    SortedListingOk(m.Keys);
    AllLinesAre(r.verb, Uri(r), Join(EncodePairs(QueryPairs(r)), "&"), HeaderLines(names, m), Join(names, ";"), h);
    HeaderLinesSign(r);
  }

  lemma AllLinesAre(verb: string, uri: string, query: string, hs: seq<string>, signed: string, hash: string)
    ensures var lines, n := AllLines(verb, uri, query, hs, signed, hash), |hs|;
            && |lines| == n + 6 && lines[0] == verb && lines[1] == uri && lines[2] == query
            && (forall i :: 0 <= i < n ==> lines[3 + i] == hs[i])
            && lines[n + 3] == "" && lines[n + 4] == signed && lines[n + 5] == hash
  {
  }

  lemma HeaderLinesSign(r: Request)
    requires LowerDistinct(r.headers)
    ensures var names, m := NamesOf(r), HeaderMap(r);
            && (forall k <- names :: k in m) && |HeaderLines(names, m)| == |names|
            && forall i :: 0 <= i < |names| ==> SignsLine(r, names[i], HeaderLines(names, m)[i])
  {
    hide HeaderMap, SortedListing, Signs, LowerDistinct;
    var names, m := NamesOf(r), HeaderMap(r);
    SortedListingOk(m.Keys);
    forall i | 0 <= i < |names| ensures SignsLine(r, names[i], HeaderLines(names, m)[i]) {
      assert names[i] in names && names[i] in m;
      HeaderMapSigns(r, names[i]);
      assert HeaderLines(names, m)[i] == names[i] + ":" + m[names[i]];
    }
  }

  ghost predicate PairsOk(r: Request) {
    forall p <- QueryPairs(r) :: PairOk(p)
  }
}
