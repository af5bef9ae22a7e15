/** core/transport/awssigv4.go: the canonical request of AWS Signature Version 4. The
    spec functions name what the text is made of; the theorems say it depends on nothing
    else and hides nothing. */
module SigV4 {
  import opened Text
  import opened Sorting
  import U = UriEncode

  datatype Request = Request(
    verb: string,
    escapedPath: string,
    query: map<string, seq<string>>,
    headers: map<string, seq<string>>,
    host: string)

  type Pair = (string, string)

  // --- Query ------------------------------------------------------------------------------

  /** A parsed query: byte strings, and no key without a value. */
  predicate QueryOk(q: map<string, seq<string>>) {
    forall k <- q.Keys :: U.IsBytes(k) && q[k] != [] && forall v <- q[k] :: U.IsBytes(v)
  }

  function PairsOf(k: string, values: seq<string>): seq<Pair> {
    seq(|values|, i requires 0 <= i < |values| => (k, values[i]))
  }

  /** The pairs of a query in the order of `keys`, each key's values sorted. */
  function Pairs(keys: seq<string>, q: map<string, seq<string>>): seq<Pair>
    requires forall k <- keys :: k in q
  {
    if keys == [] then [] else Pairs(keys[..|keys| - 1], q) + PairsOf(keys[|keys| - 1], Sort(q[keys[|keys| - 1]]))
  }

  predicate PairOk(p: Pair) {
    U.IsBytes(p.0) && U.IsBytes(p.1)
  }

  function EncodePair(p: Pair): string
    requires PairOk(p)
  {
    U.Encode(p.0, false) + "=" + U.Encode(p.1, false)
  }

  function EncodePairs(ps: seq<Pair>): seq<string>
    requires forall p <- ps :: PairOk(p)
  {
    seq(|ps|, i requires 0 <= i < |ps| => EncodePair(ps[i]))
  }

  // --- Headers ------------------------------------------------------------------------------

  function HeaderValue(values: seq<string>): string {
    TrimSpace(Join(values, ","))
  }

  /** No two header names collide once lower-cased. */
  ghost predicate LowerDistinct(h: map<string, seq<string>>) {
    forall a <- h.Keys, b <- h.Keys :: ToLower(a) == ToLower(b) ==> a == b
  }

  ghost function HeaderMap(r: Request): map<string, string>
    requires LowerDistinct(r.headers)
  {
    (map k | k in r.headers :: ToLower(k) := HeaderValue(r.headers[k]))["host" := r.host]
  }

  function HeaderLines(names: seq<string>, m: map<string, string>): seq<string>
    requires forall k <- names :: k in m
  {
    seq(|names|, i requires 0 <= i < |names| => names[i] + ":" + m[names[i]])
  }

  // --- The canonical text ----------------------------------------------------------------------

  function Uri(r: Request): string {
    if r.escapedPath == "" then "/" else r.escapedPath
  }

  function Text6(verb: string, uri: string, query: string, headers: string, signed: string, bodyHash: string): string {
    Join([verb, uri, query, headers, signed, bodyHash], "\n")
  }

  ghost function QueryPairs(r: Request): seq<Pair> {
    SortedListingOk(r.query.Keys);
    Pairs(SortedListing(r.query.Keys), r.query)
  }

  ghost function Canonical(r: Request, bodyHash: string): string
    requires QueryOk(r.query) && LowerDistinct(r.headers)
  {
    SortedListingOk(HeaderMap(r).Keys);
    PairsAreOk(r);
    var names := SortedListing(HeaderMap(r).Keys);
    Text6(r.verb, Uri(r), Join(EncodePairs(QueryPairs(r)), "&"),
          EndLines(HeaderLines(names, HeaderMap(r))), Join(names, ";"), bodyHash)
  }

  lemma {:induction false} PairsWithin(keys: seq<string>, q: map<string, seq<string>>)
    requires QueryOk(q) && forall k <- keys :: k in q
    ensures forall p <- Pairs(keys, q) :: PairOk(p)
  {
    if keys != [] {
      var k := keys[|keys| - 1];
      PairsWithin(keys[..|keys| - 1], q);
      SortMembers(q[k]);
    }
  }

  lemma PairsAreOk(r: Request)
    requires QueryOk(r.query)
    ensures forall p <- QueryPairs(r) :: PairOk(p)
  {
    SortedListingOk(r.query.Keys);
    PairsWithin(SortedListing(r.query.Keys), r.query);
  }

  // --- Computing it ---------------------------------------------------------------------------------

  lemma EncodePairsAppend(ps: seq<Pair>, more: seq<Pair>)
    requires (forall p <- ps :: PairOk(p)) && forall p <- more :: PairOk(p)
    ensures forall p <- ps + more :: PairOk(p)
    ensures EncodePairs(ps + more) == EncodePairs(ps) + EncodePairs(more)
  {
  }

  lemma {:induction false} PairsAppend(keys: seq<string>, k: string, q: map<string, seq<string>>)
    requires (forall x <- keys :: x in q) && k in q
    ensures Pairs(keys + [k], q) == Pairs(keys, q) + PairsOf(k, Sort(q[k]))
  {
    assert (keys + [k])[..|keys|] == keys;
  }

  method EncodeValues(k: string, values: seq<string>) returns (parts: seq<string>)
    requires U.IsBytes(k) && forall v <- values :: U.IsBytes(v)
    ensures forall p <- PairsOf(k, values) :: PairOk(p)
    ensures parts == EncodePairs(PairsOf(k, values))
  {
    hide U.Encode, U.IsBytes;
    parts := [];
    for j := 0 to |values|
      invariant |parts| == j
      invariant forall i :: 0 <= i < j ==> parts[i] == U.Encode(k, false) + "=" + U.Encode(values[i], false)
    {
      var ek := U.AwsURIEncode(k, false);
      var ev := U.AwsURIEncode(values[j], false);
      parts := parts + [ek + "=" + ev];
    }
  }

  method EncodeQuery(q: map<string, seq<string>>) returns (qparts: seq<string>)
    requires QueryOk(q)
    ensures forall k <- SortedListing(q.Keys) :: k in q
    ensures forall p <- Pairs(SortedListing(q.Keys), q) :: PairOk(p)
    ensures qparts == EncodePairs(Pairs(SortedListing(q.Keys), q))
  {
    hide Sort, Sorted, EncodePairs, PairsOf, SortedListing, PairOk, Pairs;
    var keys := Keys(q);
    SortedListingIs(keys, q.Keys);
    keys := Sort(keys);
    PairsWithin(keys, q);
    qparts := [];
    NoPairs(q);
    assert keys[..0] == [];
    for i := 0 to |keys|
      invariant forall k <- keys[..i] :: k in q
      invariant forall p <- Pairs(keys[..i], q) :: PairOk(p)
      invariant qparts == EncodePairs(Pairs(keys[..i], q))
    {
      var k := keys[i];
      assert k in keys && k in q;
      var values := Sort(q[k]);
      SortMembers(q[k]);
      var parts := EncodeValues(k, values);
      PairsAppend(keys[..i], k, q);
      EncodePairsAppend(Pairs(keys[..i], q), PairsOf(k, values));
      assert keys[..i] + [k] == keys[..i + 1];
      qparts := qparts + parts;
    }
    assert keys[..|keys|] == keys;
  }

  lemma {:induction false} NoPairs(q: map<string, seq<string>>)
    ensures Pairs([], q) == [] && EncodePairs([]) == []
  {
  }

  /** The headers walked so far are in the map, and nothing else is. */
  ghost predicate LowerDone(m: map<string, string>, headers: map<string, seq<string>>, done: set<string>) {
    && done <= headers.Keys
    && (forall k <- done :: ToLower(k) in m && m[ToLower(k)] == HeaderValue(headers[k]))
    && (forall x <- m.Keys :: exists k :: k in done && ToLower(k) == x)
  }

  lemma LowerStep(m: map<string, string>, headers: map<string, seq<string>>, done: set<string>, k: string)
    requires LowerDone(m, headers, done) && LowerDistinct(headers) && k in headers
    ensures LowerDone(m[ToLower(k) := HeaderValue(headers[k])], headers, done + {k})
  {
    hide ToLower, HeaderValue;
    var n := m[ToLower(k) := HeaderValue(headers[k])];
    forall x | x in n.Keys ensures exists a :: a in done + {k} && ToLower(a) == x {
      if x == ToLower(k) {
        assert k in done + {k};
      } else {
        var a :| a in done && ToLower(a) == x;
        assert a in done + {k};
      }
    }
  }

  method BuildHeaderMap(r: Request) returns (m: map<string, string>)
    requires LowerDistinct(r.headers)
    ensures m == HeaderMap(r)
  {
    hide ToLower, HeaderValue;
    m := map[];
    var todo := r.headers.Keys;
    ghost var done: set<string> := {};
    while todo != {}
      invariant todo + done == r.headers.Keys
      invariant LowerDone(m, r.headers, done)
      decreases todo
    {
      var k :| k in todo;
      LowerStep(m, r.headers, done, k);
      m := m[ToLower(k) := HeaderValue(r.headers[k])];
      todo := todo - {k};
      done := done + {k};
    }
    m := m["host" := r.host];
  }

  method WriteHeaders(names: seq<string>, m: map<string, string>) returns (text: string)
    requires forall k <- names :: k in m
    ensures text == EndLines(HeaderLines(names, m))
  {
    text := "";
    for i := 0 to |names|
      invariant text == EndLines(HeaderLines(names[..i], m))
    {
      var k := names[i];
      var line := k + ":" + m[k];
      ghost var lines := HeaderLines(names[..i], m);
      assert HeaderLines(names[..i + 1], m) == lines + [line];
      assert (lines + [line])[..i] == lines;
      text := text + line + "\n";
    }
    assert names[..|names|] == names;
  }

  /** The canonical request and the signed-headers list, whatever order maps are walked in. */
  method CanonicalRequest(r: Request, bodyHash: string) returns (canonical: string, signedHeaders: string)
    requires QueryOk(r.query) && LowerDistinct(r.headers)
    ensures canonical == Canonical(r, bodyHash)
    ensures signedHeaders == Join(SortedListing(HeaderMap(r).Keys), ";")
  {
    hide Sort, Sorted, EncodePairs, Pairs, HeaderMap, HeaderLines, EndLines, SortedListing, PairOk, Join;
    var uri := r.escapedPath;
    if uri == "" {
      uri := "/";
    }
    var qparts := EncodeQuery(r.query);
    var canonQuery := Join(qparts, "&");
    var headerMap := BuildHeaderMap(r);
    var hkeys := Keys(headerMap);
    SortedListingIs(hkeys, headerMap.Keys);
    hkeys := Sort(hkeys);
    var canonHeaders := WriteHeaders(hkeys, headerMap);
    signedHeaders := Join(hkeys, ";");
    canonical := Join([r.verb, uri, canonQuery, canonHeaders, signedHeaders, bodyHash], "\n");
  }
}
