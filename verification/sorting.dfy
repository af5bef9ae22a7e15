/** Byte-order comparison and sorting of strings, as the program gets them from its
    library, and the fact everything canonical rests on: sorting forgets the order in
    which a map was walked. */
module Sorting {
  import opened Sequences

  /** a comes no later than b, comparing characters from the left. */
  predicate LE(a: string, b: string) {
    a == "" || (b != "" && (a[0] < b[0] || (a[0] == b[0] && LE(a[1..], b[1..]))))
  }

  lemma {:induction false} LETotal(a: string, b: string)
    ensures LE(a, b) || LE(b, a)
  {
    if a != "" && b != "" && a[0] == b[0] {
      LETotal(a[1..], b[1..]);
    }
  }

  lemma {:induction false} LEAntisymmetric(a: string, b: string)
    requires LE(a, b) && LE(b, a)
    ensures a == b
  {
    if a != "" && b != "" {
      LEAntisymmetric(a[1..], b[1..]);
      assert a == [a[0]] + a[1..] && b == [b[0]] + b[1..];
    }
  }

  lemma {:induction false} LETransitive(a: string, b: string, c: string)
    requires LE(a, b) && LE(b, c)
    ensures LE(a, c)
  {
    if a != "" && a[0] == b[0] && b[0] == c[0] {
      LETransitive(a[1..], b[1..], c[1..]);
    }
  }

  predicate Sorted(s: seq<string>) {
    forall i, j :: 0 <= i < j < |s| ==> LE(s[i], s[j])
  }

  function Insert(x: string, s: seq<string>): seq<string> {
    if s == [] then [x]
    else if LE(x, s[0]) then [x] + s
    else [s[0]] + Insert(x, s[1..])
  }

  function Sort(s: seq<string>): seq<string> {
    if s == [] then [] else Insert(s[0], Sort(s[1..]))
  }

  lemma {:induction false} SortedCons(x: string, s: seq<string>)
    requires Sorted(s) && forall j :: 0 <= j < |s| ==> LE(x, s[j])
    ensures Sorted([x] + s)
  {
    hide LE;
  }

  lemma {:induction false} InsertKeeps(x: string, s: seq<string>)
    requires Sorted(s)
    ensures Sorted(Insert(x, s)) && multiset(Insert(x, s)) == multiset(s) + multiset{x}
  {
    hide LE;
    if s == [] {
    } else if LE(x, s[0]) {
      forall j | 0 <= j < |s| ensures LE(x, s[j]) {
        if j > 0 {
          LETransitive(x, s[0], s[j]);
        }
      }
    } else {
      var t := s[1..];
      InsertKeeps(x, t);
      LETotal(x, s[0]);
      assert s == [s[0]] + t;
      var r := Insert(x, t);
      forall j | 0 <= j < |r| ensures LE(s[0], r[j]) {
        assert r[j] in multiset(r);
        if r[j] != x {
          assert r[j] in t;
        }
      }
      SortedCons(s[0], r);
    }
  }

  lemma {:induction false} SortKeeps(s: seq<string>)
    ensures Sorted(Sort(s)) && multiset(Sort(s)) == multiset(s)
  {
    hide LE, Sorted, Insert;
    if s == [] {
      assert Sorted([]) by { EmptySorted(); }
    } else {
      SortKeeps(s[1..]);
      InsertKeeps(s[0], Sort(s[1..]));
      assert s == [s[0]] + s[1..];
    }
  }

  lemma {:induction false} SortMembers(s: seq<string>)
    ensures |Sort(s)| == |s|
    ensures forall x :: x in Sort(s) <==> x in s
  {
    SortKeeps(s);
    assert |multiset(s)| == |s| && |multiset(Sort(s))| == |Sort(s)|;
    forall x ensures x in Sort(s) <==> x in s {
      assert x in multiset(Sort(s)) <==> x in multiset(s);
    }
  }

  lemma EmptySorted()
    ensures Sorted([])
  {
  }

  lemma {:induction false} HeadLeast(s: seq<string>, x: string)
    requires Sorted(s) && x in s
    ensures LE(s[0], x)
  {
    hide LE;
    var i :| 0 <= i < |s| && s[i] == x;
    LETotal(x, x);
  }

  lemma TailSorted(s: seq<string>)
    requires s != [] && Sorted(s)
    ensures Sorted(s[1..])
  {
    hide LE;
  }

  lemma TailCounts(s: seq<string>)
    requires s != []
    ensures multiset(s[1..]) == multiset(s) - multiset{s[0]}
  {
    assert s == [s[0]] + s[1..];
  }

  /** A multiset of strings has one sorted listing. */
  lemma {:induction false} SortedUnique(s: seq<string>, t: seq<string>)
    requires Sorted(s) && Sorted(t) && multiset(s) == multiset(t)
    ensures s == t
  {
    hide LE, Sorted;
    assert |s| == |multiset(s)| == |t|;
    if s != [] {
      assert s[0] in multiset(t) && t[0] in multiset(s);
      HeadLeast(s, t[0]);
      HeadLeast(t, s[0]);
      LEAntisymmetric(s[0], t[0]);
      TailCounts(s);
      TailCounts(t);
      TailSorted(s);
      TailSorted(t);
      SortedUnique(s[1..], t[1..]);
      assert s == [s[0]] + s[1..] && t == [t[0]] + t[1..];
    }
  }

  /** Sorting depends on what is sorted, not on the order it comes in. */
  lemma {:induction false} SortForgetsOrder(s: seq<string>, t: seq<string>)
    ensures Sort(s) == Sort(t) <==> multiset(s) == multiset(t)
  {
    SortKeeps(s);
    SortKeeps(t);
    if multiset(s) == multiset(t) {
      SortedUnique(Sort(s), Sort(t));
    }
  }

  /** s lists exactly the elements of e, once each. */
  ghost predicate Lists(s: seq<string>, e: set<string>) {
    NoDup(s) && forall x :: x in s <==> x in e
  }

  lemma ListsUpToOrder(s: seq<string>, t: seq<string>, e: set<string>)
    requires Lists(s, e) && Lists(t, e)
    ensures multiset(s) == multiset(t)
  {
    forall x ensures multiset(s)[x] == multiset(t)[x] {
      CountOnce(s, x);
      CountOnce(t, x);
    }
  }

  lemma {:induction false} CountOnce(s: seq<string>, x: string)
    requires NoDup(s)
    ensures multiset(s)[x] == if x in s then 1 else 0
  {
    if s != [] {
      var t := s[1..];
      assert s == [s[0]] + t;
      CountOnce(t, x);
      assert s[0] !in t;
    }
  }

  /** Some listing of a set: the order a map is walked in. */
  ghost function AnyListing(e: set<string>): (s: seq<string>)
    ensures Lists(s, e)
  {
    if e == {} then []
    else
      var x :| x in e;
      var r := AnyListing(e - {x});
      [x] + r
  }

  /** The sorted listing of a set. */
  ghost function SortedListing(e: set<string>): (s: seq<string>) {
    Sort(AnyListing(e))
  }

  /** Whatever order the keys are gathered in, sorting them gives the same listing. */
  lemma {:induction false} SortedListingIs(s: seq<string>, e: set<string>)
    requires Lists(s, e)
    ensures Sort(s) == SortedListing(e)
    ensures Sorted(Sort(s)) && Lists(Sort(s), e)
  {
    ListsUpToOrder(s, AnyListing(e), e);
    SortForgetsOrder(s, AnyListing(e));
    SortKeeps(s);
    PermutedLists(s, Sort(s), e);
  }

  lemma PermutedLists(s: seq<string>, t: seq<string>, e: set<string>)
    requires Lists(s, e) && multiset(s) == multiset(t)
    ensures Lists(t, e)
  {
    forall i, j | 0 <= i < j < |t| ensures t[i] != t[j] {
      if t[i] == t[j] {
        TwiceCounted(t, i, j);
        CountOnce(s, t[i]);
        assert false;
      }
    }
    forall x ensures x in t <==> x in e {
      assert x in t <==> x in multiset(t);
      assert x in s <==> x in multiset(s);
    }
  }

  lemma TwiceCounted(t: seq<string>, i: nat, j: nat)
    requires i < j < |t| && t[i] == t[j]
    ensures multiset(t)[t[i]] >= 2
  {
    assert t == t[..j] + t[j..] && t[..j][i] == t[i] && t[j..][0] == t[i];
    assert multiset(t) == multiset(t[..j]) + multiset(t[j..]);
  }

  lemma SortedListingOk(e: set<string>)
    ensures Lists(SortedListing(e), e) && Sorted(SortedListing(e))
  {
    SortedListingIs(AnyListing(e), e);
  }

  /** The keys of a map, in whatever order the walk meets them. */
  method Keys<T>(m: map<string, T>) returns (keys: seq<string>)
    ensures Lists(keys, m.Keys)
  {
    keys := [];
    var todo := m.Keys;
    while todo != {}
      invariant todo <= m.Keys && Lists(keys, m.Keys - todo)
      decreases todo
    {
      var k :| k in todo;
      keys := keys + [k];
      todo := todo - {k};
    }
  }
}
