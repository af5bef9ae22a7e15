/** The registry of core/metrics/metrics.go: metrics by unique name, scraped in name order. */
module Registry {
  import opened Sequences
  import opened Sorting

  /** A metric as the registry sees it: its name and what it emits at this scrape. */
  datatype Collector = Collector(name: string, text: string)

  function Names(cs: seq<Collector>): seq<string> {
    seq(|cs|, i requires 0 <= i < |cs| => cs[i].name)
  }

  function InsertByName(c: Collector, cs: seq<Collector>): seq<Collector> {
    if cs == [] then [c]
    else if LE(c.name, cs[0].name) then [c] + cs
    else [cs[0]] + InsertByName(c, cs[1..])
  }

  /** The library's stable sort by name. */
  function ByName(cs: seq<Collector>): seq<Collector> {
    if cs == [] then [] else InsertByName(cs[0], ByName(cs[1..]))
  }

  function Texts(cs: seq<Collector>): string {
    if cs == [] then "" else Texts(cs[..|cs| - 1]) + cs[|cs| - 1].text
  }

  class Registry {
    var metrics: seq<Collector>

    ghost predicate Valid()
      reads this
    {
      NoDup(Names(metrics))
    }

    constructor ()
      ensures Valid() && metrics == []
    {
      metrics := [];
    }

    /** Adds a metric unless its name is taken; the program panics then, here ok == false. */
    method Register(c: Collector) returns (ok: bool)
      requires Valid()
      modifies this
      ensures Valid()
      ensures ok <==> c.name !in Names(old(metrics))
      ensures metrics == old(metrics) + if ok then [c] else []
    {
      for i := 0 to |metrics|
        invariant forall j :: 0 <= j < i ==> Names(metrics)[j] != c.name
        invariant metrics == old(metrics)
      {
        if metrics[i].name == c.name {
          assert Names(metrics)[i] == c.name;
          return false;
        }
      }
      metrics := metrics + [c];
      assert Names(metrics) == Names(old(metrics)) + [c.name];
      return true;
    }

    method Emit() returns (out: string)
      requires Valid()
      ensures out == Texts(ByName(metrics))
    {
      var snapshot := ByName(metrics);
      out := "";
      for i := 0 to |snapshot|
        invariant out == Texts(snapshot[..i])
      {
        assert snapshot[..i + 1][..i] == snapshot[..i];
        out := out + snapshot[i].text;
      }
      assert snapshot[..|snapshot|] == snapshot;
    }
  }

  /** Texts are put one after the other, each whole. */
  lemma {:induction false} TextsConcat(a: seq<Collector>, b: seq<Collector>)
    ensures Texts(a + b) == Texts(a) + Texts(b)
  {
    if b == [] {
      assert a + b == a;
    } else {
      var front, last := b[..|b| - 1], b[|b| - 1];
      TextsConcat(a, front);
      assert (a + b)[..|a + b| - 1] == a + front && (a + b)[|a + b| - 1] == last;
    }
  }

  /** A scrape shows a metric's own text between those of the metrics named before it and those
      named after it. */
  lemma ScrapeShowsEach(cs: seq<Collector>, c: Collector) returns (before: seq<Collector>, after: seq<Collector>)
    requires NoDup(Names(cs)) && c in cs
    ensures Texts(ByName(cs)) == Texts(before) + c.text + Texts(after)
    ensures multiset(before) + multiset{c} + multiset(after) == multiset(cs)
    ensures (forall b <- before :: LE(b.name, c.name) && b.name != c.name)
    ensures (forall a <- after :: LE(c.name, a.name) && a.name != c.name)
  {
    hide ByName, LE, NoDup;
    var all := ByName(cs);
    ByNameMembers(cs);
    var i :| 0 <= i < |all| && all[i] == c;
    before, after := all[..i], all[i + 1..];
    assert all == before + [c] + after;
    TextsConcat(before + [c], after);
    TextsConcat(before, [c]);
    OneText(c);
    ScrapeInNameOrder(cs);
    InNameOrder(all, i);
  }

  lemma OneText(c: Collector)
    ensures Texts([c]) == c.text
  {
    assert [c][..0] == [] && Texts([]) == "";
  }

  lemma InNameOrder(all: seq<Collector>, i: nat)
    requires Sorted(Names(all)) && NoDup(Names(all)) && i < |all|
    ensures forall b <- all[..i] :: LE(b.name, all[i].name) && b.name != all[i].name
    ensures forall a <- all[i + 1..] :: LE(all[i].name, a.name) && a.name != all[i].name
  {
    hide LE;
    var names := Names(all);
    forall b | b in all[..i] ensures LE(b.name, all[i].name) && b.name != all[i].name {
      var j :| 0 <= j < i && all[j] == b;
      assert LE(names[j], names[i]) && names[j] != names[i];
    }
    forall a | a in all[i + 1..] ensures LE(all[i].name, a.name) && a.name != all[i].name {
      var j :| i < j < |all| && all[j] == a;
      assert LE(names[i], names[j]) && names[i] != names[j];
    }
  }

  lemma {:induction false} InsertNames(c: Collector, cs: seq<Collector>)
    ensures Names(InsertByName(c, cs)) == Insert(c.name, Names(cs))
  {
    hide LE;
    if cs != [] {
      InsertNames(c, cs[1..]);
      assert Names(cs)[1..] == Names(cs[1..]) && Names(cs)[0] == cs[0].name;
      NamesCons(c, cs);
      NamesCons(cs[0], InsertByName(c, cs[1..]));
    }
  }

  lemma NamesCons(c: Collector, cs: seq<Collector>)
    ensures Names([c] + cs) == [c.name] + Names(cs)
  {
  }

  lemma {:induction false} InsertMembers(c: Collector, cs: seq<Collector>)
    ensures multiset(InsertByName(c, cs)) == multiset(cs) + multiset{c}
  {
    hide LE;
    if cs != [] {
      InsertMembers(c, cs[1..]);
      assert cs == [cs[0]] + cs[1..];
    }
  }

  lemma {:induction false} ByNameNames(cs: seq<Collector>)
    ensures Names(ByName(cs)) == Sort(Names(cs)) && multiset(ByName(cs)) == multiset(cs)
  {
    hide InsertByName, Insert;
    if cs != [] {
      ByNameNames(cs[1..]);
      InsertNames(cs[0], ByName(cs[1..]));
      InsertMembers(cs[0], ByName(cs[1..]));
      NamesCons(cs[0], cs[1..]);
      assert cs == [cs[0]] + cs[1..];
    }
  }

  lemma {:induction false} ByNameMembers(cs: seq<Collector>)
    ensures forall c :: c in ByName(cs) <==> c in cs
  {
    ByNameNames(cs);
    forall c ensures c in ByName(cs) <==> c in cs {
      assert c in multiset(ByName(cs)) <==> c in multiset(cs);
    }
  }

  /** A scrape shows the metrics registered, each once, in strictly increasing name order. */
  lemma {:induction false} ScrapeInNameOrder(cs: seq<Collector>)
    requires NoDup(Names(cs))
    ensures multiset(ByName(cs)) == multiset(cs) && Sorted(Names(ByName(cs))) && NoDup(Names(ByName(cs)))
  {
    hide ByName;
    ByNameNames(cs);
    SortKeeps(Names(cs));
    NameListed(cs);
    PermutedLists(Names(cs), Names(ByName(cs)), NameSet(cs));
  }

  ghost function NameSet(cs: seq<Collector>): set<string> {
    set c | c in cs :: c.name
  }

  lemma NameListed(cs: seq<Collector>)
    requires NoDup(Names(cs))
    ensures Lists(Names(cs), NameSet(cs))
  {
    forall x ensures x in Names(cs) <==> x in NameSet(cs) {
      if x in NameSet(cs) {
        var c :| c in cs && c.name == x;
        var i :| 0 <= i < |cs| && cs[i] == c;
        assert Names(cs)[i] == x;
      }
    }
  }

  /** What a scrape shows does not depend on the order of registration. */
  lemma {:induction false} ScrapeForgetsRegistrationOrder(a: seq<Collector>, b: seq<Collector>)
    requires NoDup(Names(a)) && NoDup(Names(b)) && forall c :: c in a <==> c in b
    ensures ByName(a) == ByName(b)
  {
    hide ByName, Sort, Lists;
    NameListed(a);
    NameListed(b);
    assert NameSet(a) == NameSet(b);
    ListsUpToOrder(Names(a), Names(b), NameSet(a));
    SortForgetsOrder(Names(a), Names(b));
    ByNameNames(a);
    ByNameNames(b);
    ByNameMembers(a);
    ByNameMembers(b);
    var s, t := ByName(a), ByName(b);
    assert |s| == |Names(s)| == |Names(t)| == |t|;
    forall i | 0 <= i < |s| ensures s[i] == t[i] {
      assert s[i] in a && t[i] in a;
      var j :| 0 <= j < |a| && a[j] == s[i];
      var k :| 0 <= k < |a| && a[k] == t[i];
      assert Names(s)[i] == Names(t)[i];
      assert Names(a)[j] == Names(a)[k];
    }
  }
}
