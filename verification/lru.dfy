/** The bounded least-recently-used map that the idempotency cache and the rate
    limiter both rest on: a lookup table plus the keys from oldest to newest use.
    The history lemmas relate it to the plain sequence of uses. */
module Lru {
  import opened Sequences

  type Key = string

  // --- Uses of keys over time -----------------------------------------------

  /** Position of the last use of k in h, or -1. */
  ghost function LastUse(h: seq<Key>, k: Key): (i: int)
    ensures -1 <= i < |h|
  {
    if h == [] then -1
    else if h[|h| - 1] == k then |h| - 1
    else LastUse(h[..|h| - 1], k)
  }

  lemma {:induction false} LastUseIsLast(h: seq<Key>, k: Key)
    ensures LastUse(h, k) >= 0 ==> h[LastUse(h, k)] == k
    ensures forall j :: LastUse(h, k) < j < |h| ==> h[j] != k
    ensures k in h <==> LastUse(h, k) >= 0
  {
    if h != [] && h[|h| - 1] != k {
      LastUseIsLast(h[..|h| - 1], k);
    }
  }

  /** The distinct keys used after the last use of k. */
  ghost function UsedSince(h: seq<Key>, k: Key): set<Key> {
    Elements(h[LastUse(h, k) + 1..])
  }

  lemma {:induction false} LastUseAppend(h: seq<Key>, x: Key, k: Key)
    ensures LastUse(h + [x], k) == if x == k then |h| else LastUse(h, k)
  {
    var g := h + [x];
    assert g[..|h|] == h && g[|g| - 1] == x;
  }

  lemma NoElements()
    ensures Elements([]) == {}
  {
  }

  lemma {:induction false} UseAppend(h: seq<Key>, x: Key, k: Key)
    ensures LastUse(h + [x], k) == if x == k then |h| else LastUse(h, k)
    ensures UsedSince(h + [x], k) == if x == k then {} else UsedSince(h, k) + {x}
  {
    hide LastUse, Elements;
    var g := h + [x];
    LastUseAppend(h, x, k);
    if x == k {
      assert g[|h| + 1..] == [];
      NoElements();
    } else {
      assert g[LastUse(h, k) + 1..] == h[LastUse(h, k) + 1..] + [x];
      ElementsAppend(h[LastUse(h, k) + 1..], x);
    }
  }

  lemma ElementsAppend(s: seq<Key>, x: Key)
    ensures Elements(s + [x]) == Elements(s) + {x}
  {
  }

  lemma {:induction false} UsedSinceContains(h: seq<Key>, k: Key, x: Key)
    requires LastUse(h, k) < LastUse(h, x)
    ensures x in UsedSince(h, k)
  {
    hide LastUse;
    LastUseIsLast(h, x);
    var i := LastUse(h, k) + 1;
    assert h[i..][LastUse(h, x) - i] == x;
  }

  lemma {:induction false} UsedSinceIsNewer(h: seq<Key>, k: Key, x: Key)
    requires x in UsedSince(h, k)
    ensures x in h && x != k && LastUse(h, k) < LastUse(h, x)
  {
    hide LastUse;
    LastUseIsLast(h, k);
    LastUseIsLast(h, x);
    var i := LastUse(h, k) + 1;
    var j :| 0 <= j < |h[i..]| && h[i..][j] == x;
    assert h[i + j] == x;
  }

  // --- Duplicate-free sequences ---------------------------------------------

  function Elements(s: seq<Key>): set<Key> {
    set x | x in s
  }

  lemma {:induction false} NoDupSize(s: seq<Key>)
    requires NoDup(s)
    ensures |Elements(s)| == |s|
  {
    if s == [] {
    } else {
      var t := s[..|s| - 1];
      NoDupSize(t);
      assert s == t + [s[|s| - 1]];
      assert Elements(s) == Elements(t) + {s[|s| - 1]};
    }
  }

  /** s with every k removed. */
  function Without(s: seq<Key>, k: Key): (r: seq<Key>)
    ensures forall x :: x in r <==> x in s && x != k
    ensures k !in s ==> r == s
  {
    if s == [] then []
    else if s[0] == k then Without(s[1..], k)
    else [s[0]] + Without(s[1..], k)
  }

  lemma TailOrdered(s: seq<Key>, h: seq<Key>)
    requires s != [] && NoDup(s) && Ordered(s, h)
    ensures NoDup(s[1..]) && Ordered(s[1..], h)
    ensures s[0] !in s[1..]
  {
    hide LastUse;
  }

  lemma {:induction false} ConsOrdered(x: Key, s: seq<Key>, h: seq<Key>)
    requires NoDup(s) && Ordered(s, h)
    requires forall j :: 0 <= j < |s| ==> LastUse(h, x) < LastUse(h, s[j]) && s[j] != x
    ensures NoDup([x] + s) && Ordered([x] + s, h)
  {
    hide LastUse;
  }

  /** Removal keeps any relation that holds between earlier and later elements. */
  lemma {:induction false} WithoutOrdered(s: seq<Key>, k: Key, h: seq<Key>)
    requires NoDup(s) && Ordered(s, h)
    ensures NoDup(Without(s, k)) && Ordered(Without(s, k), h)
    ensures |Without(s, k)| == |s| - (if k in s then 1 else 0)
  {
    hide LastUse;
    if s != [] {
      var t := s[1..];
      TailOrdered(s, h);
      WithoutOrdered(t, k, h);
      if s[0] != k {
        var r := Without(t, k);
        forall j | 0 <= j < |r| ensures LastUse(h, s[0]) < LastUse(h, r[j]) && r[j] != s[0] {
          assert r[j] in t;
          var i :| 0 <= i < |t| && t[i] == r[j];
          assert s[i + 1] == r[j];
        }
        ConsOrdered(s[0], r, h);
      } else {
        assert k !in t;
      }
    }
  }

  ghost predicate Ordered(s: seq<Key>, h: seq<Key>) {
    forall i, j :: 0 <= i < j < |s| ==> LastUse(h, s[i]) < LastUse(h, s[j])
  }

  // --- The map itself ---------------------------------------------------------

  datatype Lru<V> = Lru(capacity: nat, entries: map<Key, V>, recency: seq<Key>) {
    predicate Valid() {
      && capacity > 0
      && |recency| <= capacity
      && NoDup(recency)
      && Elements(recency) == entries.Keys
    }

    /** Get of a resident key makes it the newest; Get of any other key changes nothing. */
    function Touch(k: Key): Lru<V> {
      if k in entries then this.(recency := Without(recency, k) + [k]) else this
    }

    function Remove(k: Key): Lru<V> {
      this.(entries := entries - {k}, recency := Without(recency, k))
    }

    function Add(k: Key, v: V): Lru<V> {
      if k in entries then
        this.(entries := entries[k := v], recency := Without(recency, k) + [k])
      else if |recency| < capacity || recency == [] then
        this.(entries := entries[k := v], recency := recency + [k])
      else
        this.(entries := entries[k := v] - {recency[0]}, recency := recency[1..] + [k])
    }

    /** New value for a resident key, in place: the limiter writes through the
        pointer that Get returned, which moves nothing. */
    function Overwrite(k: Key, v: V): Lru<V> {
      if k in entries then this.(entries := entries[k := v]) else this
    }

    /** Every resident key was used in h, and older residents were last used earlier. */
    ghost predicate Tracks(h: seq<Key>) {
      && (forall k <- entries.Keys :: k in h)
      && Ordered(recency, h)
    }
  }

  function Empty<V>(capacity: nat): Lru<V> {
    Lru(capacity, map[], [])
  }

  /** A valid map tracks its own recency sequence, so what the lemmas below say of
      structure holds without any history at hand. */
  lemma TracksItself<V>(l: Lru<V>)
    requires l.Valid()
    ensures l.Tracks(l.recency)
  {
    hide LastUse;
    forall i | 0 <= i < |l.recency| ensures LastUse(l.recency, l.recency[i]) == i {
      LastUseIsLast(l.recency, l.recency[i]);
    }
    forall k | k in l.entries.Keys ensures k in l.recency {
      assert k in Elements(l.recency);
    }
  }

  lemma AddIsAddThenOverwrite<V>(l: Lru<V>, k: Key, v: V, w: V)
    requires l.Valid()
    ensures l.Add(k, w) == (if k in l.entries then l.Touch(k) else l.Add(k, v)).Overwrite(k, w)
  {
    if k !in l.entries {
      assert k !in Elements(l.recency);
      assert l.Add(k, w).entries == l.Add(k, v).Overwrite(k, w).entries;
    }
  }

  lemma {:induction false} WithoutAppend(s: seq<Key>, x: Key, k: Key)
    ensures Without(s + [x], k) == Without(s, k) + if x == k then [] else [x]
  {
    if s == [] {
    } else {
      WithoutAppend(s[1..], x, k);
      assert (s + [x])[1..] == s[1..] + [x];
    }
  }

  /** Dropping a key right after promoting it is the same as dropping it. */
  lemma TouchThenRemove<V>(l: Lru<V>, k: Key)
    ensures l.Touch(k).Remove(k) == l.Remove(k)
  {
    WithoutAppend(Without(l.recency, k), k, k);
  }

  lemma OrderedAfterUse(s: seq<Key>, h: seq<Key>, k: Key)
    requires k !in s && Ordered(s, h)
    ensures Ordered(s + [k], h + [k])
  {
    hide LastUse, UsedSince;
    var t := s + [k];
    forall i, j | 0 <= i < j < |t| ensures LastUse(h + [k], t[i]) < LastUse(h + [k], t[j]) {
      assert t[i] == s[i] && t[i] in s;
      UseAppend(h, k, t[i]);
      UseAppend(h, k, t[j]);
      if j < |s| {
        assert t[j] == s[j] && t[j] in s;
      }
    }
  }

  lemma TouchKeeps<V>(l: Lru<V>, h: seq<Key>, k: Key)
    requires l.Valid() && l.Tracks(h)
    ensures l.Touch(k).Valid()
    ensures l.Touch(k).Tracks(if k in l.entries then h + [k] else h)
    ensures l.Touch(k).entries == l.entries && l.Touch(k).capacity == l.capacity
  {
    hide LastUse;
    if k in l.entries {
      WithoutOrdered(l.recency, k, h);
      OrderedAfterUse(Without(l.recency, k), h, k);
      assert Elements(l.Touch(k).recency) == l.entries.Keys;
    }
  }

  lemma RemoveKeeps<V>(l: Lru<V>, h: seq<Key>, k: Key)
    requires l.Valid() && l.Tracks(h)
    ensures l.Remove(k).Valid() && l.Remove(k).Tracks(h)
    ensures l.Remove(k).entries == l.entries - {k} && l.Remove(k).capacity == l.capacity
  {
    hide LastUse;
    WithoutOrdered(l.recency, k, h);
    assert Elements(l.Remove(k).recency) == l.entries.Keys - {k};
  }

  /** If every key of s was used after x, at least |s| distinct keys were used since x. */
  lemma {:induction false} NewerKeys(s: seq<Key>, h: seq<Key>, x: Key)
    requires NoDup(s)
    requires forall y <- s :: LastUse(h, x) < LastUse(h, y)
    ensures |UsedSince(h, x)| >= |s|
  {
    forall y | y in Elements(s) ensures y in UsedSince(h, x) {
      UsedSinceContains(h, x, y);
    }
    NoDupSize(s);
    SubsetSize(Elements(s), UsedSince(h, x));
  }

  /** Add of a new key to a full map pushes out a key with at least `capacity`
      distinct other keys used since its own last use. */
  lemma AddEvicts<V>(l: Lru<V>, h: seq<Key>, k: Key)
    requires l.Valid() && l.Tracks(h) && k !in l.entries && |l.recency| == l.capacity
    ensures |UsedSince(h + [k], l.recency[0])| >= l.capacity
  {
    var x, t := l.recency[0], l.recency[1..] + [k];
    assert k !in Elements(l.recency);
    OrderedAfterUse(l.recency, h, k);
    assert l.recency + [k] == [x] + t;
    assert NoDup(l.recency + [k]);
    forall y | y in t ensures LastUse(h + [k], x) < LastUse(h + [k], y) {
      var j :| 0 <= j < |t| && t[j] == y;
      assert ([x] + t)[j + 1] == y;
    }
    NewerKeys(t, h + [k], x);
  }

  /** r is l with k bound to v and nothing else changed, except that keys with at
      least `capacity` distinct others used since may be gone. */
  ghost predicate Added<V>(l: Lru<V>, r: Lru<V>, h: seq<Key>, k: Key, v: V) {
    && r.capacity == l.capacity
    && k in r.entries && r.entries[k] == v
    && (forall x <- r.entries.Keys :: x == k || (x in l.entries && r.entries[x] == l.entries[x]))
    && (forall x <- l.entries.Keys :: x in r.entries || |UsedSince(h + [k], x)| >= l.capacity)
  }

  lemma AddKeeps<V>(l: Lru<V>, h: seq<Key>, k: Key, v: V)
    requires l.Valid() && l.Tracks(h)
    ensures l.Add(k, v).Valid() && l.Add(k, v).Tracks(h + [k])
    ensures Added(l, l.Add(k, v), h, k, v)
  {
    if k in l.entries {
      TouchKeeps(l, h, k);
      assert l.Add(k, v) == l.Touch(k).(entries := l.entries[k := v]);
    } else {
      assert k !in Elements(l.recency);
      if |l.recency| < l.capacity {
        OrderedAfterUse(l.recency, h, k);
        ElementsAppend(l.recency, k);
      } else {
        AddFull(l, h, k, v);
      }
    }
  }

  lemma TailElements(s: seq<Key>)
    requires s != [] && NoDup(s)
    ensures Elements(s) == {s[0]} + Elements(s[1..]) && s[0] !in Elements(s[1..])
  {
    assert s == [s[0]] + s[1..];
  }

  lemma NewElement(s: seq<Key>, x: Key, k: Key)
    requires NoDup(s) && k !in {x} + Elements(s)
    ensures k !in s && NoDup(s + [k])
  {
    assert k in s ==> k in Elements(s);
  }

  lemma AddFull<V>(l: Lru<V>, h: seq<Key>, k: Key, v: V)
    requires l.Valid() && l.Tracks(h) && k !in l.entries && |l.recency| == l.capacity
    ensures l.Add(k, v).Valid() && l.Add(k, v).Tracks(h + [k])
    ensures Added(l, l.Add(k, v), h, k, v)
  {
    hide LastUse, UsedSince, Without, NoDup, Ordered, Elements;
    var x, s := l.recency[0], l.recency[1..];
    TailOrdered(l.recency, h);
    TailElements(l.recency);
    NewElement(s, x, k);
    OrderedAfterUse(s, h, k);
    ElementsAppend(s, k);
    AddEvicts(l, h, k);
    assert l.Add(k, v) == Lru(l.capacity, l.entries[k := v] - {x}, s + [k]);
  }

  /** Add drops at most one key, and none unless k is new to a full map. */
  lemma AddDropsAtMostOne<V>(l: Lru<V>, k: Key, v: V)
    requires l.Valid()
    ensures var gone := l.entries.Keys - l.Add(k, v).entries.Keys;
            |gone| <= 1 && (gone != {} ==> k !in l.entries && |l.entries| == l.capacity)
  {
    hide LastUse, UsedSince, Ordered, Without;
    var gone := l.entries.Keys - l.Add(k, v).entries.Keys;
    NoDupSize(l.recency);
    if gone != {} {
      assert gone <= {l.recency[0]};
      SubsetSize(gone, {l.recency[0]});
    }
  }

  lemma {:induction false} SubsetSize(a: set<Key>, b: set<Key>)
    requires a <= b
    ensures |a| <= |b|
  {
    if a == {} {
    } else {
      var x :| x in a;
      SubsetSize(a - {x}, b - {x});
    }
  }

  /** What Add leaves under a key x, without any history. */
  lemma AddValues<V>(l: Lru<V>, k: Key, v: V, x: Key)
    requires l.Valid()
    ensures k in l.Add(k, v).entries && l.Add(k, v).entries[k] == v
    ensures x != k && x in l.Add(k, v).entries ==> x in l.entries && l.Add(k, v).entries[x] == l.entries[x]
  {
    assert k !in l.entries ==> k !in Elements(l.recency);
  }

  /** The three operations on a valid map, without any history. */
  lemma OpsValid<V>(l: Lru<V>, k: Key, v: V)
    requires l.Valid()
    ensures l.Touch(k).Valid() && l.Remove(k).Valid() && l.Add(k, v).Valid()
    ensures l.Touch(k).Remove(k) == l.Remove(k)
    ensures k !in l.entries ==> l.Remove(k) == l
  {
    hide LastUse, UsedSince, Ordered;
    TracksItself(l);
    TouchKeeps(l, l.recency, k);
    RemoveKeeps(l, l.recency, k);
    AddKeeps(l, l.recency, k, v);
    TouchThenRemove(l, k);
    assert k !in l.entries ==> k !in Elements(l.recency);
  }

  // --- Without removals, residency is exact -------------------------------------

  /** Every non-resident key of h was last used before every resident one. */
  ghost predicate NewestResident<V>(l: Lru<V>, h: seq<Key>) {
    forall x <- h, k <- l.entries.Keys :: x !in l.entries ==> LastUse(h, x) < LastUse(h, k)
  }

  /** A key of h that is gone had at least `capacity` distinct others used since. */
  ghost predicate GoneCrowded<V>(l: Lru<V>, h: seq<Key>) {
    forall x <- h :: x !in l.entries ==> |UsedSince(h, x)| >= l.capacity
  }

  ghost predicate Exact<V>(l: Lru<V>, h: seq<Key>) {
    l.Valid() && l.Tracks(h) && NewestResident(l, h) && GoneCrowded(l, h)
  }

  /** After uses h with no removal, the resident keys are exactly the keys of h with
      fewer than `capacity` distinct other keys used since: the most recently used ones. */
  lemma ResidentIffRecent<V>(l: Lru<V>, h: seq<Key>, k: Key)
    requires Exact(l, h) && k in h
    ensures k in l.entries <==> |UsedSince(h, k)| < l.capacity
  {
    if k in l.entries {
      var others := l.entries.Keys - {k};
      forall x | x in UsedSince(h, k) ensures x in others {
        UsedSinceIsNewer(h, k, x);
      }
      NoDupSize(l.recency);
      SubsetSize(UsedSince(h, k), others);
    }
  }

  lemma ExactAdd<V>(l: Lru<V>, h: seq<Key>, k: Key, v: V)
    requires Exact(l, h)
    ensures Exact(l.Add(k, v), h + [k])
  {
    AddKeeps(l, h, k, v);
    forall x | x in h + [k] && x !in l.Add(k, v).entries
      ensures |UsedSince(h + [k], x)| >= l.capacity
    {
      UseAppend(h, k, x);
      SubsetSize(UsedSince(h, x), UsedSince(h + [k], x));
    }
    if k in l.entries {
      NewestAfterHit(l, h, k, v);
    } else {
      NewestAfterMiss(l, h, k, v);
    }
  }

  lemma NewestAfterHit<V>(l: Lru<V>, h: seq<Key>, k: Key, v: V)
    requires Exact(l, h) && k in l.entries
    ensures NewestResident(l.Add(k, v), h + [k])
  {
    forall x <- h + [k], y <- l.entries.Keys | x !in l.entries
      ensures LastUse(h + [k], x) < LastUse(h + [k], y)
    {
      UseAppend(h, k, x);
      UseAppend(h, k, y);
    }
  }

  lemma {:induction false} OldestFirst<V>(l: Lru<V>, h: seq<Key>, y: Key)
    requires l.Valid() && l.Tracks(h) && y in l.entries && y != l.recency[0]
    ensures LastUse(h, l.recency[0]) < LastUse(h, y)
  {
    assert y in Elements(l.recency);
    var j :| 0 <= j < |l.recency| && l.recency[j] == y;
    assert j > 0;
  }

  lemma NewestAfterMiss<V>(l: Lru<V>, h: seq<Key>, k: Key, v: V)
    requires Exact(l, h) && k !in l.entries
    ensures NewestResident(l.Add(k, v), h + [k])
  {
    forall x <- h + [k], y <- l.Add(k, v).entries.Keys | x !in l.Add(k, v).entries
      ensures LastUse(h + [k], x) < LastUse(h + [k], y)
    {
      NewerThanGone(l, h, k, v, x, y);
    }
  }

  lemma {:induction false} NewerThanGone<V>(l: Lru<V>, h: seq<Key>, k: Key, v: V, x: Key, y: Key)
    requires Exact(l, h) && k !in l.entries
    requires x in h + [k] && x !in l.Add(k, v).entries && y in l.Add(k, v).entries
    ensures LastUse(h + [k], x) < LastUse(h + [k], y)
  {
    UseAppend(h, k, x);
    UseAppend(h, k, y);
    if x in l.entries && y != k {
      OldestFirst(l, h, y);
    }
  }
}
