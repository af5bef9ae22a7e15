/** core/idempotency/cache.go: the per-endpoint Idempotency-Key cache.
    `CacheState` is its abstract value, and the class below keeps the response
    bodies in arrays of its own, as the program does. Times are nanoseconds. */
module Idempotency {
  import opened Sequences
  import opened Lru

  newtype byte = b: int | 0 <= b < 256

  datatype Response = Response(status: int, body: seq<byte>, contentType: string)

  datatype Entry = Entry(response: Response, expires: int)

  datatype LookupResult = Replay(response: Response) | InFlight | Miss

  datatype CacheState = CacheState(lru: Lru<Entry>, inflight: set<Key>, ttl: int) {
    predicate Valid() {
      lru.Valid() && ttl > 0
    }

    /** A resident entry that has not expired. */
    predicate Fresh(key: Key, now: int) {
      key in lru.entries && now < lru.entries[key].expires
    }

    function LookupAnswer(key: Key, now: int): LookupResult {
      if key in inflight then InFlight
      else if Fresh(key, now) then Replay(lru.entries[key].response)
      else Miss
    }

    /** A hit is promoted, an expired entry is dropped. */
    function AfterLookup(key: Key, now: int): CacheState {
      if key in inflight then this
      else if Fresh(key, now) then this.(lru := lru.Touch(key))
      else this.(lru := lru.Remove(key))
    }

    predicate CanClaim(key: Key, now: int) {
      key !in inflight && !Fresh(key, now)
    }

    /** Any resident entry is promoted by the check, even an expired one, which stays. */
    function AfterClaim(key: Key, now: int): CacheState {
      if key in inflight then this
      else this.(lru := lru.Touch(key), inflight := if Fresh(key, now) then inflight else inflight + {key})
    }

    function AfterStore(key: Key, response: Response, now: int): CacheState {
      this.(lru := lru.Add(key, Entry(response, now + ttl)), inflight := inflight - {key})
    }

    function AfterAbandon(key: Key): CacheState {
      this.(inflight := inflight - {key})
    }
  }

  /** What a lookup answers and leaves, in terms of the entries alone: a claimed key is left
      alone, a live entry is replayed and becomes the newest, an expired one is dropped, and no
      other key is touched. */
  lemma LookupEffects(c: CacheState, key: Key, now: int)
    requires c.Valid()
    ensures var d, e := c.AfterLookup(key, now), c.lru.entries;
            && d.Valid() && d.inflight == c.inflight && d.ttl == c.ttl
            && SameOrder(c.lru, d.lru, key)
            && match c.LookupAnswer(key, now) {
                 case InFlight => key in c.inflight && d == c
                 case Replay(r) =>
                   && key !in c.inflight && key in e && e[key].response == r && now < e[key].expires
                   && d.lru.entries == e && Newest(d.lru, key)
                 case Miss =>
                   && key !in c.inflight && (key in e ==> e[key].expires <= now)
                   && d.lru.entries == e - {key}
               }
  {
    hide NoDup, Elements, SameOrder;
    OpsValid(c.lru, key, Entry(Response(0, [], ""), 0));
    OrderKept(c.lru, key);
  }

  /** A claim is won exactly when the key is neither claimed nor has a live entry; it drops
      nothing, and the check makes a resident entry the newest. */
  lemma ClaimEffects(c: CacheState, key: Key, now: int)
    requires c.Valid()
    ensures var d, e := c.AfterClaim(key, now), c.lru.entries;
            var won := key !in c.inflight && (key in e ==> e[key].expires <= now);
            && d.Valid() && d.ttl == c.ttl && d.lru.entries == e
            && c.CanClaim(key, now) == won
            && d.inflight == (if won then c.inflight + {key} else c.inflight)
            && (key in c.inflight ==> d == c)
            && (key !in c.inflight && key in e ==> Newest(d.lru, key))
            && SameOrder(c.lru, d.lru, key)
  {
    hide NoDup, Elements, SameOrder;
    OpsValid(c.lru, key, Entry(Response(0, [], ""), 0));
    OrderKept(c.lru, key);
  }

  /** A store keeps the response under its key for one lifetime, gives up the claim of that key
      alone, and loses at most the least recently used other entry. */
  lemma StoreEffects(c: CacheState, key: Key, r: Response, now: int)
    requires c.Valid()
    ensures var d, e := c.AfterStore(key, r, now), c.lru.entries;
            var gone := e.Keys - d.lru.entries.Keys;
            && d.Valid() && d.ttl == c.ttl && d.inflight == c.inflight - {key}
            && key in d.lru.entries && d.lru.entries[key] == Entry(r, now + c.ttl) && Newest(d.lru, key)
            && (forall x <- d.lru.entries.Keys :: x != key ==> x in e && d.lru.entries[x] == e[x])
            && (gone == {} || (key !in e && |e| == c.lru.capacity && gone == {c.lru.recency[0]}))
  {
    hide NoDup, Elements;
    var v := Entry(r, now + c.ttl);
    OpsValid(c.lru, key, v);
    AddDrops(c.lru, key, v);
    forall x | x in c.lru.Add(key, v).entries.Keys && x != key
      ensures x in c.lru.entries && c.lru.Add(key, v).entries[x] == c.lru.entries[x]
    {
      AddValues(c.lru, key, v, x);
    }
  }

  lemma AddDrops<V>(l: Lru<V>, key: Key, v: V)
    requires l.Valid()
    ensures var gone := l.entries.Keys - l.Add(key, v).entries.Keys;
            gone == {} || (key !in l.entries && |l.entries| == l.capacity && gone == {l.recency[0]})
    ensures Newest(l.Add(key, v), key)
    ensures key in l.Add(key, v).entries && l.Add(key, v).entries[key] == v
  {
    hide Without, NoDup;
    NoDupSize(l.recency);
    hide Elements;
    AddValues(l, key, v, key);
    var gone := l.entries.Keys - l.Add(key, v).entries.Keys;
    assert gone == {} || (key !in l.entries && |l.recency| == l.capacity && gone <= {l.recency[0]});
  }

  predicate Newest<V>(l: Lru<V>, key: Key) {
    l.recency != [] && l.recency[|l.recency| - 1] == key
  }

  /** The keys other than `key` keep their order. */
  predicate SameOrder<V>(l: Lru<V>, m: Lru<V>, key: Key) {
    Without(l.recency, key) == Without(m.recency, key)
  }

  lemma OrderKept<V>(l: Lru<V>, key: Key)
    ensures SameOrder(l, l.Touch(key), key) && SameOrder(l, l.Remove(key), key) && SameOrder(l, l, key)
  {
    WithoutAppend(Without(l.recency, key), key, key);
  }

  /** An entry as the cache holds it: the body is an array nobody else can reach. */
  datatype Slot = Slot(status: int, body: array<byte>, contentType: string, expires: int)

  /** A response as callers hold it, with a body array of their own. */
  datatype Held = Held(status: int, body: array<byte>, contentType: string)

  ghost function ValueOf(h: Held): Response
    reads h.body
  {
    Response(h.status, h.body[..], h.contentType)
  }

  datatype Lookup = Found(response: Held) | Claimed | Absent

  ghost function AnswerOf(r: Lookup): LookupResult
    reads if r.Found? then {r.response.body} else {}
  {
    match r
    case Found(h) => Replay(ValueOf(h))
    case Claimed => InFlight
    case Absent => Miss
  }

  method Clone(a: array<byte>) returns (b: array<byte>)
    ensures fresh(b) && b[..] == a[..]
  {
    b := new byte[a.Length];
    forall i | 0 <= i < a.Length {
      b[i] := a[i];
    }
  }

  ghost function EntryOf(s: Slot): Entry
    reads s.body
  {
    Entry(Response(s.status, s.body[..], s.contentType), s.expires)
  }

  /** The slots of l, whose bodies all lie in `owned`, say what c says. */
  ghost predicate Represents(l: Lru<Slot>, c: Lru<Entry>, owned: set<array<byte>>)
    reads owned
  {
    && l.capacity == c.capacity && l.recency == c.recency && l.entries.Keys == c.entries.Keys
    && forall k <- l.entries.Keys :: l.entries[k].body in owned && EntryOf(l.entries[k]) == c.entries[k]
  }

  lemma LookupRepresents(l: Lru<Slot>, c: Lru<Entry>, owned: set<array<byte>>, k: Key)
    requires Represents(l, c, owned) && c.Valid()
    ensures Represents(l.Touch(k), c.Touch(k), owned) && c.Touch(k).Valid()
    ensures Represents(l.Remove(k), c.Remove(k), owned) && c.Remove(k).Valid()
    ensures k in c.entries ==> Represents(l.Touch(k).Remove(k), c.Remove(k), owned)
    ensures k !in c.entries ==> c.Remove(k) == c
  {
    if k in c.entries {
      OpsValid(c, k, c.entries[k]);
      TouchThenRemove(l, k);
    } else {
      assert k !in Elements(c.recency);
    }
  }

  lemma StoreRepresents(l: Lru<Slot>, c: Lru<Entry>, owned: set<array<byte>>, k: Key, s: Slot)
    requires Represents(l, c, owned) && c.Valid()
    ensures Represents(l.Add(k, s), c.Add(k, EntryOf(s)), owned + {s.body}) && c.Add(k, EntryOf(s)).Valid()
  {
    hide NoDup, Elements, Without;
    OpsValid(c, k, EntryOf(s));
  }

  class Cache {
    var lru: Lru<Slot>
    var inflight: set<Key>
    const ttl: int
    ghost var contents: Lru<Entry>
    ghost var owned: set<array<byte>>

    ghost predicate Valid()
      reads this, owned
    {
      ttl > 0 && contents.Valid() && Represents(lru, contents, owned)
    }

    ghost function State(): CacheState
      reads this
    {
      CacheState(contents, inflight, ttl)
    }

    constructor (capacity: nat, ttl: int)
      requires capacity > 0 && ttl > 0
      ensures Valid() && owned == {}
      ensures State() == CacheState(Empty(capacity), {}, ttl)
    {
      this.lru := Empty(capacity);
      this.inflight := {};
      this.ttl := ttl;
      this.contents := Empty(capacity);
      this.owned := {};
    }

    /** The program's New: a non-positive capacity or lifetime is an error. */
    static method New(capacity: int, ttl: int) returns (c: Cache?)
      ensures c == null <==> capacity <= 0 || ttl <= 0
      ensures c != null ==> fresh(c) && c.Valid() && c.owned == {} && c.State() == CacheState(Empty(capacity), {}, ttl)
    {
      if capacity <= 0 || ttl <= 0 {
        return null;
      }
      c := new Cache(capacity, ttl);
    }

    method Lookup(key: Key, now: int) returns (r: Lookup)
      requires Valid()
      modifies this`lru, this`contents
      ensures Valid()
      ensures State() == old(State()).AfterLookup(key, now)
      ensures r.Found? ==> fresh(r.response.body)
      ensures AnswerOf(r) == old(State()).LookupAnswer(key, now)
    {
      hide NoDup, Elements, Without;
      if key in inflight {
        return Claimed;
      }
      LookupRepresents(lru, contents, owned, key);
      if key in lru.entries {
        var e := lru.entries[key];
        lru, contents := lru.Touch(key), contents.Touch(key);
        if now < e.expires {
          var body := Clone(e.body);
          return Found(Held(e.status, body, e.contentType));
        }
        lru, contents := lru.Remove(key), old(contents).Remove(key);
      }
      r := Absent;
    }

    method ClaimInFlight(key: Key, now: int) returns (claimed: bool)
      requires Valid()
      modifies this`lru, this`contents, this`inflight
      ensures Valid()
      ensures claimed == old(State()).CanClaim(key, now)
      ensures State() == old(State()).AfterClaim(key, now)
    {
      hide NoDup, Elements, Without;
      if key in inflight {
        return false;
      }
      LookupRepresents(lru, contents, owned, key);
      if key in lru.entries {
        var e := lru.entries[key];
        lru, contents := lru.Touch(key), contents.Touch(key);
        if now < e.expires {
          return false;
        }
      }
      inflight := inflight + {key};
      claimed := true;
    }

    /** The cache keeps a copy: the caller's array never becomes one of its own. */
    method Store(key: Key, resp: Held, now: int)
      requires Valid()
      modifies this
      ensures Valid() && fresh(owned - old(owned)) && old(owned) <= owned
      ensures State() == old(State()).AfterStore(key, ValueOf(resp), now)
    {
      hide NoDup, Elements, Without, Lru.Add;
      var body := Clone(resp.body);
      var slot := Slot(resp.status, body, resp.contentType, now + ttl);
      StoreRepresents(lru, contents, owned, key, slot);
      lru, contents := lru.Add(key, slot), contents.Add(key, EntryOf(slot));
      owned := owned + {body};
      inflight := inflight - {key};
    }

    method Abandon(key: Key)
      requires Valid()
      modifies this`inflight
      ensures Valid()
      ensures State() == old(State()).AfterAbandon(key)
    {
      inflight := inflight - {key};
    }
  }
}
