/** The recording response writer of core/gateway/handler.go, the finalizer that stores
    what it saw, and the replay of a stored response. */
module Recorder {
  import opened Lru
  import opened Idempotency
  import Gateway

  // --- What a handler does to a response writer, as values -----------------------------

  datatype Call = SetContentType(value: string) | WriteHeader(code: int) | Write(bytes: seq<byte>)

  /** A response as far as it has been written: `contentType` is fixed with the status. */
  datatype Written = Written(header: string, committed: bool, status: int, contentType: string, body: seq<byte>) {
    function Commit(code: int): Written {
      if committed then this else this.(committed := true, status := code, contentType := header)
    }

    function After(c: Call): Written {
      match c
      case SetContentType(v) => this.(header := v)
      case WriteHeader(code) => Commit(code)
      case Write(b) => var w := Commit(Gateway.STATUS_OK); w.(body := w.body + b)
    }
  }

  const NOTHING := Written("", false, 0, "", [])

  function Play(calls: seq<Call>): Written {
    if calls == [] then NOTHING else Play(calls[..|calls| - 1]).After(calls[|calls| - 1])
  }

  /** The bytes of all the writes, in order. */
  function AllBytes(calls: seq<Call>): seq<byte> {
    if calls == [] then []
    else (if calls[0].Write? then calls[0].bytes else []) + AllBytes(calls[1..])
  }

  /** Position of the first call that sends the header, or the end. */
  function CommitPoint(calls: seq<Call>): (i: nat)
    ensures i <= |calls|
    ensures i < |calls| ==> !calls[i].SetContentType?
    ensures forall j :: 0 <= j < i ==> calls[j].SetContentType?
  {
    if calls == [] || !calls[0].SetContentType? then 0 else 1 + CommitPoint(calls[1..])
  }

  /** First status wins (a bare write means 200), the type is the one set last before it,
      and the body is the concatenation of every write. */
  lemma {:induction false} PlayIsFirstStatusAllBytes(calls: seq<Call>)
    ensures var w, i := Play(calls), CommitPoint(calls);
            && w.body == AllBytes(calls)
            && w.committed == (i < |calls|)
            && (i < |calls| ==>
                  && w.status == (if calls[i].WriteHeader? then calls[i].code else 200)
                  && w.contentType == (if i == 0 then "" else calls[i - 1].value))
            && (i == |calls| ==> w.status == 0 && w.header == (if i == 0 then "" else calls[i - 1].value))
  {
    if calls != [] {
      var pre, last := calls[..|calls| - 1], calls[|calls| - 1];
      PlayIsFirstStatusAllBytes(pre);
      BytesAppend(pre, last);
      CommitAppend(pre, last);
      assert calls == pre + [last];
    }
  }

  lemma {:induction false} BytesAppend(calls: seq<Call>, c: Call)
    ensures AllBytes(calls + [c]) == AllBytes(calls) + if c.Write? then c.bytes else []
  {
    var last := if c.Write? then c.bytes else [];
    if calls == [] {
      assert [c][1..] == [] && last + [] == last;
    } else {
      var first := if calls[0].Write? then calls[0].bytes else [];
      BytesAppend(calls[1..], c);
      assert (calls + [c])[1..] == calls[1..] + [c];
      assert first + (AllBytes(calls[1..]) + last) == (first + AllBytes(calls[1..])) + last;
    }
  }

  lemma {:induction false} CommitAppend(calls: seq<Call>, c: Call)
    ensures CommitPoint(calls + [c]) ==
            if CommitPoint(calls) < |calls| || !c.SetContentType? then CommitPoint(calls) else |calls| + 1
  {
    if calls == [] {
      assert [c][1..] == [];
    } else {
      CommitAppend(calls[1..], c);
      assert (calls + [c])[1..] == calls[1..] + [c];
    }
  }

  function ReplayCalls(r: Response): seq<Call> {
    (if r.contentType != "" then [SetContentType(r.contentType)] else []) + [WriteHeader(r.status), Write(r.body)]
  }

  function ResponseOf(w: Written): Response {
    Response(w.status, w.body, w.contentType)
  }

  /** Replaying a recorded response writes the same status, type and bytes again. */
  lemma ReplayWritesTheSame(r: Response)
    ensures Play(ReplayCalls(r)).committed && ResponseOf(Play(ReplayCalls(r))) == r
  {
    var header, bytes := WriteHeader(r.status), Write(r.body);
    var start := if r.contentType != "" then [SetContentType(r.contentType)] else [];
    assert ReplayCalls(r) == (start + [header]) + [bytes];
    PlayAppend(start + [header], bytes);
    PlayAppend(start, header);
    if r.contentType != "" {
      assert start == [] + start;
      PlayAppend([], start[0]);
    }
  }

  lemma {:induction false} PlayAppend(calls: seq<Call>, c: Call)
    ensures Play(calls + [c]) == Play(calls).After(c)
  {
    assert (calls + [c])[..|calls|] == calls;
  }

  // --- The writers -------------------------------------------------------------------------

  /** The connection's own writer, as far as the handler can tell. */
  class ResponseWriter {
    var sent: Written

    constructor ()
      ensures sent == NOTHING
    {
      sent := NOTHING;
    }

    method SetContentType(v: string)
      modifies this
      ensures sent == old(sent).After(Call.SetContentType(v))
    {
      sent := sent.(header := v);
    }

    method WriteHeader(code: int)
      modifies this
      ensures sent == old(sent).After(Call.WriteHeader(code))
    {
      sent := sent.Commit(code);
    }

    method Write(b: seq<byte>)
      modifies this
      ensures sent == old(sent).After(Call.Write(b))
    {
      sent := sent.Commit(Gateway.STATUS_OK);
      sent := sent.(body := sent.body + b);
    }
  }

  class RecordingResponseWriter {
    const under: ResponseWriter
    var status: int
    var contentType: string
    var body: seq<byte>
    var headerWritten: bool

    /** The record is what the connection was given. */
    ghost predicate Valid()
      reads this, under
    {
      Written(under.sent.header, headerWritten, status, contentType, body) == under.sent
    }

    constructor (w: ResponseWriter)
      requires w.sent == NOTHING
      ensures under == w && Valid()
    {
      under := w;
      status, contentType, body, headerWritten := 0, "", [], false;
    }

    method WriteHeader(code: int)
      requires Valid()
      modifies this, under
      ensures Valid() && under.sent == old(under.sent).After(Call.WriteHeader(code))
    {
      if headerWritten {
        return;
      }
      headerWritten := true;
      status := code;
      contentType := under.sent.header;
      under.WriteHeader(code);
    }

    method Write(b: seq<byte>)
      requires Valid()
      modifies this, under
      ensures Valid() && under.sent == old(under.sent).After(Call.Write(b))
    {
      if !headerWritten {
        this.WriteHeader(Gateway.STATUS_OK);
      }
      body := body + b;
      under.Write(b);
    }
  }

  method ToArray(s: seq<byte>) returns (a: array<byte>)
    ensures fresh(a) && a[..] == s
  {
    a := new byte[|s|](i requires 0 <= i < |s| => s[i]);
  }

  /** Runs when the handler returns: 200 and 422 are stored, anything else is abandoned. */
  method FinalizeIdempotent(cache: Cache, idemKey: Key, rw: RecordingResponseWriter, now: int)
    requires cache.Valid() && rw.Valid()
    modifies cache
    ensures cache.Valid()
    ensures cache.State() ==
            if rw.under.sent.status in {200, 422}
            then old(cache.State()).AfterStore(idemKey, ResponseOf(rw.under.sent), now)
            else old(cache.State()).AfterAbandon(idemKey)
  {
    if rw.status != Gateway.STATUS_OK && rw.status != Gateway.STATUS_UNPROCESSABLE {
      cache.Abandon(idemKey);
      return;
    }
    var view := ToArray(rw.body);
    cache.Store(idemKey, Held(rw.status, view, rw.contentType), now);
  }

  method ReplayCachedResponse(w: ResponseWriter, r: Held)
    requires w.sent == NOTHING
    modifies w
    ensures w.sent.committed && ResponseOf(w.sent) == ValueOf(r)
  {
    if r.contentType != "" {
      w.SetContentType(r.contentType);
    }
    w.WriteHeader(r.status);
    w.Write(r.body[..]);
  }

  /** What was stored is what every lookup within its lifetime answers. */
  lemma StoredIsReplayed(c: CacheState, k: Key, v: Response, now: int, later: int)
    requires c.Valid() && now <= later < now + c.ttl
    ensures var s := c.AfterStore(k, v, now);
            && s.LookupAnswer(k, later) == Replay(v)
            && s.AfterLookup(k, later).LookupAnswer(k, later) == Replay(v)
  {
    hide Without;
    AddValues(c.lru, k, Entry(v, now + c.ttl), k);
  }

  /** A handler's calls, made on the recorder; the type is set on the headers it shares. */
  method Drive(rw: RecordingResponseWriter, calls: seq<Call>)
    requires rw.Valid() && rw.under.sent == NOTHING
    modifies rw, rw.under
    ensures rw.Valid() && rw.under.sent == Play(calls)
  {
    for i := 0 to |calls|
      invariant rw.Valid() && rw.under.sent == Play(calls[..i])
    {
      assert calls[..i + 1] == calls[..i] + [calls[i]];
      PlayAppend(calls[..i], calls[i]);
      match calls[i]
      case SetContentType(v) => rw.under.SetContentType(v);
      case WriteHeader(code) => rw.WriteHeader(code);
      case Write(b) => rw.Write(b);
    }
    assert calls[..|calls|] == calls;
  }

  /** A whole keyed request, then a repeat of it within the lifetime: the repeat writes the
      first response again, status, type and every byte; a response that is not cached leaves
      only a released claim. */
  method RecordThenReplay(c: Cache, key: Key, calls: seq<Call>, now: int, later: int, w: ResponseWriter, again: ResponseWriter)
    requires c.Valid() && now <= later < now + c.ttl
    requires w != again && w.sent == again.sent == NOTHING
    modifies c, w, again
    ensures c.Valid() && w.sent == Play(calls) && w.sent.body == AllBytes(calls)
    ensures if Play(calls).status in {200, 422}
            then again.sent.committed && ResponseOf(again.sent) == ResponseOf(w.sent)
            else again.sent == NOTHING && c.State() == old(c.State()).AfterAbandon(key)
  {
    hide Play, ReplayCalls, CacheState.AfterStore, CacheState.AfterLookup, CacheState.LookupAnswer;
    var rw := new RecordingResponseWriter(w);
    PlayIsFirstStatusAllBytes(calls);
    Drive(rw, calls);
    StoredIsReplayed(c.State(), key, ResponseOf(w.sent), now, later);
    FinalizeIdempotent(c, key, rw, now);
    if !Gateway.Cacheable(rw.status) {
      return;
    }
    var hit := c.Lookup(key, later);
    ReplayCachedResponse(again, hit.response);
  }

  /** Store, then replay twice, while the caller scribbles over every array it ever
      passed in or got back: both replays write the response as it was stored. */
  method ReplaySurvivesMutation(c: Cache, key: Key, resp: Held, now: int, later: int, noise: byte,
                                w1: ResponseWriter, w2: ResponseWriter)
    requires c.Valid() && resp.body !in c.owned && now <= later < now + c.ttl
    requires w1 != w2 && w1.sent == w2.sent == NOTHING
    modifies c, resp.body, w1, w2
    ensures ResponseOf(w1.sent) == old(ValueOf(resp)) == ResponseOf(w2.sent)
  {
    hide Represents, CacheState.AfterStore, CacheState.AfterLookup, CacheState.LookupAnswer;
    StoredIsReplayed(c.State(), key, ValueOf(resp), now, later);
    c.Store(key, resp, now);
    Scribble(resp.body, noise);
    var first := c.Lookup(key, later);
    ReplayCachedResponse(w1, first.response);
    Scribble(first.response.body, noise);
    var second := c.Lookup(key, later);
    ReplayCachedResponse(w2, second.response);
  }

  /** Its contract promises nothing about a: callers must expect any contents. */
  method Scribble(a: array<byte>, noise: byte)
    modifies a
  {
    forall i | 0 <= i < a.Length {
      a[i] := noise;
    }
  }
}
