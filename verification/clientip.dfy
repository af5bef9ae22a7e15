/** The proxy walk of core/ratelimit/ratelimit.go: which address a request is charged to.
    A CIDR prefix is modelled by its membership test on address texts, false for texts
    that do not parse; `remote` is the peer's address with its port stripped. */
module ClientIp {
  import opened Text

  type Prefix = string -> bool

  method IpInPrefixes(ip: string, prefixes: seq<Prefix>) returns (found: bool)
    ensures found == Trusted(ip, prefixes)
  {
    for i := 0 to |prefixes|
      invariant forall j :: 0 <= j < i ==> !prefixes[j](ip)
    {
      if prefixes[i](ip) {
        return true;
      }
    }
    found := false;
  }

  predicate Trusted(ip: string, prefixes: seq<Prefix>) {
    exists i :: 0 <= i < |prefixes| && prefixes[i](ip)
  }

  predicate Candidate(part: string, prefixes: seq<Prefix>) {
    TrimSpace(part) != "" && !Trusted(TrimSpace(part), prefixes)
  }

  /** The last non-empty entry that no trusted proxy owns. */
  ghost predicate Rightmost(parts: seq<string>, prefixes: seq<Prefix>, i: nat) {
    && i < |parts| && Candidate(parts[i], prefixes)
    && forall j :: i < j < |parts| ==> !Candidate(parts[j], prefixes)
  }

  /** What the documentation promises: the peer itself unless it is a trusted proxy that
      forwards for someone; then the rightmost untrusted entry; failing that, the
      leftmost entry, or the peer if that is blank. */
  ghost predicate Attributed(remote: string, xff: string, prefixes: seq<Prefix>, ip: string) {
    var parts := Split(xff, ',');
    if !Trusted(remote, prefixes) || xff == "" then ip == remote
    else if exists i: nat :: Rightmost(parts, prefixes, i) then
      exists i: nat :: Rightmost(parts, prefixes, i) && ip == TrimSpace(parts[i])
    else ip == if TrimSpace(parts[0]) != "" then TrimSpace(parts[0]) else remote
  }

  method ClientIP(remote: string, xff: string, trustedProxies: seq<Prefix>) returns (ip: string)
    ensures Attributed(remote, xff, trustedProxies, ip)
  {
    if |trustedProxies| == 0 {
      return remote;
    }
    var peer := IpInPrefixes(remote, trustedProxies);
    if !peer || xff == "" {
      return remote;
    }
    var parts := Split(xff, ',');
    var i := |parts| - 1;
    while i >= 0
      invariant -1 <= i < |parts|
      invariant forall j :: i < j < |parts| ==> !Candidate(parts[j], trustedProxies)
    {
      var candidate := TrimSpace(parts[i]);
      if candidate != "" {
        var trusted := IpInPrefixes(candidate, trustedProxies);
        if !trusted {
          assert Rightmost(parts, trustedProxies, i);
          return candidate;
        }
      }
      i := i - 1;
    }
    var first := TrimSpace(parts[0]);
    ip := if first != "" then first else remote;
  }

  /** The attribution is unique, so the method computes it. */
  lemma AttributedIsUnique(remote: string, xff: string, prefixes: seq<Prefix>, a: string, b: string)
    requires Attributed(remote, xff, prefixes, a) && Attributed(remote, xff, prefixes, b)
    ensures a == b
  {
    var parts := Split(xff, ',');
    forall i: nat, j: nat | Rightmost(parts, prefixes, i) && Rightmost(parts, prefixes, j) ensures i == j {
    }
  }

  /** A client cannot move the attribution by what it puts in front: once a trusted peer
      reports a non-empty untrusted entry, entries prepended on the left change nothing. */
  lemma {:induction false} PrependingNeverMatters(remote: string, forged: string, xff: string, prefixes: seq<Prefix>,
                                                  i: nat, ip: string)
    requires Trusted(remote, prefixes) && Rightmost(Split(xff, ','), prefixes, i)
    ensures Attributed(remote, xff, prefixes, ip) <==> ip == TrimSpace(Split(xff, ',')[i])
    ensures Attributed(remote, forged + "," + xff, prefixes, ip) <==> Attributed(remote, xff, prefixes, ip)
  {
    hide Split, Candidate, TrimSpace;
    NothingForwarded(prefixes);
    var parts := Split(xff, ',');
    SplitConcat(forged, xff, ',');
    ShiftRightmost(Split(forged, ','), parts, prefixes, i);
  }

  lemma NothingForwarded(prefixes: seq<Prefix>)
    ensures forall i: nat :: !Rightmost(Split("", ','), prefixes, i)
  {
    assert Split("", ',') == [""] && TrimSpace("") == "";
  }

  lemma ShiftRightmost(front: seq<string>, parts: seq<string>, prefixes: seq<Prefix>, i: nat)
    requires Rightmost(parts, prefixes, i)
    ensures Rightmost(front + parts, prefixes, |front| + i)
    ensures (front + parts)[|front| + i] == parts[i]
  {
    hide Candidate;
    forall j | |front| + i < j < |front + parts| ensures !Candidate((front + parts)[j], prefixes) {
      assert (front + parts)[j] == parts[j - |front|];
    }
  }
}
