/** core/csrf/csrf.go: signed timestamp tokens. Instants and durations are in nanoseconds,
    byte strings hold characters below 256, and the MAC is any function. */
module Csrf {
  import opened Wrappers
  import opened Text
  import opened Numbers
  import U = UriEncode

  type Mac = (string, string) -> string

  type Duration = d: int | IsInt64(d)

  datatype Verdict = Accepted | Missing | Malformed | InvalidSignature | Expired

  const SECOND: int := 1_000_000_000

  /** Seconds from the zero of the clock's own count, year 1, to the Unix epoch. */
  const UNIX_TO_INTERNAL: int := 62_135_596_800

  // --- Hexadecimal ------------------------------------------------------------------------------

  function LowerDigit(n: nat): char
    requires n < 16
  {
    "0123456789abcdef"[n]
  }

  function HexEncode(bytes: string): string
    requires U.IsBytes(bytes)
  {
    if bytes == "" then ""
    else [LowerDigit(bytes[0] as int / 16), LowerDigit(bytes[0] as int % 16)] + HexEncode(bytes[1..])
  }

  /** Decoding accepts digits of either case, in pairs. */
  function HexDecode(s: string): Option<string> {
    if s == "" then Some("")
    else if |s| == 1 then None
    else
      var hi, lo, rest := U.HexValue(s[0]), U.HexValue(s[1]), HexDecode(s[2..]);
      if hi.None? || lo.None? || rest.None? then None
      else Some([(16 * hi.value + lo.value) as char] + rest.value)
  }

  /** Pairs of hexadecimal digits. */
  predicate IsHex(s: string) {
    |s| % 2 == 0 && forall i :: 0 <= i < |s| ==> U.HexValue(s[i]).Some?
  }

  lemma LowerHex(c: char, n: nat)
    requires n < 16
    ensures U.HexValue(c) == Some(n) <==> LowerChar(c) == LowerDigit(n)
  {
  }

  lemma {:induction false} HexDecodes(s: string)
    ensures HexDecode(s).Some? <==> IsHex(s)
    ensures HexDecode(s).Some? ==> U.IsBytes(HexDecode(s).value)
  {
    if |s| >= 2 {
      HexDecodes(s[2..]);
      if HexDecode(s).Some? {
        assert forall i :: 2 <= i < |s| ==> s[i] == s[2..][i - 2];
      }
    }
  }

  /** The texts that decode to given bytes are their encoding, in any mix of cases. */
  lemma {:induction false} HexDecodeIff(s: string, bytes: string)
    requires U.IsBytes(bytes)
    ensures HexDecode(s) == Some(bytes) <==> ToLower(s) == HexEncode(bytes)
  {
    hide U.HexValue, LowerChar, LowerDigit;
    if bytes == "" || |s| < 2 {
      HexLength(bytes);
    } else {
      hide HexDecode;
      var t, b, c := s[2..], bytes[1..], bytes[0] as int;
      HexDecodeIff(t, b);
      LowerHex(s[0], c / 16);
      LowerHex(s[1], c % 16);
      HexDecodeStep(s, bytes);
      assert ToLower(s) == [LowerChar(s[0]), LowerChar(s[1])] + ToLower(t);
      PairsEqual(LowerChar(s[0]), LowerChar(s[1]), ToLower(t), LowerDigit(c / 16), LowerDigit(c % 16), HexEncode(b));
    }
  }

  /** The first two digits decode to the first byte, the rest to the rest. */
  lemma {:induction false} HexDecodeStep(s: string, bytes: string)
    requires U.IsBytes(bytes) && bytes != "" && |s| >= 2
    ensures HexDecode(s) == Some(bytes)
       <==> && U.HexValue(s[0]) == Some(bytes[0] as int / 16) && U.HexValue(s[1]) == Some(bytes[0] as int % 16)
            && HexDecode(s[2..]) == Some(bytes[1..])
  {
    hide U.HexValue;
    assert bytes == [bytes[0]] + bytes[1..];
    var d := HexDecode(s);
    if d == Some(bytes) {
      assert d.value[1..] == bytes[1..] && d.value[0] == bytes[0];
    }
  }

  lemma PairsEqual(a: char, b: char, s: string, c: char, d: char, t: string)
    ensures [a, b] + s == [c, d] + t <==> a == c && b == d && s == t
  {
    var u, v := [a, b] + s, [c, d] + t;
    assert u[0] == a && u[1] == b && u[2..] == s && v[0] == c && v[1] == d && v[2..] == t;
  }

  lemma {:induction false} HexLength(bytes: string)
    requires U.IsBytes(bytes)
    ensures |HexEncode(bytes)| == 2 * |bytes|
  {
    if bytes != "" {
      HexLength(bytes[1..]);
    }
  }

  lemma {:induction false} HexEncodeLower(bytes: string)
    requires U.IsBytes(bytes)
    ensures ToLower(HexEncode(bytes)) == HexEncode(bytes)
  {
    hide LowerDigit, LowerChar, U.HexValue;
    if bytes != "" {
      var hi, lo, e := bytes[0] as int / 16, bytes[0] as int % 16, HexEncode(bytes);
      HexEncodeLower(bytes[1..]);
      LowerHex(LowerDigit(hi), hi);
      LowerHex(LowerDigit(lo), lo);
      LowerDigitHex(hi);
      LowerDigitHex(lo);
      assert ToLower(e) == [LowerChar(e[0]), LowerChar(e[1])] + ToLower(e[2..]);
      assert e[2..] == HexEncode(bytes[1..]);
    }
  }

  lemma LowerDigitHex(n: nat)
    requires n < 16
    ensures U.HexValue(LowerDigit(n)) == Some(n)
  {
  }

  /** Encoding bytes and decoding them back. */
  lemma {:induction false} HexRoundTrip(bytes: string)
    requires U.IsBytes(bytes)
    ensures HexDecode(HexEncode(bytes)) == Some(bytes) && IsHex(HexEncode(bytes))
  {
    HexEncodeLower(bytes);
    HexDecodeIff(HexEncode(bytes), bytes);
    HexDecodes(HexEncode(bytes));
  }

  // --- Time ---------------------------------------------------------------------------------------

  /** The Unix second an instant falls in. */
  function UnixSeconds(t: int): int {
    t / SECOND
  }

  /** The instant built from a count of Unix seconds; the count is kept from year 1, in 64 bits. */
  function FromUnix(seconds: int): int {
    (Wrap64(seconds + UNIX_TO_INTERNAL) - UNIX_TO_INTERNAL) * SECOND
  }

  /** Instants the clock can represent, Unix seconds included. */
  predicate InRange(t: int) {
    IsInt64(UnixSeconds(t)) && IsInt64(UnixSeconds(t) + UNIX_TO_INTERNAL)
  }

  /** The difference of two instants, held to the range of a duration. */
  function Sub(t: int, u: int): int {
    var d := t - u;
    if d < -INT64_LIMIT then -INT64_LIMIT else if d >= INT64_LIMIT then INT64_LIMIT - 1 else d
  }

  /** Whether a token for Unix second `seconds` is young enough: its whole-second age is within the
      time to live, or that is the longest duration. Seconds within 62135596800 of the largest
      64-bit integer wrap around, to instants long past. */
  predicate Young(seconds: int, ttl: Duration, now: int) {
    var wrapped := if seconds + 62_135_596_800 > 0x7FFF_FFFF_FFFF_FFFF then seconds - 0x1_0000_0000_0000_0000 else seconds;
    now - wrapped * 1_000_000_000 <= ttl || ttl == 0x7FFF_FFFF_FFFF_FFFF
  }

  lemma YoungIs(seconds: int, ttl: Duration, now: int)
    requires IsInt64(seconds)
    ensures Young(seconds, ttl, now) <==> Sub(now, FromUnix(seconds)) <= ttl
  {
    hide Wrap64;
    var n := seconds + UNIX_TO_INTERNAL;
    if n >= INT64_LIMIT {
      WrapAround(n);
    } else {
      WrapInRange(n);
    }
    var wrapped := if n > 0x7FFF_FFFF_FFFF_FFFF then seconds - 0x1_0000_0000_0000_0000 else seconds;
    assert FromUnix(seconds) == wrapped * 1_000_000_000;
    SubIs(now, wrapped * 1_000_000_000, ttl);
  }

  lemma SubIs(t: int, u: int, ttl: Duration)
    ensures Sub(t, u) <= ttl <==> t - u <= ttl || ttl == 0x7FFF_FFFF_FFFF_FFFF
  {
    assert IsInt64(ttl);
  }

  lemma WrapAround(n: int)
    requires INT64_LIMIT <= n < 3 * INT64_LIMIT
    ensures Wrap64(n) == n - 2 * INT64_LIMIT
  {
  }

  // --- The tokens ------------------------------------------------------------------------------------

  ghost predicate MacOk(mac: Mac) {
    forall m, k :: U.IsBytes(mac(m, k))
  }

  function Issue(mac: Mac, secret: string, issuedAt: int): string
    requires U.IsBytes(mac(FormatInt(UnixSeconds(issuedAt)), secret))
  {
    var ts := FormatInt(UnixSeconds(issuedAt));
    ts + "." + HexEncode(mac(ts, secret))
  }

  function Verify(mac: Mac, token: string, secret: string, ttl: Duration, now: int): Verdict {
    if token == "" then Missing
    else
      var dot := IndexByte(token, '.');
      if dot < 0 then Malformed
      else
        var ts, sig := token[..dot], token[dot + 1..];
        var seconds := ParseInt(ts);
        if seconds.None? then Malformed
        else
          var got := HexDecode(sig);
          if got.None? then Malformed
          else if got.value != mac(ts, secret) then InvalidSignature
          else if Sub(now, FromUnix(seconds.value)) > ttl then Expired
          else Accepted
  }

  /** The token as the timestamp text and signature text it is read as. */
  ghost predicate Shape(token: string, ts: string, sig: string) {
    token == ts + "." + sig && '.' !in ts
  }

  ghost predicate IsTimestamp(ts: string) {
    IsDecimal(ts) && IsInt64(DecimalValue(ts))
  }

  lemma {:induction false} ShapeIs(token: string, ts: string, sig: string)
    requires Shape(token, ts, sig)
    ensures IndexByte(token, '.') == |ts| && token[..|ts|] == ts && token[|ts| + 1..] == sig
  {
    IndexByteIs(ts, sig, '.');
  }

  /** What each verdict means, over every string. The signature may be written in either
      case; a timestamp in the future is accepted. */
  lemma VerdictIff(mac: Mac, token: string, ts: string, sig: string, secret: string, ttl: Duration, now: int)
    requires MacOk(mac) && Shape(token, ts, sig)
    ensures var v := Verify(mac, token, secret, ttl, now);
            && (v == Malformed <==> !IsTimestamp(ts) || !IsHex(sig))
            && (v == InvalidSignature <==> IsTimestamp(ts) && IsHex(sig) && ToLower(sig) != HexEncode(mac(ts, secret)))
            && (v == Accepted <==> IsTimestamp(ts) && ToLower(sig) == HexEncode(mac(ts, secret))
                                   && Young(DecimalValue(ts), ttl, now))
            && v != Missing
  {
    hide IndexByte, HexDecode, IsHex, IsDecimal, DecimalValue, ToLower, HexEncode, Sub, FromUnix, Young;
    ShapeIs(token, ts, sig);
    if IsTimestamp(ts) {
      YoungIs(DecimalValue(ts), ttl, now);
    }
    HexDecodes(sig);
    HexDecodeIff(sig, mac(ts, secret));
  }

  /** Over every string: what is accepted is a decimal timestamp, a dot, and the MAC of that
      timestamp's text in hexadecimal, no older than the time to live. Missing means empty,
      and malformed anything else that is not a timestamp, a dot and pairs of digits. */
  lemma AcceptedIff(mac: Mac, token: string, secret: string, ttl: Duration, now: int)
    requires MacOk(mac)
    ensures Verify(mac, token, secret, ttl, now) == Accepted
       <==> exists ts, sig :: Shape(token, ts, sig) && IsTimestamp(ts) && ToLower(sig) == HexEncode(mac(ts, secret))
                              && Young(DecimalValue(ts), ttl, now)
    ensures Verify(mac, token, secret, ttl, now) == Missing <==> token == ""
    ensures Verify(mac, token, secret, ttl, now) == Malformed
       <==> token != "" && !exists ts, sig :: Shape(token, ts, sig) && IsTimestamp(ts) && IsHex(sig)
  {
    hide IsDecimal, DecimalValue, ToLower, HexEncode, Sub, FromUnix, IsHex, Young;
    var dot := IndexByte(token, '.');
    if dot >= 0 {
      var ts, sig := token[..dot], token[dot + 1..];
      assert token == ts + "." + sig;
      assert Shape(token, ts, sig);
      VerdictIff(mac, token, ts, sig, secret, ttl, now);
    }
    forall ts, sig | Shape(token, ts, sig) ensures dot == |ts| && ts == token[..dot] && sig == token[dot + 1..] {
      ShapeIs(token, ts, sig);
    }
  }

  lemma IssuedYoung(t: int, ttl: Duration, now: int)
    requires InRange(t)
    ensures Young(UnixSeconds(t), ttl, now)
       <==> now - (t - t % 1_000_000_000) <= ttl || ttl == 0x7FFF_FFFF_FFFF_FFFF
  {
  }

  /** An issued token is accepted until its whole-second age exceeds the time to live, and
      ever after when that is the longest duration there is. */
  lemma IssuedAcceptedIff(mac: Mac, secret: string, issuedAt: int, ttl: Duration, now: int)
    requires MacOk(mac) && InRange(issuedAt)
    ensures Verify(mac, Issue(mac, secret, issuedAt), secret, ttl, now) == Accepted
       <==> now - (issuedAt - issuedAt % 1_000_000_000) <= ttl || ttl == 0x7FFF_FFFF_FFFF_FFFF
    ensures Verify(mac, Issue(mac, secret, issuedAt), secret, ttl, now) in {Accepted, Expired}
  {
    hide HexDecode, IsHex, IsDecimal, DecimalValue, ToLower, HexEncode, Verify, FormatInt, FromUnix, UnixSeconds, Young;
    var ts := FormatInt(UnixSeconds(issuedAt));
    ParseFormat(UnixSeconds(issuedAt)) by { InRangeSeconds(issuedAt); }
    IssuedYoung(issuedAt, ttl, now);
    HexEncodeLower(mac(ts, secret));
    HexRoundTrip(mac(ts, secret));
    VerdictIff(mac, Issue(mac, secret, issuedAt), ts, HexEncode(mac(ts, secret)), secret, ttl, now);
    OtherVerdict(Verify(mac, Issue(mac, secret, issuedAt), secret, ttl, now));
  }

  lemma OtherVerdict(v: Verdict)
    ensures v in {Accepted, Missing, Malformed, InvalidSignature, Expired}
  {
  }

  lemma InRangeSeconds(t: int)
    requires InRange(t)
    ensures IsInt64(UnixSeconds(t))
  {
  }

  /** A signature speaks only for the timestamp text it was made for: moved to another one,
      it is accepted only if the MAC gives both texts the same value. */
  lemma SignatureBindsTimestamp(mac: Mac, secret: string, issuedAt: int, ts: string, ttl: Duration, now: int)
    requires MacOk(mac) && '.' !in ts
    requires Verify(mac, ts + "." + HexEncode(mac(FormatInt(UnixSeconds(issuedAt)), secret)), secret, ttl, now) == Accepted
    ensures mac(ts, secret) == mac(FormatInt(UnixSeconds(issuedAt)), secret)
  {
    hide HexDecode, IsHex, IsDecimal, DecimalValue, ToLower, HexEncode, Verify, FormatInt, FromUnix, UnixSeconds, Young;
    var a, b := mac(FormatInt(UnixSeconds(issuedAt)), secret), mac(ts, secret);
    var sig := HexEncode(a);
    VerdictIff(mac, ts + "." + sig, ts, sig, secret, ttl, now);
    HexEncodeLower(a);
    HexDecodeIff(sig, a);
    HexDecodeIff(sig, b);
  }
}
