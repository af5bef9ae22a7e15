/** The percent-encoding of core/transport/awssigv4.go and its inverse. Strings are
    byte strings: every character is below 256. */
module UriEncode {
  import opened Wrappers

  predicate IsBytes(s: string) {
    forall i :: 0 <= i < |s| ==> s[i] as int < 256
  }

  predicate Unreserved(c: char) {
    'A' <= c <= 'Z' || 'a' <= c <= 'z' || '0' <= c <= '9' || c == '-' || c == '_' || c == '.' || c == '~'
  }

  function HexDigit(n: nat): char
    requires n < 16
  {
    "0123456789ABCDEF"[n]
  }

  /** The value of a hexadecimal digit of either case. */
  function HexValue(c: char): (v: Option<nat>)
    ensures v.Some? ==> v.value < 16
  {
    if '0' <= c <= '9' then Some(c as int - '0' as int)
    else if 'A' <= c <= 'F' then Some(c as int - 'A' as int + 10)
    else if 'a' <= c <= 'f' then Some(c as int - 'a' as int + 10)
    else None
  }

  function EncodeByte(c: char, encodePath: bool): string
    requires c as int < 256
  {
    if Unreserved(c) || (c == '/' && encodePath) then [c]
    else ['%', HexDigit(c as int / 16), HexDigit(c as int % 16)]
  }

  function Encode(s: string, encodePath: bool): string
    requires IsBytes(s)
  {
    if s == "" then "" else EncodeByte(s[0], encodePath) + Encode(s[1..], encodePath)
  }

  /** Reads percent-encoding back; anything else stands for itself. */
  function Decode(s: string): Option<string> {
    if s == "" then Some("")
    else if s[0] != '%' then
      var r := Decode(s[1..]);
      if r.None? then None else Some([s[0]] + r.value)
    else if |s| < 3 then None
    else
      var hi, lo, r := HexValue(s[1]), HexValue(s[2]), Decode(s[3..]);
      if hi.None? || lo.None? || r.None? then None
      else Some([(16 * hi.value + lo.value) as char] + r.value)
  }

  lemma HexRoundTrip(n: nat)
    requires n < 16
    ensures HexValue(HexDigit(n)) == Some(n)
    ensures Unreserved(HexDigit(n))
  {
  }

  /** Decoding undoes encoding, of paths and of query pieces alike. */
  lemma {:induction false} DecodeEncode(s: string, encodePath: bool)
    requires IsBytes(s)
    ensures Decode(Encode(s, encodePath)) == Some(s)
  {
    hide HexDigit, HexValue;
    if s != "" {
      var c, e := s[0], EncodeByte(s[0], encodePath);
      var rest := Encode(s[1..], encodePath);
      DecodeEncode(s[1..], encodePath);
      assert s == [c] + s[1..];
      if Unreserved(c) || (c == '/' && encodePath) {
        assert (e + rest)[0] == c && (e + rest)[1..] == rest;
      } else {
        HexRoundTrip(c as int / 16);
        HexRoundTrip(c as int % 16);
        assert (e + rest)[3..] == rest;
        assert (e + rest)[1] == HexDigit(c as int / 16) && (e + rest)[2] == HexDigit(c as int % 16);
      }
    }
  }

  /** So encoding is injective. */
  lemma {:induction false} EncodeInjective(s: string, t: string, encodePath: bool)
    requires IsBytes(s) && IsBytes(t) && Encode(s, encodePath) == Encode(t, encodePath)
    ensures s == t
  {
    DecodeEncode(s, encodePath);
    DecodeEncode(t, encodePath);
  }

  /** An encoded query piece is made of unreserved characters and '%' only. */
  lemma {:induction false} EncodedAlphabet(s: string)
    requires IsBytes(s)
    ensures forall c <- Encode(s, false) :: Unreserved(c) || c == '%'
  {
    if s != "" {
      EncodedAlphabet(s[1..]);
      HexRoundTrip(s[0] as int / 16);
      HexRoundTrip(s[0] as int % 16);
    }
  }

  /** Text that encoding has no reason to touch. */
  predicate Plain(s: string, encodePath: bool) {
    forall c <- s :: c in "-_.~" || 'a' <= c <= 'z' || 'A' <= c <= 'Z' || '0' <= c <= '9' || (c == '/' && encodePath)
  }

  lemma UnreservedIs(c: char)
    ensures Unreserved(c) <==> c in "-_.~" || 'a' <= c <= 'z' || 'A' <= c <= 'Z' || '0' <= c <= '9'
  {
    assert "-_.~" == ['-', '_', '.', '~'];
  }

  /** Exactly the unreserved characters, and the slashes of a path, pass through as they are;
      anything else makes the text longer. */
  lemma {:induction false} UntouchedIff(s: string, encodePath: bool)
    requires IsBytes(s)
    ensures |Encode(s, encodePath)| >= |s|
    ensures Encode(s, encodePath) == s <==> Plain(s, encodePath)
  {
    hide Unreserved;
    if s != "" {
      var c, rest := s[0], s[1..];
      UntouchedIff(rest, encodePath);
      UnreservedIs(c);
      assert s == [c] + rest;
      assert Plain(s, encodePath) <==> Plain([c], encodePath) && Plain(rest, encodePath);
      if Unreserved(c) || (c == '/' && encodePath) {
        assert Encode(s, encodePath) == [c] + Encode(rest, encodePath);
        assert ([c] + Encode(rest, encodePath))[1..] == Encode(rest, encodePath);
      } else {
        assert |Encode(s, encodePath)| == 3 + |Encode(rest, encodePath)|;
      }
    }
  }

  /** Each '%' is followed by two hexadecimal digits, in upper case. */
  predicate UpperEscapes(t: string) {
    forall i :: 0 <= i < |t| && t[i] == '%' ==> i + 2 < |t| && IsUpperHex(t[i + 1]) && IsUpperHex(t[i + 2])
  }

  predicate IsUpperHex(c: char) {
    '0' <= c <= '9' || 'A' <= c <= 'F'
  }

  lemma HexDigitIsUpper(n: nat)
    requires n < 16
    ensures IsUpperHex(HexDigit(n))
  {
  }

  lemma {:induction false} EscapesAreUpper(s: string, encodePath: bool)
    requires IsBytes(s)
    ensures UpperEscapes(Encode(s, encodePath))
  {
    hide HexDigit, IsUpperHex;
    if s != "" {
      var c, rest := s[0], Encode(s[1..], encodePath);
      EscapesAreUpper(s[1..], encodePath);
      HexDigitIsUpper(c as int / 16);
      HexDigitIsUpper(c as int % 16);
      var e, t := EncodeByte(c, encodePath), Encode(s, encodePath);
      assert t == e + rest;
      NoPercent(c as int / 16);
      NoPercent(c as int % 16);
      forall i | 0 <= i < |t| && t[i] == '%' ensures i + 2 < |t| && IsUpperHex(t[i + 1]) && IsUpperHex(t[i + 2]) {
        if i >= |e| {
          assert rest[i - |e|] == '%';
        }
      }
    }
  }

  lemma NoPercent(n: nat)
    requires n < 16
    ensures HexDigit(n) != '%'
  {
  }

  lemma {:induction false} EncodeAppend(s: string, c: char, encodePath: bool)
    requires IsBytes(s) && c as int < 256
    ensures IsBytes(s + [c])
    ensures Encode(s + [c], encodePath) == Encode(s, encodePath) + EncodeByte(c, encodePath)
  {
    hide EncodeByte;
    if s == "" {
      assert s + [c] == [c];
      assert [c][1..] == "";
    } else {
      EncodeAppend(s[1..], c, encodePath);
      assert (s + [c])[1..] == s[1..] + [c];
    }
  }

  method AwsURIEncode(s: string, encodePath: bool) returns (b: string)
    requires IsBytes(s)
    ensures b == Encode(s, encodePath)
  {
    b := "";
    for i := 0 to |s|
      invariant b == Encode(s[..i], encodePath)
    {
      var c := s[i];
      EncodeAppend(s[..i], c, encodePath);
      assert s[..i] + [c] == s[..i + 1];
      if 'A' <= c <= 'Z' || 'a' <= c <= 'z' || '0' <= c <= '9' {
        b := b + [c];
      } else if c == '-' || c == '_' || c == '.' || c == '~' {
        b := b + [c];
      } else if c == '/' && encodePath {
        b := b + [c];
      } else {
        b := b + "%";
        b := b + [HexDigit(c as int / 16)];
        b := b + [HexDigit(c as int % 16)];
      }
    }
    assert s[..|s|] == s;
  }
}
