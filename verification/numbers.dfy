/** 64-bit integers and their decimal text, as the program's library prints and parses it. */
module Numbers {
  import opened Wrappers

  const INT64_LIMIT: int := 0x8000_0000_0000_0000

  predicate IsInt64(n: int) {
    -INT64_LIMIT <= n < INT64_LIMIT
  }

  /** Two's-complement reduction to 64 bits. */
  function Wrap64(n: int): int {
    (n + INT64_LIMIT) % (2 * INT64_LIMIT) - INT64_LIMIT
  }

  predicate IsDigit(c: char) {
    '0' <= c <= '9'
  }

  predicate Digits(s: string) {
    forall i :: 0 <= i < |s| ==> IsDigit(s[i])
  }

  function DigitsValue(s: string): nat
    requires Digits(s)
  {
    if s == "" then 0 else 10 * DigitsValue(s[..|s| - 1]) + (s[|s| - 1] as int - '0' as int)
  }

  function FormatNat(n: nat): string {
    var last := [('0' as int + n % 10) as char];
    if n < 10 then last else FormatNat(n / 10) + last
  }

  function FormatInt(n: int): string {
    if n < 0 then "-" + FormatNat(-n) else FormatNat(n)
  }

  /** An optional sign, then at least one digit. */
  predicate IsDecimal(s: string) {
    var digits := if s != "" && (s[0] == '+' || s[0] == '-') then s[1..] else s;
    digits != "" && Digits(digits)
  }

  function DecimalValue(s: string): int
    requires IsDecimal(s)
  {
    if s[0] == '-' then 0 - DigitsValue(s[1..])
    else if s[0] == '+' then DigitsValue(s[1..])
    else DigitsValue(s)
  }

  /** Base-10 parsing of a 64-bit integer. */
  function ParseInt(s: string): Option<int> {
    if IsDecimal(s) && IsInt64(DecimalValue(s)) then Some(DecimalValue(s)) else None
  }

  lemma {:induction false} FormatNatReads(n: nat)
    ensures FormatNat(n) != "" && Digits(FormatNat(n)) && DigitsValue(FormatNat(n)) == n
  {
    var s := FormatNat(n);
    if n >= 10 {
      FormatNatReads(n / 10);
      assert s[..|s| - 1] == FormatNat(n / 10);
    }
  }

  /** Printed in the one plain way: no plus sign, no leading zero. */
  lemma {:induction false} FormatIsPlain(n: int)
    ensures n >= 0 ==> IsDigit(FormatInt(n)[0]) && (n > 0 ==> FormatInt(n)[0] != '0') && (n == 0 ==> FormatInt(n) == "0")
    ensures n < 0 ==> FormatInt(n) == "-" + FormatInt(-n)
    decreases if n < 0 then 1 - n else n
  {
    if n < 0 {
      FormatIsPlain(-n);
    } else if n >= 10 {
      FormatIsPlain(n / 10);
    }
  }

  lemma FormatIntAlphabet(n: int)
    ensures FormatInt(n) != "" && forall i :: 0 <= i < |FormatInt(n)| ==> IsDigit(FormatInt(n)[i]) || FormatInt(n)[i] == '-'
  {
    FormatNatReads(if n < 0 then -n else n);
  }

  lemma WrapInRange(n: int)
    ensures IsInt64(Wrap64(n)) && (IsInt64(n) ==> Wrap64(n) == n)
  {
  }

  /** Adding to a wrapped sum wraps to the same as adding to the sum. */
  lemma WrapAdd(a: int, b: int)
    ensures Wrap64(Wrap64(a) + b) == Wrap64(a + b)
  {
    var q := (a + INT64_LIMIT) / (2 * INT64_LIMIT);
    assert Wrap64(a) == a - 2 * INT64_LIMIT * q;
    var n := a + b + INT64_LIMIT;
    assert (n - 2 * INT64_LIMIT * q) % (2 * INT64_LIMIT) == n % (2 * INT64_LIMIT);
  }

  /** Printing a 64-bit integer and parsing it back. */
  lemma ParseFormat(n: int)
    requires IsInt64(n)
    ensures ParseInt(FormatInt(n)) == Some(n) && '.' !in FormatInt(n)
  {
    var m := if n < 0 then -n else n;
    FormatNatReads(m);
    var s := FormatNat(m);
    assert IsDigit(s[0]);
    assert "-" + s == FormatInt(-m) || m == 0;
    assert ("-" + s)[1..] == s;
  }
}
