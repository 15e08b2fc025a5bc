/**
 Decimal text and 64-bit integers, as Go's `strconv.Atoi` and `strconv.Itoa` convert
 them: an optional sign, at least one digit, and a value that fits a 64-bit integer.
 */
module Decimal {
  import opened Wrappers

  const INT64_MIN := -0x8000_0000_0000_0000
  const INT64_MAX := 0x7fff_ffff_ffff_ffff

  predicate AllDigits(s: string) {
    forall i | 0 <= i < |s| :: '0' <= s[i] <= '9'
  }

  function ParseDigits(s: string): (n: int)
    requires AllDigits(s)
    ensures n >= 0
  {
    if s == [] then 0
    else 10 * ParseDigits(s[..|s| - 1]) + (s[|s| - 1] as int - '0' as int)
  }

  function Atoi(s: string): Option<int> {
    var digits := if s != [] && (s[0] == '+' || s[0] == '-') then s[1..] else s;
    if digits == [] || !AllDigits(digits) then
      None
    else
      var n := if s[0] == '-' then -ParseDigits(digits) else ParseDigits(digits);
      if INT64_MIN <= n <= INT64_MAX then Some(n) else None
  }

  function FormatDigits(n: nat): (s: string)
    ensures s != [] && AllDigits(s) && ParseDigits(s) == n
  {
    var digit := [('0' as int + n % 10) as char];
    if n < 10 then digit else
    var rest := FormatDigits(n / 10);
    assert (rest + digit)[..|rest|] == rest;
    rest + digit
  }

  function Itoa(n: int): string {
    if n < 0 then "-" + FormatDigits(-n) else FormatDigits(n)
  }

  /** Formatting then parsing gives every 64-bit integer back. */
  lemma AtoiOfItoa(n: int)
    requires INT64_MIN <= n <= INT64_MAX
    ensures Atoi(Itoa(n)) == Some(n)
  {
    if n < 0 {
      assert Itoa(n)[1..] == FormatDigits(-n);
    }
  }

  /** A text is read when it is digits, after one sign or none, and their value fits. */
  lemma AtoiMeans(s: string, digits: string)
    requires digits != [] && AllDigits(digits) && s in {digits, "+" + digits, "-" + digits}
    ensures var n := if s[0] == '-' then -ParseDigits(digits) else ParseDigits(digits);
            Atoi(s) == if INT64_MIN <= n <= INT64_MAX then Some(n) else None
  {
    assert ("+" + digits)[1..] == digits && ("-" + digits)[1..] == digits;
  }

  /** No other text is. */
  lemma AtoiNeedsDigits(s: string)
    requires Atoi(s).Some?
    ensures exists digits :: digits != [] && AllDigits(digits) && s in {digits, "+" + digits, "-" + digits}
  {
    var digits := if s[0] == '+' || s[0] == '-' then s[1..] else s;
    assert s == digits || s == [s[0]] + digits;
  }
}
