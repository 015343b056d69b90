/**
 * The string primitives the codec's filename handling relies on:
 * `str::rfind`, `str::contains`, `take_while(is_numeric)`,
 * `str::parse::<u32>`, `format!("{}", n)` for an unsigned integer and
 * `str::to_lowercase`.  Strings are sequences of characters and indices are
 * character positions (the patterns involved are ASCII, so byte and
 * character positions agree where it matters).
 */
module Text {
  import opened Common

  const U32_MAX: nat := 0xFFFF_FFFF

  /** `pat` occurs in `s` starting at position `i`. */
  predicate OccursAt(s: string, pat: string, i: nat) {
    i + |pat| <= |s| && s[i..i + |pat|] == pat
  }

  /** `s.contains(pat)`. */
  predicate Contains(s: string, pat: string) {
    exists i: nat | i <= |s| :: OccursAt(s, pat, i)
  }

  /** The largest position below `n` at which `pat` occurs, if any. */
  function RfindBelow(s: string, pat: string, n: nat): (r: Option<nat>)
    ensures r.Some? ==> r.value < n && OccursAt(s, pat, r.value)
    ensures r.Some? ==> forall j: nat :: r.value < j < n ==> !OccursAt(s, pat, j)
    ensures r.None? ==> forall j: nat :: j < n ==> !OccursAt(s, pat, j)
    decreases n
  {
    if n == 0 then None
    else if OccursAt(s, pat, n - 1) then Some(n - 1)
    else RfindBelow(s, pat, n - 1)
  }

  /** `s.rfind(pat)`: the start of the last occurrence of `pat`. */
  function Rfind(s: string, pat: string): (r: Option<nat>)
    ensures r.Some? ==> OccursAt(s, pat, r.value)
    ensures r.Some? ==> forall j: nat :: r.value < j ==> !OccursAt(s, pat, j)
    ensures r.None? <==> !Contains(s, pat)
  {
    RfindBelow(s, pat, |s| + 1)
  }

  predicate IsDigit(c: char) { '0' <= c <= '9' }

  predicate AllDigits(s: string) { forall i | 0 <= i < |s| :: IsDigit(s[i]) }

  /** `s.chars().take_while(|c| c.is_numeric()).collect()`: the longest prefix of digits. */
  function TakeDigits(s: string): (r: string)
    ensures r <= s && AllDigits(r)
    ensures |r| < |s| ==> !IsDigit(s[|r|])
  {
    if s != [] && IsDigit(s[0]) then [s[0]] + TakeDigits(s[1..]) else []
  }

  function DigitValue(c: char): nat
    requires IsDigit(c)
  {
    c as nat - '0' as nat
  }

  function DigitChar(d: nat): (c: char)
    requires d < 10
    ensures IsDigit(c) && DigitValue(c) == d
  {
    ('0' as nat + d) as char
  }

  /** The value of a string of decimal digits, most significant first. */
  function DigitsValue(s: string): nat
    requires AllDigits(s)
  {
    if s == [] then 0 else DigitsValue(s[..|s| - 1]) * 10 + DigitValue(s[|s| - 1])
  }

  /** `s.parse::<u32>()` on a string of digits: fails on the empty string and on overflow. */
  function ParseU32(s: string): (r: Option<nat>)
    requires AllDigits(s)
    ensures r.Some? <==> s != [] && DigitsValue(s) <= U32_MAX
    ensures r.Some? ==> r.value == DigitsValue(s)
  {
    if s == [] then None
    else
      var v := DigitsValue(s);
      if v <= U32_MAX then Some(v) else None
  }

  /** `format!("{}", n)`: the decimal rendering of `n`, without leading zeros. */
  function Decimal(n: nat): (r: string)
    ensures r != [] && AllDigits(r)
    ensures |r| > 1 ==> r[0] != '0'
  {
    if n < 10 then [DigitChar(n)] else Decimal(n / 10) + [DigitChar(n % 10)]
  }

  /** Reading back what `Decimal` writes gives the number. */
  lemma {:induction false} DecimalValue(n: nat)
    ensures DigitsValue(Decimal(n)) == n
  {
    var r := Decimal(n);
    if n >= 10 {
      assert r[..|r| - 1] == Decimal(n / 10);
      DecimalValue(n / 10);
    }
  }

  /** Taking the digits of a decimal followed by a non-digit yields exactly that decimal. */
  lemma {:induction false} TakeDigitsOfDecimal(d: string, rest: string)
    requires AllDigits(d)
    requires rest == [] || !IsDigit(rest[0])
    ensures TakeDigits(d + rest) == d
  {
    if d != [] {
      assert (d + rest)[1..] == d[1..] + rest;
      TakeDigitsOfDecimal(d[1..], rest);
    }
  }

  /** ASCII lower-casing of one character; other characters are kept. */
  function LowerChar(c: char): char {
    if 'A' <= c <= 'Z' then (c as int + 32) as char else c
  }

  /** `str::to_lowercase`, restricted to the ASCII letters. */
  function ToLower(s: string): (r: string)
    ensures |r| == |s|
    ensures forall i | 0 <= i < |s| :: r[i] == LowerChar(s[i])
  {
    seq(|s|, i requires 0 <= i < |s| => LowerChar(s[i]))
  }

  /** A string without upper-case ASCII letters is its own lower case. */
  lemma {:induction false} ToLowerOfLower(s: string)
    requires forall i | 0 <= i < |s| :: !('A' <= s[i] <= 'Z')
    ensures ToLower(s) == s
  {
  }
}
