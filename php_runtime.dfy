/**
 * The pieces of PHP 7.4's value semantics that the request validators and
 * getters rely on: ASCII digits, the numeric prefix of a string, the `(int)`
 * cast, truthiness of a string, and the loose comparison of a string with an
 * integer constant (`"abc" > 0`), which converts the string through the same
 * numeric prefix.
 */
module PhpRuntime {
  import opened Wrappers

  const PHP_INT_MAX: int := 0x7FFF_FFFF_FFFF_FFFF
  const PHP_INT_MIN: int := -0x8000_0000_0000_0000

  predicate IsDigit(c: char) { '0' <= c <= '9' }

  predicate AllDigits(s: string) { forall i :: 0 <= i < |s| ==> IsDigit(s[i]) }

  function DigitValue(c: char): (r: nat)
    requires IsDigit(c)
  {
    (c as int) - ('0' as int)
  }

  /** The decimal value of a string of digits; the empty string reads as 0. */
  function DigitsValue(s: string): (n: nat)
    requires AllDigits(s)
  {
    if s == [] then 0 else DigitsValue(s[..|s| - 1]) * 10 + DigitValue(s[|s| - 1])
  }

  /** A string of at most `k` digits is below 10^k. */
  lemma {:induction false} DigitsValueBound(s: string, k: nat)
    requires AllDigits(s) && |s| <= k
    ensures DigitsValue(s) < Pow10(k)
  {
    if s != [] {
      DigitsValueBound(s[..|s| - 1], k - 1);
    }
  }

  function Pow10(k: nat): (p: nat)
    ensures p >= 1
  {
    if k == 0 then 1 else 10 * Pow10(k - 1)
  }

  /** The length of the longest prefix of `s` made of digits. */
  function DigitSpan(s: string): (k: nat)
    ensures k <= |s| && AllDigits(s[..k])
    ensures k < |s| ==> !IsDigit(s[k])
  {
    if s == [] || !IsDigit(s[0]) then 0
    else
      var k := 1 + DigitSpan(s[1..]);
      assert s[..k] == [s[0]] + s[1..][..k - 1];
      k
  }

  /**
   * The number a string denotes when PHP converts it: its sign, its whole
   * part, and whether a non-zero fraction follows. `fractional` stands for
   * a value strictly between `whole` and `whole + 1` in magnitude.
   */
  datatype Number = Number(negative: bool, whole: nat, fractional: bool)

  predicate NonZeroDigit(s: string)
  {
    exists i :: 0 <= i < |s| && IsDigit(s[i]) && s[i] != '0'
  }

  /**
   * PHP's conversion of a string to a number: an optional sign, the digits
   * that follow, an optional `.` with more digits; whatever comes after is
   * ignored, and a string with no numeric prefix reads as 0.
   */
  function LeadingNumber(s: string): (n: Number)
  {
    var negative := |s| > 0 && s[0] == '-';
    var rest := if |s| > 0 && (s[0] == '-' || s[0] == '+') then s[1..] else s;
    var k := DigitSpan(rest);
    var afterWhole := rest[k..];
    var fractionDigits :=
      if |afterWhole| > 0 && afterWhole[0] == '.' then afterWhole[1..][..DigitSpan(afterWhole[1..])] else "";
    Number(negative, DigitsValue(rest[..k]), NonZeroDigit(fractionDigits))
  }

  /** An integer clamped into PHP's 64-bit `int` range. */
  function Saturate(n: int): (r: int)
    ensures PHP_INT_MIN <= r <= PHP_INT_MAX
    ensures PHP_INT_MIN <= n <= PHP_INT_MAX ==> r == n
  {
    if n > PHP_INT_MAX then PHP_INT_MAX else if n < PHP_INT_MIN then PHP_INT_MIN else n
  }

  /** `(int) $value` for a value that is a string or `null`: `(int) null` is 0. */
  function IntCast(v: Option<string>): (r: int)
  {
    match v
    case None => 0
    case Some(s) =>
      var n := LeadingNumber(s);
      Saturate(if n.negative then -(n.whole as int) else n.whole)
  }

  /** PHP truthiness of a string or `null`: `null`, `""` and `"0"` are false. */
  predicate Truthy(v: Option<string>)
  {
    v.Some? && v.value != "" && v.value != "0"
  }

  /** PHP's loose `$s > $c` for a string and a non-negative integer constant. */
  predicate GreaterThanInt(s: string, c: nat)
  {
    var n := LeadingNumber(s);
    !n.negative && (n.whole > c || (n.whole == c && n.fractional))
  }

  /** PHP's loose `$s <= $c` for a string and a non-negative integer constant. */
  predicate LessOrEqualInt(s: string, c: nat)
  {
    !GreaterThanInt(s, c)
  }

  /** A non-empty string of digits converts to exactly its decimal value. */
  lemma DigitsConvert(s: string)
    requires |s| > 0 && AllDigits(s)
    ensures LeadingNumber(s) == Number(false, DigitsValue(s), false)
    ensures IntCast(Some(s)) == Saturate(DigitsValue(s))
    ensures GreaterThanInt(s, 0) <==> DigitsValue(s) > 0
  {
    DigitsSpanAll(s);
    assert s[..|s|] == s;
    assert !NonZeroDigit("");
  }

  lemma {:induction false} DigitsSpanAll(s: string)
    requires AllDigits(s)
    ensures DigitSpan(s) == |s|
  {
    if s != [] {
      DigitsSpanAll(s[1..]);
    }
  }

  /** Casting a string of at most four digits gives back its value. */
  lemma SmallDigitsCast(s: string)
    requires |s| > 0 && AllDigits(s) && |s| <= 4
    ensures 0 <= IntCast(Some(s)) == DigitsValue(s) < 10000
  {
    DigitsConvert(s);
    DigitsValueBound(s, 4);
    assert Pow10(4) == 10000;
  }
}
