/**
 * The `Pagination` request parameters of the record list: `offset` and
 * `limit` as they arrive in the query string, their constraints, and the
 * `(int)` getters the repository reads them through.
 */
module Pagination {
  import opened Wrappers
  import opened PhpRuntime
  import opened SymfonyValidator

  const INTEGER_MESSAGE: string := "It needs to be an integer"

  datatype Params = Params(offset: Option<string>, limit: Option<string>)

  /** `offset`: Regex(/^\d+$/), Positive. */
  function OffsetViolations(v: Option<string>): (vs: seq<Violation>)
  {
    Regex("offset", v, Integer, INTEGER_MESSAGE) + Positive("offset", v)
  }

  /** `limit`: Regex(/^\d+$/), LessThanOrEqual(100), Positive. */
  function LimitViolations(v: Option<string>): (vs: seq<Violation>)
  {
    Regex("limit", v, Integer, INTEGER_MESSAGE) + LessThanOrEqual100("limit", v) + Positive("limit", v)
  }

  /** The violations of a `Pagination`: those of `offset`, then those of `limit`. */
  function Violations(p: Params): (vs: seq<Violation>)
  {
    OffsetViolations(p.offset) + LimitViolations(p.limit)
  }

  function GetOffset(p: Params): (r: int) { IntCast(p.offset) }

  function GetLimit(p: Params): (r: int) { IntCast(p.limit) }

  /** What an accepted `offset` is: absent, or a positive decimal integer. */
  predicate OffsetAccepted(v: Option<string>)
  {
    v.Some? ==> |v.value| > 0 && AllDigits(v.value) && DigitsValue(v.value) > 0
  }

  /** What an accepted `limit` is: absent, or a decimal integer in 1..100. */
  predicate LimitAccepted(v: Option<string>)
  {
    v.Some? ==> |v.value| > 0 && AllDigits(v.value) && 0 < DigitsValue(v.value) <= 100
  }

  /** The offset raises no violation exactly when it is accepted. */
  lemma OffsetViolationsIff(v: Option<string>)
    ensures OffsetViolations(v) == [] <==> OffsetAccepted(v)
    ensures AllAt(OffsetViolations(v), "offset")
  {
    if v.Some? && v.value != "" && AllDigits(v.value) {
      DigitsConvert(v.value);
    }
  }

  /** The limit raises no violation exactly when it is accepted. */
  lemma LimitViolationsIff(v: Option<string>)
    ensures LimitViolations(v) == [] <==> LimitAccepted(v)
    ensures AllAt(LimitViolations(v), "limit")
  {
    if v.Some? && v.value != "" && AllDigits(v.value) {
      DigitsConvert(v.value);
    }
  }

  /**
   * A pagination is valid exactly when both values are accepted; a present
   * value that is not a string of digits is reported at its own field.
   */
  lemma ValidIff(p: Params)
    ensures Violations(p) == [] <==> OffsetAccepted(p.offset) && LimitAccepted(p.limit)
    ensures p.offset.Some? && !Matches(Integer, p.offset.value) ==> SomeAt(Violations(p), "offset")
    ensures p.limit.Some? && !Matches(Integer, p.limit.value) ==> SomeAt(Violations(p), "limit")
  {
    OffsetViolationsIff(p.offset);
    LimitViolationsIff(p.limit);
    var vs := Violations(p);
    var nOffset := |OffsetViolations(p.offset)|;
    if p.offset.Some? && !Matches(Integer, p.offset.value) {
      assert !OffsetAccepted(p.offset);
      assert vs[0] == OffsetViolations(p.offset)[0];
    }
    if p.limit.Some? && !Matches(Integer, p.limit.value) {
      assert !LimitAccepted(p.limit);
      assert vs[nOffset] == LimitViolations(p.limit)[0];
    }
  }

  /**
   * Of a valid pagination the getters return 0 for an absent value, the
   * offset is otherwise positive, and the limit is otherwise in 1..100.
   */
  lemma ValidGetters(p: Params)
    requires Violations(p) == []
    ensures GetOffset(p) >= 0 && GetLimit(p) >= 0
    ensures p.offset == None ==> GetOffset(p) == 0
    ensures p.offset != None ==> GetOffset(p) >= 1
    ensures p.limit == None ==> GetLimit(p) == 0
    ensures p.limit != None ==> 1 <= GetLimit(p) <= 100
  {
    ValidIff(p);
    if p.offset.Some? {
      DigitsConvert(p.offset.value);
    }
    if p.limit.Some? {
      DigitsConvert(p.limit.value);
    }
  }

  /** `limit=abc`: the pattern and positivity both fail, and both report `limit`. */
  lemma NonNumericLimit()
    ensures Violations(Params(None, Some("abc"))) ==
      [Violation("limit", INTEGER_MESSAGE), Violation("limit", POSITIVE_MESSAGE)]
  {
    assert DigitSpan("abc") == 0;
    assert !GreaterThanInt("abc", 0);
    assert LessOrEqualInt("abc", 100);
  }

  /** `offset=0` and `limit=0` are rejected: both must be strictly positive. */
  lemma ZeroRejected()
    ensures Violations(Params(Some("0"), None)) == [Violation("offset", POSITIVE_MESSAGE)]
    ensures Violations(Params(None, Some("0"))) == [Violation("limit", POSITIVE_MESSAGE)]
  {
    DigitsConvert("0");
  }

  /** `limit=101` is rejected by the cap alone. */
  lemma LimitOverCap()
    ensures Violations(Params(None, Some("101"))) == [Violation("limit", LESS_OR_EQUAL_100_MESSAGE)]
  {
    DigitsConvert("101");
  }
}
