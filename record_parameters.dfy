/**
 * The `RecordParameters` payload of record creation and update: `title`,
 * `artist`, `price` and `releasedYear` as they arrive in the request, their
 * constraints, the `releasedYearValidation` callback, and the getters the
 * service reads them through. The current year, `date('Y')` in the source,
 * is a parameter.
 */
module RecordParameters {
  import opened Wrappers
  import opened PhpRuntime
  import opened SymfonyValidator

  const PRICE_MESSAGE: string := "This values should be an integer or a float with 1 to 2 decimals"
  const YEAR_MESSAGE: string := "This values should be an integer with maximum 4 digits"
  const CURRENT_YEAR_MESSAGE: string := "This value should be less or equal than current year"

  datatype Params = Params(title: Option<string>, artist: Option<string>, price: Option<string>, releasedYear: Option<string>)

  /**
   * `releasedYearValidation`: one violation when the value cast to an
   * integer is after the current year. The callback re-targets its violation
   * at the property path it is already at, so the path it is reported at is
   * `releasedYear.releasedYear`.
   */
  function ReleasedYearValidation(v: Option<string>, currentYear: int): (r: seq<Violation>)
    ensures |r| <= 1
    ensures |r| == 1 <==> IntCast(v) > currentYear
    ensures AllAt(r, "releasedYear.releasedYear")
  {
    if IntCast(v) <= currentYear then []
    else [Violation(AppendPath("releasedYear", "releasedYear"), CURRENT_YEAR_MESSAGE)]
  }

  /** `title` and `artist`: NotBlank, Type("string"), Length(max="100"). */
  function TextViolations(path: string, v: Option<string>): (vs: seq<Violation>)
  {
    NotBlank(path, v) + MaxLength100(path, v)
  }

  /** `price`: NotBlank, Regex(/^(\d+|\d+\.\d{1,2})$/), GreaterThan(0). */
  function PriceViolations(v: Option<string>): (vs: seq<Violation>)
  {
    NotBlank("price", v) + Regex("price", v, Decimal, PRICE_MESSAGE) + GreaterThanZero("price", v)
  }

  /** `releasedYear`: Regex(/^\d{1,4}$/), Positive, Callback(releasedYearValidation). */
  function YearViolations(v: Option<string>, currentYear: int): (vs: seq<Violation>)
  {
    Regex("releasedYear", v, Year, YEAR_MESSAGE) + Positive("releasedYear", v) + ReleasedYearValidation(v, currentYear)
  }

  /** All violations of a payload, field by field in declaration order. */
  function Violations(p: Params, currentYear: int): (vs: seq<Violation>)
  {
    TextViolations("title", p.title) + TextViolations("artist", p.artist)
    + PriceViolations(p.price) + YearViolations(p.releasedYear, currentYear)
  }

  /** The value of one or two digits after the decimal point, in cents. */
  function FractionCents(s: string): (c: nat)
    requires IsCents(s)
  {
    if |s| == 1 then DigitValue(s[0]) * 10 else DigitValue(s[0]) * 10 + DigitValue(s[1])
  }

  /** A price string that matches the decimal pattern, in cents. */
  function PriceCents(s: string): (c: nat)
    requires Matches(Decimal, s)
  {
    var k := DigitSpan(s);
    DigitsValue(s[..k]) * 100 + (if k == |s| then 0 else FractionCents(s[k + 1..]))
  }

  /** A present, non-blank text of at most 100 characters. */
  predicate TextAccepted(v: Option<string>)
  {
    v.Some? && v.value != "" && |v.value| <= 100
  }

  /** A present price in the decimal pattern that is more than zero. */
  predicate PriceAccepted(v: Option<string>)
  {
    v.Some? && Matches(Decimal, v.value) && PriceCents(v.value) > 0
  }

  /** An absent year, or one to four digits that are not all zero. */
  predicate YearAccepted(v: Option<string>)
  {
    v.Some? ==> Matches(Year, v.value) && DigitsValue(v.value) > 0
  }

  /** Everything the constraints demand except the comparison with the current year. */
  predicate WellFormed(p: Params)
  {
    TextAccepted(p.title) && TextAccepted(p.artist) && PriceAccepted(p.price) && YearAccepted(p.releasedYear)
  }

  function GetTitle(p: Params): (r: string)
    requires p.title.Some?
  {
    p.title.value
  }

  function GetArtist(p: Params): (r: string)
    requires p.artist.Some?
  {
    p.artist.value
  }

  /** `(float) $price`, here exact in cents, of a price in the decimal pattern. */
  function GetPrice(p: Params): (r: int)
    requires p.price.Some? && Matches(Decimal, p.price.value)
  {
    PriceCents(p.price.value)
  }

  /**
   * A truthy year cast to an integer; otherwise the raw value, which the
   * `?int` return type admits only when it is `null`.
   */
  function GetReleasedYear(p: Params): (r: Option<int>)
    requires p.releasedYear != Some("") && p.releasedYear != Some("0")
  {
    if Truthy(p.releasedYear) then Some(IntCast(p.releasedYear)) else None
  }

  /** The fraction after the point is non-zero exactly when some digit is. */
  lemma FractionCentsPositive(s: string)
    requires IsCents(s)
    ensures FractionCents(s) > 0 <==> NonZeroDigit(s)
  {
    if |s| == 2 && (s[0] != '0' || s[1] != '0') {
      assert IsDigit(s[0]) && IsDigit(s[1]);
      if s[0] != '0' { assert 0 <= 0 < |s| && IsDigit(s[0]) && s[0] != '0'; }
      else { assert 0 <= 1 < |s| && IsDigit(s[1]) && s[1] != '0'; }
    }
    if |s| == 1 && s[0] != '0' {
      assert 0 <= 0 < |s| && IsDigit(s[0]) && s[0] != '0';
    }
  }

  /** A price in the decimal pattern is greater than 0 exactly when its cents are. */
  lemma PricePositiveIff(s: string)
    requires Matches(Decimal, s)
    ensures GreaterThanInt(s, 0) <==> PriceCents(s) > 0
  {
    var k := DigitSpan(s);
    var n := LeadingNumber(s);
    assert s[0] != '-' && s[0] != '+' by { assert IsDigit(s[0]); }
    assert n.whole == DigitsValue(s[..k]);
    if k == |s| {
      assert !n.fractional by { assert s[k..] == ""; }
    } else {
      var frac := s[k + 1..];
      DigitsSpanAll(frac);
      assert frac[..DigitSpan(frac)] == frac;
      assert s[k..][1..] == frac;
      assert n.fractional == NonZeroDigit(frac);
      FractionCentsPositive(frac);
    }
  }

  /** A price raises no violation exactly when it is accepted. */
  lemma PriceViolationsIff(v: Option<string>)
    ensures PriceViolations(v) == [] <==> PriceAccepted(v)
  {
    if v.Some? && Matches(Decimal, v.value) {
      PricePositiveIff(v.value);
    }
  }

  /**
   * A year raises no violation exactly when it is accepted and, cast to an
   * integer (0 when absent), not after the current year.
   */
  lemma YearViolationsIff(v: Option<string>, currentYear: int)
    ensures YearViolations(v, currentYear) == [] <==> YearAccepted(v) && IntCast(v) <= currentYear
  {
    if v.Some? && v.value != "" && AllDigits(v.value) {
      DigitsConvert(v.value);
    }
  }

  /**
   * A payload is valid exactly when it is well formed and its year, cast to
   * an integer (0 when absent), is not after the current year.
   */
  lemma ValidIff(p: Params, currentYear: int)
    ensures Violations(p, currentYear) == [] <==> WellFormed(p) && IntCast(p.releasedYear) <= currentYear
  {
    PriceViolationsIff(p.price);
    YearViolationsIff(p.releasedYear, currentYear);
  }

  /**
   * A blank or missing title or artist, or one over 100 characters, is
   * reported at its own field; so is a missing or blank price.
   */
  lemma RequiredFieldsReported(p: Params, currentYear: int)
    ensures !TextAccepted(p.title) ==> SomeAt(Violations(p, currentYear), "title")
    ensures !TextAccepted(p.artist) ==> SomeAt(Violations(p, currentYear), "artist")
    ensures p.price == None || p.price == Some("") ==> SomeAt(Violations(p, currentYear), "price")
  {
    var t := TextViolations("title", p.title);
    var a := TextViolations("artist", p.artist);
    var vs := Violations(p, currentYear);
    if !TextAccepted(p.title) {
      assert vs[0] == t[0];
    }
    if !TextAccepted(p.artist) {
      assert vs[|t|] == a[0];
    }
    if p.price == None || p.price == Some("") {
      assert vs[|t| + |a|].path == "price";
    }
  }

  /** The empty payload: exactly one violation each for title, artist and price. */
  lemma EmptyPayload(currentYear: int)
    requires currentYear >= 0
    ensures Violations(Params(None, None, None, None), currentYear) ==
      [Violation("title", NOT_BLANK_MESSAGE), Violation("artist", NOT_BLANK_MESSAGE),
       Violation("price", NOT_BLANK_MESSAGE)]
  {
  }

  /** Prices the pattern or the positivity check turns away. */
  lemma RejectedPrices()
    ensures !PriceAccepted(Some("0")) && !PriceAccepted(Some("0.00"))
    ensures !PriceAccepted(Some("1.234")) && !PriceAccepted(Some("-1"))
  {
    assert DigitSpan("0") == 1;
    assert DigitSpan("0.00") == 1;
    assert DigitSpan("1.234") == 1;
    assert DigitSpan("-1") == 0;
  }

  /** `14.99` is accepted, as 1499 cents. */
  lemma AcceptedPrice()
    ensures PriceAccepted(Some("14.99")) && PriceCents("14.99") == 1499
  {
    assert DigitSpan("14.99") == 2;
    assert "14.99"[..2] == "14";
    assert "14"[..1] == "1" && "1"[..0] == "";
    assert DigitsValue("14") == 14;
    assert "14.99"[3..] == "99";
    assert FractionCents("99") == 99;
  }

  /**
   * Of an accepted year the getter is defined, gives `null` only for an
   * absent year, and otherwise a year in 1..9999.
   */
  lemma AcceptedYearGetter(p: Params)
    requires YearAccepted(p.releasedYear)
    ensures p.releasedYear != Some("") && p.releasedYear != Some("0")
    ensures GetReleasedYear(p) == None <==> p.releasedYear == None
    ensures GetReleasedYear(p).Some? ==> GetReleasedYear(p).value == DigitsValue(p.releasedYear.value)
    ensures GetReleasedYear(p).Some? ==> 1 <= GetReleasedYear(p).value <= 9999
  {
    if p.releasedYear.Some? {
      SmallDigitsCast(p.releasedYear.value);
    }
  }

  /** Of a valid payload the year getter gives `null` or a year in 1..currentYear. */
  lemma ValidReleasedYear(p: Params, currentYear: int)
    requires Violations(p, currentYear) == []
    ensures p.releasedYear != Some("") && p.releasedYear != Some("0")
    ensures GetReleasedYear(p) == None <==> p.releasedYear == None
    ensures GetReleasedYear(p).Some? ==> 1 <= GetReleasedYear(p).value <= currentYear
  {
    ValidIff(p, currentYear);
    AcceptedYearGetter(p);
  }
}
