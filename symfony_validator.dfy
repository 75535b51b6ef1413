/**
 * The Symfony validator constraints that the request parameter classes use,
 * each as a function from a property path and a property value to the list of
 * violations it raises (empty or one). A value is a request parameter: a string,
 * or `null` when the request does not carry it. A class's violation list is
 * the concatenation of its constraints' lists, property by property in
 * declaration order and, within a property, in annotation order; nothing
 * short-circuits.
 */
module SymfonyValidator {
  import opened Wrappers
  import opened PhpRuntime

  /** A constraint violation: the property path it is reported at and its message. */
  datatype Violation = Violation(path: string, message: string)

  const NOT_BLANK_MESSAGE: string := "This value should not be blank."
  const TOO_LONG_100_MESSAGE: string := "This value is too long. It should have 100 characters or less."
  const POSITIVE_MESSAGE: string := "This value should be positive."
  const GREATER_THAN_0_MESSAGE: string := "This value should be greater than 0."
  const LESS_OR_EQUAL_100_MESSAGE: string := "This value should be less than or equal to 100."

  /** The regular expressions of the `Regex` constraints in use. */
  datatype Pattern =
    | Integer   // /^\d+$/
    | Decimal   // /^(\d+|\d+\.\d{1,2})$/
    | Year      // /^\d{1,4}$/

  /** One or two digits after the decimal point, and nothing else. */
  predicate IsCents(s: string)
  {
    1 <= |s| <= 2 && AllDigits(s)
  }

  /** Whether the whole of `s` matches the pattern. */
  predicate Matches(p: Pattern, s: string)
  {
    match p
    case Integer => |s| > 0 && AllDigits(s)
    case Year => 1 <= |s| <= 4 && AllDigits(s)
    case Decimal =>
      var k := DigitSpan(s);
      k > 0 && (k == |s| || (s[k] == '.' && IsCents(s[k + 1..])))
  }

  /** `NotBlank`: rejects `null` and the empty string (`"0"` is not blank). */
  function NotBlank(path: string, v: Option<string>): (r: seq<Violation>)
  {
    if v == None || v == Some("") then [Violation(path, NOT_BLANK_MESSAGE)] else []
  }

  /** `Length(max="100")`: skips `null`. */
  function MaxLength100(path: string, v: Option<string>): (r: seq<Violation>)
  {
    if v.Some? && |v.value| > 100 then [Violation(path, TOO_LONG_100_MESSAGE)] else []
  }

  /** `Regex`: skips `null` and the empty string. */
  function Regex(path: string, v: Option<string>, p: Pattern, message: string): (r: seq<Violation>)
  {
    if v.Some? && v.value != "" && !Matches(p, v.value) then [Violation(path, message)] else []
  }

  /** `Positive`, that is `GreaterThan(0)` with its own message: skips `null`. */
  function Positive(path: string, v: Option<string>): (r: seq<Violation>)
  {
    if v.Some? && !GreaterThanInt(v.value, 0) then [Violation(path, POSITIVE_MESSAGE)] else []
  }

  /** `GreaterThan(0)`: skips `null`. */
  function GreaterThanZero(path: string, v: Option<string>): (r: seq<Violation>)
  {
    if v.Some? && !GreaterThanInt(v.value, 0) then [Violation(path, GREATER_THAN_0_MESSAGE)] else []
  }

  /** `LessThanOrEqual(100)`: skips `null`. */
  function LessThanOrEqual100(path: string, v: Option<string>): (r: seq<Violation>)
  {
    if v.Some? && !LessOrEqualInt(v.value, 100) then [Violation(path, LESS_OR_EQUAL_100_MESSAGE)] else []
  }

  /** Symfony's `PropertyPath::append`, used when a callback re-targets its violation. */
  function AppendPath(base: string, sub: string): (r: string)
  {
    if sub == "" then base
    else if sub[0] == '[' then base + sub
    else if base == "" then sub
    else base + "." + sub
  }

  /** Every violation in `vs` is reported at `path`. */
  predicate AllAt(vs: seq<Violation>, path: string)
  {
    forall i :: 0 <= i < |vs| ==> vs[i].path == path
  }

  /** Some violation in `vs` is reported at `path`. */
  predicate SomeAt(vs: seq<Violation>, path: string)
  {
    exists i :: 0 <= i < |vs| && vs[i].path == path
  }
}
