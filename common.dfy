/** Values shared by the widget models: an optional value, the outcome of a
    computation that may throw, and the JavaScript errors the widgets can raise. */
module Common {

  datatype Option<+T> = None | Some(value: T)

  /** The value of an optional argument, or its default when it is absent. */
  function OrElse<T>(o: Option<T>, default: T): T {
    match o
    case Some(v) => v
    case None => default
  }

  /** A JavaScript evaluation: either it produces a value or it throws. */
  datatype Result<+T, +E> = Success(value: T) | Failure(error: E)

  /** The exceptions the modelled code can throw. */
  datatype JsError =
    | TypeError                              // property access or call on undefined / null
    | UnknownSortingType(sortType: string)   // thrown by the sortable tables' comparators

  /** `a.localeCompare(b)`: negative, zero or positive. Locale data is not modelled, so the
      comparison is supplied by the caller. */
  type Locale = (string, string) -> int

  /** The sign rule any sensible `localeCompare` obeys: `a` after `b` exactly when `b` is
      before `a`. */
  ghost predicate LocaleAntisymmetric(locale: Locale) {
    forall a, b :: locale(a, b) > 0 <==> locale(b, a) < 0
  }

  function DigitChar(d: int): char
    requires 0 <= d < 10
  {
    "0123456789"[d]
  }

  function NatToString(n: nat): string
    decreases n
  {
    if n < 10 then [DigitChar(n)] else NatToString(n / 10) + [DigitChar(n % 10)]
  }

  /** `String(n)` for an integer: its decimal digits, after a minus sign when negative. */
  function IntToString(n: int): string {
    if n < 0 then "-" + NatToString(-n) else NatToString(n)
  }

  function Min(a: int, b: int): int { if a <= b then a else b }

  function Max(a: int, b: int): int { if a <= b then b else a }
}
