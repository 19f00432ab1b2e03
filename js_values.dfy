/** Values and operators of JavaScript that the component relies on. */
module JsValues {

  /** A field that may be absent (`null` or `undefined`) or hold a value. */
  datatype Option<T> = None | Some(value: T)

  /** Truthiness of a string field: absent and `""` are falsy, every other string is truthy. */
  predicate Truthy(s: Option<string>) {
    s.Some? && s.value != ""
  }

  /** `s || fallback` for a string field. */
  function OrElse(s: Option<string>, fallback: string): (r: string)
    ensures Truthy(s) ==> r == s.value
    ensures !Truthy(s) ==> r == fallback
  {
    if Truthy(s) then s.value else fallback
  }

  /**
   * The `%` operator on integral numbers: the remainder of division truncated
   * toward zero, so the result takes the sign of the dividend. Dafny's own `%`
   * is Euclidean and agrees with it only for a non-negative dividend.
   */
  function Remainder(a: int, n: int): (r: int)
    requires n != 0
    ensures a == n * TruncDiv(a, n) + r
    ensures a >= 0 ==> 0 <= r < (if n > 0 then n else -n)
    ensures a < 0 ==> -(if n > 0 then n else -n) < r <= 0
  {
    if a >= 0 then a % n else -((-a) % n)
  }

  /** Division truncated toward zero, the quotient that goes with `%`. */
  function TruncDiv(a: int, n: int): int
    requires n != 0
  {
    if a >= 0 then a / n else -((-a) / n)
  }
}
