/** Go's integer `/` and `%`, which truncate toward zero (Dafny's own are Euclidean). */
module GoInt {

  /** `a / b` in Go: the quotient of the magnitudes, negated when the signs differ. */
  function Quot(a: int, b: int): (q: int)
    requires b != 0
    ensures a >= 0 && b > 0 ==> q == a / b
    ensures (a >= 0) == (b > 0) ==> q >= 0
    ensures (a >= 0) != (b > 0) ==> q <= 0
  {
    if b > 0 then (if a >= 0 then a / b else -((-a) / b))
    else (if a >= 0 then -(a / (-b)) else (-a) / (-b))
  }

  /** `a % b` in Go: what the truncated quotient leaves over. */
  function Rem(a: int, b: int): (r: int)
    requires b != 0
    ensures a >= 0 && b > 0 ==> r == a % b
    ensures a < 0 && b > 0 ==> -b < r <= 0
  {
    a - b * Quot(a, b)
  }
}
