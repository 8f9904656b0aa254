/** Python's integer division and remainder (`//`, `%`, `divmod`), which round towards minus infinity. */
module PyInt {

  /** `a // b`: the quotient rounded down. */
  function FloorDiv(a: int, b: int): (q: int)
    requires b != 0
    ensures b > 0 ==> b * q <= a < b * q + b
    ensures b < 0 ==> b * q + b < a <= b * q
  {
    assert a == b * (a / b) + a % b;
    if b > 0 || a % b == 0 then a / b
    else
      assert b * (a / b - 1) == b * (a / b) - b;
      a / b - 1
  }

  /** `a % b`: the remainder, which takes the sign of `b`. */
  function FloorMod(a: int, b: int): (m: int)
    requires b != 0
    ensures a == b * FloorDiv(a, b) + m
    ensures b > 0 ==> 0 <= m < b
    ensures b < 0 ==> b < m <= 0
  {
    a - b * FloorDiv(a, b)
  }

  /** For a positive divisor Python and Dafny agree. */
  lemma FloorDivPositive(a: int, b: int)
    requires b > 0
    ensures FloorDiv(a, b) == a / b && FloorMod(a, b) == a % b
  {
  }

  /** The quotient is unique: any `q` with `b*q <= a < b*q + b` is `a // b`. */
  lemma FloorDivUnique(a: int, b: int, q: int)
    requires b > 0 && b * q <= a < b * q + b
    ensures FloorDiv(a, b) == q
  {
    var p := FloorDiv(a, b);
    MulStrictMono(b, p, q + 1);
    MulStrictMono(b, q, p + 1);
  }

  /** Multiplying by a positive number keeps a strict order, in both directions. */
  lemma MulStrictMono(b: int, x: int, y: int)
    requires b > 0
    ensures x < y <==> b * x < b * y
  {
    if x < y {
      MulAtLeast(b, y - x);
      assert b * y - b * x == b * (y - x);
    } else if x > y {
      MulAtLeast(b, x - y);
      assert b * x - b * y == b * (x - y);
    }
  }

  /** A positive multiple of `b` is at least `b`. */
  lemma {:induction false} MulAtLeast(b: int, d: int)
    requires b > 0 && d > 0
    ensures b * d >= b
    decreases d
  {
    if d > 1 {
      MulAtLeast(b, d - 1);
      assert b * d == b * (d - 1) + b;
    }
  }
}
