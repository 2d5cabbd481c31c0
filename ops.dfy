/** The four element-level operations that the scalar-semantic tests exercise
    (std::plus, std::minus, std::multiplies, std::divides over C++ `int`).
    Integers are unbounded here; C++ division truncates toward zero, which
    Dafny's Euclidean `/` does not, so it is written out. */
module Ops {

  /** Stateless operation tags, dispatched on by `Apply`. */
  datatype Op = Plus | Minus | Times | Div

  function Abs(x: int): (r: nat) {
    if x < 0 then -x else x
  }

  /** C++ `x / y` on `int`: the quotient rounded toward zero. The result is
      the unique q whose remainder x - q*y is smaller than y in magnitude and
      carries the sign of the dividend (or is zero). */
  function TruncDiv(x: int, y: int): (q: int)
    requires y != 0
    ensures Abs(x - q * y) < Abs(y)
    ensures x - q * y == 0 || (x - q * y < 0 <==> x < 0)
    ensures Abs(q * y) <= Abs(x)
  {
    var m := Abs(x) / Abs(y);
    var q := if (x < 0) == (y < 0) then m as int else -(m as int);
    TruncDivSpec(x, y, m, q);
    q
  }

  lemma TruncDivSpec(x: int, y: int, m: nat, q: int)
    requires y != 0 && m == Abs(x) / Abs(y)
    requires q == if (x < 0) == (y < 0) then m as int else -(m as int)
    ensures Abs(x - q * y) < Abs(y)
    ensures x - q * y == 0 || (x - q * y < 0 <==> x < 0)
    ensures Abs(q * y) <= Abs(x)
  {
    TruncDivProduct(x, y, m, q);
    TruncDivRemainder(x, Abs(y), m * Abs(y), q * y);
  }

  /** Linear half of the argument: a product p of the divisor's magnitude,
      within one divisor of |x| and carrying x's sign, leaves a remainder
      below the divisor with the sign of x. */
  lemma TruncDivRemainder(x: int, d: nat, p: nat, qy: int)
    requires 0 <= Abs(x) - p < d
    requires qy == if x < 0 then -(p as int) else p
    ensures Abs(x - qy) < d
    ensures x - qy == 0 || (x - qy < 0 <==> x < 0)
    ensures Abs(qy) <= Abs(x)
  {
  }

  /** The product of the quotient and the divisor is |x| rounded down to a
      multiple of |y|, with the sign of x; the remainder is what is left of x. */
  lemma TruncDivProduct(x: int, y: int, m: nat, q: int)
    requires y != 0 && m == Abs(x) / Abs(y)
    requires q == if (x < 0) == (y < 0) then m as int else -(m as int)
    ensures 0 <= Abs(x) - m * Abs(y) < Abs(y)
    ensures q * y == if x < 0 then -(m * Abs(y)) else m * Abs(y)
  {
    var a, d := Abs(x), Abs(y);
    assert a == d * (a / d) + a % d;
    assert m * d == d * m;
    var p := m * d;
    if x >= 0 && y > 0 {
      assert q * y == p;
    } else if x >= 0 {
      assert q * y == (-(m as int)) * (-(d as int)) == p;
    } else if y > 0 {
      assert q * y == (-(m as int)) * d == -p;
    } else {
      assert q * y == m * (-(d as int)) == -p;
    }
  }

  /** True when applying `op` to an element and `b` is defined: the model
      leaves division by zero out. */
  predicate Defined(op: Op, b: int) {
    op == Div ==> b != 0
  }

  /** The element-level meaning of each operation tag: `+`, `-` and `*` on
      integers, and for `Div` the C++ quotient, whose remainder is below the
      divisor and has the dividend's sign. */
  function Apply(op: Op, x: int, b: int): (r: int)
    requires Defined(op, b)
    ensures op == Div ==> Abs(x - r * b) < Abs(b) && (x - r * b == 0 || (x - r * b < 0 <==> x < 0))
  {
    match op
    case Plus => x + b
    case Minus => x - b
    case Times => x * b
    case Div => TruncDiv(x, b)
  }

  /** On non-negative operands the C++ quotient and Dafny's agree. */
  lemma TruncDivNonNegative(x: nat, y: int)
    requires y > 0
    ensures TruncDiv(x, y) == x / y
  {
  }

  /** `a /= b` undoes `a *= b` and `a -= b` undoes `a += b`, for every element. */
  lemma {:induction false} ApplyInverse(x: int, b: int)
    requires b != 0
    ensures Apply(Div, Apply(Times, x, b), b) == x
    ensures Apply(Minus, Apply(Plus, x, b), b) == x
  {
    var q := TruncDiv(x * b, b);
    MulSub(x, q, b);
    if q != x {
      MulMagnitude(x - q, b);
    }
  }

  lemma MulSub(x: int, q: int, b: int)
    ensures (x - q) * b == x * b - q * b
  {
  }

  lemma MulMagnitudePos(m: nat, b: int)
    requires m > 0
    ensures Abs(m * b) >= Abs(b)
  {
    if b >= 0 {
      assert m * b == (m - 1) * b + b;
    } else {
      assert m * b == -(m * (-b));
      assert m * (-b) == (m - 1) * (-b) + (-b);
    }
  }

  lemma MulMagnitude(m: int, b: int)
    requires m != 0
    ensures Abs(m * b) >= Abs(b)
  {
    if m < 0 {
      assert m * b == (-m) * (-b);
      MulMagnitudePos(-m, -b);
    } else {
      MulMagnitudePos(m, b);
    }
  }
}
