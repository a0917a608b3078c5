/** Go's integer division and float-to-int conversion (floats are reals), and powers of ten. */
module GoNumbers {
  /** `int(x)`: towards zero. */
  function Truncated(x: real): int {
    if x >= 0.0 then x.Floor else -((-x).Floor)
  }

  /** `a / b` for positive `b`: towards zero. */
  function DivTowardsZero(a: int, b: int): int
    requires b > 0
  {
    if a >= 0 then a / b else -((-a) / b)
  }

  function Min(a: int, b: int): int {
    if a <= b then a else b
  }

  function Pow10(n: nat): (p: nat)
    ensures p >= 1
  {
    if n == 0 then 1 else 10 * Pow10(n - 1)
  }

  lemma TruncatedMonotone(x: real, y: real)
    requires x <= y
    ensures Truncated(x) <= Truncated(y)
  {
  }

  /** What division leaves: `a` is `q` times `b` and less than one `b` more, on the far side of
      zero. */
  lemma DivTowardsZeroBounds(a: int, b: int)
    requires b > 0
    ensures a >= 0 ==> DivTowardsZero(a, b) * b <= a < DivTowardsZero(a, b) * b + b
    ensures a < 0 ==> DivTowardsZero(a, b) * b - b < a <= DivTowardsZero(a, b) * b
  {
    var n := if a >= 0 then a else -a;
    assert n == (n / b) * b + n % b;
  }

  /** Different multiples of `b` are at least `b` apart. */
  lemma MultiplesApart(q: int, r: int, b: int)
    requires b > 0 && q > r
    ensures q * b >= r * b + b
  {
    assert (q - r - 1) * b >= 0;
    assert (q - r - 1) * b == q * b - r * b - b;
  }

  lemma QuotientsOrdered(x: nat, y: nat, b: int)
    requires b > 0 && x <= y
    ensures 0 <= x / b <= y / b
  {
    var q, r := x / b, y / b;
    assert x == q * b + x % b && y == r * b + y % b;
    if q > r {
      MultiplesApart(q, r, b);
    }
  }

  lemma DivMonotone(x: int, y: int, b: int)
    requires b > 0 && x <= y
    ensures DivTowardsZero(x, b) <= DivTowardsZero(y, b)
  {
    if x >= 0 {
      QuotientsOrdered(x, y, b);
    } else if y < 0 {
      QuotientsOrdered(-y, -x, b);
    } else {
      QuotientsOrdered(0, -x, b);
      QuotientsOrdered(0, y, b);
    }
  }

  lemma QuotientUnique(a: int, b: int, q: int, r: int)
    requires b > 0 && a == q * b + r && 0 <= r < b
    ensures a / b == q && a % b == r
  {
    var q' := a / b;
    assert a == q' * b + a % b;
    if q > q' {
      MultiplesApart(q, q', b);
    } else if q < q' {
      MultiplesApart(q', q, b);
    }
  }

  lemma MultipleIsZeroMod(q: int, b: int)
    requires b > 0
    ensures (q * b) % b == 0
  {
    QuotientUnique(q * b, b, q, 0);
  }

  /** Numbers that differ by a multiple of `b` leave the same remainder. */
  lemma SameRemainder(x: int, y: int, q: int, b: int)
    requires b > 0 && x == y + q * b
    ensures x % b == y % b
  {
    var d, r := y / b, y % b;
    assert y == d * b + r;
    assert (d + q) * b == d * b + q * b;
    QuotientUnique(x, b, d + q, r);
  }

  /** Among `b` consecutive numbers no two leave the same remainder. */
  lemma DifferentRemainders(x: int, y: int, b: int)
    requires b > 0 && x < y < x + b
    ensures x % b != y % b
  {
    var q, r := x / b, y / b;
    assert x == q * b + x % b && y == r * b + y % b;
    if x % b == y % b {
      if r > q {
        MultiplesApart(r, q, b);
      } else if q > r {
        MultiplesApart(q, r, b);
      }
    }
  }

  /** Adding to the remainder or to the number leaves the same. */
  lemma AddToRemainder(x: int, d: int, b: int)
    requires b > 0
    ensures (x % b + d) % b == (x + d) % b
  {
    assert x == (x / b) * b + x % b;
    SameRemainder(x + d, x % b + d, x / b, b);
  }
}
