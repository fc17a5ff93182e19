/** Facts about Euclidean division and about sequences that the solver needs spelled out. */
module Arith {
  /** Multiplication under a name that proofs can hide from the solver. */
  function Times(a: int, b: int): int {
    a * b
  }

  lemma TimesAdd(a: int, c: int, b: int)
    ensures Times(a + c, b) == Times(a, b) + Times(c, b)
    ensures Times(0, b) == 0 && Times(1, b) == b
  {
  }

  lemma TimesMonotone(a: int, a': int, c: int, c': int)
    requires 0 <= a <= a' && 0 <= c <= c'
    ensures 0 <= Times(a, c) <= Times(a', c')
  {
    assert a * c <= a' * c;
    assert a' * c <= a' * c';
  }

  lemma TimesOrder(a: int, a': int, c: int)
    requires a <= a' && c >= 0
    ensures Times(a, c) <= Times(a', c)
  {
    assert (a' - a) * c >= 0;
  }

  /** Quotient and remainder are unique. */
  lemma DivUnique(x: int, m: int, q: int, r: int)
    requires m > 0 && x == q * m + r && 0 <= r < m
    ensures x / m == q && x % m == r
  {
    var d := x / m - q;
    assert x == m * (x / m) + x % m;
    assert m * d == r - x % m by {
      assert m * d == m * (x / m) - m * q;
    }
    if d >= 1 {
      MulAtLeast(m, d);
    } else if d <= -1 {
      assert m * (-d) == -(m * d);
      MulAtLeast(m, -d);
    }
  }

  lemma MulAtLeast(m: int, d: int)
    requires m > 0 && d >= 1
    ensures m * d >= m
  {
    assert m * d == m + m * (d - 1);
    assert m * (d - 1) >= 0;
  }

  lemma DivBounds(a: int, b: int)
    requires a >= 0 && b >= 1
    ensures 0 <= a / b <= a
  {
    assert a == b * (a / b) + a % b;
    if a / b > 0 {
      MulAtLeast(a / b, b);
      assert (a / b) * b == b * (a / b);
    }
  }

  lemma DivMod(a: int, b: int)
    requires b >= 1
    ensures a == (a / b) * b + a % b
  {
    assert a == b * (a / b) + a % b;
  }

  lemma DivTwice(n: nat, a: nat, b: nat)
    requires a >= 1 && b >= 1
    ensures a * b >= 1 && n / a / b == n / (a * b)
  {
    var q, r := n / a, n % a;
    DivMod(n, a);
    DivMod(q, b);
    TimesMonotone(1, a, 1, b);
    TimesMonotone(0, q % b, 0, a);
    TimesMonotone(q % b, b - 1, a, a);
    assert n == (q / b * b + q % b) * a + r;
    assert (q / b * b + q % b) * a == q / b * (b * a) + q % b * a;
    DivUnique(n, a * b, q / b, q % b * a + r);
  }

  /** The digit at weight w, in base b, between what is above it and what is below. */
  lemma Digit(n: nat, w: nat, b: nat, above: nat, digit: nat, below: nat)
    requires digit < b && below < w
    requires n == (above * b + digit) * w + below
    ensures n / w % b == digit
  {
    DivUnique(n, w, above * b + digit, below);
    DivUnique(above * b + digit, b, above, digit);
  }

  lemma Reassociate<T>(a: seq<T>, b: seq<T>, c: seq<T>)
    ensures (a + b) + c == a + (b + c)
  {
  }
}
