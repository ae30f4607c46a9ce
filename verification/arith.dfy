/** Facts about integer division that more than one module relies on. */
module Arith {
  /** Dafny's `/` and `%` are determined by `y == q * len + r` with `0 <= r < len`. */
  lemma DivModUnique(y: int, len: int, q: int, r: int)
    requires len > 0 && 0 <= r < len && y == q * len + r
    ensures y / len == q && y % len == r
  {
    var q', r' := y / len, y % len;
    var d := q - q';
    assert d * len == r' - r by {
      assert q * len - q' * len == (q - q') * len;
    }
    if d >= 1 {
      MulAtLeast(d, len);
    } else if d <= -1 {
      MulAtLeast(-d, len);
    }
  }

  /** After an odd number comes an even one, and after that an odd one again. */
  lemma OddSucc(i: int)
    requires i % 2 == 1
    ensures (i + 1) % 2 == 0 && (i + 2) % 2 == 1
  {
    var q := i / 2;
    assert i == q * 2 + 1;
    DivModUnique(i + 1, 2, q + 1, 0);
    DivModUnique(i + 2, 2, q + 1, 1);
  }

  /** One more of `b`: `k * b` is `(k - 1) * b` plus `b`. */
  lemma MulSucc(k: int, b: int)
    ensures k * b == (k - 1) * b + b
  {
  }

  lemma MulAtLeast(a: int, b: int)
    requires a >= 1 && b > 0
    ensures a * b >= b
  {
    assert a * b == (a - 1) * b + b;
    assert (a - 1) * b >= 0;
  }

  /** Multiplying by a positive number keeps the sign. */
  lemma MulSign(a: int, b: int)
    requires b > 0
    ensures a > 0 ==> a * b > 0
    ensures a < 0 ==> a * b < 0
  {
    if a > 0 {
      MulAtLeast(a, b);
    } else if a < 0 {
      MulAtLeast(-a, b);
      assert (-a) * b == -(a * b);
    }
  }

  /** Multiplying by a non-negative number is monotone. */
  lemma MulLe(a: int, b: int, c: int)
    requires a <= b && c >= 0
    ensures a * c <= b * c
  {
    assert b * c - a * c == (b - a) * c;
    if c > 0 && b > a {
      MulSign(b - a, c);
    }
  }
}
