/** Integer facts the time-base and lap-grouping arithmetic rests on. */
module Arith {

  /** Ceiling of `a / n`: how many blocks of `n` cover `a` items. */
  function CeilDiv(a: nat, n: nat): nat
    requires n > 0
  {
    (a + n - 1) / n
  }

  /** A product of a positive count and a non-negative factor is at least the factor. */
  lemma {:induction false} MulAtLeast(d: int, s: int)
    requires d >= 1 && s >= 0
    ensures d * s >= s
    decreases d
  {
    if d > 1 {
      MulAtLeast(d - 1, s);
      assert d * s == (d - 1) * s + s;
    }
  }

  /** Division is determined by any quotient/remainder pair. */
  lemma DivUnique(a: int, b: int, q: int, r: int)
    requires b > 0 && 0 <= r < b && a == b * q + r
    ensures a / b == q && a % b == r
  {
    var q', r' := a / b, a % b;
    assert a == b * q' + r' && 0 <= r' < b;
    if q' > q {
      assert b * q' - b * q == (q' - q) * b;
      MulAtLeast(q' - q, b);
    } else if q' < q {
      assert b * q - b * q' == (q - q') * b;
      MulAtLeast(q - q', b);
    }
  }

  /** `q` is the quotient exactly when `q * b <= a < (q + 1) * b`. */
  lemma DivBracket(a: int, b: int, q: int)
    requires b > 0 && b * q <= a < b * (q + 1)
    ensures a / b == q
  {
    DivUnique(a, b, q, a - b * q);
  }

  /** The quotient is the largest multiple of `b` not above `a`. */
  lemma DivBounds(a: int, b: int)
    requires b > 0
    ensures b * (a / b) <= a < b * (a / b + 1)
  {
    assert a == b * (a / b) + a % b;
    assert b * (a / b + 1) == b * (a / b) + b;
  }

  /** Removing one full block removes one from the block count. */
  lemma CeilDivStep(a: nat, n: nat)
    requires n > 0 && a >= n
    ensures CeilDiv(a, n) == 1 + CeilDiv(a - n, n)
  {
    var q := CeilDiv(a - n, n);
    DivBounds(a - n + n - 1, n);
    assert n * q <= a - 1 < n * (q + 1);
    assert n * (q + 1) == n * q + n;
    assert n * (q + 2) == n * (q + 1) + n;
    DivBracket(a + n - 1, n, q + 1);
  }

  /** Between one and `n` items fill exactly one block. */
  lemma CeilDivOne(a: nat, n: nat)
    requires 0 < a <= n
    ensures CeilDiv(a, n) == 1
  {
    DivBracket(a + n - 1, n, 1);
  }

  /** Multiplying both sides by a positive factor keeps a strict order. */
  lemma MulStrictMono(x: int, y: int, s: int)
    requires s > 0 && x < y
    ensures x * s < y * s
  {
    assert y * s - x * s == (y - x) * s;
    MulAtLeast(y - x, s);
  }

  /** Multiplying both sides by a non-negative factor keeps a weak order. */
  lemma MulMono(x: int, y: int, s: int)
    requires s >= 0 && x <= y
    ensures x * s <= y * s
  {
    assert y * s - x * s == (y - x) * s;
    if x < y {
      MulAtLeast(y - x, s);
    }
  }

  /** The sign of a product with a positive factor is the sign of the other. */
  lemma MulPosSign(d: int, s: int)
    requires s > 0
    ensures d > 0 <==> d * s > 0
    ensures d < 0 <==> d * s < 0
  {
    if d >= 1 {
      MulAtLeast(d, s);
    } else if d <= -1 {
      MulAtLeast(-d, s);
      assert (-d) * s == -(d * s);
    }
  }

  /** A positive factor can be cancelled from a strict inequality. */
  lemma MulCancelLt(x: int, y: int, s: int)
    requires s > 0 && x * s < y * s
    ensures x < y
  {
    assert y * s - x * s == (y - x) * s;
    MulPosSign(y - x, s);
  }

  /** A positive factor can be cancelled from a weak inequality. */
  lemma MulCancelLe(x: int, y: int, s: int)
    requires s > 0 && x * s <= y * s
    ensures x <= y
  {
    assert x * s - y * s == (x - y) * s;
    MulPosSign(x - y, s);
  }
}
