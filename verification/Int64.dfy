/** Go's int64: wrap-around products and division that truncates toward zero. */
module Int64 {

  const MIN := -0x8000_0000_0000_0000
  const MAX := 0x7FFF_FFFF_FFFF_FFFF

  predicate Fits(x: int) {
    MIN <= x <= MAX
  }

  type int64 = x: int | MIN <= x <= MAX

  function Wrap(x: int): (r: int64)
    ensures Fits(x) ==> r == x
    ensures (r - x) % 0x1_0000_0000_0000_0000 == 0
  {
    (x - MIN) % 0x1_0000_0000_0000_0000 + MIN
  }

  function Mul(a: int64, b: int64): (r: int64)
    ensures Fits(a * b) ==> r == a * b
    ensures (r - a * b) % 0x1_0000_0000_0000_0000 == 0
  {
    Wrap(a * b)
  }

  function Abs(x: int): nat {
    if x < 0 then -x else x
  }

  /** The exact quotient, truncated toward zero. */
  function Quotient(a: int, b: int): int
    requires b != 0
  {
    var q := Abs(a) / Abs(b);
    if (a < 0) == (b < 0) then q else -q
  }

  function Div(a: int64, b: int64): int64
    requires b != 0
  {
    Wrap(Quotient(a, b))
  }

  lemma DivisionBounds(a: nat, n: int)
    requires n > 0
    ensures (a / n) * n <= a < (a / n) * n + n
  {
  }

  lemma UniqueQuotient(a: nat, n: int, q: int)
    requires n > 0 && q * n <= a < q * n + n
    ensures a / n == q
  {
    DivisionBounds(a, n);
    var p := a / n;
    if p < q {
      ProductOrder(p + 1, q, n);
    } else if p > q {
      ProductOrder(q + 1, p, n);
    }
  }

  lemma ProductOrder(a: int, b: int, n: int)
    requires a <= b && n >= 0
    ensures a * n <= b * n
  {
  }

  /** The truncated quotient by a positive divisor, by its defining bounds. */
  lemma QuotientBounds(t: int, n: int)
    requires n > 0
    ensures var q := Quotient(t, n);
      && (t >= 0 ==> q * n <= t < q * n + n && 0 <= q <= t)
      && (t < 0 ==> q * n - n < t <= q * n && t <= q <= 0)
  {
    var a := Abs(t);
    var p := a / n;
    DivisionBounds(a, n);
    assert p >= 0 && p <= a by {
      ProductOrder(1, n, p);
    }
    if t < 0 {
      NegatedProduct(p, n);
      assert Quotient(t, n) == -p;
    } else {
      assert Quotient(t, n) == p;
    }
  }

  /** Changing the sign of the divisor changes the sign of the quotient. */
  lemma QuotientNegated(t: int, n: int)
    requires n > 0
    ensures Quotient(t, -n) == -Quotient(t, n)
  {
  }

  lemma NegatedProduct(a: int, n: int)
    ensures (-a) * n == -(a * n)
  {
  }

  lemma DivIsQuotient(t: int64, n: int64)
    requires n > 0
    ensures Div(t, n) == Quotient(t, n)
  {
    QuotientBounds(t, n);
  }

  /** Dividing a product by one factor gives back the other. */
  lemma QuotientOfProduct(m: int, n: int)
    requires n > 0
    ensures Quotient(m * n, n) == m
  {
    var k := Abs(m);
    UniqueQuotient(k * n, n, k);
    if m < 0 {
      assert m * n == -(k * n);
      assert m * n < 0 by {
        ProductOrder(1, k, n);
      }
      assert Abs(m * n) == k * n;
    } else {
      ProductOrder(0, m, n);
    }
  }

  /**
    Multiply, then divide by the same positive factor, in wrap-around arithmetic: the factor comes back exactly
    when the product fits. A wrapped product never happens to divide back to the original value.
   */
  lemma MulDivExact(m: int64, n: int64)
    requires n > 0
    ensures Div(Mul(m, n), n) == m <==> Fits(m * n)
  {
    var w := Mul(m, n);
    DivIsQuotient(w, n);
    if Fits(m * n) {
      QuotientOfProduct(m, n);
    } else {
      // Were the quotient m, the bounds would put the product in the range of the wrapped value.
      QuotientBounds(w, n);
    }
  }
}
