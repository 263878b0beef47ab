/** Products and quotients of reals, under a name, so that the solver meets one of them at a time. */
module Reals {

  function Product(a: real, b: real): real { a * b }

  lemma ProductPositive(x: real, y: real)
    requires x > 0.0 && y > 0.0
    ensures Product(x, y) > 0.0
  {
  }

  lemma Distributes(m: real, s: real, t: real)
    ensures Product(m, s + t) == Product(m, s) + Product(m, t)
    ensures Product(m, s - t) == Product(m, s) - Product(m, t)
  {
  }

  lemma Commutes(x: real, y: real)
    ensures Product(x, y) == Product(y, x)
  {
  }

  lemma OneMore(n: real, c: real)
    ensures Product(n + 1.0, c) == Product(n, c) + c
  {
  }

  lemma Scales(k: real, x: real, y: real)
    ensures Product(Product(k, x), y) == Product(k, Product(x, y))
  {
  }

  lemma Negates(x: real, b: real)
    ensures Product(-x, b) == -Product(x, b) && Product(0.0, b) == 0.0
  {
  }

  /** Multiplying by a positive number keeps the sign. */
  lemma SignOfProduct(x: real, b: real)
    requires b > 0.0
    ensures x > 0.0 <==> Product(x, b) > 0.0
    ensures x < 0.0 <==> Product(x, b) < 0.0
  {
    Negates(x, b);
    if x > 0.0 {
      ProductPositive(x, b);
    } else if x < 0.0 {
      ProductPositive(-x, b);
    }
  }

  /** Multiplying by a positive number keeps the order. */
  lemma ProductsKeepOrder(x: real, y: real, m: real)
    requires m > 0.0
    ensures x <= y <==> Product(x, m) <= Product(y, m)
    ensures x < y <==> Product(x, m) < Product(y, m)
  {
    SignOfProduct(y - x, m);
    assert Product(y - x, m) == Product(y, m) - Product(x, m) by {
      Commutes(y - x, m);
      Commutes(y, m);
      Commutes(x, m);
      Distributes(m, y, x);
    }
  }

  lemma QuotientTimes(a: real, b: real)
    requires b != 0.0
    ensures Product(b, a / b) == a && Product(a / b, b) == a
  {
  }

  lemma Cancel(n: real, a: real, b: real)
    requires n != 0.0 && Product(n, a) == Product(n, b)
    ensures a == b
  {
    assert n * (a - b) == 0.0;
  }

  lemma SquareOfNegated(x: real)
    ensures Product(-x, -x) == Product(x, x)
  {
    assert (-x) * (-x) == x * x;
  }

  lemma SquareNonNegative(x: real)
    ensures Product(x, x) >= 0.0
    ensures Product(x, x) == 0.0 <==> x == 0.0
  {
    if x > 0.0 {
      ProductPositive(x, x);
    } else if x < 0.0 {
      ProductPositive(-x, -x);
      SquareOfNegated(x);
    }
  }
}
