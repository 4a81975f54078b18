/** Quotients and remainders, as the number formats of the repository need them. */
module Division {

  lemma Quotient(x: int, p: nat, q: int, r: nat)
    requires x == q * p + r && r < p
    ensures x / p == q && x % p == r
  {
    var d := x / p - q;
    assert d * p == r - x % p by {
      assert x == p * (x / p) + x % p;
      assert d * p == (x / p) * p - q * p;
    }
    assert (d >= 1 ==> d * p >= p) && (d <= -1 ==> d * p <= -1 * p);
  }

  /** Dividing twice is dividing by the product. */
  lemma DivideTwice(x: int, a: nat, b: nat)
    requires a > 0 && b > 0
    ensures a * b > 0 && (x / a) / b == x / (a * b)
  {
    var y, t := x / a, x % a;
    Regroup(x, a, b, y, t, y / b, y % b);
    Quotient(x, a * b, y / b, a * (y % b) + t);
  }

  lemma Regroup(x: int, a: nat, b: nat, y: int, t: nat, q: int, r: nat)
    requires x == a * y + t && t < a && y == b * q + r && r < b
    ensures x == q * (a * b) + (a * r + t) && 0 <= a * r + t < a * b
  {
    Distribute(a, b * q, r);
    Rotate(a, b, q);
    Distribute(a, b - 1 - r, r + 1);
    Distribute(a, r, 1);
    NotNegative(a, b - 1 - r);
    NotNegative(a, r);
  }

  lemma Distribute(a: int, x: int, y: int)
    ensures a * (x + y) == a * x + a * y
  {
  }

  lemma Rotate(a: int, b: int, q: int)
    ensures a * (b * q) == q * (a * b)
  {
    assert a * (b * q) == (a * b) * q;
  }

  lemma NotNegative(a: nat, x: nat)
    ensures a * x >= 0
  {
  }

  /** Adding a multiple of the divisor. */
  lemma DivideShifted(x: int, p: nat, c: int)
    requires p > 0
    ensures (x + c * p) / p == x / p + c && (x + c * p) % p == x % p
  {
    assert x + c * p == (x / p + c) * p + x % p by {
      assert x == p * (x / p) + x % p;
      assert (x / p + c) * p == p * (x / p) + c * p;
    }
    Quotient(x + c * p, p, x / p + c, x % p);
  }

  lemma AddRemainders(x: int, y: int, p: nat)
    requires p > 0
    ensures (x % p + y % p) % p == (x + y) % p
  {
    var c := -(x / p) - y / p;
    assert x % p + y % p == x + y + c * p by {
      assert c * p == -(x / p) * p - (y / p) * p;
    }
    DivideShifted(x + y, p, c);
  }
}
