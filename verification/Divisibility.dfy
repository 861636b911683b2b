/** Divisibility, and the greatest common divisor as a combination of its arguments. */
module Divisibility {

  ghost predicate Multiple(x: int, d: int, q: int) {
    x == d * q
  }

  ghost predicate Divides(d: int, x: int) {
    exists q :: Multiple(x, d, q)
  }

  lemma DividesSum(d: int, x: int, y: int, j: int, k: int)
    requires Divides(d, x) && Divides(d, y)
    ensures Divides(d, x * j + y * k)
  {
    var p :| Multiple(x, d, p);
    var q :| Multiple(y, d, q);
    assert x * j + y * k == d * (p * j + q * k) by {
      assert d * p * j == d * (p * j) && d * q * k == d * (q * k);
    }
    assert Multiple(x * j + y * k, d, p * j + q * k);
  }

  function Gcd(a: nat, b: nat): nat
    decreases b
  {
    if b == 0 then a else Gcd(b, a % b)
  }

  lemma EuclidStep(a: nat, b: nat, s: int, t: int)
    requires b > 0
    ensures a * t + b * (s - a / b * t) == b * s + a % b * t
  {
    var q := a / b;
    assert a == b * q + a % b;
    assert a * t == b * (q * t) + a % b * t by {
      assert (b * q + a % b) * t == b * q * t + a % b * t;
      assert b * q * t == b * (q * t);
    }
    assert b * (s - q * t) == b * s - b * (q * t);
  }

  lemma DividesStep(g: nat, a: nat, b: nat)
    requires b > 0 && Divides(g, b) && Divides(g, a % b)
    ensures Divides(g, a)
  {
    DividesSum(g, b, a % b, a / b, 1);
    assert b * (a / b) + a % b * 1 == a;
  }

  /** The gcd divides both numbers and is a combination of them. */
  lemma {:induction false} Bezout(a: nat, b: nat) returns (u: int, v: int)
    ensures Divides(Gcd(a, b), a) && Divides(Gcd(a, b), b)
    ensures a * u + b * v == Gcd(a, b)
    decreases b
  {
    var g := Gcd(a, b);
    if b == 0 {
      u, v := 1, 0;
      assert Multiple(a, g, 1) && Multiple(b, g, 0);
    } else {
      var s, t := Bezout(b, a % b);
      u, v := t, s - a / b * t;
      EuclidStep(a, b, s, t);
      DividesStep(g, a, b);
    }
  }

  lemma GcdPositive(a: nat, b: nat)
    requires a > 0
    ensures Gcd(a, b) > 0
    decreases b
  {
    if b != 0 {
      GcdPositive(b, a % b);
    }
  }

  lemma Grows(d: int, a: int)
    requires d > 0
    ensures (a >= 1 ==> d * a >= d) && (a <= -1 ==> d * a <= -d)
  {
  }

  lemma ExactQuotient(x: nat, d: nat, q: int)
    requires d > 0 && x == d * q
    ensures x / d == q
  {
    var r := x / d;
    assert d * (q - r) == x % d by {
      assert x == d * r + x % d;
      assert d * (q - r) == d * q - d * r;
    }
    Grows(d, q - r);
  }

  lemma CancelFactor(g: nat, x: int, y: int)
    requires g > 0 && g * x == g * y
    ensures x == y
  {
    assert g * (x - y) == g * x - g * y;
    Grows(g, x - y);
  }

  lemma NoSmallMultiple(n: nat, k: nat)
    requires 0 < k < n
    ensures !Divides(n, k)
  {
  }

  lemma PositiveFactor(x: nat, g: nat, n: int)
    requires x > 0 && g > 0 && x == g * n
    ensures n > 0
  {
    Grows(g, n);
  }

  lemma DividesTrans(g: int, d: int, x: int)
    requires Divides(g, d) && Divides(d, x)
    ensures Divides(g, x)
  {
    var p :| Multiple(d, g, p);
    var q :| Multiple(x, d, q);
    assert g * p * q == g * (p * q);
    assert Multiple(x, g, p * q);
  }

  lemma DivMod(z: int, n: nat) returns (k: nat, q: int)
    requires n > 0
    ensures k < n && k == z - n * q
  {
    k, q := z % n, z / n;
  }
}
