/** Division with remainder, common divisors. */
module Divisibility {

  predicate Prime(p: nat)
  {
    p >= 2 && forall d :: 2 <= d < p ==> p % d != 0
  }

  /** No common divisor but 1. */
  predicate Coprime(a: nat, n: nat)
  {
    forall d :: 2 <= d <= n && n % d == 0 ==> a % d != 0
  }

  /** Quotient and remainder are the only such numbers with a remainder below p. */
  lemma ModUnique(p: nat, x: int, q: int, r: nat)
    requires r < p && x == q * p + r
    ensures x % p == r && x / p == q
  {
    DivMod(x, p);
    Distribute(x / p, q, p);
    SmallMultiple(x / p - q, p);
  }

  /** A multiple of p nearer to 0 than p is 0. */
  lemma SmallMultiple(d: int, p: int)
    requires p >= 0
    ensures d >= 1 ==> d * p >= p
    ensures d <= -1 ==> d * p <= -p
  {
  }

  /** Multiples do not change the remainder. */
  lemma ModShift(p: nat, x: int, q: int)
    requires p > 0
    ensures (x + q * p) % p == x % p
  {
    DivMod(x, p);
    Distribute(x / p, -q, p);
    ModUnique(p, x + q * p, x / p + q, x % p);
  }

  /** Two numbers with the same remainder differ by a multiple. */
  lemma SameRemainder(p: nat, x: int, y: int)
    requires p > 0 && x % p == y % p
    ensures (x - y) % p == 0
  {
    var q := x / p - y / p;
    assert x - y == 0 + q * p by {
      DivMod(x, p);
      DivMod(y, p);
      Distribute(x / p, y / p, p);
    }
    ModShift(p, 0, q);
  }

  lemma DivMod(x: int, p: nat)
    requires p > 0
    ensures x == (x / p) * p + x % p
  {
  }

  lemma Distribute(a: int, b: int, p: int)
    ensures (a - b) * p == a * p - b * p
  {
  }

  lemma MultipleMod(k: int, p: nat)
    requires p > 0
    ensures (k * p) % p == 0
  {
    ModShift(p, 0, k);
  }

  /** The greatest common divisor as a combination, by Euclid's algorithm. */
  lemma {:induction false} Euclid(a: nat, n: nat) returns (g: nat, x: int, y: int)
    requires n > 0
    ensures 0 < g <= n && a % g == 0 && n % g == 0 && x * a + y * n == g
    decreases a
  {
    if a == 0 {
      g, x, y := n, 0, 1;
      MultipleMod(1, n);
    } else {
      var x', y';
      g, x', y' := Euclid(n % a, a);
      x, y := y' - x' * (n / a), x';
      EuclidStep(a, n, g, x', y');
    }
  }

  lemma EuclidStep(a: nat, n: nat, g: nat, x: int, y: int)
    requires a > 0 && n > 0 && 0 < g <= a && (n % a) % g == 0 && a % g == 0 && x * (n % a) + y * a == g
    ensures n % g == 0 && g <= n && (y - x * (n / a)) * a + x * n == g
  {
    var q, r := n / a, n % a;
    DivMod(n, a);
    DivMod(a, g);
    DivMod(r, g);
    CombineMultiples(q, a / g, r / g, g);
    MultipleMod(q * (a / g) + r / g, g);
    Exchange(x, y, q, a, r);
    SmallMultiple(q * (a / g) + r / g, g);
  }

  lemma CombineMultiples(q: int, k: int, m: int, g: int)
    ensures q * (k * g) + m * g == (q * k + m) * g
  {
  }

  lemma Exchange(x: int, y: int, q: int, a: int, r: int)
    ensures (y - x * q) * a + x * (q * a + r) == x * r + y * a
  {
  }

  /** A divisor of a product that is coprime to one factor divides the other. */
  lemma CoprimeDivides(p: nat, a: nat, b: nat)
    requires p > 0 && Coprime(a, p) && (a * b) % p == 0
    ensures b % p == 0
  {
    var g, x, y := Euclid(a, p);
    assert g == 1;
    DivMod(a * b, p);
    var m := a * b / p;
    AsMultiple(x, y, a, b, p, m);
    MultipleMod(x * m + y * b, p);
  }

  lemma AsMultiple(x: int, y: int, a: int, b: int, p: int, m: int)
    requires x * a + y * p == 1 && a * b == m * p
    ensures b == (x * m + y * b) * p
  {
    calc {
      b;
      (x * a + y * p) * b;
      x * (a * b) + (y * b) * p;
      x * (m * p) + (y * b) * p;
      (x * m + y * b) * p;
    }
  }

  /** With a prime size, every increment will do. */
  lemma PrimeCoprime(p: nat, a: nat)
    requires Prime(p) && 0 < a < p
    ensures Coprime(a, p)
  {
    forall d | 2 <= d <= p && p % d == 0 ensures a % d != 0 {
      assert d == p;
      ModUnique(p, a, 0, a);
    }
  }
}
