/** Euclid's algorithm and what makes a reduced pair unique. */
module NumberTheory {
  function Gcd(a: nat, b: nat): (g: nat)
    ensures a + b > 0 ==> g > 0
    decreases b
  {
    if b == 0 then a else Gcd(b, a % b)
  }

  ghost predicate Divides(d: int, a: int) {
    exists k: int {:trigger d * k} :: a == d * k
  }

  lemma Assoc(a: int, b: int, c: int)
    ensures (a * b) * c == a * (b * c)
  {}

  lemma Spread(a: int, b: int, c: int)
    ensures a * (b + c) == a * b + a * c
  {}

  lemma MulStrict(g: int, x: int, y: int)
    requires g > 0 && x < y
    ensures g * x < g * y
  {}

  lemma MulMono(g: int, x: int, y: int)
    requires g >= 0 && x <= y
    ensures g * x <= g * y
  {}

  lemma CancelLeft(g: int, x: int, y: int)
    requires g > 0 && g * x == g * y
    ensures x == y
  {
    if x < y { MulStrict(g, x, y); }
    if x > y { MulStrict(g, y, x); }
  }

  lemma DivExact(g: int, a: nat, k: int)
    requires g > 0 && a == g * k
    ensures a / g == k && k >= 0
  {
    if k < 0 { MulStrict(g, k, 0); }
    if k < a / g { MulMono(g, k + 1, a / g); Spread(g, k, 1); }
    if k > a / g { MulMono(g, a / g + 1, k); Spread(g, a / g, 1); }
  }

  /** The gcd divides both arguments. */
  lemma {:induction false} GcdDivides(a: nat, b: nat)
    ensures Divides(Gcd(a, b), a) && Divides(Gcd(a, b), b)
    decreases b
  {
    var g := Gcd(a, b);
    if b == 0 {
      assert a == g * 1 && b == g * 0;
    } else {
      GcdDivides(b, a % b);
      var k :| b == g * k;
      var m :| a % b == g * m;
      Assoc(g, k, a / b);
      Spread(g, k * (a / b), m);
      assert a == g * (k * (a / b) + m);
    }
  }

  /** Bezout coefficients of the Euclidean algorithm. */
  lemma {:induction false} Bezout(a: nat, b: nat) returns (x: int, y: int)
    ensures a * x + b * y == Gcd(a, b)
    decreases b
  {
    if b == 0 {
      x, y := 1, 0;
    } else {
      var u, v := Bezout(b, a % b);
      var q := a / b;
      x, y := v, u - q * v;
      Spread(b, u, -(q * v));
      Assoc(b, q, v);
      assert (b * q + a % b) * v == b * q * v + (a % b) * v;
    }
  }

  lemma DivisorOfOne(d: nat, k: int)
    requires d * k == 1
    ensures d == 1
  {
    if k <= 0 { MulMono(d, k, 0); }
    if d >= 2 && k >= 1 { MulMono(k, 2, d); }
  }

  /** Two numbers with a unit combination have no common factor. */
  lemma CoprimeFromBezout(a: nat, b: nat, x: int, y: int)
    requires a * x + b * y == 1
    ensures Gcd(a, b) == 1
  {
    var g := Gcd(a, b);
    GcdDivides(a, b);
    var k :| a == g * k;
    var m :| b == g * m;
    Assoc(g, k, x);
    Assoc(g, m, y);
    Spread(g, k * x, m * y);
    DivisorOfOne(g, k * x + m * y);
  }

  lemma Regroup(n: int, d: int, q: int, p: int, x: int, y: int)
    requires n * q == p * d && n * x + d * y == 1
    ensures q == d * (p * x + q * y)
  {
    Spread(q, n * x, d * y);
    assert q * (n * x) == (n * q) * x by { Assoc(q, n, x); }
    assert (p * d) * x == d * (p * x) by { Assoc(d, p, x); }
    assert q * (d * y) == d * (q * y) by { Assoc(q, d, y); Assoc(d, q, y); }
    Spread(d, p * x, q * y);
  }

  /** Euclid's lemma. */
  lemma EuclidLemma(n: nat, d: nat, q: int, p: int)
    requires Gcd(n, d) == 1 && n * q == p * d
    ensures Divides(d, q)
  {
    var x, y := Bezout(n, d);
    Regroup(n, d, q, p, x, y);
  }

  /** Dividing by the gcd leaves a reduced pair. */
  lemma ReducedByGcd(a: nat, b: nat)
    requires a + b > 0
    ensures var g := Gcd(a, b); a == g * (a / g) && b == g * (b / g) && Gcd(a / g, b / g) == 1
  {
    var g := Gcd(a, b);
    GcdDivides(a, b);
    var k :| a == g * k;
    var m :| b == g * m;
    DivExact(g, a, k);
    DivExact(g, b, m);
    var x, y := Bezout(a, b);
    Assoc(g, k, x);
    Assoc(g, m, y);
    Spread(g, k * x, m * y);
    CancelLeft(g, k * x + m * y, 1);
    CoprimeFromBezout(k, m, x, y);
  }

  function Abs(x: int): nat { if x < 0 then -x else x }

  lemma AbsMul(a: int, b: nat)
    ensures Abs(a * b) == Abs(a) * b
  {
    if a >= 0 { MulMono(b, 0, a); } else { MulMono(b, a, 0); Spread(b, a, -a); }
  }

  /** Any other way of writing a reduced fraction has parts at least as large. */
  lemma LowestTermsSmallest(n: int, d: int, p: int, q: int)
    requires d > 0 && q > 0 && Gcd(Abs(n), d) == 1
    requires n * q == p * d
    ensures d <= q && Abs(n) <= Abs(p)
  {
    AbsMul(n, q);
    AbsMul(p, d);
    var a, b := Abs(n), Abs(p);
    EuclidLemma(a, d, q, b);
    var k :| q == d * k;
    if k <= 0 { MulMono(d, k, 0); }
    MulMono(d, 1, k);
    assert d * (a * k) == d * b by { Assoc(d, a, k); Assoc(a, d, k); }
    CancelLeft(d, a * k, b);
    MulMono(a, 1, k);
  }
}
