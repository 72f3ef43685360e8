/** Exact fraction leaves: the 32/64-bit integer arithmetic of the leaf layer and the
    number theory that makes a reduced fraction a canonical key. */
module Fractions {
  import opened NumberTheory

  const INT32_MAX: int := 0x7FFF_FFFF
  const INT32_MIN: int := -0x8000_0000

  newtype i32 = x: int | -0x8000_0000 <= x < 0x8000_0000
  newtype u32 = x: int | 0 <= x < 0x1_0000_0000
  newtype i64 = x: int | -0x8000_0000_0000_0000 <= x < 0x8000_0000_0000_0000
  newtype u64 = x: int | 0 <= x < 0x1_0000_0000_0000_0000

  datatype Option<T> = None | Some(value: T)

  /** A stored leaf value: numerator over denominator. */
  datatype Frac = Frac(n: int, d: int)

  // ---------------------------------------------------------------- canonical fractions

  /** The stored form: positive denominator, lowest terms, both parts within int32. */
  predicate Canonical(q: Frac) {
    0 < q.d <= INT32_MAX && Abs(q.n) <= INT32_MAX && Gcd(Abs(q.n), q.d) == 1
  }

  function Value(q: Frac): real
    requires q.d != 0
  {
    q.n as real / q.d as real
  }

  /** Some pair of int32-sized parts has this value. */
  ghost predicate Representable(v: real) {
    exists n: int, d: int :: IsRatio(v, n, d)
  }

  predicate IsRatio(v: real, n: int, d: int) {
    0 < d <= INT32_MAX && Abs(n) <= INT32_MAX && v == n as real / d as real
  }

  lemma CrossMultiply(n: int, d: int, p: int, q: int)
    requires d != 0 && q != 0
    ensures n as real / d as real == p as real / q as real <==> n * q == p * d
  {
    var a, b, c, e := n as real, d as real, p as real, q as real;
    assert (n * q) as real == a * e;
    assert (p * d) as real == c * b;
    if a / b == c / e {
      assert a == (a / b) * b;
      assert c == (c / e) * e;
      assert a * e == (a / b) * b * e;
      assert c * b == (c / e) * e * b;
    }
    if a * e == c * b {
      assert a / b == (a * e) / (b * e);
      assert c / e == (c * b) / (b * e);
    }
  }

  lemma CanonicalRepresentable(q: Frac)
    requires Canonical(q)
    ensures Representable(Value(q))
  {
    assert IsRatio(Value(q), q.n, q.d);
  }

  /** Equal values have equal canonical forms, so a packed fraction is a key for its value. */
  lemma CanonicalUnique(p: Frac, q: Frac)
    requires Canonical(p) && Canonical(q) && Value(p) == Value(q)
    ensures p == q
  {
    CrossMultiply(p.n, p.d, q.n, q.d);
    LowestTermsSmallest(p.n, p.d, q.n, q.d);
    LowestTermsSmallest(q.n, q.d, p.n, p.d);
    assert p.d == q.d;
    CancelLeft(p.d, p.n, q.n);
  }

  // ---------------------------------------------------------------- packing

  /** Two's complement numerator in the high word, denominator in the low word. */
  function Pack(n: i32, d: u32): (k: u64) {
    ((if n < 0 then n as int + 0x1_0000_0000 else n as int) * 0x1_0000_0000 + d as int) as u64
  }

  function UnpackNumer(k: u64): i32 {
    var hi := (k as int) / 0x1_0000_0000;
    (if hi >= 0x8000_0000 then hi - 0x1_0000_0000 else hi) as i32
  }

  function UnpackDenom(k: u64): u32 {
    ((k as int) % 0x1_0000_0000) as u32
  }

  lemma PackRoundTrip(n: i32, d: u32)
    ensures UnpackNumer(Pack(n, d)) == n && UnpackDenom(Pack(n, d)) == d
  {
    var hi := if n < 0 then n as int + 0x1_0000_0000 else n as int;
    assert Pack(n, d) as int == hi * 0x1_0000_0000 + d as int;
    assert (hi * 0x1_0000_0000 + d as int) / 0x1_0000_0000 == hi;
  }

  /** Canonical fractions have the same packed key exactly when they have the same value. */
  lemma PackKeysValues(p: Frac, q: Frac)
    requires Canonical(p) && Canonical(q)
    ensures Pack(p.n as i32, p.d as u32) == Pack(q.n as i32, q.d as u32) <==> Value(p) == Value(q)
  {
    if Value(p) == Value(q) {
      CanonicalUnique(p, q);
    }
    PackRoundTrip(p.n as i32, p.d as u32);
    PackRoundTrip(q.n as i32, q.d as u32);
  }

  // ---------------------------------------------------------------- normalisation

  method GcdU32(a0: u32, b0: u32) returns (g: u32)
    ensures g as int == Gcd(a0 as int, b0 as int)
  {
    var a, b := a0, b0;
    while b != 0
      invariant Gcd(a as int, b as int) == Gcd(a0 as int, b0 as int)
      decreases b
    {
      var t := a % b;
      a := b;
      b := t;
    }
    g := a;
  }

  method GcdU64(a0: u64, b0: u64) returns (g: u64)
    ensures g as int == Gcd(a0 as int, b0 as int)
  {
    var a, b := a0, b0;
    while b != 0
      invariant Gcd(a as int, b as int) == Gcd(a0 as int, b0 as int)
      decreases b
    {
      var t := a % b;
      a := b;
      b := t;
    }
    g := a;
  }

  lemma QuotientBound(a: nat, g: nat)
    requires g > 0
    ensures 0 <= a / g <= a
  {
    MulMono(a / g, 1, g);
  }

  /** Divide both parts through by their gcd. */
  method ReduceU32(a: u32, b: u32) returns (x: u32, y: u32)
    requires a > 0 && b > 0
    ensures Frac(x as int, y as int) == Reduce(false, a as int, b as int)
  {
    var g := GcdU32(a, b);
    QuotientBound(a as int, g as int);
    QuotientBound(b as int, g as int);
    x, y := a / g, b / g;
  }

  method ReduceU64(a: u64, b: u64) returns (x: u64, y: u64)
    requires a > 0 && b > 0
    ensures Frac(x as int, y as int) == Reduce(false, a as int, b as int)
  {
    var g := GcdU64(a, b);
    QuotientBound(a as int, g as int);
    QuotientBound(b as int, g as int);
    x, y := a / g, b / g;
  }

  /** A fraction in lowest terms is representable exactly when its own parts fit. */
  lemma RepresentableIffFits(q: Frac)
    requires q.d > 0 && Gcd(Abs(q.n), q.d) == 1
    ensures Representable(Value(q)) <==> Abs(q.n) <= INT32_MAX && q.d <= INT32_MAX
  {
    if Abs(q.n) <= INT32_MAX && q.d <= INT32_MAX {
      assert IsRatio(Value(q), q.n, q.d);
    }
    if Representable(Value(q)) {
      var p, e :| IsRatio(Value(q), p, e);
      CrossMultiply(q.n, q.d, p, e);
      LowestTermsSmallest(q.n, q.d, p, e);
    }
  }

  /** The signed fraction with numerator magnitude a over b, divided through by the gcd. */
  function Reduce(neg: bool, a: nat, b: nat): Frac
    requires a > 0 && b > 0
  {
    var g := Gcd(a, b);
    Frac(if neg then -(a / g) else a / g, b / g)
  }

  function Signed(neg: bool, a: nat): int { if neg then 0 - a else a }

  lemma ReduceParts(neg: bool, a: nat, b: nat)
    requires a > 0 && b > 0
    ensures var q := Reduce(neg, a, b);
            0 < q.d <= b && 0 < Abs(q.n) <= a && Gcd(Abs(q.n), q.d) == 1
  {
    ReducedByGcd(a, b);
    var g := Gcd(a, b);
    PositivePart(g, a / g);
    PositivePart(g, b / g);
  }

  lemma PositivePart(g: int, x: int)
    requires g > 0 && g * x > 0
    ensures 0 < x <= g * x
  {
    if x <= 0 { MulMono(g, x, 0); }
    if x > 0 { MulMono(x, 1, g); }
  }

  lemma ReduceCross(neg: bool, a: nat, b: nat)
    requires a > 0 && b > 0
    ensures Reduce(neg, a, b).n * b == Signed(neg, a) * Reduce(neg, a, b).d
  {
    ReducedByGcd(a, b);
    var g := Gcd(a, b);
    CrossOf(g, a / g, b / g, a, b);
    NegCross(a / g, b, a, b / g);
  }

  lemma CrossOf(g: int, n: int, d: int, a: int, b: int)
    requires a == g * n && b == g * d
    ensures n * b == a * d
  {
    Assoc(n, g, d);
    Assoc(g, n, d);
    assert n * g == g * n;
  }

  lemma NegCross(n: int, b: int, a: int, d: int)
    requires n * b == a * d
    ensures (0 - n) * b == (0 - a) * d
  {
    assert (0 - n) * b == 0 - n * b;
    assert (0 - a) * d == 0 - a * d;
  }

  lemma ReduceExact(neg: bool, a: nat, b: nat)
    requires a > 0 && b > 0
    ensures var q := Reduce(neg, a, b);
            q.d > 0 && Value(q) == Signed(neg, a) as real / b as real
  {
    ReduceParts(neg, a, b);
    ReduceCross(neg, a, b);
    var q := Reduce(neg, a, b);
    CrossMultiply(q.n, q.d, Signed(neg, a), b);
  }

  lemma SameSignRatio(n: int, d: int)
    requires d != 0
    ensures (-n) as real / (-d) as real == n as real / d as real
  {
    assert (-n) * d == n * (-d);
    CrossMultiply(-n, -d, n, d);
  }

  lemma ZeroRatio(d: int)
    requires d != 0
    ensures 0 as real / d as real == Value(Frac(0, 1)) && Canonical(Frac(0, 1))
  {
    CrossMultiply(0, d, 0, 1);
    assert Gcd(0, 1) == Gcd(1, 0);
  }

  /** When the public constructor accepts numer/denom: the sign flip of a negative
      denominator must be possible and the reduced numerator must fit. */
  predicate Accepts(n: int, d: int) {
    && d != 0
    && !(d < 0 && n == INT32_MIN)
    && Abs(n) / Gcd(Abs(n), Abs(d)) <= INT32_MAX
  }

  function NormalForm(n: int, d: int): Option<Frac> {
    if !Accepts(n, d) then None
    else if n == 0 then Some(Frac(0, 1))
    else Some(Reduce(n < 0 <==> d > 0, Abs(n), Abs(d)))
  }

  lemma NormalFormExact(n: int, d: int)
    requires Accepts(n, d) && INT32_MIN <= n <= INT32_MAX && INT32_MIN <= d <= INT32_MAX
    ensures var q := NormalForm(n, d).value;
            && 0 < q.d && Value(q) == n as real / d as real
            && Gcd(Abs(q.n), q.d) == 1 && Abs(q.n) <= INT32_MAX && q.d <= 0x8000_0000
            && (d != INT32_MIN ==> Canonical(q))
  {
    if n == 0 {
      ZeroRatio(d);
    } else {
      var neg := n < 0 <==> d > 0;
      ReduceParts(neg, Abs(n), Abs(d));
      ReduceExact(neg, Abs(n), Abs(d));
      SameSignRatio(n, d);
    }
  }

  /** Canonical form of numer/denom. The result is exact whenever there is one; its
      denominator leaves the int32 range only for the argument INT32_MIN. */
  method Normalize(n0: i32, d0: i32) returns (r: Option<Frac>)
    ensures r == NormalForm(n0 as int, d0 as int)
    ensures r.Some? <==> Accepts(n0 as int, d0 as int)
    ensures r.Some? ==> r.value.d > 0 && Value(r.value) == n0 as int as real / d0 as int as real
    ensures r.Some? && d0 as int != INT32_MIN ==> Canonical(r.value)
    ensures r.Some? && !Canonical(r.value) ==> r.value.d == 0x8000_0000
  {
    if Accepts(n0 as int, d0 as int) {
      NormalFormExact(n0 as int, d0 as int);
    }
    var n, d := n0, d0;
    if d == 0 { return None; }
    var ud: u32;
    if d < 0 {
      if n as int == INT32_MIN { return None; }
      n := -n;
      ud := (-(d as int)) as u32;
    } else {
      ud := d as u32;
    }
    if n == 0 {
      AcceptsZero(d0 as int);
      return Some(Frac(0, 1));
    }
    var absN: u32 := if n < 0 then (-(n as int)) as u32 else n as u32;
    absN, ud := ReduceU32(absN, ud);
    if absN as int > INT32_MAX { return None; }
    r := Some(Frac(if n < 0 then -(absN as int) else absN as int, ud as int));
  }

  lemma AcceptsZero(d: int)
    requires d != 0
    ensures Accepts(0, d)
  {
    assert Gcd(0, Abs(d)) == Gcd(Abs(d), 0);
    assert 0 / Abs(d) == 0;
  }

  /** The constructor rejects representable values: INT32_MIN / -2 is 2^30. */
  lemma NormalizeRejectsRepresentable()
    ensures !Accepts(INT32_MIN, -2) && Representable(INT32_MIN as real / (-2) as real)
  {
    CrossMultiply(INT32_MIN, -2, 0x4000_0000, 1);
    assert IsRatio(INT32_MIN as real / (-2) as real, 0x4000_0000, 1);
  }

  /** Away from the two int32 corner arguments, acceptance is exactly representability. */
  lemma AcceptsIffRepresentable(n: int, d: int)
    requires INT32_MIN <= n <= INT32_MAX && INT32_MIN < d <= INT32_MAX && d != 0
    ensures Accepts(n, d) <==> Representable(n as real / d as real) && !(d < 0 && n == INT32_MIN)
  {
    if n == 0 {
      ZeroRatio(d);
      CanonicalRepresentable(Frac(0, 1));
      AcceptsZero(d);
    } else {
      var neg := n < 0 <==> d > 0;
      var q := Reduce(neg, Abs(n), Abs(d));
      ReduceParts(neg, Abs(n), Abs(d));
      ReduceExact(neg, Abs(n), Abs(d));
      SameSignRatio(n, d);
      RepresentableIffFits(q);
    }
  }

  /** The reduced fraction of n/d, if its parts fit. */
  ghost function Fitted(n: int, d: int): Option<Frac> {
    if d == 0 then None
    else if n == 0 then Some(Frac(0, 1))
    else
      var q := Reduce(n < 0 <==> d > 0, Abs(n), Abs(d));
      if Abs(q.n) <= INT32_MAX && q.d <= INT32_MAX then Some(q) else None
  }

  lemma FittedIffRepresentable(n: int, d: int)
    ensures Fitted(n, d).Some? <==> d != 0 && Representable(n as real / d as real)
    ensures Fitted(n, d).Some? ==>
              Canonical(Fitted(n, d).value) && Value(Fitted(n, d).value) == n as real / d as real
  {
    if d != 0 {
      if n == 0 {
        ZeroRatio(d);
        CanonicalRepresentable(Frac(0, 1));
      } else {
        var neg := n < 0 <==> d > 0;
        ReduceParts(neg, Abs(n), Abs(d));
        ReduceExact(neg, Abs(n), Abs(d));
        SameSignRatio(n, d);
        RepresentableIffFits(Reduce(neg, Abs(n), Abs(d)));
      }
    }
  }

  /** A canonical fraction is its own normal form. */
  lemma NormalFormFixed(q: Frac)
    requires Canonical(q)
    ensures NormalForm(q.n, q.d) == Some(q)
  {
    if q.n == 0 {
      AcceptsZero(q.d);
      assert Gcd(0, q.d) == Gcd(q.d, 0);
    }
  }

  function Product(x: real, y: real): real { x * y }

  /** r is the canonical fraction of value v, or v has none. */
  ghost predicate Exactly(v: real, r: Option<Frac>) {
    match r
    case None => !Representable(v)
    case Some(q) => Canonical(q) && Value(q) == v
  }

  lemma ExactlyRepresentable(v: real, r: Option<Frac>)
    requires Exactly(v, r)
    ensures r.Some? <==> Representable(v)
  {
    if r.Some? { CanonicalRepresentable(r.value); }
  }

  /** Exact int64 fraction to canonical leaf; fails exactly when the reduced value has no
      int32 form. No intermediate leaves its machine type. */
  method MakeFractionI64(n0: i64, d0: i64) returns (r: Option<Frac>)
    requires n0 as int > -0x8000_0000_0000_0000 && d0 as int > -0x8000_0000_0000_0000
    ensures if d0 == 0 then r == None else Exactly(n0 as int as real / d0 as int as real, r)
  {
    FittedIffRepresentable(n0 as int, d0 as int);
    r := FitI64(n0, d0);
  }

  method FitI64(n0: i64, d0: i64) returns (r: Option<Frac>)
    requires n0 as int > -0x8000_0000_0000_0000 && d0 as int > -0x8000_0000_0000_0000
    ensures r == Fitted(n0 as int, d0 as int)
  {
    var n, d := n0, d0;
    if d == 0 { return None; }
    if n == 0 { return Some(Frac(0, 1)); }
    if d < 0 {
      n := -n;
      d := -d;
    }
    var absN: u64 := if n < 0 then (-n) as u64 else n as u64;
    var ud := d as u64;
    ReduceParts(n < 0, absN as int, ud as int);
    absN, ud := ReduceU64(absN, ud);
    if absN as int > INT32_MAX || ud as int > INT32_MAX { return None; }
    var numer: i32 := if n < 0 then -(absN as i32) else absN as i32;
    var denom := ud as i32;
    NormalFormFixed(Frac(numer as int, denom as int));
    r := Normalize(numer, denom);
  }

  // ---------------------------------------------------------------- leaf arithmetic

  lemma ProductBound(a: int, b: int)
    requires Abs(a) <= INT32_MAX && Abs(b) <= INT32_MAX
    ensures Abs(a * b) <= INT32_MAX * INT32_MAX
  {
    AbsProduct(a, b);
    MulMono(Abs(a), Abs(b), INT32_MAX);
    MulMono(INT32_MAX, Abs(a), INT32_MAX);
  }

  lemma AbsProduct(a: int, b: int)
    ensures Abs(a * b) == Abs(a) * Abs(b)
  {
    AbsMul(a, Abs(b));
    if b < 0 { assert a * b == -(a * Abs(b)); }
  }

  method LeafAdd(a: Frac, b: Frac) returns (r: Option<Frac>)
    requires Canonical(a) && Canonical(b)
    ensures Exactly(Value(a) + Value(b), r)
  {
    ProductBound(a.n, b.d); ProductBound(b.n, a.d); ProductBound(a.d, b.d);
    var na, da, nb, db := a.n as i64, a.d as i64, b.n as i64, b.d as i64;
    assert a.d * b.d > 0;
    SumValue(a, b, 1);
    r := MakeFractionI64(na * db + nb * da, da * db);
  }

  method LeafSub(a: Frac, b: Frac) returns (r: Option<Frac>)
    requires Canonical(a) && Canonical(b)
    ensures Exactly(Value(a) - Value(b), r)
  {
    ProductBound(a.n, b.d); ProductBound(b.n, a.d); ProductBound(a.d, b.d);
    var na, da, nb, db := a.n as i64, a.d as i64, b.n as i64, b.d as i64;
    assert a.d * b.d > 0;
    SumValue(a, b, -1);
    r := MakeFractionI64(na * db - nb * da, da * db);
  }

  method LeafMul(a: Frac, b: Frac) returns (r: Option<Frac>)
    requires Canonical(a) && Canonical(b)
    ensures Exactly(Product(Value(a), Value(b)), r)
  {
    ProductBound(a.n, b.n); ProductBound(a.d, b.d);
    var na, da, nb, db := a.n as i64, a.d as i64, b.n as i64, b.d as i64;
    assert a.d * b.d > 0;
    ProductValue(a, b);
    r := MakeFractionI64(na * nb, da * db);
  }

  method LeafDiv(a: Frac, b: Frac) returns (r: Option<Frac>)
    requires Canonical(a) && Canonical(b)
    ensures if Value(b) == 0.0 then r == None else Exactly(Value(a) / Value(b), r)
  {
    ProductBound(a.n, b.d); ProductBound(a.d, b.n);
    var na, da, nb, db := a.n as i64, a.d as i64, b.n as i64, b.d as i64;
    ZeroValue(b);
    if nb == 0 { return None; }
    QuotientValue(a, b);
    r := MakeFractionI64(na * db, da * nb);
  }

  /** Negation of a canonical fraction always fits: the numerator is never INT32_MIN. */
  method LeafNegate(a: Frac) returns (r: Frac)
    requires Canonical(a)
    ensures Canonical(r) && Value(r) == -Value(a)
  {
    var n, d := a.n as i32, a.d as i32;
    NormalFormFixed(Frac(-a.n, a.d));
    NegateValue(a);
    var q := Normalize(-n, d);
    r := q.value;
  }

  lemma NegateValue(a: Frac)
    requires a.d > 0
    ensures Value(Frac(-a.n, a.d)) == -Value(a)
  {}

  lemma ZeroValue(q: Frac)
    requires q.d > 0
    ensures Value(q) == 0.0 <==> q.n == 0
  {
    CrossMultiply(q.n, q.d, 0, 1);
    assert 0 as real / 1 as real == 0.0;
  }

  lemma SumValue(a: Frac, b: Frac, s: int)
    requires a.d > 0 && b.d > 0 && (s == 1 || s == -1)
    requires a.d * b.d > 0
    ensures (a.n * b.d + s * (b.n * a.d)) as real / (a.d * b.d) as real == Value(a) + s as real * Value(b)
  {
    var x, y, u, v := a.n as real, a.d as real, b.n as real, b.d as real;
    assert x / y == (x * v) / (y * v);
    assert u / v == (u * y) / (y * v);
    assert (a.d * b.d) as real == y * v;
    assert (a.n * b.d) as real == x * v;
    assert (b.n * a.d) as real == u * y;
  }

  lemma ProductValue(a: Frac, b: Frac)
    requires a.d > 0 && b.d > 0 && a.d * b.d > 0
    ensures (a.n * b.n) as real / (a.d * b.d) as real == Product(Value(a), Value(b))
  {
    var x, y, u, v := a.n as real, a.d as real, b.n as real, b.d as real;
    assert (a.n * b.n) as real == x * u;
    assert (a.d * b.d) as real == y * v;
    assert (x / y) * (u / v) * (y * v) == x * u by {
      assert (x / y) * y == x;
      assert (u / v) * v == u;
      assert (x / y) * (u / v) * (y * v) == ((x / y) * y) * ((u / v) * v);
    }
  }

  lemma QuotientValue(a: Frac, b: Frac)
    requires a.d > 0 && b.d > 0 && b.n != 0
    ensures a.d * b.n != 0
    ensures Value(b) != 0.0
    ensures (a.n * b.d) as real / (a.d * b.n) as real == Value(a) / Value(b)
  {
    ZeroValue(b);
    if b.n > 0 { MulStrict(a.d, 0, b.n); } else { MulStrict(a.d, b.n, 0); }
    assert (a.n * b.d) as real == a.n as real * b.d as real;
    assert (a.d * b.n) as real == a.d as real * b.n as real;
    QuotientOfQuotients(a.n as real, a.d as real, b.n as real, b.d as real);
  }

  lemma CancelFactor(p: real, q: real, w: real)
    requires q != 0.0 && w != 0.0
    ensures q * w != 0.0 && (p * w) / (q * w) == p / q
  {
    assert ((p / q) * q) * w == (p / q) * (q * w);
  }

  lemma Swap(p: real, y: real, v: real)
    ensures (p * y) * v == p * (y * v) && y * (p * v) == p * (y * v)
  {}

  lemma QuotientOfQuotients(x: real, y: real, u: real, v: real)
    requires y != 0.0 && u != 0.0 && v != 0.0
    ensures u / v != 0.0 && y * u != 0.0 && (x * v) / (y * u) == (x / y) / (u / v)
  {
    var p, q := x / y, u / v;
    assert p * y == x && q * v == u;
    Swap(p, y, v);
    Swap(q, y, v);
    CancelFactor(p, q, y * v);
  }
}
