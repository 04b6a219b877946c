/**
  Integer modular arithmetic and point doubling on a short Weierstrass curve
  `y² = x³ + a·x + b` modulo `p` (src/curve.rs).

  The source works on `i64`; here every quantity is an unbounded `int`, and
  every `/` and `%` of the source is Rust's truncating one (`TDiv`, `TRem`).
  On the functions that model the code as written (`InverseMod`,
  `ModularDivision`, `Tangent`, `Double`), a `requires` clause stands for
  each place where the source panics: a remainder by zero and an `unwrap` of
  `None`. The corrected versions are defined for a positive modulus only.
 */
module EllipticCurve {
  import opened RustInt
  import opened Congruence

  datatype Option<T> = None | Some(value: T)

  /** An affine point `Pt(x, y)` or the point at infinity. */
  datatype Point = Pt(x: int, y: int) | Inf

  /** The curve `y² = x³ + a·x + b` over the integers modulo `p`. */
  datatype Curve = Curve(a: int, b: int, p: int)

  /** What the extended Euclidean algorithm returns. */
  datatype Bezout = Bezout(gcd: int, x: int, y: int)

  // ---------------------------------------------------------------------
  // Extended Euclidean algorithm
  // ---------------------------------------------------------------------

  /** Extended Euclid, recursing on `(b % a, a)`. */
  function Egcd(a: int, b: int): Bezout
    decreases Abs(a)
  {
    if a == 0 then Bezout(b, 0, 1)
    else
      var e := Egcd(TRem(b, a), a);
      Bezout(e.gcd, e.y - TDiv(b, a) * e.x, e.x)
  }

  /** The base case: `egcd(0, b) == (b, 0, 1)`. */
  lemma EgcdBase(b: int)
    ensures Egcd(0, b) == Bezout(b, 0, 1)
  {
  }

  /** The recursion is well-founded: `|b % a| < |a|` for every `a != 0`. */
  lemma EgcdRecursionShrinks(a: int, b: int)
    requires a != 0
    ensures Abs(TRem(b, a)) < Abs(a)
  {
  }

  /** The Bézout identity `gcd == a·x + b·y` holds for every input. */
  lemma {:induction false} EgcdBezout(a: int, b: int)
    ensures var e := Egcd(a, b); e.gcd == a * e.x + b * e.y
    decreases Abs(a)
  {
    if a != 0 {
      var e := Egcd(TRem(b, a), a);
      EgcdBezout(TRem(b, a), a);
      BezoutStep(a, b, TDiv(b, a), TRem(b, a), e.gcd, e.x, e.y);
    }
  }

  /** One step of the Bézout identity, from `(b % a, a)` back to `(a, b)`. */
  lemma BezoutStep(a: int, b: int, q: int, r: int, g: int, x1: int, y1: int)
    requires b == q * a + r && g == r * x1 + a * y1
    ensures g == a * (y1 - q * x1) + b * x1
  {
    calc {
      a * (y1 - q * x1) + b * x1;
      a * y1 + (b - q * a) * x1;
      a * y1 + r * x1;
    }
  }

  /** The `gcd` returned divides both arguments, whatever their signs. */
  lemma {:induction false} EgcdDivides(a: int, b: int)
    ensures Divides(Egcd(a, b).gcd, a) && Divides(Egcd(a, b).gcd, b)
    decreases Abs(a)
  {
    var g := Egcd(a, b).gcd;
    if a == 0 {
      DividesIntro(b, 0, 0);
      DividesIntro(b, b, 1);
    } else {
      EgcdDivides(TRem(b, a), a);
      assert g == Egcd(TRem(b, a), a).gcd;
      StepDivides(g, a, b, TDiv(b, a), TRem(b, a));
    }
  }

  lemma StepDivides(g: int, a: int, b: int, q: int, r: int)
    requires b == q * a + r && Divides(g, r) && Divides(g, a)
    ensures Divides(g, b)
  {
    DividesLinear(g, a, r, q, 1);
    assert b == q * a + 1 * r;
  }

  /** Every common divisor of `a` and `b` divides the returned `gcd`. */
  lemma EgcdGreatest(a: int, b: int, d: int)
    requires Divides(d, a) && Divides(d, b)
    ensures Divides(d, Egcd(a, b).gcd)
  {
    var e := Egcd(a, b);
    EgcdBezout(a, b);
    BezoutCommonDivisor(d, a, b, e.gcd, e.x, e.y);
  }

  lemma BezoutCommonDivisor(d: int, a: int, b: int, g: int, x: int, y: int)
    requires Divides(d, a) && Divides(d, b) && g == a * x + b * y
    ensures Divides(d, g)
  {
    DividesLinear(d, a, b, x, y);
    assert g == x * a + y * b;
  }

  /** On non-negative arguments the returned `gcd` is non-negative. */
  lemma {:induction false} EgcdNonNegative(a: int, b: int)
    requires a >= 0 && b >= 0
    ensures Egcd(a, b).gcd >= 0
    decreases a
  {
    if a != 0 {
      EgcdNonNegative(TRem(b, a), a);
    }
  }

  /** On non-negative arguments, `egcd` yields the greatest common divisor. */
  lemma EgcdIsGcd(a: int, b: int)
    requires a >= 0 && b >= 0
    ensures var g := Egcd(a, b).gcd;
      && g >= 0 && Divides(g, a) && Divides(g, b)
      && forall d :: Divides(d, a) && Divides(d, b) ==> Divides(d, g)
  {
    EgcdNonNegative(a, b);
    EgcdDivides(a, b);
    forall d | Divides(d, a) && Divides(d, b)
      ensures Divides(d, Egcd(a, b).gcd)
    {
      EgcdGreatest(a, b, d);
    }
  }

  /** Each recursive step hands the `gcd` back unchanged. */
  lemma EgcdGcdStep(a: int, b: int)
    requires a != 0
    ensures Egcd(a, b).gcd == Egcd(TRem(b, a), a).gcd
  {
  }

  // ---------------------------------------------------------------------
  // Modular inverse
  // ---------------------------------------------------------------------

  /**
    `inverse_mod(a, m)`: the Bézout coefficient of `a`, brought into the
    range of `m`, when `egcd` reports a gcd of exactly 1. Rust's `x % m`
    panics for `m == 0`, which only matters when an inverse is returned.
   */
  function InverseMod(a: int, m: int): (r: Option<int>)
    requires Egcd(a, m).gcd == 1 ==> m != 0
    ensures r.Some? <==> Egcd(a, m).gcd == 1
    ensures r.Some? ==> Congruent(a * r.value, 1, m)
    ensures r.Some? && m > 0 ==> 0 <= r.value < m
    ensures r.Some? && m < 0 ==> m < r.value <= 0
  {
    var e := Egcd(a, m);
    if e.gcd == 1 then
      var r := TRem(TRem(e.x, m) + m, m);
      EgcdBezout(a, m);
      ReduceCongruent(e.x, m);
      BezoutInverse(a, m, e.x, e.y, r);
      Some(r)
    else
      None
  }

  /** A value congruent to the Bézout coefficient `x` of `a·x + m·y == 1` inverts `a`. */
  lemma BezoutInverse(a: int, m: int, x: int, y: int, r: int)
    requires a * x + m * y == 1 && Congruent(r, x, m)
    ensures Congruent(a * r, 1, m)
  {
    var k := Cofactor(m, r - x);
    assert a * r - 1 == (a * k - y) * m;
    CongruentIntro(a * r, 1, m, a * k - y);
  }

  /**
    For a non-negative `a` and a positive modulus, `inverse_mod` finds an
    inverse whenever one exists.
   */
  lemma InverseModComplete(a: int, m: int, w: int)
    requires m > 0 && a >= 0 && Congruent(a * w, 1, m)
    ensures InverseMod(a, m).Some?
  {
    var g := Egcd(a, m).gcd;
    EgcdNonNegative(a, m);
    EgcdDivides(a, m);
    UnitGcd(g, a, m, w);
  }

  /** A non-negative common divisor of `a` and `m`, where `a·w ≡ 1 (mod m)`, is 1. */
  lemma UnitGcd(g: int, a: int, m: int, w: int)
    requires g >= 0 && Divides(g, a) && Divides(g, m) && Congruent(a * w, 1, m)
    ensures g == 1
  {
    var k := Cofactor(m, a * w - 1);
    DividesLinear(g, a, m, w, -k);
    assert w * a + (-k) * m == 1;
    DividesOne(g);
  }

  /** Two inverses of the same value are congruent. */
  lemma InverseUnique(a: int, m: int, r: int, w: int)
    requires Congruent(a * r, 1, m) && Congruent(a * w, 1, m)
    ensures Congruent(r, w, m)
  {
    // r - w == w·(a·r - 1) - r·(a·w - 1)
    var k1, k2 := Cofactor(m, a * r - 1), Cofactor(m, a * w - 1);
    calc {
      r - w;
      w * (a * r - 1) - r * (a * w - 1);
      w * (m * k1) - r * (m * k2);
      (w * k1 - r * k2) * m;
    }
    CongruentIntro(r, w, m, w * k1 - r * k2);
  }

  /**
    For a non-negative `a` and a positive modulus, `inverse_mod` returns the
    one inverse of `a` in `[0, m)` whenever there is an inverse.
   */
  lemma InverseModValue(a: int, m: int, w: int)
    requires m > 0 && a >= 0 && 0 <= w < m && Congruent(a * w, 1, m)
    ensures InverseMod(a, m) == Some(w)
  {
    InverseModComplete(a, m, w);
    var r := InverseMod(a, m).value;
    InverseUnique(a, m, r, w);
    CongruentCanonical(r, w, m);
  }

  /** `inverse_mod(a, m)` is `None` exactly when `egcd`'s gcd is not 1. */
  lemma InverseModNone(a: int, m: int)
    requires Egcd(a, m).gcd == 1 ==> m != 0
    ensures InverseMod(a, m).None? <==> Egcd(a, m).gcd != 1
  {
  }

  /** The inverse of 3 modulo 26 is 9. */
  lemma InverseModExample()
    ensures InverseMod(3, 26) == Some(9)
  {
    CongruentIntro(3 * 9, 1, 26, 1);
    InverseModValue(3, 26, 9);
  }

  /**
    As written, `inverse_mod` misses inverses of negative residues: `egcd(-1, 5)`
    reports a gcd of -1, so the result is `None`, although `-1 · 4 ≡ 1 (mod 5)`.
   */
  lemma InverseModMissesNegative()
    ensures InverseMod(-1, 5).None? && Congruent(-1 * 4, 1, 5)
  {
    EgcdGcdStep(-1, 5);
    assert TRem(5, -1) == 0;
    CongruentIntro(-1 * 4, 1, 5, -1);
  }

  /**
    The corrected inverse: reduce `a` into `[0, m)` first, the same way src/curve.rs:31
    reduces the coefficient, and run `inverse_mod` on that.
   */
  function InverseModCanonical(a: int, m: int): (r: Option<int>)
    requires m > 0
    ensures r.Some? ==> 0 <= r.value < m && Congruent(a * r.value, 1, m)
  {
    var c := TRem(TRem(a, m) + m, m);
    var r := InverseMod(c, m);
    if r.Some? then
      ReduceCongruent(a, m);
      CongruentInverse(a, c, r.value, m);
      r
    else
      r
  }

  /** An inverse of `c` is an inverse of every `a` congruent to `c`. */
  lemma CongruentInverse(a: int, c: int, r: int, m: int)
    requires Congruent(c, a, m) && Congruent(c * r, 1, m)
    ensures Congruent(a * r, 1, m)
  {
    var k1, k2 := Cofactor(m, c - a), Cofactor(m, c * r - 1);
    assert a * r - 1 == (k2 - r * k1) * m;
    CongruentIntro(a * r, 1, m, k2 - r * k1);
  }

  /**
    The corrected inverse exists exactly when an inverse exists, and it is
    the inverse: the one in `[0, m)`.
   */
  lemma InverseModCanonicalValue(a: int, m: int, w: int)
    requires m > 0 && Congruent(a * w, 1, m)
    ensures InverseModCanonical(a, m).Some?
    ensures 0 <= w < m ==> InverseModCanonical(a, m) == Some(w)
  {
    var c := TRem(TRem(a, m) + m, m);
    ReduceCongruent(a, m);
    CongruentSymmetric(c, a, m);
    CongruentInverse(c, a, w, m);
    InverseModComplete(c, m, w);
    var r := InverseModCanonical(a, m).value;
    InverseUnique(a, m, r, w);
    if 0 <= w < m {
      CongruentCanonical(r, w, m);
    }
  }

  // ---------------------------------------------------------------------
  // Modular division
  // ---------------------------------------------------------------------

  /**
    `modular_division(modulo, num, den)`: `num · den⁻¹` modulo `modulo`. The
    source unwraps the inverse of `den % modulo`, so it panics when there is
    none.
   */
  function ModularDivision(modulo: int, num: int, den: int): (q: int)
    requires modulo != 0 && InverseMod(TRem(den, modulo), modulo).Some?
    ensures Congruent(q * den, num, modulo)
    ensures Abs(q) < Abs(modulo)
    ensures modulo > 0 && num >= 0 ==> 0 <= q
    ensures modulo > 0 && num <= 0 ==> q <= 0
    ensures modulo < 0 && num >= 0 ==> q <= 0
    ensures modulo < 0 && num <= 0 ==> 0 <= q
  {
    var inv := InverseMod(TRem(den, modulo), modulo).value;
    var q := TRem(TRem(num, modulo) * inv, modulo);
    QuotientCongruent(modulo, num, den, inv, TRem(num, modulo), TDiv(num, modulo),
      TRem(den, modulo), TDiv(den, modulo), q, TDiv(TRem(num, modulo) * inv, modulo));
    q
  }

  /**
    With `tn ≡ num` and `td ≡ den`, `inv` inverting `td`, and `q ≡ tn · inv`,
    `q · den ≡ num`.
   */
  lemma QuotientCongruent(m: int, num: int, den: int, inv: int,
                          tn: int, kn: int, td: int, kd: int, q: int, kq: int)
    requires num == kn * m + tn && den == kd * m + td
    requires tn * inv == kq * m + q
    requires Congruent(td * inv, 1, m)
    ensures Congruent(q * den, num, m)
  {
    var k := Cofactor(m, td * inv - 1);
    var kt := tn * inv * kd + tn * k - kq * den - kn;
    calc {
      q * den - num;
      (tn * inv - kq * m) * den - (kn * m + tn);
      tn * inv * den - kq * m * den - kn * m - tn;
      tn * inv * (kd * m + td) - kq * m * den - kn * m - tn;
      tn * inv * kd * m + tn * (td * inv - 1) - kq * m * den - kn * m;
      tn * inv * kd * m + tn * (m * k) - kq * m * den - kn * m;
      kt * m;
    }
    CongruentIntro(q * den, num, m, kt);
  }

  /** `26 / 4` modulo 3 is 2. */
  lemma ModularDivisionExample()
    ensures ModularDivision(3, 26, 4) == 2
  {
    assert TRem(4, 3) == 1;
    CongruentIntro(1 * 1, 1, 3, 0);
    InverseModValue(1, 3, 1);
  }

  /** Division by way of the corrected inverse; `den` need not be reduced. */
  function ModularDivisionCanonical(modulo: int, num: int, den: int): (q: int)
    requires modulo > 0 && InverseModCanonical(den, modulo).Some?
    ensures Congruent(q * den, num, modulo)
    ensures Abs(q) < modulo
    ensures num >= 0 ==> 0 <= q
    ensures num <= 0 ==> q <= 0
  {
    var inv := InverseModCanonical(den, modulo).value;
    var q := TRem(TRem(num, modulo) * inv, modulo);
    QuotientCongruent(modulo, num, den, inv, TRem(num, modulo), TDiv(num, modulo),
      den, 0, q, TDiv(TRem(num, modulo) * inv, modulo));
    q
  }

  /** Two quotients of `num` by an invertible `den` are congruent. */
  lemma QuotientUnique(m: int, num: int, den: int, s: int, s': int, w: int)
    requires Congruent(s * den, num, m) && Congruent(s' * den, num, m)
    requires Congruent(den * w, 1, m)
    ensures Congruent(s, s', m)
  {
    var k1, k2, k3 := Cofactor(m, s * den - num), Cofactor(m, s' * den - num), Cofactor(m, den * w - 1);
    var d := s - s';
    assert d * den == m * k1 - m * k2;
    CancelInverse(d, den, w, m, k1, k2, k3);
    CongruentIntro(s, s', m, (k1 - k2) * w - d * k3);
  }

  /** `d = d·(den·w) - d·(den·w - 1)` with both terms multiples of `m`. */
  lemma CancelInverse(d: int, den: int, w: int, m: int, k1: int, k2: int, k3: int)
    requires d * den == m * k1 - m * k2 && den * w - 1 == m * k3
    ensures d == ((k1 - k2) * w - d * k3) * m
  {
    assert d * (den * w) == (d * den) * w;
    assert d * (den * w) == d + d * (m * k3);
    assert (d * den) * w == (m * k1 - m * k2) * w;
  }

  // ---------------------------------------------------------------------
  // Point doubling
  // ---------------------------------------------------------------------

  /** The points whose doubling does not panic in `modular_division`. */
  predicate CanDouble(c: Curve, pt: Point) {
    pt.Pt? && pt.y != 0 ==> c.p != 0 && InverseMod(TRem(2 * pt.y, c.p), c.p).Some?
  }

  /**
    src/curve.rs:65-68: given the slope `s` at `(x, y)`, the intercept `i` and the
    coordinates `(rx, ry)`. `rx` is `s² - 2x` and `ry` is `s·(x - rx) - y`,
    both modulo `p`: the tangent rule's doubled point.
   */
  function Tangent(c: Curve, s: int, x: int, y: int): (t: (int, int))
    requires c.p != 0
    ensures Abs(t.0) < Abs(c.p) && Abs(t.1) < Abs(c.p)
    ensures Congruent(t.0, s * s - 2 * x, c.p)
    ensures Congruent(t.1, s * (x - t.0) - y, c.p)
    ensures c.p > 0 ==> 0 <= t.1 < c.p
    ensures c.p < 0 ==> c.p < t.1 <= 0
    ensures s * s - 2 * x >= 0 ==> 0 <= t.0
    ensures s * s - 2 * x <= 0 ==> t.0 <= 0
  {
    var p := c.p;
    var i := TRem(y + p - TRem(s * x, p), p);
    var rx := TRem(s * s - 2 * x, p);
    var ry := TRem(p - TRem(s * rx, p) + p - i, p);
    TRemCongruent(s * s - 2 * x, p);
    TangentY(p, s, x, y, rx, TRem(s * x, p), TDiv(s * x, p), i, TDiv(y + p - TRem(s * x, p), p),
      TRem(s * rx, p), TDiv(s * rx, p), ry, TDiv(p - TRem(s * rx, p) + p - i, p));
    (rx, ry)
  }

  /** The `ry` of src/curve.rs:68, with the `i` of src/curve.rs:65, is `s·(x - rx) - y` modulo `p`. */
  lemma TangentY(p: int, s: int, x: int, y: int, rx: int,
                 sx: int, k1: int, i: int, k2: int, sr: int, k3: int, ry: int, k4: int)
    requires s * x == k1 * p + sx
    requires y + p - sx == k2 * p + i
    requires s * rx == k3 * p + sr
    requires p - sr + p - i == k4 * p + ry
    ensures Congruent(ry, s * (x - rx) - y, p)
  {
    assert s * (x - rx) == s * x - s * rx;
    assert ry - (s * (x - rx) - y) == (1 + k3 + k2 - k1 - k4) * p;
    CongruentIntro(ry, s * (x - rx) - y, p, 1 + k3 + k2 - k1 - k4);
  }

  /**
    `Curve::double` as written. The identity cases give `Inf`; otherwise the
    slope is `(3x² + a) / 2y` modulo `p`, and the result is `Pt{rx, -ry}`:
    since `ry` already is the doubled point's `y`, the returned `y` is its
    negation modulo `p`, and so the result is `-(2P)`.
   */
  function Double(c: Curve, pt: Point): (r: Point)
    requires CanDouble(c, pt)
    ensures r.Inf? <==> pt.Inf? || pt.y == 0
    ensures pt.Pt? && pt.y != 0 ==>
      var s := ModularDivision(c.p, 3 * (pt.x * pt.x) + c.a, 2 * pt.y);
      && r.Pt?
      && Abs(r.x) < Abs(c.p) && Abs(r.y) < Abs(c.p)
      && Congruent(r.x, s * s - 2 * pt.x, c.p)
      && Congruent(r.y, -(s * (pt.x - r.x) - pt.y), c.p)
    ensures pt.Pt? && pt.y != 0 && c.p > 0 ==> -c.p < r.y <= 0
    ensures pt.Pt? && pt.y != 0 && c.p < 0 ==> 0 <= r.y < -c.p
    ensures pt.Pt? && pt.y != 0 ==>
      var s := ModularDivision(c.p, 3 * (pt.x * pt.x) + c.a, 2 * pt.y);
      && (s * s - 2 * pt.x >= 0 ==> 0 <= r.x)
      && (s * s - 2 * pt.x <= 0 ==> r.x <= 0)
  {
    match pt
    case Inf => Inf
    case Pt(x, y) =>
      if y == 0 then Inf
      else
        var s := ModularDivision(c.p, 3 * (x * x) + c.a, 2 * y);
        var t := Tangent(c, s, x, y);
        CongruentNeg(t.1, s * (x - t.0) - y, c.p);
        Pt(t.0, -t.1)
  }

  /**
    For a positive `p`, the `y` that `double` returns is never positive, so
    the next doubling hands `inverse_mod` the residue `2y % p <= 0`.
   */
  lemma DoubleFeedsNonPositiveResidue(c: Curve, pt: Point)
    requires CanDouble(c, pt) && c.p > 0 && pt.Pt? && pt.y != 0
    ensures Double(c, pt).Pt? && TRem(2 * Double(c, pt).y, c.p) <= 0
  {
  }

  /**
    A negative modulus does not panic either: on `Curve(0, 0, -5)`, `2y % p`
    at `(0, 3)` is 1, the slope is 0, and with truncating `%` the result's `y`
    lies in `[0, 5)`.
   */
  lemma DoubleNegativeModulusExample()
    ensures CanDouble(Curve(0, 0, -5), Pt(0, 3))
    ensures Double(Curve(0, 0, -5), Pt(0, 3)) == Pt(0, 3)
  {
    assert Egcd(1, -5).gcd == 1 by {
      assert TRem(-5, 1) == 0;
      EgcdGcdStep(1, -5);
    }
    assert TRem(6, -5) == 1;
    assert ModularDivision(-5, 0, 6) == 0 by {
      assert TRem(0, -5) == 0;
    }
    assert Tangent(Curve(0, 0, -5), 0, 0, 3) == (0, -3) by {
      assert TRem(0, -5) == 0 && TRem(-2, -5) == -2 && TRem(-8, -5) == -3;
    }
  }

  /** The identity and 2-torsion cases. */
  lemma DoubleIdentityCases(c: Curve, x: int)
    ensures Double(c, Inf) == Inf && Double(c, Pt(x, 0)) == Inf
  {
  }

  /** `double` never reads the curve's `b`. */
  lemma DoubleIgnoresB(a: int, b: int, b': int, p: int, pt: Point)
    requires CanDouble(Curve(a, b, p), pt)
    ensures Double(Curve(a, b, p), pt) == Double(Curve(a, b', p), pt)
  {
  }

  /** On `y² = x³ + 2x + 3` modulo 97, doubling `(3, 6)` yields `Pt{80, -10}`. */
  lemma DoubleExample()
    ensures CanDouble(Curve(2, 3, 97), Pt(3, 6))
    ensures Double(Curve(2, 3, 97), Pt(3, 6)) == Pt(80, -10)
  {
    assert TRem(12, 97) == 12;
    CongruentIntro(12 * 89, 1, 97, 11);
    InverseModValue(12, 97, 89);
    assert ModularDivision(97, 29, 12) == 59;
  }

  /**
    The doubled point of `(3, 6)` is `(80, 10)`, but `Pt{80, -10}` is not
    congruent to it, and doubling it again panics: `-20 % 97` is negative
    and `inverse_mod(-20, 97)` is `None`.
   */
  lemma DoubleExampleIsNegated()
    ensures !Congruent(-10, 10, 97)
    ensures !CanDouble(Curve(2, 3, 97), Pt(80, -10))
  {
    forall k
      ensures -10 - 10 != Mul(97, k)
    {
    }
    assert TRem(-20, 97) == -20;
    EgcdGcdStep(-20, 97);
    assert TRem(97, -20) == 17;
    EgcdGcdStep(17, -20);
    assert TRem(-20, 17) == -3;
    EgcdGcdStep(-3, 17);
    assert TRem(17, -3) == 2;
    EgcdGcdStep(2, -3);
    assert TRem(-3, 2) == -1;
    EgcdGcdStep(-1, 2);
    assert TRem(2, -1) == 0;
    assert Egcd(-20, 97).gcd == -1;
  }

  /** The points whose corrected doubling has a slope. */
  predicate CanDoubleCorrected(c: Curve, pt: Point) {
    pt.Pt? && pt.y != 0 ==> c.p > 0 && InverseModCanonical(2 * pt.y, c.p).Some?
  }

  /**
    The corrected doubling: the slope comes from the corrected inverse, and
    the result is `Pt{rx, ry}`, the tangent rule's doubled point.
   */
  function DoubleCorrected(c: Curve, pt: Point): (r: Point)
    requires CanDoubleCorrected(c, pt)
    ensures r.Inf? <==> pt.Inf? || pt.y == 0
    ensures pt.Pt? && pt.y != 0 ==>
      var s := ModularDivisionCanonical(c.p, 3 * (pt.x * pt.x) + c.a, 2 * pt.y);
      && r.Pt?
      && Abs(r.x) < c.p && Abs(r.y) < c.p
      && Congruent(r.x, s * s - 2 * pt.x, c.p)
      && Congruent(r.y, s * (pt.x - r.x) - pt.y, c.p)
    ensures pt.Pt? && pt.y != 0 ==> 0 <= r.y < c.p
    ensures pt.Pt? && pt.y != 0 ==>
      var s := ModularDivisionCanonical(c.p, 3 * (pt.x * pt.x) + c.a, 2 * pt.y);
      && (s * s - 2 * pt.x >= 0 ==> 0 <= r.x)
      && (s * s - 2 * pt.x <= 0 ==> r.x <= 0)
  {
    match pt
    case Inf => Inf
    case Pt(x, y) =>
      if y == 0 then Inf
      else
        var s := ModularDivisionCanonical(c.p, 3 * (x * x) + c.a, 2 * y);
        var t := Tangent(c, s, x, y);
        Pt(t.0, t.1)
  }

  /** The corrected doubling of an affine point is defined whenever `2y` is invertible. */
  lemma CanDoubleCorrectedWhenInvertible(c: Curve, x: int, y: int, w: int)
    requires c.p > 0 && y != 0 && Congruent(2 * y * w, 1, c.p)
    ensures CanDoubleCorrected(c, Pt(x, y))
  {
    InverseModCanonicalValue(2 * y, c.p, w);
  }

  /**
    The slope of the corrected doubling at `(3, 6)`: the inverse of 12
    modulo 97 is 89, and `29 / 12` is 59.
   */
  lemma CorrectedSlopeExample()
    ensures InverseModCanonical(12, 97) == Some(89)
    ensures ModularDivisionCanonical(97, 29, 12) == 59
  {
    CongruentIntro(12 * 89, 1, 97, 11);
    InverseModCanonicalValue(12, 97, 89);
    assert TRem(29, 97) == 29;
    assert TRem(2581, 97) == 59;
  }

  /**
    The slope of the corrected doubling at `(80, 10)`: the inverse of 20
    modulo 97 is 34, and `(3·80² + 2) / 20` is 58.
   */
  lemma CorrectedSlopeExampleTwice()
    ensures InverseModCanonical(20, 97) == Some(34)
    ensures ModularDivisionCanonical(97, 19202, 20) == 58
  {
    assert InverseModCanonical(20, 97) == Some(34) by {
      CongruentIntro(20 * 34, 1, 97, 7);
      InverseModCanonicalValue(20, 97, 34);
    }
    assert TRem(TRem(19202, 97) * 34, 97) == 58 by {
      assert TRem(19202, 97) == 93;
      assert TRem(3162, 97) == 58;
    }
  }

  /** With the corrected doubling, `(3, 6)` doubles to `(80, 10)`. */
  lemma DoubleCorrectedExample()
    ensures CanDoubleCorrected(Curve(2, 3, 97), Pt(3, 6))
    ensures DoubleCorrected(Curve(2, 3, 97), Pt(3, 6)) == Pt(80, 10)
  {
    CorrectedSlopeExample();
    TangentExample();
  }

  /**
    Doubling `(80, 10)` with the corrected doubling gives `(3, 91)`, which is
    `4·(3, 6)` on this curve.
   */
  lemma DoubleCorrectedExampleTwice()
    ensures CanDoubleCorrected(Curve(2, 3, 97), Pt(80, 10))
    ensures DoubleCorrected(Curve(2, 3, 97), Pt(80, 10)) == Pt(3, 91)
  {
    CorrectedSlopeExampleTwice();
    TangentExample();
  }

  /** The tangent step at `(3, 6)` with slope 59, and at `(80, 10)` with slope 58. */
  lemma TangentExample()
    ensures Tangent(Curve(2, 3, 97), 59, 3, 6) == (80, 10)
    ensures Tangent(Curve(2, 3, 97), 58, 80, 10) == (3, 91)
  {
    assert TRem(177, 97) == 80 && TRem(23, 97) == 23;
    assert TRem(3475, 97) == 80;
    assert TRem(4720, 97) == 64 && TRem(107, 97) == 10;
    assert TRem(4640, 97) == 81 && TRem(26, 97) == 26;
    assert TRem(3204, 97) == 3;
    assert TRem(174, 97) == 77 && TRem(91, 97) == 91;
  }

  /**
    Wherever both are defined, `double` as written is the negation of the
    corrected doubling modulo `p`.
   */
  lemma DoubleIsNegatedDoubleCorrected(c: Curve, pt: Point)
    requires CanDouble(c, pt) && CanDoubleCorrected(c, pt)
    ensures var r, r' := Double(c, pt), DoubleCorrected(c, pt);
      && (r.Inf? <==> r'.Inf?)
      && (r.Pt? ==> Congruent(r.x, r'.x, c.p) && Congruent(r.y, -r'.y, c.p))
  {
    if pt.Pt? && pt.y != 0 {
      var x, y, p := pt.x, pt.y, c.p;
      var num := 3 * (x * x) + c.a;
      var s := ModularDivision(p, num, 2 * y);
      var s' := ModularDivisionCanonical(p, num, 2 * y);
      var w := InverseModCanonical(2 * y, p).value;
      QuotientUnique(p, num, 2 * y, s, s', w);
      var r, r' := Double(c, pt), DoubleCorrected(c, pt);
      CongruentNeg(r.y, -(s * (x - r.x) - y), p);
      SameSlopeSamePoint(p, s, s', x, y, r.x, -r.y, r'.x, r'.y);
      CongruentNeg(-r.y, r'.y, p);
    }
  }

  /**
    Tangent points computed from congruent slopes are congruent: `(u, v)` and
    `(u', v')` both satisfy src/curve.rs:67-68's congruences.
   */
  lemma SameSlopeSamePoint(p: int, s: int, s': int, x: int, y: int,
                           u: int, v: int, u': int, v': int)
    requires Congruent(s, s', p)
    requires Congruent(u, s * s - 2 * x, p) && Congruent(v, s * (x - u) - y, p)
    requires Congruent(u', s' * s' - 2 * x, p) && Congruent(v', s' * (x - u') - y, p)
    ensures Congruent(u, u', p) && Congruent(v, v', p)
  {
    var k := Cofactor(p, s - s');
    var k1, k2 := Cofactor(p, u - (s * s - 2 * x)), Cofactor(p, u' - (s' * s' - 2 * x));
    var ku := k * (s + s') + k1 - k2;
    // u - u' == (s - s')·(s + s') + (k1 - k2)·p
    assert s * s - s' * s' == (s - s') * (s + s');
    assert u - u' == ku * p;
    CongruentIntro(u, u', p, ku);
    var k3, k4 := Cofactor(p, v - (s * (x - u) - y)), Cofactor(p, v' - (s' * (x - u') - y));
    // s·(x - u) - s'·(x - u') == (s - s')·(x - u) + s'·(u' - u)
    assert s * (x - u) - s' * (x - u') == (s - s') * (x - u) + s' * (u' - u);
    assert v - v' == (k * (x - u) - s' * ku + k3 - k4) * p;
    CongruentIntro(v, v', p, k * (x - u) - s' * ku + k3 - k4);
  }

  // ---------------------------------------------------------------------
  // Doubling keeps points on the curve
  // ---------------------------------------------------------------------

  /** `pt` satisfies `y² ≡ x³ + a·x + b (mod p)`; `Inf` is on every curve. */
  ghost predicate OnCurve(c: Curve, pt: Point) {
    pt.Inf? || Congruent(pt.y * pt.y, Cubic(c, pt.x), c.p)
  }

  function Cubic(c: Curve, x: int): int {
    x * x * x + c.a * x + c.b
  }

  /**
    The tangent identity: with `x3 = s² - 2x` and `y3 = s·(x - x3) - y`,
    `y3² - (x3³ + a·x3 + b)` is `(y² - (x³ + a·x + b)) + (2y·s - (3x² + a))·(x3 - x)`.
   */
  lemma TangentIdentity(c: Curve, s: int, x: int, y: int)
    ensures var x3 := s * s - 2 * x; var y3 := s * (x - x3) - y;
      y3 * y3 - Cubic(c, x3)
        == (y * y - Cubic(c, x)) + (2 * y * s - (3 * x * x + c.a)) * (x3 - x)
  {
    var a, b := c.a, c.b;
    var u := s * s - 3 * x;
    var x3 := x + u;
    var y3 := s * (x - x3) - y;
    assert x3 == s * s - 2 * x;
    assert y3 * y3 == (s * u) * (s * u) + 2 * (s * u) * y + y * y;
    assert x3 * x3 * x3 == x * x * x + 3 * (x * x) * u + 3 * x * (u * u) + u * (u * u);
    calc {
      y3 * y3 - Cubic(c, x3);
      (s * u) * (s * u) + 2 * (s * u) * y + y * y
        - (x * x * x + 3 * (x * x) * u + 3 * x * (u * u) + u * (u * u) + a * x + a * u + b);
      (y * y - Cubic(c, x))
        + u * (s * s * u + 2 * s * y - 3 * (x * x) - 3 * x * u - u * u - a);
      { assert s * s * u - 3 * x * u - u * u == u * (s * s - 3 * x - u) == 0; }
      (y * y - Cubic(c, x)) + u * (2 * s * y - 3 * (x * x) - a);
    }
  }

  /**
    At a curve point `(x, y)` with tangent slope `s`, the point
    `(s² - 2x, s·(x - x3) - y)` is on the curve.
   */
  lemma TangentPointOnCurve(c: Curve, s: int, x: int, y: int)
    requires Congruent(y * y, Cubic(c, x), c.p)
    requires Congruent(s * (2 * y), 3 * (x * x) + c.a, c.p)
    ensures var x3 := s * s - 2 * x; var y3 := s * (x - x3) - y;
      Congruent(y3 * y3, Cubic(c, x3), c.p)
  {
    var p := c.p;
    var x3 := s * s - 2 * x;
    var y3 := s * (x - x3) - y;
    TangentIdentity(c, s, x, y);
    var ke := Cofactor(p, y * y - Cubic(c, x));
    var kd := Cofactor(p, s * (2 * y) - (3 * (x * x) + c.a));
    assert 2 * y * s - (3 * x * x + c.a) == p * kd;
    assert y3 * y3 - Cubic(c, x3) == p * ke + (p * kd) * (x3 - x);
    assert y3 * y3 - Cubic(c, x3) == (ke + kd * (x3 - x)) * p;
    CongruentIntro(y3 * y3, Cubic(c, x3), p, ke + kd * (x3 - x));
  }

  /** A point congruent to a curve point, or to its negation, is on the curve. */
  lemma OnCurveCongruent(c: Curve, x: int, y: int, u: int, v: int, sign: int)
    requires sign == 1 || sign == -1
    requires Congruent(y * y, Cubic(c, x), c.p)
    requires Congruent(u, x, c.p) && Congruent(v, sign * y, c.p)
    ensures Congruent(v * v, Cubic(c, u), c.p)
  {
    var p := c.p;
    var ku, kv, ke := Cofactor(p, u - x), Cofactor(p, v - sign * y), Cofactor(p, y * y - Cubic(c, x));
    var vq := v + sign * y;
    var uq := u * u + u * x + x * x + c.a;
    SquareDifference(v, y, sign);
    MultipleTimes(v - sign * y, vq, p, kv);
    CubicDifference(c, u, x);
    MultipleTimes(u - x, uq, p, ku);
    var k := kv * vq + ke - ku * uq;
    assert v * v - Cubic(c, u) == k * p;
    CongruentIntro(v * v, Cubic(c, u), p, k);
  }

  /** `v² - y² == (v - sign·y)·(v + sign·y)` when `sign² == 1`. */
  lemma SquareDifference(v: int, y: int, sign: int)
    requires sign == 1 || sign == -1
    ensures v * v - y * y == (v - sign * y) * (v + sign * y)
  {
    if sign == 1 {
      assert (v - y) * (v + y) == v * v - y * y;
    } else {
      assert (v + y) * (v - y) == v * v - y * y;
    }
  }

  /** `u³ + a·u - (x³ + a·x) == (u - x)·(u² + u·x + x² + a)`. */
  lemma CubicDifference(c: Curve, u: int, x: int)
    ensures Cubic(c, u) - Cubic(c, x) == (u - x) * (u * u + u * x + x * x + c.a)
  {
  }

  /** A multiple of `p` times anything is a multiple of `p`. */
  lemma MultipleTimes(d: int, q: int, p: int, k: int)
    requires d == p * k
    ensures d * q == (k * q) * p
  {
  }

  /**
    The tangent point computed by src/curve.rs:65-68 from a tangent slope at a curve
    point lies on the curve, and so does its negation.
   */
  lemma TangentOnCurve(c: Curve, s: int, x: int, y: int, sign: int)
    requires c.p != 0 && (sign == 1 || sign == -1)
    requires Congruent(y * y, Cubic(c, x), c.p)
    requires Congruent(s * (2 * y), 3 * (x * x) + c.a, c.p)
    ensures var t := Tangent(c, s, x, y); Congruent((sign * t.1) * (sign * t.1), Cubic(c, t.0), c.p)
  {
    var t := Tangent(c, s, x, y);
    TangentResultOnCurve(c, s, x, y, t.0, t.1, sign);
  }

  /** Any `(u, v)` meeting src/curve.rs:67-68's congruences is on the curve, and so is `(u, -v)`. */
  lemma TangentResultOnCurve(c: Curve, s: int, x: int, y: int, u: int, v: int, sign: int)
    requires sign == 1 || sign == -1
    requires Congruent(y * y, Cubic(c, x), c.p)
    requires Congruent(s * (2 * y), 3 * (x * x) + c.a, c.p)
    requires Congruent(u, s * s - 2 * x, c.p) && Congruent(v, s * (x - u) - y, c.p)
    ensures Congruent((sign * v) * (sign * v), Cubic(c, u), c.p)
  {
    var p := c.p;
    var x3 := s * s - 2 * x;
    var y3 := s * (x - x3) - y;
    TangentPointOnCurve(c, s, x, y);
    CongruentRefl(s, p);
    CongruentRefl(x3, p);
    CongruentRefl(y3, p);
    SameSlopeSamePoint(p, s, s, x, y, u, v, x3, y3);
    var kv := Cofactor(p, v - y3);
    assert sign * v - sign * y3 == sign * (v - y3);
    CongruentIntro(sign * v, sign * y3, p, sign * kv);
    OnCurveCongruent(c, x3, y3, u, sign * v, sign);
  }

  /** `double` as written maps curve points to curve points. */
  lemma DoubleOnCurve(c: Curve, pt: Point)
    requires CanDouble(c, pt) && OnCurve(c, pt)
    ensures OnCurve(c, Double(c, pt))
  {
    if pt.Pt? && pt.y != 0 {
      var s := ModularDivision(c.p, 3 * (pt.x * pt.x) + c.a, 2 * pt.y);
      TangentOnCurve(c, s, pt.x, pt.y, -1);
      var t := Tangent(c, s, pt.x, pt.y);
      assert Double(c, pt) == Pt(t.0, -1 * t.1);
    }
  }

  /** The corrected doubling maps curve points to curve points. */
  lemma DoubleCorrectedOnCurve(c: Curve, pt: Point)
    requires CanDoubleCorrected(c, pt) && OnCurve(c, pt)
    ensures OnCurve(c, DoubleCorrected(c, pt))
  {
    if pt.Pt? && pt.y != 0 {
      var s := ModularDivisionCanonical(c.p, 3 * (pt.x * pt.x) + c.a, 2 * pt.y);
      TangentOnCurve(c, s, pt.x, pt.y, 1);
      var t := Tangent(c, s, pt.x, pt.y);
      assert DoubleCorrected(c, pt) == Pt(t.0, 1 * t.1);
    }
  }
}
