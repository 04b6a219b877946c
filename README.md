# Elliptic-curve point doubling over the integers modulo p

This project models the arithmetic core of a small elliptic-curve proof of
concept written in Rust, and proves properties of that model in Dafny.

The core has two parts.

- `src/curve.rs` defines affine points (or the point at infinity) and the
  curve `y² = x³ + a·x + b` modulo `p`. It builds point doubling from three
  helpers: the extended Euclidean algorithm `egcd`, the modular inverse
  `inverse_mod`, and `modular_division`.
- `src/arithmetic.rs` defines `ModN`, a residue modulo a field modulus.
  `ModN::new` reduces a big integer with `%`.

All of this code is pure, so it is modelled as datatypes, functions and
lemmas. There are four modules, one per file:

- `RustInt` (`rust_int.dfy`): Rust's truncating `/` and `%` (`TDiv`, `TRem`).
  Dafny's own operators are Euclidean, so every `/` and `%` in the source is
  written with these two.
- `Congruence` (`congruence.dfy`): divisibility and congruence modulo `m`,
  plus the algebra the proofs need.
- `EllipticCurve` (`curve.dfy`): `Egcd`, `InverseMod`, `ModularDivision`,
  `Tangent` and `Double`. Each has a corrected version wherever the code as
  written misbehaves (see "## Findings"). It also proves that doubling keeps
  points on the curve.
- `Arithmetic` (`arithmetic.dfy`): `ModN`, `New`, and the canonical
  `NewCanonical`.

On the functions that model the code as written (`TDiv`, `TRem`, `New`,
`InverseMod`, `ModularDivision`, `Tangent` and `Double`), each `requires`
clause stands for a panic in the source: `%` by zero, or the `unwrap` of
`None` in `modular_division`. The corrected versions (`InverseModCanonical`,
`ModularDivisionCanonical`, `DoubleCorrected`, `NewCanonical`) are defined
for a positive modulus only, and the hypotheses of lemmas are just the
conditions under which each lemma is stated. The modulus of `ModN`, which the
source carries in a type parameter, is an explicit argument here.

The model follows the code as written, and in three places the code does not
do what its own comments and structure intend:

- Doubling `(3, 6)` on `a = 2, b = 3, p = 97` returns `Pt{80, -10}`. The
  comment at src/curve.rs:45-47 says to take the intersection of the tangent
  with the curve and invert its y coordinate once. The intersection point is
  `(rx, y + s·(rx - x))`, and line 68's `p - (s*rx)%p + p - i` is already its
  negation, `s·(x - rx) - y`, modulo `p`. Line 70 negates a second time, so
  `double` returns the intersection point itself, `-(2P)`. The commented-out
  point addition (src/curve.rs:88-92) computes its `ry` the same way and
  returns `Pt{x: rx, y: ry}` with no further negation. For a positive `p`,
  `double` always returns a `y` in `(-p, 0]`, so the next doubling hands
  `inverse_mod` a residue `2y % p <= 0`.
- `inverse_mod` (src/curve.rs:30) accepts only a gcd of 1, but `egcd` of a
  negative value can report -1. A negative residue that has an inverse is then
  reported as having none, and `modular_division`'s `unwrap` panics; this is
  what happens to the second doubling of `(3, 6)`.
- `ModN::new` keeps the sign of a negative input. Residues are compared by
  their public `n`, so two congruent inputs, such as -3 and 2 modulo 5, give
  residues that compare unequal. The notes at src/main.rs:1-6 describe the
  field as `{0, 1, 2, 3}`, that is, as the canonical residues.

All three are logged under "## Findings", and the corrected behaviour is
modelled beside the code as written.

## Model

| member | source | states |
|---|---|---|
| RustInt.TDiv | src/curve.rs:21 | Rust's `b / a` on `i64`, rounding toward zero; its contract is stated by `TDivTruncates`, and a zero divisor is excluded as the panic it is |
| RustInt.TDivTruncates | src/curve.rs:21 | `b / a` rounds toward zero: its magnitude is the largest `q` with `q·|a| <= |b|`, and it is negative only when the signs differ |
| RustInt.TRem | src/curve.rs:20 | `b % a` satisfies `b == (b / a)·a + b % a`, is smaller than `a` in magnitude, and has the sign of `b` |
| RustInt.TRemSmall | src/arithmetic.rs:47 | a value smaller than the modulus in magnitude is its own remainder |
| Congruence.TRemCongruent | src/curve.rs:20 | a remainder is congruent to its dividend |
| Congruence.ReduceCongruent | src/curve.rs:31 | `(x % m + m) % m` is congruent to `x` modulo `m` |
| Congruence.ReduceRange | src/curve.rs:31 | for `m > 0`, `(x % m + m) % m` lies in `[0, m)` |
| EllipticCurve.Point | src/curve.rs:2-5 | an affine point `Pt{x, y}` or the point at infinity `Inf` |
| EllipticCurve.Curve | src/curve.rs:8-12 | the curve parameters `a`, `b` and the modulus `p` |
| EllipticCurve.Egcd | src/curve.rs:15-25 | `egcd` with line 20's truncating `b % a` and line 21's `b / a`, terminating on `|a|`; its properties are stated by the `Egcd…` lemmas below |
| EllipticCurve.EgcdBase | src/curve.rs:16-18 | `egcd(0, b) == (b, 0, 1)` |
| EllipticCurve.EgcdRecursionShrinks | src/curve.rs:20 | the recursive call's first argument `b % a` is smaller than `a` in magnitude, so `egcd` terminates |
| EllipticCurve.EgcdBezout | src/curve.rs:15-25 | Bézout identity: the result satisfies `gcd == a·x + b·y` for every input |
| EllipticCurve.EgcdDivides | src/curve.rs:15-25 | the returned `gcd` divides both `a` and `b`, whatever their signs |
| EllipticCurve.EgcdGreatest | src/curve.rs:15-25 | every common divisor of `a` and `b` divides the returned `gcd` |
| EllipticCurve.EgcdNonNegative | src/curve.rs:15-25 | for `a, b >= 0` the returned `gcd` is non-negative |
| EllipticCurve.EgcdIsGcd | src/curve.rs:15-25 | for `a, b >= 0` the returned value is the greatest common divisor: non-negative, a common divisor, and divisible by every common divisor |
| EllipticCurve.EgcdGcdStep | src/curve.rs:20-24 | each recursive step passes the `gcd` through unchanged |
| EllipticCurve.InverseMod | src/curve.rs:27-37 | `Some` exactly when `egcd` reports a gcd of 1; then `a·r ≡ 1 (mod m)`, with `0 <= r < m` for `m > 0` |
| EllipticCurve.InverseModNone | src/curve.rs:30-35 | `None` exactly when the gcd is not 1 |
| EllipticCurve.InverseUnique | src/curve.rs:27-37 | two inverses of the same value are congruent |
| EllipticCurve.InverseModComplete | src/curve.rs:27-37 | for `a >= 0` and `m > 0`, `inverse_mod` finds an inverse whenever one exists |
| EllipticCurve.InverseModValue | src/curve.rs:27-37 | for `a >= 0` and `m > 0`, the result is the unique inverse in `[0, m)` |
| EllipticCurve.InverseModExample | src/curve.rs:27-37 | the inverse of 3 modulo 26 is 9 |
| EllipticCurve.InverseModMissesNegative | src/curve.rs:28-35 | `inverse_mod(-1, 5)` is `None`, although `-1·4 ≡ 1 (mod 5)` |
| EllipticCurve.InverseModCanonical | src/curve.rs:27-37 | corrected inverse: reduce `a` into `[0, m)` first; any result is in `[0, m)` and inverts `a` |
| EllipticCurve.InverseModCanonicalValue | src/curve.rs:27-37 | the corrected inverse exists whenever an inverse exists, and it is the inverse in `[0, m)` |
| EllipticCurve.ModularDivision | src/curve.rs:39-42 | requires an inverse of `den % modulo` (else `unwrap` panics); the quotient `q` satisfies `q·den ≡ num`, is smaller than the modulus, and has the sign of `num` for `modulo > 0` and the opposite sign for `modulo < 0` |
| EllipticCurve.ModularDivisionExample | src/curve.rs:39-42 | `26 / 4` modulo 3 is 2 |
| EllipticCurve.ModularDivisionCanonical | src/curve.rs:39-42 | division by way of the corrected inverse: `q·den ≡ num` and `|q| < modulo`, with the sign of `num` |
| EllipticCurve.QuotientUnique | src/curve.rs:39-42 | two quotients of `num` by an invertible `den` are congruent |
| EllipticCurve.Tangent | src/curve.rs:64-68 | `rx ≡ s² - 2x` and `ry ≡ s·(x - rx) - y` modulo `p`, both smaller than `p` in magnitude; `ry` lies in `[0, p)` for `p > 0` and in `(p, 0]` for `p < 0`, and `rx` has the sign of `s² - 2x` (line 67's truncating `%`) |
| EllipticCurve.TangentY | src/curve.rs:65-68 | the intercept `i` and the `ry` formula together give `ry ≡ s·(x - rx) - y` |
| EllipticCurve.TangentExample | src/curve.rs:64-68 | on `p = 97`, the tangent step at `(3, 6)` with slope 59 gives `(80, 10)`, and at `(80, 10)` with slope 58 gives `(3, 91)` |
| EllipticCurve.CanDouble | src/curve.rs:40-62 | the points whose doubling does not panic: `Inf`, `y == 0`, or a non-zero modulus with an inverse of `2y % p` for line 62's `modular_division` |
| EllipticCurve.Double | src/curve.rs:48-75 | `Inf` exactly for `Inf` and for `y == 0`; otherwise, with slope `s = (3x² + a) / 2y`, the result is `(rx, -ry)`; its `y` lies in `(-p, 0]` for `p > 0` and in `[0, -p)` for `p < 0`, and its `x` has the sign of `s² - 2x` |
| EllipticCurve.DoubleFeedsNonPositiveResidue | src/curve.rs:40-70 | for `p > 0`, the next doubling of `double`'s result hands `inverse_mod` a residue `2y % p <= 0` |
| EllipticCurve.DoubleNegativeModulusExample | src/curve.rs:48-75 | on `a = b = 0, p = -5`, doubling `(0, 3)` does not panic and, with truncating `%`, gives `Pt{0, 3}` |
| EllipticCurve.DoubleIdentityCases | src/curve.rs:49-54 | doubling `Inf`, or a point with `y == 0`, gives `Inf` |
| EllipticCurve.DoubleIgnoresB | src/curve.rs:48-75 | the result does not depend on the curve's `b` |
| EllipticCurve.DoubleExample | src/curve.rs:48-75 | on `a = 2, b = 3, p = 97`, doubling `(3, 6)` gives `Pt{80, -10}` |
| EllipticCurve.DoubleExampleIsNegated | src/curve.rs:70 | `-10` is not congruent to the expected `10`, and doubling `Pt{80, -10}` again panics |
| EllipticCurve.DoubleCorrected | src/curve.rs:48-75 | corrected doubling: same identity cases, slope from the corrected inverse, result `(rx, ry)` with `y` in `[0, p)` and `x` of the sign of `s² - 2x` |
| EllipticCurve.CanDoubleCorrectedWhenInvertible | src/curve.rs:62 | the corrected doubling is defined whenever `2y` is invertible modulo `p` |
| EllipticCurve.CorrectedSlopeExample | src/curve.rs:62 | at `(3, 6)`, the inverse of 12 modulo 97 is 89 and the slope is 59 |
| EllipticCurve.CorrectedSlopeExampleTwice | src/curve.rs:62 | at `(80, 10)`, the inverse of 20 modulo 97 is 34 and the slope is 58 |
| EllipticCurve.DoubleCorrectedExample | src/curve.rs:48-75 | the corrected doubling takes `(3, 6)` to `(80, 10)` |
| EllipticCurve.DoubleCorrectedExampleTwice | src/curve.rs:48-75 | the corrected doubling takes `(80, 10)` to `(3, 91)`, that is, `4·(3, 6)` |
| EllipticCurve.DoubleIsNegatedDoubleCorrected | src/curve.rs:70 | wherever both are defined, `double` as written is the negation modulo `p` of the corrected doubling |
| EllipticCurve.SameSlopeSamePoint | src/curve.rs:67-68 | congruent slopes give congruent tangent points |
| EllipticCurve.TangentIdentity | src/curve.rs:44-47 | polynomial identity behind the tangent rule: the new point's curve defect is the old defect plus the tangent error times `x3 - x` |
| EllipticCurve.TangentPointOnCurve | src/curve.rs:44-47 | at a curve point with tangent slope `s`, the point `(s² - 2x, s·(x - x3) - y)` is on the curve |
| EllipticCurve.OnCurveCongruent | src/curve.rs:47 | a point congruent to a curve point, or to its reflection in the x-axis, is on the curve |
| EllipticCurve.TangentResultOnCurve | src/curve.rs:64-70 | any `(rx, ry)` meeting lines 67-68's congruences is on the curve, and so is `(rx, -ry)` |
| EllipticCurve.TangentOnCurve | src/curve.rs:64-70 | the tangent step at a curve point gives a curve point, with `ry` or with `-ry` |
| EllipticCurve.DoubleOnCurve | src/curve.rs:48-75 | `double` as written maps curve points to curve points |
| EllipticCurve.DoubleCorrectedOnCurve | src/curve.rs:48-75 | the corrected doubling maps curve points to curve points |
| Arithmetic.ModN | src/arithmetic.rs:40-43 | a residue with its public value `n`; the modulus is passed to each operation instead of riding in a type parameter |
| Arithmetic.New | src/arithmetic.rs:46-47 | `new(v).n ≡ v`, smaller than the modulus in magnitude, with the sign of `v` |
| Arithmetic.NewUnique | src/arithmetic.rs:46-47 | `new(v).n` is the only value with those three properties |
| Arithmetic.NewIdempotent | src/arithmetic.rs:46-47 | reducing an already reduced value changes nothing |
| Arithmetic.NewEqualCongruent | src/arithmetic.rs:46-47 | equal residues come from congruent values |
| Arithmetic.NewCongruentEqual | src/arithmetic.rs:46-47 | congruent values that are not of opposite signs give equal residues |
| Arithmetic.NewExamples | src/arithmetic.rs:68-77 | modulo 5, `123123123` reduces to 3 and `567459` to 4 |
| Arithmetic.NewKeepsSign | src/arithmetic.rs:47 | modulo 5, `new(-3)` is -3 and `new(2)` is 2, although -3 ≡ 2 |
| Arithmetic.NewCanonical | src/arithmetic.rs:46-47 | corrected constructor `((v % N) + N) % N`: the result is in `[0, N)` and congruent to `v` |
| Arithmetic.NewCanonicalCongruent | src/arithmetic.rs:46-47 | two values have equal canonical residues exactly when they are congruent |
| Arithmetic.NewCanonicalAgrees | src/arithmetic.rs:46-47 | for `v >= 0` the canonical residue is the one `new` returns |
| Arithmetic.NewCanonicalIdempotent | src/arithmetic.rs:46-47 | reducing a canonical residue again changes nothing |
| Arithmetic.NewCanonicalExamples | src/arithmetic.rs:68-77 | modulo 5, -3 is 2 and `123123123` is still 3 |

## Left out

- `i64` overflow is not modelled: every integer is unbounded. This covers `3 * x.pow(2)`, `s.pow(2)`, `s * x` and `i64::MIN / -1`. The identity `try_into().unwrap()` conversions (src/curve.rs:56-58) therefore cannot fail and are dropped.
- The `mod_field!` macro, `lazy_static`, `FromStr` parsing of the modulus, and the `Display`/`Debug` impls (src/arithmetic.rs:8-38, 53-58) are not modelled. They carry no arithmetic; the modulus is a parameter instead.
- `PhantomData`, which ties a `ModN` to its modulus at type level (src/arithmetic.rs:40-43), is not modelled. The model passes the modulus explicitly, so it does not rule out combining residues of two different moduli.
- Point addition (src/curve.rs:77-104) is commented out in the source, so it is not modelled.
- Scalar multiplication and the `ModN` `+`, `-`, `*` operations are not in the source files, so they are not modelled either.
- src/main.rs, a demo that prints, is not part of this model.
- EllipticCurve.EgcdNonNegative, EllipticCurve.EgcdIsGcd, EllipticCurve.InverseModComplete and EllipticCurve.InverseModValue require non-negative arguments. For negative arguments `egcd` may return a negative gcd, as EllipticCurve.InverseModMissesNegative shows.

## Findings

| source | as written | input that shows it | evidently intended | confidence | as-written member | corrected member |
|---|---|---|---|---|---|---|
| src/curve.rs:70 | `double` returns `Pt{x: rx, y: -ry}`, but `ry` already is the doubled point's y, so the result is `-(2P)` | `a = 2, b = 3, p = 97`, `P = (3, 6)`: result `(80, -10)` | `(80, 10)`, i.e. `Pt{x: rx, y: ry}` | not executed; high | EllipticCurve.DoubleExampleIsNegated | EllipticCurve.DoubleCorrected |
| src/curve.rs:30 | `inverse_mod` accepts only gcd `== 1`, but `egcd` of a negative residue can report gcd -1, so an existing inverse is missed; `modular_division` passes `den % modulo`, which is negative for a negative `den`, and its `unwrap` then panics | `inverse_mod(-1, 5)` is `None` although 4 inverts -1; doubling `(80, -10)` on `p = 97` panics | reduce `a` into `[0, m)` before `egcd`, so that every invertible value gets its inverse | not executed; high | EllipticCurve.InverseModMissesNegative | EllipticCurve.InverseModCanonical |
| src/arithmetic.rs:47 | `ModN::new` stores `n % N`, which keeps the sign of `n`, so two congruent values can give different residues | modulo 5, `new(-3).n == -3` while `new(2).n == 2` | `((n % N) + N) % N`, the canonical value in `[0, N)` | not executed; medium | Arithmetic.NewKeepsSign | Arithmetic.NewCanonical |
