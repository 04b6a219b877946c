/**
  Residues modulo a field modulus (src/arithmetic.rs).

  In the source, `ModN<T>` carries its modulus in the type `T`, which a macro
  declares from a decimal literal; here the modulus is an explicit parameter
  of every operation. The value is a `BigInt`, so `n` is an unbounded `int`,
  and `BigInt`'s `%` truncates toward zero like the machine integers' does.
 */
module Arithmetic {
  import opened RustInt
  import opened Congruence

  /** A residue `n` modulo the (implicit) modulus. */
  datatype ModN = ModN(n: int)

  /**
    `ModN::new(v)`: `v % modulus`. The remainder keeps the sign of `v`, so a
    negative `v` gives a residue in `(-|modulus|, 0]`. A zero modulus panics.
   */
  function New(modulus: int, v: int): (r: ModN)
    requires modulus != 0
    ensures Congruent(r.n, v, modulus)
    ensures Abs(r.n) < Abs(modulus)
    ensures v >= 0 ==> 0 <= r.n
    ensures v <= 0 ==> r.n <= 0
  {
    TRemCongruent(v, modulus);
    ModN(TRem(v, modulus))
  }

  /**
    `New` is determined by its contract: the one value congruent to `v`,
    smaller than the modulus, and not of the opposite sign to `v`.
   */
  lemma NewUnique(modulus: int, v: int, r: int)
    requires modulus != 0
    requires Congruent(r, v, modulus) && Abs(r) < Abs(modulus)
    requires (v >= 0 ==> 0 <= r) && (v <= 0 ==> r <= 0)
    ensures New(modulus, v).n == r
  {
    var n := New(modulus, v).n;
    CongruentSymmetric(r, v, modulus);
    CongruentTransitive(n, v, r, modulus);
    CongruentSameSign(n, r, modulus);
  }

  /** Reducing a residue again changes nothing. */
  lemma NewIdempotent(modulus: int, v: int)
    requires modulus != 0
    ensures New(modulus, New(modulus, v).n) == New(modulus, v)
  {
    TRemSmall(New(modulus, v).n, modulus);
  }

  /** Equal residues come from congruent values. */
  lemma NewEqualCongruent(modulus: int, v: int, w: int)
    requires modulus != 0 && New(modulus, v) == New(modulus, w)
    ensures Congruent(v, w, modulus)
  {
    var n := New(modulus, v).n;
    CongruentSymmetric(n, v, modulus);
    CongruentTransitive(v, n, w, modulus);
  }

  /** Congruent values that are not of opposite signs give equal residues. */
  lemma NewCongruentEqual(modulus: int, v: int, w: int)
    requires modulus != 0 && Congruent(v, w, modulus)
    requires (v >= 0 && w >= 0) || (v <= 0 && w <= 0)
    ensures New(modulus, v) == New(modulus, w)
  {
    var n, n' := New(modulus, v).n, New(modulus, w).n;
    CongruentTransitive(n, v, w, modulus);
    CongruentSymmetric(n', w, modulus);
    CongruentTransitive(n, w, n', modulus);
    CongruentSameSign(n, n', modulus);
  }

  /** Over the field of 5 elements, 123123123 is 3 and 567459 is 4. */
  lemma NewExamples()
    ensures New(5, 123123123).n == 3
    ensures New(5, 567459).n == 4
  {
  }

  /**
    As written, `new` is not canonical: -3 and 2 are congruent modulo 5, but
    `new(-3)` is -3 and `new(2)` is 2.
   */
  lemma NewKeepsSign()
    ensures New(5, -3).n == -3 && New(5, 2).n == 2
    ensures Congruent(-3, 2, 5) && New(5, -3) != New(5, 2)
  {
    CongruentIntro(-3, 2, 5, -1);
  }

  /**
    The canonical residue: `((v % N) + N) % N` for a positive modulus, which
    always lies in `[0, N)`.
   */
  function NewCanonical(modulus: int, v: int): (r: ModN)
    requires modulus > 0
    ensures 0 <= r.n < modulus
    ensures Congruent(r.n, v, modulus)
  {
    ReduceCongruent(v, modulus);
    ReduceRange(v, modulus);
    ModN(TRem(TRem(v, modulus) + modulus, modulus))
  }

  /** Two values have the same canonical residue exactly when they are congruent. */
  lemma NewCanonicalCongruent(modulus: int, v: int, w: int)
    requires modulus > 0
    ensures NewCanonical(modulus, v) == NewCanonical(modulus, w) <==> Congruent(v, w, modulus)
  {
    var n, n' := NewCanonical(modulus, v).n, NewCanonical(modulus, w).n;
    CongruentSymmetric(n, v, modulus);
    if n == n' {
      CongruentTransitive(v, n, w, modulus);
    }
    if Congruent(v, w, modulus) {
      CongruentTransitive(n, v, w, modulus);
      CongruentSymmetric(n', w, modulus);
      CongruentTransitive(n, w, n', modulus);
      CongruentCanonical(n, n', modulus);
    }
  }

  /** For a non-negative value the canonical residue is the one `new` returns. */
  lemma NewCanonicalAgrees(modulus: int, v: int)
    requires modulus > 0 && v >= 0
    ensures NewCanonical(modulus, v) == New(modulus, v)
  {
    NewUnique(modulus, v, NewCanonical(modulus, v).n);
  }

  /** Reducing a canonical residue again changes nothing. */
  lemma NewCanonicalIdempotent(modulus: int, v: int)
    requires modulus > 0
    ensures NewCanonical(modulus, NewCanonical(modulus, v).n) == NewCanonical(modulus, v)
  {
    var n := NewCanonical(modulus, v).n;
    NewCanonicalAgrees(modulus, n);
    NewIdempotent(modulus, n);
    TRemSmall(n, modulus);
  }

  /** The corrected residues of the examples: -3 is 2 modulo 5. */
  lemma NewCanonicalExamples()
    ensures NewCanonical(5, -3).n == 2
    ensures NewCanonical(5, 123123123).n == 3
  {
  }
}
