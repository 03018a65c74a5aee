/** Rust's integer `/` and `%`, which truncate toward zero: the quotient is
    rounded toward zero and the remainder takes the sign of the dividend.
    Dafny's own `/` and `%` are Euclidean, so the model spells these out. */
module RustInt {
  import opened Modular

  function Abs(a: int): nat
  {
    if a < 0 then -a else a
  }

  /** `a % b` in Rust: smaller than the divisor in magnitude, with the
      dividend's sign. */
  function Rem(a: int, b: int): (r: int)
    requires b != 0
    ensures Abs(r) < Abs(b)
    ensures a >= 0 ==> r >= 0
    ensures a <= 0 ==> r <= 0
  {
    if a >= 0 then a % Abs(b) else -((-a) % Abs(b))
  }

  /** `a / b` in Rust: rounded toward zero, so that quotient and remainder
      recombine to the dividend. */
  function Div(a: int, b: int): (r: int)
    requires b != 0
    ensures r * b + Rem(a, b) == a
    ensures Abs(r) * Abs(b) <= Abs(a)
  {
    var m := Abs(a) / Abs(b);
    QuotientRecombines(a, b, m, Abs(a) % Abs(b));
    if (a >= 0) == (b > 0) then m else -m
  }

  lemma QuotientRecombines(a: int, b: int, m: int, s: int)
    requires b != 0 && m == Abs(a) / Abs(b) && s == Abs(a) % Abs(b)
    ensures (if (a >= 0) == (b > 0) then m else -m) * b + Rem(a, b) == a
    ensures m >= 0 && m * Abs(b) <= Abs(a)
  {
    var d := Abs(b);
    assert Abs(a) == m * d + s && 0 <= s < d && m >= 0;
    assert Rem(a, b) == if a >= 0 then s else -s;
    if b > 0 {
      assert m * b == m * d;
    } else {
      assert (-m) * b == m * d;
    }
  }

  /** For a positive modulus, the truncated remainder is congruent to the dividend. */
  lemma RemCongruent(a: int, q: int)
    requires q > 0
    ensures Rem(a, q) % q == a % q
  {
    var d := Div(a, q);
    ModAddMultiple(d, Rem(a, q), q);
  }

  /** The canonicalising expression `(a % q + q) % q` is the Euclidean residue. */
  lemma CanonicalIsEuclidean(a: int, q: int)
    requires q > 0
    ensures Rem(Rem(a, q) + q, q) == a % q
  {
    var r := Rem(a, q);
    assert r + q >= 0;
    RemCongruent(a, q);
    ModAddMultiple(1, r, q);
  }

  /** Reducing one factor first does not change the truncated remainder of a product. */
  lemma RemMulRem(x: int, y: int, q: int)
    requires q > 0
    ensures Rem(Rem(x, q) * y, q) == Rem(x * y, q)
    ensures Rem(y * Rem(x, q), q) == Rem(y * x, q)
  {
    if x >= 0 && y >= 0 {
      RemMulSameSign(x, y, q);
    } else if x >= 0 {
      RemMulNegativeRight(x, y, q);
    } else if y >= 0 {
      RemMulNegativeLeft(x, y, q);
    } else {
      RemMulBothNegative(x, y, q);
    }
    Commute(Rem(x, q), y);
    Commute(x, y);
  }

  lemma Commute(a: int, b: int)
    ensures a * b == b * a
  {
  }

  lemma RemMulNegativeRight(x: nat, y: int, q: int)
    requires q > 0 && y < 0
    ensures Rem(Rem(x, q) * y, q) == Rem(x * y, q)
  {
    RemMulSameSign(x, -y, q);
    RemNegate(Rem(x, q) * y, q);
    RemNegate(x * y, q);
    assert -(Rem(x, q) * y) == Rem(x, q) * (-y);
    assert -(x * y) == x * (-y);
  }

  lemma RemMulNegativeLeft(x: int, y: nat, q: int)
    requires q > 0 && x < 0
    ensures Rem(Rem(x, q) * y, q) == Rem(x * y, q)
  {
    assert Rem(x, q) == -Rem(-x, q);
    RemMulSameSign(-x, y, q);
    RemNegate(Rem(-x, q) * y, q);
    RemNegate((-x) * y, q);
    assert Rem(x, q) * y == -(Rem(-x, q) * y);
    assert x * y == -((-x) * y);
  }

  lemma RemMulBothNegative(x: int, y: int, q: int)
    requires q > 0 && x < 0 && y < 0
    ensures Rem(Rem(x, q) * y, q) == Rem(x * y, q)
  {
    assert Rem(x, q) == -Rem(-x, q);
    RemMulSameSign(-x, -y, q);
    assert Rem(x, q) * y == Rem(-x, q) * (-y);
    assert x * y == (-x) * (-y);
  }

  lemma RemMulSameSign(x: nat, y: nat, q: int)
    requires q > 0
    ensures Rem(Rem(x, q) * y, q) == Rem(x * y, q)
  {
    var r := x % q;
    assert Rem(x, q) == r;
    assert r * y >= 0 && x * y >= 0;
    ModMul(x, y, q);
  }

  /** The truncated remainder is odd in the dividend. */
  lemma RemNegate(z: int, q: int)
    requires q > 0
    ensures Rem(-z, q) == -Rem(z, q)
  {
  }
}
