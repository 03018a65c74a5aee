/** Euclidean residues (Dafny's own `%`), powers, divisibility and the gcd,
    the mathematical vocabulary the field and the transform are specified in. */
module Modular {

  /** Integer power `b^e`. */
  function Pow(b: int, e: nat): int
    decreases e
  {
    if e == 0 then 1 else b * Pow(b, e - 1)
  }

  /** Power of two `2^k`. */
  function Pow2(k: nat): (r: nat)
    ensures r > 0
    decreases k
  {
    if k == 0 then 1 else 2 * Pow2(k - 1)
  }

  /** `n >> k`: the bits of `n` from bit `k` up. */
  function ShiftRight(n: nat, k: nat): (r: nat)
    ensures r * Pow2(k) <= n < (r + 1) * Pow2(k)
  {
    FloorDivision(n, Pow2(k));
    n / Pow2(k)
  }

  lemma FloorDivision(n: nat, p: int)
    requires p > 0
    ensures n / p >= 0 && (n / p) * p <= n < (n / p + 1) * p
  {
    var t, m := n / p, n % p;
    assert n == t * p + m && 0 <= m < p;
    assert (t + 1) * p == t * p + p;
    if t < 0 {
      MulAtLeast(-t, p);
    }
  }

  lemma MulAtLeast(m: int, d: int)
    requires m >= 1 && d > 0
    ensures m * d >= d
  {
    assert (m - 1) * d >= 0;
  }

  /** Quotient and remainder are determined by `n == u * d + s` with `0 <= s < d`. */
  lemma DivModUnique(n: int, d: int, u: int, s: int)
    requires 0 < d && n == u * d + s && 0 <= s < d
    ensures n / d == u && n % d == s
  {
    var m := n / d - u;
    assert n == (n / d) * d + n % d;
    assert m * d == s - n % d;
    if m > 0 {
      MulAtLeast(m, d);
    } else if m < 0 {
      MulAtLeast(-m, d);
    }
  }

  lemma MultipleMod(k: int, d: int)
    requires d > 0
    ensures (k * d) % d == 0 && (d * k) % d == 0
  {
    DivModUnique(k * d, d, k, 0);
  }

  /** Adding a multiple of `d` does not change the residue. */
  lemma ModAddMultiple(k: int, z: int, d: int)
    requires d > 0
    ensures (k * d + z) % d == z % d
  {
    assert z == (z / d) * d + z % d;
    assert k * d + z == (k + z / d) * d + z % d;
    DivModUnique(k * d + z, d, k + z / d, z % d);
  }

  lemma ModOfResidue(a: int, d: int)
    requires d > 0
    ensures (a % d) % d == a % d
  {
    DivModUnique(a % d, d, 0, a % d);
  }

  lemma ModAdd(a: int, b: int, d: int)
    requires d > 0
    ensures ((a % d) + b) % d == (a + b) % d
    ensures (a + (b % d)) % d == (a + b) % d
  {
    assert a == (a / d) * d + a % d;
    ModAddMultiple(a / d, (a % d) + b, d);
    assert b == (b / d) * d + b % d;
    ModAddMultiple(b / d, a + (b % d), d);
  }

  lemma ModMul(a: int, b: int, d: int)
    requires d > 0
    ensures ((a % d) * b) % d == (a * b) % d
    ensures (a * (b % d)) % d == (a * b) % d
  {
    assert a == (a / d) * d + a % d;
    assert a * b == ((a / d) * b) * d + (a % d) * b;
    ModAddMultiple((a / d) * b, (a % d) * b, d);
    assert b == (b / d) * d + b % d;
    assert a * b == ((b / d) * a) * d + a * (b % d);
    ModAddMultiple((b / d) * a, a * (b % d), d);
  }

  lemma PowAdd(b: int, e1: nat, e2: nat)
    ensures Pow(b, e1 + e2) == Pow(b, e1) * Pow(b, e2)
    decreases e1
  {
    if e1 > 0 {
      PowAdd(b, e1 - 1, e2);
      assert Pow(b, e1 + e2) == b * Pow(b, e1 - 1 + e2);
    }
  }

  lemma PowNonNegative(b: int, e: nat)
    requires b >= 0
    ensures Pow(b, e) >= 0
    decreases e
  {
    if e > 0 {
      PowNonNegative(b, e - 1);
    }
  }

  lemma Pow2Add(a: nat, b: nat)
    ensures Pow2(a + b) == Pow2(a) * Pow2(b)
    decreases a
  {
    if a > 0 {
      Pow2Add(a - 1, b);
    }
  }

  lemma Pow2Monotone(a: nat, b: nat)
    requires a <= b
    ensures Pow2(a) <= Pow2(b)
    decreases b
  {
    if b > a {
      Pow2Monotone(a, b - 1);
    }
  }

  lemma PowOne(e: nat)
    ensures Pow(1, e) == 1
    decreases e
  {
    if e > 0 {
      PowOne(e - 1);
    }
  }

  lemma MulShuffle(a: int, b: int, c: int, d: int)
    ensures (a * b) * (c * d) == (a * c) * (b * d)
  {
  }

  lemma PowOfProduct(a: int, b: int, e: nat)
    ensures Pow(a * b, e) == Pow(a, e) * Pow(b, e)
    decreases e
  {
    if e > 0 {
      PowOfProduct(a, b, e - 1);
      var pa, pb := Pow(a, e - 1), Pow(b, e - 1);
      assert Pow(a * b, e) == (a * b) * (pa * pb);
      MulShuffle(a, b, pa, pb);
    }
  }

  lemma MulPred(x: int, y: int)
    ensures x * y == x * (y - 1) + x
  {
  }

  lemma MulNonNegative(x: nat, y: nat)
    ensures x * y >= 0
  {
  }

  /** `b^(e1 * e2) == (b^e1)^e2`. */
  lemma PowOfPow(b: int, e1: nat, e2: nat)
    ensures Pow(b, e1 * e2) == Pow(Pow(b, e1), e2)
    decreases e2
  {
    if e2 > 0 {
      PowOfPow(b, e1, e2 - 1);
      var k := e1 * (e2 - 1);
      MulPred(e1, e2);
      MulNonNegative(e1, e2 - 1);
      assert e1 * e2 == k + e1;
      PowAdd(b, k, e1);
      var p, r := Pow(b, e1), Pow(b, k);
      assert Pow(b, e1 * e2) == r * p;
      assert Pow(p, e2) == p * Pow(p, e2 - 1);
      assert Pow(p, e2 - 1) == r;
    }
  }

  /** `(w * w)^e == w^(2 * e)`. */
  lemma PowOfSquare(w: int, e: nat)
    ensures Pow(w * w, e) == Pow(w, 2 * e)
  {
    PowOfProduct(w, w, e);
    PowAdd(w, e, e);
  }

  /** Reducing the base first does not change a power's residue. */
  lemma PowMod(b: int, e: nat, q: int)
    requires q > 0
    ensures Pow(b % q, e) % q == Pow(b, e) % q
    decreases e
  {
    if e > 0 {
      PowMod(b, e - 1, q);
      var p, r := Pow(b, e - 1), Pow(b % q, e - 1);
      ModMul(b % q, r, q);
      ModMul(b % q, p, q);
      assert ((b % q) * r) % q == ((b % q) * p) % q;
      ModMul(b, p, q);
    }
  }

  /** If `b^h == 1 (mod q)`, exponents may be shifted by multiples of `h`. */
  lemma PowShift(b: int, e: nat, h: nat, t: nat, q: int)
    requires q > 1 && Pow(b, h) % q == 1
    ensures Pow(b, e + h * t) % q == Pow(b, e) % q
  {
    PowAdd(b, e, h * t);
    PowOfPow(b, h, t);
    PowMod(Pow(b, h), t, q);
    PowOne(t);
    assert Pow(b, h * t) % q == 1;
    ModMul(Pow(b, e), Pow(b, h * t), q);
  }

  /** `n / 2^k` gains the bit `k` of `n` when `k` decreases by one. */
  lemma HalvingPrefix(n: nat, k: nat)
    ensures ShiftRight(n, k) == 2 * ShiftRight(n, k + 1) + ShiftRight(n, k) % 2
  {
    var p := Pow2(k);
    var t := n / p;
    assert n == t * p + n % p;
    assert t == 2 * (t / 2) + t % 2;
    assert n == (t / 2) * (2 * p) + ((t % 2) * p + n % p);
    assert 0 <= (t % 2) * p + n % p < 2 * p;
    DivModUnique(n, 2 * p, t / 2, (t % 2) * p + n % p);
  }

  /** `d` divides `n` (for `d > 0`). */
  ghost predicate Divides(d: int, n: int)
    requires d > 0
  {
    n % d == 0
  }

  /** `g` is a greatest common divisor of `x` and `y`: a non-negative common
      divisor that every positive common divisor divides. */
  ghost predicate IsGcd(g: int, x: int, y: int)
  {
    && g >= 0
    && (g == 0 ==> x == 0 && y == 0)
    && (g > 0 ==> Divides(g, x) && Divides(g, y))
    && forall d :: d > 0 && Divides(d, x) && Divides(d, y) ==> Divides(d, g)
  }

  /** `x` and `y` have no positive common divisor other than 1. */
  ghost predicate Coprime(x: int, y: int)
  {
    forall d :: d > 0 && Divides(d, x) && Divides(d, y) ==> d == 1
  }

  lemma DividesLinear(d: int, a: int, b: int, m: int, n: int)
    requires d > 0 && Divides(d, a) && Divides(d, b)
    ensures Divides(d, m * a + n * b)
  {
    assert a == (a / d) * d;
    assert b == (b / d) * d;
    assert m * a + n * b == (m * (a / d) + n * (b / d)) * d;
    MultipleMod(m * (a / d) + n * (b / d), d);
  }

  lemma DividesOne(d: int)
    requires d > 0 && Divides(d, 1)
    ensures d == 1
  {
    if d > 1 {
      DivModUnique(1, d, 0, 1);
    }
  }

  /** `q` is prime: its only positive divisors are 1 and itself. */
  ghost predicate IsPrime(q: int)
  {
    q > 1 && forall d :: d > 0 && Divides(d, q) ==> d == 1 || d == q
  }

  /** A prime is coprime to every number it does not divide. */
  lemma CoprimeOfPrime(a: int, q: int)
    requires IsPrime(q) && a % q != 0
    ensures Coprime(a, q)
  {
    forall d | d > 0 && Divides(d, a) && Divides(d, q)
      ensures d == 1
    {
      assert d == 1 || d == q;
    }
  }
}
