/** The corrected transform is inverted by the corrected `intt_fft`: for a
    prime modulus and a primitive `n`-th root of unity `omega`, transforming
    with `omega` and then with `omega^-1`, dividing by `n`, gives back the input. */
module NttInverse {
  import opened Modular
  import opened Panics
  import opened PrimeField
  import opened Seqs
  import opened Fft
  import opened FftProperties
  import opened CanonicalNtt

  /** `f(0) + ... + f(k - 1)`. */
  function Sum(f: nat -> int, k: nat): int
    decreases k
  {
    if k == 0 then 0 else Sum(f, k - 1) + f(k - 1)
  }

  lemma {:induction false} SumCongruent(f: nat -> int, g: nat -> int, k: nat, q: int)
    requires q > 0 && forall i :: 0 <= i < k ==> f(i) % q == g(i) % q
    ensures Sum(f, k) % q == Sum(g, k) % q
    decreases k
  {
    if k > 0 {
      SumCongruent(f, g, k - 1, q);
      AddMulCongruent(Sum(f, k - 1), Sum(g, k - 1), 1, f(k - 1), g(k - 1), q);
    }
  }

  lemma {:induction false} SumEqual(f: nat -> int, g: nat -> int, k: nat)
    requires forall i :: 0 <= i < k ==> f(i) == g(i)
    ensures Sum(f, k) == Sum(g, k)
    decreases k
  {
    if k > 0 {
      SumEqual(f, g, k - 1);
    }
  }

  /** Scaling every term scales the sum. */
  lemma {:induction false} SumScale(f: nat -> int, g: nat -> int, c: int, k: nat)
    requires forall i :: 0 <= i < k ==> g(i) == c * f(i)
    ensures Sum(g, k) == c * Sum(f, k)
    decreases k
  {
    if k > 0 {
      SumScale(f, g, c, k - 1);
      assert c * Sum(f, k) == c * Sum(f, k - 1) + c * f(k - 1);
    }
  }

  lemma {:induction false} SumAdd(f: nat -> int, g: nat -> int, s: nat -> int, k: nat)
    requires forall i :: 0 <= i < k ==> s(i) == f(i) + g(i)
    ensures Sum(s, k) == Sum(f, k) + Sum(g, k)
    decreases k
  {
    if k > 0 {
      SumAdd(f, g, s, k - 1);
    }
  }

  /** `j |-> sum_{i < m} f(i, j)`. */
  function Rows(f: (nat, nat) -> int, m: nat): nat -> int
  {
    (j: nat) => Sum((i: nat) => f(i, j), m)
  }

  /** `i |-> sum_{j < n} f(i, j)`. */
  function Cols(f: (nat, nat) -> int, n: nat): nat -> int
  {
    (i: nat) => Sum((j: nat) => f(i, j), n)
  }

  /** The order of a finite double sum can be exchanged. */
  lemma {:induction false} SumSwap(f: (nat, nat) -> int, m: nat, n: nat)
    ensures Sum(Rows(f, m), n) == Sum(Cols(f, n), m)
    decreases m
  {
    if m == 0 {
      SumEqual(Rows(f, 0), (j: nat) => 0, n);
      SumOfZeros(n);
    } else {
      SumSwap(f, m - 1, n);
      var last := (j: nat) => f(m - 1, j);
      forall j | 0 <= j < n
        ensures Rows(f, m)(j) == Rows(f, m - 1)(j) + last(j)
      {
      }
      SumAdd(Rows(f, m - 1), last, Rows(f, m), n);
      assert Cols(f, n)(m - 1) == Sum(last, n);
    }
  }

  lemma {:induction false} SumOfZeros(n: nat)
    ensures Sum((j: nat) => 0, n) == 0
    decreases n
  {
    if n > 0 {
      SumOfZeros(n - 1);
    }
  }

  /** A sum modulo `q` in which only the term `t` is non-zero modulo `q`. */
  lemma {:induction false} SumSingle(f: nat -> int, k: nat, t: nat, q: int)
    requires q > 0 && t < k
    requires forall i :: 0 <= i < k && i != t ==> f(i) % q == 0
    ensures Sum(f, k) % q == f(t) % q
    decreases k
  {
    if k - 1 == t {
      SumZero(f, t, q);
      ModAdd(Sum(f, t), f(t), q);
    } else {
      SumSingle(f, k - 1, t, q);
      var rest := Sum(f, k - 1);
      assert Sum(f, k) == rest + f(k - 1);
      AddMulCongruent(rest, rest, 1, f(k - 1), 0, q);
      assert Sum(f, k) % q == rest % q;
    }
  }

  lemma {:induction false} SumZero(f: nat -> int, k: nat, q: int)
    requires q > 0 && forall i :: 0 <= i < k ==> f(i) % q == 0
    ensures Sum(f, k) % q == 0
    decreases k
  {
    if k > 0 {
      SumZero(f, k - 1, q);
      AddMulCongruent(Sum(f, k - 1), 0, 1, f(k - 1), 0, q);
    }
  }

  /** Euclid's lemma: a prime that divides a product and not its first factor
      divides the second. */
  lemma Euclid(a: int, b: int, q: int)
    requires IsPrime(q) && (a * b) % q == 0 && a % q != 0
    ensures b % q == 0
  {
    ModOfResidue(a, q);
    CoprimeOfPrime(a % q, q);
    var ra := Element(a % q, q);
    InvIsInverse(ra);
    var v := Inv(ra).value;
    ModMul(v, a, q);
    UnitCancels(v, a, b, q);
  }

  /** A factor with an inverse modulo `q` can be cancelled from a multiple of `q`. */
  lemma UnitCancels(v: int, a: int, b: int, q: int)
    requires q > 0 && (v * a) % q == 1 && (a * b) % q == 0
    ensures b % q == 0
  {
    var p := a * b;
    ModMul(v * a, b, q);
    assert ((v * a) % q * b) % q == b % q;
    assert (v * a) * b == v * p;
    ModMul(v, p, q);
    assert (v * (p % q)) % q == 0;
  }

  /** `r^0 + r^1 + ... + r^(n-1)`. */
  function Powers(r: int): nat -> int
  {
    (j: nat) => Pow(r, j)
  }

  lemma {:induction false} GeometricSum(r: int, n: nat)
    ensures (r - 1) * Sum(Powers(r), n) == Pow(r, n) - 1
    decreases n
  {
    if n > 0 {
      GeometricSum(r, n - 1);
      var s, p := Sum(Powers(r), n - 1), Pow(r, n - 1);
      assert (r - 1) * (s + p) == (r - 1) * s + (r - 1) * p;
      assert (r - 1) * p == r * p - p;
    }
  }

  /** A geometric sum over an `n`-th root of unity other than 1 vanishes modulo a prime. */
  lemma GeometricVanishes(r: int, n: nat, q: int)
    requires IsPrime(q) && Pow(r, n) % q == 1 && r % q != 1
    ensures Sum(Powers(r), n) % q == 0
  {
    GeometricSum(r, n);
    var p := Pow(r, n);
    assert p == (p / q) * q + 1;
    MultipleMod(p / q, q);
    assert ((r - 1) * Sum(Powers(r), n)) % q == 0;
    if (r - 1) % q == 0 {
      ModAddMultiple(1, r - 1, q);
      assert r == (r - 1) + 1;
      ModAdd(r - 1, 1, q);
      DivModUnique(1, q, 0, 1);
    }
    Euclid(r - 1, Sum(Powers(r), n), q);
  }

  lemma {:induction false} SumOfOnes(n: nat)
    ensures Sum((j: nat) => 1, n) == n
    decreases n
  {
    if n > 0 {
      SumOfOnes(n - 1);
    }
  }

  /** A geometric sum over a number congruent to 1 is `n` modulo `q`. */
  lemma GeometricOne(r: int, n: nat, q: int)
    requires q > 1 && r % q == 1
    ensures Sum(Powers(r), n) % q == n % q
  {
    forall j: nat | 0 <= j < n
      ensures Powers(r)(j) % q == ((j: nat) => 1)(j) % q
    {
      PowMod(r, j, q);
      PowOne(j);
      DivModUnique(1, q, 0, 1);
    }
    SumCongruent(Powers(r), (j: nat) => 1, n, q);
    SumOfOnes(n);
  }

  /** `b` is a primitive `n`-th root of unity modulo `q`. */
  ghost predicate IsPrimitiveRoot(b: int, n: nat, q: int)
    requires q > 0
  {
    Pow(b, n) % q == 1 && forall d: nat :: 0 < d < n ==> Pow(b, d) % q != 1
  }

  /** Every power of an `n`-th root of unity is one. */
  lemma PowOfRoot(b: int, n: nat, t: nat, q: int)
    requires q > 1 && Pow(b, n) % q == 1
    ensures Pow(Pow(b, t), n) % q == 1
  {
    PowOfPow(b, t, n);
    PowOfPow(b, n, t);
    assert t * n == n * t;
    PowMod(Pow(b, n), t, q);
    PowOne(t);
    DivModUnique(1, q, 0, 1);
  }

  /** An inverse of an `n`-th root of unity is one. */
  lemma InverseOfRoot(w: int, u: int, n: nat, q: int)
    requires q > 1 && (w * u) % q == 1 && Pow(w, n) % q == 1
    ensures Pow(u, n) % q == 1
  {
    PowOfProduct(w, u, n);
    PowMod(w * u, n, q);
    PowOne(n);
    DivModUnique(1, q, 0, 1);
    ModMul(Pow(w, n), Pow(u, n), q);
    assert (Pow(w, n) * Pow(u, n)) % q == (1 * Pow(u, n)) % q by {
      ModMul(Pow(w, n), Pow(u, n), q);
    }
  }

  /** Multiplying by a number congruent to 1 keeps the residue. */
  lemma MulByOne(x: int, a: int, q: int)
    requires q > 1 && a % q == 1
    ensures (x * a) % q == x % q && (a * x) % q == x % q
  {
    ModMul(x, a, q);
    ModMul(a, x, q);
  }

  /** `(w * u)^m == 1 (mod q)` when `w * u == 1 (mod q)`. */
  lemma PowOfUnit(w: int, u: int, m: nat, q: int)
    requires q > 1 && (w * u) % q == 1
    ensures (Pow(w, m) * Pow(u, m)) % q == 1
  {
    PowOfProduct(w, u, m);
    PowMod(w * u, m, q);
    PowOne(m);
    DivModUnique(1, q, 0, 1);
  }

  lemma RatioAbove(w: int, u: int, i: nat, k: nat, n: nat, q: int)
    requires IsPrime(q) && (w * u) % q == 1 && IsPrimitiveRoot(w, n, q) && k < i < n
    ensures (Pow(w, i) * Pow(u, k)) % q != 1
  {
    var d := i - k;
    PowOfUnit(w, u, k, q);
    var a := Pow(w, k) * Pow(u, k);
    PowAdd(w, d, k);
    assert Pow(w, i) * Pow(u, k) == Pow(w, d) * a;
    MulByOne(Pow(w, d), a, q);
  }

  lemma RatioBelow(w: int, u: int, i: nat, k: nat, n: nat, q: int)
    requires IsPrime(q) && (w * u) % q == 1 && IsPrimitiveRoot(w, n, q) && i < k < n
    ensures (Pow(w, i) * Pow(u, k)) % q != 1
  {
    var d := k - i;
    PowOfUnit(w, u, i, q);
    var a := Pow(w, i) * Pow(u, i);
    PowAdd(u, i, d);
    assert Pow(w, i) * Pow(u, k) == a * Pow(u, d);
    MulByOne(Pow(u, d), a, q);
    if Pow(u, d) % q == 1 {
      PowOfUnit(w, u, d, q);
      MulByOne(Pow(w, d), Pow(u, d), q);
      assert false;
    }
  }

  /** `w^i * u^k` is congruent to 1 exactly when `i == k`, for `u` an inverse
      of a primitive `n`-th root `w` and `i, k < n`. */
  lemma RatioIsOne(w: int, u: int, i: nat, k: nat, n: nat, q: int)
    requires IsPrime(q) && (w * u) % q == 1 && IsPrimitiveRoot(w, n, q) && i < n && k < n
    ensures (Pow(w, i) * Pow(u, k)) % q == 1 <==> i == k
  {
    if i > k {
      RatioAbove(w, u, i, k, n, q);
    } else if i < k {
      RatioBelow(w, u, i, k, n, q);
    } else {
      PowOfUnit(w, u, i, q);
    }
  }

  /** The terms `w^(i * j) * u^(j * k)` of the composed transforms. */
  function Kernel(w: int, u: int, i: nat, k: nat): nat -> int
  {
    (j: nat) => Pow(w, i * j) * Pow(u, j * k)
  }

  lemma KernelIsPowers(w: int, u: int, i: nat, k: nat, j: nat)
    ensures Kernel(w, u, i, k)(j) == Powers(Pow(w, i) * Pow(u, k))(j)
  {
    PowOfPow(w, i, j);
    PowOfPow(u, k, j);
    assert j * k == k * j;
    PowOfProduct(Pow(w, i), Pow(u, k), j);
  }

  /** The orthogonality of the characters: `sum_j w^(i * j) * u^(j * k)` is
      `n` modulo `q` when `i == k` and 0 otherwise. */
  lemma Orthogonality(w: int, u: int, i: nat, k: nat, n: nat, q: int)
    requires IsPrime(q) && (w * u) % q == 1 && IsPrimitiveRoot(w, n, q) && i < n && k < n
    ensures Sum(Kernel(w, u, i, k), n) % q == if i == k then n % q else 0
  {
    var r := Pow(w, i) * Pow(u, k);
    forall j: nat | 0 <= j < n
      ensures Kernel(w, u, i, k)(j) == Powers(r)(j)
    {
      KernelIsPowers(w, u, i, k, j);
    }
    SumEqual(Kernel(w, u, i, k), Powers(r), n);
    PowOfProduct(Pow(w, i), Pow(u, k), n);
    PowOfRoot(w, n, i, q);
    InverseOfRoot(w, u, n, q);
    PowOfRoot(u, n, k, q);
    MulByOne(Pow(Pow(w, i), n), Pow(Pow(u, k), n), q);
    RatioIsOne(w, u, i, k, n, q);
    if i == k {
      GeometricOne(r, n, q);
    } else {
      GeometricVanishes(r, n, q);
    }
  }

  /** The terms of `DftSum(xs, w, j, _)` as a function of the index. */
  function Terms(xs: seq<int>, w: int, j: nat): nat -> int
  {
    (i: nat) => (if i < |xs| then xs[i] else 0) * Pow(w, i * j)
  }

  lemma {:induction false} DftSumAsSum(xs: seq<int>, w: int, j: nat, k: nat)
    requires k <= |xs|
    ensures DftSum(xs, w, j, k) == Sum(Terms(xs, w, j), k)
    decreases k
  {
    if k > 0 {
      DftSumAsSum(xs, w, j, k - 1);
    }
  }

  /** The term `x_i * w^(i * j) * u^(j * k)` of the composed transforms. */
  function ComposedTerm(xs: seq<int>, w: int, u: int, k: nat, i: nat, j: nat): int
  {
    (if i < |xs| then xs[i] else 0) * (Pow(w, i * j) * Pow(u, j * k))
  }

  function Composed(xs: seq<int>, w: int, u: int, k: nat): (nat, nat) -> int
  {
    (i: nat, j: nat) => ComposedTerm(xs, w, u, k, i, j)
  }

  /** Row `j` of the double sum is output `j` of the forward transform times `u^(j * k)`. */
  lemma RowOfComposed(xs: seq<int>, w: int, u: int, k: nat, j: nat)
    ensures Rows(Composed(xs, w, u, k), |xs|)(j) == DftSum(xs, w, j, |xs|) * Pow(u, j * k)
  {
    var c := Pow(u, j * k);
    var f := Terms(xs, w, j);
    var g := (i: nat) => Composed(xs, w, u, k)(i, j);
    forall i: nat | 0 <= i < |xs|
      ensures g(i) == c * f(i)
    {
      assert Composed(xs, w, u, k)(i, j) == ComposedTerm(xs, w, u, k, i, j);
      assert g(i) == Composed(xs, w, u, k)(i, j);
      assert f(i) == xs[i] * Pow(w, i * j);
      ScaleTerm(xs[i], Pow(w, i * j), c);
    }
    SumScale(f, g, c, |xs|);
    DftSumAsSum(xs, w, j, |xs|);
  }

  lemma ScaleTerm(x: int, p: int, c: int)
    ensures x * (p * c) == c * (x * p)
  {
  }

  /** Column `i` of the double sum is `x_i` times the orthogonality sum. */
  lemma ColOfComposed(xs: seq<int>, w: int, u: int, k: nat, i: nat, n: nat)
    requires i < |xs|
    ensures Cols(Composed(xs, w, u, k), n)(i) == xs[i] * Sum(Kernel(w, u, i, k), n)
  {
    var g := (j: nat) => Composed(xs, w, u, k)(i, j);
    forall j: nat | 0 <= j < n
      ensures g(j) == xs[i] * Kernel(w, u, i, k)(j)
    {
      assert Composed(xs, w, u, k)(i, j) == ComposedTerm(xs, w, u, k, i, j);
      assert g(j) == Composed(xs, w, u, k)(i, j);
    }
    SumScale(Kernel(w, u, i, k), g, xs[i], n);
  }

  /** The second transform, applied to the reduced outputs of the first, is
      congruent to the double sum taken row by row. */
  lemma SecondTransformIsRows(xs: seq<int>, ys: seq<int>, w: int, u: int, k: nat, q: Modulus)
    requires |ys| == |xs| && forall j :: 0 <= j < |xs| ==> ys[j] == DftSum(xs, w, j, |xs|) % q
    ensures DftSum(ys, u, k, |xs|) % q == Sum(Rows(Composed(xs, w, u, k), |xs|), |xs|) % q
  {
    var n := |xs|;
    var f := Composed(xs, w, u, k);
    DftSumAsSum(ys, u, k, n);
    forall j: nat | 0 <= j < n
      ensures Terms(ys, u, k)(j) % q == Rows(f, n)(j) % q
    {
      RowCongruent(xs, ys[j], w, u, k, j, q);
      assert Terms(ys, u, k)(j) == ys[j] * Pow(u, j * k);
    }
    SumCongruent(Terms(ys, u, k), Rows(f, n), n, q);
  }

  /** One row: the reduced output `y` of the first transform, times `u^(j * k)`. */
  lemma RowCongruent(xs: seq<int>, y: int, w: int, u: int, k: nat, j: nat, q: Modulus)
    requires y == DftSum(xs, w, j, |xs|) % q
    ensures (y * Pow(u, j * k)) % q == Rows(Composed(xs, w, u, k), |xs|)(j) % q
  {
    RowOfComposed(xs, w, u, k, j);
    ModMul(DftSum(xs, w, j, |xs|), Pow(u, j * k), q);
  }

  /** Taken column by column, the double sum keeps only `x_k * n`. */
  lemma ColsKeepDiagonal(xs: seq<int>, w: int, u: int, k: nat, q: Modulus)
    requires IsPrime(q) && (w * u) % q == 1 && IsPrimitiveRoot(w, |xs|, q) && k < |xs|
    ensures Sum(Cols(Composed(xs, w, u, k), |xs|), |xs|) % q == (xs[k] * |xs|) % q
  {
    var n := |xs|;
    var f := Composed(xs, w, u, k);
    forall i: nat | 0 <= i < n && i != k
      ensures Cols(f, n)(i) % q == 0
    {
      OffDiagonal(xs, w, u, k, i, q);
    }
    SumSingle(Cols(f, n), n, k, q);
    ColOfComposed(xs, w, u, k, k, n);
    Orthogonality(w, u, k, k, n, q);
    ModMul(xs[k], Sum(Kernel(w, u, k, k), n), q);
    ModMul(xs[k], n, q);
  }

  lemma OffDiagonal(xs: seq<int>, w: int, u: int, k: nat, i: nat, q: Modulus)
    requires IsPrime(q) && (w * u) % q == 1 && IsPrimitiveRoot(w, |xs|, q)
    requires k < |xs| && i < |xs| && i != k
    ensures Cols(Composed(xs, w, u, k), |xs|)(i) % q == 0
  {
    var n := |xs|;
    var s := Sum(Kernel(w, u, i, k), n);
    ColOfComposed(xs, w, u, k, i, n);
    assert Cols(Composed(xs, w, u, k), n)(i) == xs[i] * s;
    Orthogonality(w, u, i, k, n, q);
    assert s % q == 0;
    MultipleOfZero(xs[i], s, q);
  }

  lemma MultipleOfZero(a: int, s: int, q: int)
    requires q > 0 && s % q == 0
    ensures (a * s) % q == 0
  {
    ModMul(a, s, q);
    var z := s % q;
    assert z == 0 && a * z == 0;
  }

  /** Transforming with a primitive root `w` of order `n`, reducing, and
      transforming again with an inverse `u` of `w` gives `n` times the input,
      modulo a prime `q`. */
  lemma ComposedTransforms(xs: seq<int>, ys: seq<int>, w: int, u: int, k: nat, q: Modulus)
    requires IsPrime(q) && (w * u) % q == 1 && IsPrimitiveRoot(w, |xs|, q) && k < |xs|
    requires |ys| == |xs| && forall j :: 0 <= j < |xs| ==> ys[j] == DftSum(xs, w, j, |xs|) % q
    ensures DftSum(ys, u, k, |ys|) % q == (xs[k] * |xs|) % q
  {
    SecondTransformIsRows(xs, ys, w, u, k, q);
    SumSwap(Composed(xs, w, u, k), |xs|, |xs|);
    ColsKeepDiagonal(xs, w, u, k, q);
  }

  /** A primitive root of order at least 2 is non-zero, and its prime field
      is not the one of two elements. */
  lemma RootOfOddField(b: int, n: nat, q: Modulus)
    requires IsPrime(q) && 0 <= b < q && n >= 2 && IsPrimitiveRoot(b, n, q)
    ensures b != 0 && q != 2
  {
    if b == 0 {
      assert Pow(0, n) == 0;
      DivModUnique(0, q, 0, 0);
      assert false;
    }
    if q == 2 {
      assert b == 1;
      assert Pow(1, 1) % 2 == 1;
      assert false;
    }
  }

  /** An odd prime never divides a power of two. */
  lemma {:induction false} Pow2NotMultiple(n: nat, q: Modulus)
    requires IsPow2(n) && IsPrime(q) && q != 2
    ensures n % q != 0
    decreases n
  {
    if n == 1 {
      DivModUnique(1, q, 0, 1);
    } else {
      Pow2NotMultiple(n / 2, q);
      if n % q == 0 {
        DivModUnique(2, q, 0, 2);
        assert n == 2 * (n / 2);
        Euclid(2, n / 2, q);
        assert false;
      }
    }
  }

  /** Multiplying `x * n` by an inverse of `n` gives back a reduced `x`. */
  lemma CancelLength(a: int, x: int, n: int, q: Modulus)
    requires (a * (n % q)) % q == 1 && 0 <= x < q
    ensures (a * ((x * n) % q)) % q == x
  {
    ModMul(a, x * n, q);
    assert a * (x * n) == x * (a * n);
    ModMul(a, n, q);
    ModMul(x, a * n, q);
    DivModUnique(x, q, 0, x);
  }

  /** The powers of the inverse of a primitive root: it is an inverse and an
      `n`-th root of unity. */
  lemma InverseRootFacts(w: Element, n: nat)
    requires IsPrime(w.q) && IsCanonical(w) && n >= 2 && IsPrimitiveRoot(w.value, n, w.q)
    ensures (w.value * Inv(w).value) % w.q == 1 && Pow(Inv(w).value, n) % w.q == 1 && w.q != 2
  {
    RootOfOddField(w.value, n, w.q);
    DivModUnique(w.value, w.q, 0, w.value);
    CoprimeOfPrime(w.value, w.q);
    InvIsInverse(w);
    assert Inv(w).value * w.value == w.value * Inv(w).value;
    InverseOfRoot(w.value, Inv(w).value, n, w.q);
  }

  /** The length `n`, as a field element, is invertible. */
  lemma LengthInvertible(n: nat, q: Modulus)
    requires IsPow2(n) && IsPrime(q) && q != 2
    ensures (Inv(New(n, q)).value * (n % q)) % q == 1
  {
    Pow2NotMultiple(n, q);
    ModOfResidue(n, q);
    CoprimeOfPrime(n % q, q);
    InvIsInverse(New(n, q));
  }

  /** The corrected `intt_fft` inverts the corrected `ntt_fft`: for a prime
      modulus, a primitive `n`-th root of unity `omega` and `n` a power of two,
      the inverse transform of the transform of canonical entries is the input. */
  lemma InttInvertsNtt(x: seq<Element>, w: Element)
    requires |x| >= 2 && IsPow2(|x|) && IsPrime(w.q) && InField(x, w.q) && IsCanonical(w)
    requires IsPrimitiveRoot(w.value, |x|, w.q)
    ensures CanonicalNtt.Ntt(x, w).Ok? && CanonicalNtt.Intt(CanonicalNtt.Ntt(x, w).value, w) == Ok(x)
  {
    var n, q := |x|, w.q;
    var xs := Values(x);
    var u := Inv(w);
    NttIsDft(x, w);
    var y := DftTransform(xs, w.value, q);
    var ys := Values(y);
    InverseRootFacts(w, n);
    NttIsDft(y, u);
    var z := DftTransform(ys, u.value, q);
    var r := CanonicalNtt.Intt(y, w).value;
    LengthInvertible(n, q);
    forall k | 0 <= k < n
      ensures r[k] == x[k]
    {
      ComposedTransforms(xs, ys, w.value, u.value, k, q);
      assert z[k].value == (xs[k] * n) % q;
      CancelLength(Inv(New(n, q)).value, xs[k], n, q);
    }
    assert r == x;
  }

  /** On two entries both versions of the transform are `dft_finite_fields`. */
  lemma TwoEntriesAgree(x: seq<Element>, w: Element)
    requires |x| == 2
    ensures Fft.Ntt(x, w) == CanonicalNtt.Ntt(x, w) == Dft2(x, w)
  {
  }

  /** On two entries the transform as written has no recursion to get wrong,
      so `intt_fft` inverts `ntt_fft` there. */
  lemma TwoElementRoundTrip(x: seq<Element>, w: Element)
    requires |x| == 2 && IsPrime(w.q) && InField(x, w.q) && IsCanonical(w)
    requires IsPrimitiveRoot(w.value, 2, w.q)
    ensures Fft.Ntt(x, w).Ok? && Fft.Intt(Fft.Ntt(x, w).value, w) == Ok(x)
  {
    InttInvertsNtt(x, w);
    TwoEntriesAgree(x, w);
    var y := Fft.Ntt(x, w).value;
    TwoEntriesAgree(y, Inv(w));
  }

  /** `egcd(q, q - 1)` yields the coefficient -1, so `q - 1` is its own inverse. */
  lemma InvOfMinusOne(q: Modulus)
    requires q >= 3
    ensures Inv(Element(q - 1, q)) == Element(q - 1, q)
  {
    DivModUnique(q, q - 1, 1, 1);
    assert RustInt.Div(q, q - 1) == 1 && RustInt.Rem(q, q - 1) == 1;
    DivModUnique(q - 1, 1, q - 1, 0);
    assert RustInt.Div(q - 1, 1) == q - 1 && RustInt.Rem(q - 1, 1) == 0;
    assert EgcdLoop(1, 0, 1, -(q - 1), -1, q) == (1, 1, -1);
    assert EgcdLoop(q - 1, 1, 0, 1, 1, -1) == EgcdLoop(1, 0, 1, -(q - 1), -1, q);
    assert EgcdLoop(q, q - 1, 1, 0, 0, 1) == EgcdLoop(q - 1, 1, 0, 1, 1, -1);
    DivModUnique(-1, q, -1, q - 1);
  }

  /** For an odd modulus `egcd(q, 2)` yields `-(q - 1) / 2`, so 2 has the
      inverse `(q + 1) / 2`. */
  lemma InvOfTwo(q: Modulus)
    requires q % 2 == 1
    ensures Inv(Element(2, q)).value == (q + 1) / 2
  {
    var h := (q - 1) / 2;
    assert q == 2 * h + 1 && h >= 1;
    DivModUnique(q, 2, h, 1);
    assert RustInt.Div(q, 2) == h && RustInt.Rem(q, 2) == 1;
    DivModUnique(2, 1, 2, 0);
    assert RustInt.Div(2, 1) == 2 && RustInt.Rem(2, 1) == 0;
    assert EgcdLoop(1, 0, 1, -2, -h, 1 + 2 * h) == (1, 1, -h);
    assert EgcdLoop(2, 1, 0, 1, 1, -h) == EgcdLoop(1, 0, 1, -2, -h, 1 + 2 * h);
    assert EgcdLoop(q, 2, 1, 0, 0, 1) == EgcdLoop(2, 1, 0, 1, 1, -h);
    DivModUnique(-h, q, -1, q - h);
  }

  /** The two outputs of the transform at `q - 1` are `a + b` and `a - b`;
      transforming them again at `q - 1` doubles the input. */
  lemma DoubleTransformAtMinusOne(a: int, b: int, q: Modulus)
    ensures ((a + b) % q + (a + (q - 1) * b) % q) % q == (2 * a) % q
    ensures ((a + b) % q + (q - 1) * ((a + (q - 1) * b) % q)) % q == (2 * b) % q
  {
    var c := a + (q - 1) * b;
    var s, d := (a + b) % q, c % q;
    ModOfResidue(a + b, q);
    ModOfResidue(c, q);
    AddMulCongruent(s, a + b, 1, d, c, q);
    SumAtMinusOne(a, b, c, q);
    ModAddMultiple(b, 2 * a, q);
    AddMulCongruent(s, a + b, q - 1, d, c, q);
    DifferenceAtMinusOne(a, b, c, q);
    ModAddMultiple(c - b, 2 * b, q);
  }

  lemma SumAtMinusOne(a: int, b: int, c: int, q: int)
    requires c == a + (q - 1) * b
    ensures (a + b) + 1 * c == b * q + 2 * a
  {
    assert (q - 1) * b == q * b - b;
  }

  lemma DifferenceAtMinusOne(a: int, b: int, c: int, q: int)
    requires c == a + (q - 1) * b
    ensures (a + b) + (q - 1) * c == (c - b) * q + 2 * b
  {
    assert (q - 1) * c == q * c - c;
    assert (q - 1) * b == q * b - b;
    assert q * c - q * b == (c - b) * q;
  }

  /** Halving a doubled residue with the inverse `(q + 1) / 2` of 2. */
  lemma HalveDouble(a: int, q: Modulus)
    requires q % 2 == 1 && 0 <= a < q
    ensures (((q + 1) / 2) * ((2 * a) % q)) % q == a
  {
    HalfOfSuccessor(q);
    HalveWith(a, (q + 1) / 2, q);
  }

  lemma HalfOfSuccessor(q: int)
    requires q % 2 == 1
    ensures 2 * ((q + 1) / 2) == q + 1
  {
  }

  lemma HalveWith(a: int, h: int, q: Modulus)
    requires 0 <= a < q && 2 * h == q + 1
    ensures (h * ((2 * a) % q)) % q == a
  {
    var t := 2 * a;
    ModMul(h, t, q);
    HalfTimesDouble(a, h, q);
    HalveResidue(h * (t % q), h * t, a, q);
  }

  lemma HalveResidue(m: int, p: int, a: int, q: Modulus)
    requires 0 <= a < q && m % q == p % q && p == a * q + a
    ensures m % q == a
  {
    ModAddMultiple(a, a, q);
    DivModUnique(a, q, 0, a);
  }

  lemma HalfTimesDouble(a: int, h: int, q: int)
    requires q + 1 == 2 * h
    ensures h * (2 * a) == a * q + a
  {
    assert h * (2 * a) == (2 * h) * a;
    assert (q + 1) * a == a * q + a;
  }

  /** The two-entry round trip of `ntt_fft` and `intt_fft` at `omega = q - 1`
      holds for every odd modulus, prime or not. */
  lemma TwoElementRoundTripAtMinusOne(x: seq<Element>, w: Element)
    requires |x| == 2 && w.q % 2 == 1 && w.value == w.q - 1 && InField(x, w.q)
    ensures Fft.Ntt(x, w).Ok? && Fft.Intt(Fft.Ntt(x, w).value, w) == Ok(x)
  {
    NttOfTwo(x, w);
    InverseOfTwo(x, w);
  }

  /** `intt_fft` at `q - 1` maps the outputs of the forward transform of two
      entries back to those entries. */
  lemma InverseOfTwo(x: seq<Element>, w: Element)
    requires |x| == 2 && w.q % 2 == 1 && w.value == w.q - 1 && InField(x, w.q)
    ensures Fft.Intt([Element((x[0].value + x[1].value) % w.q, w.q), Element((x[0].value + w.value * x[1].value) % w.q, w.q)], w) == Ok(x)
  {
    var q := w.q;
    var a, b := x[0].value, x[1].value;
    assert w == Element(q - 1, q);
    InverseOfPair(a, b, w.value * b, q);
    SeqOfTwo(x, Element(a, q), Element(b, q));
  }

  /** `intt_fft` at `q - 1` maps the outputs `a + b` and `a - b` of the
      forward transform back to `a` and `b`. */
  lemma InverseOfPair(a: int, b: int, c: int, q: Modulus)
    requires q % 2 == 1 && 0 <= a < q && 0 <= b < q && c == (q - 1) * b
    ensures Fft.Intt([Element((a + b) % q, q), Element((a + c) % q, q)], Element(q - 1, q)) ==
      Ok([Element(a, q), Element(b, q)])
  {
    var s, d := (a + b) % q, (a + c) % q;
    var w := Element(q - 1, q);
    var y := [Element(s, q), Element(d, q)];
    InvOfMinusOne(q);
    assert InField(y, q);
    NttOfTwo(y, w);
    DoubleTransformAtMinusOne(a, b, q);
    var z := Fft.Ntt(y, w).value;
    assert z == [Element((2 * a) % q, q), Element((2 * b) % q, q)];
    HalveEntry(z[0], a, q);
    HalveEntry(z[1], b, q);
    var r := Fft.Intt(y, w).value;
    assert r[0] == Element(a, q) && r[1] == Element(b, q);
    SeqOfTwo(r, Element(a, q), Element(b, q));
  }

  /** Dividing a doubled residue by 2 for an odd modulus. */
  lemma HalveEntry(z: Element, a: int, q: Modulus)
    requires q % 2 == 1 && 0 <= a < q && z == Element((2 * a) % q, q)
    ensures Div(z, New(2, q)) == Ok(Element(a, q))
  {
    DivModUnique(2, q, 0, 2);
    InvOfTwo(q);
    HalveDouble(a, q);
  }
}
