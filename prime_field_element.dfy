/** Arithmetic in the prime field Z/qZ: canonicalising construction, the four
    field operations with their same-field check, the extended Euclidean
    algorithm, the modular inverse, square-and-multiply exponentiation and
    the Legendre symbol. */
module PrimeField {
  import opened Modular
  import RustInt
  import opened Panics

  /** A field is represented by its modulus, which is greater than one. */
  type Modulus = q: int | q > 1 witness 2

  /** An element: an integer together with the modulus of its field.  Two
      elements are equal when both the value and the modulus agree.  An
      element written out directly (rather than through `New`) need not be
      reduced, so `value` is any integer. */
  datatype Element = Element(value: int, q: Modulus)

  /** The value lies in `[0, q)`. */
  predicate IsCanonical(a: Element)
  {
    0 <= a.value < a.q
  }

  /** The expression `(v % q + q) % q` with Rust's truncating `%`. */
  function Reduce(v: int, q: Modulus): (r: int)
    ensures r == v % q
  {
    RustInt.CanonicalIsEuclidean(v, q);
    RustInt.Rem(RustInt.Rem(v, q) + q, q)
  }

  /** `PrimeFieldElement::new`: the residue of `v`, also for negative `v`. */
  function New(v: int, q: Modulus): (r: Element)
    ensures r.q == q && IsCanonical(r)
    ensures r.value == v % q
  {
    Element(Reduce(v, q), q)
  }

  function Add(a: Element, b: Element): (r: Result<Element>)
    ensures r.Ok? <==> a.q == b.q
    ensures r.Err? ==> r.error == FieldMismatch
    ensures r.Ok? ==> r.value.q == a.q && r.value.value % a.q == (a.value + b.value) % a.q
    ensures r.Ok? && IsCanonical(a) && IsCanonical(b) ==> r.value.value == (a.value + b.value) % a.q
  {
    if a.q != b.q then Err(FieldMismatch)
    else
      RustInt.RemCongruent(a.value + b.value, a.q);
      Ok(Element(RustInt.Rem(a.value + b.value, a.q), a.q))
  }

  function Sub(a: Element, b: Element): (r: Result<Element>)
    ensures r.Ok? <==> a.q == b.q
    ensures r.Err? ==> r.error == FieldMismatch
    ensures r.Ok? ==> r.value.q == a.q && r.value.value == (a.value - b.value) % a.q
  {
    if a.q != b.q then Err(FieldMismatch)
    else Ok(Element(Reduce(a.value - b.value, a.q), a.q))
  }

  function Mul(a: Element, b: Element): (r: Result<Element>)
    ensures r.Ok? <==> a.q == b.q
    ensures r.Err? ==> r.error == FieldMismatch
    ensures r.Ok? ==> r.value.q == a.q && r.value.value % a.q == (a.value * b.value) % a.q
    ensures r.Ok? && a.value >= 0 && b.value >= 0 ==> r.value.value == (a.value * b.value) % a.q
  {
    if a.q != b.q then Err(FieldMismatch)
    else
      RustInt.RemCongruent(a.value * b.value, a.q);
      Ok(Element(RustInt.Rem(a.value * b.value, a.q), a.q))
  }

  /** `a / b`: `b`'s inverse times `a`, reduced.  Nothing checks that `b` is
      invertible. */
  function Div(a: Element, b: Element): (r: Result<Element>)
    ensures r.Ok? <==> a.q == b.q
    ensures r.Err? ==> r.error == FieldMismatch
    ensures r.Ok? ==> r.value.q == a.q && r.value.value % a.q == (Inv(b).value * a.value) % a.q
    ensures r.Ok? && a.value >= 0 ==> r.value.value == (Inv(b).value * a.value) % a.q
  {
    if a.q != b.q then Err(FieldMismatch)
    else
      RustInt.RemCongruent(Inv(b).value * a.value, a.q);
      Ok(Element(RustInt.Rem(Inv(b).value * a.value, a.q), a.q))
  }

  /** Adding back what was subtracted restores a reduced element. */
  lemma AddUndoesSub(a: Element, b: Element)
    requires a.q == b.q && IsCanonical(a) && IsCanonical(b)
    ensures Sub(a, b).Ok? && Add(Sub(a, b).value, b) == Ok(a)
  {
    var q := a.q;
    var d := Sub(a, b).value;
    ModAdd(a.value - b.value, b.value, q);
    DivModUnique(a.value, q, 0, a.value);
    assert Add(d, b).value.value == (d.value + b.value) % q;
  }

  /** The loop of `egcd`, as a function of its state: the triple it returns
      when started in state `(x, y, a0, a1, b0, b1)`.  On non-negative inputs
      the remainders stay non-negative, and the loop ends with zero only when
      both inputs are zero. */
  function EgcdLoop(x: int, y: int, a0: int, a1: int, b0: int, b1: int): (r: (int, int, int))
    ensures x >= 0 && y >= 0 ==> r.0 >= 0 && (r.0 == 0 <==> x == 0 && y == 0)
    decreases RustInt.Abs(y)
  {
    if y == 0 then (x, a0, b0)
    else
      var qt := RustInt.Div(x, y);
      EgcdLoop(y, RustInt.Rem(x, y), a1, a0 - qt * a1, b1, b0 - qt * b1)
  }

  /** One step of the loop keeps both Bezout relations. */
  lemma BezoutStep(x: int, y: int, a0: int, a1: int, b0: int, b1: int, x0: int, y0: int)
    requires y != 0
    requires a0 * x0 + b0 * y0 == x && a1 * x0 + b1 * y0 == y
    ensures var qt := RustInt.Div(x, y);
      (a0 - qt * a1) * x0 + (b0 - qt * b1) * y0 == RustInt.Rem(x, y)
  {
    var qt := RustInt.Div(x, y);
    LinearStep(a0, a1, b0, b1, x0, y0, qt);
    assert qt * y + RustInt.Rem(x, y) == x;
  }

  /** Subtracting `qt` times the second combination from the first. */
  lemma LinearStep(a0: int, a1: int, b0: int, b1: int, x0: int, y0: int, qt: int)
    ensures (a0 - qt * a1) * x0 + (b0 - qt * b1) * y0 == (a0 * x0 + b0 * y0) - qt * (a1 * x0 + b1 * y0)
  {
    assert (a0 - qt * a1) * x0 == a0 * x0 - qt * (a1 * x0);
    assert (b0 - qt * b1) * y0 == b0 * y0 - qt * (b1 * y0);
    assert qt * (a1 * x0) + qt * (b1 * y0) == qt * (a1 * x0 + b1 * y0);
  }

  lemma {:induction false} EgcdLoopBezout(x: int, y: int, a0: int, a1: int, b0: int, b1: int, x0: int, y0: int)
    requires a0 * x0 + b0 * y0 == x && a1 * x0 + b1 * y0 == y
    ensures var r := EgcdLoop(x, y, a0, a1, b0, b1); r.1 * x0 + r.2 * y0 == r.0
    decreases RustInt.Abs(y)
  {
    if y != 0 {
      var qt := RustInt.Div(x, y);
      BezoutStep(x, y, a0, a1, b0, b1, x0, y0);
      EgcdLoopBezout(y, RustInt.Rem(x, y), a1, a0 - qt * a1, b1, b0 - qt * b1, x0, y0);
    }
  }

  /** On non-negative inputs the loop ends with a non-negative common divisor. */
  lemma {:induction false} EgcdLoopDivides(x: int, y: int, a0: int, a1: int, b0: int, b1: int)
    requires x >= 0 && y >= 0
    ensures var g := EgcdLoop(x, y, a0, a1, b0, b1).0;
      && g >= 0
      && (g == 0 ==> x == 0 && y == 0)
      && (g > 0 ==> Divides(g, x) && Divides(g, y))
    decreases y
  {
    if y == 0 {
      if x > 0 {
        MultipleMod(1, x);
      }
    } else {
      var qt, r := RustInt.Div(x, y), RustInt.Rem(x, y);
      EgcdLoopDivides(y, r, a1, a0 - qt * a1, b1, b0 - qt * b1);
      var g := EgcdLoop(y, r, a1, a0 - qt * a1, b1, b0 - qt * b1).0;
      DividesLinear(g, y, r, qt, 1);
    }
  }

  /** `egcd(x, y)` as a function: `(g, s, t)` with `s*x + t*y == g`, and `g`
      the gcd when both inputs are non-negative. */
  function ExtendedGcd(x: int, y: int): (r: (int, int, int))
    ensures r.1 * x + r.2 * y == r.0
    ensures x >= 0 && y >= 0 ==> IsGcd(r.0, x, y)
  {
    ExtendedGcdFacts(x, y);
    EgcdLoop(x, y, 1, 0, 0, 1)
  }

  lemma ExtendedGcdFacts(x: int, y: int)
    ensures var r := EgcdLoop(x, y, 1, 0, 0, 1); r.1 * x + r.2 * y == r.0
    ensures x >= 0 && y >= 0 ==> IsGcd(EgcdLoop(x, y, 1, 0, 0, 1).0, x, y)
  {
    EgcdLoopBezout(x, y, 1, 0, 0, 1, x, y);
    var r := EgcdLoop(x, y, 1, 0, 0, 1);
    if x >= 0 && y >= 0 {
      EgcdLoopDivides(x, y, 1, 0, 0, 1);
      forall d | d > 0 && Divides(d, x) && Divides(d, y)
        ensures Divides(d, r.0)
      {
        DividesLinear(d, x, y, r.1, r.2);
      }
    }
  }

  /** `egcd`: the iterative extended Euclidean algorithm, with truncating
      division as in the source. */
  method Egcd(x0: int, y0: int) returns (g: int, s: int, t: int)
    ensures (g, s, t) == ExtendedGcd(x0, y0)
    ensures s * x0 + t * y0 == g
    ensures x0 >= 0 && y0 >= 0 ==> IsGcd(g, x0, y0)
  {
    var x, y := x0, y0;
    var a0, a1, b0, b1 := 1, 0, 0, 1;
    while y != 0
      invariant a0 * x0 + b0 * y0 == x
      invariant a1 * x0 + b1 * y0 == y
      invariant EgcdLoop(x, y, a0, a1, b0, b1) == EgcdLoop(x0, y0, 1, 0, 0, 1)
      decreases RustInt.Abs(y)
    {
      var qt, r := RustInt.Div(x, y), RustInt.Rem(x, y);
      var c, d := a0 - qt * a1, b0 - qt * b1;
      BezoutStep(x, y, a0, a1, b0, b1, x0, y0);
      x := y;
      y := r;
      a0 := a1;
      a1 := c;
      b0 := b1;
      b1 := d;
    }
    g, s, t := x, a0, b0;
  }

  /** `inv`: the reduced Bezout coefficient of `a.value` in `egcd(q, a.value)`.
      It never fails; for a non-invertible `a` the value has no meaning. */
  function Inv(a: Element): (r: Element)
    ensures r.q == a.q && IsCanonical(r)
    ensures a.value == 0 ==> r.value == 0
  {
    var t := ExtendedGcd(a.q, a.value).2;
    Element(Reduce(t, a.q), a.q)
  }

  /** `Inv(a)` is an inverse of a reduced `a` exactly when `a.value` and `q` are coprime. */
  lemma InvIsInverse(a: Element)
    requires IsCanonical(a)
    ensures (Inv(a).value * a.value) % a.q == 1 <==> Coprime(a.value, a.q)
  {
    var q, v := a.q, a.value;
    var r := ExtendedGcd(q, v);
    var w := Inv(a).value;
    ModMul(r.2, v, q);
    assert (w * v) % q == (r.2 * v) % q;
    if Coprime(v, q) {
      BezoutInverse(q, v, r.0, r.1, r.2);
    }
    if (w * v) % q == 1 {
      InverseMeansCoprime(q, v, w);
    }
  }

  lemma BezoutInverse(q: int, v: int, g: int, s: int, t: int)
    requires q > 1 && s * q + t * v == g && IsGcd(g, q, v) && Coprime(v, q)
    ensures (t * v) % q == 1
  {
    assert g > 0 && Divides(g, q) && Divides(g, v);
    assert g == 1;
    assert t * v == (-s) * q + 1;
    ModAddMultiple(-s, 1, q);
    DivModUnique(1, q, 0, 1);
  }

  lemma InverseMeansCoprime(q: int, v: int, w: int)
    requires q > 1 && (w * v) % q == 1
    ensures Coprime(v, q)
  {
    forall d | d > 0 && Divides(d, v) && Divides(d, q)
      ensures d == 1
    {
      var k := (w * v) / q;
      assert w * v == k * q + 1;
      DividesLinear(d, v, q, w, -k);
      assert w * v + (-k) * q == 1;
      DividesOne(d);
    }
  }

  /** Dividing by an invertible `b` and multiplying back by `b` restores `a`. */
  lemma DivThenMul(a: Element, b: Element)
    requires a.q == b.q && IsCanonical(a) && IsCanonical(b)
    requires Coprime(b.value, b.q)
    ensures Div(a, b).Ok? && Mul(Div(a, b).value, b) == Ok(a)
  {
    InvIsInverse(b);
    var d := Div(a, b).value;
    assert d.value == (Inv(b).value * a.value) % a.q;
    CancelInverse(Inv(b).value, a.value, b.value, a.q);
  }

  /** Multiplying `w * a` by `b` cancels `w` when `w * b == 1 (mod q)`. */
  /** The inverse of an invertible element is invertible, and inverting it
      again gives the element back. */
  lemma InvInvolution(a: Element)
    requires IsCanonical(a) && Coprime(a.value, a.q)
    ensures Inv(Inv(a)) == a
  {
    var q, v := a.q, a.value;
    var w := Inv(a).value;
    InvIsInverse(a);
    assert (v * w) % q == 1;
    InverseMeansCoprime(q, w, v);
    InvIsInverse(Inv(a));
    var c := Inv(Inv(a)).value;
    assert (w * c) % q == 1;
    CancelInverse(w, c, v, q);
    DivModUnique(v, q, 0, v);
  }

  lemma CancelInverse(w: int, a: int, b: int, q: int)
    requires q > 0 && (w * b) % q == 1 && 0 <= a < q
    ensures (((w * a) % q) * b) % q == a
  {
    ModMul(w * a, b, q);
    assert (w * a) * b == (w * b) * a;
    ModMul(w * b, a, q);
    DivModUnique(a, q, 0, a);
  }

  /** 2^127: the exponents `mod_pow` handles are the non-negative `i128`s. */
  const I128Bound: nat := Pow2(127)

  /** `a^pow`, reduced with Rust's `%`: what the square-and-multiply loop
      yields (for a non-negative base, the Euclidean residue of `a^pow`). */
  function Power(a: Element, pow: nat): (r: Element)
    ensures r.q == a.q && r.value % a.q == Pow(a.value, pow) % a.q
    ensures a.value >= 0 ==> r.value == Pow(a.value, pow) % a.q
    ensures pow == 0 ==> r.value == 1
  {
    PowerFacts(a, pow);
    Element(RustInt.Rem(Pow(a.value, pow), a.q), a.q)
  }

  lemma PowerFacts(a: Element, pow: nat)
    ensures RustInt.Rem(Pow(a.value, pow), a.q) % a.q == Pow(a.value, pow) % a.q
    ensures a.value >= 0 ==> RustInt.Rem(Pow(a.value, pow), a.q) == Pow(a.value, pow) % a.q
    ensures pow == 0 ==> RustInt.Rem(Pow(a.value, pow), a.q) == 1
  {
    RustInt.RemCongruent(Pow(a.value, pow), a.q);
    if a.value >= 0 {
      PowNonNegative(a.value, pow);
    }
    if pow == 0 {
      DivModUnique(1, a.q, 0, 1);
    }
  }

  lemma PowerSquare(a: Element, e: nat)
    ensures Mul(Power(a, e), Power(a, e)) == Ok(Power(a, 2 * e))
  {
    var p := Pow(a.value, e);
    RustInt.RemMulRem(p, RustInt.Rem(p, a.q), a.q);
    RustInt.RemMulRem(p, p, a.q);
    PowAdd(a.value, e, e);
  }

  lemma PowerStep(a: Element, e: nat)
    ensures Mul(Power(a, e), a) == Ok(Power(a, e + 1))
  {
    var p := Pow(a.value, e);
    RustInt.RemMulRem(p, a.value, a.q);
    assert Pow(a.value, e + 1) == p * a.value;
  }

  /** `mod_pow`: 128 rounds of left-to-right square-and-multiply, testing the
      exponent's bits from bit 127 down to bit 0. */
  method ModPow(a: Element, pow: nat) returns (acc: Element)
    requires pow < I128Bound
    ensures acc == Power(a, pow)
  {
    acc := Element(1, a.q);
    var res := a;
    ExponentBelow(pow);
    for i := 0 to 128
      invariant acc == Power(a, ShiftRight(pow, 128 - i))
    {
      var k := 128 - 1 - i;
      SquareAndMultiply(a, pow, k, ShiftRight(pow, k + 1), ShiftRight(pow, k));
      acc := Mul(acc, acc).value;
      // `pow & (1 << k) != 0`, for a non-negative `pow`
      var isSet := ShiftRight(pow, k) % 2 == 1;
      if isSet {
        acc := Mul(acc, res).value;
      }
    }
    assert Pow2(0) == 1;
  }

  /** An exponent below `2^127` has no bits at or above bit 127. */
  lemma ExponentBelow(pow: nat)
    requires pow < I128Bound
    ensures ShiftRight(pow, 128) == 0
  {
    assert Pow2(128) == 2 * I128Bound;
    DivModUnique(pow, Pow2(128), 0, pow);
  }

  /** One round of `mod_pow`: squaring the power for the bits above `k` and
      multiplying by `a` when bit `k` is set gives the power for the bits
      from `k` up. */
  lemma SquareAndMultiply(a: Element, pow: nat, k: nat, e: nat, d: nat)
    requires e == ShiftRight(pow, k + 1) && d == ShiftRight(pow, k)
    ensures Mul(Power(a, e), Power(a, e)) == Ok(Power(a, 2 * e))
    ensures d % 2 == 1 ==> Mul(Power(a, 2 * e), a) == Ok(Power(a, d))
    ensures d % 2 == 0 ==> Power(a, 2 * e) == Power(a, d)
  {
    HalvingPrefix(pow, k);
    PowerSquare(a, e);
    if d % 2 == 1 {
      PowerStep(a, 2 * e);
    }
  }

  /** `legendre_symbol`: `a^((q-1)/2)`, reduced. */
  function LegendreSymbol(a: Element): (r: int)
    ensures r % a.q == Pow(a.value, (a.q - 1) / 2) % a.q
    ensures a.value >= 0 ==> 0 <= r < a.q
  {
    Power(a, (a.q - 1) / 2).value
  }

  /** The triple the source's `internal` test prints for `egcd(3, 19)`. */
  lemma EgcdTestVector()
    ensures ExtendedGcd(3, 19) == (1, -6, 1)
  {
    assert EgcdLoop(1, 0, -6, 19, 1, -3) == (1, -6, 1);
    assert EgcdLoop(3, 1, 1, -6, 0, 1) == EgcdLoop(1, 0, -6, 19, 1, -3);
    assert EgcdLoop(19, 3, 0, 1, 1, 0) == EgcdLoop(3, 1, 1, -6, 0, 1);
    assert EgcdLoop(3, 19, 1, 0, 0, 1) == EgcdLoop(19, 3, 0, 1, 1, 0);
  }

  /** The inverses checked by the source's `internal` test: 3 * 13 == 39 == 1 (mod 19). */
  lemma InvTestVector19()
    ensures Inv(Element(3, 19)) == New(13, 19)
  {
    assert EgcdLoop(1, 0, 1, -3, -6, 19) == (1, 1, -6);
    assert EgcdLoop(3, 1, 0, 1, 1, -6) == EgcdLoop(1, 0, 1, -3, -6, 19);
    assert EgcdLoop(19, 3, 1, 0, 0, 1) == EgcdLoop(3, 1, 0, 1, 1, -6);
  }

  /** 2 * 12 == 24 == 1 (mod 23). */
  lemma InvTestVector23()
    ensures Inv(New(2, 23)) == New(12, 23)
  {
    assert EgcdLoop(1, 0, 1, -2, -11, 23) == (1, 1, -11);
    assert EgcdLoop(2, 1, 0, 1, 1, -11) == EgcdLoop(1, 0, 1, -2, -11, 23);
    assert EgcdLoop(23, 2, 1, 0, 0, 1) == EgcdLoop(2, 1, 0, 1, 1, -11);
  }

  /** The sums and products checked by the source's `internal` test. */
  lemma ArithmeticTestVectors()
    ensures Mul(New(13, 19), Element(5, 19)) == Ok(New(8, 19))
    ensures Add(New(13, 19), Element(5, 19)) == Ok(New(18, 19))
    ensures Add(New(13, 19), Element(13, 19)) == Ok(New(7, 19))
    ensures Add(New(13, 19), New(13, 23)) == Err(FieldMismatch)
  {
  }

  /** 4 is a square modulo 19 and 2 is not. */
  lemma LegendreTestVectors()
    ensures LegendreSymbol(Element(4, 19)) == 1
    ensures LegendreSymbol(Element(2, 19)) == 18
    ensures LegendreSymbol(Element(0, 19)) == 0
  {
  }
}
