/** What the transform of `ntt_fft` computes: when it panics, and the sum it
    evaluates when it does not. */
module FftProperties {
  import opened Modular
  import opened Panics
  import opened PrimeField
  import opened Seqs
  import opened Fft

  lemma Pow2Halves(n: nat)
    requires n >= 2 && n % 2 == 0
    ensures IsPow2(n) <==> IsPow2(n / 2)
  {
  }

  lemma FieldOfHalves(x: seq<Element>, q: Modulus)
    requires |x| % 2 == 0
    ensures AllInField(x, q) <==> AllInField(Evens(x), q) && AllInField(Odds(x), q)
  {
    if AllInField(Evens(x), q) && AllInField(Odds(x), q) {
      forall i | 0 <= i < |x| ensures x[i].q == q {
        if i % 2 == 0 {
          assert x[i] == Evens(x)[i / 2];
        } else {
          assert x[i] == Odds(x)[i / 2];
        }
      }
    }
  }

  /** With every operand in one field, the recombination succeeds. */
  lemma CombineInField(even: seq<Element>, odd: seq<Element>, tw: seq<Element>, q: Modulus)
    requires |even| == |odd| && |tw| == 2 * |even|
    requires AllInField(even, q) && AllInField(odd, q) && AllInField(tw, q)
    ensures Combine(even, odd, tw).Ok?
  {
    var h := |even|;
    assert forall j :: 0 <= j < h ==>
      Butterfly(even[j], odd[j], tw[j]).Ok? && Butterfly(even[j], odd[j], tw[h + j]).Ok?;
  }

  /** Entry `j` of a successful recombination is the butterfly at `j mod h`
      with the twiddle factor `tw[j]`. */
  lemma CombineAt(even: seq<Element>, odd: seq<Element>, tw: seq<Element>, j: nat, m: nat)
    requires |even| == |odd| && |tw| == 2 * |even| && j < |tw|
    requires m == if j < |even| then j else j - |even|
    requires Combine(even, odd, tw).Ok?
    ensures Butterfly(even[m], odd[m], tw[j]).Ok?
    ensures Combine(even, odd, tw).value[j] == Butterfly(even[m], odd[m], tw[j]).value
  {
  }

  /** `ntt_fft` panics with the odd-length message exactly when the length is
      not a power of two of at least 2; on such a length it panics with a
      field mismatch exactly when some entry or `omega` is from another field. */
  lemma {:induction false} NttOutcome(x: seq<Element>, w: Element)
    requires |x| > 0
    ensures !(IsPow2(|x|) && |x| >= 2) <==> Ntt(x, w) == Err(OddLength)
    ensures IsPow2(|x|) && |x| >= 2 ==> (Ntt(x, w).Ok? <==> AllInField(x, w.q))
    ensures IsPow2(|x|) && |x| >= 2 && Ntt(x, w).Err? ==> Ntt(x, w).error == FieldMismatch
    decreases |x|
  {
    var n := |x|;
    if n % 2 == 1 {
      assert n == 1 || !IsPow2(n);
    } else if n == 2 {
      PairOutcome(x, w);
    } else {
      NttOutcome(Evens(x), w);
      NttOutcome(Odds(x), w);
      OutcomeStep(x, w);
    }
  }

  /** The three outcomes of `NttOutcome`, for one input. */
  ghost predicate OutcomeHolds(x: seq<Element>, w: Element)
    requires |x| > 0
  {
    && (!(IsPow2(|x|) && |x| >= 2) <==> Ntt(x, w) == Err(OddLength))
    && (IsPow2(|x|) && |x| >= 2 ==> (Ntt(x, w).Ok? <==> AllInField(x, w.q)))
    && (IsPow2(|x|) && |x| >= 2 && Ntt(x, w).Err? ==> Ntt(x, w).error == FieldMismatch)
  }

  lemma PairOutcome(x: seq<Element>, w: Element)
    requires |x| == 2
    ensures OutcomeHolds(x, w)
  {
    assert IsPow2(2);
    assert AllInField(x, w.q) <==> x[0].q == w.q && x[1].q == w.q;
  }

  /** One level of the recursion keeps the outcomes of both halves. */
  lemma OutcomeStep(x: seq<Element>, w: Element)
    requires |x| > 2 && |x| % 2 == 0
    requires OutcomeHolds(Evens(x), w) && OutcomeHolds(Odds(x), w)
    ensures OutcomeHolds(x, w)
  {
    var n := |x|;
    Pow2Halves(n);
    FieldOfHalves(x, w.q);
    NttRecursion(x, w);
    assert |Evens(x)| == |Odds(x)| == n / 2;
    if Ntt(Evens(x), w).Ok? && Ntt(Odds(x), w).Ok? {
      CombineInField(Ntt(Evens(x), w).value, Ntt(Odds(x), w).value, Twiddles(w, n), w.q);
    }
  }

  /** The values of the entries. */
  function Values(x: seq<Element>): (r: seq<int>)
    ensures |r| == |x| && forall i :: 0 <= i < |x| ==> r[i] == x[i].value
  {
    seq(|x|, i requires 0 <= i < |x| => x[i].value)
  }

  /** Every entry is a canonical element of the field of modulus `q`. */
  predicate InField(x: seq<Element>, q: Modulus)
  {
    forall i :: 0 <= i < |x| ==> x[i].q == q && IsCanonical(x[i])
  }

  /** The exponent of `omega` that multiplies input `i` in output `j` of the
      transform of length `n` as `ntt_fft` computes it: an odd index picks up
      `omega^j` at this level, and both halves recurse with the same `omega`
      on the output index `j mod n/2`.  A discrete Fourier transform would use
      `i * j` instead. */
  function Twist(n: nat, i: nat, j: nat): nat
    decreases n
  {
    if n <= 1 then 0 else (i % 2) * j + Twist(n / 2, i / 2, j % (n / 2))
  }

  /** `sum_{i < k} xs[i] * w^Twist(n, i, j)` over the integers. */
  function TwistSum(xs: seq<int>, w: int, n: nat, j: nat, k: nat): int
    requires k <= |xs|
    decreases k
  {
    if k == 0 then 0 else TwistSum(xs, w, n, j, k - 1) + xs[k - 1] * Pow(w, Twist(n, k - 1, j))
  }

  lemma ValuesOfHalves(x: seq<Element>)
    ensures Values(Evens(x)) == Evens(Values(x)) && Values(Odds(x)) == Odds(Values(x))
  {
  }

  /** The sum over a transform of length `n` is the sum over its even half plus
      `w^j` times the sum over its odd half. */
  lemma {:induction false} TwistSumSplit(xs: seq<int>, w: int, n: nat, j: nat, k: nat)
    requires n >= 2 && n % 2 == 0 && |xs| == n && k <= n / 2
    ensures TwistSum(xs, w, n, j, 2 * k) ==
      TwistSum(Evens(xs), w, n / 2, j % (n / 2), k) + Pow(w, j) * TwistSum(Odds(xs), w, n / 2, j % (n / 2), k)
    decreases k
  {
    if k > 0 {
      var h := n / 2;
      var jh := j % h;
      var k2 := 2 * (k - 1);
      TwistSumSplit(xs, w, n, j, k - 1);
      TwistOfPair(n, k - 1, j);
      var t := Twist(h, k - 1, jh);
      var pj := Pow(w, j);
      var pt := Pow(w, t);
      PowAdd(w, j, t);
      var se := TwistSum(Evens(xs), w, h, jh, k - 1);
      var so := TwistSum(Odds(xs), w, h, jh, k - 1);
      var e := xs[k2];
      var o := xs[k2 + 1];
      HalvesAt(xs, k - 1);
      assert TwistSum(xs, w, n, j, k2) == se + pj * so;
      assert TwistSum(xs, w, n, j, k2 + 1) == se + pj * so + e * pt;
      assert TwistSum(xs, w, n, j, k2 + 2) == se + pj * so + e * pt + o * (pj * pt);
      assert TwistSum(Evens(xs), w, h, jh, k) == se + e * pt;
      assert TwistSum(Odds(xs), w, h, jh, k) == so + o * pt;
      MulDistributes(pj, so, o, pt);
    }
  }

  /** Inputs `2a` and `2a + 1` of length `n` meet the exponent of input `a`
      of the half length, the odd one multiplied by `omega^j` once more. */
  lemma TwistOfPair(n: nat, a: nat, j: nat)
    requires n >= 2 && n % 2 == 0
    ensures Twist(n, 2 * a, j) == Twist(n / 2, a, j % (n / 2))
    ensures Twist(n, 2 * a + 1, j) == j + Twist(n / 2, a, j % (n / 2))
  {
    assert (2 * a) % 2 == 0 && (2 * a) / 2 == a;
    assert (2 * a + 1) % 2 == 1 && (2 * a + 1) / 2 == a;
  }

  lemma HalvesAt<T>(xs: seq<T>, a: nat)
    requires 2 * a + 1 < |xs|
    ensures Evens(xs)[a] == xs[2 * a] && Odds(xs)[a] == xs[2 * a + 1]
  {
  }

  lemma MulDistributes(a: int, b: int, c: int, d: int)
    ensures a * (b + c * d) == a * b + c * (a * d)
  {
  }

  lemma ModCombine(ev: int, ov: int, tv: int, a: int, b: int, c: int, q: int)
    requires q > 0 && ev == a % q && ov == b % q && tv == c % q
    ensures (ev + ov * tv) % q == (a + c * b) % q
  {
    ModMul(b, c % q, q);
    ModMul(b, c, q);
    assert ((b % q) * (c % q)) % q == (b * c) % q;
    ModAdd(a % q, (b % q) * (c % q), q);
    ModAdd(a % q, b * c, q);
    ModAdd(a, b * c, q);
    assert b * c == c * b;
  }

  /** One butterfly on canonical operands of one field. */
  lemma ButterflyValue(e: Element, o: Element, t: Element, q: Modulus)
    requires e.q == q && o.q == q && t.q == q
    requires IsCanonical(e) && IsCanonical(o) && IsCanonical(t)
    ensures Butterfly(e, o, t) == Ok(Element((e.value + o.value * t.value) % q, q))
  {
    var p := Mul(o, t).value;
    assert p.value == (o.value * t.value) % q;
    ModAdd(e.value, o.value * t.value, q);
  }

  /** A butterfly on the residues of the sums `se`, `so` and of `pj`. */
  lemma ButterflyOfResidues(e: Element, o: Element, t: Element, q: Modulus, se: int, so: int, pj: int, total: int)
    requires e == Element(se % q, q) && o == Element(so % q, q) && t == Element(pj % q, q)
    requires total == se + pj * so
    ensures Butterfly(e, o, t) == Ok(Element(total % q, q))
  {
    ButterflyValue(e, o, t, q);
    ModCombine(e.value, o.value, t.value, se, so, pj, q);
  }

  /** Length 2: `dft_finite_fields` evaluates the sum. */
  lemma ClosedFormOfTwo(x: seq<Element>, w: Element)
    requires |x| == 2 && InField(x, w.q) && IsCanonical(w)
    ensures Ntt(x, w) == Ok(TwistTransform(Values(x), w.value, w.q))
  {
    NttOfTwo(x, w);
    TwistOfTwo(x, w);
  }

  /** The closed form of order 2 is `[x0 + x1, x0 + omega * x1]`. */
  lemma TwistOfTwo(x: seq<Element>, w: Element)
    requires |x| == 2
    ensures TwistTransform(Values(x), w.value, w.q) ==
      [Element((x[0].value + x[1].value) % w.q, w.q), Element((x[0].value + w.value * x[1].value) % w.q, w.q)]
  {
    var xs, q := Values(x), w.q;
    var t := TwistTransform(xs, w.value, q);
    var a, b := x[0].value + x[1].value, x[0].value + w.value * x[1].value;
    assert xs[0] == x[0].value && xs[1] == x[1].value;
    TwoTwistSums(xs, w.value);
    assert TwistSum(xs, w.value, 2, 1, 2) == b by {
      assert xs[1] * w.value == w.value * xs[1];
    }
    assert t[0] == Element(a % q, q) && t[1] == Element(b % q, q);
    SeqOfTwo(t, Element(a % q, q), Element(b % q, q));
  }

  /** The transform of two canonical entries is `dft_finite_fields`. */
  lemma NttOfTwo(x: seq<Element>, w: Element)
    requires |x| == 2 && InField(x, w.q) && IsCanonical(w)
    ensures Ntt(x, w) ==
      Ok([Element((x[0].value + x[1].value) % w.q, w.q), Element((x[0].value + w.value * x[1].value) % w.q, w.q)])
  {
    assert IsCanonical(x[0]) && IsCanonical(x[1]);
    assert Ntt(x, w) == Dft2(x, w);
  }

  lemma TwoTwistSums(xs: seq<int>, w: int)
    requires |xs| == 2
    ensures TwistSum(xs, w, 2, 0, 2) == xs[0] + xs[1]
    ensures TwistSum(xs, w, 2, 1, 2) == xs[0] + xs[1] * w
  {
    assert Twist(2, 0, 0) == 0 && Twist(2, 1, 0) == 0 && Twist(2, 0, 1) == 0 && Twist(2, 1, 1) == 1;
    assert Pow(w, 0) == 1 && Pow(w, 1) == w;
  }

  /** Output `j` of one recombination, given the transforms of the two halves. */
  lemma ClosedFormEntry(x: seq<Element>, w: Element, even: seq<Element>, odd: seq<Element>, j: nat)
    requires |x| > 2 && |x| % 2 == 0 && IsCanonical(w) && j < |x|
    requires even == TwistTransform(Values(Evens(x)), w.value, w.q)
    requires odd == TwistTransform(Values(Odds(x)), w.value, w.q)
    ensures Combine(even, odd, Twiddles(w, |x|)).Ok?
    ensures Combine(even, odd, Twiddles(w, |x|)).value[j] ==
      Element(TwistSum(Values(x), w.value, |x|, j, |x|) % w.q, w.q)
  {
    var n, q := |x|, w.q;
    var h := n / 2;
    var xs := Values(x);
    var m := j % h;
    ClosedFormOperands(x, w, even, odd, j, m);
    var se := TwistSum(Evens(xs), w.value, h, m, h);
    var so := TwistSum(Odds(xs), w.value, h, m, h);
    var pj := Pow(w.value, j);
    assert 2 * h == n;
    TwistSumSplit(xs, w.value, n, j, h);
    var total := TwistSum(xs, w.value, n, j, n);
    ButterflyOfResidues(even[m], odd[m], Twiddles(w, n)[j], q, se, so, pj, total);
  }

  /** Output `j` of the recombination is the butterfly of the closed forms of
      the halves at `m == j mod h` and the factor `omega^j`. */
  lemma ClosedFormOperands(x: seq<Element>, w: Element, even: seq<Element>, odd: seq<Element>, j: nat, m: nat)
    requires |x| > 2 && |x| % 2 == 0 && IsCanonical(w) && j < |x| && m == j % (|x| / 2)
    requires even == TwistTransform(Values(Evens(x)), w.value, w.q)
    requires odd == TwistTransform(Values(Odds(x)), w.value, w.q)
    ensures m < |even| == |odd| == |x| / 2
    ensures Combine(even, odd, Twiddles(w, |x|)).Ok?
    ensures Combine(even, odd, Twiddles(w, |x|)).value[j] == Butterfly(even[m], odd[m], Twiddles(w, |x|)[j]).value
    ensures even[m] == Element(TwistSum(Evens(Values(x)), w.value, |x| / 2, m, |x| / 2) % w.q, w.q)
    ensures odd[m] == Element(TwistSum(Odds(Values(x)), w.value, |x| / 2, m, |x| / 2) % w.q, w.q)
    ensures Twiddles(w, |x|)[j] == Element(Pow(w.value, j) % w.q, w.q)
  {
    var n, q := |x|, w.q;
    var h := n / 2;
    var tw := Twiddles(w, n);
    ValuesOfHalves(x);
    assert |even| == |odd| == h;
    assert AllInField(even, q) && AllInField(odd, q) && AllInField(tw, q);
    CombineInField(even, odd, tw, q);
    if j < h {
      DivModUnique(j, h, 0, j);
    } else {
      DivModUnique(j, h, 1, j - h);
    }
    CombineAt(even, odd, tw, j, m);
    TwiddleAt(w, n, j);
  }

  /** Twiddle factor `j` of a canonical `omega` is `omega^j` reduced. */
  lemma TwiddleAt(w: Element, n: nat, j: nat)
    requires IsCanonical(w) && j < n
    ensures Twiddles(w, n)[j] == Element(Pow(w.value, j) % w.q, w.q)
  {
    assert Twiddles(w, n)[j] == Power(w, j);
  }

  /** One recombination of the halves' transforms is the transform of the whole. */
  lemma CombineIsTwistTransform(x: seq<Element>, w: Element, even: seq<Element>, odd: seq<Element>)
    requires |x| > 2 && |x| % 2 == 0 && IsCanonical(w)
    requires even == TwistTransform(Values(Evens(x)), w.value, w.q)
    requires odd == TwistTransform(Values(Odds(x)), w.value, w.q)
    ensures Combine(even, odd, Twiddles(w, |x|)) == Ok(TwistTransform(Values(x), w.value, w.q))
  {
    var n := |x|;
    assert |even| == |odd| == n / 2;
    var r := Combine(even, odd, Twiddles(w, n));
    var t := TwistTransform(Values(x), w.value, w.q);
    ClosedFormEntry(x, w, even, odd, 0);
    var rv := r.value;
    assert |rv| == n;
    forall j | 0 <= j < n
      ensures rv[j] == t[j]
    {
      ClosedFormEntry(x, w, even, odd, j);
    }
    assert rv == t;
  }

  /** The outputs `sum_i xs[i] * w^Twist(n, i, j)`, reduced modulo `q`. */
  function TwistTransform(xs: seq<int>, w: int, q: Modulus): (r: seq<Element>)
    ensures |r| == |xs|
  {
    seq(|xs|, j requires 0 <= j < |xs| => Element(TwistSum(xs, w, |xs|, j, |xs|) % q, q))
  }

  /** On a power-of-two length with canonical entries of `omega`'s field,
      `ntt_fft` succeeds and output `j` is `sum_i x_i * omega^Twist(n, i, j)`
      reduced modulo `q`. */
  lemma {:induction false} NttIsTwistTransform(x: seq<Element>, w: Element)
    requires |x| >= 2 && IsPow2(|x|) && InField(x, w.q) && IsCanonical(w)
    ensures Ntt(x, w) == Ok(TwistTransform(Values(x), w.value, w.q))
    decreases |x|
  {
    if |x| == 2 {
      ClosedFormOfTwo(x, w);
      return;
    }
    Pow2Halves(|x|);
    assert InField(Evens(x), w.q) && InField(Odds(x), w.q);
    NttIsTwistTransform(Evens(x), w);
    NttIsTwistTransform(Odds(x), w);
    NttRecursion(x, w);
    CombineIsTwistTransform(x, w, Ntt(Evens(x), w).value, Ntt(Odds(x), w).value);
  }

  /** The four sums of a transform of length 4: input 1 meets `w^j`, input 2
      meets `w^(j mod 2)` and input 3 meets `w^(j + j mod 2)`. */
  lemma FourSums(xs: seq<int>, w: int, j: nat)
    requires |xs| == 4
    ensures TwistSum(xs, w, 4, j, 4) ==
      xs[0] + xs[1] * Pow(w, j) + xs[2] * Pow(w, j % 2) + xs[3] * Pow(w, j + j % 2)
  {
    assert Twist(4, 0, j) == 0;
    assert Twist(4, 1, j) == j;
    assert Twist(4, 2, j) == j % 2;
    assert Twist(4, 3, j) == j + j % 2;
  }

  /** A transform of length 4 from its four sums. */
  lemma FourEntries(xs: seq<int>, w: int, q: Modulus, r0: int, r1: int, r2: int, r3: int)
    requires |xs| == 4
    requires TwistSum(xs, w, 4, 0, 4) % q == r0 && TwistSum(xs, w, 4, 1, 4) % q == r1
    requires TwistSum(xs, w, 4, 2, 4) % q == r2 && TwistSum(xs, w, 4, 3, 4) % q == r3
    ensures TwistTransform(xs, w, q) == [Element(r0, q), Element(r1, q), Element(r2, q), Element(r3, q)]
  {
    var t := TwistTransform(xs, w, q);
    assert t == [t[0], t[1], t[2], t[3]];
  }

  lemma ForwardTransform(xs: seq<int>)
    requires xs == [1, 4, 0, 0]
    ensures TwistTransform(xs, 2, 5) == [Element(0, 5), Element(4, 5), Element(2, 5), Element(3, 5)]
  {
    FourSums(xs, 2, 0);
    FourSums(xs, 2, 1);
    FourSums(xs, 2, 2);
    FourSums(xs, 2, 3);
    assert Pow(2, 3) == 8;
    FourEntries(xs, 2, 5, 0, 4, 2, 3);
  }

  lemma ForwardExample(x: seq<Element>, w: Element)
    requires x == [Element(1, 5), Element(4, 5), Element(0, 5), Element(0, 5)] && w == Element(2, 5)
    ensures Ntt(x, w) == Ok([Element(0, 5), Element(4, 5), Element(2, 5), Element(3, 5)])
  {
    ForwardInput(x);
    NttIsTwistTransform(x, w);
    ForwardTransform(Values(x));
  }

  lemma ForwardInput(x: seq<Element>)
    requires x == [Element(1, 5), Element(4, 5), Element(0, 5), Element(0, 5)]
    ensures IsPow2(|x|) && InField(x, 5) && Values(x) == [1, 4, 0, 0]
  {
    assert IsPow2(4) by { assert IsPow2(2); }
  }

  lemma InverseTransform(xs: seq<int>)
    requires xs == [0, 4, 2, 3]
    ensures TwistTransform(xs, 3, 5) == [Element(4, 5), Element(0, 5), Element(0, 5), Element(2, 5)]
  {
    FourSums(xs, 3, 0);
    FourSums(xs, 3, 1);
    FourSums(xs, 3, 2);
    FourSums(xs, 3, 3);
    assert Pow(3, 4) == 81;
    FourEntries(xs, 3, 5, 4, 0, 0, 2);
  }

  /** 2 * 3 == 6 == 1 and 4 * 4 == 16 == 1 (mod 5). */
  lemma InversesModFive()
    ensures Inv(Element(2, 5)) == Element(3, 5)
    ensures Inv(Element(4, 5)) == Element(4, 5)
  {
    assert EgcdLoop(1, 0, 1, -2, -2, 5) == (1, 1, -2);
    assert EgcdLoop(2, 1, 0, 1, 1, -2) == EgcdLoop(1, 0, 1, -2, -2, 5);
    assert EgcdLoop(5, 2, 1, 0, 0, 1) == EgcdLoop(2, 1, 0, 1, 1, -2);
    assert EgcdLoop(1, 0, 1, -4, -1, 5) == (1, 1, -1);
    assert EgcdLoop(4, 1, 0, 1, 1, -1) == EgcdLoop(1, 0, 1, -4, -1, 5);
    assert EgcdLoop(5, 4, 1, 0, 0, 1) == EgcdLoop(4, 1, 0, 1, 1, -1);
  }

  /** Division by 4 is multiplication by 4 modulo 5: `v / 4 == r` when `4 * v == r (mod 5)`. */
  lemma DivideByFour(a: Element, d: Element, r: int)
    requires a.q == 5 && 0 <= a.value && d == Element(4, 5) && (4 * a.value) % 5 == r
    ensures Div(a, d) == Ok(Element(r, 5))
  {
    InversesModFive();
  }

  /** Dividing four entries, one quotient at a time. */
  lemma DivideFour(s: seq<Element>, d: Element, e0: Element, e1: Element, e2: Element, e3: Element)
    requires |s| == 4
    requires Div(s[0], d) == Ok(e0) && Div(s[1], d) == Ok(e1)
    requires Div(s[2], d) == Ok(e2) && Div(s[3], d) == Ok(e3)
    ensures DivideAll(s, d) == Ok([e0, e1, e2, e3])
  {
    var r := DivideAll(s, d).value;
    assert r == [r[0], r[1], r[2], r[3]];
  }

  /** Dividing the inverse transform's entries by the length 4. */
  lemma DivideAllByFour(scaled: seq<Element>, length: Element)
    requires scaled == [Element(4, 5), Element(0, 5), Element(0, 5), Element(2, 5)]
    requires length == Element(4, 5)
    ensures DivideAll(scaled, length) == Ok([Element(1, 5), Element(0, 5), Element(0, 5), Element(3, 5)])
  {
    var four, zero, two := Element(4, 5), Element(0, 5), Element(2, 5);
    DivideByFour(four, length, 1);
    DivideByFour(zero, length, 0);
    DivideByFour(two, length, 3);
    assert scaled[0] == four && scaled[1] == zero && scaled[2] == zero && scaled[3] == two;
    DivideFour(scaled, length, Element(1, 5), Element(0, 5), Element(0, 5), Element(3, 5));
  }

  lemma InverseInput(y: seq<Element>)
    requires y == [Element(0, 5), Element(4, 5), Element(2, 5), Element(3, 5)]
    ensures IsPow2(|y|) && InField(y, 5) && Values(y) == [0, 4, 2, 3]
  {
    assert IsPow2(4) by { assert IsPow2(2); }
  }

  lemma InverseExample(y: seq<Element>, w: Element)
    requires y == [Element(0, 5), Element(4, 5), Element(2, 5), Element(3, 5)] && w == Element(2, 5)
    ensures Intt(y, w) == Ok([Element(1, 5), Element(0, 5), Element(0, 5), Element(3, 5)])
  {
    InversesModFive();
    var u := Inv(w);
    InverseInput(y);
    NttIsTwistTransform(y, u);
    InverseTransform(Values(y));
    var length := New(|y|, w.q);
    assert length == Element(4, 5);
    DivideAllByFour(Ntt(y, u).value, length);
  }

  /** The source's four-element test: over the field of order 5 with omega 2,
      the round trip through `ntt_fft` and `intt_fft` maps `[1, 4, 0, 0]` to
      `[1, 0, 0, 3]`, so the test's final comparison does not hold. */
  lemma FourElementRoundTripFails()
    ensures Ntt([Element(1, 5), Element(4, 5), Element(0, 5), Element(0, 5)], Element(2, 5))
      == Ok([Element(0, 5), Element(4, 5), Element(2, 5), Element(3, 5)])
    ensures Intt([Element(0, 5), Element(4, 5), Element(2, 5), Element(3, 5)], Element(2, 5))
      == Ok([Element(1, 5), Element(0, 5), Element(0, 5), Element(3, 5)])
  {
    ForwardExample([Element(1, 5), Element(4, 5), Element(0, 5), Element(0, 5)], Element(2, 5));
    InverseExample([Element(0, 5), Element(4, 5), Element(2, 5), Element(3, 5)], Element(2, 5));
  }
}
