/** The transform `ntt_fft` is evidently meant to compute: the same recursion,
    except that both halves are transformed with `omega^2`.  With `omega` an
    `n`-th root of unity this is the discrete Fourier transform
    `y_j = sum_i x_i * omega^(i * j)`, and the inverse built from it, as in
    `intt_fft`, undoes it. */
module CanonicalNtt {
  import opened Modular
  import opened Panics
  import opened PrimeField
  import opened Seqs
  import opened Fft
  import opened FftProperties

  /** `ntt_fft` with `omega * omega` passed to the two recursive calls. */
  function Ntt(x: seq<Element>, w: Element): (r: Result<seq<Element>>)
    requires |x| > 0
    ensures r.Ok? ==> |r.value| == |x|
    ensures r.Ok? ==> forall i :: 0 <= i < |x| ==> r.value[i].q == w.q
    decreases |x|
  {
    if |x| % 2 == 1 then Err(OddLength)
    else if |x| == 2 then Dft2(x, w)
    else
      var w2 := Mul(w, w).value;
      var even :- Ntt(Evens(x), w2);
      var odd :- Ntt(Odds(x), w2);
      var r := Combine(even, odd, Twiddles(w, |x|));
      assert r.Ok? ==> AllInField(r.value, w.q) by {
        if r.Ok? {
          CombineKeepsField(even, odd, Twiddles(w, |x|), w.q);
        }
      }
      r
  }

  /** `intt_fft` built on the corrected transform. */
  function Intt(x: seq<Element>, w: Element): (r: Result<seq<Element>>)
    requires |x| > 0
    ensures r.Ok? <==> Ntt(x, Inv(w)).Ok?
    ensures r.Ok? ==> |r.value| == |x| && forall i :: 0 <= i < |x| ==>
      Ok(r.value[i]) == Div(Ntt(x, Inv(w)).value[i], New(|x|, w.q))
  {
    Unscale(Ntt(x, Inv(w)), |x|, w.q)
  }

  /** `sum_{i < k} xs[i] * w^(i * j)` over the integers. */
  function DftSum(xs: seq<int>, w: int, j: nat, k: nat): int
    requires k <= |xs|
    decreases k
  {
    if k == 0 then 0 else DftSum(xs, w, j, k - 1) + xs[k - 1] * Pow(w, (k - 1) * j)
  }

  /** The discrete Fourier transform of `xs` at the root `w`, reduced modulo `q`. */
  function DftTransform(xs: seq<int>, w: int, q: Modulus): (r: seq<Element>)
    ensures |r| == |xs|
  {
    seq(|xs|, j requires 0 <= j < |xs| => Element(DftSum(xs, w, j, |xs|) % q, q))
  }

  lemma DftTransformAt(xs: seq<int>, w: int, q: Modulus, j: nat)
    requires j < |xs|
    ensures DftTransform(xs, w, q)[j] == Element(DftSum(xs, w, j, |xs|) % q, q)
  {
  }

  lemma ExponentSplit(a: nat, j: nat)
    ensures (2 * a) * j == 2 * (a * j) && (2 * a + 1) * j == j + 2 * (a * j)
  {
  }

  /** The even-indexed terms use `(w * w)^(a * j)`, the odd-indexed ones `w^j`
      times that. */
  lemma {:induction false} DftSumSplit(xs: seq<int>, w: int, j: nat, k: nat)
    requires 2 * k <= |xs|
    ensures DftSum(xs, w, j, 2 * k) ==
      DftSum(Evens(xs), w * w, j, k) + Pow(w, j) * DftSum(Odds(xs), w * w, j, k)
    decreases k
  {
    if k > 0 {
      var a := k - 1;
      DftSumSplit(xs, w, j, a);
      ExponentSplit(a, j);
      var t := a * j;
      PowOfSquare(w, t);
      PowAdd(w, j, 2 * t);
      var pj := Pow(w, j);
      var ps := Pow(w * w, t);
      var se := DftSum(Evens(xs), w * w, j, a);
      var so := DftSum(Odds(xs), w * w, j, a);
      var e := xs[2 * a];
      var o := xs[2 * a + 1];
      assert Evens(xs)[a] == e && Odds(xs)[a] == o;
      assert DftSum(xs, w, j, 2 * a) == se + pj * so;
      assert DftSum(xs, w, j, 2 * a + 1) == se + pj * so + e * ps;
      assert DftSum(xs, w, j, 2 * a + 2) == se + pj * so + e * ps + o * (pj * ps);
      assert DftSum(Evens(xs), w * w, j, k) == se + e * ps;
      assert DftSum(Odds(xs), w * w, j, k) == so + o * ps;
      MulDistributes(pj, so, o, ps);
    }
  }

  lemma TotalCongruent(total: int, de: int, do: int, se: int, so: int, pj: int, q: int)
    requires q > 0 && total == de + pj * do && de % q == se % q && do % q == so % q
    ensures total % q == (se + pj * so) % q
  {
    AddMulCongruent(de, se, pj, do, so, q);
  }

  /** Congruent summands give congruent sums. */
  lemma AddMulCongruent(s: int, s': int, c: int, p: int, p': int, q: int)
    requires q > 0 && s % q == s' % q && p % q == p' % q
    ensures (s + c * p) % q == (s' + c * p') % q
  {
    ModMul(c, p, q);
    ModMul(c, p', q);
    ModAdd(s, c * p, q);
    ModAdd(s', c * p', q);
    ModAdd(s, c * p', q);
    assert (s + c * p) % q == (s + (c * p') % q) % q;
    ModAdd(s, c * p', q);
    assert s == (s / q) * q + s % q;
    assert s' == (s' / q) * q + s' % q;
    ModAddMultiple(s / q, s % q + c * p', q);
    ModAddMultiple(s' / q, s' % q + c * p', q);
  }

  lemma ExponentShift(i: nat, j: nat, h: nat, t: nat)
    ensures i * (j + h * t) == i * j + h * (i * t)
  {
  }

  /** If `b^h == 1 (mod q)`, the output index matters only modulo `h`. */
  lemma {:induction false} DftSumShift(xs: seq<int>, b: int, j: nat, h: nat, t: nat, k: nat, q: Modulus)
    requires k <= |xs| && Pow(b, h) % q == 1
    ensures DftSum(xs, b, j + h * t, k) % q == DftSum(xs, b, j, k) % q
    decreases k
  {
    if k > 0 {
      DftSumShift(xs, b, j, h, t, k - 1, q);
      var i := k - 1;
      ExponentShift(i, j, h, t);
      MulNonNegative(i, t);
      PowShift(b, i * j, h, i * t, q);
      AddMulCongruent(DftSum(xs, b, j + h * t, i), DftSum(xs, b, j, i), xs[i],
        Pow(b, i * (j + h * t)), Pow(b, i * j), q);
    }
  }

  /** Reducing the root modulo `q` does not change the sum's residue. */
  lemma {:induction false} DftSumReduceRoot(xs: seq<int>, b: int, j: nat, k: nat, q: Modulus)
    requires k <= |xs|
    ensures DftSum(xs, b % q, j, k) % q == DftSum(xs, b, j, k) % q
    decreases k
  {
    if k > 0 {
      DftSumReduceRoot(xs, b, j, k - 1, q);
      var i := k - 1;
      PowMod(b, i * j, q);
      AddMulCongruent(DftSum(xs, b % q, j, i), DftSum(xs, b, j, i), xs[i],
        Pow(b % q, i * j), Pow(b, i * j), q);
    }
  }

  /** A butterfly on the residues of `se`, `so` and `pj`, for any `total`
      congruent to `se + pj * so`. */
  lemma ButterflyCongruent(e: Element, o: Element, t: Element, q: Modulus, se: int, so: int, pj: int, total: int)
    requires e == Element(se % q, q) && o == Element(so % q, q) && t == Element(pj % q, q)
    requires total % q == (se + pj * so) % q
    ensures Butterfly(e, o, t) == Ok(Element(total % q, q))
  {
    ButterflyValue(e, o, t, q);
    ModCombine(e.value, o.value, t.value, se, so, pj, q);
  }

  /** The half-size sums at the root `w2 == w * w mod q` and the output index
      `m == j mod h` are congruent to those at `w * w` and `j`. */
  lemma HalfSumCongruent(ys: seq<int>, wv: int, w2v: int, j: nat, m: nat, c: nat, h: nat, q: Modulus)
    requires |ys| == h && w2v == (wv * wv) % q && j == m + h * c
    requires Pow(wv * wv, h) % q == 1
    ensures DftSum(ys, w2v, m, h) % q == DftSum(ys, wv * wv, j, h) % q
  {
    DftSumReduceRoot(ys, wv * wv, m, h, q);
    DftSumShift(ys, wv * wv, m, h, c, h, q);
  }

  /** Output `j` of one corrected recombination, given the transforms of the
      two halves at `omega^2`. */
  lemma DftEntry(x: seq<Element>, w: Element, w2: Element, even: seq<Element>, odd: seq<Element>, j: nat)
    requires |x| > 2 && |x| % 2 == 0 && IsCanonical(w) && j < |x|
    requires w2 == Element((w.value * w.value) % w.q, w.q)
    requires Pow(w.value * w.value, |x| / 2) % w.q == 1
    requires even == DftTransform(Values(Evens(x)), w2.value, w.q)
    requires odd == DftTransform(Values(Odds(x)), w2.value, w.q)
    ensures Combine(even, odd, Twiddles(w, |x|)).Ok?
    ensures Combine(even, odd, Twiddles(w, |x|)).value[j] ==
      Element(DftSum(Values(x), w.value, j, |x|) % w.q, w.q)
  {
    var h := |x| / 2;
    var m := if j < h then j else j - h;
    var c := if j < h then 0 else 1;
    assert j == m + h * c && 2 * h == |x|;
    DftEntryOperands(x, w, w2, even, odd, j, m);
    EntryValue(Values(x), w.value, w2.value, j, m, c, h, w.q, even[m], odd[m], Twiddles(w, |x|)[j]);
  }

  /** Output `j` of the recombination is the butterfly of the half transforms'
      entries `m == j mod h` and the factor `omega^j`, each a reduced sum. */
  lemma DftEntryOperands(x: seq<Element>, w: Element, w2: Element, even: seq<Element>, odd: seq<Element>, j: nat, m: nat)
    requires |x| > 2 && |x| % 2 == 0 && IsCanonical(w) && j < |x|
    requires m == if j < |x| / 2 then j else j - |x| / 2
    requires even == DftTransform(Values(Evens(x)), w2.value, w.q)
    requires odd == DftTransform(Values(Odds(x)), w2.value, w.q)
    ensures m < |even| == |odd| == |x| / 2
    ensures Combine(even, odd, Twiddles(w, |x|)).Ok?
    ensures Combine(even, odd, Twiddles(w, |x|)).value[j] == Butterfly(even[m], odd[m], Twiddles(w, |x|)[j]).value
    ensures even[m] == Element(DftSum(Evens(Values(x)), w2.value, m, |x| / 2) % w.q, w.q)
    ensures odd[m] == Element(DftSum(Odds(Values(x)), w2.value, m, |x| / 2) % w.q, w.q)
    ensures Twiddles(w, |x|)[j] == Element(Pow(w.value, j) % w.q, w.q)
  {
    var n, q := |x|, w.q;
    var xs := Values(x);
    var tw := Twiddles(w, n);
    ValuesOfHalves(x);
    assert AllInField(even, q) && AllInField(odd, q) && AllInField(tw, q);
    CombineInField(even, odd, tw, q);
    CombineAt(even, odd, tw, j, m);
    DftTransformAt(Evens(xs), w2.value, q, m);
    DftTransformAt(Odds(xs), w2.value, q, m);
    TwiddleAt(w, n, j);
  }

  /** The butterfly on the half-size sums at index `m` and the factor
      `omega^j` is output `j` of the transform. */
  lemma EntryValue(xs: seq<int>, wv: int, w2v: int, j: nat, m: nat, c: nat, h: nat, q: Modulus,
                   e: Element, o: Element, t: Element)
    requires |xs| == 2 * h && w2v == (wv * wv) % q && j == m + h * c
    requires Pow(wv * wv, h) % q == 1
    requires e == Element(DftSum(Evens(xs), w2v, m, h) % q, q)
    requires o == Element(DftSum(Odds(xs), w2v, m, h) % q, q)
    requires t == Element(Pow(wv, j) % q, q)
    ensures Butterfly(e, o, t) == Ok(Element(DftSum(xs, wv, j, 2 * h) % q, q))
  {
    var se, so := DftSum(Evens(xs), w2v, m, h), DftSum(Odds(xs), w2v, m, h);
    var pj, total := Pow(wv, j), DftSum(xs, wv, j, 2 * h);
    EntryCongruent(xs, wv, w2v, j, m, c, h, q, se, so, pj, total);
    ButterflyCongruent(e, o, t, q, se, so, pj, total);
  }

  /** Output `j` of the transform is congruent to the sums of the halves at
      `omega^2` and index `m == j mod h`, the odd one weighted by `omega^j`. */
  lemma EntryCongruent(xs: seq<int>, wv: int, w2v: int, j: nat, m: nat, c: nat, h: nat, q: Modulus,
                        se: int, so: int, pj: int, total: int)
    requires |xs| == 2 * h && w2v == (wv * wv) % q && j == m + h * c
    requires Pow(wv * wv, h) % q == 1
    requires se == DftSum(Evens(xs), w2v, m, h) && so == DftSum(Odds(xs), w2v, m, h)
    requires pj == Pow(wv, j) && total == DftSum(xs, wv, j, 2 * h)
    ensures total % q == (se + pj * so) % q
  {
    HalfSumCongruent(Evens(xs), wv, w2v, j, m, c, h, q);
    HalfSumCongruent(Odds(xs), wv, w2v, j, m, c, h, q);
    var de := DftSum(Evens(xs), wv * wv, j, h);
    var do := DftSum(Odds(xs), wv * wv, j, h);
    DftSumSplit(xs, wv, j, h);
    assert total == de + pj * do;
    TotalCongruent(total, de, do, se, so, pj, q);
  }

  /** One level of the corrected recursion. */
  lemma NttRecursion(x: seq<Element>, w: Element)
    requires |x| > 2 && |x| % 2 == 0
    ensures var w2 := Mul(w, w).value;
      Ntt(x, w) ==
      if Ntt(Evens(x), w2).Err? then Ntt(Evens(x), w2)
      else if Ntt(Odds(x), w2).Err? then Ntt(Odds(x), w2)
      else Combine(Ntt(Evens(x), w2).value, Ntt(Odds(x), w2).value, Twiddles(w, |x|))
  {
  }

  /** The root of the halves is again a root of unity of half the order. */
  lemma SquareIsRoot(w: Element, n: nat)
    requires n >= 2 && n % 2 == 0 && IsCanonical(w) && Pow(w.value, n) % w.q == 1
    ensures Mul(w, w).value == Element((w.value * w.value) % w.q, w.q)
    ensures Pow(w.value * w.value, n / 2) % w.q == 1
    ensures Pow((w.value * w.value) % w.q, n / 2) % w.q == 1
  {
    PowOfSquare(w.value, n / 2);
    PowMod(w.value * w.value, n / 2, w.q);
  }

  /** For `omega` an `n`-th root of unity modulo `q` (`omega^n == 1`), the
      corrected transform of canonical entries is the discrete Fourier
      transform. */
  lemma {:induction false} NttIsDft(x: seq<Element>, w: Element)
    requires |x| >= 2 && IsPow2(|x|) && InField(x, w.q) && IsCanonical(w)
    requires Pow(w.value, |x|) % w.q == 1
    ensures Ntt(x, w) == Ok(DftTransform(Values(x), w.value, w.q))
    decreases |x|
  {
    var n := |x|;
    var q := w.q;
    var xs := Values(x);
    if n == 2 {
      DftOfTwo(x, w);
      return;
    }
    Pow2Halves(n);
    SquareIsRoot(w, n);
    var w2 := Mul(w, w).value;
    assert InField(Evens(x), q) && InField(Odds(x), q);
    NttIsDft(Evens(x), w2);
    NttIsDft(Odds(x), w2);
    NttRecursion(x, w);
    CombineIsDft(x, w, w2, Ntt(Evens(x), w2).value, Ntt(Odds(x), w2).value);
  }

  /** Combining the transforms of the halves gives the transform of the whole. */
  lemma CombineIsDft(x: seq<Element>, w: Element, w2: Element, even: seq<Element>, odd: seq<Element>)
    requires |x| > 2 && |x| % 2 == 0 && IsCanonical(w)
    requires w2 == Element((w.value * w.value) % w.q, w.q)
    requires Pow(w.value * w.value, |x| / 2) % w.q == 1
    requires even == DftTransform(Values(Evens(x)), w2.value, w.q)
    requires odd == DftTransform(Values(Odds(x)), w2.value, w.q)
    ensures Combine(even, odd, Twiddles(w, |x|)) == Ok(DftTransform(Values(x), w.value, w.q))
  {
    var n := |x|;
    assert |even| == |odd| == n / 2;
    var r := Combine(even, odd, Twiddles(w, n));
    var d := DftTransform(Values(x), w.value, w.q);
    DftEntry(x, w, w2, even, odd, 0);
    var rv := r.value;
    assert |rv| == n;
    forall j | 0 <= j < n
      ensures rv[j] == d[j]
    {
      DftEntry(x, w, w2, even, odd, j);
    }
    assert rv == d;
  }

  /** Length 2: `dft_finite_fields` is the transform of order 2. */
  lemma DftOfTwo(x: seq<Element>, w: Element)
    requires |x| == 2 && InField(x, w.q) && IsCanonical(w)
    ensures Ntt(x, w) == Ok(DftTransform(Values(x), w.value, w.q))
  {
    assert IsCanonical(x[0]) && IsCanonical(x[1]);
    assert Ntt(x, w) == Dft2(x, w);
    TransformOfTwo(x, w);
  }

  /** The transform of order 2 is `[x0 + x1, x0 + omega * x1]`. */
  lemma TransformOfTwo(x: seq<Element>, w: Element)
    requires |x| == 2
    ensures DftTransform(Values(x), w.value, w.q) ==
      [Element((x[0].value + x[1].value) % w.q, w.q), Element((x[0].value + w.value * x[1].value) % w.q, w.q)]
  {
    var xs, q := Values(x), w.q;
    var d := DftTransform(xs, w.value, q);
    var a, b := x[0].value + x[1].value, x[0].value + w.value * x[1].value;
    assert xs[0] == x[0].value && xs[1] == x[1].value;
    TwoTermSums(xs, w.value);
    assert DftSum(xs, w.value, 1, 2) == b by {
      assert xs[1] * w.value == w.value * xs[1];
    }
    assert d[0] == Element(a % q, q) && d[1] == Element(b % q, q);
    SeqOfTwo(d, Element(a % q, q), Element(b % q, q));
  }

  lemma TwoTermSums(xs: seq<int>, w: int)
    requires |xs| == 2
    ensures DftSum(xs, w, 0, 2) == xs[0] + xs[1]
    ensures DftSum(xs, w, 1, 2) == xs[0] + xs[1] * w
  {
    assert Pow(w, 0) == 1;
    assert Pow(w, 1) == w;
  }

  /** The four sums of the transform of length 4. */
  lemma FourSums(xs: seq<int>, w: int, j: nat)
    requires |xs| == 4
    ensures DftSum(xs, w, j, 4) == xs[0] + xs[1] * Pow(w, j) + xs[2] * Pow(w, 2 * j) + xs[3] * Pow(w, 3 * j)
  {
    assert Pow(w, 0 * j) == 1;
  }

  lemma ForwardTransform(xs: seq<int>)
    requires xs == [1, 4, 0, 0]
    ensures DftTransform(xs, 2, 5) == [Element(0, 5), Element(4, 5), Element(2, 5), Element(3, 5)]
  {
    FourSums(xs, 2, 0);
    FourSums(xs, 2, 1);
    FourSums(xs, 2, 2);
    FourSums(xs, 2, 3);
    assert Pow(2, 3) == 8;
    var t := DftTransform(xs, 2, 5);
    SeqOfFour(t, Element(0, 5), Element(4, 5), Element(2, 5), Element(3, 5));
  }

  lemma InverseTransform(xs: seq<int>)
    requires xs == [0, 4, 2, 3]
    ensures DftTransform(xs, 3, 5) == [Element(4, 5), Element(1, 5), Element(0, 5), Element(0, 5)]
  {
    FourSums(xs, 3, 0);
    FourSums(xs, 3, 1);
    FourSums(xs, 3, 2);
    FourSums(xs, 3, 3);
    assert Pow(3, 3) == 27;
    assert Pow(3, 6) == 729;
    assert Pow(3, 9) == 19683;
    var t := DftTransform(xs, 3, 5);
    SeqOfFour(t, Element(4, 5), Element(1, 5), Element(0, 5), Element(0, 5));
  }

  lemma ForwardExample(x: seq<Element>, w: Element)
    requires x == [Element(1, 5), Element(4, 5), Element(0, 5), Element(0, 5)] && w == Element(2, 5)
    ensures Ntt(x, w) == Ok([Element(0, 5), Element(4, 5), Element(2, 5), Element(3, 5)])
  {
    ForwardInput(x);
    assert Pow(2, 4) == 16;
    NttIsDft(x, w);
    ForwardTransform(Values(x));
  }

  lemma InverseExample(y: seq<Element>, w: Element)
    requires y == [Element(0, 5), Element(4, 5), Element(2, 5), Element(3, 5)] && w == Element(2, 5)
    ensures Intt(y, w) == Ok([Element(1, 5), Element(4, 5), Element(0, 5), Element(0, 5)])
  {
    InversesModFive();
    var u := Inv(w);
    InverseInput(y);
    assert Pow(3, 4) == 81;
    NttIsDft(y, u);
    InverseTransform(Values(y));
    var length := New(|y|, w.q);
    assert length == Element(4, 5);
    DivideAllByFour(Ntt(y, u).value, length);
  }

  /** Dividing the corrected inverse transform's entries by the length 4. */
  lemma DivideAllByFour(scaled: seq<Element>, length: Element)
    requires scaled == [Element(4, 5), Element(1, 5), Element(0, 5), Element(0, 5)]
    requires length == Element(4, 5)
    ensures DivideAll(scaled, length) == Ok([Element(1, 5), Element(4, 5), Element(0, 5), Element(0, 5)])
  {
    var four, one, zero := Element(4, 5), Element(1, 5), Element(0, 5);
    DivideByFour(four, length, 1);
    DivideByFour(one, length, 4);
    DivideByFour(zero, length, 0);
    assert scaled[0] == four && scaled[1] == one && scaled[2] == zero && scaled[3] == zero;
    DivideFour(scaled, length, Element(1, 5), Element(4, 5), Element(0, 5), Element(0, 5));
  }

  /** With `omega^2` in the recursion, the source's four-element test holds:
      `[1, 4, 0, 0]` over the field of order 5 with omega 2 comes back unchanged. */
  lemma FourElementRoundTrip()
    ensures Ntt([Element(1, 5), Element(4, 5), Element(0, 5), Element(0, 5)], Element(2, 5))
      == Ok([Element(0, 5), Element(4, 5), Element(2, 5), Element(3, 5)])
    ensures Intt([Element(0, 5), Element(4, 5), Element(2, 5), Element(3, 5)], Element(2, 5))
      == Ok([Element(1, 5), Element(4, 5), Element(0, 5), Element(0, 5)])
  {
    ForwardExample([Element(1, 5), Element(4, 5), Element(0, 5), Element(0, 5)], Element(2, 5));
    InverseExample([Element(0, 5), Element(4, 5), Element(2, 5), Element(3, 5)], Element(2, 5));
  }
}
