/** The number-theoretic transform of `ntt_fft` and its inverse `intt_fft`
    over a prime field.  The recursion splits the input by parity, transforms
    both halves with the SAME root `omega` (not `omega^2`), and recombines
    with the twiddle factors `omega^j`. */
module Fft {
  import opened Modular
  import opened Panics
  import opened PrimeField
  import opened Seqs

  /** 2^64: a `Vec` has fewer entries than this, so every index `j as i128`
      is a valid exponent for `mod_pow`. */
  const UsizeBound: nat := Pow2(64)

  /** The entries at even indices, in order. */
  function Evens<T>(x: seq<T>): seq<T>
  {
    seq((|x| + 1) / 2, i requires 0 <= i < (|x| + 1) / 2 => x[2 * i])
  }

  /** The entries at odd indices, in order. */
  function Odds<T>(x: seq<T>): seq<T>
  {
    seq(|x| / 2, i requires 0 <= i < |x| / 2 => x[2 * i + 1])
  }

  /** `n` is a power of two (1, 2, 4, ...). */
  predicate IsPow2(n: nat)
    decreases n
  {
    if n <= 1 then n == 1 else n % 2 == 0 && IsPow2(n / 2)
  }

  /** Every entry belongs to the field of modulus `q`. */
  predicate AllInField(x: seq<Element>, q: Modulus)
  {
    forall i :: 0 <= i < |x| ==> x[i].q == q
  }

  /** `dft_finite_fields` as a function: `[x0 + x1, x0 + omega * x1]`. */
  function Dft2(x: seq<Element>, w: Element): (r: Result<seq<Element>>)
    requires |x| >= 2
    ensures r.Ok? <==> x[0].q == x[1].q && w.q == x[1].q
    ensures r.Err? ==> r.error == FieldMismatch
    ensures r.Ok? ==> |r.value| == 2 && r.value[0].q == r.value[1].q == w.q
    ensures r.Ok? && IsCanonical(x[0]) && IsCanonical(x[1]) && IsCanonical(w) ==>
      r.value == [Element((x[0].value + x[1].value) % w.q, w.q), Element((x[0].value + w.value * x[1].value) % w.q, w.q)]
  {
    var y0 :- Add(x[0], x[1]);
    var p :- Mul(w, x[1]);
    // this addition's field check cannot fail once the two above have passed
    var y1 := Add(x[0], p).value;
    if IsCanonical(x[0]) && IsCanonical(w) then
      ModAdd(x[0].value, w.value * x[1].value, w.q);
      Ok([y0, y1])
    else Ok([y0, y1])
  }

  /** `dft_finite_fields`: pushes the two outputs into a fresh vector. */
  method DftFiniteFields(x: seq<Element>, w: Element) returns (r: Result<seq<Element>>)
    requires |x| >= 2
    ensures r == Dft2(x, w)
  {
    var y: seq<Element> := [];
    var s :- Add(x[0], x[1]);
    y := y + [s];
    var p :- Mul(w, x[1]);
    // this addition's field check cannot fail once the two above have passed
    var t := Add(x[0], p).value;
    y := y + [t];
    assert y == [s, t];
    return Ok(y);
  }

  /** The parity split of `ntt_fft`. */
  method SplitByParity(x: seq<Element>) returns (xEven: seq<Element>, xOdd: seq<Element>)
    ensures |xEven| == (|x| + 1) / 2 && |xOdd| == |x| / 2
    ensures forall i :: 0 <= i < |xEven| ==> xEven[i] == x[2 * i]
    ensures forall i :: 0 <= i < |xOdd| ==> xOdd[i] == x[2 * i + 1]
  {
    xEven, xOdd := [], [];
    for i := 0 to |x|
      invariant |xEven| == (i + 1) / 2 && |xOdd| == i / 2
      invariant forall k :: 0 <= k < |xEven| ==> xEven[k] == x[2 * k]
      invariant forall k :: 0 <= k < |xOdd| ==> xOdd[k] == x[2 * k + 1]
    {
      if i % 2 == 1 {
        xOdd := xOdd + [x[i]];
      } else {
        xEven := xEven + [x[i]];
      }
    }
  }

  /** The twiddle factors `omega^0, ..., omega^(n-1)`. */
  function Twiddles(w: Element, n: nat): (r: seq<Element>)
    ensures |r| == n
    ensures forall j :: 0 <= j < n ==> r[j].q == w.q && r[j].value % w.q == Pow(w.value, j) % w.q
  {
    seq(n, j requires 0 <= j < n => Power(w, j))
  }

  lemma {:induction false} UsizeFitsI128()
    ensures UsizeBound <= I128Bound
  {
    Pow2Monotone(64, 127);
  }

  /** The loop of `ntt_fft` that fills `factor_values` with `omega.mod_pow(j)`. */
  method TwiddleFactors(w: Element, size: nat) returns (f: seq<Element>)
    requires size <= UsizeBound
    ensures |f| == size
    ensures forall j :: 0 <= j < size ==> f[j] == Power(w, j)
  {
    UsizeFitsI128();
    f := [];
    for j := 0 to size
      invariant |f| == j
      invariant forall k :: 0 <= k < j ==> f[k] == Power(w, k)
    {
      var pow := ModPow(w, j);
      f := f + [pow];
    }
  }

  /** `even + odd * factor`, the body of the two Hadamard-product loops. */
  function Butterfly(e: Element, o: Element, t: Element): (r: Result<Element>)
    ensures r.Ok? <==> o.q == t.q && e.q == o.q
    ensures r.Ok? ==> r.value.q == e.q
  {
    var p :- Mul(o, t);
    Add(e, p)
  }

  /** The recombination of `ntt_fft`: entry `j < h` is `even[j] + odd[j] * tw[j]`
      and entry `h + j` is `even[j] + odd[j] * tw[h + j]`; any field mismatch
      panics. */
  function Combine(even: seq<Element>, odd: seq<Element>, tw: seq<Element>): (r: Result<seq<Element>>)
    requires |even| == |odd| && |tw| == 2 * |even|
    ensures r.Ok? <==> forall j :: 0 <= j < |even| ==>
      even[j].q == odd[j].q == tw[j].q && tw[|even| + j].q == odd[j].q
    ensures r.Err? ==> r.error == FieldMismatch
    ensures r.Ok? ==> |r.value| == |tw|
  {
    var h := |even|;
    if forall j :: 0 <= j < h ==> Butterfly(even[j], odd[j], tw[j]).Ok? && Butterfly(even[j], odd[j], tw[h + j]).Ok?
    then Ok(seq(h, j requires 0 <= j < h => Butterfly(even[j], odd[j], tw[j]).value)
         + seq(h, j requires 0 <= j < h => Butterfly(even[j], odd[j], tw[h + j]).value))
    else Err(FieldMismatch)
  }

  /** Both outputs of a butterfly lie in the field of its even input. */
  lemma CombineFields(even: seq<Element>, odd: seq<Element>, tw: seq<Element>)
    requires |even| == |odd| && |tw| == 2 * |even| && Combine(even, odd, tw).Ok?
    ensures forall j :: 0 <= j < |even| ==>
      Combine(even, odd, tw).value[j].q == even[j].q && Combine(even, odd, tw).value[|even| + j].q == even[j].q
  {
    var h := |even|;
    var r := Combine(even, odd, tw).value;
    var lo := seq(h, j requires 0 <= j < h => Butterfly(even[j], odd[j], tw[j]).value);
    var hi := seq(h, j requires 0 <= j < h => Butterfly(even[j], odd[j], tw[h + j]).value);
    assert r == lo + hi;
    forall j | 0 <= j < h
      ensures r[j].q == even[j].q && r[h + j].q == even[j].q
    {
      assert r[j] == lo[j] && r[h + j] == hi[j];
    }
  }

  /** A successful recombination of an even half in field `q` lies in `q`. */
  lemma CombineKeepsField(even: seq<Element>, odd: seq<Element>, tw: seq<Element>, q: Modulus)
    requires |even| == |odd| && |tw| == 2 * |even| && Combine(even, odd, tw).Ok?
    requires AllInField(even, q)
    ensures AllInField(Combine(even, odd, tw).value, q)
  {
    CombineFields(even, odd, tw);
    var r, h := Combine(even, odd, tw).value, |even|;
    forall i | 0 <= i < |r| ensures r[i].q == q {
      if i < h {
        assert even[i].q == q;
      } else {
        assert even[i - h].q == q;
      }
    }
  }

  /** `ntt_fft` as a function.  An odd length panics; length 0 would recurse
      forever, hence the precondition. */
  function Ntt(x: seq<Element>, w: Element): (r: Result<seq<Element>>)
    requires |x| > 0
    ensures r.Ok? ==> |r.value| == |x|
    ensures r.Ok? ==> forall i :: 0 <= i < |x| ==> r.value[i].q == w.q
    decreases |x|
  {
    if |x| % 2 == 1 then Err(OddLength)
    else if |x| == 2 then Dft2(x, w)
    else
      var even :- Ntt(Evens(x), w);
      var odd :- Ntt(Odds(x), w);
      var r := Combine(even, odd, Twiddles(w, |x|));
      assert r.Ok? ==> AllInField(r.value, w.q) by {
        if r.Ok? {
          CombineKeepsField(even, odd, Twiddles(w, |x|), w.q);
        }
      }
      r
  }

  /** One level of the recursion of `ntt_fft`: the even half is transformed
      first, then the odd half, each with the same `omega`, and the halves are
      recombined with `omega^0, ..., omega^(n-1)`. */
  lemma NttRecursion(x: seq<Element>, w: Element)
    requires |x| > 2 && |x| % 2 == 0
    ensures Ntt(x, w) ==
      if Ntt(Evens(x), w).Err? then Ntt(Evens(x), w)
      else if Ntt(Odds(x), w).Err? then Ntt(Odds(x), w)
      else Combine(Ntt(Evens(x), w).value, Ntt(Odds(x), w).value, Twiddles(w, |x|))
  {
  }

  /** The two loops of `ntt_fft` that split the twiddle factors at the middle. */
  method SplitByMiddle(f: seq<Element>) returns (fst: seq<Element>, snd: seq<Element>)
    ensures fst == f[..|f| / 2] && snd == f[|f| / 2..]
  {
    var h := |f| / 2;
    fst, snd := [], [];
    for i := 0 to h
      invariant fst == f[..i]
    {
      fst := fst + [f[i]];
    }
    for i := h to |f|
      invariant snd == f[h..i]
    {
      snd := snd + [f[i]];
    }
  }

  /** The two halves of the twiddle factors, all in `omega`'s field. */
  lemma SplitTwiddles(f: seq<Element>, w: Element, fst: seq<Element>, snd: seq<Element>)
    requires |f| % 2 == 0 && forall j :: 0 <= j < |f| ==> f[j] == Power(w, j)
    requires fst == f[..|f| / 2] && snd == f[|f| / 2..]
    ensures fst + snd == Twiddles(w, |f|)
    ensures |fst| == |snd| == |f| / 2 && AllInField(fst, w.q) && AllInField(snd, w.q)
  {
    assert fst + snd == f;
    assert f == Twiddles(w, |f|);
  }

  /** The two Hadamard-product loops of `ntt_fft`: `even + odd * fst` followed
      by `even + odd * snd`.  With every operand in one field no check fails. */
  method HadamardSums(even: seq<Element>, odd: seq<Element>, fst: seq<Element>, snd: seq<Element>, q: Modulus)
    returns (res: seq<Element>)
    requires |even| == |odd| == |fst| == |snd|
    requires AllInField(even, q) && AllInField(odd, q) && AllInField(fst, q) && AllInField(snd, q)
    ensures Combine(even, odd, fst + snd) == Ok(res)
  {
    var h := |even|;
    res := [];
    for i := 0 to h
      invariant |res| == i
      invariant forall k :: 0 <= k < i ==> Butterfly(even[k], odd[k], fst[k]) == Ok(res[k])
    {
      var p := Mul(odd[i], fst[i]).value;
      var s := Add(even[i], p).value;
      res := res + [s];
    }
    for i := 0 to h
      invariant |res| == h + i
      invariant forall k :: 0 <= k < h ==> Butterfly(even[k], odd[k], fst[k]) == Ok(res[k])
      invariant forall k :: 0 <= k < i ==> Butterfly(even[k], odd[k], snd[k]) == Ok(res[h + k])
    {
      var p := Mul(odd[i], snd[i]).value;
      var s := Add(even[i], p).value;
      res := res + [s];
    }
    CombineOfHalves(even, odd, fst, snd, res);
  }

  /** Two halves of butterflies, the first with `fst` and the second with
      `snd`, are the recombination with the twiddles `fst + snd`. */
  lemma CombineOfHalves(even: seq<Element>, odd: seq<Element>, fst: seq<Element>, snd: seq<Element>, res: seq<Element>)
    requires |even| == |odd| == |fst| == |snd| && |res| == 2 * |even|
    requires forall k :: 0 <= k < |even| ==> Butterfly(even[k], odd[k], fst[k]) == Ok(res[k])
    requires forall k :: 0 <= k < |even| ==> Butterfly(even[k], odd[k], snd[k]) == Ok(res[|even| + k])
    ensures Combine(even, odd, fst + snd) == Ok(res)
  {
    var h := |even|;
    var tw := fst + snd;
    var lo := seq(h, j requires 0 <= j < h => Butterfly(even[j], odd[j], tw[j]).value);
    var hi := seq(h, j requires 0 <= j < h => Butterfly(even[j], odd[j], tw[h + j]).value);
    forall j | 0 <= j < h
      ensures Butterfly(even[j], odd[j], tw[j]).Ok? && Butterfly(even[j], odd[j], tw[h + j]).Ok?
      ensures lo[j] == res[j] && hi[j] == res[h + j]
    {
      assert tw[j] == fst[j] && tw[h + j] == snd[j];
      assert Butterfly(even[j], odd[j], fst[j]) == Ok(res[j]);
      assert Butterfly(even[j], odd[j], snd[j]) == Ok(res[h + j]);
    }
    assert Combine(even, odd, tw) == Ok(lo + hi);
    JoinHalves(lo, hi, res);
  }

  /** `ntt_fft`: the recursive transform, filling fresh vectors step by step. */
  method NttFft(x: seq<Element>, w: Element) returns (r: Result<seq<Element>>)
    requires 0 < |x| <= UsizeBound
    ensures r == Ntt(x, w)
    decreases |x|
  {
    var size := |x|;
    if size % 2 == 1 {
      return Err(OddLength);
    } else if size == 2 {
      r := DftFiniteFields(x, w);
      return;
    }
    var xEven, xOdd := SplitByParity(x);
    assert xEven == Evens(x) && xOdd == Odds(x);
    NttRecursion(x, w);
    var even :- NttFft(xEven, w);
    var odd :- NttFft(xOdd, w);
    assert |even| == |odd| == size / 2;
    assert AllInField(even, w.q) && AllInField(odd, w.q);
    var factors := TwiddleFactors(w, size);
    var fst, snd := SplitByMiddle(factors);
    SplitTwiddles(factors, w, fst, snd);
    var res := HadamardSums(even, odd, fst, snd, w.q);
    return Ok(res);
  }

  /** Every entry divided by `d`; a field mismatch panics. */
  function DivideAll(s: seq<Element>, d: Element): (r: Result<seq<Element>>)
    ensures r.Ok? <==> forall i :: 0 <= i < |s| ==> s[i].q == d.q
    ensures r.Err? ==> r.error == FieldMismatch
    ensures r.Ok? ==> |r.value| == |s| && forall i :: 0 <= i < |s| ==> Ok(r.value[i]) == Div(s[i], d)
  {
    if forall i :: 0 <= i < |s| ==> Div(s[i], d).Ok?
    then Ok(seq(|s|, i requires 0 <= i < |s| => Div(s[i], d).value))
    else Err(FieldMismatch)
  }

  /** The last step of `intt_fft`: a panic of the transform is passed on, and
      every entry of a successful transform is divided by `n` taken in field `q`. */
  function Unscale(t: Result<seq<Element>>, n: nat, q: Modulus): (r: Result<seq<Element>>)
    ensures r.Ok? <==> t.Ok? && AllInField(t.value, q)
    ensures t.Err? ==> r == t
    ensures t.Ok? && r.Err? ==> r.error == FieldMismatch
    ensures r.Ok? ==> |r.value| == |t.value| && forall i :: 0 <= i < |t.value| ==>
      Ok(r.value[i]) == Div(t.value[i], New(n, q))
  {
    var scaled :- t;
    DivideAll(scaled, New(n, q))
  }

  /** `intt_fft`: the transform with `omega`'s inverse, every entry divided by
      the length taken as a field element. */
  function Intt(x: seq<Element>, w: Element): (r: Result<seq<Element>>)
    requires |x| > 0
    ensures r.Ok? <==> Ntt(x, Inv(w)).Ok?
    ensures r.Err? ==> r == Ntt(x, Inv(w))
    ensures r.Ok? ==> |r.value| == |x| && forall i :: 0 <= i < |x| ==>
      Ok(r.value[i]) == Div(Ntt(x, Inv(w)).value[i], New(|x|, w.q))
  {
    Unscale(Ntt(x, Inv(w)), |x|, w.q)
  }
}
