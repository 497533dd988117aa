/**
 * Complex samples and the two strided kernels the Casorati transform is built from:
 * the strided copy (md_copy2, StridedGather in Multind) and the strided accumulate
 * (md_zadd2 with the destination also the first source). Values are exact reals:
 * single-precision rounding is not modelled.
 */
module Flpmath {
  import opened Multind

  datatype Complex = Complex(re: real, im: real)

  const Zero := Complex(0.0, 0.0)

  function Add(a: Complex, b: Complex): Complex
  {
    Complex(a.re + b.re, a.im + b.im)
  }

  function Mul(a: Complex, b: Complex): Complex
  {
    Complex(a.re * b.re - a.im * b.im, a.re * b.im + a.im * b.re)
  }

  function Conj(a: Complex): Complex
  {
    Complex(a.re, -a.im)
  }

  /** Squared magnitude |a|^2. */
  function AbsSq(a: Complex): (r: real)
    ensures r >= 0.0
  {
    a.re * a.re + a.im * a.im
  }

  /** Division of a complex sample by a real. */
  function DivReal(a: Complex, d: real): Complex
    requires d != 0.0
  {
    Complex(a.re / d, a.im / d)
  }

  lemma MulConjAdd(a: Complex, b: Complex, c: Complex)
    ensures Mul(a, Conj(Add(b, c))) == Add(Mul(a, Conj(b)), Mul(a, Conj(c)))
  {
  }

  lemma MulZero(a: Complex)
    ensures Mul(a, Zero) == Zero
  {
    assert a.re * 0.0 == 0.0 && a.im * 0.0 == 0.0;
  }

  /** Inner product sum of a[i] * conj(b[i]) over all elements. */
  function Dot(a: seq<Complex>, b: seq<Complex>): Complex
    requires |a| == |b|
  {
    if |a| == 0 then Zero
    else Add(Dot(a[..|a| - 1], b[..|b| - 1]), Mul(a[|a| - 1], Conj(b[|b| - 1])))
  }

  function Zeros(n: nat): (z: seq<Complex>)
    ensures |z| == n && forall i :: 0 <= i < n ==> z[i] == Zero
  {
    seq(n, _ => Zero)
  }

  lemma {:induction false} DotZeros(x: seq<Complex>)
    ensures Dot(x, Zeros(|x|)) == Zero
  {
    var n := |x|;
    if n > 0 {
      var z := Zeros(n);
      DotZeros(x[..n - 1]);
      assert z[..n - 1] == Zeros(n - 1);
      var last := Mul(x[n - 1], Conj(z[n - 1]));
      assert z[n - 1] == Zero && Conj(Zero) == Zero;
      MulZero(x[n - 1]);
      calc {
        Dot(x, z);
        Add(Dot(x[..n - 1], z[..n - 1]), last);
        Add(Zero, Zero);
      }
    }
  }

  /** Adding c to element j of v adds x[j] * conj(c) to the inner product. */
  lemma {:induction false} DotUpdate(x: seq<Complex>, v: seq<Complex>, j: nat, c: Complex)
    requires |x| == |v| && j < |v|
    ensures Dot(x, v[j := Add(v[j], c)]) == Add(Dot(x, v), Mul(x[j], Conj(c)))
  {
    var n := |x|;
    var w := v[j := Add(v[j], c)];
    if j == n - 1 {
      assert w[..n - 1] == v[..n - 1];
      MulConjAdd(x[j], v[j], c);
    } else {
      assert w[..n - 1] == v[..n - 1][j := Add(v[j], c)];
      DotUpdate(x[..n - 1], v[..n - 1], j, c);
    }
  }

  /**
   * Accumulation of the first k cells of y into base: cell c adds y[c] to the
   * element at offset o[c], on top of whatever earlier cells have added there.
   */
  function Accumulate(base: seq<Complex>, y: seq<Complex>, o: seq<int>, k: nat): (r: seq<Complex>)
    requires OffsetsIn(o, |base|) && k <= |o| <= |y|
    ensures |r| == |base|
    decreases k
  {
    if k == 0 then base
    else
      var acc := Accumulate(base, y, o, k - 1);
      acc[o[k - 1] := Add(acc[o[k - 1]], y[k - 1])]
  }

  /** The strided accumulate of md_zadd2: the dense y added into the view (d, s) of base. */
  function StridedAccumulate(base: seq<Complex>, y: seq<Complex>, d: seq<nat>, s: seq<int>): (r: seq<Complex>)
    requires ValidLayout(d, s, |base|) && Prod(d) == |y|
    ensures |r| == |base|
  {
    ViewOffsetsIn(d, s, |base|);
    Accumulate(base, y, ViewOffsets(d, s), |y|)
  }

  /** md_zadd2 with the destination as first source: adds the dense y into the view (d, s) of dst. */
  method StridedAdd(dst: array<Complex>, y: array<Complex>, d: seq<nat>, s: seq<int>)
    requires ValidLayout(d, s, dst.Length) && y.Length == Prod(d) && dst != y
    modifies dst
    ensures dst[..] == StridedAccumulate(old(dst[..]), y[..], d, s)
  {
    ghost var base := dst[..];
    ghost var o := ViewOffsets(d, s);
    ViewOffsetsIn(d, s, dst.Length);
    var k := 0;
    while k < y.Length
      invariant 0 <= k <= y.Length
      invariant dst[..] == Accumulate(base, y[..], o, k)
    {
      var j := Off(s, Unlin(d, k));
      assert j == o[k];
      ghost var acc := dst[..];
      dst[j] := Add(dst[j], y[k]);
      assert dst[..] == acc[j := Add(acc[j], y[..][k])];
      k := k + 1;
    }
  }

  /** Sum of the first k cells of y whose offset is e: an independent reference. */
  function CellSum(y: seq<Complex>, o: seq<int>, k: nat, e: int): Complex
    requires k <= |o| <= |y|
  {
    if k == 0 then Zero
    else Add(CellSum(y, o, k - 1, e), if o[k - 1] == e then y[k - 1] else Zero)
  }

  /** Each element ends up as its old value plus every cell addressed to it. */
  lemma {:induction false} AccumulateAt(base: seq<Complex>, y: seq<Complex>, o: seq<int>, k: nat, e: nat)
    requires OffsetsIn(o, |base|) && k <= |o| <= |y| && e < |base|
    ensures Accumulate(base, y, o, k)[e] == Add(base[e], CellSum(y, o, k, e))
  {
    if k > 0 {
      AccumulateAt(base, y, o, k - 1, e);
      AddAt(Accumulate(base, y, o, k - 1), o[k - 1], e, base[e], CellSum(y, o, k - 1, e), y[k - 1]);
    }
  }

  /** Adding c at j adds c, or nothing, to element e. */
  lemma AddAt(acc: seq<Complex>, j: int, e: int, b: Complex, before: Complex, c: Complex)
    requires 0 <= j < |acc| && 0 <= e < |acc| && acc[e] == Add(b, before)
    ensures acc[j := Add(acc[j], c)][e] == Add(b, Add(before, if j == e then c else Zero))
  {
  }

  /** Gather and accumulate over the same offsets are adjoint, cell by cell. */
  lemma {:induction false} GatherAccumulateAdjointUpTo(x: seq<Complex>, y: seq<Complex>, o: seq<int>, k: nat)
    requires OffsetsIn(o, |x|) && k <= |o| == |y|
    ensures Dot(Gather(x, o)[..k], y[..k]) == Dot(x, Accumulate(Zeros(|x|), y, o, k))
  {
    var g := Gather(x, o);
    if k == 0 {
      DotZeros(x);
    } else {
      GatherAccumulateAdjointUpTo(x, y, o, k - 1);
      var acc := Accumulate(Zeros(|x|), y, o, k - 1);
      DotUpdate(x, acc, o[k - 1], y[k - 1]);
      assert g[..k][..k - 1] == g[..k - 1];
      assert y[..k][..k - 1] == y[..k - 1];
      assert g[k - 1] == x[o[k - 1]];
    }
  }

  /** <gather(x), y> == <x, accumulate(0, y)> for every valid view. */
  lemma GatherAccumulateAdjoint(x: seq<Complex>, y: seq<Complex>, d: seq<nat>, s: seq<int>)
    requires ValidLayout(d, s, |x|) && Prod(d) == |y|
    ensures Dot(StridedGather(x, d, s), y) == Dot(x, StridedAccumulate(Zeros(|x|), y, d, s))
  {
    var o := ViewOffsets(d, s);
    ViewOffsetsIn(d, s, |x|);
    GatherAccumulateAdjointUpTo(x, y, o, |y|);
    assert Gather(x, o)[..|y|] == Gather(x, o);
    assert y[..|y|] == y;
  }
}
