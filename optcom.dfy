/**
 * Coil combination and intensity scaling of sense/optcom.c: the shapes derived
 * from the full 16-axis shape, the per-pixel normalisation of optimal_combine,
 * and the percentile rule estimate_scaling_internal applies to the combined
 * calibration image.
 *
 * Only magnitudes enter the scale rule, so the combined image is modelled by
 * the magnitudes of its samples, as exact non-negative reals.
 */
module Optcom {
  import opened Multind
  import opened Flpmath
  import opened Results

  /** Axis layout of misc/mri.h: 16 axes, coils on axis 3, sensitivity maps on axis 4. */
  const DIMS: nat := 16
  const COIL_DIM: nat := 3
  const MAPS_DIM: nat := 4
  const COIL_FLAG: bv64 := (1 as bv64) << COIL_DIM
  const MAPS_FLAG: bv64 := (1 as bv64) << MAPS_DIM

  /** ~COIL_FLAG keeps every axis but the coil axis. */
  lemma NotCoilFlag(flags: bv64)
    requires flags == !COIL_FLAG
    ensures forall i :: 0 <= i < 64 ==> (IsSet(flags, i) <==> i != COIL_DIM)
  {
  }

  /** ~MAPS_FLAG keeps every axis but the maps axis. */
  lemma NotMapsFlag(flags: bv64)
    requires flags == !MAPS_FLAG
    ensures forall i :: 0 <= i < 64 ==> (IsSet(flags, i) <==> i != MAPS_DIM)
  {
  }

  /** ~(COIL_FLAG|MAPS_FLAG) keeps every axis but those two. */
  lemma NotCoilMapsFlag(flags: bv64)
    requires flags == !(COIL_FLAG | MAPS_FLAG)
    ensures forall i :: 0 <= i < 64 ==> (IsSet(flags, i) <==> i != COIL_DIM && i != MAPS_DIM)
  {
  }

  /** Selecting with a mask that clears exactly the axes in out sets those axes to 1. */
  lemma SelectAllBut(flags: bv64, out: set<nat>, d: seq<int>)
    requires |d| <= 64 && forall i :: 0 <= i < 64 ==> (IsSet(flags, i) <==> i !in out)
    ensures forall i :: 0 <= i < |d| ==> SelectDims(flags, d)[i] == if i in out then 1 else d[i]
  {
  }

  /** dims_img: one combined image, the coil axis collapsed. */
  function DimsImg(dims: seq<int>): (r: seq<int>)
    requires |dims| == DIMS
    ensures r == dims[COIL_DIM := 1]
  {
    NotCoilFlag(!COIL_FLAG);
    SelectAllBut(!COIL_FLAG, {COIL_DIM}, dims);
    SelectDims(!COIL_FLAG, dims)
  }

  /** dims_one: one image of one map, the coil and maps axes collapsed. */
  function DimsOne(dims: seq<int>): (r: seq<int>)
    requires |dims| == DIMS
    ensures r == dims[COIL_DIM := 1][MAPS_DIM := 1]
  {
    NotCoilMapsFlag(!(COIL_FLAG | MAPS_FLAG));
    SelectAllBut(!(COIL_FLAG | MAPS_FLAG), {COIL_DIM, MAPS_DIM}, dims);
    SelectDims(!(COIL_FLAG | MAPS_FLAG), dims)
  }

  /** dims_ksp: multi-coil k-space of one map, the maps axis collapsed. */
  function DimsKsp(dims: seq<int>): (r: seq<int>)
    requires |dims| == DIMS
    ensures r == dims[MAPS_DIM := 1]
  {
    NotMapsFlag(!MAPS_FLAG);
    SelectAllBut(!MAPS_FLAG, {MAPS_DIM}, dims);
    SelectDims(!MAPS_FLAG, dims)
  }

  /** The three derived shapes agree with each other: one = img with maps collapsed = ksp with coils collapsed. */
  lemma DerivedShapesAgree(dims: seq<int>)
    requires |dims| == DIMS
    ensures DimsOne(dims) == DimsImg(dims)[MAPS_DIM := 1] == DimsKsp(dims)[COIL_DIM := 1]
    ensures forall i :: 0 <= i < DIMS && i != COIL_DIM && i != MAPS_DIM ==>
      DimsImg(dims)[i] == DimsOne(dims)[i] == DimsKsp(dims)[i] == dims[i]
  {
    assert dims[MAPS_DIM := 1][COIL_DIM := 1] == dims[COIL_DIM := 1][MAPS_DIM := 1];
  }

  /** An image holds a coil-th of the samples: Prod(dims) == Prod(dims_img) * dims[COIL_DIM]. */
  lemma ImageSize(dims: seq<int>)
    requires |dims| == DIMS
    ensures Prod(DimsImg(dims)) * dims[COIL_DIM] == Prod(dims)
  {
    ProdUpdate(dims, COIL_DIM, 1);
  }

  /** So imsize = size / dims[COIL_DIM] is exactly the number of image samples. */
  lemma ImsizeIsImageSize(dims: seq<int>)
    requires |dims| == DIMS && dims[COIL_DIM] > 0
    ensures Prod(dims) / dims[COIL_DIM] == Prod(DimsImg(dims))
  {
    ImageSize(dims);
    DivExact(Prod(dims), dims[COIL_DIM], Prod(DimsImg(dims)));
  }

  /** Multiplication of a complex sample by a real. */
  function ScaleReal(a: Complex, d: real): Complex
  {
    Complex(a.re * d, a.im * d)
  }

  /** Dividing by d and multiplying back by d restores the sample. */
  lemma DivRealInverse(a: Complex, d: real)
    requires d != 0.0
    ensures ScaleReal(DivReal(a, d), d) == a
    ensures DivReal(ScaleReal(a, d), d) == a
  {
    assert a.re / d * d == a.re && a.im / d * d == a.im;
  }

  /** The per-pixel weight optimal_combine divides by: |norm|^2 + alpha. */
  function Weight(norm: Complex, alpha: real): real
  {
    AbsSq(norm) + alpha
  }

  /**
   * The division loop of optimal_combine: each of the imsize samples of the
   * combined image is divided by the squared root-sum-of-squares of the
   * sensitivities at that pixel plus alpha; the rest of the buffer is untouched.
   */
  method NormalizeCombined(dims: seq<nat>, alpha: real, image: array<Complex>, norm: seq<Complex>)
    requires |dims| == DIMS
    requires Prod(DimsImg(dims)) <= image.Length && Prod(DimsImg(dims)) <= |norm|
    requires forall i :: 0 <= i < Prod(DimsImg(dims)) ==> Weight(norm[i], alpha) != 0.0
    modifies image
    ensures forall i :: 0 <= i < Prod(DimsImg(dims)) ==> image[i] == DivReal(old(image[i]), Weight(norm[i], alpha))
    ensures forall i :: Prod(DimsImg(dims)) <= i < image.Length ==> image[i] == old(image[i])
  {
    var imsize := Prod(DimsImg(dims));
    var i := 0;
    while i < imsize
      invariant 0 <= i <= imsize
      invariant forall j :: 0 <= j < i ==> image[j] == DivReal(old(image[j]), Weight(norm[j], alpha))
      invariant forall j :: i <= j < image.Length ==> image[j] == old(image[j])
    {
      image[i] := DivReal(image[i], Weight(norm[i], alpha));
      i := i + 1;
    }
  }

  /** Multiplying the normalised image back by the weights recovers the unnormalised one. */
  lemma NormalizeUndo(before: seq<Complex>, after: seq<Complex>, norm: seq<Complex>, alpha: real, n: nat)
    requires n <= |before| == |after| && n <= |norm|
    requires forall i :: 0 <= i < n ==> Weight(norm[i], alpha) != 0.0
    requires forall i :: 0 <= i < n ==> after[i] == DivReal(before[i], Weight(norm[i], alpha))
    ensures forall i :: 0 <= i < n ==> ScaleReal(after[i], Weight(norm[i], alpha)) == before[i]
  {
    forall i | 0 <= i < n ensures ScaleReal(after[i], Weight(norm[i], alpha)) == before[i] {
      DivRealInverse(before[i], Weight(norm[i], alpha));
    }
  }

  /**
   * compare_cmpl_magn as written: the sign of |a| - |b| carried onto 1.0, so a
   * difference of zero counts as positive.
   */
  function CompareMagnAsWritten(ma: real, mb: real): (r: int)
    ensures r == -1 || r == 1
    ensures r == -1 <==> ma < mb
    ensures r == 1 <==> ma >= mb
  {
    if ma - mb < 0.0 then -1 else 1
  }

  /** Two samples of equal magnitude each compare greater than the other. */
  lemma CompareMagnAsWrittenInconsistent(m: real)
    ensures CompareMagnAsWritten(m, m) == 1
    ensures CompareMagnAsWritten(m, m) != -CompareMagnAsWritten(m, m)
  {
  }

  /** The three-way comparison the sort needs: 0 for equal magnitudes. */
  function CompareMagn(ma: real, mb: real): (r: int)
    ensures r == -1 <==> ma < mb
    ensures r == 0 <==> ma == mb
    ensures r == 1 <==> ma > mb
  {
    if ma < mb then -1 else if ma > mb then 1 else 0
  }

  /** The corrected comparison is antisymmetric and transitive, a total preorder as qsort requires. */
  lemma CompareMagnOrder(a: real, b: real, c: real)
    ensures CompareMagn(a, b) == -CompareMagn(b, a)
    ensures CompareMagn(a, b) <= 0 && CompareMagn(b, c) <= 0 ==> CompareMagn(a, c) <= 0
    ensures CompareMagnAsWritten(a, b) == -1 <==> CompareMagn(a, b) == -1
  {
  }

  predicate SortedAscending(s: seq<real>)
  {
    forall k, l :: 0 <= k < l < |s| ==> s[k] <= s[l]
  }

  /** The qsort call: sorts the magnitudes ascending in place, keeping every value. */
  method SortByMagnitude(a: array<real>)
    modifies a
    ensures SortedAscending(a[..])
    ensures multiset(a[..]) == multiset(old(a[..]))
  {
    var i := 0;
    while i < a.Length
      invariant 0 <= i <= a.Length
      invariant SortedAscending(a[..i])
      invariant multiset(a[..]) == multiset(old(a[..]))
    {
      InsertAt(a, i);
      i := i + 1;
    }
    assert a[..a.Length] == a[..];
  }

  /** One insertion step: moves a[i] down into the sorted prefix a[..i]; the rest of a is untouched. */
  method InsertAt(a: array<real>, i: nat)
    requires i < a.Length && SortedAscending(a[..i])
    modifies a
    ensures SortedAscending(a[..i + 1])
    ensures multiset(a[..i + 1]) == multiset(old(a[..i + 1]))
    ensures a[i + 1..] == old(a[i + 1..])
    ensures multiset(a[..]) == multiset(old(a[..]))
  {
    ghost var orig := a[..];
    InsertStart(orig, i);
    var j: nat := i;
    while j > 0 && CompareMagn(a[j - 1], a[j]) > 0
      invariant j <= i
      invariant InsertState(a[..], orig, i, j)
    {
      SinkStep(a, orig, i, j);
      j := j - 1;
    }
    InsertFinish(a[..], orig, i, j);
  }

  /** Moves the element being inserted one place down, past its larger left neighbour. */
  method SinkStep(a: array<real>, ghost orig: seq<real>, i: nat, j: nat)
    requires InsertState(a[..], orig, i, j) && 0 < j && a[j - 1] > a[j]
    modifies a
    ensures InsertState(a[..], orig, i, j - 1)
  {
    InsertAdvance(a[..], orig, i, j);
    Swap(a, j - 1, j);
  }

  /** Exchanges a[i] and a[j]. */
  method Swap(a: array<real>, i: nat, j: nat)
    requires i < a.Length && j < a.Length
    modifies a
    ensures a[..] == old(a[..])[i := old(a[j])][j := old(a[i])]
  {
    a[i], a[j] := a[j], a[i];
  }

  /** t is a permutation of s on the prefix [..n] and equal to it after. */
  predicate PermutedPrefix(t: seq<real>, s: seq<real>, n: nat)
  {
    n <= |t| == |s| && multiset(t[..n]) == multiset(s[..n]) && t[n..] == s[n..]
  }

  /** A permutation on a prefix with an equal suffix is a permutation of the whole. */
  lemma PermutedPrefixWhole(t: seq<real>, s: seq<real>, n: nat)
    requires PermutedPrefix(t, s, n)
    ensures multiset(t) == multiset(s)
  {
    assert t == t[..n] + t[n..];
    assert s == s[..n] + s[n..];
  }

  /**
   * Insertion in progress: the element being inserted sits at j, the others
   * in s[..i + 1] are ascending, and it is no larger than anything after it.
   */
  predicate Inserting(s: seq<real>, i: nat, j: nat)
  {
    j <= i < |s|
    && (forall k, l :: 0 <= k < l <= i && k != j && l != j ==> s[k] <= s[l])
    && (forall l :: j < l <= i ==> s[j] <= s[l])
    && (0 < j < i ==> s[j - 1] <= s[j + 1])
  }

  /** The loop state of InsertAt: cur permutes orig on [..i + 1], with the inserted element at j. */
  predicate InsertState(cur: seq<real>, orig: seq<real>, i: nat, j: nat)
  {
    PermutedPrefix(cur, orig, i + 1) && Inserting(cur, i, j)
  }

  /** One pass of the InsertAt loop keeps its state, one place further down. */
  lemma InsertAdvance(cur: seq<real>, orig: seq<real>, i: nat, j: nat)
    requires InsertState(cur, orig, i, j) && 0 < j && cur[j - 1] > cur[j]
    ensures InsertState(cur[j - 1 := cur[j]][j := cur[j - 1]], orig, i, j - 1)
  {
    InsertStep(cur, i, j);
    SwapPrefix(cur, orig, j - 1, j, i + 1);
  }

  /** When the InsertAt loop stops, the prefix is sorted and permuted and the rest unchanged. */
  lemma InsertFinish(cur: seq<real>, orig: seq<real>, i: nat, j: nat)
    requires InsertState(cur, orig, i, j) && (j == 0 || cur[j - 1] <= cur[j])
    ensures SortedAscending(cur[..i + 1])
    ensures multiset(cur[..i + 1]) == multiset(orig[..i + 1]) && cur[i + 1..] == orig[i + 1..]
    ensures multiset(cur) == multiset(orig)
  {
    InsertDone(cur, i, j);
    PermutedPrefixWhole(cur, orig, i + 1);
  }

  lemma InsertStart(s: seq<real>, i: nat)
    requires i < |s| && SortedAscending(s[..i])
    ensures InsertState(s, s, i, i)
  {
    forall k, l | 0 <= k < l <= i && k != i && l != i ensures s[k] <= s[l] {
      assert s[k] == s[..i][k] && s[l] == s[..i][l];
    }
  }

  /** Swapping the inserted element with its larger left neighbour moves it one place down. */
  lemma InsertStep(s: seq<real>, i: nat, j: nat)
    requires Inserting(s, i, j) && 0 < j && s[j - 1] > s[j]
    ensures Inserting(s[j - 1 := s[j]][j := s[j - 1]], i, j - 1)
  {
    var t := s[j - 1 := s[j]][j := s[j - 1]];
    forall k, l | 0 <= k < l <= i && k != j - 1 && l != j - 1 ensures t[k] <= t[l] {
      if k == j && j + 1 < l {
        assert s[j - 1] <= s[j + 1] <= s[l];
      }
    }
  }

  lemma InsertDone(s: seq<real>, i: nat, j: nat)
    requires Inserting(s, i, j) && (j == 0 || s[j - 1] <= s[j])
    ensures SortedAscending(s[..i + 1])
  {
    forall k, l | 0 <= k < l <= i ensures s[k] <= s[l] {
      if l == j && k < j - 1 {
        assert s[k] <= s[j - 1];
      }
    }
  }

  /** Swapping two elements of the prefix s[..n] permutes the prefix and leaves the rest alone. */
  lemma SwapPrefix(s: seq<real>, orig: seq<real>, i: nat, j: nat, n: nat)
    requires i < j < n && PermutedPrefix(s, orig, n)
    ensures PermutedPrefix(s[i := s[j]][j := s[i]], orig, n)
  {
    var t := s[i := s[j]][j := s[i]];
    assert t[..n] == s[..n][i := s[j]][j := s[i]];
    assert t[n..] == s[n..];
  }

  /** Position of the 90th percentile, trunc(imsize * 0.9) in exact arithmetic. */
  function P90Index(imsize: nat): (r: nat)
    ensures 10 * r <= 9 * imsize < 10 * r + 10
  {
    imsize * 9 / 10
  }

  /** The median, 90th-percentile and maximum positions lie in the buffer, in that order. */
  lemma PickIndices(imsize: nat)
    requires imsize >= 1
    ensures 0 <= imsize / 2 <= P90Index(imsize) <= imsize - 1 < imsize
  {
    var h, p := imsize / 2, P90Index(imsize);
    assert 2 * h <= imsize;
    assert 10 * p <= imsize * 9 < 10 * p + 10;
    assert 10 * h <= 5 * imsize;
    assert 10 * h <= 10 * p + 9;
    assert p <= imsize - 1;
  }

  datatype ScaleEstimate = ScaleEstimate(median: real, p90: real, max: real, scale: real)

  /** Dividing by a positive real keeps order. */
  lemma DivMono(a: real, b: real, r: real)
    requires r > 0.0 && a <= b
    ensures a / r <= b / r
  {
    assert b / r - a / r == (b - a) / r;
  }

  /**
   * The decision of estimate_scaling_internal on the sorted magnitudes: the p90
   * value unless the maximum lies more than twice the median-to-p90 gap above it,
   * in which case the maximum; the median in compat mode.
   */
  function SelectScale(sorted: seq<real>, rescale: real, compat: bool): (e: ScaleEstimate)
    requires |sorted| >= 1 && rescale > 0.0
    ensures compat ==> e.scale == e.median
    ensures !compat ==> (e.scale == e.p90 || e.scale == e.max)
    ensures !compat && e.max - e.p90 < 2.0 * (e.p90 - e.median) ==> e.scale == e.p90
    ensures !compat && e.max - e.p90 >= 2.0 * (e.p90 - e.median) ==> e.scale == e.max
    ensures e.median == sorted[|sorted| / 2] / rescale
    ensures e.p90 == sorted[P90Index(|sorted|)] / rescale && P90Index(|sorted|) < |sorted|
    ensures e.max == sorted[|sorted| - 1] / rescale
    ensures SortedAscending(sorted) ==> e.median <= e.p90 <= e.max
    ensures SortedAscending(sorted) && !compat ==> e.p90 <= e.scale
  {
    var n := |sorted|;
    PickIndices(n);
    var median := sorted[n / 2] / rescale;
    var p90 := sorted[P90Index(n)] / rescale;
    var max := sorted[n - 1] / rescale;
    var scale := if max - p90 < 2.0 * (p90 - median) then p90 else max;
    if SortedAscending(sorted) then
      DivMono(sorted[n / 2], sorted[P90Index(n)], rescale);
      DivMono(sorted[P90Index(n)], sorted[n - 1], rescale);
      ScaleEstimate(median, p90, max, if compat then median else scale)
    else
      ScaleEstimate(median, p90, max, if compat then median else scale)
  }

  datatype ScalingError = MultipleMaps

  /**
   * estimate_scaling_internal after the calibration image is combined: checks
   * for a single sensitivity map, sorts the imsize = size / dims[COIL_DIM]
   * combined magnitudes and applies the selection rule. The combined magnitudes
   * and the rescale factor are inputs.
   */
  method EstimateScalingInternal(dims: seq<int>, smallDims: seq<int>, combined: seq<real>, rescale: real, compat: bool)
    returns (r: Result<ScaleEstimate, ScalingError>)
    requires |dims| == DIMS && |smallDims| == DIMS && dims[COIL_DIM] > 0
    requires |combined| == Prod(smallDims) / dims[COIL_DIM] >= 1
    requires rescale > 0.0
    ensures r.Fail? <==> dims[MAPS_DIM] != 1
    ensures r.Ok? ==> exists sorted :: SortedAscending(sorted) && multiset(sorted) == multiset(combined)
                                     && r.value == SelectScale(sorted, rescale, compat)
    ensures r.Ok? ==> r.value.median <= r.value.p90 <= r.value.max
    ensures r.Ok? && compat ==> r.value.scale == r.value.median
    ensures r.Ok? && !compat ==> r.value.p90 <= r.value.scale
  {
    if dims[MAPS_DIM] != 1 {
      return Fail(MultipleMaps);
    }
    var size := Prod(smallDims);
    var imsize := size / dims[COIL_DIM];
    var tmp1 := new real[imsize];
    forall i | 0 <= i < imsize {
      tmp1[i] := combined[i];
    }
    assert tmp1[..] == combined;
    SortByMagnitude(tmp1);
    var e := SelectScale(tmp1[..], rescale, compat);
    return Ok(e);
  }
}
