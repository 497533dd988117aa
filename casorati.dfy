/**
 * The Casorati sliding-block transform of num/casorati.c.
 *
 * An N-dimensional array of shape dim with strides str is viewed as a
 * 2N-dimensional array: axes 0..N count the block positions along each axis,
 * axes N..2N the offsets inside a block. Both halves reuse the source strides,
 * so view element (p, q) is source element p + q and neighbouring blocks
 * overlap. The forward transform copies that view into a dense matrix whose
 * rows are block positions and whose columns are offsets in a block; the
 * adjoint adds the matrix back into the source.
 */
module Casorati {
  import opened Multind
  import opened Flpmath

  /** Number of block positions along each axis: dim[i] - dimk[i] + 1. */
  function BlockPositions(dim: seq<int>, dimk: seq<int>): (r: seq<int>)
    requires |dimk| == |dim|
    ensures |r| == |dim|
  {
    seq(|dim|, i requires 0 <= i < |dim| => dim[i] - dimk[i] + 1)
  }

  /** The 2N-dimensional view shape dimc: block positions, then the block extents. */
  function CasoratiDims(dim: seq<int>, dimk: seq<int>): seq<int>
    requires |dimk| == |dim|
  {
    BlockPositions(dim, dimk) + dimk
  }

  /** The 2N-dimensional view strides str2: the source strides, twice. */
  function CasoratiStrides(str: seq<int>): seq<int>
  {
    str + str
  }

  /** A block shape the data operations accept: every view extent is non-negative. */
  predicate BlockFits(dim: seq<nat>, dimk: seq<nat>)
  {
    |dimk| == |dim| && forall i :: 0 <= i < |dim| ==> dimk[i] <= dim[i] + 1
  }

  /** Every extent of the 2N view is non-negative exactly when the block fits: dimk[i] <= dim[i] + 1. */
  lemma ViewExtentsNonNegative(dim: seq<nat>, dimk: seq<nat>)
    requires |dimk| == |dim|
    ensures (forall i :: 0 <= i < 2 * |dim| ==> CasoratiDims(dim, dimk)[i] >= 0) <==> BlockFits(dim, dimk)
  {
    var N, dimc := |dim|, CasoratiDims(dim, dimk);
    assert |dimc| == 2 * N;
    if forall i :: 0 <= i < 2 * N ==> dimc[i] >= 0 {
      forall i | 0 <= i < N ensures dimk[i] <= dim[i] + 1 {
        assert dimc[i] == BlockPositions(dim, dimk)[i];
      }
    }
    if BlockFits(dim, dimk) {
      forall i | 0 <= i < 2 * N ensures dimc[i] >= 0 {
        if i < N {
          assert dimc[i] == BlockPositions(dim, dimk)[i];
        } else {
          assert dimc[i] == dimk[i - N];
        }
      }
    }
  }

  /** The block positions typed as extents, for a block that fits. */
  function Positions(dim: seq<nat>, dimk: seq<nat>): (pos: seq<nat>)
    requires BlockFits(dim, dimk)
    ensures pos == BlockPositions(dim, dimk)
    ensures |pos| == |dim| && forall i :: 0 <= i < |dim| ==> pos[i] + dimk[i] == dim[i] + 1
  {
    BlockPositions(dim, dimk)
  }

  /** The view shape typed as extents, for a block that fits. */
  function ViewDims(dim: seq<nat>, dimk: seq<nat>): (dimc: seq<nat>)
    requires BlockFits(dim, dimk)
    ensures dimc == CasoratiDims(dim, dimk)
    ensures |dimc| == 2 * |dim| && dimc[..|dim|] == Positions(dim, dimk) && dimc[|dim|..] == dimk
  {
    Positions(dim, dimk) + dimk
  }

  /** calc_casorati_geom: fills dimc and str2 axis by axis. */
  method CalcCasoratiGeom(dimc: array<int>, str2: array<int>, dimk: seq<int>, dim: seq<int>, str: seq<int>)
    requires |dimk| == |dim| == |str|
    requires dimc.Length == 2 * |dim| && str2.Length == 2 * |dim| && dimc != str2
    modifies dimc, str2
    ensures forall i :: 0 <= i < |dim| ==> dimc[i] == dim[i] - dimk[i] + 1 && dimc[i + |dim|] == dimk[i]
    ensures forall i :: 0 <= i < |dim| ==> str2[i] == str[i] && str2[i + |dim|] == str[i]
    ensures dimc[..] == CasoratiDims(dim, dimk) && str2[..] == CasoratiStrides(str)
  {
    var n := |dim|;
    for i := 0 to n
      invariant forall j :: 0 <= j < i ==> dimc[j] == dim[j] - dimk[j] + 1 && dimc[j + n] == dimk[j]
      invariant forall j :: 0 <= j < i ==> str2[j] == str[j] && str2[j + n] == str[j]
    {
      dimc[i] := dim[i] - dimk[i] + 1;
      dimc[i + n] := dimk[i];
      str2[i + n] := str[i];
      str2[i] := str[i];
    }
    assert dimc[..] == CasoratiDims(dim, dimk);
    assert str2[..] == CasoratiStrides(str);
  }

  /** View element (p, q) sits at the source offset of p + q, for any strides. */
  lemma CasoratiAddressing(str: seq<int>, p: seq<nat>, q: seq<nat>)
    requires |p| == |str| && |q| == |str|
    ensures Off(CasoratiStrides(str), p + q) == Off(str, AddIdx(p, q))
  {
    OffAppend(str, str, p, q);
    OffAdd(str, p, q);
  }

  /** A block position p and an offset q inside the block name a source element. */
  lemma CasoratiInBounds(dim: seq<nat>, dimk: seq<nat>, p: seq<nat>, q: seq<nat>)
    requires BlockFits(dim, dimk)
    requires InShape(Positions(dim, dimk), p) && InShape(dimk, q)
    ensures forall i :: 0 <= i < |dim| ==> 1 <= dimk[i] <= dim[i]
    ensures InShape(dim, AddIdx(p, q))
  {
  }

  /** A view index splits into a block position and an offset inside the block. */
  lemma SplitView(dim: seq<nat>, dimk: seq<nat>, w: seq<nat>)
    requires BlockFits(dim, dimk) && InShape(ViewDims(dim, dimk), w)
    ensures InShape(Positions(dim, dimk), w[..|dim|]) && InShape(dimk, w[|dim|..])
  {
    var N := |dim|;
    var dimc := ViewDims(dim, dimk);
    forall i | 0 <= i < N ensures w[..N][i] < Positions(dim, dimk)[i] && w[N..][i] < dimk[i] {
      assert w[..N][i] == w[i] && dimc[i] == dimc[..N][i];
      assert w[N..][i] == w[i + N] && dimc[i + N] == dimc[N..][i];
    }
  }

  /** View index w = (p, q) names the in-bounds source element p + q, at the same offset. */
  lemma ViewElement(dim: seq<nat>, dimk: seq<nat>, str: seq<int>, w: seq<nat>)
    requires BlockFits(dim, dimk) && |str| == |dim| && InShape(ViewDims(dim, dimk), w)
    ensures InShape(dim, AddIdx(w[..|dim|], w[|dim|..]))
    ensures Off(CasoratiStrides(str), w) == Off(str, AddIdx(w[..|dim|], w[|dim|..]))
  {
    var p, q := w[..|dim|], w[|dim|..];
    assert w == p + q;
    SplitView(dim, dimk, w);
    CasoratiInBounds(dim, dimk, p, q);
    CasoratiAddressing(str, p, q);
  }

  /** A valid source layout gives a valid view layout over the same buffer. */
  lemma CasoratiViewValid(dim: seq<nat>, dimk: seq<nat>, str: seq<int>, n: nat)
    requires BlockFits(dim, dimk) && ValidLayout(dim, str, n)
    ensures ValidLayout(ViewDims(dim, dimk), CasoratiStrides(str), n)
  {
    forall w | InShape(ViewDims(dim, dimk), w) ensures 0 <= Off(CasoratiStrides(str), w) < n {
      ViewElement(dim, dimk, str, w);
    }
  }

  /** The 2N-dimensional view has as many elements as the odim[0] x odim[1] matrix. */
  lemma CasoratiSize(dim: seq<nat>, dimk: seq<nat>)
    requires BlockFits(dim, dimk)
    ensures Prod(ViewDims(dim, dimk)) == Prod(BlockPositions(dim, dimk)) * Prod(dimk)
  {
    ProdAppend(BlockPositions(dim, dimk), dimk);
  }

  /** The matrix shape casorati_matrix and casorati_matrixH check for. */
  predicate MatrixShapeOk(dim: seq<int>, dimk: seq<int>, odim: seq<int>)
    requires |dimk| == |dim| && |odim| == 2
  {
    odim[0] == Prod(BlockPositions(dim, dimk)) && odim[1] == Prod(dimk)
  }

  /**
   * casorati_matrix: copies every overlapping block of src into the dense
   * odim[0] x odim[1] matrix out; the matrix shape is checked before any data moves.
   */
  method CasoratiMatrix(dimk: seq<nat>, odim: seq<int>, out: array<Complex>, dim: seq<nat>, str: seq<int>, src: array<Complex>)
    returns (ok: bool)
    requires BlockFits(dim, dimk) && |str| == |dim| && |odim| == 2
    requires ValidLayout(dim, str, src.Length)
    requires 0 <= odim[0] && 0 <= odim[1] && out.Length == odim[0] * odim[1]
    requires out != src
    modifies out
    ensures ok <==> MatrixShapeOk(dim, dimk, odim)
    ensures ok ==> (ValidLayout(ViewDims(dim, dimk), CasoratiStrides(str), src.Length)
                    && out[..] == StridedGather(src[..], ViewDims(dim, dimk), CasoratiStrides(str)))
    ensures !ok ==> out[..] == old(out[..])
  {
    var N := |dim|;
    var dimcA := new int[2 * N];
    var str2A := new int[2 * N];
    CalcCasoratiGeom(dimcA, str2A, dimk, dim, str);
    ok := odim[0] == Prod(dimcA[..N]) && odim[1] == Prod(dimcA[N..]);
    assert dimcA[..N] == dimcA[..][..N] && dimcA[N..] == dimcA[..][N..];
    if !ok {
      return;
    }
    var dimc := ViewDims(dim, dimk);
    var str2 := str2A[..];
    CasoratiViewValid(dim, dimk, str, src.Length);
    CasoratiSize(dim, dimk);
    StridedCopy(out, src, dimc, str2);
  }

  /**
   * casorati_matrixH: adds every matrix cell back into the source element of
   * its block, on top of what dst already holds; the input matrix is not touched.
   */
  method CasoratiMatrixH(dimk: seq<nat>, dim: seq<nat>, str: seq<int>, dst: array<Complex>, odim: seq<int>, y: array<Complex>)
    returns (ok: bool)
    requires BlockFits(dim, dimk) && |str| == |dim| && |odim| == 2
    requires ValidLayout(dim, str, dst.Length)
    requires 0 <= odim[0] && 0 <= odim[1] && y.Length == odim[0] * odim[1]
    requires dst != y
    modifies dst
    ensures ok <==> MatrixShapeOk(dim, dimk, odim)
    ensures ok ==> (ValidLayout(ViewDims(dim, dimk), CasoratiStrides(str), dst.Length) && y.Length == Prod(ViewDims(dim, dimk))
                    && dst[..] == StridedAccumulate(old(dst[..]), y[..], ViewDims(dim, dimk), CasoratiStrides(str)))
    ensures !ok ==> dst[..] == old(dst[..])
  {
    var N := |dim|;
    var dimcA := new int[2 * N];
    var str2A := new int[2 * N];
    CalcCasoratiGeom(dimcA, str2A, dimk, dim, str);
    ok := odim[0] == Prod(dimcA[..N]) && odim[1] == Prod(dimcA[N..]);
    assert dimcA[..N] == dimcA[..][..N] && dimcA[N..] == dimcA[..][N..];
    if !ok {
      return;
    }
    var dimc := ViewDims(dim, dimk);
    var str2 := str2A[..];
    CasoratiViewValid(dim, dimk, str, dst.Length);
    CasoratiSize(dim, dimk);
    StridedAdd(dst, y, dimc, str2);
  }

  /** Row r = position of p, column c = position of q: cell (r, c) holds source element p + q. */
  lemma CasoratiMatrixCell(x: seq<Complex>, dim: seq<nat>, dimk: seq<nat>, str: seq<int>, p: seq<nat>, q: seq<nat>)
    requires BlockFits(dim, dimk) && ValidLayout(dim, str, |x|)
    requires InShape(Positions(dim, dimk), p) && InShape(dimk, q)
    ensures ValidLayout(ViewDims(dim, dimk), CasoratiStrides(str), |x|)
    ensures InShape(dim, AddIdx(p, q))
    ensures var cell := Lin(Positions(dim, dimk), p) + Prod(Positions(dim, dimk)) * Lin(dimk, q);
      0 <= cell < Prod(ViewDims(dim, dimk))
      && StridedGather(x, ViewDims(dim, dimk), CasoratiStrides(str))[cell] == x[Off(str, AddIdx(p, q))]
  {
    var pos := Positions(dim, dimk);
    var dimc := ViewDims(dim, dimk);
    var str2 := CasoratiStrides(str);
    CasoratiViewValid(dim, dimk, str, |x|);
    CasoratiInBounds(dim, dimk, p, q);
    InShapeAppend(pos, dimk, p, q);
    LinAppend(pos, dimk, p, q);
    var cell := Lin(pos, p) + Prod(pos) * Lin(dimk, q);
    assert cell == Lin(dimc, p + q);
    UnlinLin(dimc, p + q);
    assert Unlin(dimc, cell) == p + q;
    CasoratiAddressing(str, p, q);
    var g := StridedGather(x, dimc, str2);
    assert g[cell] == x[Off(str2, Unlin(dimc, cell))];
  }

  /**
   * The adjoint law <A x, y> == <x, A^H y>: the matrix built from x, paired with y,
   * equals x paired with the accumulation of y into a zero source.
   */
  lemma CasoratiAdjoint(x: seq<Complex>, y: seq<Complex>, dim: seq<nat>, dimk: seq<nat>, str: seq<int>)
    requires BlockFits(dim, dimk) && ValidLayout(dim, str, |x|)
    requires |y| == Prod(BlockPositions(dim, dimk)) * Prod(dimk)
    ensures ValidLayout(ViewDims(dim, dimk), CasoratiStrides(str), |x|) && |y| == Prod(ViewDims(dim, dimk))
    ensures Dot(StridedGather(x, ViewDims(dim, dimk), CasoratiStrides(str)), y)
         == Dot(x, StridedAccumulate(Zeros(|x|), y, ViewDims(dim, dimk), CasoratiStrides(str)))
  {
    CasoratiViewValid(dim, dimk, str, |x|);
    CasoratiSize(dim, dimk);
    GatherAccumulateAdjoint(x, y, ViewDims(dim, dimk), CasoratiStrides(str));
  }

  /**
   * Cell c of the matrix, at block position p and block offset q, holds the
   * source element p + q.
   */
  lemma CasoratiCellSource(x: seq<Complex>, dim: seq<nat>, dimk: seq<nat>, str: seq<int>, c: nat)
    requires BlockFits(dim, dimk) && ValidLayout(dim, str, |x|)
    requires c < Prod(ViewDims(dim, dimk))
    ensures ValidLayout(ViewDims(dim, dimk), CasoratiStrides(str), |x|)
    ensures var w := Unlin(ViewDims(dim, dimk), c);
      var p, q := w[..|dim|], w[|dim|..];
      InShape(Positions(dim, dimk), p) && InShape(dimk, q) && InShape(dim, AddIdx(p, q))
      && StridedGather(x, ViewDims(dim, dimk), CasoratiStrides(str))[c] == x[Off(str, AddIdx(p, q))]
  {
    var dimc, str2 := ViewDims(dim, dimk), CasoratiStrides(str);
    CasoratiViewValid(dim, dimk, str, |x|);
    var w := Unlin(dimc, c);
    SplitView(dim, dimk, w);
    ViewElement(dim, dimk, str, w);
    assert ViewOffsets(dimc, str2)[c] == Off(str2, w);
  }

  /**
   * casorati_matrixH element by element: each source element gains the sum of
   * the matrix cells whose block position plus block offset is that element.
   */
  lemma CasoratiMatrixHAt(base: seq<Complex>, y: seq<Complex>, dim: seq<nat>, dimk: seq<nat>, str: seq<int>, e: nat)
    requires BlockFits(dim, dimk) && ValidLayout(dim, str, |base|)
    requires |y| == Prod(BlockPositions(dim, dimk)) * Prod(dimk) && e < |base|
    ensures ValidLayout(ViewDims(dim, dimk), CasoratiStrides(str), |base|) && |y| == Prod(ViewDims(dim, dimk))
    ensures StridedAccumulate(base, y, ViewDims(dim, dimk), CasoratiStrides(str))[e]
         == Add(base[e], CellSum(y, ViewOffsets(ViewDims(dim, dimk), CasoratiStrides(str)), |y|, e))
  {
    var dimc, str2 := ViewDims(dim, dimk), CasoratiStrides(str);
    CasoratiViewValid(dim, dimk, str, |base|);
    CasoratiSize(dim, dimk);
    ViewOffsetsIn(dimc, str2, |base|);
    AccumulateAt(base, y, ViewOffsets(dimc, str2), |y|, e);
  }
}
