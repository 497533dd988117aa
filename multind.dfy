/**
 * Index-level meaning of the multi-dimensional array primitives the core relies on
 * (md_calc_size, md_calc_strides, md_select_dims and md_copy2 of num/multind).
 *
 * A shape is a sequence of extents; axis 0 varies fastest, as in the library's
 * dense layout. A position in a shape is a multi-index; an array is a flat buffer
 * together with a stride vector, and multi-index x lives at offset Off(str, x).
 * Strides count elements, not bytes.
 */
module Multind {

  /** md_calc_size: the number of elements of a shape (1 for rank 0). */
  function Prod(d: seq<int>): (r: int)
    ensures (forall i :: 0 <= i < |d| ==> d[i] >= 0) ==> r >= 0
  {
    if d == [] then 1 else d[0] * Prod(d[1..])
  }

  lemma {:induction false} ProdAppend(a: seq<int>, b: seq<int>)
    ensures Prod(a + b) == Prod(a) * Prod(b)
  {
    if a == [] {
      assert a + b == b;
    } else {
      assert (a + b)[1..] == a[1..] + b;
      ProdAppend(a[1..], b);
      MulAssoc(a[0], Prod(a[1..]), Prod(b));
    }
  }

  lemma MulAssoc(x: int, y: int, z: int)
    ensures x * (y * z) == (x * y) * z
  {
  }

  /** Multiplying the extents from the first axis on, one at a time, gives the size. */
  lemma ProdSnoc(s: seq<int>, x: int)
    ensures Prod(s + [x]) == Prod(s) * x
  {
    ProdAppend(s, [x]);
    assert Prod([x]) == x * Prod([]);
  }

  /** Replacing one extent by v scales the size by v / s[i]. */
  lemma ProdUpdate(s: seq<int>, i: nat, v: int)
    requires i < |s|
    ensures Prod(s[i := v]) * s[i] == Prod(s) * v
  {
    var t := s[i := v];
    var pre, post := Prod(s[..i]), Prod(s[i + 1..]);
    assert s == s[..i] + ([s[i]] + s[i + 1..]);
    assert t == s[..i] + ([v] + s[i + 1..]);
    ProdAppend(s[..i], [s[i]] + s[i + 1..]);
    ProdAppend(s[..i], [v] + s[i + 1..]);
    assert ([s[i]] + s[i + 1..])[1..] == s[i + 1..];
    assert ([v] + s[i + 1..])[1..] == s[i + 1..];
    assert Prod(s) == pre * (s[i] * post);
    assert Prod(t) == pre * (v * post);
    calc {
      Prod(t) * s[i];
      (pre * (v * post)) * s[i];
      { MulRotate(pre, v, post, s[i]); }
      (pre * (s[i] * post)) * v;
      Prod(s) * v;
    }
  }

  lemma MulRotate(a: int, b: int, c: int, e: int)
    ensures (a * (b * c)) * e == (a * (e * c)) * b
  {
  }

  /** Multi-index x lies inside shape d. */
  predicate InShape(d: seq<nat>, x: seq<nat>)
  {
    |x| == |d| && forall i :: 0 <= i < |d| ==> x[i] < d[i]
  }

  lemma InShapeAppend(a: seq<nat>, b: seq<nat>, x: seq<nat>, y: seq<nat>)
    requires InShape(a, x) && InShape(b, y)
    ensures InShape(a + b, x + y)
  {
    forall i | 0 <= i < |a + b| ensures (x + y)[i] < (a + b)[i] {
      if i >= |a| {
        assert (x + y)[i] == y[i - |a|] && (a + b)[i] == b[i - |a|];
      }
    }
  }

  /** Position of x in the dense layout of d (axis 0 fastest). */
  function Lin(d: seq<nat>, x: seq<nat>): nat
    requires |x| == |d|
  {
    if d == [] then 0 else x[0] + d[0] * Lin(d[1..], x[1..])
  }

  lemma DivBelow(k: nat, a: nat, b: nat)
    requires k < a * b
    ensures a > 0 && b > 0 && k / a < b
  {
  }

  /** The multi-index at position k of the dense layout of d. */
  function Unlin(d: seq<nat>, k: nat): (x: seq<nat>)
    requires k < Prod(d)
    ensures InShape(d, x)
  {
    if d == [] then []
    else
      DivBelow(k, d[0], Prod(d[1..]));
      [k % d[0]] + Unlin(d[1..], k / d[0])
  }

  lemma DivModOf(r: int, q: int, a: int)
    requires 0 <= r < a
    ensures (r + a * q) / a == q && (r + a * q) % a == r
  {
    var k := r + a * q;
    var t := q - k / a;
    assert a * t == k % a - r;
    MulAtLeast(a, t);
    MulAtLeast(a, -t);
    assert a * (-t) == -(a * t);
  }

  lemma DivExact(n: int, a: int, q: int)
    requires a > 0 && n == q * a
    ensures n / a == q
  {
    DivModOf(0, q, a);
  }

  lemma MulAtLeast(a: int, t: int)
    requires a > 0
    ensures t >= 1 ==> a * t >= a
  {
    if t >= 1 {
      assert a * t == a * (t - 1) + a;
      assert a * (t - 1) >= 0;
    }
  }

  /** The dense layout is a bijection between the positions of d and [0, Prod(d)). */
  lemma {:induction false} LinBound(d: seq<nat>, x: seq<nat>)
    requires InShape(d, x)
    ensures Lin(d, x) < Prod(d)
  {
    if d != [] {
      LinBound(d[1..], x[1..]);
      LinStep(x[0], d[0], Lin(d[1..], x[1..]), Prod(d[1..]));
    }
  }

  lemma LinStep(r: int, a: int, l: int, p: int)
    requires 0 <= r < a && 0 <= l < p
    ensures r + a * l < a * p
  {
    MulAtLeast(a, p - l);
    assert a * (p - l) == a * p - a * l;
  }

  lemma {:induction false} UnlinLin(d: seq<nat>, x: seq<nat>)
    requires InShape(d, x)
    ensures Lin(d, x) < Prod(d) && Unlin(d, Lin(d, x)) == x
  {
    LinBound(d, x);
    if d != [] {
      UnlinLin(d[1..], x[1..]);
      DivModOf(x[0], Lin(d[1..], x[1..]), d[0]);
      assert x == [x[0]] + x[1..];
    }
  }

  lemma {:induction false} LinUnlin(d: seq<nat>, k: nat)
    requires k < Prod(d)
    ensures Lin(d, Unlin(d, k)) == k
  {
    if d != [] {
      DivBelow(k, d[0], Prod(d[1..]));
      var q, r := k / d[0], k % d[0];
      var u := Unlin(d[1..], q);
      LinUnlin(d[1..], q);
      assert Unlin(d, k) == [r] + u;
      assert ([r] + u)[1..] == u;
      assert Lin(d, [r] + u) == r + d[0] * Lin(d[1..], u);
    }
  }

  /** Splitting a shape in two splits the dense position accordingly. */
  lemma {:induction false} LinAppend(a: seq<nat>, b: seq<nat>, x: seq<nat>, y: seq<nat>)
    requires |x| == |a| && |y| == |b|
    ensures Lin(a + b, x + y) == Lin(a, x) + Prod(a) * Lin(b, y)
  {
    if a == [] {
      assert a + b == b && x + y == y;
    } else {
      assert (a + b)[1..] == a[1..] + b;
      assert (x + y)[1..] == x[1..] + y;
      LinAppend(a[1..], b, x[1..], y);
      LinAppendStep(x[0], a[0], Lin(a[1..], x[1..]), Prod(a[1..]), Lin(b, y));
    }
  }

  lemma LinAppendStep(r: int, a: int, l: int, p: int, m: int)
    ensures r + a * (l + p * m) == r + a * l + (a * p) * m
  {
    MulAssoc(a, p, m);
  }

  /** Offset of multi-index x under strides s. */
  function Off(s: seq<int>, x: seq<nat>): int
    requires |x| == |s|
  {
    if s == [] then 0 else x[0] * s[0] + Off(s[1..], x[1..])
  }

  lemma {:induction false} OffAppend(s: seq<int>, t: seq<int>, x: seq<nat>, y: seq<nat>)
    requires |x| == |s| && |y| == |t|
    ensures Off(s + t, x + y) == Off(s, x) + Off(t, y)
  {
    if s == [] {
      assert s + t == t && x + y == y;
    } else {
      assert (s + t)[1..] == s[1..] + t;
      assert (x + y)[1..] == x[1..] + y;
      OffAppend(s[1..], t, x[1..], y);
    }
  }

  /** Componentwise sum of two multi-indices. */
  function AddIdx(p: seq<nat>, q: seq<nat>): (r: seq<nat>)
    requires |p| == |q|
    ensures |r| == |p| && forall i :: 0 <= i < |p| ==> r[i] == p[i] + q[i]
  {
    if p == [] then [] else [p[0] + q[0]] + AddIdx(p[1..], q[1..])
  }

  /** Offsets are linear in the multi-index. */
  lemma {:induction false} OffAdd(s: seq<int>, p: seq<nat>, q: seq<nat>)
    requires |p| == |s| && |q| == |s|
    ensures Off(s, AddIdx(p, q)) == Off(s, p) + Off(s, q)
  {
    if s != [] {
      var r := AddIdx(p, q);
      assert r[1..] == AddIdx(p[1..], q[1..]);
      OffAdd(s[1..], p[1..], q[1..]);
      assert r[0] * s[0] == p[0] * s[0] + q[0] * s[0];
    }
  }

  /** md_calc_strides: stride of axis i is size times the extents of the faster axes. */
  function CalcStrides(d: seq<nat>, size: int): (s: seq<int>)
    ensures |s| == |d|
  {
    if d == [] then [] else [size] + CalcStrides(d[1..], size * d[0])
  }

  lemma {:induction false} CalcStridesAt(d: seq<nat>, size: int, i: nat)
    requires i < |d|
    ensures CalcStrides(d, size)[i] == size * Prod(d[..i])
  {
    if i > 0 {
      CalcStridesAt(d[1..], size * d[0], i - 1);
      assert d[..i] == [d[0]] + d[1..][..i - 1];
    }
  }

  /** Under the strides md_calc_strides computes, offsets are dense positions. */
  lemma {:induction false} CalcStridesOff(d: seq<nat>, size: int, x: seq<nat>)
    requires |x| == |d|
    ensures Off(CalcStrides(d, size), x) == size * Lin(d, x)
  {
    if d != [] {
      CalcStridesOff(d[1..], size * d[0], x[1..]);
      var l := Lin(d[1..], x[1..]);
      calc {
        Off(CalcStrides(d, size), x);
        x[0] * size + (size * d[0]) * l;
        size * (x[0] + d[0] * l);
      }
    }
  }

  /** Every position of shape d addresses an element of a buffer of n elements. */
  ghost predicate ValidLayout(d: seq<nat>, s: seq<int>, n: nat)
  {
    |s| == |d| && forall x :: InShape(d, x) ==> 0 <= Off(s, x) < n
  }

  /** A dense array of shape d, with the strides md_calc_strides gives, is laid out validly. */
  lemma DenseLayoutValid(d: seq<nat>)
    ensures ValidLayout(d, CalcStrides(d, 1), Prod(d))
  {
    forall x | InShape(d, x) ensures 0 <= Off(CalcStrides(d, 1), x) < Prod(d) {
      CalcStridesOff(d, 1, x);
      LinBound(d, x);
    }
  }

  /** The offset of every cell of the view (d, s), the cells taken in the dense order of d. */
  function ViewOffsets(d: seq<nat>, s: seq<int>): (o: seq<int>)
    requires |s| == |d|
    ensures |o| == Prod(d)
  {
    seq(Prod(d), k requires 0 <= k < Prod(d) => Off(s, Unlin(d, k)))
  }

  /** Every offset of o addresses an element of a buffer of n elements. */
  predicate OffsetsIn(o: seq<int>, n: nat)
  {
    forall c :: 0 <= c < |o| ==> 0 <= o[c] < n
  }

  lemma ViewOffsetsIn(d: seq<nat>, s: seq<int>, n: nat)
    requires ValidLayout(d, s, n)
    ensures OffsetsIn(ViewOffsets(d, s), n)
  {
    var o := ViewOffsets(d, s);
    forall c | 0 <= c < |o| ensures 0 <= o[c] < n {
      assert o[c] == Off(s, Unlin(d, c));
    }
  }

  /** Cell c of the result is the element of x at offset o[c]. */
  function Gather<T>(x: seq<T>, o: seq<int>): (r: seq<T>)
    requires OffsetsIn(o, |x|)
    ensures |r| == |o|
  {
    seq(|o|, c requires 0 <= c < |o| => x[o[c]])
  }

  /** md_copy2 from the view (d, s) of x into a dense buffer of shape d. */
  function StridedGather<T>(x: seq<T>, d: seq<nat>, s: seq<int>): (r: seq<T>)
    requires ValidLayout(d, s, |x|)
    ensures |r| == Prod(d)
  {
    ViewOffsetsIn(d, s, |x|);
    Gather(x, ViewOffsets(d, s))
  }

  /** Element w of the view lands at the dense offset of w. */
  lemma StridedGatherAt<T>(x: seq<T>, d: seq<nat>, s: seq<int>, w: seq<nat>)
    requires ValidLayout(d, s, |x|) && InShape(d, w)
    ensures 0 <= Off(CalcStrides(d, 1), w) < Prod(d)
    ensures StridedGather(x, d, s)[Off(CalcStrides(d, 1), w)] == x[Off(s, w)]
  {
    CalcStridesOff(d, 1, w);
    UnlinLin(d, w);
  }

  /** md_copy2 into a dense destination: cell k of the view (d, s) of src goes to dst[k]. */
  method StridedCopy<T>(dst: array<T>, src: array<T>, d: seq<nat>, s: seq<int>)
    requires ValidLayout(d, s, src.Length) && dst.Length == Prod(d) && dst != src
    modifies dst
    ensures dst[..] == StridedGather(src[..], d, s)
  {
    var k := 0;
    while k < dst.Length
      invariant 0 <= k <= dst.Length
      invariant forall j :: 0 <= j < k ==> dst[j] == src[Off(s, Unlin(d, j))]
    {
      dst[k] := src[Off(s, Unlin(d, k))];
      k := k + 1;
    }
  }

  /** md_select_dims: keep the extent of every axis whose flag is set, 1 elsewhere. */
  predicate IsSet(flags: bv64, i: nat)
    requires i < 64
  {
    flags & ((1 as bv64) << i) != 0
  }

  function SelectDims(flags: bv64, d: seq<int>): (r: seq<int>)
    requires |d| <= 64
    ensures |r| == |d|
    ensures forall i :: 0 <= i < |d| && IsSet(flags, i) ==> r[i] == d[i]
    ensures forall i :: 0 <= i < |d| && !IsSet(flags, i) ==> r[i] == 1
  {
    seq(|d|, i requires 0 <= i < |d| => if IsSet(flags, i) then d[i] else 1)
  }
}
