/**
 * Shape bookkeeping of nn/tf_wrapper.c, the bridge to a TensorFlow graph.
 *
 * The graph is modelled by the names it contains and the static shape of each:
 * a map from operation names to extents in the external (row-major) order,
 * whose last axis of size 2 holds the real and imaginary part. Native shapes
 * are in the opposite order (axis 0 fastest) and carry a singleton in place of
 * that axis. Calls into TensorFlow itself are not part of this model.
 */
module TfWrapper {
  import opened Multind
  import opened Results

  /** The operation names the wrapper looks up, by their naming pattern. */
  datatype OpName =
    | Input(k: nat)              // input_k
    | Output(k: nat)             // output_k
    | GradYs(k: nat)             // grad_ys_k
    | Grad(k: nat)               // grad_k
    | GradPair(i: nat, o: nat)   // grad_i_o

  /** Existing operations and their external shapes. */
  type Graph = map<OpName, seq<int>>

  /** Bytes per float in an allocated tensor. */
  const FL_SIZE: int := 4

  datatype ShapeError =
    | EmptyRank                  // tensor_allocate with N == 0
    | NotSingleton               // tensor_allocate: native axis 0 is not 1
    | Missing(op: OpName)        // process_arg: no such operation
    | RealScalar(op: OpName)     // process_arg: rank 0
    | NotComplex(op: OpName)     // process_arg: last external axis is not 2
    | GradYsMismatch(out: nat)   // output and its grad_ys differ in shape
    | GradMismatch(inp: nat)     // input and its gradient differ in shape

  function Max(a: int, b: int): int
  {
    if a < b then b else a
  }

  function Min(a: int, b: int): int
  {
    if a < b then a else b
  }

  /** product: the product of the extents, by a running accumulator. */
  method Product(ar: seq<int>) returns (result: int)
    ensures result == Prod(ar)
  {
    result := 1;
    for i := 0 to |ar|
      invariant result == Prod(ar[..i])
    {
      assert ar[..i + 1] == ar[..i] + [ar[i]];
      ProdSnoc(ar[..i], ar[i]);
      result := result * ar[i];
    }
    assert ar[..|ar|] == ar;
  }

  /** Axis order reversal between the native and the external convention. */
  function Reverse(t: seq<int>): (r: seq<int>)
    ensures |r| == |t| && forall i :: 0 <= i < |t| ==> r[i] == t[|t| - 1 - i]
  {
    if t == [] then [] else Reverse(t[1..]) + [t[0]]
  }

  lemma ReverseReverse(t: seq<int>)
    ensures Reverse(Reverse(t)) == t
  {
  }

  /** Reversal does not change the number of elements. */
  lemma {:induction false} ProdReverse(t: seq<int>)
    ensures Prod(Reverse(t)) == Prod(t)
  {
    if t != [] {
      ProdReverse(t[1..]);
      ProdSnoc(Reverse(t[1..]), t[0]);
      assert Reverse(t) == Reverse(t[1..]) + [t[0]];
    }
  }

  /** External shape to native: reverse, and the size-2 complex axis becomes the singleton axis 0. */
  function ToNative(t: seq<int>): seq<int>
    requires |t| > 0
  {
    Reverse(t)[0 := 1]
  }

  /** Native shape to external: reverse, and the singleton axis 0 becomes the size-2 last axis. */
  function ToExternal(d: seq<int>): seq<int>
    requires |d| > 0
  {
    Reverse(d)[|d| - 1 := 2]
  }

  /** process_arg followed by tensor_allocate reproduces the external shape. */
  lemma ExternalNative(t: seq<int>)
    requires |t| > 0 && t[|t| - 1] == 2
    ensures |ToNative(t)| == |t| && ToNative(t)[0] == 1
    ensures ToExternal(ToNative(t)) == t
  {
    var n := |t|;
    var e := ToExternal(ToNative(t));
    forall i | 0 <= i < n ensures e[i] == t[i] {
      if i < n - 1 {
        assert e[i] == ToNative(t)[n - 1 - i] == Reverse(t)[n - 1 - i];
      }
    }
  }

  /** tensor_allocate's shape followed by process_arg's recovers the native shape. */
  lemma NativeExternal(d: seq<int>)
    requires |d| > 0 && d[0] == 1
    ensures |ToExternal(d)| == |d| && ToExternal(d)[|d| - 1] == 2
    ensures ToNative(ToExternal(d)) == d
  {
    var n := |d|;
    var b := ToNative(ToExternal(d));
    forall i | 0 <= i < n ensures b[i] == d[i] {
      if i > 0 {
        assert b[i] == ToExternal(d)[n - 1 - i] == Reverse(d)[n - 1 - i];
      }
    }
  }

  /** The external tensor holds two floats per native complex sample. */
  lemma ExternalSize(d: seq<int>)
    requires |d| > 0 && d[0] == 1
    ensures Prod(ToExternal(d)) == 2 * Prod(d)
  {
    var rd := Reverse(d);
    ProdReverse(d);
    ProdUpdate(rd, |d| - 1, 2);
    UnitFactor(Prod(ToExternal(d)), rd[|d| - 1], Prod(rd));
  }

  lemma UnitFactor(x: int, u: int, y: int)
    requires u == 1 && x * u == y * 2
    ensures x == 2 * y
  {
  }

  datatype TensorSpec = TensorSpec(dims: seq<int>, bytes: int)

  /**
   * tensor_allocate, shape part: the dims are reversed into external order, the
   * native singleton axis must be 1 and becomes the size-2 complex axis, and the
   * tensor holds product(dims2) floats.
   */
  method TensorAllocate(dims: seq<int>) returns (r: Result<TensorSpec, ShapeError>)
    ensures |dims| == 0 ==> r == Fail(EmptyRank)
    ensures |dims| > 0 && dims[0] != 1 ==> r == Fail(NotSingleton)
    ensures |dims| > 0 && dims[0] == 1 ==> r == Ok(TensorSpec(ToExternal(dims), Prod(ToExternal(dims)) * FL_SIZE))
    ensures r.Ok? ==> r.value.bytes == 2 * Prod(dims) * FL_SIZE && r.value.dims[|dims| - 1] == 2
  {
    var n := |dims|;
    if n == 0 {
      return Fail(EmptyRank);
    }
    var dims2 := new int[n];
    for i := 0 to n
      invariant forall j :: 0 <= j < i ==> dims2[j] == dims[n - j - 1]
    {
      dims2[i] := dims[n - i - 1];
    }
    if dims2[n - 1] != 1 {
      return Fail(NotSingleton);
    }
    dims2[n - 1] := 2;
    assert dims2[..] == ToExternal(dims);
    var size := Product(dims2[..]);
    ExternalSize(dims);
    return Ok(TensorSpec(dims2[..], size * FL_SIZE));
  }

  /** An operation process_arg accepts: present, of positive rank, with a size-2 last axis. */
  predicate ValidArg(g: Graph, name: OpName)
  {
    name in g && |g[name]| > 0 && g[name][|g[name]| - 1] == 2
  }

  /** A located graph operation with its native shape. */
  datatype TfArg = TfArg(op: OpName, dims: seq<int>)

  /**
   * process_arg, shape part: looks the name up, rejects rank 0 and a last
   * external axis other than 2, and returns the native shape.
   */
  method ProcessArg(g: Graph, name: OpName) returns (r: Result<TfArg, ShapeError>)
    ensures name !in g ==> r == Fail(Missing(name))
    ensures name in g && |g[name]| == 0 ==> r == Fail(RealScalar(name))
    ensures name in g && |g[name]| > 0 && g[name][|g[name]| - 1] != 2 ==> r == Fail(NotComplex(name))
    ensures ValidArg(g, name) ==> r == Ok(TfArg(name, ToNative(g[name])))
  {
    if name !in g {
      return Fail(Missing(name));
    }
    var tdims := g[name];
    var n := |tdims|;
    if n == 0 {
      return Fail(RealScalar(name));
    }
    var dims := new int[n];
    for i := 0 to n
      invariant forall j :: 0 <= j < i ==> dims[j] == tdims[n - j - 1]
    {
      dims[i] := tdims[n - i - 1];
    }
    if dims[0] != 2 {
      return Fail(NotComplex(name));
    }
    dims[0] := 1;
    assert dims[..] == ToNative(tdims);
    return Ok(TfArg(name, dims[..]));
  }

  /** The cmp_arg relation: equal on the common prefix, ones beyond it. */
  predicate Compatible(a: seq<int>, b: seq<int>)
  {
    (forall i :: 0 <= i < |a| && i < |b| ==> a[i] == b[i])
    && (forall i :: |b| <= i < |a| ==> a[i] == 1)
    && (forall i :: |a| <= i < |b| ==> b[i] == 1)
  }

  /** cmp_arg: three accumulating loops over the common prefix and the two tails. */
  method CmpArg(arg1: TfArg, arg2: TfArg) returns (result: bool)
    ensures result == Compatible(arg1.dims, arg2.dims)
  {
    var a, b := arg1.dims, arg2.dims;
    var m := Min(|a|, |b|);
    result := true;
    for i := 0 to m
      invariant result == (forall j :: 0 <= j < i ==> a[j] == b[j])
    {
      result := result && (a[i] == b[i]);
    }
    ghost var prefix := result;
    for i := m to |a|
      invariant result == (prefix && forall j :: m <= j < i ==> a[j] == 1)
    {
      result := result && (1 == a[i]);
    }
    ghost var left := result;
    for i := m to |b|
      invariant result == (left && forall j :: m <= j < i ==> b[j] == 1)
    {
      result := result && (1 == b[i]);
    }
  }

  /** A shape padded with trailing ones up to rank n. */
  function Pad(s: seq<int>, n: nat): (r: seq<int>)
    requires |s| <= n
    ensures |r| == n
  {
    s + seq(n - |s|, _ => 1)
  }

  /** Compatible shapes are exactly those that agree once padded to the same rank. */
  lemma CompatibleIffPadded(a: seq<int>, b: seq<int>)
    ensures Compatible(a, b) <==> Pad(a, Max(|a|, |b|)) == Pad(b, Max(|a|, |b|))
  {
    var n := Max(|a|, |b|);
    var pa, pb := Pad(a, n), Pad(b, n);
    assert forall i :: 0 <= i < n ==> pa[i] == (if i < |a| then a[i] else 1);
    assert forall i :: 0 <= i < n ==> pb[i] == (if i < |b| then b[i] else 1);
    if pa == pb {
      forall i | 0 <= i < |a| && i < |b| ensures a[i] == b[i] {
        assert pa[i] == pb[i];
      }
      forall i | |b| <= i < |a| ensures a[i] == 1 {
        assert pa[i] == pb[i];
      }
      forall i | |a| <= i < |b| ensures b[i] == 1 {
        assert pa[i] == pb[i];
      }
    }
  }

  /** cmp_arg is reflexive, symmetric and transitive. */
  lemma CompatibleEquivalence(a: seq<int>, b: seq<int>, c: seq<int>)
    ensures Compatible(a, a)
    ensures Compatible(a, b) ==> Compatible(b, a)
    ensures Compatible(a, b) && Compatible(b, c) ==> Compatible(a, c)
  {
  }

  /** A shape padded with ones still passes cmp_arg against the original. */
  lemma PadCompatible(s: seq<int>, n: nat)
    requires |s| <= n
    ensures Compatible(s, Pad(s, n)) && Pad(s, n)[..|s|] == s
  {
    assert forall i :: |s| <= i < n ==> Pad(s, n)[i] == 1;
  }

  function Slot(isInput: bool, k: nat): OpName
  {
    if isInput then Input(k) else Output(k)
  }

  /** k is the least index whose slot name is missing from the graph. */
  predicate IsSlotCount(g: Graph, isInput: bool, k: nat)
  {
    Slot(isInput, k) !in g && forall j :: 0 <= j < k ==> Slot(isInput, j) in g
  }

  /**
   * The do/while search of nlop_tf_shared_create: the number of inputs (or
   * outputs) is the least k for which input_k (or output_k) is missing.
   */
  method CountSlots(g: Graph, isInput: bool) returns (count: nat)
    ensures IsSlotCount(g, isInput, count)
  {
    count := 0;
    ghost var seen: set<OpName> := {};
    while Slot(isInput, count) in g
      invariant forall k :: 0 <= k < count ==> Slot(isInput, k) in g
      invariant seen <= g.Keys
      invariant forall x :: x in seen ==> (x.Input? || x.Output?) && x.k < count
      decreases g.Keys - seen
    {
      seen := seen + {Slot(isInput, count)};
      count := count + 1;
    }
  }

  /** The count the search finds is the only one with both properties. */
  lemma SlotCountUnique(g: Graph, isInput: bool, n: nat, m: nat)
    requires IsSlotCount(g, isInput, n) && IsSlotCount(g, isInput, m)
    ensures n == m
  {
  }

  /** The gradient operation for input i and output o: grad_i when there is one output and it exists, grad_i_o otherwise. */
  function GradName(g: Graph, i: nat, o: nat, oo: nat): (r: OpName)
    ensures r == Grad(i) || r == GradPair(i, o)
    ensures r == Grad(i) <==> oo == 1 && Grad(i) in g
  {
    if oo != 1 || Grad(i) !in g then GradPair(i, o) else Grad(i)
  }

  /** Where the gradient of input i with respect to output o is stored. */
  function GradSlot(i: nat, o: nat, ii: nat): nat
  {
    i + ii * o
  }

  /** Slot i + II*o lies in [0, II*OO) and gives back i and o by remainder and quotient. */
  lemma GradSlotLayout(i: nat, o: nat, ii: nat, oo: nat)
    requires i < ii && o < oo
    ensures GradSlot(i, o, ii) < ii * oo
    ensures GradSlot(i, o, ii) % ii == i && GradSlot(i, o, ii) / ii == o
  {
    DivModOf(i, o, ii);
    LinStep(i, ii, o, oo);
  }

  /** Distinct (input, output) pairs get distinct slots. */
  lemma GradSlotInjective(ii: nat, oo: nat)
    ensures forall i1: nat, o1: nat, i2: nat, o2: nat ::
      (i1 < ii && o1 < oo && i2 < ii && o2 < oo && GradSlot(i1, o1, ii) == GradSlot(i2, o2, ii)) ==> i1 == i2 && o1 == o2
  {
    forall i1: nat, o1: nat, i2: nat, o2: nat | i1 < ii && o1 < oo && i2 < ii && o2 < oo && GradSlot(i1, o1, ii) == GradSlot(i2, o2, ii)
      ensures i1 == i2 && o1 == o2
    {
      GradSlotLayout(i1, o1, ii, oo);
      GradSlotLayout(i2, o2, ii, oo);
    }
  }

  /** ON and IN: the largest rank among the shapes ds, and at least 1. */
  function MaxRank(ds: seq<seq<int>>): nat
  {
    if ds == [] then 1 else Max(MaxRank(ds[..|ds| - 1]), |ds[|ds| - 1]|)
  }

  /** MaxRank is an upper bound of every rank, at least 1, and attained unless it is 1. */
  lemma {:induction false} MaxRankIsMax(ds: seq<seq<int>>)
    ensures MaxRank(ds) >= 1 && forall i :: 0 <= i < |ds| ==> |ds[i]| <= MaxRank(ds)
    ensures MaxRank(ds) == 1 || exists i :: 0 <= i < |ds| && |ds[i]| == MaxRank(ds)
  {
    if ds != [] {
      var n := |ds| - 1;
      MaxRankIsMax(ds[..n]);
      assert forall i :: 0 <= i < n ==> ds[..n][i] == ds[i];
      if MaxRank(ds) != 1 && MaxRank(ds) != |ds[n]| {
        var i :| 0 <= i < n && |ds[..n][i]| == MaxRank(ds[..n]);
        assert |ds[i]| == MaxRank(ds);
      }
    }
  }

  lemma MaxRankSnoc(ds: seq<seq<int>>, d: seq<int>)
    ensures MaxRank(ds + [d]) == Max(MaxRank(ds), |d|)
  {
    assert (ds + [d])[..|ds|] == ds;
  }

  /** An output whose grad_ys operation has the same rank and passes cmp_arg. */
  predicate OutputOk(g: Graph, o: nat)
  {
    ValidArg(g, Output(o)) && ValidArg(g, GradYs(o))
    && |g[GradYs(o)]| == |g[Output(o)]|
    && Compatible(ToNative(g[Output(o)]), ToNative(g[GradYs(o)]))
  }

  /** One pass of the output loop: output_o and grad_ys_o, checked against each other. */
  method ProcessOutput(g: Graph, o: nat) returns (r: Result<seq<int>, ShapeError>)
    ensures r.Ok? <==> OutputOk(g, o)
    ensures r.Ok? ==> OutputOk(g, o) && r.value == ToNative(g[Output(o)])
  {
    var arg := ProcessArg(g, Output(o));
    if arg.Fail? {
      return Fail(arg.error);
    }
    var argGradY := ProcessArg(g, GradYs(o));
    if argGradY.Fail? {
      return Fail(argGradY.error);
    }
    var same := CmpArg(arg.value, argGradY.value);
    if !same || |arg.value.dims| != |argGradY.value.dims| {
      return Fail(GradYsMismatch(o));
    }
    return Ok(arg.value.dims);
  }

  /** Outputs 0..n are all well formed. */
  predicate OutputsOk(g: Graph, n: nat)
  {
    n == 0 || (OutputsOk(g, n - 1) && OutputOk(g, n - 1))
  }

  /** OutputsOk holds exactly when every output below n is well formed. */
  lemma {:induction false} OutputsOkAll(g: Graph, n: nat)
    ensures OutputsOk(g, n) <==> forall o :: 0 <= o < n ==> OutputOk(g, o)
  {
    if n > 0 {
      OutputsOkAll(g, n - 1);
    }
  }

  /** The native shapes of output_0..output_{n-1}, in order. */
  function NativeOutputs(g: Graph, n: nat): (r: seq<seq<int>>)
    requires OutputsOk(g, n)
    ensures |r| == n
  {
    if n == 0 then [] else NativeOutputs(g, n - 1) + [ToNative(g[Output(n - 1)])]
  }

  /** Entry o of the accumulated shapes belongs to output_o. */
  lemma {:induction false} OutputsAt(g: Graph, n: nat, o: nat)
    requires OutputsOk(g, n) && o < n
    ensures OutputOk(g, o) && NativeOutputs(g, n)[o] == ToNative(g[Output(o)])
  {
    if o < n - 1 {
      OutputsAt(g, n - 1, o);
    }
  }

  datatype Outputs = Outputs(dims: seq<seq<int>>, width: nat)

  /** The output loop of nlop_tf_shared_create: native shapes of output_0..output_{OO-1} and ON. */
  method ProcessOutputs(g: Graph, oo: nat) returns (r: Result<Outputs, ShapeError>)
    ensures r.Ok? <==> OutputsOk(g, oo)
    ensures r.Ok? ==> (OutputsOk(g, oo) && r.value.dims == NativeOutputs(g, oo)
      && r.value.width == MaxRank(r.value.dims))
  {
    var dims: seq<seq<int>> := [];
    var on: nat := 1;
    for o := 0 to oo
      invariant OutputsOk(g, o) && dims == NativeOutputs(g, o)
      invariant on == MaxRank(dims)
    {
      var d := ProcessOutput(g, o);
      if d.Fail? {
        OutputsOkPrefix(g, o + 1, oo);
        return Fail(d.error);
      }
      MaxRankSnoc(dims, d.value);
      on := Max(on, |d.value|);
      dims := dims + [d.value];
    }
    return Ok(Outputs(dims, on));
  }

  lemma {:induction false} OutputsOkPrefix(g: Graph, n: nat, m: nat)
    requires n <= m
    ensures OutputsOk(g, m) ==> OutputsOk(g, n)
  {
    if n < m {
      OutputsOkPrefix(g, n, m - 1);
    }
  }

  /** The gradient of input i with respect to output o exists and passes cmp_arg against the input. */
  predicate GradOk(g: Graph, i: nat, o: nat, oo: nat)
  {
    ValidArg(g, Input(i)) && ValidArg(g, GradName(g, i, o, oo))
    && Compatible(ToNative(g[Input(i)]), ToNative(g[GradName(g, i, o, oo)]))
  }

  /** The gradients of input i with respect to outputs 0..n are all well formed. */
  predicate GradsOk(g: Graph, i: nat, n: nat, oo: nat)
  {
    n == 0 || (GradsOk(g, i, n - 1, oo) && GradOk(g, i, n - 1, oo))
  }

  lemma {:induction false} GradsOkPrefix(g: Graph, i: nat, n: nat, m: nat, oo: nat)
    requires n <= m
    ensures GradsOk(g, i, m, oo) ==> GradsOk(g, i, n, oo)
  {
    if n < m {
      GradsOkPrefix(g, i, n, m - 1, oo);
    }
  }

  /** GradsOk holds exactly when every gradient below n is well formed. */
  lemma {:induction false} GradsOkAll(g: Graph, i: nat, n: nat, oo: nat)
    ensures GradsOk(g, i, n, oo) <==> forall o :: 0 <= o < n ==> GradOk(g, i, o, oo)
  {
    if n > 0 {
      GradsOkAll(g, i, n - 1, oo);
    }
  }

  /** An input whose gradient operations exist and pass cmp_arg for every output. */
  predicate InputOk(g: Graph, i: nat, oo: nat)
  {
    ValidArg(g, Input(i)) && GradsOk(g, i, oo, oo)
  }

  /**
   * The inner loop over outputs for input i: records the gradient operation of
   * (i, o) in row i of the II x OO table, leaving the other rows alone.
   */
  method ProcessGrads(g: Graph, arg: TfArg, i: nat, oo: nat, gradOp: array2<OpName>) returns (r: Result<(), ShapeError>)
    requires i < gradOp.Length0 && gradOp.Length1 == oo
    requires ValidArg(g, Input(i)) && arg.dims == ToNative(g[Input(i)])
    modifies gradOp
    ensures r.Ok? <==> GradsOk(g, i, oo, oo)
    ensures r.Ok? ==> forall o :: 0 <= o < oo ==> gradOp[i, o] == GradName(g, i, o, oo)
    ensures forall j, o :: 0 <= j < gradOp.Length0 && 0 <= o < oo && j != i ==> gradOp[j, o] == old(gradOp[j, o])
  {
    for o := 0 to oo
      invariant GradsOk(g, i, o, oo)
      invariant forall p :: 0 <= p < o ==> gradOp[i, p] == GradName(g, i, p, oo)
      invariant forall j, p :: 0 <= j < gradOp.Length0 && 0 <= p < oo && j != i ==> gradOp[j, p] == old(gradOp[j, p])
    {
      var name := GradName(g, i, o, oo);
      var argGrad := ProcessArg(g, name);
      if argGrad.Fail? {
        GradsOkPrefix(g, i, o + 1, oo, oo);
        return Fail(argGrad.error);
      }
      var same := CmpArg(arg, argGrad.value);
      if !same {
        GradsOkPrefix(g, i, o + 1, oo, oo);
        return Fail(GradMismatch(i));
      }
      gradOp[i, o] := name;
    }
    return Ok(());
  }

  /** Inputs 0..n are all well formed. */
  predicate InputsOk(g: Graph, n: nat, oo: nat)
  {
    n == 0 || (InputsOk(g, n - 1, oo) && InputOk(g, n - 1, oo))
  }

  /** InputsOk holds exactly when every input below n is well formed. */
  lemma {:induction false} InputsOkAll(g: Graph, n: nat, oo: nat)
    ensures InputsOk(g, n, oo) <==> forall i :: 0 <= i < n ==> InputOk(g, i, oo)
  {
    if n > 0 {
      InputsOkAll(g, n - 1, oo);
    }
  }

  /** Well-formedness of a prefix of the inputs follows from that of a longer one. */
  lemma {:induction false} InputsOkPrefix(g: Graph, n: nat, m: nat, oo: nat)
    requires n <= m
    ensures InputsOk(g, m, oo) ==> InputsOk(g, n, oo)
  {
    if n < m {
      InputsOkPrefix(g, n, m - 1, oo);
    }
  }

  /** The gradient slots of inputs 0..n hold their gradient operations. */
  predicate SlotsFilled(g: Graph, ops: seq<OpName>, n: nat, ii: nat, oo: nat)
  {
    |ops| == ii * oo
    && forall j: nat, o: nat :: j < n && o < oo ==> GradSlot(j, o, ii) < |ops| && ops[GradSlot(j, o, ii)] == GradName(g, j, o, oo)
  }

  /** Rows 0..n of the gradient table hold their gradient operations. */
  predicate RowsFilled(g: Graph, gradOp: array2<OpName>, n: nat, oo: nat)
    reads gradOp
  {
    n <= gradOp.Length0 && gradOp.Length1 == oo
    && forall j, o :: 0 <= j < n && 0 <= o < oo ==> gradOp[j, o] == GradName(g, j, o, oo)
  }

  /**
   * The flat grad_ops array of the source: entry k holds the table entry
   * (k % II, k / II), so that (i, o) sits at i + II*o.
   */
  function FlatSlots(gradOp: array2<OpName>): (flat: seq<OpName>)
    reads gradOp
    ensures |flat| == gradOp.Length0 * gradOp.Length1
  {
    var ii, oo := gradOp.Length0, gradOp.Length1;
    seq(ii * oo, k requires 0 <= k < ii * oo reads gradOp => DivBelow(k, ii, oo); gradOp[k % ii, k / ii])
  }

  /** Flattening a filled table fills every slot i + II*o. */
  lemma FlatSlotsFilled(g: Graph, gradOp: array2<OpName>, oo: nat)
    requires RowsFilled(g, gradOp, gradOp.Length0, oo)
    ensures SlotsFilled(g, FlatSlots(gradOp), gradOp.Length0, gradOp.Length0, oo)
  {
    var ii, flat := gradOp.Length0, FlatSlots(gradOp);
    forall j: nat, o: nat | j < ii && o < oo
      ensures GradSlot(j, o, ii) < |flat| && flat[GradSlot(j, o, ii)] == GradName(g, j, o, oo)
    {
      GradSlotLayout(j, o, ii, oo);
    }
  }

  datatype InputArg = InputArg(dims: seq<int>, tensor: TensorSpec)

  /** One pass of the input loop: input_i, its tensor, and its gradient operations. */
  method ProcessInput(g: Graph, i: nat, oo: nat, gradOp: array2<OpName>) returns (r: Result<InputArg, ShapeError>)
    requires i < gradOp.Length0 && RowsFilled(g, gradOp, i, oo) && InputsOk(g, i, oo)
    modifies gradOp
    ensures r.Ok? <==> InputsOk(g, i + 1, oo)
    ensures r.Ok? ==> (ValidArg(g, Input(i)) && r.value.dims == ToNative(g[Input(i)])
      && r.value.tensor == TensorSpec(g[Input(i)], Prod(g[Input(i)]) * FL_SIZE))
    ensures r.Ok? ==> RowsFilled(g, gradOp, i + 1, oo)
  {
    var arg := ProcessArg(g, Input(i));
    if arg.Fail? {
      return Fail(arg.error);
    }
    ExternalNative(g[Input(i)]);
    var t := TensorAllocate(arg.value.dims);
    var grads := ProcessGrads(g, arg.value, i, oo, gradOp);
    if grads.Fail? {
      return Fail(grads.error);
    }
    return Ok(InputArg(arg.value.dims, t.value));
  }

  /** The native shapes of input_0..input_{n-1}, in order. */
  function NativeInputs(g: Graph, n: nat, oo: nat): (r: seq<seq<int>>)
    requires InputsOk(g, n, oo)
    ensures |r| == n
  {
    if n == 0 then [] else NativeInputs(g, n - 1, oo) + [ToNative(g[Input(n - 1)])]
  }

  /** The tensors allocated for input_0..input_{n-1}, in order. */
  function InputTensors(g: Graph, n: nat, oo: nat): (r: seq<TensorSpec>)
    requires InputsOk(g, n, oo)
    ensures |r| == n
  {
    if n == 0 then [] else InputTensors(g, n - 1, oo) + [TensorSpec(g[Input(n - 1)], Prod(g[Input(n - 1)]) * FL_SIZE)]
  }

  /** Entry j of the accumulated shapes and tensors belongs to input_j. */
  lemma {:induction false} InputsAt(g: Graph, n: nat, oo: nat, j: nat)
    requires InputsOk(g, n, oo) && j < n
    ensures ValidArg(g, Input(j)) && NativeInputs(g, n, oo)[j] == ToNative(g[Input(j)])
    ensures InputTensors(g, n, oo)[j] == TensorSpec(g[Input(j)], Prod(g[Input(j)]) * FL_SIZE)
  {
    if j < n - 1 {
      InputsAt(g, n - 1, oo, j);
    }
  }

  datatype Inputs = Inputs(dims: seq<seq<int>>, tensors: seq<TensorSpec>, gradOps: seq<OpName>, width: nat)

  /**
   * The input loop of nlop_tf_shared_create: native shapes of input_0..input_{II-1},
   * their allocated tensors, IN, and the gradient operation of every pair stored
   * at slot i + II*o.
   */
  method ProcessInputs(g: Graph, ii: nat, oo: nat) returns (r: Result<Inputs, ShapeError>)
    ensures r.Ok? <==> InputsOk(g, ii, oo)
    ensures r.Ok? ==> (InputsOk(g, ii, oo) && r.value.dims == NativeInputs(g, ii, oo)
      && r.value.tensors == InputTensors(g, ii, oo) && r.value.width == MaxRank(r.value.dims))
    ensures r.Ok? ==> SlotsFilled(g, r.value.gradOps, ii, ii, oo)
  {
    var dims: seq<seq<int>> := [];
    var tensors: seq<TensorSpec> := [];
    var inw: nat := 1;
    var gradOp := new OpName[ii, oo];
    for i := 0 to ii
      invariant InputsOk(g, i, oo)
      invariant dims == NativeInputs(g, i, oo) && tensors == InputTensors(g, i, oo)
      invariant inw == MaxRank(dims)
      invariant RowsFilled(g, gradOp, i, oo)
    {
      var a := ProcessInput(g, i, oo, gradOp);
      if a.Fail? {
        InputsOkPrefix(g, i + 1, ii, oo);
        return Fail(a.error);
      }
      MaxRankSnoc(dims, a.value.dims);
      inw := Max(inw, |a.value.dims|);
      dims := dims + [a.value.dims];
      tensors := tensors + [a.value.tensor];
    }
    FlatSlotsFilled(g, gradOp, oo);
    return Ok(Inputs(dims, tensors, FlatSlots(gradOp), inw));
  }

  datatype TfShape = TfShape(ii: nat, oo: nat, outputs: Outputs, inputs: Inputs)

  /** Every output and every input, with their gradient operations, is well formed. */
  predicate GraphOk(g: Graph, ii: nat, oo: nat)
  {
    OutputsOk(g, oo) && InputsOk(g, ii, oo)
  }

  /**
   * The shape pass of nlop_tf_shared_create: counts the inputs and outputs,
   * then processes the outputs with their grad_ys and the inputs with their
   * gradients; any malformed or mismatched operation is an error.
   */
  method TfSharedCreate(g: Graph) returns (r: Result<TfShape, ShapeError>)
    ensures r.Ok? ==> IsSlotCount(g, true, r.value.ii) && IsSlotCount(g, false, r.value.oo)
    ensures r.Ok? ==> GraphOk(g, r.value.ii, r.value.oo)
    ensures r.Ok? ==> (r.value.outputs.dims == NativeOutputs(g, r.value.oo)
      && r.value.outputs.width == MaxRank(r.value.outputs.dims))
    ensures r.Ok? ==> (r.value.inputs.dims == NativeInputs(g, r.value.ii, r.value.oo)
      && r.value.inputs.tensors == InputTensors(g, r.value.ii, r.value.oo)
      && r.value.inputs.width == MaxRank(r.value.inputs.dims))
    ensures r.Ok? ==> SlotsFilled(g, r.value.inputs.gradOps, r.value.ii, r.value.ii, r.value.oo)
    ensures r.Fail? ==> forall n: nat, m: nat :: IsSlotCount(g, true, n) && IsSlotCount(g, false, m) ==> !GraphOk(g, n, m)
  {
    var ii := CountSlots(g, true);
    var oo := CountSlots(g, false);
    forall n: nat, m: nat | IsSlotCount(g, true, n) && IsSlotCount(g, false, m) ensures n == ii && m == oo {
      SlotCountUnique(g, true, n, ii);
      SlotCountUnique(g, false, m, oo);
    }
    var outs := ProcessOutputs(g, oo);
    if outs.Fail? {
      return Fail(outs.error);
    }
    var ins := ProcessInputs(g, ii, oo);
    if ins.Fail? {
      return Fail(ins.error);
    }
    return Ok(TfShape(ii, oo, outs.value, ins.value));
  }

  /** nl_odims / nl_idims: each shape padded with ones to the common width, in nested loops. */
  method PadShapes(dims: seq<seq<int>>, width: nat) returns (padded: array2<int>)
    requires forall i :: 0 <= i < |dims| ==> |dims[i]| <= width
    ensures padded.Length0 == |dims| && padded.Length1 == width
    ensures forall i, j :: 0 <= i < |dims| && 0 <= j < width ==> padded[i, j] == Pad(dims[i], width)[j]
  {
    padded := new int[|dims|, width];
    for i := 0 to |dims|
      invariant forall a, b :: 0 <= a < i && 0 <= b < width ==> padded[a, b] == Pad(dims[a], width)[b]
    {
      for j := 0 to width
        invariant forall a, b :: 0 <= a < i && 0 <= b < width ==> padded[a, b] == Pad(dims[a], width)[b]
        invariant forall b :: 0 <= b < j ==> padded[i, b] == Pad(dims[i], width)[b]
      {
        padded[i, j] := if j < |dims[i]| then dims[i][j] else 1;
      }
    }
  }
}
