/** The compact "iota" form of a tile assignment: the device array obtained
    by counting 0, 1, 2, ... over `reshapeDims` in row-major order, permuting
    the axes by `transposePerm` and reshaping the result to `dims`. */
module Iota {
  import opened Permutations
  import opened Shapes
  import opened DenseArrays
  import opened Canonicalization
  import TransposeAlgebra

  datatype IotaTileAssignment = IotaTileAssignment(dims: seq<nat>, reshapeDims: seq<nat>, transposePerm: seq<nat>)

  /** A well-formed iota tile assignment: at least one reshape dimension, all
      sizes positive, a permutation over the reshape dimensions, as many
      elements in `dims` as in `reshapeDims`, and the reshape dimensions and
      permutation in canonical form (every way of making one canonicalises,
      and reshaping keeps them). */
  ghost predicate Valid(t: IotaTileAssignment)
  {
    |t.reshapeDims| >= 1 &&
    AllPositive(t.dims) && AllPositive(t.reshapeDims) &&
    IsPermutation(t.transposePerm, |t.reshapeDims|) &&
    Product(t.dims) == Product(t.reshapeDims) &&
    IsCanonical(t.reshapeDims, t.transposePerm)
  }

  function NumElements(t: IotaTileAssignment): nat
  {
    Product(t.dims)
  }

  /** The dense array the iota form stands for: count up over the reshape
      dimensions, permute the axes, reshape to `dims`. */
  function ToArray(t: IotaTileAssignment): (a: DenseArray)
    requires Valid(t)
    ensures DenseArrays.Valid(a) && a.dims == t.dims
  {
    var transposed := TransposeDimensions(IotaArray(t.reshapeDims), t.transposePerm);
    ProductPermute(t.reshapeDims, t.transposePerm);
    DenseArrays.Reshape(transposed, t.dims)
  }

  /** The trivial iota tile assignment of shape `dims`: a single reshape
      dimension holding every element and the identity permutation. */
  function CreateFromDims(dims: seq<nat>): (t: IotaTileAssignment)
    requires AllPositive(dims)
    ensures Valid(t) && t.dims == dims
  {
    ProductPositive(dims);
    SingletonPermutation();
    IotaTileAssignment(dims, [Product(dims)], [0])
  }

  lemma SingletonPermutation()
    ensures IsPermutation([0], 1)
  {
    assert Range(1) == [0];
  }

  /** With a single axis, transposing by the identity leaves every offset
      where it is. */
  lemma SingleAxisOffset(n: nat, k: nat)
    requires 0 < n && k < n
    ensures AllPositive([n]) && IsPermutation([0], 1) && k < Product([n])
    ensures SourceOffset([n], [0], k) == k
  {
    SingletonPermutation();
    ProductSingleton(n);
    assert Permute([n], [0]) == [n];
    assert [n][..0] == [];
    assert Delinearize([n], k) == [k];
    assert Scatter([0], [k]) == [k];
    assert Linearize([n], [k]) == Linearize([], []) * n + k;
  }

  /** The trivial iota tile assignment materialises to the row-major
      count-up over `dims`. */
  lemma CreateFromDimsCountsUp(dims: seq<nat>)
    requires AllPositive(dims)
    ensures ToArray(CreateFromDims(dims)) == IotaArray(dims)
  {
    var t := CreateFromDims(dims);
    var n := Product(dims);
    ProductSingleton(n);
    var a := ToArray(t);
    forall k | 0 <= k < |a.values|
      ensures a.values[k] == k
    {
      SingleAxisOffset(n, k);
    }
  }

  /** What `Create(dims, reshapeDims, transposePerm)` stores: the canonical
      form of the reshape dimensions and permutation, or `[1]` and `[0]` when
      canonicalisation leaves nothing. */
  function Created(dims: seq<nat>, reshapeDims: seq<nat>, transposePerm: seq<nat>): IotaTileAssignment
    requires IsPermutation(transposePerm, |reshapeDims|)
  {
    var c := Canonicalize(reshapeDims, transposePerm);
    if c.0 == [] then IotaTileAssignment(dims, [1], [0])
    else IotaTileAssignment(dims, c.0, c.1)
  }

  /** Copies the reshape dimensions and permutation into scratch buffers,
      canonicalises them in place and keeps the canonical prefix. */
  method Create(dims: seq<nat>, reshapeDims: seq<nat>, transposePerm: seq<nat>)
    returns (t: IotaTileAssignment)
    requires |reshapeDims| >= 1 && AllPositive(reshapeDims)
    requires IsPermutation(transposePerm, |reshapeDims|)
    requires Product(dims) == Product(reshapeDims)
    ensures t == Created(dims, reshapeDims, transposePerm)
  {
    PermutationBounds(transposePerm, |reshapeDims|);
    var canonicalizedDims := new nat[|reshapeDims|](i requires 0 <= i < |reshapeDims| => reshapeDims[i]);
    var canonicalizedPerm := new nat[|transposePerm|](i requires 0 <= i < |transposePerm| => transposePerm[i]);
    assert canonicalizedDims[..] == reshapeDims;
    assert canonicalizedPerm[..] == transposePerm;
    var n := CanonicalizeIotaDims(canonicalizedDims, canonicalizedPerm);
    if n == 0 {
      canonicalizedDims[0] := 1;
      canonicalizedPerm[0] := 0;
      n := 1;
    }
    t := IotaTileAssignment(dims, canonicalizedDims[..n], canonicalizedPerm[..n]);
  }

  /** `Create` yields a valid iota tile assignment in canonical form, with
      the same shape and element count. */
  lemma CreatedValid(dims: seq<nat>, reshapeDims: seq<nat>, transposePerm: seq<nat>)
    requires |reshapeDims| >= 1 && AllPositive(reshapeDims)
    requires IsPermutation(transposePerm, |reshapeDims|)
    requires Product(dims) == Product(reshapeDims)
    ensures Valid(Created(dims, reshapeDims, transposePerm))
    ensures Created(dims, reshapeDims, transposePerm).dims == dims
    ensures IsCanonical(Created(dims, reshapeDims, transposePerm).reshapeDims,
                        Created(dims, reshapeDims, transposePerm).transposePerm)
    ensures |Created(dims, reshapeDims, transposePerm).reshapeDims| <= |reshapeDims|
  {
    CanonicalizeFacts(reshapeDims, transposePerm);
    ProductPositive(reshapeDims);
    ProductPositiveFactors(dims);
    if Canonicalize(reshapeDims, transposePerm).0 == [] {
      SingletonPermutation();
      ProductSingleton(1);
    }
  }

  /** What `Create` stores stands for the array its arguments describe:
      the count-up over `reshapeDims` with its axes permuted by
      `transposePerm`, read in row-major order under `dims`. Canonicalising
      changes the description, not the devices. */
  lemma CreatedArray(dims: seq<nat>, reshapeDims: seq<nat>, transposePerm: seq<nat>)
    requires |reshapeDims| >= 1 && AllPositive(reshapeDims)
    requires IsPermutation(transposePerm, |reshapeDims|)
    requires Product(dims) == Product(reshapeDims)
    ensures Valid(Created(dims, reshapeDims, transposePerm))
    ensures ToArray(Created(dims, reshapeDims, transposePerm)) ==
            DenseArray(dims, TransposeDimensions(IotaArray(reshapeDims), transposePerm).values)
  {
    CreatedValid(dims, reshapeDims, transposePerm);
    CanonicalizeFacts(reshapeDims, transposePerm);
    var a := ToArray(Created(dims, reshapeDims, transposePerm));
    var b := TransposeDimensions(IotaArray(reshapeDims), transposePerm);
    var c := Canonicalize(reshapeDims, transposePerm);
    forall k | 0 <= k < |a.values|
      ensures a.values[k] == b.values[k]
    {
      if c.0 == [] {
        SingleAxisOffset(1, k);
      } else {
        TransposeAlgebra.CanonicalizeOffset(reshapeDims, transposePerm, k);
      }
    }
  }

  /** A product of naturals that is positive has only positive factors. */
  lemma {:induction false} ProductPositiveFactors(s: seq<nat>)
    requires Product(s) > 0
    ensures AllPositive(s)
  {
    if s != [] {
      var n := |s| - 1;
      PositiveFactors(Product(s[..n]), s[n]);
      ProductPositiveFactors(s[..n]);
      assert s == s[..n] + [s[n]];
    }
  }

  lemma PositiveFactors(x: nat, y: nat)
    requires x * y > 0
    ensures x > 0 && y > 0
  {
  }

  /** Creating from a pair that is already canonical (and non-empty) stores
      it unchanged. */
  lemma CreateCanonicalUnchanged(dims: seq<nat>, reshapeDims: seq<nat>, transposePerm: seq<nat>)
    requires |reshapeDims| >= 1
    requires IsPermutation(transposePerm, |reshapeDims|) && IsCanonical(reshapeDims, transposePerm)
    ensures Created(dims, reshapeDims, transposePerm) == IotaTileAssignment(dims, reshapeDims, transposePerm)
  {
    CanonicalizeCanonical(reshapeDims, transposePerm);
  }

  /** Re-creating from what `Create` stored changes nothing. */
  lemma CreateIdempotent(dims: seq<nat>, reshapeDims: seq<nat>, transposePerm: seq<nat>)
    requires |reshapeDims| >= 1 && AllPositive(reshapeDims)
    requires IsPermutation(transposePerm, |reshapeDims|)
    requires Product(dims) == Product(reshapeDims)
    ensures Valid(Created(dims, reshapeDims, transposePerm))
    ensures var t := Created(dims, reshapeDims, transposePerm);
      Created(dims, t.reshapeDims, t.transposePerm) == t
  {
    CreatedValid(dims, reshapeDims, transposePerm);
    var t := Created(dims, reshapeDims, transposePerm);
    CreateCanonicalUnchanged(dims, t.reshapeDims, t.transposePerm);
  }

  /** When every reshape dimension has size 1 (and there are at least two),
      `Create` stores the single dimension `[1]` with permutation `[0]`. */
  lemma CreateAllUnit(dims: seq<nat>, reshapeDims: seq<nat>, transposePerm: seq<nat>)
    requires |reshapeDims| >= 2 && forall i :: 0 <= i < |reshapeDims| ==> reshapeDims[i] == 1
    requires IsPermutation(transposePerm, |reshapeDims|)
    ensures Created(dims, reshapeDims, transposePerm) == IotaTileAssignment(dims, [1], [0])
  {
    CanonicalizeAllUnit(reshapeDims, transposePerm);
  }

  // ---------------------------------------------------------------------
  // Evaluating one element

  /** Horner evaluation of the row-major offset of `idx` in shape `dims`,
      starting from the first coordinate. */
  method LinearIndex(dims: seq<nat>, idx: seq<nat>) returns (k: nat)
    requires |idx| == |dims| >= 1
    ensures k == Linearize(dims, idx)
  {
    k := idx[0];
    assert dims[..1][..0] == [] && idx[..1][..0] == [];
    for i := 1 to |dims|
      invariant k == Linearize(dims[..i], idx[..i])
    {
      assert dims[..i + 1][..i] == dims[..i] && idx[..i + 1][..i] == idx[..i];
      k := k * dims[i] + idx[i];
    }
    assert dims[..|dims|] == dims && idx[..|idx|] == idx;
  }

  /** Entry `P[j]` of `ri` holds digit `j` of the decoded offset, for every
      `j` from `i` on. */
  ghost predicate DigitsPlaced(ri: seq<nat>, p: seq<nat>, digits: seq<nat>, i: nat)
  {
    |digits| + i == |p| &&
    forall j :: i <= j < |p| ==> p[j] < |ri| && ri[p[j]] == digits[j - i]
  }

  lemma DigitsPlacedStep(ri: seq<nat>, p: seq<nat>, digits: seq<nat>, i: nat, v: nat)
    requires IsPermutation(p, |ri|) && i < |p|
    requires DigitsPlaced(ri, p, digits, i + 1)
    ensures p[i] < |ri|
    ensures DigitsPlaced(ri[p[i] := v], p, [v] + digits, i)
  {
    PermutationFacts(p, |ri|);
  }

  lemma DigitsPlacedScatter(ri: seq<nat>, p: seq<nat>, t: seq<nat>)
    requires IsPermutation(p, |ri|) && DigitsPlaced(ri, p, t, 0)
    ensures forall d :: 0 <= d < |p| ==> d in p
    ensures ri == Scatter(p, t)
  {
    PermutationFacts(p, |ri|);
    forall d | 0 <= d < |ri|
      ensures ri[d] == Scatter(p, t)[d]
    {
      var j := IndexOf(p, d);
    }
  }

  /** Decodes `k` digit by digit in the mixed radix of the permuted reshape
      dimensions, least significant first, storing digit `i` at position
      `transposePerm[i]`. */
  method ReshapeIndex(reshapeDims: seq<nat>, transposePerm: seq<nat>, k: nat) returns (ri: array<nat>)
    requires AllPositive(reshapeDims) && IsPermutation(transposePerm, |reshapeDims|)
    ensures forall i :: 0 <= i < |transposePerm| ==> transposePerm[i] < |reshapeDims|
    ensures forall d :: 0 <= d < |transposePerm| ==> d in transposePerm
    ensures fresh(ri) && ri.Length == |reshapeDims|
    ensures PermutedPositive(reshapeDims, transposePerm)
    ensures ri[..] == Scatter(transposePerm, Delinearize(Permute(reshapeDims, transposePerm), k))
  {
    var m := |reshapeDims|;
    PermutationFacts(transposePerm, m);
    ghost var pd := Permute(reshapeDims, transposePerm);
    assert PermutedPositive(reshapeDims, transposePerm);
    ri := new nat[m](_ => 0);
    var linear := k;
    ghost var digits: seq<nat> := [];
    var i := m;
    assert pd[..m] == pd;
    while i > 0
      invariant 0 <= i <= m
      invariant DecodedSoFar(pd, i, linear, digits, k)
      invariant DigitsPlaced(ri[..], transposePerm, digits, i)
    {
      i := i - 1;
      var dim := transposePerm[i];
      var dimSize := reshapeDims[dim];
      assert dimSize == pd[i] > 0;
      DivModNat(linear, dimSize);
      var digit: nat, rest: nat := linear % dimSize, linear / dimSize;
      DecodeStep(pd, i, linear, digits, k);
      DigitsPlacedStep(ri[..], transposePerm, digits, i, digit);
      ri[dim] := digit;
      digits := [digit] + digits;
      linear := rest;
    }
    assert pd[..0] == [];
    DigitsPlacedScatter(ri[..], transposePerm, digits);
  }

  lemma DivModNat(a: nat, b: nat)
    requires b > 0
    ensures a / b >= 0 && 0 <= a % b < b
  {
  }

  /** Decoding `k` in radix `dims` ends in `digits`, and the digits still to
      come are those of `linear` in the radix `dims[..i]`. */
  ghost predicate DecodedSoFar(dims: seq<nat>, i: nat, linear: nat, digits: seq<nat>, k: nat)
    requires AllPositive(dims) && i <= |dims|
  {
    Delinearize(dims[..i], linear) + digits == Delinearize(dims, k)
  }

  lemma DecodeStep(dims: seq<nat>, i: nat, linear: nat, digits: seq<nat>, k: nat)
    requires AllPositive(dims) && i < |dims|
    requires DecodedSoFar(dims, i + 1, linear, digits, k)
    ensures DecodedSoFar(dims, i, linear / dims[i], [linear % dims[i]] + digits, k)
  {
    DelinearizeStep(dims, i, linear);
  }

  /** The last digit of a mixed-radix decoding comes off first. */
  lemma DelinearizeStep(dims: seq<nat>, i: nat, k: nat)
    requires AllPositive(dims) && i < |dims|
    ensures Delinearize(dims[..i + 1], k) == Delinearize(dims[..i], k / dims[i]) + [k % dims[i]]
  {
    assert dims[..i + 1][..i] == dims[..i];
  }

  ghost predicate PermutedPositive(reshapeDims: seq<nat>, transposePerm: seq<nat>)
    requires forall i :: 0 <= i < |transposePerm| ==> transposePerm[i] < |reshapeDims|
  {
    AllPositive(Permute(reshapeDims, transposePerm))
  }

  /** The element of the iota array at `index`, computed in closed form:
      linearise over `dims`, decode over the permuted reshape dimensions,
      re-encode over the reshape dimensions in natural order. */
  method ValueAt(t: IotaTileAssignment, index: seq<nat>) returns (value: nat)
    requires Valid(t) && |t.dims| >= 1 && InBounds(index, t.dims)
    ensures value == At(ToArray(t), index)
    ensures value < NumElements(t)
  {
    var linearIndex := LinearIndex(t.dims, index);
    var reshapeIndex := ReshapeIndex(t.reshapeDims, t.transposePerm, linearIndex);
    value := LinearIndex(t.reshapeDims, reshapeIndex[..]);
    ElementAt(t, index);
    assert value == SourceOffset(t.reshapeDims, t.transposePerm, linearIndex);
  }

  /** The element at `index` is where the count-up element at its row-major
      position came from before the axes were permuted. */
  lemma ElementAt(t: IotaTileAssignment, index: seq<nat>)
    requires Valid(t) && InBounds(index, t.dims)
    ensures Linearize(t.dims, index) < Product(t.reshapeDims)
    ensures At(ToArray(t), index) == SourceOffset(t.reshapeDims, t.transposePerm, Linearize(t.dims, index))
  {
    LinearizeBound(t.dims, index);
  }

  /** Every element of the iota array is a device id below the element
      count. */
  lemma ValuesInRange(t: IotaTileAssignment)
    requires Valid(t)
    ensures forall k :: 0 <= k < |ToArray(t).values| ==> 0 <= ToArray(t).values[k] < NumElements(t)
  {
    var a := ToArray(t);
    forall k | 0 <= k < |a.values|
      ensures 0 <= a.values[k] < NumElements(t)
    {
      var src := TransposeDimensions(IotaArray(t.reshapeDims), t.transposePerm);
      assert a.values[k] == src.values[k];
    }
  }

  /** The first element of the iota array, at the all-zero index, is 0. */
  lemma FirstIsZero(t: IotaTileAssignment)
    requires Valid(t)
    ensures |ToArray(t).values| > 0
    ensures ToArray(t).values[0] == 0
  {
    var r, p := t.reshapeDims, t.transposePerm;
    ProductPositive(r);
    PermutationFacts(p, |r|);
    ProductPermute(r, p);
    var pd := Permute(r, p);
    DelinearizeZero(pd);
    var z := Scatter(p, Delinearize(pd, 0));
    forall d | 0 <= d < |z|
      ensures z[d] == 0
    {
      var j := IndexOf(p, d);
    }
    LinearizeZero(r, z);
  }

  /** The index of the transposed array that reads original index `idx`. */
  lemma GatherInBounds(dims: seq<nat>, p: seq<nat>, idx: seq<nat>)
    requires IsPermutation(p, |dims|) && InBounds(idx, dims)
    ensures forall i :: 0 <= i < |p| ==> p[i] < |dims|
    ensures InBounds(Permute(idx, p), Permute(dims, p))
  {
    PermutationFacts(p, |dims|);
  }

  /** Every offset of the count-up is the source of some offset of the
      transposed array. */
  lemma OffsetSource(r: seq<nat>, p: seq<nat>, device: nat) returns (k: nat)
    requires AllPositive(r) && IsPermutation(p, |r|) && device < Product(r)
    ensures k < Product(r) && SourceOffset(r, p, k) == device
  {
    PermutationFacts(p, |r|);
    ProductPermute(r, p);
    var pd := Permute(r, p);
    assert PermutedPositive(r, p);
    var idx := Delinearize(r, device);
    DelinearizeInBounds(r, device);
    GatherInBounds(r, p, idx);
    var g := Permute(idx, p);
    k := Linearize(pd, g);
    LinearizeBound(pd, g);
    DelinearizeLinearize(pd, g);
    ScatterPermute(p, idx);
    LinearizeDelinearize(r, device);
  }

  /** Every device id below the element count occurs in the iota array. */
  lemma EveryDeviceOccurs(t: IotaTileAssignment, device: nat)
    requires Valid(t) && device < NumElements(t)
    ensures device in ToArray(t).values
  {
    var k := OffsetSource(t.reshapeDims, t.transposePerm, device);
    var src := TransposeDimensions(IotaArray(t.reshapeDims), t.transposePerm);
    assert src.values[k] == device;
    assert ToArray(t).values[k] == device;
  }

  /** A number occurs in the iota array exactly when it is a device id below
      the element count. */
  lemma OccursIff(t: IotaTileAssignment, device: int)
    requires Valid(t)
    ensures device in ToArray(t).values <==> 0 <= device < NumElements(t)
  {
    ValuesInRange(t);
    if 0 <= device < NumElements(t) {
      EveryDeviceOccurs(t, device);
    }
  }
}
