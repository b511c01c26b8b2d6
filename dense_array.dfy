/** A value-level stand-in for the dense N-dimensional array of device ids
    that tile assignments materialise into. Only what the tile-assignment
    code relies on is given: filling with a count-up, reshaping, permuting
    axes and indexing, each defined on a row-major list of elements. */
module DenseArrays {
  import opened Permutations
  import opened Shapes

  /** Dimension sizes and the elements in row-major order. */
  datatype DenseArray = DenseArray(dims: seq<nat>, values: seq<int>)

  ghost predicate Valid(a: DenseArray)
  {
    AllPositive(a.dims) && |a.values| == Product(a.dims)
  }

  /** An array of shape `dims` filled with 0, 1, 2, ... in row-major order. */
  function IotaArray(dims: seq<nat>): (a: DenseArray)
    requires AllPositive(dims)
    ensures Valid(a) && a.dims == dims
    ensures forall k :: 0 <= k < |a.values| ==> a.values[k] == k
  {
    DenseArray(dims, seq(Product(dims), k => k))
  }

  /** The element at multi-index `idx`. */
  function At(a: DenseArray, idx: seq<nat>): int
    requires Valid(a) && InBounds(idx, a.dims)
  {
    LinearizeBound(a.dims, idx);
    a.values[Linearize(a.dims, idx)]
  }

  /** The same elements, in the same order, under another shape of equal size. */
  function Reshape(a: DenseArray, dims: seq<nat>): (r: DenseArray)
    requires Valid(a) && AllPositive(dims) && Product(dims) == Product(a.dims)
    ensures Valid(r) && r.dims == dims && r.values == a.values
  {
    DenseArray(dims, a.values)
  }

  /** Where, in an array of shape `dims`, the element comes from that lands at
      offset `k` after the axes are permuted by `perm`. */
  function SourceOffset(dims: seq<nat>, perm: seq<nat>, k: nat): (o: nat)
    requires AllPositive(dims) && IsPermutation(perm, |dims|) && k < Product(dims)
    ensures o < Product(dims)
  {
    PermutationFacts(perm, |dims|);
    ProductPermute(dims, perm);
    var nd := Permute(dims, perm);
    DelinearizeInBounds(nd, k);
    ScatterInBounds(dims, perm, Delinearize(nd, k));
    LinearizeBound(dims, Scatter(perm, Delinearize(nd, k)));
    Linearize(dims, Scatter(perm, Delinearize(nd, k)))
  }

  /** Axis `i` of the result is axis `perm[i]` of `a`. */
  function TransposeDimensions(a: DenseArray, perm: seq<nat>): (r: DenseArray)
    requires Valid(a) && IsPermutation(perm, |a.dims|)
    ensures forall i :: 0 <= i < |perm| ==> perm[i] < |a.dims|
    ensures Valid(r) && r.dims == Permute(a.dims, perm)
  {
    PermutationFacts(perm, |a.dims|);
    ProductPermute(a.dims, perm);
    DenseArray(Permute(a.dims, perm),
               seq(|a.values|, k requires 0 <= k < |a.values| => a.values[SourceOffset(a.dims, perm, k)]))
  }

  /** Indexing the transposed array at `idx` reads the original array at the
      index whose coordinate `perm[i]` is `idx[i]`. */
  lemma TransposeAt(a: DenseArray, perm: seq<nat>, idx: seq<nat>)
    requires Valid(a) && IsPermutation(perm, |a.dims|)
    requires InBounds(idx, TransposeDimensions(a, perm).dims)
    ensures forall d :: 0 <= d < |perm| ==> d in perm
    ensures InBounds(Scatter(perm, idx), a.dims)
    ensures At(TransposeDimensions(a, perm), idx) == At(a, Scatter(perm, idx))
  {
    var r := TransposeDimensions(a, perm);
    PermutationFacts(perm, |a.dims|);
    ScatterInBounds(a.dims, perm, idx);
    LinearizeBound(r.dims, idx);
    DelinearizeLinearize(r.dims, idx);
  }
}
