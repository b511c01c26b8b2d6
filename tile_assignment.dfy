/** The tile assignment the rest of the compiler holds: the compact iota
    form when one is known, and the dense array of device ids, computed from
    the iota form at most once and then kept. */
module TileAssignments {
  import opened Options
  import opened Permutations
  import opened Shapes
  import D = DenseArrays
  import I = Iota
  import TK = TransposeKinds
  import IT = IotaTranspose
  import TA = TransposeAlgebra

  // ---------------------------------------------------------------------
  // Device membership in iota form

  /** The iota-form device test as the source writes it: only the upper
      bound is checked. */
  function IotaUsesDeviceAsWritten(t: I.IotaTileAssignment, device: int): bool
  {
    device < I.NumElements(t)
  }

  /** As written, the iota-form test reports a negative id as used although
      no element of the array it stands for is negative; the dense form of
      the same assignment reports it as unused. */
  lemma AsWrittenAcceptsNegative(t: I.IotaTileAssignment)
    requires I.Valid(t)
    ensures IotaUsesDeviceAsWritten(t, -1)
    ensures -1 !in I.ToArray(t).values
  {
    I.OccursIff(t, -1);
  }

  /** The iota-form device test with both bounds: the ids of an iota
      assignment are exactly `0 .. NumElements(t) - 1`. */
  function IotaUsesDevice(t: I.IotaTileAssignment, device: int): (used: bool)
    requires I.Valid(t)
    ensures used <==> device in I.ToArray(t).values
  {
    I.OccursIff(t, device);
    0 <= device < I.NumElements(t)
  }

  /** How `perm` acts on sizes `dims`. */
  ghost function KindOf(dims: seq<nat>, perm: seq<nat>): TK.TransposeKind
    requires IsPermutation(perm, |dims|)
  {
    PermutationBounds(perm, |dims|);
    TK.KindOf(dims, perm)
  }

  /** The iota transpose, with what the wrapper relies on: a result has the
      permuted sizes, every path but the general regrouping one stands for
      the dense transpose, and only the general path can fail. */
  method TryIotaTranspose(t: I.IotaTileAssignment, perm: seq<nat>) returns (r: Option<I.IotaTileAssignment>)
    requires I.Valid(t) && IsPermutation(perm, |t.dims|)
    ensures forall i :: 0 <= i < |perm| ==> perm[i] < |t.dims|
    ensures r.Some? ==> I.Valid(r.value) && r.value.dims == Permute(t.dims, perm)
    ensures r.Some? && (KindOf(t.dims, perm) != TK.Transpose || |t.reshapeDims| == 1 || IT.PureCase(t)) ==>
      I.ToArray(r.value) == D.TransposeDimensions(I.ToArray(t), perm)
    ensures r.None? ==> KindOf(t.dims, perm) == TK.Transpose && |t.reshapeDims| > 1 && !IT.PureCase(t)
    ensures r.None? ==> exists factors, groups :: IT.RegroupFailed(t, factors, groups)
  {
    PermutationBounds(perm, |t.dims|);
    ghost var factors, groups;
    r, factors, groups := IT.Transpose(t, perm);
  }

  // ---------------------------------------------------------------------
  // The wrapper

  class TileAssignment {
    /** The iota form, when one is known. */
    const iota: Option<I.IotaTileAssignment>
    /** The materialised array, filled in from `iota` on first use. */
    var cache: Option<D.DenseArray>

    /** With an iota form, the cache is empty or holds its array; without
        one, the cache holds the array. */
    ghost predicate Valid()
      reads this
    {
      match iota
      case Some(t) => I.Valid(t) && (cache.Some? ==> cache.value == I.ToArray(t))
      case None => cache.Some? && D.Valid(cache.value)
    }

    /** The array of device ids this assignment stands for. */
    ghost function Array(): (a: D.DenseArray)
      reads this
      requires Valid()
      ensures D.Valid(a)
    {
      if iota.Some? then I.ToArray(iota.value) else cache.value
    }

    constructor FromIota(t: I.IotaTileAssignment)
      requires I.Valid(t)
      ensures Valid() && iota == Some(t) && cache == None
      ensures Array() == I.ToArray(t)
    {
      iota := Some(t);
      cache := None;
    }

    constructor FromArray(a: D.DenseArray)
      requires D.Valid(a)
      ensures Valid() && iota == None && Array() == a
    {
      iota := None;
      cache := Some(a);
    }

    /** A copy sharing the iota form and whatever has been materialised. */
    constructor Copy(other: TileAssignment)
      requires other.Valid()
      ensures Valid() && iota == other.iota && cache == other.cache
      ensures Array() == other.Array()
    {
      iota := other.iota;
      cache := other.cache;
    }

    /** Fills the cache from the iota form unless it is filled already. */
    method MaybeMaterializeFullArray()
      requires Valid()
      modifies this
      ensures Valid() && Array() == old(Array())
      ensures cache == Some(Array())
      ensures old(cache).Some? ==> cache == old(cache)
    {
      if cache.None? {
        cache := Some(I.ToArray(iota.value));
      }
    }

    /** The full array, materialising it if needed. */
    method GetArray() returns (a: D.DenseArray)
      requires Valid()
      modifies this
      ensures Valid() && Array() == old(Array())
      ensures a == Array()
    {
      MaybeMaterializeFullArray();
      a := cache.value;
    }

    /** The device at `index`: read from the array if one is materialised,
        computed from the iota form otherwise. */
    method Get(index: seq<nat>) returns (device: int)
      requires Valid() && InBounds(index, Array().dims)
      requires cache.Some? || |index| >= 1
      ensures device == D.At(Array(), index)
    {
      if cache.Some? {
        device := D.At(cache.value, index);
      } else {
        device := I.ValueAt(iota.value, index);
      }
    }

    method Dimensions() returns (dims: seq<nat>)
      requires Valid()
      ensures dims == Array().dims
    {
      dims := if cache.Some? then cache.value.dims else iota.value.dims;
    }

    method NumElements() returns (n: nat)
      requires Valid()
      ensures n == |Array().values| == Product(Array().dims)
    {
      n := if cache.Some? then |cache.value.values| else I.NumElements(iota.value);
    }

    /** The first device: the array's first element if one is materialised,
        else 0, which is where every iota array starts. */
    method First() returns (device: int)
      requires Valid()
      ensures |Array().values| > 0 && device == Array().values[0]
    {
      if cache.Some? {
        ProductPositive(cache.value.dims);
        device := cache.value.values[0];
        if iota.Some? {
          I.FirstIsZero(iota.value);
        }
      } else {
        I.FirstIsZero(iota.value);
        device := 0;
      }
    }

    /** Whether `device` occurs in the assignment. */
    method UsesDevice(device: int) returns (used: bool)
      requires Valid()
      ensures used <==> device in Array().values
    {
      if iota.Some? {
        used := IotaUsesDevice(iota.value, device);
      } else {
        used := device in cache.value.values;
      }
    }

    /** Equal iota forms when both have one, else equal arrays. */
    method Equals(other: TileAssignment) returns (eq: bool)
      requires Valid() && other.Valid()
      modifies this, other
      ensures Valid() && Array() == old(Array())
      ensures other.Valid() && other.Array() == old(other.Array())
      ensures iota.Some? && other.iota.Some? ==> (eq <==> iota == other.iota)
      ensures iota.None? || other.iota.None? ==> (eq <==> Array() == other.Array())
    {
      if iota.Some? && other.iota.Some? {
        return iota.value == other.iota.value;
      }
      var a := GetArray();
      var b := other.GetArray();
      eq := a == b;
    }

    /** The same devices in the same order under new sizes of the same total;
        the iota form keeps its reshape dimensions and permutation. */
    method Reshape(newDims: seq<nat>) returns (r: TileAssignment)
      requires Valid() && Product(newDims) == Product(Array().dims)
      ensures AllPositive(newDims)
      ensures fresh(r) && r.Valid() && r.Array() == D.Reshape(Array(), newDims)
      ensures iota.Some? ==>
        r.iota == Some(I.IotaTileAssignment(newDims, iota.value.reshapeDims, iota.value.transposePerm))
      ensures iota.None? ==> r.iota.None?
    {
      ProductPositive(Array().dims);
      I.ProductPositiveFactors(newDims);
      if iota.Some? {
        var t := iota.value;
        r := new TileAssignment.FromIota(I.IotaTileAssignment(newDims, t.reshapeDims, t.transposePerm));
      } else {
        r := new TileAssignment.FromArray(D.Reshape(cache.value, newDims));
      }
    }

    /** Permutes the axes: a copy when only unit axes move in a way that keeps
        the sizes, the iota transpose when it has a result, and the dense
        transpose of the full array otherwise. `tried` is the iota
        transpose's result when it was consulted. */
    method Transpose(perm: seq<nat>) returns (r: TileAssignment, ghost tried: Option<I.IotaTileAssignment>)
      requires Valid() && IsPermutation(perm, |Array().dims|)
      modifies this
      ensures Valid() && Array() == old(Array())
      ensures fresh(r) && r.Valid()
      ensures forall i :: 0 <= i < |perm| ==> perm[i] < |Array().dims|
      ensures r.Array().dims == Permute(Array().dims, perm)
      ensures KindOf(Array().dims, perm) == TK.Noop ==> r.iota == iota && r.Array() == Array()
      ensures KindOf(Array().dims, perm) == TK.Noop ==> r.Array() == D.TransposeDimensions(Array(), perm)
      ensures iota.Some? &&
              (KindOf(Array().dims, perm) != TK.Transpose || |iota.value.reshapeDims| == 1 || IT.PureCase(iota.value)) ==>
        r.Array() == D.TransposeDimensions(Array(), perm)
      ensures KindOf(Array().dims, perm) != TK.Noop ==>
        (r.iota.None? <==> iota.None? || tried.None?) &&
        (iota.Some? ==> r.iota == tried)
      ensures KindOf(Array().dims, perm) != TK.Noop && iota.Some? && tried.None? ==>
        KindOf(Array().dims, perm) == TK.Transpose && |iota.value.reshapeDims| > 1 && !IT.PureCase(iota.value)
      ensures KindOf(Array().dims, perm) != TK.Noop && r.iota.None? ==>
        r.Array() == D.TransposeDimensions(Array(), perm)
    {
      PermutationBounds(perm, |Array().dims|);
      var dims := Dimensions();
      var kind := TK.GetTransposeKind(dims, perm);
      tried := None;
      if kind == TK.Noop {
        TK.NoopKeepsDims(dims, perm);
        TA.NoopKeepsArray(Array(), perm);
        r := new TileAssignment.Copy(this);
        return;
      }
      if iota.Some? {
        var transposed := TryIotaTranspose(iota.value, perm);
        tried := transposed;
        if transposed.Some? {
          r := new TileAssignment.FromIota(transposed.value);
          return;
        }
      }
      var a := GetArray();
      r := new TileAssignment.FromArray(D.TransposeDimensions(a, perm));
    }
  }
}
