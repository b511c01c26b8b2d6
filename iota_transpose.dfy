/** Transposing an iota tile assignment without materialising it: the fast
    paths (nothing moves, only size-1 axes move, a single reshape dimension,
    a transpose that permutes whole reshape dimensions) and the general path,
    which splits the reshape dimensions into prime factors and regroups them
    to match the non-unit axes. */
module IotaTranspose {
  import opened Options
  import opened Permutations
  import opened Shapes
  import opened Canonicalization
  import opened Decanonicalization
  import opened Iota
  import D = DenseArrays
  import TA = TransposeAlgebra
  import TK = TransposeKinds

  // ---------------------------------------------------------------------
  // Sequences of sizes

  /** `s` with the entries at `a` and `b` exchanged. */
  function Swap<T>(s: seq<T>, a: nat, b: nat): (r: seq<T>)
    requires a < |s| && b < |s|
    ensures |r| == |s| && r[a] == s[b] && r[b] == s[a]
    ensures forall k :: 0 <= k < |s| && k != a && k != b ==> r[k] == s[k]
    ensures multiset(r) == multiset(s)
  {
    s[a := s[b]][b := s[a]]
  }

  /** The pairs `(a[k], b[k])`. */
  function Zip(a: seq<nat>, b: seq<nat>): (z: seq<(nat, nat)>)
    requires |a| == |b|
    ensures |z| == |a|
    ensures forall k :: 0 <= k < |a| ==> z[k] == (a[k], b[k])
  {
    seq(|a|, k requires 0 <= k < |a| => (a[k], b[k]))
  }

  /** Exchanging two entries with the same label exchanges the labelled pairs. */
  lemma ZipSwap(labels: seq<nat>, s: seq<nat>, a: nat, b: nat)
    requires |labels| == |s| && a < |s| && b < |s| && labels[a] == labels[b]
    ensures Zip(labels, Swap(s, a, b)) == Swap(Zip(labels, s), a, b)
  {
  }

  ghost predicate AtLeastTwo(s: seq<nat>)
  {
    forall k :: 0 <= k < |s| ==> s[k] >= 2
  }

  /** A nonempty product of sizes of at least 2 is at least 2. */
  lemma {:induction false} ProductAtLeastTwo(s: seq<nat>)
    requires |s| > 0 && AtLeastTwo(s)
    ensures Product(s) >= 2
  {
    var s' := s[..|s| - 1];
    if |s'| > 0 {
      ProductAtLeastTwo(s');
    }
    assert Product(s') >= 1;
    MulMono(1, Product(s'), s[|s| - 1]);
  }

  /** Sizes other than 1 are at least 2 once they are positive. */
  lemma DroppedAtLeastTwo(d: seq<nat>)
    requires AllPositive(d)
    ensures AtLeastTwo(DropUnitSizes(d))
  {
    DropUnitSizesFacts(d);
  }

  // ---------------------------------------------------------------------
  // Scanning the sizes

  /** The sizes read in the order `perm` lists the axes. */
  method PermuteDims(dims: seq<nat>, perm: seq<nat>) returns (newDims: seq<nat>)
    requires forall i :: 0 <= i < |perm| ==> perm[i] < |dims|
    ensures newDims == Permute(dims, perm)
  {
    newDims := [];
    for i := 0 to |perm|
      invariant newDims == Permute(dims, perm[..i])
    {
      assert perm[..i + 1] == perm[..i] + [perm[i]];
      newDims := newDims + [dims[perm[i]]];
    }
    assert perm[..|perm|] == perm;
  }

  /** The non-unit sizes are the leading reshape dimensions in transposed
      order, one for one. */
  ghost predicate IsPureTranspose(nonOne: seq<nat>, reshapeDims: seq<nat>, transposePerm: seq<nat>)
    requires forall k :: 0 <= k < |transposePerm| ==> transposePerm[k] < |reshapeDims|
  {
    |nonOne| <= |transposePerm| &&
    forall k {:trigger nonOne[k]} :: 0 <= k < |nonOne| ==> reshapeDims[transposePerm[k]] == nonOne[k]
  }

  /** Axis `i` maps to -1 if it has size 1, else to its place among the
      non-unit axes. */
  ghost predicate UnitMap(dims: seq<nat>, oneToNonOne: seq<int>)
  {
    UnitMapUpTo(dims, oneToNonOne, |dims|)
  }

  /** `UnitMap` for the first `n` axes. */
  ghost predicate UnitMapUpTo(dims: seq<nat>, oneToNonOne: seq<int>, n: nat)
  {
    |oneToNonOne| == |dims| && n <= |dims| &&
    forall i {:trigger oneToNonOne[i]} :: 0 <= i < n ==>
      oneToNonOne[i] == if dims[i] == 1 then -1 else CountNonUnit(dims, i) as int
  }

  lemma UnitMapStep(dims: seq<nat>, oneToNonOne: seq<int>, i: nat)
    requires i < |dims| && UnitMapUpTo(dims, oneToNonOne, i)
    ensures UnitMapUpTo(dims, oneToNonOne[i := if dims[i] == 1 then -1 else CountNonUnit(dims, i) as int], i + 1)
  {
  }

  lemma PureStep(kept: seq<nat>, reshapeDims: seq<nat>, transposePerm: seq<nat>, dim: nat)
    requires forall k :: 0 <= k < |transposePerm| ==> transposePerm[k] < |reshapeDims|
    ensures IsPureTranspose(kept + [dim], reshapeDims, transposePerm) <==>
      IsPureTranspose(kept, reshapeDims, transposePerm) && |kept| < |transposePerm| &&
      reshapeDims[transposePerm[|kept|]] == dim
  {
    var k2 := kept + [dim];
    if IsPureTranspose(k2, reshapeDims, transposePerm) {
      assert forall k :: 0 <= k < |kept| ==> kept[k] == k2[k];
      assert k2[|kept|] == dim;
    } else if IsPureTranspose(kept, reshapeDims, transposePerm) && |kept| < |transposePerm| {
      assert forall k :: 0 <= k < |k2| ==> k2[k] == if k < |kept| then kept[k] else dim;
    }
  }

  /** One sweep over the sizes collecting the non-unit ones, numbering them,
      and checking whether they are the transposed reshape dimensions. */
  method ScanNonUnitDims(dims: seq<nat>, reshapeDims: seq<nat>, transposePerm: seq<nat>)
    returns (nonOneDims: seq<nat>, oneToNonOne: seq<int>, isPure: bool)
    requires |transposePerm| == |reshapeDims|
    requires forall k :: 0 <= k < |transposePerm| ==> transposePerm[k] < |reshapeDims|
    ensures nonOneDims == DropUnitSizes(dims)
    ensures UnitMap(dims, oneToNonOne)
    ensures isPure <==> IsPureTranspose(nonOneDims, reshapeDims, transposePerm)
  {
    isPure := true;
    nonOneDims := [];
    oneToNonOne := seq(|dims|, _ => 0);
    for i := 0 to |dims|
      invariant nonOneDims == KeptSizes(dims, i)
      invariant UnitMapUpTo(dims, oneToNonOne, i)
      invariant isPure <==> IsPureTranspose(nonOneDims, reshapeDims, transposePerm)
    {
      var dim := dims[i];
      ScanStep(dims, reshapeDims, transposePerm, i, nonOneDims, oneToNonOne);
      if dim == 1 {
        oneToNonOne := oneToNonOne[i := -1];
        continue;
      }
      var c := |nonOneDims|;
      if c >= |reshapeDims| || reshapeDims[transposePerm[c]] != dim {
        isPure := false;
      }
      oneToNonOne := oneToNonOne[i := c];
      nonOneDims := nonOneDims + [dim];
    }
  }

  /** One axis of the scan: a size-1 axis is marked -1; any other is
      numbered, collected, and checked against the next transposed reshape
      dimension. */
  lemma ScanStep(dims: seq<nat>, reshapeDims: seq<nat>, transposePerm: seq<nat>, i: nat,
                 nonOneDims: seq<nat>, oneToNonOne: seq<int>)
    requires forall k :: 0 <= k < |transposePerm| ==> transposePerm[k] < |reshapeDims|
    requires i < |dims| && nonOneDims == KeptSizes(dims, i) && UnitMapUpTo(dims, oneToNonOne, i)
    ensures dims[i] == 1 ==>
      nonOneDims == KeptSizes(dims, i + 1) && UnitMapUpTo(dims, oneToNonOne[i := -1], i + 1)
    ensures dims[i] != 1 ==>
      nonOneDims + [dims[i]] == KeptSizes(dims, i + 1) &&
      UnitMapUpTo(dims, oneToNonOne[i := |nonOneDims|], i + 1) &&
      (IsPureTranspose(nonOneDims + [dims[i]], reshapeDims, transposePerm) <==>
       IsPureTranspose(nonOneDims, reshapeDims, transposePerm) && |nonOneDims| < |transposePerm| &&
       reshapeDims[transposePerm[|nonOneDims|]] == dims[i])
  {
    UnitMapStep(dims, oneToNonOne, i);
    PureStep(nonOneDims, reshapeDims, transposePerm, dims[i]);
  }

  /** One more entry of `perm`: a size-1 axis adds nothing, a non-unit axis
      adds its place among the non-unit axes. */
  lemma RenumberStep(dims: seq<nat>, perm: seq<nat>, i: nat)
    requires i < |perm| && forall k :: 0 <= k < |perm| ==> perm[k] < |dims|
    ensures TK.RenumberFits(dims, perm, i + 1)
    ensures dims[perm[i]] == 1 ==> RenumberPrefix(dims, perm, i + 1) == RenumberPrefix(dims, perm, i)
    ensures dims[perm[i]] != 1 ==> CountNonUnit(dims, perm[i]) < |DropUnitSizes(dims)|
    ensures dims[perm[i]] != 1 ==>
      RenumberPrefix(dims, perm, i + 1) == RenumberPrefix(dims, perm, i) + [CountNonUnit(dims, perm[i])]
  {
    TK.RenumberBounds(dims, perm, i + 1);
    if dims[perm[i]] != 1 {
      TK.KeptAt(dims, perm[i], |dims|);
    }
  }

  /** The old permutation entries of the non-unit axes, read in their new
      order. */
  method PurePerm(dims: seq<nat>, perm: seq<nat>, transposePerm: seq<nat>, oneToNonOne: seq<int>)
    returns (newPerm: seq<nat>)
    requires forall i :: 0 <= i < |perm| ==> perm[i] < |dims|
    requires UnitMap(dims, oneToNonOne)
    requires |DropUnitSizes(dims)| <= |transposePerm|
    ensures TK.RenumberFits(dims, perm, |perm|)
    ensures newPerm == Permute(transposePerm, RenumberPerm(dims, perm))
  {
    newPerm := [];
    for i := 0 to |perm|
      invariant TK.RenumberFits(dims, perm, i)
      invariant newPerm == Permute(transposePerm, RenumberPrefix(dims, perm, i))
    {
      PurePermStep(dims, perm, transposePerm, oneToNonOne, i);
      if dims[perm[i]] == 1 {
        continue;
      }
      newPerm := newPerm + [transposePerm[oneToNonOne[perm[i]]]];
    }
  }

  /** One entry of `perm` in `PurePerm`: a size-1 axis adds nothing, a
      non-unit axis adds the old permutation entry at its place among the
      non-unit axes. */
  lemma PurePermStep(dims: seq<nat>, perm: seq<nat>, transposePerm: seq<nat>, oneToNonOne: seq<int>, i: nat)
    requires forall k :: 0 <= k < |perm| ==> perm[k] < |dims|
    requires UnitMap(dims, oneToNonOne) && |DropUnitSizes(dims)| <= |transposePerm|
    requires i < |perm| && TK.RenumberFits(dims, perm, i)
    ensures TK.RenumberFits(dims, perm, i + 1)
    ensures dims[perm[i]] == 1 ==>
      Permute(transposePerm, RenumberPrefix(dims, perm, i + 1)) == Permute(transposePerm, RenumberPrefix(dims, perm, i))
    ensures dims[perm[i]] != 1 ==>
      0 <= oneToNonOne[perm[i]] < |transposePerm| &&
      Permute(transposePerm, RenumberPrefix(dims, perm, i + 1)) ==
        Permute(transposePerm, RenumberPrefix(dims, perm, i)) + [transposePerm[oneToNonOne[perm[i]]]]
  {
    RenumberStep(dims, perm, i);
    if dims[perm[i]] != 1 {
      PermuteSnoc(transposePerm, RenumberPrefix(dims, perm, i), oneToNonOne[perm[i]] as nat);
    }
  }

  /** The groups of the non-unit axes, concatenated in their new order. */
  method FlattenGroups(dims: seq<nat>, perm: seq<nat>, oneToNonOne: seq<int>, groups: seq<seq<nat>>)
    returns (flat: seq<nat>)
    requires forall i :: 0 <= i < |perm| ==> perm[i] < |dims|
    requires UnitMap(dims, oneToNonOne)
    requires |groups| == |DropUnitSizes(dims)|
    ensures TK.RenumberFits(dims, perm, |perm|)
    ensures flat == Flatten(Permute(groups, RenumberPerm(dims, perm)))
  {
    flat := [];
    for i := 0 to |perm|
      invariant TK.RenumberFits(dims, perm, i)
      invariant flat == Flatten(Permute(groups, RenumberPrefix(dims, perm, i)))
    {
      FlattenGroupsStep(dims, perm, oneToNonOne, groups, i);
      var dim := perm[i];
      if oneToNonOne[dim] < 0 {
        continue;
      }
      flat := flat + groups[oneToNonOne[dim]];
    }
  }

  /** One entry of `perm` in `FlattenGroups`: a size-1 axis adds nothing, a
      non-unit axis adds its group. */
  lemma FlattenGroupsStep(dims: seq<nat>, perm: seq<nat>, oneToNonOne: seq<int>, groups: seq<seq<nat>>, i: nat)
    requires forall k :: 0 <= k < |perm| ==> perm[k] < |dims|
    requires UnitMap(dims, oneToNonOne) && |groups| == |DropUnitSizes(dims)|
    requires i < |perm| && TK.RenumberFits(dims, perm, i)
    ensures TK.RenumberFits(dims, perm, i + 1)
    ensures oneToNonOne[perm[i]] < 0 ==>
      Flatten(Permute(groups, RenumberPrefix(dims, perm, i + 1))) == Flatten(Permute(groups, RenumberPrefix(dims, perm, i)))
    ensures oneToNonOne[perm[i]] >= 0 ==>
      oneToNonOne[perm[i]] < |groups| &&
      Flatten(Permute(groups, RenumberPrefix(dims, perm, i + 1))) ==
        Flatten(Permute(groups, RenumberPrefix(dims, perm, i))) + groups[oneToNonOne[perm[i]]]
  {
    RenumberStep(dims, perm, i);
    if oneToNonOne[perm[i]] >= 0 {
      var j := oneToNonOne[perm[i]] as nat;
      var r := RenumberPrefix(dims, perm, i);
      PermuteSnoc(groups, r, j);
      FlattenSnoc(Permute(groups, r), groups[j]);
    }
  }

  // ---------------------------------------------------------------------
  // The pure transpose

  /** A prefix of sizes of at least 2 that already has the whole product is
      the whole sequence. */
  lemma PrefixCarriesProduct(s: seq<nat>, c: nat)
    requires c <= |s| && AtLeastTwo(s) && Product(s[..c]) == Product(s)
    ensures c == |s|
  {
    assert s == s[..c] + s[c..];
    ProductAppend(s[..c], s[c..]);
    assert AllPositive(s[..c]);
    ProductPositive(s[..c]);
    MulCancel(Product(s[c..]), 1, Product(s[..c]));
    if c < |s| {
      assert AtLeastTwo(s[c..]);
      ProductAtLeastTwo(s[c..]);
      assert false;
    }
  }

  /** When the non-unit sizes are the transposed reshape dimensions, there is
      one of them per reshape dimension: canonical reshape dimensions have no
      size 1, so none can be left over. */
  lemma PureTransposeMatches(t: IotaTileAssignment)
    requires Valid(t) && |t.reshapeDims| > 1
    requires PermutationBoundsHold(t)
    requires IsPureTranspose(DropUnitSizes(t.dims), t.reshapeDims, t.transposePerm)
    ensures DropUnitSizes(t.dims) == Permute(t.reshapeDims, t.transposePerm)
  {
    var r, p := t.reshapeDims, t.transposePerm;
    var nd, q := DropUnitSizes(t.dims), Permute(r, p);
    var c := |nd|;
    assert nd == q[..c];
    ProductPermute(r, p);
    DropUnitSizesFacts(t.dims);
    CanonicalFactors(r, p);
    PrefixCarriesProduct(q, c);
  }

  /** Canonical reshape dimensions, more than one of them, are all at least 2. */
  lemma CanonicalFactors(r: seq<nat>, p: seq<nat>)
    requires AllPositive(r) && |r| > 1 && IsCanonical(r, p)
    requires forall k :: 0 <= k < |p| ==> p[k] < |r|
    ensures AtLeastTwo(Permute(r, p))
  {
    var q := Permute(r, p);
    forall k | 0 <= k < |q| ensures q[k] >= 2 {
      assert q[k] == r[p[k]] && r[p[k]] in r;
    }
  }

  ghost predicate PermutationBoundsHold(t: IotaTileAssignment)
  {
    forall k :: 0 <= k < |t.transposePerm| ==> t.transposePerm[k] < |t.reshapeDims|
  }

  lemma ValidBounds(t: IotaTileAssignment)
    requires Valid(t)
    ensures PermutationBoundsHold(t) && |t.transposePerm| == |t.reshapeDims|
  {
    PermutationBounds(t.transposePerm, |t.reshapeDims|);
  }

  /** The permutation of the pure-transpose result: the old permutation
      entries of the non-unit axes in their new order. */
  ghost function PureTransposePerm(t: IotaTileAssignment, perm: seq<nat>): (p: seq<nat>)
    requires Valid(t) && IsPermutation(perm, |t.dims|) && |t.reshapeDims| > 1
    requires PermutationBoundsHold(t)
    requires IsPureTranspose(DropUnitSizes(t.dims), t.reshapeDims, t.transposePerm)
    ensures IsPermutation(p, |t.reshapeDims|)
    ensures forall k :: 0 <= k < |p| ==> p[k] < |t.reshapeDims|
    ensures forall k :: 0 <= k < |perm| ==> perm[k] < |t.dims|
    ensures TK.RenumberFits(t.dims, perm, |perm|) && |DropUnitSizes(t.dims)| <= |t.transposePerm|
    ensures p == Permute(t.transposePerm, RenumberPerm(t.dims, perm))
  {
    PureTransposeMatches(t);
    PermutationBounds(perm, |t.dims|);
    RenumberPermutation(t.dims, perm);
    PermutationCompose(t.transposePerm, RenumberPerm(t.dims, perm), |t.reshapeDims|);
    PermutationBounds(Permute(t.transposePerm, RenumberPerm(t.dims, perm)), |t.reshapeDims|);
    TK.RenumberBounds(t.dims, perm, |perm|);
    Permute(t.transposePerm, RenumberPerm(t.dims, perm))
  }

  /** After a pure transpose the new non-unit sizes are again the reshape
      dimensions read through the new permutation. */
  lemma PureTransposeStaysPure(t: IotaTileAssignment, perm: seq<nat>)
    requires Valid(t) && IsPermutation(perm, |t.dims|) && |t.reshapeDims| > 1
    requires PermutationBoundsHold(t)
    requires IsPureTranspose(DropUnitSizes(t.dims), t.reshapeDims, t.transposePerm)
    ensures forall k :: 0 <= k < |perm| ==> perm[k] < |t.dims|
    ensures DropUnitSizes(Permute(t.dims, perm)) == Permute(t.reshapeDims, PureTransposePerm(t, perm))
  {
    PermutationBounds(perm, |t.dims|);
    PureTransposeMatches(t);
    var r, p, q := t.reshapeDims, t.transposePerm, RenumberPerm(t.dims, perm);
    var pd := Permute(t.dims, perm);
    TK.DropPermuteCommute(t.dims, perm, |perm|);
    assert KeptSizes(pd, |pd|) == DropUnitSizes(pd);
    assert DropUnitSizes(pd) == Permute(Permute(r, p), q);
    RenumberPermutation(t.dims, perm);
    PermutationBounds(q, |r|);
    PermuteTwice(r, p, q);
  }

  /** Reading through `p` and then through `q` is reading through `p` read
      through `q`. */
  lemma PermuteTwice(r: seq<nat>, p: seq<nat>, q: seq<nat>)
    requires forall k :: 0 <= k < |p| ==> p[k] < |r|
    requires forall k :: 0 <= k < |q| ==> q[k] < |p|
    ensures Permute(Permute(r, p), q) == Permute(r, Permute(p, q))
  {
  }

  // ---------------------------------------------------------------------
  // Regrouping the prime factors

  /** Every group entry indexes the factor list. */
  ghost predicate GroupsIn(groups: seq<seq<nat>>, n: nat)
  {
    forall j, k :: 0 <= j < |groups| && 0 <= k < |groups[j]| ==> groups[j][k] < n
  }

  /** The first `i` groups multiply out to their targets. */
  ghost predicate GroupsDone(dims: seq<nat>, groups: seq<seq<nat>>, targets: seq<nat>, i: nat)
  {
    GroupsIn(groups, |dims|) && i <= |groups| && i <= |targets| &&
    forall j :: 0 <= j < i ==> Product(Permute(dims, groups[j])) == targets[j]
  }

  /** The groups so far consume the first `tpi` entries of the expanded
      permutation, in order, and the groups after `i` are still empty. */
  ghost predicate GroupsShape(groups: seq<seq<nat>>, n: nat, i: nat, decanonPerm: seq<nat>, tpi: nat, m: nat)
  {
    |groups| == n && GroupsIn(groups, m) && tpi <= |decanonPerm| &&
    Flatten(groups) == decanonPerm[..tpi] &&
    forall j :: i < j < n ==> groups[j] == []
  }

  /** `dims` holds the factors of `dims0` (all at least 2), each one still
      under the label of the position it started at. */
  ghost predicate RegroupedFactors(dims0: seq<nat>, dims: seq<nat>, labels: seq<nat>)
  {
    |dims| == |dims0| == |labels| &&
    multiset(dims) == multiset(dims0) &&
    multiset(Zip(labels, dims)) == multiset(Zip(labels, dims0)) &&
    AtLeastTwo(dims)
  }

  /** Entry `o` of the expanded permutation points at a factor labelled with
      the original dimension `origin[o]`. */
  ghost predicate LabelsMatch(labels: seq<nat>, decanonPerm: seq<nat>, origin: seq<nat>)
  {
    |origin| == |decanonPerm| &&
    forall o :: 0 <= o < |origin| ==> decanonPerm[o] < |labels| && labels[decanonPerm[o]] == origin[o]
  }

  /** Every index listed under original dimension `d` has origin `d`. */
  ghost predicate TableLists(table: seq<seq<nat>>, origin: seq<nat>)
  {
    (forall o :: 0 <= o < |origin| ==> origin[o] < |table|) &&
    forall d, j :: 0 <= d < |table| && 0 <= j < |table[d]| ==>
      table[d][j] < |origin| && origin[table[d][j]] == d
  }

  ghost predicate GroupingInput(dims0: seq<nat>, labels: seq<nat>, decanonPerm: seq<nat>,
                                origin: seq<nat>, table: seq<seq<nat>>, targets: seq<nat>)
  {
    |labels| == |dims0| && AtLeastTwo(dims0) && AtLeastTwo(targets) &&
    IsPermutation(decanonPerm, |dims0|) &&
    LabelsMatch(labels, decanonPerm, origin) && TableLists(table, origin) &&
    Product(targets) == Product(dims0)
  }

  lemma {:induction false} AllEmptyFlatten<T>(groups: seq<seq<T>>)
    requires forall j :: 0 <= j < |groups| ==> groups[j] == []
    ensures Flatten(groups) == []
  {
    if groups != [] {
      AllEmptyFlatten(groups[1..]);
    }
  }

  lemma InFlatten<T>(groups: seq<seq<T>>, j: nat, k: nat)
    requires j < |groups| && k < |groups[j]|
    ensures groups[j][k] in Flatten(groups)
  {
    FlattenSplit(groups, j);
    assert Flatten(groups)[|Flatten(groups[..j])| + k] == groups[j][k];
  }

  /** Adding to the last nonempty group adds at the end of the concatenation. */
  lemma ExtendLastGroup<T>(groups: seq<seq<T>>, i: nat, x: T)
    requires i < |groups| && forall j :: i < j < |groups| ==> groups[j] == []
    ensures Flatten(groups[i := groups[i] + [x]]) == Flatten(groups) + [x]
  {
    var g := groups[i := groups[i] + [x]];
    FlattenSplit(groups, i);
    FlattenSplit(g, i);
    assert g[..i] == groups[..i] && g[i + 1..] == groups[i + 1..];
    AllEmptyFlatten(groups[i + 1..]);
  }

  /** A swap at two positions of the expanded permutation at or after `tpi`
      leaves every factor the groups have taken where it was. */
  lemma SwapKeepsGroups(dims: seq<nat>, groups: seq<seq<nat>>, decanonPerm: seq<nat>, tpi: nat, other: nat)
    requires tpi <= other < |decanonPerm|
    requires GroupsIn(groups, |dims|) && Flatten(groups) == decanonPerm[..tpi]
    requires forall k :: 0 <= k < |decanonPerm| ==> decanonPerm[k] < |dims|
    requires forall a, b :: 0 <= a < |decanonPerm| && 0 <= b < |decanonPerm| && a != b ==> decanonPerm[a] != decanonPerm[b]
    ensures forall j :: 0 <= j < |groups| ==>
      Permute(Swap(dims, decanonPerm[tpi], decanonPerm[other]), groups[j]) == Permute(dims, groups[j])
  {
    var s := Swap(dims, decanonPerm[tpi], decanonPerm[other]);
    forall j | 0 <= j < |groups|
      ensures Permute(s, groups[j]) == Permute(dims, groups[j])
    {
      forall k | 0 <= k < |groups[j]|
        ensures s[groups[j][k]] == dims[groups[j][k]]
      {
        InFlatten(groups, j, k);
        var m :| 0 <= m < tpi && decanonPerm[m] == groups[j][k];
      }
    }
  }

  /** What `GenerateCandidate`'s swap keeps: the factors with their labels,
      the finished groups and the part of the current group already taken. */
  lemma CandidateSwapKeeps(dims0: seq<nat>, labels: seq<nat>, decanonPerm: seq<nat>, origin: seq<nat>,
                           targets: seq<nat>, i: nat, dims: seq<nat>, groups: seq<seq<nat>>,
                           tpi: nat, other: nat, target: nat)
    requires IsPermutation(decanonPerm, |dims0|) && LabelsMatch(labels, decanonPerm, origin)
    requires FillState(dims0, labels, decanonPerm, targets, i, dims, groups, tpi, target)
    requires tpi <= other < |decanonPerm| && origin[other] == origin[tpi]
    ensures decanonPerm[tpi] < |dims| && decanonPerm[other] < |dims|
    ensures FillState(dims0, labels, decanonPerm, targets, i,
                      Swap(dims, decanonPerm[tpi], decanonPerm[other]), groups, tpi, target)
  {
    PermutationFacts(decanonPerm, |dims0|);
    var a, b := decanonPerm[tpi], decanonPerm[other];
    var s := Swap(dims, a, b);
    SwapKeepsGroups(dims, groups, decanonPerm, tpi, other);
    ZipSwap(labels, dims, a, b);
    assert AtLeastTwo(s) by {
      forall k | 0 <= k < |s| ensures s[k] >= 2 {
        assert s[k] == dims[if k == a then b else if k == b then a else k];
      }
    }
  }

  /** Taking the factor at entry `tpi` into group `i` divides it out of the
      target. */
  lemma TakeFactor(dims0: seq<nat>, labels: seq<nat>, decanonPerm: seq<nat>, targets: seq<nat>,
                   i: nat, dims: seq<nat>, groups: seq<seq<nat>>, tpi: nat, target: nat)
    requires FillState(dims0, labels, decanonPerm, targets, i, dims, groups, tpi, target)
    requires tpi < |decanonPerm| && decanonPerm[tpi] < |dims|
    requires target % dims[decanonPerm[tpi]] == 0
    ensures dims[decanonPerm[tpi]] > 0
    ensures FillState(dims0, labels, decanonPerm, targets, i, dims,
                      groups[i := groups[i] + [decanonPerm[tpi]]], tpi + 1, target / dims[decanonPerm[tpi]])
  {
    var x := decanonPerm[tpi];
    var g := groups[i := groups[i] + [x]];
    assert dims[x] >= 2 by { assert AtLeastTwo(dims); }
    ExtendGroups(dims, targets, i, groups, decanonPerm, tpi);
    var p := Product(Permute(dims, groups[i]));
    assert Product(Permute(dims, g[i])) == p * dims[x] by {
      PermuteSnoc(dims, groups[i], x);
      ProductSnoc(Permute(dims, groups[i]), dims[x]);
    }
    DivideOutFactor(target, dims[x], p);
  }

  /** Appending entry `tpi` to group `i` keeps the groups consecutive
      slices of the expanded permutation and leaves the groups before `i`
      complete. */
  lemma ExtendGroups(dims: seq<nat>, targets: seq<nat>, i: nat, groups: seq<seq<nat>>,
                     decanonPerm: seq<nat>, tpi: nat)
    requires i < |targets| && GroupsShape(groups, |targets|, i, decanonPerm, tpi, |dims|)
    requires GroupsDone(dims, groups, targets, i)
    requires tpi < |decanonPerm| && decanonPerm[tpi] < |dims|
    ensures GroupsShape(groups[i := groups[i] + [decanonPerm[tpi]]], |targets|, i, decanonPerm, tpi + 1, |dims|)
    ensures GroupsDone(dims, groups[i := groups[i] + [decanonPerm[tpi]]], targets, i)
  {
    var x := decanonPerm[tpi];
    ExtendLastGroup(groups, i, x);
    assert decanonPerm[..tpi + 1] == decanonPerm[..tpi] + [x];
  }

  /** Moving an exact factor `c` from the remaining target to the product
      taken so far keeps their product. */
  lemma DivideOutFactor(target: nat, c: nat, p: nat)
    requires c > 0 && target % c == 0
    ensures (target / c) * (p * c) == target * p
  {
    var q := target / c;
    assert target == q * c;
    Regroup(q, c, p);
  }

  /** The state the inner grouping loop keeps: the factors are a labelled
      rearrangement of the originals, groups before `i` are complete, and
      `target` is what is left of target `i` after the factors taken so far. */
  ghost predicate FillState(dims0: seq<nat>, labels: seq<nat>, decanonPerm: seq<nat>, targets: seq<nat>,
                            i: nat, dims: seq<nat>, groups: seq<seq<nat>>, tpi: nat, target: nat)
  {
    i < |targets| &&
    RegroupedFactors(dims0, dims, labels) &&
    GroupsShape(groups, |targets|, i, decanonPerm, tpi, |dims|) &&
    GroupsDone(dims, groups, targets, i) &&
    target * Product(Permute(dims, groups[i])) == targets[i]
  }

  /** Entry `tpi` of the expanded permutation cannot extend the current
      group: its factor does not divide what is left of the target, and
      neither does the factor of any later entry listed under the same
      original dimension. */
  ghost predicate Stuck(dims: seq<nat>, decanonPerm: seq<nat>, origin: seq<nat>, table: seq<seq<nat>>,
                        target: nat, tpi: nat)
  {
    AtLeastTwo(dims) && tpi < |decanonPerm| == |origin| && origin[tpi] < |table| &&
    (forall k :: 0 <= k < |decanonPerm| ==> decanonPerm[k] < |dims|) &&
    target % dims[decanonPerm[tpi]] != 0 &&
    forall j :: 0 <= j < |table[origin[tpi]]| && tpi < table[origin[tpi]][j] < |decanonPerm| ==>
      target % dims[decanonPerm[table[origin[tpi]][j]]] != 0
  }

  /** Grouping gave up at target `i`: the groups before it are complete, the
      factors taken for it leave `target`, not 1, over, and the expanded
      permutation is either used up or stuck at its next entry. */
  ghost predicate FailedAt(dims: seq<nat>, groups: seq<seq<nat>>, decanonPerm: seq<nat>, origin: seq<nat>,
                           table: seq<seq<nat>>, targets: seq<nat>, i: nat, target: nat)
  {
    GroupsDone(dims, groups, targets, i) && i < |groups| && i < |targets| && target != 1 &&
    target * Product(Permute(dims, groups[i])) == targets[i] &&
    (|Flatten(groups)| == |decanonPerm| || Stuck(dims, decanonPerm, origin, table, target, |Flatten(groups)|))
  }

  lemma Regroup(q: nat, c: nat, p: nat)
    ensures (q * c) * p == q * (p * c)
  {
  }

  /** The products of the groups, one per group. */
  ghost function GroupProducts(dims: seq<nat>, groups: seq<seq<nat>>): (r: seq<nat>)
    requires GroupsIn(groups, |dims|)
    ensures |r| == |groups|
  {
    seq(|groups|, j requires 0 <= j < |groups| => Product(Permute(dims, groups[j])))
  }

  lemma {:induction false} FlattenIn(groups: seq<seq<nat>>, n: nat)
    requires GroupsIn(groups, n)
    ensures forall k :: 0 <= k < |Flatten<nat>(groups)| ==> Flatten<nat>(groups)[k] < n
  {
    if groups != [] {
      FlattenIn(groups[1..], n);
    }
  }

  /** The factors of all groups multiply to the product of the groups' products. */
  lemma {:induction false} ProductOfGroups(dims: seq<nat>, groups: seq<seq<nat>>)
    requires GroupsIn(groups, |dims|)
    ensures forall k :: 0 <= k < |Flatten<nat>(groups)| ==> Flatten<nat>(groups)[k] < |dims|
    ensures Product(Permute(dims, Flatten<nat>(groups))) == Product(GroupProducts(dims, groups))
  {
    FlattenIn(groups, |dims|);
    if groups != [] {
      var rest := groups[1..];
      assert GroupsIn(rest, |dims|);
      ProductOfGroups(dims, rest);
      FlattenIn(rest, |dims|);
      PermuteAppend(dims, groups[0], Flatten<nat>(rest));
      ProductAppend(Permute(dims, groups[0]), Permute(dims, Flatten<nat>(rest)));
      var p0 := Product(Permute(dims, groups[0]));
      assert GroupProducts(dims, groups) == [p0] + GroupProducts(dims, rest);
      ProductAppend([p0], GroupProducts(dims, rest));
      ProductSingleton(p0);
    }
  }

  lemma {:induction false} ProductOnes(n: nat)
    ensures Product(seq(n, _ => 1)) == 1
  {
    if n > 0 {
      ProductOnes(n - 1);
      assert seq(n, _ => 1) == seq(n - 1, _ => 1) + [1];
      ProductSnoc(seq(n - 1, _ => 1), 1);
    }
  }

  lemma GroupProductsSplit(dims: seq<nat>, groups: seq<seq<nat>>, targets: seq<nat>, i: nat)
    requires |groups| == |targets| && GroupsDone(dims, groups, targets, i)
    requires forall j :: i <= j < |groups| ==> groups[j] == []
    ensures GroupProducts(dims, groups) == targets[..i] + seq(|targets| - i, _ => 1)
  {
    var gp, want := GroupProducts(dims, groups), targets[..i] + seq(|targets| - i, _ => 1);
    forall j | 0 <= j < |gp| ensures gp[j] == want[j] {
      if j >= i {
        assert Permute(dims, groups[j]) == [];
      }
    }
  }

  /** The factors taken so far multiply to the product of the finished
      targets. */
  lemma TakenProduct(dims: seq<nat>, groups: seq<seq<nat>>, taken: seq<nat>, targets: seq<nat>, i: nat)
    requires i <= |targets| && GroupsIn(groups, |dims|) && Flatten<nat>(groups) == taken
    requires GroupProducts(dims, groups) == targets[..i] + seq(|targets| - i, _ => 1)
    ensures forall k :: 0 <= k < |taken| ==> taken[k] < |dims|
    ensures Product(Permute(dims, taken)) == Product(targets[..i])
  {
    var n := |targets|;
    ProductOfGroups(dims, groups);
    ProductAppend(targets[..i], seq(n - i, _ => 1));
    ProductOnes(n - i);
  }

  /** The grouping loop stops with every target met only once it has used
      every factor, and uses up every factor only once every target is met:
      the factors and the targets have the same product and are all at
      least 2. */
  lemma GroupingComplete(dims: seq<nat>, groups: seq<seq<nat>>, decanonPerm: seq<nat>,
                         targets: seq<nat>, i: nat, tpi: nat)
    requires IsPermutation(decanonPerm, |dims|) && AtLeastTwo(dims) && AtLeastTwo(targets)
    requires Product(targets) == Product(dims)
    requires i <= |targets| && GroupsShape(groups, |targets|, i, decanonPerm, tpi, |dims|)
    requires i < |targets| ==> groups[i] == []
    requires GroupsDone(dims, groups, targets, i)
    requires i == |targets| || tpi == |decanonPerm|
    ensures i == |targets| && tpi == |decanonPerm|
  {
    PermutationBounds(decanonPerm, |dims|);
    GroupProductsSplit(dims, groups, targets, i);
    TakenProduct(dims, groups, decanonPerm[..tpi], targets, i);
    var all := Permute(dims, decanonPerm);
    ProductPermute(dims, decanonPerm);
    assert Permute(dims, decanonPerm[..tpi]) == all[..tpi];
    assert AtLeastTwo(all);
    if i == |targets| {
      assert targets[..i] == targets;
      PrefixCarriesProduct(all, tpi);
    } else {
      assert all[..tpi] == all;
      PrefixCarriesProduct(targets, i);
    }
  }

  // ---------------------------------------------------------------------
  // The grouping loop

  /** Finds the factor for entry `tpi` of the expanded permutation: the one
      already there if it divides `target`, else the first later entry of
      the same original dimension whose factor divides it, which is swapped
      into place. */
  method GenerateCandidate(dims: seq<nat>, decanonPerm: seq<nat>, origin: seq<nat>,
                           candidates: seq<nat>, target: nat, tpi: nat)
    returns (r: Option<nat>, dims': seq<nat>, ghost other: nat)
    requires tpi < |decanonPerm| == |origin|
    requires forall k :: 0 <= k < |decanonPerm| ==> decanonPerm[k] < |dims|
    requires AtLeastTwo(dims)
    requires forall j :: 0 <= j < |candidates| ==>
      candidates[j] < |origin| && origin[candidates[j]] == origin[tpi]
    ensures tpi <= other < |decanonPerm| && origin[other] == origin[tpi]
    ensures dims' == Swap(dims, decanonPerm[tpi], decanonPerm[other])
    ensures r.Some? ==> r.value == decanonPerm[tpi] && target % dims'[r.value] == 0
    ensures r.None? ==> other == tpi && dims' == dims && target % dims[decanonPerm[tpi]] != 0
    ensures r.None? ==> forall j :: 0 <= j < |candidates| && candidates[j] > tpi ==>
      target % dims[decanonPerm[candidates[j]]] != 0
  {
    var reshapeDimIdx := decanonPerm[tpi];
    var cand := dims[reshapeDimIdx];
    assert Swap(dims, reshapeDimIdx, reshapeDimIdx) == dims;
    if target % cand == 0 {
      return Some(reshapeDimIdx), dims, tpi;
    }
    for j := 0 to |candidates|
      invariant forall j' :: 0 <= j' < j && candidates[j'] > tpi ==>
        target % dims[decanonPerm[candidates[j']]] != 0
    {
      var candidateIdx := candidates[j];
      if candidateIdx > tpi {
        var newReshapeDimIdx := decanonPerm[candidateIdx];
        var newCand := dims[newReshapeDimIdx];
        if target % newCand == 0 {
          dims' := Swap(dims, reshapeDimIdx, newReshapeDimIdx);
          return Some(reshapeDimIdx), dims', candidateIdx;
        }
      }
    }
    return None, dims, tpi;
  }

  /** The inner loop: keeps dividing target `i` by the next factor for as
      long as one is found. */
  method FillGroup(dims0: seq<nat>, ghost labels: seq<nat>, decanonPerm: seq<nat>, origin: seq<nat>,
                   table: seq<seq<nat>>, targets: seq<nat>, i: nat,
                   dims: seq<nat>, groups: seq<seq<nat>>, tpi: nat)
    returns (dims': seq<nat>, groups': seq<seq<nat>>, tpi': nat, target: nat)
    requires GroupingInput(dims0, labels, decanonPerm, origin, table, targets)
    requires i < |targets| && tpi < |decanonPerm|
    requires RegroupedFactors(dims0, dims, labels)
    requires GroupsShape(groups, |targets|, i, decanonPerm, tpi, |dims|) && groups[i] == []
    requires GroupsDone(dims, groups, targets, i)
    ensures RegroupedFactors(dims0, dims', labels)
    ensures GroupsShape(groups', |targets|, i, decanonPerm, tpi', |dims'|)
    ensures GroupsDone(dims', groups', targets, i)
    ensures target * Product(Permute(dims', groups'[i])) == targets[i]
    ensures tpi' == |decanonPerm| || Stuck(dims', decanonPerm, origin, table, target, tpi')
  {
    target := targets[i];
    groups', tpi' := groups, tpi;
    var r: Option<nat>;
    r, dims' := StartGroup(dims0, labels, decanonPerm, origin, table, targets, i, dims, groups, tpi);
    while r.Some?
      invariant FillState(dims0, labels, decanonPerm, targets, i, dims', groups', tpi', target)
      invariant r.Some? ==> tpi' < |decanonPerm| && r.value == decanonPerm[tpi'] && target % dims'[r.value] == 0
      invariant r.None? ==> tpi' == |decanonPerm| || Stuck(dims', decanonPerm, origin, table, target, tpi')
      decreases |decanonPerm| - tpi'
    {
      r, dims', groups', tpi', target := TakeAndFindNext(dims0, labels, decanonPerm, origin, table, targets, i,
                                                         dims', groups', tpi', target);
    }
  }

  /** Looks for the first factor of group `i`, which starts at entry `tpi`
      with the whole target left. */
  method StartGroup(dims0: seq<nat>, ghost labels: seq<nat>, decanonPerm: seq<nat>, origin: seq<nat>,
                    table: seq<seq<nat>>, targets: seq<nat>, i: nat,
                    dims: seq<nat>, groups: seq<seq<nat>>, tpi: nat)
    returns (r: Option<nat>, dims': seq<nat>)
    requires GroupingInput(dims0, labels, decanonPerm, origin, table, targets)
    requires i < |targets| && tpi < |decanonPerm|
    requires RegroupedFactors(dims0, dims, labels)
    requires GroupsShape(groups, |targets|, i, decanonPerm, tpi, |dims|) && groups[i] == []
    requires GroupsDone(dims, groups, targets, i)
    ensures FillState(dims0, labels, decanonPerm, targets, i, dims', groups, tpi, targets[i])
    ensures r.Some? ==> r.value == decanonPerm[tpi] && targets[i] % dims'[r.value] == 0
    ensures r.None? ==> Stuck(dims', decanonPerm, origin, table, targets[i], tpi)
  {
    PermutationFacts(decanonPerm, |dims0|);
    assert Permute(dims, groups[i]) == [];
    var next: seq<nat>;
    ghost var other: nat;
    r, next, other := GenerateCandidate(dims, decanonPerm, origin, table[origin[tpi]], targets[i], tpi);
    CandidateSwapKeeps(dims0, labels, decanonPerm, origin, targets, i, dims, groups, tpi, other, targets[i]);
    dims' := next;
  }

  /** One turn of the inner loop: divides the current factor out of the
      target, appends it to group `i` and looks for the next one. */
  method TakeAndFindNext(dims0: seq<nat>, ghost labels: seq<nat>, decanonPerm: seq<nat>, origin: seq<nat>,
                         table: seq<seq<nat>>, targets: seq<nat>, i: nat,
                         dims: seq<nat>, groups: seq<seq<nat>>, tpi: nat, target: nat)
    returns (r: Option<nat>, dims': seq<nat>, groups': seq<seq<nat>>, tpi': nat, target': nat)
    requires GroupingInput(dims0, labels, decanonPerm, origin, table, targets)
    requires FillState(dims0, labels, decanonPerm, targets, i, dims, groups, tpi, target)
    requires tpi < |decanonPerm| && decanonPerm[tpi] < |dims| && target % dims[decanonPerm[tpi]] == 0
    ensures tpi' == tpi + 1
    ensures FillState(dims0, labels, decanonPerm, targets, i, dims', groups', tpi', target')
    ensures r.Some? ==> tpi' < |decanonPerm| && r.value == decanonPerm[tpi'] && target' % dims'[r.value] == 0
    ensures r.None? ==> tpi' == |decanonPerm| || Stuck(dims', decanonPerm, origin, table, target', tpi')
  {
    TakeFactor(dims0, labels, decanonPerm, targets, i, dims, groups, tpi, target);
    var x := decanonPerm[tpi];
    target' := target / dims[x];
    groups' := groups[i := groups[i] + [x]];
    tpi' := tpi + 1;
    dims' := dims;
    if tpi' < |decanonPerm| {
      var next: seq<nat>;
      ghost var other: nat;
      r, next, other := GenerateCandidate(dims', decanonPerm, origin, table[origin[tpi']], target', tpi');
      CandidateSwapKeeps(dims0, labels, decanonPerm, origin, targets, i, dims', groups', tpi', other, target');
      dims' := next;
    } else {
      r := None;
    }
  }

  /** Groups the factors, in the order of the expanded permutation, into
      runs whose products are the targets, one run per target; fails as soon
      as a target cannot be completed. */
  method GroupFactors(dims0: seq<nat>, ghost labels: seq<nat>, decanonPerm: seq<nat>,
                      origin: seq<nat>, table: seq<seq<nat>>, targets: seq<nat>)
    returns (ok: bool, dims: seq<nat>, groups: seq<seq<nat>>)
    requires GroupingInput(dims0, labels, decanonPerm, origin, table, targets)
    ensures RegroupedFactors(dims0, dims, labels)
    ensures |groups| == |targets| && GroupsIn(groups, |dims|)
    ensures ok ==> Flatten(groups) == decanonPerm && GroupsDone(dims, groups, targets, |targets|)
    ensures !ok ==> exists i, target :: FailedAt(dims, groups, decanonPerm, origin, table, targets, i, target)
  {
    var n, dn := |targets|, |decanonPerm|;
    dims := dims0;
    groups := seq(n, _ => []);
    var tpi: nat := 0;
    var i: nat := 0;
    AllEmptyFlatten(groups);
    while i < n && tpi < dn
      invariant i <= n
      invariant RegroupedFactors(dims0, dims, labels)
      invariant GroupsShape(groups, n, i, decanonPerm, tpi, |dims|)
      invariant i < n ==> groups[i] == []
      invariant GroupsDone(dims, groups, targets, i)
    {
      var target;
      dims, groups, tpi, target := FillGroup(dims0, labels, decanonPerm, origin, table, targets, i, dims, groups, tpi);
      if target != 1 {
        assert FailedAt(dims, groups, decanonPerm, origin, table, targets, i, target);
        return false, dims, groups;
      }
      i := i + 1;
    }
    PermutationBounds(decanonPerm, |dims0|);
    ProductMultiset(dims, dims0);
    GroupingComplete(dims, groups, decanonPerm, targets, i, tpi);
    assert decanonPerm[..dn] == decanonPerm;
    ok := true;
  }

  // ---------------------------------------------------------------------
  // Labels: which original reshape dimension each factor position belongs to

  lemma {:induction false} OffsetMono(r: seq<nat>, a: nat, b: nat)
    requires AllPositive(r) && a <= b <= |r|
    ensures Offset(r, a) <= Offset(r, b)
  {
    if a < b {
      OffsetMono(r, a, b - 1);
      FactorListsSnoc(r, b - 1);
    }
  }

  /** `labels` gives each of the first `Offset(r, k)` factor positions the
      reshape dimension whose block holds it. */
  ghost predicate LabelledPrefix(r: seq<nat>, labels: seq<nat>, k: nat)
    requires AllPositive(r) && k <= |r|
  {
    |labels| == Offset(r, k) &&
    forall q :: 0 <= q < |labels| ==>
      labels[q] < k && Offset(r, labels[q]) <= q < Offset(r, labels[q] + 1)
  }

  lemma {:induction false} LabelsPrefix(r: seq<nat>, k: nat)
    requires AllPositive(r) && k <= |r|
    ensures LabelledPrefix(r, Flatten(Repeats(r)[..k]), k)
  {
    var reps := Repeats(r);
    if k == 0 {
      assert reps[..0] == [];
      assert r[..0] == [];
      assert FactorLists(r[..0]) == [];
    } else {
      LabelsPrefix(r, k - 1);
      assert reps[..k] == reps[..k - 1] + [reps[k - 1]];
      FlattenSnoc(reps[..k - 1], reps[k - 1]);
      LabelledSnoc(r, Flatten(reps[..k - 1]), k - 1);
    }
  }

  /** Appending the labels of block `k` extends a labelled prefix by one
      reshape dimension. */
  lemma LabelledSnoc(r: seq<nat>, labels: seq<nat>, k: nat)
    requires AllPositive(r) && k < |r| && LabelledPrefix(r, labels, k)
    ensures LabelledPrefix(r, labels + Repeats(r)[k], k + 1)
  {
    RepeatsAt(r, k);
    var ext := labels + Repeats(r)[k];
    forall q | 0 <= q < |ext|
      ensures ext[q] < k + 1 && Offset(r, ext[q]) <= q < Offset(r, ext[q] + 1)
    {
      if q < |labels| {
        assert ext[q] == labels[q];
      } else {
        assert ext[q] == Repeats(r)[k][q - |labels|] == k;
      }
    }
  }

  /** The repeats of block `k` are `k`, once per factor position of the
      block. */
  lemma RepeatsAt(r: seq<nat>, k: nat)
    requires AllPositive(r) && k < |r|
    ensures Offset(r, k) <= Offset(r, k + 1) && |Repeats(r)[k]| == Offset(r, k + 1) - Offset(r, k)
    ensures forall t :: 0 <= t < |Repeats(r)[k]| ==> Repeats(r)[k][t] == k
  {
    BlockAndRepeatLength(r, k);
  }

  /** The labels of all factor positions: `Flatten(Repeats(r))`. */
  lemma Labels(r: seq<nat>)
    requires AllPositive(r)
    ensures LabelledPrefix(r, Flatten(Repeats(r)), |r|)
    ensures |Flatten(Repeats(r))| == |Flatten(FactorLists(r))|
  {
    LabelsPrefix(r, |r|);
    assert Repeats(r)[..|r|] == Repeats(r);
    assert r[..|r|] == r;
  }

  /** A position lies in the block of exactly one reshape dimension. */
  lemma BlocksDisjoint(r: seq<nat>, d: nat, e: nat, q: nat)
    requires AllPositive(r) && d < |r| && e < |r|
    requires Offset(r, d) <= q < Offset(r, d + 1) && Offset(r, e) <= q < Offset(r, e + 1)
    ensures d == e
  {
    if d < e {
      OffsetMono(r, d + 1, e);
    } else if e < d {
      OffsetMono(r, e + 1, d);
    }
  }

  /** The expanded permutation points every entry at a position labelled
      with the original dimension it is recorded against. */
  lemma ExpandedLabels(r: seq<nat>, p: seq<nat>)
    requires AllPositive(r) && forall k :: 0 <= k < |p| ==> p[k] < |r|
    ensures LabelsMatch(Flatten(Repeats(r)), Flatten(Permute(Blocks(r), p)), Flatten(Permute(Repeats(r), p)))
  {
    ExpandedEntriesInBlocks(r, p);
    Labels(r);
    BlockLabels(r, Flatten(Repeats(r)), Flatten(Permute(Blocks(r), p)), Flatten(Permute(Repeats(r), p)));
  }

  /** Entries that lie in the blocks they are recorded against point at
      positions carrying those labels. */
  lemma BlockLabels(r: seq<nat>, labels: seq<nat>, dp: seq<nat>, origin: seq<nat>)
    requires AllPositive(r) && LabelledPrefix(r, labels, |r|) && EntriesInBlocks(r, dp, origin)
    ensures LabelsMatch(labels, dp, origin)
  {
    forall o | 0 <= o < |origin|
      ensures dp[o] < |labels| && labels[dp[o]] == origin[o]
    {
      var d := origin[o];
      OffsetMono(r, d + 1, |r|);
      BlocksDisjoint(r, d, labels[dp[o]], dp[o]);
    }
  }

  lemma TableListsPositions(table: seq<seq<nat>>, origin: seq<nat>, n: nat)
    requires PositionsTable(table, origin, n)
    requires forall o :: 0 <= o < |origin| ==> origin[o] < n
    ensures TableLists(table, origin)
  {
    forall d | 0 <= d < n
      ensures forall j :: 0 <= j < |table[d]| ==> table[d][j] < |origin| && origin[table[d][j]] == d
    {
      PositionsCorrect(origin, d);
    }
  }

  // ---------------------------------------------------------------------
  // The general transpose

  /** `factors` is the prime factor list of the reshape dimensions with
      factors exchanged only inside one original dimension's block, and
      `groups` splits the expanded permutation, in order, into one run per
      non-unit size whose factors multiply to that size. */
  ghost predicate Regrouped(t: IotaTileAssignment, factors: seq<nat>, groups: seq<seq<nat>>)
    requires Valid(t)
  {
    var r, p := t.reshapeDims, t.transposePerm;
    PermutationBounds(p, |r|);
    RegroupedFactors(Flatten(FactorLists(r)), factors, Flatten(Repeats(r))) &&
    |groups| == |DropUnitSizes(t.dims)| &&
    Flatten(groups) == Flatten(Permute(Blocks(r), p)) &&
    GroupsDone(factors, groups, DropUnitSizes(t.dims), |groups|)
  }

  /** The general path gave up: grouping the factors, in the order of the
      expanded permutation and searching the positions of each reshape
      dimension within it, stopped at a non-unit size of `t` it could not
      complete. */
  ghost predicate RegroupFailed(t: IotaTileAssignment, factors: seq<nat>, groups: seq<seq<nat>>)
    requires Valid(t)
  {
    var r, p := t.reshapeDims, t.transposePerm;
    PermutationBounds(p, |r|);
    var origin := Flatten(Permute(Repeats(r), p));
    var table := seq(|r|, d requires 0 <= d < |r| => Positions(origin, d));
    RegroupedFactors(Flatten(FactorLists(r)), factors, Flatten(Repeats(r))) &&
    exists i, target :: FailedAt(factors, groups, Flatten(Permute(Blocks(r), p)), origin,
                                 table, DropUnitSizes(t.dims), i, target)
  }

  /** What grouping reports when it gives up is the failure of the general
      path. */
  lemma GroupingFailed(t: IotaTileAssignment, table: seq<seq<nat>>, factors: seq<nat>, groups: seq<seq<nat>>,
                       i: nat, target: nat)
    requires Valid(t) && PermutationBoundsHold(t)
    requires PositionsTable(table, Flatten(Permute(Repeats(t.reshapeDims), t.transposePerm)), |t.reshapeDims|)
    requires RegroupedFactors(Flatten(FactorLists(t.reshapeDims)), factors, Flatten(Repeats(t.reshapeDims)))
    requires FailedAt(factors, groups, Flatten(Permute(Blocks(t.reshapeDims), t.transposePerm)),
                      Flatten(Permute(Repeats(t.reshapeDims), t.transposePerm)),
                      table, DropUnitSizes(t.dims), i, target)
    ensures RegroupFailed(t, factors, groups)
  {
    var r := t.reshapeDims;
    var origin := Flatten(Permute(Repeats(r), t.transposePerm));
    var positions := seq(|r|, d requires 0 <= d < |r| => Positions(origin, d));
    assert table == positions;
    assert FailedAt(factors, groups, Flatten(Permute(Blocks(r), t.transposePerm)), origin,
                    positions, DropUnitSizes(t.dims), i, target);
  }

  /** The new permutation of the general path: the groups, concatenated in
      the new order of the non-unit axes, form a permutation of the factors. */
  lemma RegroupedPermutation(t: IotaTileAssignment, perm: seq<nat>, factors: seq<nat>, groups: seq<seq<nat>>)
    requires Valid(t) && IsPermutation(perm, |t.dims|) && Regrouped(t, factors, groups)
    ensures forall k :: 0 <= k < |perm| ==> perm[k] < |t.dims|
    ensures forall k :: 0 <= k < |RenumberPerm(t.dims, perm)| ==> RenumberPerm(t.dims, perm)[k] < |groups|
    ensures IsPermutation(Flatten(Permute(groups, RenumberPerm(t.dims, perm))), |factors|)
  {
    PermutationBounds(t.transposePerm, |t.reshapeDims|);
    RenumberPermutation(t.dims, perm);
    var q := RenumberPerm(t.dims, perm);
    PermutationBounds(q, |groups|);
    FlattenPermuted(groups, q);
    ExpandedPermutation(t.reshapeDims, t.transposePerm);
  }

  /** The result of the general path, before canonicalisation: the new
      sizes over the regrouped factors and the concatenated groups. */
  ghost function RegroupTransposed(t: IotaTileAssignment, perm: seq<nat>, factors: seq<nat>,
                                   groups: seq<seq<nat>>): IotaTileAssignment
    requires Valid(t) && IsPermutation(perm, |t.dims|) && Regrouped(t, factors, groups)
  {
    RegroupedPermutation(t, perm, factors, groups);
    Created(Permute(t.dims, perm), factors, Flatten(Permute(groups, RenumberPerm(t.dims, perm))))
  }

  /** The general path yields a well-formed assignment with the transposed
      sizes. */
  lemma RegroupedValid(t: IotaTileAssignment, perm: seq<nat>, factors: seq<nat>, groups: seq<seq<nat>>)
    requires Valid(t) && |t.reshapeDims| > 1
    requires IsPermutation(perm, |t.dims|) && Regrouped(t, factors, groups)
    ensures forall k :: 0 <= k < |perm| ==> perm[k] < |t.dims|
    ensures Valid(RegroupTransposed(t, perm, factors, groups))
    ensures RegroupTransposed(t, perm, factors, groups).dims == Permute(t.dims, perm)
  {
    var r := t.reshapeDims;
    RegroupedPermutation(t, perm, factors, groups);
    ProductPermute(t.dims, perm);
    FactorsProduct(r);
    ProductMultiset(factors, Flatten(FactorLists(r)));
    assert AtLeastTwo(r) by {
      forall k | 0 <= k < |r| ensures r[k] >= 2 {
        assert r[k] in r;
      }
    }
    ProductAtLeastTwo(r);
    assert factors != [];
    assert AllPositive(factors);
    CreatedValid(Permute(t.dims, perm), factors, Flatten(Permute(groups, RenumberPerm(t.dims, perm))));
  }

  /** After the general path, the groups read in the new axis order
      multiply out to the new non-unit sizes, one group per new non-unit
      axis, and they concatenate to the new permutation. */
  lemma RegroupedMatchesNewDims(t: IotaTileAssignment, perm: seq<nat>, factors: seq<nat>, groups: seq<seq<nat>>)
    requires Valid(t) && IsPermutation(perm, |t.dims|) && Regrouped(t, factors, groups)
    ensures forall k :: 0 <= k < |perm| ==> perm[k] < |t.dims|
    ensures forall k :: 0 <= k < |RenumberPerm(t.dims, perm)| ==> RenumberPerm(t.dims, perm)[k] < |groups|
    ensures GroupsDone(factors, Permute(groups, RenumberPerm(t.dims, perm)),
                       DropUnitSizes(Permute(t.dims, perm)), |DropUnitSizes(Permute(t.dims, perm))|)
  {
    RegroupedPermutation(t, perm, factors, groups);
    var q := RenumberPerm(t.dims, perm);
    var nd := DropUnitSizes(t.dims);
    TK.DropPermuteCommute(t.dims, perm, |perm|);
    assert DropUnitSizes(Permute(t.dims, perm)) == Permute(nd, q);
    var g := Permute(groups, q);
    assert GroupsIn(g, |factors|);
  }

  /** What the grouping loop needs, established from the decanonicalised
      reshape dimensions. */
  lemma GroupingReady(t: IotaTileAssignment, table: seq<seq<nat>>)
    requires Valid(t) && PermutationBoundsHold(t)
    requires PositionsTable(table, Flatten(Permute(Repeats(t.reshapeDims), t.transposePerm)), |t.reshapeDims|)
    ensures GroupingInput(Flatten(FactorLists(t.reshapeDims)), Flatten(Repeats(t.reshapeDims)),
                          Flatten(Permute(Blocks(t.reshapeDims), t.transposePerm)),
                          Flatten(Permute(Repeats(t.reshapeDims), t.transposePerm)),
                          table, DropUnitSizes(t.dims))
  {
    var r, p := t.reshapeDims, t.transposePerm;
    var dims0, labels := Flatten(FactorLists(r)), Flatten(Repeats(r));
    var dp, origin := Flatten(Permute(Blocks(r), p)), Flatten(Permute(Repeats(r), p));
    var targets := DropUnitSizes(t.dims);
    assert |labels| == |dims0| by { Labels(r); }
    assert AtLeastTwo(dims0) by { FactorsPrime(r); }
    assert AtLeastTwo(targets) by { DroppedAtLeastTwo(t.dims); }
    assert IsPermutation(dp, |dims0|) by { ExpandedPermutation(r, p); }
    assert LabelsMatch(labels, dp, origin) by { ExpandedLabels(r, p); }
    assert TableLists(table, origin) by {
      ExpandedEntriesInBlocks(r, p);
      TableListsPositions(table, origin, |r|);
    }
    assert Product(targets) == Product(dims0) by {
      DropUnitSizesFacts(t.dims);
      FactorsProduct(r);
    }
  }

  /** The general path: expand into prime factors, regroup them to match
      the non-unit sizes and concatenate the groups in the new axis order. */
  method RegroupTranspose(t: IotaTileAssignment, perm: seq<nat>, newDims: seq<nat>,
                          nonOneDims: seq<nat>, oneToNonOne: seq<int>)
    returns (r: Option<IotaTileAssignment>, ghost factors: seq<nat>, ghost groups: seq<seq<nat>>)
    requires Valid(t) && |t.reshapeDims| > 1 && IsPermutation(perm, |t.dims|)
    requires forall k :: 0 <= k < |perm| ==> perm[k] < |t.dims|
    requires newDims == Permute(t.dims, perm)
    requires nonOneDims == DropUnitSizes(t.dims) && UnitMap(t.dims, oneToNonOne)
    ensures r.Some? ==> Regrouped(t, factors, groups) && r.value == RegroupTransposed(t, perm, factors, groups)
    ensures r.None? ==> RegroupFailed(t, factors, groups)
  {
    ValidBounds(t);
    var info := FullyDecanonicalize(t.reshapeDims, t.transposePerm);
    var decanonDims := info.newReshapeDims;
    var decanonPerm := info.newTransposePerm;
    var origin := info.permIdxToOriginalDim;
    var table := info.originalDimToPermIndices;
    ghost var labels := Flatten(Repeats(t.reshapeDims));
    GroupingReady(t, table);
    var ok, regrouped, grouped := GroupFactors(decanonDims, labels, decanonPerm, origin, table, nonOneDims);
    factors, groups := regrouped, grouped;
    if !ok {
      ghost var i: nat, target: nat :| FailedAt(factors, groups, decanonPerm, origin, table, nonOneDims, i, target);
      GroupingFailed(t, table, factors, groups, i, target);
      return None, factors, groups;
    }
    assert Regrouped(t, factors, groups);
    var flattened := FlattenGroups(t.dims, perm, oneToNonOne, grouped);
    RegroupedValid(t, perm, factors, groups);
    RegroupedPermutation(t, perm, factors, groups);
    PermutationBounds(flattened, |factors|);
    assert |flattened| == |decanonPerm|;
    ProductPermute(t.dims, perm);
    FactorsProduct(t.reshapeDims);
    ProductMultiset(regrouped, decanonDims);
    var c := Create(newDims, regrouped, flattened);
    r := Some(c);
  }

  /** The transposed sizes. */
  ghost function TransposedDims(t: IotaTileAssignment, perm: seq<nat>): (d: seq<nat>)
    requires IsPermutation(perm, |t.dims|)
    ensures |d| == |t.dims|
  {
    PermutationBounds(perm, |t.dims|);
    Permute(t.dims, perm)
  }

  /** How `perm` acts on the sizes of `t`. */
  ghost function Kind(t: IotaTileAssignment, perm: seq<nat>): TK.TransposeKind
    requires IsPermutation(perm, |t.dims|)
  {
    PermutationBounds(perm, |t.dims|);
    TK.KindOf(t.dims, perm)
  }

  /** The non-unit sizes of `t` are its reshape dimensions in transposed
      order. */
  ghost predicate PureCase(t: IotaTileAssignment)
    requires Valid(t)
  {
    ValidBounds(t);
    IsPureTranspose(DropUnitSizes(t.dims), t.reshapeDims, t.transposePerm)
  }

  /** The result of the pure-transpose path, before canonicalisation: the
      same reshape dimensions under the composed permutation. */
  ghost function PureTransposed(t: IotaTileAssignment, perm: seq<nat>): IotaTileAssignment
    requires Valid(t) && IsPermutation(perm, |t.dims|) && |t.reshapeDims| > 1 && PureCase(t)
  {
    ValidBounds(t);
    Created(TransposedDims(t, perm), t.reshapeDims, PureTransposePerm(t, perm))
  }

  /** The pure-transpose path: one non-unit size per reshape dimension, so
      the reshape dimensions stay and only the permutation changes. */
  method PureTranspose(t: IotaTileAssignment, perm: seq<nat>, newDims: seq<nat>, oneToNonOne: seq<int>)
    returns (c: IotaTileAssignment)
    requires Valid(t) && |t.reshapeDims| > 1 && IsPermutation(perm, |t.dims|) && PureCase(t)
    requires newDims == TransposedDims(t, perm) && UnitMap(t.dims, oneToNonOne)
    ensures c == PureTransposed(t, perm) && Valid(c) && c.dims == newDims
    ensures ToArray(c) == D.TransposeDimensions(ToArray(t), perm)
  {
    PermutationBounds(perm, |t.dims|);
    ValidBounds(t);
    PureTransposeMatches(t);
    ghost var expected := PureTransposePerm(t, perm);
    var newPerm := PurePerm(t.dims, perm, t.transposePerm, oneToNonOne);
    assert newPerm == expected;
    assert |newPerm| == |t.reshapeDims|;
    ProductPermute(t.dims, perm);
    c := Create(newDims, t.reshapeDims, newPerm);
    CreatedValid(newDims, t.reshapeDims, newPerm);
    PureTransposeArray(t, perm);
  }

  // ---------------------------------------------------------------------
  // What the fast paths stand for

  /** When `perm` reorders no non-unit axes, keeping the reshape dimensions
      and permutation under the new sizes stands for the transposed array. */
  lemma NoReorderArray(t: IotaTileAssignment, perm: seq<nat>)
    requires Valid(t) && IsPermutation(perm, |t.dims|) && Kind(t, perm) != TK.Transpose
    ensures Valid(Created(TransposedDims(t, perm), t.reshapeDims, t.transposePerm))
    ensures ToArray(Created(TransposedDims(t, perm), t.reshapeDims, t.transposePerm)) ==
            D.TransposeDimensions(ToArray(t), perm)
  {
    PermutationBounds(perm, |t.dims|);
    ProductPermute(t.dims, perm);
    CreatedValid(TransposedDims(t, perm), t.reshapeDims, t.transposePerm);
    CreateCanonicalUnchanged(TransposedDims(t, perm), t.reshapeDims, t.transposePerm);
    TA.NoReorderKeepsValues(ToArray(t), perm);
  }

  /** With a single reshape dimension the array is the plain count-up over
      `dims`, so creating from `dims` and `perm` stands for its transpose. */
  lemma SingleReshapeArray(t: IotaTileAssignment, perm: seq<nat>)
    requires Valid(t) && IsPermutation(perm, |t.dims|) && |t.reshapeDims| == 1
    requires Kind(t, perm) == TK.Transpose
    ensures |t.dims| >= 1 && Product(TransposedDims(t, perm)) == Product(t.dims)
    ensures Valid(Created(TransposedDims(t, perm), t.dims, perm))
    ensures ToArray(Created(TransposedDims(t, perm), t.dims, perm)) == D.TransposeDimensions(ToArray(t), perm)
  {
    PermutationFacts(perm, |t.dims|);
    ProductPermute(t.dims, perm);
    assert |t.dims| >= 1;
    SingleReshapeCountsUp(t);
    CreatedArray(TransposedDims(t, perm), t.dims, perm);
  }

  /** With one reshape axis, the array is the plain count-up under the
      sizes. */
  lemma SingleReshapeCountsUp(t: IotaTileAssignment)
    requires Valid(t) && |t.reshapeDims| == 1
    ensures ToArray(t) == D.IotaArray(t.dims)
  {
    PermutationFacts(t.transposePerm, 1);
    assert t.transposePerm == [0];
    var n := t.reshapeDims[0];
    assert t.reshapeDims == [n];
    ProductSingleton(n);
    forall k | 0 <= k < n
      ensures ToArray(t).values[k] == k
    {
      SingleAxisOffset(n, k);
    }
  }

  /** In the pure case, the element that transposing by `perm` reads is the
      one the new permutation reads: dropping the size-1 axes leaves the
      reshape dimensions in transposed order, and two transposes of the
      count-up are one. */
  lemma PureTransposeOffset(t: IotaTileAssignment, perm: seq<nat>, k: nat)
    requires Valid(t) && IsPermutation(perm, |t.dims|) && |t.reshapeDims| > 1 && PureCase(t)
    requires k < Product(t.dims)
    ensures PermutationBoundsHold(t)
    ensures D.SourceOffset(t.reshapeDims, PureTransposePerm(t, perm), k) ==
            D.SourceOffset(t.reshapeDims, t.transposePerm, D.SourceOffset(t.dims, perm, k))
  {
    ValidBounds(t);
    PureTransposeMatches(t);
    TA.UnitAxesOffset(t.dims, perm, k);
    TA.ComposeOffset(t.reshapeDims, t.transposePerm, RenumberPerm(t.dims, perm), k);
  }

  /** The pure-transpose result stands for the transposed array. */
  lemma PureTransposeArray(t: IotaTileAssignment, perm: seq<nat>)
    requires Valid(t) && IsPermutation(perm, |t.dims|) && |t.reshapeDims| > 1 && PureCase(t)
    ensures Valid(PureTransposed(t, perm))
    ensures ToArray(PureTransposed(t, perm)) == D.TransposeDimensions(ToArray(t), perm)
  {
    ValidBounds(t);
    PermutationBounds(perm, |t.dims|);
    ProductPermute(t.dims, perm);
    CreatedArray(TransposedDims(t, perm), t.reshapeDims, PureTransposePerm(t, perm));
    var a := ToArray(PureTransposed(t, perm));
    var b := D.TransposeDimensions(ToArray(t), perm);
    forall k | 0 <= k < |a.values|
      ensures a.values[k] == b.values[k]
    {
      PureTransposeOffset(t, perm, k);
    }
  }

  /** Transposes the tile assignment by `perm` while keeping it in iota
      form, or gives up when the general path cannot regroup the factors. */
  method Transpose(t: IotaTileAssignment, perm: seq<nat>)
    returns (r: Option<IotaTileAssignment>, ghost factors: seq<nat>, ghost groups: seq<seq<nat>>)
    requires Valid(t) && IsPermutation(perm, |t.dims|)
    ensures r.Some? ==> Valid(r.value) && r.value.dims == TransposedDims(t, perm)
    ensures Kind(t, perm) == TK.Noop ==> r == Some(t)
    ensures Kind(t, perm) == TK.Reshape ==>
      r == Some(Created(TransposedDims(t, perm), t.reshapeDims, t.transposePerm))
    ensures Kind(t, perm) == TK.Transpose && |t.reshapeDims| == 1 ==>
      r == Some(Created(TransposedDims(t, perm), t.dims, perm))
    ensures Kind(t, perm) == TK.Transpose && |t.reshapeDims| > 1 && PureCase(t) ==>
      r == Some(PureTransposed(t, perm))
    ensures Kind(t, perm) == TK.Transpose && |t.reshapeDims| > 1 && !PureCase(t) && r.Some? ==>
      Regrouped(t, factors, groups) && r.value == RegroupTransposed(t, perm, factors, groups)
    ensures r.None? ==>
      Kind(t, perm) == TK.Transpose && |t.reshapeDims| > 1 && !PureCase(t) && RegroupFailed(t, factors, groups)
    ensures r.Some? && (Kind(t, perm) != TK.Transpose || |t.reshapeDims| == 1 || PureCase(t)) ==>
      ToArray(r.value) == D.TransposeDimensions(ToArray(t), perm)
  {
    PermutationBounds(perm, |t.dims|);
    ValidBounds(t);
    var dims := t.dims;
    var kind := TK.GetTransposeKind(dims, perm);
    if kind == TK.Noop {
      TK.NoopKeepsDims(dims, perm);
      TA.NoopKeepsArray(ToArray(t), perm);
      return Some(t), [], [];
    }
    var newDims := PermuteDims(dims, perm);
    ProductPermute(dims, perm);
    if kind == TK.Reshape {
      var c := Create(newDims, t.reshapeDims, t.transposePerm);
      NoReorderArray(t, perm);
      return Some(c), [], [];
    }
    if |t.reshapeDims| == 1 {
      var c := Create(newDims, dims, perm);
      SingleReshapeArray(t, perm);
      return Some(c), [], [];
    }
    var nonOneDims, oneToNonOne, isPure := ScanNonUnitDims(dims, t.reshapeDims, t.transposePerm);
    if isPure {
      var c := PureTranspose(t, perm, newDims, oneToNonOne);
      PureTransposeArray(t, perm);
      return Some(c), [], [];
    }
    r, factors, groups := RegroupTranspose(t, perm, newDims, nonOneDims, oneToNonOne);
    if r.Some? {
      RegroupedValid(t, perm, factors, groups);
    }
  }
}
