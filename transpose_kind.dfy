/** Classifying an axis permutation of a tile array: nothing moves, only
    size-1 axes move (the flat order is unchanged), or a real transpose. */
module TransposeKinds {
  import opened Permutations
  import opened Shapes
  import opened Canonicalization

  datatype TransposeKind = Noop | Reshape | Transpose

  /** Position `i` of `perm` names an axis of size other than 1. */
  ghost predicate NonUnitAt(dims: seq<nat>, perm: seq<nat>, i: nat)
    requires i < |perm| && perm[i] < |dims|
  {
    dims[perm[i]] != 1
  }

  /** Two axes of size other than 1 change their relative order. */
  ghost predicate ReordersNonUnitAxes(dims: seq<nat>, perm: seq<nat>)
    requires forall i :: 0 <= i < |perm| ==> perm[i] < |dims|
  {
    exists i, j :: 0 <= i < j < |perm| && NonUnitAt(dims, perm, i) && NonUnitAt(dims, perm, j) && perm[j] <= perm[i]
  }

  /** Position `i` receives a size-1 axis from elsewhere while its own axis
      has a size other than 1. */
  ghost predicate UnitMoveAt(dims: seq<nat>, perm: seq<nat>, i: nat)
    requires i < |perm| <= |dims| && perm[i] < |dims|
  {
    dims[perm[i]] == 1 && perm[i] != i && dims[i] != 1
  }

  ghost predicate MovesUnitAxis(dims: seq<nat>, perm: seq<nat>)
    requires |perm| <= |dims| && forall i :: 0 <= i < |perm| ==> perm[i] < |dims|
  {
    exists i :: 0 <= i < |perm| && UnitMoveAt(dims, perm, i)
  }

  /** The classification, stated declaratively. */
  ghost function KindOf(dims: seq<nat>, perm: seq<nat>): TransposeKind
    requires |perm| <= |dims| && forall i :: 0 <= i < |perm| ==> perm[i] < |dims|
  {
    if ReordersNonUnitAxes(dims, perm) then Transpose
    else if MovesUnitAxis(dims, perm) then Reshape
    else Noop
  }

  /** One left-to-right sweep over `perm`, remembering the last axis of size
      other than 1: an axis at or before it means a real transpose. */
  method GetTransposeKind(dims: seq<nat>, perm: seq<nat>) returns (kind: TransposeKind)
    requires |perm| <= |dims|
    requires forall i :: 0 <= i < |perm| ==> perm[i] < |dims|
    ensures kind == KindOf(dims, perm)
  {
    kind := Noop;
    var prevNonOneDim: int := -1;
    ghost var last: nat := 0;
    for i := 0 to |perm|
      invariant prevNonOneDim == -1 ==> forall a :: 0 <= a < i ==> !NonUnitAt(dims, perm, a)
      invariant prevNonOneDim != -1 ==> last < i && NonUnitAt(dims, perm, last) && prevNonOneDim == perm[last]
      invariant forall a :: 0 <= a < i && NonUnitAt(dims, perm, a) ==> perm[a] <= prevNonOneDim
      invariant forall a, b :: 0 <= a < b < i && NonUnitAt(dims, perm, a) && NonUnitAt(dims, perm, b) ==> perm[a] < perm[b]
      invariant kind == (if exists a :: 0 <= a < i && UnitMoveAt(dims, perm, a) then Reshape else Noop)
    {
      var d := perm[i];
      if dims[d] == 1 {
        if d != i && dims[i] != 1 {
          assert UnitMoveAt(dims, perm, i);
          kind := Reshape;
        }
        continue;
      }
      assert !UnitMoveAt(dims, perm, i);
      if d <= prevNonOneDim {
        assert NonUnitAt(dims, perm, last) && NonUnitAt(dims, perm, i);
        return Transpose;
      }
      prevNonOneDim := d;
      last := i;
    }
  }

  ghost predicate StrictlyIncreasing(s: seq<nat>)
  {
    forall a, b :: 0 <= a < b < |s| ==> s[a] < s[b]
  }

  lemma {:induction false} IncreasingLower(r: seq<nat>, k: nat)
    requires StrictlyIncreasing(r) && k < |r|
    ensures r[k] >= k
  {
    if k > 0 {
      IncreasingLower(r, k - 1);
    }
  }

  lemma {:induction false} IncreasingUpper(r: seq<nat>, m: nat, k: nat)
    requires StrictlyIncreasing(r) && k < |r| == m
    requires forall i :: 0 <= i < |r| ==> r[i] < m
    ensures r[k] <= k
    decreases |r| - k
  {
    if k + 1 < |r| {
      IncreasingUpper(r, m, k + 1);
    }
  }

  /** The only strictly increasing permutation of 0..m-1 is the identity. */
  lemma IncreasingPermutationIsRange(r: seq<nat>, m: nat)
    requires IsPermutation(r, m) && StrictlyIncreasing(r)
    ensures r == Range(m)
  {
    PermutationBounds(r, m);
    forall k | 0 <= k < m
      ensures r[k] == k
    {
      IncreasingLower(r, k);
      IncreasingUpper(r, m, k);
    }
  }

  /** Counting non-unit sizes is monotone, strictly so past a non-unit size. */
  lemma {:induction false} CountMono(d: seq<nat>, a: nat, b: nat)
    requires a <= b <= |d|
    ensures CountNonUnit(d, a) <= CountNonUnit(d, b)
    ensures a < b && d[a] != 1 ==> CountNonUnit(d, a) < CountNonUnit(d, b)
  {
    if a < b {
      CountMono(d, a, b - 1);
    }
  }

  /** A size other than 1 keeps its value in the dropped list, at the place
      given by the number of such sizes before it. */
  lemma {:induction false} KeptAt(d: seq<nat>, j: nat, i: nat)
    requires j < i <= |d| && d[j] != 1
    ensures CountNonUnit(d, j) < |KeptSizes(d, i)|
    ensures KeptSizes(d, i)[CountNonUnit(d, j)] == d[j]
  {
    if i > j + 1 {
      KeptAt(d, j, i - 1);
    }
    assert KeptSizes(d, i) == KeptSizes(d, i - 1) + (if d[i - 1] == 1 then [] else [d[i - 1]]);
  }

  /** The renumbered permutation has one entry per non-unit axis of the
      permuted sizes. */
  lemma {:induction false} RenumberCount(d: seq<nat>, p: seq<nat>, i: nat)
    requires i <= |p|
    requires forall k :: 0 <= k < |p| ==> p[k] < |d|
    ensures |RenumberPrefix(d, p, i)| == CountNonUnit(Permute(d, p), i)
  {
    if i > 0 {
      RenumberCount(d, p, i - 1);
    }
  }

  /** The entry contributed by a non-unit position `i` of `p`. */
  lemma {:induction false} RenumberAt(d: seq<nat>, p: seq<nat>, i: nat, k: nat)
    requires i < k <= |p|
    requires forall j :: 0 <= j < |p| ==> p[j] < |d|
    requires d[p[i]] != 1
    ensures CountNonUnit(Permute(d, p), i) < |RenumberPrefix(d, p, k)|
    ensures RenumberPrefix(d, p, k)[CountNonUnit(Permute(d, p), i)] == CountNonUnit(d, p[i])
  {
    if k > i + 1 {
      RenumberAt(d, p, i, k - 1);
    } else {
      RenumberCount(d, p, i);
    }
    assert RenumberPrefix(d, p, k) == RenumberPrefix(d, p, k - 1) + NewIndex(d, p[k - 1]);
  }

  /** Dropping size-1 axes commutes with permuting axes: the non-unit sizes
      of the permuted list are the dropped sizes under the renumbered
      permutation. */
  /** Every entry of the renumbered prefix indexes the dropped sizes. */
  ghost predicate RenumberFits(d: seq<nat>, p: seq<nat>, i: nat)
    requires i <= |p|
    requires forall k :: 0 <= k < |p| ==> p[k] < |d|
  {
    forall k :: 0 <= k < |RenumberPrefix(d, p, i)| ==> RenumberPrefix(d, p, i)[k] < |DropUnitSizes(d)|
  }

  lemma {:induction false} RenumberBounds(d: seq<nat>, p: seq<nat>, i: nat)
    requires i <= |p|
    requires forall k :: 0 <= k < |p| ==> p[k] < |d|
    ensures RenumberFits(d, p, i)
  {
    if i > 0 {
      if d[p[i - 1]] != 1 {
        KeptAt(d, p[i - 1], |d|);
      }
      RenumberBounds(d, p, i - 1);
    }
  }

  lemma {:induction false} DropPermuteCommute(d: seq<nat>, p: seq<nat>, i: nat)
    requires i <= |p|
    requires forall k :: 0 <= k < |p| ==> p[k] < |d|
    ensures RenumberFits(d, p, i)
    ensures KeptSizes(Permute(d, p), i) == Permute(DropUnitSizes(d), RenumberPrefix(d, p, i))
  {
    RenumberBounds(d, p, i);
    if i > 0 {
      DropPermuteCommute(d, p, i - 1);
      DropPermuteStep(d, p, i);
    }
  }

  lemma DropPermuteStep(d: seq<nat>, p: seq<nat>, i: nat)
    requires 0 < i <= |p|
    requires forall k :: 0 <= k < |p| ==> p[k] < |d|
    requires RenumberFits(d, p, i - 1) && RenumberFits(d, p, i)
    requires KeptSizes(Permute(d, p), i - 1) == Permute(DropUnitSizes(d), RenumberPrefix(d, p, i - 1))
    ensures KeptSizes(Permute(d, p), i) == Permute(DropUnitSizes(d), RenumberPrefix(d, p, i))
  {
    var q, dd, r := Permute(d, p), DropUnitSizes(d), RenumberPrefix(d, p, i - 1);
    var j := p[i - 1];
    if d[j] == 1 {
      assert RenumberPrefix(d, p, i) == r;
      assert KeptSizes(q, i) == KeptSizes(q, i - 1);
    } else {
      var c := CountNonUnit(d, j);
      KeptAt(d, j, |d|);
      assert RenumberPrefix(d, p, i) == r + [c];
      PermuteSnoc(dd, r, c);
    }
  }

  /** The last position before `i` holding a non-unit axis, or -1. */
  ghost function LastNonUnit(d: seq<nat>, p: seq<nat>, i: nat): (t: int)
    requires i <= |p|
    requires forall k :: 0 <= k < |p| ==> p[k] < |d|
    ensures -1 <= t < i
    ensures t >= 0 ==> NonUnitAt(d, p, t)
  {
    if i == 0 then -1 else if NonUnitAt(d, p, i - 1) then i - 1 else LastNonUnit(d, p, i - 1)
  }

  lemma NoReorderPair(d: seq<nat>, p: seq<nat>, a: nat, b: nat)
    requires forall k :: 0 <= k < |p| ==> p[k] < |d|
    requires !ReordersNonUnitAxes(d, p)
    requires a < b < |p| && NonUnitAt(d, p, a) && NonUnitAt(d, p, b)
    ensures p[a] < p[b]
  {
  }

  lemma SnocIncreasing(r: seq<nat>, c: nat)
    requires StrictlyIncreasing(r)
    requires |r| > 0 ==> r[|r| - 1] < c
    ensures StrictlyIncreasing(r + [c])
  {
    forall a, b | 0 <= a < b < |r| + 1
      ensures (r + [c])[a] < (r + [c])[b]
    {
      if b == |r| && a < |r| - 1 {
        assert r[a] < r[|r| - 1];
      }
    }
  }

  /** The last entry of the renumbered prefix comes from the last non-unit
      position before `i`. */
  lemma {:induction false} LastEntry(d: seq<nat>, p: seq<nat>, i: nat)
    requires i <= |p|
    requires forall k :: 0 <= k < |p| ==> p[k] < |d|
    ensures |RenumberPrefix(d, p, i)| > 0 <==> LastNonUnit(d, p, i) >= 0
    ensures |RenumberPrefix(d, p, i)| > 0 ==>
      RenumberPrefix(d, p, i)[|RenumberPrefix(d, p, i)| - 1] == CountNonUnit(d, p[LastNonUnit(d, p, i)])
  {
    if i > 0 {
      LastEntry(d, p, i - 1);
      var r := RenumberPrefix(d, p, i - 1);
      if d[p[i - 1]] == 1 {
        assert RenumberPrefix(d, p, i) == r;
      } else {
        var c := CountNonUnit(d, p[i - 1]);
        assert RenumberPrefix(d, p, i) == r + [c];
      }
    }
  }

  /** Without reordering, the next non-unit axis renumbers above the last
      entry so far. */
  lemma LastBelowNext(d: seq<nat>, p: seq<nat>, i: nat)
    requires i < |p|
    requires forall k :: 0 <= k < |p| ==> p[k] < |d|
    requires !ReordersNonUnitAxes(d, p)
    requires NonUnitAt(d, p, i) && |RenumberPrefix(d, p, i)| > 0
    ensures RenumberPrefix(d, p, i)[|RenumberPrefix(d, p, i)| - 1] < CountNonUnit(d, p[i])
  {
    LastEntry(d, p, i);
    var t := LastNonUnit(d, p, i);
    NoReorderPair(d, p, t, i);
    CountMono(d, p[t], p[i]);
  }

  /** Without reordering, the renumbered permutation increases. */
  lemma {:induction false} RenumberIncreasing(d: seq<nat>, p: seq<nat>, i: nat)
    requires i <= |p|
    requires forall k :: 0 <= k < |p| ==> p[k] < |d|
    requires !ReordersNonUnitAxes(d, p)
    ensures StrictlyIncreasing(RenumberPrefix(d, p, i))
  {
    if i > 0 {
      var r := RenumberPrefix(d, p, i - 1);
      if d[p[i - 1]] != 1 && |r| > 0 {
        LastBelowNext(d, p, i - 1);
      }
      RenumberIncreasing(d, p, i - 1);
      if d[p[i - 1]] != 1 {
        SnocIncreasing(r, CountNonUnit(d, p[i - 1]));
      }
    }
  }
  /** A permutation reorders no two non-unit axes exactly when, once the
      size-1 axes are dropped, it is the identity. */
  lemma NoReorderIff(d: seq<nat>, p: seq<nat>)
    requires |p| == |d| && forall k :: 0 <= k < |p| ==> p[k] < |d|
    requires IsPermutation(p, |d|)
    ensures !ReordersNonUnitAxes(d, p) <==> RenumberPerm(d, p) == Range(|DropUnitSizes(d)|)
  {
    PermutationBounds(p, |d|);
    var r, m := RenumberPerm(d, p), |DropUnitSizes(d)|;
    if !ReordersNonUnitAxes(d, p) {
      RenumberIncreasing(d, p, |p|);
      RenumberPermutation(d, p);
      IncreasingPermutationIsRange(r, m);
    }
    if r == Range(m) && ReordersNonUnitAxes(d, p) {
      var i, j :| 0 <= i < j < |p| && NonUnitAt(d, p, i) && NonUnitAt(d, p, j) && p[j] <= p[i];
      var q := Permute(d, p);
      RenumberAt(d, p, i, |p|);
      RenumberAt(d, p, j, |p|);
      CountMono(q, i, j);
      CountMono(d, p[j], p[i]);
      assert false;
    }
  }

  /** Without reordering, the non-unit sizes keep their order: the flat
      element order is untouched and only size-1 axes move. */
  lemma NoReorderKeepsNonUnitSizes(d: seq<nat>, p: seq<nat>)
    requires |p| == |d| && forall k :: 0 <= k < |p| ==> p[k] < |d|
    requires IsPermutation(p, |d|) && !ReordersNonUnitAxes(d, p)
    ensures DropUnitSizes(Permute(d, p)) == DropUnitSizes(d)
  {
    NoReorderIff(d, p);
    DropPermuteCommute(d, p, |p|);
    var dd := DropUnitSizes(d);
    assert Permute(dd, Range(|dd|)) == dd;
  }

  /** If every size-1 position of `d` is also size-1 in `q`, `q` has at least
      as many sizes other than 1, and strictly more if `q` differs at one of
      them. */
  lemma {:induction false} CountDominates(d: seq<nat>, q: seq<nat>, k: nat)
    requires k <= |d| == |q|
    requires forall i :: 0 <= i < |d| && d[i] != 1 ==> q[i] != 1
    ensures CountNonUnit(d, k) <= CountNonUnit(q, k)
    ensures (exists j :: 0 <= j < k && d[j] == 1 && q[j] != 1) ==> CountNonUnit(d, k) < CountNonUnit(q, k)
  {
    if k > 0 {
      CountDominates(d, q, k - 1);
    }
  }

  lemma {:induction false} CountSameUnits(d: seq<nat>, q: seq<nat>, k: nat)
    requires k <= |d| == |q|
    requires forall i :: 0 <= i < |d| ==> (d[i] == 1 <==> q[i] == 1)
    ensures CountNonUnit(d, k) == CountNonUnit(q, k)
  {
    if k > 0 {
      CountSameUnits(d, q, k - 1);
    }
  }

  /** A no-op permutation leaves every dimension size where it was. */
  lemma NoopKeepsDims(d: seq<nat>, p: seq<nat>)
    requires |p| == |d| && forall k :: 0 <= k < |p| ==> p[k] < |d|
    requires IsPermutation(p, |d|) && KindOf(d, p) == Noop
    ensures Permute(d, p) == d
  {
    var q := Permute(d, p);
    NoReorderKeepsNonUnitSizes(d, p);
    forall i | 0 <= i < |d| && q[i] == 1
      ensures d[i] == 1
    {
      assert !UnitMoveAt(d, p, i);
    }
    CountDominates(d, q, |d|);
    SameUnitsSameSizes(d, q);
  }

  /** Two size lists with size 1 at the same places and the same other sizes
      are equal. */
  lemma SameUnitsSameSizes(d: seq<nat>, q: seq<nat>)
    requires |d| == |q|
    requires forall i :: 0 <= i < |d| ==> (d[i] == 1 <==> q[i] == 1)
    requires DropUnitSizes(d) == DropUnitSizes(q)
    ensures d == q
  {
    forall i | 0 <= i < |d|
      ensures q[i] == d[i]
    {
      if d[i] != 1 {
        CountSameUnits(d, q, i);
        KeptAt(d, i, |d|);
        KeptAt(q, i, |q|);
      }
    }
  }


  /** Once no two non-unit axes are reordered, the permutation is a no-op
      exactly when it leaves the dimension sizes unchanged. */
  lemma NoopIffSameDims(d: seq<nat>, p: seq<nat>)
    requires |p| == |d| && forall k :: 0 <= k < |p| ==> p[k] < |d|
    requires IsPermutation(p, |d|) && KindOf(d, p) != Transpose
    ensures KindOf(d, p) == Noop <==> Permute(d, p) == d
  {
    PermutationBounds(p, |d|);
    if KindOf(d, p) == Noop {
      NoopKeepsDims(d, p);
    } else {
      var i :| 0 <= i < |p| && UnitMoveAt(d, p, i);
      assert Permute(d, p)[i] != d[i];
    }
  }
}
