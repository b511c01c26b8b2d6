/** Canonical form of an iota tile assignment's (reshape_dims, transpose_perm)
    pair: size-1 dimensions are dropped and runs of dimensions that the
    permutation keeps adjacent and in order are merged into one, round after
    round, until nothing changes.

    `Canonicalize` is the value-level definition; `CanonicalizeIotaDims` is
    the in-place algorithm over two buffers, proved to compute it. */
module Canonicalization {
  import opened Permutations
  import opened Shapes

  /** Number of entries among the first `i` of `d` other than 1. */
  function CountNonUnit(d: seq<nat>, i: nat): (c: nat)
    requires i <= |d|
    ensures c <= i
  {
    if i == 0 then 0 else CountNonUnit(d, i - 1) + (if d[i - 1] == 1 then 0 else 1)
  }

  /** The entries among the first `i` of `d` other than 1, in order. */
  function KeptSizes(d: seq<nat>, i: nat): (r: seq<nat>)
    requires i <= |d|
    ensures |r| == CountNonUnit(d, i)
    ensures 1 !in r
  {
    if i == 0 then [] else KeptSizes(d, i - 1) + (if d[i - 1] == 1 then [] else [d[i - 1]])
  }

  /** `d` with every size-1 entry removed, the others kept in order. */
  function DropUnitSizes(d: seq<nat>): seq<nat>
  {
    KeptSizes(d, |d|)
  }

  /** Where dimension `j` of `d` lands once the size-1 dimensions are dropped:
      nowhere (an empty list) if it has size 1, otherwise the number of
      non-unit dimensions before it. */
  function NewIndex(d: seq<nat>, j: nat): seq<nat>
    requires j < |d|
  {
    if d[j] == 1 then [] else [CountNonUnit(d, j)]
  }

  /** The entries `NewIndex(d, p[k])` for the first `i` entries of `p`,
      concatenated. */
  function RenumberPrefix(d: seq<nat>, p: seq<nat>, i: nat): seq<nat>
    requires i <= |p|
    requires forall k :: 0 <= k < |p| ==> p[k] < |d|
  {
    if i == 0 then [] else RenumberPrefix(d, p, i - 1) + NewIndex(d, p[i - 1])
  }

  /** The permutation `p` of the dimensions of `d` restricted to the non-unit
      dimensions and renumbered to index `DropUnitSizes(d)`. */
  function RenumberPerm(d: seq<nat>, p: seq<nat>): seq<nat>
    requires forall k :: 0 <= k < |p| ==> p[k] < |d|
  {
    RenumberPrefix(d, p, |p|)
  }

  function RenumberTable(d: seq<nat>): seq<seq<nat>>
  {
    seq(|d|, j requires 0 <= j < |d| => NewIndex(d, j))
  }

  /** One merge sweep from position `i`, with the current run starting at
      position `base`: while `p[base..i+1]` counts up one by one, the size of
      dimension `p[i]` is folded into dimension `p[base]` and set to 1. The
      flag tells whether any merge happened. */
  function MergeFrom(d: seq<nat>, p: seq<nat>, i: nat, base: nat): (r: (seq<nat>, bool))
    requires forall k :: 0 <= k < |p| ==> p[k] < |d|
    requires base < i
    ensures |r.0| == |d|
    ensures !r.1 ==> r.0 == d
    ensures r.1 ==> 1 in r.0
    decreases |p| - i
  {
    if i >= |p| then (d, false)
    else if p[base] + (i - base) == p[i] then
      var d' := d[p[base] := d[p[base]] * d[p[i]]][p[i] := 1];
      assert d'[p[i]] == 1;
      (MergeFrom(d', p, i + 1, base).0, true)
    else MergeFrom(d, p, i + 1, i)
  }

  /** Drop-then-merge rounds until a merge sweep changes nothing. */
  function CanonLoop(d: seq<nat>, p: seq<nat>): (seq<nat>, seq<nat>)
    requires IsPermutation(p, |d|)
    decreases 2 * |d| + (if 1 in d then 0 else 1)
  {
    RenumberPermutation(d, p);
    DropShrinks(d);
    var d1, p1 := DropUnitSizes(d), RenumberPerm(d, p);
    PermutationBounds(p1, |d1|);
    var m := MergeFrom(d1, p1, 1, 0);
    if !m.1 then (d1, p1) else CanonLoop(m.0, p1)
  }

  /** The canonical form of (reshape_dims, transpose_perm). Lists of length at
      most 1 are left alone. */
  function Canonicalize(d: seq<nat>, p: seq<nat>): (seq<nat>, seq<nat>)
    requires IsPermutation(p, |d|)
  {
    if |d| <= 1 then (d, p) else CanonLoop(d, p)
  }

  /** No two consecutive entries of `p` count up by one. */
  ghost predicate NoAdjacentRun(p: seq<nat>)
  {
    forall i :: 1 <= i < |p| ==> p[i - 1] + 1 != p[i]
  }

  /** What canonicalisation leaves behind: at most one dimension, or no
      size-1 dimension and no run of dimensions that could be merged. */
  ghost predicate IsCanonical(d: seq<nat>, p: seq<nat>)
  {
    |d| <= 1 || (1 !in d && NoAdjacentRun(p))
  }

  // ---------------------------------------------------------------------
  // Dropping size-1 dimensions

  lemma {:induction false} UnitCountDrops(d: seq<nat>, i: nat)
    requires i <= |d|
    ensures 1 in d[..i] ==> CountNonUnit(d, i) < i
    ensures 1 !in d[..i] ==> CountNonUnit(d, i) == i
  {
    if i > 0 {
      UnitCountDrops(d, i - 1);
      assert d[..i] == d[..i - 1] + [d[i - 1]];
    }
  }

  /** Dropping removes something exactly when there is a size-1 entry. */
  lemma DropShrinks(d: seq<nat>)
    ensures 1 in d ==> |DropUnitSizes(d)| < |d|
    ensures 1 !in d ==> |DropUnitSizes(d)| == |d|
  {
    UnitCountDrops(d, |d|);
    assert d[..|d|] == d;
  }

  lemma {:induction false} KeptSizesPositive(d: seq<nat>, i: nat)
    requires i <= |d| && AllPositive(d)
    ensures AllPositive(KeptSizes(d, i))
  {
    if i > 0 {
      KeptSizesPositive(d, i - 1);
    }
  }

  lemma {:induction false} KeptSizesProduct(d: seq<nat>, i: nat)
    requires i <= |d|
    ensures Product(KeptSizes(d, i)) == Product(d[..i])
  {
    if i > 0 {
      var x := d[i - 1];
      KeptSizesProduct(d, i - 1);
      assert d[..i] == d[..i - 1] + [x];
      ProductSnoc(d[..i - 1], x);
      var p := Product(d[..i - 1]);
      assert Product(d[..i]) == p * x;
      if x != 1 {
        ProductSnoc(KeptSizes(d, i - 1), x);
      } else {
        assert p * x == p;
        assert KeptSizes(d, i) == KeptSizes(d, i - 1);
      }
    }
  }


  /** Dropping size-1 dimensions keeps positive sizes and the element count. */
  lemma DropUnitSizesFacts(d: seq<nat>)
    requires AllPositive(d)
    ensures AllPositive(DropUnitSizes(d))
    ensures Product(DropUnitSizes(d)) == Product(d)
  {
    KeptSizesPositive(d, |d|);
    KeptSizesProduct(d, |d|);
    assert d[..|d|] == d;
  }

  lemma {:induction false} RenumberLength(d: seq<nat>, p: seq<nat>, i: nat)
    requires i <= |p|
    requires forall k :: 0 <= k < |p| ==> p[k] < |d|
    ensures |RenumberPrefix(d, p, i)| <= i
  {
    if i > 0 {
      RenumberLength(d, p, i - 1);
    }
  }

  lemma {:induction false} RenumberRange(d: seq<nat>, m: nat)
    requires m <= |d|
    ensures RenumberPrefix(d, Range(|d|), m) == Range(CountNonUnit(d, m))
  {
    if m > 0 {
      RenumberRange(d, m - 1);
      var c := CountNonUnit(d, m - 1);
      assert Range(c) + [c] == Range(c + 1);
    }
  }

  /** `RenumberPrefix` looks up each of the first `i` entries of `p` in the
      table of new indices and concatenates what it finds. */
  lemma {:induction false} RenumberFlatten(d: seq<nat>, p: seq<nat>, i: nat)
    requires i <= |p|
    requires forall k :: 0 <= k < |p| ==> p[k] < |d|
    ensures RenumberPrefix(d, p, i) == Flatten(Permute(RenumberTable(d), p[..i]))
  {
    if i > 0 {
      var t := RenumberTable(d);
      RenumberFlatten(d, p, i - 1);
      assert p[..i] == p[..i - 1] + [p[i - 1]];
      PermuteSnoc(t, p[..i - 1], p[i - 1]);
      FlattenSnoc(Permute(t, p[..i - 1]), t[p[i - 1]]);
    }
  }


  /** Dropping the size-1 dimensions turns a permutation of the dimensions of
      `d` into a permutation of the remaining ones. */
  lemma RenumberPermutation(d: seq<nat>, p: seq<nat>)
    requires IsPermutation(p, |d|)
    ensures forall i :: 0 <= i < |p| ==> p[i] < |d|
    ensures IsPermutation(RenumberPerm(d, p), |DropUnitSizes(d)|)
  {
    PermutationBounds(p, |d|);
    var t, r := RenumberTable(d), Range(|d|);
    calc {
      multiset(RenumberPerm(d, p));
      { RenumberFlatten(d, p, |p|); assert p[..|p|] == p; }
      multiset(Flatten(Permute(t, p)));
      { FlattenPermuted(t, p); }
      multiset(Flatten(t));
      { assert Permute(t, r) == t; }
      multiset(Flatten(Permute(t, r)));
      { RenumberFlatten(d, r, |d|); assert r[..|d|] == r; }
      multiset(RenumberPrefix(d, r, |d|));
      { RenumberRange(d, |d|); }
      multiset(Range(|DropUnitSizes(d)|));
    }
  }

  lemma {:induction false} NoUnitsCount(d: seq<nat>, i: nat)
    requires 1 !in d && i <= |d|
    ensures CountNonUnit(d, i) == i
  {
    if i > 0 {
      NoUnitsCount(d, i - 1);
    }
  }

  lemma {:induction false} RenumberIdentity(d: seq<nat>, p: seq<nat>, i: nat)
    requires 1 !in d && i <= |p|
    requires forall k :: 0 <= k < |p| ==> p[k] < |d|
    ensures RenumberPrefix(d, p, i) == p[..i]
  {
    if i > 0 {
      RenumberIdentity(d, p, i - 1);
      NoUnitsCount(d, p[i - 1]);
      assert p[..i] == p[..i - 1] + [p[i - 1]];
    }
  }

  lemma {:induction false} KeptIdentity(d: seq<nat>, i: nat)
    requires 1 !in d && i <= |d|
    ensures KeptSizes(d, i) == d[..i]
  {
    if i > 0 {
      KeptIdentity(d, i - 1);
      assert d[..i] == d[..i - 1] + [d[i - 1]];
    }
  }

  /** Without size-1 dimensions the drop step changes nothing. */
  lemma NoUnitsIdentity(d: seq<nat>, p: seq<nat>)
    requires 1 !in d
    requires forall i :: 0 <= i < |p| ==> p[i] < |d|
    ensures DropUnitSizes(d) == d && RenumberPerm(d, p) == p
  {
    KeptIdentity(d, |d|);
    RenumberIdentity(d, p, |p|);
    assert d[..|d|] == d && p[..|p|] == p;
  }

  // Merging runs

  lemma ProductUpdate(s: seq<nat>, j: nat, v: nat)
    requires j < |s|
    ensures Product(s[j := v]) == Product(s[..j] + s[j + 1..]) * v
  {
    var s' := s[j := v];
    ProductRemoveAt(s', j);
    assert s'[..j] + s'[j + 1..] == s[..j] + s[j + 1..];
  }

  lemma MulCancel(x: nat, y: nat, c: nat)
    requires c > 0 && x * c == y * c
    ensures x == y
  {
  }

  /** Folding dimension `b` into dimension `a` keeps the element count. */
  lemma MergeStepProduct(s: seq<nat>, a: nat, b: nat)
    requires a < |s| && b < |s| && a != b && AllPositive(s)
    ensures AllPositive(s[a := s[a] * s[b]][b := 1])
    ensures Product(s[a := s[a] * s[b]][b := 1]) == Product(s)
  {
    var s1 := s[a := s[a] * s[b]];
    var s2 := s1[b := 1];
    var ra := Product(s[..a] + s[a + 1..]);
    var rb := Product(s1[..b] + s1[b + 1..]);
    assert s1[b] == s[b];
    calc {
      Product(s2) * s[b];
      { ProductUpdate(s1, b, 1); }
      rb * s[b];
      { ProductRemoveAt(s1, b); }
      Product(s1);
      { ProductUpdate(s, a, s[a] * s[b]); }
      ra * (s[a] * s[b]);
      ra * s[a] * s[b];
      { ProductRemoveAt(s, a); }
      Product(s) * s[b];
    }
    MulCancel(Product(s2), Product(s), s[b]);
  }

  /** A merge sweep keeps every size positive and the element count. */
  lemma {:induction false} MergeFromProduct(d: seq<nat>, p: seq<nat>, i: nat, base: nat)
    requires forall k :: 0 <= k < |p| ==> p[k] < |d|
    requires base < i && AllPositive(d)
    ensures AllPositive(MergeFrom(d, p, i, base).0)
    ensures Product(MergeFrom(d, p, i, base).0) == Product(d)
    decreases |p| - i
  {
    if i < |p| {
      if p[base] + (i - base) == p[i] {
        var d' := d[p[base] := d[p[base]] * d[p[i]]][p[i] := 1];
        MergeStepProduct(d, p[base], p[i]);
        MergeFromProduct(d', p, i + 1, base);
      } else {
        MergeFromProduct(d, p, i + 1, i);
      }
    }
  }

  /** A sweep that starts a fresh run at `i - 1` merges nothing exactly when
      no later pair of neighbours in `p` counts up by one. */
  lemma {:induction false} MergeFromNoChange(d: seq<nat>, p: seq<nat>, i: nat)
    requires forall k :: 0 <= k < |p| ==> p[k] < |d|
    requires i >= 1
    ensures !MergeFrom(d, p, i, i - 1).1 <==> forall j :: i <= j < |p| ==> p[j - 1] + 1 != p[j]
    decreases |p| - i
  {
    if i < |p| && p[i - 1] + 1 != p[i] {
      MergeFromNoChange(d, p, i + 1);
    }
  }

  /** A full sweep merges nothing exactly when `p` has no adjacent run. */
  lemma MergeNothingIff(d: seq<nat>, p: seq<nat>)
    requires forall k :: 0 <= k < |p| ==> p[k] < |d|
    ensures !MergeFrom(d, p, 1, 0).1 <==> NoAdjacentRun(p)
  {
    MergeFromNoChange(d, p, 1);
  }

  // ---------------------------------------------------------------------
  // Properties of the canonical form

  lemma {:induction false} CanonLoopFacts(d: seq<nat>, p: seq<nat>)
    requires AllPositive(d) && IsPermutation(p, |d|)
    ensures IsPermutation(CanonLoop(d, p).1, |CanonLoop(d, p).0|)
    ensures AllPositive(CanonLoop(d, p).0)
    ensures Product(CanonLoop(d, p).0) == Product(d)
    ensures 1 !in CanonLoop(d, p).0 && NoAdjacentRun(CanonLoop(d, p).1)
    ensures |CanonLoop(d, p).0| <= |d|
    decreases 2 * |d| + (if 1 in d then 0 else 1)
  {
    RenumberPermutation(d, p);
    DropShrinks(d);
    DropUnitSizesFacts(d);
    var d1, p1 := DropUnitSizes(d), RenumberPerm(d, p);
    PermutationFacts(p1, |d1|);
    var m := MergeFrom(d1, p1, 1, 0);
    if !m.1 {
      MergeNothingIff(d1, p1);
    } else {
      MergeFromProduct(d1, p1, 1, 0);
      CanonLoopFacts(m.0, p1);
    }
  }

  /** Canonicalisation keeps a permutation, positive sizes and the element
      count, never lengthens the lists, and its result is canonical. */
  lemma CanonicalizeFacts(d: seq<nat>, p: seq<nat>)
    requires AllPositive(d) && IsPermutation(p, |d|)
    ensures IsPermutation(Canonicalize(d, p).1, |Canonicalize(d, p).0|)
    ensures AllPositive(Canonicalize(d, p).0)
    ensures Product(Canonicalize(d, p).0) == Product(d)
    ensures IsCanonical(Canonicalize(d, p).0, Canonicalize(d, p).1)
    ensures |Canonicalize(d, p).0| <= |d|
  {
    if |d| > 1 {
      CanonLoopFacts(d, p);
    }
  }

  lemma {:induction false} KeptSizesAllUnit(d: seq<nat>, i: nat)
    requires i <= |d| && forall k :: 0 <= k < |d| ==> d[k] == 1
    ensures KeptSizes(d, i) == []
  {
    if i > 0 {
      KeptSizesAllUnit(d, i - 1);
    }
  }

  /** When every dimension has size 1 (and there are at least two), nothing
      is left after canonicalisation. */
  lemma CanonicalizeAllUnit(d: seq<nat>, p: seq<nat>)
    requires |d| >= 2 && forall k :: 0 <= k < |d| ==> d[k] == 1
    requires IsPermutation(p, |d|)
    ensures Canonicalize(d, p) == ([], [])
  {
    KeptSizesAllUnit(d, |d|);
    RenumberPermutation(d, p);
    PermutationBounds(RenumberPerm(d, p), 0);
  }

  /** A canonical pair is its own canonical form. */
  lemma CanonicalizeCanonical(d: seq<nat>, p: seq<nat>)
    requires IsPermutation(p, |d|) && IsCanonical(d, p)
    ensures Canonicalize(d, p) == (d, p)
  {
    if |d| > 1 {
      PermutationFacts(p, |d|);
      NoUnitsIdentity(d, p);
      MergeNothingIff(d, p);
    }
  }

  /** Canonicalising twice is canonicalising once. */
  lemma CanonicalizeIdempotent(d: seq<nat>, p: seq<nat>)
    requires AllPositive(d) && IsPermutation(p, |d|)
    ensures IsPermutation(Canonicalize(d, p).1, |Canonicalize(d, p).0|)
    ensures Canonicalize(Canonicalize(d, p).0, Canonicalize(d, p).1) == Canonicalize(d, p)
  {
    CanonicalizeFacts(d, p);
    CanonicalizeCanonical(Canonicalize(d, p).0, Canonicalize(d, p).1);
  }

  // ---------------------------------------------------------------------
  // The in-place algorithm

  /** The entry of the old-to-new table for dimension `j` of `d`: its index
      once size-1 dimensions are dropped, or -1 if it is dropped. */
  function OldToNew(d: seq<nat>, j: nat): int
    requires j < |d|
  {
    if d[j] == 1 then -1 else CountNonUnit(d, j)
  }

  /** Fills `oldToNew[..n]` with the old-to-new table of `dims[..n]` and
      returns how many dimensions remain. */
  method NumberNonUnitDims(dims: array<nat>, n: nat, oldToNew: array<int>, ghost d0: seq<nat>) returns (count: nat)
    requires n <= dims.Length && n <= oldToNew.Length && dims[..n] == d0
    modifies oldToNew
    ensures count == CountNonUnit(d0, n)
    ensures forall j :: 0 <= j < n ==> oldToNew[j] == OldToNew(d0, j)
  {
    count := 0;
    for i := 0 to n
      invariant count == CountNonUnit(d0, i)
      invariant forall j :: 0 <= j < i ==> oldToNew[j] == OldToNew(d0, j)
    {
      assert dims[i] == d0[i];
      if dims[i] == 1 {
        oldToNew[i] := -1;
      } else {
        oldToNew[i] := count;
        count := count + 1;
      }
    }
  }

  /** The sizes after `i` steps of `CompactDims`: the non-unit sizes among
      the first `i` fill the front of `d`, and `d` from `i` on is still `d0`. */
  ghost predicate DimsCompacted(d0: seq<nat>, d: seq<nat>, i: nat)
    requires i <= |d0|
  {
    && |d| == |d0|
    && (forall k :: 0 <= k < CountNonUnit(d0, i) ==> d[k] == KeptSizes(d0, i)[k])
    && (forall k :: i <= k < |d| ==> d[k] == d0[k])
  }

  /** The permutation after `i` steps of `CompactDims`: the renumbered
      non-unit entries among the first `i` fill `p[..newIdx]`, and `p` from
      `i` on is still `p0`. */
  ghost predicate PermCompacted(d0: seq<nat>, p0: seq<nat>, p: seq<nat>, i: nat, newIdx: nat)
    requires i <= |p0|
    requires forall k :: 0 <= k < |p0| ==> p0[k] < |d0|
  {
    && |p| == |p0|
    && newIdx == |RenumberPrefix(d0, p0, i)| <= i
    && (forall k :: 0 <= k < newIdx ==> p[k] == RenumberPrefix(d0, p0, i)[k])
    && (forall k :: i <= k < |p| ==> p[k] == p0[k])
  }

  lemma DimsCompactStep(d0: seq<nat>, d: seq<nat>, i: nat)
    requires i < |d0| && DimsCompacted(d0, d, i)
    ensures d[i] == d0[i] && CountNonUnit(d0, i) <= i
    ensures d0[i] == 1 ==> DimsCompacted(d0, d, i + 1)
    ensures d0[i] != 1 ==> DimsCompacted(d0, d[CountNonUnit(d0, i) := d0[i]], i + 1)
  {
  }

  lemma PermCompactStep(d0: seq<nat>, p0: seq<nat>, p: seq<nat>, i: nat, newIdx: nat)
    requires i < |p0|
    requires forall k :: 0 <= k < |p0| ==> p0[k] < |d0|
    requires PermCompacted(d0, p0, p, i, newIdx)
    ensures p[i] == p0[i] && newIdx <= i
    ensures d0[p0[i]] == 1 ==> PermCompacted(d0, p0, p, i + 1, newIdx)
    ensures d0[p0[i]] != 1 ==> PermCompacted(d0, p0, p[newIdx := CountNonUnit(d0, p0[i])], i + 1, newIdx + 1)
  {
    var r := RenumberPrefix(d0, p0, i);
    var r' := RenumberPrefix(d0, p0, i + 1);
    assert r' == r + NewIndex(d0, p0[i]);
    if d0[p0[i]] == 1 {
      assert r' == r;
    } else {
      var c := CountNonUnit(d0, p0[i]);
      var p' := p[newIdx := c];
      assert r' == r + [c];
      forall k | 0 <= k < newIdx + 1
        ensures p'[k] == r'[k]
      {
        if k < newIdx { assert r'[k] == r[k]; }
      }
    }
  }

  /** After the last step, the fronts of `d` and `p` hold the dropped sizes
      and the renumbered permutation. */
  lemma CompactedDone(d0: seq<nat>, p0: seq<nat>, d: seq<nat>, p: seq<nat>, newIdx: nat)
    requires forall k :: 0 <= k < |p0| ==> p0[k] < |d0|
    requires DimsCompacted(d0, d, |d0|) && PermCompacted(d0, p0, p, |p0|, newIdx)
    ensures |DropUnitSizes(d0)| <= |d| && d[..|DropUnitSizes(d0)|] == DropUnitSizes(d0)
    ensures newIdx == |RenumberPerm(d0, p0)| <= |p| && p[..newIdx] == RenumberPerm(d0, p0)
  {
  }

  /** Step `i` of `CompactDims`: moves size `i` to its new place unless it
      is 1, and appends the renumbered `perm[i]` unless it names a size-1
      dimension. */
  method CompactAt(dims: array<nat>, perm: array<nat>, n: nat, oldToNew: array<int>, i: nat, newIdx: nat,
                   ghost d0: seq<nat>, ghost p0: seq<nat>, ghost d: seq<nat>, ghost p: seq<nat>)
    returns (newIdx': nat, ghost d': seq<nat>, ghost p': seq<nat>)
    requires dims != perm
    requires i < n <= dims.Length && n <= perm.Length && n <= oldToNew.Length
    requires |d0| == |p0| == n && forall k :: 0 <= k < n ==> p0[k] < n
    requires dims[..n] == d && perm[..n] == p
    requires DimsCompacted(d0, d, i) && PermCompacted(d0, p0, p, i, newIdx)
    requires forall j :: 0 <= j < n ==> oldToNew[j] == OldToNew(d0, j)
    modifies dims, perm
    ensures dims[..n] == d' && perm[..n] == p'
    ensures DimsCompacted(d0, d', i + 1) && PermCompacted(d0, p0, p', i + 1, newIdx')
  {
    DimsCompactStep(d0, d, i);
    PermCompactStep(d0, p0, p, i, newIdx);
    d', p', newIdx' := d, p, newIdx;
    var newDim := oldToNew[i];
    if newDim >= 0 {
      dims[newDim] := dims[i];
      d' := d[CountNonUnit(d0, i) := d0[i]];
    }
    assert perm[i] == p0[i];
    var newPermDim := oldToNew[perm[i]];
    if newPermDim >= 0 {
      perm[newIdx] := newPermDim;
      p' := p[newIdx := CountNonUnit(d0, p0[i])];
      newIdx' := newIdx + 1;
    }
  }

  /** Moves the non-unit sizes of `dims[..n]` to the front and rewrites
      `perm[..n]` through the old-to-new table, dropping the size-1
      dimensions. */
  method CompactDims(dims: array<nat>, perm: array<nat>, n: nat, oldToNew: array<int>, ghost d0: seq<nat>, ghost p0: seq<nat>)
    returns (ghost d: seq<nat>, ghost p: seq<nat>, newIdx: nat)
    requires dims != perm
    requires n <= dims.Length && n <= perm.Length && n <= oldToNew.Length
    requires dims[..n] == d0 && perm[..n] == p0
    requires forall k :: 0 <= k < n ==> p0[k] < n
    requires forall j :: 0 <= j < n ==> oldToNew[j] == OldToNew(d0, j)
    modifies dims, perm
    ensures dims[..n] == d && perm[..n] == p
    ensures DimsCompacted(d0, d, n) && PermCompacted(d0, p0, p, n, newIdx)
  {
    newIdx := 0;
    d, p := d0, p0;
    for i := 0 to n
      invariant dims[..n] == d && perm[..n] == p
      invariant DimsCompacted(d0, d, i)
      invariant PermCompacted(d0, p0, p, i, newIdx)
    {
      newIdx, d, p := CompactAt(dims, perm, n, oldToNew, i, newIdx, d0, p0, d, p);
    }
  }

  /** First half of a round: drop the size-1 entries of `dims[..n]` and
      renumber `perm[..n]` to match, in place; `oldToNew` is scratch space. */
  method RemoveUnitDims(dims: array<nat>, perm: array<nat>, n: nat, oldToNew: array<int>, ghost d0: seq<nat>, ghost p0: seq<nat>)
    returns (m: nat)
    requires dims != perm
    requires n <= dims.Length && n <= perm.Length && n <= oldToNew.Length
    requires dims[..n] == d0 && perm[..n] == p0
    requires IsPermutation(p0, n) && forall k :: 0 <= k < |p0| ==> p0[k] < |d0|
    modifies dims, perm, oldToNew
    ensures m == |DropUnitSizes(d0)|
    ensures dims[..m] == DropUnitSizes(d0)
    ensures perm[..m] == RenumberPerm(d0, p0)
  {
    m := NumberNonUnitDims(dims, n, oldToNew, d0);
    DropShrinks(d0);
    if m == n {
      NoUnitsIdentity(d0, p0);
      return;
    }
    RenumberPermutation(d0, p0);
    PermutationBounds(RenumberPerm(d0, p0), m);
    ghost var d, p, newIdx := CompactDims(dims, perm, n, oldToNew, d0, p0);
    CompactedDone(d0, p0, d, p, newIdx);
    assert dims[..m] == d[..m];
    assert perm[..m] == p[..m];
  }

  /** Second half of a round: one merge sweep over `dims[..n]` along
      `perm[..n]`, in place. */
  method MergeRuns(dims: array<nat>, perm: array<nat>, n: nat, ghost p: seq<nat>) returns (changed: bool)
    requires dims != perm
    requires n <= dims.Length && n <= perm.Length
    requires perm[..n] == p && forall k :: 0 <= k < |p| ==> p[k] < n
    modifies dims
    ensures (dims[..n], changed) == MergeFrom(old(dims[..n]), p, 1, 0)
  {
    ghost var target := MergeFrom(dims[..n], p, 1, 0);
    changed := false;
    var i, base := 1, 0;
    while i < n
      invariant base < i && (n >= 1 ==> i <= n)
      invariant MergeFrom(dims[..n], p, i, base).0 == target.0
      invariant target.1 == (changed || MergeFrom(dims[..n], p, i, base).1)
    {
      var baseDim := perm[base];
      var dim := perm[i];
      assert baseDim == p[base] && dim == p[i];
      if baseDim + (i - base) == dim {
        ghost var d := dims[..n];
        dims[baseDim] := dims[baseDim] * dims[dim];
        dims[dim] := 1;
        assert dims[..n] == d[baseDim := d[baseDim] * d[dim]][dim := 1];
        changed := true;
      } else {
        base := i;
      }
      i := i + 1;
    }
  }

  /** One drop-then-merge round, as the loop of `CanonicalizeIotaDims` needs
      it: what the round produces is a valid pair again, and either the
      rounds stop here or they go on from the merged sizes with a smaller
      measure. */
  lemma CanonRound(d: seq<nat>, p: seq<nat>)
    requires AllPositive(d) && IsPermutation(p, |d|)
    ensures forall i :: 0 <= i < |p| ==> p[i] < |d|
    ensures |DropUnitSizes(d)| <= |d| && (1 in d ==> |DropUnitSizes(d)| < |d|)
    ensures AllPositive(DropUnitSizes(d))
    ensures IsPermutation(RenumberPerm(d, p), |DropUnitSizes(d)|)
    ensures forall k :: 0 <= k < |RenumberPerm(d, p)| ==> RenumberPerm(d, p)[k] < |DropUnitSizes(d)|
    ensures var m := MergeFrom(DropUnitSizes(d), RenumberPerm(d, p), 1, 0);
            && AllPositive(m.0)
            && (!m.1 ==> CanonLoop(d, p) == (DropUnitSizes(d), RenumberPerm(d, p)))
            && (m.1 ==> CanonLoop(d, p) == CanonLoop(m.0, RenumberPerm(d, p)))
  {
    RenumberPermutation(d, p);
    DropShrinks(d);
    DropUnitSizesFacts(d);
    PermutationFacts(RenumberPerm(d, p), |DropUnitSizes(d)|);
    MergeFromProduct(DropUnitSizes(d), RenumberPerm(d, p), 1, 0);
  }

  /** Canonicalises `dims` and `perm` in place; the canonical pair is left in
      `dims[..n]` and `perm[..n]`. */
  method CanonicalizeIotaDims(dims: array<nat>, perm: array<nat>) returns (n: nat)
    requires dims != perm && dims.Length == perm.Length
    requires AllPositive(dims[..]) && IsPermutation(perm[..], dims.Length)
    modifies dims, perm
    ensures n <= dims.Length && n <= perm.Length
    ensures (dims[..n], perm[..n]) == Canonicalize(old(dims[..]), old(perm[..]))
  {
    n := dims.Length;
    assert dims[..n] == dims[..] && perm[..n] == perm[..];
    if n <= 1 {
      return;
    }
    ghost var d, p := dims[..], perm[..];
    ghost var target := CanonLoop(d, p);
    var oldToNew := new int[n];
    while true
      invariant n <= dims.Length && n <= perm.Length && n <= oldToNew.Length
      invariant dims[..n] == d && perm[..n] == p
      invariant AllPositive(d) && IsPermutation(p, n)
      invariant CanonLoop(d, p) == target
      decreases 2 * |d| + (if 1 in d then 0 else 1)
    {
      CanonRound(d, p);
      n := RemoveUnitDims(dims, perm, n, oldToNew, d, p);
      var changed := MergeRuns(dims, perm, n, RenumberPerm(d, p));
      if !changed {
        d, p := DropUnitSizes(d), RenumberPerm(d, p);
        break;
      }
      d, p := dims[..n], RenumberPerm(d, p);
    }
  }
}
