/** What the dense axis permutation does to the elements: size-1 axes can be
    dropped, two axes that the permutation keeps adjacent can be folded into
    one, and two permutations in a row are one permutation. These are the
    facts that make canonicalisation and the iota form's fast transpose
    paths stand for the right array. */
module TransposeAlgebra {
  import opened Permutations
  import opened Shapes
  import opened DenseArrays
  import opened Canonicalization
  import TK = TransposeKinds

  // ---------------------------------------------------------------------
  // Size-1 axes

  /** The entries of `x` at the first `i` positions where `d` is not 1. */
  function KeptEntries(d: seq<nat>, x: seq<nat>, i: nat): (r: seq<nat>)
    requires i <= |d| == |x|
    ensures |r| == CountNonUnit(d, i)
  {
    if i == 0 then [] else KeptEntries(d, x, i - 1) + (if d[i - 1] == 1 then [] else [x[i - 1]])
  }

  /** The entry at a position where `d` is not 1 is kept, at the place given
      by the number of such positions before it. */
  lemma {:induction false} KeptEntryAt(d: seq<nat>, x: seq<nat>, j: nat, i: nat)
    requires j < i <= |d| == |x| && d[j] != 1
    ensures CountNonUnit(d, j) < |KeptEntries(d, x, i)|
    ensures KeptEntries(d, x, i)[CountNonUnit(d, j)] == x[j]
  {
    if i > j + 1 {
      KeptEntryAt(d, x, j, i - 1);
      TK.CountMono(d, j, i - 1);
    }
    assert KeptEntries(d, x, i) == KeptEntries(d, x, i - 1) + (if d[i - 1] == 1 then [] else [x[i - 1]]);
  }

  lemma {:induction false} KeptInBounds(d: seq<nat>, x: seq<nat>, i: nat)
    requires InBounds(x, d) && i <= |d|
    ensures InBounds(KeptEntries(d, x, i), KeptSizes(d, i))
  {
    if i > 0 {
      KeptInBounds(d, x, i - 1);
    }
  }

  lemma LinearizeSnoc(s: seq<nat>, x: seq<nat>, a: nat, b: nat)
    requires |s| == |x|
    ensures Linearize(s + [a], x + [b]) == Linearize(s, x) * a + b
  {
    assert (s + [a])[..|s|] == s;
    assert (x + [b])[..|x|] == x;
  }

  /** Row-major offsets of prefixes: one more axis multiplies by its size
      and adds its coordinate. */
  lemma LinearizePrefix(d: seq<nat>, x: seq<nat>, i: nat)
    requires 0 < i <= |d| == |x|
    ensures Linearize(d[..i], x[..i]) == Linearize(d[..i - 1], x[..i - 1]) * d[i - 1] + x[i - 1]
  {
    assert d[..i] == d[..i - 1] + [d[i - 1]];
    assert x[..i] == x[..i - 1] + [x[i - 1]];
    LinearizeSnoc(d[..i - 1], x[..i - 1], d[i - 1], x[i - 1]);
  }

  /** One more axis: a size-1 axis adds nothing to the offset `l`, any other
      axis adds the same digit on both sides. */
  lemma LinearizeKeptStep(l: nat, ks: seq<nat>, ke: seq<nat>, c: nat, b: nat)
    requires |ks| == |ke| && b < c && l == Linearize(ks, ke)
    ensures l * c + b == Linearize(ks + (if c == 1 then [] else [c]), ke + (if c == 1 then [] else [b]))
  {
    if c != 1 {
      LinearizeSnoc(ks, ke, c, b);
    } else {
      assert ks + [] == ks && ke + [] == ke;
    }
  }

  /** The coordinates of size-1 axes are 0, so leaving them out keeps the
      row-major offset. */
  lemma {:induction false} LinearizeKept(d: seq<nat>, x: seq<nat>, i: nat)
    requires InBounds(x, d) && i <= |d|
    ensures Linearize(d[..i], x[..i]) == Linearize(KeptSizes(d, i), KeptEntries(d, x, i))
  {
    if i > 0 {
      LinearizeKept(d, x, i - 1);
      LinearizePrefix(d, x, i);
      assert x[i - 1] < d[i - 1];
      LinearizeKeptStep(Linearize(d[..i - 1], x[..i - 1]), KeptSizes(d, i - 1), KeptEntries(d, x, i - 1), d[i - 1], x[i - 1]);
    }
  }

  /** Leaving out the size-1 axes keeps the row-major offset. */
  lemma LinearizeDropUnits(d: seq<nat>, x: seq<nat>)
    requires InBounds(x, d)
    ensures Linearize(d, x) == Linearize(DropUnitSizes(d), KeptEntries(d, x, |d|))
  {
    LinearizeKept(d, x, |d|);
    assert d[..|d|] == d && x[..|x|] == x;
  }

  /** The digits of an offset under the non-unit sizes are its digits under
      all the sizes with the size-1 axes left out. */
  lemma DelinearizeKept(d: seq<nat>, k: nat)
    requires AllPositive(d) && k < Product(d)
    ensures AllPositive(DropUnitSizes(d))
    ensures KeptEntries(d, Delinearize(d, k), |d|) == Delinearize(DropUnitSizes(d), k)
  {
    DropUnitSizesFacts(d);
    var x := Delinearize(d, k);
    DelinearizeInBounds(d, k);
    LinearizeDelinearize(d, k);
    LinearizeKept(d, x, |d|);
    assert d[..|d|] == d && x[..|x|] == x;
    KeptInBounds(d, x, |d|);
    DelinearizeLinearize(DropUnitSizes(d), KeptEntries(d, x, |d|));
  }

  /** Keeping the entries at non-unit axes commutes with permuting the axes:
      the kept entries of the permuted index are the kept entries of the
      index under the renumbered permutation. */
  lemma {:induction false} KeptPermuteCommute(d: seq<nat>, s: seq<nat>, p: seq<nat>, i: nat)
    requires |s| == |d| && i <= |p|
    requires forall k :: 0 <= k < |p| ==> p[k] < |d|
    ensures TK.RenumberFits(d, p, i)
    ensures KeptEntries(Permute(d, p), Permute(s, p), i) == Permute(KeptEntries(d, s, |d|), RenumberPrefix(d, p, i))
  {
    TK.RenumberBounds(d, p, i);
    if i > 0 {
      KeptPermuteCommute(d, s, p, i - 1);
      KeptPermuteStep(d, s, p, i);
    }
  }

  lemma KeptPermuteStep(d: seq<nat>, s: seq<nat>, p: seq<nat>, i: nat)
    requires |s| == |d| && 0 < i <= |p|
    requires forall k :: 0 <= k < |p| ==> p[k] < |d|
    requires TK.RenumberFits(d, p, i - 1) && TK.RenumberFits(d, p, i)
    requires KeptEntries(Permute(d, p), Permute(s, p), i - 1) ==
             Permute(KeptEntries(d, s, |d|), RenumberPrefix(d, p, i - 1))
    ensures KeptEntries(Permute(d, p), Permute(s, p), i) == Permute(KeptEntries(d, s, |d|), RenumberPrefix(d, p, i))
  {
    var ks, r := KeptEntries(d, s, |d|), RenumberPrefix(d, p, i - 1);
    var j := p[i - 1];
    if d[j] == 1 {
      assert RenumberPrefix(d, p, i) == r;
    } else {
      var c := CountNonUnit(d, j);
      KeptEntryAt(d, s, j, |d|);
      assert RenumberPrefix(d, p, i) == r + [c];
      PermuteSnoc(ks, r, c);
    }
  }

  /** Scattering digits back to axis order and keeping the non-unit axes
      is keeping the non-unit digits and scattering them with the
      renumbered permutation. */
  lemma KeptScatter(d: seq<nat>, p: seq<nat>, x: seq<nat>)
    requires IsPermutation(p, |d|) && |x| == |d|
    ensures |p| == |d| && forall i :: 0 <= i < |p| ==> p[i] < |d|
    ensures forall v :: 0 <= v < |p| ==> v in p
    ensures IsPermutation(RenumberPerm(d, p), |DropUnitSizes(d)|)
    ensures |RenumberPerm(d, p)| == |KeptEntries(Permute(d, p), x, |d|)|
    ensures forall v :: 0 <= v < |RenumberPerm(d, p)| ==> v in RenumberPerm(d, p)
    ensures KeptEntries(d, Scatter(p, x), |d|) == Scatter(RenumberPerm(d, p), KeptEntries(Permute(d, p), x, |d|))
  {
    PermutationFacts(p, |d|);
    RenumberPermutation(d, p);
    var p' := RenumberPerm(d, p);
    PermutationFacts(p', |DropUnitSizes(d)|);
    var s := Scatter(p, x);
    var ks := KeptEntries(d, s, |d|);
    PermuteScatter(p, x);
    KeptPermuteCommute(d, s, p, |p|);
    assert KeptEntries(Permute(d, p), x, |d|) == Permute(ks, p');
    ScatterPermute(p', ks);
  }

  /** The non-unit digits of an offset in the permuted shape are its digits
      in the permuted shape without size-1 axes. */
  lemma PermutedKeptDigits(d: seq<nat>, p: seq<nat>, k: nat)
    requires AllPositive(d) && IsPermutation(p, |d|) && k < Product(d)
    ensures |p| == |d| && forall i :: 0 <= i < |p| ==> p[i] < |d|
    ensures AllPositive(Permute(d, p)) && forall i :: 0 <= i < |RenumberPerm(d, p)| ==> RenumberPerm(d, p)[i] < |DropUnitSizes(d)|
    ensures AllPositive(Permute(DropUnitSizes(d), RenumberPerm(d, p)))
    ensures KeptEntries(Permute(d, p), Delinearize(Permute(d, p), k), |d|) ==
            Delinearize(Permute(DropUnitSizes(d), RenumberPerm(d, p)), k)
  {
    PermutationBounds(p, |d|);
    ProductPermute(d, p);
    DropUnitSizesFacts(d);
    RenumberPermutation(d, p);
    PermutationBounds(RenumberPerm(d, p), |DropUnitSizes(d)|);
    DelinearizeKept(Permute(d, p), k);
    TK.DropPermuteCommute(d, p, |p|);
  }

  /** The source index of a transposed element has the same offset with
      or without its size-1 axes. */
  lemma SourceIndexKept(d: seq<nat>, p: seq<nat>, k: nat)
    requires AllPositive(d) && IsPermutation(p, |d|) && k < Product(d)
    ensures |p| == |d| && forall i :: 0 <= i < |p| ==> p[i] < |d|
    ensures forall v :: 0 <= v < |p| ==> v in p
    ensures AllPositive(Permute(d, p))
    ensures SourceOffset(d, p, k) ==
            Linearize(DropUnitSizes(d), KeptEntries(d, Scatter(p, Delinearize(Permute(d, p), k)), |d|))
  {
    PermutationFacts(p, |d|);
    ProductPermute(d, p);
    var x := Delinearize(Permute(d, p), k);
    var s := Scatter(p, x);
    DelinearizeInBounds(Permute(d, p), k);
    ScatterInBounds(d, p, x);
    LinearizeDropUnits(d, s);
  }

  /** Transposing with or without the size-1 axes reads the same source
      offsets: the size-1 axes can be dropped and the permutation
      renumbered. */
  lemma UnitAxesOffset(d: seq<nat>, p: seq<nat>, k: nat)
    requires AllPositive(d) && IsPermutation(p, |d|) && k < Product(d)
    ensures AllPositive(DropUnitSizes(d)) && Product(DropUnitSizes(d)) == Product(d)
    ensures forall i :: 0 <= i < |p| ==> p[i] < |d|
    ensures IsPermutation(RenumberPerm(d, p), |DropUnitSizes(d)|)
    ensures SourceOffset(d, p, k) == SourceOffset(DropUnitSizes(d), RenumberPerm(d, p), k)
  {
    DropUnitSizesFacts(d);
    SourceIndexKept(d, p, k);
    PermutedKeptDigits(d, p, k);
    KeptScatter(d, p, Delinearize(Permute(d, p), k));
  }

  /** Permuting by the identity reads every element in place. */
  lemma IdentityOffset(d: seq<nat>, k: nat)
    requires AllPositive(d) && k < Product(d)
    ensures IsPermutation(Range(|d|), |d|)
    ensures SourceOffset(d, Range(|d|), k) == k
  {
    var r := Range(|d|);
    var x := Delinearize(d, k);
    assert Permute(d, r) == d;
    assert Permute(x, r) == x;
    ScatterPermute(r, x);
    LinearizeDelinearize(d, k);
  }

  /** A permutation that keeps the non-unit axes in order reads every
      element in place. */
  lemma NoReorderOffset(d: seq<nat>, p: seq<nat>, k: nat)
    requires AllPositive(d) && IsPermutation(p, |d|) && k < Product(d)
    requires forall i :: 0 <= i < |p| ==> p[i] < |d|
    requires !TK.ReordersNonUnitAxes(d, p)
    ensures SourceOffset(d, p, k) == k
  {
    PermutationBounds(p, |d|);
    UnitAxesOffset(d, p, k);
    TK.NoReorderIff(d, p);
    IdentityOffset(DropUnitSizes(d), k);
  }

  /** A permutation that moves only size-1 axes keeps the elements in their
      flat order. */
  lemma NoReorderKeepsValues(a: DenseArray, p: seq<nat>)
    requires Valid(a) && IsPermutation(p, |a.dims|)
    requires forall i :: 0 <= i < |p| ==> p[i] < |a.dims|
    requires !TK.ReordersNonUnitAxes(a.dims, p)
    ensures TransposeDimensions(a, p).values == a.values
  {
    var r := TransposeDimensions(a, p);
    forall k | 0 <= k < |a.values|
      ensures r.values[k] == a.values[k]
    {
      NoReorderOffset(a.dims, p, k);
    }
  }

  /** A no-op permutation gives back the same array. */
  lemma NoopKeepsArray(a: DenseArray, p: seq<nat>)
    requires Valid(a) && IsPermutation(p, |a.dims|)
    requires |p| == |a.dims| && forall i :: 0 <= i < |p| ==> p[i] < |a.dims|
    requires TK.KindOf(a.dims, p) == TK.Noop
    ensures TransposeDimensions(a, p) == a
  {
    NoReorderKeepsValues(a, p);
    TK.NoopKeepsDims(a.dims, p);
  }

  // ---------------------------------------------------------------------
  // Folding an axis into an earlier one

  /** `s` with axis `c` folded into axis `a`: `a` takes both sizes and `c`
      becomes a size-1 axis. */
  function Fold(s: seq<nat>, a: nat, c: nat): (r: seq<nat>)
    requires a < c < |s|
    ensures |r| == |s|
  {
    s[a := s[a] * s[c]][c := 1]
  }

  /** The index `x` of shape `s` as an index of `Fold(s, a, c)`. */
  function FoldIndex(s: seq<nat>, x: seq<nat>, a: nat, c: nat): (r: seq<nat>)
    requires a < c < |s| == |x|
    ensures |r| == |s|
  {
    x[a := x[a] * s[c] + x[c]][c := 0]
  }

  /** Every axis strictly between `a` and `c` has size 1. */
  ghost predicate UnitsBetween(s: seq<nat>, a: nat, c: nat)
    requires c <= |s|
  {
    forall t :: a < t < c ==> s[t] == 1
  }

  lemma FoldArith(l: nat, sa: nat, xa: nat, sc: nat, xc: nat)
    ensures (l * sa + xa) * sc + xc == l * (sa * sc) + (xa * sc + xc)
  {
    assert (l * sa + xa) * sc == l * sa * sc + xa * sc;
  }

  /** Axes of size 1 with coordinate 0 add nothing to the offset. */
  lemma {:induction false} LinearizeUnitRun(s: seq<nat>, x: seq<nat>, a: nat, m: nat)
    requires |s| == |x| && a < m <= |s|
    requires forall t :: a < t < m ==> s[t] == 1 && x[t] == 0
    ensures Linearize(s[..m], x[..m]) == Linearize(s[..a + 1], x[..a + 1])
  {
    if m > a + 1 {
      LinearizeUnitRun(s, x, a, m - 1);
      assert s[..m] == s[..m - 1] + [s[m - 1]];
      assert x[..m] == x[..m - 1] + [x[m - 1]];
      LinearizeSnoc(s[..m - 1], x[..m - 1], s[m - 1], x[m - 1]);
    }
  }

  lemma FoldIndexInBounds(s: seq<nat>, x: seq<nat>, a: nat, c: nat)
    requires a < c < |s| && InBounds(x, s)
    ensures InBounds(FoldIndex(s, x, a, c), Fold(s, a, c))
  {
    MulStep(x[a], s[a], s[c], x[c]);
  }

  /** The offset of the folded index up to axis `c`, in terms of the
      coordinates before `a`. */
  lemma LinearizeFoldedUpTo(s: seq<nat>, x: seq<nat>, a: nat, c: nat)
    requires a < c < |s| && InBounds(x, s) && UnitsBetween(s, a, c)
    ensures Linearize(Fold(s, a, c)[..c + 1], FoldIndex(s, x, a, c)[..c + 1]) ==
            Linearize(s[..a], x[..a]) * (s[a] * s[c]) + (x[a] * s[c] + x[c])
  {
    var f, y := Fold(s, a, c), FoldIndex(s, x, a, c);
    LinearizeUnitRun(f, y, a, c + 1);
    assert f[..a + 1] == s[..a] + [s[a] * s[c]];
    assert y[..a + 1] == x[..a] + [x[a] * s[c] + x[c]];
    LinearizeSnoc(s[..a], x[..a], s[a] * s[c], x[a] * s[c] + x[c]);
  }

  /** The offset of the original index up to axis `c`, in the same terms. */
  lemma LinearizeOriginalUpTo(s: seq<nat>, x: seq<nat>, a: nat, c: nat)
    requires a < c < |s| && InBounds(x, s) && UnitsBetween(s, a, c)
    ensures Linearize(s[..c + 1], x[..c + 1]) == (Linearize(s[..a], x[..a]) * s[a] + x[a]) * s[c] + x[c]
  {
    assert Linearize(s[..c], x[..c]) == Linearize(s[..a], x[..a]) * s[a] + x[a] by {
      LinearizeUnitRun(s, x, a, c);
      assert s[..a + 1] == s[..a] + [s[a]];
      assert x[..a + 1] == x[..a] + [x[a]];
      LinearizeSnoc(s[..a], x[..a], s[a], x[a]);
    }
    assert s[..c + 1] == s[..c] + [s[c]];
    assert x[..c + 1] == x[..c] + [x[c]];
    LinearizeSnoc(s[..c], x[..c], s[c], x[c]);
  }

  /** Up to and including axis `c`, folding keeps the offset. */
  lemma LinearizeFoldAt(s: seq<nat>, x: seq<nat>, a: nat, c: nat)
    requires a < c < |s| && InBounds(x, s) && UnitsBetween(s, a, c)
    ensures Linearize(Fold(s, a, c)[..c + 1], FoldIndex(s, x, a, c)[..c + 1]) == Linearize(s[..c + 1], x[..c + 1])
  {
    LinearizeFoldedUpTo(s, x, a, c);
    LinearizeOriginalUpTo(s, x, a, c);
    FoldArith(Linearize(s[..a], x[..a]), s[a], x[a], s[c], x[c]);
  }

  /** Folding axis `c` into axis `a`, with only size-1 axes between them,
      keeps the offset of every index. */
  lemma {:induction false} LinearizeFoldPrefix(s: seq<nat>, x: seq<nat>, a: nat, c: nat, m: nat)
    requires a < c < m <= |s| && InBounds(x, s) && UnitsBetween(s, a, c)
    ensures Linearize(Fold(s, a, c)[..m], FoldIndex(s, x, a, c)[..m]) == Linearize(s[..m], x[..m])
  {
    var f, y := Fold(s, a, c), FoldIndex(s, x, a, c);
    if m == c + 1 {
      LinearizeFoldAt(s, x, a, c);
    } else {
      LinearizeFoldPrefix(s, x, a, c, m - 1);
      LinearizePrefix(f, y, m);
      LinearizePrefix(s, x, m);
      assert f[m - 1] == s[m - 1] && y[m - 1] == x[m - 1];
    }
  }

  lemma LinearizeFold(s: seq<nat>, x: seq<nat>, a: nat, c: nat)
    requires a < c < |s| && InBounds(x, s) && UnitsBetween(s, a, c)
    ensures InBounds(FoldIndex(s, x, a, c), Fold(s, a, c))
    ensures Linearize(Fold(s, a, c), FoldIndex(s, x, a, c)) == Linearize(s, x)
  {
    FoldIndexInBounds(s, x, a, c);
    LinearizeFoldPrefix(s, x, a, c, |s|);
    var f, y := Fold(s, a, c), FoldIndex(s, x, a, c);
    assert f[..|s|] == f && y[..|s|] == y && s[..|s|] == s && x[..|s|] == x;
  }

  /** The digits of an offset in the folded shape are its digits in the
      original shape, folded. */
  lemma DelinearizeFold(s: seq<nat>, k: nat, a: nat, c: nat)
    requires AllPositive(s) && a < c < |s| && UnitsBetween(s, a, c) && k < Product(s)
    ensures AllPositive(Fold(s, a, c)) && Product(Fold(s, a, c)) == Product(s)
    ensures Delinearize(Fold(s, a, c), k) == FoldIndex(s, Delinearize(s, k), a, c)
  {
    MergeStepProduct(s, a, c);
    var x := Delinearize(s, k);
    DelinearizeInBounds(s, k);
    LinearizeDelinearize(s, k);
    LinearizeFold(s, x, a, c);
    DelinearizeLinearize(Fold(s, a, c), FoldIndex(s, x, a, c));
  }

  /** Folding axes `p[b]` and `p[c]` of `d` is folding positions `b` and `c`
      of the permuted shape. */
  lemma PermuteFold(d: seq<nat>, p: seq<nat>, b: nat, c: nat)
    requires IsPermutation(p, |d|) && b < c < |p|
    requires forall i :: 0 <= i < |p| ==> p[i] < |d|
    requires p[b] < p[c]
    ensures Permute(Fold(d, p[b], p[c]), p) == Fold(Permute(d, p), b, c)
  {
    PermutationFacts(p, |d|);
  }

  /** Scattering a folded digit sequence is folding the scattered index. */
  lemma ScatterFold(d: seq<nat>, p: seq<nat>, y: seq<nat>, b: nat, c: nat)
    requires IsPermutation(p, |d|) && |y| == |d| && b < c < |p|
    requires forall i :: 0 <= i < |p| ==> p[i] < |d|
    requires p[b] < p[c]
    ensures |p| == |d| && forall v :: 0 <= v < |p| ==> v in p
    ensures Scatter(p, FoldIndex(Permute(d, p), y, b, c)) == FoldIndex(d, Scatter(p, y), p[b], p[c])
  {
    PermutationFacts(p, |d|);
    var z := FoldIndex(d, Scatter(p, y), p[b], p[c]);
    PermuteScatter(p, y);
    assert Permute(z, p) == FoldIndex(Permute(d, p), y, b, c);
    ScatterPermute(p, z);
  }

  /** Inside a merge sweep: positions `b+1 .. i-1` of `p` continue the run
      that starts at `b`, and their axes already have size 1. */
  ghost predicate RunSoFar(d: seq<nat>, p: seq<nat>, b: nat, i: nat)
    requires forall k :: 0 <= k < |p| ==> p[k] < |d|
  {
    forall t :: b < t < i && t < |p| ==> p[t] == p[b] + (t - b) && d[p[t]] == 1
  }

  /** After a merge the run goes on one position further. Kept apart so
      that the merge sweep's proof does not carry it. */
  lemma RunSoFarStep(d: seq<nat>, p: seq<nat>, b: nat, i: nat)
    requires forall t :: 0 <= t < |p| ==> p[t] < |d|
    requires b < i < |p| && p[b] + (i - b) == p[i] && RunSoFar(d, p, b, i)
    ensures RunSoFar(Fold(d, p[b], p[i]), p, b, i + 1)
  {
  }

  /** The axes strictly inside a run have size 1, both in `d` and in the
      permuted sizes. */
  lemma RunUnits(d: seq<nat>, p: seq<nat>, b: nat, i: nat)
    requires forall t :: 0 <= t < |p| ==> p[t] < |d|
    requires |p| == |d| && b < i < |p| && p[b] + (i - b) == p[i] && RunSoFar(d, p, b, i)
    ensures p[b] < p[i] < |d| && UnitsBetween(d, p[b], p[i]) && UnitsBetween(Permute(d, p), b, i)
  {
    forall e | p[b] < e < p[i]
      ensures d[e] == 1
    {
      assert p[b + (e - p[b])] == e;
    }
  }

  /** One merge: folding axis `p[i]` into axis `p[b]`, when `p[i]` continues
      the run, reads the same source offsets. */
  lemma FoldOffset(d: seq<nat>, p: seq<nat>, b: nat, i: nat, k: nat)
    requires AllPositive(d) && IsPermutation(p, |d|) && k < Product(d)
    requires forall t :: 0 <= t < |p| ==> p[t] < |d|
    requires b < i < |p| && p[b] + (i - b) == p[i] && RunSoFar(d, p, b, i)
    ensures AllPositive(Fold(d, p[b], p[i])) && Product(Fold(d, p[b], p[i])) == Product(d)
    ensures SourceOffset(Fold(d, p[b], p[i]), p, k) == SourceOffset(d, p, k)
  {
    var a, c := p[b], p[i];
    PermutationBounds(p, |d|);
    ProductPermute(d, p);
    var q := Permute(d, p);
    RunUnits(d, p, b, i);
    DelinearizeFold(q, k, b, i);
    DelinearizeFold(d, 0, a, c);
    PermuteFold(d, p, b, i);
    var y := Delinearize(q, k);
    ScatterFold(d, p, y, b, i);
    DelinearizeInBounds(q, k);
    ScatterInBounds(d, p, y);
    LinearizeFold(d, Scatter(p, y), a, c);
  }

  /** A merge sweep reads the same source offsets. */
  lemma {:induction false} MergeFromOffset(d: seq<nat>, p: seq<nat>, i: nat, b: nat, k: nat)
    requires AllPositive(d) && IsPermutation(p, |d|) && k < Product(d)
    requires forall t :: 0 <= t < |p| ==> p[t] < |d|
    requires b < i && RunSoFar(d, p, b, i)
    ensures AllPositive(MergeFrom(d, p, i, b).0) && Product(MergeFrom(d, p, i, b).0) == Product(d)
    ensures SourceOffset(MergeFrom(d, p, i, b).0, p, k) == SourceOffset(d, p, k)
    decreases |p| - i, 1
  {
    MergeFromProduct(d, p, i, b);
    if i >= |p| {
      assert MergeFrom(d, p, i, b).0 == d;
    } else if p[b] + (i - b) == p[i] {
      MergeFoldOffset(d, p, i, b, k);
    } else {
      MergeSkipOffset(d, p, i, b, k);
    }
  }

  /** The step of a merge sweep that ends the run and starts a new one at
      position `i`. */
  lemma {:induction false} MergeSkipOffset(d: seq<nat>, p: seq<nat>, i: nat, b: nat, k: nat)
    requires AllPositive(d) && IsPermutation(p, |d|) && k < Product(d)
    requires forall t :: 0 <= t < |p| ==> p[t] < |d|
    requires b < i < |p| && p[b] + (i - b) != p[i]
    ensures AllPositive(MergeFrom(d, p, i, b).0) && Product(MergeFrom(d, p, i, b).0) == Product(d)
    ensures SourceOffset(MergeFrom(d, p, i, b).0, p, k) == SourceOffset(d, p, k)
    decreases |p| - i, 0
  {
    assert MergeFrom(d, p, i, b) == MergeFrom(d, p, i + 1, i);
    MergeFromOffset(d, p, i + 1, i, k);
  }

  /** The step of a merge sweep that folds axis `p[i]` into the run. */
  lemma {:induction false} MergeFoldOffset(d: seq<nat>, p: seq<nat>, i: nat, b: nat, k: nat)
    requires AllPositive(d) && IsPermutation(p, |d|) && k < Product(d)
    requires forall t :: 0 <= t < |p| ==> p[t] < |d|
    requires b < i < |p| && RunSoFar(d, p, b, i) && p[b] + (i - b) == p[i]
    ensures AllPositive(MergeFrom(d, p, i, b).0) && Product(MergeFrom(d, p, i, b).0) == Product(d)
    ensures SourceOffset(MergeFrom(d, p, i, b).0, p, k) == SourceOffset(d, p, k)
    decreases |p| - i, 0
  {
    var d' := Fold(d, p[b], p[i]);
    FoldOffset(d, p, b, i, k);
    RunSoFarStep(d, p, b, i);
    MergeFromOffset(d', p, i + 1, b, k);
  }

  /** The drop-then-merge rounds read the same source offsets. */
  lemma {:induction false} CanonLoopOffset(d: seq<nat>, p: seq<nat>, k: nat)
    requires AllPositive(d) && IsPermutation(p, |d|) && k < Product(d)
    ensures IsPermutation(CanonLoop(d, p).1, |CanonLoop(d, p).0|)
    ensures AllPositive(CanonLoop(d, p).0) && Product(CanonLoop(d, p).0) == Product(d)
    ensures SourceOffset(CanonLoop(d, p).0, CanonLoop(d, p).1, k) == SourceOffset(d, p, k)
    decreases 2 * |d| + (if 1 in d then 0 else 1)
  {
    CanonLoopFacts(d, p);
    CanonRound(d, p);
    UnitAxesOffset(d, p, k);
    var d1, p1 := DropUnitSizes(d), RenumberPerm(d, p);
    var m := MergeFrom(d1, p1, 1, 0);
    if m.1 {
      MergeFromOffset(d1, p1, 1, 0, k);
      CanonLoopOffset(m.0, p1, k);
    }
  }

  /** Canonicalisation reads the same source offsets: the canonical pair
      describes the same transposed count-up as the pair it came from. */
  lemma CanonicalizeOffset(d: seq<nat>, p: seq<nat>, k: nat)
    requires AllPositive(d) && IsPermutation(p, |d|) && k < Product(d)
    ensures IsPermutation(Canonicalize(d, p).1, |Canonicalize(d, p).0|)
    ensures AllPositive(Canonicalize(d, p).0) && Product(Canonicalize(d, p).0) == Product(d)
    ensures SourceOffset(Canonicalize(d, p).0, Canonicalize(d, p).1, k) == SourceOffset(d, p, k)
  {
    CanonicalizeFacts(d, p);
    if |d| > 1 {
      CanonLoopOffset(d, p, k);
    }
  }

  // ---------------------------------------------------------------------
  // Two permutations in a row

  /** Scattering by `q` and then by `p` is scattering by the composed
      permutation. */
  lemma ScatterCompose(p: seq<nat>, q: seq<nat>, y: seq<nat>)
    requires IsPermutation(p, |y|) && IsPermutation(q, |y|)
    ensures |p| == |q| == |y| && forall i :: 0 <= i < |q| ==> q[i] < |p|
    ensures forall v :: 0 <= v < |y| ==> v in p && v in q && v in Permute(p, q)
    ensures Scatter(p, Scatter(q, y)) == Scatter(Permute(p, q), y)
  {
    PermutationFacts(p, |y|);
    PermutationFacts(q, |y|);
    PermutationCompose(p, q, |y|);
    var pq := Permute(p, q);
    PermutationFacts(pq, |y|);
    var z := Scatter(p, Scatter(q, y));
    PermuteScatter(q, y);
    PermuteScatter(p, Scatter(q, y));
    assert Permute(z, pq) == y;
    ScatterPermute(pq, z);
  }

  /** The source offset of a transposed element, decoded in the shape it
      was read from, is the scattered index. */
  lemma SourceDigits(e: seq<nat>, q: seq<nat>, k: nat)
    requires AllPositive(e) && IsPermutation(q, |e|) && k < Product(e)
    ensures |q| == |e| && forall i :: 0 <= i < |q| ==> q[i] < |e|
    ensures forall v :: 0 <= v < |q| ==> v in q
    ensures AllPositive(Permute(e, q))
    ensures Delinearize(e, SourceOffset(e, q, k)) == Scatter(q, Delinearize(Permute(e, q), k))
  {
    PermutationFacts(q, |e|);
    ProductPermute(e, q);
    var x := Delinearize(Permute(e, q), k);
    DelinearizeInBounds(Permute(e, q), k);
    ScatterInBounds(e, q, x);
    DelinearizeLinearize(e, Scatter(q, x));
  }

  /** Transposing by `P` and then by `q` reads, for every offset, the
      element that transposing once by the composition reads. */
  lemma ComposeOffset(d: seq<nat>, P: seq<nat>, q: seq<nat>, k: nat)
    requires AllPositive(d) && IsPermutation(P, |d|) && IsPermutation(q, |d|) && k < Product(d)
    ensures |P| == |d| && forall i :: 0 <= i < |P| ==> P[i] < |d|
    ensures AllPositive(Permute(d, P)) && Product(Permute(d, P)) == Product(d)
    ensures forall i :: 0 <= i < |q| ==> q[i] < |P|
    ensures IsPermutation(Permute(P, q), |d|)
    ensures SourceOffset(d, P, SourceOffset(Permute(d, P), q, k)) == SourceOffset(d, Permute(P, q), k)
  {
    PermutationBounds(P, |d|);
    PermutationBounds(q, |d|);
    ProductPermute(d, P);
    PermutationCompose(P, q, |d|);
    var e, pq := Permute(d, P), Permute(P, q);
    assert Permute(e, q) == Permute(d, pq);
    SourceDigits(e, q, k);
    ScatterCompose(P, q, Delinearize(Permute(e, q), k));
  }

  /** Two axis permutations in a row are one: by the composition. */
  lemma TransposeTwice(a: DenseArray, P: seq<nat>, q: seq<nat>)
    requires Valid(a) && IsPermutation(P, |a.dims|) && IsPermutation(q, |a.dims|)
    ensures |P| == |a.dims| && forall i :: 0 <= i < |q| ==> q[i] < |P|
    ensures IsPermutation(Permute(P, q), |a.dims|)
    ensures TransposeDimensions(TransposeDimensions(a, P), q) == TransposeDimensions(a, Permute(P, q))
  {
    PermutationBounds(P, |a.dims|);
    PermutationBounds(q, |a.dims|);
    PermutationCompose(P, q, |a.dims|);
    var t1 := TransposeDimensions(a, P);
    var t2 := TransposeDimensions(t1, q);
    var t3 := TransposeDimensions(a, Permute(P, q));
    assert t2.dims == t3.dims;
    forall k | 0 <= k < |t2.values|
      ensures t2.values[k] == t3.values[k]
    {
      ComposeOffset(a.dims, P, q, k);
    }
  }
}
