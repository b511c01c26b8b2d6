/** Splitting every reshape dimension of an iota tile assignment into its
    prime factors, and expanding the transpose permutation to match, so that
    the factors can later be regrouped into the target dimensions. */
module Decanonicalization {
  import opened Permutations
  import opened Shapes

  /** No `e` with 2 <= e < k divides x. */
  ghost predicate NoDivisorBelow(x: nat, k: nat)
  {
    forall e :: 2 <= e < k ==> x % e != 0
  }

  ghost predicate IsPrime(x: nat)
  {
    x >= 2 && NoDivisorBelow(x, x)
  }

  /** The least divisor of `x` that is at least `k`. */
  function SmallestFactorFrom(x: nat, k: nat): (f: nat)
    requires 2 <= k <= x
    ensures k <= f <= x && x % f == 0
    ensures forall e :: k <= e < f ==> x % e != 0
    decreases x - k
  {
    if x % k == 0 then k else SmallestFactorFrom(x, k + 1)
  }

  /** The least divisor of `x` above 1. */
  function SmallestFactor(x: nat): (f: nat)
    requires x >= 2
    ensures 2 <= f <= x && x % f == 0
    ensures NoDivisorBelow(x, f)
  {
    SmallestFactorFrom(x, 2)
  }

  lemma MulNonneg(a: int, b: int)
    requires a >= 0 && b >= 0
    ensures a * b >= 0
  {
  }

  /** A multiple of `e` leaves no remainder, and dividing it by `e` gives
      back the multiplier. */
  lemma MultipleMod(e: nat, c: nat)
    requires e > 0
    ensures (e * c) % e == 0 && (e * c) / e == c
  {
    var x := e * c;
    var q, r := x / e, x % e;
    assert x == e * q + r;
    var t := c - q;
    assert e * t == r by {
      assert e * t == e * c - e * q;
    }
    if t >= 1 {
      MulNonneg(e, t - 1);
      assert false;
    } else if t <= -1 {
      MulNonneg(e, -t - 1);
      assert false;
    }
  }

  /** `k * q >= k` once `q >= 1`. */
  lemma MulAtLeast(k: nat, q: nat)
    requires q >= 1
    ensures k * q >= k
  {
  }

  /** A divisor of a positive number is at most that number, and the
      quotient is positive. */
  lemma DivisorAtMost(x: nat, k: nat)
    requires x >= 1 && k >= 1 && x % k == 0
    ensures k <= x && x / k >= 1 && x == k * (x / k)
  {
  }

  lemma QuotientSmaller(x: nat, f: nat)
    requires 2 <= f <= x && x % f == 0
    ensures 1 <= x / f < x && x == f * (x / f)
  {
    DivisorAtMost(x, f);
    var q := x / f;
    MulNonneg(f - 2, q);
    assert f * q == (f - 2) * q + 2 * q;
  }

  /** The prime factors of `x` in ascending order, with multiplicity: the
      reference against which the trial division is checked. */
  function PrimeFactors(x: nat): (fs: seq<nat>)
    requires x >= 1
    decreases x
  {
    if x == 1 then []
    else
      var f := SmallestFactor(x);
      QuotientSmaller(x, f);
      [f] + PrimeFactors(x / f)
  }

  /** A divisor of a divisor is a divisor. */
  lemma DivisorTransitive(x: nat, f: nat, e: nat)
    requires f >= 1 && e >= 1 && x % f == 0 && f % e == 0
    ensures x % e == 0
  {
    var a, b := x / f, f / e;
    assert x == f * a;
    assert f == e * b;
    assert x == e * (b * a) by {
      assert x == (e * b) * a;
    }
    MultipleMod(e, b * a);
  }

  lemma SmallestFactorPrime(x: nat)
    requires x >= 2
    ensures IsPrime(SmallestFactor(x))
  {
    var f := SmallestFactor(x);
    forall e | 2 <= e < f
      ensures f % e != 0
    {
      if f % e == 0 {
        DivisorTransitive(x, f, e);
      }
    }
  }

  lemma ProductCons(f: nat, s: seq<nat>)
    ensures Product([f] + s) == f * Product(s)
  {
    ProductAppend([f], s);
    ProductSingleton(f);
  }

  /** The factors multiply back to `x`, and each of them is prime, so at
      least 2. */
  lemma {:induction false} PrimeFactorsCorrect(x: nat)
    requires x >= 1
    ensures Product(PrimeFactors(x)) == x
    ensures forall i :: 0 <= i < |PrimeFactors(x)| ==> IsPrime(PrimeFactors(x)[i])
    ensures forall i :: 0 <= i < |PrimeFactors(x)| ==> PrimeFactors(x)[i] >= 2
  {
    if x > 1 {
      var f := SmallestFactor(x);
      QuotientSmaller(x, f);
      PrimeFactorsCorrect(x / f);
      ProductCons(f, PrimeFactors(x / f));
      SmallestFactorPrime(x);
    }
  }

  /** With no divisor below `k`, a divisor `k` is the smallest one. */
  lemma {:induction false} SmallestFactorFromIs(x: nat, j: nat, k: nat)
    requires 2 <= j <= k <= x && x % k == 0
    requires NoDivisorBelow(x, k)
    ensures SmallestFactorFrom(x, j) == k
    decreases k - j
  {
    if j < k {
      SmallestFactorFromIs(x, j + 1, k);
    }
  }

  lemma PeelFactor(x: nat, k: nat)
    requires 2 <= k && x >= 1 && x % k == 0
    requires NoDivisorBelow(x, k)
    ensures k <= x && x / k >= 1
    ensures PrimeFactors(x) == [k] + PrimeFactors(x / k)
  {
    DivisorAtMost(x, k);
    SmallestFactorFromIs(x, 2, k);
    QuotientSmaller(x, k);
  }

  /** With no divisor below `k` and `k * k > x`, `x` is prime. */
  lemma LastFactor(x: nat, k: nat)
    requires 2 <= k && x >= 2 && k * k > x
    requires NoDivisorBelow(x, k)
    ensures PrimeFactors(x) == [x]
  {
    var f := SmallestFactor(x);
    QuotientSmaller(x, f);
    if f < x {
      var e := x / f;
      assert e >= 2;
      MultipleMod(e, f);
      assert e * f == x;
      assert f >= k && e >= k;
      MulMono(k, f, e);
      MulMono(k, e, k);
      assert false;
    }
    MultipleMod(x, 1);
    assert PrimeFactors(1) == [];
  }

  lemma QuotientDivisors(x: nat, k: nat, m: nat)
    requires 2 <= k && x >= 1 && x % k == 0
    requires NoDivisorBelow(x, m)
    ensures NoDivisorBelow(x / k, m)
  {
    DivisorAtMost(x, k);
    var q := x / k;
    MultipleMod(q, k);
    assert q * k == x;
    forall e | 2 <= e < m
      ensures q % e != 0
    {
      if q % e == 0 {
        DivisorTransitive(x, q, e);
      }
    }
  }

  lemma OddNoEvenDivisor(x: nat, e: nat)
    requires x % 2 == 1 && e >= 2 && e % 2 == 0
    ensures x % e != 0
  {
    if x % e == 0 {
      DivisorTransitive(x, e, 2);
    }
  }

  lemma OddQuotient(x: nat, k: nat)
    requires x % 2 == 1 && k >= 1 && x % k == 0
    ensures (x / k) % 2 == 1
  {
    var q := x / k;
    assert x == k * q;
    if q % 2 == 0 {
      var h := q / 2;
      assert q == 2 * h;
      assert x == 2 * (k * h);
      MultipleMod(2, k * h);
      assert false;
    }
  }

  lemma SquareAtLeast(i: nat)
    requires i >= 1
    ensures i * i >= i
  {
    MulAtLeast(i, i);
  }

  /** An odd `x` divisible by neither `i` nor anything below it has no
      divisor below `i + 2`. */
  lemma NoDivisorPastOdd(x: nat, i: nat)
    requires x % 2 == 1 && i >= 3 && i % 2 == 1
    requires NoDivisorBelow(x, i) && x % i != 0
    ensures NoDivisorBelow(x, i + 2)
  {
    OddNoEvenDivisor(x, i + 1);
  }

  /** Divides `dimSize` by the candidate `i` for as long as it goes evenly,
      collecting one factor `i` per division. */
  method DivideOut(dimSize: nat, i: nat) returns (rest: nat, peeled: seq<nat>)
    requires dimSize >= 1 && dimSize % 2 == 1 && i >= 3 && i % 2 == 1
    requires NoDivisorBelow(dimSize, i)
    ensures 1 <= rest <= dimSize && rest % 2 == 1
    ensures NoDivisorBelow(rest, i + 2)
    ensures peeled + PrimeFactors(rest) == PrimeFactors(dimSize)
  {
    rest, peeled := dimSize, [];
    while rest % i == 0
      invariant 1 <= rest <= dimSize && rest % 2 == 1
      invariant NoDivisorBelow(rest, i)
      invariant peeled + PrimeFactors(rest) == PrimeFactors(dimSize)
      decreases rest
    {
      PeelFactor(rest, i);
      QuotientSmaller(rest, i);
      QuotientDivisors(rest, i, i);
      OddQuotient(rest, i);
      peeled := peeled + [i];
      rest := rest / i;
    }
    NoDivisorPastOdd(rest, i);
  }

  /** Trial division: strip factors 2, then odd candidates `i` while
      `i * i` does not exceed what is left; a remainder above 1 is prime. */
  method PrimeFactorsOf(dimSize0: nat) returns (factors: seq<nat>)
    requires dimSize0 >= 1
    ensures factors == PrimeFactors(dimSize0)
  {
    factors := [];
    var dimSize := dimSize0;
    while dimSize % 2 == 0
      invariant dimSize >= 1
      invariant factors + PrimeFactors(dimSize) == PrimeFactors(dimSize0)
      decreases dimSize
    {
      PeelFactor(dimSize, 2);
      QuotientSmaller(dimSize, 2);
      factors := factors + [2];
      dimSize := dimSize / 2;
    }
    var i: nat := 3;
    while i * i <= dimSize
      invariant dimSize >= 1 && i >= 3 && i % 2 == 1 && dimSize % 2 == 1
      invariant NoDivisorBelow(dimSize, i)
      invariant factors + PrimeFactors(dimSize) == PrimeFactors(dimSize0)
      decreases dimSize as int - i
    {
      SquareAtLeast(i);
      var rest, peeled := DivideOut(dimSize, i);
      factors := factors + peeled;
      dimSize := rest;
      assert (i + 2) % 2 == 1;
      i := i + 2;
    }
    if dimSize > 1 {
      assert dimSize > 2;
      LastFactor(dimSize, i);
      factors := factors + [dimSize];
    }
  }

  /** The factors of every reshape dimension, dimension by dimension. */
  function FactorLists(dims: seq<nat>): (fss: seq<seq<nat>>)
    requires AllPositive(dims)
    ensures |fss| == |dims|
    ensures forall k :: 0 <= k < |dims| ==> fss[k] == PrimeFactors(dims[k])
  {
    seq(|dims|, k requires 0 <= k < |dims| => PrimeFactors(dims[k]))
  }

  /** Where the factors of reshape dimension `k` start among all factors. */
  function Offset(dims: seq<nat>, k: nat): nat
    requires AllPositive(dims) && k <= |dims|
  {
    |Flatten(FactorLists(dims[..k]))|
  }

  /** The numbers `lo`, ..., `hi - 1`. */
  function Interval(lo: nat, hi: nat): (r: seq<nat>)
    requires lo <= hi
    ensures |r| == hi - lo
    ensures forall t :: 0 <= t < |r| ==> r[t] == lo + t
  {
    seq(hi - lo, t => lo + t)
  }

  lemma FactorListsSnoc(dims: seq<nat>, k: nat)
    requires AllPositive(dims) && k < |dims|
    ensures FactorLists(dims[..k + 1]) == FactorLists(dims[..k]) + [PrimeFactors(dims[k])]
    ensures Flatten(FactorLists(dims[..k + 1])) == Flatten(FactorLists(dims[..k])) + PrimeFactors(dims[k])
    ensures Offset(dims, k + 1) == Offset(dims, k) + |PrimeFactors(dims[k])|
  {
    assert FactorLists(dims[..k + 1]) == FactorLists(dims[..k]) + [PrimeFactors(dims[k])];
    FlattenSnoc(FactorLists(dims[..k]), PrimeFactors(dims[k]));
  }

  /** The positions, among all factors, of the factors of each reshape
      dimension: consecutive ranges, one after the other. */
  function Blocks(dims: seq<nat>): (bs: seq<seq<nat>>)
    requires AllPositive(dims)
    ensures |bs| == |dims|
  {
    seq(|dims|, k requires 0 <= k < |dims| =>
      FactorListsSnoc(dims, k);
      Interval(Offset(dims, k), Offset(dims, k + 1)))
  }

  /** Reshape dimension `k` repeated once per factor of it. */
  function Repeats(dims: seq<nat>): (rs: seq<seq<nat>>)
    requires AllPositive(dims)
    ensures |rs| == |dims|
  {
    seq(|dims|, k requires 0 <= k < |dims| => seq(|PrimeFactors(dims[k])|, _ => k))
  }

  /** The positions in `s` that hold `v`, in ascending order. */
  function Positions(s: seq<nat>, v: nat): seq<nat>
  {
    if s == [] then []
    else Positions(s[..|s| - 1], v) + (if s[|s| - 1] == v then [|s| - 1] else [])
  }

  lemma PositionsSnoc(s: seq<nat>, x: nat, v: nat)
    ensures Positions(s + [x], v) == Positions(s, v) + (if x == v then [|s|] else [])
  {
    assert (s + [x])[..|s|] == s;
  }

  /** Every entry `o` of the expanded permutation lies in the block of the
      reshape dimension it is recorded to come from. */
  ghost predicate EntriesInBlocks(dims: seq<nat>, perm: seq<nat>, origin: seq<nat>)
    requires AllPositive(dims)
  {
    |perm| == |origin| &&
    forall o :: 0 <= o < |origin| ==>
      origin[o] < |dims| && Offset(dims, origin[o]) <= perm[o] < Offset(dims, origin[o] + 1)
  }

  /** For every original dimension `d < n`, `table[d]` lists the positions
      of `d` in `origin`. */
  ghost predicate PositionsTable(table: seq<seq<nat>>, origin: seq<nat>, n: nat)
  {
    |table| == n && forall d :: 0 <= d < n ==> table[d] == Positions(origin, d)
  }

  /** `offsets[k]` is where the factors of reshape dimension `k` start. */
  ghost predicate OffsetTable(dims: seq<nat>, offsets: seq<nat>)
    requires AllPositive(dims)
  {
    |offsets| == |dims| + 1 && forall k :: 0 <= k <= |dims| ==> offsets[k] == Offset(dims, k)
  }

  /** The result of expanding every reshape dimension into its prime factors. */
  datatype DecanonicalizationInfo = DecanonicalizationInfo(
    newReshapeDims: seq<nat>,
    newTransposePerm: seq<nat>,
    permIdxToOriginalDim: seq<nat>,
    originalDimToPermIndices: seq<seq<nat>>)

  /** Appends the block of reshape dimension `oldDim`, the entries
      `lo`, ..., `hi - 1`, to the expanded permutation, recording for each
      where it came from. */
  method AppendBlock(lo: nat, hi: nat, oldDim: nat, n: nat,
                     perm0: seq<nat>, origin0: seq<nat>, table0: seq<seq<nat>>)
    returns (perm: seq<nat>, origin: seq<nat>, table: seq<seq<nat>>)
    requires lo <= hi && oldDim < n && |perm0| == |origin0|
    requires PositionsTable(table0, origin0, n)
    ensures perm == perm0 + Interval(lo, hi)
    ensures origin == origin0 + seq(hi - lo, _ => oldDim)
    ensures PositionsTable(table, origin, n)
  {
    perm, origin, table := perm0, origin0, table0;
    var j := lo;
    while j < hi
      invariant lo <= j <= hi
      invariant perm == perm0 + Interval(lo, j)
      invariant origin == origin0 + seq(j - lo, _ => oldDim)
      invariant PositionsTable(table, origin, n)
    {
      forall d | 0 <= d < n
        ensures Positions(origin + [oldDim], d) == Positions(origin, d) + (if oldDim == d then [|origin|] else [])
      {
        PositionsSnoc(origin, oldDim, d);
      }
      perm := perm + [j];
      table := table[oldDim := table[oldDim] + [|origin|]];
      origin := origin + [oldDim];
      j := j + 1;
    }
  }

  /** Factors every reshape dimension in turn, recording in
      `oldToNewDims[k]` where the factors of dimension `k` start. */
  method FactorDims(reshapeDims: seq<nat>) returns (newReshapeDims: seq<nat>, oldToNewDims: array<nat>)
    requires AllPositive(reshapeDims)
    ensures fresh(oldToNewDims)
    ensures newReshapeDims == Flatten(FactorLists(reshapeDims))
    ensures OffsetTable(reshapeDims, oldToNewDims[..])
  {
    var n := |reshapeDims|;
    newReshapeDims := [];
    oldToNewDims := new nat[n + 1](_ => 0);
    for i := 0 to n
      invariant newReshapeDims == Flatten(FactorLists(reshapeDims[..i]))
      invariant forall k :: 0 <= k <= i ==> oldToNewDims[k] == Offset(reshapeDims, k)
    {
      var factors := PrimeFactorsOf(reshapeDims[i]);
      FactorListsSnoc(reshapeDims, i);
      newReshapeDims := newReshapeDims + factors;
      oldToNewDims[i + 1] := |newReshapeDims|;
    }
    assert reshapeDims[..n] == reshapeDims;
  }

  /** Replaces every entry of the transpose permutation by the block of
      factor positions of the dimension it names, recording for each new
      entry its original dimension and, per original dimension, its new
      entries. */
  method ExpandPermutation(reshapeDims: seq<nat>, transposePerm: seq<nat>, oldToNewDims: array<nat>)
    returns (newTransposePerm: seq<nat>, origin: seq<nat>, table: seq<seq<nat>>)
    requires AllPositive(reshapeDims) && |transposePerm| == |reshapeDims|
    requires forall i :: 0 <= i < |transposePerm| ==> transposePerm[i] < |reshapeDims|
    requires OffsetTable(reshapeDims, oldToNewDims[..])
    ensures newTransposePerm == Flatten(Permute(Blocks(reshapeDims), transposePerm))
    ensures origin == Flatten(Permute(Repeats(reshapeDims), transposePerm))
    ensures PositionsTable(table, origin, |reshapeDims|)
  {
    var n := |reshapeDims|;
    newTransposePerm, origin, table := [], [], seq(n, _ => []);
    ghost var blocks, repeats := Blocks(reshapeDims), Repeats(reshapeDims);
    for i := 0 to n
      invariant newTransposePerm == Flatten(Permute(blocks, transposePerm[..i]))
      invariant origin == Flatten(Permute(repeats, transposePerm[..i]))
      invariant |newTransposePerm| == |origin|
      invariant PositionsTable(table, origin, n)
    {
      var oldDim := transposePerm[i];
      BlockAndRepeatLength(reshapeDims, oldDim);
      newTransposePerm, origin, table :=
        AppendBlock(oldToNewDims[oldDim], oldToNewDims[oldDim + 1], oldDim, n,
                    newTransposePerm, origin, table);
      FlattenPermuteSnoc(blocks, transposePerm, i);
      FlattenPermuteSnoc(repeats, transposePerm, i);
    }
    assert transposePerm[..n] == transposePerm;
  }

  /** Splits every reshape dimension into its prime factors (in ascending
      order) and expands the transpose permutation so that each original
      entry becomes the run of that dimension's factors. */
  method FullyDecanonicalize(reshapeDims: seq<nat>, transposePerm: seq<nat>)
    returns (info: DecanonicalizationInfo)
    requires AllPositive(reshapeDims) && |transposePerm| == |reshapeDims|
    requires forall i :: 0 <= i < |transposePerm| ==> transposePerm[i] < |reshapeDims|
    ensures info.newReshapeDims == Flatten(FactorLists(reshapeDims))
    ensures info.newTransposePerm == Flatten(Permute(Blocks(reshapeDims), transposePerm))
    ensures info.permIdxToOriginalDim == Flatten(Permute(Repeats(reshapeDims), transposePerm))
    ensures PositionsTable(info.originalDimToPermIndices, info.permIdxToOriginalDim, |reshapeDims|)
  {
    var newReshapeDims, oldToNewDims := FactorDims(reshapeDims);
    var newTransposePerm, origin, table := ExpandPermutation(reshapeDims, transposePerm, oldToNewDims);
    info := DecanonicalizationInfo(newReshapeDims, newTransposePerm, origin, table);
  }

  /** The factors of the first `k` reshape dimensions multiply to the
      product of those dimensions. */
  lemma {:induction false} FactorsProductPrefix(dims: seq<nat>, k: nat)
    requires AllPositive(dims) && k <= |dims|
    ensures Product(Flatten(FactorLists(dims[..k]))) == Product(dims[..k])
  {
    if k > 0 {
      FactorsProductPrefix(dims, k - 1);
      FactorListsSnoc(dims, k - 1);
      ProductAppend(Flatten(FactorLists(dims[..k - 1])), PrimeFactors(dims[k - 1]));
      PrimeFactorsCorrect(dims[k - 1]);
      assert dims[..k] == dims[..k - 1] + [dims[k - 1]];
      ProductSnoc(dims[..k - 1], dims[k - 1]);
    }
  }

  /** Decanonicalising keeps the number of devices. */
  lemma FactorsProduct(dims: seq<nat>)
    requires AllPositive(dims)
    ensures Product(Flatten(FactorLists(dims))) == Product(dims)
  {
    FactorsProductPrefix(dims, |dims|);
    assert dims[..|dims|] == dims;
  }

  ghost predicate AllPrime(s: seq<nat>)
  {
    forall i :: 0 <= i < |s| ==> IsPrime(s[i])
  }

  lemma {:induction false} FactorsPrimePrefix(dims: seq<nat>, k: nat)
    requires AllPositive(dims) && k <= |dims|
    ensures AllPrime(Flatten(FactorLists(dims[..k])))
  {
    if k > 0 {
      FactorsPrimePrefix(dims, k - 1);
      FactorListsSnoc(dims, k - 1);
      PrimeFactorsCorrect(dims[k - 1]);
    }
  }

  /** Every new reshape dimension is a prime. */
  lemma FactorsPrime(dims: seq<nat>)
    requires AllPositive(dims)
    ensures AllPrime(Flatten(FactorLists(dims)))
  {
    FactorsPrimePrefix(dims, |dims|);
    assert dims[..|dims|] == dims;
  }

  lemma RangeInterval(a: nat, b: nat)
    requires a <= b
    ensures Range(a) + Interval(a, b) == Range(b)
  {
  }

  lemma {:induction false} BlocksPrefix(dims: seq<nat>, k: nat)
    requires AllPositive(dims) && k <= |dims|
    ensures Flatten(Blocks(dims)[..k]) == Range(Offset(dims, k))
  {
    if k == 0 {
      assert Blocks(dims)[..0] == [];
    } else {
      BlocksPrefix(dims, k - 1);
      var bs := Blocks(dims);
      FactorListsSnoc(dims, k - 1);
      assert bs[..k] == bs[..k - 1] + [bs[k - 1]];
      FlattenSnoc(bs[..k - 1], bs[k - 1]);
      RangeInterval(Offset(dims, k - 1), Offset(dims, k));
    }
  }

  /** The blocks, in their original order, number every new reshape
      dimension once and in order. */
  lemma BlocksCoverRange(dims: seq<nat>)
    requires AllPositive(dims)
    ensures Flatten(Blocks(dims)) == Range(|Flatten(FactorLists(dims))|)
  {
    BlocksPrefix(dims, |dims|);
    assert dims[..|dims|] == dims;
    assert Blocks(dims)[..|dims|] == Blocks(dims);
  }

  /** The expanded transpose permutation is a permutation of the new
      reshape dimensions. */
  lemma ExpandedPermutation(dims: seq<nat>, perm: seq<nat>)
    requires AllPositive(dims) && IsPermutation(perm, |dims|)
    ensures forall i :: 0 <= i < |perm| ==> perm[i] < |dims|
    ensures IsPermutation(Flatten(Permute(Blocks(dims), perm)), |Flatten(FactorLists(dims))|)
  {
    FlattenPermuted(Blocks(dims), perm);
    BlocksCoverRange(dims);
  }

  lemma BlockAndRepeatLength(dims: seq<nat>, d: nat)
    requires AllPositive(dims) && d < |dims|
    ensures Offset(dims, d) <= Offset(dims, d + 1)
    ensures Blocks(dims)[d] == Interval(Offset(dims, d), Offset(dims, d + 1))
    ensures Repeats(dims)[d] == seq(Offset(dims, d + 1) - Offset(dims, d), _ => d)
    ensures |Blocks(dims)[d]| == |Repeats(dims)[d]| == Offset(dims, d + 1) - Offset(dims, d)
    ensures forall t :: 0 <= t < |Blocks(dims)[d]| ==> Blocks(dims)[d][t] == Offset(dims, d) + t
    ensures forall t :: 0 <= t < |Repeats(dims)[d]| ==> Repeats(dims)[d][t] == d
  {
    FactorListsSnoc(dims, d);
  }

  lemma EntriesInBlocksSnoc(dims: seq<nat>, perm: seq<nat>, origin: seq<nat>, d: nat)
    requires AllPositive(dims) && d < |dims|
    requires EntriesInBlocks(dims, perm, origin)
    ensures EntriesInBlocks(dims, perm + Blocks(dims)[d], origin + Repeats(dims)[d])
  {
    BlockAndRepeatLength(dims, d);
    var perm', origin' := perm + Blocks(dims)[d], origin + Repeats(dims)[d];
    forall o | 0 <= o < |origin'|
      ensures origin'[o] < |dims| && Offset(dims, origin'[o]) <= perm'[o] < Offset(dims, origin'[o] + 1)
    {
      if o >= |origin| {
        assert origin'[o] == Repeats(dims)[d][o - |origin|];
        assert perm'[o] == Blocks(dims)[d][o - |perm|];
      }
    }
  }

  lemma EntriesInBlocksStep(dims: seq<nat>, perm: seq<nat>, i: nat)
    requires AllPositive(dims) && i < |perm|
    requires forall k :: 0 <= k < |perm| ==> perm[k] < |dims|
    requires EntriesInBlocks(dims, Flatten(Permute(Blocks(dims), perm[..i])),
                             Flatten(Permute(Repeats(dims), perm[..i])))
    ensures EntriesInBlocks(dims, Flatten(Permute(Blocks(dims), perm[..i + 1])),
                            Flatten(Permute(Repeats(dims), perm[..i + 1])))
  {
    var blocks, repeats := Blocks(dims), Repeats(dims);
    FlattenPermuteSnoc(blocks, perm, i);
    FlattenPermuteSnoc(repeats, perm, i);
    EntriesInBlocksSnoc(dims, Flatten(Permute(blocks, perm[..i])),
                        Flatten(Permute(repeats, perm[..i])), perm[i]);
  }

  lemma {:induction false} EntriesInBlocksPrefix(dims: seq<nat>, perm: seq<nat>, i: nat)
    requires AllPositive(dims) && i <= |perm|
    requires forall k :: 0 <= k < |perm| ==> perm[k] < |dims|
    ensures EntriesInBlocks(dims, Flatten(Permute(Blocks(dims), perm[..i])),
                            Flatten(Permute(Repeats(dims), perm[..i])))
  {
    if i == 0 {
      assert perm[..0] == [];
    } else {
      EntriesInBlocksPrefix(dims, perm, i - 1);
      EntriesInBlocksStep(dims, perm, i - 1);
    }
  }

  /** Each entry of the expanded permutation names a factor of the
      original reshape dimension it is recorded against. */
  lemma ExpandedEntriesInBlocks(dims: seq<nat>, perm: seq<nat>)
    requires AllPositive(dims)
    requires forall k :: 0 <= k < |perm| ==> perm[k] < |dims|
    ensures EntriesInBlocks(dims, Flatten(Permute(Blocks(dims), perm)),
                            Flatten(Permute(Repeats(dims), perm)))
  {
    EntriesInBlocksPrefix(dims, perm, |perm|);
    assert perm[..|perm|] == perm;
  }

  /** `Positions(s, v)` lists exactly the positions of `v` in `s`, in
      strictly ascending order. */
  lemma {:induction false} PositionsCorrect(s: seq<nat>, v: nat)
    ensures forall j :: 0 <= j < |Positions(s, v)| ==>
      Positions(s, v)[j] < |s| && s[Positions(s, v)[j]] == v
    ensures forall j, j' :: 0 <= j < j' < |Positions(s, v)| ==>
      Positions(s, v)[j] < Positions(s, v)[j']
    ensures forall o :: 0 <= o < |s| && s[o] == v ==> o in Positions(s, v)
  {
    if s != [] {
      var t := s[..|s| - 1];
      PositionsCorrect(t, v);
      assert s == t + [s[|s| - 1]];
    }
  }
}
