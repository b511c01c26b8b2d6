/** Dimension lists, their element counts and row-major (major-to-minor)
    index arithmetic: the mixed-radix encoding that turns a multi-index into
    a flat offset and back. */
module Shapes {
  import opened Permutations

  /** Number of elements of an array whose dimension sizes are `s`. */
  function Product(s: seq<nat>): nat
  {
    if s == [] then 1 else Product(s[..|s| - 1]) * s[|s| - 1]
  }

  ghost predicate AllPositive(s: seq<nat>)
  {
    forall i :: 0 <= i < |s| ==> s[i] > 0
  }

  /** `idx` is a multi-index of an array with dimension sizes `dims`. */
  ghost predicate InBounds(idx: seq<nat>, dims: seq<nat>)
  {
    |idx| == |dims| && forall i :: 0 <= i < |idx| ==> idx[i] < dims[i]
  }

  /** Row-major offset of `idx`: the last coordinate varies fastest. */
  function Linearize(dims: seq<nat>, idx: seq<nat>): nat
    requires |idx| == |dims|
  {
    if dims == [] then 0
    else Linearize(dims[..|dims| - 1], idx[..|idx| - 1]) * dims[|dims| - 1] + idx[|idx| - 1]
  }

  /** The digits of `k` in the mixed radix `dims`, most significant first;
      the first digit absorbs whatever does not fit. */
  function Delinearize(dims: seq<nat>, k: nat): (idx: seq<nat>)
    requires AllPositive(dims)
    ensures |idx| == |dims|
  {
    if dims == [] then []
    else Delinearize(dims[..|dims| - 1], k / dims[|dims| - 1]) + [k % dims[|dims| - 1]]
  }

  lemma {:induction false} ProductAppend(a: seq<nat>, b: seq<nat>)
    ensures Product(a + b) == Product(a) * Product(b)
  {
    if b == [] {
      assert a + b == a;
    } else {
      var b' := b[..|b| - 1];
      assert (a + b)[..|a + b| - 1] == a + b';
      ProductAppend(a, b');
      calc {
        Product(a + b);
        Product(a + b') * b[|b| - 1];
        Product(a) * Product(b') * b[|b| - 1];
        Product(a) * (Product(b') * b[|b| - 1]);
      }
    }
  }

  lemma MulRotate(a: nat, b: nat, c: nat)
    ensures a * (b * c) == (a * c) * b
  {
  }

  /** Appending one size multiplies the count by it. */
  lemma ProductSnoc(s: seq<nat>, x: nat)
    ensures Product(s + [x]) == Product(s) * x
  {
    assert (s + [x])[..|s|] == s;
  }

  lemma ProductSingleton(x: nat)
    ensures Product([x]) == x
  {
    assert [x][..0] == [];
  }

  lemma ProductRemoveAt(s: seq<nat>, k: nat)
    requires k < |s|
    ensures Product(s) == Product(s[..k] + s[k + 1..]) * s[k]
  {
    var a, x, b := s[..k], s[k], s[k + 1..];
    var xb: seq<nat> := [x] + b;
    SplitAt(s, k);
    ProductAppend(a, xb);
    ProductAppend([x], b);
    ProductSingleton(x);
    ProductAppend(a, b);
    MulRegroup(Product(s), Product(a), Product(xb), Product(b), Product(a + b), x);
  }

  lemma SplitAt(s: seq<nat>, k: nat)
    requires k < |s|
    ensures s == s[..k] + ([s[k]] + s[k + 1..])
  {
  }

  lemma MulRegroup(p: nat, pa: nat, pxb: nat, pb: nat, pab: nat, x: nat)
    requires p == pa * pxb && pxb == x * pb && pab == pa * pb
    ensures p == pab * x
  {
    MulRotate(pa, x, pb);
  }

  /** The element count depends only on the multiset of dimension sizes. */
  lemma {:induction false} ProductMultiset(a: seq<nat>, b: seq<nat>)
    requires multiset(a) == multiset(b)
    ensures Product(a) == Product(b)
  {
    if a == [] {
      assert |b| == |multiset(b)| == 0;
    } else {
      var k := MatchFirst(a, b);
      ProductMultiset(a[1..], b[..k] + b[k + 1..]);
      ProductRemoveAt(a, 0);
      assert a[..0] + a[1..] == a[1..];
      ProductRemoveAt(b, k);
    }
  }

  /** Transposing the dimension list keeps the element count. */
  lemma ProductPermute(s: seq<nat>, p: seq<nat>)
    requires IsPermutation(p, |s|)
    ensures forall i :: 0 <= i < |p| ==> p[i] < |s|
    ensures Product(Permute(s, p)) == Product(s)
  {
    PermuteMultiset(s, p);
    ProductMultiset(Permute(s, p), s);
  }

  lemma {:induction false} ProductPositive(s: seq<nat>)
    requires AllPositive(s)
    ensures Product(s) > 0
  {
    if s != [] {
      ProductPositive(s[..|s| - 1]);
    }
  }

  /** A product of sizes that are all at least 1 is 1 only if every size is 1. */
  lemma {:induction false} ProductOne(s: seq<nat>)
    requires AllPositive(s) && Product(s) == 1
    ensures forall i :: 0 <= i < |s| ==> s[i] == 1
  {
    if s != [] {
      var s' := s[..|s| - 1];
      ProductPositive(s');
      assert Product(s') * s[|s| - 1] == 1;
      assert Product(s') == 1 && s[|s| - 1] == 1;
      ProductOne(s');
      forall i | 0 <= i < |s| ensures s[i] == 1 {
        if i < |s| - 1 { assert s[i] == s'[i]; }
      }
    }
  }

  lemma MulStep(l: nat, p: nat, d: nat, i: nat)
    requires l < p && i < d
    ensures l * d + i < p * d
  {
    assert l * d <= (p - 1) * d;
  }

  /** An in-bounds multi-index has an offset below the element count. */
  lemma {:induction false} LinearizeBound(dims: seq<nat>, idx: seq<nat>)
    requires InBounds(idx, dims)
    ensures Linearize(dims, idx) < Product(dims)
  {
    if dims != [] {
      var n := |dims| - 1;
      LinearizeBound(dims[..n], idx[..n]);
      MulStep(Linearize(dims[..n], idx[..n]), Product(dims[..n]), dims[n], idx[n]);
    }
  }

  lemma DivBound(k: nat, p: nat, d: nat)
    requires d > 0 && k < p * d
    ensures k / d < p
  {
  }

  lemma MulMono(a: nat, b: nat, d: nat)
    requires a <= b
    ensures a * d <= b * d
  {
  }

  /** Euclidean division recovers the digits of `l * d + i`. */
  lemma DivModStep(l: nat, d: nat, i: nat)
    requires i < d
    ensures (l * d + i) / d == l && (l * d + i) % d == i
  {
    var k := l * d + i;
    var q, r := k / d, k % d;
    assert k == q * d + r;
    if q < l {
      MulMono(q + 1, l, d);
      assert false;
    } else if q > l {
      MulMono(l + 1, q, d);
      assert false;
    }
  }

  /** The digits of an offset below the element count form an in-bounds index. */
  lemma {:induction false} DelinearizeInBounds(dims: seq<nat>, k: nat)
    requires AllPositive(dims) && k < Product(dims)
    ensures InBounds(Delinearize(dims, k), dims)
  {
    if dims != [] {
      var n := |dims| - 1;
      DivBound(k, Product(dims[..n]), dims[n]);
      DelinearizeInBounds(dims[..n], k / dims[n]);
    }
  }

  /** Decoding then encoding an offset gives the offset back. */
  lemma {:induction false} LinearizeDelinearize(dims: seq<nat>, k: nat)
    requires AllPositive(dims) && k < Product(dims)
    ensures Linearize(dims, Delinearize(dims, k)) == k
  {
    if dims != [] {
      var n := |dims| - 1;
      var idx := Delinearize(dims, k);
      DivBound(k, Product(dims[..n]), dims[n]);
      LinearizeDelinearize(dims[..n], k / dims[n]);
      assert idx[..n] == Delinearize(dims[..n], k / dims[n]);
    }
  }

  /** Encoding then decoding an in-bounds multi-index gives it back. */
  lemma {:induction false} DelinearizeLinearize(dims: seq<nat>, idx: seq<nat>)
    requires InBounds(idx, dims)
    ensures AllPositive(dims)
    ensures Delinearize(dims, Linearize(dims, idx)) == idx
  {
    if dims != [] {
      var n := |dims| - 1;
      var l := Linearize(dims[..n], idx[..n]);
      var k := l * dims[n] + idx[n];
      assert Linearize(dims, idx) == k;
      calc {
        Delinearize(dims, k);
        Delinearize(dims[..n], k / dims[n]) + [k % dims[n]];
        { DivModStep(l, dims[n], idx[n]); }
        Delinearize(dims[..n], l) + [idx[n]];
        { DelinearizeLinearize(dims[..n], idx[..n]); }
        idx[..n] + [idx[n]];
        idx;
      }
    }
  }

  /** Undoing an axis permutation maps an index of the transposed shape to an
      index of the original shape. */
  lemma ScatterInBounds(dims: seq<nat>, p: seq<nat>, t: seq<nat>)
    requires IsPermutation(p, |dims|)
    requires forall i :: 0 <= i < |p| ==> p[i] < |dims|
    requires InBounds(t, Permute(dims, p))
    ensures forall d :: 0 <= d < |p| ==> d in p
    ensures InBounds(Scatter(p, t), dims)
  {
    PermutationFacts(p, |dims|);
  }

  /** `Scatter` undoes `Permute` for a permutation. */
  lemma ScatterPermute(p: seq<nat>, r: seq<nat>)
    requires IsPermutation(p, |r|)
    ensures forall i :: 0 <= i < |p| ==> p[i] < |r|
    ensures forall d :: 0 <= d < |p| ==> d in p
    ensures Scatter(p, Permute(r, p)) == r
  {
    PermutationFacts(p, |r|);
  }

  /** `Permute` undoes `Scatter` for a permutation. */
  lemma PermuteScatter(p: seq<nat>, t: seq<nat>)
    requires IsPermutation(p, |t|)
    ensures |p| == |t|
    ensures forall i :: 0 <= i < |p| ==> p[i] < |t|
    ensures forall d :: 0 <= d < |p| ==> d in p
    ensures Permute(Scatter(p, t), p) == t
  {
    PermutationFacts(p, |t|);
    forall i | 0 <= i < |p| ensures Scatter(p, t)[p[i]] == t[i] {
      IndexOfPermutation(p, |t|, i);
    }
  }

  /** Offset 0 decodes to the all-zero index. */
  lemma {:induction false} DelinearizeZero(dims: seq<nat>)
    requires AllPositive(dims)
    ensures forall i :: 0 <= i < |dims| ==> Delinearize(dims, 0)[i] == 0
  {
    if dims != [] {
      DelinearizeZero(dims[..|dims| - 1]);
    }
  }

  /** The all-zero index encodes to offset 0. */
  lemma {:induction false} LinearizeZero(dims: seq<nat>, idx: seq<nat>)
    requires |idx| == |dims| && forall i :: 0 <= i < |idx| ==> idx[i] == 0
    ensures Linearize(dims, idx) == 0
  {
    if dims != [] {
      LinearizeZero(dims[..|dims| - 1], idx[..|idx| - 1]);
    }
  }
}
