/** Index sequences, permutations of 0..n-1 and the multiset facts used to
    reason about reordering axes, dimensions and factor groups. */
module Permutations {

  /** The sequence 0, 1, ..., n-1. */
  function Range(n: nat): (r: seq<nat>)
    ensures |r| == n
    ensures forall i :: 0 <= i < n ==> r[i] == i
  {
    seq(n, i => i)
  }

  /** `p` lists each of 0..n-1 exactly once. */
  ghost predicate IsPermutation(p: seq<nat>, n: nat)
  {
    multiset(p) == multiset(Range(n))
  }

  /** The elements of `s` at the positions listed in `p`: `r[i] == s[p[i]]`. */
  function Permute<T>(s: seq<T>, p: seq<nat>): (r: seq<T>)
    requires forall i :: 0 <= i < |p| ==> p[i] < |s|
    ensures |r| == |p|
    ensures forall i :: 0 <= i < |p| ==> r[i] == s[p[i]]
  {
    seq(|p|, i requires 0 <= i < |p| => s[p[i]])
  }

  /** Concatenation of a sequence of sequences. */
  function Flatten<T>(ss: seq<seq<T>>): seq<T>
  {
    if ss == [] then [] else ss[0] + Flatten(ss[1..])
  }

  /** First position of `v` in `p`. */
  function IndexOf(p: seq<nat>, v: nat): (k: nat)
    requires v in p
    ensures k < |p| && p[k] == v
    ensures forall j :: 0 <= j < k ==> p[j] != v
  {
    if p[0] == v then 0 else 1 + IndexOf(p[1..], v)
  }

  /** Inverse of `Permute` for a permutation: entry `p[i]` of the result is `t[i]`. */
  function Scatter<T>(p: seq<nat>, t: seq<T>): (r: seq<T>)
    requires |t| == |p|
    requires forall d :: 0 <= d < |p| ==> d in p
    ensures |r| == |p|
  {
    seq(|p|, d requires 0 <= d < |p| => t[IndexOf(p, d)])
  }

  lemma {:induction false} RangeMultiplicity(n: nat, v: nat)
    ensures multiset(Range(n))[v] == if v < n then 1 else 0
  {
    if n > 0 {
      assert Range(n) == Range(n - 1) + [n - 1];
      RangeMultiplicity(n - 1, v);
    }
  }

  lemma TwoOccurrences<T>(s: seq<T>, i: nat, j: nat)
    requires i < j < |s| && s[i] == s[j]
    ensures multiset(s)[s[i]] >= 2
  {
    assert s == s[..j] + s[j..];
    assert s[i] in s[..j];
    assert s[j] in s[j..];
  }

  /** The elementary facts packed into `IsPermutation`: right length, entries
      in range, no repetition, every index present. */
  lemma PermutationFacts(p: seq<nat>, n: nat)
    requires IsPermutation(p, n)
    ensures |p| == n
    ensures forall i :: 0 <= i < |p| ==> p[i] < n
    ensures forall i, j :: 0 <= i < |p| && 0 <= j < |p| && i != j ==> p[i] != p[j]
    ensures forall v :: 0 <= v < n ==> v in p
  {
    assert |multiset(p)| == |p| && |multiset(Range(n))| == n;
    forall i | 0 <= i < |p| ensures p[i] < n {
      assert p[i] in multiset(p);
      RangeMultiplicity(n, p[i]);
    }
    forall i, j | 0 <= i < |p| && 0 <= j < |p| && i != j ensures p[i] != p[j] {
      if p[i] == p[j] {
        if i < j { TwoOccurrences(p, i, j); } else { TwoOccurrences(p, j, i); }
        RangeMultiplicity(n, p[i]);
      }
    }
    forall v | 0 <= v < n ensures v in p {
      RangeMultiplicity(n, v);
      assert v in multiset(p);
    }
  }

  /** Just the length and range facts of `PermutationFacts`. */
  lemma PermutationBounds(p: seq<nat>, n: nat)
    requires IsPermutation(p, n)
    ensures |p| == n
    ensures forall i :: 0 <= i < |p| ==> p[i] < n
  {
    PermutationFacts(p, n);
  }

  /** In a permutation, `IndexOf` inverts indexing. */
  lemma IndexOfPermutation(p: seq<nat>, n: nat, j: nat)
    requires IsPermutation(p, n) && j < |p|
    ensures IndexOf(p, p[j]) == j
  {
    PermutationFacts(p, n);
  }

  /** Dropping the element at position k removes one copy of it from the multiset. */
  lemma RemoveAt<T>(s: seq<T>, k: nat)
    requires k < |s|
    ensures multiset(s[..k] + s[k + 1..]) == multiset(s) - multiset{s[k]}
  {
    assert s == s[..k] + [s[k]] + s[k + 1..];
  }

  lemma PermuteAppend<T>(s: seq<T>, a: seq<nat>, b: seq<nat>)
    requires forall i :: 0 <= i < |a| ==> a[i] < |s|
    requires forall i :: 0 <= i < |b| ==> b[i] < |s|
    ensures Permute(s, a + b) == Permute(s, a) + Permute(s, b)
  {
  }

  /** Removing the position-k index from `b` removes one copy of `s[b[k]]`
      from the multiset of the permuted sequence. */
  lemma PermuteRemoveAt<T>(s: seq<T>, b: seq<nat>, k: nat)
    requires k < |b|
    requires forall i :: 0 <= i < |b| ==> b[i] < |s|
    ensures multiset(Permute(s, b)) == multiset(Permute(s, b[..k] + b[k + 1..])) + multiset{s[b[k]]}
  {
    var pb := Permute(s, b);
    assert Permute(s, b[..k] + b[k + 1..]) == pb[..k] + pb[k + 1..];
    RemoveAt(pb, k);
  }

  /** Two sequences with the same multiset: the head of the first occurs in
      the second at some `k`, and the rests still have equal multisets. */
  lemma MatchFirst<T>(a: seq<T>, b: seq<T>) returns (k: nat)
    requires a != [] && multiset(a) == multiset(b)
    ensures k < |b| && b[k] == a[0]
    ensures multiset(a[1..]) == multiset(b[..k] + b[k + 1..])
  {
    assert a[0] in b by { assert a[0] in multiset(b); }
    k :| k < |b| && b[k] == a[0];
    RemoveFirst(a);
    RemoveAt(b, k);
  }

  lemma RemoveFirst<T>(s: seq<T>)
    requires s != []
    ensures multiset(s[1..]) == multiset(s) - multiset{s[0]}
  {
    assert s == [s[0]] + s[1..];
  }

  lemma {:induction false} PermuteMultisetEq<T>(s: seq<T>, a: seq<nat>, b: seq<nat>)
    requires forall i :: 0 <= i < |a| ==> a[i] < |s|
    requires forall i :: 0 <= i < |b| ==> b[i] < |s|
    requires multiset(a) == multiset(b)
    ensures multiset(Permute(s, a)) == multiset(Permute(s, b))
  {
    if a == [] {
      assert |b| == |multiset(b)| == 0;
    } else {
      var k := MatchFirst(a, b);
      PermuteMultisetEq(s, a[1..], b[..k] + b[k + 1..]);
      PermuteRemoveAt(s, a, 0);
      assert a[..0] + a[1..] == a[1..];
      PermuteRemoveAt(s, b, k);
    }
  }

  /** Reordering by a permutation keeps the multiset of elements. */
  lemma PermuteMultiset<T>(s: seq<T>, p: seq<nat>)
    requires IsPermutation(p, |s|)
    ensures forall i :: 0 <= i < |p| ==> p[i] < |s|
    ensures multiset(Permute(s, p)) == multiset(s)
  {
    PermutationFacts(p, |s|);
    PermuteMultisetEq(s, p, Range(|s|));
    assert Permute(s, Range(|s|)) == s;
  }

  /** Composing two permutations of 0..n-1 gives a permutation of 0..n-1. */
  lemma PermutationCompose(p: seq<nat>, q: seq<nat>, n: nat)
    requires IsPermutation(p, n) && IsPermutation(q, n)
    ensures forall i :: 0 <= i < |q| ==> q[i] < |p|
    ensures IsPermutation(Permute(p, q), n)
  {
    PermutationFacts(p, n);
    PermuteMultiset(p, q);
  }

  lemma PermuteSnoc<T>(s: seq<T>, a: seq<nat>, j: nat)
    requires forall i :: 0 <= i < |a| ==> a[i] < |s|
    requires j < |s|
    ensures Permute(s, a + [j]) == Permute(s, a) + [s[j]]
  {
  }

  lemma FlattenSnoc<T>(ss: seq<seq<T>>, s: seq<T>)
    ensures Flatten(ss + [s]) == Flatten(ss) + s
  {
    FlattenAppend(ss, [s]);
    assert Flatten([s]) == s + Flatten([]);
  }

  /** Extending the selection by one more group appends that group. */
  lemma FlattenPermuteSnoc<T>(groups: seq<seq<T>>, p: seq<nat>, i: nat)
    requires i < |p| && forall k :: 0 <= k < |p| ==> p[k] < |groups|
    ensures Flatten(Permute(groups, p[..i + 1])) == Flatten(Permute(groups, p[..i])) + groups[p[i]]
  {
    assert p[..i + 1] == p[..i] + [p[i]];
    PermuteSnoc(groups, p[..i], p[i]);
    FlattenSnoc(Permute(groups, p[..i]), groups[p[i]]);
  }

  lemma {:induction false} FlattenAppend<T>(a: seq<seq<T>>, b: seq<seq<T>>)
    ensures Flatten(a + b) == Flatten(a) + Flatten(b)
  {
    if a == [] {
      assert a + b == b;
    } else {
      calc {
        Flatten(a + b);
        { assert a + b != [] && (a + b)[0] == a[0] && (a + b)[1..] == a[1..] + b; }
        a[0] + Flatten(a[1..] + b);
        { FlattenAppend(a[1..], b); }
        a[0] + (Flatten(a[1..]) + Flatten(b));
        Flatten(a) + Flatten(b);
      }
    }
  }

  lemma {:induction false} FlattenMultisetEq<T>(a: seq<seq<T>>, b: seq<seq<T>>)
    requires multiset(a) == multiset(b)
    ensures multiset(Flatten(a)) == multiset(Flatten(b))
  {
    if a == [] {
      assert |b| == |multiset(b)| == 0;
    } else {
      var k := MatchFirst(a, b);
      FlattenMultisetEq(a[1..], b[..k] + b[k + 1..]);
      FlattenSplit(b, k);
      FlattenAppend(b[..k], b[k + 1..]);
    }
  }

  lemma {:induction false} FlattenSplit<T>(b: seq<seq<T>>, k: nat)
    requires k < |b|
    ensures Flatten(b) == Flatten(b[..k]) + b[k] + Flatten(b[k + 1..])
  {
    assert b == b[..k] + ([b[k]] + b[k + 1..]);
    FlattenAppend(b[..k], [b[k]] + b[k + 1..]);
    FlattenAppend([b[k]], b[k + 1..]);
    assert Flatten([b[k]]) == b[k] + Flatten([]);
  }

  /** Concatenating the groups of a partition in another order keeps the
      multiset of all elements. */
  lemma FlattenPermuted<T>(groups: seq<seq<T>>, q: seq<nat>)
    requires IsPermutation(q, |groups|)
    ensures forall i :: 0 <= i < |q| ==> q[i] < |groups|
    ensures multiset(Flatten(Permute(groups, q))) == multiset(Flatten(groups))
  {
    PermuteMultiset(groups, q);
    FlattenMultisetEq(Permute(groups, q), groups);
  }
}
