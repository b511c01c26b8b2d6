/** The textual form of an iota tile assignment,
    `[dims]<=[reshape_dims]T(transpose_perm)`, and a reader for it that
    recovers the assignment. */
module Printing {
  import opened Options
  import opened Permutations
  import opened Iota

  // ---------------------------------------------------------------------
  // Decimal numerals

  predicate IsDigit(c: char)
  {
    '0' <= c <= '9'
  }

  ghost predicate AllDigits(s: string)
  {
    forall k :: 0 <= k < |s| ==> IsDigit(s[k])
  }

  function DigitChar(d: nat): (c: char)
    requires d < 10
    ensures IsDigit(c)
  {
    ('0' as int + d) as char
  }

  function DigitValue(c: char): (d: nat)
    requires IsDigit(c)
    ensures d < 10
  {
    c as int - '0' as int
  }

  /** `n` in decimal, without leading zeros. */
  function Decimal(n: nat): (s: string)
    ensures |s| >= 1 && AllDigits(s)
    decreases n
  {
    if n < 10 then [DigitChar(n)] else Decimal(n / 10) + [DigitChar(n % 10)]
  }

  /** The number a non-empty string of digits stands for. */
  function ReadDecimal(s: string): nat
    requires |s| >= 1 && AllDigits(s)
  {
    if |s| == 1 then DigitValue(s[0])
    else ReadDecimal(s[..|s| - 1]) * 10 + DigitValue(s[|s| - 1])
  }

  lemma {:induction false} ReadDecimalRoundTrip(n: nat)
    ensures ReadDecimal(Decimal(n)) == n
    decreases n
  {
    if n >= 10 {
      var s := Decimal(n);
      assert s[..|s| - 1] == Decimal(n / 10);
      ReadDecimalRoundTrip(n / 10);
    }
  }

  // ---------------------------------------------------------------------
  // Comma-separated lists

  /** The numbers in decimal, separated by commas. */
  function Join(xs: seq<nat>): (s: string)
    ensures forall k :: 0 <= k < |s| ==> IsDigit(s[k]) || s[k] == ','
  {
    if xs == [] then ""
    else if |xs| == 1 then Decimal(xs[0])
    else Join(xs[..|xs| - 1]) + "," + Decimal(xs[|xs| - 1])
  }

  /** The pieces of `s` between commas, in order; a string without commas is
      one piece. */
  function Split(s: string): (pieces: seq<string>)
    ensures |pieces| >= 1
  {
    if s == [] then [[]]
    else
      var p := Split(s[..|s| - 1]);
      if s[|s| - 1] == ',' then p + [[]]
      else p[..|p| - 1] + [p[|p| - 1] + [s[|s| - 1]]]
  }

  /** Reads the numerals of `pieces`, failing on any piece that is not one. */
  function ReadPieces(pieces: seq<string>): (r: Option<seq<nat>>)
    ensures r.Some? ==> |r.value| == |pieces|
  {
    if pieces == [] then Some([])
    else
      var last := pieces[|pieces| - 1];
      if |last| == 0 || exists k :: 0 <= k < |last| && !IsDigit(last[k]) then None
      else match ReadPieces(pieces[..|pieces| - 1])
        case None => None
        case Some(xs) => Some(xs + [ReadDecimal(last)])
  }

  /** Reads a comma-separated list of numerals; the empty string is the
      empty list. */
  function ReadList(s: string): Option<seq<nat>>
  {
    if s == [] then Some([]) else ReadPieces(Split(s))
  }

  lemma {:induction false} SplitWithoutComma(b: string)
    requires forall k :: 0 <= k < |b| ==> b[k] != ','
    ensures Split(b) == [b]
  {
    if b != [] {
      var b' := b[..|b| - 1];
      SplitWithoutComma(b');
      assert b' + [b[|b| - 1]] == b;
    }
  }

  lemma {:induction false} SplitAfterComma(a: string, b: string)
    requires forall k :: 0 <= k < |b| ==> b[k] != ','
    ensures Split(a + [','] + b) == Split(a) + [b]
  {
    var s := a + [','] + b;
    if b == [] {
      assert s[..|s| - 1] == a;
    } else {
      var b' := b[..|b| - 1];
      SplitAfterComma(a, b');
      assert s[..|s| - 1] == a + [','] + b';
      assert b' + [b[|b| - 1]] == b;
    }
  }

  /** The numerals of `xs`, one string each. */
  function Decimals(xs: seq<nat>): (ps: seq<string>)
    ensures |ps| == |xs|
  {
    if xs == [] then [] else Decimals(xs[..|xs| - 1]) + [Decimal(xs[|xs| - 1])]
  }

  lemma {:induction false} SplitJoin(xs: seq<nat>)
    requires xs != []
    ensures Split(Join(xs)) == Decimals(xs)
  {
    var d := Decimal(xs[|xs| - 1]);
    if |xs| == 1 {
      SplitWithoutComma(d);
    } else {
      var front := xs[..|xs| - 1];
      SplitJoin(front);
      SplitAfterComma(Join(front), d);
    }
  }

  lemma {:induction false} ReadDecimals(xs: seq<nat>)
    ensures ReadPieces(Decimals(xs)) == Some(xs)
  {
    if xs != [] {
      var front := xs[..|xs| - 1];
      var ps := Decimals(xs);
      ReadDecimals(front);
      assert ps[..|ps| - 1] == Decimals(front);
      ReadDecimalRoundTrip(xs[|xs| - 1]);
      assert front + [xs[|xs| - 1]] == xs;
    }
  }

  /** Reading a joined list gives the list back. */
  lemma ReadListJoin(xs: seq<nat>)
    ensures ReadList(Join(xs)) == Some(xs)
  {
    if xs != [] {
      SplitJoin(xs);
      ReadDecimals(xs);
    }
  }

  // ---------------------------------------------------------------------
  // The iota form

  /** `[dims]<=[reshape_dims]`, followed by `T(transpose_perm)` when there is
      more than one reshape dimension. The sizes contain no bracket, so the
      first `]` closes them and `<=[` follows it. */
  function Print(t: IotaTileAssignment): (r: string)
    ensures |r| >= 6 + |Join(t.dims)| && r[0] == '['
    ensures Find(r, ']') == 1 + |Join(t.dims)| && r[1 + |Join(t.dims)|..5 + |Join(t.dims)|] == "]<=["
  {
    var tail := if |t.reshapeDims| > 1 then "T(" + Join(t.transposePerm) + ")" else "";
    var rest := Join(t.reshapeDims) + "]" + tail;
    JoinHasNoBracket(t.dims);
    LocateFirst(Join(t.dims), rest);
    assert "[" + Join(t.dims) + "]<=[" + Join(t.reshapeDims) + "]" + tail == "[" + Join(t.dims) + "]<=[" + rest;
    "[" + Join(t.dims) + "]<=[" + Join(t.reshapeDims) + "]" + tail
  }

  /** The first position of `c` in `s`, or `|s|` when there is none. */
  function Find(s: string, c: char): (r: nat)
    ensures r <= |s|
    ensures forall k :: 0 <= k < r ==> s[k] != c
    ensures r < |s| ==> s[r] == c
  {
    if s == [] then 0
    else if s[0] == c then 0
    else 1 + Find(s[1..], c)
  }

  lemma {:induction false} FindAfter(a: string, b: string, c: char)
    requires forall k :: 0 <= k < |a| ==> a[k] != c
    requires |b| > 0 && b[0] == c
    ensures Find(a + b, c) == |a|
  {
    var s := a + b;
    if a != [] {
      assert s[1..] == a[1..] + b;
      FindAfter(a[1..], b, c);
    }
  }

  /** Reads the textual form back: the two bracketed lists and the
      optional `T(...)` clause. */
  function ReadBack(s: string): Option<IotaTileAssignment>
  {
    if |s| == 0 || s[0] != '[' then None
    else
      var i := Find(s, ']');
      if i + 4 > |s| || s[i..i + 4] != "]<=[" then None
      else
        var rest := s[i + 4..];
        var j := Find(rest, ']');
        if j == |rest| then None
        else Assemble(s[1..i], rest[..j], rest[j + 1..])
  }

  /** The permutation clause; a missing one means the single-entry
      permutation `[0]`. */
  function ReadPerm(tail: string): Option<seq<nat>>
  {
    if tail == [] then Some([0])
    else if |tail| >= 3 && tail[..2] == "T(" && tail[|tail| - 1] == ')'
    then ReadList(tail[2..|tail| - 1])
    else None
  }

  function Assemble(dims: string, reshapeDims: string, tail: string): Option<IotaTileAssignment>
  {
    match (ReadList(dims), ReadList(reshapeDims), ReadPerm(tail))
    case (Some(d), Some(r), Some(p)) => Some(IotaTileAssignment(d, r, p))
    case _ => None
  }

  /** The reader finds the two lists of a printed form by their brackets. */
  lemma LocateParts(a: string, b: string, tail: string)
    requires forall k :: 0 <= k < |a| ==> a[k] != ']'
    requires forall k :: 0 <= k < |b| ==> b[k] != ']'
    ensures ReadBack("[" + a + "]<=[" + b + "]" + tail) == Assemble(a, b, tail)
  {
    var rest := b + "]" + tail;
    LocateFirst(a, rest);
    LocateSecond(b, tail);
    assert "[" + a + "]<=[" + b + "]" + tail == "[" + a + "]<=[" + rest;
  }

  lemma LocateFirst(a: string, rest: string)
    requires forall k :: 0 <= k < |a| ==> a[k] != ']'
    ensures var s := "[" + a + "]<=[" + rest;
      Find(s, ']') == 1 + |a| && |s| == |a| + 5 + |rest| &&
      s[1..1 + |a|] == a && s[1 + |a|..5 + |a|] == "]<=[" && s[5 + |a|..] == rest
  {
    var s := "[" + a + "]<=[" + rest;
    assert s == ("[" + a) + ("]<=[" + rest);
    FindAfter("[" + a, "]<=[" + rest, ']');
  }

  lemma LocateSecond(b: string, tail: string)
    requires forall k :: 0 <= k < |b| ==> b[k] != ']'
    ensures var rest := b + "]" + tail;
      Find(rest, ']') == |b| && rest[..|b|] == b && rest[|b| + 1..] == tail
  {
    var rest := b + "]" + tail;
    assert rest == b + ("]" + tail);
    FindAfter(b, "]" + tail, ']');
  }

  lemma JoinHasNoBracket(xs: seq<nat>)
    ensures forall k :: 0 <= k < |Join(xs)| ==> Join(xs)[k] != ']'
  {
  }

  /** A single reshape dimension admits only the permutation `[0]`. */
  lemma SinglePermutation(p: seq<nat>)
    requires IsPermutation(p, 1)
    ensures p == [0]
  {
    PermutationFacts(p, 1);
  }

  /** The clause printed for the permutation reads back as the permutation,
      whenever it is omitted only for the permutation `[0]`. */
  lemma ReadPermClause(r: seq<nat>, p: seq<nat>)
    requires |r| > 1 || p == [0]
    ensures ReadPerm(if |r| > 1 then "T(" + Join(p) + ")" else "") == Some(p)
  {
    if |r| > 1 {
      var tail := "T(" + Join(p) + ")";
      ReadListJoin(p);
      assert tail[2..|tail| - 1] == Join(p);
    }
  }

  lemma ReadBackPrinted(t: IotaTileAssignment)
    requires |t.reshapeDims| > 1 || t.transposePerm == [0]
    ensures ReadBack(Print(t)) == Some(t)
  {
    JoinHasNoBracket(t.dims);
    JoinHasNoBracket(t.reshapeDims);
    LocateParts(Join(t.dims), Join(t.reshapeDims),
                if |t.reshapeDims| > 1 then "T(" + Join(t.transposePerm) + ")" else "");
    ReadListJoin(t.dims);
    ReadListJoin(t.reshapeDims);
    ReadPermClause(t.reshapeDims, t.transposePerm);
  }

  /** Reading the printed form of a well-formed assignment gives it back. */
  lemma ReadBackPrint(t: IotaTileAssignment)
    requires Valid(t)
    ensures ReadBack(Print(t)) == Some(t)
  {
    if |t.reshapeDims| == 1 {
      SinglePermutation(t.transposePerm);
    }
    ReadBackPrinted(t);
  }

  /** Two well-formed assignments with the same text are the same. */
  lemma PrintInjective(t: IotaTileAssignment, u: IotaTileAssignment)
    requires Valid(t) && Valid(u) && Print(t) == Print(u)
    ensures t == u
  {
    ReadBackPrint(t);
    ReadBackPrint(u);
  }
}
