/** Sequence arithmetic used throughout the model: sums, gathers by index,
    extrema and ordering predicates. Doubles of the source are exact reals here. */
module Numeric {

  /** Sum of a sequence, accumulated from the front as the source's loops do. */
  function Sum(s: seq<real>): real
    decreases |s|
  {
    if |s| == 0 then 0.0 else Sum(s[..|s| - 1]) + s[|s| - 1]
  }

  lemma {:induction false} SumConcat(a: seq<real>, b: seq<real>)
    ensures Sum(a + b) == Sum(a) + Sum(b)
    decreases |b|
  {
    if |b| == 0 {
      assert a + b == a;
    } else {
      assert (a + b)[..|a + b| - 1] == a + b[..|b| - 1];
      SumConcat(a, b[..|b| - 1]);
    }
  }

  lemma SumCons(a: real, s: seq<real>)
    ensures Sum([a] + s) == a + Sum(s)
  {
    SumConcat([a], s);
    assert [a][..0] == [];
  }

  /** Replacing one element changes the sum by the difference. */
  lemma {:induction false} SumUpdate(s: seq<real>, k: nat, v: real)
    requires k < |s|
    ensures Sum(s[k := v]) == Sum(s) - s[k] + v
    decreases |s|
  {
    var t := s[k := v];
    if k == |s| - 1 {
      assert t[..|s| - 1] == s[..|s| - 1];
    } else {
      assert t[..|s| - 1] == s[..|s| - 1][k := v];
      SumUpdate(s[..|s| - 1], k, v);
    }
  }

  lemma SumOfPrefixStep(s: seq<real>, i: nat)
    requires i < |s|
    ensures Sum(s[..i + 1]) == Sum(s[..i]) + s[i]
  {
    assert s[..i + 1][..i] == s[..i];
  }

  /** Sum of a sequence of constants. */
  lemma {:induction false} SumOfConstant(s: seq<real>, c: real)
    requires forall k :: 0 <= k < |s| ==> s[k] == c
    ensures Sum(s) == |s| as real * c
    decreases |s|
  {
    if |s| > 0 {
      SumOfConstant(s[..|s| - 1], c);
    }
  }

  lemma {:induction false} SumNonNegative(s: seq<real>)
    requires forall k :: 0 <= k < |s| ==> s[k] >= 0.0
    ensures Sum(s) >= 0.0
    decreases |s|
  {
    if |s| > 0 {
      SumNonNegative(s[..|s| - 1]);
    }
  }

  /** Every index of `idx` addresses an element of a vector of length `n`. */
  predicate IndicesBelow(idx: seq<nat>, n: nat)
  {
    forall k :: 0 <= k < |idx| ==> idx[k] < n
  }

  /** The entries of `y` at the given indices, in index order. */
  function Gather(y: seq<real>, idx: seq<nat>): (g: seq<real>)
    requires IndicesBelow(idx, |y|)
    ensures |g| == |idx|
    ensures forall k :: 0 <= k < |idx| ==> g[k] == y[idx[k]]
  {
    seq(|idx|, k requires 0 <= k < |idx| => y[idx[k]])
  }

  lemma GatherConcat(y: seq<real>, a: seq<nat>, b: seq<nat>)
    requires IndicesBelow(a, |y|) && IndicesBelow(b, |y|)
    ensures IndicesBelow(a + b, |y|)
    ensures Gather(y, a + b) == Gather(y, a) + Gather(y, b)
  {
  }

  /** The indices 0, 1, ..., n-1. */
  function Iota(n: nat): (r: seq<nat>)
    ensures |r| == n
    ensures forall k :: 0 <= k < n ==> r[k] == k
  {
    seq(n, k => k)
  }

  /** Entry-wise product of two equally long vectors. */
  function Times(a: seq<real>, b: seq<real>): (r: seq<real>)
    requires |a| == |b|
    ensures |r| == |a|
    ensures forall k :: 0 <= k < |a| ==> r[k] == a[k] * b[k]
  {
    seq(|a|, k requires 0 <= k < |a| => a[k] * b[k])
  }

  /** Smallest element, found by a running minimum from the front. */
  function Min(s: seq<real>): (r: real)
    requires |s| > 0
    ensures r in s
    ensures forall k :: 0 <= k < |s| ==> r <= s[k]
    decreases |s|
  {
    if |s| == 1 then s[0]
    else
      var m := Min(s[..|s| - 1]);
      if s[|s| - 1] < m then s[|s| - 1] else m
  }

  /** Largest element, found by a running maximum from the front. */
  function Max(s: seq<real>): (r: real)
    requires |s| > 0
    ensures r in s
    ensures forall k :: 0 <= k < |s| ==> s[k] <= r
    decreases |s|
  {
    if |s| == 1 then s[0]
    else
      var m := Max(s[..|s| - 1]);
      if s[|s| - 1] > m then s[|s| - 1] else m
  }

  /** Writes `values[k]` at position `idx[k]`, in order. When every value is
      the `target` entry of its position, the positions listed hold their
      `target` entries and the others keep theirs, whatever repetitions `idx`
      contains. */
  method Scatter(v: seq<real>, idx: seq<nat>, values: seq<real>, target: seq<real>) returns (r: seq<real>)
    requires IndicesBelow(idx, |v|) && |values| == |idx| && |target| == |v|
    requires forall k :: 0 <= k < |idx| ==> values[k] == target[idx[k]]
    ensures |r| == |v|
    ensures forall i :: 0 <= i < |v| ==> r[i] == if i in idx then target[i] else v[i]
  {
    r := v;
    var k := 0;
    while k < |idx|
      invariant 0 <= k <= |idx| && |r| == |v|
      invariant forall i :: 0 <= i < |v| ==> r[i] == if i in idx[..k] then target[i] else v[i]
    {
      r := r[idx[k] := values[k]];
      assert idx[..k + 1] == idx[..k] + [idx[k]];
      k := k + 1;
    }
    assert idx[..|idx|] == idx;
  }

  /** Multiplying by a natural number preserves order. */
  lemma MulMonotone(x: nat, y: nat, m: nat)
    requires x <= y
    ensures x * m <= y * m
  {
  }

  /** Multiplying by a positive number preserves strict order, with a gap of at
      least the multiplier. */
  lemma MulStrictMonotone(x: nat, y: nat, m: nat)
    requires x < y && m > 0
    ensures x * m + m <= y * m
  {
    MulMonotone(x + 1, y, m);
    assert (x + 1) * m == x * m + m;
  }

  /** Quotient and remainder of `q * d + r` for a remainder below `d`. */
  lemma DivOfDecomposition(q: nat, r: nat, d: nat)
    requires r < d
    ensures (q * d + r) / d == q && (q * d + r) % d == r
  {
    var k := q * d + r;
    var q' := k / d;
    assert k == q' * d + k % d;
    if q' > q {
      MulMonotone(q + 1, q', d);
    } else if q' < q {
      MulMonotone(q' + 1, q, d);
    }
  }

  predicate StrictlyIncreasing(s: seq<real>)
  {
    forall i, j :: 0 <= i < j < |s| ==> s[i] < s[j]
  }

  function Abs(x: real): real
  {
    if x < 0.0 then -x else x
  }

  lemma PositiveProduct(a: real, b: real)
    requires a > 0.0 && b > 0.0
    ensures a * b > 0.0
  {
  }

  lemma ScaledPositive(a: real, b: real, c: real)
    requires a * b > 0.0 && c > 0.0
    ensures a * b * c > 0.0
  {
    var ab := a * b;
    PositiveProduct(ab, c);
  }
}
