/** Candidate split values ("cut points") for each predictor column
    (bartFit.cpp: setInitialCutPoints, setCutPoints, setCutPointsFromQuantiles,
    setCutPointsUniformly). A rule `x <= c` may only use a value `c` from its
    predictor's grid, and trees refer to grid entries by position, so rebinding a
    column to new data may never shrink its grid. */
module CutPoints {
  import opened Wrappers
  import opened Numeric

  /** A predictor's stored grid. `Unbound` is the source's first-call sentinel
      (`numCutsPerVariable == (uint32_t) -1`, no array allocated). */
  datatype Binding = Unbound | Bound(cuts: seq<real>)

  /** Outcome of rebinding one column: the stored cut points and whether the
      "greater than previous: ignoring extra quantiles" warning was issued. */
  datatype Rebound = Rebound(cuts: seq<real>, warned: bool)

  /** How many cuts to produce and which distinct values they straddle. */
  datatype Plan = Plan(numCuts: nat, step: nat, offset: nat)

  /** Largest value a `uint32_t` holds; `maxNumCuts + 1` is computed in 32 bits. */
  const UINT32_MAX: nat := 0xFFFF_FFFF

  const FEWER_CUTS_ERROR := "Number of induced cut points in new predictor less than previous: old splits would be invalid."
  const NULL_MAX_CUTS_ERROR := "Num cuts cannot be NULL if useQuantiles is true."

  // ---------------------------------------------------------------------------
  // The sorted distinct values (the source's std::set)
  // ---------------------------------------------------------------------------

  /** Inserts `v` into a strictly increasing sequence, leaving it unchanged if
      `v` is already present. */
  function Insert(s: seq<real>, v: real): (r: seq<real>)
    requires StrictlyIncreasing(s)
    ensures StrictlyIncreasing(r)
    ensures forall w :: w in r <==> w in s || w == v
    decreases |s|
  {
    if |s| == 0 then [v]
    else if v < s[0] then [v] + s
    else if v == s[0] then s
    else
      assert s == [s[0]] + s[1..];
      assert StrictlyIncreasing(s[1..]);
      var tail := Insert(s[1..], v);
      forall j | 0 <= j < |tail|
        ensures s[0] < tail[j]
      {
        assert tail[j] in tail;
        if tail[j] != v {
          var k :| 0 <= k < |s| - 1 && s[1..][k] == tail[j];
          assert s[k + 1] == tail[j];
        }
      }
      ConsIncreasing(s[0], tail);
      assert forall w :: w in [s[0]] + tail <==> w == s[0] || w in tail;
      [s[0]] + tail
  }

  lemma ConsIncreasing(a: real, t: seq<real>)
    requires StrictlyIncreasing(t) && forall j :: 0 <= j < |t| ==> a < t[j]
    ensures StrictlyIncreasing([a] + t)
  {
    var r := [a] + t;
    forall i, j | 0 <= i < j < |r|
      ensures r[i] < r[j]
    {
      if i > 0 {
        assert r[i] == t[i - 1] && r[j] == t[j - 1];
      }
    }
  }

  /** The distinct values of a column in increasing order. */
  function Distinct(x: seq<real>): (u: seq<real>)
    ensures StrictlyIncreasing(u)
    ensures forall w :: w in u <==> w in x
    decreases |x|
  {
    if |x| == 0 then [] else Insert(Distinct(x[..|x| - 1]), x[|x| - 1])
  }

  /** The smallest and largest distinct values are the column's extremes. */
  lemma DistinctEnds(x: seq<real>)
    requires |x| > 0
    ensures |Distinct(x)| > 0
    ensures Distinct(x)[0] == Min(x)
    ensures Distinct(x)[|Distinct(x)| - 1] == Max(x)
  {
    SortedEnds(x, Distinct(x));
  }

  /** The ends of any strictly increasing sequence holding exactly the values of `x`. */
  lemma SortedEnds(x: seq<real>, u: seq<real>)
    requires |x| > 0 && StrictlyIncreasing(u)
    requires forall w :: w in u <==> w in x
    ensures |u| > 0 && u[0] == Min(x) && u[|u| - 1] == Max(x)
  {
    assert x[0] in x;
    var lo, hi := Min(x), Max(x);
    var a :| 0 <= a < |u| && u[a] == lo;
    var b :| 0 <= b < |u| && u[b] == hi;
    assert u[0] in u && u[|u| - 1] in u;
    var i :| 0 <= i < |x| && x[i] == u[0];
    var j :| 0 <= j < |x| && x[j] == u[|u| - 1];
    assert u[0] <= u[a] && u[b] <= u[|u| - 1];
  }

  // ---------------------------------------------------------------------------
  // Quantile mode
  // ---------------------------------------------------------------------------

  /** The cut count, stride and offset as bartFit.cpp:702-713 computes them. In
      the subsampling branch `numCuts < numUnique`, so the integer quotient
      `numCuts / numUnique` is 0. */
  function QuantilePlan(numUnique: nat, maxNumCuts: nat): Plan
    requires numUnique >= 1 && maxNumCuts < UINT32_MAX
  {
    if numUnique <= maxNumCuts + 1 then Plan(numUnique - 1, 1, 0)
    else
      var step := maxNumCuts / numUnique;
      Plan(maxNumCuts, step, step / 2)
  }

  /** The subsampling stride evidently intended: spread `numCuts` cuts evenly
      over the `numUnique` distinct values. */
  function QuantilePlanCorrected(numUnique: nat, maxNumCuts: nat): Plan
    requires numUnique >= 1 && maxNumCuts < UINT32_MAX
  {
    if numUnique <= maxNumCuts + 1 then Plan(numUnique - 1, 1, 0)
    else if maxNumCuts == 0 then Plan(0, 1, 0)
    else
      var step := numUnique / maxNumCuts;
      Plan(maxNumCuts, step, step / 2)
  }

  /** Which pair of neighbouring distinct values cut `i` straddles:
      `min(i * step + offset, numUnique - 2)`. */
  function CutIndex(i: nat, pl: Plan, numUnique: nat): nat
    requires numUnique >= 2
  {
    var raw := i * pl.step + pl.offset;
    if raw < numUnique - 2 then raw else numUnique - 2
  }

  function Midpoint(u: seq<real>, k: nat): real
    requires k + 1 < |u|
  {
    0.5 * (u[k] + u[k + 1])
  }

  /** The first `count` cut points of a plan (the fill loop of bartFit.cpp:726-729). */
  function FillCuts(u: seq<real>, count: nat, pl: Plan): (cuts: seq<real>)
    requires count == 0 || |u| >= 2
    ensures |cuts| == count
    ensures forall i :: 0 <= i < count ==> cuts[i] == Midpoint(u, CutIndex(i, pl, |u|))
  {
    seq(count, i requires 0 <= i < count => Midpoint(u, CutIndex(i, pl, |u|)))
  }

  /** Rebinding a column's grid under a plan (bartFit.cpp:715-729): a first call
      stores the plan's count; later calls may not shrink the grid, and a larger
      count only warns and refills the stored number of cuts. */
  function Rebind(u: seq<real>, pl: Plan, b: Binding): (r: Result<Rebound>)
    requires |u| >= 1 && pl.numCuts <= |u| - 1
    ensures r.Failure? <==> b.Bound? && pl.numCuts < |b.cuts|
    ensures r.Success? && b.Unbound? ==> |r.value.cuts| == pl.numCuts && !r.value.warned
    ensures r.Success? && b.Bound? ==>
      |r.value.cuts| == |b.cuts| && (r.value.warned <==> pl.numCuts > |b.cuts|)
    ensures r.Success? ==>
      forall i :: 0 <= i < |r.value.cuts| ==> r.value.cuts[i] == Midpoint(u, CutIndex(i, pl, |u|))
  {
    match b
    case Unbound => Success(Rebound(FillCuts(u, pl.numCuts, pl), false))
    case Bound(previous) =>
      if pl.numCuts < |previous| then Failure(FEWER_CUTS_ERROR)
      else Success(Rebound(FillCuts(u, |previous|, pl), pl.numCuts > |previous|))
  }

  /** Quantile-mode rebinding of one column, as written. */
  function RebindQuantile(x: seq<real>, maxNumCuts: nat, b: Binding): Result<Rebound>
    requires |x| > 0 && maxNumCuts < UINT32_MAX
  {
    var u := Distinct(x);
    assert x[0] in u;
    Rebind(u, QuantilePlan(|u|, maxNumCuts), b)
  }

  /** Quantile-mode rebinding of one column with the corrected stride. */
  function RebindQuantileCorrected(x: seq<real>, maxNumCuts: nat, b: Binding): Result<Rebound>
    requires |x| > 0 && maxNumCuts < UINT32_MAX
  {
    var u := Distinct(x);
    assert x[0] in u;
    Rebind(u, QuantilePlanCorrected(|u|, maxNumCuts), b)
  }

  /** Every quantile cut lies strictly between the column's minimum and maximum,
      whichever plan chose the straddled pair. */
  lemma MidpointsInsideRange(x: seq<real>, pl: Plan, cuts: seq<real>)
    requires |x| > 0 && |Distinct(x)| >= 2
    requires forall i :: 0 <= i < |cuts| ==> cuts[i] == Midpoint(Distinct(x), CutIndex(i, pl, |Distinct(x)|))
    ensures forall i :: 0 <= i < |cuts| ==> Min(x) < cuts[i] < Max(x)
  {
    var u := Distinct(x);
    DistinctEnds(x);
    assert StrictlyIncreasing(u) && u[0] == Min(x) && u[|u| - 1] == Max(x);
    CutsInsideEnds(u, pl, cuts, Min(x), Max(x));
  }

  /** Every cut of a plan lies strictly between the first and last distinct values. */
  lemma CutsInsideEnds(u: seq<real>, pl: Plan, cuts: seq<real>, lo: real, hi: real)
    requires StrictlyIncreasing(u) && |u| >= 2 && u[0] == lo && u[|u| - 1] == hi
    requires forall i :: 0 <= i < |cuts| ==> cuts[i] == Midpoint(u, CutIndex(i, pl, |u|))
    ensures forall i :: 0 <= i < |cuts| ==> lo < cuts[i] < hi
  {
    forall i | 0 <= i < |cuts|
      ensures lo < cuts[i] < hi
    {
      MidpointInside(u, CutIndex(i, pl, |u|));
    }
  }

  /** A midpoint of neighbouring values lies strictly between the ends. */
  lemma MidpointInside(u: seq<real>, k: nat)
    requires StrictlyIncreasing(u) && k + 1 < |u|
    ensures u[0] < Midpoint(u, k) < u[|u| - 1]
  {
    assert u[0] <= u[k] < u[k + 1] <= u[|u| - 1];
  }

  /** Midpoints of pairs taken further along a strictly increasing sequence are larger. */
  lemma MidpointIncreasing(u: seq<real>, a: nat, b: nat)
    requires StrictlyIncreasing(u) && a < b && b + 1 < |u|
    ensures Midpoint(u, a) < Midpoint(u, b)
  {
    assert u[a] < u[b] && u[a + 1] <= u[b] && u[b] < u[b + 1];
  }

  /** Quantile cuts of a column with at most `maxNumCuts + 1` distinct values:
      one cut between each pair of neighbouring distinct values, so the grid is
      strictly increasing and lies strictly inside the column's range. */
  lemma QuantileCutsIncreasing(x: seq<real>, maxNumCuts: nat, b: Binding)
    requires |x| > 0 && maxNumCuts < UINT32_MAX
    requires |Distinct(x)| <= maxNumCuts + 1
    requires RebindQuantile(x, maxNumCuts, b).Success?
    ensures var cuts := RebindQuantile(x, maxNumCuts, b).value.cuts;
      && StrictlyIncreasing(cuts)
      && (forall i :: 0 <= i < |cuts| ==> Min(x) < cuts[i] < Max(x))
      && (forall i :: 0 <= i < |cuts| ==> cuts[i] == Midpoint(Distinct(x), i))
  {
    var u := Distinct(x);
    assert x[0] in u;
    var pl := QuantilePlan(|u|, maxNumCuts);
    var cuts := RebindQuantile(x, maxNumCuts, b).value.cuts;
    assert |cuts| <= |u| - 1;
    forall i | 0 <= i < |cuts|
      ensures cuts[i] == Midpoint(u, i)
    {
      assert CutIndex(i, pl, |u|) == i;
    }
    forall i, j | 0 <= i < j < |cuts|
      ensures cuts[i] < cuts[j]
    {
      MidpointIncreasing(u, i, j);
    }
    if |u| >= 2 {
      MidpointsInsideRange(x, pl, cuts);
    }
  }

  /** As written, the subsampling branch uses stride 0 and offset 0, so every
      cut is the midpoint of the two smallest distinct values. */
  lemma SubsampledCutsCollapse(x: seq<real>, maxNumCuts: nat, b: Binding)
    requires |x| > 0 && maxNumCuts < UINT32_MAX
    requires |Distinct(x)| > maxNumCuts + 1
    requires RebindQuantile(x, maxNumCuts, b).Success?
    ensures var cuts := RebindQuantile(x, maxNumCuts, b).value.cuts;
      forall i :: 0 <= i < |cuts| ==> cuts[i] == Midpoint(Distinct(x), 0)
  {
    var u := Distinct(x);
    SubsampledPlan(|u|, maxNumCuts);
    QuantileRebind(x, maxNumCuts, b);
    CollapsedCuts(u, QuantilePlan(|u|, maxNumCuts), RebindQuantile(x, maxNumCuts, b).value.cuts);
  }

  /** In the subsampling branch the integer quotient makes stride and offset 0. */
  lemma SubsampledPlan(numUnique: nat, maxNumCuts: nat)
    requires maxNumCuts < UINT32_MAX && numUnique > maxNumCuts + 1
    ensures QuantilePlan(numUnique, maxNumCuts).step == 0 && QuantilePlan(numUnique, maxNumCuts).offset == 0
  {
  }

  /** A successful quantile rebinding yields the cuts of its plan over the distinct values. */
  lemma QuantileRebind(x: seq<real>, maxNumCuts: nat, b: Binding)
    requires |x| > 0 && maxNumCuts < UINT32_MAX
    requires RebindQuantile(x, maxNumCuts, b).Success?
    ensures |Distinct(x)| >= 1
    ensures var u := Distinct(x);
      var cuts := RebindQuantile(x, maxNumCuts, b).value.cuts;
      forall i :: 0 <= i < |cuts| ==> |u| >= 2 && cuts[i] == Midpoint(u, CutIndex(i, QuantilePlan(|u|, maxNumCuts), |u|))
  {
    var u := Distinct(x);
    assert x[0] in u;
    assert RebindQuantile(x, maxNumCuts, b) == Rebind(u, QuantilePlan(|u|, maxNumCuts), b);
  }

  /** With stride and offset 0 every cut straddles the first pair. */
  lemma CollapsedCuts(u: seq<real>, pl: Plan, cuts: seq<real>)
    requires |u| >= 2 && pl.step == 0 && pl.offset == 0
    requires forall i :: 0 <= i < |cuts| ==> cuts[i] == Midpoint(u, CutIndex(i, pl, |u|))
    ensures forall i :: 0 <= i < |cuts| ==> cuts[i] == Midpoint(u, 0)
  {
    forall i | 0 <= i < |cuts|
      ensures cuts[i] == Midpoint(u, 0)
    {
      assert i * pl.step == 0;
      assert CutIndex(i, pl, |u|) == 0;
    }
  }

  /** A concrete column showing the collapse: four distinct values and at most
      two cuts give the grid [1.5, 1.5], which is not strictly increasing. */
  lemma SubsampledCutsCounterexample()
    ensures RebindQuantile([1.0, 2.0, 3.0, 4.0], 2, Unbound) == Success(Rebound([1.5, 1.5], false))
    ensures !StrictlyIncreasing(RebindQuantile([1.0, 2.0, 3.0, 4.0], 2, Unbound).value.cuts)
  {
    var x := [1.0, 2.0, 3.0, 4.0];
    DistinctOfCounterexample();
    var pl := QuantilePlan(4, 2);
    assert pl == Plan(2, 0, 0);
    CutsOfCounterexample();
    assert RebindQuantile(x, 2, Unbound) == Rebind(x, pl, Unbound);
    var cuts: seq<real> := [1.5, 1.5];
    assert !(cuts[0] < cuts[1]);
  }

  /** The same column through the program's whole cut-point pass: the grid
      set for it is [1.5, 1.5]. */
  lemma SetCutPointsCounterexample()
    ensures SetCutPoints([[1.0, 2.0, 3.0, 4.0]], Some([2]), true, AsWritten, [Unbound], [0])
         == Success(GridUpdate([Bound([1.5, 1.5])], 0))
  {
    SubsampledCutsCounterexample();
    assert RebindColumn([1.0, 2.0, 3.0, 4.0], 2, true, AsWritten, Unbound) == Success(Rebound([1.5, 1.5], false));
    assert [Unbound][0 := Bound([1.5, 1.5])] == [Bound([1.5, 1.5])];
  }

  lemma CutsOfCounterexample()
    ensures FillCuts([1.0, 2.0, 3.0, 4.0], 2, Plan(2, 0, 0)) == [1.5, 1.5]
  {
    var pl := Plan(2, 0, 0);
    var cuts := FillCuts([1.0, 2.0, 3.0, 4.0], 2, pl);
    assert CutIndex(0, pl, 4) == 0 && CutIndex(1, pl, 4) == 0;
  }

  lemma DistinctOfCounterexample()
    ensures Distinct([1.0, 2.0, 3.0, 4.0]) == [1.0, 2.0, 3.0, 4.0]
  {
    DistinctOfIncreasing([1.0, 2.0, 3.0, 4.0]);
  }

  /** A column already strictly increasing is its own list of distinct values. */
  lemma {:induction false} DistinctOfIncreasing(x: seq<real>)
    requires StrictlyIncreasing(x)
    ensures Distinct(x) == x
    decreases |x|
  {
    if |x| > 0 {
      var init := x[..|x| - 1];
      assert StrictlyIncreasing(init);
      DistinctOfIncreasing(init);
      InsertAbove(init, x[|x| - 1]);
      assert init + [x[|x| - 1]] == x;
    }
  }

  /** Inserting a value above every entry appends it. */
  lemma {:induction false} InsertAbove(s: seq<real>, v: real)
    requires StrictlyIncreasing(s) && forall k :: 0 <= k < |s| ==> s[k] < v
    ensures Insert(s, v) == s + [v]
    decreases |s|
  {
    if |s| > 0 {
      assert StrictlyIncreasing(s[1..]);
      InsertAbove(s[1..], v);
      assert s == [s[0]] + s[1..];
      assert Insert(s, v) == [s[0]] + Insert(s[1..], v);
    }
  }

  /** Strictly increasing raw positions stay strictly increasing after the
      clamp to `numUnique - 2` under the corrected stride. */
  lemma CorrectedIndexIncreasing(numUnique: nat, numCuts: nat, i: nat, j: nat)
    requires numCuts >= 1 && numUnique >= numCuts + 2 && i < j < numCuts
    ensures var pl := Plan(numCuts, numUnique / numCuts, (numUnique / numCuts) / 2);
      CutIndex(i, pl, numUnique) < CutIndex(j, pl, numUnique)
  {
    var s := numUnique / numCuts;
    var o := s / 2;
    assert numCuts * s + numUnique % numCuts == numUnique;
    assert numCuts * s <= numUnique;
    assert s >= 1;
    MulStrictMonotone(i, j, s);
    MulMonotone(i, numCuts - 2, s);
    assert (numCuts - 2) * s + 2 * s == numCuts * s;
    assert i * s + o < numUnique - 2;
  }

  /** With the corrected stride every quantile grid is strictly increasing and
      lies strictly inside the column's range. */
  lemma CorrectedQuantileCutsIncreasing(x: seq<real>, maxNumCuts: nat, b: Binding)
    requires |x| > 0 && maxNumCuts < UINT32_MAX
    requires RebindQuantileCorrected(x, maxNumCuts, b).Success?
    ensures var cuts := RebindQuantileCorrected(x, maxNumCuts, b).value.cuts;
      && StrictlyIncreasing(cuts)
      && (forall i :: 0 <= i < |cuts| ==> Min(x) < cuts[i] < Max(x))
  {
    var u := Distinct(x);
    assert x[0] in u;
    var pl := QuantilePlanCorrected(|u|, maxNumCuts);
    var cuts := RebindQuantileCorrected(x, maxNumCuts, b).value.cuts;
    assert |cuts| <= pl.numCuts;
    forall i, j | 0 <= i < j < |cuts|
      ensures cuts[i] < cuts[j]
    {
      if |u| <= maxNumCuts + 1 {
        assert CutIndex(i, pl, |u|) == i && CutIndex(j, pl, |u|) == j;
        MidpointIncreasing(u, i, j);
      } else {
        CorrectedIndexIncreasing(|u|, maxNumCuts, i, j);
        MidpointIncreasing(u, CutIndex(i, pl, |u|), CutIndex(j, pl, |u|));
      }
    }
    if |u| >= 2 {
      MidpointsInsideRange(x, pl, cuts);
    }
  }

  // ---------------------------------------------------------------------------
  // Uniform mode
  // ---------------------------------------------------------------------------

  /** Uniform-mode rebinding of one column (bartFit.cpp:732-754): a first call
      takes `maxNumCuts` cuts, later calls keep the stored count; the cuts are
      `min + (i + 1) * (max - min) / (count + 1)`. */
  function RebindUniform(x: seq<real>, maxNumCuts: nat, b: Binding): (cuts: seq<real>)
    requires |x| > 0
    ensures |cuts| == if b.Unbound? then maxNumCuts else |b.cuts|
  {
    UniformGrid(Min(x), Max(x), if b.Unbound? then maxNumCuts else |b.cuts|)
  }

  /** `count` equally spaced points strictly between `lo` and `hi`. */
  function UniformGrid(lo: real, hi: real, count: nat): (cuts: seq<real>)
    ensures |cuts| == count
  {
    var increment := (hi - lo) / (count + 1) as real;
    seq(count, i requires 0 <= i < count => lo + (i + 1) as real * increment)
  }

  /** Uniform cuts split the column's range into `count + 1` equal parts: for a
      non-constant column they increase strictly and lie strictly inside it. */
  lemma UniformCutsIncreasing(x: seq<real>, maxNumCuts: nat, b: Binding)
    requires |x| > 0 && Min(x) < Max(x)
    ensures var cuts := RebindUniform(x, maxNumCuts, b);
      && StrictlyIncreasing(cuts)
      && (forall i :: 0 <= i < |cuts| ==> Min(x) < cuts[i] < Max(x))
  {
    UniformGridIncreasing(Min(x), Max(x), if b.Unbound? then maxNumCuts else |b.cuts|);
  }

  lemma UniformGridIncreasing(lo: real, hi: real, count: nat)
    requires lo < hi
    ensures StrictlyIncreasing(UniformGrid(lo, hi, count))
    ensures forall i :: 0 <= i < count ==> lo < UniformGrid(lo, hi, count)[i] < hi
  {
    var increment := (hi - lo) / (count + 1) as real;
    PositiveQuotient(hi - lo, (count + 1) as real);
    SpacedPoints(lo, hi, count, increment, UniformGrid(lo, hi, count));
  }

  /** Points `lo + (i + 1) * increment` for `i < count`, where `count + 1`
      increments span `[lo, hi]`. */
  lemma SpacedPoints(lo: real, hi: real, count: nat, increment: real, cuts: seq<real>)
    requires |cuts| == count && increment > 0.0 && (count + 1) as real * increment == hi - lo
    requires forall i :: 0 <= i < count ==> cuts[i] == lo + (i + 1) as real * increment
    ensures StrictlyIncreasing(cuts)
    ensures forall i :: 0 <= i < count ==> lo < cuts[i] < hi
  {
    forall i | 0 <= i < count
      ensures lo < cuts[i] < hi
    {
      UniformPointInside(lo, hi - lo, (count + 1) as real, (i + 1) as real, increment);
    }
    forall i, j | 0 <= i < j < count
      ensures cuts[i] < cuts[j]
    {
      ScaleStrict((i + 1) as real, (j + 1) as real, increment);
    }
  }

  lemma UniformPointInside(lo: real, width: real, parts: real, k: real, increment: real)
    requires width > 0.0 && 0.0 < k < parts && increment > 0.0 && parts * increment == width
    ensures lo < lo + k * increment < lo + width
  {
    ScaleStrict(0.0, k, increment);
    ScaleStrict(k, parts, increment);
  }

  lemma PositiveQuotient(d: real, n: real)
    requires d > 0.0 && n > 0.0
    ensures d / n > 0.0 && n * (d / n) == d
  {
  }

  lemma ScaleStrict(a: real, b: real, c: real)
    requires a < b && c > 0.0
    ensures a * c < b * c
  {
  }

  // ---------------------------------------------------------------------------
  // Rebinding a set of columns
  // ---------------------------------------------------------------------------

  /** Stored grids of all columns after `setCutPoints`, and how many
      "ignoring extra quantiles" warnings were issued. */
  datatype GridUpdate = GridUpdate(grid: seq<Binding>, warnings: nat)

  /** Every listed column has data and its cut limit is usable. */
  predicate ColumnsReady(cols: seq<seq<real>>, maxNumCuts: seq<nat>, grid: seq<Binding>, columns: seq<nat>)
  {
    && |cols| == |grid| == |maxNumCuts|
    && (forall k :: 0 <= k < |columns| ==> columns[k] < |cols|)
    && (forall c :: 0 <= c < |cols| ==> |cols[c]| > 0)
    && (forall c :: 0 <= c < |maxNumCuts| ==> maxNumCuts[c] < UINT32_MAX)
  }

  /** Which subsampling stride quantile mode uses: the one bartFit.cpp:707-711
      computes, or the evidently intended one. */
  datatype Stride = AsWritten | Corrected

  /** The quantile plan under a stride. Both strides induce
      `min(numUnique - 1, maxNumCuts)` cuts; they differ only in which pairs
      of distinct values the cuts straddle. */
  function PlanOf(stride: Stride, numUnique: nat, maxNumCuts: nat): (pl: Plan)
    requires numUnique >= 1 && maxNumCuts < UINT32_MAX
    ensures pl.numCuts == if numUnique <= maxNumCuts + 1 then numUnique - 1 else maxNumCuts
  {
    match stride
    case AsWritten => QuantilePlan(numUnique, maxNumCuts)
    case Corrected => QuantilePlanCorrected(numUnique, maxNumCuts)
  }

  /** The quantile plan of a column: fewer cuts than distinct values. */
  function ColumnPlan(x: seq<real>, maxNumCuts: nat, stride: Stride): (pl: Plan)
    requires |x| > 0 && maxNumCuts < UINT32_MAX
    ensures pl.numCuts < |Distinct(x)| && pl.numCuts <= maxNumCuts
  {
    var u := Distinct(x);
    assert x[0] in u;
    PlanOf(stride, |u|, maxNumCuts)
  }

  /** Rebinding of one column in the configured mode (bartFit.cpp:674-687,
      715-753). Only a quantile column with a stored grid larger than its
      induced count fails. The count is the stored one, or on a first call the
      induced one (quantiles) or `maxNumCuts` (uniform). Quantile cuts are the
      plan's midpoints; uniform cuts divide the column's range evenly. */
  function RebindColumn(x: seq<real>, maxNumCuts: nat, useQuantiles: bool, stride: Stride, b: Binding)
    : (r: Result<Rebound>)
    requires |x| > 0 && maxNumCuts < UINT32_MAX
    ensures r.Failure? <==> useQuantiles && b.Bound? && ColumnPlan(x, maxNumCuts, stride).numCuts < |b.cuts|
    ensures r.Failure? ==> r.error == FEWER_CUTS_ERROR
    ensures r.Success? ==>
      |r.value.cuts| == (if b.Bound? then |b.cuts| else if useQuantiles then ColumnPlan(x, maxNumCuts, stride).numCuts else maxNumCuts)
    ensures r.Success? ==>
      (r.value.warned <==> useQuantiles && b.Bound? && ColumnPlan(x, maxNumCuts, stride).numCuts > |b.cuts|)
  {
    if useQuantiles then
      match stride
      case AsWritten => RebindQuantile(x, maxNumCuts, b)
      case Corrected => RebindQuantileCorrected(x, maxNumCuts, b)
    else Success(Rebound(RebindUniform(x, maxNumCuts, b), false))
  }

  /** The values a rebinding stores: in quantile mode the plan's midpoints at
      the stored count, in uniform mode the even division of the column's
      range. */
  lemma RebindColumnCuts(x: seq<real>, maxNumCuts: nat, useQuantiles: bool, stride: Stride, b: Binding)
    requires |x| > 0 && maxNumCuts < UINT32_MAX
    requires RebindColumn(x, maxNumCuts, useQuantiles, stride, b).Success?
    ensures var cuts := RebindColumn(x, maxNumCuts, useQuantiles, stride, b).value.cuts;
      useQuantiles ==> |cuts| <= ColumnPlan(x, maxNumCuts, stride).numCuts &&
                       cuts == FillCuts(Distinct(x), |cuts|, ColumnPlan(x, maxNumCuts, stride))
    ensures var cuts := RebindColumn(x, maxNumCuts, useQuantiles, stride, b).value.cuts;
      !useQuantiles ==> cuts == UniformGrid(Min(x), Max(x), |cuts|)
  {
  }

  /** Rebinding a column against the grid it was just given reproduces that
      grid, so a column listed twice ends up as if listed once. */
  lemma RebindAgain(x: seq<real>, maxNumCuts: nat, useQuantiles: bool, stride: Stride, b: Binding)
    requires |x| > 0 && maxNumCuts < UINT32_MAX
    requires RebindColumn(x, maxNumCuts, useQuantiles, stride, b).Success?
    ensures var cuts := RebindColumn(x, maxNumCuts, useQuantiles, stride, b).value.cuts;
      && RebindColumn(x, maxNumCuts, useQuantiles, stride, Bound(cuts)).Success?
      && RebindColumn(x, maxNumCuts, useQuantiles, stride, Bound(cuts)).value.cuts == cuts
  {
  }

  /** Rebinds the listed columns in order (bartFit.cpp:659-690). The source
      rejects a missing cut-limit vector in quantile mode before any column.
      The call succeeds iff every listed column could be rebound alone against
      the grid before the call, and each listed column then holds exactly that
      column's own rebinding. */
  function SetCutPoints(cols: seq<seq<real>>, maxNumCuts: Option<seq<nat>>, useQuantiles: bool, stride: Stride,
                        grid: seq<Binding>, columns: seq<nat>): (r: Result<GridUpdate>)
    requires maxNumCuts.Some? ==> ColumnsReady(cols, maxNumCuts.value, grid, columns)
    requires maxNumCuts.None? ==> useQuantiles
    ensures maxNumCuts.None? ==> r == Failure(NULL_MAX_CUTS_ERROR)
    ensures maxNumCuts.Some? ==> (r.Success? <==> forall k :: 0 <= k < |columns| ==>
      RebindColumn(cols[columns[k]], maxNumCuts.value[columns[k]], useQuantiles, stride, grid[columns[k]]).Success?)
    ensures maxNumCuts.Some? && r.Failure? ==> r.error == FEWER_CUTS_ERROR
    ensures r.Success? ==> |r.value.grid| == |grid|
    ensures r.Success? ==> forall c :: 0 <= c < |grid| && c !in columns ==> r.value.grid[c] == grid[c]
    ensures r.Success? ==> forall c :: 0 <= c < |grid| && grid[c].Bound? ==>
      r.value.grid[c].Bound? && |r.value.grid[c].cuts| == |grid[c].cuts|
    ensures r.Success? ==> maxNumCuts.Some? && forall k :: 0 <= k < |columns| ==>
      var c := columns[k];
      RebindColumn(cols[c], maxNumCuts.value[c], useQuantiles, stride, grid[c]).Success? &&
      r.value.grid[c] == Bound(RebindColumn(cols[c], maxNumCuts.value[c], useQuantiles, stride, grid[c]).value.cuts)
    ensures r.Success? && useQuantiles ==> forall k :: 0 <= k < |columns| ==>
      var c := columns[k];
      r.value.grid[c].Bound? &&
      |r.value.grid[c].cuts| <= ColumnPlan(cols[c], maxNumCuts.value[c], stride).numCuts &&
      r.value.grid[c].cuts == FillCuts(Distinct(cols[c]), |r.value.grid[c].cuts|, ColumnPlan(cols[c], maxNumCuts.value[c], stride))
    ensures r.Success? && !useQuantiles ==> forall k :: 0 <= k < |columns| ==>
      var c := columns[k];
      r.value.grid[c].Bound? && r.value.grid[c].cuts == UniformGrid(Min(cols[c]), Max(cols[c]), |r.value.grid[c].cuts|)
  {
    match maxNumCuts
    case None => Failure(NULL_MAX_CUTS_ERROR)
    case Some(limits) =>
      RebindColumnsSucceed(cols, limits, useQuantiles, stride, grid, columns, 0);
      RebindColumnsError(cols, limits, useQuantiles, stride, grid, columns, 0);
      var r := RebindColumns(cols, limits, useQuantiles, stride, grid, columns, 0);
      if r.Success? then RebindColumnsAlone(cols, limits, useQuantiles, stride, grid, columns, 0); r
      else r
  }

  function RebindColumns(cols: seq<seq<real>>, limits: seq<nat>, useQuantiles: bool, stride: Stride,
                         grid: seq<Binding>, columns: seq<nat>, warnings: nat): (r: Result<GridUpdate>)
    requires ColumnsReady(cols, limits, grid, columns)
    ensures r.Success? ==> |r.value.grid| == |grid| && r.value.warnings >= warnings
    ensures r.Success? ==> forall c :: 0 <= c < |grid| && c !in columns ==> r.value.grid[c] == grid[c]
    ensures r.Success? ==> forall c :: c in columns ==> r.value.grid[c].Bound?
    ensures r.Success? ==> forall c :: 0 <= c < |grid| && grid[c].Bound? ==>
      r.value.grid[c].Bound? && |r.value.grid[c].cuts| == |grid[c].cuts|
    ensures r.Success? && !useQuantiles ==> forall k :: 0 <= k < |columns| ==>
      var c := columns[k];
      r.value.grid[c].cuts == UniformGrid(Min(cols[c]), Max(cols[c]), |r.value.grid[c].cuts|)
    decreases |columns|
  {
    if |columns| == 0 then Success(GridUpdate(grid, warnings))
    else
      var c := columns[0];
      var rebound :- RebindColumn(cols[c], limits[c], useQuantiles, stride, grid[c]);
      RebindColumns(cols, limits, useQuantiles, stride, grid[c := Bound(rebound.cuts)], columns[1..],
                    if rebound.warned then warnings + 1 else warnings)
  }

  /** Column `c` can be rebound against `grid`. */
  predicate Rebinds(cols: seq<seq<real>>, limits: seq<nat>, useQuantiles: bool, stride: Stride,
                    grid: seq<Binding>, c: nat)
    requires ColumnsReady(cols, limits, grid, []) && c < |cols|
  {
    RebindColumn(cols[c], limits[c], useQuantiles, stride, grid[c]).Success?
  }

  /** Rebinding columns in order succeeds exactly when rebinding each of them
      alone, against the grid before the call, succeeds. */
  lemma {:induction false} RebindColumnsSucceed(cols: seq<seq<real>>, limits: seq<nat>, useQuantiles: bool,
                                                stride: Stride, grid: seq<Binding>, columns: seq<nat>, warnings: nat)
    requires ColumnsReady(cols, limits, grid, columns)
    ensures RebindColumns(cols, limits, useQuantiles, stride, grid, columns, warnings).Success? <==>
      forall k :: 0 <= k < |columns| ==> Rebinds(cols, limits, useQuantiles, stride, grid, columns[k])
    decreases |columns|
  {
    if |columns| > 0 {
      var c := columns[0];
      var first := RebindColumn(cols[c], limits[c], useQuantiles, stride, grid[c]);
      if first.Success? {
        var grid' := grid[c := Bound(first.value.cuts)];
        var rest := columns[1..];
        var w := if first.value.warned then warnings + 1 else warnings;
        RebindColumnsSucceed(cols, limits, useQuantiles, stride, grid', rest, w);
        forall k | 0 <= k < |rest|
          ensures Rebinds(cols, limits, useQuantiles, stride, grid', rest[k]) <==>
                  Rebinds(cols, limits, useQuantiles, stride, grid, rest[k])
        {
          RebindAfter(cols, limits, useQuantiles, stride, grid, c, rest[k]);
        }
        assert RebindColumns(cols, limits, useQuantiles, stride, grid, columns, warnings)
            == RebindColumns(cols, limits, useQuantiles, stride, grid', rest, w);
        assert forall k :: 0 < k < |columns| ==> columns[k] == rest[k - 1];
      }
    }
  }

  /** A failed rebinding of columns reports that a grid would shrink. */
  lemma {:induction false} RebindColumnsError(cols: seq<seq<real>>, limits: seq<nat>, useQuantiles: bool,
                                              stride: Stride, grid: seq<Binding>, columns: seq<nat>, warnings: nat)
    requires ColumnsReady(cols, limits, grid, columns)
    ensures var r := RebindColumns(cols, limits, useQuantiles, stride, grid, columns, warnings);
      r.Failure? ==> r.error == FEWER_CUTS_ERROR
    decreases |columns|
  {
    if |columns| > 0 {
      var c := columns[0];
      var first := RebindColumn(cols[c], limits[c], useQuantiles, stride, grid[c]);
      if first.Success? {
        RebindColumnsError(cols, limits, useQuantiles, stride, grid[c := Bound(first.value.cuts)], columns[1..],
                           if first.value.warned then warnings + 1 else warnings);
      }
    }
  }

  /** When rebinding columns in order succeeds, each listed column holds what
      rebinding it alone against the grid before the call gives. */
  lemma {:induction false} RebindColumnsAlone(cols: seq<seq<real>>, limits: seq<nat>, useQuantiles: bool,
                                              stride: Stride, grid: seq<Binding>, columns: seq<nat>, warnings: nat)
    requires ColumnsReady(cols, limits, grid, columns)
    requires RebindColumns(cols, limits, useQuantiles, stride, grid, columns, warnings).Success?
    ensures var r := RebindColumns(cols, limits, useQuantiles, stride, grid, columns, warnings);
      forall k :: 0 <= k < |columns| ==>
        var c := columns[k];
        RebindColumn(cols[c], limits[c], useQuantiles, stride, grid[c]).Success? &&
        r.value.grid[c] == Bound(RebindColumn(cols[c], limits[c], useQuantiles, stride, grid[c]).value.cuts)
    decreases |columns|
  {
    if |columns| > 0 {
      var c := columns[0];
      var first := RebindColumn(cols[c], limits[c], useQuantiles, stride, grid[c]);
      var grid' := grid[c := Bound(first.value.cuts)];
      var rest := columns[1..];
      var w := if first.value.warned then warnings + 1 else warnings;
      var r := RebindColumns(cols, limits, useQuantiles, stride, grid, columns, warnings);
      assert r == RebindColumns(cols, limits, useQuantiles, stride, grid', rest, w);
      RebindColumnsAlone(cols, limits, useQuantiles, stride, grid', rest, w);
      forall k | 0 <= k < |columns|
        ensures RebindColumn(cols[columns[k]], limits[columns[k]], useQuantiles, stride, grid[columns[k]]).Success?
        ensures r.value.grid[columns[k]] ==
          Bound(RebindColumn(cols[columns[k]], limits[columns[k]], useQuantiles, stride, grid[columns[k]]).value.cuts)
      {
        var d := columns[k];
        RebindAfter(cols, limits, useQuantiles, stride, grid, c, d);
        if 0 < k {
          assert d == rest[k - 1];
        } else if c in rest {
          var j :| 0 <= j < |rest| && rest[j] == c;
        } else {
          assert r.value.grid[c] == grid'[c];
        }
      }
    }
  }

  /** Once column `c` holds its rebinding, rebinding column `d` against the
      new grid succeeds iff it did against the old one, with the same cuts. */
  lemma RebindAfter(cols: seq<seq<real>>, limits: seq<nat>, useQuantiles: bool, stride: Stride,
                    grid: seq<Binding>, c: nat, d: nat)
    requires ColumnsReady(cols, limits, grid, []) && c < |cols| && d < |cols|
    requires Rebinds(cols, limits, useQuantiles, stride, grid, c)
    ensures var grid' := grid[c := Bound(RebindColumn(cols[c], limits[c], useQuantiles, stride, grid[c]).value.cuts)];
      && (Rebinds(cols, limits, useQuantiles, stride, grid', d) <==> Rebinds(cols, limits, useQuantiles, stride, grid, d))
      && (Rebinds(cols, limits, useQuantiles, stride, grid', d) ==>
            RebindColumn(cols[d], limits[d], useQuantiles, stride, grid'[d]).value.cuts
            == RebindColumn(cols[d], limits[d], useQuantiles, stride, grid[d]).value.cuts)
  {
    if d == c {
      RebindAgain(cols[c], limits[c], useQuantiles, stride, grid[c]);
    }
  }

  lemma {:induction false} AllUnboundSucceeds(cols: seq<seq<real>>, limits: seq<nat>, useQuantiles: bool,
                                              stride: Stride, grid: seq<Binding>, columns: seq<nat>, warnings: nat)
    requires ColumnsReady(cols, limits, grid, columns)
    requires forall k :: 0 <= k < |columns| ==> grid[columns[k]].Unbound?
    requires forall k, l :: 0 <= k < l < |columns| ==> columns[k] != columns[l]
    ensures RebindColumns(cols, limits, useQuantiles, stride, grid, columns, warnings).Success?
    decreases |columns|
  {
    if |columns| > 0 {
      var c := columns[0];
      var rebound := RebindColumn(cols[c], limits[c], useQuantiles, stride, grid[c]);
      assert rebound.Success?;
      var grid' := grid[c := Bound(rebound.value.cuts)];
      assert forall k :: 0 <= k < |columns[1..]| ==> columns[1..][k] != c;
      AllUnboundSucceeds(cols, limits, useQuantiles, stride, grid', columns[1..],
                         if rebound.value.warned then warnings + 1 else warnings);
    }
  }

  /** `setInitialCutPoints` (bartFit.cpp:640-657): every column starts at the
      first-call sentinel and all columns are listed once, in order. The pass
      always succeeds, binds every column, raises no warning, and stores the
      count and the cuts each column induces on its own. */
  function SetInitialCutPoints(cols: seq<seq<real>>, limits: seq<nat>, useQuantiles: bool, stride: Stride)
    : (r: Result<GridUpdate>)
    requires ColumnsReady(cols, limits, seq(|cols|, _ => Unbound), [])
    ensures r.Success? && |r.value.grid| == |cols|
    ensures r.Success? ==> forall c :: 0 <= c < |cols| ==>
      r.value.grid[c].Bound? &&
      |r.value.grid[c].cuts| == (if useQuantiles then ColumnPlan(cols[c], limits[c], stride).numCuts else limits[c])
    ensures r.Success? && useQuantiles ==> forall c :: 0 <= c < |cols| ==>
      r.value.grid[c].cuts == FillCuts(Distinct(cols[c]), |r.value.grid[c].cuts|, ColumnPlan(cols[c], limits[c], stride))
    ensures r.Success? && !useQuantiles ==> forall c :: 0 <= c < |cols| ==>
      r.value.grid[c].cuts == UniformGrid(Min(cols[c]), Max(cols[c]), limits[c])
  {
    InitialGrid(cols, limits, useQuantiles, stride);
    SetCutPoints(cols, Some(limits), useQuantiles, stride, seq(|cols|, _ => Unbound), seq(|cols|, i => i))
  }

  /** The pass over all columns from the sentinel, column by column. */
  lemma InitialGrid(cols: seq<seq<real>>, limits: seq<nat>, useQuantiles: bool, stride: Stride)
    requires ColumnsReady(cols, limits, seq(|cols|, _ => Unbound), [])
    ensures var r := SetCutPoints(cols, Some(limits), useQuantiles, stride, seq(|cols|, _ => Unbound), seq(|cols|, i => i));
      r.Success? && |r.value.grid| == |cols| &&
      forall c :: 0 <= c < |cols| ==>
        && r.value.grid[c].Bound?
        && |r.value.grid[c].cuts| == (if useQuantiles then ColumnPlan(cols[c], limits[c], stride).numCuts else limits[c])
        && (useQuantiles ==>
              r.value.grid[c].cuts == FillCuts(Distinct(cols[c]), |r.value.grid[c].cuts|, ColumnPlan(cols[c], limits[c], stride)))
        && (!useQuantiles ==> r.value.grid[c].cuts == UniformGrid(Min(cols[c]), Max(cols[c]), limits[c]))
  {
    var grid: seq<Binding> := seq(|cols|, _ => Unbound);
    var columns: seq<nat> := seq(|cols|, i => i);
    AllUnboundSucceeds(cols, limits, useQuantiles, stride, grid, columns, 0);
    var r := SetCutPoints(cols, Some(limits), useQuantiles, stride, grid, columns);
    assert r.Success?;
    forall c | 0 <= c < |cols|
      ensures r.value.grid[c].Bound?
      ensures |r.value.grid[c].cuts| == (if useQuantiles then ColumnPlan(cols[c], limits[c], stride).numCuts else limits[c])
      ensures useQuantiles ==>
        r.value.grid[c].cuts == FillCuts(Distinct(cols[c]), |r.value.grid[c].cuts|, ColumnPlan(cols[c], limits[c], stride))
      ensures !useQuantiles ==> r.value.grid[c].cuts == UniformGrid(Min(cols[c]), Max(cols[c]), limits[c])
    {
      assert columns[c] == c && grid[c] == Unbound;
      var rebound := RebindColumn(cols[c], limits[c], useQuantiles, stride, Unbound);
      assert r.value.grid[c] == Bound(rebound.value.cuts);
    }
  }

  // ------------------------------------------------- an interrupted pass

  /** The position of the first listed column that cannot be rebound against
      `grid`, or the number of listed columns when every one can. */
  function FirstFailure(cols: seq<seq<real>>, limits: seq<nat>, useQuantiles: bool, stride: Stride,
                        grid: seq<Binding>, columns: seq<nat>): (j: nat)
    requires ColumnsReady(cols, limits, grid, columns)
    ensures j <= |columns|
    ensures forall k :: 0 <= k < j ==> Rebinds(cols, limits, useQuantiles, stride, grid, columns[k])
    ensures j < |columns| ==> !Rebinds(cols, limits, useQuantiles, stride, grid, columns[j])
    decreases |columns|
  {
    if |columns| == 0 || !Rebinds(cols, limits, useQuantiles, stride, grid, columns[0]) then 0
    else 1 + FirstFailure(cols, limits, useQuantiles, stride, grid, columns[1..])
  }

  /** The listed columns rewritten in place, in order, stopping at the first
      one whose rebinding throws. */
  function RebindInPlace(cols: seq<seq<real>>, limits: seq<nat>, useQuantiles: bool, stride: Stride,
                         grid: seq<Binding>, columns: seq<nat>): (g: seq<Binding>)
    requires ColumnsReady(cols, limits, grid, columns)
    ensures |g| == |grid|
    decreases |columns|
  {
    if |columns| == 0 then grid
    else
      var c := columns[0];
      var rebound := RebindColumn(cols[c], limits[c], useQuantiles, stride, grid[c]);
      if rebound.Failure? then grid
      else RebindInPlace(cols, limits, useQuantiles, stride, grid[c := Bound(rebound.value.cuts)], columns[1..])
  }

  /** The grid `setCutPoints` leaves behind, also when it throws. It rewrites
      each listed column's cut array in place (bartFit.cpp:675-681, 726-729),
      so an error for one column (line 716) leaves the columns listed before
      it already rebound. Those hold their own rebinding against the grid
      before the call; every other column, the failing one included, is as
      before. Without an error this is the grid of a successful call. */
  function SetCutPointsInPlace(cols: seq<seq<real>>, limits: seq<nat>, useQuantiles: bool, stride: Stride,
                               grid: seq<Binding>, columns: seq<nat>): (g: seq<Binding>)
    requires ColumnsReady(cols, limits, grid, columns)
    ensures |g| == |grid|
    ensures var j := FirstFailure(cols, limits, useQuantiles, stride, grid, columns);
      forall k :: 0 <= k < j ==>
        var c := columns[k];
        g[c] == Bound(RebindColumn(cols[c], limits[c], useQuantiles, stride, grid[c]).value.cuts)
    ensures var j := FirstFailure(cols, limits, useQuantiles, stride, grid, columns);
      forall c :: 0 <= c < |grid| && c !in columns[..j] ==> g[c] == grid[c]
    ensures SetCutPoints(cols, Some(limits), useQuantiles, stride, grid, columns).Success? <==>
      FirstFailure(cols, limits, useQuantiles, stride, grid, columns) == |columns|
    ensures SetCutPoints(cols, Some(limits), useQuantiles, stride, grid, columns).Success? ==>
      g == SetCutPoints(cols, Some(limits), useQuantiles, stride, grid, columns).value.grid
  {
    var j := FirstFailure(cols, limits, useQuantiles, stride, grid, columns);
    InPlacePrefix(cols, limits, useQuantiles, stride, grid, columns, 0);
    RebindColumnsAlone(cols, limits, useQuantiles, stride, grid, columns[..j], 0);
    assert forall k :: 0 <= k < j ==> columns[..j][k] == columns[k];
    assert j == |columns| ==> columns[..j] == columns;
    RebindInPlace(cols, limits, useQuantiles, stride, grid, columns)
  }

  /** Rewriting in place until the first failure gives the grid of a
      successful pass over the columns before it. */
  lemma {:induction false} InPlacePrefix(cols: seq<seq<real>>, limits: seq<nat>, useQuantiles: bool, stride: Stride,
                                         grid: seq<Binding>, columns: seq<nat>, warnings: nat)
    requires ColumnsReady(cols, limits, grid, columns)
    ensures var j := FirstFailure(cols, limits, useQuantiles, stride, grid, columns);
      var r := RebindColumns(cols, limits, useQuantiles, stride, grid, columns[..j], warnings);
      r.Success? && RebindInPlace(cols, limits, useQuantiles, stride, grid, columns) == r.value.grid
    decreases |columns|
  {
    var j := FirstFailure(cols, limits, useQuantiles, stride, grid, columns);
    var prefix := columns[..j];
    assert forall k :: 0 <= k < j ==> prefix[k] == columns[k];
    RebindColumnsSucceed(cols, limits, useQuantiles, stride, grid, prefix, warnings);
    InPlaceStops(cols, limits, useQuantiles, stride, grid, columns);
    InPlaceSucceeds(cols, limits, useQuantiles, stride, grid, prefix, warnings);
  }

  /** Rewriting in place stops at the first failure: the columns after it
      play no part. */
  lemma {:induction false} InPlaceStops(cols: seq<seq<real>>, limits: seq<nat>, useQuantiles: bool, stride: Stride,
                                        grid: seq<Binding>, columns: seq<nat>)
    requires ColumnsReady(cols, limits, grid, columns)
    ensures var j := FirstFailure(cols, limits, useQuantiles, stride, grid, columns);
      RebindInPlace(cols, limits, useQuantiles, stride, grid, columns)
      == RebindInPlace(cols, limits, useQuantiles, stride, grid, columns[..j])
    decreases |columns|
  {
    var j := FirstFailure(cols, limits, useQuantiles, stride, grid, columns);
    if j == 0 {
      assert columns[..j] == [];
      if |columns| > 0 {
        assert !Rebinds(cols, limits, useQuantiles, stride, grid, columns[0]);
      }
    } else {
      var c := columns[0];
      var first := RebindColumn(cols[c], limits[c], useQuantiles, stride, grid[c]);
      assert first.Success?;
      var grid' := grid[c := Bound(first.value.cuts)];
      var rest := columns[1..];
      FirstFailureAfter(cols, limits, useQuantiles, stride, grid, c, rest);
      InPlaceStops(cols, limits, useQuantiles, stride, grid', rest);
      var prefix := columns[..j];
      assert prefix[0] == c && prefix[1..] == rest[..j - 1];
    }
  }

  /** Where a pass in order succeeds, rewriting in place gives its grid. */
  lemma {:induction false} InPlaceSucceeds(cols: seq<seq<real>>, limits: seq<nat>, useQuantiles: bool,
                                           stride: Stride, grid: seq<Binding>, columns: seq<nat>, warnings: nat)
    requires ColumnsReady(cols, limits, grid, columns)
    requires RebindColumns(cols, limits, useQuantiles, stride, grid, columns, warnings).Success?
    ensures RebindInPlace(cols, limits, useQuantiles, stride, grid, columns)
      == RebindColumns(cols, limits, useQuantiles, stride, grid, columns, warnings).value.grid
    decreases |columns|
  {
    if |columns| > 0 {
      var c := columns[0];
      var first := RebindColumn(cols[c], limits[c], useQuantiles, stride, grid[c]);
      var grid' := grid[c := Bound(first.value.cuts)];
      InPlaceSucceeds(cols, limits, useQuantiles, stride, grid', columns[1..],
                      if first.value.warned then warnings + 1 else warnings);
    }
  }

  /** Rebinding column `c` does not move the first failure among other columns. */
  lemma {:induction false} FirstFailureAfter(cols: seq<seq<real>>, limits: seq<nat>, useQuantiles: bool,
                                             stride: Stride, grid: seq<Binding>, c: nat, columns: seq<nat>)
    requires ColumnsReady(cols, limits, grid, columns) && c < |cols|
    requires Rebinds(cols, limits, useQuantiles, stride, grid, c)
    ensures var grid' := grid[c := Bound(RebindColumn(cols[c], limits[c], useQuantiles, stride, grid[c]).value.cuts)];
      FirstFailure(cols, limits, useQuantiles, stride, grid', columns)
      == FirstFailure(cols, limits, useQuantiles, stride, grid, columns)
    decreases |columns|
  {
    if |columns| > 0 {
      RebindAfter(cols, limits, useQuantiles, stride, grid, c, columns[0]);
      FirstFailureAfter(cols, limits, useQuantiles, stride, grid, c, columns[1..]);
    }
  }
}
