/** Cross-validation around the sampler (src/R_interface_crossvalidate.cpp):
    the argument checks and fold arithmetic of `xbart`, the shape of its
    result array, the built-in losses and the choice between them. The
    resampling itself (`crossvalidate`) is not part of this model. */
module CrossValidate {
  import opened Wrappers
  import opened Numeric
  import Matrix
  import Interface

  // ------------------------------------------------------- argument checks

  /** Every entry of an integer slot is present and at least `least`. */
  predicate AllAtLeast(slot: Interface.IntSlot, least: int)
  {
    forall i :: 0 <= i < |slot| ==> slot[i].Some? && slot[i].value >= least
  }

  /** Every entry of a real slot is a number in (`lo`, `hi`), or above `lo`
      when there is no upper bound. */
  predicate AllInside(slot: Interface.RealSlot, lo: real, hi: Option<real>)
  {
    forall i :: 0 <= i < |slot| ==> slot[i].Some? && lo < slot[i].value && (hi.Some? ==> slot[i].value < hi.value)
  }

  /** A non-empty vector of counts, each at least `least`. */
  function ReadCounts(slot: Interface.IntSlot, least: nat, what: string): (r: Result<seq<nat>>)
    ensures r.Success? <==> |slot| >= 1 && AllAtLeast(slot, least)
    ensures r.Success? ==> |r.value| == |slot| && forall i :: 0 <= i < |slot| ==> r.value[i] == slot[i].value
  {
    if |slot| == 0 then Failure(what + ": must have at least one entry") else
    :- Need(AllAtLeast(slot, least), what + ": out of range");
    Success(seq(|slot|, i requires 0 <= i < |slot| => slot[i].value as nat))
  }

  /** A non-empty vector of reals, each inside the bounds. */
  function ReadReals(slot: Interface.RealSlot, lo: real, hi: Option<real>, what: string): (r: Result<seq<real>>)
    ensures r.Success? <==> |slot| >= 1 && AllInside(slot, lo, hi)
    ensures r.Success? ==> |r.value| == |slot| && forall i :: 0 <= i < |slot| ==> r.value[i] == slot[i].value
  {
    if |slot| == 0 then Failure(what + ": must have at least one entry") else
    :- Need(AllInside(slot, lo, hi), what + ": out of range");
    Success(seq(|slot|, i requires 0 <= i < |slot| => slot[i].value))
  }

  /** The R arguments of `xbart` besides control, model and data. NA is
      rejected everywhere except in the thread count. */
  datatype Slots = Slots(
    numFolds: Interface.IntSlot, numReps: Interface.IntSlot, numBurnIn: Interface.IntSlot,
    numThreads: Interface.IntSlot, nTrees: Interface.IntSlot, k: Interface.RealSlot,
    power: Interface.RealSlot, base: Interface.RealSlot, drop: Interface.LogicalSlot)

  datatype Settings = Settings(
    numFolds: nat, numReps: nat, numThreads: nat, initialBurnIn: nat, subsequentBurnIn: nat,
    dropUnusedDims: bool, numTestObservations: nat,
    nTrees: seq<nat>, k: seq<real>, power: seq<real>, base: seq<real>)

  /** The grid of hyperparameters: positive tree counts, `k` and powers, and
      bases in (0, 1). */
  predicate GridAcceptable(s: Slots)
  {
    |s.nTrees| >= 1 && AllAtLeast(s.nTrees, 1) &&
    |s.k| >= 1 && AllInside(s.k, 0.0, None) &&
    |s.power| >= 1 && AllInside(s.power, 0.0, None) &&
    |s.base| >= 1 && AllInside(s.base, 0.0, Some(1.0))
  }

  /** One or two non-negative burn-in counts: the initial one and,
      optionally, the one used after the first fit. */
  predicate BurnInAcceptable(s: Slots)
  {
    1 <= |s.numBurnIn| <= 2 && AllAtLeast(s.numBurnIn, 0)
  }

  /** The fold count is a single value in [1, n - 1]. */
  predicate FoldsAcceptable(s: Slots, n: nat)
  {
    |s.numFolds| == 1 && s.numFolds[0].Some? && 0 < s.numFolds[0].value <= n - 1
  }

  predicate Acceptable(s: Slots, n: nat)
  {
    n > 0 && GridAcceptable(s) && BurnInAcceptable(s) && FoldsAcceptable(s, n) &&
    |s.numReps| >= 1 && s.numReps[0].Some? && s.numReps[0].value > 0 &&
    Interface.NaOrAtLeast(s.numThreads, Interface.ExactlyOne, 1) &&
    Interface.Definite(s.drop, Interface.ExactlyOne)
  }

  /** The argument checks and derived counts of `xbart` for `n` training
      observations. Each fold holds out `n / numFolds` observations (integer
      division); without a second burn-in entry, later fits burn in a fifth
      of the initial count. */
  function ReadSettings(s: Slots, n: nat): (r: Result<Settings>)
    ensures r.Success? <==> Acceptable(s, n)
    ensures r.Success? ==>
      r.value.numFolds == s.numFolds[0].value && r.value.numReps == s.numReps[0].value &&
      r.value.numThreads == Interface.OrElse(s.numThreads, 1) && r.value.dropUnusedDims == s.drop[0].value
    ensures r.Success? ==>
      r.value.initialBurnIn == s.numBurnIn[0].value &&
      (|s.numBurnIn| == 2 ==> r.value.subsequentBurnIn == s.numBurnIn[1].value) &&
      (|s.numBurnIn| == 1 ==> r.value.subsequentBurnIn * 5 <= r.value.initialBurnIn < r.value.subsequentBurnIn * 5 + 5)
    ensures r.Success? ==>
      var t := r.value.numTestObservations;
      1 <= t <= n && r.value.numFolds * t <= n < r.value.numFolds * (t + 1) &&
      (t < n <==> r.value.numFolds > 1)
    ensures r.Success? ==>
      |r.value.nTrees| == |s.nTrees| && |r.value.k| == |s.k| && |r.value.power| == |s.power| && |r.value.base| == |s.base|
  {
    if n == 0 then Failure("xbart called on an empty data set") else
    var grid :- ReadGrid(s);
    var burnIn :- ReadBurnIn(s.numBurnIn);
    :- Need(FoldsAcceptable(s, n), "num folds: must be a single value in [1, n - 1]");
    var numFolds: nat := s.numFolds[0].value;
    :- Need(|s.numReps| >= 1 && s.numReps[0].Some? && s.numReps[0].value > 0, "num reps: must be positive");
    var numThreads :- Interface.ReadCount(s.numThreads, Interface.ExactlyOne, Some(1), 1, "num threads");
    var drop :- Interface.ReadFlag(s.drop, Interface.ExactlyOne, "drop");
    FoldArithmetic(n, numFolds);
    Success(Settings(numFolds, s.numReps[0].value, numThreads, burnIn.0, burnIn.1, drop, n / numFolds,
                     grid.nTrees, grid.k, grid.power, grid.base))
  }

  /** The hyperparameter grid as read. */
  datatype Grid = Grid(nTrees: seq<nat>, k: seq<real>, power: seq<real>, base: seq<real>)

  /** Reads the four grid vectors, each entry as given. */
  function ReadGrid(s: Slots): (r: Result<Grid>)
    ensures r.Success? <==> GridAcceptable(s)
    ensures r.Success? ==>
      |r.value.nTrees| == |s.nTrees| && |r.value.k| == |s.k| && |r.value.power| == |s.power| && |r.value.base| == |s.base|
    ensures r.Success? ==>
      (forall i :: 0 <= i < |s.nTrees| ==> r.value.nTrees[i] == s.nTrees[i].value) &&
      (forall i :: 0 <= i < |s.k| ==> r.value.k[i] == s.k[i].value) &&
      (forall i :: 0 <= i < |s.power| ==> r.value.power[i] == s.power[i].value) &&
      (forall i :: 0 <= i < |s.base| ==> r.value.base[i] == s.base[i].value)
  {
    var nTrees :- ReadCounts(s.nTrees, 1, "num trees");
    var k :- ReadReals(s.k, 0.0, None, "k");
    var power :- ReadReals(s.power, 0.0, None, "power");
    var base :- ReadReals(s.base, 0.0, Some(1.0), "base");
    Success(Grid(nTrees, k, power, base))
  }

  /** Reads the initial and the subsequent burn-in. */
  function ReadBurnIn(slot: Interface.IntSlot): (r: Result<(nat, nat)>)
    ensures r.Success? <==> 1 <= |slot| <= 2 && AllAtLeast(slot, 0)
    ensures r.Success? ==> r.value.0 == slot[0].value
    ensures r.Success? && |slot| == 2 ==> r.value.1 == slot[1].value
    ensures r.Success? && |slot| == 1 ==> r.value.1 * 5 <= r.value.0 < r.value.1 * 5 + 5
  {
    if |slot| > 2 then Failure("num burn: at most two entries") else
    var burnIn :- ReadCounts(slot, 0, "num burn");
    Success((burnIn[0], if |burnIn| == 2 then burnIn[1] else burnIn[0] / 5))
  }

  /** Integer division by a fold count in [1, n - 1]. */
  lemma FoldArithmetic(n: nat, numFolds: nat)
    requires 0 < numFolds < n
    ensures var t := n / numFolds;
      1 <= t <= n && numFolds * t <= n < numFolds * (t + 1) && (t < n <==> numFolds > 1)
  {
    var t := n / numFolds;
    var m := n % numFolds;
    assert n == numFolds * t + m && 0 <= m < numFolds;
    FoldQuotient(n, numFolds, t, m);
  }

  lemma FoldQuotient(n: nat, d: nat, t: nat, m: nat)
    requires 0 < d < n && n == d * t + m && m < d
    ensures 1 <= t <= n && d * t <= n < d * (t + 1) && (t < n <==> d > 1)
  {
    MulMonotone(1, d, t);
    assert d * (t + 1) == d * t + d;
    if d > 1 {
      MulMonotone(2, d, t);
    } else {
      assert d * t == t;
    }
  }

  // ---------------------------------------------------------- result shape

  /** The product of a vector of counts. */
  function Product(s: seq<nat>): nat
  {
    if |s| == 0 then 1 else s[0] * Product(s[1..])
  }

  /** The counts greater than one, in order. */
  function Kept(s: seq<nat>): (r: seq<nat>)
    ensures |r| <= |s|
    ensures forall i :: 0 <= i < |r| ==> r[i] > 1
    ensures forall x :: x in r <==> x in s && x > 1
    ensures (forall i :: 0 <= i < |s| ==> s[i] <= 1) <==> |r| == 0
  {
    if |s| == 0 then []
    else (if s[0] > 1 then [s[0]] else []) + Kept(s[1..])
  }

  /** Dropping works piecewise on a concatenation, so the kept counts keep
      their order. */
  lemma {:induction false} KeptConcat(a: seq<nat>, b: seq<nat>)
    ensures Kept(a + b) == Kept(a) + Kept(b)
  {
    if |a| == 0 {
      assert a + b == b;
    } else {
      var head: seq<nat> := if a[0] > 1 then [a[0]] else [];
      assert (a + b)[0] == a[0] && (a + b)[1..] == a[1..] + b;
      KeptConcat(a[1..], b);
      assert Kept(a + b) == head + Kept(a[1..] + b);
      assert head + (Kept(a[1..]) + Kept(b)) == (head + Kept(a[1..])) + Kept(b);
    }
  }

  /** A single count is kept exactly when it exceeds one. */
  lemma KeptSingle(x: nat)
    ensures Kept([x]) == (if x > 1 then [x] else [])
  {
    assert [x][1..] == [];
  }

  /** The grid counts that survive dropping, written out one by one. */
  lemma KeptFour(a: nat, b: nat, c: nat, d: nat)
    ensures Kept([a, b, c, d]) ==
      (if a > 1 then [a] else []) + ((if b > 1 then [b] else []) + ((if c > 1 then [c] else []) + (if d > 1 then [d] else [])))
  {
    assert [a, b, c, d][1..] == [b, c, d] && [b, c, d][1..] == [c, d] && [c, d][1..] == [d] && [d][1..] == [];
    var ka: seq<nat> := if a > 1 then [a] else [];
    var kb: seq<nat> := if b > 1 then [b] else [];
    var kc: seq<nat> := if c > 1 then [c] else [];
    var kd: seq<nat> := if d > 1 then [d] else [];
    assert Kept([d]) == kd + Kept([]) && Kept([]) == [] && kd + [] == kd;
    assert Kept([c, d]) == kc + Kept([d]);
    assert Kept([b, c, d]) == kb + Kept([c, d]);
    assert Kept([a, b, c, d]) == ka + Kept([b, c, d]);
  }

  lemma {:induction false} ProductConcat(a: seq<nat>, b: seq<nat>)
    ensures Product(a + b) == Product(a) * Product(b)
  {
    if |a| > 0 {
      assert (a + b)[1..] == a[1..] + b;
      ProductConcat(a[1..], b);
      assert Product(a + b) == a[0] * (Product(a[1..]) * Product(b));
    } else {
      assert a + b == b;
    }
  }

  /** Dropping counts of one leaves the product of positive counts unchanged. */
  lemma {:induction false} ProductKept(s: seq<nat>)
    requires forall i :: 0 <= i < |s| ==> s[i] >= 1
    ensures Product(Kept(s)) == Product(s)
  {
    if |s| > 0 {
      ProductKept(s[1..]);
      var head: seq<nat> := if s[0] > 1 then [s[0]] else [];
      ProductConcat(head, Kept(s[1..]));
      assert [s[0]][1..] == [];
    }
  }

  lemma ProductOfFour(a: nat, b: nat, c: nat, d: nat)
    ensures Product([a, b, c, d]) == a * b * c * d
  {
    assert [a, b, c, d][1..] == [b, c, d] && [b, c, d][1..] == [c, d] && [c, d][1..] == [d] && [d][1..] == [];
    assert Product([d]) == d;
    assert Product([c, d]) == c * d;
    assert Product([b, c, d]) == b * (c * d);
  }

  /** The length of the result vector and its `dim` attribute (`None` when
      it has none). */
  datatype Shape = Shape(length: nat, dims: Option<seq<nat>>)

  /** `allocateResult`: one loss per grid point and repetition. Without
      dropping, the array has all five dimensions; with dropping, only the
      grid dimensions with more than one value are kept, in order, followed
      by the repetitions, and a result with no grid dimension left is a
      plain vector. */
  function AllocateResult(numNTrees: nat, numKs: nat, numPowers: nat, numBases: nat, numReps: nat, drop: bool)
    : (r: Shape)
    ensures r.length == numNTrees * numKs * numPowers * numBases * numReps
    ensures !drop ==> r.dims == Some([numNTrees, numKs, numPowers, numBases, numReps])
    ensures drop ==> (r.dims.None? <==> numNTrees <= 1 && numKs <= 1 && numPowers <= 1 && numBases <= 1)
    ensures drop && r.dims.Some? ==>
      var d := r.dims.value;
      2 <= |d| <= 5 && d[|d| - 1] == numReps && forall i :: 0 <= i < |d| - 1 ==> d[i] > 1
    ensures drop && r.dims.Some? ==>
      r.dims.value == (if numNTrees > 1 then [numNTrees] else []) + ((if numKs > 1 then [numKs] else [])
                      + ((if numPowers > 1 then [numPowers] else []) + ((if numBases > 1 then [numBases] else [])
                      + [numReps])))
    ensures r.dims.Some? && numNTrees >= 1 && numKs >= 1 && numPowers >= 1 && numBases >= 1 ==>
      Product(r.dims.value) == r.length
  {
    var length := numNTrees * numKs * numPowers * numBases * numReps;
    if !drop then
      FullShape(numNTrees, numKs, numPowers, numBases, numReps);
      Shape(length, Some([numNTrees, numKs, numPowers, numBases, numReps]))
    else
      var kept := Kept([numNTrees, numKs, numPowers, numBases]);
      KeptGrid(numNTrees, numKs, numPowers, numBases);
      KeptFour(numNTrees, numKs, numPowers, numBases);
      DroppedDims(numNTrees, numKs, numPowers, numBases, numReps);
      DroppedShape(numNTrees, numKs, numPowers, numBases, numReps);
      if |kept| == 0 then Shape(length, None) else Shape(length, Some(kept + [numReps]))
  }

  /** The full array holds one entry per combination of the five counts. */
  lemma FullShape(a: nat, b: nat, c: nat, d: nat, e: nat)
    ensures Product([a, b, c, d, e]) == a * b * c * d * e
  {
    ProductOfFour(a, b, c, d);
    ProductConcat([a, b, c, d], [e]);
    assert [a, b, c, d] + [e] == [a, b, c, d, e];
    assert [e][1..] == [];
  }

  /** Which grid dimensions survive dropping. */
  lemma KeptGrid(a: nat, b: nat, c: nat, d: nat)
    ensures var kept := Kept([a, b, c, d]);
      |kept| <= 4 && (forall i :: 0 <= i < |kept| ==> kept[i] > 1) &&
      (|kept| == 0 <==> a <= 1 && b <= 1 && c <= 1 && d <= 1)
  {
    var grid := [a, b, c, d];
    assert grid[0] == a && grid[1] == b && grid[2] == c && grid[3] == d;
  }

  /** The kept grid counts followed by the repetitions, written out. */
  lemma DroppedDims(a: nat, b: nat, c: nat, d: nat, e: nat)
    ensures Kept([a, b, c, d]) + [e] ==
      (if a > 1 then [a] else []) + ((if b > 1 then [b] else []) + ((if c > 1 then [c] else []) + ((if d > 1 then [d] else []) + [e])))
  {
    KeptFour(a, b, c, d);
    var ka: seq<nat> := if a > 1 then [a] else [];
    var kb: seq<nat> := if b > 1 then [b] else [];
    var kc: seq<nat> := if c > 1 then [c] else [];
    var kd: seq<nat> := if d > 1 then [d] else [];
    assert (ka + (kb + (kc + kd))) + [e] == ka + ((kb + (kc + kd)) + [e]);
    assert (kb + (kc + kd)) + [e] == kb + ((kc + kd) + [e]);
    assert (kc + kd) + [e] == kc + (kd + [e]);
  }

  /** Dropping unit dimensions keeps the number of entries. */
  lemma DroppedShape(a: nat, b: nat, c: nat, d: nat, e: nat)
    ensures a >= 1 && b >= 1 && c >= 1 && d >= 1 ==> Product(Kept([a, b, c, d]) + [e]) == a * b * c * d * e
  {
    if a >= 1 && b >= 1 && c >= 1 && d >= 1 {
      var grid := [a, b, c, d];
      ProductKept(grid);
      ProductOfFour(a, b, c, d);
      ProductConcat(Kept(grid), [e]);
      ProductConcat(grid, [e]);
      FullShape(a, b, c, d, e);
      assert grid + [e] == [a, b, c, d, e];
    }
  }

  // ------------------------------------------------------------------ losses

  /** Sample `j` of test observation `i` in the column-major matrix of
      posterior test draws, one column per sample. */
  function Draw(testSamples: seq<real>, numTest: nat, numSamples: nat, i: nat, j: nat): real
    requires |testSamples| == numTest * numSamples && i < numTest && j < numSamples
  {
    Matrix.IndexBound(j, i, numSamples, numTest);
    testSamples[i + j * numTest]
  }

  /** All posterior draws for test observation `i`. */
  function Draws(testSamples: seq<real>, numTest: nat, numSamples: nat, i: nat): (d: seq<real>)
    requires |testSamples| == numTest * numSamples && i < numTest
    ensures |d| == numSamples
  {
    seq(numSamples, j requires 0 <= j < numSamples => Draw(testSamples, numTest, numSamples, i, j))
  }

  function Mean(s: seq<real>): real
    requires |s| > 0
  {
    Sum(s) / |s| as real
  }

  /** The posterior mean prediction for every test observation. */
  function PosteriorMeans(testSamples: seq<real>, numTest: nat, numSamples: nat): (m: seq<real>)
    requires |testSamples| == numTest * numSamples && numSamples > 0
    ensures |m| == numTest
    ensures forall i :: 0 <= i < numTest ==> m[i] == Mean(Draws(testSamples, numTest, numSamples, i))
  {
    seq(numTest, i requires 0 <= i < numTest => Mean(Draws(testSamples, numTest, numSamples, i)))
  }

  /** A square is non-negative, and zero at zero. */
  function Square(x: real): (r: real)
    ensures r >= 0.0
    ensures x == 0.0 ==> r == 0.0
  {
    x * x
  }

  /** The squared residuals of predictions `yHat` of `y`. */
  function SquaredResiduals(y: seq<real>, yHat: seq<real>): (r: seq<real>)
    requires |y| == |yHat|
    ensures |r| == |y| && forall i :: 0 <= i < |y| ==> r[i] == Square(y[i] - yHat[i])
  {
    seq(|y|, i requires 0 <= i < |y| => Square(y[i] - yHat[i]))
  }

  /** A sum of non-negative terms is zero exactly when every term is. */
  lemma {:induction false} SumZeroIff(s: seq<real>)
    requires forall i :: 0 <= i < |s| ==> s[i] >= 0.0
    ensures Sum(s) == 0.0 <==> forall i :: 0 <= i < |s| ==> s[i] == 0.0
    decreases |s|
  {
    if |s| > 0 {
      var init := s[..|s| - 1];
      SumZeroIff(init);
      SumNonNegative(init);
    }
  }

  /** `calculateMSELoss`: the mean over test observations of the squared
      difference between the response and the posterior mean prediction. It
      is non-negative, zero exactly when every squared residual is, and zero
      when every prediction is right. */
  function MseLoss(yTest: seq<real>, testSamples: seq<real>, numTest: nat, numSamples: nat): (r: real)
    requires |yTest| == numTest && numTest > 0 && numSamples > 0 && |testSamples| == numTest * numSamples
    ensures r >= 0.0
    ensures IsMean(r, Sum(SquaredResiduals(yTest, PosteriorMeans(testSamples, numTest, numSamples))), numTest)
    ensures r == 0.0 <==> forall i :: 0 <= i < numTest ==>
      SquaredResiduals(yTest, PosteriorMeans(testSamples, numTest, numSamples))[i] == 0.0
    ensures yTest == PosteriorMeans(testSamples, numTest, numSamples) ==> r == 0.0
  {
    MeanSquare(yTest, PosteriorMeans(testSamples, numTest, numSamples))
  }

  /** The mean of the squared residuals is non-negative, zero exactly when
      every squared residual is, and zero for perfect predictions. */
  function MeanSquare(y: seq<real>, yHat: seq<real>): (r: real)
    requires |y| == |yHat| && |y| > 0
    ensures r >= 0.0
    ensures IsMean(r, Sum(SquaredResiduals(y, yHat)), |y|)
    ensures r == 0.0 <==> forall i :: 0 <= i < |y| ==> SquaredResiduals(y, yHat)[i] == 0.0
    ensures y == yHat ==> r == 0.0
  {
    ResidualSumZeroIff(y, yHat);
    Average(Sum(SquaredResiduals(y, yHat)), |y|)
  }

  /** The sum of squared residuals is non-negative, zero exactly when every
      squared residual is, and zero when the predictions equal the responses. */
  lemma ResidualSumZeroIff(y: seq<real>, yHat: seq<real>)
    requires |y| == |yHat|
    ensures Sum(SquaredResiduals(y, yHat)) >= 0.0
    ensures Sum(SquaredResiduals(y, yHat)) == 0.0 <==> forall i :: 0 <= i < |y| ==> SquaredResiduals(y, yHat)[i] == 0.0
    ensures y == yHat ==> Sum(SquaredResiduals(y, yHat)) == 0.0
  {
    var residuals := SquaredResiduals(y, yHat);
    SumNonNegative(residuals);
    SumZeroIff(residuals);
  }

  /** `r` is `total` spread evenly over `n` items. */
  predicate IsMean(r: real, total: real, n: nat)
  {
    r * n as real == total
  }

  /** A non-negative total spread over `n` items. */
  function Average(total: real, n: nat): (r: real)
    requires total >= 0.0 && n > 0
    ensures r >= 0.0 && r * n as real == total
    ensures r == 0.0 <==> total == 0.0
  {
    total / n as real
  }

  /** The misclassification tally: false positives and false negatives. */
  datatype Tally = Tally(falsePositives: nat, falseNegatives: nat)

  /** Compares responses with 0/1 predictions in order: a wrong prediction of
      a response equal to 1 is a false negative, any other wrong prediction a
      false positive. */
  function Misclassified(y: seq<real>, yHat: seq<real>): (t: Tally)
    requires |y| == |yHat|
    ensures t.falsePositives + t.falseNegatives == |set i | 0 <= i < |y| && y[i] != yHat[i]|
    ensures t.falseNegatives == |set i | 0 <= i < |y| && y[i] != yHat[i] && y[i] == 1.0|
    ensures t.falsePositives + t.falseNegatives <= |y|
    ensures t.falsePositives + t.falseNegatives == 0 <==> y == yHat
    ensures t.falsePositives + t.falseNegatives == |y| <==> forall i :: 0 <= i < |y| ==> y[i] != yHat[i]
    ensures (forall i :: 0 <= i < |y| ==> y[i] != 1.0) ==> t.falseNegatives == 0
    decreases |y|
  {
    if |y| == 0 then Tally(0, 0)
    else
      var last := |y| - 1;
      var rest := Misclassified(y[..last], yHat[..last]);
      MismatchesStep(y, yHat);
      assert y == y[..last] + [y[last]] && yHat == yHat[..last] + [yHat[last]];
      if y[last] == yHat[last] then rest
      else if y[last] == 1.0 then rest.(falseNegatives := rest.falseNegatives + 1)
      else rest.(falsePositives := rest.falsePositives + 1)
  }

  /** Extending both sequences by one entry adds that position to the
      mismatches, and to the mismatched ones, exactly when the entries differ. */
  lemma MismatchesStep(y: seq<real>, yHat: seq<real>)
    requires |y| == |yHat| > 0
    ensures var last := |y| - 1;
      |set i | 0 <= i < |y| && y[i] != yHat[i]|
      == |set i | 0 <= i < last && y[..last][i] != yHat[..last][i]| + (if y[last] != yHat[last] then 1 else 0)
    ensures var last := |y| - 1;
      |set i | 0 <= i < |y| && y[i] != yHat[i] && y[i] == 1.0|
      == |set i | 0 <= i < last && y[..last][i] != yHat[..last][i] && y[..last][i] == 1.0|
         + (if y[last] != yHat[last] && y[last] == 1.0 then 1 else 0)
  {
    var last := |y| - 1;
    var before := set i | 0 <= i < last && y[..last][i] != yHat[..last][i];
    var after := set i | 0 <= i < |y| && y[i] != yHat[i];
    assert after == before + (if y[last] != yHat[last] then {last} else {});
    var beforeOnes := set i | 0 <= i < last && y[..last][i] != yHat[..last][i] && y[..last][i] == 1.0;
    var afterOnes := set i | 0 <= i < |y| && y[i] != yHat[i] && y[i] == 1.0;
    assert afterOnes == beforeOnes + (if y[last] != yHat[last] && y[last] == 1.0 then {last} else {});
  }

  /** The predicted class of a test observation: 1 when the mean of the
      normal CDF `phi` over its draws exceeds one half, 0 otherwise. */
  function Classify(draws: seq<real>, phi: real -> real): (c: real)
    requires |draws| > 0
    ensures c == 0.0 || c == 1.0
  {
    var probabilities := seq(|draws|, j requires 0 <= j < |draws| => phi(draws[j]));
    if Mean(probabilities) > 0.5 then 1.0 else 0.0
  }

  function Classifications(testSamples: seq<real>, numTest: nat, numSamples: nat, phi: real -> real): (c: seq<real>)
    requires |testSamples| == numTest * numSamples && numSamples > 0
    ensures |c| == numTest && forall i :: 0 <= i < numTest ==> c[i] == 0.0 || c[i] == 1.0
  {
    seq(numTest, i requires 0 <= i < numTest => Classify(Draws(testSamples, numTest, numSamples, i), phi))
  }

  /** `calculateMCRLoss`: the fraction of misclassified test observations.
      It lies in [0, 1]; it is 0 exactly when every class is right and 1
      exactly when every class is wrong. */
  function McrLoss(yTest: seq<real>, testSamples: seq<real>, numTest: nat, numSamples: nat, phi: real -> real)
    : (r: real)
    requires |yTest| == numTest && numTest > 0 && numSamples > 0 && |testSamples| == numTest * numSamples
    ensures IsMean(r, |set i | 0 <= i < numTest && yTest[i] != Classifications(testSamples, numTest, numSamples, phi)[i]| as real,
                   numTest)
    ensures 0.0 <= r <= 1.0
    ensures r == 0.0 <==> yTest == Classifications(testSamples, numTest, numSamples, phi)
    ensures r == 1.0 <==> forall i :: 0 <= i < numTest ==> yTest[i] != Classifications(testSamples, numTest, numSamples, phi)[i]
  {
    var classes := Classifications(testSamples, numTest, numSamples, phi);
    var t := Misclassified(yTest, classes);
    var count := t.falsePositives + t.falseNegatives;
    FractionBounds(count, numTest);
    count as real / numTest as real
  }

  lemma FractionBounds(count: nat, n: nat)
    requires 0 < n && count <= n
    ensures IsMean(count as real / n as real, count as real, n)
    ensures 0.0 <= count as real / n as real <= 1.0
    ensures count as real / n as real == 0.0 <==> count == 0
    ensures count as real / n as real == 1.0 <==> count == n
  {
  }

  /** A response that is not 0 or 1 is always misclassified. */
  lemma NonBinaryResponseMisclassified(yTest: seq<real>, testSamples: seq<real>, numTest: nat, numSamples: nat,
                                       phi: real -> real)
    requires |yTest| == numTest && numTest > 0 && numSamples > 0 && |testSamples| == numTest * numSamples
    requires forall i :: 0 <= i < numTest ==> yTest[i] != 0.0 && yTest[i] != 1.0
    ensures McrLoss(yTest, testSamples, numTest, numSamples, phi) == 1.0
  {
    var c := Classifications(testSamples, numTest, numSamples, phi);
    assert forall i :: 0 <= i < numTest ==> yTest[i] != c[i];
  }

  // ----------------------------------------------------------- loss choice

  /** The loss argument, by its R type: a character vector of names, a
      generic vector made by `list(...)`, a pairlist (`NULL` is the empty
      one), or anything else. The list elements of interest are a closure and
      its environment. */
  datatype LossArgument =
    | Names(names: seq<string>)
    | List(elements: seq<RValue>)
    | PairList(elements: seq<RValue>)
    | Other
  datatype RValue = Closure | Environment | OtherValue

  datatype LossKind = MeanSquaredError | MisclassificationRate | Custom

  /** What `xbart` needs of a loss: which one it is and how many numbers it
      reports per fit. */
  datatype LossDefinition = LossDefinition(kind: LossKind, numResults: nat)

  const LOSS_TYPE_ERROR := "lossType must be a character string or list(closure, env)"
  const FUNCTION_LENGTH_ERROR := "length of lossType for functions must be 2"
  /** R's own error for `VECTOR_ELT` applied to a pairlist. */
  const PAIRLIST_ELEMENT_ERROR := "VECTOR_ELT() can only be applied to a 'list', not a 'pairlist'"

  /** `createLossFunctorDefinition` as written (R_interface_crossvalidate.cpp:290-368).
      The custom branch is guarded by `Rf_isList`, which in R's C interface
      holds only for `NULL` and pairlists, and then reads the elements with
      `VECTOR_ELT`, which R refuses on a pairlist. A `list(closure, env)` is a
      generic vector and falls through to the final error, so only a name
      can succeed. */
  function CreateLossDefinitionAsWritten(loss: LossArgument, trialLength: nat): (r: Result<LossDefinition>)
    ensures r.Success? ==> loss.Names?
    ensures loss.Names? ==> r == NamedLoss(loss.names)
    ensures loss.List? || loss.Other? ==> r == Failure(LOSS_TYPE_ERROR)
    ensures loss.PairList? ==>
      r == Failure(if |loss.elements| != 2 then FUNCTION_LENGTH_ERROR else PAIRLIST_ELEMENT_ERROR)
  {
    match loss
    case Names(names) => NamedLoss(names)
    case PairList(elements) =>
      if |elements| != 2 then Failure(FUNCTION_LENGTH_ERROR) else Failure(PAIRLIST_ELEMENT_ERROR)
    case List(_) => Failure(LOSS_TYPE_ERROR)
    case Other => Failure(LOSS_TYPE_ERROR)
  }

  /** `createLossFunctorDefinition` as evidently intended: the custom branch
      accepts the generic vector `list(closure, env)` its error message names.
      The names "mse" and "mcr" select a built-in loss with one result; a
      custom loss reports as many results as the closure returned on a trial
      call with zero inputs (`trialLength`, computed by R). */
  function CreateLossDefinition(loss: LossArgument, trialLength: nat): (r: Result<LossDefinition>)
    ensures loss.Names? ==>
      (r.Success? <==> |loss.names| == 1 && loss.names[0] in {"mse", "mcr"})
    ensures loss.Names? && r.Success? ==>
      r.value.numResults == 1 &&
      (r.value.kind == MeanSquaredError <==> loss.names[0] == "mse") &&
      (r.value.kind == MisclassificationRate <==> loss.names[0] == "mcr")
    ensures loss.List? ==>
      (r.Success? <==> loss.elements == [Closure, Environment])
    ensures loss.List? && r.Success? ==> r.value == LossDefinition(Custom, trialLength)
    ensures loss.PairList? || loss.Other? ==> r == Failure(LOSS_TYPE_ERROR)
  {
    match loss
    case Names(names) => NamedLoss(names)
    case List(elements) => CustomLoss(elements, trialLength)
    case PairList(_) => Failure(LOSS_TYPE_ERROR)
    case Other => Failure(LOSS_TYPE_ERROR)
  }

  /** The custom loss the program's own error message asks for is refused as
      written and accepted as intended. */
  lemma CustomLossCounterexample(trialLength: nat)
    ensures CreateLossDefinitionAsWritten(List([Closure, Environment]), trialLength) == Failure(LOSS_TYPE_ERROR)
    ensures CreateLossDefinitionAsWritten(PairList([Closure, Environment]), trialLength) == Failure(PAIRLIST_ELEMENT_ERROR)
    ensures CreateLossDefinition(List([Closure, Environment]), trialLength) == Success(LossDefinition(Custom, trialLength))
  {
  }

  /** A built-in loss chosen by name. */
  function NamedLoss(names: seq<string>): (r: Result<LossDefinition>)
    ensures r.Success? <==> |names| == 1 && names[0] in {"mse", "mcr"}
    ensures r.Success? ==>
      r.value.numResults == 1 &&
      (r.value.kind == MeanSquaredError <==> names[0] == "mse") &&
      (r.value.kind == MisclassificationRate <==> names[0] == "mcr")
  {
    if |names| != 1 then Failure("length of lossType for strings must be 1") else
    if names[0] == "mse" then Success(LossDefinition(MeanSquaredError, 1))
    else if names[0] == "mcr" then Success(LossDefinition(MisclassificationRate, 1))
    else Failure("unsupported result type: '" + names[0] + "'")
  }

  /** A custom loss: a closure followed by its environment. */
  function CustomLoss(elements: seq<RValue>, trialLength: nat): (r: Result<LossDefinition>)
    ensures r.Success? <==> elements == [Closure, Environment]
    ensures r.Success? ==> r.value == LossDefinition(Custom, trialLength)
  {
    if |elements| != 2 then Failure(FUNCTION_LENGTH_ERROR) else
    :- Need(elements[0] == Closure, "first element of list for function lossType must be a closure");
    :- Need(elements[1] == Environment, "second element of list for function lossType must be a closure");
    assert elements == [Closure, Environment];
    Success(LossDefinition(Custom, trialLength))
  }
}
