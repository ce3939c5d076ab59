/** The sum-of-trees bookkeeping of the sampler (bartFit.cpp: setInitialFit,
    calculateResidualsFromOtherTreeFits, updateTotalFits, the per-tree loop of
    runSampler, updateTrainingFits, updateTestFits). Each tree keeps its own fits
    to the training data and the fit keeps their sum; every tree is fitted to
    what the other trees leave unexplained. Tree draws are random and enter as
    function parameters. */
module Ensemble {
  import opened Numeric

  /** One fit per tree, each with `n` entries. */
  predicate Shaped(fits: seq<seq<real>>, n: nat)
  {
    forall t :: 0 <= t < |fits| ==> |fits[t]| == n
  }

  /** The fits of every tree at observation `i`. */
  function Column(fits: seq<seq<real>>, i: nat): (c: seq<real>)
    requires forall t :: 0 <= t < |fits| ==> i < |fits[t]|
    ensures |c| == |fits|
  {
    seq(|fits|, t requires 0 <= t < |fits| => fits[t][i])
  }

  /** The total fit is the sum of the trees' fits, observation by observation. */
  predicate Consistent(fits: seq<seq<real>>, total: seq<real>, n: nat)
  {
    && Shaped(fits, n)
    && |total| == n
    && forall i :: 0 <= i < n ==> total[i] == Sum(Column(fits, i))
  }

  function Zeros(n: nat): (z: seq<real>)
    ensures |z| == n && forall i :: 0 <= i < n ==> z[i] == 0.0
  {
    seq(n, _ => 0.0)
  }

  /** Tree fits and total fits as `setInitialFit` allocates them
      (bartFit.cpp:756-771): all zero. */
  datatype InitialFits = InitialFits(treeFits: seq<seq<real>>, totalFits: seq<real>, totalTestFits: seq<real>)

  function InitialFit(numTrees: nat, n: nat, numTest: nat): (r: InitialFits)
    ensures |r.treeFits| == numTrees && Shaped(r.treeFits, n)
    ensures |r.totalTestFits| == numTest
  {
    InitialFits(seq(numTrees, _ => Zeros(n)), Zeros(n), Zeros(numTest))
  }

  /** All-zero fits are consistent with an all-zero total. */
  lemma InitialFitConsistent(numTrees: nat, n: nat, numTest: nat)
    ensures var r := InitialFit(numTrees, n, numTest);
      Consistent(r.treeFits, r.totalFits, n)
  {
    var r := InitialFit(numTrees, n, numTest);
    forall i | 0 <= i < n
      ensures r.totalFits[i] == Sum(Column(r.treeFits, i))
    {
      SumOfConstant(Column(r.treeFits, i), 0.0);
    }
  }

  /** What one tree is fitted to: `y - (total - previous)` (bartFit.cpp:834-841). */
  function Residuals(y: seq<real>, total: seq<real>, previous: seq<real>): (r: seq<real>)
    requires |total| == |y| && |previous| == |y|
    ensures |r| == |y|
  {
    seq(|y|, i requires 0 <= i < |y| => y[i] - total[i] + previous[i])
  }

  /** `total += curr - previous` (bartFit.cpp:843-848). */
  function UpdateTotalFits(previous: seq<real>, curr: seq<real>, total: seq<real>): (r: seq<real>)
    requires |previous| == |total| && |curr| == |total|
    ensures |r| == |total|
  {
    seq(|total|, i requires 0 <= i < |total| => total[i] - previous[i] + curr[i])
  }

  /** When the total is consistent, tree `t`'s residual is the response minus
      the sum of every other tree's fit. */
  lemma ResidualsExcludeOwnTree(y: seq<real>, fits: seq<seq<real>>, total: seq<real>, t: nat)
    requires Consistent(fits, total, |y|) && t < |fits|
    ensures forall i :: 0 <= i < |y| ==>
      Residuals(y, total, fits[t])[i] == y[i] - Sum(Column(fits[t := Zeros(|y|)], i))
  {
    forall i | 0 <= i < |y|
      ensures Residuals(y, total, fits[t])[i] == y[i] - Sum(Column(fits[t := Zeros(|y|)], i))
    {
      assert Column(fits[t := Zeros(|y|)], i) == Column(fits, i)[t := 0.0];
      SumUpdate(Column(fits, i), t, 0.0);
    }
  }

  /** Replacing one tree's fit and updating the total keeps them consistent. */
  lemma UpdateTotalFitsKeepsConsistent(fits: seq<seq<real>>, total: seq<real>, n: nat, t: nat, curr: seq<real>)
    requires Consistent(fits, total, n) && t < |fits| && |curr| == n
    ensures Consistent(fits[t := curr], UpdateTotalFits(fits[t], curr, total), n)
  {
    var total' := UpdateTotalFits(fits[t], curr, total);
    forall i | 0 <= i < n
      ensures total'[i] == Sum(Column(fits[t := curr], i))
    {
      assert Column(fits[t := curr], i) == Column(fits, i)[t := curr[i]];
      SumUpdate(Column(fits, i), t, curr[i]);
    }
  }

  /** A tree's new fits to the training and test data, drawn given its residual. */
  datatype TreeDraw = TreeDraw(training: seq<real>, test: seq<real>)

  /** Every draw has one training fit per residual and one test fit per test
      observation. */
  ghost predicate DrawsShaped(draw: (nat, seq<real>) -> TreeDraw, numTest: nat)
  {
    forall t, r :: |draw(t, r).training| == |r| && |draw(t, r).test| == numTest
  }

  /** The tree fits and their total. */
  datatype FitState = FitState(fits: seq<seq<real>>, total: seq<real>)

  /** The state after trees `0..k-1` of a sweep have been redrawn in order: tree
      `t` is fitted to the residual the total leaves after the trees before it
      were redrawn, its old fits are taken out of the total and its draw put in
      their place (bartFit.cpp:407-430). */
  function AfterTrees(y: seq<real>, treeFits: seq<seq<real>>, totalFits: seq<real>,
                      draw: (nat, seq<real>) -> TreeDraw, numTest: nat, k: nat): (s: FitState)
    requires Consistent(treeFits, totalFits, |y|) && DrawsShaped(draw, numTest) && k <= |treeFits|
    ensures |s.fits| == |treeFits| && Consistent(s.fits, s.total, |y|)
    ensures forall u :: k <= u < |treeFits| ==> s.fits[u] == treeFits[u]
    decreases k
  {
    if k == 0 then FitState(treeFits, totalFits)
    else
      var before := AfterTrees(y, treeFits, totalFits, draw, numTest, k - 1);
      var d := draw(k - 1, Residuals(y, before.total, before.fits[k - 1]));
      UpdateTotalFitsKeepsConsistent(before.fits, before.total, |y|, k - 1, d.training);
      FitState(before.fits[k - 1 := d.training], UpdateTotalFits(before.fits[k - 1], d.training, before.total))
  }

  /** The residual tree `t` is fitted to within a sweep: the response minus the
      fits of every other tree, where the trees before `t` already hold their
      new draws and the trees after it still hold their old fits. */
  function TreeResidual(y: seq<real>, treeFits: seq<seq<real>>, totalFits: seq<real>,
                        draw: (nat, seq<real>) -> TreeDraw, numTest: nat, t: nat): (r: seq<real>)
    requires Consistent(treeFits, totalFits, |y|) && DrawsShaped(draw, numTest) && t < |treeFits|
    ensures |r| == |y|
    ensures var s := AfterTrees(y, treeFits, totalFits, draw, numTest, t);
      forall i :: 0 <= i < |y| ==> r[i] == y[i] - Sum(Column(s.fits[t := Zeros(|y|)], i))
  {
    var s := AfterTrees(y, treeFits, totalFits, draw, numTest, t);
    ResidualsExcludeOwnTree(y, s.fits, s.total, t);
    Residuals(y, s.total, s.fits[t])
  }

  /** Redrawing tree `k` takes the state after trees `0..k-1` to the state after
      trees `0..k`. */
  lemma AfterTreesStep(y: seq<real>, treeFits: seq<seq<real>>, totalFits: seq<real>,
                       draw: (nat, seq<real>) -> TreeDraw, numTest: nat, k: nat)
    requires Consistent(treeFits, totalFits, |y|) && DrawsShaped(draw, numTest) && k < |treeFits|
    ensures var before := AfterTrees(y, treeFits, totalFits, draw, numTest, k);
      var d := draw(k, TreeResidual(y, treeFits, totalFits, draw, numTest, k));
      |d.training| == |y| && |d.test| == numTest &&
      AfterTrees(y, treeFits, totalFits, draw, numTest, k + 1)
      == FitState(before.fits[k := d.training], UpdateTotalFits(before.fits[k], d.training, before.total))
  {
  }

  /** After trees `0..k-1` are redrawn, each of them holds the training fits of
      its own draw on its residual, and every later tree its old fits. */
  lemma {:induction false} AfterTreesHoldsDraws(y: seq<real>, treeFits: seq<seq<real>>, totalFits: seq<real>,
                                                draw: (nat, seq<real>) -> TreeDraw, numTest: nat, k: nat)
    requires Consistent(treeFits, totalFits, |y|) && DrawsShaped(draw, numTest) && k <= |treeFits|
    ensures var s := AfterTrees(y, treeFits, totalFits, draw, numTest, k);
      forall t :: 0 <= t < k ==>
        s.fits[t] == draw(t, TreeResidual(y, treeFits, totalFits, draw, numTest, t)).training
    decreases k
  {
    if k > 0 {
      AfterTreesHoldsDraws(y, treeFits, totalFits, draw, numTest, k - 1);
      var before := AfterTrees(y, treeFits, totalFits, draw, numTest, k - 1);
      var s := AfterTrees(y, treeFits, totalFits, draw, numTest, k);
      assert s.fits == before.fits[k - 1 := draw(k - 1, TreeResidual(y, treeFits, totalFits, draw, numTest, k - 1)).training];
    }
  }

  /** Tree fits holding every tree's draw, with a total consistent with them,
      are exactly the reference state after all trees: the fits and their sum
      pin the state down. */
  lemma SweepStateDetermined(y: seq<real>, treeFits: seq<seq<real>>, totalFits: seq<real>,
                             draw: (nat, seq<real>) -> TreeDraw, numTest: nat,
                             fits: seq<seq<real>>, total: seq<real>)
    requires Consistent(treeFits, totalFits, |y|) && DrawsShaped(draw, numTest)
    requires |fits| == |treeFits| && Consistent(fits, total, |y|)
    requires forall t :: 0 <= t < |treeFits| ==>
      fits[t] == draw(t, TreeResidual(y, treeFits, totalFits, draw, numTest, t)).training
    ensures FitState(fits, total) == AfterTrees(y, treeFits, totalFits, draw, numTest, |treeFits|)
  {
    var s := AfterTrees(y, treeFits, totalFits, draw, numTest, |treeFits|);
    AfterTreesHoldsDraws(y, treeFits, totalFits, draw, numTest, |treeFits|);
    assert fits == s.fits;
    assert total == s.total;
  }

  /** One sweep over the trees (bartFit.cpp:404-431): each tree in turn is
      fitted to its residual, the total is updated and the tree's fits are
      replaced by its draw. On a retained iteration the test totals are reset
      and accumulated from the trees' test fits; otherwise they are left
      alone. */
  method Sweep(y: seq<real>, treeFits: seq<seq<real>>, totalFits: seq<real>,
               totalTestFits: seq<real>, retained: bool, draw: (nat, seq<real>) -> TreeDraw)
    returns (fits: seq<seq<real>>, total: seq<real>, testFits: seq<seq<real>>, testTotal: seq<real>)
    requires Consistent(treeFits, totalFits, |y|)
    requires DrawsShaped(draw, |totalTestFits|)
    ensures |fits| == |treeFits| && Consistent(fits, total, |y|)
    ensures forall t :: 0 <= t < |treeFits| ==>
      fits[t] == draw(t, TreeResidual(y, treeFits, totalFits, draw, |totalTestFits|, t)).training
    ensures |testFits| == |treeFits|
    ensures forall t :: 0 <= t < |treeFits| ==>
      testFits[t] == draw(t, TreeResidual(y, treeFits, totalFits, draw, |totalTestFits|, t)).test
    ensures retained ==> Consistent(testFits, testTotal, |totalTestFits|)
    ensures !retained ==> testTotal == totalTestFits
  {
    fits := treeFits;
    total := totalFits;
    testFits := [];
    testTotal := if retained then Zeros(|totalTestFits|) else totalTestFits;
    for t := 0 to |treeFits|
      invariant FitState(fits, total) == AfterTrees(y, treeFits, totalFits, draw, |totalTestFits|, t)
      invariant |testFits| == t && Shaped(testFits, |totalTestFits|)
      invariant forall s :: 0 <= s < t ==>
        testFits[s] == draw(s, TreeResidual(y, treeFits, totalFits, draw, |totalTestFits|, s)).test
      invariant retained ==> Consistent(testFits, testTotal, |totalTestFits|)
      invariant !retained ==> testTotal == totalTestFits
    {
      AfterTreesStep(y, treeFits, totalFits, draw, |totalTestFits|, t);
      var residuals := Residuals(y, total, fits[t]);
      var d := draw(t, residuals);
      total := UpdateTotalFits(fits[t], d.training, total);
      fits := fits[t := d.training];
      if retained {
        AppendTreeKeepsConsistent(testFits, testTotal, d.test);
        testTotal := Add(testTotal, d.test);
      }
      testFits := testFits + [d.test];
    }
    AfterTreesHoldsDraws(y, treeFits, totalFits, draw, |totalTestFits|, |treeFits|);
  }

  /** Element-wise sum of two vectors. */
  function Add(a: seq<real>, b: seq<real>): (r: seq<real>)
    requires |a| == |b|
    ensures |r| == |a|
  {
    seq(|a|, i requires 0 <= i < |a| => a[i] + b[i])
  }

  /** Adding one more tree's fits to a consistent total keeps it consistent. */
  lemma AppendTreeKeepsConsistent(fits: seq<seq<real>>, total: seq<real>, next: seq<real>)
    requires Consistent(fits, total, |total|) && |next| == |total|
    ensures Consistent(fits + [next], Add(total, next), |total|)
  {
    forall i | 0 <= i < |total|
      ensures Add(total, next)[i] == Sum(Column(fits + [next], i))
    {
      assert Column(fits + [next], i) == Column(fits, i) + [next[i]];
      SumConcat(Column(fits, i), [next[i]]);
      assert Sum([next[i]]) == next[i] by {
        assert [next[i]][..0] == [];
      }
    }
  }

  /** `updateTrainingFits` (bartFit.cpp:927-945): for each tree, its previous fits
      are taken out of the total, replaced by the fits of its current leaves,
      and added back in. */
  method UpdateTrainingFits(treeFits: seq<seq<real>>, totalFits: seq<real>, n: nat, newFits: seq<seq<real>>)
    returns (fits: seq<seq<real>>, total: seq<real>)
    requires Consistent(treeFits, totalFits, n)
    requires |newFits| == |treeFits| && Shaped(newFits, n)
    ensures fits == newFits && Consistent(fits, total, n)
  {
    fits := treeFits;
    total := totalFits;
    for t := 0 to |treeFits|
      invariant |fits| == |treeFits| && Consistent(fits, total, n)
      invariant forall s :: 0 <= s < t ==> fits[s] == newFits[s]
      invariant forall s :: t <= s < |fits| ==> fits[s] == treeFits[s]
    {
      var without := seq(n, i requires 0 <= i < n => total[i] - fits[t][i]);
      var curr := newFits[t];
      UpdateTotalFitsKeepsConsistent(fits, total, n, t, curr);
      assert UpdateTotalFits(fits[t], curr, total) == seq(n, i requires 0 <= i < n => without[i] + curr[i]);
      total := seq(n, i requires 0 <= i < n => without[i] + curr[i]);
      fits := fits[t := curr];
    }
    assert forall s :: 0 <= s < |fits| ==> fits[s] == newFits[s];
  }

  /** `updateTestFits` (bartFit.cpp:947-973): the test totals are reset and
      every tree's test fits are added in. */
  method UpdateTestFits(testFits: seq<seq<real>>, numTest: nat) returns (testTotal: seq<real>)
    requires Shaped(testFits, numTest)
    ensures Consistent(testFits, testTotal, numTest)
  {
    testTotal := Zeros(numTest);
    for t := 0 to |testFits|
      invariant Consistent(testFits[..t], testTotal, numTest)
    {
      AppendTreeKeepsConsistent(testFits[..t], testTotal, testFits[t]);
      assert testFits[..t + 1] == testFits[..t] + [testFits[t]];
      testTotal := Add(testTotal, testFits[t]);
    }
    assert testFits[..|testFits|] == testFits;
  }
}
