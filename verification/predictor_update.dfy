/** Replacing columns of the training predictors in a running fit
    (src/dbarts/bartFit.cpp:172-244). The new columns and their cut points
    are installed, every tree recomputes its memberships, and if any tree
    becomes invalid the old columns and cut points are put back and the trees
    touched so far recompute again. An error while computing the cut points
    is not rolled back.

    Trees are abstract: a tree's structure is a type parameter, and the
    membership computation is recorded as the predictors and grid it last saw.
    Validity and the fits of a tree are parameters. */
module PredictorUpdate {
  import opened Wrappers
  import opened Matrix
  import Numeric
  import opened CutPoints
  import Ensemble

  /** How the cut grid is built: per-column cut limits (possibly missing) and
      the quantile/uniform switch. */
  datatype CutSettings = CutSettings(maxNumCuts: Option<seq<nat>>, useQuantiles: bool)

  /** A tree with memberships last computed on `seenXt` and `seenGrid`. */
  datatype TreeState<T> = TreeState(structure: T, seenXt: seq<real>, seenGrid: seq<Binding>)

  /** The part of a fit a predictor update reads and writes. */
  datatype Fit<T> = Fit(
    n: nat, p: nat,
    X: seq<real>, Xt: seq<real>,
    grid: seq<Binding>,
    trees: seq<TreeState<T>>,
    treeFits: seq<seq<real>>, totalFits: seq<real>)

  /** `updateWithNewCovariates`: the tree's memberships follow the current
      predictors and grid. */
  function Refresh<T>(s: TreeState<T>, Xt: seq<real>, grid: seq<Binding>): (r: TreeState<T>)
    ensures r.structure == s.structure && r.seenXt == Xt && r.seenGrid == grid
  {
    s.(seenXt := Xt, seenGrid := grid)
  }

  /** A fit between updates: the row-major copy is the transpose of `X`, every
      column has a grid, every tree's memberships are current, and the total
      fits are the sum of the trees' fits. */
  predicate Synced<T>(f: Fit<T>)
  {
    && |f.X| == f.n * f.p && f.Xt == ToRowMajor(f.X, f.n, f.p)
    && |f.grid| == f.p && (forall c :: 0 <= c < f.p ==> f.grid[c].Bound?)
    && (forall t :: 0 <= t < |f.trees| ==> f.trees[t].seenXt == f.Xt && f.trees[t].seenGrid == f.grid)
    && |f.treeFits| == |f.trees| && Ensemble.Consistent(f.treeFits, f.totalFits, f.n)
  }

  /** The cut settings can be applied to the fit's columns. */
  predicate Usable<T>(f: Fit<T>, cfg: CutSettings)
  {
    && f.n > 0
    && (cfg.maxNumCuts.None? ==> cfg.useQuantiles)
    && (cfg.maxNumCuts.Some? ==>
          |cfg.maxNumCuts.value| == f.p &&
          forall c :: 0 <= c < f.p ==> cfg.maxNumCuts.value[c] < UINT32_MAX)
  }

  /** The replacement columns are well formed. */
  predicate Replacements(n: nat, p: nat, columns: seq<nat>, newColumns: seq<seq<real>>)
  {
    |newColumns| == |columns| &&
    forall i :: 0 <= i < |columns| ==> columns[i] < p && |newColumns[i]| == n
  }

  /** The grid `setCutPoints` computes for the listed columns of `X` under a
      quantile stride. */
  function GridFrom<T>(f: Fit<T>, X: seq<real>, cfg: CutSettings, stride: Stride, columns: seq<nat>)
    : (r: Result<GridUpdate>)
    requires Synced(f) && Usable(f, cfg) && |X| == f.n * f.p
    requires forall i :: 0 <= i < |columns| ==> columns[i] < f.p
    ensures r.Success? ==> NextGrid(f, r.value.grid, columns)
    ensures cfg.maxNumCuts.None? ==> r.Failure?
  {
    SetCutPoints(Columns(X, f.n, f.p), cfg.maxNumCuts, cfg.useQuantiles, stride, f.grid, columns)
  }

  /** Recomputes trees in order until one is invalid. `treeNum` ends one past
      the first invalid tree, or at the number of trees. */
  method RefreshUntilInvalid<T>(trees: seq<TreeState<T>>, Xt: seq<real>, grid: seq<Binding>,
                                valid: TreeState<T> -> bool)
    returns (trees': seq<TreeState<T>>, allValid: bool, treeNum: nat)
    ensures |trees'| == |trees| && treeNum <= |trees|
    ensures forall t :: 0 <= t < treeNum ==> trees'[t] == Refresh(trees[t], Xt, grid)
    ensures forall t :: treeNum <= t < |trees| ==> trees'[t] == trees[t]
    ensures allValid <==> forall t :: 0 <= t < |trees| ==> valid(Refresh(trees[t], Xt, grid))
    ensures allValid ==> treeNum == |trees|
  {
    trees' := trees;
    allValid := true;
    treeNum := 0;
    while treeNum < |trees| && allValid
      invariant treeNum <= |trees| && |trees'| == |trees|
      invariant forall t :: 0 <= t < treeNum ==> trees'[t] == Refresh(trees[t], Xt, grid)
      invariant forall t :: treeNum <= t < |trees| ==> trees'[t] == trees[t]
      invariant allValid <==> forall t :: 0 <= t < treeNum ==> valid(Refresh(trees[t], Xt, grid))
    {
      trees' := trees'[treeNum := Refresh(trees'[treeNum], Xt, grid)];
      allValid := allValid && valid(trees'[treeNum]);
      treeNum := treeNum + 1;
    }
  }

  /** Copies each saved cut array back over the current one, as many values as
      the current count (the `memcpy` of the rollback). Rebinding never changes
      a count, so the count at each copy is the one `grid` holds. */
  method RestoreCutPoints(grid: seq<Binding>, columns: seq<nat>, saved: seq<seq<real>>)
    returns (grid': seq<Binding>)
    requires |saved| == |columns|
    requires forall i :: 0 <= i < |columns| ==>
      columns[i] < |grid| && grid[columns[i]].Bound? && |grid[columns[i]].cuts| <= |saved[i]|
    ensures grid' == Replaced(grid, columns, RestoredBindings(grid, columns, saved))
  {
    var values := RestoredBindings(grid, columns, saved);
    grid' := grid;
    for i := 0 to |columns|
      invariant grid' == Replaced(grid, columns[..i], values[..i])
    {
      ReplacedStep(grid, columns, values, i);
      grid' := grid'[columns[i] := Bound(saved[i][..|grid[columns[i]].cuts|])];
    }
    assert columns[..|columns|] == columns && values[..|columns|] == values;
  }

  function RestoredBindings(grid: seq<Binding>, columns: seq<nat>, saved: seq<seq<real>>): (b: seq<Binding>)
    requires |saved| == |columns|
    requires forall i :: 0 <= i < |columns| ==>
      columns[i] < |grid| && grid[columns[i]].Bound? && |grid[columns[i]].cuts| <= |saved[i]|
    ensures |b| == |columns|
  {
    seq(|columns|, i requires 0 <= i < |columns| => Bound(saved[i][..|grid[columns[i]].cuts|]))
  }

  /** What an update returns: the fit afterwards and whether every tree stayed
      valid (the source's boolean result). */
  datatype Outcome<T> = Outcome(fit: Fit<T>, allTreesValid: bool)

  /** `updatePredictors` as written: the cut points of the listed columns are
      recomputed, with the quantile stride as written, while `X` still holds
      the OLD columns, and only then are the new columns copied in. An error
      from `setCutPoints` propagates, and `left` is the fit as the error
      leaves it: no rollback runs, so the columns rebound before the failing
      one keep their new cuts while `X` and the trees are as before. */
  method UpdatePredictorsAsWritten<T>(f: Fit<T>, cfg: CutSettings, columns: seq<nat>, newColumns: seq<seq<real>>,
                                      valid: TreeState<T> -> bool, fitsOf: TreeState<T> -> seq<real>)
    returns (r: Result<Outcome<T>>, left: Fit<T>)
    requires Synced(f) && Usable(f, cfg) && Replacements(f.n, f.p, columns, newColumns)
    requires forall s :: |fitsOf(s)| == f.n
    ensures r.Failure? <==> GridFrom(f, f.X, cfg, AsWritten, columns).Failure?
    ensures r.Success? ==> left == r.value.fit
    ensures r.Failure? && cfg.maxNumCuts.None? ==> left == f
    ensures r.Failure? && cfg.maxNumCuts.Some? ==>
      left == f.(grid := SetCutPointsInPlace(Columns(f.X, f.n, f.p), cfg.maxNumCuts.value, cfg.useQuantiles,
                                             AsWritten, f.grid, columns))
    ensures r.Success? && !r.value.allTreesValid ==> r.value.fit == f
    ensures r.Success? && r.value.allTreesValid ==>
      Synced(r.value.fit) && r.value.fit.X == WithColumns(f.X, f.n, f.p, columns, newColumns)
    ensures r.Success? && r.value.allTreesValid ==> r.value.fit.grid == GridFrom(f, f.X, cfg, AsWritten, columns).value.grid
  {
    var update := GridFrom(f, f.X, cfg, AsWritten, columns);
    if update.Failure? {
      if cfg.maxNumCuts.None? {
        return Failure(update.error), f;
      }
      var partial := SetCutPointsInPlace(Columns(f.X, f.n, f.p), cfg.maxNumCuts.value, cfg.useQuantiles,
                                         AsWritten, f.grid, columns);
      return Failure(update.error), f.(grid := partial);
    }
    var fit, allValid := Install(f, update.value.grid, columns, newColumns, valid, fitsOf);
    r := Success(Outcome(fit, allValid));
    left := fit;
  }

  /** `updatePredictors` as evidently intended: the cut points are computed
      from the NEW columns, with the corrected quantile stride. The same
      all-or-nothing update, whose grid then describes the data installed. */
  method UpdatePredictors<T>(f: Fit<T>, cfg: CutSettings, columns: seq<nat>, newColumns: seq<seq<real>>,
                             valid: TreeState<T> -> bool, fitsOf: TreeState<T> -> seq<real>)
    returns (r: Result<Outcome<T>>)
    requires Synced(f) && Usable(f, cfg) && Replacements(f.n, f.p, columns, newColumns)
    requires forall s :: |fitsOf(s)| == f.n
    ensures var X' := WithColumns(f.X, f.n, f.p, columns, newColumns);
      r.Failure? <==> GridFrom(f, X', cfg, Corrected, columns).Failure?
    ensures cfg.maxNumCuts.None? ==> r.Failure?
    ensures r.Success? && !r.value.allTreesValid ==> r.value.fit == f
    ensures r.Success? && r.value.allTreesValid ==> Synced(r.value.fit)
    ensures r.Success? ==> var X' := WithColumns(f.X, f.n, f.p, columns, newColumns);
      (r.value.allTreesValid <==> forall t :: 0 <= t < |f.trees| ==>
         valid(Refresh(f.trees[t], ToRowMajor(X', f.n, f.p), GridFrom(f, X', cfg, Corrected, columns).value.grid)))
    ensures r.Success? && r.value.allTreesValid ==> var X' := WithColumns(f.X, f.n, f.p, columns, newColumns);
      r.value.fit.X == X' && r.value.fit.grid == GridFrom(f, X', cfg, Corrected, columns).value.grid
    ensures r.Success? && r.value.allTreesValid ==>
      |r.value.fit.trees| == |f.trees| &&
      forall t :: 0 <= t < |f.trees| ==>
        r.value.fit.trees[t].structure == f.trees[t].structure && r.value.fit.treeFits[t] == fitsOf(r.value.fit.trees[t])
  {
    var X' := WithColumns(f.X, f.n, f.p, columns, newColumns);
    var update := GridFrom(f, X', cfg, Corrected, columns);
    if update.Failure? {
      return Failure(update.error);
    }
    var fit, allValid := Install(f, update.value.grid, columns, newColumns, valid, fitsOf);
    r := Success(Outcome(fit, allValid));
  }

  /** Installs `newGrid` and the new columns, then checks the trees; rolls back
      if any is invalid, otherwise recomputes the training fits. */
  method Install<T>(f: Fit<T>, newGrid: seq<Binding>, columns: seq<nat>, newColumns: seq<seq<real>>,
                    valid: TreeState<T> -> bool, fitsOf: TreeState<T> -> seq<real>)
    returns (r: Fit<T>, allValid: bool)
    requires Synced(f) && Replacements(f.n, f.p, columns, newColumns)
    requires NextGrid(f, newGrid, columns)
    requires forall s :: |fitsOf(s)| == f.n
    ensures !allValid ==> r == f
    ensures allValid ==> Synced(r) && r.grid == newGrid && r.n == f.n && r.p == f.p
    ensures allValid ==> r.X == WithColumns(f.X, f.n, f.p, columns, newColumns)
    ensures allValid ==> |r.trees| == |f.trees|
    ensures allValid ==> forall t :: 0 <= t < |r.trees| ==>
      r.trees[t].structure == f.trees[t].structure && r.treeFits[t] == fitsOf(r.trees[t])
    ensures allValid <==> forall t :: 0 <= t < |f.trees| ==>
      valid(Refresh(f.trees[t], ToRowMajor(WithColumns(f.X, f.n, f.p, columns, newColumns), f.n, f.p), newGrid))
  {
    var n, p := f.n, f.p;
    // store current
    var savedColumns := seq(|columns|, i requires 0 <= i < |columns| => Columns(f.X, n, p)[columns[i]]);
    var savedCuts := seq(|columns|, i requires 0 <= i < |columns| => f.grid[columns[i]].cuts);

    // install new
    var X, Xt := WriteColumns(f.X, f.Xt, n, p, columns, newColumns);
    var trees, treeNum;
    trees, allValid, treeNum := RefreshUntilInvalid(f.trees, Xt, newGrid, valid);

    if !allValid {
      r := Rollback(f, X, Xt, newGrid, trees, treeNum, columns, newColumns, savedColumns, savedCuts);
    } else {
      var newFits := seq(|trees|, t requires 0 <= t < |trees| => fitsOf(trees[t]));
      var fits, total := Ensemble.UpdateTrainingFits(f.treeFits, f.totalFits, n, newFits);
      r := Fit(n, p, X, Xt, newGrid, trees, fits, total);
    }
  }

  /** The grid `setCutPoints` leaves: same columns, all bound, counts kept, and
      unlisted columns untouched. */
  predicate NextGrid<T>(f: Fit<T>, newGrid: seq<Binding>, columns: seq<nat>)
  {
    && |newGrid| == |f.grid| == f.p
    && (forall c :: 0 <= c < f.p ==> newGrid[c].Bound? && f.grid[c].Bound? && |newGrid[c].cuts| == |f.grid[c].cuts|)
    && (forall c :: 0 <= c < f.p && c !in columns ==> newGrid[c] == f.grid[c])
  }

  /** The rollback: old columns and cut arrays copied back, then every tree the
      check touched, the failing one included, recomputed on them. */
  method Rollback<T>(f: Fit<T>, X: seq<real>, Xt: seq<real>, newGrid: seq<Binding>,
                     trees: seq<TreeState<T>>, treeNum: nat,
                     columns: seq<nat>, newColumns: seq<seq<real>>,
                     savedColumns: seq<seq<real>>, savedCuts: seq<seq<real>>)
    returns (r: Fit<T>)
    requires Synced(f) && Replacements(f.n, f.p, columns, newColumns) && NextGrid(f, newGrid, columns)
    requires X == WithColumns(f.X, f.n, f.p, columns, newColumns) && Xt == ToRowMajor(X, f.n, f.p)
    requires |savedColumns| == |savedCuts| == |columns|
    requires forall i :: 0 <= i < |columns| ==>
      savedColumns[i] == Columns(f.X, f.n, f.p)[columns[i]] && savedCuts[i] == f.grid[columns[i]].cuts
    requires |trees| == |f.trees| && treeNum <= |trees|
    requires forall t :: 0 <= t < treeNum ==> trees[t] == Refresh(f.trees[t], Xt, newGrid)
    requires forall t :: treeNum <= t < |trees| ==> trees[t] == f.trees[t]
    ensures r == f
  {
    var n, p := f.n, f.p;
    var oldX, oldXt := WriteColumns(X, Xt, n, p, columns, savedColumns);
    RestoredColumns(f.X, n, p, columns, newColumns, savedColumns);
    ColumnsDetermine(oldX, f.X, n, p);
    var oldGrid := RestoreCutPoints(newGrid, columns, savedCuts);
    RestoredGrid(f.grid, newGrid, columns, savedCuts);
    var restored, _, _ := RefreshUntilInvalid(trees[..treeNum], oldXt, oldGrid, _ => true);
    TreesRestored(f.trees, trees, treeNum, restored, oldXt, oldGrid);
    r := Fit(n, p, oldX, oldXt, oldGrid, restored + trees[treeNum..], f.treeFits, f.totalFits);
  }

  /** Trees whose memberships followed the old data before the update see it
      again once the touched ones are recomputed on it. */
  lemma TreesRestored<T>(original: seq<TreeState<T>>, trees: seq<TreeState<T>>, treeNum: nat,
                         restored: seq<TreeState<T>>, Xt: seq<real>, grid: seq<Binding>)
    requires |trees| == |original| && treeNum <= |trees| && |restored| == treeNum
    requires forall t :: 0 <= t < |original| ==> original[t].seenXt == Xt && original[t].seenGrid == grid
    requires forall t :: 0 <= t < treeNum ==> trees[t].structure == original[t].structure
    requires forall t :: 0 <= t < treeNum ==> restored[t] == Refresh(trees[..treeNum][t], Xt, grid)
    requires forall t :: treeNum <= t < |trees| ==> trees[t] == original[t]
    ensures restored + trees[treeNum..] == original
  {
  }

  /** Writing the saved columns back restores the original columns. */
  lemma RestoredColumns(original: seq<real>, n: nat, p: nat, columns: seq<nat>,
                        newColumns: seq<seq<real>>, saved: seq<seq<real>>)
    requires |original| == n * p && Replacements(n, p, columns, newColumns) && |saved| == |columns|
    requires forall i :: 0 <= i < |columns| ==> saved[i] == Columns(original, n, p)[columns[i]]
    ensures WithColumns(WithColumns(original, n, p, columns, newColumns), n, p, columns, saved) == original
  {
    var X := WithColumns(original, n, p, columns, newColumns);
    ReplacedEntries(Columns(original, n, p), columns, newColumns);
    ReplacedEntries(Columns(X, n, p), columns, saved);
    var back := WithColumns(X, n, p, columns, saved);
    assert Columns(back, n, p) == Columns(original, n, p) by {
      forall j | 0 <= j < p
        ensures Columns(back, n, p)[j] == Columns(original, n, p)[j]
      {
        if j in columns {
          assert columns[LastIndexOf(columns, j)] == j;
        }
      }
    }
    ColumnsDetermine(back, original, n, p);
  }

  /** Copying the saved cut arrays back, at the unchanged counts, restores the
      original grid. */
  lemma RestoredGrid(original: seq<Binding>, current: seq<Binding>, columns: seq<nat>, saved: seq<seq<real>>)
    requires |current| == |original| && |saved| == |columns|
    requires forall c :: 0 <= c < |original| ==> original[c].Bound? && current[c].Bound?
    requires forall c :: 0 <= c < |original| ==> |current[c].cuts| == |original[c].cuts|
    requires forall i :: 0 <= i < |columns| ==> columns[i] < |original| && saved[i] == original[columns[i]].cuts
    requires forall c :: 0 <= c < |original| && c !in columns ==> current[c] == original[c]
    ensures Replaced(current, columns, RestoredBindings(current, columns, saved)) == original
  {
    var values := RestoredBindings(current, columns, saved);
    ReplacedEntries(current, columns, values);
    forall c | 0 <= c < |original| && c in columns
      ensures values[LastIndexOf(columns, c)] == original[c]
    {
      var k := LastIndexOf(columns, c);
      assert saved[k][..|current[c].cuts|] == original[c].cuts;
    }
  }

  // ---------------------------------------------------------------------------
  // The stale grid of the as-written update

  /** One column holding 1 and 2, gridded uniformly with one cut at 1.5, and no
      trees. */
  function SmallFit(): (f: Fit<int>)
    ensures Synced(f)
  {
    var f := Fit(2, 1, [1.0, 2.0], ToRowMajor([1.0, 2.0], 2, 1), [Bound([1.5])], [], [], [0.0, 0.0]);
    assert Ensemble.Column([], 0) == [] && Ensemble.Column([], 1) == [];
    f
  }

  /** Replacing that column by 3 and 4 leaves the as-written grid at 1.5, below
      every new value, so no rule on it separates anything; computed from the
      new column the cut is 3.5, strictly inside the new range. */
  lemma StaleGridCounterexample()
    ensures var f := SmallFit();
      var cfg := CutSettings(Some([1]), false);
      var X' := WithColumns(f.X, 2, 1, [0], [[3.0, 4.0]]);
      && X' == [3.0, 4.0]
      && GridFrom(f, f.X, cfg, AsWritten, [0]) == Success(GridUpdate([Bound([1.5])], 0))
      && GridFrom(f, X', cfg, Corrected, [0]) == Success(GridUpdate([Bound([3.5])], 0))
  {
    var f := SmallFit();
    var X' := WithColumns(f.X, 2, 1, [0], [[3.0, 4.0]]);
    assert Replaced(Columns(f.X, 2, 1), [0], [[3.0, 4.0]]) == [[3.0, 4.0]];
    NewColumnOfCounterexample(X');
    assert Columns(f.X, 2, 1) == [[1.0, 2.0]] by {
      assert Columns(f.X, 2, 1)[0] == f.X[0..2];
    }
    assert Columns(X', 2, 1) == [[3.0, 4.0]];
    UniformOneColumn(1.0, 2.0, 1.5, AsWritten);
    UniformOneColumn(3.0, 4.0, 3.5, Corrected);
  }

  /** The corrected update gives every listed column whose new values are
      not all equal a strictly increasing grid strictly inside the range of
      those values, in quantile and in uniform mode. */
  lemma CorrectedCutsInsideNewColumns<T>(f: Fit<T>, cfg: CutSettings, columns: seq<nat>, newColumns: seq<seq<real>>,
                                         k: nat)
    requires Synced(f) && Usable(f, cfg) && Replacements(f.n, f.p, columns, newColumns)
    requires k < |columns|
    requires GridFrom(f, WithColumns(f.X, f.n, f.p, columns, newColumns), cfg, Corrected, columns).Success?
    requires var column := newColumns[LastIndexOf(columns, columns[k])];
      Numeric.Min(column) < Numeric.Max(column)
    ensures var X' := WithColumns(f.X, f.n, f.p, columns, newColumns);
      var column := newColumns[LastIndexOf(columns, columns[k])];
      var cuts := GridFrom(f, X', cfg, Corrected, columns).value.grid[columns[k]].cuts;
      && Numeric.StrictlyIncreasing(cuts)
      && forall i :: 0 <= i < |cuts| ==> Numeric.Min(column) < cuts[i] < Numeric.Max(column)
  {
    var X' := WithColumns(f.X, f.n, f.p, columns, newColumns);
    var c := columns[k];
    ReplacedEntries(Columns(f.X, f.n, f.p), columns, newColumns);
    var column := Columns(X', f.n, f.p)[c];
    assert column == newColumns[LastIndexOf(columns, c)];
    var limits := cfg.maxNumCuts.value;
    var rebound := RebindColumn(column, limits[c], cfg.useQuantiles, Corrected, f.grid[c]);
    assert GridFrom(f, X', cfg, Corrected, columns).value.grid[c] == Bound(rebound.value.cuts);
    if cfg.useQuantiles {
      assert rebound == RebindQuantileCorrected(column, limits[c], f.grid[c]);
      CorrectedQuantileCutsIncreasing(column, limits[c], f.grid[c]);
    } else {
      RebindColumnCuts(column, limits[c], false, Corrected, f.grid[c]);
      UniformGridIncreasing(Numeric.Min(column), Numeric.Max(column), |rebound.value.cuts|);
    }
  }

  /** Uniform rebinding of a single two-value column with one cut. */
  lemma UniformOneColumn(a: real, b: real, mid: real, stride: Stride)
    requires a < b && mid == (a + b) / 2.0
    ensures SetCutPoints([[a, b]], Some([1]), false, stride, [Bound([1.5])], [0]) == Success(GridUpdate([Bound([mid])], 0))
  {
    assert Numeric.Min([a, b]) == a by {
      assert [a, b][..1] == [a];
    }
    assert Numeric.Max([a, b]) == b by {
      assert [a, b][..1] == [a];
    }
    var cuts := RebindUniform([a, b], 1, Bound([1.5]));
    assert cuts == UniformGrid(a, b, 1);
    assert cuts == [mid];
    assert RebindColumn([a, b], 1, false, stride, Bound([1.5])) == Success(Rebound([mid], false));
    assert [Bound([1.5])][0 := Bound([mid])] == [Bound([mid])];
    assert [0][1..] == [];
  }

  lemma NewColumnOfCounterexample(X: seq<real>)
    requires |X| == 2 && Columns(X, 2, 1) == [[3.0, 4.0]]
    ensures X == [3.0, 4.0]
  {
    assert Columns(X, 2, 1)[0] == X[0..2];
  }
}
