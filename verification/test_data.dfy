/** The test-data part of a fit (src/dbarts/bartFit.cpp:250-308): the caller's
    column-major test matrix, its row-major copy, the running total of the
    trees' test fits and the test offset. Removing the test data frees both
    buffers; installing it rebuilds the copy and the totals. */
module TestData {
  import opened Wrappers
  import opened Numeric
  import opened Matrix
  import opened Routing
  import Ensemble

  datatype TestData = TestData(
    xTest: Option<seq<real>>,
    numTest: nat,
    xtTest: Option<seq<real>>,
    totalTestFits: Option<seq<real>>,
    testOffset: Option<seq<real>>)

  /** The offset argument: the source passes the fit's own address to mean
      "leave the offset as it is"; a null offset is a valid new value. */
  datatype OffsetArgument = KeepOffset | NewOffset(offset: Option<seq<real>>)

  /** The trees of the ensemble, each with one prediction per bottom node. */
  predicate Grown(trees: seq<Tree>, predictions: seq<seq<real>>, p: nat)
  {
    |predictions| == |trees| &&
    forall t :: 0 <= t < |trees| ==> VariablesBelow(trees[t], p) && |predictions[t]| == LeafCount(trees[t])
  }

  /** The test fits of every tree on a row-major test matrix. */
  function TreeTestFits(trees: seq<Tree>, predictions: seq<seq<real>>, xt: seq<real>, numTest: nat, p: nat)
    : (fits: seq<seq<real>>)
    requires Grown(trees, predictions, p) && |xt| == numTest * p
    ensures |fits| == |trees| && Ensemble.Shaped(fits, numTest)
  {
    seq(|trees|, t requires 0 <= t < |trees| => TestFits(trees[t], predictions[t], xt, numTest, p))
  }

  /** The fit's test-data invariant: there is no test data exactly when the
      count is zero, and then neither buffer exists; otherwise the row-major
      copy is the transpose of the test matrix and the totals have one entry
      per test row. */
  predicate Valid(d: TestData, p: nat)
  {
    (d.numTest == 0 <==> d.xTest.None?) &&
    (d.numTest == 0 ==> d.xtTest.None? && d.totalTestFits.None?) &&
    (d.numTest > 0 ==>
      |d.xTest.value| == d.numTest * p &&
      d.xtTest == Some(ToRowMajor(d.xTest.value, d.numTest, p)) &&
      d.totalTestFits.Some? && |d.totalTestFits.value| == d.numTest)
  }

  /** The totals are the sum of the trees' test fits on the current copy. */
  predicate TotalsCurrent(d: TestData, trees: seq<Tree>, predictions: seq<seq<real>>, p: nat)
    requires Valid(d, p) && Grown(trees, predictions, p)
  {
    d.numTest > 0 ==>
      Ensemble.Consistent(TreeTestFits(trees, predictions, d.xtTest.value, d.numTest, p),
                          d.totalTestFits.value, d.numTest)
  }

  /** Removing or installing test data. A zero count or a missing matrix
      removes everything, offset included; otherwise the matrix is installed,
      the copy rebuilt, the offset replaced unless the argument says to keep
      it, and the totals recomputed from the trees. */
  method SetTestPredictorAndOffset(d: TestData, p: nat, trees: seq<Tree>, predictions: seq<seq<real>>,
                                   xTest: Option<seq<real>>, offset: OffsetArgument, numTest: nat)
    returns (r: TestData)
    requires Grown(trees, predictions, p)
    requires xTest.Some? && numTest > 0 ==> |xTest.value| == numTest * p
    ensures Valid(r, p) && TotalsCurrent(r, trees, predictions, p)
    ensures r.numTest == 0 <==> numTest == 0 || xTest.None?
    ensures r.numTest == 0 ==> r.testOffset.None?
    ensures r.numTest > 0 ==> r.numTest == numTest && r.xTest == xTest
    ensures r.numTest > 0 ==> ToColumnMajor(r.xtTest.value, numTest, p) == xTest.value
    ensures r.numTest > 0 && offset.KeepOffset? ==> r.testOffset == d.testOffset
    ensures r.numTest > 0 && offset.NewOffset? ==> r.testOffset == offset.offset
  {
    if numTest == 0 || xTest.None? {
      r := TestData(None, 0, None, None, None);
      return;
    }
    var X := xTest.value;
    var xt := ToRowMajor(X, numTest, p);
    RowMajorRoundTrip(X, numTest, p);
    var newOffset := if offset.KeepOffset? then d.testOffset else offset.offset;
    var totals := UpdateTestFits(trees, predictions, xt, numTest, p);
    r := TestData(xTest, numTest, Some(xt), Some(totals), newOffset);
  }

  /** `setTestPredictor`: new test data, offset kept. */
  method SetTestPredictor(d: TestData, p: nat, trees: seq<Tree>, predictions: seq<seq<real>>,
                          xTest: Option<seq<real>>, numTest: nat)
    returns (r: TestData)
    requires Grown(trees, predictions, p)
    requires xTest.Some? && numTest > 0 ==> |xTest.value| == numTest * p
    ensures Valid(r, p) && TotalsCurrent(r, trees, predictions, p)
    ensures r.numTest > 0 ==> r.testOffset == d.testOffset && r.xTest == xTest
    ensures r.numTest == 0 ==> r.testOffset.None?
  {
    r := SetTestPredictorAndOffset(d, p, trees, predictions, xTest, KeepOffset, numTest);
  }

  /** `setTestOffset`: the offset is replaced and nothing else changes. */
  function SetTestOffset(d: TestData, offset: Option<seq<real>>): (r: TestData)
    ensures r.testOffset == offset
    ensures r.xTest == d.xTest && r.numTest == d.numTest && r.xtTest == d.xtTest
    ensures r.totalTestFits == d.totalTestFits
  {
    d.(testOffset := offset)
  }

  /** `updateTestFits`: the totals restart from zero and each tree's test fits
      are added in turn. */
  method UpdateTestFits(trees: seq<Tree>, predictions: seq<seq<real>>, xt: seq<real>, numTest: nat, p: nat)
    returns (totals: seq<real>)
    requires Grown(trees, predictions, p) && |xt| == numTest * p
    ensures |totals| == numTest
    ensures Ensemble.Consistent(TreeTestFits(trees, predictions, xt, numTest, p), totals, numTest)
  {
    var fits := TreeTestFits(trees, predictions, xt, numTest, p);
    totals := Ensemble.UpdateTestFits(fits, numTest);
  }

  /** `updateTestPredictors`: the listed columns of the test matrix are
      overwritten in both layouts and the totals recomputed. The result keeps
      the invariant: the row-major copy, written entry by entry, is still the
      transpose of the updated matrix. */
  method UpdateTestPredictors(d: TestData, p: nat, trees: seq<Tree>, predictions: seq<seq<real>>,
                              columns: seq<nat>, newColumns: seq<seq<real>>)
    returns (r: TestData)
    requires Valid(d, p) && d.numTest > 0 && Grown(trees, predictions, p)
    requires |newColumns| == |columns|
    requires forall i :: 0 <= i < |columns| ==> columns[i] < p && |newColumns[i]| == d.numTest
    ensures Valid(r, p) && TotalsCurrent(r, trees, predictions, p)
    ensures r.numTest == d.numTest && r.testOffset == d.testOffset
    ensures forall j :: 0 <= j < p ==>
      Columns(r.xTest.value, r.numTest, p)[j] ==
        (if j in columns then newColumns[LastIndexOf(columns, j)] else Columns(d.xTest.value, d.numTest, p)[j])
  {
    var n := d.numTest;
    var X, xt := WriteColumns(d.xTest.value, d.xtTest.value, n, p, columns, newColumns);
    ReplacedEntries(Columns(d.xTest.value, n, p), columns, newColumns);
    var totals := UpdateTestFits(trees, predictions, xt, n, p);
    r := d.(xTest := Some(X), xtTest := Some(xt), totalTestFits := Some(totals));
  }
}
