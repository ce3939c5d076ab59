/** The normal-mean end-node model (src/dbarts/endNodeModel.cpp:23-331): each
    bottom node keeps the (weighted) mean of the residuals routed to it and
    their effective count, merges its children's statistics, and predicts one
    constant for all of its observations. The random draws are left out; the
    deterministic parts around them are modelled. */
module MeanNormal {
  import opened Wrappers
  import opened Numeric

  /** A node's scratch: the average (later the drawn mean) and the number of
      observations, or their total weight. */
  datatype Scratch = Scratch(mu: real, numEffectiveObservations: real)

  /** Which observations a node holds: the top node holds all of them, any
      other node an explicit list of indices. */
  datatype Node = Top | Inner(indices: seq<nat>)

  /** The node's observation indices, for `n` observations in all. */
  function Observations(node: Node, n: nat): (idx: seq<nat>)
    requires node.Inner? ==> IndicesBelow(node.indices, n)
    ensures IndicesBelow(idx, n)
  {
    match node
    case Top => Iota(n)
    case Inner(indices) => indices
  }

  /** Every index of an inner node addresses an observation. */
  predicate WellFormed(node: Node, n: nat)
  {
    node.Inner? ==> IndicesBelow(node.indices, n)
  }

  /** Weights are absent or one per observation. */
  predicate WeightsFit(weights: Option<seq<real>>, n: nat)
  {
    weights.Some? ==> |weights.value| == n
  }

  /** Reference definitions: the effective count of a set of observations is
      its size without weights and its total weight with them; the weighted
      sum of the responses uses the same weights. */
  function EffectiveCount(weights: Option<seq<real>>, idx: seq<nat>, n: nat): real
    requires WeightsFit(weights, n) && IndicesBelow(idx, n)
  {
    match weights
    case None => |idx| as real
    case Some(w) => Sum(Gather(w, idx))
  }

  function WeightedSum(y: seq<real>, weights: Option<seq<real>>, idx: seq<nat>): real
    requires WeightsFit(weights, |y|) && IndicesBelow(idx, |y|)
  {
    match weights
    case None => Sum(Gather(y, idx))
    case Some(w) => Sum(Times(Gather(y, idx), Gather(w, idx)))
  }

  /** The node's statistics can be formed without dividing by zero. */
  predicate Preparable(y: seq<real>, weights: Option<seq<real>>, node: Node)
  {
    WellFormed(node, |y|) && WeightsFit(weights, |y|) &&
    EffectiveCount(weights, Observations(node, |y|), |y|) > 0.0
  }

  lemma GatherAll(y: seq<real>)
    ensures Gather(y, Iota(|y|)) == y
  {
  }

  /** `s` holds the mean of observations whose effective count is `count`
      and whose weighted sum is `sum`. */
  predicate Summarizes(s: Scratch, count: real, sum: real)
  {
    s.numEffectiveObservations == count && s.mu * count == sum
  }

  /** `prepareScratchForLikelihoodAndPosteriorCalculations`: the four cases of
      top or inner node, without or with weights. Whatever the case, the count
      is the node's effective count and `mu` is the weighted mean of the
      node's responses. */
  function Prepare(y: seq<real>, weights: Option<seq<real>>, node: Node): (s: Scratch)
    requires Preparable(y, weights, node)
    ensures Summarizes(s, EffectiveCount(weights, Observations(node, |y|), |y|), WeightedSum(y, weights, Observations(node, |y|)))
  {
    match node
    case Top => PrepareTop(y, weights)
    case Inner(idx) => PrepareInner(y, weights, idx)
  }

  /** The top node averages every response, weighted or not. */
  function PrepareTop(y: seq<real>, weights: Option<seq<real>>): (s: Scratch)
    requires Preparable(y, weights, Top)
    ensures Summarizes(s, EffectiveCount(weights, Iota(|y|), |y|), WeightedSum(y, weights, Iota(|y|)))
  {
    GatherAll(y);
    match weights
    case None => MeanScratch(Sum(y), |y| as real)
    case Some(w) =>
      GatherAll(w);
      MeanScratch(Sum(Times(y, w)), Sum(w))
  }

  /** An inner node averages the responses at its indices, weighted or not. */
  function PrepareInner(y: seq<real>, weights: Option<seq<real>>, idx: seq<nat>): (s: Scratch)
    requires Preparable(y, weights, Inner(idx))
    ensures Summarizes(s, EffectiveCount(weights, idx, |y|), WeightedSum(y, weights, idx))
  {
    match weights
    case None => MeanScratch(Sum(Gather(y, idx)), |idx| as real)
    case Some(w) => MeanScratch(Sum(Times(Gather(y, idx), Gather(w, idx))), Sum(Gather(w, idx)))
  }

  /** A mean and the count it was taken over. */
  function MeanScratch(sum: real, count: real): (s: Scratch)
    requires count > 0.0
    ensures Summarizes(s, count, sum)
  {
    Scratch(sum / count, count)
  }

  /** `updateScratchWithMemberships`: only the count is recomputed, by the
      node's size without weights, the total weight at the top node, or a
      running sum of the node's weights otherwise. */
  function UpdateMemberships(n: nat, weights: Option<seq<real>>, node: Node, s: Scratch): (r: Scratch)
    requires WellFormed(node, n) && WeightsFit(weights, n)
    ensures r.mu == s.mu
    ensures r.numEffectiveObservations == EffectiveCount(weights, Observations(node, n), n)
  {
    match weights
    case None =>
      var count := if node.Top? then n else |node.indices|;
      s.(numEffectiveObservations := count as real)
    case Some(w) =>
      assert node.Top? ==> Gather(w, Iota(n)) == w;
      if node.Top? then s.(numEffectiveObservations := Sum(w))
      else s.(numEffectiveObservations := Sum(Gather(w, node.indices)))
  }

  /** The count `updateScratchWithMemberships` computes is the one a full
      preparation computes. */
  lemma MembershipsAgreeWithPrepare(y: seq<real>, weights: Option<seq<real>>, node: Node, s: Scratch)
    requires Preparable(y, weights, node)
    ensures UpdateMemberships(|y|, weights, node, s).numEffectiveObservations ==
            Prepare(y, weights, node).numEffectiveObservations
  {
  }

  /** `prepareScratchFromChildren`: counts add and the parent's mean is the
      count-weighted average of the children's means. */
  function FromChildren(left: Scratch, right: Scratch): (parent: Scratch)
    requires left.numEffectiveObservations + right.numEffectiveObservations != 0.0
    ensures Summarizes(parent, left.numEffectiveObservations + right.numEffectiveObservations,
                       left.mu * left.numEffectiveObservations + right.mu * right.numEffectiveObservations)
  {
    var total := left.numEffectiveObservations + right.numEffectiveObservations;
    var parent := Scratch(left.mu * (left.numEffectiveObservations / total) +
                          right.mu * (right.numEffectiveObservations / total), total);
    WeightedAverage(left.mu, left.numEffectiveObservations, right.mu, right.numEffectiveObservations);
    parent
  }

  lemma WeightedAverage(a: real, wa: real, b: real, wb: real)
    requires wa + wb != 0.0
    ensures (a * (wa / (wa + wb)) + b * (wb / (wa + wb))) * (wa + wb) == a * wa + b * wb
  {
    var t := wa + wb;
    assert (wa / t) * t == wa;
    assert (wb / t) * t == wb;
    calc {
      (a * (wa / t) + b * (wb / t)) * t;
      a * ((wa / t) * t) + b * ((wb / t) * t);
      a * wa + b * wb;
    }
  }

  /** Merging the statistics of two inner nodes gives the statistics of the
      node holding both index lists: the parent's mean is the mean over the
      union of its children's observations. */
  lemma FromChildrenIsUnionMean(y: seq<real>, weights: Option<seq<real>>, a: seq<nat>, b: seq<nat>)
    requires Preparable(y, weights, Inner(a)) && Preparable(y, weights, Inner(b))
    ensures Preparable(y, weights, Inner(a + b))
    ensures FromChildren(Prepare(y, weights, Inner(a)), Prepare(y, weights, Inner(b))) ==
            Prepare(y, weights, Inner(a + b))
  {
    var n := |y|;
    assert Observations(Inner(a), n) == a && Observations(Inner(b), n) == b;
    ConcatSummary(y, weights, a, b);
    assert Observations(Inner(a + b), n) == a + b;
    UnionSummary(Prepare(y, weights, Inner(a)), Prepare(y, weights, Inner(b)), Prepare(y, weights, Inner(a + b)),
                 EffectiveCount(weights, a, |y|), WeightedSum(y, weights, a),
                 EffectiveCount(weights, b, |y|), WeightedSum(y, weights, b));
  }

  /** The node holding both index lists summarizes the combined counts and
      weighted sums. */
  lemma ConcatSummary(y: seq<real>, weights: Option<seq<real>>, a: seq<nat>, b: seq<nat>)
    requires Preparable(y, weights, Inner(a)) && Preparable(y, weights, Inner(b))
    ensures Preparable(y, weights, Inner(a + b))
    ensures Summarizes(Prepare(y, weights, Inner(a + b)),
                       EffectiveCount(weights, a, |y|) + EffectiveCount(weights, b, |y|),
                       WeightedSum(y, weights, a) + WeightedSum(y, weights, b))
  {
    assert Observations(Inner(a + b), |y|) == a + b;
    EffectiveCountConcat(weights, a, b, |y|);
    WeightedSumConcat(y, weights, a, b);
  }

  /** Two summaries merge into the summary of their combined counts and sums. */
  lemma UnionSummary(left: Scratch, right: Scratch, whole: Scratch, ca: real, sa: real, cb: real, sb: real)
    requires Summarizes(left, ca, sa) && Summarizes(right, cb, sb) && Summarizes(whole, ca + cb, sa + sb)
    requires ca + cb != 0.0
    ensures FromChildren(left, right) == whole
  {
    MergeSummaries(left, right, ca, sa, cb, sb);
    SummaryDetermines(FromChildren(left, right), whole, ca + cb, sa + sb);
  }

  /** Merging two summaries sums their counts and their weighted sums. */
  lemma MergeSummaries(left: Scratch, right: Scratch, ca: real, sa: real, cb: real, sb: real)
    requires Summarizes(left, ca, sa) && Summarizes(right, cb, sb) && ca + cb != 0.0
    ensures Summarizes(FromChildren(left, right), ca + cb, sa + sb)
  {
  }

  /** A non-zero count and a sum determine the summary. */
  lemma SummaryDetermines(s1: Scratch, s2: Scratch, count: real, sum: real)
    requires Summarizes(s1, count, sum) && Summarizes(s2, count, sum) && count != 0.0
    ensures s1 == s2
  {
    MeanDetermined(s1.mu, s2.mu, count);
  }

  lemma EffectiveCountConcat(weights: Option<seq<real>>, a: seq<nat>, b: seq<nat>, n: nat)
    requires WeightsFit(weights, n) && IndicesBelow(a, n) && IndicesBelow(b, n)
    ensures IndicesBelow(a + b, n)
    ensures EffectiveCount(weights, a + b, n) == EffectiveCount(weights, a, n) + EffectiveCount(weights, b, n)
  {
    if weights.Some? {
      GatherConcat(weights.value, a, b);
      SumConcat(Gather(weights.value, a), Gather(weights.value, b));
    }
  }

  lemma WeightedSumConcat(y: seq<real>, weights: Option<seq<real>>, a: seq<nat>, b: seq<nat>)
    requires WeightsFit(weights, |y|) && IndicesBelow(a, |y|) && IndicesBelow(b, |y|)
    ensures IndicesBelow(a + b, |y|)
    ensures WeightedSum(y, weights, a + b) == WeightedSum(y, weights, a) + WeightedSum(y, weights, b)
  {
    GatherConcat(y, a, b);
    if weights.None? {
      SumConcat(Gather(y, a), Gather(y, b));
    } else {
      var w := weights.value;
      GatherConcat(w, a, b);
      TimesConcat(Gather(y, a), Gather(w, a), Gather(y, b), Gather(w, b));
      SumConcat(Times(Gather(y, a), Gather(w, a)), Times(Gather(y, b), Gather(w, b)));
    }
  }

  lemma TimesConcat(a: seq<real>, wa: seq<real>, b: seq<real>, wb: seq<real>)
    requires |a| == |wa| && |b| == |wb|
    ensures Times(a + b, wa + wb) == Times(a, wa) + Times(b, wb)
  {
    var lhs := Times(a + b, wa + wb);
    var rhs := Times(a, wa) + Times(b, wb);
    assert |lhs| == |rhs|;
    forall k | 0 <= k < |lhs|
      ensures lhs[k] == rhs[k]
    {
      if k < |a| {
        assert (a + b)[k] == a[k] && (wa + wb)[k] == wa[k];
      } else {
        assert (a + b)[k] == b[k - |a|] && (wa + wb)[k] == wb[k - |a|];
      }
    }
  }

  /** A positive count determines the mean from the sum. */
  lemma MeanDetermined(m1: real, m2: real, count: real)
    requires count != 0.0 && m1 * count == m2 * count
    ensures m1 == m2
  {
    assert (m1 - m2) * count == 0.0;
  }

  // ---------------------------------------------------------------------------
  // Saving and restoring a node's scratch

  /** `storeScratch`: both fields of node `k` are copied out. */
  function StoreScratch(nodes: seq<Scratch>, k: nat): (saved: Scratch)
    requires k < |nodes|
    ensures saved.mu == nodes[k].mu
    ensures saved.numEffectiveObservations == nodes[k].numEffectiveObservations
  {
    Scratch(nodes[k].mu, nodes[k].numEffectiveObservations)
  }

  /** `restoreScratch`: both fields of node `k` are copied back and no other
      node changes. */
  function RestoreScratch(saved: Scratch, nodes: seq<Scratch>, k: nat): (r: seq<Scratch>)
    requires k < |nodes|
    ensures |r| == |nodes| && r[k] == saved
    ensures forall j :: 0 <= j < |nodes| && j != k ==> r[j] == nodes[j]
  {
    nodes[k := Scratch(saved.mu, saved.numEffectiveObservations)]
  }

  /** Storing node `k`, changing it in any way, and restoring it gives back
      the nodes as they were. */
  lemma StoreRestoreRoundTrip(nodes: seq<Scratch>, k: nat, changed: seq<Scratch>)
    requires k < |nodes| && |changed| == |nodes|
    requires forall j :: 0 <= j < |nodes| && j != k ==> changed[j] == nodes[j]
    ensures RestoreScratch(StoreScratch(nodes, k), changed, k) == nodes
  {
  }

  // ---------------------------------------------------------------------------
  // Prior, likelihood and posterior mean

  /** `logPrior`: the log density of the node mean under its normal prior,
      up to a constant; never positive, and zero at a zero mean. */
  function LogPrior(s: Scratch, precision: real): (r: real)
    requires precision > 0.0
    ensures r <= 0.0
    ensures s.mu == 0.0 ==> r == 0.0
  {
    ScaledSquare(s.mu, precision);
    -0.5 * s.mu * s.mu * precision
  }

  lemma ScaledSquare(x: real, c: real)
    requires c > 0.0
    ensures x * x * c >= 0.0
  {
    if x > 0.0 {
      PositiveProduct(x, x);
      ScaledPositive(x, x, c);
    } else if x < 0.0 {
      PositiveProduct(-x, -x);
      assert (-x) * (-x) == x * x;
      ScaledPositive(x, x, c);
    }
  }

  /** `logIntegratedLikelihood` with the logarithm and the node's variance
      supplied by the caller. An empty node contributes nothing; otherwise,
      for a non-positive logarithm on (0, 1] and a non-negative variance, the
      value is never positive. */
  function LogIntegratedLikelihood(numObservations: nat, s: Scratch, precision: real, residualVariance: real,
                                   log: real -> real, variance: real): (r: real)
    requires precision > 0.0 && residualVariance > 0.0 && s.numEffectiveObservations >= 0.0
    ensures numObservations == 0 ==> r == 0.0
    ensures (forall x :: 0.0 < x <= 1.0 ==> log(x) <= 0.0) && variance >= 0.0 ==> r <= 0.0
  {
    if numObservations == 0 then 0.0
    else
      var dataPrecision := s.numEffectiveObservations / residualVariance;
      var ratio := precision / (precision + dataPrecision);
      var r := 0.5 * log(ratio)
        - 0.5 * (variance / residualVariance) * (numObservations - 1) as real
        - 0.5 * ((precision * s.mu) * (dataPrecision * s.mu)) / (precision + dataPrecision);
      LikelihoodTermsSigns(s.mu, precision, dataPrecision, residualVariance, variance, (numObservations - 1) as real);
      r
  }

  lemma LikelihoodTermsSigns(mu: real, precision: real, dataPrecision: real, residualVariance: real,
                             variance: real, m: real)
    requires precision > 0.0 && dataPrecision >= 0.0 && residualVariance > 0.0 && m >= 0.0
    ensures 0.0 < precision / (precision + dataPrecision) <= 1.0
    ensures ((precision * mu) * (dataPrecision * mu)) / (precision + dataPrecision) >= 0.0
    ensures variance >= 0.0 ==> (variance / residualVariance) * m >= 0.0
  {
    var t := precision + dataPrecision;
    assert precision / t * t == precision;
    assert (precision * mu) * (dataPrecision * mu) == (mu * mu) * (precision * dataPrecision);
    assert mu * mu >= 0.0;
    assert precision * dataPrecision >= 0.0;
    assert (mu * mu) * (precision * dataPrecision) >= 0.0;
  }

  /** The posterior mean `drawFromPosterior` centres its draw on: the node
      average shrunk toward zero by the prior precision. It lies between zero
      and the average, and is zero for a node with no effective observations. */
  function PosteriorMean(s: Scratch, precision: real, residualVariance: real): (r: real)
    requires precision > 0.0 && residualVariance > 0.0 && s.numEffectiveObservations >= 0.0
    ensures Abs(r) <= Abs(s.mu)
    ensures r * s.mu >= 0.0
    ensures s.numEffectiveObservations == 0.0 ==> r == 0.0
  {
    var dataPrecision := s.numEffectiveObservations / residualVariance;
    var r := dataPrecision * s.mu / (precision + dataPrecision);
    Shrinkage(s.mu, precision, dataPrecision);
    r
  }

  lemma Shrinkage(mu: real, precision: real, d: real)
    requires precision > 0.0 && d >= 0.0
    ensures var r := d * mu / (precision + d);
      Abs(r) <= Abs(mu) && r * mu >= 0.0 && (d == 0.0 ==> r == 0.0)
  {
    var t := precision + d;
    var f := d / t;
    assert 0.0 <= f <= 1.0 by {
      assert f * t == d;
    }
    assert d * mu / t == f * mu;
    if mu >= 0.0 {
      assert f * mu <= mu;
      assert f * mu >= 0.0;
    } else {
      assert f * mu >= mu;
      assert f * mu <= 0.0;
    }
    assert (f * mu) * mu == f * (mu * mu);
  }

  // ---------------------------------------------------------------------------
  // Predictions

  /** `getPrediction`: the node's mean, whatever the features. */
  function GetPrediction(s: Scratch, xt: seq<real>): real
  {
    s.mu
  }

  /** The prediction of a node does not depend on the observation's features. */
  lemma PredictionIsConstant(s: Scratch, x1: seq<real>, x2: seq<real>)
    ensures GetPrediction(s, x1) == GetPrediction(s, x2)
  {
  }

  /** Whether observation `i` belongs to the node. */
  predicate InNode(node: Node, n: nat, i: nat)
  {
    if node.Top? then i < n else i in node.indices
  }

  lemma ObservationsAreMembers(node: Node, n: nat)
    requires WellFormed(node, n)
    ensures forall i: nat :: i in Observations(node, n) <==> InNode(node, n, i)
  {
    forall i: nat | InNode(node, n, i) && node.Top?
      ensures i in Observations(node, n)
    {
      assert Observations(node, n)[i] == i;
    }
  }

  /** `getPredictions`: `mu` is written at the node's observations (the first
      `n` entries for the top node) and every other entry is left as it was. */
  method GetPredictions(yHat: seq<real>, node: Node, n: nat, mu: real) returns (r: seq<real>)
    requires WellFormed(node, n) && n <= |yHat|
    ensures |r| == |yHat|
    ensures forall i :: 0 <= i < |yHat| ==> r[i] == if InNode(node, n, i) then mu else yHat[i]
  {
    var idx := Observations(node, n);
    r := Scatter(yHat, idx, seq(|idx|, _ => mu), seq(|yHat|, _ => mu));
    ObservationsAreMembers(node, n);
  }
}
