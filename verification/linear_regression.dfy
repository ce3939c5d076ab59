/** The design-matrix layout of the linear-regression end-node model
    (src/dbarts/endNodeModel.cpp:340-819). Every observation contributes one
    design column of `p + 1` entries, a leading 1.0 for the intercept followed
    by its predictors; a node's design holds its observations' columns in
    order, and a node predicts the intercept plus the dot product of the
    predictors with the remaining coefficients. The crossproduct, the Cholesky
    factor and the triangular solves are not modelled. */
module LinearRegression {
  import opened Numeric
  import opened Matrix
  import MeanNormal

  /** The node's observations, as the mean model defines them. */
  type Node = MeanNormal.Node

  /** Number of coefficients: one per predictor plus the intercept. */
  function NumParameters(p: nat): nat
  {
    p + 1
  }

  /** The design column of an observation with predictors `x`. */
  function DesignColumn(x: seq<real>): (c: seq<real>)
    ensures |c| == |x| + 1 && c[0] == 1.0 && c[1..] == x
  {
    [1.0] + x
  }

  function Dot(a: seq<real>, b: seq<real>): real
    requires |a| == |b|
  {
    Sum(Times(a, b))
  }

  /** The model's design for all `n` observations (the loop at
      endNodeModel.cpp:425-432): entry `j` of column `col` is 1.0 for `j == 0`
      and otherwise predictor `j - 1` of observation `col`, read from the
      column-major `X`. */
  function ModelXt(X: seq<real>, n: nat, p: nat): (Xt: seq<real>)
    requires |X| == n * p
    ensures |Xt| == n * NumParameters(p)
  {
    var m := NumParameters(p);
    seq(n * m, k requires 0 <= k < n * m =>
      ModelEntryBound(X, n, p, m, k);
      if k % m == 0 then 1.0 else X[k / m + (k % m - 1) * n])
  }

  lemma ModelEntryBound(X: seq<real>, n: nat, p: nat, m: nat, k: nat)
    requires |X| == n * p && m == p + 1 && k < n * m
    ensures k % m != 0 ==> 0 <= k / m + (k % m - 1) * n < |X|
  {
    var col, j := k / m, k % m;
    assert k == col * m + j;
    if col >= n {
      MulMonotone(n, col, m);
    }
    if j != 0 {
      IndexBound(j - 1, col, p, n);
      assert (j - 1) * n + col < p * n;
    }
  }

  /** `createXtForNode`: the design columns of the listed observations, each
      built from the row-major predictors. */
  function NodeXt(xt: seq<real>, n: nat, p: nat, indices: seq<nat>): (Xt: seq<real>)
    requires |xt| == n * p && IndicesBelow(indices, n)
    ensures |Xt| == |indices| * NumParameters(p)
  {
    var columns := NodeColumns(xt, n, p, indices);
    FlattenLength(columns, p + 1);
    Flatten(columns)
  }

  function NodeColumns(xt: seq<real>, n: nat, p: nat, indices: seq<nat>): (columns: seq<seq<real>>)
    requires |xt| == n * p && IndicesBelow(indices, n)
    ensures |columns| == |indices| && Uniform(columns, p + 1)
    ensures forall k :: 0 <= k < |indices| ==> columns[k] == DesignColumn(Row(xt, n, p, indices[k]))
  {
    seq(|indices|, k requires 0 <= k < |indices| => DesignColumn(Row(xt, n, p, indices[k])))
  }

  /** The copy loop of `createXtForNode`: entry 0 of column `k` is 1.0 and
      entry `j + 1` is predictor `j` of observation `indices[k]`. */
  lemma NodeXtIndex(xt: seq<real>, n: nat, p: nat, indices: seq<nat>, k: nat, j: nat)
    requires |xt| == n * p && IndicesBelow(indices, n) && k < |indices| && j < p
    ensures k * (p + 1) + j + 1 < |NodeXt(xt, n, p, indices)|
    ensures indices[k] * p + j < |xt|
    ensures NodeXt(xt, n, p, indices)[k * (p + 1) + j + 1] == xt[indices[k] * p + j]
  {
    var columns := NodeColumns(xt, n, p, indices);
    FlattenLength(columns, p + 1);
    FlattenIndex(columns, p + 1, k, j + 1);
    assert columns[k][j + 1] == Row(xt, n, p, indices[k])[j];
  }

  lemma NodeXtIntercept(xt: seq<real>, n: nat, p: nat, indices: seq<nat>, k: nat)
    requires |xt| == n * p && IndicesBelow(indices, n) && k < |indices|
    ensures k * (p + 1) < |NodeXt(xt, n, p, indices)|
    ensures NodeXt(xt, n, p, indices)[k * (p + 1)] == 1.0
  {
    var columns := NodeColumns(xt, n, p, indices);
    FlattenLength(columns, p + 1);
    FlattenIndex(columns, p + 1, k, 0);
  }

  /** The top node's design, built once from the column-major predictors, is
      the design `createXtForNode` would build from the row-major copy for
      every observation in order. */
  lemma {:induction false} TopDesignAgrees(X: seq<real>, n: nat, p: nat)
    requires |X| == n * p
    ensures NodeXt(ToRowMajor(X, n, p), n, p, Iota(n)) == ModelXt(X, n, p)
  {
    var lhs := NodeXt(ToRowMajor(X, n, p), n, p, Iota(n));
    var rhs := ModelXt(X, n, p);
    forall k | 0 <= k < n * (p + 1)
      ensures lhs[k] == rhs[k]
    {
      TopDesignAt(X, n, p, k);
    }
  }

  /** Entry `k` of the top design, from both constructions. */
  lemma TopDesignAt(X: seq<real>, n: nat, p: nat, k: nat)
    requires |X| == n * p && k < n * (p + 1)
    ensures k < |ModelXt(X, n, p)| && k < |NodeXt(ToRowMajor(X, n, p), n, p, Iota(n))|
    ensures NodeXt(ToRowMajor(X, n, p), n, p, Iota(n))[k] == ModelXt(X, n, p)[k]
  {
    Decompose(k, p + 1, n);
    var col, j := k / (p + 1), k % (p + 1);
    TopDesignEntry(X, n, p, col, j);
    assert col * (p + 1) + j == k;
  }

  /** An index below `n * m` splits into a block below `n` and an offset. */
  lemma Decompose(k: nat, m: nat, n: nat)
    requires m > 0 && k < n * m
    ensures k / m < n && k % m < m && k == k / m * m + k % m
  {
    if k / m >= n {
      MulMonotone(n, k / m, m);
    }
  }

  /** Entry `j` of observation `col`'s column, from both constructions. */
  lemma TopDesignEntry(X: seq<real>, n: nat, p: nat, col: nat, j: nat)
    requires |X| == n * p && col < n && j <= p
    ensures col * (p + 1) + j < |ModelXt(X, n, p)| && col * (p + 1) + j < |NodeXt(ToRowMajor(X, n, p), n, p, Iota(n))|
    ensures NodeXt(ToRowMajor(X, n, p), n, p, Iota(n))[col * (p + 1) + j] == ModelXt(X, n, p)[col * (p + 1) + j]
  {
    var xt := ToRowMajor(X, n, p);
    ModelXtEntry(X, n, p, col, j);
    if j == 0 {
      NodeXtIntercept(xt, n, p, Iota(n), col);
    } else {
      NodeXtIndex(xt, n, p, Iota(n), col, j - 1);
      ToRowMajorIndex(X, n, p, col, j - 1);
    }
  }

  /** Entry `j` of observation `col`'s column of the model design. */
  lemma ModelXtEntry(X: seq<real>, n: nat, p: nat, col: nat, j: nat)
    requires |X| == n * p && col < n && j <= p
    ensures col * (p + 1) + j < |ModelXt(X, n, p)|
    ensures j == 0 ==> ModelXt(X, n, p)[col * (p + 1) + j] == 1.0
    ensures j > 0 ==> (j - 1) * n + col < |X| && ModelXt(X, n, p)[col * (p + 1) + j] == X[(j - 1) * n + col]
  {
    IndexBound(col, j, n, p + 1);
    DivOfDecomposition(col, j, p + 1);
    if j > 0 {
      IndexBound(j - 1, col, p, n);
      assert col + (j - 1) * n == (j - 1) * n + col;
    }
  }

  /** The node's design and responses (the `Xt` and `y` of its scratch). */
  datatype Design = Design(xt: seq<real>, y: seq<real>)

  /** What preparing a node stores: its observations' design columns and
      responses, in observation order. */
  function NodeDesign(xt: seq<real>, n: nat, p: nat, y: seq<real>, node: Node): (d: Design)
    requires |xt| == n * p && |y| == n && MeanNormal.WellFormed(node, n)
    ensures |d.y| == |MeanNormal.Observations(node, n)|
    ensures |d.xt| == |d.y| * NumParameters(p)
  {
    var idx := MeanNormal.Observations(node, n);
    Design(NodeXt(xt, n, p, idx), Gather(y, idx))
  }

  /** `prepareScratchFromChildren`: a top parent uses the model's design and
      the full response; any other parent concatenates its children's
      designs and responses, left before right. */
  function FromChildren(parentIsTop: bool, modelXt: seq<real>, y: seq<real>, left: Design, right: Design): (d: Design)
    ensures parentIsTop ==> d == Design(modelXt, y)
    ensures !parentIsTop ==> |d.xt| == |left.xt| + |right.xt| && |d.y| == |left.y| + |right.y|
    ensures !parentIsTop ==> d.xt[..|left.xt|] == left.xt && d.xt[|left.xt|..] == right.xt
    ensures !parentIsTop ==> d.y[..|left.y|] == left.y && d.y[|left.y|..] == right.y
  {
    if parentIsTop then Design(modelXt, y)
    else Design(left.xt + right.xt, left.y + right.y)
  }

  /** Concatenating the designs of two children gives the design of the node
      holding both observation lists, so the parent is prepared exactly as if
      built from its own observations. */
  lemma ChildrenConcatenate(xt: seq<real>, n: nat, p: nat, y: seq<real>, a: seq<nat>, b: seq<nat>)
    requires |xt| == n * p && |y| == n && IndicesBelow(a, n) && IndicesBelow(b, n)
    ensures MeanNormal.WellFormed(MeanNormal.Inner(a + b), n)
    ensures FromChildren(false, [], y, NodeDesign(xt, n, p, y, MeanNormal.Inner(a)),
                         NodeDesign(xt, n, p, y, MeanNormal.Inner(b))) ==
            NodeDesign(xt, n, p, y, MeanNormal.Inner(a + b))
  {
    GatherConcat(y, a, b);
    assert NodeColumns(xt, n, p, a + b) == NodeColumns(xt, n, p, a) + NodeColumns(xt, n, p, b);
    FlattenConcat(NodeColumns(xt, n, p, a), NodeColumns(xt, n, p, b));
  }

  /** `getPrediction`: the intercept plus the dot product of the predictors
      with the remaining coefficients, which is the design column's dot
      product with all coefficients. */
  function GetPrediction(coefficients: seq<real>, x: seq<real>): (r: real)
    requires |coefficients| == NumParameters(|x|)
    ensures r == Dot(DesignColumn(x), coefficients)
  {
    var r := coefficients[0] + Dot(x, coefficients[1..]);
    InterceptFirst(x, coefficients);
    r
  }

  lemma InterceptFirst(x: seq<real>, coefficients: seq<real>)
    requires |coefficients| == |x| + 1
    ensures Dot(DesignColumn(x), coefficients) == coefficients[0] + Dot(x, coefficients[1..])
  {
    var rest := Times(x, coefficients[1..]);
    var whole := Times(DesignColumn(x), coefficients);
    assert whole == [coefficients[0]] + rest by {
      forall k | 0 <= k < |whole|
        ensures whole[k] == ([coefficients[0]] + rest)[k]
      {
        if k > 0 {
          assert DesignColumn(x)[k] == x[k - 1];
        }
      }
    }
    SumCons(coefficients[0], rest);
  }

  /** The dot product of the `k`-th design column of a node with the
      coefficients is the prediction for observation `indices[k]`. */
  lemma ColumnPrediction(xt: seq<real>, n: nat, p: nat, indices: seq<nat>, coefficients: seq<real>, k: nat)
    requires |xt| == n * p && IndicesBelow(indices, n) && k < |indices| && |coefficients| == p + 1
    ensures |Chunks(NodeXt(xt, n, p, indices), p + 1, |indices|)[k]| == p + 1
    ensures Dot(Chunks(NodeXt(xt, n, p, indices), p + 1, |indices|)[k], coefficients) ==
            GetPrediction(coefficients, Row(xt, n, p, indices[k]))
  {
    ChunksFlatten(NodeColumns(xt, n, p, indices), p + 1);
  }

  /** The prediction for every observation. */
  function AllFitted(xt: seq<real>, n: nat, p: nat, coefficients: seq<real>): (fits: seq<real>)
    requires |xt| == n * p && |coefficients| == NumParameters(p)
    ensures |fits| == n
    ensures forall i :: 0 <= i < n ==> fits[i] == GetPrediction(coefficients, Row(xt, n, p, i))
  {
    seq(n, i requires 0 <= i < n => GetPrediction(coefficients, Row(xt, n, p, i)))
  }

  /** The node's design multiplied into the coefficients: one prediction per
      observation of the node, in order. */
  function NodePredictions(xt: seq<real>, n: nat, p: nat, indices: seq<nat>, coefficients: seq<real>)
    : (predictions: seq<real>)
    requires |xt| == n * p && IndicesBelow(indices, n) && |coefficients| == NumParameters(p)
    ensures |predictions| == |indices|
    ensures forall k :: 0 <= k < |indices| ==> predictions[k] == AllFitted(xt, n, p, coefficients)[indices[k]]
  {
    var columns := Chunks(NodeXt(xt, n, p, indices), p + 1, |indices|);
    var predictions := seq(|indices|, k requires 0 <= k < |indices| => Dot(columns[k], coefficients));
    assert forall k :: 0 <= k < |indices| ==> predictions[k] == AllFitted(xt, n, p, coefficients)[indices[k]] by {
      forall k | 0 <= k < |indices|
        ensures predictions[k] == AllFitted(xt, n, p, coefficients)[indices[k]]
      {
        ColumnPrediction(xt, n, p, indices, coefficients, k);
      }
    }
    predictions
  }

  /** `getPredictions`: every observation of the node gets the product of its
      design column with the coefficients (through the model's design at the
      top node, the node's own design elsewhere); other entries keep their
      values. */
  method GetPredictions(xt: seq<real>, n: nat, p: nat, node: Node, coefficients: seq<real>, yHat: seq<real>)
    returns (r: seq<real>)
    requires |xt| == n * p && MeanNormal.WellFormed(node, n)
    requires |coefficients| == NumParameters(p) && |yHat| == n
    ensures |r| == n
    ensures forall i :: 0 <= i < n ==>
      r[i] == if MeanNormal.InNode(node, n, i) then GetPrediction(coefficients, Row(xt, n, p, i)) else yHat[i]
  {
    var idx := MeanNormal.Observations(node, n);
    var predictions := NodePredictions(xt, n, p, idx, coefficients);
    r := Scatter(yHat, idx, predictions, AllFitted(xt, n, p, coefficients));
    MeanNormal.ObservationsAreMembers(node, n);
  }
}
