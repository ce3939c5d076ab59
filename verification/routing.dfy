/** Leaf routing of one tree (src/bart/tree.cpp). A row of the row-major
    predictor matrix descends from the top node, going left when its value of
    the split variable is at most the cut and right otherwise, until it reaches
    a bottom node. Bottom nodes are enumerated left to right; predictions are
    indexed by that enumeration. */
module Routing {
  import opened Wrappers
  import opened Numeric
  import opened Matrix

  datatype Tree = Leaf | Split(variable: nat, cut: real, left: Tree, right: Tree)

  /** Number of bottom nodes. */
  function LeafCount(t: Tree): (c: nat)
    ensures c >= 1
  {
    match t
    case Leaf => 1
    case Split(_, _, l, r) => LeafCount(l) + LeafCount(r)
  }

  /** Number of interior nodes, i.e. of splitting rules. */
  function SplitCount(t: Tree): nat
  {
    match t
    case Leaf => 0
    case Split(_, _, l, r) => 1 + SplitCount(l) + SplitCount(r)
  }

  /** Every splitting rule reads a variable below `p`. */
  predicate VariablesBelow(t: Tree, p: nat)
  {
    match t
    case Leaf => true
    case Split(v, _, l, r) => v < p && VariablesBelow(l, p) && VariablesBelow(r, p)
  }

  /** Enumeration index of the bottom node that `x` reaches. */
  function Route(t: Tree, x: seq<real>): (k: nat)
    requires VariablesBelow(t, |x|)
    ensures k < LeafCount(t)
  {
    match t
    case Leaf => 0
    case Split(v, c, l, r) =>
      if x[v] <= c then Route(l, x) else LeafCount(l) + Route(r, x)
  }

  // ---------------------------------------------------------------------------
  // An independent description of the enumeration: bottom nodes listed by the
  // left/right path leading to them, left subtree first.

  /** Paths to the bottom nodes, in enumeration order; `false` is a left turn. */
  function LeafPaths(t: Tree): (ps: seq<seq<bool>>)
    ensures |ps| == LeafCount(t)
  {
    match t
    case Leaf => [[]]
    case Split(_, _, l, r) =>
      var lp := LeafPaths(l);
      var rp := LeafPaths(r);
      seq(|lp|, k requires 0 <= k < |lp| => [false] + lp[k])
        + seq(|rp|, k requires 0 <= k < |rp| => [true] + rp[k])
  }

  /** The turns taken by `x` from the top node. */
  function PathOf(t: Tree, x: seq<real>): seq<bool>
    requires VariablesBelow(t, |x|)
  {
    match t
    case Leaf => []
    case Split(v, c, l, r) =>
      if x[v] <= c then [false] + PathOf(l, x) else [true] + PathOf(r, x)
  }

  /** The routed index is the position, in the enumeration, of the path `x`
      follows. */
  lemma {:induction false} RouteFollowsPath(t: Tree, x: seq<real>)
    requires VariablesBelow(t, |x|)
    ensures LeafPaths(t)[Route(t, x)] == PathOf(t, x)
  {
    match t
    case Leaf =>
    case Split(v, c, l, r) =>
      var lp := LeafPaths(l);
      if x[v] <= c {
        RouteFollowsPath(l, x);
        assert LeafPaths(t)[Route(t, x)] == [false] + lp[Route(l, x)];
      } else {
        RouteFollowsPath(r, x);
        assert LeafPaths(t)[Route(t, x)] == [true] + LeafPaths(r)[Route(r, x)];
      }
  }

  /** Distinct bottom nodes are reached by distinct paths. */
  lemma {:induction false} LeafPathsDistinct(t: Tree)
    ensures forall a, b :: 0 <= a < b < |LeafPaths(t)| ==> LeafPaths(t)[a] != LeafPaths(t)[b]
  {
    match t
    case Leaf =>
    case Split(_, _, l, r) =>
      LeafPathsDistinct(l);
      LeafPathsDistinct(r);
      var lp := LeafPaths(l);
      var rp := LeafPaths(r);
      var ps := LeafPaths(t);
      forall a, b | 0 <= a < b < |ps|
        ensures ps[a] != ps[b]
      {
        if b < |lp| {
          assert ps[a][1..] == lp[a] && ps[b][1..] == lp[b];
        } else if a >= |lp| {
          assert ps[a][1..] == rp[a - |lp|] && ps[b][1..] == rp[b - |lp|];
        } else {
          assert ps[a][0] != ps[b][0];
        }
      }
  }

  /** The path a row follows determines the bottom node it reaches: the
      enumeration index is the only one listing that path. */
  lemma RouteUnique(t: Tree, x: seq<real>, k: nat)
    requires VariablesBelow(t, |x|) && k < LeafCount(t)
    ensures LeafPaths(t)[k] == PathOf(t, x) <==> k == Route(t, x)
  {
    RouteFollowsPath(t, x);
    LeafPathsDistinct(t);
  }

  /** The observation-to-bottom-node map; no map exists for zero observations. */
  function ObservationMap(t: Tree, Xt: seq<real>, n: nat, p: nat): (m: Option<seq<nat>>)
    requires |Xt| == n * p && VariablesBelow(t, p)
    ensures m.None? <==> n == 0
    ensures m.Some? ==> |m.value| == n
    ensures m.Some? ==> forall i :: 0 <= i < n ==>
      m.value[i] < LeafCount(t) && LeafPaths(t)[m.value[i]] == PathOf(t, Row(Xt, n, p, i))
  {
    if n == 0 then None
    else
      var m := seq(n, i requires 0 <= i < n => Route(t, Row(Xt, n, p, i)));
      RoutesFollowPaths(t, Xt, n, p);
      Some(m)
  }

  lemma RoutesFollowPaths(t: Tree, Xt: seq<real>, n: nat, p: nat)
    requires |Xt| == n * p && VariablesBelow(t, p)
    ensures forall i :: 0 <= i < n ==>
      LeafPaths(t)[Route(t, Row(Xt, n, p, i))] == PathOf(t, Row(Xt, n, p, i))
  {
    forall i | 0 <= i < n
      ensures LeafPaths(t)[Route(t, Row(Xt, n, p, i))] == PathOf(t, Row(Xt, n, p, i))
    {
      RouteFollowsPath(t, Row(Xt, n, p, i));
    }
  }

  /** Fits of one tree: one prediction per bottom node, written over the
      training observations that node holds and looked up through the
      observation map for the test rows. The training observations of a bottom
      node are those routed to it. */
  method CurrentFits(t: Tree, predictions: seq<real>, Xt: seq<real>, n: nat,
                     XtTest: seq<real>, numTest: nat, p: nat)
    returns (training: seq<real>, test: seq<real>)
    requires VariablesBelow(t, p) && |predictions| == LeafCount(t)
    requires |Xt| == n * p && |XtTest| == numTest * p
    ensures |training| == n && |test| == numTest
    ensures forall i :: 0 <= i < n ==> training[i] == predictions[Route(t, Row(Xt, n, p, i))]
    ensures forall i :: 0 <= i < numTest ==> test[i] == predictions[Route(t, Row(XtTest, numTest, p, i))]
  {
    var numBottomNodes := LeafCount(t);
    training := seq(n, i => 0.0);
    var k := 0;
    while k < numBottomNodes
      invariant 0 <= k <= numBottomNodes && |training| == n
      invariant forall i :: 0 <= i < n && Route(t, Row(Xt, n, p, i)) < k ==>
        training[i] == predictions[Route(t, Row(Xt, n, p, i))]
    {
      var i := 0;
      while i < n
        invariant 0 <= i <= n && |training| == n
        invariant forall j :: 0 <= j < n && Route(t, Row(Xt, n, p, j)) < k ==>
          training[j] == predictions[Route(t, Row(Xt, n, p, j))]
        invariant forall j :: 0 <= j < i && Route(t, Row(Xt, n, p, j)) == k ==>
          training[j] == predictions[k]
      {
        if Route(t, Row(Xt, n, p, i)) == k {
          training := training[i := predictions[k]];
        }
        i := i + 1;
      }
      k := k + 1;
    }

    test := TestFits(t, predictions, XtTest, numTest, p);
  }

  /** Test fits looked up through the observation map: each test row gets the
      prediction of the bottom node it is routed to. */
  function TestFits(t: Tree, predictions: seq<real>, XtTest: seq<real>, numTest: nat, p: nat): (f: seq<real>)
    requires VariablesBelow(t, p) && |predictions| == LeafCount(t) && |XtTest| == numTest * p
    ensures |f| == numTest
    ensures forall i :: 0 <= i < numTest ==> f[i] == predictions[Route(t, Row(XtTest, numTest, p, i))]
  {
    match ObservationMap(t, XtTest, numTest, p)
    case None => []
    case Some(m) =>
      MapIsRoute(t, XtTest, numTest, p, m);
      seq(numTest, i requires 0 <= i < numTest => predictions[m[i]])
  }

  lemma MapIsRoute(t: Tree, Xt: seq<real>, n: nat, p: nat, m: seq<nat>)
    requires |Xt| == n * p && VariablesBelow(t, p)
    requires ObservationMap(t, Xt, n, p) == Some(m)
    ensures |m| == n && forall i :: 0 <= i < n ==> m[i] == Route(t, Row(Xt, n, p, i))
  {
    forall i | 0 <= i < n
      ensures m[i] == Route(t, Row(Xt, n, p, i))
    {
      RouteUnique(t, Row(Xt, n, p, i), m[i]);
    }
  }

  /** Visits every bottom node once, in enumeration order, handing each the
      training observations routed to it. The averaging itself belongs to the
      node and is a parameter here. */
  method NodeAverages(t: Tree, Xt: seq<real>, n: nat, p: nat, average: seq<nat> -> real)
    returns (averages: seq<real>)
    requires VariablesBelow(t, p) && |Xt| == n * p
    ensures |averages| == LeafCount(t)
    ensures forall k :: 0 <= k < LeafCount(t) ==> averages[k] == average(NodeObservations(t, Xt, n, p, k))
  {
    averages := [];
    var k := 0;
    while k < LeafCount(t)
      invariant 0 <= k <= LeafCount(t) && |averages| == k
      invariant forall j :: 0 <= j < k ==> averages[j] == average(NodeObservations(t, Xt, n, p, j))
    {
      averages := averages + [average(NodeObservations(t, Xt, n, p, k))];
      k := k + 1;
    }
  }

  /** Training observations, in increasing order, routed to bottom node `k`. */
  function NodeObservations(t: Tree, Xt: seq<real>, n: nat, p: nat, k: nat): (obs: seq<nat>)
    requires VariablesBelow(t, p) && |Xt| == n * p
    ensures forall j :: 0 <= j < |obs| ==> obs[j] < n && Route(t, Row(Xt, n, p, obs[j])) == k
    ensures forall i :: 0 <= i < n && Route(t, Row(Xt, n, p, i)) == k ==> i in obs
  {
    ObservationsBelow(t, Xt, n, p, k, n)
  }

  function ObservationsBelow(t: Tree, Xt: seq<real>, n: nat, p: nat, k: nat, bound: nat): (obs: seq<nat>)
    requires VariablesBelow(t, p) && |Xt| == n * p && bound <= n
    ensures forall j :: 0 <= j < |obs| ==> obs[j] < bound && Route(t, Row(Xt, n, p, obs[j])) == k
    ensures forall i :: 0 <= i < bound && Route(t, Row(Xt, n, p, i)) == k ==> i in obs
  {
    if bound == 0 then []
    else
      var earlier := ObservationsBelow(t, Xt, n, p, k, bound - 1);
      if Route(t, Row(Xt, n, p, bound - 1)) == k then earlier + [bound - 1] else earlier
  }

  // ---------------------------------------------------------------------------
  // Variable-use counts.

  /** Number of splitting rules on variable `v`. */
  function SplitsOn(t: Tree, v: nat): nat
  {
    match t
    case Leaf => 0
    case Split(w, _, l, r) => (if w == v then 1 else 0) + SplitsOn(l, v) + SplitsOn(r, v)
  }

  /** Adds to each variable's count the number of rules that split on it. */
  function CountVariableUses(t: Tree, counts: seq<nat>): (r: seq<nat>)
    requires VariablesBelow(t, |counts|)
    ensures |r| == |counts|
    ensures forall v :: 0 <= v < |counts| ==> r[v] == counts[v] + SplitsOn(t, v)
  {
    match t
    case Leaf => counts
    case Split(w, _, left, right) =>
      var after := CountVariableUses(right, CountVariableUses(left, counts));
      after[w := after[w] + 1]
  }

  function NatSum(s: seq<nat>): nat
    decreases |s|
  {
    if |s| == 0 then 0 else NatSum(s[..|s| - 1]) + s[|s| - 1]
  }

  lemma {:induction false} NatSumUpdate(s: seq<nat>, k: nat, v: nat)
    requires k < |s|
    ensures NatSum(s[k := v]) + s[k] == NatSum(s) + v
    decreases |s|
  {
    var t := s[k := v];
    if k == |s| - 1 {
      assert t[..|s| - 1] == s[..|s| - 1];
    } else {
      assert t[..|s| - 1] == s[..|s| - 1][k := v];
      NatSumUpdate(s[..|s| - 1], k, v);
    }
  }

  lemma IncrementSum(s: seq<nat>, w: nat)
    requires w < |s|
    ensures NatSum(s[w := s[w] + 1]) == NatSum(s) + 1
  {
    NatSumUpdate(s, w, s[w] + 1);
  }

  function AddCounts(a: seq<nat>, b: seq<nat>): (c: seq<nat>)
    requires |a| == |b|
    ensures |c| == |a| && forall v :: 0 <= v < |a| ==> c[v] == a[v] + b[v]
  {
    seq(|a|, v requires 0 <= v < |a| => a[v] + b[v])
  }

  lemma {:induction false} NatSumAdd(a: seq<nat>, b: seq<nat>)
    requires |a| == |b|
    ensures NatSum(AddCounts(a, b)) == NatSum(a) + NatSum(b)
    decreases |a|
  {
    if |a| > 0 {
      var k := |a| - 1;
      assert AddCounts(a, b)[..k] == AddCounts(a[..k], b[..k]);
      NatSumAdd(a[..k], b[..k]);
    }
  }

  /** Number of rules on each of the variables `0 .. p-1`. */
  function SplitsPerVariable(t: Tree, p: nat): (u: seq<nat>)
    ensures |u| == p && forall v :: 0 <= v < p ==> u[v] == SplitsOn(t, v)
  {
    seq(p, v requires 0 <= v < p => SplitsOn(t, v))
  }

  /** A tree has one more bottom node than splitting rules. */
  lemma {:induction false} LeavesExceedSplits(t: Tree)
    ensures SplitCount(t) + 1 == LeafCount(t)
  {
    match t
    case Leaf =>
    case Split(_, _, l, r) =>
      LeavesExceedSplits(l);
      LeavesExceedSplits(r);
  }

  /** Counted per variable, the rules add up to all the rules of the tree. */
  lemma {:induction false} SplitsPerVariableTotal(t: Tree, p: nat)
    requires VariablesBelow(t, p)
    ensures NatSum(SplitsPerVariable(t, p)) == SplitCount(t)
  {
    match t
    case Leaf =>
      SumOfZeros(SplitsPerVariable(t, p));
    case Split(w, _, l, r) =>
      SplitsPerVariableTotal(l, p);
      SplitsPerVariableTotal(r, p);
      var both := AddCounts(SplitsPerVariable(l, p), SplitsPerVariable(r, p));
      NatSumAdd(SplitsPerVariable(l, p), SplitsPerVariable(r, p));
      assert SplitsPerVariable(t, p) == both[w := both[w] + 1];
      IncrementSum(both, w);
  }

  lemma {:induction false} SumOfZeros(s: seq<nat>)
    requires forall v :: 0 <= v < |s| ==> s[v] == 0
    ensures NatSum(s) == 0
    decreases |s|
  {
    if |s| > 0 {
      SumOfZeros(s[..|s| - 1]);
    }
  }

  /** The counts grow in total by the number of splitting rules, which is one
      less than the number of bottom nodes. */
  lemma {:induction false} CountVariableUsesTotal(t: Tree, counts: seq<nat>)
    requires VariablesBelow(t, |counts|)
    ensures NatSum(CountVariableUses(t, counts)) == NatSum(counts) + LeafCount(t) - 1
  {
    var u := SplitsPerVariable(t, |counts|);
    CountsAdded(t, counts);
    NatSumAdd(counts, u);
    SplitsPerVariableTotal(t, |counts|);
    LeavesExceedSplits(t);
  }

  /** Counting a tree's rules into `counts` adds its per-variable rule counts. */
  lemma {:induction false} CountsAdded(t: Tree, counts: seq<nat>)
    requires VariablesBelow(t, |counts|)
    ensures CountVariableUses(t, counts) == AddCounts(counts, SplitsPerVariable(t, |counts|))
  {
    var r := CountVariableUses(t, counts);
    var a := AddCounts(counts, SplitsPerVariable(t, |counts|));
    forall v | 0 <= v < |counts|
      ensures r[v] == a[v]
    {
    }
  }
}
