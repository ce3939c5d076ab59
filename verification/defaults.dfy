/** The compiled-in defaults of the model (inst/include/bart/model.hpp): the
    proposal probabilities, the prior constants, the default-constructed
    `Model` and `ChiSquaredPrior`, and the tree prior's split probability as
    its comment states it. */
module Defaults {
  import opened Wrappers
  import Interface

  const BirthOrDeathProbability: real := 0.5
  const SwapProbability: real := 0.1
  const ChangeProbability: real := 0.4
  /** The chance of a birth once a birth/death step is chosen. */
  const BirthProbability: real := 0.5

  const NormalPriorK: real := 2.0
  const ChiSquaredPriorDf: real := 3.0
  const ChiSquaredPriorQuantile: real := 0.9

  const TreePriorPower: real := 2.0
  const TreePriorBase: real := 0.95

  /** The priors are opaque here; a `Model` only records whether it holds one. */
  datatype TreePrior = CGMPrior(base: real, power: real)
  datatype EndNodePrior = NormalPrior(precision: real)
  datatype ResidualVariancePrior = ChiSquaredPrior(degreesOfFreedom: real, scale: real)

  datatype Model = Model(
    birthOrDeathProbability: real, swapProbability: real, changeProbability: real, birthProbability: real,
    treePrior: Option<TreePrior>, muPrior: Option<EndNodePrior>, sigmaSqPrior: Option<ResidualVariancePrior>)

  /** `Model()`: the default proposal probabilities, which the R-level
      validator would accept, and no priors yet. */
  function DefaultModel(): (m: Model)
    ensures Interface.MoveProbabilities(m.birthOrDeathProbability, m.swapProbability, m.changeProbability)
    ensures m.birthOrDeathProbability + m.swapProbability + m.changeProbability == 1.0
    ensures 0.0 < m.birthProbability < 1.0
    ensures m.treePrior.None? && m.muPrior.None? && m.sigmaSqPrior.None?
  {
    Model(BirthOrDeathProbability, SwapProbability, ChangeProbability, BirthProbability, None, None, None)
  }

  /** `NormalPrior()`: unit precision. */
  function DefaultNormalPrior(): (p: EndNodePrior)
    ensures p.precision == 1.0
  {
    NormalPrior(1.0)
  }

  /** `ChiSquaredPrior()`: the default degrees of freedom and unit scale. */
  function DefaultChiSquaredPrior(): (p: ResidualVariancePrior)
    ensures p.degreesOfFreedom == ChiSquaredPriorDf && p.scale == 1.0 && p.degreesOfFreedom > 0.0
  {
    ChiSquaredPrior(ChiSquaredPriorDf, 1.0)
  }

  function GetScale(p: ResidualVariancePrior): real
  {
    p.scale
  }

  /** `setScale`: replaces the scale and keeps the degrees of freedom. */
  function SetScale(p: ResidualVariancePrior, scale: real): (r: ResidualVariancePrior)
    ensures r.degreesOfFreedom == p.degreesOfFreedom
  {
    p.(scale := scale)
  }

  /** Reading the scale back returns what was set, and setting the scale
      that is already there changes nothing. */
  lemma ScaleRoundTrip(p: ResidualVariancePrior, scale: real)
    ensures GetScale(SetScale(p, scale)) == scale
    ensures SetScale(p, GetScale(p)) == p
  {
  }

  /** The R objects carrying the defaults pass the model validator, and the
      settings it reads are the defaults. */
  lemma DefaultsAccepted()
    ensures var m := Interface.ModelSlots(
      [Some(BirthOrDeathProbability)], [Some(SwapProbability)], [Some(ChangeProbability)], [Some(BirthProbability)],
      [Some(TreePriorPower)], [Some(TreePriorBase)], [Some(NormalPriorK)], [Some(ChiSquaredPriorDf)],
      [Some(ChiSquaredPriorQuantile)]);
      Interface.ReadModel(m) == Success(Interface.ModelSettings(
        BirthOrDeathProbability, SwapProbability, ChangeProbability, BirthProbability,
        TreePriorPower, TreePriorBase, NormalPriorK, ChiSquaredPriorDf, ChiSquaredPriorQuantile))
  {
    var m := Interface.ModelSlots(
      [Some(BirthOrDeathProbability)], [Some(SwapProbability)], [Some(ChangeProbability)], [Some(BirthProbability)],
      [Some(TreePriorPower)], [Some(TreePriorBase)], [Some(NormalPriorK)], [Some(ChiSquaredPriorDf)],
      [Some(ChiSquaredPriorQuantile)]);
    assert Interface.ModelAcceptable(m);
  }

  // ----------------------------------------------------- split probability

  /** `x` to a whole power. */
  function Pow(x: real, k: nat): real
  {
    if k == 0 then 1.0 else x * Pow(x, k - 1)
  }

  lemma {:induction false} PowAtLeastOne(x: real, k: nat)
    requires x >= 1.0
    ensures Pow(x, k) >= 1.0
  {
    if k > 0 {
      PowAtLeastOne(x, k - 1);
      MulAtLeastOne(x, Pow(x, k - 1));
    }
  }

  lemma MulAtLeastOne(a: real, b: real)
    requires a >= 1.0 && b >= 1.0
    ensures a * b >= 1.0
  {
  }

  lemma {:induction false} PowMonotone(x: real, y: real, k: nat)
    requires 1.0 <= x <= y
    ensures Pow(x, k) <= Pow(y, k)
  {
    if k > 0 {
      PowMonotone(x, y, k - 1);
      PowAtLeastOne(x, k - 1);
      MulMonotoneReal(x, y, Pow(x, k - 1), Pow(y, k - 1));
    }
  }

  lemma MulMonotoneReal(a: real, b: real, c: real, d: real)
    requires 0.0 <= a <= b && 0.0 <= c <= d
    ensures a * c <= b * d
  {
    assert a * c <= b * c;
  }

  /** The chance that a node at `depth` splits, `base / (1 + depth)^power`,
      for a whole-number power. */
  function SplitProbability(base: real, power: nat, depth: nat): (r: real)
    requires 0.0 < base < 1.0
    ensures 0.0 < r <= base
    ensures depth == 0 ==> r == base
  {
    PowAtLeastOne(1.0 + depth as real, power);
    PowOfOne(power);
    DivideByAtLeastOne(base, Pow(1.0 + depth as real, power))
  }

  lemma {:induction false} PowOfOne(k: nat)
    ensures Pow(1.0, k) == 1.0
  {
    if k > 0 {
      PowOfOne(k - 1);
    }
  }

  function DivideByAtLeastOne(b: real, q: real): (r: real)
    requires b > 0.0 && q >= 1.0
    ensures 0.0 < r <= b
    ensures q == 1.0 ==> r == b
  {
    b / q
  }

  /** Deeper nodes split no more readily than shallower ones. */
  lemma SplitProbabilityDecreases(base: real, power: nat, shallow: nat, deep: nat)
    requires 0.0 < base < 1.0 && shallow <= deep
    ensures SplitProbability(base, power, deep) <= SplitProbability(base, power, shallow)
  {
    var a := Pow(1.0 + shallow as real, power);
    var b := Pow(1.0 + deep as real, power);
    PowMonotone(1.0 + shallow as real, 1.0 + deep as real, power);
    PowAtLeastOne(1.0 + shallow as real, power);
    DivideMonotone(base, a, b);
  }

  lemma DivideMonotone(b: real, q1: real, q2: real)
    requires b > 0.0 && 1.0 <= q1 <= q2
    ensures b / q2 <= b / q1
  {
    assert b / q2 * q2 == b;
    assert b / q1 * q1 == b;
    MulMonotoneReal(b / q2, b / q2, q1, q2);
  }

  /** The default tree prior's split probability at the root is its base,
      below one. */
  lemma DefaultRootSplit()
    ensures SplitProbability(TreePriorBase, 2, 0) == TreePriorBase < 1.0
  {
  }
}
