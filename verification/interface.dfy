/** The checks at the R boundary (src/R_interface.cpp): the validators that
    turn the R-level control, model and data objects into the sampler's
    settings, the argument checks of `dbarts_run` and `dbarts_setY`, and the
    registry of live fits behind the external pointers.

    An R vector slot is a sequence of entries, and an NA entry (NaN for a
    real slot) is `None`. The R type tests (`isInteger`, `isReal`, the class
    names) are carried by Dafny's types and are not modelled. An R error is
    a `Failure`. */
module Interface {
  import opened Wrappers
  import opened Numeric
  import Rescale

  type IntSlot = seq<Option<int>>
  type RealSlot = seq<Option<real>>
  type LogicalSlot = seq<Option<bool>>

  /** How many entries a slot must hold; only the first is ever read. */
  datatype Arity = ExactlyOne | AtLeastOne

  predicate HasArity(length: nat, arity: Arity)
  {
    match arity
    case ExactlyOne => length == 1
    case AtLeastOne => length >= 1
  }

  /** A logical slot of the right length whose entry is TRUE or FALSE. */
  predicate Definite(slot: LogicalSlot, arity: Arity)
  {
    HasArity(|slot|, arity) && slot[0].Some?
  }

  /** An integer slot of the right length whose entry is NA or at least `least`. */
  predicate NaOrAtLeast(slot: IntSlot, arity: Arity, least: int)
  {
    HasArity(|slot|, arity) && (slot[0].None? || slot[0].value >= least)
  }

  /** An integer slot of length one holding a positive, non-NA entry. */
  predicate PresentAndPositive(slot: IntSlot)
  {
    |slot| == 1 && slot[0].Some? && slot[0].value > 0
  }

  /** The first entry of an integer slot, or `fallback` when it is NA. */
  function OrElse(slot: IntSlot, fallback: int): int
    requires |slot| >= 1
  {
    if slot[0].Some? then slot[0].value else fallback
  }

  function ReadFlag(slot: LogicalSlot, arity: Arity, what: string): (r: Result<bool>)
    ensures r.Success? <==> Definite(slot, arity)
    ensures r.Success? ==> r.value == slot[0].value
  {
    if !HasArity(|slot|, arity) then Failure(what + ": wrong length") else
    :- Need(slot[0].Some?, what + ": must be TRUE or FALSE");
    Success(slot[0].value)
  }

  /** Reads a count. An NA entry stands for `naValue`, or is an error when
      there is none; an entry that is not NA must be at least `least`. */
  function ReadCount(slot: IntSlot, arity: Arity, naValue: Option<nat>, least: nat, what: string): (r: Result<nat>)
    ensures r.Success? <==>
      HasArity(|slot|, arity) && (slot[0].Some? || naValue.Some?) && (slot[0].Some? ==> slot[0].value >= least)
    ensures r.Success? && slot[0].Some? ==> r.value == slot[0].value
    ensures r.Success? && slot[0].None? ==> r.value == naValue.value
  {
    if !HasArity(|slot|, arity) then Failure(what + ": wrong length") else
    if slot[0].Some? then
      :- Need(slot[0].value >= least, what + ": out of range");
      Success(slot[0].value)
    else
      :- Need(naValue.Some?, what + ": cannot be NA");
      Success(naValue.value)
  }

  // ---------------------------------------------------------------- control

  datatype ControlSlots = ControlSlots(
    binary: LogicalSlot, verbose: LogicalSlot, keepTrainingFits: LogicalSlot, useQuantiles: LogicalSlot,
    numSamples: IntSlot, numBurnIn: IntSlot, numTrees: IntSlot, numThreads: IntSlot,
    treeThinningRate: IntSlot, printEvery: IntSlot, printCutoffs: IntSlot)

  datatype Control = Control(
    responseIsBinary: bool, verbose: bool, keepTrainingFits: bool, useQuantiles: bool,
    numSamples: nat, numBurnIn: nat, numTrees: nat, numThreads: nat,
    treeThinningRate: nat, printEvery: nat, printCutoffs: nat)

  /** What `initializeControlFromExpression` accepts: definite flags, a
      present positive sample and tree count, and for the other counts NA or
      a value in range. `verbose` and `printCutoffs` may be longer than one. */
  predicate ControlAcceptable(c: ControlSlots)
  {
    Definite(c.binary, ExactlyOne) && Definite(c.verbose, AtLeastOne) &&
    Definite(c.keepTrainingFits, ExactlyOne) && Definite(c.useQuantiles, ExactlyOne) &&
    PresentAndPositive(c.numSamples) && NaOrAtLeast(c.numBurnIn, ExactlyOne, 0) &&
    PresentAndPositive(c.numTrees) && NaOrAtLeast(c.numThreads, ExactlyOne, 1) &&
    NaOrAtLeast(c.treeThinningRate, ExactlyOne, 0) && NaOrAtLeast(c.printEvery, ExactlyOne, 1) &&
    NaOrAtLeast(c.printCutoffs, AtLeastOne, 0)
  }

  /** `initializeControlFromExpression`. NA burn-in and print cutoffs become
      0, NA threads and thinning become 1, and an NA print interval keeps
      the value the control already had, `printEvery`. A thinning rate of 0
      is accepted. */
  function ReadControl(c: ControlSlots, printEvery: nat): (r: Result<Control>)
    ensures r.Success? <==> ControlAcceptable(c)
    ensures r.Success? ==>
      r.value.responseIsBinary == c.binary[0].value && r.value.verbose == c.verbose[0].value &&
      r.value.keepTrainingFits == c.keepTrainingFits[0].value && r.value.useQuantiles == c.useQuantiles[0].value
    ensures r.Success? ==>
      r.value.numSamples == c.numSamples[0].value && r.value.numTrees == c.numTrees[0].value &&
      r.value.numBurnIn == OrElse(c.numBurnIn, 0) && r.value.numThreads == OrElse(c.numThreads, 1) &&
      r.value.treeThinningRate == OrElse(c.treeThinningRate, 1) &&
      r.value.printEvery == OrElse(c.printEvery, printEvery) && r.value.printCutoffs == OrElse(c.printCutoffs, 0)
    ensures r.Success? ==> r.value.numSamples > 0 && r.value.numTrees > 0 && r.value.numThreads > 0
  {
    var binary :- ReadFlag(c.binary, ExactlyOne, "binary");
    var verbose :- ReadFlag(c.verbose, AtLeastOne, "verbose");
    var keep :- ReadFlag(c.keepTrainingFits, ExactlyOne, "keepTrainingFits");
    var quantiles :- ReadFlag(c.useQuantiles, ExactlyOne, "useQuantiles");
    var numSamples :- ReadCount(c.numSamples, ExactlyOne, None, 1, "n.samples");
    var numBurnIn :- ReadCount(c.numBurnIn, ExactlyOne, Some(0), 0, "n.burn");
    var numTrees :- ReadCount(c.numTrees, ExactlyOne, None, 1, "n.trees");
    var numThreads :- ReadCount(c.numThreads, ExactlyOne, Some(1), 1, "n.threads");
    var thin :- ReadCount(c.treeThinningRate, ExactlyOne, Some(1), 0, "n.thin");
    var every :- ReadCount(c.printEvery, ExactlyOne, Some(printEvery), 1, "printEvery");
    var cutoffs :- ReadCount(c.printCutoffs, AtLeastOne, Some(0), 0, "printCutoffs");
    Success(Control(binary, verbose, keep, quantiles, numSamples, numBurnIn, numTrees, numThreads,
                    thin, every, cutoffs))
  }

  // ------------------------------------------------------------------ model

  datatype ModelSlots = ModelSlots(
    birthOrDeath: RealSlot, swap: RealSlot, change: RealSlot, birth: RealSlot,
    power: RealSlot, base: RealSlot, k: RealSlot, df: RealSlot, quantile: RealSlot)

  /** The accepted model settings. The node prior keeps `k` and the
      residual-variance prior its degrees of freedom and quantile; turning
      them into a precision and a scale takes a square root and a
      chi-squared quantile, which are not modelled. */
  datatype ModelSettings = ModelSettings(
    birthOrDeathProbability: real, swapProbability: real, changeProbability: real,
    birthProbability: real, power: real, base: real, k: real, sigmaPriorDf: real, sigmaPriorQuantile: real)

  /** The tolerance on the sum of the proposal probabilities. */
  const SumTolerance: real := 0.0000000001

  /** A real slot of length one holding a number. */
  predicate Number(slot: RealSlot)
  {
    |slot| == 1 && slot[0].Some?
  }

  function ValueOf(slot: RealSlot): real
    requires Number(slot)
  {
    slot[0].value
  }

  /** Birth/death is proposed with a probability in (0, 1], swap and change
      each with one in [0, 1), and the three sum to one within the tolerance. */
  predicate MoveProbabilities(birthOrDeath: real, swap: real, change: real)
  {
    0.0 < birthOrDeath <= 1.0 && 0.0 <= swap < 1.0 && 0.0 <= change < 1.0 &&
    Abs(birthOrDeath + swap + change - 1.0) < SumTolerance
  }

  predicate ModelAcceptable(m: ModelSlots)
  {
    Number(m.birthOrDeath) && Number(m.swap) && Number(m.change) &&
    MoveProbabilities(ValueOf(m.birthOrDeath), ValueOf(m.swap), ValueOf(m.change)) &&
    Number(m.birth) && 0.0 < ValueOf(m.birth) < 1.0 &&
    Number(m.power) && ValueOf(m.power) > 0.0 &&
    Number(m.base) && 0.0 < ValueOf(m.base) < 1.0 &&
    Number(m.k) && ValueOf(m.k) > 0.0 &&
    Number(m.df) && ValueOf(m.df) > 0.0 &&
    Number(m.quantile) && 0.0 < ValueOf(m.quantile) < 1.0
  }

  function ReadReal(slot: RealSlot, what: string): (r: Result<real>)
    ensures r.Success? <==> Number(slot)
    ensures r.Success? ==> r.value == ValueOf(slot)
  {
    if |slot| != 1 then Failure(what + ": wrong length") else
    :- Need(slot[0].Some?, what + ": must be a number");
    Success(slot[0].value)
  }

  /** `initializeModelFromExpression`: every setting is a single number in
      its range, and the proposal probabilities form a distribution. */
  function ReadModel(m: ModelSlots): (r: Result<ModelSettings>)
    ensures r.Success? <==> ModelAcceptable(m)
    ensures r.Success? ==>
      r.value == ModelSettings(ValueOf(m.birthOrDeath), ValueOf(m.swap), ValueOf(m.change),
                               ValueOf(m.birth), ValueOf(m.power), ValueOf(m.base),
                               ValueOf(m.k), ValueOf(m.df), ValueOf(m.quantile))
  {
    var birthOrDeath :- ReadReal(m.birthOrDeath, "p.birth_death");
    :- Need(0.0 < birthOrDeath <= 1.0, "p.birth_death: must be in (0, 1]");
    var swap :- ReadReal(m.swap, "p.swap");
    :- Need(0.0 <= swap < 1.0, "p.swap: must be in [0, 1)");
    var change :- ReadReal(m.change, "p.change");
    :- Need(0.0 <= change < 1.0, "p.change: must be in [0, 1)");
    :- Need(Abs(birthOrDeath + swap + change - 1.0) < SumTolerance, "proposal probabilities must sum to 1");
    var birth :- ReadReal(m.birth, "p.birth");
    :- Need(0.0 < birth < 1.0, "p.birth: must be in (0, 1)");
    var power :- ReadReal(m.power, "power");
    :- Need(power > 0.0, "power: must be positive");
    var base :- ReadReal(m.base, "base");
    :- Need(0.0 < base < 1.0, "base: must be in (0, 1)");
    var k :- ReadReal(m.k, "k");
    :- Need(k > 0.0, "k: must be positive");
    var df :- ReadReal(m.df, "df");
    :- Need(df > 0.0, "df: must be positive");
    var quantile :- ReadReal(m.quantile, "quantile");
    :- Need(0.0 < quantile < 1.0, "quantile: must be in (0, 1)");
    Success(ModelSettings(birthOrDeath, swap, change, birth, power, base, k, df, quantile))
  }

  /** The accepted proposal probabilities are within the tolerance of a
      distribution, and none of swap and change can be certain. */
  lemma AcceptedMovesNearlySumToOne(m: ModelSlots)
    requires ReadModel(m).Success?
    ensures var s := ReadModel(m).value;
      1.0 - SumTolerance < s.birthOrDeathProbability + s.swapProbability + s.changeProbability < 1.0 + SumTolerance
  {
  }

  // ------------------------------------------------------------------- data

  /** An R matrix: its values in column-major order and its `dim` attribute
      (empty when the attribute is missing). */
  datatype RMatrix = RMatrix(values: seq<real>, dims: seq<int>)

  /** R keeps a matrix's dimensions non-negative and its length their product. */
  predicate WellShaped(m: RMatrix)
  {
    |m.dims| == 2 ==> m.dims[0] >= 0 && m.dims[1] >= 0 && |m.values| == m.dims[0] * m.dims[1]
  }

  datatype DataSlots = DataSlots(
    y: seq<real>, x: RMatrix, varTypes: seq<int>, xTest: Option<RMatrix>,
    weights: Option<seq<real>>, offset: Option<seq<real>>, sigma: RealSlot, maxNumCuts: seq<int>)

  datatype VariableType = Ordinal | Categorical

  datatype Data = Data(
    y: seq<real>, numObservations: nat, X: seq<real>, numPredictors: nat,
    variableTypes: seq<VariableType>, xTest: Option<seq<real>>, numTestObservations: nat,
    weights: Option<seq<real>>, offset: Option<seq<real>>, sigmaEstimate: real, maxNumCuts: seq<nat>)

  /** An optional vector counts as given unless it is NULL or empty. */
  predicate Given(v: Option<seq<real>>)
  {
    v.Some? && |v.value| > 0
  }

  predicate TestGiven(m: Option<RMatrix>)
  {
    m.Some? && |m.value.values| > 0
  }

  /** What `initializeDataFromExpression` accepts. */
  predicate DataAcceptable(s: DataSlots)
  {
    PredictorsAcceptable(s) && VectorsAcceptable(s) && |s.maxNumCuts| == s.x.dims[1]
  }

  /** The checks on `y`, `x`, the variable types and the test matrix. */
  predicate PredictorsAcceptable(s: DataSlots)
  {
    |s.y| > 0 && |s.x.dims| == 2 && s.x.dims[0] == |s.y| &&
    |s.varTypes| == s.x.dims[1] &&
    (TestGiven(s.xTest) ==> |s.xTest.value.dims| == 2 && s.xTest.value.dims[1] == s.x.dims[1])
  }

  /** The checks on the per-observation vectors and the sigma estimate. */
  predicate VectorsAcceptable(s: DataSlots)
  {
    (Given(s.weights) ==> |s.weights.value| == |s.y|) &&
    (Given(s.offset) ==> |s.offset.value| == |s.y|) &&
    |s.sigma| == 1 && (s.sigma[0].Some? ==> s.sigma[0].value > 0.0)
  }

  const TwoToThe32: int := 0x1_0000_0000

  /** The cast of a 32-bit R integer to `uint32_t`: a negative value wraps. */
  function ToUnsigned32(v: int): (u: nat)
    ensures u < TwoToThe32
    ensures 0 <= v < TwoToThe32 ==> u == v
    ensures -TwoToThe32 <= v < 0 ==> u == v + TwoToThe32
  {
    v % TwoToThe32
  }

  /** An optional per-observation vector: absent, or of length `n`. */
  function ReadColumn(v: Option<seq<real>>, n: nat, what: string): (r: Result<Option<seq<real>>>)
    ensures r.Success? <==> (Given(v) ==> |v.value| == n)
    ensures r.Success? ==> (if Given(v) then r.value == v else r.value.None?)
  {
    if !Given(v) then Success(None)
    else
      :- Need(|v.value| == n, what + ": length must equal the length of y");
      Success(v)
  }

  /** The optional test matrix and its row count. */
  function ReadTest(m: Option<RMatrix>, p: nat): (r: Result<(Option<seq<real>>, nat)>)
    requires m.Some? ==> WellShaped(m.value)
    ensures r.Success? <==> (TestGiven(m) ==> |m.value.dims| == 2 && m.value.dims[1] == p)
    ensures r.Success? && TestGiven(m) ==>
      r.value.0 == Some(m.value.values) && r.value.1 == m.value.dims[0] && |m.value.values| == r.value.1 * p
    ensures r.Success? && !TestGiven(m) ==> r.value == (None, 0)
  {
    if !TestGiven(m) then Success((None, 0))
    else
      :- Need(|m.value.dims| == 2, "x.test must be a matrix");
      :- Need(m.value.dims[1] == p, "x.test and x must have the same number of columns");
      Success((Some(m.value.values), m.value.dims[0] as nat))
  }

  /** `initializeDataFromExpression` with each optional vector taken from
      its own slot: the weights and the offset are kept when given and are
      absent otherwise, independently of each other. */
  function ReadData(s: DataSlots): (r: Result<Data>)
    requires WellShaped(s.x) && (s.xTest.Some? ==> WellShaped(s.xTest.value))
    ensures r.Success? <==> DataAcceptable(s)
    ensures r.Success? ==>
      var d := r.value;
      d.y == s.y && d.numObservations == |s.y| && d.X == s.x.values && d.numPredictors == s.x.dims[1] &&
      |d.X| == d.numObservations * d.numPredictors
    ensures r.Success? ==>
      |r.value.variableTypes| == r.value.numPredictors &&
      forall j :: 0 <= j < |r.value.variableTypes| ==> (r.value.variableTypes[j] == Ordinal <==> s.varTypes[j] == 0)
    ensures r.Success? ==>
      (TestGiven(s.xTest) ==> r.value.xTest == Some(s.xTest.value.values) &&
                               r.value.numTestObservations == s.xTest.value.dims[0]) &&
      (!TestGiven(s.xTest) ==> r.value.xTest.None? && r.value.numTestObservations == 0)
    ensures r.Success? ==>
      (Given(s.weights) ==> r.value.weights == s.weights) && (!Given(s.weights) ==> r.value.weights.None?) &&
      (Given(s.offset) ==> r.value.offset == s.offset) && (!Given(s.offset) ==> r.value.offset.None?)
    ensures r.Success? ==>
      r.value.sigmaEstimate > 0.0 &&
      r.value.sigmaEstimate == (if s.sigma[0].Some? then s.sigma[0].value else 1.0)
    ensures r.Success? ==>
      |r.value.maxNumCuts| == r.value.numPredictors &&
      forall j :: 0 <= j < |r.value.maxNumCuts| ==> r.value.maxNumCuts[j] == ToUnsigned32(s.maxNumCuts[j])
  {
    var pr :- ReadPredictors(s);
    var v :- ReadVectors(s);
    var cuts :- ReadMaxNumCuts(s.maxNumCuts, pr.numPredictors);
    Success(Data(s.y, |s.y|, s.x.values, pr.numPredictors, pr.variableTypes, pr.xTest, pr.numTestObservations,
                 v.weights, v.offset, v.sigmaEstimate, cuts))
  }

  /** What the reader takes from `x`, the variable types and the test matrix. */
  datatype Predictors = Predictors(
    numPredictors: nat, variableTypes: seq<VariableType>, xTest: Option<seq<real>>, numTestObservations: nat)

  /** What the reader takes from the per-observation vectors and the sigma slot. */
  datatype Vectors = Vectors(weights: Option<seq<real>>, offset: Option<seq<real>>, sigmaEstimate: real)

  function ReadPredictors(s: DataSlots): (r: Result<Predictors>)
    requires WellShaped(s.x) && (s.xTest.Some? ==> WellShaped(s.xTest.value))
    ensures r.Success? <==> PredictorsAcceptable(s)
    ensures r.Success? ==>
      r.value.numPredictors == s.x.dims[1] && |s.x.values| == |s.y| * r.value.numPredictors
    ensures r.Success? ==>
      |r.value.variableTypes| == r.value.numPredictors &&
      forall j :: 0 <= j < |r.value.variableTypes| ==> (r.value.variableTypes[j] == Ordinal <==> s.varTypes[j] == 0)
    ensures r.Success? ==>
      (TestGiven(s.xTest) ==> r.value.xTest == Some(s.xTest.value.values) &&
                               r.value.numTestObservations == s.xTest.value.dims[0]) &&
      (!TestGiven(s.xTest) ==> r.value.xTest.None? && r.value.numTestObservations == 0)
  {
    var p :- ReadShape(s.y, s.x);
    var types :- ReadVariableTypes(s.varTypes, p);
    var test :- ReadTest(s.xTest, p);
    Success(Predictors(p, types, test.0, test.1))
  }

  function ReadVectors(s: DataSlots): (r: Result<Vectors>)
    ensures r.Success? <==> VectorsAcceptable(s)
    ensures r.Success? ==>
      (Given(s.weights) ==> r.value.weights == s.weights) && (!Given(s.weights) ==> r.value.weights.None?) &&
      (Given(s.offset) ==> r.value.offset == s.offset) && (!Given(s.offset) ==> r.value.offset.None?)
    ensures r.Success? ==>
      r.value.sigmaEstimate > 0.0 &&
      r.value.sigmaEstimate == (if s.sigma[0].Some? then s.sigma[0].value else 1.0)
  {
    var weights :- ReadColumn(s.weights, |s.y|, "weights");
    var offset :- ReadColumn(s.offset, |s.y|, "offset");
    var sigma :- ReadSigma(s.sigma);
    Success(Vectors(weights, offset, sigma))
  }

  /** The response is not empty and `x` is a matrix with one row per
      response; the result is the number of columns. */
  function ReadShape(y: seq<real>, x: RMatrix): (r: Result<nat>)
    requires WellShaped(x)
    ensures r.Success? <==> |y| > 0 && |x.dims| == 2 && x.dims[0] == |y|
    ensures r.Success? ==> r.value == x.dims[1] && |x.values| == |y| * r.value
  {
    if |y| == 0 then Failure("y must not be empty") else
    :- Need(|x.dims| == 2, "x must be a matrix");
    :- Need(x.dims[0] == |y|, "rows of x and length of y must be equal");
    Success(x.dims[1] as nat)
  }

  /** One type code per column; code 0 is ordinal, any other categorical. */
  function ReadVariableTypes(codes: seq<int>, p: nat): (r: Result<seq<VariableType>>)
    ensures r.Success? <==> |codes| == p
    ensures r.Success? ==> |r.value| == p && forall j :: 0 <= j < p ==> (r.value[j] == Ordinal <==> codes[j] == 0)
  {
    if |codes| != p then Failure("one variable type per column of x") else
    Success(seq(p, j requires 0 <= j < p => if codes[j] == 0 then Ordinal else Categorical))
  }

  /** The sigma estimate: NaN stands for 1.0, and the value must be positive. */
  function ReadSigma(slot: RealSlot): (r: Result<real>)
    ensures r.Success? <==> |slot| == 1 && (slot[0].Some? ==> slot[0].value > 0.0)
    ensures r.Success? ==> r.value > 0.0 && r.value == (if slot[0].Some? then slot[0].value else 1.0)
  {
    if |slot| != 1 then Failure("sigma: wrong length") else
    var sigma := if slot[0].Some? then slot[0].value else 1.0;
    :- Need(sigma > 0.0, "sigma must be positive");
    Success(sigma)
  }

  /** One maximum number of cuts per column, each cast to 32 unsigned bits. */
  function ReadMaxNumCuts(values: seq<int>, p: nat): (r: Result<seq<nat>>)
    ensures r.Success? <==> |values| == p
    ensures r.Success? ==> |r.value| == p && forall j :: 0 <= j < p ==> r.value[j] == ToUnsigned32(values[j])
  {
    if |values| != p then Failure("one maximum number of cuts per column of x") else
    var cuts: seq<nat> := seq(p, j requires 0 <= j < p => ToUnsigned32(values[j]));
    Success(cuts)
  }

  /** `initializeDataFromExpression` as written: when the offset slot is
      absent it clears the weights instead of the offset, so weights survive
      only alongside an offset. */
  function ReadDataAsWritten(s: DataSlots): (r: Result<Data>)
    requires WellShaped(s.x) && (s.xTest.Some? ==> WellShaped(s.xTest.value))
    ensures r.Success? <==> DataAcceptable(s)
    ensures r.Success? && r.value.weights.Some? ==> Given(s.offset)
    ensures Given(s.offset) ==> r == ReadData(s)
  {
    var d :- ReadData(s);
    if Given(s.offset) then Success(d) else Success(d.(weights := None))
  }

  /** Given weights and no offset: the code as written drops the weights,
      the corrected reader keeps them. */
  lemma WeightsDroppedWithoutOffset()
    ensures var s := DataSlots([1.0, 2.0], RMatrix([0.5, 0.7], [2, 1]), [0], None,
                               Some([2.0, 3.0]), None, [None], [10]);
      ReadData(s).Success? && ReadData(s).value.weights == Some([2.0, 3.0]) &&
      ReadDataAsWritten(s).Success? && ReadDataAsWritten(s).value.weights == None
  {
    var s := DataSlots([1.0, 2.0], RMatrix([0.5, 0.7], [2, 1]), [0], None, Some([2.0, 3.0]), None, [None], [10]);
    assert DataAcceptable(s);
    assert Given(s.weights) && !Given(s.offset);
  }

  // ------------------------------------------------------------- run, setY

  /** The argument checks of `dbarts_run`. `fit` is the fit's control, or
      `None` for a cleared pointer. NA asks for the fit's own burn-in or
      sample count; otherwise the burn-in must be non-negative and the sample
      count positive. */
  function RunArguments(fit: Option<Control>, numBurnIn: IntSlot, numSamples: IntSlot): (r: Result<(nat, nat)>)
    ensures r.Success? <==>
      fit.Some? && NaOrAtLeast(numBurnIn, AtLeastOne, 0) && NaOrAtLeast(numSamples, AtLeastOne, 1)
    ensures r.Success? ==>
      r.value.0 == OrElse(numBurnIn, fit.value.numBurnIn) && r.value.1 == OrElse(numSamples, fit.value.numSamples)
  {
    if fit.None? then Failure("dbarts_run called on a NULL pointer") else
    var burnIn :- ReadCount(numBurnIn, AtLeastOne, Some(fit.value.numBurnIn), 0, "burn-in");
    var samples :- ReadCount(numSamples, AtLeastOne, Some(fit.value.numSamples), 1, "samples");
    Success((burnIn, samples))
  }

  /** On a fit whose control was accepted, an accepted run always draws at
      least one sample, NA or not. */
  lemma RunDrawsSamples(c: ControlSlots, printEvery: nat, numBurnIn: IntSlot, numSamples: IntSlot)
    requires ReadControl(c, printEvery).Success?
    requires RunArguments(Some(ReadControl(c, printEvery).value), numBurnIn, numSamples).Success?
    ensures RunArguments(Some(ReadControl(c, printEvery).value), numBurnIn, numSamples).value.1 > 0
  {
  }

  /** `dbarts_setY` on a continuous fit (`fit` is `None` for a cleared
      pointer): a response of the wrong length is rejected; otherwise it is
      installed by `setResponse`, which rescales and keeps sigma on the
      response scale. A constant response would make the rescaling divide by
      zero, so it is excluded. */
  function SetY(fit: Option<Rescale.ResponseState>, y: seq<real>): (r: Result<Rescale.ResponseState>)
    requires fit.Some? ==> Rescale.Synced(fit.value)
    requires fit.Some? && |y| == |fit.value.y| ==> Rescale.Rescalable(y, fit.value.offset)
    ensures r.Success? <==> fit.Some? && |y| == |fit.value.y|
    ensures r.Success? ==>
      Rescale.Synced(r.value) && r.value.y == y && r.value.offset == fit.value.offset &&
      Rescale.UnscaledSigma(r.value) == Rescale.UnscaledSigma(fit.value)
  {
    if fit.None? then Failure("dbarts_setY called on a NULL pointer") else
    :- Need(|y| == |fit.value.y|, "length of new y does not match old");
    Success(Rescale.SetResponse(fit.value, y))
  }

  // --------------------------------------------------------------- registry

  /** The live fits. Each external pointer `h` holds a fit address
      (`addresses[h]`, `None` once cleared); `active` is the set of
      registered pointers and `deleted` the fits freed so far. */
  datatype Registry = Registry(addresses: map<nat, Option<nat>>, active: set<nat>, deleted: set<nat>)

  /** Every registered pointer holds a fit that is not yet freed, and no two
      registered pointers hold the same fit. */
  predicate RegistryValid(g: Registry)
  {
    (forall h :: h in g.active ==> h in g.addresses && g.addresses[h].Some? && g.addresses[h].value !in g.deleted) &&
    (forall h1, h2 ::
       (h1 in g.active && h2 in g.active && h1 in g.addresses && h2 in g.addresses &&
        g.addresses[h1] == g.addresses[h2]) ==> h1 == h2)
  }

  /** `dbarts_isValidPointer`: false for a cleared pointer, otherwise whether
      the pointer is registered. */
  function IsValidPointer(g: Registry, h: nat): (r: bool)
    requires h in g.addresses
    ensures RegistryValid(g) ==> (r <==> h in g.active)
    ensures r ==> g.addresses[h].Some?
  {
    g.addresses[h].Some? && h in g.active
  }

  /** `dbarts_create`: a new pointer to a new fit is registered. */
  function Create(g: Registry, h: nat, fit: nat): (r: Registry)
    requires RegistryValid(g) && h !in g.addresses && fit !in g.deleted
    requires forall h' :: h' in g.active ==> g.addresses[h'] != Some(fit)
    ensures RegistryValid(r) && h in r.addresses && IsValidPointer(r, h)
    ensures r.active == g.active + {h} && r.deleted == g.deleted
  {
    Registry(g.addresses[h := Some(fit)], g.active + {h}, g.deleted)
  }

  /** `fitFinalizer`: a cleared or unregistered pointer is left alone;
      otherwise the pointer is unregistered, its fit freed (for the first
      time) and the pointer cleared. */
  function Finalize(g: Registry, h: nat): (r: Registry)
    requires RegistryValid(g) && h in g.addresses
    ensures RegistryValid(r) && h in r.addresses && !IsValidPointer(r, h)
    ensures !IsValidPointer(g, h) ==> r == g
    ensures IsValidPointer(g, h) ==>
      g.addresses[h].value !in g.deleted &&
      r == Registry(g.addresses[h := None], g.active - {h}, g.deleted + {g.addresses[h].value})
  {
    if g.addresses[h].None? then g
    else if h !in g.active then g
    else Registry(g.addresses[h := None], g.active - {h}, g.deleted + {g.addresses[h].value})
  }

  /** Finalizing the same pointer twice frees its fit once. */
  lemma FinalizeTwice(g: Registry, h: nat)
    requires RegistryValid(g) && h in g.addresses
    ensures Finalize(Finalize(g, h), h) == Finalize(g, h)
  {
  }

  /** Even a stale copy of the pointer, whose address was not cleared, cannot
      free the fit again: the registry no longer lists it. */
  lemma FinalizeStaleCopy(g: Registry, h: nat)
    requires RegistryValid(g) && h in g.addresses && IsValidPointer(g, h)
    ensures var r := Finalize(g, h);
      h !in r.active && Finalize(r.(addresses := g.addresses), h) == r.(addresses := g.addresses)
  {
  }

  /** The fits held by the registered pointers. */
  function ActiveFits(g: Registry): set<nat>
  {
    set h | h in g.active && h in g.addresses && g.addresses[h].Some? :: g.addresses[h].value
  }

  /** `dbarts_finalize`: every registered fit is freed, every registered
      pointer cleared and the registry emptied; other pointers are untouched. */
  function FinalizeAll(g: Registry): (r: Registry)
    requires RegistryValid(g)
    ensures RegistryValid(r) && r.active == {}
    ensures r.addresses.Keys == g.addresses.Keys
    ensures forall h :: h in g.addresses ==> !IsValidPointer(r, h)
    ensures forall h :: h in g.addresses && h !in g.active ==> r.addresses[h] == g.addresses[h]
    ensures forall h :: h in g.active ==> g.addresses[h].value in r.deleted - g.deleted
    ensures r.deleted == g.deleted + ActiveFits(g)
  {
    Registry(map h | h in g.addresses :: if h in g.active then None else g.addresses[h], {}, g.deleted + ActiveFits(g))
  }

  /** After `dbarts_finalize` the finalizer of any pointer does nothing. */
  lemma FinalizeAfterFinalizeAll(g: Registry, h: nat)
    requires RegistryValid(g) && h in g.addresses
    ensures Finalize(FinalizeAll(g), h) == FinalizeAll(g)
  {
  }
}
