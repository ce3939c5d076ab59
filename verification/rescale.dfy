/** The response scale of a continuous fit (bartFit.cpp: rescaleResponse,
    storeSamples, setPrior, setResponse, setOffset) and the probit latents of a
    binary fit (initializeLatents). The sampler works on the response minus its
    offset, shifted and scaled into [-0.5, 0.5]; stored samples are mapped back. */
module Rescale {
  import opened Wrappers
  import opened Numeric

  /** Minimum, maximum and range of the offset-adjusted response. */
  datatype DataScale = DataScale(min: real, max: real, range: real)

  /** An optional per-observation offset has one entry per observation. */
  predicate OffsetFits(offset: Option<seq<real>>, n: nat)
  {
    offset.Some? ==> |offset.value| == n
  }

  /** Offset of observation `i`; an absent offset counts as zero. */
  function OffsetAt(offset: Option<seq<real>>, i: nat): real
    requires offset.Some? ==> i < |offset.value|
  {
    if offset.Some? then offset.value[i] else 0.0
  }

  /** `y - offset`, or a copy of `y` when there is no offset. */
  function Centered(y: seq<real>, offset: Option<seq<real>>): (c: seq<real>)
    requires OffsetFits(offset, |y|)
    ensures |c| == |y|
  {
    seq(|y|, i requires 0 <= i < |y| => y[i] - OffsetAt(offset, i))
  }

  /** A rescaling is defined when the offset-adjusted response is not constant;
      a constant one makes the source divide by a zero range. */
  predicate Rescalable(y: seq<real>, offset: Option<seq<real>>)
  {
    |y| > 0 && OffsetFits(offset, |y|) && Min(Centered(y, offset)) < Max(Centered(y, offset))
  }

  /** The scale `rescaleResponse` records (bartFit.cpp:819-825): the extremes
      of the offset-adjusted response and their difference. */
  function ScaleOf(y: seq<real>, offset: Option<seq<real>>): (scale: DataScale)
    requires Rescalable(y, offset)
    ensures scale.range > 0.0 && scale.min + scale.range == scale.max
  {
    var c := Centered(y, offset);
    DataScale(Min(c), Max(c), Max(c) - Min(c))
  }

  /** Maps a value on the sampler's scale back to the response scale, before
      the offset is added (bartFit.cpp:906-908): `range * 0.5 + min + range * f`. */
  function Unscale(scale: DataScale, f: real): real
  {
    scale.range * 0.5 + scale.min + scale.range * f
  }

  /** The rescaled response of `rescaleResponse` (bartFit.cpp:808-832): every
      value lands in [-0.5, 0.5], both ends are reached, and mapping back and
      adding the offset returns the response exactly. */
  function RescaleResponse(y: seq<real>, offset: Option<seq<real>>): (values: seq<real>)
    requires Rescalable(y, offset)
    ensures |values| == |y|
    ensures forall i :: 0 <= i < |y| ==> -0.5 <= values[i] <= 0.5
    ensures -0.5 in values && 0.5 in values
    ensures forall i :: 0 <= i < |y| ==> Unscale(ScaleOf(y, offset), values[i]) + OffsetAt(offset, i) == y[i]
  {
    var c := Centered(y, offset);
    var scale := ScaleOf(y, offset);
    var values := seq(|y|, i requires 0 <= i < |y| => (c[i] - scale.min) / scale.range - 0.5);
    RescaledValues(y, offset, values);
    values
  }

  lemma RescaledValues(y: seq<real>, offset: Option<seq<real>>, values: seq<real>)
    requires Rescalable(y, offset)
    requires |values| == |y|
    requires forall i :: 0 <= i < |y| ==>
      values[i] == (Centered(y, offset)[i] - ScaleOf(y, offset).min) / ScaleOf(y, offset).range - 0.5
    ensures forall i :: 0 <= i < |y| ==> -0.5 <= values[i] <= 0.5
    ensures -0.5 in values && 0.5 in values
    ensures forall i :: 0 <= i < |y| ==> Unscale(ScaleOf(y, offset), values[i]) + OffsetAt(offset, i) == y[i]
  {
    forall i | 0 <= i < |y|
      ensures -0.5 <= values[i] <= 0.5
      ensures Unscale(ScaleOf(y, offset), values[i]) + OffsetAt(offset, i) == y[i]
    {
      RescaledAt(y, offset, values[i], i);
    }
    RescaledEnds(y, offset, values);
  }

  lemma RescaledAt(y: seq<real>, offset: Option<seq<real>>, v: real, i: nat)
    requires Rescalable(y, offset) && i < |y|
    requires v == (Centered(y, offset)[i] - ScaleOf(y, offset).min) / ScaleOf(y, offset).range - 0.5
    ensures -0.5 <= v <= 0.5
    ensures Unscale(ScaleOf(y, offset), v) + OffsetAt(offset, i) == y[i]
  {
    var c := Centered(y, offset);
    assert c[i] == y[i] - OffsetAt(offset, i);
    assert Min(c) <= c[i] <= Max(c);
    RescaleOne(c[i], ScaleOf(y, offset), v);
  }

  lemma RescaledEnds(y: seq<real>, offset: Option<seq<real>>, values: seq<real>)
    requires Rescalable(y, offset)
    requires |values| == |y|
    requires forall i :: 0 <= i < |y| ==>
      values[i] == (Centered(y, offset)[i] - ScaleOf(y, offset).min) / ScaleOf(y, offset).range - 0.5
    ensures -0.5 in values && 0.5 in values
  {
    var c := Centered(y, offset);
    var scale := ScaleOf(y, offset);
    var a :| 0 <= a < |c| && c[a] == scale.min;
    var b :| 0 <= b < |c| && c[b] == scale.max;
    assert values[a] == -0.5;
    SelfRatio(scale.range);
    assert values[b] == 0.5;
  }

  lemma RescaleOne(v: real, scale: DataScale, f: real)
    requires scale.min <= v <= scale.max && scale.range == scale.max - scale.min && scale.range > 0.0
    requires f == (v - scale.min) / scale.range - 0.5
    ensures -0.5 <= f <= 0.5 && Unscale(scale, f) == v
  {
    UnitRatio(v - scale.min, scale.range);
    assert scale.range * f == scale.range * ((v - scale.min) / scale.range) - scale.range * 0.5;
  }

  lemma SelfRatio(d: real)
    requires d > 0.0
    ensures d / d == 1.0
  {
  }

  /** A share of a positive whole lies in [0, 1], and scaling back undoes it. */
  lemma UnitRatio(part: real, whole: real)
    requires 0.0 <= part <= whole && whole > 0.0
    ensures 0.0 <= part / whole <= 1.0
    ensures whole * (part / whole) == part
  {
  }

  /** Probit latents (bartFit.cpp:779-792): `z = 2y - 1 - offset`. Each
      latent determines its response. */
  function InitializeLatents(y: seq<real>, offset: Option<seq<real>>): (z: seq<real>)
    requires OffsetFits(offset, |y|)
    ensures |z| == |y|
    ensures forall i :: 0 <= i < |y| ==> (z[i] + 1.0 + OffsetAt(offset, i)) / 2.0 == y[i]
  {
    seq(|y|, i requires 0 <= i < |y| => 2.0 * y[i] - 1.0 - OffsetAt(offset, i))
  }

  /** Without an offset a 0/1 response starts at latent -1 or 1. */
  lemma LatentsOfBinaryResponse(y: seq<real>, i: nat)
    requires i < |y| && (y[i] == 0.0 || y[i] == 1.0)
    ensures InitializeLatents(y, None)[i] == if y[i] == 1.0 then 1.0 else -1.0
  {
  }

  /** Residual-variance parameters of the continuous response model. */
  datatype ResponsePrior = ResponsePrior(sigma: real, scale: real)

  /** `setPrior` (bartFit.cpp:629-638): sigma starts at the estimate divided by
      the data range (1 for a binary response), and the prior scale is
      multiplied by sigma squared. */
  function SetPrior(binary: bool, sigmaEstimate: real, dataScale: DataScale, priorScale: real): (p: ResponsePrior)
    requires !binary ==> dataScale.range > 0.0
    ensures binary ==> p.sigma == 1.0 && p.scale == priorScale
    ensures !binary ==> p.sigma * dataScale.range == sigmaEstimate
    ensures p.scale == p.sigma * p.sigma * priorScale
  {
    var sigma := if binary then 1.0 else sigmaEstimate / dataScale.range;
    ResponsePrior(sigma, sigma * sigma * priorScale)
  }

  /** One retained draw as `storeSamples` writes it (bartFit.cpp:882-925). */
  datatype Draw = Draw(training: Option<seq<real>>, test: seq<real>, sigma: real, variableCounts: seq<real>)

  /** Adds the optional offset to a vector of fits. */
  function PlusOffset(fits: seq<real>, offset: Option<seq<real>>): (r: seq<real>)
    requires OffsetFits(offset, |fits|)
    ensures |r| == |fits|
  {
    seq(|fits|, i requires 0 <= i < |fits| => fits[i] + OffsetAt(offset, i))
  }

  /** Maps fits back to the response scale and adds the offset; binary fits are
      already on the latent scale and only get the offset. */
  function ToResponseScale(binary: bool, scale: DataScale, fits: seq<real>, offset: Option<seq<real>>): (r: seq<real>)
    requires OffsetFits(offset, |fits|)
    ensures |r| == |fits|
    ensures binary ==> forall i :: 0 <= i < |fits| ==> r[i] - OffsetAt(offset, i) == fits[i]
    ensures !binary && scale.range > 0.0 ==> forall i :: 0 <= i < |fits| ==>
      (r[i] - OffsetAt(offset, i) - scale.min) / scale.range - 0.5 == fits[i]
  {
    UnscaleAllInverse(scale, fits);

    if binary then PlusOffset(fits, offset)
    else PlusOffset(seq(|fits|, i requires 0 <= i < |fits| => Unscale(scale, fits[i])), offset)
  }

  lemma UnscaleAllInverse(scale: DataScale, fits: seq<real>)
    ensures scale.range > 0.0 ==> forall i :: 0 <= i < |fits| ==>
      (Unscale(scale, fits[i]) - scale.min) / scale.range - 0.5 == fits[i]
  {
    if scale.range > 0.0 {
      forall i | 0 <= i < |fits|
        ensures (Unscale(scale, fits[i]) - scale.min) / scale.range - 0.5 == fits[i]
      {
        UnscaleInverse(scale, fits[i]);
      }
    }
  }

  /** Rescaling undoes `Unscale`. */
  lemma UnscaleInverse(scale: DataScale, f: real)
    requires scale.range > 0.0
    ensures (Unscale(scale, f) - scale.min) / scale.range - 0.5 == f
  {
    var g := 0.5 + f;
    var u := Unscale(scale, f) - scale.min;
    assert u == scale.range * g;
    DivCancel(g, scale.range);
    assert u / scale.range == g;
  }

  lemma DivCancel(a: real, r: real)
    requires r > 0.0
    ensures (r * a) / r == a
  {
  }

  /** `storeSamples`: training fits only when they are kept, test fits always
      (none when there are no test observations), sigma on the response scale
      (1 for a binary response), and the variable counts as reals. Every
      stored fit, less its offset, is mapped back by the rescaling to the
      sampler's fit; a binary fit is stored as the latent fit plus offset. */
  function StoreSamples(binary: bool, keepTrainingFits: bool, scale: DataScale,
                        trainingFits: seq<real>, offset: Option<seq<real>>,
                        testFits: seq<real>, testOffset: Option<seq<real>>,
                        sigma: real, variableCounts: seq<nat>): (d: Draw)
    requires OffsetFits(offset, |trainingFits|) && OffsetFits(testOffset, |testFits|)
    ensures d.training.Some? <==> keepTrainingFits
    ensures d.training.Some? ==> |d.training.value| == |trainingFits|
    ensures |d.test| == |testFits|
    ensures binary && d.training.Some? ==> forall i :: 0 <= i < |trainingFits| ==>
      d.training.value[i] - OffsetAt(offset, i) == trainingFits[i]
    ensures binary ==> forall i :: 0 <= i < |testFits| ==> d.test[i] - OffsetAt(testOffset, i) == testFits[i]
    ensures !binary && scale.range > 0.0 && d.training.Some? ==> forall i :: 0 <= i < |trainingFits| ==>
      (d.training.value[i] - OffsetAt(offset, i) - scale.min) / scale.range - 0.5 == trainingFits[i]
    ensures !binary && scale.range > 0.0 ==> forall i :: 0 <= i < |testFits| ==>
      (d.test[i] - OffsetAt(testOffset, i) - scale.min) / scale.range - 0.5 == testFits[i]
    ensures binary ==> d.sigma == 1.0
    ensures !binary && scale.range > 0.0 ==> d.sigma / scale.range == sigma
    ensures |d.variableCounts| == |variableCounts|
    ensures forall j :: 0 <= j < |variableCounts| ==> d.variableCounts[j] == variableCounts[j] as real
  {
    Draw(if keepTrainingFits then Some(ToResponseScale(binary, scale, trainingFits, offset)) else None,
         ToResponseScale(binary, scale, testFits, testOffset),
         if binary then 1.0 else sigma * scale.range,
         seq(|variableCounts|, j requires 0 <= j < |variableCounts| => variableCounts[j] as real))
  }

  /** Storing the rescaled response itself as the training fits reproduces the
      response: `storeSamples` inverts `rescaleResponse`. */
  lemma StoreSamplesInvertsRescale(y: seq<real>, offset: Option<seq<real>>, testFits: seq<real>,
                                   sigma: real, variableCounts: seq<nat>)
    requires Rescalable(y, offset)
    ensures StoreSamples(false, true, ScaleOf(y, offset), RescaleResponse(y, offset), offset,
                         testFits, None, sigma, variableCounts).training == Some(y)
  {
    var scale := ScaleOf(y, offset);
    var values := RescaleResponse(y, offset);
    var stored := StoreSamples(false, true, scale, values, offset, testFits, None, sigma, variableCounts).training.value;
    var unscaled := seq(|values|, i requires 0 <= i < |values| => Unscale(scale, values[i]));
    assert stored == PlusOffset(unscaled, offset);
    forall i | 0 <= i < |y|
      ensures stored[i] == y[i]
    {
      assert stored[i] == unscaled[i] + OffsetAt(offset, i);
      assert unscaled[i] == Unscale(scale, values[i]);
    }
    assert stored == y;
  }

  /** The sigma a continuous fit starts from is stored as the estimate it was
      given: `storeSamples` undoes the division in `setPrior`. */
  lemma StoredSigmaOfPrior(sigmaEstimate: real, dataScale: DataScale, priorScale: real,
                           fits: seq<real>, variableCounts: seq<nat>)
    requires dataScale.range > 0.0
    ensures var p := SetPrior(false, sigmaEstimate, dataScale, priorScale);
      StoreSamples(false, false, dataScale, fits, None, [], None, p.sigma, variableCounts).sigma == sigmaEstimate
  {
  }

  /** What a continuous fit keeps about its response: the response, its
      offset, the recorded scale and the scaled residual parameters. */
  datatype ResponseState = ResponseState(y: seq<real>, offset: Option<seq<real>>, scale: DataScale,
                                         sigma: real, priorScale: Option<real>)

  /** The recorded scale matches the stored response and offset. */
  predicate Synced(s: ResponseState)
  {
    Rescalable(s.y, s.offset) && s.scale == ScaleOf(s.y, s.offset)
  }

  /** Sigma on the response scale. */
  function UnscaledSigma(s: ResponseState): real
  {
    s.sigma * s.scale.range
  }

  /** Replaces the response or the offset of a continuous fit and rescales
      (bartFit.cpp:78-117). Sigma and the prior scale, which live on the
      rescaled scale, are converted so that their values on the response scale
      are unchanged. */
  function Reset(s: ResponseState, y: seq<real>, offset: Option<seq<real>>): (r: ResponseState)
    requires s.scale.range > 0.0 && Rescalable(y, offset)
    ensures r.y == y && r.offset == offset && r.scale == ScaleOf(y, offset)
    ensures UnscaledSigma(r) == UnscaledSigma(s)
    ensures r.priorScale.Some? <==> s.priorScale.Some?
    ensures r.priorScale.Some? ==>
      r.priorScale.value * (r.scale.range * r.scale.range) == s.priorScale.value * (s.scale.range * s.scale.range)
  {
    var scale := ScaleOf(y, offset);
    ResponseState(y, offset, scale, ConvertSigma(s.sigma, s.scale.range, scale.range),
                  ConvertScale(s.priorScale, s.scale.range, scale.range))
  }

  /** Re-expresses sigma from one data range in another. */
  function ConvertSigma(sigma: real, from: real, to: real): (r: real)
    requires to > 0.0
    ensures r * to == sigma * from
  {
    RangeCancels(sigma * from, to);
    sigma * from / to
  }

  /** Re-expresses an optional prior scale from one data range in another. */
  function ConvertScale(scale: Option<real>, from: real, to: real): (r: Option<real>)
    requires to > 0.0
    ensures r.Some? <==> scale.Some?
    ensures r.Some? ==> r.value * (to * to) == scale.value * (from * from)
  {
    if scale.None? then None
    else
      ScaleConverts(scale.value, from, to);
      Some(scale.value * (from * from) / (to * to))
  }

  lemma RangeCancels(v: real, d: real)
    requires d > 0.0
    ensures v / d * d == v
  {
  }

  lemma ScaleConverts(s: real, from: real, to: real)
    requires to > 0.0
    ensures (s * (from * from) / (to * to)) * (to * to) == s * (from * from)
  {
    assert to * to > 0.0;
  }

  /** `setResponse` of a continuous fit. */
  function SetResponse(s: ResponseState, y: seq<real>): (r: ResponseState)
    requires Synced(s) && Rescalable(y, s.offset)
    ensures Synced(r) && r.y == y && r.offset == s.offset
    ensures UnscaledSigma(r) == UnscaledSigma(s)
  {
    Reset(s, y, s.offset)
  }

  /** `setOffset` of a continuous fit. */
  function SetOffset(s: ResponseState, offset: Option<seq<real>>): (r: ResponseState)
    requires Synced(s) && Rescalable(s.y, offset)
    ensures Synced(r) && r.y == s.y && r.offset == offset
    ensures UnscaledSigma(r) == UnscaledSigma(s)
  {
    Reset(s, s.y, offset)
  }

  /** Setting the same response again changes nothing. */
  lemma SetResponseIdempotent(s: ResponseState)
    requires Synced(s)
    ensures SetResponse(s, s.y) == s
  {
    var range := s.scale.range;
    ConvertSigmaSameRange(s.sigma, range);
    ConvertScaleSameRange(s.priorScale, range);
    assert Reset(s, s.y, s.offset) ==
      ResponseState(s.y, s.offset, s.scale, ConvertSigma(s.sigma, range, range),
                    ConvertScale(s.priorScale, range, range));
  }

  /** Converting sigma between a range and itself changes nothing. */
  lemma ConvertSigmaSameRange(sigma: real, d: real)
    requires d > 0.0
    ensures ConvertSigma(sigma, d, d) == sigma
  {
    CancelFactor(ConvertSigma(sigma, d, d), sigma, d);
  }

  /** Converting a prior scale between a range and itself changes nothing. */
  lemma ConvertScaleSameRange(scale: Option<real>, d: real)
    requires d > 0.0
    ensures ConvertScale(scale, d, d) == scale
  {
    if scale.Some? {
      CancelSquare(ConvertScale(scale, d, d).value, scale.value, d);
    }
  }

  lemma CancelFactor(a: real, b: real, d: real)
    requires d > 0.0 && a * d == b * d
    ensures a == b
  {
  }

  lemma CancelSquare(a: real, b: real, d: real)
    requires d > 0.0 && a * (d * d) == b * (d * d)
    ensures a == b
  {
  }
}
