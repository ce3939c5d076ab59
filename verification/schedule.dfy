/** The iteration schedule of `runSampler` (bartFit.cpp:364-478): burn-in and
    sampling draws, each repeated `thin` times, with only the last of every
    `thin` iterations retained. Retained burn-in draws all go to the first
    result slot and are later overwritten; sampling draw `j` goes to slot `j`. */
module Schedule {
  import opened Wrappers
  import opened Numeric

  /** Number of sampler iterations (bartFit.cpp:380). */
  function TotalIterations(numBurnIn: nat, numSamples: nat, thin: nat): nat
  {
    (numBurnIn + numSamples) * thin
  }

  /** An iteration is stored iff it ends a block of `thin` (bartFit.cpp:396). */
  predicate IsRetained(k: nat, thin: nat)
    requires thin > 0
  {
    (k + 1) % thin == 0
  }

  /** The result slot of a major iteration: 0 during burn-in (bartFit.cpp:441-442). */
  function Slot(major: nat, numBurnIn: nat): nat
  {
    if major < numBurnIn then 0 else major - numBurnIn
  }

  /** The result slot of iteration `k` (major iteration `k / thin`). */
  function SimNum(k: nat, thin: nat, numBurnIn: nat): nat
    requires thin > 0
  {
    Slot(k / thin, numBurnIn)
  }

  /** Slots allocated for results: at least one (bartFit.cpp:369-370). */
  function ResultSlots(numSamples: nat): (r: nat)
    ensures r >= 1 && r >= numSamples
  {
    if numSamples == 0 then 1 else numSamples
  }

  /** Every iteration of a run writes inside the results buffer. */
  lemma SimNumInRange(k: nat, numBurnIn: nat, numSamples: nat, thin: nat)
    requires thin > 0 && k < TotalIterations(numBurnIn, numSamples, thin)
    ensures SimNum(k, thin, numBurnIn) < ResultSlots(numSamples)
    ensures k / thin >= numBurnIn ==> SimNum(k, thin, numBurnIn) < numSamples
  {
    var q := k / thin;
    assert k == q * thin + k % thin;
    if q >= numBurnIn + numSamples {
      MulMonotone(numBurnIn + numSamples, q, thin);
    }
  }

  /** Iteration `k` splits into its major iteration and its position in the
      block: it is retained iff it is the last position, and only then does
      the next iteration start a new major iteration. */
  lemma NextIteration(k: nat, thin: nat)
    requires thin > 0
    ensures IsRetained(k, thin) <==> k % thin == thin - 1
    ensures IsRetained(k, thin) ==> (k + 1) / thin == k / thin + 1 && k == k / thin * thin + thin - 1
    ensures !IsRetained(k, thin) ==> (k + 1) / thin == k / thin
  {
    var q := k / thin;
    var r := k % thin;
    assert k == q * thin + r;
    if r == thin - 1 {
      assert k + 1 == (q + 1) * thin + 0;
      DivOfDecomposition(q + 1, 0, thin);
    } else {
      DivOfDecomposition(q, r + 1, thin);
    }
  }

  /** The major iteration whose draw last landed in slot `j` once `majors`
      major iterations are done, or -1 if none did. */
  function LastMajor(majors: nat, numBurnIn: nat, j: nat): int
  {
    if j == 0 then
      (if majors == 0 then -1 else if majors - 1 < numBurnIn then majors - 1 else numBurnIn)
    else if numBurnIn + j < majors then numBurnIn + j
    else -1
  }

  /** One more major iteration overwrites exactly its own slot. */
  lemma LastMajorStep(majors: nat, numBurnIn: nat, j: nat)
    ensures LastMajor(majors + 1, numBurnIn, j)
      == if j == Slot(majors, numBurnIn) then majors else LastMajor(majors, numBurnIn, j)
  {
  }

  /** The iteration that ends major iteration `major`, or -1 for none. */
  function RetainedIteration(major: int, thin: nat): int
  {
    if major < 0 then -1 else major * thin + thin - 1
  }

  /** Number of values of the `uint32_t` loop counter of bartFit.cpp:395. */
  const UINT32_VALUES: nat := 0x1_0000_0000

  /** The `uint32_t` counter after `steps` increments from 0: it wraps to 0
      after `UINT32_VALUES - 1`. */
  function Counter32(steps: nat): (k: nat)
    ensures k < UINT32_VALUES
    ensures steps < UINT32_VALUES ==> k == steps
  {
    steps % UINT32_VALUES
  }

  /** As written, once the iteration count reaches 2^32 the guard
      `k < totalNumIterations` holds for every value the counter takes, so the
      loop never exits. */
  lemma CounterNeverExits(numBurnIn: nat, numSamples: nat, thin: nat, steps: nat)
    requires TotalIterations(numBurnIn, numSamples, thin) >= UINT32_VALUES
    ensures Counter32(steps) < TotalIterations(numBurnIn, numSamples, thin)
    ensures Counter32(steps + UINT32_VALUES) == Counter32(steps)
  {
  }

  /** 100000 samples thinned by 50000, which the R interface accepts, make
      5 * 10^9 iterations: the 32-bit counter wraps before reaching them. */
  lemma CounterWrapsCounterexample()
    ensures TotalIterations(0, 100000, 50000) == 5_000_000_000 >= UINT32_VALUES
    ensures Counter32(UINT32_VALUES) == 0 < TotalIterations(0, 100000, 50000)
  {
  }

  /** Runs the schedule and records, for every result slot, the iteration
      whose draw was stored there last (-1 if none). NULL results, here
      `None`, are returned when no samples were requested. The loop counter
      is as wide as the iteration count, so every run ends. */
  method RunSchedule(numBurnIn: nat, numSamples: nat, thin: nat) returns (results: Option<seq<int>>, stores: nat)
    ensures results.None? <==> numSamples == 0
    ensures results.Some? ==> |results.value| == numSamples
    ensures thin > 0 ==> stores == numBurnIn + numSamples
    ensures thin == 0 ==> stores == 0
    ensures thin > 0 && results.Some? ==>
      forall j :: 0 <= j < numSamples ==> results.value[j] == (numBurnIn + j) * thin + thin - 1
  {
    var writer := seq(ResultSlots(numSamples), _ => -1);
    stores := 0;
    var total := TotalIterations(numBurnIn, numSamples, thin);
    for k := 0 to total
      invariant |writer| == ResultSlots(numSamples)
      invariant thin > 0 ==> stores == k / thin
      invariant thin > 0 ==> forall j :: 0 <= j < |writer| ==>
        writer[j] == RetainedIteration(LastMajor(k / thin, numBurnIn, j), thin)
      invariant thin == 0 ==> stores == 0
    {
      NextIteration(k, thin);
      if (k + 1) % thin == 0 {
        SimNumInRange(k, numBurnIn, numSamples, thin);
        var simNum := SimNum(k, thin, numBurnIn);
        forall j | 0 <= j < |writer|
          ensures LastMajor(k / thin + 1, numBurnIn, j)
            == if j == simNum then k / thin else LastMajor(k / thin, numBurnIn, j)
        {
          LastMajorStep(k / thin, numBurnIn, j);
        }
        writer := writer[simNum := k];
        stores := stores + 1;
      }
    }
    if thin > 0 {
      assert total / thin == numBurnIn + numSamples by {
        DivOfDecomposition(numBurnIn + numSamples, 0, thin);
      }
    }
    if thin > 0 {
      forall j | 0 <= j < numSamples
        ensures writer[j] == (numBurnIn + j) * thin + thin - 1
      {
        assert LastMajor(numBurnIn + numSamples, numBurnIn, j) == numBurnIn + j;
      }
    }
    if numSamples == 0 {
      results := None;
    } else {
      results := Some(writer);
    }
  }
}
