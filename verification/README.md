# dbarts sampler core in Dafny

A model of the deterministic core of dbarts, a Bayesian Additive Regression Trees (BART) sampler written in C++ with an R interface. The model covers:

- **Cut points.** Each predictor has a grid of candidate split values, built from quantiles or spaced uniformly. The grid may be rebound to new data, but it may never shrink.
- **Response scaling.**
  - A continuous response is centred on its offset and rescaled into [-0.5, 0.5]; stored draws are mapped back.
  - A binary response starts from probit latents.
  - Replacing the response or the offset rescales while keeping sigma on the response scale.
- **Sum-of-trees bookkeeping.**
  - Per-tree residuals, the running total of tree fits, and the invariant that the total is the sum of the trees.
  - The burn-in/thinning schedule and the result slot each retained draw is stored in.
  - The test-data state.
  - The predictor update, which rolls back when a tree becomes invalid, and the partial grid it leaves when a cut-point error interrupts it.
- **End-node models.**
  - Normal-mean nodes: their sufficient statistics, the merge of two children, scratch store/restore, the prior, the empty-node likelihood and posterior-mean shrinkage.
  - Linear-regression nodes: their design layout and predictions.
- **Tree routing.** How a row of predictors reaches a bottom node and picks up that node's prediction, and how splitting rules are counted per variable.
- **The R boundary.**
  - The validators for control, model and data.
  - The argument checks of `run` and `setY`.
  - The registry of live fits that finalizers consult.
  - The cross-validation argument checks, result shape and the MSE/MCR losses.
  - The compiled-in defaults.

Where the program differs from its evident intent (see "## Findings"), the model keeps both behaviours. `CutPoints.Stride` selects the quantile subsampling stride: with `AsWritten`, `CutPoints.SetCutPoints` and `PredictorUpdate.UpdatePredictorsAsWritten` build the grids the program builds. `PredictorUpdate.UpdatePredictors` is the intended update: it uses the new columns and the `Corrected` stride.

Doubles are modelled as `real`, so every identity holds exactly, where the program holds it only up to rounding. An R `NA` is `None`, and an R `error(...)` is a `Failure`. The messages of the cut-point errors and of the loss-type checks are the program's own text; the other validators' messages are paraphrased.

Modules, one per file:

| module | file | models |
|---|---|---|
| `Wrappers` | wrappers.dfy | `Option`, `Result`, `Need` |
| `Numeric` | numeric.dfy | sums, gathers, min/max, small arithmetic facts |
| `Matrix` | matrix.dfy | column-major predictors, the row-major copy `Xt`, column replacement |
| `CutPoints` | cut_points.dfy | `setInitialCutPoints`, `setCutPoints`, quantile and uniform grids |
| `Rescale` | rescale.dfy | `rescaleResponse`, `storeSamples`, `initializeLatents`, `setPrior`, `setResponse`/`setOffset` |
| `Schedule` | schedule.dfy | the iteration indexing of `runSampler` |
| `Ensemble` | ensemble.dfy | residuals, total fits, `setInitialFit`, `updateTrainingFits`/`updateTestFits` |
| `Routing` | routing.dfy | `tree.cpp`: observation map, current fits, node averages, variable counts |
| `TestData` | test_data.dfy | `setTestPredictorAndOffset` and the other test-data setters |
| `PredictorUpdate` | predictor_update.dfy | `updatePredictors` |
| `MeanNormal` | mean_normal.dfy | the MeanNormal end-node model |
| `LinearRegression` | linear_regression.dfy | the LinearRegressionNormal design layout and predictions |
| `Interface` | interface.dfy | `R_interface.cpp` validators and the live-fit registry |
| `CrossValidate` | crossvalidate.dfy | `R_interface_crossvalidate.cpp` |
| `Defaults` | defaults.dfy | `model.hpp` |

## Model

| member | source | states |
|---|---|---|
| CutPoints.Insert | src/dbarts/bartFit.cpp:697-698 | inserting into a sorted set of distinct values keeps it strictly increasing and adds exactly the new value |
| CutPoints.Distinct | src/dbarts/bartFit.cpp:697-700 | the distinct values of a column are strictly increasing and are exactly the values occurring in it |
| CutPoints.DistinctOfIncreasing | src/dbarts/bartFit.cpp:697-700 | a column that is already strictly increasing is its own list of distinct values |
| CutPoints.DistinctEnds | src/dbarts/bartFit.cpp:697-724 | the first distinct value is the column's minimum and the last is its maximum |
| CutPoints.FillCuts | src/dbarts/bartFit.cpp:726-729 | cut `i` is the midpoint of the distinct values at `min(i*step+offset, numUnique-2)` and its successor |
| CutPoints.Rebind | src/dbarts/bartFit.cpp:715-729 | rebinding fails exactly when an existing grid would shrink; a first call stores the induced count without warning; a later call keeps the stored count and warns exactly when more cuts were induced |
| CutPoints.MidpointsInsideRange | src/dbarts/bartFit.cpp:723-729 | every quantile cut lies strictly between the column's minimum and maximum |
| CutPoints.QuantileCutsIncreasing | src/dbarts/bartFit.cpp:702-729 | without subsampling the cuts are the midpoints of consecutive distinct values, strictly increasing and strictly inside the column's range |
| CutPoints.SubsampledCutsCollapse | src/dbarts/bartFit.cpp:707-711 | when subsampling, the stride is 0, so every cut, as written, is the first midpoint |
| CutPoints.SubsampledCutsCounterexample | src/dbarts/bartFit.cpp:702-729 | the column 1, 2, 3, 4 with at most 2 cuts gets the grid [1.5, 1.5], which is not increasing |
| CutPoints.SetCutPointsCounterexample | src/dbarts/bartFit.cpp:659-729 | the whole quantile cut-point pass, as written, sets the grid [1.5, 1.5] for that column with no warning |
| CutPoints.CorrectedIndexIncreasing | src/dbarts/bartFit.cpp:707-711 | with the stride `numUnique / numCuts` distinct cuts straddle distinct value pairs in increasing order |
| CutPoints.CorrectedQuantileCutsIncreasing | src/dbarts/bartFit.cpp:702-729 | with the corrected stride the quantile grid is strictly increasing and strictly inside the column's range in both branches |
| CutPoints.RebindUniform | src/dbarts/bartFit.cpp:745-748 | a first call stores `maxNumCuts` uniform cuts; a later call keeps the stored count |
| CutPoints.UniformGridIncreasing | src/dbarts/bartFit.cpp:750-752 | points `min + (i+1)*(max-min)/(count+1)` are strictly increasing and strictly inside `(min, max)` |
| CutPoints.UniformCutsIncreasing | src/dbarts/bartFit.cpp:732-753 | a column with distinct extremes gets strictly increasing uniform cuts strictly inside its range |
| CutPoints.PlanOf | src/dbarts/bartFit.cpp:702-713 | under either stride a column with `numUnique` distinct values gets `min(numUnique - 1, maxNumCuts)` cuts |
| CutPoints.ColumnPlan | src/dbarts/bartFit.cpp:697-713 | a column's plan has fewer cuts than distinct values and at most `maxNumCuts` |
| CutPoints.RebindColumn | src/dbarts/bartFit.cpp:674-687 | one column fails iff it is in quantile mode and its stored grid is larger than the induced count, with the "less than previous" message; the count kept is the stored one, or on a first call the induced count (quantiles) or `maxNumCuts` (uniform); it warns iff a stored quantile grid is smaller than the induced count |
| CutPoints.RebindColumnCuts | src/dbarts/bartFit.cpp:726-752 | the stored quantile cuts are the plan's midpoints at the stored count, with the plan of the chosen stride; uniform cuts divide the column's range evenly |
| CutPoints.RebindAgain | src/dbarts/bartFit.cpp:715-753 | rebinding a column against the grid it was just given succeeds and reproduces that grid |
| CutPoints.SetCutPoints | src/dbarts/bartFit.cpp:659-689 | quantile mode without a cut-limit vector is an error; otherwise the call succeeds iff every listed column could be rebound alone against the old grid, fails only with the "less than previous" message, and each listed column then holds its own rebinding: the plan's midpoints (as written or corrected, per `stride`) in quantile mode, an even division of its range in uniform mode; unlisted columns are untouched and no grid changes its count; the grid an error leaves is `SetCutPointsInPlace` |
| CutPoints.RebindColumns | src/dbarts/bartFit.cpp:674-687 | rebinding columns in order binds each listed column, leaves the others alone, never changes an existing count, and in uniform mode spans each column's range |
| CutPoints.RebindColumnsSucceed | src/dbarts/bartFit.cpp:674-687 | rebinding columns in order succeeds iff rebinding each listed column alone against the grid before the call succeeds |
| CutPoints.RebindColumnsAlone | src/dbarts/bartFit.cpp:674-687 | after a successful rebinding in order, each listed column holds what rebinding it alone against the grid before the call gives, even when it is listed twice |
| CutPoints.RebindAfter | src/dbarts/bartFit.cpp:715-753 | once one column holds its rebinding, every column rebinds against the new grid exactly as against the old one |
| CutPoints.SetInitialCutPoints | src/dbarts/bartFit.cpp:640-657 | starting every column at the sentinel and listing all of them always succeeds; every column is bound with the count its own plan induces (quantile mode) or its cut limit (uniform mode), holding the plan's midpoints or the even division of its range |
| CutPoints.InitialGrid | src/dbarts/bartFit.cpp:640-657 | the pass over all columns from the sentinel, column by column: each is bound with its induced count and cuts |
| CutPoints.AllUnboundSucceeds | src/dbarts/bartFit.cpp:646-648 | a column still at the sentinel can never fail to bind |
| CutPoints.FirstFailure | src/dbarts/bartFit.cpp:674-687 | the position of the first listed column that cannot be rebound against the grid: every column before it can, and it cannot |
| CutPoints.SetCutPointsInPlace | src/dbarts/bartFit.cpp:674-687 | the grid `setCutPoints` leaves, an error included: the columns listed before the first failing one hold their own rebinding, every other column (the failing one included) is as before, and the call succeeds iff no listed column fails, when this is its grid |
| CutPoints.InPlacePrefix | src/dbarts/bartFit.cpp:674-687 | rewriting in place until the first failure equals a successful pass over the columns before it |
| CutPoints.InPlaceStops | src/dbarts/bartFit.cpp:674-687 | the columns listed after the first failing one play no part in the grid an interrupted pass leaves |
| CutPoints.InPlaceSucceeds | src/dbarts/bartFit.cpp:674-687 | wherever a pass in order succeeds, rewriting each column in place gives that pass's grid |
| CutPoints.FirstFailureAfter | src/dbarts/bartFit.cpp:715-753 | rebinding one column does not move the first failure among the listed columns |
| Rescale.ScaleOf | src/dbarts/bartFit.cpp:819-825 | the recorded range is positive and equals max minus min of the offset-adjusted response |
| Rescale.RescaleResponse | src/dbarts/bartFit.cpp:808-832 | every rescaled value lies in [-0.5, 0.5], both ends are reached, and mapping back and adding the offset gives the response |
| Rescale.RescaledValues | src/dbarts/bartFit.cpp:826-831 | the three in-place passes `-min`, `/range`, `-0.5` give values in [-0.5, 0.5] that map back to the response |
| Rescale.InitializeLatents | src/dbarts/bartFit.cpp:779-792 | each latent `z` satisfies `(z + 1 + offset) / 2 == y` |
| Rescale.LatentsOfBinaryResponse | src/dbarts/bartFit.cpp:785-789 | without an offset a 0/1 response starts at latent -1/1 |
| Rescale.SetPrior | src/dbarts/bartFit.cpp:629-638 | sigma is 1 for a binary response and the estimate divided by the range otherwise; the prior scale is multiplied by sigma squared |
| Rescale.StoreSamples | src/dbarts/bartFit.cpp:882-925 | training fits are stored exactly when kept; every stored training and test value, less its offset, rescales back to the sampler's fit (a binary fit is stored as the fit plus offset); binary sigma is stored as 1; continuous sigma is multiplied by the range; variable counts are copied |
| Rescale.ToResponseScale | src/dbarts/bartFit.cpp:904-915 | `range*0.5 + min + range*f + offset` inverts to `f` by subtracting the offset and rescaling; binary fits only gain the offset |
| Rescale.UnscaleInverse | src/dbarts/bartFit.cpp:906-907 | rescaling `range*0.5 + min + range*f` gives back `f` |
| Rescale.StoreSamplesInvertsRescale | src/dbarts/bartFit.cpp:906-909 | storing the rescaled response as training fits returns the original response |
| Rescale.StoredSigmaOfPrior | src/dbarts/bartFit.cpp:636-637 | the starting sigma of a continuous fit is stored as the caller's sigma estimate |
| Rescale.Reset | src/dbarts/bartFit.cpp:78-90 | after rescaling, sigma and the prior scale mean the same on the response scale as before |
| Rescale.ConvertSigma | src/dbarts/bartFit.cpp:79-88 | re-expressed sigma times the new range equals old sigma times the old range |
| Rescale.ConvertScale | src/dbarts/bartFit.cpp:80-90 | a prior scale times the squared range is preserved, and only an existing scale is converted |
| Rescale.SetResponse | src/dbarts/bartFit.cpp:78-90 | the new response is installed and rescaled, the offset is kept, and sigma is unchanged on the response scale |
| Rescale.SetOffset | src/dbarts/bartFit.cpp:99-111 | the new offset is installed and the response rescaled, and sigma is unchanged on the response scale |
| Rescale.SetResponseIdempotent | src/dbarts/bartFit.cpp:78-90 | setting the response it already has leaves a continuous fit unchanged |
| Schedule.ResultSlots | src/dbarts/bartFit.cpp:369-370 | at least one result slot is allocated, and at least `numSamples` |
| Schedule.SimNumInRange | src/dbarts/bartFit.cpp:439-442 | every iteration's slot lies inside the results buffer, and after burn-in below `numSamples` |
| Schedule.NextIteration | src/dbarts/bartFit.cpp:395-397 | iteration `k` is retained iff `k % thin == thin - 1`, and only then does the next iteration start a new major iteration |
| Schedule.LastMajorStep | src/dbarts/bartFit.cpp:437-447 | one more major iteration overwrites exactly its own slot |
| Schedule.RunSchedule | src/dbarts/bartFit.cpp:362-478 | with a loop counter as wide as the iteration count: no results exactly when no samples were requested; `burnIn + samples` stores happen; slot `j` ends holding iteration `(burnIn+j)*thin + thin - 1` |
| Schedule.Counter32 | src/dbarts/bartFit.cpp:395 | the `uint32_t` counter stays below 2^32 and counts exactly until it wraps |
| Schedule.CounterNeverExits | src/dbarts/bartFit.cpp:380-395 | once `(burnIn + samples) * thin` reaches 2^32, every value of the 32-bit counter passes the loop guard, and the counter repeats with period 2^32 |
| Schedule.CounterWrapsCounterexample | src/dbarts/bartFit.cpp:380-395 | 100000 samples thinned by 50000 make 5·10^9 iterations, and the counter wraps to 0 below that |
| Ensemble.InitialFit | src/dbarts/bartFit.cpp:756-771 | one fit vector of `n` entries per tree and one test total per test observation |
| Ensemble.InitialFitConsistent | src/dbarts/bartFit.cpp:756-771 | the initial totals are the sum of the initial tree fits |
| Ensemble.ResidualsExcludeOwnTree | src/dbarts/bartFit.cpp:834-841 | the residual of tree `t` is the response minus the sum of every other tree's fits |
| Ensemble.UpdateTotalFitsKeepsConsistent | src/dbarts/bartFit.cpp:843-848 | replacing one tree's fits and updating the total keeps the total equal to the sum of tree fits |
| Ensemble.AfterTrees | src/dbarts/bartFit.cpp:407-430 | the reference sweep: the state after the first `k` trees are redrawn in order keeps the total equal to the sum of tree fits, and the trees not yet reached keep their old fits |
| Ensemble.TreeResidual | src/dbarts/bartFit.cpp:411-412 | the residual tree `t` is fitted to is the response minus the fits of every other tree, the earlier ones already holding their new draws |
| Ensemble.AfterTreesHoldsDraws | src/dbarts/bartFit.cpp:420-430 | after the first `k` trees are redrawn, each of them holds the training fits of its own draw on its residual |
| Ensemble.SweepStateDetermined | src/dbarts/bartFit.cpp:407-430 | tree fits that hold every tree's draw, with a total consistent with them, are exactly the reference state after all trees |
| Ensemble.Sweep | src/dbarts/bartFit.cpp:404-431 | every tree's fits are replaced by its draw on its sequential residual, and the total fits are the sum of the tree fits, so the sweep ends in the reference state after all trees; each tree's test fits are its draw's test fits; on a retained iteration the test totals are their sum, otherwise they are untouched |
| Ensemble.AppendTreeKeepsConsistent | src/dbarts/bartFit.cpp:958-968 | adding one more tree's fits to a consistent total keeps it consistent |
| Ensemble.UpdateTrainingFits | src/dbarts/bartFit.cpp:927-945 | every tree gets its new fits and the total is their sum |
| Ensemble.UpdateTestFits | src/dbarts/bartFit.cpp:947-973 | the test totals are the sum of every tree's test fits |
| Routing.LeafCount | src/bart/tree.cpp:51-52 | a tree has at least one bottom node |
| Routing.Route | src/bart/tree.cpp:29-31 | a row reaches a bottom node whose enumeration index is below the number of bottom nodes |
| Routing.RouteFollowsPath | src/bart/tree.cpp:29-31 | the routed index is the position of the row's path in the bottom-node enumeration |
| Routing.LeafPathsDistinct | src/bart/tree.cpp:51-52 | distinct bottom nodes have distinct paths |
| Routing.RouteUnique | src/bart/tree.cpp:29-31 | the routed index is the only bottom node listing the row's path |
| Routing.ObservationMap | src/bart/tree.cpp:19-35 | no map for zero observations; otherwise one entry per row, each the index of the bottom node that row `i` (offset `i*p`) follows the path to |
| Routing.MapIsRoute | src/bart/tree.cpp:28-32 | map entry `i` is the route of row `i` |
| Routing.RoutesFollowPaths | src/bart/tree.cpp:28-32 | every row's routed index lists that row's path |
| Routing.CurrentFits | src/bart/tree.cpp:49-74 | each training and test observation gets the prediction of the bottom node it reaches |
| Routing.TestFits | src/bart/tree.cpp:67-70 | test fit `i` is the prediction of the bottom node test row `i` is routed to |
| Routing.NodeAverages | src/bart/tree.cpp:39-47 | every bottom node is visited once, in order, with exactly the training observations routed to it |
| Routing.NodeObservations | src/bart/tree.cpp:39-47 | the observations handed to a bottom node are exactly those routed to it |
| Routing.ObservationsBelow | src/bart/tree.cpp:39-47 | the observations below a bound routed to a node are exactly listed |
| Routing.CountsAdded | src/bart/tree.cpp:76-78 | counting a tree's rules into `counts` adds each variable's rule count to its entry |
| Routing.CountVariableUses | src/bart/tree.cpp:76-78 | each variable's count grows by the number of rules splitting on it |
| Routing.CountVariableUsesTotal | src/bart/tree.cpp:76-78 | the counts grow in total by the number of bottom nodes minus one |
| Routing.SplitsPerVariableTotal | src/dbarts/bartFit.cpp:976-983 | counted per variable, the rules add up to all the rules of the tree |
| Routing.LeavesExceedSplits | src/bart/tree.cpp:51-52 | a tree has one more bottom node than rules |
| TestData.SetTestPredictorAndOffset | src/dbarts/bartFit.cpp:256-288 | a zero count or a missing matrix removes all test data and the offset; otherwise the matrix, its row-major copy and the offset are installed (or kept when asked) and the test totals are the sum of the trees' test fits |
| TestData.SetTestPredictor | src/dbarts/bartFit.cpp:247-249 | new test data keeps the existing offset |
| TestData.SetTestOffset | src/dbarts/bartFit.cpp:251-253 | only the offset changes |
| TestData.UpdateTestFits | src/dbarts/bartFit.cpp:947-973 | the test totals are the sum of every tree's test fits |
| TestData.UpdateTestPredictors | src/dbarts/bartFit.cpp:294-308 | the listed columns are overwritten (the last listing of a column wins) in both layouts, other columns and the offset are kept, and the totals are recomputed |
| Matrix.ToRowMajorIndex | src/dbarts/bartFit.cpp:131-135 | `Xt[row*p+col] == X[row+col*n]` |
| Matrix.RowMajorRoundTrip | src/dbarts/bartFit.cpp:131-135 | converting to row-major and back gives the column-major matrix |
| Matrix.RowsOfRowMajor | src/dbarts/bartFit.cpp:131-135 | the rows of the row-major copy are the transposed columns |
| Matrix.ReplaceColumnCommutes | src/dbarts/bartFit.cpp:190-194 | replacing a column and then transposing equals transposing and then replacing the column's entries in each row |
| Matrix.WithColumns | src/dbarts/bartFit.cpp:190-191 | the listed columns are replaced (last listing wins) and every other column is kept |
| Matrix.WriteColumns | src/dbarts/bartFit.cpp:188-195 | writing the columns entry by entry into both layouts leaves the row-major copy in step with the matrix |
| Matrix.ReplacedEntries | src/dbarts/bartFit.cpp:190-195 | entry `j` after replacement is the last new value listed for `j`, or the old one |
| PredictorUpdate.RefreshUntilInvalid | src/dbarts/bartFit.cpp:205-216 | trees are recomputed in order until one is invalid; `treeNum` stops one past it; all valid iff every recomputed tree is valid |
| PredictorUpdate.RestoreCutPoints | src/dbarts/bartFit.cpp:220-223 | saved cut arrays are copied back at the current counts |
| PredictorUpdate.Rollback | src/dbarts/bartFit.cpp:219-231 | copying columns and cuts back and recomputing the touched trees, the failing one included, restores the fit exactly |
| PredictorUpdate.TreesRestored | src/dbarts/bartFit.cpp:231 | recomputing trees `0 .. treeNum-1` on the old data gives back the original trees |
| PredictorUpdate.RestoredColumns | src/dbarts/bartFit.cpp:220-227 | writing the saved columns back restores the original matrix |
| PredictorUpdate.RestoredGrid | src/dbarts/bartFit.cpp:223 | copying the saved cut arrays back restores the original grid |
| PredictorUpdate.Install | src/dbarts/bartFit.cpp:186-234 | when a tree is invalid the fit is unchanged; otherwise the new columns and grid are installed, tree structures are kept and tree fits are recomputed; success iff every refreshed tree is valid |
| PredictorUpdate.UpdatePredictorsAsWritten | src/dbarts/bartFit.cpp:172-244 | the grid is computed from the old columns with the stride as written, as the program does; it fails iff that fails, and the fit it then leaves has the partially rebound grid of `SetCutPointsInPlace` with the old columns and trees, as nothing rolls the error back; an invalid tree leaves the fit unchanged; otherwise the new columns are installed with that grid |
| PredictorUpdate.UpdatePredictors | src/dbarts/bartFit.cpp:172-244 | the intended update, with the grid computed from the new columns and the corrected stride: it fails iff that rebinding fails; it succeeds with the new columns and their grid iff every tree is valid on them; otherwise the fit is unchanged |
| PredictorUpdate.GridFrom | src/dbarts/bartFit.cpp:186 | the grid computed for the listed columns under the chosen stride keeps every count and binds those columns; no cut-limit vector means an error |
| PredictorUpdate.StaleGridCounterexample | src/dbarts/bartFit.cpp:186-195 | replacing the column 1, 2 by 3, 4 leaves the as-written grid at 1.5, outside the new range, while the corrected grid is 3.5 |
| PredictorUpdate.CorrectedCutsInsideNewColumns | src/dbarts/bartFit.cpp:186-195 | in quantile and in uniform mode the corrected update gives every listed column with distinct extremes a strictly increasing grid strictly inside the new column's range |
| MeanNormal.Prepare | src/dbarts/endNodeModel.cpp:256-284 | in all four top/inner and weighted/unweighted cases, the count is the node's effective count and `mu` its weighted mean |
| MeanNormal.PrepareTop | src/dbarts/endNodeModel.cpp:262-274 | the top node summarizes every observation |
| MeanNormal.PrepareInner | src/dbarts/endNodeModel.cpp:267-278 | an inner node summarizes the observations at its indices |
| MeanNormal.UpdateMemberships | src/dbarts/endNodeModel.cpp:286-301 | only the count is recomputed: the node size without weights, the total or indexed weight sum with them |
| MeanNormal.MembershipsAgreeWithPrepare | src/dbarts/endNodeModel.cpp:256-301 | the count from memberships equals the count a full preparation computes |
| MeanNormal.FromChildren | src/dbarts/endNodeModel.cpp:304-313 | parent count is the sum of the children's, parent mean the count-weighted average |
| MeanNormal.FromChildrenIsUnionMean | src/dbarts/endNodeModel.cpp:304-313 | merging the statistics of two index lists equals preparing their concatenation |
| MeanNormal.MergeSummaries | src/dbarts/endNodeModel.cpp:309-312 | merging adds counts and weighted sums |
| MeanNormal.StoreScratch | src/dbarts/endNodeModel.cpp:233-239 | both fields are copied out |
| MeanNormal.RestoreScratch | src/dbarts/endNodeModel.cpp:241-247 | both fields are copied back and no other node changes |
| MeanNormal.StoreRestoreRoundTrip | src/dbarts/endNodeModel.cpp:233-247 | store, change, restore gives back the nodes as they were |
| MeanNormal.LogPrior | src/dbarts/endNodeModel.cpp:166-172 | the log prior is never positive and is zero at a zero mean |
| MeanNormal.LogIntegratedLikelihood | src/dbarts/endNodeModel.cpp:174-193 | an empty node contributes 0; for a logarithm non-positive on (0,1] and a non-negative variance the result is non-positive |
| MeanNormal.LikelihoodTermsSigns | src/dbarts/endNodeModel.cpp:186-190 | the log's argument lies in (0,1] and both subtracted terms are non-negative |
| MeanNormal.PosteriorMean | src/dbarts/endNodeModel.cpp:207-209 | the posterior mean has the sign of `mu`, is no larger in magnitude, and is 0 without effective observations |
| MeanNormal.Shrinkage | src/dbarts/endNodeModel.cpp:209 | `d*mu/(precision+d)` lies between 0 and `mu` |
| MeanNormal.PredictionIsConstant | src/dbarts/endNodeModel.cpp:216-221 | a node's prediction does not depend on the features |
| MeanNormal.GetPredictions | src/dbarts/endNodeModel.cpp:223-231 | `mu` is written at exactly the node's observations and every other entry is unchanged |
| MeanNormal.ObservationsAreMembers | src/dbarts/endNodeModel.cpp:227-230 | the top node holds the first `n` observations and an inner node its index list |
| LinearRegression.DesignColumn | src/dbarts/endNodeModel.cpp:787-792 | a design column is 1.0 followed by the observation's predictors |
| LinearRegression.ModelXt | src/dbarts/endNodeModel.cpp:425-432 | the model design has `p+1` entries per observation |
| LinearRegression.NodeXt | src/dbarts/endNodeModel.cpp:780-798 | a node design has `p+1` entries per observation of the node |
| LinearRegression.NodeColumns | src/dbarts/endNodeModel.cpp:785-792 | column `k` of a node design is the design column of observation `indices[k]` |
| LinearRegression.NodeXtIndex | src/dbarts/endNodeModel.cpp:789-791 | entry `k*(p+1)+j+1` of a node design is predictor `j` of observation `indices[k]` |
| LinearRegression.NodeXtIntercept | src/dbarts/endNodeModel.cpp:787 | entry `k*(p+1)` of a node design is 1.0 |
| LinearRegression.TopDesignAgrees | src/dbarts/endNodeModel.cpp:425-432 | the model design built from column-major data equals the node design over all observations built from the row-major copy |
| LinearRegression.NodeDesign | src/dbarts/endNodeModel.cpp:700-733 | a node stores one design column and one response per observation |
| LinearRegression.FromChildren | src/dbarts/endNodeModel.cpp:757-773 | a top parent uses the model design and full response; any other parent stores the left child's design and response followed by the right's |
| LinearRegression.ChildrenConcatenate | src/dbarts/endNodeModel.cpp:757-769 | concatenating the children's designs gives the design of the merged node |
| LinearRegression.GetPrediction | src/dbarts/endNodeModel.cpp:530-536 | the prediction is the design column's dot product with the coefficients |
| LinearRegression.InterceptFirst | src/dbarts/endNodeModel.cpp:530-536 | that dot product is `coef[0] + sum_j x_j*coef[j+1]` |
| LinearRegression.ColumnPrediction | src/dbarts/endNodeModel.cpp:546-553 | the node design's column `k` times the coefficients is the prediction for observation `indices[k]` |
| LinearRegression.AllFitted | src/dbarts/endNodeModel.cpp:543-545 | the top-node product gives every observation its prediction |
| LinearRegression.NodePredictions | src/dbarts/endNodeModel.cpp:547-550 | an inner node's product gives one prediction per node observation, in order |
| LinearRegression.GetPredictions | src/dbarts/endNodeModel.cpp:538-555 | every observation of the node gets its prediction and other entries are unchanged |
| Interface.ReadFlag | src/R_interface.cpp:401-427 | a logical flag is read iff it has the required length and is not NA |
| Interface.ReadCount | src/R_interface.cpp:431-487 | an integer setting is accepted iff it has the required length, is NA only where a default exists, and otherwise meets its lower bound; NA yields the default |
| Interface.ReadControl | src/R_interface.cpp:397-487 | the control object is accepted iff every slot passes; samples, trees and threads are positive; NA burn-in, threads, thinning, printEvery and printCutoffs take their defaults |
| Interface.ReadReal | src/R_interface.cpp:494-499 | a real setting is read iff it has length 1 and is not NaN |
| Interface.ReadModel | src/R_interface.cpp:490-580 | the model object is accepted iff every probability and prior setting is in range; accepted values are read unchanged |
| Interface.AcceptedMovesNearlySumToOne | src/R_interface.cpp:518-519 | accepted move probabilities sum to 1 within 1e-10 |
| Interface.ToUnsigned32 | src/R_interface.cpp:653-654 | the cast to `uint32_t` wraps negative values by 2^32 |
| Interface.ReadShape | src/R_interface.cpp:587-599 | `y` must be non-empty and `x` a matrix with `len(y)` rows; the column count is the predictor count |
| Interface.ReadVariableTypes | src/R_interface.cpp:601-607 | one type per predictor; 0 is ordinal and anything else categorical |
| Interface.ReadTest | src/R_interface.cpp:609-620 | absent test data gives no test rows; present test data must be a matrix with `p` columns |
| Interface.ReadColumn | src/R_interface.cpp:622-629 | an absent vector is `None`; a present one must have `len(y)` entries |
| Interface.ReadSigma | src/R_interface.cpp:640-646 | a NaN sigma estimate becomes 1.0 and the estimate must then be positive |
| Interface.ReadMaxNumCuts | src/R_interface.cpp:649-655 | one cut limit per predictor, each cast to 32 bits |
| Interface.ReadData | src/R_interface.cpp:583-656 | the data object is accepted iff every shape check passes; fields are read unchanged, with weights and offset each from its own slot |
| Interface.ReadPredictors | src/R_interface.cpp:587-620 | `y`, `x`, the variable types and `x.test` are accepted iff `y` is non-empty, `x` is a matrix with one row per response, there is one type per column and a given test matrix has as many columns; code 0 reads as ordinal |
| Interface.ReadVectors | src/R_interface.cpp:622-646 | weights and offset are each kept exactly when given and must then match `y` in length; a NaN sigma estimate reads as 1, and the estimate must be positive |
| Interface.ReadDataAsWritten | src/R_interface.cpp:631-634 | as written, an absent offset clears the weights; otherwise it agrees with the corrected reader |
| Interface.WeightsDroppedWithoutOffset | src/R_interface.cpp:622-634 | data with weights and no offset loses its weights as written and keeps them when corrected |
| Interface.RunArguments | src/R_interface.cpp:191-207 | a run needs a live fit; NA burn-in and samples fall back to the fit's control; otherwise burn-in is `>= 0` and samples `> 0` |
| Interface.RunDrawsSamples | src/R_interface.cpp:203-207 | an accepted run on an accepted control always draws at least one sample |
| Interface.SetY | src/R_interface.cpp:89-99 | `setY` needs a live fit and a response of the same length; the fit then holds the new response rescaled, with sigma unchanged on the response scale |
| Interface.IsValidPointer | src/R_interface.cpp:101-119 | a pointer is valid iff it is non-null and registered |
| Interface.Create | src/R_interface.cpp:121-157 | a created fit is registered and valid, and nothing is deleted |
| Interface.Finalize | src/R_interface.cpp:62-87 | finalizing a registered fit deletes it once and unregisters it; finalizing anything else is a no-op |
| Interface.FinalizeTwice | src/R_interface.cpp:62-87 | a second finalize changes nothing |
| Interface.FinalizeStaleCopy | src/R_interface.cpp:73-79 | a finalizer reaching an already-unregistered pointer does nothing |
| Interface.FinalizeAll | src/R_interface.cpp:269-289 | unloading deletes every registered fit exactly once and leaves no fit registered |
| Interface.FinalizeAfterFinalizeAll | src/R_interface.cpp:269-289 | a finalizer running after unload changes nothing |
| CrossValidate.ReadCounts | src/R_interface_crossvalidate.cpp:69 | an integer grid is accepted iff it is non-empty and every entry is present and above the bound |
| CrossValidate.ReadReals | src/R_interface_crossvalidate.cpp:70-72 | a real grid is accepted iff it is non-empty and every entry is inside the bounds |
| CrossValidate.ReadSettings | src/R_interface_crossvalidate.cpp:67-90 | settings are accepted iff every check passes; subsequent burn-in is the second entry or a fifth of the first; `numFolds*t <= n < numFolds*(t+1)` for `t = n/numFolds` |
| CrossValidate.ReadGrid | src/R_interface_crossvalidate.cpp:69-72 | the grid is accepted iff each of the tree counts, `k`, powers and bases is non-empty and in range; every entry is read unchanged |
| CrossValidate.ReadBurnIn | src/R_interface_crossvalidate.cpp:73-85 | one or two non-negative entries are accepted; the subsequent burn-in is the second entry, or else a fifth of the first rounded down |
| CrossValidate.FoldArithmetic | src/R_interface_crossvalidate.cpp:90 | for `0 < K < n` the test-set size `n/K` is between 1 and `n`, and is `n` exactly when `K == 1` |
| CrossValidate.Kept | src/R_interface_crossvalidate.cpp:146-149 | kept dims are counts above 1, a count is kept iff it occurs and exceeds 1, and none are kept iff every count is at most 1 |
| CrossValidate.KeptConcat | src/R_interface_crossvalidate.cpp:146-152 | dropping works piecewise on a concatenation, so the kept counts stay in order |
| CrossValidate.KeptSingle | src/R_interface_crossvalidate.cpp:148-151 | a single count is kept iff it exceeds 1; with `KeptConcat` this makes dropping the order-preserving filter |
| CrossValidate.KeptFour | src/R_interface_crossvalidate.cpp:148-151 | the kept grid counts are each of the four counts above 1, in order |
| CrossValidate.DroppedDims | src/R_interface_crossvalidate.cpp:143-152 | the kept grid counts followed by the repetitions, written out count by count |
| CrossValidate.ProductKept | src/R_interface_crossvalidate.cpp:141-152 | dropping unit dims keeps the product |
| CrossValidate.AllocateResult | src/R_interface_crossvalidate.cpp:138-158 | length is the product of the five counts; without drop there are 5 dims; with drop the dims are exactly each grid count above 1, in the order trees, k, power, base, then `numReps`, and there is no dim attribute iff all four grid counts are at most 1 |
| CrossValidate.PosteriorMeans | src/R_interface_crossvalidate.cpp:188-192 | `yHat[i]` is the mean over `j` of `testSamples[i + j*nTest]` |
| CrossValidate.SquaredResiduals | src/R_interface_crossvalidate.cpp:194 | one non-negative squared residual per test observation |
| CrossValidate.SumZeroIff | src/R_interface_crossvalidate.cpp:194 | a sum of non-negative terms is zero iff each term is |
| CrossValidate.ResidualSumZeroIff | src/R_interface_crossvalidate.cpp:194 | the residual sum is non-negative and zero iff every squared residual is zero |
| CrossValidate.MseLoss | src/R_interface_crossvalidate.cpp:182-195 | the MSE is non-negative, times `nTest` it is the sum of squared residuals, and it is zero iff every squared residual is |
| CrossValidate.MeanSquare | src/R_interface_crossvalidate.cpp:195 | the mean of the squared residuals is non-negative, is zero iff each squared residual is, and is zero when predictions equal the responses |
| CrossValidate.Misclassified | src/R_interface_crossvalidate.cpp:222-232 | `fp + fn` is the number of positions where the prediction differs from the response and `fn` the number of those where the response is 1; so `fp + fn` is at most `n`, zero iff every prediction is right, `n` iff every one is wrong |
| CrossValidate.MismatchesStep | src/R_interface_crossvalidate.cpp:222-232 | one more observation adds one mismatch iff its prediction is wrong, and one false negative iff it is also a 1 |
| CrossValidate.Classify | src/R_interface_crossvalidate.cpp:225-228 | a prediction is 1 when the mean probability exceeds 0.5 and 0 otherwise |
| CrossValidate.Classifications | src/R_interface_crossvalidate.cpp:223-232 | one 0/1 prediction per test observation |
| CrossValidate.McrLoss | src/R_interface_crossvalidate.cpp:216-235 | the rate times the number of test observations is the number of misclassified ones; it is in [0,1], 0 iff every prediction is right, 1 iff every one is wrong |
| CrossValidate.FractionBounds | src/R_interface_crossvalidate.cpp:234 | `count/n` times `n` is `count`; it is in [0,1], 0 iff `count == 0` and 1 iff `count == n` |
| CrossValidate.NonBinaryResponseMisclassified | src/R_interface_crossvalidate.cpp:229-231 | a response with no 0/1 values has an MCR of 1 |
| CrossValidate.CreateLossDefinitionAsWritten | src/R_interface_crossvalidate.cpp:290-368 | as written only a name can succeed: a generic `list(...)` and any other type reach the final "lossType must be" error, and a pairlist fails on its length or on R's `VECTOR_ELT` refusal |
| CrossValidate.CreateLossDefinition | src/R_interface_crossvalidate.cpp:290-368 | the intended dispatch: a single "mse" or "mcr" gives a one-result loss of that kind, and other names or lengths are errors; a generic list must be exactly (closure, environment); a pairlist or any other type is the "lossType must be" error |
| CrossValidate.CustomLossCounterexample | src/R_interface_crossvalidate.cpp:330-334 | `list(closure, env)` is refused as written and accepted as intended, and a pairlist of the two fails on `VECTOR_ELT` |
| CrossValidate.NamedLoss | src/R_interface_crossvalidate.cpp:294-329 | a name vector is accepted iff it holds exactly one of "mse" and "mcr", which selects that one-result loss |
| CrossValidate.CustomLoss | src/R_interface_crossvalidate.cpp:331-362 | the intended custom branch: a list is accepted iff it is exactly a closure followed by an environment; the result count is the trial call's length |
| Defaults.DefaultModel | inst/include/bart/model.hpp:38-44 | the default move probabilities pass the R validator and sum to 1, birth is in (0,1), and no prior is set |
| Defaults.DefaultNormalPrior | inst/include/bart/model.hpp:112 | the default precision is 1 |
| Defaults.DefaultChiSquaredPrior | inst/include/bart/model.hpp:126-128 | the default prior has 3 degrees of freedom and scale 1 |
| Defaults.SetScale | inst/include/bart/model.hpp:133 | setting the scale keeps the degrees of freedom |
| Defaults.ScaleRoundTrip | inst/include/bart/model.hpp:132-133 | the scale read back is the one set, and setting the current scale changes nothing |
| Defaults.DefaultsAccepted | inst/include/bart/model.hpp:8-19 | R slots holding the compiled-in defaults pass the model validator and read back as those defaults |
| Defaults.SplitProbability | inst/include/bart/model.hpp:86-87 | `base/(1+depth)^power` is positive, at most `base`, and equal to `base` at depth 0 |
| Defaults.SplitProbabilityDecreases | inst/include/bart/model.hpp:86-87 | deeper nodes split no more readily than shallower ones |
| Defaults.DefaultRootSplit | inst/include/bart/model.hpp:18-19 | the default root split probability is the base 0.95, below 1 |

## Left out

- Random draws are not modelled; a draw that a contract needs is a parameter. This covers the truncated-normal latent updates, the normal draws of the end-node posteriors and priors, and the residual-variance draws. `Ensemble.Sweep` takes each tree's new fits from a `draw` function.
- Ensemble.Sweep: on a thinning iteration the program asks a tree for no test fits (bartFit.cpp:421), while the model still returns the draw's test fits for every tree. Nothing reads them on such an iteration, since the test totals are left alone.
- Tree structure moves (birth, death, swap, change), the CGM prior's implementation and the Node internals are not part of this model. `findBottomNode` is not part of this model either: routing follows the `x <= c` goes left rule printed by the sampler's summary, and tree validity is a caller-supplied predicate.
- Logarithms, square roots and the linear-regression crossproduct, Cholesky factor and triangular solves are left out. `MeanNormal.LogIntegratedLikelihood` takes the logarithm and the node variance as parameters.
- The k-to-precision conversion and the chi-squared scale computed from a quantile need quantile functions, which are not modelled.
- Thread-pool reductions are modelled as sequential sums and means.
- Saving and loading fits, printing, timing and verbose output are left out.
- R binding mechanics are left out: SEXP access, class checks, PROTECT, finalizer registration and the mutex. The registry keeps only what finalizers read.
- The evaluation of a custom loss closure is left out: R evaluates it, so its result length is the parameter `trialLength`. Φ in the MCR loss is a parameter `phi`.
- `MATCH_BAYES_TREE` alternatives are left out.
- NaN and division by zero are excluded by preconditions, for example a constant response in `Rescale.Rescalable`.
- The `rc_check*` helpers are not part of this model. The cross-validation checks treat an NA entry as rejected, except for the thread count, where NA is allowed explicitly.
- Only the first `numReps` entry is read, as the source does.
- The loss-name matcher is taken to be an exact match against "mse" and "mcr".
- control.hpp and data.hpp are not part of this model. The default `printEvery` is a parameter of `Interface.ReadControl`, and a `Data` built without an offset slot is taken to have no offset.
- `Interface.SetY` covers continuous fits only. For a binary fit, `setResponse` redraws the latents, which is random.
- With `K == 1` the cross-validation test set holds all `n` observations, as the integer division gives.
- maxNumCuts values above 2^32 - 2 are outside `CutPoints`, because `maxNumCuts + 1` would wrap in 32 bits.
- Defaults.SplitProbability: covers whole-number powers only (the default power is 2.0). A real exponent needs a real power function.
- CrossValidate.MseLoss: does not state that a zero loss means perfect predictions. It only shows that every squared residual is then zero, because the solver cannot relate a zero square to a zero base through the function result.
- CrossValidate.Square: states `r >= 0` and zero at zero, but not that `r > 0` for a non-zero base, for the same reason.
- Schedule.RunSchedule: counts iterations with a counter as wide as the iteration count, so every run ends. The source's `uint32_t` counter never exits once `(burnIn + samples) * thin` reaches 2^32 (see "## Findings"). For smaller runs the two agree.
- PredictorUpdate.UpdatePredictors: is the intended update. It fixes both the stale grid and the quantile stride, so for a subsampled quantile column its grid differs from the one the program builds. `PredictorUpdate.UpdatePredictorsAsWritten` is the program's update. On a cut-point error the intended update reports the failure and does not describe the partial grid the program leaves; the as-written update does.
- PredictorUpdate.UpdatePredictorsAsWritten: memory is not modelled, so the saved columns and cut arrays that leak when `setCutPoints` throws out of `updatePredictors` are not shown.
- CutPoints.SetCutPoints: requires a cut-limit vector in uniform mode. Without one the program dereferences a null pointer (bartFit.cpp:686), and the R interface always allocates the vector (R_interface.cpp:649-655), so the case does not arise.
- Interface.Finalize: the registry is keyed on the handle, while the program's set of live fits compares the addresses the handles point to (R_interface.cpp:47-50). The two differ only when two live handles share an address, which no reachable state has.
- MeanNormal.LogPrior: states `r <= 0` and zero at a zero mean, but not `r < 0` for a non-zero mean, for the same reason.

## Findings

| source | as written | input that shows it | evidently intended | confidence | as-written member | corrected member |
|---|---|---|---|---|---|---|
| src/dbarts/bartFit.cpp:707-711 | when subsampling quantiles, `step = numCuts / numUniqueElements`, which is 0 because `numCuts < numUniqueElements`, so every cut is the first midpoint | a column 1, 2, 3, 4 with at most 2 cuts gets the grid [1.5, 1.5] | `step = numUniqueElements / numCuts`, which spreads the cuts over the distinct values | not executed | CutPoints.SubsampledCutsCounterexample | CutPoints.CorrectedQuantileCutsIncreasing |
| src/dbarts/bartFit.cpp:380-395 | the loop counter is `uint32_t` while `totalNumIterations` is `size_t` | 100000 samples thinned by 50000: 5·10^9 iterations, so the counter wraps before the guard fails and the loop never ends | a counter as wide as `totalNumIterations` | not executed | Schedule.CounterWrapsCounterexample | Schedule.RunSchedule |
| src/dbarts/bartFit.cpp:186-195 | `updatePredictors` calls `setCutPoints` while `X` still holds the old columns, and copies the new columns in afterwards | one column 1, 2 with one uniform cut at 1.5, replaced by 3, 4: the grid stays at 1.5, below every new value | compute the cut points from the new columns | not executed | PredictorUpdate.StaleGridCounterexample | PredictorUpdate.CorrectedCutsInsideNewColumns |
| src/R_interface_crossvalidate.cpp:330-334 | the custom-loss branch is guarded by `Rf_isList`, which holds only for `NULL` and pairlists, and reads the elements with `VECTOR_ELT`, which R refuses on a pairlist | `lossType = list(f, env)`, a generic vector, reaches the error "lossType must be a character string or list(closure, env)"; no argument reaches the custom branch's success | test for a generic vector (`Rf_isNewList`), the `list(closure, env)` the error message names | not executed; rests on R's definition of `isList` | CrossValidate.CustomLossCounterexample | CrossValidate.CreateLossDefinition |
| src/R_interface.cpp:631-634 | an absent offset sets `data.weights = NULL` instead of `data.offset` | y = 1, 2 with weights 2, 3 and no offset: the weights are dropped | clear the offset and keep the weights | not executed | Interface.WeightsDroppedWithoutOffset | Interface.ReadData |
