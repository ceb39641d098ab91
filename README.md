# Speciation parameter of a tree-dating MCMC sampler, in Dafny

This project models the `Speciation` parameter of a Bayesian tree-dating
sampler. The parameter owns the rates of the birth-death(-sampling) process
that generates a tree's branching times:

- the primary rates: relative death mu/lambda, net diversification
  lambda - mu, the extant-sampling fraction s, and the extant sampling
  probability rho;
- the derived rates: birth rate lambda, death rate mu and fossil sampling
  rate psi.

It proposes new values for these rates with two bounded kernels:

- an additive sliding window that mirrors the value at whichever bound it
  crosses;
- a multiplicative scale move that mirrors it in log space.

Under regime 2 (relative death fixed at 0) the parameter hands the log
Metropolis-Hastings ratio back to its caller. Under regimes 3 and above it runs its own accept/reject test against the tree for each rate
and reverts on rejection. All arithmetic is over `real`.

The model has three modules:

- `Reflection` (`reflection.dfy`): the arithmetic of the two reflection
  kernels. It holds the termination budgets of their loops, the orbit that
  additive reflection moves a value along, and the proof that this orbit
  meets the range in exactly one point. It also holds the single
  multiplicative reflection.
- `BirthDeathRates` (`rates.dfy`):
  - the seven rates as a value `Rates`;
  - the derived-rate formulas and the identities they satisfy;
  - the start-up logic of the constructor, as a pure function `StartupRates`
    that ends in `Started` or `Exited`.
- `ParameterSpeciation` (`speciation.dfy`):
  - the class `Speciation`, with the seven rate fields and every operation
    of the source as a method that updates them in place;
  - the specification functions the tree-aware moves are proved against;
  - the stand-ins for the collaborators: a `Model` class for the model
    context and a `Tree` datatype for the tree.

Collaborators and I/O become parameters:

- every uniform draw of the random source is a method argument within its
  interval;
- `exp(c)` of a scale move is a positive multiplier `expC`;
- `log` and the overflow-safe exponentiation are uninterpreted functions
  held by `Model`;
- the tree's node-prior queries are uninterpreted functions held by `Tree`.

The tree-aware moves also return, as ghost outputs, the proposal they made
and whether they accepted it. Their contracts state the new state in terms
of those.

## Model

| member | source | states |
|---|---|---|
| Reflection.Bernoulli | src/Parameter_speciaton.cpp:206-213 | q^k >= 1 + k(q - 1) for q >= 1. This bounds how many multiplicative reflections the scale loop can take. |
| Reflection.PowAtLeastOne | src/Parameter_speciaton.cpp:206-213 | Powers of a ratio q >= 1 stay at least 1. |
| Reflection.WindowSteps | src/Parameter_speciaton.cpp:223-230 | A whole number of window widths covers any distance outside the range. This is the budget that makes the window loop terminate. |
| Reflection.ScaleSteps | src/Parameter_speciaton.cpp:206-213 | For 0 < b <= a and q > 1, some k gives a <= b * q^k. |
| Reflection.ScaleBudgetSteps | src/Parameter_speciaton.cpp:206-213 | Every positive starting value of the scale loop has a finite budget of reflections at ratio hi/lo. |
| Reflection.ScaleBudgetLow | src/Parameter_speciaton.cpp:207-208 | Reflecting a value below lo as lo*lo/v spends one step of the budget and lands strictly above lo. |
| Reflection.ScaleBudgetHigh | src/Parameter_speciaton.cpp:209-210 | Reflecting a value above hi as hi*hi/v spends one step of the budget and lands strictly below hi, still positive. |
| Reflection.ScaleBelowStep | src/Parameter_speciaton.cpp:207-208 | Reflection at lo needs at least one budget step, and an overshoot beyond hi is bounded by one step less. |
| Reflection.ScaleAboveStep | src/Parameter_speciaton.cpp:209-210 | Reflection at hi needs at least one budget step, and an undershoot below lo is bounded by one step less. |
| Reflection.WindowStep | src/Parameter_speciaton.cpp:224-227 | One additive reflection needs a budget of at least one window width and reduces the distance outside the range by one width. |
| Reflection.MirrorLowPoint | src/Parameter_speciaton.cpp:224-225 | The reflection 2*vmin - nv maps each orbit point of the start value to an orbit point of the other mirror class. |
| Reflection.MirrorHighPoint | src/Parameter_speciaton.cpp:226-227 | The reflection 2*vmax - nv maps each orbit point to an orbit point of the other mirror class, one period on. |
| Reflection.OrbitPointInOrbit | src/Parameter_speciaton.cpp:223-230 | Every value the window loop holds lies in the orbit of the start value. |
| Reflection.OrbitPointUnique | src/Parameter_speciaton.cpp:223-230 | The orbit of a value meets [vmin, vmax] in exactly one point. So the window kernel's result does not depend on any choice along the way. |
| Reflection.SamePeriodClass | src/Parameter_speciaton.cpp:223-230 | Two in-range points a whole number of periods apart coincide. |
| Reflection.MirroredPeriodClass | src/Parameter_speciaton.cpp:223-230 | An in-range point of the direct class and one of the mirrored class coincide. |
| Reflection.ScaleReflectOnce | src/Parameter_speciaton.cpp:207-210 | One multiplicative reflection leaves an in-range value alone. It brings any value within one reflection of the range into [lo, hi]. |
| Reflection.ReflectBelowInRange | src/Parameter_speciaton.cpp:207-208 | lo*lo/x > lo for 0 < x < lo. The image is at most hi exactly when x >= lo*lo/hi. |
| Reflection.ReflectAboveInRange | src/Parameter_speciaton.cpp:209-210 | hi*hi/x < hi for x > hi. The image is at least lo when x <= hi*hi/lo. |
| Reflection.OneReflectionSuffices | src/Parameter_speciaton.cpp:202-210 | A value in [lo, hi] scaled by a multiplier between lo/hi and hi/lo lands where a single reflection brings it back. There the scale kernel's result is exact. |
| BirthDeathRates.WithDerived | src/Parameter_speciaton.cpp:433-437 | After recomputation: lambda - mu equals the net diversification, mu = relative death * lambda, psi = s/(1 - s) * mu, and the primary rates are untouched. |
| BirthDeathRates.RecomputeIsConsistent | src/Parameter_speciaton.cpp:433-437 | Recomputed rates are consistent, and the recomputation depends only on the primary rates. |
| BirthDeathRates.DerivedRatesDeterminePrimaries | src/Parameter_speciaton.cpp:433-437 | The inverse of the recomputation: the net diversification is lambda - mu, the relative death is mu/lambda, and s = psi/(mu + psi) when mu > 0. |
| BirthDeathRates.FossilFractionRoundTrip | src/Parameter_speciaton.cpp:359-360 | The fraction psi/(mu + psi) lies in (0, 1), and the fossil-rate formula turns it back into psi. |
| BirthDeathRates.Seeded | src/Parameter_speciaton.cpp:49-59 | The seeded primary rates are the three draws, or the fixed start-up values in a fixed test run. rho is 1. |
| BirthDeathRates.ClampNetDiv | src/Parameter_speciaton.cpp:81-82 | A net diversification at or above maxdivV becomes maxdivV^2/nd, which is in (0, maxdivV]. Smaller values are kept. |
| BirthDeathRates.StartupRates | src/Parameter_speciaton.cpp:47-82 | The constructor exits with the relative-death error when the relative death after the optional reseeding is >= 1, with the net-diversification error when it is < 1 and the net diversification is <= 0, and starts in every other case. A started run has relative death 0 under regimes 1 and 2 and the reseeded value otherwise, net diversification 0 under regime 1 and the clamp maxdivV^2/nd of the reseeded value (kept when below maxdivV) otherwise, rho = 1, s as seeded, and the derived rates of the seeded values at line 61. For a fixed run the exit cases follow from bda and bdr directly, and regime 3 and above starts at bda and the clamped bdr. |
| BirthDeathRates.Reseeded | src/Parameter_speciaton.cpp:63-66 | When both seeded rates are negative, the relative death and the net diversification are replaced by a fresh draw and a fresh draw times maxdivV. Otherwise nothing changes. |
| BirthDeathRates.StartupScenarios | src/Parameter_speciaton.cpp:75-82 | A fixed regime-2 run with bdr = 1 and bda = 0.5 starts with relative death 0. With bdr = 2 maxdivV it starts at maxdivV/2. A random regime-3 start keeps the drawn relative death and net diversification. |
| BirthDeathRates.BirthDeathIdentities | src/Parameter_speciaton.cpp:434-436 | For relative death r != 1, the formulas give lambda - mu = nd and mu = r lambda. |
| BirthDeathRates.FixedStartScenario | src/Parameter_speciaton.cpp:55-61 | A fixed test run with bdr = 1, bda = 0.5 and bds = 0.3 starts at lambda = 2, mu = 1 and psi = 3/7. |
| ParameterSpeciation.TreeLogProb | src/Parameter_speciaton.cpp:398-430 | The tree score is 0 for regime 1 and for every tag outside 2..7. |
| ParameterSpeciation.Accepts | src/Parameter_speciaton.cpp:188-189 | The tree test (the same at lines 261-262, 326-327 and 365-366) accepts every draw below 1 when the exponentiated log ratio is at least 1, and no non-negative draw when it is 0 or less. |
| ParameterSpeciation.TreeLogProbDependsOn | src/Parameter_speciaton.cpp:398-430 | The tree query scores 0 for regime 1 and for tags outside 2..7. Each regime reads only its own rates. |
| ParameterSpeciation.Queried | src/Parameter_speciaton.cpp:419-427 | A tree query keeps the primary rates. Regimes 6 and 7 leave the rates consistent. Every other regime, and consistent rates, are left as they were. |
| ParameterSpeciation.PsiReflected | src/Parameter_speciaton.cpp:350-358 | The fossil-rate loop ends in [0.0001, 100]. An in-range value is kept. Anything above 100, directly or after mirroring at the minimum, becomes exactly 100. A value just below the minimum becomes its multiplicative mirror. |
| ParameterSpeciation.PsiMove | src/Parameter_speciaton.cpp:342-358 | The fossil-rate proposal lies in [0.0001, 100], and is psi * exp(c) itself when that is in range. |
| ParameterSpeciation.PsiProposed | src/Parameter_speciaton.cpp:359-360 | Writing the proposal in sets psi to it and s to a fraction in (0, 1) that maps back to the proposal. No other rate changes. |
| ParameterSpeciation.PsiOutcomeAsWritten | src/Parameter_speciaton.cpp:366-372 | As written the move ends consistent, with the proposal's fraction in place whether it accepted or rejected. |
| ParameterSpeciation.PsiOutcome | src/Parameter_speciaton.cpp:366-372 | The intended outcome. It ends consistent. Acceptance keeps the proposal's fraction and fossil rate. Rejection keeps the primary rates and, from consistent rates, changes nothing. |
| ParameterSpeciation.PsiRejectKeepsProposal | src/Parameter_speciaton.cpp:366-372 | As written, rejecting ends in the same rates as accepting. So a rejected proposal that differs from the current fossil rate still changes the state. |
| ParameterSpeciation.PsiOutcomeRestores | src/Parameter_speciaton.cpp:366-372 | In the corrected move, rejection restores consistent rates exactly, and acceptance sets the proposed fossil rate. |
| ParameterSpeciation.PsiRejectExample | src/Parameter_speciaton.cpp:366-372 | From lambda = 2, mu = 1, psi = 1 and s = 0.5, rejecting the proposal 1.25 leaves psi = 1.25 and s = 5/9 as written. The corrected move leaves the rates unchanged. |
| ParameterSpeciation.Speciation.constructor | src/Parameter_speciaton.cpp:43-89 | The new object's rates are exactly StartupRates of its draws and start-up values, and its name is "SP". |
| ParameterSpeciation.Speciation.SetAllBDFossParams | src/Parameter_speciaton.cpp:433-437 | The new state is the recomputation WithDerived of the old. |
| ParameterSpeciation.Speciation.Clone | src/Parameter_speciaton.cpp:102-113 | All seven rate fields become those of c, and the name is "SP". Cloning from itself recomputes the derived rates. |
| ParameterSpeciation.Speciation.GetLnTreeProb | src/Parameter_speciaton.cpp:398-430 | Returns the regime's tree score of the rates as the query leaves them. Regimes 6 and 7 recompute the derived rates first. |
| ParameterSpeciation.Speciation.GetNewValSWindoMv | src/Parameter_speciaton.cpp:218-232 | The result is in [vmin, vmax] and lies on the reflection orbit of ov + u, so it is the unique such point. It equals ov + u when that is already in range. |
| ParameterSpeciation.Speciation.GetNewValScaleMv | src/Parameter_speciaton.cpp:200-216 | Returns exactly c = tv(rv - 0.5). The new value is in [vmin, vmax] for every positive start, and is the single reflection of ov*exp(c) wherever one reflection suffices. |
| ParameterSpeciation.Speciation.ReflectPsi | src/Parameter_speciaton.cpp:350-358 | The loop terminates, and its result is PsiReflected of the scaled fossil rate. |
| ParameterSpeciation.Speciation.ProposePsi | src/Parameter_speciaton.cpp:342-360 | The proposal is PsiMove of the current rates. The state becomes PsiProposed, which changes only psi and s. |
| ParameterSpeciation.Speciation.ProposeAndTestPsi | src/Parameter_speciaton.cpp:340-366 | Returns the fossil rate after the first tree query, the PsiMove proposal and the tree test on the queried old rates and on PsiProposed. The state is left as the second query leaves PsiProposed. |
| ParameterSpeciation.Speciation.UpdateRelDeathRt | src/Parameter_speciaton.cpp:167-175 | The relative death moves to the in-range orbit point of old + u in [0, 0.99999]. It is unchanged by reflection when old + u is in range. Returns 0. |
| ParameterSpeciation.Speciation.UpdateNetDivRate | src/Parameter_speciaton.cpp:234-245 | The net diversification lands in [0.0001, maxdivV], and is the single reflection of nd*exp(c) where one suffices. Returns c = ln 2 (rv - 0.5). |
| ParameterSpeciation.Speciation.UpdateBDSSSampleProbRho | src/Parameter_speciaton.cpp:272-291 | rho moves to the in-range orbit point of old + u in [0, 0.9999]. Returns 0. |
| ParameterSpeciation.Speciation.UpdateBDSSFossilProbS | src/Parameter_speciaton.cpp:293-312 | s moves to the in-range orbit point of old + u in [0, 0.9999]. Returns 0. |
| ParameterSpeciation.Speciation.UpdateRelDeathRtTree | src/Parameter_speciaton.cpp:177-198 | The proposal lies on the window orbit in [0, 0.99999]. Acceptance is the tree test on the queried old and new rates. The new state is the recomputation with the relative death accepted or restored. A rejection from consistent rates changes nothing. |
| ParameterSpeciation.Speciation.UpdateNetDivRateTree | src/Parameter_speciaton.cpp:247-270 | The proposal is in [0.0001, maxdivV] and exact where one reflection suffices. The test includes the log ratio ln 2 (rv - 0.5). The state is the recomputation with the accepted or restored value. A rejection from consistent rates changes nothing. |
| ParameterSpeciation.Speciation.UpdateBDSSFossilProbSTree | src/Parameter_speciaton.cpp:314-336 | The proposal lies on the window orbit in [0, 0.99999]. Acceptance is the tree test. The state is the recomputation with s accepted or restored. A rejection from consistent rates changes nothing. |
| ParameterSpeciation.Speciation.UpdatePsiRateAsWritten | src/Parameter_speciaton.cpp:338-374 | The fossil-rate move as written: the proposal is PsiMove, acceptance is the tree test on PsiProposed, and the final state is PsiOutcomeAsWritten. |
| ParameterSpeciation.Speciation.UpdatePsiRate | src/Parameter_speciaton.cpp:338-374 | The same move with the fraction restored on rejection. The final state is PsiOutcome, so a rejection from consistent rates changes nothing. |
| ParameterSpeciation.Speciation.Update | src/Parameter_speciaton.cpp:128-165 | Dispatch by regime, and every path sets lnLGood and myCurrLnl = oldLnL. Regime 2 zeroes the relative death and moves only the net diversification into [0.0001, maxdivV], to exactly the single reflection of nd*exp(c) wherever one reflection suffices (ScaleExact). It returns the tree-score difference plus ln 2 (rv - 0.5). Regimes 3 and above return 0 and leave the rates consistent, with each moved rate in its range. Regime 3 never touches s. Below regime 2 nothing moves and the result is 0. |
| ParameterSpeciation.Speciation.LnPrior | src/Parameter_speciaton.cpp:379-382 | The speciation parameter contributes a flat log prior of 0. |

## Left out

- Floating point: all rates are `real`. The identities of the derived rates hold exactly here, not under IEEE-754 rounding.
- `log`, `exp` and the overflow-safe exponentiation are uninterpreted. `exp(c)` enters each scale move as a positive argument `expC`, tied to c only through being passed alongside it.
- The random source: each uniform draw is a method argument within its interval ([0, 1) or [-0.5, 0.5) before scaling by the window width).
- Tree and time-scale queries (node-prior probabilities, number of taxa, origin time) are uninterpreted functions of the `Tree` datatype and the `Model` class. `Model` is a stand-in for the model context and is not part of this model beyond the fields the parameter reads and writes.
- `print`, `writeParam` and the constructor's console output (lines 84-87 and the error messages) are I/O and are not modelled.
- The constructor's `exit(1)` is the `Exited` outcome of `StartupRates`. The class constructor requires the `Started` outcome.
- The assignment operator (lines 95-100) only guards `clone` against self-assignment; `Clone` states both cases.
- `src/Parameter_shape.h` and the other parameter classes are not part of this model.
- ParameterSpeciation.Speciation.GetNewValScaleMv: the exact new value is stated only where one reflection brings the scaled value into range. Beyond that, only the range and termination are proved.
- ParameterSpeciation.Speciation.UpdateNetDivRate: requires a positive start value. At 0 or below the source's reflection loop never ends.
- ParameterSpeciation.Speciation.UpdatePsiRate: requires a positive death rate and fossil rate after the tree query. With a zero fossil rate the source's loop computes 0.0001^2/0 = +inf, then inf * 100 / inf = NaN; NaN fails both bound tests, so the loop ends with a NaN fossil rate, which a real-valued model cannot represent. With a zero death rate the fraction becomes 1, and the recomputation at line 434 then multiplies 1/0 by 0, again a NaN.
- ParameterSpeciation.Speciation.UpdatePsiRateAsWritten: the same requirement as UpdatePsiRate, for the same reason.
- ParameterSpeciation.Speciation.ProposeAndTestPsi: the same requirement as UpdatePsiRate, for the same reason.
- BirthDeathRates.StartupRates: in a fixed test run s = 1 is excluded. Line 61 then divides by 1 - s = 0 and the source's fossil rate is +inf, which a real-valued model cannot represent. Random draws are below 1, so they never hit this case.
- BirthDeathRates.StartupRates: a seeded relative death of exactly 1 is mapped to the relative-death exit. The source first divides by zero at line 61 (infinite or NaN derived rates) and then exits at line 67 anyway.
- ParameterSpeciation.Speciation.constructor: the same s = 1 exclusion as StartupRates, and it requires the Started outcome, since the source's `exit(1)` ends the program.
- ParameterSpeciation.Speciation.Clone: requires the relative death and s to differ from 1, because the recompute at line 104 divides by 1 - r and 1 - s, which the source turns into infinite or NaN rates.
- ParameterSpeciation.Speciation.GetLnTreeProb: under regimes 6 and 7 it requires the same, because it recomputes the derived rates first.
- ParameterSpeciation.Speciation.UpdateRelDeathRtTree: requires the same, because the tree query and the final recompute divide by 1 - r and 1 - s. Its proposal can never reach 1 (the window tops out at 0.99999).
- ParameterSpeciation.Speciation.UpdateNetDivRateTree: the same requirement as UpdateRelDeathRtTree, for the same reason.
- ParameterSpeciation.Speciation.UpdateBDSSFossilProbSTree: the same requirement as UpdateRelDeathRtTree, for the same reason.
- ParameterSpeciation.Speciation.Update: under regimes 3 and above it requires the same, for the same reason. It also requires a positive net diversification from regime 2 on, as UpdateNetDivRate does.
- ParameterSpeciation.Speciation.Update: for regimes 3 and above the contract states ranges and consistency, not each sub-move's acceptance. Those are stated by the three tree-aware moves it calls.
- The hand-written loops of `updateBDSSSampleProbRho` and `updateBDSSFossilProbS(void)` reflect at 0 as `0 - x`. The model runs them through the window kernel with vmin = 0, where `2 * 0 - x` is the same value.

Notes on the code as written:

- The derived rates are computed at line 61, before the reseeding, zeroing and clamping that follow. They are not recomputed at the end of the constructor.
- `clone` first recomputes its own derived rates and then copies the other object's derived rates as they are. It does not recompute them from the copied primaries.
- The probability moves without a tree are bounded by 0.9999. The tree-aware fraction move and the relative-death moves are bounded by 0.99999.
- Above its maximum, the fossil-rate move does not mirror the value (`newPsi * maxV / newPsi`). It sets the value to the maximum itself, as `PsiReflected` states.
- A rejected fossil-rate move does not restore the extant-sampling fraction (see Findings). For that move, rejection is not reversible.

## Findings

| source | as written | input that shows it | evidently intended | confidence | as-written member | corrected member |
|---|---|---|---|---|---|---|
| src/Parameter_speciaton.cpp:359-372 | On rejection only `fossilRate` is restored. `probSpeciationS`, already overwritten with newPsi/(mu + newPsi), stays, and `setAllBDFossParams` then recomputes `fossilRate` from it. The rates end exactly as if the proposal were accepted. | relative death 0.5, net diversification 1, s = 0.5, so lambda 2, mu 1, psi 1. The proposal 1.25 is rejected. The move ends with psi = 1.25 and s = 5/9. | Rejection restores `probSpeciationS` too, so the rates return to their pre-move values as every other tree-aware move does. | not executed | ParameterSpeciation.PsiRejectExample | ParameterSpeciation.PsiOutcomeRestores |
