# Aberth root finding and the 2-D vector, modelled in Dafny

The model covers the root-finding core of the `bairstow` crate, `src/aberth.rs`. It also covers the
`numeric::vector2` class from `src/vector2.cpp`. All arithmetic is exact `real` arithmetic in place of `f64`.

## What is modelled

- **Polynomial evaluation.** `horner_eval_f` and `horner_eval_c` become `Horner.HornerF` and
  `Horner.HornerC`. Both are left folds over the coefficients, which are listed highest degree
  first, and are proved equal to a reference sum of powers. On the real axis the complex fold
  agrees with the real one.
- **Derivative coefficients.** The `pb` loop becomes `Horner.DerivativeCoeffs`, a method with a
  loop, proved to produce the coefficients of P'. Its value is proved to be the derivative
  obtained by the product rule. Complex numbers (`ComplexNum`) are a datatype with exact
  operations. Division is total (see "Left out").
- **The two drivers.** `aberth` is `Aberth.Aberth` and `aberth_mt` is `Aberth.AberthMT`. Both are
  methods over an `array<Complex>` of root estimates. Each has an inner loop building the
  pass's residual list `rx`, a loop taking its maximum, and an outer loop over passes. Each
  method is proved to finish in exactly the state and result that the specification function
  `Aberth.Solve` describes:
  - the same `(niter, found)` pair;
  - the same final roots.
- **One pass of each driver.**
  - `aberth` sweeps in Gauss-Seidel order: each correction reads the live, partly updated
    roots. That pass is `Aberth.SeidelPass`.
  - `aberth_mt` sweeps in Jacobi order: each correction reads a snapshot copied at the start of
    the pass. That pass is `Aberth.JacobiPass`.
  - Both passes are written for any residual measure and any correction, and the run `Run`
    for any pass. `Solve` fixes them to the L1 norm of P(z) and to the Aberth correction
    P(zi) / (P'(zi) − Σ_{j≠i} P(zi)/(zi − zj)). The general lemmas (the return protocol,
    flag monotonicity, framing) are proved once at that level.
- **The 2-D vector.** `vector2` is the class `Numeric.Vector2` with fields `x` and `y`.
  - The accessors, `norm_inf`, `dot` and `cross` are functions that read the object.
  - The compound operators `+=`, `-=`, `*=` and `/=` are methods that modify it. They read the
    operand before writing, so `v += v` doubles `v`, as the C++ code does.
  - Unary minus builds a fresh vector `(-x, -y)` directly.
  - The friend `+`, `-`, `*` and `/` copy the left operand, apply the compound operator to the
    copy and return it, so they too return a fresh vector and leave their operands alone.

Points where the code does something other than the natural contract, and the model follows the code:

- An invalid-degree error would be the natural answer to an empty coefficient list. The code
  panics instead: `unwrap` of an empty fold, and `coeffs.len() - 1` underflowing. The model
  states the same demand as a precondition, `|coeffs| > 0` for evaluation and `|coeffs| >= 2`
  for the drivers.
- The two drivers treat a root whose residual falls below 1e-15 differently.
  - In `aberth` that residual is pushed twice (lines 194 and 201), and the root is still
    corrected in the same visit.
  - In `aberth_mt` such a root records nothing and is not corrected (lines 266-268).
  - Both are modelled as written. `AberthProps.ToleranceAgreement` states how the two pass
    tolerances can differ as a result.
- Both drivers return `true` only when the pass tolerance is below `options.tol`. Every root
  being flagged converged does not by itself end the run. The model does the same.

## Model

| member | source | states |
|---|---|---|
| RealOps.Abs | src/vector2.cpp:64 | the absolute value is nonnegative and is a or −a |
| RealOps.Max | src/vector2.cpp:64 | `std::max` is an upper bound of both arguments and equals one of them |
| ComplexNum.L1Norm | src/aberth.rs:191 | `l1_norm` is nonnegative and is zero exactly at the complex zero |
| ComplexNum.Div | src/aberth.rs:200 | the quotient is zero when the divisor or the dividend is zero |
| ComplexNum.DivInverts | src/aberth.rs:200 | for a nonzero divisor b, (a / b) · b = a |
| Horner.HornerF | src/aberth.rs:38-44 | definition: the left fold `res * z + c` from the first coefficient; its meaning is stated by HornerFIsPolyValue and HornerFExample |
| Horner.HornerC | src/aberth.rs:75-81 | definition: the same fold over lifted coefficients at a complex point; its meaning is stated by HornerCIsPolyValue, HornerCOnRealAxis and HornerCExample |
| Horner.HornerFIsPolyValue | src/aberth.rs:38-44 | the real Horner fold equals Σ c_k z^(n−1−k) |
| Horner.HornerCIsPolyValue | src/aberth.rs:75-81 | the complex fold over lifted coefficients equals the complex power sum |
| Horner.HornerCOnRealAxis | src/aberth.rs:75-81 | the complex fold at (x, 0) is (HornerF(x), 0) |
| Horner.HornerFExample | src/aberth.rs:33-36 | the documented value 18250 at z = 2 |
| Horner.HornerCExample | src/aberth.rs:69-73 | the documented value 6080 + 9120i at z = 1 + 2i |
| Horner.PolyValueOfDerivative | src/aberth.rs:176-179 | evaluating the `pb` coefficients gives the product-rule derivative of P |
| Horner.HornerOfDerivative | src/aberth.rs:176-179 | the real and complex Horner folds of `pb` give P' on the real axis |
| Horner.DerivativeTail | src/aberth.rs:176-179 | the derivative splits into its leading term and the derivative of the tail |
| Horner.DerivValueProductRule | src/aberth.rs:176-179 | the derivative of P·z + c is P'·z + P |
| Horner.DerivativeCoeffs | src/aberth.rs:176-179 | the loop yields degree entries, entry i being coeffs[i]·(degree − i), that is Derivative(coeffs) (the same loop is at lines 247-250) |
| Aberth.Residual | src/aberth.rs:190-191 | the residual `l1_norm(P(z))` is nonnegative and is zero exactly when z is an exact root |
| Aberth.Correction | src/aberth.rs:196-200 | at an exact root the Aberth correction is zero (the formula itself is the definition, read from the given roots) |
| Aberth.SeidelStep | src/aberth.rs:188-202 | definition of one Gauss-Seidel visit; SeidelVisit unfolds it for the drivers' residual and correction, and SeidelFlags, SeidelReadsLive and SeidelStepAtRoot state its effect |
| Aberth.JacobiPass | src/aberth.rs:258-283 | definition of one Jacobi pass from the snapshot; JacobiReadsSnapshot, JacobiRecordsCorrected and JacobiPassAtRoots state its effect |
| Aberth.Solve | src/aberth.rs:172-215 | definition of a whole run from all flags false (also lines 242-292 for the Jacobi scheme); SolveProtocol states its return protocol, and Aberth and AberthMT are proved equal to it |
| Aberth.SeidelPrefix | src/aberth.rs:184-203 | a Gauss-Seidel pass keeps one root and one flag per estimate |
| Aberth.SeidelPrefixAhead | src/aberth.rs:184-203 | after the visits below k, every slot from k on is still at its pass-start value and flag |
| Aberth.SeidelPrefixFrozen | src/aberth.rs:185-187 | a slot converged at the pass start stays converged and unmoved through the visits |
| Aberth.SeidelPassFrozen | src/aberth.rs:185-187 | a whole Gauss-Seidel pass leaves every converged root converged and in place |
| Aberth.Pass | src/aberth.rs:184-203 | either pass keeps the lengths and never moves or unflags a converged root |
| Aberth.PassTol | src/aberth.rs:205-209 | the tolerance is nonnegative, bounds every recorded residual, and is 0 or one of them |
| Aberth.Run | src/aberth.rs:180-214 | a run that finds returns a niter below the budget; one that does not returns the budget |
| Aberth.SeidelVisit | src/aberth.rs:188-202 | unfolding of SeidelStep for the drivers' residual and correction: visit i skips a converged root; otherwise it flags below 1e-15, records the residual once or twice, and subtracts the correction read from the live roots |
| Aberth.JacobiVisit | src/aberth.rs:263-281 | unfolding of JacobiFlag, JacobiSlot and JacobiResiduals (the parts of JacobiUpdate) for the drivers' residual: visit i of a Jacobi pass flags below 1e-15 and leaves the root alone; otherwise it corrects from the snapshot and records the residual once |
| Aberth.JacobiPassOfSlots | src/aberth.rs:258-283 | a state whose slots, flags and residuals are the ones each visit prescribes is the Jacobi pass |
| Aberth.RunVisit | src/aberth.rs:180-212 | unfolding of Run with Pass, one pass of the run: stop with (niter, true) if its tolerance is below `tol`, else continue from the new roots |
| Aberth.PassTolerance | src/aberth.rs:205-209 | the loop `if tol < r { tol = r }` from 0 computes PassTol(rx) |
| Aberth.Denominator | src/aberth.rs:196-199 | the loop subtracting P(zi)/(zi − zj) for j ≠ i in index order computes the repulsion fold |
| Aberth.SeidelSweep | src/aberth.rs:184-204 | the in-place inner loop ends with the roots, flags and residual list of SeidelPass on the pass-start state |
| Aberth.JacobiVisits | src/aberth.rs:258-282 | every visit reads only the snapshot and writes only its own root and flag, as JacobiSlot and JacobiFlag prescribe |
| Aberth.JacobiSweep | src/aberth.rs:256-283 | copying into the snapshot, then visiting, ends in the state of JacobiPass on the pass-start roots |
| Aberth.Aberth | src/aberth.rs:172-215 | `aberth` returns Solve(GaussSeidel, …)'s niter and found, and leaves exactly its roots |
| Aberth.AberthMT | src/aberth.rs:242-292 | `aberth_mt` returns Solve(Jacobi, …)'s niter and found, and leaves exactly its roots |
| AberthProps.RunStep | src/aberth.rs:180-213 | unfolding of Run: the run at pass j stops there or goes on from the state after pass j |
| AberthProps.RunAfterFound | src/aberth.rs:210-212 | a found result has a pass tolerance below `tol` at niter, and the roots after that pass |
| AberthProps.RunAfterExhausted | src/aberth.rs:214 | an unconverged result has the roots after all max_iters passes |
| AberthProps.RunAfterHistory | src/aberth.rs:180-213 | every pass before the returned niter had a tolerance of at least `tol` |
| AberthProps.RunProtocol | src/aberth.rs:180-214 | the full return protocol for any pass: first pass below `tol`, or `(max_iters, false)` |
| AberthProps.EmptyPassStops | src/aberth.rs:283-289 | a pass that records nothing has tolerance 0 and stops the run when tol > 0 |
| AberthProps.PassOfFrames | src/aberth.rs:185-187 | both drivers' passes keep the lengths and freeze converged roots |
| AberthProps.IterFrames | src/aberth.rs:180-213 | any number of framing passes keep one root and one flag per estimate |
| AberthProps.IterLengths | src/aberth.rs:173-175 | the drivers keep one root and one flag per estimate across passes |
| AberthProps.SolveProtocol | src/aberth.rs:172-215 | the return protocol of both drivers, with the final roots of the same length |
| AberthProps.IterFlagsOnlyRise | src/aberth.rs:185-193 | for a framing pass, a flag once set stays set and its root stays put |
| AberthProps.FlagsOnlyRise | src/aberth.rs:185-193 | across the passes of either driver, a flag never returns to false and a converged root is never moved again |
| AberthProps.AllConvergedPassIsIdle | src/aberth.rs:185-187 | with every flag set, a pass changes nothing and records nothing |
| AberthProps.SeidelIdle | src/aberth.rs:185-187 | Gauss-Seidel visits over all-converged roots leave the state as it was |
| AberthProps.JacobiAllFlaggedRecordsNothing | src/aberth.rs:262-268 | Jacobi visits of flagged indices contribute no residual |
| AberthProps.SeidelPrefixStable | src/aberth.rs:184-203 | visits at index k and above never change the slots below k |
| AberthProps.SeidelFlags | src/aberth.rs:191-194 | after a Gauss-Seidel pass, index k is converged iff it was or its pass-start residual is below 1e-15 |
| AberthProps.SeidelReadsLive | src/aberth.rs:196-200 | each unconverged root is corrected from the already updated roots below it and the pass-start roots from it on |
| AberthProps.SeidelPrefixResiduals | src/aberth.rs:192-201 | the visits below n record exactly the residuals of the unconverged indices |
| AberthProps.SeidelRecordsActive | src/aberth.rs:192-201 | x is recorded iff it is the pass-start residual of some index unconverged at the pass start |
| AberthProps.JacobiReadsSnapshot | src/aberth.rs:263-281 | after a Jacobi pass, index k is converged iff it was or its snapshot residual is below 1e-15; that root is unchanged, any other is corrected from the snapshot alone |
| AberthProps.JacobiResidualsMembers | src/aberth.rs:263-281 | the Jacobi residual list holds exactly the snapshot residuals of the unflagged indices |
| AberthProps.JacobiRecordsCorrected | src/aberth.rs:266-280 | a Jacobi pass records x iff x is the residual of an index it corrects |
| AberthProps.PassTolPermutation | src/aberth.rs:283 | the maximum is the same in any order of the residuals, as the parallel reduction needs |
| AberthProps.ToleranceAgreement | src/aberth.rs:283-286 | from the same state the Jacobi tolerance is at most the Gauss-Seidel one; the two differ only when the Jacobi tolerance is 0 and the Gauss-Seidel one is below 1e-15 |
| AberthProps.CorrectionAtRoot | src/aberth.rs:196-200 | at an exact root (P(zi) = 0) the correction is zero |
| AberthProps.NewtonWhenAlone | src/aberth.rs:196-200 | with a single estimate the correction is Newton's step P(z)/P'(z) |
| AberthProps.SeidelStepAtRoot | src/aberth.rs:188-202 | a visit with zero residual and zero correction moves nothing and records only zeros |
| AberthProps.PassTolAppendZero | src/aberth.rs:205-209 | recording a zero residual leaves the tolerance unchanged |
| AberthProps.SeidelAtRootsStay | src/aberth.rs:184-203 | visits whose corrections are all zero move no root |
| AberthProps.SeidelAtRoots | src/aberth.rs:184-209 | visits whose residuals and corrections are all zero leave tolerance 0 |
| AberthProps.SeidelPassAtRoots | src/aberth.rs:184-209 | a Gauss-Seidel pass over exact roots keeps them and has tolerance 0 |
| AberthProps.JacobiPassAtRoots | src/aberth.rs:258-283 | a Jacobi pass over exact roots keeps them and records nothing |
| AberthProps.ExactRootsStopAtOnce | src/aberth.rs:210-211 | started on exact roots, with tol > 0 and a nonzero budget, both drivers return (0, true) and keep the roots |
| Numeric.Vector2.constructor | src/vector2.cpp:33 | the value constructor stores the given components (line 25 is the same, taking rvalues) |
| Numeric.Vector2.Copy | src/vector2.cpp:41-42 | the converting constructor copies the other vector's components |
| Numeric.Vector2.X | src/vector2.cpp:49 | `x()` returns the first component |
| Numeric.Vector2.Y | src/vector2.cpp:56 | `y()` returns the second component |
| Numeric.Vector2.NormInf | src/vector2.cpp:63-65 | `norm_inf` is at least abs(x) and abs(y) and equals one of them |
| Numeric.Vector2.Dot | src/vector2.cpp:76-78 | definition `x·x' + y·y'`; its laws are DotSymmetric and Lagrange |
| Numeric.Vector2.Cross | src/vector2.cpp:89-91 | definition `x·y' − x'·y`; its laws are CrossAntisymmetric, CrossSelfZero and Lagrange |
| Numeric.Vector2.Neg | src/vector2.cpp:103 | unary minus returns a fresh vector (−x, −y) |
| Numeric.Vector2.AddAssign | src/vector2.cpp:113-118 | `+=` adds the operand's pre-call components to the receiver's, changes only the receiver, and returns it |
| Numeric.Vector2.SubAssign | src/vector2.cpp:128-133 | `-=` subtracts the operand's pre-call components, changes only the receiver, and returns it |
| Numeric.Vector2.MulAssign | src/vector2.cpp:142-146 | `*=` scales both components by alpha and returns the receiver |
| Numeric.Vector2.DivAssign | src/vector2.cpp:155-159 | `/=` divides both components by a nonzero alpha and returns the receiver |
| Numeric.Vector2.Add | src/vector2.cpp:170-174 | `x + y` is a fresh vector with the summed components, and neither operand changes |
| Numeric.Vector2.Sub | src/vector2.cpp:185-189 | `x - y` is a fresh vector with the differences, and neither operand changes |
| Numeric.Vector2.Scale | src/vector2.cpp:199-202 | `x * alpha` is a fresh vector with both components scaled |
| Numeric.Vector2.ScaleLeft | src/vector2.cpp:212-215 | `alpha * x` is a fresh vector with both components scaled |
| Numeric.Vector2.Div | src/vector2.cpp:225-228 | `x / alpha` is a fresh vector with both components divided by a nonzero alpha |
| Numeric.NormInfZero | src/vector2.cpp:63-65 | the norm is zero exactly for the zero vector |
| Numeric.DotSymmetric | src/vector2.cpp:76-78 | `v.dot(w) == w.dot(v)` |
| Numeric.CrossAntisymmetric | src/vector2.cpp:89-91 | `v.cross(w) == -w.cross(v)` |
| Numeric.CrossSelfZero | src/vector2.cpp:89-91 | `v.cross(v) == 0` |
| Numeric.Lagrange | src/vector2.cpp:76-91 | dot² + cross² equals the product of the two squared lengths |
| Numeric.NegTwice | src/vector2.cpp:103 | `-(-v)` is a new vector equal to v |
| Numeric.AddThenSub | src/vector2.cpp:113-133 | `v += w; v -= w` restores v when w is another object, and zeroes v when w is v itself |
| Numeric.ScaleThenDiv | src/vector2.cpp:142-159 | `v *= a; v /= a` restores v for a ≠ 0 |
| Numeric.AddSubValues | src/vector2.cpp:170-189 | `(a + b) - b` has a's components and is a new object |
| Numeric.ScaleDivValues | src/vector2.cpp:199-228 | `(a * alpha) / alpha` has a's components for alpha ≠ 0 |
| Numeric.ScaleCommutes | src/vector2.cpp:199-215 | `a * alpha` and `alpha * a` are distinct vectors with equal components |

## Left out

- `initial_aberth` (src/aberth.rs:112-125): it rests on `powf`, `cos` and `sin`, which have no
  exact real counterpart. The drivers take any initial estimates as input.
- f64 rounding, NaN and infinity: all arithmetic is exact. The iteration counts in the doc
  examples (`niter == 5` at line 170 and `7` at line 240) depend on rounding and are not stated.
  Convergence itself is not claimed.
- The rayon parallelism of `aberth_mt` (lines 258-283): it is modelled as a sequential sweep
  over the snapshot. Visit order does not matter, because each visit writes only its own root
  and flag and reads only the snapshot (`JacobiVisits`), and the maximum does not depend on
  order (`PassTolPermutation`).
- ComplexNum.Div: division by a zero complex number gives Zero, not inf or NaN. The Aberth
  correction and its repulsion terms use this total division, so a zero denominator
  (coinciding estimates, or a vanishing P' term) yields a zero term instead of IEEE values.
- `Options` is not part of this model. Its source is not shown, so it is the record
  `Options(maxIters, tol)`.
- `operator<<` (src/vector2.cpp:240-244) is stream output.
- Aberth.Aberth: it requires `|coeffs| >= 2`. For a constant polynomial (`|coeffs| = 1`) the
  code evaluates the empty `pb` (line 196), and so panics, only when it visits a root. It
  returns without panicking when `max_iters = 0`, with `(0, false)`, and when the root list is
  empty, with `(0, true)` if `tol > 0` and `(max_iters, false)` otherwise. These corners are not
  modelled.
- Aberth.AberthMT: it requires `|coeffs| >= 2`. For a constant polynomial `[c]` the code
  evaluates `pb` only for a root whose residual |c| is at least 1e-15 (lines 266-270). So for
  |c| < 1e-15 (for example `[0.0]`) it flags every root, records nothing and returns `(0, true)`
  when `tol > 0` and `max_iters > 0`, with any root list. It also returns normally for an
  empty root list or `max_iters = 0`. These corners are not modelled.
- Horner.DerivativeCoeffs: it requires a non-empty coefficient list, because
  `coeffs.len() - 1` underflows otherwise.
- Numeric.Vector2.DivAssign: it requires alpha ≠ 0. Division by zero gives inf or NaN in f64,
  and that is not modelled.
- Numeric.Vector2.Div: it requires alpha ≠ 0, for the same reason.
- Numeric.Vector2.MulAssign: alpha is taken by value. In the C++ code it is a `const R&`, so
  `v *= v.x()` reads the already updated `_x` when it scales `_y`: (2, 3) becomes (4, 12), not
  (4, 6). A scalar that aliases one of the receiver's own components is not modelled.
- Numeric.Vector2.DivAssign: alpha is taken by value for the same reason. `v /= v.x()` gives
  (1, 3) in C++ for (2, 3), not (1, 1.5). That aliasing is not modelled.
- Numeric.ScaleThenDiv: it holds for a scalar value alpha, one that is not a reference to a
  component of v itself.
- The vector template's two component types `T1`, `T2` and the converting copy between
  instantiations are all `real` here.
- `ResidualOf` and `CorrectionOf` return 0 and Zero for arguments the drivers never pass (an
  empty polynomial, an index out of range). Those values only make the function values total.
