/**
 * Properties of the Aberth drivers' specification: the return protocol, what a pass reads and
 * writes under each scheme, that flags only move from false to true, how the two schemes'
 * pass tolerances relate, and what happens when every root is already exact.
 */
module AberthProps {
  import opened ComplexNum
  import opened Horner
  import opened Aberth

  // ---- the run, for any pass ----

  /** The state after k full passes, ignoring the stopping test; `rx` holds the k-th pass's residuals. */
  function Iter(pass: PassFn, zs: seq<Complex>, conv: seq<bool>, k: nat): PassState
    decreases k
  {
    if k == 0 then PassState(zs, conv, [])
    else
      var p := Iter(pass, zs, conv, k - 1);
      pass(p.zs, p.converged)
  }

  /** The tolerance computed by pass number k (counting from 0, as `niter` does). */
  function PassTolAt(pass: PassFn, zs: seq<Complex>, conv: seq<bool>, k: nat): real
  {
    PassTol(Iter(pass, zs, conv, k + 1).rx)
  }

  /** One unfolding of Run at the state reached after j passes. */
  lemma RunStep(pass: PassFn, zs: seq<Complex>, conv: seq<bool>, opts: Options, j: nat)
    requires j < opts.maxIters
    ensures var s, n := Iter(pass, zs, conv, j), Iter(pass, zs, conv, j + 1);
      Run(pass, s.zs, s.converged, opts, j) ==
        if PassTolAt(pass, zs, conv, j) < opts.tol then Outcome(j, true, n.zs)
        else Run(pass, n.zs, n.converged, opts, j + 1)
  {
  }

  lemma {:induction false} RunAfterFound(pass: PassFn, zs: seq<Complex>, conv: seq<bool>, opts: Options, j: nat)
    requires j <= opts.maxIters
    ensures var s := Iter(pass, zs, conv, j);
      var r := Run(pass, s.zs, s.converged, opts, j);
      r.found ==> PassTolAt(pass, zs, conv, r.niter) < opts.tol && r.zs == Iter(pass, zs, conv, r.niter + 1).zs
    decreases opts.maxIters - j
  {
    if j < opts.maxIters {
      RunStep(pass, zs, conv, opts, j);
      if PassTolAt(pass, zs, conv, j) >= opts.tol {
        RunAfterFound(pass, zs, conv, opts, j + 1);
      }
    }
  }

  lemma {:induction false} RunAfterExhausted(pass: PassFn, zs: seq<Complex>, conv: seq<bool>, opts: Options, j: nat)
    requires j <= opts.maxIters
    ensures var s := Iter(pass, zs, conv, j);
      var r := Run(pass, s.zs, s.converged, opts, j);
      !r.found ==> r.zs == Iter(pass, zs, conv, opts.maxIters).zs
    decreases opts.maxIters - j
  {
    if j < opts.maxIters {
      RunStep(pass, zs, conv, opts, j);
      if PassTolAt(pass, zs, conv, j) >= opts.tol {
        RunAfterExhausted(pass, zs, conv, opts, j + 1);
      }
    }
  }

  lemma {:induction false} RunAfterHistory(pass: PassFn, zs: seq<Complex>, conv: seq<bool>, opts: Options, j: nat)
    requires j <= opts.maxIters
    ensures var s := Iter(pass, zs, conv, j);
      var r := Run(pass, s.zs, s.converged, opts, j);
      forall k :: j <= k < r.niter ==> PassTolAt(pass, zs, conv, k) >= opts.tol
    decreases opts.maxIters - j
  {
    if j < opts.maxIters {
      RunStep(pass, zs, conv, opts, j);
      if PassTolAt(pass, zs, conv, j) >= opts.tol {
        RunAfterHistory(pass, zs, conv, opts, j + 1);
      }
    }
  }

  /**
   * The return protocol, for any pass: `(niter, true)` right after the first pass whose
   * tolerance is below `opts.tol`, with niter < maxIters; otherwise `(maxIters, false)` once
   * every pass of the budget had a tolerance of at least `opts.tol`.
   */
  lemma RunProtocol(pass: PassFn, zs: seq<Complex>, conv: seq<bool>, opts: Options)
    ensures var r := Run(pass, zs, conv, opts, 0);
      && (r.found ==> r.niter < opts.maxIters
                      && PassTolAt(pass, zs, conv, r.niter) < opts.tol
                      && r.zs == Iter(pass, zs, conv, r.niter + 1).zs)
      && (!r.found ==> r.niter == opts.maxIters && r.zs == Iter(pass, zs, conv, opts.maxIters).zs)
      && (forall k :: 0 <= k < r.niter ==> PassTolAt(pass, zs, conv, k) >= opts.tol)
  {
    RunAfterFound(pass, zs, conv, opts, 0);
    RunAfterExhausted(pass, zs, conv, opts, 0);
    RunAfterHistory(pass, zs, conv, opts, 0);
  }

  /** A pass that records no residual has tolerance 0, so the run stops there whenever `opts.tol > 0`. */
  lemma EmptyPassStops(pass: PassFn, zs: seq<Complex>, conv: seq<bool>, opts: Options, niter: nat)
    requires niter < opts.maxIters && opts.tol > 0.0 && pass(zs, conv).rx == []
    ensures Run(pass, zs, conv, opts, niter) == Outcome(niter, true, pass(zs, conv).zs)
  {
  }

  // ---- the drivers' run ----

  /** A pass that keeps one root and one flag per estimate and freezes the converged ones. */
  ghost predicate Frames(pass: PassFn)
  {
    forall zs: seq<Complex>, conv: seq<bool> {:trigger pass(zs, conv)} :: |zs| == |conv| ==>
      && |pass(zs, conv).zs| == |zs| && |pass(zs, conv).converged| == |zs|
      && forall j :: 0 <= j < |zs| && conv[j] ==> pass(zs, conv).converged[j] && pass(zs, conv).zs[j] == zs[j]
  }

  /** Both drivers' passes frame their converged roots. */
  lemma PassOfFrames(scheme: Scheme, coeffs: seq<real>)
    ensures Frames(PassOf(scheme, coeffs))
  {
    forall zs: seq<Complex>, conv: seq<bool> | |zs| == |conv|
      ensures var r := PassOf(scheme, coeffs)(zs, conv);
        && |r.zs| == |zs| && |r.converged| == |zs|
        && forall j :: 0 <= j < |zs| && conv[j] ==> r.converged[j] && r.zs[j] == zs[j]
    {
      assert PassOf(scheme, coeffs)(zs, conv) == Pass(scheme, coeffs, zs, conv);
    }
  }

  lemma {:induction false} IterFrames(pass: PassFn, zs: seq<Complex>, conv: seq<bool>, k: nat)
    requires Frames(pass) && |zs| == |conv|
    ensures |Iter(pass, zs, conv, k).zs| == |zs| && |Iter(pass, zs, conv, k).converged| == |zs|
    decreases k
  {
    if k > 0 {
      IterFrames(pass, zs, conv, k - 1);
    }
  }

  /** The drivers' passes keep one root and one flag per estimate. */
  lemma IterLengths(scheme: Scheme, coeffs: seq<real>, zs: seq<Complex>, conv: seq<bool>, k: nat)
    requires |zs| == |conv|
    ensures |Iter(PassOf(scheme, coeffs), zs, conv, k).zs| == |zs|
    ensures |Iter(PassOf(scheme, coeffs), zs, conv, k).converged| == |zs|
  {
    PassOfFrames(scheme, coeffs);
    IterFrames(PassOf(scheme, coeffs), zs, conv, k);
  }

  /** The return protocol of both drivers, from all flags false and niter = 0. */
  lemma SolveProtocol(scheme: Scheme, coeffs: seq<real>, zs: seq<Complex>, opts: Options)
    ensures var r := Solve(scheme, coeffs, zs, opts);
      var pass, conv := PassOf(scheme, coeffs), AllFalse(|zs|);
      && |r.zs| == |zs|
      && (r.found ==> r.niter < opts.maxIters
                      && PassTolAt(pass, zs, conv, r.niter) < opts.tol
                      && r.zs == Iter(pass, zs, conv, r.niter + 1).zs)
      && (!r.found ==> r.niter == opts.maxIters && r.zs == Iter(pass, zs, conv, opts.maxIters).zs)
      && (forall k :: 0 <= k < r.niter ==> PassTolAt(pass, zs, conv, k) >= opts.tol)
  {
    var pass, conv := PassOf(scheme, coeffs), AllFalse(|zs|);
    var r := Solve(scheme, coeffs, zs, opts);
    RunProtocol(pass, zs, conv, opts);
    IterLengths(scheme, coeffs, zs, conv, r.niter + 1);
    IterLengths(scheme, coeffs, zs, conv, opts.maxIters);
  }

  /** For a framing pass, a flag once set stays set and its root stays put. */
  lemma {:induction false} IterFlagsOnlyRise(pass: PassFn, zs: seq<Complex>, conv: seq<bool>, k1: nat, k2: nat, i: nat)
    requires Frames(pass) && |zs| == |conv| && k1 <= k2 && i < |zs|
    ensures var s1, s2 := Iter(pass, zs, conv, k1), Iter(pass, zs, conv, k2);
      && |s1.zs| == |s1.converged| == |s2.zs| == |s2.converged| == |zs|
      && (s1.converged[i] ==> s2.converged[i] && s2.zs[i] == s1.zs[i])
    decreases k2
  {
    IterFrames(pass, zs, conv, k1);
    IterFrames(pass, zs, conv, k2);
    if k2 > k1 {
      IterFlagsOnlyRise(pass, zs, conv, k1, k2 - 1, i);
      IterFrames(pass, zs, conv, k2 - 1);
    }
  }

  /** Across passes a flag never returns to false, and a converged root is never moved again. */
  lemma FlagsOnlyRise(scheme: Scheme, coeffs: seq<real>, zs: seq<Complex>, conv: seq<bool>, k1: nat, k2: nat, i: nat)
    requires |zs| == |conv| && k1 <= k2 && i < |zs|
    ensures var s1, s2 := Iter(PassOf(scheme, coeffs), zs, conv, k1), Iter(PassOf(scheme, coeffs), zs, conv, k2);
      && |s1.zs| == |s1.converged| == |s2.zs| == |s2.converged| == |zs|
      && (s1.converged[i] ==> s2.converged[i] && s2.zs[i] == s1.zs[i])
  {
    PassOfFrames(scheme, coeffs);
    IterFlagsOnlyRise(PassOf(scheme, coeffs), zs, conv, k1, k2, i);
  }

  /** With every flag already set, a pass skips every index, changes nothing and records nothing. */
  lemma AllConvergedPassIsIdle(scheme: Scheme, coeffs: seq<real>, zs: seq<Complex>, conv: seq<bool>)
    requires |zs| == |conv|
    requires forall k :: 0 <= k < |conv| ==> conv[k]
    ensures Pass(scheme, coeffs, zs, conv) == PassState(zs, conv, [])
  {
    var res, corr := ResidualOf(coeffs), CorrectionOf(coeffs);
    match scheme
    case GaussSeidel =>
      SeidelIdle(res, corr, PassState(zs, conv, []), |zs|);
    case Jacobi =>
      JacobiAllFlaggedRecordsNothing(res, zs, conv, |zs|);
      var p := JacobiPass(coeffs, zs, conv);
      assert p.zs == zs;
      assert p.converged == conv;
  }

  lemma {:induction false} SeidelIdle(res: ResidualFn, corr: CorrectionFn, start: PassState, k: nat)
    requires |start.zs| == |start.converged| && k <= |start.zs|
    requires forall j :: 0 <= j < |start.converged| ==> start.converged[j]
    ensures SeidelPrefix(res, corr, start, k) == start
    decreases k
  {
    if k > 0 {
      SeidelIdle(res, corr, start, k - 1);
    }
  }

  lemma {:induction false} JacobiAllFlaggedRecordsNothing(res: ResidualFn, zsc: seq<Complex>, conv: seq<bool>, n: nat)
    requires n <= |zsc| == |conv|
    requires forall k :: 0 <= k < n ==> JacobiFlag(res, zsc, conv, k)
    ensures JacobiResiduals(res, zsc, conv, n) == []
    decreases n
  {
    if n > 0 {
      JacobiAllFlaggedRecordsNothing(res, zsc, conv, n - 1);
    }
  }

  // ---- the Gauss-Seidel pass ----

  /** Visits at index k and above never touch slots below k. */
  lemma {:induction false} SeidelPrefixStable(res: ResidualFn, corr: CorrectionFn, start: PassState, k: nat, n: nat)
    requires |start.zs| == |start.converged| && k <= n <= |start.zs|
    ensures forall j :: 0 <= j < k ==>
      SeidelPrefix(res, corr, start, n).zs[j] == SeidelPrefix(res, corr, start, k).zs[j]
      && SeidelPrefix(res, corr, start, n).converged[j] == SeidelPrefix(res, corr, start, k).converged[j]
    decreases n
  {
    if n > k {
      SeidelPrefixStable(res, corr, start, k, n - 1);
      var s := SeidelPrefix(res, corr, start, n - 1);
      forall j | 0 <= j < k
        ensures SeidelPrefix(res, corr, start, n).zs[j] == s.zs[j]
        ensures SeidelPrefix(res, corr, start, n).converged[j] == s.converged[j]
      {
      }
    }
  }

  /** After a Gauss-Seidel pass, index k is converged exactly when it was or its residual at the pass start is below MicroTol. */
  lemma SeidelFlags(coeffs: seq<real>, zs: seq<Complex>, conv: seq<bool>, k: nat)
    requires |coeffs| >= 2 && |zs| == |conv| && k < |zs|
    ensures SeidelPass(coeffs, zs, conv).converged[k] <==> conv[k] || Residual(coeffs, zs[k]) < MicroTol
  {
    var start := PassState(zs, conv, []);
    SeidelPrefixStable(ResidualOf(coeffs), CorrectionOf(coeffs), start, k + 1, |zs|);
    SeidelPrefixAhead(ResidualOf(coeffs), CorrectionOf(coeffs), start, k, k);
    SeidelVisit(coeffs, start, k);
  }

  /**
   * The Gauss-Seidel property: every index not converged at the pass start is corrected, even
   * one that converges in this very pass, and its correction reads the roots as they are when
   * it is visited: the new values below k and the pass-start values from k on.
   */
  lemma SeidelReadsLive(coeffs: seq<real>, zs: seq<Complex>, conv: seq<bool>, k: nat)
    requires |coeffs| >= 2 && |zs| == |conv| && k < |zs| && !conv[k]
    ensures var p := SeidelPass(coeffs, zs, conv);
      p.zs[k] == Sub(zs[k], Correction(coeffs, p.zs[..k] + zs[k..], k))
  {
    var res, corr := ResidualOf(coeffs), CorrectionOf(coeffs);
    var start := PassState(zs, conv, []);
    var p := SeidelPass(coeffs, zs, conv);
    var live := SeidelPrefix(res, corr, start, k);
    SeidelPrefixStable(res, corr, start, k, |zs|);
    SeidelPrefixStable(res, corr, start, k + 1, |zs|);
    SeidelPrefixAhead(res, corr, start, k, k);
    SeidelVisit(coeffs, start, k);
    assert live.zs == p.zs[..k] + zs[k..] by {
      forall j | 0 <= j < |zs|
        ensures live.zs[j] == (p.zs[..k] + zs[k..])[j]
      {
        if j < k {
          assert (p.zs[..k] + zs[k..])[j] == p.zs[j];
        } else {
          SeidelPrefixAhead(res, corr, start, k, j);
          assert (p.zs[..k] + zs[k..])[j] == zs[j];
        }
      }
    }
  }

  lemma {:induction false} SeidelPrefixResiduals(res: ResidualFn, corr: CorrectionFn, start: PassState, n: nat, x: real)
    requires |start.zs| == |start.converged| && n <= |start.zs| && start.rx == []
    ensures x in SeidelPrefix(res, corr, start, n).rx <==>
      exists k :: 0 <= k < n && !start.converged[k] && x == res(start.zs[k])
    decreases n
  {
    if n > 0 {
      SeidelPrefixResiduals(res, corr, start, n - 1, x);
      SeidelPrefixAhead(res, corr, start, n - 1, n - 1);
    }
  }

  /** A Gauss-Seidel pass records the pass-start residual of every index not converged at the pass start, and nothing else. */
  lemma SeidelRecordsActive(coeffs: seq<real>, zs: seq<Complex>, conv: seq<bool>, x: real)
    requires |coeffs| >= 2 && |zs| == |conv|
    ensures x in SeidelPass(coeffs, zs, conv).rx <==>
      exists k :: 0 <= k < |zs| && !conv[k] && x == Residual(coeffs, zs[k])
  {
    SeidelPrefixResiduals(ResidualOf(coeffs), CorrectionOf(coeffs), PassState(zs, conv, []), |zs|, x);
  }

  // ---- the Jacobi pass ----

  /**
   * The Jacobi property: after a pass index k is converged exactly when it was or its residual at
   * the snapshot is below MicroTol; such a root is left unchanged, any other is corrected from
   * the snapshot alone.
   */
  lemma JacobiReadsSnapshot(coeffs: seq<real>, zsc: seq<Complex>, conv: seq<bool>, k: nat)
    requires |coeffs| >= 2 && |zsc| == |conv| && k < |zsc|
    ensures var p := JacobiPass(coeffs, zsc, conv);
      && (p.converged[k] <==> conv[k] || Residual(coeffs, zsc[k]) < MicroTol)
      && p.zs[k] == if p.converged[k] then zsc[k] else Sub(zsc[k], Correction(coeffs, zsc, k))
  {
    JacobiVisit(coeffs, zsc, conv, k);
  }

  lemma {:induction false} JacobiResidualsMembers(res: ResidualFn, zsc: seq<Complex>, conv: seq<bool>, n: nat)
    requires n <= |zsc| == |conv|
    ensures forall x :: x in JacobiResiduals(res, zsc, conv, n) <==>
      exists k :: 0 <= k < n && !conv[k] && res(zsc[k]) >= MicroTol && x == res(zsc[k])
    decreases n
  {
    if n > 0 {
      JacobiResidualsMembers(res, zsc, conv, n - 1);
    }
  }

  /** A Jacobi pass records exactly the residuals of the indices it corrects. */
  lemma JacobiRecordsCorrected(coeffs: seq<real>, zsc: seq<Complex>, conv: seq<bool>, x: real)
    requires |coeffs| >= 2 && |zsc| == |conv|
    ensures x in JacobiPass(coeffs, zsc, conv).rx <==>
      exists k :: 0 <= k < |zsc| && !conv[k] && Residual(coeffs, zsc[k]) >= MicroTol && x == Residual(coeffs, zsc[k])
  {
    JacobiResidualsMembers(ResidualOf(coeffs), zsc, conv, |zsc|);
  }

  // ---- the pass tolerance ----

  /** The maximum does not depend on the order of the residuals, so a parallel reduction may combine them in any order. */
  lemma PassTolPermutation(a: seq<real>, b: seq<real>)
    requires multiset(a) == multiset(b)
    ensures PassTol(a) == PassTol(b)
  {
    var ta, tb := PassTol(a), PassTol(b);
    forall x | x in b
      ensures x in a
    {
      assert x in multiset(b);
    }
    forall x | x in a
      ensures x in b
    {
      assert x in multiset(a);
    }
    assert tb <= ta by {
      if tb != 0.0 {
        var k :| 0 <= k < |a| && a[k] == tb;
      }
    }
    assert ta <= tb by {
      if ta != 0.0 {
        var k :| 0 <= k < |b| && b[k] == ta;
      }
    }
  }

  /**
   * From the same roots and flags, the Jacobi pass tolerance never exceeds the Gauss-Seidel one,
   * and the two differ only when every active residual is below MicroTol: then Jacobi records
   * none (tolerance 0) and Gauss-Seidel a maximum below MicroTol.
   */
  lemma ToleranceAgreement(coeffs: seq<real>, zs: seq<Complex>, conv: seq<bool>)
    requires |coeffs| >= 2 && |zs| == |conv|
    ensures var ts := PassTol(SeidelPass(coeffs, zs, conv).rx);
      var tj := PassTol(JacobiPass(coeffs, zs, conv).rx);
      tj <= ts && (tj == ts || (tj == 0.0 && ts < MicroTol))
  {
    var srx := SeidelPass(coeffs, zs, conv).rx;
    var jrx := JacobiPass(coeffs, zs, conv).rx;
    var ts, tj := PassTol(srx), PassTol(jrx);
    forall x | x in jrx
      ensures x in srx && x >= MicroTol
    {
      JacobiRecordsCorrected(coeffs, zs, conv, x);
      SeidelRecordsActive(coeffs, zs, conv, x);
    }
    forall x | x in srx && x >= MicroTol
      ensures x in jrx
    {
      JacobiRecordsCorrected(coeffs, zs, conv, x);
      SeidelRecordsActive(coeffs, zs, conv, x);
    }
    assert tj <= ts by {
      if tj != 0.0 {
        assert tj in srx;
        var k :| 0 <= k < |srx| && srx[k] == tj;
      }
    }
    if ts >= MicroTol {
      assert ts in srx;
      assert ts in jrx;
      var k :| 0 <= k < |jrx| && jrx[k] == ts;
    }
  }

  // ---- exact roots ----

  /** At an exact root the correction vanishes, so the root is a fixed point of both drivers. */
  lemma CorrectionAtRoot(coeffs: seq<real>, zs: seq<Complex>, i: nat)
    requires |coeffs| >= 2 && i < |zs| && HornerC(coeffs, zs[i]) == Zero
    ensures Correction(coeffs, zs, i) == Zero
  {
  }

  /** With a single root there is no repulsion term, and the correction is Newton's step P(z) / P'(z). */
  lemma NewtonWhenAlone(coeffs: seq<real>, z: Complex)
    requires |coeffs| >= 2
    ensures Correction(coeffs, [z], 0) == Div(HornerC(coeffs, z), HornerC(Derivative(coeffs), z))
  {
  }

  /** The visit of an index with zero residual and zero correction moves nothing and records zeros. */
  lemma SeidelStepAtRoot(res: ResidualFn, corr: CorrectionFn, s: PassState, i: nat)
    requires |s.zs| == |s.converged| && i < |s.zs|
    requires res(s.zs[i]) == 0.0 && corr(s.zs, i) == Zero
    ensures SeidelStep(res, corr, s, i).zs == s.zs
    ensures SeidelStep(res, corr, s, i).rx == s.rx || SeidelStep(res, corr, s, i).rx == s.rx + [0.0, 0.0]
  {
    if !s.converged[i] {
      assert s.zs[i := Sub(s.zs[i], Zero)] == s.zs;
    }
  }

  /** Appending a zero residual leaves the tolerance as it was. */
  lemma PassTolAppendZero(rx: seq<real>)
    ensures PassTol(rx + [0.0]) == PassTol(rx)
  {
    assert (rx + [0.0])[..|rx|] == rx;
  }

  /** A Gauss-Seidel pass over roots with zero corrections moves none of them. */
  lemma {:induction false} SeidelAtRootsStay(res: ResidualFn, corr: CorrectionFn, start: PassState, k: nat)
    requires |start.zs| == |start.converged| && k <= |start.zs|
    requires forall j {:trigger corr(start.zs, j)} :: 0 <= j < |start.zs| ==> corr(start.zs, j) == Zero
    ensures SeidelPrefix(res, corr, start, k).zs == start.zs
    decreases k
  {
    if k > 0 {
      SeidelAtRootsStay(res, corr, start, k - 1);
      var s := SeidelPrefix(res, corr, start, k - 1);
      assert s.zs[k - 1 := Sub(s.zs[k - 1], Zero)] == s.zs;
    }
  }

  /** ... and, when their residuals are zero as well, records nothing but zero residuals. */
  lemma {:induction false} SeidelAtRoots(res: ResidualFn, corr: CorrectionFn, start: PassState, k: nat)
    requires |start.zs| == |start.converged| && k <= |start.zs| && start.rx == []
    requires forall j {:trigger res(start.zs[j])} :: 0 <= j < |start.zs| ==> res(start.zs[j]) == 0.0
    requires forall j {:trigger corr(start.zs, j)} :: 0 <= j < |start.zs| ==> corr(start.zs, j) == Zero
    ensures PassTol(SeidelPrefix(res, corr, start, k).rx) == 0.0
    decreases k
  {
    if k > 0 {
      SeidelAtRoots(res, corr, start, k - 1);
      SeidelAtRootsStay(res, corr, start, k - 1);
      var s := SeidelPrefix(res, corr, start, k - 1);
      assert res(s.zs[k - 1]) == 0.0;
      PassTolAppendZero(s.rx);
      PassTolAppendZero(s.rx + [0.0]);
      assert s.rx + [0.0] + [0.0] == s.rx + [0.0, 0.0];
    }
  }

  /** A Gauss-Seidel pass over exact roots leaves them in place and computes the tolerance 0. */
  lemma SeidelPassAtRoots(coeffs: seq<real>, zs: seq<Complex>, conv: seq<bool>)
    requires |coeffs| >= 2 && |zs| == |conv| && forall j :: 0 <= j < |zs| ==> HornerC(coeffs, zs[j]) == Zero
    ensures SeidelPass(coeffs, zs, conv).zs == zs && PassTol(SeidelPass(coeffs, zs, conv).rx) == 0.0
  {
    var res, corr := ResidualOf(coeffs), CorrectionOf(coeffs);
    forall j | 0 <= j < |zs|
      ensures res(zs[j]) == 0.0 && corr(zs, j) == Zero
    {
      CorrectionAtRoot(coeffs, zs, j);
    }
    SeidelAtRootsStay(res, corr, PassState(zs, conv, []), |zs|);
    SeidelAtRoots(res, corr, PassState(zs, conv, []), |zs|);
  }

  /** A Jacobi pass over exact roots flags them all, leaves them in place and records nothing. */
  lemma JacobiPassAtRoots(coeffs: seq<real>, zs: seq<Complex>, conv: seq<bool>)
    requires |coeffs| >= 2 && |zs| == |conv| && forall j :: 0 <= j < |zs| ==> HornerC(coeffs, zs[j]) == Zero
    ensures JacobiPass(coeffs, zs, conv).zs == zs && JacobiPass(coeffs, zs, conv).rx == []
  {
    var res := ResidualOf(coeffs);
    forall j | 0 <= j < |zs|
      ensures JacobiFlag(res, zs, conv, j)
    {
      JacobiVisit(coeffs, zs, conv, j);
      assert Residual(coeffs, zs[j]) == 0.0;
    }
    JacobiAllFlaggedRecordsNothing(res, zs, conv, |zs|);
    var p := JacobiPass(coeffs, zs, conv);
    assert p.zs == zs;
  }

  /**
   * When every estimate is already an exact root, either driver stops after its first pass with
   * `(0, true)` and the roots unchanged, provided there is a pass to run and `opts.tol > 0`.
   */
  lemma ExactRootsStopAtOnce(scheme: Scheme, coeffs: seq<real>, zs: seq<Complex>, opts: Options)
    requires |coeffs| >= 2 && opts.maxIters > 0 && opts.tol > 0.0
    requires forall j :: 0 <= j < |zs| ==> HornerC(coeffs, zs[j]) == Zero
    ensures Solve(scheme, coeffs, zs, opts) == Outcome(0, true, zs)
  {
    var conv := AllFalse(|zs|);
    RunVisit(scheme, coeffs, zs, conv, opts, 0);
    match scheme
    case GaussSeidel =>
      SeidelPassAtRoots(coeffs, zs, conv);
    case Jacobi =>
      JacobiPassAtRoots(coeffs, zs, conv);
  }
}
