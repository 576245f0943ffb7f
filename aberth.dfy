/**
 * The Aberth iteration of `aberth` (Gauss-Seidel: each correction reads the live roots) and of
 * `aberth_mt` (Jacobi: each correction reads a snapshot taken at the start of the pass).
 *
 * The specification functions describe one pass (SeidelPass, JacobiPass) and the whole run
 * (Run, Solve); the methods Aberth and AberthMT are the imperative drivers over arrays, each
 * proved to end in exactly the state and result that Solve describes.
 *
 * The passes are written for any residual measure `res` and any correction `corr`, and the run
 * for any pass; Pass and Solve then fix them to the ones the drivers compute. Lemmas about the
 * shape of a pass or of a run are proved once at that level, apart from the polynomial.
 */
module Aberth {
  import opened ComplexNum
  import opened Horner

  /** The two settings of the configuration record the drivers read. */
  datatype Options = Options(maxIters: nat, tol: real)

  /** The per-root tolerance: a root whose residual is below it is flagged converged (1e-15). */
  const MicroTol: real := 0.000000000000001

  datatype Scheme = GaussSeidel | Jacobi

  /** During a pass: the roots, the convergence flags and the residuals recorded so far. */
  datatype PassState = PassState(zs: seq<Complex>, converged: seq<bool>, rx: seq<real>)

  /** What a driver returns, `(niter, found)`, with the final roots. */
  datatype Outcome = Outcome(niter: nat, found: bool, zs: seq<Complex>)

  /** A residual measure of one root, a correction of root i read from given roots, and a whole pass. */
  type ResidualFn = Complex -> real
  type CorrectionFn = (seq<Complex>, nat) -> Complex
  type PassFn = (seq<Complex>, seq<bool>) -> PassState

  /** The residual of a root estimate: `l1_norm` of P(z). */
  function Residual(coeffs: seq<real>, z: Complex): (r: real)
    requires |coeffs| > 0
    ensures r >= 0.0
    ensures r == 0.0 <==> HornerC(coeffs, z) == Zero
  {
    L1Norm(HornerC(coeffs, z))
  }

  /** The fold `acc -= pp / (zi - zs[j])` over the indices j < n other than i, in ascending order. */
  function RepelFrom(acc: Complex, pp: Complex, zi: Complex, zs: seq<Complex>, i: nat, n: nat): Complex
    requires n <= |zs|
    decreases n
  {
    if n == 0 then acc
    else
      var a := RepelFrom(acc, pp, zi, zs, i, n - 1);
      if n - 1 == i then a else Sub(a, Div(pp, Sub(zi, zs[n - 1])))
  }

  /**
   * The Aberth correction for root i read from the roots `zs`:
   * P(zi) / (P'(zi) - sum over j != i of P(zi) / (zi - zj)).
   */
  function Correction(coeffs: seq<real>, zs: seq<Complex>, i: nat): (c: Complex)
    requires |coeffs| >= 2 && i < |zs|
    ensures HornerC(coeffs, zs[i]) == Zero ==> c == Zero
  {
    var zi := zs[i];
    var pp := HornerC(coeffs, zi);
    Div(pp, RepelFrom(HornerC(Derivative(coeffs), zi), pp, zi, zs, i, |zs|))
  }

  /** Residual as the function value the pass definitions take (the drivers require degree >= 1). */
  function ResidualOf(coeffs: seq<real>): ResidualFn
  {
    z => if |coeffs| > 0 then Residual(coeffs, z) else 0.0
  }

  /** Correction as the function value the pass definitions take. */
  function CorrectionOf(coeffs: seq<real>): CorrectionFn
  {
    (zs: seq<Complex>, i: nat) => if |coeffs| >= 2 && i < |zs| then Correction(coeffs, zs, i) else Zero
  }

  /**
   * One visit of index i in a Gauss-Seidel pass: a converged index is skipped; otherwise the
   * flag is set when the residual is below MicroTol (the residual is then recorded twice, as the
   * source pushes it in both places), and the root is corrected in place either way.
   */
  function SeidelStep(res: ResidualFn, corr: CorrectionFn, s: PassState, i: nat): PassState
    requires |s.zs| == |s.converged| && i < |s.zs|
  {
    if s.converged[i] then s
    else
      var tolI := res(s.zs[i]);
      var hit := tolI < MicroTol;
      PassState(s.zs[i := Sub(s.zs[i], corr(s.zs, i))],
                if hit then s.converged[i := true] else s.converged,
                if hit then s.rx + [tolI, tolI] else s.rx + [tolI])
  }

  /** The Gauss-Seidel pass after visiting indices 0 .. k-1. */
  function SeidelPrefix(res: ResidualFn, corr: CorrectionFn, start: PassState, k: nat): (r: PassState)
    requires |start.zs| == |start.converged| && k <= |start.zs|
    ensures |r.zs| == |start.zs| && |r.converged| == |start.converged|
    decreases k
  {
    if k == 0 then start else SeidelStep(res, corr, SeidelPrefix(res, corr, start, k - 1), k - 1)
  }

  /** A visit at index k or above has not yet reached slot j >= k, so it still holds its pass-start value and flag. */
  lemma {:induction false} SeidelPrefixAhead(res: ResidualFn, corr: CorrectionFn, start: PassState, k: nat, j: nat)
    requires |start.zs| == |start.converged| && k <= j < |start.zs|
    ensures SeidelPrefix(res, corr, start, k).zs[j] == start.zs[j]
    ensures SeidelPrefix(res, corr, start, k).converged[j] == start.converged[j]
    decreases k
  {
    if k > 0 {
      SeidelPrefixAhead(res, corr, start, k - 1, j);
    }
  }

  /** A slot converged at the pass start is neither moved nor unflagged by the first k visits. */
  lemma {:induction false} SeidelPrefixFrozen(res: ResidualFn, corr: CorrectionFn, start: PassState, k: nat, j: nat)
    requires |start.zs| == |start.converged| && k <= |start.zs| && j < |start.zs| && start.converged[j]
    ensures SeidelPrefix(res, corr, start, k).converged[j]
    ensures SeidelPrefix(res, corr, start, k).zs[j] == start.zs[j]
    decreases k
  {
    if k > 0 {
      SeidelPrefixFrozen(res, corr, start, k - 1, j);
    }
  }

  function SeidelPass(coeffs: seq<real>, zs: seq<Complex>, conv: seq<bool>): PassState
    requires |zs| == |conv|
  {
    SeidelPrefix(ResidualOf(coeffs), CorrectionOf(coeffs), PassState(zs, conv, []), |zs|)
  }

  /** A Gauss-Seidel pass leaves every root converged at its start converged and in place. */
  lemma SeidelPassFrozen(coeffs: seq<real>, zs: seq<Complex>, conv: seq<bool>)
    requires |zs| == |conv|
    ensures forall j :: 0 <= j < |zs| && conv[j] ==>
      SeidelPass(coeffs, zs, conv).converged[j] && SeidelPass(coeffs, zs, conv).zs[j] == zs[j]
  {
    forall j | 0 <= j < |zs| && conv[j]
      ensures SeidelPass(coeffs, zs, conv).converged[j] && SeidelPass(coeffs, zs, conv).zs[j] == zs[j]
    {
      SeidelPrefixFrozen(ResidualOf(coeffs), CorrectionOf(coeffs), PassState(zs, conv, []), |zs|, j);
    }
  }

  /** In a Jacobi pass, index i ends converged if it was, or if its residual at the snapshot is below MicroTol. */
  function JacobiFlag(res: ResidualFn, zsc: seq<Complex>, conv: seq<bool>, i: nat): bool
    requires i < |zsc| == |conv|
  {
    conv[i] || res(zsc[i]) < MicroTol
  }

  /** ... and its root is left alone if so, else corrected from the snapshot. */
  function JacobiSlot(res: ResidualFn, corr: CorrectionFn, zsc: seq<Complex>, conv: seq<bool>, i: nat): Complex
    requires i < |zsc| == |conv|
  {
    if JacobiFlag(res, zsc, conv, i) then zsc[i] else Sub(zsc[i], corr(zsc, i))
  }

  /** The residuals a Jacobi pass contributes to its maximum, for indices below n, in index order. */
  function JacobiResiduals(res: ResidualFn, zsc: seq<Complex>, conv: seq<bool>, n: nat): seq<real>
    requires n <= |zsc| == |conv|
    decreases n
  {
    if n == 0 then []
    else
      JacobiResiduals(res, zsc, conv, n - 1)
      + (if JacobiFlag(res, zsc, conv, n - 1) then [] else [res(zsc[n - 1])])
  }

  /** A Jacobi pass: every slot and every flag is a function of the snapshot and of that index's own flag. */
  function JacobiUpdate(res: ResidualFn, corr: CorrectionFn, zsc: seq<Complex>, conv: seq<bool>): PassState
    requires |zsc| == |conv|
  {
    PassState(seq(|zsc|, i requires 0 <= i < |zsc| => JacobiSlot(res, corr, zsc, conv, i)),
              seq(|zsc|, i requires 0 <= i < |zsc| => JacobiFlag(res, zsc, conv, i)),
              JacobiResiduals(res, zsc, conv, |zsc|))
  }

  function JacobiPass(coeffs: seq<real>, zsc: seq<Complex>, conv: seq<bool>): PassState
    requires |zsc| == |conv|
  {
    JacobiUpdate(ResidualOf(coeffs), CorrectionOf(coeffs), zsc, conv)
  }

  /** One pass of either driver; a converged root stays converged and is not moved. */
  function Pass(scheme: Scheme, coeffs: seq<real>, zs: seq<Complex>, conv: seq<bool>): (r: PassState)
    requires |zs| == |conv|
    ensures |r.zs| == |zs| && |r.converged| == |conv|
    ensures forall j :: 0 <= j < |zs| && conv[j] ==> r.converged[j] && r.zs[j] == zs[j]
  {
    match scheme
    case GaussSeidel => SeidelPassFrozen(coeffs, zs, conv); SeidelPass(coeffs, zs, conv)
    case Jacobi => JacobiPass(coeffs, zsc := zs, conv := conv)
  }

  /** Pass as the function value Run takes. */
  function PassOf(scheme: Scheme, coeffs: seq<real>): PassFn
  {
    (zs: seq<Complex>, conv: seq<bool>) => if |zs| == |conv| then Pass(scheme, coeffs, zs, conv) else PassState(zs, conv, [])
  }

  /** The pass tolerance: the largest recorded residual, or 0 when none is recorded. */
  function PassTol(rx: seq<real>): (t: real)
    ensures 0.0 <= t
    ensures forall k :: 0 <= k < |rx| ==> rx[k] <= t
    ensures t == 0.0 || t in rx
    decreases |rx|
  {
    if rx == [] then 0.0
    else
      var t := PassTol(rx[..|rx| - 1]);
      if t < rx[|rx| - 1] then rx[|rx| - 1] else t
  }

  /**
   * The run from pass number niter on: stop with `(niter, true)` after the first pass whose
   * tolerance is below `opts.tol`, or with `(maxIters, false)` once the budget is used up.
   */
  function Run(pass: PassFn, zs: seq<Complex>, conv: seq<bool>, opts: Options, niter: nat): (r: Outcome)
    ensures r.found ==> niter <= r.niter < opts.maxIters
    ensures !r.found ==> r.niter == opts.maxIters
    decreases opts.maxIters - niter
  {
    if niter >= opts.maxIters then Outcome(opts.maxIters, false, zs)
    else
      var p := pass(zs, conv);
      if PassTol(p.rx) < opts.tol then Outcome(niter, true, p.zs)
      else Run(pass, p.zs, p.converged, opts, niter + 1)
  }

  function AllFalse(n: nat): seq<bool>
  {
    seq(n, _ => false)
  }

  /** A whole driver call: every flag starts false and the pass count at 0. */
  function Solve(scheme: Scheme, coeffs: seq<real>, zs: seq<Complex>, opts: Options): Outcome
  {
    Run(PassOf(scheme, coeffs), zs, AllFalse(|zs|), opts, 0)
  }

  // The specification unfolded one step at the drivers' own residual, correction and pass;
  // the methods below reason through these rather than through the function values.

  /** Visit i of a Gauss-Seidel pass, with the residual and the correction written out. */
  lemma SeidelVisit(coeffs: seq<real>, start: PassState, i: nat)
    requires |coeffs| >= 2 && |start.zs| == |start.converged| && i < |start.zs|
    ensures var s := SeidelPrefix(ResidualOf(coeffs), CorrectionOf(coeffs), start, i);
      var tolI := Residual(coeffs, s.zs[i]);
      SeidelPrefix(ResidualOf(coeffs), CorrectionOf(coeffs), start, i + 1) ==
        if s.converged[i] then s
        else PassState(s.zs[i := Sub(s.zs[i], Correction(coeffs, s.zs, i))],
                       if tolI < MicroTol then s.converged[i := true] else s.converged,
                       if tolI < MicroTol then s.rx + [tolI, tolI] else s.rx + [tolI])
  {
  }

  /** Visit i of a Jacobi pass, with the residual and the correction written out. */
  lemma JacobiVisit(coeffs: seq<real>, zsc: seq<Complex>, conv: seq<bool>, i: nat)
    requires |coeffs| >= 2 && i < |zsc| == |conv|
    ensures var res, corr := ResidualOf(coeffs), CorrectionOf(coeffs);
      var hit := conv[i] || Residual(coeffs, zsc[i]) < MicroTol;
      && JacobiFlag(res, zsc, conv, i) == hit
      && JacobiSlot(res, corr, zsc, conv, i) == (if hit then zsc[i] else Sub(zsc[i], Correction(coeffs, zsc, i)))
      && JacobiResiduals(res, zsc, conv, i + 1)
         == JacobiResiduals(res, zsc, conv, i) + (if hit then [] else [Residual(coeffs, zsc[i])])
  {
  }

  /** A state whose slots, flags and residuals are those a Jacobi pass prescribes is that pass. */
  lemma JacobiPassOfSlots(coeffs: seq<real>, zsc: seq<Complex>, conv: seq<bool>, t: PassState)
    requires |zsc| == |conv| == |t.zs| == |t.converged|
    requires forall k :: 0 <= k < |zsc| ==>
      && t.zs[k] == JacobiSlot(ResidualOf(coeffs), CorrectionOf(coeffs), zsc, conv, k)
      && t.converged[k] == JacobiFlag(ResidualOf(coeffs), zsc, conv, k)
    requires t.rx == JacobiResiduals(ResidualOf(coeffs), zsc, conv, |zsc|)
    ensures t == JacobiPass(coeffs, zsc, conv)
  {
    var p := JacobiPass(coeffs, zsc, conv);
    assert t.zs == p.zs;
    assert t.converged == p.converged;
  }

  /** One pass of a driver's run. */
  lemma RunVisit(scheme: Scheme, coeffs: seq<real>, zs: seq<Complex>, conv: seq<bool>, opts: Options, niter: nat)
    requires |zs| == |conv| && niter < opts.maxIters
    ensures var p := Pass(scheme, coeffs, zs, conv);
      Run(PassOf(scheme, coeffs), zs, conv, opts, niter) ==
        if PassTol(p.rx) < opts.tol then Outcome(niter, true, p.zs)
        else Run(PassOf(scheme, coeffs), p.zs, p.converged, opts, niter + 1)
  {
  }

  /** The loop `if tol < result { tol = result }` over the recorded residuals. */
  method PassTolerance(rx: seq<real>) returns (tol: real)
    ensures tol == PassTol(rx)
  {
    tol := 0.0;
    for k := 0 to |rx|
      invariant tol == PassTol(rx[..k])
    {
      assert rx[..k + 1][..k] == rx[..k];
      if tol < rx[k] {
        tol := rx[k];
      }
    }
    assert rx[..|rx|] == rx;
  }

  /**
   * The inner loop `pp1 -= pp / (zi - zj)` over the roots in `zs` other than index i, starting
   * from P'(zi) as given by `pb`. The Gauss-Seidel driver passes the live roots, the Jacobi
   * driver the snapshot.
   */
  method Denominator(pb: seq<real>, pp: Complex, zi: Complex, zs: array<Complex>, i: nat) returns (pp1: Complex)
    requires |pb| > 0 && i < zs.Length
    ensures pp1 == RepelFrom(HornerC(pb, zi), pp, zi, zs[..], i, zs.Length)
  {
    pp1 := HornerC(pb, zi);
    for j := 0 to zs.Length
      invariant pp1 == RepelFrom(HornerC(pb, zi), pp, zi, zs[..], i, j)
    {
      if j != i {
        pp1 := Sub(pp1, Div(pp, Sub(zi, zs[j])));
      }
    }
  }

  /** One pass of `aberth`: indices in ascending order, each correction written back at once. */
  method SeidelSweep(coeffs: seq<real>, pb: seq<real>, zs: array<Complex>, converged: array<bool>)
    returns (rx: seq<real>)
    requires |coeffs| >= 2 && pb == Derivative(coeffs) && converged.Length == zs.Length
    modifies zs, converged
    ensures PassState(zs[..], converged[..], rx) == SeidelPass(coeffs, old(zs[..]), old(converged[..]))
  {
    rx := [];
    ghost var start := PassState(zs[..], converged[..], []);
    for i := 0 to zs.Length
      invariant PassState(zs[..], converged[..], rx) == SeidelPrefix(ResidualOf(coeffs), CorrectionOf(coeffs), start, i)
    {
      SeidelVisit(coeffs, start, i);
      if converged[i] {
        continue;
      }
      ghost var before := PassState(zs[..], converged[..], rx);
      var zi := zs[i];
      var pp := HornerC(coeffs, zi);
      var tolI := L1Norm(pp);
      assert tolI == Residual(coeffs, before.zs[i]);
      if tolI < MicroTol {
        converged[i] := true;
        rx := rx + [tolI];
      }
      assert converged[..] == if tolI < MicroTol then before.converged[i := true] else before.converged;
      var pp1 := Denominator(pb, pp, zi, zs, i);
      var dt := Div(pp, pp1);
      assert dt == Correction(coeffs, before.zs, i);
      zs[i] := Sub(zs[i], dt);
      assert zs[..] == before.zs[i := Sub(before.zs[i], dt)];
      rx := rx + [tolI];
      assert rx == if tolI < MicroTol then before.rx + [tolI, tolI] else before.rx + [tolI];
    }
  }

  /**
   * The visits of one `aberth_mt` pass, given the snapshot `zsc` taken at its start: each visit
   * reads the snapshot and writes only its own root and flag.
   */
  method JacobiVisits(coeffs: seq<real>, pb: seq<real>, zs: array<Complex>, zsc: array<Complex>, converged: array<bool>)
    returns (rx: seq<real>)
    requires |coeffs| >= 2 && pb == Derivative(coeffs)
    requires zsc != zs && zsc.Length == zs.Length && converged.Length == zs.Length && zs[..] == zsc[..]
    modifies zs, converged
    ensures forall k :: 0 <= k < zs.Length ==>
      && zs[k] == JacobiSlot(ResidualOf(coeffs), CorrectionOf(coeffs), zsc[..], old(converged[..]), k)
      && converged[k] == JacobiFlag(ResidualOf(coeffs), zsc[..], old(converged[..]), k)
    ensures rx == JacobiResiduals(ResidualOf(coeffs), zsc[..], old(converged[..]), zs.Length)
  {
    var m := zs.Length;
    ghost var snap := zsc[..];
    ghost var conv0 := converged[..];
    ghost var res, corr := ResidualOf(coeffs), CorrectionOf(coeffs);
    rx := [];
    for i := 0 to m
      invariant zsc[..] == snap
      invariant forall k :: 0 <= k < i ==>
        zs[k] == JacobiSlot(res, corr, snap, conv0, k) && converged[k] == JacobiFlag(res, snap, conv0, k)
      invariant forall k :: i <= k < m ==> zs[k] == snap[k] && converged[k] == conv0[k]
      invariant rx == JacobiResiduals(res, snap, conv0, i)
    {
      JacobiVisit(coeffs, snap, conv0, i);
      if converged[i] {
        continue;
      }
      var zi := zs[i];
      var pp := HornerC(coeffs, zi);
      var tolI := L1Norm(pp);
      assert zi == snap[i] && tolI == Residual(coeffs, snap[i]);
      if tolI < MicroTol {
        converged[i] := true;
      } else {
        var pp1 := Denominator(pb, pp, zi, zsc, i);
        var dt := Div(pp, pp1);
        assert dt == Correction(coeffs, snap, i);
        zs[i] := Sub(zs[i], dt);
        rx := rx + [tolI];
      }
    }
  }

  /** One pass of `aberth_mt`: copy the roots into the snapshot, then visit every index. */
  method JacobiSweep(coeffs: seq<real>, pb: seq<real>, zs: array<Complex>, zsc: array<Complex>, converged: array<bool>)
    returns (rx: seq<real>)
    requires |coeffs| >= 2 && pb == Derivative(coeffs)
    requires zsc != zs && zsc.Length == zs.Length && converged.Length == zs.Length
    modifies zs, zsc, converged
    ensures zsc[..] == old(zs[..])
    ensures PassState(zs[..], converged[..], rx) == JacobiPass(coeffs, old(zs[..]), old(converged[..]))
  {
    var m := zs.Length;
    forall k | 0 <= k < m {
      zsc[k] := zs[k];
    }
    ghost var snap, conv0 := zsc[..], converged[..];
    assert snap == old(zs[..]) && conv0 == old(converged[..]);
    rx := JacobiVisits(coeffs, pb, zs, zsc, converged);
    assert zsc[..] == snap;
    JacobiPassOfSlots(coeffs, snap, conv0, PassState(zs[..], converged[..], rx));
  }

  /**
   * `aberth`: the Gauss-Seidel driver. Each root's correction reads the live array, so roots
   * already corrected in this pass are seen with their new values.
   */
  method Aberth(coeffs: seq<real>, zs: array<Complex>, opts: Options) returns (niter: nat, found: bool)
    requires |coeffs| >= 2
    modifies zs
    ensures var r := Solve(GaussSeidel, coeffs, old(zs[..]), opts);
      niter == r.niter && found == r.found && zs[..] == r.zs
  {
    var m := zs.Length;
    var converged := new bool[m](_ => false);
    var pb := DerivativeCoeffs(coeffs);
    ghost var goal := Solve(GaussSeidel, coeffs, zs[..], opts);
    assert converged[..] == AllFalse(m);
    niter := 0;
    while niter < opts.maxIters
      invariant niter <= opts.maxIters
      invariant Run(PassOf(GaussSeidel, coeffs), zs[..], converged[..], opts, niter) == goal
    {
      RunVisit(GaussSeidel, coeffs, zs[..], converged[..], opts, niter);
      var rx := SeidelSweep(coeffs, pb, zs, converged);
      var tol := PassTolerance(rx);
      if tol < opts.tol {
        found := true;
        return;
      }
      niter := niter + 1;
    }
    found := false;
  }

  /**
   * `aberth_mt`: the Jacobi driver, run here as a sequential loop over the indices of each pass.
   * The reduction starts from `tol = 0` and takes the maximum of the recorded residuals.
   */
  method AberthMT(coeffs: seq<real>, zs: array<Complex>, opts: Options) returns (niter: nat, found: bool)
    requires |coeffs| >= 2
    modifies zs
    ensures var r := Solve(Jacobi, coeffs, old(zs[..]), opts);
      niter == r.niter && found == r.found && zs[..] == r.zs
  {
    var m := zs.Length;
    var pb := DerivativeCoeffs(coeffs);
    var zsc := new Complex[m](_ => Zero);
    var converged := new bool[m](_ => false);
    ghost var goal := Solve(Jacobi, coeffs, zs[..], opts);
    assert converged[..] == AllFalse(m);
    niter := 0;
    while niter < opts.maxIters
      invariant niter <= opts.maxIters
      invariant Run(PassOf(Jacobi, coeffs), zs[..], converged[..], opts, niter) == goal
    {
      RunVisit(Jacobi, coeffs, zs[..], converged[..], opts, niter);
      var rx := JacobiSweep(coeffs, pb, zs, zsc, converged);
      var tolR := PassTolerance(rx);
      var tol := 0.0;
      if tol < tolR {
        tol := tolR;
      }
      if tol < opts.tol {
        found := true;
        return;
      }
      niter := niter + 1;
    }
    found := false;
  }
}
