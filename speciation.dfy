/**
 * The speciation parameter of the tree-dating sampler: it owns the
 * birth-death(-sampling) rates, proposes changes to them with bounded
 * sliding-window and scale moves, and either hands the log
 * Metropolis-Hastings ratio back to its caller or accepts and rejects the
 * moves itself, depending on the tree-time prior in force.
 *
 * Collaborators the parameter only calls are stood in for: the model context
 * by the class Model (its numeric helpers are uninterpreted functions), the
 * tree by the datatype Tree (its node-prior queries are uninterpreted), and
 * every draw of the random source, and exp(c) of each scale move, by a
 * method argument.
 */
module ParameterSpeciation {
  import opened BirthDeathRates
  import opened Reflection

  /** The tree whose branching times the speciation prior scores. */
  datatype Tree = Tree(
    numTaxa: int,
    cbdNodePriorProb: (real, real) -> real,
    bdssTreeNodePriorProb: (real, real, real, real, real) -> real,
    calBdssTreeNodePriorProb: (real, real, real, real) -> real,
    ancCalBdssTreeNodePriorProb: (real, real, real, real) -> real)

  /**
   * The model context: which tree-time prior is in force, whether this is a
   * fixed test run, the origin time of the active tree scale, the
   * logarithm and the overflow-safe exponentiation, and the two pieces of
   * likelihood bookkeeping the parameter writes.
   */
  class Model {
    const treeTimePriorNum: int
    const fixTestRun: bool
    const treeOriginTime: real
    const ln: real -> real
    const safeExponentiation: real -> real
    var lnLGood: bool
    var myCurrLnl: real

    constructor (regime: int, fixed: bool, originTime: real, log: real -> real, safeExp: real -> real)
      ensures treeTimePriorNum == regime && fixTestRun == fixed && treeOriginTime == originTime
      ensures ln == log && safeExponentiation == safeExp
    {
      treeTimePriorNum, fixTestRun, treeOriginTime := regime, fixed, originTime;
      ln, safeExponentiation := log, safeExp;
    }

    method SetLnLGood(good: bool)
      modifies this`lnLGood
      ensures lnLGood == good
    {
      lnLGood := good;
    }

    method SetMyCurrLnl(lnl: real)
      modifies this`myCurrLnl
      ensures myCurrLnl == lnl
    {
      myCurrLnl := lnl;
    }
  }

  /**
   * The log-probability of the tree's branching times under tree-time prior
   * `regime` and rates s, as getLnTreeProb computes it once the derived
   * rates are in place.
   */
  function TreeLogProb(t: Tree, m: Model, regime: int, s: Rates): (p: real)
    ensures regime < 2 || regime > 7 ==> p == 0.0
  {
    if regime == 1 then 0.0
    else if regime == 2 then
      ((t.numTaxa - 1) as real) * m.ln(s.netDiversificaton)
        + t.cbdNodePriorProb(s.netDiversificaton, s.relativeDeath)
    else if regime == 3 then
      ((t.numTaxa - 1) as real) * m.ln(s.netDiversificaton)
        + (t.numTaxa as real) * m.ln(1.0 - s.relativeDeath)
        + t.cbdNodePriorProb(s.netDiversificaton, s.relativeDeath)
    else if regime == 4 || regime == 5 then
      t.bdssTreeNodePriorProb(s.netDiversificaton, s.relativeDeath, s.fossilRate, s.extantSampleRate, m.treeOriginTime)
    else if regime == 6 then
      t.calBdssTreeNodePriorProb(s.birthRate, s.deathRate, s.fossilRate, s.extantSampleRate)
    else if regime == 7 then
      t.ancCalBdssTreeNodePriorProb(s.birthRate, s.deathRate, s.fossilRate, s.extantSampleRate)
    else 0.0
  }

  /**
   * What the tree-prior query depends on: regimes 2 and 3 see only the
   * relative death and net diversification rates, regimes 4 and 5 add the
   * fossil and extant sampling rates, regimes 6 and 7 see the birth, death,
   * fossil and extant sampling rates, and every other regime scores 0.
   */
  lemma TreeLogProbDependsOn(t: Tree, m: Model, regime: int, s: Rates, r: Rates)
    ensures regime < 2 || regime > 7 ==> TreeLogProb(t, m, regime, s) == 0.0
    ensures ((regime == 2 || regime == 3) &&
             s.relativeDeath == r.relativeDeath && s.netDiversificaton == r.netDiversificaton)
      ==> TreeLogProb(t, m, regime, s) == TreeLogProb(t, m, regime, r)
    ensures ((regime == 4 || regime == 5) && SamePrimaries(s, r) && s.fossilRate == r.fossilRate)
      ==> TreeLogProb(t, m, regime, s) == TreeLogProb(t, m, regime, r)
    ensures ((regime == 6 || regime == 7) &&
             s.birthRate == r.birthRate && s.deathRate == r.deathRate &&
             s.fossilRate == r.fossilRate && s.extantSampleRate == r.extantSampleRate)
      ==> TreeLogProb(t, m, regime, s) == TreeLogProb(t, m, regime, r)
  {
  }

  /** The rates after a tree query: regimes 6 and 7 recompute the derived rates first. */
  function Queried(regime: int, s: Rates): (r: Rates)
    requires regime == 6 || regime == 7 ==> Derivable(s)
    ensures SamePrimaries(s, r)
    ensures regime == 6 || regime == 7 ==> Consistent(r)
    ensures regime != 6 && regime != 7 ==> r == s
    ensures Consistent(s) ==> r == s
  {
    if regime == 6 || regime == 7 then RecomputeIsConsistent(s, s); WithDerived(s) else s
  }

  /**
   * The internal Metropolis-Hastings test: a uniform draw u accepts when it
   * lies below the safely exponentiated log ratio.
   */
  predicate Accepts(m: Model, oldProb: real, newProb: real, lnProposalRatio: real, u: real)
    ensures m.safeExponentiation((newProb - oldProb) + lnProposalRatio) >= 1.0 && u < 1.0 ==>
      Accepts(m, oldProb, newProb, lnProposalRatio, u)
    ensures m.safeExponentiation((newProb - oldProb) + lnProposalRatio) <= 0.0 && u >= 0.0 ==>
      !Accepts(m, oldProb, newProb, lnProposalRatio, u)
  {
    u < m.safeExponentiation((newProb - oldProb) + lnProposalRatio)
  }

  /** The draws one call of Update consumes, in the order it consumes them. */
  datatype UpdateDraws = UpdateDraws(
    relDeathWindow: real,
    relDeathAccept: real,
    netDivUniform: real,
    netDivScale: real,
    netDivAccept: real,
    probSWindow: real,
    probSAccept: real)

  /**
   * Window draws in [-0.5, 0.5), uniform draws in [0, 1), and the scale
   * multiplier exp(c) positive.
   */
  predicate ValidDraws(d: UpdateDraws)
  {
    -0.5 <= d.relDeathWindow < 0.5 && 0.0 <= d.relDeathAccept < 1.0 &&
    0.0 <= d.netDivUniform < 1.0 && d.netDivScale > 0.0 && 0.0 <= d.netDivAccept < 1.0 &&
    -0.5 <= d.probSWindow < 0.5 && 0.0 <= d.probSAccept < 1.0
  }

  /** Width of every sliding window. */
  const WindowWidth: real := 0.2
  /** Upper bound of the relative death rate and of the tree-aware fraction move. */
  const WindowMax: real := 0.99999
  /** Upper bound of the two probability moves without a tree. */
  const DirectWindowMax: real := 0.9999
  /** Lower bound of the net diversification rate. */
  const MinNetDiv: real := 0.0001
  /** Bounds of the fossil sampling rate. */
  const MinPsi: real := 0.0001
  const MaxPsi: real := 100.0

  /**
   * The fossil-rate proposal after reflection (the loop of updatePsiRate):
   * a value below the minimum is mirrored at it multiplicatively, and a
   * value above the maximum, directly or after that mirroring, becomes the
   * maximum itself.
   */
  function PsiReflected(x: real): (r: real)
    requires x > 0.0
    ensures MinPsi <= r <= MaxPsi
    ensures MinPsi <= x <= MaxPsi ==> r == x
    ensures x > MaxPsi ==> r == MaxPsi
    ensures x < MinPsi && MinPsi * MinPsi / x <= MaxPsi ==> r * x == MinPsi * MinPsi
    ensures x < MinPsi && MinPsi * MinPsi / x > MaxPsi ==> r == MaxPsi
  {
    if x < MinPsi then
      ReflectBelowInRange(x, MinPsi, MaxPsi);
      if MinPsi * MinPsi / x > MaxPsi then MaxPsi else MinPsi * MinPsi / x
    else if x > MaxPsi then MaxPsi
    else x
  }

  /**
   * The fossil-rate proposal of updatePsiRate from the rates q and the
   * scale factor exp(c): the current fossil rate scaled, then reflected.
   */
  function PsiMove(q: Rates, expC: real): (p: real)
    requires q.fossilRate > 0.0 && expC > 0.0
    ensures MinPsi <= p <= MaxPsi
    ensures MinPsi <= q.fossilRate * expC <= MaxPsi ==> p == q.fossilRate * expC
  {
    MulPositive(q.fossilRate, expC);
    PsiReflected(q.fossilRate * expC)
  }

  /** The values the fossil-rate reflection loop can hold, starting from x. */
  ghost predicate PsiReachable(v: real, x: real)
    requires x > 0.0
  {
    v == x || (x < MinPsi && v == MinPsi * MinPsi / x) ||
    (v == MaxPsi && (x > MaxPsi || (x < MinPsi && MinPsi * MinPsi / x > MaxPsi)))
  }

  /**
   * The rates with a fossil-rate proposal p written in and converted into an
   * extant-sampling fraction against the current death rate (lines 359-360).
   * The fraction turns back into p under the fossil-rate formula.
   */
  function PsiProposed(q: Rates, p: real): (r: Rates)
    requires q.deathRate > 0.0 && p > 0.0
    ensures r.fossilRate == p && 0.0 < r.probSpeciationS < 1.0
    ensures FossilRateOf(r.probSpeciationS, q.deathRate) == p
    ensures r.(fossilRate := q.fossilRate, probSpeciationS := q.probSpeciationS) == q
  {
    FossilFractionRoundTrip(p, q.deathRate);
    q.(fossilRate := p, probSpeciationS := p / (q.deathRate + p))
  }

  /**
   * The rates updatePsiRate leaves behind, as written: a rejection restores
   * only the fossil rate, which the recomputation right after overwrites
   * from the fraction that the proposal left in place.
   */
  function PsiOutcomeAsWritten(q: Rates, proposal: real, accepted: bool): (r: Rates)
    requires Derivable(q) && q.deathRate > 0.0 && proposal > 0.0
    ensures Consistent(r)
    ensures r.probSpeciationS == PsiProposed(q, proposal).probSpeciationS
  {
    var s := PsiProposed(q, proposal);
    RecomputeIsConsistent(s, s);
    WithDerived(if accepted then s else s.(fossilRate := q.fossilRate))
  }

  /**
   * The rates updatePsiRate evidently means to leave behind: on acceptance
   * the new fossil rate and its fraction, on rejection the old fraction, so
   * that rejecting from consistent rates changes nothing.
   */
  function PsiOutcome(q: Rates, proposal: real, accepted: bool): (r: Rates)
    requires Derivable(q) && q.deathRate > 0.0 && proposal > 0.0
    ensures Consistent(r)
    ensures accepted ==> r.probSpeciationS == PsiProposed(q, proposal).probSpeciationS
    ensures accepted && Consistent(q) ==> r.fossilRate == proposal
    ensures !accepted ==> SamePrimaries(q, r)
    ensures !accepted && Consistent(q) ==> r == q
  {
    var s := PsiProposed(q, proposal);
    RecomputeIsConsistent(s, s);
    RecomputeIsConsistent(q, q);
    if accepted then WithDerived(s) else WithDerived(q)
  }

  /**
   * As written, rejecting a fossil-rate proposal ends in the same rates as
   * accepting it, so from consistent rates a rejected proposal that differs
   * from the current fossil rate still changes the state.
   */
  lemma PsiRejectKeepsProposal(q: Rates, proposal: real)
    requires Consistent(q) && q.deathRate > 0.0 && proposal > 0.0
    ensures PsiOutcomeAsWritten(q, proposal, false) == PsiOutcomeAsWritten(q, proposal, true)
    ensures PsiOutcomeAsWritten(q, proposal, false).fossilRate == proposal
    ensures proposal != q.fossilRate ==> PsiOutcomeAsWritten(q, proposal, false) != q
  {
    var s := PsiProposed(q, proposal);
    RecomputeIsConsistent(s, s.(fossilRate := q.fossilRate));
    assert WithDerived(s).deathRate == q.deathRate;
  }

  /**
   * The corrected move rejects without a trace and accepts exactly the
   * proposed fossil rate, from consistent rates.
   */
  lemma PsiOutcomeRestores(q: Rates, proposal: real)
    requires Consistent(q) && q.deathRate > 0.0 && proposal > 0.0
    ensures PsiOutcome(q, proposal, false) == q
    ensures PsiOutcome(q, proposal, true).fossilRate == proposal
    ensures proposal != q.fossilRate ==> PsiOutcome(q, proposal, true) != PsiOutcome(q, proposal, false)
  {
  }

  /**
   * A concrete instance: relative death 0.5, net diversification 1 (so
   * birth rate 2 and death rate 1), fraction 0.5 (fossil rate 1), and a
   * proposed fossil rate 1.25 that the test rejects. As written the fossil
   * rate ends at 1.25 and the fraction at 5/9; the corrected move keeps
   * fossil rate 1 and fraction 0.5.
   */
  lemma PsiRejectExample()
    ensures Consistent(Rates(0.5, 1.0, 0.5, 1.0, 2.0, 1.0, 1.0))
    ensures PsiOutcomeAsWritten(Rates(0.5, 1.0, 0.5, 1.0, 2.0, 1.0, 1.0), 1.25, false).fossilRate == 1.25
    ensures PsiOutcomeAsWritten(Rates(0.5, 1.0, 0.5, 1.0, 2.0, 1.0, 1.0), 1.25, false).probSpeciationS == 5.0 / 9.0
    ensures PsiOutcome(Rates(0.5, 1.0, 0.5, 1.0, 2.0, 1.0, 1.0), 1.25, false) == Rates(0.5, 1.0, 0.5, 1.0, 2.0, 1.0, 1.0)
  {
    var q := Rates(0.5, 1.0, 0.5, 1.0, 2.0, 1.0, 1.0);
    assert BirthRateOf(0.5, 1.0) == 2.0;
    assert DeathRateOf(0.5, 1.0) == 1.0;
    assert FossilRateOf(0.5, 1.0) == 1.0;
    assert WithDerived(q) == q;
    assert PsiProposed(q, 1.25).probSpeciationS == 5.0 / 9.0;
    PsiRejectKeepsProposal(q, 1.25);
  }

  class Speciation {
    const modelPtr: Model
    const treeTimePrior: int
    var name: string
    var relativeDeath: real
    var netDiversificaton: real
    var probSpeciationS: real
    var extantSampleRate: real
    var birthRate: real
    var deathRate: real
    var fossilRate: real

    /** The seven rate fields as one value. */
    function State(): Rates
      reads this
    {
      Rates(relativeDeath, netDiversificaton, probSpeciationS, extantSampleRate, birthRate, deathRate, fossilRate)
    }

    /**
     * Seeds the rates (lines 43-89). The process exit on a relative death
     * rate of at least 1 or a non-positive net diversification rate is
     * excluded by the precondition; StartupRates says when it happens.
     */
    constructor (d: SeedDraws, mp: Model, bdr: real, bda: real, bds: real)
      requires UnitDraws(d) && (mp.fixTestRun ==> bds != 1.0)
      requires StartupRates(mp.treeTimePriorNum, mp.fixTestRun, d, bdr, bda, bds).Started?
      ensures modelPtr == mp && treeTimePrior == mp.treeTimePriorNum && name == "SP"
      ensures State() == StartupRates(mp.treeTimePriorNum, mp.fixTestRun, d, bdr, bda, bds).rates
    {
      modelPtr := mp;
      name := "SP";
      relativeDeath := d.relativeDeath;
      netDiversificaton := d.netDiversification;
      probSpeciationS := d.probSpeciationS;
      extantSampleRate := 1.0;
      treeTimePrior := mp.treeTimePriorNum;
      new;
      if mp.fixTestRun {
        relativeDeath := bda;
        netDiversificaton := bdr;
        probSpeciationS := bds;
      }
      ghost var seeded := Seeded(mp.fixTestRun, d, bdr, bda, bds);
      RecomputeIsConsistent(seeded, State());
      SetAllBDFossParams();
      if relativeDeath < 0.0 && netDiversificaton < 0.0 {
        relativeDeath := d.reseedRelativeDeath;
        netDiversificaton := d.reseedNetDiversification * MaxDiv;
      }
      // the precondition rules out the exits of lines 67-74
      if treeTimePrior == 1 {
        relativeDeath := 0.0;
        netDiversificaton := 0.0;
      } else if treeTimePrior == 2 {
        relativeDeath := 0.0;
      }
      if netDiversificaton >= MaxDiv {
        var nd := netDiversificaton;
        netDiversificaton := MaxDiv * MaxDiv / nd;
      }
    }

    /** Recomputes birth, death and fossil rates from the primary rates (lines 433-437). */
    method SetAllBDFossParams()
      requires Derivable(State())
      modifies this`fossilRate, this`birthRate, this`deathRate
      ensures State() == WithDerived(old(State()))
    {
      var rd, nd, ps := relativeDeath, netDiversificaton, probSpeciationS;
      fossilRate := FossilRateOf(ps, DeathRateOf(rd, nd));
      birthRate := BirthRateOf(rd, nd);
      deathRate := DeathRateOf(rd, nd);
    }

    /**
     * Copies the rates of c (lines 102-113). The recomputation that comes
     * first is overwritten by the copy unless c is this object itself.
     */
    method Clone(c: Speciation)
      requires Derivable(State())
      modifies this`relativeDeath, this`netDiversificaton, this`probSpeciationS, this`extantSampleRate
      modifies this`birthRate, this`deathRate, this`fossilRate, this`name
      ensures c != this ==> State() == old(c.State())
      ensures c == this ==> State() == WithDerived(old(State()))
      ensures name == "SP"
    {
      SetAllBDFossParams();
      relativeDeath := c.relativeDeath;
      netDiversificaton := c.netDiversificaton;
      probSpeciationS := c.probSpeciationS;
      birthRate := c.birthRate;
      deathRate := c.deathRate;
      fossilRate := c.fossilRate;
      extantSampleRate := c.extantSampleRate;
      name := "SP";
    }

    /** Routes the tree query to the regime's formula (lines 398-430). */
    method GetLnTreeProb(t: Tree) returns (p: real)
      requires treeTimePrior == 6 || treeTimePrior == 7 ==> Derivable(State())
      modifies this`fossilRate, this`birthRate, this`deathRate
      ensures State() == Queried(treeTimePrior, old(State()))
      ensures p == TreeLogProb(t, modelPtr, treeTimePrior, State())
    {
      var rd, nd := relativeDeath, netDiversificaton;
      if treeTimePrior == 1 {
        return 0.0;
      } else if treeTimePrior == 2 {
        var ntax := t.numTaxa;
        var c1 := ((ntax - 1) as real) * modelPtr.ln(nd);
        var nps := t.cbdNodePriorProb(nd, rd);
        return c1 + nps;
      } else if treeTimePrior == 3 {
        var ntax := t.numTaxa;
        var c1 := ((ntax - 1) as real) * modelPtr.ln(nd) + (ntax as real) * modelPtr.ln(1.0 - rd);
        var nps := t.cbdNodePriorProb(nd, rd);
        return c1 + nps;
      } else if treeTimePrior == 4 || treeTimePrior == 5 {
        var nps := t.bdssTreeNodePriorProb(nd, rd, fossilRate, extantSampleRate, modelPtr.treeOriginTime);
        return nps;
      } else if treeTimePrior == 6 {
        SetAllBDFossParams();
        var nps := t.calBdssTreeNodePriorProb(birthRate, deathRate, fossilRate, extantSampleRate);
        return nps;
      } else if treeTimePrior == 7 {
        SetAllBDFossParams();
        var nps := t.ancCalBdssTreeNodePriorProb(birthRate, deathRate, fossilRate, extantSampleRate);
        return nps;
      }
      return 0.0;
    }

    /**
     * Sliding-window proposal (lines 218-232): ov moved by the draw times the
     * window width, then mirrored across whichever bound it violates until
     * it lies in [vmin, vmax]. The result is the one point of that range
     * that reflections can reach from ov + u, and ov + u itself when that is
     * already in range.
     */
    method GetNewValSWindoMv(ov: real, vmin: real, vmax: real, tv: real, draw: real) returns (nv: real)
      requires vmin < vmax
      requires -0.5 <= draw < 0.5
      ensures vmin <= nv <= vmax
      ensures InOrbit(nv, ov + draw * tv, vmin, vmax)
      ensures vmin <= ov + draw * tv <= vmax ==> nv == ov + draw * tv
    {
      var u := draw * tv;
      nv := ov + u;
      ghost var x := nv;
      ghost var w := vmax - vmin;
      ghost var mirrored, n := false, 0;
      ghost var k: nat := if nv < vmin then WindowSteps(vmin - nv, w) else if nv > vmax then WindowSteps(nv - vmax, w) else 0;
      var validV := false;
      while !validV
        invariant nv == OrbitPoint(x, vmin, vmax, mirrored, n)
        invariant validV ==> vmin <= nv <= vmax
        invariant nv < vmin ==> vmin - nv <= (k as real) * w
        invariant nv > vmax ==> nv - vmax <= (k as real) * w
        decreases k, if validV then 0 else 1
      {
        if nv < vmin {
          WindowStep(vmin - nv, w, k);
          MirrorLowPoint(x, vmin, vmax, mirrored, n);
          nv := 2.0 * vmin - nv;
          mirrored, n, k := !mirrored, -n, k - 1;
        } else if nv > vmax {
          WindowStep(nv - vmax, w, k);
          MirrorHighPoint(x, vmin, vmax, mirrored, n);
          nv := (2.0 * vmax) - nv;
          mirrored, n, k := !mirrored, 1 - n, k - 1;
        } else {
          validV := true;
        }
      }
      OrbitPointInOrbit(x, vmin, vmax, mirrored, n);
      if vmin <= x <= vmax {
        OrbitPointInOrbit(x, vmin, vmax, false, 0);
        OrbitPointUnique(nv, x, x, vmin, vmax);
      }
    }

    /**
     * Scale proposal (lines 200-216): ov times the multiplier expC = exp(c),
     * c = tv * (rv - 0.5), mirrored multiplicatively (lo*lo/x, hi*hi/x) until
     * it lies in [vmin, vmax]. Returns c, the log proposal ratio, whether or
     * not reflection happened; where one reflection brings the value into
     * range the new value is that reflection.
     */
    method GetNewValScaleMv(ov: real, vmin: real, vmax: real, tv: real, rv: real, expC: real) returns (c: real, nv: real)
      requires 0.0 < vmin < vmax
      requires ov > 0.0 && expC > 0.0
      requires 0.0 <= rv < 1.0
      ensures c == tv * (rv - 0.5)
      ensures vmin <= nv <= vmax
      ensures ScaleExact(ov, expC, nv, vmin, vmax)
    {
      c := tv * (rv - 0.5);
      var newcv := ov * expC;
      ghost var x := newcv;
      ghost var k: nat := ScaleBudgetSteps(newcv, vmin, vmax);
      ghost var once := WithinOneReflection(x, vmin, vmax);
      var validV := false;
      while !validV
        invariant newcv > 0.0
        invariant validV ==> vmin <= newcv <= vmax
        invariant ScaleBudget(newcv, vmin, vmax, k)
        invariant once ==> newcv == x || (newcv == ScaleReflectOnce(x, vmin, vmax) && vmin <= newcv <= vmax)
        decreases k, if validV then 0 else 1
      {
        if newcv < vmin {
          ScaleBudgetLow(newcv, vmin, vmax, k);
          ghost var wasStart := newcv == x;
          newcv := vmin * vmin / newcv;
          assert once ==> wasStart && newcv == ScaleReflectOnce(x, vmin, vmax);
          k := k - 1;
        } else if newcv > vmax {
          ScaleBudgetHigh(newcv, vmin, vmax, k);
          ghost var wasStart := newcv == x;
          newcv := vmax * vmax / newcv;
          assert once ==> wasStart && newcv == ScaleReflectOnce(x, vmin, vmax);
          k := k - 1;
        } else {
          validV := true;
        }
      }
      nv := newcv;
    }

    /**
     * The reflection loop of updatePsiRate (lines 350-358), with its own
     * above-maximum rule newPsi * maxV / newPsi.
     */
    method ReflectPsi(proposed: real) returns (newPsi: real)
      requires proposed > 0.0
      ensures newPsi == PsiReflected(proposed)
    {
      newPsi := proposed;
      var minV := MinPsi;
      var maxV := MaxPsi;
      var validV := false;
      while !validV
        invariant newPsi > 0.0 && PsiReachable(newPsi, proposed)
        invariant validV ==> minV <= newPsi <= maxV
        decreases (if validV then 0 else 1) + (if newPsi < minV then 2 else if newPsi > maxV then 1 else 0)
      {
        if newPsi < minV {
          ReflectBelowInRange(newPsi, minV, maxV);
          newPsi := minV * minV / newPsi;
        } else if newPsi > maxV {
          var v := newPsi;
          newPsi := v * maxV / v;
        } else {
          validV := true;
        }
      }
    }

    /**
     * The proposal half of updatePsiRate (lines 342-360): the fossil rate
     * scaled by exp(c) and reflected, written in together with the
     * extant-sampling fraction it implies against the current death rate.
     */
    method ProposePsi(expC: real) returns (newPsi: real)
      requires deathRate > 0.0 && fossilRate > 0.0 && expC > 0.0
      modifies this`fossilRate, this`probSpeciationS
      ensures newPsi == PsiMove(old(State()), expC)
      ensures State() == PsiProposed(old(State()), newPsi)
    {
      ghost var q := State();
      var oldPsi := fossilRate;
      MulPositive(oldPsi, expC);
      newPsi := ReflectPsi(oldPsi * expC);
      assert newPsi == PsiMove(q, expC);
      var mu := deathRate;
      ghost var f := newPsi / (q.deathRate + newPsi);
      fossilRate := newPsi;
      probSpeciationS := newPsi / (mu + newPsi);
      assert probSpeciationS == f;
    }

    /** Sliding-window move on the relative death rate, no tree (lines 167-175). */
    method UpdateRelDeathRt(draw: real) returns (lnRatio: real)
      requires -0.5 <= draw < 0.5
      modifies this`relativeDeath
      ensures lnRatio == 0.0
      ensures 0.0 <= relativeDeath <= WindowMax
      ensures InOrbit(relativeDeath, old(relativeDeath) + draw * WindowWidth, 0.0, WindowMax)
      ensures 0.0 <= old(relativeDeath) + draw * WindowWidth <= WindowMax ==>
        relativeDeath == old(relativeDeath) + draw * WindowWidth
    {
      var rdwindow := WindowWidth;
      var oldRD := relativeDeath;
      var newRD := GetNewValSWindoMv(oldRD, 0.0, WindowMax, rdwindow, draw);
      relativeDeath := newRD;
      return 0.0;
    }

    /**
     * Scale move on the net diversification rate, no tree (lines 234-245);
     * the log proposal ratio is returned for the caller's test.
     */
    method UpdateNetDivRate(rv: real, expC: real) returns (lpr: real)
      requires netDiversificaton > 0.0
      requires 0.0 <= rv < 1.0 && expC > 0.0
      modifies this`netDiversificaton
      ensures lpr == modelPtr.ln(2.0) * (rv - 0.5)
      ensures MinNetDiv <= netDiversificaton <= MaxDiv
      ensures ScaleExact(old(netDiversificaton), expC, netDiversificaton, MinNetDiv, MaxDiv)
    {
      var oldND := netDiversificaton;
      var tuning := modelPtr.ln(2.0);
      var c, newND := GetNewValScaleMv(oldND, MinNetDiv, MaxDiv, tuning, rv, expC);
      netDiversificaton := newND;
      lpr := c;
      assert lpr == modelPtr.ln(2.0) * (rv - 0.5);
    }

    /**
     * Sliding-window move on the extant sampling probability rho
     * (lines 272-291). Its loop, written out in place, reflects at 0 as
     * 0 - x, which is the window kernel's 2 * 0 - x.
     */
    method UpdateBDSSSampleProbRho(draw: real) returns (lnRatio: real)
      requires -0.5 <= draw < 0.5
      modifies this`extantSampleRate
      ensures lnRatio == 0.0
      ensures 0.0 <= extantSampleRate <= DirectWindowMax
      ensures InOrbit(extantSampleRate, old(extantSampleRate) + draw * WindowWidth, 0.0, DirectWindowMax)
      ensures 0.0 <= old(extantSampleRate) + draw * WindowWidth <= DirectWindowMax ==>
        extantSampleRate == old(extantSampleRate) + draw * WindowWidth
    {
      var rdwindow := WindowWidth;
      var oldSP := extantSampleRate;
      var newSP := GetNewValSWindoMv(oldSP, 0.0, DirectWindowMax, rdwindow, draw);
      extantSampleRate := newSP;
      return 0.0;
    }

    /**
     * Sliding-window move on the extant-sampling fraction, no tree
     * (lines 293-312), with the same written-out loop as the move on rho.
     */
    method UpdateBDSSFossilProbS(draw: real) returns (lnRatio: real)
      requires -0.5 <= draw < 0.5
      modifies this`probSpeciationS
      ensures lnRatio == 0.0
      ensures 0.0 <= probSpeciationS <= DirectWindowMax
      ensures InOrbit(probSpeciationS, old(probSpeciationS) + draw * WindowWidth, 0.0, DirectWindowMax)
      ensures 0.0 <= old(probSpeciationS) + draw * WindowWidth <= DirectWindowMax ==>
        probSpeciationS == old(probSpeciationS) + draw * WindowWidth
    {
      var swindow := WindowWidth;
      var oldS := probSpeciationS;
      var newS := GetNewValSWindoMv(oldS, 0.0, DirectWindowMax, swindow, draw);
      probSpeciationS := newS;
      return 0.0;
    }

    /**
     * Sliding-window move on the relative death rate with its own
     * accept/reject test against the tree (lines 177-198).
     */
    method UpdateRelDeathRtTree(t: Tree, draw: real, accept: real) returns (lnRatio: real, ghost proposal: real, ghost accepted: bool)
      requires Derivable(State())
      requires -0.5 <= draw < 0.5 && 0.0 <= accept < 1.0
      modifies this`relativeDeath, this`fossilRate, this`birthRate, this`deathRate
      ensures lnRatio == 0.0
      ensures 0.0 <= proposal <= WindowMax
      ensures InOrbit(proposal, old(relativeDeath) + draw * WindowWidth, 0.0, WindowMax)
      ensures var q := Queried(treeTimePrior, old(State()));
        accepted == Accepts(modelPtr, TreeLogProb(t, modelPtr, treeTimePrior, q),
          TreeLogProb(t, modelPtr, treeTimePrior, Queried(treeTimePrior, q.(relativeDeath := proposal))), 0.0, accept)
      ensures State() == WithDerived(old(State()).(relativeDeath := if accepted then proposal else old(relativeDeath)))
      ensures !accepted && Consistent(old(State())) ==> State() == old(State())
    {
      var oldtreeprob := GetLnTreeProb(t);
      ghost var q := State();
      var lnPropR := 0.0;
      var rdwindow := WindowWidth;
      var oldRD := relativeDeath;
      var newRD := GetNewValSWindoMv(oldRD, 0.0, WindowMax, rdwindow, draw);
      relativeDeath := newRD;
      var newtreeprob := GetLnTreeProb(t);
      assert newtreeprob == TreeLogProb(t, modelPtr, treeTimePrior, Queried(treeTimePrior, q.(relativeDeath := newRD)));
      var lnPriorRatio := newtreeprob - oldtreeprob;
      var lnR := lnPriorRatio + lnPropR;
      var r := modelPtr.safeExponentiation(lnR);
      proposal, accepted := newRD, accept < r;
      assert accepted == Accepts(modelPtr, oldtreeprob, newtreeprob, 0.0, accept);
      if accept < r {
        RecomputeIsConsistent(old(State()).(relativeDeath := newRD), State());
        SetAllBDFossParams();
      } else {
        relativeDeath := oldRD;
        RecomputeIsConsistent(old(State()), State());
        SetAllBDFossParams();
      }
      return 0.0, proposal, accepted;
    }

    /**
     * Scale move on the net diversification rate with its own accept/reject
     * test against the tree (lines 247-270); the log proposal ratio enters
     * the test and is not returned.
     */
    method UpdateNetDivRateTree(t: Tree, rv: real, expC: real, accept: real) returns (lnRatio: real, ghost proposal: real, ghost accepted: bool)
      requires Derivable(State()) && netDiversificaton > 0.0
      requires 0.0 <= rv < 1.0 && expC > 0.0 && 0.0 <= accept < 1.0
      modifies this`netDiversificaton, this`fossilRate, this`birthRate, this`deathRate
      ensures lnRatio == 0.0
      ensures MinNetDiv <= proposal <= MaxDiv
      ensures ScaleExact(old(netDiversificaton), expC, proposal, MinNetDiv, MaxDiv)
      ensures var q := Queried(treeTimePrior, old(State()));
        accepted == Accepts(modelPtr, TreeLogProb(t, modelPtr, treeTimePrior, q),
          TreeLogProb(t, modelPtr, treeTimePrior, Queried(treeTimePrior, q.(netDiversificaton := proposal))),
          modelPtr.ln(2.0) * (rv - 0.5), accept)
      ensures State() == WithDerived(old(State()).(netDiversificaton := if accepted then proposal else old(netDiversificaton)))
      ensures !accepted && Consistent(old(State())) ==> State() == old(State())
    {
      var oldtreeprob := GetLnTreeProb(t);
      ghost var q := State();
      var lpr := 0.0;
      var oldND := netDiversificaton;
      var tuning := modelPtr.ln(2.0);
      var c, newND := GetNewValScaleMv(oldND, MinNetDiv, MaxDiv, tuning, rv, expC);
      netDiversificaton := newND;
      lpr := c;
      assert lpr == modelPtr.ln(2.0) * (rv - 0.5);
      var newtreeprob := GetLnTreeProb(t);
      assert newtreeprob == TreeLogProb(t, modelPtr, treeTimePrior, Queried(treeTimePrior, q.(netDiversificaton := newND)));
      var lnPriorRatio := newtreeprob - oldtreeprob;
      var lnR := lnPriorRatio + lpr;
      var r := modelPtr.safeExponentiation(lnR);
      proposal, accepted := newND, accept < r;
      assert accepted == Accepts(modelPtr, oldtreeprob, newtreeprob, lpr, accept);
      if accept < r {
        RecomputeIsConsistent(old(State()).(netDiversificaton := newND), State());
        SetAllBDFossParams();
      } else {
        netDiversificaton := oldND;
        RecomputeIsConsistent(old(State()), State());
        SetAllBDFossParams();
      }
      return 0.0, proposal, accepted;
    }

    /**
     * Sliding-window move on the extant-sampling fraction with its own
     * accept/reject test against the tree (lines 314-336).
     */
    method UpdateBDSSFossilProbSTree(t: Tree, draw: real, accept: real) returns (lnRatio: real, ghost proposal: real, ghost accepted: bool)
      requires Derivable(State())
      requires -0.5 <= draw < 0.5 && 0.0 <= accept < 1.0
      modifies this`probSpeciationS, this`fossilRate, this`birthRate, this`deathRate
      ensures lnRatio == 0.0
      ensures 0.0 <= proposal <= WindowMax
      ensures InOrbit(proposal, old(probSpeciationS) + draw * WindowWidth, 0.0, WindowMax)
      ensures var q := Queried(treeTimePrior, old(State()));
        accepted == Accepts(modelPtr, TreeLogProb(t, modelPtr, treeTimePrior, q),
          TreeLogProb(t, modelPtr, treeTimePrior, Queried(treeTimePrior, q.(probSpeciationS := proposal))), 0.0, accept)
      ensures State() == WithDerived(old(State()).(probSpeciationS := if accepted then proposal else old(probSpeciationS)))
      ensures !accepted && Consistent(old(State())) ==> State() == old(State())
    {
      var oldtreeprob := GetLnTreeProb(t);
      ghost var q := State();
      var lnPropR := 0.0;
      var swindow := WindowWidth;
      var oldS := probSpeciationS;
      var newS := GetNewValSWindoMv(oldS, 0.0, WindowMax, swindow, draw);
      probSpeciationS := newS;
      var newtreeprob := GetLnTreeProb(t);
      assert newtreeprob == TreeLogProb(t, modelPtr, treeTimePrior, Queried(treeTimePrior, q.(probSpeciationS := newS)));
      var lnPriorRatio := newtreeprob - oldtreeprob;
      var lnR := lnPriorRatio + lnPropR;
      var r := modelPtr.safeExponentiation(lnR);
      proposal, accepted := newS, accept < r;
      assert accepted == Accepts(modelPtr, oldtreeprob, newtreeprob, 0.0, accept);
      if accept < r {
        RecomputeIsConsistent(old(State()).(probSpeciationS := newS), State());
        SetAllBDFossParams();
      } else {
        probSpeciationS := oldS;
        RecomputeIsConsistent(old(State()), State());
        SetAllBDFossParams();
      }
      return 0.0, proposal, accepted;
    }

    /**
     * The proposal and the tree test of updatePsiRate (lines 340-366): the
     * fossil rate the move starts from, the reflected proposal, and whether
     * the draw accepts it against the tree densities on either side.
     */
    method ProposeAndTestPsi(t: Tree, rv: real, expC: real, accept: real) returns (oldPsi: real, newPsi: real, accepted: bool)
      requires Derivable(State())
      requires Queried(treeTimePrior, State()).deathRate > 0.0 && Queried(treeTimePrior, State()).fossilRate > 0.0
      requires 0.0 <= rv < 1.0 && expC > 0.0 && 0.0 <= accept < 1.0
      modifies this`probSpeciationS, this`fossilRate, this`birthRate, this`deathRate
      ensures var q := Queried(treeTimePrior, old(State()));
        oldPsi == q.fossilRate && newPsi == PsiMove(q, expC) &&
        State() == Queried(treeTimePrior, PsiProposed(q, newPsi))
      ensures var q := Queried(treeTimePrior, old(State()));
        accepted == Accepts(modelPtr, TreeLogProb(t, modelPtr, treeTimePrior, q),
          TreeLogProb(t, modelPtr, treeTimePrior, Queried(treeTimePrior, PsiProposed(q, newPsi))),
          modelPtr.ln(2.0) * (rv - 0.5), accept)
    {
      var oldtreeprob := GetLnTreeProb(t);
      ghost var q := State();
      oldPsi := fossilRate;
      var tuning := modelPtr.ln(2.0);
      var c := tuning * (rv - 0.5);
      assert c == modelPtr.ln(2.0) * (rv - 0.5);
      newPsi := ProposePsi(expC);
      var lpr := c;
      ghost var s := PsiProposed(q, newPsi);
      var newtreeprob := GetLnTreeProb(t);
      assert newtreeprob == TreeLogProb(t, modelPtr, treeTimePrior, Queried(treeTimePrior, s));
      var lnPriorRatio := newtreeprob - oldtreeprob;
      var lnR := lnPriorRatio + lpr;
      var r := modelPtr.safeExponentiation(lnR);
      accepted := accept < r;
      assert accepted == Accepts(modelPtr, oldtreeprob, newtreeprob, c, accept);
    }

    /**
     * Scale move on the fossil sampling rate with its own accept/reject
     * test (lines 338-374), exactly as written: the rejection restores the
     * fossil rate but not the fraction computed from the proposal.
     */
    method UpdatePsiRateAsWritten(t: Tree, rv: real, expC: real, accept: real) returns (lnRatio: real, ghost proposal: real, ghost accepted: bool)
      requires Derivable(State())
      requires Queried(treeTimePrior, State()).deathRate > 0.0 && Queried(treeTimePrior, State()).fossilRate > 0.0
      requires 0.0 <= rv < 1.0 && expC > 0.0 && 0.0 <= accept < 1.0
      modifies this`probSpeciationS, this`fossilRate, this`birthRate, this`deathRate
      ensures lnRatio == 0.0
      ensures proposal == PsiMove(Queried(treeTimePrior, old(State())), expC)
      ensures var q := Queried(treeTimePrior, old(State()));
        accepted == Accepts(modelPtr, TreeLogProb(t, modelPtr, treeTimePrior, q),
          TreeLogProb(t, modelPtr, treeTimePrior, Queried(treeTimePrior, PsiProposed(q, proposal))),
          modelPtr.ln(2.0) * (rv - 0.5), accept)
      ensures State() == PsiOutcomeAsWritten(Queried(treeTimePrior, old(State())), proposal, accepted)
    {
      ghost var q := Queried(treeTimePrior, State());
      var oldPsi, newPsi, passed := ProposeAndTestPsi(t, rv, expC, accept);
      ghost var s := PsiProposed(q, newPsi);
      proposal, accepted := newPsi, passed;
      RecomputeIsConsistent(s, s);
      if passed {
        RecomputeIsConsistent(s, State());
        SetAllBDFossParams();
        assert State() == PsiOutcomeAsWritten(q, newPsi, true);
      } else {
        fossilRate := oldPsi;
        RecomputeIsConsistent(s.(fossilRate := q.fossilRate), State());
        SetAllBDFossParams();
        assert State() == PsiOutcomeAsWritten(q, newPsi, false);
      }
      return 0.0, proposal, accepted;
    }

    /**
     * The same move with the rejection restoring the fraction as well, so
     * that a rejected proposal leaves the rates as they were.
     */
    method UpdatePsiRate(t: Tree, rv: real, expC: real, accept: real) returns (lnRatio: real, ghost proposal: real, ghost accepted: bool)
      requires Derivable(State())
      requires Queried(treeTimePrior, State()).deathRate > 0.0 && Queried(treeTimePrior, State()).fossilRate > 0.0
      requires 0.0 <= rv < 1.0 && expC > 0.0 && 0.0 <= accept < 1.0
      modifies this`probSpeciationS, this`fossilRate, this`birthRate, this`deathRate
      ensures lnRatio == 0.0
      ensures proposal == PsiMove(Queried(treeTimePrior, old(State())), expC)
      ensures var q := Queried(treeTimePrior, old(State()));
        accepted == Accepts(modelPtr, TreeLogProb(t, modelPtr, treeTimePrior, q),
          TreeLogProb(t, modelPtr, treeTimePrior, Queried(treeTimePrior, PsiProposed(q, proposal))),
          modelPtr.ln(2.0) * (rv - 0.5), accept)
      ensures State() == PsiOutcome(Queried(treeTimePrior, old(State())), proposal, accepted)
    {
      ghost var q := Queried(treeTimePrior, State());
      var oldS := probSpeciationS;
      var oldPsi, newPsi, passed := ProposeAndTestPsi(t, rv, expC, accept);
      ghost var s := PsiProposed(q, newPsi);
      proposal, accepted := newPsi, passed;
      if passed {
        RecomputeIsConsistent(s, State());
        SetAllBDFossParams();
        assert State() == PsiOutcome(q, newPsi, true);
      } else {
        fossilRate := oldPsi;
        probSpeciationS := oldS;
        RecomputeIsConsistent(q, State());
        SetAllBDFossParams();
        assert State() == PsiOutcome(q, newPsi, false);
      }
      return 0.0, proposal, accepted;
    }

    /**
     * One update of the speciation parameter (lines 128-165). Under
     * regime 2 (relative death fixed at 0) the net diversification rate takes a
     * scale move and the log ratio goes back to the caller; under regimes 3
     * and above the parameter runs its own tests and returns 0; under
     * regime 1 nothing moves.
     */
    method Update(oldLnL: real, t: Tree, d: UpdateDraws) returns (lnR: real)
      requires ValidDraws(d)
      requires treeTimePrior >= 2 ==> netDiversificaton > 0.0
      requires treeTimePrior >= 3 ==> Derivable(State())
      modifies this`relativeDeath, this`netDiversificaton, this`probSpeciationS
      modifies this`fossilRate, this`birthRate, this`deathRate
      modifies modelPtr`lnLGood, modelPtr`myCurrLnl
      ensures modelPtr.lnLGood && modelPtr.myCurrLnl == oldLnL
      ensures extantSampleRate == old(extantSampleRate)
      ensures treeTimePrior < 2 ==> lnR == 0.0 && State() == old(State())
      ensures treeTimePrior == 2 ==>
        State() == old(State()).(relativeDeath := 0.0, netDiversificaton := netDiversificaton) &&
        MinNetDiv <= netDiversificaton <= MaxDiv &&
        lnR == TreeLogProb(t, modelPtr, 2, State()) - TreeLogProb(t, modelPtr, 2, old(State()))
          + modelPtr.ln(2.0) * (d.netDivUniform - 0.5)
      ensures treeTimePrior == 2 ==> ScaleExact(old(netDiversificaton), d.netDivScale, netDiversificaton, MinNetDiv, MaxDiv)
      ensures treeTimePrior >= 3 ==>
        lnR == 0.0 && Consistent(State()) &&
        (relativeDeath == old(relativeDeath) || 0.0 <= relativeDeath <= WindowMax) &&
        (netDiversificaton == old(netDiversificaton) || MinNetDiv <= netDiversificaton <= MaxDiv) &&
        (probSpeciationS == old(probSpeciationS) || 0.0 <= probSpeciationS <= WindowMax)
      ensures treeTimePrior == 3 ==> probSpeciationS == old(probSpeciationS)
    {
      var oldtreeprob := GetLnTreeProb(t);
      var lnProposalRatio := 0.0;
      if treeTimePrior == 2 {
        var lpr := UpdateNetDivRate(d.netDivUniform, d.netDivScale);
        lnProposalRatio := lnProposalRatio + lpr;
        relativeDeath := 0.0;
      } else if treeTimePrior == 3 {
        var _, _, _ := UpdateRelDeathRtTree(t, d.relDeathWindow, d.relDeathAccept);
        var _, _, _ := UpdateNetDivRateTree(t, d.netDivUniform, d.netDivScale, d.netDivAccept);
        modelPtr.SetLnLGood(true);
        modelPtr.SetMyCurrLnl(oldLnL);
        return 0.0;
      } else if treeTimePrior > 3 {
        var _, _, _ := UpdateRelDeathRtTree(t, d.relDeathWindow, d.relDeathAccept);
        var _, _, _ := UpdateNetDivRateTree(t, d.netDivUniform, d.netDivScale, d.netDivAccept);
        var _, _, _ := UpdateBDSSFossilProbSTree(t, d.probSWindow, d.probSAccept);
        modelPtr.SetLnLGood(true);
        modelPtr.SetMyCurrLnl(oldLnL);
        return 0.0;
      }
      var newtreeprob := GetLnTreeProb(t);
      var lnPriorRatio := newtreeprob - oldtreeprob;
      lnR := lnPriorRatio + lnProposalRatio;
      modelPtr.SetLnLGood(true);
      modelPtr.SetMyCurrLnl(oldLnL);
    }

    /** The speciation parameter contributes a flat prior (lines 379-382). */
    function LnPrior(): (lp: real)
      ensures lp == 0.0
    {
      0.0
    }
  }
}
