/**
 * The rate parameters of the birth-death(-sampling) process that generates
 * the tree's branching times, the rates derived from them, and how the
 * speciation parameter seeds them at start-up.
 *
 * Primary rates: the relative death rate mu/lambda, the net diversification
 * rate lambda - mu, the probability that a sampled lineage is an extant
 * rather than a fossil sample, and the extant sampling probability rho.
 * Derived rates: the birth rate lambda, the death rate mu and the fossil
 * sampling rate psi. All arithmetic is over the reals.
 */
module BirthDeathRates {

  /** Upper bound of the net diversification rate (the source's maxdivV). */
  const MaxDiv: real := 30000.0

  /** The seven rate fields of the speciation parameter, as one value. */
  datatype Rates = Rates(
    relativeDeath: real,
    netDiversificaton: real,
    probSpeciationS: real,
    extantSampleRate: real,
    birthRate: real,
    deathRate: real,
    fossilRate: real)

  /** The derived-rate formulas divide by 1 - relativeDeath and 1 - probSpeciationS. */
  predicate Derivable(s: Rates)
  {
    s.relativeDeath != 1.0 && s.probSpeciationS != 1.0
  }

  /** The same primary rates (extant sampling probability included). */
  predicate SamePrimaries(s: Rates, r: Rates)
  {
    r.relativeDeath == s.relativeDeath && r.netDiversificaton == s.netDiversificaton &&
    r.probSpeciationS == s.probSpeciationS && r.extantSampleRate == s.extantSampleRate
  }

  /** The birth rate lambda = d / (1 - r) for relative death r and net diversification d. */
  function BirthRateOf(relativeDeath: real, netDiversification: real): real
    requires relativeDeath != 1.0
  {
    netDiversification / (1.0 - relativeDeath)
  }

  /** The death rate mu = r * d / (1 - r). */
  function DeathRateOf(relativeDeath: real, netDiversification: real): real
    requires relativeDeath != 1.0
  {
    (relativeDeath * netDiversification) / (1.0 - relativeDeath)
  }

  /** The fossil sampling rate psi = s / (1 - s) * mu. */
  function FossilRateOf(probSpeciationS: real, deathRate: real): real
    requires probSpeciationS != 1.0
  {
    (probSpeciationS / (1.0 - probSpeciationS)) * deathRate
  }

  /**
   * s with birth, death and fossil rates recomputed from its primary rates
   * (setAllBDFossParams).
   */
  function WithDerived(s: Rates): (r: Rates)
    requires Derivable(s)
    ensures SamePrimaries(s, r)
    ensures r.birthRate - r.deathRate == s.netDiversificaton
    ensures r.deathRate == s.relativeDeath * r.birthRate
    ensures r.fossilRate == s.probSpeciationS / (1.0 - s.probSpeciationS) * r.deathRate
  {
    var birth := BirthRateOf(s.relativeDeath, s.netDiversificaton);
    var death := DeathRateOf(s.relativeDeath, s.netDiversificaton);
    BirthDeathIdentities(s.relativeDeath, s.netDiversificaton);
    s.(fossilRate := FossilRateOf(s.probSpeciationS, death),
       birthRate := birth,
       deathRate := death)
  }

  /** lambda - mu is the net diversification and mu = r * lambda. */
  lemma BirthDeathIdentities(relativeDeath: real, netDiversification: real)
    requires relativeDeath != 1.0
    ensures BirthRateOf(relativeDeath, netDiversification) - DeathRateOf(relativeDeath, netDiversification) == netDiversification
    ensures DeathRateOf(relativeDeath, netDiversification) == relativeDeath * BirthRateOf(relativeDeath, netDiversification)
  {
    var birth := BirthRateOf(relativeDeath, netDiversification);
    var death := DeathRateOf(relativeDeath, netDiversification);
    var c := 1.0 - relativeDeath;
    assert birth * c == netDiversification;
    assert death * c == relativeDeath * netDiversification;
    assert (birth - death) * c == birth * c - death * c;
    assert netDiversification - relativeDeath * netDiversification == netDiversification * c;
    CancelFactor(birth - death, netDiversification, c);
    assert (relativeDeath * birth) * c == relativeDeath * (birth * c);
    CancelFactor(death, relativeDeath * birth, c);
  }

  /** A non-zero factor cancels. */
  lemma CancelFactor(x: real, y: real, c: real)
    requires c != 0.0 && x * c == y * c
    ensures x == y
  {
    assert (x - y) * c == 0.0;
  }

  /** The derived rates agree with the primary rates. */
  predicate Consistent(s: Rates)
  {
    Derivable(s) && WithDerived(s) == s
  }

  /** Recomputing makes the rates consistent, and only the primaries matter. */
  lemma RecomputeIsConsistent(s: Rates, t: Rates)
    requires Derivable(s) && SamePrimaries(s, t)
    ensures Consistent(WithDerived(s))
    ensures WithDerived(t) == WithDerived(s)
  {
  }

  /**
   * The derived rates determine the primary rates they came from: the net
   * diversification is lambda - mu, the relative death rate mu/lambda and,
   * when mu > 0, the extant-sampling fraction s satisfies
   * psi = s/(1 - s) * mu, that is s = psi / (mu + psi).
   */
  lemma DerivedRatesDeterminePrimaries(s: Rates)
    requires Derivable(s) && s.netDiversificaton != 0.0
    ensures WithDerived(s).birthRate != 0.0
    ensures s.netDiversificaton == WithDerived(s).birthRate - WithDerived(s).deathRate
    ensures s.relativeDeath == WithDerived(s).deathRate / WithDerived(s).birthRate
    ensures WithDerived(s).deathRate > 0.0 && s.probSpeciationS < 1.0 ==>
      s.probSpeciationS == WithDerived(s).fossilRate / (WithDerived(s).deathRate + WithDerived(s).fossilRate)
  {
    var r := WithDerived(s);
    var sp := s.probSpeciationS;
    assert r.birthRate != 0.0;
    if r.deathRate > 0.0 && sp < 1.0 {
      var k := sp / (1.0 - sp);
      assert r.fossilRate == k * r.deathRate;
      assert r.deathRate + r.fossilRate == r.deathRate * (1.0 + k);
      assert 1.0 + k == 1.0 / (1.0 - sp);
      assert k / (1.0 + k) == sp;
      assert r.fossilRate / (r.deathRate + r.fossilRate) == (k * r.deathRate) / ((1.0 + k) * r.deathRate);
    }
  }

  /**
   * A fossil rate psi > 0 converted to an extant-sampling fraction against a
   * death rate mu > 0, s = psi / (mu + psi), is turned back into psi by the
   * fossil-rate formula s/(1 - s) * mu.
   */
  lemma FossilFractionRoundTrip(psi: real, mu: real)
    requires psi > 0.0 && mu > 0.0
    ensures 0.0 < psi / (mu + psi) < 1.0
    ensures FossilRateOf(psi / (mu + psi), mu) == psi
  {
    var t := mu + psi;
    var s := psi / t;
    assert s * t == psi;
    assert (1.0 - s) * t == mu;
    assert (s / (1.0 - s)) * (1.0 - s) == s;
    assert (s / (1.0 - s)) * mu == (s / (1.0 - s)) * (1.0 - s) * t;
  }

  /** Why the constructor terminates the process (lines 67-74). */
  datatype StartupError = RelativeDeathAtLeastOne | NetDiversificationNotPositive

  /** The rates a new speciation parameter starts with, or its fatal exit. */
  datatype Startup = Started(rates: Rates) | Exited(error: StartupError)

  /**
   * The uniform draws the constructor takes: three at the start, two more if
   * it has to reseed the relative death and net diversification rates.
   */
  datatype SeedDraws = SeedDraws(
    relativeDeath: real,
    netDiversification: real,
    probSpeciationS: real,
    reseedRelativeDeath: real,
    reseedNetDiversification: real)

  /** Every draw lies in [0, 1), the range of the random source. */
  predicate UnitDraws(d: SeedDraws)
  {
    0.0 <= d.relativeDeath < 1.0 && 0.0 <= d.netDiversification < 1.0 &&
    0.0 <= d.probSpeciationS < 1.0 && 0.0 <= d.reseedRelativeDeath < 1.0 &&
    0.0 <= d.reseedNetDiversification < 1.0
  }

  /**
   * The primary rates before validation: uniform draws, replaced by the
   * fixed start-up values in a fixed test run (lines 50-60).
   */
  function Seeded(fixTestRun: bool, d: SeedDraws, bdr: real, bda: real, bds: real): (s: Rates)
    ensures s.extantSampleRate == 1.0
    ensures fixTestRun ==> s.relativeDeath == bda && s.netDiversificaton == bdr && s.probSpeciationS == bds
    ensures !fixTestRun ==>
      s.relativeDeath == d.relativeDeath && s.netDiversificaton == d.netDiversification &&
      s.probSpeciationS == d.probSpeciationS
  {
    if fixTestRun then Rates(bda, bdr, bds, 1.0, 0.0, 0.0, 0.0)
    else Rates(d.relativeDeath, d.netDiversification, d.probSpeciationS, 1.0, 0.0, 0.0, 0.0)
  }

  /** Folds a net diversification rate at or above MaxDiv back below it (lines 81-82). */
  function ClampNetDiv(nd: real): (r: real)
    requires nd > 0.0
    ensures 0.0 < r <= MaxDiv
    ensures nd < MaxDiv ==> r == nd
    ensures nd >= MaxDiv ==> r * nd == MaxDiv * MaxDiv
  {
    if nd >= MaxDiv then
      assert MaxDiv * MaxDiv / nd <= MaxDiv * MaxDiv / MaxDiv;
      MaxDiv * MaxDiv / nd
    else nd
  }

  /**
   * The primary rates after the reseeding of lines 63-66: when both the
   * relative death and the net diversification rate are negative, both are
   * drawn again, the latter scaled to [0, MaxDiv).
   */
  function Reseeded(s: Rates, d: SeedDraws): (r: Rates)
    ensures !(s.relativeDeath < 0.0 && s.netDiversificaton < 0.0) ==> r == s
    ensures s.relativeDeath < 0.0 && s.netDiversificaton < 0.0 ==>
      r == s.(relativeDeath := d.reseedRelativeDeath, netDiversificaton := d.reseedNetDiversification * MaxDiv)
  {
    if s.relativeDeath < 0.0 && s.netDiversificaton < 0.0 then
      s.(relativeDeath := d.reseedRelativeDeath, netDiversificaton := d.reseedNetDiversification * MaxDiv)
    else s
  }

  /**
   * The outcome of the constructor (lines 50-82). The derived rates are
   * computed from the seeded values at line 61, before the reseeding, the
   * regime-specific zeroing and the clamping that follow, and are not
   * recomputed afterwards.
   */
  function StartupRates(regime: int, fixTestRun: bool, d: SeedDraws, bdr: real, bda: real, bds: real): (r: Startup)
    requires UnitDraws(d)
    requires fixTestRun ==> bds != 1.0
    ensures r.Started? ==>
      r.rates.relativeDeath < 1.0 && r.rates.probSpeciationS != 1.0 &&
      r.rates.extantSampleRate == 1.0 &&
      r.rates.probSpeciationS == Seeded(fixTestRun, d, bdr, bda, bds).probSpeciationS
    ensures r.Started? && regime == 1 ==> r.rates.relativeDeath == 0.0 && r.rates.netDiversificaton == 0.0
    ensures r.Started? && regime == 2 ==> r.rates.relativeDeath == 0.0
    ensures r.Started? && regime != 1 ==> 0.0 < r.rates.netDiversificaton <= MaxDiv
    ensures r.Started? ==> Derivable(Seeded(fixTestRun, d, bdr, bda, bds))
    ensures r.Started? ==>
      var seeded := WithDerived(Seeded(fixTestRun, d, bdr, bda, bds));
      r.rates.birthRate == seeded.birthRate && r.rates.deathRate == seeded.deathRate &&
      r.rates.fossilRate == seeded.fossilRate
    ensures !fixTestRun ==> (r.Started? <==> d.netDiversification > 0.0)
    ensures fixTestRun && bda >= 1.0 ==> r == Exited(RelativeDeathAtLeastOne)
    ensures fixTestRun && bda < 1.0 && !(bda < 0.0 && bdr < 0.0) ==>
      (r == Exited(NetDiversificationNotPositive) <==> bdr <= 0.0)
    ensures fixTestRun && bda < 0.0 && bdr < 0.0 ==>
      (r.Started? <==> d.reseedNetDiversification > 0.0)
    ensures fixTestRun && regime > 2 && bda < 1.0 && bdr > 0.0 && !(bda < 0.0 && bdr < 0.0) ==>
      r.Started? && r.rates.relativeDeath == bda && r.rates.netDiversificaton == ClampNetDiv(bdr)
    ensures var v := Reseeded(Seeded(fixTestRun, d, bdr, bda, bds), d);
      (v.relativeDeath >= 1.0 ==> r == Exited(RelativeDeathAtLeastOne)) &&
      (v.relativeDeath < 1.0 && v.netDiversificaton <= 0.0 ==> r == Exited(NetDiversificationNotPositive)) &&
      (r.Started? <==> v.relativeDeath < 1.0 && v.netDiversificaton > 0.0)
    ensures var v := Reseeded(Seeded(fixTestRun, d, bdr, bda, bds), d);
      r.Started? ==>
        r.rates.relativeDeath == (if regime == 1 || regime == 2 then 0.0 else v.relativeDeath) &&
        r.rates.netDiversificaton == (if regime == 1 then 0.0 else ClampNetDiv(v.netDiversificaton))
  {
    var s0 := Seeded(fixTestRun, d, bdr, bda, bds);
    if s0.relativeDeath == 1.0 then
      // line 61 would divide by zero; line 67 exits in any case
      Exited(RelativeDeathAtLeastOne)
    else
      var derived := WithDerived(s0);
      var v := Reseeded(s0, d);
      var rd1, nd1 := v.relativeDeath, v.netDiversificaton;
      if rd1 >= 1.0 then Exited(RelativeDeathAtLeastOne)
      else if nd1 <= 0.0 then Exited(NetDiversificationNotPositive)
      else
        var rd2 := if regime == 1 || regime == 2 then 0.0 else rd1;
        var nd2 := if regime == 1 then 0.0 else nd1;
        var nd3 := if nd2 >= MaxDiv then ClampNetDiv(nd2) else nd2;
        Started(Rates(rd2, nd3, s0.probSpeciationS, 1.0, derived.birthRate, derived.deathRate, derived.fossilRate))
  }

  /**
   * Three start-ups: a fixed run under regime 2 with a valid relative death
   * starts with it zeroed; a net diversification of twice MaxDiv folds back
   * to half of it; a random start under regime 3 keeps the drawn rates.
   */
  lemma StartupScenarios(d: SeedDraws)
    requires UnitDraws(d) && d.netDiversification > 0.0
    ensures StartupRates(2, true, d, 1.0, 0.5, 0.3).Started?
    ensures StartupRates(2, true, d, 1.0, 0.5, 0.3).rates.relativeDeath == 0.0
    ensures StartupRates(2, true, d, 2.0 * MaxDiv, 0.5, 0.3).rates.netDiversificaton == MaxDiv / 2.0
    ensures StartupRates(3, false, d, 1.0, 0.5, 0.3) ==
      Started(StartupRates(3, false, d, 1.0, 0.5, 0.3).rates.(relativeDeath := d.relativeDeath, netDiversificaton := d.netDiversification))
  {
    var r := StartupRates(2, true, d, 2.0 * MaxDiv, 0.5, 0.3).rates.netDiversificaton;
    assert r * (2.0 * MaxDiv) == MaxDiv * MaxDiv;
  }

  /**
   * A fixed test run with net diversification 1, relative death 0.5 and
   * extant-sampling fraction 0.3 starts with birth rate 2, death rate 1 and
   * fossil rate 0.3/0.7.
   */
  lemma FixedStartScenario(d: SeedDraws, regime: int)
    requires UnitDraws(d) && regime > 2
    ensures StartupRates(regime, true, d, 1.0, 0.5, 0.3) == Started(Rates(0.5, 1.0, 0.3, 1.0, 2.0, 1.0, 3.0 / 7.0))
  {
    var s0 := Seeded(true, d, 1.0, 0.5, 0.3);
    assert WithDerived(s0).birthRate == 2.0;
    assert WithDerived(s0).deathRate == 1.0;
  }
}
