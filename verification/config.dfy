/**
 * The tunables of the simulation (`CityGrowConfig` in src/city_grow.rs) and the
 * two probability formulas read from them. Probabilities, the fall-off constant,
 * alpha, scale and bias are `f32` in the source and exact reals here.
 */
module Configs {
  import opened Ints

  /** `BranchMode`: City is a random walk, Land a directional expansion. */
  datatype BranchMode = City | Land

  datatype Config = Config(
    lifeTime: U16,
    lifeTimeBranch: U16,
    propCityToLand: real,
    propLandToCity: real,
    propBranchOffCity: real,
    propBranchOffLand: real,
    propBranchOffToMain: real,
    branchFallOff: real,
    changeHueNewMain: U8,
    startBranches: U8,
    maxStepsBack: U16,
    lightnessDefault: U8,
    lightnessBranch: U8,
    saturationMain: U8,
    saturationBranch: U8,
    cityRectAlpha: real,
    scale: real,
    reverseActionsPerFrame: nat,
    landDirectionalBias: real)

  /** `CityGrowConfig::default()`. */
  const Default: Config := Config(
    8000, 15, 0.12, 0.03, 0.15, 0.06, 0.02, 50.0, 11, 3, 50,
    140, 60, 255, 255, 0.35, 2.0, 50, 3.0)

  /** `CityGrowConfig::branch_chance`: the base branch-off probability of a mode. */
  function BranchChance(cfg: Config, mode: BranchMode): (r: real)
    ensures mode == City ==> r == cfg.propBranchOffCity
    ensures mode == Land ==> r == cfg.propBranchOffLand
  {
    match mode
    case City => cfg.propBranchOffCity
    case Land => cfg.propBranchOffLand
  }

  /**
   * The population-scaled branch-off probability of `process_branching`:
   * `base * (1 + falloff) / (falloff + n)` for a pass that started with `n` branches.
   */
  function ScaledChance(cfg: Config, mode: BranchMode, population: nat): real
    requires cfg.branchFallOff + population as real != 0.0
  {
    BranchChance(cfg, mode) * (1.0 + cfg.branchFallOff) / (cfg.branchFallOff + population as real)
  }

  /**
   * `roll < scaled_chance` evaluated as `f32`: a zero denominator makes the
   * chance infinite (hit when the numerator is positive) or NaN (never a hit).
   */
  predicate RollHits(cfg: Config, mode: BranchMode, population: nat, roll: real) {
    if cfg.branchFallOff + population as real == 0.0 then BranchChance(cfg, mode) * (1.0 + cfg.branchFallOff) > 0.0
    else roll < ScaledChance(cfg, mode, population)
  }

  /**
   * What the roll decides: with a defined scaled chance a roll hits exactly
   * when it is below it, so a smaller roll hits whenever a larger one does; a
   * lone branch with a non-negative fall-off rolls against its base chance;
   * and with a zero denominator the roll plays no part.
   */
  lemma {:induction false} RollHitsLaws(cfg: Config, mode: BranchMode, population: nat, roll: real, roll': real)
    ensures cfg.branchFallOff + population as real != 0.0 ==>
      (RollHits(cfg, mode, population, roll) <==> roll < ScaledChance(cfg, mode, population))
    ensures cfg.branchFallOff + population as real != 0.0 && roll' <= roll && RollHits(cfg, mode, population, roll) ==>
      RollHits(cfg, mode, population, roll')
    ensures cfg.branchFallOff + population as real == 0.0 ==>
      (RollHits(cfg, mode, population, roll) <==> RollHits(cfg, mode, population, roll'))
    ensures cfg.branchFallOff >= 0.0 && population == 1 ==>
      (RollHits(cfg, mode, 1, roll) <==> roll < BranchChance(cfg, mode))
  {
    if cfg.branchFallOff >= 0.0 && population == 1 {
      ScaledChanceOne(cfg, mode);
      assert cfg.branchFallOff + 1 as real != 0.0;
      assert RollHits(cfg, mode, 1, roll) == (roll < ScaledChance(cfg, mode, 1));
    }
  }

  /**
   * With a non-negative fall-off and base chance, the scaled chance is the base
   * chance for a single branch and never grows as the population grows.
   */
  lemma ScaledChanceFallsOff(cfg: Config, mode: BranchMode, n: nat, m: nat)
    requires cfg.branchFallOff >= 0.0 && BranchChance(cfg, mode) >= 0.0
    requires 1 <= n <= m
    ensures ScaledChance(cfg, mode, 1) == BranchChance(cfg, mode)
    ensures ScaledChance(cfg, mode, m) <= ScaledChance(cfg, mode, n) <= BranchChance(cfg, mode)
  {
    ScaledChanceOne(cfg, mode);
    ScaledChanceMonotone(cfg, mode, n, m);
    ScaledChanceMonotone(cfg, mode, 1, n);
  }

  /** A lone branch rolls against the base chance. */
  lemma {:induction false} ScaledChanceOne(cfg: Config, mode: BranchMode)
    requires cfg.branchFallOff >= 0.0
    ensures ScaledChance(cfg, mode, 1) == BranchChance(cfg, mode)
  {
    Unscaled(BranchChance(cfg, mode), cfg.branchFallOff);
  }

  /** The fall-off formula on plain numbers for a population of one. */
  lemma Unscaled(base: real, f: real)
    requires f >= 0.0
    ensures base * (1.0 + f) / (f + 1 as real) == base
  {
    assert f + 1 as real == 1.0 + f;
    DivSelf(base, 1.0 + f);
  }

  /** More branches never raise the scaled chance. */
  lemma {:induction false} ScaledChanceMonotone(cfg: Config, mode: BranchMode, n: nat, m: nat)
    requires cfg.branchFallOff >= 0.0 && BranchChance(cfg, mode) >= 0.0
    requires 1 <= n <= m
    ensures ScaledChance(cfg, mode, m) <= ScaledChance(cfg, mode, n)
  {
    ScaledAntitone(BranchChance(cfg, mode), cfg.branchFallOff, n as real, m as real);
  }

  /** The fall-off formula on plain numbers: a larger population gives no more. */
  lemma ScaledAntitone(base: real, f: real, a: real, b: real)
    requires base >= 0.0 && f >= 0.0 && 1.0 <= a <= b
    ensures base * (1.0 + f) / (f + b) <= base * (1.0 + f) / (f + a)
  {
    MulNonNegative(base, 1.0 + f);
    DivAntitone(base * (1.0 + f), f + a, f + b);
  }

  lemma MulNonNegative(a: real, b: real)
    requires a >= 0.0 && b >= 0.0
    ensures a * b >= 0.0
  {
  }

  lemma DivSelf(c: real, a: real)
    requires a != 0.0
    ensures c * a / a == c
  {
  }

  /** Dividing a non-negative amount by a larger positive number gives no more. */
  lemma DivAntitone(c: real, a: real, b: real)
    requires c >= 0.0 && 0.0 < a <= b
    ensures c / b <= c / a
  {
    var qa, qb := c / a, c / b;
    assert qa * a == c;
    assert qb * b == c;
    assert qb >= 0.0;
  }

  /**
   * `rng.random_ratio(n, d)` is defined (does not panic) only for `0 < d` and
   * `n <= d`; here `d = round(n * land_directional_bias) as u32`.
   */
  predicate RatioDefined(bias: real, n: nat) {
    var d := RoundToU32(n as real * bias);
    0 < d && n <= d
  }

  /** The ratio test is defined for every neighbour count a move can see (1 to 4). */
  predicate BiasSound(cfg: Config) {
    && RatioDefined(cfg.landDirectionalBias, 1)
    && RatioDefined(cfg.landDirectionalBias, 2)
    && RatioDefined(cfg.landDirectionalBias, 3)
    && RatioDefined(cfg.landDirectionalBias, 4)
  }

  /** A bias of at least one keeps the ratio test defined. */
  lemma BiasAtLeastOneIsSound(cfg: Config)
    requires cfg.landDirectionalBias >= 1.0
    ensures BiasSound(cfg)
  {
    forall n: nat | 1 <= n <= 4
      ensures RatioDefined(cfg.landDirectionalBias, n)
    {
      var x := n as real * cfg.landDirectionalBias;
      assert x >= n as real;
      if x + 0.5 < U32_LIMIT as real {
        assert RoundToU32(x) as real + 1.0 > x + 0.5;
      }
    }
  }

  lemma DefaultIsSound()
    ensures BiasSound(Default)
    ensures Default.branchFallOff > 0.0
  {
    BiasAtLeastOneIsSound(Default);
  }
}
