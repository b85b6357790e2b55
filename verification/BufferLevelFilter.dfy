/** The buffer level filter of NetEq (neteq/src/buffer_level_filter.rs), over reals. */
module LevelFilters {
  import opened Numbers

  /** The smoothing coefficient for a target delay. */
  function FactorFor(targetMs: nat): real {
    if targetMs <= 20 then 251.0 / 256.0
    else if targetMs <= 60 then 252.0 / 256.0
    else if targetMs <= 140 then 253.0 / 256.0
    else 254.0 / 256.0
  }

  /** Large jumps are followed with coefficient 0.7, everything else with the configured one. */
  function EffectiveFactor(level: real, factor: real, size: nat): real {
    var jump := AbsReal(size as real - level);
    var threshold := if level < 100.0 then MaxReal(size as real * 0.75, 3000.0) else MaxReal(level * 3.0, 1500.0);
    if jump > threshold then 0.7 else factor
  }

  function Smoothed(alpha: real, level: real, size: nat): real {
    alpha * level + (1.0 - alpha) * size as real
  }

  function UpdatedLevel(level: real, factor: real, size: nat, stretched: int): real {
    MaxReal(Smoothed(EffectiveFactor(level, factor, size), level, size) - stretched as real, 0.0)
  }

  // ----- convergence to a constant buffer ----------------------------------------------

  /** Levels reached by updates against a constant buffer, the coefficient set for `targets[i]` before each. */
  function LevelAfter(level: real, targets: seq<nat>, size: nat): real {
    if targets == [] then level
    else UpdatedLevel(LevelAfter(level, targets[..|targets| - 1], size), FactorFor(targets[|targets| - 1]), size, 0)
  }

  lemma OneUpdate(level: real, targetMs: nat, size: nat)
    requires 0.0 <= level
    ensures var next, goal := UpdatedLevel(level, FactorFor(targetMs), size, 0), size as real;
      && 0.0 <= next
      && (level <= goal ==> level <= next <= goal)
      && (goal <= level ==> goal <= next <= level)
      && AbsReal(goal - next) <= 254.0 / 256.0 * AbsReal(goal - level)
  {
    var alpha := EffectiveFactor(level, FactorFor(targetMs), size);
    var goal := size as real;
    assert 0.7 <= alpha <= 254.0 / 256.0;
    assert alpha * level + (1.0 - alpha) * goal == goal - alpha * (goal - level);
    Shrink(alpha, goal - level);
  }

  /** Jumps that the filter follows fast: over three quarters of the buffer (3000 at least) from a low level, three times the level (1500 at least) else. */
  predicate IsBigJump(level: real, size: nat) {
    var jump := if level <= size as real then size as real - level else level - size as real;
    if level < 100.0 then jump > 3000.0 && 4.0 * jump > 3.0 * size as real
    else jump > 1500.0 && jump > 3.0 * level
  }

  /** What one update leaves of the distance to the buffer size: 0.7 after a big jump, else by the target delay. */
  lemma UpdateIsExact(level: real, targetMs: nat, size: nat)
    requires 0.0 <= level
    ensures var error, error' := size as real - level, size as real - UpdatedLevel(level, FactorFor(targetMs), size, 0);
      && (IsBigJump(level, size) ==> 10.0 * error' == 7.0 * error)
      && (!IsBigJump(level, size) && targetMs <= 20 ==> 256.0 * error' == 251.0 * error)
      && (!IsBigJump(level, size) && 20 < targetMs <= 60 ==> 256.0 * error' == 252.0 * error)
      && (!IsBigJump(level, size) && 60 < targetMs <= 140 ==> 256.0 * error' == 253.0 * error)
      && (!IsBigJump(level, size) && 140 < targetMs ==> 256.0 * error' == 254.0 * error)
  {
    assert EffectiveFactor(level, FactorFor(targetMs), size) == if IsBigJump(level, size) then 0.7 else FactorFor(targetMs);
    OneUpdate(level, targetMs, size);
  }

  /** Samples removed by stretching come off the level one for one, samples added go on, never below zero. */
  lemma StretchingShifts(level: real, factor: real, size: nat, stretched: int)
    requires 0.0 <= level && 0.0 <= factor <= 1.0
    ensures UpdatedLevel(level, factor, size, stretched) == MaxReal(UpdatedLevel(level, factor, size, 0) - stretched as real, 0.0)
  {
    var alpha := EffectiveFactor(level, factor, size);
    ProductNonNegative(alpha, level);
    ProductNonNegative(1.0 - alpha, size as real);
  }

  lemma Shrink(alpha: real, e: real)
    requires 0.0 <= alpha <= 254.0 / 256.0
    ensures 0.0 <= e ==> 0.0 <= alpha * e <= 254.0 / 256.0 * e
    ensures e <= 0.0 ==> 254.0 / 256.0 * e <= alpha * e <= 0.0
  {
    ProductNonNegative(alpha, AbsReal(e));
    ProductNonNegative(254.0 / 256.0 - alpha, AbsReal(e));
  }

  /** `reached` lies between the start and the goal, within `bound` of the goal. */
  ghost predicate Approaches(level: real, reached: real, goal: real, bound: real) {
    && 0.0 <= reached
    && (level <= goal ==> level <= reached <= goal)
    && (goal <= level ==> goal <= reached <= level)
    && AbsReal(goal - reached) <= bound
  }

  /** The level approaches a constant buffer from one side, at least as fast as (254/256)^k. */
  lemma {:induction false} LevelConverges(level: real, targets: seq<nat>, size: nat)
    requires 0.0 <= level
    ensures Approaches(level, LevelAfter(level, targets, size), size as real,
                       Shrunk(254.0 / 256.0, AbsReal(size as real - level), |targets|))
  {
    if targets == [] {
    } else {
      var n := |targets| - 1;
      LevelConverges(level, targets[..n], size);
      OneUpdate(LevelAfter(level, targets[..n], size), targets[n], size);
    }
  }

  class BufferLevelFilter {
    var filteredLevelSamples: real
    var levelFactor: real

    ghost predicate Valid()
      reads this
    {
      0.0 <= filteredLevelSamples
    }

    constructor ()
      ensures Valid() && filteredLevelSamples == 0.0 && levelFactor == 253.0 / 256.0
    {
      filteredLevelSamples, levelFactor := 0.0, 253.0 / 256.0;
    }

    method Update(size: nat, stretched: int)
      requires Valid()
      modifies this`filteredLevelSamples
      ensures Valid()
      ensures filteredLevelSamples == UpdatedLevel(old(filteredLevelSamples), levelFactor, size, stretched)
    {
      var bufferJump := AbsReal(size as real - filteredLevelSamples);
      var threshold := if filteredLevelSamples < 100.0 then MaxReal(size as real * 0.75, 3000.0)
                       else MaxReal(filteredLevelSamples * 3.0, 1500.0);
      var alpha := if bufferJump > threshold then 0.7 else levelFactor;
      var filtered := Smoothed(alpha, filteredLevelSamples, size);
      filteredLevelSamples := MaxReal(filtered - stretched as real, 0.0);
    }

    method SetFilteredBufferLevel(size: nat)
      modifies this`filteredLevelSamples
      ensures Valid() && filteredLevelSamples == size as real
    {
      filteredLevelSamples := size as real;
    }

    function FilteredCurrentLevel(): nat
      requires Valid()
      reads this
    {
      filteredLevelSamples.Floor
    }

    method SetTargetBufferLevel(targetMs: nat)
      modifies this`levelFactor
      ensures levelFactor == FactorFor(targetMs)
    {
      levelFactor := FactorFor(targetMs);
    }

    method Reset()
      modifies this
      ensures Valid() && filteredLevelSamples == 0.0 && levelFactor == 253.0 / 256.0
    {
      filteredLevelSamples, levelFactor := 0.0, 253.0 / 256.0;
    }
  }
}
