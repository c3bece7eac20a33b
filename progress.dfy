/**
 * The progress hook (hooks/useProgress.ts). The hook keeps the player's
 * current level and a ready flag, and mirrors the level into browser
 * storage under one key. The stored text is modelled by what `Number()`
 * makes of it: nothing stored (or the empty string), a value that is not
 * a number, or an integer level.
 */
module Progress {

  datatype StoredLevel = Missing | NotANumber | Level(value: int)

  /** `Math.max(1, Math.min(nextLevel, totalLevels + 1))` */
  function Clamp(nextLevel: int, totalLevels: nat): (r: int)
    ensures 1 <= r <= totalLevels + 1
    ensures 1 <= nextLevel <= totalLevels + 1 ==> r == nextLevel
    ensures nextLevel < 1 ==> r == 1
    ensures nextLevel > totalLevels + 1 ==> r == totalLevels + 1
  {
    var upper := if nextLevel < totalLevels + 1 then nextLevel else totalLevels + 1;
    if 1 < upper then upper else 1
  }

  /** The level after the restoring effect has run: a stored level of at
      least 1 is taken, capped at `totalLevels + 1`; anything else keeps
      the current level. */
  function Restored(stored: StoredLevel, totalLevels: nat, current: int): (r: int)
    ensures 1 <= current <= totalLevels + 1 ==> 1 <= r <= totalLevels + 1
    ensures stored.Level? && 1 <= stored.value ==>
      r <= stored.value && r <= totalLevels + 1 && (r == stored.value || r == totalLevels + 1)
    ensures !(stored.Level? && 1 <= stored.value) ==> r == current
  {
    match stored
    case Level(parsed) =>
      if parsed >= 1 then (if parsed < totalLevels + 1 then parsed else totalLevels + 1)
      else current
    case _ => current
  }

  class ProgressHook {
    const totalLevels: nat
    var currentLevel: int
    var isReady: bool
    /** The storage entry `mobile-ctf-progress`. */
    var storage: StoredLevel

    ghost predicate Valid()
      reads this
    {
      1 <= currentLevel <= totalLevels + 1
    }

    /** The first render: level 1, not ready, storage as found. */
    constructor (totalLevels: nat, storage: StoredLevel)
      ensures Valid()
      ensures this.totalLevels == totalLevels && this.storage == storage
      ensures currentLevel == 1 && !isReady
    {
      this.totalLevels := totalLevels;
      this.storage := storage;
      currentLevel := 1;
      isReady := false;
    }

    /** The effect that restores the saved level, then marks the hook ready. */
    method Restore()
      requires Valid()
      modifies this
      ensures Valid()
      ensures currentLevel == Restored(old(storage), totalLevels, old(currentLevel))
      ensures isReady && storage == old(storage)
    {
      match storage {
        case Level(parsed) =>
          if parsed >= 1 {
            currentLevel := if parsed < totalLevels + 1 then parsed else totalLevels + 1;
          }
        case _ =>
      }
      isReady := true;
    }

    /** `updateLevel(nextLevel)`: clamp, then show and save the result. */
    method UpdateLevel(nextLevel: int)
      modifies this
      ensures Valid()
      ensures currentLevel == Clamp(nextLevel, totalLevels)
      ensures storage == Level(currentLevel)
      ensures isReady == old(isReady)
    {
      var normalized := Clamp(nextLevel, totalLevels);
      currentLevel := normalized;
      storage := Level(normalized);
    }

    /** `reset()`: back to the first level, in storage too. */
    method Reset()
      modifies this
      ensures Valid()
      ensures currentLevel == 1 && storage == Level(1)
      ensures isReady == old(isReady)
    {
      UpdateLevel(1);
    }
  }

  /** Clamping a clamped level changes nothing. */
  lemma ClampIdempotent(nextLevel: int, totalLevels: nat)
    ensures Clamp(Clamp(nextLevel, totalLevels), totalLevels) == Clamp(nextLevel, totalLevels)
  {
  }

  /** What `updateLevel` saves is what a later restore loads, whatever the
      level was before. */
  lemma SaveThenRestore(nextLevel: int, totalLevels: nat, current: int)
    ensures Restored(Level(Clamp(nextLevel, totalLevels)), totalLevels, current)
      == Clamp(nextLevel, totalLevels)
  {
  }

  /** A restore after the first render, on a level of at least 1, loads
      `min(p, totalLevels + 1)`. */
  lemma RestoreCapped(p: int, totalLevels: nat)
    requires p >= 1
    ensures Restored(Level(p), totalLevels, 1) == if p <= totalLevels + 1 then p else totalLevels + 1
  {
  }

  /** `updateLevel` does not only move forward: it can lower the level. */
  lemma UpdateCanLower()
    ensures Clamp(1, 5) < Clamp(4, 5)
  {
  }
}
