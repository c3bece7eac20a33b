/**
 * Puzzle 8 (components/challenges/Challenge8.tsx): the number of ways to
 * climb a staircase of `n` steps taking 1, 2 or 3 steps at a time,
 * computed by `calculateWays` with an array filled from index 3 up.
 * Numbers are unbounded integers here; the source's doubles lose
 * precision past 2^53, far beyond the step counts the puzzle uses.
 */
module Challenge8 {
  import opened Wrappers

  /** The recurrence the array follows. */
  function Ways(n: nat): nat {
    if n == 0 then 1
    else if n == 1 then 1
    else if n == 2 then 2
    else Ways(n - 1) + Ways(n - 2) + Ways(n - 3)
  }

  /** `calculateWays(n)`. A negative `n` reads `dp[n]`, which does not
      exist: the source returns `undefined`, here None. */
  method CalculateWays(n: int) returns (r: Option<nat>)
    ensures n < 0 ==> r == None
    ensures n >= 0 ==> r == Some(Ways(n))
  {
    if n == 0 { return Some(1); }
    if n == 1 { return Some(1); }
    if n == 2 { return Some(2); }

    var dp := new nat[if n < 3 then 3 else n + 1];
    dp[0], dp[1], dp[2] := 1, 1, 2;
    var i := 3;
    while i <= n
      invariant 3 <= i <= dp.Length
      invariant forall k | 0 <= k < i :: dp[k] == Ways(k)
    {
      assert Ways(i) == Ways(i - 1) + Ways(i - 2) + Ways(i - 3);
      dp[i] := dp[i - 1] + dp[i - 2] + dp[i - 3];
      i := i + 1;
    }
    if 0 <= n < dp.Length {
      r := Some(dp[n]);
    } else {
      r := None;
    }
  }

  /** Counting climbs directly: choose the first stride (1, 2 or 3 steps,
      no more than remain), then climb the rest. */
  function Climbs(n: nat): nat {
    if n == 0 then 1
    else Climbs(n - 1) + (if n >= 2 then Climbs(n - 2) else 0) + (if n >= 3 then Climbs(n - 3) else 0)
  }

  /** The array's seeds 1, 1, 2 and its recurrence count the climbs. */
  lemma {:induction false} WaysCountsClimbs(n: nat)
    ensures Ways(n) == Climbs(n)
  {
    if n >= 3 {
      WaysCountsClimbs(n - 1);
      WaysCountsClimbs(n - 2);
      WaysCountsClimbs(n - 3);
    } else if n == 2 {
      WaysCountsClimbs(1);
      WaysCountsClimbs(0);
    } else if n == 1 {
      WaysCountsClimbs(0);
    }
  }

  /** Every staircase can be climbed. */
  lemma {:induction false} WaysPositive(n: nat)
    ensures Ways(n) >= 1
  {
    if n >= 3 {
      WaysPositive(n - 1);
    }
  }

  /** The counts grow with the staircase. */
  lemma {:induction false} WaysMonotone(n: nat)
    ensures Ways(n) <= Ways(n + 1)
  {
    if n >= 2 {
      WaysPositive(n - 1);
      WaysPositive(n - 2);
    }
  }

  /** The sequence the puzzle shows for steps 1 to 5, with the worked
      example of the prompt at step 3. */
  lemma ShownSequence()
    ensures Ways(1) == 1 && Ways(2) == 2 && Ways(3) == 4 && Ways(4) == 7 && Ways(5) == 13
  {
  }

  /** The answer the puzzle asks for: fifteen steps. */
  lemma FifteenSteps()
    ensures Ways(15) == 5768
  {
    assert Ways(6) == 24;
    assert Ways(7) == 44;
    assert Ways(8) == 81;
    assert Ways(9) == 149;
    assert Ways(10) == 274;
    assert Ways(11) == 504;
    assert Ways(12) == 927;
    assert Ways(13) == 1705;
    assert Ways(14) == 3136;
  }
}
