/**
 * Puzzle 7 (components/challenges/Challenge7.tsx): an adversarial number
 * guessing game over [1, 999]. The component keeps a window [low, high]
 * of numbers the "secret" may still be; after each guess it keeps the
 * larger of the two sides left of and right of the guess (a coin decides
 * a tie), so the secret is never pinned down. The player wins only if
 * the window has collapsed to one number by the tenth move and that
 * move names it.
 *
 * `Number(value)` is modelled as an optional integer (None for NaN); the
 * coin, `Math.random() < 0.5`, is a parameter.
 */
module Challenge7 {
  import opened Wrappers

  const Min: int := 1
  const Max: int := 999
  /** `Math.ceil(Math.log2(MAX - MIN + 1))`, which is 10. */
  const MaxMoves: int := 10

  datatype Status = Playing | Won | Lost
  /** The hint shown after a move: 'alto' (higher) or 'bajo' (lower). */
  datatype Hint = Higher | Lower
  datatype Problem = OutOfRange | NotCollapsed | NoRangeLeft

  /** The component's state variables. */
  datatype Game = Game(low: int, high: int, moves: int, state: Status,
                       error: Option<Problem>, lastHint: Option<Hint>)

  /** The result of `handlePlay`: the game after it, and whether it
      returned the parent's verdict on the answer 'OK' (only after a win)
      rather than `false`. */
  datatype Play = Play(next: Game, submitted: bool)

  const Initial: Game := Game(Min, Max, 0, Playing, None, None)

  /** The window stays inside [Min, Max] and is never empty; a game in
      play has moves left. */
  predicate Valid(g: Game) {
    Min <= g.low <= g.high <= Max
    && 0 <= g.moves <= MaxMoves
    && (g.state == Playing ==> g.moves < MaxMoves)
  }

  function LeftHigh(g: Game, guess: int): int {
    if g.low < guess - 1 then guess - 1 else g.low
  }

  function RightLow(g: Game, guess: int): int {
    if g.high < guess + 1 then g.high else guess + 1
  }

  function LeftSize(g: Game, guess: int): int {
    if LeftHigh(g, guess) >= g.low then LeftHigh(g, guess) - g.low + 1 else 0
  }

  function RightSize(g: Game, guess: int): int {
    if RightLow(g, guess) <= g.high then g.high - RightLow(g, guess) + 1 else 0
  }

  /** Which side the component keeps: the larger one, the coin on a tie. */
  function GoRight(g: Game, guess: int, coin: bool): bool {
    var leftSize, rightSize := LeftSize(g, guess), RightSize(g, guess);
    if leftSize == 0 && rightSize > 0 then true
    else if rightSize == 0 && leftSize > 0 then false
    else if rightSize > leftSize then true
    else if rightSize < leftSize then false
    else coin
  }

  /** One call of `handlePlay`. */
  function Step(g: Game, guess: Option<int>, coin: bool): (r: Play)
    ensures Valid(g) ==> Valid(r.next)
    ensures r.submitted ==> r.next.state == Won
    ensures r.next.error != Some(NoRangeLeft) || g.error == Some(NoRangeLeft)
  {
    if g.state != Playing then Play(g, false)
    else if guess.None? || guess.value < Min || guess.value > Max then
      Play(g.(error := Some(OutOfRange)), false)
    else
      var guess := guess.value;
      var nextMoves := g.moves + 1;
      var g1 := g.(moves := nextMoves, error := None);
      if nextMoves >= MaxMoves then
        if g.low == g.high && guess == g.low then Play(g1.(state := Won), true)
        else Play(g1.(state := Lost, error := Some(NotCollapsed)), false)
      else if LeftSize(g, guess) == 0 && RightSize(g, guess) == 0 then
        Play(g1.(state := Lost, error := Some(NoRangeLeft)), false)
      else if GoRight(g, guess, coin) then
        Play(g1.(low := RightLow(g, guess), lastHint := Some(Higher)), false)
      else
        Play(g1.(high := LeftHigh(g, guess), lastHint := Some(Lower)), false)
  }

  /** The component, with `handlePlay` updating its state step by step. */
  class Challenge7Game {
    var low: int
    var high: int
    var moves: int
    var state: Status
    var error: Option<Problem>
    var lastHint: Option<Hint>

    function Snapshot(): Game
      reads this
    {
      Game(low, high, moves, state, error, lastHint)
    }

    constructor ()
      ensures Snapshot() == Initial && Valid(Snapshot())
    {
      low, high, moves, state, error, lastHint := Min, Max, 0, Playing, None, None;
    }

    method HandlePlay(value: Option<int>, coin: bool) returns (submitted: bool)
      modifies this
      ensures Snapshot() == Step(old(Snapshot()), value, coin).next
      ensures submitted == Step(old(Snapshot()), value, coin).submitted
    {
      if state != Playing {
        return false;
      }
      if value.None? || value.value < Min || value.value > Max {
        error := Some(OutOfRange);
        return false;
      }
      var guess := value.value;
      var nextMoves := moves + 1;
      moves := nextMoves;
      error := None;

      if nextMoves >= MaxMoves {
        if low == high && guess == low {
          state := Won;
          return true;
        }
        state := Lost;
        error := Some(NotCollapsed);
        return false;
      }

      var leftHigh := if low < guess - 1 then guess - 1 else low;
      var rightLow := if high < guess + 1 then high else guess + 1;
      var leftSize := if leftHigh >= low then leftHigh - low + 1 else 0;
      var rightSize := if rightLow <= high then high - rightLow + 1 else 0;

      if leftSize == 0 && rightSize == 0 {
        // the source gives up here with NoRangeLeft; leftHigh >= low makes
        // leftSize at least 1, so the branch is dead
        assert false;
      }

      var goRight := false;
      if leftSize == 0 && rightSize > 0 {
        goRight := true;
      } else if rightSize == 0 && leftSize > 0 {
        goRight := false;
      } else if rightSize > leftSize {
        goRight := true;
      } else if rightSize < leftSize {
        goRight := false;
      } else {
        goRight := coin;
      }

      if goRight {
        low := rightLow;
        lastHint := Some(Higher);
      } else {
        high := leftHigh;
        lastHint := Some(Lower);
      }
      return false;
    }
  }

  // ---------------------------------------------------------------------
  // Properties of one move
  // ---------------------------------------------------------------------

  /** Once the game is over, a play changes nothing. */
  lemma FinishedIgnoresPlay(g: Game, guess: Option<int>, coin: bool)
    requires g.state != Playing
    ensures Step(g, guess, coin) == Play(g, false)
  {
  }

  /** A guess that is not a number in [Min, Max] only sets the error. */
  lemma BadGuessOnlySetsError(g: Game, guess: Option<int>, coin: bool)
    requires g.state == Playing
    requires guess.None? || guess.value < Min || guess.value > Max
    ensures Step(g, guess, coin) == Play(g.(error := Some(OutOfRange)), false)
  {
  }

  /** An accepted guess costs exactly one move and clears the error. */
  lemma GuessCostsOneMove(g: Game, guess: int, coin: bool)
    requires g.state == Playing && Min <= guess <= Max
    ensures Step(g, Some(guess), coin).next.moves == g.moves + 1
    ensures Step(g, Some(guess), coin).next.error != Some(OutOfRange)
  {
  }

  /** On the last move the game is won exactly when the window is one
      number and the guess names it; the answer is submitted only then. */
  lemma LastMoveDecides(g: Game, guess: int, coin: bool)
    requires g.state == Playing && Min <= guess <= Max && g.moves + 1 >= MaxMoves
    ensures var r := Step(g, Some(guess), coin);
      (r.next.state == Won <==> g.low == g.high && guess == g.low)
      && (r.next.state == Lost <==> !(g.low == g.high && guess == g.low))
      && (r.submitted <==> r.next.state == Won)
  {
  }

  /** Before the last move the game goes on, and exactly one end of the
      window moves: `low` when the hint is "higher", `high` otherwise. */
  lemma EarlyMoveNarrowsOneSide(g: Game, guess: int, coin: bool)
    requires g.state == Playing && Min <= guess <= Max && g.moves + 1 < MaxMoves
    ensures var r := Step(g, Some(guess), coin);
      r.next.state == Playing && !r.submitted
      && (r.next.lastHint == Some(Higher) ==> r.next.low == RightLow(g, guess) && r.next.high == g.high)
      && (r.next.lastHint == Some(Lower) ==> r.next.high == LeftHigh(g, guess) && r.next.low == g.low)
      && r.next.lastHint.Some?
  {
  }

  /** Neither side is ever empty, so "no range left" cannot happen. */
  lemma SidesNeverEmpty(g: Game, guess: int)
    ensures LeftSize(g, guess) >= 1 && RightSize(g, guess) >= 1
  {
  }

  /** The kept side is never the smaller one. */
  lemma KeepsLargerSide(g: Game, guess: int, coin: bool)
    ensures GoRight(g, guess, coin) ==> RightSize(g, guess) >= LeftSize(g, guess)
    ensures !GoRight(g, guess, coin) ==> LeftSize(g, guess) >= RightSize(g, guess)
  {
    SidesNeverEmpty(g, guess);
  }

  /** The window can grow: a guess far above it moves `high` up. */
  lemma WindowCanGrow()
    ensures Step(Game(1, 5, 0, Playing, None, None), Some(10), false).next.high == 9
  {
  }

  // ---------------------------------------------------------------------
  // The winning strategy
  // ---------------------------------------------------------------------

  function Size(g: Game): int {
    g.high - g.low + 1
  }

  function Midpoint(g: Game): int {
    g.low + (g.high - g.low) / 2
  }

  /** Guessing the midpoint at least halves the window (down to one). */
  lemma MidpointHalves(g: Game, coin: bool)
    requires Valid(g) && g.state == Playing && g.moves + 1 < MaxMoves
    ensures var n := Step(g, Some(Midpoint(g)), coin).next;
      Size(n) <= if Size(g) / 2 < 1 then 1 else Size(g) / 2
  {
  }

  /** The largest window after `m` midpoint moves: 999 halved `m` times. */
  function WindowBound(m: nat): int {
    if m == 0 then Max - Min + 1 else
    var b := WindowBound(m - 1) / 2;
    if b < 1 then 1 else b
  }

  /** Play the midpoint of the window once per coin. */
  function Run(g: Game, coins: seq<bool>): Game
    decreases |coins|
  {
    if coins == [] then g else Run(Step(g, Some(Midpoint(g)), coins[0]).next, coins[1..])
  }

  lemma {:induction false} RunKeepsWindowSmall(g: Game, coins: seq<bool>)
    requires Valid(g) && g.state == Playing && Size(g) <= WindowBound(g.moves)
    requires g.moves + |coins| <= MaxMoves - 1
    ensures Valid(Run(g, coins)) && Run(g, coins).state == Playing
    ensures Run(g, coins).moves == g.moves + |coins|
    ensures Size(Run(g, coins)) <= WindowBound(g.moves + |coins|)
    decreases |coins|
  {
    if coins != [] {
      var n := Step(g, Some(Midpoint(g)), coins[0]).next;
      MidpointHalves(g, coins[0]);
      RunKeepsWindowSmall(n, coins[1..]);
    }
  }

  /** Halving 999 nine times leaves one number. */
  lemma NineHalvings()
    ensures WindowBound(9) == 1
  {
    assert WindowBound(1) == 499;
    assert WindowBound(2) == 249;
    assert WindowBound(3) == 124;
    assert WindowBound(4) == 62;
    assert WindowBound(5) == 31;
    assert WindowBound(6) == 15;
    assert WindowBound(7) == 7;
    assert WindowBound(8) == 3;
  }

  /** Whatever the coins say, guessing the midpoint ten times wins. */
  lemma MidpointStrategyWins(coins: seq<bool>)
    requires |coins| == MaxMoves
    ensures Run(Initial, coins).state == Won
  {
    var first := coins[..9];
    RunKeepsWindowSmall(Initial, first);
    NineHalvings();
    RunSplit(Initial, first, coins[9..]);
    assert first + coins[9..] == coins;
    var g := Run(Initial, first);
    assert coins[9..][1..] == [];
  }

  lemma {:induction false} RunSplit(g: Game, a: seq<bool>, b: seq<bool>)
    ensures Run(g, a + b) == Run(Run(g, a), b)
    decreases |a|
  {
    if a != [] {
      assert (a + b)[1..] == a[1..] + b;
      RunSplit(Step(g, Some(Midpoint(g)), a[0]).next, a[1..], b);
    } else {
      assert a + b == b;
    }
  }
}
