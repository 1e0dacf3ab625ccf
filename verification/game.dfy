/** The game engine the search consults. Its rules (captures, turn
    bookkeeping, legality) are not part of this model: a state is an
    abstract value and the engine is a bundle of functions on it. Placing a
    stone returns a new state, so every branch of the search works on its
    own copy, as the source's copy constructor arranges. */
module Game {
  import opened Wrappers
  import opened Hex

  datatype Rules<!S> = Rules(
    moves: S -> seq<Cell>,         // legal placements for the side to move
    current: S -> Player,          // the side to move
    gameOver: S -> bool,
    winner: S -> Option<Player>,   // None when no one has won
    place: (S, Cell) -> S,         // place a stone and resolve captures
    board: S -> Board,             // what the evaluator reads
    measure: S -> nat)             // bounds the length of a capture chain

  /** The measure assumption about the engine: a legal placement after
      which the same player is still to move strictly lowers the measure, so
      no capture chain is endless. The other assumption, on the board's
      shape, is carried by the type Hex.Board of `board`. */
  ghost predicate Valid<S(!new)>(R: Rules<S>) {
    forall s, m | m in R.moves(s) && R.current(R.place(s, m)) == R.current(s) ::
      R.measure(R.place(s, m)) < R.measure(s)
  }

  /** The remaining length of p's capture chain from s (0 once p is not to move). */
  function ChainBudget<S>(R: Rules<S>, s: S, p: Player): nat {
    if R.current(s) == p then R.measure(s) + 1 else 0
  }

  lemma ChainShrinks<S(!new)>(R: Rules<S>, s: S, m: Cell, p: Player)
    requires Valid(R) && m in R.moves(s) && R.current(s) == p
    ensures ChainBudget(R, R.place(s, m), p) < ChainBudget(R, s, p)
  {
  }

  /** p's turn is over in t: the game ended, the turn passed, or p has no
      continuation. */
  predicate TurnOver<S>(R: Rules<S>, t: S, p: Player) {
    R.gameOver(t) || R.current(t) != p || |R.moves(t)| == 0
  }

  /** Placing path from s leads to t, each placement legal when made, by p
      while p is still to move in an unfinished game. */
  ghost predicate Chain<S>(R: Rules<S>, s: S, path: seq<Cell>, p: Player, t: S)
    decreases |path|
  {
    if |path| == 0 then t == s
    else
      && R.current(s) == p
      && !R.gameOver(s)
      && path[0] in R.moves(s)
      && Chain(R, R.place(s, path[0]), path[1..], p, t)
  }

  /** A whole turn of p from s: a first legal placement, then a chain of
      continuations, ending where p's turn is over. */
  ghost predicate IsTurn<S>(R: Rules<S>, s: S, path: seq<Cell>, p: Player, t: S) {
    && |path| > 0
    && R.current(s) == p
    && path[0] in R.moves(s)
    && Chain(R, R.place(s, path[0]), path[1..], p, t)
    && TurnOver(R, t, p)
  }
}
