/** Chain completion (completar): after a placement, the same player keeps
    placing while a capture leaves them the turn, each time taking the
    continuation whose board the evaluator rates highest. */
module Completion {
  import opened Hex
  import opened Choice
  import opened Game

  /** The evaluator's rating for p of each continuation in cs. */
  function Outlook<S>(R: Rules<S>, eval: (Board, Player) -> int, ns: S, cs: seq<Cell>, p: Player): seq<int> {
    seq(|cs|, i requires 0 <= i < |cs| => eval(R.board(R.place(ns, cs[i])), p))
  }

  /** The continuation the greedy completion takes: the first one whose
      board is rated highest. */
  function Greedy<S>(R: Rules<S>, eval: (Board, Player) -> int, ns: S, p: Player): (c: Cell)
    requires |R.moves(ns)| > 0
    ensures c in R.moves(ns)
  {
    R.moves(ns)[FirstArgMax(Outlook(R, eval, ns, R.moves(ns), p))]
  }

  /** No other continuation is rated strictly higher than the greedy choice,
      and every continuation listed before it is rated strictly lower. */
  lemma GreedyIsBest<S>(R: Rules<S>, eval: (Board, Player) -> int, ns: S, p: Player)
    requires |R.moves(ns)| > 0
    ensures exists k | 0 <= k < |R.moves(ns)| ::
      && Greedy(R, eval, ns, p) == R.moves(ns)[k]
      && (forall j | 0 <= j < |R.moves(ns)| ::
            eval(R.board(R.place(ns, R.moves(ns)[j])), p) <= eval(R.board(R.place(ns, R.moves(ns)[k])), p))
      && (forall j | 0 <= j < k ::
            eval(R.board(R.place(ns, R.moves(ns)[j])), p) < eval(R.board(R.place(ns, R.moves(ns)[k])), p))
  {
    var cs := R.moves(ns);
    var vs := Outlook(R, eval, ns, cs, p);
    assert forall j | 0 <= j < |cs| :: vs[j] == eval(R.board(R.place(ns, cs[j])), p);
    var k := FirstArgMax(vs);
    assert Greedy(R, eval, ns, p) == cs[k];
  }

  /** A lone continuation is also the greedy choice: the source's special
      case for one continuation agrees with the general one. */
  lemma LoneContinuationIsGreedy<S>(R: Rules<S>, eval: (Board, Player) -> int, ns: S, p: Player)
    requires |R.moves(ns)| == 1
    ensures Greedy(R, eval, ns, p) == R.moves(ns)[0]
  {
  }

  /** The continuation completion places from ns (p to move, game on). */
  function NextPlacement<S>(R: Rules<S>, eval: (Board, Player) -> int, ns: S, p: Player): (c: Cell)
    requires |R.moves(ns)| > 0
    ensures c in R.moves(ns)
  {
    if |R.moves(ns)| == 1 then R.moves(ns)[0] else Greedy(R, eval, ns, p)
  }

  /** Finishes p's capture chain from ns. Under Valid every placement of the
      chain lowers the chain budget; the guard on the budget only makes the
      function total for rules that break Valid. */
  function Complete<S(!new)>(R: Rules<S>, eval: (Board, Player) -> int, ns: S, p: Player): (t: S)
    ensures Valid(R) ==> TurnOver(R, t, p)
    decreases ChainBudget(R, ns, p)
  {
    if p != R.current(ns) || R.gameOver(ns) || |R.moves(ns)| == 0 then ns
    else
      var t := R.place(ns, NextPlacement(R, eval, ns, p));
      if ChainBudget(R, t, p) < ChainBudget(R, ns, p) then Complete(R, eval, t, p)
      else
        assert !Valid(R) by {
          if Valid(R) { ChainShrinks(R, ns, NextPlacement(R, eval, ns, p), p); }
        }
        t
  }

  /** The placements Complete makes. */
  ghost function CompletePath<S(!new)>(R: Rules<S>, eval: (Board, Player) -> int, ns: S, p: Player): seq<Cell>
    decreases ChainBudget(R, ns, p)
  {
    if p != R.current(ns) || R.gameOver(ns) || |R.moves(ns)| == 0 then []
    else
      var c := NextPlacement(R, eval, ns, p);
      var t := R.place(ns, c);
      if ChainBudget(R, t, p) < ChainBudget(R, ns, p) then [c] + CompletePath(R, eval, t, p)
      else [c]
  }

  /** Complete makes only legal placements, each while p has the turn in an
      unfinished game. */
  lemma {:induction false} CompleteIsChain<S(!new)>(R: Rules<S>, eval: (Board, Player) -> int, ns: S, p: Player)
    ensures Chain(R, ns, CompletePath(R, eval, ns, p), p, Complete(R, eval, ns, p))
    decreases ChainBudget(R, ns, p)
  {
    if p != R.current(ns) || R.gameOver(ns) || |R.moves(ns)| == 0 {
    } else {
      var c := NextPlacement(R, eval, ns, p);
      var t := R.place(ns, c);
      if ChainBudget(R, t, p) < ChainBudget(R, ns, p) {
        CompleteIsChain(R, eval, t, p);
        assert ([c] + CompletePath(R, eval, t, p))[1..] == CompletePath(R, eval, t, p);
      } else {
        assert [c][1..] == [];
      }
    }
  }

  /** Places m for p and finishes the chain it starts. */
  function Completar<S(!new)>(R: Rules<S>, eval: (Board, Player) -> int, s: S, m: Cell, p: Player): (t: S)
    ensures Valid(R) ==> TurnOver(R, t, p)
  {
    Complete(R, eval, R.place(s, m), p)
  }

  /** A legal placement m of the side to move, completed, is a whole turn of
      that side. */
  lemma CompletarIsTurn<S(!new)>(R: Rules<S>, eval: (Board, Player) -> int, s: S, m: Cell)
    requires Valid(R)
    requires m in R.moves(s)
    ensures IsTurn(R, s, [m] + CompletePath(R, eval, R.place(s, m), R.current(s)),
                   R.current(s), Completar(R, eval, s, m, R.current(s)))
  {
    var p := R.current(s);
    var rest := CompletePath(R, eval, R.place(s, m), p);
    CompleteIsChain(R, eval, R.place(s, m), p);
    assert ([m] + rest)[1..] == rest;
  }
}
