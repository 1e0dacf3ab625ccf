/** The search of PropPlayer: depth-limited alpha-beta minimax over whole
    turns, with a node counter and a timeout, and a plain minimax without
    pruning against which the alpha-beta search is proved fail-soft. */
module Search {
  import opened Wrappers
  import opened Hex
  import opened Choice
  import opened Game

  /** The search's configuration. The asynchronous timeout signal is read as
      a deadline on the node counter: the flag is up once `deadline` nodes
      have been visited (never, for None). `eval` is the static evaluator
      consulted at the leaves, and `reply` turns a placement of the side to
      move into its whole turn; PropPlayer's choices of both are in the
      Player module. */
  datatype Engine<!S> = Engine(
    rules: Rules<S>,
    maxDepth: int,
    deadline: Option<nat>,
    eval: (Board, Player) -> int,
    reply: (S, Cell, Player) -> S)

  predicate TimedOut<S>(e: Engine<S>, count: nat) {
    e.deadline.Some? && count >= e.deadline.value
  }

  /** What remains of the depth limit; recursion below the limit never happens. */
  function Horizon<S>(e: Engine<S>, depth: int): nat {
    if depth < e.maxDepth then e.maxDepth - depth else 0
  }

  const WinScore: int := 1000000

  /** The value of a finished game for maxP, found at the given depth. */
  function TerminalScore(w: Option<Player>, maxP: Player, depth: int): int {
    if w == Some(maxP) then WinScore - depth
    else if w.Some? then -WinScore + depth
    else 0
  }

  /** Within the reach of the score, its sign tells who won, and its size
      never exceeds the win constant. */
  lemma TerminalScoreSign(w: Option<Player>, maxP: Player, depth: int)
    requires 0 <= depth < WinScore
    ensures -WinScore <= TerminalScore(w, maxP, depth) <= WinScore
    ensures TerminalScore(w, maxP, depth) > 0 <==> w == Some(maxP)
    ensures TerminalScore(w, maxP, depth) < 0 <==> w == Some(Other(maxP))
    ensures TerminalScore(w, maxP, depth) == 0 <==> w.None?
  {
    if w.Some? && w != Some(maxP) {
      assert w.value == Other(maxP) by { assert w.value != maxP; }
    }
  }

  /** A quicker win scores higher, a later loss scores higher, and within the
      reach of the score every win beats a draw and every draw beats a loss. */
  lemma TerminalOrdering(maxP: Player, d1: int, d2: int)
    requires 0 <= d1 < d2 < WinScore
    ensures TerminalScore(Some(maxP), maxP, d1) > TerminalScore(Some(maxP), maxP, d2) > 0
    ensures 0 > TerminalScore(Some(Other(maxP)), maxP, d2) > TerminalScore(Some(Other(maxP)), maxP, d1)
    ensures TerminalScore(None, maxP, d1) == 0
  {
  }

  /** The score is zero-sum: the same finished game scores the opposite for
      the other player. */
  lemma TerminalZeroSum(w: Option<Player>, maxP: Player, depth: int)
    ensures TerminalScore(w, Other(maxP), depth) == -TerminalScore(w, maxP, depth)
  {
    if w.Some? {
      assert w.value == maxP || w.value == Other(maxP);
    }
  }

  /** The value of a search together with the node counter after it. */
  datatype Searched = Searched(value: int, count: nat)

  /** The state of a node's loop over its replies: the best value so far and
      the counter. */
  datatype Partial = Partial(val: Ext, count: nat)

  /** Alpha-beta minimax from s at the given depth, for maxP, with the node
      counter at `count` on entry; the counter on exit is in the result. */
  function Minimax<S>(e: Engine<S>, s: S, depth: int, alpha: Ext, beta: Ext, maxP: Player, count: nat): (r: Searched)
    ensures r.count > count
    decreases Horizon(e, depth), 1, 0
  {
    var R := e.rules;
    var n := count + 1;
    if R.gameOver(s) then Searched(TerminalScore(R.winner(s), maxP, depth), n)
    else if TimedOut(e, n) || depth >= e.maxDepth then Searched(e.eval(R.board(s), maxP), n)
    else if |R.moves(s)| == 0 then Minimax(e, s, depth + 1, alpha, beta, maxP, n)
    else if R.current(s) == maxP then
      var c := MaxReplies(e, s, 0, depth, alpha, beta, maxP, NegInf, n);
      Searched(c.val.n, c.count)
    else
      var c := MinReplies(e, s, 0, depth, alpha, beta, maxP, PosInf, n);
      Searched(c.val.n, c.count)
  }

  /** The loop of a max node of Minimax over its replies from the i-th on,
      with alpha and the best value as the loop has raised them. */
  function MaxReplies<S>(e: Engine<S>, s: S, i: nat, depth: int, alpha: Ext, beta: Ext, maxP: Player, val: Ext, count: nat): (r: Partial)
    requires depth < e.maxDepth && i <= |e.rules.moves(s)|
    ensures r.count >= count
    ensures (val.Fin? || (val == NegInf && !TimedOut(e, count) && i < |e.rules.moves(s)|)) ==> r.val.Fin?
    decreases Horizon(e, depth), 0, |e.rules.moves(s)| - i
  {
    var R := e.rules;
    if i == |R.moves(s)| || TimedOut(e, count) then Partial(val, count)
    else
      var c := Minimax(e, e.reply(s, R.moves(s)[i], R.current(s)), depth + 1, alpha, beta, maxP, count);
      var val' := Max(val, Fin(c.value));
      if Le(beta, val') then Partial(val', c.count)
      else MaxReplies(e, s, i + 1, depth, Max(alpha, val'), beta, maxP, val', c.count)
  }

  /** The loop of a min node, with beta and the best value as the loop has
      lowered them. */
  function MinReplies<S>(e: Engine<S>, s: S, i: nat, depth: int, alpha: Ext, beta: Ext, maxP: Player, val: Ext, count: nat): (r: Partial)
    requires depth < e.maxDepth && i <= |e.rules.moves(s)|
    ensures r.count >= count
    ensures (val.Fin? || (val == PosInf && !TimedOut(e, count) && i < |e.rules.moves(s)|)) ==> r.val.Fin?
    decreases Horizon(e, depth), 0, |e.rules.moves(s)| - i
  {
    var R := e.rules;
    if i == |R.moves(s)| || TimedOut(e, count) then Partial(val, count)
    else
      var c := Minimax(e, e.reply(s, R.moves(s)[i], R.current(s)), depth + 1, alpha, beta, maxP, count);
      var val' := Min(val, Fin(c.value));
      if Le(val', alpha) then Partial(val', c.count)
      else MinReplies(e, s, i + 1, depth, alpha, Min(beta, val'), maxP, val', c.count)
  }

  /** The value and the size of a search tree. */
  datatype Scored = Scored(value: int, nodes: nat)

  /** Plain minimax with the same leaves, passes and completed replies, no
      window and no timeout: the value alpha-beta approximates. */
  function FullSearch<S>(e: Engine<S>, s: S, depth: int, maxP: Player): (r: Scored)
    ensures r.nodes >= 1
    decreases Horizon(e, depth), 1, 0
  {
    var R := e.rules;
    if R.gameOver(s) then Scored(TerminalScore(R.winner(s), maxP, depth), 1)
    else if depth >= e.maxDepth then Scored(e.eval(R.board(s), maxP), 1)
    else if |R.moves(s)| == 0 then
      var r := FullSearch(e, s, depth + 1, maxP);
      Scored(r.value, r.nodes + 1)
    else if R.current(s) == maxP then
      var c := FullMax(e, s, 0, depth, maxP, NegInf, 0);
      Scored(c.val.n, c.count + 1)
    else
      var c := FullMin(e, s, 0, depth, maxP, PosInf, 0);
      Scored(c.val.n, c.count + 1)
  }

  /** The greatest exact value among the replies from the i-th on and acc;
      the count field adds up the sizes of their trees to `nodes`. */
  function FullMax<S>(e: Engine<S>, s: S, i: nat, depth: int, maxP: Player, acc: Ext, nodes: nat): (r: Partial)
    requires depth < e.maxDepth && i <= |e.rules.moves(s)|
    ensures r.count >= nodes + (|e.rules.moves(s)| - i)
    ensures (acc.Fin? || (acc == NegInf && i < |e.rules.moves(s)|)) ==> r.val.Fin?
    ensures Le(acc, r.val)
    decreases Horizon(e, depth), 0, |e.rules.moves(s)| - i
  {
    var R := e.rules;
    if i == |R.moves(s)| then Partial(acc, nodes)
    else
      var c := FullSearch(e, e.reply(s, R.moves(s)[i], R.current(s)), depth + 1, maxP);
      FullMax(e, s, i + 1, depth, maxP, Max(acc, Fin(c.value)), nodes + c.nodes)
  }

  /** The least exact value among the replies from the i-th on and acc. */
  function FullMin<S>(e: Engine<S>, s: S, i: nat, depth: int, maxP: Player, acc: Ext, nodes: nat): (r: Partial)
    requires depth < e.maxDepth && i <= |e.rules.moves(s)|
    ensures r.count >= nodes + (|e.rules.moves(s)| - i)
    ensures (acc.Fin? || (acc == PosInf && i < |e.rules.moves(s)|)) ==> r.val.Fin?
    ensures Le(r.val, acc)
    decreases Horizon(e, depth), 0, |e.rules.moves(s)| - i
  {
    var R := e.rules;
    if i == |R.moves(s)| then Partial(acc, nodes)
    else
      var c := FullSearch(e, e.reply(s, R.moves(s)[i], R.current(s)), depth + 1, maxP);
      FullMin(e, s, i + 1, depth, maxP, Min(acc, Fin(c.value)), nodes + c.nodes)
  }

  /** The fail-soft guarantee of an alpha-beta value v with window
      (alpha, beta) about the exact value f: a value at or below alpha is an
      upper bound, one at or above beta a lower bound, and one strictly
      inside the window is exact. */
  predicate Bracket(v: Ext, f: Ext, alpha: Ext, beta: Ext) {
    && (Le(v, alpha) ==> Le(f, v))
    && (Lt(alpha, v) && Lt(v, beta) ==> f == v)
    && (Le(beta, v) ==> Le(v, f))
  }

  /** Without a timeout, alpha-beta is fail-soft with respect to plain
      minimax, and it visits no more nodes than plain minimax does. */
  lemma {:induction false} MinimaxFailSoft<S>(e: Engine<S>, s: S, depth: int, alpha: Ext, beta: Ext, maxP: Player, count: nat)
    requires e.deadline.None? && Lt(alpha, beta)
    ensures Bracket(Fin(Minimax(e, s, depth, alpha, beta, maxP, count).value),
                    Fin(FullSearch(e, s, depth, maxP).value), alpha, beta)
    ensures Minimax(e, s, depth, alpha, beta, maxP, count).count - count <= FullSearch(e, s, depth, maxP).nodes
    decreases Horizon(e, depth), 1, 0, 0
  {
    var R := e.rules;
    if R.gameOver(s) || depth >= e.maxDepth {
    } else if |R.moves(s)| == 0 {
      MinimaxFailSoft(e, s, depth + 1, alpha, beta, maxP, count + 1);
    } else if R.current(s) == maxP {
      RepliesMax(e, s, 0, depth, alpha, alpha, beta, maxP, NegInf, NegInf, count + 1, 0);
    } else {
      RepliesMin(e, s, 0, depth, alpha, beta, beta, maxP, PosInf, PosInf, count + 1, 0);
    }
  }

  /** The loop of a max node. alpha0 is the node's own alpha; acc is the
      exact value of the replies seen so far, val their alpha-beta value. */
  lemma {:induction false} RepliesMax<S>(e: Engine<S>, s: S, i: nat, depth: int, alpha0: Ext, alpha: Ext, beta: Ext,
                                               maxP: Player, val: Ext, acc: Ext, count: nat, nodes: nat)
    requires e.deadline.None?
    requires depth < e.maxDepth && i <= |e.rules.moves(s)|
    requires Lt(alpha0, beta) && alpha == Max(alpha0, val) && Lt(val, beta)
    requires Le(acc, val) && (Lt(alpha0, val) ==> acc == val)
    ensures Bracket(MaxReplies(e, s, i, depth, alpha, beta, maxP, val, count).val,
                    FullMax(e, s, i, depth, maxP, acc, nodes).val, alpha0, beta)
    ensures MaxReplies(e, s, i, depth, alpha, beta, maxP, val, count).count - count
         <= FullMax(e, s, i, depth, maxP, acc, nodes).count - nodes
    decreases Horizon(e, depth), 0, |e.rules.moves(s)| - i, 1
  {
    if i < |e.rules.moves(s)| {
      RepliesMaxAt(e, s, i, depth, alpha0, alpha, beta, maxP, val, acc, count, nodes);
    }
  }

  /** One step of RepliesMax: the i-th reply is searched. */
  lemma {:induction false} RepliesMaxAt<S>(e: Engine<S>, s: S, i: nat, depth: int, alpha0: Ext, alpha: Ext, beta: Ext,
                                                 maxP: Player, val: Ext, acc: Ext, count: nat, nodes: nat)
    requires e.deadline.None?
    requires depth < e.maxDepth && i < |e.rules.moves(s)|
    requires Lt(alpha0, beta) && alpha == Max(alpha0, val) && Lt(val, beta)
    requires Le(acc, val) && (Lt(alpha0, val) ==> acc == val)
    ensures Bracket(MaxReplies(e, s, i, depth, alpha, beta, maxP, val, count).val,
                    FullMax(e, s, i, depth, maxP, acc, nodes).val, alpha0, beta)
    ensures MaxReplies(e, s, i, depth, alpha, beta, maxP, val, count).count - count
         <= FullMax(e, s, i, depth, maxP, acc, nodes).count - nodes
    decreases Horizon(e, depth), 0, |e.rules.moves(s)| - i, 0
  {
    var R := e.rules;
    var ns := e.reply(s, R.moves(s)[i], R.current(s));
    MaxWindowOpen(alpha0, beta, val);
    var c := Minimax(e, ns, depth + 1, alpha, beta, maxP, count);
    var f := FullSearch(e, ns, depth + 1, maxP);
    MinimaxFailSoft(e, ns, depth + 1, alpha, beta, maxP, count);
    var val' := Max(val, Fin(c.value));
    var acc' := Max(acc, Fin(f.value));
    var rest := FullMax(e, s, i + 1, depth, maxP, acc', nodes + f.nodes);
    assert FullMax(e, s, i, depth, maxP, acc, nodes) == rest;
    if Le(beta, val') {
      assert MaxReplies(e, s, i, depth, alpha, beta, maxP, val, count) == Partial(val', c.count);
      MaxStop(alpha0, beta, val, acc, c.value, f.value, rest.val);
    } else {
      assert MaxReplies(e, s, i, depth, alpha, beta, maxP, val, count)
          == MaxReplies(e, s, i + 1, depth, Max(alpha, val'), beta, maxP, val', c.count);
      MaxStep(alpha0, beta, val, acc, c.value, f.value);
      RepliesMax(e, s, i + 1, depth, alpha0, Max(alpha, val'), beta, maxP, val', acc', c.count, nodes + f.nodes);
    }
  }

  lemma MaxWindowOpen(alpha0: Ext, beta: Ext, val: Ext)
    requires Lt(alpha0, beta) && Lt(val, beta)
    ensures Lt(Max(alpha0, val), beta)
  {
  }

  /** A max node's reply v brings its value to beta or above: the node's
      value is then a lower bound of its exact value. */
  lemma MaxStop(alpha0: Ext, beta: Ext, val: Ext, acc: Ext, v: int, f: int, total: Ext)
    requires Lt(alpha0, beta) && Lt(val, beta) && Le(acc, val)
    requires Bracket(Fin(v), Fin(f), Max(alpha0, val), beta)
    requires Le(beta, Max(val, Fin(v))) && Le(Max(acc, Fin(f)), total)
    ensures Bracket(Max(val, Fin(v)), total, alpha0, beta)
  {
  }

  /** A max node's reply that leaves its value below beta keeps the loop's
      invariant. */
  lemma MaxStep(alpha0: Ext, beta: Ext, val: Ext, acc: Ext, v: int, f: int)
    requires Lt(alpha0, beta) && Lt(val, beta) && Le(acc, val) && (Lt(alpha0, val) ==> acc == val)
    requires Bracket(Fin(v), Fin(f), Max(alpha0, val), beta)
    requires !Le(beta, Max(val, Fin(v)))
    ensures Max(Max(alpha0, val), Max(val, Fin(v))) == Max(alpha0, Max(val, Fin(v)))
    ensures Le(Max(acc, Fin(f)), Max(val, Fin(v)))
    ensures Lt(alpha0, Max(val, Fin(v))) ==> Max(acc, Fin(f)) == Max(val, Fin(v))
  {
  }

  /** The loop of a min node, symmetric to RepliesMax. */
  lemma {:induction false} RepliesMin<S>(e: Engine<S>, s: S, i: nat, depth: int, alpha: Ext, beta0: Ext, beta: Ext,
                                               maxP: Player, val: Ext, acc: Ext, count: nat, nodes: nat)
    requires e.deadline.None?
    requires depth < e.maxDepth && i <= |e.rules.moves(s)|
    requires Lt(alpha, beta0) && beta == Min(beta0, val) && Lt(alpha, val)
    requires Le(val, acc) && (Lt(val, beta0) ==> acc == val)
    ensures Bracket(MinReplies(e, s, i, depth, alpha, beta, maxP, val, count).val,
                    FullMin(e, s, i, depth, maxP, acc, nodes).val, alpha, beta0)
    ensures MinReplies(e, s, i, depth, alpha, beta, maxP, val, count).count - count
         <= FullMin(e, s, i, depth, maxP, acc, nodes).count - nodes
    decreases Horizon(e, depth), 0, |e.rules.moves(s)| - i, 1
  {
    if i < |e.rules.moves(s)| {
      RepliesMinAt(e, s, i, depth, alpha, beta0, beta, maxP, val, acc, count, nodes);
    }
  }

  /** One step of RepliesMin: the i-th reply is searched. */
  lemma {:induction false} RepliesMinAt<S>(e: Engine<S>, s: S, i: nat, depth: int, alpha: Ext, beta0: Ext, beta: Ext,
                                                 maxP: Player, val: Ext, acc: Ext, count: nat, nodes: nat)
    requires e.deadline.None?
    requires depth < e.maxDepth && i < |e.rules.moves(s)|
    requires Lt(alpha, beta0) && beta == Min(beta0, val) && Lt(alpha, val)
    requires Le(val, acc) && (Lt(val, beta0) ==> acc == val)
    ensures Bracket(MinReplies(e, s, i, depth, alpha, beta, maxP, val, count).val,
                    FullMin(e, s, i, depth, maxP, acc, nodes).val, alpha, beta0)
    ensures MinReplies(e, s, i, depth, alpha, beta, maxP, val, count).count - count
         <= FullMin(e, s, i, depth, maxP, acc, nodes).count - nodes
    decreases Horizon(e, depth), 0, |e.rules.moves(s)| - i, 0
  {
    var R := e.rules;
    var ns := e.reply(s, R.moves(s)[i], R.current(s));
    MinWindowOpen(alpha, beta0, val);
    var c := Minimax(e, ns, depth + 1, alpha, beta, maxP, count);
    var f := FullSearch(e, ns, depth + 1, maxP);
    MinimaxFailSoft(e, ns, depth + 1, alpha, beta, maxP, count);
    var val' := Min(val, Fin(c.value));
    var acc' := Min(acc, Fin(f.value));
    var rest := FullMin(e, s, i + 1, depth, maxP, acc', nodes + f.nodes);
    assert FullMin(e, s, i, depth, maxP, acc, nodes) == rest;
    if Le(val', alpha) {
      assert MinReplies(e, s, i, depth, alpha, beta, maxP, val, count) == Partial(val', c.count);
      MinStop(alpha, beta0, val, acc, c.value, f.value, rest.val);
    } else {
      assert MinReplies(e, s, i, depth, alpha, beta, maxP, val, count)
          == MinReplies(e, s, i + 1, depth, alpha, Min(beta, val'), maxP, val', c.count);
      MinStep(alpha, beta0, val, acc, c.value, f.value);
      RepliesMin(e, s, i + 1, depth, alpha, beta0, Min(beta, val'), maxP, val', acc', c.count, nodes + f.nodes);
    }
  }

  lemma MinWindowOpen(alpha: Ext, beta0: Ext, val: Ext)
    requires Lt(alpha, beta0) && Lt(alpha, val)
    ensures Lt(alpha, Min(beta0, val))
  {
  }

  /** A min node's reply v brings its value to alpha or below: the node's
      value is then an upper bound of its exact value. */
  lemma MinStop(alpha: Ext, beta0: Ext, val: Ext, acc: Ext, v: int, f: int, total: Ext)
    requires Lt(alpha, beta0) && Lt(alpha, val) && Le(val, acc)
    requires Bracket(Fin(v), Fin(f), alpha, Min(beta0, val))
    requires Le(Min(val, Fin(v)), alpha) && Le(total, Min(acc, Fin(f)))
    ensures Bracket(Min(val, Fin(v)), total, alpha, beta0)
  {
  }

  /** A min node's reply that leaves its value above alpha keeps the loop's
      invariant. */
  lemma MinStep(alpha: Ext, beta0: Ext, val: Ext, acc: Ext, v: int, f: int)
    requires Lt(alpha, beta0) && Lt(alpha, val) && Le(val, acc) && (Lt(val, beta0) ==> acc == val)
    requires Bracket(Fin(v), Fin(f), alpha, Min(beta0, val))
    requires !Le(Min(val, Fin(v)), alpha)
    ensures Min(Min(beta0, val), Min(val, Fin(v))) == Min(beta0, Min(val, Fin(v)))
    ensures Le(Min(val, Fin(v)), Min(acc, Fin(f)))
    ensures Lt(Min(val, Fin(v)), beta0) ==> Min(acc, Fin(f)) == Min(val, Fin(v))
  {
  }

  /** With the full window and no timeout, alpha-beta finds the exact value. */
  lemma FullWindowIsExact<S>(e: Engine<S>, s: S, depth: int, maxP: Player, count: nat)
    requires e.deadline.None?
    ensures Minimax(e, s, depth, NegInf, PosInf, maxP, count).value == FullSearch(e, s, depth, maxP).value
  {
    MinimaxFailSoft(e, s, depth, NegInf, PosInf, maxP, count);
  }

  /** A side with no move in an unfinished game passes until the depth limit
      (or the timeout) and is then rated by the evaluator on the unchanged
      board; without a timeout every level of the pass costs one node. */
  lemma {:induction false} PassToHorizon<S>(e: Engine<S>, s: S, depth: int, alpha: Ext, beta: Ext, maxP: Player, count: nat)
    requires !e.rules.gameOver(s) && |e.rules.moves(s)| == 0
    ensures Minimax(e, s, depth, alpha, beta, maxP, count).value == e.eval(e.rules.board(s), maxP)
    ensures e.deadline.None? ==> Minimax(e, s, depth, alpha, beta, maxP, count).count == count + 1 + Horizon(e, depth)
    decreases Horizon(e, depth)
  {
    if !TimedOut(e, count + 1) && depth < e.maxDepth {
      PassToHorizon(e, s, depth + 1, alpha, beta, maxP, count + 1);
    }
  }

  /** The fail-soft guarantee read from the exact value f: at or below alpha
      the search answers at or below alpha, at or above beta it answers at or
      above beta, and strictly inside the window it answers exactly. */
  lemma BracketByExactValue(v: int, f: int, alpha: Ext, beta: Ext)
    requires Lt(alpha, beta) && Bracket(Fin(v), Fin(f), alpha, beta)
    ensures Le(Fin(f), alpha) ==> Le(Fin(v), alpha)
    ensures Le(beta, Fin(f)) ==> Le(beta, Fin(v))
    ensures Lt(alpha, Fin(f)) && Lt(Fin(f), beta) ==> v == f
  {
  }

  /** Without a timeout, alpha-beta against plain minimax, stated from the
      exact value. */
  lemma MinimaxByExactValue<S>(e: Engine<S>, s: S, depth: int, alpha: Ext, beta: Ext, maxP: Player, count: nat)
    requires e.deadline.None? && Lt(alpha, beta)
    ensures var v := Minimax(e, s, depth, alpha, beta, maxP, count).value;
            var f := FullSearch(e, s, depth, maxP).value;
            && (Le(Fin(f), alpha) ==> Le(Fin(v), alpha))
            && (Le(beta, Fin(f)) ==> Le(beta, Fin(v)))
            && (Lt(alpha, Fin(f)) && Lt(Fin(f), beta) ==> v == f)
  {
    MinimaxFailSoft(e, s, depth, alpha, beta, maxP, count);
    BracketByExactValue(Minimax(e, s, depth, alpha, beta, maxP, count).value,
                        FullSearch(e, s, depth, maxP).value, alpha, beta);
  }
}
