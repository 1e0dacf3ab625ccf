/** PropPlayer's top level: the construction of whole turns at the root
    (evalPath), which branches over every continuation of a capture chain,
    and the root loop (move) that keeps the first strictly best turn. */
module Player {
  import opened Wrappers
  import opened Hex
  import opened Heuristic
  import opened Choice
  import opened Game
  import opened Completion
  import opened Search

  /** PropPlayer's engine: the board heuristic at the leaves and greedy chain
      completion, rated by the same heuristic, for every reply. */
  function Prop<S(!new)>(rules: Rules<S>, maxDepth: int, deadline: Option<nat>): Engine<S> {
    Engine(rules, maxDepth, deadline, Eval, (s, m, p) => Completar(rules, Eval, s, m, p))
  }

  /** Each reply Prop searches is a whole turn of the side to move. */
  lemma PropRepliesAreTurns<S(!new)>(rules: Rules<S>, maxDepth: int, deadline: Option<nat>, s: S, m: Cell)
    requires Valid(rules) && m in rules.moves(s)
    ensures IsTurn(rules, s, [m] + CompletePath(rules, Eval, rules.place(s, m), rules.current(s)),
                   rules.current(s), Prop(rules, maxDepth, deadline).reply(s, m, rules.current(s)))
  {
    CompletarIsTurn(rules, Eval, s, m);
  }

  /** A turn evaluated at the root: its placements, its value, the state
      it reaches and the node counter after its evaluation. */
  datatype PathEval<S> = PathEval(path: seq<Cell>, value: int, state: S, count: nat)

  /** The evaluations of a run of continuations and the counter after them. */
  datatype Evals<S> = Evals(items: seq<PathEval<S>>, count: nat)

  function Values<S>(evs: seq<PathEval<S>>): seq<int> {
    seq(|evs|, j requires 0 <= j < |evs| => evs[j].value)
  }

  /** evalPath: places m for p (who is to move in s); while p keeps the turn
      every continuation is tried, one level deeper, and the first of the
      strictly best ones is followed. The turn's value is the alpha-beta
      value of the state it reaches, one level below depth. */
  function EvalPath<S(!new)>(e: Engine<S>, s: S, m: Cell, p: Player, depth: int, alpha: Ext, beta: Ext, count: nat): (r: PathEval<S>)
    requires Valid(e.rules) && p == e.rules.current(s) && m in e.rules.moves(s)
    ensures |r.path| > 0 && r.path[0] == m
    ensures IsTurn(e.rules, s, r.path, p, r.state)
    ensures r.count > count
    decreases e.rules.measure(s), 2
  {
    var R := e.rules;
    var ns := R.place(s, m);
    if p == R.current(ns) && !R.gameOver(ns) && |R.moves(ns)| > 0 then
      var all := Continuations(e, s, m, p, depth, alpha, beta, count);
      var best := all.items[FirstArgMax(Values(all.items))];
      var v := Minimax(e, best.state, depth + 1, alpha, beta, p, all.count);
      assert ([m] + best.path)[1..] == best.path;
      PathEval([m] + best.path, v.value, best.state, v.count)
    else
      var v := Minimax(e, ns, depth + 1, alpha, beta, p, count);
      PathEval([m], v.value, ns, v.count)
  }

  /** The continuations evalPath weighs after placing m, if p keeps the turn. */
  function Continuations<S(!new)>(e: Engine<S>, s: S, m: Cell, p: Player, depth: int, alpha: Ext, beta: Ext, count: nat): (r: Evals<S>)
    requires Valid(e.rules) && p == e.rules.current(s) && m in e.rules.moves(s)
    requires p == e.rules.current(e.rules.place(s, m))
    ensures |r.items| == |e.rules.moves(e.rules.place(s, m))|
    ensures forall j | 0 <= j < |r.items| ::
      IsTurn(e.rules, e.rules.place(s, m), r.items[j].path, p, r.items[j].state)
      && r.items[j].path[0] == e.rules.moves(e.rules.place(s, m))[j]
    ensures r.count >= count
    decreases e.rules.measure(s), 1
  {
    ChainShrinks(e.rules, s, m, p);
    EvalAll(e, e.rules.place(s, m), 0, p, depth + 1, alpha, beta, count)
  }

  /** The evaluations of the continuations from the i-th on, in order, each
      a turn of p from ns starting with that continuation. */
  function EvalAll<S(!new)>(e: Engine<S>, ns: S, i: nat, p: Player, depth: int, alpha: Ext, beta: Ext, count: nat): (r: Evals<S>)
    requires Valid(e.rules) && p == e.rules.current(ns) && i <= |e.rules.moves(ns)|
    ensures |r.items| == |e.rules.moves(ns)| - i
    ensures forall j | 0 <= j < |r.items| ::
      IsTurn(e.rules, ns, r.items[j].path, p, r.items[j].state) && r.items[j].path[0] == e.rules.moves(ns)[i + j]
    ensures r.count >= count + |r.items|
    decreases e.rules.measure(ns), 3, |e.rules.moves(ns)| - i
  {
    var R := e.rules;
    if i == |R.moves(ns)| then Evals([], count)
    else
      var first := EvalPath(e, ns, R.moves(ns)[i], p, depth, alpha, beta, count);
      var rest := EvalAll(e, ns, i + 1, p, depth, alpha, beta, first.count);
      Evals([first] + rest.items, rest.count)
  }

  /** When p keeps the turn in an unfinished game with continuations left,
      evalPath's turn is m followed by the turn of the first continuation
      whose value no other continuation beats, and it ends where that turn
      ends. */
  lemma EvalPathFollowsBest<S(!new)>(e: Engine<S>, s: S, m: Cell, p: Player, depth: int, alpha: Ext, beta: Ext, count: nat)
    requires Valid(e.rules) && p == e.rules.current(s) && m in e.rules.moves(s)
    requires p == e.rules.current(e.rules.place(s, m)) && !e.rules.gameOver(e.rules.place(s, m))
    requires |e.rules.moves(e.rules.place(s, m))| > 0
    ensures FollowsBest(EvalPath(e, s, m, p, depth, alpha, beta, count), m,
                        Continuations(e, s, m, p, depth, alpha, beta, count).items)
  {
    var items := Continuations(e, s, m, p, depth, alpha, beta, count).items;
    FirstBestItem(items);
    var k := FirstArgMax(Values(items));
    var r := EvalPath(e, s, m, p, depth, alpha, beta, count);
    assert r.path == [m] + items[k].path && r.state == items[k].state;
  }

  /** r is m followed by the turn of some continuation k whose value no
      other continuation beats, every earlier one being strictly lower, and
      r ends where that turn ends. */
  ghost predicate FollowsBest<S>(r: PathEval<S>, m: Cell, items: seq<PathEval<S>>) {
    exists k | 0 <= k < |items| ::
      && r.path == [m] + items[k].path
      && r.state == items[k].state
      && (forall j | 0 <= j < |items| :: items[j].value <= items[k].value)
      && (forall j | 0 <= j < k :: items[j].value < items[k].value)
  }

  /** The first index of a greatest value is the first evaluated turn that
      no other turn beats. */
  lemma FirstBestItem<S>(items: seq<PathEval<S>>)
    requires |items| > 0
    ensures var k := FirstArgMax(Values(items));
            && k < |items|
            && (forall j | 0 <= j < |items| :: items[j].value <= items[k].value)
            && (forall j | 0 <= j < k :: items[j].value < items[k].value)
  {
    var vs := Values(items);
    var k := FirstArgMax(vs);
    forall j | 0 <= j < |items|
      ensures items[j].value <= items[k].value
      ensures j < k ==> items[j].value < items[k].value
    {
      assert vs[j] == items[j].value && vs[k] == items[k].value;
    }
  }

  /** Each evaluated turn's value, found at the given depth, is fail-soft
      with respect to the plain minimax value one level deeper of the state
      it reaches. */
  ghost predicate ItemsFailSoft<S>(e: Engine<S>, items: seq<PathEval<S>>, depth: int, p: Player, alpha: Ext, beta: Ext) {
    forall j | 0 <= j < |items| ::
      Bracket(Fin(items[j].value), Fin(FullSearch(e, items[j].state, depth + 1, p).value), alpha, beta)
  }

  /** Without a timeout, every continuation evalPath weighs from the i-th on
      carries a fail-soft value of the state its turn reaches. */
  lemma {:induction false} EvalAllFailSoft<S(!new)>(e: Engine<S>, ns: S, i: nat, p: Player, depth: int, alpha: Ext, beta: Ext, count: nat)
    requires Valid(e.rules) && p == e.rules.current(ns) && i <= |e.rules.moves(ns)|
    requires e.deadline.None? && Lt(alpha, beta)
    ensures ItemsFailSoft(e, EvalAll(e, ns, i, p, depth, alpha, beta, count).items, depth, p, alpha, beta)
    decreases |e.rules.moves(ns)| - i
  {
    var R := e.rules;
    if i < |R.moves(ns)| {
      var first := EvalPath(e, ns, R.moves(ns)[i], p, depth, alpha, beta, count);
      EvalAllStep(e, ns, i, p, depth, alpha, beta, count);
      EvalPathFailSoft(e, ns, R.moves(ns)[i], p, depth, alpha, beta, count);
      EvalAllFailSoft(e, ns, i + 1, p, depth, alpha, beta, first.count);
      ItemsFailSoftCons(e, first, EvalAll(e, ns, i + 1, p, depth, alpha, beta, first.count).items, depth, p, alpha, beta);
    }
  }

  /** One step of evalPath's loop over the continuations: the i-th is
      evaluated first, then the rest with the counter it leaves. */
  lemma EvalAllStep<S(!new)>(e: Engine<S>, ns: S, i: nat, p: Player, depth: int, alpha: Ext, beta: Ext, count: nat)
    requires Valid(e.rules) && p == e.rules.current(ns) && i < |e.rules.moves(ns)|
    ensures var first := EvalPath(e, ns, e.rules.moves(ns)[i], p, depth, alpha, beta, count);
            EvalAll(e, ns, i, p, depth, alpha, beta, count).items
            == [first] + EvalAll(e, ns, i + 1, p, depth, alpha, beta, first.count).items
  {
  }

  lemma ItemsFailSoftCons<S>(e: Engine<S>, first: PathEval<S>, rest: seq<PathEval<S>>, depth: int, p: Player, alpha: Ext, beta: Ext)
    requires Bracket(Fin(first.value), Fin(FullSearch(e, first.state, depth + 1, p).value), alpha, beta)
    requires ItemsFailSoft(e, rest, depth, p, alpha, beta)
    ensures ItemsFailSoft(e, [first] + rest, depth, p, alpha, beta)
  {
    var items := [first] + rest;
    forall j | 0 <= j < |items|
      ensures Bracket(Fin(items[j].value), Fin(FullSearch(e, items[j].state, depth + 1, p).value), alpha, beta)
    {
      if j > 0 {
        assert items[j] == rest[j - 1];
      }
    }
  }

  /** Without a timeout, the values evalPath compares when p keeps the turn
      are fail-soft values of the states the continuations' turns reach, two
      levels below depth. */
  lemma ContinuationsFailSoft<S(!new)>(e: Engine<S>, s: S, m: Cell, p: Player, depth: int, alpha: Ext, beta: Ext, count: nat)
    requires Valid(e.rules) && p == e.rules.current(s) && m in e.rules.moves(s)
    requires p == e.rules.current(e.rules.place(s, m))
    requires e.deadline.None? && Lt(alpha, beta)
    ensures ItemsFailSoft(e, Continuations(e, s, m, p, depth, alpha, beta, count).items, depth + 1, p, alpha, beta)
  {
    EvalAllFailSoft(e, e.rules.place(s, m), 0, p, depth + 1, alpha, beta, count);
  }

  /** When p's turn ends with m, evalPath's turn is m alone. */
  lemma EvalPathStopsWhenTurnEnds<S(!new)>(e: Engine<S>, s: S, m: Cell, p: Player, depth: int, alpha: Ext, beta: Ext, count: nat)
    requires Valid(e.rules) && p == e.rules.current(s) && m in e.rules.moves(s)
    requires TurnOver(e.rules, e.rules.place(s, m), p)
    ensures EvalPath(e, s, m, p, depth, alpha, beta, count).path == [m]
    ensures EvalPath(e, s, m, p, depth, alpha, beta, count).state == e.rules.place(s, m)
  {
  }

  /** Without a timeout, a turn's value is fail-soft with respect to the
      plain minimax value of the state the turn reaches. */
  lemma EvalPathFailSoft<S(!new)>(e: Engine<S>, s: S, m: Cell, p: Player, depth: int, alpha: Ext, beta: Ext, count: nat)
    requires Valid(e.rules) && p == e.rules.current(s) && m in e.rules.moves(s)
    requires e.deadline.None? && Lt(alpha, beta)
    ensures Bracket(Fin(EvalPath(e, s, m, p, depth, alpha, beta, count).value),
                    Fin(FullSearch(e, EvalPath(e, s, m, p, depth, alpha, beta, count).state, depth + 1, p).value),
                    alpha, beta)
  {
    var R := e.rules;
    var ns := R.place(s, m);
    if p == R.current(ns) && !R.gameOver(ns) && |R.moves(ns)| > 0 {
      var all := Continuations(e, s, m, p, depth, alpha, beta, count);
      var best := all.items[FirstArgMax(Values(all.items))];
      MinimaxFailSoft(e, best.state, depth + 1, alpha, beta, p, all.count);
    } else {
      MinimaxFailSoft(e, ns, depth + 1, alpha, beta, p, count);
    }
  }

  /** The root loop's state when it stops: the best value, the turn kept so
      far, every turn evaluated, in the order of the moves, and the counter. */
  datatype Root<S> = Root(best: Ext, chosen: Option<PathEval<S>>, evals: seq<PathEval<S>>, count: nat)

  /** The turns evaluated from the i-th on are turns of the side to move,
      one per move, in the order of the moves. */
  ghost predicate RootTurns<S(!new)>(R: Rules<S>, s: S, i: nat, done: seq<PathEval<S>>) {
    && |done| <= |R.moves(s)|
    && forall j | i <= j < |done| ::
         IsTurn(R, s, done[j].path, R.current(s), done[j].state) && done[j].path[0] == R.moves(s)[j]
  }

  /** What move keeps in `best` and `bestPath`: nothing before the first
      evaluation, then the first turn of greatest value. */
  ghost predicate KeepsFirstBest<S>(best: Ext, chosen: Option<PathEval<S>>, done: seq<PathEval<S>>) {
    if |done| == 0 then best == NegInf && chosen.None?
    else chosen == Some(done[FirstArgMax(Values(done))]) && best == Fin(chosen.value.value)
  }

  /** move's loop from the i-th move on: stop on a timeout, otherwise
      evaluate the move's turn one level below the root and go on with it. */
  function RootLoop<S(!new)>(e: Engine<S>, s: S, i: nat, alpha: Ext, beta: Ext, best: Ext,
                             chosen: Option<PathEval<S>>, done: seq<PathEval<S>>, count: nat): (r: Root<S>)
    requires Valid(e.rules) && i == |done| <= |e.rules.moves(s)| && !best.PosInf?
    ensures !r.best.PosInf?
    ensures i <= |r.evals| <= |e.rules.moves(s)| && r.evals[..i] == done
    ensures r.count >= count + (|r.evals| - i)
    ensures |r.evals| == |e.rules.moves(s)| || TimedOut(e, r.count) || Le(beta, r.best)
    ensures !TimedOut(e, count) && i < |e.rules.moves(s)| ==> |r.evals| > i
    decreases |e.rules.moves(s)| - i, 1
  {
    var R := e.rules;
    if i == |R.moves(s)| || TimedOut(e, count) then Root(best, chosen, done, count)
    else
      var r := RootNext(e, s, i, alpha, beta, best, chosen, done,
                        EvalPath(e, s, R.moves(s)[i], R.current(s), 0, alpha, beta, count));
      assert r.evals[..i] == r.evals[..i + 1][..i];
      r
  }

  /** The rest of an iteration once the i-th move's turn ev is evaluated:
      keep it when strictly better than the best so far, raise alpha, and
      stop once the best reaches beta. */
  function RootNext<S(!new)>(e: Engine<S>, s: S, i: nat, alpha: Ext, beta: Ext, best: Ext,
                             chosen: Option<PathEval<S>>, done: seq<PathEval<S>>, ev: PathEval<S>): (r: Root<S>)
    requires Valid(e.rules) && i == |done| < |e.rules.moves(s)| && !best.PosInf?
    ensures !r.best.PosInf?
    ensures i < |r.evals| <= |e.rules.moves(s)| && r.evals[..i + 1] == done + [ev]
    ensures r.count >= ev.count + (|r.evals| - i - 1)
    ensures |r.evals| == |e.rules.moves(s)| || TimedOut(e, r.count) || Le(beta, r.best)
    decreases |e.rules.moves(s)| - i, 0
  {
    var better := Lt(best, Fin(ev.value));
    var best' := if better then Fin(ev.value) else best;
    var chosen' := if better then Some(ev) else chosen;
    if Le(beta, best') then Root(best', chosen', done + [ev], ev.count)
    else RootLoop(e, s, i + 1, Max(alpha, best'), beta, best', chosen', done + [ev], ev.count)
  }

  /** The whole root loop of move, from the full window. */
  function RootSearch<S(!new)>(e: Engine<S>, s: S): (r: Root<S>)
    requires Valid(e.rules)
    ensures RootTurns(e.rules, s, 0, r.evals)
    ensures |r.evals| == |e.rules.moves(s)| || TimedOut(e, r.count)
    ensures !TimedOut(e, 0) && |e.rules.moves(s)| > 0 ==> |r.evals| > 0
    ensures r.count >= |r.evals|
  {
    RootLoopTurns(e, s, 0, NegInf, PosInf, NegInf, None, [], 0);
    RootLoop(e, s, 0, NegInf, PosInf, NegInf, None, [], 0)
  }

  /** Every turn the root loop adds is a whole turn of the side to move,
      starting with the move it evaluates. */
  lemma {:induction false} RootLoopTurns<S(!new)>(e: Engine<S>, s: S, i: nat, alpha: Ext, beta: Ext, best: Ext,
                                                 chosen: Option<PathEval<S>>, done: seq<PathEval<S>>, count: nat)
    requires Valid(e.rules) && i == |done| <= |e.rules.moves(s)| && !best.PosInf?
    ensures RootTurns(e.rules, s, i, RootLoop(e, s, i, alpha, beta, best, chosen, done, count).evals)
    decreases |e.rules.moves(s)| - i, 1
  {
    var R := e.rules;
    if i < |R.moves(s)| && !TimedOut(e, count) {
      RootNextTurns(e, s, i, alpha, beta, best, chosen, done,
                    EvalPath(e, s, R.moves(s)[i], R.current(s), 0, alpha, beta, count));
    }
  }

  lemma {:induction false} RootNextTurns<S(!new)>(e: Engine<S>, s: S, i: nat, alpha: Ext, beta: Ext, best: Ext,
                                                 chosen: Option<PathEval<S>>, done: seq<PathEval<S>>, ev: PathEval<S>)
    requires Valid(e.rules) && i == |done| < |e.rules.moves(s)| && !best.PosInf?
    requires IsTurn(e.rules, s, ev.path, e.rules.current(s), ev.state) && ev.path[0] == e.rules.moves(s)[i]
    ensures RootTurns(e.rules, s, i, RootNext(e, s, i, alpha, beta, best, chosen, done, ev).evals)
    decreases |e.rules.moves(s)| - i, 0
  {
    var evs := RootNext(e, s, i, alpha, beta, best, chosen, done, ev).evals;
    var better := Lt(best, Fin(ev.value));
    var best' := if better then Fin(ev.value) else best;
    var chosen' := if better then Some(ev) else chosen;
    if !Le(beta, best') {
      RootLoopTurns(e, s, i + 1, Max(alpha, best'), beta, best', chosen', done + [ev], ev.count);
    }
    assert evs[i] == ev by {
      assert evs[..i + 1][i] == ev;
    }
  }

  /** What move returns: the chosen turn (None when there is no move or the
      timeout came before any evaluation), the nodes visited and the depth. */
  datatype MoveResult = MoveResult(path: Option<seq<Cell>>, nodes: nat, depth: int)

  /** move: with no legal move, no turn and no nodes; otherwise the root loop. */
  function Move<S(!new)>(e: Engine<S>, s: S): (r: MoveResult)
    requires Valid(e.rules)
    ensures r.depth == e.maxDepth
    ensures |e.rules.moves(s)| == 0 ==> r.path.None? && r.nodes == 0
    ensures TimedOut(e, 0) ==> r.path.None? && r.nodes == 0
    ensures r.path.Some? ==> |r.path.value| > 0 && r.path.value[0] in e.rules.moves(s)
    ensures e.deadline.None? ==> r.nodes >= |e.rules.moves(s)|
    ensures !TimedOut(e, 0) && |e.rules.moves(s)| > 0 ==> r.path.Some?
  {
    if |e.rules.moves(s)| == 0 then MoveResult(None, 0, e.maxDepth)
    else
      var root := RootSearch(e, s);
      RootKeepsFirstBest(e, s, 0, NegInf, PosInf, NegInf, None, [], 0);
      if root.chosen.Some? then
        assert root.chosen.value == root.evals[FirstArgMax(Values(root.evals))];
        MoveResult(Some(root.chosen.value.path), root.count, e.maxDepth)
      else MoveResult(None, root.count, e.maxDepth)
  }

  /** The root loop keeps the first evaluated turn of greatest value. */
  lemma {:induction false} RootKeepsFirstBest<S(!new)>(e: Engine<S>, s: S, i: nat, alpha: Ext, beta: Ext, best: Ext,
                                                      chosen: Option<PathEval<S>>, done: seq<PathEval<S>>, count: nat)
    requires Valid(e.rules) && i == |done| <= |e.rules.moves(s)|
    requires KeepsFirstBest(best, chosen, done)
    ensures var r := RootLoop(e, s, i, alpha, beta, best, chosen, done, count);
            KeepsFirstBest(r.best, r.chosen, r.evals)
    decreases |e.rules.moves(s)| - i, 1
  {
    var R := e.rules;
    if i < |R.moves(s)| && !TimedOut(e, count) {
      var ev := EvalPath(e, s, R.moves(s)[i], R.current(s), 0, alpha, beta, count);
      RootNextKeepsFirstBest(e, s, i, alpha, beta, best, chosen, done, ev);
      assert RootLoop(e, s, i, alpha, beta, best, chosen, done, count)
          == RootNext(e, s, i, alpha, beta, best, chosen, done, ev);
    }
  }

  lemma {:induction false} RootNextKeepsFirstBest<S(!new)>(e: Engine<S>, s: S, i: nat, alpha: Ext, beta: Ext, best: Ext,
                                                          chosen: Option<PathEval<S>>, done: seq<PathEval<S>>, ev: PathEval<S>)
    requires Valid(e.rules) && i == |done| < |e.rules.moves(s)|
    requires KeepsFirstBest(best, chosen, done)
    ensures var r := RootNext(e, s, i, alpha, beta, best, chosen, done, ev);
            KeepsFirstBest(r.best, r.chosen, r.evals)
    decreases |e.rules.moves(s)| - i, 0
  {
    var better := Lt(best, Fin(ev.value));
    var best' := if better then Fin(ev.value) else best;
    var chosen' := if better then Some(ev) else chosen;
    KeepStep(best, chosen, done, ev);
    if !Le(beta, best') {
      RootKeepsFirstBest(e, s, i + 1, Max(alpha, best'), beta, best', chosen', done + [ev], ev.count);
      assert RootNext(e, s, i, alpha, beta, best, chosen, done, ev)
          == RootLoop(e, s, i + 1, Max(alpha, best'), beta, best', chosen', done + [ev], ev.count);
    }
  }

  /** One step of the root loop's update keeps the first turn of greatest value. */
  lemma KeepStep<S>(best: Ext, chosen: Option<PathEval<S>>, done: seq<PathEval<S>>, ev: PathEval<S>)
    requires KeepsFirstBest(best, chosen, done)
    ensures KeepsFirstBest(if Lt(best, Fin(ev.value)) then Fin(ev.value) else best,
                           if Lt(best, Fin(ev.value)) then Some(ev) else chosen,
                           done + [ev])
  {
    assert Values(done + [ev]) == Values(done) + [ev.value];
    if |done| > 0 {
      FirstArgMaxAppend(Values(done), ev.value);
    }
  }

  /** The plain minimax values, one level below the root, of the states the
      evaluated turns reach: the values a search without pruning would give
      them. */
  function Exact<S>(e: Engine<S>, evs: seq<PathEval<S>>, p: Player): seq<int> {
    seq(|evs|, j requires 0 <= j < |evs| => FullSearch(e, evs[j].state, 1, p).value)
  }

  /** Nothing kept before the first evaluation; afterwards the first turn of
      greatest exact value, with that value as best. */
  ghost predicate KeepsExactBest<S>(e: Engine<S>, p: Player, best: Ext, chosen: Option<PathEval<S>>, done: seq<PathEval<S>>) {
    if |done| == 0 then best == NegInf && chosen.None?
    else chosen == Some(done[FirstArgMax(Exact(e, done, p))]) && best == Fin(Exact(e, done, p)[FirstArgMax(Exact(e, done, p))])
  }

  /** One root update, given a turn value that is fail-soft with alpha at the
      best so far: it keeps the first turn of greatest exact value. */
  lemma ExactStep<S>(e: Engine<S>, p: Player, best: Ext, chosen: Option<PathEval<S>>, done: seq<PathEval<S>>, ev: PathEval<S>)
    requires KeepsExactBest(e, p, best, chosen, done)
    requires Bracket(Fin(ev.value), Fin(FullSearch(e, ev.state, 1, p).value), best, PosInf)
    ensures KeepsExactBest(e, p, if Lt(best, Fin(ev.value)) then Fin(ev.value) else best,
                           if Lt(best, Fin(ev.value)) then Some(ev) else chosen,
                           done + [ev])
  {
    var f := FullSearch(e, ev.state, 1, p).value;
    assert Exact(e, done + [ev], p) == Exact(e, done, p) + [f];
    if |done| > 0 {
      FirstArgMaxAppend(Exact(e, done, p), f);
    }
  }

  /** Without a timeout the root loop, with alpha at the best value so far
      and beta at plus infinity, evaluates every move and keeps the first
      turn of greatest exact value. */
  lemma {:induction false} RootKeepsExactBest<S(!new)>(e: Engine<S>, s: S, i: nat, best: Ext,
                                                      chosen: Option<PathEval<S>>, done: seq<PathEval<S>>, count: nat)
    requires Valid(e.rules) && e.deadline.None? && i == |done| <= |e.rules.moves(s)|
    requires KeepsExactBest(e, e.rules.current(s), best, chosen, done)
    ensures var r := RootLoop(e, s, i, best, PosInf, best, chosen, done, count);
            && |r.evals| == |e.rules.moves(s)|
            && KeepsExactBest(e, e.rules.current(s), r.best, r.chosen, r.evals)
    decreases |e.rules.moves(s)| - i, 1
  {
    var R := e.rules;
    if i < |R.moves(s)| {
      var p := R.current(s);
      var ev := EvalPath(e, s, R.moves(s)[i], p, 0, best, PosInf, count);
      EvalPathFailSoft(e, s, R.moves(s)[i], p, 0, best, PosInf, count);
      RootNextKeepsExactBest(e, s, i, best, chosen, done, ev);
      assert RootLoop(e, s, i, best, PosInf, best, chosen, done, count)
          == RootNext(e, s, i, best, PosInf, best, chosen, done, ev);
    }
  }

  lemma {:induction false} RootNextKeepsExactBest<S(!new)>(e: Engine<S>, s: S, i: nat, best: Ext,
                                                          chosen: Option<PathEval<S>>, done: seq<PathEval<S>>, ev: PathEval<S>)
    requires Valid(e.rules) && e.deadline.None? && i == |done| < |e.rules.moves(s)|
    requires KeepsExactBest(e, e.rules.current(s), best, chosen, done)
    requires Bracket(Fin(ev.value), Fin(FullSearch(e, ev.state, 1, e.rules.current(s)).value), best, PosInf)
    ensures var r := RootNext(e, s, i, best, PosInf, best, chosen, done, ev);
            && |r.evals| == |e.rules.moves(s)|
            && KeepsExactBest(e, e.rules.current(s), r.best, r.chosen, r.evals)
    decreases |e.rules.moves(s)| - i, 0
  {
    var better := Lt(best, Fin(ev.value));
    var best' := if better then Fin(ev.value) else best;
    var chosen' := if better then Some(ev) else chosen;
    ExactStep(e, e.rules.current(s), best, chosen, done, ev);
    assert Max(best, best') == best';
    RootKeepsExactBest(e, s, i + 1, best', chosen', done + [ev], ev.count);
  }

  /** Without a timeout, move evaluates the turn of every legal move and
      returns the first one whose reached state has the greatest plain
      minimax value: among the turns move evaluated, pruning does not change
      the choice. The turns themselves depend on the window, since evalPath
      ranks continuations by fail-soft values. */
  lemma MoveChoosesExactBest<S(!new)>(e: Engine<S>, s: S)
    requires Valid(e.rules) && e.deadline.None? && |e.rules.moves(s)| > 0
    ensures var evs := RootSearch(e, s).evals;
            && |evs| == |e.rules.moves(s)|
            && Move(e, s).path == Some(evs[FirstArgMax(Exact(e, evs, e.rules.current(s)))].path)
  {
    RootKeepsExactBest(e, s, 0, NegInf, None, [], 0);
  }

  /** move returns the path of the first evaluated turn of greatest value,
      and that path is a whole turn of the side to move. */
  lemma MoveKeepsFirstBest<S(!new)>(e: Engine<S>, s: S)
    requires Valid(e.rules) && |RootSearch(e, s).evals| > 0
    ensures var evs := RootSearch(e, s).evals;
            var k := FirstArgMax(Values(evs));
            && Move(e, s).path == Some(evs[k].path)
            && IsTurn(e.rules, s, evs[k].path, e.rules.current(s), evs[k].state)
  {
    RootKeepsFirstBest(e, s, 0, NegInf, PosInf, NegInf, None, [], 0);
  }
}
