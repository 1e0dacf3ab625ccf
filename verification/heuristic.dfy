/** The static evaluator: stones are grouped into maximal same-coloured
    groups, each group adds or subtracts a per-stone base term, and each
    (own group, rival group) pair in contact adds a capture or threat term. */
module Heuristic {
  import opened Hex
  import opened Groups
  import opened Sums

  const PieceWeight := 10
  const CaptureWeight := 100
  const ThreatWeight := -150
  const GroupWeight := 20

  function Size(g: Group): nat {
    |g.cells|
  }

  /** The term a group adds while the board is scanned: its size times the
      piece and group weights, positive for the player's groups and negative
      for the other colour's. */
  function BaseTerm(player: Player, g: Group): int {
    if g.color == player then Size(g) * PieceWeight + Size(g) * GroupWeight
    else -(Size(g) * PieceWeight) - Size(g) * GroupWeight
  }

  /** The term one (own group, rival group) pair adds: a capture opportunity
      when the own group is strictly larger, a threat when it is strictly
      smaller, nothing for equal sizes or groups not in contact. */
  function PairTerm(mine: Group, rival: Group): (r: int)
    ensures r > 0 <==> Contact(mine.cells, rival.cells) && Size(mine) > Size(rival)
    ensures r < 0 <==> Contact(mine.cells, rival.cells) && Size(mine) < Size(rival)
  {
    if Contact(mine.cells, rival.cells) then
      var dif := Size(mine) - Size(rival);
      if dif > 0 then Size(rival) * CaptureWeight
      else if dif < 0 then Size(mine) * ThreatWeight
      else 0
    else 0
  }

  function BaseOf(player: Player): Group -> int {
    g => BaseTerm(player, g)
  }

  function PairsOf(rival: seq<Group>): Group -> int {
    m => Sum(rival, PairWith(m))
  }

  function PairWith(mine: Group): Group -> int {
    r => PairTerm(mine, r)
  }

  function IsColour(player: Player): Group -> bool {
    (g: Group) => g.color == player
  }

  function NotColour(player: Player): Group -> bool {
    (g: Group) => g.color != player
  }

  /** The player's groups and the rival groups, each in discovery order. */
  function Mine(gs: seq<Group>, player: Player): seq<Group> {
    Filter(gs, IsColour(player))
  }

  function Rivals(gs: seq<Group>, player: Player): seq<Group> {
    Filter(gs, NotColour(player))
  }

  function BaseTotal(gs: seq<Group>, player: Player): int {
    Sum(gs, BaseOf(player))
  }

  /** Every own group against every rival group. */
  function PairTotal(mine: seq<Group>, rivals: seq<Group>): int {
    Sum(mine, PairsOf(rivals))
  }

  /** The score of a list of groups from the player's point of view. */
  function Score(gs: seq<Group>, player: Player): int {
    BaseTotal(gs, player) + PairTotal(Mine(gs, player), Rivals(gs, player))
  }

  /** The evaluator: the score of the groups in the order the scan finds them. */
  function Eval(b: Board, player: Player): int {
    Score(FindGroups(b), player)
  }

  /** The score depends only on which groups there are, not on their order. */
  lemma ScoreIsOrderFree(gs: seq<Group>, hs: seq<Group>, player: Player)
    requires multiset(gs) == multiset(hs)
    ensures Score(gs, player) == Score(hs, player)
  {
    SumPermutation(gs, hs, BaseOf(player));
    var m1, m2 := Mine(gs, player), Mine(hs, player);
    var r1, r2 := Rivals(gs, player), Rivals(hs, player);
    FilterPermutation(gs, hs, IsColour(player));
    FilterPermutation(gs, hs, NotColour(player));
    SumPermutation(m1, m2, PairsOf(r1));
    forall m | m in m2
      ensures PairsOf(r1)(m) == PairsOf(r2)(m)
    {
      SumPermutation(r1, r2, PairWith(m));
    }
    SumCongruent(m2, PairsOf(r1), PairsOf(r2));
  }

  /** The evaluator's value is the score of ANY listing of the board's groups:
      the order in which the scan discovers them does not matter. */
  lemma EvalIsOrderFree(b: Board, gs: seq<Group>, player: Player)
    requires IsPartition(b, gs)
    ensures Eval(b, player) == Score(gs, player)
  {
    var fs := FindGroups(b);
    FindGroupsPartition(b);
    PartitionDistinct(b, fs);
    PartitionDistinct(b, gs);
    forall g
      ensures g in fs <==> g in gs
    {
      if g in fs {
        PartitionHasEveryGroup(b, gs, g);
      }
      if g in gs {
        PartitionHasEveryGroup(b, fs, g);
      }
    }
    DistinctSameElements(fs, gs);
    ScoreIsOrderFree(fs, gs, player);
  }

  lemma CountStep(g: set<Cell>, u: set<Cell>, same: set<Cell>, other: set<Cell>)
    requires g !! u && g <= same && same !! other
    ensures |(g + u) * same| == |g| + |u * same|
    ensures |(g + u) * other| == |u * other|
  {
    assert (g + u) * same == g + u * same;
    assert g !! u * same;
    assert (g + u) * other == u * other;
  }

  lemma FrontDisjoint(gs: seq<Group>)
    requires |gs| > 0 && PairwiseDisjoint(gs)
    ensures gs[0].cells !! Union(gs[1..])
  {
    forall c | c in gs[0].cells
      ensures c !in Union(gs[1..])
    {
      if c in Union(gs[1..]) {
        var k := InUnion(gs[1..], c);
        assert false;
      }
    }
  }

  /** One group's base term accounts for its stones in the two colour counts. */
  lemma BaseStep(g: Group, u: set<Cell>, player: Player, mine: set<Cell>, theirs: set<Cell>)
    requires g.cells !! u && mine !! theirs
    requires g.cells <= (if g.color == player then mine else theirs)
    ensures BaseTerm(player, g) + (PieceWeight + GroupWeight) * (|u * mine| - |u * theirs|)
         == (PieceWeight + GroupWeight) * (|(g.cells + u) * mine| - |(g.cells + u) * theirs|)
  {
    if g.color == player {
      CountStep(g.cells, u, mine, theirs);
    } else {
      CountStep(g.cells, u, theirs, mine);
    }
  }

  /** For disjoint groups whose cells lie among the player's stones (mine)
      or the other colour's (theirs) according to their colour, the base
      terms add up to 30 times mine minus theirs within their union. */
  lemma {:induction false} BaseCounts(gs: seq<Group>, player: Player, mine: set<Cell>, theirs: set<Cell>)
    requires PairwiseDisjoint(gs) && mine !! theirs
    requires forall k | 0 <= k < |gs| :: gs[k].cells <= (if gs[k].color == player then mine else theirs)
    ensures BaseTotal(gs, player)
         == (PieceWeight + GroupWeight) * (|Union(gs) * mine| - |Union(gs) * theirs|)
  {
    if |gs| > 0 {
      assert PairwiseDisjoint(gs[1..]);
      BaseCounts(gs[1..], player, mine, theirs);
      UnionFront(gs);
      FrontDisjoint(gs);
      BaseStep(gs[0], Union(gs[1..]), player, mine, theirs);
    }
  }

  /** The base part of the score is 30 times the player's stone count minus
      the other colour's: every stone lies in exactly one group. */
  lemma BaseCountsStones(b: Board, player: Player)
    ensures BaseTotal(FindGroups(b), player)
         == (PieceWeight + GroupWeight) * (|Stones(b, player)| - |Stones(b, Other(player))|)
  {
    var gs := FindGroups(b);
    FindGroupsPartition(b);
    var mine, theirs := Stones(b, player), Stones(b, Other(player));
    AllStonesSplit(b, player);
    forall k | 0 <= k < |gs|
      ensures gs[k].cells <= (if gs[k].color == player then mine else theirs)
    {
      assert IsGroup(b, gs[k]);
      assert gs[k].color == player || gs[k].color == Other(player);
    }
    BaseCounts(gs, player, mine, theirs);
    assert Union(gs) * Stones(b, player) == Stones(b, player);
    assert Union(gs) * Stones(b, Other(player)) == Stones(b, Other(player));
  }

  /** The evaluator's value: the stone-count term plus the pair terms. */
  lemma EvalFormula(b: Board, player: Player)
    ensures Eval(b, player)
         == (PieceWeight + GroupWeight) * (|Stones(b, player)| - |Stones(b, Other(player))|)
          + PairTotal(Mine(FindGroups(b), player), Rivals(FindGroups(b), player))
  {
    BaseCountsStones(b, player);
  }

  /** A board without stones scores 0. */
  lemma EmptyBoardScoresZero(b: Board, player: Player)
    requires AllStones(b) == {}
    ensures Eval(b, player) == 0
  {
    var gs := FindGroups(b);
    FindGroupsPartition(b);
    if |gs| > 0 {
      assert false;
    }
  }
}
