/** Cells, the two players, the six hexagonal offsets and the board as the
    evaluator sees it (square size, in-bounds test, colour of a cell). */
module Hex {
  import opened Wrappers

  datatype Player = Player1 | Player2

  function Other(p: Player): (q: Player)
    ensures q != p
  {
    if p == Player1 then Player2 else Player1
  }

  /** A board coordinate (x, y); the source uses java.awt.Point. */
  type Cell = (int, int)

  function Add(c: Cell, d: Cell): Cell {
    (c.0 + d.0, c.1 + d.1)
  }

  function Sub(c: Cell, d: Cell): Cell {
    (c.0 - d.0, c.1 - d.1)
  }

  /** The six neighbour offsets of the hexagonal grid, in the source's order. */
  const Dirs: seq<Cell> := [(0, 1), (1, 0), (1, 1), (0, -1), (-1, 0), (-1, -1)]

  /** Membership in Dirs spelled out offset by offset. */
  lemma DirsMembers(d: Cell)
    ensures d in Dirs <==> d == (0, 1) || d == (1, 0) || d == (1, 1) || d == (0, -1) || d == (-1, 0) || d == (-1, -1)
  {
    assert Dirs[0] == (0, 1) && Dirs[1] == (1, 0) && Dirs[2] == (1, 1);
    assert Dirs[3] == (0, -1) && Dirs[4] == (-1, 0) && Dirs[5] == (-1, -1);
  }

  /** The offset set is closed under negation, so adjacency is symmetric. */
  lemma DirsClosedUnderNegation(d: Cell)
    ensures d in Dirs ==> (-d.0, -d.1) in Dirs
  {
    DirsMembers(d);
    DirsMembers((-d.0, -d.1));
  }

  /** q is one of the six neighbours of c. */
  predicate Adjacent(c: Cell, q: Cell) {
    Sub(q, c) in Dirs
  }

  lemma AdjacentSymmetric(c: Cell, q: Cell)
    ensures Adjacent(c, q) <==> Adjacent(q, c)
  {
    DirsClosedUnderNegation(Sub(q, c));
    DirsClosedUnderNegation(Sub(c, q));
    assert Sub(c, q) == (-Sub(q, c).0, -Sub(q, c).1);
    assert Sub(q, c) == (-Sub(c, q).0, -Sub(c, q).1);
  }

  lemma AdjacentByOffset(c: Cell, k: int)
    requires 0 <= k < |Dirs|
    ensures Adjacent(c, Add(c, Dirs[k]))
  {
    assert Sub(Add(c, Dirs[k]), c) == Dirs[k];
  }

  /** Board contents as read by the evaluator: the keys of `cells` are the
      in-bounds cells and each maps to its stone, or None when empty. */
  datatype Grid = Grid(size: nat, cells: map<Cell, Option<Player>>)
  {
    /** Every in-bounds cell is inside the size x size array the evaluator allocates. */
    predicate WellFormed() {
      forall c | c in cells :: 0 <= c.0 < size && 0 <= c.1 < size
    }
  }

  type Board = g: Grid | g.WellFormed() witness Grid(0, map[])

  predicate InBounds(b: Board, c: Cell) {
    c in b.cells
  }

  /** c is an in-bounds cell holding a stone of `color`. */
  predicate HasStone(b: Board, c: Cell, color: Player) {
    c in b.cells && b.cells[c] == Some(color)
  }

  /** All stones of one colour. */
  function Stones(b: Board, color: Player): set<Cell> {
    set c | c in b.cells && b.cells[c] == Some(color)
  }

  /** All stones on the board. */
  function AllStones(b: Board): set<Cell> {
    set c | c in b.cells && b.cells[c].Some?
  }

  lemma AllStonesSplit(b: Board, player: Player)
    ensures AllStones(b) == Stones(b, player) + Stones(b, Other(player))
    ensures Stones(b, player) !! Stones(b, Other(player))
  {
    forall c
      ensures c in AllStones(b) <==> c in Stones(b, player) + Stones(b, Other(player))
    {
      if c in b.cells && b.cells[c].Some? {
        assert b.cells[c].value == player || b.cells[c].value == Other(player);
      }
    }
  }
}
