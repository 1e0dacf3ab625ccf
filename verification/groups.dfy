/** The evaluator's flood fill: maximal same-coloured groups of stones,
    connected through the six hexagonal offsets. */
module Groups {
  import opened Wrappers
  import opened Hex

  /** A group of stones as the evaluator builds it: its colour and its cells.
      The source keeps a separate size counter that is incremented once per
      added point; here the size is the number of cells. */
  datatype Group = Group(color: Player, cells: set<Cell>)

  /** Every stone of `color` next to c lies in R. */
  ghost predicate NeighboursIn(b: Board, color: Player, c: Cell, R: set<Cell>) {
    forall k | 0 <= k < |Dirs| :: HasStone(b, Add(c, Dirs[k]), color) ==> Add(c, Dirs[k]) in R
  }

  /** S holds only stones of `color` and no stone of `color` touches S from outside. */
  ghost predicate Closed(b: Board, color: Player, S: set<Cell>) {
    && (forall c | c in S :: HasStone(b, c, color))
    && (forall c | c in S :: NeighboursIn(b, color, c, S))
  }

  lemma FewerUnvisited(keys: set<Cell>, vis: set<Cell>, vis': set<Cell>)
    requires vis <= vis'
    ensures |keys - vis'| <= |keys - vis|
  {
    var a, c := keys - vis', keys - vis;
    assert c == a + (c - a);
    assert a !! (c - a);
  }

  lemma OneFewerUnvisited(keys: set<Cell>, vis: set<Cell>, p: Cell)
    requires p in keys && p !in vis
    ensures |keys - (vis + {p})| < |keys - vis|
  {
    assert keys - (vis + {p}) == (keys - vis) - {p};
  }

  /** One call of the recursive flood fill from p: returns the visited set
      after the call. A cell is entered when it is in bounds, not yet
      visited and holds a stone of `color`; it is then marked and the six
      offsets are tried in order. */
  function Dfs(b: Board, p: Cell, color: Player, vis: set<Cell>): (r: set<Cell>)
    ensures vis <= r
    ensures HasStone(b, p, color) ==> p in r
    ensures forall c | c in r - vis :: HasStone(b, c, color)
    decreases |b.cells.Keys - vis|, 0
  {
    if !InBounds(b, p) || p in vis || b.cells[p] != Some(color) then vis
    else
      OneFewerUnvisited(b.cells.Keys, vis, p);
      DfsDirs(b, p, color, vis + {p}, 0)
  }

  /** The loop over the offsets Dirs[k..] of a cell p already marked. */
  function DfsDirs(b: Board, p: Cell, color: Player, vis: set<Cell>, k: nat): (r: set<Cell>)
    requires k <= |Dirs|
    ensures vis <= r
    ensures forall c | c in r - vis :: HasStone(b, c, color)
    decreases |b.cells.Keys - vis|, 1, |Dirs| - k
  {
    if k == |Dirs| then vis
    else
      var v := Dfs(b, Add(p, Dirs[k]), color, vis);
      FewerUnvisited(b.cells.Keys, vis, v);
      DfsDirs(b, p, color, v, k + 1)
  }

  /** Index of the opposite offset: Dirs[Opp(k)] is -Dirs[k]. */
  function Opp(k: nat): (k': nat)
    requires k < |Dirs|
    ensures k' < |Dirs|
    ensures Dirs[k'] == (-Dirs[k].0, -Dirs[k].1)
  {
    (k + 3) % 6
  }

  lemma NeighbourBack(c: Cell, k: nat)
    requires k < |Dirs|
    ensures Add(Add(c, Dirs[k]), Dirs[Opp(k)]) == c
  {
  }

  lemma NeighboursInGrows(b: Board, color: Player, c: Cell, R: set<Cell>, R': set<Cell>)
    requires NeighboursIn(b, color, c, R) && R <= R'
    ensures NeighboursIn(b, color, c, R')
  {
  }

  /** Flood-fill maximality: every newly marked cell has all its stones of
      the same colour marked by the end of the call. */
  lemma {:induction false} DfsMarksNeighbours(b: Board, p: Cell, color: Player, vis: set<Cell>)
    ensures forall c | c in Dfs(b, p, color, vis) && c !in vis :: NeighboursIn(b, color, c, Dfs(b, p, color, vis))
    decreases |b.cells.Keys - vis|, 0
  {
    if !InBounds(b, p) || p in vis || b.cells[p] != Some(color) {
    } else {
      OneFewerUnvisited(b.cells.Keys, vis, p);
      DfsDirsMarksNeighbours(b, p, color, vis + {p}, 0);
    }
  }

  lemma {:induction false} DfsDirsMarksNeighbours(b: Board, p: Cell, color: Player, vis: set<Cell>, k: nat)
    requires k <= |Dirs|
    requires p in vis
    ensures forall c | c in DfsDirs(b, p, color, vis, k) && c !in vis :: NeighboursIn(b, color, c, DfsDirs(b, p, color, vis, k))
    ensures forall j | k <= j < |Dirs| :: HasStone(b, Add(p, Dirs[j]), color) ==> Add(p, Dirs[j]) in DfsDirs(b, p, color, vis, k)
    decreases |b.cells.Keys - vis|, 1, |Dirs| - k
  {
    if k < |Dirs| {
      var v := Dfs(b, Add(p, Dirs[k]), color, vis);
      FewerUnvisited(b.cells.Keys, vis, v);
      DfsMarksNeighbours(b, Add(p, Dirs[k]), color, vis);
      DfsDirsMarksNeighbours(b, p, color, v, k + 1);
      var r := DfsDirs(b, p, color, v, k + 1);
      forall c | c in r && c !in vis
        ensures NeighboursIn(b, color, c, r)
      {
        if c in v {
          NeighboursInGrows(b, color, c, v, r);
        }
      }
    }
  }

  /** Flood-fill connectedness: started on a cell of a closed set S (or on a
      cell it does not enter), the fill marks nothing outside S. */
  lemma {:induction false} DfsStaysWithin(b: Board, p: Cell, color: Player, vis: set<Cell>, S: set<Cell>)
    requires Closed(b, color, S)
    requires p in S || !HasStone(b, p, color)
    ensures Dfs(b, p, color, vis) - vis <= S
    decreases |b.cells.Keys - vis|, 0
  {
    if !InBounds(b, p) || p in vis || b.cells[p] != Some(color) {
    } else {
      OneFewerUnvisited(b.cells.Keys, vis, p);
      DfsDirsStaysWithin(b, p, color, vis + {p}, 0, S);
    }
  }

  lemma {:induction false} DfsDirsStaysWithin(b: Board, p: Cell, color: Player, vis: set<Cell>, k: nat, S: set<Cell>)
    requires k <= |Dirs|
    requires Closed(b, color, S) && p in S
    ensures DfsDirs(b, p, color, vis, k) - vis <= S
    decreases |b.cells.Keys - vis|, 1, |Dirs| - k
  {
    if k < |Dirs| {
      var v := Dfs(b, Add(p, Dirs[k]), color, vis);
      FewerUnvisited(b.cells.Keys, vis, v);
      assert NeighboursIn(b, color, p, S);
      DfsStaysWithin(b, Add(p, Dirs[k]), color, vis, S);
      DfsDirsStaysWithin(b, p, color, v, k + 1, S);
    }
  }

  /** g is a maximal group: non-empty, closed under same-coloured adjacency,
      and connected (every closed set that meets it contains all of it). */
  ghost predicate IsGroup(b: Board, g: Group) {
    && g.cells != {}
    && Closed(b, g.color, g.cells)
    && forall S | Closed(b, g.color, S) && g.cells * S != {} :: g.cells <= S
  }

  /** The cells of all groups in gs. */
  function Union(gs: seq<Group>): (u: set<Cell>)
    ensures forall k | 0 <= k < |gs| :: gs[k].cells <= u
  {
    if |gs| == 0 then {} else Union(gs[..|gs| - 1]) + gs[|gs| - 1].cells
  }

  lemma {:induction false} UnionFront(gs: seq<Group>)
    requires |gs| > 0
    ensures Union(gs) == gs[0].cells + Union(gs[1..])
  {
    if |gs| > 1 {
      var n := |gs|;
      UnionFront(gs[..n - 1]);
      assert gs[..n - 1][1..] == gs[1..][..n - 2];
      assert gs[..n - 1][0] == gs[0];
      assert gs[1..][n - 2] == gs[n - 1];
    } else {
      assert gs[1..] == [];
    }
  }

  /** A cell of the union lies in one of the groups; returns its index. */
  lemma {:induction false} InUnion(gs: seq<Group>, c: Cell) returns (k: nat)
    requires c in Union(gs)
    ensures k < |gs| && c in gs[k].cells
  {
    if c in gs[|gs| - 1].cells {
      k := |gs| - 1;
    } else {
      k := InUnion(gs[..|gs| - 1], c);
    }
  }

  /** gs lists every group of b once: each entry is a maximal group, no two
      share a cell, and together they hold every stone. */
  ghost predicate IsPartition(b: Board, gs: seq<Group>) {
    && AllGroups(b, gs)
    && PairwiseDisjoint(gs)
    && Union(gs) == AllStones(b)
  }

  /** Cell c comes before (i, j) in the row-major scan. */
  predicate Before(c: Cell, i: int, j: int) {
    c.0 < i || (c.0 == i && c.1 < j)
  }

  /** The double loop of the evaluator (rows i, then columns j): an in-bounds,
      not yet visited cell holding a stone starts a flood fill whose newly
      marked cells form the next group. Returns the groups in discovery order. */
  function Scan(b: Board, i: nat, j: nat, vis: set<Cell>, acc: seq<Group>): seq<Group>
    decreases b.size - i, b.size - j
  {
    if i >= b.size then acc
    else if j >= b.size then Scan(b, i + 1, 0, vis, acc)
    else
      var c := (i, j);
      if !InBounds(b, c) || c in vis then Scan(b, i, j + 1, vis, acc)
      else match b.cells[c]
        case None => Scan(b, i, j + 1, vis, acc)
        case Some(color) =>
          var r := Dfs(b, c, color, vis);
          Scan(b, i, j + 1, r, acc + [Group(color, r - vis)])
  }

  /** The groups of b in the order the evaluator discovers them. */
  function FindGroups(b: Board): seq<Group> {
    Scan(b, 0, 0, {}, [])
  }

  ghost predicate AllGroups(b: Board, gs: seq<Group>) {
    forall k | 0 <= k < |gs| :: IsGroup(b, gs[k])
  }

  ghost predicate PairwiseDisjoint(gs: seq<Group>) {
    forall x, y | 0 <= x < y < |gs| :: gs[x].cells !! gs[y].cells
  }

  /** Every visited cell is a stone whose same-coloured neighbours are visited. */
  ghost predicate VisitedClosed(b: Board, vis: set<Cell>) {
    forall c | c in vis :: c in b.cells && b.cells[c].Some? && NeighboursIn(b, b.cells[c].value, c, vis)
  }

  /** Every stone before (i, j) in row-major order is visited. */
  ghost predicate Scanned(b: Board, i: int, j: int, vis: set<Cell>) {
    forall c | c in AllStones(b) && Before(c, i, j) :: c in vis
  }

  /** The visited set so far: the union of the groups found, closed per colour,
      and holding every stone scanned. */
  ghost predicate ScanInv(b: Board, i: int, j: int, vis: set<Cell>, acc: seq<Group>) {
    && AllGroups(b, acc)
    && PairwiseDisjoint(acc)
    && vis == Union(acc)
    && VisitedClosed(b, vis)
    && Scanned(b, i, j, vis)
  }

  /** A set closed around a seed is contained in every closed set meeting it. */
  lemma ConnectedFromSeed(b: Board, color: Player, g: set<Cell>, p: Cell)
    requires p in g && Closed(b, color, g)
    requires forall S | Closed(b, color, S) && p in S :: g <= S
    ensures forall S | Closed(b, color, S) && g * S != {} :: g <= S
  {
    forall S | Closed(b, color, S) && g * S != {}
      ensures g <= S
    {
      if p !in S {
        var T := g - S;
        forall x | x in T
          ensures NeighboursIn(b, color, x, T)
        {
          forall k | 0 <= k < |Dirs| && HasStone(b, Add(x, Dirs[k]), color)
            ensures Add(x, Dirs[k]) in T
          {
            var y := Add(x, Dirs[k]);
            assert NeighboursIn(b, color, x, g);
            if y in S {
              assert NeighboursIn(b, color, y, S);
              NeighbourBack(x, k);
              assert false;
            }
          }
        }
        assert Closed(b, color, T);
        assert false;
      }
    }
  }

  /** The cells newly marked by a fill started on an unvisited stone form a
      maximal group, when the visited set is closed per colour. */
  lemma NewGroup(b: Board, c: Cell, color: Player, vis: set<Cell>)
    requires HasStone(b, c, color) && c !in vis
    requires forall x | x in vis :: x in b.cells && b.cells[x].Some? && NeighboursIn(b, b.cells[x].value, x, vis)
    ensures IsGroup(b, Group(color, Dfs(b, c, color, vis) - vis))
  {
    var r := Dfs(b, c, color, vis);
    var g := r - vis;
    DfsMarksNeighbours(b, c, color, vis);
    forall x | x in g
      ensures NeighboursIn(b, color, x, g)
    {
      forall k | 0 <= k < |Dirs| && HasStone(b, Add(x, Dirs[k]), color)
        ensures Add(x, Dirs[k]) in g
      {
        var y := Add(x, Dirs[k]);
        assert NeighboursIn(b, color, x, r);
        if y in vis {
          assert NeighboursIn(b, color, y, vis);
          NeighbourBack(x, k);
          assert false;
        }
      }
    }
    assert Closed(b, color, g);
    forall S | Closed(b, color, S) && c in S
      ensures g <= S
    {
      DfsStaysWithin(b, c, color, vis, S);
    }
    ConnectedFromSeed(b, color, g, c);
  }

  lemma ScannedNext(b: Board, i: int, j: int, vis: set<Cell>)
    requires Scanned(b, i, j, vis)
    requires (i, j) in AllStones(b) ==> (i, j) in vis
    ensures Scanned(b, i, j + 1, vis)
  {
    forall x | x in AllStones(b) && Before(x, i, j + 1)
      ensures x in vis
    {
      if x != (i, j) {
        assert Before(x, i, j);
      }
    }
  }

  lemma ScannedRow(b: Board, i: int, j: int, vis: set<Cell>)
    requires Scanned(b, i, j, vis) && j >= b.size
    ensures Scanned(b, i + 1, 0, vis)
  {
    forall x | x in AllStones(b) && Before(x, i + 1, 0)
      ensures x in vis
    {
      assert Before(x, i, j);
    }
  }

  lemma ScannedAll(b: Board, i: int, j: int, vis: set<Cell>)
    requires Scanned(b, i, j, vis) && i >= b.size
    ensures AllStones(b) <= vis
  {
    forall x | x in AllStones(b)
      ensures x in vis
    {
      assert Before(x, i, j);
    }
  }

  lemma ScanDone(b: Board, i: int, j: int, vis: set<Cell>, acc: seq<Group>)
    requires ScanInv(b, i, j, vis, acc) && i >= b.size
    ensures IsPartition(b, acc)
  {
    ScannedAll(b, i, j, vis);
    forall c | c in vis
      ensures c in AllStones(b)
    {
    }
  }

  lemma VisitedClosedStep(b: Board, c: Cell, color: Player, vis: set<Cell>)
    requires VisitedClosed(b, vis)
    ensures VisitedClosed(b, Dfs(b, c, color, vis))
  {
    var r := Dfs(b, c, color, vis);
    DfsMarksNeighbours(b, c, color, vis);
    forall x | x in r
      ensures x in b.cells && b.cells[x].Some? && NeighboursIn(b, b.cells[x].value, x, r)
    {
      if x in vis {
        NeighboursInGrows(b, b.cells[x].value, x, vis, r);
      } else {
        assert HasStone(b, x, color);
      }
    }
  }

  lemma DisjointStep(acc: seq<Group>, g: Group)
    requires PairwiseDisjoint(acc) && g.cells !! Union(acc)
    ensures PairwiseDisjoint(acc + [g])
  {
    var acc' := acc + [g];
    forall x, y | 0 <= x < y < |acc'|
      ensures acc'[x].cells !! acc'[y].cells
    {
      if y == |acc| {
        assert acc'[x].cells <= Union(acc);
      }
    }
  }

  lemma UnionStep(acc: seq<Group>, g: Group)
    ensures Union(acc + [g]) == Union(acc) + g.cells
  {
    assert (acc + [g])[..|acc|] == acc;
  }

  /** Adding the group found at an unvisited stone keeps the scan invariant. */
  lemma ScanStep(b: Board, i: nat, j: nat, vis: set<Cell>, acc: seq<Group>, color: Player)
    requires ScanInv(b, i, j, vis, acc)
    requires HasStone(b, (i, j), color) && (i, j) !in vis
    ensures var r := Dfs(b, (i, j), color, vis);
      ScanInv(b, i, j + 1, r, acc + [Group(color, r - vis)])
  {
    var c := (i, j);
    var r := Dfs(b, c, color, vis);
    var g := Group(color, r - vis);
    NewGroup(b, c, color, vis);
    UnionStep(acc, g);
    DisjointStep(acc, g);
    VisitedClosedStep(b, c, color, vis);
    ScannedNext(b, i, j, r);
    assert AllGroups(b, acc + [g]);
  }

  lemma {:induction false} ScanPartition(b: Board, i: nat, j: nat, vis: set<Cell>, acc: seq<Group>)
    requires ScanInv(b, i, j, vis, acc)
    ensures IsPartition(b, Scan(b, i, j, vis, acc))
    decreases b.size - i, b.size - j, 1
  {
    if i >= b.size {
      ScanDone(b, i, j, vis, acc);
    } else if j >= b.size {
      ScannedRow(b, i, j, vis);
      ScanPartition(b, i + 1, 0, vis, acc);
    } else if !InBounds(b, (i, j)) || (i, j) in vis || b.cells[(i, j)].None? {
      ScannedNext(b, i, j, vis);
      ScanPartition(b, i, j + 1, vis, acc);
    } else {
      ScanPartitionAtStone(b, i, j, vis, acc);
    }
  }

  lemma {:induction false} ScanPartitionAtStone(b: Board, i: nat, j: nat, vis: set<Cell>, acc: seq<Group>)
    requires ScanInv(b, i, j, vis, acc)
    requires i < b.size && j < b.size && (i, j) in AllStones(b) && (i, j) !in vis
    ensures IsPartition(b, Scan(b, i, j, vis, acc))
    decreases b.size - i, b.size - j, 0
  {
    var color := b.cells[(i, j)].value;
    var r := Dfs(b, (i, j), color, vis);
    ScanStep(b, i, j, vis, acc, color);
    ScanPartition(b, i, j + 1, r, acc + [Group(color, r - vis)]);
  }

  /** The evaluator's groups partition the stones into maximal groups. */
  lemma FindGroupsPartition(b: Board)
    ensures IsPartition(b, FindGroups(b))
  {
    ScanPartition(b, 0, 0, {}, []);
  }

  /** The source's contact test: some cell of g1 has one of its six
      neighbours in g2. */
  predicate Contact(g1: set<Cell>, g2: set<Cell>) {
    exists p, k | p in g1 && 0 <= k < |Dirs| :: Add(p, Dirs[k]) in g2
  }

  /** Contact means that some cell of g1 is adjacent to some cell of g2. */
  lemma ContactIffAdjacent(g1: set<Cell>, g2: set<Cell>)
    ensures Contact(g1, g2) <==> exists p, q | p in g1 && q in g2 :: Adjacent(p, q)
  {
    if Contact(g1, g2) {
      var p, k :| p in g1 && 0 <= k < |Dirs| && Add(p, Dirs[k]) in g2;
      AdjacentByOffset(p, k);
    }
    if exists p, q | p in g1 && q in g2 :: Adjacent(p, q) {
      var p, q :| p in g1 && q in g2 && Adjacent(p, q);
      var k :| 0 <= k < |Dirs| && Dirs[k] == Sub(q, p);
      assert Add(p, Dirs[k]) == q;
    }
  }

  /** Because Dirs is closed under negation, contact is symmetric. */
  lemma ContactSymmetric(g1: set<Cell>, g2: set<Cell>)
    ensures Contact(g1, g2) <==> Contact(g2, g1)
  {
    ContactIffAdjacent(g1, g2);
    ContactIffAdjacent(g2, g1);
    if exists p, q | p in g1 && q in g2 :: Adjacent(p, q) {
      var p, q :| p in g1 && q in g2 && Adjacent(p, q);
      AdjacentSymmetric(p, q);
    }
    if exists q, p | q in g2 && p in g1 :: Adjacent(q, p) {
      var q, p :| q in g2 && p in g1 && Adjacent(q, p);
      AdjacentSymmetric(q, p);
    }
  }

  /** Two distinct groups of one partition never touch when they have the same
      colour: the first would have absorbed the second. */
  lemma SameColourNeverInContact(b: Board, gs: seq<Group>, x: nat, y: nat)
    requires IsPartition(b, gs)
    requires x < |gs| && y < |gs| && x != y
    requires gs[x].color == gs[y].color
    ensures !Contact(gs[x].cells, gs[y].cells)
  {
    if Contact(gs[x].cells, gs[y].cells) {
      assert false;
    }
  }

  /** Two maximal groups that share a cell are the same group. */
  lemma GroupsMeetingAreEqual(b: Board, g1: Group, g2: Group)
    requires IsGroup(b, g1) && IsGroup(b, g2)
    requires g1.cells * g2.cells != {}
    ensures g1 == g2
  {
    var c :| c in g1.cells * g2.cells;
    assert HasStone(b, c, g1.color) && HasStone(b, c, g2.color);
    assert Closed(b, g1.color, g2.cells);
    assert Closed(b, g2.color, g1.cells);
  }

  /** The groups of a partition are exactly the maximal groups of the board:
      any maximal group appears in it. */
  lemma PartitionHasEveryGroup(b: Board, gs: seq<Group>, g: Group)
    requires IsPartition(b, gs) && IsGroup(b, g)
    ensures g in gs
  {
    var c :| c in g.cells;
    assert c in AllStones(b);
    var k := InUnion(gs, c);
    assert c in g.cells * gs[k].cells;
    GroupsMeetingAreEqual(b, g, gs[k]);
  }

  /** No group is listed twice in a partition. */
  lemma PartitionDistinct(b: Board, gs: seq<Group>)
    requires IsPartition(b, gs)
    ensures forall x, y | 0 <= x < y < |gs| :: gs[x] != gs[y]
  {
    forall x, y | 0 <= x < y < |gs|
      ensures gs[x] != gs[y]
    {
      assert IsGroup(b, gs[x]);
      assert gs[x].cells !! gs[y].cells;
    }
  }
}
