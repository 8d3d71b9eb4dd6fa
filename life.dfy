/**
 * One generation of Conway's Game of Life on the bounded field.
 *
 * Step is the generation as the scan computes it: the field cells marked for
 * removal (Deaths) and for addition (Births) are both decided from the
 * unmodified generation and applied afterwards. Conway is the rule as the
 * game states it, cell by cell; StepFollowsConway connects the two.
 */
module Life {
  import opened Geometry

  /** The eight Moore-neighbour offsets of c, in the order the scan visits them. */
  function Neighbours(c: Cell): (ns: seq<Cell>)
    ensures |ns| == 8 && forall i :: 0 <= i < |ns| ==> Adjacent(c, ns[i])
  {
    var (x, y) := c;
    [(x, y + 1), (x, y - 1), (x - 1, y), (x + 1, y),
     (x + 1, y + 1), (x - 1, y + 1), (x + 1, y - 1), (x - 1, y - 1)]
  }

  /** The offsets are eight distinct cells, exactly those touching c. */
  lemma NeighboursAreMoore(c: Cell)
    ensures |Neighbours(c)| == 8
    ensures forall i, j :: 0 <= i < j < |Neighbours(c)| ==> Neighbours(c)[i] != Neighbours(c)[j]
    ensures forall d :: d in Neighbours(c) <==> Adjacent(c, d)
  {
  }

  /** d is one of the eight cells touching c, orthogonally or diagonally. */
  predicate Adjacent(c: Cell, d: Cell) {
    d != c && -1 <= d.0 - c.0 <= 1 && -1 <= d.1 - c.1 <= 1
  }

  /** One if d is alive, zero otherwise. */
  function Present(alive: set<Cell>, d: Cell): nat {
    if d in alive then 1 else 0
  }

  /** How many entries of s are in alive. */
  function CountIn(s: seq<Cell>, alive: set<Cell>): (n: nat)
    ensures n <= |s|
  {
    if s == [] then 0 else CountIn(s[..|s| - 1], alive) + Present(alive, s[|s| - 1])
  }

  /** The length of the list of live neighbours the scan builds for c. */
  function LiveNeighbours(alive: set<Cell>, c: Cell): (n: nat)
    ensures n <= 8
  {
    CountIn(Neighbours(c), alive)
  }

  /** The live cells touching c. */
  function AdjacentLive(alive: set<Cell>, c: Cell): set<Cell> {
    set d | d in alive && Adjacent(c, d)
  }

  /** All cells of the field. */
  function FieldCells(): (cells: set<Cell>)
    ensures forall c :: c in cells <==> InField(c)
  {
    set x, y | 0 <= x < FieldWidth && 0 <= y < FieldHeight :: (x, y)
  }

  /** c is a live field cell with fewer than two or more than three live neighbours. */
  predicate Dies(alive: set<Cell>, c: Cell) {
    c in alive && InField(c) && (LiveNeighbours(alive, c) < 2 || LiveNeighbours(alive, c) > 3)
  }

  /** c is a dead field cell with exactly three live neighbours. */
  predicate Born(alive: set<Cell>, c: Cell) {
    InField(c) && c !in alive && LiveNeighbours(alive, c) == 3
  }

  /** The cells the scan marks for removal. */
  function Deaths(alive: set<Cell>): (d: set<Cell>)
    ensures d <= alive && InsideField(d)
    ensures forall c :: c in d <==> Dies(alive, c)
  {
    set c | c in alive && Dies(alive, c)
  }

  /** The cells the scan marks for addition. */
  function Births(alive: set<Cell>): (b: set<Cell>)
    ensures b !! alive && InsideField(b)
    ensures forall c :: c in b <==> Born(alive, c)
  {
    set c | c in FieldCells() && Born(alive, c)
  }

  /** The next generation, as removals then additions applied to the current one. */
  function Step(alive: set<Cell>): (next: set<Cell>)
    ensures forall c :: c in next && c !in alive ==> InField(c)
    ensures forall c :: c in alive && !InField(c) ==> c in next
  {
    (alive - Deaths(alive)) + Births(alive)
  }

  /** Conway's rule for cell c: a field cell lives in the next generation when
      it is dead with exactly three live neighbours or alive with two or three. */
  predicate Conway(alive: set<Cell>, c: Cell)
    ensures Conway(alive, c) ==> InField(c) && 2 <= LiveNeighbours(alive, c) <= 3
  {
    InField(c) &&
    var n := LiveNeighbours(alive, c);
    if c in alive then n == 2 || n == 3 else n == 3
  }

  // ---------------------------------------------------------------------
  // Neighbour counting

  /** The members of s that are alive. */
  function Shared(s: seq<Cell>, alive: set<Cell>): set<Cell> {
    set d | d in s && d in alive
  }

  /** Appending e to s adds e to the shared members exactly when it is alive. */
  lemma SharedSnoc(s: seq<Cell>, e: Cell, alive: set<Cell>)
    ensures Shared(s + [e], alive) == Shared(s, alive) + (if e in alive then {e} else {})
  {
  }

  /** Counting a duplicate-free list counts the distinct members it shares with alive. */
  lemma {:induction false} CountInIsCardinality(s: seq<Cell>, alive: set<Cell>)
    requires forall i, j :: 0 <= i < j < |s| ==> s[i] != s[j]
    ensures CountIn(s, alive) == |Shared(s, alive)|
  {
    if s == [] {
      assert Shared(s, alive) == {};
    } else {
      var init, last := s[..|s| - 1], s[|s| - 1];
      assert s == init + [last];
      CountInIsCardinality(init, alive);
      SharedSnoc(init, last, alive);
      assert last !in Shared(init, alive);
    }
  }

  /** The scan's neighbour count is the number of live cells touching c. */
  lemma LiveNeighboursCountsAdjacent(alive: set<Cell>, c: Cell)
    ensures LiveNeighbours(alive, c) == |AdjacentLive(alive, c)|
  {
    NeighboursAreMoore(c);
    CountInIsCardinality(Neighbours(c), alive);
    assert Shared(Neighbours(c), alive) == AdjacentLive(alive, c);
  }

  /** The neighbour count written out over the eight offsets. */
  lemma LiveNeighboursUnfold(alive: set<Cell>, c: Cell)
    ensures LiveNeighbours(alive, c) ==
      Present(alive, (c.0, c.1 + 1)) + Present(alive, (c.0, c.1 - 1)) +
      Present(alive, (c.0 - 1, c.1)) + Present(alive, (c.0 + 1, c.1)) +
      Present(alive, (c.0 + 1, c.1 + 1)) + Present(alive, (c.0 - 1, c.1 + 1)) +
      Present(alive, (c.0 + 1, c.1 - 1)) + Present(alive, (c.0 - 1, c.1 - 1))
  {
    var ns := Neighbours(c);
    assert ns[..8] == ns;
    assert ns[..8][..7] == ns[..7];
    assert CountIn(ns[..8], alive) == CountIn(ns[..7], alive) + Present(alive, ns[7]);
    assert ns[..7][..6] == ns[..6];
    assert CountIn(ns[..7], alive) == CountIn(ns[..6], alive) + Present(alive, ns[6]);
    assert ns[..6][..5] == ns[..5];
    assert CountIn(ns[..6], alive) == CountIn(ns[..5], alive) + Present(alive, ns[5]);
    assert ns[..5][..4] == ns[..4];
    assert CountIn(ns[..5], alive) == CountIn(ns[..4], alive) + Present(alive, ns[4]);
    assert ns[..4][..3] == ns[..3];
    assert CountIn(ns[..4], alive) == CountIn(ns[..3], alive) + Present(alive, ns[3]);
    assert ns[..3][..2] == ns[..2];
    assert CountIn(ns[..3], alive) == CountIn(ns[..2], alive) + Present(alive, ns[2]);
    assert ns[..2][..1] == ns[..1];
    assert CountIn(ns[..2], alive) == CountIn(ns[..1], alive) + Present(alive, ns[1]);
    assert ns[..1][..0] == ns[..0];
    assert CountIn(ns[..1], alive) == CountIn(ns[..0], alive) + Present(alive, ns[0]);
  }

  // ---------------------------------------------------------------------
  // The rule

  /** With every live cell in the field, a cell is in the next generation
      exactly when Conway's rule says it lives. */
  lemma StepFollowsConway(alive: set<Cell>, c: Cell)
    requires InsideField(alive)
    ensures c in Step(alive) <==> Conway(alive, c)
  {
  }

  /** A live field cell survives iff it has two or three live neighbours. */
  lemma LiveCellRule(alive: set<Cell>, c: Cell)
    requires InField(c) && c in alive
    ensures c in Step(alive) <==> (LiveNeighbours(alive, c) == 2 || LiveNeighbours(alive, c) == 3)
  {
  }

  /** A dead field cell is born iff it has exactly three live neighbours. */
  lemma DeadCellRule(alive: set<Cell>, c: Cell)
    requires InField(c) && c !in alive
    ensures c in Step(alive) <==> LiveNeighbours(alive, c) == 3
  {
  }

  /** A generation never leaves the field. */
  lemma StepInsideField(alive: set<Cell>)
    requires InsideField(alive)
    ensures InsideField(Step(alive))
  {
  }

  /** The generation after n steps. */
  function Generations(alive: set<Cell>, n: nat): set<Cell> {
    if n == 0 then alive else Step(Generations(alive, n - 1))
  }

  /** No number of generations lets a cell escape the field. */
  lemma {:induction false} GenerationsInsideField(alive: set<Cell>, n: nat)
    requires InsideField(alive)
    ensures InsideField(Generations(alive, n))
  {
    if n > 0 {
      GenerationsInsideField(alive, n - 1);
      StepInsideField(Generations(alive, n - 1));
    }
  }

  /** The removals come from the current generation, the additions from outside it. */
  lemma DecisionsDisjoint(alive: set<Cell>)
    ensures Deaths(alive) <= alive
    ensures Births(alive) !! alive
    ensures Deaths(alive) !! Births(alive)
  {
  }

  /** The empty field stays empty. */
  lemma EmptyIsFixed()
    ensures Step({}) == {}
  {
    assert forall c :: LiveNeighbours({}, c) == 0 by {
      forall c ensures LiveNeighbours({}, c) == 0 { LiveNeighboursUnfold({}, c); }
    }
  }

  /** A lone live cell dies and nothing is born around it. */
  lemma LoneCellDies(c: Cell)
    requires InField(c)
    ensures Step({c}) == {}
  {
    forall d ensures LiveNeighbours({c}, d) <= 1 {
      LiveNeighboursCountsAdjacent({c}, d);
      if Adjacent(d, c) {
        assert AdjacentLive({c}, d) == {c};
      } else {
        assert AdjacentLive({c}, d) == {};
      }
    }
  }

  /** The 2x2 block in the corner of the field. */
  function Block(): set<Cell> {
    {(0, 0), (1, 0), (0, 1), (1, 1)}
  }

  /** Conway's rule keeps exactly the block's own cells alive. */
  lemma BlockConway(c: Cell)
    requires InField(c)
    ensures Conway(Block(), c) <==> c in Block()
  {
    LiveNeighboursUnfold(Block(), c);
  }

  /** The block is a still life. */
  lemma BlockIsStill()
    ensures Step(Block()) == Block()
  {
    forall c ensures c in Step(Block()) <==> c in Block() {
      StepFollowsConway(Block(), c);
      if InField(c) {
        BlockConway(c);
      }
    }
  }

  /** A horizontal bar of three cells. */
  function Bar(): set<Cell> {
    {(4, 5), (5, 5), (6, 5)}
  }

  /** The vertical bar the horizontal one turns into. */
  function Pole(): set<Cell> {
    {(5, 4), (5, 5), (5, 6)}
  }

  /** Conway's rule kills the ends of the bar and gives birth above and below its middle. */
  lemma BarConway(c: Cell)
    requires InField(c)
    ensures Conway(Bar(), c) <==> c in Pole()
  {
    LiveNeighboursUnfold(Bar(), c);
  }

  /** The bar oscillates: one generation turns it into the pole. */
  lemma BarTurnsIntoPole()
    ensures Step(Bar()) == Pole()
  {
    forall c ensures c in Step(Bar()) <==> c in Pole() {
      StepFollowsConway(Bar(), c);
      if InField(c) {
        BarConway(c);
      }
    }
  }

  // ---------------------------------------------------------------------
  // The scan

  /** Build the list of live neighbours of c and return its length. */
  method CountLiveNeighbours(alive: set<Cell>, c: Cell) returns (n: nat)
    ensures n == LiveNeighbours(alive, c)
    ensures n == |AdjacentLive(alive, c)| && n <= 8
  {
    var neighbours := Neighbours(c);
    var liveNeighbours: seq<Cell> := [];
    for i := 0 to |neighbours|
      invariant |liveNeighbours| == CountIn(neighbours[..i], alive)
    {
      assert neighbours[..i + 1][..i] == neighbours[..i];
      if neighbours[i] in alive {
        liveNeighbours := liveNeighbours + [neighbours[i]];
      }
    }
    assert neighbours[..|neighbours|] == neighbours;
    n := |liveNeighbours|;
    LiveNeighboursCountsAdjacent(alive, c);
  }

  /** The scan has visited c once it has passed column c.0, or row c.1 of column x. */
  predicate Visited(c: Cell, x: int, y: int) {
    c.0 < x || (c.0 == x && c.1 < y)
  }

  /**
   * One generation: scan every field cell, collecting cells to remove and
   * cells to add from the unmodified generation, then remove and add them.
   */
  method GameOfLife(alive: set<Cell>) returns (next: set<Cell>)
    ensures next == Step(alive)
    ensures InsideField(alive) ==> forall c :: c in next <==> Conway(alive, c)
  {
    var removeList: seq<Cell> := [];
    var addList: seq<Cell> := [];
    var x := 0;
    while x < FieldWidth
      invariant 0 <= x <= FieldWidth
      invariant forall c {:trigger c in removeList} :: c in removeList <==> Dies(alive, c) && c.0 < x
      invariant forall c {:trigger c in addList} :: c in addList <==> Born(alive, c) && c.0 < x
      invariant forall i, j :: 0 <= i < j < |removeList| ==> removeList[i] != removeList[j]
    {
      var y := 0;
      while y < FieldHeight
        invariant 0 <= y <= FieldHeight
        invariant forall c {:trigger c in removeList} :: c in removeList <==> Dies(alive, c) && Visited(c, x, y)
        invariant forall c {:trigger c in addList} :: c in addList <==> Born(alive, c) && Visited(c, x, y)
        invariant forall i, j :: 0 <= i < j < |removeList| ==> removeList[i] != removeList[j]
      {
        var n := CountLiveNeighbours(alive, (x, y));
        if (x, y) in alive {
          if n < 2 || n > 3 {
            assert (x, y) !in removeList;
            removeList := removeList + [(x, y)];
          }
        } else {
          if n == 3 {
            addList := addList + [(x, y)];
          }
        }
        y := y + 1;
      }
      x := x + 1;
    }

    next := alive;
    for i := 0 to |removeList|
      invariant forall c :: c in next <==> c in alive && c !in removeList[..i]
    {
      // Removing a cell that is not there would fail; the scan never lists one.
      assert removeList[i] in removeList && removeList[i] !in removeList[..i];
      assert removeList[i] in next;
      next := next - {removeList[i]};
      assert removeList[..i + 1] == removeList[..i] + [removeList[i]];
    }
    assert removeList[..|removeList|] == removeList;
    for i := 0 to |addList|
      invariant forall c :: c in next <==> (c in alive && c !in removeList) || c in addList[..i]
    {
      next := next + {addList[i]};
      assert addList[..i + 1] == addList[..i] + [addList[i]];
    }
    assert addList[..|addList|] == addList;
    assert forall c :: c in next <==> c in Step(alive);
    if InsideField(alive) {
      forall c ensures c in next <==> Conway(alive, c) { StepFollowsConway(alive, c); }
    }
  }
}
