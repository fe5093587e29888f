/**
 * Worked generations on small tori, the edge cases of the offset-based
 * neighbour count, and what a caller of the universe can conclude from its
 * contracts alone.
 */
module LifeScenarios {
  import opened LifeRules
  import opened LifeUniverse

  /** The grid whose live cells are exactly the in-range positions in alive. */
  function Pattern(width: nat, height: nat, alive: set<(nat, nat)>): (g: seq<Cell>)
    requires 1 <= width && 1 <= height
    ensures IsGrid(width, height, g)
  {
    seq(width * height, i requires 0 <= i < width * height =>
      if (i / width, i % width) in alive then Alive else Dead)
  }

  lemma PatternAt(width: nat, height: nat, alive: set<(nat, nat)>, p: (nat, nat))
    requires 1 <= width && 1 <= height && p.0 < height && p.1 < width
    ensures Index(width, p.0, p.1) < width * height
    ensures Pattern(width, height, alive)[Index(width, p.0, p.1)] == if p in alive then Alive else Dead
    ensures ValueAt(width, height, Pattern(width, height, alive), p) == if p in alive then 1 else 0
  {
    IndexInBounds(width, height, p.0, p.1);
    IndexDecompose(width, p.0, p.1);
  }

  function Live(alive: set<(nat, nat)>, p: (nat, nat)): nat
  {
    if p in alive then 1 else 0
  }

  /** The number of positions in ps that are in alive, for the eight neighbours of a cell. */
  function LiveAmong(alive: set<(nat, nat)>, ps: seq<(nat, nat)>): nat
    requires |ps| == 8
  {
    Live(alive, ps[0]) + Live(alive, ps[1]) + Live(alive, ps[2]) + Live(alive, ps[3])
      + Live(alive, ps[4]) + Live(alive, ps[5]) + Live(alive, ps[6]) + Live(alive, ps[7])
  }

  /**
   * Whether the rule, applied at (row, col) to the pattern alive, leaves the
   * cell alive exactly when it is in next.
   */
  predicate CellOk(width: nat, height: nat, alive: set<(nat, nat)>, next: set<(nat, nat)>, row: nat, col: nat)
    requires 2 <= width && 2 <= height && row < height && col < width
  {
    var n := LiveAmong(alive, NeighborPositions(width, height, row, col));
    ((row, col) in next) == (Rule(if (row, col) in alive then Alive else Dead, n) == Alive)
  }

  /** CellOk at the first c cells of a row. */
  predicate RowOk(width: nat, height: nat, alive: set<(nat, nat)>, next: set<(nat, nat)>, row: nat, c: nat)
    requires 2 <= width && 2 <= height && row < height && c <= width
  {
    c == 0 || (RowOk(width, height, alive, next, row, c - 1) && CellOk(width, height, alive, next, row, c - 1))
  }

  /** RowOk for the whole of the first r rows. */
  predicate RowsOk(width: nat, height: nat, alive: set<(nat, nat)>, next: set<(nat, nat)>, r: nat)
    requires 2 <= width && 2 <= height && r <= height
  {
    r == 0 || (RowsOk(width, height, alive, next, r - 1) && RowOk(width, height, alive, next, r - 1, width))
  }

  /** Where CellOk holds, the successor of Pattern(alive) agrees with Pattern(next). */
  lemma CellStep(width: nat, height: nat, alive: set<(nat, nat)>, next: set<(nat, nat)>, row: nat, col: nat)
    requires 2 <= width && 2 <= height && row < height && col < width
    requires CellOk(width, height, alive, next, row, col)
    ensures StepAgreesAt(width, height, alive, next, row, col)
  {
    var g := Pattern(width, height, alive);
    var ps := NeighborPositions(width, height, row, col);
    NextGenerationAt(width, height, g, row, col);
    NeighborCountIsTorusCount(width, height, g, row, col);
    PatternAt(width, height, alive, (row, col));
    PatternAt(width, height, next, (row, col));
    forall k | 0 <= k < 8 ensures ValueAt(width, height, g, ps[k]) == Live(alive, ps[k]) {
      PatternAt(width, height, alive, ps[k]);
    }
  }

  /** The successor of Pattern(alive) agrees with Pattern(next) at (row, col). */
  predicate StepAgreesAt(width: nat, height: nat, alive: set<(nat, nat)>, next: set<(nat, nat)>, row: nat, col: nat)
    requires 1 <= width && 1 <= height
  {
    Index(width, row, col) < width * height &&
    NextGeneration(width, height, Pattern(width, height, alive))[Index(width, row, col)]
      == Pattern(width, height, next)[Index(width, row, col)]
  }

  lemma {:induction false} RowOkSound(width: nat, height: nat, alive: set<(nat, nat)>, next: set<(nat, nat)>, row: nat, c: nat)
    requires 2 <= width && 2 <= height && row < height && c <= width
    requires RowOk(width, height, alive, next, row, c)
    ensures forall col :: 0 <= col < c ==> StepAgreesAt(width, height, alive, next, row, col)
  {
    if c > 0 {
      RowOkSound(width, height, alive, next, row, c - 1);
      forall col | 0 <= col < c ensures StepAgreesAt(width, height, alive, next, row, col) {
        if col == c - 1 {
          CellStep(width, height, alive, next, row, col);
        }
      }
    }
  }

  lemma {:induction false} RowsOkSound(width: nat, height: nat, alive: set<(nat, nat)>, next: set<(nat, nat)>, r: nat)
    requires 2 <= width && 2 <= height && r <= height
    requires RowsOk(width, height, alive, next, r)
    ensures forall row, col :: 0 <= row < r && 0 <= col < width ==> StepAgreesAt(width, height, alive, next, row, col)
  {
    if r > 0 {
      RowsOkSound(width, height, alive, next, r - 1);
      RowOkSound(width, height, alive, next, r - 1, width);
    }
  }

  /** Two grids that agree at every in-range coordinate pair are equal. */
  lemma SameAtEveryCoordinate(width: nat, height: nat, g: seq<Cell>, t: seq<Cell>)
    requires 1 <= width && |g| == |t| == width * height
    requires forall row, col :: 0 <= row < height && 0 <= col < width ==>
      Index(width, row, col) < |g| && g[Index(width, row, col)] == t[Index(width, row, col)]
    ensures g == t
  {
    forall i | 0 <= i < |g| ensures g[i] == t[i] {
      IndexCovers(width, height, i);
    }
  }

  /** A check of every cell is enough: the whole successor of Pattern(alive) is Pattern(next). */
  lemma PatternStep(width: nat, height: nat, alive: set<(nat, nat)>, next: set<(nat, nat)>)
    requires 2 <= width && 2 <= height
    requires RowsOk(width, height, alive, next, height)
    ensures NextGeneration(width, height, Pattern(width, height, alive)) == Pattern(width, height, next)
  {
    var g := NextGeneration(width, height, Pattern(width, height, alive));
    var t := Pattern(width, height, next);
    RowsOkSound(width, height, alive, next, height);
    forall row, col | 0 <= row < height && 0 <= col < width
      ensures Index(width, row, col) < |g| && g[Index(width, row, col)] == t[Index(width, row, col)]
    {
      assert StepAgreesAt(width, height, alive, next, row, col);
    }
    SameAtEveryCoordinate(width, height, g, t);
  }


  // Each scenario below is split into one lemma per grid row, each checking
  // that row cell by cell; a single lemma per scenario exceeds the
  // verifier's resource budget.

  /** Row 1 of a 3 by 3 grid. */
  const Bar3: set<(nat, nat)> := {(1, 0), (1, 1), (1, 2)}

  /** Every cell of a 3 by 3 grid. */
  const Full3: set<(nat, nat)> := {(0, 0), (0, 1), (0, 2), (1, 0), (1, 1), (1, 2), (2, 0), (2, 1), (2, 2)}

  /** Row 0 of Bar3FillsTorus, cell by cell. */
  lemma Bar3FillsTorusRow0()
    ensures RowOk(3, 3, Bar3, Full3, 0, 3)
  {
    assert CellOk(3, 3, Bar3, Full3, 0, 0);
    assert CellOk(3, 3, Bar3, Full3, 0, 1);
    assert CellOk(3, 3, Bar3, Full3, 0, 2);
  }

  /** Row 1 of Bar3FillsTorus, cell by cell. */
  lemma Bar3FillsTorusRow1()
    ensures RowOk(3, 3, Bar3, Full3, 1, 3)
  {
    assert CellOk(3, 3, Bar3, Full3, 1, 0);
    assert CellOk(3, 3, Bar3, Full3, 1, 1);
    assert CellOk(3, 3, Bar3, Full3, 1, 2);
  }

  /** Row 2 of Bar3FillsTorus, cell by cell. */
  lemma Bar3FillsTorusRow2()
    ensures RowOk(3, 3, Bar3, Full3, 2, 3)
  {
    assert CellOk(3, 3, Bar3, Full3, 2, 0);
    assert CellOk(3, 3, Bar3, Full3, 2, 1);
    assert CellOk(3, 3, Bar3, Full3, 2, 2);
  }

  /** On the 3 by 3 torus a bar of three is no blinker: every cell neighbours every other, so the outer rows see three live cells and are born. */
  lemma Bar3FillsTorus()
    ensures NextGeneration(3, 3, Pattern(3, 3, Bar3)) == Pattern(3, 3, Full3)
  {
    Bar3FillsTorusRow0();
    Bar3FillsTorusRow1();
    Bar3FillsTorusRow2();
    assert RowsOk(3, 3, Bar3, Full3, 3);
    PatternStep(3, 3, Bar3, Full3);
  }

  /** Row 0 of Full3Dies, cell by cell. */
  lemma Full3DiesRow0()
    ensures RowOk(3, 3, Full3, {}, 0, 3)
  {
    assert CellOk(3, 3, Full3, {}, 0, 0);
    assert CellOk(3, 3, Full3, {}, 0, 1);
    assert CellOk(3, 3, Full3, {}, 0, 2);
  }

  /** Row 1 of Full3Dies, cell by cell. */
  lemma Full3DiesRow1()
    ensures RowOk(3, 3, Full3, {}, 1, 3)
  {
    assert CellOk(3, 3, Full3, {}, 1, 0);
    assert CellOk(3, 3, Full3, {}, 1, 1);
    assert CellOk(3, 3, Full3, {}, 1, 2);
  }

  /** Row 2 of Full3Dies, cell by cell. */
  lemma Full3DiesRow2()
    ensures RowOk(3, 3, Full3, {}, 2, 3)
  {
    assert CellOk(3, 3, Full3, {}, 2, 0);
    assert CellOk(3, 3, Full3, {}, 2, 1);
    assert CellOk(3, 3, Full3, {}, 2, 2);
  }

  /** A full 3 by 3 torus dies of overpopulation: every cell has eight live neighbours. */
  lemma Full3Dies()
    ensures NextGeneration(3, 3, Pattern(3, 3, Full3)) == Pattern(3, 3, {})
  {
    Full3DiesRow0();
    Full3DiesRow1();
    Full3DiesRow2();
    assert RowsOk(3, 3, Full3, {}, 3);
    PatternStep(3, 3, Full3, {});
  }

  /** A horizontal bar of three in the middle row of a 5 by 5 grid. */
  const Horizontal5: set<(nat, nat)> := {(2, 1), (2, 2), (2, 3)}

  /** The same bar turned vertical. */
  const Vertical5: set<(nat, nat)> := {(1, 2), (2, 2), (3, 2)}

  /** Row 0 of BlinkerTurnsVertical, cell by cell. */
  lemma BlinkerTurnsVerticalRow0()
    ensures RowOk(5, 5, Horizontal5, Vertical5, 0, 5)
  {
    assert CellOk(5, 5, Horizontal5, Vertical5, 0, 0);
    assert CellOk(5, 5, Horizontal5, Vertical5, 0, 1);
    assert CellOk(5, 5, Horizontal5, Vertical5, 0, 2);
    assert CellOk(5, 5, Horizontal5, Vertical5, 0, 3);
    assert CellOk(5, 5, Horizontal5, Vertical5, 0, 4);
  }

  /** Row 1 of BlinkerTurnsVertical, cell by cell. */
  lemma BlinkerTurnsVerticalRow1()
    ensures RowOk(5, 5, Horizontal5, Vertical5, 1, 5)
  {
    assert CellOk(5, 5, Horizontal5, Vertical5, 1, 0);
    assert CellOk(5, 5, Horizontal5, Vertical5, 1, 1);
    assert CellOk(5, 5, Horizontal5, Vertical5, 1, 2);
    assert CellOk(5, 5, Horizontal5, Vertical5, 1, 3);
    assert CellOk(5, 5, Horizontal5, Vertical5, 1, 4);
  }

  /** Row 2 of BlinkerTurnsVertical, cell by cell. */
  lemma BlinkerTurnsVerticalRow2()
    ensures RowOk(5, 5, Horizontal5, Vertical5, 2, 5)
  {
    assert CellOk(5, 5, Horizontal5, Vertical5, 2, 0);
    assert CellOk(5, 5, Horizontal5, Vertical5, 2, 1);
    assert CellOk(5, 5, Horizontal5, Vertical5, 2, 2);
    assert CellOk(5, 5, Horizontal5, Vertical5, 2, 3);
    assert CellOk(5, 5, Horizontal5, Vertical5, 2, 4);
  }

  /** Row 3 of BlinkerTurnsVertical, cell by cell. */
  lemma BlinkerTurnsVerticalRow3()
    ensures RowOk(5, 5, Horizontal5, Vertical5, 3, 5)
  {
    assert CellOk(5, 5, Horizontal5, Vertical5, 3, 0);
    assert CellOk(5, 5, Horizontal5, Vertical5, 3, 1);
    assert CellOk(5, 5, Horizontal5, Vertical5, 3, 2);
    assert CellOk(5, 5, Horizontal5, Vertical5, 3, 3);
    assert CellOk(5, 5, Horizontal5, Vertical5, 3, 4);
  }

  /** Row 4 of BlinkerTurnsVertical, cell by cell. */
  lemma BlinkerTurnsVerticalRow4()
    ensures RowOk(5, 5, Horizontal5, Vertical5, 4, 5)
  {
    assert CellOk(5, 5, Horizontal5, Vertical5, 4, 0);
    assert CellOk(5, 5, Horizontal5, Vertical5, 4, 1);
    assert CellOk(5, 5, Horizontal5, Vertical5, 4, 2);
    assert CellOk(5, 5, Horizontal5, Vertical5, 4, 3);
    assert CellOk(5, 5, Horizontal5, Vertical5, 4, 4);
  }

  /** The blinker: the horizontal bar becomes vertical. */
  lemma BlinkerTurnsVertical()
    ensures NextGeneration(5, 5, Pattern(5, 5, Horizontal5)) == Pattern(5, 5, Vertical5)
  {
    BlinkerTurnsVerticalRow0();
    BlinkerTurnsVerticalRow1();
    BlinkerTurnsVerticalRow2();
    BlinkerTurnsVerticalRow3();
    BlinkerTurnsVerticalRow4();
    assert RowsOk(5, 5, Horizontal5, Vertical5, 5);
    PatternStep(5, 5, Horizontal5, Vertical5);
  }

  /** Row 0 of BlinkerTurnsBack, cell by cell. */
  lemma BlinkerTurnsBackRow0()
    ensures RowOk(5, 5, Vertical5, Horizontal5, 0, 5)
  {
    assert CellOk(5, 5, Vertical5, Horizontal5, 0, 0);
    assert CellOk(5, 5, Vertical5, Horizontal5, 0, 1);
    assert CellOk(5, 5, Vertical5, Horizontal5, 0, 2);
    assert CellOk(5, 5, Vertical5, Horizontal5, 0, 3);
    assert CellOk(5, 5, Vertical5, Horizontal5, 0, 4);
  }

  /** Row 1 of BlinkerTurnsBack, cell by cell. */
  lemma BlinkerTurnsBackRow1()
    ensures RowOk(5, 5, Vertical5, Horizontal5, 1, 5)
  {
    assert CellOk(5, 5, Vertical5, Horizontal5, 1, 0);
    assert CellOk(5, 5, Vertical5, Horizontal5, 1, 1);
    assert CellOk(5, 5, Vertical5, Horizontal5, 1, 2);
    assert CellOk(5, 5, Vertical5, Horizontal5, 1, 3);
    assert CellOk(5, 5, Vertical5, Horizontal5, 1, 4);
  }

  /** Row 2 of BlinkerTurnsBack, cell by cell. */
  lemma BlinkerTurnsBackRow2()
    ensures RowOk(5, 5, Vertical5, Horizontal5, 2, 5)
  {
    assert CellOk(5, 5, Vertical5, Horizontal5, 2, 0);
    assert CellOk(5, 5, Vertical5, Horizontal5, 2, 1);
    assert CellOk(5, 5, Vertical5, Horizontal5, 2, 2);
    assert CellOk(5, 5, Vertical5, Horizontal5, 2, 3);
    assert CellOk(5, 5, Vertical5, Horizontal5, 2, 4);
  }

  /** Row 3 of BlinkerTurnsBack, cell by cell. */
  lemma BlinkerTurnsBackRow3()
    ensures RowOk(5, 5, Vertical5, Horizontal5, 3, 5)
  {
    assert CellOk(5, 5, Vertical5, Horizontal5, 3, 0);
    assert CellOk(5, 5, Vertical5, Horizontal5, 3, 1);
    assert CellOk(5, 5, Vertical5, Horizontal5, 3, 2);
    assert CellOk(5, 5, Vertical5, Horizontal5, 3, 3);
    assert CellOk(5, 5, Vertical5, Horizontal5, 3, 4);
  }

  /** Row 4 of BlinkerTurnsBack, cell by cell. */
  lemma BlinkerTurnsBackRow4()
    ensures RowOk(5, 5, Vertical5, Horizontal5, 4, 5)
  {
    assert CellOk(5, 5, Vertical5, Horizontal5, 4, 0);
    assert CellOk(5, 5, Vertical5, Horizontal5, 4, 1);
    assert CellOk(5, 5, Vertical5, Horizontal5, 4, 2);
    assert CellOk(5, 5, Vertical5, Horizontal5, 4, 3);
    assert CellOk(5, 5, Vertical5, Horizontal5, 4, 4);
  }

  /** The vertical bar becomes horizontal again. */
  lemma BlinkerTurnsBack()
    ensures NextGeneration(5, 5, Pattern(5, 5, Vertical5)) == Pattern(5, 5, Horizontal5)
  {
    BlinkerTurnsBackRow0();
    BlinkerTurnsBackRow1();
    BlinkerTurnsBackRow2();
    BlinkerTurnsBackRow3();
    BlinkerTurnsBackRow4();
    assert RowsOk(5, 5, Vertical5, Horizontal5, 5);
    PatternStep(5, 5, Vertical5, Horizontal5);
  }

  /** The blinker has period 2. */
  lemma BlinkerOscillates()
    ensures NextGeneration(5, 5, NextGeneration(5, 5, Pattern(5, 5, Horizontal5))) == Pattern(5, 5, Horizontal5)
  {
    BlinkerTurnsVertical();
    BlinkerTurnsBack();
  }

  /** A 2 by 2 block in the corner of a 4 by 4 grid. */
  const Block4: set<(nat, nat)> := {(0, 0), (0, 1), (1, 0), (1, 1)}

  /** Row 0 of BlockIsStill, cell by cell. */
  lemma BlockIsStillRow0()
    ensures RowOk(4, 4, Block4, Block4, 0, 4)
  {
    assert CellOk(4, 4, Block4, Block4, 0, 0);
    assert CellOk(4, 4, Block4, Block4, 0, 1);
    assert CellOk(4, 4, Block4, Block4, 0, 2);
    assert CellOk(4, 4, Block4, Block4, 0, 3);
  }

  /** Row 1 of BlockIsStill, cell by cell. */
  lemma BlockIsStillRow1()
    ensures RowOk(4, 4, Block4, Block4, 1, 4)
  {
    assert CellOk(4, 4, Block4, Block4, 1, 0);
    assert CellOk(4, 4, Block4, Block4, 1, 1);
    assert CellOk(4, 4, Block4, Block4, 1, 2);
    assert CellOk(4, 4, Block4, Block4, 1, 3);
  }

  /** Row 2 of BlockIsStill, cell by cell. */
  lemma BlockIsStillRow2()
    ensures RowOk(4, 4, Block4, Block4, 2, 4)
  {
    assert CellOk(4, 4, Block4, Block4, 2, 0);
    assert CellOk(4, 4, Block4, Block4, 2, 1);
    assert CellOk(4, 4, Block4, Block4, 2, 2);
    assert CellOk(4, 4, Block4, Block4, 2, 3);
  }

  /** Row 3 of BlockIsStill, cell by cell. */
  lemma BlockIsStillRow3()
    ensures RowOk(4, 4, Block4, Block4, 3, 4)
  {
    assert CellOk(4, 4, Block4, Block4, 3, 0);
    assert CellOk(4, 4, Block4, Block4, 3, 1);
    assert CellOk(4, 4, Block4, Block4, 3, 2);
    assert CellOk(4, 4, Block4, Block4, 3, 3);
  }

  /** The block is a still life: each block cell sees the three others and no dead cell sees three. */
  lemma BlockIsStill()
    ensures NextGeneration(4, 4, Pattern(4, 4, Block4)) == Pattern(4, 4, Block4)
  {
    BlockIsStillRow0();
    BlockIsStillRow1();
    BlockIsStillRow2();
    BlockIsStillRow3();
    assert RowsOk(4, 4, Block4, Block4, 4);
    PatternStep(4, 4, Block4, Block4);
  }

  /**
   * On a 1 by 1 grid both offset lists are [0, 0, 1], so four of the nine
   * pairs are skipped and the lone cell counts itself five times.
   */
  lemma OneByOneCountsItself()
    ensures NeighborCount(1, 1, [Alive], 0, 0) == 5
  {
  }

  /**
   * On a 2 by 2 grid the offsets width - 1 = 1 and +1 coincide: the one live cell to the
   * right of (0, 0) is counted twice.
   */
  lemma TwoByTwoCountsTwice()
    ensures NeighborCount(2, 2, [Dead, Alive, Dead, Dead], 0, 0) == 2
  {
  }

  /** Stop, then a timer tick: the grid stays as it was and nothing is redrawn. */
  method StoppedTickIsIdle(u: Universe)
    requires u.Valid()
    modifies u
    ensures u.Valid() && !u.active && u.cells == old(u.cells)
  {
    var r := u.Update(Stop);
    assert !r;
    r := u.Update(Tick);
    assert !r;
  }

  /** Start, then a timer tick: exactly one generation passes and the page is redrawn. */
  method RunningTickAdvances(u: Universe)
    requires u.Valid()
    modifies u
    ensures u.Valid() && u.active && u.cells == NextGeneration(SeedWidth, SeedHeight, old(u.cells))
  {
    var r := u.Update(Start);
    r := u.Update(Tick);
    assert r;
  }

  /** Toggling the same cell twice restores the grid. */
  method ToggleTwiceRestores(u: Universe, row: nat, col: nat)
    requires u.Valid() && Index(u.width, row, col) < |u.cells|
    modifies u
    ensures u.Valid() && u.cells == old(u.cells)
  {
    u.ToggleCellAt(row, col);
    u.ToggleCellAt(row, col);
    FlipTwice(old(u.cells), Index(u.width, row, col));
  }
}
