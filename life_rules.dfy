/**
 * The pure part of the Game of Life engine: cells, row-major indexing,
 * the toroidal neighbour count exactly as the engine iterates it, the
 * birth/survival/death rule, one whole generation, and the seed pattern.
 */
module LifeRules {

  /** A cell; read as a number, Dead is 0 and Alive is 1. */
  datatype Cell = Dead | Alive

  /** The numeric value a cell contributes to a live count. */
  function Value(c: Cell): (v: nat)
    ensures v <= 1
    ensures v == 1 <==> c == Alive
  {
    match c
    case Dead => 0
    case Alive => 1
  }

  /** Flips a cell between Dead and Alive. */
  function Toggle(c: Cell): (r: Cell)
    ensures r != c
    ensures Value(r) + Value(c) == 1
  {
    match c
    case Dead => Alive
    case Alive => Dead
  }

  lemma ToggleInvolutive(c: Cell)
    ensures Toggle(Toggle(c)) == c
  {
  }

  /** The buffer with the cell at `i` flipped. */
  function Flip(cells: seq<Cell>, i: nat): (r: seq<Cell>)
    requires i < |cells|
    ensures |r| == |cells|
    ensures r[i] != cells[i]
    ensures forall j :: 0 <= j < |cells| && j != i ==> r[j] == cells[j]
  {
    cells[i := Toggle(cells[i])]
  }

  /** Flipping the same cell twice gives back the original buffer. */
  lemma FlipTwice(cells: seq<Cell>, i: nat)
    requires i < |cells|
    ensures Flip(Flip(cells, i), i) == cells
  {
    var once := Flip(cells, i);
    var twice := Flip(once, i);
    assert twice[i] == Toggle(once[i]) == Toggle(Toggle(cells[i]));
    ToggleInvolutive(cells[i]);
  }

  // ---------------------------------------------------------------------
  // Row-major indexing
  // ---------------------------------------------------------------------

  /**
   * The linear position of (row, col) in a row-major buffer of the given
   * width: row r occupies the width positions from r * width on.
   */
  function Index(width: nat, row: nat, col: nat): (i: nat)
    ensures row * width <= i
    ensures col < width ==> i < (row + 1) * width
  {
    row * width + col
  }

  /** In-range coordinates give an in-range index. */
  lemma IndexInBounds(width: nat, height: nat, row: nat, col: nat)
    requires row < height && col < width
    ensures Index(width, row, col) < width * height
  {
    calc {
      Index(width, row, col);
    ==
      row * width + col;
    <
      row * width + width;
    ==
      (row + 1) * width;
    <= { MulMonotone(row + 1, height, width); }
      height * width;
    }
  }

  lemma MulMonotone(a: nat, b: nat, c: nat)
    requires a <= b
    ensures a * c <= b * c
  {
  }

  /** An index determines its coordinates: division and remainder by the width recover them. */
  lemma IndexDecompose(width: nat, row: nat, col: nat)
    requires col < width
    ensures Index(width, row, col) / width == row
    ensures Index(width, row, col) % width == col
  {
    var i := Index(width, row, col);
    DivModUnique(i, width, row, col);
  }

  lemma DivModUnique(i: nat, n: nat, q: nat, r: nat)
    requires r < n && i == q * n + r
    ensures i / n == q && i % n == r
  {
    var q', r' := i / n, i % n;
    assert i == q' * n + r' && 0 <= r' < n;
    if q' < q {
      MulMonotone(q' + 1, q, n);
      assert false;
    } else if q < q' {
      MulMonotone(q + 1, q', n);
      assert false;
    }
  }

  /** Distinct in-range coordinates give distinct indices. */
  lemma IndexInjective(width: nat, r1: nat, c1: nat, r2: nat, c2: nat)
    requires c1 < width && c2 < width
    requires Index(width, r1, c1) == Index(width, r2, c2)
    ensures r1 == r2 && c1 == c2
  {
    IndexDecompose(width, r1, c1);
    IndexDecompose(width, r2, c2);
  }

  // ---------------------------------------------------------------------
  // Neighbour count, as the engine iterates it
  // ---------------------------------------------------------------------

  /** A buffer holds one cell per position of a grid of positive size. */
  predicate IsGrid(width: nat, height: nat, cells: seq<Cell>)
  {
    1 <= width && 1 <= height && |cells| == width * height
  }

  /**
   * The three offsets tried along a dimension of size n: n - 1 stands for
   * -1 once the sum is reduced modulo n, then 0, then +1.
   */
  function Offsets(n: nat): (s: seq<nat>)
    requires 1 <= n
    ensures |s| == 3 && s[1] == 0
  {
    [n - 1, 0, 1]
  }

  /**
   * What one offset pair adds to the count. The pair is skipped when both
   * offsets are 0, compared as offsets, not as neighbour positions.
   */
  function Term(width: nat, height: nat, cells: seq<Cell>, row: nat, col: nat, dRow: nat, dCol: nat): (v: nat)
    requires IsGrid(width, height, cells)
    ensures v <= 1
    ensures dRow == 0 && dCol == 0 ==> v == 0
  {
    if dRow == 0 && dCol == 0 then 0
    else
      var r := (row + dRow) % height;
      var c := (col + dCol) % width;
      IndexInBounds(width, height, r, c);
      Value(cells[Index(width, r, c)])
  }

  /** The sum of the terms of the first j column offsets for row offset dRow. */
  function RowSum(width: nat, height: nat, cells: seq<Cell>, row: nat, col: nat, dRow: nat, j: nat): (v: nat)
    requires IsGrid(width, height, cells) && j <= 3
    ensures v <= j
    ensures dRow == 0 && j >= 2 ==> v <= j - 1
  {
    if j == 0 then 0
    else RowSum(width, height, cells, row, col, dRow, j - 1) + Term(width, height, cells, row, col, dRow, Offsets(width)[j - 1])
  }

  /** The sum over the first i row offsets of the whole row of column offsets. */
  function GridSum(width: nat, height: nat, cells: seq<Cell>, row: nat, col: nat, i: nat): (v: nat)
    requires IsGrid(width, height, cells) && i <= 3
    ensures v <= 3 * i
    ensures i >= 2 ==> v <= 3 * i - 1
  {
    if i == 0 then 0
    else GridSum(width, height, cells, row, col, i - 1) + RowSum(width, height, cells, row, col, Offsets(height)[i - 1], 3)
  }

  /**
   * The live neighbour count the engine computes for (row, col): the sum of
   * the nine offset pairs, the pair (0, 0) skipped. At most 8, whatever the
   * grid size.
   */
  function NeighborCount(width: nat, height: nat, cells: seq<Cell>, row: nat, col: nat): (n: nat)
    requires IsGrid(width, height, cells)
    ensures n <= 8
  {
    GridSum(width, height, cells, row, col, 3)
  }

  // ---------------------------------------------------------------------
  // The torus, stated independently
  // ---------------------------------------------------------------------

  /** The row above, the row below, the column to the left and to the right, wrapping at the edges. */
  function Before(i: nat, n: nat): (r: nat)
    requires i < n
    ensures r < n
  {
    if i == 0 then n - 1 else i - 1
  }

  function After(i: nat, n: nat): (r: nat)
    requires i < n
    ensures r < n
  {
    if i + 1 == n then 0 else i + 1
  }

  /** The eight neighbours of an in-range cell on the torus, in the order the engine visits them. */
  function NeighborPositions(width: nat, height: nat, row: nat, col: nat): (ps: seq<(nat, nat)>)
    requires row < height && col < width
    ensures |ps| == 8
    ensures forall k :: 0 <= k < 8 ==> ps[k].0 < height && ps[k].1 < width
  {
    var up, down := Before(row, height), After(row, height);
    var left, right := Before(col, width), After(col, width);
    [(up, left), (up, col), (up, right),
     (row, left), (row, right),
     (down, left), (down, col), (down, right)]
  }

  /** The value of the cell at an in-range position. */
  function ValueAt(width: nat, height: nat, cells: seq<Cell>, p: (nat, nat)): (v: nat)
    requires IsGrid(width, height, cells) && p.0 < height && p.1 < width
    ensures v <= 1
  {
    IndexInBounds(width, height, p.0, p.1);
    Value(cells[Index(width, p.0, p.1)])
  }

  /** The number of live cells among the eight torus neighbours. */
  function TorusCount(width: nat, height: nat, cells: seq<Cell>, row: nat, col: nat): (n: nat)
    requires IsGrid(width, height, cells) && row < height && col < width
  {
    var ps := NeighborPositions(width, height, row, col);
    ValueAt(width, height, cells, ps[0]) + ValueAt(width, height, cells, ps[1])
      + ValueAt(width, height, cells, ps[2]) + ValueAt(width, height, cells, ps[3])
      + ValueAt(width, height, cells, ps[4]) + ValueAt(width, height, cells, ps[5])
      + ValueAt(width, height, cells, ps[6]) + ValueAt(width, height, cells, ps[7])
  }

  /** Reducing modulo n a sum below 2n subtracts n at most once. */
  lemma ModBelowTwice(a: nat, n: nat)
    requires 0 < n && a < 2 * n
    ensures a % n == if a < n then a else a - n
  {
    if a < n {
      DivModUnique(a, n, 0, a);
    } else {
      DivModUnique(a, n, 1, a - n);
    }
  }

  /** The position reached along a dimension of size n by the k-th offset. */
  function Shift(i: nat, n: nat, k: nat): (r: nat)
    requires i < n && k < 3
  {
    if k == 0 then Before(i, n) else if k == 1 then i else After(i, n)
  }

  /** Adding the k-th offset and reducing modulo n reaches Shift(i, n, k). */
  lemma OffsetWraps(i: nat, n: nat, k: nat)
    requires i < n && 2 <= n && k < 3
    ensures (i + Offsets(n)[k]) % n == Shift(i, n, k)
    ensures Offsets(n)[k] == 0 <==> k == 1
  {
    if k == 0 {
      ModBelowTwice(i + n - 1, n);
    } else if k == 1 {
      ModBelowTwice(i, n);
    } else {
      ModBelowTwice(i + 1, n);
    }
  }

  /** Every offset pair but the middle one adds the value of one shifted cell. */
  lemma TermIsShiftedCell(width: nat, height: nat, cells: seq<Cell>, row: nat, col: nat, a: nat, b: nat)
    requires IsGrid(width, height, cells) && 2 <= width && 2 <= height
    requires row < height && col < width && a < 3 && b < 3
    ensures Term(width, height, cells, row, col, Offsets(height)[a], Offsets(width)[b])
         == if a == 1 && b == 1 then 0
            else ValueAt(width, height, cells, (Shift(row, height, a), Shift(col, width, b)))
  {
    OffsetWraps(row, height, a);
    OffsetWraps(col, width, b);
  }

  /** The sum of one row of offset pairs, written out. */
  lemma RowSumUnfold(width: nat, height: nat, cells: seq<Cell>, row: nat, col: nat, dRow: nat)
    requires IsGrid(width, height, cells)
    ensures RowSum(width, height, cells, row, col, dRow, 3)
         == Term(width, height, cells, row, col, dRow, Offsets(width)[0])
          + Term(width, height, cells, row, col, dRow, Offsets(width)[1])
          + Term(width, height, cells, row, col, dRow, Offsets(width)[2])
  {
    assert RowSum(width, height, cells, row, col, dRow, 1)
        == Term(width, height, cells, row, col, dRow, Offsets(width)[0]);
  }

  /**
   * On every grid at least 2 by 2, the engine's count is the number of live
   * cells among the eight torus neighbours: the offset n - 1 acts as -1, so
   * the row above row 0 is the last row and the column left of column 0 is
   * the last column.
   */
  lemma NeighborCountIsTorusCount(width: nat, height: nat, cells: seq<Cell>, row: nat, col: nat)
    requires IsGrid(width, height, cells) && 2 <= width && 2 <= height
    requires row < height && col < width
    ensures NeighborCount(width, height, cells, row, col) == TorusCount(width, height, cells, row, col)
  {
    var rs := Offsets(height);
    assert GridSum(width, height, cells, row, col, 3)
        == RowSum(width, height, cells, row, col, rs[0], 3)
         + RowSum(width, height, cells, row, col, rs[1], 3)
         + RowSum(width, height, cells, row, col, rs[2], 3) by {
      assert GridSum(width, height, cells, row, col, 1) == RowSum(width, height, cells, row, col, rs[0], 3);
    }
    RowSumUnfold(width, height, cells, row, col, rs[0]);
    RowSumUnfold(width, height, cells, row, col, rs[1]);
    RowSumUnfold(width, height, cells, row, col, rs[2]);
    TermIsShiftedCell(width, height, cells, row, col, 0, 0);
    TermIsShiftedCell(width, height, cells, row, col, 0, 1);
    TermIsShiftedCell(width, height, cells, row, col, 0, 2);
    TermIsShiftedCell(width, height, cells, row, col, 1, 0);
    TermIsShiftedCell(width, height, cells, row, col, 1, 1);
    TermIsShiftedCell(width, height, cells, row, col, 1, 2);
    TermIsShiftedCell(width, height, cells, row, col, 2, 0);
    TermIsShiftedCell(width, height, cells, row, col, 2, 1);
    TermIsShiftedCell(width, height, cells, row, col, 2, 2);
  }

  /**
   * The engine's offset arithmetic wraps at the edges: from row 0 the offset
   * height - 1 reaches the last row, from the last row the offset 1 reaches
   * row 0, and likewise for columns; the term of that offset pair is the
   * value of the wrapped cell.
   */
  lemma NeighborsWrapAtEdges(width: nat, height: nat, cells: seq<Cell>, row: nat, col: nat)
    requires IsGrid(width, height, cells) && 2 <= width && 2 <= height
    requires row < height && col < width
    ensures (0 + Offsets(height)[0]) % height == height - 1
    ensures (height - 1 + Offsets(height)[2]) % height == 0
    ensures (0 + Offsets(width)[0]) % width == width - 1
    ensures (width - 1 + Offsets(width)[2]) % width == 0
    ensures Term(width, height, cells, 0, col, Offsets(height)[0], Offsets(width)[1])
         == ValueAt(width, height, cells, (height - 1, col))
    ensures Term(width, height, cells, height - 1, col, Offsets(height)[2], Offsets(width)[1])
         == ValueAt(width, height, cells, (0, col))
    ensures Term(width, height, cells, row, 0, Offsets(height)[1], Offsets(width)[0])
         == ValueAt(width, height, cells, (row, width - 1))
    ensures Term(width, height, cells, row, width - 1, Offsets(height)[1], Offsets(width)[2])
         == ValueAt(width, height, cells, (row, 0))
  {
    OffsetWraps(0, height, 0);
    OffsetWraps(height - 1, height, 2);
    OffsetWraps(0, width, 0);
    OffsetWraps(width - 1, width, 2);
    TermIsShiftedCell(width, height, cells, 0, col, 0, 1);
    TermIsShiftedCell(width, height, cells, height - 1, col, 2, 1);
    TermIsShiftedCell(width, height, cells, row, 0, 1, 0);
    TermIsShiftedCell(width, height, cells, row, width - 1, 1, 2);
  }

  /** On every grid at least 3 by 3, the eight neighbours are distinct and none is the cell itself. */
  lemma NeighborsDistinct(width: nat, height: nat, row: nat, col: nat)
    requires 3 <= width && 3 <= height && row < height && col < width
    ensures forall a, b :: 0 <= a < b < 8 ==>
      NeighborPositions(width, height, row, col)[a] != NeighborPositions(width, height, row, col)[b]
    ensures forall a :: 0 <= a < 8 ==> NeighborPositions(width, height, row, col)[a] != (row, col)
  {
    var up, down := Before(row, height), After(row, height);
    var left, right := Before(col, width), After(col, width);
    assert up != row && down != row && up != down;
    assert left != col && right != col && left != right;
  }

  // ---------------------------------------------------------------------
  // The rule and one generation
  // ---------------------------------------------------------------------

  /**
   * The next state of a cell from its state and its live neighbour count:
   * birth on exactly 3, survival on 2 or 3, death otherwise.
   */
  function Rule(cell: Cell, liveNeighbors: nat): (next: Cell)
    ensures cell == Alive && liveNeighbors < 2 ==> next == Dead
    ensures cell == Alive && (liveNeighbors == 2 || liveNeighbors == 3) ==> next == Alive
    ensures cell == Alive && liveNeighbors > 3 ==> next == Dead
    ensures cell == Dead && liveNeighbors == 3 ==> next == Alive
    ensures cell == Dead && liveNeighbors != 3 ==> next == Dead
    ensures next == Alive <==> liveNeighbors == 3 || (cell == Alive && liveNeighbors == 2)
  {
    match cell
    case Alive =>
      if liveNeighbors < 2 then Dead
      else if liveNeighbors == 2 || liveNeighbors == 3 then Alive
      else Dead  // more than 3
    case Dead =>
      if liveNeighbors == 3 then Alive else cell
  }

  /** The whole next generation, every cell computed from the previous generation only. */
  function NextGeneration(width: nat, height: nat, cells: seq<Cell>): (next: seq<Cell>)
    requires IsGrid(width, height, cells)
    ensures |next| == |cells|
  {
    seq(|cells|, i requires 0 <= i < |cells| =>
      Rule(cells[i], NeighborCount(width, height, cells, i / width, i % width)))
  }

  /** Cell by cell, the next generation applies the rule to the old cell and its old neighbour count. */
  lemma NextGenerationAt(width: nat, height: nat, cells: seq<Cell>, row: nat, col: nat)
    requires IsGrid(width, height, cells) && row < height && col < width
    ensures Index(width, row, col) < |cells|
    ensures NextGeneration(width, height, cells)[Index(width, row, col)]
         == Rule(cells[Index(width, row, col)], NeighborCount(width, height, cells, row, col))
  {
    IndexInBounds(width, height, row, col);
    IndexDecompose(width, row, col);
  }

  /** Every index of the buffer is the index of some in-range coordinate pair. */
  lemma IndexCovers(width: nat, height: nat, i: nat)
    requires 1 <= width && i < width * height
    ensures i / width < height && i % width < width
    ensures Index(width, i / width, i % width) == i
  {
    var q, r := i / width, i % width;
    assert i == q * width + r;
  }

  /** Two buffers hold the same cell at every torus neighbour of (row, col). */
  predicate NeighborsAgree(width: nat, height: nat, a: seq<Cell>, b: seq<Cell>, row: nat, col: nat)
    requires IsGrid(width, height, a) && IsGrid(width, height, b) && row < height && col < width
  {
    forall k :: 0 <= k < 8 ==>
      ValueAt(width, height, a, NeighborPositions(width, height, row, col)[k])
        == ValueAt(width, height, b, NeighborPositions(width, height, row, col)[k])
  }

  /**
   * Locality: on a grid at least 2 by 2, the next state of a cell depends only
   * on the cell and its eight neighbours in the previous generation; two
   * generations that agree there have the same successor there.
   */
  lemma NextGenerationIsLocal(width: nat, height: nat, a: seq<Cell>, b: seq<Cell>, row: nat, col: nat)
    requires IsGrid(width, height, a) && IsGrid(width, height, b) && 2 <= width && 2 <= height
    requires row < height && col < width
    requires Index(width, row, col) < |a| && a[Index(width, row, col)] == b[Index(width, row, col)]
    requires NeighborsAgree(width, height, a, b, row, col)
    ensures NextGeneration(width, height, a)[Index(width, row, col)]
         == NextGeneration(width, height, b)[Index(width, row, col)]
  {
    NextGenerationAt(width, height, a, row, col);
    NextGenerationAt(width, height, b, row, col);
    NeighborCountIsTorusCount(width, height, a, row, col);
    NeighborCountIsTorusCount(width, height, b, row, col);
    var ps := NeighborPositions(width, height, row, col);
    assert forall k :: 0 <= k < 8 ==> ValueAt(width, height, a, ps[k]) == ValueAt(width, height, b, ps[k]);
  }

  /** A live cell whose eight neighbours are all dead dies of underpopulation. */
  lemma LoneCellDies(width: nat, height: nat, cells: seq<Cell>, row: nat, col: nat)
    requires IsGrid(width, height, cells) && 2 <= width && 2 <= height
    requires row < height && col < width
    requires Index(width, row, col) < |cells| && cells[Index(width, row, col)] == Alive
    requires forall k :: 0 <= k < 8 ==> ValueAt(width, height, cells, NeighborPositions(width, height, row, col)[k]) == 0
    ensures NextGeneration(width, height, cells)[Index(width, row, col)] == Dead
  {
    NeighborCountIsTorusCount(width, height, cells, row, col);
    NextGenerationAt(width, height, cells, row, col);
  }

  // ---------------------------------------------------------------------
  // The seed pattern
  // ---------------------------------------------------------------------

  /** The grid every universe is created with and reset to. */
  const SeedWidth: nat := 53
  const SeedHeight: nat := 40

  /** Whether the seed makes the cell at linear index i Alive. */
  predicate SeedAlive(i: nat)
  {
    i % 9 == 0 || i % 7 == 0
  }

  /** The first n cells of the seed pattern. */
  function Seed(n: nat): (s: seq<Cell>)
    ensures |s| == n
    ensures forall i :: 0 <= i < n ==> (s[i] == Alive <==> SeedAlive(i))
  {
    seq(n, i requires 0 <= i < n => if SeedAlive(i) then Alive else Dead)
  }

  /** The seed pattern repeats every 63 = 9 * 7 cells. */
  lemma SeedPeriodic(n: nat, i: nat)
    requires i + 63 < n
    ensures Seed(n)[i] == Seed(n)[i + 63]
  {
    assert (i + 63) % 9 == i % 9 by { DivModUnique(i + 63, 9, i / 9 + 7, i % 9); }
    assert (i + 63) % 7 == i % 7 by { DivModUnique(i + 63, 7, i / 7 + 9, i % 7); }
  }
}
