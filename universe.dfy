/**
 * The universe object of the Game of Life page: a 53 by 40 torus of cells
 * held in one row-major buffer, a flag saying whether the simulation runs,
 * and the message handler that starts, stops, resets, edits and advances it.
 */
module LifeUniverse {
  import opened LifeRules

  /** The messages the page sends to the universe. */
  datatype Msg = Start | Stop | Reset | ToggleCell(idx: nat) | Tick

  /** Indices at which two equally long buffers differ, in increasing order. */
  method ChangedIndices(next: seq<Cell>, prev: seq<Cell>) returns (diff: seq<nat>)
    requires |next| == |prev|
    ensures forall i: nat :: i in diff <==> i < |next| && next[i] != prev[i]
    ensures forall a, b :: 0 <= a < b < |diff| ==> diff[a] < diff[b]
  {
    diff := [];
    for i := 0 to |next|
      invariant forall k: nat :: k in diff <==> k < i && next[k] != prev[k]
      invariant forall a, b :: 0 <= a < b < |diff| ==> diff[a] < diff[b]
      invariant forall a :: 0 <= a < |diff| ==> diff[a] < i
    {
      if next[i] != prev[i] {
        diff := diff + [i];
      }
    }
  }

  class Universe {
    var width: nat
    var height: nat
    var cells: seq<Cell>
    var active: bool

    /**
     * The object invariant. The dimensions are those of the seed, since
     * reset rebuilds a 53 by 40 buffer whatever the fields say.
     */
    ghost predicate Valid()
      reads this
      ensures Valid() ==> IsGrid(width, height, cells)
    {
      width == SeedWidth && height == SeedHeight && |cells| == width * height
    }

    /** A fresh universe: the seed pattern, not running. */
    constructor ()
      ensures Valid()
      ensures cells == Seed(SeedWidth * SeedHeight)
      ensures !active
    {
      width := SeedWidth;
      height := SeedHeight;
      cells := Seed(SeedWidth * SeedHeight);
      active := false;
    }

    function Width(): (w: nat)
      reads this
      requires Valid()
      ensures w == SeedWidth
    {
      width
    }

    function Height(): (h: nat)
      reads this
      requires Valid()
      ensures h == SeedHeight
    {
      height
    }

    /** A read-only view of the current generation, one cell per in-range coordinate pair. */
    function GetCells(): (s: seq<Cell>)
      reads this
      requires Valid()
      ensures |s| == Width() * Height()
      ensures forall row: nat, col: nat :: row < Height() && col < Width() ==> Index(Width(), row, col) < |s|
    {
      forall row: nat, col: nat | row < height && col < width
        ensures Index(width, row, col) < |cells|
      {
        IndexInBounds(width, height, row, col);
      }
      cells
    }

    /** The live neighbour count of (row, col), taken from the current cells only. */
    method LiveNeighborCount(row: nat, col: nat) returns (count: nat)
      requires IsGrid(width, height, cells)
      ensures count == NeighborCount(width, height, cells, row, col)
      ensures count <= 8
    {
      count := 0;
      var rowOffsets := Offsets(height);
      var colOffsets := Offsets(width);
      for i := 0 to 3
        invariant count == GridSum(width, height, cells, row, col, i)
      {
        var dRow := rowOffsets[i];
        for j := 0 to 3
          invariant count == GridSum(width, height, cells, row, col, i) + RowSum(width, height, cells, row, col, dRow, j)
        {
          var dCol := colOffsets[j];
          if dRow == 0 && dCol == 0 {
            continue;
          }
          var neighborRow := (row + dRow) % height;
          var neighborCol := (col + dCol) % width;
          IndexInBounds(width, height, neighborRow, neighborCol);
          var idx := Index(width, neighborRow, neighborCol);
          count := count + Value(cells[idx]);
        }
      }
    }

    /** Restores the seed pattern, whatever the cells were. */
    method Reset()
      requires Valid()
      modifies this`cells
      ensures Valid()
      ensures cells == Seed(SeedWidth * SeedHeight)
    {
      cells := Seed(SeedWidth * SeedHeight);
    }

    /**
     * Loads a pattern: the seed, with every in-range coordinate pair made
     * Alive. Pairs outside the grid are skipped.
     */
    method SetCells(coords: seq<(nat, nat)>)
      requires Valid()
      modifies this`cells
      ensures Valid()
      ensures forall i :: 0 <= i < |cells| ==>
        cells[i] == if i in Marked(width, height, coords) then Alive else Seed(SeedWidth * SeedHeight)[i]
    {
      Reset();
      for k := 0 to |coords|
        invariant Valid()
        invariant forall i :: 0 <= i < |cells| ==>
          cells[i] == if i in Marked(width, height, coords[..k]) then Alive else Seed(SeedWidth * SeedHeight)[i]
      {
        var (row, col) := coords[k];
        assert coords[..k + 1] == coords[..k] + [coords[k]];
        if row < height && col < width {
          IndexInBounds(width, height, row, col);
          var idx := Index(width, row, col);
          cells := cells[idx := Alive];
          assert Marked(width, height, coords[..k + 1]) == Marked(width, height, coords[..k]) + {idx};
        } else {
          assert Marked(width, height, coords[..k + 1]) == Marked(width, height, coords[..k]);
        }
      }
      assert coords[..|coords|] == coords;
    }

    /** Flips the cell at (row, col); the index must fall inside the buffer. */
    method ToggleCellAt(row: nat, col: nat)
      requires Valid()
      requires Index(width, row, col) < |cells|
      modifies this`cells
      ensures Valid()
      ensures cells == Flip(old(cells), Index(width, row, col))
    {
      var idx := Index(width, row, col);
      cells := cells[idx := Toggle(cells[idx])];
    }

    /**
     * Advances one generation. Every cell of the new buffer is computed from
     * the old buffer, which is replaced only at the end.
     */
    method Tick()
      requires IsGrid(width, height, cells)
      modifies this`cells
      ensures IsGrid(width, height, cells)
      ensures cells == NextGeneration(width, height, old(cells))
    {
      ghost var target := NextGeneration(width, height, cells);
      var next := cells;
      for row := 0 to height
        invariant cells == old(cells)
        invariant DoneUpTo(next, cells, target, Index(width, row, 0))
      {
        for col := 0 to width
          invariant cells == old(cells)
          invariant DoneUpTo(next, cells, target, Index(width, row, col))
        {
          IndexInBounds(width, height, row, col);
          var idx := Index(width, row, col);
          var cell := cells[idx];
          var liveNeighbors := LiveNeighborCount(row, col);
          TickStep(width, height, next, cells, target, row, col, liveNeighbors);
          next := next[idx := Rule(cell, liveNeighbors)];
        }
        assert Index(width, row, width) == Index(width, row + 1, 0);
      }
      DoneAll(next, cells, target, height, width);
      var diff := ChangedIndices(next, cells);
      cells := next;
    }

    /**
     * The message handler. Start and Stop set the running flag; Tick
     * advances only while it is set; Reset restores the seed; ToggleCell
     * flips one cell by its linear index. The result says whether the page
     * is redrawn.
     */
    method Update(msg: Msg) returns (redraw: bool)
      requires Valid()
      requires msg.ToggleCell? ==> msg.idx < |cells|
      modifies this`cells, this`active
      ensures Valid()
      ensures match msg
        case Start => active && cells == old(cells) && !redraw
        case Stop => !active && cells == old(cells) && !redraw
        case Reset => active == old(active) && cells == Seed(SeedWidth * SeedHeight) && redraw
        case ToggleCell(idx) => active == old(active) && cells == Flip(old(cells), idx) && redraw
        case Tick =>
          active == old(active) && redraw == old(active)
          && cells == if old(active) then NextGeneration(width, height, old(cells)) else old(cells)
    {
      match msg
      case Start =>
        active := true;
        redraw := false;
      case Reset =>
        Reset();
        redraw := true;
      case Stop =>
        active := false;
        redraw := false;
      case ToggleCell(idx) =>
        cells := cells[idx := Toggle(cells[idx])];
        redraw := true;
      case Tick =>
        if active {
          Tick();
          redraw := true;
        } else {
          redraw := false;
        }
    }
  }

  /**
   * The first n cells of next are those of the target generation, the rest
   * are still those of the previous one.
   */
  ghost predicate DoneUpTo(next: seq<Cell>, prev: seq<Cell>, target: seq<Cell>, n: nat)
  {
    && |next| == |prev| == |target|
    && n <= |next|
    && (forall k :: 0 <= k < n ==> next[k] == target[k])
    && (forall k :: n <= k < |next| ==> next[k] == prev[k])
  }

  /**
   * One step of the generation loop: writing the rule's verdict for (row, col)
   * at its index extends the finished prefix by one cell.
   */
  lemma TickStep(width: nat, height: nat, next: seq<Cell>, prev: seq<Cell>, target: seq<Cell>,
                 row: nat, col: nat, liveNeighbors: nat)
    requires IsGrid(width, height, prev) && row < height && col < width
    requires target == NextGeneration(width, height, prev)
    requires liveNeighbors == NeighborCount(width, height, prev, row, col)
    requires DoneUpTo(next, prev, target, Index(width, row, col))
    ensures Index(width, row, col) < |prev|
    ensures DoneUpTo(next[Index(width, row, col) := Rule(prev[Index(width, row, col)], liveNeighbors)],
                     prev, target, Index(width, row, col + 1))
  {
    NextGenerationAt(width, height, prev, row, col);
  }

  /** Once every row is finished, the buffer is the target generation. */
  lemma DoneAll(next: seq<Cell>, prev: seq<Cell>, target: seq<Cell>, height: nat, width: nat)
    requires |prev| == width * height
    requires DoneUpTo(next, prev, target, Index(width, height, 0))
    ensures next == target
  {
  }

  /** The linear indices of the in-range coordinate pairs among coords. */
  ghost function Marked(width: nat, height: nat, coords: seq<(nat, nat)>): set<nat>
  {
    set p | p in coords && p.0 < height && p.1 < width :: Index(width, p.0, p.1)
  }

  /**
   * An in-range coordinate pair is marked exactly when it occurs in coords:
   * distinct in-range pairs never share an index.
   */
  lemma MarkedExactly(width: nat, height: nat, coords: seq<(nat, nat)>, row: nat, col: nat)
    requires row < height && col < width
    ensures Index(width, row, col) in Marked(width, height, coords) <==> (row, col) in coords
  {
    if Index(width, row, col) in Marked(width, height, coords) {
      var p :| p in coords && p.0 < height && p.1 < width && Index(width, p.0, p.1) == Index(width, row, col);
      IndexInjective(width, p.0, p.1, row, col);
    }
  }
}
