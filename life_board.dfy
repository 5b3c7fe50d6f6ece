/** The imperative side of examples/gol.cpp: `Board` holds its cells in a
    two-dimensional array, `nbors` and `next_gen` loop over it, and the main
    loop swaps a front and a back board. */
module LifeBoard {
  import opened LifeRules

  class Board {
    const cells: array2<Cell>

    ghost predicate Valid()
      reads this
    {
      cells.Length0 == H && cells.Length1 == W
    }

    /** The board's value: its H rows of W cells. */
    ghost function Grid(): (g: LifeRules.Grid)
      reads this, cells
      requires Valid()
      ensures WellFormed(g)
      ensures forall y, x :: 0 <= y < H && 0 <= x < W ==> g[y][x] == cells[y, x]
    {
      seq(H, y requires 0 <= y < H reads cells =>
        seq(W, x requires 0 <= x < W reads cells => cells[y, x]))
    }

    constructor (initial: LifeRules.Grid)
      requires WellFormed(initial)
      ensures Valid() && fresh(cells) && Grid() == initial
    {
      var a := new Cell[H, W]((y, x) requires 0 <= y < H && 0 <= x < W => initial[y][x]);
      cells := a;
      new;
      assert forall y | 0 <= y < H :: Grid()[y] == initial[y];
    }

    /** `Board::get_wrapped(y, x)`, read from the array. */
    function GetWrapped(y: int, x: int): (c: Cell)
      reads this, cells
      requires Valid()
      ensures c == LifeRules.GetWrapped(Grid(), y, x)
    {
      cells[Mod(y, H), Mod(x, W)]
    }

    /** `Board::nbors(y, x)`: counts the Alive cells at the eight offsets
        around `(y, x)`, skipping `(0, 0)`. */
    method Nbors(y: int, x: int) returns (result: int)
      requires Valid()
      ensures result == LiveNeighbours(Grid(), y, x)
      ensures 0 <= result <= 8
    {
      ghost var g := Grid();
      result := 0;
      var dy := -1;
      while dy <= 1
        invariant -1 <= dy <= 2
        invariant result == RowsCount(g, y, x, dy)
      {
        var dx := -1;
        while dx <= 1
          invariant -1 <= dx <= 2
          invariant result == RowsCount(g, y, x, dy) + RowCount(g, y, x, dy, dx)
        {
          if dx != 0 || dy != 0 {
            if GetWrapped(y + dy, x + dx) == Alive {
              result := result + 1;
            }
          }
          dx := dx + 1;
        }
        dy := dy + 1;
      }
      RowsCountIsLiveNeighbours(g, y, x);
    }
  }

  /** What the inner loop of `nbors` has counted in row `dy` when it reaches
      `dx`: the Alive cells at `(dy, d)` for `-1 <= d < dx`, skipping
      `(0, 0)`. */
  function RowCount(g: Grid, y: int, x: int, dy: int, dx: int): nat
    requires WellFormed(g) && -1 <= dx <= 2
    decreases dx + 1
  {
    if dx == -1 then 0
    else
      RowCount(g, y, x, dy, dx - 1)
        + (if dx - 1 != 0 || dy != 0 then AliveCount(g, y + dy, x + dx - 1) else 0)
  }

  /** What the outer loop of `nbors` has counted when it reaches row `dy`:
      the complete rows `-1 <= d < dy`. */
  function RowsCount(g: Grid, y: int, x: int, dy: int): nat
    requires WellFormed(g) && -1 <= dy <= 2
    decreases dy + 1
  {
    if dy == -1 then 0
    else RowsCount(g, y, x, dy - 1) + RowCount(g, y, x, dy - 1, 2)
  }

  /** The loops of `nbors` count exactly the Alive cells at the eight
      neighbour offsets. */
  lemma RowsCountIsLiveNeighbours(g: Grid, y: int, x: int)
    requires WellFormed(g)
    ensures RowsCount(g, y, x, 2) == LiveNeighbours(g, y, x)
  {
    assert CountAlive(g, y, x, 1) == RowCount(g, y, x, -1, 0);
    assert CountAlive(g, y, x, 2) == RowCount(g, y, x, -1, 1);
    assert CountAlive(g, y, x, 3) == RowCount(g, y, x, -1, 2);
    assert CountAlive(g, y, x, 4) - CountAlive(g, y, x, 3) == RowCount(g, y, x, 0, 0);
    assert CountAlive(g, y, x, 5) - CountAlive(g, y, x, 3) == RowCount(g, y, x, 0, 2);
    assert CountAlive(g, y, x, 6) - CountAlive(g, y, x, 5) == RowCount(g, y, x, 1, 0);
    assert CountAlive(g, y, x, 7) - CountAlive(g, y, x, 5) == RowCount(g, y, x, 1, 1);
    assert CountAlive(g, y, x, 8) - CountAlive(g, y, x, 5) == RowCount(g, y, x, 1, 2);
  }

  /** `next_gen(prev, next)`: writes every cell of `next` from `prev` alone,
      by the survival and birth rules; `prev` is left as it was. */
  method NextGen(prev: Board, next: Board)
    requires prev.Valid() && next.Valid() && prev.cells != next.cells
    modifies next.cells
    ensures next.Grid() == LifeRules.NextGen(old(prev.Grid()))
    ensures prev.Grid() == old(prev.Grid())
  {
    ghost var g := prev.Grid();
    var y := 0;
    while y < H
      invariant 0 <= y <= H
      invariant unchanged(prev.cells)
      invariant forall yy, xx :: 0 <= yy < y && 0 <= xx < W ==>
        next.cells[yy, xx] == NextCell(g, yy, xx)
    {
      var x := 0;
      while x < W
        invariant 0 <= x <= W
        invariant unchanged(prev.cells)
        invariant forall yy, xx :: 0 <= yy < y && 0 <= xx < W ==>
          next.cells[yy, xx] == NextCell(g, yy, xx)
        invariant forall xx :: 0 <= xx < x ==> next.cells[y, xx] == NextCell(g, y, xx)
      {
        var nbors := prev.Nbors(y, x);
        if prev.cells[y, x] == Alive {
          next.cells[y, x] := if nbors == 3 || nbors == 2 then Alive else Dead;
        } else {
          next.cells[y, x] := if nbors == 3 then Alive else Dead;
        }
        x := x + 1;
      }
      y := y + 1;
    }
    forall yy | 0 <= yy < H
      ensures next.Grid()[yy] == LifeRules.NextGen(g)[yy]
    {
    }
  }

  /** The main loop of examples/gol.cpp, run for `generations` steps: each
      step computes the back board `bb = 1 - fb` from the front board `fb`
      and then swaps them. The front board then holds that generation of the
      starting board, and `fb` stays 0 or 1. */
  method Run(boards: array<Board>, generations: nat) returns (fb: nat)
    requires boards.Length == 2
    requires boards[0].Valid() && boards[1].Valid() && boards[0].cells != boards[1].cells
    modifies boards[0].cells, boards[1].cells
    ensures fb == 0 || fb == 1
    ensures boards[fb].Grid() == Generations(old(boards[0].Grid()), generations)
  {
    fb := 0;
    var i := 0;
    while i < generations
      invariant 0 <= i <= generations
      invariant fb == 0 || fb == 1
      invariant boards[fb].Grid() == Generations(old(boards[0].Grid()), i)
    {
      var bb := 1 - fb;
      NextGen(boards[fb], boards[bb]);
      fb := bb;
      i := i + 1;
    }
  }
}
