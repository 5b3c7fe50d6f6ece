/** Conway's Game of Life on the toroidal W×H board of examples/gol.cpp,
    stated on board values: a board is H rows of W cells. */
module LifeRules {

  const W: nat := 5
  const H: nat := 5

  datatype Cell = Dead | Alive

  type Grid = seq<seq<Cell>>

  /** H rows of W cells each, as `Cell cells[H][W]`. */
  predicate WellFormed(g: Grid) {
    |g| == H && forall y :: 0 <= y < H ==> |g[y]| == W
  }

  /** `aids::mod(a, n)`, taken to be the remainder in `[0, n)`. */
  function Mod(a: int, n: int): (r: int)
    requires n > 0
    ensures 0 <= r < n
    ensures 0 <= a < n ==> r == a
    ensures -n <= a < 0 ==> r == a + n
    ensures n <= a < 2 * n ==> r == a - n
  {
    assert -n <= a < 0 ==> a == -1 * n + (a + n);
    assert n <= a < 2 * n ==> a == 1 * n + (a - n);
    a % n
  }

  /** `Board::get_wrapped(y, x)`: coordinates wrap around the torus. */
  function GetWrapped(g: Grid, y: int, x: int): Cell
    requires WellFormed(g)
  {
    g[Mod(y, H)][Mod(x, W)]
  }

  /** One step off the board on either side lands on the opposite edge. */
  lemma GetWrappedTorus(g: Grid, y: int, x: int)
    requires WellFormed(g)
    requires -1 <= y <= H && -1 <= x <= W
    ensures var wy := if y == -1 then H - 1 else if y == H then 0 else y;
      var wx := if x == -1 then W - 1 else if x == W then 0 else x;
      GetWrapped(g, y, x) == g[wy][wx]
  {
  }

  /** The eight offsets `(dy, dx)` that `Board::nbors` visits, in the order
      of its loops: every pair in {-1, 0, 1}² except (0, 0). */
  const NeighbourOffsets: seq<(int, int)> :=
    [(-1, -1), (-1, 0), (-1, 1), (0, -1), (0, 1), (1, -1), (1, 0), (1, 1)]

  /** 1 if the (wrapped) cell at `(y, x)` is Alive, else 0. */
  function AliveCount(g: Grid, y: int, x: int): nat
    requires WellFormed(g)
  {
    if GetWrapped(g, y, x) == Alive then 1 else 0
  }

  /** The number of Alive cells at the first `k` of the neighbour offsets
      of `(y, x)`. */
  function CountAlive(g: Grid, y: int, x: int, k: nat): (n: nat)
    requires WellFormed(g) && k <= |NeighbourOffsets|
    ensures n <= k
  {
    if k == 0 then 0
    else
      var (dy, dx) := NeighbourOffsets[k - 1];
      CountAlive(g, y, x, k - 1) + AliveCount(g, y + dy, x + dx)
  }

  /** The number of Alive neighbours of `(y, x)`. */
  function LiveNeighbours(g: Grid, y: int, x: int): (n: nat)
    requires WellFormed(g)
    ensures n <= 8
  {
    CountAlive(g, y, x, |NeighbourOffsets|)
  }

  /** The fate of one cell: an Alive cell survives with 2 or 3 neighbours,
      a Dead one is born with exactly 3. */
  function Rule(c: Cell, n: nat): Cell {
    if c == Alive then (if n == 3 || n == 2 then Alive else Dead)
    else (if n == 3 then Alive else Dead)
  }

  /** The cell at `(y, x)` of the next generation. */
  function NextCell(g: Grid, y: nat, x: nat): Cell
    requires WellFormed(g) && y < H && x < W
  {
    Rule(g[y][x], LiveNeighbours(g, y, x))
  }

  /** The next generation of the whole board. */
  function NextGen(g: Grid): (r: Grid)
    requires WellFormed(g)
    ensures WellFormed(r)
  {
    seq(H, y requires 0 <= y < H => seq(W, x requires 0 <= x < W => NextCell(g, y, x)))
  }

  /** The board after `n` generations. */
  function Generations(g: Grid, n: nat): (r: Grid)
    requires WellFormed(g)
    ensures WellFormed(r)
  {
    if n == 0 then g else NextGen(Generations(g, n - 1))
  }

  /** The board on which every cell is Dead. */
  function AllDead(): (g: Grid)
    ensures WellFormed(g)
  {
    seq(H, _ => seq(W, _ => Dead))
  }

  /** Survival and birth: an Alive cell stays Alive iff it has 2 or 3 Alive
      neighbours, and a Dead cell becomes Alive iff it has exactly 3. */
  lemma SurvivalAndBirth(g: Grid, y: nat, x: nat)
    requires WellFormed(g) && y < H && x < W
    ensures var n := LiveNeighbours(g, y, x);
      (g[y][x] == Alive ==> (NextGen(g)[y][x] == Alive <==> n == 2 || n == 3)) &&
      (g[y][x] == Dead ==> (NextGen(g)[y][x] == Alive <==> n == 3))
  {
  }

  /** The neighbour offsets are the eight pairs in {-1, 0, 1}² other than
      (0, 0), each once. */
  lemma OffsetsAreNeighbours()
    ensures |NeighbourOffsets| == 8
    ensures forall k :: 0 <= k < |NeighbourOffsets| ==>
      var (dy, dx) := NeighbourOffsets[k];
      -1 <= dy <= 1 && -1 <= dx <= 1 && (dy, dx) != (0, 0)
    ensures forall i, j :: 0 <= i < j < |NeighbourOffsets| ==> NeighbourOffsets[i] != NeighbourOffsets[j]
  {
  }

  /** A proper offset from an on-board cell never wraps back to that cell. */
  lemma NeighbourIsNotSelf(y: nat, x: nat, dy: int, dx: int)
    requires y < H && x < W
    requires -1 <= dy <= 1 && -1 <= dx <= 1 && (dy, dx) != (0, 0)
    ensures Mod(y + dy, H) != y || Mod(x + dx, W) != x
  {
  }

  /** Counting neighbours ignores the cell `(y, x)` itself. */
  lemma {:induction false} CountIgnoresSelf(g: Grid, y: nat, x: nat, c: Cell, k: nat)
    requires WellFormed(g) && y < H && x < W && k <= |NeighbourOffsets|
    ensures WellFormed(g[y := g[y][x := c]])
    ensures CountAlive(g[y := g[y][x := c]], y, x, k) == CountAlive(g, y, x, k)
  {
    if k > 0 {
      var (dy, dx) := NeighbourOffsets[k - 1];
      CountIgnoresSelf(g, y, x, c, k - 1);
      OffsetsAreNeighbours();
      NeighbourIsNotSelf(y, x, dy, dx);
    }
  }

  /** The cell itself is never counted among its neighbours: changing it
      leaves its neighbour count as it was. */
  lemma SelfNotCounted(g: Grid, y: nat, x: nat, c: Cell)
    requires WellFormed(g) && y < H && x < W
    ensures WellFormed(g[y := g[y][x := c]])
    ensures LiveNeighbours(g[y := g[y][x := c]], y, x) == LiveNeighbours(g, y, x)
  {
    CountIgnoresSelf(g, y, x, c, |NeighbourOffsets|);
  }

  /** On an all-Dead board nothing is counted. */
  lemma {:induction false} CountOnDeadBoard(y: int, x: int, k: nat)
    requires k <= |NeighbourOffsets|
    ensures CountAlive(AllDead(), y, x, k) == 0
  {
    if k > 0 {
      CountOnDeadBoard(y, x, k - 1);
    }
  }

  /** An all-Dead board stays all-Dead. */
  lemma DeadBoardStaysDead()
    ensures NextGen(AllDead()) == AllDead()
  {
    var g := AllDead();
    forall y, x | 0 <= y < H && 0 <= x < W
      ensures NextGen(g)[y][x] == Dead
    {
      CountOnDeadBoard(y, x, |NeighbourOffsets|);
    }
    forall y | 0 <= y < H
      ensures NextGen(g)[y] == g[y]
    {
    }
  }
}
