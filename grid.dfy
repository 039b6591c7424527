/**
 * The grid store's data: a row-major grid of optional jewels, grid[y][x],
 * and the cell-level operations shared by both board implementations
 * (game/models/board.py GridManager, game/models/board_.py Board).
 */
module Grids {
  import opened Wrappers
  import opened Jewels

  /** A cell holds at most one jewel; None is an empty cell. */
  type Cell = Option<Jewel>

  /** grid[y][x]: `height` rows of `width` cells. */
  type Grid = seq<seq<Cell>>

  /** A cell coordinate (x, y), as the source's tuples. */
  type Pos = (int, int)

  predicate Shaped(g: Grid, w: nat, h: nat)
  {
    |g| == h && forall y :: 0 <= y < h ==> |g[y]| == w
  }

  predicate InBounds(w: nat, h: nat, x: int, y: int)
  {
    0 <= x < w && 0 <= y < h
  }

  /** Cells p and q are orthogonal neighbours: one step apart in a row or in a column. */
  predicate Adjacent(p: Pos, q: Pos)
  {
    (p.0 == q.0 && (q.1 == p.1 + 1 || q.1 == p.1 - 1)) || (p.1 == q.1 && (q.0 == p.0 + 1 || q.0 == p.0 - 1))
  }

  /** Every placed jewel records its own cell as its logical position. */
  predicate Placed(g: Grid, w: nat, h: nat)
    requires Shaped(g, w, h)
  {
    forall y, x :: 0 <= y < h && 0 <= x < w && g[y][x].Some? ==>
      g[y][x].value.x == x && g[y][x].value.y == y
  }

  /** No empty cell. */
  predicate Full(g: Grid, w: nat, h: nat)
    requires Shaped(g, w, h)
  {
    forall y, x :: 0 <= y < h && 0 <= x < w ==> g[y][x].Some?
  }

  /** The grid with cell (x, y) replaced by c. */
  function Set(g: Grid, w: nat, h: nat, x: int, y: int, c: Cell): (r: Grid)
    requires Shaped(g, w, h) && InBounds(w, h, x, y)
    ensures Shaped(r, w, h)
    ensures forall yy, xx :: 0 <= yy < h && 0 <= xx < w ==>
      r[yy][xx] == if xx == x && yy == y then c else g[yy][xx]
  {
    g[y := g[y][x := c]]
  }

  /** get_jewel_at: the occupant of (x, y), or None outside the board. */
  function JewelAt(g: Grid, w: nat, h: nat, x: int, y: int): (r: Cell)
    requires Shaped(g, w, h)
    ensures !InBounds(w, h, x, y) ==> r.None?
    ensures InBounds(w, h, x, y) ==> r == g[y][x]
  {
    if InBounds(w, h, x, y) then g[y][x] else None
  }

  /**
   * The raw exchange `grid[y1][x1], grid[y2][x2] = grid[y2][x2], grid[y1][x1]`:
   * the occupants (or empties) trade places and nothing else changes.
   */
  function RawSwap(g: Grid, w: nat, h: nat, x1: int, y1: int, x2: int, y2: int): (r: Grid)
    requires Shaped(g, w, h) && InBounds(w, h, x1, y1) && InBounds(w, h, x2, y2)
    ensures Shaped(r, w, h)
    ensures r[y1][x1] == g[y2][x2] && r[y2][x2] == g[y1][x1]
    ensures forall yy, xx :: 0 <= yy < h && 0 <= xx < w && (xx, yy) != (x1, y1) && (xx, yy) != (x2, y2) ==>
      r[yy][xx] == g[yy][xx]
  {
    Set(Set(g, w, h, x1, y1, g[y2][x2]), w, h, x2, y2, g[y1][x1])
  }

  /**
   * GridManager.swap_jewels: when both cells are occupied their jewels
   * trade places, each takes its new cell as logical position and starts
   * a move animation; otherwise nothing changes.
   */
  function SwapJewels(g: Grid, w: nat, h: nat, x1: int, y1: int, x2: int, y2: int): (r: Grid)
    requires Shaped(g, w, h)
    ensures Shaped(r, w, h)
    ensures !BothOccupied(g, w, h, x1, y1, x2, y2) ==> r == g
    ensures BothOccupied(g, w, h, x1, y1, x2, y2) ==>
      && Still(r[y1][x1]) == Still(Some(g[y2][x2].value.(x := x1, y := y1)))
      && Still(r[y2][x2]) == Still(Some(g[y1][x1].value.(x := x2, y := y2)))
      && forall yy, xx :: 0 <= yy < h && 0 <= xx < w && (xx, yy) != (x1, y1) && (xx, yy) != (x2, y2) ==> r[yy][xx] == g[yy][xx]
    ensures Placed(g, w, h) ==> Placed(r, w, h)
  {
    var j1 := JewelAt(g, w, h, x1, y1);
    var j2 := JewelAt(g, w, h, x2, y2);
    if j1.Some? && j2.Some? then
      Set(Set(g, w, h, x1, y1, Some(MoveTo(j2.value, x1, y1))), w, h, x2, y2, Some(MoveTo(j1.value, x2, y2)))
    else g
  }

  /** Both cells are on the board and occupied. */
  predicate BothOccupied(g: Grid, w: nat, h: nat, x1: int, y1: int, x2: int, y2: int)
    requires Shaped(g, w, h)
  {
    JewelAt(g, w, h, x1, y1).Some? && JewelAt(g, w, h, x2, y2).Some?
  }

  /** A cell with its animation flag dropped: what is on the board, as a player sees it at rest. */
  function Still(c: Cell): Cell
  {
    if c.Some? then Some(c.value.(animating := false)) else None
  }

  /** The two grids hold the same jewels in the same cells, animations aside. */
  predicate SameArrangement(g1: Grid, g2: Grid, w: nat, h: nat)
    requires Shaped(g1, w, h) && Shaped(g2, w, h)
  {
    forall y, x :: 0 <= y < h && 0 <= x < w ==> Still(g1[y][x]) == Still(g2[y][x])
  }

  /**
   * swap_jewels applied twice to the same two cells restores the arrangement
   * (the involution the tentative swap of is_valid_swap relies on).
   */
  lemma SwapJewelsTwice(g: Grid, w: nat, h: nat, x1: int, y1: int, x2: int, y2: int)
    requires Shaped(g, w, h) && Placed(g, w, h)
    ensures SameArrangement(SwapJewels(SwapJewels(g, w, h, x1, y1, x2, y2), w, h, x1, y1, x2, y2), g, w, h)
  {
    var once := SwapJewels(g, w, h, x1, y1, x2, y2);
    var twice := SwapJewels(once, w, h, x1, y1, x2, y2);
    if BothOccupied(g, w, h, x1, y1, x2, y2) {
      assert BothOccupied(once, w, h, x1, y1, x2, y2);
      forall y, x | 0 <= y < h && 0 <= x < w
        ensures Still(twice[y][x]) == Still(g[y][x])
      {
      }
    }
  }

  /** The raw exchange undoes itself exactly (has_possible_moves' revert). */
  lemma RawSwapTwice(g: Grid, w: nat, h: nat, x1: int, y1: int, x2: int, y2: int)
    requires Shaped(g, w, h) && InBounds(w, h, x1, y1) && InBounds(w, h, x2, y2)
    ensures RawSwap(RawSwap(g, w, h, x1, y1, x2, y2), w, h, x1, y1, x2, y2) == g
  {
    var twice := RawSwap(RawSwap(g, w, h, x1, y1, x2, y2), w, h, x1, y1, x2, y2);
    forall y | 0 <= y < h ensures twice[y] == g[y] {
      assert |twice[y]| == |g[y]| == w;
      forall x | 0 <= x < w ensures twice[y][x] == g[y][x] { }
    }
  }
}
