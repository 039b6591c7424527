/**
 * The forked board of game/models/board_.py: one class that owns the grid,
 * the selection and the animation list. It differs from the main board in
 * its swap test, which looks only at runs through the two swapped cells
 * (LocalCheck.ForkIsValidSwap), and in remove_matches, which also shakes
 * the jewels next to the removed ones.
 */
module ForkBoard {
  import opened Wrappers
  import opened Jewels
  import opened Grids
  import opened Matching
  import opened GridStore
  import opened Removal
  import opened Rules
  import opened LocalCheck
  import MainBoard

  class Board {
    const width: nat
    const height: nat
    const factory: JewelFactory
    var grid: Grid
    /** The cell of the selected jewel, if any. */
    var selected: Option<Pos>
    /** Removed jewels whose destroy animation is still to be played. */
    var animations: seq<Jewel>

    ghost predicate Valid()
      reads this
    {
      Shaped(grid, width, height) && Placed(grid, width, height) && factory.TypeCount() >= 3
    }

    /** A new board is filled with no match on it and nothing selected. */
    constructor (width: nat, height: nat, factory: JewelFactory)
      requires factory.TypeCount() >= 3
      ensures Valid()
      ensures this.width == width && this.height == height && this.factory == factory
      ensures selected == None && animations == []
      ensures Full(grid, width, height) && Matches(grid, width, height) == []
      ensures forall y, x :: 0 <= y < height && 0 <= x < width ==> Fresh(grid[y][x], factory, x, y)
    {
      this.width := width;
      this.height := height;
      this.factory := factory;
      grid := MainBoard.EmptyGrid(width, height);
      selected := None;
      animations := [];
      new;
      FillBoard(true);
    }

    /** fill_board: every cell gets a new catalogue jewel for its position; with avoidance the board holds no match. */
    method FillBoard(avoid: bool)
      modifies this
      requires Valid()
      ensures Valid() && selected == old(selected) && animations == old(animations)
      ensures forall y, x :: 0 <= y < height && 0 <= x < width ==> Fresh(grid[y][x], factory, x, y)
      ensures Full(grid, width, height)
      ensures avoid ==> Matches(grid, width, height) == []
    {
      var ok, r := FillGrid(grid, width, height, factory, avoid);
      grid := r;
      if avoid {
        NoEndingTripleNoMatches(grid, width, height);
      }
    }

    /** is_valid_swap: the local run test; the grid is left exactly as it was. */
    method IsValidSwap(x1: int, y1: int, x2: int, y2: int) returns (valid: bool)
      modifies this
      requires Valid()
      ensures Valid() && grid == old(grid) && selected == old(selected) && animations == old(animations)
      ensures valid == LocalValid(grid, width, height, x1, y1, x2, y2)
    {
      var after;
      valid, after := ForkIsValidSwap(grid, width, height, x1, y1, x2, y2);
      grid := after;
    }

    /** swap_jewels: commits the exchange exactly when the local test accepts it; otherwise the grid is unchanged. */
    method SwapJewels(x1: int, y1: int, x2: int, y2: int) returns (done: bool)
      modifies this
      requires Valid()
      ensures Valid() && selected == old(selected) && animations == old(animations)
      ensures done == LocalValid(old(grid), width, height, x1, y1, x2, y2)
      ensures grid == if done then Grids.SwapJewels(old(grid), width, height, x1, y1, x2, y2) else old(grid)
    {
      var valid := IsValidSwap(x1, y1, x2, y2);
      if !valid {
        return false;
      }
      grid := Grids.SwapJewels(grid, width, height, x1, y1, x2, y2);
      done := true;
    }

    /**
     * select_jewel: the same click handling as the main board, with the
     * local swap test, which has no side effect on the grid.
     */
    method SelectJewel(x: int, y: int) returns (success: bool, invalidPos: Option<Pos>)
      modifies this
      requires Valid()
      ensures Valid() && animations == old(animations)
      ensures JewelAt(old(grid), width, height, x, y).None? ==>
        !success && invalidPos == None && selected == old(selected) && grid == old(grid)
      ensures JewelAt(old(grid), width, height, x, y).Some? && old(selected) == None ==>
        success && invalidPos == None && selected == Some((x, y)) && grid == Mark(old(grid), width, height, x, y, true)
      ensures JewelAt(old(grid), width, height, x, y).Some? && old(selected) == Some((x, y)) ==>
        success && invalidPos == None && selected == None && grid == Mark(old(grid), width, height, x, y, false)
      ensures JewelAt(old(grid), width, height, x, y).Some? && old(selected).Some? && old(selected) != Some((x, y)) ==>
        var p := old(selected).value;
        var g := old(grid);
        if !Adjacent(p, (x, y)) then
          success && invalidPos == None && selected == Some((x, y))
          && grid == Mark(Mark(g, width, height, p.0, p.1, false), width, height, x, y, true)
        else if LocalValid(g, width, height, p.0, p.1, x, y) then
          success && invalidPos == None && selected == None
          && grid == Grids.SwapJewels(Mark(g, width, height, p.0, p.1, false), width, height, p.0, p.1, x, y)
        else
          !success && invalidPos == Some(p) && selected == None && grid == Mark(g, width, height, p.0, p.1, false)
    {
      if JewelAt(grid, width, height, x, y).None? {
        return false, None;
      }
      if selected.None? {
        selected := Some((x, y));
        grid := Mark(grid, width, height, x, y, true);
        return true, None;
      }
      var p := selected.value;
      if p == (x, y) {
        grid := Mark(grid, width, height, p.0, p.1, false);
        selected := None;
        return true, None;
      }
      if !Adjacent(p, (x, y)) {
        grid := Mark(grid, width, height, p.0, p.1, false);
        selected := Some((x, y));
        grid := Mark(grid, width, height, x, y, true);
        return true, None;
      }
      ghost var g := grid;
      var valid := IsValidSwap(p.0, p.1, x, y);
      if valid {
        grid := Mark(grid, width, height, p.0, p.1, false);
        LocalValidSameKinds(grid, g, width, height, p.0, p.1, x, y);
        var _ := SwapJewels(p.0, p.1, x, y);
        selected := None;
        return true, None;
      } else {
        grid := Mark(grid, width, height, p.0, p.1, false);
        selected := None;
        return false, Some(p);
      }
    }

    /** deselect_jewel: the selected jewel (if any) loses its flag and nothing is selected. */
    method DeselectJewel()
      modifies this
      requires Valid()
      ensures Valid() && selected == None && animations == old(animations)
      ensures grid == if old(selected).Some?
        then Mark(old(grid), width, height, old(selected).value.0, old(selected).value.1, false)
        else old(grid)
    {
      if selected.Some? {
        grid := Mark(grid, width, height, selected.value.0, selected.value.1, false);
        selected := None;
      }
    }

    /** find_matches: the fork's copy of the row-then-column scan. */
    method FindMatches() returns (matches: seq<seq<Pos>>)
      requires Valid()
      ensures matches == Matches(grid, width, height)
    {
      matches := Matching.FindMatches(grid, width, height);
    }

    /**
     * remove_matches: the distinct matched cells are collected with the
     * histogram; every occupied, unmatched neighbour of a matched cell is
     * shaken (the list records the shakes in order); the matched jewels
     * join the animation list and their cells are emptied.
     */
    method RemoveMatches(matches: seq<seq<Pos>>) returns (points: int, hist: map<int, int>, shaken: seq<Pos>, ghost order: seq<Pos>)
      modifies this
      requires Valid() && AllOccupied(grid, width, height, Flatten(matches))
      ensures Valid() && selected == old(selected)
      ensures forall y, x :: 0 <= y < height && 0 <= x < width ==>
        grid[y][x] == if (x, y) in Flatten(matches) then None else old(grid)[y][x]
      ensures points == SumPoints(old(grid), width, height, Dedup(Flatten(matches)))
      ensures hist == Hist(old(grid), width, height, Dedup(Flatten(matches)))
      ensures forall q :: q in shaken <==>
        Occupied(old(grid), width, height, q) && q !in Flatten(matches) && exists p :: p in Flatten(matches) && Adjacent(p, q)
      ensures NoDup(order) && (forall p :: p in order <==> p in Flatten(matches)) && AllOccupied(old(grid), width, height, order)
      ensures animations == old(animations) + Destroyed(old(grid), width, height, order)
    {
      var toRemove;
      toRemove, hist := CollectMatched(grid, width, height, matches);
      shaken := ShakeNeighbours(grid, width, height, toRemove);
      var r, removed;
      r, points, removed, order := ClearCells(grid, width, height, toRemove);
      SumPointsOrderFree(grid, width, height, Dedup(Flatten(matches)), order);
      grid := r;
      animations := animations + removed;
    }

    /** collapse_columns: every column is replaced by its collapsed form. */
    method CollapseColumns()
      modifies this
      requires Valid()
      ensures Valid() && selected == old(selected) && animations == old(animations)
      ensures forall x :: 0 <= x < width ==> Column(grid, width, height, x) == Collapsed(Column(old(grid), width, height, x), x)
    {
      var r := GridStore.CollapseColumns(grid, width, height);
      CollapsedGridPlaced(grid, r, width, height);
      grid := r;
    }

    /** refill_board: exactly the empty cells get spawned jewels. */
    method RefillBoard()
      modifies this
      requires Valid()
      ensures Valid() && Full(grid, width, height) && selected == old(selected) && animations == old(animations)
      ensures forall y, x :: 0 <= y < height && 0 <= x < width ==>
        if old(grid)[y][x].Some? then grid[y][x] == old(grid)[y][x] else Spawned(grid[y][x], factory, x, y)
    {
      var ok, r := RefillGrid(grid, width, height, factory);
      grid := r;
    }
  }
}
