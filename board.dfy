/**
 * The main board of game/models/board.py. GridManager owns the grid; Board
 * keeps the selection and the jewels whose destroy animation runs, and
 * reaches the grid through its grid manager. MatchFinder and GameRules
 * hold no state of their own: their operations are Matching.FindMatches,
 * Matching.HasPossibleMoves, Rules.IsValidSwap and Removal.RemoveMatches,
 * applied to the grid manager's grid.
 */
module MainBoard {
  import opened Wrappers
  import opened Jewels
  import opened Grids
  import opened Matching
  import opened GridStore
  import opened Removal
  import opened Rules
  import opened LocalCheck

  /** `height` rows of `width` empty cells. */
  function EmptyGrid(w: nat, h: nat): (g: Grid)
    ensures Shaped(g, w, h)
    ensures forall y, x :: 0 <= y < h && 0 <= x < w ==> g[y][x].None?
  {
    seq(h, _ => seq(w, _ => None))
  }

  /** What a click at (x, y) makes of the grid and the selection, and what select_jewel reports. */
  datatype SelectResult = SelectResult(grid: Grid, selected: Option<Pos>, success: bool, invalidPos: Option<Pos>)

  /**
   * select_jewel's five cases: a click on an empty or off-board cell changes
   * nothing; with nothing selected the cell becomes the selection; a click
   * on the selection deselects it; a click away from the selection moves
   * it; a click next to it commits the swap if the swap makes a match, and
   * otherwise reports the old cell after the tentative swap and its revert.
   */
  function SelectOutcome(g: Grid, w: nat, h: nat, sel: Option<Pos>, x: int, y: int): SelectResult
    requires Shaped(g, w, h)
  {
    if JewelAt(g, w, h, x, y).None? then SelectResult(g, sel, false, None)
    else if sel.None? then SelectResult(Mark(g, w, h, x, y, true), Some((x, y)), true, None)
    else if sel == Some((x, y)) then SelectResult(Mark(g, w, h, x, y, false), None, true, None)
    else
      var p := sel.value;
      if !Adjacent(p, (x, y)) then
        SelectResult(Mark(Mark(g, w, h, p.0, p.1, false), w, h, x, y, true), Some((x, y)), true, None)
      else if GlobalValid(g, w, h, p.0, p.1, x, y) then
        SelectResult(Grids.SwapJewels(Mark(g, w, h, p.0, p.1, false), w, h, p.0, p.1, x, y), None, true, None)
      else
        var touched := if BothOccupied(g, w, h, p.0, p.1, x, y) then TouchBoth(g, w, h, p.0, p.1, x, y) else g;
        SelectResult(Mark(touched, w, h, p.0, p.1, false), None, false, Some(p))
  }

  class GridManager {
    const width: nat
    const height: nat
    const factory: JewelFactory
    var grid: Grid

    /** The grid has the board's shape, its jewels know their cells, and the catalogue has enough types for fill_board never to run out of candidates. */
    ghost predicate Valid()
      reads this
    {
      Shaped(grid, width, height) && Placed(grid, width, height) && factory.TypeCount() >= 3
    }

    constructor (width: nat, height: nat, factory: JewelFactory)
      requires factory.TypeCount() >= 3
      ensures Valid()
      ensures this.width == width && this.height == height && this.factory == factory
      ensures grid == EmptyGrid(width, height)
    {
      this.width := width;
      this.height := height;
      this.factory := factory;
      grid := EmptyGrid(width, height);
    }

    /** fill_board: every cell gets a new catalogue jewel for its position; with avoidance the board holds no match. */
    method FillBoard(avoid: bool)
      modifies this
      requires Valid()
      ensures Valid()
      ensures forall y, x :: 0 <= y < height && 0 <= x < width ==> Fresh(grid[y][x], factory, x, y)
      ensures Full(grid, width, height)
      ensures avoid ==> Matches(grid, width, height) == []
    {
      var ok, r := FillGrid(grid, width, height, factory, avoid);
      grid := r;
      if avoid {
        NoEndingTripleNoMatches(grid, width, height);
      }
    }

    /** swap_jewels: reports whether both cells were occupied, and the grid becomes the exchanged one (or stays). */
    method SwapJewels(x1: int, y1: int, x2: int, y2: int) returns (swapped: bool)
      modifies this
      requires Valid()
      ensures Valid()
      ensures swapped == BothOccupied(old(grid), width, height, x1, y1, x2, y2)
      ensures grid == Grids.SwapJewels(old(grid), width, height, x1, y1, x2, y2)
    {
      swapped := BothOccupied(grid, width, height, x1, y1, x2, y2);
      grid := Grids.SwapJewels(grid, width, height, x1, y1, x2, y2);
    }

    /** collapse_columns: every column is replaced by its collapsed form. */
    method CollapseColumns()
      modifies this
      requires Valid()
      ensures Valid()
      ensures forall x :: 0 <= x < width ==> Column(grid, width, height, x) == Collapsed(Column(old(grid), width, height, x), x)
    {
      var r := GridStore.CollapseColumns(grid, width, height);
      CollapsedGridPlaced(grid, r, width, height);
      grid := r;
    }

    /** refill_board: every empty cell gets a spawned jewel, every occupied one is kept. */
    method RefillBoard()
      modifies this
      requires Valid()
      ensures Valid() && Full(grid, width, height)
      ensures forall y, x :: 0 <= y < height && 0 <= x < width ==>
        if old(grid)[y][x].Some? then grid[y][x] == old(grid)[y][x] else Spawned(grid[y][x], factory, x, y)
    {
      var ok, r := RefillGrid(grid, width, height, factory);
      grid := r;
    }
  }

  class Board {
    const gm: GridManager
    /** The cell of the selected jewel, if any. */
    var selected: Option<Pos>
    /** Removed jewels whose destroy animation is still to be played. */
    var animations: seq<Jewel>

    ghost predicate Valid()
      reads this, gm
    {
      gm.Valid()
    }

    /** A new board is filled with no match on it and nothing selected. */
    constructor (width: nat, height: nat, factory: JewelFactory)
      requires factory.TypeCount() >= 3
      ensures Valid() && fresh(gm)
      ensures gm.width == width && gm.height == height && gm.factory == factory
      ensures selected == None && animations == []
      ensures Full(gm.grid, width, height) && Matches(gm.grid, width, height) == []
      ensures forall y, x :: 0 <= y < height && 0 <= x < width ==> Fresh(gm.grid[y][x], factory, x, y)
    {
      gm := new GridManager(width, height, factory);
      selected := None;
      animations := [];
      new;
      gm.FillBoard(true);
    }

    /** fill_board: the grid manager's fill. */
    method FillBoard(avoid: bool)
      modifies gm
      requires Valid()
      ensures Valid() && Full(gm.grid, gm.width, gm.height)
      ensures forall y, x :: 0 <= y < gm.height && 0 <= x < gm.width ==> Fresh(gm.grid[y][x], gm.factory, x, y)
      ensures avoid ==> Matches(gm.grid, gm.width, gm.height) == []
    {
      gm.FillBoard(avoid);
    }

    /** find_matches: the match finder on the grid manager's grid; nothing changes. */
    method FindMatches() returns (matches: seq<seq<Pos>>)
      requires Valid()
      ensures matches == Matches(gm.grid, gm.width, gm.height)
      ensures forall i :: 0 <= i < |matches| ==>
        HorizontalMatch(gm.grid, gm.width, gm.height, matches[i]) || VerticalMatch(gm.grid, gm.width, gm.height, matches[i])
    {
      matches := Matching.FindMatches(gm.grid, gm.width, gm.height);
      MatchesWellFormed(gm.grid, gm.width, gm.height);
    }

    /** refill_board: the grid manager's refill. */
    method RefillBoard()
      modifies gm
      requires Valid()
      ensures Valid() && Full(gm.grid, gm.width, gm.height)
      ensures forall y, x :: 0 <= y < gm.height && 0 <= x < gm.width ==>
        if old(gm.grid)[y][x].Some? then gm.grid[y][x] == old(gm.grid)[y][x] else Spawned(gm.grid[y][x], gm.factory, x, y)
    {
      gm.RefillBoard();
    }

    /** is_valid_swap: GameRules.is_valid_swap on the grid manager's grid, animation side effect included. */
    method IsValidSwap(x1: int, y1: int, x2: int, y2: int) returns (valid: bool)
      modifies gm
      requires Valid()
      ensures Valid()
      ensures valid == GlobalValid(old(gm.grid), gm.width, gm.height, x1, y1, x2, y2)
      ensures gm.grid == if BothOccupied(old(gm.grid), gm.width, gm.height, x1, y1, x2, y2)
        then TouchBoth(old(gm.grid), gm.width, gm.height, x1, y1, x2, y2) else old(gm.grid)
    {
      var after;
      valid, after := Rules.IsValidSwap(gm.grid, gm.width, gm.height, x1, y1, x2, y2);
      gm.grid := after;
    }

    /**
     * swap_jewels: commits the exchange only when the swap test accepts it;
     * a rejected swap leaves the arrangement as it was (the test's
     * animation flags aside).
     */
    method SwapJewels(x1: int, y1: int, x2: int, y2: int) returns (done: bool)
      modifies gm
      requires Valid()
      ensures Valid()
      ensures done == GlobalValid(old(gm.grid), gm.width, gm.height, x1, y1, x2, y2)
      ensures done ==> gm.grid == Grids.SwapJewels(old(gm.grid), gm.width, gm.height, x1, y1, x2, y2)
      ensures !done ==> SameArrangement(gm.grid, old(gm.grid), gm.width, gm.height)
    {
      var valid := IsValidSwap(x1, y1, x2, y2);
      if !valid {
        return false;
      }
      SwapAfterTouch(old(gm.grid), gm.width, gm.height, x1, y1, x2, y2);
      var _ := gm.SwapJewels(x1, y1, x2, y2);
      done := true;
    }

    /**
     * select_jewel: the first click selects, a click on the selection
     * deselects, a click next to the selection tries the swap (committing
     * it, or rejecting it and reporting the old cell), and any other click
     * moves the selection. A click on an empty or off-board cell changes
     * nothing.
     */
    method SelectJewel(x: int, y: int) returns (success: bool, invalidPos: Option<Pos>)
      modifies this, gm
      requires Valid()
      ensures Valid() && animations == old(animations)
      ensures var o := SelectOutcome(old(gm.grid), gm.width, gm.height, old(selected), x, y);
        gm.grid == o.grid && selected == o.selected && success == o.success && invalidPos == o.invalidPos
    {
      var w, h := gm.width, gm.height;
      if JewelAt(gm.grid, w, h, x, y).None? {
        return false, None;
      }
      if selected.None? {
        selected := Some((x, y));
        gm.grid := Mark(gm.grid, w, h, x, y, true);
        return true, None;
      }
      var p := selected.value;
      if p == (x, y) {
        gm.grid := Mark(gm.grid, w, h, p.0, p.1, false);
        selected := None;
        return true, None;
      }
      if !Adjacent(p, (x, y)) {
        gm.grid := Mark(gm.grid, w, h, p.0, p.1, false);
        selected := Some((x, y));
        gm.grid := Mark(gm.grid, w, h, x, y, true);
        return true, None;
      }
      ghost var g := gm.grid;
      var valid := IsValidSwap(p.0, p.1, x, y);
      if valid {
        ghost var g1 := gm.grid;
        gm.grid := Mark(gm.grid, w, h, p.0, p.1, false);
        GlobalValidSameKinds(gm.grid, g, w, h, p.0, p.1, x, y);
        ghost var g2 := gm.grid;
        var _ := SwapJewels(p.0, p.1, x, y);
        MarkTouchCommute(g, w, h, p.0, p.1, x, y, false);
        SwapAfterTouch(Mark(g, w, h, p.0, p.1, false), w, h, p.0, p.1, x, y);
        selected := None;
        return true, None;
      } else {
        gm.grid := Mark(gm.grid, w, h, p.0, p.1, false);
        selected := None;
        return false, Some(p);
      }
    }

    /** deselect_jewel: the selected jewel (if any) loses its flag and nothing is selected. */
    method DeselectJewel()
      modifies this, gm
      requires Valid()
      ensures Valid() && selected == None && animations == old(animations)
      ensures gm.grid == if old(selected).Some?
        then Mark(old(gm.grid), gm.width, gm.height, old(selected).value.0, old(selected).value.1, false)
        else old(gm.grid)
    {
      if selected.Some? {
        gm.grid := Mark(gm.grid, gm.width, gm.height, selected.value.0, selected.value.1, false);
        selected := None;
      }
    }

    /**
     * remove_matches: GameRules.remove_matches on the grid manager's grid;
     * the removed jewels join the animation list in removal order.
     */
    method RemoveMatches(matches: seq<seq<Pos>>) returns (points: int, hist: map<int, int>, ghost order: seq<Pos>)
      modifies this, gm
      requires Valid() && AllOccupied(gm.grid, gm.width, gm.height, Flatten(matches))
      ensures Valid() && selected == old(selected)
      ensures forall y, x :: 0 <= y < gm.height && 0 <= x < gm.width ==>
        gm.grid[y][x] == if (x, y) in Flatten(matches) then None else old(gm.grid)[y][x]
      ensures points == SumPoints(old(gm.grid), gm.width, gm.height, Dedup(Flatten(matches)))
      ensures hist == Hist(old(gm.grid), gm.width, gm.height, Dedup(Flatten(matches)))
      ensures NoDup(order) && (forall p :: p in order <==> p in Flatten(matches)) && AllOccupied(old(gm.grid), gm.width, gm.height, order)
      ensures animations == old(animations) + Destroyed(old(gm.grid), gm.width, gm.height, order)
    {
      var r, removed;
      r, points, hist, removed, order := Removal.RemoveMatches(gm.grid, gm.width, gm.height, matches);
      gm.grid := r;
      animations := animations + removed;
    }
  }
}
