/**
 * The grid store's whole-board operations (GridManager in
 * game/models/board.py; the same loops in the forked Board of
 * game/models/board_.py): the fill that avoids triples, gravity on every
 * column, and the refill of empty cells.
 */
module GridStore {
  import opened Wrappers
  import opened Jewels
  import opened Grids
  import opened Matching

  /** The type two cells share, or None when they differ or are both empty. */
  function PairKind(a: Cell, b: Cell): (r: Option<int>)
    ensures r.Some? <==> a.Some? && b.Some? && a.value.kind == b.value.kind
    ensures r.Some? ==> r.value == a.value.kind
  {
    if KindOf(a) == KindOf(b) then KindOf(a) else None
  }

  /**
   * The candidate types fill_board offers for cell (x, y): every catalogue
   * type, less (when avoiding matches) the type the two cells to the left
   * share and the type the two cells above share.
   */
  predicate Allowed(g: Grid, w: nat, h: nat, x: int, y: int, k: int, count: nat, avoid: bool)
    requires Shaped(g, w, h) && InBounds(w, h, x, y)
  {
    && 0 <= k < count
    && (avoid ==>
          && (x < 2 || PairKind(g[y][x - 1], g[y][x - 2]) != Some(k))
          && (y < 2 || PairKind(g[y - 1][x], g[y - 2][x]) != Some(k)))
  }

  /** Three occupied cells holding one type. */
  predicate SameThree(a: Cell, b: Cell, c: Cell)
  {
    a.Some? && KindOf(a) == KindOf(b) && KindOf(b) == KindOf(c)
  }

  /** Cell (x, y) completes a triple with the two cells to its left or the two cells above it. */
  predicate EndsTriple(g: Grid, w: nat, h: nat, x: int, y: int)
    requires Shaped(g, w, h) && InBounds(w, h, x, y)
  {
    (x >= 2 && SameThree(g[y][x - 2], g[y][x - 1], g[y][x]))
    || (y >= 2 && SameThree(g[y - 2][x], g[y - 1][x], g[y][x]))
  }

  /** Cell c holds a jewel fresh from the factory for cell (x, y). */
  predicate Fresh(c: Cell, f: JewelFactory, x: int, y: int)
  {
    c.Some? && 0 <= c.value.kind < f.TypeCount()
    && c.value == NewJewel(c.value.kind, x, y, f.configs[c.value.kind])
  }

  /** Cell (yy, xx) comes before (y, x) in the row-major order of the fill. */
  predicate Before(yy: int, xx: int, y: int, x: int)
  {
    yy < y || (yy == y && xx < x)
  }

  /** Every cell before (y, x) in fill order holds a fresh jewel and, when avoiding matches, completes no triple. */
  predicate FilledBefore(r: Grid, w: nat, h: nat, f: JewelFactory, avoid: bool, y: int, x: int)
    requires Shaped(r, w, h)
  {
    forall yy, xx :: 0 <= yy < h && 0 <= xx < w && Before(yy, xx, y, x) ==>
      Fresh(r[yy][xx], f, xx, yy) && (avoid ==> !EndsTriple(r, w, h, xx, yy))
  }

  /** Placing a fresh jewel of a candidate type at (x, y) extends the filled prefix by one cell. */
  lemma PlaceExtends(g: Grid, w: nat, h: nat, f: JewelFactory, avoid: bool, x: int, y: int, j: Jewel)
    requires Shaped(g, w, h) && InBounds(w, h, x, y) && FilledBefore(g, w, h, f, avoid, y, x)
    requires Fresh(Some(j), f, x, y) && Allowed(g, w, h, x, y, j.kind, f.TypeCount(), avoid)
    ensures FilledBefore(Set(g, w, h, x, y, Some(j)), w, h, f, avoid, y, x + 1)
  {
    var r := Set(g, w, h, x, y, Some(j));
    forall yy, xx | 0 <= yy < h && 0 <= xx < w && Before(yy, xx, y, x + 1)
      ensures Fresh(r[yy][xx], f, xx, yy) && (avoid ==> !EndsTriple(r, w, h, xx, yy))
    {
      if yy == y && xx == x {
        NewCellEndsNoTriple(g, w, h, f, avoid, x, y, j);
      } else {
        assert Before(yy, xx, y, x);
        SameBefore(g, w, h, x, y, Some(j), xx, yy);
      }
    }
  }

  /** The new jewel of a candidate type does not complete a triple. */
  lemma NewCellEndsNoTriple(g: Grid, w: nat, h: nat, f: JewelFactory, avoid: bool, x: int, y: int, j: Jewel)
    requires Shaped(g, w, h) && InBounds(w, h, x, y)
    requires Allowed(g, w, h, x, y, j.kind, f.TypeCount(), avoid)
    ensures avoid ==> !EndsTriple(Set(g, w, h, x, y, Some(j)), w, h, x, y)
  {
    var r := Set(g, w, h, x, y, Some(j));
    if x >= 2 {
      assert r[y][x - 1] == g[y][x - 1] && r[y][x - 2] == g[y][x - 2];
    }
    if y >= 2 {
      assert r[y - 1][x] == g[y - 1][x] && r[y - 2][x] == g[y - 2][x];
    }
  }

  /** Writing cell (x, y) leaves every cell before it, and the triple test there, as they were. */
  lemma SameBefore(g: Grid, w: nat, h: nat, x: int, y: int, c: Cell, xx: int, yy: int)
    requires Shaped(g, w, h) && InBounds(w, h, x, y) && InBounds(w, h, xx, yy) && Before(yy, xx, y, x)
    ensures Set(g, w, h, x, y, c)[yy][xx] == g[yy][xx]
    ensures EndsTriple(Set(g, w, h, x, y, c), w, h, xx, yy) == EndsTriple(g, w, h, xx, yy)
  {
    var r := Set(g, w, h, x, y, c);
    if xx >= 2 {
      assert r[yy][xx - 1] == g[yy][xx - 1] && r[yy][xx - 2] == g[yy][xx - 2];
    }
    if yy >= 2 {
      assert r[yy - 1][xx] == g[yy - 1][xx] && r[yy - 2][xx] == g[yy - 2][xx];
    }
  }

  /** With three types, or with one type and no avoidance, some candidate remains. */
  lemma CandidateExists(g: Grid, w: nat, h: nat, x: int, y: int, count: nat, avoid: bool)
    requires Shaped(g, w, h) && InBounds(w, h, x, y)
    requires count >= 3 || (!avoid && count >= 1)
    ensures exists k :: Allowed(g, w, h, x, y, k, count, avoid)
  {
    if count >= 3 {
      assert Allowed(g, w, h, x, y, 0, count, avoid) || Allowed(g, w, h, x, y, 1, count, avoid)
        || Allowed(g, w, h, x, y, 2, count, avoid);
    } else {
      assert Allowed(g, w, h, x, y, 0, count, avoid);
    }
  }

  /**
   * fill_board: visit the cells row by row, left to right, and put a new
   * jewel of a randomly chosen candidate type in each. random.choice on an
   * empty candidate list raises; `ok` is false exactly when that happened
   * and the fill stopped there. With at least three types the candidate list
   * is never empty (at most two types are struck out), and without
   * avoidance one type suffices.
   */
  method FillGrid(g: Grid, w: nat, h: nat, f: JewelFactory, avoid: bool) returns (ok: bool, r: Grid)
    requires Shaped(g, w, h)
    ensures Shaped(r, w, h)
    ensures f.TypeCount() >= 3 ==> ok
    ensures !avoid && f.TypeCount() >= 1 ==> ok
    ensures ok ==> forall y, x :: 0 <= y < h && 0 <= x < w ==> Fresh(r[y][x], f, x, y)
    ensures ok ==> Full(r, w, h) && Placed(r, w, h)
    ensures ok && avoid ==> forall y, x :: 0 <= y < h && 0 <= x < w ==> !EndsTriple(r, w, h, x, y)
  {
    r := g;
    var y := 0;
    while y < h
      invariant y <= h && Shaped(r, w, h)
      invariant FilledBefore(r, w, h, f, avoid, y, 0)
    {
      var x := 0;
      while x < w
        invariant x <= w && Shaped(r, w, h)
        invariant FilledBefore(r, w, h, f, avoid, y, x)
      {
        var possible := set k | 0 <= k < f.TypeCount() && Allowed(r, w, h, x, y, k, f.TypeCount(), avoid);
        if f.TypeCount() >= 3 || (!avoid && f.TypeCount() >= 1) {
          CandidateExists(r, w, h, x, y, f.TypeCount(), avoid);
          var k0 :| Allowed(r, w, h, x, y, k0, f.TypeCount(), avoid);
          assert k0 in possible;
        }
        if possible == {} {
          return false, r;
        }
        var k :| k in possible;
        var created := f.CreateJewel(k, x, y);
        PlaceExtends(r, w, h, f, avoid, x, y, created.value);
        r := Set(r, w, h, x, y, Some(created.value));
        x := x + 1;
      }
      assert FilledBefore(r, w, h, f, avoid, y + 1, 0);
      y := y + 1;
    }
    ok := true;
  }

  /** A board where no cell completes a triple with its left or upper neighbours holds no triple at all, so find_matches reports nothing. */
  lemma NoEndingTripleNoMatches(g: Grid, w: nat, h: nat)
    requires Shaped(g, w, h)
    requires forall y, x :: 0 <= y < h && 0 <= x < w ==> !EndsTriple(g, w, h, x, y)
    ensures Matches(g, w, h) == []
  {
    MatchesEmptyIff(g, w, h);
    forall y, x ensures !TripleFrom(g, w, h, x, y) {
      if 0 <= y < h && 0 <= x && x + 2 < w {
        assert !EndsTriple(g, w, h, x + 2, y);
      }
      if 0 <= x < w && 0 <= y && y + 2 < h {
        assert !EndsTriple(g, w, h, x, y + 2);
        var col := Column(g, w, h, x);
        assert col[y] == g[y][x] && col[y + 1] == g[y + 1][x] && col[y + 2] == g[y + 2][x];
      }
    }
  }

  /** The jewels of col[i..], top to bottom, each with the row it occupies. */
  function OccFrom(col: seq<Cell>, i: nat): (occ: seq<(nat, Jewel)>)
    requires i <= |col|
    ensures |occ| <= |col| - i
    ensures forall t :: 0 <= t < |occ| ==> i <= occ[t].0 < |col| && col[occ[t].0] == Some(occ[t].1)
    ensures forall t, u :: 0 <= t < u < |occ| ==> occ[t].0 < occ[u].0
    decreases |col| - i
  {
    if i == |col| then []
    else (if col[i].Some? then [(i, col[i].value)] else []) + OccFrom(col, i + 1)
  }

  /**
   * Row r of column x once gravity has acted on rows i and below: the
   * jewels of those rows, in their order, fill the bottom rows; the rows
   * above them are empty. A jewel that lands in its own row is untouched;
   * one that falls takes its new cell as position and starts moving.
   */
  function Settled(col: seq<Cell>, x: int, i: nat, r: int): Cell
    requires i <= |col|
  {
    var occ := OccFrom(col, i);
    var top := |col| - |occ|;
    if r < top || r >= |col| then None
    else if occ[r - top].0 == r then Some(occ[r - top].1)
    else Some(MoveTo(occ[r - top].1, x, r))
  }

  /** Gravity on one column: what collapse_columns leaves in column x. */
  function Collapsed(col: seq<Cell>, x: int): (r: seq<Cell>)
    ensures |r| == |col|
  {
    seq(|col|, y requires 0 <= y < |col| => Settled(col, x, 0, y))
  }

  /** Extending the processed region up by one row, as one step of the scan from the bottom does. */
  lemma SettledStep(col: seq<Cell>, x: int, y: nat, r: int)
    requires y < |col| && y <= r
    ensures col[y].None? ==> Settled(col, x, y, r) == Settled(col, x, y + 1, r)
    ensures col[y].Some? ==>
      var top := |col| - |OccFrom(col, y + 1)|;
      Settled(col, x, y, r) ==
        if r < top - 1 then None
        else if r == top - 1 then (if y == r then col[y] else Some(MoveTo(col[y].value, x, r)))
        else Settled(col, x, y + 1, r)
  {
    if col[y].Some? {
      SettledStepJewel(col, x, y, r);
    } else {
      assert OccFrom(col, y) == OccFrom(col, y + 1);
    }
  }

  lemma SettledStepJewel(col: seq<Cell>, x: int, y: nat, r: int)
    requires y < |col| && y <= r && col[y].Some?
    ensures
      var top := |col| - |OccFrom(col, y + 1)|;
      Settled(col, x, y, r) ==
        if r < top - 1 then None
        else if r == top - 1 then (if y == r then col[y] else Some(MoveTo(col[y].value, x, r)))
        else Settled(col, x, y + 1, r)
  {
    var occ := OccFrom(col, y + 1);
    var all := OccFrom(col, y);
    assert all == [(y, col[y].value)] + occ;
    var top := |col| - |occ|;
    assert |col| - |all| == top - 1;
    if top - 1 <= r < |col| {
      if r == top - 1 {
        assert all[r - (top - 1)] == (y, col[y].value);
      } else {
        assert all[r - (top - 1)] == occ[r - top];
      }
    }
  }

  /** The state of collapse_columns' scan of column x once the rows below y are done. */
  ghost predicate CollapseInv(col: seq<Cell>, x: int, out: seq<Cell>, emptySpaces: seq<int>, y: int)
  {
    && -1 <= y < |col| && |out| == |col|
    && (forall r :: 0 <= r <= y ==> out[r] == col[r])
    && (forall r :: y < r < |col| ==> out[r] == Settled(col, x, y + 1, r))
    && |emptySpaces| == |col| - |OccFrom(col, y + 1)| - (y + 1)
    && (forall t :: 0 <= t < |emptySpaces| ==> emptySpaces[t] == |col| - 1 - |OccFrom(col, y + 1)| - t)
  }

  /**
   * collapse_columns on one column: walk the rows from the bottom up,
   * queueing empty rows; a jewel with an empty row below it drops into the
   * lowest queued row (taken from the front of the queue), moves there,
   * and its old row joins the back of the queue.
   */
  method CollapseColumn(col: seq<Cell>, x: int) returns (out: seq<Cell>)
    ensures out == Collapsed(col, x)
  {
    out := col;
    var emptySpaces: seq<int> := [];
    var y := |col| - 1;
    while y >= 0
      invariant CollapseInv(col, x, out, emptySpaces, y)
    {
      out, emptySpaces := CollapseRow(col, x, out, emptySpaces, y);
      y := y - 1;
    }
    assert forall r :: 0 <= r < |col| ==> out[r] == Collapsed(col, x)[r];
  }

  /** One row of the scan: an empty row is queued; a jewel with a queued row below drops into the lowest one. */
  method CollapseRow(col: seq<Cell>, x: int, out0: seq<Cell>, empties0: seq<int>, y: nat) returns (out: seq<Cell>, emptySpaces: seq<int>)
    requires y < |col| && CollapseInv(col, x, out0, empties0, y)
    ensures CollapseInv(col, x, out, emptySpaces, y - 1)
  {
    out, emptySpaces := out0, empties0;
    ghost var top := |col| - |OccFrom(col, y + 1)|;
    assert |OccFrom(col, y)| == |OccFrom(col, y + 1)| + (if col[y].Some? then 1 else 0) by {
      assert OccFrom(col, y) == (if col[y].Some? then [(y, col[y].value)] else []) + OccFrom(col, y + 1);
    }
    if out[y].None? {
      emptySpaces := emptySpaces + [y];
    } else if |emptySpaces| > 0 {
      var lowest := emptySpaces[0];
      assert lowest == top - 1;
      emptySpaces := emptySpaces[1..];
      out := out[lowest := out[y]];
      out := out[y := None];
      out := out[lowest := Some(MoveTo(out[lowest].value, x, lowest))];
      emptySpaces := emptySpaces + [y];
    }
    forall r | y <= r < |col| ensures out[r] == Settled(col, x, y, r) {
      SettledStep(col, x, y, r);
    }
  }

  /** A jewel apart from where it is and whether it is moving: what identifies it in a column. */
  function Ident(j: Jewel): Jewel
  {
    j.(x := 0, y := 0, animating := false)
  }

  function Idents(occ: seq<(nat, Jewel)>): (ids: seq<Jewel>)
    ensures |ids| == |occ|
  {
    seq(|occ|, t requires 0 <= t < |occ| => Ident(occ[t].1))
  }

  /** The occupants of a column that is empty above row `top` and full from there down are the rows top .. |c| - 1 in order. */
  lemma {:induction false} OccOfPacked(c: seq<Cell>, top: nat, i: nat)
    requires top <= |c| && i <= |c|
    requires forall r :: 0 <= r < top ==> c[r].None?
    requires forall r :: top <= r < |c| ==> c[r].Some?
    ensures var lo := if i < top then top else i;
      |OccFrom(c, i)| == |c| - lo
      && forall t :: 0 <= t < |OccFrom(c, i)| ==> OccFrom(c, i)[t] == (lo + t, c[lo + t].value)
    decreases |c| - i
  {
    if i < |c| {
      OccOfPacked(c, top, i + 1);
    }
  }

  /** Row by row, the collapsed column is empty above `top` and holds the t-th jewel (moved or not) at row top + t. */
  lemma CollapsedRows(col: seq<Cell>, x: int)
    ensures var c := Collapsed(col, x); var occ := OccFrom(col, 0); var top := |col| - |occ|;
      && (forall r :: 0 <= r < top ==> c[r].None?)
      && (forall r :: top <= r < |c| ==> c[r].Some? && Ident(c[r].value) == Ident(occ[r - top].1))
  {
    var c := Collapsed(col, x);
    assert forall r :: 0 <= r < |c| ==> c[r] == Settled(col, x, 0, r);
  }

  /**
   * collapse_columns on a column: the jewels end packed at the bottom with
   * every empty cell above them, they keep their top-to-bottom order, and
   * none is lost or gained.
   */
  lemma CollapsePacksInOrder(col: seq<Cell>, x: int)
    ensures var c := Collapsed(col, x); var n := |OccFrom(col, 0)|;
      && (forall r :: 0 <= r < |c| ==> (c[r].Some? <==> r >= |col| - n))
      && |OccFrom(c, 0)| == n
      && Idents(OccFrom(c, 0)) == Idents(OccFrom(col, 0))
  {
    var c := Collapsed(col, x);
    var occ := OccFrom(col, 0);
    var top := |col| - |occ|;
    CollapsedRows(col, x);
    OccOfPacked(c, top, 0);
    var occ2 := OccFrom(c, 0);
    forall t | 0 <= t < |occ| ensures Idents(occ2)[t] == Idents(occ)[t] {
      assert occ2[t] == (top + t, c[top + t].value);
    }
  }

  /** A column whose jewels know their cells still does after collapse. */
  lemma CollapseKeepsPlaced(col: seq<Cell>, x: int)
    requires forall r :: 0 <= r < |col| && col[r].Some? ==> col[r].value.x == x && col[r].value.y == r
    ensures var c := Collapsed(col, x);
      forall r :: 0 <= r < |c| && c[r].Some? ==> c[r].value.x == x && c[r].value.y == r
  {
    var c := Collapsed(col, x);
    forall r | 0 <= r < |c| && c[r].Some? ensures c[r].value.x == x && c[r].value.y == r {
      assert c[r] == Settled(col, x, 0, r);
    }
  }

  /** A column with an empty cell at or below row i has fewer jewels there than rows. */
  lemma {:induction false} OccFromShort(col: seq<Cell>, i: nat, r: nat)
    requires i <= r < |col| && col[r].None?
    ensures |OccFrom(col, i)| < |col| - i
    decreases |col| - i
  {
    if i < r {
      OccFromShort(col, i + 1, r);
    }
  }

  /** collapse_columns leaves the top cell of a column empty when the column had any empty cell. */
  lemma CollapsedTopEmpty(col: seq<Cell>, x: int, r: nat)
    requires r < |col| && col[r].None?
    ensures Collapsed(col, x)[0].None?
  {
    OccFromShort(col, 0, r);
    CollapsePacksInOrder(col, x);
  }

  /** A grid whose jewels know their cells still does after gravity acted on every column. */
  lemma CollapsedGridPlaced(g: Grid, r: Grid, w: nat, h: nat)
    requires Shaped(g, w, h) && Shaped(r, w, h) && Placed(g, w, h)
    requires forall x :: 0 <= x < w ==> Column(r, w, h, x) == Collapsed(Column(g, w, h, x), x)
    ensures Placed(r, w, h)
  {
    forall y, x | 0 <= y < h && 0 <= x < w && r[y][x].Some? ensures r[y][x].value.x == x && r[y][x].value.y == y {
      var col := Column(g, w, h, x);
      CollapseKeepsPlaced(col, x);
      assert r[y][x] == Column(r, w, h, x)[y];
    }
  }

  /** The grid with column x replaced by `col`. */
  function SetColumn(g: Grid, w: nat, h: nat, x: int, col: seq<Cell>): (r: Grid)
    requires Shaped(g, w, h) && 0 <= x < w && |col| == h
    ensures Shaped(r, w, h)
    ensures forall y, xx :: 0 <= y < h && 0 <= xx < w ==> r[y][xx] == if xx == x then col[y] else g[y][xx]
  {
    seq(h, y requires 0 <= y < h => g[y][x := col[y]])
  }

  /** collapse_columns: gravity on every column, each column on its own. */
  method CollapseColumns(g: Grid, w: nat, h: nat) returns (r: Grid)
    requires Shaped(g, w, h)
    ensures Shaped(r, w, h)
    ensures forall x :: 0 <= x < w ==> Column(r, w, h, x) == Collapsed(Column(g, w, h, x), x)
  {
    r := g;
    var x := 0;
    while x < w
      invariant x <= w && Shaped(r, w, h)
      invariant forall xx :: 0 <= xx < x ==> Column(r, w, h, xx) == Collapsed(Column(g, w, h, xx), xx)
      invariant forall xx :: x <= xx < w ==> Column(r, w, h, xx) == Column(g, w, h, xx)
    {
      var col := CollapseColumn(Column(r, w, h, x), x);
      ghost var prev := r;
      r := SetColumn(r, w, h, x, col);
      assert Column(r, w, h, x) == col;
      assert forall xx :: 0 <= xx < w && xx != x ==> Column(r, w, h, xx) == Column(prev, w, h, xx);
      x := x + 1;
    }
  }

  /** Cell c holds a new jewel for (x, y) of a catalogue type, already animating into place. */
  predicate Spawned(c: Cell, f: JewelFactory, x: int, y: int)
  {
    c.Some? && 0 <= c.value.kind < f.TypeCount()
    && c.value == MoveTo(NewJewel(c.value.kind, x, y, f.configs[c.value.kind]), x, y)
  }

  /** Every cell before (y, x) that was empty now holds a spawned jewel; every other cell is as it was. */
  predicate RefilledBefore(g: Grid, r: Grid, w: nat, h: nat, f: JewelFactory, y: int, x: int)
    requires Shaped(g, w, h) && Shaped(r, w, h)
  {
    forall yy, xx :: 0 <= yy < h && 0 <= xx < w ==>
      if g[yy][xx].None? && Before(yy, xx, y, x) then Spawned(r[yy][xx], f, xx, yy) else r[yy][xx] == g[yy][xx]
  }

  /**
   * refill_board: visit the cells row by row; each empty one gets a random
   * jewel from the factory, flagged as animating (it falls in from above
   * the board). Occupied cells are left alone. create_random_jewel raises
   * on an empty catalogue; `ok` is false when that happened.
   */
  method RefillGrid(g: Grid, w: nat, h: nat, f: JewelFactory) returns (ok: bool, r: Grid)
    requires Shaped(g, w, h)
    ensures Shaped(r, w, h)
    ensures f.TypeCount() >= 1 || Full(g, w, h) ==> ok
    ensures forall y, x :: 0 <= y < h && 0 <= x < w && g[y][x].Some? ==> r[y][x] == g[y][x]
    ensures ok ==> forall y, x :: 0 <= y < h && 0 <= x < w && g[y][x].None? ==> Spawned(r[y][x], f, x, y)
    ensures ok ==> Full(r, w, h)
    ensures ok && Placed(g, w, h) ==> Placed(r, w, h)
  {
    r := g;
    var y := 0;
    while y < h
      invariant y <= h && Shaped(r, w, h)
      invariant RefilledBefore(g, r, w, h, f, y, 0)
    {
      var x := 0;
      while x < w
        invariant x <= w && Shaped(r, w, h)
        invariant RefilledBefore(g, r, w, h, f, y, x)
      {
        if r[y][x].None? {
          var created := CreateRandomJewel(f, x, y);
          if created.Failure? {
            return false, r;
          }
          var spawned := created.value.(animating := true);
          r := Set(r, w, h, x, y, Some(spawned));
        }
        x := x + 1;
      }
      y := y + 1;
    }
    ok := true;
  }
}
