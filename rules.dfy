/**
 * GameRules of the main board (game/models/board.py): the swap test that
 * swaps tentatively with swap_jewels, asks find_matches and swaps back.
 */
module Rules {
  import opened Wrappers
  import opened Jewels
  import opened Grids
  import opened Matching
  import opened LocalCheck

  /** A cell whose jewel (if any) has started a move animation. */
  function Touch(c: Cell): (r: Cell)
    ensures Still(r) == Still(c)
    ensures r.Some? ==> r.value.animating
  {
    if c.Some? then Some(c.value.(animating := true)) else None
  }

  /** The grid with the jewels of the two cells marked as animating and nothing else changed. */
  function TouchBoth(g: Grid, w: nat, h: nat, x1: int, y1: int, x2: int, y2: int): (r: Grid)
    requires Shaped(g, w, h) && InBounds(w, h, x1, y1) && InBounds(w, h, x2, y2)
    ensures Shaped(r, w, h) && SameArrangement(r, g, w, h) && SameKinds(r, g, w, h)
    ensures Placed(g, w, h) ==> Placed(r, w, h)
  {
    Set(Set(g, w, h, x1, y1, Touch(g[y1][x1])), w, h, x2, y2, Touch(g[y2][x2]))
  }

  /**
   * The exact side effect of swapping two occupied cells there and back
   * with swap_jewels on a board whose jewels know their cells: both jewels
   * are back home and have started a move animation; nothing else changed.
   */
  lemma SwapTwiceTouches(g: Grid, w: nat, h: nat, x1: int, y1: int, x2: int, y2: int)
    requires Shaped(g, w, h) && Placed(g, w, h) && BothOccupied(g, w, h, x1, y1, x2, y2)
    ensures SwapJewels(SwapJewels(g, w, h, x1, y1, x2, y2), w, h, x1, y1, x2, y2) == TouchBoth(g, w, h, x1, y1, x2, y2)
  {
    var once := SwapJewels(g, w, h, x1, y1, x2, y2);
    var twice := SwapJewels(once, w, h, x1, y1, x2, y2);
    var t := TouchBoth(g, w, h, x1, y1, x2, y2);
    assert BothOccupied(once, w, h, x1, y1, x2, y2);
    forall y | 0 <= y < h ensures twice[y] == t[y] {
      forall x | 0 <= x < w ensures twice[y][x] == t[y][x] {
        if x == x1 && y == y1 {
          assert twice[y][x] == Some(MoveTo(once[y2][x2].value, x1, y1));
        } else if x == x2 && y == y2 {
          assert twice[y][x] == Some(MoveTo(once[y1][x1].value, x2, y2));
        }
      }
    }
  }

  /** swap_jewels changes which jewel sits where exactly as the raw exchange does, so the types on the board agree. */
  lemma SwapKindsLikeRaw(g: Grid, w: nat, h: nat, x1: int, y1: int, x2: int, y2: int)
    requires Shaped(g, w, h) && BothOccupied(g, w, h, x1, y1, x2, y2)
    ensures SameKinds(SwapJewels(g, w, h, x1, y1, x2, y2), RawSwap(g, w, h, x1, y1, x2, y2), w, h)
  {
    var s := SwapJewels(g, w, h, x1, y1, x2, y2);
    var r := RawSwap(g, w, h, x1, y1, x2, y2);
    forall y, x | 0 <= y < h && 0 <= x < w ensures KindOf(s[y][x]) == KindOf(r[y][x]) {
      if x == x2 && y == y2 {
        assert s[y][x] == Some(MoveTo(g[y1][x1].value, x2, y2));
      } else if x == x1 && y == y1 {
        assert s[y][x] == Some(MoveTo(g[y2][x2].value, x1, y1));
      }
    }
  }

  /**
   * GameRules.is_valid_swap: false when either cell is empty or off the
   * board; otherwise swap with swap_jewels, run find_matches, and swap back.
   * The answer is whether the exchange leaves a match on the board, and the
   * grid that remains holds the same jewels in the same cells, the two
   * swapped jewels now animating.
   */
  method IsValidSwap(g: Grid, w: nat, h: nat, x1: int, y1: int, x2: int, y2: int) returns (valid: bool, after: Grid)
    requires Shaped(g, w, h)
    ensures Shaped(after, w, h)
    ensures valid == GlobalValid(g, w, h, x1, y1, x2, y2)
    ensures !BothOccupied(g, w, h, x1, y1, x2, y2) ==> after == g
    ensures Placed(g, w, h) && BothOccupied(g, w, h, x1, y1, x2, y2) ==> after == TouchBoth(g, w, h, x1, y1, x2, y2)
    ensures Placed(g, w, h) ==> SameArrangement(after, g, w, h)
  {
    if JewelAt(g, w, h, x1, y1).None? || JewelAt(g, w, h, x2, y2).None? {
      return false, g;
    }
    var swapped := SwapJewels(g, w, h, x1, y1, x2, y2);
    var matches := FindMatches(swapped, w, h);
    after := SwapJewels(swapped, w, h, x1, y1, x2, y2);
    valid := matches != [];
    SwapKindsLikeRaw(g, w, h, x1, y1, x2, y2);
    MatchesSameKinds(swapped, RawSwap(g, w, h, x1, y1, x2, y2), w, h);
    if Placed(g, w, h) {
      SwapTwiceTouches(g, w, h, x1, y1, x2, y2);
    }
  }

  /** Two boards with the same types in the same cells give the same answer to the swap test. */
  lemma GlobalValidSameKinds(g1: Grid, g2: Grid, w: nat, h: nat, x1: int, y1: int, x2: int, y2: int)
    requires Shaped(g1, w, h) && Shaped(g2, w, h) && SameKinds(g1, g2, w, h)
    ensures GlobalValid(g1, w, h, x1, y1, x2, y2) == GlobalValid(g2, w, h, x1, y1, x2, y2)
  {
    if InBounds(w, h, x1, y1) && InBounds(w, h, x2, y2) {
      assert KindOf(g1[y1][x1]) == KindOf(g2[y1][x1]) && KindOf(g1[y2][x2]) == KindOf(g2[y2][x2]);
      var r1 := RawSwap(g1, w, h, x1, y1, x2, y2);
      var r2 := RawSwap(g2, w, h, x1, y1, x2, y2);
      assert SameKinds(r1, r2, w, h);
      MatchesSameKinds(r1, r2, w, h);
    }
  }

  /**
   * The selected flag of the jewel at (x, y) set to b; an empty or
   * off-board cell leaves the grid as it is. Types and positions are kept.
   */
  function Mark(g: Grid, w: nat, h: nat, x: int, y: int, b: bool): (r: Grid)
    requires Shaped(g, w, h)
    ensures Shaped(r, w, h) && SameKinds(r, g, w, h)
    ensures JewelAt(g, w, h, x, y).Some? ==> r[y][x] == Some(g[y][x].value.(selected := b))
    ensures forall yy, xx :: 0 <= yy < h && 0 <= xx < w && (xx, yy) != (x, y) ==> r[yy][xx] == g[yy][xx]
    ensures JewelAt(g, w, h, x, y).None? ==> r == g
    ensures Placed(g, w, h) ==> Placed(r, w, h)
  {
    if JewelAt(g, w, h, x, y).Some? then Set(g, w, h, x, y, Some(g[y][x].value.(selected := b))) else g
  }

  /** A committed swap_jewels overwrites whatever animation flags the two jewels carried. */
  lemma SwapAfterTouch(g: Grid, w: nat, h: nat, x1: int, y1: int, x2: int, y2: int)
    requires Shaped(g, w, h) && BothOccupied(g, w, h, x1, y1, x2, y2)
    ensures SwapJewels(TouchBoth(g, w, h, x1, y1, x2, y2), w, h, x1, y1, x2, y2) == SwapJewels(g, w, h, x1, y1, x2, y2)
  {
    var t := TouchBoth(g, w, h, x1, y1, x2, y2);
    var a := SwapJewels(t, w, h, x1, y1, x2, y2);
    var b := SwapJewels(g, w, h, x1, y1, x2, y2);
    assert BothOccupied(t, w, h, x1, y1, x2, y2);
    forall y | 0 <= y < h ensures a[y] == b[y] {
      forall x | 0 <= x < w ensures a[y][x] == b[y][x] {
        if x == x2 && y == y2 {
          assert a[y][x] == Some(MoveTo(t[y1][x1].value, x2, y2));
          assert b[y][x] == Some(MoveTo(g[y1][x1].value, x2, y2));
        } else if x == x1 && y == y1 {
          assert a[y][x] == Some(MoveTo(t[y2][x2].value, x1, y1));
          assert b[y][x] == Some(MoveTo(g[y2][x2].value, x1, y1));
        }
      }
    }
  }

  /** Setting a selected flag and starting the two animations commute. */
  lemma MarkTouchCommute(g: Grid, w: nat, h: nat, x1: int, y1: int, x2: int, y2: int, b: bool)
    requires Shaped(g, w, h) && InBounds(w, h, x1, y1) && InBounds(w, h, x2, y2)
    ensures Mark(TouchBoth(g, w, h, x1, y1, x2, y2), w, h, x1, y1, b) == TouchBoth(Mark(g, w, h, x1, y1, b), w, h, x1, y1, x2, y2)
  {
    var l := Mark(TouchBoth(g, w, h, x1, y1, x2, y2), w, h, x1, y1, b);
    var r := TouchBoth(Mark(g, w, h, x1, y1, b), w, h, x1, y1, x2, y2);
    forall y | 0 <= y < h ensures l[y] == r[y] {
      forall x | 0 <= x < w ensures l[y][x] == r[y][x] { }
    }
  }
}
