/**
 * The swap test of the forked board (game/models/board_.py is_valid_swap):
 * instead of scanning the whole board it swaps the two cells, walks
 * left/right and up/down cursors from each of them over same-type
 * neighbours, and reports a match when one of the two swapped cells lies in
 * a run of three or more; then it swaps back.
 */
module LocalCheck {
  import opened Wrappers
  import opened Jewels
  import opened Grids
  import opened Matching

  /** The number of kind-k jewels directly before index i of the line. */
  function RunBefore(line: seq<Cell>, i: nat, k: int): (n: nat)
    requires i <= |line|
    ensures n <= i
    ensures forall j :: i - n <= j < i ==> HasKind(line[j], k)
    ensures n < i ==> !HasKind(line[i - n - 1], k)
  {
    if i > 0 && HasKind(line[i - 1], k) then 1 + RunBefore(line, i - 1, k) else 0
  }

  /** The jewel at index i lies in a same-type run of three or more along the line. */
  predicate InLongRun(line: seq<Cell>, i: nat)
  {
    i < |line| && line[i].Some?
    && 1 + RunBefore(line, i, line[i].value.kind) + RunFrom(line, i + 1, line[i].value.kind) >= 3
  }

  lemma {:induction false} RunBeforeAtLeast(line: seq<Cell>, i: nat, k: int, m: nat)
    requires m <= i <= |line|
    requires forall j :: i - m <= j < i ==> HasKind(line[j], k)
    ensures RunBefore(line, i, k) >= m
    decreases m
  {
    if m > 0 {
      RunBeforeAtLeast(line, i - 1, k, m - 1);
    }
  }

  lemma {:induction false} RunFromAtLeast(line: seq<Cell>, i: nat, k: int, m: nat)
    requires i + m <= |line|
    requires forall j :: i <= j < i + m ==> HasKind(line[j], k)
    ensures RunFrom(line, i, k) >= m
    decreases m
  {
    if m > 0 {
      RunFromAtLeast(line, i + 1, k, m - 1);
    }
  }

  /** A cell lies in a run of three or more exactly when some triple of the line covers it. */
  lemma InLongRunIff(line: seq<Cell>, i: nat)
    ensures InLongRun(line, i) <==> exists j :: j <= i <= j + 2 && TripleAt(line, j)
  {
    if InLongRun(line, i) {
      var k := line[i].value.kind;
      var before := RunBefore(line, i, k);
      var after := RunFrom(line, i + 1, k);
      var j := if before >= 2 then i - 2 else i - before;
      assert TripleAt(line, j);
    }
    if j :| j <= i <= j + 2 && TripleAt(line, j) {
      var k := line[j].value.kind;
      assert line[i].Some? && line[i].value.kind == k;
      RunBeforeAtLeast(line, i, k, i - j);
      RunFromAtLeast(line, i + 1, k, j + 2 - i);
    }
  }

  /** What the forked swap test answers: both cells occupied, and after the swap one of them sits in a long horizontal or vertical run. */
  predicate LocalValid(g: Grid, w: nat, h: nat, x1: int, y1: int, x2: int, y2: int)
    requires Shaped(g, w, h)
  {
    BothOccupied(g, w, h, x1, y1, x2, y2) &&
    var s := RawSwap(g, w, h, x1, y1, x2, y2);
    InLongRun(s[y1], x1) || InLongRun(s[y2], x2)
    || InLongRun(Column(s, w, h, x1), y1) || InLongRun(Column(s, w, h, x2), y2)
  }

  /** What the main board's swap test answers: both cells occupied, and after the swap find_matches reports something. */
  predicate GlobalValid(g: Grid, w: nat, h: nat, x1: int, y1: int, x2: int, y2: int)
    requires Shaped(g, w, h)
  {
    BothOccupied(g, w, h, x1, y1, x2, y2) && Matches(RawSwap(g, w, h, x1, y1, x2, y2), w, h) != []
  }

  /**
   * The left and right (or up and down) cursors of the forked test: from the
   * jewel at index i they walk outwards while the neighbour holds the same
   * type, and stop at the ends of the run.
   */
  method RunExtent(line: seq<Cell>, i: nat) returns (lo: nat, hi: nat)
    requires i < |line| && line[i].Some?
    ensures lo == i - RunBefore(line, i, line[i].value.kind)
    ensures hi == i + RunFrom(line, i + 1, line[i].value.kind)
  {
    var k := line[i].value.kind;
    lo := i;
    while lo > 0 && line[lo - 1].Some? && line[lo - 1].value.kind == k
      invariant lo <= i
      invariant (i - lo) + RunBefore(line, lo, k) == RunBefore(line, i, k)
    {
      lo := lo - 1;
    }
    hi := i;
    while hi < |line| - 1 && line[hi + 1].Some? && line[hi + 1].value.kind == k
      invariant i <= hi < |line|
      invariant (hi - i) + RunFrom(line, hi + 1, k) == RunFrom(line, i + 1, k)
    {
      hi := hi + 1;
    }
  }

  /** One cursor test of the forked check: skip an empty cell, else measure the run through it and compare with three. */
  method LongRunAt(line: seq<Cell>, i: nat) returns (long: bool)
    requires i < |line|
    ensures long == InLongRun(line, i)
  {
    long := false;
    if line[i].Some? {
      var lo, hi := RunExtent(line, i);
      long := hi - lo + 1 >= 3;
    }
  }

  /**
   * The forked is_valid_swap: empty cells fail at once; otherwise the two
   * cells are exchanged, each is tested for a horizontal run of three or
   * more, then (if none) for a vertical one, and the exchange is undone.
   */
  method ForkIsValidSwap(g: Grid, w: nat, h: nat, x1: int, y1: int, x2: int, y2: int)
    returns (valid: bool, after: Grid)
    requires Shaped(g, w, h)
    ensures valid == LocalValid(g, w, h, x1, y1, x2, y2)
    ensures after == g
  {
    if JewelAt(g, w, h, x1, y1).None? || JewelAt(g, w, h, x2, y2).None? {
      return false, g;
    }
    var cur: Grid := RawSwap(g, w, h, x1, y1, x2, y2);
    var hasMatches := RowTests(cur, w, h, x1, y1, x2, y2);
    if !hasMatches {
      hasMatches := ColumnTests(cur, w, h, x1, y1, x2, y2);
    }
    RawSwapTwice(g, w, h, x1, y1, x2, y2);
    cur := RawSwap(cur, w, h, x1, y1, x2, y2);
    return hasMatches, cur;
  }

  /** The horizontal half of the forked test: the first cell, then the second, each in its row. */
  method RowTests(cur: Grid, w: nat, h: nat, x1: int, y1: int, x2: int, y2: int) returns (hasMatches: bool)
    requires Shaped(cur, w, h) && InBounds(w, h, x1, y1) && InBounds(w, h, x2, y2)
    ensures hasMatches <==> InLongRun(cur[y1], x1) || InLongRun(cur[y2], x2)
  {
    var cells: seq<Pos> := [(x1, y1), (x2, y2)];
    hasMatches := false;
    var c := 0;
    while c < 2
      invariant c <= 2
      invariant hasMatches <==> exists e :: 0 <= e < c && InLongRun(cur[cells[e].1], cells[e].0)
      invariant hasMatches ==> c < 2
    {
      var long := LongRunAt(cur[cells[c].1], cells[c].0);
      if long {
        hasMatches := true;
        break;
      }
      c := c + 1;
    }
    if !hasMatches {
      assert !InLongRun(cur[cells[0].1], cells[0].0) && !InLongRun(cur[cells[1].1], cells[1].0);
    }
  }

  /** The vertical half of the forked test: the first cell, then the second, each in its column. */
  method ColumnTests(cur: Grid, w: nat, h: nat, x1: int, y1: int, x2: int, y2: int) returns (hasMatches: bool)
    requires Shaped(cur, w, h) && InBounds(w, h, x1, y1) && InBounds(w, h, x2, y2)
    ensures hasMatches <==> InLongRun(Column(cur, w, h, x1), y1) || InLongRun(Column(cur, w, h, x2), y2)
  {
    var cells: seq<Pos> := [(x1, y1), (x2, y2)];
    hasMatches := false;
    var c := 0;
    while c < 2
      invariant c <= 2
      invariant hasMatches <==> exists e :: 0 <= e < c && InLongRun(Column(cur, w, h, cells[e].0), cells[e].1)
      invariant hasMatches ==> c < 2
    {
      var long := LongRunAt(Column(cur, w, h, cells[c].0), cells[c].1);
      if long {
        hasMatches := true;
        break;
      }
      c := c + 1;
    }
    if !hasMatches {
      assert !InLongRun(Column(cur, w, h, cells[0].0), cells[0].1);
      assert !InLongRun(Column(cur, w, h, cells[1].0), cells[1].1);
    }
  }

  lemma {:induction false} RunBeforeSameKinds(l1: seq<Cell>, l2: seq<Cell>, i: nat, k: int)
    requires SameKindLines(l1, l2) && i <= |l1|
    ensures RunBefore(l1, i, k) == RunBefore(l2, i, k)
  {
    if i > 0 {
      assert HasKind(l1[i - 1], k) == HasKind(l2[i - 1], k) by {
        assert KindOf(l1[i - 1]) == KindOf(l2[i - 1]);
      }
      RunBeforeSameKinds(l1, l2, i - 1, k);
    }
  }

  /** Whether a cell lies in a long run depends only on the types along the line. */
  lemma InLongRunSameKinds(l1: seq<Cell>, l2: seq<Cell>, i: nat)
    requires SameKindLines(l1, l2)
    ensures InLongRun(l1, i) == InLongRun(l2, i)
  {
    if i < |l1| {
      assert KindOf(l1[i]) == KindOf(l2[i]);
      if l1[i].Some? {
        var k := l1[i].value.kind;
        RunBeforeSameKinds(l1, l2, i, k);
        RunFromSameKinds(l1, l2, i + 1, k);
      }
    }
  }

  /** The forked swap test looks only at the types on the board. */
  lemma LocalValidSameKinds(g1: Grid, g2: Grid, w: nat, h: nat, x1: int, y1: int, x2: int, y2: int)
    requires Shaped(g1, w, h) && Shaped(g2, w, h) && SameKinds(g1, g2, w, h)
    ensures LocalValid(g1, w, h, x1, y1, x2, y2) == LocalValid(g2, w, h, x1, y1, x2, y2)
  {
    if InBounds(w, h, x1, y1) && InBounds(w, h, x2, y2) {
      assert KindOf(g1[y1][x1]) == KindOf(g2[y1][x1]) && KindOf(g1[y2][x2]) == KindOf(g2[y2][x2]);
      var s1 := RawSwap(g1, w, h, x1, y1, x2, y2);
      var s2 := RawSwap(g2, w, h, x1, y1, x2, y2);
      assert SameKinds(s1, s2, w, h);
      InLongRunSameKinds(s1[y1], s2[y1], x1);
      InLongRunSameKinds(s1[y2], s2[y2], x2);
      InLongRunSameKinds(Column(s1, w, h, x1), Column(s2, w, h, x1), y1);
      InLongRunSameKinds(Column(s1, w, h, x2), Column(s2, w, h, x2), y2);
    }
  }

  /** A long run through one of the swapped cells is a triple on the swapped board, so the forked test never accepts a swap the main test rejects. */
  lemma LocalImpliesGlobal(g: Grid, w: nat, h: nat, x1: int, y1: int, x2: int, y2: int)
    requires Shaped(g, w, h) && LocalValid(g, w, h, x1, y1, x2, y2)
    ensures GlobalValid(g, w, h, x1, y1, x2, y2)
  {
    var s := RawSwap(g, w, h, x1, y1, x2, y2);
    MatchesEmptyIff(s, w, h);
    if InLongRun(s[y1], x1) {
      InLongRunIff(s[y1], x1);
      var j :| j <= x1 <= j + 2 && TripleAt(s[y1], j);
      assert TripleFrom(s, w, h, j, y1);
    } else if InLongRun(s[y2], x2) {
      InLongRunIff(s[y2], x2);
      var j :| j <= x2 <= j + 2 && TripleAt(s[y2], j);
      assert TripleFrom(s, w, h, j, y2);
    } else if InLongRun(Column(s, w, h, x1), y1) {
      InLongRunIff(Column(s, w, h, x1), y1);
      var j :| j <= y1 <= j + 2 && TripleAt(Column(s, w, h, x1), j);
      assert TripleFrom(s, w, h, x1, j);
    } else {
      InLongRunIff(Column(s, w, h, x2), y2);
      var j :| j <= y2 <= j + 2 && TripleAt(Column(s, w, h, x2), j);
      assert TripleFrom(s, w, h, x2, j);
    }
  }

  /** A horizontal triple on the swapped board that avoids both swapped cells was already on the board. */
  lemma HTripleUntouched(g: Grid, w: nat, h: nat, x1: int, y1: int, x2: int, y2: int, x: int, y: int)
    requires Shaped(g, w, h) && InBounds(w, h, x1, y1) && InBounds(w, h, x2, y2)
    requires HTriple(RawSwap(g, w, h, x1, y1, x2, y2), w, h, x, y)
    requires !(y == y1 && x <= x1 <= x + 2) && !(y == y2 && x <= x2 <= x + 2)
    ensures HTriple(g, w, h, x, y)
  {
    var s := RawSwap(g, w, h, x1, y1, x2, y2);
    assert s[y][x] == g[y][x] && s[y][x + 1] == g[y][x + 1] && s[y][x + 2] == g[y][x + 2];
  }

  /** A vertical triple on the swapped board that avoids both swapped cells was already on the board. */
  lemma VTripleUntouched(g: Grid, w: nat, h: nat, x1: int, y1: int, x2: int, y2: int, x: int, y: int)
    requires Shaped(g, w, h) && InBounds(w, h, x1, y1) && InBounds(w, h, x2, y2)
    requires VTriple(RawSwap(g, w, h, x1, y1, x2, y2), w, h, x, y)
    requires !(x == x1 && y <= y1 <= y + 2) && !(x == x2 && y <= y2 <= y + 2)
    ensures VTriple(g, w, h, x, y)
  {
    var s := RawSwap(g, w, h, x1, y1, x2, y2);
    assert s[y][x] == g[y][x] && s[y + 1][x] == g[y + 1][x] && s[y + 2][x] == g[y + 2][x];
  }

  /**
   * On a board without any triple (the state a player swaps on), the forked
   * local test and the main find_matches-based test give the same answer.
   */
  lemma LocalAgreesOnStableBoard(g: Grid, w: nat, h: nat, x1: int, y1: int, x2: int, y2: int)
    requires Shaped(g, w, h) && !HasTriple(g, w, h)
    ensures LocalValid(g, w, h, x1, y1, x2, y2) <==> GlobalValid(g, w, h, x1, y1, x2, y2)
  {
    if LocalValid(g, w, h, x1, y1, x2, y2) {
      LocalImpliesGlobal(g, w, h, x1, y1, x2, y2);
    }
    if GlobalValid(g, w, h, x1, y1, x2, y2) {
      var s := RawSwap(g, w, h, x1, y1, x2, y2);
      MatchesEmptyIff(s, w, h);
      var y, x :| TripleFrom(s, w, h, x, y);
      if HTriple(s, w, h, x, y) {
        if y == y1 && x <= x1 <= x + 2 {
          InLongRunIff(s[y1], x1);
        } else if y == y2 && x <= x2 <= x + 2 {
          InLongRunIff(s[y2], x2);
        } else {
          HTripleUntouched(g, w, h, x1, y1, x2, y2, x, y);
          assert TripleFrom(g, w, h, x, y);
        }
      } else {
        if x == x1 && y <= y1 <= y + 2 {
          InLongRunIff(Column(s, w, h, x1), y1);
        } else if x == x2 && y <= y2 <= y + 2 {
          InLongRunIff(Column(s, w, h, x2), y2);
        } else {
          VTripleUntouched(g, w, h, x1, y1, x2, y2, x, y);
          assert TripleFrom(g, w, h, x, y);
        }
      }
    }
  }

  /** A jewel of kind k at (x, 0), at rest, worth nothing. */
  function Gem(k: int, x: int): Cell
  {
    Some(Jewel(k, 0, x, 0, false, false))
  }

  /**
   * The two tests differ on a board that already holds a triple: on the row
   * 0 0 0 1 2, swapping the last two jewels makes no run through them, so
   * the forked test rejects it, while find_matches still sees the three 0s.
   */
  lemma LocalDiffersWhenTripleRemains()
    ensures var g := [[Gem(0, 0), Gem(0, 1), Gem(0, 2), Gem(1, 3), Gem(2, 4)]];
      Shaped(g, 5, 1) && GlobalValid(g, 5, 1, 3, 0, 4, 0) && !LocalValid(g, 5, 1, 3, 0, 4, 0)
  {
    var g := [[Gem(0, 0), Gem(0, 1), Gem(0, 2), Gem(1, 3), Gem(2, 4)]];
    assert Shaped(g, 5, 1);
    var s := RawSwap(g, 5, 1, 3, 0, 4, 0);
    assert s[0] == [Gem(0, 0), Gem(0, 1), Gem(0, 2), Gem(2, 4), Gem(1, 3)];
    assert TripleFrom(s, 5, 1, 0, 0);
    MatchesEmptyIff(s, 5, 1);
    assert RunBefore(s[0], 3, 2) == 0 && RunFrom(s[0], 4, 2) == 0;
    assert RunBefore(s[0], 4, 1) == 0 && RunFrom(s[0], 5, 1) == 0;
    assert Column(s, 5, 1, 3) == [s[0][3]];
    assert Column(s, 5, 1, 4) == [s[0][4]];
  }
}
