/**
 * The match detector (MatchFinder in game/models/board.py, find_matches in
 * game/models/board_.py): a greedy run-length scan of every row, then of
 * every column, reporting each run of three or more same-type jewels as the
 * list of its cells.
 */
module Matching {
  import opened Wrappers
  import opened Jewels
  import opened Grids

  /** Cell c holds a jewel of kind k. */
  predicate HasKind(c: Cell, k: int)
  {
    c.Some? && c.value.kind == k
  }

  /** The length of the run of kind-k jewels in `line` that starts at index i. */
  function RunFrom(line: seq<Cell>, i: nat, k: int): (n: nat)
    requires i <= |line|
    ensures i + n <= |line|
    ensures forall j :: i <= j < i + n ==> HasKind(line[j], k)
    ensures i + n < |line| ==> !HasKind(line[i + n], k)
    decreases |line| - i
  {
    if i < |line| && HasKind(line[i], k) then 1 + RunFrom(line, i + 1, k) else 0
  }

  /** A run of `len` cells of one line starting at index `start`. */
  datatype Run = Run(start: nat, len: nat)

  /**
   * The scan of one line from cursor i: stop once fewer than three cells
   * remain; at an occupied cell measure its run; a run of three or more is
   * reported and skipped as a whole, otherwise the cursor moves on by one.
   */
  function Scan(line: seq<Cell>, i: nat): seq<Run>
    requires i <= |line|
    decreases |line| - i
  {
    if i + 2 >= |line| then []
    else if line[i].None? then Scan(line, i + 1)
    else
      var len := 1 + RunFrom(line, i + 1, line[i].value.kind);
      if len >= 3 then [Run(i, len)] + Scan(line, i + len)
      else Scan(line, i + 1)
  }

  /** Three same-kind jewels at indices j, j + 1, j + 2 of a line. */
  predicate TripleAt(line: seq<Cell>, j: int)
  {
    0 <= j && j + 2 < |line| && line[j].Some?
    && HasKind(line[j + 1], line[j].value.kind) && HasKind(line[j + 2], line[j].value.kind)
  }

  /** A reported run: at least three cells, inside the line, all of the first cell's kind, and not extendable to the right. */
  predicate RunOk(line: seq<Cell>, r: Run)
  {
    && r.len >= 3 && r.start + r.len <= |line| && line[r.start].Some?
    && (forall j :: r.start <= j < r.start + r.len ==> HasKind(line[j], line[r.start].value.kind))
    && (r.start + r.len < |line| ==> !HasKind(line[r.start + r.len], line[r.start].value.kind))
  }

  /** The scan at an occupied cursor with room for a run: the run found there is reported and skipped, or the cursor moves on by one. */
  lemma ScanAt(line: seq<Cell>, i: nat)
    requires i + 2 < |line| && line[i].Some?
    ensures var len := 1 + RunFrom(line, i + 1, line[i].value.kind);
      Scan(line, i) == if len >= 3 then [Run(i, len)] + Scan(line, i + len) else Scan(line, i + 1)
  {
  }

  /** Runs that are well formed, start at or after i, and come in order without overlapping. */
  predicate RunsOk(line: seq<Cell>, rs: seq<Run>, i: nat)
  {
    && (forall a :: 0 <= a < |rs| ==> RunOk(line, rs[a]) && i <= rs[a].start)
    && (forall a, b :: 0 <= a < b < |rs| ==> rs[a].start + rs[a].len <= rs[b].start)
  }

  /** The run measured at an occupied cell, when three or more long, is a well-formed run. */
  lemma RunAtOk(line: seq<Cell>, i: nat)
    requires i < |line| && line[i].Some? && 1 + RunFrom(line, i + 1, line[i].value.kind) >= 3
    ensures RunOk(line, Run(i, 1 + RunFrom(line, i + 1, line[i].value.kind)))
  {
    var k := line[i].value.kind;
    var n := RunFrom(line, i + 1, k);
    forall j | i <= j < i + 1 + n ensures HasKind(line[j], k) {
      if j > i {
        assert i + 1 <= j < i + 1 + n;
      }
    }
  }

  /** A well-formed run at or after i followed by well-formed runs after it. */
  lemma RunsOkCons(line: seq<Cell>, r: Run, rs: seq<Run>, i: nat)
    requires RunOk(line, r) && i <= r.start && RunsOk(line, rs, r.start + r.len)
    ensures RunsOk(line, [r] + rs, i)
  {
    var all := [r] + rs;
    forall a | 0 <= a < |all| ensures RunOk(line, all[a]) && i <= all[a].start {
      if a > 0 {
        assert all[a] == rs[a - 1];
      }
    }
    forall a, b | 0 <= a < b < |all| ensures all[a].start + all[a].len <= all[b].start {
      if a > 0 {
        assert all[a] == rs[a - 1] && all[b] == rs[b - 1];
      } else {
        assert all[b] == rs[b - 1];
      }
    }
  }

  /** RunsOk, stated run by run: the first run is well formed and at or after i, the rest follow it. */
  predicate RunsFrom(line: seq<Cell>, rs: seq<Run>, i: nat)
  {
    |rs| == 0 || (RunOk(line, rs[0]) && i <= rs[0].start && RunsFrom(line, rs[1..], rs[0].start + rs[0].len))
  }

  lemma {:induction false} RunsFromOk(line: seq<Cell>, rs: seq<Run>, i: nat)
    requires RunsFrom(line, rs, i)
    ensures RunsOk(line, rs, i)
    decreases |rs|
  {
    if |rs| > 0 {
      RunsFromOk(line, rs[1..], rs[0].start + rs[0].len);
      RunsOkCons(line, rs[0], rs[1..], i);
      assert [rs[0]] + rs[1..] == rs;
    }
  }

  /** Every run the scan reports from cursor i is well formed, starts at or after i, and the runs come in order without overlapping. */
  lemma ScanSound(line: seq<Cell>, i: nat)
    requires i <= |line|
    ensures RunsOk(line, Scan(line, i), i)
  {
    ScanRuns(line, i);
    RunsFromOk(line, Scan(line, i), i);
  }

  lemma {:induction false} ScanRuns(line: seq<Cell>, i: nat)
    requires i <= |line|
    ensures RunsFrom(line, Scan(line, i), i)
    decreases |line| - i
  {
    if i + 2 >= |line| {
    } else if line[i].None? {
      ScanRuns(line, i + 1);
      assert Scan(line, i) == Scan(line, i + 1);
    } else {
      var len := 1 + RunFrom(line, i + 1, line[i].value.kind);
      ScanAt(line, i);
      if len >= 3 {
        var rest := Scan(line, i + len);
        ScanRuns(line, i + len);
        RunAtOk(line, i);
        assert ([Run(i, len)] + rest)[1..] == rest;
      } else {
        ScanRuns(line, i + 1);
      }
    }
  }

  /** The scan from cursor i reports nothing exactly when no three same-kind jewels line up at or after i. */
  lemma {:induction false} ScanEmptyIff(line: seq<Cell>, i: nat)
    requires i <= |line|
    ensures Scan(line, i) == [] <==> forall j :: i <= j ==> !TripleAt(line, j)
    decreases |line| - i
  {
    if i + 2 >= |line| {
    } else if line[i].None? {
      ScanEmptyIff(line, i + 1);
      assert !TripleAt(line, i);
    } else {
      var k := line[i].value.kind;
      var len := 1 + RunFrom(line, i + 1, k);
      if len >= 3 {
        assert TripleAt(line, i);
      } else {
        ScanEmptyIff(line, i + 1);
        if RunFrom(line, i + 1, k) == 0 {
          assert !HasKind(line[i + 1], k);
        } else {
          assert !HasKind(line[i + 2], k);
        }
        assert !TripleAt(line, i);
      }
    }
  }

  /** The cells of a horizontal run in row y, left to right. */
  function HMatch(y: int, r: Run): seq<Pos>
  {
    seq(r.len, k => (r.start + k, y))
  }

  /** The cells of a vertical run in column x, top to bottom. */
  function VMatch(x: int, r: Run): seq<Pos>
  {
    seq(r.len, k => (x, r.start + k))
  }

  /** Column x of the grid, top to bottom. */
  function Column(g: Grid, w: nat, h: nat, x: int): (col: seq<Cell>)
    requires Shaped(g, w, h) && 0 <= x < w
    ensures |col| == h
    ensures forall y :: 0 <= y < h ==> col[y] == g[y][x]
  {
    seq(h, y requires 0 <= y < h => g[y][x])
  }

  function RowMatches(y: int, rs: seq<Run>): seq<seq<Pos>>
  {
    seq(|rs|, i requires 0 <= i < |rs| => HMatch(y, rs[i]))
  }

  function ColumnMatches(x: int, rs: seq<Run>): seq<seq<Pos>>
  {
    seq(|rs|, i requires 0 <= i < |rs| => VMatch(x, rs[i]))
  }

  /** The horizontal pass over rows y .. h - 1. */
  function HPass(g: Grid, w: nat, h: nat, y: nat): seq<seq<Pos>>
    requires Shaped(g, w, h) && y <= h
    decreases h - y
  {
    if y == h then [] else RowMatches(y, Scan(g[y], 0)) + HPass(g, w, h, y + 1)
  }

  /** The vertical pass over columns x .. w - 1. */
  function VPass(g: Grid, w: nat, h: nat, x: nat): seq<seq<Pos>>
    requires Shaped(g, w, h) && x <= w
    decreases w - x
  {
    if x == w then [] else ColumnMatches(x, Scan(Column(g, w, h, x), 0)) + VPass(g, w, h, x + 1)
  }

  /** find_matches: all horizontal matches (row by row), then all vertical ones (column by column). */
  function Matches(g: Grid, w: nat, h: nat): seq<seq<Pos>>
    requires Shaped(g, w, h)
  {
    HPass(g, w, h, 0) + VPass(g, w, h, 0)
  }

  /** Three same-kind jewels side by side starting at (x, y). */
  predicate HTriple(g: Grid, w: nat, h: nat, x: int, y: int)
    requires Shaped(g, w, h)
  {
    0 <= y < h && TripleAt(g[y], x)
  }

  /** Three same-kind jewels one above the other starting at (x, y). */
  predicate VTriple(g: Grid, w: nat, h: nat, x: int, y: int)
    requires Shaped(g, w, h)
  {
    0 <= x < w && TripleAt(Column(g, w, h, x), y)
  }

  predicate TripleFrom(g: Grid, w: nat, h: nat, x: int, y: int)
    requires Shaped(g, w, h)
  {
    HTriple(g, w, h, x, y) || VTriple(g, w, h, x, y)
  }

  /** Somewhere on the board three same-kind jewels line up. */
  ghost predicate HasTriple(g: Grid, w: nat, h: nat)
    requires Shaped(g, w, h)
  {
    exists y, x :: TripleFrom(g, w, h, x, y)
  }

  lemma {:induction false} HPassEmptyIff(g: Grid, w: nat, h: nat, y: nat)
    requires Shaped(g, w, h) && y <= h
    ensures HPass(g, w, h, y) == [] <==> forall yy, x :: y <= yy < h ==> !HTriple(g, w, h, x, yy)
    decreases h - y
  {
    if y < h {
      HPassEmptyIff(g, w, h, y + 1);
      ScanEmptyIff(g[y], 0);
      if Scan(g[y], 0) != [] {
        var x :| 0 <= x && TripleAt(g[y], x);
        assert HTriple(g, w, h, x, y);
      }
    }
  }

  lemma {:induction false} VPassEmptyIff(g: Grid, w: nat, h: nat, x: nat)
    requires Shaped(g, w, h) && x <= w
    ensures VPass(g, w, h, x) == [] <==> forall xx, y :: x <= xx < w ==> !VTriple(g, w, h, xx, y)
    decreases w - x
  {
    if x < w {
      VPassEmptyIff(g, w, h, x + 1);
      ScanEmptyIff(Column(g, w, h, x), 0);
      if Scan(Column(g, w, h, x), 0) != [] {
        var y :| 0 <= y && TripleAt(Column(g, w, h, x), y);
        assert VTriple(g, w, h, x, y);
      }
    }
  }

  /** find_matches reports nothing exactly when no three same-kind jewels line up anywhere. */
  lemma MatchesEmptyIff(g: Grid, w: nat, h: nat)
    requires Shaped(g, w, h)
    ensures Matches(g, w, h) == [] <==> !HasTriple(g, w, h)
  {
    HPassEmptyIff(g, w, h, 0);
    VPassEmptyIff(g, w, h, 0);
    if HasTriple(g, w, h) {
      var y, x :| TripleFrom(g, w, h, x, y);
      if HTriple(g, w, h, x, y) {
        assert HPass(g, w, h, 0) != [];
      } else {
        assert VPass(g, w, h, 0) != [];
      }
    }
    if Matches(g, w, h) != [] {
      if HPass(g, w, h, 0) != [] {
        var yy, x :| 0 <= yy < h && HTriple(g, w, h, x, yy);
        assert TripleFrom(g, w, h, x, yy);
      } else {
        var xx, y :| 0 <= xx < w && VTriple(g, w, h, xx, y);
        assert TripleFrom(g, w, h, xx, y);
      }
    }
  }

  /** A reported horizontal match: three or more consecutive cells of one row, left to right, forming a scan run there. */
  predicate HorizontalMatch(g: Grid, w: nat, h: nat, m: seq<Pos>)
    requires Shaped(g, w, h)
  {
    && |m| >= 3 && 0 <= m[0].1 < h && 0 <= m[0].0
    && (forall i :: 0 <= i < |m| ==> m[i] == (m[0].0 + i, m[0].1))
    && RunOk(g[m[0].1], Run(m[0].0, |m|))
  }

  /** A reported vertical match: three or more consecutive cells of one column, top to bottom, forming a scan run there. */
  predicate VerticalMatch(g: Grid, w: nat, h: nat, m: seq<Pos>)
    requires Shaped(g, w, h)
  {
    && |m| >= 3 && 0 <= m[0].0 < w && 0 <= m[0].1
    && (forall i :: 0 <= i < |m| ==> m[i] == (m[0].0, m[0].1 + i))
    && RunOk(Column(g, w, h, m[0].0), Run(m[0].1, |m|))
  }

  /** Horizontal matches come row by row, and within a row left to right without overlapping. */
  predicate RowOrdered(ms: seq<seq<Pos>>)
  {
    && (forall i :: 0 <= i < |ms| ==> |ms[i]| > 0)
    && forall i, j :: 0 <= i < j < |ms| ==>
         ms[i][0].1 < ms[j][0].1 || (ms[i][0].1 == ms[j][0].1 && ms[i][0].0 + |ms[i]| <= ms[j][0].0)
  }

  /** Vertical matches come column by column, and within a column top to bottom without overlapping. */
  predicate ColumnOrdered(ms: seq<seq<Pos>>)
  {
    && (forall i :: 0 <= i < |ms| ==> |ms[i]| > 0)
    && forall i, j :: 0 <= i < j < |ms| ==>
         ms[i][0].0 < ms[j][0].0 || (ms[i][0].0 == ms[j][0].0 && ms[i][0].1 + |ms[i]| <= ms[j][0].1)
  }

  lemma {:induction false} HPassSound(g: Grid, w: nat, h: nat, y: nat)
    requires Shaped(g, w, h) && y <= h
    ensures forall i :: 0 <= i < |HPass(g, w, h, y)| ==>
      HorizontalMatch(g, w, h, HPass(g, w, h, y)[i]) && y <= HPass(g, w, h, y)[i][0].1
    ensures RowOrdered(HPass(g, w, h, y))
    decreases h - y
  {
    if y < h {
      HPassSound(g, w, h, y + 1);
      RowMatchesSound(g, w, h, y);
      var row := RowMatches(y, Scan(g[y], 0));
      var rest := HPass(g, w, h, y + 1);
      assert HPass(g, w, h, y) == row + rest;
    }
  }

  /** The matches of one row are horizontal matches of that row, in order. */
  lemma RowMatchesSound(g: Grid, w: nat, h: nat, y: nat)
    requires Shaped(g, w, h) && y < h
    ensures forall i :: 0 <= i < |RowMatches(y, Scan(g[y], 0))| ==>
      HorizontalMatch(g, w, h, RowMatches(y, Scan(g[y], 0))[i])
      && RowMatches(y, Scan(g[y], 0))[i][0].1 == y
    ensures RowOrdered(RowMatches(y, Scan(g[y], 0)))
  {
    var runs := Scan(g[y], 0);
    ScanSound(g[y], 0);
    var rm := RowMatches(y, runs);
    forall i | 0 <= i < |rm| ensures HorizontalMatch(g, w, h, rm[i]) && rm[i][0].1 == y {
      assert rm[i] == HMatch(y, runs[i]);
    }
  }

  /** The matches of one column are vertical matches of that column, in order. */
  lemma ColumnMatchesSound(g: Grid, w: nat, h: nat, x: nat)
    requires Shaped(g, w, h) && x < w
    ensures forall i :: 0 <= i < |ColumnMatches(x, Scan(Column(g, w, h, x), 0))| ==>
      VerticalMatch(g, w, h, ColumnMatches(x, Scan(Column(g, w, h, x), 0))[i])
      && ColumnMatches(x, Scan(Column(g, w, h, x), 0))[i][0].0 == x
    ensures ColumnOrdered(ColumnMatches(x, Scan(Column(g, w, h, x), 0)))
  {
    var col := Column(g, w, h, x);
    var runs := Scan(col, 0);
    ScanSound(col, 0);
    var cm := ColumnMatches(x, runs);
    forall i | 0 <= i < |cm| ensures VerticalMatch(g, w, h, cm[i]) && cm[i][0].0 == x {
      assert cm[i] == VMatch(x, runs[i]);
    }
  }

  lemma {:induction false} VPassSound(g: Grid, w: nat, h: nat, x: nat)
    requires Shaped(g, w, h) && x <= w
    ensures forall i :: 0 <= i < |VPass(g, w, h, x)| ==>
      VerticalMatch(g, w, h, VPass(g, w, h, x)[i]) && x <= VPass(g, w, h, x)[i][0].0
    ensures ColumnOrdered(VPass(g, w, h, x))
    decreases w - x
  {
    if x < w {
      VPassSound(g, w, h, x + 1);
      ColumnMatchesSound(g, w, h, x);
      var cm := ColumnMatches(x, Scan(Column(g, w, h, x), 0));
      var rest := VPass(g, w, h, x + 1);
      assert VPass(g, w, h, x) == cm + rest;
    }
  }

  /**
   * What find_matches reports: every match is a horizontal or a vertical
   * run of three or more same-type jewels, maximal to the right or below.
   */
  lemma MatchesWellFormed(g: Grid, w: nat, h: nat)
    requires Shaped(g, w, h)
    ensures forall i :: 0 <= i < |Matches(g, w, h)| ==>
      HorizontalMatch(g, w, h, Matches(g, w, h)[i]) || VerticalMatch(g, w, h, Matches(g, w, h)[i])
  {
    HPassSound(g, w, h, 0);
    VPassSound(g, w, h, 0);
    var k := |HPass(g, w, h, 0)|;
    assert Matches(g, w, h)[..k] == HPass(g, w, h, 0);
    assert Matches(g, w, h)[k..] == VPass(g, w, h, 0);
  }

  /**
   * The order of find_matches' report: all horizontal matches precede all
   * vertical ones, and matches of one row (or column) come in order without
   * overlapping.
   */
  lemma MatchesOrdered(g: Grid, w: nat, h: nat)
    requires Shaped(g, w, h)
    ensures exists k :: (0 <= k <= |Matches(g, w, h)|
      && (forall i :: 0 <= i < k ==> HorizontalMatch(g, w, h, Matches(g, w, h)[i]))
      && (forall i :: k <= i < |Matches(g, w, h)| ==> VerticalMatch(g, w, h, Matches(g, w, h)[i]))
      && RowOrdered(Matches(g, w, h)[..k]) && ColumnOrdered(Matches(g, w, h)[k..]))
  {
    HPassSound(g, w, h, 0);
    VPassSound(g, w, h, 0);
    var k := |HPass(g, w, h, 0)|;
    assert Matches(g, w, h)[..k] == HPass(g, w, h, 0);
    assert Matches(g, w, h)[k..] == VPass(g, w, h, 0);
  }

  /** The type held by a cell, if any: all that find_matches looks at. */
  function KindOf(c: Cell): Option<int>
  {
    if c.Some? then Some(c.value.kind) else None
  }

  predicate SameKindLines(l1: seq<Cell>, l2: seq<Cell>)
  {
    |l1| == |l2| && forall i :: 0 <= i < |l1| ==> KindOf(l1[i]) == KindOf(l2[i])
  }

  /** The two grids hold jewels of the same types in the same cells. */
  predicate SameKinds(g1: Grid, g2: Grid, w: nat, h: nat)
    requires Shaped(g1, w, h) && Shaped(g2, w, h)
  {
    forall y, x :: 0 <= y < h && 0 <= x < w ==> KindOf(g1[y][x]) == KindOf(g2[y][x])
  }

  lemma {:induction false} RunFromSameKinds(l1: seq<Cell>, l2: seq<Cell>, i: nat, k: int)
    requires SameKindLines(l1, l2) && i <= |l1|
    ensures RunFrom(l1, i, k) == RunFrom(l2, i, k)
    decreases |l1| - i
  {
    if i < |l1| {
      assert HasKind(l1[i], k) == HasKind(l2[i], k) by {
        assert KindOf(l1[i]) == KindOf(l2[i]);
      }
      RunFromSameKinds(l1, l2, i + 1, k);
    }
  }

  lemma {:induction false} ScanSameKinds(l1: seq<Cell>, l2: seq<Cell>, i: nat)
    requires SameKindLines(l1, l2) && i <= |l1|
    ensures Scan(l1, i) == Scan(l2, i)
    decreases |l1| - i, 1
  {
    if i + 2 < |l1| {
      assert KindOf(l1[i]) == KindOf(l2[i]);
      if l1[i].None? {
        ScanSameKinds(l1, l2, i + 1);
      } else {
        ScanSameKindsAt(l1, l2, i);
      }
    }
  }

  /** The occupied-cursor case of ScanSameKinds: both scans measure the same run. */
  lemma {:induction false} ScanSameKindsAt(l1: seq<Cell>, l2: seq<Cell>, i: nat)
    requires SameKindLines(l1, l2) && i + 2 < |l1| && l1[i].Some?
    ensures Scan(l1, i) == Scan(l2, i)
    decreases |l1| - i, 0
  {
    var k := l1[i].value.kind;
    assert KindOf(l1[i]) == KindOf(l2[i]);
    RunFromSameKinds(l1, l2, i + 1, k);
    var len := 1 + RunFrom(l1, i + 1, k);
    assert l2[i].Some? && l2[i].value.kind == k;
    ScanAt(l1, i);
    ScanAt(l2, i);
    if len >= 3 {
      ScanSameKinds(l1, l2, i + len);
    } else {
      ScanSameKinds(l1, l2, i + 1);
    }
  }

  lemma {:induction false} HPassSameKinds(g1: Grid, g2: Grid, w: nat, h: nat, y: nat)
    requires Shaped(g1, w, h) && Shaped(g2, w, h) && SameKinds(g1, g2, w, h) && y <= h
    ensures HPass(g1, w, h, y) == HPass(g2, w, h, y)
    decreases h - y
  {
    if y < h {
      ScanSameKinds(g1[y], g2[y], 0);
      HPassSameKinds(g1, g2, w, h, y + 1);
    }
  }

  lemma {:induction false} VPassSameKinds(g1: Grid, g2: Grid, w: nat, h: nat, x: nat)
    requires Shaped(g1, w, h) && Shaped(g2, w, h) && SameKinds(g1, g2, w, h) && x <= w
    ensures VPass(g1, w, h, x) == VPass(g2, w, h, x)
    decreases w - x
  {
    if x < w {
      ScanSameKinds(Column(g1, w, h, x), Column(g2, w, h, x), 0);
      VPassSameKinds(g1, g2, w, h, x + 1);
    }
  }

  /** find_matches looks only at the types on the board: positions and animation flags of the jewels do not matter. */
  lemma MatchesSameKinds(g1: Grid, g2: Grid, w: nat, h: nat)
    requires Shaped(g1, w, h) && Shaped(g2, w, h) && SameKinds(g1, g2, w, h)
    ensures Matches(g1, w, h) == Matches(g2, w, h)
  {
    HPassSameKinds(g1, g2, w, h, 0);
    VPassSameKinds(g1, g2, w, h, 0);
  }

  /**
   * One line of find_matches' scan: the cursor x walks the line; at an
   * occupied cell an inner loop measures the run of its type; a run of three
   * or more is reported and jumped over.
   */
  method ScanLine(line: seq<Cell>) returns (runs: seq<Run>)
    ensures runs == Scan(line, 0)
  {
    runs := [];
    var x := 0;
    while x + 2 < |line|
      invariant x <= |line|
      invariant runs + Scan(line, x) == Scan(line, 0)
      decreases |line| - x
    {
      if line[x].Some? {
        var len := RunLength(line, x);
        if len >= 3 {
          assert Scan(line, x) == [Run(x, len)] + Scan(line, x + len);
          assert runs + Scan(line, x) == (runs + [Run(x, len)]) + Scan(line, x + len);
          runs := runs + [Run(x, len)];
          x := x + len;
          continue;
        }
      }
      assert Scan(line, x) == Scan(line, x + 1);
      x := x + 1;
    }
  }

  /** The inner loop of the scan: the length of the same-type run that starts at occupied cell x. */
  method RunLength(line: seq<Cell>, x: nat) returns (len: nat)
    requires x < |line| && line[x].Some?
    ensures len == 1 + RunFrom(line, x + 1, line[x].value.kind)
  {
    var k := line[x].value.kind;
    len := 1;
    while x + len < |line| && line[x + len].Some? && line[x + len].value.kind == k
      invariant 1 <= len && x + len <= |line|
      invariant len + RunFrom(line, x + len, k) == 1 + RunFrom(line, x + 1, k)
      decreases |line| - len
    {
      len := len + 1;
    }
  }

  /** find_matches: the horizontal pass over every row, then the vertical pass over every column. */
  method FindMatches(g: Grid, w: nat, h: nat) returns (matches: seq<seq<Pos>>)
    requires Shaped(g, w, h)
    ensures matches == Matches(g, w, h)
  {
    matches := [];
    var y := 0;
    while y < h
      invariant y <= h
      invariant matches + HPass(g, w, h, y) == HPass(g, w, h, 0)
    {
      var runs := ScanLine(g[y]);
      assert HPass(g, w, h, y) == RowMatches(y, runs) + HPass(g, w, h, y + 1);
      assert matches + HPass(g, w, h, y) == (matches + RowMatches(y, runs)) + HPass(g, w, h, y + 1);
      matches := matches + RowMatches(y, runs);
      y := y + 1;
    }
    var x := 0;
    while x < w
      invariant x <= w
      invariant matches + VPass(g, w, h, x) == Matches(g, w, h)
    {
      var runs := ScanLine(Column(g, w, h, x));
      assert VPass(g, w, h, x) == ColumnMatches(x, runs) + VPass(g, w, h, x + 1);
      assert matches + VPass(g, w, h, x) == (matches + ColumnMatches(x, runs)) + VPass(g, w, h, x + 1);
      matches := matches + ColumnMatches(x, runs);
      x := x + 1;
    }
  }

  /** The neighbour offsets has_possible_moves tries, in its order: right, down, left, up. */
  const Directions: seq<(int, int)> := [(1, 0), (0, 1), (-1, 0), (0, -1)]

  /** Exchanging (x, y) with its neighbour in direction d (whatever the two cells hold) leaves some match on the board. */
  ghost predicate SwapMakesMatch(g: Grid, w: nat, h: nat, x: int, y: int, d: int)
    requires Shaped(g, w, h)
  {
    && 0 <= d < |Directions| && InBounds(w, h, x, y)
    && InBounds(w, h, x + Directions[d].0, y + Directions[d].1)
    && HasTriple(RawSwap(g, w, h, x, y, x + Directions[d].0, y + Directions[d].1), w, h)
  }

  /** The swaps that make a match, as (x, y, d): cell (x, y) with its neighbour in direction d. */
  ghost function Moves(g: Grid, w: nat, h: nat): set<(int, int, int)>
    requires Shaped(g, w, h)
  {
    set y, x, d | 0 <= y < h && 0 <= x < w && 0 <= d < |Directions| && SwapMakesMatch(g, w, h, x, y, d) :: (x, y, d)
  }

  /** Some neighbour swap makes a match. */
  ghost predicate MoveExists(g: Grid, w: nat, h: nat)
    requires Shaped(g, w, h)
  {
    Moves(g, w, h) != {}
  }

  /**
   * has_possible_moves: for each cell and each direction, swap in place,
   * look for a match, and swap back. The answer says whether some
   * neighbour swap makes a match, and the working grid ends as it began.
   */
  method HasPossibleMoves(g: Grid, w: nat, h: nat) returns (found: bool, after: Grid)
    requires Shaped(g, w, h)
    ensures found <==> MoveExists(g, w, h)
    ensures after == g
  {
    var cur := g;
    var y := 0;
    while y < h
      invariant y <= h && cur == g
      invariant forall yy, xx, d :: 0 <= yy < y ==> !SwapMakesMatch(g, w, h, xx, yy, d)
    {
      var x := 0;
      while x < w
        invariant x <= w && cur == g
        invariant forall yy, xx, d :: 0 <= yy < y ==> !SwapMakesMatch(g, w, h, xx, yy, d)
        invariant forall xx, d :: 0 <= xx < x ==> !SwapMakesMatch(g, w, h, xx, y, d)
      {
        found, cur := TryDirections(cur, w, h, x, y);
        if found {
          ghost var d :| SwapMakesMatch(g, w, h, x, y, d);
          assert (x, y, d) in Moves(g, w, h);
          return true, cur;
        }
        x := x + 1;
      }
      y := y + 1;
    }
    assert Moves(g, w, h) == {};
    return false, cur;
  }

  /** The direction loop of has_possible_moves for the cell (x, y): each in-board neighbour is swapped in, looked at, and swapped back. */
  method TryDirections(g: Grid, w: nat, h: nat, x: nat, y: nat) returns (found: bool, after: Grid)
    requires Shaped(g, w, h) && x < w && y < h
    ensures found <==> exists d :: SwapMakesMatch(g, w, h, x, y, d)
    ensures after == g
  {
    var cur := g;
    var d := 0;
    while d < |Directions|
      invariant d <= |Directions| && cur == g
      invariant forall dd :: 0 <= dd < d ==> !SwapMakesMatch(g, w, h, x, y, dd)
    {
      var nx, ny := x + Directions[d].0, y + Directions[d].1;
      if 0 <= nx < w && 0 <= ny < h {
        var made;
        made, cur := TrySwap(cur, w, h, x, y, nx, ny);
        MatchesEmptyIff(RawSwap(g, w, h, x, y, nx, ny), w, h);
        assert made <==> SwapMakesMatch(g, w, h, x, y, d);
        if made {
          return true, cur;
        }
      }
      d := d + 1;
    }
    return false, cur;
  }

  /** One probe of has_possible_moves: swap two cells in place, look for a match, swap them back. */
  method TrySwap(g: Grid, w: nat, h: nat, x1: int, y1: int, x2: int, y2: int) returns (made: bool, after: Grid)
    requires Shaped(g, w, h) && InBounds(w, h, x1, y1) && InBounds(w, h, x2, y2)
    ensures made <==> Matches(RawSwap(g, w, h, x1, y1, x2, y2), w, h) != []
    ensures after == g
  {
    after := RawSwap(g, w, h, x1, y1, x2, y2);
    var temp := FindMatches(after, w, h);
    made := temp != [];
    RawSwapTwice(g, w, h, x1, y1, x2, y2);
    after := RawSwap(after, w, h, x1, y1, x2, y2);
  }
}
