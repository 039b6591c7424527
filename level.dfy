/**
 * The level manager of the playing screen (LevelManager in
 * game/states/playing_state.py): the level's settings, the countdown of the
 * time-attack mode, the completion test of the score-challenge mode, the
 * preset board layout of a level and the pass that breaks up the matches a
 * preset layout may contain.
 */
module Levels {
  import opened Wrappers
  import opened Jewels
  import opened Grids
  import opened Matching
  import opened GridStore
  import opened Removal
  import opened HighScores
  import MainBoard

  /** One entry of levels.json: the time limit, the target score and an optional preset layout of jewel types ([] when absent). */
  datatype LevelConfig = LevelConfig(timeLimit: int, targetScore: int, board: seq<seq<int>>)

  /** fix_initial_matches gives up after this many passes. */
  const MaxAttempts: nat := 100

  /** update_time: the seconds left of a limit once `elapsed` whole seconds have passed, never below zero. */
  function TimeLeft(limit: int, elapsed: int): (t: int)
    ensures t >= 0
    ensures t > 0 <==> elapsed < limit
    ensures t > 0 ==> t + elapsed == limit
  {
    if limit - elapsed > 0 then limit - elapsed else 0
  }

  /** Once time has run out it stays out: a later reading never gives time back. */
  lemma TimeLeftMonotone(limit: int, e1: int, e2: int)
    requires e1 <= e2
    ensures TimeLeft(limit, e2) <= TimeLeft(limit, e1)
  {
  }

  /** The layout lists a catalogue type for cell (x, y). */
  predicate Listed(rows: seq<seq<int>>, f: JewelFactory, x: int, y: int)
  {
    0 <= y < |rows| && 0 <= x < |rows[y]| && 0 <= rows[y][x] < f.TypeCount()
  }

  /**
   * The copy loop of load_board_config: every cell inside both the board
   * and the layout whose listed type is in the catalogue receives a new
   * jewel of that type; every other cell keeps its content.
   */
  method ApplyLayout(g: Grid, w: nat, h: nat, rows: seq<seq<int>>, f: JewelFactory) returns (r: Grid)
    requires Shaped(g, w, h)
    ensures Shaped(r, w, h)
    ensures forall y, x :: 0 <= y < h && 0 <= x < w ==>
      r[y][x] == if Listed(rows, f, x, y) then Some(NewJewel(rows[y][x], x, y, f.configs[rows[y][x]])) else g[y][x]
    ensures forall y, x :: 0 <= y < h && 0 <= x < w ==> r[y][x] == g[y][x] || Fresh(r[y][x], f, x, y)
    ensures Placed(g, w, h) ==> Placed(r, w, h)
    ensures Full(g, w, h) ==> Full(r, w, h)
  {
    r := g;
    var y := 0;
    var ny := if |rows| < h then |rows| else h;
    while y < ny
      invariant y <= ny && Shaped(r, w, h)
      invariant forall yy, xx :: 0 <= yy < h && 0 <= xx < w ==>
        r[yy][xx] == if yy < y && Listed(rows, f, xx, yy) then Some(NewJewel(rows[yy][xx], xx, yy, f.configs[rows[yy][xx]])) else g[yy][xx]
    {
      var x := 0;
      var nx := if |rows[y]| < w then |rows[y]| else w;
      while x < nx
        invariant x <= nx && Shaped(r, w, h)
        invariant forall yy, xx :: 0 <= yy < h && 0 <= xx < w ==>
          r[yy][xx] == if (yy < y || (yy == y && xx < x)) && Listed(rows, f, xx, yy)
            then Some(NewJewel(rows[yy][xx], xx, yy, f.configs[rows[yy][xx]])) else g[yy][xx]
      {
        var t := rows[y][x];
        if 0 <= t < f.TypeCount() {
          r := Set(r, w, h, x, y, Some(NewJewel(t, x, y, f.configs[t])));
        }
        x := x + 1;
      }
      y := y + 1;
    }
  }

  /** Every cell of every reported match holds a jewel. */
  lemma MatchCellsOccupied(g: Grid, w: nat, h: nat)
    requires Shaped(g, w, h)
    ensures AllOccupied(g, w, h, Flatten(Matches(g, w, h)))
  {
    var ms := Matches(g, w, h);
    MatchesWellFormed(g, w, h);
    forall p | p in Flatten(ms) ensures Occupied(g, w, h, p) {
      var i :| 0 <= i < |ms| && p in ms[i];
      var j :| 0 <= j < |ms[i]| && ms[i][j] == p;
      MatchCellOccupied(g, w, h, ms[i], j);
    }
  }

  /** A cell of one well-formed match holds a jewel. */
  lemma MatchCellOccupied(g: Grid, w: nat, h: nat, m: seq<Pos>, j: int)
    requires Shaped(g, w, h) && 0 <= j < |m|
    requires HorizontalMatch(g, w, h, m) || VerticalMatch(g, w, h, m)
    ensures Occupied(g, w, h, m[j])
  {
    if HorizontalMatch(g, w, h, m) {
      assert m[j] == (m[0].0 + j, m[0].1);
      assert HasKind(g[m[0].1][m[0].0 + j], g[m[0].1][m[0].0].value.kind);
    } else {
      assert m[j] == (m[0].0, m[0].1 + j);
      var col := Column(g, w, h, m[0].0);
      assert HasKind(col[m[0].1 + j], col[m[0].1].value.kind);
    }
  }

  /** One retyping step of fix_initial_matches: cell (x, y) gets a new jewel of any catalogue type other than the one it holds. */
  method RetypeCell(g: Grid, w: nat, h: nat, f: JewelFactory, x: int, y: int) returns (r: Grid)
    requires Shaped(g, w, h) && InBounds(w, h, x, y) && g[y][x].Some? && f.TypeCount() >= 2
    ensures Shaped(r, w, h)
    ensures Fresh(r[y][x], f, x, y) && r[y][x].value.kind != g[y][x].value.kind
    ensures forall yy, xx :: 0 <= yy < h && 0 <= xx < w && (xx != x || yy != y) ==> r[yy][xx] == g[yy][xx]
  {
    var bad := g[y][x].value.kind;
    assert (if bad == 0 then 1 else 0) != bad;
    var t :| 0 <= t < f.TypeCount() && t != bad;
    r := Set(g, w, h, x, y, Some(NewJewel(t, x, y, f.configs[t])));
  }

  /**
   * What a retyping pass has done once it has visited the cells of `done`
   * (in order): visited cells hold new catalogue jewels, a cell visited
   * exactly once has a different type than in g, and unvisited cells are as
   * in g.
   */
  ghost predicate Retyped(g: Grid, r: Grid, w: nat, h: nat, f: JewelFactory, done: seq<Pos>)
    requires Shaped(g, w, h) && Shaped(r, w, h)
  {
    && (forall y, x :: 0 <= y < h && 0 <= x < w && (x, y) in done ==> Fresh(r[y][x], f, x, y))
    && (forall y, x :: 0 <= y < h && 0 <= x < w && (x, y) !in done ==> r[y][x] == g[y][x])
    && (forall y, x :: 0 <= y < h && 0 <= x < w && multiset(done)[(x, y)] == 1 ==> KindOf(r[y][x]) != KindOf(g[y][x]))
  }

  /** Visiting one more cell q, which gets a fresh jewel of another type than it held, extends the pass. */
  lemma RetypedStep(g: Grid, r0: Grid, r: Grid, w: nat, h: nat, f: JewelFactory, done: seq<Pos>, q: Pos)
    requires Shaped(g, w, h) && Shaped(r0, w, h) && Shaped(r, w, h) && InBounds(w, h, q.0, q.1)
    requires Retyped(g, r0, w, h, f, done)
    requires Fresh(r[q.1][q.0], f, q.0, q.1) && KindOf(r[q.1][q.0]) != KindOf(r0[q.1][q.0])
    requires forall yy, xx :: 0 <= yy < h && 0 <= xx < w && (xx != q.0 || yy != q.1) ==> r[yy][xx] == r0[yy][xx]
    ensures Retyped(g, r, w, h, f, done + [q])
  {
    assert multiset(done + [q]) == multiset(done) + multiset{q};
    forall y, x | 0 <= y < h && 0 <= x < w && multiset(done + [q])[(x, y)] == 1
      ensures KindOf(r[y][x]) != KindOf(g[y][x])
    {
      if (x, y) == q {
        assert multiset(done)[q] == 0;
        assert r0[y][x] == g[y][x];
      } else {
        assert multiset(done)[(x, y)] == 1;
      }
    }
  }

  /** The inner loop of a pass: visit the cells of one match in order. */
  method RetypeCells(g: Grid, w: nat, h: nat, f: JewelFactory, r0: Grid, ghost done0: seq<Pos>, cells: seq<Pos>) returns (r: Grid)
    requires Shaped(g, w, h) && Shaped(r0, w, h) && AllOccupied(g, w, h, cells) && f.TypeCount() >= 2
    requires Retyped(g, r0, w, h, f, done0)
    ensures Shaped(r, w, h) && Retyped(g, r, w, h, f, done0 + cells)
  {
    r := r0;
    var j := 0;
    while j < |cells|
      invariant j <= |cells| && Shaped(r, w, h)
      invariant Retyped(g, r, w, h, f, done0 + cells[..j])
    {
      var q := cells[j];
      assert Occupied(g, w, h, q);
      var r1 := r;
      r := RetypeCell(r1, w, h, f, q.0, q.1);
      RetypedStep(g, r1, r, w, h, f, done0 + cells[..j], q);
      assert cells[..j + 1] == cells[..j] + [q];
      assert done0 + cells[..j + 1] == done0 + cells[..j] + [q];
      j := j + 1;
    }
    assert cells[..j] == cells;
  }

  /**
   * One pass of fix_initial_matches over the reported matches, cell by cell
   * in report order. Listed cells hold new catalogue jewels afterwards, and a
   * cell listed exactly once ends up with a different type than before; a
   * cell listed twice (where a row and a column match cross) is retyped
   * twice, so it may get its old type back. Nothing else changes.
   */
  method RetypePass(g: Grid, w: nat, h: nat, f: JewelFactory, ms: seq<seq<Pos>>) returns (r: Grid)
    requires Shaped(g, w, h) && AllOccupied(g, w, h, Flatten(ms)) && f.TypeCount() >= 2
    ensures Shaped(r, w, h)
    ensures forall y, x :: 0 <= y < h && 0 <= x < w && (x, y) in Flatten(ms) ==> Fresh(r[y][x], f, x, y)
    ensures forall y, x :: 0 <= y < h && 0 <= x < w && (x, y) !in Flatten(ms) ==> r[y][x] == g[y][x]
    ensures forall y, x :: 0 <= y < h && 0 <= x < w && multiset(Flatten(ms))[(x, y)] == 1 ==> KindOf(r[y][x]) != KindOf(g[y][x])
  {
    r := g;
    var i := 0;
    assert Flatten(ms[..0]) == [];
    while i < |ms|
      invariant i <= |ms| && Shaped(r, w, h)
      invariant Retyped(g, r, w, h, f, Flatten(ms[..i]))
    {
      assert AllOccupied(g, w, h, ms[i]);
      r := RetypeCells(g, w, h, f, r, Flatten(ms[..i]), ms[i]);
      FlattenStep(ms, i);
      i := i + 1;
    }
    assert ms[..i] == ms;
  }

  /**
   * fix_initial_matches on a grid: while matches remain, and for at most
   * MaxAttempts passes, retype every matched cell and look again. It ends
   * with no match unless it gave up, changes nothing when there was no match
   * to begin with, and only ever replaces jewels by new catalogue jewels.
   */
  method FixMatches(g: Grid, w: nat, h: nat, f: JewelFactory) returns (r: Grid, attempts: nat)
    requires Shaped(g, w, h) && f.TypeCount() >= 2
    ensures Shaped(r, w, h)
    ensures attempts <= MaxAttempts
    ensures attempts < MaxAttempts ==> Matches(r, w, h) == []
    ensures Matches(g, w, h) == [] ==> r == g && attempts == 0
    ensures forall y, x :: 0 <= y < h && 0 <= x < w ==> r[y][x].Some? == g[y][x].Some?
    ensures forall y, x :: 0 <= y < h && 0 <= x < w ==> r[y][x] == g[y][x] || Fresh(r[y][x], f, x, y)
    ensures Placed(g, w, h) ==> Placed(r, w, h)
  {
    r := g;
    var matches := FindMatches(r, w, h);
    attempts := 0;
    while matches != [] && attempts < MaxAttempts
      invariant Shaped(r, w, h) && matches == Matches(r, w, h) && attempts <= MaxAttempts
      invariant attempts == 0 ==> r == g
      invariant Matches(g, w, h) == [] ==> attempts == 0
      invariant forall y, x :: 0 <= y < h && 0 <= x < w ==> r[y][x].Some? == g[y][x].Some?
      invariant forall y, x :: 0 <= y < h && 0 <= x < w ==> r[y][x] == g[y][x] || Fresh(r[y][x], f, x, y)
      decreases MaxAttempts - attempts
    {
      MatchCellsOccupied(r, w, h);
      var r0 := r;
      r := RetypePass(r0, w, h, f, matches);
      forall y, x | 0 <= y < h && 0 <= x < w
        ensures r[y][x].Some? == g[y][x].Some?
        ensures r[y][x] == g[y][x] || Fresh(r[y][x], f, x, y)
      {
        if (x, y) !in Flatten(matches) {
          assert r[y][x] == r0[y][x];
        }
      }
      matches := FindMatches(r, w, h);
      attempts := attempts + 1;
    }
  }

  /** LevelManager: the settings of the level being played. */
  class LevelManager {
    const mode: Mode
    const level: int
    const config: LevelConfig
    const targetScore: int
    const factory: JewelFactory
    const avoidMatches: bool
    var timeLeft: int

    /** __init__: look the level up (levels are numbered from 1) and start its clock. */
    constructor (levels: seq<LevelConfig>, factory: JewelFactory, mode: Mode, level: int)
      requires 1 <= level <= |levels|
      ensures this.mode == mode && this.level == level && this.factory == factory
      ensures config == levels[level - 1] && targetScore == config.targetScore && avoidMatches
      ensures timeLeft == if mode == TimeAttack then config.timeLimit else 0
    {
      this.mode := mode;
      this.level := level;
      this.factory := factory;
      config := levels[level - 1];
      targetScore := levels[level - 1].targetScore;
      avoidMatches := true;
      timeLeft := if mode == TimeAttack then levels[level - 1].timeLimit else 0;
    }

    /**
     * update_time, given the whole seconds elapsed since the level started:
     * in time-attack mode the countdown is recomputed and the level goes on
     * while time is left; in the other mode the level always goes on.
     */
    method UpdateTime(elapsed: int) returns (running: bool)
      modifies this
      ensures mode == TimeAttack ==> timeLeft == TimeLeft(config.timeLimit, elapsed) && (running <==> elapsed < config.timeLimit)
      ensures mode != TimeAttack ==> timeLeft == old(timeLeft) && running
    {
      if mode == TimeAttack {
        timeLeft := TimeLeft(config.timeLimit, elapsed);
        return timeLeft > 0;
      }
      return true;
    }

    /** check_level_complete: only the score-challenge mode completes, once the target score is reached. */
    function CheckLevelComplete(score: int): (complete: bool)
      ensures complete <==> mode == ScoreChallenge && score >= targetScore
    {
      mode == ScoreChallenge && score >= targetScore
    }

    /** A completed level stays complete as the score grows. */
    lemma CompleteStays(s1: int, s2: int)
      requires s1 <= s2 && CheckLevelComplete(s1)
      ensures CheckLevelComplete(s2)
    {
    }

    /** fix_initial_matches on the board; reports whether it gave up with matches left. */
    method FixInitialMatches(board: MainBoard.Board) returns (warned: bool)
      modifies board.gm
      requires board.Valid() && factory.TypeCount() >= 2
      ensures board.Valid()
      ensures !warned ==> Matches(board.gm.grid, board.gm.width, board.gm.height) == []
      ensures Matches(old(board.gm.grid), board.gm.width, board.gm.height) == [] ==> board.gm.grid == old(board.gm.grid) && !warned
      ensures forall y, x :: 0 <= y < board.gm.height && 0 <= x < board.gm.width ==>
        board.gm.grid[y][x].Some? == old(board.gm.grid[y][x].Some?)
      ensures forall y, x :: 0 <= y < board.gm.height && 0 <= x < board.gm.width ==>
        board.gm.grid[y][x] == old(board.gm.grid[y][x]) || Fresh(board.gm.grid[y][x], factory, x, y)
    {
      var r, attempts := FixMatches(board.gm.grid, board.gm.width, board.gm.height, factory);
      board.gm.grid := r;
      warned := attempts >= MaxAttempts;
    }

    /**
     * load_board_config: without a preset layout nothing happens; otherwise
     * the layout is copied onto the board and the matches it creates are
     * broken up.
     */
    method LoadBoardConfig(board: MainBoard.Board) returns (warned: bool)
      modifies board.gm
      requires board.Valid() && factory.TypeCount() >= 2
      ensures board.Valid()
      ensures config.board == [] ==> board.gm.grid == old(board.gm.grid) && !warned
      ensures config.board != [] && !warned ==> Matches(board.gm.grid, board.gm.width, board.gm.height) == []
      ensures Full(old(board.gm.grid), board.gm.width, board.gm.height) ==> Full(board.gm.grid, board.gm.width, board.gm.height)
      ensures forall y, x :: 0 <= y < board.gm.height && 0 <= x < board.gm.width ==>
        board.gm.grid[y][x] == old(board.gm.grid[y][x]) || Fresh(board.gm.grid[y][x], factory, x, y)
    {
      if config.board == [] {
        return false;
      }
      var loaded := ApplyLayout(board.gm.grid, board.gm.width, board.gm.height, config.board, factory);
      board.gm.grid := loaded;
      warned := FixInitialMatches(board);
    }
  }
}
