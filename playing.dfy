/**
 * The playing screen (PlayingState in game/states/playing_state.py): an
 * 8 x 8 main board, the level manager, the per-type jewel counters and the
 * score, driven once per frame by `update` (deadlock reshuffle, countdown,
 * score target, cascade) and by mouse clicks (cell selection).
 */
module Playing {
  import opened Wrappers
  import opened Jewels
  import opened Grids
  import opened Matching
  import opened GridStore
  import opened Removal
  import opened LocalCheck
  import opened Reshuffle
  import opened Stats
  import opened HighScores
  import opened Levels
  import MainBoard

  const ScreenWidth: int := 800
  /** GRID_SIZE: the board is GridSize x GridSize cells. */
  const GridSize: nat := 8
  /** CELL_SIZE: the side of a cell in pixels. */
  const CellSize: int := 60
  /** The pixel position of the board's top-left corner, as __init__ sets it. */
  const GridOffsetX: int := (ScreenWidth - GridSize * CellSize) / 2 + 30
  const GridOffsetY: int := 100 - 10
  /** The no-moves message is shown this many seconds before the flag clears. */
  const NoMovesInterval: real := 2.0

  /**
   * handle_events' mapping of a click to a cell: Python's floor division by
   * the cell size, which for a positive divisor agrees with Dafny's `/`. The
   * clicked pixel lies inside the square of the cell it maps to.
   */
  function CellAt(mx: int, my: int): (p: Pos)
    ensures GridOffsetX + p.0 * CellSize <= mx < GridOffsetX + (p.0 + 1) * CellSize
    ensures GridOffsetY + p.1 * CellSize <= my < GridOffsetY + (p.1 + 1) * CellSize
  {
    ((mx - GridOffsetX) / CellSize, (my - GridOffsetY) / CellSize)
  }

  /** A click reaches the board exactly when it falls inside the board's square of pixels. */
  lemma CellAtOnBoard(mx: int, my: int)
    ensures InBounds(GridSize, GridSize, CellAt(mx, my).0, CellAt(mx, my).1) <==>
      GridOffsetX <= mx < GridOffsetX + GridSize * CellSize && GridOffsetY <= my < GridOffsetY + GridSize * CellSize
  {
    var p := CellAt(mx, my);
    if GridOffsetX <= mx < GridOffsetX + GridSize * CellSize {
      assert 0 <= p.0 < GridSize;
    }
    if GridOffsetY <= my < GridOffsetY + GridSize * CellSize {
      assert 0 <= p.1 < GridSize;
    }
  }

  /** The matched cells of a grid, each once: they all hold jewels. */
  function Matched(g: Grid, w: nat, h: nat): (s: seq<Pos>)
    requires Shaped(g, w, h)
    ensures AllOccupied(g, w, h, s) && NoDup(s)
    ensures forall p :: p in s <==> p in Flatten(Matches(g, w, h))
  {
    MatchCellsOccupied(g, w, h);
    Dedup(Flatten(Matches(g, w, h)))
  }

  /** Every type in a removal histogram counts at least one jewel. */
  lemma {:induction false} HistCountsPositive(g: Grid, w: nat, h: nat, s: seq<Pos>)
    requires Shaped(g, w, h) && AllOccupied(g, w, h, s)
    ensures forall k :: k in Hist(g, w, h, s) ==> Hist(g, w, h, s)[k] >= 1
  {
    if |s| > 0 {
      HistCountsPositive(g, w, h, s[..|s| - 1]);
    }
  }

  /** The grid with the cells of the given matches emptied. */
  ghost function Cleared(g: Grid, w: nat, h: nat, ms: seq<seq<Pos>>): (r: Grid)
    requires Shaped(g, w, h)
    ensures Shaped(r, w, h)
  {
    seq(h, y requires 0 <= y < h => seq(w, x requires 0 <= x < w => if (x, y) in Flatten(ms) then None else g[y][x]))
  }

  /** The grid after gravity acted on every column. */
  ghost function Settle(g: Grid, w: nat, h: nat): (r: Grid)
    requires Shaped(g, w, h)
    ensures Shaped(r, w, h)
  {
    seq(h, y requires 0 <= y < h => seq(w, x requires 0 <= x < w => Collapsed(Column(g, w, h, x), x)[y]))
  }

  /** A column that lost a jewel has an empty top cell once gravity acted. */
  lemma SettleLeavesGap(g: Grid, w: nat, h: nat, ms: seq<seq<Pos>>, p: Pos)
    requires Shaped(g, w, h) && p in Flatten(ms) && InBounds(w, h, p.0, p.1)
    ensures Settle(Cleared(g, w, h, ms), w, h)[0][p.0].None?
  {
    var c := Cleared(g, w, h, ms);
    CollapsedTopEmpty(Column(c, w, h, p.0), p.0, p.1);
  }

  /** A grid that empties exactly the matched cells is the cleared grid. */
  lemma ClearedIs(g: Grid, c: Grid, w: nat, h: nat, ms: seq<seq<Pos>>)
    requires Shaped(g, w, h) && Shaped(c, w, h)
    requires forall y, x :: 0 <= y < h && 0 <= x < w ==> c[y][x] == if (x, y) in Flatten(ms) then None else g[y][x]
    ensures c == Cleared(g, w, h, ms)
  {
    var e := Cleared(g, w, h, ms);
    forall y | 0 <= y < h ensures c[y] == e[y] {
    }
  }

  /** A grid whose every column is the collapse of the same column of c is the settled c. */
  lemma SettledIs(c: Grid, s: Grid, w: nat, h: nat)
    requires Shaped(c, w, h) && Shaped(s, w, h)
    requires forall x :: 0 <= x < w ==> Column(s, w, h, x) == Collapsed(Column(c, w, h, x), x)
    ensures s == Settle(c, w, h)
  {
    var e := Settle(c, w, h);
    forall y | 0 <= y < h ensures s[y] == e[y] {
      forall x | 0 <= x < w ensures s[y][x] == e[y][x] {
        assert s[y][x] == Column(s, w, h, x)[y];
      }
    }
  }

  /** Some jewel on the board has an animation in flight. */
  predicate SomeAnimating(g: Grid, w: nat, h: nat)
    requires Shaped(g, w, h)
  {
    exists y, x :: 0 <= y < h && 0 <= x < w && g[y][x].Some? && g[y][x].value.animating
  }

  /** select_jewel rejects the click on (x, y): it fails and reports an invalid cell. */
  ghost predicate Rejected(g: Grid, w: nat, h: nat, selected: Option<Pos>, x: int, y: int)
    requires Shaped(g, w, h)
  {
    var o := MainBoard.SelectOutcome(g, w, h, selected, x, y);
    !o.success && o.invalidPos.Some?
  }

  /** A click is rejected exactly when it asks for a swap of the selection with an adjacent jewel that makes no match, and the invalid cell reported is the selection. */
  lemma RejectedIff(g: Grid, w: nat, h: nat, selected: Option<Pos>, x: int, y: int)
    requires Shaped(g, w, h)
    ensures Rejected(g, w, h, selected, x, y) <==>
      && JewelAt(g, w, h, x, y).Some? && selected.Some? && selected != Some((x, y))
      && Adjacent(selected.value, (x, y)) && !GlobalValid(g, w, h, selected.value.0, selected.value.1, x, y)
    ensures Rejected(g, w, h, selected, x, y) ==> MainBoard.SelectOutcome(g, w, h, selected, x, y).invalidPos == selected
  {
  }

  /**
   * What reshuffle_board leaves: the reshuffle s of g if s has a move,
   * otherwise a freshly filled board without matches.
   */
  ghost predicate ReshuffleOutcome(g: Grid, s: Grid, r: Grid, w: nat, h: nat, f: JewelFactory)
    requires Shaped(g, w, h) && Shaped(r, w, h)
  {
    && Reshuffled(g, s, w, h)
    && (MoveExists(s, w, h) ==> r == s)
    && (!MoveExists(s, w, h) ==>
          Full(r, w, h) && !HasTriple(r, w, h)
          && forall y, x :: 0 <= y < h && 0 <= x < w ==> Fresh(r[y][x], f, x, y))
  }

  /**
   * A tick of update with no move on grid g: the first such tick raises the
   * flag, notes the time and reshuffles (s being the reshuffled grid); later
   * ticks leave the board alone and lower the flag once the message interval
   * has passed.
   */
  ghost predicate StuckTick(g: Grid, s: Grid, r: Grid, flag0: bool, time0: real, flag: bool, time: real, now: real, f: JewelFactory)
    requires Shaped(g, GridSize, GridSize) && Shaped(r, GridSize, GridSize)
  {
    && (!flag0 ==> flag && time == now && ReshuffleOutcome(g, s, r, GridSize, GridSize, f))
    && (flag0 ==> r == g && time == time0 && (flag <==> now - time0 <= NoMovesInterval))
  }

  /**
   * The board after one round of the cascade on g: the matched cells are
   * cleared, gravity acts, and every cell left empty receives a new jewel
   * falling into it.
   */
  ghost predicate Refilled(g: Grid, r: Grid, f: JewelFactory)
    requires Shaped(g, GridSize, GridSize) && Shaped(r, GridSize, GridSize)
  {
    var settled := Settle(Cleared(g, GridSize, GridSize, Matches(g, GridSize, GridSize)), GridSize, GridSize);
    && Full(r, GridSize, GridSize)
    && forall y, x :: 0 <= y < GridSize && 0 <= x < GridSize ==>
         if settled[y][x].Some? then r[y][x] == settled[y][x] else Spawned(r[y][x], f, x, y)
  }

  /** Clearing the matches of a board that has some leaves an empty cell. */
  lemma ClearedHasGap(g: Grid, w: nat, h: nat)
    requires Shaped(g, w, h) && Matches(g, w, h) != []
    ensures exists y, x :: 0 <= y < h && 0 <= x < w && Cleared(g, w, h, Matches(g, w, h))[y][x].None?
  {
    var ms := Matches(g, w, h);
    MatchesWellFormed(g, w, h);
    MatchCellsOccupied(g, w, h);
    var p := ms[0][0];
    assert p in Flatten(ms);
    assert Cleared(g, w, h, ms)[p.1][p.0].None?;
  }

  /**
   * The board part of __init__: a new 8 x 8 board, overlaid with the
   * level's preset layout if it has one and filled again (avoiding matches
   * as the level manager asks) if it has none, then cleared of matches.
   */
  method SetUpBoard(lm: LevelManager) returns (b: MainBoard.Board, warned: bool)
    requires lm.factory.TypeCount() >= 3 && lm.avoidMatches
    ensures fresh(b) && fresh(b.gm) && b.Valid()
    ensures b.gm.width == GridSize && b.gm.height == GridSize && b.gm.factory == lm.factory
    ensures b.selected == None && b.animations == []
    ensures Full(b.gm.grid, GridSize, GridSize)
    ensures !warned ==> Matches(b.gm.grid, GridSize, GridSize) == []
    ensures lm.config.board == [] ==> !warned
  {
    b := new MainBoard.Board(GridSize, GridSize, lm.factory);
    var _ := lm.LoadBoardConfig(b);
    if lm.config.board == [] {
      b.FillBoard(lm.avoidMatches);
    }
    warned := lm.FixInitialMatches(b);
  }

  /** The objects __init__ creates: the level manager, the zeroed counters and the set-up board. */
  method SetUpParts(levels: seq<LevelConfig>, configs: seq<JewelConfig>, mode: Mode, level: int)
    returns (lm: LevelManager, js: JewelStats, b: MainBoard.Board, warned: bool)
    requires 1 <= level <= |levels| && |configs| >= 3
    ensures lm.mode == mode && lm.level == level && lm.factory == JewelFactory(configs) && lm.config == levels[level - 1]
    ensures js.Valid() && js.stats == ZeroCounts(configs)
    ensures b.Valid() && b.gm.width == GridSize && b.gm.height == GridSize && b.gm.factory == lm.factory
    ensures b.selected == None && b.animations == []
    ensures Full(b.gm.grid, GridSize, GridSize)
    ensures !warned ==> Matches(b.gm.grid, GridSize, GridSize) == []
    ensures levels[level - 1].board == [] ==> !warned
  {
    lm := new LevelManager(levels, JewelFactory(configs), mode, level);
    js := new JewelStats(configs);
    b, warned := SetUpBoard(lm);
  }

  class PlayingState {
    const game: Game
    const mode: Mode
    const level: int
    const levelManager: LevelManager
    const stats: JewelStats
    const board: MainBoard.Board
    var score: int
    var noMoves: bool
    var noMovesTime: real
    var gameOver: bool
    var levelComplete: bool
    var goalAchieved: bool
    /** The switch to the name-entry screen after a time-attack high score. */
    var nameEntry: bool
    var invalidMoveAnimation: bool
    var invalidMoveTime: real
    var invalidMovePositions: seq<Pos>
    /** When the level started (start_time). */
    var startTime: real
    /** Whether the final fix_initial_matches of the set-up gave up with matches left. */
    var setupWarned: bool

    ghost predicate Valid()
      reads board, board.gm, stats
    {
      && board.Valid() && stats.Valid()
      && board.gm.width == GridSize && board.gm.height == GridSize
      && board.gm.factory == levelManager.factory
      && levelManager.mode == mode && levelManager.level == level
    }

    /**
     * __init__: a filled 8 x 8 board, overlaid with the level's preset
     * layout if it has one (filled without matches otherwise), and then
     * cleared of matches.
     */
    constructor (game: Game, levels: seq<LevelConfig>, configs: seq<JewelConfig>, mode: Mode, level: int, score: int, now: real)
      requires 1 <= level <= |levels| && |configs| >= 3
      ensures Valid() && this.game == game && this.mode == mode && this.level == level && this.score == score
      ensures levelManager.config == levels[level - 1] && stats.stats == ZeroCounts(configs)
      ensures !noMoves && !gameOver && !levelComplete && !goalAchieved && !nameEntry && !invalidMoveAnimation
      ensures board.selected == None && board.animations == [] && startTime == now
      ensures Full(board.gm.grid, GridSize, GridSize)
      ensures !setupWarned ==> Matches(board.gm.grid, GridSize, GridSize) == []
      ensures levels[level - 1].board == [] ==> !setupWarned
    {
      var lm, js, b, warned := SetUpParts(levels, configs, mode, level);
      this.game := game;
      this.mode := mode;
      this.level := level;
      this.score := score;
      levelManager := lm;
      stats := js;
      board := b;
      noMoves := false;
      noMovesTime := 0.0;
      gameOver := false;
      levelComplete := false;
      goalAchieved := false;
      nameEntry := false;
      invalidMoveAnimation := false;
      invalidMoveTime := 0.0;
      invalidMovePositions := [];
      startTime := now;
      setupWarned := warned;
    }

    /**
     * reshuffle_board: collect the jewels row by row, shuffle them, lay them
     * out again from the top-left corner; if that arrangement has no move,
     * fill the board afresh without matches.
     */
    method ReshuffleBoard(ghost g: Grid) returns (ghost shuffled: Grid)
      modifies board.gm
      requires Valid() && board.gm.grid == g
      ensures Valid()
      ensures ReshuffleOutcome(g, shuffled, board.gm.grid, GridSize, GridSize, board.gm.factory)
    {
      var r := ShuffleGrid(board.gm.grid, GridSize, GridSize);
      board.gm.grid := r;
      shuffled := r;
      assert Reshuffled(g, r, GridSize, GridSize);
      var found, _ := HasPossibleMoves(board.gm.grid, GridSize, GridSize);
      if !found {
        board.FillBoard(true);
        MatchesEmptyIff(board.gm.grid, GridSize, GridSize);
      }
    }

    /**
     * The deadlock part of update: with no move on the board, the first tick
     * raises the no-moves flag, notes the time and reshuffles; later ticks
     * lower the flag once the message interval has passed.
     */
    method CheckDeadlock(now: real) returns (ghost stuck: bool, ghost shuffled: Grid)
      modifies this, board.gm
      requires Valid()
      ensures Valid()
      ensures stuck <==> !MoveExists(old(board.gm.grid), GridSize, GridSize)
      ensures Shaped(shuffled, GridSize, GridSize)
      ensures !stuck ==> board.gm.grid == old(board.gm.grid) && noMoves == old(noMoves) && noMovesTime == old(noMovesTime)
      ensures stuck ==>
        StuckTick(old(board.gm.grid), shuffled, board.gm.grid, old(noMoves), old(noMovesTime), noMoves, noMovesTime, now, board.gm.factory)
      ensures score == old(score) && gameOver == old(gameOver) && levelComplete == old(levelComplete)
      ensures goalAchieved == old(goalAchieved) && nameEntry == old(nameEntry)
    {
      var found, _ := HasPossibleMoves(board.gm.grid, GridSize, GridSize);
      stuck := !found;
      shuffled := board.gm.grid;
      if !found {
        shuffled := NoMovesTick(now);
      }
    }

    /** A tick with no move on the board. */
    method NoMovesTick(now: real) returns (ghost shuffled: Grid)
      modifies this, board.gm
      requires Valid()
      ensures Valid()
      ensures Shaped(shuffled, GridSize, GridSize)
      ensures StuckTick(old(board.gm.grid), shuffled, board.gm.grid, old(noMoves), old(noMovesTime), noMoves, noMovesTime, now, board.gm.factory)
      ensures score == old(score) && gameOver == old(gameOver) && levelComplete == old(levelComplete)
      ensures goalAchieved == old(goalAchieved) && nameEntry == old(nameEntry)
    {
      if !noMoves {
        noMoves, noMovesTime := true, now;
        shuffled := ReshuffleBoard(board.gm.grid);
      } else {
        shuffled := board.gm.grid;
        if now - noMovesTime > NoMovesInterval {
          noMoves := false;
        }
      }
    }

    /**
     * The time-attack part of update, given the whole seconds elapsed and
     * the high-score table as read from disk: once time runs out the game is
     * over, and a high score switches to the name-entry screen.
     */
    method CheckTime(elapsed: int, loaded: seq<ScoreRecord>)
      modifies this, levelManager, game
      requires Valid() && mode == TimeAttack
      ensures Valid()
      ensures levelManager.timeLeft == TimeLeft(levelManager.config.timeLimit, elapsed)
      ensures gameOver <==> old(gameOver) || elapsed >= levelManager.config.timeLimit
      ensures elapsed < levelManager.config.timeLimit ==> game.scores == old(game.scores) && nameEntry == old(nameEntry)
      ensures elapsed >= levelManager.config.timeLimit ==>
        game.scores == loaded && (nameEntry <==> old(nameEntry) || IsHighScore(loaded, score))
      ensures score == old(score) && levelComplete == old(levelComplete) && goalAchieved == old(goalAchieved)
      ensures noMoves == old(noMoves)
    {
      var running := levelManager.UpdateTime(elapsed);
      if !running {
        gameOver := true;
        var high := game.CheckHighScore(loaded, score);
        if high {
          nameEntry := true;
        }
      }
    }

    /** The score-challenge part of update: reaching the target completes the level. */
    method CheckScore()
      modifies this
      requires Valid()
      ensures Valid()
      ensures levelComplete <==> old(levelComplete) || levelManager.CheckLevelComplete(score)
      ensures goalAchieved <==> old(goalAchieved) || levelManager.CheckLevelComplete(score)
      ensures score == old(score) && gameOver == old(gameOver) && nameEntry == old(nameEntry) && noMoves == old(noMoves)
    {
      if mode == ScoreChallenge && score >= levelManager.targetScore {
        levelComplete := true;
        goalAchieved := true;
      }
    }

    /** The stats loop of the cascade: add_jewel once per collected jewel, type by type. */
    method CollectStats(hist: map<int, int>)
      modifies stats
      requires stats.Valid() && forall k :: k in hist ==> hist[k] >= 0
      ensures stats.Valid() && stats.stats == Credit(old(stats.stats), hist)
    {
      ghost var m0 := stats.stats;
      var keys := hist.Keys;
      assert hist - keys == map[];
      assert Credit(m0, hist - keys) == m0;
      while keys != {}
        invariant keys <= hist.Keys && stats.Valid()
        invariant stats.stats == Credit(m0, hist - keys)
        decreases |keys|
      {
        SetHasElement(keys);
        var t :| t in keys;
        var count := hist[t];
        ghost var before := stats.stats;
        var i := 0;
        while i < count
          invariant 0 <= i <= count && stats.Valid()
          invariant stats.stats == BumpTimes(before, t, i)
        {
          stats.AddJewel(t);
          i := i + 1;
        }
        CreditStep(m0, hist, keys, t);
        keys := keys - {t};
      }
      assert hist - keys == hist;
    }

    /**
     * The cascade part of update: when nothing moves and the board has
     * matches, remove them, add their points to the score and their jewels
     * to the counters, let the columns fall and refill the board.
     */
    method Cascade(isMoving: bool)
      modifies this, board, board.gm, stats
      requires Valid()
      ensures Valid() && board.selected == old(board.selected)
      ensures isMoving || Matches(old(board.gm.grid), GridSize, GridSize) == [] ==>
        board.gm.grid == old(board.gm.grid) && score == old(score) && stats.stats == old(stats.stats)
        && board.animations == old(board.animations)
      ensures !isMoving && Matches(old(board.gm.grid), GridSize, GridSize) != [] ==>
        && score == old(score) + SumPoints(old(board.gm.grid), GridSize, GridSize, Matched(old(board.gm.grid), GridSize, GridSize))
        && stats.stats == Credit(old(stats.stats), Hist(old(board.gm.grid), GridSize, GridSize, Matched(old(board.gm.grid), GridSize, GridSize)))
        && Refilled(old(board.gm.grid), board.gm.grid, board.gm.factory)
      ensures gameOver == old(gameOver) && levelComplete == old(levelComplete)
      ensures goalAchieved == old(goalAchieved) && nameEntry == old(nameEntry) && noMoves == old(noMoves)
    {
      if isMoving {
        return;
      }
      var matches := board.FindMatches();
      if matches == [] {
        return;
      }
      RunCascade(matches);
    }

    /**
     * One round of the cascade on a board with matches. The follow-up test
     * on line 240 of the source reads an attribute the playing state does
     * not have; it is unreachable, because the refill always starts a move
     * animation above a cleared cell.
     */
    method RunCascade(matches: seq<seq<Pos>>)
      modifies this, board, board.gm, stats
      requires Valid() && matches == Matches(board.gm.grid, GridSize, GridSize) && matches != []
      ensures Valid() && board.selected == old(board.selected)
      ensures score == old(score) + SumPoints(old(board.gm.grid), GridSize, GridSize, Matched(old(board.gm.grid), GridSize, GridSize))
      ensures stats.stats == Credit(old(stats.stats), Hist(old(board.gm.grid), GridSize, GridSize, Matched(old(board.gm.grid), GridSize, GridSize)))
      ensures Refilled(old(board.gm.grid), board.gm.grid, board.gm.factory)
      ensures gameOver == old(gameOver) && levelComplete == old(levelComplete)
      ensures goalAchieved == old(goalAchieved) && nameEntry == old(nameEntry) && noMoves == old(noMoves)
    {
      ghost var g: Grid := board.gm.grid;
      ClearMatches(matches, g);
      ClearedHasGap(g, GridSize, GridSize);
      DropAndRefill();
      if !SomeAnimating(board.gm.grid, GridSize, GridSize) {
        assert false;
      }
    }

    /** The removal half of the cascade: the matched cells are emptied, their points scored and their jewels counted. */
    method ClearMatches(matches: seq<seq<Pos>>, ghost g: Grid)
      modifies this, board, board.gm, stats
      requires Valid() && board.gm.grid == g && matches == Matches(g, GridSize, GridSize)
      ensures Valid() && board.selected == old(board.selected)
      ensures board.gm.grid == Cleared(g, GridSize, GridSize, matches)
      ensures score == old(score) + SumPoints(g, GridSize, GridSize, Matched(g, GridSize, GridSize))
      ensures stats.stats == Credit(old(stats.stats), Hist(g, GridSize, GridSize, Matched(g, GridSize, GridSize)))
      ensures gameOver == old(gameOver) && levelComplete == old(levelComplete)
      ensures goalAchieved == old(goalAchieved) && nameEntry == old(nameEntry) && noMoves == old(noMoves)
    {
      var points, hist := ClearBoard(matches, g);
      Tally(points, hist);
    }

    /** The scoring half of the removal: the points go to the score and the per-type counts to the counters. */
    method Tally(points: int, hist: map<int, int>)
      modifies this, stats
      requires stats.Valid() && forall k :: k in hist ==> hist[k] >= 0
      ensures stats.Valid() && score == old(score) + points && stats.stats == Credit(old(stats.stats), hist)
      ensures gameOver == old(gameOver) && levelComplete == old(levelComplete)
      ensures goalAchieved == old(goalAchieved) && nameEntry == old(nameEntry) && noMoves == old(noMoves)
    {
      CollectStats(hist);
      score := score + points;
    }

    /** The board side of the removal: the matched cells emptied, with the points and per-type counts of the jewels they held. */
    method ClearBoard(matches: seq<seq<Pos>>, ghost g: Grid) returns (points: int, hist: map<int, int>)
      modifies board, board.gm
      requires board.Valid() && board.gm.width == GridSize && board.gm.height == GridSize
      requires board.gm.grid == g && matches == Matches(g, GridSize, GridSize)
      ensures board.Valid() && board.selected == old(board.selected)
      ensures board.gm.grid == Cleared(g, GridSize, GridSize, matches)
      ensures points == SumPoints(g, GridSize, GridSize, Matched(g, GridSize, GridSize))
      ensures hist == Hist(g, GridSize, GridSize, Matched(g, GridSize, GridSize))
      ensures forall k :: k in hist ==> hist[k] >= 0
    {
      MatchCellsOccupied(g, GridSize, GridSize);
      assert Matched(g, GridSize, GridSize) == Dedup(Flatten(matches));
      ghost var order;
      points, hist, order := board.RemoveMatches(matches);
      ClearedIs(g, board.gm.grid, GridSize, GridSize, matches);
      HistCountsPositive(g, GridSize, GridSize, Matched(g, GridSize, GridSize));
    }

    /**
     * The gravity-and-refill half of the cascade. When the board had an
     * empty cell, the refill starts a move animation in the top cell of its
     * column, so some jewel is animating afterwards.
     */
    method DropAndRefill()
      modifies board.gm
      requires Valid()
      ensures Valid() && Full(board.gm.grid, GridSize, GridSize)
      ensures forall y, x :: 0 <= y < GridSize && 0 <= x < GridSize ==>
        var settled := Settle(old(board.gm.grid), GridSize, GridSize);
        if settled[y][x].Some? then board.gm.grid[y][x] == settled[y][x]
        else Spawned(board.gm.grid[y][x], board.gm.factory, x, y)
      ensures (exists y, x :: 0 <= y < GridSize && 0 <= x < GridSize && old(board.gm.grid)[y][x].None?) ==>
        SomeAnimating(board.gm.grid, GridSize, GridSize)
    {
      ghost var g := board.gm.grid;
      board.gm.CollapseColumns();
      SettledIs(g, board.gm.grid, GridSize, GridSize);
      board.gm.RefillBoard();
      if exists y, x :: 0 <= y < GridSize && 0 <= x < GridSize && g[y][x].None? {
        var y, x :| 0 <= y < GridSize && 0 <= x < GridSize && g[y][x].None?;
        CollapsedTopEmpty(Column(g, GridSize, GridSize, x), x, y);
        assert board.gm.grid[0][x].value.animating;
      }
    }

    /**
     * update, with the clock, the whole seconds since the level started, the
     * high-score table on disk and whether the board is still moving given
     * as inputs: nothing happens once the level is decided; otherwise the
     * deadlock, time, score and cascade parts run in this order.
     */
    method Update(now: real, elapsed: int, loaded: seq<ScoreRecord>, isMoving: bool)
      modifies this, board, board.gm, stats, levelManager, game
      requires Valid()
      ensures Valid()
      ensures old(gameOver) || old(levelComplete) || old(goalAchieved) ==>
        score == old(score) && board.gm.grid == old(board.gm.grid) && noMoves == old(noMoves)
        && stats.stats == old(stats.stats) && levelManager.timeLeft == old(levelManager.timeLeft)
      ensures mode != TimeAttack ==> gameOver == old(gameOver)
    {
      if gameOver || levelComplete || goalAchieved {
        return;
      }
      var _, _ := CheckDeadlock(now);
      if mode == TimeAttack {
        CheckTime(elapsed, loaded);
      }
      CheckScore();
      Cascade(isMoving);
    }

    /**
     * The mouse part of handle_events: while the game is neither over nor
     * complete, a left click inside the board selects the clicked cell, and a
     * rejected swap records the previously selected cell and the clicked one
     * for the red overlay.
     */
    method Click(mx: int, my: int, now: real)
      modifies this, board, board.gm
      requires Valid()
      ensures Valid()
      ensures var p := CellAt(mx, my);
        old(gameOver) || old(levelComplete) || !InBounds(GridSize, GridSize, p.0, p.1) ==>
          board.gm.grid == old(board.gm.grid) && board.selected == old(board.selected)
      ensures var p := CellAt(mx, my);
        !old(gameOver) && !old(levelComplete) && InBounds(GridSize, GridSize, p.0, p.1) ==>
          var o := MainBoard.SelectOutcome(old(board.gm.grid), GridSize, GridSize, old(board.selected), p.0, p.1);
          board.gm.grid == o.grid && board.selected == o.selected
      ensures var p := CellAt(mx, my);
        !old(gameOver) && !old(levelComplete) && InBounds(GridSize, GridSize, p.0, p.1)
          && Rejected(old(board.gm.grid), GridSize, GridSize, old(board.selected), p.0, p.1) ==>
          invalidMoveAnimation && invalidMoveTime == now && invalidMovePositions == [old(board.selected).value, p]
      ensures var p := CellAt(mx, my);
        !(!old(gameOver) && !old(levelComplete) && InBounds(GridSize, GridSize, p.0, p.1)
          && Rejected(old(board.gm.grid), GridSize, GridSize, old(board.selected), p.0, p.1)) ==>
          invalidMoveAnimation == old(invalidMoveAnimation) && invalidMoveTime == old(invalidMoveTime)
            && invalidMovePositions == old(invalidMovePositions)
      ensures score == old(score) && gameOver == old(gameOver) && levelComplete == old(levelComplete)
    {
      if gameOver || levelComplete {
        return;
      }
      var p := CellAt(mx, my);
      if 0 <= p.0 < GridSize && 0 <= p.1 < GridSize {
        var success, invalidPos := board.SelectJewel(p.0, p.1);
        if !success && invalidPos.Some? {
          invalidMoveAnimation := true;
          invalidMoveTime := now;
          invalidMovePositions := [invalidPos.value, p];
        }
      }
    }
  }

  /** A non-empty set has an element. */
  lemma SetHasElement(s: set<int>)
    requires s != {}
    ensures exists t :: t in s
  {
    if forall t :: t !in s {
    }
  }

  /** One type's turn in the stats loop: its count is credited, the types already done stay credited. */
  lemma CreditStep(m0: map<int, int>, hist: map<int, int>, keys: set<int>, t: int)
    requires t in keys && keys <= hist.Keys && hist[t] >= 0
    ensures BumpTimes(Credit(m0, hist - keys), t, hist[t]) == Credit(m0, hist - (keys - {t}))
  {
    var m := Credit(m0, hist - keys);
    BumpTimesAdds(m, t, hist[t]);
    var r := BumpTimes(m, t, hist[t]);
    var c := Credit(m0, hist - (keys - {t}));
    assert r.Keys == c.Keys;
    forall k | k in r.Keys ensures r[k] == c[k] {
      if k == t {
        assert t !in hist - keys;
      }
    }
  }
}
