/**
 * The name entry screen shown after a new high score
 * (game/states/name_input_state.py): key presses edit a bounded name
 * buffer; Enter with a non-empty name saves the score and Enter or Escape
 * moves on to the next level or, after the last level, to the menu.
 */
module NameInput {
  import opened Wrappers
  import opened HighScores

  /** The keys the screen tells apart. */
  datatype Key = Return | Escape | Backspace | OtherKey

  /**
   * An input event: a key press with the character it types (pygame gives
   * at most one), or anything else.
   */
  datatype Event = KeyDown(key: Key, ch: Option<char>) | OtherEvent

  /** The state the game switches to. */
  datatype Screen = Playing(level: int) | Menu

  /** The longest name the buffer takes. */
  const MaxNameLength: nat := 10

  /** str.isalnum on one character, restricted to ASCII letters and digits. */
  predicate IsAlnum(c: char)
  {
    ('a' <= c <= 'z') || ('A' <= c <= 'Z') || ('0' <= c <= '9')
  }

  /** A name the buffer can hold: at most ten letters and digits. */
  predicate GoodName(name: string)
  {
    |name| <= MaxNameLength && forall i :: 0 <= i < |name| ==> IsAlnum(name[i])
  }

  /** The event confirms the name: Enter while the name is not empty. */
  predicate Confirms(name: string, e: Event)
  {
    e.KeyDown? && e.key == Return && name != []
  }

  /** The event leaves the screen: a confirming Enter, or Escape. */
  predicate Leaves(name: string, e: Event)
  {
    Confirms(name, e) || (e.KeyDown? && e.key == Escape)
  }

  /** The name after one event: Backspace drops the last character; a letter or digit is appended while there is room. */
  function Edit(name: string, e: Event): (r: string)
  {
    if !e.KeyDown? || Leaves(name, e) then name
    else if e.key == Backspace then (if |name| == 0 then name else name[..|name| - 1])
    else if e.ch.Some? && IsAlnum(e.ch.value) && |name| < MaxNameLength then name + [e.ch.value]
    else name
  }

  /** Editing keeps the name within ten letters and digits. */
  lemma EditKeepsGood(name: string, e: Event)
    requires GoodName(name)
    ensures GoodName(Edit(name, e))
  {
  }

  /** Backspace removes exactly the last character, and an empty name stays empty. */
  lemma BackspaceDropsLast(name: string, ch: Option<char>)
    ensures var r := Edit(name, KeyDown(Backspace, ch));
      (|name| == 0 ==> r == []) && (|name| > 0 ==> r + [name[|name| - 1]] == name)
  {
    if |name| > 0 {
      assert name[..|name| - 1] + [name[|name| - 1]] == name;
    }
  }

  /** Only a letter or digit, typed with room left, lengthens the name, by exactly that character. */
  lemma EditGrowsOnlyByAlnum(name: string, e: Event)
    ensures |Edit(name, e)| > |name| <==>
      e.KeyDown? && e.key != Backspace && !Leaves(name, e) && e.ch.Some? && IsAlnum(e.ch.value) && |name| < MaxNameLength
    ensures |Edit(name, e)| > |name| ==> Edit(name, e) == name + [e.ch.value]
  {
  }

  /** The name after a batch of events. */
  function EditAll(name: string, events: seq<Event>): string
    decreases |events|
  {
    if events == [] then name else EditAll(Edit(name, events[0]), events[1..])
  }

  lemma {:induction false} EditAllKeepsGood(name: string, events: seq<Event>)
    requires GoodName(name)
    ensures GoodName(EditAll(name, events))
    decreases |events|
  {
    if events != [] {
      EditKeepsGood(name, events[0]);
      EditAllKeepsGood(Edit(name, events[0]), events[1..]);
    }
  }

  /**
   * The high-score table after a batch of events: in time attack, every
   * confirming Enter saves the name as it stands at that point. The screen
   * switch does not end the batch, so a second Enter saves a second record.
   */
  function ScoresAfter(name: string, scores: seq<ScoreRecord>, mode: Mode, score: int, level: int, events: seq<Event>): seq<ScoreRecord>
    decreases |events|
  {
    if events == [] then scores
    else
      var e := events[0];
      var table := if Confirms(name, e) && mode == TimeAttack then Saved(scores, ScoreRecord(name, score, level)) else scores;
      ScoresAfter(Edit(name, e), table, mode, score, level, events[1..])
  }

  /** The screen last switched to after a batch of events: `onward` once an event has left, `next` otherwise. */
  function NextAfter(name: string, next: Option<Screen>, onward: Screen, events: seq<Event>): Option<Screen>
    decreases |events|
  {
    if events == [] then next
    else NextAfter(Edit(name, events[0]), if Leaves(name, events[0]) then Some(onward) else next, onward, events[1..])
  }

  /** Some event of the batch leaves the screen, given the edits the events before it made. */
  predicate LeavesIn(name: string, events: seq<Event>)
    decreases |events|
  {
    events != [] && (Leaves(name, events[0]) || LeavesIn(Edit(name, events[0]), events[1..]))
  }

  /** A batch switches the screen onward exactly when one of its events leaves; otherwise the screen is as it was. */
  lemma {:induction false} NextAfterIff(name: string, next: Option<Screen>, onward: Screen, events: seq<Event>)
    ensures NextAfter(name, next, onward, events) == if LeavesIn(name, events) then Some(onward) else next
    decreases |events|
  {
    if events != [] {
      var e := events[0];
      NextAfterIff(Edit(name, e), if Leaves(name, e) then Some(onward) else next, onward, events[1..]);
    }
  }

  /** Outside time attack no batch of events touches the high-score table. */
  lemma {:induction false} ScoresKeptOutsideTimeAttack(name: string, scores: seq<ScoreRecord>, mode: Mode, score: int, level: int, events: seq<Event>)
    requires mode != TimeAttack
    ensures ScoresAfter(name, scores, mode, score, level, events) == scores
    decreases |events|
  {
    if events != [] {
      ScoresKeptOutsideTimeAttack(Edit(name, events[0]), scores, mode, score, level, events[1..]);
    }
  }

  /** A batch without a confirming Enter, at whatever the name is by then, leaves the table as it was. */
  lemma {:induction false} ScoresKeptWithoutConfirm(name: string, scores: seq<ScoreRecord>, mode: Mode, score: int, level: int, events: seq<Event>)
    requires forall i :: 0 <= i < |events| ==> !Confirms(EditAll(name, events[..i]), events[i])
    ensures ScoresAfter(name, scores, mode, score, level, events) == scores
    decreases |events|
  {
    if events != [] {
      assert !Confirms(EditAll(name, events[..0]), events[0]) by {
        assert events[..0] == [];
      }
      forall i | 0 <= i < |events[1..]|
        ensures !Confirms(EditAll(Edit(name, events[0]), events[1..][..i]), events[1..][i])
      {
        assert events[..i + 1] == [events[0]] + events[1..][..i];
        assert EditAll(name, events[..i + 1]) == EditAll(Edit(name, events[0]), events[1..][..i]);
        assert !Confirms(EditAll(name, events[..i + 1]), events[i + 1]);
      }
      ScoresKeptWithoutConfirm(Edit(name, events[0]), scores, mode, score, level, events[1..]);
    }
  }

  /** Two Enter presses in one batch, in time attack with a name typed, save the record twice. */
  lemma DoubleEnterSavesTwice(name: string, scores: seq<ScoreRecord>, score: int, level: int)
    requires name != []
    ensures var r := ScoreRecord(name, score, level);
      ScoresAfter(name, scores, TimeAttack, score, level, [KeyDown(Return, None), KeyDown(Return, None)])
        == Saved(Saved(scores, r), r)
  {
    var events := [KeyDown(Return, None), KeyDown(Return, None)];
    assert events[1..][1..] == [];
  }

  class NameInputState {
    const game: Game
    const mode: Mode
    const level: int
    const score: int
    var playerName: string
    /** The state the game was last switched to from this screen, if any. */
    var next: Option<Screen>

    ghost predicate Valid()
      reads this
    {
      GoodName(playerName)
    }

    constructor (game: Game, mode: Mode, level: int, score: int)
      ensures Valid() && this.game == game && this.mode == mode && this.level == level && this.score == score
      ensures playerName == [] && next == None
    {
      this.game := game;
      this.mode := mode;
      this.level := level;
      this.score := score;
      playerName := [];
      next := None;
    }

    /** Where Enter and Escape lead: the next level if there is one, the menu otherwise. */
    function Onward(): (s: Screen)
      reads this, game
      ensures level < game.levelCount ==> s == Playing(level + 1)
      ensures level >= game.levelCount ==> s == Menu
    {
      if level < game.levelCount then Playing(level + 1) else Menu
    }

    /** One event of handle_events. */
    method HandleEvent(e: Event)
      modifies this, game
      requires Valid()
      ensures Valid()
      ensures playerName == Edit(old(playerName), e)
      ensures game.scores == if Confirms(old(playerName), e) && mode == TimeAttack
        then Saved(old(game.scores), ScoreRecord(old(playerName), score, level)) else old(game.scores)
      ensures next == if Leaves(old(playerName), e) then Some(Onward()) else old(next)
    {
      EditKeepsGood(playerName, e);
      if !e.KeyDown? {
        return;
      }
      if e.key == Return && playerName != [] {
        game.SaveHighScore(mode, level, score, playerName);
        next := Some(Onward());
      } else if e.key == Escape {
        next := Some(Onward());
      } else if e.key == Backspace {
        if |playerName| > 0 {
          playerName := playerName[..|playerName| - 1];
        }
      } else if e.ch.Some? && IsAlnum(e.ch.value) && |playerName| < MaxNameLength {
        playerName := playerName + [e.ch.value];
      }
    }

    /** handle_events: the events of one frame, in order. */
    method HandleEvents(events: seq<Event>)
      modifies this, game
      requires Valid()
      ensures Valid() && playerName == EditAll(old(playerName), events)
      ensures game.scores == ScoresAfter(old(playerName), old(game.scores), mode, score, level, events)
      ensures next == NextAfter(old(playerName), old(next), Onward(), events)
    {
      var i := 0;
      while i < |events|
        invariant i <= |events| && Valid()
        invariant EditAll(old(playerName), events) == EditAll(playerName, events[i..])
        invariant ScoresAfter(old(playerName), old(game.scores), mode, score, level, events)
          == ScoresAfter(playerName, game.scores, mode, score, level, events[i..])
        invariant NextAfter(old(playerName), old(next), Onward(), events) == NextAfter(playerName, next, Onward(), events[i..])
      {
        assert events[i..] == [events[i]] + events[i + 1..];
        HandleEvent(events[i]);
        i := i + 1;
      }
    }
  }
}
