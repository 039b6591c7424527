/**
 * The high-score table of game/game.py: is_high_score compares a score
 * with the best entry, save_high_score puts a time-attack record in front,
 * sorts by points (highest first, equal points in their previous order)
 * and keeps the first ten. Reading and writing high_scores.xml is not
 * modelled: the list read from the file is a parameter.
 */
module HighScores {

  /** The two game modes ("time" and "score" in the source). */
  datatype Mode = TimeAttack | ScoreChallenge

  /** One saved record; the date stamp taken from the clock is not modelled. */
  datatype ScoreRecord = ScoreRecord(name: string, points: int, level: int)

  /** How many entries the table keeps. */
  const MaxEntries: nat := 10

  /** is_high_score: an empty table takes any score; otherwise the score must beat the best entry strictly. */
  function IsHighScore(scores: seq<ScoreRecord>, score: int): (r: bool)
  {
    |scores| == 0 || score > scores[0].points
  }

  /** Highest points first. */
  predicate SortedDesc(s: seq<ScoreRecord>)
  {
    forall i, j :: 0 <= i < j < |s| ==> s[i].points >= s[j].points
  }

  /** The number of records with more points than v. */
  function CountAbove(s: seq<ScoreRecord>, v: int): (n: nat)
    ensures n <= |s|
  {
    if s == [] then 0 else (if s[0].points > v then 1 else 0) + CountAbove(s[1..], v)
  }

  /**
   * Puts r into a descending list in front of the first entry with at most
   * its points: the step of a stable descending sort for an element that
   * came before all of t.
   */
  function Insert(r: ScoreRecord, t: seq<ScoreRecord>): (u: seq<ScoreRecord>)
    ensures |u| == |t| + 1
  {
    if t == [] || t[0].points <= r.points then [r] + t
    else [t[0]] + Insert(r, t[1..])
  }

  /** list.sort(key=points, reverse=True): stable, highest points first. */
  function SortDesc(s: seq<ScoreRecord>): (t: seq<ScoreRecord>)
    ensures |t| == |s|
  {
    if s == [] then [] else Insert(s[0], SortDesc(s[1..]))
  }

  lemma {:induction false} InsertPerm(r: ScoreRecord, t: seq<ScoreRecord>)
    ensures multiset(Insert(r, t)) == multiset(t) + multiset{r}
  {
    if t != [] && t[0].points > r.points {
      InsertPerm(r, t[1..]);
      assert t == [t[0]] + t[1..];
    }
  }

  /** The sort is a permutation. */
  lemma {:induction false} SortDescPerm(s: seq<ScoreRecord>)
    ensures multiset(SortDesc(s)) == multiset(s)
  {
    if s != [] {
      SortDescPerm(s[1..]);
      InsertPerm(s[0], SortDesc(s[1..]));
      assert s == [s[0]] + s[1..];
    }
  }

  lemma {:induction false} InsertSorted(r: ScoreRecord, t: seq<ScoreRecord>)
    requires SortedDesc(t)
    ensures SortedDesc(Insert(r, t))
  {
    if t != [] && t[0].points > r.points {
      InsertSorted(r, t[1..]);
      var u := Insert(r, t[1..]);
      assert u[0] == r || u[0] == t[1];
    }
  }

  /** The sort yields a descending list. */
  lemma {:induction false} SortDescSorted(s: seq<ScoreRecord>)
    ensures SortedDesc(SortDesc(s))
  {
    if s != [] {
      SortDescSorted(s[1..]);
      InsertSorted(s[0], SortDesc(s[1..]));
    }
  }

  lemma {:induction false} CountAboveInsert(r: ScoreRecord, t: seq<ScoreRecord>, v: int)
    ensures CountAbove(Insert(r, t), v) == CountAbove(t, v) + (if r.points > v then 1 else 0)
  {
    if t != [] && t[0].points > r.points {
      CountAboveInsert(r, t[1..], v);
      assert Insert(r, t)[1..] == Insert(r, t[1..]);
    } else {
      assert ([r] + t)[1..] == t;
    }
  }

  /** Sorting does not change how many records beat v. */
  lemma {:induction false} CountAboveSort(s: seq<ScoreRecord>, v: int)
    ensures CountAbove(SortDesc(s), v) == CountAbove(s, v)
  {
    if s != [] {
      CountAboveSort(s[1..], v);
      CountAboveInsert(s[0], SortDesc(s[1..]), v);
    }
  }

  /** No record beats v when every record has at most v points. */
  lemma {:induction false} CountAboveNone(s: seq<ScoreRecord>, v: int)
    requires forall i :: 0 <= i < |s| ==> s[i].points <= v
    ensures CountAbove(s, v) == 0
  {
    if s != [] {
      CountAboveNone(s[1..], v);
    }
  }

  /** In a descending list the records that beat v are the first CountAbove(t, v) ones. */
  lemma {:induction false} AboveIsPrefix(t: seq<ScoreRecord>, v: int)
    requires SortedDesc(t)
    ensures var n := CountAbove(t, v);
      (forall i :: 0 <= i < n ==> t[i].points > v) && (forall i :: n <= i < |t| ==> t[i].points <= v)
  {
    if t != [] {
      if t[0].points <= v {
        CountAboveNone(t, v);
      } else {
        AboveIsPrefix(t[1..], v);
      }
    }
  }

  /** Inserting in front of the first entry with at most r's points splits the list there. */
  lemma {:induction false} InsertAt(r: ScoreRecord, t: seq<ScoreRecord>, n: nat)
    requires n <= |t| && (forall i :: 0 <= i < n ==> t[i].points > r.points)
    requires n < |t| ==> t[n].points <= r.points
    ensures Insert(r, t) == t[..n] + [r] + t[n..]
  {
    if n > 0 {
      var tail := t[1..];
      InsertAt(r, tail, n - 1);
      assert t[..n] == [t[0]] + tail[..n - 1];
      assert t[n..] == tail[n - 1..];
    } else {
      assert t[..0] == [] && t[0..] == t;
    }
  }

  /** The table after saving a record of `score` points over `scores`. */
  function Saved(scores: seq<ScoreRecord>, record: ScoreRecord): seq<ScoreRecord>
  {
    var sorted := SortDesc([record] + scores);
    if |sorted| <= MaxEntries then sorted else sorted[..MaxEntries]
  }

  /** In the sorted table with the new record in front, the record sits right after the old records that beat it. */
  lemma RecordSlot(scores: seq<ScoreRecord>, record: ScoreRecord)
    ensures var sorted := SortDesc([record] + scores); var n := CountAbove(scores, record.points);
      n < |sorted| && sorted[n] == record && forall i :: 0 <= i < n ==> sorted[i].points > record.points
  {
    var rest := SortDesc(scores);
    assert ([record] + scores)[0] == record && ([record] + scores)[1..] == scores;
    SortDescSorted(scores);
    CountAboveSort(scores, record.points);
    AboveIsPrefix(rest, record.points);
    var n := CountAbove(scores, record.points);
    InsertAt(record, rest, n);
  }

  lemma PrefixKeeps(s: seq<ScoreRecord>, k: nat)
    requires k <= |s|
    ensures multiset(s[..k]) <= multiset(s)
    ensures SortedDesc(s) ==> SortedDesc(s[..k])
  {
    assert s == s[..k] + s[k..];
  }

  /**
   * What save_high_score leaves: a descending table of at most ten records,
   * all drawn from the old table plus the new one. The new record takes the
   * place right after the old records that beat it: it is kept exactly when
   * fewer than ten of them beat it, and otherwise every kept record beats it.
   */
  lemma SavedTable(scores: seq<ScoreRecord>, record: ScoreRecord)
    ensures var t := Saved(scores, record);
      && SortedDesc(t) && |t| == (if |scores| + 1 <= MaxEntries then |scores| + 1 else MaxEntries)
      && multiset(t) <= multiset(scores) + multiset{record}
      && (CountAbove(scores, record.points) < MaxEntries ==> t[CountAbove(scores, record.points)] == record)
      && (CountAbove(scores, record.points) >= MaxEntries ==> forall i :: 0 <= i < |t| ==> t[i].points > record.points)
  {
    var all := [record] + scores;
    var sorted := SortDesc(all);
    var t := Saved(scores, record);
    SortDescSorted(all);
    SortDescPerm(all);
    assert |sorted| == |all| by {
      assert |multiset(sorted)| == |multiset(all)|;
    }
    assert t == sorted[..|t|];
    RecordSlot(scores, record);
    PrefixKeeps(sorted, |t|);
    assert multiset(all) == multiset(scores) + multiset{record};
  }

  /** A score that is_high_score accepts over a descending table goes to the top of it. */
  lemma HighScoreGoesFirst(scores: seq<ScoreRecord>, record: ScoreRecord)
    requires SortedDesc(scores) && IsHighScore(scores, record.points)
    ensures Saved(scores, record)[0] == record
  {
    CountAboveNone(scores, record.points);
    SavedTable(scores, record);
  }

  /** The game object's high-score part: the table last read from or written to high_scores.xml. */
  class Game {
    /** The number of configured levels (len(levels_config)). */
    const levelCount: nat
    var scores: seq<ScoreRecord>

    constructor (levelCount: nat)
      ensures this.levelCount == levelCount && scores == []
    {
      this.levelCount := levelCount;
      scores := [];
    }

    /** is_high_score: reads the table (given as `loaded`) and compares. */
    method CheckHighScore(loaded: seq<ScoreRecord>, score: int) returns (high: bool)
      modifies this
      ensures scores == loaded
      ensures high <==> |loaded| == 0 || score > loaded[0].points
    {
      scores := loaded;
      high := IsHighScore(scores, score);
    }

    /** save_high_score: outside time attack nothing happens; otherwise the record is inserted, the table sorted and cut to ten. */
    method SaveHighScore(mode: Mode, level: int, score: int, name: string)
      modifies this
      ensures mode != TimeAttack ==> scores == old(scores)
      ensures mode == TimeAttack ==> scores == Saved(old(scores), ScoreRecord(name, score, level))
    {
      if mode != TimeAttack {
        return;
      }
      var record := ScoreRecord(name, score, level);
      scores := [record] + scores;
      scores := SortDesc(scores);
      if |scores| > MaxEntries {
        scores := scores[..MaxEntries];
      }
    }
  }
}
