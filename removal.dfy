/**
 * Removing matched jewels (GameRules.remove_matches in game/models/board.py
 * and the forked Board.remove_matches in game/models/board_.py): the
 * matches are merged into one set of cells, each distinct cell is counted
 * once in a per-type histogram, then every cell of the set is emptied and
 * its jewel's points are added up. The fork also shakes the jewels next to
 * the removed cells.
 */
module Removal {
  import opened Wrappers
  import opened Jewels
  import opened Grids

  /** All cells of all matches, match after match. */
  function Flatten(ms: seq<seq<Pos>>): (s: seq<Pos>)
    ensures forall p :: p in s <==> exists i :: 0 <= i < |ms| && p in ms[i]
  {
    if |ms| == 0 then [] else Flatten(ms[..|ms| - 1]) + ms[|ms| - 1]
  }

  /** No cell listed twice. */
  predicate NoDup(s: seq<Pos>)
  {
    forall i, j :: 0 <= i < j < |s| ==> s[i] != s[j]
  }

  /** The distinct cells of s, each at its first occurrence. */
  function Dedup(s: seq<Pos>): (d: seq<Pos>)
    ensures NoDup(d)
    ensures forall p :: p in d <==> p in s
    ensures |d| <= |s|
  {
    if |s| == 0 then []
    else
      var d := Dedup(s[..|s| - 1]);
      var p := s[|s| - 1];
      assert s == s[..|s| - 1] + [p];
      if p in d then d else d + [p]
  }

  /** Cell p is on the board and holds a jewel. */
  predicate Occupied(g: Grid, w: nat, h: nat, p: Pos)
    requires Shaped(g, w, h)
  {
    InBounds(w, h, p.0, p.1) && g[p.1][p.0].Some?
  }

  /** Every listed cell holds a jewel (find_matches only reports occupied cells). */
  predicate AllOccupied(g: Grid, w: nat, h: nat, s: seq<Pos>)
    requires Shaped(g, w, h)
  {
    forall p :: p in s ==> Occupied(g, w, h, p)
  }

  /** One more jewel of type k in the histogram (an absent type starts from 0). */
  function Inc(m: map<int, int>, k: int): map<int, int>
  {
    m[k := if k in m then m[k] + 1 else 1]
  }

  /** The per-type counts of the jewels in the listed cells. */
  function Hist(g: Grid, w: nat, h: nat, s: seq<Pos>): map<int, int>
    requires Shaped(g, w, h) && AllOccupied(g, w, h, s)
  {
    if |s| == 0 then map[]
    else
      var p := s[|s| - 1];
      assert p in s;
      Inc(Hist(g, w, h, s[..|s| - 1]), g[p.1][p.0].value.kind)
  }

  /** The points of the jewels in the listed cells. */
  function SumPoints(g: Grid, w: nat, h: nat, s: seq<Pos>): int
    requires Shaped(g, w, h) && AllOccupied(g, w, h, s)
  {
    if |s| == 0 then 0
    else
      var p := s[|s| - 1];
      assert p in s;
      SumPoints(g, w, h, s[..|s| - 1]) + g[p.1][p.0].value.points
  }

  /** The jewels of the listed cells, each starting its destroy animation: the removed_jewels list. */
  function Destroyed(g: Grid, w: nat, h: nat, s: seq<Pos>): (js: seq<Jewel>)
    requires Shaped(g, w, h) && AllOccupied(g, w, h, s)
    ensures |js| == |s|
  {
    seq(|s|, i requires 0 <= i < |s| => assert s[i] in s; StartDestroy(g[s[i].1][s[i].0].value))
  }

  /** A non-empty map has a key (the case split hands the solver the key terms it needs). */
  lemma MapHasKey(m: map<int, int>)
    requires m != map[]
    ensures exists k :: k in m
  {
    if forall k :: k !in m {
    }
  }

  /** Some key of a non-empty map. */
  ghost function Pick(m: map<int, int>): int
    requires m != map[]
  {
    MapHasKey(m);
    var k :| k in m; k
  }

  /** The sum of a map's values. */
  ghost function SumValues(m: map<int, int>): int
    decreases |m|
  {
    if m == map[] then 0
    else m[Pick(m)] + SumValues(m - {Pick(m)})
  }

  /** Any key can be taken out first. */
  lemma {:induction false} SumValuesRemove(m: map<int, int>, k: int)
    requires k in m
    ensures SumValues(m) == m[k] + SumValues(m - {k})
    decreases |m|
  {
    var k' := Pick(m);
    if k' != k {
      SumValuesRemove(m - {k'}, k);
      SumValuesRemove(m - {k}, k');
      assert (m - {k'}) - {k} == (m - {k}) - {k'};
    }
  }

  /** Counting one more jewel adds one to the histogram's total. */
  lemma IncTotal(m: map<int, int>, k: int)
    ensures SumValues(Inc(m, k)) == SumValues(m) + 1
  {
    var m' := Inc(m, k);
    SumValuesRemove(m', k);
    assert m' - {k} == m - {k};
    if k in m {
      SumValuesRemove(m, k);
    } else {
      assert m - {k} == m;
    }
  }

  /** The histogram counts every listed cell: its values add up to the length of the list, and its keys are the types present. */
  lemma {:induction false} HistTotal(g: Grid, w: nat, h: nat, s: seq<Pos>)
    requires Shaped(g, w, h) && AllOccupied(g, w, h, s)
    ensures SumValues(Hist(g, w, h, s)) == |s|
    ensures forall k :: k in Hist(g, w, h, s) <==> exists p :: p in s && g[p.1][p.0].value.kind == k
    ensures forall k :: k in Hist(g, w, h, s) ==> Hist(g, w, h, s)[k] >= 1
  {
    if |s| > 0 {
      var p := s[|s| - 1];
      assert s == s[..|s| - 1] + [p];
      assert p in s;
      HistTotal(g, w, h, s[..|s| - 1]);
      IncTotal(Hist(g, w, h, s[..|s| - 1]), g[p.1][p.0].value.kind);
    }
  }

  lemma {:induction false} SumPointsAppend(g: Grid, w: nat, h: nat, a: seq<Pos>, b: seq<Pos>)
    requires Shaped(g, w, h) && AllOccupied(g, w, h, a + b)
    ensures SumPoints(g, w, h, a + b) == SumPoints(g, w, h, a) + SumPoints(g, w, h, b)
    decreases |b|
  {
    if |b| > 0 {
      assert (a + b)[..|a + b| - 1] == a + b[..|b| - 1];
      SumPointsAppend(g, w, h, a, b[..|b| - 1]);
    } else {
      assert a + b == a;
    }
  }

  /** Taking element i out of a duplicate-free list leaves a duplicate-free list of the other elements. */
  lemma RemoveAt(b: seq<Pos>, i: nat)
    requires NoDup(b) && i < |b|
    ensures NoDup(b[..i] + b[i + 1..])
    ensures forall q :: q in b[..i] + b[i + 1..] <==> q in b && q != b[i]
  {
    var b' := b[..i] + b[i + 1..];
    forall j, k | 0 <= j < k < |b'| ensures b'[j] != b'[k] {
      RemoveAtIndex(b, i, j);
      RemoveAtIndex(b, i, k);
    }
    forall q ensures q in b' <==> q in b && q != b[i] {
      if q in b' {
        var j :| 0 <= j < |b'| && b'[j] == q;
        RemoveAtIndex(b, i, j);
      }
      if q in b && q != b[i] {
        var j :| 0 <= j < |b| && b[j] == q;
        if j < i {
          RemoveAtIndex(b, i, j);
        } else {
          RemoveAtIndex(b, i, j - 1);
        }
      }
    }
  }

  /** Element j of a list with element i taken out is element j of the list before i and element j + 1 from i on. */
  lemma RemoveAtIndex(b: seq<Pos>, i: nat, j: nat)
    requires i < |b| && j < |b| - 1
    ensures (b[..i] + b[i + 1..])[j] == if j < i then b[j] else b[j + 1]
  {
  }

  /** Taking out the jewel at index i takes its points out of the sum. */
  lemma SumPointsWithout(g: Grid, w: nat, h: nat, b: seq<Pos>, i: nat)
    requires Shaped(g, w, h) && AllOccupied(g, w, h, b) && i < |b|
    ensures AllOccupied(g, w, h, b[..i] + b[i + 1..]) && Occupied(g, w, h, b[i])
    ensures SumPoints(g, w, h, b) == SumPoints(g, w, h, b[..i] + b[i + 1..]) + g[b[i].1][b[i].0].value.points
  {
    var p := b[i];
    assert p in b;
    assert b == b[..i] + ([p] + b[i + 1..]);
    assert forall q :: q in b[..i] + b[i + 1..] ==> q in b;
    SumPointsAppend(g, w, h, b[..i], [p] + b[i + 1..]);
    SumPointsAppend(g, w, h, [p], b[i + 1..]);
    SumPointsAppend(g, w, h, b[..i], b[i + 1..]);
    assert SumPoints(g, w, h, [p]) == g[p.1][p.0].value.points by {
      assert [p][..0] == [];
    }
  }

  /** Removing the same cell from two duplicate-free lists with the same members leaves lists with the same members. */
  lemma SameMembersWithout(a: seq<Pos>, b: seq<Pos>, i: nat, a': seq<Pos>, b': seq<Pos>)
    requires NoDup(a) && NoDup(b) && |a| > 0 && i < |b| && b[i] == a[|a| - 1]
    requires forall p :: p in a <==> p in b
    requires a' == a[..|a| - 1] && b' == b[..i] + b[i + 1..]
    ensures NoDup(a') && NoDup(b')
    ensures forall q :: q in a' <==> q in b'
  {
    RemoveAt(b, i);
    RemoveAt(a, |a| - 1);
    assert a[..|a| - 1] + a[|a|..] == a';
    forall q ensures q in a' <==> q in b' {
      assert q in a <==> q in b;
    }
  }

  /** The points of a set of cells do not depend on the order they are visited in. */
  lemma {:induction false} SumPointsOrderFree(g: Grid, w: nat, h: nat, a: seq<Pos>, b: seq<Pos>)
    requires Shaped(g, w, h) && AllOccupied(g, w, h, a) && NoDup(a) && NoDup(b)
    requires forall p :: p in a <==> p in b
    ensures AllOccupied(g, w, h, b)
    ensures SumPoints(g, w, h, a) == SumPoints(g, w, h, b)
    decreases |a|
  {
    assert |b| > 0 ==> b[0] in a;
    if |a| > 0 {
      var p := a[|a| - 1];
      assert p in a;
      var i :| 0 <= i < |b| && b[i] == p;
      var a', b' := a[..|a| - 1], b[..i] + b[i + 1..];
      SameMembersWithout(a, b, i, a', b');
      assert AllOccupied(g, w, h, a');
      SumPointsOrderFree(g, w, h, a', b');
      assert AllOccupied(g, w, h, b);
      SumPointsWithout(g, w, h, b, i);
      assert SumPoints(g, w, h, a) == SumPoints(g, w, h, a') + g[p.1][p.0].value.points;
    }
  }

  /** Seeing one more cell: a new cell joins the distinct list and is counted under its type; a repeated one changes nothing. */
  lemma SeeCell(g: Grid, w: nat, h: nat, visited: seq<Pos>, p: Pos)
    requires Shaped(g, w, h) && AllOccupied(g, w, h, visited) && Occupied(g, w, h, p)
    ensures AllOccupied(g, w, h, visited + [p])
    ensures Dedup(visited + [p]) == if p in visited then Dedup(visited) else Dedup(visited) + [p]
    ensures Hist(g, w, h, Dedup(visited + [p])) ==
      if p in visited then Hist(g, w, h, Dedup(visited))
      else Inc(Hist(g, w, h, Dedup(visited)), g[p.1][p.0].value.kind)
  {
    assert (visited + [p])[..|visited|] == visited;
    var d := Dedup(visited);
    assert (d + [p])[..|d|] == d;
  }

  lemma TakeOneMore(a: seq<Pos>, m: seq<Pos>, j: nat)
    requires j < |m|
    ensures a + m[..j + 1] == (a + m[..j]) + [m[j]]
  {
    assert m[..j + 1] == m[..j] + [m[j]];
  }

  lemma FlattenStep(ms: seq<seq<Pos>>, i: nat)
    requires i < |ms|
    ensures Flatten(ms[..i + 1]) == Flatten(ms[..i]) + ms[i]
  {
    assert ms[..i + 1][..i] == ms[..i];
  }

  /** What the first pass knows after visiting the cells in `visited`: each visited cell is in the set, and the histogram counts each distinct one by type. */
  ghost predicate Collected(g: Grid, w: nat, h: nat, toRemove: set<Pos>, hist: map<int, int>, visited: seq<Pos>)
    requires Shaped(g, w, h)
  {
    && AllOccupied(g, w, h, visited)
    && (forall p :: p in toRemove <==> p in visited)
    && hist == Hist(g, w, h, Dedup(visited))
  }

  /** One cell of the first pass: a cell not yet in the set joins it and its type is counted. */
  method CollectCell(g: Grid, w: nat, h: nat, p: Pos, toRemove0: set<Pos>, hist0: map<int, int>, ghost visited0: seq<Pos>)
    returns (toRemove: set<Pos>, hist: map<int, int>)
    requires Shaped(g, w, h) && Occupied(g, w, h, p) && Collected(g, w, h, toRemove0, hist0, visited0)
    ensures Collected(g, w, h, toRemove, hist, visited0 + [p])
  {
    SeeCell(g, w, h, visited0, p);
    toRemove, hist := toRemove0, hist0;
    if p !in toRemove {
      toRemove := toRemove + {p};
      hist := Inc(hist, g[p.1][p.0].value.kind);
    }
  }

  /** The inner loop of the first pass, over the cells of one match. */
  method CollectMatch(g: Grid, w: nat, h: nat, m: seq<Pos>, toRemove0: set<Pos>, hist0: map<int, int>, ghost visited0: seq<Pos>)
    returns (toRemove: set<Pos>, hist: map<int, int>, ghost visited: seq<Pos>)
    requires Shaped(g, w, h) && AllOccupied(g, w, h, visited0) && AllOccupied(g, w, h, m)
    requires forall p :: p in toRemove0 <==> p in visited0
    requires hist0 == Hist(g, w, h, Dedup(visited0))
    ensures visited == visited0 + m && AllOccupied(g, w, h, visited)
    ensures forall p :: p in toRemove <==> p in visited
    ensures hist == Hist(g, w, h, Dedup(visited))
  {
    toRemove, hist, visited := toRemove0, hist0, visited0;
    var j := 0;
    while j < |m|
      invariant j <= |m| && visited == visited0 + m[..j]
      invariant Collected(g, w, h, toRemove, hist, visited)
    {
      TakeOneMore(visited0, m, j);
      toRemove, hist := CollectCell(g, w, h, m[j], toRemove, hist, visited);
      visited := visited + [m[j]];
      j := j + 1;
    }
    assert m[..|m|] == m;
  }

  /**
   * The first pass of remove_matches: every cell of every match joins the
   * set of cells to remove, and the first time a cell is seen its jewel's
   * type is counted in the histogram.
   */
  method CollectMatched(g: Grid, w: nat, h: nat, matches: seq<seq<Pos>>)
    returns (toRemove: set<Pos>, hist: map<int, int>)
    requires Shaped(g, w, h) && AllOccupied(g, w, h, Flatten(matches))
    ensures forall p :: p in toRemove <==> p in Flatten(matches)
    ensures hist == Hist(g, w, h, Dedup(Flatten(matches)))
  {
    toRemove := {};
    hist := map[];
    ghost var visited: seq<Pos> := [];
    var i := 0;
    while i < |matches|
      invariant i <= |matches| && visited == Flatten(matches[..i])
      invariant AllOccupied(g, w, h, visited)
      invariant forall p :: p in toRemove <==> p in visited
      invariant hist == Hist(g, w, h, Dedup(visited))
    {
      assert AllOccupied(g, w, h, matches[i]) by {
        forall p | p in matches[i] ensures Occupied(g, w, h, p) {
          assert p in Flatten(matches);
        }
      }
      toRemove, hist, visited := CollectMatch(g, w, h, matches[i], toRemove, hist, visited);
      FlattenStep(matches, i);
      i := i + 1;
    }
    assert matches[..|matches|] == matches;
  }

  /** What the second pass knows after clearing the cells in `order`: they are the cells of the set not still `rest`, and the grid, the points and the destroyed jewels reflect exactly them. */
  ghost predicate ClearedSoFar(g: Grid, w: nat, h: nat, toRemove: set<Pos>, r: Grid, points: int, removed: seq<Jewel>, order: seq<Pos>, rest: set<Pos>)
    requires Shaped(g, w, h)
  {
    && Shaped(r, w, h) && rest <= toRemove && NoDup(order)
    && (forall p :: p in order <==> p in toRemove && p !in rest)
    && AllOccupied(g, w, h, order)
    && points == SumPoints(g, w, h, order)
    && removed == Destroyed(g, w, h, order)
    && (forall y, x :: 0 <= y < h && 0 <= x < w ==> r[y][x] == if (x, y) in order then None else g[y][x])
  }

  /** One cell of the second pass: the cell is emptied, its points added and its jewel started on its destroy animation. */
  method ClearOne(g: Grid, w: nat, h: nat, toRemove: set<Pos>, r0: Grid, points0: int, removed0: seq<Jewel>, ghost order0: seq<Pos>, rest0: set<Pos>, p: Pos)
    returns (r: Grid, points: int, removed: seq<Jewel>, rest: set<Pos>)
    requires Shaped(g, w, h) && (forall q :: q in toRemove ==> Occupied(g, w, h, q))
    requires ClearedSoFar(g, w, h, toRemove, r0, points0, removed0, order0, rest0) && p in rest0
    ensures ClearedSoFar(g, w, h, toRemove, r, points, removed, order0 + [p], rest) && rest == rest0 - {p}
  {
    var jewel := r0[p.1][p.0].value;
    ClearStep(g, w, h, order0, p);
    r := Set(r0, w, h, p.0, p.1, None);
    removed := removed0 + [StartDestroy(jewel)];
    points := points0 + jewel.points;
    rest := rest0 - {p};
  }

  /**
   * The second pass of remove_matches: visit the set's cells in whatever
   * order set iteration yields; each jewel starts its destroy animation,
   * joins the removed list, adds its points, and its cell is emptied.
   */
  method ClearCells(g: Grid, w: nat, h: nat, toRemove: set<Pos>)
    returns (r: Grid, points: int, removed: seq<Jewel>, ghost order: seq<Pos>)
    requires Shaped(g, w, h) && forall p :: p in toRemove ==> Occupied(g, w, h, p)
    ensures Shaped(r, w, h) && NoDup(order) && (forall p :: p in order <==> p in toRemove)
    ensures AllOccupied(g, w, h, order)
    ensures points == SumPoints(g, w, h, order)
    ensures removed == Destroyed(g, w, h, order)
    ensures forall y, x :: 0 <= y < h && 0 <= x < w ==> r[y][x] == if (x, y) in toRemove then None else g[y][x]
  {
    r := g;
    points := 0;
    removed := [];
    order := [];
    var rest := toRemove;
    while rest != {}
      invariant ClearedSoFar(g, w, h, toRemove, r, points, removed, order, rest)
      decreases |rest|
    {
      var p :| p in rest;
      r, points, removed, rest := ClearOne(g, w, h, toRemove, r, points, removed, order, rest, p);
      order := order + [p];
    }
  }

  /** Clearing one more occupied, not yet cleared cell extends the clearing order, its points and its destroyed jewels by that cell's. */
  lemma ClearStep(g: Grid, w: nat, h: nat, order: seq<Pos>, p: Pos)
    requires Shaped(g, w, h) && NoDup(order) && AllOccupied(g, w, h, order)
    requires Occupied(g, w, h, p) && p !in order
    ensures NoDup(order + [p]) && AllOccupied(g, w, h, order + [p])
    ensures SumPoints(g, w, h, order + [p]) == SumPoints(g, w, h, order) + g[p.1][p.0].value.points
    ensures Destroyed(g, w, h, order + [p]) == Destroyed(g, w, h, order) + [StartDestroy(g[p.1][p.0].value)]
  {
    assert (order + [p])[..|order|] == order;
  }

  /**
   * remove_matches: every distinct matched cell is emptied once; the points
   * are those of the removed jewels, the histogram counts each distinct
   * cell once under its jewel's type, and the removed jewels are listed
   * (in set iteration order) with their destroy animation started.
   */
  method RemoveMatches(g: Grid, w: nat, h: nat, matches: seq<seq<Pos>>)
    returns (r: Grid, points: int, hist: map<int, int>, removed: seq<Jewel>, ghost order: seq<Pos>)
    requires Shaped(g, w, h) && AllOccupied(g, w, h, Flatten(matches))
    ensures Shaped(r, w, h)
    ensures forall y, x :: 0 <= y < h && 0 <= x < w ==>
      r[y][x] == if (x, y) in Flatten(matches) then None else g[y][x]
    ensures points == SumPoints(g, w, h, Dedup(Flatten(matches)))
    ensures hist == Hist(g, w, h, Dedup(Flatten(matches)))
    ensures NoDup(order) && (forall p :: p in order <==> p in Flatten(matches))
    ensures AllOccupied(g, w, h, order) && removed == Destroyed(g, w, h, order)
  {
    var toRemove;
    toRemove, hist := CollectMatched(g, w, h, matches);
    r, points, removed, order := ClearCells(g, w, h, toRemove);
    SumPointsOrderFree(g, w, h, Dedup(Flatten(matches)), order);
  }

  /** The neighbour offsets the forked remove_matches visits, in its order: below, right, above, left. */
  const ShakeOffsets: seq<(int, int)> := [(0, 1), (1, 0), (0, -1), (-1, 0)]

  /** Cell q is shaken: an occupied board cell outside the removed set, next to some removed cell. */
  ghost predicate ShakeTarget(g: Grid, w: nat, h: nat, toRemove: set<Pos>, q: Pos)
    requires Shaped(g, w, h)
  {
    Occupied(g, w, h, q) && q !in toRemove && exists p :: p in toRemove && Adjacent(p, q)
  }

  /**
   * The neighbour pass of the forked remove_matches: for each removed cell
   * and each of its four neighbours, a neighbour that is on the board, not
   * itself removed and occupied gets a shake animation. The result lists
   * the shaken cells in visiting order (a cell next to several removed
   * cells is shaken once per such cell).
   */
  method ShakeNeighbours(g: Grid, w: nat, h: nat, toRemove: set<Pos>) returns (shaken: seq<Pos>)
    requires Shaped(g, w, h)
    ensures forall q :: q in shaken <==> ShakeTarget(g, w, h, toRemove, q)
  {
    shaken := [];
    var rest := toRemove;
    while rest != {}
      invariant rest <= toRemove
      invariant forall q :: q in shaken <==>
        Occupied(g, w, h, q) && q !in toRemove && exists p :: p in toRemove && p !in rest && Adjacent(p, q)
      decreases |rest|
    {
      var p :| p in rest;
      ghost var before := shaken;
      shaken := ShakeAround(g, w, h, toRemove, p, shaken);
      forall q | q in shaken && q !in before
        ensures exists p' :: p' in toRemove && p' !in rest - {p} && Adjacent(p', q)
      {
        assert Adjacent(p, q);
      }
      rest := rest - {p};
    }
  }

  /** The four neighbours of p in the order of the offsets list: those on the board, occupied and not removed are appended. */
  method ShakeAround(g: Grid, w: nat, h: nat, toRemove: set<Pos>, p: Pos, shaken0: seq<Pos>) returns (shaken: seq<Pos>)
    requires Shaped(g, w, h)
    ensures forall q :: q in shaken <==> q in shaken0 || (Occupied(g, w, h, q) && q !in toRemove && Adjacent(p, q))
  {
    shaken := shaken0;
    var d := 0;
    while d < |ShakeOffsets|
      invariant d <= |ShakeOffsets|
      invariant forall q :: q in shaken <==> (q in shaken0 ||
        (Occupied(g, w, h, q) && q !in toRemove && exists e :: 0 <= e < d && q == (p.0 + ShakeOffsets[e].0, p.1 + ShakeOffsets[e].1)))
    {
      var nx, ny := p.0 + ShakeOffsets[d].0, p.1 + ShakeOffsets[d].1;
      if 0 <= nx < w && 0 <= ny < h && (nx, ny) !in toRemove {
        if g[ny][nx].Some? {
          shaken := shaken + [(nx, ny)];
        }
      }
      d := d + 1;
    }
    forall q ensures (exists e :: 0 <= e < 4 && q == (p.0 + ShakeOffsets[e].0, p.1 + ShakeOffsets[e].1)) <==> Adjacent(p, q) {
      if Adjacent(p, q) {
        if q == (p.0, p.1 + 1) { assert q == (p.0 + ShakeOffsets[0].0, p.1 + ShakeOffsets[0].1); }
        else if q == (p.0 + 1, p.1) { assert q == (p.0 + ShakeOffsets[1].0, p.1 + ShakeOffsets[1].1); }
        else if q == (p.0, p.1 - 1) { assert q == (p.0 + ShakeOffsets[2].0, p.1 + ShakeOffsets[2].1); }
        else { assert q == (p.0 + ShakeOffsets[3].0, p.1 + ShakeOffsets[3].1); }
      }
    }
  }
}
