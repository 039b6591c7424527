/**
 * The deadlock reshuffle of the playing screen (PlayingState.reshuffle_board
 * in game/states/playing_state.py): the jewels on the board are collected
 * row by row, shuffled, and laid out again from the top-left corner in
 * row-major order, every jewel moving to its new cell; the remaining cells
 * become empty.
 */
module Reshuffle {
  import opened Wrappers
  import opened Jewels
  import opened Grids
  import opened GridStore

  /** The jewels of one row, left to right. */
  function RowJewels(row: seq<Cell>): (js: seq<Jewel>)
    ensures |js| <= |row|
  {
    if |row| == 0 then []
    else RowJewels(row[..|row| - 1]) + (if row[|row| - 1].Some? then [row[|row| - 1].value] else [])
  }

  /** The jewels of the grid in row-major order: top row first, each row left to right. */
  function Occupants(rows: seq<seq<Cell>>): (js: seq<Jewel>)
  {
    if |rows| == 0 then [] else Occupants(rows[..|rows| - 1]) + RowJewels(rows[|rows| - 1])
  }

  /** There is a cell for every jewel of a board. */
  lemma {:induction false} OccupantsBound(rows: seq<seq<Cell>>, w: nat)
    requires forall y :: 0 <= y < |rows| ==> |rows[y]| == w
    ensures |Occupants(rows)| <= |rows| * w
  {
    if |rows| > 0 {
      OccupantsBound(rows[..|rows| - 1], w);
      assert |rows| * w == (|rows| - 1) * w + w;
    }
  }

  /** The jewels without their cells and animation flags: what a move leaves the same. */
  function Plain(js: seq<Jewel>): (ps: seq<Jewel>)
    ensures |ps| == |js|
  {
    seq(|js|, i requires 0 <= i < |js| => Ident(js[i]))
  }

  /** Taking out the jewel at index k takes out its plain form. */
  lemma PlainWithout(b: seq<Jewel>, k: nat)
    requires k < |b|
    ensures multiset(Plain(b)) == multiset(Plain(b[..k] + b[k + 1..])) + multiset{Ident(b[k])}
  {
    assert b == b[..k] + [b[k]] + b[k + 1..];
    PlainAppend(b[..k] + [b[k]], b[k + 1..]);
    PlainAppend(b[..k], [b[k]]);
    PlainAppend(b[..k], b[k + 1..]);
  }

  /** Taking out the element at index k takes it out of the multiset. */
  lemma MultisetWithout(b: seq<Jewel>, k: nat)
    requires k < |b|
    ensures multiset(b[..k] + b[k + 1..]) == multiset(b) - multiset{b[k]}
  {
    assert b == b[..k] + [b[k]] + b[k + 1..];
  }

  /** Reordering the jewels reorders their plain forms alike. */
  lemma {:induction false} PlainPerm(a: seq<Jewel>, b: seq<Jewel>)
    requires multiset(a) == multiset(b)
    ensures multiset(Plain(a)) == multiset(Plain(b))
    decreases |a|
  {
    if |a| > 0 {
      var n := |a| - 1;
      assert a[n] in multiset(b);
      var k :| 0 <= k < |b| && b[k] == a[n];
      MultisetWithout(a, n);
      MultisetWithout(b, k);
      PlainPerm(a[..n] + a[n + 1..], b[..k] + b[k + 1..]);
      PlainWithout(b, k);
      PlainWithout(a, n);
    }
  }

  /** The cell of row-major rank `rank` at (x, y) after the layout: the jewel of that rank, moved there, or nothing once the jewels run out. */
  function Slot(js: seq<Jewel>, rank: nat, x: nat, y: nat): Cell
  {
    if rank < |js| then Some(MoveTo(js[rank], x, y)) else None
  }

  lemma PlainAppend(a: seq<Jewel>, b: seq<Jewel>)
    ensures Plain(a + b) == Plain(a) + Plain(b)
  {
    assert forall i :: 0 <= i < |a + b| ==> Plain(a + b)[i] == (Plain(a) + Plain(b))[i];
  }

  lemma RowJewelsSnoc(row: seq<Cell>, c: Cell)
    ensures RowJewels(row + [c]) == RowJewels(row) + (if c.Some? then [c.value] else [])
  {
    assert (row + [c])[..|row|] == row;
  }

  /** Laying the next cell of the row (the next jewel, moved there, while the list lasts) extends the row's jewels accordingly. */
  lemma CellStep(row: seq<Cell>, x: nat, c: Cell, js: seq<Jewel>, index0: nat, index: nat, y: nat)
    requires x < |row| && index0 <= index <= |js|
    requires Plain(RowJewels(row[..x])) == Plain(js[index0..index])
    requires c == if index < |js| then Some(MoveTo(js[index], x, y)) else None
    ensures Plain(RowJewels(row[x := c][..x + 1])) == Plain(js[index0..if index < |js| then index + 1 else index])
  {
    var before := row[..x];
    assert row[x := c][..x + 1] == before + [c];
    RowJewelsSnoc(before, c);
    if index < |js| {
      assert js[index0..index + 1] == js[index0..index] + [js[index]];
      PlainAppend(js[index0..index], [js[index]]);
      PlainAppend(RowJewels(before), [c.value]);
    }
  }

  /** The row loop's state once cells 0 .. x-1 of the row are laid out. */
  ghost predicate RowInv(row: seq<Cell>, w: nat, js: seq<Jewel>, y: nat, base: nat, index0: nat, x: nat, index: nat)
  {
    && x <= w && |row| == w && index0 <= index <= |js|
    && index == (if base + x < |js| then base + x else |js|)
    && (forall xx :: 0 <= xx < x ==> row[xx] == Slot(js, base + xx, xx, y))
    && Plain(RowJewels(row[..x])) == Plain(js[index0..index])
  }

  /** One cell of the row loop: the next jewel, moved to the cell, or nothing once the list is used up. */
  method LayOutCell(row0: seq<Cell>, w: nat, js: seq<Jewel>, y: nat, ghost base: nat, index0: nat, x: nat, index1: nat)
    returns (row: seq<Cell>, index: nat)
    requires x < w && RowInv(row0, w, js, y, base, index0, x, index1)
    ensures RowInv(row, w, js, y, base, index0, x + 1, index)
  {
    var c: Cell := None;
    if index1 < |js| {
      c := Some(MoveTo(js[index1], x, y));
    }
    CellStep(row0, x, c, js, index0, index1, y);
    row := row0[x := c];
    index := index1;
    if index1 < |js| {
      index := index1 + 1;
    }
  }

  /**
   * One row of the layout loop: the index keeps running through the list
   * while the cells of the row, whose first cell has rank `base`, are
   * visited left to right.
   */
  method LayOutRow(row0: seq<Cell>, w: nat, js: seq<Jewel>, y: nat, ghost base: nat, index0: nat) returns (row: seq<Cell>, index: nat)
    requires |row0| == w && index0 == (if base < |js| then base else |js|)
    ensures |row| == w && index0 <= index <= |js|
    ensures index == if base + w < |js| then base + w else |js|
    ensures forall x :: 0 <= x < w ==> row[x] == Slot(js, base + x, x, y)
    ensures Plain(RowJewels(row)) == Plain(js[index0..index])
  {
    row := row0;
    index := index0;
    var x: nat := 0;
    assert row[..0] == [] && js[index0..index0] == [];
    while x < w
      invariant RowInv(row, w, js, y, base, index0, x, index)
    {
      row, index := LayOutCell(row, w, js, y, base, index0, x, index);
      x := x + 1;
    }
    assert row[..w] == row;
  }

  /** Laying out one more row extends the grid's jewels by that row's, up to their cells. */
  lemma RowsStep(top: seq<seq<Cell>>, row: seq<Cell>, js: seq<Jewel>, index0: nat, index: nat)
    requires index0 <= index <= |js|
    requires Plain(Occupants(top)) == Plain(js[..index0]) && Plain(RowJewels(row)) == Plain(js[index0..index])
    ensures Plain(Occupants(top + [row])) == Plain(js[..index])
  {
    assert (top + [row])[..|top|] == top;
    PlainAppend(Occupants(top), RowJewels(row));
    assert js[..index] == js[..index0] + js[index0..index];
    PlainAppend(js[..index0], js[index0..index]);
  }

  lemma MulStep(y: nat, w: nat)
    ensures (y + 1) * w == y * w + w
  {
  }

  /** The layout loop's state once rows 0 .. y-1 are laid out: those rows hold their slots, and the index has consumed their jewels. */
  ghost predicate LayOutInv(r: Grid, w: nat, h: nat, js: seq<Jewel>, y: nat, index: nat)
  {
    && y <= h && Shaped(r, w, h) && index <= |js|
    && index == (if y * w < |js| then y * w else |js|)
    && (forall yy, xx :: 0 <= yy < y && 0 <= xx < w ==> r[yy][xx] == Slot(js, yy * w + xx, xx, yy))
    && Plain(Occupants(r[..y])) == Plain(js[..index])
  }

  /** One row of the row-major layout loop. */
  method LayOutNext(r0: Grid, w: nat, h: nat, js: seq<Jewel>, y: nat, ghost base: nat, index0: nat) returns (r: Grid, index: nat)
    requires y < h && base == y * w && LayOutInv(r0, w, h, js, y, index0)
    ensures LayOutInv(r, w, h, js, y + 1, index)
  {
    ghost var top := r0[..y];
    var row;
    row, index := LayOutRow(r0[y], w, js, y, base, index0);
    r := r0[y := row];
    assert r[..y + 1] == top + [row];
    RowsStep(top, row, js, index0, index);
    MulStep(y, w);
    KeepSlots(r0, r, w, h, js, y, base, row);
  }

  /** Writing row y with its slots keeps the rows above it and completes rows 0 .. y. */
  lemma KeepSlots(r0: Grid, r: Grid, w: nat, h: nat, js: seq<Jewel>, y: nat, base: nat, row: seq<Cell>)
    requires y < h && Shaped(r0, w, h) && |row| == w && r == r0[y := row] && base == y * w
    requires forall yy, xx :: 0 <= yy < y && 0 <= xx < w ==> r0[yy][xx] == Slot(js, yy * w + xx, xx, yy)
    requires forall x :: 0 <= x < w ==> row[x] == Slot(js, base + x, x, y)
    ensures forall yy, xx :: 0 <= yy < y + 1 && 0 <= xx < w ==> r[yy][xx] == Slot(js, yy * w + xx, xx, yy)
  {
    forall yy, xx | 0 <= yy < y + 1 && 0 <= xx < w
      ensures r[yy][xx] == Slot(js, yy * w + xx, xx, yy)
    {
      if yy < y {
        assert r[yy] == r0[yy];
      } else {
        assert r[yy] == row;
      }
    }
  }

  /** Slots hold jewels that know their cells. */
  lemma SlotsPlaced(r: Grid, w: nat, h: nat, js: seq<Jewel>)
    requires Shaped(r, w, h)
    requires forall y, x :: 0 <= y < h && 0 <= x < w ==> r[y][x] == Slot(js, y * w + x, x, y)
    ensures Placed(r, w, h)
  {
  }

  /**
   * The layout loop of reshuffle_board: an index runs through the list as
   * the cells are visited in row-major order. Each jewel lands in the cell
   * of its rank with its cell updated, so the grid read back row by row
   * yields the same jewels in the same order.
   */
  method LayOut(g: Grid, w: nat, h: nat, js: seq<Jewel>) returns (r: Grid)
    requires Shaped(g, w, h) && |js| <= h * w
    ensures Shaped(r, w, h) && Placed(r, w, h)
    ensures forall y, x :: 0 <= y < h && 0 <= x < w ==> r[y][x] == Slot(js, y * w + x, x, y)
    ensures Plain(Occupants(r)) == Plain(js)
  {
    r := g;
    var index: nat := 0;
    var y: nat := 0;
    ghost var base: nat := 0;
    assert r[..0] == [] && js[..0] == [];
    while y < h
      invariant LayOutInv(r, w, h, js, y, index) && base == y * w
    {
      r, index := LayOutNext(r, w, h, js, y, base, index);
      MulStep(y, w);
      base := base + w;
      y := y + 1;
    }
    assert r[..h] == r;
    assert index == |js|;
    assert js[..index] == js;
    SlotsPlaced(r, w, h, js);
  }

  /** r is a reshuffle of g: the same jewels up to their cells, packed row-major from the top-left corner, each knowing its cell. */
  ghost predicate Reshuffled(g: Grid, r: Grid, w: nat, h: nat)
    requires Shaped(g, w, h)
  {
    && Shaped(r, w, h) && Placed(r, w, h)
    && multiset(Plain(Occupants(r))) == multiset(Plain(Occupants(g)))
    && (forall y, x :: 0 <= y < h && 0 <= x < w ==> (r[y][x].Some? <==> y * w + x < |Occupants(g)|))
  }

  /**
   * The shuffle and layout of reshuffle_board: the board keeps exactly the
   * jewels it had (up to their cells), now packed into the first cells in
   * row-major order, each knowing its new cell.
   */
  method ShuffleGrid(g: Grid, w: nat, h: nat) returns (r: Grid)
    requires Shaped(g, w, h)
    ensures Shaped(r, w, h) && Placed(r, w, h)
    ensures multiset(Plain(Occupants(r))) == multiset(Plain(Occupants(g)))
    ensures forall y, x :: 0 <= y < h && 0 <= x < w ==> (r[y][x].Some? <==> y * w + x < |Occupants(g)|)
    ensures forall y, x :: 0 <= y < h && 0 <= x < w && r[y][x].Some? ==> r[y][x].value.animating
  {
    var jewels := Occupants(g);
    OccupantsBound(g, w);
    var shuffled :| multiset(shuffled) == multiset(jewels);
    assert |shuffled| == |jewels| by {
      assert |multiset(shuffled)| == |multiset(jewels)|;
    }
    r := LayOut(g, w, h, shuffled);
    PlainPerm(shuffled, jewels);
  }
}
