/** `propagate`: one row-major sweep that prunes, for every unfixed cell, the
    sides its neighbours do not offer back.

    The sweep updates the grid in place, so when it reaches cell (i, j) the
    neighbours above and to the left already hold their pruned values while
    those below and to the right still hold the values the sweep started from.
    `PropagatedCell` states the result cell by cell in exactly those terms, and
    `Propagate` is proved to compute it.
 */
module Propagation {
  import opened Tiles
  import opened Grids

  /** The visit of one cell, stated side by side: `t` is its value when the
      sweep reaches it and the four neighbours are the values read at that
      moment (`Empty` off the grid). An unfixed cell keeps a side when the
      neighbour on that side offers the opposite one, and a cell left with
      no side is marked `Fixed`. */
  function Visit(t: Tile, top: Tile, bottom: Tile, left: Tile, right: Tile): Tile {
    if t.fixed then t
    else
      var r := Tile(t.left && left.right, t.right && right.left, t.up && top.down, t.down && bottom.up, false);
      if NoSides(r) then r.(fixed := true) else r
  }

  /** A fixed cell is left alone. An unfixed cell keeps a side exactly when
      it had it and the neighbour on that side offers the opposite side; it
      becomes fixed exactly when no side is left; and the result is never
      the plain `Empty` value. */
  lemma VisitSpec(t: Tile, top: Tile, bottom: Tile, left: Tile, right: Tile)
    ensures var r := Visit(t, top, bottom, left, right);
            (t.fixed ==> r == t) &&
            (!t.fixed ==> (r.up <==> t.up && top.down) && (r.down <==> t.down && bottom.up) &&
                          (r.left <==> t.left && left.right) && (r.right <==> t.right && right.left) &&
                          (r.fixed <==> NoSides(r))) &&
            r != Empty
  {
  }

  /** The value the sweep leaves in cell (i, j) of `g`: the visit of the
      original cell against the already swept cells above and to the left and
      the not yet swept cells below and to the right. */
  function PropagatedCell(g: Grid, i: nat, j: nat): Tile
    requires Rect(g) && InBounds(g, i, j)
    decreases i, j
  {
    var top := if i > 0 then PropagatedCell(g, i - 1, j) else Empty;
    var left := if j > 0 then PropagatedCell(g, i, j - 1) else Empty;
    var bottom := if i < |g| - 1 then g[i + 1][j] else Empty;
    var right := if j < Width(g) - 1 then g[i][j + 1] else Empty;
    Visit(g[i][j], top, bottom, left, right)
  }

  /** The grid after one call of `propagate`. */
  function PropagateGrid(g: Grid): (r: Grid)
    requires Rect(g)
    ensures Rect(r) && |r| == |g| && Width(r) == Width(g)
    ensures forall i, j :: InBounds(g, i, j) ==> r[i][j] == PropagatedCell(g, i, j)
  {
    seq(|g|, i requires 0 <= i < |g| =>
      seq(Width(g), j requires 0 <= j < Width(g) => PropagatedCell(g, i, j)))
  }

  /** The tile at (i, j) of `m`, or `Empty` off the grid. */
  ghost function At(m: array2<Tile>, i: int, j: int): Tile
    reads m
  {
    if 0 <= i < m.Length0 && 0 <= j < m.Length1 then m[i, j] else Empty
  }

  /** The clears of an unfixed cell (main.go:122-138): each side of `t`
      that its neighbour does not offer back is closed, and a cell left with
      nothing is marked `Fixed`. The successive updates of `m[i][j]` are made
      on `c`, which the caller writes back: nothing reads the cell in
      between. */
  method PruneCell(t: Tile, top: Tile, bottom: Tile, left: Tile, right: Tile) returns (c: Tile)
    requires !t.fixed
    ensures c == Visit(t, top, bottom, left, right)
  {
    c := t;
    if t.up && !top.down { c := c.(up := false); }
    if t.down && !bottom.up { c := c.(down := false); }
    if t.left && !left.right { c := c.(left := false); }
    if t.right && !right.left { c := c.(right := false); }
    // an empty cell has nothing left to resolve
    if c == Empty { c := c.(fixed := true); }
  }

  /** The body of the sweep for one cell (main.go:103-138), in place: the
      neighbours are read from the grid as it stands. */
  method VisitCell(m: array2<Tile>, i: nat, j: nat)
    requires i < m.Length0 && j < m.Length1
    modifies m
    ensures m[i, j] == Visit(old(m[i, j]), old(At(m, i - 1, j)), old(At(m, i + 1, j)),
                             old(At(m, i, j - 1)), old(At(m, i, j + 1)))
    ensures forall a, b :: 0 <= a < m.Length0 && 0 <= b < m.Length1 && (a != i || b != j) ==>
              m[a, b] == old(m[a, b])
  {
    var t := m[i, j];
    if !t.fixed {
      var top, bottom, left, right := Empty, Empty, Empty, Empty;
      if i > 0 { top := m[i - 1, j]; }
      if i < m.Length0 - 1 { bottom := m[i + 1, j]; }
      if j > 0 { left := m[i, j - 1]; }
      if j < m.Length1 - 1 { right := m[i, j + 1]; }
      assert top == At(m, i - 1, j) && bottom == At(m, i + 1, j);
      assert left == At(m, i, j - 1) && right == At(m, i, j + 1);
      var c := PruneCell(t, top, bottom, left, right);
      m[i, j] := c;
    }
  }

  /** `propagate(m)`: the in-place sweep, row by row and within a row column
      by column, reading neighbours from the grid as it is being updated. */
  method Propagate(m: array2<Tile>)
    modifies m
    ensures Cells(m) == PropagateGrid(old(Cells(m)))
  {
    ghost var g := Cells(m);
    var i := 0;
    while i < m.Length0
      invariant 0 <= i <= m.Length0
      invariant forall a, b :: 0 <= a < m.Length0 && 0 <= b < m.Length1 ==>
                  m[a, b] == if a < i then PropagatedCell(g, a, b) else g[a][b]
    {
      var j := 0;
      while j < m.Length1
        invariant 0 <= j <= m.Length1
        invariant forall a, b :: 0 <= a < m.Length0 && 0 <= b < m.Length1 ==>
                    m[a, b] == if a < i || (a == i && b < j) then PropagatedCell(g, a, b) else g[a][b]
      {
        assert At(m, i - 1, j) == if i > 0 then PropagatedCell(g, i - 1, j) else Empty;
        assert At(m, i, j - 1) == if j > 0 then PropagatedCell(g, i, j - 1) else Empty;
        assert At(m, i + 1, j) == if i < |g| - 1 then g[i + 1][j] else Empty;
        assert At(m, i, j + 1) == if j < Width(g) - 1 then g[i][j + 1] else Empty;
        VisitCell(m, i, j);
        j := j + 1;
      }
      i := i + 1;
    }
    GridExt(Cells(m), PropagateGrid(g));
  }

  // ---------------------------------------------------------------------
  // Properties of one sweep
  // ---------------------------------------------------------------------

  /** The sweep keeps the dimensions, leaves fixed cells untouched, and on an
      unfixed cell only closes sides: it never opens a side, and a cell that
      was fixed stays fixed. */
  lemma PropagateOnlyClears(g: Grid)
    requires Rect(g)
    ensures |PropagateGrid(g)| == |g| && Width(PropagateGrid(g)) == Width(g)
    ensures forall i, j :: InBounds(g, i, j) && g[i][j].fixed ==> PropagateGrid(g)[i][j] == g[i][j]
    ensures forall i, j, d :: InBounds(g, i, j) && Has(PropagateGrid(g)[i][j], d) ==> Has(g[i][j], d)
  {
    forall i, j, d | InBounds(g, i, j) && Has(PropagateGrid(g)[i][j], d)
      ensures Has(g[i][j], d)
    {
      assert PropagateGrid(g)[i][j] == PropagatedCell(g, i, j);
    }
  }

  /** An unfixed cell keeps a side exactly when it had it and the neighbour on
      that side, as read at visit time, offers the opposite side: the cells
      above and to the left have already been swept, the cells below and to
      the right not yet; off the grid a neighbour is `Empty`. */
  lemma PropagatePrunes(g: Grid, i: nat, j: nat)
    requires Rect(g) && InBounds(g, i, j) && !g[i][j].fixed
    ensures var r := PropagateGrid(g);
            var top := if i > 0 then r[i - 1][j] else Empty;
            var bottom := if i < |g| - 1 then g[i + 1][j] else Empty;
            var left := if j > 0 then r[i][j - 1] else Empty;
            var right := if j < Width(g) - 1 then g[i][j + 1] else Empty;
            (r[i][j].up <==> g[i][j].up && top.down) &&
            (r[i][j].down <==> g[i][j].down && bottom.up) &&
            (r[i][j].left <==> g[i][j].left && left.right) &&
            (r[i][j].right <==> g[i][j].right && right.left)
  {
  }

  /** Cells on the border lose their outward sides: nothing off the grid
      offers a connection back. */
  lemma PropagateBorder(g: Grid, i: nat, j: nat)
    requires Rect(g) && InBounds(g, i, j) && !g[i][j].fixed
    ensures i == 0 ==> !PropagateGrid(g)[i][j].up
    ensures i == |g| - 1 ==> !PropagateGrid(g)[i][j].down
    ensures j == 0 ==> !PropagateGrid(g)[i][j].left
    ensures j == Width(g) - 1 ==> !PropagateGrid(g)[i][j].right
  {
  }

  /** After the sweep no cell is plain `Empty`: an unfixed cell that lost
      every side is marked `Fixed`, and an unfixed cell becomes fixed only
      then. */
  lemma PropagateMarksEmpty(g: Grid)
    requires Rect(g)
    ensures forall i, j :: InBounds(g, i, j) ==> PropagateGrid(g)[i][j] != Empty
    ensures forall i, j :: InBounds(g, i, j) && !g[i][j].fixed ==>
              (PropagateGrid(g)[i][j].fixed <==> PropagateGrid(g)[i][j] == FixedEmpty)
  {
  }

  /** The sweep never unfixes a cell, so it never adds to the unfixed count. */
  lemma PropagateUnfixedCount(g: Grid)
    requires Rect(g)
    ensures UnfixedCount(PropagateGrid(g)) <= UnfixedCount(g)
  {
    PropagateOnlyClears(g);
    UnfixedMonotone(g, PropagateGrid(g));
  }

  /** A lone cell at full entropy has no neighbour to connect to: the sweep
      closes all four sides and marks it `Fixed`. */
  lemma PropagateLoneCell()
    ensures PropagateGrid([[InitialTile]]) == [[FixedEmpty]]
  {
    var r := PropagateGrid([[InitialTile]]);
    assert r[0][0] == Visit(InitialTile, Empty, Empty, Empty, Empty);
    GridExt(r, [[FixedEmpty]]);
  }
}
