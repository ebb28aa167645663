/** The grid (Go's `Map`, a slice of rows of tiles): its value view, the
    count of cells that are not yet fixed, `initMap` and `Map.isFixed`.

    The generator only ever builds rectangular grids and updates them in
    place, so a grid in memory is an `array2<Tile>` indexed by (row, column);
    `Cells` reads it as a sequence of rows, which is what the specification
    functions of the other modules take.
 */
module Grids {
  import opened Tiles

  type Grid = seq<seq<Tile>>

  /** A cell position: `x` is the row and `y` the column, as in Go's `Point`. */
  datatype Point = Point(x: nat, y: nat)

  function Width(g: Grid): nat {
    if |g| == 0 then 0 else |g[0]|
  }

  /** Every row has the width of the first one. */
  ghost predicate Rect(g: Grid) {
    forall i :: 0 <= i < |g| ==> |g[i]| == Width(g)
  }

  predicate InBounds(g: Grid, i: int, j: int) {
    0 <= i < |g| && 0 <= j < Width(g)
  }

  /** The grid stored in `m`, row by row. */
  ghost function Cells(m: array2<Tile>): (g: Grid)
    reads m
    ensures Rect(g) && |g| == m.Length0
    ensures m.Length0 > 0 ==> Width(g) == m.Length1
    ensures forall i, j :: 0 <= i < m.Length0 && 0 <= j < m.Length1 ==> g[i][j] == m[i, j]
  {
    seq(m.Length0, i requires 0 <= i < m.Length0 reads m =>
      seq(m.Length1, j requires 0 <= j < m.Length1 reads m => m[i, j]))
  }

  /** Two grids of the same shape with the same cells are equal. */
  lemma GridExt(g: Grid, h: Grid)
    requires Rect(g) && Rect(h) && |g| == |h| && Width(g) == Width(h)
    requires forall i, j :: 0 <= i < |g| && 0 <= j < Width(g) ==> g[i][j] == h[i][j]
    ensures g == h
  {
    forall i | 0 <= i < |g| ensures g[i] == h[i] {
      assert |g[i]| == |h[i]|;
    }
  }

  /** A grid that differs from `g` at most in cell (x, y) is `g` with that
      cell replaced. */
  lemma GridUpdate(g: Grid, h: Grid, x: nat, y: nat)
    requires Rect(g) && Rect(h) && |g| == |h| && Width(g) == Width(h) && x < |g| && y < Width(g)
    requires forall i, j :: 0 <= i < |g| && 0 <= j < Width(g) && (i != x || j != y) ==> g[i][j] == h[i][j]
    ensures h == g[x := g[x][y := h[x][y]]]
  {
    GridExt(h, g[x := g[x][y := h[x][y]]]);
  }

  /** Every cell carries the `Fixed` bit. */
  ghost predicate AllFixed(g: Grid) {
    forall i, j :: 0 <= i < |g| && 0 <= j < |g[i]| ==> g[i][j].fixed
  }

  // ---------------------------------------------------------------------
  // The number of unfixed cells, the measure of the driving loop
  // ---------------------------------------------------------------------

  function RowUnfixed(row: seq<Tile>): (n: nat)
    ensures n <= |row|
  {
    if row == [] then 0
    else (if row[0].fixed then 0 else 1) + RowUnfixed(row[1..])
  }

  function UnfixedCount(g: Grid): (n: nat) {
    if g == [] then 0 else RowUnfixed(g[0]) + UnfixedCount(g[1..])
  }

  /** A row has no unfixed cell exactly when every cell of it is fixed. */
  lemma {:induction false} RowUnfixedZero(row: seq<Tile>)
    ensures RowUnfixed(row) == 0 <==> forall j :: 0 <= j < |row| ==> row[j].fixed
  {
    if row != [] {
      RowUnfixedZero(row[1..]);
      if RowUnfixed(row) == 0 {
        forall j | 0 <= j < |row| ensures row[j].fixed {
          if j > 0 { assert row[j] == row[1..][j - 1]; }
        }
      }
    }
  }

  /** The grid has no unfixed cell exactly when every cell is fixed. */
  lemma {:induction false} UnfixedZero(g: Grid)
    ensures UnfixedCount(g) == 0 <==> AllFixed(g)
  {
    if g != [] {
      RowUnfixedZero(g[0]);
      UnfixedZero(g[1..]);
      if UnfixedCount(g) == 0 {
        forall i, j | 0 <= i < |g| && 0 <= j < |g[i]| ensures g[i][j].fixed {
          if i > 0 { assert g[i] == g[1..][i - 1]; }
        }
      }
    }
  }

  /** There are at most as many unfixed cells as cells. */
  lemma {:induction false} UnfixedBound(g: Grid)
    requires Rect(g)
    ensures UnfixedCount(g) <= |g| * Width(g)
  {
    if g != [] {
      var w := Width(g);
      if |g| > 1 {
        assert Width(g[1..]) == w by { assert g[1..][0] == g[1]; }
        assert Rect(g[1..]) by {
          forall i | 0 <= i < |g[1..]| ensures |g[1..][i]| == w { assert g[1..][i] == g[i + 1]; }
        }
      }
      UnfixedBound(g[1..]);
      assert |g| * w == w + (|g| - 1) * w;
    }
  }

  /** A row in which no fixed cell became unfixed has no more unfixed cells. */
  lemma {:induction false} RowUnfixedMonotone(a: seq<Tile>, b: seq<Tile>)
    requires |a| == |b|
    requires forall j :: 0 <= j < |a| && a[j].fixed ==> b[j].fixed
    ensures RowUnfixed(b) <= RowUnfixed(a)
  {
    if a != [] {
      assert forall j :: 0 <= j < |a[1..]| ==> a[1..][j] == a[j + 1] && b[1..][j] == b[j + 1];
      RowUnfixedMonotone(a[1..], b[1..]);
    }
  }

  /** Keeping every fixed cell fixed never increases the unfixed count. */
  lemma {:induction false} UnfixedMonotone(g: Grid, h: Grid)
    requires |g| == |h| && forall i :: 0 <= i < |g| ==> |g[i]| == |h[i]|
    requires forall i, j :: 0 <= i < |g| && 0 <= j < |g[i]| && g[i][j].fixed ==> h[i][j].fixed
    ensures UnfixedCount(h) <= UnfixedCount(g)
  {
    if g != [] {
      RowUnfixedMonotone(g[0], h[0]);
      assert forall i :: 0 <= i < |g[1..]| ==> g[1..][i] == g[i + 1] && h[1..][i] == h[i + 1];
      UnfixedMonotone(g[1..], h[1..]);
    }
  }

  /** Rows with the same fixed cells have the same count. */
  lemma {:induction false} RowUnfixedSame(a: seq<Tile>, b: seq<Tile>)
    requires |a| == |b|
    requires forall j :: 0 <= j < |a| ==> a[j].fixed == b[j].fixed
    ensures RowUnfixed(b) == RowUnfixed(a)
  {
    if a != [] {
      assert forall j :: 0 <= j < |a[1..]| ==> a[1..][j] == a[j + 1] && b[1..][j] == b[j + 1];
      RowUnfixedSame(a[1..], b[1..]);
    }
  }

  /** Fixing one unfixed cell of a row and nothing else lowers its count by one. */
  lemma {:induction false} RowUnfixedFixOne(a: seq<Tile>, b: seq<Tile>, y: nat)
    requires |a| == |b| && y < |a|
    requires !a[y].fixed && b[y].fixed
    requires forall j :: 0 <= j < |a| && j != y ==> a[j].fixed == b[j].fixed
    ensures RowUnfixed(b) == RowUnfixed(a) - 1
  {
    assert forall j :: 0 <= j < |a[1..]| ==> a[1..][j] == a[j + 1] && b[1..][j] == b[j + 1];
    if y == 0 {
      RowUnfixedSame(a[1..], b[1..]);
    } else {
      RowUnfixedFixOne(a[1..], b[1..], y - 1);
    }
  }

  /** Fixing one unfixed cell of a grid and nothing else lowers its count by one. */
  lemma {:induction false} UnfixedFixOne(g: Grid, h: Grid, x: nat, y: nat)
    requires |g| == |h| && forall i :: 0 <= i < |g| ==> |g[i]| == |h[i]|
    requires x < |g| && y < |g[x]|
    requires !g[x][y].fixed && h[x][y].fixed
    requires forall i, j :: 0 <= i < |g| && 0 <= j < |g[i]| && (i != x || j != y) ==>
               g[i][j].fixed == h[i][j].fixed
    ensures UnfixedCount(h) == UnfixedCount(g) - 1
  {
    assert forall i :: 0 <= i < |g[1..]| ==> g[1..][i] == g[i + 1] && h[1..][i] == h[i + 1];
    if x == 0 {
      RowUnfixedFixOne(g[0], h[0], y);
      GridUnfixedSame(g[1..], h[1..]);
    } else {
      RowUnfixedSame(g[0], h[0]);
      UnfixedFixOne(g[1..], h[1..], x - 1, y);
    }
  }

  /** Grids with the same fixed cells have the same count. */
  lemma {:induction false} GridUnfixedSame(g: Grid, h: Grid)
    requires |g| == |h| && forall i :: 0 <= i < |g| ==> |g[i]| == |h[i]|
    requires forall i, j :: 0 <= i < |g| && 0 <= j < |g[i]| ==> g[i][j].fixed == h[i][j].fixed
    ensures UnfixedCount(h) == UnfixedCount(g)
  {
    if g != [] {
      RowUnfixedSame(g[0], h[0]);
      assert forall i :: 0 <= i < |g[1..]| ==> g[1..][i] == g[i + 1] && h[1..][i] == h[i + 1];
      GridUnfixedSame(g[1..], h[1..]);
    }
  }

  // ---------------------------------------------------------------------
  // initMap and Map.isFixed
  // ---------------------------------------------------------------------

  /** `initMap(w, h)`: `h` rows of `w` columns, every cell at full entropy. */
  method InitMap(w: nat, h: nat) returns (m: array2<Tile>)
    ensures fresh(m) && m.Length0 == h && m.Length1 == w
    ensures forall i, j :: 0 <= i < h && 0 <= j < w ==> m[i, j] == InitialTile
  {
    m := new Tile[h, w];
    for i := 0 to h
      invariant forall a, b :: 0 <= a < i && 0 <= b < w ==> m[a, b] == InitialTile
    {
      for j := 0 to w
        invariant forall a, b :: 0 <= a < i && 0 <= b < w ==> m[a, b] == InitialTile
        invariant forall b :: 0 <= b < j ==> m[i, b] == InitialTile
      {
        m[i, j] := InitialTile;
      }
    }
  }

  /** `Map.isFixed`: scans row by row and answers false at the first cell
      without the `Fixed` bit. */
  method MapIsFixed(m: array2<Tile>) returns (b: bool)
    ensures b <==> AllFixed(Cells(m))
  {
    var i := 0;
    while i < m.Length0
      invariant 0 <= i <= m.Length0
      invariant forall a, c :: 0 <= a < i && 0 <= c < m.Length1 ==> m[a, c].fixed
    {
      var j := 0;
      while j < m.Length1
        invariant 0 <= j <= m.Length1
        invariant forall c :: 0 <= c < j ==> m[i, c].fixed
      {
        if !m[i, j].fixed {
          return false;
        }
        j := j + 1;
      }
      i := i + 1;
    }
    return true;
  }
}
