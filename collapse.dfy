/** `collapse`, `fixTile` and `fixRandomTile`: pick an unfixed cell of least
    entropy and resolve it.

    The random number generator is not modelled. Each call `rand.Intn(n)` is
    the value `intn(k, n)` of a caller-supplied oracle, where `k` counts the
    draws made so far; the only thing the program relies on, and so the only
    thing the oracle promises, is that the value lies in `[0, n)`. A coin is
    drawn only where the Go code evaluates `rand.Intn(2)`, that is after the
    neighbour test of its `&&` chain has succeeded.
 */
module Collapsing {
  import opened Tiles
  import opened Grids

  /** `intn(k, n)` is the `k`-th draw of `rand.Intn(n)`. */
  type Oracle = (nat, nat) -> nat

  ghost predicate ValidOracle(intn: Oracle) {
    forall k: nat, n: nat :: 0 < n ==> intn(k, n) < n
  }

  // ---------------------------------------------------------------------
  // Entropy and the candidate cells
  // ---------------------------------------------------------------------

  /** 4 minus the number of in-bounds neighbours (above, below, left, right)
      that are fixed. */
  function Entropy(g: Grid, i: nat, j: nat): (e: int)
    requires Rect(g) && InBounds(g, i, j)
    ensures 0 <= e <= 4
    ensures e == 4 <==> !(i > 0 && g[i - 1][j].fixed) && !(i < |g| - 1 && g[i + 1][j].fixed)
                        && !(j > 0 && g[i][j - 1].fixed) && !(j < Width(g) - 1 && g[i][j + 1].fixed)
  {
    4 - (if i > 0 && g[i - 1][j].fixed then 1 else 0)
      - (if i < |g| - 1 && g[i + 1][j].fixed then 1 else 0)
      - (if j > 0 && g[i][j - 1].fixed then 1 else 0)
      - (if j < Width(g) - 1 && g[i][j + 1].fixed then 1 else 0)
  }

  /** The cells the nested `range` loops over a grid of width `w` visit
      before reaching cell (i, j): the rows above in full, then the row `i`
      up to column `j`. */
  function Order(w: nat, i: nat, j: nat): seq<Point>
    decreases i, j
  {
    if j > 0 then Order(w, i, j - 1) + [Point(i, j - 1)]
    else if i > 0 then Order(w, i - 1, w)
    else []
  }

  /** The scan order before (i, j) holds exactly the cells of the rows
      above and those of row `i` left of column `j`. */
  lemma {:induction false} OrderMember(w: nat, i: nat, j: nat, p: Point)
    requires j <= w
    ensures p in Order(w, i, j) <==> (p.x < i && p.y < w) || (p.x == i && p.y < j)
    decreases i, j
  {
    if j > 0 {
      OrderMember(w, i, j - 1, p);
      assert Order(w, i, j) == Order(w, i, j - 1) + [Point(i, j - 1)];
    } else if i > 0 {
      OrderMember(w, i - 1, w, p);
      assert Order(w, i, j) == Order(w, i - 1, w);
    } else {
      assert Order(w, i, j) == [];
    }
  }

  /** All the cells of the grid in the order of the scan. */
  function ScanOrder(g: Grid): seq<Point> {
    Order(Width(g), |g|, 0)
  }

  /** The scan visits every cell of the grid and no other point. */
  lemma ScanOrderMember(g: Grid, p: Point)
    ensures p in ScanOrder(g) <==> InBounds(g, p.x, p.y)
  {
    OrderMember(Width(g), |g|, 0, p);
  }

  /** `p` is a cell of the grid that is not yet fixed. */
  predicate Unfixed(g: Grid, p: Point)
    requires Rect(g)
  {
    InBounds(g, p.x, p.y) && !g[p.x][p.y].fixed
  }

  function EntropyAt(g: Grid, p: Point): int
    requires Rect(g) && InBounds(g, p.x, p.y)
  {
    Entropy(g, p.x, p.y)
  }

  /** The value of `minEntropy` after scanning `ps`: 10 to begin with, then
      lowered to every smaller entropy of an unfixed cell. */
  function MinEntropy(g: Grid, ps: seq<Point>): int
    requires Rect(g)
  {
    if ps == [] then 10
    else
      var p := ps[|ps| - 1];
      var e := MinEntropy(g, ps[..|ps| - 1]);
      if Unfixed(g, p) && EntropyAt(g, p) < e then EntropyAt(g, p) else e
  }

  /** The unfixed cells of `ps` whose entropy is `e`, in the order of `ps`. */
  function Select(g: Grid, ps: seq<Point>, e: int): seq<Point>
    requires Rect(g)
  {
    if ps == [] then []
    else
      var p := ps[|ps| - 1];
      Select(g, ps[..|ps| - 1], e) + (if Unfixed(g, p) && EntropyAt(g, p) == e then [p] else [])
  }

  /** A point is in `ps` exactly when it is in `ps` without its last element
      or is that element. */
  lemma LastSplit(ps: seq<Point>, p: Point)
    requires ps != []
    ensures p in ps <==> p in ps[..|ps| - 1] || p == ps[|ps| - 1]
  {
    assert ps == ps[..|ps| - 1] + [ps[|ps| - 1]];
  }

  /** `MinEntropy` is the least entropy of the unfixed cells of `ps`, or 10
      when `ps` holds no unfixed cell. */
  lemma {:induction false} MinEntropyLeast(g: Grid, ps: seq<Point>)
    requires Rect(g)
    ensures MinEntropy(g, ps) <= 10
    ensures forall p :: p in ps && Unfixed(g, p) ==> MinEntropy(g, ps) <= EntropyAt(g, p)
    ensures MinEntropy(g, ps) == 10 ||
            exists p :: p in ps && Unfixed(g, p) && EntropyAt(g, p) == MinEntropy(g, ps)
  {
    if ps != [] {
      var q, last := ps[..|ps| - 1], ps[|ps| - 1];
      MinEntropyLeast(g, q);
      forall p | p in ps && Unfixed(g, p) ensures MinEntropy(g, ps) <= EntropyAt(g, p) {
        LastSplit(ps, p);
      }
      if MinEntropy(g, ps) != 10 && MinEntropy(g, ps) == MinEntropy(g, q) {
        var w :| w in q && Unfixed(g, w) && EntropyAt(g, w) == MinEntropy(g, q);
        LastSplit(ps, w);
      }
    }
  }

  /** `Select` keeps exactly the unfixed cells of `ps` of entropy `e`. */
  lemma {:induction false} SelectMember(g: Grid, ps: seq<Point>, e: int, p: Point)
    requires Rect(g)
    ensures p in Select(g, ps, e) <==> p in ps && Unfixed(g, p) && EntropyAt(g, p) == e
  {
    if ps != [] {
      SelectMember(g, ps[..|ps| - 1], e, p);
      LastSplit(ps, p);
    }
  }

  /** `minEntropy` at the end of the scan of `collapse`. */
  function ScanMin(g: Grid): int
    requires Rect(g)
  {
    MinEntropy(g, ScanOrder(g))
  }

  /** `minTiles` at the end of the scan of `collapse`. */
  function Candidates(g: Grid): (c: seq<Point>)
    requires Rect(g)
    ensures forall p :: p in c ==> Unfixed(g, p)
  {
    var ps := ScanOrder(g);
    var c := Select(g, ps, ScanMin(g));
    assert forall p :: p in c ==> Unfixed(g, p) by {
      forall p | p in c ensures Unfixed(g, p) {
        SelectMember(g, ps, ScanMin(g), p);
      }
    }
    c
  }

  /** Cell (i, j) is unfixed and no unfixed cell has a smaller entropy. */
  ghost predicate LeastEntropy(g: Grid, i: nat, j: nat)
    requires Rect(g) && InBounds(g, i, j)
  {
    !g[i][j].fixed &&
    forall a, b :: InBounds(g, a, b) && !g[a][b].fixed ==> Entropy(g, i, j) <= Entropy(g, a, b)
  }

  /** The candidates are exactly the unfixed cells whose entropy is least
      among the unfixed cells, whether or not they have a fixed neighbour. */
  lemma CandidatesExact(g: Grid, i: nat, j: nat)
    requires Rect(g) && InBounds(g, i, j)
    ensures Point(i, j) in Candidates(g) <==> LeastEntropy(g, i, j)
  {
    var ps, e := ScanOrder(g), ScanMin(g);
    ScanOrderMember(g, Point(i, j));
    SelectMember(g, ps, e, Point(i, j));
    MinEntropyLeast(g, ps);
    if LeastEntropy(g, i, j) {
      assert e <= Entropy(g, i, j) <= 4;
      var q :| q in ps && Unfixed(g, q) && EntropyAt(g, q) == e;
      assert Entropy(g, i, j) <= EntropyAt(g, q);
    }
    if Point(i, j) in Candidates(g) {
      forall a, b | InBounds(g, a, b) && !g[a][b].fixed
        ensures Entropy(g, i, j) <= Entropy(g, a, b)
      {
        ScanOrderMember(g, Point(a, b));
      }
    }
  }

  /** There is no candidate exactly when every cell is fixed. */
  lemma CandidatesEmpty(g: Grid)
    requires Rect(g)
    ensures |Candidates(g)| == 0 <==> AllFixed(g)
  {
    var ps, e := ScanOrder(g), ScanMin(g);
    if !AllFixed(g) {
      var i: nat, j: nat :| 0 <= i < |g| && 0 <= j < |g[i]| && !g[i][j].fixed;
      ScanOrderMember(g, Point(i, j));
      MinEntropyLeast(g, ps);
      assert e <= Entropy(g, i, j) <= 4;
      var q :| q in ps && Unfixed(g, q) && EntropyAt(g, q) == e;
      SelectMember(g, ps, e, q);
    }
    var c := Candidates(g);
    if |c| > 0 {
      assert c[0] in c;
    }
  }

  /** One step of the scan: the cell `p` appended to the scanned cells. */
  lemma ScanStep(g: Grid, ps: seq<Point>, p: Point, e: int)
    requires Rect(g)
    ensures MinEntropy(g, ps + [p]) ==
              if Unfixed(g, p) && EntropyAt(g, p) < MinEntropy(g, ps) then EntropyAt(g, p) else MinEntropy(g, ps)
    ensures Select(g, ps + [p], e) ==
              Select(g, ps, e) + (if Unfixed(g, p) && EntropyAt(g, p) == e then [p] else [])
  {
    assert (ps + [p])[..|ps|] == ps;
  }

  /** The loop body of the scan keeps its invariant: appending `p` to the
      scanned cells lowers the least entropy to that of `p` when `p` is
      unfixed with a smaller entropy, and the cells of least entropy are
      then `[p]` alone, gain `p` when it ties, and are unchanged otherwise. */
  lemma ScanCell(g: Grid, ps: seq<Point>, p: Point, qs: seq<Point>)
    requires Rect(g) && InBounds(g, p.x, p.y) && qs == ps + [p]
    ensures var e0, c0 := MinEntropy(g, ps), Select(g, ps, MinEntropy(g, ps));
            var e1, c1 := MinEntropy(g, qs), Select(g, qs, MinEntropy(g, qs));
            (!g[p.x][p.y].fixed && Entropy(g, p.x, p.y) < e0 ==> e1 == Entropy(g, p.x, p.y) && c1 == [p]) &&
            (!g[p.x][p.y].fixed && Entropy(g, p.x, p.y) == e0 ==> e1 == e0 && c1 == c0 + [p]) &&
            (g[p.x][p.y].fixed || Entropy(g, p.x, p.y) > e0 ==> e1 == e0 && c1 == c0)
  {
    var e0 := MinEntropy(g, ps);
    ScanStep(g, ps, p, e0);
    if Unfixed(g, p) && EntropyAt(g, p) < e0 {
      ScanStep(g, ps, p, EntropyAt(g, p));
      SelectBelowMin(g, ps, EntropyAt(g, p));
    }
  }

  /** The scan loop of `collapse`: the least entropy over the unfixed cells
      and, in row-major order, the unfixed cells that have it. */
  method EntropyScan(m: array2<Tile>) returns (minEntropy: int, minTiles: seq<Point>)
    ensures minEntropy == ScanMin(Cells(m))
    ensures minTiles == Candidates(Cells(m))
  {
    minEntropy, minTiles := 10, [];
    var i := 0;
    while i < m.Length0
      invariant 0 <= i <= m.Length0
      invariant minEntropy == MinEntropy(Cells(m), Order(m.Length1, i, 0))
      invariant minTiles == Select(Cells(m), Order(m.Length1, i, 0), minEntropy)
    {
      minEntropy, minTiles := ScanRow(m, i, minEntropy, minTiles);
      i := i + 1;
    }
    assert Order(m.Length1, m.Length0, 0) == ScanOrder(Cells(m));
  }

  /** The inner loop of the scan over row `i`, continuing from the values
      left by the rows above. */
  method ScanRow(m: array2<Tile>, i: nat, e: int, c: seq<Point>) returns (minEntropy: int, minTiles: seq<Point>)
    requires i < m.Length0
    requires e == MinEntropy(Cells(m), Order(m.Length1, i, 0))
    requires c == Select(Cells(m), Order(m.Length1, i, 0), e)
    ensures minEntropy == MinEntropy(Cells(m), Order(m.Length1, i + 1, 0))
    ensures minTiles == Select(Cells(m), Order(m.Length1, i + 1, 0), minEntropy)
  {
    ghost var g := Cells(m);
    minEntropy, minTiles := e, c;
    var j := 0;
    while j < m.Length1
      invariant 0 <= j <= m.Length1
      invariant minEntropy == MinEntropy(g, Order(m.Length1, i, j))
      invariant minTiles == Select(g, Order(m.Length1, i, j), minEntropy)
    {
      ScanCell(g, Order(m.Length1, i, j), Point(i, j), Order(m.Length1, i, j + 1));
      var entropy := CellEntropy(m, i, j);
      if !m[i, j].fixed {
        if entropy < minEntropy {
          minEntropy := entropy;
          minTiles := [];
        }
        if entropy == minEntropy {
          minTiles := minTiles + [Point(i, j)];
        }
      }
      j := j + 1;
    }
    assert Order(m.Length1, i + 1, 0) == Order(m.Length1, i, m.Length1);
  }

  /** The entropy computation of `collapse` for cell (i, j). */
  method CellEntropy(m: array2<Tile>, i: nat, j: nat) returns (entropy: int)
    requires i < m.Length0 && j < m.Length1
    ensures entropy == Entropy(Cells(m), i, j)
  {
    entropy := 4;
    if i > 0 && m[i - 1, j].fixed { entropy := entropy - 1; }
    if i < m.Length0 - 1 && m[i + 1, j].fixed { entropy := entropy - 1; }
    if j > 0 && m[i, j - 1].fixed { entropy := entropy - 1; }
    if j < m.Length1 - 1 && m[i, j + 1].fixed { entropy := entropy - 1; }
  }

  /** Below the least entropy there is no candidate: the reason the scan may
      start its list afresh when it finds a smaller entropy. */
  lemma SelectBelowMin(g: Grid, ps: seq<Point>, e: int)
    requires Rect(g) && e < MinEntropy(g, ps)
    ensures Select(g, ps, e) == []
  {
    if Select(g, ps, e) != [] {
      var q := Select(g, ps, e)[0];
      SelectMember(g, ps, e, q);
      MinEntropyLeast(g, ps);
    }
  }

  // ---------------------------------------------------------------------
  // fixTile
  // ---------------------------------------------------------------------

  // The four neighbour tests of `fixTile`, with its axes as written: `x`
  // indexes rows, yet "left" looks at the row above and "up" at the column
  // to the left.
  predicate GateLeft(g: Grid, x: nat, y: nat) requires Rect(g) && InBounds(g, x, y) {
    x > 0 && g[x - 1][y].fixed
  }
  predicate GateRight(g: Grid, x: nat, y: nat) requires Rect(g) && InBounds(g, x, y) {
    x < |g| - 1 && g[x + 1][y].fixed
  }
  predicate GateUp(g: Grid, x: nat, y: nat) requires Rect(g) && InBounds(g, x, y) {
    y > 0 && g[x][y - 1].fixed
  }
  predicate GateDown(g: Grid, x: nat, y: nat) requires Rect(g) && InBounds(g, x, y) {
    y < Width(g) - 1 && g[x][y + 1].fixed
  }

  /** The resolved tile and the index of the next unused draw. */
  datatype Resolved = Resolved(tile: Tile, next: nat)

  function Flip(intn: Oracle, k: nat, gate: bool): (coin: bool) {
    gate && intn(k, 2) == 0
  }

  function After(k: nat, gate: bool): (n: nat) {
    if gate then k + 1 else k
  }

  /** One line of `fixTile`: when the neighbour test `gate` holds, draw a
      coin and close side `d` on heads. */
  function ClearOn(t: Tile, d: Dir, gate: bool, intn: Oracle, k: nat): Resolved {
    Resolved(if Flip(intn, k, gate) then Without(t, d) else t, After(k, gate))
  }

  /** What `fixTile(m, x, y)` writes into cell (x, y), with the index of the
      next unused draw. */
  function ResolveTile(g: Grid, x: nat, y: nat, intn: Oracle, k: nat): Resolved
    requires Rect(g) && InBounds(g, x, y)
  {
    var r1 := ClearOn(g[x][y], L, GateLeft(g, x, y), intn, k);
    var r2 := ClearOn(r1.tile, R, GateRight(g, x, y), intn, r1.next);
    var r3 := ClearOn(r2.tile, U, GateUp(g, x, y), intn, r2.next);
    var r4 := ClearOn(r3.tile, D, GateDown(g, x, y), intn, r3.next);
    Resolved(r4.tile.(fixed := true), r4.next)
  }

  /** The resolved tile is fixed and only closes sides. A side is closed
      only when its neighbour test holds and the coin drawn for it comes up
      0; the coins are drawn in the order left, right, up, down, one per
      test that holds, so `next` is `k` plus the number of tests that hold. */
  lemma ResolveTileSpec(g: Grid, x: nat, y: nat, intn: Oracle, k: nat)
    requires Rect(g) && InBounds(g, x, y)
    ensures var r := ResolveTile(g, x, y, intn, k);
            var t := g[x][y];
            var kr := After(k, GateLeft(g, x, y));
            var ku := After(kr, GateRight(g, x, y));
            var kd := After(ku, GateUp(g, x, y));
            r.tile.fixed &&
            (forall d :: Has(r.tile, d) ==> Has(t, d)) &&
            (r.tile.left <==> t.left && !Flip(intn, k, GateLeft(g, x, y))) &&
            (r.tile.right <==> t.right && !Flip(intn, kr, GateRight(g, x, y))) &&
            (r.tile.up <==> t.up && !Flip(intn, ku, GateUp(g, x, y))) &&
            (r.tile.down <==> t.down && !Flip(intn, kd, GateDown(g, x, y))) &&
            r.next == After(kd, GateDown(g, x, y))
  {
  }

  /** The grid after `fixTile`, with the next unused draw. */
  datatype Step = Step(grid: Grid, next: nat)

  function FixTileGrid(g: Grid, x: nat, y: nat, intn: Oracle, k: nat): (s: Step)
    requires Rect(g) && InBounds(g, x, y)
    ensures Rect(s.grid) && |s.grid| == |g| && Width(s.grid) == Width(g)
  {
    var r := ResolveTile(g, x, y, intn, k);
    Step(g[x := g[x][y := r.tile]], r.next)
  }

  /** `fixTile` marks (x, y) fixed, only closes sides of it, and changes no
      other cell. */
  lemma FixTileChangesOne(g: Grid, x: nat, y: nat, intn: Oracle, k: nat)
    requires Rect(g) && InBounds(g, x, y)
    ensures var h := FixTileGrid(g, x, y, intn, k).grid;
            h[x][y] == ResolveTile(g, x, y, intn, k).tile && h[x][y].fixed &&
            (forall d :: Has(h[x][y], d) ==> Has(g[x][y], d)) &&
            forall a, b :: InBounds(g, a, b) && (a != x || b != y) ==> h[a][b] == g[a][b]
  {
    ResolveTileSpec(g, x, y, intn, k);
  }

  /** One `if` of `fixTile` once its neighbour test `gate` is known: only
      when the test holds is a coin drawn (Go's `&&` stops at a false
      operand), and a 0 closes side `d`. */
  method DrawAndClear(t: Tile, d: Dir, gate: bool, intn: Oracle, k: nat) returns (c: Tile, next: nat)
    ensures Resolved(c, next) == ClearOn(t, d, gate, intn, k)
  {
    c, next := t, k;
    if gate {
      var coin := intn(next, 2);
      next := next + 1;
      if coin == 0 { c := Without(c, d); }
    }
  }

  /** The four `if` statements of `fixTile`, in order, on a copy `c` of
      cell (x, y): the neighbour tests read only the other cells, so the
      clears can be written back at once. */
  method ResolveCell(m: array2<Tile>, x: nat, y: nat, intn: Oracle, k: nat) returns (c: Tile, next: nat)
    requires x < m.Length0 && y < m.Length1
    ensures Resolved(c.(fixed := true), next) == ResolveTile(Cells(m), x, y, intn, k)
  {
    ghost var g := Cells(m);
    assert (x > 0 && m[x - 1, y].fixed) == GateLeft(g, x, y);
    assert (x < m.Length0 - 1 && m[x + 1, y].fixed) == GateRight(g, x, y);
    assert (y > 0 && m[x, y - 1].fixed) == GateUp(g, x, y);
    assert (y < m.Length1 - 1 && m[x, y + 1].fixed) == GateDown(g, x, y);
    c := m[x, y];
    // left
    c, next := DrawAndClear(c, L, x > 0 && m[x - 1, y].fixed, intn, k);
    // right
    c, next := DrawAndClear(c, R, x < m.Length0 - 1 && m[x + 1, y].fixed, intn, next);
    // up
    c, next := DrawAndClear(c, U, y > 0 && m[x, y - 1].fixed, intn, next);
    // down
    c, next := DrawAndClear(c, D, y < m.Length1 - 1 && m[x, y + 1].fixed, intn, next);
  }

  /** `fixTile(m, x, y)` in place: the resolved sides and the `Fixed` bit
      are written into cell (x, y), and no other cell changes. */
  method FixTile(m: array2<Tile>, x: nat, y: nat, intn: Oracle, k: nat) returns (next: nat)
    requires x < m.Length0 && y < m.Length1
    modifies m
    ensures Cells(m) == FixTileGrid(old(Cells(m)), x, y, intn, k).grid
    ensures next == FixTileGrid(old(Cells(m)), x, y, intn, k).next
  {
    ghost var g := Cells(m);
    var c;
    c, next := ResolveCell(m, x, y, intn, k);
    // fix the tile
    m[x, y] := c.(fixed := true);
    GridUpdate(g, Cells(m), x, y);
  }

  // ---------------------------------------------------------------------
  // fixRandomTile and collapse
  // ---------------------------------------------------------------------

  function FixRandomGrid(g: Grid, intn: Oracle, k: nat): (s: Step)
    requires Rect(g) && |g| >= 1 && Width(g) >= 1 && ValidOracle(intn)
    ensures Rect(s.grid) && |s.grid| == |g| && Width(s.grid) == Width(g)
  {
    var x := intn(k, |g|);
    var y := intn(k + 1, |g[x]|);
    FixTileGrid(g, x, y, intn, k + 2)
  }

  /** `fixRandomTile(m)` in place. */
  method FixRandomTile(m: array2<Tile>, intn: Oracle, k: nat) returns (next: nat)
    requires m.Length0 >= 1 && m.Length1 >= 1 && ValidOracle(intn)
    modifies m
    ensures Cells(m) == FixRandomGrid(old(Cells(m)), intn, k).grid
    ensures next == FixRandomGrid(old(Cells(m)), intn, k).next
  {
    var x := intn(k, m.Length0);
    var y := intn(k + 1, m.Length1);
    next := FixTile(m, x, y, intn, k + 2);
  }

  /** The grid after `collapse`. */
  function CollapseGrid(g: Grid, intn: Oracle, k: nat): (s: Step)
    requires Rect(g) && |g| >= 1 && Width(g) >= 1 && ValidOracle(intn)
    ensures Rect(s.grid) && |s.grid| == |g| && Width(s.grid) == Width(g)
  {
    var c := Candidates(g);
    if |c| == 0 then FixRandomGrid(g, intn, k)
    else
      var p := c[intn(k, |c|)];
      assert p in c;
      FixTileGrid(g, p.x, p.y, intn, k + 1)
  }

  /** `collapse(m)` in place: scan, then resolve one candidate, or a random
      cell when there is none. */
  method Collapse(m: array2<Tile>, intn: Oracle, k: nat) returns (next: nat)
    requires m.Length0 >= 1 && m.Length1 >= 1 && ValidOracle(intn)
    modifies m
    ensures Cells(m) == CollapseGrid(old(Cells(m)), intn, k).grid
    ensures next == CollapseGrid(old(Cells(m)), intn, k).next
  {
    var minEntropy, minTiles := EntropyScan(m);
    if |minTiles| == 0 {
      next := FixRandomTile(m, intn, k);
      return;
    }
    // choose one tile randomly
    var p := minTiles[intn(k, |minTiles|)];
    assert p in minTiles;
    next := FixTile(m, p.x, p.y, intn, k + 1);
  }

  /** On a grid with an unfixed cell, `collapse` resolves exactly one cell:
      the chosen candidate, which was unfixed and of least entropy among the
      unfixed cells, becomes fixed and only loses sides, and every other
      cell is unchanged, so the
      number of unfixed cells drops by exactly one. */
  lemma CollapseFixesOne(g: Grid, intn: Oracle, k: nat)
    requires Rect(g) && |g| >= 1 && Width(g) >= 1 && ValidOracle(intn) && !AllFixed(g)
    ensures |Candidates(g)| > 0
    ensures var p := Candidates(g)[intn(k, |Candidates(g)|)];
            var h := CollapseGrid(g, intn, k).grid;
            InBounds(g, p.x, p.y) && !g[p.x][p.y].fixed &&
            LeastEntropy(g, p.x, p.y) && h[p.x][p.y].fixed &&
            h[p.x][p.y] == ResolveTile(g, p.x, p.y, intn, k + 1).tile &&
            (forall d :: Has(h[p.x][p.y], d) ==> Has(g[p.x][p.y], d)) &&
            (forall a, b :: InBounds(g, a, b) && (a != p.x || b != p.y) ==> h[a][b] == g[a][b]) &&
            UnfixedCount(h) == UnfixedCount(g) - 1
  {
    CandidatesEmpty(g);
    var c := Candidates(g);
    var p := c[intn(k, |c|)];
    assert p in c;
    CandidatesExact(g, p.x, p.y);
    FixTileChangesOne(g, p.x, p.y, intn, k + 1);
    var h := CollapseGrid(g, intn, k).grid;
    UnfixedFixOne(g, h, p.x, p.y);
  }

  /** When every cell is already fixed, `collapse` falls back on
      `fixRandomTile`: every cell stays fixed, yet the one cell it picks may
      still lose sides (the pattern of a fixed cell is not protected here). */
  lemma CollapseAllFixed(g: Grid, intn: Oracle, k: nat)
    requires Rect(g) && |g| >= 1 && Width(g) >= 1 && ValidOracle(intn) && AllFixed(g)
    ensures var x, y := intn(k, |g|), intn(k + 1, Width(g));
            var h := CollapseGrid(g, intn, k).grid;
            AllFixed(h) && h[x][y] == ResolveTile(g, x, y, intn, k + 2).tile &&
            forall a, b :: InBounds(g, a, b) && (a != x || b != y) ==> h[a][b] == g[a][b]
  {
    CandidatesEmpty(g);
    var x, y := intn(k, |g|), intn(k + 1, Width(g));
    FixTileChangesOne(g, x, y, intn, k + 2);
  }

  /** `collapse` never opens a side and never unfixes a cell, whether it
      resolves a candidate or falls back on a random cell. */
  lemma CollapseOnlyClears(g: Grid, intn: Oracle, k: nat)
    requires Rect(g) && |g| >= 1 && Width(g) >= 1 && ValidOracle(intn)
    ensures var h := CollapseGrid(g, intn, k).grid;
            (forall i, j :: InBounds(g, i, j) && g[i][j].fixed ==> h[i][j].fixed) &&
            (forall i, j, d :: InBounds(g, i, j) && Has(h[i][j], d) ==> Has(g[i][j], d))
  {
    var c := Candidates(g);
    if |c| == 0 {
      var x := intn(k, |g|);
      var y := intn(k + 1, |g[x]|);
      FixTileChangesOne(g, x, y, intn, k + 2);
    } else {
      var p := c[intn(k, |c|)];
      assert p in c;
      FixTileChangesOne(g, p.x, p.y, intn, k + 1);
    }
  }
}
