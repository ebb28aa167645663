/** The generator's main loop: starting from `initMap(w, h)`, while the grid
    is not complete, `propagate`, print the grid, `collapse`, print the grid.

    `RunFrom` states the whole run on grid values and `Generate` is proved to
    compute it; the printed text is returned as a string instead of written
    to standard output. The lemmas show that every run ends with every cell
    fixed after at most one round per cell, and what it prints.
 */
module Generator {
  import opened Tiles
  import opened Grids
  import opened Propagation
  import opened Collapsing
  import opened Rendering

  /** The grid `initMap(w, h)` builds: `h` rows of `w` fresh cells. */
  function InitGrid(w: nat, h: nat): (g: Grid)
    ensures Rect(g) && |g| == h && (h > 0 ==> Width(g) == w)
    ensures forall i, j :: 0 <= i < h && 0 <= j < w ==> g[i][j] == InitialTile
  {
    seq(h, _ => seq(w, _ => InitialTile))
  }

  /** The outcome of a run: the final grid, the grids printed, in order,
      the number of random draws made before the end, and the number of
      rounds. */
  datatype Outcome = Outcome(grid: Grid, frames: seq<Grid>, next: nat, rounds: nat)

  /** A grid with an unfixed cell has at least one row and one column. */
  lemma NotFixedNonEmpty(g: Grid)
    requires Rect(g) && !AllFixed(g)
    ensures |g| >= 1 && Width(g) >= 1
  {
    var i, j :| 0 <= i < |g| && 0 <= j < |g[i]| && !g[i][j].fixed;
  }

  /** Every round fixes at least one more cell: the sweep fixes none to
      unfixed, and the collapse that follows either fixes the chosen cell or
      finds the grid already complete. */
  lemma RoundProgress(g: Grid, intn: Oracle, k: nat)
    requires Rect(g) && |g| >= 1 && Width(g) >= 1 && ValidOracle(intn) && !AllFixed(g)
    ensures UnfixedCount(CollapseGrid(PropagateGrid(g), intn, k).grid) < UnfixedCount(g)
  {
    var p := PropagateGrid(g);
    PropagateUnfixedCount(g);
    UnfixedZero(g);
    var h := CollapseGrid(p, intn, k).grid;
    if AllFixed(p) {
      CollapseAllFixed(p, intn, k);
      UnfixedZero(h);
    } else {
      CollapseFixesOne(p, intn, k);
    }
  }

  /** The run of the main loop from grid `g` with `k` draws made so far. */
  ghost function RunFrom(g: Grid, intn: Oracle, k: nat): Outcome
    requires Rect(g) && ValidOracle(intn)
    decreases UnfixedCount(g)
  {
    if AllFixed(g) then Outcome(g, [], k, 0)
    else
      NotFixedNonEmpty(g);
      var p := PropagateGrid(g);
      var s := CollapseGrid(p, intn, k);
      RoundProgress(g, intn, k);
      var rest := RunFrom(s.grid, intn, s.next);
      Outcome(rest.grid, [p, s.grid] + rest.frames, rest.next, rest.rounds + 1)
  }

  /** The whole run ends on a complete grid of the same shape. */
  lemma {:induction false} RunCompletes(g: Grid, intn: Oracle, k: nat)
    requires Rect(g) && ValidOracle(intn)
    ensures var r := RunFrom(g, intn, k);
            AllFixed(r.grid) && Rect(r.grid) && |r.grid| == |g| && Width(r.grid) == Width(g)
    decreases UnfixedCount(g)
  {
    if !AllFixed(g) {
      NotFixedNonEmpty(g);
      var s := CollapseGrid(PropagateGrid(g), intn, k);
      RoundProgress(g, intn, k);
      RunCompletes(s.grid, intn, s.next);
    }
  }

  /** There are no more rounds than unfixed cells at the start, and none at
      all exactly when the grid starts complete. */
  lemma {:induction false} RunRounds(g: Grid, intn: Oracle, k: nat)
    requires Rect(g) && ValidOracle(intn)
    ensures RunFrom(g, intn, k).rounds <= UnfixedCount(g)
    ensures RunFrom(g, intn, k).rounds == 0 <==> AllFixed(g)
    decreases UnfixedCount(g)
  {
    if !AllFixed(g) {
      NotFixedNonEmpty(g);
      var s := CollapseGrid(PropagateGrid(g), intn, k);
      RoundProgress(g, intn, k);
      RunRounds(s.grid, intn, s.next);
    }
  }

  /** `h` has the shape of `g`, every cell fixed in `g` is fixed in `h`, and
      every side open in `h` was open in `g`. */
  ghost predicate OnlyCleared(g: Grid, h: Grid) {
    Rect(g) && Rect(h) && |h| == |g| && Width(h) == Width(g) &&
    (forall i, j :: InBounds(g, i, j) && g[i][j].fixed ==> h[i][j].fixed) &&
    (forall i, j, d :: InBounds(g, i, j) && Has(h[i][j], d) ==> Has(g[i][j], d))
  }

  lemma OnlyClearedTrans(a: Grid, b: Grid, c: Grid)
    requires OnlyCleared(a, b) && OnlyCleared(b, c)
    ensures OnlyCleared(a, c)
  {
    forall i, j, d | InBounds(a, i, j) && Has(c[i][j], d) ensures Has(a[i][j], d) {
      assert InBounds(b, i, j);
    }
  }

  /** Over the whole run no closed side ever opens again and no fixed cell
      is ever unfixed. */
  lemma {:induction false} RunOnlyClears(g: Grid, intn: Oracle, k: nat)
    requires Rect(g) && ValidOracle(intn)
    ensures OnlyCleared(g, RunFrom(g, intn, k).grid)
    decreases UnfixedCount(g)
  {
    if !AllFixed(g) {
      NotFixedNonEmpty(g);
      var p := PropagateGrid(g);
      var s := CollapseGrid(p, intn, k);
      RoundProgress(g, intn, k);
      RunOnlyClears(s.grid, intn, s.next);
      PropagateOnlyClears(g);
      CollapseOnlyClears(p, intn, k);
      assert OnlyCleared(g, p);
      assert OnlyCleared(p, s.grid);
      OnlyClearedTrans(g, p, s.grid);
      OnlyClearedTrans(g, s.grid, RunFrom(s.grid, intn, s.next).grid);
    } else {
      assert RunFrom(g, intn, k).grid == g;
    }
  }

  /** From `initMap(w, h)` the loop runs at most once per cell, and at least
      once when the grid has a cell. */
  lemma InitialRounds(w: nat, h: nat, intn: Oracle)
    requires ValidOracle(intn)
    ensures RunFrom(InitGrid(w, h), intn, 0).rounds <= w * h
    ensures w > 0 && h > 0 ==> RunFrom(InitGrid(w, h), intn, 0).rounds >= 1
  {
    var g := InitGrid(w, h);
    RunRounds(g, intn, 0);
    UnfixedBound(g);
    if w > 0 && h > 0 {
      assert !g[0][0].fixed;
    } else {
      assert |g| * Width(g) == 0;
    }
  }

  /** Each round prints two grids, the one after the sweep and the one
      after the collapse, and every printed grid has the rows of the start. */
  lemma {:induction false} RunFrames(g: Grid, intn: Oracle, k: nat)
    requires Rect(g) && ValidOracle(intn)
    ensures var r := RunFrom(g, intn, k);
            |r.frames| == 2 * r.rounds &&
            forall i :: 0 <= i < |r.frames| ==> |r.frames[i]| == |g|
    decreases UnfixedCount(g)
  {
    if !AllFixed(g) {
      NotFixedNonEmpty(g);
      var p := PropagateGrid(g);
      var s := CollapseGrid(p, intn, k);
      RoundProgress(g, intn, k);
      RunFrames(s.grid, intn, s.next);
      var rest := RunFrom(s.grid, intn, s.next).frames;
      FramesRows(p, s.grid, rest, |g|);
    }
  }

  /** Two more frames of `n` rows in front of frames of `n` rows. */
  lemma FramesRows(a: Grid, b: Grid, rest: seq<Grid>, n: nat)
    requires |a| == n && |b| == n && forall i :: 0 <= i < |rest| ==> |rest[i]| == n
    ensures forall i :: 0 <= i < |[a, b] + rest| ==> |([a, b] + rest)[i]| == n
  {
    var fs := [a, b] + rest;
    forall i | 0 <= i < |fs| ensures |fs[i]| == n {
      if i >= 2 { assert fs[i] == rest[i - 2]; }
    }
  }

  /** The text of a run has two frames of `|g| + 1` lines per round. */
  lemma RunNewlines(g: Grid, intn: Oracle, k: nat)
    requires Rect(g) && ValidOracle(intn)
    ensures var r := RunFrom(g, intn, k);
            Newlines(Transcript(r.frames)) == 2 * r.rounds * (|g| + 1)
  {
    RunFrames(g, intn, k);
    var r := RunFrom(g, intn, k);
    TranscriptNewlines(r.frames, |g|);
  }

  /** On a single cell the sweep closes every side and fixes it, `collapse`
      then finds nothing unfixed, draws the row and column of the only cell
      and resolves it without drawing a coin: one round, two frames, the
      fixed empty tile. */
  lemma SingleCellRun(intn: Oracle)
    requires ValidOracle(intn)
    ensures var r := RunFrom([[InitialTile]], intn, 0);
            r.grid == [[FixedEmpty]] && r.rounds == 1 && r.next == 2 &&
            r.frames == [[[FixedEmpty]], [[FixedEmpty]]]
  {
    var g := [[InitialTile]];
    assert !AllFixed(g) by { assert !g[0][0].fixed; }
    PropagateLoneCell();
    var p := PropagateGrid(g);
    assert AllFixed(p);
    CollapseAllFixed(p, intn, 0);
    ResolveTileSpec(p, 0, 0, intn, 2);
    CandidatesEmpty(p);
    assert intn(0, 1) == 0 && intn(1, 1) == 0;
    assert !GateLeft(p, 0, 0) && !GateRight(p, 0, 0) && !GateUp(p, 0, 0) && !GateDown(p, 0, 0);
    var s := CollapseGrid(p, intn, 0);
    assert s.grid[0][0] == FixedEmpty;
    GridExt(s.grid, [[FixedEmpty]]);
    assert s.next == 2;
  }

  /** Printing one round after the frames printed so far. */
  lemma AppendRound(out: string, shown: seq<Grid>, before: Grid, after: Grid)
    requires out == Transcript(shown)
    ensures out + MapText(before) + "\n" + MapText(after) + "\n" == Transcript(shown + [before, after])
  {
    TranscriptAppend(shown, [before, after]);
    TranscriptPair(before, after);
    Regroup(out, MapText(before), MapText(after));
  }

  lemma Regroup(out: string, a: string, b: string)
    ensures out + (a + "\n" + (b + "\n")) == out + a + "\n" + b + "\n"
  {
  }

  /** Taking one round off the frames still to come. */
  lemma ShiftRound(shown: seq<Grid>, before: Grid, after: Grid, rest: seq<Grid>)
    ensures shown + ([before, after] + rest) == shown + [before, after] + rest
  {
  }

  /** `main` after the arguments are read: build the `w` by `h` grid and run
      the loop until every cell is fixed, with the draws of `rand.Intn`
      taken from `intn`; `out` is what the loop prints. */
  method Generate(w: nat, h: nat, intn: Oracle) returns (m: array2<Tile>, out: string)
    requires ValidOracle(intn)
    ensures fresh(m) && m.Length0 == h && m.Length1 == w
    ensures Cells(m) == RunFrom(InitGrid(w, h), intn, 0).grid
    ensures out == Transcript(RunFrom(InitGrid(w, h), intn, 0).frames)
    ensures AllFixed(Cells(m))
  {
    m := InitMap(w, h);
    ghost var g0 := InitGrid(w, h);
    GridExt(Cells(m), g0);
    out := "";
    ghost var shown: seq<Grid> := [];
    var k := 0;
    var done := MapIsFixed(m);
    while !done
      invariant done <==> AllFixed(Cells(m))
      invariant out == Transcript(shown)
      invariant RunFrom(g0, intn, 0).grid == RunFrom(Cells(m), intn, k).grid
      invariant RunFrom(g0, intn, 0).frames == shown + RunFrom(Cells(m), intn, k).frames
      decreases UnfixedCount(Cells(m))
    {
      ghost var g := Cells(m);
      ghost var k0 := k;
      NotFixedNonEmpty(g);
      Propagate(m);
      ghost var p := Cells(m);
      var before := MapString(m);
      k := Collapse(m, intn, k);
      var after := MapString(m);
      RoundProgress(g, intn, k0);
      AppendRound(out, shown, p, Cells(m));
      ShiftRound(shown, p, Cells(m), RunFrom(Cells(m), intn, k).frames);
      out := out + before + "\n" + after + "\n";
      shown := shown + [p, Cells(m)];
      done := MapIsFixed(m);
    }
    assert RunFrom(Cells(m), intn, k).frames == [];
    assert shown + [] == shown;
  }
}
