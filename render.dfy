/** `Map.String`: the grid as text, one line per row. */
module Rendering {
  import opened Tiles
  import opened Grids

  /** The tiles of a row rendered one after another. */
  function RowText(row: seq<Tile>): string {
    if row == [] then "" else RowText(row[..|row| - 1]) + TileString(row[|row| - 1])
  }

  /** The rows rendered one after another, each followed by a line break. */
  function MapText(g: Grid): string {
    if g == [] then "" else MapText(g[..|g| - 1]) + RowText(g[|g| - 1]) + "\n"
  }

  /** The number of line breaks in `s`. */
  function Newlines(s: string): nat {
    if s == [] then 0 else Newlines(s[..|s| - 1]) + (if s[|s| - 1] == '\n' then 1 else 0)
  }

  /** Line breaks add up over a concatenation. */
  lemma {:induction false} NewlinesAppend(a: string, b: string)
    ensures Newlines(a + b) == Newlines(a) + Newlines(b)
    decreases |b|
  {
    if b != [] {
      var c := b[..|b| - 1];
      assert (a + b)[..|a + b| - 1] == a + c;
      NewlinesAppend(a, c);
    } else {
      assert a + b == a;
    }
  }

  /** A text without a line break counts none. */
  lemma {:induction false} NewlinesNone(s: string)
    requires '\n' !in s
    ensures Newlines(s) == 0
  {
    if s != [] {
      assert s[..|s| - 1] + [s[|s| - 1]] == s;
      NewlinesNone(s[..|s| - 1]);
    }
  }

  /** A row renders without a line break. */
  lemma {:induction false} RowTextNoNewline(row: seq<Tile>)
    ensures '\n' !in RowText(row)
  {
    if row != [] {
      RowTextNoNewline(row[..|row| - 1]);
      RenderShape(row[|row| - 1]);
    }
  }

  /** The text of a grid has exactly one line break per row. */
  lemma {:induction false} MapTextNewlines(g: Grid)
    ensures Newlines(MapText(g)) == |g|
  {
    if g != [] {
      var a, b := MapText(g[..|g| - 1]), RowText(g[|g| - 1]);
      MapTextNewlines(g[..|g| - 1]);
      RowTextNoNewline(g[|g| - 1]);
      NewlinesNone(b);
      NewlinesAppend(a, b);
      NewlinesAppend(a + b, "\n");
    }
  }

  /** What printing the grids of `frames` one after another with
      `fmt.Println` writes: each grid's text and one more line break. */
  function Transcript(frames: seq<Grid>): string {
    if frames == [] then "" else MapText(frames[0]) + "\n" + Transcript(frames[1..])
  }

  /** Printing two lists of frames writes the two transcripts in turn. */
  lemma {:induction false} TranscriptAppend(a: seq<Grid>, b: seq<Grid>)
    ensures Transcript(a + b) == Transcript(a) + Transcript(b)
  {
    if a == [] {
      assert a + b == b;
    } else {
      assert (a + b)[1..] == a[1..] + b;
      TranscriptAppend(a[1..], b);
    }
  }

  /** Printing two frames. */
  lemma TranscriptPair(a: Grid, b: Grid)
    ensures Transcript([a, b]) == MapText(a) + "\n" + (MapText(b) + "\n")
  {
    assert [a, b][1..] == [b] && [b][1..] == [];
    assert Transcript([b]) == MapText(b) + "\n" + "" == MapText(b) + "\n";
    assert Transcript([a, b]) == MapText(a) + "\n" + Transcript([b]);
  }

  /** Printing frames of `n` rows each writes `n + 1` line breaks per frame. */
  lemma {:induction false} TranscriptNewlines(frames: seq<Grid>, n: nat)
    requires forall i :: 0 <= i < |frames| ==> |frames[i]| == n
    ensures Newlines(Transcript(frames)) == |frames| * (n + 1)
  {
    if frames != [] {
      var rest := frames[1..];
      forall i | 0 <= i < |rest| ensures |rest[i]| == n {
        assert rest[i] == frames[i + 1];
      }
      TranscriptNewlines(rest, n);
      FrameNewlines(frames[0], Transcript(rest));
      MulSucc(|rest|, n + 1);
    }
  }

  /** One printed frame adds its rows and one more line break. */
  lemma FrameNewlines(f: Grid, t: string)
    ensures Newlines(MapText(f) + "\n" + t) == |f| + 1 + Newlines(t)
  {
    MapTextNewlines(f);
    NewlinesAppend(MapText(f), "\n");
    NewlinesAppend(MapText(f) + "\n", t);
  }

  lemma MulSucc(r: nat, n: nat)
    ensures (r + 1) * n == r * n + n
  {
  }

  /** Appending the tile at column `j` to the text so far. */
  lemma AppendTile(s: string, row: seq<Tile>, j: nat)
    requires j < |row|
    ensures s + RowText(row[..j + 1]) == s + RowText(row[..j]) + TileString(row[j])
  {
    assert row[..j + 1][..j] == row[..j];
  }

  /** Appending row `i` and its line break to the text of the rows above. */
  lemma AppendRow(g: Grid, i: nat)
    requires i < |g|
    ensures MapText(g[..i + 1]) == MapText(g[..i]) + RowText(g[i]) + "\n"
  {
    assert g[..i + 1][..i] == g[..i];
  }

  /** `m.String()`: for each of the `h` rows, the `w` tiles of the row and a
      line break, where `w` is the length of the first row (Go indexes
      `m[0]`, so the grid must have a row). */
  method MapString(m: array2<Tile>) returns (s: string)
    requires m.Length0 >= 1
    ensures s == MapText(Cells(m))
  {
    ghost var g := Cells(m);
    var w := m.Length1;
    var h := m.Length0;
    s := "";
    for i := 0 to h
      invariant s == MapText(g[..i])
    {
      assert g[i][..0] == [];
      for j := 0 to w
        invariant s == MapText(g[..i]) + RowText(g[i][..j])
      {
        AppendTile(MapText(g[..i]), g[i], j);
        s := s + TileString(m[i, j]);
      }
      assert g[i][..w] == g[i];
      AppendRow(g, i);
      s := s + "\n";
    }
    assert g[..h] == g;
  }
}
