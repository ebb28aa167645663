/** The tile bitmask of the pipe generator and its one-character rendering.

    In the generator a tile is a Go `int` used as a bitmask: one bit per open
    side (left, right, up, down) and an orthogonal `Fixed` bit that marks a
    cell whose pattern is final. Every value the program ever stores in a
    cell is made of these five bits only (a fresh cell is the four sides, and
    the operations only clear sides or set `Fixed`), so a tile is modelled as
    its five flags, and `Bits` gives the integer the Go program holds.
 */
module Tiles {

  datatype Tile = Tile(left: bool, right: bool, up: bool, down: bool, fixed: bool)

  // The Go constants. `Left` is declared with `1 << iota` on the second line
  // of the constant block, where iota is already 1: the sides are 2, 4, 8, 16.
  const LeftBit: nat := 2
  const RightBit: nat := 4
  const UpBit: nat := 8
  const DownBit: nat := 16
  const FixedBit: nat := 1024

  /** The integer value of a tile in the Go program. */
  function Bits(t: Tile): nat {
    (if t.left then LeftBit else 0) + (if t.right then RightBit else 0)
      + (if t.up then UpBit else 0) + (if t.down then DownBit else 0)
      + (if t.fixed then FixedBit else 0)
  }

  /** `Empty`, the value 0: no side open, not fixed. */
  const Empty: Tile := Tile(false, false, false, false, false)

  /** `Fixed` alone: the final state of a walled-off cell. */
  const FixedEmpty: Tile := Tile(false, false, false, false, true)

  /** `InitialTile = Empty | Left | Right | Up | Down`. */
  const InitialTile: Tile := Tile(true, true, true, true, false)

  /** The flags are the bits of the Go integer: the value determines the
      tile, and the named constants have the integers of the source. */
  lemma {:induction false} BitsEncoding(a: Tile, b: Tile)
    ensures Bits(a) == Bits(b) ==> a == b
    ensures Bits(Empty) == 0 && Bits(FixedEmpty) == 1024 && Bits(InitialTile) == 30
    ensures Bits(a) < 2048 && Bits(a) % 2 == 0
  {
  }

  /** The four directions, for statements that range over all of them. */
  datatype Dir = L | R | U | D

  /** `t & dir != 0`. */
  predicate Has(t: Tile, d: Dir) {
    match d
    case L => t.left
    case R => t.right
    case U => t.up
    case D => t.down
  }

  /** `t &^ dir`: the tile with one side closed. */
  function Without(t: Tile, d: Dir): (r: Tile)
    ensures !Has(r, d) && r.fixed == t.fixed
    ensures (d != L ==> r.left == t.left) && (d != R ==> r.right == t.right)
    ensures (d != U ==> r.up == t.up) && (d != D ==> r.down == t.down)
  {
    match d
    case L => t.(left := false)
    case R => t.(right := false)
    case U => t.(up := false)
    case D => t.(down := false)
  }

  /** No side is open (the `Fixed` flag aside). */
  predicate NoSides(t: Tile) {
    !t.left && !t.right && !t.up && !t.down
  }

  // ---------------------------------------------------------------------
  // Rendering (`Tile.String`)
  // ---------------------------------------------------------------------

  /** ANSI escape that turns the terminal red (Go's "\033[31m"). */
  const Red: string := "\U{1B}[31m"
  /** ANSI escape that restores the default colour (Go's "\033[0m"). */
  const Reset: string := "\U{1B}[0m"

  /** The switch over the masked value: one glyph for each of the sixteen
      direction combinations, and nothing for any other value (the Go switch
      has no default case). */
  function Glyph(mask: nat): string {
    if mask == 0 then " "
    else if mask == LeftBit then "╴"
    else if mask == RightBit then "╶"
    else if mask == UpBit then "╵"
    else if mask == DownBit then "╷"
    else if mask == LeftBit + RightBit then "─"
    else if mask == UpBit + DownBit then "│"
    else if mask == LeftBit + UpBit then "┘"
    else if mask == LeftBit + DownBit then "┐"
    else if mask == RightBit + UpBit then "└"
    else if mask == RightBit + DownBit then "┌"
    else if mask == LeftBit + RightBit + UpBit then "┴"
    else if mask == LeftBit + RightBit + DownBit then "┬"
    else if mask == LeftBit + UpBit + DownBit then "┤"
    else if mask == RightBit + UpBit + DownBit then "├"
    else if mask == LeftBit + RightBit + UpBit + DownBit then "┼"
    else ""
  }

  /** `Tile.String`: red when fixed, then the glyph of the value with `Fixed`
      masked off (`t &= ^Fixed`), then the reset escape. */
  function TileString(t: Tile): string {
    (if t.fixed then Red else "") + Glyph(Bits(t.(fixed := false))) + Reset
  }

  /** The sixteen glyphs in the order of the masked value shifted right by
      one, that is of left + 2 * right + 4 * up + 8 * down. */
  const BoxChars: string := " ╴╶─╵┘└┴╷┐┌┬│┤├┼"

  /** Every one of the sixteen direction combinations renders as its glyph
      of the table, in red exactly when the tile is fixed: for example all
      four sides give "┼", no side gives a single space, and the left side
      alone gives "╴". */
  lemma RenderTable(t: Tile)
    ensures |BoxChars| == 16 && Bits(t.(fixed := false)) / 2 < 16
    ensures TileString(t) == (if t.fixed then Red else "")
              + [BoxChars[Bits(t.(fixed := false)) / 2]] + Reset
  {
    var u := t.(fixed := false);
    if u.left {
      if u.right {
        if u.up {
          if u.down { assert Bits(u) == 30; } else { assert Bits(u) == 14; }
        } else {
          if u.down { assert Bits(u) == 22; } else { assert Bits(u) == 6; }
        }
      } else {
        if u.up {
          if u.down { assert Bits(u) == 26; } else { assert Bits(u) == 10; }
        } else {
          if u.down { assert Bits(u) == 18; } else { assert Bits(u) == 2; }
        }
      }
    } else {
      if u.right {
        if u.up {
          if u.down { assert Bits(u) == 28; } else { assert Bits(u) == 12; }
        } else {
          if u.down { assert Bits(u) == 20; } else { assert Bits(u) == 4; }
        }
      } else {
        if u.up {
          if u.down { assert Bits(u) == 24; } else { assert Bits(u) == 8; }
        } else {
          if u.down { assert Bits(u) == 16; } else { assert Bits(u) == 0; }
        }
      }
    }
  }

  /** Every rendering is one glyph between the escapes: it starts with the
      red escape exactly when the tile is fixed, always ends with the reset
      escape, and holds no line break, so rows can be joined with "\n". */
  lemma RenderShape(t: Tile)
    ensures var s := TileString(t);
            |s| == (if t.fixed then |Red| else 0) + 1 + |Reset| &&
            (t.fixed <==> s[..|Red|] == Red) &&
            s[|s| - |Reset|..] == Reset &&
            '\n' !in s
  {
    RenderTable(t);
    var g := BoxChars[Bits(t.(fixed := false)) / 2];
    assert g != '\n' && g != '\U{1B}';
    var s := TileString(t);
    if t.fixed {
      assert s == Red + [g] + Reset;
    } else {
      assert s == [g] + Reset;
      assert s[0] != Red[0];
    }
  }

  /** The glyph depends only on the sides: a fixed tile renders as its
      unfixed copy with the red escape in front. */
  lemma RenderIgnoresFixed(t: Tile)
    ensures TileString(t.(fixed := true)) == Red + TileString(t.(fixed := false))
  {
  }

  /** The sixteen glyphs are pairwise different. */
  lemma BoxCharsDistinct(p: nat, q: nat)
    requires p < 16 && q < 16 && p != q
    ensures BoxChars[p] != BoxChars[q]
  {
  }

  /** The glyph of a tile sits right after the optional red escape. */
  lemma GlyphAt(t: Tile)
    ensures |BoxChars| == 16 && Bits(t.(fixed := false)) / 2 < 16
    ensures |TileString(t)| > (if t.fixed then |Red| else 0)
    ensures TileString(t)[if t.fixed then |Red| else 0] == BoxChars[Bits(t.(fixed := false)) / 2]
  {
    RenderTable(t);
  }

  /** Different tiles render differently: the text shows every side and
      whether the tile is fixed. */
  lemma RenderInjective(a: Tile, b: Tile)
    requires TileString(a) == TileString(b)
    ensures a == b
  {
    RenderShape(a);
    RenderShape(b);
    assert a.fixed == b.fixed;
    GlyphAt(a);
    GlyphAt(b);
    var ia := Bits(a.(fixed := false)) / 2;
    var ib := Bits(b.(fixed := false)) / 2;
    if ia != ib {
      BoxCharsDistinct(ia, ib);
    }
    BitsEncoding(a.(fixed := false), b.(fixed := false));
  }
}
