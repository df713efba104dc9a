/** The text rendering of `Display::fmt`, on values. */
module Rendering {
  import opened Cells
  import opened Grid

  /** The glyph of one cell: a filled square for Alive, a hollow square for Dead. */
  function Glyph(c: Cell): (g: char)
    ensures g == '\U{25FC}' <==> c == Alive
    ensures c == Dead ==> g == '\U{25FB}'
  {
    if c == Alive then '\U{25FC}' else '\U{25FB}'
  }

  /** The glyphs of one chunk of cells, in order. */
  function Line(cells: seq<Cell>): (s: string)
    ensures |s| == |cells|
    ensures forall i | 0 <= i < |s| :: s[i] == Glyph(cells[i])
  {
    seq(|cells|, i requires 0 <= i < |cells| => Glyph(cells[i]))
  }

  /**
   * The rendering: the cells cut into chunks of `width` (the last one shorter
   * when `width` does not divide the length), each chunk's glyphs followed by
   * a line break.
   */
  function Render(cells: seq<Cell>, width: nat): string
    requires width > 0
    decreases |cells|
  {
    if cells == [] then ""
    else
      var k := if |cells| < width then |cells| else width;
      Line(cells[..k]) + "\n" + Render(cells[k..], width)
  }

  /** Position in the text of column `y` of line `x`, where each line holds `width` glyphs and a break. */
  function Pos(width: nat, x: nat, y: nat): nat
  {
    x * (width + 1) + y
  }

  lemma MulSucc(a: nat, b: nat)
    requires b > 0
    ensures a * b == a * (b - 1) + a
    ensures b * a == (b - 1) * a + a
  {
  }

  /** The first chunk of a grid with at least one line is a full line of `width` cells. */
  lemma RenderFirstLine(cells: seq<Cell>, width: nat, height: nat)
    requires width > 0 && |cells| == width * height && height > 0
    ensures |cells[width..]| == width * (height - 1)
    ensures Render(cells, width) == Line(cells[..width]) + "\n" + Render(cells[width..], width)
  {
    MulSucc(width, height);
  }

  /** A `width` x `height` grid renders to `height` lines of `width + 1` characters. */
  lemma {:induction false} RenderLength(cells: seq<Cell>, width: nat, height: nat)
    requires width > 0 && |cells| == width * height
    ensures |Render(cells, width)| == height * (width + 1)
  {
    if height == 0 {
      assert cells == [];
    } else {
      RenderFirstLine(cells, width, height);
      RenderLength(cells[width..], width, height - 1);
      MulSucc(width + 1, height);
    }
  }

  /** Below the first line, the text is the rendering of the remaining cells. */
  lemma RenderShift(cells: seq<Cell>, width: nat, height: nat, k: nat)
    requires width > 0 && |cells| == width * height && height > 0
    requires k < |Render(cells[width..], width)|
    ensures width + 1 + k < |Render(cells, width)|
    ensures Render(cells, width)[width + 1 + k] == Render(cells[width..], width)[k]
  {
    RenderFirstLine(cells, width, height);
    var head, rest := Line(cells[..width]) + "\n", Render(cells[width..], width);
    assert |head| == width + 1;
    assert Render(cells, width) == head + rest;
  }

  /**
   * Character `y` of line `x` is the glyph of the cell at `get_index(x, y)`
   * for `y < width`, and the line break for `y == width`.
   */
  lemma {:induction false} RenderAt(cells: seq<Cell>, width: nat, height: nat, x: nat, y: nat)
    requires width > 0 && |cells| == width * height
    requires x < height && y <= width
    ensures Pos(width, x, y) < |Render(cells, width)|
    ensures y < width ==> Index(width, x, y) < |cells| && Render(cells, width)[Pos(width, x, y)] == Glyph(cells[Index(width, x, y)])
    ensures y == width ==> Render(cells, width)[Pos(width, x, y)] == '\n'
  {
    RenderLength(cells, width, height);
    RenderFirstLine(cells, width, height);
    if y < width {
      IndexInRange(width, height, x, y);
    }
    if x > 0 {
      RenderAt(cells[width..], width, height - 1, x - 1, y);
      MulSucc(width + 1, x);
      assert Pos(width, x, y) == width + 1 + Pos(width, x - 1, y);
      RenderShift(cells, width, height, Pos(width, x - 1, y));
      if y < width {
        MulSucc(width, x);
        assert Index(width, x, y) == width + Index(width, x - 1, y);
        assert cells[Index(width, x, y)] == cells[width..][Index(width, x - 1, y)];
      }
    } else {
      var head := Line(cells[..width]) + "\n";
      assert |head| == width + 1;
      assert Render(cells, width)[y] == head[y];
    }
  }

  /**
   * A `width` x `height` grid renders as `height` lines of `width` glyphs,
   * each followed by a line break; the glyph in line `x`, column `y` is the
   * glyph of the cell at `get_index(x, y)`.
   */
  lemma RenderShape(cells: seq<Cell>, width: nat, height: nat)
    requires width > 0 && |cells| == width * height
    ensures |Render(cells, width)| == height * (width + 1)
    ensures forall x: nat, y: nat | x < height && y < width ::
              Pos(width, x, y) < |Render(cells, width)| && Index(width, x, y) < |cells| &&
              Render(cells, width)[Pos(width, x, y)] == Glyph(cells[Index(width, x, y)])
    ensures forall x: nat | x < height ::
              Pos(width, x, width) < |Render(cells, width)| && Render(cells, width)[Pos(width, x, width)] == '\n'
  {
    RenderLength(cells, width, height);
    forall x: nat, y: nat | x < height && y <= width
      ensures Pos(width, x, y) < |Render(cells, width)|
      ensures y < width ==> Index(width, x, y) < |cells| && Render(cells, width)[Pos(width, x, y)] == Glyph(cells[Index(width, x, y)])
      ensures y == width ==> Render(cells, width)[Pos(width, x, y)] == '\n'
    {
      RenderAt(cells, width, height, x, y);
    }
  }
}
