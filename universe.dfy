/** The `Universe` grid engine: a width, a height and a buffer of cells updated in place. */
module Conway {
  import opened Cells
  import opened Grid
  import opened Seeding
  import opened Rendering

  /** The largest `u32`: the cell count `width * height` is computed in 32 bits. */
  const U32_MAX: nat := 0xFFFF_FFFF

  /** The all-Dead cell sequence of length `n`. */
  function AllDead(n: nat): (s: seq<Cell>)
    ensures |s| == n && forall i | 0 <= i < n :: s[i] == Dead
  {
    seq(n, _ => Dead)
  }

  /**
   * Progress of `next` at (row `r`, column `col`): the cell of `next` holds the
   * rule's result on the pre-step grid `c` once the loops have passed it (every
   * column before `y`, and in column `y` every row before `x`), and its
   * pre-step value otherwise.
   */
  ghost predicate Updated(next: seq<Cell>, c: seq<Cell>, width: nat, height: nat, r: nat, col: nat, y: nat, x: nat)
    requires |next| == |c| == width * height && r < height && col < width
  {
    IndexInRange(width, height, r, col);
    var i := Index(width, r, col);
    next[i] == if col < y || (col == y && r < x) then Rule(c[i], NeighborCount(c, width, height, r, col)) else c[i]
  }

  /** Writing the rule's result at (x, y) advances the progress of `next` by one cell. */
  lemma UpdatedAfterWrite(before: seq<Cell>, after: seq<Cell>, c: seq<Cell>, width: nat, height: nat,
                          r: nat, col: nat, y: nat, x: nat)
    requires |before| == |c| == width * height && r < height && col < width && x < height && y < width
    requires Index(width, x, y) < |before|
    requires after == before[Index(width, x, y) := Rule(c[Index(width, x, y)], NeighborCount(c, width, height, x, y))]
    requires Updated(before, c, width, height, r, col, y, x)
    ensures Updated(after, c, width, height, r, col, y, x + 1)
  {
    IndexInRange(width, height, r, col);
    if r != x || col != y {
      IndexInjective(width, r, col, x, y);
    }
  }

  class Universe {
    var width: nat
    var height: nat
    var cells: array<Cell>

    /** The buffer always holds one cell per grid position. */
    ghost predicate Valid()
      reads this
    {
      cells.Length == width * height
    }

    /** `get_cells`: the current cells, row-major by `get_index`. */
    function GetCells(): (s: seq<Cell>)
      reads this, cells
      requires Valid()
      ensures |s| == width * height
      ensures forall x: nat, y: nat | x < height && y < width :: Index(width, x, y) < |s| && s[Index(width, x, y)] == cells[Index(width, x, y)]
    {
      assert forall x: nat, y: nat | x < height && y < width :: Index(width, x, y) < width * height by {
        forall x: nat, y: nat | x < height && y < width ensures Index(width, x, y) < width * height {
          IndexInRange(width, height, x, y);
        }
      }
      cells[..]
    }

    /** `Universe::new` with every cell Dead (the random seeding is left out). */
    constructor (w: nat, h: nat)
      requires w * h <= U32_MAX
      ensures Valid() && width == w && height == h
      ensures fresh(cells) && cells[..] == AllDead(w * h)
    {
      width, height := w, h;
      cells := new Cell[w * h](_ => Dead);
    }

    /** `Universe::new` with the initial cells supplied by the caller in place of random draws. */
    constructor FromCells(w: nat, h: nat, init: seq<Cell>)
      requires w * h <= U32_MAX && |init| == w * h
      ensures Valid() && width == w && height == h
      ensures fresh(cells) && cells[..] == init
    {
      width, height := w, h;
      cells := new Cell[w * h](i requires 0 <= i < w * h => init[i]);
    }

    /** `set_width`: a destructive resize; the new buffer is all Dead. */
    method SetWidth(w: nat)
      requires Valid() && w * height <= U32_MAX
      modifies this
      ensures Valid() && width == w && height == old(height)
      ensures fresh(cells) && cells[..] == AllDead(w * height)
    {
      width := w;
      cells := new Cell[w * height](_ => Dead);
    }

    /** `set_height`: a destructive resize; the new buffer is all Dead. */
    method SetHeight(h: nat)
      requires Valid() && width * h <= U32_MAX
      modifies this
      ensures Valid() && height == h && width == old(width)
      ensures fresh(cells) && cells[..] == AllDead(width * h)
    {
      height := h;
      cells := new Cell[width * h](_ => Dead);
    }

    /** `live_neighbor_count`: the nested loops over the unsigned offsets of each axis. */
    method LiveNeighborCount(x: nat, y: nat) returns (count: nat)
      requires Valid() && x < height && y < width
      ensures count == NeighborCount(cells[..], width, height, x, y)
      ensures count <= 8
    {
      ghost var c := cells[..];
      count := 0;
      var dxs, dys := Offsets(height), Offsets(width);
      for i := 0 to |dxs|
        invariant count == CountOver(c, width, height, x, y, dxs[..i], dys)
      {
        var dx := dxs[i];
        for j := 0 to |dys|
          invariant count == CountOver(c, width, height, x, y, dxs[..i], dys) + RowCount(c, width, height, x, y, dx, dys[..j])
        {
          var dy := dys[j];
          assert dys[..j + 1][..j] == dys[..j];
          assert RowCount(c, width, height, x, y, dx, dys[..j + 1])
              == RowCount(c, width, height, x, y, dx, dys[..j]) + Probe(c, width, height, x, y, dx, dy);
          if dx == 0 && dy == 0 {
            continue;
          }
          var nx := (x + dx) % height;
          var ny := (y + dy) % width;
          IndexInRange(width, height, nx, ny);
          assert Probe(c, width, height, x, y, dx, dy) == Value(cells[Index(width, nx, ny)]);
          count := count + Value(cells[Index(width, nx, ny)]);
        }
        assert dys[..|dys|] == dys;
        assert dxs[..i + 1][..i] == dxs[..i];
      }
      assert dxs[..|dxs|] == dxs;
      NeighborCountBound(c, width, height, x, y);
    }

    /**
     * `next`: the new generation is written into a fresh copy of the buffer
     * while every rule application reads the old buffer, then the copy
     * replaces it. The loops run `x` over `0..width` as the row argument of
     * `get_index`, so they cover the grid only when it is square (or empty).
     */
    method Next()
      requires Valid()
      requires width == height || width == 0 || height == 0
      modifies this
      ensures Valid() && width == old(width) && height == old(height)
      ensures fresh(cells) && cells[..] == Step(old(cells[..]), width, height)
    {
      ghost var c := cells[..];
      var current := cells;
      var next := new Cell[current.Length](i requires 0 <= i < current.Length reads current => current[i]);
      assert next[..] == c;
      for y := 0 to height
        modifies next
        invariant next.Length == width * height
        invariant forall r: nat, col: nat | r < height && col < width ::
          Updated(next[..], c, width, height, r, col, y, 0)
      {
        for x := 0 to width
          invariant forall r: nat, col: nat | r < height && col < width ::
            Updated(next[..], c, width, height, r, col, y, x)
        {
          var idx := Index(width, x, y);
          IndexInRange(width, height, x, y);
          var cell := cells[idx];
          var liveNeighbors := LiveNeighborCount(x, y);
          ghost var before := next[..];
          next[idx] := Rule(cell, liveNeighbors);
          assert next[..] == before[idx := Rule(c[idx], NeighborCount(c, width, height, x, y))];
          ghost var x' := x + 1;
          forall r: nat, col: nat | r < height && col < width
            ensures Updated(next[..], c, width, height, r, col, y, x')
          {
            UpdatedAfterWrite(before, next[..], c, width, height, r, col, y, x);
          }
        }
        ghost var y' := y + 1;
        forall r: nat, col: nat | r < height && col < width
          ensures Updated(next[..], c, width, height, r, col, y', 0)
        {
          assert Updated(next[..], c, width, height, r, col, y, width);
        }
      }
      forall i | 0 <= i < next.Length
        ensures next[i] == Step(c, width, height)[i]
      {
        IndexOnto(width, height, i);
        var r, col := i / width, i % width;
        assert Updated(next[..], c, width, height, r, col, height, 0);
        StepAt(c, width, height, r, col);
      }
      cells := next;
    }

    /** `set_cells`: each pair `(a, b)` makes the cell at `a + width * b` Alive, in order. */
    method SetCells(pairs: seq<(nat, nat)>)
      requires Valid() && SeedsInRange(cells.Length, width, pairs)
      modifies cells
      ensures cells[..] == Seeded(old(cells[..]), width, pairs)
    {
      ghost var c := cells[..];
      for k := 0 to |pairs|
        invariant SeedsInRange(|c|, width, pairs[..k])
        invariant cells[..] == Seeded(c, width, pairs[..k])
      {
        var (y, x) := pairs[k];
        var idx := Index(width, x, y);
        cells[idx] := Alive;
        assert pairs[..k + 1][..k] == pairs[..k];
      }
      assert pairs[..|pairs|] == pairs;
    }

    /** `render` / `Display::fmt`: the text rendering of the current cells. */
    function RenderText(): (s: string)
      reads this, cells
      requires Valid() && width > 0
      ensures |s| == height * (width + 1)
      ensures forall x: nat | x < height :: Pos(width, x, width) < |s| && s[Pos(width, x, width)] == '\n'
      ensures forall x: nat, y: nat | x < height && y < width ::
                Pos(width, x, y) < |s| && Index(width, x, y) < cells.Length &&
                s[Pos(width, x, y)] == Glyph(cells[Index(width, x, y)])
    {
      RenderShape(cells[..], width, height);
      Render(cells[..], width)
    }
  }
}
