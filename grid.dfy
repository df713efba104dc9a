/**
 * Geometry of the toroidal grid: the row-major index map, the wrapped
 * neighbour count and the synchronous generation step, all on values.
 */
module Grid {
  import opened Cells

  /** A cell sequence of a `width` x `height` grid and a position (row `x`, column `y`) in it. */
  predicate InGrid(cells: seq<Cell>, width: nat, height: nat, x: nat, y: nat)
  {
    |cells| == width * height && x < height && y < width
  }

  /** `get_index`: the cell at row `x`, column `y` is stored at `y + width * x`. */
  function Index(width: nat, x: nat, y: nat): nat
  {
    y + width * x
  }

  /** Every position of a `width` x `height` grid has its index inside the cell sequence. */
  lemma IndexInRange(width: nat, height: nat, x: nat, y: nat)
    requires x < height && y < width
    ensures Index(width, x, y) < width * height
  {
    calc {
      Index(width, x, y);
    <  width + width * x;
    == width * (x + 1);
    <= { MulMonotone(width, x + 1, height); }
      width * height;
    }
  }

  lemma MulMonotone(a: nat, b: int, c: int)
    requires b <= c
    ensures a * b <= a * c
  {
  }

  /** The index map is one-to-one: the row and the column are recovered by division. */
  lemma IndexInverse(width: nat, x: nat, y: nat)
    requires y < width
    ensures Index(width, x, y) / width == x
    ensures Index(width, x, y) % width == y
  {
    var i := Index(width, x, y);
    DivModUnique(i, width, x, y);
  }

  /** Distinct positions have distinct indices. */
  lemma IndexInjective(width: nat, x1: nat, y1: nat, x2: nat, y2: nat)
    requires y1 < width && y2 < width && (x1 != x2 || y1 != y2)
    ensures Index(width, x1, y1) != Index(width, x2, y2)
  {
    IndexInverse(width, x1, y1);
    IndexInverse(width, x2, y2);
  }

  /** Every index of a `width` x `height` grid is the index of exactly one position. */
  lemma IndexOnto(width: nat, height: nat, i: nat)
    requires i < width * height
    ensures width > 0 && 0 <= i / width < height && i % width < width
    ensures Index(width, i / width, i % width) == i
  {
    assert width > 0;
    var q, r := i / width, i % width;
    assert i == width * q + r;
    if q >= height {
      MulMonotone(width, height, q);
      assert false;
    }
  }

  lemma DivModUnique(i: int, d: nat, q: int, r: nat)
    requires r < d && i == r + d * q
    ensures i / d == q && i % d == r
  {
    var q', r' := i / d, i % d;
    assert d * q' + r' == d * q + r;
    if q' < q {
      MulMonotone(d, q' + 1, q);
      assert false;
    } else if q' > q {
      MulMonotone(d, q + 1, q');
      assert false;
    }
  }

  /** One coordinate moved by the unsigned offset `d` and wrapped modulo `n`. */
  function Wrap(v: nat, d: nat, n: nat): (r: nat)
    requires n > 0
    ensures r < n
  {
    (v + d) % n
  }

  /**
   * The unsigned offsets of one axis: `n - 1` moves back by one (with
   * wraparound), `0` stays and `1` moves forward by one.
   */
  lemma WrapBack(v: nat, n: nat)
    requires v < n
    ensures Wrap(v, n - 1, n) == (v - 1) % n == Prev(v, n)
  {
    if v == 0 {
      DivModUnique(n - 1, n, 0, n - 1);
      DivModUnique(-1, n, -1, n - 1);
    } else {
      DivModUnique(v + n - 1, n, 1, v - 1);
      DivModUnique(v - 1, n, 0, v - 1);
    }
  }

  lemma WrapStay(v: nat, n: nat)
    requires v < n
    ensures Wrap(v, 0, n) == v % n == v
  {
    DivModUnique(v, n, 0, v);
  }

  lemma WrapForward(v: nat, n: nat)
    requires v < n
    ensures Wrap(v, 1, n) == (v + 1) % n == Succ(v, n)
  {
    if v == n - 1 {
      DivModUnique(v + 1, n, 1, 0);
    } else {
      DivModUnique(v + 1, n, 0, v + 1);
    }
  }

  /** The offsets `[n - 1, 0, 1]` that `live_neighbor_count` iterates over for an axis of size `n`. */
  function Offsets(n: nat): seq<nat>
    requires n > 0
  {
    [n - 1, 0, 1]
  }

  /** What the offset pair (dx, dy) adds to the count at (x, y): nothing for (0, 0), else the wrapped cell's value. */
  function Probe(cells: seq<Cell>, width: nat, height: nat, x: nat, y: nat, dx: nat, dy: nat): (r: nat)
    requires InGrid(cells, width, height, x, y)
    ensures r <= 1
    ensures dx == 0 && dy == 0 ==> r == 0
  {
    if dx == 0 && dy == 0 then 0
    else
      var nx, ny := Wrap(x, dx, height), Wrap(y, dy, width);
      IndexInRange(width, height, nx, ny);
      Value(cells[Index(width, nx, ny)])
  }

  /** The count contributed by one row offset `dx` over the column offsets `dys` (the inner loop). */
  function RowCount(cells: seq<Cell>, width: nat, height: nat, x: nat, y: nat, dx: nat, dys: seq<nat>): (r: nat)
    requires InGrid(cells, width, height, x, y)
    ensures r <= |dys|
    decreases |dys|
  {
    if dys == [] then 0
    else RowCount(cells, width, height, x, y, dx, dys[..|dys| - 1]) + Probe(cells, width, height, x, y, dx, dys[|dys| - 1])
  }

  /** The count over every row offset in `dxs` and column offset in `dys` (the outer loop). */
  function CountOver(cells: seq<Cell>, width: nat, height: nat, x: nat, y: nat, dxs: seq<nat>, dys: seq<nat>): nat
    requires InGrid(cells, width, height, x, y)
    decreases |dxs|
  {
    if dxs == [] then 0
    else CountOver(cells, width, height, x, y, dxs[..|dxs| - 1], dys) + RowCount(cells, width, height, x, y, dxs[|dxs| - 1], dys)
  }

  /** `live_neighbor_count(x, y)`: the live cells over the wrapped offsets, (0, 0) excluded. */
  function NeighborCount(cells: seq<Cell>, width: nat, height: nat, x: nat, y: nat): nat
    requires InGrid(cells, width, height, x, y)
  {
    CountOver(cells, width, height, x, y, Offsets(height), Offsets(width))
  }

  /** The previous coordinate on a cyclic axis of size `n`: the first wraps to the last. */
  function Prev(v: nat, n: nat): (r: nat)
    requires v < n
    ensures r < n
  {
    if v == 0 then n - 1 else v - 1
  }

  /** The next coordinate on a cyclic axis of size `n`: the last wraps to the first. */
  function Succ(v: nat, n: nat): (r: nat)
    requires v < n
    ensures r < n
  {
    if v == n - 1 then 0 else v + 1
  }

  /** The value of the cell at row `r`, column `c`. */
  function Live(cells: seq<Cell>, width: nat, height: nat, r: nat, c: nat): (v: nat)
    requires |cells| == width * height && r < height && c < width
    ensures v <= 1
  {
    IndexInRange(width, height, r, c);
    Value(cells[Index(width, r, c)])
  }

  /**
   * The textbook toroidal Moore-neighbourhood count: the eight cells around
   * (x, y) when the first and last rows, and the first and last columns, are adjacent.
   */
  function TorusCount(cells: seq<Cell>, width: nat, height: nat, x: nat, y: nat): (r: nat)
    requires InGrid(cells, width, height, x, y)
    ensures r <= 8
  {
    var up, down, left, right := Prev(x, height), Succ(x, height), Prev(y, width), Succ(y, width);
    Live(cells, width, height, up, left) + Live(cells, width, height, up, y) + Live(cells, width, height, up, right) +
    Live(cells, width, height, x, left) + Live(cells, width, height, x, right) +
    Live(cells, width, height, down, left) + Live(cells, width, height, down, y) + Live(cells, width, height, down, right)
  }

  lemma RowCountOfThree(cells: seq<Cell>, width: nat, height: nat, x: nat, y: nat, dx: nat, dys: seq<nat>)
    requires InGrid(cells, width, height, x, y) && |dys| == 3
    ensures RowCount(cells, width, height, x, y, dx, dys) ==
            Probe(cells, width, height, x, y, dx, dys[0]) + Probe(cells, width, height, x, y, dx, dys[1]) +
            Probe(cells, width, height, x, y, dx, dys[2])
  {
    var d2 := dys[..2];
    var d1 := d2[..1];
    assert d1[..0] == [];
    assert RowCount(cells, width, height, x, y, dx, d1) == Probe(cells, width, height, x, y, dx, dys[0]);
    assert RowCount(cells, width, height, x, y, dx, d2)
        == RowCount(cells, width, height, x, y, dx, d1) + Probe(cells, width, height, x, y, dx, dys[1]);
  }

  lemma CountOverOfThree(cells: seq<Cell>, width: nat, height: nat, x: nat, y: nat, dxs: seq<nat>, dys: seq<nat>)
    requires InGrid(cells, width, height, x, y) && |dxs| == 3
    ensures CountOver(cells, width, height, x, y, dxs, dys) ==
            RowCount(cells, width, height, x, y, dxs[0], dys) + RowCount(cells, width, height, x, y, dxs[1], dys) +
            RowCount(cells, width, height, x, y, dxs[2], dys)
  {
    var d2 := dxs[..2];
    var d1 := d2[..1];
    assert d1[..0] == [];
    assert CountOver(cells, width, height, x, y, d1, dys) == RowCount(cells, width, height, x, y, dxs[0], dys);
    assert CountOver(cells, width, height, x, y, d2, dys)
        == CountOver(cells, width, height, x, y, d1, dys) + RowCount(cells, width, height, x, y, dxs[1], dys);
  }

  /**
   * At most eight neighbours are counted: of the nine offset pairs, the pair
   * (0, 0) contributes nothing.
   */
  lemma NeighborCountBound(cells: seq<Cell>, width: nat, height: nat, x: nat, y: nat)
    requires InGrid(cells, width, height, x, y)
    ensures NeighborCount(cells, width, height, x, y) <= 8
  {
    var dxs, dys := Offsets(height), Offsets(width);
    CountOverOfThree(cells, width, height, x, y, dxs, dys);
    RowCountOfThree(cells, width, height, x, y, dxs[1], dys);
  }

  /**
   * On a grid at least two cells wide and high, the unsigned-offset count of
   * `live_neighbor_count` is the toroidal count: offset `n - 1` is the step
   * back by one with wraparound, and only the pair (0, 0) is skipped.
   */
  lemma NeighborCountIsTorus(cells: seq<Cell>, width: nat, height: nat, x: nat, y: nat)
    requires InGrid(cells, width, height, x, y)
    requires width >= 2 && height >= 2
    ensures NeighborCount(cells, width, height, x, y) == TorusCount(cells, width, height, x, y)
  {
    WrapBack(x, height); WrapStay(x, height); WrapForward(x, height);
    WrapBack(y, width); WrapStay(y, width); WrapForward(y, width);
    var dxs, dys := Offsets(height), Offsets(width);
    CountOverOfThree(cells, width, height, x, y, dxs, dys);
    RowCountOfThree(cells, width, height, x, y, dxs[0], dys);
    RowCountOfThree(cells, width, height, x, y, dxs[1], dys);
    RowCountOfThree(cells, width, height, x, y, dxs[2], dys);
  }

  /**
   * On a one-cell axis the offsets `n - 1` and `0` coincide, so the skip of
   * (0, 0) drops more than one offset pair and the source counts the cell
   * itself fewer times than the eight-position torus count does: on a 1 x 1
   * Alive grid the source counts 5 and the torus count is 8.
   */
  lemma OneByOneCount(cells: seq<Cell>)
    requires cells == [Alive]
    ensures NeighborCount(cells, 1, 1, 0, 0) == 5
    ensures TorusCount(cells, 1, 1, 0, 0) == 8
  {
    var dxs := Offsets(1);
    assert Probe(cells, 1, 1, 0, 0, 0, 0) == 0;
    assert Probe(cells, 1, 1, 0, 0, 0, 1) == 1 && Probe(cells, 1, 1, 0, 0, 1, 0) == 1;
    assert Probe(cells, 1, 1, 0, 0, 1, 1) == 1;
    CountOverOfThree(cells, 1, 1, 0, 0, dxs, dxs);
    RowCountOfThree(cells, 1, 1, 0, 0, 0, dxs);
    RowCountOfThree(cells, 1, 1, 0, 0, 1, dxs);
  }

  /** The new state of the cell at index `i`: the rule on its old state and its neighbour count. */
  function StepCell(cells: seq<Cell>, width: nat, height: nat, i: nat): Cell
    requires |cells| == width * height && i < width * height
  {
    IndexOnto(width, height, i);
    Rule(cells[i], NeighborCount(cells, width, height, i / width, i % width))
  }

  /**
   * `next` on values: every cell is replaced by the rule applied to its
   * pre-step state and its neighbour count in the pre-step grid.
   */
  function Step(cells: seq<Cell>, width: nat, height: nat): (r: seq<Cell>)
    requires |cells| == width * height
    ensures |r| == |cells|
  {
    seq(width * height, i requires 0 <= i < width * height => StepCell(cells, width, height, i))
  }

  /** The step is synchronous: the new cell at (x, y) depends only on the old grid. */
  lemma StepAt(cells: seq<Cell>, width: nat, height: nat, x: nat, y: nat)
    requires InGrid(cells, width, height, x, y)
    ensures Index(width, x, y) < |Step(cells, width, height)|
    ensures Step(cells, width, height)[Index(width, x, y)]
         == Rule(cells[Index(width, x, y)], NeighborCount(cells, width, height, x, y))
  {
    IndexInRange(width, height, x, y);
    IndexInverse(width, x, y);
    assert Step(cells, width, height)[Index(width, x, y)] == StepCell(cells, width, height, Index(width, x, y));
  }

  /** On a grid at least 2 x 2, the new cell at (x, y) is the rule applied to its toroidal neighbour count. */
  lemma StepIsTorus(cells: seq<Cell>, width: nat, height: nat, x: nat, y: nat)
    requires InGrid(cells, width, height, x, y)
    requires width >= 2 && height >= 2
    ensures Index(width, x, y) < |Step(cells, width, height)|
    ensures Step(cells, width, height)[Index(width, x, y)]
         == Rule(cells[Index(width, x, y)], TorusCount(cells, width, height, x, y))
  {
    StepAt(cells, width, height, x, y);
    NeighborCountIsTorus(cells, width, height, x, y);
  }

  /** On a grid with no cells the step changes nothing. */
  lemma StepEmpty(cells: seq<Cell>, width: nat, height: nat)
    requires |cells| == width * height && (width == 0 || height == 0)
    ensures Step(cells, width, height) == cells
  {
  }
}
